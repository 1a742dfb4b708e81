/** What each event does to a tray, as a relation between the moments before and after it. */
module TraySteps {
  import opened Wrappers
  import opened PaneTree
  import opened PaneEdits
  import opened LayoutMaps
  import opened PaneSelections
  import opened PaneMoves
  import opened PaneRotations
  import opened PaneResizes
  import opened PaneGeometries
  import opened PaneNavigations
  import opened PaneMoveSessions
  import opened Trays

  datatype TrayEvent =
    | SplitPane(axis: Axis, insertion: Insertion)
    | FocusOn(pane: PaneId)
    | FocusTowards(direction: FocusDirection)
    | ClosePane
    | MaximizePane
    | SelectPane
    | StepRange(direction: FocusDirection)
    | PromoteRange
    | DescendRange
    | ResizeRange(delta: int)
    | EqualizeRange
    | RotateRange
    | BeginMove
    | AimTowards(direction: FocusDirection)
    | PromoteAim
    | DescendAim
    | SwapInstead
    | DropTowards(drop: DropDirection)
    | Advance
    | WindowSize(rows: nat, cols: nat)
    | Exits(ended: set<PaneId>)

  /** What a move under way is aimed at. */
  datatype Aim = Aim(source: PaneSelection, target: Option<NodeId>, stage: MoveStage, operation: MoveOperation,
                     direction: Option<DropDirection>)

  /** A tray between two events. */
  datatype Moment = Moment(tree: Tree, next: nat, panes: set<PaneId>, nextPane: nat, focused: PaneId, maximized: bool,
                           selection: Option<PaneSelection>, aim: Option<Aim>, rows: nat, cols: nat)

  ghost function Now(tray: Tray): Moment
    reads tray, tray.layout, tray.session
  {
    Moment(tray.layout.tree, tray.layout.nextNodeValue, tray.panes, tray.nextPaneValue, tray.focused, tray.maximized,
           tray.selection, AimOf(tray.session), tray.rows, tray.cols)
  }

  ghost function AimOf(session: PaneMoveSession?): Option<Aim>
    reads session
  {
    if session == null then None
    else Some(Aim(session.source, session.target, session.stage, session.operation, session.dropDirection))
  }

  /** The layout is a sound tree whose leaves show exactly the panes of the tray, one of them focused. At most one of
      maximized view, selection and move is active; what is selected, or is being moved, is a slice of this very
      layout, and a move's target is eligible in it. */
  ghost predicate Consistent(m: Moment) {
    && WellFormed(m.tree, m.next)
    && (forall p :: p in m.panes <==> p in PaneBag(m.tree))
    && (forall p :: p in m.panes ==> 0 < p < m.nextPane)
    && m.focused in m.panes
    && (m.maximized ==> m.selection.None? && m.aim.None? && |m.panes| >= 2)
    && (m.selection.Some? ==> m.aim.None? && Follows(m.tree, m.selection.value))
    && (m.aim.Some? ==> |m.panes| >= 2 && Aimed(m.tree, m.aim.value))
  }

  ghost predicate Aimed(t: Tree, aim: Aim) {
    Fitting(t, aim.source, aim.target, aim.stage, aim.operation, aim.direction)
  }

  lemma {:induction false} ValidNow(tray: Tray)
    requires tray.Valid()
    ensures Consistent(Now(tray))
  {
    hide Represents, WellFormed, Fitting, Follows, PaneBag;
    RepresentsWellFormed(tray.layout.nodes, tray.layout.root, tray.layout.nextNodeValue, tray.layout.tree);
  }

  // ----- the events, one by one

  /** A new pane beside the focused one if there are ids left; nothing else changes if there are none. */
  ghost predicate Splits(m: Moment, axis: Axis, insertion: Insertion, m': Moment) {
    exists node :: ShowsPane(m.tree, node, m.focused) &&
      if m.nextPane < MAX_NODE_VALUE && RoomToSplit(m.tree, node, axis, m.next) then
        && m'
             == Moment(m'.tree, m'.next, m.panes + {m.nextPane}, m.nextPane + 1, m.nextPane, false, None, None,
                       m.rows, m.cols)
        && SplitTo(m.tree, node, axis, m.nextPane, insertion, m.next, m'.tree)
        && AddedNextTo(PaneOrder(m.tree), PaneOrder(m'.tree), m.focused, m.nextPane, insertion)
      else
        m.nextPane <= m'.nextPane && m' == m.(next := m'.next, nextPane := m'.nextPane)
  }

  ghost predicate Focuses(m: Moment, pane: PaneId, m': Moment) {
    m' == if pane in m.panes && pane != m.focused then m.(focused := pane, selection := None, aim := None) else m
  }

  /** The nearest of the panes shown in a direction is focused, if there is one. */
  ghost predicate FocusesTowards(m: Moment, direction: FocusDirection, m': Moment) {
    exists regions: Regions, node: NodeId, nearest: Option<NodeId> ::
      && Pictured(m, regions) && LeafRef(node, m.focused) in Leaves(m.tree)
      && node in regions && Known(regions, LeafIds(Leaves(m.tree)))
      && IsNearest(regions, LeafIds(Leaves(m.tree)), node, direction, nearest)
      && if nearest.None? then m' == m
         else LeafRef(nearest.value, m'.focused) in Leaves(m.tree) && Focuses(m, m'.focused, m')
              && m'.focused != m.focused
  }

  /** The regions of the layout in the window as it is. */
  ghost predicate Pictured(m: Moment, regions: Regions) {
    Sound(m.tree, 0) && Shown(m.tree, regions, LeafIds(Leaves(m.tree)))
    && Laid(regions, m.tree, Region(0, 0, m.rows, m.cols))
  }

  /** The focused pane goes unless it is the last, and its neighbour is focused. */
  ghost predicate Closes(m: Moment, m': Moment) {
    if |m.panes| <= 1 then m' == m
    else
      && m' == Moment(m'.tree, m.next, m.panes - {m.focused}, m.nextPane, m'.focused, false, None, None, m.rows, m.cols)
      && PaneOrder(m'.tree) == Kept(PaneOrder(m.tree), {m.focused})
      && NextTo(PaneOrder(m.tree), m.focused, m'.focused)
  }

  /** All panes have ended, and the tray with them. */
  ghost predicate Over(m: Moment, event: TrayEvent) {
    event.Exits? && m.panes <= event.ended
  }

  /** Exactly the ended panes go, unless no pane would be left. */
  ghost predicate Reaps(m: Moment, ended: set<PaneId>, m': Moment) {
    if m.panes * ended == {} || m.panes <= ended then m' == m
    else
      && m' == Moment(m'.tree, m.next, m.panes - ended, m.nextPane, m'.focused, false, None, None, m.rows, m.cols)
      && PaneOrder(m'.tree) == Kept(PaneOrder(m.tree), ended)
      && FocusKept(PaneOrder(m.tree), m.focused, ended, m'.focused)
  }

  ghost predicate Maximizes(m: Moment, m': Moment) {
    m' == if |m.panes| == 1 then m else m.(maximized := !m.maximized, selection := None, aim := None)
  }

  /** Selecting starts at the leaf of the focused pane; a selection ends. */
  ghost predicate Selects(m: Moment, m': Moment) {
    && m' == m.(maximized := false, selection := m'.selection, aim := None)
    && (m'.selection.Some? <==> m.selection.None?)
    && (m'.selection.Some? ==>
          |m'.selection.value.nodes| == 1 && LeafRef(m'.selection.value.nodes[0], m.focused) in Leaves(m.tree))
  }

  ghost predicate StepsRange(m: Moment, direction: FocusDirection, m': Moment) {
    && m' == m.(selection := m'.selection)
    && if m.selection.Some? && Steps(m.tree, m.selection.value, direction)
       then m'.selection.Some? && SteppedTo(m.tree, m.selection.value, direction, m'.selection.value)
       else m' == m
  }

  ghost predicate PromotesRange(m: Moment, m': Moment) {
    && m' == m.(selection := m'.selection)
    && if m.selection.Some? && m.selection.value.parent.Some?
       then m'.selection.Some? && m'.selection.value.nodes == [m.selection.value.parent.value]
       else m' == m
  }

  ghost predicate DescendsRange(m: Moment, m': Moment) {
    && m' == m.(selection := m'.selection)
    && if m.selection.Some? && Descends(m.tree, m.selection.value)
       then m'.selection.Some?
            && m'.selection.value.nodes == [At(m.tree, m.selection.value.nodes[0]).tree.kids[0].tree.id]
       else m' == m
  }

  /** A single split is selected. */
  ghost predicate Descends(t: Tree, s: PaneSelection) {
    |s.nodes| == 1 && s.nodes[0] in Bag(t) && At(t, s.nodes[0]).tree.Split? && |At(t, s.nodes[0]).tree.kids| > 0
  }

  ghost predicate ResizesRange(m: Moment, delta: int, m': Moment) {
    exists s :: Chosen(m.tree, m.selection, m.focused, s) && Follows(m.tree, s)
      && Resized(m.tree, s, delta, m'.tree)
      && m' == m.(tree := m'.tree, maximized := m.maximized && !Resizes(m.tree, s, delta), aim := None)
  }

  ghost predicate EqualizesRange(m: Moment, m': Moment) {
    exists s :: Chosen(m.tree, m.selection, m.focused, s)
      && Equalized(m.tree, s, m.selection.Some?, m'.tree)
      && m' == m.(tree := m'.tree, maximized := m.maximized && m'.tree == m.tree, aim := None)
  }

  /** The chosen level is rotated, unless there is none to rotate or no id left for a group. */
  ghost predicate RotatesRange(m: Moment, m': Moment) {
    exists s :: Chosen(m.tree, m.selection, m.focused, s) && |s.nodes| > 0 && s.nodes[0] in Bag(m.tree)
      && if (if Groups(m.tree, s) then m.next == MAX_NODE_VALUE else RotatedSplit(m.tree, s).None?)
         then m' == m.(aim := None)
         else
           && m' == m.(tree := RotatedTree(m.tree, s, m.next), next := m.next + (if Groups(m.tree, s) then 1 else 0),
                       maximized := false, selection := m'.selection, aim := None)
           && (m'.selection.Some? <==> m.selection.Some?)
           && (m'.selection.Some? ==> RotatedAlong(m, s, m'.selection.value))
  }

  ghost predicate RotatedAlong(m: Moment, s: PaneSelection, s': PaneSelection)
    requires |s.nodes| > 0 && s.nodes[0] in Bag(m.tree)
  {
    && s'.nodes == RotatedNodes(m.tree, s, m.next) && |s'.nodes| > 0
    && s'.anchor == KeptAnchor(s, Groups(m.tree, s), s'.nodes)
  }

  /** A move begins with the selection or the focused leaf, or is given up. */
  ghost predicate Begins(m: Moment, m': Moment) {
    if m.aim.Some? then m' == m.(aim := None)
    else if |m.panes| == 1 then m' == m
    else exists s :: Chosen(m.tree, m.selection, m.focused, s)
           && m' == m.(maximized := false, selection := None, aim := Some(Aim(s, None, Targeting, Move, None)))
  }

  /** The target becomes what the search over the eligible leaves finds, if anything. */
  ghost predicate AimsTowards(m: Moment, direction: FocusDirection, m': Moment) {
    if m.aim.None? || m.aim.value.stage != Targeting then m' == m
    else
      var aim := m.aim.value;
      var leaves := LeafIds(Leaves(m.tree));
      var from := if aim.target.Some? then aim.target.value else aim.source.active;
      exists regions: Regions, found: Option<NodeId> ::
        && Pictured(m, regions) && from in regions && Known(regions, leaves)
        && Finds(regions, leaves, from, direction, EligibleAmong(m.tree, aim.source, leaves), found)
        && m' == m.(aim := Some(aim.(target := if found.Some? then found else aim.target)))
  }

  /** The event changes only the aim of a move. */
  ghost predicate Retargets(m: Moment, target: Option<NodeId>, m': Moment)
    requires m.aim.Some?
  {
    m' == m.(aim := Some(m.aim.value.(target := if target.Some? then target else m.aim.value.target)))
  }

  ghost function AimAbove(t: Tree, aim: Aim): Option<NodeId> {
    if aim.stage == Targeting && aim.target.Some? && aim.target.value in Bag(t) then
      var c := At(t, aim.target.value).ctx;
      if c.In? && Eligible(t, aim.source, c.id) then Some(c.id) else None
    else None
  }

  ghost function AimBelow(t: Tree, aim: Aim): Option<NodeId> {
    if aim.stage == Targeting && aim.target.Some? then FirstEligible(t, aim.source, aim.target.value) else None
  }

  ghost predicate SwapsInstead(m: Moment, m': Moment) {
    m' == if m.aim.None? || m.aim.value.stage != Targeting || |m.aim.value.source.nodes| != 1 then m
          else m.(aim := Some(m.aim.value.(operation := if m.aim.value.operation == Move then Swap else Move)))
  }

  ghost predicate DropsTowards(m: Moment, drop: DropDirection, m': Moment) {
    m' == if m.aim.None? || m.aim.value.stage != Dropping then m
          else m.(aim := Some(m.aim.value.(direction := Some(drop))))
  }

  /** The target is locked, or the move or swap carried out if it is possible. */
  ghost predicate Advances(m: Moment, m': Moment) {
    if m.aim.None? then m' == m
    else
      var aim := m.aim.value;
      if aim.operation == Move && aim.stage == Targeting then
        m' == if aim.target.Some? then m.(aim := Some(aim.(stage := Dropping))) else m
      else
        var o := Outlook(m.tree, aim.source, aim.target, aim.stage, aim.operation, aim.direction, m.next);
        if o.Done? && o.value.Some? then m' == m.(tree := o.value.value, next := m'.next, aim := None) else m' == m
  }

  /** What an event does. */
  ghost predicate Does(m: Moment, event: TrayEvent, m': Moment) {
    match event
    case SplitPane(axis, insertion) => Splits(m, axis, insertion, m')
    case FocusOn(pane) => Focuses(m, pane, m')
    case FocusTowards(direction) => FocusesTowards(m, direction, m')
    case ClosePane => Closes(m, m')
    case MaximizePane => Maximizes(m, m')
    case SelectPane => Selects(m, m')
    case StepRange(direction) => StepsRange(m, direction, m')
    case PromoteRange => PromotesRange(m, m')
    case DescendRange => DescendsRange(m, m')
    case ResizeRange(delta) => ResizesRange(m, delta, m')
    case EqualizeRange => EqualizesRange(m, m')
    case RotateRange => RotatesRange(m, m')
    case BeginMove => Begins(m, m')
    case AimTowards(direction) => AimsTowards(m, direction, m')
    case PromoteAim => if m.aim.None? then m' == m else Retargets(m, AimAbove(m.tree, m.aim.value), m')
    case DescendAim => if m.aim.None? then m' == m else Retargets(m, AimBelow(m.tree, m.aim.value), m')
    case SwapInstead => SwapsInstead(m, m')
    case DropTowards(drop) => DropsTowards(m, drop, m')
    case Advance => Advances(m, m')
    case WindowSize(rows, cols) => m' == m.(rows := rows, cols := cols)
    case Exits(ended) => Reaps(m, ended, m')
  }

  // ----- what every event keeps

  /** The event carries out a drop onto a split along that split's own axis. */
  ghost predicate JoinsAxes(m: Moment, event: TrayEvent) {
    event == Advance && m.aim.Some?
    && SameAxisDrop(m.tree, m.aim.value.target, m.aim.value.operation, m.aim.value.direction)
  }

  /** Only splitting, closing and ended programs add or remove leaves. */
  predicate KeepsPanes(event: TrayEvent) {
    !event.SplitPane? && !event.ClosePane? && !event.Exits?
  }

  /** The event has done what it should, the leaves are the same unless panes come or go, and alternation is lost only
      at a step that joins axes. */
  ghost predicate StepKeeps(before: Moment, event: TrayEvent, after: Moment) {
    && Does(before, event, after)
    && (KeepsPanes(event) ==> multiset(Leaves(after.tree)) == multiset(Leaves(before.tree)))
    && (Alternates(before.tree) && !JoinsAxes(before, event) ==> Alternates(after.tree))
  }

  /** The event removes the pane: it is focused and closed, or its program has ended. */
  ghost predicate Removes(m: Moment, event: TrayEvent, pane: PaneId) {
    (event.ClosePane? && m.focused == pane) || (event.Exits? && pane in event.ended)
  }

  /** A pane is there afterwards if it was there and has not been removed, or if it is the one new pane of a split. */
  lemma {:induction false} PanesFollow(m: Moment, event: TrayEvent, m': Moment)
    requires Does(m, event, m')
    ensures m.nextPane <= m'.nextPane
    ensures forall p :: p in m.panes && !Removes(m, event, p) ==> p in m'.panes
    ensures forall p :: p in m'.panes ==> p in m.panes || (event.SplitPane? && p == m.nextPane)
    ensures m'.focused == m.focused || !KeepsPanes(event) || event.FocusOn? || event.FocusTowards?
  {
    hide Sound, Leaves, Follows, Eligible, PaneOrder, AddedNextTo, NextTo, Kept, FocusKept, Shown, Laid, Known;
    hide IsNearest, Finds;
    hide RoomToSplit, SplitTo, Steps, SteppedTo, Chosen, Resized, Resizes, Equalized, Groups, RotatedSplit, RotatedTree;
    hide RotatedAlong, Outlook, AimAbove, AimBelow, Standing;
  }
}
