/** Whole runs of a tray: any sequence of commands, window sizes and pane exits. */
module TrayRuns {
  import opened Wrappers
  import opened PaneTree
  import opened LayoutMaps
  import opened PaneSelections
  import opened PaneRotations
  import opened PaneResizes
  import opened PaneGeometries
  import opened PaneNavigations
  import opened PaneMoveSessions
  import opened Trays
  import opened TraySteps

  lemma {:induction false} SoundNow(tray: Tray)
    requires tray.Valid()
    ensures Sound(tray.layout.tree, 0)
  {
    hide Sound, Follows, Fitting, PaneBag;
  }

  /** Let the tray handle one event; over says that all its panes have ended. */
  method Handle(tray: Tray, event: TrayEvent) returns (over: bool)
    requires tray.Valid()
    modifies tray, tray.layout, tray.session
    ensures tray.Valid()
    ensures tray.session == null || tray.session == old(tray.session) || fresh(tray.session)
    ensures StepKeeps(old(Now(tray)), event, Now(tray))
    ensures over <==> Over(old(Now(tray)), event)
  {
    hide Alternates, Represents, PaneBag, Follows, Eligible, Leaves, JoinsAxes;
    hide Splits, Focuses, FocusesTowards, Closes, Maximizes, Selects, StepsRange, PromotesRange, DescendsRange;
    hide ResizesRange, EqualizesRange, RotatesRange, Begins, AimsTowards, Retargets, SwapsInstead, DropsTowards;
    hide Advances, Reaps;
    over := false;
    if event.Exits? {
      over := Reap(tray, event.ended);
    } else {
      HandleCommand(tray, event);
    }
  }

  method Reap(tray: Tray, ended: set<PaneId>) returns (over: bool)
    requires tray.Valid()
    modifies tray, tray.layout
    ensures tray.Valid()
    ensures tray.session == null || tray.session == old(tray.session)
    ensures Reaps(old(Now(tray)), ended, Now(tray))
    ensures over <==> old(tray.panes) <= ended
    ensures old(Alternates(tray.layout.tree)) ==> Alternates(tray.layout.tree)
  {
    hide Alternates, Represents, PaneBag, Follows, Eligible, PaneOrder, Kept, FocusKept;
    var update := tray.ReapExitedPanes(ended);
    over := update.TrayExited?;
  }

  /** The commands that add or close a pane. */
  method HandleCommand(tray: Tray, event: TrayEvent)
    requires tray.Valid()
    modifies tray, tray.layout, tray.session
    ensures tray.Valid()
    ensures tray.session == null || tray.session == old(tray.session) || fresh(tray.session)
    ensures !event.Exits? ==> StepKeeps(old(Now(tray)), event, Now(tray))
  {
    hide Alternates, Represents, PaneBag, Follows, Eligible, Leaves, PaneOrder, AddedNextTo, NextTo, Kept, JoinsAxes;
    hide RoomToSplit, SplitTo, ShowsPane;
    hide Focuses, FocusesTowards, Maximizes, Selects, StepsRange, PromotesRange, DescendsRange, ResizesRange;
    hide EqualizesRange, RotatesRange, Begins, AimsTowards, Retargets, SwapsInstead, DropsTowards, Advances, Reaps;
    if event.SplitPane? {
      var r, node := tray.SplitFocusedPane(event.axis, event.insertion);
    } else if event.ClosePane? {
      var r := tray.CloseFocusedPane();
    } else {
      HandleFocus(tray, event);
    }
  }

  /** The commands that focus another pane. */
  method HandleFocus(tray: Tray, event: TrayEvent)
    requires tray.Valid()
    modifies tray, tray.layout, tray.session
    ensures tray.Valid()
    ensures tray.session == null || tray.session == old(tray.session) || fresh(tray.session)
    ensures KeepsPanes(event) ==> StepKeeps(old(Now(tray)), event, Now(tray))
  {
    hide Alternates, Represents, PaneBag, Follows, Eligible, Leaves, JoinsAxes, Shown, Laid, IsNearest, Known;
    hide Splits, Closes, Maximizes, Selects, StepsRange, PromotesRange, DescendsRange, ResizesRange, EqualizesRange;
    hide RotatesRange, Begins, AimsTowards, Retargets, SwapsInstead, DropsTowards, Advances, Reaps;
    if event.FocusOn? {
      var r := tray.FocusPane(event.pane);
    } else if event.FocusTowards? {
      ghost var m := Now(tray);
      SoundNow(tray);
      var r, regions, node, nearest := tray.FocusPaneDirection(event.direction);
      assert Pictured(m, regions);
    } else {
      HandleView(tray, event);
    }
  }

  predicate KeepsFocus(event: TrayEvent) {
    KeepsPanes(event) && !event.FocusOn? && !event.FocusTowards?
  }

  /** The commands that change the view or the selection. */
  method HandleView(tray: Tray, event: TrayEvent)
    requires tray.Valid()
    modifies tray, tray.layout, tray.session
    ensures tray.Valid()
    ensures tray.session == null || tray.session == old(tray.session) || fresh(tray.session)
    ensures KeepsFocus(event) ==> StepKeeps(old(Now(tray)), event, Now(tray))
  {
    hide Alternates, Represents, PaneBag, Follows, Eligible, Leaves, JoinsAxes, Steps, SteppedTo;
    hide Splits, Focuses, FocusesTowards, Closes, ResizesRange, EqualizesRange, RotatesRange, Begins, AimsTowards;
    hide Retargets, SwapsInstead, DropsTowards, Advances, Reaps;
    if event.MaximizePane? {
      var r := tray.ToggleMaximized();
    } else if event.SelectPane? {
      tray.ToggleSelection();
    } else if event.StepRange? {
      var r := tray.StepSelection(event.direction);
    } else if event.PromoteRange? {
      var r := tray.PromoteSelection();
    } else if event.DescendRange? {
      var r := tray.DescendSelection();
    } else if event.WindowSize? {
      tray.Resize(event.rows, event.cols);
    } else {
      HandleChange(tray, event);
    }
  }

  predicate ChangesLayout(event: TrayEvent) {
    event.ResizeRange? || event.EqualizeRange? || event.RotateRange? || Aims(event)
  }

  predicate Aims(event: TrayEvent) {
    || event.BeginMove? || event.AimTowards? || event.PromoteAim? || event.DescendAim? || event.SwapInstead?
    || event.DropTowards? || event.Advance?
  }

  /** The commands that change percentages or rotate. */
  method HandleChange(tray: Tray, event: TrayEvent)
    requires tray.Valid()
    modifies tray, tray.layout, tray.session
    ensures tray.Valid()
    ensures tray.session == null || tray.session == old(tray.session) || fresh(tray.session)
    ensures ChangesLayout(event) ==> StepKeeps(old(Now(tray)), event, Now(tray))
  {
    hide Alternates, Represents, PaneBag, Follows, Eligible, Leaves, Chosen, JoinsAxes;
    hide Resizes, Resized, Equalized, Groups, RotatedSplit, RotatedTree, RotatedNodes, KeptAnchor;
    hide Splits, Focuses, FocusesTowards, Closes, Maximizes, Selects, StepsRange, PromotesRange, DescendsRange, Begins;
    hide AimsTowards, Retargets, SwapsInstead, DropsTowards, Reaps;
    if event.ResizeRange? {
      var r, s := tray.ResizeSelectedPanes(event.delta);
    } else if event.EqualizeRange? {
      var r, s := tray.EqualizeSelectedPanes();
    } else if event.RotateRange? {
      var r, s := tray.RotateSelectedPaneLevel();
    } else {
      HandleMove(tray, event);
    }
  }

  /** The commands that begin, end or carry out a move or a swap. */
  method HandleMove(tray: Tray, event: TrayEvent)
    requires tray.Valid()
    modifies tray, tray.layout, tray.session
    ensures tray.Valid()
    ensures tray.session == null || tray.session == old(tray.session) || fresh(tray.session)
    ensures Aims(event) ==> StepKeeps(old(Now(tray)), event, Now(tray))
  {
    hide Alternates, Represents, PaneBag, Follows, Eligible, Leaves, Chosen, Outlook, SameAxisDrop;
    hide Splits, Focuses, FocusesTowards, Closes, Maximizes, Selects, StepsRange, PromotesRange, DescendsRange;
    hide ResizesRange, EqualizesRange, RotatesRange, AimsTowards, Retargets, SwapsInstead, DropsTowards, Reaps;
    if event.BeginMove? {
      var r := tray.ToggleMove();
    } else if event.Advance? {
      var r := tray.AdvanceMove();
    } else {
      HandleAim(tray, event);
    }
  }

  /** The commands that aim a move or a swap. */
  method HandleAim(tray: Tray, event: TrayEvent)
    requires tray.Valid()
    modifies tray, tray.layout, tray.session
    ensures tray.Valid()
    ensures tray.session == null || tray.session == old(tray.session) || fresh(tray.session)
    ensures Aims(event) && !event.BeginMove? && !event.Advance? ==> StepKeeps(old(Now(tray)), event, Now(tray))
  {
    hide Alternates, Represents, PaneBag, Follows, Eligible, Leaves, FirstEligible, AimsTowards;
    hide Splits, Focuses, FocusesTowards, Closes, Maximizes, Selects, StepsRange, PromotesRange, DescendsRange;
    hide ResizesRange, EqualizesRange, RotatesRange, Begins, Advances, Reaps;
    if event.AimTowards? {
      TakeAim(tray, event.direction);
    } else if event.PromoteAim? {
      var r := tray.PromoteMoveTarget();
    } else if event.DescendAim? {
      var r := tray.DescendMoveTarget();
    } else if event.SwapInstead? {
      var r := tray.ToggleMoveSwap();
    } else if event.DropTowards? {
      var r := tray.SetMoveDropDirection(event.drop);
    }
  }

  method TakeAim(tray: Tray, direction: FocusDirection)
    requires tray.Valid()
    modifies tray.session
    ensures tray.Valid() && AimsTowards(old(Now(tray)), direction, Now(tray))
  {
    hide Alternates, Represents, PaneBag, Follows, Eligible, Leaves, Laid, Known, Finds, EligibleAmong;
    ghost var m := Now(tray);
    SoundNow(tray);
    var r, regions, leaves, found := tray.StepMoveTarget(direction);
    assert Pictured(m, regions);
  }

  // ----- traces of moments

  /** The moments of a run, each the outcome of its event. */
  ghost predicate Traces(trace: seq<Moment>, events: seq<TrayEvent>) {
    && 1 <= |trace| <= |events| + 1
    && (forall i :: 0 <= i < |trace| ==> Consistent(trace[i]))
    && (forall i :: 0 <= i < |trace| - 1 ==> StepKeeps(trace[i], events[i], trace[i + 1]))
  }

  lemma {:induction false} AlternatesUpTo(trace: seq<Moment>, events: seq<TrayEvent>, i: nat)
    requires Traces(trace, events) && i < |trace| && Alternates(trace[0].tree)
    requires forall j :: 0 <= j < i ==> !JoinsAxes(trace[j], events[j])
    ensures Alternates(trace[i].tree)
  {
    hide Alternates, JoinsAxes, Consistent, Does;
    if i > 0 {
      AlternatesUpTo(trace, events, i - 1);
      assert StepKeeps(trace[i - 1], events[i - 1], trace[i]);
    }
  }

  /** A pane stays until it is removed. */
  lemma {:induction false} PaneStays(trace: seq<Moment>, events: seq<TrayEvent>, i: nat, j: nat, pane: PaneId)
    requires Traces(trace, events) && i <= j < |trace| && pane in trace[i].panes
    requires forall k :: i <= k < j ==> !Removes(trace[k], events[k], pane)
    ensures pane in trace[j].panes
    decreases j
  {
    hide Alternates, JoinsAxes, Consistent, Does, Removes;
    if i < j {
      PaneStays(trace, events, i, j - 1, pane);
      assert StepKeeps(trace[j - 1], events[j - 1], trace[j]) && !Removes(trace[j - 1], events[j - 1], pane);
      PanesFollow(trace[j - 1], events[j - 1], trace[j]);
    }
  }

  /** The id of a pane that is gone is never given to another one. */
  lemma {:induction false} NeverReused(trace: seq<Moment>, events: seq<TrayEvent>, i: nat, j: nat, k: nat, pane: PaneId)
    requires Traces(trace, events) && i <= j <= k < |trace| && pane in trace[i].panes && pane !in trace[j].panes
    ensures pane !in trace[k].panes && pane < trace[k].nextPane
    decreases k
  {
    hide Alternates, JoinsAxes, Consistent, Does;
    if j == k {
      BelowNext(trace[i], pane);
      IdsGrow(trace, events, i, k);
    } else {
      NeverReused(trace, events, i, j, k - 1, pane);
      assert StepKeeps(trace[k - 1], events[k - 1], trace[k]);
      PanesFollow(trace[k - 1], events[k - 1], trace[k]);
    }
  }

  lemma {:induction false} IdsGrow(trace: seq<Moment>, events: seq<TrayEvent>, i: nat, k: nat)
    requires Traces(trace, events) && i <= k < |trace|
    ensures trace[i].nextPane <= trace[k].nextPane
    decreases k
  {
    hide Alternates, JoinsAxes, Consistent, Does;
    if i < k {
      IdsGrow(trace, events, i, k - 1);
      assert StepKeeps(trace[k - 1], events[k - 1], trace[k]);
      PanesFollow(trace[k - 1], events[k - 1], trace[k]);
    }
  }

  lemma {:induction false} BelowNext(m: Moment, pane: PaneId)
    requires Consistent(m) && pane in m.panes
    ensures pane < m.nextPane
  {
    hide WellFormed, PaneBag, Follows, Aimed;
  }

  /** Every run keeps the tray consistent at every moment: its panes are the leaves of its layout, the focused pane is
      one of them, at most one of maximized view, selection and move is active, and a selection or a move's source is
      a slice of the layout of that moment. Every event accounts for the panes, and the axes alternate at every moment
      up to the first drop that joins equal axes. The run ends with the event after which no program is left, or with
      the last one. */
  method Run(rows: nat, cols: nat, events: seq<TrayEvent>) returns (tray: Tray, ghost trace: seq<Moment>)
    ensures fresh(tray) && tray.Valid()
    ensures Traces(trace, events)
    ensures trace[0] == Moment(Leaf(1, 1), 2, {1}, 2, 1, false, None, None, rows, cols)
            && trace[|trace| - 1] == Now(tray)
    ensures forall i :: 0 <= i < |trace| - 2 ==> !Over(trace[i], events[i])
    ensures |trace| <= |events| ==> |trace| >= 2 && Over(trace[|trace| - 2], events[|trace| - 2])
    ensures forall i :: 0 <= i < |trace| && (forall j :: 0 <= j < i ==> !JoinsAxes(trace[j], events[j])) ==>
              Alternates(trace[i].tree)
  {
    hide Alternates, Represents, PaneBag, Follows, Eligible, Consistent, StepKeeps, Over, JoinsAxes;
    tray := new Tray(rows, cols);
    assert Alternates(tray.layout.tree) by {
      LeafFacts(tray.layout.tree);
    }
    ValidNow(tray);
    trace := [Now(tray)];
    var i, over := 0, false;
    while i < |events| && !over
      invariant 0 <= i <= |events| && |trace| == i + 1
      invariant fresh(tray) && fresh(tray.layout) && (tray.session == null || fresh(tray.session)) && tray.Valid()
      invariant trace[0] == Moment(Leaf(1, 1), 2, {1}, 2, 1, false, None, None, rows, cols) && trace[i] == Now(tray)
      invariant Alternates(trace[0].tree) && Traces(trace, events)
      invariant forall j :: 0 <= j < i - 1 ==> !Over(trace[j], events[j])
      invariant i > 0 ==> (over <==> Over(trace[i - 1], events[i - 1]))
      invariant i == 0 ==> !over
    {
      over := Handle(tray, events[i]);
      ValidNow(tray);
      trace := trace + [Now(tray)];
      i := i + 1;
    }
    forall k | 0 <= k < |trace| && (forall j :: 0 <= j < k ==> !JoinsAxes(trace[j], events[j]))
      ensures Alternates(trace[k].tree)
    {
      AlternatesUpTo(trace, events, k);
    }
  }
}
