/** Choosing a target, previewing and confirming a move or a swap. */
module PaneMoveSessions {
  import opened Wrappers
  import opened Percentages
  import opened PaneTree
  import opened PaneNodes
  import opened LayoutMaps
  import opened PaneLayouts
  import opened PaneSelections
  import opened MoveTrees
  import opened MoveMaps
  import opened PaneMoves
  import opened SwapTrees
  import opened PaneSwaps
  import opened SwapTheorems
  import opened MoveTheorems
  import opened PaneNavigations

  datatype MoveStage = Targeting | Dropping

  datatype MoveOperation = Move | Swap

  /** A candidate is neither a selected node nor above or below one. */
  ghost predicate Eligible(t: Tree, s: PaneSelection, x: NodeId) {
    && x in Bag(t)
    && forall i :: 0 <= i < |s.nodes| ==>
         s.nodes[i] in Bag(t) && s.nodes[i] != x && s.nodes[i] !in PathIds(At(t, x).ctx)
         && x !in PathIds(At(t, s.nodes[i]).ctx)
  }

  /** Guard adequacy: the eligibility test of the session is exactly what the mover will demand. A
      selected root, or all children of the root, can never get a target. */
  lemma {:induction false} EligibleIsValid(n: Nodes, t: Tree, s: PaneSelection, x: NodeId)
    requires Holds(n, t, None) && Distinct(Bag(t)) && Follows(t, s) && x in Bag(t)
    ensures Eligible(t, s, x) <==> Validated(t, s, x)
    ensures Eligible(t, s, x) && |s.nodes| == 1 ==> Separate(t, s.nodes[0], x)
  {
    hide Plug, Bag, BagKids, Locate, Distinct, HoldsCtx, Holds, PathIds;
    if s.parent.None? {
      RootInBag(t);
      RootAbove(t, x);
    } else {
      var r := RangeOf(t, s);
      EligibleApart(n, t, s, x, r);
      if r.Whole() && r.p.id == t.id {
        WholeRoot(n, t, r, x);
      }
    }
    if Eligible(t, s, x) && |s.nodes| == 1 {
      OverlapIsAncestry(t, s.nodes[0], x);
    }
  }

  /** The root is above every other node. */
  lemma {:induction false} RootAbove(t: Tree, x: NodeId)
    requires x in Bag(t) && Distinct(Bag(t))
    ensures x == t.id || t.id in PathIds(At(t, x).ctx)
  {
    if x != t.id {
      NotTop(t, x);
      RootOnPath(At(t, x).ctx, At(t, x).tree);
    }
  }

  lemma {:induction false} EligibleApart(n: Nodes, t: Tree, s: PaneSelection, x: NodeId, r: Range)
    requires Holds(n, t, None) && Distinct(Bag(t)) && IsSlice(t, s) && x in Bag(t) && r == RangeOf(t, s)
    ensures Eligible(t, s, x) <==> Apart(t, r.Sel(), x)
    ensures t == Plug(r.c, r.p) && r.p.Split? && r.first + r.count <= |r.p.kids|
  {
    hide Plug, Bag, BagKids, Locate, Distinct, HoldsCtx, Holds, PathIds;
    Open(n, t, s.parent.value);
    forall i | 0 <= i < |s.nodes|
      ensures s.nodes[i] in Bag(t)
      ensures s.nodes[i] != x && s.nodes[i] !in PathIds(At(t, x).ctx) && x !in PathIds(At(t, s.nodes[i]).ctx)
         <==> x !in Bag(r.Sel()[i].tree) && r.Sel()[i].tree.id !in Bag(At(t, x).tree)
    {
      var k := r.Sel()[i];
      assert Ids(r.Sel())[i] == k.tree.id && k == r.p.kids[r.first + i];
      OverlapTests(t, r, k, x);
    }
    assert forall k :: k in r.Sel() <==> exists i :: 0 <= i < |s.nodes| && r.Sel()[i] == k;
  }

  /** Outside the children of the root there is only the root. */
  lemma {:induction false} WholeRoot(n: Nodes, t: Tree, r: Range, x: NodeId)
    requires Holds(n, t, None) && Distinct(Bag(t)) && t == Plug(r.c, r.p) && r.p.Split? && r.p.id == t.id
    requires r.first + r.count <= |r.p.kids| && r.Whole() && 0 < r.count && x in Bag(t)
    ensures !Apart(t, r.Sel(), x)
  {
    hide Locate, Distinct, HoldsCtx, Holds;
    OpenAt(n, r.c, r.p);
    if r.c.In? {
      RootOnPath(r.c, r.p);
      NotOnOwnPath(r.c, r.p, t.id);
    }
    assert r.p == t;
    WholeStretch(r);
    if x == t.id {
      var k := r.Sel()[0];
      assert k in r.Sel();
      KidBag(t.kids, k);
      assert k.tree.id in Bag(k.tree);
      AtPlug(Top, t);
    } else {
      var k := InKids(t.kids, x);
      assert k in r.Sel();
    }
  }

  lemma {:induction false} WholeStretch(r: Range)
    requires r.p.Split? && r.first + r.count <= |r.p.kids| && r.Whole()
    ensures r.Sel() == r.p.kids
  {
  }

  /** The leaves and regions a target is looked for in. */
  ghost predicate Shown(t: Tree, regions: Regions, leaves: seq<NodeId>) {
    && leaves == LeafIds(Leaves(t))
    && (forall x :: x in regions <==> x in Bag(t))
    && forall x :: x in regions ==> regions[x].NonNegative()
  }

  /** The leaves that may become a target. */
  ghost function EligibleAmong(t: Tree, s: PaneSelection, leaves: seq<NodeId>): set<NodeId> {
    set x | x in leaves && Eligible(t, s, x)
  }

  lemma {:induction false} LeafInTree(t: Tree)
    ensures forall x :: x in LeafIds(Leaves(t)) ==> x in Bag(t)
    decreases t, 1
  {
    if t.Split? {
      LeafInKids(t.kids);
    }
  }

  lemma {:induction false} LeafInKids(ks: seq<Kid>)
    ensures forall x :: x in LeafIds(LeavesKids(ks)) ==> x in BagKids(ks)
    decreases ks, 0
  {
    if ks != [] {
      assert (ks decreases to ks[0]);
      LeafInTree(ks[0].tree);
      LeafInKids(ks[1..]);
      assert LeafIds(LeavesKids(ks)) == LeafIds(Leaves(ks[0].tree)) + LeafIds(LeavesKids(ks[1..]));
    }
  }

  /** The first child of a split that may become a target. */
  ghost function FirstEligible(t: Tree, s: PaneSelection, x: NodeId): Option<NodeId> {
    if x !in Bag(t) || At(t, x).tree.Leaf? then None else FirstEligibleAmong(t, s, At(t, x).tree.kids)
  }

  ghost function FirstEligibleAmong(t: Tree, s: PaneSelection, ks: seq<Kid>): (r: Option<NodeId>)
    ensures r.None? ==> forall k | k in ks :: !Eligible(t, s, k.tree.id)
    ensures r.Some? ==> Eligible(t, s, r.value) && exists i :: 0 <= i < |ks| && ks[i].tree.id == r.value
                                                        && forall j :: 0 <= j < i ==> !Eligible(t, s, ks[j].tree.id)
  {
    if ks == [] then None
    else if Eligible(t, s, ks[0].tree.id) then Some(ks[0].tree.id)
    else FirstEligibleAmong(t, s, ks[1..])
  }

  lemma {:induction false} FirstEligibleIs(t: Tree, s: PaneSelection, ks: seq<Kid>, i: nat)
    requires i <= |ks| && (forall j :: 0 <= j < i ==> !Eligible(t, s, ks[j].tree.id))
             && (i < |ks| ==> Eligible(t, s, ks[i].tree.id))
    ensures FirstEligibleAmong(t, s, ks) == if i < |ks| then Some(ks[i].tree.id) else None
  {
    hide Eligible;
    if i > 0 {
      FirstEligibleIs(t, s, ks[1..], i - 1);
    }
  }

  /** What a session would make of a layout: nothing, a rejection, or a new tree. */
  ghost function Outlook(t: Tree, s: PaneSelection, target: Option<NodeId>, stage: MoveStage, operation: MoveOperation,
                         direction: Option<DropDirection>, next: nat): Outcome<Option<Tree>>
  {
    if target.None? || |s.nodes| == 0 then Done(None)
    else if operation == Swap then
      if s.nodes[0] == target.value then Done(None)
      else if Swappable(t, s.nodes[0], target.value) then Done(Some(Swapped(t, s.nodes[0], target.value))) else Rejected
    else if stage == Targeting || direction.None? then Done(None)
    else if !CanMove(t, s, target.value, direction.value, next) then Rejected
    else if && SameLevel(t, s, target.value, PlacementAxis(direction.value))
            && AfterMove(t, s, target.value, direction.value, next) == t then Done(None)
    else Done(Some(AfterMove(t, s, target.value, direction.value, next)))
  }

  /** The one kind of drop that makes a split contain another of its own axis. */
  ghost predicate SameAxisDrop(t: Tree, target: Option<NodeId>, operation: MoveOperation,
                               direction: Option<DropDirection>) {
    && operation == Move && direction.Some? && target.Some? && target.value in Bag(t)
    && !Opposite(At(t, target.value).tree, PlacementAxis(direction.value))
  }

  /** A source that can be moved, an eligible target if any, one that is locked only for a move, a direction only once
      it is locked, and a single source for a swap. */
  ghost predicate Fitting(t: Tree, source: PaneSelection, target: Option<NodeId>, stage: MoveStage,
                          operation: MoveOperation,
                          direction: Option<DropDirection>) {
    && Follows(t, source)
    && (target.Some? ==> Eligible(t, source, target.value))
    && (stage == Dropping ==> target.Some? && operation == Move)
    && (direction.Some? ==> stage == Dropping)
    && (operation == Swap ==> |source.nodes| == 1)
  }

  class PaneMoveSession {
    const source: PaneSelection
    var target: Option<NodeId>
    var stage: MoveStage
    var operation: MoveOperation
    var dropDirection: Option<DropDirection>

    constructor (source: PaneSelection)
      ensures this.source == source && target.None? && stage == Targeting && operation == Move && dropDirection.None?
    {
      this.source := source;
      target := None;
      stage := Targeting;
      operation := Move;
      dropDirection := None;
    }

    /** What every reachable session satisfies against the layout it was begun on. */
    ghost predicate Fits(t: Tree)
      reads this
    {
      Fitting(t, source, target, stage, operation, dropDirection)
    }

    ghost predicate DropsOnSameAxis(t: Tree)
      reads this
    {
      SameAxisDrop(t, target, operation, dropDirection)
    }

    method TargetIsEligible(layout: PaneLayout, candidate: NodeId) returns (ok: bool)
      requires layout.Valid() && Follows(layout.tree, source) && candidate in Bag(layout.tree)
      ensures ok <==> Eligible(layout.tree, source, candidate)
    {
      hide Plug, Bag, BagKids, Locate, Distinct, HoldsCtx, Holds, PathIds, PaneBag, Sound, Leaves;
      ghost var t := layout.tree;
      SourceNodes(layout.nodes, t, source);
      var i := 0;
      while i < |source.nodes|
        invariant 0 <= i <= |source.nodes|
        invariant forall j :: 0 <= j < i ==>
                    source.nodes[j] != candidate && source.nodes[j] !in PathIds(At(t, candidate).ctx)
                    && candidate !in PathIds(At(t, source.nodes[j]).ctx)
      {
        var above := IsAncestor(layout.nodes, source.nodes[i], candidate, t);
        var below := IsAncestor(layout.nodes, candidate, source.nodes[i], t);
        if source.nodes[i] == candidate || above || below {
          return false;
        }
        i := i + 1;
      }
      return true;
    }

    method EligibleLeaves(layout: PaneLayout, leaves: seq<NodeId>) returns (eligible: set<NodeId>)
      requires layout.Valid() && Follows(layout.tree, source) && forall x :: x in leaves ==> x in Bag(layout.tree)
      ensures forall x :: x in eligible <==> x in leaves && Eligible(layout.tree, source, x)
    {
      hide Follows, Eligible;
      eligible := {};
      for i := 0 to |leaves|
        invariant forall x :: x in eligible <==> x in leaves[..i] && Eligible(layout.tree, source, x)
      {
        assert leaves[..i + 1] == leaves[..i] + [leaves[i]];
        var ok := TargetIsEligible(layout, leaves[i]);
        if ok {
          eligible := eligible + {leaves[i]};
        }
      }
      assert leaves[..|leaves|] == leaves;
    }

    /** Step to the nearest eligible leaf in a direction, from the target or from the source. */
    method StepTarget(layout: PaneLayout, regions: Regions, leaves: seq<NodeId>, direction: FocusDirection)
      returns (changed: bool)
      requires layout.Valid() && Fits(layout.tree) && Shown(layout.tree, regions, leaves)
      modifies this
      ensures Fits(layout.tree)
      ensures stage == old(stage) && operation == old(operation) && dropDirection == old(dropDirection)
      ensures !changed ==> target == old(target)
      ensures changed ==> target.Some? && target.value in leaves && stage == Targeting
      ensures stage == Targeting ==>
                var from := if old(target).Some? then old(target).value else source.active;
                && from in regions && Known(regions, leaves)
                && Finds(regions, leaves, from, direction, EligibleAmong(layout.tree, source, leaves),
                         if changed then target else None)
    {
      hide Follows, Eligible, Finds;
      if stage != Targeting {
        return false;
      }
      LeafInTree(layout.tree);
      ActiveInTree(layout.nodes, layout.tree, source);
      TargetInTree(layout.tree);
      var eligible := EligibleLeaves(layout, leaves);
      assert eligible == EligibleAmong(layout.tree, source, leaves);
      var from := if target.Some? then target.value else source.active;
      var candidate := FindEligibleDirectionalPane(regions, leaves, from, direction, eligible);
      if candidate.None? {
        return false;
      }
      target := candidate;
      return true;
    }

    lemma {:induction false} TargetInTree(t: Tree)
      requires Fits(t)
      ensures target.Some? ==> target.value in Bag(t)
    {
    }

    method PromoteTarget(layout: PaneLayout) returns (changed: bool)
      requires layout.Valid() && Fits(layout.tree)
      modifies this
      ensures Fits(layout.tree)
      ensures stage == old(stage) && operation == old(operation) && dropDirection == old(dropDirection)
      ensures changed <==> old(stage) == Targeting && old(target).Some? && old(target).value in Bag(layout.tree)
                           && var c := At(layout.tree, old(target).value).ctx;
                              c.In? && Eligible(layout.tree, source, c.id)
      ensures target == if changed then Some(At(layout.tree, old(target).value).ctx.id) else old(target)
    {
      hide Follows, Eligible, Plug, Bag, BagKids, Locate, Distinct, HoldsCtx, Holds, PaneBag, Sound, Leaves;
      TargetInTree(layout.tree);
      if stage != Targeting || target.None? {
        return false;
      }
      Open(layout.nodes, layout.tree, target.value);
      Level(layout.nodes, layout.tree, target.value);
      var parent := layout.nodes[target.value].parent;
      if parent.None? {
        return false;
      }
      var ok := TargetIsEligible(layout, parent.value);
      if !ok {
        return false;
      }
      target := parent;
      return true;
    }

    /** Descend to the first eligible child. */
    method DescendTarget(layout: PaneLayout) returns (changed: bool)
      requires layout.Valid() && Fits(layout.tree)
      modifies this
      ensures Fits(layout.tree)
      ensures stage == old(stage) && operation == old(operation) && dropDirection == old(dropDirection)
      ensures changed <==>
                old(stage) == Targeting && old(target).Some?
                && FirstEligible(layout.tree, source, old(target).value).Some?
      ensures target == if changed then FirstEligible(layout.tree, source, old(target).value) else old(target)
    {
      hide Follows, Eligible, Plug, Bag, BagKids, Locate, Distinct, HoldsCtx, Holds, PaneBag, Sound, Leaves;
      TargetInTree(layout.tree);
      if stage != Targeting || target.None? {
        return false;
      }
      ghost var t := layout.tree;
      Open(layout.nodes, t, target.value);
      if layout.nodes[target.value].IsLeaf() {
        return false;
      }
      ghost var u := At(t, target.value).tree;
      var children := layout.nodes[target.value].contents.children;
      var i := 0;
      while i < |children|
        invariant 0 <= i <= |children| && target == old(target) && stage == old(stage) && Fits(t)
        invariant operation == old(operation) && dropDirection == old(dropDirection)
        invariant forall j :: 0 <= j < i ==> !Eligible(t, source, u.kids[j].tree.id)
      {
        ChildPlace(layout.nodes, t, target.value, i);
        assert children[i] == Links(u.kids)[i];
        var ok := TargetIsEligible(layout, children[i].nodeId);
        if ok {
          FirstEligibleIs(t, source, u.kids, i);
          target := Some(children[i].nodeId);
          return true;
        }
        i := i + 1;
      }
      FirstEligibleIs(t, source, u.kids, i);
      return false;
    }

    method ToggleSwap() returns (changed: bool)
      modifies this`operation
      ensures changed <==> stage == Targeting && |source.nodes| == 1
      ensures operation == if changed then (if old(operation) == Move then Swap else Move) else old(operation)
    {
      if stage != Targeting || |source.nodes| != 1 {
        return false;
      }
      operation := if operation == Move then Swap else Move;
      return true;
    }

    method LockTarget() returns (changed: bool)
      modifies this`stage
      ensures changed <==> old(stage) == Targeting && operation == Move && target.Some?
      ensures stage == if changed then Dropping else old(stage)
    {
      if stage != Targeting || operation != Move || target.None? {
        return false;
      }
      stage := Dropping;
      return true;
    }

    method SetDropDirection(direction: DropDirection) returns (changed: bool)
      modifies this`dropDirection
      ensures dropDirection == if stage == Dropping then Some(direction) else old(dropDirection)
      ensures changed <==> dropDirection != old(dropDirection)
    {
      if stage != Dropping {
        return false;
      }
      changed := dropDirection != Some(direction);
      dropDirection := Some(direction);
    }

    /** The layout as it would be after confirming, worked out on a copy. */
    method Preview(layout: PaneLayout) returns (r: Outcome<Option<PaneLayout>>)
      requires layout.Valid() && Fits(layout.tree)
      ensures var o := Outlook(layout.tree, source, target, stage, operation, dropDirection, layout.nextNodeValue);
              && (r.Rejected? <==> o.Rejected?)
              && (r.Done? ==> (r.value.None? <==> o.value.None?))
              && (r.Done? && r.value.Some? ==>
                    fresh(r.value.value) && r.value.value.Valid() && r.value.value.tree == o.value.value)
    {
      hide Follows, Eligible, Plug, Bag, BagKids, Locate, Distinct, HoldsCtx, Holds, PaneBag, Sound, Leaves, AfterMove;
      hide Swapped, Swappable, CanMove;
      SourceStart(layout.tree, source);
      if target.None? {
        return Done(None);
      }
      var result := new PaneLayout.Copy(layout);
      var changed := false;
      if operation == Swap {
        var swapped := SwapPaneNodes(result, source.nodes[0], target.value);
        if swapped.Rejected? {
          return Rejected;
        }
        changed := swapped.value;
      } else if stage == Dropping && dropDirection.Some? {
        var moved := MovePaneSelection(result, source, target.value, dropDirection.value);
        if moved.Rejected? {
          return Rejected;
        }
        changed := moved.value;
      }
      return Done(if changed then Some(result) else None);
    }

    /** Replace the layout by the preview, if there is one. */
    method Confirm(layout: PaneLayout) returns (r: Outcome<bool>)
      requires layout.Valid() && Fits(layout.tree)
      modifies layout
      ensures layout.Valid()
      ensures var o := old(Outlook(layout.tree, source, target, stage, operation, dropDirection, layout.nextNodeValue));
              && (r.Rejected? <==> o.Rejected?)
              && (r.Done? ==> r.value == o.value.Some?)
              && layout.tree == (if r == Done(true) then o.value.value else old(layout.tree))
      ensures r != Done(true) ==> layout.nextNodeValue == old(layout.nextNodeValue)
    {
      hide Outlook, Follows, Eligible;
      var candidate := Preview(layout);
      if candidate.Rejected? {
        return Rejected;
      }
      if candidate.value.None? {
        return Done(false);
      }
      layout.Assign(candidate.value.value);
      return Done(true);
    }
  }

  lemma {:induction false} SourceStart(t: Tree, s: PaneSelection)
    requires Follows(t, s)
    ensures |s.nodes| > 0
  {
  }

  lemma {:induction false} SourceNodes(n: Nodes, t: Tree, s: PaneSelection)
    requires Holds(n, t, None) && Distinct(Bag(t)) && Follows(t, s)
    ensures forall i :: 0 <= i < |s.nodes| ==> s.nodes[i] in Bag(t)
  {
    hide Plug, Bag, BagKids, Locate, Distinct, HoldsCtx, Holds;
    RootInBag(t);
    if s.parent.Some? {
      var r := RangeOf(t, s);
      forall i | 0 <= i < |s.nodes| ensures s.nodes[i] in Bag(t) {
        assert Ids(r.Sel())[i] == r.p.kids[r.first + i].tree.id;
        ChildPlace(n, t, s.parent.value, r.first + i);
      }
    }
  }

  lemma {:induction false} ActiveInTree(n: Nodes, t: Tree, s: PaneSelection)
    requires Holds(n, t, None) && Distinct(Bag(t)) && Follows(t, s)
    ensures s.active in Bag(t)
  {
    hide Plug, Bag, BagKids, Locate, Distinct, HoldsCtx, Holds;
    RootInBag(t);
    if s.parent.Some? {
      ActiveLevel(n, t, s);
    }
  }

  /** Every reachable session with a target previews and confirms: a move is rejected only when node
      ids run out, a swap only when the second level it must flatten has been absorbed by the first. */
  lemma {:induction false} SessionAccepted(t: Tree, next: nat, s: PaneSelection, target: NodeId, stage: MoveStage,
                                           operation: MoveOperation,
                                           direction: Option<DropDirection>)
    requires WellFormed(t, next) && Follows(t, s) && Eligible(t, s, target)
    requires (stage == Dropping ==> operation == Move) && (operation == Swap ==> |s.nodes| == 1)
    ensures |s.nodes| > 0
    ensures Validated(t, s, target)
    ensures Outlook(t, s, Some(target), stage, operation, direction, next).Rejected? <==>
              || (operation == Swap && Separate(t, s.nodes[0], target) && Collides(t, s.nodes[0], target))
              || (stage == Dropping && direction.Some? && !SameLevel(t, s, target, PlacementAxis(direction.value))
                  && next + MoveIds(t, s, target, PlacementAxis(direction.value)) > MAX_NODE_VALUE)
    ensures Alternates(t) && next + 2 <= MAX_NODE_VALUE ==>
              Outlook(t, s, Some(target), stage, operation, direction, next).Done?
  {
    hide Plug, Bag, BagKids, Locate, Distinct, Holds, Sound, AfterMove, Swapped, Leaves, Panes, SameLevel, IsSlice;
    var n := WellFormedStored(t, next);
    SourceStart(t, s);
    EligibleIsValid(n, t, s, target);
    if operation == Swap && Alternates(t) {
      AlternatingSwappable(t, next, s.nodes[0], target);
    }
  }

  /** Whatever a session makes of a layout, the leaves are the same, at other places. */
  lemma {:induction false} OutlookLeaves(t: Tree, next: nat, s: PaneSelection, target: Option<NodeId>, stage: MoveStage,
                                         operation: MoveOperation,
                                         direction: Option<DropDirection>)
    requires WellFormed(t, next)
    ensures var o := Outlook(t, s, target, stage, operation, direction, next);
            o.Done? && o.value.Some? ==>
              multiset(Leaves(o.value.value)) == multiset(Leaves(t)) && PaneBag(o.value.value) == PaneBag(t)
  {
    hide Plug, Bag, BagKids, Locate, Distinct, Holds, Sound, AfterMove, Swapped, Leaves, Panes, SameLevel;
    var o := Outlook(t, s, target, stage, operation, direction, next);
    if o.Done? && o.value.Some? {
      if operation == Swap {
        SwappedProps(t, s.nodes[0], target.value);
      } else {
        MoveCutsAndPastes(t, next, s, target.value, direction.value);
        PastedBags(Leaves(t), Leaves(o.value.value), LeavesKids(RangeOf(t, s).Sel()),
                   Leaves(At(t, target.value).tree), PlacementInsertion(direction.value));
      }
    }
  }

  /** Axes go on alternating unless the source is dropped on a split along that split's own axis. */
  lemma {:induction false} OutlookAlternates(t: Tree, next: nat, s: PaneSelection, target: Option<NodeId>,
                                             stage: MoveStage, operation: MoveOperation,
                                             direction: Option<DropDirection>)
    requires WellFormed(t, next)
    ensures var o := Outlook(t, s, target, stage, operation, direction, next);
            Alternates(t) && o.Done? && o.value.Some? && !SameAxisDrop(t, target, operation, direction) ==>
              Alternates(o.value.value)
  {
    hide Plug, Bag, BagKids, Locate, Distinct, Holds, Sound, AfterMove, Swapped, Leaves, Panes, SameLevel, Alternates;
    var o := Outlook(t, s, target, stage, operation, direction, next);
    if Alternates(t) && o.Done? && o.value.Some? {
      if operation == Swap {
        SwapAlternates(t, next, s.nodes[0], target.value);
      } else {
        MoveAlternatesIff(t, next, s, target.value, direction.value);
      }
    }
  }
}
