/** A tray: a layout of running panes with one focused, and at most one of a maximized view, a
    selection and a move in progress. */
module Trays {
  import opened Wrappers
  import opened Percentages
  import opened PaneTree
  import opened PaneNodes
  import opened PaneEdits
  import opened LayoutMaps
  import opened PaneLayouts
  import opened PaneSelections
  import opened PaneMoves
  import opened PaneRotations
  import opened PaneResizes
  import opened PaneGeometries
  import opened PaneNavigations
  import opened PaneMoveSessions

  /** What is left of a list of panes. */
  function Kept(s: seq<PaneId>, gone: set<PaneId>): seq<PaneId> {
    if s == [] then [] else (if s[0] in gone then [] else [s[0]]) + Kept(s[1..], gone)
  }

  lemma {:induction false} KeptAppend(a: seq<PaneId>, b: seq<PaneId>, gone: set<PaneId>)
    ensures Kept(a + b, gone) == Kept(a, gone) + Kept(b, gone)
  {
    if a == [] {
      assert a + b == b;
    } else {
      assert (a + b)[1..] == a[1..] + b;
      KeptAppend(a[1..], b, gone);
    }
  }

  lemma {:induction false} KeptAll(s: seq<PaneId>, gone: set<PaneId>)
    requires forall x :: x in s ==> x !in gone
    ensures Kept(s, gone) == s
  {
    if s != [] {
      KeptAll(s[1..], gone);
    }
  }

  lemma {:induction false} KeptTwice(s: seq<PaneId>, a: set<PaneId>, b: set<PaneId>)
    ensures Kept(Kept(s, a), b) == Kept(s, a + b)
  {
    if s != [] {
      KeptTwice(s[1..], a, b);
      KeptAppend(if s[0] in a then [] else [s[0]], Kept(s[1..], a), b);
    }
  }

  /** The panes shown by a tree, from left to right. */
  ghost function PaneOrder(t: Tree): seq<PaneId> {
    Panes(Leaves(t))
  }

  /** A pane that is found in a layout is the pane of that very leaf. */
  lemma {:induction false} FoundLeaf(n: Nodes, t: Tree, id: NodeId, pane: PaneId)
    requires Holds(n, t, None) && Distinct(Bag(t)) && LeafRef(id, pane) in Leaves(t)
    ensures id in Bag(t) && At(t, id).tree == Leaf(id, pane) && id in n && n[id].contents == LeafContents(pane)
  {
    LeafEntries(n, t, None, id, pane);
    Open(n, t, id);
  }

  /** Removing a leaf removes its pane and nothing else. */
  lemma {:induction false} RemovedPanes(t: Tree, next: nat, id: NodeId, pane: PaneId)
    requires WellFormed(t, next) && id in Bag(t) && At(t, id).tree == Leaf(id, pane)
    requires var c := At(t, id).ctx; c.In? && |c.left| + |c.right| >= 1 && |LeavesBefore(c)| + |LeavesAfter(c)| >= 1
    ensures PaneOrder(RemoveAt(At(t, id).ctx)) == Kept(PaneOrder(t), {pane})
    ensures var c := At(t, id).ctx;
            && pane !in Panes(LeavesBefore(c) + LeavesAfter(c))
            && Leaves(RemoveAt(c)) == LeavesBefore(c) + LeavesAfter(c)
            && PaneOrder(t) == Panes(LeavesBefore(c)) + [pane] + Panes(LeavesAfter(c))
  {
    hide Plug, Bag, BagKids, Locate, Sound, SoundCtx, Leaves, LeavesBefore, LeavesAfter, Distinct, Kept, Panes;
    hide RemoveAt;
    var l := At(t, id);
    var c := l.ctx;
    PlugSound(c, l.tree, 0);
    RemoveProps(c);
    PlugLeaves(c, l.tree);
    LeafFacts(l.tree);
    KeptOthers(LeavesBefore(c), id, pane, LeavesAfter(c));
  }

  lemma {:induction false} KeptOthers(b: seq<LeafRef>, id: NodeId, pane: PaneId, a: seq<LeafRef>)
    requires Distinct(multiset(Panes(b + [LeafRef(id, pane)] + a)))
    ensures Panes(b + [LeafRef(id, pane)] + a) == Panes(b) + [pane] + Panes(a)
    ensures pane !in Panes(b + a)
    ensures Panes(b + a) == Kept(Panes(b + [LeafRef(id, pane)] + a), {pane})
  {
    hide Distinct, Kept;
    PanesAppend(b + [LeafRef(id, pane)], a);
    PanesAppend(b, [LeafRef(id, pane)]);
    PanesAppend(b, a);
    assert Panes([LeafRef(id, pane)]) == [pane];
    OnlyOnce(Panes(b), pane, Panes(a));
    KeptMiddle(Panes(b), pane, Panes(a));
  }

  lemma {:induction false} KeptMiddle(b: seq<PaneId>, pane: PaneId, a: seq<PaneId>)
    requires pane !in b && pane !in a
    ensures Kept(b + [pane] + a, {pane}) == b + a
  {
    hide Kept;
    KeptAppend(b + [pane], a, {pane});
    KeptAppend(b, [pane], {pane});
    KeptAll(b, {pane});
    KeptAll(a, {pane});
    KeptGone(pane);
    assert b + [] == b;
  }

  lemma {:induction false} KeptGone(pane: PaneId)
    ensures Kept([pane], {pane}) == []
  {
    assert Kept([pane][1..], {pane}) == [];
  }

  /** The pane behind another in the order, or the one before it at the end. */
  ghost predicate NextTo(order: seq<PaneId>, pane: PaneId, next: PaneId) {
    exists b, a :: order == b + [pane] + a && if |a| > 0 then next == a[0] else |b| > 0 && next == b[|b| - 1]
  }

  // ----- where the focus ends up when several panes go

  /** The focus after the panes in gone have been removed, in whatever order: the first pane left behind the focused
      one, or, if none is left there, the last one left before it. */
  ghost predicate Refocused(b: seq<PaneId>, was: PaneId, a: seq<PaneId>, gone: set<PaneId>, focused: PaneId) {
    if was !in gone then focused == was
    else if Kept(a, gone) != [] then focused == Kept(a, gone)[0]
    else Kept(b, gone) != [] && focused == Kept(b, gone)[|Kept(b, gone)| - 1]
  }

  ghost predicate FocusKept(order: seq<PaneId>, was: PaneId, gone: set<PaneId>, focused: PaneId) {
    exists b, a :: order == b + [was] + a && Refocused(b, was, a, gone, focused)
  }

  lemma {:induction false} RefocusedKept(order: seq<PaneId>, b: seq<PaneId>, was: PaneId, a: seq<PaneId>,
                                         gone: set<PaneId>, focused: PaneId)
    requires order == b + [was] + a && Refocused(b, was, a, gone, focused)
    ensures FocusKept(order, was, gone, focused)
  {
  }

  lemma {:induction false} FocusedIn(t: Tree, panes: set<PaneId>, focused: PaneId)
    returns (b: seq<PaneId>, a: seq<PaneId>)
    requires (forall p :: p in panes <==> p in PaneBag(t)) && focused in panes
    ensures PaneOrder(t) == b + [focused] + a && Refocused(b, focused, a, Listed([]), focused)
  {
    var i :| 0 <= i < |PaneOrder(t)| && PaneOrder(t)[i] == focused;
    b, a := PaneOrder(t)[..i], PaneOrder(t)[i + 1..];
  }

  lemma {:induction false} OrderDistinct(n: Nodes, root: NodeId, next: nat, t: Tree)
    requires Represents(n, root, next, t, 0)
    ensures Distinct(multiset(PaneOrder(t)))
  {
    hide Holds, Sound, Bag, Leaves;
  }

  lemma {:induction false} SameCut(b: seq<PaneId>, pane: PaneId, a: seq<PaneId>, x: seq<PaneId>, y: seq<PaneId>)
    requires b + [pane] + a == x + [pane] + y && pane !in b && pane !in x
    ensures b == x && a == y
  {
    var order := b + [pane] + a;
    assert order[|b|] == pane && order[|x|] == pane;
    assert forall i :: 0 <= i < |b| ==> order[i] == b[i];
    assert forall i :: 0 <= i < |x| ==> order[i] == x[i];
    assert |x| == |b|;
    assert x == order[..|x|] && b == order[..|b|];
    assert y == order[|x| + 1..] && a == order[|b| + 1..];
  }

  lemma {:induction false} NextToUnique(b: seq<PaneId>, pane: PaneId, a: seq<PaneId>, next: PaneId)
    requires Distinct(multiset(b + [pane] + a)) && NextTo(b + [pane] + a, pane, next)
    ensures if a != [] then next == a[0] else b != [] && next == b[|b| - 1]
    ensures pane !in b && pane !in a
  {
    hide Distinct;
    OnlyOnce(b, pane, a);
    var x, y :| b + [pane] + a == x + [pane] + y && if |y| > 0 then next == y[0] else |x| > 0 && next == x[|x| - 1];
    OnlyOnce(x, pane, y);
    SameCut(b, pane, a, x, y);
  }

  lemma {:induction false} KeptParts(b: seq<PaneId>, was: PaneId, a: seq<PaneId>, gone: set<PaneId>)
    ensures Kept(b + [was] + a, gone) == Kept(b, gone) + (if was in gone then [] else [was]) + Kept(a, gone)
  {
    KeptAppend(b + [was], a, gone);
    KeptAppend(b, [was], gone);
    assert Kept([was][1..], gone) == [];
  }

  lemma {:induction false} KeptHead(s: seq<PaneId>, pane: PaneId)
    requires s != [] && s[0] != pane
    ensures Kept(s, {pane}) != [] && Kept(s, {pane})[0] == s[0]
  {
  }

  lemma {:induction false} KeptLast(s: seq<PaneId>, pane: PaneId)
    requires s != [] && s[|s| - 1] != pane
    ensures var r := Kept(s, {pane}); r != [] && r[|r| - 1] == s[|s| - 1]
  {
    var k := |s| - 1;
    assert s == s[..k] + [s[k]];
    KeptAppend(s[..k], [s[k]], {pane});
    KeptAll([s[k]], {pane});
  }

  /** Removing a pane that is not focused leaves the focus where the rule has it. */
  lemma {:induction false} RefocusedOther(b: seq<PaneId>, was: PaneId, a: seq<PaneId>, gone: set<PaneId>,
                                          focused: PaneId, pane: PaneId)
    requires Refocused(b, was, a, gone, focused) && pane != focused
    ensures Refocused(b, was, a, gone + {pane}, focused)
  {
    hide Kept;
    KeptTwice(a, gone, {pane});
    KeptTwice(b, gone, {pane});
    if was in gone && Kept(a, gone) != [] {
      KeptHead(Kept(a, gone), pane);
    } else if was in gone {
      KeptNothing({pane});
      KeptLast(Kept(b, gone), pane);
    }
  }

  lemma {:induction false} RefocusedMoved(b: seq<PaneId>, was: PaneId, a: seq<PaneId>, gone: set<PaneId>,
                                          focused: PaneId, next: PaneId)
    requires Refocused(b, was, a, gone, focused)
    requires Distinct(multiset(Kept(b + [was] + a, gone))) && NextTo(Kept(b + [was] + a, gone), focused, next)
    ensures Refocused(b, was, a, gone + {focused}, next)
  {
    hide Kept, NextTo, Distinct;
    KeptParts(b, was, a, gone);
    KeptTwice(a, gone, {focused});
    KeptTwice(b, gone, {focused});
    var x, y := Kept(b, gone), Kept(a, gone);
    if was !in gone {
      NextToUnique(x, focused, y, next);
      KeptAll(x, {focused});
      KeptAll(y, {focused});
    } else if y != [] {
      MovedOn(x, focused, y, next);
    } else {
      MovedBack(x, focused, next);
    }
  }

  lemma {:induction false} MovedOn(x: seq<PaneId>, focused: PaneId, y: seq<PaneId>, next: PaneId)
    requires y != [] && y[0] == focused && Distinct(multiset(x + [] + y)) && NextTo(x + [] + y, focused, next)
    ensures var left := Kept(y, {focused});
            if left != [] then next == left[0]
            else Kept(x, {focused}) != [] && next == Kept(x, {focused})[|Kept(x, {focused})| - 1]
  {
    hide Kept, NextTo, Distinct;
    var rest := y[1..];
    assert y == [focused] + rest;
    assert x + [] + y == x + [focused] + rest;
    NextToUnique(x, focused, rest, next);
    KeptAll(x, {focused});
    KeptFirst(focused, rest);
  }

  lemma {:induction false} MovedBack(x: seq<PaneId>, focused: PaneId, next: PaneId)
    requires x != [] && x[|x| - 1] == focused && Distinct(multiset(x + [] + [])) && NextTo(x + [] + [], focused, next)
    ensures Kept([], {focused}) == []
    ensures Kept(x, {focused}) != [] && next == Kept(x, {focused})[|Kept(x, {focused})| - 1]
  {
    hide Kept, NextTo, Distinct;
    var front := x[..|x| - 1];
    assert x == front + [focused] + [] && x + [] + [] == x;
    NextToUnique(front, focused, [], next);
    KeptMiddle(front, focused, []);
    assert front + [] == front;
    KeptNothing({focused});
  }

  lemma {:induction false} KeptFirst(pane: PaneId, rest: seq<PaneId>)
    requires pane !in rest
    ensures Kept([pane] + rest, {pane}) == rest
  {
    KeptMiddle([], pane, rest);
    assert [] + [pane] + rest == [pane] + rest && [] + rest == rest;
  }

  lemma {:induction false} KeptNothing(gone: set<PaneId>)
    ensures Kept([], gone) == []
  {
  }

  lemma {:induction false} RefocusedNext(b: seq<PaneId>, was: PaneId, a: seq<PaneId>, gone: set<PaneId>,
                                         focused: PaneId, pane: PaneId, next: PaneId)
    requires Refocused(b, was, a, gone, focused) && Distinct(multiset(Kept(b + [was] + a, gone)))
    requires if pane == focused then NextTo(Kept(b + [was] + a, gone), pane, next) else next == focused
    ensures Refocused(b, was, a, gone + {pane}, next)
  {
    hide Refocused, Kept, NextTo, Distinct;
    if pane == focused {
      RefocusedMoved(b, was, a, gone, focused, next);
    } else {
      RefocusedOther(b, was, a, gone, focused, pane);
    }
  }

  /** Only panes of the tray matter for the focus, too. */
  lemma {:induction false} FocusKeptSame(order: seq<PaneId>, was: PaneId, panes: set<PaneId>, ended: set<PaneId>,
                                         exited: seq<PaneId>, focused: PaneId)
    requires (forall p :: p in order ==> p in panes) && (forall p :: p in exited <==> p in panes && p in ended)
    requires FocusKept(order, was, Listed(exited), focused)
    ensures FocusKept(order, was, ended, focused)
  {
    hide Kept, Listed;
    var b, a :| order == b + [was] + a && Refocused(b, was, a, Listed(exited), focused);
    assert forall p :: p in b || p == was || p in a ==> p in order;
    KeptSame(b, panes, ended, exited);
    KeptSame(a, panes, ended, exited);
    ListedIs(exited);
    assert Refocused(b, was, a, ended, focused);
  }

  lemma {:induction false} OnlyOnce(b: seq<PaneId>, pane: PaneId, a: seq<PaneId>)
    requires Distinct(multiset(b + [pane] + a))
    ensures pane !in b && pane !in a
  {
    var m := multiset(b + [pane] + a);
    assert m == multiset(b) + multiset{pane} + multiset(a);
    assert m[pane] == multiset(b)[pane] + 1 + multiset(a)[pane];
  }

  /** What the map shows after a leaf has been removed. */
  lemma {:induction false} AfterRemoval(t: Tree, next: nat, id: NodeId, pane: PaneId, n: Nodes, root: NodeId, t': Tree,
                                        panes: set<PaneId>)
    requires WellFormed(t, next) && id in Bag(t) && At(t, id).tree == Leaf(id, pane)
             && forall p :: p in panes <==> p in PaneBag(t)
    requires var c := At(t, id).ctx;
             c.In? && |c.left| + |c.right| >= 1 && |LeavesBefore(c)| + |LeavesAfter(c)| >= 1 && t' == RemoveAt(c)
    requires Represents(n, root, next, t', 0)
    ensures var c := At(t, id).ctx;
            var f := NextFocus(LeafIds(LeavesBefore(c)), LeafIds(LeavesAfter(c)));
            && f in n && n[f].IsLeaf()
            && n[f].contents.pane in panes - {pane}
            && NextTo(PaneOrder(t), pane, n[f].contents.pane)
    ensures forall p :: p in panes - {pane} <==> p in PaneBag(t')
    ensures PaneOrder(t') == Kept(PaneOrder(t), {pane})
  {
    hide Plug, Bag, BagKids, Locate, Distinct, Holds, Sound, Leaves, LeavesBefore, LeavesAfter, RemoveAt, Kept;
    hide PaneOrder, PaneBag, Panes, WellFormed, NextTo, NextFocus;
    var c := At(t, id).ctx;
    RemovedPanes(t, next, id, pane);
    NextFocusShown(c);
    var b, a := LeavesBefore(c), LeavesAfter(c);
    var ref := if |a| > 0 then a[0] else b[|b| - 1];
    FoundLeaf(n, t', ref.id, ref.pane);
    RemovedSet(t, t', b, pane, a, panes);
    NextPane(b, pane, a, ref);
    ShownPane(b + a, ref);
    ShownIn(t', ref.pane);
  }

  lemma {:induction false} ShownIn(t: Tree, p: PaneId)
    ensures p in PaneBag(t) <==> p in Panes(Leaves(t))
  {
  }

  lemma {:induction false} NextPane(b: seq<LeafRef>, pane: PaneId, a: seq<LeafRef>, ref: LeafRef)
    requires |b| + |a| >= 1 && ref == if |a| > 0 then a[0] else b[|b| - 1]
    ensures NextTo(Panes(b) + [pane] + Panes(a), pane, ref.pane)
  {
    var x, y := Panes(b), Panes(a);
    assert if |y| > 0 then ref.pane == y[0] else |x| > 0 && ref.pane == x[|x| - 1];
  }

  lemma {:induction false} NextFocusShown(c: Ctx)
    requires c.In? && |LeavesBefore(c)| + |LeavesAfter(c)| >= 1
    ensures var b, a := LeavesBefore(c), LeavesAfter(c);
            var ref := if |a| > 0 then a[0] else b[|b| - 1];
            ref.id == NextFocus(LeafIds(b), LeafIds(a)) && ref in b + a
  {
    var b, a := LeavesBefore(c), LeavesAfter(c);
    if |a| > 0 {
      assert (b + a)[|b|] == a[0];
    } else {
      assert (b + a)[|b| - 1] == b[|b| - 1];
    }
  }

  lemma {:induction false} SamePanes(t: Tree, t': Tree)
    requires Leaves(t) == Leaves(t')
    ensures PaneBag(t) == PaneBag(t')
  {
  }

  /** The selection an operation works on: the explicit one, or else the focused pane alone. */
  ghost predicate Chosen(t: Tree, selection: Option<PaneSelection>, focused: PaneId, s: PaneSelection) {
    if selection.Some? then s == selection.value
    else exists id ::
           id in Bag(t) && LeafRef(id, focused) in Leaves(t)
           && s == PaneSelection(HoleParent(At(t, id).ctx), id, id, [id])
  }

  /** The active end of a selection can move in a direction: along the axis of its level, and not at that end yet. */
  ghost predicate Steps(t: Tree, s: PaneSelection, direction: FocusDirection) {
    && s.parent.Some? && s.parent.value in Bag(t) && s.active in Bag(t)
    && var u := At(t, s.parent.value).tree;
    && u.Split? && u.axis == Along(direction)
    && if Forward(direction) then Standing(t, s.active) + 1 < |u.kids| else Standing(t, s.active) > 0
  }

  /** The selection with its active end one place further in a direction. */
  ghost predicate SteppedTo(t: Tree, s: PaneSelection, direction: FocusDirection, s': PaneSelection) {
    && s'.anchor == s.anchor && s'.parent == s.parent && s.active in Bag(t) && s'.active in Bag(t)
    && Standing(t, s'.active) == if Forward(direction) then Standing(t, s.active) + 1 else Standing(t, s.active) - 1
  }

  lemma {:induction false} ActiveStands(n: Nodes, t: Tree, s: PaneSelection)
    requires Holds(n, t, None) && Distinct(Bag(t)) && Follows(t, s) && s.parent.Some?
    ensures s.parent.value in Bag(t) && At(t, s.parent.value).tree.Split?
    ensures s.active in Bag(t) && Standing(t, s.active) < |At(t, s.parent.value).tree.kids|
    ensures s.parent.value in n && !n[s.parent.value].IsLeaf()
            && n[s.parent.value].contents.axis == At(t, s.parent.value).tree.axis
  {
    hide Plug, Bag, BagKids, Locate, Distinct, Holds, HoldsCtx;
    ActiveLevel(n, t, s);
    LevelLinks(n, t, s.active);
    Open(n, t, s.parent.value);
  }

  /** A selection's parent is not selected. */
  lemma {:induction false} ParentApart(n: Nodes, t: Tree, s: PaneSelection)
    requires Holds(n, t, None) && Distinct(Bag(t)) && Follows(t, s)
    ensures s.parent.Some? ==> s.nodes != [s.parent.value]
  {
    hide Plug, Bag, BagKids, Locate, Distinct, Holds, HoldsCtx;
    if s.parent.Some? {
      ActiveLevel(n, t, s);
      Open(n, t, s.active);
      assert |s.nodes| == 1 ==> s.active == s.nodes[0];
    }
  }

  /** A child of a selected split is another node. */
  lemma {:induction false} ChildApart(n: Nodes, t: Tree, s: PaneSelection)
    requires Holds(n, t, None) && Distinct(Bag(t)) && Follows(t, s)
    ensures |s.nodes| == 1 && s.nodes[0] in Bag(t) && At(t, s.nodes[0]).tree.Split?
            && |At(t, s.nodes[0]).tree.kids| > 0 ==>
              s.nodes != [At(t, s.nodes[0]).tree.kids[0].tree.id]
  {
    hide Plug, Bag, BagKids, Locate, Distinct, Holds, HoldsCtx;
    if |s.nodes| == 1 && s.nodes[0] in Bag(t) && At(t, s.nodes[0]).tree.Split? && |At(t, s.nodes[0]).tree.kids| > 0 {
      var u := At(t, s.nodes[0]).tree;
      ChildPlace(n, t, s.nodes[0], 0);
      Open(n, t, u.kids[0].tree.id);
    }
  }

  /** A pane has been added directly before or after another. */
  ghost predicate AddedNextTo(before: seq<PaneId>, after: seq<PaneId>, pane: PaneId, added: PaneId,
                              insertion: Insertion) {
    exists b, a ::
      before == b + [pane] + a && after == b + (if insertion.Before? then [added, pane] else [pane, added]) + a
  }

  ghost predicate ShowsPane(t: Tree, node: NodeId, pane: PaneId) {
    node in Bag(t) && At(t, node).tree == Leaf(node, pane)
  }

  /** There are ids left for a new leaf and, unless it joins the level of the pane, for a new split. */
  ghost predicate RoomToSplit(t: Tree, node: NodeId, axis: Axis, next: nat) {
    node in Bag(t) && next + (if Joins(At(t, node).ctx, axis) then 1 else 2) <= MAX_NODE_VALUE
  }

  /** The layout with a new leaf beside a node; the leaf takes the next id, a new split the one behind it. */
  ghost predicate SplitTo(t: Tree, node: NodeId, axis: Axis, pane: PaneId, insertion: Insertion, next: nat, t': Tree) {
    node in Bag(t) && t' == SplitAt(At(t, node).ctx, At(t, node).tree, axis, Leaf(next, pane), insertion, next + 1)
  }

  datatype ExitUpdate = NoExit | PanesExited | TrayExited

  class Tray {
    const layout: PaneLayout
    var panes: set<PaneId>
    var focused: PaneId
    var nextPaneValue: nat
    var maximized: bool
    var selection: Option<PaneSelection>
    var session: PaneMoveSession?
    var rows: nat
    var cols: nat

    ghost predicate Valid()
      reads this, layout, session
    {
      && layout.Valid()
      && (forall p :: p in panes <==> p in PaneBag(layout.tree))
      && (forall p :: p in panes ==> 0 < p < nextPaneValue) && nextPaneValue <= MAX_NODE_VALUE
      && focused in panes
      && (maximized ==> selection.None? && session == null && |panes| >= 2)
      && (selection.Some? ==> session == null && Follows(layout.tree, selection.value))
      && (session != null ==> session.Fits(layout.tree) && |panes| >= 2)
    }

    /** No interaction is under way. */
    ghost predicate Plain()
      reads this
    {
      !maximized && selection.None? && session == null
    }

    constructor (rows: nat, cols: nat)
      ensures Valid() && Plain() && fresh(layout)
      ensures panes == {1} && focused == 1 && this.rows == rows && this.cols == cols && nextPaneValue == 2
              && layout.tree == Leaf(1, 1) && layout.nextNodeValue == 2
    {
      layout := new PaneLayout.Single(1);
      panes := {1};
      focused := 1;
      nextPaneValue := 2;
      maximized := false;
      selection := None;
      session := null;
      this.rows := rows;
      this.cols := cols;
      new;
      LeafFacts(layout.tree);
      assert PaneOrder(layout.tree) == [1];
    }

    method AllocatePaneId() returns (r: Outcome<PaneId>)
      requires 0 < nextPaneValue <= MAX_NODE_VALUE
      modifies this`nextPaneValue
      ensures r.Rejected? <==> old(nextPaneValue) == MAX_NODE_VALUE
      ensures r.Rejected? ==> nextPaneValue == old(nextPaneValue)
      ensures r.Done? ==> r.value == old(nextPaneValue) && nextPaneValue == old(nextPaneValue) + 1
    {
      if nextPaneValue == 0 || nextPaneValue == MAX_NODE_VALUE {
        return Rejected;
      }
      r := Done(nextPaneValue);
      nextPaneValue := nextPaneValue + 1;
    }

    /** The leaf showing a pane of this tray; it is never missing. */
    method RequiredNode(pane: PaneId) returns (id: NodeId)
      requires Valid() && pane in panes
      ensures id in Bag(layout.tree) && At(layout.tree, id).tree == Leaf(id, pane)
              && LeafRef(id, pane) in Leaves(layout.tree)
      ensures id in layout.nodes && layout.nodes[id].contents == LeafContents(pane)
    {
      hide Plug, Bag, BagKids, Locate, Distinct, Holds, Sound, Leaves;
      var found := layout.FindPane(pane);
      FoundLeaf(layout.nodes, layout.tree, found.value, pane);
      return found.value;
    }

    /** Drop everything that a change of the layout ends. */
    method EndInteraction()
      modifies this`maximized, this`selection, this`session
      ensures Plain()
    {
      maximized := false;
      selection := None;
      session := null;
    }

    /** Split the focused pane; the new pane gets the focus. */
    method SplitFocusedPane(axis: Axis, insertion: Insertion) returns (r: Outcome<PaneId>, ghost node: NodeId)
      requires Valid()
      modifies this`panes, this`focused, this`maximized, this`selection, this`session, this`nextPaneValue, layout
      ensures Valid()
      ensures ShowsPane(old(layout.tree), node, old(focused))
      ensures r.Done? <==>
                old(nextPaneValue) < MAX_NODE_VALUE
                && RoomToSplit(old(layout.tree), node, axis, old(layout.nextNodeValue))
      ensures r.Rejected? ==>
                && old(nextPaneValue) <= nextPaneValue
                && layout.tree == old(layout.tree) && panes == old(panes) && focused == old(focused)
                && selection == old(selection) && session == old(session) && maximized == old(maximized)
      ensures r.Done? ==>
                && r.value == old(nextPaneValue) && nextPaneValue == r.value + 1 && r.value !in old(panes)
                && panes == old(panes) + {r.value} && focused == r.value && Plain()
                && SplitTo(old(layout.tree), node, axis, r.value, insertion, old(layout.nextNodeValue), layout.tree)
                && AddedNextTo(PaneOrder(old(layout.tree)), PaneOrder(layout.tree), old(focused), r.value, insertion)
      ensures Alternates(old(layout.tree)) ==> Alternates(layout.tree)
    {
      hide Alternates, Plug, Bag, BagKids, Locate, Distinct, Holds, Sound, Leaves, SplitAt, Represents, PaneBag;
      hide PaneOrder, AddedNextTo, RoomToSplit, SplitTo;
      var leaf := RequiredNode(focused);
      node := leaf;
      var pane := AllocatePaneId();
      if pane.Rejected? {
        return Rejected, node;
      }
      var split := SplitPane(leaf, axis, pane.value, insertion);
      if !split {
        return Rejected, node;
      }
      panes := panes + {pane.value};
      focused := pane.value;
      EndInteraction();
      return pane, node;
    }

    /** Put a new pane beside the focused one. */
    method SplitPane(leaf: NodeId, axis: Axis, pane: PaneId, insertion: Insertion) returns (split: bool)
      requires layout.Valid() && ShowsPane(layout.tree, leaf, focused) && pane !in PaneBag(layout.tree)
      modifies layout
      ensures layout.Valid()
      ensures split <==> RoomToSplit(old(layout.tree), leaf, axis, old(layout.nextNodeValue))
      ensures !split ==> layout.tree == old(layout.tree)
      ensures split ==>
                && SplitTo(old(layout.tree), leaf, axis, pane, insertion, old(layout.nextNodeValue), layout.tree)
                && AddedNextTo(PaneOrder(old(layout.tree)), PaneOrder(layout.tree), focused, pane, insertion)
                && forall p :: p in PaneBag(layout.tree) <==> p in PaneBag(old(layout.tree)) || p == pane
      ensures Alternates(old(layout.tree)) ==> Alternates(layout.tree)
    {
      hide Alternates, Plug, Bag, BagKids, Locate, Distinct, Holds, Sound, Leaves, SplitAt, Represents, PaneBag;
      hide WellFormed, PaneOrder, AddedNextTo;
      RepresentsWellFormed(layout.nodes, layout.root, layout.nextNodeValue, layout.tree);
      ghost var t, l, next := layout.tree, At(layout.tree, leaf), layout.nextNodeValue;
      var added := layout.SplitLeaf(leaf, axis, pane, insertion);
      if added.Rejected? {
        return false;
      }
      SplitShows(t, next, l.ctx, l.tree, axis, Leaf(added.value, pane), insertion, added.value + 1);
      return true;
    }

    method FocusPane(pane: PaneId) returns (found: bool)
      requires Valid()
      modifies this`focused, this`selection, this`session
      ensures Valid() && layout.tree == old(layout.tree) && panes == old(panes) && maximized == old(maximized)
      ensures found <==> pane in panes
      ensures focused == (if found then pane else old(focused))
      ensures if focused != old(focused) then selection.None? && session == null
              else selection == old(selection) && session == old(session)
    {
      if pane !in panes {
        return false;
      }
      var changed := pane != focused;
      focused := pane;
      if changed {
        selection := None;
        session := null;
      }
      return true;
    }

    /** The regions and leaves as they are shown now. */
    method Geometry() returns (regions: Regions, leaves: seq<NodeId>)
      requires Valid()
      ensures Shown(layout.tree, regions, leaves) && Laid(regions, layout.tree, Region(0, 0, rows, cols))
    {
      hide Plug, BagKids, Locate, Distinct, Holds, Leaves, Bars, Laid;
      var geometry := CalculatePaneGeometry(layout, Region(0, 0, rows, cols));
      leaves := layout.LeafNodes();
      regions := geometry.value.nodeRegions;
      LaidNonNegative(regions, layout.tree, Region(0, 0, rows, cols));
    }

    /** Focus the nearest pane in a direction; without one nothing changes. */
    method FocusPaneDirection(direction: FocusDirection)
      returns (moved: bool, ghost regions: Regions, ghost node: NodeId, ghost nearest: Option<NodeId>)
      requires Valid()
      modifies this`focused, this`selection, this`session
      ensures Valid() && layout.tree == old(layout.tree) && panes == old(panes) && maximized == old(maximized)
      ensures !moved ==> focused == old(focused) && selection == old(selection) && session == old(session)
      ensures moved ==> focused != old(focused) && selection.None? && session == null
      ensures Shown(layout.tree, regions, LeafIds(Leaves(layout.tree)))
              && Laid(regions, layout.tree, Region(0, 0, rows, cols))
      ensures LeafRef(node, old(focused)) in Leaves(layout.tree) && node in regions
              && Known(regions, LeafIds(Leaves(layout.tree)))
      ensures IsNearest(regions, LeafIds(Leaves(layout.tree)), node, direction, nearest)
      ensures moved <==> nearest.Some?
      ensures moved ==> LeafRef(nearest.value, focused) in Leaves(layout.tree)
    {
      hide Plug, Bag, BagKids, Locate, Distinct, Holds, Sound, Leaves, Laid, IsNearest;
      var shown, leaves := Geometry();
      var from := RequiredNode(focused);
      LeafInTree(layout.tree);
      var target := FindImmediateDirectionalPane(shown, leaves, from, direction);
      regions, node, nearest := shown, from, target;
      moved := false;
      if target.None? {
        return;
      }
      NearestOnly(shown, leaves, from, direction, target.value);
      LeafShown(layout.nodes, layout.tree, target.value);
      ghost var there := layout.nodes[target.value].contents.pane;
      assert there != focused by {
        OneLeafPerPane(layout.nodes, layout.tree, target.value, from, focused);
      }
      moved := FocusPane(layout.nodes[target.value].contents.pane);
    }

    /** Remove one of several panes from the layout and choose the pane to focus instead. */
    method RemovePane(pane: PaneId) returns (next: PaneId)
      requires Valid() && pane in panes && |panes| >= 2
      modifies layout, this`panes
      ensures layout.Valid() && layout.nextNodeValue == old(layout.nextNodeValue)
      ensures panes == old(panes) - {pane} && next in panes
      ensures forall p :: p in panes <==> p in PaneBag(layout.tree)
      ensures PaneOrder(layout.tree) == Kept(PaneOrder(old(layout.tree)), {pane})
      ensures NextTo(PaneOrder(old(layout.tree)), pane, next)
      ensures Alternates(old(layout.tree)) ==> Alternates(layout.tree)
    {
      hide Alternates, Plug, Bag, BagKids, Locate, Distinct, Holds, Sound, Leaves, LeavesBefore, LeavesAfter, RemoveAt;
      hide Represents, PaneBag, NextTo, Kept, PaneOrder, WellFormed;
      var node := RequiredNode(pane);
      ghost var t := layout.tree;
      RepresentsWellFormed(layout.nodes, layout.root, layout.nextNodeValue, t);
      if t.Leaf? {
        LonePane(t, panes);
      }
      var nextFocus := layout.RemoveLeaf(node);
      RemovedAlternates(t, layout.nextNodeValue, node);
      AfterRemoval(t, layout.nextNodeValue, node, pane, layout.nodes, layout.root, layout.tree, panes);
      next := layout.nodes[nextFocus.value.value].contents.pane;
      panes := panes - {pane};
    }

    /** Close the focused pane unless it is the last; its neighbour in the leaf order is focused. */
    method CloseFocusedPane() returns (closed: bool)
      requires Valid()
      modifies this`panes, this`focused, this`maximized, this`selection, this`session, layout
      ensures Valid() && layout.nextNodeValue == old(layout.nextNodeValue)
      ensures closed <==> |old(panes)| > 1
      ensures !closed ==>
                && layout.tree == old(layout.tree) && panes == old(panes) && focused == old(focused)
                && selection == old(selection) && session == old(session) && maximized == old(maximized)
      ensures closed ==>
                && panes == old(panes) - {old(focused)} && Plain()
                && PaneOrder(layout.tree) == Kept(PaneOrder(old(layout.tree)), {old(focused)})
                && NextTo(PaneOrder(old(layout.tree)), old(focused), focused)
      ensures Alternates(old(layout.tree)) ==> Alternates(layout.tree)
    {
      hide PaneBag, Kept, PaneOrder, NextTo, Represents, Alternates;
      if |panes| == 1 {
        return false;
      }
      SomePane(panes, focused);
      var next := RemovePane(focused);
      focused := next;
      EndInteraction();
      return true;
    }

    /** The panes whose programs have ended. */
    method CollectExited(ended: set<PaneId>) returns (exited: seq<PaneId>)
      ensures Listed(exited) == panes * ended && |exited| == |panes * ended|
      ensures forall i, j :: 0 <= i < j < |exited| ==> exited[i] != exited[j]
    {
      exited := [];
      var rest := panes;
      while rest != {}
        invariant rest <= panes && Listed(exited) == (panes - rest) * ended
        invariant forall i, j :: 0 <= i < j < |exited| ==> exited[i] != exited[j]
        decreases rest
      {
        var pane :| pane in rest;
        ListedIs(exited);
        ListedOne(exited, pane);
        assert pane !in Listed(exited);
        assert panes - (rest - {pane}) == (panes - rest) + {pane};
        if pane in ended {
          exited := exited + [pane];
        }
        rest := rest - {pane};
      }
      ListedCard(exited);
      assert panes - rest == panes;
    }

    /** Remove the panes whose programs have ended. When all have ended the tray itself is done and is
        left as it is. */
    method ReapExitedPanes(ended: set<PaneId>) returns (update: ExitUpdate)
      requires Valid()
      modifies this`panes, this`focused, this`maximized, this`selection, this`session, layout
      ensures Valid() && layout.nextNodeValue == old(layout.nextNodeValue)
      ensures update.NoExit? <==> old(panes) * ended == {}
      ensures update.TrayExited? <==> old(panes) <= ended
      ensures !update.PanesExited? ==>
                && layout.tree == old(layout.tree) && panes == old(panes) && focused == old(focused)
                && selection == old(selection) && session == old(session) && maximized == old(maximized)
      ensures update.PanesExited? ==>
                && Plain() && panes == old(panes) - ended
                && PaneOrder(layout.tree) == Kept(PaneOrder(old(layout.tree)), ended)
                && FocusKept(PaneOrder(old(layout.tree)), old(focused), ended, focused)
      ensures Alternates(old(layout.tree)) ==> Alternates(layout.tree)
    {
      hide PaneBag, Kept, PaneOrder, NextTo, FocusKept, Represents, Alternates;
      SomePane(panes, focused);
      var exited := CollectExited(ended);
      EndedSome(panes, ended, exited);
      if |exited| == 0 {
        return NoExit;
      }
      if |exited| == |panes| {
        return TrayExited;
      }
      ghost var t := layout.tree;
      OrderedPanes(t, panes);
      KeptSame(PaneOrder(t), panes, ended, exited);
      EndInteraction();
      RemoveExited(exited);
      FocusKeptSame(PaneOrder(t), old(focused), panes + Listed(exited), ended, exited, focused);
      return PanesExited;
    }

    method RemoveExited(exited: seq<PaneId>)
      requires Valid() && Plain() && |exited| < |panes| && (forall p :: p in exited ==> p in panes)
      requires forall i, j :: 0 <= i < j < |exited| ==> exited[i] != exited[j]
      modifies this`panes, this`focused, layout
      ensures Valid() && Plain() && layout.nextNodeValue == old(layout.nextNodeValue)
      ensures panes == old(panes) - Listed(exited)
      ensures PaneOrder(layout.tree) == Kept(PaneOrder(old(layout.tree)), Listed(exited))
      ensures FocusKept(PaneOrder(old(layout.tree)), old(focused), Listed(exited), focused)
      ensures Alternates(old(layout.tree)) ==> Alternates(layout.tree)
    {
      hide PaneBag, Kept, PaneOrder, NextTo, FocusKept, Represents, Listed, Alternates, Refocused, Distinct;
      ghost var t, all := layout.tree, panes;
      KeptNone(PaneOrder(t), all);
      ghost var b, a := FocusedIn(t, panes, focused);
      for i := 0 to |exited|
        invariant Valid() && Plain() && layout.nextNodeValue == old(layout.nextNodeValue)
        invariant panes == all - Listed(exited[..i]) && |panes| + i == |all|
        invariant PaneOrder(layout.tree) == Kept(PaneOrder(t), Listed(exited[..i]))
        invariant Refocused(b, old(focused), a, Listed(exited[..i]), focused)
        invariant Alternates(t) ==> Alternates(layout.tree)
      {
        ListedNext(all, exited, i);
        ghost var was := focused;
        OrderDistinct(layout.nodes, layout.root, layout.nextNodeValue, layout.tree);
        RemoveEnded(exited[i]);
        KeptTwice(PaneOrder(t), Listed(exited[..i]), {exited[i]});
        RefocusedNext(b, old(focused), a, Listed(exited[..i]), was, exited[i], focused);
      }
      assert exited[..|exited|] == exited;
      RefocusedKept(PaneOrder(t), b, old(focused), a, Listed(exited), focused);
    }

    /** Remove one pane; if it was focused, its neighbour is from now on. */
    method RemoveEnded(pane: PaneId)
      requires Valid() && Plain() && pane in panes && |panes| >= 2
      modifies this`panes, this`focused, layout
      ensures Valid() && Plain() && layout.nextNodeValue == old(layout.nextNodeValue) && panes == old(panes) - {pane}
      ensures PaneOrder(layout.tree) == Kept(PaneOrder(old(layout.tree)), {pane})
      ensures if pane == old(focused) then NextTo(PaneOrder(old(layout.tree)), pane, focused)
              else focused == old(focused)
      ensures Alternates(old(layout.tree)) ==> Alternates(layout.tree)
    {
      hide PaneBag, Kept, PaneOrder, NextTo, Represents, Alternates;
      var next := RemovePane(pane);
      if pane == focused {
        focused := next;
      }
    }

    method ToggleMaximized() returns (changed: bool)
      requires Valid()
      modifies this`maximized, this`selection, this`session
      ensures Valid() && layout.tree == old(layout.tree) && panes == old(panes) && focused == old(focused)
      ensures changed <==> |panes| != 1
      ensures changed ==> maximized == !old(maximized) && selection.None? && session == null
      ensures !changed ==> maximized == old(maximized) && selection == old(selection) && session == old(session)
    {
      SomePane(panes, focused);
      if |panes| == 1 {
        return false;
      }
      selection := None;
      session := null;
      maximized := !maximized;
      return true;
    }

    /** Start selecting at the focused pane, or stop selecting. */
    method ToggleSelection()
      requires Valid()
      modifies this`maximized, this`selection, this`session
      ensures Valid() && layout.tree == old(layout.tree) && panes == old(panes) && focused == old(focused)
              && session == null && !maximized
      ensures selection.Some? <==> old(selection).None?
      ensures selection.Some? ==> |selection.value.nodes| == 1
                                  && LeafRef(selection.value.nodes[0], focused) in Leaves(layout.tree)
    {
      hide Plug, Bag, BagKids, Locate, Distinct, Holds, Sound, Leaves, PaneBag;
      session := null;
      if selection.Some? {
        selection := None;
        return;
      }
      maximized := false;
      var node := RequiredNode(focused);
      var single := Single(layout, node);
      selection := Some(single.value);
    }

    /** Extend or shrink the selection along the axis of its level. */
    method StepSelection(direction: FocusDirection) returns (changed: bool)
      requires Valid()
      modifies this`selection
      ensures Valid() && layout.tree == old(layout.tree) && panes == old(panes) && focused == old(focused)
              && session == old(session) && maximized == old(maximized)
      ensures changed <==> old(selection).Some? && Steps(layout.tree, old(selection).value, direction)
      ensures !changed ==> selection == old(selection)
      ensures changed ==> selection.Some? && SteppedTo(layout.tree, old(selection).value, direction, selection.value)
    {
      hide Plug, Bag, BagKids, Locate, Distinct, Holds, Sound, Leaves, PaneBag, IsSlice;
      if selection.None? || selection.value.parent.None? {
        return false;
      }
      var parent := selection.value.parent.value;
      ActiveStands(layout.nodes, layout.tree, selection.value);
      var axis := layout.nodes[parent].contents.axis;
      if axis != Along(direction) {
        return false;
      }
      var stepped := Step(layout, selection.value, if Forward(direction) then Next else Previous);
      if stepped.active == selection.value.active {
        return false;
      }
      selection := Some(stepped);
      return true;
    }

    method PromoteSelection() returns (changed: bool)
      requires Valid()
      modifies this`selection
      ensures Valid() && layout.tree == old(layout.tree) && panes == old(panes) && focused == old(focused)
              && session == old(session) && maximized == old(maximized)
      ensures changed <==> old(selection).Some? && old(selection).value.parent.Some?
      ensures !changed ==> selection == old(selection)
      ensures changed ==> selection.Some? && selection.value.nodes == [old(selection).value.parent.value]
    {
      hide PaneBag, Follows;
      if selection.None? {
        return false;
      }
      ParentApart(layout.nodes, layout.tree, selection.value);
      var promoted := Promote(layout, selection.value);
      if promoted.nodes == selection.value.nodes {
        return false;
      }
      selection := Some(promoted);
      return true;
    }

    method DescendSelection() returns (changed: bool)
      requires Valid()
      modifies this`selection
      ensures Valid() && layout.tree == old(layout.tree) && panes == old(panes) && focused == old(focused)
              && session == old(session) && maximized == old(maximized)
      ensures changed <==>
                && old(selection).Some? && |old(selection).value.nodes| == 1
                && old(selection).value.nodes[0] in Bag(layout.tree)
                && At(layout.tree, old(selection).value.nodes[0]).tree.Split?
      ensures !changed ==> selection == old(selection)
      ensures changed ==>
                var u := At(layout.tree, old(selection).value.nodes[0]).tree;
                |u.kids| >= 2 && selection.Some? && selection.value.nodes == [u.kids[0].tree.id]
    {
      hide PaneBag, Follows, Plug, Bag, BagKids, Locate, Distinct, Holds;
      if selection.None? {
        return false;
      }
      ChildApart(layout.nodes, layout.tree, selection.value);
      var descended := Descend(layout, selection.value);
      if descended.nodes == selection.value.nodes {
        return false;
      }
      selection := Some(descended);
      return true;
    }

    method SelectionOrFocusedPane() returns (s: PaneSelection)
      requires Valid()
      ensures Follows(layout.tree, s)
      ensures selection.Some? ==> s == selection.value
      ensures Chosen(layout.tree, selection, focused, s)
    {
      hide Plug, Bag, BagKids, Locate, Distinct, Holds, Sound, Leaves, PaneBag, Follows;
      if selection.Some? {
        return selection.value;
      }
      var node := RequiredNode(focused);
      var single := Single(layout, node);
      return single.value;
    }

    /** Grow or shrink the selection, or the focused pane. */
    method ResizeSelectedPanes(delta: int) returns (changed: bool, ghost s: PaneSelection)
      requires Valid()
      modifies this`maximized, this`session, layout
      ensures Valid() && panes == old(panes) && focused == old(focused) && selection == old(selection)
              && session == null
      ensures Leaves(layout.tree) == Leaves(old(layout.tree)) && layout.nextNodeValue == old(layout.nextNodeValue)
      ensures Chosen(old(layout.tree), selection, focused, s) && Follows(old(layout.tree), s)
      ensures changed <==> Resizes(old(layout.tree), s, delta)
      ensures Resized(old(layout.tree), s, delta, layout.tree)
      ensures maximized == (old(maximized) && !changed)
      ensures Alternates(old(layout.tree)) ==> Alternates(layout.tree)
    {
      hide Plug, Bag, BagKids, Locate, Distinct, Holds, Sound, Leaves, Follows, Resizes, Resized, Alternates, Chosen;
      session := null;
      var selected := SelectionOrFocusedPane();
      s := selected;
      ghost var t := layout.tree;
      changed := ResizePaneSelection(layout, selected, delta);
      ResizedAlternates(t, s, delta, layout.tree);
      if changed {
        maximized := false;
      }
    }

    /** Even out the selection, or the level of the focused pane. */
    method EqualizeSelectedPanes() returns (changed: bool, ghost s: PaneSelection)
      requires Valid()
      modifies this`maximized, this`session, layout
      ensures Valid() && panes == old(panes) && focused == old(focused) && selection == old(selection)
              && session == null
      ensures Leaves(layout.tree) == Leaves(old(layout.tree)) && layout.nextNodeValue == old(layout.nextNodeValue)
      ensures changed <==> layout.tree != old(layout.tree)
      ensures Chosen(old(layout.tree), selection, focused, s)
              && Equalized(old(layout.tree), s, selection.Some?, layout.tree)
      ensures maximized == (old(maximized) && !changed)
      ensures Alternates(old(layout.tree)) ==> Alternates(layout.tree)
    {
      hide Plug, Bag, BagKids, Locate, Distinct, Holds, Sound, Leaves, Follows, Distribute, Sum, EqualShares;
      hide EvenedShares, Equalized, Alternates;
      session := null;
      ghost var t := layout.tree;
      if selection.Some? {
        s := selection.value;
        changed := EqualizePaneSelection(layout, selection.value);
      } else {
        var selected := SelectionOrFocusedPane();
        s := selected;
        changed := EqualizePaneSelectionLevel(layout, selected);
      }
      EqualizedAlternates(t, s, selection.Some?, layout.tree);
      if changed {
        maximized := false;
      }
    }

    /** Rotate the selected level, or the level of the focused pane; a selection follows along. */
    method RotateSelectedPaneLevel() returns (r: Outcome<bool>, ghost s: PaneSelection)
      requires Valid()
      modifies this`maximized, this`selection, this`session, layout
      ensures Valid() && panes == old(panes) && focused == old(focused) && session == null
      ensures selection.Some? <==> old(selection).Some?
      ensures Leaves(layout.tree) == Leaves(old(layout.tree))
      ensures Chosen(old(layout.tree), old(selection), focused, s) && |s.nodes| > 0
              && s.nodes[0] in Bag(old(layout.tree))
      ensures r.Rejected? <==> Groups(old(layout.tree), s) && old(layout.nextNodeValue) == MAX_NODE_VALUE
      ensures r.Done? ==> r.value == (Groups(old(layout.tree), s) || RotatedSplit(old(layout.tree), s).Some?)
      ensures r == Done(true) ==>
                && layout.tree == RotatedTree(old(layout.tree), s, old(layout.nextNodeValue))
                && (selection.Some? ==>
                      && selection.value.nodes == RotatedNodes(old(layout.tree), s, old(layout.nextNodeValue))
                      && |selection.value.nodes| > 0
                      && selection.value.anchor == KeptAnchor(s, Groups(old(layout.tree), s), selection.value.nodes))
      ensures r != Done(true) ==>
                layout.tree == old(layout.tree) && selection == old(selection) && maximized == old(maximized)
      ensures r == Done(true) ==> !maximized
      ensures layout.nextNodeValue
                == old(layout.nextNodeValue) + (if r == Done(true) && Groups(old(layout.tree), s) then 1 else 0)
      ensures Alternates(old(layout.tree)) ==> Alternates(layout.tree)
    {
      hide Plug, Bag, BagKids, Locate, Distinct, Holds, Sound, Leaves, Follows, RotatedTree, RotatedNodes;
      hide RotatedSplit, Groups, Alternates, Chosen, PaneBag;
      session := null;
      var selected := SelectionOrFocusedPane();
      s := selected;
      var rotated: PaneSelection;
      ghost var t, next := layout.tree, layout.nextNodeValue;
      r, rotated := RotatePaneSelectionLevel(layout, selected);
      SamePanes(t, layout.tree);
      RotatedAlternates(t, s, next);
      if r == Done(true) {
        maximized := false;
        if selection.Some? {
          selection := Some(rotated);
        }
      }
    }

    /** Begin moving the selection or the focused pane, or give the move up. */
    method ToggleMove() returns (changed: bool)
      requires Valid()
      modifies this`maximized, this`selection, this`session
      ensures Valid() && layout.tree == old(layout.tree) && panes == old(panes) && focused == old(focused) && !maximized
      ensures changed <==> old(session) != null || |panes| != 1
      ensures session != null <==> old(session) == null && |panes| != 1
      ensures selection == if old(session) == null && |panes| != 1 then None else old(selection)
      ensures session != null ==>
                && fresh(session) && Chosen(layout.tree, old(selection), focused, session.source)
                && session.target.None? && session.stage == Targeting && session.operation == Move
                && session.dropDirection.None?
    {
      hide Follows, PaneBag, Leaves, Chosen;
      if session != null {
        session := null;
        return true;
      }
      SomePane(panes, focused);
      if |panes| == 1 {
        return false;
      }
      var source := SelectionOrFocusedPane();
      selection := None;
      maximized := false;
      session := new PaneMoveSession(source);
      return true;
    }

    /** Aim at what the search among the eligible leaves finds, from the target or from the source. */
    method StepMoveTarget(direction: FocusDirection)
      returns (changed: bool, ghost regions: Regions, ghost leaves: seq<NodeId>, ghost found: Option<NodeId>)
      requires Valid()
      modifies session
      ensures Valid() && Shown(layout.tree, regions, leaves) && Laid(regions, layout.tree, Region(0, 0, rows, cols))
      ensures changed <==> session != null && session.stage == Targeting && found.Some?
      ensures session != null ==>
                && session.stage == old(session.stage) && session.operation == old(session.operation)
                && session.dropDirection == old(session.dropDirection)
                && session.target == if changed then found else old(session.target)
      ensures session != null && session.stage == Targeting ==>
                var from := if old(session.target).Some? then old(session.target).value else session.source.active;
                && from in regions && Known(regions, leaves)
                && Finds(regions, leaves, from, direction, EligibleAmong(layout.tree, session.source, leaves), found)
    {
      hide Follows, PaneBag, Leaves, Laid, Eligible, Represents, Finds;
      var shown, order := Geometry();
      regions, leaves, found := shown, order, None;
      if session == null {
        return false, regions, leaves, found;
      }
      changed := session.StepTarget(layout, shown, order, direction);
      found := if changed then session.target else None;
    }

    method PromoteMoveTarget() returns (changed: bool)
      requires Valid()
      modifies session
      ensures Valid()
      ensures changed <==>
                && session != null && old(session.stage) == Targeting && old(session.target).Some?
                && old(session.target).value in Bag(layout.tree)
                && var c := At(layout.tree, old(session.target).value).ctx;
                   c.In? && Eligible(layout.tree, session.source, c.id)
      ensures session != null ==>
                && session.stage == old(session.stage) && session.operation == old(session.operation)
                && session.dropDirection == old(session.dropDirection)
                && session.target
                     == if changed then Some(At(layout.tree, old(session.target).value).ctx.id) else old(session.target)
    {
      hide Follows, PaneBag, Eligible, Represents;
      if session == null {
        return false;
      }
      changed := session.PromoteTarget(layout);
    }

    method DescendMoveTarget() returns (changed: bool)
      requires Valid()
      modifies session
      ensures Valid()
      ensures changed <==>
                && session != null && old(session.stage) == Targeting && old(session.target).Some?
                && FirstEligible(layout.tree, session.source, old(session.target).value).Some?
      ensures session != null ==>
                && session.stage == old(session.stage) && session.operation == old(session.operation)
                && session.dropDirection == old(session.dropDirection)
                && session.target
                     == if changed then FirstEligible(layout.tree, session.source, old(session.target).value)
                        else old(session.target)
    {
      hide Follows, PaneBag, Eligible, Represents, FirstEligible;
      if session == null {
        return false;
      }
      changed := session.DescendTarget(layout);
    }

    method ToggleMoveSwap() returns (changed: bool)
      requires Valid()
      modifies session
      ensures Valid()
      ensures changed <==> session != null && session.stage == Targeting && |session.source.nodes| == 1
      ensures session != null ==>
                && session.stage == old(session.stage) && session.target == old(session.target)
                && session.dropDirection == old(session.dropDirection)
                && session.operation
                     == if changed then (if old(session.operation) == Move then Swap else Move)
                        else old(session.operation)
    {
      hide Follows, PaneBag, Eligible, Represents;
      if session == null {
        return false;
      }
      changed := session.ToggleSwap();
    }

    method SetMoveDropDirection(direction: DropDirection) returns (changed: bool)
      requires Valid()
      modifies session
      ensures Valid()
      ensures changed <==> session != null && session.stage == Dropping && old(session.dropDirection) != Some(direction)
      ensures session != null ==>
                && session.stage == old(session.stage) && session.target == old(session.target)
                && session.operation == old(session.operation)
                && session.dropDirection
                     == if session.stage == Dropping then Some(direction) else old(session.dropDirection)
    {
      hide Follows, PaneBag, Eligible, Represents;
      if session == null {
        return false;
      }
      changed := session.SetDropDirection(direction);
    }

    /** Lock the target of a move, or carry the move or swap out. A rejected move or swap leaves the tray as
        it is; the panes are the same afterwards in any case. */
    method AdvanceMove() returns (r: Outcome<bool>)
      requires Valid()
      ensures session == null || session == old(session)
      ensures session != null ==>
                && session.target == old(session.target) && session.operation == old(session.operation)
                && session.dropDirection == old(session.dropDirection)
                && session.stage == if r == Done(true) then Dropping else old(session.stage)
      ensures r != Done(true) ==> layout.nextNodeValue == old(layout.nextNodeValue)
      ensures Alternates(old(layout.tree)) && !old(session != null && session.DropsOnSameAxis(layout.tree)) ==>
                Alternates(layout.tree)
      modifies this`maximized, this`selection, this`session, layout, session
      ensures Valid() && panes == old(panes) && focused == old(focused)
      ensures multiset(Leaves(layout.tree)) == multiset(Leaves(old(layout.tree)))
      ensures r.Rejected? <==>
                && old(session) != null && !(old(session.operation) == Move && old(session.stage) == Targeting)
                && old(Outlook(layout.tree, session.source, session.target, session.stage, session.operation,
                               session.dropDirection, layout.nextNodeValue)).Rejected?
      ensures r == Done(true) <==>
                && old(session) != null
                && if old(session.operation) == Move && old(session.stage) == Targeting then old(session.target).Some?
                   else var o := old(Outlook(layout.tree, session.source, session.target, session.stage,
                                             session.operation, session.dropDirection, layout.nextNodeValue));
                        o.Done? && o.value.Some?
      ensures r != Done(true) ==>
                layout.tree == old(layout.tree) && selection == old(selection) && session == old(session)
                && maximized == old(maximized)
      ensures r == Done(true) ==>
                if old(session.operation) == Move && old(session.stage) == Targeting
                then session == old(session) && session.stage == Dropping && layout.tree == old(layout.tree)
                     && layout.nextNodeValue == old(layout.nextNodeValue)
                else Plain()
                     && Done(Some(layout.tree))
                          == old(Outlook(layout.tree, session.source, session.target, session.stage, session.operation,
                                                                       session.dropDirection, layout.nextNodeValue))
    {
      hide Follows, Eligible, Outlook, Sound, Bag, Leaves, Holds, Distinct, Alternates;
      if session == null {
        return Done(false);
      }
      if session.operation == Move && session.stage == Targeting {
        var locked := session.LockTarget();
        return Done(locked);
      }
      ghost var t, next := layout.tree, layout.nextNodeValue;
      ghost var outlook := Outlook(t, session.source, session.target, session.stage, session.operation,
                                   session.dropDirection, next);
      OutlookLeaves(t, next, session.source, session.target, session.stage, session.operation, session.dropDirection);
      OutlookAlternates(t, next, session.source, session.target, session.stage, session.operation,
                        session.dropDirection);
      r := session.Confirm(layout);
      if r != Done(true) {
        return;
      }
      EndInteraction();
    }

    method Resize(rows: nat, cols: nat)
      requires Valid()
      modifies this`rows, this`cols
      ensures Valid() && layout.tree == old(layout.tree)
      ensures this.rows == rows && this.cols == cols
    {
      this.rows := rows;
      this.cols := cols;
    }
  }

  // ----- lemmas about the panes of a tray

  lemma {:induction false} RemovedAlternates(t: Tree, next: nat, id: NodeId)
    requires WellFormed(t, next) && id in Bag(t)
    requires var c := At(t, id).ctx; c.In? && |c.left| + |c.right| >= 1
    ensures Alternates(t) ==> Alternates(RemoveAt(At(t, id).ctx))
  {
    hide Plug, Bag, Locate, Sound, SoundCtx;
    var l := At(t, id);
    PlugSound(l.ctx, l.tree, 0);
    PlugAlternates(l.ctx, l.tree);
    if AlternatesCtx(l.ctx) {
      RemoveAlternates(l.ctx);
    }
  }

  /** New shares change no axis. */
  lemma {:induction false} ResharedAlternates(c: Ctx, u: Tree, w: seq<int>)
    requires u.Split? && |w| == |u.kids|
    ensures Alternates(Plug(c, u)) ==> Alternates(Plug(c, Split(u.id, u.axis, Reshare(u.kids, w))))
  {
    hide Plug;
    var v := Split(u.id, u.axis, Reshare(u.kids, w));
    PlugAlternates(c, u);
    PlugAlternates(c, v);
    if Alternates(u) {
      SameKids(u.kids, v.kids, 0, u.axis);
    }
  }

  lemma {:induction false} ResizedAlternates(t: Tree, s: PaneSelection, delta: int, t': Tree)
    requires Follows(t, s) && Resized(t, s, delta, t')
    ensures Alternates(t) ==> Alternates(t')
  {
    hide Plug, Bag, Locate, ResizedShares, Alternates;
    if Resizes(t, s, delta) {
      var r := RangeOf(t, s);
      ResharedAlternates(r.c, r.p, ResizedShares(r, Clamp(Sum(Shares(r.Sel())) + delta)));
    }
  }

  lemma {:induction false} EqualizedAlternates(t: Tree, s: PaneSelection, explicit: bool, t': Tree)
    requires Equalized(t, s, explicit, t')
    ensures Alternates(t) ==> Alternates(t')
  {
    hide Plug, Bag, Locate, EqualShares, EvenedShares, Alternates;
    if explicit && EqualizesSplit(t, s) {
      var l := At(t, s.nodes[0]);
      ResharedAlternates(l.ctx, l.tree, EqualShares(|l.tree.kids|));
    } else if s.parent.Some? {
      var l := At(t, s.parent.value);
      if explicit {
        ResharedAlternates(l.ctx, l.tree, EvenedShares(RangeOf(t, s)));
      } else {
        ResharedAlternates(l.ctx, l.tree, EqualShares(|l.tree.kids|));
      }
    }
  }

  lemma {:induction false} RotatedAlternates(t: Tree, s: PaneSelection, groupId: NodeId)
    requires |s.nodes| > 0 && s.nodes[0] in Bag(t) && Sound(t, 0)
    ensures Alternates(t) ==> Alternates(RotatedTree(t, s, groupId))
  {
    hide Plug, Bag, Locate, Alternates, Sound, RotateAt, Grouped;
    if Alternates(t) {
      if Groups(t, s) {
        var r := RangeOf(t, s);
        if r.first + r.count <= |r.p.kids| {
          PlugAlternates(r.c, r.p);
          GroupedAlternates(r.p, r.first, r.count, groupId);
          PlugAlternates(r.c, Grouped(r.p, r.first, r.count, groupId));
          GroupedShape(r.p, r.first, r.count, groupId);
          GroupedAxis(r.p, r.first, r.count, groupId);
        }
      } else {
        var split := RotatedSplit(t, s);
        if split.Some? && split.value in Bag(t) && At(t, split.value).tree.Split? {
          RotateAlternates(At(t, split.value).ctx, At(t, split.value).tree);
        }
      }
    }
  }

  lemma {:induction false} GroupedAxis(u: Tree, first: nat, count: nat, groupId: NodeId)
    requires u.Split? && first + count <= |u.kids|
    ensures Grouped(u, first, count, groupId).Split? && Grouped(u, first, count, groupId).axis == u.axis
  {
  }

  lemma {:induction false} EndedSome(panes: set<PaneId>, ended: set<PaneId>, exited: seq<PaneId>)
    requires Listed(exited) == panes * ended && |exited| == |panes * ended|
    ensures |exited| == 0 <==> panes * ended == {}
    ensures |exited| == |panes| <==> panes <= ended
    ensures |exited| <= |panes| && forall p :: p in exited <==> p in panes && p in ended
  {
    assert panes * ended <= panes;
    ListedIs(exited);
    PartCard(panes * ended, panes);
    if panes <= ended {
      assert panes * ended == panes;
    }
  }

  lemma {:induction false} PartCard(a: set<PaneId>, b: set<PaneId>)
    requires a <= b
    ensures |a| <= |b| && (|a| == |b| ==> a == b)
  {
    assert b == a + (b - a);
    assert |b| == |a| + |b - a|;
  }

  lemma {:induction false} OrderedPanes(t: Tree, panes: set<PaneId>)
    requires forall p :: p in panes <==> p in PaneBag(t)
    ensures forall p :: p in PaneOrder(t) ==> p in panes
  {
  }

  /** Only panes of the tray matter for what is left of its order. */
  lemma {:induction false} KeptSame(s: seq<PaneId>, panes: set<PaneId>, ended: set<PaneId>, exited: seq<PaneId>)
    requires (forall p :: p in s ==> p in panes) && forall p :: p in exited <==> p in panes && p in ended
    ensures Kept(s, ended) == Kept(s, Listed(exited))
  {
    ListedIs(exited);
    if s != [] {
      KeptSame(s[1..], panes, ended, exited);
    }
  }

  /** A split shows one pane more. */
  lemma {:induction false} SplitShows(t: Tree, next: nat, c: Ctx, s: Tree, axis: Axis, added: Tree,
                                      insertion: Insertion, splitId: NodeId)
    requires WellFormed(t, next) && t == Plug(c, s) && s.Leaf? && added.Leaf?
    ensures PaneBag(SplitAt(c, s, axis, added, insertion, splitId)) == PaneBag(t) + multiset{added.pane}
    ensures forall p ::
              p in PaneBag(SplitAt(c, s, axis, added, insertion, splitId)) <==> p in PaneBag(t) || p == added.pane
    ensures AddedNextTo(PaneOrder(t), PaneOrder(SplitAt(c, s, axis, added, insertion, splitId)), s.pane, added.pane,
                        insertion)
    ensures Alternates(t) ==> Alternates(SplitAt(c, s, axis, added, insertion, splitId))
  {
    PlugAlternates(c, s);
    if AlternatesCtx(c) {
      SplitAlternates(c, s, axis, added, insertion, splitId);
    }
    hide Plug, Bag, Sound, SoundCtx, Leaves, LeavesBefore, LeavesAfter, SplitAt, Panes, AddedNextTo;
    PlugSound(c, s, 0);
    PlugLeaves(c, s);
    SplitProps(c, s, axis, added, insertion, splitId);
    SplitPanes(t, SplitAt(c, s, axis, added, insertion, splitId), c, s, added, insertion);
    LeafFacts(s);
    LeafFacts(added);
    InsertedPane(LeavesBefore(c), s, added, LeavesAfter(c), insertion);
  }

  lemma {:induction false} InsertedPane(b: seq<LeafRef>, s: Tree, added: Tree, a: seq<LeafRef>, insertion: Insertion)
    requires s.Leaf? && added.Leaf?
    ensures var x, y := [LeafRef(s.id, s.pane)], [LeafRef(added.id, added.pane)];
            AddedNextTo(Panes(b + x + a), Panes(b + (if insertion.Before? then y + x else x + y) + a), s.pane,
                        added.pane, insertion)
  {
    var x, y := [LeafRef(s.id, s.pane)], [LeafRef(added.id, added.pane)];
    assert Panes(b + x + a) == Panes(b) + [s.pane] + Panes(a);
    assert Panes(b + (y + x) + a) == Panes(b) + [added.pane, s.pane] + Panes(a);
    assert Panes(b + (x + y) + a) == Panes(b) + [s.pane, added.pane] + Panes(a);
  }

  lemma {:induction false} LaidNonNegative(regions: Regions, t: Tree, r: Region)
    requires Sound(t, 0) && 0 !in Bag(t) && Laid(regions, t, r) && r.NonNegative()
             && forall x :: x in regions <==> x in Bag(t)
    ensures forall x :: x in regions ==> regions[x].NonNegative()
  {
    forall x | x in regions ensures regions[x].NonNegative() {
      LaidAt(regions, t, r, x);
    }
  }

  lemma {:induction false} LaidAt(regions: Regions, t: Tree, r: Region, x: NodeId)
    requires Sound(t, 0) && 0 !in Bag(t) && Laid(regions, t, r) && r.NonNegative() && x in Bag(t)
    ensures x in regions && regions[x].NonNegative()
    decreases t
  {
    hide Extents, Apportion;
    if x != t.id {
      var k := InKids(t.kids, x);
      var i :| 0 <= i < |t.kids| && t.kids[i] == k;
      assert LaidKid(regions, t, r, i);
      KidBag(t.kids, k);
      StripStep(t, r, i, Cell(0, 0));
      LaidAt(regions, k.tree, ChildRegion(t, r, i), x);
    }
  }

  lemma {:induction false} LeafShown(n: Nodes, t: Tree, x: NodeId)
    requires Holds(n, t, None) && Distinct(Bag(t)) && x in LeafIds(Leaves(t))
    ensures x in n && n[x].IsLeaf() && LeafRef(x, n[x].contents.pane) in Leaves(t) && n[x].contents.pane in PaneBag(t)
  {
    var i :| 0 <= i < |Leaves(t)| && LeafIds(Leaves(t))[i] == x;
    var ref := Leaves(t)[i];
    assert ref in Leaves(t) && ref.id == x;
    FoundLeaf(n, t, x, ref.pane);
    PaneShown(Leaves(t), ref.pane);
  }

  lemma {:induction false} OneLeafPerPane(n: Nodes, t: Tree, x: NodeId, y: NodeId, pane: PaneId)
    requires Holds(n, t, None) && Distinct(Bag(t)) && Distinct(PaneBag(t)) && x in n && n[x].IsLeaf()
    requires LeafRef(x, n[x].contents.pane) in Leaves(t) && LeafRef(y, pane) in Leaves(t) && x != y
    ensures n[x].contents.pane != pane
  {
    var i :| 0 <= i < |Leaves(t)| && Leaves(t)[i] == LeafRef(x, n[x].contents.pane);
    var j :| 0 <= j < |Leaves(t)| && Leaves(t)[j] == LeafRef(y, pane);
    var p := Panes(Leaves(t));
    if p[i] == p[j] {
      Repeats(p, if i < j then i else j, if i < j then j else i);
    }
  }

  lemma {:induction false} Repeats(p: seq<PaneId>, i: nat, j: nat)
    requires i < j < |p| && p[i] == p[j]
    ensures !Distinct(multiset(p))
  {
    assert p == p[..j] + [p[j]] + p[j + 1..];
    assert multiset(p) == multiset(p[..j]) + multiset{p[j]} + multiset(p[j + 1..]);
    assert p[..j][i] == p[i];
    assert multiset(p)[p[i]] >= 2;
  }

  /** A single leaf shows a single pane. */
  lemma {:induction false} LonePane(t: Tree, panes: set<PaneId>)
    requires (forall p :: p in panes <==> p in PaneBag(t)) && t.Leaf?
    ensures |panes| == 1
  {
    LeafFacts(t);
    assert Panes(Leaves(t)) == [t.pane];
    assert panes == {t.pane};
  }

  lemma {:induction false} RemovedSet(t: Tree, t': Tree, b: seq<LeafRef>, pane: PaneId, a: seq<LeafRef>,
                                      panes: set<PaneId>)
    requires (forall p :: p in panes <==> p in PaneBag(t)) && PaneOrder(t) == Panes(b) + [pane] + Panes(a)
    requires Leaves(t') == b + a && pane !in Panes(b + a)
    ensures forall p :: p in panes - {pane} <==> p in PaneBag(t')
  {
    PanesAppend(b, a);
    var x, y := Panes(b), Panes(a);
    forall p ensures p in panes - {pane} <==> p in PaneBag(t') {
      assert p in PaneBag(t) <==> p in x + [pane] + y;
      assert p in PaneBag(t') <==> p in x + y;
    }
  }

  lemma {:induction false} ShownPane(ls: seq<LeafRef>, ref: LeafRef)
    requires ref in ls
    ensures ref.pane in Panes(ls)
  {
    var i :| 0 <= i < |ls| && ls[i] == ref;
    assert Panes(ls)[i] == ref.pane;
  }

  lemma {:induction false} SomePane(panes: set<PaneId>, p: PaneId)
    requires p in panes
    ensures |panes| >= 1
  {
  }

  function Listed(s: seq<PaneId>): set<PaneId> {
    set p | p in s
  }

  lemma {:induction false} ListedIs(s: seq<PaneId>)
    ensures forall p :: p in Listed(s) <==> p in s
  {
  }

  lemma {:induction false} ListedOne(s: seq<PaneId>, p: PaneId)
    ensures Listed(s + [p]) == Listed(s) + {p}
  {
  }

  lemma {:induction false} ListedCard(s: seq<PaneId>)
    requires forall i, j :: 0 <= i < j < |s| ==> s[i] != s[j]
    ensures |Listed(s)| == |s|
  {
    if s != [] {
      var k := |s| - 1;
      assert s == s[..k] + [s[k]];
      ListedOne(s[..k], s[k]);
      ListedIs(s[..k]);
      ListedCard(s[..k]);
    }
  }

  lemma {:induction false} ListedNext(all: set<PaneId>, s: seq<PaneId>, i: nat)
    requires i < |s| && (forall p :: p in s ==> p in all) && forall i, j :: 0 <= i < j < |s| ==> s[i] != s[j]
    ensures s[i] in all - Listed(s[..i])
    ensures Listed(s[..i + 1]) == Listed(s[..i]) + {s[i]}
    ensures all - Listed(s[..i + 1]) == (all - Listed(s[..i])) - {s[i]}
    ensures |all - Listed(s[..i + 1])| == |all - Listed(s[..i])| - 1
    ensures forall p :: p in s[..i + 1] <==> p in s[..i] || p == s[i]
  {
    assert s[..i + 1] == s[..i] + [s[i]];
  }

  lemma {:induction false} KeptNone(s: seq<PaneId>, all: set<PaneId>)
    ensures Kept(s, Listed([])) == s && all - Listed([]) == all
  {
    KeptAll(s, Listed([]));
  }
}
