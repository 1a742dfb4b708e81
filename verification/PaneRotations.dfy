/** Rotating the selected level, and where the selection ends up. */
module PaneRotations {
  import opened Wrappers
  import opened PaneTree
  import opened PaneNodes
  import opened PaneEdits
  import opened LayoutMaps
  import opened PaneLayouts
  import opened PaneSelections

  /** The split whose level is rotated: the selected split, or the level of the selected nodes. */
  ghost function RotatedSplit(t: Tree, s: PaneSelection): Option<NodeId>
    requires |s.nodes| > 0 && s.nodes[0] in Bag(t)
  {
    if |s.nodes| == 1 && At(t, s.nodes[0]).tree.Split? then Some(s.nodes[0]) else s.parent
  }

  /** A proper part of a level is grouped instead. */
  ghost predicate Groups(t: Tree, s: PaneSelection) {
    |s.nodes| > 1 && s.parent.Some? && s.parent.value in Bag(t)
    && At(t, s.parent.value).tree.Split? && |s.nodes| < |At(t, s.parent.value).tree.kids|
  }

  ghost function RotatedTree(t: Tree, s: PaneSelection, groupId: NodeId): Tree
    requires |s.nodes| > 0 && s.nodes[0] in Bag(t)
  {
    if Groups(t, s) then
      var r := RangeOf(t, s);
      if r.first + r.count <= |r.p.kids| then Plug(r.c, Grouped(r.p, r.first, r.count, groupId)) else t
    else
      var split := RotatedSplit(t, s);
      if split.Some? && split.value in Bag(t) && At(t, split.value).tree.Split?
      then RotateAt(At(t, split.value).ctx, At(t, split.value).tree) else t
  }

  /** The nodes selected after a rotation: the new group, the children of a rotated split, or the whole
      level of a selected pane. A rotated root stays selected itself. */
  ghost function RotatedNodes(t: Tree, s: PaneSelection, groupId: NodeId): seq<NodeId>
    requires |s.nodes| > 0 && s.nodes[0] in Bag(t)
  {
    if Groups(t, s) then [groupId]
    else
      var split := RotatedSplit(t, s);
      if split.None? || split.value !in Bag(t) || At(t, split.value).tree.Leaf? then s.nodes
      else if |s.nodes| == 1 && split == Some(s.nodes[0]) && s.parent.None? then s.nodes
      else Ids(At(t, split.value).tree.kids)
  }

  /** A rotated whole level keeps its anchor at the same end; any other selection is anchored at its front. */
  function KeptAnchor(s: PaneSelection, grouped: bool, nodes: seq<NodeId>): NodeId
    requires |s.nodes| > 0 && |nodes| > 0
  {
    if |s.nodes| > 1 && !grouped && s.anchor != s.nodes[0] then nodes[|nodes| - 1] else nodes[0]
  }

  /** The rotated split's children stand next to each other afterwards, at their own level or in the
      level above. */
  ghost predicate StandsAt(t: Tree, parent: NodeId, first: nat, ids: seq<NodeId>) {
    && parent in Bag(t) && At(t, parent).tree.Split?
    && first + |ids| <= |At(t, parent).tree.kids|
    && Ids(At(t, parent).tree.kids)[first..first + |ids|] == ids
  }

  lemma {:induction false} RotatedLevel(c: Ctx, s: Tree) returns (parent: NodeId, first: nat)
    requires s.Split? && Distinct(Bag(RotateAt(c, s)))
    ensures StandsAt(RotateAt(c, s), parent, first, Ids(s.kids))
  {
    hide Plug, Bag, Distinct, Locate, Flat, Toggle, Scaled;
    var t := Toggle(s);
    ToggleUnfold(s);
    if c.In? && c.axis == Other(s.axis) {
      var u := Flattened(Fill(c, t));
      AtPlug(c.up, u);
      parent, first := c.id, |Flat(c.left, c.axis)|;
      PromotedKids(c, t);
    } else {
      AtPlug(c, t);
      parent, first := s.id, 0;
      assert Ids(t.kids)[0..|s.kids|] == Ids(s.kids);
    }
  }

  /** Flattening puts the children of a matching split where the split stood. */
  lemma {:induction false} PromotedKids(c: Ctx, t: Tree)
    requires c.In? && t.Split? && t.axis == c.axis
    ensures var ks, at := Flattened(Fill(c, t)).kids, |Flat(c.left, c.axis)|;
            && ks == Flat(c.left, c.axis) + Scaled(t.kids, c.share) + Flat(c.right, c.axis)
            && at + |t.kids| <= |ks| && Ids(ks)[at..at + |t.kids|] == Ids(t.kids)
  {
    hide Flat, Scaled;
    var k := Kid(t, c.share);
    FlatAppend(c.left + [k], c.right, c.axis);
    FlatAppend(c.left, [k], c.axis);
    FlatOne(k, c.axis);
    IdsMiddle(Flat(c.left, c.axis), Scaled(t.kids, c.share), Flat(c.right, c.axis));
    assert Ids(Scaled(t.kids, c.share)) == Ids(t.kids);
  }

  lemma {:induction false} FlatOne(k: Kid, axis: Axis)
    ensures Flat([k], axis) == Promoted(k, axis)
  {
    assert Flat([k][1..], axis) == [];
  }

  lemma {:induction false} IdsMiddle(a: seq<Kid>, m: seq<Kid>, b: seq<Kid>)
    ensures Ids(a + m + b)[|a|..|a| + |m|] == Ids(m)
  {
  }

  /** Neighbouring children are a selectable range. */
  method SelectRange(layout: PaneLayout, ids: seq<NodeId>, anchorAtFront: bool, ghost parent: NodeId, ghost first: nat)
    returns (s: PaneSelection)
    requires layout.Valid() && |ids| > 0 && StandsAt(layout.tree, parent, first, ids)
    ensures Follows(layout.tree, s) && s.nodes == ids
    ensures s.anchor == (if anchorAtFront then ids[0] else ids[|ids| - 1])
  {
    hide Plug, Bag, BagKids, Holds, HoldsCtx, Sound, PaneBag, Locate, Distinct, IsSlice;
    ghost var t := layout.tree;
    ChildPlace(layout.nodes, t, parent, first);
    ChildPlace(layout.nodes, t, parent, first + |ids| - 1);
    ghost var all := Ids(At(t, parent).tree.kids);
    assert all[first] == ids[0] && all[first + |ids| - 1] == ids[|ids| - 1];
    if |ids| == 1 {
      var one := Single(layout, ids[0]);
      return one.value;
    }
    var front, back := ids[0], ids[|ids| - 1];
    var range := RangeSelection(layout, if anchorAtFront then front else back, if anchorAtFront then back else front);
    s := range.value;
    RangeIds(t, s, parent, first, ids);
  }

  lemma {:induction false} RangeIds(t: Tree, s: PaneSelection, parent: NodeId, first: nat, ids: seq<NodeId>)
    requires IsSlice(t, s) && s.parent == Some(parent) && StandsAt(t, parent, first, ids)
    requires RangeOf(t, s).first == first && |s.nodes| == |ids|
    ensures s.nodes == ids
  {
    var r := RangeOf(t, s);
    forall i | 0 <= i < |ids| ensures s.nodes[i] == ids[i] {
      assert Ids(r.Sel())[i] == r.p.kids[first + i].tree.id;
      assert Ids(r.p.kids)[first..first + |ids|][i] == Ids(r.p.kids)[first + i];
    }
  }

  method ChildNodeIds(n: Nodes, split: NodeId) returns (ids: seq<NodeId>)
    requires split in n && !n[split].IsLeaf()
    ensures ids == ChildIds(n[split].contents.children)
  {
    ids := [];
    var children := n[split].contents.children;
    for i := 0 to |children|
      invariant ids == ChildIds(children)[..i]
    {
      ids := ids + [children[i].nodeId];
    }
  }

  /** Rotate a split and select its former children. */
  method RotateAndSelect(layout: PaneLayout, split: NodeId, ids: seq<NodeId>, anchorAtFront: bool)
    returns (s: PaneSelection)
    requires layout.Valid() && split in Bag(layout.tree) && At(layout.tree, split).tree.Split?
             && ids == Ids(At(layout.tree, split).tree.kids)
    modifies layout
    ensures layout.Valid() && layout.nextNodeValue == old(layout.nextNodeValue)
    ensures layout.tree == RotateAt(At(old(layout.tree), split).ctx, At(old(layout.tree), split).tree)
    ensures Leaves(layout.tree) == Leaves(old(layout.tree))
    ensures Follows(layout.tree, s) && s.nodes == ids && |ids| > 0
            && s.anchor == (if anchorAtFront then ids[0] else ids[|ids| - 1])
  {
    hide Plug, Bag, BagKids, Holds, HoldsCtx, PaneBag, Locate, Distinct, StandsAt;
    ghost var l := At(layout.tree, split);
    PlugSound(l.ctx, l.tree, 0);
    RotateProps(l.ctx, l.tree);
    var ok := layout.RotateSplit(split);
    ghost var parent, first := RotatedLevel(l.ctx, l.tree);
    s := SelectRange(layout, ids, anchorAtFront, parent, first);
  }

  /** What rotating a selection makes of the tree, of the next node id and of the selection. */
  ghost predicate Rotates(t: Tree, s: PaneSelection, next: nat, t': Tree, next': nat, rotated: PaneSelection)
    requires |s.nodes| > 0 && s.nodes[0] in Bag(t)
  {
    && t' == RotatedTree(t, s, next)
    && next' == next + (if Groups(t, s) then 1 else 0)
    && Follows(t', rotated)
    && rotated.nodes == RotatedNodes(t, s, next) && |rotated.nodes| > 0
    && rotated.anchor == KeptAnchor(s, Groups(t, s), rotated.nodes)
  }

  /** Rotate the selected level; running out of node ids is the only way to fail. */
  method RotatePaneSelectionLevel(layout: PaneLayout, s: PaneSelection)
    returns (r: Outcome<bool>, rotated: PaneSelection)
    requires layout.Valid() && Follows(layout.tree, s)
    modifies layout
    ensures layout.Valid() && Leaves(layout.tree) == Leaves(old(layout.tree))
    ensures |s.nodes| > 0 && s.nodes[0] in Bag(old(layout.tree))
    ensures r.Rejected? <==> Groups(old(layout.tree), s) && old(layout.nextNodeValue) == MAX_NODE_VALUE
    ensures r.Done? ==> r.value == (Groups(old(layout.tree), s) || RotatedSplit(old(layout.tree), s).Some?)
    ensures r != Done(true) ==>
              layout.tree == old(layout.tree) && layout.nextNodeValue == old(layout.nextNodeValue) && rotated == s
    ensures r == Done(true) ==>
              Rotates(old(layout.tree), s, old(layout.nextNodeValue), layout.tree, layout.nextNodeValue, rotated)
  {
    hide Plug, Bag, BagKids, Holds, HoldsCtx, Sound, PaneBag, Locate, Distinct, Rotates, Groups, RotatedSplit, Follows;
    var first := SelectionStart(layout, s);
    if |s.nodes| > 1 {
      r, rotated := RotateStretch(layout, s);
      return;
    }
    ghost var t := layout.tree;
    Open(layout.nodes, t, first);
    NeverGroups(t, s);
    if !layout.nodes[first].IsLeaf() {
      rotated := RotateSelectedSplit(layout, s);
      return Done(true), rotated;
    }
    if s.parent.None? {
      return Done(false), s;
    }
    rotated := RotateAround(layout, s, s.parent.value);
    return Done(true), rotated;
  }

  lemma {:induction false} NeverGroups(t: Tree, s: PaneSelection)
    requires |s.nodes| == 1 && s.nodes[0] in Bag(t)
    ensures !Groups(t, s)
    ensures RotatedSplit(t, s) == if At(t, s.nodes[0]).tree.Split? then Some(s.nodes[0]) else s.parent
  {
  }

  /** Several nodes: the whole level is rotated, a part of it grouped. */
  method RotateStretch(layout: PaneLayout, s: PaneSelection) returns (r: Outcome<bool>, rotated: PaneSelection)
    requires layout.Valid() && Follows(layout.tree, s) && |s.nodes| > 1 && s.nodes[0] in Bag(layout.tree)
    modifies layout
    ensures layout.Valid() && Leaves(layout.tree) == Leaves(old(layout.tree))
    ensures r.Rejected? <==> Groups(old(layout.tree), s) && old(layout.nextNodeValue) == MAX_NODE_VALUE
    ensures Groups(old(layout.tree), s) || RotatedSplit(old(layout.tree), s).Some?
    ensures r.Done? ==> r.value
    ensures r.Rejected? ==>
              layout.tree == old(layout.tree) && layout.nextNodeValue == old(layout.nextNodeValue) && rotated == s
    ensures r.Done? ==>
              Rotates(old(layout.tree), s, old(layout.nextNodeValue), layout.tree, layout.nextNodeValue, rotated)
  {
    hide Plug, Bag, BagKids, Holds, HoldsCtx, Sound, PaneBag, Locate, Distinct, RotateAt, Grouped, StandsAt, Rotates;
    hide Leaves;
    ghost var t, next := layout.tree, layout.nextNodeValue;
    WholeLevel(layout.nodes, t, s);
    if |s.nodes| == |layout.nodes[s.parent.value].contents.children| {
      var chosen := RotateAndSelect(layout, s.parent.value, s.nodes, s.anchor == s.nodes[0]);
      LevelRotates(t, s, next, layout.tree, chosen);
      return Done(true), chosen;
    }
    SliceGroups(layout.nodes, t, s);
    var group := layout.RotateSiblingRange(s.nodes);
    if group.Rejected? {
      return Rejected, s;
    }
    GroupInside(t, s, group.value);
    GroupedLeaves(t, s, group.value);
    var one := Single(layout, group.value);
    GroupRotates(t, s, next, layout.tree, one.value);
    return Done(true), one.value;
  }

  lemma {:induction false} LevelRotates(t: Tree, s: PaneSelection, next: nat, t': Tree, rotated: PaneSelection)
    requires |s.nodes| > 1 && s.nodes[0] in Bag(t) && !Groups(t, s)
    requires s.parent.Some? && s.parent.value in Bag(t) && At(t, s.parent.value).tree.Split?
    requires t' == RotateAt(At(t, s.parent.value).ctx, At(t, s.parent.value).tree) && Follows(t', rotated)
    requires rotated.nodes == s.nodes == Ids(At(t, s.parent.value).tree.kids)
    requires rotated.anchor == if s.anchor == s.nodes[0] then s.nodes[0] else s.nodes[|s.nodes| - 1]
    ensures Rotates(t, s, next, t', next, rotated)
  {
    hide Plug, Bag, Locate, RotateAt, Grouped, Follows, Groups;
  }

  lemma {:induction false} GroupRotates(t: Tree, s: PaneSelection, next: nat, t': Tree, rotated: PaneSelection)
    requires |s.nodes| > 1 && s.nodes[0] in Bag(t) && IsSlice(t, s) && Groups(t, s)
    requires var r := RangeOf(t, s); t' == Plug(r.c, Grouped(r.p, r.first, r.count, next))
    requires Follows(t', rotated) && rotated.nodes == [next] && rotated.anchor == next
    ensures Rotates(t, s, next, t', next + 1, rotated)
  {
    hide Plug, Bag, Locate, RotateAt, Grouped, Follows, Groups;
  }

  /** One split: its children are selected afterwards, unless it is the root. */
  method RotateSelectedSplit(layout: PaneLayout, s: PaneSelection) returns (rotated: PaneSelection)
    requires layout.Valid() && Follows(layout.tree, s) && |s.nodes| == 1 && s.nodes[0] in Bag(layout.tree)
    requires At(layout.tree, s.nodes[0]).tree.Split? && HoleParent(At(layout.tree, s.nodes[0]).ctx) == s.parent
    requires s.parent.None? ==> s.nodes[0] == layout.tree.id
    modifies layout
    ensures layout.Valid() && Leaves(layout.tree) == Leaves(old(layout.tree))
    ensures Rotates(old(layout.tree), s, old(layout.nextNodeValue), layout.tree, layout.nextNodeValue, rotated)
  {
    hide Plug, Bag, BagKids, Holds, HoldsCtx, Sound, PaneBag, Locate, Distinct, RotateAt, StandsAt, Rotates, Follows;
    hide Leaves;
    ghost var t, next := layout.tree, layout.nextNodeValue;
    var first := s.nodes[0];
    Open(layout.nodes, t, first);
    var parent := layout.nodes[first].parent;
    LinkFacts(At(t, first).tree.kids);
    var children := ChildNodeIds(layout.nodes, first);
    rotated := RotateAndSelect(layout, first, children, true);
    if parent.Some? {
      SplitRotates(t, s, next, layout.tree, rotated);
      return;
    }
    RotateRoot(At(t, first).ctx, At(t, first).tree);
    RootInBag(layout.tree);
    var one := Single(layout, first);
    rotated := one.value;
    SplitRotates(t, s, next, layout.tree, rotated);
  }

  lemma {:induction false} SplitRotates(t: Tree, s: PaneSelection, next: nat, t': Tree, rotated: PaneSelection)
    requires |s.nodes| == 1 && s.nodes[0] in Bag(t) && At(t, s.nodes[0]).tree.Split?
    requires t' == RotateAt(At(t, s.nodes[0]).ctx, At(t, s.nodes[0]).tree) && Follows(t', rotated)
    requires rotated.nodes == if s.parent.None? then s.nodes else Ids(At(t, s.nodes[0]).tree.kids)
    requires |rotated.nodes| > 0 && rotated.anchor == rotated.nodes[0]
    ensures Rotates(t, s, next, t', next, rotated)
  {
    hide Plug, Bag, Locate, RotateAt, Grouped, Follows;
  }

  /** One pane: the level it belongs to is rotated and selected. */
  method RotateAround(layout: PaneLayout, s: PaneSelection, parent: NodeId) returns (rotated: PaneSelection)
    requires layout.Valid() && Follows(layout.tree, s) && |s.nodes| == 1 && s.nodes[0] in Bag(layout.tree)
    requires At(layout.tree, s.nodes[0]).tree.Leaf? && s.parent == Some(parent)
    requires parent in Bag(layout.tree) && At(layout.tree, parent).tree.Split?
    modifies layout
    ensures layout.Valid() && Leaves(layout.tree) == Leaves(old(layout.tree))
    ensures Rotates(old(layout.tree), s, old(layout.nextNodeValue), layout.tree, layout.nextNodeValue, rotated)
  {
    hide Plug, Bag, BagKids, Holds, HoldsCtx, Sound, PaneBag, Locate, Distinct, RotateAt, Grouped, StandsAt;
    Open(layout.nodes, layout.tree, parent);
    LinkFacts(At(layout.tree, parent).tree.kids);
    var siblings := ChildNodeIds(layout.nodes, parent);
    rotated := RotateAndSelect(layout, parent, siblings, true);
  }

  /** What a selection says about the map. */
  method SelectionStart(layout: PaneLayout, s: PaneSelection) returns (first: NodeId)
    requires layout.Valid() && Follows(layout.tree, s)
    ensures |s.nodes| > 0 && first == s.nodes[0] && first in Bag(layout.tree)
    ensures HoleParent(At(layout.tree, first).ctx) == s.parent
    ensures s.parent.None? ==> first == layout.tree.id
    ensures s.parent.Some? ==> s.parent.value in Bag(layout.tree) && At(layout.tree, s.parent.value).tree.Split?
  {
    hide Plug, Bag, BagKids, Holds, HoldsCtx, Sound, PaneBag, Locate, Distinct;
    first := s.nodes[0];
    RootInBag(layout.tree);
    RootParent(layout.nodes, layout.tree);
    Open(layout.nodes, layout.tree, layout.tree.id);
    if s.parent.Some? {
      ghost var r := RangeOf(layout.tree, s);
      assert Ids(r.Sel())[0] == r.p.kids[r.first].tree.id;
      ChildPlace(layout.nodes, layout.tree, s.parent.value, r.first);
    }
  }

  lemma {:induction false} WholeLevel(n: Nodes, t: Tree, s: PaneSelection)
    requires Holds(n, t, None) && Distinct(Bag(t)) && Follows(t, s) && |s.nodes| > 1
    ensures s.parent.Some? && s.parent.value in Bag(t) && At(t, s.parent.value).tree.Split?
    ensures s.parent.value in n && !n[s.parent.value].IsLeaf()
    ensures |n[s.parent.value].contents.children| == |At(t, s.parent.value).tree.kids| >= |s.nodes|
    ensures Groups(t, s) <==> |s.nodes| < |At(t, s.parent.value).tree.kids|
    ensures |s.nodes| == |At(t, s.parent.value).tree.kids| ==> s.nodes == Ids(At(t, s.parent.value).tree.kids)
  {
    hide Plug, Bag, BagKids, Holds, HoldsCtx, Locate, Distinct;
    Open(n, t, s.parent.value);
    var r := RangeOf(t, s);
    if |s.nodes| == |r.p.kids| {
      assert r.Sel() == r.p.kids;
    }
  }

  /** A proper part of a level is what grouping asks for. */
  lemma {:induction false} SliceGroups(n: Nodes, t: Tree, s: PaneSelection)
    requires Holds(n, t, None) && Distinct(Bag(t)) && IsSlice(t, s) && Groups(t, s)
    ensures s.nodes[0] in Bag(t)
    ensures var l, r := At(t, s.nodes[0]), RangeOf(t, s);
            && ProperRange(l, s.nodes) && l.ctx.In? && |l.ctx.left| == r.first
            && l.ctx.up == r.c && Fill(l.ctx, l.tree) == r.p
  {
    hide Plug, Bag, BagKids, Holds, HoldsCtx, Locate, Distinct;
    var r := RangeOf(t, s);
    assert Ids(r.Sel())[0] == r.p.kids[r.first].tree.id;
    ChildPlace(n, t, s.parent.value, r.first);
    Level(n, t, s.nodes[0]);
    forall i | 0 <= i < r.count ensures Ids(r.p.kids)[r.first + i] == s.nodes[i] {
      assert Ids(r.Sel())[i] == r.Sel()[i].tree.id;
    }
    assert Ids(r.p.kids)[r.first..r.first + r.count] == s.nodes;
  }

  lemma {:induction false} GroupedLeaves(t: Tree, s: PaneSelection, groupId: NodeId)
    requires IsSlice(t, s) && Groups(t, s) && |s.nodes| >= 2 && Sound(t, 0)
    ensures var r := RangeOf(t, s); Leaves(Plug(r.c, Grouped(r.p, r.first, r.count, groupId))) == Leaves(t)
  {
    hide Plug, Locate, Bag, Leaves;
    var r := RangeOf(t, s);
    PlugSound(r.c, r.p, 0);
    GroupedProps(r.p, r.first, r.count, groupId);
    PlugLeaves(r.c, r.p);
    PlugLeaves(r.c, Grouped(r.p, r.first, r.count, groupId));
  }

  lemma {:induction false} GroupInside(t: Tree, s: PaneSelection, groupId: NodeId)
    requires IsSlice(t, s)
    ensures var r := RangeOf(t, s); groupId in Bag(Plug(r.c, Grouped(r.p, r.first, r.count, groupId)))
  {
    hide Plug, Locate;
    var r := RangeOf(t, s);
    var g := Grouped(r.p, r.first, r.count, groupId);
    PlugBag(r.c, g);
    var k := Group(r.p, r.Sel(), groupId);
    assert g.kids[r.first] == k;
    KidBag(g.kids, k);
    assert k.tree.id in Bag(k.tree);
  }
}
