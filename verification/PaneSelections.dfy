/** Selections: one node, or a range of neighbours below one split. */
module PaneSelections {
  import opened Wrappers
  import opened PaneTree
  import opened PaneNodes
  import opened LayoutMaps
  import opened PaneLayouts
  import opened MoveTrees

  datatype PaneSelection = PaneSelection(parent: Option<NodeId>, anchor: NodeId, active: NodeId, nodes: seq<NodeId>)

  datatype SiblingDirection = Previous | Next

  /** Where a selection stands in a tree. */
  ghost function RangeOf(t: Tree, selection: PaneSelection): Range
    requires selection.parent.Some? && selection.parent.value in Bag(t) && |selection.nodes| > 0
  {
    var l := At(t, selection.parent.value);
    Range(l.ctx, l.tree, if l.tree.Leaf? then 0 else IndexOf(Links(l.tree.kids), selection.nodes[0]), |selection.nodes|)
  }

  /** The selection names neighbouring children of its parent. */
  ghost predicate IsSlice(t: Tree, selection: PaneSelection) {
    && selection.parent.Some? && selection.parent.value in Bag(t) && |selection.nodes| > 0
    && var r := RangeOf(t, selection);
    && r.p.Split? && r.first + r.count <= |r.p.kids|
    && Ids(r.Sel()) == selection.nodes
  }

  /** A selection that belongs to a tree: the root alone, or a slice of siblings with anchor and
      active at its two ends. */
  ghost predicate Follows(t: Tree, s: PaneSelection) {
    if s.parent.None? then s.nodes == [t.id] && s.anchor == t.id && s.active == t.id
    else IsSlice(t, s) && AtEnds(s)
  }

  predicate AtEnds(s: PaneSelection) {
    && |s.nodes| > 0
    && var first, last := s.nodes[0], s.nodes[|s.nodes| - 1];
    && ((s.anchor == first && s.active == last) || (s.anchor == last && s.active == first))
  }

  lemma {:induction false} SliceIds(r: Range)
    requires r.p.Split?
    ensures ChildIds(Links(r.p.kids)) == Ids(r.p.kids)
    ensures r.first + r.count <= |r.p.kids| ==> ChildIds(Links(r.p.kids))[r.first..r.first + r.count] == Ids(r.Sel())
  {
    LinkFacts(r.p.kids);
  }

  /** Where a node stands among its siblings. */
  ghost function Standing(t: Tree, id: NodeId): nat
    requires id in Bag(t)
  {
    if At(t, id).ctx.Top? then 0 else |At(t, id).ctx.left|
  }

  /** The level a node belongs to, found from the node and from its parent. */
  lemma {:induction false} Level(n: Nodes, t: Tree, id: NodeId)
    requires Holds(n, t, None) && Distinct(Bag(t)) && id in Bag(t)
    ensures At(t, id).ctx.Top? ==> id == t.id
    ensures var l := At(t, id);
            l.ctx.In? ==>
              && l.ctx.id in Bag(t) && At(t, l.ctx.id) == Loc(l.ctx.up, Fill(l.ctx, l.tree))
              && Fill(l.ctx, l.tree).kids[|l.ctx.left|].tree.id == id
              && Distinct(BagKids(Fill(l.ctx, l.tree).kids))
  {
    hide BagKids, Locate, Distinct;
    var l := At(t, id);
    if l.ctx.In? {
      AtPlug(l.ctx.up, Fill(l.ctx, l.tree));
      PlugBag(l.ctx.up, Fill(l.ctx, l.tree));
      DistinctUnion(CtxBag(l.ctx.up), Bag(Fill(l.ctx, l.tree)));
      SplitNode(l.ctx.id, l.ctx.axis, Fill(l.ctx, l.tree).kids);
      DistinctUnion(multiset{l.ctx.id}, BagKids(Fill(l.ctx, l.tree).kids));
    }
  }

  /** Any stretch of children makes a selection. */
  lemma {:induction false} SliceAt(t: Tree, parent: NodeId, first: nat, s: PaneSelection)
    requires parent in Bag(t) && At(t, parent).tree.Split? && Distinct(BagKids(At(t, parent).tree.kids))
    requires |s.nodes| > 0 && s.parent == Some(parent) && first + |s.nodes| <= |At(t, parent).tree.kids|
    requires s.nodes == Ids(At(t, parent).tree.kids)[first..first + |s.nodes|]
    ensures IsSlice(t, s) && RangeOf(t, s).first == first
  {
    var ks := At(t, parent).tree.kids;
    assert Links(ks)[first].nodeId == s.nodes[0];
    var i := IndexOf(Links(ks), s.nodes[0]);
    assert Links(ks)[i].nodeId == ks[i].tree.id;
    DistinctIds(ks, i, first);
    var sel := ks[first..first + |s.nodes|];
    assert forall j :: 0 <= j < |sel| ==> Ids(sel)[j] == Ids(ks)[first + j];
  }

  /** A child of a level stands where the level has it. */
  lemma {:induction false} ChildPlace(n: Nodes, t: Tree, parent: NodeId, i: nat)
    requires Holds(n, t, None) && Distinct(Bag(t)) && parent in Bag(t) && At(t, parent).tree.Split?
             && i < |At(t, parent).tree.kids|
    ensures var l := At(t, parent);
            var c := In(l.ctx, l.tree.id, l.tree.axis, l.tree.kids[..i], l.tree.kids[i].share, l.tree.kids[i + 1..]);
            && l.tree.kids[i].tree.id in Bag(t)
            && At(t, l.tree.kids[i].tree.id) == Loc(c, l.tree.kids[i].tree)
            && Standing(t, l.tree.kids[i].tree.id) == i
            && l.tree.kids[i].tree.id in n && n[l.tree.kids[i].tree.id].parent == Some(parent)
  {
    hide Locate, Distinct, Holds, Bag;
    var l := At(t, parent);
    var k := l.tree.kids[i];
    var c := In(l.ctx, l.tree.id, l.tree.axis, l.tree.kids[..i], k.share, l.tree.kids[i + 1..]);
    assert l.tree.kids == l.tree.kids[..i] + [Kid(k.tree, k.share)] + l.tree.kids[i + 1..];
    assert Fill(c, k.tree) == l.tree;
    assert Plug(c, k.tree) == t;
    AtPlug(c, k.tree);
    OpenAt(n, c, k.tree);
  }

  // ----- making and changing selections

  method Single(layout: PaneLayout, nodeId: NodeId) returns (r: Outcome<PaneSelection>)
    requires layout.Valid()
    ensures r.Rejected? <==> nodeId !in Bag(layout.tree)
    ensures r.Done? ==>
              Follows(layout.tree, r.value) && r.value.nodes == [nodeId] && r.value.anchor == nodeId == r.value.active
    ensures r.Done? ==> r.value.parent == HoleParent(At(layout.tree, nodeId).ctx)
  {
    hide Plug, Bag, BagKids, Holds, HoldsCtx, Sound, PaneBag, Locate, Distinct, IsSlice;
    if nodeId !in layout.nodes {
      return Rejected;
    }
    ghost var t, l := layout.tree, At(layout.tree, nodeId);
    Open(layout.nodes, t, nodeId);
    Level(layout.nodes, t, nodeId);
    var s := PaneSelection(layout.nodes[nodeId].parent, nodeId, nodeId, [nodeId]);
    if l.ctx.In? {
      assert Ids(Fill(l.ctx, l.tree).kids)[|l.ctx.left|..|l.ctx.left| + 1] == [nodeId];
      SliceAt(t, l.ctx.id, |l.ctx.left|, s);
    }
    return Done(s);
  }

  method RangeSelection(layout: PaneLayout, anchor: NodeId, active: NodeId) returns (r: Outcome<PaneSelection>)
    requires layout.Valid()
    ensures r.Done? <==>
              && anchor in Bag(layout.tree) && active in Bag(layout.tree)
              && HoleParent(At(layout.tree, anchor).ctx) == HoleParent(At(layout.tree, active).ctx)
    ensures r.Done? ==>
              && Follows(layout.tree, r.value) && r.value.anchor == anchor && r.value.active == active
              && r.value.parent == HoleParent(At(layout.tree, anchor).ctx)
              && (r.value.parent.Some? ==>
                    var a, b := Standing(layout.tree, anchor), Standing(layout.tree, active);
                    && |r.value.nodes| == (if a <= b then b - a else a - b) + 1
                    && RangeOf(layout.tree, r.value).first == if a <= b then a else b)
  {
    hide Plug, Bag, BagKids, Holds, HoldsCtx, Sound, PaneBag, Locate, Distinct, IsSlice, RangeOf;
    if anchor !in layout.nodes || active !in layout.nodes {
      return Rejected;
    }
    ghost var t := layout.tree;
    Open(layout.nodes, t, anchor);
    Open(layout.nodes, t, active);
    var parent := layout.nodes[anchor].parent;
    if layout.nodes[active].parent != parent {
      return Rejected;
    }
    Level(layout.nodes, t, anchor);
    Level(layout.nodes, t, active);
    if parent.None? {
      r := Single(layout, anchor);
      return;
    }
    var s := SiblingRange(layout.nodes, parent.value, anchor, active, t);
    return Done(s);
  }

  method IdsBetween(siblings: seq<Child>, first: nat, last: nat) returns (ids: seq<NodeId>)
    requires first <= last < |siblings|
    ensures ids == ChildIds(siblings)[first..last + 1]
  {
    ids := [];
    for index := first to last + 1
      invariant ids == ChildIds(siblings)[first..index]
    {
      ids := ids + [siblings[index].nodeId];
    }
  }

  /** The siblings from one child of a split to another. */
  method SiblingRange(n: Nodes, parent: NodeId, anchor: NodeId, active: NodeId, ghost t: Tree)
    returns (s: PaneSelection)
    requires Holds(n, t, None) && Distinct(Bag(t)) && anchor in Bag(t) && active in Bag(t)
    requires At(t, anchor).ctx.In? && At(t, anchor).ctx.id == parent && At(t, active).ctx.In?
             && At(t, active).ctx.id == parent
    ensures s.parent == Some(parent) && s.anchor == anchor && s.active == active && Follows(t, s)
    ensures var a, b := Standing(t, anchor), Standing(t, active);
            && |s.nodes| == (if a <= b then b - a else a - b) + 1
            && RangeOf(t, s).first == if a <= b then a else b
  {
    hide Plug, Bag, BagKids, Holds, HoldsCtx, Locate, Distinct, IsSlice, RangeOf, Standing;
    LevelLinks(n, t, anchor);
    LevelLinks(n, t, active);
    Level(n, t, anchor);
    ghost var u := At(t, parent).tree;
    var siblings := n[parent].contents.children;
    var anchorIndex := PaneLayout.ChildIndex(siblings, anchor);
    var activeIndex := PaneLayout.ChildIndex(siblings, active);
    var first := if anchorIndex <= activeIndex then anchorIndex else activeIndex;
    var last := if anchorIndex <= activeIndex then activeIndex else anchorIndex;
    var selected := IdsBetween(siblings, first, last);
    LinkFacts(u.kids);
    assert selected[0] == Ids(u.kids)[first] && selected[last - first] == Ids(u.kids)[last];
    s := PaneSelection(Some(parent), anchor, active, selected);
    assert AtEnds(s);
    SliceAt(t, parent, first, s);
  }

  /** What the map says about the level around a node. */
  lemma {:induction false} LevelLinks(n: Nodes, t: Tree, id: NodeId)
    requires Holds(n, t, None) && Distinct(Bag(t)) && id in Bag(t) && At(t, id).ctx.In?
    ensures var c := At(t, id).ctx;
            && c.id in Bag(t) && At(t, c.id).tree.Split? && c.id in n && !n[c.id].IsLeaf()
            && n[c.id].contents.children == Links(At(t, c.id).tree.kids)
            && IndexOf(n[c.id].contents.children, id) == Standing(t, id) < |At(t, c.id).tree.kids|
            && Ids(At(t, c.id).tree.kids)[Standing(t, id)] == id
            && id in n && n[id].parent == Some(c.id)
  {
    hide Plug, Bag, BagKids, Holds, HoldsCtx, Locate, Distinct;
    Open(n, t, id);
    Level(n, t, id);
    FillShape(At(t, id).ctx, At(t, id).tree);
  }

  /** The active end of a selection is one of the parent's children. */
  lemma {:induction false} ActiveLevel(n: Nodes, t: Tree, s: PaneSelection)
    requires Holds(n, t, None) && Distinct(Bag(t)) && Follows(t, s) && s.parent.Some?
    ensures s.active in Bag(t) && At(t, s.active).ctx.In? && At(t, s.active).ctx.id == s.parent.value
    ensures s.anchor in Bag(t) && At(t, s.anchor).ctx.In? && At(t, s.anchor).ctx.id == s.parent.value
  {
    hide Plug, Bag, BagKids, Holds, HoldsCtx, Locate, Distinct;
    var r := RangeOf(t, s);
    var last := r.first + r.count - 1;
    assert Ids(r.Sel())[0] == r.p.kids[r.first].tree.id && Ids(r.Sel())[r.count - 1] == r.p.kids[last].tree.id;
    ChildPlace(n, t, s.parent.value, r.first);
    ChildPlace(n, t, s.parent.value, last);
  }

  /** Move the active end by one sibling; at either end of the level nothing changes. */
  method Step(layout: PaneLayout, s: PaneSelection, direction: SiblingDirection) returns (r: PaneSelection)
    requires layout.Valid() && Follows(layout.tree, s)
    ensures Follows(layout.tree, r) && r.anchor == s.anchor && r.parent == s.parent
    ensures s.active in Bag(layout.tree) && r.active in Bag(layout.tree)
    ensures var at, to := Standing(layout.tree, s.active), Standing(layout.tree, r.active);
            if s.parent.None? || (if direction.Previous? then at == 0
                                  else at + 1 == |At(layout.tree, s.parent.value).tree.kids|) then r == s
            else to == if direction.Previous? then at - 1 else at + 1
  {
    hide Plug, Bag, BagKids, Holds, HoldsCtx, Sound, PaneBag, Locate, Distinct, IsSlice, RangeOf;
    RootInBag(layout.tree);
    if s.parent.None? {
      return s;
    }
    ghost var t := layout.tree;
    ActiveLevel(layout.nodes, t, s);
    LevelLinks(layout.nodes, t, s.active);
    LevelLinks(layout.nodes, t, s.anchor);
    var siblings := layout.nodes[s.parent.value].contents.children;
    var activeIndex := PaneLayout.ChildIndex(siblings, s.active);
    if direction.Previous? {
      if activeIndex == 0 {
        return s;
      }
      ChildPlace(layout.nodes, t, s.parent.value, activeIndex - 1);
      var p := RangeSelection(layout, s.anchor, siblings[activeIndex - 1].nodeId);
      return p.value;
    }
    if activeIndex + 1 >= |siblings| {
      return s;
    }
    ChildPlace(layout.nodes, t, s.parent.value, activeIndex + 1);
    var q := RangeSelection(layout, s.anchor, siblings[activeIndex + 1].nodeId);
    return q.value;
  }

  /** Select the parent as one node; the root level stays as it is. */
  method Promote(layout: PaneLayout, s: PaneSelection) returns (r: PaneSelection)
    requires layout.Valid() && Follows(layout.tree, s)
    ensures Follows(layout.tree, r)
    ensures if s.parent.None? then r == s else r.nodes == [s.parent.value]
  {
    hide Plug, Bag, BagKids, Holds, HoldsCtx, Sound, PaneBag, Locate, Distinct, IsSlice, RangeOf;
    ghost var t := layout.tree;
    RootInBag(t);
    RootParent(layout.nodes, t);
    if s.parent.Some? {
      ActiveLevel(layout.nodes, t, s);
      LevelLinks(layout.nodes, t, s.active);
    }
    var parent := layout.nodes[s.active].parent;
    if parent.None? {
      return s;
    }
    var p := Single(layout, parent.value);
    return p.value;
  }

  /** Select the first child of a single selected split. */
  method Descend(layout: PaneLayout, s: PaneSelection) returns (r: PaneSelection)
    requires layout.Valid() && Follows(layout.tree, s)
    ensures Follows(layout.tree, r)
    ensures |s.nodes| > 0 && s.nodes[0] in Bag(layout.tree)
    ensures var u := At(layout.tree, s.nodes[0]).tree;
            if |s.nodes| == 1 && u.Split? then |u.kids| >= 2 && r.nodes == [u.kids[0].tree.id] else r == s
  {
    hide Plug, Bag, BagKids, Holds, HoldsCtx, PaneBag, Locate, Distinct, IsSlice, RangeOf;
    ghost var t := layout.tree;
    RootInBag(t);
    if s.parent.Some? {
      ActiveLevel(layout.nodes, t, s);
    }
    var first := s.nodes[0];
    ghost var l := At(t, first);
    Open(layout.nodes, t, first);
    PlugSound(l.ctx, l.tree, 0);
    if |s.nodes| != 1 || layout.nodes[first].IsLeaf() {
      return s;
    }
    ChildPlace(layout.nodes, t, first, 0);
    assert layout.nodes[first].contents.children[0] == Links(l.tree.kids)[0];
    var p := Single(layout, layout.nodes[first].contents.children[0].nodeId);
    return p.value;
  }
}
