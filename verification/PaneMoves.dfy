/** Moving a selected range of siblings next to a target. */
module PaneMoves {
  import opened Wrappers
  import opened Percentages
  import opened PaneTree
  import opened PaneNodes
  import opened PaneEdits
  import opened LayoutMaps
  import opened PaneLayouts
  import opened PaneSelections
  import opened MoveTrees
  import opened MoveMaps

  datatype DropDirection = DropLeft | DropRight | DropUp | DropDown

  function PlacementAxis(direction: DropDirection): Axis {
    if direction.DropLeft? || direction.DropRight? then LeftToRight else TopToBottom
  }

  function PlacementInsertion(direction: DropDirection): Insertion {
    if direction.DropLeft? || direction.DropUp? then Before else After
  }

  /** What a move demands of its selection and target. */
  ghost predicate Validated(t: Tree, selection: PaneSelection, target: NodeId) {
    && IsSlice(t, selection)
    && Apart(t, RangeOf(t, selection).Sel(), target)
    && !(RangeOf(t, selection).Whole() && selection.parent.value == t.id)
  }

  /** Walk up the parent links from a node, looking for a possible ancestor. */
  method IsAncestor(n: Nodes, ancestor: NodeId, descendant: NodeId, ghost t: Tree) returns (found: bool)
    requires Holds(n, t, None) && Distinct(Bag(t)) && descendant in Bag(t)
    ensures found <==> ancestor in PathIds(At(t, descendant).ctx)
  {
    ghost var c, s := At(t, descendant).ctx, At(t, descendant).tree;
    Open(n, t, descendant);
    var parent := n[descendant].parent;
    while parent.Some?
      invariant HoldsCtx(n, c, s.id) && parent == HoleParent(c)
      invariant ancestor in PathIds(At(t, descendant).ctx) <==> ancestor in PathIds(c)
      decreases c
    {
      if parent.value == ancestor {
        return true;
      }
      s := Fill(c, s);
      c := c.up;
      parent := n[parent.value].parent;
    }
    return false;
  }

  lemma {:induction false} SelectedAt(t: Tree, r: Range, k: Kid)
    requires t == Plug(r.c, r.p) && r.p.Split? && k in r.p.kids && Distinct(Bag(t))
    ensures k.tree.id in Bag(t) && At(t, k.tree.id).tree == k.tree
  {
    WithinPlug(k.tree, r.c, r.p);
    WithinAt(k.tree, t);
  }

  /** The three tests made on each selected node amount to the subtrees not overlapping. */
  lemma {:induction false} OverlapTests(t: Tree, r: Range, k: Kid, target: NodeId)
    requires t == Plug(r.c, r.p) && r.p.Split? && k in r.p.kids && Distinct(Bag(t)) && target in Bag(t)
    ensures k.tree.id in Bag(t)
    ensures k.tree.id == target || k.tree.id in PathIds(At(t, target).ctx) || target in PathIds(At(t, k.tree.id).ctx)
       <==> target in Bag(k.tree) || k.tree.id in Bag(At(t, target).tree)
  {
    SelectedAt(t, r, k);
    PathIsAncestors(t, target, k.tree.id);
    PathIsAncestors(t, k.tree.id, target);
    var x := At(t, target).tree;
    assert k.tree.id in Bag(k.tree) && x.id in Bag(x);
  }

  /** Whether the selected nodes are neighbouring children of the selection's parent. */
  method CheckSlice(layout: PaneLayout, selection: PaneSelection) returns (ok: bool)
    requires layout.Valid()
    ensures ok <==> IsSlice(layout.tree, selection)
  {
    hide Plug, Bag, Holds, HoldsCtx, Sound, PaneBag, Locate, Distinct;
    var n := layout.nodes;
    if selection.parent.None? || selection.parent.value !in n || |selection.nodes| == 0 {
      return false;
    }
    Open(n, layout.tree, selection.parent.value);
    if n[selection.parent.value].IsLeaf() {
      return false;
    }
    ghost var r := RangeOf(layout.tree, selection);
    var children := n[selection.parent.value].contents.children;
    var first := PaneLayout.ChildIndex(children, selection.nodes[0]);
    ok := PaneLayout.IsRange(children, first, selection.nodes);
    SliceIds(r);
  }

  /** Whether no selected node is, contains or is contained in the target. */
  method CheckApart(n: Nodes, ids: seq<NodeId>, target: NodeId, ghost t: Tree, ghost r: Range) returns (ok: bool)
    requires Holds(n, t, None) && Distinct(Bag(t)) && target in Bag(t)
    requires t == Plug(r.c, r.p) && r.Ok() && ids == Ids(r.Sel())
    ensures ok <==> Apart(t, r.Sel(), target)
  {
    hide Plug, Bag, Holds, HoldsCtx, Locate, Distinct, PathIds;
    var i := 0;
    while i < |ids|
      invariant 0 <= i <= |ids|
      invariant forall j ::
                  0 <= j < i ==> target !in Bag(r.Sel()[j].tree) && r.Sel()[j].tree.id !in Bag(At(t, target).tree)
    {
      ghost var k := r.Sel()[i];
      assert k in r.Sel() && k == r.p.kids[r.first + i];
      OverlapTests(t, r, k, target);
      var above := IsAncestor(n, ids[i], target, t);
      var below := IsAncestor(n, target, ids[i], t);
      if ids[i] == target || above || below {
        return false;
      }
      i := i + 1;
    }
    return true;
  }

  /** All the checks a move makes before it touches anything. */
  method Validate(layout: PaneLayout, selection: PaneSelection, target: NodeId) returns (ok: bool)
    requires layout.Valid()
    ensures ok <==> Validated(layout.tree, selection, target)
  {
    hide Plug, Bag, Holds, HoldsCtx, Sound, PaneBag, Locate, Distinct;
    var slice := CheckSlice(layout, selection);
    if !slice || target !in layout.nodes {
      return false;
    }
    var parent := selection.parent.value;
    ghost var r := RangeOf(layout.tree, selection);
    Open(layout.nodes, layout.tree, parent);
    if |selection.nodes| == |layout.nodes[parent].contents.children| && parent == layout.root {
      return false;
    }
    SameRoot(r.c, r.p);
    ok := CheckApart(layout.nodes, selection.nodes, target, layout.tree, r);
  }

  /** The children of a level, divided into the selected ones and the others. */
  method Partition(children: seq<Child>, ids: seq<NodeId>) returns (inside: seq<Child>, outside: seq<Child>)
    ensures inside == Inside(children, ids) && outside == Outside(children, ids)
  {
    inside, outside := [], [];
    for i := 0 to |children|
      invariant inside == Inside(children[..i], ids) && outside == Outside(children[..i], ids)
    {
      assert children[..i + 1] == children[..i] + [children[i]];
      PartitionAppend(children[..i], [children[i]], ids);
      if children[i].nodeId in ids {
        inside := inside + [children[i]];
      } else {
        outside := outside + [children[i]];
      }
    }
    assert children[..|children|] == children;
  }

  // ----- taking the source out

  datatype Extracted = Extracted(nodes: Nodes, source: NodeId, cleanup: NodeId, next: nat)

  /** Detach the selected range; several nodes that are not a whole level are first grouped. */
  method Extract(n: Nodes, parent: NodeId, selected: seq<NodeId>, next: nat, ghost r: Range)
    returns (e: Outcome<Extracted>)
    requires RangeSound(r) && Opened(n, Plug(r.c, r.p), r.c, r.p) && r.p.id == parent && selected == Ids(r.Sel())
    requires Distinct(Bag(Plug(r.c, r.p))) && (forall x :: x in n <==> x in Bag(Plug(r.c, r.p)))
    requires (forall x :: x in n ==> x < next) && 0 < next <= MAX_NODE_VALUE
    ensures e.Rejected? <==> NeedsGroup(r) && next == MAX_NODE_VALUE
    ensures e.Done? ==>
              && HoldsTwo(e.value.nodes, Remainder(r), Source(r, next))
              && e.value.source == Source(r, next).id
              && e.value.cleanup == CleanupId(r)
              && e.value.next == WrapperId(r, next)
  {
    hide Plug, Bag, BagKids, CtxBag, Holds, HoldsCtx, Sound, Distinct, Remainder, Distribute;
    ExtractTwo(n, r, next);
    var children := n[parent].contents.children;
    if |selected| == |children| {
      var grandparent := n[parent].parent.value;
      var m := DetachChild(n, grandparent, parent, r);
      m := m[parent := m[parent].(parent := None)];
      ExtractWholeHolds(n, r, m);
      return Done(Extracted(m, parent, grandparent, next));
    }
    var inside, outside := Partition(children, selected);
    RangeParts(n, r);
    RangeWeights(r);
    RangePresent(n, r);
    var remaining := PaneLayout.Redistributed(outside, MAX_PERCENTAGE);
    var m := n[parent := n[parent].(contents := SplitContents(n[parent].contents.axis, remaining))];
    if |inside| == 1 {
      var source := inside[0].nodeId;
      m := m[source := m[source].(parent := None)];
      ExtractOneHolds(n, r, m);
      return Done(Extracted(m, source, parent, next));
    }
    if next == MAX_NODE_VALUE {
      return Rejected;
    }
    var group := PaneLayout.Redistributed(inside, MAX_PERCENTAGE);
    m := PaneLayout.WithParents(m, group, next);
    m := m[next := Node(next, None, SplitContents(n[parent].contents.axis, group))];
    ExtractGroupHolds(n, r, next, m);
    return Done(Extracted(m, next, parent, next + 1));
  }

  /** Erase a child from the level above and scale what is left to a full hundred. */
  method DetachChild(n: Nodes, parent: NodeId, child: NodeId, ghost r: Range) returns (m: Nodes)
    requires RangeSound(r) && r.Whole() && Opened(n, Plug(r.c, r.p), r.c, r.p) && r.p.id == child && r.c.id == parent
    ensures m == n[parent := n[parent].(contents := SplitContents(r.c.axis, Links(ClosedUp(r.c).kids)))]
  {
    hide Plug, Bag, BagKids, CtxBag, Holds, HoldsCtx, Sound, Distinct, Distribute;
    var children := n[parent].contents.children;
    var index := PaneLayout.ChildIndex(children, child);
    children := children[..index] + children[index + 1..];
    PlugSound(r.c, r.p, 0);
    CtxIdPositive(r.c, r.p);
    RestWeights(r.c, r.p, children);
    children := PaneLayout.Redistributed(children, MAX_PERCENTAGE);
    m := n[parent := n[parent].(contents := SplitContents(n[parent].contents.axis, children))];
  }

  /** Extraction keeps the nodes of remainder and source apart, whatever map holds them. */
  lemma {:induction false} ExtractTwo(n: Nodes, r: Range, next: nat)
    requires RangeSound(r) && Distinct(Bag(Plug(r.c, r.p)))
    requires (forall x :: x in n <==> x in Bag(Plug(r.c, r.p))) && forall x :: x in n ==> x < next
    ensures Distinct(Bag(Remainder(r)) + Bag(Source(r, next)))
    ensures forall x :: x in Bag(Remainder(r)) || x in Bag(Source(r, next)) <==> x in n || (NeedsGroup(r) && x == next)
    ensures !NeedsGroup(r) ==> Source(r, next) == Source(r, 0)
  {
    hide Plug, Bag, Sound, Remainder, Distinct;
    ExtractIds(r, next);
    var t, a, b := Bag(Plug(r.c, r.p)), Bag(Remainder(r)), Bag(Source(r, next));
    var group := if NeedsGroup(r) then multiset{next} else multiset{};
    OneDistinct(next);
    NoneDistinct();
    DistinctUnion(t, group);
    forall x ensures x in a || x in b <==> x in n || (NeedsGroup(r) && x == next) {
      assert (a + b)[x] == a[x] + b[x] && (t + group)[x] == t[x] + group[x];
    }
  }

  /** The links of a level, divided into selected and other children. */
  lemma {:induction false} RangeParts(n: Nodes, r: Range)
    requires r.Ok() && Opened(n, Plug(r.c, r.p), r.c, r.p)
    ensures Inside(Links(r.p.kids), Ids(r.Sel())) == Links(r.Sel())
            && Outside(Links(r.p.kids), Ids(r.Sel())) == Links(r.Others())
  {
    hide Plug, Bag, BagKids, CtxBag, Holds, HoldsCtx, HoldsKids, Distinct, Inside, Outside;
    LevelParts(n, r);
    PartitionRange(r.p.kids, r.first, r.count, Ids(r.Sel()));
  }

  /** Both parts can be scaled to a full hundred. */
  lemma {:induction false} RangeWeights(r: Range)
    requires RangeSound(r) && !r.Whole()
    ensures Weights(ChildShares(Links(r.Sel()))) && Weights(ChildShares(Links(r.Others())))
    ensures Repriced(Links(r.Sel()), Distribute(ChildShares(Links(r.Sel())), MAX_PERCENTAGE))
              == Links(Scaled(r.Sel(), MAX_PERCENTAGE))
    ensures Repriced(Links(r.Others()), Distribute(ChildShares(Links(r.Others())), MAX_PERCENTAGE))
              == Links(Scaled(r.Others(), MAX_PERCENTAGE))
  {
    hide Plug, Bag, BagKids, CtxBag, Sound, Distribute, Scaled;
    PlugSound(r.c, r.p, 0);
    PartKids(r);
    LinkFacts(r.Sel());
    LinkFacts(r.Others());
    RepricedLinks(r.Sel(), MAX_PERCENTAGE);
    RepricedLinks(r.Others(), MAX_PERCENTAGE);
  }

  /** The selected children are entries of the map other than their parent. */
  lemma {:induction false} RangePresent(n: Nodes, r: Range)
    requires RangeSound(r) && !r.Whole() && Opened(n, Plug(r.c, r.p), r.c, r.p)
    ensures ChildIds(Links(Scaled(r.Sel(), MAX_PERCENTAGE))) == Ids(r.Sel())
    ensures forall l | l in Links(Scaled(r.Sel(), MAX_PERCENTAGE)) :: l.nodeId in n && l.nodeId != r.p.id
    ensures r.count == 1 ==>
              Links(r.Sel()) == [Child(r.Sel()[0].tree.id, r.Sel()[0].share)] && r.Sel()[0].tree.id in n
              && r.Sel()[0].tree.id != r.p.id
  {
    hide Plug, Bag, BagKids, CtxBag, Holds, HoldsCtx, HoldsKids, Sound, Distinct, Scaled;
    LevelParts(n, r);
    SelPresent(n, r.Sel(), r.p.id);
    if r.count == 1 {
      assert r.Sel()[0] in r.Sel();
    }
  }

  lemma {:induction false} SelPresent(n: Nodes, sel: seq<Kid>, parent: NodeId)
    requires HoldsKids(n, sel, parent) && parent !in BagKids(sel)
    ensures ChildIds(Links(Scaled(sel, MAX_PERCENTAGE))) == Ids(sel)
    ensures forall l | l in Links(Scaled(sel, MAX_PERCENTAGE)) :: l.nodeId in n && l.nodeId != parent
    ensures forall k | k in sel :: k.tree.id in n && k.tree.id != parent
  {
    var links := Links(Scaled(sel, MAX_PERCENTAGE));
    IdsInBag(sel);
    forall i | 0 <= i < |sel| ensures links[i].nodeId == Ids(sel)[i] && Ids(sel)[i] in n && Ids(sel)[i] != parent {
      assert sel[i] in sel && Ids(sel)[i] in Ids(sel);
    }
    forall k | k in sel ensures k.tree.id in n && k.tree.id != parent {
      var i :| 0 <= i < |sel| && sel[i] == k;
      assert Ids(sel)[i] == k.tree.id;
    }
  }

  // ----- putting it back

  /** The links that stand for the source at its new place; a source of the same axis is taken apart. */
  method FlattenSource(n: Nodes, source: NodeId, axis: Axis, share: int, ghost s: Tree)
    returns (m: Nodes, children: seq<Child>)
    requires Holds(n, s, None) && s.id == source && Sound(s, 0) && 0 <= share <= MAX_PERCENTAGE
    ensures m == n - GoneSet(s, axis)
    ensures children == Links(Promoted(Kid(s, share), axis))
  {
    hide Distribute, Sum;
    if !n[source].IsLeaf() && n[source].contents.axis == axis {
      LinkFacts(s.kids);
      RepricedLinks(s.kids, share);
      children := PaneLayout.Redistributed(n[source].contents.children, share);
      m := n - {source};
    } else {
      children := [Child(source, share)];
      m := n;
    }
  }

  datatype Placed = Placed(nodes: Nodes, root: NodeId, next: nat)

  /** Place the source before or after the target, in the target's level if the axes agree and in
      a wrapper around the target otherwise. */
  method InsertAtTarget(n: Nodes, root: NodeId, source: NodeId, target: NodeId, axis: Axis, insertion: Insertion,
                        next: nat,
                        ghost t: Tree, ghost s: Tree) returns (p: Outcome<Placed>)
    requires HoldsTwo(n, t, s) && root == t.id && source == s.id && target in Bag(t)
    requires Sound(s, 0) && SharesOk(At(t, target).ctx) && (forall x :: x in n ==> x < next) && next <= MAX_NODE_VALUE
    ensures p.Rejected? <==> !Joins(At(t, target).ctx, axis) && next == MAX_NODE_VALUE
    ensures p.Done? ==>
              var l := At(t, target);
              var t' := InsertNextTo(l.ctx, l.tree, s, axis, insertion, next);
              && Holds(p.value.nodes, t', None) && p.value.root == t'.id
              && p.value.next == (if Joins(l.ctx, axis) then next else next + 1)
              && forall x ::
                   x in p.value.nodes <==> (x in n && x !in GoneSet(s, axis)) || (!Joins(l.ctx, axis) && x == next)
  {
    hide Plug, Place, Bag, BagKids, CtxBag, Holds, HoldsCtx, Sound, Distinct, Promoted, Locate, Distribute;
    ghost var l := At(t, target);
    TwoApart(n, l.ctx, l.tree, s);
    SameRoot(l.ctx, l.tree);
    var parent := n[target].parent;
    if parent.Some? && n[parent.value].contents.axis == axis {
      var m := InsertIntoMatchingSplit(n, source, target, parent.value, insertion, l.ctx, l.tree, s);
      return Done(Placed(m, root, next));
    }
    if next == MAX_NODE_VALUE {
      return Rejected;
    }
    var m := WrapTarget(n, source, target, parent, axis, insertion, next, l.ctx, l.tree, s);
    return Done(Placed(m, if parent.Some? then root else next, next + 1));
  }

  ghost predicate SharesOk(c: Ctx) {
    c.In? ==> 0 <= c.share <= MAX_PERCENTAGE
  }

  method InsertIntoMatchingSplit(n: Nodes, source: NodeId, target: NodeId, parent: NodeId, insertion: Insertion,
                                 ghost d: Ctx, ghost x: Tree, ghost s: Tree) returns (m: Nodes)
    requires HoldsTwo(n, Plug(d, x), s) && source == s.id && target == x.id && d.In? && d.id == parent && Sound(s, 0)
             && SharesOk(d)
    ensures Holds(m, Place(d, JoinKids(s, x, d.share, d.axis, insertion)), None)
    ensures forall y :: y in m <==> y in n && y !in GoneSet(s, d.axis)
  {
    hide Plug, Place, Bag, BagKids, CtxBag, Holds, HoldsCtx, Sound, Distinct, Promoted, Distribute;
    TwoApart(n, d, x, s);
    var siblings := n[parent].contents.children;
    var axis := n[parent].contents.axis;
    var targetIndex := PaneLayout.ChildIndex(siblings, target);
    var targetShare := siblings[targetIndex].percentage;
    var earlier := (targetShare + 1) / 2;
    var later := targetShare / 2;
    var sourceShare := if insertion.Before? then earlier else later;
    var retained := if insertion.Before? then later else earlier;
    var k, inserted := FlattenSource(n, source, axis, sourceShare, s);
    siblings := siblings[targetIndex := Child(target, retained)];
    var at := if insertion.Before? then targetIndex else targetIndex + 1;
    siblings := siblings[..at] + inserted + siblings[at..];
    JoinSiblings(d, x, s, insertion, siblings);
    ArrivingPresent(n, s, d.axis, sourceShare, d, x);
    m := k[parent := k[parent].(contents := SplitContents(axis, siblings))];
    m := PaneLayout.WithParents(m, inserted, parent);
    InsertJoinHolds(n, d, x, s, insertion, m);
  }

  lemma {:induction false} JoinSiblings(d: Ctx, x: Tree, s: Tree, insertion: Insertion, siblings: seq<Child>)
    requires d.In?
    requires var i := |d.left|;
             var before := Links(d.left) + [Child(x.id, d.share)] + Links(d.right);
             var halved := before[i := Child(x.id, if insertion.Before? then d.share / 2 else (d.share + 1) / 2)];
             var at := if insertion.Before? then i else i + 1;
             siblings == halved[..at] + Links(Arriving(s, d.share, d.axis, insertion)) + halved[at..]
    ensures siblings == Links(d.left) + Links(JoinKids(s, x, d.share, d.axis, insertion)) + Links(d.right)
  {
    hide Promoted;
    var p := Arriving(s, d.share, d.axis, insertion);
    var t := Kid(x, if insertion.Before? then d.share / 2 else (d.share + 1) / 2);
    LinksAppend(p, [t]);
    LinksAppend([t], p);
    assert Links([t]) == [Child(x.id, t.share)];
  }

  lemma {:induction false} ArrivingPresent(n: Nodes, s: Tree, axis: Axis, share: int, d: Ctx, x: Tree)
    requires HoldsTwo(n, Plug(d, x), s)
    ensures ChildIds(Links(Promoted(Kid(s, share), axis))) == Ids(Promoted(Kid(s, share), axis))
    ensures forall l | l in Links(Promoted(Kid(s, share), axis)) ::
              l.nodeId in n - GoneSet(s, axis) && l.nodeId !in CtxBag(d) && l.nodeId !in Bag(x)
  {
    hide Plug, CtxBag, HoldsCtx;
    TwoApart(n, d, x, s);
    PromotedIds(s, axis, share);
    LinkFacts(Promoted(Kid(s, share), axis));
    LinkIds(Promoted(Kid(s, share), axis));
  }

  method WrapTarget(n: Nodes, source: NodeId, target: NodeId, parent: Option<NodeId>, axis: Axis, insertion: Insertion,
                    wrapperId: NodeId,
                    ghost d: Ctx, ghost x: Tree, ghost s: Tree) returns (m: Nodes)
    requires HoldsTwo(n, Plug(d, x), s) && source == s.id && target == x.id && parent == HoleParent(d) && Sound(s, 0)
             && wrapperId !in n
    ensures Holds(m, Plug(d, Split(wrapperId, axis, JoinKids(s, x, MAX_PERCENTAGE, axis, insertion))), None)
    ensures forall y :: y in m <==> (y in n && y !in GoneSet(s, axis)) || y == wrapperId
  {
    hide Plug, Place, Bag, BagKids, CtxBag, Holds, HoldsCtx, Sound, Distinct, Promoted, Distribute;
    TwoApart(n, d, x, s);
    var k, inserted := FlattenSource(n, source, axis, 50, s);
    var children := if insertion.Before? then inserted + [Child(target, 50)] else [Child(target, 50)] + inserted;
    WrapChildren(x, s, axis, insertion, children);
    ArrivingPresent(n, s, axis, 50, d, x);
    m := k;
    if parent.Some? {
      var siblings := m[parent.value].contents.children;
      var i := PaneLayout.ChildIndex(siblings, target);
      HoleLink(d, Child(target, d.share), Child(wrapperId, d.share));
      m := m[parent.value := m[parent.value].(contents :=
        SplitContents(m[parent.value].contents.axis, siblings[i := Child(wrapperId, siblings[i].percentage)]))];
    }
    m := m[target := m[target].(parent := Some(wrapperId))];
    m := PaneLayout.WithParents(m, inserted, wrapperId);
    m := m[wrapperId := Node(wrapperId, parent, SplitContents(axis, children))];
    assert WrapMap(n, d, x, s, axis, insertion, wrapperId, m);
    InsertWrapHolds(n, d, x, s, axis, insertion, wrapperId, m);
  }

  lemma {:induction false} WrapChildren(x: Tree, s: Tree, axis: Axis, insertion: Insertion, children: seq<Child>)
    requires var inserted := Links(Promoted(Kid(s, 50), axis));
             children == if insertion.Before? then inserted + [Child(x.id, 50)] else [Child(x.id, 50)] + inserted
    ensures children == Links(JoinKids(s, x, MAX_PERCENTAGE, axis, insertion))
    ensures Arriving(s, MAX_PERCENTAGE, axis, insertion) == Promoted(Kid(s, 50), axis)
  {
    hide Promoted;
    var p, t := Promoted(Kid(s, 50), axis), Kid(x, 50);
    LinksAppend(p, [t]);
    LinksAppend([t], p);
    assert Links([t]) == [Child(x.id, 50)];
    HalfOfAll(s, x, axis, insertion);
  }

  lemma {:induction false} HalfOfAll(s: Tree, x: Tree, axis: Axis, insertion: Insertion)
    ensures Arriving(s, MAX_PERCENTAGE, axis, insertion) == Promoted(Kid(s, 50), axis)
    ensures JoinKids(s, x, MAX_PERCENTAGE, axis, insertion)
         == if insertion.Before? then Promoted(Kid(s, 50), axis) + [Kid(x, 50)]
            else [Kid(x, 50)] + Promoted(Kid(s, 50), axis)
  {
    hide Promoted;
  }

  // ----- the move

  /** Selection and target share a level that already has the placement axis. */
  ghost predicate SameLevel(t: Tree, selection: PaneSelection, target: NodeId, axis: Axis)
    requires Validated(t, selection, target)
  {
    HoleParent(At(t, target).ctx) == selection.parent && RangeOf(t, selection).p.axis == axis
  }

  /** Ids a move across levels takes from the allocator. */
  ghost function MoveIds(t: Tree, selection: PaneSelection, target: NodeId, axis: Axis): nat
    requires Validated(t, selection, target)
  {
    var r := RangeOf(t, selection);
    (if NeedsGroup(r) then 1 else 0)
    + if target in Bag(Remainder(r)) && Joins(At(Remainder(r), target).ctx, axis) then 0 else 1
  }

  ghost function Others(t: Tree, selection: PaneSelection, target: NodeId): seq<Kid>
    requires Validated(t, selection, target)
  {
    RangeOf(t, selection).Others()
  }

  /** The tree after moving across levels. */
  ghost function MovedTree(t: Tree, selection: PaneSelection, target: NodeId, axis: Axis, insertion: Insertion,
                           next: nat): Tree
    requires Validated(t, selection, target)
  {
    var r := RangeOf(t, selection);
    if target in Bag(Remainder(r)) then Moved(r, target, axis, insertion, next) else t
  }

  /** The tree after moving within the target's level. */
  ghost function ReorderedTree(t: Tree, selection: PaneSelection, target: NodeId, insertion: Insertion): Tree
    requires Validated(t, selection, target)
  {
    var r := RangeOf(t, selection);
    var j := IndexOf(Links(r.Others()), target);
    if j < |r.Others()| then Reordered(r, j, insertion) else t
  }

  lemma {:induction false} ValidatedRange(n: Nodes, root: NodeId, next: nat, t: Tree, selection: PaneSelection,
                                          target: NodeId)
    requires Represents(n, root, next, t, 0) && Validated(t, selection, target)
    ensures var r := RangeOf(t, selection);
            && t == Plug(r.c, r.p) && r.p.id == selection.parent.value && r.count == |selection.nodes|
            && Movable(r, target) && Opened(n, t, r.c, r.p) && CleanupId(r) in Bag(t) && CleanupId(r) != 0
  {
    hide Plug, Bag, BagKids, Holds, HoldsCtx, Sound, Locate, Distinct;
    var r := RangeOf(t, selection);
    Open(n, t, selection.parent.value);
    SameRoot(r.c, r.p);
    assert r.p.id in Bag(t) && (r.c.In? ==> r.c.id in Bag(t));
  }

  /** Reordering the target's own level, as the map holds it. */
  method ReorderAtSameLevel(n: Nodes, parent: NodeId, selected: seq<NodeId>, target: NodeId, insertion: Insertion,
                            ghost r: Range)
    returns (m: Option<Nodes>)
    requires r.Ok() && !r.Whole() && Opened(n, Plug(r.c, r.p), r.c, r.p) && r.p.id == parent && selected == Ids(r.Sel())
    requires target in Ids(r.Others())
    ensures var j := IndexOf(Links(r.Others()), target);
            && j < |r.Others()| && r.Others()[j].tree.id == target
            && (m.None? <==> Reordered(r, j, insertion) == Plug(r.c, r.p))
            && (m.Some? ==> Holds(m.value, Reordered(r, j, insertion), None) && forall x :: x in m.value <==> x in n)
  {
    hide Plug, Bag, BagKids, CtxBag, Holds, HoldsCtx, HoldsKids, Distinct, Inside, Outside, Reordered, ReorderedKids;
    hide Links, ChildIds;
    var original := n[parent].contents.children;
    LevelParts(n, r);
    PartitionRange(r.p.kids, r.first, r.count, Ids(r.Sel()));
    var moved, remaining := Partition(original, selected);
    OtherIndex(r.Others(), target);
    var targetIndex := PaneLayout.ChildIndex(remaining, target);
    ghost var j := targetIndex;
    if insertion.After? {
      targetIndex := targetIndex + 1;
    }
    remaining := remaining[..targetIndex] + moved + remaining[targetIndex..];
    ReorderedLinks(r, j, insertion, remaining);
    ReorderSame(r, j, insertion);
    if ChildIds(remaining) == ChildIds(original) {
      return None;
    }
    m := Some(n[parent := n[parent].(contents := SplitContents(n[parent].contents.axis, remaining))]);
    ReorderHolds(n, r, j, insertion, m.value);
  }

  lemma {:induction false} OtherIndex(ks: seq<Kid>, id: NodeId)
    requires id in Ids(ks)
    ensures var j := IndexOf(Links(ks), id); j < |ks| && ks[j].tree.id == id
  {
    var i :| 0 <= i < |ks| && Ids(ks)[i] == id;
    assert Links(ks)[i].nodeId == id;
  }

  function ReorderedKids(r: Range, j: nat, insertion: Insertion): seq<Kid>
    requires r.Ok() && j < |r.Others()|
  {
    var at := if insertion.Before? then j else j + 1;
    r.Others()[..at] + r.Sel() + r.Others()[at..]
  }

  lemma {:induction false} ReorderedLinks(r: Range, j: nat, insertion: Insertion, links: seq<Child>)
    requires r.Ok() && j < |r.Others()|
    requires var at := if insertion.Before? then j else j + 1;
             links == Links(r.Others())[..at] + Links(r.Sel()) + Links(r.Others())[at..]
    ensures links == Links(ReorderedKids(r, j, insertion))
    ensures Reordered(r, j, insertion) == Plug(r.c, Split(r.p.id, r.p.axis, ReorderedKids(r, j, insertion)))
  {
    hide Plug;
    var at := if insertion.Before? then j else j + 1;
    var o := r.Others();
    LinksAppend(o[..at] + r.Sel(), o[at..]);
    LinksAppend(o[..at], r.Sel());
    assert Links(o[..at]) == Links(o)[..at] && Links(o[at..]) == Links(o)[at..];
  }

  /** Nothing changes exactly when the range is pasted back where it was. */
  lemma {:induction false} ReorderSame(r: Range, j: nat, insertion: Insertion)
    requires r.Ok() && !r.Whole() && j < |r.Others()| && Distinct(BagKids(r.p.kids))
    ensures ChildIds(Links(ReorderedKids(r, j, insertion))) == ChildIds(Links(r.p.kids))
       <==> Plug(r.c, Split(r.p.id, r.p.axis, ReorderedKids(r, j, insertion))) == Plug(r.c, r.p)
  {
    var at := if insertion.Before? then j else j + 1;
    var ks, before := ReorderedKids(r, j, insertion), r.p.kids;
    var s := Split(r.p.id, r.p.axis, ks);
    LinkFacts(ks);
    LinkFacts(before);
    if Ids(ks) == Ids(before) {
      assert ks[at] == r.Sel()[0] == before[r.first];
      assert Ids(ks)[at] == Ids(before)[at] == before[at].tree.id;
      DistinctIds(before, at, r.first);
      assert ks == before;
    } else if Plug(r.c, s) == Plug(r.c, r.p) {
      PlugInjective(r.c, s, r.p);
    }
  }

  lemma {:induction false} ReorderHolds(n: Nodes, r: Range, j: nat, insertion: Insertion, m: Nodes)
    requires r.Ok() && !r.Whole() && j < |r.Others()| && Opened(n, Plug(r.c, r.p), r.c, r.p)
    requires m == n[r.p.id := n[r.p.id].(contents := SplitContents(r.p.axis, Links(ReorderedKids(r, j, insertion))))]
    ensures Holds(m, Plug(r.c, Split(r.p.id, r.p.axis, ReorderedKids(r, j, insertion))), None)
  {
    hide Plug, Bag, BagKids, CtxBag, Holds, HoldsCtx, Distinct;
    var s := Split(r.p.id, r.p.axis, ReorderedKids(r, j, insertion));
    LevelParts(n, r);
    HoldsKidsFrame(n, m, r.p.kids[..r.first], r.p.id);
    HoldsKidsFrame(n, m, r.Sel(), r.p.id);
    HoldsKidsFrame(n, m, r.p.kids[r.first + r.count..], r.p.id);
    var o := r.Others();
    assert forall k :: k in o <==> k in r.p.kids[..r.first] || k in r.p.kids[r.first + r.count..];
    var at := if insertion.Before? then j else j + 1;
    assert forall k :: k in s.kids ==> k in o || k in r.Sel();
    SplitHolds(m, s, HoleParent(r.c));
    HoldsCtxFrame(n, m, r.c, r.p.id);
    HoldsPlug(m, r.c, s);
  }

  // ----- what is true of the tree before it is cleaned up

  lemma {:induction false} PasteBags(a: seq<LeafRef>, s: seq<LeafRef>, b: seq<LeafRef>, c: seq<LeafRef>,
                                     x: seq<LeafRef>, d: seq<LeafRef>, insertion: Insertion)
    requires a + b == c + x + d
    ensures var after := c + (if insertion.Before? then s + x else x + s) + d;
            && multiset(after) == multiset(a + s + b)
            && multiset(Panes(after)) == multiset(Panes(a + s + b))
  {
    var m := if insertion.Before? then s + x else x + s;
    assert multiset(a + b) == multiset(c + x + d);
    assert multiset(Panes(a + b)) == multiset(Panes(c + x + d));
    PanesAppend(a, b);
    PanesAppend(a + s, b);
    PanesAppend(a, s);
    PanesAppend(c + x, d);
    PanesAppend(c, x);
    PanesAppend(s, x);
    PanesAppend(x, s);
    PanesAppend(c + m, d);
    PanesAppend(c, m);
    MixBags(multiset(a), multiset(s), multiset(b), multiset(c), multiset(x), multiset(d));
    MixBags(multiset(Panes(a)), multiset(Panes(s)), multiset(Panes(b)), multiset(Panes(c)), multiset(Panes(x)),
            multiset(Panes(d)));
  }

  lemma {:induction false} MixBags<T>(a: multiset<T>, s: multiset<T>, b: multiset<T>, c: multiset<T>, x: multiset<T>,
                                      d: multiset<T>)
    requires a + b == c + x + d
    ensures c + (s + x) + d == a + s + b && c + (x + s) + d == a + s + b
  {
    assert c + (s + x) + d == (c + x + d) + s;
    assert c + (x + s) + d == (c + x + d) + s;
    assert a + s + b == (a + b) + s;
  }

  /** Moving permutes the leaves, and so also the panes. */
  lemma {:induction false} InsertedLeafBag(r: Range, target: NodeId, axis: Axis, insertion: Insertion, next: nat)
    requires Movable(r, target)
    requires forall x :: x in Bag(Plug(r.c, r.p)) ==> x < next
    ensures target in Bag(Remainder(r))
    ensures multiset(Leaves(Inserted(r, target, axis, insertion, next))) == multiset(Leaves(Plug(r.c, r.p)))
    ensures PaneBag(Inserted(r, target, axis, insertion, next)) == PaneBag(Plug(r.c, r.p))
  {
    hide Plug, Sound, Bag, Leaves, LeavesKids, LeavesBefore, LeavesAfter, LeavesLeft, LeavesRight, Remainder, Source;
    hide Distinct, Inserted, Panes;
    TargetStays(r, target);
    InsertedProps(r, target, axis, insertion, next);
    ExtractLeaves(r, next);
    var l := At(Remainder(r), target);
    PlugLeaves(l.ctx, l.tree);
    PasteBags(LeavesLeft(r), LeavesKids(r.Sel()), LeavesRight(r), LeavesBefore(l.ctx), Leaves(l.tree),
              LeavesAfter(l.ctx), insertion);
  }

  lemma {:induction false} CleanupRemains(r: Range)
    requires r.Ok()
    ensures CleanupId(r) in Bag(Remainder(r))
  {
    if r.Whole() {
      PlugBag(r.c.up, ClosedUp(r.c));
    } else {
      PlugBag(r.c, Split(r.p.id, r.p.axis, Scaled(r.Others(), MAX_PERCENTAGE)));
    }
  }

  /** The map of an inserted tree represents it, but for the level that lost the source. */
  lemma {:induction false} InsertedRepresented(n: Nodes, root: NodeId, next: nat, r: Range, target: NodeId, axis: Axis,
                                               insertion: Insertion,
                                               m: Nodes, next': nat)
    requires Represents(n, root, next, Plug(r.c, r.p), 0) && Movable(r, target)
    requires target in Bag(Remainder(r)) && next' <= MAX_NODE_VALUE
    requires Holds(m, Inserted(r, target, axis, insertion, next), None)
    requires var wraps := !Joins(At(Remainder(r), target).ctx, axis);
             && next' == WrapperId(r, next) + (if wraps then 1 else 0)
             && forall x ::
                  x in m <==>
                    ((x in n || (NeedsGroup(r) && x == next)) && x !in GoneSet(Source(r, next), axis))
                    || (wraps && x == WrapperId(r, next))
    ensures Represents(m, Inserted(r, target, axis, insertion, next).id, next',
                       Inserted(r, target, axis, insertion, next), CleanupId(r))
    ensures CleanupId(r) in m && CleanupId(r) in Bag(Inserted(r, target, axis, insertion, next))
  {
    hide Plug, Sound, Bag, Leaves, LeavesKids, Remainder, Source, Distinct, Inserted, Panes, PaneBag, Holds;
    InsertedDistinct(r, target, axis, insertion, next);
    InsertedProps(r, target, axis, insertion, next);
    InsertedLeafBag(r, target, axis, insertion, next);
    SourceIds(n, r, next);
    CleanupRemains(r);
    RemainderDistinct(r);
    GoneIsDropped(Source(r, next), axis);
  }

  lemma {:induction false} GoneIsDropped(s: Tree, axis: Axis)
    ensures forall x :: x in GoneSet(s, axis) <==> x in Dropped(Kid(s, 0), axis)
    ensures forall x :: x in GoneSet(s, axis) ==> x == s.id
  {
  }

  lemma {:induction false} SourceIds(n: Nodes, r: Range, next: nat)
    requires RangeSound(r) && Distinct(Bag(Plug(r.c, r.p)))
    requires (forall x :: x in n <==> x in Bag(Plug(r.c, r.p))) && forall x :: x in n ==> x < next
    ensures Source(r, next).id !in Bag(Remainder(r)) && Source(r, next).id < WrapperId(r, next)
  {
    hide Plug, Sound, Remainder, Distinct, Source;
    ExtractTwo(n, r, next);
    assert Source(r, next).id in Bag(Source(r, next));
    DistinctUnion(Bag(Remainder(r)), Bag(Source(r, next)));
  }

  /** An inner node of the old tree is an inner node of the new one. */
  lemma {:induction false} SplitStaysSplit(n: Nodes, t: Tree, m: Nodes, t': Tree, id: NodeId)
    requires Holds(n, t, None) && Holds(m, t', None) && multiset(Leaves(t)) == multiset(Leaves(t'))
    requires id in Bag(t') && id in n && id in m && !n[id].IsLeaf()
    ensures !m[id].IsLeaf()
  {
    if m[id].IsLeaf() {
      var pane := m[id].contents.pane;
      LeafEntries(m, t', None, id, pane);
      assert LeafRef(id, pane) in multiset(Leaves(t'));
      LeafEntries(n, t, None, id, pane);
    }
  }

  /** A move on a working copy: validate, take the source out, put it back, clean up. */
  method MoveIn(moved: PaneLayout, selection: PaneSelection, target: NodeId, direction: DropDirection)
    returns (r: Outcome<bool>)
    requires moved.Valid()
    modifies moved
    ensures var t, axis, insertion := old(moved.tree), PlacementAxis(direction), PlacementInsertion(direction);
            && (!Validated(t, selection, target) ==> r.Rejected?)
            && (Validated(t, selection, target) ==>
                  if SameLevel(t, selection, target, axis) then
                    && r == Done(ReorderedTree(t, selection, target, insertion) != t)
                    && moved.Valid() && moved.tree == ReorderedTree(t, selection, target, insertion)
                    && moved.nextNodeValue == old(moved.nextNodeValue)
                  else if old(moved.nextNodeValue) + MoveIds(t, selection, target, axis) > MAX_NODE_VALUE then
                    r.Rejected?
                  else
                    && r == Done(true)
                    && moved.Valid()
                    && moved.tree == MovedTree(t, selection, target, axis, insertion, old(moved.nextNodeValue))
                    && moved.nextNodeValue == old(moved.nextNodeValue) + MoveIds(t, selection, target, axis))
  {
    hide Plug, Bag, BagKids, Holds, HoldsCtx, Sound, Locate, Distinct, Remainder, Source, PaneBag, Leaves, Moved;
    hide Reordered;
    var ok := Validate(moved, selection, target);
    if !ok {
      return Rejected;
    }
    var parent := selection.parent.value;
    ghost var g := RangeOf(moved.tree, selection);
    ValidatedRange(moved.nodes, moved.root, moved.nextNodeValue, moved.tree, selection, target);
    Open(moved.nodes, moved.tree, target);
    if moved.nodes[target].parent == selection.parent && moved.nodes[parent].contents.axis == PlacementAxis(direction) {
      r := ReorderIn(moved, selection, target, PlacementInsertion(direction), g);
      return r;
    }
    r := MoveAcross(moved, selection, target, PlacementAxis(direction), PlacementInsertion(direction), g);
  }

  lemma {:induction false} SiblingTarget(n: Nodes, t: Tree, selection: PaneSelection, target: NodeId, r: Range)
    requires Holds(n, t, None) && Distinct(Bag(t)) && Validated(t, selection, target) && r == RangeOf(t, selection)
    requires HoleParent(At(t, target).ctx) == selection.parent
    ensures target in Ids(r.Others()) && !r.Whole()
  {
    hide Plug, Locate, Bag, Sound, Distinct, HoldsCtx;
    var l := At(t, target);
    Open(n, t, target);
    FillHolds(n, l.ctx, l.tree);
    Open(n, t, r.p.id);
    HoldsUnique(n, r.p, HoleParent(r.c), Fill(l.ctx, l.tree), HoleParent(l.ctx.up));
    var k := Kid(l.tree, l.ctx.share);
    assert r.p.kids[|l.ctx.left|] == k;
    Stretches(r.p.kids, r.first, r.count);
    assert l.tree.id in Bag(l.tree);
    assert k !in r.Sel();
    assert k in r.Others();
    var i :| 0 <= i < |r.Others()| && r.Others()[i] == k;
    assert Ids(r.Others())[i] == target;
  }

  method ReorderIn(moved: PaneLayout, selection: PaneSelection, target: NodeId, insertion: Insertion, ghost g: Range)
    returns (r: Outcome<bool>)
    requires moved.Valid() && Validated(moved.tree, selection, target) && g == RangeOf(moved.tree, selection)
    requires HoleParent(At(moved.tree, target).ctx) == selection.parent
    modifies moved
    ensures moved.Valid() && moved.nextNodeValue == old(moved.nextNodeValue)
    ensures moved.tree == ReorderedTree(old(moved.tree), selection, target, insertion)
    ensures r == Done(moved.tree != old(moved.tree))
  {
    hide Plug, Bag, BagKids, Holds, HoldsCtx, Sound, Locate, Distinct, PaneBag, Leaves, Apart, Reordered;
    ghost var n, t := moved.nodes, moved.tree;
    ValidatedRange(n, moved.root, moved.nextNodeValue, t, selection, target);
    SiblingTarget(n, t, selection, target, g);
    var m := ReorderAtSameLevel(moved.nodes, selection.parent.value, selection.nodes, target, insertion, g);
    ghost var j := IndexOf(Links(g.Others()), target);
    if m.None? {
      return Done(false);
    }
    moved.nodes := m.value;
    ReorderRepresented(n, moved.root, moved.nextNodeValue, g, j, insertion, moved.nodes);
    moved.tree := Reordered(g, j, insertion);
    return Done(true);
  }

  lemma {:induction false} ReorderRepresented(n: Nodes, root: NodeId, next: nat, r: Range, j: nat, insertion: Insertion,
                                              m: Nodes)
    requires Represents(n, root, next, Plug(r.c, r.p), 0) && r.Ok() && !r.Whole() && j < |r.Others()|
    requires Holds(m, Reordered(r, j, insertion), None) && forall x :: x in m <==> x in n
    ensures Represents(m, root, next, Reordered(r, j, insertion), 0)
  {
    hide Plug, Bag, BagKids, Holds, Sound, Distinct, Leaves, LeavesKids, Panes;
    ReorderedProps(r, j, insertion);
    ReorderLeaves(r, j, insertion);
    var before, after := Leaves(Plug(r.c, r.p)), Leaves(Reordered(r, j, insertion));
    PastedBags(before, after, LeavesKids(r.Sel()), Leaves(r.Others()[j].tree), insertion);
    ReorderRoot(r, j, insertion);
  }

  lemma {:induction false} ReorderRoot(r: Range, j: nat, insertion: Insertion)
    requires r.Ok() && j < |r.Others()|
    ensures Reordered(r, j, insertion).id == Plug(r.c, r.p).id
  {
    var at := if insertion.Before? then j else j + 1;
    SameRootId(r.c, r.p, Split(r.p.id, r.p.axis, r.Others()[..at] + r.Sel() + r.Others()[at..]));
  }

  /** Cutting and pasting permutes the leaves. */
  lemma {:induction false} PastedBags(before: seq<LeafRef>, after: seq<LeafRef>, block: seq<LeafRef>,
                                      anchor: seq<LeafRef>, insertion: Insertion)
    requires CutAndPasted(before, after, block, anchor, insertion)
    ensures multiset(after) == multiset(before) && multiset(Panes(after)) == multiset(Panes(before))
  {
    var a, b, c, d :| before == a + block + b && a + b == c + anchor + d
                      && after == c + (if insertion.Before? then block + anchor else anchor + block) + d;
    PasteBags(a, block, b, c, anchor, d, insertion);
  }

  lemma {:induction false} RemainderRoot(r: Range)
    requires r.Ok()
    ensures Remainder(r).id == Plug(r.c, r.p).id
  {
    if r.Whole() {
      PlugUp(r.c, r.p);
      SameRootId(r.c.up, Fill(r.c, r.p), ClosedUp(r.c));
    } else {
      SameRootId(r.c, r.p, Split(r.p.id, r.p.axis, Scaled(r.Others(), MAX_PERCENTAGE)));
    }
  }

  /** What putting the source back needs to know about the state that extraction leaves. */
  lemma {:induction false} AfterExtract(n: Nodes, root: NodeId, next: nat, r: Range, target: NodeId, m: Nodes)
    requires Represents(n, root, next, Plug(r.c, r.p), 0) && Movable(r, target) && target in Bag(Remainder(r))
    requires HoldsTwo(m, Remainder(r), Source(r, next)) && (NeedsGroup(r) ==> next < MAX_NODE_VALUE)
    ensures Remainder(r).id == root && Sound(Source(r, next), 0) && SharesOk(At(Remainder(r), target).ctx)
    ensures forall x :: x in m ==> x < WrapperId(r, next)
    ensures WrapperId(r, next) <= MAX_NODE_VALUE
    ensures forall x :: x in m <==> x in n || (NeedsGroup(r) && x == next)
  {
    hide Plug, Bag, BagKids, Holds, Locate, Distinct, Remainder, Source, Leaves, Panes;
    RemainderRoot(r);
    ExtractSound(r, next);
    ExtractTwo(n, r, next);
    var l := At(Remainder(r), target);
    PlugSound(l.ctx, l.tree, CleanupId(r));
    if l.ctx.In? {
      SumNonNegative(Shares(l.ctx.left));
      SumNonNegative(Shares(l.ctx.right));
    }
  }

  /** Move the selected range out of its level and next to a target elsewhere. */
  method MoveAcross(moved: PaneLayout, selection: PaneSelection, target: NodeId, axis: Axis, insertion: Insertion,
                    ghost g: Range) returns (r: Outcome<bool>)
    requires moved.Valid() && Validated(moved.tree, selection, target) && g == RangeOf(moved.tree, selection)
    modifies moved
    ensures r.Rejected? <==>
              old(moved.nextNodeValue) + MoveIds(old(moved.tree), selection, target, axis) > MAX_NODE_VALUE
    ensures r.Done? ==>
              && r.value
              && moved.Valid()
              && moved.tree == MovedTree(old(moved.tree), selection, target, axis, insertion, old(moved.nextNodeValue))
              && moved.nextNodeValue == old(moved.nextNodeValue) + MoveIds(old(moved.tree), selection, target, axis)
  {
    hide Plug, Bag, BagKids, Holds, HoldsCtx, Sound, Locate, Distinct, PaneBag, Leaves, Apart, Remainder, Source;
    hide CleanupId, InsertNextTo;
    ghost var n, t, next := moved.nodes, moved.tree, moved.nextNodeValue;
    ValidatedRange(n, moved.root, next, t, selection, target);
    TargetStays(g, target);
    var e := Extract(moved.nodes, selection.parent.value, selection.nodes, moved.nextNodeValue, g);
    if e.Rejected? {
      return Rejected;
    }
    AfterExtract(n, moved.root, next, g, target, e.value.nodes);
    var p := InsertAtTarget(e.value.nodes, moved.root, e.value.source, target, axis, insertion, e.value.next,
                            Remainder(g), Source(g, next));
    if p.Rejected? {
      return Rejected;
    }
    InsertedRepresented(n, moved.root, next, g, target, axis, insertion, p.value.nodes, p.value.next);
    CleanUp(moved, p.value, e.value.cleanup, n, g, target, axis, insertion, next);
    return Done(true);
  }

  /** Dissolve the level the source came from if only one child is left in it. */
  method CleanUp(moved: PaneLayout, p: Placed, cleanup: NodeId,
                 ghost n: Nodes, ghost r: Range, ghost target: NodeId, ghost axis: Axis, ghost insertion: Insertion,
                 ghost next: nat)
    requires Movable(r, target) && target in Bag(Remainder(r)) && cleanup == CleanupId(r)
    requires Represents(n, Plug(r.c, r.p).id, next, Plug(r.c, r.p), 0) && CleanupId(r) in n
    requires var t := Inserted(r, target, axis, insertion, next);
             && Represents(p.nodes, p.root, p.next, t, cleanup) && cleanup in p.nodes && cleanup in Bag(t)
    modifies moved
    ensures moved.Valid() && moved.nextNodeValue == p.next
    ensures moved.tree == Moved(r, target, axis, insertion, next)
  {
    hide Plug, Bag, BagKids, Holds, HoldsCtx, Sound, Locate, Distinct, PaneBag, Leaves, Apart, Remainder, Source;
    hide Inserted, DissolveAt;
    ghost var t := Inserted(r, target, axis, insertion, next);
    moved.nodes := p.nodes;
    moved.root := p.root;
    moved.nextNodeValue := p.next;
    moved.tree := t;
    ghost var l := At(t, cleanup);
    InsertedLeafBag(r, target, axis, insertion, next);
    CleanupIsSplit(n, r);
    SplitStaysSplit(n, Plug(r.c, r.p), p.nodes, t, cleanup);
    Open(p.nodes, t, cleanup);
    if |moved.nodes[cleanup].contents.children| == 1 {
      moved.DissolveUnarySplit(cleanup, l.ctx, l.tree);
    } else {
      NoSlack(t, l.ctx, l.tree, cleanup);
    }
  }

  lemma {:induction false} CleanupIsSplit(n: Nodes, r: Range)
    requires r.Ok() && Holds(n, Plug(r.c, r.p), None) && Distinct(Bag(Plug(r.c, r.p)))
    ensures CleanupId(r) in n && !n[CleanupId(r)].IsLeaf()
  {
    OpenAt(n, r.c, r.p);
  }

  /** Move a selection next to a target. The work is done on a copy that replaces the layout only
      when the move changes something. */
  method MovePaneSelection(layout: PaneLayout, selection: PaneSelection, target: NodeId, direction: DropDirection)
    returns (r: Outcome<bool>)
    requires layout.Valid()
    modifies layout
    ensures layout.Valid()
    ensures r != Done(true) ==>
              layout.tree == old(layout.tree) && layout.nodes == old(layout.nodes)
              && layout.nextNodeValue == old(layout.nextNodeValue)
    ensures r.Rejected? <==> !CanMove(old(layout.tree), selection, target, direction, old(layout.nextNodeValue))
    ensures r.Done? ==>
              r.value
                == (layout.tree != old(layout.tree)
                    || !SameLevel(old(layout.tree), selection, target, PlacementAxis(direction)))
    ensures r.Done? ==>
              layout.tree == AfterMove(old(layout.tree), selection, target, direction, old(layout.nextNodeValue))
  {
    var moved := new PaneLayout.Copy(layout);
    r := MoveIn(moved, selection, target, direction);
    if r == Done(true) {
      layout.Assign(moved);
    }
  }

  /** The move is valid and does not run out of ids. */
  ghost predicate CanMove(t: Tree, selection: PaneSelection, target: NodeId, direction: DropDirection, next: nat) {
    && Validated(t, selection, target)
    && (SameLevel(t, selection, target, PlacementAxis(direction))
        || next + MoveIds(t, selection, target, PlacementAxis(direction)) <= MAX_NODE_VALUE)
  }

  ghost function AfterMove(t: Tree, selection: PaneSelection, target: NodeId, direction: DropDirection, next: nat): Tree
    requires Validated(t, selection, target)
  {
    if SameLevel(t, selection, target, PlacementAxis(direction)) then
      ReorderedTree(t, selection, target, PlacementInsertion(direction))
    else MovedTree(t, selection, target, PlacementAxis(direction), PlacementInsertion(direction), next)
  }
}
