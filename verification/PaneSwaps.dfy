/** Swapping two panes or groups that do not overlap. */
module PaneSwaps {
  import opened Wrappers
  import opened PaneTree
  import opened PaneNodes
  import opened PaneEdits
  import opened LayoutMaps
  import opened PaneLayouts
  import opened MoveTrees
  import opened MoveMaps
  import opened PaneMoves
  import opened SwapTrees

  // ----- the exchange, as the map holds it

  function RenamedLinks(cs: seq<Child>, a: NodeId, b: NodeId): (r: seq<Child>)
    ensures |r| == |cs|
  {
    seq(|cs|, i requires 0 <= i < |cs| =>
      Child(if cs[i].nodeId == a then b else if cs[i].nodeId == b then a else cs[i].nodeId, cs[i].percentage))
  }

  function Renamed(node: Node, a: NodeId, b: NodeId): Node {
    if node.IsLeaf() then node
    else node.(contents := SplitContents(node.contents.axis, RenamedLinks(node.contents.children, a, b)))
  }

  /** Renaming the two links and trading the two parents holds the exchanged tree. */
  lemma {:induction false} ReplacedHolds(n: Nodes, m: Nodes, s: Tree, p: Option<NodeId>, a: NodeId, y: Tree, b: NodeId,
                                         x: Tree)
    requires Holds(n, s, p) && s.id != a && s.id != b && a in n && b in n
    requires forall i :: i in Bag(s) && i in n && i != a && i != b ==> i in m && m[i] == Renamed(n[i], a, b)
    requires x.id == a && y.id == b && Holds(m, y, n[a].parent) && Holds(m, x, n[b].parent)
    ensures Holds(m, Replaced(s, a, y, b, x), p)
    decreases s
  {
    if s.Split? {
      ReplacedUnfold(s, a, y, b, x);
      var ks := ReplacedKids(s.kids, a, y, b, x);
      forall i | 0 <= i < |ks|
        ensures Links(ks)[i] == RenamedLinks(Links(s.kids), a, b)[i] && Holds(m, ks[i].tree, Some(s.id)) {
        var k := s.kids[i].tree;
        assert s.kids[i] in s.kids;
        KidBag(s.kids, s.kids[i]);
        if k.id != a && k.id != b {
          ReplacedHolds(n, m, k, Some(s.id), a, y, b, x);
        }
      }
      assert Links(ks) == RenamedLinks(Links(s.kids), a, b);
    }
  }

  /** The map after the two links and the two parents have been traded. */
  ghost predicate Traded(n: Nodes, m: Nodes, a: NodeId, b: NodeId) {
    && (forall i :: i in m <==> i in n)
    && a in n && b in n
    && m[a] == n[a].(parent := n[b].parent)
    && m[b] == n[b].(parent := n[a].parent)
    && forall i :: i in n && i != a && i != b ==> m[i] == Renamed(n[i], a, b)
  }

  /** Parents of separate nodes are outside both. */
  lemma {:induction false} ParentsOutside(n: Nodes, t: Tree, a: NodeId, b: NodeId)
    requires Holds(n, t, None) && Distinct(Bag(t)) && Separate(t, a, b)
    ensures At(t, a).ctx.In? && a != b && a in n && b in n
    ensures n[a].parent == HoleParent(At(t, a).ctx)
    ensures var pa := At(t, a).ctx.id;
            pa in Bag(t) && pa in n && !n[pa].IsLeaf() && pa !in Bag(At(t, a).tree) && pa !in Bag(At(t, b).tree)
            && pa != a && pa != b
  {
    hide Plug, Locate, Distinct, Bag;
    var la, lb := At(t, a), At(t, b);
    Open(n, t, a);
    Open(n, t, b);
    RootInBag(la.tree);
    RootInBag(lb.tree);
    assert la.ctx.In?;
    LinkedFrom(n, la.ctx, la.tree);
    if la.ctx.id in Bag(lb.tree) {
      LinkInside(n, lb.tree, HoleParent(lb.ctx), la.ctx.id, |la.ctx.left|);
    }
  }

  lemma {:induction false} TradedHolds(n: Nodes, m: Nodes, t: Tree, a: NodeId, b: NodeId)
    requires Holds(n, t, None) && Distinct(Bag(t)) && Separate(t, a, b) && Traded(n, m, a, b)
    ensures Holds(m, Exchanged(t, a, b), None)
  {
    hide Plug, Locate, Distinct, Bag, Holds;
    SeparateSwap(t, a, b);
    SubtreeMoved(n, m, t, a, b);
    SubtreeMoved(n, m, t, b, a);
    RootApart(t, a, b);
    ReplacedHolds(n, m, t, None, a, At(t, b).tree, b, At(t, a).tree);
  }

  lemma {:induction false} SubtreeMoved(n: Nodes, m: Nodes, t: Tree, a: NodeId, b: NodeId)
    requires Holds(n, t, None) && Distinct(Bag(t)) && Separate(t, a, b) && (Traded(n, m, a, b) || Traded(n, m, b, a))
    ensures b in n && Holds(m, At(t, a).tree, n[b].parent)
  {
    hide Plug, Locate, Distinct, Bag, Holds;
    Open(n, t, a);
    Open(n, t, b);
    TradedInside(n, m, t, a, b);
    HoldsReparent(n, m, At(t, a).tree, n[a].parent, n[b].parent);
  }

  lemma {:induction false} RootApart(t: Tree, a: NodeId, b: NodeId)
    requires Separate(t, a, b) && Distinct(Bag(t))
    ensures t.id != a && t.id != b
  {
    SeparateNoOverlap(t, a, b);
    NotHere(t, a, b);
  }

  /** Nothing inside an exchanged subtree changes. */
  lemma {:induction false} TradedInside(n: Nodes, m: Nodes, t: Tree, a: NodeId, b: NodeId)
    requires Holds(n, t, None) && Distinct(Bag(t)) && Separate(t, a, b) && (Traded(n, m, a, b) || Traded(n, m, b, a))
    ensures forall i :: i in Bag(At(t, a).tree) && i != a && i in n ==> i in m && m[i] == n[i]
  {
    hide Plug, Locate, Distinct, Bag;
    ParentsOutside(n, t, a, b);
    SeparateSwap(t, a, b);
    ParentsOutside(n, t, b, a);
    Open(n, t, a);
    Open(n, t, b);
    var x := At(t, a).tree;
    forall i | i in Bag(x) && i != a && i in n ensures i in m && m[i] == n[i] {
      if !n[i].IsLeaf() {
        var cs := n[i].contents.children;
        forall k | 0 <= k < |cs| ensures RenamedLinks(cs, a, b)[k] == cs[k] && RenamedLinks(cs, b, a)[k] == cs[k] {
          LinkInside(n, x, HoleParent(At(t, a).ctx), i, k);
        }
        assert RenamedLinks(cs, a, b) == cs && RenamedLinks(cs, b, a) == cs;
      }
    }
  }

  lemma {:induction false} SeparateSwap(t: Tree, a: NodeId, b: NodeId)
    requires Separate(t, a, b)
    ensures Separate(t, b, a)
  {
  }

  /** The map with one link of a split redirected. */
  function WithLink(n: Nodes, split: NodeId, i: nat, to: NodeId): Nodes
    requires split in n && !n[split].IsLeaf() && i < |n[split].contents.children|
  {
    var cs := n[split].contents.children;
    n[split := n[split].(contents := SplitContents(n[split].contents.axis, cs[i := Child(to, cs[i].percentage)]))]
  }

  /** The only link to a node is the one its parent has at the node's index. */
  lemma {:induction false} LinkPlace(n: Nodes, t: Tree, a: NodeId, b: NodeId)
    requires Holds(n, t, None) && Distinct(Bag(t)) && Separate(t, a, b) && forall i :: i in n <==> i in Bag(t)
    ensures a in n && n[a].parent.Some? && a != b
    ensures var pa := n[a].parent.value;
            && pa in n && !n[pa].IsLeaf() && pa != a && pa != b
            && var cs, at := n[pa].contents.children, IndexOf(n[pa].contents.children, a);
            && at < |cs| && cs[at].nodeId == a
            && forall i, k | i in n && !n[i].IsLeaf() && 0 <= k < |n[i].contents.children| ::
                 n[i].contents.children[k].nodeId == a ==> i == pa && k == at
  {
    hide Plug, Locate, Distinct, Bag, Holds;
    ParentsOutside(n, t, a, b);
    Open(n, t, a);
    LinkedFrom(n, At(t, a).ctx, At(t, a).tree);
    forall i, k | i in n && !n[i].IsLeaf() && 0 <= k < |n[i].contents.children| && n[i].contents.children[k].nodeId == a
      ensures i == n[a].parent.value
    {
      LinkInside(n, t, None, i, k);
    }
  }

  /** The first link to each node is the only one, so replacing two links renames them all. */
  lemma {:induction false} TradedLinks(n: Nodes, t: Tree, a: NodeId, b: NodeId, m: Nodes)
    requires Holds(n, t, None) && Distinct(Bag(t)) && Separate(t, a, b) && forall i :: i in n <==> i in Bag(t)
    requires a in n && b in n && n[a].parent.Some? && n[b].parent.Some? && n[a].parent.value in n
             && n[b].parent.value in n
    requires var pa, pb := n[a].parent.value, n[b].parent.value;
             && !n[pa].IsLeaf() && !n[pb].IsLeaf()
             && var i, j := IndexOf(n[pa].contents.children, a), IndexOf(n[pb].contents.children, b);
             && i < |n[pa].contents.children| && j < |n[pb].contents.children|
             && m == WithLink(WithLink(n, pa, i, b), pb, j,
                              a)[a := n[a].(parent := Some(pb))][b := n[b].(parent := Some(pa))]
    ensures Traded(n, m, a, b)
  {
    hide Plug, Locate, Distinct, Bag, Holds, Separate;
    SeparateSwap(t, a, b);
    LinkPlace(n, t, a, b);
    LinkPlace(n, t, b, a);
    forall i | i in n && i != a && i != b ensures m[i] == Renamed(n[i], a, b) {
      if !n[i].IsLeaf() {
        assert m[i].contents.children == RenamedLinks(n[i].contents.children, a, b);
      }
    }
  }

  /** Trade the links to two nodes and the nodes' parents. */
  method ExchangeLinks(n: Nodes, source: NodeId, target: NodeId, sourceParent: NodeId, targetParent: NodeId,
                       ghost t: Tree)
    returns (m: Nodes)
    requires Holds(n, t, None) && Distinct(Bag(t)) && Separate(t, source, target)
             && (forall i :: i in n <==> i in Bag(t))
    requires source in n && target in n && n[source].parent == Some(sourceParent)
             && n[target].parent == Some(targetParent)
    ensures Traded(n, m, source, target)
  {
    hide Plug, Locate, Distinct, Bag, Holds, Traded, Separate;
    SeparateSwap(t, source, target);
    LinkPlace(n, t, source, target);
    LinkPlace(n, t, target, source);
    var sourceIndex := PaneLayout.ChildIndex(n[sourceParent].contents.children, source);
    var targetIndex := PaneLayout.ChildIndex(n[targetParent].contents.children, target);
    m := n;
    var children := m[sourceParent].contents.children;
    m := m[sourceParent := m[sourceParent].(contents :=
      SplitContents(m[sourceParent].contents.axis,
                    children[sourceIndex := Child(target, children[sourceIndex].percentage)]))];
    children := m[targetParent].contents.children;
    m := m[targetParent := m[targetParent].(contents :=
      SplitContents(m[targetParent].contents.axis,
                    children[targetIndex := Child(source, children[targetIndex].percentage)]))];
    m := m[source := m[source].(parent := Some(targetParent))];
    m := m[target := m[target].(parent := Some(sourceParent))];
    TradedLinks(n, t, source, target, m);
  }

  // ----- flattening the two levels afterwards

  ghost function FlattenedAt(t: Tree, id: NodeId): Tree {
    if id in Bag(t) && At(t, id).tree.Split? then Plug(At(t, id).ctx, Flattened(At(t, id).tree)) else t
  }

  lemma {:induction false} FlattenedAtProps(t: Tree, id: NodeId)
    requires Sound(t, 0) && Distinct(Bag(t))
    ensures Leaves(FlattenedAt(t, id)) == Leaves(t) && Sound(FlattenedAt(t, id), 0) && FlattenedAt(t, id).id == t.id
    ensures Bag(FlattenedAt(t, id)) <= Bag(t) && Distinct(Bag(FlattenedAt(t, id)))
    ensures id in Bag(t) && At(t, id).tree.Split? ==>
              forall x ::
                x in Bag(FlattenedAt(t, id)) <==>
                  x in Bag(t) && x !in DroppedKids(At(t, id).tree.kids, At(t, id).tree.axis)
  {
    hide Plug, Locate, Bag, BagKids, Sound, Leaves, Flat, DroppedKids;
    if id in Bag(t) && At(t, id).tree.Split? {
      var l := At(t, id);
      PlugFlattened(l.ctx, l.tree, 0);
      SameRootId(l.ctx, l.tree, Flattened(l.tree));
      var gone := DroppedKids(l.tree.kids, l.tree.axis);
      NoneDistinct();
      assert gone + Bag(FlattenedAt(t, id)) == Bag(t) + multiset{};
      BagDelta(Bag(t), Bag(FlattenedAt(t, id)), gone, multiset{});
    }
  }

  /** Flatten a split wherever it stands. */
  method FlattenNode(n: Nodes, id: NodeId, ghost t: Tree) returns (m: Nodes)
    requires Holds(n, t, None) && Distinct(Bag(t)) && Sound(t, 0) && id in Bag(t) && At(t, id).tree.Split?
    requires forall x :: x in n <==> x in Bag(t)
    ensures Holds(m, FlattenedAt(t, id), None)
    ensures forall x :: x in m <==> x in Bag(FlattenedAt(t, id))
  {
    hide Plug, Locate, Bag, BagKids, Sound, Leaves, Flat, DroppedKids;
    ghost var l := At(t, id);
    Open(n, t, id);
    PlugSound(l.ctx, l.tree, 0);
    FlattenedAtProps(t, id);
    m := PaneLayout.FlattenMatchingSplitChildren(n, id, l.ctx, l.tree);
  }

  lemma {:induction false} DroppedChild(ks: seq<Kid>, axis: Axis, x: NodeId)
    ensures x in DroppedKids(ks, axis) <==> exists k :: k in ks && k.tree.id == x && Matches(k.tree, axis)
  {
    if ks != [] {
      DroppedChild(ks[1..], axis, x);
      assert DroppedKids(ks, axis) == Dropped(ks[0], axis) + DroppedKids(ks[1..], axis);
      assert forall k :: k in ks <==> k == ks[0] || k in ks[1..];
    }
  }

  /** Flattening a split p makes a split q disappear exactly when q is a child of p along the same axis. */
  lemma {:induction false} FlattenDrops(m: Nodes, t: Tree, p: NodeId, q: NodeId)
    requires Holds(m, t, None) && Distinct(Bag(t)) && Sound(t, 0) && p in Bag(t) && q in Bag(t)
    requires p in m && q in m && !m[p].IsLeaf() && !m[q].IsLeaf()
    ensures q in Bag(FlattenedAt(t, p)) <==> !(m[q].parent == Some(p) && m[p].contents.axis == m[q].contents.axis)
  {
    hide Plug, Locate, Bag, BagKids, Sound, Leaves, Flat, DroppedKids, Distinct;
    FlattenedAtProps(t, p);
    var lp, lq := At(t, p), At(t, q);
    Open(m, t, p);
    Open(m, t, q);
    DroppedChild(lp.tree.kids, lp.tree.axis, q);
    if m[q].parent == Some(p) {
      FillHolds(m, lq.ctx, lq.tree);
      HoldsUnique(m, lp.tree, HoleParent(lp.ctx), Fill(lq.ctx, lq.tree), HoleParent(lq.ctx.up));
      var k := Kid(lq.tree, lq.ctx.share);
      assert lp.tree.kids[|lq.ctx.left|] == k;
      assert k in lp.tree.kids;
    }
    if k :| k in lp.tree.kids && k.tree.id == q && Matches(k.tree, lp.tree.axis) {
      assert Holds(m, k.tree, Some(p));
      assert m[q] == NodeOf(k.tree, Some(p));
    }
  }

  // ----- the swap

  /** The level the second flattening works on is lost to the first. */
  ghost predicate Collides(t: Tree, a: NodeId, b: NodeId)
    requires a in Bag(t) && b in Bag(t)
  {
    var p, q := At(t, a).ctx, At(t, b).ctx;
    p.In? && q.In? && q.up.In? && q.up.id == p.id && q.axis == p.axis
  }

  ghost predicate Swappable(t: Tree, a: NodeId, b: NodeId) {
    Separate(t, a, b) && !Collides(t, a, b)
  }

  ghost function Swapped(t: Tree, a: NodeId, b: NodeId): Tree
    requires Separate(t, a, b)
  {
    var p, q := At(t, a).ctx, At(t, b).ctx;
    if p.Top? || q.Top? then t
    else
      var flat := FlattenedAt(Exchanged(t, a, b), p.id);
      if p.id == q.id then flat else FlattenedAt(flat, q.id)
  }

  lemma {:induction false} SwappedProps(t: Tree, a: NodeId, b: NodeId)
    requires Separate(t, a, b) && Distinct(Bag(t)) && Sound(t, 0)
    ensures At(t, a).ctx.In? && At(t, b).ctx.In?
    ensures var e, flat := Exchanged(t, a, b), FlattenedAt(Exchanged(t, a, b), At(t, a).ctx.id);
            && Bag(e) == Bag(t) && Sound(e, 0) && Distinct(Bag(flat)) && Sound(flat, 0)
    ensures var s := Swapped(t, a, b);
            && Leaves(s) == Leaves(Exchanged(t, a, b)) && Sound(s, 0) && s.id == t.id
            && Bag(s) <= Bag(t) && Distinct(Bag(s)) && multiset(Leaves(s)) == multiset(Leaves(t))
            && PaneBag(s) == PaneBag(t)
  {
    hide Locate, Bag, BagKids, Sound, Leaves, Flat, DroppedKids, Distinct, FlattenedAt, Plug;
    ExchangedProps(t, a, b);
    RootApart(t, a, b);
    NotTop(t, a);
    NotTop(t, b);
    var e := Exchanged(t, a, b);
    FlattenedAtProps(e, At(t, a).ctx.id);
    FlattenedAtProps(FlattenedAt(e, At(t, a).ctx.id), At(t, b).ctx.id);
    var x, y := Leaves(At(t, a).tree), Leaves(At(t, b).tree);
    if BlocksExchanged(Leaves(t), Leaves(e), x, y) {
      ExchangedBags(Leaves(t), Leaves(e), x, y);
    } else {
      ExchangedBags(Leaves(t), Leaves(e), y, x);
    }
  }

  lemma {:induction false} NotTop(t: Tree, a: NodeId)
    requires a in Bag(t) && a != t.id
    ensures At(t, a).ctx.In?
  {
    InnerNotTop(At(t, a).ctx, At(t, a).tree, t);
  }

  lemma {:induction false} ExchangedBags(before: seq<LeafRef>, after: seq<LeafRef>, one: seq<LeafRef>,
                                         two: seq<LeafRef>)
    requires BlocksExchanged(before, after, one, two)
    ensures multiset(after) == multiset(before) && multiset(Panes(after)) == multiset(Panes(before))
  {
    var a, b, c :| before == a + one + b + two + c && after == a + two + b + one + c;
    FiveBags(a, one, b, two, c);
    FiveBags(a, two, b, one, c);
  }

  lemma {:induction false} FiveBags(a: seq<LeafRef>, b: seq<LeafRef>, c: seq<LeafRef>, d: seq<LeafRef>, e: seq<LeafRef>)
    ensures multiset(a + b + c + d + e) == multiset(a) + multiset(b) + multiset(c) + multiset(d) + multiset(e)
    ensures multiset(Panes(a + b + c + d + e))
         == multiset(Panes(a)) + multiset(Panes(b)) + multiset(Panes(c)) + multiset(Panes(d)) + multiset(Panes(e))
  {
    PanesAppend(a + b + c + d, e);
    PanesAppend(a + b + c, d);
    PanesAppend(a + b, c);
    PanesAppend(a, b);
  }

  /** Where an exchanged tree keeps the two levels it must flatten. */
  lemma {:induction false} LevelsAfter(n: Nodes, m: Nodes, t: Tree, a: NodeId, b: NodeId)
    requires Holds(n, t, None) && Distinct(Bag(t)) && Sound(t, 0) && Separate(t, a, b) && Traded(n, m, a, b)
    ensures At(t, a).ctx.In? && At(t, b).ctx.In?
    ensures var p, q, e := At(t, a).ctx.id, At(t, b).ctx.id, Exchanged(t, a, b);
            && Holds(m, e, None) && Distinct(Bag(e)) && Sound(e, 0) && Bag(e) == Bag(t)
            && p in Bag(e) && q in Bag(e) && At(e, p).tree.Split? && At(e, q).tree.Split?
            && p in m && q in m && !m[p].IsLeaf() && !m[q].IsLeaf()
            && (p != q ==> (q in Bag(FlattenedAt(e, p)) <==> !Collides(t, a, b)))
  {
    hide Plug, Locate, Bag, BagKids, Sound, Leaves, FlattenedAt, Distinct, Holds, Separate;
    SeparateSwap(t, a, b);
    ParentsOutside(n, t, a, b);
    ParentsOutside(n, t, b, a);
    TradedHolds(n, m, t, a, b);
    SwappedProps(t, a, b);
    var p, q, e := At(t, a).ctx.id, At(t, b).ctx.id, Exchanged(t, a, b);
    Open(n, t, a);
    Open(n, t, b);
    Open(m, e, p);
    Open(m, e, q);
    if p != q {
      FlattenDrops(m, e, p, q);
    }
  }

  /** A split is still a split, under the same id, when its level has been flattened. */
  lemma {:induction false} StaysSplit(m: Nodes, k: Nodes, e: Tree, p: NodeId, q: NodeId)
    requires Holds(m, e, None) && Distinct(Bag(e)) && Sound(e, 0) && Holds(k, FlattenedAt(e, p), None)
    requires q in m && !m[q].IsLeaf() && q in Bag(FlattenedAt(e, p))
    ensures At(FlattenedAt(e, p), q).tree.Split?
  {
    hide Plug, Locate, Bag, BagKids, Sound, Leaves, FlattenedAt, Distinct, Holds;
    FlattenedAtProps(e, p);
    Open(k, FlattenedAt(e, p), q);
    SplitStaysSplit(m, e, k, FlattenedAt(e, p), q);
  }

  /** The two walks up the parent links, and the roots. */
  method CheckSwap(layout: PaneLayout, source: NodeId, target: NodeId) returns (ok: bool)
    requires layout.Valid() && source != target
    ensures ok <==> Separate(layout.tree, source, target)
    ensures ok ==> At(layout.tree, source).ctx.In? && At(layout.tree, target).ctx.In?
  {
    hide Plug, Locate, Bag, BagKids, Sound, Leaves, Distinct, Holds, PaneBag, PathIds;
    if source !in layout.nodes || target !in layout.nodes {
      return false;
    }
    ghost var t := layout.tree;
    var above := IsAncestor(layout.nodes, source, target, t);
    var below := IsAncestor(layout.nodes, target, source, t);
    OverlapIsAncestry(t, source, target);
    if above || below {
      return false;
    }
    SwappedProps(t, source, target);
    return true;
  }

  /** Exchange two nodes on a working copy and flatten both levels. */
  method ExchangeNodes(swapped: PaneLayout, source: NodeId, target: NodeId) returns (r: Outcome<bool>)
    requires swapped.Valid()
    modifies swapped
    ensures r == Done(false) <==> source == target
    ensures r == Done(true) <==> source != target && Swappable(old(swapped.tree), source, target)
    ensures r == Done(true) ==> swapped.Valid() && swapped.nextNodeValue == old(swapped.nextNodeValue)
                                && swapped.tree == Swapped(old(swapped.tree), source, target)
  {
    hide Plug, Locate, Bag, BagKids, Sound, Leaves, FlattenedAt, Distinct, Holds, PaneBag, Traded, Exchanged, Collides;
    hide Swapped;
    if source == target {
      RootInside(swapped.tree, source);
      return Done(false);
    }
    var separate := CheckSwap(swapped, source, target);
    if !separate {
      return Rejected;
    }
    var k := ExchangedNodes(swapped.nodes, source, target, swapped.tree);
    if k.Rejected? {
      return Rejected;
    }
    SwappedProps(swapped.tree, source, target);
    swapped.nodes := k.value;
    swapped.tree := Swapped(swapped.tree, source, target);
    return Done(true);
  }

  /** The map after exchanging two separate nodes and flattening their levels. */
  method ExchangedNodes(n: Nodes, source: NodeId, target: NodeId, ghost t: Tree) returns (k: Outcome<Nodes>)
    requires Holds(n, t, None) && Distinct(Bag(t)) && Sound(t, 0) && Separate(t, source, target)
             && forall x :: x in n <==> x in Bag(t)
    requires At(t, source).ctx.In? && At(t, target).ctx.In?
    ensures k.Rejected? <==> Collides(t, source, target)
    ensures k.Done? ==>
              Holds(k.value, Swapped(t, source, target), None)
              && forall x :: x in k.value <==> x in Bag(Swapped(t, source, target))
  {
    hide Plug, Locate, Bag, BagKids, Sound, Leaves, FlattenedAt, Distinct, Holds, Traded, Exchanged, Collides, Swapped;
    Open(n, t, source);
    Open(n, t, target);
    var sourceParent := n[source].parent.value;
    var targetParent := n[target].parent.value;
    var m := ExchangeLinks(n, source, target, sourceParent, targetParent, t);
    TradedKeys(n, m, source, target);
    k := FlattenLevels(m, sourceParent, targetParent, n, t, source, target);
  }

  /** Flatten the two levels whose children were exchanged; the second is missing if the first absorbed it. */
  method FlattenLevels(m: Nodes, sourceParent: NodeId, targetParent: NodeId, ghost n: Nodes, ghost t: Tree,
                       ghost source: NodeId, ghost target: NodeId)
    returns (k: Outcome<Nodes>)
    requires Holds(n, t, None) && Distinct(Bag(t)) && Sound(t, 0) && Separate(t, source, target)
             && Traded(n, m, source, target)
    requires HoleParent(At(t, source).ctx) == Some(sourceParent) && HoleParent(At(t, target).ctx) == Some(targetParent)
    requires forall x :: x in m <==> x in Bag(t)
    ensures k.Rejected? <==> Collides(t, source, target)
    ensures k.Done? ==>
              Holds(k.value, Swapped(t, source, target), None)
              && forall x :: x in k.value <==> x in Bag(Swapped(t, source, target))
  {
    hide Plug, Locate, Bag, BagKids, Sound, Leaves, FlattenedAt, Distinct, Holds, Traded, Exchanged, Collides;
    LevelsAfter(n, m, t, source, target);
    ghost var e := Exchanged(t, source, target);
    var flat := FlattenNode(m, sourceParent, e);
    if targetParent == sourceParent {
      CollideApart(n, t, source, target);
      return Done(flat);
    }
    if targetParent !in flat {
      return Rejected;
    }
    SwappedProps(t, source, target);
    StaysSplit(m, flat, e, sourceParent, targetParent);
    var both := FlattenNode(flat, targetParent, FlattenedAt(e, sourceParent));
    return Done(both);
  }

  lemma {:induction false} TradedKeys(n: Nodes, m: Nodes, a: NodeId, b: NodeId)
    requires Traded(n, m, a, b)
    ensures forall i :: i in m <==> i in n
  {
  }

  lemma {:induction false} RootInside(t: Tree, a: NodeId)
    ensures !Separate(t, a, a)
  {
    if a in Bag(t) {
      RootInBag(At(t, a).tree);
    }
  }

  /** The two walks up the parent links find every overlap. */
  lemma {:induction false} OverlapIsAncestry(t: Tree, a: NodeId, b: NodeId)
    requires Distinct(Bag(t)) && a in Bag(t) && b in Bag(t) && a != b
    ensures Separate(t, a, b) <==> a !in PathIds(At(t, b).ctx) && b !in PathIds(At(t, a).ctx)
  {
    PathIsAncestors(t, a, b);
    PathIsAncestors(t, b, a);
  }

  /** Levels that coincide do not collide. */
  lemma {:induction false} CollideApart(n: Nodes, t: Tree, a: NodeId, b: NodeId)
    requires Holds(n, t, None) && Distinct(Bag(t)) && a in Bag(t) && b in Bag(t)
    requires At(t, a).ctx.In? && At(t, b).ctx.In? && At(t, a).ctx.id == At(t, b).ctx.id
    ensures !Collides(t, a, b)
  {
    hide Plug, Locate, Bag, BagKids, Distinct;
    var l := At(t, b);
    Open(n, t, b);
    FillBag(l.ctx, l.tree);
    PlugUp(l.ctx, l.tree);
    OpenAt(n, l.ctx.up, Fill(l.ctx, l.tree));
  }

  /** Swap two nodes. The work is done on a copy that replaces the layout only when it succeeds. */
  method SwapPaneNodes(layout: PaneLayout, source: NodeId, target: NodeId) returns (r: Outcome<bool>)
    requires layout.Valid()
    modifies layout
    ensures layout.Valid() && layout.nextNodeValue == old(layout.nextNodeValue)
    ensures r == Done(false) <==> source == target
    ensures r == Done(true) <==> source != target && Swappable(old(layout.tree), source, target)
    ensures r == Done(true) ==> layout.tree == Swapped(old(layout.tree), source, target)
    ensures r != Done(true) ==> layout.tree == old(layout.tree) && layout.nodes == old(layout.nodes)
  {
    var swapped := new PaneLayout.Copy(layout);
    r := ExchangeNodes(swapped, source, target);
    if r == Done(true) {
      layout.Assign(swapped);
    }
  }
}
