/** The stored form of a layout: a map from node ids to nodes with parent links, and what it
    means for such a map to hold a tree. */
module PaneNodes {
  import opened Wrappers
  import opened PaneTree

  datatype Child = Child(nodeId: NodeId, percentage: int)

  datatype Contents =
    | LeafContents(pane: PaneId)
    | SplitContents(axis: Axis, children: seq<Child>)

  datatype Node = Node(id: NodeId, parent: Option<NodeId>, contents: Contents) {
    predicate IsLeaf() {
      contents.LeafContents?
    }
  }

  type Nodes = map<NodeId, Node>

  function Links(ks: seq<Kid>): (s: seq<Child>)
    ensures |s| == |ks|
  {
    seq(|ks|, i requires 0 <= i < |ks| => Child(ks[i].tree.id, ks[i].share))
  }

  function NodeOf(t: Tree, parent: Option<NodeId>): Node {
    Node(t.id, parent, if t.Leaf? then LeafContents(t.pane) else SplitContents(t.axis, Links(t.kids)))
  }

  /** The map holds tree t, hanging below parent; both directions of every link agree. */
  ghost predicate Holds(n: Nodes, t: Tree, parent: Option<NodeId>)
    decreases t
  {
    && t.id in n
    && n[t.id] == NodeOf(t, parent)
    && (t.Split? ==> forall k | k in t.kids :: Holds(n, k.tree, Some(t.id)))
  }

  ghost predicate HoldsKids(n: Nodes, ks: seq<Kid>, parent: NodeId) {
    forall k | k in ks :: Holds(n, k.tree, Some(parent))
  }

  /** The map holds a context whose hole is filled by a subtree rooted at hole. */
  ghost predicate HoldsCtx(n: Nodes, c: Ctx, hole: NodeId)
    decreases c
  {
    c.In? ==>
      && c.id in n
      && n[c.id] == Node(c.id, HoleParent(c.up),
                         SplitContents(c.axis, Links(c.left) + [Child(hole, c.share)] + Links(c.right)))
      && HoldsKids(n, c.left, c.id)
      && HoldsKids(n, c.right, c.id)
      && HoldsCtx(n, c.up, c.id)
  }

  ghost predicate SameOn(n: Nodes, m: Nodes, b: multiset<NodeId>) {
    forall x :: x in b && x in n ==> x in m && m[x] == n[x]
  }

  lemma {:induction false} LinksAppend(a: seq<Kid>, b: seq<Kid>)
    ensures Links(a + b) == Links(a) + Links(b)
  {
  }

  lemma {:induction false} LinksMiddle(a: seq<Kid>, k: Kid, b: seq<Kid>)
    ensures Links(a + [k] + b) == Links(a) + [Child(k.tree.id, k.share)] + Links(b)
  {
  }

  // ----- local reasoning

  lemma {:induction false} HoldsFrame(n: Nodes, m: Nodes, t: Tree, parent: Option<NodeId>)
    requires Holds(n, t, parent) && SameOn(n, m, Bag(t))
    ensures Holds(m, t, parent)
    decreases t
  {
    if t.Split? {
      HoldsKidsFrame(n, m, t.kids, t.id);
    }
  }

  lemma {:induction false} HoldsKidsFrame(n: Nodes, m: Nodes, ks: seq<Kid>, parent: NodeId)
    requires HoldsKids(n, ks, parent) && SameOn(n, m, BagKids(ks))
    ensures HoldsKids(m, ks, parent)
    decreases ks
  {
    forall k | k in ks ensures Holds(m, k.tree, Some(parent)) {
      KidBag(ks, k);
      assert (ks decreases to k);
      HoldsFrame(n, m, k.tree, Some(parent));
    }
  }

  lemma {:induction false} HoldsCtxFrame(n: Nodes, m: Nodes, c: Ctx, hole: NodeId)
    requires HoldsCtx(n, c, hole) && SameOn(n, m, CtxBag(c))
    ensures HoldsCtx(m, c, hole)
    decreases c
  {
    if c.In? {
      HoldsKidsFrame(n, m, c.left, c.id);
      HoldsKidsFrame(n, m, c.right, c.id);
      HoldsCtxFrame(n, m, c.up, c.id);
    }
  }

  /** A map holds a filled context exactly when it holds the context and the filling. */
  lemma {:induction false} HoldsPlug(n: Nodes, c: Ctx, t: Tree)
    ensures Holds(n, Plug(c, t), None) <==> HoldsCtx(n, c, t.id) && Holds(n, t, HoleParent(c))
    decreases c
  {
    if c.In? {
      HoldsPlug(n, c.up, Fill(c, t));
      LinksMiddle(c.left, Kid(t, c.share), c.right);
      var ks := c.left + [Kid(t, c.share)] + c.right;
      assert forall k :: k in ks <==> k in c.left || k in c.right || k == Kid(t, c.share);
      if Holds(n, Fill(c, t), HoleParent(c.up)) {
        assert Kid(t, c.share) in ks;
        assert HoldsKids(n, ks, c.id);
      }
    }
  }

  lemma {:induction false} HoldsIds(n: Nodes, t: Tree, parent: Option<NodeId>)
    requires Holds(n, t, parent)
    ensures forall x :: x in Bag(t) ==> x in n
    decreases t
  {
    forall x | x in Bag(t) ensures x in n {
      if x != t.id {
        var k := InKids(t.kids, x);
        HoldsIds(n, k.tree, Some(t.id));
      }
    }
  }

  /** A map holds at most one tree below a given id. */
  lemma {:induction false} HoldsUnique(n: Nodes, s: Tree, p: Option<NodeId>, t: Tree, q: Option<NodeId>)
    requires Holds(n, s, p) && Holds(n, t, q) && s.id == t.id
    ensures s == t && p == q
    decreases s
  {
    if s.Split? {
      assert Links(s.kids) == Links(t.kids);
      forall i | 0 <= i < |s.kids| ensures s.kids[i] == t.kids[i] {
        assert Links(s.kids)[i] == Links(t.kids)[i];
        assert s.kids[i] in s.kids && t.kids[i] in t.kids;
        HoldsUnique(n, s.kids[i].tree, Some(s.id), t.kids[i].tree, Some(t.id));
      }
    }
  }

  // ----- rewriting parent links

  /** Every node listed in ids now hangs below parent. */
  function Reparented(n: Nodes, ids: seq<NodeId>, parent: Option<NodeId>): Nodes {
    map x | x in n :: if x in ids then n[x].(parent := parent) else n[x]
  }

  function Ids(ks: seq<Kid>): (s: seq<NodeId>)
    ensures |s| == |ks|
  {
    seq(|ks|, i requires 0 <= i < |ks| => ks[i].tree.id)
  }

  lemma {:induction false} HoldsReparent(n: Nodes, m: Nodes, t: Tree, p: Option<NodeId>, q: Option<NodeId>)
    requires Holds(n, t, p) && Distinct(Bag(t))
    requires t.id in m && m[t.id] == n[t.id].(parent := q)
    requires forall x :: x in Bag(t) && x != t.id && x in n ==> x in m && m[x] == n[x]
    ensures Holds(m, t, q)
  {
    if t.Split? {
      DistinctUnion(multiset{t.id}, BagKids(t.kids));
      HoldsKidsFrame(n, m, t.kids, t.id);
    }
  }

  lemma {:induction false} IdsInBag(ks: seq<Kid>)
    ensures forall x :: x in Ids(ks) ==> x in BagKids(ks)
  {
    forall x | x in Ids(ks) ensures x in BagKids(ks) {
      var i :| 0 <= i < |ks| && Ids(ks)[i] == x;
      KidBag(ks, ks[i]);
    }
  }

  /** Subtrees at different places of a list of disjoint subtrees share no node. */
  lemma {:induction false} KidsApart(ks: seq<Kid>, i: nat, j: nat)
    requires Distinct(BagKids(ks)) && i < j < |ks|
    ensures forall x :: !(x in Bag(ks[i].tree) && x in Bag(ks[j].tree))
  {
    assert ks == ks[..j] + ks[j..];
    BagAppend(ks[..j], ks[j..]);
    DistinctUnion(BagKids(ks[..j]), BagKids(ks[j..]));
    assert ks[i] == ks[..j][i] && ks[j] == ks[j..][0];
    KidBag(ks[..j], ks[i]);
    KidBag(ks[j..], ks[j]);
  }

  lemma {:induction false} RootsApart(ks: seq<Kid>, i: nat, j: nat)
    requires Distinct(BagKids(ks)) && i < |ks| && j < |ks|
    requires ks[j].tree.id in Bag(ks[i].tree)
    ensures i == j
  {
    if i < j {
      KidsApart(ks, i, j);
    } else if j < i {
      KidsApart(ks, j, i);
    }
  }

  lemma {:induction false} DistinctIds(ks: seq<Kid>, i: nat, j: nat)
    requires Distinct(BagKids(ks)) && i < |ks| && j < |ks| && ks[i].tree.id == ks[j].tree.id
    ensures i == j
  {
    assert ks[j].tree.id in Bag(ks[i].tree);
    RootsApart(ks, i, j);
  }

  /** Moving a whole list of subtrees below a new parent. */
  lemma {:induction false} HoldsKidsReparent(n: Nodes, m: Nodes, ks: seq<Kid>, p: Option<NodeId>, q: NodeId)
    requires forall k | k in ks :: Holds(n, k.tree, p)
    requires Distinct(BagKids(ks))
    requires forall x :: x in BagKids(ks) && x in n ==>
               x in m && m[x] == if x in Ids(ks) then n[x].(parent := Some(q)) else n[x]
    ensures HoldsKids(m, ks, q)
  {
    IdsInBag(ks);
    forall k | k in ks ensures Holds(m, k.tree, Some(q)) {
      var i :| 0 <= i < |ks| && ks[i] == k;
      assert Ids(ks)[i] == k.tree.id;
      KidBag(ks, k);
      DistinctSub(Bag(k.tree), BagKids(ks));
      forall x | x in Bag(k.tree) && x != k.tree.id && x in n ensures x in m && m[x] == n[x] {
        if x in Ids(ks) {
          var j :| 0 <= j < |ks| && Ids(ks)[j] == x;
          RootsApart(ks, i, j);
        }
      }
      HoldsReparent(n, m, k.tree, p, Some(q));
    }
  }

  // ----- a node occurs at one place only

  function IndexOf(cs: seq<Child>, id: NodeId): (i: nat)
    ensures i <= |cs|
    ensures forall j :: 0 <= j < i ==> cs[j].nodeId != id
    ensures i < |cs| ==> cs[i].nodeId == id
  {
    if cs == [] || cs[0].nodeId == id then 0 else 1 + IndexOf(cs[1..], id)
  }

  /** The hole's link is found right behind the links of the children to its left. */
  lemma {:induction false} HoleIndex(left: seq<Kid>, hole: Child, right: seq<Kid>)
    requires hole.nodeId !in BagKids(left)
    ensures IndexOf(Links(left) + [hole] + Links(right), hole.nodeId) == |left|
  {
    var all := Links(left) + [hole] + Links(right);
    IdsInBag(left);
    forall j | 0 <= j < |left| ensures all[j].nodeId != hole.nodeId {
      assert Ids(left)[j] == all[j].nodeId;
      assert Ids(left)[j] in Ids(left);
    }
    assert all[|left|] == hole;
    var i := IndexOf(all, hole.nodeId);
    assert i == |left|;
  }

  lemma {:induction false} HoldsKidsUnique(n: Nodes, a: seq<Kid>, b: seq<Kid>, parent: NodeId)
    requires HoldsKids(n, a, parent) && HoldsKids(n, b, parent) && Links(a) == Links(b)
    ensures a == b
  {
    forall i | 0 <= i < |a| ensures a[i] == b[i] {
      assert Links(a)[i] == Links(b)[i];
      assert a[i] in a && b[i] in b;
      HoldsUnique(n, a[i].tree, Some(parent), b[i].tree, Some(parent));
    }
  }

  /** A node linked from inside a subtree is inside it and names the linking node as its parent. */
  lemma {:induction false} LinkInside(n: Nodes, s: Tree, p: Option<NodeId>, i: NodeId, k: nat)
    requires Holds(n, s, p) && i in Bag(s) && i in n && !n[i].IsLeaf() && k < |n[i].contents.children|
    ensures var j := n[i].contents.children[k].nodeId;
            j in Bag(s) && j in n && n[j].parent == Some(i)
    decreases s
  {
    if i == s.id {
      assert s.kids[k] in s.kids;
      KidBag(s.kids, s.kids[k]);
      RootInBag(s.kids[k].tree);
    } else {
      var kid := InKids(s.kids, i);
      LinkInside(n, kid.tree, Some(s.id), i, k);
      KidBag(s.kids, kid);
    }
  }

  /** The split above a node, and the node's place in it, can be read off the map. */
  lemma {:induction false} FrameUnique(n: Nodes, c: Ctx, d: Ctx, t: Tree)
    requires HoldsCtx(n, c, t.id) && HoldsCtx(n, d, t.id) && c.In? && d.In? && c.id == d.id
    requires t.id !in BagKids(c.left) && t.id !in BagKids(d.left)
    ensures c.axis == d.axis && c.left == d.left && c.share == d.share && c.right == d.right
    ensures HoleParent(c.up) == HoleParent(d.up)
  {
    hide BagKids, Bag, Holds;
    HoleIndex(c.left, Child(t.id, c.share), c.right);
    HoleIndex(d.left, Child(t.id, d.share), d.right);
    var lc, ld := Links(c.left), Links(d.left);
    var all := lc + [Child(t.id, c.share)] + Links(c.right);
    assert all == ld + [Child(t.id, d.share)] + Links(d.right);
    assert lc == all[..|c.left|] && ld == all[..|d.left|];
    assert Links(c.right) == all[|c.left| + 1..] && Links(d.right) == all[|c.left| + 1..];
    assert all[|c.left|] == Child(t.id, c.share) && all[|c.left|] == Child(t.id, d.share);
    HoldsKidsUnique(n, c.left, d.left, c.id);
    HoldsKidsUnique(n, c.right, d.right, c.id);
  }

  lemma {:induction false} CtxUnique(n: Nodes, c: Ctx, d: Ctx, t: Tree)
    requires HoldsCtx(n, c, t.id) && HoldsCtx(n, d, t.id)
    requires Holds(n, t, HoleParent(c)) && Holds(n, t, HoleParent(d))
    requires Distinct(CtxBag(c) + Bag(t)) && Distinct(CtxBag(d) + Bag(t))
    ensures c == d
    decreases c
  {
    if c.In? {
      hide BagKids;
      DistinctUnion(CtxBag(c), Bag(t));
      DistinctUnion(CtxBag(d), Bag(t));
      assert t.id in Bag(t);
      FrameUnique(n, c, d, t);
      FillHolds(n, c, t);
      FillHolds(n, d, t);
      FillBag(c, t);
      FillBag(d, t);
      CtxUnique(n, c.up, d.up, Fill(c, t));
    }
  }

  lemma {:induction false} FillHolds(n: Nodes, c: Ctx, t: Tree)
    requires c.In? && HoldsCtx(n, c, t.id) && Holds(n, t, HoleParent(c))
    ensures Holds(n, Fill(c, t), HoleParent(c.up))
  {
    LinksMiddle(c.left, Kid(t, c.share), c.right);
    assert forall k :: k in Fill(c, t).kids <==> k in c.left || k in c.right || k == Kid(t, c.share);
  }

  lemma {:induction false} FillBag(c: Ctx, t: Tree)
    requires c.In?
    ensures CtxBag(c.up) + Bag(Fill(c, t)) == CtxBag(c) + Bag(t)
  {
    BagMiddle(c.left, Kid(t, c.share), c.right);
  }

  /** Every tree without repeated ids is held by some map. */
  lemma {:induction false} Stored(t: Tree, parent: Option<NodeId>) returns (n: Nodes)
    requires Distinct(Bag(t))
    ensures Holds(n, t, parent) && forall x :: x in n ==> x in Bag(t)
    decreases t, 1
  {
    if t.Leaf? {
      n := map[t.id := NodeOf(t, parent)];
    } else {
      DistinctUnion(multiset{t.id}, BagKids(t.kids));
      var m := StoredKids(t.kids, t.id);
      n := m[t.id := NodeOf(t, parent)];
      HoldsKidsFrame(m, n, t.kids, t.id);
    }
  }

  lemma {:induction false} StoredKids(ks: seq<Kid>, parent: NodeId) returns (n: Nodes)
    requires Distinct(BagKids(ks))
    ensures HoldsKids(n, ks, parent) && forall x :: x in n ==> x in BagKids(ks)
    decreases ks, 0
  {
    if ks == [] {
      n := map[];
    } else {
      DistinctUnion(Bag(ks[0].tree), BagKids(ks[1..]));
      assert (ks decreases to ks[0]);
      var a := Stored(ks[0].tree, Some(parent));
      var b := StoredKids(ks[1..], parent);
      n := a + b;
      HoldsFrame(a, n, ks[0].tree, Some(parent));
      HoldsKidsFrame(b, n, ks[1..], parent);
    }
  }

  /** Looking a node up finds the very context and subtree it was put in. */
  lemma {:induction false} AtPlug(c: Ctx, t: Tree)
    requires Distinct(Bag(Plug(c, t)))
    ensures t.id in Bag(Plug(c, t))
    ensures At(Plug(c, t), t.id) == Loc(c, t)
  {
    PlugBag(c, t);
    var n := Stored(Plug(c, t), None);
    var l := At(Plug(c, t), t.id);
    PlugBag(l.ctx, l.tree);
    HoldsPlug(n, c, t);
    HoldsPlug(n, l.ctx, l.tree);
    HoldsUnique(n, t, HoleParent(c), l.tree, HoleParent(l.ctx));
    CtxUnique(n, c, l.ctx, t);
  }
}
