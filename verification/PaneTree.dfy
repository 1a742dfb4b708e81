/** The layout read as an inductive tree, and one-hole contexts for changing it in one place. */
module PaneTree {
  import opened Wrappers
  import opened Percentages

  type NodeId = nat
  type PaneId = nat

  datatype Axis = LeftToRight | TopToBottom

  function Other(axis: Axis): Axis {
    if axis.LeftToRight? then TopToBottom else LeftToRight
  }

  datatype Tree =
    | Leaf(id: NodeId, pane: PaneId)
    | Split(id: NodeId, axis: Axis, kids: seq<Kid>)

  datatype Kid = Kid(tree: Tree, share: int)

  datatype LeafRef = LeafRef(id: NodeId, pane: PaneId)

  /** A tree with one subtree cut out; the innermost split comes first. */
  datatype Ctx =
    | Top
    | In(up: Ctx, id: NodeId, axis: Axis, left: seq<Kid>, share: int, right: seq<Kid>)

  function Fill(c: Ctx, t: Tree): Tree
    requires c.In?
  {
    Split(c.id, c.axis, c.left + [Kid(t, c.share)] + c.right)
  }

  function Plug(c: Ctx, t: Tree): Tree
    decreases c
  {
    if c.Top? then t else Plug(c.up, Fill(c, t))
  }

  function HoleParent(c: Ctx): Option<NodeId> {
    if c.Top? then None else Some(c.id)
  }

  function Shares(ks: seq<Kid>): (s: seq<int>)
    ensures |s| == |ks|
  {
    seq(|ks|, i requires 0 <= i < |ks| => ks[i].share)
  }

  function Reshare(ks: seq<Kid>, shares: seq<int>): (r: seq<Kid>)
    requires |ks| == |shares|
    ensures |r| == |ks| && Shares(r) == shares
    ensures forall i :: 0 <= i < |r| ==> r[i].tree == ks[i].tree
  {
    seq(|ks|, i requires 0 <= i < |ks| => Kid(ks[i].tree, shares[i]))
  }

  // ----- what is in a tree

  /** How often each node id occurs. */
  ghost function Bag(t: Tree): multiset<NodeId>
    decreases t, 1
  {
    multiset{t.id} + if t.Leaf? then multiset{} else BagKids(t.kids)
  }

  ghost function BagKids(ks: seq<Kid>): multiset<NodeId>
    decreases ks, 0
  {
    if ks == [] then multiset{} else assert (ks decreases to ks[0]); Bag(ks[0].tree) + BagKids(ks[1..])
  }

  ghost function CtxBag(c: Ctx): multiset<NodeId> {
    if c.Top? then multiset{} else CtxBag(c.up) + multiset{c.id} + BagKids(c.left) + BagKids(c.right)
  }

  /** The leaves from left to right. */
  ghost function Leaves(t: Tree): (s: seq<LeafRef>)
    decreases t, 1
  {
    if t.Leaf? then [LeafRef(t.id, t.pane)] else LeavesKids(t.kids)
  }

  ghost function LeavesKids(ks: seq<Kid>): seq<LeafRef>
    decreases ks, 0
  {
    if ks == [] then [] else assert (ks decreases to ks[0]); Leaves(ks[0].tree) + LeavesKids(ks[1..])
  }

  ghost function LeavesBefore(c: Ctx): seq<LeafRef> {
    if c.Top? then [] else LeavesBefore(c.up) + LeavesKids(c.left)
  }

  ghost function LeavesAfter(c: Ctx): seq<LeafRef> {
    if c.Top? then [] else LeavesKids(c.right) + LeavesAfter(c.up)
  }

  ghost predicate Distinct(b: multiset<NodeId>) {
    forall x :: b[x] <= 1
  }

  lemma {:induction false} DistinctUnion(a: multiset<NodeId>, b: multiset<NodeId>)
    ensures Distinct(a + b) <==> Distinct(a) && Distinct(b) && forall x :: !(x in a && x in b)
  {
    if Distinct(a + b) {
      forall x ensures a[x] <= 1 && b[x] <= 1 && !(x in a && x in b) {
        assert (a + b)[x] == a[x] + b[x];
      }
    } else {
      var x :| (a + b)[x] > 1;
    }
  }

  lemma {:induction false} DistinctSub(a: multiset<NodeId>, b: multiset<NodeId>)
    requires a <= b && Distinct(b)
    ensures Distinct(a)
  {
    forall x ensures a[x] <= 1 {
      assert a[x] <= b[x];
    }
  }

  /** Ids after an edit that retires some ids and brings in some new ones. */
  lemma {:induction false} BagDelta(b: multiset<NodeId>, b': multiset<NodeId>, gone: multiset<NodeId>,
                                    added: multiset<NodeId>)
    requires gone + b' == b + added
    requires Distinct(b) && Distinct(added) && forall x :: !(x in b && x in added)
    ensures Distinct(b') && Distinct(gone)
    ensures forall x :: x in b' <==> (x in b || x in added) && x !in gone
  {
    DistinctUnion(b, added);
    DistinctUnion(gone, b');
    forall x ensures x in b' <==> (x in b || x in added) && x !in gone {
      assert (gone + b')[x] == gone[x] + b'[x] && (b + added)[x] == b[x] + added[x];
    }
  }

  /** Every split has at least two children whose shares are percentages adding up to 100.
      The split named slack, if any, may be down to one child. */
  ghost predicate Sound(t: Tree, slack: NodeId)
    decreases t
  {
    t.Split? ==>
      && ShareSum(t.kids)
      && (|t.kids| >= 2 || (t.id == slack && |t.kids| == 1))
      && forall k | k in t.kids :: Sound(k.tree, slack)
  }

  predicate ShareSum(ks: seq<Kid>) {
    NonNegative(Shares(ks)) && Sum(Shares(ks)) == MAX_PERCENTAGE
  }

  ghost predicate SoundCtx(c: Ctx, slack: NodeId)
    decreases c
  {
    c.In? ==>
      && NonNegative(Shares(c.left)) && c.share >= 0 && NonNegative(Shares(c.right))
      && Sum(Shares(c.left)) + c.share + Sum(Shares(c.right)) == MAX_PERCENTAGE
      && (|c.left| + |c.right| >= 1 || c.id == slack)
      && (forall k | k in c.left + c.right :: Sound(k.tree, slack))
      && SoundCtx(c.up, slack)
  }

  /** No split directly contains another split with the same axis. */
  ghost predicate Alternates(t: Tree)
    decreases t
  {
    t.Split? ==> forall k | k in t.kids :: Alternates(k.tree) && Opposite(k.tree, t.axis)
  }

  predicate Opposite(t: Tree, axis: Axis) {
    t.Split? ==> t.axis != axis
  }

  ghost predicate AlternatesCtx(c: Ctx)
    decreases c
  {
    c.In? ==>
      && (forall k | k in c.left + c.right :: Alternates(k.tree) && Opposite(k.tree, c.axis))
      && (c.up.In? ==> c.up.axis != c.axis)
      && AlternatesCtx(c.up)
  }

  ghost predicate Fits(c: Ctx, t: Tree) {
    c.In? ==> Opposite(t, c.axis)
  }

  lemma {:induction false} LeafFacts(t: Tree)
    requires t.Leaf?
    ensures Bag(t) == multiset{t.id} && Leaves(t) == [LeafRef(t.id, t.pane)] && Sound(t, 0) && Alternates(t)
  {
  }

  lemma {:induction false} RootInBag(t: Tree)
    ensures t.id in Bag(t)
  {
  }

  // ----- children side by side

  lemma {:induction false} Assoc<T>(a: seq<T>, b: seq<T>, c: seq<T>)
    ensures a + (b + c) == (a + b) + c
  {
  }

  lemma {:induction false} BagAppend(a: seq<Kid>, b: seq<Kid>)
    ensures BagKids(a + b) == BagKids(a) + BagKids(b)
  {
    if a == [] {
      assert a + b == b;
    } else {
      assert (a + b)[1..] == a[1..] + b;
      BagAppend(a[1..], b);
    }
  }

  lemma {:induction false} LeavesAppend(a: seq<Kid>, b: seq<Kid>)
    ensures LeavesKids(a + b) == LeavesKids(a) + LeavesKids(b)
  {
    if a == [] {
      assert a + b == b;
    } else {
      assert (a + b)[1..] == a[1..] + b;
      LeavesAppend(a[1..], b);
    }
  }

  lemma {:induction false} Regroup<T>(l: seq<T>, a: seq<T>, m: seq<T>, b: seq<T>, r: seq<T>)
    ensures l + (a + m + b) + r == (l + a) + m + (b + r)
  {
  }

  lemma {:induction false} Exchange(a: multiset<NodeId>, b: multiset<NodeId>, c: multiset<NodeId>, d: multiset<NodeId>)
    ensures (a + b) + (c + d) == (a + c) + (b + d)
  {
  }

  lemma {:induction false} KidsCons(k: Kid, rest: seq<Kid>)
    ensures BagKids([k] + rest) == Bag(k.tree) + BagKids(rest)
    ensures LeavesKids([k] + rest) == Leaves(k.tree) + LeavesKids(rest)
    ensures Shares([k] + rest) == [k.share] + Shares(rest)
    ensures Sum(Shares([k] + rest)) == k.share + Sum(Shares(rest))
    ensures NonNegative(Shares([k] + rest)) <==> k.share >= 0 && NonNegative(Shares(rest))
  {
    assert ([k] + rest)[1..] == rest;
    SharesAppend([k], rest);
    assert Shares([k]) == [k.share] && [k.share][0] == k.share;
  }

  lemma {:induction false} SplitNode(id: NodeId, axis: Axis, ks: seq<Kid>)
    ensures Bag(Split(id, axis, ks)) == multiset{id} + BagKids(ks)
    ensures Leaves(Split(id, axis, ks)) == LeavesKids(ks)
  {
  }

  lemma {:induction false} BagMiddle(a: seq<Kid>, k: Kid, b: seq<Kid>)
    ensures BagKids(a + [k] + b) == BagKids(a) + Bag(k.tree) + BagKids(b)
  {
    BagAppend(a + [k], b);
    BagAppend(a, [k]);
    assert [k][1..] == [];
    assert BagKids([k]) == Bag(k.tree) + BagKids([]);
  }

  lemma {:induction false} LeavesMiddle(a: seq<Kid>, k: Kid, b: seq<Kid>)
    ensures LeavesKids(a + [k] + b) == LeavesKids(a) + Leaves(k.tree) + LeavesKids(b)
  {
    LeavesAppend(a + [k], b);
    LeavesAppend(a, [k]);
    assert LeavesKids([k]) == Leaves(k.tree) + LeavesKids([]);
  }

  lemma {:induction false} SharesAppend(a: seq<Kid>, b: seq<Kid>)
    ensures Shares(a + b) == Shares(a) + Shares(b)
    ensures Sum(Shares(a + b)) == Sum(Shares(a)) + Sum(Shares(b))
    ensures NonNegative(Shares(a + b)) <==> NonNegative(Shares(a)) && NonNegative(Shares(b))
  {
    assert Shares(a + b) == Shares(a) + Shares(b);
    SumAppend(Shares(a), Shares(b));
    var s := Shares(a) + Shares(b);
    assert forall i :: 0 <= i < |b| ==> s[|a| + i] == Shares(b)[i];
    assert forall i :: 0 <= i < |a| ==> s[i] == Shares(a)[i];
  }

  lemma {:induction false} SharesMiddle(a: seq<Kid>, k: Kid, b: seq<Kid>)
    ensures Shares(a + [k] + b) == Shares(a) + [k.share] + Shares(b)
    ensures Sum(Shares(a + [k] + b)) == Sum(Shares(a)) + k.share + Sum(Shares(b))
    ensures NonNegative(Shares(a + [k] + b)) <==> NonNegative(Shares(a)) && k.share >= 0 && NonNegative(Shares(b))
  {
    SharesAppend(a + [k], b);
    SharesAppend(a, [k]);
    assert Shares([k]) == [k.share];
    assert [k.share][0] == k.share;
  }

  /** Changing shares changes neither the nodes nor the leaves. */
  lemma {:induction false} SameTrees(a: seq<Kid>, b: seq<Kid>)
    requires |a| == |b| && forall i :: 0 <= i < |a| ==> a[i].tree == b[i].tree
    ensures BagKids(a) == BagKids(b) && LeavesKids(a) == LeavesKids(b)
  {
    if a != [] {
      assert forall i :: 0 <= i < |a[1..]| ==> a[1..][i] == a[i + 1] && b[1..][i] == b[i + 1];
      SameTrees(a[1..], b[1..]);
    }
  }

  lemma {:induction false} KidBag(ks: seq<Kid>, k: Kid)
    requires k in ks
    ensures Bag(k.tree) <= BagKids(ks)
  {
    if k != ks[0] {
      KidBag(ks[1..], k);
    }
  }

  lemma {:induction false} InKids(ks: seq<Kid>, x: NodeId) returns (k: Kid)
    requires x in BagKids(ks)
    ensures k in ks && x in Bag(k.tree)
  {
    if x in Bag(ks[0].tree) {
      k := ks[0];
    } else {
      k := InKids(ks[1..], x);
    }
  }

  // ----- everything is local: a filled context is the context plus the filling

  lemma {:induction false} PlugBag(c: Ctx, t: Tree)
    ensures Bag(Plug(c, t)) == CtxBag(c) + Bag(t)
    decreases c
  {
    if c.In? {
      BagMiddle(c.left, Kid(t, c.share), c.right);
      PlugBag(c.up, Fill(c, t));
    }
  }

  lemma {:induction false} PlugLeaves(c: Ctx, t: Tree)
    ensures Leaves(Plug(c, t)) == LeavesBefore(c) + Leaves(t) + LeavesAfter(c)
    decreases c
  {
    if c.In? {
      LeavesMiddle(c.left, Kid(t, c.share), c.right);
      PlugLeaves(c.up, Fill(c, t));
      Regroup(LeavesBefore(c.up), LeavesKids(c.left), Leaves(t), LeavesKids(c.right), LeavesAfter(c.up));
    }
  }

  lemma {:induction false} PlugSound(c: Ctx, t: Tree, slack: NodeId)
    ensures Sound(Plug(c, t), slack) <==> SoundCtx(c, slack) && Sound(t, slack)
    decreases c
  {
    if c.In? {
      SharesMiddle(c.left, Kid(t, c.share), c.right);
      PlugSound(c.up, Fill(c, t), slack);
      var ks := c.left + [Kid(t, c.share)] + c.right;
      assert forall k :: k in ks <==> k in c.left + c.right || k == Kid(t, c.share);
      if Sound(Fill(c, t), slack) {
        assert Kid(t, c.share) in ks;
      }
    }
  }

  lemma {:induction false} PlugAlternates(c: Ctx, t: Tree)
    ensures Alternates(Plug(c, t)) <==> AlternatesCtx(c) && Alternates(t) && Fits(c, t)
    decreases c
  {
    if c.In? {
      PlugAlternates(c.up, Fill(c, t));
      var ks := c.left + [Kid(t, c.share)] + c.right;
      assert forall k :: k in ks <==> k in c.left + c.right || k == Kid(t, c.share);
      if Alternates(Fill(c, t)) {
        assert Kid(t, c.share) in ks;
      }
    }
  }

  /** A context loses nothing of what fills it. */
  lemma {:induction false} PlugInjective(c: Ctx, s: Tree, t: Tree)
    requires Plug(c, s) == Plug(c, t)
    ensures s == t
    decreases c
  {
    if c.In? {
      PlugInjective(c.up, Fill(c, s), Fill(c, t));
      assert Fill(c, s).kids[|c.left|] == Kid(s, c.share) && Fill(c, t).kids[|c.left|] == Kid(t, c.share);
    }
  }

  // ----- finding a node

  datatype Loc = Loc(ctx: Ctx, tree: Tree)

  ghost function Locate(c: Ctx, t: Tree, id: NodeId): (r: Option<Loc>)
    ensures r.Some? ==> r.value.tree.id == id && Plug(r.value.ctx, r.value.tree) == Plug(c, t)
    ensures r.None? ==> id !in Bag(t)
    decreases t, 1
  {
    if t.id == id then Some(Loc(c, t))
    else if t.Leaf? then None
    else
      assert [] + t.kids == t.kids;
      LocateKids(c, t.id, t.axis, [], t.kids, id)
  }

  ghost function LocateKids(up: Ctx, split: NodeId, axis: Axis, done: seq<Kid>, todo: seq<Kid>,
                            id: NodeId): (r: Option<Loc>)
    ensures r.Some? ==>
              r.value.tree.id == id && Plug(r.value.ctx, r.value.tree) == Plug(up, Split(split, axis, done + todo))
    ensures r.None? ==> id !in BagKids(todo)
    decreases todo, 0
  {
    if todo == [] then None
    else
      assert done + [todo[0]] + todo[1..] == done + todo;
      assert (todo decreases to todo[0]);
      var here := Locate(In(up, split, axis, done, todo[0].share, todo[1..]), todo[0].tree, id);
      if here.Some? then here else LocateKids(up, split, axis, done + [todo[0]], todo[1..], id)
  }

  /** The context and subtree of a node that is in the tree. */
  ghost function At(t: Tree, id: NodeId): (l: Loc)
    requires id in Bag(t)
    ensures Plug(l.ctx, l.tree) == t && l.tree.id == id
  {
    Locate(Top, t, id).value
  }
}
