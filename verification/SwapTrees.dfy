/** Exchanging two subtrees that do not overlap. */
module SwapTrees {
  import opened PaneTree
  import opened LayoutMaps
  import opened MoveTrees
  import opened MoveMaps

  /** A tree with two holes: the paths to them part ways at one split. */
  datatype Fork = Fork(top: Ctx, id: NodeId, axis: Axis,
                       before: seq<Kid>, first: Ctx, firstShare: int,
                       between: seq<Kid>, second: Ctx, secondShare: int, after: seq<Kid>)

  function Filled(f: Fork, x: Tree, y: Tree): Tree {
    Plug(f.top, Split(f.id, f.axis,
                      f.before + [Kid(Plug(f.first, x), f.firstShare)] + f.between
                      + [Kid(Plug(f.second, y), f.secondShare)] + f.after))
  }

  /** The context of the first hole when y fills the second, and the other way round. */
  function FirstCtx(f: Fork, y: Tree): Ctx {
    Compose(In(f.top, f.id, f.axis, f.before, f.firstShare,
               f.between + [Kid(Plug(f.second, y), f.secondShare)] + f.after), f.first)
  }

  function SecondCtx(f: Fork, x: Tree): Ctx {
    Compose(In(f.top, f.id, f.axis, f.before + [Kid(Plug(f.first, x), f.firstShare)] + f.between, f.secondShare,
               f.after), f.second)
  }

  lemma {:induction false} FilledIsPlug(f: Fork, x: Tree, y: Tree)
    ensures Filled(f, x, y) == Plug(FirstCtx(f, y), x) == Plug(SecondCtx(f, x), y)
  {
    var px, py := Kid(Plug(f.first, x), f.firstShare), Kid(Plug(f.second, y), f.secondShare);
    ComposePlug(In(f.top, f.id, f.axis, f.before, f.firstShare, f.between + [py] + f.after), f.first, x);
    ComposePlug(In(f.top, f.id, f.axis, f.before + [px] + f.between, f.secondShare, f.after), f.second, y);
    assert f.before + [px] + (f.between + [py] + f.after) == f.before + [px] + f.between + [py] + f.after;
  }

  /** The leaves outside the two holes. */
  ghost function LeavesA(f: Fork): seq<LeafRef> {
    LeavesBefore(f.top) + LeavesKids(f.before) + LeavesBefore(f.first)
  }

  ghost function LeavesB(f: Fork): seq<LeafRef> {
    LeavesAfter(f.first) + LeavesKids(f.between) + LeavesBefore(f.second)
  }

  ghost function LeavesC(f: Fork): seq<LeafRef> {
    LeavesAfter(f.second) + LeavesKids(f.after) + LeavesAfter(f.top)
  }

  lemma {:induction false} FilledLeaves(f: Fork, x: Tree, y: Tree)
    ensures Leaves(Filled(f, x, y)) == LeavesA(f) + Leaves(x) + LeavesB(f) + Leaves(y) + LeavesC(f)
  {
    hide Plug, Leaves, LeavesKids, LeavesBefore, LeavesAfter;
    var px, py := Kid(Plug(f.first, x), f.firstShare), Kid(Plug(f.second, y), f.secondShare);
    var ks := f.before + [px] + f.between + [py] + f.after;
    PlugLeaves(f.top, Split(f.id, f.axis, ks));
    SplitNode(f.id, f.axis, ks);
    PlugLeaves(f.first, x);
    PlugLeaves(f.second, y);
    LeavesMiddle(f.before + [px] + f.between, py, f.after);
    LeavesMiddle(f.before, px, f.between);
    Spread(LeavesBefore(f.top), LeavesKids(f.before), LeavesBefore(f.first), Leaves(x), LeavesAfter(f.first),
           LeavesKids(f.between),
           LeavesBefore(f.second), Leaves(y), LeavesAfter(f.second), LeavesKids(f.after), LeavesAfter(f.top));
  }

  lemma {:induction false} Spread(t: seq<LeafRef>, a: seq<LeafRef>, b: seq<LeafRef>, x: seq<LeafRef>, c: seq<LeafRef>,
                                  d: seq<LeafRef>,
                                  e: seq<LeafRef>, y: seq<LeafRef>, g: seq<LeafRef>, h: seq<LeafRef>, i: seq<LeafRef>)
    ensures t + (a + (b + x + c) + d + (e + y + g) + h) + i == (t + a + b) + x + (c + d + e) + y + (g + h + i)
  {
    var l, r := t + (a + (b + x + c) + d + (e + y + g) + h) + i, (t + a + b) + x + (c + d + e) + y + (g + h + i);
    assert l == t + a + b + x + c + d + e + y + g + h + i;
    assert r == t + a + b + x + c + d + e + y + g + h + i;
  }

  /** The nodes outside the two holes. */
  ghost function ForkBag(f: Fork): multiset<NodeId> {
    CtxBag(f.top) + multiset{f.id} + BagKids(f.before) + CtxBag(f.first) + BagKids(f.between) + CtxBag(f.second)
    + BagKids(f.after)
  }

  lemma {:induction false} FilledBag(f: Fork, x: Tree, y: Tree)
    ensures Bag(Filled(f, x, y)) == ForkBag(f) + (Bag(x) + Bag(y))
  {
    hide Plug, Bag, BagKids, CtxBag;
    var px, py := Kid(Plug(f.first, x), f.firstShare), Kid(Plug(f.second, y), f.secondShare);
    var ks := f.before + [px] + f.between + [py] + f.after;
    PlugBag(f.top, Split(f.id, f.axis, ks));
    SplitNode(f.id, f.axis, ks);
    PlugBag(f.first, x);
    PlugBag(f.second, y);
    BagMiddle(f.before + [px] + f.between, py, f.after);
    BagMiddle(f.before, px, f.between);
    Gather(CtxBag(f.top), multiset{f.id}, BagKids(f.before), CtxBag(f.first), Bag(x), BagKids(f.between),
           CtxBag(f.second), Bag(y), BagKids(f.after));
  }

  lemma {:induction false} Gather(t: multiset<NodeId>, i: multiset<NodeId>, a: multiset<NodeId>, b: multiset<NodeId>,
                                  x: multiset<NodeId>,
                                  c: multiset<NodeId>, d: multiset<NodeId>, y: multiset<NodeId>, e: multiset<NodeId>)
    ensures t + (i + (a + (b + x) + c + (d + y) + e)) == t + i + a + b + c + d + e + (x + y)
  {
  }

  // ----- finding the fork

  ghost predicate IsFork(t: Tree, a: NodeId, b: NodeId, f: Fork, x: Tree, y: Tree) {
    t == Filled(f, x, y) && ((x.id == a && y.id == b) || (x.id == b && y.id == a))
  }

  /** Neither node is, contains or is contained in the other. */
  ghost predicate Separate(t: Tree, a: NodeId, b: NodeId) {
    a in Bag(t) && b in Bag(t) && b !in Bag(At(t, a).tree) && a !in Bag(At(t, b).tree)
  }

  ghost predicate NoOverlap(t: Tree, a: NodeId, b: NodeId) {
    forall s :: Within(s, t) ==> !(s.id == a && b in Bag(s)) && !(s.id == b && a in Bag(s))
  }

  lemma {:induction false} SeparateNoOverlap(t: Tree, a: NodeId, b: NodeId)
    requires Separate(t, a, b) && Distinct(Bag(t))
    ensures NoOverlap(t, a, b)
  {
    forall s | Within(s, t) ensures !(s.id == a && b in Bag(s)) && !(s.id == b && a in Bag(s)) {
      WithinAt(s, t);
    }
  }

  /** Two nodes of which neither contains the other sit below different children of some split. */
  lemma {:induction false} FindFork(t: Tree, a: NodeId, b: NodeId, top: Ctx) returns (f: Fork, x: Tree, y: Tree)
    requires a in Bag(t) && b in Bag(t) && NoOverlap(t, a, b)
    ensures IsFork(Plug(top, t), a, b, f, x, y) && Within(x, t) && Within(y, t)
    decreases t
  {
    hide Plug, Filled, Within, IsFork;
    NotHere(t, a, b);
    assert t.Split? && t.id != a && t.id != b;
    var k := InKids(t.kids, a);
    var l := InKids(t.kids, b);
    var i :| 0 <= i < |t.kids| && t.kids[i] == k;
    var j :| 0 <= j < |t.kids| && t.kids[j] == l;
    if i == j {
      OverlapBelow(t, k, a, b);
      f, x, y := FindFork(k.tree, a, b, In(top, t.id, t.axis, t.kids[..i], k.share, t.kids[i + 1..]));
      ForkBelow(t, i, top);
      assert Within(x, t) && Within(y, t) by {
        WithinBelow(x, k, t);
        WithinBelow(y, k, t);
      }
    } else {
      f, x, y := ForkHere(t, a, b, top, if i < j then i else j, if i < j then j else i, i < j);
    }
  }

  lemma {:induction false} NotHere(t: Tree, a: NodeId, b: NodeId)
    requires a in Bag(t) && b in Bag(t) && NoOverlap(t, a, b)
    ensures t.id != a && t.id != b && t.Split? && a in BagKids(t.kids) && b in BagKids(t.kids)
  {
    assert Within(t, t);
  }

  lemma {:induction false} WithinBelow(s: Tree, k: Kid, t: Tree)
    requires t.Split? && k in t.kids && Within(s, k.tree)
    ensures Within(s, t)
  {
  }

  lemma {:induction false} OverlapBelow(t: Tree, k: Kid, a: NodeId, b: NodeId)
    requires NoOverlap(t, a, b) && t.Split? && k in t.kids
    ensures NoOverlap(k.tree, a, b)
  {
    hide Bag;
    forall s | Within(s, k.tree) ensures !(s.id == a && b in Bag(s)) && !(s.id == b && a in Bag(s)) {
      WithinBelow(s, k, t);
    }
  }

  lemma {:induction false} ForkBelow(t: Tree, i: nat, top: Ctx)
    requires t.Split? && i < |t.kids|
    ensures Plug(In(top, t.id, t.axis, t.kids[..i], t.kids[i].share, t.kids[i + 1..]), t.kids[i].tree) == Plug(top, t)
  {
    assert t.kids == t.kids[..i] + [Kid(t.kids[i].tree, t.kids[i].share)] + t.kids[i + 1..];
  }

  lemma {:induction false} ForkHere(t: Tree, a: NodeId, b: NodeId, top: Ctx, i: nat, j: nat, inOrder: bool)
    returns (f: Fork, x: Tree, y: Tree)
    requires t.Split? && i < j < |t.kids|
    requires if inOrder then a in Bag(t.kids[i].tree) && b in Bag(t.kids[j].tree)
             else b in Bag(t.kids[i].tree) && a in Bag(t.kids[j].tree)
    ensures IsFork(Plug(top, t), a, b, f, x, y) && Within(x, t) && Within(y, t)
  {
    hide Bag;
    var k, l := t.kids[i], t.kids[j];
    var p, q := At(k.tree, if inOrder then a else b), At(l.tree, if inOrder then b else a);
    f := Fork(top, t.id, t.axis, t.kids[..i], p.ctx, k.share, t.kids[i + 1..j], q.ctx, l.share, t.kids[j + 1..]);
    x, y := p.tree, q.tree;
    assert t.kids == t.kids[..i] + [k] + t.kids[i + 1..j] + [l] + t.kids[j + 1..];
    AtWithin(k.tree, x.id);
    AtWithin(l.tree, y.id);
    assert k in t.kids && l in t.kids;
  }

  // ----- the exchange itself

  /** The tree with y in place of node a and x in place of node b. */
  function Replaced(t: Tree, a: NodeId, y: Tree, b: NodeId, x: Tree): Tree
    decreases t
  {
    if t.id == a then y
    else if t.id == b then x
    else if t.Leaf? then t
    else Split(t.id, t.axis,
               seq(|t.kids|,
                   i requires 0 <= i < |t.kids| => Kid(Replaced(t.kids[i].tree, a, y, b, x), t.kids[i].share)))
  }

  function ReplacedKids(ks: seq<Kid>, a: NodeId, y: Tree, b: NodeId, x: Tree): (r: seq<Kid>)
    ensures |r| == |ks|
    ensures forall i :: 0 <= i < |r| ==> r[i] == Kid(Replaced(ks[i].tree, a, y, b, x), ks[i].share)
  {
    seq(|ks|, i requires 0 <= i < |ks| => Kid(Replaced(ks[i].tree, a, y, b, x), ks[i].share))
  }

  lemma {:induction false} ReplacedUnfold(t: Tree, a: NodeId, y: Tree, b: NodeId, x: Tree)
    requires t.Split? && t.id != a && t.id != b
    ensures Replaced(t, a, y, b, x) == Split(t.id, t.axis, ReplacedKids(t.kids, a, y, b, x))
  {
  }

  ghost function Exchanged(t: Tree, a: NodeId, b: NodeId): Tree
    requires a in Bag(t) && b in Bag(t)
  {
    Replaced(t, a, At(t, b).tree, b, At(t, a).tree)
  }

  lemma {:induction false} ReplacedSame(t: Tree, a: NodeId, y: Tree, b: NodeId, x: Tree)
    requires a !in Bag(t) && b !in Bag(t)
    ensures Replaced(t, a, y, b, x) == t
    decreases t, 1
  {
    if t.Split? {
      ReplacedSameKids(t.kids, a, y, b, x);
    }
  }

  lemma {:induction false} ReplacedSameKids(ks: seq<Kid>, a: NodeId, y: Tree, b: NodeId, x: Tree)
    requires a !in BagKids(ks) && b !in BagKids(ks)
    ensures ReplacedKids(ks, a, y, b, x) == ks
    decreases ks, 0
  {
    forall i | 0 <= i < |ks| ensures Replaced(ks[i].tree, a, y, b, x) == ks[i].tree {
      KidBag(ks, ks[i]);
      assert (ks decreases to ks[i]);
      ReplacedSame(ks[i].tree, a, y, b, x);
    }
  }

  /** The exchange passes through a context without the two nodes. */
  lemma {:induction false} ReplacedPlug(c: Ctx, t: Tree, a: NodeId, y: Tree, b: NodeId, x: Tree)
    requires a !in CtxBag(c) && b !in CtxBag(c)
    ensures Replaced(Plug(c, t), a, y, b, x) == Plug(c, Replaced(t, a, y, b, x))
    decreases c
  {
    if c.In? {
      hide Replaced, ReplacedKids, BagKids, CtxBag;
      CtxBagIn(c);
      ReplacedPlug(c.up, Fill(c, t), a, y, b, x);
      ReplacedUnfold(Fill(c, t), a, y, b, x);
      ReplacedSameKids(c.left, a, y, b, x);
      ReplacedSameKids(c.right, a, y, b, x);
      var k := Kid(t, c.share);
      ReplacedAppend(c.left + [k], c.right, a, y, b, x);
      ReplacedAppend(c.left, [k], a, y, b, x);
      ReplacedOne(k, a, y, b, x);
    }
  }

  lemma {:induction false} ReplacedOne(k: Kid, a: NodeId, y: Tree, b: NodeId, x: Tree)
    ensures ReplacedKids([k], a, y, b, x) == [Kid(Replaced(k.tree, a, y, b, x), k.share)]
  {
    hide Replaced;
  }

  lemma {:induction false} ReplacedAppend(k: seq<Kid>, l: seq<Kid>, a: NodeId, y: Tree, b: NodeId, x: Tree)
    ensures ReplacedKids(k + l, a, y, b, x) == ReplacedKids(k, a, y, b, x) + ReplacedKids(l, a, y, b, x)
  {
  }

  /** Exchanging the fillings of a fork. */
  lemma {:induction false} ReplacedFork(f: Fork, x: Tree, y: Tree)
    requires Distinct(Bag(Filled(f, x, y)))
    ensures Replaced(Filled(f, x, y), x.id, y, y.id, x) == Filled(f, y, x)
  {
    hide Plug, Bag, BagKids, CtxBag;
    FilledBag(f, x, y);
    DistinctUnion(ForkBag(f), Bag(x) + Bag(y));
    assert x.id in Bag(x) && y.id in Bag(y) by {
      RootInBag(x);
      RootInBag(y);
    }
    assert x.id in Bag(x) + Bag(y) && y.id in Bag(x) + Bag(y);
    assert x.id !in ForkBag(f) && y.id !in ForkBag(f);
    DistinctUnion(Bag(x), Bag(y));
    var px, py := Kid(Plug(f.first, x), f.firstShare), Kid(Plug(f.second, y), f.secondShare);
    var ks := f.before + [px] + f.between + [py] + f.after;
    ReplacedPlug(f.top, Split(f.id, f.axis, ks), x.id, y, y.id, x);
    ReplacedPlug(f.first, x, x.id, y, y.id, x);
    ReplacedPlug(f.second, y, x.id, y, y.id, x);
    ReplacedSameKids(f.before, x.id, y, y.id, x);
    ReplacedSameKids(f.between, x.id, y, y.id, x);
    ReplacedSameKids(f.after, x.id, y, y.id, x);
    var qx, qy := Kid(Plug(f.first, y), f.firstShare), Kid(Plug(f.second, x), f.secondShare);
    assert ReplacedKids(ks, x.id, y, y.id, x) == f.before + [qx] + f.between + [qy] + f.after by {
      ReplacedAppend(f.before + [px] + f.between + [py], f.after, x.id, y, y.id, x);
      ReplacedAppend(f.before + [px] + f.between, [py], x.id, y, y.id, x);
      ReplacedAppend(f.before + [px], f.between, x.id, y, y.id, x);
      ReplacedAppend(f.before, [px], x.id, y, y.id, x);
      assert ReplacedKids([px], x.id, y, y.id, x) == [qx];
      assert ReplacedKids([py], x.id, y, y.id, x) == [qy];
    }
  }

  /** Which trees an exchange swaps does not depend on the order they are named in. */
  lemma {:induction false} ReplacedOrder(t: Tree, a: NodeId, y: Tree, b: NodeId, x: Tree)
    requires a != b
    ensures Replaced(t, a, y, b, x) == Replaced(t, b, x, a, y)
    decreases t
  {
    if t.Split? {
      forall i | 0 <= i < |t.kids|
        ensures Replaced(t.kids[i].tree, a, y, b, x) == Replaced(t.kids[i].tree, b, x, a, y) {
        ReplacedOrder(t.kids[i].tree, a, y, b, x);
      }
      assert ReplacedKids(t.kids, a, y, b, x) == ReplacedKids(t.kids, b, x, a, y);
    }
  }

  /** Exchanging two separate subtrees fills the two holes of a fork the other way round. */
  lemma {:induction false} ExchangeFork(t: Tree, a: NodeId, b: NodeId) returns (f: Fork, x: Tree, y: Tree)
    requires Separate(t, a, b) && Distinct(Bag(t))
    ensures t == Filled(f, x, y) && Exchanged(t, a, b) == Filled(f, y, x)
    ensures (x == At(t, a).tree && y == At(t, b).tree) || (x == At(t, b).tree && y == At(t, a).tree)
  {
    hide Filled, Locate, Bag, Replaced, Distinct;
    SeparateNoOverlap(t, a, b);
    f, x, y := FindFork(t, a, b, Top);
    assert Plug(Top, t) == t;
    WithinAt(x, t);
    WithinAt(y, t);
    ReplacedFork(f, x, y);
    assert a != b by {
      RootInBag(At(t, a).tree);
    }
    ReplacedOrder(t, a, At(t, b).tree, b, At(t, a).tree);
  }

  /** The two blocks of leaves trade places and nothing else moves. */
  ghost predicate BlocksExchanged(before: seq<LeafRef>, after: seq<LeafRef>, one: seq<LeafRef>, two: seq<LeafRef>) {
    exists a, b, c :: before == a + one + b + two + c && after == a + two + b + one + c
  }

  lemma {:induction false} ExchangedProps(t: Tree, a: NodeId, b: NodeId)
    requires Separate(t, a, b) && Distinct(Bag(t)) && Sound(t, 0)
    ensures Bag(Exchanged(t, a, b)) == Bag(t) && Sound(Exchanged(t, a, b), 0)
    ensures var x, y := Leaves(At(t, a).tree), Leaves(At(t, b).tree);
            BlocksExchanged(Leaves(t), Leaves(Exchanged(t, a, b)), x, y)
            || BlocksExchanged(Leaves(t), Leaves(Exchanged(t, a, b)), y, x)
  {
    hide Filled, Locate, Bag, Replaced, Distinct, Sound, Leaves;
    var f, x, y := ExchangeFork(t, a, b);
    FilledBag(f, x, y);
    FilledBag(f, y, x);
    assert Bag(x) + Bag(y) == Bag(y) + Bag(x);
    FilledLeaves(f, x, y);
    FilledLeaves(f, y, x);
    AtWithin(t, a);
    AtWithin(t, b);
    SoundWithin(At(t, a).tree, t);
    SoundWithin(At(t, b).tree, t);
    ReplacedSound(t, a, At(t, b).tree, b, At(t, a).tree);
  }

  lemma {:induction false} SoundWithin(s: Tree, t: Tree)
    requires Within(s, t) && Sound(t, 0)
    ensures Sound(s, 0)
    decreases t
  {
    if s != t {
      var k :| k in t.kids && Within(s, k.tree);
      SoundWithin(s, k.tree);
    }
  }

  lemma {:induction false} ReplacedSound(t: Tree, a: NodeId, y: Tree, b: NodeId, x: Tree)
    requires Sound(t, 0) && Sound(x, 0) && Sound(y, 0)
    ensures Sound(Replaced(t, a, y, b, x), 0)
    decreases t
  {
    if t.id != a && t.id != b && t.Split? {
      var ks := ReplacedKids(t.kids, a, y, b, x);
      assert Shares(ks) == Shares(t.kids);
      forall k | k in ks ensures Sound(k.tree, 0) {
        var i :| 0 <= i < |ks| && ks[i] == k;
        assert t.kids[i] in t.kids;
        ReplacedSound(t.kids[i].tree, a, y, b, x);
      }
    }
  }
}
