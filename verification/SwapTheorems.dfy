/** What a swap does to the leaves and to the alternation of axes. */
module SwapTheorems {
  import opened Wrappers
  import opened PaneTree
  import opened PaneNodes
  import opened PaneEdits
  import opened LayoutMaps
  import opened MoveTrees
  import opened SwapTrees
  import opened PaneSwaps

  /** A swap turns the leaf sequence A + source + B + target + C into A + target + B + source + C,
      whichever of the two comes first. */
  lemma {:induction false} SwapExchangesBlocks(t: Tree, a: NodeId, b: NodeId)
    requires Swappable(t, a, b) && Distinct(Bag(t)) && Sound(t, 0)
    ensures var x, y := Leaves(At(t, a).tree), Leaves(At(t, b).tree);
            BlocksExchanged(Leaves(t), Leaves(Swapped(t, a, b)), x, y)
            || BlocksExchanged(Leaves(t), Leaves(Swapped(t, a, b)), y, x)
  {
    ExchangedProps(t, a, b);
    SwappedProps(t, a, b);
  }

  /** Axes alternate at every split except possibly those named. */
  ghost predicate AlternatesBut(t: Tree, loose: set<NodeId>)
    decreases t
  {
    t.Split? ==>
      && (t.id !in loose ==> forall k | k in t.kids :: Opposite(k.tree, t.axis))
      && forall k | k in t.kids :: AlternatesBut(k.tree, loose)
  }

  lemma {:induction false} AlternatesButNone(t: Tree)
    ensures Alternates(t) <==> AlternatesBut(t, {})
    decreases t
  {
    if t.Split? {
      forall k | k in t.kids ensures Alternates(k.tree) <==> AlternatesBut(k.tree, {}) {
        AlternatesButNone(k.tree);
      }
    }
  }

  lemma {:induction false} ButMore(t: Tree, loose: set<NodeId>, more: set<NodeId>)
    requires AlternatesBut(t, loose)
    requires forall x :: x in loose && x in Bag(t) ==> x in more
    ensures AlternatesBut(t, more)
    decreases t
  {
    if t.Split? {
      forall k | k in t.kids ensures AlternatesBut(k.tree, more) {
        KidBag(t.kids, k);
        ButMore(k.tree, loose, more);
      }
    }
  }

  /** The exchange can break the alternation at the two levels it touches and nowhere else. */
  lemma {:induction false} ReplacedBut(n: Nodes, s: Tree, p: Option<NodeId>, a: NodeId, y: Tree, b: NodeId, x: Tree,
                                       loose: set<NodeId>)
    requires Holds(n, s, p) && AlternatesBut(s, {}) && AlternatesBut(x, {}) && AlternatesBut(y, {})
    requires a in n && b in n && n[a].parent.Some? && n[b].parent.Some?
    requires n[a].parent.value in loose && n[b].parent.value in loose
    ensures AlternatesBut(Replaced(s, a, y, b, x), loose)
    decreases s
  {
    if s.id == a {
      ButMore(y, {}, loose);
    } else if s.id == b {
      ButMore(x, {}, loose);
    } else if s.Split? {
      ReplacedUnfold(s, a, y, b, x);
      var ks := ReplacedKids(s.kids, a, y, b, x);
      forall k | k in ks ensures AlternatesBut(k.tree, loose) && (s.id !in loose ==> Opposite(k.tree, s.axis)) {
        var i :| 0 <= i < |ks| && ks[i] == k;
        assert s.kids[i] in s.kids;
        ReplacedBut(n, s.kids[i].tree, Some(s.id), a, y, b, x, loose);
      }
    }
  }

  /** Replacing one split repairs or keeps the alternation around it. */
  lemma {:induction false} ButPlug(c: Ctx, u: Tree, v: Tree, loose: set<NodeId>, left: set<NodeId>)
    requires AlternatesBut(Plug(c, u), loose) && AlternatesBut(v, left)
    requires u.Split? && v.Split? && u.axis == v.axis
    requires forall x :: x in loose && x in CtxBag(c) ==> x in left
    ensures AlternatesBut(Plug(c, v), left)
    decreases c
  {
    if c.In? {
      ButUnplug(c.up, Fill(c, u), loose);
      var ks, ls := Fill(c, u).kids, Fill(c, v).kids;
      forall k | k in ls ensures AlternatesBut(k.tree, left) && (c.id !in left ==> Opposite(k.tree, c.axis)) {
        if k in c.left {
          assert k in ks;
          KidBag(c.left, k);
          ButMore(k.tree, loose, left);
        } else if k in c.right {
          assert k in ks;
          KidBag(c.right, k);
          ButMore(k.tree, loose, left);
        } else {
          assert k == Kid(v, c.share);
          assert Kid(u, c.share) in ks;
        }
      }
      ButPlug(c.up, Fill(c, u), Fill(c, v), loose, left);
    }
  }

  lemma {:induction false} ButUnplug(c: Ctx, u: Tree, loose: set<NodeId>)
    requires AlternatesBut(Plug(c, u), loose)
    ensures AlternatesBut(u, loose)
    decreases c
  {
    if c.In? {
      ButUnplug(c.up, Fill(c, u), loose);
      assert Kid(u, c.share) in Fill(c, u).kids;
    }
  }

  /** Flattening one level is enough: what it promotes already has the other axis. */
  lemma {:induction false} FlatBut(ks: seq<Kid>, axis: Axis, loose: set<NodeId>)
    requires forall k | k in ks :: AlternatesBut(k.tree, loose) && (Matches(k.tree, axis) ==> k.tree.id !in loose)
    ensures forall k | k in Flat(ks, axis) :: AlternatesBut(k.tree, loose) && Opposite(k.tree, axis)
  {
    if ks != [] {
      var p, rest := Promoted(ks[0], axis), Flat(ks[1..], axis);
      forall k | k in p ensures AlternatesBut(k.tree, loose) && Opposite(k.tree, axis) {
        assert ks[0] in ks;
        if Matches(ks[0].tree, axis) {
          var i :| 0 <= i < |p| && p[i] == k;
          assert ks[0].tree.kids[i] in ks[0].tree.kids;
        }
      }
      FlatBut(ks[1..], axis, loose);
      assert Flat(ks, axis) == p + rest;
      assert forall k :: k in p + rest <==> k in p || k in rest;
    }
  }

  lemma {:induction false} FlattenedBut(t: Tree, p: NodeId, loose: set<NodeId>)
    requires Distinct(Bag(t)) && p in Bag(t) && At(t, p).tree.Split? && AlternatesBut(t, loose)
    requires var u := At(t, p).tree; forall k | k in u.kids :: Matches(k.tree, u.axis) ==> k.tree.id !in loose
    ensures AlternatesBut(FlattenedAt(t, p), loose - {p})
  {
    hide Plug, Locate, Bag, BagKids, Distinct, Flat;
    var l := At(t, p);
    var u := l.tree;
    ButUnplug(l.ctx, u, loose);
    FlatBut(u.kids, u.axis, loose);
    PlugBag(l.ctx, u);
    DistinctUnion(CtxBag(l.ctx), Bag(u));
    SplitNode(u.id, u.axis, u.kids);
    DistinctUnion(multiset{u.id}, BagKids(u.kids));
    FlatIdsInside(u, loose);
    RootInBag(u);
    ButPlug(l.ctx, u, Flattened(u), loose, loose - {p});
  }

  lemma {:induction false} FlatIdsInside(u: Tree, loose: set<NodeId>)
    requires u.Split? && u.id !in BagKids(u.kids)
    requires forall k | k in Flat(u.kids, u.axis) :: AlternatesBut(k.tree, loose) && Opposite(k.tree, u.axis)
    ensures AlternatesBut(Flattened(u), loose - {u.id})
  {
    forall k | k in Flat(u.kids, u.axis) ensures AlternatesBut(k.tree, loose - {u.id}) {
      FlatBagSub(u.kids, u.axis);
      KidBag(Flat(u.kids, u.axis), k);
      ButMore(k.tree, loose, loose - {u.id});
    }
  }

  lemma {:induction false} FlatBagSub(ks: seq<Kid>, axis: Axis)
    ensures BagKids(Flat(ks, axis)) <= BagKids(ks)
  {
    if ks != [] {
      FlatBagSub(ks[1..], axis);
      BagAppend(Promoted(ks[0], axis), Flat(ks[1..], axis));
      PromotedBagSub(ks[0], axis);
    }
  }

  lemma {:induction false} PromotedBagSub(k: Kid, axis: Axis)
    ensures BagKids(Promoted(k, axis)) <= Bag(k.tree)
  {
    if Matches(k.tree, axis) {
      SameTrees(Promoted(k, axis), k.tree.kids);
    } else {
      OnlyKid(Promoted(k, axis));
    }
  }

  /** A split whose children all have the other axis is left alone by flattening. */
  lemma {:induction false} FlattenNothing(t: Tree, p: NodeId)
    requires Alternates(t)
    ensures FlattenedAt(t, p) == t
  {
    if p in Bag(t) && At(t, p).tree.Split? {
      var l := At(t, p);
      PlugAlternates(l.ctx, l.tree);
      FlatOpposite(l.tree.kids, l.tree.axis);
    }
  }

  lemma {:induction false} AlternatesWithin(s: Tree, t: Tree)
    requires Within(s, t) && Alternates(t)
    ensures Alternates(s)
    decreases t
  {
    if s != t {
      var k :| k in t.kids && Within(s, k.tree);
      AlternatesWithin(s, k.tree);
    }
  }

  /** In an alternating layout no level can absorb another, so separate nodes can always be swapped. */
  lemma {:induction false} AlternatingSwappable(t: Tree, next: nat, a: NodeId, b: NodeId)
    requires WellFormed(t, next) && Alternates(t)
    ensures Swappable(t, a, b) <==> Separate(t, a, b)
  {
    hide Plug, Locate, Bag, BagKids, Distinct, Sound, Leaves, Panes;
    if Separate(t, a, b) && Collides(t, a, b) {
      var n := WellFormedStored(t, next);
      var la, lb := At(t, a), At(t, b);
      Open(n, t, a);
      Open(n, t, b);
      PlugAlternates(lb.ctx, lb.tree);
      FillBag(lb.ctx, lb.tree);
      PlugUp(lb.ctx, lb.tree);
      OpenAt(n, lb.ctx.up, Fill(lb.ctx, lb.tree));
    }
  }

  /** Swapping keeps axes alternating. */
  lemma {:induction false} SwapAlternates(t: Tree, next: nat, a: NodeId, b: NodeId)
    requires WellFormed(t, next) && Alternates(t) && Separate(t, a, b)
    ensures Swappable(t, a, b) && Alternates(Swapped(t, a, b))
  {
    hide Plug, Locate, Bag, BagKids, Distinct, Sound, Leaves, Panes, Alternates, FlattenedAt, Exchanged, Holds, Traded;
    var n := WellFormedStored(t, next);
    AlternatingSwappable(t, next, a, b);
    var m := TradedMap(n, t, a, b);
    LevelsAfter(n, m, t, a, b);
    var p, q, e := At(t, a).ctx.id, At(t, b).ctx.id, Exchanged(t, a, b);
    ExchangedBut(n, t, a, b, {p, q});
    SwappedProps(t, a, b);
    var flat := FlattenedAt(e, p);
    if p == q {
      LooseKids(m, e, p, p);
      assert {p, q} - {p} == {};
      FlattenedBut(e, p, {p, q});
      AlternatesButNone(flat);
    } else {
      LooseKids(m, e, p, q);
      FlattenedBut(e, p, {p, q});
      assert {p, q} - {p} == {q} && {q} - {q} == {};
      if At(flat, q).tree.Split? {
        OwnChild(flat, q);
        FlattenedBut(flat, q, {q});
      } else {
        LeafButNone(flat, q);
      }
      AlternatesButNone(FlattenedAt(flat, q));
    }
  }

  lemma {:induction false} TradedMap(n: Nodes, t: Tree, a: NodeId, b: NodeId) returns (m: Nodes)
    requires Holds(n, t, None) && Distinct(Bag(t)) && Separate(t, a, b)
    ensures Traded(n, m, a, b)
  {
    hide Plug, Locate, Bag, Distinct, Holds;
    SeparateSwap(t, a, b);
    ParentsOutside(n, t, a, b);
    ParentsOutside(n, t, b, a);
    m := map i | i in n ::
           if i == a then n[a].(parent := n[b].parent)
           else if i == b then n[b].(parent := n[a].parent) else Renamed(n[i], a, b);
  }

  lemma {:induction false} ExchangedBut(n: Nodes, t: Tree, a: NodeId, b: NodeId, loose: set<NodeId>)
    requires Holds(n, t, None) && Distinct(Bag(t)) && Separate(t, a, b) && Alternates(t)
    requires At(t, a).ctx.In? ==> At(t, a).ctx.id in loose
    requires At(t, b).ctx.In? ==> At(t, b).ctx.id in loose
    ensures AlternatesBut(Exchanged(t, a, b), loose)
  {
    hide Plug, Locate, Bag, Distinct, Holds;
    SeparateSwap(t, a, b);
    ParentsOutside(n, t, a, b);
    ParentsOutside(n, t, b, a);
    AtWithin(t, a);
    AtWithin(t, b);
    AlternatesWithin(At(t, a).tree, t);
    AlternatesWithin(At(t, b).tree, t);
    AlternatesButNone(t);
    AlternatesButNone(At(t, a).tree);
    AlternatesButNone(At(t, b).tree);
    ReplacedBut(n, t, None, a, At(t, b).tree, b, At(t, a).tree, loose);
  }

  /** A child absorbed by p is neither p nor, if it survives, q. */
  lemma {:induction false} LooseKids(m: Nodes, e: Tree, p: NodeId, q: NodeId)
    requires Holds(m, e, None) && Distinct(Bag(e)) && Sound(e, 0) && p in Bag(e) && At(e, p).tree.Split?
    requires q == p || q in Bag(FlattenedAt(e, p))
    ensures var u := At(e, p).tree; forall k | k in u.kids :: Matches(k.tree, u.axis) ==> k.tree.id !in {p, q}
  {
    hide Plug, Locate, Bag, BagKids, Distinct, Sound, Leaves, FlattenedAt, DroppedKids, Holds;
    FlattenedAtProps(e, p);
    var u := At(e, p).tree;
    OwnChild(e, p);
    forall k | k in u.kids && Matches(k.tree, u.axis) ensures k.tree.id !in {p, q} {
      DroppedChild(u.kids, u.axis, k.tree.id);
    }
  }

  lemma {:induction false} OwnChild(t: Tree, p: NodeId)
    requires Distinct(Bag(t)) && p in Bag(t) && At(t, p).tree.Split?
    ensures forall k | k in At(t, p).tree.kids :: k.tree.id != p
  {
    hide Plug, Locate, BagKids, Distinct;
    var l := At(t, p);
    PlugBag(l.ctx, l.tree);
    DistinctUnion(CtxBag(l.ctx), Bag(l.tree));
    DistinctUnion(multiset{p}, BagKids(l.tree.kids));
    forall k | k in l.tree.kids ensures k.tree.id != p {
      KidBag(l.tree.kids, k);
      RootInBag(k.tree);
    }
  }

  lemma {:induction false} LeafButNone(t: Tree, q: NodeId)
    requires Distinct(Bag(t)) && q in Bag(t) && At(t, q).tree.Leaf? && AlternatesBut(t, {q})
    ensures FlattenedAt(t, q) == t && AlternatesBut(t, {})
  {
    var n := Stored(t, None);
    LeafBut(n, t, None, t, q);
  }

  lemma {:induction false} LeafBut(n: Nodes, s: Tree, p: Option<NodeId>, t: Tree, q: NodeId)
    requires Holds(n, s, p) && Holds(n, t, None) && Distinct(Bag(t)) && q in Bag(t) && At(t, q).tree.Leaf?
             && AlternatesBut(s, {q})
    ensures AlternatesBut(s, {})
    decreases s
  {
    hide Plug, Locate, Bag, BagKids, Distinct;
    if s.Split? {
      Open(n, t, q);
      forall k | k in s.kids ensures AlternatesBut(k.tree, {}) {
        LeafBut(n, k.tree, Some(s.id), t, q);
      }
    }
  }

  // ----- swapping twice

  /** Neither level absorbs what it is given: each node has another axis than the level of the other one. */
  ghost predicate Unabsorbed(t: Tree, a: NodeId, b: NodeId)
    requires a in Bag(t) && b in Bag(t)
  {
    && (At(t, a).ctx.In? ==> Opposite(At(t, b).tree, At(t, a).ctx.axis))
    && (At(t, b).ctx.In? ==> Opposite(At(t, a).tree, At(t, b).ctx.axis))
  }

  /** What the map says about a swapped node and its level, before and after the exchange. */
  lemma {:induction false} SwapLevel(n: Nodes, m: Nodes, t: Tree, a: NodeId, b: NodeId)
    requires Holds(n, t, None) && Distinct(Bag(t)) && Separate(t, a, b) && Traded(n, m, a, b)
    ensures At(t, a).ctx.In? && At(t, b).ctx.In?
    ensures var p, q := At(t, a).ctx.id, At(t, b).ctx.id;
            && p in n && !n[p].IsLeaf() && n[p].contents.axis == At(t, a).ctx.axis
            && p != a && p != b && m[p] == Renamed(n[p], a, b)
            && m[b].parent == Some(p) && m[a].parent == Some(q) && m[a].contents == n[a].contents
            && n[a].contents == NodeOf(At(t, a).tree, None).contents
  {
    hide Plug, Locate, Bag, Distinct, Holds, HoldsCtx;
    SeparateSwap(t, a, b);
    ParentsOutside(n, t, a, b);
    ParentsOutside(n, t, b, a);
    Open(n, t, a);
    Open(n, t, b);
  }

  /** In an alternating layout a level can absorb only what it is given. */
  lemma {:induction false} AbsorbsMoved(n: Nodes, m: Nodes, t: Tree, e: Tree, a: NodeId, b: NodeId, r: NodeId,
                                        x: NodeId)
    requires Holds(n, t, None) && Distinct(Bag(t)) && Sound(t, 0) && Alternates(t) && Traded(n, m, a, b)
    requires Holds(m, e, None) && Distinct(Bag(e)) && Bag(e) == Bag(t)
    requires r in Bag(t) && r in n && r != a && r != b && !n[r].IsLeaf()
    requires x in Bag(t) && x in m && !m[x].IsLeaf() && m[x].parent == Some(r)
             && m[x].contents.axis == m[r].contents.axis
    ensures x == a || x == b
  {
    hide Plug, Locate, Bag, Distinct, Holds, Sound, Alternates, FlattenedAt;
    if x != a && x != b {
      FlattenNothing(t, r);
      FlattenDrops(n, t, r, x);
    }
  }

  /** Flattening leaves a level alone that has no child along its own axis. */
  lemma {:induction false} FlattenKeeps(t: Tree, p: NodeId)
    requires p in Bag(t) && At(t, p).tree.Split?
    requires var u := At(t, p).tree; forall k | k in u.kids :: Opposite(k.tree, u.axis)
    ensures FlattenedAt(t, p) == t
  {
    hide Locate, Bag;
    FlatOpposite(At(t, p).tree.kids, At(t, p).tree.axis);
  }

  lemma {:induction false} KidEntry(m: Nodes, e: Tree, r: NodeId, k: Kid)
    requires Holds(m, e, None) && Distinct(Bag(e)) && r in Bag(e) && At(e, r).tree.Split? && k in At(e, r).tree.kids
    ensures k.tree.id in Bag(e) && k.tree.id in m && m[k.tree.id] == NodeOf(k.tree, Some(r))
    ensures r in m && m[r].contents == SplitContents(At(e, r).tree.axis, Links(At(e, r).tree.kids))
  {
    hide Plug, Locate, BagKids, Distinct, HoldsCtx;
    Open(m, e, r);
    var l := At(e, r);
    PlugBag(l.ctx, l.tree);
    KidBag(l.tree.kids, k);
    SplitNode(r, l.tree.axis, l.tree.kids);
    RootInBag(k.tree);
    KidHeld(m, l.tree, HoleParent(l.ctx), k);
  }

  lemma {:induction false} KidHeld(m: Nodes, u: Tree, parent: Option<NodeId>, k: Kid)
    requires Holds(m, u, parent) && u.Split? && k in u.kids
    ensures k.tree.id in m && m[k.tree.id] == NodeOf(k.tree, Some(u.id))
  {
    assert Holds(m, k.tree, Some(u.id));
  }

  /** If neither level absorbs what it is given, flattening a level changes nothing. */
  lemma {:induction false} LevelKept(n: Nodes, m: Nodes, t: Tree, a: NodeId, b: NodeId, r: NodeId)
    requires Holds(n, t, None) && Distinct(Bag(t)) && Sound(t, 0) && Alternates(t)
    requires Separate(t, a, b) && Traded(n, m, a, b) && Unabsorbed(t, a, b)
    requires At(t, a).ctx.In? && At(t, b).ctx.In? && (r == At(t, a).ctx.id || r == At(t, b).ctx.id)
    ensures FlattenedAt(Exchanged(t, a, b), r) == Exchanged(t, a, b)
  {
    hide Plug, Locate, Bag, BagKids, Distinct, Holds, HoldsCtx, Sound, Alternates, FlattenedAt, Exchanged, Leaves;
    LevelsAfter(n, m, t, a, b);
    SeparateSwap(t, a, b);
    SwapLevel(n, m, t, a, b);
    TradedSwap(n, m, a, b);
    SwapLevel(n, m, t, b, a);
    var e := Exchanged(t, a, b);
    var u := At(e, r).tree;
    forall k | k in u.kids ensures Opposite(k.tree, u.axis) {
      KidEntry(m, e, r, k);
      if Matches(k.tree, u.axis) {
        AbsorbsMoved(n, m, t, e, a, b, r, k.tree.id);
      }
    }
    FlattenKeeps(e, r);
  }

  lemma {:induction false} TradedSwap(n: Nodes, m: Nodes, a: NodeId, b: NodeId)
    requires Traded(n, m, a, b)
    ensures Traded(n, m, b, a)
  {
    forall i | i in n ensures Renamed(n[i], a, b) == Renamed(n[i], b, a) {
      if !n[i].IsLeaf() {
        RenamedEither(n[i].contents.children, a, b);
      }
    }
  }

  lemma {:induction false} RenamedEither(cs: seq<Child>, a: NodeId, b: NodeId)
    ensures RenamedLinks(cs, a, b) == RenamedLinks(cs, b, a)
  {
  }

  /** If a level absorbs what it is given, the swap makes one of the two nodes disappear. */
  lemma {:induction false} AbsorbedGone(n: Nodes, m: Nodes, t: Tree, a: NodeId, b: NodeId)
    requires Holds(n, t, None) && Distinct(Bag(t)) && Sound(t, 0) && Alternates(t)
    requires Separate(t, a, b) && Traded(n, m, a, b) && !Unabsorbed(t, a, b)
    ensures !(a in Bag(Swapped(t, a, b)) && b in Bag(Swapped(t, a, b)))
  {
    hide Plug, Locate, Bag, BagKids, Distinct, Holds, HoldsCtx, Sound, Alternates, FlattenedAt, Exchanged, Leaves;
    LevelsAfter(n, m, t, a, b);
    SeparateSwap(t, a, b);
    SwapLevel(n, m, t, a, b);
    TradedSwap(n, m, a, b);
    SwapLevel(n, m, t, b, a);
    var p, q, e := At(t, a).ctx.id, At(t, b).ctx.id, Exchanged(t, a, b);
    FlattenedAtProps(e, p);
    FlattenedAtProps(FlattenedAt(e, p), q);
    if !Opposite(At(t, b).tree, At(t, a).ctx.axis) {
      FlattenDrops(m, e, p, b);
    } else {
      FlattenDrops(m, e, q, a);
      if p != q {
        OtherKept(n, m, t, a, b);
      }
    }
  }

  /** A level that is given something of another axis is left as it is, if the other node came from elsewhere. */
  lemma {:induction false} OtherKept(n: Nodes, m: Nodes, t: Tree, a: NodeId, b: NodeId)
    requires Holds(n, t, None) && Distinct(Bag(t)) && Sound(t, 0) && Alternates(t)
    requires Separate(t, a, b) && Traded(n, m, a, b)
    requires At(t, a).ctx.In? && At(t, b).ctx.In? && At(t, a).ctx.id != At(t, b).ctx.id
    requires Opposite(At(t, b).tree, At(t, a).ctx.axis)
    ensures FlattenedAt(Exchanged(t, a, b), At(t, a).ctx.id) == Exchanged(t, a, b)
  {
    hide Plug, Locate, Bag, BagKids, Distinct, Holds, HoldsCtx, Sound, Alternates, FlattenedAt, Exchanged, Leaves;
    LevelsAfter(n, m, t, a, b);
    SeparateSwap(t, a, b);
    SwapLevel(n, m, t, a, b);
    TradedSwap(n, m, a, b);
    SwapLevel(n, m, t, b, a);
    var p, e := At(t, a).ctx.id, Exchanged(t, a, b);
    var u := At(e, p).tree;
    forall k | k in u.kids ensures Opposite(k.tree, u.axis) {
      KidEntry(m, e, p, k);
      if Matches(k.tree, u.axis) {
        AbsorbsMoved(n, m, t, e, a, b, p, k.tree.id);
      }
    }
    FlattenKeeps(e, p);
  }

  /** Swapping two separate nodes of an alternating layout and swapping them again restores the layout exactly when
      neither level absorbs what it is given; otherwise one of the two nodes is gone after the first swap. */
  lemma {:induction false} SwapTwiceIff(t: Tree, next: nat, a: NodeId, b: NodeId)
    requires WellFormed(t, next) && Alternates(t) && Separate(t, a, b)
    ensures var s := Swapped(t, a, b);
            && (Unabsorbed(t, a, b) <==> Separate(s, a, b) && Swapped(s, a, b) == t)
            && (Unabsorbed(t, a, b) <==> a in Bag(s) && b in Bag(s))
            && (Unabsorbed(t, a, b) ==> s == Exchanged(t, a, b))
  {
    hide Plug, Locate, Bag, BagKids, Distinct, Sound, Leaves, Panes, FlattenedAt, Exchanged, Holds, Alternates;
    hide Unabsorbed, Traded;
    var n := WellFormedStored(t, next);
    var m := TradedMap(n, t, a, b);
    if Unabsorbed(t, a, b) {
      SwappedProps(t, a, b);
      LevelKept(n, m, t, a, b, At(t, a).ctx.id);
      LevelKept(n, m, t, a, b, At(t, b).ctx.id);
      assert Swapped(t, a, b) == Exchanged(t, a, b);
      ExchangedTwice(t, next, a, b);
    } else {
      AbsorbedGone(n, m, t, a, b);
    }
  }

  lemma {:induction false} ExchangedTwice(t: Tree, next: nat, a: NodeId, b: NodeId)
    requires WellFormed(t, next) && Alternates(t) && Separate(t, a, b)
    ensures var e := Exchanged(t, a, b);
            && Separate(e, a, b) && Bag(e) == Bag(t) && Exchanged(e, a, b) == t && Swapped(e, a, b) == t
  {
    hide Plug, Locate, Bag, BagKids, Distinct, Sound, Leaves, Panes, FlattenedAt, Filled, Replaced;
    var f, x, y := ExchangeFork(t, a, b);
    ExchangedProps(t, a, b);
    var e := Exchanged(t, a, b);
    assert a != b by {
      RootInBag(At(t, a).tree);
    }
    FilledAt(f, y, x);
    assert Separate(e, a, b);
    ReplacedFork(f, y, x);
    ReplacedOrder(e, y.id, x, x.id, y);
    assert Exchanged(e, a, b) == t;
    SwappedProps(e, a, b);
    FlattenNothing(t, At(e, a).ctx.id);
    FlattenNothing(t, At(e, b).ctx.id);
  }

  /** Swapping two panes of an alternating layout only trades the two leaves, and swapping them
      again restores the layout. */
  lemma {:induction false} SwapLeavesTwice(t: Tree, next: nat, a: NodeId, b: NodeId)
    requires WellFormed(t, next) && Alternates(t) && Separate(t, a, b)
    requires At(t, a).tree.Leaf? && At(t, b).tree.Leaf?
    ensures Swapped(t, a, b) == Exchanged(t, a, b)
    ensures Separate(Swapped(t, a, b), a, b) && Swapped(Swapped(t, a, b), a, b) == t
  {
    hide Plug, Locate, Bag, BagKids, Distinct, Sound, Leaves, Panes, FlattenedAt, Exchanged, Alternates, Swapped;
    SwapTwiceIff(t, next, a, b);
  }

  /** Both fillings of a fork are found under their ids. */
  lemma {:induction false} FilledAt(f: Fork, x: Tree, y: Tree)
    requires Distinct(Bag(Filled(f, x, y)))
    ensures var t := Filled(f, x, y); x.id in Bag(t) && y.id in Bag(t) && At(t, x.id).tree == x && At(t, y.id).tree == y
  {
    hide Plug, Locate, Bag, BagKids, Distinct;
    FilledIsPlug(f, x, y);
    AtPlug(FirstCtx(f, y), x);
    AtPlug(SecondCtx(f, x), y);
  }
}
