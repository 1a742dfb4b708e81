/** When rotating a second time restores the layout. */
module RotationTheorems {
  import opened Wrappers
  import opened Percentages
  import opened PaneTree
  import opened PaneNodes
  import opened PaneEdits
  import opened LayoutMaps
  import opened MoveTrees
  import opened PaneSelections
  import opened PaneRotations
  import opened RoundedShares

  /** A list that holds a matching split gets longer by flattening. */
  lemma {:induction false} FlatLonger(ks: seq<Kid>, axis: Axis)
    requires SoundKids(ks, 0) && NonNegative(Shares(ks)) && 0 !in BagKids(ks)
    ensures |Flat(ks, axis)| >= |ks|
    ensures Flat(ks, axis) == ks <==> forall k | k in ks :: Opposite(k.tree, axis)
    ensures |Flat(ks, axis)| == |ks| <==> Flat(ks, axis) == ks
  {
    if forall k | k in ks :: Opposite(k.tree, axis) {
      FlatOpposite(ks, axis);
    } else {
      var k :| k in ks && !Opposite(k.tree, axis);
      var i :| 0 <= i < |ks| && ks[i] == k;
      var a, b := ks[..i], ks[i + 1..];
      assert ks == a + [k] + b;
      KidBag(ks, k);
      SharesMiddle(a, k, b);
      FlatAppend(a + [k], b, axis);
      FlatAppend(a, [k], axis);
      FlatOne(k, axis);
      FlatProps(a, axis, 0);
      FlatProps(b, axis, 0);
      assert |Promoted(k, axis)| >= 2;
    }
  }

  lemma {:induction false} ScaledBack(sel: seq<Kid>)
    requires |sel| > 0 && NonNegative(Shares(sel)) && 0 <= Sum(Shares(sel)) <= MAX_PERCENTAGE
    ensures Scaled(Scaled(sel, MAX_PERCENTAGE), Sum(Shares(sel))) == sel
  {
    hide Distribute, Sum;
    ScaledProps(sel, MAX_PERCENTAGE);
    DistributeRoundTrip(Shares(sel), MAX_PERCENTAGE);
    var back := Scaled(Scaled(sel, MAX_PERCENTAGE), Sum(Shares(sel)));
    ScaledProps(Scaled(sel, MAX_PERCENTAGE), Sum(Shares(sel)));
    forall i | 0 <= i < |sel| ensures back[i] == sel[i] {
      assert Shares(back)[i] == Shares(sel)[i];
    }
  }

  lemma {:induction false} TurnedBack(ks: seq<Kid>)
    ensures ToggleKids(ToggleKids(ks)) == ks
  {
    hide Toggle;
    forall i | 0 <= i < |ks| ensures ToggleKids(ToggleKids(ks))[i] == ks[i] {
      ToggleTwice(ks[i].tree);
    }
  }

  /** Rotating a fresh group flattens it into the level it came from. */
  lemma {:induction false} UngroupKids(c: Ctx, u: Tree, first: nat, count: nat, groupId: NodeId)
    requires u.Split? && first + count <= |u.kids| && 0 < count && Sound(u, 0)
    ensures var a, sel, b := u.kids[..first], u.kids[first..first + count], u.kids[first + count..];
            var g := Group(u, sel, groupId);
            RotateAt(In(c, u.id, u.axis, a, g.share, b), g.tree)
            == Plug(c, Split(u.id, u.axis, Flat(a, u.axis) + sel + Flat(b, u.axis)))
  {
    hide Plug, Flat, Scaled, Toggle, Sum, Sound;
    var a, sel, b := u.kids[..first], u.kids[first..first + count], u.kids[first + count..];
    var g := Group(u, sel, groupId);
    var d := In(c, u.id, u.axis, a, g.share, b);
    SelShares(u, first, count);
    GroupShare(u, sel, groupId);
    ToggleUnfold(g.tree);
    TurnedBack(Scaled(sel, MAX_PERCENTAGE));
    ScaledBack(sel);
    PromotedKids(d, Toggle(g.tree));
  }

  lemma {:induction false} SelShares(u: Tree, first: nat, count: nat)
    requires u.Split? && first + count <= |u.kids| && Sound(u, 0)
    ensures var a, sel, b := u.kids[..first], u.kids[first..first + count], u.kids[first + count..];
            && NonNegative(Shares(sel)) && 0 <= Sum(Shares(sel)) <= MAX_PERCENTAGE
            && NonNegative(Shares(a)) && NonNegative(Shares(b))
            && SoundKids(a, 0) && SoundKids(b, 0)
  {
    Stretches(u.kids, first, count);
    SumNonNegative(Shares(u.kids[..first]));
    SumNonNegative(Shares(u.kids[first..first + count]));
    SumNonNegative(Shares(u.kids[first + count..]));
  }

  /** Grouping a part of a level and rotating the group again restores the layout, percentages
      included, exactly when no unselected sibling has the level's own axis. */
  lemma {:induction false} RotateGroupTwice(t: Tree, next: nat, s: PaneSelection, again: PaneSelection)
    requires WellFormed(t, next) && 0 < next < MAX_NODE_VALUE && Follows(t, s) && Groups(t, s)
    requires s.nodes[0] in Bag(t)
    requires Follows(RotatedTree(t, s, next), again) && again.nodes == [next]
    ensures next in Bag(RotatedTree(t, s, next))
    ensures RotatedTree(RotatedTree(t, s, next), again, next + 1) == t
       <==> forall k | k in RangeOf(t, s).Others() :: Opposite(k.tree, RangeOf(t, s).p.axis)
  {
    hide Plug, Bag, BagKids, Locate, Distinct, Leaves, Panes, Sound, RotateAt, Flat, Group;
    var r := RangeOf(t, s);
    var a, sel, b := r.p.kids[..r.first], r.Sel(), r.p.kids[r.first + r.count..];
    var g := Group(r.p, sel, next);
    var d := In(r.c, r.p.id, r.p.axis, a, g.share, b);
    GroupedIsFilled(t, s, next);
    GroupShare(r.p, sel, next);
    PlugSound(r.c, r.p, 0);
    UngroupKids(r.c, r.p, r.first, r.count, next);
    PlugBag(r.c, r.p);
    assert 0 !in Bag(t) && 0 !in Bag(r.p);
    UngroupedSame(t, r);
  }

  lemma {:induction false} RotatedGroup(t: Tree, s: PaneSelection, next: nat)
    requires IsSlice(t, s) && Groups(t, s) && s.nodes[0] in Bag(t)
    ensures var r := RangeOf(t, s); RotatedTree(t, s, next) == Plug(r.c, Grouped(r.p, r.first, r.count, next))
  {
    hide Plug, Bag, Locate, Grouped;
  }

  lemma {:induction false} GroupedIsFilled(t: Tree, s: PaneSelection, next: nat)
    requires WellFormed(t, next) && IsSlice(t, s) && Groups(t, s) && 0 < next
    requires s.nodes[0] in Bag(t)
    ensures var r := RangeOf(t, s);
            var a, sel, b := r.p.kids[..r.first], r.Sel(), r.p.kids[r.first + r.count..];
            var g := Group(r.p, sel, next);
            var t' := RotatedTree(t, s, next);
            && t' == Plug(In(r.c, r.p.id, r.p.axis, a, g.share, b), g.tree)
            && next in Bag(t') && At(t', next) == Loc(In(r.c, r.p.id, r.p.axis, a, g.share, b), g.tree)
  {
    hide Plug, Bag, BagKids, Locate, Distinct, Leaves, Panes, Sound, Group, RotatedTree;
    RotatedGroup(t, s, next);
    var r := RangeOf(t, s);
    var sel := r.Sel();
    var g := Group(r.p, sel, next);
    var d := In(r.c, r.p.id, r.p.axis, r.p.kids[..r.first], g.share, r.p.kids[r.first + r.count..]);
    GroupIdIs(r.p, sel, next);
    assert Fill(d, g.tree) == Grouped(r.p, r.first, r.count, next);
    PlugUp(d, g.tree);
    PlugSound(r.c, r.p, 0);
    GroupedProps(r.p, r.first, r.count, next);
    PlugBag(r.c, r.p);
    PlugBag(r.c, Grouped(r.p, r.first, r.count, next));
    assert Bag(Plug(d, g.tree)) == Bag(t) + multiset{next};
    OneDistinct(next);
    DistinctUnion(Bag(t), multiset{next});
    AtPlug(d, g.tree);
  }

  lemma {:induction false} GroupIdIs(u: Tree, sel: seq<Kid>, groupId: NodeId)
    requires u.Split?
    ensures Group(u, sel, groupId).tree.id == groupId
  {
  }

  lemma {:induction false} UngroupedSame(t: Tree, r: Range)
    requires r.Ok() && t == Plug(r.c, r.p) && Sound(r.p, 0) && 0 !in Bag(r.p)
    ensures var a, b := r.p.kids[..r.first], r.p.kids[r.first + r.count..];
            Plug(r.c, Split(r.p.id, r.p.axis, Flat(a, r.p.axis) + r.Sel() + Flat(b, r.p.axis))) == t
            <==> forall k | k in r.Others() :: Opposite(k.tree, r.p.axis)
  {
    hide Plug, Flat, Sound;
    var a, b := r.p.kids[..r.first], r.p.kids[r.first + r.count..];
    var axis := r.p.axis;
    SelShares(r.p, r.first, r.count);
    Stretches(r.p.kids, r.first, r.count);
    FlatLonger(a, axis);
    FlatLonger(b, axis);
    var ks := Flat(a, axis) + r.Sel() + Flat(b, axis);
    assert forall k :: k in r.Others() <==> k in a || k in b;
    if Plug(r.c, Split(r.p.id, axis, ks)) == t {
      PlugInjective(r.c, Split(r.p.id, axis, ks), r.p);
      assert |ks| == |r.p.kids|;
    }
  }

  // ----- rotating a whole level, or a split, and rotating what it left selected

  /** The same split under another id. */
  function Renamed(u: Tree, id: NodeId): Tree
    requires u.Split?
  {
    Split(id, u.axis, u.kids)
  }

  /** Neighbours in a tree have one parent and one place there, however the selection names them. */
  lemma {:induction false} SlicePlace(t: Tree, s: PaneSelection, parent: NodeId, first: nat)
    requires Distinct(Bag(t)) && Follows(t, s) && StandsAt(t, parent, first, s.nodes) && |s.nodes| > 0
    ensures s.parent == Some(parent) && IsSlice(t, s)
    ensures RangeOf(t, s) == Range(At(t, parent).ctx, At(t, parent).tree, first, |s.nodes|)
  {
    hide Plug, Bag, BagKids, Holds, Locate, Distinct;
    var n := Stored(t, None);
    ChildPlace(n, t, parent, first);
    assert Ids(At(t, parent).tree.kids)[first] == s.nodes[0];
    RootParent(n, t);
    if s.parent.Some? {
      var r := RangeOf(t, s);
      assert Ids(r.Sel())[0] == r.p.kids[r.first].tree.id;
      ChildPlace(n, t, s.parent.value, r.first);
    }
  }

  /** A whole selected level rotates the split above it. */
  lemma {:induction false} LevelAgain(c: Ctx, u: Tree, s: PaneSelection, groupId: NodeId)
    requires Distinct(Bag(Plug(c, u))) && Follows(Plug(c, u), s)
    requires u.Split? && |u.kids| >= 2 && s.nodes == Ids(u.kids)
    ensures s.nodes[0] in Bag(Plug(c, u))
    ensures RotatedTree(Plug(c, u), s, groupId) == RotateAt(c, u)
  {
    hide Plug, Bag, BagKids, Locate, Distinct, RotateAt;
    var t := Plug(c, u);
    AtPlug(c, u);
    assert Ids(u.kids)[0..|u.kids|] == Ids(u.kids);
    SlicePlace(t, s, u.id, 0);
    FirstInside(t, s);
  }

  lemma {:induction false} FirstInside(t: Tree, s: PaneSelection)
    requires Distinct(Bag(t)) && Follows(t, s)
    ensures |s.nodes| > 0 && s.nodes[0] in Bag(t) && HoleParent(At(t, s.nodes[0]).ctx) == s.parent
  {
    hide Plug, Bag, BagKids, Holds, Locate, Distinct;
    RootInBag(t);
    AtTop(t);
    if s.parent.Some? {
      var n := Stored(t, None);
      var r := RangeOf(t, s);
      assert Ids(r.Sel())[0] == r.p.kids[r.first].tree.id;
      ChildPlace(n, t, s.parent.value, r.first);
    }
  }

  /** A proper part of a level is grouped. */
  lemma {:induction false} PartAgain(c: Ctx, u: Tree, first: nat, s: PaneSelection, groupId: NodeId)
    requires Distinct(Bag(Plug(c, u))) && Follows(Plug(c, u), s)
    requires u.Split? && 1 < |s.nodes| < |u.kids| && first + |s.nodes| <= |u.kids|
    requires s.nodes == Ids(u.kids)[first..first + |s.nodes|]
    ensures s.nodes[0] in Bag(Plug(c, u))
    ensures RotatedTree(Plug(c, u), s, groupId) == Plug(c, Grouped(u, first, |s.nodes|, groupId))
  {
    hide Plug, Bag, BagKids, Locate, Distinct, Grouped;
    AtPlug(c, u);
    SlicePlace(Plug(c, u), s, u.id, first);
    FirstInside(Plug(c, u), s);
  }

  ghost predicate WellShared(u: Tree)
    requires u.Split?
  {
    |u.kids| >= 2 && Weights(Shares(u.kids))
  }

  lemma {:induction false} SplitSound(s: Tree)
    requires s.Split? && Sound(s, 0) && s.id != 0
    ensures |s.kids| >= 2 && NonNegative(Shares(s.kids)) && Sum(Shares(s.kids)) == MAX_PERCENTAGE
  {
  }

  lemma {:induction false} ScaledTurned(ks: seq<Kid>, total: int)
    ensures Scaled(ToggleKids(ks), total) == ToggleKids(Scaled(ks, total))
  {
    hide Toggle, Distribute;
    ToggleKidsAppend(ks, []);
  }

  lemma {:induction false} AtTop(t: Tree)
    requires Distinct(Bag(t))
    ensures t.id in Bag(t) && At(t, t.id) == Loc(Top, t)
  {
    hide Locate;
    AtPlug(Top, t);
  }

  lemma {:induction false} SplitToRotate(t: Tree, s: PaneSelection)
    requires Distinct(Bag(t)) && Follows(t, s) && |s.nodes| > 0 && s.nodes[0] in Bag(t) && RotatedSplit(t, s).Some?
    ensures RotatedSplit(t, s).value in Bag(t) && At(t, RotatedSplit(t, s).value).tree.Split?
  {
    hide Plug, Bag, BagKids, Locate, Distinct;
  }

  lemma {:induction false} RotatedDistinct(c: Ctx, u: Tree)
    requires u.Split? && Sound(Plug(c, u), 0) && Distinct(Bag(Plug(c, u)))
    ensures Distinct(Bag(RotateAt(c, u)))
  {
    hide Plug, Bag, BagKids, Distinct, RotateAt, Sound;
    RotateProps(c, u);
    DistinctSub(Bag(RotateAt(c, u)), Bag(Plug(c, u)));
  }

  lemma {:induction false} RootAgain(t: Tree, s: PaneSelection, again: PaneSelection, next: nat)
    requires t.Split? && |t.kids| >= 2 && Distinct(Bag(t)) && Distinct(Bag(RotateAt(Top, t)))
    requires Follows(t, s) && |s.nodes| > 0 && s.nodes[0] in Bag(t)
    requires !Groups(t, s) && RotatedSplit(t, s) == Some(t.id)
    requires Follows(RotateAt(Top, t), again) && again.nodes == RotatedNodes(t, s, next)
    ensures |again.nodes| > 0 && again.nodes[0] in Bag(RotateAt(Top, t))
    ensures RotatedTree(RotateAt(Top, t), again, next) == t
  {
    hide Bag, BagKids, Locate, Distinct, Toggle;
    ToggleTwice(t);
    ToggleUnfold(t);
    AtTop(t);
    AtTop(Toggle(t));
    FirstInside(t, s);
    if s.parent.Some? {
      assert Ids(ToggleKids(t.kids)) == Ids(t.kids);
      LevelAgain(Top, Toggle(t), again, next);
    }
  }

  /** Below the root, rotating leaves the children of the rotated split selected. */
  lemma {:induction false} InnerNodes(t: Tree, s: PaneSelection, next: nat)
    requires Distinct(Bag(t)) && Follows(t, s) && |s.nodes| > 0 && s.nodes[0] in Bag(t)
    requires !Groups(t, s) && RotatedSplit(t, s).Some?
    requires RotatedSplit(t, s).value in Bag(t) && At(t, RotatedSplit(t, s).value).tree.Split?
    requires At(t, RotatedSplit(t, s).value).ctx.In?
    ensures RotatedNodes(t, s, next) == Ids(At(t, RotatedSplit(t, s).value).tree.kids)
  {
    hide Plug, Bag, BagKids, Locate, Distinct;
    AtTop(t);
  }

  /** A split with the axis of its parent is turned against it first and then flattened into it. */
  lemma {:induction false} SameAxisAgain(c: Ctx, u: Tree, again: PaneSelection, next: nat)
    requires c.In? && u.Split? && |u.kids| >= 2 && c.axis == u.axis && SoundCtx(c, 0)
    requires Distinct(Bag(RotateAt(c, u))) && Follows(RotateAt(c, u), again) && again.nodes == Ids(u.kids)
    ensures |again.nodes| > 0 && again.nodes[0] in Bag(RotateAt(c, u))
    ensures forall id :: RotatedTree(RotateAt(c, u), again, next) != Plug(c, Renamed(u, id))
  {
    hide Plug, Bag, BagKids, Locate, Distinct, Toggle, Flat, Scaled, Sound, Sum;
    ToggleTwice(u);
    ToggleUnfold(u);
    assert Ids(ToggleKids(u.kids)) == Ids(u.kids);
    LevelAgain(c, Toggle(u), again, next);
    assert RotatedTree(RotateAt(c, u), again, next) == Plug(c.up, Flattened(Fill(c, u)));
    PromotedKids(c, u);
    FlatProps(c.left, c.axis, 0);
    FlatProps(c.right, c.axis, 0);
    forall id ensures Plug(c.up, Flattened(Fill(c, u))) != Plug(c, Renamed(u, id)) {
      PlugUp(c, Renamed(u, id));
      if Plug(c.up, Flattened(Fill(c, u))) == Plug(c.up, Fill(c, Renamed(u, id))) {
        PlugInjective(c.up, Flattened(Fill(c, u)), Fill(c, Renamed(u, id)));
      }
    }
  }

  /** A split of the other axis is flattened into its parent first and then grouped again. */
  lemma {:induction false} OtherAxisAgain(c: Ctx, u: Tree, again: PaneSelection, next: nat)
    requires c.In? && u.Split? && |u.kids| >= 2 && c.axis != u.axis && u.id != 0 && Sound(Plug(c, u), 0)
             && 0 !in Bag(Plug(c, u))
    requires Distinct(Bag(RotateAt(c, u))) && Follows(RotateAt(c, u), again) && again.nodes == Ids(u.kids)
    ensures |again.nodes| > 0 && again.nodes[0] in Bag(RotateAt(c, u))
    ensures Weights(Shares(u.kids))
    ensures (exists id :: RotatedTree(RotateAt(c, u), again, next) == Plug(c, Renamed(u, id)))
            <==> Restorable(Shares(u.kids), c.share) && forall k | k in c.left + c.right :: Opposite(k.tree, c.axis)
  {
    hide Plug, Bag, BagKids, Locate, Distinct, Toggle, Flat, Scaled, Sound, Sum, Group, Restorable;
    PlugSound(c, u, 0);
    SplitSound(u);
    var l, r := Flat(c.left, c.axis), Flat(c.right, c.axis);
    var m := ToggleKids(Scaled(u.kids, c.share));
    var v := Split(c.id, c.axis, l + m + r);
    CtxSides(c, u);
    FlatLonger(c.left, c.axis);
    FlatLonger(c.right, c.axis);
    ToggleUnfold(u);
    PromotedKids(c, Toggle(u));
    ScaledTurned(u.kids, c.share);
    assert RotateAt(c, u) == Plug(c.up, v);
    assert Ids(m) == Ids(u.kids);
    IdsMiddle(l, m, r);
    PartAgain(c.up, v, |l|, again, next);
    assert v.kids[..|l|] == l && v.kids[|l|..|l| + |m|] == m && v.kids[|l| + |m|..] == r;
    RegroupedKid(v, u, c.share, next);
    var g := Split(next, u.axis, Scaled(Scaled(u.kids, c.share), MAX_PERCENTAGE));
    assert RotatedTree(RotateAt(c, u), again, next) == Plug(c.up, Split(c.id, c.axis, l + [Kid(g, c.share)] + r));
    RegroupedSame(c, u, next);
  }

  lemma {:induction false} CtxSides(c: Ctx, u: Tree)
    requires c.In? && Sound(Plug(c, u), 0) && 0 !in Bag(Plug(c, u))
    ensures SoundKids(c.left, 0) && NonNegative(Shares(c.left)) && 0 !in BagKids(c.left)
    ensures SoundKids(c.right, 0) && NonNegative(Shares(c.right)) && 0 !in BagKids(c.right)
    ensures |c.left| + |c.right| >= 1 && 0 <= c.share <= MAX_PERCENTAGE
    ensures forall k :: k in c.left + c.right <==> k in c.left || k in c.right
  {
    hide Plug, Sound, Sum;
    PlugSound(c, u, 0);
    PlugBag(c, u);
    assert 0 !in CtxBag(c) && c.id in CtxBag(c);
    SumNonNegative(Shares(c.left));
    SumNonNegative(Shares(c.right));
    assert forall k :: k in c.left || k in c.right ==> k in c.left + c.right;
  }

  lemma {:induction false} RegroupedKid(v: Tree, u: Tree, share: int, next: NodeId)
    requires v.Split? && u.Split? && v.axis != u.axis && share >= 0 && |u.kids| > 0 && NonNegative(Shares(u.kids))
    ensures Group(v, ToggleKids(Scaled(u.kids, share)), next)
            == Kid(Split(next, u.axis, Scaled(Scaled(u.kids, share), MAX_PERCENTAGE)), share)
  {
    hide Toggle, Scaled, Sum;
    ScaledProps(u.kids, share);
    ScaledTurned(Scaled(u.kids, share), MAX_PERCENTAGE);
    TurnedBack(Scaled(Scaled(u.kids, share), MAX_PERCENTAGE));
    ToggleKidsAppend(Scaled(u.kids, share), []);
  }

  /** What grouping puts back is the old level, up to an id, only piece by piece. */
  lemma {:induction false} RegroupedSame(c: Ctx, u: Tree, next: NodeId)
    requires c.In? && u.Split? && u.id != 0 && Sound(Plug(c, u), 0) && 0 !in Bag(Plug(c, u))
    ensures Weights(Shares(u.kids))
    ensures var l, r := Flat(c.left, c.axis), Flat(c.right, c.axis);
            var g := Split(next, u.axis, Scaled(Scaled(u.kids, c.share), MAX_PERCENTAGE));
            (exists id :: Plug(c.up, Split(c.id, c.axis, l + [Kid(g, c.share)] + r)) == Plug(c, Renamed(u, id)))
            <==> Restorable(Shares(u.kids), c.share) && forall k | k in c.left + c.right :: Opposite(k.tree, c.axis)
  {
    hide Plug, Bag, BagKids, Flat, Scaled, Sound, Sum, Restorable;
    PlugSound(c, u, 0);
    SplitSound(u);
    CtxSides(c, u);
    FlatLonger(c.left, c.axis);
    FlatLonger(c.right, c.axis);
    ScaledTwice(u.kids, c.share);
    var l, r := Flat(c.left, c.axis), Flat(c.right, c.axis);
    var g := Split(next, u.axis, Scaled(Scaled(u.kids, c.share), MAX_PERCENTAGE));
    var back := Split(c.id, c.axis, l + [Kid(g, c.share)] + r);
    if id :| Plug(c.up, back) == Plug(c, Renamed(u, id)) {
      PlugUp(c, Renamed(u, id));
      PlugInjective(c.up, back, Fill(c, Renamed(u, id)));
      SamePieces(l, Kid(g, c.share), r, c.left, Kid(Renamed(u, id), c.share), c.right);
    }
    if l == c.left && r == c.right && g == Renamed(u, next) {
      PlugUp(c, Renamed(u, next));
    }
  }

  lemma {:induction false} SamePieces(l: seq<Kid>, g: Kid, r: seq<Kid>, a: seq<Kid>, k: Kid, b: seq<Kid>)
    requires l + [g] + r == a + [k] + b && |l| >= |a| && |r| >= |b|
    ensures l == a && g == k && r == b
  {
    var s := l + [g] + r;
    assert |s| == |a| + 1 + |b|;
    assert l == s[..|a|] && a == s[..|a|] && s[|a|] == g && s[|a|] == k;
    assert r == s[|a| + 1..] && b == s[|a| + 1..];
  }

  lemma {:induction false} ScaledTwice(ks: seq<Kid>, slot: int)
    requires |ks| > 0 && NonNegative(Shares(ks)) && Sum(Shares(ks)) == MAX_PERCENTAGE && 0 <= slot <= MAX_PERCENTAGE
    ensures Scaled(Scaled(ks, slot), MAX_PERCENTAGE) == ks <==> Restorable(Shares(ks), slot)
  {
    hide Scaled, Sum, Restorable, Distribute;
    ScaledProps(ks, slot);
    ScaledProps(Scaled(ks, slot), MAX_PERCENTAGE);
    RestoredIff(Shares(ks), slot);
    var back := Scaled(Scaled(ks, slot), MAX_PERCENTAGE);
    if Shares(back) == Shares(ks) {
      forall i | 0 <= i < |ks| ensures back[i] == ks[i] {
        assert Shares(back)[i] == Shares(ks)[i];
      }
    }
  }

  /** Rotating a split (or a whole level) and then the selection this leaves. The root always comes back.
      A split inside another never does if it has the outer axis; otherwise a new split takes its place,
      and all else is as before exactly when no sibling has the outer axis and the shares are restorable. */
  lemma {:induction false} RotateSplitTwice(t: Tree, next: nat, s: PaneSelection, again: PaneSelection)
    requires WellFormed(t, next) && Follows(t, s) && |s.nodes| > 0 && s.nodes[0] in Bag(t)
    requires !Groups(t, s) && RotatedSplit(t, s).Some?
    requires Follows(RotatedTree(t, s, next), again) && again.nodes == RotatedNodes(t, s, next)
    ensures var split := RotatedSplit(t, s).value;
            split in Bag(t) && At(t, split).tree.Split? && WellShared(At(t, split).tree)
    ensures |again.nodes| > 0 && again.nodes[0] in Bag(RotatedTree(t, s, next))
    ensures var l := At(t, RotatedSplit(t, s).value);
            var back := RotatedTree(RotatedTree(t, s, next), again, next);
            if l.ctx.Top? then back == t
            else (exists id :: back == Plug(l.ctx, Renamed(l.tree, id)))
                 <==> l.ctx.axis != l.tree.axis && Restorable(Shares(l.tree.kids), l.ctx.share)
                      && forall k | k in l.ctx.left + l.ctx.right :: Opposite(k.tree, l.ctx.axis)
  {
    hide Plug, Bag, BagKids, Locate, Distinct, Leaves, Panes, RotateAt, Flat, Toggle, Scaled, Restorable, Sum, Grouped;
    hide StandsAt;
    SplitToRotate(t, s);
    var split := RotatedSplit(t, s).value;
    var l := At(t, split);
    PlugSound(l.ctx, l.tree, 0);
    SplitSound(l.tree);
    var once := RotatedTree(t, s, next);
    assert once == RotateAt(l.ctx, l.tree);
    RotatedDistinct(l.ctx, l.tree);
    FirstInside(once, again);
    if l.ctx.Top? {
      PlugTop(l.tree);
      RootAgain(t, s, again, next);
    } else {
      InnerNodes(t, s, next);
      assert again.nodes == Ids(l.tree.kids);
      if l.ctx.axis == l.tree.axis {
        SameAxisAgain(l.ctx, l.tree, again, next);
      } else {
        OtherAxisAgain(l.ctx, l.tree, again, next);
      }
    }
  }

  /** In an alternating layout a group, and the root, always come back; a split inside another does, up to its id,
      exactly when its percentages are restorable. */
  lemma {:induction false} RotateAlternatingTwice(t: Tree, next: nat, s: PaneSelection, again: PaneSelection)
    requires WellFormed(t, next) && 0 < next < MAX_NODE_VALUE && Alternates(t)
    requires Follows(t, s) && |s.nodes| > 0 && s.nodes[0] in Bag(t) && (Groups(t, s) || RotatedSplit(t, s).Some?)
    requires Follows(RotatedTree(t, s, next), again) && again.nodes == RotatedNodes(t, s, next)
    ensures |again.nodes| > 0 && again.nodes[0] in Bag(RotatedTree(t, s, next))
    ensures Groups(t, s) ==> RotatedTree(RotatedTree(t, s, next), again, next + 1) == t
    ensures !Groups(t, s) ==>
              var split := RotatedSplit(t, s).value;
              && split in Bag(t) && At(t, split).tree.Split? && WellShared(At(t, split).tree)
              && var l, back := At(t, split), RotatedTree(RotatedTree(t, s, next), again, next);
              if l.ctx.Top? then back == t
              else (exists id :: back == Plug(l.ctx, Renamed(l.tree, id))) <==>
                     Restorable(Shares(l.tree.kids), l.ctx.share)
  {
    hide Plug, Bag, BagKids, Locate, Distinct, Sound, RotatedTree, Restorable, WellShared, Alternates;
    if Groups(t, s) {
      RotateGroupTwice(t, next, s, again);
      var r := RangeOf(t, s);
      PlugAlternates(r.c, r.p);
      OthersOpposite(r);
    } else {
      RotateSplitTwice(t, next, s, again);
      var l := At(t, RotatedSplit(t, s).value);
      PlugAlternates(l.ctx, l.tree);
      SidesOpposite(l.ctx, l.tree);
    }
  }

  lemma {:induction false} OthersOpposite(r: Range)
    requires r.p.Split? && r.first + r.count <= |r.p.kids| && Alternates(r.p)
    ensures forall k | k in r.Others() :: Opposite(k.tree, r.p.axis)
  {
    assert forall k :: k in r.Others() ==> k in r.p.kids;
  }

  lemma {:induction false} SidesOpposite(c: Ctx, u: Tree)
    requires AlternatesCtx(c) && Fits(c, u) && u.Split?
    ensures c.In? ==> c.axis != u.axis && forall k | k in c.left + c.right :: Opposite(k.tree, c.axis)
  {
  }
}
