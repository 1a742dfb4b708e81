/** The layout edits as operations on trees, and what each keeps. */
module PaneEdits {
  import opened Percentages
  import opened PaneTree

  datatype Insertion = Before | After

  ghost predicate SoundKids(ks: seq<Kid>, slack: NodeId) {
    forall k | k in ks :: Sound(k.tree, slack)
  }

  ghost predicate AlternatesKids(ks: seq<Kid>, axis: Axis) {
    forall k | k in ks :: Alternates(k.tree) && Opposite(k.tree, axis)
  }

  // ----- lists of children

  /** The same children with their shares scaled to a new total. */
  function Scaled(ks: seq<Kid>, total: int): (r: seq<Kid>)
    ensures |r| == |ks|
    ensures forall i :: 0 <= i < |r| ==> r[i].tree == ks[i].tree
  {
    if Weights(Shares(ks)) then Reshare(ks, Distribute(Shares(ks), total)) else ks
  }

  lemma {:induction false} ScaledProps(ks: seq<Kid>, total: int)
    requires |ks| > 0 && NonNegative(Shares(ks)) && total >= 0
    ensures Shares(Scaled(ks, total)) == Distribute(Shares(ks), total)
    ensures NonNegative(Shares(Scaled(ks, total))) && Sum(Shares(Scaled(ks, total))) == total
    ensures BagKids(Scaled(ks, total)) == BagKids(ks)
    ensures LeavesKids(Scaled(ks, total)) == LeavesKids(ks)
  {
    DistributeSum(Shares(ks), total);
    SameTrees(ks, Scaled(ks, total));
  }

  lemma {:induction false} ScaledKids(ks: seq<Kid>, total: int, slack: NodeId, axis: Axis)
    ensures SoundKids(ks, slack) ==> SoundKids(Scaled(ks, total), slack)
    ensures AlternatesKids(ks, axis) ==> AlternatesKids(Scaled(ks, total), axis)
  {
    hide Scaled, Sound, Alternates;
    SameKids(ks, Scaled(ks, total), slack, axis);
  }

  lemma {:induction false} SameKids(a: seq<Kid>, b: seq<Kid>, slack: NodeId, axis: Axis)
    requires |a| == |b| && forall i :: 0 <= i < |a| ==> a[i].tree == b[i].tree
    ensures SoundKids(a, slack) ==> SoundKids(b, slack)
    ensures AlternatesKids(a, axis) ==> AlternatesKids(b, axis)
  {
    hide Sound, Alternates, Opposite;
    forall k | k in b ensures exists i :: 0 <= i < |a| && a[i] in a && a[i].tree == k.tree {
      var i :| 0 <= i < |b| && b[i] == k;
      assert a[i] in a;
    }
  }

  /** Two neighbours share a percentage; the earlier one takes the odd point. */
  function Pair(added: Tree, target: Tree, share: int, insertion: Insertion): seq<Kid> {
    if insertion.Before? then [Kid(added, (share + 1) / 2), Kid(target, share / 2)]
    else [Kid(target, (share + 1) / 2), Kid(added, share / 2)]
  }

  lemma {:induction false} PairProps(added: Tree, target: Tree, share: int, insertion: Insertion)
    requires share >= 0
    ensures var p := Pair(added, target, share, insertion);
            && BagKids(p) == Bag(added) + Bag(target)
            && LeavesKids(p)
                 == (if insertion.Before? then Leaves(added) + Leaves(target) else Leaves(target) + Leaves(added))
            && NonNegative(Shares(p)) && Sum(Shares(p)) == share
  {
    var p := Pair(added, target, share, insertion);
    PairKids(p[0], p[1]);
    assert [p[0]] + [p[1]] == p;
  }

  lemma {:induction false} PairKids(a: Kid, b: Kid)
    ensures BagKids([a] + [b]) == Bag(a.tree) + Bag(b.tree)
    ensures LeavesKids([a] + [b]) == Leaves(a.tree) + Leaves(b.tree)
    ensures Shares([a] + [b]) == [a.share] + [b.share]
    ensures Sum(Shares([a] + [b])) == a.share + b.share
  {
    KidsCons(a, [b]);
    KidsCons(b, []);
    assert [b] + [] == [b] && Shares([b]) == [b.share];
  }

  predicate Matches(t: Tree, axis: Axis) {
    t.Split? && t.axis == axis
  }

  /** A child whose axis repeats its parent's is replaced by its own children. */
  function Promoted(k: Kid, axis: Axis): seq<Kid> {
    if Matches(k.tree, axis) then Scaled(k.tree.kids, k.share) else [k]
  }

  function Flat(ks: seq<Kid>, axis: Axis): seq<Kid> {
    if ks == [] then [] else Promoted(ks[0], axis) + Flat(ks[1..], axis)
  }

  function Flattened(t: Tree): Tree
    requires t.Split?
  {
    Split(t.id, t.axis, Flat(t.kids, t.axis))
  }

  ghost function Dropped(k: Kid, axis: Axis): multiset<NodeId> {
    if Matches(k.tree, axis) then multiset{k.tree.id} else multiset{}
  }

  ghost function DroppedKids(ks: seq<Kid>, axis: Axis): multiset<NodeId> {
    if ks == [] then multiset{} else Dropped(ks[0], axis) + DroppedKids(ks[1..], axis)
  }

  lemma {:induction false} PromotedProps(k: Kid, axis: Axis, slack: NodeId)
    requires Sound(k.tree, slack) && k.share >= 0
    ensures var p := Promoted(k, axis);
            && Dropped(k, axis) + BagKids(p) == Bag(k.tree)
            && LeavesKids(p) == Leaves(k.tree)
            && |p| >= 1 && NonNegative(Shares(p)) && Sum(Shares(p)) == k.share
            && SoundKids(p, slack)
    ensures Alternates(k.tree) ==> AlternatesKids(Promoted(k, axis), axis)
  {
    if Matches(k.tree, axis) {
      ScaledProps(k.tree.kids, k.share);
      ScaledKids(k.tree.kids, k.share, slack, axis);
    } else {
      BagMiddle([], k, []);
      LeavesMiddle([], k, []);
      SharesMiddle([], k, []);
      assert [] + [k] + [] == [k];
    }
  }

  lemma {:induction false} FlatProps(ks: seq<Kid>, axis: Axis, slack: NodeId)
    requires SoundKids(ks, slack) && NonNegative(Shares(ks))
    ensures var f := Flat(ks, axis);
            && DroppedKids(ks, axis) + BagKids(f) == BagKids(ks)
            && LeavesKids(f) == LeavesKids(ks)
            && |f| >= |ks| && NonNegative(Shares(f)) && Sum(Shares(f)) == Sum(Shares(ks))
            && SoundKids(f, slack)
  {
    if ks != [] {
      hide Promoted, Dropped, Sound, SoundKids, Bag, BagKids, Leaves, LeavesKids, NonNegative, Sum, Shares;
      var k, rest := ks[0], ks[1..];
      var p, f := Promoted(k, axis), Flat(rest, axis);
      assert ks == [k] + rest;
      KidsCons(k, rest);
      SoundCons(k, rest, slack);
      PromotedProps(k, axis, slack);
      FlatProps(rest, axis, slack);
      BagAppend(p, f);
      LeavesAppend(p, f);
      SharesAppend(p, f);
      SoundAppend(p, f, slack);
      Exchange(Dropped(k, axis), DroppedKids(rest, axis), BagKids(p), BagKids(f));
    } else {
      assert Flat(ks, axis) == [];
    }
  }

  lemma {:induction false} SoundAppend(a: seq<Kid>, b: seq<Kid>, slack: NodeId)
    ensures SoundKids(a + b, slack) <==> SoundKids(a, slack) && SoundKids(b, slack)
  {
    hide Sound;
    assert forall k :: k in a + b <==> k in a || k in b;
  }

  lemma {:induction false} SoundCons(k: Kid, rest: seq<Kid>, slack: NodeId)
    ensures SoundKids([k] + rest, slack) <==> Sound(k.tree, slack) && SoundKids(rest, slack)
  {
    hide Sound;
    assert forall j :: j in [k] + rest <==> j == k || j in rest;
  }

  lemma {:induction false} FlatAlternates(ks: seq<Kid>, axis: Axis, slack: NodeId)
    requires SoundKids(ks, slack) && NonNegative(Shares(ks))
    requires forall k | k in ks :: Alternates(k.tree)
    ensures AlternatesKids(Flat(ks, axis), axis)
  {
    if ks != [] {
      hide Promoted, Sound, Sum;
      assert ks == [ks[0]] + ks[1..];
      KidsCons(ks[0], ks[1..]);
      PromotedProps(ks[0], axis, slack);
      FlatAlternates(ks[1..], axis, slack);
    }
  }

  lemma {:induction false} FlatAppend(a: seq<Kid>, b: seq<Kid>, axis: Axis)
    ensures Flat(a + b, axis) == Flat(a, axis) + Flat(b, axis)
    ensures DroppedKids(a + b, axis) == DroppedKids(a, axis) + DroppedKids(b, axis)
  {
    if a == [] {
      assert a + b == b;
    } else {
      hide Promoted, Dropped;
      assert (a + b)[1..] == a[1..] + b;
      FlatAppend(a[1..], b, axis);
      Assoc(Promoted(a[0], axis), Flat(a[1..], axis), Flat(b, axis));
    }
  }

  /** Children that already have the other axis are left alone. */
  lemma {:induction false} FlatOpposite(ks: seq<Kid>, axis: Axis)
    requires forall k | k in ks :: Opposite(k.tree, axis)
    ensures Flat(ks, axis) == ks && DroppedKids(ks, axis) == multiset{}
  {
    if ks != [] {
      assert ks == [ks[0]] + ks[1..];
      FlatOpposite(ks[1..], axis);
    }
  }

  // ----- turning every axis of a subtree

  function Toggle(t: Tree): (r: Tree)
    ensures r.id == t.id && (r.Leaf? <==> t.Leaf?)
    decreases t
  {
    if t.Leaf? then t
    else Split(t.id, Other(t.axis),
               seq(|t.kids|, i requires 0 <= i < |t.kids| => Kid(Toggle(t.kids[i].tree), t.kids[i].share)))
  }

  function ToggleKids(ks: seq<Kid>): (r: seq<Kid>)
    ensures |r| == |ks|
    ensures forall i :: 0 <= i < |r| ==> r[i] == Kid(Toggle(ks[i].tree), ks[i].share)
  {
    seq(|ks|, i requires 0 <= i < |ks| => Kid(Toggle(ks[i].tree), ks[i].share))
  }

  lemma {:induction false} ToggleUnfold(t: Tree)
    requires t.Split?
    ensures Toggle(t) == Split(t.id, Other(t.axis), ToggleKids(t.kids))
  {
    assert Toggle(t).kids == ToggleKids(t.kids);
  }

  lemma {:induction false} ToggleKidsAppend(a: seq<Kid>, b: seq<Kid>)
    ensures ToggleKids(a + b) == ToggleKids(a) + ToggleKids(b)
    ensures Shares(ToggleKids(a)) == Shares(a)
  {
  }

  /** Turning axes keeps the nodes, the leaves and the shares. */
  lemma {:induction false} ToggleProps(t: Tree, slack: NodeId)
    ensures Bag(Toggle(t)) == Bag(t) && Leaves(Toggle(t)) == Leaves(t)
    ensures Sound(t, slack) <==> Sound(Toggle(t), slack)
    decreases t, 1
  {
    if t.Split? {
      ToggleUnfold(t);
      ToggleKidsProps(t.kids, slack);
    }
  }

  lemma {:induction false} ToggleKidsCons(ks: seq<Kid>)
    requires ks != []
    ensures ks == [ks[0]] + ks[1..]
    ensures ToggleKids(ks) == [Kid(Toggle(ks[0].tree), ks[0].share)] + ToggleKids(ks[1..])
  {
    hide Toggle;
  }

  lemma {:induction false} ToggleKidsProps(ks: seq<Kid>, slack: NodeId)
    ensures BagKids(ToggleKids(ks)) == BagKids(ks)
    ensures LeavesKids(ToggleKids(ks)) == LeavesKids(ks)
    ensures Shares(ToggleKids(ks)) == Shares(ks)
    ensures SoundKids(ks, slack) <==> SoundKids(ToggleKids(ks), slack)
    decreases ks, 0
  {
    assert Shares(ToggleKids(ks)) == Shares(ks);
    if ks == [] {
      assert ToggleKids(ks) == [];
    } else {
      hide Sound, SoundKids, Bag, BagKids, Leaves, LeavesKids, Sum, Toggle;
      var k, rest := ks[0], ks[1..];
      assert (ks decreases to k);
      ToggleProps(k.tree, slack);
      ToggleKidsProps(rest, slack);
      var tk := Kid(Toggle(k.tree), k.share);
      ToggleKidsCons(ks);
      hide ToggleKids;
      KidsCons(k, rest);
      KidsCons(tk, ToggleKids(rest));
      SoundCons(k, rest, slack);
      SoundCons(tk, ToggleKids(rest), slack);
    }
  }

  /** Turning axes keeps alternation, and doing it twice restores the tree. */
  lemma {:induction false} ToggleTwice(t: Tree)
    ensures Toggle(Toggle(t)) == t
    ensures Alternates(t) ==> Alternates(Toggle(t))
    decreases t
  {
    if t.Split? {
      ToggleUnfold(t);
      ToggleUnfold(Toggle(t));
      forall i | 0 <= i < |t.kids|
        ensures ToggleKids(ToggleKids(t.kids))[i] == t.kids[i]
        ensures Alternates(t) ==> Alternates(ToggleKids(t.kids)[i].tree)
      {
        assert t.kids[i] in t.kids;
        ToggleTwice(t.kids[i].tree);
      }
      assert ToggleKids(ToggleKids(t.kids)) == t.kids;
      if Alternates(t) {
        forall k | k in ToggleKids(t.kids) ensures Alternates(k.tree) && Opposite(k.tree, Other(t.axis)) {
          var i :| 0 <= i < |t.kids| && k == ToggleKids(t.kids)[i];
          assert t.kids[i] in t.kids;
        }
      }
    }
  }

  // ----- edits at a located node

  /** The innermost split of a context with ks standing in the hole. */
  function Place(c: Ctx, ks: seq<Kid>): Tree
    requires c.In?
  {
    Plug(c.up, Split(c.id, c.axis, c.left + ks + c.right))
  }

  lemma {:induction false} PlaceBag(c: Ctx, ks: seq<Kid>)
    requires c.In?
    ensures Bag(Place(c, ks)) == CtxBag(c) + BagKids(ks)
    ensures Leaves(Place(c, ks)) == LeavesBefore(c) + LeavesKids(ks) + LeavesAfter(c)
  {
    hide Plug;
    var s := Split(c.id, c.axis, c.left + ks + c.right);
    PlugBag(c.up, s);
    PlugLeaves(c.up, s);
    BagAppend(c.left + ks, c.right);
    BagAppend(c.left, ks);
    LeavesAppend(c.left + ks, c.right);
    LeavesAppend(c.left, ks);
    Regroup(LeavesBefore(c.up), LeavesKids(c.left), LeavesKids(ks), LeavesKids(c.right), LeavesAfter(c.up));
  }

  lemma {:induction false} PlaceSound(c: Ctx, ks: seq<Kid>, slack: NodeId)
    requires c.In? && SoundCtx(c, slack) && SoundKids(ks, slack)
    requires NonNegative(Shares(ks)) && Sum(Shares(ks)) == c.share && |ks| >= 1
    ensures Sound(Place(c, ks), slack)
  {
    hide NonNegative, Sum, Plug;
    var s := Split(c.id, c.axis, c.left + ks + c.right);
    SharesAppend(c.left + ks, c.right);
    SharesAppend(c.left, ks);
    assert SoundKids(c.left + ks + c.right, slack) by {
      assert forall k :: k in s.kids ==> k in c.left + c.right || k in ks;
    }
    PlugSound(c.up, s, slack);
  }

  lemma {:induction false} PlaceAlternates(c: Ctx, ks: seq<Kid>)
    requires c.In? && AlternatesCtx(c)
    ensures Alternates(Place(c, ks)) <==> AlternatesKids(ks, c.axis)
  {
    hide Plug;
    var s := Split(c.id, c.axis, c.left + ks + c.right);
    assert forall k :: k in s.kids <==> k in c.left + c.right || k in ks;
    PlugAlternates(c.up, s);
  }

  /** Replace a unary split, standing in context c, by its only child. */
  function DissolveAt(c: Ctx, child: Tree): Tree {
    if c.Top? then child else Place(c, Promoted(Kid(child, c.share), c.axis))
  }

  ghost function DissolveDrop(c: Ctx, child: Tree): multiset<NodeId> {
    if c.Top? then multiset{} else Dropped(Kid(child, c.share), c.axis)
  }

  lemma {:induction false} DissolveProps(c: Ctx, child: Tree, slack: NodeId)
    requires SoundCtx(c, slack) && Sound(child, slack)
    ensures DissolveDrop(c, child) + Bag(DissolveAt(c, child)) == CtxBag(c) + Bag(child)
    ensures Leaves(DissolveAt(c, child)) == LeavesBefore(c) + Leaves(child) + LeavesAfter(c)
    ensures Sound(DissolveAt(c, child), slack)
  {
    if c.In? {
      hide Promoted, Place, Dropped, Sound, NonNegative, Sum;
      var k := Kid(child, c.share);
      PromotedProps(k, c.axis, slack);
      PlaceBag(c, Promoted(k, c.axis));
      PlaceSound(c, Promoted(k, c.axis), slack);
    }
  }

  lemma {:induction false} DissolveAlternates(c: Ctx, child: Tree, slack: NodeId)
    requires Sound(child, slack) && (c.In? ==> c.share >= 0)
    requires AlternatesCtx(c) && Alternates(child)
    ensures Alternates(DissolveAt(c, child))
  {
    if c.In? {
      PromotedProps(Kid(child, c.share), c.axis, slack);
      PlaceAlternates(c, Promoted(Kid(child, c.share), c.axis));
    }
  }

  // ----- splitting a leaf

  function SplitAt(c: Ctx, target: Tree, axis: Axis, added: Tree, insertion: Insertion, splitId: NodeId): Tree {
    if c.In? && c.axis == axis then Place(c, Pair(added, target, c.share, insertion))
    else Plug(c, Split(splitId, axis, Pair(added, target, MAX_PERCENTAGE, insertion)))
  }

  lemma {:induction false} SplitProps(c: Ctx, target: Tree, axis: Axis, added: Tree, insertion: Insertion,
                                      splitId: NodeId)
    requires SoundCtx(c, 0) && target.Leaf? && added.Leaf?
    ensures var t := SplitAt(c, target, axis, added, insertion, splitId);
            && Bag(t) == CtxBag(c) + (Bag(added) + Bag(target))
                         + (if c.In? && c.axis == axis then multiset{} else multiset{splitId})
            && Leaves(t) == LeavesBefore(c)
                            + (if insertion.Before? then Leaves(added) + Leaves(target)
                               else Leaves(target) + Leaves(added))
                            + LeavesAfter(c)
            && Sound(t, 0)
  {
    hide Place, Plug, Bag, BagKids, Leaves, LeavesKids, Sum, NonNegative, CtxBag, LeavesBefore, LeavesAfter, Pair;
    var share := if c.In? && c.axis == axis then c.share else MAX_PERCENTAGE;
    var p := Pair(added, target, share, insertion);
    PairProps(added, target, share, insertion);
    PairLeaves(added, target, share, insertion);
    if c.In? && c.axis == axis {
      PlaceBag(c, p);
      PlaceSound(c, p, 0);
    } else {
      var s := Split(splitId, axis, p);
      SplitNode(splitId, axis, p);
      PlugBag(c, s);
      PlugLeaves(c, s);
      PlugSound(c, s, 0);
    }
  }

  lemma {:induction false} PairLeaves(added: Tree, target: Tree, share: int, insertion: Insertion)
    requires target.Leaf? && added.Leaf?
    ensures SoundKids(Pair(added, target, share, insertion), 0)
    ensures |Pair(added, target, share, insertion)| == 2
  {
  }

  lemma {:induction false} SplitAlternates(c: Ctx, target: Tree, axis: Axis, added: Tree, insertion: Insertion,
                                           splitId: NodeId)
    requires AlternatesCtx(c) && target.Leaf? && added.Leaf?
    ensures Alternates(SplitAt(c, target, axis, added, insertion, splitId))
  {
    hide Plug;
    if c.In? && c.axis == axis {
      PlaceAlternates(c, Pair(added, target, c.share, insertion));
    } else {
      var s := Split(splitId, axis, Pair(added, target, MAX_PERCENTAGE, insertion));
      assert Alternates(s);
      PlugAlternates(c, s);
    }
  }

  // ----- removing a leaf

  function RemoveAt(c: Ctx): Tree
    requires c.In? && |c.left| + |c.right| >= 1
  {
    var rest := Scaled(c.left + c.right, MAX_PERCENTAGE);
    if |rest| == 1 then DissolveAt(c.up, rest[0].tree) else Plug(c.up, Split(c.id, c.axis, rest))
  }

  ghost function RemoveDrop(c: Ctx): multiset<NodeId>
    requires c.In? && |c.left| + |c.right| >= 1
  {
    var rest := Scaled(c.left + c.right, MAX_PERCENTAGE);
    if |rest| == 1 then multiset{c.id} + DissolveDrop(c.up, rest[0].tree) else multiset{}
  }

  /** What stays at a level once the hole is closed up. */
  lemma {:induction false} RestProps(c: Ctx, slack: NodeId)
    requires c.In? && SoundCtx(c, slack) && |c.left| + |c.right| >= 1
    ensures var rest := Scaled(c.left + c.right, MAX_PERCENTAGE);
            && BagKids(rest) == BagKids(c.left) + BagKids(c.right)
            && LeavesKids(rest) == LeavesKids(c.left) + LeavesKids(c.right)
            && ShareSum(rest) && SoundKids(rest, slack) && |rest| == |c.left| + |c.right|
            && (AlternatesCtx(c) ==> AlternatesKids(rest, c.axis))
  {
    var ks := c.left + c.right;
    BagAppend(c.left, c.right);
    LeavesAppend(c.left, c.right);
    SharesAppend(c.left, c.right);
    ScaledProps(ks, MAX_PERCENTAGE);
    ScaledKids(ks, MAX_PERCENTAGE, slack, c.axis);
  }

  lemma {:induction false} RemoveProps(c: Ctx)
    requires c.In? && SoundCtx(c, 0) && |c.left| + |c.right| >= 1
    ensures RemoveDrop(c) + Bag(RemoveAt(c)) == CtxBag(c)
    ensures Leaves(RemoveAt(c)) == LeavesBefore(c) + LeavesAfter(c)
    ensures Sound(RemoveAt(c), 0)
  {
    hide Scaled, Plug, NonNegative, Sum, DissolveAt, DissolveDrop, Bag, BagKids, Leaves, LeavesKids;
    var rest := Scaled(c.left + c.right, MAX_PERCENTAGE);
    RestProps(c, 0);
    Regroup(LeavesBefore(c.up), LeavesKids(c.left), [], LeavesKids(c.right), LeavesAfter(c.up));
    assert LeavesBefore(c.up) + LeavesKids(rest) + LeavesAfter(c.up) == LeavesBefore(c) + LeavesAfter(c);
    if |rest| == 1 {
      OnlyKid(rest);
      DissolveProps(c.up, rest[0].tree, 0);
      var dropped, result := DissolveDrop(c.up, rest[0].tree), Bag(DissolveAt(c.up, rest[0].tree));
      assert (multiset{c.id} + dropped) + result == multiset{c.id} + (dropped + result);
      assert multiset{c.id} + (CtxBag(c.up) + BagKids(rest)) == CtxBag(c);
    } else {
      var s := Split(c.id, c.axis, rest);
      SplitNode(c.id, c.axis, rest);
      PlugBag(c.up, s);
      PlugLeaves(c.up, s);
      PlugSound(c.up, s, 0);
    }
  }

  lemma {:induction false} OnlyKid(ks: seq<Kid>)
    requires |ks| == 1
    ensures BagKids(ks) == Bag(ks[0].tree) && LeavesKids(ks) == Leaves(ks[0].tree) && ks[0] in ks
  {
    assert ks == [ks[0]] + [];
    KidsCons(ks[0], []);
  }

  lemma {:induction false} RemoveAlternates(c: Ctx)
    requires c.In? && SoundCtx(c, 0) && |c.left| + |c.right| >= 1 && AlternatesCtx(c)
    ensures Alternates(RemoveAt(c))
  {
    hide Scaled, Plug, NonNegative, Sum, DissolveAt;
    var rest := Scaled(c.left + c.right, MAX_PERCENTAGE);
    RestProps(c, 0);
    if |rest| == 1 {
      assert rest[0] in rest;
      DissolveAlternates(c.up, rest[0].tree, 0);
    } else {
      PlugAlternates(c.up, Split(c.id, c.axis, rest));
    }
  }

  // ----- rotating

  lemma {:induction false} FlattenedProps(u: Tree, slack: NodeId)
    requires u.Split? && Sound(u, slack)
    ensures DroppedKids(u.kids, u.axis) + Bag(Flattened(u)) == Bag(u)
    ensures Leaves(Flattened(u)) == Leaves(u) && Sound(Flattened(u), slack)
  {
    FlatProps(u.kids, u.axis, slack);
    var d, b := DroppedKids(u.kids, u.axis), BagKids(Flat(u.kids, u.axis));
    assert d + (multiset{u.id} + b) == multiset{u.id} + (d + b);
  }

  lemma {:induction false} PlugFlattened(c: Ctx, u: Tree, slack: NodeId)
    requires u.Split? && Sound(Plug(c, u), slack)
    ensures var t := Plug(c, Flattened(u));
            DroppedKids(u.kids, u.axis) + Bag(t) == Bag(Plug(c, u)) && Leaves(t) == Leaves(Plug(c, u))
            && Sound(t, slack)
  {
    hide Plug, Sound, SoundCtx, Bag, Leaves, Flattened;
    PlugSound(c, u, slack);
    FlattenedProps(u, slack);
    PlugBag(c, u);
    PlugLeaves(c, u);
    PlugBag(c, Flattened(u));
    PlugLeaves(c, Flattened(u));
    PlugSound(c, Flattened(u), slack);
    var d, b := DroppedKids(u.kids, u.axis), Bag(Flattened(u));
    assert d + (CtxBag(c) + b) == CtxBag(c) + (d + b);
  }

  /** Turn every axis below s, then flatten s into its parent if their axes now agree. */
  function RotateAt(c: Ctx, s: Tree): Tree
    requires s.Split?
  {
    if c.In? && c.axis == Other(s.axis) then Plug(c.up, Flattened(Fill(c, Toggle(s))))
    else Plug(c, Toggle(s))
  }

  ghost function RotateDrop(c: Ctx, s: Tree): multiset<NodeId>
    requires s.Split?
  {
    if c.In? && c.axis == Other(s.axis) then DroppedKids(Fill(c, Toggle(s)).kids, c.axis) else multiset{}
  }

  lemma {:induction false} ToggleInPlace(c: Ctx, s: Tree, slack: NodeId)
    ensures Bag(Plug(c, Toggle(s))) == Bag(Plug(c, s)) && Leaves(Plug(c, Toggle(s))) == Leaves(Plug(c, s))
    ensures Sound(Plug(c, Toggle(s)), slack) <==> Sound(Plug(c, s), slack)
  {
    hide Plug, Toggle, Sound, SoundCtx, Bag, Leaves;
    ToggleProps(s, slack);
    PlugBag(c, s);
    PlugBag(c, Toggle(s));
    PlugLeaves(c, s);
    PlugLeaves(c, Toggle(s));
    PlugSound(c, s, slack);
    PlugSound(c, Toggle(s), slack);
  }

  /** Rotation keeps every leaf in its place. */
  lemma {:induction false} RotateProps(c: Ctx, s: Tree)
    requires s.Split? && Sound(Plug(c, s), 0)
    ensures RotateDrop(c, s) + Bag(RotateAt(c, s)) == Bag(Plug(c, s))
    ensures Leaves(RotateAt(c, s)) == Leaves(Plug(c, s))
    ensures Sound(RotateAt(c, s), 0)
  {
    hide Toggle, Sound, SoundCtx, Bag, Leaves, Flattened;
    ToggleInPlace(c, s, 0);
    if c.In? && c.axis == Other(s.axis) {
      PlugFlattened(c.up, Fill(c, Toggle(s)), 0);
    }
  }

  lemma {:induction false} RotateAlternates(c: Ctx, s: Tree)
    requires s.Split? && Sound(Plug(c, s), 0) && Alternates(Plug(c, s))
    ensures Alternates(RotateAt(c, s))
  {
    hide Sound, SoundCtx;
    PlugAlternates(c, s);
    ToggleTwice(s);
    if c.In? && c.axis == Other(s.axis) {
      var u := Fill(c, Toggle(s));
      ToggleInPlace(c, s, 0);
      PlugSound(c.up, u, 0);
      assert forall k :: k in u.kids ==> k in c.left + c.right || k == Kid(Toggle(s), c.share);
      FlattenAlternates(u);
      PlugAlternates(c.up, Flattened(u));
    } else {
      PlugAlternates(c, Toggle(s));
    }
  }

  lemma {:induction false} FlattenAlternates(u: Tree)
    requires u.Split? && Sound(u, 0) && forall k | k in u.kids :: Alternates(k.tree)
    ensures Alternates(Flattened(u))
  {
    FlatAlternates(u.kids, u.axis, 0);
  }

  /** Group count neighbouring children, starting at first, below a new split of the other axis. */
  function Grouped(u: Tree, first: nat, count: nat, groupId: NodeId): Tree
    requires u.Split? && first + count <= |u.kids|
  {
    Split(u.id, u.axis, u.kids[..first] + [Group(u, u.kids[first..first + count], groupId)] + u.kids[first + count..])
  }

  /** The three stretches of a child list. */
  lemma {:induction false} Stretches(ks: seq<Kid>, first: nat, count: nat)
    requires first + count <= |ks|
    ensures var a, sel, b := ks[..first], ks[first..first + count], ks[first + count..];
            && ks == a + sel + b
            && BagKids(ks) == BagKids(a) + BagKids(sel) + BagKids(b)
            && LeavesKids(ks) == LeavesKids(a) + LeavesKids(sel) + LeavesKids(b)
            && Sum(Shares(ks)) == Sum(Shares(a)) + Sum(Shares(sel)) + Sum(Shares(b))
            && (NonNegative(Shares(ks)) <==>
                  NonNegative(Shares(a)) && NonNegative(Shares(sel)) && NonNegative(Shares(b)))
            && (forall k :: k in ks <==> k in a || k in sel || k in b)
  {
    hide BagKids, LeavesKids, Sum, NonNegative;
    var a, sel, b := ks[..first], ks[first..first + count], ks[first + count..];
    assert ks == a + sel + b;
    BagAppend(a + sel, b);
    BagAppend(a, sel);
    LeavesAppend(a + sel, b);
    LeavesAppend(a, sel);
    SharesAppend(a + sel, b);
    SharesAppend(a, sel);
  }

  function Group(u: Tree, sel: seq<Kid>, groupId: NodeId): Kid
    requires u.Split?
  {
    Kid(Split(groupId, Other(u.axis), ToggleKids(Scaled(sel, MAX_PERCENTAGE))), Sum(Shares(sel)))
  }

  lemma {:induction false} GroupProps(u: Tree, sel: seq<Kid>, groupId: NodeId)
    requires u.Split? && |sel| >= 2 && NonNegative(Shares(sel)) && SoundKids(sel, 0)
    ensures var g := Group(u, sel, groupId).tree;
            Bag(g) == multiset{groupId} + BagKids(sel) && Leaves(g) == LeavesKids(sel) && Sound(g, 0)
  {
    hide Toggle, Scaled, Sum, NonNegative, BagKids, LeavesKids, Distribute;
    var scaled := Scaled(sel, MAX_PERCENTAGE);
    ScaledProps(sel, MAX_PERCENTAGE);
    ScaledKids(sel, MAX_PERCENTAGE, 0, u.axis);
    ToggleKidsProps(scaled, 0);
    SplitNode(groupId, Other(u.axis), ToggleKids(scaled));
  }

  lemma {:induction false} GroupAlternates(u: Tree, sel: seq<Kid>, groupId: NodeId)
    requires u.Split? && forall k | k in sel :: Alternates(k.tree) && Opposite(k.tree, u.axis)
    ensures Alternates(Group(u, sel, groupId).tree)
  {
    hide Scaled;
    var ks := ToggleKids(Scaled(sel, MAX_PERCENTAGE));
    forall k | k in ks ensures Alternates(k.tree) && Opposite(k.tree, Other(u.axis)) {
      var i :| 0 <= i < |sel| && ks[i] == k;
      assert sel[i] in sel;
      ToggleTwice(sel[i].tree);
    }
  }

  /** Grouping adds one split and changes nothing else about nodes and leaves. */
  lemma {:induction false} GroupedProps(u: Tree, first: nat, count: nat, groupId: NodeId)
    requires u.Split? && first + count <= |u.kids| && 2 <= count < |u.kids| && Sound(u, 0)
    ensures Bag(Grouped(u, first, count, groupId)) == Bag(u) + multiset{groupId}
    ensures Leaves(Grouped(u, first, count, groupId)) == Leaves(u)
    ensures Sound(Grouped(u, first, count, groupId), 0)
  {
    hide Sum, NonNegative, BagKids, LeavesKids, Bag, Leaves;
    var a, sel, b := u.kids[..first], u.kids[first..first + count], u.kids[first + count..];
    var g := Group(u, sel, groupId);
    hide Group;
    Stretches(u.kids, first, count);
    SumNonNegative(Shares(sel));
    GroupProps(u, sel, groupId);
    GroupShare(u, sel, groupId);
    SplitNode(u.id, u.axis, u.kids);
    BagMiddle(a, g, b);
    LeavesMiddle(a, g, b);
    SharesMiddle(a, g, b);
    SplitNode(u.id, u.axis, a + [g] + b);
    assert forall k :: k in a + [g] + b <==> k in a || k == g || k in b;
  }

  lemma {:induction false} GroupedAlternates(u: Tree, first: nat, count: nat, groupId: NodeId)
    requires u.Split? && first + count <= |u.kids| && Alternates(u)
    ensures Alternates(Grouped(u, first, count, groupId))
  {
    var a, sel, b := u.kids[..first], u.kids[first..first + count], u.kids[first + count..];
    Stretches(u.kids, first, count);
    GroupAlternates(u, sel, groupId);
    GroupShare(u, sel, groupId);
    var g := Group(u, sel, groupId);
    hide Group;
    assert forall k :: k in a + [g] + b <==> k in a || k == g || k in b;
  }

  lemma {:induction false} GroupShare(u: Tree, sel: seq<Kid>, groupId: NodeId)
    requires u.Split?
    ensures Group(u, sel, groupId).share == Sum(Shares(sel))
    ensures Group(u, sel, groupId).tree.Split? && Group(u, sel, groupId).tree.axis == Other(u.axis)
  {
  }

  /** New percentages for every child of a split. */
  function Reweighted(u: Tree, weights: seq<int>): Tree
    requires u.Split? && |weights| == |u.kids| && Weights(weights)
  {
    Split(u.id, u.axis, Reshare(u.kids, Normalize(weights)))
  }

  lemma {:induction false} ReweightedProps(u: Tree, weights: seq<int>)
    requires u.Split? && |weights| == |u.kids| && Weights(weights) && Sound(u, 0)
    ensures Bag(Reweighted(u, weights)) == Bag(u) && Leaves(Reweighted(u, weights)) == Leaves(u)
    ensures Sound(Reweighted(u, weights), 0)
    ensures Alternates(u) ==> Alternates(Reweighted(u, weights))
  {
    var ks := Reshare(u.kids, Normalize(weights));
    DistributeSum(weights, MAX_PERCENTAGE);
    SameTrees(u.kids, ks);
    SameKids(u.kids, ks, 0, u.axis);
  }
}
