/** Moving and swapping subtrees, read as operations on trees. */
module MoveTrees {
  import opened Percentages
  import opened PaneTree
  import opened PaneNodes
  import opened PaneEdits
  import opened LayoutMaps

  /** A stretch of neighbouring children of the split p, which stands in context c. */
  datatype Range = Range(c: Ctx, p: Tree, first: nat, count: nat) {
    ghost predicate Ok() {
      p.Split? && 1 <= count && first + count <= |p.kids| && (count == |p.kids| ==> c.In?)
    }

    function Sel(): seq<Kid>
      requires p.Split? && first + count <= |p.kids|
    {
      p.kids[first..first + count]
    }

    function Others(): seq<Kid>
      requires p.Split? && first + count <= |p.kids|
    {
      p.kids[..first] + p.kids[first + count..]
    }

    function Whole(): bool {
      p.Split? && count == |p.kids|
    }
  }

  // ----- taking the source out

  /** The split that may be left with a single child once the source is gone. */
  function CleanupId(r: Range): NodeId
    requires r.Ok()
  {
    if r.Whole() then r.c.id else r.p.id
  }

  function Source(r: Range, groupId: NodeId): Tree
    requires r.Ok()
  {
    if r.Whole() then r.p
    else if r.count == 1 then r.Sel()[0].tree
    else Split(groupId, r.p.axis, Scaled(r.Sel(), MAX_PERCENTAGE))
  }

  function Remainder(r: Range): Tree
    requires r.Ok()
  {
    if r.Whole() then Plug(r.c.up, ClosedUp(r.c))
    else Plug(r.c, Split(r.p.id, r.p.axis, Scaled(r.Others(), MAX_PERCENTAGE)))
  }

  function NeedsGroup(r: Range): bool {
    !r.Whole() && r.count > 1
  }

  ghost function LeavesLeft(r: Range): seq<LeafRef>
    requires r.Ok()
  {
    if r.Whole() then LeavesBefore(r.c) else LeavesBefore(r.c) + LeavesKids(r.p.kids[..r.first])
  }

  ghost function LeavesRight(r: Range): seq<LeafRef>
    requires r.Ok()
  {
    if r.Whole() then LeavesAfter(r.c) else LeavesKids(r.p.kids[r.first + r.count..]) + LeavesAfter(r.c)
  }

  ghost predicate RangeSound(r: Range) {
    r.Ok() && Sound(Plug(r.c, r.p), 0) && 0 !in Bag(Plug(r.c, r.p))
  }

  lemma {:induction false} WholeKids(r: Range)
    requires r.Ok() && r.Whole()
    ensures r.first == 0 && r.Sel() == r.p.kids
  {
  }

  lemma {:induction false} CtxIdPositive(c: Ctx, t: Tree)
    requires c.In? && 0 !in Bag(Plug(c, t)) && SoundCtx(c, 0)
    ensures c.id != 0 && |c.left| + |c.right| >= 1
  {
    PlugBag(c, t);
    CtxBagIn(c);
  }

  /** Extraction splits the nodes between the remainder and the source; a group is the only new one. */
  lemma {:induction false} ExtractIds(r: Range, groupId: NodeId)
    requires RangeSound(r)
    ensures Bag(Remainder(r)) + Bag(Source(r, groupId))
         == Bag(Plug(r.c, r.p)) + if NeedsGroup(r) then multiset{groupId} else multiset{}
  {
    hide Plug, Sound, SoundCtx, Bag, BagKids, Scaled, Sum, NonNegative;
    PlugBag(r.c, r.p);
    PlugSound(r.c, r.p, 0);
    if r.Whole() {
      CtxIdPositive(r.c, r.p);
      RestProps(r.c, 0);
      SplitNode(r.c.id, r.c.axis, ClosedUp(r.c).kids);
      PlugBag(r.c.up, ClosedUp(r.c));
      CtxBagIn(r.c);
    } else {
      PartIds(r, groupId);
    }
  }

  lemma {:induction false} PartIds(r: Range, groupId: NodeId)
    requires r.Ok() && !r.Whole() && Sound(r.p, 0)
    ensures Bag(Remainder(r)) + Bag(Source(r, groupId))
         == CtxBag(r.c) + Bag(r.p) + if NeedsGroup(r) then multiset{groupId} else multiset{}
  {
    hide Plug, Sound, Bag, BagKids, Scaled, Sum, NonNegative;
    var rest := Split(r.p.id, r.p.axis, Scaled(r.Others(), MAX_PERCENTAGE));
    PartKids(r);
    PlugBag(r.c, rest);
    SplitNode(r.p.id, r.p.axis, r.p.kids);
    SplitNode(rest.id, rest.axis, rest.kids);
    SplitNode(groupId, r.p.axis, Scaled(r.Sel(), MAX_PERCENTAGE));
    if r.count == 1 {
      OnlyKid(r.Sel());
    }
  }

  /** The three stretches of the level a proper range is taken from. */
  lemma {:induction false} PartKids(r: Range)
    requires r.Ok() && !r.Whole() && Sound(r.p, 0)
    ensures BagKids(r.p.kids) == BagKids(r.Others()) + BagKids(r.Sel())
    ensures BagKids(Scaled(r.Others(), MAX_PERCENTAGE)) == BagKids(r.Others())
    ensures BagKids(Scaled(r.Sel(), MAX_PERCENTAGE)) == BagKids(r.Sel())
    ensures LeavesKids(Scaled(r.Others(), MAX_PERCENTAGE))
              == LeavesKids(r.p.kids[..r.first]) + LeavesKids(r.p.kids[r.first + r.count..])
    ensures LeavesKids(Scaled(r.Sel(), MAX_PERCENTAGE)) == LeavesKids(r.Sel())
    ensures LeavesKids(r.p.kids)
              == LeavesKids(r.p.kids[..r.first]) + LeavesKids(r.Sel()) + LeavesKids(r.p.kids[r.first + r.count..])
    ensures ShareSum(Scaled(r.Others(), MAX_PERCENTAGE)) && ShareSum(Scaled(r.Sel(), MAX_PERCENTAGE))
    ensures SoundKids(r.Others(), 0) && SoundKids(r.Sel(), 0)
    ensures Weights(Shares(r.Others())) && Weights(Shares(r.Sel()))
  {
    hide Bag, BagKids, Leaves, LeavesKids, Scaled, Sum, NonNegative, Distribute;
    var a, sel, b := r.p.kids[..r.first], r.Sel(), r.p.kids[r.first + r.count..];
    Stretches(r.p.kids, r.first, r.count);
    BagAppend(a, b);
    LeavesAppend(a, b);
    SharesAppend(a, b);
    ScaledProps(a + b, MAX_PERCENTAGE);
    ScaledProps(sel, MAX_PERCENTAGE);
    assert BagKids(a) + BagKids(sel) + BagKids(b) == BagKids(a) + BagKids(b) + BagKids(sel);
  }

  /** Extraction cuts one block out of the leaf sequence. */
  lemma {:induction false} ExtractLeaves(r: Range, groupId: NodeId)
    requires RangeSound(r)
    ensures Leaves(Plug(r.c, r.p)) == LeavesLeft(r) + LeavesKids(r.Sel()) + LeavesRight(r)
    ensures Leaves(Remainder(r)) == LeavesLeft(r) + LeavesRight(r)
    ensures Leaves(Source(r, groupId)) == LeavesKids(r.Sel())
  {
    hide Plug, Sound, SoundCtx, Bag, BagKids, Leaves, LeavesKids, Scaled, Sum, NonNegative, ClosedUp;
    PlugLeaves(r.c, r.p);
    PlugSound(r.c, r.p, 0);
    SplitNode(r.p.id, r.p.axis, r.p.kids);
    if r.Whole() {
      WholeKids(r);
      CtxIdPositive(r.c, r.p);
      WholeLeaves(r.c);
    } else {
      var rest := Split(r.p.id, r.p.axis, Scaled(r.Others(), MAX_PERCENTAGE));
      PartKids(r);
      SplitNode(rest.id, rest.axis, rest.kids);
      SplitNode(groupId, r.p.axis, Scaled(r.Sel(), MAX_PERCENTAGE));
      PlugLeaves(r.c, rest);
      if r.count == 1 {
        OnlyKid(r.Sel());
      }
      var x, a, m, b, y := LeavesBefore(r.c), LeavesKids(r.p.kids[..r.first]), LeavesKids(r.Sel()),
                           LeavesKids(r.p.kids[r.first + r.count..]), LeavesAfter(r.c);
      Regroup(x, a, m, b, y);
      Regroup(x, a, [], b, y);
      assert a + [] + b == a + b && (x + a) + [] + (b + y) == (x + a) + (b + y);
    }
  }

  lemma {:induction false} WholeLeaves(c: Ctx)
    requires c.In? && SoundCtx(c, 0) && |c.left| + |c.right| >= 1
    ensures Leaves(Plug(c.up, ClosedUp(c))) == LeavesBefore(c) + LeavesAfter(c)
  {
    CloseUpLeaves(c, Leaf(0, 0));
  }

  /** What is left is sound, but for the level the source came from, which may be down to one child. */
  lemma {:induction false} ExtractSound(r: Range, groupId: NodeId)
    requires RangeSound(r)
    ensures Sound(Remainder(r), CleanupId(r)) && Sound(Source(r, groupId), 0)
  {
    hide Plug, Sum, NonNegative, Scaled, CtxBag, BagKids;
    PlugSound(r.c, r.p, 0);
    PlugBag(r.c, r.p);
    if r.Whole() {
      assert 0 !in CtxBag(r.c);
      WholeSound(r.c);
    } else {
      PartSound(r, groupId);
    }
  }

  lemma {:induction false} WholeSound(c: Ctx)
    requires c.In? && SoundCtx(c, 0) && 0 !in CtxBag(c)
    ensures Sound(Plug(c.up, ClosedUp(c)), c.id)
  {
    CtxBagIn(c);
    RestProps(c, 0);
    SlackSoundCtx(c.up, c.id);
    SlackSoundKids(ClosedUp(c).kids, c.id);
    PlugSound(c.up, ClosedUp(c), c.id);
  }

  lemma {:induction false} SlackSoundKids(ks: seq<Kid>, slack: NodeId)
    requires SoundKids(ks, 0) && 0 !in BagKids(ks)
    ensures SoundKids(ks, slack)
  {
    forall k | k in ks ensures Sound(k.tree, slack) {
      KidBag(ks, k);
      SlackSound(k.tree, slack);
    }
  }

  lemma {:induction false} PartSound(r: Range, groupId: NodeId)
    requires r.Ok() && !r.Whole() && SoundCtx(r.c, 0) && Sound(r.p, 0) && 0 !in CtxBag(r.c) && 0 !in Bag(r.p)
    ensures Sound(Remainder(r), CleanupId(r)) && Sound(Source(r, groupId), 0)
  {
    hide Plug, Sum, NonNegative, Scaled, CtxBag, BagKids, SoundCtx;
    var rest := Split(r.p.id, r.p.axis, Scaled(r.Others(), MAX_PERCENTAGE));
    PartKids(r);
    ScaledKids(r.Others(), MAX_PERCENTAGE, 0, r.p.axis);
    ScaledKids(r.Sel(), MAX_PERCENTAGE, 0, r.p.axis);
    SplitNode(r.p.id, r.p.axis, r.p.kids);
    SlackSoundKids(rest.kids, r.p.id);
    SlackSoundCtx(r.c, r.p.id);
    PlugSound(r.c, rest, r.p.id);
    if r.count == 1 {
      OnlyKid(r.Sel());
    }
  }

  lemma {:induction false} ExtractAlternates(r: Range, groupId: NodeId)
    requires RangeSound(r) && Alternates(Plug(r.c, r.p))
    ensures Alternates(Remainder(r)) && Alternates(Source(r, groupId))
  {
    hide Plug, Sum, NonNegative, Scaled, CtxBag, BagKids, Bag, Sound, SoundCtx;
    PlugAlternates(r.c, r.p);
    PlugSound(r.c, r.p, 0);
    if r.Whole() {
      CtxIdPositive(r.c, r.p);
      RestProps(r.c, 0);
      PlugAlternates(r.c.up, ClosedUp(r.c));
    } else {
      var rest := Split(r.p.id, r.p.axis, Scaled(r.Others(), MAX_PERCENTAGE));
      Stretches(r.p.kids, r.first, r.count);
      assert forall k :: k in r.Others() ==> k in r.p.kids;
      ScaledKids(r.Others(), MAX_PERCENTAGE, 0, r.p.axis);
      ScaledKids(r.Sel(), MAX_PERCENTAGE, 0, r.p.axis);
      PlugAlternates(r.c, rest);
      if r.count == 1 {
        assert r.Sel()[0] in r.Sel();
      }
    }
  }

  // ----- putting the source next to the target

  /** Source and target side by side; the source's own children stand in for it when its axis repeats. */
  function JoinKids(source: Tree, target: Tree, share: int, axis: Axis, insertion: Insertion): seq<Kid> {
    if insertion.Before? then Promoted(Kid(source, (share + 1) / 2), axis) + [Kid(target, share / 2)]
    else [Kid(target, (share + 1) / 2)] + Promoted(Kid(source, share / 2), axis)
  }

  function InsertNextTo(d: Ctx, target: Tree, source: Tree, axis: Axis, insertion: Insertion, wrapperId: NodeId): Tree {
    if Joins(d, axis) then Place(d, JoinKids(source, target, d.share, axis, insertion))
    else Plug(d, Split(wrapperId, axis, JoinKids(source, target, MAX_PERCENTAGE, axis, insertion)))
  }

  lemma {:induction false} JoinProps(source: Tree, target: Tree, share: int, axis: Axis, insertion: Insertion,
                                     slack: NodeId)
    requires share >= 0 && Sound(source, slack) && Sound(target, slack)
    ensures var ks := JoinKids(source, target, share, axis, insertion);
            && Dropped(Kid(source, 0), axis) + BagKids(ks) == Bag(source) + Bag(target)
            && LeavesKids(ks)
                 == (if insertion.Before? then Leaves(source) + Leaves(target) else Leaves(target) + Leaves(source))
            && NonNegative(Shares(ks)) && Sum(Shares(ks)) == share && |ks| >= 2 && SoundKids(ks, slack)
  {
    hide Promoted, Sound, Bag, BagKids, Leaves, LeavesKids, Sum, NonNegative, Shares, Dropped;
    var mine := if insertion.Before? then (share + 1) / 2 else share / 2;
    var s, t := Kid(source, mine), Kid(target, share - mine);
    var p := Promoted(s, axis);
    PromotedProps(s, axis, slack);
    OneKid(t, slack);
    assert Dropped(s, axis) == Dropped(Kid(source, 0), axis) by {
      DroppedAnyShare(source, mine, axis);
    }
    if insertion.Before? {
      BagAppend(p, [t]);
      LeavesAppend(p, [t]);
      SharesAppend(p, [t]);
      SoundAppend(p, [t], slack);
      assert JoinKids(source, target, share, axis, insertion) == p + [t];
    } else {
      BagAppend([t], p);
      LeavesAppend([t], p);
      SharesAppend([t], p);
      SoundAppend([t], p, slack);
      assert JoinKids(source, target, share, axis, insertion) == [t] + p;
    }
  }

  lemma {:induction false} DroppedAnyShare(t: Tree, share: int, axis: Axis)
    ensures Dropped(Kid(t, share), axis) == Dropped(Kid(t, 0), axis)
  {
  }

  lemma {:induction false} OneKid(k: Kid, slack: NodeId)
    ensures BagKids([k]) == Bag(k.tree) && LeavesKids([k]) == Leaves(k.tree)
    ensures Sum(Shares([k])) == k.share && (NonNegative(Shares([k])) <==> k.share >= 0)
    ensures SoundKids([k], slack) <==> Sound(k.tree, slack)
  {
    hide Sound;
    OnlyKid([k]);
    assert Shares([k]) == [k.share] && [k.share][0] == k.share;
  }

  lemma {:induction false} JoinAlternates(source: Tree, target: Tree, share: int, axis: Axis, insertion: Insertion,
                                          slack: NodeId)
    requires share >= 0 && Sound(source, slack) && Alternates(source) && Alternates(target)
    ensures AlternatesKids(JoinKids(source, target, share, axis, insertion), axis) <==> Opposite(target, axis)
  {
    hide Sound, Alternates, Promoted, Opposite;
    var up, down := (share + 1) / 2, share / 2;
    if insertion.Before? {
      PromotedProps(Kid(source, up), axis, slack);
      WithKid(Promoted(Kid(source, up), axis), Kid(target, down), axis);
    } else {
      PromotedProps(Kid(source, down), axis, slack);
      WithKid(Promoted(Kid(source, down), axis), Kid(target, up), axis);
    }
  }

  lemma {:induction false} WithKid(p: seq<Kid>, t: Kid, axis: Axis)
    requires AlternatesKids(p, axis) && Alternates(t.tree)
    ensures AlternatesKids(p + [t], axis) <==> Opposite(t.tree, axis)
    ensures AlternatesKids([t] + p, axis) <==> Opposite(t.tree, axis)
  {
    hide Alternates, Opposite;
    assert forall k :: k in p + [t] <==> k in p || k == t;
    assert forall k :: k in [t] + p <==> k in p || k == t;
    assert t in p + [t] && t in [t] + p;
  }

  lemma {:induction false} InsertProps(d: Ctx, target: Tree, source: Tree, axis: Axis, insertion: Insertion,
                                       wrapperId: NodeId, slack: NodeId)
    requires SoundCtx(d, slack) && Sound(target, slack) && Sound(source, slack)
    ensures var t := InsertNextTo(d, target, source, axis, insertion, wrapperId);
            && Dropped(Kid(source, 0), axis) + Bag(t)
               == CtxBag(d) + (Bag(source) + Bag(target)) + (if Joins(d, axis) then multiset{} else multiset{wrapperId})
            && Leaves(t) == LeavesBefore(d)
                            + (if insertion.Before? then Leaves(source) + Leaves(target)
                               else Leaves(target) + Leaves(source))
                            + LeavesAfter(d)
            && Sound(t, slack)
  {
    hide Place, Plug, Bag, BagKids, Leaves, LeavesKids, Sum, NonNegative, CtxBag, LeavesBefore, LeavesAfter, JoinKids;
    hide Dropped;
    var share := if Joins(d, axis) then d.share else MAX_PERCENTAGE;
    var ks := JoinKids(source, target, share, axis, insertion);
    JoinProps(source, target, share, axis, insertion, slack);
    var gone := Dropped(Kid(source, 0), axis);
    if Joins(d, axis) {
      PlaceBag(d, ks);
      PlaceSound(d, ks, slack);
      assert gone + (CtxBag(d) + BagKids(ks)) == CtxBag(d) + (gone + BagKids(ks));
    } else {
      var s := Split(wrapperId, axis, ks);
      SplitNode(wrapperId, axis, ks);
      PlugBag(d, s);
      PlugLeaves(d, s);
      PlugSound(d, s, slack);
      assert gone + (CtxBag(d) + (multiset{wrapperId} + BagKids(ks)))
               == CtxBag(d) + (gone + BagKids(ks)) + multiset{wrapperId};
    }
  }

  /** Inserting keeps alternation exactly when the target is not itself a split of the placement axis. */
  lemma {:induction false} InsertAlternates(d: Ctx, target: Tree, source: Tree, axis: Axis, insertion: Insertion,
                                            wrapperId: NodeId, slack: NodeId)
    requires SoundCtx(d, slack) && Sound(source, slack) && Alternates(source) && Alternates(Plug(d, target))
    ensures Alternates(InsertNextTo(d, target, source, axis, insertion, wrapperId)) <==> Opposite(target, axis)
  {
    hide Plug, Sound, JoinKids;
    PlugAlternates(d, target);
    if Joins(d, axis) {
      JoinAlternates(source, target, d.share, axis, insertion, slack);
      PlaceAlternates(d, JoinKids(source, target, d.share, axis, insertion));
    } else {
      var s := Split(wrapperId, axis, JoinKids(source, target, MAX_PERCENTAGE, axis, insertion));
      JoinAlternates(source, target, MAX_PERCENTAGE, axis, insertion, slack);
      PlugAlternates(d, s);
    }
  }

  // ----- cleaning up

  /** Dissolve a split if it is down to one child. */
  ghost function Cleaned(t: Tree, cleanup: NodeId): Tree {
    if cleanup !in Bag(t) then t else
    var l := At(t, cleanup);
    if l.tree.Split? && |l.tree.kids| == 1 then DissolveAt(l.ctx, l.tree.kids[0].tree) else t
  }

  lemma {:induction false} CleanedProps(t: Tree, cleanup: NodeId)
    requires cleanup in Bag(t) && Sound(t, cleanup) && Distinct(Bag(t)) && 0 !in Bag(t)
    ensures Leaves(Cleaned(t, cleanup)) == Leaves(t)
    ensures Sound(Cleaned(t, cleanup), 0)
    ensures Bag(Cleaned(t, cleanup)) <= Bag(t)
  {
    hide Plug, Sound, SoundCtx, Bag, BagKids, Leaves, LeavesKids, DissolveAt, DissolveDrop, Distinct;
    var l := At(t, cleanup);
    PlugSound(l.ctx, l.tree, cleanup);
    if l.tree.Split? && |l.tree.kids| == 1 {
      var child := l.tree.kids[0].tree;
      KidSound(l.tree, 0, cleanup);
      DissolveProps(l.ctx, child, cleanup);
      PlugLeaves(l.ctx, l.tree);
      PlugBag(l.ctx, l.tree);
      OnlyKid(l.tree.kids);
      SplitNode(l.tree.id, l.tree.axis, l.tree.kids);
      CleanedGone(l.ctx, l.tree);
      SoundSlack(DissolveAt(l.ctx, child), cleanup);
    } else {
      NoSlack(t, l.ctx, l.tree, cleanup);
    }
  }

  lemma {:induction false} CleanedGone(c: Ctx, u: Tree)
    requires u.Split? && |u.kids| == 1 && Distinct(Bag(Plug(c, u)))
    requires DissolveDrop(c, u.kids[0].tree) + Bag(DissolveAt(c, u.kids[0].tree)) == CtxBag(c) + Bag(u.kids[0].tree)
    ensures Bag(DissolveAt(c, u.kids[0].tree)) <= Bag(Plug(c, u)) && u.id !in Bag(DissolveAt(c, u.kids[0].tree))
  {
    hide Plug, Bag, BagKids, DissolveAt, DissolveDrop, Distinct, CtxBag;
    var child := u.kids[0].tree;
    PlugBag(c, u);
    OnlyKid(u.kids);
    SplitNode(u.id, u.axis, u.kids);
    var d, b := DissolveDrop(c, child), Bag(DissolveAt(c, child));
    assert (multiset{u.id} + d) + b == multiset{u.id} + (d + b);
    assert (multiset{u.id} + d) + b == Bag(Plug(c, u)) + multiset{};
    assert Distinct(multiset{}) by {
      NoneDistinct();
    }
    BagDelta(Bag(Plug(c, u)), b, multiset{u.id} + d, multiset{});
  }

  lemma {:induction false} NoneDistinct()
    ensures Distinct(multiset{})
  {
  }

  /** A slack that is not used is not needed. */
  lemma {:induction false} NoSlack(t: Tree, c: Ctx, u: Tree, slack: NodeId)
    requires t == Plug(c, u) && u.id == slack && Sound(t, slack) && Distinct(Bag(t)) && !(u.Split? && |u.kids| == 1)
    ensures Sound(t, 0)
  {
    hide Plug, Sum, NonNegative, CtxBag, BagKids, SoundCtx, Distinct;
    PlugSound(c, u, slack);
    PlugBag(c, u);
    DistinctUnion(CtxBag(c), Bag(u));
    assert slack in Bag(u);
    SoundSlackCtx(c, slack);
    if u.Split? {
      SplitNode(u.id, u.axis, u.kids);
      DistinctUnion(multiset{u.id}, BagKids(u.kids));
      forall k | k in u.kids ensures Sound(k.tree, 0) {
        KidBag(u.kids, k);
        SoundSlack(k.tree, slack);
      }
    }
    PlugSound(c, u, 0);
  }

  lemma {:induction false} SoundSlackCtx(c: Ctx, slack: NodeId)
    requires SoundCtx(c, slack) && slack !in CtxBag(c)
    ensures SoundCtx(c, 0)
    decreases c
  {
    if c.In? {
      SoundSlackCtx(c.up, slack);
      BagAppend(c.left, c.right);
      forall k | k in c.left + c.right ensures Sound(k.tree, 0) {
        KidBag(c.left + c.right, k);
        SoundSlack(k.tree, slack);
      }
    }
  }

  /** Dissolving neither creates nor repairs a clash of axes, as long as the only child is not one. */
  lemma {:induction false} CleanedAlternates(t: Tree, cleanup: NodeId)
    requires cleanup in Bag(t) && Sound(t, cleanup) && Alternates(t)
    ensures Alternates(Cleaned(t, cleanup))
  {
    hide Plug, Sum, NonNegative, DissolveAt;
    var l := At(t, cleanup);
    PlugSound(l.ctx, l.tree, cleanup);
    PlugAlternates(l.ctx, l.tree);
    if l.tree.Split? && |l.tree.kids| == 1 {
      KidSound(l.tree, 0, cleanup);
      assert l.tree.kids[0] in l.tree.kids;
      DissolveAlternates(l.ctx, l.tree.kids[0].tree, cleanup);
    }
  }

  // ----- subtrees

  ghost predicate Within(s: Tree, t: Tree)
    decreases t
  {
    s == t || (t.Split? && exists k | k in t.kids :: Within(s, k.tree))
  }

  ghost predicate WithinCtx(s: Tree, c: Ctx)
    decreases c
  {
    c.In? && ((exists k | k in c.left + c.right :: Within(s, k.tree)) || WithinCtx(s, c.up))
  }

  lemma {:induction false} WithinBag(s: Tree, t: Tree)
    requires Within(s, t)
    ensures Bag(s) <= Bag(t) && s.id in Bag(t)
    decreases t
  {
    if s != t {
      var k :| k in t.kids && Within(s, k.tree);
      KidBag(t.kids, k);
      WithinBag(s, k.tree);
    }
  }

  /** A subtree of a filled context is inside the filling, beside the path, or around the filling. */
  lemma {:induction false} WithinPlug(s: Tree, c: Ctx, t: Tree)
    ensures Within(s, t) || WithinCtx(s, c) ==> Within(s, Plug(c, t))
    ensures Within(s, Plug(c, t)) ==> Within(s, t) || WithinCtx(s, c) || Bag(t) <= Bag(s)
    decreases c
  {
    if c.In? {
      hide Bag, BagKids;
      WithinPlug(s, c.up, Fill(c, t));
      WithinFill(s, c, t);
      FillContains(c, t);
    }
  }

  lemma {:induction false} FillContains(c: Ctx, t: Tree)
    requires c.In?
    ensures Bag(t) <= Bag(Fill(c, t))
  {
    BagMiddle(c.left, Kid(t, c.share), c.right);
  }

  lemma {:induction false} WithinFill(s: Tree, c: Ctx, t: Tree)
    requires c.In?
    ensures Within(s, Fill(c, t)) <==>
              s == Fill(c, t) || Within(s, t) || exists k | k in c.left + c.right :: Within(s, k.tree)
  {
    var u := Fill(c, t);
    assert forall k :: k in u.kids <==> k in c.left + c.right || k == Kid(t, c.share);
    assert Kid(t, c.share) in u.kids && Kid(t, c.share).tree == t;
  }

  lemma {:induction false} AtWithin(t: Tree, id: NodeId)
    requires id in Bag(t)
    ensures Within(At(t, id).tree, t)
  {
    WithinPlug(At(t, id).tree, At(t, id).ctx, At(t, id).tree);
  }

  /** The subtree with a given id is the one found by looking the id up. */
  lemma {:induction false} WithinAt(s: Tree, t: Tree)
    requires Within(s, t) && Distinct(Bag(t))
    ensures s.id in Bag(t) && At(t, s.id).tree == s
  {
    WithinBag(s, t);
    var c := Path(s, Top, t);
    AtPlug(c, s);
  }

  lemma {:induction false} Path(s: Tree, up: Ctx, t: Tree) returns (c: Ctx)
    requires Within(s, t)
    ensures Plug(c, s) == Plug(up, t)
    decreases t
  {
    if s == t {
      c := up;
    } else {
      var k :| k in t.kids && Within(s, k.tree);
      var i :| 0 <= i < |t.kids| && t.kids[i] == k;
      var inner := In(up, t.id, t.axis, t.kids[..i], k.share, t.kids[i + 1..]);
      assert Fill(inner, k.tree) == t;
      c := Path(s, inner, k.tree);
    }
  }

  // ----- the whole move

  /** The target is neither inside the selected subtrees nor around one of them. */
  ghost predicate Apart(t: Tree, sel: seq<Kid>, target: NodeId) {
    && target in Bag(t)
    && forall k | k in sel :: target !in Bag(k.tree) && k.tree.id !in Bag(At(t, target).tree)
  }

  ghost predicate Movable(r: Range, target: NodeId) {
    RangeSound(r) && Distinct(Bag(Plug(r.c, r.p))) && Apart(Plug(r.c, r.p), r.Sel(), target)
  }

  /** The target's subtree is still there, unchanged, when the source is gone. */
  lemma {:induction false} TargetStays(r: Range, target: NodeId)
    requires Movable(r, target)
    ensures Distinct(Bag(Remainder(r)))
    ensures target in Bag(Remainder(r))
    ensures At(Remainder(r), target).tree == At(Plug(r.c, r.p), target).tree
  {
    var t := Plug(r.c, r.p);
    var x := At(t, target).tree;
    AtWithin(t, target);
    WithinPlug(x, r.c, r.p);
    TargetNotAround(r, target, x);
    StaysWithin(r, x);
    RemainderDistinct(r);
    WithinAt(x, Remainder(r));
  }

  lemma {:induction false} RemainderDistinct(r: Range)
    requires RangeSound(r) && Distinct(Bag(Plug(r.c, r.p)))
    ensures Distinct(Bag(Remainder(r)))
    ensures forall x :: x in Bag(Remainder(r)) ==> x in Bag(Plug(r.c, r.p))
    ensures Distinct(Bag(Remainder(r)) + LessGroup(r))
  {
    hide Plug, Bag, Remainder, Distinct, Source;
    ExtractIds(r, 0);
    var t, rest, src := Bag(Plug(r.c, r.p)), Bag(Remainder(r)), Bag(Source(r, 0));
    if NeedsGroup(r) {
      GroupBag(r, 0);
      assert rest + BagKids(r.Sel()) + multiset{0} == t + multiset{0};
      Cancel(rest + BagKids(r.Sel()), t, 0);
      DistinctUnion(rest, BagKids(r.Sel()));
    } else {
      DistinctUnion(rest, src);
      assert t == rest + src;
    }
  }

  lemma {:induction false} Cancel(a: multiset<NodeId>, b: multiset<NodeId>, x: NodeId)
    requires a + multiset{x} == b + multiset{x}
    ensures a == b
  {
    forall y ensures a[y] == b[y] {
      assert (a + multiset{x})[y] == (b + multiset{x})[y];
    }
  }

  /** The nodes that leave with the source, without a possible group around them. */
  ghost function LessGroup(r: Range): multiset<NodeId>
    requires r.Ok()
  {
    if NeedsGroup(r) then BagKids(r.Sel()) else Bag(Source(r, 0))
  }

  lemma {:induction false} GroupBag(r: Range, groupId: NodeId)
    requires RangeSound(r) && NeedsGroup(r)
    ensures Bag(Source(r, groupId)) == multiset{groupId} + BagKids(r.Sel())
  {
    hide Plug, Scaled, SoundCtx;
    PlugSound(r.c, r.p, 0);
    PartKids(r);
    SplitNode(groupId, r.p.axis, Scaled(r.Sel(), MAX_PERCENTAGE));
  }

  lemma {:induction false} TargetNotAround(r: Range, target: NodeId, x: Tree)
    requires Movable(r, target) && x == At(Plug(r.c, r.p), target).tree
    ensures !(Bag(r.p) <= Bag(x)) && x != r.p
    ensures forall k | k in r.Sel() :: !Within(x, k.tree)
  {
    hide Plug, Sound;
    var k := r.Sel()[0];
    assert k in r.Sel() && k in r.p.kids;
    KidBag(r.p.kids, k);
    assert k.tree.id in Bag(k.tree);
    assert k.tree.id in Bag(r.p);
    assert x.id == target;
    forall j | j in r.Sel() ensures !Within(x, j.tree) {
      if Within(x, j.tree) {
        WithinBag(x, j.tree);
      }
    }
  }

  lemma {:induction false} StaysWithin(r: Range, x: Tree)
    requires r.Ok() && (Within(x, r.p) || WithinCtx(x, r.c)) && x != r.p
    requires forall k | k in r.Sel() :: !Within(x, k.tree)
    ensures Within(x, Remainder(r))
  {
    hide Plug, Scaled;
    if r.Whole() {
      WholeKids(r);
      WithinPlug(x, r.c.up, ClosedUp(r.c));
      if k :| k in r.c.left + r.c.right && Within(x, k.tree) {
        ScaledWithin(r.c.left + r.c.right, k);
      }
    } else {
      var rest := Split(r.p.id, r.p.axis, Scaled(r.Others(), MAX_PERCENTAGE));
      WithinPlug(x, r.c, rest);
      if Within(x, r.p) {
        var k :| k in r.p.kids && Within(x, k.tree);
        Stretches(r.p.kids, r.first, r.count);
        assert k in r.Others();
        ScaledWithin(r.Others(), k);
      }
    }
  }

  lemma {:induction false} ScaledWithin(ks: seq<Kid>, k: Kid)
    requires k in ks
    ensures exists j | j in Scaled(ks, MAX_PERCENTAGE) :: j.tree == k.tree
  {
    var i :| 0 <= i < |ks| && ks[i] == k;
    assert Scaled(ks, MAX_PERCENTAGE)[i] in Scaled(ks, MAX_PERCENTAGE);
  }

  function WrapperId(r: Range, next: nat): NodeId {
    if NeedsGroup(r) then next + 1 else next
  }

  /** Source inserted next to the target, before any cleaning up. */
  ghost function Inserted(r: Range, target: NodeId, axis: Axis, insertion: Insertion, next: nat): Tree
    requires r.Ok() && target in Bag(Remainder(r))
  {
    var l := At(Remainder(r), target);
    InsertNextTo(l.ctx, l.tree, Source(r, next), axis, insertion, WrapperId(r, next))
  }

  ghost function Moved(r: Range, target: NodeId, axis: Axis, insertion: Insertion, next: nat): Tree
    requires r.Ok() && target in Bag(Remainder(r))
  {
    Cleaned(Inserted(r, target, axis, insertion, next), CleanupId(r))
  }

  /** Cut block out of before and paste it, in one piece, right next to anchor: that is after. */
  ghost predicate CutAndPasted(before: seq<LeafRef>, after: seq<LeafRef>, block: seq<LeafRef>, anchor: seq<LeafRef>,
                               insertion: Insertion) {
    exists a, b, c, d ::
      && before == a + block + b
      && a + b == c + anchor + d
      && after == c + (if insertion.Before? then block + anchor else anchor + block) + d
  }

  lemma {:induction false} InsertedProps(r: Range, target: NodeId, axis: Axis, insertion: Insertion, next: nat)
    requires Movable(r, target)
    requires forall x :: x in Bag(Plug(r.c, r.p)) ==> x < next
    ensures target in Bag(Remainder(r))
    ensures var t, l := Inserted(r, target, axis, insertion, next), At(Remainder(r), target);
            && Dropped(Kid(Source(r, next), 0), axis) + Bag(t)
               == Bag(Remainder(r)) + Bag(Source(r, next))
               + (if Joins(l.ctx, axis) then multiset{} else multiset{WrapperId(r, next)})
            && Leaves(t) == LeavesBefore(l.ctx)
                            + (if insertion.Before? then Leaves(Source(r, next)) + Leaves(l.tree)
                               else Leaves(l.tree) + Leaves(Source(r, next)))
                            + LeavesAfter(l.ctx)
            && Sound(t, CleanupId(r))
  {
    hide Plug, Sound, SoundCtx, Bag, Leaves, Remainder, Source, InsertNextTo, CtxBag, Distinct;
    TargetStays(r, target);
    ExtractSound(r, next);
    var l := At(Remainder(r), target);
    PlugSound(l.ctx, l.tree, CleanupId(r));
    PlugBag(l.ctx, l.tree);
    SourceSlack(r, next);
    InsertProps(l.ctx, l.tree, Source(r, next), axis, insertion, WrapperId(r, next), CleanupId(r));
    assert CtxBag(l.ctx) + (Bag(Source(r, next)) + Bag(l.tree)) == Bag(Remainder(r)) + Bag(Source(r, next));
  }

  lemma {:induction false} SourceSlack(r: Range, next: nat)
    requires RangeSound(r) && next > 0
    ensures Sound(Source(r, next), CleanupId(r))
  {
    hide Plug, Sound, Bag, Remainder, Source;
    ExtractSound(r, next);
    ExtractIds(r, next);
    var rest, src := Bag(Remainder(r)), Bag(Source(r, next));
    assert (rest + src)[0] == rest[0] + src[0];
    SlackSound(Source(r, next), CleanupId(r));
  }

  /** A move changes the leaf sequence in exactly one way: the selected block is cut out and pasted,
      in order, right before or right after the target's block. */
  lemma {:induction false} MoveLeaves(r: Range, target: NodeId, axis: Axis, insertion: Insertion, next: nat)
    requires Movable(r, target)
    requires forall x :: x in Bag(Plug(r.c, r.p)) ==> x < next
    ensures target in Bag(Remainder(r))
    ensures CutAndPasted(Leaves(Plug(r.c, r.p)), Leaves(Moved(r, target, axis, insertion, next)),
                         LeavesKids(r.Sel()), Leaves(At(Plug(r.c, r.p), target).tree), insertion)
  {
    hide Plug, Sound, SoundCtx, Bag, Leaves, LeavesKids, LeavesBefore, LeavesAfter, LeavesLeft, LeavesRight, Remainder;
    hide Source, Distinct, Cleaned;
    TargetStays(r, target);
    InsertedProps(r, target, axis, insertion, next);
    ExtractLeaves(r, next);
    var l := At(Remainder(r), target);
    PlugLeaves(l.ctx, l.tree);
    InsertedDistinct(r, target, axis, insertion, next);
    MovedLeaves(r, target, axis, insertion, next);
    assert LeavesLeft(r) + LeavesRight(r) == LeavesBefore(l.ctx) + Leaves(l.tree) + LeavesAfter(l.ctx);
  }

  lemma {:induction false} MovedLeaves(r: Range, target: NodeId, axis: Axis, insertion: Insertion, next: nat)
    requires r.Ok() && target in Bag(Remainder(r))
    requires var t := Inserted(r, target, axis, insertion, next);
             Sound(t, CleanupId(r)) && Distinct(Bag(t)) && 0 !in Bag(t)
    ensures Leaves(Moved(r, target, axis, insertion, next)) == Leaves(Inserted(r, target, axis, insertion, next))
    ensures Sound(Moved(r, target, axis, insertion, next), 0)
    ensures Bag(Moved(r, target, axis, insertion, next)) <= Bag(Inserted(r, target, axis, insertion, next))
  {
    var t := Inserted(r, target, axis, insertion, next);
    if CleanupId(r) in Bag(t) {
      CleanedProps(t, CleanupId(r));
    } else {
      SoundSlack(t, CleanupId(r));
    }
  }

  lemma {:induction false} InsertedDistinct(r: Range, target: NodeId, axis: Axis, insertion: Insertion, next: nat)
    requires Movable(r, target)
    requires forall x :: x in Bag(Plug(r.c, r.p)) ==> x < next
    ensures target in Bag(Remainder(r))
    ensures var t, l := Inserted(r, target, axis, insertion, next), At(Remainder(r), target);
            && Distinct(Bag(t)) && 0 !in Bag(t)
            && forall x :: x in Bag(t) <==>
                 && (x in Bag(Plug(r.c, r.p)) || (NeedsGroup(r) && x == next)
                     || (!Joins(l.ctx, axis) && x == WrapperId(r, next)))
                 && x !in Dropped(Kid(Source(r, next), 0), axis)
  {
    hide Plug, Sound, SoundCtx, Bag, Remainder, Source, Distinct, Inserted, Dropped, Leaves;
    InsertedProps(r, target, axis, insertion, next);
    ExtractIds(r, next);
    var t, l := Inserted(r, target, axis, insertion, next), At(Remainder(r), target);
    var group := if NeedsGroup(r) then multiset{next} else multiset{};
    var wrapper := if Joins(l.ctx, axis) then multiset{} else multiset{WrapperId(r, next)};
    var added := group + wrapper;
    assert Distinct(added) by {
      OneDistinct(next);
      OneDistinct(WrapperId(r, next));
      NoneDistinct();
      DistinctUnion(group, wrapper);
    }
    assert Dropped(Kid(Source(r, next), 0), axis) + Bag(t) == Bag(Plug(r.c, r.p)) + added;
    BagDelta(Bag(Plug(r.c, r.p)), Bag(t), Dropped(Kid(Source(r, next), 0), axis), added);
    forall x ensures x in added <==> (NeedsGroup(r) && x == next) || (!Joins(l.ctx, axis) && x == WrapperId(r, next)) {
      assert added[x] == group[x] + wrapper[x];
    }
  }

  /** Moving keeps an alternating layout alternating exactly when the target is not itself a split
      along the placement axis. */
  lemma {:induction false} MoveAlternates(r: Range, target: NodeId, axis: Axis, insertion: Insertion, next: nat)
    requires Movable(r, target) && Alternates(Plug(r.c, r.p))
    requires forall x :: x in Bag(Plug(r.c, r.p)) ==> x < next
    ensures target in Bag(Remainder(r))
    ensures Opposite(At(Plug(r.c, r.p), target).tree, axis) ==> Alternates(Moved(r, target, axis, insertion, next))
  {
    hide Plug, Sound, SoundCtx, Bag, Remainder, Source, Distinct, Alternates, InsertNextTo;
    TargetStays(r, target);
    ExtractAlternates(r, next);
    ExtractSound(r, next);
    SourceSlack(r, next);
    var l := At(Remainder(r), target);
    PlugSound(l.ctx, l.tree, CleanupId(r));
    InsertAlternates(l.ctx, l.tree, Source(r, next), axis, insertion, WrapperId(r, next), CleanupId(r));
    InsertedProps(r, target, axis, insertion, next);
    var t := Inserted(r, target, axis, insertion, next);
    if Alternates(t) && CleanupId(r) in Bag(t) {
      CleanedAlternates(t, CleanupId(r));
    }
  }

  // ----- the way a move can break alternation

  /** Split w directly contains split x of the same axis. */
  ghost predicate Clashes(w: Tree, x: Tree) {
    w.Split? && x.Split? && x.axis == w.axis && exists k | k in w.kids :: k.tree == x
  }

  lemma {:induction false} ClashInside(w: Tree, x: Tree, t: Tree)
    requires Within(w, t) && Clashes(w, x)
    ensures !Alternates(t)
    decreases t
  {
    if w != t {
      var k :| k in t.kids && Within(w, k.tree);
      ClashInside(w, x, k.tree);
    }
  }

  /** Around an alternating context only the filling itself can take part in a clash. */
  lemma {:induction false} ClashAround(w: Tree, x: Tree, c: Ctx, u: Tree)
    requires AlternatesCtx(c) && Within(w, Plug(c, u)) && Clashes(w, x) && x.id != u.id
    ensures Within(w, u)
    decreases c
  {
    if c.In? {
      var f := Fill(c, u);
      assert forall k :: k in f.kids <==> k in c.left + c.right || k == Kid(u, c.share);
      if x.id == f.id && !Within(w, f) {
        ClashOnPath(w, x, c.up, f);
      } else if x.id != f.id {
        ClashAround(w, x, c.up, f);
      }
      if w != f && !Within(w, u) {
        var k :| k in f.kids && Within(w, k.tree);
        ClashInside(w, x, k.tree);
      }
    }
  }

  /** A split strictly around f cannot clash with a child that carries f's id. */
  lemma {:induction false} ClashOnPath(w: Tree, x: Tree, c: Ctx, f: Tree)
    requires AlternatesCtx(c) && Within(w, Plug(c, f)) && Clashes(w, x) && x.id == f.id && f.Split?
    requires c.In? ==> c.axis != f.axis
    ensures Within(w, f)
    decreases c
  {
    if c.In? {
      var g := Fill(c, f);
      assert forall k :: k in g.kids <==> k in c.left + c.right || k == Kid(f, c.share);
      if x.id == g.id {
        ClashOnPath(w, x, c.up, g);
      } else {
        ClashAround(w, x, c.up, g);
      }
      if w != g && !Within(w, f) {
        var k :| k in g.kids && Within(w, k.tree);
        ClashInside(w, x, k.tree);
      }
    }
  }

  /** Dissolving another split does not repair a clash. */
  lemma {:induction false} ClashSurvives(w: Tree, x: Tree, c: Ctx, u: Tree)
    requires u.Split? && |u.kids| == 1 && Within(w, Plug(c, u)) && Clashes(w, x) && x.id != u.id && w.id != u.id
    requires SoundCtx(c, u.id) && Sound(u, u.id)
    ensures !Alternates(DissolveAt(c, u.kids[0].tree))
  {
    hide Alternates, DissolveAt, Sound, SoundCtx, Plug, Clashes;
    var child := u.kids[0].tree;
    if Alternates(DissolveAt(c, child)) {
      DissolvedParts(c, child);
      ClashAround(w, x, c, u);
      var k :| k in u.kids && Within(w, k.tree);
      assert k == u.kids[0];
      ClashInside(w, x, child);
    }
  }

  lemma {:induction false} DissolvedParts(c: Ctx, child: Tree)
    requires Alternates(DissolveAt(c, child))
    ensures AlternatesCtx(c) && Alternates(child)
  {
    hide Plug;
    if c.In? {
      var p := Promoted(Kid(child, c.share), c.axis);
      var s := Split(c.id, c.axis, c.left + p + c.right);
      PlugAlternates(c.up, s);
      assert forall k :: k in s.kids <==> k in c.left + c.right || k in p;
      if Matches(child, c.axis) {
        forall k | k in child.kids ensures Alternates(k.tree) && Opposite(k.tree, c.axis) {
          var i :| 0 <= i < |child.kids| && child.kids[i] == k;
          assert Scaled(child.kids, c.share)[i] in p;
        }
      } else {
        assert Kid(child, c.share) in p;
      }
    }
  }

  /** When the target is a split along the placement axis, the move leaves it directly below a
      wrapper of the same axis. */
  lemma {:induction false} MoveClashes(r: Range, target: NodeId, axis: Axis, insertion: Insertion, next: nat)
    requires Movable(r, target) && Alternates(Plug(r.c, r.p))
    requires forall x :: x in Bag(Plug(r.c, r.p)) ==> x < next
    requires CleanupId(r) in Bag(Plug(r.c, r.p)) && target != CleanupId(r)
    requires !Opposite(At(Plug(r.c, r.p), target).tree, axis)
    ensures target in Bag(Remainder(r))
    ensures !Alternates(Moved(r, target, axis, insertion, next))
  {
    hide Plug, Sound, SoundCtx, Bag, Remainder, Source, Distinct, Alternates, JoinKids, DissolveAt;
    TargetStays(r, target);
    ExtractAlternates(r, next);
    InsertedProps(r, target, axis, insertion, next);
    var l := At(Remainder(r), target);
    PlugAlternates(l.ctx, l.tree);
    var w := Split(WrapperId(r, next), axis, JoinKids(Source(r, next), l.tree, MAX_PERCENTAGE, axis, insertion));
    JoinHasTarget(Source(r, next), l.tree, axis, insertion);
    var t := Inserted(r, target, axis, insertion, next);
    WithinPlug(w, l.ctx, w);
    ClashInside(w, l.tree, t);
    if CleanupId(r) in Bag(t) {
      var e := At(t, CleanupId(r));
      if e.tree.Split? && |e.tree.kids| == 1 {
        PlugSound(e.ctx, e.tree, CleanupId(r));
        ClashSurvives(w, l.tree, e.ctx, e.tree);
      }
    }
  }

  lemma {:induction false} JoinHasTarget(source: Tree, target: Tree, axis: Axis, insertion: Insertion)
    ensures exists k | k in JoinKids(source, target, MAX_PERCENTAGE, axis, insertion) :: k.tree == target
  {
    var ks := JoinKids(source, target, MAX_PERCENTAGE, axis, insertion);
    assert Kid(target, 50) in ks;
  }

  // ----- reordering at the target's own level

  /** The selected range pasted back among its own siblings, next to the j-th of the others. */
  function Reordered(r: Range, j: nat, insertion: Insertion): Tree
    requires r.Ok() && j < |r.Others()|
  {
    var o := r.Others();
    var at := if insertion.Before? then j else j + 1;
    Plug(r.c, Split(r.p.id, r.p.axis, o[..at] + r.Sel() + o[at..]))
  }

  lemma {:induction false} LeavesThree(a: seq<Kid>, b: seq<Kid>, c: seq<Kid>)
    ensures LeavesKids(a + b + c) == LeavesKids(a) + LeavesKids(b) + LeavesKids(c)
    ensures BagKids(a + b + c) == BagKids(a) + BagKids(b) + BagKids(c)
    ensures Sum(Shares(a + b + c)) == Sum(Shares(a)) + Sum(Shares(b)) + Sum(Shares(c))
    ensures NonNegative(Shares(a + b + c)) <==>
              NonNegative(Shares(a)) && NonNegative(Shares(b)) && NonNegative(Shares(c))
    ensures forall k :: k in a + b + c <==> k in a || k in b || k in c
  {
    hide LeavesKids, BagKids, Sum, NonNegative;
    LeavesAppend(a + b, c);
    LeavesAppend(a, b);
    BagAppend(a + b, c);
    BagAppend(a, b);
    SharesAppend(a + b, c);
    SharesAppend(a, b);
  }

  lemma {:induction false} LeavesTwo(a: seq<Kid>, b: seq<Kid>)
    ensures LeavesKids(a + b) == LeavesKids(a) + LeavesKids(b)
    ensures BagKids(a + b) == BagKids(a) + BagKids(b)
    ensures Sum(Shares(a + b)) == Sum(Shares(a)) + Sum(Shares(b))
    ensures NonNegative(Shares(a + b)) <==> NonNegative(Shares(a)) && NonNegative(Shares(b))
  {
    LeavesAppend(a, b);
    BagAppend(a, b);
    SharesAppend(a, b);
  }

  lemma {:induction false} ReorderedProps(r: Range, j: nat, insertion: Insertion)
    requires r.Ok() && !r.Whole() && j < |r.Others()| && Sound(Plug(r.c, r.p), 0)
    ensures Bag(Reordered(r, j, insertion)) == Bag(Plug(r.c, r.p))
    ensures Sound(Reordered(r, j, insertion), 0)
    ensures Alternates(Plug(r.c, r.p)) ==> Alternates(Reordered(r, j, insertion))
  {
    hide Plug, Sound, SoundCtx, Bag, BagKids, LeavesKids, Sum, NonNegative, Alternates;
    var o, sel := r.Others(), r.Sel();
    var a, b := r.p.kids[..r.first], r.p.kids[r.first + r.count..];
    var at := if insertion.Before? then j else j + 1;
    var s := Split(r.p.id, r.p.axis, o[..at] + sel + o[at..]);
    Stretches(r.p.kids, r.first, r.count);
    LeavesThree(o[..at], sel, o[at..]);
    LeavesTwo(o[..at], o[at..]);
    LeavesTwo(a, b);
    assert o == o[..at] + o[at..];
    SplitNode(r.p.id, r.p.axis, r.p.kids);
    SplitNode(s.id, s.axis, s.kids);
    PlugBag(r.c, r.p);
    PlugBag(r.c, s);
    PlugSound(r.c, r.p, 0);
    PlugSound(r.c, s, 0);
    PlugAlternates(r.c, r.p);
    PlugAlternates(r.c, s);
    MiddleMoves(BagKids(o[..at]), BagKids(o[at..]), BagKids(a), BagKids(b), BagKids(sel));
    assert forall k :: k in o <==> k in o[..at] || k in o[at..];
    assert forall k :: k in o <==> k in a || k in b;
    SamePieces(r.p, s);
  }

  lemma {:induction false} MiddleMoves(x: multiset<NodeId>, y: multiset<NodeId>, a: multiset<NodeId>,
                                       b: multiset<NodeId>, m: multiset<NodeId>)
    requires x + y == a + b
    ensures x + m + y == a + m + b
  {
    assert x + m + y == (x + y) + m && a + m + b == (a + b) + m;
  }

  /** Two splits with the same children up to order are equally sound and alternating. */
  lemma {:induction false} SamePieces(p: Tree, s: Tree)
    requires p.Split? && s.Split? && s.id == p.id && s.axis == p.axis && |s.kids| == |p.kids|
    requires forall k :: k in p.kids <==> k in s.kids
    requires Sum(Shares(s.kids)) == Sum(Shares(p.kids))
             && (NonNegative(Shares(s.kids)) <==> NonNegative(Shares(p.kids)))
    ensures Sound(p, 0) ==> Sound(s, 0)
    ensures Alternates(p) ==> Alternates(s)
  {
  }

  lemma {:induction false} ReorderLeaves(r: Range, j: nat, insertion: Insertion)
    requires r.Ok() && !r.Whole() && j < |r.Others()|
    ensures CutAndPasted(Leaves(Plug(r.c, r.p)), Leaves(Reordered(r, j, insertion)),
                         LeavesKids(r.Sel()), Leaves(r.Others()[j].tree), insertion)
  {
    hide Plug, LeavesKids, BagKids, Bag, Sum, NonNegative, Leaves, LeavesBefore, LeavesAfter;
    var o, sel := r.Others(), r.Sel();
    var a, b := r.p.kids[..r.first], r.p.kids[r.first + r.count..];
    var at := if insertion.Before? then j else j + 1;
    var s := Split(r.p.id, r.p.axis, o[..at] + sel + o[at..]);
    Stretches(r.p.kids, r.first, r.count);
    SplitNode(r.p.id, r.p.axis, r.p.kids);
    SplitNode(s.id, s.axis, s.kids);
    PlugLeaves(r.c, r.p);
    PlugLeaves(r.c, s);
    LeavesThree(o[..at], sel, o[at..]);
    LeavesTwo(a, b);
    AroundKid(o, j);
    Pasting(LeavesBefore(r.c), LeavesKids(a), LeavesKids(sel), LeavesKids(b), LeavesAfter(r.c),
            LeavesKids(o[..j]), Leaves(o[j].tree), LeavesKids(o[j + 1..]), insertion);
  }

  lemma {:induction false} AroundKid(o: seq<Kid>, j: nat)
    requires j < |o|
    ensures LeavesKids(o) == LeavesKids(o[..j]) + Leaves(o[j].tree) + LeavesKids(o[j + 1..])
    ensures LeavesKids(o[..j + 1]) == LeavesKids(o[..j]) + Leaves(o[j].tree)
    ensures LeavesKids(o[j..]) == Leaves(o[j].tree) + LeavesKids(o[j + 1..])
  {
    LeavesMiddle(o[..j], o[j], o[j + 1..]);
    KidsCons(o[j], o[j + 1..]);
    LeavesSnoc(o, j);
    assert o == o[..j] + [o[j]] + o[j + 1..] && o[j..] == [o[j]] + o[j + 1..];
  }

  lemma {:induction false} Pasting(x: seq<LeafRef>, a: seq<LeafRef>, n: seq<LeafRef>, b: seq<LeafRef>, y: seq<LeafRef>,
                                   l1: seq<LeafRef>, k: seq<LeafRef>, l2: seq<LeafRef>, insertion: Insertion)
    requires a + b == l1 + k + l2
    ensures CutAndPasted(x + (a + n + b) + y,
                         x + (if insertion.Before? then l1 + n + (k + l2) else (l1 + k) + n + l2) + y, n, k, insertion)
  {
    var before := x + (a + n + b) + y;
    var after := x + (if insertion.Before? then l1 + n + (k + l2) else (l1 + k) + n + l2) + y;
    var a', b', c', d' := x + a, b + y, x + l1, l2 + y;
    assert before == a' + n + b';
    assert a' + b' == x + (a + b) + y == x + (l1 + k + l2) + y == c' + k + d';
    assert after == c' + (if insertion.Before? then n + k else k + n) + d';
  }
}
