/** Moving subtrees, step by step on the node map. */
module MoveMaps {
  import opened Wrappers
  import opened Percentages
  import opened PaneTree
  import opened PaneNodes
  import opened PaneEdits
  import opened LayoutMaps
  import opened MoveTrees

  /** The map holds a tree and, beside it, a detached subtree. */
  ghost predicate HoldsTwo(n: Nodes, t: Tree, s: Tree) {
    && Holds(n, t, None)
    && Holds(n, s, None)
    && Distinct(Bag(t) + Bag(s))
    && forall x :: x in n <==> x in Bag(t) || x in Bag(s)
  }

  // ----- ancestors

  /** The ids of the splits around a hole. */
  ghost function PathIds(c: Ctx): set<NodeId> {
    if c.Top? then {} else {c.id} + PathIds(c.up)
  }

  function Compose(c: Ctx, e: Ctx): Ctx
    decreases e
  {
    if e.Top? then c else In(Compose(c, e.up), e.id, e.axis, e.left, e.share, e.right)
  }

  lemma {:induction false} ComposePlug(c: Ctx, e: Ctx, t: Tree)
    ensures Plug(Compose(c, e), t) == Plug(c, Plug(e, t))
    ensures PathIds(Compose(c, e)) == PathIds(c) + PathIds(e)
    decreases e
  {
    if e.In? {
      ComposePlug(c, e.up, Fill(e, t));
    }
  }

  lemma {:induction false} RootOnPath(c: Ctx, t: Tree)
    requires c.In?
    ensures Plug(c, t).id in PathIds(c)
    decreases c
  {
    if c.up.In? {
      RootOnPath(c.up, Fill(c, t));
    }
  }

  lemma {:induction false} PathSplit(c: Ctx, t: Tree, a: NodeId) returns (e: Ctx, s: Tree)
    requires a in PathIds(c)
    ensures Plug(e, s) == Plug(c, t) && s.id == a && Bag(t) <= Bag(s)
    decreases c
  {
    FillContains(c, t);
    if c.id == a {
      e, s := c.up, Fill(c, t);
    } else {
      e, s := PathSplit(c.up, Fill(c, t), a);
    }
  }

  /** The splits above a node are exactly the other nodes whose subtree contains it. */
  lemma {:induction false} PathIsAncestors(t: Tree, d: NodeId, a: NodeId)
    requires d in Bag(t) && Distinct(Bag(t))
    ensures a in PathIds(At(t, d).ctx) <==> a != d && a in Bag(t) && d in Bag(At(t, a).tree)
  {
    hide Plug, Locate;
    var l := At(t, d);
    PlugBag(l.ctx, l.tree);
    if a in PathIds(l.ctx) {
      var e, s := PathSplit(l.ctx, l.tree, a);
      AtPlug(e, s);
      NotOnOwnPath(l.ctx, l.tree, a);
      assert l.tree.id in Bag(l.tree);
    } else if a != d && a in Bag(t) && d in Bag(At(t, a).tree) {
      var k := At(t, a);
      var e := At(k.tree, d);
      ComposePlug(k.ctx, e.ctx, e.tree);
      AtPlug(Compose(k.ctx, e.ctx), e.tree);
      InnerNotTop(e.ctx, e.tree, k.tree);
      RootOnPath(e.ctx, e.tree);
    }
  }

  lemma {:induction false} InnerNotTop(c: Ctx, s: Tree, t: Tree)
    requires Plug(c, s) == t && s.id != t.id
    ensures c.In?
  {
  }

  lemma {:induction false} NotOnOwnPath(c: Ctx, t: Tree, a: NodeId)
    requires a in PathIds(c) && Distinct(Bag(Plug(c, t)))
    ensures a != t.id
  {
    PlugBag(c, t);
    PathInBag(c);
    DistinctUnion(CtxBag(c), Bag(t));
    assert t.id in Bag(t);
  }

  lemma {:induction false} PathInBag(c: Ctx)
    ensures forall x :: x in PathIds(c) ==> x in CtxBag(c)
    decreases c
  {
    if c.In? {
      PathInBag(c.up);
    }
  }

  // ----- partitioning the children of a level

  function Inside(cs: seq<Child>, ids: seq<NodeId>): seq<Child> {
    if cs == [] then [] else (if cs[0].nodeId in ids then [cs[0]] else []) + Inside(cs[1..], ids)
  }

  function Outside(cs: seq<Child>, ids: seq<NodeId>): seq<Child> {
    if cs == [] then [] else (if cs[0].nodeId in ids then [] else [cs[0]]) + Outside(cs[1..], ids)
  }

  lemma {:induction false} PartitionAppend(a: seq<Child>, b: seq<Child>, ids: seq<NodeId>)
    ensures Inside(a + b, ids) == Inside(a, ids) + Inside(b, ids)
    ensures Outside(a + b, ids) == Outside(a, ids) + Outside(b, ids)
  {
    if a == [] {
      assert a + b == b;
    } else {
      assert (a + b)[1..] == a[1..] + b;
      PartitionAppend(a[1..], b, ids);
      var inside, outside := if a[0].nodeId in ids then [a[0]] else [], if a[0].nodeId in ids then [] else [a[0]];
      Assoc(inside, Inside(a[1..], ids), Inside(b, ids));
      Assoc(outside, Outside(a[1..], ids), Outside(b, ids));
    }
  }

  lemma {:induction false} AllInside(a: seq<Child>, ids: seq<NodeId>)
    requires forall c :: c in a ==> c.nodeId in ids
    ensures Inside(a, ids) == a && Outside(a, ids) == []
  {
    if a != [] {
      AllInside(a[1..], ids);
    }
  }

  lemma {:induction false} AllOutside(a: seq<Child>, ids: seq<NodeId>)
    requires forall c :: c in a ==> c.nodeId !in ids
    ensures Inside(a, ids) == [] && Outside(a, ids) == a
  {
    if a != [] {
      AllOutside(a[1..], ids);
    }
  }

  /** Picking the selected ids out of a level picks exactly the selected stretch. */
  lemma {:induction false} PartitionRange(ks: seq<Kid>, first: nat, count: nat, ids: seq<NodeId>)
    requires first + count <= |ks| && Distinct(BagKids(ks)) && ids == Ids(ks[first..first + count])
    ensures Inside(Links(ks), ids) == Links(ks[first..first + count])
    ensures Outside(Links(ks), ids) == Links(ks[..first] + ks[first + count..])
  {
    hide Inside, Outside, BagKids, Links, Distinct, LeavesKids, Sum, NonNegative;
    var a, sel, b := ks[..first], ks[first..first + count], ks[first + count..];
    Stretches(ks, first, count);
    DistinctUnion(BagKids(a) + BagKids(sel), BagKids(b));
    DistinctUnion(BagKids(a), BagKids(sel));
    IdsInBag(a);
    IdsInBag(sel);
    IdsInBag(b);
    LinkIds(a);
    LinkIds(sel);
    LinkIds(b);
    LinksAppend(a + sel, b);
    LinksAppend(a, sel);
    LinksAppend(a, b);
    PartitionAppend(Links(a) + Links(sel), Links(b), ids);
    PartitionAppend(Links(a), Links(sel), ids);
    AllOutside(Links(a), ids);
    AllInside(Links(sel), ids);
    AllOutside(Links(b), ids);
  }

  lemma {:induction false} LinkIds(ks: seq<Kid>)
    ensures forall c :: c in Links(ks) ==> c.nodeId in Ids(ks)
  {
    forall c | c in Links(ks) ensures c.nodeId in Ids(ks) {
      var i :| 0 <= i < |ks| && Links(ks)[i] == c;
      assert Ids(ks)[i] == c.nodeId;
    }
  }

  // ----- extraction

  /** The source is a whole level: its split is cut off from the level above. */
  lemma {:induction false} ExtractWholeHolds(n: Nodes, r: Range, m: Nodes)
    requires r.Ok() && r.Whole() && Opened(n, Plug(r.c, r.p), r.c, r.p) && RangeSound(r)
    requires m == n[r.c.id := n[r.c.id].(contents := SplitContents(r.c.axis, Links(ClosedUp(r.c).kids)))]
                   [r.p.id := n[r.p.id].(parent := None)]
    ensures Holds(m, Remainder(r), None) && Holds(m, Source(r, 0), None)
  {
    hide Plug, Bag, BagKids, CtxBag, Distinct, Holds, HoldsCtx, Sound, ClosedUp;
    CloseUpHolds(n, r.c, r.p.id, m);
    HoldsReparent(n, m, r.p, HoleParent(r.c), None);
  }

  /** Taking some of the children out of a level, and scaling the others to a full hundred. */
  lemma {:induction false} RestHolds(n: Nodes, r: Range, m: Nodes)
    requires r.Ok() && !r.Whole() && Opened(n, Plug(r.c, r.p), r.c, r.p)
    requires r.p.id in m
             && m[r.p.id] == n[r.p.id].(contents := SplitContents(r.p.axis, Links(Scaled(r.Others(), MAX_PERCENTAGE))))
    requires forall x :: x in n && x != r.p.id && x !in BagKids(r.Sel()) ==> x in m && m[x] == n[x]
    ensures Holds(m, Remainder(r), None)
  {
    hide Plug, Bag, BagKids, CtxBag, Distinct, Holds, HoldsCtx, Scaled;
    var rest := Split(r.p.id, r.p.axis, Scaled(r.Others(), MAX_PERCENTAGE));
    LevelParts(n, r);
    HoldsKidsFrame(n, m, r.p.kids[..r.first], r.p.id);
    HoldsKidsFrame(n, m, r.p.kids[r.first + r.count..], r.p.id);
    assert HoldsKids(m, r.Others(), r.p.id);
    HoldsScaled(m, r.Others(), MAX_PERCENTAGE, r.p.id);
    SplitHolds(m, rest, HoleParent(r.c));
    HoldsCtxFrame(n, m, r.c, r.p.id);
    HoldsPlug(m, r.c, rest);
  }

  /** A level's own id, the selected stretch and the rest do not overlap. */
  lemma {:induction false} LevelParts(n: Nodes, r: Range)
    requires r.Ok() && Opened(n, Plug(r.c, r.p), r.c, r.p)
    ensures var a, sel, b := r.p.kids[..r.first], r.Sel(), r.p.kids[r.first + r.count..];
            && HoldsKids(n, a, r.p.id) && HoldsKids(n, sel, r.p.id) && HoldsKids(n, b, r.p.id)
            && Distinct(BagKids(sel)) && Distinct(BagKids(r.p.kids))
            && r.p.id !in BagKids(a) && r.p.id !in BagKids(sel) && r.p.id !in BagKids(b)
            && (forall x ::
                  x in BagKids(sel) ==> x !in BagKids(a) && x !in BagKids(b) && x !in CtxBag(r.c) && x in Bag(r.p))
            && r.p.id !in CtxBag(r.c)
  {
    hide Plug, Bag, BagKids, CtxBag, Distinct, Holds, HoldsCtx;
    var a, sel, b := r.p.kids[..r.first], r.Sel(), r.p.kids[r.first + r.count..];
    FlattenKids(n, r.c, r.p);
    Stretches(r.p.kids, r.first, r.count);
    SplitNode(r.p.id, r.p.axis, r.p.kids);
    DistinctUnion(multiset{r.p.id}, BagKids(r.p.kids));
    DistinctUnion(BagKids(a) + BagKids(sel), BagKids(b));
    DistinctUnion(BagKids(a), BagKids(sel));
  }

  lemma {:induction false} ExtractOneHolds(n: Nodes, r: Range, m: Nodes)
    requires r.Ok() && !r.Whole() && r.count == 1 && Opened(n, Plug(r.c, r.p), r.c, r.p)
    requires var s := r.Sel()[0].tree;
             && s.id in n
             && m == n[r.p.id := n[r.p.id].(contents := SplitContents(r.p.axis,
                                                                      Links(Scaled(r.Others(), MAX_PERCENTAGE))))]
                      [s.id := n[s.id].(parent := None)]
    ensures Holds(m, Remainder(r), None) && Holds(m, Source(r, 0), None)
  {
    hide Plug, BagKids, CtxBag, Distinct, Holds, HoldsCtx, Scaled, Remainder;
    var s := r.Sel()[0].tree;
    LevelParts(n, r);
    OnlyKid(r.Sel());
    assert s.id in Bag(s);
    RestHolds(n, r, m);
    HoldsReparent(n, m, s, Some(r.p.id), None);
  }

  lemma {:induction false} ExtractGroupHolds(n: Nodes, r: Range, groupId: NodeId, m: Nodes)
    requires r.Ok() && NeedsGroup(r) && Opened(n, Plug(r.c, r.p), r.c, r.p) && groupId !in n
    requires m
               == Reparented(n[r.p.id := n[r.p.id].(contents := SplitContents(r.p.axis,
                                                                              Links(Scaled(r.Others(),
                                                                                           MAX_PERCENTAGE))))],
                             Ids(r.Sel()), Some(groupId))
                  [groupId := Node(groupId, None, SplitContents(r.p.axis, Links(Scaled(r.Sel(), MAX_PERCENTAGE))))]
    ensures Holds(m, Remainder(r), None) && Holds(m, Source(r, groupId), None)
  {
    hide Plug, Bag, BagKids, CtxBag, Distinct, Holds, HoldsCtx, Scaled, Remainder;
    LevelParts(n, r);
    IdsInBag(r.Sel());
    HoldsIds(n, r.p, HoleParent(r.c));
    RestHolds(n, r, m);
    HoldsKidsReparent(n, m, r.Sel(), Some(r.p.id), groupId);
    HoldsScaled(m, r.Sel(), MAX_PERCENTAGE, groupId);
    SplitHolds(m, Source(r, groupId), None);
  }

  // ----- insertion

  /** The source, or its own children, hang below their new parent. */
  lemma {:induction false} SourceHolds(n: Nodes, m: Nodes, s: Tree, share: int, axis: Axis, parent: NodeId)
    requires Holds(n, s, None) && Distinct(Bag(s))
    requires forall x :: x in Bag(s) && x in n && x !in Dropped(Kid(s, 0), axis) ==>
               x in m && m[x] == if x in Ids(Promoted(Kid(s, share), axis)) then n[x].(parent := Some(parent)) else n[x]
    ensures HoldsKids(m, Promoted(Kid(s, share), axis), parent)
  {
    if Matches(s, axis) {
      hide Scaled;
      DistinctUnion(multiset{s.id}, BagKids(s.kids));
      assert Ids(Promoted(Kid(s, share), axis)) == Ids(s.kids);
      HoldsKidsReparent(n, m, s.kids, Some(s.id), parent);
      HoldsScaled(m, s.kids, share, parent);
    } else {
      assert Ids([Kid(s, share)]) == [s.id];
      HoldsReparent(n, m, s, None, Some(parent));
    }
  }

  lemma {:induction false} PromotedIds(s: Tree, axis: Axis, share: int)
    requires Distinct(Bag(s))
    ensures forall x :: x in Ids(Promoted(Kid(s, share), axis)) ==> x in Bag(s) && x !in Dropped(Kid(s, 0), axis)
  {
    if Matches(s, axis) {
      IdsInBag(s.kids);
      DistinctUnion(multiset{s.id}, BagKids(s.kids));
      assert Ids(Promoted(Kid(s, share), axis)) == Ids(s.kids);
    } else {
      assert Ids(Promoted(Kid(s, share), axis)) == [s.id];
    }
  }

  /** The share the source gets next to the target. */
  function SourceShare(share: int, insertion: Insertion): int {
    if insertion.Before? then (share + 1) / 2 else share / 2
  }

  function Arriving(s: Tree, share: int, axis: Axis, insertion: Insertion): seq<Kid> {
    Promoted(Kid(s, SourceShare(share, insertion)), axis)
  }

  lemma {:induction false} JoinedHolds(m: Nodes, s: Tree, x: Tree, share: int, axis: Axis, insertion: Insertion,
                                       parent: NodeId)
    requires HoldsKids(m, Arriving(s, share, axis, insertion), parent) && Holds(m, x, Some(parent))
    ensures HoldsKids(m, JoinKids(s, x, share, axis, insertion), parent)
  {
    hide Promoted, Holds;
    var p := Arriving(s, share, axis, insertion);
    assert forall k :: k in JoinKids(s, x, share, axis, insertion) ==> k in p || k.tree == x;
  }

  function GoneSet(s: Tree, axis: Axis): set<NodeId> {
    if Matches(s, axis) then {s.id} else {}
  }

  lemma {:induction false} TwoApart(n: Nodes, d: Ctx, x: Tree, s: Tree)
    requires HoldsTwo(n, Plug(d, x), s)
    ensures Opened(n, Plug(d, x), d, x) && Distinct(Bag(s)) && s.id in Bag(s) && s.id in n
    ensures forall y :: y in Bag(s) ==> y !in CtxBag(d) && y !in Bag(x)
  {
    assert s.id in Bag(s);
    hide Plug, Bag;
    DistinctUnion(Bag(Plug(d, x)), Bag(s));
    OpenAt(n, d, x);
    PlugBag(d, x);
  }

  lemma {:induction false} InsertJoinHolds(n: Nodes, d: Ctx, x: Tree, s: Tree, insertion: Insertion, m: Nodes)
    requires d.In? && d.id in n && HoldsTwo(n, Plug(d, x), s)
    requires m == Reparented((n - GoneSet(s, d.axis))[d.id := n[d.id].(contents := SplitContents(d.axis,
                     Links(d.left) + Links(JoinKids(s, x, d.share, d.axis, insertion)) + Links(d.right)))],
                   Ids(Arriving(s, d.share, d.axis, insertion)), Some(d.id))
    ensures Holds(m, Place(d, JoinKids(s, x, d.share, d.axis, insertion)), None)
    ensures forall y :: y in m <==> y in n && y !in GoneSet(s, d.axis)
  {
    hide Plug, Place, Bag, BagKids, CtxBag, Distinct, Holds, HoldsCtx, JoinKids, Promoted, Links;
    TwoApart(n, d, x, s);
    PromotedIds(s, d.axis, SourceShare(d.share, insertion));
    assert s.id in Bag(s);
    SourceHolds(n, m, s, SourceShare(d.share, insertion), d.axis, d.id);
    HoldsFrame(n, m, x, Some(d.id));
    JoinedHolds(m, s, x, d.share, d.axis, insertion, d.id);
    PlaceHolds(n, m, d, x.id, JoinKids(s, x, d.share, d.axis, insertion));
  }

  /** The entries a wrapping insertion leaves behind: the wrapper takes the target's place. */
  ghost predicate WrapMap(n: Nodes, d: Ctx, x: Tree, s: Tree, axis: Axis, insertion: Insertion, wrapperId: NodeId,
                          m: Nodes) {
    && wrapperId !in n && (d.In? ==> d.id in n) && x.id in n
    && var w := Split(wrapperId, axis, JoinKids(s, x, MAX_PERCENTAGE, axis, insertion));
       var k := n - GoneSet(s, axis);
       var l := if d.Top? then k else k[d.id := n[d.id].(contents :=
                  SplitContents(d.axis, Links(d.left) + [Child(wrapperId, d.share)] + Links(d.right)))];
       m == Reparented(l[x.id := n[x.id].(parent := Some(wrapperId))],
                       Ids(Arriving(s, MAX_PERCENTAGE, axis, insertion)),
                       Some(wrapperId))[wrapperId := NodeOf(w, HoleParent(d))]
  }

  lemma {:induction false} InsertWrapHolds(n: Nodes, d: Ctx, x: Tree, s: Tree, axis: Axis, insertion: Insertion,
                                           wrapperId: NodeId, m: Nodes)
    requires HoldsTwo(n, Plug(d, x), s) && WrapMap(n, d, x, s, axis, insertion, wrapperId, m)
    ensures Holds(m, Plug(d, Split(wrapperId, axis, JoinKids(s, x, MAX_PERCENTAGE, axis, insertion))), None)
    ensures forall y :: y in m <==> (y in n && y !in GoneSet(s, axis)) || y == wrapperId
  {
    hide Plug, Place, Bag, BagKids, CtxBag, Distinct, Holds, HoldsCtx, JoinKids, Promoted, Links;
    TwoApart(n, d, x, s);
    WrapEntries(n, d, x, s, axis, insertion, wrapperId, m);
    hide WrapMap;
    var w := Split(wrapperId, axis, JoinKids(s, x, MAX_PERCENTAGE, axis, insertion));
    WrapperHolds(n, d, x, s, axis, insertion, wrapperId, m);
    if d.Top? {
      PlugTop(w);
    } else {
      OneLink(m, w, d.share, d.id);
      PlaceHolds(n, m, d, x.id, [Kid(w, d.share)]);
      PlugPlace(d, w);
    }
  }

  lemma {:induction false} WrapEntries(n: Nodes, d: Ctx, x: Tree, s: Tree, axis: Axis, insertion: Insertion,
                                       wrapperId: NodeId, m: Nodes)
    requires HoldsTwo(n, Plug(d, x), s) && Opened(n, Plug(d, x), d, x) && Distinct(Bag(s)) && s.id in Bag(s)
    requires forall y :: y in Bag(s) ==> y !in CtxBag(d) && y !in Bag(x)
    requires WrapMap(n, d, x, s, axis, insertion, wrapperId, m)
    ensures wrapperId in m
            && m[wrapperId]
                 == NodeOf(Split(wrapperId, axis, JoinKids(s, x, MAX_PERCENTAGE, axis, insertion)), HoleParent(d))
    ensures m[x.id] == n[x.id].(parent := Some(wrapperId)) && x.id in m
    ensures forall y :: y in Bag(x) && y != x.id && y in n ==> y in m && m[y] == n[y]
    ensures forall y :: y in Bag(s) && y in n && y !in Dropped(Kid(s, 0), axis) ==>
              y in m
              && m[y]
                   == if y in Ids(Arriving(s, MAX_PERCENTAGE, axis, insertion)) then n[y].(parent := Some(wrapperId))
                      else n[y]
    ensures forall y :: y in CtxBag(d) && y in n && (d.In? ==> y != d.id) ==> y in m && m[y] == n[y]
    ensures d.In? ==> d.id in m && m[d.id] == n[d.id].(contents :=
                        SplitContents(d.axis, Links(d.left) + [Child(wrapperId, d.share)] + Links(d.right)))
    ensures forall y :: y in m <==> (y in n && y !in GoneSet(s, axis)) || y == wrapperId
  {
    hide Plug, Bag, BagKids, CtxBag, Distinct, Holds, HoldsCtx, JoinKids, Promoted, Links, NodeOf, Reparented, Opened;
    hide GoneSet, Arriving, Dropped, WrapMap;
    var arriving := Ids(Arriving(s, MAX_PERCENTAGE, axis, insertion));
    ArrivingInside(s, axis, insertion);
    GoneInside(s, axis);
    Surrounded(n, d, x);
    WrapIs(n, d, x, s, axis, insertion, wrapperId, m);
    var w := NodeOf(Split(wrapperId, axis, JoinKids(s, x, MAX_PERCENTAGE, axis, insertion)), HoleParent(d));
    WrapValues(n, Relinked(n, d, wrapperId), x.id, GoneSet(s, axis), arriving, wrapperId, w, m);
  }

  /** The level around a node, linking to something else in its place. */
  function Relinked(n: Nodes, d: Ctx, id: NodeId): Nodes {
    if d.Top? || d.id !in n then map[]
    else map[d.id := n[d.id].(contents := SplitContents(d.axis, Links(d.left) + [Child(id, d.share)] + Links(d.right)))]
  }

  lemma {:induction false} WrapIs(n: Nodes, d: Ctx, x: Tree, s: Tree, axis: Axis, insertion: Insertion,
                                  wrapperId: NodeId, m: Nodes)
    requires WrapMap(n, d, x, s, axis, insertion, wrapperId, m)
    ensures wrapperId !in n && x.id in n && (d.In? ==> d.id in n)
    ensures m
              == Reparented(((n - GoneSet(s, axis))
                             + Relinked(n, d, wrapperId))[x.id := n[x.id].(parent := Some(wrapperId))],
                            Ids(Arriving(s, MAX_PERCENTAGE, axis, insertion)), Some(wrapperId))
                  [wrapperId := NodeOf(Split(wrapperId, axis, JoinKids(s, x, MAX_PERCENTAGE, axis, insertion)),
                                       HoleParent(d))]
  {
    hide Links, JoinKids, NodeOf, Reparented, GoneSet, Arriving;
    if d.In? {
      AroundAdded(n - GoneSet(s, axis), Relinked(n, d, wrapperId), d, Relinked(n, d, wrapperId)[d.id]);
    } else {
      AroundAdded(n - GoneSet(s, axis), Relinked(n, d, wrapperId), d, n[x.id]);
    }
  }

  lemma {:induction false} Surrounded(n: Nodes, d: Ctx, x: Tree)
    requires Opened(n, Plug(d, x), d, x)
    ensures x.id in Bag(x) && x.id !in CtxBag(d) && (d.In? ==> d.id in CtxBag(d) && d.id !in Bag(x))
    ensures forall y :: y in CtxBag(d) ==> y !in Bag(x)
  {
    hide Bag, CtxBag, Holds, HoldsCtx, Plug;
  }

  lemma {:induction false} ArrivingInside(s: Tree, axis: Axis, insertion: Insertion)
    requires Distinct(Bag(s))
    ensures forall y :: y in Ids(Arriving(s, MAX_PERCENTAGE, axis, insertion)) ==> y in Bag(s)
  {
    hide Bag, Distinct, Promoted;
    PromotedIds(s, axis, SourceShare(MAX_PERCENTAGE, insertion));
  }

  lemma {:induction false} AroundAdded(k: Nodes, around: Nodes, d: Ctx, node: Node)
    requires around == if d.Top? then map[] else map[d.id := node]
    ensures k + around == if d.Top? then k else k[d.id := node]
  {
  }

  lemma {:induction false} GoneInside(s: Tree, axis: Axis)
    ensures forall y :: y in GoneSet(s, axis) <==> y in Dropped(Kid(s, 0), axis)
    ensures forall y :: y in GoneSet(s, axis) ==> y in Bag(s)
  {
  }

  /** What a map holds once some entries are gone, a few are rewritten, some hang below w, and w is added. */
  lemma {:induction false} WrapValues(n: Nodes, around: Nodes, target: NodeId, gone: set<NodeId>, arriving: seq<NodeId>,
                                      w: NodeId, wrapper: Node, m: Nodes)
    requires w !in n && target in n && target !in gone
             && (forall y :: y in around ==> y in n && y !in gone && y != target)
    requires (forall y :: y in arriving ==> y != target && y !in around)
    requires m
               == Reparented(((n - gone) + around)[target := n[target].(parent := Some(w))], arriving,
                             Some(w))[w := wrapper]
    ensures forall y :: y in m <==> (y in n && y !in gone) || y == w
    ensures m[w] == wrapper && m[target] == n[target].(parent := Some(w))
    ensures forall y :: y in around ==> m[y] == around[y]
    ensures forall y ::
              y in n && y !in gone && y != target && y !in around ==>
                m[y] == if y in arriving then n[y].(parent := Some(w)) else n[y]
  {
  }

  lemma {:induction false} WrapperHolds(n: Nodes, d: Ctx, x: Tree, s: Tree, axis: Axis, insertion: Insertion,
                                        wrapperId: NodeId, m: Nodes)
    requires Opened(n, Plug(d, x), d, x) && Holds(n, s, None) && Distinct(Bag(s))
    requires wrapperId in m
             && m[wrapperId]
                  == NodeOf(Split(wrapperId, axis, JoinKids(s, x, MAX_PERCENTAGE, axis, insertion)), HoleParent(d))
    requires x.id in m && m[x.id] == n[x.id].(parent := Some(wrapperId))
    requires forall y :: y in Bag(x) && y != x.id && y in n ==> y in m && m[y] == n[y]
    requires forall y :: y in Bag(s) && y in n && y !in Dropped(Kid(s, 0), axis) ==>
               y in m
               && m[y]
                    == if y in Ids(Arriving(s, MAX_PERCENTAGE, axis, insertion)) then
                         n[y].(parent := Some(wrapperId)) else n[y]
    ensures Holds(m, Split(wrapperId, axis, JoinKids(s, x, MAX_PERCENTAGE, axis, insertion)), HoleParent(d))
  {
    hide Plug, Bag, BagKids, CtxBag, Distinct, Holds, HoldsCtx, JoinKids, Promoted, Links, Dropped;
    var mine := SourceShare(MAX_PERCENTAGE, insertion);
    SourceHolds(n, m, s, mine, axis, wrapperId);
    HoldsReparent(n, m, x, HoleParent(d), Some(wrapperId));
    JoinedHolds(m, s, x, MAX_PERCENTAGE, axis, insertion, wrapperId);
    SplitHolds(m, Split(wrapperId, axis, JoinKids(s, x, MAX_PERCENTAGE, axis, insertion)), HoleParent(d));
  }

  lemma {:induction false} OneLink(m: Nodes, w: Tree, share: int, parent: NodeId)
    requires Holds(m, w, Some(parent))
    ensures Links([Kid(w, share)]) == [Child(w.id, share)] && HoldsKids(m, [Kid(w, share)], parent)
  {
  }
}
