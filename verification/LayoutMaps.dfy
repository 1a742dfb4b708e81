/** How edits of the node map carry over to the tree it holds. */
module LayoutMaps {
  import opened Wrappers
  import opened Percentages
  import opened PaneTree
  import opened PaneNodes
  import opened PaneEdits

  const MAX_NODE_VALUE: nat := 0xFFFF_FFFF_FFFF_FFFF

  function Panes(ls: seq<LeafRef>): (s: seq<PaneId>)
    ensures |s| == |ls|
  {
    seq(|ls|, i requires 0 <= i < |ls| => ls[i].pane)
  }

  /** How often each pane is shown. */
  ghost function PaneBag(t: Tree): multiset<PaneId> {
    multiset(Panes(Leaves(t)))
  }

  lemma {:induction false} PanesAppend(a: seq<LeafRef>, b: seq<LeafRef>)
    ensures Panes(a + b) == Panes(a) + Panes(b)
    ensures multiset(Panes(a + b)) == multiset(Panes(a)) + multiset(Panes(b))
  {
    assert Panes(a + b) == Panes(a) + Panes(b);
  }

  /** The map holds exactly the tree: every link agrees with its inverse, every entry is reached
      from the root once, and all ids were handed out by the allocator. */
  ghost predicate Represents(nodes: Nodes, root: NodeId, next: nat, t: Tree, slack: NodeId) {
    && Holds(nodes, t, None)
    && root == t.id
    && Distinct(Bag(t))
    && (forall x :: x in nodes <==> x in Bag(t))
    && (forall x :: x in nodes ==> 0 < x < next)
    && next <= MAX_NODE_VALUE
    && Sound(t, slack)
    && Distinct(PaneBag(t))
  }

  /** The tree-side half of Represents: what holds of every tree a layout ever stands for. */
  ghost predicate WellFormed(t: Tree, next: nat) {
    && Distinct(Bag(t))
    && Sound(t, 0)
    && Distinct(PaneBag(t))
    && (forall x :: x in Bag(t) ==> 0 < x < next)
    && next <= MAX_NODE_VALUE
  }

  lemma {:induction false} RepresentsWellFormed(nodes: Nodes, root: NodeId, next: nat, t: Tree)
    ensures Represents(nodes, root, next, t, 0) <==>
              && WellFormed(t, next) && Holds(nodes, t, None) && root == t.id
              && forall x :: x in nodes <==> x in Bag(t)
  {
  }

  lemma {:induction false} WellFormedStored(t: Tree, next: nat) returns (n: Nodes)
    requires WellFormed(t, next)
    ensures Represents(n, t.id, next, t, 0)
  {
    n := Stored(t, None);
    HoldsIds(n, t, None);
  }

  lemma {:induction false} SoundSlack(t: Tree, slack: NodeId)
    requires Sound(t, slack) && slack !in Bag(t)
    ensures Sound(t, 0)
    decreases t
  {
    if t.Split? {
      forall k | k in t.kids ensures Sound(k.tree, 0) {
        KidBag(t.kids, k);
        SoundSlack(k.tree, slack);
      }
    }
  }

  lemma {:induction false} SlackSound(t: Tree, slack: NodeId)
    requires Sound(t, 0) && 0 !in Bag(t)
    ensures Sound(t, slack)
    decreases t
  {
    if t.Split? {
      forall k | k in t.kids ensures Sound(k.tree, slack) {
        KidBag(t.kids, k);
        SlackSound(k.tree, slack);
      }
    }
  }

  /** A leaf of the tree is a leaf entry of the map, and the other way round. */
  lemma {:induction false} LeafEntries(n: Nodes, t: Tree, parent: Option<NodeId>, x: NodeId, pane: PaneId)
    requires Holds(n, t, parent)
    ensures LeafRef(x, pane) in Leaves(t) <==> x in Bag(t) && x in n && n[x].contents == LeafContents(pane)
    decreases t
  {
    HoldsIds(n, t, parent);
    if t.Split? {
      LeafEntriesKids(n, t.kids, t.id, x, pane);
    }
  }

  lemma {:induction false} LeafEntriesKids(n: Nodes, ks: seq<Kid>, parent: NodeId, x: NodeId, pane: PaneId)
    requires HoldsKids(n, ks, parent)
    ensures LeafRef(x, pane) in LeavesKids(ks) <==> x in BagKids(ks) && x in n && n[x].contents == LeafContents(pane)
    decreases ks
  {
    if ks != [] {
      assert (ks decreases to ks[0]);
      LeafEntries(n, ks[0].tree, Some(parent), x, pane);
      LeafEntriesKids(n, ks[1..], parent, x, pane);
    }
  }

  lemma {:induction false} PaneShown(ls: seq<LeafRef>, pane: PaneId)
    ensures pane in Panes(ls) <==> exists x :: LeafRef(x, pane) in ls
  {
    if pane in Panes(ls) {
      var i :| 0 <= i < |ls| && Panes(ls)[i] == pane;
      assert ls[i] == LeafRef(ls[i].id, pane);
    }
    forall x | LeafRef(x, pane) in ls ensures pane in Panes(ls) {
      var i :| 0 <= i < |ls| && ls[i] == LeafRef(x, pane);
      assert Panes(ls)[i] == pane;
    }
  }

  // ----- the effect of rewriting a few entries

  /** Rewriting only the child list of the split around a hole. */
  lemma {:induction false} PlaceHolds(n: Nodes, m: Nodes, c: Ctx, hole: NodeId, ks: seq<Kid>)
    requires c.In? && HoldsCtx(n, c, hole) && Distinct(CtxBag(c))
    requires c.id in m
             && m[c.id] == n[c.id].(contents := SplitContents(c.axis, Links(c.left) + Links(ks) + Links(c.right)))
    requires forall x :: x in CtxBag(c) && x != c.id && x in n ==> x in m && m[x] == n[x]
    requires HoldsKids(m, ks, c.id)
    ensures Holds(m, Place(c, ks), None)
  {
    var s := Split(c.id, c.axis, c.left + ks + c.right);
    OuterHolds(n, m, c, hole);
    LinksAppend(c.left + ks, c.right);
    LinksAppend(c.left, ks);
    assert forall k :: k in s.kids <==> k in c.left || k in ks || k in c.right;
    HoldsPlug(m, c.up, s);
  }

  /** The surroundings of a split survive when only the split's own entry changes. */
  lemma {:induction false} OuterHolds(n: Nodes, m: Nodes, c: Ctx, hole: NodeId)
    requires c.In? && HoldsCtx(n, c, hole) && Distinct(CtxBag(c))
    requires forall x :: x in CtxBag(c) && x != c.id && x in n ==> x in m && m[x] == n[x]
    ensures HoldsKids(m, c.left, c.id) && HoldsKids(m, c.right, c.id) && HoldsCtx(m, c.up, c.id)
  {
    CtxParts(c);
    HoldsKidsFrame(n, m, c.left, c.id);
    HoldsKidsFrame(n, m, c.right, c.id);
    HoldsCtxFrame(n, m, c.up, c.id);
  }

  lemma {:induction false} CtxParts(c: Ctx)
    requires c.In? && Distinct(CtxBag(c))
    ensures forall x ::
              x in CtxBag(c) <==> x == c.id || x in CtxBag(c.up) || x in BagKids(c.left) || x in BagKids(c.right)
    ensures c.id !in CtxBag(c.up) && c.id !in BagKids(c.left) && c.id !in BagKids(c.right)
    ensures Distinct(BagKids(c.left) + BagKids(c.right)) && Distinct(CtxBag(c.up))
  {
    hide CtxBag, BagKids;
    CtxBagIn(c);
    DistinctUnion(CtxBag(c.up) + multiset{c.id} + BagKids(c.left), BagKids(c.right));
    DistinctUnion(CtxBag(c.up) + multiset{c.id}, BagKids(c.left));
    DistinctUnion(CtxBag(c.up), multiset{c.id});
    DistinctUnion(BagKids(c.left), BagKids(c.right));
  }

  lemma {:induction false} CtxBagIn(c: Ctx)
    requires c.In?
    ensures CtxBag(c) == CtxBag(c.up) + multiset{c.id} + BagKids(c.left) + BagKids(c.right)
  {
  }

  /** Everything the map says around one node. */
  lemma {:induction false} Open(n: Nodes, t: Tree, id: NodeId)
    requires Holds(n, t, None) && Distinct(Bag(t)) && id in Bag(t)
    ensures var l := At(t, id); Opened(n, t, l.ctx, l.tree)
  {
    var l := At(t, id);
    OpenAt(n, l.ctx, l.tree);
  }

  ghost predicate Opened(n: Nodes, t: Tree, c: Ctx, s: Tree) {
    && t == Plug(c, s)
    && HoldsCtx(n, c, s.id) && Holds(n, s, HoleParent(c))
    && Bag(t) == CtxBag(c) + Bag(s)
    && Distinct(CtxBag(c)) && Distinct(Bag(s))
    && (forall x :: x in CtxBag(c) ==> x !in Bag(s))
    && s.id in Bag(s) && s.id !in CtxBag(c)
    && s.id in n && n[s.id] == NodeOf(s, HoleParent(c))
    && (c.In? ==>
          && c.id in n && c.id in CtxBag(c) && s.id != c.id
          && n[c.id]
               == Node(c.id, HoleParent(c.up),
                       SplitContents(c.axis, Links(c.left) + [Child(s.id, c.share)] + Links(c.right)))
          && IndexOf(n[c.id].contents.children, s.id) == |c.left|)
  }

  lemma {:induction false} OpenAt(n: Nodes, c: Ctx, s: Tree)
    requires Holds(n, Plug(c, s), None) && Distinct(Bag(Plug(c, s)))
    ensures Opened(n, Plug(c, s), c, s)
  {
    HoldsPlug(n, c, s);
    PlugBag(c, s);
    DistinctUnion(CtxBag(c), Bag(s));
    if c.In? {
      CtxParts(c);
      assert s.id in Bag(s);
      HoleIndex(c.left, Child(s.id, c.share), c.right);
    }
  }

  // ----- what the map guarantees on its own

  /** Entry p links to x with its child number k. */
  ghost predicate Linked(n: Nodes, p: NodeId, k: nat, x: NodeId) {
    p in n && !n[p].IsLeaf() && k < |n[p].contents.children| && n[p].contents.children[k].nodeId == x
  }

  /** Only the root has no parent. Every other entry is linked once, by the split it names as its parent,
      and no link leads out of the map or to the root. */
  lemma {:induction false} LinkedOnce(nodes: Nodes, root: NodeId, next: nat, t: Tree, slack: NodeId)
    requires Represents(nodes, root, next, t, slack)
    ensures root in nodes && nodes[root].parent == None
    ensures forall p: NodeId, k: nat, x: NodeId ::
              Linked(nodes, p, k, x) ==> x in nodes && x != root && nodes[x].parent == Some(p)
    ensures forall x :: x in nodes && x != root ==>
              nodes[x].parent.Some? && exists k: nat :: Linked(nodes, nodes[x].parent.value, k, x)
    ensures forall p: NodeId, j: nat, k: nat, x: NodeId :: Linked(nodes, p, j, x) && Linked(nodes, p, k, x) ==> j == k
  {
    hide Plug, Bag, Locate, Distinct, Holds, HoldsCtx, Sound, PaneBag;
    RootInBag(t);
    RootParent(nodes, t);
    forall p: NodeId, k: nat, x: NodeId | Linked(nodes, p, k, x)
      ensures x in nodes && x != root && nodes[x].parent == Some(p) {
      LinkInside(nodes, t, None, p, k);
    }
    forall x | x in nodes && x != root
      ensures nodes[x].parent.Some? && exists k: nat :: Linked(nodes, nodes[x].parent.value, k, x)
      ensures forall j: nat, k: nat ::
                Linked(nodes, nodes[x].parent.value, j, x) && Linked(nodes, nodes[x].parent.value, k, x) ==> j == k
    {
      var l := At(t, x);
      Open(nodes, t, x);
      if l.ctx.In? {
        LinkedFrom(nodes, l.ctx, l.tree);
        assert Linked(nodes, l.ctx.id, |l.ctx.left|, x);
      } else {
        PlugTop(l.tree);
      }
    }
  }

  lemma {:induction false} RootParent(n: Nodes, t: Tree)
    requires Holds(n, t, None)
    ensures t.id in n && n[t.id].parent == None
  {
  }

  /** Parent links lead to the root: no set of other entries is closed under them. */
  lemma {:induction false} ParentsReachRoot(nodes: Nodes, root: NodeId, next: nat, t: Tree, slack: NodeId,
                                            entries: set<NodeId>)
    requires Represents(nodes, root, next, t, slack)
    requires entries != {} && entries <= nodes.Keys && root !in entries
    ensures exists x ::
              x in entries && nodes[x].parent.Some? && nodes[x].parent.value in nodes
              && nodes[x].parent.value !in entries
  {
    hide Plug, Bag, Locate, Distinct, Holds, HoldsCtx, Sound, PaneBag;
    var x :| x in entries;
    ClimbOut(nodes, t, At(t, x).ctx, At(t, x).tree, entries);
  }

  lemma {:induction false} ClimbOut(n: Nodes, t: Tree, c: Ctx, u: Tree, entries: set<NodeId>)
    requires Holds(n, t, None) && Distinct(Bag(t)) && t == Plug(c, u)
    requires u.id in entries && entries <= n.Keys && t.id !in entries
    ensures exists x :: x in entries && n[x].parent.Some? && n[x].parent.value in n && n[x].parent.value !in entries
    decreases c
  {
    hide Bag, Locate, Distinct, Holds, HoldsCtx;
    OpenAt(n, c, u);
    if c.In? && c.id in entries {
      ClimbOut(n, t, c.up, Fill(c, u), entries);
    }
  }

  lemma {:induction false} FillShape(c: Ctx, t: Tree)
    requires c.In?
    ensures var u := Fill(c, t);
            && u.Split? && u.id == c.id && u.axis == c.axis && |u.kids| == |c.left| + 1 + |c.right|
            && Links(u.kids) == Links(c.left) + [Child(t.id, c.share)] + Links(c.right)
            && Ids(u.kids) == ChildIds(Links(u.kids))
  {
    LinkFacts(Fill(c, t).kids);
    LinksMiddle(c.left, Kid(t, c.share), c.right);
  }

  /** A node's link occurs once among its siblings. */
  lemma {:induction false} LinkedFrom(n: Nodes, c: Ctx, x: Tree)
    requires Opened(n, Plug(c, x), c, x) && c.In?
    ensures var cs := n[c.id].contents.children;
            && |c.left| < |cs| && cs[|c.left|] == Child(x.id, c.share)
            && forall k :: 0 <= k < |cs| && cs[k].nodeId == x.id ==> k == |c.left|
  {
    hide Plug;
    FillShape(c, x);
    FillBag(c, x);
    var ks := Fill(c, x).kids;
    DistinctUnion(CtxBag(c), Bag(x));
    DistinctUnion(CtxBag(c.up), Bag(Fill(c, x)));
    DistinctUnion(multiset{c.id}, BagKids(ks));
    var cs := n[c.id].contents.children;
    forall k | 0 <= k < |cs| && cs[k].nodeId == x.id ensures k == |c.left| {
      assert Links(ks)[k].nodeId == ks[k].tree.id;
      DistinctIds(ks, k, |c.left|);
    }
  }

  /** The level of a removed child with its remaining children scaled to a full hundred. */
  function ClosedUp(c: Ctx): Tree
    requires c.In?
  {
    Split(c.id, c.axis, Scaled(c.left + c.right, MAX_PERCENTAGE))
  }

  /** Focus moves to the leaf behind the removed one, or to the one before it at the end. */
  function NextFocus(before: seq<NodeId>, after: seq<NodeId>): (f: NodeId)
    requires |before| + |after| >= 1
    ensures f in before + after
  {
    if |after| > 0 then after[0] else before[|before| - 1]
  }

  lemma {:induction false} FirstPlace(b: seq<NodeId>, id: NodeId, a: seq<NodeId>, i: nat)
    requires var s := b + [id] + a; i < |s| && s[i] == id && id !in s[..i] && id !in b && |s| > 1
    ensures var s := b + [id] + a;
            i == |b| && NextFocus(b, a) == if i + 1 < |s| then s[i + 1] else s[i - 1]
  {
    var s := b + [id] + a;
    assert s[|b|] == id;
  }

  lemma {:induction false} RestWeights(c: Ctx, s: Tree, children: seq<Child>)
    requires c.In? && Sound(Plug(c, s), 0) && c.id != 0
    requires var all := Links(c.left) + [Child(s.id, c.share)] + Links(c.right);
             children == all[..|c.left|] + all[|c.left| + 1..]
    ensures children == Links(c.left + c.right) && ChildShares(children) == Shares(c.left + c.right)
    ensures Weights(Shares(c.left + c.right)) && SoundCtx(c, 0)
    ensures Repriced(children, Distribute(ChildShares(children), MAX_PERCENTAGE))
              == Links(Scaled(c.left + c.right, MAX_PERCENTAGE))
  {
    hide Plug, Sound, Sum;
    PlugSound(c, s, 0);
    SharesAppend(c.left, c.right);
    assert children == Links(c.left) + Links(c.right);
    LinksAppend(c.left, c.right);
    LinkFacts(c.left + c.right);
    RepricedLinks(c.left + c.right, MAX_PERCENTAGE);
  }

  lemma {:induction false} CloseUpHolds(n: Nodes, c: Ctx, hole: NodeId, m: Nodes)
    requires c.In? && HoldsCtx(n, c, hole) && Distinct(CtxBag(c)) && c.id in CtxBag(c)
    requires c.id in n && n[c.id].parent == HoleParent(c.up) && n[c.id].id == c.id
    requires c.id in m && m[c.id] == n[c.id].(contents := SplitContents(c.axis, Links(ClosedUp(c).kids)))
    requires forall x :: x in CtxBag(c) && x != c.id && x in n ==> x in m && m[x] == n[x]
    ensures Holds(m, Plug(c.up, ClosedUp(c)), None)
  {
    hide Plug, Scaled, CtxBag, BagKids, Bag, Distinct;
    var rest := Scaled(c.left + c.right, MAX_PERCENTAGE);
    OuterHolds(n, m, c, hole);
    assert HoldsKids(m, c.left + c.right, c.id);
    HoldsScaled(m, c.left + c.right, MAX_PERCENTAGE, c.id);
    HoldsPlug(m, c.up, ClosedUp(c));
  }

  /** Between erasing the leaf and dissolving its level, only that level may be unary. */
  lemma {:induction false} CloseUpRepresented(n: Nodes, next: nat, c: Ctx, s: Tree, m: Nodes, root: NodeId)
    requires Opened(n, Plug(c, s), c, s) && s.Leaf? && c.In?
    requires Represents(n, root, next, Plug(c, s), 0)
    requires Holds(m, Plug(c.up, ClosedUp(c)), None) && Plug(c.up, ClosedUp(c)).id == root
    requires forall x :: x in m <==> x in n && x != s.id
    ensures |c.left| + |c.right| >= 1
    ensures Represents(m, root, next, Plug(c.up, ClosedUp(c)), if |c.left| + |c.right| == 1 then c.id else 0)
  {
    hide Plug, Holds, HoldsCtx, Sound, Bag, BagKids, CtxBag, Leaves, LeavesKids, Scaled, Sum, NonNegative;
    var rest := ClosedUp(c);
    PlugSound(c, s, 0);
    assert 0 !in Bag(Plug(c, s));
    assert 0 !in CtxBag(c) && c.id != 0;
    assert |c.left| + |c.right| >= 1;
    CloseUpIds(c, s);
    CloseUpPanes(c, s);
    CloseUpSound(c);
  }

  lemma {:induction false} CloseUpIds(c: Ctx, s: Tree)
    requires c.In? && s.Leaf? && Distinct(Bag(Plug(c, s))) && SoundCtx(c, 0) && |c.left| + |c.right| >= 1
    ensures Distinct(Bag(Plug(c.up, ClosedUp(c))))
    ensures forall x :: x in Bag(Plug(c.up, ClosedUp(c))) <==> x in Bag(Plug(c, s)) && x != s.id
  {
    hide Plug, Scaled, SoundCtx, BagKids;
    PlugBag(c, s);
    RestProps(c, 0);
    SplitNode(c.id, c.axis, ClosedUp(c).kids);
    PlugBag(c.up, ClosedUp(c));
    CtxBagIn(c);
    assert multiset{s.id} + Bag(Plug(c.up, ClosedUp(c))) == Bag(Plug(c, s)) + multiset{};
    BagDelta(Bag(Plug(c, s)), Bag(Plug(c.up, ClosedUp(c))), multiset{s.id}, multiset{});
  }

  lemma {:induction false} CloseUpPanes(c: Ctx, s: Tree)
    requires c.In? && s.Leaf? && Distinct(PaneBag(Plug(c, s))) && SoundCtx(c, 0) && |c.left| + |c.right| >= 1
    ensures PaneBag(Plug(c, s)) == PaneBag(Plug(c.up, ClosedUp(c))) + multiset{s.pane}
    ensures Distinct(PaneBag(Plug(c.up, ClosedUp(c))))
  {
    CloseUpLeaves(c, s);
    CutPane(LeavesBefore(c), LeafRef(s.id, s.pane), LeavesAfter(c));
    DistinctUnion(PaneBag(Plug(c.up, ClosedUp(c))), multiset{s.pane});
  }

  lemma {:induction false} CloseUpLeaves(c: Ctx, s: Tree)
    requires c.In? && s.Leaf? && SoundCtx(c, 0) && |c.left| + |c.right| >= 1
    ensures Leaves(Plug(c, s)) == LeavesBefore(c) + [LeafRef(s.id, s.pane)] + LeavesAfter(c)
    ensures Leaves(Plug(c.up, ClosedUp(c))) == LeavesBefore(c) + LeavesAfter(c)
  {
    hide Plug, Scaled, SoundCtx, LeavesKids, BagKids, Bag, ShareSum;
    PlugLeaves(c, s);
    RestProps(c, 0);
    SplitNode(c.id, c.axis, ClosedUp(c).kids);
    PlugLeaves(c.up, ClosedUp(c));
    Regroup(LeavesBefore(c.up), LeavesKids(c.left), [], LeavesKids(c.right), LeavesAfter(c.up));
    assert LeavesKids(c.left) + [] + LeavesKids(c.right) == LeavesKids(c.left) + LeavesKids(c.right);
    assert LeavesBefore(c) + [] + LeavesAfter(c) == LeavesBefore(c) + LeavesAfter(c);
  }

  lemma {:induction false} CutPane(a: seq<LeafRef>, x: LeafRef, b: seq<LeafRef>)
    ensures multiset(Panes(a + [x] + b)) == multiset(Panes(a + b)) + multiset{x.pane}
  {
    PanesAppend(a + [x], b);
    PanesAppend(a, [x]);
    PanesAppend(a, b);
    assert Panes([x]) == [x.pane];
  }

  lemma {:induction false} CloseUpSound(c: Ctx)
    requires c.In? && SoundCtx(c, 0) && |c.left| + |c.right| >= 1 && 0 !in CtxBag(c)
    ensures Sound(Plug(c.up, ClosedUp(c)), if |c.left| + |c.right| == 1 then c.id else 0)
  {
    hide Plug, Scaled, Sum, NonNegative;
    var slack := if |c.left| + |c.right| == 1 then c.id else 0;
    RestProps(c, 0);
    CtxBagIn(c);
    SlackSoundCtx(c.up, slack);
    forall k | k in ClosedUp(c).kids ensures Sound(k.tree, slack) {
      KidBag(ClosedUp(c).kids, k);
      SlackSound(k.tree, slack);
    }
    PlugSound(c.up, ClosedUp(c), slack);
  }

  lemma {:induction false} SlackSoundCtx(c: Ctx, slack: NodeId)
    requires SoundCtx(c, 0) && 0 !in CtxBag(c)
    ensures SoundCtx(c, slack)
    decreases c
  {
    if c.In? {
      SlackSoundCtx(c.up, slack);
      BagAppend(c.left, c.right);
      forall k | k in c.left + c.right ensures Sound(k.tree, slack) {
        KidBag(c.left + c.right, k);
        SlackSound(k.tree, slack);
      }
    }
  }

  lemma {:induction false} SomeLeaf(t: Tree, slack: NodeId)
    requires Sound(t, slack)
    ensures |Leaves(t)| >= 1
    decreases t
  {
    if t.Split? {
      SomeLeaf(t.kids[0].tree, slack);
      assert t.kids == [t.kids[0]] + t.kids[1..];
      KidsCons(t.kids[0], t.kids[1..]);
    }
  }

  lemma {:induction false} SomeLeafKids(ks: seq<Kid>, slack: NodeId)
    requires SoundKids(ks, slack) && ks != []
    ensures |LeavesKids(ks)| >= 1
  {
    SomeLeaf(ks[0].tree, slack);
    assert ks == [ks[0]] + ks[1..];
    KidsCons(ks[0], ks[1..]);
  }

  /** A leaf's place among all leaves is told by its context. */
  lemma {:induction false} LeafPosition(n: Nodes, t: Tree, c: Ctx, s: Tree)
    requires Opened(n, t, c, s) && s.Leaf? && Sound(t, 0) && 0 !in Bag(t)
    ensures LeafIds(Leaves(t)) == LeafIds(LeavesBefore(c)) + [s.id] + LeafIds(LeavesAfter(c))
    ensures s.id !in LeafIds(LeavesBefore(c))
    ensures c.Top? <==> |Leaves(t)| == 1
    ensures c.Top? <==> t.Leaf?
  {
    hide CtxBag, BagKids, Bag, LeavesKids, HoldsCtx;
    PlugLeaves(c, s);
    PlugSound(c, s, 0);
    SameRoot(c, s);
    assert Leaves(s) == [LeafRef(s.id, s.pane)];
    CtxLeaves(n, c, s.id);
    if c.In? {
      TwoLeaves(c);
      SplitStays(c, s);
    }
  }

  lemma {:induction false} SplitStays(c: Ctx, t: Tree)
    requires c.In?
    ensures Plug(c, t).Split?
    decreases c
  {
    if c.up.In? {
      SplitStays(c.up, Fill(c, t));
    }
  }

  lemma {:induction false} TwoLeaves(c: Ctx)
    requires c.In? && SoundCtx(c, 0) && c.id != 0
    ensures |LeavesBefore(c)| + |LeavesAfter(c)| >= 1
  {
    if c.left != [] {
      assert forall k :: k in c.left ==> k in c.left + c.right;
      SomeLeafKids(c.left, 0);
    } else if c.right != [] {
      assert forall k :: k in c.right ==> k in c.left + c.right;
      SomeLeafKids(c.right, 0);
    }
  }

  lemma {:induction false} CtxLeaves(n: Nodes, c: Ctx, hole: NodeId)
    requires HoldsCtx(n, c, hole)
    ensures forall x :: x in LeafIds(LeavesBefore(c)) ==> x in CtxBag(c)
    decreases c
  {
    if c.In? {
      CtxLeaves(n, c.up, c.id);
      forall x | x in LeafIds(LeavesBefore(c)) ensures x in CtxBag(c) {
        var ls := LeavesBefore(c);
        var i :| 0 <= i < |ls| && LeafIds(ls)[i] == x;
        if i < |LeavesBefore(c.up)| {
          assert LeafIds(LeavesBefore(c.up))[i] == x;
        } else {
          assert ls[i] == LeavesKids(c.left)[i - |LeavesBefore(c.up)|];
          assert ls[i] == LeafRef(x, ls[i].pane);
          LeafEntriesKids(n, c.left, c.id, x, ls[i].pane);
        }
      }
    }
  }

  function ChildIds(cs: seq<Child>): (s: seq<NodeId>)
    ensures |s| == |cs|
  {
    seq(|cs|, i requires 0 <= i < |cs| => cs[i].nodeId)
  }

  function ChildShares(cs: seq<Child>): (s: seq<int>)
    ensures |s| == |cs|
  {
    seq(|cs|, i requires 0 <= i < |cs| => cs[i].percentage)
  }

  function Repriced(cs: seq<Child>, values: seq<int>): (s: seq<Child>)
    requires |cs| == |values|
    ensures |s| == |cs|
  {
    seq(|cs|, i requires 0 <= i < |cs| => Child(cs[i].nodeId, values[i]))
  }

  lemma {:induction false} LinkFacts(ks: seq<Kid>)
    ensures ChildIds(Links(ks)) == Ids(ks) && ChildShares(Links(ks)) == Shares(ks)
  {
  }

  lemma {:induction false} RepricedLinks(ks: seq<Kid>, total: int)
    requires Weights(Shares(ks))
    ensures Repriced(Links(ks), Distribute(Shares(ks), total)) == Links(Scaled(ks, total))
  {
  }

  lemma {:induction false} HoldsScaled(n: Nodes, ks: seq<Kid>, total: int, parent: NodeId)
    requires HoldsKids(n, ks, parent)
    ensures HoldsKids(n, Scaled(ks, total), parent)
  {
    forall k | k in Scaled(ks, total) ensures Holds(n, k.tree, Some(parent)) {
      var i :| 0 <= i < |ks| && Scaled(ks, total)[i] == k;
      assert ks[i] in ks;
    }
  }

  lemma {:induction false} LinksPresent(n: Nodes, ks: seq<Kid>, parent: NodeId)
    requires HoldsKids(n, ks, parent)
    ensures forall l | l in Links(ks) :: l.nodeId in n
  {
    forall l | l in Links(ks) ensures l.nodeId in n {
      var i :| 0 <= i < |ks| && Links(ks)[i] == l;
      assert ks[i] in ks;
    }
  }

  /** The only child of a split, seen in the map and in the bags. */
  lemma {:induction false} UnaryChild(n: Nodes, c: Ctx, u: Tree)
    requires Opened(n, Plug(c, u), c, u) && u.Split? && |u.kids| == 1
    ensures var child := u.kids[0].tree;
            && n[u.id].contents == SplitContents(u.axis, Links(u.kids))
            && Links(u.kids)[0] == Child(child.id, u.kids[0].share)
            && Holds(n, child, Some(u.id)) && child.id in n && n[child.id] == NodeOf(child, Some(u.id))
            && Bag(u) == multiset{u.id} + Bag(child)
            && u.id !in Bag(child) && child.id in Bag(child) && Distinct(Bag(child)) && child.id != u.id
            && (c.In? ==> child.id != c.id && c.id !in Bag(child))
    {
      var child := u.kids[0].tree;
      assert u.kids[0] in u.kids;
      OnlyKid(u.kids);
      DistinctUnion(multiset{u.id}, Bag(child));
    }

  lemma {:induction false} ShareWeights(n: Nodes, c: Ctx, u: Tree)
    requires Opened(n, Plug(c, u), c, u) && u.Split? && |u.kids| == 1 && Sound(Plug(c, u), u.id) && c.In?
    requires u.kids[0].tree.Split?
    ensures Weights(Shares(u.kids[0].tree.kids)) && 0 <= c.share <= MAX_PERCENTAGE
    ensures ChildShares(Links(u.kids[0].tree.kids)) == Shares(u.kids[0].tree.kids)
    ensures forall l | l in Links(u.kids[0].tree.kids) :: l.nodeId in n
    {
      var child := u.kids[0].tree;
      PlugSound(c, u, u.id);
      assert u.kids[0] in u.kids;
      LinkFacts(child.kids);
      UnaryChild(n, c, u);
      LinksPresent(n, child.kids, child.id);
      SumNonNegative(Shares(c.left));
      SumNonNegative(Shares(c.right));
    }

  lemma {:induction false} DissolveTopHolds(n: Nodes, u: Tree, m: Nodes)
    requires Opened(n, Plug(Top, u), Top, u) && u.Split? && |u.kids| == 1
    requires var child := u.kids[0].tree; child.id in n && m == n[child.id := n[child.id].(parent := None)] - {u.id}
    ensures Holds(m, DissolveAt(Top, u.kids[0].tree), None)
  {
    UnaryChild(n, Top, u);
    HoldsReparent(n, m, u.kids[0].tree, Some(u.id), None);
  }

  lemma {:induction false} DissolveRelinkHolds(n: Nodes, c: Ctx, u: Tree, m: Nodes)
    requires c.In? && Opened(n, Plug(c, u), c, u) && u.Split? && |u.kids| == 1
    requires var child := u.kids[0].tree;
             && !Matches(child, c.axis) && child.id in n
             && m == n[c.id := n[c.id].(contents := SplitContents(c.axis,
                                                                  Links(c.left) + [Child(child.id, c.share)]
                                                                  + Links(c.right)))]
                      [child.id := n[child.id].(parent := Some(c.id))] - {u.id}
    ensures Holds(m, DissolveAt(c, u.kids[0].tree), None)
  {
    hide Place, Plug, BagKids, CtxBag, HoldsCtx;
    var child := u.kids[0].tree;
    UnaryChild(n, c, u);
    HoldsIds(n, child, Some(u.id));
    HoldsReparent(n, m, child, Some(u.id), Some(c.id));
    assert Links([Kid(child, c.share)]) == [Child(child.id, c.share)];
    assert HoldsKids(m, [Kid(child, c.share)], c.id);
    PlaceHolds(n, m, c, u.id, [Kid(child, c.share)]);
  }

  lemma {:induction false} DissolvePromoteHolds(n: Nodes, c: Ctx, u: Tree, siblings: seq<Child>, m: Nodes)
    requires c.In? && Opened(n, Plug(c, u), c, u) && u.Split? && |u.kids| == 1
    requires var child := u.kids[0].tree;
             && Matches(child, c.axis) && Weights(Shares(child.kids))
             && siblings == (Links(c.left) + [Child(u.id, c.share)] + Links(c.right))[..|c.left|]
                            + Repriced(Links(child.kids), Distribute(Shares(child.kids), c.share))
                            + (Links(c.left) + [Child(u.id, c.share)] + Links(c.right))[|c.left| + 1..]
             && m == Reparented(n[c.id := n[c.id].(contents := SplitContents(c.axis, siblings))],
                                ChildIds(Links(child.kids)), Some(c.id))
                     - {child.id, u.id}
    ensures Holds(m, DissolveAt(c, u.kids[0].tree), None)
  {
    hide Place, Plug, CtxBag, HoldsCtx, Scaled, Bag, BagKids;
    var child := u.kids[0].tree;
    var ks := child.kids;
    UnaryChild(n, c, u);
    SplitNode(child.id, child.axis, ks);
    DistinctUnion(multiset{child.id}, BagKids(ks));
    LinkFacts(ks);
    RepricedLinks(ks, c.share);
    IdsInBag(ks);
    CutOut(Links(c.left), Child(u.id, c.share), Links(c.right));
    assert siblings == Links(c.left) + Links(Scaled(ks, c.share)) + Links(c.right);
    HoldsKidsReparent(n, m, ks, Some(child.id), c.id);
    HoldsScaled(m, ks, c.share, c.id);
    PlaceHolds(n, m, c, u.id, Scaled(ks, c.share));
  }

  lemma {:induction false} CutOut(a: seq<Child>, x: Child, b: seq<Child>)
    ensures (a + [x] + b)[..|a|] == a && (a + [x] + b)[|a| + 1..] == b
  {
  }

  /** Dissolving retires the split, and the child too when its children are promoted. */
  lemma {:induction false} DissolveRepresented(n: Nodes, c: Ctx, u: Tree, m: Nodes, root: NodeId, next: nat)
    requires Opened(n, Plug(c, u), c, u) && u.Split? && |u.kids| == 1
    requires Represents(n, Plug(c, u).id, next, Plug(c, u), u.id)
    requires Holds(m, DissolveAt(c, u.kids[0].tree), None) && root == DissolveAt(c, u.kids[0].tree).id
    requires forall x :: x in m <==> x in n && x != u.id && x !in DissolveDrop(c, u.kids[0].tree)
    ensures Represents(m, root, next, DissolveAt(c, u.kids[0].tree), 0)
  {
    hide Place, Plug, Holds, HoldsCtx, DissolveAt, DissolveDrop, Sound, SoundCtx, Bag, BagKids, CtxBag, Leaves;
    hide LeavesKids, LeavesBefore, LeavesAfter;
    var child := u.kids[0].tree;
    UnaryChild(n, c, u);
    PlugSound(c, u, u.id);
    KidSound(u, 0, u.id);
    DissolveProps(c, child, u.id);
    PlugBag(c, u);
    PlugLeaves(c, u);
    SplitNode(u.id, u.axis, u.kids);
    OnlyKid(u.kids);
    var gone := multiset{u.id} + DissolveDrop(c, child);
    var dropped, result := DissolveDrop(c, child), Bag(DissolveAt(c, child));
    assert (multiset{u.id} + dropped) + result == multiset{u.id} + (dropped + result);
    assert gone + result == Bag(Plug(c, u)) + multiset{};
    BagDelta(Bag(Plug(c, u)), Bag(DissolveAt(c, child)), gone, multiset{});
    SoundSlack(DissolveAt(c, child), u.id);
  }

  lemma {:induction false} KidSound(t: Tree, i: nat, slack: NodeId)
    requires t.Split? && i < |t.kids| && Sound(t, slack)
    ensures Sound(t.kids[i].tree, slack) && NonNegative(Shares(t.kids)) && Shares(t.kids)[i] == t.kids[i].share
  {
    assert t.kids[i] in t.kids;
  }

  /** The new leaf joins an existing level of the same axis. */
  predicate Joins(c: Ctx, axis: Axis) {
    c.In? && c.axis == axis
  }

  lemma {:induction false} JoinHolds(n: Nodes, m: Nodes, c: Ctx, target: Tree, added: Tree, insertion: Insertion,
                                     children: seq<Child>)
    requires c.In? && target.Leaf? && added.Leaf? && Opened(n, Plug(c, target), c, target)
    requires added.id !in n && added.id != c.id && added.id != target.id
    requires var i := |c.left|;
             var before := Links(c.left) + [Child(target.id, c.share)] + Links(c.right);
             var halved := before[i := Child(target.id, if insertion.Before? then c.share / 2 else (c.share + 1) / 2)];
             var at := if insertion.Before? then i else i + 1;
             children
               == halved[..at] + [Child(added.id, if insertion.Before? then (c.share + 1) / 2 else c.share / 2)]
               + halved[at..]
    requires m == n[c.id := n[c.id].(contents := SplitContents(c.axis, children))]
                   [added.id := Node(added.id, Some(c.id), LeafContents(added.pane))]
    ensures Holds(m, Place(c, Pair(added, target, c.share, insertion)), None)
  {
    hide Place, Plug, Bag, BagKids, CtxBag, Distinct;
    var p := Pair(added, target, c.share, insertion);
    JoinChildren(c, target, added, insertion, children);
    HoldsCtxIds(n, c, target.id);
    assert HoldsKids(m, p, c.id);
    PlaceHolds(n, m, c, target.id, p);
  }

  lemma {:induction false} JoinChildren(c: Ctx, target: Tree, added: Tree, insertion: Insertion, children: seq<Child>)
    requires c.In? && target.Leaf? && added.Leaf?
    requires var i := |c.left|;
             var before := Links(c.left) + [Child(target.id, c.share)] + Links(c.right);
             var halved := before[i := Child(target.id, if insertion.Before? then c.share / 2 else (c.share + 1) / 2)];
             var at := if insertion.Before? then i else i + 1;
             children
               == halved[..at] + [Child(added.id, if insertion.Before? then (c.share + 1) / 2 else c.share / 2)]
               + halved[at..]
    ensures children == Links(c.left) + Links(Pair(added, target, c.share, insertion)) + Links(c.right)
  {
  }

  lemma {:induction false} HoldsCtxIds(n: Nodes, c: Ctx, hole: NodeId)
    requires HoldsCtx(n, c, hole)
    ensures forall x :: x in CtxBag(c) ==> x in n
    decreases c
  {
    if c.In? {
      HoldsCtxIds(n, c.up, c.id);
      forall x | x in BagKids(c.left) ensures x in n {
        var k := InKids(c.left, x);
        HoldsIds(n, k.tree, Some(c.id));
      }
      forall x | x in BagKids(c.right) ensures x in n {
        var k := InKids(c.right, x);
        HoldsIds(n, k.tree, Some(c.id));
      }
    }
  }

  lemma {:induction false} WrapHolds(n: Nodes, m: Nodes, c: Ctx, target: Tree, axis: Axis, added: Tree,
                                     insertion: Insertion, splitId: NodeId)
    requires target.Leaf? && added.Leaf? && Opened(n, Plug(c, target), c, target)
    requires added.id !in n && splitId !in n && splitId != added.id
    requires var s := Split(splitId, axis, Pair(added, target, MAX_PERCENTAGE, insertion));
             var k := if c.Top? then n else n[c.id := n[c.id].(contents :=
                        SplitContents(c.axis, Links(c.left) + [Child(splitId, c.share)] + Links(c.right)))];
             m == k[target.id := n[target.id].(parent := Some(splitId))]
                   [added.id := Node(added.id, Some(splitId), LeafContents(added.pane))]
                   [splitId := NodeOf(s, HoleParent(c))]
    ensures Holds(m, Plug(c, Split(splitId, axis, Pair(added, target, MAX_PERCENTAGE, insertion))), None)
  {
    hide Place, Plug, Bag, BagKids, CtxBag, Distinct;
    var s := Split(splitId, axis, Pair(added, target, MAX_PERCENTAGE, insertion));
    HoldsCtxIds(n, c, target.id);
    assert Holds(m, s, HoleParent(c));
    if c.Top? {
      PlugTop(s);
    } else {
      hide Holds;
      assert Links([Kid(s, c.share)]) == [Child(splitId, c.share)];
      PlaceHolds(n, m, c, target.id, [Kid(s, c.share)]);
      PlugPlace(c, s);
    }
  }

  lemma {:induction false} SameRootId(c: Ctx, t: Tree, t': Tree)
    requires t.id == t'.id
    ensures Plug(c, t).id == Plug(c, t').id
    decreases c
  {
    if c.In? {
      SameRootId(c.up, Fill(c, t), Fill(c, t'));
    }
  }

  lemma {:induction false} PlugUp(c: Ctx, t: Tree)
    requires c.In?
    ensures Plug(c, t) == Plug(c.up, Fill(c, t))
  {
  }

  lemma {:induction false} PairLinks(added: Tree, target: Tree, insertion: Insertion)
    ensures Links(Pair(added, target, MAX_PERCENTAGE, insertion))
         == if insertion.Before? then [Child(added.id, 50), Child(target.id, 50)]
            else [Child(target.id, 50), Child(added.id, 50)]
  {
  }

  lemma {:induction false} HoleLink(c: Ctx, h: Child, h': Child)
    requires c.In?
    ensures (Links(c.left) + [h] + Links(c.right))[|c.left| := h'] == Links(c.left) + [h'] + Links(c.right)
  {
  }

  /** Nothing done below the root changes which node is the root. */
  lemma {:induction false} SameRoot(c: Ctx, t: Tree)
    ensures c.Top? ==> Plug(c, t) == t && forall s :: Plug(c, s) == s
    ensures c.In? ==> forall s :: Plug(c, s).id == Plug(c, t).id
    ensures c.In? ==> forall ks :: Place(c, ks).id == Plug(c, t).id
    decreases c
  {
    if c.In? {
      SameRoot(c.up, Fill(c, t));
    }
  }

  lemma {:induction false} PlugTop(t: Tree)
    ensures Plug(Top, t) == t
  {
  }

  lemma {:induction false} PlugPlace(c: Ctx, t: Tree)
    requires c.In?
    ensures Plug(c, t) == Place(c, [Kid(t, c.share)])
  {
  }

  lemma {:induction false} SplitRepresented(t: Tree, c: Ctx, target: Tree, axis: Axis, added: Tree,
                                            insertion: Insertion, splitId: NodeId,
                          nodes: Nodes, root: NodeId, next: nat)
    requires t == Plug(c, target) && target.Leaf? && added.Leaf?
    requires Distinct(Bag(t)) && SoundCtx(c, 0) && Distinct(PaneBag(t)) && added.pane !in PaneBag(t)
    requires forall x :: x in Bag(t) ==> 0 < x < added.id
    requires splitId == added.id + 1 && 0 < added.id
    requires Holds(nodes, SplitAt(c, target, axis, added, insertion, splitId), None)
    requires root == SplitAt(c, target, axis, added, insertion, splitId).id
    requires next == added.id + (if Joins(c, axis) then 1 else 2) && next <= MAX_NODE_VALUE
    requires forall x :: x in nodes <==> x in Bag(t) || x == added.id || (!Joins(c, axis) && x == splitId)
    ensures Represents(nodes, root, next, SplitAt(c, target, axis, added, insertion, splitId), 0)
  {
    hide Plug, SplitAt, Holds, Distinct, Sound, PaneBag, Bag;
    SplitIds(c, target, axis, added, insertion, splitId);
    SplitSound(c, target, axis, added, insertion, splitId);
  }

  lemma {:induction false} SplitIds(c: Ctx, target: Tree, axis: Axis, added: Tree, insertion: Insertion,
                                    splitId: NodeId)
    requires target.Leaf? && added.Leaf? && Distinct(Bag(Plug(c, target))) && SoundCtx(c, 0)
    requires added.id !in Bag(Plug(c, target)) && splitId !in Bag(Plug(c, target)) && splitId != added.id
    ensures var t' := SplitAt(c, target, axis, added, insertion, splitId);
            && Distinct(Bag(t'))
            && forall x ::
                 x in Bag(t') <==> x in Bag(Plug(c, target)) || x == added.id || (!Joins(c, axis) && x == splitId)
  {
    hide Plug, SplitAt, CtxBag, SoundCtx, Bag;
    var t, t' := Plug(c, target), SplitAt(c, target, axis, added, insertion, splitId);
    PlugBag(c, target);
    LeafFacts(added);
    SplitProps(c, target, axis, added, insertion, splitId);
    var extra := multiset{added.id} + if Joins(c, axis) then multiset{} else multiset{splitId};
    assert Bag(t') == Bag(t) + extra;
    assert multiset{} + Bag(t') == Bag(t');
    BagDelta(Bag(t), Bag(t'), multiset{}, extra);
    hide Distinct;
    assert forall x :: x in extra <==> x == added.id || (!Joins(c, axis) && x == splitId);
  }

  lemma {:induction false} SplitSound(c: Ctx, target: Tree, axis: Axis, added: Tree, insertion: Insertion,
                                      splitId: NodeId)
    requires target.Leaf? && added.Leaf? && SoundCtx(c, 0)
    requires Distinct(PaneBag(Plug(c, target))) && added.pane !in PaneBag(Plug(c, target))
    ensures var t' := SplitAt(c, target, axis, added, insertion, splitId);
            Sound(t', 0) && Distinct(PaneBag(t'))
  {
    hide Plug, SplitAt, PaneBag, LeavesBefore, LeavesAfter, CtxBag, SoundCtx;
    var t, t' := Plug(c, target), SplitAt(c, target, axis, added, insertion, splitId);
    PlugLeaves(c, target);
    SplitProps(c, target, axis, added, insertion, splitId);
    SplitPanes(t, t', c, target, added, insertion);
    DistinctUnion(PaneBag(t), multiset{added.pane});
  }

  lemma {:induction false} SplitPanes(t: Tree, t': Tree, c: Ctx, target: Tree, added: Tree, insertion: Insertion)
    requires target.Leaf? && added.Leaf?
    requires Leaves(t) == LeavesBefore(c) + Leaves(target) + LeavesAfter(c)
    requires Leaves(t') == LeavesBefore(c)
                           + (if insertion.Before? then Leaves(added) + Leaves(target)
                              else Leaves(target) + Leaves(added))
                           + LeavesAfter(c)
    ensures PaneBag(t') == PaneBag(t) + multiset{added.pane}
  {
    var a, x, y, b := LeavesBefore(c), Leaves(target), Leaves(added), LeavesAfter(c);
    PanesAppend(a + x, b);
    PanesAppend(a, x);
    var m := if insertion.Before? then y + x else x + y;
    PanesAppend(y, x);
    PanesAppend(x, y);
    PanesAppend(a + m, b);
    PanesAppend(a, m);
    assert Panes(y) == [added.pane];
  }

  function LeafIds(ls: seq<LeafRef>): (s: seq<NodeId>)
    ensures |s| == |ls|
  {
    seq(|ls|, i requires 0 <= i < |ls| => ls[i].id)
  }

  lemma {:induction false} LeavesSnoc(ks: seq<Kid>, i: nat)
    requires i < |ks|
    ensures LeavesKids(ks[..i + 1]) == LeavesKids(ks[..i]) + Leaves(ks[i].tree)
    ensures LeafIds(LeavesKids(ks[..i + 1])) == LeafIds(LeavesKids(ks[..i])) + LeafIds(Leaves(ks[i].tree))
  {
    assert ks[..i + 1] == ks[..i] + [ks[i]] + [];
    LeavesMiddle(ks[..i], ks[i], []);
  }

  // ----- flattening a level

  lemma {:induction false} IdsAppend(a: seq<Kid>, b: seq<Kid>)
    ensures Ids(a + b) == Ids(a) + Ids(b)
  {
  }

  /** Promoted grandchildren and kept children all hang below the flattened split. */
  lemma {:induction false} FlatHolds(n: Nodes, m: Nodes, ks: seq<Kid>, axis: Axis, parent: NodeId)
    requires HoldsKids(n, ks, parent) && Distinct(BagKids(ks))
    requires forall x :: x in BagKids(ks) && x in n && x !in DroppedKids(ks, axis) ==>
               x in m && m[x] == if x in Ids(Flat(ks, axis)) then n[x].(parent := Some(parent)) else n[x]
    ensures HoldsKids(m, Flat(ks, axis), parent)
  {
    if ks != [] {
      hide Flat, DroppedKids, Promoted, Dropped, Holds, Bag, BagKids, Distinct;
      var k, rest := ks[0], ks[1..];
      assert ks == [k] + rest;
      KidsCons(k, rest);
      DistinctUnion(Bag(k.tree), BagKids(rest));
      FlatCons(k, rest, axis);
      PromotedHolds(n, m, k, axis, parent);
      FlatHolds(n, m, rest, axis, parent);
    }
  }

  lemma {:induction false} FlatCons(k: Kid, rest: seq<Kid>, axis: Axis)
    requires forall x :: !(x in Bag(k.tree) && x in BagKids(rest))
    ensures Flat([k] + rest, axis) == Promoted(k, axis) + Flat(rest, axis)
    ensures forall x :: x in Bag(k.tree) ==>
              && (x in DroppedKids([k] + rest, axis) <==> x in Dropped(k, axis))
              && (x in Ids(Flat([k] + rest, axis)) <==> x in Ids(Promoted(k, axis)))
    ensures forall x :: x in BagKids(rest) ==>
              && (x in DroppedKids([k] + rest, axis) <==> x in DroppedKids(rest, axis))
              && (x in Ids(Flat([k] + rest, axis)) <==> x in Ids(Flat(rest, axis)))
  {
    hide Promoted, Dropped, Bag, BagKids;
    assert ([k] + rest)[1..] == rest;
    FlatIds(k, axis);
    FlatIdsKids(rest, axis);
    IdsAppend(Promoted(k, axis), Flat(rest, axis));
  }

  lemma {:induction false} FlatIds(k: Kid, axis: Axis)
    ensures forall x :: x in Ids(Promoted(k, axis)) || x in Dropped(k, axis) ==> x in Bag(k.tree)
  {
    if Matches(k.tree, axis) {
      IdsInBag(k.tree.kids);
      assert Ids(Promoted(k, axis)) == Ids(k.tree.kids);
    }
  }

  lemma {:induction false} FlatIdsKids(ks: seq<Kid>, axis: Axis)
    ensures forall x :: x in Ids(Flat(ks, axis)) || x in DroppedKids(ks, axis) ==> x in BagKids(ks)
  {
    if ks != [] {
      hide Promoted, Dropped;
      FlatIds(ks[0], axis);
      FlatIdsKids(ks[1..], axis);
      IdsAppend(Promoted(ks[0], axis), Flat(ks[1..], axis));
    }
  }

  lemma {:induction false} PromotedHolds(n: Nodes, m: Nodes, k: Kid, axis: Axis, parent: NodeId)
    requires Holds(n, k.tree, Some(parent)) && Distinct(Bag(k.tree))
    requires forall x :: x in Bag(k.tree) && x in n && x !in Dropped(k, axis) ==>
               x in m && m[x] == if x in Ids(Promoted(k, axis)) then n[x].(parent := Some(parent)) else n[x]
    ensures HoldsKids(m, Promoted(k, axis), parent)
  {
    if Matches(k.tree, axis) {
      hide Scaled;
      var ks := k.tree.kids;
      DistinctUnion(multiset{k.tree.id}, BagKids(ks));
      assert Ids(Promoted(k, axis)) == Ids(ks);
      HoldsKidsReparent(n, m, ks, Some(k.tree.id), parent);
      HoldsScaled(m, ks, k.share, parent);
    } else {
      assert n[k.tree.id] == n[k.tree.id].(parent := Some(parent));
      HoldsFrame(n, m, k.tree, Some(parent));
    }
  }

  lemma {:induction false} FlattenHolds(n: Nodes, c: Ctx, u: Tree, flattened: set<NodeId>, m: Nodes)
    requires u.Split? && Opened(n, Plug(c, u), c, u)
    requires forall x :: x in flattened <==> x in DroppedKids(u.kids, u.axis)
    requires var flat := Flat(u.kids, u.axis);
             m == Reparented(n[u.id := n[u.id].(contents := SplitContents(u.axis, Links(flat)))],
                             ChildIds(Links(flat)), Some(u.id)) - flattened
    ensures Holds(m, Plug(c, Flattened(u)), None)
    ensures forall x :: x in m <==> x in n && x !in DroppedKids(u.kids, u.axis)
  {
    hide Plug, Flat, DroppedKids, CtxBag, BagKids, Bag, Holds, HoldsCtx, Distinct;
    var flat := Flat(u.kids, u.axis);
    SplitNode(u.id, u.axis, u.kids);
    DistinctUnion(multiset{u.id}, BagKids(u.kids));
    FlatIdsKids(u.kids, u.axis);
    LinkFacts(flat);
    FlattenKids(n, c, u);
    FlatHolds(n, m, u.kids, u.axis, u.id);
    assert m[u.id] == NodeOf(Flattened(u), HoleParent(c));
    FlattenedHolds(m, u, HoleParent(c));
    HoldsCtxFrame(n, m, c, u.id);
    HoldsPlug(m, c, Flattened(u));
  }

  lemma {:induction false} FlattenKids(n: Nodes, c: Ctx, u: Tree)
    requires u.Split? && Opened(n, Plug(c, u), c, u)
    ensures HoldsKids(n, u.kids, u.id)
  {
  }

  lemma {:induction false} FlattenedHolds(m: Nodes, u: Tree, parent: Option<NodeId>)
    requires u.Split? && u.id in m && m[u.id] == NodeOf(Flattened(u), parent) && HoldsKids(m, Flattened(u).kids, u.id)
    ensures Holds(m, Flattened(u), parent)
  {
  }

  lemma {:induction false} FlatSnoc(ks: seq<Kid>, i: nat, axis: Axis)
    requires i < |ks|
    ensures Flat(ks[..i + 1], axis) == Flat(ks[..i], axis) + Promoted(ks[i], axis)
    ensures DroppedKids(ks[..i + 1], axis) == DroppedKids(ks[..i], axis) + Dropped(ks[i], axis)
  {
    assert ks[..i + 1] == ks[..i] + [ks[i]];
    FlatAppend(ks[..i], [ks[i]], axis);
    assert Flat([ks[i]], axis) == Promoted(ks[i], axis) + Flat([], axis);
  }

  /** One child of a split, as the flattening loop sees it in the map. */
  lemma {:induction false} FlatStep(n: Nodes, u: Tree, parent: Option<NodeId>, i: nat)
    requires u.Split? && i < |u.kids| && Holds(n, u, parent) && Sound(u, 0)
    ensures var k := u.kids[i];
            && Links(u.kids)[i] == Child(k.tree.id, k.share)
            && k.tree.id in n && n[k.tree.id] == NodeOf(k.tree, Some(u.id))
            && (Matches(k.tree, u.axis) ==>
                  && Weights(Shares(k.tree.kids)) && 0 <= k.share <= MAX_PERCENTAGE
                  && ChildShares(Links(k.tree.kids)) == Shares(k.tree.kids)
                  && Repriced(Links(k.tree.kids), Distribute(Shares(k.tree.kids), k.share))
                       == Links(Promoted(k, u.axis)))
            && (!Matches(k.tree, u.axis) ==> Links(Promoted(k, u.axis)) == [Child(k.tree.id, k.share)])
  {
    var k := u.kids[i];
    assert k in u.kids;
    assert Shares(u.kids)[i] == k.share;
    SumAtLeast(Shares(u.kids), i);
    if Matches(k.tree, u.axis) {
      LinkFacts(k.tree.kids);
      RepricedLinks(k.tree.kids, k.share);
    }
  }

  /** The children of a flattened split are all in the map. */
  lemma {:induction false} FlatPresent(n: Nodes, c: Ctx, u: Tree)
    requires Opened(n, Plug(c, u), c, u) && u.Split?
    ensures forall l | l in Links(Flat(u.kids, u.axis)) :: l.nodeId in n
  {
    HoldsIds(n, u, HoleParent(c));
    FlatIdsKids(u.kids, u.axis);
    forall l | l in Links(Flat(u.kids, u.axis)) ensures l.nodeId in n {
      var i :| 0 <= i < |Flat(u.kids, u.axis)| && Links(Flat(u.kids, u.axis))[i] == l;
      assert Ids(Flat(u.kids, u.axis))[i] == l.nodeId;
      assert l.nodeId in Ids(Flat(u.kids, u.axis));
    }
  }

  // ----- turning axes

  function Turned(node: Node): Node {
    if node.contents.LeafContents? then node
    else node.(contents := SplitContents(Other(node.contents.axis), node.contents.children))
  }

  /** Every entry in b has its axis turned. */
  ghost function TurnedMap(n: Nodes, b: multiset<NodeId>): Nodes {
    map x | x in n :: if x in b then Turned(n[x]) else n[x]
  }

  lemma {:induction false} HoldsTurned(n: Nodes, m: Nodes, t: Tree, parent: Option<NodeId>)
    requires Holds(n, t, parent)
    requires forall x :: x in Bag(t) && x in n ==> x in m && m[x] == Turned(n[x])
    ensures Holds(m, Toggle(t), parent)
    decreases t
  {
    if t.Split? {
      ToggleUnfold(t);
      assert Links(ToggleKids(t.kids)) == Links(t.kids);
      forall k | k in ToggleKids(t.kids) ensures Holds(m, k.tree, Some(t.id)) {
        var i :| 0 <= i < |t.kids| && k == ToggleKids(t.kids)[i];
        assert t.kids[i] in t.kids;
        KidBag(t.kids, t.kids[i]);
        HoldsTurned(n, m, t.kids[i].tree, Some(t.id));
      }
    }
  }

  lemma {:induction false} TurnInPlace(n: Nodes, m: Nodes, c: Ctx, s: Tree)
    requires Opened(n, Plug(c, s), c, s) && m == TurnedMap(n, Bag(s))
    ensures Holds(m, Plug(c, Toggle(s)), None)
  {
    HoldsTurned(n, m, s, HoleParent(c));
    HoldsCtxFrame(n, m, c, s.id);
    HoldsPlug(m, c, Toggle(s));
  }

  lemma {:induction false} BagSnoc(ks: seq<Kid>, i: nat)
    requires i < |ks|
    ensures BagKids(ks[..i + 1]) == BagKids(ks[..i]) + Bag(ks[i].tree)
  {
    assert ks[..i + 1] == ks[..i] + [ks[i]] + [];
    BagMiddle(ks[..i], ks[i], []);
  }

  /** Turning the next child adds its nodes to the turned ones. */
  lemma {:induction false} TurnStep(n: Nodes, ks: seq<Kid>, i: nat, id: NodeId, parent: NodeId)
    requires i < |ks| && HoldsKids(n, ks, parent) && Distinct(multiset{id} + BagKids(ks))
    ensures var done := multiset{id} + BagKids(ks[..i]);
            && Holds(TurnedMap(n, done), ks[i].tree, Some(parent))
            && TurnedMap(TurnedMap(n, done), Bag(ks[i].tree)) == TurnedMap(n, multiset{id} + BagKids(ks[..i + 1]))
            && Distinct(Bag(ks[i].tree))
  {
    hide Bag, BagKids, Turned, Distinct, Holds;
    var done, k := multiset{id} + BagKids(ks[..i]), ks[i];
    assert ks == ks[..i + 1] + ks[i + 1..];
    BagSnoc(ks, i);
    BagAppend(ks[..i + 1], ks[i + 1..]);
    DistinctUnion(multiset{id}, BagKids(ks));
    DistinctUnion(BagKids(ks[..i]) + Bag(k.tree), BagKids(ks[i + 1..]));
    DistinctUnion(BagKids(ks[..i]), Bag(k.tree));
    assert k in ks;
    KidBag(ks, k);
    assert forall x :: x in Bag(k.tree) ==> x !in done;
    HoldsFrame(n, TurnedMap(n, done), k.tree, Some(parent));
    TurnTwice(n, done, Bag(k.tree));
    assert done + Bag(k.tree) == multiset{id} + BagKids(ks[..i + 1]);
  }

  lemma {:induction false} TurnTwice(n: Nodes, a: multiset<NodeId>, b: multiset<NodeId>)
    requires forall x :: x in b ==> x !in a
    ensures TurnedMap(TurnedMap(n, a), b) == TurnedMap(n, a + b)
  {
    hide Turned;
  }

  lemma {:induction false} AxisTurned(n: Nodes, m: Nodes, c: Ctx, s: Tree)
    requires Opened(n, Plug(c, s), c, s) && s.Split? && m == TurnedMap(n, Bag(s))
    ensures s.id in m && m[s.id].contents.SplitContents? && m[s.id].contents.axis == Other(s.axis)
    ensures c.In? ==> c.id in m && m[c.id] == n[c.id]
  {
  }

  lemma {:induction false} RotateRepresented(n: Nodes, c: Ctx, s: Tree, m: Nodes, root: NodeId, next: nat)
    requires s.Split? && Represents(n, root, next, Plug(c, s), 0)
    requires Holds(m, RotateAt(c, s), None) && RotateAt(c, s).id == root
    requires forall x :: x in m <==> x in n && x !in RotateDrop(c, s)
    ensures Represents(m, root, next, RotateAt(c, s), 0)
  {
    hide Plug, RotateAt, RotateDrop, Holds, Sound, Bag, Leaves;
    RotateProps(c, s);
    BagDelta(Bag(Plug(c, s)), Bag(RotateAt(c, s)), RotateDrop(c, s), multiset{});
  }

  lemma {:induction false} RotateRoot(c: Ctx, s: Tree)
    requires s.Split?
    ensures RotateAt(c, s).id == Plug(c, s).id
  {
    SameRootId(c, s, Toggle(s));
    if c.In? {
      PlugUp(c, Toggle(s));
      SameRootId(c.up, Fill(c, Toggle(s)), Flattened(Fill(c, Toggle(s))));
    }
  }

  // ----- grouping neighbours

  /** How far the grouping loop has come: the first i selected subtrees are turned and hang below
      the group, the others still hang below the old parent. */
  ghost predicate Grouping(m0: Nodes, m: Nodes, sel: seq<Kid>, i: nat, groupId: NodeId, parentId: NodeId)
    requires i <= |sel|
  {
    && (forall x :: x in m <==> x in m0)
    && (forall x :: x in m0 && x !in BagKids(sel) ==> m[x] == m0[x])
    && HoldsKids(m, ToggleKids(sel[..i]), groupId)
    && HoldsKids(m, sel[i..], parentId)
  }

  lemma {:induction false} SplitBagAt(sel: seq<Kid>, i: nat)
    requires i < |sel| && Distinct(BagKids(sel))
    ensures var k := sel[i];
            && BagKids(sel) == BagKids(sel[..i]) + Bag(k.tree) + BagKids(sel[i + 1..])
            && Distinct(Bag(k.tree)) && k.tree.id in Bag(k.tree)
            && (forall x :: x in Bag(k.tree) ==> x !in BagKids(sel[..i]) && x !in BagKids(sel[i + 1..]))
            && sel[i..] == [k] + sel[i + 1..]
  {
    hide BagKids;
    var k := sel[i];
    assert sel == sel[..i] + [k] + sel[i + 1..];
    BagMiddle(sel[..i], k, sel[i + 1..]);
    DistinctUnion(BagKids(sel[..i]) + Bag(k.tree), BagKids(sel[i + 1..]));
    DistinctUnion(BagKids(sel[..i]), Bag(k.tree));
  }

  lemma {:induction false} GroupingStep(m0: Nodes, m: Nodes, m1: Nodes, m2: Nodes, sel: seq<Kid>, i: nat,
                                        groupId: NodeId, parentId: NodeId)
    requires i < |sel| && Distinct(BagKids(sel)) && Grouping(m0, m, sel, i, groupId, parentId)
    requires var k := sel[i].tree;
             && k.id in m && m1 == m[k.id := m[k.id].(parent := Some(groupId))]
             && m2 == TurnedMap(m1, Bag(k))
    ensures Grouping(m0, m2, sel, i + 1, groupId, parentId)
  {
    hide Bag, BagKids, Holds, Toggle, Distinct, Turned, SameOn;
    var k := sel[i];
    SplitBagAt(sel, i);
    GroupingKid(m, m1, sel, i, groupId, parentId);
    HoldsTurned(m1, m2, k.tree, Some(groupId));
    ToggleKidsProps(sel[..i], 0);
    TurnedElsewhere(m, m1, m2, k.tree.id, Bag(k.tree), BagKids(ToggleKids(sel[..i])));
    TurnedElsewhere(m, m1, m2, k.tree.id, Bag(k.tree), BagKids(sel[i + 1..]));
    HoldsKidsFrame(m, m2, ToggleKids(sel[..i]), groupId);
    HoldsKidsFrame(m, m2, sel[i + 1..], parentId);
    ToggledSnoc(sel, i);
    HoldsKidsSnoc(m2, ToggleKids(sel[..i]), Kid(Toggle(k.tree), k.share), groupId);
  }

  lemma {:induction false} TurnedElsewhere(m: Nodes, m1: Nodes, m2: Nodes, id: NodeId, b: multiset<NodeId>,
                                           other: multiset<NodeId>)
    requires id in b && id in m && m1.Keys == m.Keys && (forall x :: x in m && x != id ==> m1[x] == m[x])
             && m2 == TurnedMap(m1, b)
    requires forall x :: x in b ==> x !in other
    ensures SameOn(m, m2, other)
  {
  }

  lemma {:induction false} ToggledSnoc(sel: seq<Kid>, i: nat)
    requires i < |sel|
    ensures ToggleKids(sel[..i + 1]) == ToggleKids(sel[..i]) + [Kid(Toggle(sel[i].tree), sel[i].share)]
  {
    hide Toggle;
  }

  lemma {:induction false} HoldsKidsSnoc(m: Nodes, ks: seq<Kid>, k: Kid, parent: NodeId)
    requires HoldsKids(m, ks, parent) && Holds(m, k.tree, Some(parent))
    ensures HoldsKids(m, ks + [k], parent)
  {
    hide Holds;
  }

  lemma {:induction false} GroupingKid(m: Nodes, m1: Nodes, sel: seq<Kid>, i: nat, groupId: NodeId, parentId: NodeId)
    requires i < |sel| && Distinct(BagKids(sel)) && HoldsKids(m, sel[i..], parentId)
    ensures var k := sel[i].tree;
            && Holds(m, k, Some(parentId)) && k.id in m
            && (m1 == m[k.id := m[k.id].(parent := Some(groupId))] ==> Holds(m1, k, Some(groupId)))
  {
    var k := sel[i].tree;
    SplitBagAt(sel, i);
    assert sel[i] in sel[i..];
    if m1 == m[k.id := m[k.id].(parent := Some(groupId))] {
      HoldsReparent(m, m1, k, Some(parentId), Some(groupId));
    }
  }

  /** After the loop and the group's own entry, the grouped tree is in the map. */
  lemma {:induction false} GroupedHolds(n: Nodes, c: Ctx, u: Tree, first: nat, count: nat, groupId: NodeId, m0: Nodes,
                                        m1: Nodes, m: Nodes)
    requires u.Split? && Opened(n, Plug(c, u), c, u) && first + count <= |u.kids| && groupId !in n
    requires var sel := u.kids[first..first + count];
             && m0 == n[u.id := n[u.id].(contents := SplitContents(u.axis,
                          Links(u.kids)[..first] + [Child(groupId, Sum(Shares(sel)))]
                          + Links(u.kids)[first + count..]))]
             && Grouping(m0, m1, sel, count, groupId, u.id)
             && m == m1[groupId := Node(groupId, Some(u.id),
                                        SplitContents(Other(u.axis), Links(Scaled(sel, MAX_PERCENTAGE))))]
    ensures Holds(m, Plug(c, Grouped(u, first, count, groupId)), None)
    ensures forall x :: x in m <==> x in n || x == groupId
  {
    hide Plug, Bag, BagKids, CtxBag, Holds, Toggle, Distinct, HoldsCtx, Scaled, Sum, Group;
    var a, sel, b := u.kids[..first], u.kids[first..first + count], u.kids[first + count..];
    var g := Group(u, sel, groupId);
    GroupedFrames(n, c, u, first, count, groupId, m0, m1, m);
    GroupNode(m, u, sel, groupId);
    assert forall k :: k in a + [g] + b <==> k in a || k == g || k in b;
    GroupShare(u, sel, groupId);
    GroupedLinks(u, first, count, groupId);
    SplitHolds(m, Grouped(u, first, count, groupId), HoleParent(c));
    HoldsPlug(m, c, Grouped(u, first, count, groupId));
  }

  lemma {:induction false} GroupedLinks(u: Tree, first: nat, count: nat, groupId: NodeId)
    requires u.Split? && first + count <= |u.kids|
    ensures Links(Grouped(u, first, count, groupId).kids)
         == Links(u.kids)[..first] + [Child(groupId, Sum(Shares(u.kids[first..first + count])))]
         + Links(u.kids)[first + count..]
  {
    hide Scaled, Sum, ToggleKids;
    var a, sel, b := u.kids[..first], u.kids[first..first + count], u.kids[first + count..];
    LinksMiddle(a, Group(u, sel, groupId), b);
    LinksSlices(u.kids, first, count);
  }

  lemma {:induction false} LinksSlices(ks: seq<Kid>, first: nat, count: nat)
    requires first + count <= |ks|
    ensures Links(ks[..first]) == Links(ks)[..first]
    ensures Links(ks[first..first + count]) == Links(ks)[first..first + count]
    ensures Links(ks[first + count..]) == Links(ks)[first + count..]
  {
  }

  /** Everything but the group itself, as the finished map holds it. */
  lemma {:induction false} GroupedFrames(n: Nodes, c: Ctx, u: Tree, first: nat, count: nat, groupId: NodeId, m0: Nodes,
                                         m1: Nodes, m: Nodes)
    requires u.Split? && Opened(n, Plug(c, u), c, u) && first + count <= |u.kids| && groupId !in n
    requires u.id in m0 && (forall x :: x in m0 <==> x in n) && forall x :: x in n && x != u.id ==> m0[x] == n[x]
    requires Grouping(m0, m1, u.kids[first..first + count], count, groupId, u.id)
    requires groupId in m && (forall x :: x in m <==> x in m1 || x == groupId) && forall x :: x in m1 ==> m[x] == m1[x]
    ensures HoldsKids(m, u.kids[..first], u.id) && HoldsKids(m, u.kids[first + count..], u.id)
    ensures HoldsKids(m, ToggleKids(u.kids[first..first + count]), groupId)
    ensures HoldsCtx(m, c, u.id)
    ensures u.id in m && m[u.id] == m0[u.id] && u.id != groupId
  {
    hide Plug, Bag, BagKids, CtxBag, Holds, Toggle, Distinct, HoldsCtx, SameOn;
    var a, sel, b := u.kids[..first], u.kids[first..first + count], u.kids[first + count..];
    Stretches(u.kids, first, count);
    FlattenKids(n, c, u);
    HoldsIds(n, u, HoleParent(c));
    GroupedApart(n, c, u, first, count);
    WholeGrouping(m0, m1, sel, groupId, u.id);
    hide Grouping, HoldsKids, Opened;
    SameOutside(n, m0, m1, m, u.id, groupId, BagKids(sel), BagKids(a));
    SameOutside(n, m0, m1, m, u.id, groupId, BagKids(sel), BagKids(b));
    SameOutside(n, m0, m1, m, u.id, groupId, BagKids(sel), CtxBag(c));
    KidsAround(n, u, a, sel, b);
    HoldsKidsFrame(n, m, a, u.id);
    HoldsKidsFrame(n, m, b, u.id);
    SameGroup(m1, m, groupId, BagKids(ToggleKids(sel)));
    HoldsKidsFrame(m1, m, ToggleKids(sel), groupId);
    HoldsCtxFrame(n, m, c, u.id);
  }

  lemma {:induction false} KidsAround(n: Nodes, u: Tree, a: seq<Kid>, sel: seq<Kid>, b: seq<Kid>)
    requires u.Split? && HoldsKids(n, u.kids, u.id) && u.kids == a + sel + b
    ensures HoldsKids(n, a, u.id) && HoldsKids(n, b, u.id)
  {
    hide Holds;
    assert forall k :: k in a || k in b ==> k in u.kids;
  }

  /** The parts of a level and its surroundings share no node with the group, nor with the level itself. */
  lemma {:induction false} GroupedApart(n: Nodes, c: Ctx, u: Tree, first: nat, count: nat)
    requires u.Split? && Opened(n, Plug(c, u), c, u) && first + count <= |u.kids|
    ensures var a, sel, b := u.kids[..first], u.kids[first..first + count], u.kids[first + count..];
            && (forall x :: x in BagKids(a) || x in BagKids(b) || x in CtxBag(c) ==> x !in BagKids(sel) && x != u.id)
            && u.id !in BagKids(sel) && HoldsCtx(n, c, u.id) && u.id in n
  {
    hide Plug, Bag, BagKids, CtxBag, Holds, Distinct, HoldsCtx;
    var a, sel, b := u.kids[..first], u.kids[first..first + count], u.kids[first + count..];
    Stretches(u.kids, first, count);
    SplitNode(u.id, u.axis, u.kids);
    DistinctUnion(multiset{u.id}, BagKids(u.kids));
    DistinctUnion(BagKids(a) + BagKids(sel), BagKids(b));
    DistinctUnion(BagKids(a), BagKids(sel));
  }

  lemma {:induction false} SameOutside(n: Nodes, m0: Nodes, m1: Nodes, m: Nodes, split: NodeId, groupId: NodeId,
                                       inside: multiset<NodeId>, outside: multiset<NodeId>)
    requires (forall x :: x in m0 <==> x in n) && forall x :: x in n && x != split ==> m0[x] == n[x]
    requires (forall x :: x in m1 <==> x in m0) && forall x :: x in m0 && x !in inside ==> m1[x] == m0[x]
    requires (forall x :: x in m <==> x in m1 || x == groupId) && forall x :: x in m1 ==> m[x] == m1[x]
    requires forall x :: x in outside ==> x !in inside && x != split
    ensures SameOn(n, m, outside)
  {
  }

  lemma {:induction false} SameGroup(m1: Nodes, m: Nodes, groupId: NodeId, b: multiset<NodeId>)
    requires (forall x :: x in m <==> x in m1 || x == groupId) && forall x :: x in m1 ==> m[x] == m1[x]
    ensures SameOn(m1, m, b)
  {
  }

  lemma {:induction false} WholeGrouping(m0: Nodes, m: Nodes, sel: seq<Kid>, groupId: NodeId, parentId: NodeId)
    requires Grouping(m0, m, sel, |sel|, groupId, parentId)
    ensures (forall x :: x in m <==> x in m0) && (forall x :: x in m0 && x !in BagKids(sel) ==> m[x] == m0[x])
    ensures HoldsKids(m, ToggleKids(sel), groupId)
  {
    hide BagKids, Holds, ToggleKids;
    assert sel[..|sel|] == sel;
  }

  lemma {:induction false} SplitHolds(m: Nodes, t: Tree, parent: Option<NodeId>)
    requires t.Split? && t.id in m && m[t.id] == NodeOf(t, parent) && HoldsKids(m, t.kids, t.id)
    ensures Holds(m, t, parent)
  {
  }

  lemma {:induction false} GroupNode(m: Nodes, u: Tree, sel: seq<Kid>, groupId: NodeId)
    requires u.Split? && HoldsKids(m, ToggleKids(sel), groupId) && groupId in m
    requires m[groupId] == Node(groupId, Some(u.id), SplitContents(Other(u.axis), Links(Scaled(sel, MAX_PERCENTAGE))))
    ensures Holds(m, Group(u, sel, groupId).tree, Some(u.id))
  {
    hide Toggle, Scaled;
    var scaled := Scaled(sel, MAX_PERCENTAGE);
    assert Links(ToggleKids(scaled)) == Links(scaled);
    forall k | k in ToggleKids(scaled) ensures Holds(m, k.tree, Some(groupId)) {
      var i :| 0 <= i < |sel| && ToggleKids(scaled)[i] == k;
      assert ToggleKids(sel)[i] in ToggleKids(sel);
    }
  }

  lemma {:induction false} GroupedRepresented(n: Nodes, c: Ctx, u: Tree, first: nat, count: nat, groupId: NodeId,
                                              m: Nodes, root: NodeId)
    requires u.Split? && Represents(n, root, groupId, Plug(c, u), 0) && groupId < MAX_NODE_VALUE && 0 < groupId
    requires first + count <= |u.kids| && 2 <= count < |u.kids|
    requires Holds(m, Plug(c, Grouped(u, first, count, groupId)), None)
    requires forall x :: x in m <==> x in n || x == groupId
    ensures Represents(m, root, groupId + 1, Plug(c, Grouped(u, first, count, groupId)), 0)
  {
    hide Plug, Grouped, Holds, Sound, SoundCtx, Bag, Leaves, Distinct, CtxBag;
    var g := Grouped(u, first, count, groupId);
    PlugSound(c, u, 0);
    GroupedProps(u, first, count, groupId);
    GroupedShape(u, first, count, groupId);
    PlugSound(c, g, 0);
    PlugBag(c, u);
    PlugBag(c, g);
    PlugLeaves(c, u);
    PlugLeaves(c, g);
    SameRootId(c, u, g);
    assert multiset{} + Bag(Plug(c, g)) == Bag(Plug(c, u)) + multiset{groupId};
    assert Distinct(multiset{groupId}) by {
      OneDistinct(groupId);
    }
    BagDelta(Bag(Plug(c, u)), Bag(Plug(c, g)), multiset{}, multiset{groupId});
  }

  lemma {:induction false} OneDistinct(x: NodeId)
    ensures Distinct(multiset{x})
  {
  }

  lemma {:induction false} GroupedShape(u: Tree, first: nat, count: nat, groupId: NodeId)
    requires u.Split? && first + count <= |u.kids|
    ensures Grouped(u, first, count, groupId).id == u.id && Grouped(u, first, count, groupId).Split?
  {
  }

  // ----- new percentages

  lemma {:induction false} ReweightedRepresented(n: Nodes, c: Ctx, u: Tree, weights: seq<int>, m: Nodes, root: NodeId,
                                                 next: nat)
    requires u.Split? && |weights| == |u.kids| && Weights(weights) && Represents(n, root, next, Plug(c, u), 0)
    requires Opened(n, Plug(c, u), c, u)
    requires m == n[u.id := n[u.id].(contents := SplitContents(u.axis, Repriced(Links(u.kids), Normalize(weights))))]
    ensures Represents(m, root, next, Plug(c, Reweighted(u, weights)), 0)
  {
    hide Plug, Sound, SoundCtx, Bag, BagKids, Leaves, Distinct, CtxBag, HoldsCtx, Holds, Normalize;
    var r := Reweighted(u, weights);
    PlugSound(c, u, 0);
    ReweightedProps(u, weights);
    PlugSound(c, r, 0);
    PlugBag(c, u);
    PlugBag(c, r);
    PlugLeaves(c, u);
    PlugLeaves(c, r);
    SameRootId(c, u, r);
    ReweightedHolds(n, c, u, weights, m);
  }

  lemma {:induction false} ReweightedHolds(n: Nodes, c: Ctx, u: Tree, weights: seq<int>, m: Nodes)
    requires u.Split? && |weights| == |u.kids| && Weights(weights) && Opened(n, Plug(c, u), c, u)
    requires m == n[u.id := n[u.id].(contents := SplitContents(u.axis, Repriced(Links(u.kids), Normalize(weights))))]
    ensures Holds(m, Plug(c, Reweighted(u, weights)), None)
  {
    hide Plug, Bag, BagKids, Distinct, CtxBag, HoldsCtx, Holds, Normalize;
    var r := Reweighted(u, weights);
    SplitNode(u.id, u.axis, u.kids);
    FlattenKids(n, c, u);
    DistinctUnion(multiset{u.id}, BagKids(u.kids));
    HoldsKidsFrame(n, m, u.kids, u.id);
    forall k | k in r.kids ensures Holds(m, k.tree, Some(u.id)) {
      var i :| 0 <= i < |u.kids| && r.kids[i] == k;
      assert u.kids[i] in u.kids;
    }
    assert Links(r.kids) == Repriced(Links(u.kids), Normalize(weights));
    SplitHolds(m, r, HoleParent(c));
    HoldsCtxFrame(n, m, c, u.id);
    HoldsPlug(m, c, r);
  }

  lemma {:induction false} SelectedWeights(c: Ctx, u: Tree, first: nat, count: nat)
    requires u.Split? && Sound(Plug(c, u), 0) && 0 < count && first + count <= |u.kids|
    ensures var sel := u.kids[first..first + count];
            && ChildShares(Links(u.kids)[first..first + count]) == Shares(sel)
            && Weights(Shares(sel))
            && Repriced(Links(u.kids)[first..first + count], Distribute(Shares(sel), MAX_PERCENTAGE))
                 == Links(Scaled(sel, MAX_PERCENTAGE))
  {
    hide Plug, SoundCtx, Distribute, Sum, BagKids, LeavesKids;
    var sel := u.kids[first..first + count];
    PlugSound(c, u, 0);
    Stretches(u.kids, first, count);
    LinkFacts(sel);
    RepricedLinks(sel, MAX_PERCENTAGE);
    LinksSlices(u.kids, first, count);
  }

  lemma {:induction false} GroupingStart(n: Nodes, c: Ctx, u: Tree, first: nat, count: nat, groupId: NodeId, m0: Nodes)
    requires u.Split? && Opened(n, Plug(c, u), c, u) && first + count <= |u.kids|
    requires u.id in m0 && (forall x :: x in n && x != u.id ==> x in m0 && m0[x] == n[x])
    ensures Distinct(BagKids(u.kids[first..first + count]))
    ensures Grouping(m0, m0, u.kids[first..first + count], 0, groupId, u.id)
  {
    hide Plug, Bag, BagKids, CtxBag, Holds, Distinct, HoldsCtx;
    var a, sel, b := u.kids[..first], u.kids[first..first + count], u.kids[first + count..];
    Stretches(u.kids, first, count);
    SplitNode(u.id, u.axis, u.kids);
    FlattenKids(n, c, u);
    DistinctUnion(multiset{u.id}, BagKids(u.kids));
    DistinctUnion(BagKids(a) + BagKids(sel), BagKids(b));
    DistinctUnion(BagKids(a), BagKids(sel));
    HoldsKidsFrame(n, m0, sel, u.id);
    assert sel[0..] == sel && ToggleKids(sel[..0]) == [];
  }
}
