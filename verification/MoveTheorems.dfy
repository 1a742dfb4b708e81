/** What every move promises about the layout. */
module MoveTheorems {
  import opened PaneTree
  import opened PaneNodes
  import opened PaneEdits
  import opened LayoutMaps
  import opened PaneSelections
  import opened MoveTrees
  import opened PaneMoves

  /** A valid move cuts the selected block of leaves out and pastes it, in order, immediately before
      (left, up) or after (right, down) the target's block, and does nothing else to the leaves. */
  lemma {:induction false} MoveCutsAndPastes(t: Tree, next: nat, selection: PaneSelection, target: NodeId,
                                             direction: DropDirection)
    requires WellFormed(t, next) && Validated(t, selection, target)
    ensures CutAndPasted(Leaves(t), Leaves(AfterMove(t, selection, target, direction, next)),
                         LeavesKids(RangeOf(t, selection).Sel()), Leaves(At(t, target).tree),
                         PlacementInsertion(direction))
  {
    hide Plug, Bag, BagKids, Sound, Locate, Distinct, Leaves, LeavesKids, Reordered, Moved, Holds;
    var n := WellFormedStored(t, next);
    var r := RangeOf(t, selection);
    ValidatedRange(n, t.id, next, t, selection, target);
    var axis, insertion := PlacementAxis(direction), PlacementInsertion(direction);
    if SameLevel(t, selection, target, axis) {
      SiblingTarget(n, t, selection, target, r);
      OtherIndex(r.Others(), target);
      var j := IndexOf(Links(r.Others()), target);
      ReorderLeaves(r, j, insertion);
      OtherAt(t, r, j);
    } else {
      MoveLeaves(r, target, axis, insertion, next);
    }
  }

  lemma {:induction false} OtherAt(t: Tree, r: Range, j: nat)
    requires r.Ok() && t == Plug(r.c, r.p) && Distinct(Bag(t)) && j < |r.Others()|
    ensures r.Others()[j].tree.id in Bag(t) && At(t, r.Others()[j].tree.id).tree == r.Others()[j].tree
  {
    Stretches(r.p.kids, r.first, r.count);
    assert r.Others()[j] in r.Others();
    assert forall k :: k in r.Others() ==> k in r.p.kids;
    SelectedAt(t, r, r.Others()[j]);
  }

  /** Distinct leaves leave no choice: the block can only be cut from one place and pasted at one. */
  lemma {:induction false} CutAndPasteIsUnique(before: seq<LeafRef>, x: seq<LeafRef>, y: seq<LeafRef>,
                                               block: seq<LeafRef>, anchor: seq<LeafRef>, insertion: Insertion)
    requires forall i, j :: 0 <= i < j < |before| ==> before[i] != before[j]
    requires block != [] && anchor != []
    requires CutAndPasted(before, x, block, anchor, insertion) && CutAndPasted(before, y, block, anchor, insertion)
    ensures x == y
  {
    var a, b, c, d :| before == a + block + b && a + b == c + anchor + d
                      && x == c + (if insertion.Before? then block + anchor else anchor + block) + d;
    var a', b', c', d' :| before == a' + block + b' && a' + b' == c' + anchor + d'
                      && y == c' + (if insertion.Before? then block + anchor else anchor + block) + d';
    SamePlace(before, a, b, a', b', block);
    forall i, j | 0 <= i < j < |a + b| ensures (a + b)[i] != (a + b)[j] {
      var k := |block|;
      assert (a + b)[i] == before[if i < |a| then i else i + k] && (a + b)[j] == before[if j < |a| then j else j + k];
    }
    SamePlace(a + b, c, d, c', d', anchor);
  }

  lemma {:induction false} SamePlace(s: seq<LeafRef>, a: seq<LeafRef>, b: seq<LeafRef>, a': seq<LeafRef>,
                                     b': seq<LeafRef>, m: seq<LeafRef>)
    requires forall i, j :: 0 <= i < j < |s| ==> s[i] != s[j]
    requires m != [] && s == a + m + b && s == a' + m + b'
    ensures a == a' && b == b'
  {
    assert s[|a|] == m[0] && s[|a'|] == m[0];
    assert a == s[..|a|] && a' == s[..|a'|];
    assert b == s[|a| + |m|..] && b' == s[|a'| + |m|..];
  }

  /** The promise that no split directly contains a split of its own axis survives a move exactly
      when the target is not itself a split along the axis the source is dropped on. */
  lemma {:induction false} MoveAlternatesIff(t: Tree, next: nat, selection: PaneSelection, target: NodeId,
                                             direction: DropDirection)
    requires WellFormed(t, next) && Validated(t, selection, target) && Alternates(t)
    ensures Alternates(AfterMove(t, selection, target, direction, next))
       <==> Opposite(At(t, target).tree, PlacementAxis(direction))
  {
    hide Plug, Bag, BagKids, Sound, Locate, Distinct, Reordered, Moved, Alternates, Holds, HoldsCtx;
    var n := WellFormedStored(t, next);
    var r := RangeOf(t, selection);
    ValidatedRange(n, t.id, next, t, selection, target);
    var axis, insertion := PlacementAxis(direction), PlacementInsertion(direction);
    if SameLevel(t, selection, target, axis) {
      SiblingTarget(n, t, selection, target, r);
      OtherIndex(r.Others(), target);
      var j := IndexOf(Links(r.Others()), target);
      ReorderedProps(r, j, insertion);
      OtherAt(t, r, j);
      OtherOpposite(r, j);
    } else {
      MoveAlternates(r, target, axis, insertion, next);
      CleanupAround(n, t, r, target);
      if !Opposite(At(t, target).tree, axis) {
        MoveClashes(r, target, axis, insertion, next);
      }
    }
  }

  lemma {:induction false} OtherOpposite(r: Range, j: nat)
    requires r.Ok() && Alternates(Plug(r.c, r.p)) && j < |r.Others()|
    ensures Opposite(r.Others()[j].tree, r.p.axis)
  {
    PlugAlternates(r.c, r.p);
    Stretches(r.p.kids, r.first, r.count);
    assert r.Others()[j] in r.Others();
    assert forall k :: k in r.Others() ==> k in r.p.kids;
  }

  lemma {:induction false} CleanupAround(n: Nodes, t: Tree, r: Range, target: NodeId)
    requires Movable(r, target) && t == Plug(r.c, r.p) && Opened(n, t, r.c, r.p)
    ensures target != CleanupId(r)
  {
    hide Plug, Sound, BagKids;
    var k := r.Sel()[0];
    assert k in r.Sel() && k in r.p.kids;
    KidBag(r.p.kids, k);
    assert k.tree.id in Bag(k.tree);
    assert k.tree.id in Bag(r.p);
    if r.Whole() {
      PlugUp(r.c, r.p);
      AtPlug(r.c.up, Fill(r.c, r.p));
      FillContains(r.c, r.p);
    } else {
      AtPlug(r.c, r.p);
    }
  }
}
