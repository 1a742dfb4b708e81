/** Resizing and equalizing a selection without touching the other proportions. */
module PaneResizes {
  import opened Wrappers
  import opened Percentages
  import opened PaneTree
  import opened PaneNodes
  import opened PaneEdits
  import opened LayoutMaps
  import opened PaneLayouts
  import opened MoveTrees
  import opened PaneSelections

  function Clamp(x: int): (r: int)
    ensures 0 <= r <= MAX_PERCENTAGE
  {
    if x < 0 then 0 else if x > MAX_PERCENTAGE then MAX_PERCENTAGE else x
  }

  /** A share list with the stretch from first on replaced by one list and the rest by another. */
  function Spliced(rest: seq<int>, first: nat, stretch: seq<int>): seq<int>
    requires first <= |rest|
  {
    rest[..first] + stretch + rest[first..]
  }

  /** The selected stretch scaled to a total and the unselected siblings to what is left of a hundred. */
  ghost function ResizedShares(r: Range, total: int): (w: seq<int>)
    requires r.p.Split? && r.first + r.count <= |r.p.kids| && 0 < r.count < |r.p.kids| && ShareSum(r.p.kids)
    ensures |w| == |r.p.kids|
  {
    PartWeights(r);
    Spliced(Distribute(Shares(r.Others()), MAX_PERCENTAGE - total), r.first, Distribute(Shares(r.Sel()), total))
  }

  /** The selected stretch evened out, the other siblings as they were. */
  ghost function EvenedShares(r: Range): (w: seq<int>)
    requires r.p.Split? && r.first + r.count <= |r.p.kids| && 0 < r.count && ShareSum(r.p.kids)
    ensures |w| == |r.p.kids|
  {
    OnesWeights(r.count);
    Spliced(Shares(r.Others()), r.first, Distribute(Ones(r.count), Sum(Shares(r.Sel()))))
  }

  lemma {:induction false} OnesWeights(n: nat)
    requires n > 0
    ensures Weights(Ones(n))
  {
  }

  lemma {:induction false} PartWeights(r: Range)
    requires r.p.Split? && r.first + r.count <= |r.p.kids| && ShareSum(r.p.kids)
    ensures 0 < r.count ==> Weights(Shares(r.Sel()))
    ensures r.count < |r.p.kids| ==> Weights(Shares(r.Others()))
    ensures Sum(Shares(r.Sel())) + Sum(Shares(r.Others())) == MAX_PERCENTAGE
    ensures 0 <= Sum(Shares(r.Sel())) <= MAX_PERCENTAGE
  {
    hide Sum;
    var a, b := r.p.kids[..r.first], r.p.kids[r.first + r.count..];
    Stretches(r.p.kids, r.first, r.count);
    SharesAppend(a, b);
    SumNonNegative(Shares(a));
    SumNonNegative(Shares(b));
    SumNonNegative(Shares(r.Sel()));
  }

  lemma {:induction false} SplicedSum(rest: seq<int>, first: nat, stretch: seq<int>)
    requires first <= |rest|
    ensures Sum(Spliced(rest, first, stretch)) == Sum(rest) + Sum(stretch)
    ensures NonNegative(rest) && NonNegative(stretch) ==> NonNegative(Spliced(rest, first, stretch))
  {
    SumAppend(rest[..first] + stretch, rest[first..]);
    SumAppend(rest[..first], stretch);
    SumAppend(rest[..first], rest[first..]);
    assert rest == rest[..first] + rest[first..];
  }

  /** Percentages that already add up to a hundred are stored unchanged. */
  lemma {:induction false} Stored100(u: Tree, w: seq<int>)
    requires u.Split? && |w| == |u.kids| && Weights(w) && Sum(w) == MAX_PERCENTAGE
    ensures Reweighted(u, w) == Split(u.id, u.axis, Reshare(u.kids, w))
  {
    DistributeFixedPoint(w);
  }

  /** The selection's total becomes exactly the clamped sum, the siblings' total its complement. */
  lemma {:induction false} ResizedTotals(r: Range, total: int)
    requires r.p.Split? && r.first + r.count <= |r.p.kids| && 0 < r.count < |r.p.kids| && ShareSum(r.p.kids)
    requires 0 <= total <= MAX_PERCENTAGE
    ensures var w := ResizedShares(r, total);
            && Weights(w) && Sum(w) == MAX_PERCENTAGE
            && Sum(w[r.first..r.first + r.count]) == total
            && Sum(w[..r.first]) + Sum(w[r.first + r.count..]) == MAX_PERCENTAGE - total
            && Reweighted(r.p, w) == Split(r.p.id, r.p.axis, Reshare(r.p.kids, w))
  {
    hide Sum, Distribute;
    PartWeights(r);
    var rest, stretch := Distribute(Shares(r.Others()), MAX_PERCENTAGE - total), Distribute(Shares(r.Sel()), total);
    DistributeSum(Shares(r.Others()), MAX_PERCENTAGE - total);
    DistributeSum(Shares(r.Sel()), total);
    SplicedSum(rest, r.first, stretch);
    var w := ResizedShares(r, total);
    assert w[r.first..r.first + r.count] == stretch && w[..r.first] == rest[..r.first]
           && w[r.first + r.count..] == rest[r.first..];
    SumAppend(rest[..r.first], rest[r.first..]);
    assert rest == rest[..r.first] + rest[r.first..];
    Stored100(r.p, w);
  }

  /** Evening out keeps the selection's combined share and all other shares. */
  lemma {:induction false} EvenedTotals(r: Range)
    requires r.p.Split? && r.first + r.count <= |r.p.kids| && 0 < r.count && ShareSum(r.p.kids)
    ensures var w := EvenedShares(r);
            && Weights(w) && Sum(w) == MAX_PERCENTAGE
            && w[..r.first] == Shares(r.p.kids)[..r.first]
            && w[r.first + r.count..] == Shares(r.p.kids)[r.first + r.count..]
            && Reweighted(r.p, w) == Split(r.p.id, r.p.axis, Reshare(r.p.kids, w))
  {
    hide Sum, Distribute;
    PartWeights(r);
    OnesWeights(r.count);
    var total := Sum(Shares(r.Sel()));
    var stretch := Distribute(Ones(r.count), total);
    DistributeSum(Ones(r.count), total);
    SplicedSum(Shares(r.Others()), r.first, stretch);
    OthersNonNegative(r);
    Stored100(r.p, EvenedShares(r));
  }

  lemma {:induction false} OthersNonNegative(r: Range)
    requires r.p.Split? && r.first + r.count <= |r.p.kids| && ShareSum(r.p.kids)
    ensures NonNegative(Shares(r.Others()))
    ensures Shares(r.Others()) == Shares(r.p.kids)[..r.first] + Shares(r.p.kids)[r.first + r.count..]
  {
    hide Sum, NonNegative;
    SharesAppend(r.p.kids[..r.first], r.p.kids[r.first + r.count..]);
    Stretches(r.p.kids, r.first, r.count);
    SharesSlices(r.p.kids, r.first, r.first + r.count);
  }

  lemma {:induction false} SharesSlices(ks: seq<Kid>, i: nat, j: nat)
    requires i <= j <= |ks|
    ensures Shares(ks[..i]) == Shares(ks)[..i] && Shares(ks[j..]) == Shares(ks)[j..]
  {
  }

  /** The evened shares differ by one at most, the earlier ones being the larger. */
  lemma {:induction false} EvenedEven(r: Range, i: nat, j: nat)
    requires r.p.Split? && r.first + r.count <= |r.p.kids| && 0 < r.count && ShareSum(r.p.kids)
    requires r.first <= i <= j < r.first + r.count
    ensures var w := EvenedShares(r); w[j] <= w[i] <= w[j] + 1
  {
    hide Sum, Distribute;
    PartWeights(r);
    OnesWeights(r.count);
    var total := Sum(Shares(r.Sel()));
    var w, stretch := EvenedShares(r), Distribute(Ones(r.count), total);
    assert w[i] == stretch[i - r.first] && w[j] == stretch[j - r.first];
    EvenPair(r.count, total, i - r.first, j - r.first);
  }

  /** Equal weights differ by one at most, the earlier ones being served first. */
  lemma {:induction false} EvenPair(n: nat, total: int, i: nat, j: nat)
    requires i <= j < n && total >= 0
    ensures Weights(Ones(n))
    ensures var d := Distribute(Ones(n), total); d[j] <= d[i] <= d[j] + 1
  {
    hide Distribute, Sum;
    OnesWeights(n);
    SumOnes(n);
    DistributeMonotone(Ones(n), total, i, j);
    DistributeQuota(Ones(n), total, i);
    DistributeQuota(Ones(n), total, j);
    var d := Distribute(Ones(n), total);
    CloseMultiples(d[i], d[j], n, total);
  }

  lemma {:induction false} CloseMultiples(a: int, b: int, n: int, x: int)
    requires n > 0 && -n < a * n - x < n && -n < b * n - x < n
    ensures a <= b + 1
  {
    if a >= b + 2 {
      MulMonotone(b + 2, a, n);
      Distribute2(b, 2, n);
    }
  }

  // ----- index lists

  function Upto(from: nat, to: nat): seq<nat> {
    if from < to then seq(to - from, i requires i >= 0 => from + i) else []
  }

  /** The indices below i inside and outside a stretch. */
  function Below(first: nat, last: nat, i: nat): seq<nat> {
    Upto(first, if i < last then i else last)
  }

  function Beside(first: nat, last: nat, i: nat): seq<nat> {
    Upto(0, if i < first then i else first) + Upto(last, i)
  }

  lemma {:induction false} NextIndex(first: nat, last: nat, i: nat)
    requires first <= last
    ensures Below(first, last, i + 1) == Below(first, last, i) + if first <= i < last then [i] else []
    ensures Beside(first, last, i + 1) == Beside(first, last, i) + if first <= i < last then [] else [i]
  {
  }

  /** The positions of the selected children and of the others. */
  method PartitionSelection(children: seq<Child>, ids: seq<NodeId>, ghost ks: seq<Kid>, ghost first: nat)
    returns (selected: seq<nat>, unselected: seq<nat>)
    requires children == Links(ks) && Distinct(BagKids(ks)) && first + |ids| <= |ks|
             && ids == Ids(ks)[first..first + |ids|]
    ensures selected == Upto(first, first + |ids|)
    ensures unselected == Upto(0, first) + Upto(first + |ids|, |ks|)
  {
    hide BagKids, Distinct, Upto;
    selected, unselected := [], [];
    ghost var last := first + |ids|;
    NoIndex(first, last);
    for index := 0 to |children|
      invariant selected == Below(first, last, index) && unselected == Beside(first, last, index)
    {
      SelectedIndex(ks, ids, first, index);
      NextIndex(first, last, index);
      if children[index].nodeId in ids {
        selected := selected + [index];
      } else {
        unselected := unselected + [index];
      }
    }
  }

  lemma {:induction false} NoIndex(first: nat, last: nat)
    ensures Below(first, last, 0) == [] && Beside(first, last, 0) == []
  {
  }

  lemma {:induction false} SelectedIndex(ks: seq<Kid>, ids: seq<NodeId>, first: nat, i: nat)
    requires Distinct(BagKids(ks)) && first + |ids| <= |ks| && ids == Ids(ks)[first..first + |ids|] && i < |ks|
    ensures Links(ks)[i].nodeId in ids <==> first <= i < first + |ids|
  {
    if first <= i < first + |ids| {
      assert ids[i - first] == Ids(ks)[i];
    } else if Links(ks)[i].nodeId in ids {
      var j :| 0 <= j < |ids| && ids[j] == Links(ks)[i].nodeId;
      DistinctIds(ks, first + j, i);
    }
  }

  method WeightsAt(children: seq<Child>, indices: seq<nat>) returns (w: seq<int>)
    requires forall i :: 0 <= i < |indices| ==> indices[i] < |children|
    ensures |w| == |indices| && forall i :: 0 <= i < |indices| ==> w[i] == children[indices[i]].percentage
  {
    w := [];
    for i := 0 to |indices|
      invariant |w| == i && forall j :: 0 <= j < i ==> w[j] == children[indices[j]].percentage
    {
      w := w + [children[indices[i]].percentage];
    }
  }

  method AssignAt(destination: seq<int>, indices: seq<nat>, values: seq<int>) returns (r: seq<int>)
    requires |indices| == |values| && (forall i :: 0 <= i < |indices| ==> indices[i] < |destination|)
    requires forall i, j :: 0 <= i < j < |indices| ==> indices[i] != indices[j]
    ensures |r| == |destination|
    ensures forall i :: 0 <= i < |indices| ==> r[indices[i]] == values[i]
    ensures forall k :: 0 <= k < |r| && k !in indices ==> r[k] == destination[k]
  {
    r := destination;
    for i := 0 to |indices|
      invariant |r| == |destination|
      invariant forall j :: 0 <= j < i ==> r[indices[j]] == values[j]
      invariant forall k :: 0 <= k < |r| && k !in indices[..i] ==> r[k] == destination[k]
    {
      assert indices[..i + 1] == indices[..i] + [indices[i]];
      r := r[indices[i] := values[i]];
    }
    assert indices[..|indices|] == indices;
  }

  /** Shares given to the selected positions and to the others, put in place. */
  lemma {:induction false} AssignedParts(r: Range, w: seq<int>, rest: seq<int>, stretch: seq<int>)
    requires r.p.Split? && r.first + r.count <= |r.p.kids| == |w| && |stretch| == r.count
             && |rest| == |r.p.kids| - r.count
    requires var at := Upto(r.first, r.first + r.count); forall i :: 0 <= i < |at| ==> w[at[i]] == stretch[i]
    requires var others := Upto(0, r.first) + Upto(r.first + r.count, |r.p.kids|);
             forall i :: 0 <= i < |others| ==> w[others[i]] == rest[i]
    ensures w == Spliced(rest, r.first, stretch)
  {
    var at, others := Upto(r.first, r.first + r.count), Upto(0, r.first) + Upto(r.first + r.count, |r.p.kids|);
    forall k | 0 <= k < |w| ensures w[k] == Spliced(rest, r.first, stretch)[k] {
      if k < r.first {
        assert others[k] == k;
      } else if k < r.first + r.count {
        assert at[k - r.first] == k;
      } else {
        assert others[k - r.count] == k;
      }
    }
  }

  lemma {:induction false} PartWeightsAt(r: Range, selected: seq<int>, unselected: seq<int>)
    requires r.p.Split? && r.first + r.count <= |r.p.kids|
    requires var at := Upto(r.first, r.first + r.count);
             |selected| == |at|
             && forall i :: 0 <= i < |at| ==> at[i] < |r.p.kids| && selected[i] == Links(r.p.kids)[at[i]].percentage
    requires var others := Upto(0, r.first) + Upto(r.first + r.count, |r.p.kids|);
             |unselected| == |others|
             && forall i ::
                  0 <= i < |others| ==> others[i] < |r.p.kids| && unselected[i] == Links(r.p.kids)[others[i]].percentage
    ensures selected == Shares(r.Sel()) && unselected == Shares(r.Others())
  {
    var others := Upto(0, r.first) + Upto(r.first + r.count, |r.p.kids|);
    forall i | 0 <= i < |r.Others()| ensures unselected[i] == Shares(r.Others())[i] {
      assert others[i] == if i < r.first then i else i + r.count;
    }
  }

  // ----- the operations

  ghost predicate Resizes(t: Tree, s: PaneSelection, delta: int)
    requires Follows(t, s)
  {
    && s.parent.Some? && |s.nodes| < |RangeOf(t, s).p.kids|
    && Clamp(Sum(Shares(RangeOf(t, s).Sel())) + delta) != Sum(Shares(RangeOf(t, s).Sel()))
  }

  /** The tree with new shares on the selection's level. */
  ghost function WithShares(r: Range, w: seq<int>): Tree
    requires r.p.Split? && |w| == |r.p.kids|
  {
    Plug(r.c, Split(r.p.id, r.p.axis, Reshare(r.p.kids, w)))
  }

  /** The selected total becomes the clamped sum, the siblings' total its complement, each in proportion. */
  ghost predicate Resized(t: Tree, s: PaneSelection, delta: int, t': Tree)
    requires Follows(t, s)
  {
    if Resizes(t, s, delta) then
      var r := RangeOf(t, s);
      && r.p.Split? && r.first + r.count <= |r.p.kids| && 0 < r.count < |r.p.kids| && ShareSum(r.p.kids)
      && t' == WithShares(r, ResizedShares(r, Clamp(Sum(Shares(r.Sel())) + delta)))
    else t' == t
  }

  lemma {:induction false} SelectedLevel(n: Nodes, t: Tree, s: PaneSelection)
    requires Holds(n, t, None) && Distinct(Bag(t)) && Sound(t, 0) && 0 !in Bag(t) && Follows(t, s) && s.parent.Some?
    ensures var r := RangeOf(t, s);
            && r.p.Split? && r.first + r.count <= |r.p.kids|
            && t == Plug(r.c, r.p) && s.parent.value in n && !n[s.parent.value].IsLeaf()
            && n[s.parent.value].contents.children == Links(r.p.kids)
            && Distinct(BagKids(r.p.kids)) && s.nodes == Ids(r.p.kids)[r.first..r.first + r.count]
            && ShareSum(r.p.kids) && r.p.id == s.parent.value && r.count == |s.nodes| > 0
            && At(t, s.parent.value) == Loc(r.c, r.p) && |r.p.kids| >= 2
  {
    hide Bag, BagKids, Locate, Distinct, HoldsCtx, Sum;
    var r := RangeOf(t, s);
    Open(n, t, s.parent.value);
    SplitNode(r.p.id, r.p.axis, r.p.kids);
    DistinctUnion(multiset{r.p.id}, BagKids(r.p.kids));
    PlugSound(r.c, r.p, 0);
    forall i | 0 <= i < r.count ensures Ids(r.p.kids)[r.first + i] == s.nodes[i] {
      assert Ids(r.Sel())[i] == r.Sel()[i].tree.id;
    }
  }

  /** New shares leave every leaf where it was. */
  lemma {:induction false} ResharedLeaves(c: Ctx, u: Tree, w: seq<int>)
    requires u.Split? && |w| == |u.kids|
    ensures Leaves(Plug(c, Split(u.id, u.axis, Reshare(u.kids, w)))) == Leaves(Plug(c, u))
  {
    hide Plug;
    var v := Split(u.id, u.axis, Reshare(u.kids, w));
    SameTrees(u.kids, v.kids);
    PlugLeaves(c, u);
    PlugLeaves(c, v);
  }

  /** New shares leave a selection where it was. */
  lemma {:induction false} SharesFollow(t: Tree, s: PaneSelection, split: NodeId, w: seq<int>, n: Nodes, m: Nodes)
    requires Holds(n, t, None) && Distinct(Bag(t)) && Follows(t, s)
    requires split in Bag(t) && At(t, split).tree.Split? && |w| == |At(t, split).tree.kids|
    requires var l := At(t, split);
             var t' := Plug(l.ctx, Split(l.tree.id, l.tree.axis, Reshare(l.tree.kids, w)));
             Holds(m, t', None) && Distinct(Bag(t'))
    ensures var l := At(t, split);
            Follows(Plug(l.ctx, Split(l.tree.id, l.tree.axis, Reshare(l.tree.kids, w))), s)
  {
    hide Plug, Bag, BagKids, Locate, Distinct, HoldsCtx, Holds, IsSlice, RangeOf;
    SelectionInside(t, s);
    var l := At(t, split);
    var u := Split(l.tree.id, l.tree.axis, Reshare(l.tree.kids, w));
    var t' := Plug(l.ctx, u);
    SameRootId(l.ctx, l.tree, u);
    if s.parent.Some? {
      SameTrees(l.tree.kids, u.kids);
      SplitNode(u.id, u.axis, u.kids);
      SplitNode(l.tree.id, l.tree.axis, l.tree.kids);
      PlugBag(l.ctx, l.tree);
      PlugBag(l.ctx, u);
      LevelKept(n, m, t, t', s.parent.value, l, u);
      Open(m, t', s.parent.value);
      var v := At(t', s.parent.value).tree;
      SplitNode(v.id, v.axis, v.kids);
      DistinctUnion(multiset{v.id}, BagKids(v.kids));
      SameIdsFollow(t, t', s);
    }
  }

  lemma {:induction false} SelectionInside(t: Tree, s: PaneSelection)
    requires Follows(t, s)
    ensures s.parent.Some? ==> s.parent.value in Bag(t) && At(t, s.parent.value).tree.Split?
  {
  }

  /** A selection only depends on the ids of its level. */
  lemma {:induction false} SameIdsFollow(t: Tree, t': Tree, s: PaneSelection)
    requires Follows(t, s) && s.parent.Some? && s.parent.value in Bag(t')
    requires At(t', s.parent.value).tree.Split? && Distinct(BagKids(At(t', s.parent.value).tree.kids))
    requires Ids(At(t', s.parent.value).tree.kids) == Ids(At(t, s.parent.value).tree.kids)
    ensures Follows(t', s)
  {
    hide Bag, BagKids, Locate, Distinct;
    var r := RangeOf(t, s);
    forall i | 0 <= i < r.count ensures Ids(r.p.kids)[r.first + i] == s.nodes[i] {
      assert Ids(r.Sel())[i] == r.Sel()[i].tree.id;
    }
    assert Ids(r.p.kids)[r.first..r.first + r.count] == s.nodes;
    SliceAt(t', s.parent.value, r.first, s);
  }

  /** New shares on one level keep the ids on every level. */
  lemma {:induction false} LevelKept(n: Nodes, m: Nodes, t: Tree, t': Tree, p: NodeId, l: Loc, u: Tree)
    requires Holds(n, t, None) && Distinct(Bag(t)) && Holds(m, t', None) && Distinct(Bag(t')) && p in Bag(t)
             && p in Bag(t')
    requires t == Plug(l.ctx, l.tree) && t' == Plug(l.ctx, u) && At(t, p).tree.Split?
    requires l.tree.Split? && u.Split? && u.id == l.tree.id && u.axis == l.tree.axis && Ids(u.kids) == Ids(l.tree.kids)
    requires forall i :: 0 <= i < |u.kids| ==> u.kids[i].tree == l.tree.kids[i].tree
    ensures At(t', p).tree.Split? && Ids(At(t', p).tree.kids) == Ids(At(t, p).tree.kids)
  {
    hide Bag, BagKids, Locate, Distinct, HoldsCtx;
    Open(n, t, p);
    Open(m, t', p);
    IdsKept(n, m, t, t', l.ctx, l.tree, u, p);
    var a, b := At(t, p).tree, At(t', p).tree;
    LinkFacts(a.kids);
    LinkFacts(b.kids);
  }

  lemma {:induction false} IdsKept(n: Nodes, m: Nodes, t: Tree, t': Tree, c: Ctx, s: Tree, u: Tree, p: NodeId)
    requires Holds(n, t, None) && Holds(m, t', None) && t == Plug(c, s) && t' == Plug(c, u) && p in n && p in m
             && p in Bag(t)
    requires s.Split? && u.Split? && u.id == s.id && Ids(u.kids) == Ids(s.kids)
    requires forall i :: 0 <= i < |u.kids| ==> u.kids[i].tree == s.kids[i].tree
    ensures n[p].IsLeaf() <==> m[p].IsLeaf()
    ensures !n[p].IsLeaf() ==> ChildIds(n[p].contents.children) == ChildIds(m[p].contents.children)
  {
    hide Bag, BagKids, Locate, Distinct, HoldsCtx, Plug;
    HoldsPlug(n, c, s);
    HoldsPlug(m, c, u);
    PlugBag(c, s);
    if p in Bag(s) {
      if p == s.id {
        LinkFacts(s.kids);
        LinkFacts(u.kids);
      } else {
        SplitNode(s.id, s.axis, s.kids);
        var k := InKids(s.kids, p);
        var i :| 0 <= i < |s.kids| && s.kids[i] == k;
        assert u.kids[i] in u.kids && u.kids[i].tree == k.tree;
        SameHeld(n, m, k.tree, Some(s.id), p);
      }
    } else {
      CtxHeld(n, m, c, s.id, p);
    }
  }

  lemma {:induction false} SameHeld(n: Nodes, m: Nodes, t: Tree, q: Option<NodeId>, p: NodeId)
    requires Holds(n, t, q) && Holds(m, t, q) && p in Bag(t)
    ensures p in n && p in m && n[p] == m[p]
    decreases t
  {
    if p != t.id {
      var k := InKids(t.kids, p);
      SameHeld(n, m, k.tree, Some(t.id), p);
    }
  }

  lemma {:induction false} CtxHeld(n: Nodes, m: Nodes, c: Ctx, hole: NodeId, p: NodeId)
    requires HoldsCtx(n, c, hole) && HoldsCtx(m, c, hole) && p in CtxBag(c)
    ensures p in n && p in m && n[p] == m[p]
    decreases c
  {
    if p in CtxBag(c.up) {
      CtxHeld(n, m, c.up, c.id, p);
    } else if p in BagKids(c.left) {
      var k := InKids(c.left, p);
      SameHeld(n, m, k.tree, Some(c.id), p);
    } else if p in BagKids(c.right) {
      var k := InKids(c.right, p);
      SameHeld(n, m, k.tree, Some(c.id), p);
    }
  }

  /** Grow or shrink the selected range by a number of percentage points. */
  method ResizePaneSelection(layout: PaneLayout, s: PaneSelection, delta: int) returns (changed: bool)
    requires layout.Valid() && Follows(layout.tree, s)
    modifies layout
    ensures layout.Valid() && Follows(layout.tree, s) && layout.nextNodeValue == old(layout.nextNodeValue)
    ensures Leaves(layout.tree) == Leaves(old(layout.tree))
    ensures changed <==> Resizes(old(layout.tree), s, delta)
    ensures Resized(old(layout.tree), s, delta, layout.tree)
  {
    hide Plug, Bag, BagKids, Holds, HoldsCtx, Sound, PaneBag, Locate, Distinct, IsSlice, Sum, Distribute, Spliced;
    ghost var t := layout.tree;
    assert 0 !in Bag(t);
    if s.parent.None? || delta == 0 {
      if s.parent.Some? {
        SelectedLevel(layout.nodes, t, s);
        PartWeights(RangeOf(t, s));
      }
      return false;
    }
    SelectedLevel(layout.nodes, t, s);
    ghost var r := RangeOf(t, s);
    var percentages := ResizedPercentages(layout.nodes[s.parent.value].contents.children, s.nodes, delta, r);
    if percentages.None? {
      return false;
    }
    ResizedTotals(r, Clamp(Sum(Shares(r.Sel())) + delta));
    ghost var n := layout.nodes;
    var done := layout.SetSplitPercentages(s.parent.value, percentages.value);
    SharesFollow(t, s, s.parent.value, percentages.value, n, layout.nodes);
    ResharedLeaves(r.c, r.p, percentages.value);
    return true;
  }

  /** The new percentages of a level, or none if nothing would change. */
  method ResizedPercentages(children: seq<Child>, ids: seq<NodeId>, delta: int, ghost r: Range)
    returns (w: Option<seq<int>>)
    requires r.p.Split? && r.first + r.count <= |r.p.kids| && 0 < r.count && ShareSum(r.p.kids)
             && Distinct(BagKids(r.p.kids))
    requires children == Links(r.p.kids) && |ids| == r.count && ids == Ids(r.p.kids)[r.first..r.first + r.count]
    ensures w.Some? <==> r.count < |r.p.kids| && Clamp(Sum(Shares(r.Sel())) + delta) != Sum(Shares(r.Sel()))
    ensures w.Some? ==> w.value == ResizedShares(r, Clamp(Sum(Shares(r.Sel())) + delta))
  {
    hide Bag, BagKids, Distinct, Sum, Distribute, Spliced;
    PartWeights(r);
    var selected, unselected := PartitionSelection(children, ids, r.p.kids, r.first);
    if |unselected| == 0 {
      return None;
    }
    var selectedWeights := WeightsAt(children, selected);
    var unselectedWeights := WeightsAt(children, unselected);
    PartWeightsAt(r, selectedWeights, unselectedWeights);
    var selectedTotal := Total(selectedWeights);
    var resizedTotal := Clamp(selectedTotal + delta);
    if resizedTotal == selectedTotal {
      return None;
    }
    var inside := DistributePercentageTotal(selectedWeights, resizedTotal);
    var outside := DistributePercentageTotal(unselectedWeights, MAX_PERCENTAGE - resizedTotal);
    var percentages := AssignParts(selected, unselected, inside.value, outside.value, r);
    return Some(percentages);
  }

  method AssignParts(selected: seq<nat>, unselected: seq<nat>, inside: seq<int>, outside: seq<int>, ghost r: Range)
    returns (w: seq<int>)
    requires r.p.Split? && r.first + r.count <= |r.p.kids| && |inside| == r.count && |outside| == |r.p.kids| - r.count
    requires selected == Upto(r.first, r.first + r.count)
             && unselected == Upto(0, r.first) + Upto(r.first + r.count, |r.p.kids|)
    ensures w == Spliced(outside, r.first, inside)
  {
    hide Spliced;
    w := AssignAt(seq(|inside| + |outside|, _ => 0), selected, inside);
    w := AssignAt(w, unselected, outside);
    AssignedParts(r, w, outside, inside);
  }

  /** Even out all children of a split. */
  method EqualizeSplit(layout: PaneLayout, split: NodeId, ghost s: PaneSelection) returns (changed: bool)
    requires layout.Valid() && Follows(layout.tree, s) && split in Bag(layout.tree)
             && At(layout.tree, split).tree.Split?
    modifies layout
    ensures layout.Valid() && Follows(layout.tree, s) && layout.nextNodeValue == old(layout.nextNodeValue)
    ensures Leaves(layout.tree) == Leaves(old(layout.tree))
    ensures var l := At(old(layout.tree), split);
            && |l.tree.kids| > 0
            && changed == (EqualShares(|l.tree.kids|) != Shares(l.tree.kids))
            && layout.tree
                 == Plug(l.ctx, Split(l.tree.id, l.tree.axis, Reshare(l.tree.kids, EqualShares(|l.tree.kids|))))
  {
    hide Plug, Bag, BagKids, Holds, HoldsCtx, Sound, PaneBag, Locate, Distinct, IsSlice, Sum, Distribute, EqualShares;
    ghost var t, l := layout.tree, At(layout.tree, split);
    LevelSound(t, split);
    Open(layout.nodes, t, split);
    LinkFacts(l.tree.kids);
    var children := layout.nodes[split].contents.children;
    var equal := EqualPercentages(|children|);
    EqualIsNormalizedOnes(|children|);
    OnesWeights(|children|);
    DistributeSum(Ones(|children|), MAX_PERCENTAGE);
    var current := PaneLayout.Percentages(children);
    if equal.value == current {
      SharesKept(l.tree);
      return false;
    }
    ghost var n := layout.nodes;
    var done := layout.SetSplitPercentages(split, equal.value);
    Stored100(l.tree, equal.value);
    SharesFollow(t, s, split, equal.value, n, layout.nodes);
    ResharedLeaves(l.ctx, l.tree, equal.value);
    return true;
  }

  lemma {:induction false} SharesKept(u: Tree)
    requires u.Split?
    ensures Split(u.id, u.axis, Reshare(u.kids, Shares(u.kids))) == u
  {
    assert Reshare(u.kids, Shares(u.kids)) == u.kids;
  }

  lemma {:induction false} LevelSound(t: Tree, split: NodeId)
    requires split in Bag(t) && Sound(t, 0) && 0 !in Bag(t) && At(t, split).tree.Split?
    ensures |At(t, split).tree.kids| >= 2 && ShareSum(At(t, split).tree.kids)
  {
    hide Plug, Locate, Bag;
    PlugSound(At(t, split).ctx, At(t, split).tree, 0);
  }

  /** What equalizing works on: the children of a single selected split, or the selected range. */
  ghost predicate EqualizesSplit(t: Tree, s: PaneSelection)
    requires |s.nodes| > 0 && s.nodes[0] in Bag(t)
  {
    |s.nodes| == 1 && At(t, s.nodes[0]).tree.Split?
  }

  /** All children of one split evened out. */
  ghost predicate EvenLevel(t: Tree, split: NodeId, t': Tree) {
    && split in Bag(t)
    && var l := At(t, split);
    && l.tree.Split? && |l.tree.kids| > 0
    && t' == Plug(l.ctx, Split(l.tree.id, l.tree.axis, Reshare(l.tree.kids, EqualShares(|l.tree.kids|))))
  }

  /** What equalizing does: an explicit single split is evened out inside, an explicit range among itself,
      and without an explicit selection the whole level is. */
  ghost predicate Equalized(t: Tree, s: PaneSelection, explicit: bool, t': Tree) {
    && |s.nodes| > 0 && s.nodes[0] in Bag(t)
    && if explicit && EqualizesSplit(t, s) then EvenLevel(t, s.nodes[0], t')
       else if s.parent.None? then t' == t
       else if !explicit then EvenLevel(t, s.parent.value, t')
       else
         && s.parent.value in Bag(t)
         && var r := RangeOf(t, s);
         && r.p.Split? && r.first + r.count <= |r.p.kids| && 0 < r.count && ShareSum(r.p.kids)
         && t' == WithShares(r, EvenedShares(r))
  }

  method EqualizePaneSelection(layout: PaneLayout, s: PaneSelection) returns (changed: bool)
    requires layout.Valid() && Follows(layout.tree, s)
    modifies layout
    ensures layout.Valid() && Follows(layout.tree, s) && layout.nextNodeValue == old(layout.nextNodeValue)
    ensures Leaves(layout.tree) == Leaves(old(layout.tree))
    ensures Equalized(old(layout.tree), s, true, layout.tree)
    ensures changed <==> layout.tree != old(layout.tree)
  {
    hide Plug, Bag, BagKids, Holds, HoldsCtx, Sound, PaneBag, Locate, Distinct, IsSlice, Sum, Distribute, Spliced;
    ghost var t := layout.tree;
    assert 0 !in Bag(t);
    var first := SelectionHead(layout, s);
    Open(layout.nodes, t, first);
    if |s.nodes| == 1 && !layout.nodes[first].IsLeaf() {
      changed := EqualizeSplit(layout, first, s);
      SharesDiffer(At(t, first).ctx, At(t, first).tree, EqualShares(|At(t, first).tree.kids|));
      return;
    }
    if s.parent.None? {
      return false;
    }
    changed := EvenRange(layout, s);
  }

  /** The first selected node is part of the layout. */
  method SelectionHead(layout: PaneLayout, s: PaneSelection) returns (first: NodeId)
    requires layout.Valid() && Follows(layout.tree, s)
    ensures |s.nodes| > 0 && first == s.nodes[0] && first in Bag(layout.tree)
  {
    hide Plug, Bag, BagKids, Holds, HoldsCtx, Sound, PaneBag, Locate, Distinct;
    first := s.nodes[0];
    RootInBag(layout.tree);
    if s.parent.Some? {
      ghost var r := RangeOf(layout.tree, s);
      assert Ids(r.Sel())[0] == r.p.kids[r.first].tree.id;
      ChildPlace(layout.nodes, layout.tree, s.parent.value, r.first);
    }
  }

  /** Putting other shares into a level changes the tree exactly if the shares differ. */
  lemma {:induction false} SharesDiffer(c: Ctx, u: Tree, w: seq<int>)
    requires u.Split? && |w| == |u.kids|
    ensures Plug(c, Split(u.id, u.axis, Reshare(u.kids, w))) == Plug(c, u) <==> w == Shares(u.kids)
  {
    hide Plug;
    var v := Split(u.id, u.axis, Reshare(u.kids, w));
    if w == Shares(u.kids) {
      SharesKept(u);
    } else if Plug(c, v) == Plug(c, u) {
      PlugInjective(c, v, u);
    }
  }

  /** The percentages of a level with those of the selected children evened out among themselves. */
  method EvenedPercentages(children: seq<Child>, ids: seq<NodeId>, current: seq<int>, ghost r: Range)
    returns (percentages: seq<int>)
    requires r.p.Split? && r.first + r.count <= |r.p.kids| && 0 < r.count == |ids| && ShareSum(r.p.kids)
    requires children == Links(r.p.kids) && Distinct(BagKids(r.p.kids))
             && ids == Ids(r.p.kids)[r.first..r.first + r.count]
    requires current == Shares(r.p.kids)
    ensures percentages == EvenedShares(r)
  {
    hide BagKids, Distinct, Sum, Distribute, Spliced;
    PartWeights(r);
    LinkFacts(r.p.kids);
    var selected, unselected := PartitionSelection(children, ids, r.p.kids, r.first);
    var selectedWeights := WeightsAt(children, selected);
    ghost var unselectedWeights := seq(|unselected|, i requires 0 <= i < |unselected|
                                       && unselected[i] < |children| => children[unselected[i]].percentage);
    PartWeightsAt(r, selectedWeights, unselectedWeights);
    var selectedTotal := Total(selectedWeights);
    OnesWeights(|selected|);
    var even := DistributePercentageTotal(Ones(|selected|), selectedTotal);
    percentages := AssignAt(current, selected, even.value);
    AssignedParts(r, percentages, unselectedWeights, even.value);
  }

  /** Even out a selected range, keeping its combined share. */
  method EvenRange(layout: PaneLayout, s: PaneSelection) returns (changed: bool)
    requires layout.Valid() && Follows(layout.tree, s) && s.parent.Some?
    modifies layout
    ensures layout.Valid() && Follows(layout.tree, s) && layout.nextNodeValue == old(layout.nextNodeValue)
    ensures Leaves(layout.tree) == Leaves(old(layout.tree))
    ensures s.parent.value in Bag(old(layout.tree))
    ensures var r := RangeOf(old(layout.tree), s);
            && r.p.Split? && r.first + r.count <= |r.p.kids| && 0 < r.count && ShareSum(r.p.kids)
            && layout.tree == WithShares(r, EvenedShares(r))
    ensures changed <==> layout.tree != old(layout.tree)
  {
    hide Plug, Bag, BagKids, Holds, HoldsCtx, Sound, PaneBag, Locate, Distinct, IsSlice, Sum, Distribute, Spliced;
    ghost var t := layout.tree;
    assert 0 !in Bag(t);
    SelectedLevel(layout.nodes, t, s);
    ghost var r := RangeOf(t, s);
    PartWeights(r);
    LinkFacts(r.p.kids);
    var children := layout.nodes[s.parent.value].contents.children;
    var current := PaneLayout.Percentages(children);
    var percentages := EvenedPercentages(children, s.nodes, current, r);
    SharesDiffer(r.c, r.p, percentages);
    if percentages == current {
      return false;
    }
    EvenedTotals(r);
    ghost var n := layout.nodes;
    var done := layout.SetSplitPercentages(s.parent.value, percentages);
    SharesFollow(t, s, s.parent.value, percentages, n, layout.nodes);
    ResharedLeaves(r.c, r.p, percentages);
    return true;
  }

  /** Without an explicit selection the whole level of the focused pane is evened out. */
  method EqualizePaneSelectionLevel(layout: PaneLayout, s: PaneSelection) returns (changed: bool)
    requires layout.Valid() && Follows(layout.tree, s)
    modifies layout
    ensures layout.Valid() && Follows(layout.tree, s) && layout.nextNodeValue == old(layout.nextNodeValue)
    ensures Leaves(layout.tree) == Leaves(old(layout.tree))
    ensures Equalized(old(layout.tree), s, false, layout.tree)
    ensures changed <==> layout.tree != old(layout.tree)
  {
    hide Plug, Bag, BagKids, Holds, HoldsCtx, Sound, PaneBag, Locate, Distinct, Sum, Distribute, EqualShares;
    var first := SelectionHead(layout, s);
    if s.parent.None? {
      return false;
    }
    ghost var l := At(layout.tree, s.parent.value);
    changed := EqualizeSplit(layout, s.parent.value, s);
    SharesDiffer(l.ctx, l.tree, EqualShares(|l.tree.kids|));
  }
}
