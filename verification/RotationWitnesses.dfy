/** A four-pane layout, reached by three splits and one equalization, whose percentages do not survive
    rotating a split twice. */
module RotationWitnesses {
  import opened Wrappers
  import opened Percentages
  import opened PaneTree
  import opened PaneNodes
  import opened PaneEdits
  import opened LayoutMaps
  import opened PaneSelections
  import opened PaneResizes
  import opened PaneRotations
  import opened RotationTheorems
  import opened LayoutWitnesses

  const LAST: Tree := Leaf(6, 4)

  function Row(a: int, b: int, c: int): seq<Kid> {
    [Kid(LEFT, a), Kid(RIGHT, b), Kid(LAST, c)]
  }

  /** One pane above three panes side by side. */
  function Trio(id: NodeId, a: int, b: int, c: int): Tree {
    Halves(3, TopToBottom, TOP, Split(id, LeftToRight, Row(a, b, c)))
  }

  /** The lower level selected as one node, and what rotating it leaves selected. */
  function Lower(): PaneSelection {
    PaneSelection(Some(3), 5, 5, [5])
  }

  function Turned(): PaneSelection {
    PaneSelection(Some(3), 2, 6, [2, 4, 6])
  }

  /** Four panes on top of each other. */
  function Pile(): Tree {
    Split(3, TopToBottom, [Kid(TOP, 50)] + Row(17, 17, 16))
  }

  lemma {:induction false} RowProps(a: int, b: int, c: int)
    ensures BagKids(Row(a, b, c)) == multiset{2, 4, 6} && Shares(Row(a, b, c)) == [a, b, c]
    ensures Ids(Row(a, b, c)) == [2, 4, 6] && ToggleKids(Row(a, b, c)) == Row(a, b, c)
    ensures Sum([a, b, c]) == a + b + c
  {
    hide Bag, BagKids;
    LeafFacts(LEFT);
    LeafFacts(RIGHT);
    LeafFacts(LAST);
    KidsCons(Kid(LEFT, a), [Kid(RIGHT, b), Kid(LAST, c)]);
    PairKids(Kid(RIGHT, b), Kid(LAST, c));
    assert Row(a, b, c) == [Kid(LEFT, a)] + [Kid(RIGHT, b), Kid(LAST, c)];
    assert [Kid(RIGHT, b), Kid(LAST, c)] == [Kid(RIGHT, b)] + [Kid(LAST, c)];
    SumOfThree([a, b, c]);
  }

  lemma {:induction false} SumOfThree(s: seq<int>)
    requires |s| == 3
    ensures Sum(s) == s[0] + s[1] + s[2]
  {
    assert s[1..][1..][1..] == [];
    assert Sum(s[1..][1..]) == s[1..][1..][0] + Sum([]);
    assert Sum(s[1..]) == s[1..][0] + Sum(s[1..][1..]);
  }

  function Hole(): Ctx {
    SecondOf(Top, 3, TopToBottom, TOP)
  }

  lemma {:induction false} TrioProps(id: NodeId, a: int, b: int, c: int)
    requires id !in [1, 2, 3, 4, 6]
    ensures Bag(Trio(id, a, b, c)) == multiset{3, 1, id, 2, 4, 6} && Distinct(Bag(Trio(id, a, b, c)))
    ensures Plug(Hole(), Split(id, LeftToRight, Row(a, b, c))) == Trio(id, a, b, c)
    ensures At(Trio(id, a, b, c), id) == Loc(Hole(), Split(id, LeftToRight, Row(a, b, c)))
    ensures At(Trio(id, a, b, c), 3) == Loc(Top, Trio(id, a, b, c))
  {
    hide Plug, Locate, BagKids, Sound, Alternates, Leaves;
    var u := Split(id, LeftToRight, Row(a, b, c));
    RowProps(a, b, c);
    SplitNode(id, LeftToRight, Row(a, b, c));
    LeafFacts(TOP);
    HalvesProps(3, TopToBottom, TOP, u);
    PlugTop(Trio(id, a, b, c));
    AtPlug(Hole(), u);
    AtPlug(Top, Trio(id, a, b, c));
  }

  /** The lower level can be selected. */
  lemma {:induction false} LowerFollows(a: int, b: int, c: int)
    ensures Follows(Trio(5, a, b, c), Lower())
  {
    hide Plug, Locate, BagKids, IsSlice;
    TrioProps(5, a, b, c);
    var ks := Trio(5, a, b, c).kids;
    SplitNode(3, TopToBottom, ks);
    DistinctUnion(multiset{3}, BagKids(ks));
    assert Ids(ks)[1..2] == [5];
    SliceAt(Trio(5, a, b, c), 3, 1, Lower());
  }

  /** A third split joins the level of the second, and equalizing evens the level out. */
  lemma {:induction false} TrioReached()
    ensures 4 in Bag(Stacked()) && At(Stacked(), 4).tree == RIGHT
    ensures SplitAt(At(Stacked(), 4).ctx, RIGHT, LeftToRight, LAST, After, 7) == Trio(5, 50, 25, 25)
    ensures Equalized(Trio(5, 50, 25, 25), Lower(), true, Trio(5, 34, 33, 33))
  {
    hide Plug, Locate, Bag, WellFormed;
    StackedWellFormed();
    HalvesProps(3, TopToBottom, TOP, Beneath());
    HalvesProps(5, LeftToRight, LEFT, RIGHT);
    PlugTop(Stacked());
    var c := SecondOf(Hole(), 5, LeftToRight, LEFT);
    assert Plug(c, RIGHT) == Stacked();
    AtPlug(c, RIGHT);
    TrioProps(5, 50, 25, 25);
    TrioProps(5, 34, 33, 33);
    RowJoined();
    RowEvened();
  }

  lemma {:induction false} RowJoined()
    ensures [Kid(LEFT, 50)] + Pair(LAST, RIGHT, 50, After) + [] == Row(50, 25, 25)
  {
  }

  lemma {:induction false} RowEvened()
    ensures |Row(50, 25, 25)| == 3 && Reshare(Row(50, 25, 25), EqualShares(3)) == Row(34, 33, 33)
  {
    var r := Reshare(Row(50, 25, 25), EqualShares(3));
    assert EqualShares(3) == [34, 33, 33];
    assert Shares(r) == [34, 33, 33] && r[0].share == Shares(r)[0] && r[1].share == Shares(r)[1]
           && r[2].share == Shares(r)[2];
  }

  /** A third of a half, rounded to a whole percentage and back. */
  lemma {:induction false} ThirdsOfHalf()
    ensures Weights([34, 33, 33]) && Distribute([34, 33, 33], 50) == [17, 17, 16]
    ensures Weights([17, 17, 16]) && Distribute([17, 17, 16], MAX_PERCENTAGE) == [34, 34, 32]
  {
    hide Distribute;
    var w := [34, 33, 33];
    SumOfThree(w);
    var p := Distribute(w, 50);
    DistributeSum(w, 50);
    DistributeQuota(w, 50, 0);
    DistributeQuota(w, 50, 1);
    DistributeQuota(w, 50, 2);
    DistributeMonotone(w, 50, 1, 2);
    SumOfThree(p);
    assert p == [17, 17, 16];
    var q := Distribute(p, MAX_PERCENTAGE);
    DistributeQuota(p, MAX_PERCENTAGE, 0);
    DistributeQuota(p, MAX_PERCENTAGE, 1);
    DistributeQuota(p, MAX_PERCENTAGE, 2);
  }

  lemma {:induction false} RowScaled(a: int, b: int, c: int, total: int, x: int, y: int, z: int)
    requires Weights([a, b, c]) && Distribute([a, b, c], total) == [x, y, z]
    ensures Scaled(Row(a, b, c), total) == Row(x, y, z)
  {
    hide Distribute;
    RowProps(a, b, c);
  }

  /** Rotating the lower level promotes its panes. */
  lemma {:induction false} PileReached()
    ensures RotatedTree(Trio(5, 34, 33, 33), Lower(), 7) == Pile()
    ensures RotatedNodes(Trio(5, 34, 33, 33), Lower(), 7) == Turned().nodes
    ensures Distinct(Bag(Pile())) && Follows(Pile(), Turned())
  {
    hide Plug, Locate, Bag, BagKids, IsSlice, RangeOf, RotateAt, Row;
    LowerFollows(34, 33, 33);
    TrioProps(5, 34, 33, 33);
    RowProps(34, 33, 33);
    TrioRotated();
    PileSelected();
  }

  lemma {:induction false} TrioRotated()
    ensures RotateAt(Hole(), Split(5, LeftToRight, Row(34, 33, 33))) == Pile()
  {
    hide Plug, Flat, Scaled, Distribute;
    var u := Split(5, LeftToRight, Row(34, 33, 33));
    RowProps(34, 33, 33);
    RowProps(17, 17, 16);
    ToggleUnfold(u);
    PromotedKids(Hole(), Toggle(u));
    FlatOpposite(Hole().left, TopToBottom);
    FlatOpposite(Hole().right, TopToBottom);
    ThirdsOfHalf();
    RowScaled(34, 33, 33, 50, 17, 17, 16);
    assert [Kid(TOP, 50)] + Row(17, 17, 16) + [] == Pile().kids;
    PlugTop(Pile());
  }

  lemma {:induction false} PileSelected()
    ensures Distinct(Bag(Pile())) && 3 in Bag(Pile()) && At(Pile(), 3) == Loc(Top, Pile())
    ensures Follows(Pile(), Turned())
  {
    hide Plug, Locate, BagKids, IsSlice;
    RowProps(17, 17, 16);
    LeafFacts(TOP);
    KidsCons(Kid(TOP, 50), Row(17, 17, 16));
    SplitNode(3, TopToBottom, Pile().kids);
    DistinctUnion(multiset{3}, BagKids(Pile().kids));
    PlugTop(Pile());
    AtPlug(Top, Pile());
    assert Ids(Pile().kids)[1..4] == [2, 4, 6];
    SliceAt(Pile(), 3, 1, Turned());
  }

  /** Rotating what is then selected groups them again, two of the three with other percentages. */
  lemma {:induction false} ThirdsDoNotSurvive()
    ensures RotatedTree(Trio(5, 34, 33, 33), Lower(), 7) == Pile() && Follows(Pile(), Turned())
    ensures Turned().nodes[0] in Bag(Pile())
    ensures RotatedTree(Pile(), Turned(), 7) == Trio(7, 34, 34, 32)
  {
    hide Plug, Locate, Bag, BagKids, Scaled, Distribute, IsSlice, RangeOf, RotatedTree, Grouped, Trio;
    PileReached();
    PlugTop(Pile());
    PartAgain(Top, Pile(), 1, Turned(), 7) by {
      assert Ids(Pile().kids)[1..4] == [2, 4, 6];
    }
    PileGrouped();
    PlugTop(Trio(7, 34, 34, 32));
  }

  lemma {:induction false} PileGrouped()
    ensures Grouped(Pile(), 1, 3, 7) == Trio(7, 34, 34, 32)
  {
    hide Scaled, Distribute;
    ThirdsOfHalf();
    RowProps(17, 17, 16);
    RowProps(34, 34, 32);
    RowScaled(17, 17, 16, MAX_PERCENTAGE, 34, 34, 32);
    assert Pile().kids[..1] == [Kid(TOP, 50)] && Pile().kids[1..4] == Row(17, 17, 16) && Pile().kids[4..] == [];
    var g := Group(Pile(), Row(17, 17, 16), 7);
    assert g == Kid(Split(7, LeftToRight, Row(34, 34, 32)), 50);
    assert [Kid(TOP, 50)] + [g] + [] == Trio(7, 34, 34, 32).kids;
  }
}
