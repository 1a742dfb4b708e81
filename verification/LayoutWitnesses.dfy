/** A three-pane layout, reached by two splits, in which a drop joins equal axes and a swap is then rejected. */
module LayoutWitnesses {
  import opened Wrappers
  import opened Percentages
  import opened PaneTree
  import opened PaneNodes
  import opened PaneEdits
  import opened LayoutMaps
  import opened PaneSelections
  import opened MoveTrees
  import opened PaneMoves
  import opened SwapTrees
  import opened PaneSwaps

  const TOP: Tree := Leaf(1, 1)
  const LEFT: Tree := Leaf(2, 2)
  const RIGHT: Tree := Leaf(4, 3)

  function Halves(id: NodeId, axis: Axis, x: Tree, y: Tree): Tree {
    Split(id, axis, [Kid(x, 50), Kid(y, 50)])
  }

  /** Two panes side by side. */
  function Beneath(): Tree {
    Halves(5, LeftToRight, LEFT, RIGHT)
  }

  /** One pane above two panes side by side. */
  function Stacked(): Tree {
    Halves(3, TopToBottom, TOP, Beneath())
  }

  /** What dropping the upper pane to the left of the lower two makes of it. */
  function Joined(): Tree {
    Halves(6, LeftToRight, TOP, Beneath())
  }

  function FirstOf(up: Ctx, id: NodeId, axis: Axis, y: Tree): Ctx {
    In(up, id, axis, [], 50, [Kid(y, 50)])
  }

  function SecondOf(up: Ctx, id: NodeId, axis: Axis, x: Tree): Ctx {
    In(up, id, axis, [Kid(x, 50)], 50, [])
  }

  lemma {:induction false} HalvesProps(id: NodeId, axis: Axis, x: Tree, y: Tree)
    ensures var t := Halves(id, axis, x, y);
            && Bag(t) == multiset{id} + (Bag(x) + Bag(y)) && Leaves(t) == Leaves(x) + Leaves(y)
            && (Sound(x, 0) && Sound(y, 0) ==> Sound(t, 0))
            && (Alternates(t) <==> Alternates(x) && Alternates(y) && Opposite(x, axis) && Opposite(y, axis))
            && (forall up ::
                  Plug(FirstOf(up, id, axis, y), x) == Plug(up, t) && Plug(SecondOf(up, id, axis, x), y) == Plug(up, t))
  {
    var a, b := Kid(x, 50), Kid(y, 50);
    PairKids(a, b);
    assert [a, b] == [a] + [b];
    HalvesSound(id, axis, x, y);
    assert forall k :: k in [a, b] <==> k == a || k == b;
    assert a in [a, b] && b in [a, b];
    hide Sound, Alternates;
    forall up ensures Plug(FirstOf(up, id, axis, y), x) == Plug(up, Halves(id, axis, x, y))
                      && Plug(SecondOf(up, id, axis, x), y) == Plug(up, Halves(id, axis, x, y)) {
      assert [] + [a] + [b] == [a, b] && [a] + [b] + [] == [a, b];
    }
  }

  lemma {:induction false} HalvesSound(id: NodeId, axis: Axis, x: Tree, y: Tree)
    ensures var t := Halves(id, axis, x, y);
            && (Sound(x, 0) && Sound(y, 0) ==> Sound(t, 0))
            && (Alternates(t) <==> Alternates(x) && Alternates(y) && Opposite(x, axis) && Opposite(y, axis))
  {
    hide Bag, Leaves;
    var a, b := Kid(x, 50), Kid(y, 50);
    PairKids(a, b);
    assert [a, b] == [a] + [b] && Shares([a, b]) == [50, 50];
    hide Sum;
    assert forall k :: k in [a, b] <==> k == a || k == b;
    assert a in [a, b] && b in [a, b];
  }

  lemma {:induction false} ThreePanes(t: Tree, next: nat)
    requires Distinct(Bag(t)) && Sound(t, 0) && next <= MAX_NODE_VALUE && forall x :: x in Bag(t) ==> 0 < x < next
    requires Leaves(t) == [LeafRef(1, 1)] + ([LeafRef(2, 2)] + [LeafRef(4, 3)])
    ensures WellFormed(t, next)
  {
    hide Bag, Sound, Leaves;
    assert Panes(Leaves(t)) == [1, 2, 3];
  }

  lemma {:induction false} BeneathProps()
    ensures Bag(Beneath()) == multiset{5, 2, 4} && Leaves(Beneath()) == [LeafRef(2, 2)] + [LeafRef(4, 3)]
    ensures Sound(Beneath(), 0) && Alternates(Beneath())
  {
    hide Bag, Leaves, Sound, Alternates;
    LeafFacts(LEFT);
    LeafFacts(RIGHT);
    HalvesProps(5, LeftToRight, LEFT, RIGHT);
  }

  lemma {:induction false} StackedWellFormed()
    ensures WellFormed(Stacked(), 6) && Alternates(Stacked()) && Bag(Stacked()) == multiset{3, 1, 5, 2, 4}
  {
    hide Bag, Leaves, Sound, Alternates;
    LeafFacts(TOP);
    BeneathProps();
    HalvesProps(3, TopToBottom, TOP, Beneath());
    ThreePanes(Stacked(), 6);
  }

  lemma {:induction false} JoinedWellFormed()
    ensures WellFormed(Joined(), 7) && !Alternates(Joined()) && Bag(Joined()) == multiset{6, 1, 5, 2, 4}
  {
    hide Bag, Leaves, Sound, Alternates;
    LeafFacts(TOP);
    BeneathProps();
    HalvesProps(6, LeftToRight, TOP, Beneath());
    ThreePanes(Joined(), 7);
  }

  /** Two splits of a fresh layout lead there. */
  lemma {:induction false} StackedReached()
    ensures var first := SplitAt(Top, TOP, TopToBottom, LEFT, After, 3);
            && 2 in Bag(first) && At(first, 2).tree == LEFT
            && SplitAt(At(first, 2).ctx, LEFT, LeftToRight, RIGHT, After, 5) == Stacked()
  {
    hide Plug, Locate;
    var first := SplitAt(Top, TOP, TopToBottom, LEFT, After, 3);
    assert first == Halves(3, TopToBottom, TOP, LEFT) by {
      PlugTop(Halves(3, TopToBottom, TOP, LEFT));
    }
    HalvesProps(3, TopToBottom, TOP, LEFT);
    PlugTop(first);
    PlugTop(Stacked());
    assert Bag(first) == multiset{3, 1, 2};
    var c := SecondOf(Top, 3, TopToBottom, TOP);
    assert Plug(c, LEFT) == first;
    AtPlug(c, LEFT);
    HalvesProps(3, TopToBottom, TOP, Beneath());
    assert Plug(c, Beneath()) == Stacked();
    assert Pair(RIGHT, LEFT, MAX_PERCENTAGE, After) == [Kid(LEFT, 50), Kid(RIGHT, 50)];
  }

  /** Selecting the upper pane. */
  function Upper(): PaneSelection {
    PaneSelection(Some(3), 1, 1, [1])
  }

  lemma {:induction false} Places()
    ensures 1 in Bag(Stacked()) && 3 in Bag(Stacked()) && 5 in Bag(Stacked())
    ensures At(Stacked(), 1) == Loc(FirstOf(Top, 3, TopToBottom, Beneath()), TOP)
    ensures At(Stacked(), 3) == Loc(Top, Stacked())
    ensures At(Stacked(), 5) == Loc(SecondOf(Top, 3, TopToBottom, TOP), Beneath())
  {
    hide Plug, Locate;
    StackedWellFormed();
    HalvesProps(3, TopToBottom, TOP, Beneath());
    PlugTop(Stacked());
    AtPlug(FirstOf(Top, 3, TopToBottom, Beneath()), TOP);
    AtPlug(SecondOf(Top, 3, TopToBottom, TOP), Beneath());
    AtPlug(Top, Stacked());
  }

  /** The upper pane is the first child of the root split. */
  lemma {:induction false} UpperRange()
    ensures IsSlice(Stacked(), Upper())
    ensures RangeOf(Stacked(), Upper()) == Range(Top, Stacked(), 0, 1)
    ensures Range(Top, Stacked(), 0, 1).Sel() == [Kid(TOP, 50)]
  {
    hide Plug, Locate, Bag;
    Places();
    var ks := Stacked().kids;
    assert ks == [Kid(TOP, 50), Kid(Beneath(), 50)];
    assert Links(ks)[0] == Child(1, 50);
    assert ks[0..1] == [Kid(TOP, 50)];
    assert Ids([Kid(TOP, 50)]) == [1];
  }

  lemma {:induction false} UpperValid()
    ensures Validated(Stacked(), Upper(), 5)
    ensures RangeOf(Stacked(), Upper()) == Range(Top, Stacked(), 0, 1)
  {
    hide Plug, Locate, Bag, IsSlice, RangeOf;
    UpperRange();
    Places();
    LeafFacts(TOP);
    BeneathProps();
    assert |Stacked().kids| == 2;
  }

  /** The layout promises that no split directly contains a split of its own axis; this drop breaks it. */
  lemma {:induction false} DropJoinsAxes()
    ensures Validated(Stacked(), Upper(), 5)
    ensures AfterMove(Stacked(), Upper(), 5, DropLeft, 6) == Joined()
    ensures !Alternates(AfterMove(Stacked(), Upper(), 5, DropLeft, 6))
  {
    hide Plug, Locate, Alternates, Inserted, Cleaned, Remainder, WellFormed, Bag;
    UpperValid();
    Places();
    JoinedWellFormed();
    LowerLeft();
    JoinedInserted();
  }

  /** The level once the upper pane has been taken out, and once it has been put back inside a wrapper. */
  function Lone(t: Tree): Tree {
    Split(3, TopToBottom, [Kid(t, 100)])
  }

  function LoneCtx(): Ctx {
    In(Top, 3, TopToBottom, [], 100, [])
  }

  lemma {:induction false} LonePlug(t: Tree)
    ensures Plug(LoneCtx(), t) == Lone(t) && Plug(Top, Lone(t)) == Lone(t)
    ensures Bag(Lone(t)) == multiset{3} + Bag(t)
  {
    assert [] + [Kid(t, 100)] + [] == [Kid(t, 100)];
    FilledOnce(LoneCtx(), t, Lone(t));
    OnlyKid([Kid(t, 100)]);
  }

  lemma {:induction false} LowerLeft()
    ensures Remainder(Range(Top, Stacked(), 0, 1)) == Lone(Beneath())
    ensures 5 in Bag(Lone(Beneath())) && At(Lone(Beneath()), 5) == Loc(LoneCtx(), Beneath())
  {
    hide Plug, Locate, Bag;
    var r := Range(Top, Stacked(), 0, 1);
    assert r.Others() == [Kid(Beneath(), 50)];
    ScaledOne(Beneath());
    LonePlug(Beneath());
    BeneathProps();
    AtPlug(LoneCtx(), Beneath());
  }

  lemma {:induction false} JoinedInserted()
    ensures 5 in Bag(Remainder(Range(Top, Stacked(), 0, 1)))
    ensures Moved(Range(Top, Stacked(), 0, 1), 5, LeftToRight, Before, 6) == Joined()
  {
    hide Plug, Locate, Bag, Remainder, WellFormed;
    LowerLeft();
    var r := Range(Top, Stacked(), 0, 1);
    assert Source(r, 6) == TOP by {
      assert r.Sel() == [Kid(TOP, 50)];
    }
    assert Joined() == Split(6, LeftToRight, JoinKids(TOP, Beneath(), 100, LeftToRight, Before)) by {
      assert [Kid(TOP, 50)] + [Kid(Beneath(), 50)] == [Kid(TOP, 50), Kid(Beneath(), 50)];
    }
    LonePlug(Joined());
    assert Inserted(r, 5, LeftToRight, Before, 6) == Lone(Joined());
    JoinedWellFormed();
    AtPlug(Top, Lone(Joined()));
  }

  lemma {:induction false} FilledOnce(c: Ctx, t: Tree, u: Tree)
    requires c.In? && c.up.Top? && Fill(c, t) == u
    ensures Plug(c, t) == u
  {
    assert Plug(c, t) == Plug(Top, Fill(c, t));
  }

  lemma {:induction false} ScaledOne(t: Tree)
    ensures Scaled([Kid(t, 50)], MAX_PERCENTAGE) == [Kid(t, 100)]
  {
    hide Distribute;
    var ks := [Kid(t, 50)];
    assert Shares(ks) == [50];
    ScaledProps(ks, MAX_PERCENTAGE);
    var s := Shares(Scaled(ks, MAX_PERCENTAGE));
    assert s == [s[0]] && Sum(s) == s[0];
  }

  /** Swapping the same two panes is then rejected from one side and accepted from the other. */
  lemma {:induction false} SwapOneSided()
    ensures Separate(Joined(), 1, 2) && !Swappable(Joined(), 1, 2) && Swappable(Joined(), 2, 1)
  {
    hide Plug, Locate;
    JoinedWellFormed();
    HalvesProps(6, LeftToRight, TOP, Beneath());
    HalvesProps(5, LeftToRight, LEFT, RIGHT);
    PlugTop(Joined());
    var c := SecondOf(Top, 6, LeftToRight, TOP);
    AtPlug(FirstOf(Top, 6, LeftToRight, Beneath()), TOP);
    assert Plug(FirstOf(c, 5, LeftToRight, RIGHT), LEFT) == Joined();
    AtPlug(FirstOf(c, 5, LeftToRight, RIGHT), LEFT);
  }
}
