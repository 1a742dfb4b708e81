/** Dividing a rectangle among the panes of a layout. */
module PaneGeometries {
  import opened Wrappers
  import opened Percentages
  import opened PaneTree
  import opened PaneNodes
  import opened LayoutMaps
  import opened PaneLayouts

  datatype Cell = Cell(row: int, column: int)

  datatype Region = Region(row: int, column: int, rows: int, cols: int) {
    predicate Has(c: Cell) {
      row <= c.row < row + rows && column <= c.column < column + cols
    }

    predicate NonNegative() {
      rows >= 0 && cols >= 0
    }

    function Start(axis: Axis): int {
      if axis.LeftToRight? then column else row
    }

    function Extent(axis: Axis): int {
      if axis.LeftToRight? then cols else rows
    }

    /** The slice of the region that starts at a position along an axis. */
    function Slice(axis: Axis, start: int, extent: int): Region {
      if axis.LeftToRight? then this.(column := start, cols := extent) else this.(row := start, rows := extent)
    }
  }

  datatype Separator = Separator(splitNode: NodeId, axis: Axis, region: Region)

  // ----- where the children of a split go

  /** Separators between children, or none at all if they do not all fit. */
  function Gaps(t: Tree, r: Region): (g: int)
    requires t.Split?
    ensures |t.kids| >= 1 && r.NonNegative() ==> 0 <= g <= r.Extent(t.axis)
  {
    if r.Extent(t.axis) >= |t.kids| - 1 then |t.kids| - 1 else 0
  }

  function Extents(t: Tree, r: Region): (e: seq<int>)
    requires t.Split? && ShareSum(t.kids)
    ensures |e| == |t.kids|
  {
    Apportion(Shares(t.kids), r.Extent(t.axis) - Gaps(t, r))
  }

  /** How far into the split child i starts. */
  function Offset(t: Tree, r: Region, i: nat): int
    requires t.Split? && ShareSum(t.kids) && i <= |t.kids|
  {
    Sum(Extents(t, r)[..i]) + if Gaps(t, r) > 0 then i else 0
  }

  function ChildRegion(t: Tree, r: Region, i: nat): Region
    requires t.Split? && ShareSum(t.kids) && i < |t.kids|
  {
    r.Slice(t.axis, r.Start(t.axis) + Offset(t, r, i), Extents(t, r)[i])
  }

  /** The separators that follow child i inside its split. */
  function GapAfter(t: Tree, r: Region, i: nat): seq<Separator>
    requires t.Split? && ShareSum(t.kids) && i < |t.kids|
  {
    if Gaps(t, r) > 0 && i + 1 < |t.kids|
    then [Separator(t.id, t.axis, r.Slice(t.axis, r.Start(t.axis) + Offset(t, r, i) + Extents(t, r)[i], 1))] else []
  }

  ghost function Bars(t: Tree, r: Region): seq<Separator>
    requires Sound(t, 0)
    decreases t, 0
  {
    if t.Leaf? then [] else BarsUpTo(t, r, |t.kids|)
  }

  ghost function BarsUpTo(t: Tree, r: Region, i: nat): seq<Separator>
    requires Sound(t, 0) && t.Split? && i <= |t.kids|
    decreases t, 0, i
  {
    if i == 0 then []
    else
      assert t.kids[i - 1] in t.kids;
      BarsUpTo(t, r, i - 1) + Bars(t.kids[i - 1].tree, ChildRegion(t, r, i - 1)) + GapAfter(t, r, i - 1)
  }

  /** Every node of the tree is assigned the region its split leaves for it. */
  ghost predicate Laid(regions: map<NodeId, Region>, t: Tree, r: Region)
    requires Sound(t, 0)
    decreases t
  {
    && t.id in regions && regions[t.id] == r
    && (t.Split? ==> forall i :: 0 <= i < |t.kids| ==> LaidKid(regions, t, r, i))
  }

  ghost predicate LaidKid(regions: map<NodeId, Region>, t: Tree, r: Region, i: nat)
    requires Sound(t, 0) && t.Split? && i < |t.kids|
    decreases t, 0
  {
    assert t.kids[i] in t.kids;
    Laid(regions, t.kids[i].tree, ChildRegion(t, r, i))
  }

  // ----- the promise: every cell belongs to exactly one leaf or separator

  ghost function LeafHits(regions: map<NodeId, Region>, leaves: seq<LeafRef>, c: Cell): nat {
    if leaves == [] then 0
    else (if leaves[0].id in regions && regions[leaves[0].id].Has(c) then 1 else 0) + LeafHits(regions, leaves[1..], c)
  }

  ghost function BarHits(bars: seq<Separator>, c: Cell): nat {
    if bars == [] then 0 else (if bars[0].region.Has(c) then 1 else 0) + BarHits(bars[1..], c)
  }

  ghost predicate Tiles(regions: map<NodeId, Region>, leaves: seq<LeafRef>, bars: seq<Separator>, outer: Region) {
    forall c :: LeafHits(regions, leaves, c) + BarHits(bars, c) == if outer.Has(c) then 1 else 0
  }

  lemma {:induction false} LeafHitsAppend(regions: map<NodeId, Region>, a: seq<LeafRef>, b: seq<LeafRef>, c: Cell)
    ensures LeafHits(regions, a + b, c) == LeafHits(regions, a, c) + LeafHits(regions, b, c)
  {
    if a == [] {
      assert a + b == b;
    } else {
      assert (a + b)[1..] == a[1..] + b;
      LeafHitsAppend(regions, a[1..], b, c);
    }
  }

  lemma {:induction false} BarHitsAppend(a: seq<Separator>, b: seq<Separator>, c: Cell)
    ensures BarHits(a + b, c) == BarHits(a, c) + BarHits(b, c)
  {
    if a == [] {
      assert a + b == b;
    } else {
      assert (a + b)[1..] == a[1..] + b;
      BarHitsAppend(a[1..], b, c);
    }
  }

  lemma {:induction false} ExtentsFit(t: Tree, r: Region)
    requires t.Split? && ShareSum(t.kids) && |t.kids| >= 2 && r.NonNegative()
    ensures Sum(Extents(t, r)) == r.Extent(t.axis) - Gaps(t, r)
    ensures forall i :: 0 <= i < |t.kids| ==> 0 <= Extents(t, r)[i]
    ensures Extents(t, r)[..|t.kids|] == Extents(t, r)
  {
    var shares, content := Shares(t.kids), r.Extent(t.axis) - Gaps(t, r);
    ApportionSum(shares, content);
    forall i | 0 <= i < |t.kids| ensures 0 <= Extents(t, r)[i] {
      ApportionQuota(shares, content, i);
    }
  }

  /** The part of a split's region taken by its first i children and the separators behind them. */
  ghost function Strip(t: Tree, r: Region, i: nat): Region
    requires t.Split? && ShareSum(t.kids) && i <= |t.kids|
  {
    r.Slice(t.axis, r.Start(t.axis), if i < |t.kids| then Offset(t, r, i) else r.Extent(t.axis))
  }

  lemma {:induction false} StripStep(t: Tree, r: Region, i: nat, c: Cell)
    requires t.Split? && ShareSum(t.kids) && |t.kids| >= 2 && r.NonNegative() && i < |t.kids|
    ensures (if Strip(t, r, i + 1).Has(c) then 1 else 0)
         == (if Strip(t, r, i).Has(c) then 1 else 0) + (if ChildRegion(t, r, i).Has(c) then 1 else 0)
         + BarHits(GapAfter(t, r, i), c)
    ensures ChildRegion(t, r, i).NonNegative()
  {
    hide Apportion, Sum, Extents;
    ExtentsFit(t, r);
    PrefixSum(Extents(t, r), i);
    PrefixNonNegative(Extents(t, r), i);
    var gap := GapAfter(t, r, i);
    if gap != [] {
      assert gap[1..] == [];
    }
    assert i + 1 == |t.kids| ==> Offset(t, r, i) + Extents(t, r)[i] == r.Extent(t.axis);
    assert i + 1 < |t.kids| ==>
             Offset(t, r, i + 1) == Offset(t, r, i) + Extents(t, r)[i] + (if Gaps(t, r) > 0 then 1 else 0);
  }

  lemma {:induction false} PrefixNonNegative(s: seq<int>, i: nat)
    requires i <= |s| && forall j :: 0 <= j < |s| ==> 0 <= s[j]
    ensures Sum(s[..i]) >= 0
  {
    SumNonNegative(s[..i]);
  }

  lemma {:induction false} TreeTiles(regions: map<NodeId, Region>, t: Tree, r: Region, c: Cell)
    requires Sound(t, 0) && 0 !in Bag(t) && Laid(regions, t, r) && r.NonNegative()
    ensures LeafHits(regions, Leaves(t), c) + BarHits(Bars(t, r), c) == if r.Has(c) then 1 else 0
    decreases t, 1
  {
    if t.Leaf? {
      assert Leaves(t)[1..] == [];
    } else {
      assert t.kids[..|t.kids|] == t.kids;
      KidsTile(regions, t, r, |t.kids|, c);
    }
  }

  lemma {:induction false} KidsTile(regions: map<NodeId, Region>, t: Tree, r: Region, i: nat, c: Cell)
    requires Sound(t, 0) && 0 !in Bag(t) && t.Split? && i <= |t.kids| && Laid(regions, t, r) && r.NonNegative()
    ensures LeafHits(regions, LeavesKids(t.kids[..i]), c) + BarHits(BarsUpTo(t, r, i), c)
              == if Strip(t, r, i).Has(c) then 1 else 0
    decreases t, 0, i
  {
    hide Apportion, Extents, GapAfter, ChildRegion, Gaps, Strip, LeafHits, BarHits, Leaves, LeavesKids;
    if i == 0 {
      StripNone(t, r, c);
      NoHits(regions, c);
    } else {
      var k := t.kids[i - 1].tree;
      assert t.kids[i - 1] in t.kids && LaidKid(regions, t, r, i - 1);
      KidBag(t.kids, t.kids[i - 1]);
      KidsTile(regions, t, r, i - 1, c);
      StripStep(t, r, i - 1, c);
      TreeTiles(regions, k, ChildRegion(t, r, i - 1), c);
      LeavesSnoc(t.kids, i - 1);
      LeafHitsAppend(regions, LeavesKids(t.kids[..i - 1]), Leaves(k), c);
      BarHitsAppend(BarsUpTo(t, r, i - 1) + Bars(k, ChildRegion(t, r, i - 1)), GapAfter(t, r, i - 1), c);
      BarHitsAppend(BarsUpTo(t, r, i - 1), Bars(k, ChildRegion(t, r, i - 1)), c);
    }
  }

  lemma {:induction false} NoHits(regions: map<NodeId, Region>, c: Cell)
    ensures LeafHits(regions, [], c) == 0 && BarHits([], c) == 0
  {
  }

  lemma {:induction false} StripNone(t: Tree, r: Region, c: Cell)
    requires t.Split? && ShareSum(t.kids) && |t.kids| >= 2
    ensures !Strip(t, r, 0).Has(c) && LeavesKids(t.kids[..0]) == []
  {
    assert Extents(t, r)[..0] == [];
  }

  /** For every layout and outer rectangle, leaf regions and separators tile the rectangle: each
      cell inside it is in exactly one of them and no other cell is in any. */
  lemma {:induction false} LayoutTiles(regions: map<NodeId, Region>, t: Tree, next: nat, outer: Region)
    requires WellFormed(t, next) && outer.NonNegative() && Laid(regions, t, outer)
    ensures Tiles(regions, Leaves(t), Bars(t, outer), outer)
  {
    forall c ensures LeafHits(regions, Leaves(t), c) + BarHits(Bars(t, outer), c) == if outer.Has(c) then 1 else 0 {
      TreeTiles(regions, t, outer, c);
    }
  }

  /** Every child's extent is strictly within one cell of its exact percentage of the room between
      the separators; a child with percentage zero gets no room at all. */
  lemma {:induction false} ExtentQuota(t: Tree, r: Region, i: nat)
    requires Sound(t, 0) && t.Split? && i < |t.kids| && r.NonNegative()
    ensures var room := r.Extent(t.axis) - Gaps(t, r);
            && -MAX_PERCENTAGE < Extents(t, r)[i] * MAX_PERCENTAGE - t.kids[i].share * room < MAX_PERCENTAGE
            && (t.kids[i].share == 0 ==> Extents(t, r)[i] == 0)
  {
    ApportionQuota(Shares(t.kids), r.Extent(t.axis) - Gaps(t, r), i);
  }

  /** A map that only gains the given ids. */
  ghost predicate Extends(a: map<NodeId, Region>, b: map<NodeId, Region>, ids: multiset<NodeId>) {
    && (forall x :: x in b <==> x in a || x in ids)
    && forall x :: x in a && x !in ids ==> b[x] == a[x]
  }

  lemma {:induction false} ExtendsNone(a: map<NodeId, Region>)
    ensures Extends(a, a, multiset{})
  {
  }

  lemma {:induction false} ExtendsOne(a: map<NodeId, Region>, x: NodeId, r: Region)
    ensures Extends(a, a[x := r], multiset{x})
  {
  }

  lemma {:induction false} ExtendsKeeps(a: map<NodeId, Region>, b: map<NodeId, Region>, ids: multiset<NodeId>,
                                        x: NodeId)
    requires Extends(a, b, ids) && x in a && x !in ids
    ensures x in b && b[x] == a[x]
  {
  }

  lemma {:induction false} ExtendsNew(a: map<NodeId, Region>, b: map<NodeId, Region>, ids: multiset<NodeId>, x: NodeId)
    requires Extends(a, b, ids) && x !in a && x !in ids
    ensures x !in b
  {
  }

  // ----- steps of the calculation

  lemma {:induction false} SplitBag(t: Tree)
    ensures t.Split? ==> Bag(t) == multiset{t.id} + BagKids(t.kids)
    ensures t.Leaf? ==> Bag(t) == multiset{t.id}
    ensures BagKids([]) == multiset{}
    ensures t.Split? && Distinct(Bag(t)) ==> t.id !in BagKids(t.kids)
  {
    if t.Split? {
      DistinctUnion(multiset{t.id}, BagKids(t.kids));
    }
  }

  lemma {:induction false} LeafLaid(regions: map<NodeId, Region>, t: Tree, r: Region)
    requires Sound(t, 0) && 0 !in Bag(t)
    ensures t.Leaf? && t.id in regions && regions[t.id] == r ==> Laid(regions, t, r) && Bars(t, r) == []
    ensures t.Split? ==>
              ShareSum(t.kids) && |t.kids| >= 2 && Sum(Shares(t.kids)) == MAX_PERCENTAGE && NonNegative(Shares(t.kids))
    ensures t.Split? ==> Bars(t, r) == BarsUpTo(t, r, |t.kids|) && BarsUpTo(t, r, 0) == []
    ensures t.Split? ==>
              Gaps(t, r) == (if r.Extent(t.axis) >= |t.kids| - 1 then |t.kids| - 1 else 0) && Offset(t, r, 0) == 0
  {
    if t.Split? {
      assert Extents(t, r)[..0] == [];
    }
  }

  lemma {:induction false} BarsStep(t: Tree, r: Region, i: nat, bars: seq<Separator>)
    requires Sound(t, 0) && t.Split? && i < |t.kids|
    ensures Sound(t.kids[i].tree, 0)
    ensures bars + BarsUpTo(t, r, i) + Bars(t.kids[i].tree, ChildRegion(t, r, i)) + GapAfter(t, r, i)
              == bars + BarsUpTo(t, r, i + 1)
  {
    assert t.kids[i] in t.kids;
  }

  lemma {:induction false} LaidKidIs(regions: map<NodeId, Region>, t: Tree, r: Region, i: nat)
    requires Sound(t, 0) && t.Split? && i < |t.kids|
    ensures Sound(t.kids[i].tree, 0)
    ensures LaidKid(regions, t, r, i) <==> Laid(regions, t.kids[i].tree, ChildRegion(t, r, i))
  {
    assert t.kids[i] in t.kids;
  }

  lemma {:induction false} ExtendsMore(a: map<NodeId, Region>, b: map<NodeId, Region>, c: map<NodeId, Region>,
                                       p: multiset<NodeId>, q: multiset<NodeId>)
    requires Extends(a, b, p) && Extends(b, c, q)
    ensures Extends(a, c, p + q)
  {
  }

  lemma {:induction false} ExtentsAre(t: Tree, r: Region, e: seq<int>)
    requires t.Split? && ShareSum(t.kids) && e == Apportion(Shares(t.kids), r.Extent(t.axis) - Gaps(t, r))
    ensures e == Extents(t, r)
  {
  }

  lemma {:induction false} ChildRegionIs(t: Tree, r: Region, i: nat, e: seq<int>)
    requires t.Split? && ShareSum(t.kids) && i < |t.kids| && e == Extents(t, r)
    ensures ChildRegion(t, r, i) == r.Slice(t.axis, r.Start(t.axis) + Offset(t, r, i), e[i])
  {
  }

  lemma {:induction false} GapIs(t: Tree, r: Region, i: nat, e: seq<int>)
    requires t.Split? && ShareSum(t.kids) && i < |t.kids| && e == Extents(t, r)
    ensures var at := r.Start(t.axis) + Offset(t, r, i) + e[i];
            && GapAfter(t, r, i)
                 == (if Gaps(t, r) > 0 && i + 1 < |t.kids| then [Separator(t.id, t.axis, r.Slice(t.axis, at, 1))]
                     else [])
            && (i + 1 < |t.kids| ==> r.Start(t.axis) + Offset(t, r, i + 1) == at + if Gaps(t, r) > 0 then 1 else 0)
  {
    PrefixSum(Extents(t, r), i);
  }

  /** The next child's nodes are new to the children before it. */
  lemma {:induction false} KidsStep(t: Tree, i: nat)
    requires t.Split? && i < |t.kids| && Distinct(Bag(t)) && Sound(t, 0) && 0 !in Bag(t)
    ensures var k := t.kids[i].tree;
            && t.kids[i] in t.kids && Sound(k, 0) && 0 !in Bag(k) && Distinct(Bag(k))
            && BagKids(t.kids[..i + 1]) == BagKids(t.kids[..i]) + Bag(k)
            && forall x :: x in Bag(k) ==> x in Bag(t) && x !in BagKids(t.kids[..i]) && x != t.id
  {
    hide Sound;
    var ks := t.kids;
    DistinctUnion(multiset{t.id}, BagKids(ks));
    assert ks == ks[..i + 1] + ks[i + 1..];
    BagAppend(ks[..i + 1], ks[i + 1..]);
    BagSnoc(ks, i);
    DistinctUnion(BagKids(ks[..i + 1]), BagKids(ks[i + 1..]));
    DistinctUnion(BagKids(ks[..i]), Bag(ks[i].tree));
    SoundKid(t, i);
  }

  lemma {:induction false} SoundKid(t: Tree, i: nat)
    requires t.Split? && i < |t.kids| && Sound(t, 0)
    ensures t.kids[i] in t.kids && Sound(t.kids[i].tree, 0) && ShareSum(t.kids)
  {
  }

  lemma {:induction false} LaidFrame(a: map<NodeId, Region>, b: map<NodeId, Region>, t: Tree, r: Region)
    requires Sound(t, 0) && t.Split? && t.id in a && a[t.id] == r && t.id in b && b[t.id] == a[t.id]
    requires forall i :: 0 <= i < |t.kids| ==> LaidKid(b, t, r, i)
    ensures Laid(b, t, r)
  {
  }

  lemma {:induction false} LaidKeeps(a: map<NodeId, Region>, b: map<NodeId, Region>, t: Tree, r: Region)
    requires Sound(t, 0) && Laid(a, t, r) && forall x :: x in Bag(t) && x in a ==> x in b && b[x] == a[x]
    ensures Laid(b, t, r)
    decreases t
  {
    if t.Split? {
      forall i | 0 <= i < |t.kids| ensures LaidKid(b, t, r, i) {
        assert t.kids[i] in t.kids && LaidKid(a, t, r, i);
        KidBag(t.kids, t.kids[i]);
        LaidKeeps(a, b, t.kids[i].tree, ChildRegion(t, r, i));
      }
    }
  }

  /** Laying out one more child leaves the earlier ones where they are. */
  lemma {:induction false} LaidFrames(a: map<NodeId, Region>, b: map<NodeId, Region>, t: Tree, r: Region, i: nat)
    requires Sound(t, 0) && t.Split? && i < |t.kids| && Distinct(Bag(t)) && 0 !in Bag(t)
    requires forall j :: 0 <= j < i ==> LaidKid(a, t, r, j)
    requires Extends(a, b, Bag(t.kids[i].tree))
    ensures forall j :: 0 <= j < i ==> LaidKid(b, t, r, j)
  {
    hide Sound, ChildRegion, Bag, Distinct, Laid;
    KidsStep(t, i);
    forall j | 0 <= j < i ensures LaidKid(b, t, r, j) {
      SoundKid(t, j);
      KidBag(t.kids[..i], t.kids[j]);
      assert LaidKid(a, t, r, j);
      LaidKeeps(a, b, t.kids[j].tree, ChildRegion(t, r, j));
    }
  }

  // ----- the calculator

  class PaneGeometry {
    var nodeRegions: map<NodeId, Region>
    var separators: seq<Separator>

    constructor ()
      ensures nodeRegions == map[] && separators == []
    {
      nodeRegions := map[];
      separators := [];
    }

    method Append(n: Nodes, nodeId: NodeId, region: Region, ghost t: Tree, ghost parent: Option<NodeId>)
      requires Holds(n, t, parent) && t.id == nodeId && Sound(t, 0) && 0 !in Bag(t) && Distinct(Bag(t))
               && region.NonNegative()
      requires forall x :: x in Bag(t) ==> x !in nodeRegions
      modifies this
      ensures Laid(nodeRegions, t, region)
      ensures separators == old(separators) + Bars(t, region)
      ensures Extends(old(nodeRegions), nodeRegions, Bag(t))
      decreases t, 1
    {
      hide Apportion, Extents, GapAfter, ChildRegion, Bag, BagKids, Distinct, Bars, BarsUpTo, Laid, LaidKid, Offset;
      hide Sum, Sound, Gaps, Extends;
      nodeRegions := nodeRegions[nodeId := region];
      SplitBag(t);
      LeafLaid(nodeRegions, t, region);
      ExtendsOne(old(nodeRegions), nodeId, region);
      if n[nodeId].IsLeaf() {
        return;
      }
      var axis := n[nodeId].contents.axis;
      var children := n[nodeId].contents.children;
      var fullExtent := region.Extent(axis);
      var requested := |children| - 1;
      var separatorCount := if fullExtent >= requested then requested else 0;
      LinkFacts(t.kids);
      var weights := PaneLayout.Percentages(children);
      var extents := ApportionLoop(weights, fullExtent - separatorCount);
      assert extents == Extents(t, region) by {
        assert weights == Shares(t.kids);
        ExtentsAre(t, region, extents);
      }
      ghost var regions := nodeRegions;
      AppendChildren(n, nodeId, region, axis, children, extents, separatorCount, t);
      ExtendsMore(old(nodeRegions), regions, nodeRegions, multiset{t.id}, BagKids(t.kids));
      ExtendsKeeps(regions, nodeRegions, BagKids(t.kids), t.id);
      LaidFrame(regions, nodeRegions, t, region);
    }

    /** Lay the children of a split out one behind the other, with separators between them if they fit. */
    method AppendChildren(n: Nodes, nodeId: NodeId, region: Region, axis: Axis, children: seq<Child>, extents: seq<int>,
                          separatorCount: int,
                          ghost t: Tree)
      requires t.Split? && HoldsKids(n, t.kids, t.id) && t.id == nodeId && Sound(t, 0) && 0 !in Bag(t)
               && Distinct(Bag(t)) && region.NonNegative()
      requires axis == t.axis && children == Links(t.kids) && ShareSum(t.kids) && |t.kids| >= 2
      requires extents == Extents(t, region) && separatorCount == Gaps(t, region)
      requires forall x :: x in BagKids(t.kids) ==> x !in nodeRegions
      modifies this
      ensures forall i :: 0 <= i < |t.kids| ==> LaidKid(nodeRegions, t, region, i)
      ensures separators == old(separators) + Bars(t, region)
      ensures Extends(old(nodeRegions), nodeRegions, BagKids(t.kids))
      decreases t, 0
    {
      hide Apportion, Extents, GapAfter, ChildRegion, Bag, BagKids, Distinct, Bars, BarsUpTo, Laid, LaidKid, Offset;
      hide Sum, Sound, Gaps, Extends;
      ghost var regions, bars := nodeRegions, separators;
      SplitBag(t);
      LeafLaid(nodeRegions, t, region);
      var cursor := region.Start(axis);
      var index := 0;
      assert t.kids[..0] == [];
      ExtendsNone(regions);
      while index < |children|
        invariant 0 <= index <= |children|
        invariant index < |children| ==> cursor == region.Start(axis) + Offset(t, region, index)
        invariant Extends(regions, nodeRegions, BagKids(t.kids[..index]))
        invariant separators == bars + BarsUpTo(t, region, index)
        invariant forall i :: 0 <= i < index ==> LaidKid(nodeRegions, t, region, i)
      {
        ghost var k, been := t.kids[index].tree, nodeRegions;
        KidsStep(t, index);
        StripStep(t, region, index, Cell(0, 0));
        var childRegion := region.Slice(axis, cursor, extents[index]);
        ChildRegionIs(t, region, index, extents);
        assert children[index] == Child(k.id, t.kids[index].share);
        forall x | x in Bag(k) ensures x !in nodeRegions {
          ExtendsNew(regions, nodeRegions, BagKids(t.kids[..index]), x);
        }
        Append(n, children[index].nodeId, childRegion, k, Some(t.id));
        LaidKidIs(nodeRegions, t, region, index);
        LaidFrames(been, nodeRegions, t, region, index);
        ExtendsMore(regions, been, nodeRegions, BagKids(t.kids[..index]), Bag(k));
        cursor := cursor + extents[index];
        if separatorCount > 0 && index + 1 < |children| {
          separators := separators + [Separator(nodeId, axis, region.Slice(axis, cursor, 1))];
          cursor := cursor + 1;
        }
        GapIs(t, region, index, extents);
        BarsStep(t, region, index, bars);
        index := index + 1;
      }
      assert t.kids[..index] == t.kids;
    }
  }

  /** The geometry of a layout inside a rectangle; negative sizes are rejected. */
  method CalculatePaneGeometry(layout: PaneLayout, outer: Region) returns (r: Outcome<PaneGeometry>)
    requires layout.Valid()
    ensures r.Rejected? <==> !outer.NonNegative()
    ensures r.Done? ==>
              && fresh(r.value) && Laid(r.value.nodeRegions, layout.tree, outer)
              && r.value.separators == Bars(layout.tree, outer)
              && Tiles(r.value.nodeRegions, Leaves(layout.tree), r.value.separators, outer)
              && forall x :: x in r.value.nodeRegions <==> x in layout.nodes
  {
    if outer.rows < 0 || outer.cols < 0 {
      return Rejected;
    }
    var geometry := new PaneGeometry();
    geometry.Append(layout.nodes, layout.root, outer, layout.tree, None);
    LayoutTiles(geometry.nodeRegions, layout.tree, layout.nextNodeValue, outer);
    return Done(geometry);
  }
}
