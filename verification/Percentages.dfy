/** Largest-remainder apportionment: how integer shares are divided among siblings. */
module Percentages {
  import opened Wrappers

  const MAX_PERCENTAGE := 100

  function Sum(s: seq<int>): int {
    if s == [] then 0 else s[0] + Sum(s[1..])
  }

  predicate NonNegative(s: seq<int>) {
    forall i :: 0 <= i < |s| ==> s[i] >= 0
  }

  /** Index j is served before index i: larger remainder first, earlier index on a tie. */
  predicate ServedFirst(rem: seq<int>, j: nat, i: nat)
    requires j < |rem| && i < |rem|
  {
    rem[j] > rem[i] || (rem[j] == rem[i] && j < i)
  }

  function Ahead(rem: seq<int>, i: nat): set<int>
    requires i < |rem|
  {
    set j | 0 <= j < |rem| && ServedFirst(rem, j, i)
  }

  function Rank(rem: seq<int>, i: nat): nat
    requires i < |rem|
  {
    |Ahead(rem, i)|
  }

  function Floors(e: seq<int>, total: int): (f: seq<int>)
    requires Sum(e) > 0
    ensures |f| == |e|
  {
    seq(|e|, i requires 0 <= i < |e| => e[i] * total / Sum(e))
  }

  function Remainders(e: seq<int>, total: int): (f: seq<int>)
    requires Sum(e) > 0
    ensures |f| == |e|
  {
    seq(|e|, i requires 0 <= i < |e| => e[i] * total % Sum(e))
  }

  function Leftover(e: seq<int>, total: int): int
    requires Sum(e) > 0
  {
    total - Sum(Floors(e, total))
  }

  /** Raise by one every index whose rank is below n. */
  function Bumped(f: seq<int>, rem: seq<int>, n: int): (r: seq<int>)
    requires |f| == |rem|
    ensures |r| == |f|
  {
    seq(|f|, i requires 0 <= i < |f| => f[i] + if Rank(rem, i) < n then 1 else 0)
  }

  /** The reference reading of largest-remainder rounding, without any sorting. */
  function Apportion(e: seq<int>, total: int): (r: seq<int>)
    requires Sum(e) > 0
    ensures |r| == |e|
  {
    Bumped(Floors(e, total), Remainders(e, total), Leftover(e, total))
  }

  function Ones(n: nat): (s: seq<int>)
    ensures |s| == n
  {
    seq(n, _ => 1)
  }

  /** All-zero weights count as equal weights. */
  function Effective(w: seq<int>): (e: seq<int>)
    ensures |e| == |w|
  {
    if Sum(w) == 0 then Ones(|w|) else w
  }

  predicate Weights(w: seq<int>) {
    |w| > 0 && NonNegative(w)
  }

  lemma {:induction false} EffectiveSum(w: seq<int>)
    requires Weights(w)
    ensures Sum(Effective(w)) > 0 && Sum(w) >= 0 && NonNegative(Effective(w))
    ensures Sum(Effective(w)) == if Sum(w) == 0 then |w| else Sum(w)
  {
    SumNonNegative(w);
    SumOnes(|w|);
  }

  function Distribute(w: seq<int>, total: int): (r: seq<int>)
    requires Weights(w)
    ensures |r| == |w|
  {
    EffectiveSum(w);
    Apportion(Effective(w), total)
  }

  function Normalize(w: seq<int>): (r: seq<int>)
    requires Weights(w)
    ensures |r| == |w|
  {
    Distribute(w, MAX_PERCENTAGE)
  }

  // ----- sums

  lemma {:induction false} SumAppend(a: seq<int>, b: seq<int>)
    ensures Sum(a + b) == Sum(a) + Sum(b)
  {
    if a == [] {
      assert a + b == b;
    } else {
      SumAppend(a[1..], b);
      assert (a + b)[1..] == a[1..] + b;
    }
  }

  lemma {:induction false} SumUpdate(s: seq<int>, i: nat, v: int)
    requires i < |s|
    ensures Sum(s[i := v]) == Sum(s) - s[i] + v
  {
    if i == 0 {
      assert s[i := v][1..] == s[1..];
    } else {
      SumUpdate(s[1..], i - 1, v);
      assert s[i := v][1..] == s[1..][i - 1 := v];
    }
  }

  lemma {:induction false} SumNonNegative(s: seq<int>)
    requires NonNegative(s)
    ensures Sum(s) >= 0
    ensures Sum(s) == 0 ==> forall i :: 0 <= i < |s| ==> s[i] == 0
  {
    if s != [] {
      SumNonNegative(s[1..]);
      assert forall i :: 1 <= i < |s| ==> s[i] == s[1..][i - 1];
    }
  }

  lemma {:induction false} SumAtLeast(s: seq<int>, i: nat)
    requires NonNegative(s) && i < |s|
    ensures s[i] <= Sum(s)
  {
    SumUpdate(s, i, 0);
    SumNonNegative(s[i := 0]);
  }

  lemma {:induction false} SumOnes(n: nat)
    ensures Sum(Ones(n)) == n
  {
    if n > 0 {
      SumOnes(n - 1);
      assert Ones(n)[1..] == Ones(n - 1);
    }
  }

  /** Sums are linear: the scaled floors and the remainders together make up the scaled weights. */
  lemma {:induction false} SumSplit(f: seq<int>, rem: seq<int>, e: seq<int>, w: int, total: int)
    requires |f| == |rem| == |e|
    requires forall i :: 0 <= i < |e| ==> f[i] * w + rem[i] == e[i] * total
    ensures Sum(f) * w + Sum(rem) == Sum(e) * total
  {
    if e != [] {
      assert forall i ::
               0 <= i < |e[1..]| ==> f[1..][i] == f[i + 1] && rem[1..][i] == rem[i + 1] && e[1..][i] == e[i + 1];
      SumSplit(f[1..], rem[1..], e[1..], w, total);
      assert f[0] * w + rem[0] == e[0] * total;
      Distribute2(f[0], Sum(f[1..]), w);
      Distribute2(e[0], Sum(e[1..]), total);
    }
  }

  // ----- multiplication and division

  lemma {:induction false} Distribute2(a: int, b: int, c: int)
    ensures (a + b) * c == a * c + b * c
  {
  }

  lemma {:induction false} MulNonNegative(a: int, b: int)
    requires a >= 0 && b >= 0
    ensures a * b >= 0
  {
  }

  lemma {:induction false} MulMonotone(a: int, b: int, c: int)
    requires a <= b && c >= 0
    ensures a * c <= b * c
  {
  }

  lemma {:induction false} MulNegative(a: int, w: int)
    requires a < 0 < w
    ensures a * w <= -w
  {
  }

  lemma {:induction false} QuotRem(x: int, w: int)
    requires x >= 0 && w > 0
    ensures x / w >= 0 && 0 <= x % w < w && x / w * w + x % w == x
  {
  }

  /** Quotient and remainder are the only pair that fits. */
  lemma {:induction false} QuotUnique(x: int, w: int, q: int, r: int)
    requires w > 0 && 0 <= r < w && x == q * w + r && x >= 0
    ensures x / w == q && x % w == r
  {
    QuotRem(x, w);
    var d := x / w - q;
    Distribute2(x / w, -q, w);
    assert d * w == r - x % w;
    if d < 0 {
      MulNegative(d, w);
    } else if d > 0 {
      MulNegative(-d, w);
    }
  }

  lemma {:induction false} PartsAt(e: seq<int>, total: int, i: nat)
    requires Sum(e) > 0 && i < |e|
    ensures Floors(e, total)[i] == e[i] * total / Sum(e)
    ensures Remainders(e, total)[i] == e[i] * total % Sum(e)
  {
  }

  lemma {:induction false} Parts(e: seq<int>, total: int, i: nat)
    requires Sum(e) > 0 && NonNegative(e) && total >= 0 && i < |e|
    ensures Floors(e, total)[i] >= 0
    ensures 0 <= Remainders(e, total)[i] < Sum(e)
    ensures Floors(e, total)[i] * Sum(e) + Remainders(e, total)[i] == e[i] * total
  {
    MulNonNegative(e[i], total);
    QuotRem(e[i] * total, Sum(e));
  }

  lemma {:induction false} AllParts(e: seq<int>, total: int)
    requires Sum(e) > 0 && NonNegative(e) && total >= 0
    ensures forall i :: 0 <= i < |e| ==> Floors(e, total)[i] * Sum(e) + Remainders(e, total)[i] == e[i] * total
    ensures forall i :: 0 <= i < |e| ==> 0 <= Remainders(e, total)[i] < Sum(e)
    ensures NonNegative(Floors(e, total)) && NonNegative(Remainders(e, total))
  {
    forall i | 0 <= i < |e|
      ensures Floors(e, total)[i] * Sum(e) + Remainders(e, total)[i] == e[i] * total
      ensures Floors(e, total)[i] >= 0 && 0 <= Remainders(e, total)[i] < Sum(e)
    {
      Parts(e, total, i);
    }
  }

  lemma {:induction false} Isolate(w: int, total: int, floors: int, rems: int)
    requires w > 0 && rems >= 0 && floors * w + rems == w * total
    ensures (total - floors) * w == rems && total - floors >= 0
  {
    Distribute2(total, -floors, w);
    if total - floors < 0 {
      MulNegative(total - floors, w);
    }
  }

  /** What the floors leave over is exactly the remainders, in units of the weight sum. */
  lemma {:induction false} LeftoverIsRemainders(e: seq<int>, total: int)
    requires Sum(e) > 0 && NonNegative(e) && total >= 0
    ensures Leftover(e, total) * Sum(e) == Sum(Remainders(e, total))
    ensures Leftover(e, total) >= 0
  {
    AllParts(e, total);
    SumSplit(Floors(e, total), Remainders(e, total), e, Sum(e), total);
    SumNonNegative(Remainders(e, total));
    Isolate(Sum(e), total, Sum(Floors(e, total)), Sum(Remainders(e, total)));
  }

  function Positive(rem: seq<int>): set<int> {
    set i | 0 <= i < |rem| && rem[i] > 0
  }

  lemma {:induction false} PositiveSnoc(rem: seq<int>, x: int)
    ensures Positive(rem + [x]) == Positive(rem) + if x > 0 then {|rem|} else {}
    ensures |Positive(rem + [x])| == |Positive(rem)| + if x > 0 then 1 else 0
  {
    assert |rem| !in Positive(rem);
    assert Positive(rem + [x]) == Positive(rem) + if x > 0 then {|rem|} else {};
  }

  /** A sum of remainders is bounded by how many of them are positive. */
  lemma {:induction false} PositiveBound(rem: seq<int>, m: int)
    requires forall i :: 0 <= i < |rem| ==> 0 <= rem[i] <= m
    ensures Sum(rem) <= |Positive(rem)| * m
  {
    if rem != [] {
      var n := |rem| - 1;
      PositiveBound(rem[..n], m);
      assert rem == rem[..n] + [rem[n]];
      SumAppend(rem[..n], [rem[n]]);
      PositiveSnoc(rem[..n], rem[n]);
      Distribute2(|Positive(rem[..n])|, 1, m);
    }
  }

  lemma {:induction false} BoundedCard(s: set<int>, n: nat)
    requires forall x :: x in s ==> 0 <= x < n
    ensures |s| <= n
  {
    if n == 0 {
      assert forall x :: x !in s;
      assert s == {};
    } else {
      var s' := s - {n - 1};
      BoundedCard(s', n - 1);
      CardMono(s, s' + {n - 1});
    }
  }

  lemma {:induction false} CardMono(a: set<int>, b: set<int>)
    requires a <= b
    ensures |a| <= |b|
    ensures forall x :: x in b && x !in a ==> |a| < |b|
  {
    assert b == a + (b - a);
    forall x | x in b && x !in a ensures |a| < |b| {
      assert x in b - a;
    }
  }

  lemma {:induction false} FewerThan(l: int, p: int, w: int)
    requires l >= 0 && p >= 0 && w > 0 && l * w <= p * (w - 1)
    ensures l > 0 ==> l < p
  {
    if l >= p {
      MulMonotone(p, l, w - 1);
      Distribute2(w - 1, 1, l);
    }
  }

  /** Fewer units are left over than there are positive remainders, so the hand-out loop
      stays inside the index order, and a unit never goes to a zero remainder. */
  lemma {:induction false} LeftoverBound(e: seq<int>, total: int)
    requires Sum(e) > 0 && NonNegative(e) && total >= 0
    ensures 0 <= Leftover(e, total) < |e|
    ensures forall i: nat :: i < |e| && Rank(Remainders(e, total), i) < Leftover(e, total)
              ==> Remainders(e, total)[i] > 0
  {
    var rem, w, l := Remainders(e, total), Sum(e), Leftover(e, total);
    LeftoverIsRemainders(e, total);
    AllParts(e, total);
    PositiveBound(rem, w - 1);
    FewerThan(l, |Positive(rem)|, w);
    BoundedCard(Positive(rem), |rem|);
    assert e != [];
    forall i: nat | i < |e| && Rank(rem, i) < l ensures rem[i] > 0 {
      if rem[i] == 0 {
        assert Positive(rem) <= Ahead(rem, i);
        CardMono(Positive(rem), Ahead(rem, i));
      }
    }
  }

  // ----- ranks

  lemma {:induction false} RankStrict(rem: seq<int>, j: nat, i: nat)
    requires i < |rem| && j < |rem|
    requires ServedFirst(rem, j, i)
    ensures Rank(rem, j) < Rank(rem, i)
  {
    assert Ahead(rem, j) <= Ahead(rem, i);
    assert j in Ahead(rem, i) && j !in Ahead(rem, j);
    CardMono(Ahead(rem, j), Ahead(rem, i));
  }

  /** The indices of rem listed from most to least deserving. */
  ghost predicate IsOrder(rem: seq<int>, order: seq<int>) {
    && |order| == |rem|
    && InRange(order, |rem|)
    && Ordered(rem, order)
    && forall i :: 0 <= i < |rem| ==> i in order
  }

  function Elements(order: seq<int>): set<int> {
    set x | x in order
  }

  predicate InRange(order: seq<int>, n: nat) {
    forall k :: 0 <= k < |order| ==> 0 <= order[k] < n
  }

  predicate Ordered(rem: seq<int>, order: seq<int>)
    requires InRange(order, |rem|)
  {
    forall a, b :: 0 <= a < b < |order| ==> ServedFirst(rem, order[a], order[b])
  }

  lemma {:induction false} PrefixCard(order: seq<int>, k: nat)
    requires k <= |order| && forall a, b :: 0 <= a < b < |order| ==> order[a] != order[b]
    ensures |Elements(order[..k])| == k
  {
    if k == 0 {
      assert Elements(order[..k]) == {};
    } else {
      PrefixCard(order, k - 1);
      assert order[..k] == order[..k - 1] + [order[k - 1]];
      assert Elements(order[..k]) == Elements(order[..k - 1]) + {order[k - 1]};
    }
  }

  /** Sorting and ranking agree: the k-th index of the order is the one with k indices ahead. */
  lemma {:induction false} OrderRank(rem: seq<int>, order: seq<int>, k: nat)
    requires IsOrder(rem, order) && k < |order|
    ensures Rank(rem, order[k]) == k
  {
    assert forall a, b :: 0 <= a < b < |order| ==> ServedFirst(rem, order[a], order[b]);
    PrefixCard(order, k);
    forall x | x in Ahead(rem, order[k]) ensures x in Elements(order[..k]) {
      assert x in order;
      var a :| 0 <= a < |order| && order[a] == x;
      assert order[..k][a] == x;
    }
    assert Ahead(rem, order[k]) == Elements(order[..k]);
  }

  /** Handing out one more unit touches exactly the next index of the order. */
  lemma {:induction false} BumpStep(f: seq<int>, rem: seq<int>, order: seq<int>, k: nat)
    requires |f| == |rem| && IsOrder(rem, order) && k < |order|
    ensures Bumped(f, rem, k + 1) == Bumped(f, rem, k)[order[k] := Bumped(f, rem, k)[order[k]] + 1]
  {
    OrderRank(rem, order, k);
    forall i: nat | i < |f| && i != order[k] ensures Rank(rem, i) != k {
      assert i in order;
      var a :| 0 <= a < |order| && order[a] == i;
      OrderRank(rem, order, a);
    }
  }

  lemma {:induction false} BumpNone(f: seq<int>, rem: seq<int>)
    requires |f| == |rem|
    ensures Bumped(f, rem, 0) == f
  {
  }

  lemma {:induction false} BumpedSum(f: seq<int>, rem: seq<int>, order: seq<int>, n: nat)
    requires |f| == |rem| && IsOrder(rem, order) && n <= |f|
    ensures Sum(Bumped(f, rem, n)) == Sum(f) + n
  {
    if n == 0 {
      BumpNone(f, rem);
    } else {
      BumpedSum(f, rem, order, n - 1);
      BumpStep(f, rem, order, n - 1);
      SumUpdate(Bumped(f, rem, n - 1), order[n - 1], Bumped(f, rem, n - 1)[order[n - 1]] + 1);
    }
  }

  /** Insert index i behind every earlier index that is at least as deserving. */
  function SlotFor(rem: seq<int>, order: seq<int>, i: nat): (k: nat)
    requires InRange(order, |rem|) && i < |rem|
    ensures k <= |order|
    ensures forall a :: 0 <= a < k ==> rem[order[a]] >= rem[i]
    ensures k < |order| ==> rem[order[k]] < rem[i]
  {
    if order == [] || rem[order[0]] < rem[i] then 0 else 1 + SlotFor(rem, order[1..], i)
  }

  lemma {:induction false} OrderExists(rem: seq<int>, n: nat) returns (order: seq<int>)
    requires n <= |rem|
    ensures |order| == n && InRange(order, n) && Ordered(rem, order)
    ensures forall i :: 0 <= i < n ==> i in order
  {
    if n == 0 {
      order := [];
    } else {
      var o := OrderExists(rem, n - 1);
      var k := SlotFor(rem, o, n - 1);
      order := o[..k] + [n - 1] + o[k..];
      InsertKeepsOrder(rem, o, k, n - 1);
    }
  }

  lemma {:induction false} InsertKeepsOrder(rem: seq<int>, o: seq<int>, k: nat, i: nat)
    requires i < |rem| && InRange(o, i) && Ordered(rem, o) && |o| == i && k <= |o|
    requires forall a :: 0 <= a < k ==> rem[o[a]] >= rem[i]
    requires k < |o| ==> rem[o[k]] < rem[i]
    requires forall x :: 0 <= x < i ==> x in o
    ensures InRange(o[..k] + [i] + o[k..], i + 1)
    ensures Ordered(rem, o[..k] + [i] + o[k..])
    ensures forall x :: 0 <= x < i + 1 ==> x in o[..k] + [i] + o[k..]
  {
    var r := o[..k] + [i] + o[k..];
    forall a, b | 0 <= a < b < |r| ensures ServedFirst(rem, r[a], r[b]) {
      if k < |o| && k < b {
        assert o[k] == o[b - 1] || ServedFirst(rem, o[k], o[b - 1]);
      }
    }
    forall x | 0 <= x < i + 1 ensures x in r {
      if x < i {
        assert x in o && o == o[..k] + o[k..];
        assert x in o[..k] || x in o[k..];
      }
    }
  }

  // ----- what apportionment promises

  /** Nothing is lost and nothing is invented: the shares add up to the total. */
  lemma {:induction false} ApportionSum(e: seq<int>, total: int)
    requires Sum(e) > 0 && NonNegative(e) && total >= 0
    ensures Sum(Apportion(e, total)) == total
  {
    LeftoverBound(e, total);
    var order := OrderExists(Remainders(e, total), |e|);
    BumpedSum(Floors(e, total), Remainders(e, total), order, Leftover(e, total));
  }

  /** Every share is non-negative and strictly within one of its exact quota e[i] * total / Sum(e). */
  lemma {:induction false} ApportionQuota(e: seq<int>, total: int, i: nat)
    requires Sum(e) > 0 && NonNegative(e) && total >= 0 && i < |e|
    ensures 0 <= Apportion(e, total)[i] <= total
    ensures -Sum(e) < Apportion(e, total)[i] * Sum(e) - e[i] * total < Sum(e)
  {
    hide Floors, Remainders, Leftover, Rank, Sum;
    var f, rem, w := Floors(e, total), Remainders(e, total), Sum(e);
    AllParts(e, total);
    LeftoverBound(e, total);
    assert Apportion(e, total)[i] == f[i] || (Apportion(e, total)[i] == f[i] + 1 && rem[i] > 0);
    NextMultiple(f[i], rem[i], w, e[i] * total);
    ApportionSum(e, total);
    assert NonNegative(Apportion(e, total));
    SumAtLeast(Apportion(e, total), i);
  }

  lemma {:induction false} NextMultiple(f: int, r: int, w: int, x: int)
    requires 0 <= r < w && f * w + r == x
    ensures -w < f * w - x <= 0
    ensures r > 0 ==> 0 < (f + 1) * w - x < w
  {
    Distribute2(f, 1, w);
  }

  lemma {:induction false} SmallerQuotient(f: int, r: int, g: int, q: int, w: int)
    requires 0 <= r < w && 0 <= q < w && f * w + r <= g * w + q
    ensures f < g || (f == g && r <= q)
  {
    if f > g {
      MulMonotone(g + 1, f, w);
      Distribute2(g, 1, w);
    }
  }

  /** A strictly larger weight never receives less; equal weights favour the earlier index. */
  lemma {:induction false} ApportionMonotone(e: seq<int>, total: int, i: nat, j: nat)
    requires Sum(e) > 0 && NonNegative(e) && total >= 0 && i < |e| && j < |e|
    requires e[i] > e[j] || (e[i] == e[j] && i <= j)
    ensures Apportion(e, total)[i] >= Apportion(e, total)[j]
  {
    var f, rem := Floors(e, total), Remainders(e, total);
    AllParts(e, total);
    MulMonotone(e[j], e[i], total);
    SmallerQuotient(f[j], rem[j], f[i], rem[i], Sum(e));
    if f[i] == f[j] && i != j {
      if e[i] > e[j] && total > 0 && rem[i] == rem[j] {
        MulMonotone(e[j] + 1, e[i], total);
        Distribute2(e[j], 1, total);
      } else if total == 0 {
        ApportionQuota(e, total, i);
        ApportionQuota(e, total, j);
      } else {
        RankStrict(rem, i, j);
      }
    }
  }

  /** Weights that already add up to the total are left alone. */
  lemma {:induction false} ApportionFixedPoint(e: seq<int>, total: int)
    requires Sum(e) == total > 0 && NonNegative(e)
    ensures Apportion(e, total) == e
  {
    var f, rem := Floors(e, total), Remainders(e, total);
    LeftoverBound(e, total);
    forall i: nat | i < |e| ensures f[i] == e[i] {
      MulNonNegative(e[i], total);
      QuotUnique(e[i] * total, total, e[i], 0);
    }
    assert f == e;
  }

  /** The same promises, for raw sibling weights. */
  lemma {:induction false} DistributeSum(w: seq<int>, total: int)
    requires Weights(w) && total >= 0
    ensures Sum(Distribute(w, total)) == total
    ensures forall i :: 0 <= i < |w| ==> 0 <= Distribute(w, total)[i] <= total
  {
    EffectiveSum(w);
    ApportionSum(Effective(w), total);
    forall i: nat | i < |w| ensures 0 <= Distribute(w, total)[i] <= total {
      ApportionQuota(Effective(w), total, i);
    }
  }

  lemma {:induction false} DistributeQuota(w: seq<int>, total: int, i: nat)
    requires Weights(w) && total >= 0 && i < |w|
    ensures Sum(w) > 0 ==> -Sum(w) < Distribute(w, total)[i] * Sum(w) - w[i] * total < Sum(w)
    ensures Sum(w) == 0 ==> -|w| < Distribute(w, total)[i] * |w| - total < |w|
  {
    EffectiveSum(w);
    ApportionQuota(Effective(w), total, i);
  }

  lemma {:induction false} DistributeMonotone(w: seq<int>, total: int, i: nat, j: nat)
    requires Weights(w) && total >= 0 && i < |w| && j < |w|
    requires w[i] > w[j] || (w[i] == w[j] && i <= j)
    ensures Distribute(w, total)[i] >= Distribute(w, total)[j]
  {
    EffectiveSum(w);
    SumNonNegative(w);
    ApportionMonotone(Effective(w), total, i, j);
  }

  lemma {:induction false} DistributeFixedPoint(w: seq<int>)
    requires Weights(w)
    ensures Distribute(w, Sum(w)) == w
  {
    hide Floors, Remainders, Bumped, Leftover;
    EffectiveSum(w);
    SumNonNegative(w);
    if Sum(w) > 0 {
      ApportionFixedPoint(w, Sum(w));
    } else {
      DistributeSum(w, 0);
      assert Distribute(w, 0) == w;
    }
  }

  // ----- regrouping and ungrouping

  lemma {:induction false} SumPointwise(a: seq<int>, b: seq<int>)
    requires |a| == |b| && forall i :: 0 <= i < |a| ==> a[i] <= b[i]
    ensures Sum(a) <= Sum(b)
    ensures Sum(a) == Sum(b) ==> a == b
  {
    if a != [] {
      assert forall i :: 0 <= i < |a[1..]| ==> a[1..][i] == a[i + 1] && b[1..][i] == b[i + 1];
      SumPointwise(a[1..], b[1..]);
      if Sum(a) == Sum(b) {
        assert a == [a[0]] + a[1..] && b == [b[0]] + b[1..];
      }
    }
  }

  /** One share seen twice: x = w*t was split as f*s + m, and p = f or f + 1 is now scaled back by s. */
  lemma {:induction false} ScaleBack(w: int, t: int, s: int, f: int, m: int, up: bool, p: int)
    requires 0 < s <= t && 0 <= m < s && w * t == f * s + m && (up ==> m > 0) && w >= 0 && f >= 0
    requires p == f + if up then 1 else 0
    ensures p * s / t == (if !up && m > 0 then w - 1 else w)
    ensures p * s % t == (if up then s - m else if m > 0 then t - m else 0)
  {
    Distribute2(f, if up then 1 else 0, s);
    MulNonNegative(p, s);
    Distribute2(w, -1, t);
    if !up && m > 0 {
      QuotUnique(p * s, t, w - 1, t - m);
    } else {
      QuotUnique(p * s, t, w, if up then s - m else 0);
    }
  }

  predicate RoundedDown(w: seq<int>, t: int, i: nat)
    requires Sum(w) > 0 && i < |w|
  {
    Apportion(w, t)[i] == Floors(w, t)[i] && Remainders(w, t)[i] > 0
  }

  /** Quotient and remainder when share i of the first distribution is scaled back. */
  lemma {:induction false} SecondParts(w: seq<int>, t: int, i: nat)
    requires Weights(w) && 0 < Sum(w) <= t && i < |w|
    requires Sum(Apportion(w, t)) == t
    ensures Floors(Apportion(w, t), Sum(w))[i] == if RoundedDown(w, t, i) then w[i] - 1 else w[i]
    ensures Remainders(Apportion(w, t), Sum(w))[i]
         == if RoundedDown(w, t, i) then t - Remainders(w, t)[i]
            else if Remainders(w, t)[i] == 0 then 0 else Sum(w) - Remainders(w, t)[i]
  {
    hide Floors, Remainders, Leftover, Rank, Sum;
    AllParts(w, t);
    LeftoverBound(w, t);
    var f, m := Floors(w, t), Remainders(w, t);
    PartsAt(Apportion(w, t), Sum(w), i);
    ScaleBack(w[i], t, Sum(w), f[i], m[i], Rank(m, i) < Leftover(w, t), Apportion(w, t)[i]);
  }

  /** The indices rounded down by the first distribution are served first by the second. */
  lemma {:induction false} RoundedDownFirst(w: seq<int>, t: int, i: nat, j: nat)
    requires Weights(w) && 0 < Sum(w) <= t && i < |w| && j < |w|
    requires Sum(Apportion(w, t)) == t
    requires RoundedDown(w, t, i) && !RoundedDown(w, t, j)
    ensures ServedFirst(Remainders(Apportion(w, t), Sum(w)), i, j)
  {
    SecondParts(w, t, i);
    SecondParts(w, t, j);
    var m := Remainders(w, t);
    AllParts(w, t);
    if m[j] > 0 {
      if ServedFirst(m, i, j) {
        RankStrict(m, i, j);
      }
      assert m[j] >= m[i];
    }
    if Sum(w) == t {
      ApportionFixedPoint(w, t);
      Multiples(w[i], t);
    }
  }

  lemma {:induction false} Multiples(x: int, w: int)
    requires w > 0 && x >= 0
    ensures x * w % w == 0
  {
    MulNonNegative(x, w);
    QuotUnique(x * w, w, x, 0);
  }

  lemma {:induction false} ApportionRoundTrip(w: seq<int>, t: int)
    requires Weights(w) && 0 < Sum(w) <= t && Sum(Apportion(w, t)) == t && NonNegative(Apportion(w, t))
    ensures Apportion(Apportion(w, t), Sum(w)) == w
  {
    var p, s := Apportion(w, t), Sum(w);
    var r, n := Apportion(p, s), Remainders(p, s);
    ApportionSum(p, s);
    forall i: nat | i < |w| ensures r[i] == w[i] - (if RoundedDown(w, t, i) then 1 else 0)
                                          + if Rank(n, i) < Leftover(p, s) then 1 else 0 {
      SecondParts(w, t, i);
    }
    if j: nat :| j < |w| && !RoundedDown(w, t, j) && Rank(n, j) < Leftover(p, s) {
      NoneShort(w, t, j);
      SumPointwise(w, r);
    } else {
      SumPointwise(r, w);
    }
  }

  /** If a share that was not rounded down gets a unit back, every rounded-down share does too. */
  lemma {:induction false} NoneShort(w: seq<int>, t: int, j: nat)
    requires Weights(w) && 0 < Sum(w) <= t && Sum(Apportion(w, t)) == t && j < |w|
    requires !RoundedDown(w, t, j)
    requires Rank(Remainders(Apportion(w, t), Sum(w)), j) < Leftover(Apportion(w, t), Sum(w))
    ensures forall i :: 0 <= i < |w| ==> w[i] <= Apportion(Apportion(w, t), Sum(w))[i]
  {
    hide Floors, Remainders;
    forall i: nat | i < |w| ensures w[i] <= Apportion(Apportion(w, t), Sum(w))[i] {
      SecondParts(w, t, i);
      if RoundedDown(w, t, i) {
        RoundedDownFirst(w, t, i, j);
        RankStrict(Remainders(Apportion(w, t), Sum(w)), i, j);
      }
    }
  }

  /** Spreading shares over a larger total and gathering them back restores them exactly. */
  lemma {:induction false} DistributeRoundTrip(w: seq<int>, t: int)
    requires Weights(w) && Sum(w) <= t && 0 < t
    ensures Weights(Distribute(w, t))
    ensures Distribute(Distribute(w, t), Sum(w)) == w
  {
    DistributeSum(w, t);
    EffectiveSum(w);
    if Sum(w) == 0 {
      DistributeSum(Distribute(w, t), 0);
      SumNonNegative(w);
      assert Distribute(Distribute(w, t), 0) == w;
    } else {
      ApportionRoundTrip(w, t);
    }
  }

  // ----- equal shares

  function EqualShares(count: nat): (r: seq<int>)
    requires count > 0
    ensures |r| == count
  {
    seq(count, i => MAX_PERCENTAGE / count + if i < MAX_PERCENTAGE % count then 1 else 0)
  }

  lemma {:induction false} SumConstant(s: seq<int>, c: int)
    requires forall i :: 0 <= i < |s| ==> s[i] == c
    ensures Sum(s) == |s| * c
  {
    if s != [] {
      SumConstant(s[1..], c);
      Distribute2(|s| - 1, 1, c);
    }
  }

  /** The closed form used for equal shares is what normalizing equal weights gives. */
  lemma {:induction false} EqualIsNormalizedOnes(count: nat)
    requires count > 0
    ensures EqualShares(count) == Normalize(Ones(count))
  {
    var e := Ones(count);
    SumOnes(count);
    var rem := Remainders(e, MAX_PERCENTAGE);
    assert Floors(e, MAX_PERCENTAGE) == seq(count, _ => MAX_PERCENTAGE / count);
    SumConstant(Floors(e, MAX_PERCENTAGE), MAX_PERCENTAGE / count);
    QuotRem(MAX_PERCENTAGE, count);
    EqualRanks(rem, MAX_PERCENTAGE % count);
  }

  lemma {:induction false} EqualRanks(rem: seq<int>, c: int)
    requires forall i :: 0 <= i < |rem| ==> rem[i] == c
    ensures forall i: nat :: i < |rem| ==> Rank(rem, i) == i
  {
    var order := seq(|rem|, i => i);
    forall i | 0 <= i < |rem| ensures i in order {
      assert order[i] == i;
    }
    forall i: nat | i < |rem| ensures Rank(rem, i) == i {
      OrderRank(rem, order, i);
    }
  }

  // ----- the loops

  /** The standard library's stable sort of 0..|rem| by decreasing remainder. */
  method StableOrder(rem: seq<int>) returns (order: seq<int>)
    ensures IsOrder(rem, order)
  {
    order := [];
    var i := 0;
    while i < |rem|
      invariant 0 <= i <= |rem| && |order| == i
      invariant InRange(order, i) && Ordered(rem, order)
      invariant forall x :: 0 <= x < i ==> x in order
    {
      var k := SlotFor(rem, order, i);
      InsertKeepsOrder(rem, order, k, i);
      order := order[..k] + [i] + order[k..];
      i := i + 1;
    }
  }

  lemma {:induction false} PrefixSum(s: seq<int>, i: nat)
    requires i < |s|
    ensures Sum(s[..i + 1]) == Sum(s[..i]) + s[i]
  {
    SumAppend(s[..i], [s[i]]);
    assert s[..i + 1] == s[..i] + [s[i]];
  }

  /** Floors first, then one unit each to the largest remainders. */
  method ApportionLoop(e: seq<int>, total: int) returns (result: seq<int>)
    requires Sum(e) > 0 && NonNegative(e) && total >= 0
    ensures result == Apportion(e, total)
    ensures Sum(result) == total
  {
    var sum := Total(e);
    result := [];
    var remainders := [];
    var given := 0;
    var index := 0;
    while index < |e|
      invariant 0 <= index <= |e|
      invariant result == Floors(e, total)[..index]
      invariant remainders == Remainders(e, total)[..index]
      invariant given == Sum(result)
    {
      var scaled := e[index] * total;
      PrefixSum(Floors(e, total), index);
      result := result + [scaled / sum];
      remainders := remainders + [scaled % sum];
      given := given + result[index];
      index := index + 1;
    }
    assert result == Floors(e, total) && remainders == Remainders(e, total);
    var order := StableOrder(remainders);
    LeftoverBound(e, total);
    BumpNone(result, remainders);
    var offset := 0;
    while offset < total - given
      invariant 0 <= offset <= total - given
      invariant result == Bumped(Floors(e, total), remainders, offset)
    {
      BumpStep(Floors(e, total), remainders, order, offset);
      result := result[order[offset] := result[order[offset]] + 1];
      offset := offset + 1;
    }
    ApportionSum(e, total);
  }

  method Total(s: seq<int>) returns (sum: int)
    ensures sum == Sum(s)
  {
    sum := 0;
    var i := 0;
    while i < |s|
      invariant 0 <= i <= |s| && sum == Sum(s[..i])
    {
      PrefixSum(s, i);
      sum := sum + s[i];
      i := i + 1;
    }
    assert s[..i] == s;
  }

  /** Divide a percentage total among weights; empty or negative weights and totals outside
      0..100 are rejected. */
  method DistributePercentageTotal(weights: seq<int>, total: int) returns (result: Outcome<seq<int>>)
    ensures result.Rejected? <==> !Weights(weights) || total < 0 || total > MAX_PERCENTAGE
    ensures result.Done? ==> result.value == Distribute(weights, total)
    ensures result.Done? ==> Sum(result.value) == total && |result.value| == |weights|
    ensures result.Done? ==> forall i :: 0 <= i < |weights| ==> 0 <= result.value[i] <= total
  {
    if |weights| == 0 || (exists i :: 0 <= i < |weights| && weights[i] < 0) || total < 0 || total > MAX_PERCENTAGE {
      return Rejected;
    }
    EffectiveSum(weights);
    var sum := Total(weights);
    var shares := ApportionLoop(if sum == 0 then Ones(|weights|) else weights, total);
    DistributeSum(weights, total);
    return Done(shares);
  }

  method NormalizePercentages(weights: seq<int>) returns (result: Outcome<seq<int>>)
    ensures result.Rejected? <==> !Weights(weights)
    ensures result.Done? ==> result.value == Normalize(weights)
    ensures result.Done? ==> Sum(result.value) == MAX_PERCENTAGE && |result.value| == |weights|
    ensures result.Done? ==> forall i :: 0 <= i < |weights| ==> 0 <= result.value[i] <= MAX_PERCENTAGE
  {
    result := DistributePercentageTotal(weights, MAX_PERCENTAGE);
  }

  method EqualPercentages(count: int) returns (result: Outcome<seq<int>>)
    ensures result.Rejected? <==> count <= 0
    ensures result.Done? ==> result.value == Normalize(Ones(count))
  {
    if count <= 0 {
      return Rejected;
    }
    var base := MAX_PERCENTAGE / count;
    var remainder := MAX_PERCENTAGE % count;
    var shares := [];
    var index := 0;
    while index < count
      invariant 0 <= index <= count
      invariant shares == EqualShares(count)[..index]
    {
      shares := shares + [base + if index < remainder then 1 else 0];
      index := index + 1;
    }
    EqualIsNormalizedOnes(count);
    return Done(shares);
  }
}
