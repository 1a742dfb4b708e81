/** When shares that were scaled down into a slot and back up again come out as they went in. */
module RoundedShares {
  import opened Percentages

  /** How far share i of a distribution lies above its exact part of the slot, in hundredths of a point. */
  function Excess(w: seq<int>, slot: int, i: nat): int
    requires Weights(w) && i < |w|
  {
    MAX_PERCENTAGE * Distribute(w, slot)[i] - w[i] * slot
  }

  /** No share was rounded by a whole slot, and every share rounded down lost more, measured from the
      slot, than any other share gained; on a tie it comes first. */
  ghost predicate RoundsBack(w: seq<int>, slot: int)
    requires Weights(w)
  {
    && (forall i: nat :: i < |w| ==> -slot < Excess(w, slot, i) < slot)
    && (forall i: nat, j: nat :: i < |w| && j < |w| && Excess(w, slot, i) < 0 <= Excess(w, slot, j) ==>
          || Excess(w, slot, j) - Excess(w, slot, i) < slot
          || (Excess(w, slot, j) - Excess(w, slot, i) == slot && i < j))
  }

  /** An empty slot keeps no memory of the shares: they come back equal. */
  ghost predicate Restorable(w: seq<int>, slot: int)
    requires Weights(w)
  {
    if slot == 0 then w == EqualShares(|w|) else RoundsBack(w, slot)
  }

  /** The shares of a slot, distributed and then normalized, are the old shares exactly when they are
      restorable. */
  lemma {:induction false} RestoredIff(w: seq<int>, slot: int)
    requires Weights(w) && Sum(w) == MAX_PERCENTAGE && 0 <= slot <= MAX_PERCENTAGE
    ensures Weights(Distribute(w, slot))
    ensures Normalize(Distribute(w, slot)) == w <==> Restorable(w, slot)
  {
    hide Sum, Distribute, RoundsBack;
    DistributeSum(w, slot);
    if slot == 0 {
      EmptySlot(w);
    } else if RoundsBack(w, slot) {
      BackIfRoundsBack(w, slot);
    } else if Normalize(Distribute(w, slot)) == w {
      RoundsBackIfBack(w, slot);
    }
  }

  lemma {:induction false} EmptySlot(w: seq<int>)
    requires Weights(w) && Sum(w) == MAX_PERCENTAGE
    ensures Weights(Distribute(w, 0)) && Normalize(Distribute(w, 0)) == EqualShares(|w|)
  {
    hide Apportion;
    DistributeSum(w, 0);
    SumNonNegative(Distribute(w, 0));
    SumOnes(|w|);
    EqualIsNormalizedOnes(|w|);
  }

  /** The first distribution seen from the second: a quotient and a remainder in units of the slot. */
  lemma {:induction false} SecondQuota(w: seq<int>, slot: int, i: nat)
    requires Weights(w) && Sum(w) == MAX_PERCENTAGE && 0 < slot && i < |w|
    ensures var p, e := Distribute(w, slot), Excess(w, slot, i);
            && Weights(p) && Sum(p) == slot
            && (0 <= e < slot ==> Floors(p, MAX_PERCENTAGE)[i] == w[i] && Remainders(p, MAX_PERCENTAGE)[i] == e)
            && (-slot < e < 0 ==>
                  Floors(p, MAX_PERCENTAGE)[i] == w[i] - 1 && Remainders(p, MAX_PERCENTAGE)[i] == e + slot)
            && (e >= slot ==> Floors(p, MAX_PERCENTAGE)[i] > w[i])
            && (e <= -slot ==> Floors(p, MAX_PERCENTAGE)[i] < w[i] - 1
                               || (Floors(p, MAX_PERCENTAGE)[i] == w[i] - 1 && Remainders(p, MAX_PERCENTAGE)[i] == 0))
  {
    hide Sum, Distribute, Floors, Remainders;
    var p, e := Distribute(w, slot), Excess(w, slot, i);
    DistributeSum(w, slot);
    Parts(p, MAX_PERCENTAGE, i);
    var f, r := Floors(p, MAX_PERCENTAGE)[i], Remainders(p, MAX_PERCENTAGE)[i];
    assert f * slot + r == w[i] * slot + e;
    Distribute2(w[i], 1, slot);
    Distribute2(w[i], -1, slot);
    if e >= slot {
      SmallerQuotient(w[i] + 1, 0, f, r, slot);
    } else if e <= -slot {
      SmallerQuotient(f, r, w[i] - 1, 0, slot);
    } else if e >= 0 {
      SameQuotient(f, r, w[i], e, slot);
    } else {
      SameQuotient(f, r, w[i] - 1, e + slot, slot);
    }
  }

  lemma {:induction false} SameQuotient(f: int, r: int, g: int, q: int, w: int)
    requires 0 <= r < w && 0 <= q < w && f * w + r == g * w + q
    ensures f == g && r == q
  {
    SmallerQuotient(f, r, g, q, w);
    SmallerQuotient(g, q, f, r, w);
  }

  /** The second distribution gives a share back its point exactly when it is served before the leftover ends. */
  lemma {:induction false} SecondShare(w: seq<int>, slot: int, i: nat)
    requires Weights(w) && Sum(w) == MAX_PERCENTAGE && 0 < slot && i < |w|
    ensures var p := Distribute(w, slot);
            && Weights(p) && Sum(p) == slot
            && Normalize(p)[i] == Floors(p, MAX_PERCENTAGE)[i]
                 + (if Rank(Remainders(p, MAX_PERCENTAGE), i) < Leftover(p, MAX_PERCENTAGE) then 1 else 0)
            && (Remainders(p, MAX_PERCENTAGE)[i] == 0 ==>
                  Rank(Remainders(p, MAX_PERCENTAGE), i) >= Leftover(p, MAX_PERCENTAGE))
  {
    hide Sum, Floors, Remainders, Rank, Leftover;
    DistributeSum(w, slot);
    LeftoverBound(Distribute(w, slot), MAX_PERCENTAGE);
  }

  lemma {:induction false} RoundsBackIfBack(w: seq<int>, slot: int)
    requires Weights(w) && Sum(w) == MAX_PERCENTAGE && 0 < slot && Weights(Distribute(w, slot))
    requires Normalize(Distribute(w, slot)) == w
    ensures RoundsBack(w, slot)
  {
    hide Sum, Distribute, Floors, Remainders, Rank, Leftover, Normalize, Excess;
    DistributeSum(w, slot);
    var n := Remainders(Distribute(w, slot), MAX_PERCENTAGE);
    forall i: nat | i < |w| ensures -slot < Excess(w, slot, i) < slot {
      SecondQuota(w, slot, i);
      SecondShare(w, slot, i);
    }
    forall i: nat, j: nat | i < |w| && j < |w| && Excess(w, slot, i) < 0 <= Excess(w, slot, j)
      ensures Excess(w, slot, j) - Excess(w, slot, i) < slot
              || (Excess(w, slot, j) - Excess(w, slot, i) == slot && i < j)
    {
      SecondQuota(w, slot, i);
      SecondShare(w, slot, i);
      SecondQuota(w, slot, j);
      SecondShare(w, slot, j);
      if ServedFirst(n, j, i) {
        RankStrict(n, j, i);
      }
    }
  }

  /** If any share that had not been rounded down gets a point, all that had been get theirs. */
  lemma {:induction false} BackIfRoundsBack(w: seq<int>, slot: int)
    requires Weights(w) && Sum(w) == MAX_PERCENTAGE && 0 < slot && Weights(Distribute(w, slot))
    requires RoundsBack(w, slot)
    ensures Normalize(Distribute(w, slot)) == w
  {
    hide Sum, Distribute, Floors, Remainders, Rank, Leftover, Normalize, Excess;
    DistributeSum(w, slot);
    var p := Distribute(w, slot);
    var n, q := Remainders(p, MAX_PERCENTAGE), Normalize(p);
    DistributeSum(p, MAX_PERCENTAGE);
    assert Sum(q) == Sum(w) by {
      assert q == Distribute(p, MAX_PERCENTAGE) by { NormalizeIs(p); }
    }
    forall i: nat | i < |w|
      ensures Excess(w, slot, i) < 0 ==> q[i] == w[i] - (if Rank(n, i) < Leftover(p, MAX_PERCENTAGE) then 0 else 1)
      ensures Excess(w, slot, i) >= 0 ==> q[i] == w[i] + (if Rank(n, i) < Leftover(p, MAX_PERCENTAGE) then 1 else 0)
    {
      SecondQuota(w, slot, i);
      SecondShare(w, slot, i);
    }
    if j: nat :| j < |w| && Excess(w, slot, j) >= 0 && Rank(n, j) < Leftover(p, MAX_PERCENTAGE) {
      forall i: nat | i < |w| ensures w[i] <= q[i] {
        if Excess(w, slot, i) < 0 {
          DownFirst(w, slot, i, j);
          RankStrict(n, i, j);
        }
      }
      SumPointwise(w, q);
    } else {
      SumPointwise(q, w);
    }
  }

  lemma {:induction false} NormalizeIs(w: seq<int>)
    requires Weights(w)
    ensures Normalize(w) == Distribute(w, MAX_PERCENTAGE)
  {
  }

  lemma {:induction false} DownFirst(w: seq<int>, slot: int, i: nat, j: nat)
    requires Weights(w) && Sum(w) == MAX_PERCENTAGE && 0 < slot && RoundsBack(w, slot)
    requires i < |w| && j < |w| && Excess(w, slot, i) < 0 <= Excess(w, slot, j)
    ensures Weights(Distribute(w, slot)) && Sum(Distribute(w, slot)) == slot
    ensures ServedFirst(Remainders(Distribute(w, slot), MAX_PERCENTAGE), i, j)
  {
    hide Sum, Distribute, Floors, Remainders, Excess;
    SecondQuota(w, slot, i);
    SecondQuota(w, slot, j);
  }

  /** The excess is read off the weights: the missing remainder, or what rounding up adds to it. */
  lemma {:induction false} ExcessIs(w: seq<int>, slot: int, i: nat)
    requires Weights(w) && Sum(w) == MAX_PERCENTAGE && 0 <= slot && i < |w|
    ensures var r := w[i] * slot % MAX_PERCENTAGE;
            && Excess(w, slot, i)
                 == (if Rank(Remainders(w, slot), i) < Leftover(w, slot) then MAX_PERCENTAGE - r else -r)
            && (r == 0 ==> Excess(w, slot, i) == 0)
  {
    hide Sum, Rank, Leftover;
    Parts(w, slot, i);
    LeftoverBound(w, slot);
    PartsAt(w, slot, i);
  }

  /** Shares that are whole percentages of the slot are restorable. */
  lemma {:induction false} WholeSharesRoundBack(w: seq<int>, slot: int)
    requires Weights(w) && Sum(w) == MAX_PERCENTAGE && 0 < slot
    requires forall i :: 0 <= i < |w| ==> w[i] * slot % MAX_PERCENTAGE == 0
    ensures RoundsBack(w, slot)
  {
    hide Sum, Excess;
    forall i: nat | i < |w| ensures Excess(w, slot, i) == 0 {
      ExcessIs(w, slot, i);
    }
  }
}
