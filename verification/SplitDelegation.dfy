/** Splitting a balance over several delegatees by basis points. */
module SplitDelegation {
  import opened Arithmetic
  import opened Options

  type Address = string

  datatype Split = Split(delegatee: Address, weightBps: nat)

  const BPS: nat := 10_000
  const U32_LIMIT: nat := 0x1_0000_0000

  datatype SplitError = Empty | TooManyTargets | ZeroWeight | WeightOverflow | DuplicateDelegatee | WeightsMustSum

  /** The sum of the first n weights. */
  function WeightSum(splits: seq<Split>, n: nat): nat
    requires n <= |splits|
  {
    if n == 0 then 0 else WeightSum(splits, n - 1) + splits[n - 1].weightBps
  }

  ghost predicate Distinct(splits: seq<Split>) {
    forall i, j :: 0 <= i < j < |splits| ==> splits[i].delegatee != splits[j].delegatee
  }

  /** What a distribution on file satisfies. */
  ghost predicate ValidSplits(splits: seq<Split>) {
    && splits != [] && Distinct(splits)
    && (forall i :: 0 <= i < |splits| ==> 0 < splits[i].weightBps)
    && WeightSum(splits, |splits|) == BPS
  }

  lemma {:induction false} WeightSumMonotone(splits: seq<Split>, m: nat, n: nat)
    requires m <= n <= |splits|
    ensures WeightSum(splits, m) <= WeightSum(splits, n)
  {
    if m < n {
      WeightSumMonotone(splits, m, n - 1);
    }
  }

  /** An entry the loop passes: its weight is positive, the sum so far fits 32 bits, and no later
      entry has its delegatee. */
  ghost predicate GoodEntry(splits: seq<Split>, i: nat)
    requires i < |splits|
  {
    && 0 < splits[i].weightBps && WeightSum(splits, i + 1) < U32_LIMIT
    && forall l :: i < l < |splits| ==> splits[i].delegatee != splits[l].delegatee
  }

  /** The loop stops at entry i. */
  ghost predicate FirstBad(splits: seq<Split>, i: nat) {
    i < |splits| && !GoodEntry(splits, i) && forall k: nat :: k < i ==> GoodEntry(splits, k)
  }

  /** Splits are valid exactly if all entries are good and the weights make up the whole. */
  lemma ValidIff(splits: seq<Split>)
    requires splits != []
    ensures ValidSplits(splits) <==>
              (forall i: nat :: i < |splits| ==> GoodEntry(splits, i)) && WeightSum(splits, |splits|) == BPS
  {
    if ValidSplits(splits) {
      forall i: nat | i < |splits| ensures GoodEntry(splits, i) {
        WeightSumMonotone(splits, i + 1, |splits|);
      }
    }
    if forall i: nat :: i < |splits| ==> GoodEntry(splits, i) {
      forall i, l | 0 <= i < l < |splits| ensures splits[i].delegatee != splits[l].delegatee {
        assert GoodEntry(splits, i);
      }
      forall i | 0 <= i < |splits| ensures 0 < splits[i].weightBps {
        assert GoodEntry(splits, i);
      }
    }
  }

  /** The checks of delegate_split, in their order: an error exactly if the splits are not
      valid or exceed the target limit; and the error of the first check that fails. */
  method ValidateSplits(splits: seq<Split>, maxTargets: nat) returns (error: Option<SplitError>)
    ensures error.None? <==> ValidSplits(splits) && |splits| <= maxTargets
    ensures error == Some(Empty) <==> splits == []
    ensures error == Some(TooManyTargets) <==> maxTargets < |splits|
    ensures 0 < |splits| <= maxTargets ==>
              && (forall i: nat :: FirstBad(splits, i) ==>
                    error == Some(if splits[i].weightBps == 0 then ZeroWeight
                                  else if U32_LIMIT <= WeightSum(splits, i + 1) then WeightOverflow
                                  else DuplicateDelegatee))
              && ((forall i: nat :: i < |splits| ==> GoodEntry(splits, i)) ==>
                    error == if WeightSum(splits, |splits|) == BPS then None else Some(WeightsMustSum))
  {
    var n := |splits|;
    if n == 0 { return Some(Empty); }
    if n > maxTargets { return Some(TooManyTargets); }
    ValidIff(splits);
    hide ValidSplits;
    var sum := 0;
    var i := 0;
    while i < n
      invariant 0 <= i <= n && sum == WeightSum(splits, i)
      invariant forall k: nat :: k < i ==> GoodEntry(splits, k)
    {
      var s := splits[i];
      if s.weightBps == 0 {
        assert FirstBad(splits, i);
        return Some(ZeroWeight);
      }
      if sum + s.weightBps >= U32_LIMIT {
        assert FirstBad(splits, i);
        return Some(WeightOverflow);
      }
      sum := sum + s.weightBps;
      var j := i + 1;
      while j < n
        invariant i < j <= n
        invariant forall l :: i < l < j ==> splits[i].delegatee != splits[l].delegatee
      {
        if splits[j].delegatee == s.delegatee {
          assert FirstBad(splits, i);
          return Some(DuplicateDelegatee);
        }
        j := j + 1;
      }
      i := i + 1;
    }
    if sum != BPS { return Some(WeightsMustSum); }
    error := None;
  }

  // ---------------------------------------------------------------- the parts

  /** The rounded-down share of an entry. */
  function FloorShare(total: nat, weightBps: nat): nat { total * weightBps / BPS }

  /** What the first n entries get, rounded down. */
  function Allocated(splits: seq<Split>, n: nat, total: nat): nat
    requires n <= |splits|
  {
    if n == 0 then 0 else Allocated(splits, n - 1, total) + FloorShare(total, splits[n - 1].weightBps)
  }

  /** The part of one entry: rounded down, and the rest for the last one. */
  function Amount(splits: seq<Split>, index: nat, total: nat): int
    requires index < |splits|
  {
    if index == |splits| - 1 then total - Allocated(splits, index, total)
    else FloorShare(total, splits[index].weightBps)
  }

  method SplitAmount(splits: seq<Split>, index: nat, total: nat) returns (amount: int)
    requires index < |splits|
    ensures amount == Amount(splits, index, total)
  {
    var n := |splits|;
    if index == n - 1 {
      var handedOut := 0;
      var i := 0;
      while i < n - 1
        invariant 0 <= i <= n - 1 && handedOut == Allocated(splits, i, total)
      {
        handedOut := handedOut + total * splits[i].weightBps / BPS;
        i := i + 1;
      }
      amount := total - handedOut;
    } else {
      amount := total * splits[index].weightBps / BPS;
    }
  }

  /** The sum of the first n parts. */
  function PartsSum(splits: seq<Split>, n: nat, total: nat): int
    requires n <= |splits|
  {
    if n == 0 then 0 else PartsSum(splits, n - 1, total) + Amount(splits, n - 1, total)
  }

  lemma {:induction false} PartsBeforeLast(splits: seq<Split>, n: nat, total: nat)
    requires n < |splits|
    ensures PartsSum(splits, n, total) == Allocated(splits, n, total)
  {
    if 0 < n {
      PartsBeforeLast(splits, n - 1, total);
    }
  }

  /** The parts always add up to the total. */
  lemma PartsSumToTotal(splits: seq<Split>, total: nat)
    requires splits != []
    ensures PartsSum(splits, |splits|, total) == total
  {
    PartsBeforeLast(splits, |splits| - 1, total);
  }

  lemma FloorShareBounds(total: nat, w: nat)
    ensures BPS * FloorShare(total, w) <= total * w < BPS * (FloorShare(total, w) + 1)
  {
  }

  /** The rounded-down shares fall short of the proportional ones by less than one each. */
  lemma {:induction false} AllocatedBounds(splits: seq<Split>, n: nat, total: nat)
    requires n <= |splits|
    ensures BPS * Allocated(splits, n, total) <= total * WeightSum(splits, n)
    ensures total * WeightSum(splits, n) <= BPS * Allocated(splits, n, total) + BPS * n
  {
    if 0 < n {
      AllocatedBounds(splits, n - 1, total);
      var w := splits[n - 1].weightBps;
      FloorShareBounds(total, w);
      Distribute(total, WeightSum(splits, n - 1), w);
    }
  }

  /** The arithmetic behind the last entry: what is left after the rounded-down shares. */
  lemma RestIsProportional(total: nat, a: nat, weights: nat, w: nat, n: nat)
    requires weights + w == BPS && 0 < n
    requires BPS * a <= total * weights <= BPS * a + BPS * (n - 1)
    ensures 0 <= total - a <= total
    ensures total * w < BPS * (total - a + 1)
    ensures BPS * (total - a) < total * w + BPS * n
  {
    Distribute(total, weights, w);
  }

  /** Every part is non-negative and within one unit per entry of the proportional share:
      total * weight / 10000 - 1 < part < total * weight / 10000 + number of entries. All but
      the last are rounded down. */
  lemma PartIsProportional(splits: seq<Split>, index: nat, total: nat)
    requires ValidSplits(splits) && index < |splits|
    ensures 0 <= Amount(splits, index, total) <= total
    ensures total * splits[index].weightBps < 10_000 * (Amount(splits, index, total) + 1)
    ensures 10_000 * Amount(splits, index, total) < total * splits[index].weightBps + 10_000 * |splits|
    ensures index < |splits| - 1 ==> 10_000 * Amount(splits, index, total) <= total * splits[index].weightBps
  {
    var n, w := |splits|, splits[index].weightBps;
    WeightSumMonotone(splits, index + 1, n);
    assert w <= BPS;
    hide ValidSplits, FloorShare, WeightSum, Allocated;
    if index == n - 1 {
      assert WeightSum(splits, n - 1) + w == BPS by { LastWeight(splits); }
      AllocatedBounds(splits, n - 1, total);
      RestIsProportional(total, Allocated(splits, n - 1, total), WeightSum(splits, n - 1), w, n);
    } else {
      FloorShareIsProportional(total, w);
    }
  }

  lemma LastWeight(splits: seq<Split>)
    requires ValidSplits(splits)
    ensures WeightSum(splits, |splits| - 1) + splits[|splits| - 1].weightBps == BPS
  {
  }

  lemma FloorShareIsProportional(total: nat, w: nat)
    requires w <= BPS
    ensures 0 <= FloorShare(total, w) <= total
    ensures BPS * FloorShare(total, w) <= total * w < BPS * (FloorShare(total, w) + 1)
  {
    FloorShareBounds(total, w);
    Distribute(total, w, BPS - w);
  }
}
