/** Checkpoint lists: voting power recorded per ledger, looked up by binary search, pruned
    from the front. */
module Checkpoints {

  /** Votes and time-weighted sum as of a ledger. */
  datatype Checkpoint = Checkpoint(ledger: nat, votes: int, weightedSum: int)

  type History = seq<Checkpoint>

  const NOTHING: Checkpoint := Checkpoint(0, 0, 0)

  ghost predicate Sorted(h: History) {
    forall i, j :: 0 <= i < j < |h| ==> h[i].ledger < h[j].ledger
  }

  /** The newest checkpoint not above the ledger; the empty checkpoint if there is none. */
  function At(h: History, ledger: nat): Checkpoint {
    if h == [] then NOTHING
    else if h[|h| - 1].ledger <= ledger then h[|h| - 1]
    else At(h[..|h| - 1], ledger)
  }

  function Latest(h: History): Checkpoint {
    if h == [] then NOTHING else h[|h| - 1]
  }

  /** Every checkpoint was written at or before ledger now. */
  ghost predicate WrittenBy(h: History, now: nat) {
    Sorted(h) && (h != [] ==> h[|h| - 1].ledger <= now)
  }

  /** Adding to the latest value at ledger now: a second change in one ledger overwrites. */
  function Record(h: History, now: nat, delta: int, deltaWeighted: int): History {
    var cp := Checkpoint(now, Latest(h).votes + delta, Latest(h).weightedSum + deltaWeighted);
    if h != [] && h[|h| - 1].ledger == now then h[|h| - 1 := cp] else h + [cp]
  }

  /** A change at ledger now does not touch what was true before now, and adds the delta to
      everything from now on. */
  lemma RecordAt(h: History, now: nat, delta: int, deltaWeighted: int, ledger: nat)
    requires WrittenBy(h, now)
    ensures var g := Record(h, now, delta, deltaWeighted);
            && WrittenBy(g, now)
            && (ledger < now ==> At(g, ledger) == At(h, ledger))
            && (now <= ledger ==>
                  && At(h, ledger) == Latest(h) && At(g, ledger) == Latest(g)
                  && Latest(g) == Checkpoint(now, Latest(h).votes + delta, Latest(h).weightedSum + deltaWeighted))
  {
    var g := Record(h, now, delta, deltaWeighted);
    assert g[..|g| - 1] == if |g| == |h| then h[..|h| - 1] else h;
  }

  /** What a lookup means, without the recursion. */
  lemma {:induction false} AtMeans(h: History, ledger: nat)
    requires Sorted(h)
    ensures (forall i :: 0 <= i < |h| ==> ledger < h[i].ledger) ==> At(h, ledger) == NOTHING
    ensures forall i :: 0 <= i < |h| && h[i].ledger <= ledger && (i + 1 < |h| ==> ledger < h[i + 1].ledger) ==>
              At(h, ledger) == h[i]
  {
    if h != [] && ledger < h[|h| - 1].ledger {
      var t := h[..|h| - 1];
      AtMeans(t, ledger);
      forall i | 0 <= i < |h| && h[i].ledger <= ledger && (i + 1 < |h| ==> ledger < h[i + 1].ledger)
        ensures At(h, ledger) == h[i]
      {
        assert t[i] == h[i];
        if i + 1 < |t| {
          assert t[i + 1] == h[i + 1];
        }
      }
    }
  }

  /** The checkpoints at or below the cutoff are the first Below(h, cutoff). */
  function Below(h: History, cutoff: nat): (n: nat)
    ensures n <= |h|
  {
    if h == [] || h[|h| - 1].ledger <= cutoff then |h| else Below(h[..|h| - 1], cutoff)
  }

  lemma {:induction false} BelowSplits(h: History, cutoff: nat)
    requires Sorted(h)
    ensures forall i :: 0 <= i < |h| ==> (h[i].ledger <= cutoff <==> i < Below(h, cutoff))
  {
    if h != [] && cutoff < h[|h| - 1].ledger {
      var t := h[..|h| - 1];
      BelowSplits(t, cutoff);
      assert forall i :: 0 <= i < |t| ==> t[i] == h[i];
    }
  }

  /** Index of the first checkpoint above the ledger. */
  method FirstAbove(h: History, ledger: nat) returns (low: nat)
    requires Sorted(h)
    ensures low <= |h|
    ensures forall i :: 0 <= i < |h| ==> (h[i].ledger <= ledger <==> i < low)
    ensures low == Below(h, ledger)
  {
    BelowSplits(h, ledger);
    low := 0;
    var high := |h|;
    while low < high
      invariant low <= high <= |h|
      invariant forall i :: 0 <= i < low ==> h[i].ledger <= ledger
      invariant forall i :: high <= i < |h| ==> ledger < h[i].ledger
    {
      var mid := low + (high - low) / 2;
      if h[mid].ledger <= ledger {
        low := mid + 1;
      } else {
        high := mid;
      }
    }
    assert low < |h| ==> ledger < h[low].ledger;
    assert 0 < low ==> h[low - 1].ledger <= ledger;
    assert 0 < Below(h, ledger) ==> h[Below(h, ledger) - 1].ledger <= ledger;
  }

  /** The lookup by binary search finds the newest checkpoint not above the ledger. */
  method BinarySearch(h: History, ledger: nat) returns (cp: Checkpoint)
    requires Sorted(h)
    ensures cp == At(h, ledger)
  {
    AtMeans(h, ledger);
    if |h| == 0 { return NOTHING; }
    var low := FirstAbove(h, ledger);
    assert low < |h| ==> ledger < h[low].ledger;
    if low == 0 { return NOTHING; }
    assert h[low - 1].ledger <= ledger;
    cp := h[low - 1];
  }

  // ---------------------------------------------------------------- pruning

  /** An account keeps its last checkpoint at or below the cutoff. */
  function PrunedAccount(h: History, cutoff: nat): History {
    var low := Below(h, cutoff);
    if low > 0 then h[low - 1..] else h
  }

  /** The total keeps only what is above the cutoff, or its last checkpoint. */
  function PrunedTotal(h: History, cutoff: nat): History {
    var low := Below(h, cutoff);
    if low == |h| then (if h == [] then h else h[|h| - 1..]) else h[low..]
  }

  method PruneAccount(h: History, cutoff: nat) returns (g: History, pruned: nat)
    requires Sorted(h)
    ensures g == PrunedAccount(h, cutoff) && pruned == |h| - |g|
  {
    assert h[0..] == h;
    if |h| == 0 { return h, 0; }
    var low := FirstAbove(h, cutoff);
    var keepFrom := if low > 0 then low - 1 else 0;
    if keepFrom == 0 { return h, 0; }
    g, pruned := h[keepFrom..], keepFrom;
  }

  method PruneTotal(h: History, cutoff: nat) returns (g: History, pruned: nat)
    requires Sorted(h)
    ensures g == PrunedTotal(h, cutoff) && pruned == |h| - |g|
  {
    assert h[0..] == h;
    if |h| == 0 { return h, 0; }
    var startIdx := FirstAbove(h, cutoff);
    if startIdx == |h| {
      startIdx := |h| - 1;
    }
    pruned := if startIdx < |h| - 1 then startIdx else |h| - 1;
    if pruned == 0 { return h, 0; }
    g := h[startIdx..];
  }

  /** A lookup only depends on the last suffix that reaches down to the ledger. */
  lemma {:induction false} AtSuffix(h: History, n: nat, ledger: nat)
    requires n < |h| && h[n].ledger <= ledger
    ensures At(h[n..], ledger) == At(h, ledger)
    decreases |h|
  {
    if ledger < h[|h| - 1].ledger {
      var t := h[..|h| - 1];
      assert h[n..][..|h[n..]| - 1] == t[n..];
      AtSuffix(t, n, ledger);
    }
  }

  /** No lookup from the cutoff on is changed by pruning an account. */
  lemma PruneAccountKeepsLookups(h: History, cutoff: nat, ledger: nat)
    requires Sorted(h) && cutoff <= ledger
    ensures At(PrunedAccount(h, cutoff), ledger) == At(h, ledger)
    ensures Latest(PrunedAccount(h, cutoff)) == Latest(h)
    ensures Sorted(PrunedAccount(h, cutoff))
  {
    BelowSplits(h, cutoff);
    var low := Below(h, cutoff);
    if low > 0 {
      AtSuffix(h, low - 1, ledger);
    }
  }

  /** Pruning the total is different: it drops the checkpoint that answers for the ledgers
      from the cutoff up to the first one kept. A lookup of the votes from the cutoff on
      survives exactly if nothing was dropped before a later checkpoint, or the ledger
      reaches the first one kept, or the votes there were zero anyway. */
  lemma PruneTotalKeepsLookupIff(h: History, cutoff: nat, ledger: nat)
    requires Sorted(h) && cutoff <= ledger
    ensures var low := Below(h, cutoff);
            At(PrunedTotal(h, cutoff), ledger).votes == At(h, ledger).votes <==>
              low == 0 || low == |h| || h[low].ledger <= ledger || At(h, ledger).votes == 0
    ensures var low := Below(h, cutoff);
            low == 0 || low == |h| || h[low].ledger <= ledger ==>
              At(PrunedTotal(h, cutoff), ledger) == At(h, ledger)
    ensures Latest(PrunedTotal(h, cutoff)) == Latest(h)
    ensures Sorted(PrunedTotal(h, cutoff))
  {
    BelowSplits(h, cutoff);
    var low := Below(h, cutoff);
    if low == |h| && low > 0 {
      AtSuffix(h, low - 1, ledger);
    } else if low < |h| {
      if h[low].ledger <= ledger {
        AtSuffix(h, low, ledger);
      } else {
        var g := h[low..];
        AtMeans(g, ledger);
        assert g[0] == h[low];
        assert At(g, ledger) == NOTHING;
      }
    }
  }

  /** A concrete case: 100 votes recorded at ledger 10 and 150 at ledger 90. Pruned with
      cutoff 50, the total at ledger 60 reads 0 instead of 100; an account keeps its 100. */
  lemma PruneTotalForgets()
    ensures var h := [Checkpoint(10, 100, 0), Checkpoint(90, 150, 0)];
            && Sorted(h) && At(h, 60).votes == 100
            && At(PrunedTotal(h, 50), 60).votes == 0
            && At(PrunedAccount(h, 50), 60).votes == 100
  {
    var h := [Checkpoint(10, 100, 0), Checkpoint(90, 150, 0)];
    BelowSplits(h, 50);
    assert h[0].ledger <= 50 < h[1].ledger;
    assert Below(h, 50) == 1;
    PruneAccountKeepsLookups(h, 50, 60);
    AtMeans(h, 60);
    AtMeans(h[1..], 60);
  }
}
