/** Lookups of past voting power and past total supply, with and without time weighting, and
    how the accounts' answers add up to the answer for the total. */
module PastVotes {
  import opened Arithmetic
  import opened Sums
  import opened Checkpoints
  import opened SplitDelegation
  import opened VotingLedger

  /** Division rounding toward zero. */
  function TruncatedQuotient(x: int, y: nat): int
    requires 0 < y
  {
    if 0 <= x then x / y else -((-x) / y)
  }

  /** The votes a checkpoint stands for at a ledger: none if not positive; under time
      weighting, a bonus for the ledgers the tokens were held. */
  function VotesOf(cp: Checkpoint, ledger: nat, timeWeight: bool, scale: nat): int
    requires timeWeight ==> 0 < scale
  {
    if cp.votes <= 0 then 0
    else if !timeWeight then cp.votes
    else cp.votes + TruncatedQuotient(ledger * cp.votes - cp.weightedSum, scale)
  }

  /** Without positive votes the answer is nothing, without time weighting the votes; else the
      bonus is the total held by the ledger over the scale, rounded toward zero. */
  lemma AnswerIs(cp: Checkpoint, ledger: nat, timeWeight: bool, scale: nat)
    requires timeWeight ==> 0 < scale
    ensures var answer, held := VotesOf(cp, ledger, timeWeight, scale), ledger * cp.votes - cp.weightedSum;
            && (cp.votes <= 0 ==> answer == 0)
            && (0 < cp.votes && !timeWeight ==> answer == cp.votes)
            && (0 < cp.votes && timeWeight && 0 <= held ==> 0 <= held - scale * (answer - cp.votes) < scale)
            && (0 < cp.votes && timeWeight && held < 0 ==> 0 <= scale * (answer - cp.votes) - held < scale)
  {
    var held := ledger * cp.votes - cp.weightedSum;
    if timeWeight {
      QuotientBounds(if held < 0 then -held else held, scale);
      if held < 0 {
        assert scale * -((-held) / scale) == -(scale * ((-held) / scale));
      }
    }
  }

  ghost function VotesOfAt(ledger: nat, timeWeight: bool, scale: nat): (f: History -> int)
    requires timeWeight ==> 0 < scale
    ensures forall h :: f(h) == VotesOf(At(h, ledger), ledger, timeWeight, scale)
  {
    (h: History) => VotesOf(At(h, ledger), ledger, timeWeight, scale)
  }

  /** Votes are not negative, and were not acquired later than the given ledger. */
  ghost predicate SoundBy(cp: Checkpoint, ledger: nat) {
    0 <= cp.votes && 0 <= cp.weightedSum <= ledger * cp.votes
  }

  /** A lookup in sound books finds sound values: not negative, and with a non-negative bonus. */
  lemma {:induction false} FoundIsSound(h: History, ledger: nat)
    requires forall i :: 0 <= i < |h| ==> Sound(h[i])
    ensures SoundBy(At(h, ledger), ledger)
  {
    if h != [] {
      var last := h[|h| - 1];
      if last.ledger <= ledger {
        MultiplyBound(last.votes, last.ledger, ledger);
        assert last.ledger * last.votes == last.votes * last.ledger;
      } else {
        FoundIsSound(h[..|h| - 1], ledger);
      }
    }
  }

  /** Without time weighting: at every balanced ledger, what all accounts are told adds up to
      what is told for the total. */
  lemma VotesAddUp(accounts: Accounts, total: History, ledger: nat)
    requires AllSound(accounts) && BalancedAt(accounts, total, ledger)
    ensures SumOver(accounts, VotesOfAt(ledger, false, 0)) == VotesOf(At(total, ledger), ledger, false, 0)
  {
    forall a | a in accounts ensures VotesOfAt(ledger, false, 0)(accounts[a]) == VotesAt(ledger)(accounts[a]) {
      assert forall i :: 0 <= i < |accounts[a]| ==> Sound(accounts[a][i]);
      FoundIsSound(accounts[a], ledger);
    }
    SumOverCongruence(accounts, VotesOfAt(ledger, false, 0), accounts, VotesAt(ledger));
    SumNotNegative(accounts, ledger);
  }

  lemma {:induction false} SumNotNegative(accounts: Accounts, ledger: nat)
    requires AllSound(accounts)
    ensures 0 <= SumVotes(accounts, ledger)
    decreases |accounts|
  {
    if accounts != map[] {
      var a :| a in accounts;
      SumOverRemove(accounts, a, VotesAt(ledger));
      assert forall i :: 0 <= i < |accounts[a]| ==> Sound(accounts[a][i]);
      FoundIsSound(accounts[a], ledger);
      SumNotNegative(accounts - {a}, ledger);
    }
  }

  // ---------------------------------------------------------------- time weighting

  /** Token-ledgers held, the numerator of the bonus. */
  function Held(cp: Checkpoint, ledger: nat): int { ledger * cp.votes - cp.weightedSum }

  /** How the answers (sum) for n accounts relate to their recorded votes and weights: the
      excess of the answers, times the scale, is the held total minus at most one scale per
      account. */
  ghost predicate Rounded(votes: int, weights: int, sum: int, ledger: nat, scale: nat, n: nat) {
    var held, excess := ledger * votes - weights, sum - votes;
    && 0 <= excess && scale * excess <= held <= scale * excess + scale * n
    && 0 <= votes && (votes == 0 ==> held == 0)
  }

  lemma {:induction false} TimeWeightedSum(accounts: Accounts, ledger: nat, scale: nat)
    requires AllSound(accounts) && 0 < scale
    ensures Rounded(SumVotes(accounts, ledger), SumWeights(accounts, ledger),
                    SumOver(accounts, VotesOfAt(ledger, true, scale)), ledger, scale, |accounts|)
    decreases |accounts|
  {
    hide Rounded, VotesOf, AllSound, Sound, SoundBy, At, VotesOfAt, VotesAt, WeightAt;
    if accounts == map[] {
      RoundedNothing(ledger, scale);
    } else {
      var a :| a in accounts;
      var rest := accounts - {a};
      var cp := At(accounts[a], ledger);
      SumOverRemove(accounts, a, VotesAt(ledger));
      SumOverRemove(accounts, a, WeightAt(ledger));
      SumOverRemove(accounts, a, VotesOfAt(ledger, true, scale));
      OneAccount(accounts, a, ledger);
      TimeWeightedSum(rest, ledger, scale);
      AddOne(cp, ledger, scale, SumVotes(rest, ledger), SumWeights(rest, ledger),
             SumOver(rest, VotesOfAt(ledger, true, scale)), |rest|);
    }
  }

  lemma RoundedNothing(ledger: nat, scale: nat)
    ensures Rounded(0, 0, 0, ledger, scale, 0)
  {
  }

  lemma OneAccount(accounts: Accounts, a: Address, ledger: nat)
    requires AllSound(accounts) && a in accounts
    ensures AllSound(accounts - {a})
    ensures SoundBy(At(accounts[a], ledger), ledger)
  {
    assert forall i :: 0 <= i < |accounts[a]| ==> Sound(accounts[a][i]);
    FoundIsSound(accounts[a], ledger);
  }

  /** One account more. */
  lemma AddOne(cp: Checkpoint, ledger: nat, scale: nat, votes: int, weights: int, sum: int, n: nat)
    requires 0 < scale && SoundBy(cp, ledger)
    requires Rounded(votes, weights, sum, ledger, scale, n)
    ensures Rounded(cp.votes + votes, cp.weightedSum + weights, VotesOf(cp, ledger, true, scale) + sum, ledger, scale, n + 1)
  {
    var mine, bonus := Held(cp, ledger), VotesOf(cp, ledger, true, scale) - cp.votes;
    Distribute(ledger, cp.votes, votes);
    Distribute(scale, bonus, sum - votes);
    Distribute(scale, n, 1);
    if cp.votes == 0 {
      assert mine == 0 && bonus == 0;
    } else {
      QuotientBounds(mine, scale);
    }
  }

  /** With time weighting the accounts' answers never exceed the answer for the total, and
      fall short of it by at most one vote per account: rounding loses votes, never makes any. */
  lemma TimeWeightedVotesAddUp(accounts: Accounts, total: History, ledger: nat, scale: nat)
    requires AllSound(accounts) && BalancedAt(accounts, total, ledger) && 0 < scale
    ensures var sum, all := SumOver(accounts, VotesOfAt(ledger, true, scale)), VotesOf(At(total, ledger), ledger, true, scale);
            sum <= all <= sum + |accounts|
  {
    hide Rounded, VotesOf;
    TimeWeightedSum(accounts, ledger, scale);
    RoundedTotal(At(total, ledger), SumOver(accounts, VotesOfAt(ledger, true, scale)), ledger, scale, |accounts|);
  }

  lemma RoundedTotal(cp: Checkpoint, sum: int, ledger: nat, scale: nat, n: nat)
    requires 0 < scale && Rounded(cp.votes, cp.weightedSum, sum, ledger, scale, n)
    ensures sum <= VotesOf(cp, ledger, true, scale) <= sum + n
  {
    var held := Held(cp, ledger);
    assert 0 <= scale * (sum - cp.votes);
    QuotientBetween(held, scale, sum - cp.votes, n);
    if cp.votes == 0 {
      assert held / scale == 0;
    }
  }

  lemma QuotientBetween(held: nat, scale: nat, excess: nat, n: nat)
    requires 0 < scale && scale * excess <= held <= scale * excess + scale * n
    ensures excess <= held / scale <= excess + n
  {
    QuotientBounds(held, scale);
    Distribute(scale, excess, n);
    var q := held / scale;
    if q < excess {
      Distribute(scale, q + 1, excess - q - 1);
    } else if excess + n < q {
      Distribute(scale, excess + n, q - excess - n);
    }
  }
}
