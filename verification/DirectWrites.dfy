/** The entry point that writes an account's votes directly, without touching the total: when it
    keeps the books balanced, and when it can leave an account with a negative answer. */
module DirectWrites {
  import opened Arithmetic
  import opened Sums
  import opened Checkpoints
  import opened SplitDelegation
  import opened VotingLedger
  import opened TokenVotes
  import opened PastVotes
  import opened VotesBooks
  import Graph = DelegationGraph

  /** The accounts after writing an account's votes: the weighted sum changes as if the
      difference had been acquired, or given away, now. */
  function DirectlyWritten(accounts: Accounts, account: Address, votes: int, now: nat): Accounts {
    var delta := votes - Power(accounts, account);
    Credit(accounts, account, now, delta, delta * now)
  }

  /** That keeps the books balanced exactly if it writes the value that is already there. */
  lemma DirectCheckpointConservesIff(b: Books, account: Address, votes: int)
    requires Valid(b)
    ensures Conserved(DirectlyWritten(b.accounts, account, votes, b.ledger), b.total, b.horizon) <==>
              votes == Power(b.accounts, account)
  {
    hide IsGrounded, Credit, Power, WrittenBy, At, HistoryOf, SumVotes, SumWeights, Extends;
    var delta, now := votes - Power(b.accounts, account), b.ledger;
    var written := DirectlyWritten(b.accounts, account, votes, now);
    CreditMoves(b.accounts, account, now, delta, delta * now);
    assert BalancedAt(b.accounts, b.total, now);
    if delta == 0 {
      forall ledger: nat | b.horizon <= ledger ensures BalancedAt(written, b.total, ledger) {
        assert BalancedAt(b.accounts, b.total, ledger);
      }
    }
    if Conserved(written, b.total, b.horizon) {
      assert BalancedAt(written, b.total, now);
    }
  }

  /** In particular after alice has delegated 100 to bob and bob's votes are then written as 70. */
  lemma DirectCheckpointUnbalances()
    ensures var b := Run(Genesis, [Operation.Delegate("alice", "bob", 100)]);
            && Power(b.accounts, "bob") == 100 && Conserved(b.accounts, b.total, b.horizon)
            && !Conserved(DirectlyWritten(b.accounts, "bob", 70, b.ledger), b.total, b.horizon)
  {
    hide Run, Apply, Credit, Power, Weight, Conserved, IsGrounded;
    var op := Operation.Delegate("alice", "bob", 100);
    GenesisIsValid();
    RunKeepsValid(Genesis, [op]);
    FirstDelegation();
    DirectCheckpointConservesIff(Run(Genesis, [op]), "bob", 70);
  }

  lemma FirstDelegation()
    ensures Power(Run(Genesis, [Operation.Delegate("alice", "bob", 100)]).accounts, "bob") == 100
  {
    hide Run, Apply, Power;
    var op := Operation.Delegate("alice", "bob", 100);
    RunOfOne(Genesis, op);
    DelegatedToBob();
  }

  lemma RunOfOne(b: Books, op: Operation)
    ensures Run(b, [op]) == Apply(b, op)
  {
    hide Apply;
    assert [op][1..] == [];
    assert Run(Apply(b, op), []) == Apply(b, op);
  }

  lemma DelegatedToBob()
    ensures Power(Apply(Genesis, Operation.Delegate("alice", "bob", 100)).accounts, "bob") == 100
  {
    hide Credit, Power, Weight, Grown;
    assert Graph.IsChain(map[], ["bob"]);
    assert MayDelegate(map[], "alice", "bob", 1);
    var b := Delegated(Genesis, "alice", "bob", 100);
    assert Refreshed(DefaultRecord, 100, 0) == DelegatorRecord(100, 0);
    assert b.accounts == Credit(map[], "bob", 0, 100, 0);
    CreditPower(map[], "bob", 0, 100, 0);
    NobodyHasPower();
  }

  ghost function Written(b: Books, account: Address, votes: int): Books {
    b.(accounts := DirectlyWritten(b.accounts, account, votes, b.ledger))
  }

  // ---------------------------------------------------------------- negative answers

  /** The smallest held total under which the votes of a checkpoint outweigh the malus. */
  ghost predicate Bearable(votes: int, held: int, scale: nat) {
    votes <= 0 || -((votes + 1) * scale) < held
  }

  lemma NotNegativeIff(cp: Checkpoint, ledger: nat, scale: nat)
    requires 0 < scale
    ensures 0 <= VotesOf(cp, ledger, true, scale) <==> Bearable(cp.votes, Held(cp, ledger), scale)
  {
    var held := Held(cp, ledger);
    if 0 < cp.votes && held < 0 {
      QuotientIff(-held, scale, cp.votes);
    }
  }

  lemma QuotientIff(x: nat, scale: nat, votes: nat)
    requires 0 < scale
    ensures x / scale <= votes <==> x < (votes + 1) * scale
  {
    var q := x / scale;
    QuotientBounds(x, scale);
    if q <= votes {
      DistributeOver(q + 1, votes - q, scale);
    } else {
      DistributeOver(votes + 1, q - votes - 1, scale);
    }
  }

  /** Held totals of positive votes grow with the ledger. */
  lemma BearableLater(cp: Checkpoint, ledger: nat, later: nat, scale: nat)
    requires Bearable(cp.votes, Held(cp, ledger), scale) && ledger <= later
    ensures Bearable(cp.votes, Held(cp, later), scale)
  {
    if 0 < cp.votes {
      MultiplyBound(cp.votes, ledger, later);
      assert ledger * cp.votes == cp.votes * ledger;
    }
  }

  /** No answer is negative from a ledger on. */
  ghost predicate NotNegativeFrom(h: History, from: nat, scale: nat)
    requires 0 < scale
  {
    forall ledger: nat :: from <= ledger ==> 0 <= VotesOf(At(h, ledger), ledger, true, scale)
  }

  ghost predicate AllBearable(h: History, scale: nat) {
    forall i :: 0 <= i < |h| ==> Bearable(h[i].votes, Held(h[i], h[i].ledger), scale)
  }

  /** An account is never told a negative number of votes, at any ledger, exactly if every
      checkpoint is bearable at the ledger it was written. */
  lemma AnswersNotNegativeIff(h: History, scale: nat)
    requires Sorted(h) && 0 < scale
    ensures NotNegativeFrom(h, 0, scale) <==> AllBearable(h, scale)
  {
    hide VotesOf, Bearable, Held, Sorted;
    if NotNegativeFrom(h, 0, scale) {
      forall i | 0 <= i < |h| ensures Bearable(h[i].votes, Held(h[i], h[i].ledger), scale) {
        FoundAt(h, i);
        assert 0 <= VotesOf(At(h, h[i].ledger), h[i].ledger, true, scale);
        NotNegativeIff(h[i], h[i].ledger, scale);
      }
    }
    if AllBearable(h, scale) {
      forall ledger: nat ensures 0 <= VotesOf(At(h, ledger), ledger, true, scale) {
        FoundIsBearable(h, ledger, scale);
        NotNegativeIff(At(h, ledger), ledger, scale);
      }
    }
  }

  lemma FoundAt(h: History, i: nat)
    requires Sorted(h) && i < |h|
    ensures At(h, h[i].ledger) == h[i]
  {
    AtMeans(h, h[i].ledger);
  }

  lemma {:induction false} FoundIsBearable(h: History, ledger: nat, scale: nat)
    requires AllBearable(h, scale)
    ensures Bearable(At(h, ledger).votes, Held(At(h, ledger), ledger), scale)
  {
    if h != [] {
      var last := h[|h| - 1];
      if last.ledger <= ledger {
        BearableLater(last, last.ledger, ledger, scale);
      } else {
        FoundIsBearable(h[..|h| - 1], ledger, scale);
      }
    }
  }

  /** A direct write leaves what the account has held so far as it is. From then on no answer is
      negative exactly if that bears the new votes. */
  lemma WriteNotNegativeIff(accounts: Accounts, account: Address, votes: int, now: nat, scale: nat)
    requires AllWrittenBy(accounts, now) && 0 < scale
    ensures NotNegativeFrom(HistoryOf(DirectlyWritten(accounts, account, votes, now), account), now, scale) <==>
              votes <= 0 || -((votes + 1) * scale) < now * Power(accounts, account) - Weight(accounts, account)
  {
    hide VotesOf, Power, Weight;
    var delta := votes - Power(accounts, account);
    var h := HistoryOf(DirectlyWritten(accounts, account, votes, now), account);
    var cp := Checkpoint(now, votes, Weight(accounts, account) + delta * now);
    assert Held(cp, now) == now * Power(accounts, account) - Weight(accounts, account) by {
      DistributeOver(votes, -Power(accounts, account), now);
    }
    forall ledger: nat | now <= ledger ensures At(h, ledger) == cp {
      FoundAfterWrite(accounts, account, votes, now, ledger);
    }
    if Bearable(votes, Held(cp, now), scale) {
      forall ledger: nat | now <= ledger ensures 0 <= VotesOf(At(h, ledger), ledger, true, scale) {
        BearableLater(cp, now, ledger, scale);
        NotNegativeIff(cp, ledger, scale);
      }
    } else {
      NotNegativeIff(cp, now, scale);
      assert VotesOf(At(h, now), now, true, scale) < 0;
    }
  }

  /** From now on the account is looked up with the votes written, and nobody else is affected. */
  lemma FoundAfterWrite(accounts: Accounts, account: Address, votes: int, now: nat, ledger: nat)
    requires AllWrittenBy(accounts, now) && now <= ledger
    ensures At(HistoryOf(DirectlyWritten(accounts, account, votes, now), account), ledger)
         == Checkpoint(now, votes, Weight(accounts, account) + (votes - Power(accounts, account)) * now)
    ensures forall a :: a != account ==> HistoryOf(DirectlyWritten(accounts, account, votes, now), a) == HistoryOf(accounts, a)
  {
    var delta := votes - Power(accounts, account);
    RecordAt(HistoryOf(accounts, account), now, delta, delta * now, ledger);
  }

  /** Two direct writes, of -100 votes at ledger 10 and of 1 at ledger 20, leave an account with a
      negative answer under time weighting. By AnswersNotNegative no other run does. */
  lemma DirectCheckpointGoesNegative()
    ensures var accounts := DirectlyWritten(DirectlyWritten(map[], "bob", -100, 10), "bob", 1, 20);
            VotesOf(At(HistoryOf(accounts, "bob"), 20), 20, true, 100) == -9
  {
    var first := DirectlyWritten(map[], "bob", -100, 10);
    assert HistoryOf(first, "bob") == [Checkpoint(10, -100, -1_000)];
    var second := DirectlyWritten(first, "bob", 1, 20);
    assert HistoryOf(second, "bob") == [Checkpoint(10, -100, -1_000), Checkpoint(20, 1, 1_020)];
  }

  // ---------------------------------------------------------------- writes and later operations

  /** No account is told a negative number of votes, at any ledger and scale. */
  ghost predicate NoNegativeAnswer(b: Books) {
    forall a, ledger: nat, scale: nat :: 0 < scale ==> 0 <= AnswerOf(b, a, ledger, scale)
  }

  function AnswerOf(b: Books, a: Address, ledger: nat, scale: nat): int
    requires 0 < scale
  {
    VotesOf(At(HistoryOf(b.accounts, a), ledger), ledger, true, scale)
  }

  /** Votes are not negative, and have been held for a total that is not negative. */
  ghost predicate Earned(cp: Checkpoint) { 0 <= cp.votes && cp.weightedSum <= cp.ledger * cp.votes }

  ghost predicate AllEarned(accounts: Accounts) {
    forall a, i :: 0 <= i < |HistoryOf(accounts, a)| ==> Earned(HistoryOf(accounts, a)[i])
  }

  /** What the delegations on file give an account. */
  ghost function Given(b: Books, d: Address): int { SumOver(Positions(b), ShareOf(d)) }

  /** What the account holds beyond the delegations is earned. */
  ghost predicate Surplus(accounts: Accounts, positions: map<Address, Position>, now: nat, d: Address) {
    && 0 <= Excess(accounts, positions, d)
    && ExcessWeight(accounts, positions, d) <= now * Excess(accounts, positions, d)
  }

  /** Weaker than Valid: it does not look at the total. */
  ghost predicate Safe(b: Books) {
    Orderly(b) && (forall d :: Surplus(b.accounts, Positions(b), b.ledger, d)) && AllEarned(b.accounts)
  }

  lemma ValidIsSafe(b: Books)
    requires Valid(b)
    ensures Safe(b)
  {
    hide Conserved, WrittenBy, Excess, ExcessWeight, Filed, ValidPositions, PositionsOf;
    forall a, i | 0 <= i < |HistoryOf(b.accounts, a)| ensures Earned(HistoryOf(b.accounts, a)[i]) {
      assert Sound(b.accounts[a][i]);
    }
    forall d ensures Surplus(b.accounts, Positions(b), b.ledger, d) {
    }
  }

  lemma EarnedAnswers(b: Books)
    requires AllEarned(b.accounts)
    ensures NoNegativeAnswer(b)
  {
    hide VotesOf, Bearable, Held;
    forall a, ledger: nat, scale: nat | 0 < scale ensures 0 <= AnswerOf(b, a, ledger, scale) {
      var h := HistoryOf(b.accounts, a);
      forall i | 0 <= i < |h| ensures Bearable(h[i].votes, Held(h[i], h[i].ledger), scale) {
        EarnedIsBearable(h[i], scale);
      }
      FoundIsBearable(h, ledger, scale);
      NotNegativeIff(At(h, ledger), ledger, scale);
    }
  }

  lemma EarnedIsBearable(cp: Checkpoint, scale: nat)
    requires Earned(cp) && 0 < scale
    ensures Bearable(cp.votes, Held(cp, cp.ledger), scale)
  {
    assert cp.votes + 1 <= (cp.votes + 1) * scale;
  }

  /** Current values that the surplus and the shares make up are earned. */
  lemma SurplusIsEarned(accounts: Accounts, positions: map<Address, Position>, now: nat, d: Address)
    requires ValidPositions(positions, now) && Surplus(accounts, positions, now, d)
    ensures 0 <= Power(accounts, d) && Weight(accounts, d) <= now * Power(accounts, d)
  {
    hide Power, Weight, ValidPositions;
    SharesAreSound(positions, now, d);
    DistributeOver(SumOver(positions, ShareOf(d)), Excess(accounts, positions, d), now);
  }

  /** Checkpoints stay earned when what is added is. */
  lemma EarnedAfter(old_: Accounts, new_: Accounts, now: nat)
    requires AllEarned(old_) && OnlyAdds(old_, new_, now)
    requires forall d :: 0 <= Power(new_, d) && Weight(new_, d) <= now * Power(new_, d)
    ensures AllEarned(new_)
  {
    hide Earned;
    forall a, i | 0 <= i < |HistoryOf(new_, a)| ensures Earned(HistoryOf(new_, a)[i]) {
      var cp := HistoryOf(new_, a)[i];
      if cp in HistoryOf(old_, a) {
        var k :| 0 <= k < |HistoryOf(old_, a)| && HistoryOf(old_, a)[k] == cp;
      } else {
        assert cp.votes == Power(new_, a) && cp.weightedSum == Weight(new_, a) && cp.ledger == now;
        assert Earned(cp) by { LatestIsEarned(cp, now); }
      }
    }
  }

  lemma LatestIsEarned(cp: Checkpoint, now: nat)
    requires cp.ledger == now && 0 <= cp.votes && cp.weightedSum <= now * cp.votes
    ensures Earned(cp)
  {
  }

  /** Every operation of the contract keeps the books safe. */
  lemma StepKeepsSafe(b: Books, op: Operation)
    requires Safe(b)
    ensures Safe(Apply(b, op))
  {
    hide Apply, AllWrittenBy, Filed, PositionsOf, ValidPositions, Shifted, LeavesBehind, OnlyAdds, Power, Weight;
    hide AllEarned, Surplus;
    var c := Apply(b, op);
    StepShifts(b, op);
    Untouched(b, op);
    if op.AdvanceLedger? {
      LaterIsSafe(b, op.to);
    } else {
      forall d
        ensures Surplus(c.accounts, Positions(c), c.ledger, d)
        ensures 0 <= Power(c.accounts, d) && Weight(c.accounts, d) <= c.ledger * Power(c.accounts, d)
      {
        ShiftedKeepsSurplus(b.accounts, c.accounts, Positions(b), Positions(c), Actor(op), LeavesBehind(b, op), b.ledger, d);
        SurplusIsEarned(c.accounts, Positions(c), c.ledger, d);
      }
      EarnedAfter(b.accounts, c.accounts, b.ledger);
    }
  }

  lemma ShiftedKeepsSurplus(a: Accounts, b: Accounts, before: map<Address, Position>, after: map<Address, Position>,
                            who: Address, leftBehind: bool, now: nat, d: Address)
    requires Shifted(a, b, before, after, who, leftBehind) && ValidPositions(before, now) && Surplus(a, before, now, d)
    ensures Surplus(b, after, now, d)
  {
    hide Excess, ExcessWeight, PartOf, WeightedPartOf, ValidPositions;
    PartIsSound(before, who, d, now);
    DistributeOver(Excess(a, before, d), PartOf(before, who, d), now);
  }

  lemma LaterIsSafe(b: Books, to: nat)
    requires Safe(b)
    ensures Safe(Apply(b, AdvanceLedger(to)))
  {
    hide AllWrittenBy, Filed, PositionsOf, ValidPositions, Shifted, OnlyAdds, AllEarned, Excess, ExcessWeight;
    var c := Apply(b, AdvanceLedger(to));
    StepShifts(b, AdvanceLedger(to));
    forall d ensures Surplus(c.accounts, Positions(c), c.ledger, d) {
      assert Surplus(b.accounts, Positions(b), b.ledger, d);
      MultiplyBound(Excess(b.accounts, Positions(b), d), b.ledger, c.ledger);
      assert b.ledger * Excess(b.accounts, Positions(b), d) == Excess(b.accounts, Positions(b), d) * b.ledger;
    }
  }

  lemma {:induction false} RunKeepsSafe(b: Books, ops: seq<Operation>)
    requires Safe(b)
    ensures Safe(Run(b, ops))
    decreases |ops|
  {
    hide Safe, Apply;
    if ops != [] {
      StepKeepsSafe(b, ops[0]);
      RunKeepsSafe(Apply(b, ops[0]), ops[1..]);
    }
  }

  /** What a direct write does to the surplus of the accounts. */
  lemma WriteShifts(b: Books, account: Address, votes: int, d: Address)
    ensures var c, delta := Written(b, account, votes), votes - Power(b.accounts, account);
            && Excess(c.accounts, Positions(b), d) == Excess(b.accounts, Positions(b), d) + (if d == account then delta else 0)
            && ExcessWeight(c.accounts, Positions(b), d)
               == ExcessWeight(b.accounts, Positions(b), d) + (if d == account then delta * b.ledger else 0)
  {
    hide Credit, Power, Weight, PositionsOf;
    var delta := votes - Power(b.accounts, account);
    CreditPower(b.accounts, account, b.ledger, delta, delta * b.ledger);
  }

  lemma WriteIsOrderly(b: Books, account: Address, votes: int)
    requires Orderly(b)
    ensures var c := Written(b, account, votes);
            && Orderly(c) && OnlyAdds(b.accounts, c.accounts, b.ledger)
            && Positions(c) == Positions(b) && ValidPositions(Positions(c), c.ledger)
  {
    hide Credit, Power, Moved, Filed, ValidPositions, PositionsOf, AllWrittenBy, OnlyAdds;
    var delta := votes - Power(b.accounts, account);
    CreditMoves(b.accounts, account, b.ledger, delta, delta * b.ledger);
    MovedOnlyAdds(b.accounts, Written(b, account, votes).accounts, b.ledger, delta, delta * b.ledger);
  }

  /** A direct write keeps the books safe if and only if it writes at least what the delegations
      on file give the account. */
  lemma WriteKeepsSafeIff(b: Books, account: Address, votes: int)
    requires Safe(b)
    ensures Safe(Written(b, account, votes)) <==> Given(b, account) <= votes
  {
    hide Orderly, Written, Excess, ExcessWeight, OnlyAdds, AllEarned, PositionsOf, Surplus;
    var c := Written(b, account, votes);
    WriteIsOrderly(b, account, votes);
    SurplusAfterWrite(b, account, votes, account);
    if Given(b, account) <= votes {
      forall d
        ensures Surplus(c.accounts, Positions(c), c.ledger, d)
        ensures 0 <= Power(c.accounts, d) && Weight(c.accounts, d) <= c.ledger * Power(c.accounts, d)
      {
        SurplusAfterWrite(b, account, votes, d);
        SurplusIsEarned(c.accounts, Positions(c), c.ledger, d);
      }
      EarnedAfter(b.accounts, c.accounts, b.ledger);
    }
  }

  lemma SurplusAfterWrite(b: Books, account: Address, votes: int, d: Address)
    requires Surplus(b.accounts, Positions(b), b.ledger, d)
    ensures var c := Written(b, account, votes);
            c.ledger == b.ledger && (Surplus(c.accounts, Positions(b), c.ledger, d) <==> d != account || Given(b, account) <= votes)
  {
    hide Power, Weight, Credit, PositionsOf;
    WriteShifts(b, account, votes, d);
    DistributeOver(Excess(b.accounts, Positions(b), d), votes - Power(b.accounts, account), b.ledger);
  }

  // ---------------------------------------------------------------- runs with direct writes

  datatype Step = Ordinary(op: Operation) | Write(account: Address, votes: int)

  ghost function After(b: Books, step: Step): Books {
    match step
    case Ordinary(op) => Apply(b, op)
    case Write(account, votes) => Written(b, account, votes)
  }

  ghost function RunSteps(b: Books, steps: seq<Step>): Books
    decreases |steps|
  {
    if steps == [] then b else RunSteps(After(b, steps[0]), steps[1..])
  }

  /** Safe before every step and at the end. */
  ghost predicate SafeThroughout(b: Books, steps: seq<Step>)
    decreases |steps|
  {
    Safe(b) && (steps != [] ==> SafeThroughout(After(b, steps[0]), steps[1..]))
  }

  /** No direct write goes below what the delegations on file give the account. */
  ghost predicate WritesCover(b: Books, steps: seq<Step>)
    decreases |steps|
  {
    steps != [] ==>
      && (steps[0].Write? ==> Given(b, steps[0].account) <= steps[0].votes)
      && WritesCover(After(b, steps[0]), steps[1..])
  }

  /** Runs of operations and direct writes stay safe if and only if the writes cover the
      delegations; and then no account is told a negative number of votes. */
  lemma {:induction false} MixedRunSafeIff(b: Books, steps: seq<Step>)
    requires Safe(b)
    ensures SafeThroughout(b, steps) <==> WritesCover(b, steps)
    ensures WritesCover(b, steps) ==> NoNegativeAnswer(RunSteps(b, steps))
    decreases |steps|
  {
    hide Safe, Apply, Written, Given, NoNegativeAnswer;
    if steps == [] {
      SafeAnswers(b);
    } else {
      match steps[0]
      case Ordinary(op) =>
        StepKeepsSafe(b, op);
        MixedRunSafeIff(Apply(b, op), steps[1..]);
      case Write(account, votes) =>
        WriteKeepsSafeIff(b, account, votes);
        if Given(b, account) <= votes {
          MixedRunSafeIff(Written(b, account, votes), steps[1..]);
        } else {
          NotSafeThroughout(Written(b, account, votes), steps[1..]);
        }
    }
  }

  lemma NotSafeThroughout(b: Books, steps: seq<Step>)
    requires !Safe(b)
    ensures !SafeThroughout(b, steps)
  {
  }

  lemma SafeAnswers(b: Books)
    requires Safe(b)
    ensures NoNegativeAnswer(b)
  {
    hide Orderly, AllEarned, NoNegativeAnswer;
    EarnedAnswers(b);
  }

  // ---------------------------------------------------------------- what one write can lead to

  /** No run of the contract's operations leads to a negative answer. */
  ghost predicate NeverNegative(b: Books) {
    forall ops :: NoNegativeAnswer(Run(b, ops))
  }

  /** A direct write cannot lead to a negative answer, now or after any later operations, if and
      only if it writes at least what the delegations on file give the account. */
  lemma NeverNegativeIff(b: Books, account: Address, votes: int)
    requires Safe(b)
    ensures NeverNegative(Written(b, account, votes)) <==> Given(b, account) <= votes
  {
    hide Safe, Run, NoNegativeAnswer, Given, Written;
    var c := Written(b, account, votes);
    WriteKeepsSafeIff(b, account, votes);
    if Given(b, account) <= votes {
      forall ops ensures NoNegativeAnswer(Run(c, ops)) {
        RunKeepsSafe(c, ops);
        SafeAnswers(Run(c, ops));
      }
    } else {
      WriteIsDeficit(b, account, votes);
      var ops := DeficitGoesNegative(c, account);
      assert !NoNegativeAnswer(Run(c, ops));
    }
  }

  lemma WriteIsDeficit(b: Books, account: Address, votes: int)
    requires Safe(b) && votes < Given(b, account)
    ensures var c := Written(b, account, votes); Orderly(c) && Excess(c.accounts, Positions(c), account) < 0
  {
    hide AllWrittenBy, Filed, PositionsOf, ValidPositions, AllEarned, Surplus, OnlyAdds, Power, Weight, Credit;
    WriteIsOrderly(b, account, votes);
    WriteShifts(b, account, votes, account);
  }

  /** If an account holds less than the delegations give it, a run leads to a negative answer:
      all delegators come back with nothing, time passes, and the account delegates to itself
      just enough for a single vote. */
  lemma DeficitGoesNegative(b: Books, account: Address) returns (ops: seq<Operation>)
    requires Orderly(b) && Excess(b.accounts, Positions(b), account) < 0
    ensures !NoNegativeAnswer(Run(b, ops))
  {
    hide Orderly, Excess, ExcessWeight, Run, Apply, NoNegativeAnswer;
    var drain := DrainAll(b, b.records.Keys, account);
    var c := Run(b, drain);
    var e, ew := Excess(b.accounts, Positions(b), account), ExcessWeight(b.accounts, Positions(b), account);
    NothingGiven(c, account);
    var to := if 2 - ew <= c.ledger then c.ledger else 2 - ew;
    var last := [AdvanceLedger(to), Operation.Delegate(account, account, 1 - e)];
    RunOfTwo(c, last[0], last[1]);
    BackForOneVote(c, account, to);
    RunOn(b, drain, last);
    ops := drain + last;
  }

  lemma {:induction false} RunOn(b: Books, first: seq<Operation>, second: seq<Operation>)
    ensures Run(b, first + second) == Run(Run(b, first), second)
    decreases |first|
  {
    hide Apply;
    if first == [] {
      assert first + second == second;
    } else {
      assert (first + second)[0] == first[0] && (first + second)[1..] == first[1..] + second;
      RunOn(Apply(b, first[0]), first[1..], second);
    }
  }

  /** Nothing is on record for anybody. */
  ghost predicate Drained(b: Books, except: set<Address>) {
    forall a :: a in b.records && a !in except ==> b.records[a].balance == 0
  }

  /** All delegators come back with a balance of zero. */
  lemma {:induction false} DrainAll(b: Books, todo: set<Address>, account: Address) returns (ops: seq<Operation>)
    requires Orderly(b) && Drained(b, todo)
    ensures var c := Run(b, ops);
            && Orderly(c) && Drained(c, {}) && c.ledger == b.ledger
            && Excess(c.accounts, Positions(c), account) == Excess(b.accounts, Positions(b), account)
            && ExcessWeight(c.accounts, Positions(c), account) == ExcessWeight(b.accounts, Positions(b), account)
    decreases |todo|
  {
    hide Orderly, Apply, Excess, ExcessWeight;
    if todo == {} {
      ops := [];
    } else {
      var a :| a in todo;
      var op := Operation.DelegateSplit(a, Whole(a), 0);
      DrainOne(b, todo, a, account);
      var rest := DrainAll(Apply(b, op), todo - {a}, account);
      ops := [op] + rest;
      assert ops[1..] == rest;
    }
  }

  lemma DrainOne(b: Books, todo: set<Address>, a: Address, account: Address)
    requires Orderly(b) && Drained(b, todo)
    ensures var c := Apply(b, Operation.DelegateSplit(a, Whole(a), 0));
            && Orderly(c) && Drained(c, todo - {a}) && c.ledger == b.ledger
            && Excess(c.accounts, Positions(c), account) == Excess(b.accounts, Positions(b), account)
            && ExcessWeight(c.accounts, Positions(c), account) == ExcessWeight(b.accounts, Positions(b), account)
  {
    hide AllWrittenBy, Filed, PositionsOf, ValidPositions, ValidSplits, Excess, ExcessWeight, Resplit, Grown, OnlyAdds;
    hide AddedBySplit, HadPrior, StoredDelegates, StoredSplits;
    StepShifts(b, Operation.DelegateSplit(a, Whole(a), 0));
    WholeShare(a, DefaultRecord, a);
  }

  /** Then all an account holds is its surplus. */
  lemma NothingGiven(b: Books, account: Address)
    requires Drained(b, {})
    ensures Power(b.accounts, account) == Excess(b.accounts, Positions(b), account)
    ensures Weight(b.accounts, account) == ExcessWeight(b.accounts, Positions(b), account)
  {
    hide Power, Weight, Share;
    var positions := Positions(b);
    forall a | a in positions ensures Share(positions[a], account) == 0 {
      NoShareOfNothing(positions[a], account);
    }
    SumOfZeros(positions);
    SumOverCongruence(positions, ShareOf(account), positions, Zero());
    SumOverCongruence(positions, WeightedShareOf(account), positions, Zero());
  }

  /** An account with fewer than no votes that is then given enough for one. */
  lemma BackForOneVote(b: Books, account: Address, to: nat)
    requires Orderly(b) && Drained(b, {}) && Power(b.accounts, account) < 0
    requires b.ledger <= to && 2 - Weight(b.accounts, account) <= to
    ensures var balance := 1 - Power(b.accounts, account);
            !NoNegativeAnswer(Apply(Apply(b, AdvanceLedger(to)), Operation.Delegate(account, account, balance)))
  {
    hide Power, Weight, PositionsOf, AllWrittenBy, Filed, ValidPositions, OnlyAdds, Redelegated, Grown, VotesOf, At;
    var balance := 1 - Power(b.accounts, account);
    var c := b.(ledger := to);
    var d := Delegated(c, account, account, balance);
    StepShifts(b, AdvanceLedger(to));
    DelegatedShifts(c, account, account, balance);
    StartsNow(RecordOf(c.records, account), balance, to);
    var s := DelegatorRecord(balance, to);
    RedelegatedPower(c.accounts, to, c.delegates, c.splits, c.records, account, account, s);
    NoPartOfNothing(c, account);
    WholeShare(account, s, account);
    LatestFound(d.accounts, account, to);
    OneVoteLongOwed(At(HistoryOf(d.accounts, account), to), to, Power(b.accounts, account), Weight(b.accounts, account));
    assert AnswerOf(d, account, to, 1) < 0;
  }

  lemma StartsNow(r: DelegatorRecord, balance: nat, now: nat)
    requires r.balance == 0 && 0 < balance
    ensures Refreshed(r, balance, now) == DelegatorRecord(balance, now)
  {
    assert WeightOf(r) == 0;
    assert WeightOf(DelegatorRecord(balance, now)) == balance * now;
    ExactQuotient(balance, now);
  }

  lemma ExactQuotient(b: nat, n: nat)
    requires 0 < b
    ensures b * n / b == n
  {
    var x: nat := b * n;
    var q := x / b;
    QuotientBounds(x, b);
    if q < n {
      Distribute(b, q + 1, n - q - 1);
    } else if n < q {
      Distribute(b, n + 1, q - n - 1);
    }
  }

  lemma NoPartOfNothing(b: Books, a: Address)
    requires Drained(b, {})
    ensures PartOf(Positions(b), a, a) == 0 && WeightedPartOf(Positions(b), a, a) == 0
  {
    hide Share;
    if a in b.records {
      NoShareOfNothing(Positions(b)[a], a);
    }
  }

  lemma OneVoteLongOwed(cp: Checkpoint, to: nat, power: int, weight: int)
    requires power < 0 && 2 - weight <= to
    requires cp.votes == 1 && cp.weightedSum == weight + (1 - power) * to
    ensures VotesOf(cp, to, true, 1) < 0
  {
    assert (1 - power) * to == to + (-power) * to;
    assert (-power) * to >= to;
  }

  // ---------------------------------------------------------------- one write, and writes without delegations

  /** One direct write to the books of any reachable state never gives a negative answer by
      itself, whatever it writes. */
  lemma OneWriteNotNegative(b: Books, account: Address, votes: int)
    requires Valid(b)
    ensures NoNegativeAnswer(Written(b, account, votes))
  {
    hide Valid, Orderly, Credit, VotesOf, At, Power, Weight;
    ValidIsSafe(b);
    SafeAnswers(b);
    forall a, ledger: nat, scale: nat | 0 < scale ensures 0 <= AnswerOf(Written(b, account, votes), a, ledger, scale) {
      AnswerAfterWrite(b, account, votes, a, ledger, scale);
    }
  }

  lemma AnswerAfterWrite(b: Books, account: Address, votes: int, a: Address, ledger: nat, scale: nat)
    requires Safe(b) && NoNegativeAnswer(b) && 0 < scale
    ensures 0 <= AnswerOf(Written(b, account, votes), a, ledger, scale)
  {
    hide VotesOf, At, Power, Weight, Filed, ValidPositions, PositionsOf, AllEarned;
    assert 0 <= AnswerOf(b, a, ledger, scale);
    if a == account {
      var delta, now := votes - Power(b.accounts, account), b.ledger;
      if ledger < now {
        CreditSums(b.accounts, account, now, delta, delta * now, ledger);
      } else {
        assert Surplus(b.accounts, Positions(b), now, account);
        SurplusIsEarned(b.accounts, Positions(b), now, account);
        WriteNotNegativeIff(b.accounts, account, votes, now, scale);
        assert 0 < votes ==> 0 < (votes + 1) * scale;
        assert NotNegativeFrom(HistoryOf(Written(b, account, votes).accounts, account), now, scale);
      }
    }
  }

  /** Steps that write no negative votes and change no delegation. */
  ghost predicate Quiet(step: Step) {
    match step
    case Write(_, votes) => 0 <= votes
    case Ordinary(op) => op.AdvanceLedger? || op.Prune? || op.SetDepthLimit? || op.SetMaxTargets? || op.SetRetention?
  }

  /** As long as no delegation changes in between, direct writes that are not negative never give
      a negative answer. */
  lemma {:induction false} QuietRunNotNegative(b: Books, steps: seq<Step>)
    requires AllWrittenBy(b.accounts, b.ledger) && AllEarned(b.accounts)
    requires forall i :: 0 <= i < |steps| ==> Quiet(steps[i])
    ensures NoNegativeAnswer(RunSteps(b, steps))
    decreases |steps|
  {
    hide After, Quiet, AllEarned, AllWrittenBy;
    if steps == [] {
      EarnedAnswers(b);
    } else {
      QuietKeepsEarned(b, steps[0]);
      QuietRunNotNegative(After(b, steps[0]), steps[1..]);
    }
  }

  lemma QuietKeepsEarned(b: Books, step: Step)
    requires AllWrittenBy(b.accounts, b.ledger) && AllEarned(b.accounts) && Quiet(step)
    ensures var c := After(b, step); AllWrittenBy(c.accounts, c.ledger) && AllEarned(c.accounts)
  {
    hide AllEarned, PrunedAccounts, SafeCutoff, DirectlyWritten;
    match step
    case Write(account, votes) => WriteKeepsEarned(b.accounts, account, votes, b.ledger);
    case Ordinary(op) =>
      if op.Prune? {
        PruningKeepsEarned(b.accounts, SafeCutoff(b.ledger, b.retention, op.minActive), b.ledger);
      }
  }

  lemma WriteKeepsEarned(accounts: Accounts, account: Address, votes: int, now: nat)
    requires AllWrittenBy(accounts, now) && AllEarned(accounts) && 0 <= votes
    ensures var c := DirectlyWritten(accounts, account, votes, now); AllWrittenBy(c, now) && AllEarned(c)
  {
    hide Credit, Moved, AllEarned, AllWrittenBy, OnlyAdds, Power, Weight;
    var c, delta := DirectlyWritten(accounts, account, votes, now), votes - Power(accounts, account);
    CreditMoves(accounts, account, now, delta, delta * now);
    MovedOnlyAdds(accounts, c, now, delta, delta * now);
    CreditPower(accounts, account, now, delta, delta * now);
    forall d ensures 0 <= Power(c, d) && Weight(c, d) <= now * Power(c, d) {
      LatestEarned(accounts, d, now);
      DistributeOver(Power(accounts, account), delta, now);
    }
    EarnedAfter(accounts, c, now);
  }

  lemma LatestEarned(accounts: Accounts, d: Address, now: nat)
    requires AllWrittenBy(accounts, now) && AllEarned(accounts)
    ensures 0 <= Power(accounts, d) && Weight(accounts, d) <= now * Power(accounts, d)
  {
    var h := HistoryOf(accounts, d);
    if h != [] {
      var cp := h[|h| - 1];
      assert Earned(h[|h| - 1]);
      MultiplyBound(cp.votes, cp.ledger, now);
      assert cp.ledger * cp.votes == cp.votes * cp.ledger;
    }
  }

  lemma PruningKeepsEarned(accounts: Accounts, cutoff: nat, now: nat)
    requires AllWrittenBy(accounts, now) && AllEarned(accounts)
    ensures var c := PrunedAccounts(accounts, cutoff); AllWrittenBy(c, now) && AllEarned(c)
  {
    hide PrunedAccount, WrittenBy, Earned;
    var c := PrunedAccounts(accounts, cutoff);
    forall d, i | 0 <= i < |HistoryOf(c, d)| ensures Earned(HistoryOf(c, d)[i]) {
      KeptWas(accounts[d], cutoff, i);
      assert HistoryOf(c, d)[i] in HistoryOf(accounts, d);
      var k :| 0 <= k < |HistoryOf(accounts, d)| && HistoryOf(accounts, d)[k] == HistoryOf(c, d)[i];
    }
    PruningShifts(accounts, map[], "", cutoff, now);
  }

  /** With delegations in between, not even writing 70 of the 100 votes delegated is harmless. */
  lemma NonNegativeWriteCanGoNegative()
    ensures var b := Run(Genesis, [Operation.Delegate("alice", "bob", 100)]);
            Given(b, "bob") == 100 && NoNegativeAnswer(Written(b, "bob", 70)) && !NeverNegative(Written(b, "bob", 70))
  {
    hide Run, Apply, Valid, Safe, Power, Weight, Given, Written, NoNegativeAnswer, NeverNegative;
    var op := Operation.Delegate("alice", "bob", 100);
    var b := Run(Genesis, [op]);
    GenesisIsValid();
    RunKeepsValid(Genesis, [op]);
    RunOfOne(Genesis, op);
    StepKeepsExactIff(Genesis, op);
    FirstDelegation();
    GivenIsPower(b, "bob");
    ValidIsSafe(b);
    OneWriteNotNegative(b, "bob", 70);
    NeverNegativeIff(b, "bob", 70);
  }

  lemma GivenIsPower(b: Books, d: Address)
    requires Backed(b.accounts, Positions(b))
    ensures Given(b, d) == Power(b.accounts, d)
  {
    hide Power, Weight, PositionsOf;
    assert Excess(b.accounts, Positions(b), d) == 0;
  }
}
