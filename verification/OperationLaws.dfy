/** What each operation of the voting contract is for, in terms of the state before and after:
    which calls are let through, where the delegation is afterwards, what is on record, what
    votes move, and what pruning keeps. */
module OperationLaws {
  import opened Arithmetic
  import opened Options
  import opened Sums
  import opened Checkpoints
  import opened SplitDelegation
  import opened VotingLedger
  import opened TokenVotes
  import opened PastVotes
  import opened VotesBooks
  import Graph = DelegationGraph

  // ---------------------------------------------------------------- acceptance, effect and frame

  /** The account delegates to somebody else. */
  predicate Away(b: Books, who: Address) { who in b.delegates && b.delegates[who] != who }

  /** Which calls are let through. */
  ghost predicate LetThrough(b: Books, op: Operation) {
    match op
    case AdvanceLedger(to) => b.ledger <= to
    case Delegate(who, delegatee, _) =>
      || delegatee == who || (who in b.delegates && b.delegates[who] == delegatee)
      || exists c :: Graph.IsChain(b.delegates, c) && c[0] == delegatee && who !in c && |c| <= b.depthLimit
    case Undelegate(who, _) => Away(b, who)
    case Revoke(who) => Away(b, who)
    case DelegateSplit(_, parts, _) => ValidSplits(parts) && |parts| <= b.maxTargets
    case UndelegateSplit(who, _) => who in b.splits || Away(b, who)
    case Prune(_) => true
    case SetDepthLimit(limit) => 1 <= limit <= 64
    case SetMaxTargets(max) => 1 <= max
    case SetRetention(_) => true
  }

  lemma AllowedIff(b: Books, who: Address, delegatee: Address, balance: nat)
    ensures MayDelegate(b.delegates, who, delegatee, b.depthLimit) <==> LetThrough(b, Operation.Delegate(who, delegatee, balance))
  {
    hide Graph.IsChain;
  }

  lemma RefusedChangesNothing(b: Books, op: Operation)
    requires !LetThrough(b, op)
    ensures Apply(b, op) == b
  {
    hide ValidSplits, Delegated, SplitOver, Revoked, Pruned;
  }

  function Distribution(b: Books, a: Address): seq<Split> { DistributionOf(b.delegates, b.splits, a) }

  /** Whose delegation an operation changes. */
  function Subject(op: Operation): Option<Address> {
    match op
    case Delegate(who, _, _) => Some(who)
    case Undelegate(who, _) => Some(who)
    case Revoke(who) => Some(who)
    case DelegateSplit(who, _, _) => Some(who)
    case UndelegateSplit(who, _) => Some(who)
    case _ => None
  }

  /** Where the delegation is after a call that was let through. */
  lemma DistributionAfter(b: Books, op: Operation)
    requires LetThrough(b, op)
    ensures var c := Apply(b, op);
            match op
            case Delegate(who, delegatee, _) =>
              who in c.delegates && c.delegates[who] == delegatee && Distribution(c, who) == [Split(delegatee, 10_000)]
            case Undelegate(who, _) =>
              who in c.delegates && c.delegates[who] == who && Distribution(c, who) == [Split(who, 10_000)]
            case Revoke(who) => who !in c.delegates && who !in c.records
            case DelegateSplit(who, parts, _) =>
              && Distribution(c, who) == parts
              && (who in c.delegates <==> |parts| == 1) && (who in c.splits <==> |parts| != 1)
            case UndelegateSplit(who, _) =>
              && Distribution(c, who) == [Split(who, 10_000)]
              && who in c.delegates && c.delegates[who] == who && who !in c.splits
            case _ => c.delegates == b.delegates && c.splits == b.splits && c.records == b.records
  {
    hide Redelegated, Resplit, Withdrawn, Refreshed, Grown, Graph.IsChain, PrunedAccounts, PrunedTotal;
    match op
    case DelegateSplit(who, parts, _) =>
      StoredDistribution(b.delegates, b.splits, who, parts, who);
      SingleIsWhole(parts);
    case UndelegateSplit(who, _) => StoredDistribution(b.delegates, b.splits, who, Whole(who), who);
    case _ =>
  }

  lemma SingleIsWhole(parts: seq<Split>)
    requires ValidSplits(parts)
    ensures |parts| == 1 ==> parts[0].weightBps == BPS
  {
    assert |parts| == 1 ==> WeightSum(parts, 1) == WeightSum(parts, 0) + parts[0].weightBps;
  }

  /** Nobody else's delegation and record change, and no other setting. */
  lemma NobodyElse(b: Books, op: Operation, a: Address)
    requires Subject(op) != Some(a)
    ensures var c := Apply(b, op);
            && (a in c.delegates <==> a in b.delegates) && (a in c.splits <==> a in b.splits)
            && Distribution(c, a) == Distribution(b, a)
            && (a in c.records <==> a in b.records) && (a in b.records ==> c.records[a] == b.records[a])
  {
    hide Redelegated, Resplit, Withdrawn, Refreshed, Grown, MayDelegate, ValidSplits, PrunedAccounts, PrunedTotal;
  }

  lemma SettingsAfter(b: Books, op: Operation)
    requires LetThrough(b, op)
    ensures var c := Apply(b, op);
            && c.ledger == (if op.AdvanceLedger? then op.to else b.ledger)
            && c.depthLimit == (if op.SetDepthLimit? then op.limit else b.depthLimit)
            && c.maxTargets == (if op.SetMaxTargets? then op.max else b.maxTargets)
            && c.retention == (if op.SetRetention? then op.period else b.retention)
            && (Subject(op).None? && !op.Prune? ==> c.accounts == b.accounts && c.total == b.total)
  {
    hide Redelegated, Resplit, Withdrawn, Refreshed, Grown, MayDelegate, ValidSplits, PrunedAccounts, PrunedTotal;
  }

  // ---------------------------------------------------------------- records

  /** The balance that an operation reads. */
  function BalanceRead(op: Operation): Option<nat> {
    match op
    case Delegate(_, _, balance) => Some(balance)
    case Undelegate(_, balance) => Some(balance)
    case DelegateSplit(_, _, balance) => Some(balance)
    case UndelegateSplit(_, balance) => Some(balance)
    case _ => None
  }

  /** The token-ledgers that a balance held from a start ledger on has gathered by now. */
  function Gathered(r: DelegatorRecord, now: nat): int { r.balance * now - r.balance * r.startLedger }

  /** After an operation that reads a balance the record holds it. A balance that has not grown
      keeps its start ledger. Tokens added start now: the record takes away none of the
      token-ledgers gathered so far, and adds fewer than one ledger per token to them. */
  lemma RecordAfter(b: Books, op: Operation)
    requires LetThrough(b, op) && BalanceRead(op).Some?
    ensures var c, who := Apply(b, op), Subject(op).value;
            && who in c.records
            && var r, s := RecordOf(b.records, who), c.records[who];
            && s.balance == BalanceRead(op).value
            && (s.balance <= r.balance ==> s.startLedger == r.startLedger)
            && (r.balance < s.balance ==>
                  && 0 <= r.balance * r.startLedger + (s.balance - r.balance) * b.ledger - s.balance * s.startLedger < s.balance
                  && Gathered(r, b.ledger) <= Gathered(s, b.ledger) < Gathered(r, b.ledger) + s.balance)
  {
    hide Redelegated, Resplit, Withdrawn, Refreshed, Grown, ValidSplits, StoredDelegates, StoredSplits;
    MeanStart(RecordOf(b.records, Subject(op).value), BalanceRead(op).value, b.ledger);
  }

  lemma MeanStart(r: DelegatorRecord, balance: nat, now: nat)
    ensures var s := Refreshed(r, balance, now);
            && s.balance == balance
            && (balance <= r.balance ==> s.startLedger == r.startLedger)
            && (r.balance < balance ==>
                  && 0 <= r.balance * r.startLedger + (balance - r.balance) * now - balance * s.startLedger < balance
                  && Gathered(r, now) <= Gathered(s, now) < Gathered(r, now) + balance)
  {
    if r.balance < balance {
      QuotientBounds(r.balance * r.startLedger + (balance - r.balance) * now, balance);
      DistributeOver(r.balance, balance - r.balance, now);
    }
  }

  // ---------------------------------------------------------------- votes

  /** Every account gains what the delegator's new delegation gives it and loses what the old one
      gave it, unless that is left behind. */
  lemma VotesAfter(b: Books, op: Operation, d: Address)
    requires Orderly(b) && Subject(op).Some?
    ensures var c, who := Apply(b, op), Subject(op).value;
            && Power(c.accounts, d) == Power(b.accounts, d) + PartOf(Positions(c), who, d)
                                       - (if LeavesBehind(b, op) then 0 else PartOf(Positions(b), who, d))
            && Weight(c.accounts, d) == Weight(b.accounts, d) + WeightedPartOf(Positions(c), who, d)
                                        - (if LeavesBehind(b, op) then 0 else WeightedPartOf(Positions(b), who, d))
  {
    hide Apply, Orderly, Power, Weight, OnlyAdds, Share, MayDelegate, Subject;
    var c, who := Apply(b, op), Subject(op).value;
    StepShifts(b, op);
    OthersStay(b, op);
    assert Excess(c.accounts, Positions(c), d) - Excess(b.accounts, Positions(b), d)
        == if LeavesBehind(b, op) then PartOf(Positions(b), who, d) else 0 by { ActorIsSubject(op); }
    SumOverDelete(Positions(b), who, ShareOf(d));
    SumOverDelete(Positions(c), who, ShareOf(d));
    SumOverDelete(Positions(b), who, WeightedShareOf(d));
    SumOverDelete(Positions(c), who, WeightedShareOf(d));
    ActorIsSubject(op);
  }

  lemma ActorIsSubject(op: Operation)
    ensures op.Delegate? ==> Subject(op) == Some(Actor(op))
  {
  }

  lemma OthersStay(b: Books, op: Operation)
    requires Subject(op).Some?
    ensures Positions(Apply(b, op)) - {Subject(op).value} == Positions(b) - {Subject(op).value}
  {
    hide Apply, DistributionOf, Subject;
    var c, who := Apply(b, op), Subject(op).value;
    forall a | a != who
      ensures a in Positions(c) <==> a in Positions(b)
      ensures a in Positions(b) ==> a in Positions(c) && Positions(c)[a] == Positions(b)[a]
    {
      NobodyElse(b, op, a);
    }
  }

  /** Undelegating brings the balance back to the account and takes what is on record from its
      delegatee; nobody else's votes change. */
  lemma UndelegateReturns(b: Books, who: Address, balance: nat, d: Address)
    requires Orderly(b) && who in b.delegates && b.delegates[who] != who
    ensures var c, r := Apply(b, Undelegate(who, balance)), RecordOf(b.records, who);
            && who in c.records && var s := c.records[who];
            && Power(c.accounts, d) == Power(b.accounts, d)
                 + (if d == who then balance else if d == b.delegates[who] then 0 - r.balance else 0)
            && Weight(c.accounts, d) == Weight(b.accounts, d)
                 + (if d == who then balance * s.startLedger
                    else if d == b.delegates[who] then 0 - r.balance * r.startLedger else 0)
  {
    hide Apply, Power, Weight, Share, Filed, AllWrittenBy, ValidPositions;
    var op := Undelegate(who, balance);
    VotesAfter(b, op, d);
    RecordAfter(b, op);
    DistributionAfter(b, op);
    WholeShare(who, Apply(b, op).records[who], d);
    WholeShare(b.delegates[who], RecordOf(b.records, who), d);
    RecordedDelegation(b, who);
  }

  lemma RecordedDelegation(b: Books, who: Address)
    requires Orderly(b) && who in b.delegates
    ensures who in b.records
  {
  }

  /** Revoking takes what is on record from the delegatee; nobody else's votes change. */
  lemma RevokeTakes(b: Books, who: Address, d: Address)
    requires Orderly(b) && who in b.delegates && b.delegates[who] != who
    ensures var c, r := Apply(b, Revoke(who)), RecordOf(b.records, who);
            && Power(c.accounts, d) == Power(b.accounts, d) - (if d == b.delegates[who] then r.balance else 0)
            && Weight(c.accounts, d) == Weight(b.accounts, d) - (if d == b.delegates[who] then r.balance * r.startLedger else 0)
  {
    hide Apply, Power, Weight, Share, Filed, AllWrittenBy, ValidPositions;
    VotesAfter(b, Revoke(who), d);
    DistributionAfter(b, Revoke(who));
    WholeShare(b.delegates[who], RecordOf(b.records, who), d);
    RecordedDelegation(b, who);
  }

  /** A plain delegation that is let through gives the balance to the delegatee, and takes what
      is on record from the one before, if there was one. */
  lemma DelegateGives(b: Books, who: Address, delegatee: Address, balance: nat, d: Address)
    requires Orderly(b) && LetThrough(b, Operation.Delegate(who, delegatee, balance))
    ensures var c, r := Apply(b, Operation.Delegate(who, delegatee, balance)), RecordOf(b.records, who);
            && who in c.records && var s := c.records[who];
            && Power(c.accounts, d) == Power(b.accounts, d) + (if d == delegatee then balance else 0)
                 - (if who in b.delegates && d == b.delegates[who] then r.balance else 0)
            && Weight(c.accounts, d) == Weight(b.accounts, d) + (if d == delegatee then balance * s.startLedger else 0)
                 - (if who in b.delegates && d == b.delegates[who] then r.balance * r.startLedger else 0)
  {
    hide Apply, Power, Weight, Share, Filed, AllWrittenBy, ValidPositions;
    var op := Operation.Delegate(who, delegatee, balance);
    VotesAfter(b, op, d);
    RecordAfter(b, op);
    DistributionAfter(b, op);
    WholeShare(delegatee, Apply(b, op).records[who], d);
    if who in b.delegates {
      WholeShare(b.delegates[who], RecordOf(b.records, who), d);
      RecordedDelegation(b, who);
    }
  }

  /** A top-up: alice delegates 100 to bob at ledger 0, and again, holding 200, at ledger 1000.
      The 200 count from ledger 500 on: at ledger 2000, with a scale of 1000, bob is told 500. */
  lemma TopUp()
    ensures var to, again := Operation.Delegate("alice", "bob", 100), Operation.Delegate("alice", "bob", 200);
            var b := Run(Genesis, [to, AdvanceLedger(1000), again, AdvanceLedger(2000)]);
            && RecordOf(b.records, "alice") == DelegatorRecord(200, 500)
            && VotesOf(At(HistoryOf(b.accounts, "bob"), 2000), 2000, true, 1000) == 500
  {
    hide Apply, Run, Power, Weight, Orderly, Valid, At;
    var to, again := Operation.Delegate("alice", "bob", 100), Operation.Delegate("alice", "bob", 200);
    var b := Apply(Genesis, to);
    var c := Apply(b, AdvanceLedger(1000));
    var d := Apply(c, again);
    var e := Apply(d, AdvanceLedger(2000));
    RunOfFour(Genesis, to, AdvanceLedger(1000), again, AdvanceLedger(2000));
    GenesisIsValid();
    FourAreValid(Genesis, to, AdvanceLedger(1000), again, AdvanceLedger(2000));
    FirstOfTopUp(b);
    OnlyTime(b, 1000);
    SettingsAfter(c, again);
    RecordAfter(c, again);
    DelegateGives(c, "alice", "bob", 200, "bob");
    OnlyTime(d, 2000);
    LatestFound(e.accounts, "bob", 2000);
  }

  lemma FirstOfTopUp(b: Books)
    requires b == Apply(Genesis, Operation.Delegate("alice", "bob", 100))
    ensures b.ledger == 0 && "alice" in b.delegates && b.delegates["alice"] == "bob"
    ensures RecordOf(b.records, "alice") == DelegatorRecord(100, 0)
    ensures Power(b.accounts, "bob") == 100 && Weight(b.accounts, "bob") == 0
  {
    hide Apply, Power, Weight, Orderly, Valid;
    var to := Operation.Delegate("alice", "bob", 100);
    assert Graph.IsChain(map[], ["bob"]);
    GenesisIsValid();
    ValidIsOrderly(Genesis);
    DistributionAfter(Genesis, to);
    SettingsAfter(Genesis, to);
    RecordAfter(Genesis, to);
    DelegateGives(Genesis, "alice", "bob", 100, "bob");
    NobodyHasPower();
    NobodyHasWeight();
  }

  lemma NobodyHasWeight()
    ensures forall d :: Weight(map[], d) == 0
  {
  }

  lemma ValidIsOrderly(b: Books)
    requires Valid(b)
    ensures Orderly(b)
  {
  }

  lemma OnlyTime(b: Books, to: nat)
    requires b.ledger <= to
    ensures Apply(b, AdvanceLedger(to)) == b.(ledger := to)
  {
  }

  lemma RunOfFour(b: Books, w: Operation, x: Operation, y: Operation, z: Operation)
    ensures Run(b, [w, x, y, z]) == Apply(Apply(Apply(Apply(b, w), x), y), z)
  {
    hide Apply;
    var c := Apply(Apply(b, w), x);
    assert [w, x, y, z][1..] == [x, y, z] && [x, y, z][1..] == [y, z];
    RunOfTwo(c, y, z);
    assert Run(Apply(b, w), [x, y, z]) == Run(c, [y, z]);
  }

  lemma FourAreValid(b: Books, w: Operation, x: Operation, y: Operation, z: Operation)
    requires Valid(b)
    ensures var c, d := Apply(b, w), Apply(Apply(b, w), x);
            var e, f := Apply(d, y), Apply(Apply(d, y), z);
            && Valid(c) && Valid(d) && Valid(e) && Valid(f)
            && Orderly(c) && Orderly(d) && Orderly(e) && Orderly(f) && AllWrittenBy(f.accounts, f.ledger)
  {
    hide Valid, Apply;
    StepKeepsValid(b, w);
    StepKeepsValid(Apply(b, w), x);
    StepKeepsValid(Apply(Apply(b, w), x), y);
    StepKeepsValid(Apply(Apply(Apply(b, w), x), y), z);
    ValidIsOrderly(Apply(b, w));
    ValidIsOrderly(Apply(Apply(b, w), x));
    ValidIsOrderly(Apply(Apply(Apply(b, w), x), y));
    ValidIsOrderly(Apply(Apply(Apply(Apply(b, w), x), y), z));
  }

  // ---------------------------------------------------------------- pruning

  /** Pruning changes no account lookup within the retention period, nor from the oldest active
      proposal on. */
  lemma PruningKeepsRetained(b: Books, minActive: Option<nat>, a: Address, ledger: nat)
    requires Valid(b)
    requires b.ledger <= ledger + b.retention || (minActive.Some? && minActive.value <= ledger)
    ensures At(HistoryOf(Apply(b, Prune(minActive)).accounts, a), ledger) == At(HistoryOf(b.accounts, a), ledger)
  {
    hide Valid, Apply, At;
    PruneStep(b, minActive, ledger);
  }

  /** And it does drop what is old: of all that lies at or below a ledger that the retention
      period has left behind and no active proposal needs, an account keeps at most one
      checkpoint, and the total none, unless it is all there is. */
  lemma PruningDropsOld(b: Books, minActive: Option<nat>, a: Address, ledger: nat)
    requires Valid(b)
    requires (ledger == 0 || ledger + b.retention <= b.ledger) && (minActive.Some? ==> ledger <= minActive.value)
    ensures var h := HistoryOf(Apply(b, Prune(minActive)).accounts, a); forall i :: 1 <= i < |h| ==> ledger < h[i].ledger
    ensures var t := Apply(b, Prune(minActive)).total; forall i :: 0 <= i < |t| ==> ledger < t[i].ledger || |t| == 1
  {
    hide IsGrounded, Conserved, WrittenBy, HorizonAfter;
    var cutoff := SafeCutoff(b.ledger, b.retention, minActive);
    assert ledger <= cutoff;
    HistorySorted(b, a);
    BelowSplits(HistoryOf(b.accounts, a), cutoff);
    BelowSplits(b.total, cutoff);
  }

  lemma HistorySorted(b: Books, a: Address)
    requires Valid(b)
    ensures Sorted(HistoryOf(b.accounts, a)) && Sorted(b.total)
  {
  }
}
