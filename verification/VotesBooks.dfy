/** The state of the voting contract, what every operation does to it, and what every run of
    operations keeps. The token balance of a delegator is read from the token contract; here
    it comes with the operation. */
module VotesBooks {
  import opened Arithmetic
  import opened Options
  import opened Sums
  import opened Checkpoints
  import opened SplitDelegation
  import opened VotingLedger
  import opened TokenVotes
  import opened PastVotes
  import Graph = DelegationGraph

  /** The storage. Pruning has left lookups of the total alone from ledger horizon on; the
      contract does not store the horizon. */
  datatype Books = Books(
    ledger: nat, horizon: nat, delegates: map<Address, Address>, splits: map<Address, seq<Split>>,
    records: map<Address, DelegatorRecord>, accounts: Accounts, total: History,
    depthLimit: nat, maxTargets: nat, retention: nat)

  const Genesis: Books := Books(0, 0, map[], map[], map[], map[], [], 1, 10, 100_800)

  datatype Operation =
    | AdvanceLedger(to: nat)
    | Delegate(who: Address, delegatee: Address, balance: nat)
    | Undelegate(who: Address, balance: nat)
    | Revoke(who: Address)
    | DelegateSplit(who: Address, parts: seq<Split>, balance: nat)
    | UndelegateSplit(who: Address, balance: nat)
    | Prune(minActive: Option<nat>)
    | SetDepthLimit(limit: nat)
    | SetMaxTargets(max: nat)
    | SetRetention(period: nat)

  /** What every reachable state satisfies: histories are sorted and not in the future; at every
      ledger from the horizon on the accounts' votes add up to the total; and the accounts hold
      at least what the delegations on file give them, with sound checkpoints. */
  ghost predicate Valid(b: Books) {
    && AllWrittenBy(b.accounts, b.ledger) && WrittenBy(b.total, b.ledger)
    && b.horizon <= b.ledger && Conserved(b.accounts, b.total, b.horizon)
    && IsGrounded(b)
    && 1 <= b.depthLimit <= Graph.MAX_CHAIN_WALK && 1 <= b.maxTargets
  }

  ghost predicate IsGrounded(b: Books) {
    Filed(b.delegates, b.splits, b.records) && Grounded(b.accounts, Positions(b), b.ledger)
  }

  /** What the delegations on file give. */
  ghost function Positions(b: Books): map<Address, Position> { PositionsOf(b.delegates, b.splits, b.records) }

  /** The part of the invariant that does not look at votes. */
  ghost predicate Orderly(b: Books) {
    && AllWrittenBy(b.accounts, b.ledger)
    && Filed(b.delegates, b.splits, b.records) && ValidPositions(Positions(b), b.ledger)
    && 1 <= b.maxTargets
  }

  /** The books say exactly what the delegations on file say: every account's power is the sum
      of the shares delegated to it, the total is the sum of the balances on record. */
  ghost predicate IsExact(b: Books) {
    Backed(b.accounts, Positions(b)) && TotalBacked(b.total, Positions(b))
  }

  /** No lookup below ledger now has changed. */
  ghost predicate SamePast(a: Books, b: Books, now: nat) {
    && (forall d, ledger: nat :: ledger < now ==> At(HistoryOf(b.accounts, d), ledger) == At(HistoryOf(a.accounts, d), ledger))
    && (forall ledger: nat :: ledger < now ==> At(b.total, ledger) == At(a.total, ledger))
  }

  // ---------------------------------------------------------------- what operations do

  /** To oneself, to the current delegatee, or along an allowed new edge. */
  ghost predicate MayDelegate(delegates: map<Address, Address>, who: Address, delegatee: Address, limit: nat) {
    || delegatee == who
    || PreviousOf(delegates, who) == Some(delegatee)
    || Graph.Allowed(delegates, who, delegatee, limit)
  }

  /** The account has delegated to somebody else. */
  predicate DelegatesAway(delegates: map<Address, Address>, who: Address) {
    who in delegates && delegates[who] != who
  }

  function Delegated(b: Books, who: Address, delegatee: Address, balance: nat): Books {
    var previous, r := PreviousOf(b.delegates, who), RecordOf(b.records, who);
    var s := Refreshed(r, balance, b.ledger);
    var (x, xw) := Added(previous, r, s);
    b.(delegates := b.delegates[who := delegatee], records := b.records[who := s],
       accounts := Redelegated(b.accounts, b.ledger, previous, delegatee, r, s),
       total := Grown(b.total, b.ledger, x, xw))
  }

  function Revoked(b: Books, who: Address): Books {
    var r := RecordOf(b.records, who);
    b.(delegates := b.delegates - {who}, records := b.records - {who},
       accounts := Withdrawn(b.accounts, b.ledger, b.delegates, b.splits, who, r),
       total := Grown(b.total, b.ledger, 0 - r.balance, 0 - WeightOf(r)))
  }

  function SplitOver(b: Books, who: Address, parts: seq<Split>, balance: nat): Books {
    var r := RecordOf(b.records, who);
    var s := Refreshed(r, balance, b.ledger);
    var (x, xw) := AddedBySplit(HadPrior(b.delegates, b.splits, who), r, s);
    b.(delegates := StoredDelegates(b.delegates, who, parts), splits := StoredSplits(b.splits, who, parts),
       records := b.records[who := s],
       accounts := Resplit(b.accounts, b.ledger, b.delegates, b.splits, who, parts, r, s),
       total := Grown(b.total, b.ledger, x, xw))
  }

  function PrunedAccounts(accounts: Accounts, cutoff: nat): Accounts {
    map a | a in accounts :: PrunedAccount(accounts[a], cutoff)
  }

  /** From which ledger on lookups of the total survive pruning: the cutoff, or the first
      checkpoint kept, if something before it was dropped. */
  function HorizonAfter(total: History, cutoff: nat, horizon: nat): nat {
    var low := Below(total, cutoff);
    var reach := if low == 0 || low == |total| then cutoff else total[low].ledger;
    if horizon < reach then reach else horizon
  }

  function Pruned(b: Books, cutoff: nat): Books {
    b.(accounts := PrunedAccounts(b.accounts, cutoff), total := PrunedTotal(b.total, cutoff),
       horizon := HorizonAfter(b.total, cutoff, b.horizon))
  }

  /** The pruning cutoff: the highest ledger that the retention period has left behind and that
      is not beyond the oldest active proposal, or 0. */
  function SafeCutoff(ledger: nat, retention: nat, minActive: Option<nat>): (cutoff: nat)
    ensures cutoff <= ledger && (cutoff == 0 || cutoff + retention <= ledger)
    ensures minActive.Some? ==> cutoff <= minActive.value
    ensures ledger <= cutoff + retention || (minActive.Some? && minActive.value == cutoff)
  {
    var cutoff := if retention <= ledger then ledger - retention else 0;
    if minActive.Some? && minActive.value < cutoff then minActive.value else cutoff
  }

  /** The state after an operation; one that fails leaves the state as it is. */
  ghost function Apply(b: Books, op: Operation): Books {
    match op
    case AdvanceLedger(to) => if b.ledger <= to then b.(ledger := to) else b
    case Delegate(who, delegatee, balance) =>
      if MayDelegate(b.delegates, who, delegatee, b.depthLimit) then Delegated(b, who, delegatee, balance) else b
    case Undelegate(who, balance) =>
      if DelegatesAway(b.delegates, who) then Delegated(b, who, who, balance) else b
    case Revoke(who) => if DelegatesAway(b.delegates, who) then Revoked(b, who) else b
    case DelegateSplit(who, parts, balance) =>
      if ValidSplits(parts) && |parts| <= b.maxTargets then SplitOver(b, who, parts, balance) else b
    case UndelegateSplit(who, balance) =>
      if who in b.splits || DelegatesAway(b.delegates, who) then SplitOver(b, who, Whole(who), balance) else b
    case Prune(minActive) => Pruned(b, SafeCutoff(b.ledger, b.retention, minActive))
    case SetDepthLimit(limit) => if 1 <= limit <= Graph.MAX_CHAIN_WALK then b.(depthLimit := limit) else b
    case SetMaxTargets(max) => if 1 <= max then b.(maxTargets := max) else b
    case SetRetention(period) => b.(retention := period)
  }

  ghost function Run(b: Books, ops: seq<Operation>): Books
    decreases |ops|
  {
    if ops == [] then b else Run(Apply(b, ops[0]), ops[1..])
  }

  // ---------------------------------------------------------------- delegating

  /** An operation that changes accounts and total alike. */
  lemma MovedKeeps(b: Books, c: Books, x: int, xw: int)
    requires Valid(b) && Moved(b.accounts, c.accounts, b.ledger, x, xw) && c.total == Grown(b.total, b.ledger, x, xw)
    requires c.ledger == b.ledger && c.horizon == b.horizon
    ensures AllWrittenBy(c.accounts, c.ledger) && WrittenBy(c.total, c.ledger) && Conserved(c.accounts, c.total, c.horizon)
    ensures SamePast(b, c, b.ledger)
  {
    hide Grown, Conserved, WrittenBy, ValidSplits;
    MovesConserve(b.accounts, c.accounts, b.total, b.ledger, b.horizon, x, xw);
  }

  lemma RecordNotLater(b: Books, who: Address)
    requires Orderly(b)
    ensures RecordOf(b.records, who).startLedger <= b.ledger
  {
    hide ValidSplits;
    assert who in b.records ==> who in Positions(b) && Positions(b)[who].startLedger == b.records[who].startLedger;
  }

  lemma DelegatedShifts(b: Books, who: Address, delegatee: Address, balance: nat)
    requires Orderly(b)
    ensures var c := Delegated(b, who, delegatee, balance);
            && Orderly(c) && OnlyAdds(b.accounts, c.accounts, b.ledger)
            && Shifted(b.accounts, c.accounts, Positions(b), Positions(c), who, who !in b.delegates)
  {
    hide Redelegated, Grown, Refreshed, AllWrittenBy, Filed, ValidPositions, PositionsOf, OnlyAdds, Shifted;
    RecordNotLater(b, who);
    RefreshedNotLater(RecordOf(b.records, who), balance, b.ledger);
    RedelegatedShifts(b.accounts, b.delegates, b.splits, b.records, who, delegatee,
                      Refreshed(RecordOf(b.records, who), balance, b.ledger), b.ledger);
  }

  lemma DelegatedKeeps(b: Books, who: Address, delegatee: Address, balance: nat)
    requires Valid(b)
    ensures var c := Delegated(b, who, delegatee, balance); Valid(c) && SamePast(b, c, b.ledger)
  {
    hide Redelegated, Grown, Refreshed, Conserved, AllWrittenBy, WrittenBy, Filed, Moved, Covered, AllSound, SamePast;
    hide PositionsOf, ValidPositions, Shifted, OnlyAdds;
    var c := Delegated(b, who, delegatee, balance);
    var previous, r := PreviousOf(b.delegates, who), RecordOf(b.records, who);
    var s := Refreshed(r, balance, b.ledger);
    var (x, xw) := Added(previous, r, s);
    RedelegatedMoves(b.accounts, b.ledger, previous, delegatee, r, s);
    MovedKeeps(b, c, x, xw);
    DelegatedShifts(b, who, delegatee, balance);
    ShiftedKeepsGrounded(b.accounts, c.accounts, Positions(b), Positions(c), who, who !in b.delegates, b.ledger);
  }

  lemma SplitsAreValid(b: Books)
    requires Valid(b)
    ensures forall a :: a in b.splits ==> ValidSplits(b.splits[a])
  {
  }

  lemma RevocationShifts(b: Books, who: Address)
    requires Orderly(b) && who in b.delegates
    ensures var c := Revoked(b, who);
            && Orderly(c) && OnlyAdds(b.accounts, c.accounts, b.ledger)
            && Shifted(b.accounts, c.accounts, Positions(b), Positions(c), who, false)
  {
    hide Withdrawn, Grown, AllWrittenBy, Filed, ValidPositions, PositionsOf, OnlyAdds, Shifted;
    RevokedShifts(b.accounts, b.delegates, b.splits, b.records, who, b.ledger);
  }

  lemma RevokedKeeps(b: Books, who: Address)
    requires Valid(b) && DelegatesAway(b.delegates, who)
    ensures var c := Revoked(b, who); Valid(c) && SamePast(b, c, b.ledger)
  {
    hide Withdrawn, Grown, Conserved, AllWrittenBy, WrittenBy, Filed, ValidSplits, Moved, Covered, AllSound, SamePast;
    hide PositionsOf, ValidPositions, Shifted, OnlyAdds;
    var c, r := Revoked(b, who), RecordOf(b.records, who);
    SplitsAreValid(b);
    WithdrawnMoves(b.accounts, b.ledger, b.delegates, b.splits, who, r);
    MovedKeeps(b, c, 0 - r.balance, 0 - WeightOf(r));
    RevocationShifts(b, who);
    ShiftedKeepsGrounded(b.accounts, c.accounts, Positions(b), Positions(c), who, false, b.ledger);
  }

  lemma SplitShifts(b: Books, who: Address, parts: seq<Split>, balance: nat)
    requires Orderly(b) && ValidSplits(parts)
    ensures var c := SplitOver(b, who, parts, balance);
            && Orderly(c) && OnlyAdds(b.accounts, c.accounts, b.ledger)
            && Shifted(b.accounts, c.accounts, Positions(b), Positions(c), who, false)
  {
    hide Resplit, Grown, Refreshed, AllWrittenBy, Filed, ValidPositions, ValidSplits, PositionsOf, OnlyAdds, Shifted;
    hide HadPrior, AddedBySplit, StoredDelegates, StoredSplits;
    RecordNotLater(b, who);
    RefreshedNotLater(RecordOf(b.records, who), balance, b.ledger);
    ResplitShifts(b.accounts, b.delegates, b.splits, b.records, who, parts,
                  Refreshed(RecordOf(b.records, who), balance, b.ledger), b.ledger);
  }

  lemma SplitKeeps(b: Books, who: Address, parts: seq<Split>, balance: nat)
    requires Valid(b) && ValidSplits(parts)
    ensures var c := SplitOver(b, who, parts, balance); Valid(c) && SamePast(b, c, b.ledger)
  {
    hide Resplit, Grown, Refreshed, Conserved, AllWrittenBy, WrittenBy, Filed, ValidSplits, Moved, Covered, AllSound;
    hide SamePast, PositionsOf, HadPrior, AddedBySplit, StoredDelegates, StoredSplits, ValidPositions, Shifted;
    hide OnlyAdds;
    var c := SplitOver(b, who, parts, balance);
    var r := RecordOf(b.records, who);
    var s := Refreshed(r, balance, b.ledger);
    var (x, xw) := AddedBySplit(HadPrior(b.delegates, b.splits, who), r, s);
    SplitsAreValid(b);
    ResplitMoves(b.accounts, b.ledger, b.delegates, b.splits, who, parts, r, s);
    MovedKeeps(b, c, x, xw);
    SplitShifts(b, who, parts, balance);
    ShiftedKeepsGrounded(b.accounts, c.accounts, Positions(b), Positions(c), who, false, b.ledger);
  }

  // ---------------------------------------------------------------- pruning

  /** Pruning leaves every lookup from the new horizon on as it was, and the books balanced
      there. */
  lemma PruningConserves(accounts: Accounts, total: History, cutoff: nat, horizon: nat, now: nat)
    requires AllWrittenBy(accounts, now) && WrittenBy(total, now) && Conserved(accounts, total, horizon)
    requires cutoff <= now && horizon <= now
    ensures var a, t, h := PrunedAccounts(accounts, cutoff), PrunedTotal(total, cutoff), HorizonAfter(total, cutoff, horizon);
            && AllWrittenBy(a, now) && WrittenBy(t, now) && h <= now && Conserved(a, t, h)
            && (forall d, ledger: nat :: cutoff <= ledger ==> At(HistoryOf(a, d), ledger) == At(HistoryOf(accounts, d), ledger))
            && (forall ledger: nat :: h <= ledger ==> At(t, ledger) == At(total, ledger))
  {
    var a, t, h := PrunedAccounts(accounts, cutoff), PrunedTotal(total, cutoff), HorizonAfter(total, cutoff, horizon);
    BelowSplits(total, cutoff);
    PruneTotalKeepsLookupIff(total, cutoff, now);
    forall d | d in accounts ensures WrittenBy(a[d], now) {
      PruneAccountKeepsLookups(accounts[d], cutoff, now);
    }
    forall d, ledger: nat | cutoff <= ledger
      ensures At(HistoryOf(a, d), ledger) == At(HistoryOf(accounts, d), ledger)
    {
      if d in accounts {
        PruneAccountKeepsLookups(accounts[d], cutoff, ledger);
      }
    }
    forall ledger: nat | h <= ledger
      ensures At(t, ledger) == At(total, ledger)
      ensures BalancedAt(a, t, ledger)
    {
      PruneTotalKeepsLookupIff(total, cutoff, ledger);
      PrunedSums(accounts, cutoff, ledger);
      assert BalancedAt(accounts, total, ledger);
    }
  }

  lemma SortedHistory(accounts: Accounts, a: Address, now: nat)
    requires AllWrittenBy(accounts, now) && a in accounts
    ensures Sorted(accounts[a])
  {
  }

  lemma PrunedSums(accounts: Accounts, cutoff: nat, ledger: nat)
    requires cutoff <= ledger && forall a :: a in accounts ==> Sorted(accounts[a])
    ensures SumVotes(PrunedAccounts(accounts, cutoff), ledger) == SumVotes(accounts, ledger)
    ensures SumWeights(PrunedAccounts(accounts, cutoff), ledger) == SumWeights(accounts, ledger)
  {
    var a := PrunedAccounts(accounts, cutoff);
    forall d | d in accounts ensures At(a[d], ledger) == At(accounts[d], ledger) {
      PruneAccountKeepsLookups(accounts[d], cutoff, ledger);
    }
    SumOverCongruence(a, VotesAt(ledger), accounts, VotesAt(ledger));
    SumOverCongruence(a, WeightAt(ledger), accounts, WeightAt(ledger));
  }

  /** Pruning changes no current value and adds no checkpoint. */
  lemma PruningShifts(accounts: Accounts, positions: map<Address, Position>, who: Address, cutoff: nat, now: nat)
    requires AllWrittenBy(accounts, now)
    ensures var a := PrunedAccounts(accounts, cutoff);
            && AllWrittenBy(a, now) && OnlyAdds(accounts, a, now)
            && Shifted(accounts, a, positions, positions, who, false)
  {
    hide PrunedAccount, Below, At;
    var a := PrunedAccounts(accounts, cutoff);
    forall d
      ensures Latest(HistoryOf(a, d)) == Latest(HistoryOf(accounts, d))
      ensures d in a ==> WrittenBy(a[d], now)
    {
      if d in accounts {
        PruneAccountKeepsLookups(accounts[d], cutoff, cutoff);
      }
    }
    forall d, i | 0 <= i < |HistoryOf(a, d)| ensures HistoryOf(a, d)[i] in HistoryOf(accounts, d) {
      KeptWas(accounts[d], cutoff, i);
    }
  }

  /** Pruning keeps checkpoints as they were. */
  lemma KeptWas(h: History, cutoff: nat, i: nat)
    requires i < |PrunedAccount(h, cutoff)|
    ensures PrunedAccount(h, cutoff)[i] in h
  {
    var low := Below(h, cutoff);
    assert PrunedAccount(h, cutoff)[i] == h[if low > 0 then low - 1 + i else i];
  }

  lemma PrunedKeeps(b: Books, cutoff: nat)
    requires Valid(b) && cutoff <= b.ledger
    ensures var c := Pruned(b, cutoff);
            && Valid(c) && b.horizon <= c.horizon
            && (forall d, l: nat :: cutoff <= l ==> At(HistoryOf(c.accounts, d), l) == At(HistoryOf(b.accounts, d), l))
            && (forall l: nat :: c.horizon <= l ==> At(c.total, l) == At(b.total, l))
  {
    hide Conserved, AllWrittenBy, WrittenBy, Filed, Covered, AllSound, PositionsOf, PrunedTotal, PrunedAccounts;
    hide ValidPositions, Shifted, OnlyAdds;
    var positions := Positions(b);
    PruningConserves(b.accounts, b.total, cutoff, b.horizon, b.ledger);
    PruningShifts(b.accounts, positions, "", cutoff, b.ledger);
    ShiftedKeepsGrounded(b.accounts, PrunedAccounts(b.accounts, cutoff), positions, positions, "", false, b.ledger);
  }

  // ---------------------------------------------------------------- every step, every run

  lemma LaterKeeps(b: Books, to: nat)
    requires Valid(b) && b.ledger <= to
    ensures Valid(b.(ledger := to))
  {
    hide Conserved, Filed, AllSound, Covered;
    assert Covered(b.accounts, Positions(b), to) by { CoveredLater(b.accounts, Positions(b), b.ledger, to); }
  }

  lemma CoveredLater(accounts: Accounts, positions: map<Address, Position>, now: nat, to: nat)
    requires Covered(accounts, positions, now) && now <= to
    ensures Covered(accounts, positions, to)
  {
    hide Excess, ExcessWeight;
    forall d
      ensures 0 <= Excess(accounts, positions, d)
      ensures 0 <= ExcessWeight(accounts, positions, d) <= to * Excess(accounts, positions, d)
    {
      MultiplyBound(Excess(accounts, positions, d), now, to);
    }
  }

  /** Conservation at every ledger from the horizon on, sorted histories: every operation keeps
      them, and none but pruning changes a lookup of the past. */
  lemma StepKeepsValid(b: Books, op: Operation)
    requires Valid(b)
    ensures var c := Apply(b, op);
            Valid(c) && b.ledger <= c.ledger && b.horizon <= c.horizon && (!op.Prune? ==> SamePast(b, c, b.ledger))
  {
    hide AllWrittenBy, WrittenBy, Conserved, Filed, Grounded, PositionsOf, ValidSplits, Delegated, Revoked;
    hide SplitOver, Pruned, MayDelegate, SafeCutoff;
    match op
    case AdvanceLedger(to) => if b.ledger <= to { LaterKeeps(b, to); }
    case Delegate(who, delegatee, balance) => Untouched(b, op); DelegatedKeeps(b, who, delegatee, balance);
    case Undelegate(who, balance) => Untouched(b, op); DelegatedKeeps(b, who, who, balance);
    case Revoke(who) => Untouched(b, op); if DelegatesAway(b.delegates, who) { RevokedKeeps(b, who); }
    case DelegateSplit(who, parts, balance) =>
      Untouched(b, op);
      if ValidSplits(parts) { SplitKeeps(b, who, parts, balance); }
    case UndelegateSplit(who, balance) =>
      Untouched(b, op);
      WholeShare(who, DefaultRecord, who);
      SplitKeeps(b, who, Whole(who), balance);
    case Prune(minActive) => Untouched(b, op); PrunedKeeps(b, SafeCutoff(b.ledger, b.retention, minActive));
    case _ =>
  }

  /** Only time moves the ledger, and only pruning the horizon. */
  lemma Untouched(b: Books, op: Operation)
    ensures !op.AdvanceLedger? ==> Apply(b, op).ledger == b.ledger
    ensures !op.Prune? ==> Apply(b, op).horizon == b.horizon
  {
  }

  lemma GenesisIsValid()
    ensures Valid(Genesis) && IsExact(Genesis)
  {
    assert Positions(Genesis) == map[];
    assert forall d :: Excess(map[], map[], d) == 0 && ExcessWeight(map[], map[], d) == 0;
  }

  lemma {:induction false} RunKeepsValid(b: Books, ops: seq<Operation>)
    requires Valid(b)
    ensures Valid(Run(b, ops)) && b.ledger <= Run(b, ops).ledger && b.horizon <= Run(b, ops).horizon
    decreases |ops|
  {
    hide Valid, Apply;
    if ops != [] {
      StepKeepsValid(b, ops[0]);
      RunKeepsValid(Apply(b, ops[0]), ops[1..]);
    }
  }

  /** Conservation as callers see it, over every run of a fresh contract: at every ledger from
      the horizon on, the answers for all accounts add up to the answer for the total; with
      time weighting they never exceed it and lose at most one vote per account to rounding. */
  lemma AnswersAddUp(ops: seq<Operation>, ledger: nat, scale: nat)
    requires Run(Genesis, ops).horizon <= ledger
    ensures var b := Run(Genesis, ops);
            SumOver(b.accounts, VotesOfAt(ledger, false, 0)) == VotesOf(At(b.total, ledger), ledger, false, 0)
    ensures 0 < scale ==>
              var b := Run(Genesis, ops);
              var sum := SumOver(b.accounts, VotesOfAt(ledger, true, scale));
              sum <= VotesOf(At(b.total, ledger), ledger, true, scale) <= sum + |b.accounts|
  {
    hide Run, Apply, VotesOf, PositionsOf, Covered, Filed;
    GenesisIsValid();
    RunKeepsValid(Genesis, ops);
    var b := Run(Genesis, ops);
    assert BalancedAt(b.accounts, b.total, ledger);
    VotesAddUp(b.accounts, b.total, ledger);
    if 0 < scale {
      TimeWeightedVotesAddUp(b.accounts, b.total, ledger, scale);
    }
  }

  /** Over every run of a fresh contract no account is ever told a negative number of votes, and
      time weighting never takes votes away. */
  lemma AnswersNotNegative(ops: seq<Operation>, a: Address, ledger: nat, scale: nat)
    requires 0 < scale
    ensures var cp := At(HistoryOf(Run(Genesis, ops).accounts, a), ledger);
            0 <= VotesOf(cp, ledger, false, 0) <= VotesOf(cp, ledger, true, scale)
  {
    hide Run, Apply, PositionsOf, Covered, Filed, At;
    GenesisIsValid();
    RunKeepsValid(Genesis, ops);
    var accounts := Run(Genesis, ops).accounts;
    forall i | 0 <= i < |HistoryOf(accounts, a)| ensures Sound(HistoryOf(accounts, a)[i]) {
      assert Sound(accounts[a][i]);
    }
    FoundIsSound(HistoryOf(accounts, a), ledger);
  }

  /** Pruning does not touch the ledger: it is within the retention period, or not before the
      oldest active proposal. Nothing else touches the past. */
  ghost predicate Spares(b: Books, op: Operation, ledger: nat) {
    op.Prune? ==> b.ledger <= ledger + b.retention || (op.minActive.Some? && op.minActive.value <= ledger)
  }

  ghost predicate AllSpare(b: Books, ops: seq<Operation>, ledger: nat)
    decreases |ops|
  {
    ops != [] ==> Spares(b, ops[0], ledger) && AllSpare(Apply(b, ops[0]), ops[1..], ledger)
  }

  /** The ledger of the first checkpoint kept. */
  function FirstLedger(total: History): nat { if total == [] then 0 else total[0].ledger }

  /** Snapshot isolation over every run: once a ledger has passed, no later operation changes
      what is looked up there, if no pruning finds it outside both the retention period and the
      reach of the proposals active then; for the total, if in the end a checkpoint is left that
      is not later. */
  lemma {:induction false} SnapshotIsolation(b: Books, ops: seq<Operation>, d: Address, ledger: nat)
    requires Valid(b) && ledger < b.ledger && AllSpare(b, ops, ledger)
    ensures At(HistoryOf(Run(b, ops).accounts, d), ledger) == At(HistoryOf(b.accounts, d), ledger)
    ensures b.horizon <= ledger && FirstLedger(Run(b, ops).total) <= ledger ==> At(Run(b, ops).total, ledger) == At(b.total, ledger)
    decreases |ops|
  {
    hide Valid, Apply, At, Spares, FirstLedger;
    if ops != [] {
      var c := Apply(b, ops[0]);
      StepKeepsValid(b, ops[0]);
      FirstOnlyLater(c, ops[1..]);
      HorizonStep(b, ops[0], ledger);
      if ops[0].Prune? {
        PruneStep(b, ops[0].minActive, ledger);
      }
      SnapshotIsolation(c, ops[1..], d, ledger);
    }
  }

  lemma PruneStep(b: Books, minActive: Option<nat>, ledger: nat)
    requires Valid(b) && Spares(b, Prune(minActive), ledger)
    ensures var c := Apply(b, Prune(minActive));
            && (forall d :: At(HistoryOf(c.accounts, d), ledger) == At(HistoryOf(b.accounts, d), ledger))
            && (c.horizon <= ledger ==> At(c.total, ledger) == At(b.total, ledger))
  {
    hide Valid, Pruned;
    PrunedKeeps(b, SafeCutoff(b.ledger, b.retention, minActive));
  }

  /** The horizon goes where the total's first checkpoint goes, or stays behind spared ledgers. */
  lemma HorizonStep(b: Books, op: Operation, ledger: nat)
    requires Valid(b) && Spares(b, op, ledger)
    ensures FirstLedger(b.total) <= FirstLedger(Apply(b, op).total)
    ensures b.horizon <= ledger && FirstLedger(Apply(b, op).total) <= ledger ==> Apply(b, op).horizon <= ledger
  {
    hide MayDelegate, ValidSplits, IsGrounded, Conserved, AllWrittenBy, PrunedAccounts, Grown, SafeCutoff, FirstLedger, PrunedTotal;
    hide HorizonAfter;
    forall x, xw ensures FirstLedger(b.total) <= FirstLedger(Grown(b.total, b.ledger, x, xw)) {
      FirstGrown(b.total, b.ledger, x, xw);
    }
    if op.Prune? {
      HorizonPruned(b.total, SafeCutoff(b.ledger, b.retention, op.minActive), b.horizon);
    }
  }

  lemma FirstGrown(total: History, now: nat, x: int, xw: int)
    requires WrittenBy(total, now)
    ensures FirstLedger(total) <= FirstLedger(Grown(total, now, x, xw))
  {
  }

  lemma HorizonPruned(total: History, cutoff: nat, horizon: nat)
    requires Sorted(total)
    ensures FirstLedger(total) <= FirstLedger(PrunedTotal(total, cutoff))
    ensures var h := HorizonAfter(total, cutoff, horizon);
            h <= horizon || h <= cutoff || h <= FirstLedger(PrunedTotal(total, cutoff))
  {
  }

  lemma {:induction false} FirstOnlyLater(b: Books, ops: seq<Operation>)
    requires Valid(b)
    ensures FirstLedger(b.total) <= FirstLedger(Run(b, ops).total)
    decreases |ops|
  {
    hide Valid, Apply, FirstLedger;
    if ops != [] {
      StepKeepsValid(b, ops[0]);
      FirstStep(b, ops[0]);
      FirstOnlyLater(Apply(b, ops[0]), ops[1..]);
    }
  }

  lemma FirstStep(b: Books, op: Operation)
    requires Valid(b)
    ensures FirstLedger(b.total) <= FirstLedger(Apply(b, op).total)
  {
    hide Valid, Apply, FirstLedger;
    HorizonStep(b, op, b.ledger);
  }

  /** Conservation without the horizon: it holds at every ledger that no pruning of the run
      reached and that is not before the first checkpoint of the total. */
  lemma AnswersAddUpIfSpared(ops: seq<Operation>, ledger: nat, scale: nat)
    requires AllSpare(Genesis, ops, ledger) && FirstLedger(Run(Genesis, ops).total) <= ledger
    ensures var b := Run(Genesis, ops);
            SumOver(b.accounts, VotesOfAt(ledger, false, 0)) == VotesOf(At(b.total, ledger), ledger, false, 0)
    ensures 0 < scale ==>
              var b := Run(Genesis, ops);
              var sum := SumOver(b.accounts, VotesOfAt(ledger, true, scale));
              sum <= VotesOf(At(b.total, ledger), ledger, true, scale) <= sum + |b.accounts|
  {
    hide Run, Apply, VotesOf, Valid, FirstLedger;
    GenesisIsValid();
    HorizonWithin(Genesis, ops, ledger);
    AnswersAddUp(ops, ledger, scale);
  }

  lemma {:induction false} HorizonWithin(b: Books, ops: seq<Operation>, ledger: nat)
    requires Valid(b) && b.horizon <= ledger && AllSpare(b, ops, ledger) && FirstLedger(Run(b, ops).total) <= ledger
    ensures Run(b, ops).horizon <= ledger
    decreases |ops|
  {
    hide Valid, Apply, Spares, FirstLedger;
    if ops != [] {
      StepKeepsValid(b, ops[0]);
      HorizonStep(b, ops[0], ledger);
      FirstOnlyLater(Apply(b, ops[0]), ops[1..]);
      HorizonWithin(Apply(b, ops[0]), ops[1..], ledger);
    }
  }

  // ---------------------------------------------------------------- exact books

  /** A plain delegation, let through, by an account that has none. It takes nothing out: if the
      account has a split, its shares stay where they are. */
  ghost predicate LeavesBehind(b: Books, op: Operation) {
    op.Delegate? && MayDelegate(b.delegates, op.who, op.delegatee, b.depthLimit) && op.who !in b.delegates
  }

  /** Such a delegation with a balance on record, which is then counted twice. */
  ghost predicate CountsTwice(b: Books, op: Operation) {
    LeavesBehind(b, op) && RecordOf(b.records, op.who).balance != 0
  }

  /** Whose shares an operation may leave behind. */
  function Actor(op: Operation): Address { if op.Delegate? then op.who else "" }

  /** What every operation does to the votes accounts hold beyond the delegations on file: it
      changes them only by shares left behind. */
  lemma StepShifts(b: Books, op: Operation)
    requires Orderly(b)
    ensures var c := Apply(b, op);
            && Orderly(c) && OnlyAdds(b.accounts, c.accounts, b.ledger)
            && Shifted(b.accounts, c.accounts, Positions(b), Positions(c), Actor(op), LeavesBehind(b, op))
  {
    hide AllWrittenBy, Filed, PositionsOf, ValidSplits, Delegated, SplitOver, PrunedAccounts, MayDelegate;
    hide SafeCutoff, Withdrawn, Grown, ValidPositions;
    hide Shifted, OnlyAdds, Revoked;
    NothingShifts(b.accounts, Positions(b), b.ledger);
    NobodyShifts(b.accounts, Apply(b, op).accounts, Positions(b), Positions(Apply(b, op)));
    match op
    case AdvanceLedger(to) => if b.ledger <= to { LaterIsOrderly(b, to); }
    case Delegate(who, delegatee, balance) => DelegatedShifts(b, who, delegatee, balance);
    case Undelegate(who, balance) => DelegatedShifts(b, who, who, balance);
    case Revoke(who) => if DelegatesAway(b.delegates, who) { RevocationShifts(b, who); }
    case DelegateSplit(who, parts, balance) => if ValidSplits(parts) { SplitShifts(b, who, parts, balance); }
    case UndelegateSplit(who, balance) =>
      WholeShare(who, DefaultRecord, who);
      SplitShifts(b, who, Whole(who), balance);
    case Prune(minActive) => PruningShifts(b.accounts, Positions(b), "", SafeCutoff(b.ledger, b.retention, minActive), b.ledger);
    case _ =>
  }

  lemma NothingShifts(accounts: Accounts, positions: map<Address, Position>, now: nat)
    ensures OnlyAdds(accounts, accounts, now) && Shifted(accounts, accounts, positions, positions, "", false)
  {
  }

  /** If nothing is left behind it does not matter whose shares those were. */
  lemma NobodyShifts(a: Accounts, b: Accounts, before: map<Address, Position>, after: map<Address, Position>)
    ensures forall who, other :: Shifted(a, b, before, after, who, false) ==> Shifted(a, b, before, after, other, false)
  {
  }

  lemma LaterIsOrderly(b: Books, to: nat)
    requires Orderly(b) && b.ledger <= to
    ensures Orderly(b.(ledger := to))
  {
    hide ValidSplits;
  }

  /** What an operation does to the total. */
  lemma StepTotalIff(b: Books, op: Operation)
    requires Valid(b) && TotalBacked(b.total, Positions(b))
    ensures TotalBacked(Apply(b, op).total, Positions(Apply(b, op))) <==> !CountsTwice(b, op)
  {
    hide AllWrittenBy, Conserved, Filed, Grounded, PositionsOf, ValidSplits, MayDelegate, SafeCutoff, TotalBacked;
    hide Grown, PrunedTotal, PrunedAccounts;
    match op
    case Delegate(who, delegatee, balance) =>
      RedelegatedTotalIff(b.total, b.delegates, b.splits, b.records, who, delegatee,
                          Refreshed(RecordOf(b.records, who), balance, b.ledger), b.ledger);
    case Undelegate(who, balance) =>
      RedelegatedTotalIff(b.total, b.delegates, b.splits, b.records, who, who,
                          Refreshed(RecordOf(b.records, who), balance, b.ledger), b.ledger);
    case Revoke(who) =>
      if DelegatesAway(b.delegates, who) { RevokedTotal(b.total, b.delegates, b.splits, b.records, who, b.ledger); }
    case DelegateSplit(who, parts, balance) =>
      ResplitTotal(b.total, b.delegates, b.splits, b.records, who, parts,
                   Refreshed(RecordOf(b.records, who), balance, b.ledger), b.ledger);
    case UndelegateSplit(who, balance) =>
      ResplitTotal(b.total, b.delegates, b.splits, b.records, who, Whole(who),
                   Refreshed(RecordOf(b.records, who), balance, b.ledger), b.ledger);
    case Prune(minActive) => PrunedTotalBacked(b, SafeCutoff(b.ledger, b.retention, minActive));
    case _ =>
  }

  lemma PrunedTotalBacked(b: Books, cutoff: nat)
    requires WrittenBy(b.total, b.ledger) && TotalBacked(b.total, Positions(b))
    ensures TotalBacked(PrunedTotal(b.total, cutoff), Positions(b))
  {
    hide PrunedTotal;
    PruneTotalKeepsLookupIff(b.total, cutoff, cutoff);
  }

  /** An operation keeps every account's power the sum of the shares delegated to it if and only
      if it does not count a recorded balance twice; and the same for the total and the sum of
      the balances on record. */
  lemma StepKeepsExactIff(b: Books, op: Operation)
    requires Valid(b) && IsExact(b)
    ensures Backed(Apply(b, op).accounts, Positions(Apply(b, op))) <==> !CountsTwice(b, op)
    ensures TotalBacked(Apply(b, op).total, Positions(Apply(b, op))) <==> !CountsTwice(b, op)
  {
    hide Apply, Backed, TotalBacked, Shifted, MayDelegate, Filed, Covered, AllSound, AllWrittenBy, OnlyAdds;
    hide ValidSplits;
    StepShifts(b, op);
    StepTotalIff(b, op);
    var who := Actor(op);
    assert who in Positions(b) ==> ValidSplits(Positions(b)[who].splits);
    ShiftedBackedIff(b.accounts, Apply(b, op).accounts, Positions(b), Positions(Apply(b, op)), who, LeavesBehind(b, op));
  }

  /** What an account holds beyond the delegations on file never goes down. */
  lemma {:induction false} RunKeepsSurplus(b: Books, ops: seq<Operation>, d: Address)
    requires Orderly(b)
    ensures Excess(b.accounts, Positions(b), d) <= Excess(Run(b, ops).accounts, Positions(Run(b, ops)), d)
    decreases |ops|
  {
    hide Orderly, Apply, Excess, ExcessWeight, PartOf, LeavesBehind;
    if ops != [] {
      StepShifts(b, ops[0]);
      OldShares(b, Actor(ops[0]), d);
      RunKeepsSurplus(Apply(b, ops[0]), ops[1..], d);
    }
  }

  lemma OldShares(b: Books, who: Address, d: Address)
    requires Orderly(b)
    ensures 0 <= PartOf(Positions(b), who, d)
  {
    hide AllWrittenBy, Filed, ValidPositions, PartOf;
    PartIsSound(Positions(b), who, d, b.ledger);
  }

  ghost predicate NeverCountsTwice(b: Books, ops: seq<Operation>)
    decreases |ops|
  {
    ops != [] ==> !CountsTwice(b, ops[0]) && NeverCountsTwice(Apply(b, ops[0]), ops[1..])
  }

  /** At the end of a run the books are exact if and only if no operation of it has counted a
      balance twice: nothing that comes later makes up for it. */
  lemma {:induction false} RunExactIff(b: Books, ops: seq<Operation>)
    requires Valid(b) && IsExact(b)
    ensures IsExact(Run(b, ops)) <==> NeverCountsTwice(b, ops)
    decreases |ops|
  {
    hide Valid, Backed, TotalBacked, Apply, CountsTwice;
    if ops != [] {
      var c := Apply(b, ops[0]);
      StepKeepsValid(b, ops[0]);
      StepKeepsExactIff(b, ops[0]);
      if CountsTwice(b, ops[0]) {
        SurplusStays(c, ops[1..]);
      } else {
        RunExactIff(c, ops[1..]);
      }
    }
  }

  lemma SurplusStays(b: Books, ops: seq<Operation>)
    requires Valid(b) && !Backed(b.accounts, Positions(b))
    ensures !Backed(Run(b, ops).accounts, Positions(Run(b, ops)))
  {
    hide Excess, ExcessWeight, AllWrittenBy, Filed, ValidPositions, Conserved, AllSound, Run;
    var d :| Excess(b.accounts, Positions(b), d) != 0 || ExcessWeight(b.accounts, Positions(b), d) != 0;
    assert 0 < Excess(b.accounts, Positions(b), d);
    RunKeepsSurplus(b, ops, d);
  }

  // ---------------------------------------------------------------- the delegation graph over runs

  /** A split, let through, that gives everything to a delegatee whose chain leads back to the
      delegator. It is stored as a plain delegation, without the check of one. */
  ghost predicate ClosesCycle(b: Books, op: Operation) {
    && op.DelegateSplit? && ValidSplits(op.parts) && |op.parts| <= b.maxTargets
    && |op.parts| == 1 && op.parts[0].weightBps == BPS && op.parts[0].delegatee != op.who
    && exists c :: Graph.IsChain(b.delegates, c) && c[0] == op.parts[0].delegatee && op.who in c
  }

  /** An operation keeps the delegation graph acyclic if and only if it does not close a cycle in
      that way. */
  lemma StepKeepsAcyclicIff(b: Books, op: Operation)
    requires Graph.Acyclic(b.delegates) && 1 <= b.depthLimit
    ensures Graph.Acyclic(Apply(b, op).delegates) <==> !ClosesCycle(b, op)
  {
    hide Graph.Acyclic, ValidSplits, Graph.IsChain;
    match op
    case Delegate(who, delegatee, _) =>
      if MayDelegate(b.delegates, who, delegatee, b.depthLimit) {
        AllowedKeepsAcyclic(b.delegates, who, delegatee, b.depthLimit);
      }
    case Undelegate(who, _) => Graph.RevokeKeepsAcyclic(b.delegates, who);
    case Revoke(who) => Graph.RevokeKeepsAcyclic(b.delegates, who);
    case DelegateSplit(who, parts, _) =>
      Graph.RevokeKeepsAcyclic(b.delegates, who);
      if |parts| == 1 && parts[0].delegatee != who {
        WholeSplitIff(b.delegates, who, parts[0].delegatee);
      }
    case UndelegateSplit(who, _) => Graph.RevokeKeepsAcyclic(b.delegates, who);
    case _ =>
  }

  lemma WholeSplitIff(g: map<Address, Address>, who: Address, delegatee: Address)
    requires Graph.Acyclic(g) && delegatee != who
    ensures Graph.Acyclic(g[who := delegatee]) <==> !exists c :: Graph.IsChain(g, c) && c[0] == delegatee && who in c
  {
    assert Graph.Ends(g, delegatee);
    hide Graph.Acyclic, Graph.Ends;
    var c := Graph.ChainOf(g, delegatee);
    Graph.EdgeKeepsAcyclicIff(g, who, c);
    forall e | Graph.IsChain(g, e) && e[0] == delegatee ensures e == c {
      Graph.ChainIsUnique(g, e, c);
    }
  }

  lemma AllowedKeepsAcyclic(g: map<Address, Address>, who: Address, delegatee: Address, limit: nat)
    requires Graph.Acyclic(g) && MayDelegate(g, who, delegatee, limit)
    ensures Graph.Acyclic(g[who := delegatee])
  {
    hide Graph.Acyclic;
    if delegatee == who {
      Graph.RevokeKeepsAcyclic(g, who);
    } else if PreviousOf(g, who) == Some(delegatee) {
      assert g[who := delegatee] == g;
    } else {
      var c :| Graph.IsChain(g, c) && c[0] == delegatee && who !in c && |c| <= limit;
      Graph.ValidatedEdge(g, who, c, limit);
    }
  }

  ghost predicate AcyclicThroughout(b: Books, ops: seq<Operation>)
    decreases |ops|
  {
    Graph.Acyclic(b.delegates) && (ops != [] ==> AcyclicThroughout(Apply(b, ops[0]), ops[1..]))
  }

  ghost predicate NeverClosesCycle(b: Books, ops: seq<Operation>)
    decreases |ops|
  {
    ops != [] ==> !ClosesCycle(b, ops[0]) && NeverClosesCycle(Apply(b, ops[0]), ops[1..])
  }

  /** The graph is acyclic all along a run if and only if no operation of it closes a cycle. */
  lemma {:induction false} RunKeepsAcyclicIff(b: Books, ops: seq<Operation>)
    requires Valid(b) && Graph.Acyclic(b.delegates)
    ensures AcyclicThroughout(b, ops) <==> NeverClosesCycle(b, ops)
    decreases |ops|
  {
    hide Graph.Acyclic, Apply, ClosesCycle;
    if ops != [] {
      StepKeepsAcyclicIff(b, ops[0]);
      StepKeepsValid(b, ops[0]);
      if !ClosesCycle(b, ops[0]) {
        RunKeepsAcyclicIff(Apply(b, ops[0]), ops[1..]);
      }
    }
  }

  // ---------------------------------------------------------------- what breaks the laws

  /** A run that counts a balance twice: alice splits 100 between bob and carol, and then
      delegates to dave. */
  lemma OverSplitCountsTwice()
    ensures var ops := [Operation.DelegateSplit("alice", [Split("bob", 5_000), Split("carol", 5_000)], 100),
                        Operation.Delegate("alice", "dave", 100)];
            var b := Run(Genesis, ops);
            && "alice" in b.records && b.records["alice"].balance == 100 && Latest(b.total).votes == 200
            && Power(b.accounts, "bob") == Power(b.accounts, "carol") == 50 && Power(b.accounts, "dave") == 100
  {
    hide SplitOver, ValidSplits, Delegated, Apply, Run, Power;
    var parts := [Split("bob", 5_000), Split("carol", 5_000)];
    var first, second := Operation.DelegateSplit("alice", parts, 100), Operation.Delegate("alice", "dave", 100);
    AfterHalfAndHalf(parts);
    DelegatedToDave(Apply(Genesis, first));
    RunOfTwo(Genesis, first, second);
  }

  lemma RunOfTwo(b: Books, first: Operation, second: Operation)
    ensures Run(b, [first, second]) == Apply(Apply(b, first), second)
  {
    hide Apply;
    assert [first, second][1..] == [second] && [second][1..] == [];
    assert Run(Apply(Apply(b, first), second), []) == Apply(Apply(b, first), second);
  }

  lemma DelegatedToDave(b: Books)
    requires b.ledger == 0 && b.depthLimit == 1 && b.delegates == map[]
    requires b.records == map["alice" := DelegatorRecord(100, 0)] && b.total == [Checkpoint(0, 100, 0)]
    ensures var c := Apply(b, Operation.Delegate("alice", "dave", 100));
            && c.records == map["alice" := DelegatorRecord(100, 0)] && Latest(c.total).votes == 200
            && forall d :: Power(c.accounts, d) == Power(b.accounts, d) + if d == "dave" then 100 else 0
  {
    hide Credit, Power, Weight;
    assert Graph.IsChain(b.delegates, ["dave"]);
    assert MayDelegate(b.delegates, "alice", "dave", b.depthLimit);
    assert Refreshed(DelegatorRecord(100, 0), 100, 0) == DelegatorRecord(100, 0);
    CreditPower(b.accounts, "dave", 0, 100, 0);
    GrownLatest(b.total, 0, 100, 0);
  }

  lemma HalfAndHalf(parts: seq<Split>)
    requires parts == [Split("bob", 5_000), Split("carol", 5_000)]
    ensures ValidSplits(parts)
    ensures Amount(parts, 0, 100) == 50 && Amount(parts, 1, 100) == 50
  {
    assert WeightSum(parts, 0) == 0;
    assert WeightSum(parts, 1) == 5_000;
    assert WeightSum(parts, 2) == 10_000;
    assert FloorShare(100, 5_000) == 50;
    assert Allocated(parts, 0, 100) == 0;
    assert Allocated(parts, 1, 100) == 50;
  }

  lemma AfterHalfAndHalf(parts: seq<Split>)
    requires parts == [Split("bob", 5_000), Split("carol", 5_000)]
    ensures var b := Apply(Genesis, Operation.DelegateSplit("alice", parts, 100));
            && b.ledger == 0 && b.depthLimit == 1 && b.delegates == map[]
            && b.records == map["alice" := DelegatorRecord(100, 0)] && b.total == [Checkpoint(0, 100, 0)]
            && Power(b.accounts, "bob") == Power(b.accounts, "carol") == 50 && Power(b.accounts, "dave") == 0
  {
    HalfAndHalf(parts);
    hide Amount, Credit, Power, Weight;
    var one := CreditParts(map[], 0, parts, 1, false, 100, 0);
    assert CreditParts(map[], 0, parts, 0, false, 100, 0) == map[];
    assert one == Credit(map[], "bob", 0, 50, 0);
    var two := CreditParts(map[], 0, parts, 2, false, 100, 0);
    assert two == Credit(one, "carol", 0, 50, 0);
    CreditPower(map[], "bob", 0, 50, 0);
    CreditPower(one, "carol", 0, 50, 0);
    NobodyHasPower();
    assert Refreshed(DefaultRecord, 100, 0) == DelegatorRecord(100, 0);
    assert Record([], 0, 100, 0) == [Checkpoint(0, 100, 0)];
  }

  lemma NobodyHasPower()
    ensures forall d :: Power(map[], d) == 0
  {
  }
}
