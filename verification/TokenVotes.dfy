/** The voting contract: delegation, split delegation, revocation, pruning and the lookups of
    past voting power, over the books of module VotingLedger. */
module TokenVotes {
  import opened Arithmetic
  import opened Options
  import opened Sums
  import opened Checkpoints
  import opened SplitDelegation
  import opened VotingLedger

  /** The balance last read for a delegator, and the ledger it is weighted from. */
  datatype DelegatorRecord = DelegatorRecord(balance: nat, startLedger: nat)

  const DefaultRecord: DelegatorRecord := DelegatorRecord(0, 0)

  function WeightOf(r: DelegatorRecord): nat { r.balance * r.startLedger }

  function Quotient(x: nat, y: nat): (q: nat)
    requires 0 < y
    ensures q == x / y
  {
    x / y
  }

  /** The record after reading a new balance: added tokens start now, so the start ledger
      moves to the weighted mean. */
  function Refreshed(r: DelegatorRecord, balance: nat, now: nat): DelegatorRecord {
    if balance > r.balance then
      var weightedStart := WeightOf(r) + WeightOf(DelegatorRecord(balance - r.balance, now));
      DelegatorRecord(balance, Quotient(weightedStart, balance))
    else r.(balance := balance)
  }

  /** The mean of start ledgers that are not in the future is not in the future. */
  lemma RefreshedNotLater(r: DelegatorRecord, balance: nat, now: nat)
    requires r.startLedger <= now
    ensures Refreshed(r, balance, now).startLedger <= now
  {
    if balance > r.balance {
      var x := WeightOf(r) + (balance - r.balance) * now;
      MeanBound(r.balance, r.startLedger, balance - r.balance, now);
      QuotientBound(x, balance, now);
    }
  }

  lemma MeanBound(a: nat, s: nat, b: nat, now: nat)
    requires s <= now
    ensures a * s + b * now <= (a + b) * now
  {
    MultiplyBound(a, s, now);
    DistributeOver(a, b, now);
  }

  lemma QuotientBound(x: nat, b: nat, now: nat)
    requires 0 < b && x <= b * now
    ensures x / b <= now
  {
    var q := x / b;
    assert x == b * q + x % b;
    if now < q {
      DistributeOver(now + 1, q - (now + 1), b);
    }
  }

  // ---------------------------------------------------------------- what the operations do to the books

  /** The accounts after a plain delegation. */
  function Redelegated(accounts: Accounts, now: nat, previous: Option<Address>, delegatee: Address,
                       r: DelegatorRecord, s: DelegatorRecord): Accounts
  {
    match previous
    case None => Credit(accounts, delegatee, now, s.balance, WeightOf(s))
    case Some(before) =>
      if before == delegatee then
        Credit(accounts, delegatee, now, s.balance - r.balance, WeightOf(s) - WeightOf(r))
      else
        Credit(Credit(accounts, before, now, 0 - r.balance, 0 - WeightOf(r)), delegatee, now, s.balance, WeightOf(s))
  }

  /** What a delegation adds to the total: the change of the balance on record, or all of it
      if no plain delegation was on file. */
  function Added(previous: Option<Address>, r: DelegatorRecord, s: DelegatorRecord): (int, int) {
    if previous.None? then (s.balance, WeightOf(s)) else (s.balance - r.balance, WeightOf(s) - WeightOf(r))
  }

  /** The total after adding; adding nothing writes nothing. */
  function Grown(total: History, now: nat, x: int, xw: int): History {
    if x == 0 && xw == 0 then total else Record(total, now, x, xw)
  }

  lemma GrownLatest(total: History, now: nat, x: int, xw: int)
    ensures Latest(Grown(total, now, x, xw)).votes == Latest(total).votes + x
    ensures Latest(Grown(total, now, x, xw)).weightedSum == Latest(total).weightedSum + xw
  {
  }

  /** Equal changes of the accounts and of the total keep the books balanced at every ledger
      and leave every earlier ledger alone. */
  lemma MovesConserve(a: Accounts, b: Accounts, total: History, now: nat, horizon: nat, x: int, xw: int)
    requires Conserved(a, total, horizon) && WrittenBy(total, now) && Moved(a, b, now, x, xw)
    ensures Conserved(b, Grown(total, now, x, xw), horizon) && WrittenBy(Grown(total, now, x, xw), now)
    ensures forall ledger: nat :: ledger < now ==> At(Grown(total, now, x, xw), ledger) == At(total, ledger)
  {
    hide SumVotes, SumWeights, Record, WrittenBy, AllWrittenBy, Extends, At, Latest;
    var grown := Grown(total, now, x, xw);
    RecordAt(total, now, x, xw, now);
    forall ledger: nat
      ensures ledger < now ==> At(grown, ledger) == At(total, ledger)
      ensures horizon <= ledger ==> BalancedAt(b, grown, ledger)
    {
      RecordAt(total, now, x, xw, ledger);
      assert horizon <= ledger ==> BalancedAt(a, total, ledger);
    }
  }

  lemma RedelegatedMoves(accounts: Accounts, now: nat, previous: Option<Address>, delegatee: Address,
                         r: DelegatorRecord, s: DelegatorRecord)
    requires AllWrittenBy(accounts, now)
    ensures var (x, xw) := Added(previous, r, s);
            Moved(accounts, Redelegated(accounts, now, previous, delegatee, r, s), now, x, xw)
  {
    hide Moved, Credit;
    match previous
    case None => CreditMoves(accounts, delegatee, now, s.balance, WeightOf(s));
    case Some(before) =>
      if before == delegatee {
        CreditMoves(accounts, delegatee, now, s.balance - r.balance, WeightOf(s) - WeightOf(r));
      } else {
        CreditMoves(accounts, before, now, 0 - r.balance, 0 - WeightOf(r));
        CreditMovesOn(accounts, Credit(accounts, before, now, 0 - r.balance, 0 - WeightOf(r)), now,
                      0 - r.balance, 0 - WeightOf(r), delegatee, s.balance, WeightOf(s));
      }
  }

  /** A plain delegation as a position: everything to one delegatee. */
  function Whole(delegatee: Address): seq<Split> { [Split(delegatee, BPS)] }

  lemma WholeShare(delegatee: Address, r: DelegatorRecord, d: Address)
    ensures ValidSplits(Whole(delegatee))
    ensures Share(Position(Whole(delegatee), r.balance, r.startLedger), d) == if d == delegatee then r.balance else 0
    ensures Share(Position(Whole(delegatee), r.balance, r.startLedger), d) * r.startLedger
         == if d == delegatee then WeightOf(r) else 0
  {
    var w := Whole(delegatee);
    assert WeightSum(w, 0) == 0 && WeightSum(w, 1) == BPS;
    assert PartialShare(w, 0, r.balance, d) == 0;
    assert Amount(w, 0, r.balance) == r.balance - Allocated(w, 0, r.balance) == r.balance;
  }

  /** The distribution an account has on file: its plain delegation, else its split. */
  function DistributionOf(delegates: map<Address, Address>, splits: map<Address, seq<Split>>, a: Address): seq<Split> {
    if a in delegates then Whole(delegates[a]) else if a in splits then splits[a] else []
  }

  function PositionsOf(delegates: map<Address, Address>, splits: map<Address, seq<Split>>,
                       records: map<Address, DelegatorRecord>): map<Address, Position>
  {
    map a | a in records :: Position(DistributionOf(delegates, splits, a), records[a].balance, records[a].startLedger)
  }

  function PreviousOf(delegates: map<Address, Address>, a: Address): Option<Address> {
    if a in delegates then Some(delegates[a]) else None
  }

  function RecordOf(records: map<Address, DelegatorRecord>, a: Address): DelegatorRecord {
    if a in records then records[a] else DefaultRecord
  }

  /** Every account with a plain delegation has a record, and every account with a record has a
      plain delegation or a split. */
  ghost predicate Filed(delegates: map<Address, Address>, splits: map<Address, seq<Split>>,
                        records: map<Address, DelegatorRecord>)
  {
    && delegates.Keys <= records.Keys <= delegates.Keys + splits.Keys
    && forall a :: a in splits ==> ValidSplits(splits[a])
  }

  /** The books cover what the delegations on file give, with sound checkpoints. */
  ghost predicate Grounded(accounts: Accounts, positions: map<Address, Position>, now: nat) {
    Covered(accounts, positions, now) && ValidPositions(positions, now) && AllSound(accounts)
  }

  /** Accounts and positions have changed together: what an account holds beyond its positions
      is what it was, and the shares who had before, if those are left behind. */
  ghost predicate Shifted(a: Accounts, b: Accounts, before: map<Address, Position>, after: map<Address, Position>,
                          who: Address, leftBehind: bool)
  {
    forall d ::
      && Excess(b, after, d) == Excess(a, before, d) + (if leftBehind then PartOf(before, who, d) else 0)
      && ExcessWeight(b, after, d) == ExcessWeight(a, before, d) + (if leftBehind then WeightedPartOf(before, who, d) else 0)
  }

  /** Replacing one delegator's position. */
  lemma ReplaceShifts(a: Accounts, b: Accounts, positions: map<Address, Position>, who: Address, p: Position, leftBehind: bool)
    requires forall d ::
               && Power(b, d) == Power(a, d) + Share(p, d) - (if leftBehind then 0 else PartOf(positions, who, d))
               && Weight(b, d) == Weight(a, d) + Share(p, d) * p.startLedger
                                  - (if leftBehind then 0 else WeightedPartOf(positions, who, d))
    ensures Shifted(a, b, positions, positions[who := p], who, leftBehind)
  {
    hide Share, Power, Weight, Excess, ExcessWeight, PartOf, WeightedPartOf;
    var after := positions[who := p];
    forall d
      ensures Excess(b, after, d) == Excess(a, positions, d) + (if leftBehind then PartOf(positions, who, d) else 0)
      ensures ExcessWeight(b, after, d) == ExcessWeight(a, positions, d) + (if leftBehind then WeightedPartOf(positions, who, d) else 0)
    {
      ExcessReplaced(a, b, positions, who, p, d);
    }
  }

  /** Taking one delegator's position away. */
  lemma RemoveShifts(a: Accounts, b: Accounts, positions: map<Address, Position>, who: Address)
    requires forall d ::
               && Power(b, d) == Power(a, d) - PartOf(positions, who, d)
               && Weight(b, d) == Weight(a, d) - WeightedPartOf(positions, who, d)
    ensures Shifted(a, b, positions, positions - {who}, who, false)
  {
    hide Share, Power, Weight, Excess, ExcessWeight, PartOf, WeightedPartOf;
    forall d
      ensures Excess(b, positions - {who}, d) == Excess(a, positions, d)
      ensures ExcessWeight(b, positions - {who}, d) == ExcessWeight(a, positions, d)
    {
      ExcessRemoved(a, b, positions, who, d);
    }
  }

  /** Books that cover what the delegations give still do after such a change. */
  lemma ShiftedKeepsGrounded(a: Accounts, b: Accounts, before: map<Address, Position>, after: map<Address, Position>,
                             who: Address, leftBehind: bool, now: nat)
    requires Grounded(a, before, now) && ValidPositions(after, now)
    requires Shifted(a, b, before, after, who, leftBehind) && OnlyAdds(a, b, now)
    ensures Grounded(b, after, now)
  {
    hide OnlyAdds, AllSound, Excess, ExcessWeight, PartOf, WeightedPartOf, ValidPositions;
    forall d
      ensures 0 <= Excess(b, after, d) && 0 <= ExcessWeight(b, after, d) <= now * Excess(b, after, d)
    {
      PartIsSound(before, who, d, now);
      DistributeOver(Excess(a, before, d), PartOf(before, who, d), now);
    }
    SoundAfter(a, b, after, now);
  }

  /** Exact books stay exact if and only if no shares of anything are left behind. */
  lemma ShiftedBackedIff(a: Accounts, b: Accounts, before: map<Address, Position>, after: map<Address, Position>,
                         who: Address, leftBehind: bool)
    requires Backed(a, before) && Shifted(a, b, before, after, who, leftBehind)
    requires who in before ==> ValidSplits(before[who].splits)
    ensures Backed(b, after) <==> !(leftBehind && who in before && before[who].balance != 0)
  {
    hide Excess, ExcessWeight, ValidSplits, Share;
    if leftBehind && who in before && before[who].balance != 0 {
      var d := SomebodyGetsSomething(before[who]);
      assert Excess(a, before, d) == 0;
      assert Excess(b, after, d) == Share(before[who], d);
    } else {
      forall d ensures Excess(b, after, d) == 0 && ExcessWeight(b, after, d) == 0 {
        assert Excess(a, before, d) == 0 && ExcessWeight(a, before, d) == 0;
        if who in before && before[who].balance == 0 {
          NoShareOfNothing(before[who], d);
        }
      }
    }
  }

  lemma NoShareOfNothing(q: Position, d: Address)
    requires q.balance == 0
    ensures Share(q, d) == 0
  {
    ShareOfNothing(q.splits, |q.splits|, d);
  }

  lemma SomebodyGetsSomething(q: Position) returns (d: Address)
    requires ValidSplits(q.splits) && 0 < q.balance
    ensures 0 < Share(q, d)
  {
    PartsSumToTotal(q.splits, q.balance);
    d := PositiveShare(q.splits, |q.splits|, q.balance);
  }

  lemma {:induction false} PositiveShare(splits: seq<Split>, n: nat, balance: nat) returns (d: Address)
    requires ValidSplits(splits) && n <= |splits| && 0 < PartsSum(splits, n, balance)
    ensures 0 < PartialShare(splits, n, balance, d)
  {
    hide ValidSplits, Amount;
    PartIsProportional(splits, n - 1, balance);
    if 0 < Amount(splits, n - 1, balance) {
      d := splits[n - 1].delegatee;
      PartialShareNonNegative(splits, n - 1, balance, d);
    } else {
      d := PositiveShare(splits, n - 1, balance);
    }
  }

  /** The total stays the sum of the balances on record exactly if it changes by the
      difference; here it has changed by the difference and by x more. */
  lemma TotalReplacedIff(total: History, grown: History, positions: map<Address, Position>, who: Address, p: Position, x: int, xw: int)
    requires TotalBacked(total, positions)
    requires var q := if who in positions then positions[who] else Position([], 0, 0);
             && Latest(grown).votes == Latest(total).votes + p.balance - q.balance + x
             && Latest(grown).weightedSum == Latest(total).weightedSum + p.balance * p.startLedger - q.balance * q.startLedger + xw
    ensures TotalBacked(grown, positions[who := p]) <==> x == 0 && xw == 0
  {
    SumOverUpdate(positions, who, p, BalanceOf());
    SumOverUpdate(positions, who, p, WeightedBalanceOf());
  }

  lemma TotalRemoved(total: History, grown: History, positions: map<Address, Position>, who: Address)
    requires TotalBacked(total, positions) && who in positions
    requires var q := positions[who];
             && Latest(grown).votes == Latest(total).votes - q.balance
             && Latest(grown).weightedSum == Latest(total).weightedSum - q.balance * q.startLedger
    ensures TotalBacked(grown, positions - {who})
  {
    SumOverDelete(positions, who, BalanceOf());
    SumOverDelete(positions, who, WeightedBalanceOf());
  }

  /** A plain delegation leaves the delegator's old shares behind exactly if it had no plain
      delegation. */
  lemma RedelegatedShifts(accounts: Accounts, delegates: map<Address, Address>,
                          splits: map<Address, seq<Split>>, records: map<Address, DelegatorRecord>,
                          who: Address, delegatee: Address, s: DelegatorRecord, now: nat)
    requires AllWrittenBy(accounts, now) && Filed(delegates, splits, records) && s.startLedger <= now
    requires ValidPositions(PositionsOf(delegates, splits, records), now)
    ensures var positions := PositionsOf(delegates, splits, records);
            var b := Redelegated(accounts, now, PreviousOf(delegates, who), delegatee, RecordOf(records, who), s);
            var after := PositionsOf(delegates[who := delegatee], splits, records[who := s]);
            && after == positions[who := Position(Whole(delegatee), s.balance, s.startLedger)]
            && Shifted(accounts, b, positions, after, who, who !in delegates)
            && AllWrittenBy(b, now) && OnlyAdds(accounts, b, now)
            && ValidPositions(after, now) && Filed(delegates[who := delegatee], splits, records[who := s])
  {
    hide Share, Redelegated, ValidSplits, Moved, Shifted, OnlyAdds, AllWrittenBy;
    var previous, r := PreviousOf(delegates, who), RecordOf(records, who);
    var (x, xw) := Added(previous, r, s);
    var positions := PositionsOf(delegates, splits, records);
    var p := Position(Whole(delegatee), s.balance, s.startLedger);
    var b := Redelegated(accounts, now, previous, delegatee, r, s);
    RedelegatedMoves(accounts, now, previous, delegatee, r, s);
    MovedOnlyAdds(accounts, b, now, x, xw);
    RedelegatedPower(accounts, now, delegates, splits, records, who, delegatee, s);
    WholeShare(delegatee, s, delegatee);
    ReplaceShifts(accounts, b, positions, who, p, previous.None?);
    assert PositionsOf(delegates[who := delegatee], splits, records[who := s]) == positions[who := p];
  }

  /** After a plain delegation the total is still the sum of the balances on record if and only
      if the delegator had a plain delegation, or nothing on record. */
  lemma RedelegatedTotalIff(total: History, delegates: map<Address, Address>,
                            splits: map<Address, seq<Split>>, records: map<Address, DelegatorRecord>,
                            who: Address, delegatee: Address, s: DelegatorRecord, now: nat)
    requires Filed(delegates, splits, records) && TotalBacked(total, PositionsOf(delegates, splits, records))
    ensures var (x, xw) := Added(PreviousOf(delegates, who), RecordOf(records, who), s);
            TotalBacked(Grown(total, now, x, xw), PositionsOf(delegates[who := delegatee], splits, records[who := s]))
            <==> who in delegates || RecordOf(records, who).balance == 0
  {
    hide TotalBacked, Grown, ValidSplits;
    var r, positions := RecordOf(records, who), PositionsOf(delegates, splits, records);
    var (x, xw) := Added(PreviousOf(delegates, who), r, s);
    var p := Position(Whole(delegatee), s.balance, s.startLedger);
    GrownLatest(total, now, x, xw);
    assert PositionsOf(delegates[who := delegatee], splits, records[who := s]) == positions[who := p];
    if who in delegates {
      TotalReplacedIff(total, Grown(total, now, x, xw), positions, who, p, 0, 0);
    } else {
      TotalReplacedIff(total, Grown(total, now, x, xw), positions, who, p, r.balance, WeightOf(r));
    }
  }

  /** Who gains and loses by a plain delegation. Without an earlier plain delegation nothing is
      taken out. */
  lemma RedelegatedPower(accounts: Accounts, now: nat, delegates: map<Address, Address>,
                         splits: map<Address, seq<Split>>, records: map<Address, DelegatorRecord>,
                         who: Address, delegatee: Address, s: DelegatorRecord)
    requires Filed(delegates, splits, records)
    ensures var previous, r := PreviousOf(delegates, who), RecordOf(records, who);
            var positions := PositionsOf(delegates, splits, records);
            var p := Position(Whole(delegatee), s.balance, s.startLedger);
            var b := Redelegated(accounts, now, previous, delegatee, r, s);
            forall d ::
              && Power(b, d) == Power(accounts, d) + Share(p, d) - (if previous.None? then 0 else PartOf(positions, who, d))
              && Weight(b, d) == Weight(accounts, d) + Share(p, d) * p.startLedger
                                 - (if previous.None? then 0 else WeightedPartOf(positions, who, d))
  {
    hide Share, Credit, ValidSplits;
    var previous, r := PreviousOf(delegates, who), RecordOf(records, who);
    var positions := PositionsOf(delegates, splits, records);
    var p := Position(Whole(delegatee), s.balance, s.startLedger);
    var b := Redelegated(accounts, now, previous, delegatee, r, s);
    forall d
      ensures Power(b, d) == Power(accounts, d) + Share(p, d) - (if previous.None? then 0 else PartOf(positions, who, d))
      ensures Weight(b, d) == Weight(accounts, d) + Share(p, d) * p.startLedger
                              - (if previous.None? then 0 else WeightedPartOf(positions, who, d))
    {
      WholeShare(delegatee, s, d);
      match previous
      case None => CreditPower(accounts, delegatee, now, s.balance, WeightOf(s));
      case Some(before) =>
        assert who in records;
        WholeShare(before, r, d);
        if before == delegatee {
          CreditPower(accounts, delegatee, now, s.balance - r.balance, WeightOf(s) - WeightOf(r));
        } else {
          CreditPower(accounts, before, now, 0 - r.balance, 0 - WeightOf(r));
          CreditPower(Credit(accounts, before, now, 0 - r.balance, 0 - WeightOf(r)), delegatee, now, s.balance, WeightOf(s));
        }
    }
  }

  // ---------------------------------------------------------------- split delegation

  /** The accounts after taking a delegator's distribution out: a plain delegation comes
      first, then a split. */
  function Withdrawn(accounts: Accounts, now: nat, delegates: map<Address, Address>,
                     splits: map<Address, seq<Split>>, who: Address, r: DelegatorRecord): Accounts
  {
    if who in delegates then
      (if r.balance == 0 then accounts else Credit(accounts, delegates[who], now, 0 - r.balance, 0 - WeightOf(r)))
    else if who in splits then
      CreditParts(accounts, now, splits[who], |splits[who]|, true, r.balance, r.startLedger)
    else accounts
  }

  predicate HadPrior(delegates: map<Address, Address>, splits: map<Address, seq<Split>>, who: Address) {
    who in delegates || (who in splits && splits[who] != [])
  }

  function Resplit(accounts: Accounts, now: nat, delegates: map<Address, Address>, splits: map<Address, seq<Split>>,
                   who: Address, parts: seq<Split>, r: DelegatorRecord, s: DelegatorRecord): Accounts
  {
    CreditParts(Withdrawn(accounts, now, delegates, splits, who, r), now, parts, |parts|, false, s.balance, s.startLedger)
  }

  function AddedBySplit(prior: bool, r: DelegatorRecord, s: DelegatorRecord): (int, int) {
    if prior then (s.balance - r.balance, WeightOf(s) - WeightOf(r)) else (s.balance, WeightOf(s))
  }

  lemma WithdrawnMoves(accounts: Accounts, now: nat, delegates: map<Address, Address>,
                       splits: map<Address, seq<Split>>, who: Address, r: DelegatorRecord)
    requires AllWrittenBy(accounts, now) && forall a :: a in splits ==> ValidSplits(splits[a])
    ensures var prior := HadPrior(delegates, splits, who);
            Moved(accounts, Withdrawn(accounts, now, delegates, splits, who, r), now,
                  if prior then 0 - r.balance else 0, if prior then 0 - WeightOf(r) else 0)
  {
    hide Moved, Credit, CreditParts;
    MovedNot(accounts, now);
    if who in delegates {
      if r.balance != 0 {
        CreditMoves(accounts, delegates[who], now, 0 - r.balance, 0 - WeightOf(r));
      }
    } else if who in splits {
      CreditPartsMoves(accounts, now, splits[who], |splits[who]|, true, r.balance, r.startLedger);
      PartsSumToTotal(splits[who], r.balance);
    }
  }

  lemma ResplitMoves(accounts: Accounts, now: nat, delegates: map<Address, Address>, splits: map<Address, seq<Split>>,
                     who: Address, parts: seq<Split>, r: DelegatorRecord, s: DelegatorRecord)
    requires AllWrittenBy(accounts, now) && ValidSplits(parts) && forall a :: a in splits ==> ValidSplits(splits[a])
    ensures var (x, xw) := AddedBySplit(HadPrior(delegates, splits, who), r, s);
            Moved(accounts, Resplit(accounts, now, delegates, splits, who, parts, r, s), now, x, xw)
  {
    hide CreditParts, Withdrawn;
    var prior := HadPrior(delegates, splits, who);
    var out := Withdrawn(accounts, now, delegates, splits, who, r);
    WithdrawnMoves(accounts, now, delegates, splits, who, r);
    CreditPartsMoves(out, now, parts, |parts|, false, s.balance, s.startLedger);
    PartsSumToTotal(parts, s.balance);
    MovedTwice(accounts, out, Resplit(accounts, now, delegates, splits, who, parts, r, s), now,
               if prior then 0 - r.balance else 0, if prior then 0 - WeightOf(r) else 0, s.balance, WeightOf(s));
  }

  /** Taking a distribution out takes its shares out. A split without a record has none. */
  lemma WithdrawnPower(accounts: Accounts, now: nat, delegates: map<Address, Address>, splits: map<Address, seq<Split>>,
                       records: map<Address, DelegatorRecord>, who: Address, d: Address)
    requires Filed(delegates, splits, records)
    ensures var positions, r := PositionsOf(delegates, splits, records), RecordOf(records, who);
            var b := Withdrawn(accounts, now, delegates, splits, who, r);
            && Power(b, d) == Power(accounts, d) - PartOf(positions, who, d)
            && Weight(b, d) == Weight(accounts, d) - WeightedPartOf(positions, who, d)
  {
    hide Credit, CreditParts, PartialShare, ValidSplits;
    var positions, r := PositionsOf(delegates, splits, records), RecordOf(records, who);
    if who in delegates {
      assert who in records;
      WholeShare(delegates[who], r, d);
      if r.balance != 0 {
        CreditPower(accounts, delegates[who], now, 0 - r.balance, 0 - WeightOf(r));
      }
    } else if who in splits {
      CreditPartsPower(accounts, now, splits[who], |splits[who]|, true, r.balance, r.startLedger, d);
      ShareOfNothing(splits[who], |splits[who]|, d);
    }
  }

  lemma {:induction false} ShareOfNothing(splits: seq<Split>, n: nat, d: Address)
    requires n <= |splits|
    ensures PartialShare(splits, n, 0, d) == 0
  {
    if 0 < n {
      ShareOfNothing(splits, n - 1, d);
      NothingAllocated(splits, n - 1);
    }
  }

  lemma {:induction false} NothingAllocated(splits: seq<Split>, n: nat)
    requires n <= |splits|
    ensures Allocated(splits, n, 0) == 0
  {
    if 0 < n {
      NothingAllocated(splits, n - 1);
    }
  }

  /** The delegations on file after storing a split: a single whole entry becomes a plain
      delegation. */
  function StoredDelegates(delegates: map<Address, Address>, who: Address, parts: seq<Split>): map<Address, Address> {
    if |parts| == 1 && parts[0].weightBps == BPS then delegates[who := parts[0].delegatee] else delegates - {who}
  }

  function StoredSplits(splits: map<Address, seq<Split>>, who: Address, parts: seq<Split>): map<Address, seq<Split>> {
    if |parts| == 1 && parts[0].weightBps == BPS then splits - {who} else splits[who := parts]
  }

  /** A split over any earlier distribution leaves nothing behind. */
  lemma ResplitShifts(accounts: Accounts, delegates: map<Address, Address>,
                      splits: map<Address, seq<Split>>, records: map<Address, DelegatorRecord>,
                      who: Address, parts: seq<Split>, s: DelegatorRecord, now: nat)
    requires AllWrittenBy(accounts, now) && ValidSplits(parts) && s.startLedger <= now
    requires Filed(delegates, splits, records) && ValidPositions(PositionsOf(delegates, splits, records), now)
    ensures var positions := PositionsOf(delegates, splits, records);
            var b := Resplit(accounts, now, delegates, splits, who, parts, RecordOf(records, who), s);
            var after := PositionsOf(StoredDelegates(delegates, who, parts), StoredSplits(splits, who, parts), records[who := s]);
            && after == positions[who := Position(parts, s.balance, s.startLedger)]
            && Shifted(accounts, b, positions, after, who, false)
            && AllWrittenBy(b, now) && OnlyAdds(accounts, b, now)
            && ValidPositions(after, now)
            && Filed(StoredDelegates(delegates, who, parts), StoredSplits(splits, who, parts), records[who := s])
  {
    hide Share, Withdrawn, CreditParts, ValidSplits, Moved, Shifted, OnlyAdds, AllWrittenBy;
    var r := RecordOf(records, who);
    var (x, xw) := AddedBySplit(HadPrior(delegates, splits, who), r, s);
    var positions := PositionsOf(delegates, splits, records);
    var p := Position(parts, s.balance, s.startLedger);
    var b := Resplit(accounts, now, delegates, splits, who, parts, r, s);
    ResplitMoves(accounts, now, delegates, splits, who, parts, r, s);
    MovedOnlyAdds(accounts, b, now, x, xw);
    forall d
      ensures Power(b, d) == Power(accounts, d) + Share(p, d) - PartOf(positions, who, d)
      ensures Weight(b, d) == Weight(accounts, d) + Share(p, d) * p.startLedger - WeightedPartOf(positions, who, d)
    {
      ResplitPower(accounts, now, delegates, splits, records, who, parts, s, d);
    }
    ReplaceShifts(accounts, b, positions, who, p, false);
    StoredPositions(delegates, splits, records, who, parts, s);
    StoredFiled(delegates, splits, records, who, parts, s);
  }

  /** A split keeps the total the sum of the balances on record. */
  lemma ResplitTotal(total: History, delegates: map<Address, Address>,
                     splits: map<Address, seq<Split>>, records: map<Address, DelegatorRecord>,
                     who: Address, parts: seq<Split>, s: DelegatorRecord, now: nat)
    requires Filed(delegates, splits, records) && TotalBacked(total, PositionsOf(delegates, splits, records))
    ensures var (x, xw) := AddedBySplit(HadPrior(delegates, splits, who), RecordOf(records, who), s);
            TotalBacked(Grown(total, now, x, xw),
                        PositionsOf(StoredDelegates(delegates, who, parts), StoredSplits(splits, who, parts), records[who := s]))
  {
    hide TotalBacked, Grown, StoredDelegates, StoredSplits, HadPrior;
    var (x, xw) := AddedBySplit(HadPrior(delegates, splits, who), RecordOf(records, who), s);
    GrownLatest(total, now, x, xw);
    RecordedMeansPrior(delegates, splits, records, who);
    StoredPositions(delegates, splits, records, who, parts, s);
    TotalReplacedIff(total, Grown(total, now, x, xw), PositionsOf(delegates, splits, records), who,
                     Position(parts, s.balance, s.startLedger), 0, 0);
  }

  lemma MovedOnlyAdds(a: Accounts, b: Accounts, now: nat, x: int, xw: int)
    requires Moved(a, b, now, x, xw)
    ensures AllWrittenBy(b, now) && OnlyAdds(a, b, now)
  {
    hide SumVotes, SumWeights, WrittenBy, At;
    forall d, i | 0 <= i < |HistoryOf(b, d)|
      ensures HistoryOf(b, d)[i] in HistoryOf(a, d) || (i == |HistoryOf(b, d)| - 1 && HistoryOf(b, d)[i].ledger == now)
    {
      var h, g := HistoryOf(a, d), HistoryOf(b, d);
      assert Extends(h, g, now);
      assert g != h && i < |g| - 1 ==> g[i] == Base(h, now)[i] == h[i];
    }
  }

  lemma RecordedMeansPrior(delegates: map<Address, Address>, splits: map<Address, seq<Split>>,
                           records: map<Address, DelegatorRecord>, who: Address)
    requires Filed(delegates, splits, records)
    ensures who in records ==> HadPrior(delegates, splits, who)
  {
    assert who in splits ==> ValidSplits(splits[who]);
  }

  lemma ResplitPower(accounts: Accounts, now: nat, delegates: map<Address, Address>, splits: map<Address, seq<Split>>,
                     records: map<Address, DelegatorRecord>, who: Address, parts: seq<Split>, s: DelegatorRecord, d: Address)
    requires Filed(delegates, splits, records)
    ensures var r, positions := RecordOf(records, who), PositionsOf(delegates, splits, records);
            var p := Position(parts, s.balance, s.startLedger);
            var b := Resplit(accounts, now, delegates, splits, who, parts, r, s);
            && Power(b, d) == Power(accounts, d) + Share(p, d) - PartOf(positions, who, d)
            && Weight(b, d) == Weight(accounts, d) + Share(p, d) * p.startLedger - WeightedPartOf(positions, who, d)
  {
    hide CreditParts, Withdrawn, PartialShare, Filed, Power, Weight;
    var r := RecordOf(records, who);
    WithdrawnPower(accounts, now, delegates, splits, records, who, d);
    CreditPartsPower(Withdrawn(accounts, now, delegates, splits, who, r), now, parts, |parts|, false,
                     s.balance, s.startLedger, d);
  }

  lemma StoredPositions(delegates: map<Address, Address>, splits: map<Address, seq<Split>>,
                        records: map<Address, DelegatorRecord>, who: Address, parts: seq<Split>, s: DelegatorRecord)
    ensures PositionsOf(StoredDelegates(delegates, who, parts), StoredSplits(splits, who, parts), records[who := s])
         == PositionsOf(delegates, splits, records)[who := Position(parts, s.balance, s.startLedger)]
  {
    hide StoredDelegates, StoredSplits;
    var d, sp := StoredDelegates(delegates, who, parts), StoredSplits(splits, who, parts);
    forall a ensures DistributionOf(d, sp, a) == if a == who then parts else DistributionOf(delegates, splits, a) {
      StoredDistribution(delegates, splits, who, parts, a);
    }
  }

  lemma StoredFiled(delegates: map<Address, Address>, splits: map<Address, seq<Split>>,
                    records: map<Address, DelegatorRecord>, who: Address, parts: seq<Split>, s: DelegatorRecord)
    requires Filed(delegates, splits, records) && ValidSplits(parts)
    ensures Filed(StoredDelegates(delegates, who, parts), StoredSplits(splits, who, parts), records[who := s])
  {
    hide ValidSplits;
  }

  lemma StoredDistribution(delegates: map<Address, Address>, splits: map<Address, seq<Split>>,
                           who: Address, parts: seq<Split>, a: Address)
    ensures DistributionOf(StoredDelegates(delegates, who, parts), StoredSplits(splits, who, parts), a)
         == if a == who then parts else DistributionOf(delegates, splits, a)
  {
    if |parts| == 1 && parts[0].weightBps == BPS {
      assert parts == Whole(parts[0].delegatee);
    }
  }

  // ---------------------------------------------------------------- revocation

  /** Revoking a plain delegation leaves nothing behind. */
  lemma RevokedShifts(accounts: Accounts, delegates: map<Address, Address>, splits: map<Address, seq<Split>>,
                      records: map<Address, DelegatorRecord>, who: Address, now: nat)
    requires AllWrittenBy(accounts, now) && Filed(delegates, splits, records) && who in delegates
    requires ValidPositions(PositionsOf(delegates, splits, records), now)
    ensures var positions := PositionsOf(delegates, splits, records);
            var b := Withdrawn(accounts, now, delegates, splits, who, RecordOf(records, who));
            var after := PositionsOf(delegates - {who}, splits, records - {who});
            && after == positions - {who}
            && Shifted(accounts, b, positions, after, who, false)
            && AllWrittenBy(b, now) && OnlyAdds(accounts, b, now)
            && ValidPositions(after, now) && Filed(delegates - {who}, splits, records - {who})
  {
    hide Share, Withdrawn, ValidSplits, Moved, Shifted, OnlyAdds, AllWrittenBy;
    var r := RecordOf(records, who);
    var positions := PositionsOf(delegates, splits, records);
    var b := Withdrawn(accounts, now, delegates, splits, who, r);
    WithdrawnMoves(accounts, now, delegates, splits, who, r);
    MovedOnlyAdds(accounts, b, now, 0 - r.balance, 0 - WeightOf(r));
    forall d
      ensures Power(b, d) == Power(accounts, d) - PartOf(positions, who, d)
      ensures Weight(b, d) == Weight(accounts, d) - WeightedPartOf(positions, who, d)
    {
      WithdrawnPower(accounts, now, delegates, splits, records, who, d);
    }
    RemoveShifts(accounts, b, positions, who);
    assert PositionsOf(delegates - {who}, splits, records - {who}) == positions - {who};
  }

  /** Revoking keeps the total the sum of the balances on record. */
  lemma RevokedTotal(total: History, delegates: map<Address, Address>, splits: map<Address, seq<Split>>,
                     records: map<Address, DelegatorRecord>, who: Address, now: nat)
    requires Filed(delegates, splits, records) && who in delegates
    requires TotalBacked(total, PositionsOf(delegates, splits, records))
    ensures var r := RecordOf(records, who);
            TotalBacked(Grown(total, now, 0 - r.balance, 0 - WeightOf(r)),
                        PositionsOf(delegates - {who}, splits, records - {who}))
  {
    hide TotalBacked, Grown;
    var r, positions := RecordOf(records, who), PositionsOf(delegates, splits, records);
    GrownLatest(total, now, 0 - r.balance, 0 - WeightOf(r));
    assert who in records;
    assert PositionsOf(delegates - {who}, splits, records - {who}) == positions - {who};
    TotalRemoved(total, Grown(total, now, 0 - r.balance, 0 - WeightOf(r)), positions, who);
  }
}
