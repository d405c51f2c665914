/** The books of the voting contract, as values: a checkpoint history per account and one for
    the total, and what a change of a delegator's position does to them. */
module VotingLedger {
  import opened Arithmetic
  import opened Sums
  import opened Checkpoints
  import opened SplitDelegation

  type Accounts = map<Address, History>

  function HistoryOf(accounts: Accounts, a: Address): History {
    if a in accounts then accounts[a] else []
  }

  /** Current voting power and weighted sum of an account. */
  function Power(accounts: Accounts, a: Address): int { Latest(HistoryOf(accounts, a)).votes }

  function Weight(accounts: Accounts, a: Address): int { Latest(HistoryOf(accounts, a)).weightedSum }

  lemma LatestFound(accounts: Accounts, a: Address, now: nat)
    requires AllWrittenBy(accounts, now)
    ensures var cp := At(HistoryOf(accounts, a), now); cp.votes == Power(accounts, a) && cp.weightedSum == Weight(accounts, a)
  {
  }

  ghost function VotesAt(ledger: nat): (f: History -> int)
    ensures forall h :: f(h) == At(h, ledger).votes
  {
    (h: History) => At(h, ledger).votes
  }

  ghost function WeightAt(ledger: nat): (f: History -> int)
    ensures forall h :: f(h) == At(h, ledger).weightedSum
  {
    (h: History) => At(h, ledger).weightedSum
  }

  /** All accounts' votes, and weighted sums, as of a ledger. */
  ghost function SumVotes(accounts: Accounts, ledger: nat): int { SumOver(accounts, VotesAt(ledger)) }

  ghost function SumWeights(accounts: Accounts, ledger: nat): int { SumOver(accounts, WeightAt(ledger)) }

  ghost predicate AllWrittenBy(accounts: Accounts, now: nat) {
    forall a :: a in accounts ==> WrittenBy(accounts[a], now)
  }

  /** Conservation: at the ledger, the accounts' votes add up to the recorded total. */
  ghost predicate BalancedAt(accounts: Accounts, total: History, ledger: nat) {
    && SumVotes(accounts, ledger) == At(total, ledger).votes
    && SumWeights(accounts, ledger) == At(total, ledger).weightedSum
  }

  ghost predicate Conserved(accounts: Accounts, total: History, horizon: nat) {
    forall ledger: nat :: horizon <= ledger ==> BalancedAt(accounts, total, ledger)
  }

  // ---------------------------------------------------------------- crediting accounts

  function Credit(accounts: Accounts, a: Address, now: nat, delta: int, deltaWeighted: int): Accounts {
    accounts[a := Record(HistoryOf(accounts, a), now, delta, deltaWeighted)]
  }

  /** What a history keeps when it is written at ledger now. */
  function Base(h: History, now: nat): History {
    if h != [] && h[|h| - 1].ledger == now then h[..|h| - 1] else h
  }

  /** h became g by writing at ledger now, or not at all. */
  ghost predicate Extends(h: History, g: History, now: nat) {
    g == h || (g != [] && g[|g| - 1].ledger == now && g == Base(h, now) + [g[|g| - 1]])
  }

  /** Some crediting at ledger now, adding up to the given change: the sums change from now
      on and nowhere before, and so does every single history. */
  ghost predicate Moved(old_: Accounts, new_: Accounts, now: nat, delta: int, deltaWeighted: int) {
    && AllWrittenBy(new_, now)
    && (forall ledger: nat ::
          && SumVotes(new_, ledger) == SumVotes(old_, ledger) + (if now <= ledger then delta else 0)
          && SumWeights(new_, ledger) == SumWeights(old_, ledger) + (if now <= ledger then deltaWeighted else 0))
    && (forall a, ledger: nat :: ledger < now ==> At(HistoryOf(new_, a), ledger) == At(HistoryOf(old_, a), ledger))
    && (forall a :: Extends(HistoryOf(old_, a), HistoryOf(new_, a), now))
  }

  lemma MovedNot(accounts: Accounts, now: nat)
    requires AllWrittenBy(accounts, now)
    ensures Moved(accounts, accounts, now, 0, 0)
  {
  }

  lemma MovedTwice(a: Accounts, b: Accounts, c: Accounts, now: nat, x: int, xw: int, y: int, yw: int)
    requires Moved(a, b, now, x, xw) && Moved(b, c, now, y, yw)
    ensures Moved(a, c, now, x + y, xw + yw)
  {
    forall d ensures Extends(HistoryOf(a, d), HistoryOf(c, d), now) {
      assert Extends(HistoryOf(a, d), HistoryOf(b, d), now) && Extends(HistoryOf(b, d), HistoryOf(c, d), now);
      ExtendsTwice(HistoryOf(a, d), HistoryOf(b, d), HistoryOf(c, d), now);
    }
  }

  lemma ExtendsTwice(f: History, g: History, h: History, now: nat)
    requires Extends(f, g, now) && Extends(g, h, now)
    ensures Extends(f, h, now)
  {
    if g != f {
      assert Base(g, now) == Base(f, now);
    }
  }

  lemma CreditMoves(accounts: Accounts, a: Address, now: nat, delta: int, deltaWeighted: int)
    requires AllWrittenBy(accounts, now)
    ensures Moved(accounts, Credit(accounts, a, now, delta, deltaWeighted), now, delta, deltaWeighted)
  {
    hide SumVotes, SumWeights, Record, WrittenBy, Extends, At;
    var h := HistoryOf(accounts, a);
    var g := Record(h, now, delta, deltaWeighted);
    var new_ := Credit(accounts, a, now, delta, deltaWeighted);
    RecordExtends(h, now, delta, deltaWeighted);
    forall ledger: nat
      ensures SumVotes(new_, ledger) == SumVotes(accounts, ledger) + (if now <= ledger then delta else 0)
      ensures SumWeights(new_, ledger) == SumWeights(accounts, ledger) + (if now <= ledger then deltaWeighted else 0)
      ensures ledger < now ==> At(g, ledger) == At(h, ledger)
    {
      CreditSums(accounts, a, now, delta, deltaWeighted, ledger);
    }
    forall b ensures Extends(HistoryOf(accounts, b), HistoryOf(new_, b), now) {
      ExtendsSelf(HistoryOf(accounts, b), now);
    }
  }

  lemma ExtendsSelf(h: History, now: nat)
    ensures Extends(h, h, now)
  {
  }

  lemma RecordExtends(h: History, now: nat, delta: int, deltaWeighted: int)
    requires WrittenBy(h, now)
    ensures var g := Record(h, now, delta, deltaWeighted); WrittenBy(g, now) && Extends(h, g, now)
  {
    RecordAt(h, now, delta, deltaWeighted, now);
    var g := Record(h, now, delta, deltaWeighted);
    assert g == Base(h, now) + [g[|g| - 1]];
  }

  lemma CreditMovesOn(a: Accounts, b: Accounts, now: nat, x: int, xw: int, d: Address, delta: int, deltaWeighted: int)
    requires Moved(a, b, now, x, xw)
    ensures Moved(a, Credit(b, d, now, delta, deltaWeighted), now, x + delta, xw + deltaWeighted)
  {
    CreditMoves(b, d, now, delta, deltaWeighted);
    MovedTwice(a, b, Credit(b, d, now, delta, deltaWeighted), now, x, xw, delta, deltaWeighted);
  }

  lemma CreditSums(accounts: Accounts, a: Address, now: nat, delta: int, deltaWeighted: int, ledger: nat)
    requires AllWrittenBy(accounts, now)
    ensures var new_ := Credit(accounts, a, now, delta, deltaWeighted);
            && SumVotes(new_, ledger) == SumVotes(accounts, ledger) + (if now <= ledger then delta else 0)
            && SumWeights(new_, ledger) == SumWeights(accounts, ledger) + (if now <= ledger then deltaWeighted else 0)
            && (ledger < now ==> At(new_[a], ledger) == At(HistoryOf(accounts, a), ledger))
  {
    var h := HistoryOf(accounts, a);
    var g := Record(h, now, delta, deltaWeighted);
    RecordAt(h, now, delta, deltaWeighted, ledger);
    SumOverUpdate(accounts, a, g, VotesAt(ledger));
    SumOverUpdate(accounts, a, g, WeightAt(ledger));
  }

  lemma CreditPower(accounts: Accounts, a: Address, now: nat, delta: int, deltaWeighted: int)
    ensures var new_ := Credit(accounts, a, now, delta, deltaWeighted);
            forall d ::
              && Power(new_, d) == Power(accounts, d) + (if d == a then delta else 0)
              && Weight(new_, d) == Weight(accounts, d) + (if d == a then deltaWeighted else 0)
  {
  }

  function Signed(negative: bool, x: int): int { if negative then -x else x }

  /** Crediting, or debiting, the first n parts of a distribution; a part of nothing is
      skipped. */
  function CreditParts(accounts: Accounts, now: nat, splits: seq<Split>, n: nat, negative: bool,
                       balance: nat, startLedger: nat): Accounts
    requires n <= |splits|
  {
    if n == 0 then accounts
    else
      var before := CreditParts(accounts, now, splits, n - 1, negative, balance, startLedger);
      var part := Amount(splits, n - 1, balance);
      if part == 0 then before
      else Credit(before, splits[n - 1].delegatee, now, Signed(negative, part), Signed(negative, part * startLedger))
  }

  /** What d receives from the first n parts. */
  function PartialShare(splits: seq<Split>, n: nat, balance: nat, d: Address): int
    requires n <= |splits|
  {
    if n == 0 then 0
    else PartialShare(splits, n - 1, balance, d)
         + if splits[n - 1].delegatee == d then Amount(splits, n - 1, balance) else 0
  }

  /** Crediting parts moves their sum. */
  lemma {:induction false} CreditPartsMoves(accounts: Accounts, now: nat, splits: seq<Split>, n: nat, negative: bool,
                                            balance: nat, startLedger: nat)
    requires AllWrittenBy(accounts, now) && n <= |splits|
    ensures Moved(accounts, CreditParts(accounts, now, splits, n, negative, balance, startLedger), now,
                  Signed(negative, PartsSum(splits, n, balance)),
                  Signed(negative, PartsSum(splits, n, balance) * startLedger))
  {
    hide Moved, Credit, Amount;
    if n == 0 {
      MovedNot(accounts, now);
    } else {
      var before := CreditParts(accounts, now, splits, n - 1, negative, balance, startLedger);
      var part, sum := Amount(splits, n - 1, balance), PartsSum(splits, n - 1, balance);
      CreditPartsMoves(accounts, now, splits, n - 1, negative, balance, startLedger);
      DistributeOver(sum, part, startLedger);
      if part != 0 {
        CreditMovesOn(accounts, before, now, Signed(negative, sum), Signed(negative, sum * startLedger),
                      splits[n - 1].delegatee, Signed(negative, part), Signed(negative, part * startLedger));
      }
    }
  }

  /** Crediting parts gives every account its share of them. */
  lemma {:induction false} CreditPartsPower(accounts: Accounts, now: nat, splits: seq<Split>, n: nat, negative: bool,
                                            balance: nat, startLedger: nat, d: Address)
    requires n <= |splits|
    ensures var new_ := CreditParts(accounts, now, splits, n, negative, balance, startLedger);
            var share := PartialShare(splits, n, balance, d);
            && Power(new_, d) == Power(accounts, d) + Signed(negative, share)
            && Weight(new_, d) == Weight(accounts, d) + Signed(negative, share * startLedger)
  {
    hide Credit, Amount;
    if 0 < n {
      var before := CreditParts(accounts, now, splits, n - 1, negative, balance, startLedger);
      var part, share := Amount(splits, n - 1, balance), PartialShare(splits, n - 1, balance, d);
      CreditPartsPower(accounts, now, splits, n - 1, negative, balance, startLedger, d);
      DistributeOver(share, part, startLedger);
      if part != 0 {
        CreditPower(before, splits[n - 1].delegatee, now, Signed(negative, part), Signed(negative, part * startLedger));
      }
    }
  }

  // ---------------------------------------------------------------- positions

  /** A delegator's position: how the balance on record is distributed, and since when. */
  datatype Position = Position(splits: seq<Split>, balance: nat, startLedger: nat)

  /** What d receives from a position. */
  function Share(p: Position, d: Address): int { PartialShare(p.splits, |p.splits|, p.balance, d) }

  ghost function ShareOf(d: Address): (f: Position -> int)
    ensures forall p :: f(p) == Share(p, d)
  {
    (p: Position) => Share(p, d)
  }

  ghost function WeightedShareOf(d: Address): (f: Position -> int)
    ensures forall p :: f(p) == Share(p, d) * p.startLedger
  {
    (p: Position) => Share(p, d) * p.startLedger
  }

  ghost function BalanceOf(): (f: Position -> int)
    ensures forall p :: f(p) == p.balance
  {
    (p: Position) => p.balance
  }

  ghost function WeightedBalanceOf(): (f: Position -> int)
    ensures forall p :: f(p) == p.balance * p.startLedger
  {
    (p: Position) => p.balance * p.startLedger
  }

  /** What an account holds beyond what the positions give it. */
  ghost function Excess(accounts: Accounts, positions: map<Address, Position>, d: Address): int {
    Power(accounts, d) - SumOver(positions, ShareOf(d))
  }

  ghost function ExcessWeight(accounts: Accounts, positions: map<Address, Position>, d: Address): int {
    Weight(accounts, d) - SumOver(positions, WeightedShareOf(d))
  }

  /** Every account's voting power is what the positions give it. */
  ghost predicate Backed(accounts: Accounts, positions: map<Address, Position>) {
    forall d :: Excess(accounts, positions, d) == 0 && ExcessWeight(accounts, positions, d) == 0
  }

  /** Every account holds at least what the positions give it, and what it holds beyond was
      not acquired later than now. */
  ghost predicate Covered(accounts: Accounts, positions: map<Address, Position>, now: nat) {
    forall d ::
      && 0 <= Excess(accounts, positions, d)
      && 0 <= ExcessWeight(accounts, positions, d) <= now * Excess(accounts, positions, d)
  }

  /** The total is the sum of the balances on record. */
  ghost predicate TotalBacked(total: History, positions: map<Address, Position>) {
    && Latest(total).votes == SumOver(positions, BalanceOf())
    && Latest(total).weightedSum == SumOver(positions, WeightedBalanceOf())
  }

  /** The value of a position that may not exist. */
  function PartOf(positions: map<Address, Position>, a: Address, d: Address): int {
    if a in positions then Share(positions[a], d) else 0
  }

  function WeightedPartOf(positions: map<Address, Position>, a: Address, d: Address): int {
    if a in positions then Share(positions[a], d) * positions[a].startLedger else 0
  }

  /** Replacing one position changes an account's excess by what the account gained beyond the
      difference of the shares. */
  lemma ExcessReplaced(old_: Accounts, new_: Accounts, positions: map<Address, Position>, a: Address, p: Position, d: Address)
    ensures Excess(new_, positions[a := p], d) - Excess(old_, positions, d)
         == Power(new_, d) - Power(old_, d) + PartOf(positions, a, d) - Share(p, d)
    ensures ExcessWeight(new_, positions[a := p], d) - ExcessWeight(old_, positions, d)
         == Weight(new_, d) - Weight(old_, d) + WeightedPartOf(positions, a, d) - Share(p, d) * p.startLedger
  {
    SumOverUpdate(positions, a, p, ShareOf(d));
    SumOverUpdate(positions, a, p, WeightedShareOf(d));
  }

  lemma ExcessRemoved(old_: Accounts, new_: Accounts, positions: map<Address, Position>, a: Address, d: Address)
    ensures Excess(new_, positions - {a}, d) - Excess(old_, positions, d)
         == Power(new_, d) - Power(old_, d) + PartOf(positions, a, d)
    ensures ExcessWeight(new_, positions - {a}, d) - ExcessWeight(old_, positions, d)
         == Weight(new_, d) - Weight(old_, d) + WeightedPartOf(positions, a, d)
  {
    SumOverDelete(positions, a, ShareOf(d));
    SumOverDelete(positions, a, WeightedShareOf(d));
  }

  // ---------------------------------------------------------------- sound checkpoints

  /** Votes are not negative, and were not acquired later than they were recorded. */
  ghost predicate Sound(cp: Checkpoint) {
    0 <= cp.votes && 0 <= cp.weightedSum <= cp.ledger * cp.votes
  }

  ghost predicate AllSound(accounts: Accounts) {
    forall a, i :: a in accounts && 0 <= i < |accounts[a]| ==> Sound(accounts[a][i])
  }

  ghost predicate ValidPositions(positions: map<Address, Position>, now: nat) {
    forall a :: a in positions ==> ValidSplits(positions[a].splits) && positions[a].startLedger <= now
  }

  lemma {:induction false} PartialShareNonNegative(splits: seq<Split>, n: nat, balance: nat, d: Address)
    requires ValidSplits(splits) && n <= |splits|
    ensures 0 <= PartialShare(splits, n, balance, d)
  {
    if 0 < n {
      PartialShareNonNegative(splits, n - 1, balance, d);
      PartIsProportional(splits, n - 1, balance);
    }
  }

  ghost function Zero(): (f: Position -> int)
    ensures forall p :: f(p) == 0
  {
    (p: Position) => 0
  }

  ghost function ScaledShareOf(d: Address, now: nat): (f: Position -> int)
    ensures forall p :: f(p) == now * Share(p, d)
  {
    (p: Position) => now * Share(p, d)
  }

  lemma {:induction false} SumOfZeros(positions: map<Address, Position>)
    ensures SumOver(positions, Zero()) == 0
    decreases |positions|
  {
    if positions != map[] {
      var k :| k in positions;
      SumOverRemove(positions, k, Zero());
      SumOfZeros(positions - {k});
    }
  }

  lemma {:induction false} SumScaled(positions: map<Address, Position>, d: Address, now: nat)
    ensures SumOver(positions, ScaledShareOf(d, now)) == now * SumOver(positions, ShareOf(d))
    decreases |positions|
  {
    hide Share;
    if positions != map[] {
      var k :| k in positions;
      SumOverRemove(positions, k, ScaledShareOf(d, now));
      SumOverRemove(positions, k, ShareOf(d));
      SumScaled(positions - {k}, d, now);
      var x, rest := Share(positions[k], d), SumOver(positions - {k}, ShareOf(d));
      assert now * (x + rest) == now * x + now * rest by { DistributeOver(x, rest, now); }
    }
  }

  /** The shares an account receives are not negative and not acquired later than now. */
  lemma SharesAreSound(positions: map<Address, Position>, now: nat, d: Address)
    requires ValidPositions(positions, now)
    ensures 0 <= SumOver(positions, ShareOf(d))
    ensures 0 <= SumOver(positions, WeightedShareOf(d)) <= now * SumOver(positions, ShareOf(d))
  {
    forall a | a in positions
      ensures 0 <= Share(positions[a], d)
      ensures 0 <= Share(positions[a], d) * positions[a].startLedger <= now * Share(positions[a], d)
    {
      PartIsSound(positions, a, d, now);
    }
    SumOfZeros(positions);
    SumOverMonotone(positions, Zero(), ShareOf(d));
    SumOverMonotone(positions, Zero(), WeightedShareOf(d));
    SumOverMonotone(positions, WeightedShareOf(d), ScaledShareOf(d, now));
    SumScaled(positions, d, now);
  }

  lemma PartIsSound(positions: map<Address, Position>, a: Address, d: Address, now: nat)
    requires ValidPositions(positions, now)
    ensures 0 <= PartOf(positions, a, d)
    ensures 0 <= WeightedPartOf(positions, a, d) <= now * PartOf(positions, a, d)
  {
    if a in positions {
      var p := positions[a];
      PartialShareNonNegative(p.splits, |p.splits|, p.balance, d);
      MultiplyBound(Share(p, d), p.startLedger, now);
    }
  }

  /** In covered books the current values of every account are sound as of now. */
  lemma CoveredIsSound(accounts: Accounts, positions: map<Address, Position>, now: nat, d: Address)
    requires Covered(accounts, positions, now) && ValidPositions(positions, now)
    ensures 0 <= Power(accounts, d)
    ensures 0 <= Weight(accounts, d) <= now * Power(accounts, d)
  {
    hide Power, Weight;
    SharesAreSound(positions, now, d);
    DistributeOver(SumOver(positions, ShareOf(d)), Excess(accounts, positions, d), now);
  }

  lemma MultiplyBound(x: int, s: nat, now: nat)
    requires 0 <= x && s <= now
    ensures 0 <= x * s <= now * x
  {
  }

  /** Every checkpoint was there before, or is its account's latest and written now. */
  ghost predicate OnlyAdds(old_: Accounts, new_: Accounts, now: nat) {
    forall a, i :: 0 <= i < |HistoryOf(new_, a)| ==>
      || HistoryOf(new_, a)[i] in HistoryOf(old_, a)
      || (i == |HistoryOf(new_, a)| - 1 && HistoryOf(new_, a)[i].ledger == now)
  }

  /** A change that ends in covered books keeps all checkpoints sound. */
  lemma SoundAfter(old_: Accounts, new_: Accounts, positions: map<Address, Position>, now: nat)
    requires AllSound(old_) && Covered(new_, positions, now) && ValidPositions(positions, now)
    requires OnlyAdds(old_, new_, now)
    ensures AllSound(new_)
  {
    hide Covered, ValidPositions, Sound;
    forall a, i | a in new_ && 0 <= i < |new_[a]| ensures Sound(new_[a][i]) {
      var cp := HistoryOf(new_, a)[i];
      if cp in HistoryOf(old_, a) {
        SoundWithin(old_, a, cp);
      } else {
        CoveredIsSound(new_, positions, now, a);
        LatestIsSound(cp, now);
      }
    }
  }

  lemma SoundWithin(accounts: Accounts, a: Address, cp: Checkpoint)
    requires AllSound(accounts) && cp in HistoryOf(accounts, a)
    ensures Sound(cp)
  {
    var k :| 0 <= k < |accounts[a]| && accounts[a][k] == cp;
    assert Sound(accounts[a][k]);
  }

  lemma LatestIsSound(cp: Checkpoint, now: nat)
    requires cp.ledger == now && 0 <= cp.votes && 0 <= cp.weightedSum <= now * cp.votes
    ensures Sound(cp)
  {
  }
}
