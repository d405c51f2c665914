/** The voting contract as an object: its entry points implement the operations of module
    VotesBooks, whose invariants are therefore the contract's. */
module VotesContract {
  import opened Options
  import opened Checkpoints
  import opened SplitDelegation
  import opened VotingLedger
  import opened TokenVotes
  import opened PastVotes
  import opened VotesBooks
  import opened OperationLaws
  import Graph = DelegationGraph

  class Contract {
    var ledger: nat
    var delegates: map<Address, Address>
    var splits: map<Address, seq<Split>>
    var records: map<Address, DelegatorRecord>
    var accounts: Accounts
    var total: History
    var depthLimit: nat
    var maxSplitTargets: nat
    var retention: nat
    var timeWeight: bool
    var scale: nat
    ghost var horizon: nat

    ghost function State(): Books
      reads this
    {
      Books(ledger, horizon, delegates, splits, records, accounts, total, depthLimit, maxSplitTargets, retention)
    }

    ghost predicate Valid()
      reads this
    {
      VotesBooks.Valid(State())
    }

    constructor ()
      ensures Valid() && State() == Genesis && !timeWeight && scale == 4_204_800
      ensures ledger == 0 && delegates == map[] && splits == map[] && records == map[] && accounts == map[] && total == []
      ensures depthLimit == 1 && maxSplitTargets == 10 && retention == 100_800
    {
      ledger, horizon := 0, 0;
      delegates, splits, records, accounts, total := map[], map[], map[], map[], [];
      depthLimit, maxSplitTargets, retention := 1, 10, 100_800;
      timeWeight, scale := false, 4_204_800;
      new;
      GenesisIsValid();
    }

    method AdvanceLedger(to: nat)
      requires Valid() && ledger <= to
      modifies `ledger
      ensures Valid() && State() == Apply(old(State()), Operation.AdvanceLedger(to))
    {
      StepKeepsValid(State(), Operation.AdvanceLedger(to));
      ledger := to;
    }

    method SetDepthLimit(limit: nat) returns (ok: bool)
      requires Valid()
      modifies `depthLimit
      ensures Valid() && State() == Apply(old(State()), Operation.SetDepthLimit(limit))
      ensures ok <==> 1 <= limit <= 64
      ensures depthLimit == if ok then limit else old(depthLimit)
    {
      StepKeepsValid(State(), Operation.SetDepthLimit(limit));
      ok := 1 <= limit <= Graph.MAX_CHAIN_WALK;
      if ok { depthLimit := limit; }
    }

    method SetMaxSplitTargets(max: nat) returns (ok: bool)
      requires Valid()
      modifies `maxSplitTargets
      ensures Valid() && State() == Apply(old(State()), Operation.SetMaxTargets(max))
      ensures ok <==> 1 <= max
    {
      StepKeepsValid(State(), Operation.SetMaxTargets(max));
      ok := 1 <= max;
      if ok { maxSplitTargets := max; }
    }

    method SetRetention(period: nat)
      requires Valid()
      modifies `retention
      ensures Valid() && State() == Apply(old(State()), Operation.SetRetention(period))
    {
      StepKeepsValid(State(), Operation.SetRetention(period));
      retention := period;
    }

    method SetTimeWeight(enabled: bool, newScale: nat)
      requires Valid()
      modifies `timeWeight, `scale
      ensures Valid() && timeWeight == enabled && scale == newScale
    {
      timeWeight, scale := enabled, newScale;
    }

    /** Adding to an account's latest checkpoint. */
    method UpdateAccountVotes(account: Address, delta: int, deltaWeighted: int)
      modifies `accounts
      ensures accounts == Credit(old(accounts), account, ledger, delta, deltaWeighted)
    {
      var checkpoints := if account in accounts then accounts[account] else [];
      var last := if |checkpoints| == 0 then NOTHING else checkpoints[|checkpoints| - 1];
      var cp := Checkpoint(ledger, last.votes + delta, last.weightedSum + deltaWeighted);
      if |checkpoints| != 0 && checkpoints[|checkpoints| - 1].ledger == ledger {
        checkpoints := checkpoints[|checkpoints| - 1 := cp];
      } else {
        checkpoints := checkpoints + [cp];
      }
      accounts := accounts[account := checkpoints];
    }

    /** Adding to the latest checkpoint of the total. */
    method UpdateTotal(delta: int, deltaWeighted: int)
      modifies `total
      ensures total == Record(old(total), ledger, delta, deltaWeighted)
    {
      var last := if |total| == 0 then NOTHING else total[|total| - 1];
      var cp := Checkpoint(ledger, last.votes + delta, last.weightedSum + deltaWeighted);
      if |total| != 0 && total[|total| - 1].ledger == ledger {
        total := total[|total| - 1 := cp];
      } else {
        total := total + [cp];
      }
    }

    /** The record of a delegator after reading its balance: added tokens start now, and the
        start ledger is the weighted mean, rounded down. */
    method Refresh(record: DelegatorRecord, balance: nat) returns (r: DelegatorRecord)
      ensures r == Refreshed(record, balance, ledger)
      ensures r.balance == balance && (balance <= record.balance ==> r.startLedger == record.startLedger)
      ensures record.balance < balance ==>
                var weighted := record.balance * record.startLedger + (balance - record.balance) * ledger;
                balance * r.startLedger <= weighted < balance * r.startLedger + balance
    {
      MeanStart(record, balance, ledger);
      r := record.(balance := balance);
      if balance > record.balance {
        var added := balance - record.balance;
        var weightedStart: nat := WeightOf(record) + WeightOf(DelegatorRecord(added, ledger));
        r := r.(startLedger := weightedStart / balance);
      }
    }

    /** A plain delegation. It fails, changing nothing, exactly when the new edge is not
        allowed. */
    method Delegate(delegator: Address, delegatee: Address, balance: nat) returns (ok: bool)
      requires Valid()
      modifies `delegates, `records, `accounts, `total
      ensures Valid() && State() == Apply(old(State()), Operation.Delegate(delegator, delegatee, balance))
      ensures ok <==> LetThrough(old(State()), Operation.Delegate(delegator, delegatee, balance))
    {
      hide VotesBooks.Valid, Redelegated, Grown, Refreshed, MayDelegate, Added, WeightOf;
      StepKeepsValid(State(), Operation.Delegate(delegator, delegatee, balance));
      DepthLimitInRange(State());
      AllowedIff(State(), delegator, delegatee, balance);
      ok := CheckEdge(delegator, delegatee);
      if !ok { return; }
      Redirect(delegator, delegatee, balance);
    }

    /** The state change of a delegation that is allowed. */
    method Redirect(delegator: Address, delegatee: Address, balance: nat)
      modifies `delegates, `records, `accounts, `total
      ensures State() == Delegated(old(State()), delegator, delegatee, balance)
    {
      hide Redelegated, Grown, Refreshed, Added, WeightOf;
      var previous := PreviousOf(delegates, delegator);
      var record := RecordOf(records, delegator);
      var refreshed := Refresh(record, balance);
      MoveVotes(previous, delegatee, record, refreshed);
      delegates := delegates[delegator := delegatee];
      records := records[delegator := refreshed];
    }

    /** The graph check of a delegation that hands power to somebody new. */
    method CheckEdge(delegator: Address, delegatee: Address) returns (ok: bool)
      requires 1 <= depthLimit <= Graph.MAX_CHAIN_WALK
      ensures ok <==> MayDelegate(delegates, delegator, delegatee, depthLimit)
    {
      ok := true;
      var willRegister := delegatee != delegator && PreviousOf(delegates, delegator) != Some(delegatee);
      if willRegister {
        ghost var chain;
        ok, chain := Graph.ValidateDelegation(delegates, delegator, delegatee, depthLimit);
      }
    }

    /** The vote movements of a plain delegation. */
    method MoveVotes(previous: Option<Address>, delegatee: Address, record: DelegatorRecord, refreshed: DelegatorRecord)
      modifies `accounts, `total
      ensures accounts == Redelegated(old(accounts), ledger, previous, delegatee, record, refreshed)
      ensures var (x, xw) := Added(previous, record, refreshed); total == Grown(old(total), ledger, x, xw)
    {
      var oldWeight: int, newWeight: int := WeightOf(record), WeightOf(refreshed);
      match previous
      case Some(before) =>
        if before != delegatee {
          UpdateAccountVotes(before, 0 - record.balance, 0 - oldWeight);
          UpdateAccountVotes(delegatee, refreshed.balance, newWeight);
        } else {
          UpdateAccountVotes(delegatee, refreshed.balance - record.balance, newWeight - oldWeight);
        }
        var delta, deltaWeighted := refreshed.balance - record.balance, newWeight - oldWeight;
        if delta != 0 || deltaWeighted != 0 {
          UpdateTotal(delta, deltaWeighted);
        }
      case None =>
        if refreshed.balance > 0 {
          UpdateTotal(refreshed.balance, newWeight);
        }
        UpdateAccountVotes(delegatee, refreshed.balance, newWeight);
    }

    /** Returning to self-delegation: the balance comes back to the delegator, and what was on
        record leaves the delegatee. */
    method Undelegate(delegator: Address, balance: nat)
      requires Valid()
      modifies `delegates, `records, `accounts, `total
      ensures Valid() && State() == Apply(old(State()), Operation.Undelegate(delegator, balance))
      ensures delegator in delegates ==> delegates[delegator] == delegator
      ensures Away(old(State()), delegator) ==>
                && delegator in delegates && Power(accounts, delegator) == Power(old(accounts), delegator) + balance
                && var delegatee := old(delegates)[delegator];
                   Power(accounts, delegatee) == Power(old(accounts), delegatee) - RecordOf(old(records), delegator).balance
      ensures !Away(old(State()), delegator) ==> State() == old(State())
    {
      hide VotesBooks.Valid, Delegated;
      ValidIsOrderly(State());
      if Away(State(), delegator) {
        DistributionAfter(State(), Operation.Undelegate(delegator, balance));
        UndelegateReturns(State(), delegator, balance, delegator);
        UndelegateReturns(State(), delegator, balance, delegates[delegator]);
      }
      StepKeepsValid(State(), Operation.Undelegate(delegator, balance));
      if delegator in delegates && delegates[delegator] != delegator {
        Redirect(delegator, delegator, balance);
      }
    }

    /** Revoking a plain delegation to somebody else; without one, nothing happens. */
    method RevokeDelegation(delegator: Address)
      requires Valid()
      modifies `delegates, `records, `accounts, `total
      ensures Valid() && State() == Apply(old(State()), Operation.Revoke(delegator))
    {
      hide VotesBooks.Valid, Withdrawn, Grown, WeightOf;
      StepKeepsValid(State(), Operation.Revoke(delegator));
      if delegator !in delegates || delegates[delegator] == delegator { return; }
      var record := RecordOf(records, delegator);
      WithdrawnPlain(accounts, ledger, delegates, splits, delegator, record);
      WithdrawPlain(delegates[delegator], record);
      delegates := delegates - {delegator};
      records := records - {delegator};
    }

    method WithdrawPlain(delegatee: Address, record: DelegatorRecord)
      modifies `accounts, `total
      ensures accounts == if record.balance == 0 then old(accounts)
                          else Credit(old(accounts), delegatee, ledger, 0 - record.balance, 0 - WeightOf(record))
      ensures total == Grown(old(total), ledger, 0 - record.balance, 0 - WeightOf(record))
    {
      var weight: int := WeightOf(record);
      if record.balance > 0 {
        UpdateAccountVotes(delegatee, 0 - record.balance, 0 - weight);
        UpdateTotal(0 - record.balance, 0 - weight);
      }
    }

    // ---------------------------------------------------------------- split delegation

    /** Takes out what the delegator has on file, and says whether there was anything. */
    method RemoveOldDistribution(delegator: Address, record: DelegatorRecord) returns (hadPrior: bool)
      requires forall a :: a in splits ==> ValidSplits(splits[a])
      modifies `accounts, `delegates, `splits
      ensures hadPrior == HadPrior(old(delegates), old(splits), delegator)
      ensures accounts == Withdrawn(old(accounts), ledger, old(delegates), old(splits), delegator, record)
      ensures delegates - {delegator} == old(delegates) - {delegator} && splits - {delegator} == old(splits) - {delegator}
    {
      hide Credit, Record, Amount, ValidSplits;
      if delegator in delegates {
        var weight: int := WeightOf(record);
        if record.balance != 0 || weight != 0 {
          UpdateAccountVotes(delegates[delegator], 0 - record.balance, 0 - weight);
        }
        delegates := delegates - {delegator};
        return true;
      }
      var oldSplits := if delegator in splits then splits[delegator] else [];
      if |oldSplits| == 0 {
        assert delegator !in splits by { NoEmptySplit(splits, delegator); }
        return false;
      }
      var i := 0;
      while i < |oldSplits|
        invariant 0 <= i <= |oldSplits|
        invariant accounts == CreditParts(old(accounts), ledger, oldSplits, i, true, record.balance, record.startLedger)
        invariant delegates == old(delegates) && splits == old(splits)
      {
        var entry := SplitAmount(oldSplits, i, record.balance);
        var entryWeight := entry * record.startLedger;
        if entry != 0 || entryWeight != 0 {
          UpdateAccountVotes(oldSplits[i].delegatee, 0 - entry, 0 - entryWeight);
        }
        i := i + 1;
      }
      splits := splits - {delegator};
      hadPrior := true;
    }

    /** Gives every entry of a split its part. */
    method ApplyNewDistribution(parts: seq<Split>, record: DelegatorRecord)
      modifies `accounts
      ensures accounts == CreditParts(old(accounts), ledger, parts, |parts|, false, record.balance, record.startLedger)
    {
      hide Credit, Record, Amount;
      var i := 0;
      while i < |parts|
        invariant 0 <= i <= |parts|
        invariant accounts == CreditParts(old(accounts), ledger, parts, i, false, record.balance, record.startLedger)
      {
        var entry := SplitAmount(parts, i, record.balance);
        var entryWeight := entry * record.startLedger;
        if entry != 0 || entryWeight != 0 {
          UpdateAccountVotes(parts[i].delegatee, entry, entryWeight);
        }
        i := i + 1;
      }
    }

    /** A split delegation replaces whatever the delegator has on file. It fails, changing
        nothing, exactly when the splits are not valid or too many. */
    method DelegateSplit(delegator: Address, parts: seq<Split>, balance: nat) returns (error: Option<SplitError>)
      requires Valid()
      modifies `delegates, `splits, `records, `accounts, `total
      ensures Valid() && State() == Apply(old(State()), Operation.DelegateSplit(delegator, parts, balance))
      ensures error.None? <==> ValidSplits(parts) && |parts| <= maxSplitTargets
    {
      hide VotesBooks.Valid, ValidSplits, Resplit, Grown, Refreshed, AddedBySplit, StoredDelegates, StoredSplits;
      StepKeepsValid(State(), Operation.DelegateSplit(delegator, parts, balance));
      SplitsAreValid(State());
      error := ValidateSplits(parts, maxSplitTargets);
      if error.Some? { return; }
      var record := RecordOf(records, delegator);
      var refreshed := Refresh(record, balance);
      MoveParts(delegator, parts, record, refreshed);
      StoreResult(delegator, parts, old(delegates), old(splits));
      records := records[delegator := refreshed];
    }

    /** Puts the split on file; a single whole entry becomes a plain delegation. */
    method StoreResult(delegator: Address, parts: seq<Split>,
                       ghost oldDelegates: map<Address, Address>, ghost oldSplits: map<Address, seq<Split>>)
      requires delegates - {delegator} == oldDelegates - {delegator} && splits - {delegator} == oldSplits - {delegator}
      modifies `delegates, `splits
      ensures delegates == StoredDelegates(oldDelegates, delegator, parts)
      ensures splits == StoredSplits(oldSplits, delegator, parts)
    {
      splits := splits - {delegator};
      delegates := delegates - {delegator};
      if |parts| == 1 && parts[0].weightBps == BPS {
        delegates := delegates[delegator := parts[0].delegatee];
      } else {
        splits := splits[delegator := parts];
      }
      StoredAfterRemoval(oldDelegates, delegates, oldSplits, splits, delegator, parts);
    }

    /** The vote movements of a split delegation. */
    method MoveParts(delegator: Address, parts: seq<Split>, record: DelegatorRecord, refreshed: DelegatorRecord)
      requires forall a :: a in splits ==> ValidSplits(splits[a])
      modifies `accounts, `total, `delegates, `splits
      ensures accounts == Resplit(old(accounts), ledger, old(delegates), old(splits), delegator, parts, record, refreshed)
      ensures var (x, xw) := AddedBySplit(HadPrior(old(delegates), old(splits), delegator), record, refreshed);
              total == Grown(old(total), ledger, x, xw)
      ensures delegates - {delegator} == old(delegates) - {delegator} && splits - {delegator} == old(splits) - {delegator}
    {
      hide Withdrawn, CreditParts, Record, Credit, ValidSplits;
      var hadPrior := RemoveOldDistribution(delegator, record);
      var oldWeight: int, newWeight: int := WeightOf(record), WeightOf(refreshed);
      if hadPrior {
        var delta, deltaWeighted := refreshed.balance - record.balance, newWeight - oldWeight;
        if delta != 0 || deltaWeighted != 0 {
          UpdateTotal(delta, deltaWeighted);
        }
      } else if refreshed.balance > 0 {
        UpdateTotal(refreshed.balance, newWeight);
      }
      ApplyNewDistribution(parts, refreshed);
    }

    /** Back to self-delegation, from a split or from a plain delegation to somebody else. */
    method UndelegateSplit(delegator: Address, balance: nat)
      requires Valid()
      modifies `delegates, `splits, `records, `accounts, `total
      ensures Valid() && State() == Apply(old(State()), Operation.UndelegateSplit(delegator, balance))
    {
      hide VotesBooks.Valid, ValidSplits, SplitOver;
      StepKeepsValid(State(), Operation.UndelegateSplit(delegator, balance));
      SplitsAreValid(State());
      NoEmptySplit(splits, delegator);
      var hasSplit := delegator in splits && splits[delegator] != [];
      if !hasSplit && (delegator !in delegates || delegates[delegator] == delegator) { return; }
      WholeShare(delegator, DefaultRecord, delegator);
      SelfSplitFits(State());
      var error := DelegateSplit(delegator, [Split(delegator, BPS)], balance);
    }

    // ---------------------------------------------------------------- pruning and lookups

    /** Drops old checkpoints, from a cutoff that respects the retention period and the oldest
        active proposal. */
    method PruneCheckpoints(minActive: Option<nat>)
      requires Valid()
      modifies `accounts, `total, `horizon
      ensures Valid() && State() == Apply(old(State()), Operation.Prune(minActive))
      ensures forall a, at: nat :: ledger <= at + retention || (minActive.Some? && minActive.value <= at) ==>
                At(HistoryOf(accounts, a), at) == At(HistoryOf(old(accounts), a), at)
    {
      LookupsKept(State(), minActive);
      hide VotesBooks.Valid, PrunedTotal, PrunedAccounts, HorizonAfter;
      StepKeepsValid(State(), Operation.Prune(minActive));
      HistoriesAreSorted(State());
      var cutoff := SafeCutoff(ledger, retention, minActive);
      horizon := HorizonAfter(total, cutoff, horizon);
      var prunedTotal;
      total, prunedTotal := PruneTotal(total, cutoff);
      PruneAllAccounts(cutoff);
    }

    method PruneAllAccounts(cutoff: nat)
      requires AllWrittenBy(accounts, ledger)
      modifies `accounts
      ensures accounts == PrunedAccounts(old(accounts), cutoff)
    {
      hide PrunedAccount, WrittenBy;
      var todo := accounts.Keys;
      while todo != {}
        invariant accounts.Keys == old(accounts).Keys && todo <= accounts.Keys
        invariant forall a :: a in accounts ==>
                    accounts[a] == if a in todo then old(accounts)[a] else PrunedAccount(old(accounts)[a], cutoff)
        decreases |todo|
      {
        var account :| account in todo;
        assert Sorted(old(accounts)[account]) by { SortedHistory(old(accounts), account, ledger); }
        var pruned, count := PruneAccount(accounts[account], cutoff);
        accounts := accounts[account := pruned];
        todo := todo - {account};
      }
    }

    /** Past voting power; none stands for a failing call: a ledger in the future, or a
        division by a zero scale. */
    method GetPastVotes(account: Address, at: nat) returns (votes: Option<int>)
      requires Valid()
      ensures votes.None? <==> ledger < at || (timeWeight && scale == 0 && 0 < At(HistoryOf(accounts, account), at).votes)
      ensures votes.Some? && (timeWeight ==> 0 < scale) ==>
                votes.value == VotesOf(At(HistoryOf(accounts, account), at), at, timeWeight, scale)
      ensures votes.Some? && timeWeight && scale == 0 ==> votes.value == 0
    {
      if ledger < at { return None; }
      var checkpoints := HistoryOf(accounts, account);
      var cp := BinarySearch(checkpoints, at);
      votes := Weighed(cp, at);
    }

    method GetPastTotalSupply(at: nat) returns (votes: Option<int>)
      requires Valid()
      ensures votes.None? <==> timeWeight && scale == 0 && 0 < At(total, at).votes
      ensures votes.Some? && (timeWeight ==> 0 < scale) ==>
                votes.value == VotesOf(At(total, at), at, timeWeight, scale)
      ensures votes.Some? && timeWeight && scale == 0 ==> votes.value == 0
    {
      var cp := BinarySearch(total, at);
      votes := Weighed(cp, at);
    }

    method Weighed(cp: Checkpoint, at: nat) returns (votes: Option<int>)
      ensures votes.None? <==> timeWeight && scale == 0 && 0 < cp.votes
      ensures votes.Some? && (timeWeight ==> 0 < scale) ==> votes.value == VotesOf(cp, at, timeWeight, scale)
      ensures votes.Some? && timeWeight && scale == 0 ==> votes.value == 0
    {
      if cp.votes <= 0 { return Some(0); }
      if !timeWeight { return Some(cp.votes); }
      if scale == 0 { return None; }
      var bonus := TruncatedQuotient(at * cp.votes - cp.weightedSum, scale);
      votes := Some(cp.votes + bonus);
    }
  }

  lemma LookupsKept(b: Books, minActive: Option<nat>)
    requires VotesBooks.Valid(b)
    ensures forall a, at: nat :: b.ledger <= at + b.retention || (minActive.Some? && minActive.value <= at) ==>
              At(HistoryOf(Apply(b, Operation.Prune(minActive)).accounts, a), at) == At(HistoryOf(b.accounts, a), at)
  {
    hide VotesBooks.Valid, Apply, At;
    forall a, at: nat | b.ledger <= at + b.retention || (minActive.Some? && minActive.value <= at)
      ensures At(HistoryOf(Apply(b, Operation.Prune(minActive)).accounts, a), at) == At(HistoryOf(b.accounts, a), at)
    {
      PruningKeepsRetained(b, minActive, a, at);
    }
  }

  lemma DepthLimitInRange(b: Books)
    requires VotesBooks.Valid(b)
    ensures 1 <= b.depthLimit <= Graph.MAX_CHAIN_WALK
  {
  }

  lemma SelfSplitFits(b: Books)
    requires VotesBooks.Valid(b)
    ensures 1 <= b.maxTargets
  {
  }

  lemma HistoriesAreSorted(b: Books)
    requires VotesBooks.Valid(b)
    ensures AllWrittenBy(b.accounts, b.ledger) && Sorted(b.total)
  {
  }

  lemma NoEmptySplit(splits: map<Address, seq<Split>>, who: Address)
    requires forall a :: a in splits ==> ValidSplits(splits[a])
    ensures who in splits ==> splits[who] != []
  {
    assert who in splits ==> ValidSplits(splits[who]);
  }

  lemma WithdrawnPlain(accounts: Accounts, now: nat, delegates: map<Address, Address>, splits: map<Address, seq<Split>>,
                       who: Address, r: DelegatorRecord)
    requires who in delegates
    ensures Withdrawn(accounts, now, delegates, splits, who, r)
         == if r.balance == 0 then accounts else Credit(accounts, delegates[who], now, 0 - r.balance, 0 - WeightOf(r))
  {
  }

  lemma StoredAfterRemoval(oldDelegates: map<Address, Address>, delegates: map<Address, Address>,
                           oldSplits: map<Address, seq<Split>>, splits: map<Address, seq<Split>>,
                           who: Address, parts: seq<Split>)
    requires delegates - {who} == oldDelegates - {who} && splits - {who} == oldSplits - {who}
    requires if |parts| == 1 && parts[0].weightBps == BPS
             then who in delegates && delegates[who] == parts[0].delegatee && who !in splits
             else who !in delegates && who in splits && splits[who] == parts
    ensures delegates == StoredDelegates(oldDelegates, who, parts) && splits == StoredSplits(oldSplits, who, parts)
  {
    var d, s := StoredDelegates(oldDelegates, who, parts), StoredSplits(oldSplits, who, parts);
    assert d - {who} == oldDelegates - {who} && s - {who} == oldSplits - {who};
    SameButOne(delegates, d, who);
    SameButOne(splits, s, who);
  }

  lemma SameButOne<K, V>(m: map<K, V>, n: map<K, V>, k: K)
    requires m - {k} == n - {k} && (k in m <==> k in n) && (k in m ==> m[k] == n[k])
    ensures m == n
  {
    forall x ensures x in m <==> x in n {
      assert x != k ==> (x in m <==> x in m - {k}) && (x in n <==> x in n - {k});
    }
    forall x | x in m ensures m[x] == n[x] {
      assert x != k ==> m[x] == (m - {k})[x] && n[x] == (n - {k})[x];
    }
  }
}
