/** The voting power distribution shown on governance dashboards: the power of all active
    delegates, its share of the supply, and its concentration; and how these figures relate to
    the books of the voting contract. */
module PowerDistribution {
  import opened Sums
  import opened Checkpoints
  import opened VotingLedger
  import opened TokenVotes
  import opened PastVotes
  import opened VotesBooks
  import Gini
  import DelegateRanking

  type Address = string

  /** The positive powers of the given accounts. */
  function Active(order: seq<Address>, votes: Address -> int): seq<int> {
    if order == [] then []
    else
      var v := votes(order[|order| - 1]);
      Active(order[..|order| - 1], votes) + if v > 0 then [v] else []
  }

  lemma {:induction false} ActivePositive(order: seq<Address>, votes: Address -> int)
    ensures forall i :: 0 <= i < |Active(order, votes)| ==> 0 < Active(order, votes)[i]
    ensures Active(order, votes) != [] <==> exists i :: 0 <= i < |order| && 0 < votes(order[i])
  {
    if order != [] {
      var front, last := order[..|order| - 1], order[|order| - 1];
      ActivePositive(front, votes);
      if i :| 0 <= i < |order| && 0 < votes(order[i]) {
        assert i < |front| ==> front[i] == order[i];
      }
      if i :| 0 <= i < |front| && 0 < votes(front[i]) {
        assert order[i] == front[i];
      }
      assert 0 < votes(last) ==> order[|order| - 1] == last;
    }
  }

  /** The statistics for a delegation map, the current powers and the supply. */
  method Distribution(entries: seq<(Address, Address)>, votes: Address -> int, totalSupply: int)
    returns (totalDelegated: int, delegationRate: real, gini: real, ghost order: seq<Address>)
    requires DelegateRanking.IsMap(entries)
    ensures DelegateRanking.Unique(order)
    ensures forall a :: a in order <==> exists i :: 0 <= i < |entries| && entries[i].1 == a
    ensures totalDelegated == Gini.Total(Active(order, votes)) && gini == Gini.Gini(Active(order, votes))
    ensures delegationRate == if totalSupply > 0 then totalDelegated as real / totalSupply as real else 0.0
  {
    hide DelegateRanking.Unique, Gini.Gini, DelegateRanking.SizeSum;
    order := [];
    Gini.GiniOfNothing([]);
    if |entries| == 0 {
      assert DelegateRanking.Unique(order) by { EmptyUnique(); }
      return 0, 0.0, 0.0, order;
    }
    var delegatees, groups := DelegateRanking.GroupByDelegate(entries);
    order := delegatees;
    OnlyDelegatees(entries, order, groups);
    var powers: seq<int> := [];
    totalDelegated := 0;
    for i := 0 to |delegatees|
      invariant powers == Active(delegatees[..i], votes) && totalDelegated == Gini.Total(powers)
    {
      assert delegatees[..i + 1][..i] == delegatees[..i];
      var power := votes(delegatees[i]);
      if power > 0 {
        Gini.SumMapSnoc(Gini.Identity(), powers, power);
        powers := powers + [power];
        totalDelegated := totalDelegated + power;
      }
    }
    assert delegatees[..|delegatees|] == delegatees;
    delegationRate := if totalSupply > 0 then totalDelegated as real / totalSupply as real else 0.0;
    gini := Gini.ComputeGini(powers);
  }

  lemma EmptyUnique()
    ensures DelegateRanking.Unique([])
  {
  }

  /** Groups are never empty: every group key is somebody's delegatee. */
  lemma OnlyDelegatees(entries: seq<(Address, Address)>, order: seq<Address>, groups: map<Address, set<Address>>)
    requires forall a :: a in order <==> a in groups
    requires forall a, d :: a in groups && d in groups[a] ==> (d, a) in entries
    requires forall a :: a in groups ==> groups[a] != {}
    requires forall i :: 0 <= i < |entries| ==> entries[i].1 in groups
    ensures forall a :: a in order <==> exists i :: 0 <= i < |entries| && entries[i].1 == a
  {
    forall a | a in order ensures exists i :: 0 <= i < |entries| && entries[i].1 == a {
      var d :| d in groups[a];
      var i :| 0 <= i < |entries| && entries[i] == (d, a);
      assert entries[i].1 == a;
    }
  }

  /** Whatever the powers are: the concentration lies between 0 and (n-1)/n for n active
      delegates, and is 0 without any. */
  lemma ConcentrationInRange(order: seq<Address>, votes: Address -> int)
    ensures var active := Active(order, votes);
            if active == [] then Gini.Gini(active) == 0.0
            else 0.0 <= Gini.Gini(active) <= (|active| - 1) as real / |active| as real
  {
    hide Gini.Gini, Active;
    var active := Active(order, votes);
    ActivePositive(order, votes);
    Gini.GiniOfNothing(active);
    if active != [] {
      Gini.SumMapNonNegative(Gini.Identity(), active);
      assert active[0] > 0;
      Gini.GiniBounds(active);
    }
  }

  // ---------------------------------------------------------------- against the contract's books

  /** The current votes of an account, as the contract computes them. */
  function CurrentVotes(h: History, now: nat, timeWeight: bool, scale: nat): int
    requires timeWeight ==> 0 < scale
  {
    if h == [] then 0
    else
      var last := h[|h| - 1];
      if !timeWeight then last.votes
      else last.votes + TruncatedQuotient(now * last.votes - last.weightedSum, scale)
  }

  /** Some account outside the list holds power. */
  ghost predicate HolderOutside(accounts: Accounts, order: seq<Address>) {
    exists a :: a in accounts && a !in order && 0 < Power(accounts, a)
  }

  function Without(accounts: Accounts, order: seq<Address>): Accounts {
    map a | a in accounts && a !in order :: accounts[a]
  }

  /** In every state a run can reach, with and without time weighting: the delegated power
      shown and the current votes of the accounts missing from the delegation map never exceed
      what the contract answers for the total at the current ledger, and reach it up to one
      vote per account, lost to rounding under time weighting. The missing accounts have votes
      exactly if one of them holds power. */
  lemma DelegatedWithinTotal(b: Books, order: seq<Address>, votes: Address -> int, timeWeight: bool, scale: nat)
    requires Valid(b) && (timeWeight ==> 0 < scale)
    requires DelegateRanking.Unique(order)
    requires forall a :: votes(a) == CurrentVotes(HistoryOf(b.accounts, a), b.ledger, timeWeight, scale)
    ensures var shown, all := Gini.Total(Active(order, votes)), VotesOf(At(b.total, b.ledger), b.ledger, timeWeight, scale);
            var missing := SumOver(Without(b.accounts, order), VotesOfAt(b.ledger, timeWeight, scale));
            && shown + missing <= all <= shown + missing + (if timeWeight then |b.accounts| else 0)
            && 0 <= missing && (missing == 0 <==> !HolderOutside(b.accounts, order))
  {
    hide VotesOf, At, Filed, Covered, PositionsOf, Sound, WrittenBy;
    assert BalancedAt(b.accounts, b.total, b.ledger);
    VotesAddUp(b.accounts, b.total, b.ledger);
    if timeWeight {
      TimeWeightedVotesAddUp(b.accounts, b.total, b.ledger, scale);
    } else {
      SameWithoutScale(b.accounts, b.ledger, scale);
    }
    ListedAndRest(b.accounts, order, votes, b.ledger, timeWeight, scale);
    var rest := Without(b.accounts, order);
    assert AllSound(rest) && AllWrittenBy(rest, b.ledger);
    MissingVotes(rest, b.ledger, timeWeight, scale);
    forall a | a in rest ensures Power(rest, a) == Power(b.accounts, a) {}
  }

  /** Without time weighting the scale does not matter. */
  lemma SameWithoutScale(accounts: Accounts, ledger: nat, scale: nat)
    ensures SumOver(accounts, VotesOfAt(ledger, false, scale)) == SumOver(accounts, VotesOfAt(ledger, false, 0))
    ensures forall cp :: VotesOf(cp, ledger, false, scale) == VotesOf(cp, ledger, false, 0)
  {
    SumOverCongruence(accounts, VotesOfAt(ledger, false, scale), accounts, VotesOfAt(ledger, false, 0));
  }

  /** The current votes are the answer for the current ledger, not negative, and positive
      exactly for accounts with power. */
  lemma CurrentIsAnswer(accounts: Accounts, a: Address, now: nat, timeWeight: bool, scale: nat)
    requires AllWrittenBy(accounts, now) && AllSound(accounts) && (timeWeight ==> 0 < scale)
    ensures var h := HistoryOf(accounts, a);
            && CurrentVotes(h, now, timeWeight, scale) == VotesOf(At(h, now), now, timeWeight, scale)
            && 0 <= CurrentVotes(h, now, timeWeight, scale)
            && (CurrentVotes(h, now, timeWeight, scale) == 0 <==> Power(accounts, a) == 0)
            && 0 <= Power(accounts, a)
  {
    var h := HistoryOf(accounts, a);
    if h != [] {
      assert WrittenBy(accounts[a], now) && Sound(accounts[a][|h| - 1]);
      HeldByNow(h[|h| - 1], now);
    }
  }

  lemma HeldByNow(cp: Checkpoint, now: nat)
    requires Sound(cp) && cp.ledger <= now
    ensures 0 <= now * cp.votes - cp.weightedSum
    ensures cp.votes == 0 ==> now * cp.votes - cp.weightedSum == 0
  {
    MultiplyBound(cp.votes, cp.ledger, now);
  }

  /** The listed accounts' votes and the other accounts' votes make up the sum of all votes. */
  lemma {:induction false} ListedAndRest(accounts: Accounts, order: seq<Address>, votes: Address -> int, now: nat,
                                         timeWeight: bool, scale: nat)
    requires AllWrittenBy(accounts, now) && AllSound(accounts) && (timeWeight ==> 0 < scale)
    requires DelegateRanking.Unique(order)
    requires forall a :: votes(a) == CurrentVotes(HistoryOf(accounts, a), now, timeWeight, scale)
    ensures Gini.Total(Active(order, votes)) + SumOver(Without(accounts, order), VotesOfAt(now, timeWeight, scale))
         == SumOver(accounts, VotesOfAt(now, timeWeight, scale))
  {
    if order == [] {
      assert Without(accounts, order) == accounts;
    } else {
      hide Active, Without, CurrentVotes, VotesOf, At;
      var n: int := |order| - 1;
      ListedAndRest(accounts, order[..n], votes, now, timeWeight, scale);
      CurrentIsAnswer(accounts, order[n], now, timeWeight, scale);
      ActiveTotal(order, votes);
      OneListed(accounts, order, now, timeWeight, scale);
    }
  }

  lemma ActiveTotal(order: seq<Address>, votes: Address -> int)
    requires order != [] && 0 <= votes(order[|order| - 1])
    ensures Gini.Total(Active(order, votes))
         == Gini.Total(Active(order[..|order| - 1], votes)) + votes(order[|order| - 1])
  {
    hide Gini.SumMap;
    var n: int := |order| - 1;
    if 0 < votes(order[n]) {
      Gini.SumMapSnoc(Gini.Identity(), Active(order[..n], votes), votes(order[n]));
    } else {
      assert Active(order[..n], votes) + [] == Active(order[..n], votes);
    }
  }

  lemma OneListed(accounts: Accounts, order: seq<Address>, now: nat, timeWeight: bool, scale: nat)
    requires AllWrittenBy(accounts, now) && AllSound(accounts) && (timeWeight ==> 0 < scale)
    requires DelegateRanking.Unique(order) && order != []
    ensures var n: int := |order| - 1;
            SumOver(Without(accounts, order), VotesOfAt(now, timeWeight, scale))
            == SumOver(Without(accounts, order[..n]), VotesOfAt(now, timeWeight, scale))
               - CurrentVotes(HistoryOf(accounts, order[n]), now, timeWeight, scale)
  {
    hide VotesOf, At, CurrentVotes;
    var n: int := |order| - 1;
    var front, x := order[..n], order[n];
    forall i | 0 <= i < n ensures front[i] != x {
      assert order[i] != order[n];
    }
    assert order == front + [x];
    assert Without(accounts, order) == Without(accounts, front) - {x};
    SumOverDelete(Without(accounts, front), x, VotesOfAt(now, timeWeight, scale));
    CurrentIsAnswer(accounts, x, now, timeWeight, scale);
    NothingOnRecord(now, timeWeight, scale);
  }

  lemma NothingOnRecord(now: nat, timeWeight: bool, scale: nat)
    requires timeWeight ==> 0 < scale
    ensures CurrentVotes([], now, timeWeight, scale) == 0
  {
  }

  /** Sound accounts have no negative votes; together none exactly if each holds none. */
  lemma {:induction false} MissingVotes(accounts: Accounts, now: nat, timeWeight: bool, scale: nat)
    requires AllWrittenBy(accounts, now) && AllSound(accounts) && (timeWeight ==> 0 < scale)
    ensures var sum := SumOver(accounts, VotesOfAt(now, timeWeight, scale));
            0 <= sum && (sum == 0 <==> forall a :: a in accounts ==> Power(accounts, a) <= 0)
    decreases |accounts|
  {
    hide VotesOf, At, CurrentVotes, WrittenBy, Sound;
    if accounts != map[] {
      var k :| k in accounts;
      var rest := accounts - {k};
      SumOverRemove(accounts, k, VotesOfAt(now, timeWeight, scale));
      CurrentIsAnswer(accounts, k, now, timeWeight, scale);
      assert forall a :: a in rest ==> rest[a] == accounts[a] && Power(rest, a) == Power(accounts, a);
      MissingVotes(rest, now, timeWeight, scale);
    }
  }
}
