/** Ranking delegates by voting power: grouping the delegation map, querying powers in batches,
    sorting, and cutting pages. */
module DelegateRanking {
  import opened Options

  type Address = string

  datatype Delegate = Delegate(address: Address, votingPower: int, baseVotes: int, delegatorCount: nat)

  const POWER_BATCH_SIZE: nat := 20

  // ---------------------------------------------------------------- grouping

  /** The delegation map as the list of its entries: delegators are pairwise different. */
  ghost predicate IsMap(entries: seq<(Address, Address)>) {
    forall i, j :: 0 <= i < j < |entries| ==> entries[i].0 != entries[j].0
  }

  ghost predicate Unique(order: seq<Address>) {
    forall i, j :: 0 <= i < j < |order| ==> order[i] != order[j]
  }

  /** The sizes of the groups, in order. */
  function SizeSum(order: seq<Address>, groups: map<Address, set<Address>>): nat
    requires forall a :: a in order ==> a in groups
  {
    if order == [] then 0
    else SizeSum(order[..|order| - 1], groups) + |groups[order[|order| - 1]]|
  }

  lemma EmptySizeSum(groups: map<Address, set<Address>>)
    ensures SizeSum([], groups) == 0 && Unique([])
  {
  }

  lemma SizeSumSnoc(order: seq<Address>, groups: map<Address, set<Address>>, a: Address)
    requires a in groups && forall b :: b in order ==> b in groups
    ensures SizeSum(order + [a], groups) == SizeSum(order, groups) + |groups[a]|
  {
    assert (order + [a])[..|order|] == order;
  }

  lemma UniqueSnoc(order: seq<Address>, a: Address)
    requires Unique(order) && a !in order
    ensures Unique(order + [a])
  {
  }

  lemma {:induction false} SizeSumUpdate(order: seq<Address>, groups: map<Address, set<Address>>, a: Address, s: set<Address>)
    requires Unique(order) && forall b :: b in order ==> b in groups
    ensures a in order ==> SizeSum(order, groups[a := s]) == SizeSum(order, groups) - |groups[a]| + |s|
    ensures a !in order ==> SizeSum(order, groups[a := s]) == SizeSum(order, groups)
  {
    if order != [] {
      var front, last := order[..|order| - 1], order[|order| - 1];
      assert order == front + [last];
      SizeSumUpdate(front, groups, a, s);
      forall i | 0 <= i < |front| ensures front[i] != last {
        assert order[i] != order[|order| - 1];
      }
    }
  }

  /** Delegators by delegatee, with the delegatees in the order of their first appearance. The
      group of a delegatee holds exactly its delegators, and the sizes add up to the number of
      delegations. */
  method GroupByDelegate(entries: seq<(Address, Address)>) returns (order: seq<Address>, groups: map<Address, set<Address>>)
    requires IsMap(entries)
    ensures Unique(order) && (forall a :: a in order <==> a in groups)
    ensures forall a, d :: a in groups && d in groups[a] ==> (d, a) in entries
    ensures forall i :: 0 <= i < |entries| ==> entries[i].1 in groups && entries[i].0 in groups[entries[i].1]
    ensures forall a :: a in groups ==> groups[a] != {}
    ensures SizeSum(order, groups) == |entries|
  {
    hide IsMap, SizeSum, Unique;
    order, groups := [], map[];
    EmptySizeSum(groups);
    for n := 0 to |entries|
      invariant Unique(order) && (forall a :: a in order <==> a in groups)
      invariant forall a, d :: a in groups && d in groups[a] ==> (d, a) in entries[..n]
      invariant forall i :: 0 <= i < n ==> entries[i].1 in groups && entries[i].0 in groups[entries[i].1]
      invariant forall a :: a in groups ==> groups[a] != {}
      invariant SizeSum(order, groups) == n
    {
      var (delegator, delegatee) := entries[n];
      assert entries[..n + 1] == entries[..n] + [entries[n]];
      if delegatee !in groups {
        SizeSumUpdate(order, groups, delegatee, {});
        SizeSumSnoc(order, groups[delegatee := {}], delegatee);
        UniqueSnoc(order, delegatee);
        order, groups := order + [delegatee], groups[delegatee := {}];
      }
      NewDelegator(entries, n, groups[delegatee], delegatee);
      SizeSumUpdate(order, groups, delegatee, groups[delegatee] + {delegator});
      groups := groups[delegatee := groups[delegatee] + {delegator}];
    }
    assert entries[..|entries|] == entries;
  }

  lemma NewDelegator(entries: seq<(Address, Address)>, n: nat, group: set<Address>, a: Address)
    requires IsMap(entries) && n < |entries| && forall d :: d in group ==> (d, a) in entries[..n]
    ensures entries[n].0 !in group
  {
    forall d | d in group ensures d != entries[n].0 {
      var i :| 0 <= i < n && entries[..n][i] == (d, a);
      assert entries[i].0 != entries[n].0;
    }
  }

  // ---------------------------------------------------------------- querying

  /** The answer for one delegate. */
  function Query(a: Address, votes: Address -> int, base: Address -> int, groups: map<Address, set<Address>>): Delegate {
    Delegate(a, votes(a), base(a), if a in groups then |groups[a]| else 0)
  }

  function QueryAll(order: seq<Address>, votes: Address -> int, base: Address -> int,
                    groups: map<Address, set<Address>>): seq<Delegate>
  {
    seq(|order|, i requires 0 <= i < |order| => Query(order[i], votes, base, groups))
  }

  /** Querying in batches gives the same list as querying one by one. */
  method QueryInBatches(order: seq<Address>, votes: Address -> int, base: Address -> int,
                        groups: map<Address, set<Address>>) returns (powers: seq<Delegate>)
    ensures powers == QueryAll(order, votes, base, groups)
  {
    powers := [];
    var i := 0;
    while i < |order|
      invariant 0 <= i
      invariant powers == QueryAll(order[..if i < |order| then i else |order|], votes, base, groups)
    {
      var stop := if i + POWER_BATCH_SIZE < |order| then i + POWER_BATCH_SIZE else |order|;
      var batch := order[i..stop];
      powers := powers + QueryAll(batch, votes, base, groups);
      assert order[..stop] == order[..i] + batch;
      i := i + POWER_BATCH_SIZE;
    }
    assert order[..|order|] == order;
  }

  // ---------------------------------------------------------------- ranking

  function Positive(powers: seq<Delegate>): seq<Delegate> {
    if powers == [] then []
    else Positive(powers[..|powers| - 1]) + if powers[|powers| - 1].votingPower > 0 then [powers[|powers| - 1]] else []
  }

  ghost predicate Descending(s: seq<Delegate>) {
    forall i, j :: 0 <= i < j < |s| ==> s[i].votingPower >= s[j].votingPower
  }

  /** Insertion behind equal powers: the order of equals is kept. */
  function Insert(d: Delegate, s: seq<Delegate>): (r: seq<Delegate>)
    requires Descending(s)
    ensures Descending(r)
    ensures r != [] && (r[|r| - 1] == d || (s != [] && r[|r| - 1] == s[|s| - 1]))
  {
    if s == [] || s[|s| - 1].votingPower >= d.votingPower then s + [d]
    else
      Insert(d, s[..|s| - 1]) + [s[|s| - 1]]
  }

  lemma {:induction false} InsertElements(d: Delegate, s: seq<Delegate>)
    requires Descending(s)
    ensures multiset(Insert(d, s)) == multiset(s) + multiset{d}
  {
    if s != [] && s[|s| - 1].votingPower < d.votingPower {
      InsertElements(d, s[..|s| - 1]);
      assert s == s[..|s| - 1] + [s[|s| - 1]];
    }
  }

  /** Stands for the stable descending sort of the runtime library. */
  function SortDescending(s: seq<Delegate>): (r: seq<Delegate>)
    ensures Descending(r) && multiset(r) == multiset(s)
  {
    if s == [] then []
    else
      assert s == s[..|s| - 1] + [s[|s| - 1]];
      InsertElements(s[|s| - 1], SortDescending(s[..|s| - 1]));
      Insert(s[|s| - 1], SortDescending(s[..|s| - 1]))
  }

  function Ranking(powers: seq<Delegate>): seq<Delegate> { SortDescending(Positive(powers)) }

  lemma {:induction false} PositiveMembers(powers: seq<Delegate>, d: Delegate)
    ensures multiset(Positive(powers))[d] == if d.votingPower > 0 then multiset(powers)[d] else 0
  {
    if powers != [] {
      var front, last := powers[..|powers| - 1], powers[|powers| - 1];
      PositiveMembers(front, d);
      assert powers == front + [last];
      assert multiset(powers) == multiset(front) + multiset{last};
      if last.votingPower > 0 {
        assert multiset(Positive(powers)) == multiset(Positive(front)) + multiset{last};
      } else {
        assert Positive(powers) == Positive(front);
      }
    }
  }

  /** The ranking holds exactly the delegates with positive power, each as often as before,
      in descending order of power. */
  lemma RankingIsPermutation(powers: seq<Delegate>)
    ensures Descending(Ranking(powers))
    ensures forall d :: multiset(Ranking(powers))[d] == if d.votingPower > 0 then multiset(powers)[d] else 0
  {
    forall d ensures multiset(Ranking(powers))[d] == if d.votingPower > 0 then multiset(powers)[d] else 0 {
      PositiveMembers(powers, d);
    }
  }

  // ---------------------------------------------------------------- pages

  /** Limits are clamped to 1..100, 50 if not given. */
  function ClampedLimit(limit: Option<int>): (l: nat)
    ensures 1 <= l <= 100
    ensures limit.Some? ==> l == (if limit.value < 1 then 1 else if 100 < limit.value then 100 else limit.value)
    ensures limit.None? ==> l == 50
  {
    var given := if limit.Some? then limit.value else 50;
    if given < 1 then 1 else if given > 100 then 100 else given
  }

  function Slice(s: seq<Delegate>, offset: nat, limit: nat): seq<Delegate> {
    if |s| <= offset then [] else if |s| <= offset + limit then s[offset..] else s[offset..offset + limit]
  }

  /** The pages at offsets 0, L, 2L, ..., (n-1)L, one after the other. */
  function Pages(s: seq<Delegate>, limit: nat, n: nat): seq<Delegate> {
    if n == 0 then [] else Pages(s, limit, n - 1) + Slice(s, (n - 1) * limit, limit)
  }

  /** Paging through gives the ranking without gap or repetition; enough pages give all. */
  lemma {:induction false} PagesConcatenate(s: seq<Delegate>, limit: nat, n: nat)
    ensures n * limit <= |s| ==> Pages(s, limit, n) == s[..n * limit]
    ensures |s| <= n * limit ==> Pages(s, limit, n) == s
  {
    hide Slice;
    if n == 0 {
      assert n * limit == 0;
    } else {
      PagesConcatenate(s, limit, n - 1);
      assert n * limit == (n - 1) * limit + limit;
      NextPage(s, (n - 1) * limit, limit);
    }
  }

  /** What one page adds to what comes before it. */
  lemma NextPage(s: seq<Delegate>, offset: nat, limit: nat)
    ensures |s| <= offset ==> Slice(s, offset, limit) == []
    ensures offset <= |s| ==>
              s[..offset] + Slice(s, offset, limit) == if offset + limit <= |s| then s[..offset + limit] else s
  {
  }

  // ---------------------------------------------------------------- what a page shows

  /** The number of delegators of an account. */
  function DelegatorCount(entries: seq<(Address, Address)>, a: Address): nat {
    if entries == [] then 0
    else DelegatorCount(entries[..|entries| - 1], a) + if entries[|entries| - 1].1 == a then 1 else 0
  }

  /** The delegators of an account. */
  ghost function DelegatorsOf(entries: seq<(Address, Address)>, a: Address): set<Address> {
    set i | 0 <= i < |entries| && entries[i].1 == a :: entries[i].0
  }

  lemma {:induction false} CountIsSize(entries: seq<(Address, Address)>, a: Address)
    requires IsMap(entries)
    ensures |DelegatorsOf(entries, a)| == DelegatorCount(entries, a)
  {
    if entries != [] {
      var n: int := |entries| - 1;
      var front := entries[..n];
      CountIsSize(front, a);
      forall d ensures d in DelegatorsOf(entries, a) <==> d in DelegatorsOf(front, a) || (entries[n] == (d, a)) {
        if i :| 0 <= i < |entries| && entries[i].1 == a && entries[i].0 == d {
          assert i < n ==> front[i] == entries[i];
        }
        if i :| 0 <= i < n && front[i].1 == a && front[i].0 == d {
          assert entries[i] == front[i];
        }
      }
      forall d | d in DelegatorsOf(front, a) ensures d != entries[n].0 {
        var i :| 0 <= i < n && front[i].1 == a && front[i].0 == d;
        assert entries[i].0 != entries[n].0;
      }
      assert DelegatorsOf(entries, a)
          == if entries[n].1 == a then DelegatorsOf(front, a) + {entries[n].0} else DelegatorsOf(front, a);
    }
  }

  /** The groups say who delegates to whom. */
  ghost predicate Grouped(entries: seq<(Address, Address)>, order: seq<Address>, groups: map<Address, set<Address>>) {
    && Unique(order) && (forall a :: a in order <==> a in groups)
    && (forall a, d :: a in groups && d in groups[a] ==> (d, a) in entries)
    && (forall i :: 0 <= i < |entries| ==> entries[i].1 in groups && entries[i].0 in groups[entries[i].1])
  }

  lemma GroupSize(entries: seq<(Address, Address)>, order: seq<Address>, groups: map<Address, set<Address>>, a: Address)
    requires IsMap(entries) && Grouped(entries, order, groups) && a in groups
    ensures |groups[a]| == DelegatorCount(entries, a)
  {
    CountIsSize(entries, a);
    forall d ensures d in groups[a] <==> d in DelegatorsOf(entries, a) {
      if d in groups[a] {
        var i :| 0 <= i < |entries| && entries[i] == (d, a);
      }
    }
    assert groups[a] == DelegatorsOf(entries, a);
  }

  /** The delegate is described truly. */
  ghost predicate IsTrue(d: Delegate, entries: seq<(Address, Address)>, votes: Address -> int, base: Address -> int) {
    && d.votingPower == votes(d.address) > 0 && d.baseVotes == base(d.address)
    && d.delegatorCount == DelegatorCount(entries, d.address)
  }

  lemma RankedAreTrue(entries: seq<(Address, Address)>, order: seq<Address>, groups: map<Address, set<Address>>,
                      votes: Address -> int, base: Address -> int)
    requires IsMap(entries) && Grouped(entries, order, groups)
    ensures var r := Ranking(QueryAll(order, votes, base, groups));
            forall i :: 0 <= i < |r| ==> IsTrue(r[i], entries, votes, base)
  {
    hide Ranking;
    var powers := QueryAll(order, votes, base, groups);
    var r := Ranking(powers);
    RankingIsPermutation(powers);
    forall i | 0 <= i < |r| ensures IsTrue(r[i], entries, votes, base) {
      assert r[i] in multiset(r);
      assert r[i] in multiset(powers);
      var k :| 0 <= k < |powers| && powers[k] == r[i];
      GroupSize(entries, order, groups, order[k]);
    }
  }

  /** Every delegatee with power is ranked, and nobody is ranked twice. */
  lemma RankedOnce(order: seq<Address>, groups: map<Address, set<Address>>, votes: Address -> int, base: Address -> int)
    requires Unique(order)
    ensures var r := Ranking(QueryAll(order, votes, base, groups));
            && (forall i, j :: 0 <= i < j < |r| ==> r[i].address != r[j].address)
            && (forall a :: a in order && votes(a) > 0 ==> Query(a, votes, base, groups) in r)
  {
    hide Ranking;
    var powers := QueryAll(order, votes, base, groups);
    var r := Ranking(powers);
    RankingIsPermutation(powers);
    forall i, j | 0 <= i < j < |r| ensures r[i].address != r[j].address {
      assert r[i] in multiset(r) && r[j] in multiset(r);
      assert r[i] in multiset(powers) && r[j] in multiset(powers);
      OnceInPowers(order, groups, votes, base, r[i]);
      TwiceInSeq(r, i, j);
    }
    forall a | a in order && votes(a) > 0 ensures Query(a, votes, base, groups) in r {
      var k :| 0 <= k < |order| && order[k] == a;
      assert powers[k] in multiset(powers);
      assert powers[k] in multiset(r);
    }
  }

  lemma {:induction false} OnceInPowers(order: seq<Address>, groups: map<Address, set<Address>>,
                                        votes: Address -> int, base: Address -> int, d: Delegate)
    requires Unique(order)
    ensures multiset(QueryAll(order, votes, base, groups))[d] <= 1
    ensures d in QueryAll(order, votes, base, groups) ==> d.address in order && d == Query(d.address, votes, base, groups)
  {
    if order != [] {
      var n: int := |order| - 1;
      var front := order[..n];
      OnceInPowers(front, groups, votes, base, d);
      var powers, before := QueryAll(order, votes, base, groups), QueryAll(front, votes, base, groups);
      assert powers == before + [powers[n]];
      assert multiset(powers) == multiset(before) + multiset{powers[n]};
      forall i | 0 <= i < n ensures front[i] != order[n] {
        assert order[i] != order[n];
      }
    }
  }

  lemma TwiceInSeq(s: seq<Delegate>, i: nat, j: nat)
    requires i < j < |s|
    ensures s[i] == s[j] ==> 2 <= multiset(s)[s[i]]
  {
    assert s == s[..i] + [s[i]] + s[i + 1..j] + [s[j]] + s[j + 1..];
    assert multiset(s) == multiset(s[..i]) + multiset{s[i]} + multiset(s[i + 1..j]) + multiset{s[j]} + multiset(s[j + 1..]);
  }

  /** Nobody outside the first page outranks anybody on it. */
  lemma FirstPageIsTop(ranking: seq<Delegate>, limit: nat, d: Delegate)
    requires Descending(ranking) && d in ranking
    ensures var page := Slice(ranking, 0, limit);
            d in page || (|page| == limit && forall e :: e in page ==> d.votingPower <= e.votingPower)
  {
    var page := Slice(ranking, 0, limit);
    var k :| 0 <= k < |ranking| && ranking[k] == d;
    assert k < |page| ==> page[k] == d;
    forall e | e in page && |page| <= k ensures d.votingPower <= e.votingPower {
      var i :| 0 <= i < |page| && page[i] == e;
      assert ranking[i] == e;
    }
  }

  lemma SliceAt(s: seq<Delegate>, offset: nat, limit: nat)
    ensures |Slice(s, offset, limit)| <= limit
    ensures forall i :: 0 <= i < |Slice(s, offset, limit)| ==> offset + i < |s| && Slice(s, offset, limit)[i] == s[offset + i]
  {
  }

  /** The page of delegates a call returns, from the delegation map and the current powers:
      delegates with power, truly described, by descending power and nobody twice; and on the
      first page the most powerful of all. The page is a slice of the whole ranking. */
  method TopDelegates(entries: seq<(Address, Address)>, votes: Address -> int, base: Address -> int,
                      limit: Option<int>, offset: int)
    returns (page: seq<Delegate>, ghost order: seq<Address>, ghost groups: map<Address, set<Address>>)
    requires IsMap(entries)
    ensures Grouped(entries, order, groups)
    ensures page == Slice(Ranking(QueryAll(order, votes, base, groups)), if offset < 0 then 0 else offset, ClampedLimit(limit))
    ensures |page| <= ClampedLimit(limit) && Descending(page)
    ensures forall i :: 0 <= i < |page| ==> IsTrue(page[i], entries, votes, base)
    ensures forall i, j :: 0 <= i < j < |page| ==> page[i].address != page[j].address
    ensures offset <= 0 ==> forall i :: 0 <= i < |entries| && votes(entries[i].1) > 0 ==>
              || (exists d :: d in page && d.address == entries[i].1)
              || (|page| == ClampedLimit(limit) && forall e :: e in page ==> votes(entries[i].1) <= e.votingPower)
  {
    hide Grouped, Slice, Ranking, Query, QueryAll, IsTrue, IsMap, SortDescending, Positive, SizeSum;
    if |entries| == 0 {
      NothingRanked(entries, votes, base, if offset < 0 then 0 else offset, ClampedLimit(limit));
      return [], [], map[];
    }
    var delegatees, byDelegate := GroupByDelegate(entries);
    order, groups := delegatees, byDelegate;
    GroupsAre(entries, order, groups);
    var powers := QueryInBatches(delegatees, votes, base, byDelegate);
    var first := if offset < 0 then 0 else offset;
    page := Slice(Ranking(powers), first, ClampedLimit(limit));
    PageIsGood(entries, order, groups, votes, base, first, ClampedLimit(limit));
  }

  lemma NothingRanked(entries: seq<(Address, Address)>, votes: Address -> int, base: Address -> int, first: nat, limit: nat)
    requires entries == []
    ensures Grouped(entries, [], map[]) && Slice(Ranking(QueryAll([], votes, base, map[])), first, limit) == []
  {
  }

  lemma GroupsAre(entries: seq<(Address, Address)>, order: seq<Address>, groups: map<Address, set<Address>>)
    requires Unique(order) && (forall a :: a in order <==> a in groups)
    requires forall a, d :: a in groups && d in groups[a] ==> (d, a) in entries
    requires forall i :: 0 <= i < |entries| ==> entries[i].1 in groups && entries[i].0 in groups[entries[i].1]
    ensures Grouped(entries, order, groups)
  {
  }

  lemma PageIsGood(entries: seq<(Address, Address)>, order: seq<Address>, groups: map<Address, set<Address>>,
                   votes: Address -> int, base: Address -> int, first: nat, limit: nat)
    requires IsMap(entries) && Grouped(entries, order, groups)
    ensures var page := Slice(Ranking(QueryAll(order, votes, base, groups)), first, limit);
            && |page| <= limit && Descending(page)
            && (forall i :: 0 <= i < |page| ==> IsTrue(page[i], entries, votes, base))
            && (forall i, j :: 0 <= i < j < |page| ==> page[i].address != page[j].address)
            && (first == 0 ==> forall i :: 0 <= i < |entries| && votes(entries[i].1) > 0 ==>
                  || (exists d :: d in page && d.address == entries[i].1)
                  || (|page| == limit && forall e :: e in page ==> votes(entries[i].1) <= e.votingPower))
  {
    hide Ranking, QueryAll, IsTrue, Slice, IsMap, DelegatorCount;
    var powers := QueryAll(order, votes, base, groups);
    var ranking := Ranking(powers);
    var page := Slice(ranking, first, limit);
    RankingIsPermutation(powers);
    RankedAreTrue(entries, order, groups, votes, base);
    RankedOnce(order, groups, votes, base);
    SliceAt(ranking, first, limit);
    forall i | 0 <= i < |entries| && votes(entries[i].1) > 0 && first == 0
      ensures || (exists d :: d in page && d.address == entries[i].1)
              || (|page| == limit && forall e :: e in page ==> votes(entries[i].1) <= e.votingPower)
    {
      var d := Query(entries[i].1, votes, base, groups);
      assert entries[i].1 in order;
      FirstPageIsTop(ranking, limit, d);
    }
  }
}
