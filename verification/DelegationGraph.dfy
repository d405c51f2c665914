/** The delegation graph: who delegates to whom, the resolution of delegation chains, and the
    check that is made before a new edge is written. */
module DelegationGraph {
  import opened Options

  type Address = string
  type Edges = map<Address, Address>

  const MAX_CHAIN_WALK: nat := 64

  /** No delegation, or to oneself. */
  predicate Terminal(g: Edges, a: Address) {
    a !in g || g[a] == a
  }

  /** The address n delegations away, or the end of the chain if that is nearer. */
  function Hop(g: Edges, a: Address, n: nat): Address {
    if n == 0 then a
    else
      var b := Hop(g, a, n - 1);
      if Terminal(g, b) then b else g[b]
  }

  /** Every chain of delegations from a comes to an end. */
  ghost predicate Ends(g: Edges, a: Address) {
    exists n: nat :: Terminal(g, Hop(g, a, n))
  }

  /** No delegation cycle: every chain ends. */
  ghost predicate Acyclic(g: Edges) {
    forall a :: Ends(g, a)
  }

  /** No chain has more than limit hops. */
  ghost predicate DepthWithin(g: Edges, limit: nat) {
    forall a :: Terminal(g, Hop(g, a, limit))
  }

  lemma {:induction false} HopAdd(g: Edges, a: Address, m: nat, n: nat)
    ensures Hop(g, a, m + n) == Hop(g, Hop(g, a, m), n)
  {
    if 0 < n {
      HopAdd(g, a, m, n - 1);
    }
  }

  /** At the end of a chain, hops stay there. */
  lemma {:induction false} HopStays(g: Edges, a: Address, m: nat, n: nat)
    requires m <= n && Terminal(g, Hop(g, a, m))
    ensures Hop(g, a, n) == Hop(g, a, m)
  {
    if m < n {
      HopStays(g, a, m, n - 1);
    }
  }

  // ---------------------------------------------------------------- chain resolution

  /** c lists the whole chain of its first address. */
  ghost predicate IsChain(g: Edges, c: seq<Address>) {
    && c != [] && Terminal(g, c[|c| - 1])
    && forall i :: 0 <= i < |c| - 1 ==> !Terminal(g, c[i]) && g[c[i]] == c[i + 1]
  }

  lemma {:induction false} ChainHops(g: Edges, c: seq<Address>, i: nat)
    requires IsChain(g, c) && i < |c|
    ensures Hop(g, c[0], i) == c[i]
  {
    if 0 < i {
      ChainHops(g, c, i - 1);
    }
  }

  /** Following the delegations from start: the whole chain, or none if it has more than
      MAX_CHAIN_WALK hops (the call then fails). */
  method ResolveChain(g: Edges, start: Address) returns (chain: Option<seq<Address>>)
    ensures chain.Some? ==> IsChain(g, chain.value) && chain.value[0] == start && |chain.value| <= 65
    ensures chain.None? <==> !Terminal(g, Hop(g, start, 64))
  {
    var c := [start];
    var current := start;
    var hops := 0;
    while !Terminal(g, current)
      invariant c != [] && c[0] == start && c[|c| - 1] == current && |c| == hops + 1
      invariant hops <= MAX_CHAIN_WALK && current == Hop(g, start, hops)
      invariant forall i :: 0 <= i < |c| - 1 ==> !Terminal(g, c[i]) && g[c[i]] == c[i + 1]
      decreases MAX_CHAIN_WALK - hops
    {
      if hops >= MAX_CHAIN_WALK { return None; }
      current := g[current];
      c := c + [current];
      hops := hops + 1;
    }
    HopStays(g, start, hops, MAX_CHAIN_WALK);
    chain := Some(c);
  }

  /** The chain of the delegatee ends within the limit and does not contain the delegator. */
  ghost predicate Allowed(g: Edges, delegator: Address, delegatee: Address, limit: nat) {
    exists c :: IsChain(g, c) && c[0] == delegatee && delegator !in c && |c| <= limit
  }

  /** An address has at most one chain. */
  lemma ChainIsUnique(g: Edges, c: seq<Address>, e: seq<Address>)
    requires IsChain(g, c) && IsChain(g, e) && c[0] == e[0]
    ensures c == e
  {
    var n := if |c| <= |e| then |c| else |e|;
    forall i | 0 <= i < n ensures c[i] == e[i] {
      ChainHops(g, c, i);
      ChainHops(g, e, i);
    }
    assert c[n - 1] == e[n - 1];
  }

  /** The chain of an address whose walk ends. */
  lemma ChainOf(g: Edges, a: Address) returns (c: seq<Address>)
    requires Ends(g, a)
    ensures IsChain(g, c) && c[0] == a
  {
    var n: nat :| Terminal(g, Hop(g, a, n));
    c := [a];
    var i := 0;
    while !Terminal(g, c[i])
      invariant |c| == i + 1 && c[0] == a && c[i] == Hop(g, a, i) && i <= n
      invariant forall j :: 0 <= j < i ==> !Terminal(g, c[j]) && g[c[j]] == c[j + 1]
      decreases n - i
    {
      c := c + [g[c[i]]];
      i := i + 1;
    }
  }

  /** The check before an edge is written succeeds exactly if the edge is allowed. */
  method ValidateDelegation(g: Edges, delegator: Address, delegatee: Address, limit: nat)
    returns (ok: bool, ghost chain: seq<Address>)
    requires 1 <= limit <= MAX_CHAIN_WALK
    ensures ok <==> Allowed(g, delegator, delegatee, limit)
    ensures ok ==> IsChain(g, chain) && chain[0] == delegatee && delegator !in chain && |chain| <= limit
  {
    chain := [];
    var resolved := ResolveChain(g, delegatee);
    if resolved.None? {
      forall c | IsChain(g, c) && c[0] == delegatee ensures limit < |c| {
        LongChain(g, c);
      }
      return false, [];
    }
    chain := resolved.value;
    forall c | IsChain(g, c) && c[0] == delegatee ensures c == chain {
      ChainIsUnique(g, c, chain);
    }
    if delegator in resolved.value { return false, chain; }
    ok := |resolved.value| <= limit;
  }

  /** A walk that is not over after MAX_CHAIN_WALK hops has a longer chain. */
  lemma LongChain(g: Edges, c: seq<Address>)
    requires IsChain(g, c) && !Terminal(g, Hop(g, c[0], MAX_CHAIN_WALK))
    ensures MAX_CHAIN_WALK < |c|
  {
    if |c| <= MAX_CHAIN_WALK {
      ChainHops(g, c, |c| - 1);
      HopStays(g, c[0], |c| - 1, MAX_CHAIN_WALK);
    }
  }

  // ---------------------------------------------------------------- cycles

  /** The graphs differ at most in what d does. */
  ghost predicate AgreeExcept(g: Edges, h: Edges, d: Address) {
    forall a :: a != d ==> (a in g <==> a in h) && (a in g ==> g[a] == h[a])
  }

  /** Walks agree until they reach d. */
  lemma {:induction false} WalkAgrees(g: Edges, h: Edges, d: Address, a: Address, n: nat)
    requires AgreeExcept(g, h, d)
    requires forall i: nat :: i < n ==> Hop(g, a, i) != d
    ensures Hop(h, a, n) == Hop(g, a, n)
  {
    if 0 < n {
      WalkAgrees(g, h, d, a, n - 1);
      assert Hop(g, a, n - 1) != d;
    }
  }

  /** The first time a walk of at most n hops is at d, if ever. */
  lemma {:induction false} FirstVisit(g: Edges, a: Address, d: Address, n: nat) returns (i: nat)
    ensures i <= n && (forall j: nat :: j < i ==> Hop(g, a, j) != d)
    ensures Hop(g, a, i) == d || i == n
  {
    i := 0;
    while i < n && Hop(g, a, i) != d
      invariant i <= n && forall j: nat :: j < i ==> Hop(g, a, j) != d
    {
      i := i + 1;
    }
  }

  /** Changing what d does keeps the graph acyclic if d's own chain still ends. */
  lemma ChangeKeepsAcyclic(g: Edges, h: Edges, d: Address)
    requires AgreeExcept(g, h, d) && Acyclic(g) && Ends(h, d)
    ensures Acyclic(h)
  {
    forall a ensures Ends(h, a) {
      assert Ends(g, a);
      var n: nat :| Terminal(g, Hop(g, a, n));
      var i := FirstVisit(g, a, d, n);
      WalkAgrees(g, h, d, a, i);
      if Hop(g, a, i) == d {
        var m: nat :| Terminal(h, Hop(h, d, m));
        HopAdd(h, a, i, m);
      } else {
        assert Terminal(h, Hop(h, a, n));
      }
    }
  }

  /** Revoking, or returning to self-delegation, keeps the graph acyclic. */
  lemma RevokeKeepsAcyclic(g: Edges, d: Address)
    requires Acyclic(g)
    ensures Acyclic(g - {d}) && Acyclic(g[d := d])
  {
    assert Terminal(g - {d}, Hop(g - {d}, d, 0));
    assert Terminal(g[d := d], Hop(g[d := d], d, 0));
    ChangeKeepsAcyclic(g, g - {d}, d);
    ChangeKeepsAcyclic(g, g[d := d], d);
  }

  /** In the new graph, d's walk goes to e and then down e's old chain, as long as that chain
      does not contain d. */
  lemma {:induction false} NewWalk(g: Edges, d: Address, c: seq<Address>, i: nat)
    requires IsChain(g, c) && c[0] != d && i < |c|
    requires forall j :: 0 <= j < i ==> c[j] != d
    ensures Hop(g[d := c[0]], d, i + 1) == c[i]
  {
    var h := g[d := c[0]];
    if i == 0 {
      assert Hop(h, d, 0) == d && !Terminal(h, d);
      assert Hop(h, d, 1) == h[Hop(h, d, 0)];
    } else {
      NewWalk(g, d, c, i - 1);
      assert c[i - 1] != d;
    }
  }

  /** A new edge keeps an acyclic graph acyclic if and only if the delegator is not on the
      delegatee's chain. */
  lemma EdgeKeepsAcyclicIff(g: Edges, d: Address, c: seq<Address>)
    requires Acyclic(g) && IsChain(g, c) && c[0] != d
    ensures Acyclic(g[d := c[0]]) <==> d !in c
  {
    var h := g[d := c[0]];
    if d !in c {
      NewWalk(g, d, c, |c| - 1);
      assert Terminal(h, Hop(h, d, |c|));
      ChangeKeepsAcyclic(g, h, d);
    } else {
      var k := 0;
      while c[k] != d
        invariant 0 <= k < |c| && forall j :: 0 <= j < k ==> c[j] != d
        invariant d in c[k..]
        decreases |c| - k
      {
        assert c[k..] == [c[k]] + c[k + 1..];
        k := k + 1;
      }
      NewWalk(g, d, c, k);
      if Ends(h, d) {
        var n: nat :| Terminal(h, Hop(h, d, n));
        Laps(h, d, k + 1, n);
        assert n <= (k + 1) * n;
        HopStays(h, d, n, (k + 1) * n);
        assert false;
      }
    }
  }

  /** A walk that returns to its start keeps returning. */
  lemma {:induction false} Laps(g: Edges, d: Address, lap: nat, n: nat)
    requires Hop(g, d, lap) == d
    ensures Hop(g, d, lap * n) == d
  {
    if n == 0 {
      assert lap * n == 0;
    } else {
      Laps(g, d, lap, n - 1);
      HopAdd(g, d, lap * (n - 1), lap);
      assert lap * (n - 1) + lap == lap * n;
    }
  }

  /** A validated delegation keeps the graph acyclic, and the chain it creates for the
      delegator has at most limit hops. */
  lemma ValidatedEdge(g: Edges, d: Address, c: seq<Address>, limit: nat)
    requires Acyclic(g) && IsChain(g, c) && d !in c && |c| <= limit
    ensures Acyclic(g[d := c[0]])
    ensures Terminal(g[d := c[0]], Hop(g[d := c[0]], d, limit))
  {
    var h := g[d := c[0]];
    assert c[0] in c;
    EdgeKeepsAcyclicIff(g, d, c);
    NewWalk(g, d, c, |c| - 1);
    assert c[|c| - 1] in c;
    HopStays(h, d, |c|, limit);
  }

  // ---------------------------------------------------------------- depth

  /** The walk from a comes to d for the first time after i hops. */
  ghost predicate ComesTo(g: Edges, a: Address, d: Address, i: nat) {
    Hop(g, a, i) == d && forall j: nat :: j < i ==> Hop(g, a, j) != d
  }

  /** Every walk that comes to d does so early enough for n more hops within the limit. */
  ghost predicate LeavesRoom(g: Edges, d: Address, n: nat, limit: nat) {
    forall a, i: nat :: ComesTo(g, a, d, i) ==> i + n <= limit
  }

  /** The depth of the delegator's own chain is checked, but not that of the chains that lead
      to the delegator. All chains stay within the limit if and only if every walk that comes
      to the delegator leaves room for the delegator's new chain. */
  lemma DepthKeptIff(g: Edges, d: Address, c: seq<Address>, limit: nat)
    requires DepthWithin(g, limit) && IsChain(g, c) && d !in c
    ensures DepthWithin(g[d := c[0]], limit) <==> LeavesRoom(g, d, |c|, limit)
  {
    assert c[0] in c;
    var h := g[d := c[0]];
    if LeavesRoom(g, d, |c|, limit) {
      forall a ensures Terminal(h, Hop(h, a, limit)) {
        RoomSuffices(g, d, c, limit, a);
      }
    }
    if DepthWithin(h, limit) {
      forall a, i: nat | ComesTo(g, a, d, i) ensures i + |c| <= limit {
        RoomNeeded(g, d, c, limit, a, i);
      }
    }
  }

  lemma RoomSuffices(g: Edges, d: Address, c: seq<Address>, limit: nat, a: Address)
    requires DepthWithin(g, limit) && IsChain(g, c) && d !in c && c[0] != d
    requires LeavesRoom(g, d, |c|, limit)
    ensures Terminal(g[d := c[0]], Hop(g[d := c[0]], a, limit))
  {
    var h := g[d := c[0]];
    var i := FirstVisit(g, a, d, limit);
    WalkAgrees(g, h, d, a, i);
    if Hop(g, a, i) == d {
      assert ComesTo(g, a, d, i);
      NewWalk(g, d, c, |c| - 1);
      HopAdd(h, a, i, |c|);
      assert c[|c| - 1] in c;
      HopStays(h, a, i + |c|, limit);
    } else {
      assert Terminal(g, Hop(g, a, limit));
    }
  }

  lemma RoomNeeded(g: Edges, d: Address, c: seq<Address>, limit: nat, a: Address, i: nat)
    requires IsChain(g, c) && d !in c && c[0] != d
    requires DepthWithin(g[d := c[0]], limit) && ComesTo(g, a, d, i)
    ensures i + |c| <= limit
  {
    var h := g[d := c[0]];
    WalkAgrees(g, h, d, a, i);
    var last := i + (|c| - 1);
    HopAdd(h, a, i, |c| - 1);
    if |c| > 1 {
      NewWalk(g, d, c, |c| - 2);
      assert c[|c| - 2] in c;
    }
    assert !Terminal(h, Hop(h, a, last));
    if limit <= last {
      assert Terminal(h, Hop(h, a, limit));
      HopStays(h, a, limit, last);
    }
  }

  /** So the limit can be exceeded by delegations that all pass the check: with limit 1, first
      alice to bob, then bob to carol. */
  lemma DepthCanExceedLimit()
    ensures var g := map["alice" := "bob"];
            && IsChain(g, ["carol"]) && "bob" !in ["carol"] && |["carol"]| <= 1
            && DepthWithin(g, 1) && !DepthWithin(g["bob" := "carol"], 1)
  {
    var g := map["alice" := "bob"];
    forall a ensures Terminal(g, Hop(g, a, 1)) {
      assert Hop(g, a, 1) == if Terminal(g, Hop(g, a, 0)) then a else g[a];
    }
    assert Hop(g, "alice", 0) == "alice";
    assert Hop(g, "alice", 1) == "bob";
    assert ComesTo(g, "alice", "bob", 1);
    DepthKeptIff(g, "bob", ["carol"], 1);
  }

  /** A split that gives everything to one delegatee is stored as a plain delegation, but
      without the check; after alice has delegated to bob, bob can give everything to alice
      and close a cycle. (EdgeKeepsAcyclicIff says exactly when that happens.) */
  lemma UncheckedEdgeCanCloseCycle()
    ensures var g := map["alice" := "bob"];
            Acyclic(g) && !Allowed(g, "bob", "alice", 64) && !Acyclic(g["bob" := "alice"])
  {
    var g := map["alice" := "bob"];
    forall a ensures Ends(g, a) {
      assert Hop(g, a, 1) == if Terminal(g, Hop(g, a, 0)) then a else g[a];
      assert Terminal(g, Hop(g, a, 1));
    }
    var c := ["alice", "bob"];
    assert IsChain(g, c);
    EdgeKeepsAcyclicIff(g, "bob", c);
    forall e | IsChain(g, e) && e[0] == "alice" ensures "bob" in e {
      ChainIsUnique(g, e, c);
    }
  }
}
