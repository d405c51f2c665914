/** Random governance scenarios for load tests, from a 32-bit generator. */
module Scenario {
  import opened Options

  const WORD: nat := 0x1_0000_0000
  const VOTING_DELAY: nat := 1
  const VOTING_PERIOD: nat := 10

  /** Actors are numbered; the number stands for the name actor_<number>. */
  datatype Actor = Actor(initialBalance: nat, isProposer: bool)

  datatype Step =
    | Propose(actor: nat, proposal: nat)
    | AdvanceLedger(ledgers: nat)
    | Vote(actor: nat, proposal: nat, support: nat)
    | Snapshot

  // ---------------------------------------------------------------- the generator's numbers

  type word = n: nat | n < 0x1_0000_0000

  const INCREMENT: nat := 0x6d2b79f5

  /** The generator's word moves by a constant, modulo 2^32. */
  function NextWord(a: word): word { (a + INCREMENT) % WORD }

  function WordAfter(a: word, n: nat): word {
    if n == 0 then a else NextWord(WordAfter(a, n - 1))
  }

  /** The number drawn from a word, in steps of 2^-32: mulberry32, modulo 2^32 throughout. */
  function Drawn(a: word): (n: nat)
    ensures n < WORD
  {
    var b := a as bv32;
    var t := (b ^ (b >> 15)) * (1 | b);
    var u := (t + (t ^ (t >> 7)) * (61 | t)) ^ t;
    (u ^ (u >> 14)) as nat
  }

  /** The stream of numbers that a seed gives. */
  function Draws(seed: word): (draws: nat -> nat)
    ensures IsStream(draws)
  {
    k => Drawn(WordAfter(seed, k + 1))
  }

  ghost predicate IsStream(draws: nat -> nat) {
    forall k: nat :: draws(k) < WORD
  }

  /** The first numbers for seed 0. */
  lemma FirstNumbers()
    ensures Draws(0)(0) == 1_144_304_738 && Draws(0)(1) == 1_416_247
  {
    hide Drawn;
    Words(0);
    DrawnFrom0();
  }

  lemma Words(a: word)
    ensures Draws(a)(0) == Drawn((a + 0x6d2b79f5) % 0x1_0000_0000)
    ensures Draws(a)(1) == Drawn((a + 2 * 0x6d2b79f5) % 0x1_0000_0000)
  {
    hide Drawn;
    assert WordAfter(a, 0) == a;
    WordAfterIs(a, 1);
    WordAfterIs(a, 2);
  }

  lemma DrawnFrom0()
    ensures Drawn(0x6d2b79f5) == 1_144_304_738 && Drawn(0xda56f3ea) == 1_416_247
  {
  }

  lemma {:induction false} WordAfterIs(a: word, n: nat)
    ensures WordAfter(a, n) == (a + n * INCREMENT) % WORD
  {
    if 0 < n {
      WordAfterIs(a, n - 1);
      var x: int := a + (n - 1) * INCREMENT;
      assert x == WORD * (x / WORD) + x % WORD;
      assert a + n * INCREMENT == x + INCREMENT;
      AddModulo(x, INCREMENT);
    }
  }

  lemma AddModulo(x: nat, y: nat)
    ensures (x % WORD + y) % WORD == (x + y) % WORD
  {
  }

  /** The generator has full period: after two different numbers of draws it is at the same word
      if and only if these differ by a multiple of 2^32. */
  lemma FullPeriod(a: word, m: nat, n: nat)
    ensures WordAfter(a, m) == WordAfter(a, n) <==> m % WORD == n % WORD
  {
    WordAfterIs(a, m);
    WordAfterIs(a, n);
    SameResidueIff(a + m * INCREMENT, a + n * INCREMENT);
    SameResidueIff(m, n);
    if Divides(m - n) {
      var q :| m - n == q * WORD;
      assert m * INCREMENT - n * INCREMENT == (q * INCREMENT) * WORD;
      assert Divides(m * INCREMENT - n * INCREMENT);
    }
    if Divides(m * INCREMENT - n * INCREMENT) {
      var q :| m * INCREMENT - n * INCREMENT == q * WORD;
      OddIncrement(m - n, q);
    }
  }

  ghost predicate Divides(x: int) { exists q: int :: x == q * WORD }

  lemma SameResidueIff(x: nat, y: nat)
    ensures x % WORD == y % WORD <==> Divides(x - y)
  {
    assert x == WORD * (x / WORD) + x % WORD && y == WORD * (y / WORD) + y % WORD;
    if x % WORD == y % WORD {
      assert x - y == (x / WORD - y / WORD) * WORD;
    }
    if q :| x - y == q * WORD {
      assert x == (y / WORD + q) * WORD + y % WORD;
    }
  }

  /** The increment is odd, so it has an inverse modulo 2^32. */
  lemma OddIncrement(d: int, q: int)
    requires d * INCREMENT == q * WORD
    ensures Divides(d)
  {
    var inverse, k := 3_696_798_301, 1_576_479_847;
    assert INCREMENT * inverse == k * WORD + 1;
    assert (d * INCREMENT) * inverse == d * (k * WORD + 1);
    assert d == (q * inverse - d * k) * WORD;
  }

  class Generator {
    ghost const seed: word
    ghost var count: nat
    var a: word

    /** The word after some number of draws from the seed. */
    ghost predicate Valid()
      reads this
    {
      a == WordAfter(seed, count)
    }

    constructor (seed: word)
      ensures Valid() && this.seed == seed && count == 0
    {
      a, this.seed, count := seed, seed, 0;
    }

    /** Call number k returns number k of the seed's stream, whoever called before. The random
        number is next / 2^32. */
    method Next() returns (next: nat)
      requires Valid()
      modifies this
      ensures Valid() && count == old(count) + 1 && next == Draws(seed)(old(count))
    {
      hide Drawn;
      a := (a + INCREMENT) % WORD;
      count := count + 1;
      next := Drawn(a);
    }

    /** floor(random * n). */
    method Below(n: nat) returns (i: nat)
      requires Valid() && 0 < n
      modifies this
      ensures Valid() && count == old(count) + 1 && i == Scaled(Draws(seed), old(count), n) && i < n
    {
      hide Drawn;
      var r := Next();
      ScaledBelow(r, n);
      i := r * n / WORD;
    }
  }

  /** Number k of the stream, scaled to 0, ..., n - 1. */
  function Scaled(draws: nat -> nat, k: nat, n: nat): nat { draws(k) * n / WORD }

  lemma ScaledBelow(r: nat, n: nat)
    requires r < WORD && 0 < n
    ensures r * n / WORD < n
  {
    assert (WORD - r) * n > 0;
    var q := r * n / WORD;
    assert WORD * q <= r * n < WORD * n;
  }

  // ---------------------------------------------------------------- what a scenario looks like

  function MaxVotes(actorCount: nat): nat { if actorCount <= 2 then 1 else actorCount - 1 }

  /** Votes on one proposal: by different existing actors, at least one. */
  ghost predicate IsVotes(votes: seq<Step>, proposal: nat, actorCount: nat) {
    && 1 <= |votes| <= MaxVotes(actorCount)
    && (forall i :: 0 <= i < |votes| ==>
          votes[i].Vote? && votes[i].actor < actorCount && votes[i].proposal == proposal && votes[i].support < 3)
    && (forall i, j :: 0 <= i < j < |votes| ==> votes[i].actor != votes[j].actor)
  }

  /** The block of one proposal. */
  ghost predicate IsBlock(block: seq<Step>, proposal: nat, actorCount: nat) {
    && |block| >= 4
    && block[0].Propose? && block[0].actor < actorCount && block[0].proposal == proposal
    && block[1] == AdvanceLedger(2) && block[|block| - 1] == AdvanceLedger(10)
    && IsVotes(block[2..|block| - 1], proposal, actorCount)
  }

  function Concat(blocks: seq<seq<Step>>): seq<Step> {
    if blocks == [] then [] else Concat(blocks[..|blocks| - 1]) + blocks[|blocks| - 1]
  }

  /** One block per proposal, with ids 1, 2, ..., and a snapshot at the end. */
  ghost predicate IsScenario(steps: seq<Step>, blocks: seq<seq<Step>>, actorCount: nat, proposalCount: nat) {
    && |blocks| == proposalCount
    && (forall p :: 0 <= p < |blocks| ==> IsBlock(blocks[p], p + 1, actorCount))
    && steps == Concat(blocks) + [Snapshot]
  }

  // ---------------------------------------------------------------- votes by different actors

  /** Votes on the proposal, one by each of the actors in the set. */
  ghost predicate CastBy(votes: seq<Step>, voted: set<nat>, proposal: nat, actorCount: nat) {
    && (forall i :: 0 <= i < |votes| ==>
          votes[i].Vote? && votes[i].actor < actorCount && votes[i].proposal == proposal && votes[i].support < 3)
    && (forall i, j :: 0 <= i < j < |votes| ==> votes[i].actor != votes[j].actor)
    && (forall a :: a in voted <==> exists i :: 0 <= i < |votes| && votes[i].Vote? && votes[i].actor == a)
  }

  lemma NoVotes(proposal: nat, actorCount: nat)
    ensures CastBy([], {}, proposal, actorCount)
  {
  }

  lemma NobodyYet(votes: seq<Step>, voted: set<nat>, proposal: nat, actorCount: nat)
    requires CastBy(votes, voted, proposal, actorCount)
    ensures voted != {} ==> votes != []
  {
    if voted != {} {
      var a :| a in voted;
    }
  }

  lemma AreVotes(votes: seq<Step>, voted: set<nat>, proposal: nat, actorCount: nat)
    requires CastBy(votes, voted, proposal, actorCount) && 1 <= |votes| <= MaxVotes(actorCount)
    ensures IsVotes(votes, proposal, actorCount)
  {
  }

  lemma OneMoreVote(votes: seq<Step>, voted: set<nat>, proposal: nat, actorCount: nat, voter: nat, support: nat)
    requires CastBy(votes, voted, proposal, actorCount) && voter !in voted && voter < actorCount && support < 3
    ensures CastBy(votes + [Vote(voter, proposal, support)], voted + {voter}, proposal, actorCount)
  {
    var more := votes + [Vote(voter, proposal, support)];
    forall a ensures a in voted + {voter} <==> exists i :: 0 <= i < |more| && more[i].Vote? && more[i].actor == a {
      if i :| 0 <= i < |votes| && votes[i].Vote? && votes[i].actor == a {
        assert more[i] == votes[i];
      }
      assert more[|votes|].actor == voter;
    }
  }

  // ---------------------------------------------------------------- the scenario of a stream

  /** The votes of the first v rounds, who cast them, and how far into the stream that went. An
      actor drawn again casts no second vote. */
  function Rounds(draws: nat -> nat, k: nat, v: nat, proposal: nat, actorCount: nat): (seq<Step>, set<nat>, nat) {
    if v == 0 then ([], {}, k)
    else
      var (votes, voted, j) := Rounds(draws, k, v - 1, proposal, actorCount);
      var voter := Scaled(draws, j, actorCount);
      if voter in voted then (votes, voted, j + 1)
      else (votes + [Vote(voter, proposal, Scaled(draws, j + 1, 3))], voted + {voter}, j + 2)
  }

  function VoterCount(draws: nat -> nat, k: nat, actorCount: nat): nat {
    var drawn := Scaled(draws, k, actorCount);
    if drawn < 1 then 1 else drawn
  }

  /** The block of a proposal, and how far into the stream it goes. */
  function BlockOf(draws: nat -> nat, k: nat, proposal: nat, actorCount: nat): (seq<Step>, nat) {
    var (votes, _, j) := Rounds(draws, k + 2, VoterCount(draws, k + 1, actorCount), proposal, actorCount);
    ([Propose(Scaled(draws, k, actorCount), proposal), AdvanceLedger(2)] + votes + [AdvanceLedger(10)], j)
  }

  function BlocksOf(draws: nat -> nat, k: nat, p: nat, actorCount: nat): (seq<seq<Step>>, nat) {
    if p == 0 then ([], k)
    else
      var (before, j) := BlocksOf(draws, k, p - 1, actorCount);
      var (block, l) := BlockOf(draws, j, p, actorCount);
      (before + [block], l)
  }

  /** The actors take the first numbers of the stream. */
  function ActorsOf(draws: nat -> nat, n: nat): seq<Actor> {
    seq(n, i requires 0 <= i < n => Actor(100 + Scaled(draws, i, 9900), i == 0))
  }

  function ScenarioOf(draws: nat -> nat, actorCount: nat, proposalCount: nat): (seq<Actor>, seq<Step>) {
    (ActorsOf(draws, actorCount), Concat(BlocksOf(draws, actorCount, proposalCount, actorCount).0) + [Snapshot])
  }

  /** x is draw / 2^32 * n, rounded down. */
  predicate IsScaled(x: nat, draw: nat, n: nat) { 0x1_0000_0000 * x <= draw * n < 0x1_0000_0000 * (x + 1) }

  lemma ScaledIs(draws: nat -> nat, k: nat, n: nat)
    ensures IsScaled(Scaled(draws, k, n), draws(k), n)
  {
    var x := draws(k) * n;
    assert x == WORD * (x / WORD) + x % WORD;
  }

  /** Which numbers of the stream decide what: number i the balance of actor i, ... */
  lemma ActorsDrawn(draws: nat -> nat, n: nat, i: nat)
    requires i < n
    ensures |ActorsOf(draws, n)| == n && 100 <= ActorsOf(draws, n)[i].initialBalance
    ensures IsScaled(ActorsOf(draws, n)[i].initialBalance - 100, draws(i), 9900)
  {
    ScaledIs(draws, i, 9900);
  }

  /** ... in a block that begins at number k, this one the proposer and the next one the number of
      rounds, which is at least one; ... */
  lemma BlockDrawn(draws: nat -> nat, k: nat, proposal: nat, actorCount: nat) returns (proposer: nat, rounds: nat)
    ensures IsScaled(proposer, draws(k), actorCount)
    ensures IsScaled(rounds, draws(k + 1), actorCount) || (rounds == 1 && IsScaled(0, draws(k + 1), actorCount))
    ensures 1 <= rounds
    ensures var (votes, _, j) := Rounds(draws, k + 2, rounds, proposal, actorCount);
            BlockOf(draws, k, proposal, actorCount)
            == ([Propose(proposer, proposal), AdvanceLedger(2)] + votes + [AdvanceLedger(10)], j)
  {
    hide IsScaled, Rounds;
    ScaledIs(draws, k, actorCount);
    ScaledIs(draws, k + 1, actorCount);
    proposer, rounds := Scaled(draws, k, actorCount), VoterCount(draws, k + 1, actorCount);
  }

  /** ... and in each round the next number the voter, and, if that actor has not voted yet, the
      one after it the support. */
  lemma RoundDrawn(draws: nat -> nat, k: nat, v: nat, proposal: nat, actorCount: nat) returns (voter: nat, support: nat)
    ensures Rounds(draws, k, 0, proposal, actorCount) == ([], {}, k)
    ensures var (votes, voted, j) := Rounds(draws, k, v, proposal, actorCount);
            && IsScaled(voter, draws(j), actorCount) && IsScaled(support, draws(j + 1), 3)
            && Rounds(draws, k, v + 1, proposal, actorCount)
               == if voter in voted then (votes, voted, j + 1)
                  else (votes + [Vote(voter, proposal, support)], voted + {voter}, j + 2)
  {
    hide IsScaled, Scaled;
    var j := Rounds(draws, k, v, proposal, actorCount).2;
    ScaledIs(draws, j, actorCount);
    ScaledIs(draws, j + 1, 3);
    voter, support := Scaled(draws, j, actorCount), Scaled(draws, j + 1, 3);
  }

  /** Whatever the stream, the scenario has the promised form. */
  lemma ScenarioForm(draws: nat -> nat, actorCount: nat, proposalCount: nat)
    requires IsStream(draws) && 1 <= actorCount
    ensures var (actors, steps) := ScenarioOf(draws, actorCount, proposalCount);
            && |actors| == actorCount
            && (forall i :: 0 <= i < actorCount ==>
                  100 <= actors[i].initialBalance < 10_000 && (actors[i].isProposer <==> i == 0))
            && IsScenario(steps, BlocksOf(draws, actorCount, proposalCount, actorCount).0, actorCount, proposalCount)
  {
    hide IsBlock, BlocksOf;
    forall i: nat | i < actorCount ensures Scaled(draws, i, 9900) < 9900 {
      ScaledBelow(draws(i), 9900);
    }
    BlocksForm(draws, actorCount, proposalCount, actorCount);
  }

  lemma {:induction false} BlocksForm(draws: nat -> nat, k: nat, p: nat, actorCount: nat)
    requires IsStream(draws) && 1 <= actorCount
    ensures var blocks := BlocksOf(draws, k, p, actorCount).0;
            |blocks| == p && forall q :: 0 <= q < p ==> IsBlock(blocks[q], q + 1, actorCount)
  {
    hide IsBlock, BlockOf, Scaled;
    if 0 < p {
      BlocksForm(draws, k, p - 1, actorCount);
      BlockForm(draws, BlocksOf(draws, k, p - 1, actorCount).1, p, actorCount);
    }
  }

  lemma BlockForm(draws: nat -> nat, k: nat, proposal: nat, actorCount: nat)
    requires IsStream(draws) && 1 <= actorCount
    ensures IsBlock(BlockOf(draws, k, proposal, actorCount).0, proposal, actorCount)
  {
    hide CastBy, IsVotes, Rounds;
    var n := VoterCount(draws, k + 1, actorCount);
    var (votes, voted, j) := Rounds(draws, k + 2, n, proposal, actorCount);
    ScaledBelow(draws(k), actorCount);
    ScaledBelow(draws(k + 1), actorCount);
    RoundsForm(draws, k + 2, n, proposal, actorCount);
    AreVotes(votes, voted, proposal, actorCount);
    var block := BlockOf(draws, k, proposal, actorCount).0;
    assert block[2..|block| - 1] == votes;
  }

  lemma {:induction false} RoundsForm(draws: nat -> nat, k: nat, v: nat, proposal: nat, actorCount: nat)
    requires IsStream(draws) && 1 <= actorCount
    ensures var (votes, voted, _) := Rounds(draws, k, v, proposal, actorCount);
            && CastBy(votes, voted, proposal, actorCount)
            && |votes| <= v && (0 < v ==> votes != [])
  {
    hide CastBy;
    if v == 0 {
      NoVotes(proposal, actorCount);
    } else {
      var (votes, voted, j) := Rounds(draws, k, v - 1, proposal, actorCount);
      RoundsForm(draws, k, v - 1, proposal, actorCount);
      ScaledBelow(draws(j), actorCount);
      ScaledBelow(draws(j + 1), 3);
      if Scaled(draws, j, actorCount) in voted {
        NobodyYet(votes, voted, proposal, actorCount);
      } else {
        OneMoreVote(votes, voted, proposal, actorCount, Scaled(draws, j, actorCount), Scaled(draws, j + 1, 3));
      }
    }
  }

  // ---------------------------------------------------------------- the generator

  /** The scenario of the generator's stream; none for fewer than one actor. In particular a
      seed always gives the same scenario. */
  method GenerateRandomScenario(seed: word, actorCount: int, proposalCount: nat)
    returns (result: Option<(seq<Actor>, seq<Step>)>)
    ensures result == if actorCount < 1 then None else Some(ScenarioOf(Draws(seed), actorCount, proposalCount))
  {
    hide Drawn, Scaled, BlockOf;
    if actorCount < 1 { return None; }
    var rng := new Generator(seed);
    var actors := GenerateActors(rng, actorCount);
    var steps: seq<Step> := [];
    ghost var draws := Draws(seed);
    ghost var blocks: seq<seq<Step>> := [];
    for p := 0 to proposalCount
      invariant fresh(rng) && rng.Valid() && rng.seed == seed
      invariant (blocks, rng.count) == BlocksOf(draws, actorCount, p, actorCount) && steps == Concat(blocks)
    {
      var block := GenerateBlock(rng, actorCount, p + 1);
      assert (blocks + [block])[..|blocks|] == blocks;
      steps := steps + block;
      blocks := blocks + [block];
    }
    result := Some((actors, steps + [Snapshot]));
  }

  method GenerateActors(rng: Generator, actorCount: nat) returns (actors: seq<Actor>)
    requires rng.Valid() && rng.count == 0
    modifies rng
    ensures rng.Valid() && rng.count == actorCount && actors == ActorsOf(Draws(rng.seed), actorCount)
  {
    hide Drawn, Scaled;
    actors := [];
    for i := 0 to actorCount
      invariant rng.Valid() && rng.count == i
      invariant actors == ActorsOf(Draws(rng.seed), i)
    {
      var extra := rng.Below(9900);
      actors := actors + [Actor(100 + extra, i == 0)];
    }
  }

  method GenerateBlock(rng: Generator, actorCount: nat, proposal: nat) returns (block: seq<Step>)
    requires rng.Valid() && 1 <= actorCount
    modifies rng
    ensures rng.Valid() && (block, rng.count) == BlockOf(Draws(rng.seed), old(rng.count), proposal, actorCount)
  {
    hide Drawn, Scaled, Rounds;
    var proposer := rng.Below(actorCount);
    var votes, voted := GenerateVotes(rng, actorCount, proposal);
    block := [Propose(proposer, proposal), AdvanceLedger(2)] + votes + [AdvanceLedger(10)];
  }

  method GenerateVotes(rng: Generator, actorCount: nat, proposal: nat) returns (votes: seq<Step>, voted: set<nat>)
    requires rng.Valid() && 1 <= actorCount
    modifies rng
    ensures rng.Valid()
    ensures var draws, k := Draws(rng.seed), old(rng.count);
            (votes, voted, rng.count) == Rounds(draws, k + 1, VoterCount(draws, k, actorCount), proposal, actorCount)
  {
    hide Drawn, Scaled, Draws, Rounds, WordAfter;
    ghost var draws, k := Draws(rng.seed), rng.count;
    var drawn := rng.Below(actorCount);
    var voterCount := if drawn < 1 then 1 else drawn;
    votes, voted := [], {};
    NoRound(draws, k + 1, proposal, actorCount);
    for v := 0 to voterCount
      invariant rng.Valid() && (votes, voted, rng.count) == Rounds(draws, k + 1, v, proposal, actorCount)
    {
      OneRound(draws, k + 1, v, proposal, actorCount);
      var voter := rng.Below(actorCount);
      if voter in voted { continue; }
      voted := voted + {voter};
      var support := rng.Below(3);
      votes := votes + [Vote(voter, proposal, support)];
    }
  }

  lemma NoRound(draws: nat -> nat, k: nat, proposal: nat, actorCount: nat)
    ensures Rounds(draws, k, 0, proposal, actorCount) == ([], {}, k)
  {
  }

  lemma OneRound(draws: nat -> nat, k: nat, v: nat, proposal: nat, actorCount: nat)
    ensures var (votes, voted, j) := Rounds(draws, k, v, proposal, actorCount);
            var voter := Scaled(draws, j, actorCount);
            Rounds(draws, k, v + 1, proposal, actorCount)
            == if voter in voted then (votes, voted, j + 1)
               else (votes + [Vote(voter, proposal, Scaled(draws, j + 1, 3))], voted + {voter}, j + 2)
  {
  }

  // ---------------------------------------------------------------- size and timing

  /** The ledgers that pass during some steps. */
  function Elapsed(steps: seq<Step>): nat {
    if steps == [] then 0
    else Elapsed(steps[..|steps| - 1]) + (match steps[|steps| - 1] case AdvanceLedger(n) => n case _ => 0)
  }

  lemma {:induction false} ElapsedConcat(a: seq<Step>, b: seq<Step>)
    ensures Elapsed(a + b) == Elapsed(a) + Elapsed(b)
  {
    if b == [] {
      assert a + b == a;
    } else {
      assert (a + b)[..|a + b| - 1] == a + b[..|b| - 1];
      ElapsedConcat(a, b[..|b| - 1]);
    }
  }

  lemma {:induction false} BlockElapsed(block: seq<Step>, proposal: nat, actorCount: nat, j: nat)
    requires IsBlock(block, proposal, actorCount) && 2 <= j < |block|
    ensures Elapsed(block[..j]) == 2
  {
    if j == 2 {
      var first := [block[0]];
      assert first[..0] == [];
      assert Elapsed(first) == 0;
      assert block[..2][..1] == first && block[..2][1] == AdvanceLedger(2);
    } else {
      assert block[..j][..j - 1] == block[..j - 1];
      assert block[2..|block| - 1][j - 3] == block[j - 1];
      BlockElapsed(block, proposal, actorCount, j - 1);
    }
  }

  /** Every vote of a block, wherever the block stands in the scenario, falls after the voting
      delay and within the voting period of its own proposal; and the voting period is over
      when the next block starts. */
  lemma VotesInTime(before: seq<Step>, block: seq<Step>, proposal: nat, actorCount: nat, j: nat)
    requires IsBlock(block, proposal, actorCount) && 2 <= j < |block| - 1
    ensures block[j].Vote? && block[j].proposal == block[0].proposal
    ensures var since := Elapsed(before + block[..j]) - Elapsed(before);
            VOTING_DELAY < since <= VOTING_DELAY + VOTING_PERIOD
    ensures Elapsed(before + block) - Elapsed(before) > VOTING_DELAY + VOTING_PERIOD
  {
    assert block[2..|block| - 1][j - 2] == block[j];
    BlockElapsed(block, proposal, actorCount, j);
    BlockElapsed(block, proposal, actorCount, |block| - 1);
    ElapsedConcat(before, block[..j]);
    ElapsedConcat(before, block);
  }

  /** The number of steps lies between 4 P + 1 and P (3 + max(1, A - 1)) + 1. */
  lemma ScenarioSize(steps: seq<Step>, blocks: seq<seq<Step>>, actorCount: nat, proposalCount: nat)
    requires IsScenario(steps, blocks, actorCount, proposalCount)
    ensures 4 * proposalCount + 1 <= |steps| <= proposalCount * (3 + MaxVotes(actorCount)) + 1
  {
    ConcatSize(blocks, actorCount);
  }

  lemma {:induction false} ConcatSize(blocks: seq<seq<Step>>, actorCount: nat)
    requires forall p :: 0 <= p < |blocks| ==> IsBlock(blocks[p], p + 1, actorCount)
    ensures 4 * |blocks| <= |Concat(blocks)| <= |blocks| * (3 + MaxVotes(actorCount))
  {
    if blocks != [] {
      hide IsBlock, MaxVotes;
      var n: int := |blocks| - 1;
      ConcatSize(blocks[..n], actorCount);
      BlockSize(blocks[n], n + 1, actorCount);
      OneMore(n, 3 + MaxVotes(actorCount));
    }
  }

  lemma OneMore(n: int, m: int)
    ensures (n + 1) * m == n * m + m
  {
  }

  lemma BlockSize(block: seq<Step>, proposal: nat, actorCount: nat)
    requires IsBlock(block, proposal, actorCount)
    ensures 4 <= |block| <= 3 + MaxVotes(actorCount)
  {
    assert |block| == |block[2..|block| - 1]| + 3;
  }
}
