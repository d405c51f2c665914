/** The incremental delegation index: a capped, resumable scan of delegation events folded
    into a map from delegator to delegatee. */
module DelegationIndex {
  import opened Options
  import opened EventLog

  type Address = string

  /** The body of an event that passed the topic filter. Malformed stands for one whose
      decoding throws, or whose fields are not strings. */
  datatype Body =
    | Changed(delegator: Address, delegatee: Address)
    | Revoked(delegator: Address)
    | Malformed

  type DelegationEvent = Event<Body>

  /** What a scan call returns: no cursor, a cursor, or the scan error. */
  datatype Outcome = Finished | ResumeAt(next: nat) | ScanFailed

  const DEFAULT_SCAN_WINDOW: nat := 17_280

  // ---------------------------------------------------------------- the map an event list stands for

  function Apply(m: map<Address, Address>, e: DelegationEvent): map<Address, Address> {
    match e.body
    case Changed(delegator, delegatee) => m[delegator := delegatee]
    case Revoked(delegator) => m - {delegator}
    case Malformed => m
  }

  function Fold(m: map<Address, Address>, events: seq<DelegationEvent>): map<Address, Address> {
    if events == [] then m else Apply(Fold(m, events[..|events| - 1]), Last(events))
  }

  /** The event says something about the delegator d. */
  predicate Concerns(e: DelegationEvent, d: Address) {
    !e.body.Malformed? && e.body.delegator == d
  }

  lemma {:induction false} FoldConcat(m: map<Address, Address>, a: seq<DelegationEvent>, b: seq<DelegationEvent>)
    ensures Fold(m, a + b) == Fold(Fold(m, a), b)
  {
    if b == [] {
      assert a + b == a;
    } else {
      assert (a + b)[..|a + b| - 1] == a + b[..|b| - 1];
      FoldConcat(m, a, b[..|b| - 1]);
    }
  }

  /** The last event about a delegator decides: its delegatee, or no entry after a revocation. */
  lemma {:induction false} LastEventWins(m: map<Address, Address>, events: seq<DelegationEvent>, d: Address, i: nat)
    requires i < |events| && Concerns(events[i], d)
    requires forall j :: i < j < |events| ==> !Concerns(events[j], d)
    ensures events[i].body.Changed? ==> d in Fold(m, events) && Fold(m, events)[d] == events[i].body.delegatee
    ensures events[i].body.Revoked? ==> d !in Fold(m, events)
  {
    if i < |events| - 1 {
      LastEventWins(m, events[..|events| - 1], d, i);
      assert !Concerns(events[|events| - 1], d);
    }
  }

  /** A delegator no event is about keeps whatever the map said before. */
  lemma {:induction false} Untouched(m: map<Address, Address>, events: seq<DelegationEvent>, d: Address)
    requires forall j :: 0 <= j < |events| ==> !Concerns(events[j], d)
    ensures d in Fold(m, events) <==> d in m
    ensures d in m ==> Fold(m, events)[d] == m[d]
  {
    if events != [] {
      Untouched(m, events[..|events| - 1], d);
      assert !Concerns(events[|events| - 1], d);
    }
  }

  /** Where in a list the last event about d stands. */
  lemma {:induction false} FindLast(events: seq<DelegationEvent>, d: Address) returns (i: int)
    ensures -1 <= i < |events|
    ensures 0 <= i ==> Concerns(events[i], d)
    ensures forall j :: i < j < |events| ==> !Concerns(events[j], d)
  {
    i := |events| - 1;
    while 0 <= i && !Concerns(events[i], d)
      invariant -1 <= i < |events|
      invariant forall j :: i < j < |events| ==> !Concerns(events[j], d)
    {
      i := i - 1;
    }
  }

  /** Some event is about d. */
  ghost predicate Mentions(events: seq<DelegationEvent>, d: Address) {
    exists j :: 0 <= j < |events| && Concerns(events[j], d)
  }

  /** Two maps say the same about d. */
  predicate Agree(m: map<Address, Address>, n: map<Address, Address>, d: Address) {
    (d in m <==> d in n) && (d in m ==> d in n && m[d] == n[d])
  }

  /** Folding over another map gives the same entry for everybody the events are about, and
      what the map said for everybody else. */
  lemma FoldOverOther(m: map<Address, Address>, n: map<Address, Address>, events: seq<DelegationEvent>, d: Address)
    ensures Agree(Fold(n, events), Fold(m, events), d) <==> Mentions(events, d) || Agree(n, m, d)
  {
    var i := FindLast(events, d);
    if 0 <= i {
      LastEventWins(n, events, d, i);
      LastEventWins(m, events, d, i);
    } else {
      Untouched(n, events, d);
      Untouched(m, events, d);
    }
  }

  /** A failed scan leaves the map half updated. Receiving other events afterwards gives the same
      map as receiving only those if and only if the first ones changed nothing about the
      delegators that the others do not mention. */
  lemma RescanRepairsIff(m: map<Address, Address>, part: seq<DelegationEvent>, events: seq<DelegationEvent>)
    ensures Fold(Fold(m, part), events) == Fold(m, events) <==> forall d :: Mentions(events, d) || Agree(Fold(m, part), m, d)
  {
    hide Mentions, Fold;
    var n, again, once := Fold(m, part), Fold(Fold(m, part), events), Fold(m, events);
    forall d ensures Agree(again, once, d) <==> Mentions(events, d) || Agree(n, m, d) {
      FoldOverOther(m, n, events, d);
    }
    if forall d :: Mentions(events, d) || Agree(n, m, d) {
      assert forall d :: Agree(again, once, d);
      AgreeEverywhere(again, once);
    }
  }

  lemma AgreeEverywhere(m: map<Address, Address>, n: map<Address, Address>)
    requires forall d :: Agree(m, n, d)
    ensures m == n
  {
    assert forall d :: d in m <==> d in n by {
      forall d ensures d in m <==> d in n { assert Agree(m, n, d); }
    }
    forall d | d in m ensures m[d] == n[d] { assert Agree(m, n, d); }
  }

  // ---------------------------------------------------------------- the server

  /** An answer to "events from this ledger on, at most this many": none if the call fails
      for good. */
  type Server = (nat, nat) -> Option<seq<DelegationEvent>>

  /** An answer reports the log faithfully: it is a prefix of what remains, no longer than
      asked for, and empty only if nothing up to the latest ledger remains. The log may run on
      beyond latest. */
  ghost predicate Faithful(answer: Option<seq<DelegationEvent>>, log: seq<DelegationEvent>, latest: nat,
                           c: nat, limit: nat)
  {
    answer.Some? ==>
      && answer.value <= From(log, c)
      && |answer.value| <= limit
      && (answer.value == [] && 0 < limit ==> CountBefore(log, latest + 1) <= CountBefore(log, c))
  }

  ghost predicate Honest(serve: Server, log: seq<DelegationEvent>, latest: nat) {
    Ordered(log) && forall c: nat, limit: nat :: Faithful(serve(c, limit), log, latest, c, limit)
  }

  /** The log has no events behind the latest ledger. */
  ghost predicate EndsBy(log: seq<DelegationEvent>, latest: nat) {
    forall i :: 0 <= i < |log| ==> log[i].ledger <= latest
  }

  /** The ledger a scan starts at: a cursor that is not 0, else the given ledger, else 17280
      ledgers ago, but not before ledger 1. */
  function StartLedger(fromLedger: Option<nat>, cursor: Option<nat>, sequence: nat): (start: nat)
    ensures cursor.Some? && cursor.value != 0 ==> start == cursor.value
    ensures !(cursor.Some? && cursor.value != 0) && fromLedger.Some? ==> start == fromLedger.value
    ensures !(cursor.Some? && cursor.value != 0) && fromLedger.None? ==>
              1 <= start && sequence <= start + 17_280 && (start == 1 || start + 17_280 == sequence)
  {
    if cursor.Some? && 0 < cursor.value then cursor.value
    else if fromLedger.Some? then fromLedger.value
    else if sequence <= DEFAULT_SCAN_WINDOW then 1
    else sequence - DEFAULT_SCAN_WINDOW
  }

  /** A non-empty answer is sorted by ledger and starts no earlier than asked. */
  lemma AnswerSorted(serve: Server, log: seq<DelegationEvent>, latest: nat, c: nat, limit: nat)
    requires Honest(serve, log, latest) && serve(c, limit).Some?
    ensures var page := serve(c, limit).value;
            && (forall i, j :: 0 <= i < j < |page| ==> page[i].ledger <= page[j].ledger)
            && (forall i :: 0 <= i < |page| ==> c <= page[i].ledger)
  {
    assert Faithful(serve(c, limit), log, latest, c, limit);
    LastIsMax(log, c, serve(c, limit).value);
  }

  // ---------------------------------------------------------------- the scan

  /** The pages are the server's answers, each asked for at the ledger where the ones before it
      stop, with a limit of 100, or of what is left of the cap if that is less. */
  ghost predicate AnswersOf(serve: Server, c: nat, scanCap: Option<nat>, pages: Pages<Body>) {
    match pages
    case Nothing => true
    case Then(before, page) =>
      && AnswersOf(serve, c, scanCap, before)
      && AskedNext(serve, c, scanCap, before) == Some(page)
  }

  /** The answer to the next question. */
  ghost function AskedNext(serve: Server, c: nat, scanCap: Option<nat>, pages: Pages<Body>): Option<seq<DelegationEvent>> {
    var got := |Delivered(pages)|;
    serve(Stop(c, pages), if scanCap.Some? && got <= scanCap.value && scanCap.value - got < 100 then scanCap.value - got else 100)
  }

  class Index {
    var delegations: map<Address, Address>

    constructor ()
      ensures delegations == map[]
    {
      delegations := map[];
    }

    /** One page of events: each is counted and applied, and the highest ledger is kept. */
    method Absorb(events: seq<DelegationEvent>, cursorLedger: nat) returns (maxLedger: nat)
      requires forall i, j :: 0 <= i < j < |events| ==> events[i].ledger <= events[j].ledger
      requires forall i :: 0 <= i < |events| ==> cursorLedger <= events[i].ledger
      modifies this
      ensures delegations == Fold(old(delegations), events)
      ensures maxLedger == if events == [] then cursorLedger else Last(events).ledger
    {
      maxLedger := cursorLedger;
      for i := 0 to |events|
        invariant delegations == Fold(old(delegations), events[..i])
        invariant maxLedger == if i == 0 then cursorLedger else events[i - 1].ledger
      {
        var event := events[i];
        assert events[..i + 1][..i] == events[..i];
        match event.body {
          case Changed(delegator, delegatee) =>
            delegations := delegations[delegator := delegatee];
          case Revoked(delegator) =>
            delegations := delegations - {delegator};
          case Malformed =>
        }
        if event.ledger > maxLedger {
          maxLedger := event.ledger;
        }
      }
      assert events[..|events|] == events;
    }

    /** One scan call. Whatever happens, the map is the fold of the pages that came in; those
        are a scan of the log from the start ledger, of at most scanCap events. */
    method BuildIncremental(serve: Server, startLedger: nat, latest: nat, scanCap: Option<nat>,
                            ghost log: seq<DelegationEvent>)
      returns (outcome: Outcome, ghost pages: Pages<Body>)
      requires Honest(serve, log, latest)
      modifies this
      ensures Scan(log, startLedger, pages)
      ensures delegations == Fold(old(delegations), Delivered(pages))
      ensures scanCap.Some? ==> |Delivered(pages)| <= scanCap.value && PagesAtMost(pages, scanCap.value)
      ensures outcome.ResumeAt? ==>
                && outcome.next == Stop(startLedger, pages) <= latest
                && scanCap.Some? && |Delivered(pages)| == scanCap.value
      ensures outcome.Finished? ==> CountBefore(log, latest + 1) <= CountBefore(log, Stop(startLedger, pages))
      ensures AnswersOf(serve, startLedger, scanCap, pages)
      ensures outcome.Finished? ==> latest < Stop(startLedger, pages) || AskedNext(serve, startLedger, scanCap, pages) == Some([])
      ensures outcome.ScanFailed? ==> AskedNext(serve, startLedger, scanCap, pages) == None
    {
      hide Ordered, CountBefore, From;
      var cursorLedger := startLedger;
      var scanned := 0;
      pages := Nothing;
      while cursorLedger <= latest && (scanCap.None? || scanned < scanCap.value)
        invariant Scan(log, startLedger, pages) && cursorLedger == Stop(startLedger, pages)
        invariant AnswersOf(serve, startLedger, scanCap, pages)
        invariant delegations == Fold(old(delegations), Delivered(pages))
        invariant scanned == |Delivered(pages)|
        invariant scanCap.Some? ==> scanned <= scanCap.value && PagesAtMost(pages, scanCap.value)
        decreases latest + 1 - cursorLedger
      {
        var limit := if scanCap.None? || scanCap.value - scanned > 100 then 100 else scanCap.value - scanned;
        var response := serve(cursorLedger, limit);
        assert Faithful(response, log, latest, cursorLedger, limit);
        if response.None? {
          return ScanFailed, pages;
        }
        var events := response.value;
        if |events| == 0 {
          return Finished, pages;
        }
        AnswerSorted(serve, log, latest, cursorLedger, limit);
        var maxLedger := Absorb(events, cursorLedger);
        FoldConcat(old(delegations), Delivered(pages), events);
        pages := Then(pages, events);
        scanned := scanned + |events|;
        cursorLedger := maxLedger + 1;
      }
      if cursorLedger > latest {
        CountBeforeMonotone(log, latest + 1, cursorLedger);
        return Finished, pages;
      }
      outcome := ResumeAt(cursorLedger);
    }

    /** The documented protocol: call with a cap, persist the cursor and the map, and call
        again from the cursor until none comes back. Every call asks anew for the latest
        ledger, and every call may meet another server; log is all that they ever show. The
        calls come to an end, and the map is the fold of the events received. Once finished,
        those are all events from the start on, whatever the cap, if and only if no page
        received cut a ledger; with a cap of one, if and only if no two events share one. */
    method BuildInSteps(servers: nat -> Server, startLedger: nat, latests: nat -> nat, scanCap: nat,
                        ghost log: seq<DelegationEvent>)
      returns (outcome: Outcome, ghost pages: Pages<Body>, ghost calls: nat)
      requires (forall k :: Honest(servers(k), log, latests(k))) && 0 < scanCap
      modifies this
      ensures !outcome.ResumeAt? && 0 < calls
      ensures Scan(log, startLedger, pages) && PagesAtMost(pages, scanCap)
      ensures delegations == Fold(old(delegations), Delivered(pages))
      ensures outcome.Finished? ==> CountBefore(log, latests(calls - 1) + 1) <= CountBefore(log, Stop(startLedger, pages))
      ensures outcome.Finished? && EndsBy(log, latests(calls - 1)) ==>
                && (Delivered(pages) == From(log, startLedger) <==> NoCut(log, startLedger, pages))
                && (OnePerLedger(log, startLedger) ==> Delivered(pages) == From(log, startLedger))
                && (scanCap == 1 ==> (Delivered(pages) == From(log, startLedger) <==> OnePerLedger(log, startLedger)))
    {
      hide Ordered, CountBefore, From, Tail, EndsBy, Honest, OnePerLedger, Scan, NoCut, Stop, Delivered, Fold;
      hide PagesAtMost, Append;
      assert Ordered(log) by { HonestLog(servers(0), log, latests(0)); }
      var call := 1;
      outcome, pages := BuildIncremental(servers(0), startLedger, latests(0), Some(scanCap), log);
      while outcome.ResumeAt?
        invariant 0 < call && Scan(log, startLedger, pages) && PagesAtMost(pages, scanCap)
        invariant delegations == Fold(old(delegations), Delivered(pages))
        invariant outcome.ResumeAt? ==> outcome.next == Stop(startLedger, pages)
        invariant outcome.Finished? ==> CountBefore(log, latests(call - 1) + 1) <= CountBefore(log, Stop(startLedger, pages))
        decreases outcome.ResumeAt?, |log| - CountBefore(log, Stop(startLedger, pages))
      {
        ghost var more;
        ghost var from := outcome.next;
        outcome, more := BuildIncremental(servers(call), outcome.next, latests(call), Some(scanCap), log);
        ScanAppend(log, startLedger, pages, more);
        PagesAtMostAppend(pages, more, scanCap);
        FoldConcat(old(delegations), Delivered(pages), Delivered(more));
        Advances(log, from, more);
        pages := Append(pages, more);
        call := call + 1;
      }
      calls := call;
      if outcome.Finished? && EndsBy(log, latests(calls - 1)) {
        FinishedScanIsComplete(log, startLedger, latests(calls - 1), pages);
        CompleteByLedgers(log, startLedger, latests(calls - 1), pages);
      }
    }
  }

  lemma HonestLog(serve: Server, log: seq<DelegationEvent>, latest: nat)
    requires Honest(serve, log, latest)
    ensures Ordered(log)
  {
  }

  /** A scan that delivered something left events of the log behind it. */
  lemma Advances(log: seq<DelegationEvent>, c: nat, pages: Pages<Body>)
    requires Ordered(log) && Scan(log, c, pages)
    ensures Delivered(pages) != [] ==> CountBefore(log, c) < CountBefore(log, Stop(c, pages))
  {
    hide Ordered, CountBefore, From, Tail;
    if pages.Then? {
      ScanCoversWindow(log, c, pages);
      TailLengths(log, c, pages);
    }
  }

  /** What the ledgers of the log say about a finished scan. */
  lemma CompleteByLedgers(log: seq<DelegationEvent>, c: nat, latest: nat, pages: Pages<Body>)
    requires Ordered(log) && EndsBy(log, latest) && Scan(log, c, pages)
    requires CountBefore(log, latest + 1) <= CountBefore(log, Stop(c, pages))
    ensures OnePerLedger(log, c) ==> NoCut(log, c, pages)
    ensures PagesAtMost(pages, 1) ==> (NoCut(log, c, pages) <==> OnePerLedger(log, c))
  {
    assert CountBefore(log, latest + 1) == |log|;
    hide Ordered, CountBefore, Scan, NoCut, OnePerLedger, PagesAtMost;
    if OnePerLedger(log, c) {
      NeverCut(log, c, pages);
    }
    if PagesAtMost(pages, 1) {
      OneByOneIff(log, c, pages);
    }
  }

  // ---------------------------------------------------------------- scans agree

  /** Two finished scans of the same log from the same ledger give the same map, however they
      were capped and chained, provided no page of either cuts a ledger. */
  lemma FinishedScansAgree(log: seq<DelegationEvent>, m: map<Address, Address>, c: nat, latest: nat,
                           p: Pages<Body>, q: Pages<Body>)
    requires Ordered(log) && EndsBy(log, latest)
    requires Scan(log, c, p) && NoCut(log, c, p)
    requires Scan(log, c, q) && NoCut(log, c, q)
    requires CountBefore(log, latest + 1) <= CountBefore(log, Stop(c, p))
    requires CountBefore(log, latest + 1) <= CountBefore(log, Stop(c, q))
    ensures Delivered(p) == Delivered(q) == From(log, c)
    ensures Fold(m, Delivered(p)) == Fold(m, Delivered(q))
  {
    FinishedScanIsComplete(log, c, latest, p);
    FinishedScanIsComplete(log, c, latest, q);
  }

  /** A finished scan of a log that ends at latest has seen everything from its start exactly
      if no page cut a ledger. */
  lemma FinishedScanIsComplete(log: seq<DelegationEvent>, c: nat, latest: nat, p: Pages<Body>)
    requires Ordered(log) && EndsBy(log, latest) && Scan(log, c, p)
    requires CountBefore(log, latest + 1) <= CountBefore(log, Stop(c, p))
    ensures Delivered(p) == From(log, c) <==> NoCut(log, c, p)
  {
    hide Scan, NoCut, Ordered;
    ScanCompleteIff(log, c, p);
    assert CountBefore(log, latest + 1) == |log|;
    hide CountBefore;
    AllFrom(log, c, Stop(c, p));
  }

  /** Whatever an earlier scan from the same ledger has left in the map, a finished scan that
      cut nothing repairs it. */
  lemma RescanRepairs(log: seq<DelegationEvent>, m: map<Address, Address>, c: nat, latest: nat, p: Pages<Body>, q: Pages<Body>)
    requires Ordered(log) && EndsBy(log, latest) && Scan(log, c, p)
    requires Scan(log, c, q) && NoCut(log, c, q) && CountBefore(log, latest + 1) <= CountBefore(log, Stop(c, q))
    ensures Fold(Fold(m, Delivered(p)), Delivered(q)) == Fold(m, Delivered(q))
  {
    hide Ordered, CountBefore, Fold, Agree, Concerns;
    var part, events := Delivered(p), Delivered(q);
    FinishedScanIsComplete(log, c, latest, q);
    ScanMembers(log, c, p);
    CountBeforeSplits(log, c);
    forall e | e in part ensures e in events {
      var k :| 0 <= k < |log| && log[k] == e;
      assert From(log, c)[k - CountBefore(log, c)] == e;
    }
    forall d ensures Mentions(events, d) || Agree(Fold(m, part), m, d) {
      if Mentions(part, d) {
        MentionedIn(part, events, d);
      } else {
        NotMentioned(m, part, d);
      }
    }
    RescanRepairsIff(m, part, events);
  }

  lemma MentionedIn(part: seq<DelegationEvent>, events: seq<DelegationEvent>, d: Address)
    requires Mentions(part, d) && forall e :: e in part ==> e in events
    ensures Mentions(events, d)
  {
    var j :| 0 <= j < |part| && Concerns(part[j], d);
    assert part[j] in events;
    var k :| 0 <= k < |events| && events[k] == part[j];
  }

  lemma NotMentioned(m: map<Address, Address>, events: seq<DelegationEvent>, d: Address)
    requires !Mentions(events, d)
    ensures Agree(Fold(m, events), m, d)
  {
    Untouched(m, events, d);
  }

  /** A repeated scan that cuts a ledger does not: the first attempt, which then failed, saw both
      events of ledger 7, the second one only the first of them. */
  lemma RescanCanKeepRemains() returns (log: seq<DelegationEvent>, p: Pages<Body>, q: Pages<Body>)
    ensures Ordered(log) && EndsBy(log, 7) && Scan(log, 7, p) && Scan(log, 7, q) && !NoCut(log, 7, q)
    ensures CountBefore(log, 8) <= CountBefore(log, Stop(7, q))
    ensures Fold(Fold(map[], Delivered(p)), Delivered(q)) != Fold(map[], Delivered(q))
  {
    var first := Event(0, 7, Changed("alice", "bob"));
    var second := Event(1, 7, Changed("carol", "dave"));
    log, p, q := TwoInOneLedger(first, second);
    LastEventWins(map[], [first, second], "carol", 1);
    Untouched(Fold(map[], [first, second]), [first], "carol");
    Untouched(map[], [first], "carol");
  }

  /** Two events in one ledger, received in one page, or the first one only. */
  lemma TwoInOneLedger(first: DelegationEvent, second: DelegationEvent)
    returns (log: seq<DelegationEvent>, both: Pages<Body>, one: Pages<Body>)
    requires first.id < second.id && first.ledger == second.ledger == 7
    ensures Ordered(log) && EndsBy(log, 7) && Scan(log, 7, both) && Scan(log, 7, one) && Stop(7, both) == Stop(7, one) == 8
    ensures Delivered(both) == [first, second] && Delivered(one) == [first]
    ensures NoCut(log, 7, both) && !NoCut(log, 7, one)
  {
    log := [first, second];
    both, one := Then(Nothing, [first, second]), Then(Nothing, [first]);
    assert Ordered(log) && CountBefore(log, 8) == 2;
    assert log[..1] == [first] && CountBefore([first], 7) == 0;
    hide CountBefore;
    assert From(log, 7) == log;
    assert Tail(log, 7, [first]) == [second];
  }

  lemma AllFrom(log: seq<DelegationEvent>, c: nat, stop: nat)
    requires CountBefore(log, stop) == |log|
    ensures Window(log, c, stop) == From(log, c)
  {
    hide CountBefore;
    assert log[CountBefore(log, c)..|log|] == log[CountBefore(log, c)..];
  }

  /** With a cap of zero a call receives nothing and returns the ledger it was given, so that
      chained calls would never end. */
  lemma ZeroCapStays(log: seq<DelegationEvent>, c: nat, pages: Pages<Body>)
    requires Scan(log, c, pages) && |Delivered(pages)| <= 0
    ensures pages == Nothing && Stop(c, pages) == c
  {
  }

  /** Without that proviso the maps can differ: with a cap of one event and two events in one
      ledger, the first page ends inside the ledger and the scan goes on behind it. */
  lemma CapCanLoseEvents() returns (log: seq<DelegationEvent>, p: Pages<Body>, q: Pages<Body>)
    ensures Ordered(log) && Scan(log, 7, p) && Scan(log, 7, q) && Stop(7, p) == Stop(7, q) == 8
    ensures |Delivered(p)| == 1 && !NoCut(log, 7, p) && NoCut(log, 7, q)
    ensures Fold(map[], Delivered(p)) != Fold(map[], Delivered(q))
  {
    var first := Event(0, 7, Changed("alice", "bob"));
    var second := Event(1, 7, Changed("alice", "carol"));
    log, q, p := TwoInOneLedger(first, second);
    LastEventWins(map[], [first], "alice", 0);
    LastEventWins(map[], [first, second], "alice", 1);
  }
}
