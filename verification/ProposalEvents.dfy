/** Fetching decoded events from the RPC server, and the paging loop that collects all
    proposal-created events of a governor. */
module ProposalEvents {
  import opened Options
  import opened EventLog

  /** A raw event; decodable says whether its topics and value decode. */
  datatype Raw = Raw(decodable: bool, topic: string)
  type RawEvent = Event<Raw>

  /** An answer of the server. A latestLedger of 0 stands for a missing field. */
  datatype Answer = Answer(events: seq<RawEvent>, latestLedger: nat)

  const Decodes: RawEvent -> bool := (e: RawEvent) => e.body.decodable

  /** fetchEvents: undecodable events are dropped; a missing latest ledger reads as the start. */
  function FetchEvents(answer: Answer, startLedger: nat): Answer {
    Answer(Keep(Decodes, answer.events), if answer.latestLedger != 0 then answer.latestLedger else startLedger)
  }

  /** The log without its undecodable events. */
  function Decoded(log: seq<RawEvent>): seq<RawEvent> { Keep(Decodes, log) }

  /** Fetching a page of the log gives a page of the decoded log. */
  lemma FetchedIsPage(log: seq<RawEvent>, answer: Answer, c: nat)
    requires Ordered(log) && answer.events <= From(log, c)
    ensures FetchEvents(answer, c).events <= From(Decoded(log), c)
    ensures Ordered(Decoded(log))
  {
    KeepPrefix(Decodes, answer.events, From(log, c));
    KeepSplits(Decodes, log, c);
    KeepOrdered(Decodes, log);
  }

  function MaxLedger(page: seq<RawEvent>): nat
    requires page != []
  {
    var last := page[|page| - 1].ledger;
    if |page| == 1 then last
    else
      var rest := MaxLedger(page[..|page| - 1]);
      if rest < last then last else rest
  }

  lemma {:induction false} MaxLedgerOfPage(page: seq<RawEvent>, c: nat)
    requires page != []
    requires forall i, j :: 0 <= i < j < |page| ==> page[i].ledger <= page[j].ledger
    requires forall i :: 0 <= i < |page| ==> c <= page[i].ledger
    ensures c <= MaxLedger(page) == Last(page).ledger
  {
    if |page| > 1 {
      MaxLedgerOfPage(page[..|page| - 1], c);
      assert page[|page| - 2].ledger <= page[|page| - 1].ledger;
    }
  }

  /** Where the paging loop goes on after a fetched page. */
  function NextStart(fetched: Answer): nat {
    if fetched.events == [] then fetched.latestLedger + 1 else MaxLedger(fetched.events) + 1
  }

  /** The loop moves on from startLedger exactly if the page holds a decodable event, or the
      reported latest ledger is missing or not below startLedger. A server that falls behind
      startLedger and has no events makes it ask for the same or an earlier ledger again. */
  lemma ProgressIff(log: seq<RawEvent>, answer: Answer, startLedger: nat)
    requires Ordered(log) && answer.events <= From(log, startLedger)
    ensures startLedger < NextStart(FetchEvents(answer, startLedger)) <==>
            || (exists e :: e in answer.events && e.body.decodable)
            || answer.latestLedger == 0
            || startLedger <= answer.latestLedger
  {
    hide Keep, Ordered, CountBefore, From;
    var page := FetchEvents(answer, startLedger).events;
    KeepMembers(Decodes, answer.events);
    if page != [] {
      FetchedIsPage(log, answer, startLedger);
      LastIsMax(Decoded(log), startLedger, page);
      MaxLedgerOfPage(page, startLedger);
      assert page[0] in answer.events;
    }
  }

  /** Such a server: it has nothing and says 3. Asked from ledger 10 on, the loop goes back to
      ledger 4, and then asks for that for ever. */
  lemma BehindServerRepeats()
    ensures var answer := Answer([], 3);
            NextStart(FetchEvents(answer, 10)) == NextStart(FetchEvents(answer, 4)) == 4
  {
    assert Keep(Decodes, []) == [];
  }

  /** The server answers with prefixes of what remains, empty only if nothing up to latest
      remains, and its latest ledger does not go back behind latest. */
  ghost predicate Honest(serve: nat -> Option<Answer>, log: seq<RawEvent>, latest: nat) {
    Ordered(log) && forall c: nat :: Faithful(serve(c), log, latest, c)
  }

  ghost predicate Faithful(answer: Option<Answer>, log: seq<RawEvent>, latest: nat, c: nat) {
    answer.Some? ==>
      && answer.value.events <= From(log, c)
      && |answer.value.events| <= 100
      && latest <= answer.value.latestLedger
      && (answer.value.events == [] ==> CountBefore(log, latest + 1) <= CountBefore(log, c))
  }

  /** A page that is not empty but holds no decodable event. */
  ghost predicate Blind(answer: Option<Answer>) {
    answer.Some? && answer.value.events != [] && forall e :: e in answer.value.events ==> !e.body.decodable
  }

  /** Asking starts at the given ledger, but not before ledger 1. */
  function FirstLedger(fromLedger: int): (first: nat)
    ensures 1 <= first && fromLedger <= first && (first == 1 || first == fromLedger)
  {
    if fromLedger < 1 then 1 else fromLedger
  }

  /** The pages that asking on from ledger c takes in, after those already taken; none if a
      fetch fails. A server that makes the loop ask for c or an earlier ledger again would keep
      it going for ever; ProgressIff says when. */
  function Asked(serve: nat -> Option<Answer>, latest: nat, c: nat, pages: Pages<Raw>): Option<Pages<Raw>>
    decreases if c <= latest then latest + 1 - c else 0
  {
    if latest < c then Some(pages)
    else
      match serve(c)
      case None => None
      case Some(answer) =>
        var fetched := FetchEvents(answer, c);
        var next := NextStart(fetched);
        var more := if fetched.events == [] then pages else Then(pages, fetched.events);
        if next <= c then Some(more) else Asked(serve, latest, next, more)
  }

  /** All proposal events from fromLedger to latest: none if a fetch fails, else what the pages
      that were asked for deliver. That is in order, without repetition, and made of decodable
      events of the log. It is everything up to latest if and only if no page cut off any of it
      and the last page was not before its end; if the loop did not stop blind, it suffices that
      no two decodable events share a ledger. The loop stops there early, blind, if a page is
      not empty but holds no decodable event. */
  method GetProposalEvents(serve: nat -> Option<Answer>, latest: nat, fromLedger: int, ghost log: seq<RawEvent>)
    returns (result: Option<seq<RawEvent>>, ghost pages: Pages<Raw>, ghost blind: bool)
    requires Honest(serve, log, latest)
    ensures var asked := Asked(serve, latest, FirstLedger(fromLedger), Nothing);
            && result == (if asked.Some? then Some(Delivered(asked.value)) else None)
            && (asked.Some? ==> pages == asked.value)
    ensures result.Some? ==>
              && Ordered(result.value)
              && forall e :: e in result.value ==> e in log && e.body.decodable && 1 <= e.ledger && fromLedger <= e.ledger
    ensures result.Some? && !blind && NoCutUpTo(Decoded(log), FirstLedger(fromLedger), pages, latest) ==>
              forall e :: e in log && 1 <= e.ledger && fromLedger <= e.ledger <= latest ==>
                (e in result.value <==> e.body.decodable)
    ensures result.Some? ==>
              (UpTo(latest, result.value) == Window(Decoded(log), FirstLedger(fromLedger), latest + 1) <==>
                 NoCutUpTo(Decoded(log), FirstLedger(fromLedger), pages, latest)
                 && Window(Decoded(log), Stop(FirstLedger(fromLedger), pages), latest + 1) == [])
    ensures result.Some? && !blind && OnePerLedger(Decoded(log), FirstLedger(fromLedger)) ==>
              UpTo(latest, result.value) == Window(Decoded(log), FirstLedger(fromLedger), latest + 1)
    ensures Scan(Decoded(log), FirstLedger(fromLedger), pages)
    ensures result.Some? && !blind ==> Window(Decoded(log), Stop(FirstLedger(fromLedger), pages), latest + 1) == []
    ensures result.Some? && blind ==>
              Stop(FirstLedger(fromLedger), pages) <= latest && Blind(serve(Stop(FirstLedger(fromLedger), pages)))
  {
    hide Ordered, CountBefore, From, Decoded, Blind, Window, Tail, Keep, UpTo, NoCutUpTo, Asked, OnePerLedger;
    hide FirstLedger;
    var events: seq<RawEvent> := [];
    var startLedger := FirstLedger(fromLedger);
    ghost var start := startLedger;
    pages, blind := Nothing, false;
    ghost var done := false;

    while startLedger <= latest
      invariant Scan(Decoded(log), start, pages) && events == Delivered(pages)
      invariant Asked(serve, latest, start, Nothing) == Asked(serve, latest, startLedger, pages)
      invariant !done ==> startLedger == Stop(start, pages) && !blind
      invariant done ==> latest < startLedger
      invariant done && !blind ==>
                  CountBefore(Decoded(log), latest + 1) <= CountBefore(Decoded(log), Stop(start, pages))
      invariant blind ==> Stop(start, pages) <= latest && Blind(serve(Stop(start, pages)))
      decreases latest + 1 - startLedger
    {
      var answer := serve(startLedger);
      assert Faithful(answer, log, latest, startLedger);
      AskedOnce(serve, latest, startLedger, pages);
      if answer.None? { return None, pages, blind; }
      var fetched := FetchEvents(answer.value, startLedger);
      FetchedIsPage(log, answer.value, startLedger);
      var page := fetched.events;
      if |page| == 0 {
        KeepMembers(Decodes, answer.value.events);
        done, blind := true, answer.value.events != [];
        assert blind ==> Blind(serve(startLedger)) by { NothingDecodable(answer.value.events, serve(startLedger)); }
        NothingLeft(log, startLedger, latest);
        startLedger := fetched.latestLedger + 1;
        continue;
      }
      LastIsMax(Decoded(log), startLedger, page);
      MaxLedgerOfPage(page, startLedger);
      events := events + page;
      pages := Then(pages, page);
      startLedger := MaxLedger(page) + 1;
    }
    CountBeforeMonotone(Decoded(log), latest + 1, startLedger);
    AskedEnough(serve, latest, startLedger, pages);
    result := Some(events);
    NothingBetween(Decoded(log), Stop(start, pages), latest + 1);
    ProposalEventsCompleteIff(log, start, latest, pages);
    if UpTo(latest, events) == Window(Decoded(log), start, latest + 1) {
      WholeRange(log, start, latest, events);
    }
  }

  /** What it is to return the whole range. */
  lemma WholeRange(log: seq<RawEvent>, start: nat, latest: nat, events: seq<RawEvent>)
    requires Ordered(log) && UpTo(latest, events) == Window(Decoded(log), start, latest + 1)
    ensures forall e :: e in log && start <= e.ledger <= latest ==> (e in events <==> e.body.decodable)
  {
    hide Ordered, UpTo, Window, Keep;
    DecodedOrdered(log);
    UpToMembers(latest, events);
    KeepMembers(Decodes, log);
    forall e | e in log && start <= e.ledger <= latest ensures e in events <==> e.body.decodable {
      WindowMembers(Decoded(log), start, latest + 1, e);
    }
  }

  lemma AskedOnce(serve: nat -> Option<Answer>, latest: nat, c: nat, pages: Pages<Raw>)
    requires c <= latest
    ensures serve(c).None? ==> Asked(serve, latest, c, pages) == None
    ensures serve(c).Some? ==>
              var fetched := FetchEvents(serve(c).value, c);
              c < NextStart(fetched) ==>
                Asked(serve, latest, c, pages)
                == Asked(serve, latest, NextStart(fetched), if fetched.events == [] then pages else Then(pages, fetched.events))
  {
  }

  lemma AskedEnough(serve: nat -> Option<Answer>, latest: nat, c: nat, pages: Pages<Raw>)
    requires latest < c
    ensures Asked(serve, latest, c, pages) == Some(pages)
  {
  }

  lemma NothingBetween(log: seq<RawEvent>, c: nat, stop: nat)
    ensures CountBefore(log, stop) <= CountBefore(log, c) ==> Window(log, c, stop) == []
  {
  }

  lemma NothingDecodable(page: seq<RawEvent>, answer: Option<Answer>)
    requires answer.Some? && answer.value.events == page && Keep(Decodes, page) == []
    ensures page != [] ==> Blind(answer)
  {
    KeepMembers(Decodes, page);
  }

  lemma DeliveredFromLog(log: seq<RawEvent>, start: nat, pages: Pages<Raw>)
    requires Ordered(log) && Scan(Decoded(log), start, pages)
    ensures Ordered(Delivered(pages))
    ensures forall e :: e in Delivered(pages) ==> e in log && e.body.decodable && start <= e.ledger
  {
    KeepOrdered(Decodes, log);
    KeepMembers(Decodes, log);
    ScanInOrder(Decoded(log), start, pages);
  }

  /** If the log has nothing between c and latest, neither has the decoded log. */
  lemma NothingLeft(log: seq<RawEvent>, c: nat, latest: nat)
    requires Ordered(log)
    ensures CountBefore(log, latest + 1) <= CountBefore(log, c) ==>
              CountBefore(Decoded(log), latest + 1) <= CountBefore(Decoded(log), c)
  {
    if CountBefore(log, c) < CountBefore(log, latest + 1) { return; }
    var d := Decoded(log);
    KeepSplits(Decodes, log, c);
    KeepSplits(Decodes, log, latest + 1);
    KeepPrefix(Decodes, log[..CountBefore(log, latest + 1)], log[..CountBefore(log, c)]);
    assert |d[..CountBefore(d, latest + 1)]| <= |d[..CountBefore(d, c)]|;
  }

  lemma DecodedOrdered(log: seq<RawEvent>)
    requires Ordered(log)
    ensures Ordered(Decoded(log))
  {
    KeepOrdered(Decodes, log);
  }

  /** What the pages of a run deliver is in order, without repetition and made of decodable
      events from start on. Cut at latest, it is exactly the decodable events from start to
      latest if and only if no page cut off one of those and the decoded log has nothing left
      between the ledger asked for last and latest. */
  lemma ProposalEventsCompleteIff(log: seq<RawEvent>, start: nat, latest: nat, pages: Pages<Raw>)
    requires Ordered(log) && Scan(Decoded(log), start, pages)
    ensures UpTo(latest, Delivered(pages)) == Window(Decoded(log), start, latest + 1) <==>
              && NoCutUpTo(Decoded(log), start, pages, latest)
              && Window(Decoded(log), Stop(start, pages), latest + 1) == []
    ensures OnePerLedger(Decoded(log), start) ==> NoCutUpTo(Decoded(log), start, pages, latest)
    ensures Ordered(Delivered(pages))
    ensures forall e :: e in Delivered(pages) ==> e in log && e.body.decodable && start <= e.ledger
  {
    hide Decoded, OnePerLedger, NoCut, NoCutUpTo, Scan, UpTo, Window;
    DecodedOrdered(log);
    DeliveredFromLog(log, start, pages);
    if OnePerLedger(Decoded(log), start) {
      NeverCut(Decoded(log), start, pages);
      NoCutNowhere(Decoded(log), start, pages, latest);
    }
    ScanUpToIff(Decoded(log), start, pages, latest);
  }

  // ---------------------------------------------------------------- an event lost to a blind page

  /** A server that answers with the first hundred events of what remains. */
  function Hundred(log: seq<RawEvent>, latest: nat): nat -> Option<Answer> {
    (c: nat) => Some(Answer(if |From(log, c)| <= 100 then From(log, c) else From(log, c)[..100], latest))
  }

  lemma HundredIsHonest(log: seq<RawEvent>, latest: nat)
    requires Ordered(log)
    ensures Honest(Hundred(log, latest), log, latest)
  {
  }

  /** A hundred undecodable events at ledger 5, and a decodable one at ledger 6. */
  function LateEvent(): seq<RawEvent> {
    seq(100, i requires 0 <= i < 100 => Event(i, 5, Raw(false, "")))
    + [Event(100, 6, Raw(true, "ProposalCreated"))]
  }

  /** Asking from ledger 1 to 6, the loop sees only the undecodable page and returns nothing. */
  lemma BlindPageLosesEvent()
    ensures var log := LateEvent();
            && Honest(Hundred(log, 6), log, 6)
            && Asked(Hundred(log, 6), 6, 1, Nothing) == Some(Nothing)
            && Window(Decoded(log), 1, 7) == [Event(100, 6, Raw(true, "ProposalCreated"))]
  {
    hide LateEvent, Ordered, Keep, CountBefore, Asked, Window, From, Honest, Hundred;
    var log := LateEvent();
    LateEvents();
    HundredIsHonest(log, 6);
    LateWindow(Decoded(log));
    AllFromOne(log);
    FirstPageIsBlind(log);
  }

  lemma LateEvents()
    ensures var log := LateEvent();
            && |log| == 101 && Ordered(log) && (forall i :: 0 <= i < |log| ==> 1 <= log[i].ledger)
            && Keep(Decodes, log[..100]) == [] && Decoded(log) == [Event(100, 6, Raw(true, "ProposalCreated"))]
  {
    hide Ordered, Keep;
    var log := LateEvent();
    OrderedPairs(log);
    var bad, good := log[..100], [Event(100, 6, Raw(true, "ProposalCreated"))];
    assert log == bad + good;
    KeepConcat(Decodes, bad, good);
    KeepNone(Decodes, bad);
    KeepAll(Decodes, good);
    assert [] + good == good;
  }

  lemma LateWindow(good: seq<RawEvent>)
    requires |good| == 1 && good[0].ledger == 6
    ensures Window(good, 1, 7) == good
  {
    assert good[..0] == [] && CountBefore(good[..0], 1) == 0;
    assert CountBefore(good, 1) == 0 && CountBefore(good, 7) == 1;
  }

  lemma AllFromOne(log: seq<RawEvent>)
    requires Ordered(log) && forall i :: 0 <= i < |log| ==> 1 <= log[i].ledger
    ensures From(log, 1) == log
  {
    CountBeforeSplits(log, 1);
    assert log != [] ==> 1 <= log[0].ledger;
  }

  lemma FirstPageIsBlind(log: seq<RawEvent>)
    requires |log| == 101 && From(log, 1) == log && Keep(Decodes, log[..100]) == []
    ensures Asked(Hundred(log, 6), 6, 1, Nothing) == Some(Nothing)
  {
    hide Keep, From;
    var serve := Hundred(log, 6);
    assert serve(1) == Some(Answer(log[..100], 6));
    assert NextStart(FetchEvents(serve(1).value, 1)) == 7;
    assert Asked(serve, 6, 7, Nothing) == Some(Nothing);
  }
}

/** Collecting the events of a ledger range for a replay. */
module ReplayEvents {
  import opened EventLog

  /** The events of one answer that are not above toLedger. */
  method Record<T>(response: seq<Event<T>>, toLedger: nat) returns (events: seq<Event<T>>)
    ensures events == UpTo(toLedger, response)
  {
    events := [];
    for i := 0 to |response|
      invariant events == UpTo(toLedger, response[..i])
    {
      var event := response[i];
      assert response[..i + 1][..i] == response[..i];
      if event.ledger > toLedger { continue; }
      events := events + [event];
    }
    assert response[..|response|] == response;
  }

  /** The replay loop against a server that may answer anything: it ends, and records nothing
      above toLedger. */
  method Collect<T>(serve: nat -> seq<Event<T>>, fromLedger: nat, toLedger: nat, ghost log: seq<Event<T>>)
    returns (events: seq<Event<T>>, ghost pages: Pages<T>)
    ensures forall e :: e in events ==> e.ledger <= toLedger
    ensures events == UpTo(toLedger, Delivered(pages))
    ensures Honest(serve, log, toLedger) ==>
              && Scan(log, fromLedger, pages)
              && CountBefore(log, toLedger + 1) <= CountBefore(log, Stop(fromLedger, pages))
  {
    hide Ordered, CountBefore, From, UpTo;
    events, pages := [], Nothing;
    assert events == UpTo(toLedger, Delivered(pages)) by { UpToNone(toLedger, Delivered(pages)); }
    ghost var honest, covered := Honest(serve, log, toLedger), toLedger < fromLedger;
    if covered {
      CountBeforeMonotone(log, toLedger + 1, fromLedger);
    }
    var startLedger := fromLedger;
    while startLedger <= toLedger
      invariant events == UpTo(toLedger, Delivered(pages))
      invariant startLedger == Stop(fromLedger, pages)
      invariant honest ==> Scan(log, fromLedger, pages)
      invariant covered ==> CountBefore(log, toLedger + 1) <= CountBefore(log, Stop(fromLedger, pages))
      invariant toLedger < startLedger ==> covered
      decreases toLedger + 1 - startLedger
    {
      var response := serve(startLedger);
      assert honest ==> Faithful(response, log, toLedger, startLedger);
      if |response| == 0 {
        covered := honest;
        break;
      }
      var recorded := Record(response, toLedger);
      UpToConcat(toLedger, Delivered(pages), response);
      events := events + recorded;
      pages := Then(pages, response);
      var lastLedger := response[|response| - 1].ledger;
      assert Stop(fromLedger, pages) == lastLedger + 1;
      if honest {
        LastIsMax(log, startLedger, response);
        assert startLedger <= lastLedger;
      }
      if toLedger <= lastLedger {
        CountBeforeMonotone(log, toLedger + 1, lastLedger + 1);
      }
      covered := toLedger <= lastLedger;
      if lastLedger >= toLedger || lastLedger < startLedger { break; }
      startLedger := lastLedger + 1;
    }
    UpToMembers(toLedger, Delivered(pages));
  }

  ghost predicate Honest<T>(serve: nat -> seq<Event<T>>, log: seq<Event<T>>, toLedger: nat) {
    Ordered(log) && forall c: nat :: Faithful(serve(c), log, toLedger, c)
  }

  ghost predicate Faithful<T>(page: seq<Event<T>>, log: seq<Event<T>>, toLedger: nat, c: nat) {
    page <= From(log, c) && (page == [] ==> CountBefore(log, toLedger + 1) <= CountBefore(log, c))
  }

  /** Against an honest server the recorded events are exactly those of the range if and only if
      no page cut off one of them. */
  lemma CollectCompleteIff<T>(log: seq<Event<T>>, fromLedger: nat, toLedger: nat, pages: Pages<T>)
    requires Ordered(log) && Scan(log, fromLedger, pages)
    requires CountBefore(log, toLedger + 1) <= CountBefore(log, Stop(fromLedger, pages))
    ensures UpTo(toLedger, Delivered(pages)) == Window(log, fromLedger, toLedger + 1) <==>
              NoCutUpTo(log, fromLedger, pages, toLedger)
  {
    ScanUpToIff(log, fromLedger, pages, toLedger);
  }
}
