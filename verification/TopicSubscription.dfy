/** A topic subscription: a timer polls the server for events from a ledger cursor on and
    hands the matching ones to a callback. Polls are taken one after the other. */
module TopicSubscription {
  import opened Options
  import opened EventLog
  import opened ProposalEvents

  /** What the callback does with an event, besides taking it. */
  datatype Effect = Returns | Unsubscribes | Throws

  /** The caller's filter and callback. */
  datatype Client = Client(accepts: RawEvent -> bool, effect: RawEvent -> Effect)

  /** The closure variables of a subscription, and the events handed to the callback so far. */
  datatype State = State(cursor: nat, initialized: bool, stopped: bool, delivered: seq<RawEvent>)

  const Fresh: State := State(0, false, false, [])

  /** A timer tick, with the server's answers (none: the call failed for good) and whether the
      caller unsubscribed while the poll was waiting; or an unsubscription between polls. */
  datatype Action =
    | Poll(latest: Option<nat>, answer: Option<Answer>, stoppedMeanwhile: bool)
    | Unsubscribe

  // ---------------------------------------------------------------- what a poll does

  /** Handing one event over; the flag says that the callback threw. */
  function Offer(client: Client, s: State, e: RawEvent): (State, bool) {
    if s.stopped || !client.accepts(e) then (s, false)
    else
      var t := s.(delivered := s.delivered + [e]);
      match client.effect(e)
      case Returns => (t, false)
      case Unsubscribes => (t.(stopped := true), false)
      case Throws => (t, true)
  }

  /** Handing a page over, up to the first event whose callback throws. */
  function OfferAll(client: Client, s: State, page: seq<RawEvent>): (State, bool) {
    if page == [] then (s, false)
    else
      var (t, threw) := OfferAll(client, s, page[..|page| - 1]);
      if threw then (t, true) else Offer(client, t, page[|page| - 1])
  }

  /** The state a poll asks the server from: the first one that reaches it sets the cursor. */
  function Started(s: State, latest: Option<nat>): State {
    if s.initialized || latest.None? then s else s.(cursor := latest.value, initialized := true)
  }

  function Step(client: Client, s: State, a: Action): State {
    match a
    case Unsubscribe => s.(stopped := true)
    case Poll(latest, answer, stoppedMeanwhile) =>
      if s.stopped then s
      else
        var u := Started(s, latest).(stopped := stoppedMeanwhile);
        if !u.initialized || answer.None? then u
        else
          var fetched := FetchEvents(answer.value, u.cursor);
          var (t, threw) := OfferAll(client, u, fetched.events);
          if threw then t else t.(cursor := fetched.latestLedger + 1)
  }

  function Run(client: Client, s: State, actions: seq<Action>): State
    decreases |actions|
  {
    if actions == [] then s else Run(client, Step(client, s, actions[0]), actions[1..])
  }

  /** The subscription object; its methods implement Step. */
  class Subscription {
    const client: Client
    var cursor: nat
    var initialized: bool
    var stopped: bool
    var delivered: seq<RawEvent>

    ghost function Abstract(): State
      reads this
    {
      State(cursor, initialized, stopped, delivered)
    }

    constructor (client: Client)
      ensures Abstract() == Fresh && this.client == client
    {
      this.client := client;
      cursor, initialized, stopped, delivered := 0, false, false, [];
    }

    method Unsubscribe()
      modifies this
      ensures Abstract() == Step(client, old(Abstract()), Action.Unsubscribe)
    {
      stopped := true;
    }

    method Poll(latest: Option<nat>, answer: Option<Answer>, stoppedMeanwhile: bool)
      modifies this
      ensures Abstract() == Step(client, old(Abstract()), Action.Poll(latest, answer, stoppedMeanwhile))
    {
      if stopped { return; }
      // whoever unsubscribes while the poll waits is heard, whether or not an answer comes
      stopped := stoppedMeanwhile;
      if !initialized {
        if latest.None? { return; }
        cursor := latest.value;
        initialized := true;
      }
      if answer.None? { return; }
      var fetched := FetchEvents(answer.value, cursor);
      hide OfferAll, Keep;
      ghost var before := Abstract();
      var events := fetched.events;
      OfferNone(client, before, events);
      for i := 0 to |events|
        invariant (Abstract(), false) == OfferAll(client, before, events[..i])
        invariant cursor == before.cursor
      {
        var event := events[i];
        OfferNext(client, before, events, i);
        ghost var after := OfferAll(client, before, events[..i + 1]);
        if !stopped && client.accepts(event) {
          delivered := delivered + [event];
          var effect := client.effect(event);
          if effect.Throws? {
            ThrowEndsPage(client, before, events, i + 1);
            return;
          }
          if effect.Unsubscribes? {
            stopped := true;
          }
        }
        assert (Abstract(), false) == after;
      }
      assert events[..|events|] == events;
      cursor := fetched.latestLedger + 1;
    }
  }

  lemma OfferNone(client: Client, s: State, page: seq<RawEvent>)
    ensures OfferAll(client, s, page[..0]) == (s, false)
  {
  }

  lemma OfferNext(client: Client, s: State, page: seq<RawEvent>, n: nat)
    requires n < |page|
    ensures var (t, threw) := OfferAll(client, s, page[..n]);
            OfferAll(client, s, page[..n + 1]) == if threw then (t, true) else Offer(client, t, page[n])
  {
    assert page[..n + 1][..n] == page[..n];
  }

  lemma {:induction false} ThrowEndsPage(client: Client, s: State, page: seq<RawEvent>, n: nat)
    requires n <= |page| && OfferAll(client, s, page[..n]).1
    ensures OfferAll(client, s, page) == OfferAll(client, s, page[..n])
  {
    if n < |page| {
      assert page[..|page| - 1][..n] == page[..n];
      ThrowEndsPage(client, s, page[..|page| - 1], n);
    } else {
      assert page[..n] == page;
    }
  }

  // ---------------------------------------------------------------- deliveries of one page

  /** The first accepted event of the page that does not simply return throws. */
  ghost predicate ThrowsAt(client: Client, page: seq<RawEvent>, i: nat) {
    && i < |page| && client.accepts(page[i]) && client.effect(page[i]).Throws?
    && forall j :: 0 <= j < i && client.accepts(page[j]) ==> client.effect(page[j]).Returns?
  }

  /** Without a throw, a page is delivered up to the first event that unsubscribes: the
      deliveries are a prefix of its accepted events, all of them if the state is not stopped
      afterwards. */
  lemma {:induction false} OfferAllDelivers(client: Client, s: State, page: seq<RawEvent>)
    requires !OfferAll(client, s, page).1
    ensures var t := OfferAll(client, s, page).0;
            && t.cursor == s.cursor && t.initialized == s.initialized
            && s.delivered <= t.delivered
            && t.delivered[|s.delivered|..] <= Keep(client.accepts, page)
            && (s.stopped ==> t == s)
            && (!t.stopped ==> t.delivered == s.delivered + Keep(client.accepts, page))
  {
    if page != [] {
      OfferAllDelivers(client, s, page[..|page| - 1]);
    }
  }

  lemma {:induction false} StillRunning(client: Client, s: State, page: seq<RawEvent>)
    ensures var (t, threw) := OfferAll(client, s, page);
            !threw && !t.stopped ==>
              !s.stopped && forall j :: 0 <= j < |page| && client.accepts(page[j]) ==> client.effect(page[j]).Returns?
  {
    if page != [] {
      StillRunning(client, s, page[..|page| - 1]);
    }
  }

  /** What a throw is due to. */
  lemma {:induction false} WhoThrew(client: Client, s: State, page: seq<RawEvent>) returns (i: nat)
    requires OfferAll(client, s, page).1
    ensures !s.stopped && ThrowsAt(client, page, i)
  {
    var n: int := |page| - 1;
    if OfferAll(client, s, page[..n]).1 {
      i := WhoThrew(client, s, page[..n]);
    } else {
      StillRunning(client, s, page[..n]);
      i := n;
    }
  }

  /** Where the page throws, the deliveries end. */
  lemma OfferUpToThrow(client: Client, s: State, page: seq<RawEvent>, i: nat)
    requires !s.stopped && ThrowsAt(client, page, i)
    ensures OfferAll(client, s, page) == (s.(delivered := s.delivered + Keep(client.accepts, page[..i + 1])), true)
  {
    OfferAllReturn(client, s, page[..i]);
    assert page[..i + 1][..i] == page[..i];
    var kept := Keep(client.accepts, page[..i]);
    assert s.delivered + kept + [page[i]] == s.delivered + (kept + [page[i]]);
    ThrowEndsPage(client, s, page, i + 1);
  }

  lemma {:induction false} OfferAllReturn(client: Client, s: State, page: seq<RawEvent>)
    requires !s.stopped
    requires forall j :: 0 <= j < |page| && client.accepts(page[j]) ==> client.effect(page[j]).Returns?
    ensures OfferAll(client, s, page) == (s.(delivered := s.delivered + Keep(client.accepts, page)), false)
  {
    if page != [] {
      var n: int := |page| - 1;
      OfferAllReturn(client, s, page[..n]);
      var kept := Keep(client.accepts, page[..n]);
      assert s.delivered + kept + [page[n]] == s.delivered + (kept + [page[n]]);
      assert s.delivered + (kept + []) == s.delivered + kept;
    } else {
      assert s.delivered + [] == s.delivered;
    }
  }

  /** What an answered poll of a started subscription does: it takes the decodable events of the
      answer, in order, and hands over those the filter accepts, up to and including the first
      whose callback throws or unsubscribes; the first n events are taken. Then it goes on behind
      the answer's latest ledger, or, if that is missing, behind the ledger asked for; after a
      throw it stays. Whoever unsubscribed while it waited is given nothing. */
  lemma PollIs(client: Client, s: State, latest: Option<nat>, answer: Answer, stoppedMeanwhile: bool) returns (n: nat)
    requires s.initialized && !s.stopped
    ensures var t := Step(client, s, Action.Poll(latest, Some(answer), stoppedMeanwhile));
            var page := Keep((e: RawEvent) => e.body.decodable, answer.events);
            var next := (if answer.latestLedger != 0 then answer.latestLedger else s.cursor) + 1;
            && n <= |page| && t.initialized
            && (stoppedMeanwhile ==> t == s.(stopped := true, cursor := next))
            && (!stoppedMeanwhile ==>
                  && t.delivered == s.delivered + Keep(client.accepts, page[..n])
                  && (forall j :: 0 <= j < n - 1 && client.accepts(page[j]) ==> client.effect(page[j]).Returns?)
                  && (n < |page| ==> 0 < n && client.accepts(page[n - 1]) && !client.effect(page[n - 1]).Returns?)
                  && var last := if 0 < n && client.accepts(page[n - 1]) then client.effect(page[n - 1]) else Returns;
                  && t.stopped == last.Unsubscribes?
                  && t.cursor == if last.Throws? then s.cursor else next)
  {
    hide Keep, OfferAll;
    var page := FetchEvents(answer, s.cursor).events;
    SameDecoding(answer.events);
    if stoppedMeanwhile {
      n := 0;
      OfferStopped(client, s.(stopped := true), page);
    } else {
      n := OfferIs(client, s, page);
    }
  }

  lemma SameDecoding(events: seq<RawEvent>)
    ensures Keep((e: RawEvent) => e.body.decodable, events) == Keep(Decodes, events)
  {
    KeepCongruence((e: RawEvent) => e.body.decodable, Decodes, events);
  }

  lemma {:induction false} KeepCongruence(p: RawEvent -> bool, q: RawEvent -> bool, events: seq<RawEvent>)
    requires forall e :: p(e) == q(e)
    ensures Keep(p, events) == Keep(q, events)
  {
    if events != [] {
      KeepCongruence(p, q, events[..|events| - 1]);
    }
  }

  lemma {:induction false} OfferStopped(client: Client, s: State, page: seq<RawEvent>)
    requires s.stopped
    ensures OfferAll(client, s, page) == (s, false)
  {
    if page != [] {
      OfferStopped(client, s, page[..|page| - 1]);
    }
  }

  lemma {:induction false} OfferIs(client: Client, s: State, page: seq<RawEvent>) returns (n: nat)
    requires !s.stopped
    ensures n <= |page|
    ensures forall j :: 0 <= j < n - 1 && client.accepts(page[j]) ==> client.effect(page[j]).Returns?
    ensures n < |page| ==> 0 < n && client.accepts(page[n - 1]) && !client.effect(page[n - 1]).Returns?
    ensures var last := if 0 < n && client.accepts(page[n - 1]) then client.effect(page[n - 1]) else Returns;
            OfferAll(client, s, page)
            == (s.(delivered := s.delivered + Keep(client.accepts, page[..n]), stopped := last.Unsubscribes?), last.Throws?)
  {
    if page == [] {
      n := 0;
      assert s.delivered + [] == s.delivered;
    } else {
      var m: int := |page| - 1;
      var front := page[..m];
      n := OfferIs(client, s, front);
      assert page[..n] == front[..n];
      if forall j :: 0 <= j < n && client.accepts(front[j]) ==> client.effect(front[j]).Returns? {
        assert n == m && front[..n] == front && page[..|page|] == page;
        var kept := Keep(client.accepts, front);
        assert s.delivered + kept + [page[m]] == s.delivered + (kept + [page[m]]);
        assert kept + [] == kept;
        n := |page|;
      }
    }
  }

  /** The first poll that learns the latest ledger starts there; until then nothing happens. */
  lemma FirstPollIs(client: Client, s: State, latest: Option<nat>, answer: Option<Answer>, stoppedMeanwhile: bool)
    requires !s.initialized && !s.stopped
    ensures Step(client, s, Action.Poll(latest, answer, stoppedMeanwhile))
         == if latest.Some? then
              Step(client, s.(cursor := latest.value, initialized := true), Action.Poll(None, answer, stoppedMeanwhile))
            else s.(stopped := stoppedMeanwhile)
  {
    hide Keep, OfferAll;
  }

  /** Unsubscribing stops the subscription, and does nothing else. */
  lemma UnsubscribeStops(client: Client, s: State)
    ensures Step(client, s, Action.Unsubscribe) == s.(stopped := true)
  {
  }

  // ---------------------------------------------------------------- honest servers

  /** The answer to a poll from cursor c: the first events of the window from c to the reported
      latest ledger, at most 100 of them, and that ledger has not gone back behind c - 1. */
  ghost predicate Faithful(log: seq<RawEvent>, c: nat, answer: Answer) {
    && answer.latestLedger != 0
    && c <= answer.latestLedger + 1
    && answer.events == FirstHundred(Window(log, c, answer.latestLedger + 1))
  }

  function FirstHundred(w: seq<RawEvent>): seq<RawEvent> { if |w| <= 100 then w else w[..100] }

  function BeyondHundred(w: seq<RawEvent>): seq<RawEvent> { if |w| <= 100 then [] else w[100..] }

  /** The poll gets through to the server and is answered. */
  predicate Answered(s: State, a: Action) {
    a.Poll? && !s.stopped && Started(s, a.latest).initialized && a.answer.Some?
  }

  ghost predicate HonestStep(log: seq<RawEvent>, s: State, a: Action) {
    Answered(s, a) ==> Faithful(log, Started(s, a.latest).cursor, a.answer.value)
  }

  ghost predicate HonestRun(client: Client, log: seq<RawEvent>, s: State, actions: seq<Action>)
    decreases |actions|
  {
    actions != [] ==> HonestStep(log, s, actions[0]) && HonestRun(client, log, Step(client, s, actions[0]), actions[1..])
  }

  /** A callback that matters: the event decodes and passes the filter. */
  predicate Takes(client: Client, e: RawEvent) {
    e.body.decodable && client.accepts(e)
  }

  /** The event at position k throws, a page that starts with its ledger holds it, and nothing
      taken before it on that page throws or unsubscribes. */
  ghost predicate ThrowsFirst(client: Client, log: seq<RawEvent>, k: nat) {
    && k < |log| && k < CountBefore(log, log[k].ledger) + 100
    && Takes(client, log[k]) && client.effect(log[k]).Throws?
    && forall j :: CountBefore(log, log[k].ledger) <= j < k && Takes(client, log[j]) ==> client.effect(log[j]).Returns?
  }

  /** There is no such event in the log. */
  ghost predicate CallbackSafe(client: Client, log: seq<RawEvent>) {
    forall k: nat :: !ThrowsFirst(client, log, k)
  }

  /** What every reachable state satisfies: the deliveries are in log order, hence pairwise
      different, decodable, accepted, and behind the cursor. */
  ghost predicate Invariant(client: Client, log: seq<RawEvent>, s: State) {
    && Ordered(s.delivered)
    && (forall e :: e in s.delivered ==> e in log && e.body.decodable && client.accepts(e) && e.ledger < s.cursor)
    && (!s.initialized ==> s.delivered == [])
  }

  /** The page of a faithful answer, decoded: what decodes of the first 100 events of the
      window. */
  lemma AnsweredPage(log: seq<RawEvent>, c: nat, answer: Answer)
    requires Ordered(log) && Faithful(log, c, answer)
    ensures var page, stop := FetchEvents(answer, c).events, answer.latestLedger + 1;
            && Ordered(page)
            && (forall e :: e in page ==> e in log && e.body.decodable && c <= e.ledger < stop)
            && page == Keep(Decodes, FirstHundred(Window(log, c, stop)))
  {
    hide Keep, Ordered, CountBefore, Window;
    var stop := answer.latestLedger + 1;
    WindowInOrder(log, c, stop, answer.events);
    KeepOrdered(Decodes, answer.events);
    KeepMembers(Decodes, answer.events);
    forall e | e in answer.events ensures e in log && c <= e.ledger < stop {
      WindowMembers(log, c, stop, e);
    }
  }

  lemma WindowInOrder(log: seq<RawEvent>, c: nat, stop: nat, page: seq<RawEvent>)
    requires Ordered(log) && page <= Window(log, c, stop)
    ensures Ordered(page) && forall e :: e in page ==> e in Window(log, c, stop)
  {
    var lo, hi := CountBefore(log, c), CountBefore(log, stop);
    if lo <= hi {
      assert page <= From(log, c);
      PageInOrder(log, c, page);
    }
    forall e | e in page ensures e in Window(log, c, stop) {
      var i :| 0 <= i < |page| && page[i] == e;
      assert Window(log, c, stop)[i] == e;
    }
  }

  /** If an answered page throws, the log holds an event that throws first on a page. */
  lemma SafePage(client: Client, log: seq<RawEvent>, u: State, answer: Answer)
    requires Ordered(log) && Faithful(log, u.cursor, answer) && CallbackSafe(client, log)
    ensures !OfferAll(client, u, FetchEvents(answer, u.cursor).events).1
  {
    hide Keep, Ordered, CountBefore, OfferAll, CallbackSafe, ThrowsFirst, Faithful;
    var page := FetchEvents(answer, u.cursor).events;
    if OfferAll(client, u, page).1 {
      var i := WhoThrew(client, u, page);
      var k := FirstInLog(client, log, u.cursor, answer, i);
      assert ThrowsFirst(client, log, k);
      assert false by { NotSafe(client, log, k); }
    }
  }

  lemma NotSafe(client: Client, log: seq<RawEvent>, k: nat)
    ensures ThrowsFirst(client, log, k) ==> !CallbackSafe(client, log)
  {
  }

  /** The position in the log of an event that throws first on an answered page. */
  lemma FirstInLog(client: Client, log: seq<RawEvent>, c: nat, answer: Answer, i: nat) returns (k: nat)
    requires Ordered(log) && Faithful(log, c, answer) && ThrowsAt(client, FetchEvents(answer, c).events, i)
    ensures ThrowsFirst(client, log, k)
  {
    hide Keep, Ordered, CountBefore, Faithful;
    var page, raw, lo := FetchEvents(answer, c).events, answer.events, CountBefore(log, c);
    AnsweredPage(log, c, answer);
    RawInLog(log, c, answer);
    k := InLog(log, lo, raw, page, i);
    CountBeforeMonotone(log, c, log[k].ledger);
    forall j | CountBefore(log, log[k].ledger) <= j < k && Takes(client, log[j]) ensures client.effect(log[j]).Returns? {
      var n := OnPage(log, lo, raw, page, j);
      SameOrder(log, page, j, k, n, i);
      assert client.accepts(page[n]);
    }
  }

  /** The events of a decoded page, found again in the log, and the other way round. */
  lemma InLog(log: seq<RawEvent>, lo: nat, raw: seq<RawEvent>, page: seq<RawEvent>, i: nat) returns (k: nat)
    requires page == Keep(Decodes, raw) && i < |page|
    requires lo + |raw| <= |log| && forall m :: 0 <= m < |raw| ==> raw[m] == log[lo + m]
    ensures lo <= k < lo + |raw| && log[k] == page[i] && log[k].body.decodable
  {
    hide Keep;
    KeepMembers(Decodes, raw);
    assert page[i] in page;
    var m :| 0 <= m < |raw| && raw[m] == page[i];
    k := lo + m;
  }

  lemma OnPage(log: seq<RawEvent>, lo: nat, raw: seq<RawEvent>, page: seq<RawEvent>, k: nat) returns (i: nat)
    requires page == Keep(Decodes, raw) && lo <= k < lo + |raw|
    requires lo + |raw| <= |log| && forall m :: 0 <= m < |raw| ==> raw[m] == log[lo + m]
    requires log[k].body.decodable
    ensures i < |page| && page[i] == log[k]
  {
    hide Keep;
    KeepMembers(Decodes, raw);
    assert raw[k - lo] == log[k];
    assert log[k] in page;
    i :| 0 <= i < |page| && page[i] == log[k];
  }

  /** Two ordered lists have common events in the same order. */
  lemma SameOrder(log: seq<RawEvent>, page: seq<RawEvent>, j: nat, k: nat, n: nat, i: nat)
    requires Ordered(log) && Ordered(page) && j < |log| && k < |log| && n < |page| && i < |page|
    requires log[j] == page[n] && log[k] == page[i]
    ensures j < k <==> n < i
  {
    hide Ordered;
    OrderedPairs(log);
    OrderedPairs(page);
    assert j < k ==> log[j].id < log[k].id;
    assert k < j ==> log[k].id < log[j].id;
    assert n < i ==> page[n].id < page[i].id;
    assert i < n ==> page[i].id < page[n].id;
  }

  lemma RawInLog(log: seq<RawEvent>, c: nat, answer: Answer)
    requires Faithful(log, c, answer)
    ensures |answer.events| <= 100 && CountBefore(log, c) + |answer.events| <= |log|
    ensures forall m :: 0 <= m < |answer.events| ==> answer.events[m] == log[CountBefore(log, c) + m]
  {
    hide CountBefore;
    CountBeforeMonotone(log, c, answer.latestLedger + 1);
    var lo, w := CountBefore(log, c), Window(log, c, answer.latestLedger + 1);
    forall m | 0 <= m < |answer.events| ensures answer.events[m] == log[lo + m] {
      assert answer.events[m] == w[m];
    }
  }

  /** A step keeps the invariant and never moves the cursor of a started subscription back;
      what it delivers was not yet behind the cursor. */
  lemma StepKeepsInvariant(client: Client, log: seq<RawEvent>, s: State, a: Action)
    requires Ordered(log) && CallbackSafe(client, log) && Invariant(client, log, s) && HonestStep(log, s, a)
    ensures var t := Step(client, s, a);
            && Invariant(client, log, t)
            && (s.initialized ==> t.initialized && s.cursor <= t.cursor)
            && s.delivered <= t.delivered
            && forall e :: e in t.delivered && e !in s.delivered ==> s.initialized ==> s.cursor <= e.ledger
  {
    hide Keep, Ordered, CountBefore, Window, OfferAll, CallbackSafe;
    if Answered(s, a) {
      var u := Started(s, a.latest).(stopped := a.stoppedMeanwhile);
      var page := FetchEvents(a.answer.value, u.cursor).events;
      AnsweredPage(log, u.cursor, a.answer.value);
      SafePage(client, log, u, a.answer.value);
      assert u.delivered == s.delivered && Invariant(client, log, u);
      PageKeepsInvariant(client, log, u, page, a.answer.value.latestLedger + 1);
    }
  }

  lemma PageKeepsInvariant(client: Client, log: seq<RawEvent>, u: State, page: seq<RawEvent>, stop: nat)
    requires Ordered(log) && Invariant(client, log, u) && u.initialized && !OfferAll(client, u, page).1
    requires Ordered(page) && forall e :: e in page ==> e in log && e.body.decodable && u.cursor <= e.ledger < stop
    requires u.cursor <= stop
    ensures var t := OfferAll(client, u, page).0;
            && t.initialized
            && Invariant(client, log, t.(cursor := stop))
            && u.delivered <= t.delivered
            && forall e :: e in t.delivered && e !in u.delivered ==> u.cursor <= e.ledger
  {
    hide Ordered, OfferAll, FetchEvents;
    var more := PageDeliveries(client, u, page);
    LaterDeliveries(log, u.delivered, more, u.cursor);
    JoinedInvariant(client, log, u, more, OfferAll(client, u, page).0, stop);
  }

  lemma JoinedInvariant(client: Client, log: seq<RawEvent>, u: State, more: seq<RawEvent>, t: State, stop: nat)
    requires Invariant(client, log, u) && u.cursor <= stop && t.initialized
    requires t.delivered == u.delivered + more && Ordered(t.delivered)
    requires forall e :: e in more ==>
               e in log && e.body.decodable && client.accepts(e) && u.cursor <= e.ledger < stop
    ensures Invariant(client, log, t.(cursor := stop)) && u.delivered <= t.delivered
    ensures forall e :: e in t.delivered && e !in u.delivered ==> u.cursor <= e.ledger
  {
    hide Ordered;
  }

  /** What a page adds to the deliveries: accepted events of the page, in order. */
  lemma PageDeliveries(client: Client, u: State, page: seq<RawEvent>) returns (more: seq<RawEvent>)
    requires Ordered(page) && !OfferAll(client, u, page).1
    ensures var t := OfferAll(client, u, page).0;
            t.initialized == u.initialized && t.delivered == u.delivered + more
    ensures Ordered(more) && forall e :: e in more ==> e in page && client.accepts(e)
  {
    hide Keep, Ordered, OfferAll;
    OfferAllDelivers(client, u, page);
    var t := OfferAll(client, u, page).0;
    more := t.delivered[|u.delivered|..];
    PrefixOfKept(client, page, more);
  }

  /** Ordered deliveries below a cursor, followed by ordered ones from it on. */
  lemma LaterDeliveries(log: seq<RawEvent>, early: seq<RawEvent>, late: seq<RawEvent>, cursor: nat)
    requires Ordered(log) && Ordered(early) && Ordered(late)
    requires forall e :: e in early ==> e in log && e.ledger < cursor
    requires forall e :: e in late ==> e in log && cursor <= e.ledger
    ensures Ordered(early + late)
  {
    forall i, j | 0 <= i < |early| && 0 <= j < |late|
      ensures early[i].id < late[j].id && early[i].ledger <= late[j].ledger
    {
      assert early[i] in early && late[j] in late;
      SmallerLedgerFirst(log, early[i], late[j]);
    }
    OrderedConcat(early, late);
  }

  lemma PrefixOfKept(client: Client, page: seq<RawEvent>, part: seq<RawEvent>)
    requires Ordered(page) && part <= Keep(client.accepts, page)
    ensures Ordered(part)
    ensures forall e :: e in part ==> e in page && client.accepts(e)
  {
    hide Keep, Ordered;
    var kept := Keep(client.accepts, page);
    KeepOrdered(client.accepts, page);
    KeepMembers(client.accepts, page);
    OrderedPairs(kept);
    OrderedPairs(part);
    assert forall e :: e in part ==> e in kept;
  }

  /** At most once, in every run of sequential polls: the deliveries are in log order without
      repetition, and each is a decodable, accepted event of the log. */
  lemma {:induction false} RunKeepsInvariant(client: Client, log: seq<RawEvent>, s: State, actions: seq<Action>)
    requires Ordered(log) && CallbackSafe(client, log) && Invariant(client, log, s) && HonestRun(client, log, s, actions)
    ensures Invariant(client, log, Run(client, s, actions))
    ensures s.delivered <= Run(client, s, actions).delivered
    ensures s.initialized ==> s.cursor <= Run(client, s, actions).cursor
    decreases |actions|
  {
    hide Invariant, CallbackSafe, Step, HonestStep, Ordered;
    if actions != [] {
      StepKeepsInvariant(client, log, s, actions[0]);
      RunKeepsInvariant(client, log, Step(client, s, actions[0]), actions[1..]);
    }
  }

  /** What is behind the cursor and was not delivered never will be. */
  lemma {:induction false} BehindCursorIsLost(client: Client, log: seq<RawEvent>, s: State, actions: seq<Action>, e: RawEvent)
    requires Ordered(log) && CallbackSafe(client, log) && Invariant(client, log, s) && HonestRun(client, log, s, actions)
    requires s.initialized && e.ledger < s.cursor && e !in s.delivered
    ensures e !in Run(client, s, actions).delivered
    decreases |actions|
  {
    if actions != [] {
      StepKeepsInvariant(client, log, s, actions[0]);
      BehindCursorIsLost(client, log, Step(client, s, actions[0]), actions[1..], e);
    }
  }

  ghost predicate NoRepetition(delivered: seq<RawEvent>) {
    forall i, j :: 0 <= i < j < |delivered| ==> delivered[i] != delivered[j]
  }

  /** At most once, exactly: no honest run of sequential polls ever delivers an event twice, if
      and only if no event of the log throws first on a page that can hold it. */
  lemma AtMostOnceIff(client: Client, log: seq<RawEvent>)
    requires Ordered(log)
    ensures (forall actions :: HonestRun(client, log, Fresh, actions) ==> NoRepetition(Run(client, Fresh, actions).delivered))
       <==> CallbackSafe(client, log)
  {
    hide Ordered, Run, HonestRun, ThrowsFirst, NoRepetition, Invariant;
    if CallbackSafe(client, log) {
      forall actions | HonestRun(client, log, Fresh, actions) ensures NoRepetition(Run(client, Fresh, actions).delivered) {
        FreshInvariant(client, log);
        RunKeepsInvariant(client, log, Fresh, actions);
        OrderedOnce(client, log, Run(client, Fresh, actions));
      }
    } else {
      var k: nat :| ThrowsFirst(client, log, k);
      var actions := RunWithRepetition(client, log, k);
      assert !NoRepetition(Run(client, Fresh, actions).delivered);
    }
  }

  lemma FreshInvariant(client: Client, log: seq<RawEvent>)
    ensures Invariant(client, log, Fresh)
  {
  }

  lemma OrderedOnce(client: Client, log: seq<RawEvent>, s: State)
    requires Invariant(client, log, s)
    ensures NoRepetition(s.delivered)
  {
    OrderedPairs(s.delivered);
  }

  /** A run that learns the event's ledger as the latest, fails, and then polls twice. */
  lemma RunWithRepetition(client: Client, log: seq<RawEvent>, k: nat) returns (actions: seq<Action>)
    requires Ordered(log) && ThrowsFirst(client, log, k)
    ensures HonestRun(client, log, Fresh, actions) && !NoRepetition(Run(client, Fresh, actions).delivered)
  {
    hide Ordered, CountBefore, Keep, NoRepetition;
    var c := log[k].ledger;
    var latest := if c == 0 then 1 else c;
    var answer := Answer(FirstHundred(Window(log, c, latest + 1)), latest);
    var i := ThrowsOnPage(client, log, k, answer);
    var first, again := Action.Poll(Some(c), None, false), Action.Poll(None, Some(answer), false);
    var s := State(c, true, false, []);
    actions := [first, again, again];
    ThrowRedelivers(client, s, answer, i);
    var kept := Keep(client.accepts, FetchEvents(answer, c).events[..i + 1]);
    var t := s.(delivered := kept);
    assert [] + kept == kept;
    assert Step(client, Fresh, first) == s && Step(client, s, again) == t;
    assert actions[1..] == [again, again] && [again, again][1..] == [again] && [again][1..] == [];
    assert HonestRun(client, log, t, [again]);
    assert HonestRun(client, log, s, [again, again]);
    assert Run(client, Fresh, actions).delivered == kept + kept;
    TwiceTheSame(kept);
  }

  lemma TwiceTheSame(kept: seq<RawEvent>)
    requires kept != []
    ensures !NoRepetition(kept + kept)
  {
    var twice := kept + kept;
    assert twice[0] == twice[|kept|];
  }

  /** On a page that starts with its ledger the event throws first. */
  lemma ThrowsOnPage(client: Client, log: seq<RawEvent>, k: nat, answer: Answer) returns (i: nat)
    requires Ordered(log) && ThrowsFirst(client, log, k) && log[k].ledger <= answer.latestLedger
    requires Faithful(log, log[k].ledger, answer)
    ensures ThrowsAt(client, FetchEvents(answer, log[k].ledger).events, i)
  {
    hide Ordered, CountBefore, Keep, Faithful;
    var c, raw := log[k].ledger, answer.events;
    var page, lo := FetchEvents(answer, c).events, CountBefore(log, c);
    AnsweredPage(log, c, answer);
    RawInLog(log, c, answer);
    HeldByPage(log, k, answer);
    i := OnPage(log, lo, raw, page, k);
    forall j | 0 <= j < i && client.accepts(page[j]) ensures client.effect(page[j]).Returns? {
      var m := InLog(log, lo, raw, page, j);
      SameOrder(log, page, m, k, j, i);
      assert Takes(client, log[m]);
    }
  }

  /** An event among the first 100 of its ledger is in an answer from there. */
  lemma HeldByPage(log: seq<RawEvent>, k: nat, answer: Answer)
    requires Ordered(log) && k < |log| && k < CountBefore(log, log[k].ledger) + 100 && log[k].ledger <= answer.latestLedger
    requires Faithful(log, log[k].ledger, answer)
    ensures CountBefore(log, log[k].ledger) <= k < CountBefore(log, log[k].ledger) + |answer.events|
  {
    hide Ordered, CountBefore;
    CountBeforeSplits(log, log[k].ledger);
    CountBeforeSplits(log, answer.latestLedger + 1);
  }

  /** What a started subscription is to have delivered: the accepted decodable events from
      ledger first up to the cursor. */
  function Wanted(client: Client, log: seq<RawEvent>, first: nat, cursor: nat): seq<RawEvent> {
    Keep(client.accepts, Keep(Decodes, Window(log, first, cursor)))
  }

  /** What an answered poll cuts off: the wanted events beyond the first 100 of its window. */
  function CutOff(client: Client, log: seq<RawEvent>, s: State, a: Action): seq<RawEvent> {
    if Answered(s, a) then
      Keep(client.accepts,
           Keep(Decodes, BeyondHundred(Window(log, Started(s, a.latest).cursor, a.answer.value.latestLedger + 1))))
    else []
  }

  ghost predicate NothingCutOff(client: Client, log: seq<RawEvent>, s: State, actions: seq<Action>)
    decreases |actions|
  {
    actions != [] ==>
      CutOff(client, log, s, actions[0]) == [] && NothingCutOff(client, log, Step(client, s, actions[0]), actions[1..])
  }

  /** One step of a caught-up subscription that goes on leaves it caught up if and only if the
      poll cuts nothing off. */
  lemma StepStaysCaughtUpIff(client: Client, log: seq<RawEvent>, s: State, a: Action, first: nat)
    requires Ordered(log) && CallbackSafe(client, log) && HonestStep(log, s, a)
    requires s.initialized && first <= s.cursor && s.delivered == Wanted(client, log, first, s.cursor)
    requires !Step(client, s, a).stopped
    ensures var t := Step(client, s, a);
            && t.initialized && first <= t.cursor
            && (t.delivered == Wanted(client, log, first, t.cursor) <==> CutOff(client, log, s, a) == [])
  {
    hide Keep, Ordered, OfferAll, Window, CallbackSafe;
    if Answered(s, a) {
      var u, stop := s.(stopped := a.stoppedMeanwhile), a.answer.value.latestLedger + 1;
      var page := FetchEvents(a.answer.value, s.cursor).events;
      AnsweredPage(log, s.cursor, a.answer.value);
      SafePage(client, log, u, a.answer.value);
      OfferAllDelivers(client, u, page);
      WantedSplit(client, log, first, s.cursor, stop);
    }
  }

  /** The wanted events up to a later ledger: the old ones, those of the first 100, the rest. */
  lemma WantedSplit(client: Client, log: seq<RawEvent>, first: nat, cursor: nat, stop: nat)
    requires Ordered(log) && first <= cursor <= stop
    ensures var w := Window(log, cursor, stop);
            Wanted(client, log, first, stop)
            == Wanted(client, log, first, cursor) + Keep(client.accepts, Keep(Decodes, FirstHundred(w)))
               + Keep(client.accepts, Keep(Decodes, BeyondHundred(w)))
  {
    hide Keep, Ordered, Window;
    var early, w := Window(log, first, cursor), Window(log, cursor, stop);
    WindowSplit(log, first, cursor, stop);
    assert w == FirstHundred(w) + BeyondHundred(w);
    KeepConcat(Decodes, early, w);
    KeepConcat(Decodes, FirstHundred(w), BeyondHundred(w));
    KeepConcat(client.accepts, Keep(Decodes, early), Keep(Decodes, w));
    KeepConcat(client.accepts, Keep(Decodes, FirstHundred(w)), Keep(Decodes, BeyondHundred(w)));
  }

  /** Exactly once, exactly: a caught-up subscription that nobody unsubscribes has delivered
      exactly the wanted events up to its cursor if and only if no poll of the run cut a
      wanted event off. */
  lemma {:induction false} ExactlyOnceIff(client: Client, log: seq<RawEvent>, s: State, actions: seq<Action>, first: nat)
    requires Ordered(log) && CallbackSafe(client, log) && HonestRun(client, log, s, actions)
    requires s.initialized && first <= s.cursor && s.delivered == Wanted(client, log, first, s.cursor)
    requires !Run(client, s, actions).stopped
    ensures var t := Run(client, s, actions);
            t.delivered == Wanted(client, log, first, t.cursor) <==> NothingCutOff(client, log, s, actions)
    decreases |actions|
  {
    hide Ordered, CallbackSafe, Step, Wanted, CutOff, HonestStep, Invariant;
    if actions != [] {
      var t := Step(client, s, actions[0]);
      StoppedForGood(client, t, actions[1..]);
      StepStaysCaughtUpIff(client, log, s, actions[0], first);
      if CutOff(client, log, s, actions[0]) == [] {
        ExactlyOnceIff(client, log, t, actions[1..], first);
      } else {
        CutOffIsMissed(client, log, s, actions, first);
      }
    }
  }

  lemma CutOffIsMissed(client: Client, log: seq<RawEvent>, s: State, actions: seq<Action>, first: nat)
    requires Ordered(log) && CallbackSafe(client, log) && HonestRun(client, log, s, actions)
    requires s.initialized && first <= s.cursor && s.delivered == Wanted(client, log, first, s.cursor)
    requires actions != [] && CutOff(client, log, s, actions[0]) != []
    ensures var t := Run(client, s, actions); t.delivered != Wanted(client, log, first, t.cursor)
  {
    hide Ordered, CallbackSafe, Keep, Window, OfferAll, Wanted, HonestRun, Run, Step;
    var a, t := actions[0], Step(client, s, actions[0]);
    assert HonestStep(log, s, a) && HonestRun(client, log, t, actions[1..])
        && Run(client, s, actions) == Run(client, t, actions[1..]) by { FirstAction(client, log, s, actions); }
    var stop := a.answer.value.latestLedger + 1;
    var beyond := BeyondHundred(Window(log, s.cursor, stop));
    var e := CutOff(client, log, s, a)[0];
    KeepMembers(Decodes, beyond);
    KeepMembers(client.accepts, Keep(Decodes, beyond));
    assert e in CutOff(client, log, s, a);
    CaughtUpInvariant(client, log, s, first);
    LargeWindowLosesRest(client, log, s, a, actions[1..], e);
    StepKeepsInvariant(client, log, s, a);
    RunKeepsInvariant(client, log, t, actions[1..]);
    StepReaches(client, log, s, a);
    assert e in Window(log, s.cursor, stop);
    WindowMembers(log, s.cursor, stop, e);
    WantedMembers(client, log, first, Run(client, s, actions).cursor, e);
  }

  lemma FirstAction(client: Client, log: seq<RawEvent>, s: State, actions: seq<Action>)
    requires actions != [] && HonestRun(client, log, s, actions)
    ensures var t := Step(client, s, actions[0]);
            && HonestStep(log, s, actions[0]) && HonestRun(client, log, t, actions[1..])
            && Run(client, s, actions) == Run(client, t, actions[1..])
  {
    hide Step, HonestStep;
  }

  /** An answered poll moves the cursor behind the reported latest ledger. */
  lemma StepReaches(client: Client, log: seq<RawEvent>, s: State, a: Action)
    requires Ordered(log) && CallbackSafe(client, log) && HonestStep(log, s, a) && s.initialized && Answered(s, a)
    ensures Step(client, s, a).cursor == a.answer.value.latestLedger + 1
  {
    hide Keep, Ordered, OfferAll, Window, CallbackSafe;
    SafePage(client, log, s.(stopped := a.stoppedMeanwhile), a.answer.value);
  }

  lemma WantedMembers(client: Client, log: seq<RawEvent>, first: nat, cursor: nat, e: RawEvent)
    requires Ordered(log)
    ensures e in Wanted(client, log, first, cursor) <==> e in log && first <= e.ledger < cursor && Takes(client, e)
  {
    hide Keep, Ordered, Window;
    WindowMembers(log, first, cursor, e);
    KeepMembers(Decodes, Window(log, first, cursor));
    KeepMembers(client.accepts, Keep(Decodes, Window(log, first, cursor)));
  }

  lemma CaughtUpInvariant(client: Client, log: seq<RawEvent>, s: State, first: nat)
    requires Ordered(log) && s.initialized && first <= s.cursor && s.delivered == Wanted(client, log, first, s.cursor)
    ensures Invariant(client, log, s)
  {
    hide Keep, Ordered, Window;
    var w := Window(log, first, s.cursor);
    WindowInOrder(log, first, s.cursor, w);
    KeepOrdered(Decodes, w);
    KeepOrdered(client.accepts, Keep(Decodes, w));
    forall e | e in s.delivered ensures e in log && e.body.decodable && client.accepts(e) && e.ledger < s.cursor {
      WantedMembers(client, log, first, s.cursor, e);
    }
  }

  /** In particular from the poll on that learned the latest ledger. */
  lemma ExactlyOnceFromStart(client: Client, log: seq<RawEvent>, first: nat, actions: seq<Action>)
    requires Ordered(log) && CallbackSafe(client, log)
    requires HonestRun(client, log, Started(Fresh, Some(first)), actions)
    requires !Run(client, Started(Fresh, Some(first)), actions).stopped
    ensures var s, t := Started(Fresh, Some(first)), Run(client, Started(Fresh, Some(first)), actions);
            && Ordered(t.delivered)
            && (t.delivered == Wanted(client, log, first, t.cursor) <==> NothingCutOff(client, log, s, actions))
  {
    hide Run, HonestRun, CallbackSafe;
    var s := Started(Fresh, Some(first));
    assert Window(log, first, first) == [];
    assert Invariant(client, log, s);
    RunKeepsInvariant(client, log, s, actions);
    ExactlyOnceIff(client, log, s, actions, first);
  }

  /** A subscription that wants everything and starts at ledger 5, where 101 events lie: the
      first poll delivers a hundred of them and moves on to ledger 6. */
  lemma HundredAndFirstIsLost()
    ensures var client, log := Client(_ => true, _ => Returns), Busy();
            var s, a := Started(Fresh, Some(5)), Action.Poll(Some(5), Some(Answer(log[..100], 5)), false);
            && Ordered(log) && HonestStep(log, s, a)
            && Step(client, s, a) == State(6, true, false, log[..100])
            && Wanted(client, log, 5, 6) == log && CutOff(client, log, s, a) == [log[100]]
  {
    hide Keep, Ordered, CountBefore, OfferAll;
    var client, log := Client(_ => true, _ => Returns), Busy();
    OrderedPairs(log);
    CountBeforeSplits(log, 5);
    CountBeforeSplits(log, 6);
    assert log[0].ledger == log[100].ledger == 5;
    assert Window(log, 5, 6) == log;
    forall part | part == log || part == log[..100] || part == log[100..]
      ensures Keep(Decodes, part) == part && Keep(client.accepts, part) == part
    {
      KeepAll(Decodes, part);
      KeepAll(client.accepts, part);
    }
    OfferAllReturn(client, Started(Fresh, Some(5)), log[..100]);
    assert [] + log[..100] == log[..100];
    assert log[100..] == [log[100]];
  }

  function Busy(): seq<RawEvent> { seq(101, i requires 0 <= i < 101 => Event(i, 5, Raw(true, "VoteCast"))) }

  /** What a window holds beyond 100 events is lost: the poll moves the cursor behind it. */
  lemma LargeWindowLosesRest(client: Client, log: seq<RawEvent>, s: State, a: Action, actions: seq<Action>, e: RawEvent)
    requires Ordered(log) && CallbackSafe(client, log) && Invariant(client, log, s) && HonestStep(log, s, a)
    requires Answered(s, a)
    requires e in BeyondHundred(Window(log, Started(s, a.latest).cursor, a.answer.value.latestLedger + 1))
    requires HonestRun(client, log, Step(client, s, a), actions)
    ensures e !in Run(client, Step(client, s, a), actions).delivered
  {
    hide Keep, Ordered, CountBefore, Window, OfferAll, Run, HonestRun, CallbackSafe;
    var u := Started(s, a.latest).(stopped := a.stoppedMeanwhile);
    var c, stop := u.cursor, a.answer.value.latestLedger + 1;
    var w := Window(log, c, stop);
    var t := Step(client, s, a);
    StepKeepsInvariant(client, log, s, a);
    AnsweredPage(log, c, a.answer.value);
    SafePage(client, log, u, a.answer.value);
    var page := FetchEvents(a.answer.value, c).events;
    OfferAllDelivers(client, u, page);
    WindowInOrder(log, c, stop, w);
    NotAmongFirst(w, 100, e);
    KeepMembers(Decodes, w[..100]);
    assert e in w;
    WindowMembers(log, c, stop, e);
    OnlyFromPage(client, u, page, e);
    BehindCursorIsLost(client, log, t, actions, e);
  }

  /** An event that was neither delivered before nor is on the page is not delivered. */
  lemma OnlyFromPage(client: Client, s: State, page: seq<RawEvent>, e: RawEvent)
    requires Ordered(page) && !OfferAll(client, s, page).1 && e !in s.delivered && e !in page
    ensures e !in OfferAll(client, s, page).0.delivered
  {
    hide OfferAll;
    var more := PageDeliveries(client, s, page);
  }

  /** What comes later in an ordered list is not among its first n. */
  lemma NotAmongFirst(w: seq<RawEvent>, n: nat, e: RawEvent)
    requires Ordered(w) && n <= |w| && e in w[n..]
    ensures e !in w[..n]
  {
    OrderedPairs(w);
    var i :| 0 <= i < |w| - n && w[n..][i] == e;
    forall j | 0 <= j < n ensures w[..n][j] != e {
      assert w[j].id < w[n + i].id;
    }
  }

  // ---------------------------------------------------------------- failures and unsubscription

  /** A poll that gets no answer delivers nothing, and whoever unsubscribed meanwhile stays
      unsubscribed. Otherwise it leaves the subscription as it was, with one exception: the
      first poll that learns the latest ledger but fails to fetch pins the cursor there. */
  lemma FailedPollIff(client: Client, s: State, a: Action)
    requires a.Poll? && !Answered(s, a)
    ensures var t, stopped := Step(client, s, a), s.stopped || a.stoppedMeanwhile;
            && t.delivered == s.delivered && t.stopped == stopped
            && (t == s.(stopped := stopped) <==> s.stopped || s.initialized || a.latest.None?)
  {
  }

  /** Once stopped, nothing is delivered any more, whatever polls are still under way. */
  lemma {:induction false} StoppedForGood(client: Client, s: State, actions: seq<Action>)
    ensures s.stopped ==> Run(client, s, actions) == s
    decreases |actions|
  {
    if actions != [] {
      StoppedForGood(client, Step(client, s, actions[0]), actions[1..]);
    }
  }

  /** A throw keeps the cursor, so the next poll with the same answer hands over again what the
      page delivered before. */
  lemma ThrowRedelivers(client: Client, s: State, answer: Answer, i: nat)
    requires s.initialized && !s.stopped && ThrowsAt(client, FetchEvents(answer, s.cursor).events, i)
    ensures var a := Action.Poll(None, Some(answer), false);
            var kept := Keep(client.accepts, FetchEvents(answer, s.cursor).events[..i + 1]);
            && kept != []
            && Step(client, s, a) == s.(delivered := s.delivered + kept)
            && Run(client, s, [a, a]) == s.(delivered := s.delivered + kept + kept)
  {
    hide Keep, OfferAll;
    var a := Action.Poll(None, Some(answer), false);
    var page := FetchEvents(answer, s.cursor).events;
    var kept := Keep(client.accepts, page[..i + 1]);
    KeepMembers(client.accepts, page[..i + 1]);
    assert page[..i + 1][i] == page[i];
    assert page[i] in page[..i + 1];
    OfferUpToThrow(client, s, page, i);
    var t := s.(delivered := s.delivered + kept);
    assert Step(client, s, a) == t;
    OfferUpToThrow(client, t, page, i);
    assert [a, a][1..] == [a] && [a][1..] == [];
    assert Run(client, Step(client, t, a), []) == Step(client, t, a);
  }
}
