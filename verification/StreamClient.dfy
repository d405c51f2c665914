/** The event stream of the SDK: a socket with reconnection, a polling fallback, and an
    unsubscribe function, driven by callbacks of the runtime.

    The state holds the client's closure variables and, next to them, what the runtime has
    alive: polling intervals, reconnect timeouts, sockets, polls that wait for an answer. */
module StreamClient {
  import opened Options

  // ---------------------------------------------------------------- events and the filter

  datatype EventType =
    | ProposalCreated | VoteCast | ProposalQueued | ProposalExecuted | ProposalCancelled
    | Other(name: string)

  /** A field of the event data that may be missing or null. */
  datatype Field = Absent | Null | Text(text: string)

  datatype IndexerEvent = IndexerEvent(kind: EventType, proposalId: Field, id: Field, streamId: Field)

  datatype Filter = Filter(types: Option<seq<EventType>>, proposalId: Option<string>,
                           streamId: Option<string>, state: Option<string>)

  function AsString(f: Field): string {
    match f
    case Absent => "undefined"
    case Null => "null"
    case Text(text) => text
  }

  /** The proposal state an event type implies, if any. */
  function StateHint(kind: EventType): Option<string> {
    match kind
    case ProposalCreated => Some("Pending")
    case VoteCast => Some("Active")
    case ProposalQueued => Some("Queued")
    case ProposalExecuted => Some("Executed")
    case ProposalCancelled => Some("Cancelled")
    case Other(_) => None
  }

  predicate Matches(f: Filter, e: IndexerEvent) {
    && (f.types.Some? && f.types.value != [] ==> e.kind in f.types.value)
    && (f.proposalId.Some? ==>
          AsString(if e.proposalId.Text? then e.proposalId else e.id) == f.proposalId.value)
    && (f.streamId.Some? ==> AsString(e.streamId) == f.streamId.value)
    && (f.state.Some? ==> StateHint(e.kind) == f.state)
  }

  /** What the handler does with an event, besides taking it. */
  datatype Effect = Returns | Unsubscribes | Throws

  /** The fixed options of a stream: the filter, whether fetch exists, the handler. */
  datatype Setup = Setup(filter: Filter, hasFetch: bool, effect: IndexerEvent -> Effect)

  // ---------------------------------------------------------------- states and callbacks

  datatype State = State(
    stopped: bool, ws: Option<nat>, reconnectTimer: Option<nat>, pollTimer: Option<nat>, usingPolling: bool,
    intervals: set<nat>, timeouts: set<nat>, sockets: set<nat>, lingering: set<nat>, polls: nat, next: nat,
    delivered: seq<IndexerEvent>)

  const Initial: State := State(false, None, None, None, false, {}, {}, {}, {}, 0, 0, [])

  /** What asking the runtime for a socket gives. */
  datatype Attempt = Unavailable | ConstructorThrows | Created

  datatype Callback =
    | Open(socket: nat)
    | Message(socket: nat, event: Option<IndexerEvent>)
    | Closed(socket: nat)
    | TimeoutFires(timer: nat, attempt: Attempt)
    | IntervalFires(timer: nat)
    | PollAnswered(proposals: seq<IndexerEvent>)
    | PollFailed
    | Unsubscribe

  /** What the runtime can do in a state. A socket the client closed may still open or deliver
      messages, but its close handler is gone. A poll is answered with proposals, as events;
      those that an earlier poll has already seen are not among them. */
  predicate Enabled(s: State, c: Callback) {
    match c
    case Open(socket) => socket in s.sockets + s.lingering
    case Message(socket, _) => socket in s.sockets + s.lingering
    case Closed(socket) => socket in s.sockets
    case TimeoutFires(timer, _) => timer in s.timeouts
    case IntervalFires(timer) => timer in s.intervals
    case PollAnswered(proposals) => 0 < s.polls && forall p :: p in proposals ==> p.kind.ProposalCreated?
    case PollFailed => 0 < s.polls
    case Unsubscribe => true
  }

  // ---------------------------------------------------------------- what a callback does

  function StopPolling(s: State): State {
    match s.pollTimer
    case None => s
    case Some(timer) => s.(intervals := s.intervals - {timer}, pollTimer := None)
  }

  function StartPoll(s: State): State {
    if s.stopped then s else s.(polls := s.polls + 1)
  }

  function StartPolling(setup: Setup, s: State): State {
    if !setup.hasFetch || s.usingPolling then s
    else
      var t := StartPoll(s.(usingPolling := true));
      t.(intervals := t.intervals + {t.next}, pollTimer := Some(t.next), next := t.next + 1)
  }

  function Connect(setup: Setup, s: State, attempt: Attempt): State {
    if s.stopped then s
    else if !attempt.Created? then StartPolling(setup, s)
    else s.(ws := Some(s.next), sockets := s.sockets + {s.next}, next := s.next + 1)
  }

  function StopAll(s: State): State {
    var t := s.(stopped := true);
    var u := if t.reconnectTimer.Some? then t.(timeouts := t.timeouts - {t.reconnectTimer.value}) else t;
    var v := StopPolling(u);
    match v.ws
    case None => v
    case Some(socket) =>
      v.(sockets := v.sockets - {socket}, lingering := v.lingering + {socket}, ws := None)
  }

  /** Handing one event to the handler; the flag says that it threw. */
  function Deliver(setup: Setup, s: State, e: IndexerEvent): (State, bool) {
    if !Matches(setup.filter, e) then (s, false)
    else
      var t := s.(delivered := s.delivered + [e]);
      match setup.effect(e)
      case Returns => (t, false)
      case Unsubscribes => (StopAll(t), false)
      case Throws => (t, true)
  }

  function DeliverAll(setup: Setup, s: State, events: seq<IndexerEvent>): (State, bool) {
    if events == [] then (s, false)
    else
      var (t, threw) := DeliverAll(setup, s, events[..|events| - 1]);
      if threw then (t, true) else Deliver(setup, t, events[|events| - 1])
  }

  function Step(setup: Setup, s: State, c: Callback): State {
    match c
    case Open(_) => StopPolling(s).(usingPolling := false)
    case Message(_, None) => s
    case Message(_, Some(e)) => Deliver(setup, s, e).0
    case Closed(socket) =>
      var t := s.(sockets := s.sockets - {socket}, ws := None);
      if t.stopped then t
      else
        var u := StartPolling(setup, t);
        u.(timeouts := u.timeouts + {u.next}, reconnectTimer := Some(u.next), next := u.next + 1)
    case TimeoutFires(timer, attempt) =>
      var t := s.(timeouts := s.timeouts - {timer});
      if t.stopped then t else Connect(setup, StopPolling(t).(usingPolling := false), attempt)
    case IntervalFires(_) => StartPoll(s)
    case PollAnswered(proposals) =>
      DeliverAll(setup, s.(polls := if 0 < s.polls then s.polls - 1 else 0), proposals).0
    case PollFailed => s.(polls := if 0 < s.polls then s.polls - 1 else 0)
    case Unsubscribe => StopAll(s)
  }

  ghost predicate EnabledRun(setup: Setup, s: State, cs: seq<Callback>)
    decreases |cs|
  {
    cs != [] ==> Enabled(s, cs[0]) && EnabledRun(setup, Step(setup, s, cs[0]), cs[1..])
  }

  function Run(setup: Setup, s: State, cs: seq<Callback>): State
    decreases |cs|
  {
    if cs == [] then s else Run(setup, Step(setup, s, cs[0]), cs[1..])
  }

  // ---------------------------------------------------------------- the invariant

  /** What every reachable state satisfies. */
  ghost predicate Invariant(setup: Setup, s: State) {
    // the variables know what is alive: at most one interval, one socket, one pending timeout
    && s.intervals == (if s.pollTimer.Some? then {s.pollTimer.value} else {})
    && s.sockets == (if s.ws.Some? then {s.ws.value} else {})
    && (s.timeouts == {} || (s.reconnectTimer.Some? && s.timeouts == {s.reconnectTimer.value}))
    // a held socket excludes polling and a pending reconnect
    && (s.sockets != {} ==> s.intervals == {} && s.timeouts == {})
    // after unsubscribing nothing is alive
    && (s.stopped ==> s.sockets == {} && s.intervals == {} && s.timeouts == {})
    // before, something is: a socket, or the polling fallback where fetch exists
    && (!s.stopped ==> (s.usingPolling <==> s.pollTimer.Some?))
    && (!s.stopped && setup.hasFetch ==> s.sockets != {} || s.intervals != {})
    && (!s.stopped ==> s.lingering == {})
    // the handler only ever saw matching events
    && (forall e :: e in s.delivered ==> Matches(setup.filter, e))
  }

  lemma StopAllKeepsInvariant(setup: Setup, s: State)
    requires Invariant(setup, s)
    ensures Invariant(setup, StopAll(s)) && StopAll(s).next == s.next && StopAll(s).delivered == s.delivered
    ensures s.stopped ==> StopAll(s) == s
  {
  }

  lemma DeliverKeepsInvariant(setup: Setup, s: State, e: IndexerEvent)
    requires Invariant(setup, s)
    ensures Invariant(setup, Deliver(setup, s, e).0)
    ensures Deliver(setup, s, e).0.next == s.next
    ensures s.stopped ==> Deliver(setup, s, e).0 == s.(delivered := Deliver(setup, s, e).0.delivered)
  {
    hide StopAll, Matches;
    if Matches(setup.filter, e) {
      StopAllKeepsInvariant(setup, s.(delivered := s.delivered + [e]));
    }
  }

  lemma {:induction false} DeliverAllKeepsInvariant(setup: Setup, s: State, events: seq<IndexerEvent>)
    requires Invariant(setup, s)
    ensures Invariant(setup, DeliverAll(setup, s, events).0)
    ensures DeliverAll(setup, s, events).0.next == s.next
    ensures s.stopped ==> DeliverAll(setup, s, events).0 == s.(delivered := DeliverAll(setup, s, events).0.delivered)
  {
    if events != [] {
      DeliverAllKeepsInvariant(setup, s, events[..|events| - 1]);
      DeliverKeepsInvariant(setup, DeliverAll(setup, s, events[..|events| - 1]).0, events[|events| - 1]);
    }
  }

  lemma StepKeepsInvariant(setup: Setup, s: State, c: Callback)
    requires Invariant(setup, s) && Enabled(s, c)
    ensures Invariant(setup, Step(setup, s, c))
  {
    hide Matches, Deliver, DeliverAll, StopAll;
    match c
    case Unsubscribe => StopAllKeepsInvariant(setup, s);
    case Message(_, Some(e)) => DeliverKeepsInvariant(setup, s, e);
    case PollAnswered(proposals) => DeliverAllKeepsInvariant(setup, s.(polls := s.polls - 1), proposals);
    case _ =>
  }

  /** Whatever the runtime does, in whatever order: the invariant holds in every state that can
      be reached from a fresh stream. */
  lemma {:induction false} RunKeepsInvariant(setup: Setup, s: State, cs: seq<Callback>)
    requires Invariant(setup, s) && EnabledRun(setup, s, cs)
    ensures Invariant(setup, Run(setup, s, cs))
    decreases |cs|
  {
    if cs != [] {
      StepKeepsInvariant(setup, s, cs[0]);
      RunKeepsInvariant(setup, Step(setup, s, cs[0]), cs[1..]);
    }
  }

  // ---------------------------------------------------------------- what the handler is given

  /** A message hands over its event exactly if each of the four parts of the filter that is set
      lets it through; stopped or not. */
  lemma MessageDelivers(setup: Setup, s: State, socket: nat, e: IndexerEvent)
    ensures var f, kind, hint := setup.filter, e.kind, setup.filter.state;
            var id := if e.proposalId.Text? then e.proposalId else e.id;
            var passes :=
              && (f.types.None? || f.types.value == [] || kind in f.types.value)
              && (f.proposalId.None?
                  || f.proposalId.value == match id case Text(t) => t case Null => "null" case Absent => "undefined")
              && (f.streamId.None?
                  || f.streamId.value == match e.streamId case Text(t) => t case Null => "null" case Absent => "undefined")
              && (hint.None?
                  || (kind.ProposalCreated? && hint.value == "Pending") || (kind.VoteCast? && hint.value == "Active")
                  || (kind.ProposalQueued? && hint.value == "Queued") || (kind.ProposalExecuted? && hint.value == "Executed")
                  || (kind.ProposalCancelled? && hint.value == "Cancelled"));
            && (passes <==> Matches(f, e))
            && Step(setup, s, Message(socket, Some(e))).delivered == s.delivered + if passes then [e] else []
  {
    DeliverAppends(setup, s, e);
  }

  lemma DeliverAppends(setup: Setup, s: State, e: IndexerEvent)
    ensures var (t, threw) := Deliver(setup, s, e);
            && t.delivered == s.delivered + (if Matches(setup.filter, e) then [e] else [])
            && (threw <==> Matches(setup.filter, e) && setup.effect(e).Throws?)
            && (t.stopped <==> s.stopped || (Matches(setup.filter, e) && setup.effect(e).Unsubscribes?))
  {
    hide Matches;
    assert s.delivered + [] == s.delivered;
  }

  /** The events that match, in order. */
  function Matching(f: Filter, events: seq<IndexerEvent>): seq<IndexerEvent> {
    if events == [] then []
    else Matching(f, events[..|events| - 1]) + if Matches(f, events[|events| - 1]) then [events[|events| - 1]] else []
  }

  /** A matching event whose handler throws. */
  predicate Fatal(setup: Setup, e: IndexerEvent) { Matches(setup.filter, e) && setup.effect(e).Throws? }

  /** The loop over n of the events ends: all are done, or the last one's handler throws and none
      before it did. */
  ghost predicate EndsAfter(setup: Setup, events: seq<IndexerEvent>, n: nat) {
    && n <= |events|
    && (forall i :: 0 <= i < n - 1 ==> !Fatal(setup, events[i]))
    && (n < |events| ==> 0 < n && Fatal(setup, events[n - 1]))
  }

  ghost predicate OneUnsubscribes(setup: Setup, handed: seq<IndexerEvent>) {
    exists e :: e in handed && setup.effect(e).Unsubscribes?
  }

  lemma OneMore(setup: Setup, handed: seq<IndexerEvent>, e: IndexerEvent)
    ensures OneUnsubscribes(setup, handed + [e]) <==> OneUnsubscribes(setup, handed) || setup.effect(e).Unsubscribes?
  {
    if setup.effect(e).Unsubscribes? {
      assert e in handed + [e];
    }
    if OneUnsubscribes(setup, handed) {
      var x :| x in handed && setup.effect(x).Unsubscribes?;
      assert x in handed + [e];
    }
  }

  /** An answered poll hands over the matching proposals, in order, up to and including the first
      whose handler throws; stopped or not. It leaves the stream stopped exactly if it was, or a
      handler that was called unsubscribed. */
  lemma PollDelivers(setup: Setup, s: State, proposals: seq<IndexerEvent>) returns (n: nat)
    ensures EndsAfter(setup, proposals, n)
    ensures var t := Step(setup, s, PollAnswered(proposals));
            && t.delivered == s.delivered + Matching(setup.filter, proposals[..n])
            && (t.stopped <==> s.stopped || OneUnsubscribes(setup, Matching(setup.filter, proposals[..n])))
  {
    n := DeliverAllAppends(setup, s.(polls := if 0 < s.polls then s.polls - 1 else 0), proposals);
  }

  lemma {:induction false} DeliverAllAppends(setup: Setup, s: State, events: seq<IndexerEvent>) returns (n: nat)
    ensures EndsAfter(setup, events, n)
    ensures var (t, threw) := DeliverAll(setup, s, events);
            && t.delivered == s.delivered + Matching(setup.filter, events[..n])
            && (threw <==> 0 < n && Fatal(setup, events[n - 1]))
            && (t.stopped <==> s.stopped || OneUnsubscribes(setup, Matching(setup.filter, events[..n])))
  {
    hide Matches, Deliver, OneUnsubscribes, Matching;
    if events == [] {
      n := 0;
      NoneMatching(setup);
    } else {
      var front := events[..|events| - 1];
      n := DeliverAllAppends(setup, s, front);
      assert events[..n] == front[..n];
      if !DeliverAll(setup, s, front).1 {
        assert front[..n] == front;
        OneDelivered(setup, s, DeliverAll(setup, s, front).0, front, events[|events| - 1]);
        assert events == front + [events[|events| - 1]] && events[..|events|] == events;
        n := |events|;
      }
    }
  }

  lemma OneDelivered(setup: Setup, s: State, t: State, front: seq<IndexerEvent>, e: IndexerEvent)
    requires t.delivered == s.delivered + Matching(setup.filter, front)
    requires t.stopped <==> s.stopped || OneUnsubscribes(setup, Matching(setup.filter, front))
    ensures var u, handed := Deliver(setup, t, e).0, Matching(setup.filter, front + [e]);
            && u.delivered == s.delivered + handed
            && (u.stopped <==> s.stopped || OneUnsubscribes(setup, handed))
            && (Deliver(setup, t, e).1 <==> Fatal(setup, e))
  {
    hide Matches, Deliver, OneUnsubscribes, Matching;
    var handed := Matching(setup.filter, front);
    DeliverAppends(setup, t, e);
    MatchingSnoc(setup.filter, front, e);
    OneMore(setup, handed, e);
    if Matches(setup.filter, e) {
      assert s.delivered + handed + [e] == s.delivered + (handed + [e]);
    } else {
      assert handed + [] == handed && t.delivered + [] == t.delivered;
    }
  }

  lemma NoneMatching(setup: Setup)
    ensures Matching(setup.filter, []) == [] && !OneUnsubscribes(setup, [])
  {
  }

  lemma MatchingSnoc(f: Filter, events: seq<IndexerEvent>, e: IndexerEvent)
    ensures Matching(f, events + [e]) == Matching(f, events) + if Matches(f, e) then [e] else []
  {
    assert (events + [e])[..|events|] == events;
  }

  /** How far the loop over the proposals of a poll gets. */
  ghost function Until(setup: Setup, events: seq<IndexerEvent>): nat {
    if n: nat :| EndsAfter(setup, events, n) then n else 0
  }

  lemma EndsOnce(setup: Setup, events: seq<IndexerEvent>, m: nat, n: nat)
    requires EndsAfter(setup, events, m) && EndsAfter(setup, events, n)
    ensures m == n
  {
    hide Fatal;
  }

  /** What a callback hands over, whatever the state. */
  ghost function HandedOver(setup: Setup, c: Callback): seq<IndexerEvent> {
    match c
    case Message(_, Some(e)) => Matching(setup.filter, [e])
    case PollAnswered(proposals) =>
      var n := Until(setup, proposals);
      if n <= |proposals| then Matching(setup.filter, proposals[..n]) else []
    case _ => []
  }

  ghost function AllHandedOver(setup: Setup, cs: seq<Callback>): seq<IndexerEvent>
    decreases |cs|
  {
    if cs == [] then [] else HandedOver(setup, cs[0]) + AllHandedOver(setup, cs[1..])
  }

  lemma StepDelivers(setup: Setup, s: State, c: Callback)
    ensures Step(setup, s, c).delivered == s.delivered + HandedOver(setup, c)
  {
    hide Matches, Deliver, DeliverAll, EndsAfter;
    match c
    case Message(_, Some(e)) =>
      MatchingSnoc(setup.filter, [], e);
      assert [] + [e] == [e];
      DeliverAppends(setup, s, e);
    case PollAnswered(proposals) =>
      var n := PollDelivers(setup, s, proposals);
      assert EndsAfter(setup, proposals, n);
      EndsOnce(setup, proposals, n, Until(setup, proposals));
    case Unsubscribe => assert s.delivered + [] == s.delivered;
    case _ => assert s.delivered + [] == s.delivered;
  }

  /** Over every run the handler is given exactly what the callbacks hand over, one after the
      other. */
  lemma {:induction false} RunDelivers(setup: Setup, s: State, cs: seq<Callback>)
    ensures Run(setup, s, cs).delivered == s.delivered + AllHandedOver(setup, cs)
    decreases |cs|
  {
    hide Step, HandedOver;
    if cs != [] {
      StepDelivers(setup, s, cs[0]);
      RunDelivers(setup, Step(setup, s, cs[0]), cs[1..]);
      var now, later := HandedOver(setup, cs[0]), AllHandedOver(setup, cs[1..]);
      assert s.delivered + now + later == s.delivered + (now + later);
    } else {
      assert s.delivered + [] == s.delivered;
    }
  }

  /** When the stream asks the server: at every interval, and whenever polling begins, because a
      socket closes or none can be had. A poll waits until it is answered or fails. */
  lemma PollsAfter(setup: Setup, s: State, c: Callback)
    requires Invariant(setup, s) && Enabled(s, c)
    ensures var t := Step(setup, s, c);
            match c
            case IntervalFires(_) => t.polls == s.polls + 1
            case Closed(_) => t.polls == s.polls + (if !s.stopped && setup.hasFetch then 1 else 0)
            case TimeoutFires(_, attempt) => t.polls == s.polls + (if !attempt.Created? && setup.hasFetch then 1 else 0)
            case PollAnswered(_) => t.polls == s.polls - 1
            case PollFailed => t.polls == s.polls - 1
            case _ => t.polls == s.polls
  {
    hide Matches, Deliver, DeliverAll;
    match c
    case Message(_, Some(e)) => DeliverPolls(setup, s, e);
    case PollAnswered(proposals) => DeliverAllPolls(setup, s.(polls := s.polls - 1), proposals);
    case _ =>
  }

  lemma DeliverPolls(setup: Setup, s: State, e: IndexerEvent)
    ensures Deliver(setup, s, e).0.polls == s.polls
  {
    hide Matches;
  }

  lemma {:induction false} DeliverAllPolls(setup: Setup, s: State, events: seq<IndexerEvent>)
    ensures DeliverAll(setup, s, events).0.polls == s.polls
  {
    hide Deliver;
    if events != [] {
      DeliverAllPolls(setup, s, events[..|events| - 1]);
      DeliverPolls(setup, DeliverAll(setup, s, events[..|events| - 1]).0, events[|events| - 1]);
    }
  }

  // ---------------------------------------------------------------- after unsubscribing

  lemma StoppedStep(setup: Setup, s: State, c: Callback)
    requires Invariant(setup, s) && Enabled(s, c) && s.stopped
    ensures var t := Step(setup, s, c);
            && t.stopped && t.next == s.next && t.lingering == s.lingering && t.polls <= s.polls
  {
    match c
    case Message(_, Some(e)) => DeliverKeepsInvariant(setup, s, e);
    case PollAnswered(proposals) => DeliverAllKeepsInvariant(setup, s.(polls := s.polls - 1), proposals);
    case _ =>
  }

  /** From any reachable state, after unsubscribing and under any later callbacks, no interval,
      timeout or socket is alive, and none has been created since. */
  lemma {:induction false} UnsubscribedForGood(setup: Setup, s: State, cs: seq<Callback>)
    requires Invariant(setup, s) && s.stopped && EnabledRun(setup, s, cs)
    ensures var t := Run(setup, s, cs);
            t.intervals == {} && t.timeouts == {} && t.sockets == {} && t.next == s.next && t.stopped
    decreases |cs|
  {
    if cs != [] {
      StoppedStep(setup, s, cs[0]);
      StepKeepsInvariant(setup, s, cs[0]);
      UnsubscribedForGood(setup, Step(setup, s, cs[0]), cs[1..]);
    }
  }

  /** The handler is not silenced at once, though: a poll that was waiting for its answer, and
      a closing socket, still hand over events. After unsubscribing, nothing is delivered any
      more, however the run goes on, exactly if no poll is waiting that could bring a matching
      event, and no closing socket. */
  lemma SilentIff(setup: Setup, s: State)
    requires Invariant(setup, s) && s.stopped
    ensures (forall cs :: EnabledRun(setup, s, cs) ==> Run(setup, s, cs).delivered == s.delivered) <==> Mute(setup, s)
  {
    hide Matches, Invariant, Run, EnabledRun, Mute;
    if Mute(setup, s) {
      forall cs | EnabledRun(setup, s, cs) ensures Run(setup, s, cs).delivered == s.delivered {
        StaysMute(setup, s, cs);
      }
    } else {
      var c := LateDelivery(setup, s);
      OneCallback(setup, s, c);
    }
  }

  lemma NoCallback(setup: Setup, s: State, none: seq<Callback>)
    requires none == []
    ensures EnabledRun(setup, s, none) && Run(setup, s, none) == s
  {
  }

  lemma OneCallback(setup: Setup, s: State, c: Callback)
    requires Enabled(s, c)
    ensures EnabledRun(setup, s, [c]) && Run(setup, s, [c]) == Step(setup, s, c)
  {
    hide Step;
    var t := Step(setup, s, c);
    assert [c][1..] == [];
    assert EnabledRun(setup, t, []) && Run(setup, t, []) == t;
  }

  /** No poll is waiting that could bring a matching event, and no socket is closing that could. */
  ghost predicate Mute(setup: Setup, s: State) {
    && (s.polls == 0 || forall e: IndexerEvent :: e.kind.ProposalCreated? ==> !Matches(setup.filter, e))
    && (s.lingering == {} || forall e :: !Matches(setup.filter, e))
  }

  lemma {:induction false} StaysMute(setup: Setup, s: State, cs: seq<Callback>)
    requires Invariant(setup, s) && s.stopped && Mute(setup, s) && EnabledRun(setup, s, cs)
    ensures Run(setup, s, cs).delivered == s.delivered
    decreases |cs|
  {
    hide Matches, Step, Invariant, Enabled;
    if cs != [] {
      StoppedStep(setup, s, cs[0]);
      StepKeepsInvariant(setup, s, cs[0]);
      MuteStep(setup, s, cs[0]);
      StaysMute(setup, Step(setup, s, cs[0]), cs[1..]);
    }
  }

  lemma MuteStep(setup: Setup, s: State, c: Callback)
    requires Invariant(setup, s) && s.stopped && Mute(setup, s) && Enabled(s, c)
    ensures Step(setup, s, c).delivered == s.delivered
  {
    hide Matches;
    match c
    case PollAnswered(proposals) => NothingMatches(setup, s.(polls := s.polls - 1), proposals);
    case _ =>
  }

  lemma {:induction false} NothingMatches(setup: Setup, s: State, events: seq<IndexerEvent>)
    requires forall i :: 0 <= i < |events| ==> !Matches(setup.filter, events[i])
    ensures DeliverAll(setup, s, events).0.delivered == s.delivered
  {
    hide Matches;
    if events != [] {
      NothingMatches(setup, s, events[..|events| - 1]);
    }
  }

  /** Otherwise one callback is enough. */
  lemma LateDelivery(setup: Setup, s: State) returns (c: Callback)
    requires Invariant(setup, s) && s.stopped && !Mute(setup, s)
    ensures Enabled(s, c) && Step(setup, s, c).delivered != s.delivered
  {
    hide Matches;
    if s.lingering != {} && exists e :: Matches(setup.filter, e) {
      var e :| Matches(setup.filter, e);
      var socket :| socket in s.lingering;
      c := Message(socket, Some(e));
      assert Step(setup, s, c).delivered == s.delivered + [e];
    } else {
      var e: IndexerEvent :| e.kind.ProposalCreated? && Matches(setup.filter, e);
      c := PollAnswered([e]);
      assert [e][..0] == [];
      assert DeliverAll(setup, s.(polls := s.polls - 1), [e][..0]) == (s.(polls := s.polls - 1), false);
      assert Step(setup, s, c).delivered == s.delivered + [e];
    }
  }

  /** Which polls and sockets those are is fixed at the moment of unsubscribing: the socket
      held then, and the polls waiting then. */
  lemma UnsubscribeLeaves(setup: Setup, s: State)
    requires Invariant(setup, s) && !s.stopped
    ensures var t := Step(setup, s, Unsubscribe);
            t.stopped && t.polls == s.polls && t.lingering == s.sockets
  {
  }

  /** From a fresh stream: it connects, is unsubscribed, and its closing socket still brings any
      event that the filter lets through. */
  lemma DeliversAfterUnsubscribing(setup: Setup, e: IndexerEvent)
    requires Matches(setup.filter, e)
    ensures var s, cs := Connect(setup, Initial, Created), [Unsubscribe, Message(0, Some(e))];
            EnabledRun(setup, s, cs) && Step(setup, s, Unsubscribe).stopped && Run(setup, s, cs).delivered == [e]
  {
    hide Matches;
    var s := Connect(setup, Initial, Created);
    var t := Step(setup, s, Unsubscribe);
    assert t.stopped && t.lingering == {0} && t.delivered == [];
    var c := Message(0, Some(e));
    assert StopAll(t.(delivered := [e])).delivered == [e];
    assert Step(setup, t, c).delivered == [e];
    OneCallback(setup, t, c);
    assert [Unsubscribe, c][1..] == [c];
  }

  // ---------------------------------------------------------------- reconnection

  /** There can be a socket, now or later, if and only if there is one or a reconnect is pending.
      A stream loses both when the runtime refuses to construct a socket: it then polls for
      good. */
  lemma SocketAgainIff(setup: Setup, s: State)
    requires Invariant(setup, s)
    ensures (exists cs :: EnabledRun(setup, s, cs) && Run(setup, s, cs).sockets != {}) <==> s.sockets != {} || s.timeouts != {}
  {
    hide Matches, Run, EnabledRun;
    if s.sockets != {} {
      var none: seq<Callback> := [];
      NoCallback(setup, s, none);
    } else if s.timeouts != {} {
      var timer :| timer in s.timeouts;
      var c := TimeoutFires(timer, Created);
      var t := Step(setup, s, c);
      assert t.ws.value in t.sockets;
      OneCallback(setup, s, c);
    } else {
      forall cs | EnabledRun(setup, s, cs) ensures Run(setup, s, cs).sockets == {} {
        NoSocketAgain(setup, s, cs);
      }
    }
  }

  /** From a fresh stream: the socket closes, constructing the next one fails, and from then on
      the stream polls without ever trying again. */
  lemma OneFailedReconnect(setup: Setup, later: seq<Callback>)
    requires setup.hasFetch
    ensures var s, cs := Connect(setup, Initial, Created), [Closed(0), TimeoutFires(2, ConstructorThrows)];
            var t := Run(setup, s, cs);
            && EnabledRun(setup, s, cs) && !t.stopped && t.usingPolling
            && (EnabledRun(setup, t, later) ==> Run(setup, t, later).sockets == {})
  {
    hide Matches;
    var s := Connect(setup, Initial, Created);
    var t := Step(setup, s, Closed(0));
    var c := TimeoutFires(2, ConstructorThrows);
    assert Invariant(setup, s);
    assert t.timeouts == {2} && !t.stopped;
    StepKeepsInvariant(setup, s, Closed(0));
    StepKeepsInvariant(setup, t, c);
    OneCallback(setup, t, c);
    assert [Closed(0), c][1..] == [c];
    if EnabledRun(setup, Step(setup, t, c), later) {
      NoSocketAgain(setup, Step(setup, t, c), later);
    }
  }

  lemma {:induction false} NoSocketAgain(setup: Setup, s: State, cs: seq<Callback>)
    requires Invariant(setup, s) && s.sockets == {} && s.timeouts == {} && EnabledRun(setup, s, cs)
    ensures Run(setup, s, cs).sockets == {} && Run(setup, s, cs).timeouts == {}
    decreases |cs|
  {
    if cs != [] {
      NoSocketStep(setup, s, cs[0]);
      StepKeepsInvariant(setup, s, cs[0]);
      NoSocketAgain(setup, Step(setup, s, cs[0]), cs[1..]);
    }
  }

  lemma NoSocketStep(setup: Setup, s: State, c: Callback)
    requires Invariant(setup, s) && s.sockets == {} && s.timeouts == {} && Enabled(s, c)
    ensures Step(setup, s, c).sockets == {} && Step(setup, s, c).timeouts == {}
  {
    if c.PollAnswered? {
      DeliverAllQuiet(setup, s.(polls := s.polls - 1), c.proposals);
    }
  }

  lemma {:induction false} DeliverAllQuiet(setup: Setup, s: State, events: seq<IndexerEvent>)
    requires Invariant(setup, s) && s.sockets == {} && s.timeouts == {}
    ensures var t := DeliverAll(setup, s, events).0; t.sockets == {} && t.timeouts == {}
  {
    if events != [] {
      DeliverAllQuiet(setup, s, events[..|events| - 1]);
      DeliverAllKeepsInvariant(setup, s, events[..|events| - 1]);
    }
  }

  /** A socket that closes is followed by a reconnect: as long as the stream is not stopped,
      one timeout is pending until it fires. */
  lemma ClosedSchedulesReconnect(setup: Setup, s: State, socket: nat)
    requires Invariant(setup, s) && !s.stopped && Enabled(s, Closed(socket))
    ensures var t := Step(setup, s, Closed(socket));
            && |t.timeouts| == 1 && t.sockets == {}
            && forall timer :: timer in t.timeouts ==> Step(setup, t, TimeoutFires(timer, Created)).sockets != {}
  {
    var t := Step(setup, s, Closed(socket));
    forall timer | timer in t.timeouts ensures Step(setup, t, TimeoutFires(timer, Created)).sockets != {} {
      var u := Step(setup, t, TimeoutFires(timer, Created));
      assert u.ws.value in u.sockets;
    }
  }

  // ---------------------------------------------------------------- the object

  /** The stream as an object: the methods are the callbacks, and implement Step. */
  class Stream {
    const setup: Setup
    var stopped: bool
    var ws: Option<nat>
    var reconnectTimer: Option<nat>
    var pollTimer: Option<nat>
    var usingPolling: bool
    var intervals: set<nat>
    var timeouts: set<nat>
    var sockets: set<nat>
    var lingering: set<nat>
    var polls: nat
    var next: nat
    var delivered: seq<IndexerEvent>

    ghost function Abstract(): State
      reads this
    {
      State(stopped, ws, reconnectTimer, pollTimer, usingPolling, intervals, timeouts, sockets, lingering,
            polls, next, delivered)
    }

    constructor (setup: Setup, attempt: Attempt)
      ensures this.setup == setup && Abstract() == Connect(setup, Initial, attempt)
      ensures Invariant(setup, Abstract())
    {
      this.setup := setup;
      stopped, ws, reconnectTimer, pollTimer, usingPolling := false, None, None, None, false;
      intervals, timeouts, sockets, lingering, polls, next, delivered := {}, {}, {}, {}, 0, 0, [];
      new;
      ConnectNow(attempt);
    }

    method StopPollingNow()
      modifies this
      ensures Abstract() == StopPolling(old(Abstract()))
    {
      if pollTimer.Some? {
        intervals := intervals - {pollTimer.value};
        pollTimer := None;
      }
    }

    method StartPollingNow()
      modifies this
      ensures Abstract() == StartPolling(setup, old(Abstract()))
    {
      if !setup.hasFetch || usingPolling { return; }
      usingPolling := true;
      OnInterval();
      intervals, pollTimer, next := intervals + {next}, Some(next), next + 1;
    }

    method ConnectNow(attempt: Attempt)
      modifies this
      ensures Abstract() == Connect(setup, old(Abstract()), attempt)
    {
      if stopped { return; }
      match attempt
      case Unavailable => StartPollingNow();
      case ConstructorThrows => StartPollingNow();
      case Created => ws, sockets, next := Some(next), sockets + {next}, next + 1;
    }

    method OnOpen(ghost socket: nat)
      modifies this
      ensures Abstract() == Step(setup, old(Abstract()), Open(socket))
    {
      StopPollingNow();
      usingPolling := false;
    }

    method OnMessage(ghost socket: nat, event: Option<IndexerEvent>)
      modifies this
      ensures Abstract() == Step(setup, old(Abstract()), Message(socket, event))
    {
      if event.Some? {
        var threw := Handle(event.value);
      }
    }

    method Handle(event: IndexerEvent) returns (threw: bool)
      modifies this
      ensures (Abstract(), threw) == Deliver(setup, old(Abstract()), event)
    {
      threw := false;
      if Matches(setup.filter, event) {
        delivered := delivered + [event];
        match setup.effect(event)
        case Returns =>
        case Unsubscribes => OnUnsubscribe();
        case Throws => threw := true;
      }
    }

    method OnClose(socket: nat)
      modifies this
      ensures Abstract() == Step(setup, old(Abstract()), Closed(socket))
    {
      sockets := sockets - {socket};
      ws := None;
      if stopped { return; }
      StartPollingNow();
      timeouts, reconnectTimer, next := timeouts + {next}, Some(next), next + 1;
    }

    method OnTimeout(timer: nat, attempt: Attempt)
      modifies this
      ensures Abstract() == Step(setup, old(Abstract()), TimeoutFires(timer, attempt))
    {
      timeouts := timeouts - {timer};
      if !stopped {
        StopPollingNow();
        usingPolling := false;
        ConnectNow(attempt);
      }
    }

    method OnInterval()
      modifies this
      ensures Abstract() == StartPoll(old(Abstract()))
    {
      if stopped { return; }
      polls := polls + 1;
    }

    method OnPollAnswered(proposals: seq<IndexerEvent>)
      requires 0 < polls
      modifies this
      ensures Abstract() == Step(setup, old(Abstract()), PollAnswered(proposals))
    {
      polls := polls - 1;
      ghost var before := Abstract();
      for i := 0 to |proposals|
        invariant (Abstract(), false) == DeliverAll(setup, before, proposals[..i])
      {
        assert proposals[..i + 1][..i] == proposals[..i];
        var threw := Handle(proposals[i]);
        if threw {
          ThrowEndsLoop(setup, before, proposals, i + 1);
          return;
        }
      }
      assert proposals[..|proposals|] == proposals;
    }

    method OnUnsubscribe()
      modifies this
      ensures Abstract() == StopAll(old(Abstract()))
    {
      stopped := true;
      if reconnectTimer.Some? {
        timeouts := timeouts - {reconnectTimer.value};
      }
      StopPollingNow();
      if ws.Some? {
        sockets, lingering := sockets - {ws.value}, lingering + {ws.value};
        ws := None;
      }
    }
  }

  lemma {:induction false} ThrowEndsLoop(setup: Setup, s: State, events: seq<IndexerEvent>, n: nat)
    requires n <= |events| && DeliverAll(setup, s, events[..n]).1
    ensures DeliverAll(setup, s, events) == DeliverAll(setup, s, events[..n])
  {
    if n < |events| {
      assert events[..|events| - 1][..n] == events[..n];
      ThrowEndsLoop(setup, s, events[..|events| - 1], n);
    } else {
      assert events[..n] == events;
    }
  }
}
