/** Contract events as a ledger-ordered log, and what a client sees of it page by page.

    The clients of this repository all scan in the same way: ask for events from a ledger on,
    take the page that comes back, and continue at the ledger after the last one seen. */
module EventLog {

  /** An event; ids identify events and follow the order of the log. */
  datatype Event<T> = Event(id: nat, ledger: nat, body: T)

  /** The order of a log: ids go up, ledgers do not go down. */
  ghost predicate Ordered<T>(log: seq<Event<T>>) {
    |log| <= 1 ||
    (Ordered(log[..|log| - 1]) && log[|log| - 2].id < log[|log| - 1].id && log[|log| - 2].ledger <= log[|log| - 1].ledger)
  }

  /** The same for any two positions. */
  ghost predicate PairwiseOrdered<T>(log: seq<Event<T>>) {
    forall i, j :: 0 <= i < j < |log| ==> log[i].id < log[j].id && log[i].ledger <= log[j].ledger
  }

  lemma {:induction false} OrderedPairs<T>(log: seq<Event<T>>)
    ensures Ordered(log) <==> PairwiseOrdered(log)
  {
    if |log| > 1 {
      var t := log[..|log| - 1];
      OrderedPairs(t);
      if Ordered(log) {
        forall i, j | 0 <= i < j < |log| ensures log[i].id < log[j].id && log[i].ledger <= log[j].ledger {
          if j == |log| - 1 && i < j - 1 {
            assert t[i].id < t[j - 1].id && t[i].ledger <= t[j - 1].ledger;
          } else if j < |log| - 1 {
            assert t[i].id < t[j].id && t[i].ledger <= t[j].ledger;
          }
        }
      } else if PairwiseOrdered(log) {
        forall i, j | 0 <= i < j < |t| ensures t[i].id < t[j].id && t[i].ledger <= t[j].ledger {
          assert log[i].id < log[j].id && log[i].ledger <= log[j].ledger;
        }
        assert PairwiseOrdered(t);
      }
    }
  }

  /** The number of leading events below ledger c. */
  function CountBefore<T>(log: seq<Event<T>>, c: nat): (n: nat)
    ensures n <= |log|
  {
    if log == [] || log[|log| - 1].ledger < c then |log| else CountBefore(log[..|log| - 1], c)
  }

  /** In an ordered log the events below c are exactly the first CountBefore(log, c). */
  lemma {:induction false} CountBeforeSplits<T>(log: seq<Event<T>>, c: nat)
    requires Ordered(log)
    ensures forall i :: 0 <= i < |log| ==> (log[i].ledger < c <==> i < CountBefore(log, c))
  {
    OrderedPairs(log);
    if log != [] && log[|log| - 1].ledger >= c {
      var t := log[..|log| - 1];
      CountBeforeSplits(t, c);
      assert forall i :: 0 <= i < |t| ==> t[i] == log[i];
    }
  }

  lemma {:induction false} CountBeforeMonotone<T>(log: seq<Event<T>>, c: nat, d: nat)
    requires c <= d
    ensures CountBefore(log, c) <= CountBefore(log, d)
  {
    if log != [] && log[|log| - 1].ledger >= d {
      CountBeforeMonotone(log[..|log| - 1], c, d);
    }
  }

  /** The events at ledger c and above. */
  function From<T>(log: seq<Event<T>>, c: nat): seq<Event<T>> {
    log[CountBefore(log, c)..]
  }

  /** The events at ledgers c, ..., stop - 1. */
  function Window<T>(log: seq<Event<T>>, c: nat, stop: nat): seq<Event<T>> {
    var lo, hi := CountBefore(log, c), CountBefore(log, stop);
    if lo <= hi then log[lo..hi] else []
  }

  lemma WindowMembers<T>(log: seq<Event<T>>, c: nat, stop: nat, e: Event<T>)
    requires Ordered(log)
    ensures e in Window(log, c, stop) <==> e in log && c <= e.ledger < stop
  {
    hide CountBefore, Ordered;
    CountBeforeSplits(log, c);
    CountBeforeSplits(log, stop);
    if e in log && c <= e.ledger < stop {
      var i :| 0 <= i < |log| && log[i] == e;
      assert Window(log, c, stop)[i - CountBefore(log, c)] == e;
    }
  }

  lemma WindowSplit<T>(log: seq<Event<T>>, a: nat, b: nat, c: nat)
    requires Ordered(log) && a <= b <= c
    ensures Window(log, a, c) == Window(log, a, b) + Window(log, b, c)
  {
    CountBeforeMonotone(log, a, b);
    CountBeforeMonotone(log, b, c);
  }

  // ---------------------------------------------------------------- pages

  function Last<T>(page: seq<Event<T>>): Event<T>
    requires page != []
  {
    page[|page| - 1]
  }

  /** The pages of a scan, in the order they came. */
  datatype Pages<T> = Nothing | Then(before: Pages<T>, page: seq<Event<T>>)

  /** All events of the pages. */
  function Delivered<T>(pages: Pages<T>): seq<Event<T>> {
    match pages
    case Nothing => []
    case Then(before, page) => Delivered(before) + page
  }

  /** Where a scan from ledger c goes on: the ledger after the last event seen. */
  function Stop<T>(c: nat, pages: Pages<T>): nat {
    match pages
    case Nothing => c
    case Then(before, page) => if page == [] then Stop(c, before) else Last(page).ledger + 1
  }

  /** A scan of the log: each page is a non-empty prefix of what remains. */
  ghost predicate Scan<T>(log: seq<Event<T>>, c: nat, pages: Pages<T>) {
    match pages
    case Nothing => true
    case Then(before, page) => Scan(log, c, before) && page != [] && page <= From(log, Stop(c, before))
  }

  /** What a page cuts off: the later events of its last ledger, which are never asked for. */
  function Tail<T>(log: seq<Event<T>>, c: nat, page: seq<Event<T>>): seq<Event<T>>
    requires page != []
  {
    var lo, hi := CountBefore(log, c) + |page|, CountBefore(log, Last(page).ledger + 1);
    if lo <= hi then log[lo..hi] else []
  }

  /** The pages with their cut-off tails put back. */
  function WithTails<T>(log: seq<Event<T>>, c: nat, pages: Pages<T>): seq<Event<T>> {
    match pages
    case Nothing => []
    case Then(before, page) =>
      if page == [] then WithTails(log, c, before)
      else WithTails(log, c, before) + (page + Tail(log, Stop(c, before), page))
  }

  /** No page ends in the middle of a ledger. */
  ghost predicate NoCut<T>(log: seq<Event<T>>, c: nat, pages: Pages<T>) {
    match pages
    case Nothing => true
    case Then(before, page) => NoCut(log, c, before) && (page == [] || Tail(log, Stop(c, before), page) == [])
  }

  /** A page and its tail are exactly the events up to the page's last ledger. */
  lemma PageAndTail<T>(log: seq<Event<T>>, c: nat, page: seq<Event<T>>)
    requires Ordered(log) && page != [] && page <= From(log, c)
    ensures c <= Last(page).ledger
    ensures page + Tail(log, c, page) == Window(log, c, Last(page).ledger + 1)
  {
    hide Ordered, CountBefore;
    var stop, n := Last(page).ledger + 1, |page|;
    var lo, hi := CountBefore(log, c), CountBefore(log, stop);
    assert Last(page) == From(log, c)[n - 1] == log[lo + n - 1];
    CountBeforeSplits(log, c);
    CountBeforeSplits(log, stop);
    assert lo + n <= hi;
    assert page == log[lo..lo + n];
    assert log[lo..hi] == log[lo..lo + n] + log[lo + n..hi];
  }

  /** What a scan misses: putting back the tails that its pages cut gives exactly the events
      between its first ledger and its last. */
  lemma {:induction false} ScanCoversWindow<T>(log: seq<Event<T>>, c: nat, pages: Pages<T>)
    requires Ordered(log) && Scan(log, c, pages)
    ensures c <= Stop(c, pages)
    ensures WithTails(log, c, pages) == Window(log, c, Stop(c, pages))
  {
    hide CountBefore, Ordered, From, Tail;
    match pages
    case Nothing =>
    case Then(before, page) =>
      ScanCoversWindow(log, c, before);
      PageAndTail(log, Stop(c, before), page);
      WindowSplit(log, c, Stop(c, before), Stop(c, pages));
  }

  /** A scan delivers exactly its window if and only if no page cuts a ledger. */
  lemma ScanCompleteIff<T>(log: seq<Event<T>>, c: nat, pages: Pages<T>)
    requires Ordered(log) && Scan(log, c, pages)
    ensures Delivered(pages) == Window(log, c, Stop(c, pages)) <==> NoCut(log, c, pages)
  {
    ScanCoversWindow(log, c, pages);
    TailLengths(log, c, pages);
  }

  lemma {:induction false} TailLengths<T>(log: seq<Event<T>>, c: nat, pages: Pages<T>)
    requires Scan(log, c, pages)
    ensures |Delivered(pages)| <= |WithTails(log, c, pages)|
    ensures |Delivered(pages)| == |WithTails(log, c, pages)| <==> NoCut(log, c, pages)
    ensures NoCut(log, c, pages) ==> Delivered(pages) == WithTails(log, c, pages)
  {
    match pages
    case Nothing =>
    case Then(before, page) =>
      TailLengths(log, c, before);
      var tail := Tail(log, Stop(c, before), page);
      assert |page + tail| == |page| + |tail|;
      if tail == [] {
        assert page + tail == page;
      }
  }

  /** Everything a scan delivers lies in its window. */
  lemma {:induction false} ScanMembers<T>(log: seq<Event<T>>, c: nat, pages: Pages<T>)
    requires Ordered(log) && Scan(log, c, pages)
    ensures forall e :: e in Delivered(pages) ==> e in log && c <= e.ledger < Stop(c, pages)
  {
    hide CountBefore, From, Tail, WithTails, Window, Ordered;
    match pages
    case Nothing =>
    case Then(before, page) =>
      var mid := Stop(c, before);
      ScanMembers(log, c, before);
      ScanCoversWindow(log, c, before);
      LastIsMax(log, mid, page);
      PageInOrder(log, mid, page);
      forall e | e in page ensures e in log && mid <= e.ledger <= Last(page).ledger {
        var j :| 0 <= j < |page| && page[j] == e;
      }
  }

  /** A scan delivers in the order of the log and nothing twice. */
  lemma {:induction false} ScanInOrder<T>(log: seq<Event<T>>, c: nat, pages: Pages<T>)
    requires Ordered(log) && Scan(log, c, pages)
    ensures Ordered(Delivered(pages))
    ensures forall e :: e in Delivered(pages) ==> e in log && c <= e.ledger < Stop(c, pages)
  {
    hide CountBefore, From, Tail, WithTails, Window, Ordered;
    ScanMembers(log, c, pages);
    match pages
    case Nothing =>
      EmptyOrdered<T>();
    case Then(before, page) =>
      var mid, got := Stop(c, before), Delivered(before);
      ScanInOrder(log, c, before);
      LastIsMax(log, mid, page);
      PageInOrder(log, mid, page);
      forall i, j | 0 <= i < |got| && 0 <= j < |page|
        ensures got[i].id < page[j].id && got[i].ledger <= page[j].ledger
      {
        assert got[i] in got;
        assert page[j] in log && mid <= page[j].ledger;
        SmallerLedgerFirst(log, got[i], page[j]);
      }
      OrderedConcat(got, page);
  }

  lemma EmptyOrdered<T>()
    ensures Ordered<T>([])
  {
  }

  lemma SmallerLedgerFirst<T>(log: seq<Event<T>>, a: Event<T>, b: Event<T>)
    requires Ordered(log) && a in log && b in log && a.ledger < b.ledger
    ensures a.id < b.id
  {
    OrderedPairs(log);
    var i :| 0 <= i < |log| && log[i] == a;
    var j :| 0 <= j < |log| && log[j] == b;
  }

  lemma PageInOrder<T>(log: seq<Event<T>>, c: nat, page: seq<Event<T>>)
    requires Ordered(log) && page <= From(log, c)
    ensures Ordered(page) && forall i :: 0 <= i < |page| ==> page[i] in log
  {
    OrderedPairs(log);
    var k := CountBefore(log, c);
    SliceInOrder(log, k, page);
    OrderedPairs(page);
  }

  lemma SliceInOrder<T>(log: seq<Event<T>>, k: nat, page: seq<Event<T>>)
    requires PairwiseOrdered(log) && k <= |log| && page <= log[k..]
    ensures PairwiseOrdered(page)
    ensures forall i :: 0 <= i < |page| ==> page[i] == log[k + i]
  {
    forall i | 0 <= i < |page| ensures page[i] == log[k + i] {
      assert page[i] == log[k..][i];
    }
  }

  lemma OrderedConcat<T>(a: seq<Event<T>>, b: seq<Event<T>>)
    requires Ordered(a) && Ordered(b)
    requires forall i, j :: 0 <= i < |a| && 0 <= j < |b| ==> a[i].id < b[j].id && a[i].ledger <= b[j].ledger
    ensures Ordered(a + b)
  {
    OrderedPairs(a);
    OrderedPairs(b);
    assert PairwiseOrdered(a + b);
    OrderedPairs(a + b);
  }

  /** The pages of one scan followed by those of another. */
  function Append<T>(p: Pages<T>, q: Pages<T>): Pages<T> {
    match q
    case Nothing => p
    case Then(before, page) => Then(Append(p, before), page)
  }

  /** Scans chain: continuing where one stopped is one longer scan. */
  lemma {:induction false} ScanAppend<T>(log: seq<Event<T>>, c: nat, p: Pages<T>, q: Pages<T>)
    requires Scan(log, c, p) && Scan(log, Stop(c, p), q)
    ensures Scan(log, c, Append(p, q)) && Stop(c, Append(p, q)) == Stop(Stop(c, p), q)
    ensures Delivered(Append(p, q)) == Delivered(p) + Delivered(q)
    ensures NoCut(log, c, Append(p, q)) <==> NoCut(log, c, p) && NoCut(log, Stop(c, p), q)
  {
    hide CountBefore, From, Tail;
    match q
    case Nothing =>
      assert Delivered(p) + [] == Delivered(p);
    case Then(before, page) =>
      ScanAppend(log, c, p, before);
      assert Delivered(p) + (Delivered(before) + page) == Delivered(p) + Delivered(before) + page;
  }

  /** The last ledger of an ordered page is its highest. */
  lemma LastIsMax<T>(log: seq<Event<T>>, c: nat, page: seq<Event<T>>)
    requires Ordered(log) && page <= From(log, c)
    ensures forall i, j :: 0 <= i < j < |page| ==> page[i].ledger <= page[j].ledger
    ensures forall i :: 0 <= i < |page| ==> c <= page[i].ledger
  {
    hide CountBefore, Ordered;
    CountBeforeSplits(log, c);
    OrderedPairs(log);
    forall i | 0 <= i < |page| ensures page[i] == log[CountBefore(log, c) + i] {
      assert page[i] == From(log, c)[i];
    }
  }

  // ---------------------------------------------------------------- logs that no page size cuts

  /** No two events from ledger c on share a ledger. */
  ghost predicate OnePerLedger<T>(log: seq<Event<T>>, c: nat) {
    forall i, j :: 0 <= i < j < |log| && c <= log[i].ledger ==> log[i].ledger != log[j].ledger
  }

  ghost predicate PagesAtMost<T>(pages: Pages<T>, n: nat) {
    match pages
    case Nothing => true
    case Then(before, page) => PagesAtMost(before, n) && |page| <= n
  }

  lemma {:induction false} PagesAtMostAppend<T>(p: Pages<T>, q: Pages<T>, n: nat)
    requires PagesAtMost(p, n) && PagesAtMost(q, n)
    ensures PagesAtMost(Append(p, q), n)
  {
    match q
    case Nothing =>
    case Then(before, page) => PagesAtMostAppend(p, before, n);
  }

  /** Then no scan cuts anything, however long its pages are. */
  lemma {:induction false} NeverCut<T>(log: seq<Event<T>>, c: nat, pages: Pages<T>)
    requires Ordered(log) && OnePerLedger(log, c) && Scan(log, c, pages)
    ensures NoCut(log, c, pages)
  {
    hide CountBefore, Ordered, OnePerLedger, From, Tail;
    match pages
    case Nothing =>
    case Then(before, page) =>
      NeverCut(log, c, before);
      ScanCoversWindow(log, c, before);
      PageNotCut(log, c, Stop(c, before), page);
  }

  lemma PageNotCut<T>(log: seq<Event<T>>, c: nat, from: nat, page: seq<Event<T>>)
    requires Ordered(log) && OnePerLedger(log, c) && c <= from && page != [] && page <= From(log, from)
    ensures Tail(log, from, page) == []
  {
    hide CountBefore, Ordered;
    var next: int := CountBefore(log, from) + |page|;
    assert Last(page) == From(log, from)[|page| - 1] == log[next - 1];
    CountBeforeSplits(log, from);
    CountBeforeSplits(log, Last(page).ledger + 1);
    OrderedPairs(log);
    assert next < |log| ==> log[next - 1].ledger < log[next].ledger;
  }

  /** Pages of one event each never hold two events of one ledger. */
  lemma {:induction false} OneByOneDistinct<T>(log: seq<Event<T>>, c: nat, pages: Pages<T>)
    requires Ordered(log) && Scan(log, c, pages) && PagesAtMost(pages, 1)
    ensures forall i, j :: 0 <= i < j < |Delivered(pages)| ==> Delivered(pages)[i].ledger < Delivered(pages)[j].ledger
  {
    hide CountBefore, Ordered, From;
    match pages
    case Nothing =>
    case Then(before, page) =>
      var got := Delivered(before);
      OneByOneDistinct(log, c, before);
      ScanMembers(log, c, before);
      LastIsMax(log, Stop(c, before), page);
      forall i | 0 <= i < |got| ensures got[i].ledger < page[0].ledger {
        assert got[i] in got;
      }
  }

  /** A scan in pages of one event that has come to the end of the log cut nothing if and only
      if no two events from its start on share a ledger. */
  lemma OneByOneIff<T>(log: seq<Event<T>>, c: nat, pages: Pages<T>)
    requires Ordered(log) && Scan(log, c, pages) && PagesAtMost(pages, 1) && CountBefore(log, Stop(c, pages)) == |log|
    ensures NoCut(log, c, pages) <==> OnePerLedger(log, c)
  {
    hide CountBefore, Ordered, Scan, NoCut, PagesAtMost, Stop, Delivered, OnePerLedger;
    if OnePerLedger(log, c) {
      NeverCut(log, c, pages);
    }
    if NoCut(log, c, pages) {
      ScanCompleteIff(log, c, pages);
      OneByOneDistinct(log, c, pages);
      ScanCoversWindow(log, c, pages);
      CountBeforeMonotone(log, c, Stop(c, pages));
      DistinctFrom(log, c, Delivered(pages));
    }
  }

  lemma DistinctFrom<T>(log: seq<Event<T>>, c: nat, rest: seq<Event<T>>)
    requires Ordered(log) && rest == log[CountBefore(log, c)..]
    requires forall i, j :: 0 <= i < j < |rest| ==> rest[i].ledger < rest[j].ledger
    ensures OnePerLedger(log, c)
  {
    hide CountBefore, Ordered;
    var n := CountBefore(log, c);
    CountBeforeSplits(log, c);
    forall i, j | 0 <= i < j < |log| && c <= log[i].ledger ensures log[i].ledger != log[j].ledger {
      assert rest[i - n] == log[i] && rest[j - n] == log[j];
    }
  }

  /** There always is such a scan. */
  lemma {:induction false} OneByOne<T>(log: seq<Event<T>>, c: nat, pages: Pages<T>) returns (all: Pages<T>)
    requires Ordered(log) && Scan(log, c, pages) && PagesAtMost(pages, 1)
    ensures Scan(log, c, all) && PagesAtMost(all, 1) && CountBefore(log, Stop(c, all)) == |log|
    decreases |log| - CountBefore(log, Stop(c, pages))
  {
    hide CountBefore, Ordered;
    var stop := Stop(c, pages);
    var n := CountBefore(log, stop);
    if n == |log| {
      all := pages;
    } else {
      var page := [log[n]];
      assert page <= From(log, stop);
      CountBeforeSplits(log, stop);
      CountBeforeSplits(log, log[n].ledger + 1);
      all := OneByOne(log, c, Then(pages, page));
    }
  }

  /** Every scan from a ledger on is complete, whatever its page sizes, if and only if no two
      events from there on share a ledger. */
  lemma EveryScanCompleteIff<T>(log: seq<Event<T>>, c: nat)
    requires Ordered(log)
    ensures (forall pages :: Scan(log, c, pages) ==> Delivered(pages) == Window(log, c, Stop(c, pages)))
            <==> OnePerLedger(log, c)
  {
    hide Ordered, OnePerLedger, NoCut, CountBefore, Window;
    if OnePerLedger(log, c) {
      forall pages | Scan(log, c, pages) ensures Delivered(pages) == Window(log, c, Stop(c, pages)) {
        NeverCut(log, c, pages);
        ScanCompleteIff(log, c, pages);
      }
    } else {
      var pages := OneByOne(log, c, Nothing);
      OneByOneIff(log, c, pages);
      ScanCompleteIff(log, c, pages);
    }
  }

  // ---------------------------------------------------------------- filters

  /** The events that satisfy p, in order. */
  function Keep<T>(p: Event<T> -> bool, s: seq<Event<T>>): seq<Event<T>> {
    if s == [] then []
    else Keep(p, s[..|s| - 1]) + if p(s[|s| - 1]) then [s[|s| - 1]] else []
  }

  lemma {:induction false} KeepConcat<T>(p: Event<T> -> bool, a: seq<Event<T>>, b: seq<Event<T>>)
    ensures Keep(p, a + b) == Keep(p, a) + Keep(p, b)
  {
    if b == [] {
      assert a + b == a;
    } else {
      assert (a + b)[..|a + b| - 1] == a + b[..|b| - 1];
      KeepConcat(p, a, b[..|b| - 1]);
    }
  }

  lemma {:induction false} KeepMembers<T>(p: Event<T> -> bool, s: seq<Event<T>>)
    ensures forall e :: e in Keep(p, s) ==> e in s && p(e)
    ensures forall e :: e in s && p(e) ==> e in Keep(p, s)
    ensures |Keep(p, s)| <= |s|
  {
    if s != [] {
      KeepMembers(p, s[..|s| - 1]);
      assert s == s[..|s| - 1] + [s[|s| - 1]];
    }
  }

  lemma {:induction false} KeepAll<T>(p: Event<T> -> bool, s: seq<Event<T>>)
    requires forall i :: 0 <= i < |s| ==> p(s[i])
    ensures Keep(p, s) == s
  {
    if s != [] {
      KeepAll(p, s[..|s| - 1]);
    }
  }

  lemma {:induction false} KeepNone<T>(p: Event<T> -> bool, s: seq<Event<T>>)
    requires forall i :: 0 <= i < |s| ==> !p(s[i])
    ensures Keep(p, s) == []
  {
    if s != [] {
      KeepNone(p, s[..|s| - 1]);
    }
  }

  lemma {:induction false} KeepOrdered<T>(p: Event<T> -> bool, s: seq<Event<T>>)
    requires Ordered(s)
    ensures Ordered(Keep(p, s))
  {
    hide Ordered;
    if s == [] {
      EmptyOrdered<T>();
    } else {
      var t, x := s[..|s| - 1], s[|s| - 1];
      AllButLast(s);
      KeepOrdered(p, t);
      KeepMembers(p, t);
      var k, last := Keep(p, t), if p(x) then [x] else [];
      forall i, j | 0 <= i < |k| && 0 <= j < |last| ensures k[i].id < last[j].id && k[i].ledger <= last[j].ledger {
        assert k[i] in k;
      }
      AtMostOne(last);
      OrderedConcat(k, last);
    }
  }

  lemma AtMostOne<T>(s: seq<Event<T>>)
    requires |s| <= 1
    ensures Ordered(s)
  {
  }

  lemma AllButLast<T>(s: seq<Event<T>>)
    requires Ordered(s) && s != []
    ensures Ordered(s[..|s| - 1])
    ensures forall e :: e in s[..|s| - 1] ==> e.id < s[|s| - 1].id && e.ledger <= s[|s| - 1].ledger
  {
    OrderedPairs(s);
    OrderedPairs(s[..|s| - 1]);
  }

  /** In an ordered list, a cut into lower and higher ledgers is a cut of the list. */
  lemma CountBeforeOfParts<T>(a: seq<Event<T>>, b: seq<Event<T>>, c: nat)
    requires Ordered(a + b)
    requires forall i :: 0 <= i < |a| ==> a[i].ledger < c
    requires forall i :: 0 <= i < |b| ==> c <= b[i].ledger
    ensures CountBefore(a + b, c) == |a|
  {
    hide Ordered, CountBefore;
    var s := a + b;
    CountBeforeSplits(s, c);
    forall i | 0 <= i < |a| ensures s[i].ledger < c { assert s[i] == a[i]; }
    forall i | |a| <= i < |s| ensures c <= s[i].ledger { assert s[i] == b[i - |a|]; }
    var n := CountBefore(s, c);
    assert n < |s| ==> c <= s[n].ledger;
    assert |a| < |s| ==> c <= s[|a|].ledger;
  }

  /** An ordered log falls into the events below c and those from c on. */
  lemma Halves<T>(log: seq<Event<T>>, c: nat)
    requires Ordered(log)
    ensures log == log[..CountBefore(log, c)] + From(log, c)
    ensures forall e :: e in log[..CountBefore(log, c)] ==> e.ledger < c
    ensures forall e :: e in From(log, c) ==> c <= e.ledger
  {
    CountBeforeSplits(log, c);
    HalvesAt(log, c, CountBefore(log, c));
  }

  lemma HalvesAt<T>(log: seq<Event<T>>, c: nat, n: nat)
    requires n <= |log| && forall i :: 0 <= i < |log| ==> (log[i].ledger < c <==> i < n)
    ensures forall e :: e in log[..n] ==> e.ledger < c
    ensures forall e :: e in log[n..] ==> c <= e.ledger
  {
    forall e | e in log[..n] ensures e.ledger < c {
      var i :| 0 <= i < n && log[..n][i] == e;
      assert log[i] == e;
    }
    forall e | e in log[n..] ensures c <= e.ledger {
      var i :| 0 <= i < |log| - n && log[n..][i] == e;
      assert log[n + i] == e;
    }
  }

  /** Two parts of an ordered list, split at ledger c, are found again by the split. */
  lemma PartsOf<T>(a: seq<Event<T>>, b: seq<Event<T>>, c: nat)
    requires Ordered(a + b)
    requires forall e :: e in a ==> e.ledger < c
    requires forall e :: e in b ==> c <= e.ledger
    ensures From(a + b, c) == b && (a + b)[..CountBefore(a + b, c)] == a
  {
    CountBeforeOfParts(a, b, c);
  }

  /** Filtering a log and then taking what is left from c on, or up to c, is the same as
      filtering that part. */
  lemma KeepSplits<T>(p: Event<T> -> bool, log: seq<Event<T>>, c: nat)
    requires Ordered(log)
    ensures From(Keep(p, log), c) == Keep(p, From(log, c))
    ensures Keep(p, log)[..CountBefore(Keep(p, log), c)] == Keep(p, log[..CountBefore(log, c)])
  {
    Halves(log, c);
    var a, b := log[..CountBefore(log, c)], From(log, c);
    KeepConcat(p, a, b);
    KeepOrdered(p, log);
    KeepMembers(p, a);
    KeepMembers(p, b);
    PartsOf(Keep(p, a), Keep(p, b), c);
  }

  /** The filtered prefix of a list is a prefix of the filtered list. */
  lemma KeepPrefix<T>(p: Event<T> -> bool, a: seq<Event<T>>, s: seq<Event<T>>)
    requires a <= s
    ensures Keep(p, a) <= Keep(p, s)
  {
    assert s == a + s[|a|..];
    KeepConcat(p, a, s[|a|..]);
  }

  /** The events of a list up to and including a ledger. */
  function UpTo<T>(last: nat, s: seq<Event<T>>): seq<Event<T>> {
    if s == [] then []
    else UpTo(last, s[..|s| - 1]) + if s[|s| - 1].ledger <= last then [s[|s| - 1]] else []
  }

  lemma {:induction false} UpToConcat<T>(last: nat, a: seq<Event<T>>, b: seq<Event<T>>)
    ensures UpTo(last, a + b) == UpTo(last, a) + UpTo(last, b)
  {
    if b == [] {
      assert a + b == a;
    } else {
      assert (a + b)[..|a + b| - 1] == a + b[..|b| - 1];
      UpToConcat(last, a, b[..|b| - 1]);
    }
  }

  lemma {:induction false} UpToMembers<T>(last: nat, s: seq<Event<T>>)
    ensures forall e :: e in UpTo(last, s) ==> e in s && e.ledger <= last
    ensures forall e :: e in s && e.ledger <= last ==> e in UpTo(last, s)
  {
    if s != [] {
      UpToMembers(last, s[..|s| - 1]);
      assert s == s[..|s| - 1] + [s[|s| - 1]];
    }
  }

  lemma {:induction false} UpToAll<T>(last: nat, s: seq<Event<T>>)
    requires forall e :: e in s ==> e.ledger <= last
    ensures UpTo(last, s) == s
  {
    if s != [] {
      assert s == s[..|s| - 1] + [s[|s| - 1]];
      UpToAll(last, s[..|s| - 1]);
    }
  }

  lemma {:induction false} UpToNone<T>(last: nat, s: seq<Event<T>>)
    requires forall e :: e in s ==> last < e.ledger
    ensures UpTo(last, s) == []
  {
    if s != [] {
      assert s == s[..|s| - 1] + [s[|s| - 1]];
      UpToNone(last, s[..|s| - 1]);
    }
  }

  /** Cutting a window at a ledger that it reaches, or behind which the log has nothing the
      window lacks. */
  lemma UpToOfWindow<T>(log: seq<Event<T>>, c: nat, stop: nat, last: nat)
    requires Ordered(log) && c <= stop
    requires CountBefore(log, last + 1) <= CountBefore(log, stop)
    ensures UpTo(last, Window(log, c, stop)) == Window(log, c, last + 1)
  {
    Halves(log, last + 1);
    CountBeforeMonotone(log, c, stop);
    UpToOfSlice(log, CountBefore(log, c), CountBefore(log, last + 1), CountBefore(log, stop), last);
  }

  lemma SliceOfSlice<T>(s: seq<Event<T>>, lo: nat, hi: nat, from: nat, to: nat, e: Event<T>)
    requires from <= lo <= hi <= to <= |s| && e in s[lo..hi]
    ensures e in s[from..to]
  {
    var i :| 0 <= i < hi - lo && s[lo..hi][i] == e;
    assert s[from..to][lo - from + i] == e;
  }

  lemma UpToOfSlice<T>(log: seq<Event<T>>, lo: nat, k: nat, hi: nat, last: nat)
    requires lo <= hi <= |log| && k <= hi
    requires forall e :: e in log[..k] ==> e.ledger <= last
    requires forall e :: e in log[k..] ==> last < e.ledger
    ensures UpTo(last, log[lo..hi]) == if lo <= k then log[lo..k] else []
  {
    hide UpTo;
    var mid := if lo <= k then k else lo;
    var a, b := log[lo..mid], log[mid..hi];
    assert log[lo..hi] == a + b;
    forall e | e in a ensures e.ledger <= last {
      assert lo <= k;
      SliceOfSlice(log, lo, mid, 0, mid, e);
    }
    forall e | e in b ensures last < e.ledger {
      SliceOfSlice(log, mid, hi, k, |log|, e);
    }
    UpToConcat(last, a, b);
    UpToAll(last, a);
    UpToNone(last, b);
  }

  /** No page cuts off anything up to and including a ledger. */
  ghost predicate NoCutUpTo<T>(log: seq<Event<T>>, c: nat, pages: Pages<T>, last: nat) {
    match pages
    case Nothing => true
    case Then(before, page) =>
      NoCutUpTo(log, c, before, last) && (page == [] || UpTo(last, Tail(log, Stop(c, before), page)) == [])
  }

  /** A scan without cuts has none up to any ledger. */
  lemma {:induction false} NoCutNowhere<T>(log: seq<Event<T>>, c: nat, pages: Pages<T>, last: nat)
    requires NoCut(log, c, pages)
    ensures NoCutUpTo(log, c, pages, last)
  {
    match pages
    case Nothing =>
    case Then(before, page) => NoCutNowhere(log, c, before, last);
  }

  /** What a scan delivers up to a ledger is exactly what the log has from the scan's start up to
      that ledger, if and only if no page cut any of it off and the scan stopped behind all of
      it. */
  lemma ScanUpToIff<T>(log: seq<Event<T>>, c: nat, pages: Pages<T>, last: nat)
    requires Ordered(log) && Scan(log, c, pages)
    ensures UpTo(last, Delivered(pages)) == Window(log, c, last + 1) <==>
              NoCutUpTo(log, c, pages, last) && Window(log, Stop(c, pages), last + 1) == []
  {
    hide Ordered, Window, UpTo, NoCutUpTo, Scan, Stop, Delivered, WithTails;
    ScanCoversWindow(log, c, pages);
    WindowUpTo(log, c, Stop(c, pages), last);
    TailsUpTo(log, c, pages, last);
  }

  /** A window up to a ledger, and what lies between its end and that ledger. */
  lemma WindowUpTo<T>(log: seq<Event<T>>, c: nat, stop: nat, last: nat)
    requires Ordered(log) && c <= stop
    ensures Window(log, c, last + 1) == UpTo(last, Window(log, c, stop)) + Window(log, stop, last + 1)
  {
    hide Ordered, CountBefore, UpTo;
    if stop <= last + 1 {
      WindowSplit(log, c, stop, last + 1);
      forall e | e in Window(log, c, stop) ensures e.ledger <= last {
        WindowMembers(log, c, stop, e);
      }
      UpToAll(last, Window(log, c, stop));
    } else {
      CountBeforeMonotone(log, last + 1, stop);
      UpToOfWindow(log, c, stop, last);
      assert Window(log, stop, last + 1) == [];
    }
  }

  lemma {:induction false} TailsUpTo<T>(log: seq<Event<T>>, c: nat, pages: Pages<T>, last: nat)
    requires Scan(log, c, pages)
    ensures |UpTo(last, Delivered(pages))| <= |UpTo(last, WithTails(log, c, pages))|
    ensures |UpTo(last, Delivered(pages))| == |UpTo(last, WithTails(log, c, pages))| <==> NoCutUpTo(log, c, pages, last)
    ensures NoCutUpTo(log, c, pages, last) ==> UpTo(last, Delivered(pages)) == UpTo(last, WithTails(log, c, pages))
  {
    hide UpTo, Tail, From;
    match pages
    case Nothing =>
    case Then(before, page) =>
      var tail := Tail(log, Stop(c, before), page);
      TailsUpTo(log, c, before, last);
      UpToConcat(last, Delivered(before), page);
      UpToConcat(last, page, tail);
      UpToConcat(last, WithTails(log, c, before), page + tail);
      assert UpTo(last, tail) == [] ==> UpTo(last, page) + UpTo(last, tail) == UpTo(last, page);
  }
}
