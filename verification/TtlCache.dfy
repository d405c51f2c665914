/** The backend's in-process cache with a time to live per entry.

    A call that misses starts a computation; its completion, at some later time, stores the
    value. Calls, completions, failures and invalidations may interleave in any way. */
module TtlCache {
  import opened Options

  datatype Entry<D> = Entry(data: D, expiresAt: int)

  /** What has happened to the cache. A completion or failure refers to the position in the
      history at which its computation was started. */
  datatype Happening<D> =
    | Started(key: string)
    | Failed(key: string, started: nat)
    | Completed(key: string, data: D, at: int, ttl: int, started: nat)
    | Invalidated(key: string)
    | InvalidatedPrefix(prefix: string)

  predicate StartsWith(key: string, prefix: string) {
    prefix <= key
  }

  /** The happening invalidates the key. */
  predicate Kills<D>(h: Happening<D>, key: string) {
    match h
    case Invalidated(k) => k == key
    case InvalidatedPrefix(prefix) => StartsWith(key, prefix)
    case _ => false
  }

  /** Position i holds the latest completion for the key, with no invalidation since. */
  ghost predicate StandsAt<D>(history: seq<Happening<D>>, key: string, i: nat) {
    && i < |history| && history[i].Completed? && history[i].key == key
    && forall j :: i < j < |history| ==> !Kills(history[j], key) && !(history[j].Completed? && history[j].key == key)
  }

  ghost predicate NoneStands<D>(history: seq<Happening<D>>, key: string) {
    forall i: nat :: !StandsAt(history, key, i)
  }

  /** A computation for the key was started at position s and has neither completed nor
      failed yet. */
  ghost predicate Open<D>(history: seq<Happening<D>>, key: string, s: nat) {
    && s < |history| && history[s] == Started(key)
    && forall j :: s < j < |history| ==>
         !(history[j].Completed? && history[j].started == s) && !(history[j].Failed? && history[j].started == s)
  }

  /** The happening ends a computation. */
  predicate Settles<D>(h: Happening<D>) { h.Completed? || h.Failed? }

  /** Computations settle once: a completion or failure belongs to an open computation for its
      key. */
  ghost predicate WellFormed<D>(history: seq<Happening<D>>) {
    forall i :: 0 <= i < |history| && Settles(history[i]) ==> Open(history[..i], history[i].key, history[i].started)
  }

  lemma WellFormedSnoc<D>(history: seq<Happening<D>>, h: Happening<D>)
    requires WellFormed(history) && (Settles(h) ==> Open(history, h.key, h.started))
    ensures WellFormed(history + [h])
  {
    var next := history + [h];
    forall i | 0 <= i < |next| && Settles(next[i]) ensures Open(next[..i], next[i].key, next[i].started) {
      assert next[..i] == if i < |history| then history[..i] else history;
    }
  }

  /** A happening that has nothing to do with the key changes nothing for it. */
  lemma Unrelated<D>(history: seq<Happening<D>>, h: Happening<D>, key: string)
    requires !Kills(h, key) && !(h.Completed? && h.key == key)
    ensures forall i: nat :: StandsAt(history + [h], key, i) <==> StandsAt(history, key, i)
  {
    var next := history + [h];
    forall i: nat ensures StandsAt(next, key, i) <==> StandsAt(history, key, i) {
      if i < |history| {
        assert next[i] == history[i];
        if StandsAt(next, key, i) {
          forall j | i < j < |history|
            ensures !Kills(history[j], key) && !(history[j].Completed? && history[j].key == key)
          {
            assert next[j] == history[j];
          }
        }
      }
    }
  }

  lemma KilledNow<D>(history: seq<Happening<D>>, h: Happening<D>, key: string)
    requires Kills(h, key)
    ensures NoneStands(history + [h], key)
  {
    assert (history + [h])[|history|] == h;
  }

  class Cache<D> {
    var entries: map<string, Entry<D>>
    var hits: nat
    var misses: nat
    ghost var history: seq<Happening<D>>
    ghost var calls: nat

    /** An entry is there exactly for the keys with a standing completion, and holds its value
        and expiry; hits and misses add up to the calls since the last reset. */
    ghost predicate Valid()
      reads this
    {
      && hits + misses == calls && WellFormed(history)
      && (forall key, i: nat :: StandsAt(history, key, i) ==>
            key in entries && entries[key] == Entry(history[i].data, history[i].at + history[i].ttl))
      && (forall key :: key in entries ==> !NoneStands(history, key))
    }

    constructor ()
      ensures Valid() && history == [] && calls == 0
    {
      entries, hits, misses, history, calls := map[], 0, 0, [], 0;
    }

    /** The first half of a call. A hit returns the value of the latest completion for the key
        that no invalidation has followed, and that completion is less than its time to live
        old; a miss means that there is no such completion. */
    method Lookup(key: string, now: int) returns (hit: Option<D>)
      requires Valid()
      modifies `hits, `misses, `calls, `history
      ensures Valid() && calls == old(calls) + 1
      ensures history == if hit.Some? then old(history) else old(history) + [Started(key)]
      ensures hit.Some? ==> exists i: nat ::
                StandsAt(history, key, i) && history[i].data == hit.value && now - history[i].at < history[i].ttl
      ensures hit.None? ==> forall i: nat :: StandsAt(history, key, i) ==> history[i].ttl <= now - history[i].at
      ensures hits == old(hits) + (if hit.Some? then 1 else 0) && misses == old(misses) + (if hit.Some? then 0 else 1)
    {
      calls := calls + 1;
      if key in entries {
        var entry := entries[key];
        if now < entry.expiresAt {
          hits := hits + 1;
          ghost var i: nat :| StandsAt(history, key, i);
          return Some(entry.data);
        }
      }
      misses := misses + 1;
      hit := None;
      Record(Started(key));
    }

    /** A happening that touches no entry. */
    ghost method Record(h: Happening<D>)
      requires hits + misses == calls && (h.Started? || h.Failed?)
      requires WellFormed(history) && (h.Failed? ==> Open(history, h.key, h.started))
      requires forall key, i: nat :: StandsAt(history, key, i) ==>
                 key in entries && entries[key] == Entry(history[i].data, history[i].at + history[i].ttl)
      requires forall key :: key in entries ==> !NoneStands(history, key)
      modifies `history
      ensures Valid() && history == old(history) + [h]
      ensures forall key, i: nat :: StandsAt(history, key, i) ==> StandsAt(old(history), key, i) && history[i] == old(history)[i]
    {
      ghost var before := history;
      WellFormedSnoc(before, h);
      history := history + [h];
      forall k, i: nat | StandsAt(history, k, i) ensures StandsAt(before, k, i) && history[i] == before[i] {
        Unrelated(before, h, k);
      }
      forall k | k in entries ensures !NoneStands(history, k) {
        Unrelated(before, h, k);
        var i: nat :| StandsAt(before, k, i);
        assert StandsAt(history, k, i);
      }
    }

    /** The second half of a call that missed, if its computation fails: nothing is stored. */
    ghost method Fail(key: string, started: nat)
      requires Valid() && Open(history, key, started)
      modifies `history
      ensures Valid() && history == old(history) + [Failed(key, started)]
    {
      Record(Failed(key, started));
    }

    /** The second half of a call that missed, if its computation succeeds. */
    method Complete(key: string, ttl: int, now: int, data: D, ghost started: nat)
      requires Valid() && Open(history, key, started)
      modifies `entries, `history
      ensures Valid() && history == old(history) + [Completed(key, data, now, ttl, started)]
    {
      hide Open, WellFormed;
      ghost var h := Completed(key, data, now, ttl, started);
      ghost var before := history;
      WellFormedSnoc(before, h);
      entries := entries[key := Entry(data, now + ttl)];
      history := history + [h];
      assert history[|before|] == h;
      forall k, i: nat | StandsAt(history, k, i)
        ensures k in entries && entries[k] == Entry(history[i].data, history[i].at + history[i].ttl)
      {
        if k != key {
          Unrelated(before, h, k);
          assert StandsAt(before, k, i);
        }
      }
      forall k | k in entries ensures !NoneStands(history, k) {
        if k != key {
          Unrelated(before, h, k);
          var i: nat :| StandsAt(before, k, i);
          assert StandsAt(history, k, i);
        } else {
          assert StandsAt(history, k, |before|);
        }
      }
    }

    /** Removes exactly the given keys. */
    method Invalidate(keys: seq<string>)
      requires Valid()
      modifies `entries, `history
      ensures Valid()
      ensures entries == old(entries) - (set k | k in keys)
      ensures history == old(history) + seq(|keys|, i requires 0 <= i < |keys| => Invalidated(keys[i]))
    {
      hide StandsAt, NoneStands, WellFormed;
      for n := 0 to |keys|
        invariant Valid()
        invariant entries == old(entries) - (set k | k in keys[..n])
        invariant history == old(history) + seq(n, i requires 0 <= i < n => Invalidated(keys[i]))
      {
        assert keys[..n + 1] == keys[..n] + [keys[n]];
        InvalidateOne(keys[n]);
      }
      assert keys[..|keys|] == keys;
    }

    method InvalidateOne(key: string)
      requires Valid()
      modifies `entries, `history
      ensures Valid() && entries == old(entries) - {key} && history == old(history) + [Invalidated(key)]
    {
      ghost var before := history;
      history := history + [Invalidated(key)];
      entries := entries - {key};
      StillMatches(before, old(entries), Invalidated(key));
    }

    /** Removes exactly the keys that start with the prefix. */
    method InvalidatePattern(prefix: string)
      requires Valid()
      modifies `entries, `history
      ensures Valid()
      ensures entries == map k | k in old(entries) && !StartsWith(k, prefix) :: old(entries)[k]
      ensures history == old(history) + [InvalidatedPrefix(prefix)]
    {
      DeleteWithPrefix(prefix);
      ghost var before := history;
      history := history + [InvalidatedPrefix(prefix)];
      StillMatches(before, old(entries), InvalidatedPrefix(prefix));
    }

    method DeleteWithPrefix(prefix: string)
      modifies `entries
      ensures entries == map k | k in old(entries) && !StartsWith(k, prefix) :: old(entries)[k]
    {
      var todo := entries.Keys;
      while todo != {}
        invariant todo <= old(entries).Keys
        invariant forall k :: k in entries <==> k in old(entries) && (k in todo || !StartsWith(k, prefix))
        invariant forall k :: k in entries ==> entries[k] == old(entries)[k]
        decreases |todo|
      {
        var key :| key in todo;
        if StartsWith(key, prefix) {
          entries := entries - {key};
        }
        todo := todo - {key};
      }
    }

    /** Dropping exactly the killed keys keeps entries and history in step. */
    lemma StillMatches(before: seq<Happening<D>>, entriesBefore: map<string, Entry<D>>, h: Happening<D>)
      requires (h.Invalidated? || h.InvalidatedPrefix?) && history == before + [h] && hits + misses == calls
      requires WellFormed(before)
      requires forall k :: k in entries <==> k in entriesBefore && !Kills(h, k)
      requires forall k :: k in entries ==> entries[k] == entriesBefore[k]
      requires forall k, i: nat :: StandsAt(before, k, i) ==>
                 k in entriesBefore && entriesBefore[k] == Entry(before[i].data, before[i].at + before[i].ttl)
      requires forall k :: k in entriesBefore ==> !NoneStands(before, k)
      ensures Valid()
    {
      WellFormedSnoc(before, h);
      forall k, i: nat | StandsAt(history, k, i)
        ensures k in entries && entries[k] == Entry(history[i].data, history[i].at + history[i].ttl)
      {
        if Kills(h, k) {
          KilledNow(before, h, k);
          assert false;
        }
        Unrelated(before, h, k);
        assert StandsAt(before, k, i);
      }
      forall k | k in entries ensures !NoneStands(history, k) {
        Unrelated(before, h, k);
        var i: nat :| StandsAt(before, k, i);
        assert StandsAt(history, k, i);
      }
    }

    method GetMetrics() returns (h: nat, m: nat, size: nat)
      requires Valid()
      ensures h == hits && m == misses && h + m == calls && size == |entries|
    {
      h, m, size := hits, misses, |entries|;
    }

    method ResetMetrics()
      requires Valid()
      modifies `hits, `misses, `calls
      ensures Valid() && calls == 0 && hits == 0 && misses == 0
    {
      hits, misses, calls := 0, 0, 0;
    }
  }

  // ---------------------------------------------------------------- what invalidation does not promise

  /** Whatever the cache holds for the key was computed from a start at or after position n. */
  ghost predicate FreshSince<D>(history: seq<Happening<D>>, key: string, n: nat) {
    forall i: nat :: StandsAt(history, key, i) ==> n <= history[i].started
  }

  /** An invalidation removes what is stored, not what is being computed. Right after one,
      the key is safe from stale values for good, however the run goes on, if and only if no
      computation for it is under way. */
  lemma FreshAfterInvalidationIff<D(!new)>(history: seq<Happening<D>>, key: string, d: D)
    requires WellFormed(history) && history != [] && Kills(history[|history| - 1], key)
    ensures (forall more: seq<Happening<D>> :: WellFormed(history + more) ==> FreshSince(history + more, key, |history|))
              <==> (forall s: nat :: !Open(history, key, s))
  {
    if s: nat :| Open(history, key, s) {
      StaleCompletion(history, key, d, s);
    } else {
      forall more: seq<Happening<D>> | WellFormed(history + more) ensures FreshSince(history + more, key, |history|) {
        forall i: nat | StandsAt(history + more, key, i) ensures |history| <= (history + more)[i].started {
          LateCompletion(history, more, key, i);
        }
      }
    }
  }

  /** A computation under way completes with a value from before the invalidation. */
  lemma StaleCompletion<D>(history: seq<Happening<D>>, key: string, d: D, s: nat)
    requires WellFormed(history) && Open(history, key, s)
    ensures exists more: seq<Happening<D>> ::
              WellFormed(history + more) && !FreshSince(history + more, key, |history|)
  {
    var h := Completed(key, d, 0, 10, s);
    WellFormedSnoc(history, h);
    assert StandsAt(history + [h], key, |history|);
    assert !FreshSince(history + [h], key, |history|);
  }

  /** A standing completion comes after the last invalidation; if it was started before, it
      was under way then. */
  lemma LateCompletion<D>(history: seq<Happening<D>>, more: seq<Happening<D>>, key: string, i: nat)
    requires history != [] && Kills(history[|history| - 1], key)
    requires WellFormed(history + more) && StandsAt(history + more, key, i)
    ensures |history| <= i
    ensures (history + more)[i].started < |history| ==> Open(history, key, (history + more)[i].started)
  {
    var all, n := history + more, |history|;
    assert all[n - 1] == history[n - 1];
    var s := all[i].started;
    assert Open(all[..i], key, s);
    if s < n {
      assert all[..i][s] == history[s];
      forall j | s < j < n
        ensures !(history[j].Completed? && history[j].started == s) && !(history[j].Failed? && history[j].started == s)
      {
        assert all[..i][j] == history[j];
      }
    }
  }
}
