/** Retrying an operation with capped exponential backoff and jitter. */
module Retry {
  import opened Arithmetic

  type Error = string

  /** What one call of the operation does. */
  datatype Attempt<T> = Succeeds(value: T) | Fails(error: Error)

  /** How the whole ends: a value, an error, or, without any attempt, no error to throw. */
  datatype Outcome<T> = Returned(value: T) | Threw(error: Error) | ThrewNothing

  /** The delay before jitter after the given attempt (1, 2, ...). */
  function Delay(base: real, maxDelay: real, attempt: nat): real
    requires 1 <= attempt
  {
    var exponential := base * Pow2(attempt - 1) as real;
    if exponential < maxDelay then exponential else maxDelay
  }

  /** The actual sleep: the delay and up to 30 per cent more. */
  function Jittered(delay: real, random: real): (sleep: real)
    ensures sleep == delay * (1.0 + 0.3 * random)
  {
    delay + random * delay * 0.3
  }

  /** The first delay is the base, each further one twice the one before, all within the cap. */
  lemma DelaysDouble(base: real, maxDelay: real, attempt: nat)
    requires 0.0 <= base && 0.0 <= maxDelay && 1 <= attempt
    ensures Delay(base, maxDelay, 1) == if base < maxDelay then base else maxDelay
    ensures var double := 2.0 * Delay(base, maxDelay, attempt);
            Delay(base, maxDelay, attempt + 1) == if double < maxDelay then double else maxDelay
  {
    assert Pow2(0) == 1;
    var p := Pow2(attempt - 1) as real;
    assert Pow2(attempt) as real == 2.0 * p;
    DoubleProduct(base, p);
  }

  /** Delays never go down and never exceed the cap. */
  lemma {:induction false} DelaysGrow(base: real, maxDelay: real, a: nat, b: nat)
    requires 0.0 <= base && 1 <= a <= b
    ensures Delay(base, maxDelay, a) <= Delay(base, maxDelay, b) <= maxDelay
  {
    if a < b {
      DelaysGrow(base, maxDelay, a, b - 1);
      var p := Pow2(b - 2) as real;
      assert Pow2(b - 1) as real == 2.0 * p;
      DoubleProduct(base, p);
      Pow2Positive(b - 2);
      NonNegativeProduct(base, p);
    }
  }

  function Sum(s: seq<real>): real {
    if s == [] then 0.0 else Sum(s[..|s| - 1]) + s[|s| - 1]
  }

  /** The operation is called exactly up to its first success, its first error that is not
      retried, or the last allowed attempt, and that attempt's outcome is the result. Between
      two calls it sleeps the delay plus at most 30 per cent. */
  method WithRetry<T>(op: nat -> Attempt<T>, retryOn: Error -> bool, jitter: nat -> real,
                      maxAttempts: int, base: real, maxDelay: real)
    returns (outcome: Outcome<T>, calls: nat, sleeps: seq<real>)
    requires forall i :: 0.0 <= jitter(i) < 1.0
    ensures maxAttempts < 1 ==> outcome.ThrewNothing? && calls == 0 && sleeps == []
    ensures 1 <= maxAttempts ==>
              && 1 <= calls <= maxAttempts && |sleeps| == calls - 1
              && (forall i :: 1 <= i < calls ==> op(i).Fails? && retryOn(op(i).error))
              && (calls < maxAttempts ==> op(calls).Succeeds? || !retryOn(op(calls).error))
              && (op(calls).Succeeds? ==> outcome == Returned(op(calls).value))
              && (op(calls).Fails? ==> outcome == Threw(op(calls).error))
    ensures forall i :: 0 <= i < |sleeps| ==>
              sleeps[i] == Jittered(Delay(base, maxDelay, i + 1), jitter(i + 1))
  {
    sleeps := [];
    calls := 0;
    outcome := ThrewNothing;
    var attempt := 1;
    while attempt <= maxAttempts
      invariant 1 <= attempt && calls == attempt - 1 && |sleeps| == calls
      invariant attempt <= maxAttempts || maxAttempts < 1
      invariant maxAttempts < 1 ==> calls == 0 && outcome.ThrewNothing?
      invariant forall i :: 1 <= i < attempt ==> op(i).Fails? && retryOn(op(i).error)
      invariant forall i :: 0 <= i < |sleeps| ==>
                  sleeps[i] == Jittered(Delay(base, maxDelay, i + 1), jitter(i + 1))
      decreases maxAttempts - attempt
    {
      calls := calls + 1;
      match op(attempt) {
        case Succeeds(value) =>
          return Returned(value), calls, sleeps;
        case Fails(error) =>
          outcome := Threw(error);
          if !retryOn(error) { return; }
          if attempt == maxAttempts { return; }
          var exponential := Delay(base, maxDelay, attempt);
          sleeps := sleeps + [Jittered(exponential, jitter(attempt))];
      }
      attempt := attempt + 1;
    }
  }

  /** With non-negative delays the total sleep is at most 1.3 times the cap per sleep. */
  lemma {:induction false} TotalSleep(sleeps: seq<real>, jitter: nat -> real, base: real, maxDelay: real)
    requires 0.0 <= base && 0.0 <= maxDelay && forall i :: 0.0 <= jitter(i) < 1.0
    requires forall i :: 0 <= i < |sleeps| ==>
               sleeps[i] == Jittered(Delay(base, maxDelay, i + 1), jitter(i + 1))
    ensures Sum(sleeps) <= 1.3 * |sleeps| as real * maxDelay
  {
    if sleeps != [] {
      hide Delay, Jittered;
      var n := |sleeps|;
      TotalSleep(sleeps[..n - 1], jitter, base, maxDelay);
      DelayInRange(base, maxDelay, n);
      OneSleep(Delay(base, maxDelay, n), jitter(n), maxDelay, (n - 1) as real);
    }
  }

  lemma DelayInRange(base: real, maxDelay: real, attempt: nat)
    requires 0.0 <= base && 0.0 <= maxDelay && 1 <= attempt
    ensures 0.0 <= Delay(base, maxDelay, attempt) <= maxDelay
  {
    Pow2Positive(attempt - 1);
    NonNegativeProduct(base, Pow2(attempt - 1) as real);
  }

  lemma DoubleProduct(x: real, y: real)
    ensures x * (2.0 * y) == x * y + x * y
  {
  }

  lemma NonNegativeProduct(x: real, y: real)
    requires 0.0 <= x && 0.0 <= y
    ensures 0.0 <= x * y
  {
  }

  lemma OneSleep(delay: real, jitter: real, cap: real, before: real)
    requires 0.0 <= delay <= cap && 0.0 <= jitter < 1.0
    ensures 1.3 * before * cap + Jittered(delay, jitter) <= 1.3 * (before + 1.0) * cap
  {
    NonNegativeProduct(1.0 - jitter, delay);
    assert (1.0 - jitter) * delay == delay - jitter * delay;
    assert 1.3 * (before + 1.0) * cap == 1.3 * before * cap + 1.3 * cap;
  }
}
