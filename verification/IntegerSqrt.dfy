/** Newton's integer square root on 128-bit words, as the governor computes a quadratic
    vote weight and as its fuzz target recomputes it.

    `u128` is a bounded type, so the verifier checks every addition and division of the
    loop for overflow. */
module IntegerSqrt {
  import opened Arithmetic
  import opened Options

  const U128_LIMIT: int := 0x1_0000_0000_0000_0000_0000_0000_0000_0000
  const I128_LIMIT: int := 0x8000_0000_0000_0000_0000_0000_0000_0000

  newtype u128 = x: int | 0 <= x < 0x1_0000_0000_0000_0000_0000_0000_0000_0000
  newtype i128 = x: int | -0x8000_0000_0000_0000_0000_0000_0000_0000 <= x < 0x8000_0000_0000_0000_0000_0000_0000_0000

  datatype VoteType = Simple | Extended | Quadratic

  /** r is the floor of the square root of x. */
  ghost predicate IsRoot(x: int, r: int) {
    0 <= r && r * r <= x < (r + 1) * (r + 1)
  }

  lemma RootIsUnique(x: int, r: int, s: int)
    requires IsRoot(x, r) && IsRoot(x, s)
    ensures r == s
  {
    if r < s {
      SquareMonotone(r + 1, s);
    } else if s < r {
      SquareMonotone(s + 1, r);
    }
  }

  lemma SquareMonotone(a: int, b: int)
    requires 0 <= a <= b
    ensures a * a <= b * b
  {
    assert b * b - a * a == (b - a) * (b + a);
  }

  /** Every natural number has a root. */
  lemma {:induction false} RootExists(x: nat) returns (r: nat)
    ensures IsRoot(x, r)
  {
    r := 0;
    while (r + 1) * (r + 1) <= x
      invariant r * r <= x
      decreases x - r
    {
      r := r + 1;
    }
  }

  /** One Newton step from c never falls below the root s ... */
  lemma StepStaysAbove(x: int, c: int, s: int)
    requires IsRoot(x, s) && 0 < c
    ensures s <= (c + x / c) / 2
  {
    // c (c + x/c + 1) > c c + x >= c c + s s >= 2 c s
    var q := x / c;
    Division(x, c);
    MeanInequality(c, s);
    Distribute(c, c, q + 1);
    CancelFactor(c, c + (q + 1), 2 * s);
  }

  /** Twice the product is at most the sum of the squares. */
  lemma MeanInequality(c: int, s: int)
    ensures c * (2 * s) <= c * c + s * s
  {
    var d := c - s;
    assert 0 <= d * d;
    assert d * d == d * c - d * s;
    assert d * c == c * c - s * c && d * s == c * s - s * s;
  }

  /** ... and halves the distance to it while c is above the root. */
  lemma StepHalvesDistance(x: int, c: int, s: int)
    requires IsRoot(x, s) && s < c
    ensures 2 * ((c + x / c) / 2 - s) <= c - s
  {
    var q := x / c;
    assert c * q <= x by { Division(x, c); }
    if s + 1 <= q {
      ProductMonotone(s + 1, c, s + 1, q);
    }
  }

  lemma Division(x: int, c: int)
    requires 0 <= x && 0 < c
    ensures c * (x / c) <= x < c * (x / c + 1)
  {
    assert x == c * (x / c) + x % c;
    assert c * (x / c + 1) == c * (x / c) + c;
  }

  lemma CancelFactor(c: int, a: int, b: int)
    requires 0 < c && c * b < c * a
    ensures b < a
  {
    Distribute(c, a, -b);
    PositiveFactor(c, a - b);
  }

  lemma PositiveFactor(c: int, d: int)
    requires 0 < c && 0 < c * d
    ensures 0 < d
  {
  }

  lemma ProductMonotone(a: int, b: int, c: int, d: int)
    requires 0 <= a <= b && 0 <= c <= d
    ensures a * c <= b * d
  {
    assert a * c <= b * c;
    assert b * c <= b * d;
  }

  /** A value that is not below the root but whose step does not go down is the root. */
  lemma StoppedAtRoot(x: int, c: int, s: int)
    requires IsRoot(x, s) && s <= c && 0 < c && c <= (c + x / c) / 2
    ensures c == s
  {
    var q := x / c;
    assert c * q <= x by { Division(x, c); }
    if s + 1 <= c {
      ProductMonotone(s + 1, c, s + 1, q);
    }
  }

  lemma Pow2_128()
    ensures Pow2(128) == U128_LIMIT
  {
    assert Pow2(8) == 0x100;
    hide Pow2;
    Pow2Double(8, 0x100);
    Pow2Double(16, 0x1_0000);
    Pow2Double(32, 0x1_0000_0000);
    Pow2Double(64, 0x1_0000_0000_0000_0000);
  }

  lemma Pow2Double(a: nat, p: nat)
    requires Pow2(a) == p
    ensures Pow2(2 * a) == p * p
  {
    Pow2Add(a, a);
  }

  lemma {:induction false} Pow2Add(a: nat, b: nat)
    ensures Pow2(a + b) == Pow2(a) * Pow2(b)
  {
    if a != 0 {
      Pow2Add(a - 1, b);
      var p, q := Pow2(a - 1), Pow2(b);
      assert 2 * (p * q) == (2 * p) * q;
    }
  }

  function DivCeil2(x: u128): u128 {
    if x % 2 > 0 then x / 2 + 1 else x / 2
  }

  /** The start value ceil(x/2) is not below the root of x. */
  lemma StartStaysAbove(x: int, s: int)
    requires IsRoot(x, s) && 0 < x
    ensures s <= if x % 2 > 0 then x / 2 + 1 else x / 2
  {
    if 2 <= s {
      ProductMonotone(2, s, s, s);
    }
  }

  /** The sum of a step stays inside 128 bits: the quotient is at most s + 2. */
  lemma StepFits(x: int, c: int, s: int)
    requires IsRoot(x, s) && 1 <= s <= c <= x / 2 + 1 && x < U128_LIMIT
    ensures 0 <= x / c && c + x / c < U128_LIMIT
  {
    var q := x / c;
    assert c * q <= x by { Division(x, c); }
    assert (s + 1) * (s + 1) == s * s + 2 * s + 1 && s * (s + 3) == s * s + 3 * s;
    if s + 3 <= q {
      ProductMonotone(s, c, s + 3, q);
    }
    if 0x1_0000_0000_0000_0000 <= s {
      ProductMonotone(0x1_0000_0000_0000_0000, s, 0x1_0000_0000_0000_0000, s);
    }
  }

  /** The distance bound of the iteration count is kept by a step. */
  lemma DistanceBound(x: int, c: int, s: int, k: nat)
    requires IsRoot(x, s) && s < c && (c - s) * Pow2(k) <= x
    ensures ((c + x / c) / 2 - s) * Pow2(k + 1) <= x
    ensures Pow2(k) <= x
  {
    StepHalvesDistance(x, c, s);
    StepStaysAbove(x, c, s);
    Pow2Monotone(0, k);
    HalfTimesDouble(c - s, (c + x / c) / 2 - s, Pow2(k));
  }

  lemma HalfTimesDouble(d: int, half: int, p: int)
    requires 0 < p && 1 <= d && 0 <= half && 2 * half <= d
    ensures half * (2 * p) <= d * p && p <= d * p
  {
    ProductMonotone(2 * half, d, p, p);
    ProductMonotone(1, d, p, p);
    assert half * (2 * p) == (2 * half) * p;
  }

  lemma StepBound(x: int, steps: nat)
    requires x < U128_LIMIT
    requires 2 <= steps ==> Pow2(steps - 2) <= x
    ensures steps <= 129
  {
    if 130 <= steps {
      Pow2Monotone(128, steps - 2);
      Pow2_128();
    }
  }

  /** The Newton loop: the floor of the root, for every 128-bit word, in at most 129 steps.
      The out-parameter steps counts the iterations. */
  method NewtonRoot(x: u128) returns (curr: u128, ghost steps: nat)
    requires 0 < x
    ensures IsRoot(x as int, curr as int)
    ensures steps <= 129
  {
    ghost var s := RootExists(x as nat);
    ghost var xi := x as int;
    curr := x;
    var next := DivCeil2(curr);
    StartStaysAbove(xi, s);
    assert 1 <= s;
    assert s <= xi by { ProductMonotone(1, s, s, s); }
    steps := 0;

    while next < curr
      invariant 1 <= s <= next as int && s <= curr as int
      invariant steps == 0 ==> curr == x && next == DivCeil2(x)
      invariant 0 < steps ==> curr as int <= xi / 2 + 1
      invariant 0 < steps ==> (next as int) == (curr as int + xi / curr as int) / 2
      invariant 0 < steps ==> (curr as int - s) * Pow2(steps - 1) <= xi
      invariant 2 <= steps ==> Pow2(steps - 2) <= xi
      decreases curr
    {
      if 0 < steps {
        DistanceBound(xi, curr as int, s, steps - 1);
      }
      curr := next;
      StepStaysAbove(xi, curr as int, s);
      StepFits(xi, curr as int, s);
      next := (curr + x / curr) / 2;
      steps := steps + 1;
    }
    if 0 < steps {
      StoppedAtRoot(xi, curr as int, s);
    } else {
      assert x == 1;
      RootIsUnique(1, s, 1);
    }
    StepBound(xi, steps);
  }

  /** The fuzz target's check value: none for a negative input, else the root. The result
      always fits back into a signed word. */
  method VerifySqrtBounds(x: i128) returns (result: Option<i128>)
    ensures result.None? <==> x < 0
    ensures result.Some? ==> IsRoot(x as int, result.value as int)
  {
    if x < 0 { return None; }
    var word := x as u128;
    if word == 0 { return Some(0); }
    var curr, _ := NewtonRoot(word);
    RootFitsSigned(word as int, curr as int);
    result := Some(curr as i128);
  }

  lemma RootFitsSigned(x: int, r: int)
    requires IsRoot(x, r) && x < U128_LIMIT
    ensures r < 0x1_0000_0000_0000_0000 < I128_LIMIT
  {
    if 0x1_0000_0000_0000_0000 <= r {
      ProductMonotone(0x1_0000_0000_0000_0000, r, 0x1_0000_0000_0000_0000, r);
    }
  }

  /** The cast of a signed word to an unsigned one (two's complement). */
  function AsUnsigned(x: i128): u128 {
    if x < 0 then (x as int + U128_LIMIT) as u128 else x as u128
  }

  /** The weight a vote carries. A non-negative raw weight gives the root under quadratic
      voting; a negative one is reinterpreted as an unsigned word first. */
  method ApplyVoteType(voteType: VoteType, rawWeight: i128) returns (weight: i128)
    ensures !voteType.Quadratic? ==> weight == rawWeight
    ensures voteType.Quadratic? ==> IsRoot(AsUnsigned(rawWeight) as int, weight as int)
    ensures voteType.Quadratic? ==> (IsRoot(rawWeight as int, weight as int) <==> 0 <= rawWeight)
  {
    match voteType
    case Simple => weight := rawWeight;
    case Extended => weight := rawWeight;
    case Quadratic =>
      var raw := AsUnsigned(rawWeight);
      if raw == 0 { return 0; }
      var x, _ := NewtonRoot(raw);
      RootFitsSigned(raw as int, x as int);
      weight := x as i128;
  }

  /** A raw weight of -9 counts as the largest root of a 128-bit word, 2^64 - 1. */
  lemma NegativeWeight()
    ensures IsRoot(AsUnsigned(-9) as int, 0xFFFF_FFFF_FFFF_FFFF)
  {
    assert AsUnsigned(-9) as int == U128_LIMIT - 9;
  }
}
