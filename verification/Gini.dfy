/** The Gini coefficient of a list of voting powers.

    `ComputeGini` sorts, takes one weighted sum and returns a closed form. The reference
    definition is the pairwise one: the mean absolute difference of all ordered pairs,
    divided by twice the mean. Numbers are exact (int and real), not double precision. */
module Gini {

  // ---------------------------------------------------------------- sums over a list

  /** The sum of f over the elements of s. */
  function SumMap(f: int -> int, s: seq<int>): int {
    if s == [] then 0 else SumMap(f, s[..|s| - 1]) + f(s[|s| - 1])
  }

  function Identity(): (f: int -> int)
    ensures forall x :: f(x) == x
  { x => x }

  function Total(s: seq<int>): int { SumMap(Identity(), s) }

  function Abs(x: int): nat { if x < 0 then -x else x }

  /** The distance of every number from x. */
  function DistanceFrom(x: int): (f: int -> int)
    ensures forall y :: f(y) == Abs(x - y)
  { y => Abs(x - y) }

  /** The total distance of a number from all elements of s. */
  function DistanceToAll(s: seq<int>): (f: int -> int)
    ensures forall x :: f(x) == SumMap(DistanceFrom(x), s)
  { x => SumMap(DistanceFrom(x), s) }

  /** The sum of |s[i] - s[j]| over all ordered pairs (i, j). */
  function PairSum(s: seq<int>): int { SumMap(DistanceToAll(s), s) }

  /** s[0] + 2 s[1] + ... + n s[n-1]. */
  function WeightedSum(s: seq<int>): int {
    if s == [] then 0 else WeightedSum(s[..|s| - 1]) + |s| * s[|s| - 1]
  }

  /** The definition: PairSum / (2 n T); an empty list and a zero total give 0. */
  function Gini(s: seq<int>): real {
    if s == [] || Total(s) == 0 then 0.0
    else PairSum(s) as real / (2 * |s| * Total(s)) as real
  }

  ghost predicate Sorted(s: seq<int>) {
    forall i, j :: 0 <= i < j < |s| ==> s[i] <= s[j]
  }

  ghost predicate NonNegative(s: seq<int>) {
    forall i :: 0 <= i < |s| ==> 0 <= s[i]
  }

  lemma SumMapSnoc(f: int -> int, s: seq<int>, x: int)
    ensures SumMap(f, s + [x]) == SumMap(f, s) + f(x)
  {
    assert (s + [x])[..|s|] == s;
  }

  lemma {:induction false} SumMapConcat(f: int -> int, a: seq<int>, b: seq<int>)
    ensures SumMap(f, a + b) == SumMap(f, a) + SumMap(f, b)
  {
    if b == [] {
      assert a + b == a;
    } else {
      var t, x := b[..|b| - 1], b[|b| - 1];
      assert a + b == (a + t) + [x];
      SumMapSnoc(f, a + t, x);
      SumMapConcat(f, a, t);
    }
  }

  /** Taking one element out takes its term out. */
  lemma SumMapRemove(f: int -> int, s: seq<int>, j: nat)
    requires j < |s|
    ensures SumMap(f, s) == SumMap(f, s[..j] + s[j + 1..]) + f(s[j])
  {
    hide SumMap;
    var u, x, v := s[..j], s[j], s[j + 1..];
    assert s == (u + [x]) + v;
    SumMapConcat(f, u + [x], v);
    SumMapSnoc(f, u, x);
    SumMapConcat(f, u, v);
  }

  /** Lists with the same elements still have them after the same element is taken out. */
  lemma RemoveSame(a: seq<int>, b: seq<int>) returns (j: nat)
    requires multiset(a) == multiset(b) && a != []
    ensures j < |b| && b[j] == a[|a| - 1]
    ensures multiset(a[..|a| - 1]) == multiset(b[..j] + b[j + 1..])
  {
    var t, x := a[..|a| - 1], a[|a| - 1];
    assert a == t + [x];
    assert x in multiset(b);
    j :| 0 <= j < |b| && b[j] == x;
    assert b == b[..j] + [x] + b[j + 1..];
    assert multiset(a) == multiset(t) + multiset{x};
    assert multiset(b) == multiset(b[..j]) + multiset{x} + multiset(b[j + 1..]);
    assert multiset(t) == multiset(a) - multiset{x};
    assert multiset(b[..j] + b[j + 1..]) == multiset(b) - multiset{x};
  }

  /** A sum does not depend on the order of its terms. */
  lemma {:induction false} SumMapPermutation(f: int -> int, a: seq<int>, b: seq<int>)
    requires multiset(a) == multiset(b)
    ensures SumMap(f, a) == SumMap(f, b)
    decreases |a|
  {
    if a == [] {
      assert |multiset(b)| == 0;
    } else {
      var j := RemoveSame(a, b);
      SumMapPermutation(f, a[..|a| - 1], b[..j] + b[j + 1..]);
      SumMapRemove(f, b, j);
    }
  }

  /** Equal functions, equal sums. */
  lemma {:induction false} SumMapCongruence(f: int -> int, g: int -> int, s: seq<int>)
    requires forall i :: 0 <= i < |s| ==> f(s[i]) == g(s[i])
    ensures SumMap(f, s) == SumMap(g, s)
  {
    if s != [] {
      SumMapCongruence(f, g, s[..|s| - 1]);
    }
  }

  /** A sum of non-negative terms is non-negative, and zero only if every term is. */
  lemma {:induction false} SumMapNonNegative(f: int -> int, s: seq<int>)
    requires forall i :: 0 <= i < |s| ==> 0 <= f(s[i])
    ensures 0 <= SumMap(f, s)
    ensures SumMap(f, s) == 0 <==> forall i :: 0 <= i < |s| ==> f(s[i]) == 0
  {
    if s != [] {
      var t := s[..|s| - 1];
      SumMapNonNegative(f, t);
      assert forall i :: 0 <= i < |t| ==> t[i] == s[i];
    }
  }

  lemma {:induction false} SumMapScale(f: int -> int, g: int -> int, s: seq<int>, t: seq<int>, k: int)
    requires |s| == |t|
    requires forall i :: 0 <= i < |s| ==> g(t[i]) == k * f(s[i])
    ensures SumMap(g, t) == k * SumMap(f, s)
  {
    if s != [] {
      SumMapScale(f, g, s[..|s| - 1], t[..|t| - 1], k);
    }
  }

  // ---------------------------------------------------------------- the shortcut is the definition

  /** The distances from an upper bound m of s add up to |s| m - Total(s). */
  lemma {:induction false} DistanceFromMaximum(s: seq<int>, m: int)
    requires forall i :: 0 <= i < |s| ==> s[i] <= m
    ensures SumMap(DistanceFrom(m), s) == |s| * m - Total(s)
  {
    if s != [] {
      DistanceFromMaximum(s[..|s| - 1], m);
    }
  }

  /** Appending an upper bound m to t adds its distance to every row and one new row. */
  lemma PairSumSnoc(t: seq<int>, m: int)
    requires forall i :: 0 <= i < |t| ==> t[i] <= m
    ensures PairSum(t + [m]) == PairSum(t) + 2 * (|t| * m - Total(t))
  {
    var s := t + [m];
    SumMapSnoc(DistanceToAll(s), t, m);
    RowsSnoc(t, t, m);
    SumMapSnoc(DistanceFrom(m), t, m);
    DistanceFromMaximum(t, m);
  }

  lemma RowsSnoc(rows: seq<int>, t: seq<int>, m: int)
    requires forall i :: 0 <= i < |rows| ==> rows[i] <= m
    ensures SumMap(DistanceToAll(t + [m]), rows) == SumMap(DistanceToAll(t), rows) + |rows| * m - Total(rows)
  {
    hide SumMap;
    forall i | 0 <= i < |rows| ensures DistanceToAll(t + [m])(rows[i]) == DistanceToAll(t)(rows[i]) + (m - rows[i]) {
      SumMapSnoc(DistanceFrom(rows[i]), t, m);
    }
    SumMapShift(DistanceToAll(t), DistanceToAll(t + [m]), rows, m);
  }

  /** Adding m - x to every term adds |s| m - Total(s) to the sum. */
  lemma {:induction false} SumMapShift(f: int -> int, g: int -> int, s: seq<int>, m: int)
    requires forall i :: 0 <= i < |s| ==> g(s[i]) == f(s[i]) + (m - s[i])
    ensures SumMap(g, s) == SumMap(f, s) + |s| * m - Total(s)
  {
    if s != [] {
      var n: int := |s| - 1;
      SumMapShift(f, g, s[..n], m);
      assert (n + 1) * m == n * m + m;
    }
  }

  /** On a sorted list the pairwise sum is the weighted sum of the shortcut. */
  lemma {:induction false} PairSumOfSorted(s: seq<int>)
    requires Sorted(s)
    ensures PairSum(s) == 2 * (2 * WeightedSum(s) - (|s| + 1) * Total(s))
  {
    if s != [] {
      var t, m := s[..|s| - 1], s[|s| - 1];
      assert s == t + [m];
      assert WeightedSum(s) == WeightedSum(t) + |s| * m;
      assert Total(s) == Total(t) + m;
      hide PairSum, WeightedSum, Total, SumMap;
      PairSumOfSorted(t);
      PairSumSnoc(t, m);
      SortedStep(WeightedSum(t), Total(t), |t|, m);
    }
  }

  lemma SortedStep(w: int, c: int, k: int, m: int)
    ensures 2 * (2 * (w + (k + 1) * m) - (k + 2) * (c + m)) == 2 * (2 * w - (k + 1) * c) + 2 * (k * m - c)
  {
    assert (k + 1) * m == k * m + m;
    assert (k + 2) * (c + m) == (k + 1) * c + c + k * m + 2 * m;
  }

  /** Neither the pairwise sum, the total nor the coefficient depends on the order. */
  lemma GiniPermutation(a: seq<int>, b: seq<int>)
    requires multiset(a) == multiset(b)
    ensures PairSum(a) == PairSum(b) && Total(a) == Total(b) && |a| == |b|
    ensures Gini(a) == Gini(b)
  {
    assert |multiset(a)| == |multiset(b)|;
    SumMapPermutation(Identity(), a, b);
    SumMapPermutation(DistanceToAll(a), a, b);
    forall i | 0 <= i < |b| ensures DistanceToAll(a)(b[i]) == DistanceToAll(b)(b[i]) {
      SumMapPermutation(DistanceFrom(b[i]), a, b);
    }
    SumMapCongruence(DistanceToAll(a), DistanceToAll(b), b);
  }

  lemma ScaledSums(s: seq<int>, t: seq<int>, k: int)
    requires 0 < k && |t| == |s|
    requires forall i :: 0 <= i < |s| ==> t[i] == k * s[i]
    ensures Total(t) == k * Total(s) && PairSum(t) == k * PairSum(s)
  {
    SumMapScale(Identity(), Identity(), s, t, k);
    forall i | 0 <= i < |s| ensures DistanceToAll(t)(t[i]) == k * DistanceToAll(s)(s[i]) {
      forall j | 0 <= j < |s| ensures DistanceFrom(t[i])(t[j]) == k * DistanceFrom(s[i])(s[j]) {
        ScaleDistance(s[i], s[j], k);
      }
      SumMapScale(DistanceFrom(s[i]), DistanceFrom(t[i]), s, t, k);
    }
    SumMapScale(DistanceToAll(s), DistanceToAll(t), s, t, k);
  }

  /** Multiplying every power by k > 0 leaves the coefficient as it is. */
  lemma GiniScale(s: seq<int>, t: seq<int>, k: int)
    requires 0 < k && |t| == |s|
    requires forall i :: 0 <= i < |s| ==> t[i] == k * s[i]
    ensures Gini(t) == Gini(s)
  {
    ScaledSums(s, t, k);
    if s != [] {
      ScaleRatio(PairSum(s), |s|, Total(s), k);
    }
  }

  lemma ScaleRatio(p: int, n: int, t: int, k: int)
    requires 0 < n && 0 < k
    ensures k * t == 0 <==> t == 0
    ensures t != 0 ==>
              && 2 * n * t != 0 && 2 * n * (k * t) != 0
              && (k * p) as real / (2 * n * (k * t)) as real == p as real / (2 * n * t) as real
  {
    if t != 0 {
      ScaleNonZero(n, t, k);
      assert 2 * n * (k * t) == (2 * n * t) * k && k * p == p * k;
      ScaleFraction(p, 2 * n * t, k);
    }
  }

  lemma ScaleNonZero(n: nat, t: int, k: int)
    requires 0 < k && 0 < n && t != 0
    ensures k * t != 0 && n * t != 0 && 2 * n * t != 0
  {
  }

  lemma ScaleDistance(x: int, y: int, k: int)
    requires 0 < k
    ensures Abs(k * x - k * y) == k * Abs(x - y)
  {
    assert k * x - k * y == k * (x - y);
  }

  // ---------------------------------------------------------------- bounds

  lemma {:induction false} WeightedSumBound(s: seq<int>)
    requires NonNegative(s)
    ensures WeightedSum(s) <= |s| * Total(s)
    ensures s != [] ==> WeightedSum(s) <= |s| * Total(s) - Total(s[..|s| - 1])
  {
    if s != [] {
      var t, m := s[..|s| - 1], s[|s| - 1];
      WeightedSumBound(t);
      SumMapNonNegative(Identity(), t);
      assert |s| * (Total(t) + m) == |t| * Total(t) + Total(t) + |s| * m;
    }
  }

  /** Someone holds everything: some element equals the total. */
  ghost predicate Concentrated(s: seq<int>) {
    exists i :: 0 <= i < |s| && s[i] == Total(s)
  }

  ghost predicate AllEqual(s: seq<int>) {
    forall i, j :: 0 <= i < |s| && 0 <= j < |s| ==> s[i] == s[j]
  }

  lemma Shortfall(w: int, n: int, t: int)
    ensures 2 * (2 * w - (n + 1) * t) == 2 * (n - 1) * t - 4 * (n * t - w)
  {
  }

  /** The pairwise sum of a sorted list falls short of 2 (n-1) T by four times what the
      weighted sum falls short of n T; it reaches it exactly if the last account holds all. */
  lemma SortedUpperBound(u: seq<int>)
    requires Sorted(u) && NonNegative(u) && u != []
    ensures PairSum(u) <= 2 * (|u| - 1) * Total(u)
    ensures PairSum(u) == 2 * (|u| - 1) * Total(u) <==> u[|u| - 1] == Total(u)
  {
    var front := u[..|u| - 1];
    PairSumOfSorted(u);
    WeightedSumBound(u);
    SumMapNonNegative(Identity(), front);
    var n, t, w := |u|, Total(u), WeightedSum(u);
    Shortfall(w, n, t);
    if u[n - 1] == t {
      AllButLastZero(u);
    }
  }

  /** In integers: 0 <= PairSum <= 2 (n-1) T, with the two extremes characterised. */
  lemma PairSumBounds(s: seq<int>)
    requires NonNegative(s) && s != []
    ensures 0 <= PairSum(s) <= 2 * (|s| - 1) * Total(s)
    ensures PairSum(s) == 0 <==> AllEqual(s)
    ensures PairSum(s) == 2 * (|s| - 1) * Total(s) <==> Concentrated(s)
  {
    PairSumZero(s);
    var u := SortAscending(s);
    GiniPermutation(s, u);
    forall i | 0 <= i < |u| ensures 0 <= u[i] { assert u[i] in multiset(s); }
    SortedUpperBound(u);
    ConcentratedSorted(s, u);
  }

  /** In sorted order, the account that holds everything is the last one. */
  lemma ConcentratedSorted(s: seq<int>, u: seq<int>)
    requires Sorted(u) && NonNegative(u) && u != []
    requires multiset(s) == multiset(u) && Total(s) == Total(u)
    ensures Concentrated(s) <==> u[|u| - 1] == Total(u)
  {
    var last := u[|u| - 1];
    SumMapNonNegative(Identity(), u[..|u| - 1]);
    if Concentrated(s) {
      var i :| 0 <= i < |s| && s[i] == Total(s);
      assert s[i] in multiset(u);
    }
    if last == Total(u) {
      assert last in multiset(s);
    }
  }

  /** If the last element carries the whole total, the weighted sum is n times the total. */
  lemma AllButLastZero(u: seq<int>)
    requires NonNegative(u) && u != [] && u[|u| - 1] >= Total(u)
    ensures WeightedSum(u) == |u| * Total(u)
  {
    var front := u[..|u| - 1];
    SumMapNonNegative(Identity(), front);
    ZeroWeights(front);
  }

  lemma {:induction false} ZeroWeights(s: seq<int>)
    requires forall i :: 0 <= i < |s| ==> s[i] == 0
    ensures WeightedSum(s) == 0
  {
    if s != [] {
      ZeroWeights(s[..|s| - 1]);
    }
  }

  lemma PairSumZero(s: seq<int>)
    ensures 0 <= PairSum(s)
    ensures PairSum(s) == 0 <==> AllEqual(s)
  {
    forall i | 0 <= i < |s|
      ensures 0 <= DistanceToAll(s)(s[i])
      ensures DistanceToAll(s)(s[i]) == 0 <==> forall j :: 0 <= j < |s| ==> s[i] == s[j]
    {
      SumMapNonNegative(DistanceFrom(s[i]), s);
      assert forall j :: 0 <= j < |s| ==> (DistanceFrom(s[i])(s[j]) == 0 <==> s[i] == s[j]);
    }
    SumMapNonNegative(DistanceToAll(s), s);
  }

  /** The coefficient lies between 0 and (n-1)/n. It is 0 exactly when all powers are equal
      and (n-1)/n exactly when one account holds everything. */
  lemma GiniBounds(s: seq<int>)
    requires NonNegative(s) && 0 < Total(s)
    ensures s != []
    ensures 0.0 <= Gini(s) <= (|s| - 1) as real / |s| as real
    ensures Gini(s) == 0.0 <==> AllEqual(s)
    ensures Gini(s) == (|s| - 1) as real / |s| as real <==> Concentrated(s)
  {
    assert s != [];
    PairSumBounds(s);
    RatioBounds(PairSum(s), |s|, Total(s));
  }

  lemma RatioBounds(p: int, n: int, t: int)
    requires 0 < n && 0 < t && 0 <= p <= 2 * (n - 1) * t
    ensures 2 * n * t != 0
    ensures var g := p as real / (2 * n * t) as real;
            var top := (n - 1) as real / n as real;
            0.0 <= g <= top && (g == 0.0 <==> p == 0) && (g == top <==> p == 2 * (n - 1) * t)
  {
    TopAsFraction(n, t);
    FractionRange(p, 2 * (n - 1) * t, 2 * n * t);
  }

  lemma TopAsFraction(n: int, t: int)
    requires 0 < n && 0 < t
    ensures 0 < 2 * n * t
    ensures (n - 1) as real / n as real == (2 * (n - 1) * t) as real / (2 * n * t) as real
  {
    PositiveProduct(n, t);
    Regroup(n, t);
    Regroup(n - 1, t);
    ScaleFraction(n - 1, n, 2 * t);
  }

  lemma PositiveProduct(n: int, t: int)
    requires 0 < n && 0 < t
    ensures 0 < 2 * n * t
  {
  }

  lemma Regroup(n: int, t: int)
    ensures n * (2 * t) == 2 * n * t
  {
  }

  lemma FractionRange(p: int, m: int, d: int)
    requires 0 < d && 0 <= p <= m
    ensures var g, top := p as real / d as real, m as real / d as real;
            0.0 <= g <= top && (g == 0.0 <==> p == 0) && (g == top <==> p == m)
  {
    SameDenominator(p, m, d);
    SameDenominator(0, p, d);
  }

  /** A fraction keeps its value when both parts are multiplied by the same number. */
  lemma ScaleFraction(x: int, y: int, k: int)
    requires y != 0 && k != 0
    ensures y * k != 0 && (x * k) as real / (y * k) as real == x as real / y as real
  {
    ProductNonZero(y, k);
    ProductAsReal(x, k);
    ProductAsReal(y, k);
    RealScaleFraction(x as real, y as real, k as real);
  }

  lemma ProductNonZero(y: int, k: int)
    requires y != 0 && k != 0
    ensures y * k != 0
  {
  }

  lemma ProductAsReal(a: int, b: int)
    ensures (a * b) as real == a as real * b as real
  {
  }

  lemma RealScaleFraction(x: real, y: real, k: real)
    requires y != 0.0 && k != 0.0
    ensures y * k != 0.0 && x * k / (y * k) == x / y
  {
    var q := x / y;
    assert q * y == x;
    assert q * (y * k) == x * k;
  }

  lemma SameDenominator(x: int, y: int, d: int)
    requires 0 < d
    ensures x as real / d as real <= y as real / d as real <==> x <= y
    ensures x as real / d as real == y as real / d as real <==> x == y
  {
    var dr := d as real;
    var a, b := x as real / dr, y as real / dr;
    assert a * dr == x as real && b * dr == y as real;
    QuotientOrder(a, b, dr);
  }

  lemma QuotientOrder(a: real, b: real, d: real)
    requires 0.0 < d
    ensures a <= b <==> a * d <= b * d
    ensures a == b <==> a * d == b * d
  {
    if a < b {
      assert (b - a) * d > 0.0;
    } else if b < a {
      assert (a - b) * d > 0.0;
    }
  }

  // ---------------------------------------------------------------- the computation

  /** Insertion into a sorted list. */
  function Insert(x: int, s: seq<int>): (r: seq<int>)
    requires Sorted(s)
    ensures Sorted(r)
    ensures r != [] && (r[|r| - 1] == x || (s != [] && r[|r| - 1] == s[|s| - 1]))
  {
    if s == [] || s[|s| - 1] <= x then s + [x]
    else
      Insert(x, s[..|s| - 1]) + [s[|s| - 1]]
  }

  lemma {:induction false} InsertElements(x: int, s: seq<int>)
    requires Sorted(s)
    ensures multiset(Insert(x, s)) == multiset(s) + multiset{x}
  {
    if s != [] && x < s[|s| - 1] {
      InsertElements(x, s[..|s| - 1]);
      assert s == s[..|s| - 1] + [s[|s| - 1]];
    }
  }

  /** Stands for the ascending sort of the runtime library. */
  function SortAscending(s: seq<int>): (r: seq<int>)
    ensures Sorted(r) && multiset(r) == multiset(s)
  {
    if s == [] then [] else
      assert s == s[..|s| - 1] + [s[|s| - 1]];
      InsertElements(s[|s| - 1], SortAscending(s[..|s| - 1]));
      Insert(s[|s| - 1], SortAscending(s[..|s| - 1]))
  }

  /** The Gini coefficient by sorting and one weighted sum: exactly the pairwise definition,
      for every list of integers. */
  method ComputeGini(powers: seq<int>) returns (g: real)
    ensures g == Gini(powers)
  {
    hide Gini, Shortcut, SumMap, WeightedSum;
    GiniOfNothing(powers);
    if |powers| == 0 { return 0.0; }
    var sorted := SortAscending(powers);
    GiniPermutation(powers, sorted);
    var n := |sorted|;
    var total := Total(sorted);
    if total == 0 { return 0.0; }

    var weightedSum := 0;
    WeightedSumEmpty();
    for i := 0 to n
      invariant weightedSum == WeightedSum(sorted[..i])
    {
      WeightedSumStep(sorted, i);
      weightedSum := weightedSum + (i + 1) * sorted[i];
    }
    assert sorted[..n] == sorted;
    g := Shortcut(weightedSum, n, total);
    ShortcutIsDefinition(sorted);
  }

  lemma GiniOfNothing(s: seq<int>)
    ensures s == [] || Total(s) == 0 ==> Gini(s) == 0.0
  {
  }

  lemma WeightedSumEmpty()
    ensures WeightedSum([]) == 0
  {
  }

  lemma WeightedSumStep(s: seq<int>, i: nat)
    requires i < |s|
    ensures WeightedSum(s[..i + 1]) == WeightedSum(s[..i]) + (i + 1) * s[i]
  {
    assert s[..i + 1][..i] == s[..i];
  }

  /** The closed form: 2W/(nT) - (n+1)/n. */
  function Shortcut(w: int, n: int, t: int): real
    requires 0 < n && t != 0
  {
    ScaleNonZero(n, t, 1);
    (2 * w) as real / (n * t) as real - (n + 1) as real / n as real
  }

  lemma ShortcutIsDefinition(s: seq<int>)
    requires Sorted(s) && s != [] && Total(s) != 0
    ensures Shortcut(WeightedSum(s), |s|, Total(s)) == Gini(s)
  {
    PairSumOfSorted(s);
    ShortcutIsRatio(WeightedSum(s), |s|, Total(s));
  }

  /** 2W/(nT) - (n+1)/n is 2(2W - (n+1)T) / (2nT). */
  lemma ShortcutIsRatio(w: int, n: int, t: int)
    requires 0 < n && t != 0
    ensures n * t != 0 && 2 * n * t != 0
    ensures (2 * w) as real / (n * t) as real - (n + 1) as real / n as real
         == (2 * (2 * w - (n + 1) * t)) as real / (2 * n * t) as real
  {
    ScaleNonZero(n, t, 1);
    ScaleFraction(n + 1, n, t);
    Difference(2 * w, (n + 1) * t, n * t);
    ScaleFraction(2 * w - (n + 1) * t, n * t, 2);
    assert (n * t) * 2 == 2 * n * t && (2 * w - (n + 1) * t) * 2 == 2 * (2 * w - (n + 1) * t);
  }

  lemma Difference(x: int, y: int, d: int)
    requires d != 0
    ensures x as real / d as real - y as real / d as real == (x - y) as real / d as real
  {
    var dr := d as real;
    var a, b := x as real / dr, y as real / dr;
    assert a * dr == x as real && b * dr == y as real;
    assert (a - b) * dr == (x - y) as real;
  }
}
