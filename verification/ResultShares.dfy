/** The integer arithmetic of the signaling result chart: shares in tenths of a per cent and
    bar lengths relative to the largest choice. */
module ResultShares {
  import opened Arithmetic

  function Sum(s: seq<nat>): nat {
    if s == [] then 0 else Sum(s[..|s| - 1]) + s[|s| - 1]
  }

  /** The shares of all choices, in tenths of a per cent, rounded down. */
  function Shares(totals: seq<nat>, totalWeight: nat): seq<nat>
    requires 0 < totalWeight
  {
    seq(|totals|, i requires 0 <= i < |totals| => totals[i] * 1000 / totalWeight)
  }

  /** Every share is its choice's part of the weight, rounded down to a tenth of a per cent. */
  lemma ShareIs(totals: seq<nat>, totalWeight: nat, i: nat)
    requires 0 < totalWeight && i < |totals|
    ensures |Shares(totals, totalWeight)| == |totals|
    ensures var share := Shares(totals, totalWeight)[i]; totalWeight * share <= 1000 * totals[i] < totalWeight * share + totalWeight
  {
    QuotientBounds(totals[i] * 1000, totalWeight);
  }

  lemma {:induction false} SharesSum(totals: seq<nat>, w: nat)
    requires 0 < w
    ensures w * Sum(Shares(totals, w)) <= 1000 * Sum(totals) <= w * Sum(Shares(totals, w)) + (w - 1) * |totals|
  {
    if totals != [] {
      var n := |totals| - 1;
      var front, x := totals[..n], totals[n];
      SharesSum(front, w);
      assert Shares(totals, w)[..n] == Shares(front, w);
      QuotientBounds(x * 1000, w);
      Distribute(w, Sum(Shares(front, w)), x * 1000 / w);
      Distribute(w - 1, n, 1);
    }
  }

  /** If the choices' totals make up the total weight, the displayed shares add up to at most
      100.0 per cent, and fall short of it by less than a tenth per choice. */
  lemma SharesNearlyComplete(totals: seq<nat>, totalWeight: nat)
    requires 0 < totalWeight && Sum(totals) == totalWeight
    ensures totals != []
    ensures 1000 - (|totals| - 1) <= Sum(Shares(totals, totalWeight)) <= 1000
  {
    var s, w, n := Sum(Shares(totals, totalWeight)), totalWeight, |totals|;
    SharesSum(totals, w);
    Cancel(w, 1000, s);
    Distribute(w, s, n);
    Distribute(n, w, -1);
    Cancel(w, 1000, s + n);
  }

  lemma Cancel(w: nat, a: int, b: int)
    requires 0 < w
    ensures w * a < w * b <==> a < b
  {
    if a < b {
      assert 0 < w * (b - a);
    } else {
      assert 0 <= w * (a - b);
    }
  }

  /** The largest total, but at least 1. */
  function Largest(totals: seq<nat>): nat {
    if totals == [] then 1
    else
      var m, t := Largest(totals[..|totals| - 1]), totals[|totals| - 1];
      if t > m then t else m
  }

  lemma {:induction false} LargestIsLargest(totals: seq<nat>)
    ensures 1 <= Largest(totals) && forall i :: 0 <= i < |totals| ==> totals[i] <= Largest(totals)
    ensures Largest(totals) == 1 || exists i :: 0 <= i < |totals| && totals[i] == Largest(totals)
  {
    if totals != [] {
      var front := totals[..|totals| - 1];
      LargestIsLargest(front);
      if exists i :: 0 <= i < |front| && front[i] == Largest(front) {
        var i :| 0 <= i < |front| && front[i] == Largest(front);
        assert totals[i] == front[i];
      }
      assert totals[|totals| - 1] == totals[|totals| - 1];
    }
  }

  function Bar(total: nat, largest: nat): nat
    requires 0 < largest
  {
    total * 1000 / largest
  }

  /** A bar's length is the total in relation to the largest one, rounded down to a tenth. */
  lemma BarIs(total: nat, largest: nat)
    requires 0 < largest
    ensures largest * Bar(total, largest) <= 1000 * total < largest * Bar(total, largest) + largest
  {
    QuotientBounds(total * 1000, largest);
  }

  /** Bars never exceed 100.0 per cent, and a choice with votes reaches it exactly if no other
      choice has more. */
  lemma BarsFit(totals: seq<nat>, i: nat)
    requires i < |totals|
    ensures 0 < Largest(totals) && Bar(totals[i], Largest(totals)) <= 1000
    ensures 0 < totals[i] ==>
              (Bar(totals[i], Largest(totals)) == 1000 <==> forall j :: 0 <= j < |totals| ==> totals[j] <= totals[i])
  {
    LargestIsLargest(totals);
    BarBounds(totals[i], Largest(totals));
    if totals[i] == Largest(totals) {
      assert forall j :: 0 <= j < |totals| ==> totals[j] <= totals[i];
    }
  }

  lemma BarBounds(x: nat, m: nat)
    requires 0 < m && x <= m
    ensures Bar(x, m) <= 1000
    ensures Bar(x, m) == 1000 <==> x == m
  {
    QuotientBounds(x * 1000, m);
    var q := x * 1000 / m;
    if 1001 <= q {
      Distribute(m, 1001, q - 1001);
    } else if q <= 999 {
      Distribute(m, q, 999 - q);
    }
  }
}
