/**
 * The rank-based percentile of `calculate_percentile`
 * (src/ehte/eHTE.py:88-90): `floor(100 * averageRank / n)`, where tied values
 * share the mean of the ranks they occupy.
 */
module Rank {
  import opened Arith

  /** How many values of `g` are strictly smaller than `v`. */
  function CountLess(g: seq<real>, v: real): (c: nat)
    ensures c <= |g|
  {
    if g == [] then 0 else (if g[0] < v then 1 else 0) + CountLess(g[1..], v)
  }

  /** How many values of `g` equal `v`. */
  function CountEq(g: seq<real>, v: real): (c: nat)
    ensures c <= |g|
  {
    if g == [] then 0 else (if g[0] == v then 1 else 0) + CountEq(g[1..], v)
  }

  /** The values tied with `v` occupy ranks `less + 1 .. less + eq`; their mean. */
  function AverageRank(g: seq<real>, v: real): real {
    CountLess(g, v) as real + (CountEq(g, v) + 1) as real / 2.0
  }

  lemma {:induction false} CountsBounded(g: seq<real>, v: real)
    ensures CountLess(g, v) + CountEq(g, v) <= |g|
    ensures v in g ==> CountEq(g, v) >= 1
  {
    if g != [] {
      CountsBounded(g[1..], v);
      if v in g && g[0] != v {
        assert v in g[1..];
      }
    }
  }

  /** Every value tied with or below `v` is strictly below a larger `w`. */
  lemma {:induction false} CountsMonotone(g: seq<real>, v: real, w: real)
    requires v < w
    ensures CountLess(g, v) + CountEq(g, v) <= CountLess(g, w)
  {
    if g != [] {
      CountsMonotone(g[1..], v, w);
    }
  }

  /** `100 * a / (2n)` with `2 <= a <= 2n` lies in `[100 / n, 100]`. */
  lemma ScaledBounds(a: int, n: int)
    requires 1 <= n && 2 <= a <= 2 * n
    ensures 100 / n <= (100 * a) / (2 * n) <= 100
  {
    var q := 100 / n;
    assert q * n <= 100;
    assert q * (2 * n) == 2 * (q * n);
    DivLowerBound(100 * a, q, 2 * n);
    DivMono(100 * a, 100 * (2 * n), 2 * n);
    DivExact(100, 2 * n);
  }

  /** The integer floor `r` of `100 * a / (2n)`, read over the reals. */
  lemma FloorAsReal(r: int, n: nat, a: int)
    requires 0 < n && r == (100 * a) / (2 * n)
    ensures (r as real) * (n as real) <= 100.0 * ((a as real) / 2.0)
    ensures 100.0 * ((a as real) / 2.0) < ((r + 1) as real) * (n as real)
  {
    assert r * (2 * n) <= 100 * a < (r + 1) * (2 * n);
    MulAsReal(r, 2 * n);
    MulAsReal(r + 1, 2 * n);
  }

  /**
   * The percentile of value `v` within its group `g`: the whole part of
   * `100 * AverageRank / n`.
   */
  function RankPercentile(g: seq<real>, v: real): (r: int)
    requires v in g
    ensures 100 / |g| <= r <= 100
  {
    var n := |g|;
    var a := 2 * CountLess(g, v) + CountEq(g, v) + 1;
    CountsBounded(g, v);
    ScaledBounds(a, n);
    (100 * a) / (2 * n)
  }

  /** The percentile is the whole part of `100 * AverageRank / n`, computed exactly. */
  lemma RankPercentileIsFloor(g: seq<real>, v: real)
    requires v in g
    ensures var r := RankPercentile(g, v);
      (r as real) * (|g| as real) <= 100.0 * AverageRank(g, v) < ((r + 1) as real) * (|g| as real)
  {
    var a := 2 * CountLess(g, v) + CountEq(g, v) + 1;
    assert AverageRank(g, v) == (a as real) / 2.0;
    FloorAsReal(RankPercentile(g, v), |g|, a);
  }

  /** `calculate_percentile` on one group: the percentile of every value, in place. */
  function RankPercentiles(g: seq<real>): (r: seq<int>)
    ensures |r| == |g|
    ensures forall i :: 0 <= i < |g| ==> 100 / |g| <= r[i] <= 100
    ensures forall i, k :: 0 <= i < |g| && 0 <= k < |g| && g[i] == g[k] ==> r[i] == r[k]
    ensures forall i, k :: 0 <= i < |g| && 0 <= k < |g| && g[i] <= g[k] ==> r[i] <= r[k]
  {
    var r := seq(|g|, i requires 0 <= i < |g| => RankPercentile(g, g[i]));
    forall i, k | 0 <= i < |g| && 0 <= k < |g| && g[i] < g[k] ensures r[i] <= r[k] {
      RankMonotone(g, g[i], g[k]);
    }
    r
  }

  /** A larger value never gets a smaller percentile. */
  lemma RankMonotone(g: seq<real>, v: real, w: real)
    requires v in g && w in g && v <= w
    ensures RankPercentile(g, v) <= RankPercentile(g, w)
  {
    if v < w {
      var n := |g|;
      CountsMonotone(g, v, w);
      var a := 2 * CountLess(g, v) + CountEq(g, v) + 1;
      var b := 2 * CountLess(g, w) + CountEq(g, w) + 1;
      assert a <= b;
      assert 100 * a <= 100 * b;
      DivMono(100 * a, 100 * b, 2 * n);
    }
  }

  /** A value strictly above every other value of its group gets percentile 100. */
  lemma {:induction false} UniqueMaximumGetsHundred(g: seq<real>, m: nat)
    requires m < |g|
    requires forall i :: 0 <= i < |g| && i != m ==> g[i] < g[m]
    ensures RankPercentile(g, g[m]) == 100
  {
    TopCounts(g, m);
    var n := |g|;
    assert 100 * (2 * CountLess(g, g[m]) + CountEq(g, g[m]) + 1) == 100 * (2 * n);
    DivExact(100, 2 * n);
  }

  lemma {:induction false} TopCounts(g: seq<real>, m: nat)
    requires m < |g|
    requires forall i :: 0 <= i < |g| && i != m ==> g[i] < g[m]
    ensures CountLess(g, g[m]) == |g| - 1 && CountEq(g, g[m]) == 1
  {
    var v := g[m];
    if m == 0 {
      AllBelow(g[1..], v);
    } else {
      assert g[1..][m - 1] == v;
      forall i | 0 <= i < |g[1..]| && i != m - 1 ensures g[1..][i] < g[1..][m - 1] {
        assert g[1..][i] == g[i + 1];
      }
      TopCounts(g[1..], m - 1);
    }
  }

  lemma {:induction false} AllBelow(g: seq<real>, v: real)
    requires forall i :: 0 <= i < |g| ==> g[i] < v
    ensures CountLess(g, v) == |g| && CountEq(g, v) == 0
  {
    if g != [] {
      assert forall i :: 0 <= i < |g[1..]| ==> g[1..][i] == g[i + 1];
      AllBelow(g[1..], v);
    }
  }
}
