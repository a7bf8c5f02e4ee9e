/**
 * The quantile engine of `sas_percentile` (src/ehte/eHTE.py:92-130): the
 * empirical distribution function with averaging, evaluated on a grid of
 * integer percentile marks.
 *
 * Marks are the integers that `np.linspace` yields at both call sites. With
 * `n` values and mark `t`, the model computes `j = floor(n * t / 100)` as the
 * exact `(n * t) / 100`, and the fractional part `g` is zero exactly when
 * `(n * t) % 100 == 0`. Values are exact reals.
 */
module Quantile {
  import opened Wrappers
  import opened Sorting
  import opened Arith

  /** What one mark contributes: a value, nothing, or an indexing error. */
  datatype MarkValue =
    | Value(v: real)
    /** The mark lies past the data (`j > n`, or `j >= n` with `g != 0`). */
    | Skipped
    /** `x[0]` or `x[1]` does not exist: the loop raises `IndexError`. */
    | OutOfRange

  /** The marks the loop emitted, with the value emitted for each. */
  datatype Quantiles = Quantiles(values: seq<real>, marks: seq<nat>)

  /** `j <= n` on marks up to 100, and `j == n` only at mark 100, where `g == 0`. */
  lemma IndexFacts(n: nat, t: nat)
    ensures t <= 100 ==> (n * t) / 100 <= n
    ensures t <= 100 && 0 < n && (n * t) / 100 == n ==> t == 100 && (n * t) % 100 == 0
    ensures (n * t) / 100 == 0 <==> n * t < 100
  {
    if t <= 100 {
      MulMonoInt(t, 100, n);
    }
    if t < 100 {
      MulMonoInt(t, 99, n);
    }
  }

  /** The value the loop body of `sas_percentile` emits for mark `t` over the sorted `x`. */
  function MarkAt(x: seq<real>, t: nat): (r: MarkValue)
    ensures r.OutOfRange? <==> |x| < 2 && |x| * t < 100
    ensures t <= 100 ==> !r.Skipped?
    ensures r.Value? && Sorted(x) ==> x[0] <= r.v <= x[|x| - 1]
  {
    var n := |x|;
    var j := (n * t) / 100;
    IndexFacts(n, t);
    if j == 0 then
      if n >= 2 then Value((x[0] + x[1]) / 2.0) else OutOfRange
    else if (n * t) % 100 == 0 then
      if j < n then Value((x[j - 1] + x[j]) / 2.0)
      else if j == n then Value(x[j - 1])
      else Skipped
    else if j < n then Value(x[j])
    else Skipped
  }

  /**
   * `MarkAt` with `j` and `g` named, as the loop body computes them; a proof
   * step that unfolds `MarkAt` for `EmitMark`, not a separate claim.
   */
  lemma MarkAtByIndex(x: seq<real>, t: nat, j: int, g: int)
    requires j == (|x| * t) / 100 && g == (|x| * t) % 100
    ensures 0 <= j
    ensures j == 0 ==> MarkAt(x, t) == if |x| >= 2 then Value((x[0] + x[1]) / 2.0) else OutOfRange
    ensures j != 0 && g == 0 && j < |x| ==> MarkAt(x, t) == Value((x[j - 1] + x[j]) / 2.0)
    ensures j != 0 && g == 0 && j == |x| ==> MarkAt(x, t) == Value(x[j - 1])
    ensures j != 0 && g == 0 && j > |x| ==> MarkAt(x, t) == Skipped
    ensures j != 0 && g != 0 && j < |x| ==> MarkAt(x, t) == Value(x[j])
    ensures j != 0 && g != 0 && j >= |x| ==> MarkAt(x, t) == Skipped
  {
  }

  /**
   * The result of the loop over `marks`, as it stands after each mark; the
   * first mark that indexes past a too-short `x` makes the call fail.
   */
  function SasQuantiles(x: seq<real>, marks: seq<nat>): (r: Result<Quantiles>)
    ensures r.Success? ==> |r.value.values| == |r.value.marks| <= |marks|
    ensures r.Success? ==> forall k :: 0 <= k < |r.value.marks| ==> r.value.marks[k] in marks
    ensures r.Failure? ==> r.error == TooFewValues
    decreases |marks|
  {
    if marks == [] then Success(Quantiles([], []))
    else
      var t := marks[|marks| - 1];
      match SasQuantiles(x, marks[..|marks| - 1])
      case Failure(e) => Failure(e)
      case Success(q) =>
        match MarkAt(x, t)
        case OutOfRange => Failure(TooFewValues)
        case Skipped => Success(q)
        case Value(v) => Success(Quantiles(q.values + [v], q.marks + [t]))
  }

  /** Once a prefix of the marks has failed, the whole call fails. */
  lemma {:induction false} FailureSticks(x: seq<real>, marks: seq<nat>, i: nat)
    requires i <= |marks|
    requires SasQuantiles(x, marks[..i]).Failure?
    ensures SasQuantiles(x, marks) == SasQuantiles(x, marks[..i])
    decreases |marks| - i
  {
    if i < |marks| {
      assert marks[..i + 1][..i] == marks[..i];
      FailureSticks(x, marks, i + 1);
    } else {
      assert marks[..i] == marks;
    }
  }

  /** One mark of the loop: what it appends, or the failure that ends the whole call. */
  lemma QuantilesStep(x: seq<real>, marks: seq<nat>, i: nat, before: Quantiles)
    requires i < |marks| && SasQuantiles(x, marks[..i]) == Success(before)
    ensures MarkAt(x, marks[i]).OutOfRange? ==> SasQuantiles(x, marks) == Failure(TooFewValues)
    ensures MarkAt(x, marks[i]).Skipped? ==> SasQuantiles(x, marks[..i + 1]) == Success(before)
    ensures MarkAt(x, marks[i]).Value? ==>
      SasQuantiles(x, marks[..i + 1]) ==
        Success(Quantiles(before.values + [MarkAt(x, marks[i]).v], before.marks + [marks[i]]))
  {
    assert marks[..i + 1][..i] == marks[..i];
    if MarkAt(x, marks[i]).OutOfRange? {
      FailureSticks(x, marks, i + 1);
    }
  }

  /**
   * The body of the loop of `sas_percentile` for one mark `t` over the sorted
   * `xs`: `j` and `g` from `n * t / 100`, then the four branches.
   */
  method EmitMark(xs: seq<real>, t: nat) returns (m: MarkValue)
    ensures m == MarkAt(xs, t)
  {
    var n := |xs|;
    var j := (n * t) / 100;
    var g := (n * t) % 100;
    MarkAtByIndex(xs, t, j, g);
    m := Skipped;
    if j == 0 {
      if n < 2 {
        return OutOfRange;
      }
      m := Value((xs[0] + xs[1]) / 2.0);
    } else if g == 0 {
      if j < n {
        m := Value((xs[j - 1] + xs[j]) / 2.0);
      }
      if j == n {
        m := Value(xs[j - 1]);
      }
    } else {
      if j < n {
        m := Value(xs[j]);
      }
    }
  }

  /**
   * `sas_percentile(x, st, en, pctiles)` on the marks of the grid: sorts `x`,
   * then walks the marks, appending to `result` and `T`; the first mark that
   * indexes past a too-short `x` raises.
   */
  method SasPercentile(x: seq<real>, marks: seq<nat>) returns (r: Result<Quantiles>)
    ensures r == SasQuantiles(Sort(x), marks)
  {
    var xs := Sort(x);
    var result: seq<real> := [];
    var T: seq<nat> := [];
    for i := 0 to |marks|
      invariant SasQuantiles(xs, marks[..i]) == Success(Quantiles(result, T))
    {
      var t := marks[i];
      QuantilesStep(xs, marks, i, Quantiles(result, T));
      var m := EmitMark(xs, t);
      match m
      case OutOfRange => return Failure(TooFewValues);
      case Skipped =>
      case Value(v) =>
        result := result + [v];
        T := T + [t];
    }
    assert marks[..|marks|] == marks;
    r := Success(Quantiles(result, T));
  }

  /**
   * On marks in [0,100] the call fails exactly when some mark needs `x[1]`
   * (or `x[0]`) that is not there; otherwise every mark is emitted, in grid
   * order, with the value `MarkAt` gives it: nothing is skipped.
   */
  lemma {:induction false} QuantilesOnGrid(x: seq<real>, marks: seq<nat>)
    requires forall k :: 0 <= k < |marks| ==> marks[k] <= 100
    ensures SasQuantiles(x, marks).Success? <==>
      forall k :: 0 <= k < |marks| ==> |x| >= 2 || |x| * marks[k] >= 100
    ensures SasQuantiles(x, marks).Success? ==>
      SasQuantiles(x, marks).value.marks == marks &&
      forall k :: 0 <= k < |marks| ==> SasQuantiles(x, marks).value.values[k] == MarkAt(x, marks[k]).v
    decreases |marks|
  {
    if marks != [] {
      var last := |marks| - 1;
      var init := marks[..last];
      QuantilesOnGrid(x, init);
      if !SasQuantiles(x, init).Success? {
        var k :| 0 <= k < |init| && !(|x| >= 2 || |x| * init[k] >= 100);
        assert marks[k] == init[k];
      }
      assert marks == init + [marks[last]];
    }
  }

  /** `n * s <= n * t` and the floors follow, for `s <= t`. */
  lemma MulDivMono(n: nat, s: nat, t: nat)
    requires s <= t
    ensures n * s <= n * t
    ensures (n * s) / 100 <= (n * t) / 100
  {
    MulMonoInt(s, t, n);
    DivMono(n * s, n * t, 100);
  }

  /** On sorted data the emitted value never decreases as the mark grows. */
  lemma MarkMonotone(x: seq<real>, s: nat, t: nat)
    requires Sorted(x) && |x| >= 2
    requires s <= t <= 100
    ensures MarkAt(x, s).Value? && MarkAt(x, t).Value?
    ensures MarkAt(x, s).v <= MarkAt(x, t).v
  {
    var n := |x|;
    MulDivMono(n, s, t);
    IndexFacts(n, s);
    IndexFacts(n, t);
    var ps, pt := n * s, n * t;
    var js, jt := ps / 100, pt / 100;
    if js == jt && 0 < js && pt % 100 == 0 {
      assert ps == pt;
    }
  }

  /**
   * On sorted data with at least two values, marks in [0,100] in increasing
   * order give non-decreasing values, all between `min(x)` and `max(x)`.
   */
  lemma QuantilesMonotone(x: seq<real>, marks: seq<nat>)
    requires Sorted(x) && |x| >= 2
    requires forall k :: 0 <= k < |marks| ==> marks[k] <= 100
    requires forall i, k :: 0 <= i <= k < |marks| ==> marks[i] <= marks[k]
    ensures SasQuantiles(x, marks).Success?
    ensures var vs := SasQuantiles(x, marks).value.values;
      |vs| == |marks| &&
      (forall k :: 0 <= k < |vs| ==> x[0] <= vs[k] <= x[|x| - 1]) &&
      (forall i, k :: 0 <= i <= k < |vs| ==> vs[i] <= vs[k])
  {
    QuantilesOnGrid(x, marks);
    var vs := SasQuantiles(x, marks).value.values;
    forall i, k | 0 <= i <= k < |vs| ensures vs[i] <= vs[k] {
      MarkMonotone(x, marks[i], marks[k]);
    }
  }

  /**
   * `sas_percentile` sorts before it walks the grid, so its output depends
   * only on the multiset of the values, not on their order.
   */
  lemma QuantilesOrderIndependent(x: seq<real>, y: seq<real>, marks: seq<nat>)
    requires multiset(x) == multiset(y)
    ensures SasQuantiles(Sort(x), marks) == SasQuantiles(Sort(y), marks)
  {
    SortDependsOnlyOnMultiset(x, y);
  }

  /** A strictly increasing grid yields strictly increasing emitted marks. */
  lemma {:induction false} QuantileMarksIncreasing(x: seq<real>, marks: seq<nat>)
    requires forall i, k :: 0 <= i < k < |marks| ==> marks[i] < marks[k]
    requires SasQuantiles(x, marks).Success?
    ensures var ms := SasQuantiles(x, marks).value.marks;
      forall i, k :: 0 <= i < k < |ms| ==> ms[i] < ms[k]
    decreases |marks|
  {
    if marks != [] {
      var last := |marks| - 1;
      var init := marks[..last];
      QuantileMarksIncreasing(x, init);
      var q := SasQuantiles(x, init).value;
      forall k | 0 <= k < |q.marks| ensures q.marks[k] < marks[last] {
        var m :| 0 <= m < |init| && init[m] == q.marks[k];
      }
    }
  }

  /** The four branches of the loop body, as the code takes them. */
  lemma MarkBranches(x: seq<real>, t: nat)
    ensures |x| >= 2 && |x| * t < 100 ==> MarkAt(x, t) == Value((x[0] + x[1]) / 2.0)
    ensures forall j :: 0 < j < |x| && |x| * t == 100 * j ==> MarkAt(x, t) == Value((x[j - 1] + x[j]) / 2.0)
    ensures |x| >= 1 ==> MarkAt(x, 100) == Value(x[|x| - 1])
    ensures forall j :: 0 < j < |x| && 100 * j < |x| * t < 100 * (j + 1) ==> MarkAt(x, t) == Value(x[j])
  {
    IndexFacts(|x|, t);
  }

  /** The median of 1, 2, ..., 200 at mark 50 is 100.5. */
  lemma MedianOfOneToTwoHundred()
    ensures var x := seq(200, i => (i + 1) as real);
      Sorted(x) && MarkAt(x, 50) == Value(100.5)
  {
    var x := seq(200, i => (i + 1) as real);
    assert x[99] == 100.0 && x[100] == 101.0;
  }

  /**
   * `np.linspace(st, en, num)` on a grid whose marks are whole numbers: `num`
   * evenly spaced marks from `st` to `en` inclusive.
   */
  function Linspace(st: nat, en: nat, num: nat): (g: seq<nat>)
    requires 2 <= num && st <= en && (en - st) % (num - 1) == 0
    ensures |g| == num && g[0] == st && g[num - 1] == en
    ensures forall k :: 0 <= k < num ==> st <= g[k] <= en
    ensures st < en ==> forall i, k :: 0 <= i < k < num ==> g[i] < g[k]
  {
    var step := (en - st) / (num - 1);
    var g := seq(num, k requires 0 <= k < num => st + k * step);
    forall i, k | 0 <= i <= k < num ensures g[i] <= g[k] && (st < en && i < k ==> g[i] < g[k]) {
      GridStep(i, k, step);
    }
    assert (num - 1) * step == en - st;
    g
  }

  /** Later marks of an evenly spaced grid are larger. */
  lemma GridStep(i: nat, k: nat, step: nat)
    requires i <= k
    ensures i * step <= k * step
    ensures i < k && 0 < step ==> i * step < k * step
  {
    MulMonoInt(i, k, step);
    MulStrictInt(i, k, step);
  }

  /** The grid of `calculate_sigma`: `np.linspace(0, 100, 101)`. */
  function FullGrid(): seq<nat> { Linspace(0, 100, 101) }

  /** The grid of `calculate_sigma48`: `np.linspace(3, 97, 48)`. */
  function CentralGrid(): seq<nat> { Linspace(3, 97, 48) }

  /** The full grid is every mark 0..100; the central one is 3, 5, ..., 97. */
  lemma GridMarks()
    ensures |FullGrid()| == 101 && forall k :: 0 <= k < 101 ==> FullGrid()[k] == k
    ensures |CentralGrid()| == 48 && forall k :: 0 <= k < 48 ==> CentralGrid()[k] == 3 + 2 * k
  {
  }

  /** The full grid stays within 0..100 and strictly increases. */
  lemma FullGridOrdered()
    ensures forall k :: 0 <= k < |FullGrid()| ==> FullGrid()[k] <= 100
    ensures forall k, l :: 0 <= k < l < |FullGrid()| ==> FullGrid()[k] < FullGrid()[l]
  {
    GridMarks();
  }
}
