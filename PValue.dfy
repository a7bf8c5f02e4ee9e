/**
 * `cal_pvalue` (src/ehte/eHTE.py:214-224): the observed sigma per arm, the
 * empirical p-value (the share of simulated sigmas of the arm that reach the
 * observed one) and the normalised effect size sigma / s_1.
 *
 * The square root inside pandas' `std` is a parameter `sqrt`; the rows carry
 * variances, and `IsSqrt` says when `sqrt` is the real square root.
 */
module PValue {
  import opened Wrappers
  import opened Arith
  import opened Tables
  import opened Sigma

  /** `sqrt` is the square root on the non-negative reals. */
  ghost predicate IsSqrt(sqrt: real -> real) {
    forall x :: 0.0 <= x ==> 0.0 <= sqrt(x) && Product(sqrt(x), sqrt(x)) == x
  }

  /** The sigma of a row of `ehte_df` or `simhte_df`; NaN stays NaN. */
  function SigmaOfRow(sqrt: real -> real, r: SigmaRow): Option<real> {
    if r.variance.Some? then Some(sqrt(r.variance.value)) else None
  }

  function ArmOf(r: SigmaRow): int { r.arm }

  function Itself(r: SigmaRow): SigmaRow { r }

  /** `x >= y` on floats that may be NaN: false when either side is NaN. */
  predicate AtLeast(x: Option<real>, y: Option<real>) {
    x.Some? && y.Some? && x.value >= y.value
  }

  /** A row of `count_`: TRT01PN, `sim_sigma` and the observed `sigma`. */
  datatype CountRow = CountRow(arm: int, simSigma: Option<real>, sigma: Option<real>)

  /** `1 if x.sim_sigma >= x.sigma else 0`. */
  function Ind(c: CountRow): nat {
    if AtLeast(c.simSigma, c.sigma) then 1 else 0
  }

  // ---------------------------------------------------------------------
  // The left merge on TRT01PN
  // ---------------------------------------------------------------------

  /** The rows one simulated row yields: one per observed row of its arm, or one with NaN. */
  function MergeRow(sqrt: real -> real, s: SigmaRow, obs: seq<SigmaRow>): (r: seq<CountRow>)
    ensures |r| >= 1
    ensures forall i :: 0 <= i < |r| ==> r[i].arm == s.arm && r[i].simSigma == SigmaOfRow(sqrt, s)
  {
    var ms := Select(obs, ArmOf, Itself, s.arm);
    if ms == [] then [CountRow(s.arm, SigmaOfRow(sqrt, s), None)]
    else seq(|ms|, i requires 0 <= i < |ms| => CountRow(s.arm, SigmaOfRow(sqrt, s), SigmaOfRow(sqrt, ms[i])))
  }

  /** Some row of `rows` carries the arm and the sigma of simulated row `s`. */
  predicate Yields(sqrt: real -> real, rows: seq<CountRow>, s: SigmaRow) {
    exists k :: 0 <= k < |rows| && rows[k].arm == s.arm && rows[k].simSigma == SigmaOfRow(sqrt, s)
  }

  /** `simhte_df.rename(...).merge(ehte_df, on=['TRT01PN'], how='left')`. */
  function Merge(sqrt: real -> real, sim: seq<SigmaRow>, obs: seq<SigmaRow>): (r: seq<CountRow>)
    ensures |r| >= |sim|
  {
    if sim == [] then []
    else Merge(sqrt, sim[..|sim| - 1], obs) + MergeRow(sqrt, sim[|sim| - 1], obs)
  }

  /** Every simulated row reaches `count_` with its arm and its sigma. */
  lemma {:induction false} MergeKeepsEveryRow(sqrt: real -> real, sim: seq<SigmaRow>, obs: seq<SigmaRow>)
    ensures forall i :: 0 <= i < |sim| ==> Yields(sqrt, Merge(sqrt, sim, obs), sim[i])
    decreases |sim|
  {
    if sim != [] {
      var last := |sim| - 1;
      MergeKeepsEveryRow(sqrt, sim[..last], obs);
      MergeKeeps(sqrt, sim, sim[..last], Merge(sqrt, sim[..last], obs), MergeRow(sqrt, sim[last], obs));
    }
  }

  /** Appending the rows of the last simulated row keeps every earlier row's rows. */
  lemma MergeKeeps(sqrt: real -> real, sim: seq<SigmaRow>, init: seq<SigmaRow>, head: seq<CountRow>, tail: seq<CountRow>)
    requires sim != [] && init == sim[..|sim| - 1]
    requires forall i :: 0 <= i < |init| ==> Yields(sqrt, head, init[i])
    requires |tail| >= 1
    requires forall k :: 0 <= k < |tail| ==>
      tail[k].arm == sim[|sim| - 1].arm && tail[k].simSigma == SigmaOfRow(sqrt, sim[|sim| - 1])
    ensures forall i :: 0 <= i < |sim| ==> Yields(sqrt, head + tail, sim[i])
  {
    var r := head + tail;
    forall i | 0 <= i < |sim| ensures Yields(sqrt, r, sim[i]) {
      if i < |sim| - 1 {
        assert init[i] == sim[i];
        var k :| 0 <= k < |head| && head[k].arm == sim[i].arm && head[k].simSigma == SigmaOfRow(sqrt, sim[i]);
        assert r[k] == head[k];
      } else {
        assert r[|head|] == tail[0];
      }
    }
  }

  // ---------------------------------------------------------------------
  // The group mean of the indicator
  // ---------------------------------------------------------------------

  /** The number of `count_` rows of arm `a`. */
  function Rows(rows: seq<CountRow>, a: int): (n: nat)
    ensures n <= |rows|
  {
    if rows == [] then 0
    else Rows(rows[..|rows| - 1], a) + (if rows[|rows| - 1].arm == a then 1 else 0)
  }

  /** The sum of the indicator over the rows of arm `a`. */
  function Hits(rows: seq<CountRow>, a: int): (h: nat)
    ensures h <= Rows(rows, a)
  {
    if rows == [] then 0
    else Hits(rows[..|rows| - 1], a) + (if rows[|rows| - 1].arm == a then Ind(rows[|rows| - 1]) else 0)
  }

  function Arms(rows: seq<CountRow>): set<int> {
    set i | 0 <= i < |rows| :: rows[i].arm
  }

  lemma {:induction false} RowsPositive(rows: seq<CountRow>, a: int)
    requires a in Arms(rows)
    ensures Rows(rows, a) > 0
    decreases |rows|
  {
    var last := |rows| - 1;
    if rows[last].arm != a {
      var i :| 0 <= i < |rows| && rows[i].arm == a;
      assert rows[..last][i] == rows[i];
      RowsPositive(rows[..last], a);
    }
  }

  /** A share of the rows: between 0 and 1. */
  lemma ShareBounds(h: nat, n: nat)
    requires h <= n && 0 < n
    ensures 0.0 <= (h as real) / (n as real) <= 1.0
  {
  }

  /** `count_.groupby('TRT01PN').describe()['ind']['mean']` for arm `a`. */
  function PValueOf(rows: seq<CountRow>, a: int): (p: real)
    requires a in Arms(rows)
    ensures 0.0 <= p <= 1.0
  {
    RowsPositive(rows, a);
    ShareBounds(Hits(rows, a), Rows(rows, a));
    (Hits(rows, a) as real) / (Rows(rows, a) as real)
  }

  // ---------------------------------------------------------------------
  // The three dictionaries
  // ---------------------------------------------------------------------

  /** `{k: v for k, v in zip(ehte_df['TRT01PN'], ehte_df['sigma'])}`: a later row of an arm wins. */
  function SigmaMap(sqrt: real -> real, obs: seq<SigmaRow>): (m: map<int, Option<real>>)
    ensures m.Keys == KeySet(obs, ArmOf)
  {
    if obs == [] then map[]
    else
      var init := obs[..|obs| - 1];
      var last := obs[|obs| - 1];
      assert KeySet(obs, ArmOf) == KeySet(init, ArmOf) + {last.arm} by {
        forall a | a in KeySet(obs, ArmOf) ensures a in KeySet(init, ArmOf) + {last.arm} {
          var i :| 0 <= i < |obs| && obs[i].arm == a;
          if i < |obs| - 1 {
            assert init[i] == obs[i];
          }
        }
        forall a | a in KeySet(init, ArmOf) ensures a in KeySet(obs, ArmOf) {
          var i :| 0 <= i < |init| && init[i].arm == a;
          assert obs[i] == init[i];
        }
      }
      SigmaMap(sqrt, init)[last.arm := SigmaOfRow(sqrt, last)]
  }

  /** `sigma / s_1`; a zero `s_1` (infinity or NaN in floating point) and a NaN sigma give `None`. */
  function Effect(sigma: Option<real>, s1: real): Option<real> {
    if sigma.Some? && s1 != 0.0 then Some(sigma.value / s1) else None
  }

  /** `sigma_stds`: the effect of every observed row, keyed by its arm; a later row wins. */
  function EffectMap(sigmas: map<int, Option<real>>, s1: real): (m: map<int, Option<real>>)
    ensures m.Keys == sigmas.Keys
    ensures forall a :: a in m ==> m[a] == Effect(sigmas[a], s1)
  {
    map a | a in sigmas :: Effect(sigmas[a], s1)
  }

  /** What `cal_pvalue` returns: sigmas, p-values and effects, each keyed by arm. */
  datatype PValueResult = PValueResult(sigmas: map<int, Option<real>>, pValues: map<int, real>, effects: map<int, Option<real>>)

  /** `cal_pvalue(simhte_df, ehte_df, s_1)`. */
  function CalPvalue(sqrt: real -> real, sim: seq<SigmaRow>, obs: seq<SigmaRow>, s1: real): (r: PValueResult)
    ensures r.sigmas.Keys == KeySet(obs, ArmOf) && r.effects.Keys == KeySet(obs, ArmOf)
    ensures r.pValues.Keys == KeySet(sim, ArmOf)
    ensures forall a :: a in r.pValues ==> 0.0 <= r.pValues[a] <= 1.0
  {
    var rows := Merge(sqrt, sim, obs);
    MergeArms(sqrt, sim, obs);
    var sigmas := SigmaMap(sqrt, obs);
    PValueResult(sigmas, map a | a in Arms(rows) :: PValueOf(rows, a), EffectMap(sigmas, s1))
  }

  /** The merge yields rows for exactly the arms of the simulated table. */
  lemma {:induction false} MergeArms(sqrt: real -> real, sim: seq<SigmaRow>, obs: seq<SigmaRow>)
    ensures Arms(Merge(sqrt, sim, obs)) == KeySet(sim, ArmOf)
    decreases |sim|
  {
    if sim != [] {
      var last := |sim| - 1;
      var init := sim[..last];
      MergeArms(sqrt, init, obs);
      var head := Merge(sqrt, init, obs);
      var tail := MergeRow(sqrt, sim[last], obs);
      var rows := Merge(sqrt, sim, obs);
      assert rows == head + tail;
      forall a | a in Arms(rows) ensures a in KeySet(sim, ArmOf) {
        var i :| 0 <= i < |rows| && rows[i].arm == a;
        if i < |head| {
          assert head[i] == rows[i];
          assert a in Arms(head);
          var j :| 0 <= j < |init| && init[j].arm == a;
          assert sim[j] == init[j];
        } else {
          assert rows[i] == tail[i - |head|];
        }
      }
      forall a | a in KeySet(sim, ArmOf) ensures a in Arms(rows) {
        var j :| 0 <= j < |sim| && sim[j].arm == a;
        if j < last {
          assert init[j] == sim[j];
          assert a in KeySet(init, ArmOf);
          var i :| 0 <= i < |head| && head[i].arm == a;
          assert rows[i] == head[i];
        } else {
          assert rows[|head|] == tail[0];
        }
      }
    }
  }

  // ---------------------------------------------------------------------
  // The p-value as a share of the simulated replicates
  // ---------------------------------------------------------------------

  /** The positions of the simulated rows of arm `a`. */
  function ArmRows(sim: seq<SigmaRow>, a: int): set<nat> {
    set i: nat | i < |sim| && sim[i].arm == a
  }

  /** The positions of the simulated rows of arm `a` whose sigma reaches `o`. */
  function Reaching(sqrt: real -> real, sim: seq<SigmaRow>, a: int, o: Option<real>): set<nat> {
    set i: nat | i < |sim| && sim[i].arm == a && AtLeast(SigmaOfRow(sqrt, sim[i]), o)
  }

  /** The share of the replicates of arm `a` whose sigma reaches the observed `o`. */
  function Exceedance(sqrt: real -> real, sim: seq<SigmaRow>, a: int, o: Option<real>): (p: real)
    requires a in KeySet(sim, ArmOf)
    ensures 0.0 <= p <= 1.0
  {
    var i :| 0 <= i < |sim| && sim[i].arm == a;
    assert i in ArmRows(sim, a);
    assert Reaching(sqrt, sim, a, o) <= ArmRows(sim, a);
    SubsetCard(Reaching(sqrt, sim, a, o), ArmRows(sim, a));
    ShareBounds(|Reaching(sqrt, sim, a, o)|, |ArmRows(sim, a)|);
    (|Reaching(sqrt, sim, a, o)| as real) / (|ArmRows(sim, a)| as real)
  }

  lemma SubsetCard(s: set<nat>, t: set<nat>)
    requires s <= t
    ensures |s| <= |t|
  {
    assert t == s + (t - s);
  }

  /** The observed sigma of arm `a` is `o`: that of its one row, or NaN when the arm has none. */
  predicate ObservedIs(sqrt: real -> real, obs: seq<SigmaRow>, a: int, o: Option<real>) {
    (forall i :: 0 <= i < |obs| && obs[i].arm == a ==> o == SigmaOfRow(sqrt, obs[i])) &&
    (a !in KeySet(obs, ArmOf) ==> o == None)
  }

  /** With one observed row per arm, each simulated row yields one `count_` row, compared with `o`. */
  lemma MergeRowUnique(sqrt: real -> real, s: SigmaRow, obs: seq<SigmaRow>, o: Option<real>)
    requires UniqueKeys(obs, ArmOf)
    requires ObservedIs(sqrt, obs, s.arm, o)
    ensures MergeRow(sqrt, s, obs) == [CountRow(s.arm, SigmaOfRow(sqrt, s), o)]
  {
    SelectUnique(obs, ArmOf, Itself, s.arm);
    SelectNonEmpty(obs, ArmOf, Itself, s.arm);
    if s.arm in KeySet(obs, ArmOf) {
      var i :| 0 <= i < |obs| && obs[i].arm == s.arm;
      assert Select(obs, ArmOf, Itself, s.arm) == [obs[i]];
    }
  }

  /** Removing the last row takes its position out of the arm's index set. */
  lemma ArmRowsStep(sim: seq<SigmaRow>, a: int)
    requires sim != []
    ensures var last := |sim| - 1;
      |ArmRows(sim, a)| == |ArmRows(sim[..last], a)| + (if sim[last].arm == a then 1 else 0)
  {
    var last := |sim| - 1;
    ArmRowsSplit(sim, a);
    AddPositionSize(ArmRows(sim[..last], a), last, sim[last].arm == a);
  }

  lemma ArmRowsSplit(sim: seq<SigmaRow>, a: int)
    requires sim != []
    ensures var last := |sim| - 1;
      last !in ArmRows(sim[..last], a) &&
      ArmRows(sim, a) == ArmRows(sim[..last], a) + (if sim[last].arm == a then {last} else {})
  {
    var last := |sim| - 1;
    var init := sim[..last];
    var extra: set<nat> := if sim[last].arm == a then {last} else {};
    forall i: nat | i < |sim| ensures (i in ArmRows(sim, a)) == (i in ArmRows(init, a) + extra) {
      if i < last {
        assert init[i] == sim[i];
      }
    }
  }

  /** Adding a position that is not yet there, or nothing, to a set of positions. */
  lemma AddPositionSize(before: set<nat>, x: nat, add: bool)
    requires x !in before
    ensures |before + (if add then {x} else {})| == |before| + (if add then 1 else 0)
  {
  }

  /** Removing the last row takes its position out of the reaching set. */
  lemma ReachingStep(sqrt: real -> real, sim: seq<SigmaRow>, a: int, o: Option<real>)
    requires sim != []
    ensures var last := |sim| - 1;
      |Reaching(sqrt, sim, a, o)| == |Reaching(sqrt, sim[..last], a, o)| +
        (if sim[last].arm == a && AtLeast(SigmaOfRow(sqrt, sim[last]), o) then 1 else 0)
  {
    var last := |sim| - 1;
    ReachingSplit(sqrt, sim, a, o);
    AddPositionSize(Reaching(sqrt, sim[..last], a, o), last,
      sim[last].arm == a && AtLeast(SigmaOfRow(sqrt, sim[last]), o));
  }

  lemma ReachingSplit(sqrt: real -> real, sim: seq<SigmaRow>, a: int, o: Option<real>)
    requires sim != []
    ensures var last := |sim| - 1;
      last !in Reaching(sqrt, sim[..last], a, o) &&
      Reaching(sqrt, sim, a, o) == Reaching(sqrt, sim[..last], a, o) +
        (if sim[last].arm == a && AtLeast(SigmaOfRow(sqrt, sim[last]), o) then {last} else {})
  {
    var last := |sim| - 1;
    var init := sim[..last];
    var extra: set<nat> := if sim[last].arm == a && AtLeast(SigmaOfRow(sqrt, sim[last]), o) then {last} else {};
    forall i: nat | i < |sim| ensures (i in Reaching(sqrt, sim, a, o)) == (i in Reaching(sqrt, init, a, o) + extra) {
      if i < last {
        assert init[i] == sim[i];
      }
    }
  }

  /**
   * With one observed row per arm, the rows and hits of arm `a` in `count_`
   * are the replicates of `a` and those whose sigma reaches the observed one.
   */
  lemma {:induction false} MergeCounts(sqrt: real -> real, sim: seq<SigmaRow>, obs: seq<SigmaRow>, a: int, o: Option<real>)
    requires UniqueKeys(obs, ArmOf)
    requires ObservedIs(sqrt, obs, a, o)
    ensures Rows(Merge(sqrt, sim, obs), a) == |ArmRows(sim, a)|
    ensures Hits(Merge(sqrt, sim, obs), a) == |Reaching(sqrt, sim, a, o)|
    decreases |sim|
  {
    if sim == [] {
      assert ArmRows(sim, a) == {};
      assert Reaching(sqrt, sim, a, o) == {};
    } else {
      var last := |sim| - 1;
      var init := sim[..last];
      var s := sim[last];
      MergeCounts(sqrt, init, obs, a, o);
      ArmRowsStep(sim, a);
      ReachingStep(sqrt, sim, a, o);
      var head := Merge(sqrt, init, obs);
      if s.arm == a {
        MergeRowUnique(sqrt, s, obs, o);
        assert Merge(sqrt, sim, obs) == head + [CountRow(a, SigmaOfRow(sqrt, s), o)];
      } else {
        var tail := MergeRow(sqrt, s, obs);
        CountsSkipOtherArm(head, tail, a);
      }
    }
  }

  /** Rows of another arm change neither count of arm `a`. */
  lemma {:induction false} CountsSkipOtherArm(head: seq<CountRow>, tail: seq<CountRow>, a: int)
    requires forall i :: 0 <= i < |tail| ==> tail[i].arm != a
    ensures Rows(head + tail, a) == Rows(head, a)
    ensures Hits(head + tail, a) == Hits(head, a)
    decreases |tail|
  {
    if tail == [] {
      assert head + tail == head;
    } else {
      var last := |tail| - 1;
      CountsSkipOtherArm(head, tail[..last], a);
      assert (head + tail)[..|head + tail| - 1] == head + tail[..last];
    }
  }

  /**
   * With one observed row per arm, the p-value of every simulated arm is the
   * share of its replicates whose sigma is at least the observed sigma; an
   * arm without an observed row compares with NaN.
   */
  lemma PValueIsExceedance(sqrt: real -> real, sim: seq<SigmaRow>, obs: seq<SigmaRow>, s1: real, a: int, o: Option<real>)
    requires UniqueKeys(obs, ArmOf)
    requires a in KeySet(sim, ArmOf)
    requires ObservedIs(sqrt, obs, a, o)
    ensures a in CalPvalue(sqrt, sim, obs, s1).pValues
    ensures CalPvalue(sqrt, sim, obs, s1).pValues[a] == Exceedance(sqrt, sim, a, o)
  {
    MergeCounts(sqrt, sim, obs, a, o);
    MergeArms(sqrt, sim, obs);
  }

  /** A larger observed sigma never raises the share of replicates that reach it. */
  lemma ExceedanceAntitone(sqrt: real -> real, sim: seq<SigmaRow>, a: int, x: real, y: real)
    requires a in KeySet(sim, ArmOf)
    requires x <= y
    ensures Exceedance(sqrt, sim, a, Some(y)) <= Exceedance(sqrt, sim, a, Some(x))
  {
    var i :| 0 <= i < |sim| && sim[i].arm == a;
    assert i in ArmRows(sim, a);
    SubsetCard(Reaching(sqrt, sim, a, Some(y)), Reaching(sqrt, sim, a, Some(x)));
    DivideMono(|Reaching(sqrt, sim, a, Some(y))| as real, |Reaching(sqrt, sim, a, Some(x))| as real, |ArmRows(sim, a)| as real);
  }

  lemma DivideMono(u: real, v: real, n: real)
    requires u <= v && 0.0 < n
    ensures u / n <= v / n
  {
  }

  /**
   * The observed sigma above every replicate sigma of its arm gives p-value
   * 0: the replicate count has no extra always-counted replicate.
   */
  lemma ZeroWhenAboveAll(sqrt: real -> real, sim: seq<SigmaRow>, a: int, x: real)
    requires a in KeySet(sim, ArmOf)
    requires forall i :: 0 <= i < |sim| && sim[i].arm == a && SigmaOfRow(sqrt, sim[i]).Some? ==>
      SigmaOfRow(sqrt, sim[i]).value < x
    ensures Exceedance(sqrt, sim, a, Some(x)) == 0.0
  {
    var i :| 0 <= i < |sim| && sim[i].arm == a;
    assert i in ArmRows(sim, a);
    assert Reaching(sqrt, sim, a, Some(x)) == {};
  }

  /** A NaN observed sigma reaches no comparison: p-value 0. */
  lemma ZeroWhenObservedNaN(sqrt: real -> real, sim: seq<SigmaRow>, a: int)
    requires a in KeySet(sim, ArmOf)
    ensures Exceedance(sqrt, sim, a, None) == 0.0
  {
    var i :| 0 <= i < |sim| && sim[i].arm == a;
    assert i in ArmRows(sim, a);
    assert Reaching(sqrt, sim, a, None) == {};
  }

  /** Every replicate sigma of the arm at least the observed one gives p-value 1. */
  lemma OneWhenBelowAll(sqrt: real -> real, sim: seq<SigmaRow>, a: int, x: real)
    requires a in KeySet(sim, ArmOf)
    requires forall i :: 0 <= i < |sim| && sim[i].arm == a ==>
      SigmaOfRow(sqrt, sim[i]).Some? && SigmaOfRow(sqrt, sim[i]).value >= x
    ensures Exceedance(sqrt, sim, a, Some(x)) == 1.0
  {
    var i :| 0 <= i < |sim| && sim[i].arm == a;
    assert i in ArmRows(sim, a);
    assert Reaching(sqrt, sim, a, Some(x)) == ArmRows(sim, a);
  }

  // ---------------------------------------------------------------------
  // Sigma against variance
  // ---------------------------------------------------------------------

  /** Squares of non-negative numbers keep their order, both ways. */
  lemma SquareOrder(a: real, b: real)
    requires 0.0 <= a && 0.0 <= b
    ensures a >= b <==> Product(a, a) >= Product(b, b)
  {
    ProductSign(a - b, a + b);
    assert Product(a, a) - Product(b, b) == Product(a - b, a + b);
    if a < b {
      ProductSign(b - a, a + b);
      assert Product(b - a, a + b) > 0.0;
    }
  }

  /** With the true square root, comparing sigmas is comparing variances. */
  lemma SqrtOrder(sqrt: real -> real, v: real, w: real)
    requires IsSqrt(sqrt)
    requires 0.0 <= v && 0.0 <= w
    ensures sqrt(v) >= sqrt(w) <==> v >= w
  {
    SquareOrder(sqrt(v), sqrt(w));
  }

  /**
   * With the true square root and non-negative variances (as `SigmaTable`
   * produces), a replicate reaches the observed sigma exactly when its
   * variance reaches the observed variance.
   */
  lemma AtLeastByVariance(sqrt: real -> real, s: SigmaRow, r: SigmaRow)
    requires IsSqrt(sqrt)
    requires s.variance.Some? ==> s.variance.value >= 0.0
    requires r.variance.Some? ==> r.variance.value >= 0.0
    ensures AtLeast(SigmaOfRow(sqrt, s), SigmaOfRow(sqrt, r)) <==> AtLeast(s.variance, r.variance)
  {
    if s.variance.Some? && r.variance.Some? {
      SqrtOrder(sqrt, s.variance.value, r.variance.value);
    }
  }

  /** With a positive `s_1`, the effect exceeds 1 exactly when sigma exceeds `s_1`. */
  lemma EffectAboveOne(x: real, s1: real)
    requires 0.0 < s1
    ensures Effect(Some(x), s1).Some?
    ensures Effect(Some(x), s1).value > 1.0 <==> x > s1
  {
    var e := x / s1;
    assert e * s1 == x;
    assert Product(e - 1.0, s1) == x - s1;
    assert Product(1.0 - e, s1) == s1 - x;
    ProductSign(e - 1.0, s1);
    ProductSign(1.0 - e, s1);
  }

  /** The last observed row of an arm supplies that arm's sigma and effect. */
  lemma LastRowWins(sqrt: real -> real, sim: seq<SigmaRow>, obs: seq<SigmaRow>, s1: real, i: nat)
    requires i < |obs|
    requires forall j :: i < j < |obs| ==> obs[j].arm != obs[i].arm
    ensures CalPvalue(sqrt, sim, obs, s1).sigmas[obs[i].arm] == SigmaOfRow(sqrt, obs[i])
    ensures CalPvalue(sqrt, sim, obs, s1).effects[obs[i].arm] == Effect(SigmaOfRow(sqrt, obs[i]), s1)
  {
    SigmaMapLast(sqrt, obs, i);
  }

  lemma {:induction false} SigmaMapLast(sqrt: real -> real, obs: seq<SigmaRow>, i: nat)
    requires i < |obs|
    requires forall j :: i < j < |obs| ==> obs[j].arm != obs[i].arm
    ensures obs[i].arm in SigmaMap(sqrt, obs)
    ensures SigmaMap(sqrt, obs)[obs[i].arm] == SigmaOfRow(sqrt, obs[i])
    decreases |obs|
  {
    var last := |obs| - 1;
    if i < last {
      var init := obs[..last];
      assert init[i] == obs[i];
      SigmaMapLast(sqrt, init, i);
    }
  }
}
