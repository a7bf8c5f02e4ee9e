/**
 * The result dictionary `eHTE_p` returns (src/ehte/eHTE.py:263-283): the
 * output of `cal_pvalue` on the all-data sigma tables under 'all data', and
 * on the fixed 48-percentile tables under '48 percentiles'.
 *
 * The code fills both entries from the all-data call (lines 279-281), so
 * the 48-percentile results are computed and then dropped.
 * `ResultsAsWritten` models those lines, and `AsWrittenMisreports48` shows
 * tables on which the reported '48 percentiles' p-value differs from the
 * one the 48-percentile tables give. `Results` is the intended dictionary
 * that the lemmas below the finding are about.
 */
module Report {
  import opened Wrappers
  import opened Tables
  import opened Sigma
  import opened PValue
  import Simulation

  /** The four sigma tables: observed and simulated, all data and 48 percentiles. */
  datatype SigmaTables = SigmaTables(
    ehte: seq<SigmaRow>, simhte: seq<SigmaRow>,
    ehte48: seq<SigmaRow>, simhte48: seq<SigmaRow>)

  /** `res_dict`: the 'all data' entry and the '48 percentiles' entry. */
  datatype ResultDict = ResultDict(allData: PValueResult, pct48: PValueResult)

  /** `res_dict` as the code fills it: both entries from the all-data call. */
  function ResultsAsWritten(sqrt: real -> real, t: SigmaTables, s1: real): (r: ResultDict)
    ensures r.pct48 == r.allData
    ensures r.pct48.pValues.Keys == KeySet(t.simhte, ArmOf)
  {
    var all := CalPvalue(sqrt, t.simhte, t.ehte, s1);
    ResultDict(all, all)
  }

  /** `res_dict` with '48 percentiles' holding the result of the 48-percentile call. */
  function Results(sqrt: real -> real, t: SigmaTables, s1: real): (r: ResultDict)
    ensures r.allData.pValues.Keys == KeySet(t.simhte, ArmOf)
    ensures r.pct48.pValues.Keys == KeySet(t.simhte48, ArmOf)
    ensures r.pct48.sigmas.Keys == KeySet(t.ehte48, ArmOf)
    ensures forall a :: a in r.pct48.pValues ==> 0.0 <= r.pct48.pValues[a] <= 1.0
  {
    ResultDict(CalPvalue(sqrt, t.simhte, t.ehte, s1), CalPvalue(sqrt, t.simhte48, t.ehte48, s1))
  }

  /** As written, the '48 percentiles' entry does not depend on the 48-percentile tables at all. */
  lemma AsWrittenIgnores48(sqrt: real -> real, t: SigmaTables, u: SigmaTables, s1: real)
    requires t.ehte == u.ehte && t.simhte == u.simhte
    ensures ResultsAsWritten(sqrt, t, s1).pct48 == ResultsAsWritten(sqrt, u, s1).pct48
  {
  }

  /**
   * One arm, one replicate. All data: observed variance 4, replicate
   * variance 1. 48 percentiles: observed variance 1, replicate variance 4.
   */
  function Example(): SigmaTables {
    SigmaTables(
      [SigmaRow(0, 1, Some(4.0))], [SigmaRow(1, 1, Some(1.0))],
      [SigmaRow(0, 1, Some(1.0))], [SigmaRow(1, 1, Some(4.0))])
  }

  /**
   * On `Example`, the code reports a '48 percentiles' p-value of 0 for arm 1,
   * while the 48-percentile tables give 1.
   */
  lemma AsWrittenMisreports48(sqrt: real -> real, s1: real)
    requires IsSqrt(sqrt)
    ensures 1 in ResultsAsWritten(sqrt, Example(), s1).pct48.pValues
    ensures ResultsAsWritten(sqrt, Example(), s1).pct48.pValues[1] == 0.0
    ensures 1 in Results(sqrt, Example(), s1).pct48.pValues
    ensures Results(sqrt, Example(), s1).pct48.pValues[1] == 1.0
  {
    var t := Example();
    assert t.simhte[0].arm == 1 && t.simhte48[0].arm == 1;
    assert t.ehte[0].arm == 1 && t.ehte48[0].arm == 1;
    assert 1 in KeySet(t.simhte, ArmOf) && 1 in KeySet(t.simhte48, ArmOf);
    assert 1 in KeySet(t.ehte, ArmOf) && 1 in KeySet(t.ehte48, ArmOf);
    SqrtOrder(sqrt, 1.0, 4.0);
    SqrtOrder(sqrt, 4.0, 1.0);
    assert ObservedIs(sqrt, t.ehte, 1, Some(sqrt(4.0)));
    PValueIsExceedance(sqrt, t.simhte, t.ehte, s1, 1, Some(sqrt(4.0)));
    ZeroWhenAboveAll(sqrt, t.simhte, 1, sqrt(4.0));
    assert ObservedIs(sqrt, t.ehte48, 1, Some(sqrt(1.0)));
    PValueIsExceedance(sqrt, t.simhte48, t.ehte48, s1, 1, Some(sqrt(1.0)));
    OneWhenBelowAll(sqrt, t.simhte48, 1, sqrt(1.0));
  }

  /**
   * In the intended dictionary, with one observed row per arm, the
   * '48 percentiles' p-value of an arm is the share of its 48-percentile
   * replicates whose sigma reaches the observed 48-percentile sigma.
   */
  lemma Pct48IsExceedance(sqrt: real -> real, t: SigmaTables, s1: real, a: int, o: Option<real>)
    requires UniqueKeys(t.ehte48, ArmOf)
    requires a in KeySet(t.simhte48, ArmOf)
    requires ObservedIs(sqrt, t.ehte48, a, o)
    ensures a in Results(sqrt, t, s1).pct48.pValues
    ensures Results(sqrt, t, s1).pct48.pValues[a] == Exceedance(sqrt, t.simhte48, a, o)
  {
    PValueIsExceedance(sqrt, t.simhte48, t.ehte48, s1, a, o);
  }

  /** The 'all data' entry is the same in both dictionaries: only the 48 entry is corrected. */
  lemma AllDataAgrees(sqrt: real -> real, t: SigmaTables, s1: real)
    ensures Results(sqrt, t, s1).allData == ResultsAsWritten(sqrt, t, s1).allData
  {
  }

  /**
   * With no replicates requested, `gen_sim` returns a frame without columns
   * for both arms, so both simulated `calculate_sigma*` calls raise `KeyError`
   * and `eHTE_p` returns no dictionary.
   */
  lemma NoReplicatesFail(nPerms: int, sp: Simulation.Setup, st: Simulation.Setup, zp: seq<real>, zt: seq<real>,
                         grid: seq<nat>, interval95: bool)
    requires nPerms <= 1 && Simulation.Covered(sp) && Simulation.Covered(st)
    ensures var pcb := Simulation.AsFrame(Simulation.GenSim(nPerms, sp, zp));
      var trt := Simulation.AsFrame(Simulation.GenSim(nPerms, st, zt));
      SigmaOf(pcb, trt, grid, interval95) == Failure(MissingColumn) &&
      Sigma48Of(pcb, trt, grid, interval95) == Failure(MissingColumn)
  {
    var pcb := Simulation.AsFrame(Simulation.GenSim(nPerms, sp, zp));
    var trt := Simulation.AsFrame(Simulation.GenSim(nPerms, st, zt));
    MissingColumnExactly(pcb, trt, grid, interval95);
  }

  /**
   * With replicates requested but no treatment rows to simulate (an empty arm
   * list, or arms of size 0), `gen_sim` returns a frame without columns for
   * the treatment arm. Both simulated `calculate_sigma*` calls then fail: with
   * the index error of a placebo group that has too few values, and otherwise
   * with `KeyError` from grouping the treatment frame by TRT01PN.
   */
  lemma NoTreatmentRowsFail(nPerms: int, sp: Simulation.Setup, st: Simulation.Setup, zp: seq<real>, zt: seq<real>,
                            grid: seq<nat>, interval95: bool)
    requires 1 < nPerms && Simulation.Covered(sp) && Simulation.Covered(st)
    requires (nPerms - 1) * Simulation.Width(sp) <= |zp| && Simulation.Width(st) == 0
    ensures var pcb := Simulation.AsFrame(Simulation.GenSim(nPerms, sp, zp));
      var trt := Simulation.AsFrame(Simulation.GenSim(nPerms, st, zt));
      var p := WithPerms(pcb);
      var e := if PercentileTable(p, SortedKeys(p, ObsKey), grid).Success? then MissingColumn else TooFewValues;
      SigmaOf(pcb, trt, grid, interval95) == Failure(e) && Sigma48Of(pcb, trt, grid, interval95) == Failure(e)
  {
    var pcb := Simulation.AsFrame(Simulation.GenSim(nPerms, sp, zp));
    var trt := Simulation.AsFrame(Simulation.GenSim(nPerms, st, zt));
    assert !trt.hasColumns;
    MissingColumnExactly(pcb, trt, grid, interval95);
  }
}
