/**
 * `calculate_sigma48` and `calculate_sigma` (src/ehte/eHTE.py:132-212):
 * percentile tables per (NPERMS, TRT01PN) group, the left join of the
 * treatment side to the placebo table on (NPERMS, percentile), ITE = CHG -
 * PCB_CHG, the optional 3..97 restriction, and the per-group sample variance
 * of the ITEs (sigma is its square root).
 */
module Sigma {
  import opened Wrappers
  import opened Sorting
  import opened Quantile
  import opened Rank
  import opened Tables
  import opened Arith

  /** A row of `pct_pcb` or `pct_trt`: NPERMS, TRT01PN, percentile and the value. */
  datatype PctRow = PctRow(perm: int, arm: int, pct: int, value: real)

  /** A row of `ite_df`; `pcbChg` and `ite` are `None` where the join found no placebo row (NaN). */
  datatype IteRow = IteRow(perm: int, arm: int, pct: int, chg: real, pcbChg: Option<real>, ite: Option<real>)

  /**
   * A row of `ehte_df`: the sample variance of the group's ITEs, `None`
   * where pandas' `std` gives NaN. The reported sigma is its square root.
   */
  datatype SigmaRow = SigmaRow(perm: int, arm: int, variance: Option<real>)

  /** What both functions return: `ehte_df` and `ite_df`. */
  datatype SigmaOutput = SigmaOutput(ehte: seq<SigmaRow>, ite: seq<IteRow>)

  /** The join key of `pd.merge(..., on=['NPERMS','percentile'])`. */
  datatype JoinKey = JoinKey(perm: int, pct: int)

  function JoinKeyOf(p: PctRow): JoinKey { JoinKey(p.perm, p.pct) }

  function PctValue(p: PctRow): real { p.value }

  function IteKey(r: IteRow): Key { Key(r.perm, r.arm) }

  function IteValue(r: IteRow): Option<real> { r.ite }

  // ---------------------------------------------------------------------
  // Percentile tables (the loops over groups)
  // ---------------------------------------------------------------------

  /** The rows one group adds to the table: one per emitted mark. */
  function GroupRows(k: Key, q: Quantiles): (rows: seq<PctRow>)
    requires |q.values| == |q.marks|
    ensures |rows| == |q.marks|
    ensures forall i :: 0 <= i < |rows| ==> rows[i] == PctRow(k.perm, k.arm, q.marks[i], q.values[i])
  {
    seq(|q.marks|, i requires 0 <= i < |q.marks| => PctRow(k.perm, k.arm, q.marks[i], q.values[i]))
  }

  /**
   * The table the loop has built after visiting `keys`: each group's sorted
   * values through `sas_percentile`, concatenated in key order.
   */
  function PercentileTable(rows: seq<Obs>, keys: seq<Key>, grid: seq<nat>): (r: Result<seq<PctRow>>)
    ensures r.Failure? ==> r.error == TooFewValues
    decreases |keys|
  {
    if keys == [] then Success([])
    else
      var k := keys[|keys| - 1];
      match PercentileTable(rows, keys[..|keys| - 1], grid)
      case Failure(e) => Failure(e)
      case Success(acc) =>
        match SasQuantiles(Sort(Select(rows, ObsKey, ObsChg, k)), grid)
        case Failure(e) => Failure(e)
        case Success(q) => Success(acc + GroupRows(k, q))
  }

  /** Every row of a table belongs to one of the visited groups and carries a grid mark. */
  lemma {:induction false} PercentileTableRows(rows: seq<Obs>, keys: seq<Key>, grid: seq<nat>)
    requires PercentileTable(rows, keys, grid).Success?
    ensures var t := PercentileTable(rows, keys, grid).value;
      forall i :: 0 <= i < |t| ==> Key(t[i].perm, t[i].arm) in keys && t[i].pct in grid
    decreases |keys|
  {
    if keys != [] {
      var last := |keys| - 1;
      TableStep(rows, keys, grid);
      PercentileTableRows(rows, keys[..last], grid);
      var q := SasQuantiles(Sort(Select(rows, ObsKey, ObsChg, keys[last])), grid).value;
      GroupRowsOnMarks(keys[last], q, grid);
      AppendGroupRows(PercentileTable(rows, keys[..last], grid).value, GroupRows(keys[last], q), keys, grid);
    }
  }

  /** Appending the last visited group's rows keeps every row on a visited key and a grid mark. */
  lemma AppendGroupRows(acc: seq<PctRow>, g: seq<PctRow>, keys: seq<Key>, grid: seq<nat>)
    requires keys != []
    requires forall i :: 0 <= i < |acc| ==> Key(acc[i].perm, acc[i].arm) in keys[..|keys| - 1] && acc[i].pct in grid
    requires forall i :: 0 <= i < |g| ==>
      g[i].perm == keys[|keys| - 1].perm && g[i].arm == keys[|keys| - 1].arm && g[i].pct in grid
    ensures forall i :: 0 <= i < |acc + g| ==> Key((acc + g)[i].perm, (acc + g)[i].arm) in keys && (acc + g)[i].pct in grid
  {
    var t := acc + g;
    forall i | 0 <= i < |t| ensures Key(t[i].perm, t[i].arm) in keys && t[i].pct in grid {
      if i < |acc| {
        assert t[i] == acc[i];
        var x := Key(acc[i].perm, acc[i].arm);
        var n :| 0 <= n < |keys| - 1 && keys[..|keys| - 1][n] == x;
        assert keys[n] == x;
      } else {
        assert t[i] == g[i - |acc|];
        assert Key(t[i].perm, t[i].arm) == keys[|keys| - 1];
      }
    }
  }

  /** The rows of one group carry its key and the marks it emitted. */
  lemma GroupRowsOnMarks(k: Key, q: Quantiles, grid: seq<nat>)
    requires |q.values| == |q.marks|
    requires forall m :: 0 <= m < |q.marks| ==> q.marks[m] in grid
    ensures forall i :: 0 <= i < |GroupRows(k, q)| ==>
      GroupRows(k, q)[i].perm == k.perm && GroupRows(k, q)[i].arm == k.arm && GroupRows(k, q)[i].pct in grid
  {
  }

  lemma {:induction false} TableFailureSticks(rows: seq<Obs>, keys: seq<Key>, grid: seq<nat>, i: nat)
    requires i <= |keys|
    requires PercentileTable(rows, keys[..i], grid).Failure?
    ensures PercentileTable(rows, keys, grid) == PercentileTable(rows, keys[..i], grid)
    decreases |keys| - i
  {
    if i < |keys| {
      assert keys[..i + 1][..i] == keys[..i];
      TableFailureSticks(rows, keys, grid, i + 1);
    } else {
      assert keys[..i] == keys;
    }
  }

  /** One visit of the loop: the table after `keys[..i + 1]`, or the failure that ends the whole table. */
  lemma TableExtend(rows: seq<Obs>, keys: seq<Key>, grid: seq<nat>, i: nat, table: seq<PctRow>)
    requires i < |keys|
    requires PercentileTable(rows, keys[..i], grid) == Success(table)
    ensures var q := SasQuantiles(Sort(Select(rows, ObsKey, ObsChg, keys[i])), grid);
      (q.Success? ==> PercentileTable(rows, keys[..i + 1], grid) == Success(table + GroupRows(keys[i], q.value))) &&
      (q.Failure? ==> PercentileTable(rows, keys, grid) == Failure(q.error))
  {
    assert keys[..i + 1][..i] == keys[..i];
    if SasQuantiles(Sort(Select(rows, ObsKey, ObsChg, keys[i])), grid).Failure? {
      TableFailureSticks(rows, keys, grid, i + 1);
    }
  }

  /**
   * One `for grp, data in df.groupby(['NPERMS','TRT01PN']).CHG` loop: sort
   * the group, run `sas_percentile`, append the group's rows.
   */
  method BuildPercentileTable(rows: seq<Obs>, grid: seq<nat>) returns (r: Result<seq<PctRow>>)
    ensures r == PercentileTable(rows, SortedKeys(rows, ObsKey), grid)
  {
    var groups := GroupBy(rows, ObsKey, ObsChg);
    var keys := SortedKeys(rows, ObsKey);
    var table: seq<PctRow> := [];
    for i := 0 to |keys|
      invariant PercentileTable(rows, keys[..i], grid) == Success(table)
    {
      var data := Sort(groups[keys[i]]);
      SortOfSorted(data);
      var q := SasPercentile(data, grid);
      TableExtend(rows, keys, grid, i, table);
      if q.Failure? {
        return Failure(q.error);
      }
      table := table + GroupRows(keys[i], q.value);
    }
    assert keys[..|keys|] == keys;
    r := Success(table);
  }

  /**
   * When the visited groups have pairwise different NPERMS and the grid
   * strictly increases, no two rows of the table share (NPERMS, percentile).
   */
  lemma {:induction false} PercentileTableJoinUnique(rows: seq<Obs>, keys: seq<Key>, grid: seq<nat>)
    requires forall i, j :: 0 <= i < j < |keys| ==> keys[i].perm != keys[j].perm
    requires forall i, j :: 0 <= i < j < |grid| ==> grid[i] < grid[j]
    requires PercentileTable(rows, keys, grid).Success?
    ensures UniqueKeys(PercentileTable(rows, keys, grid).value, JoinKeyOf)
    decreases |keys|
  {
    if keys != [] {
      var last := |keys| - 1;
      var k := keys[last];
      var init := keys[..last];
      PercentileTableJoinUnique(rows, init, grid);
      PercentileTableRows(rows, init, grid);
      var acc := PercentileTable(rows, init, grid).value;
      var xs := Sort(Select(rows, ObsKey, ObsChg, k));
      var q := SasQuantiles(xs, grid).value;
      QuantileMarksIncreasing(xs, grid);
      var t := acc + GroupRows(k, q);
      assert PercentileTable(rows, keys, grid).value == t;
      forall i, j | 0 <= i < j < |t| ensures JoinKeyOf(t[i]) != JoinKeyOf(t[j]) {
        if j < |acc| {
          assert t[i] == acc[i] && t[j] == acc[j];
        } else if i < |acc| {
          assert t[i] == acc[i];
          var m :| 0 <= m < |init| && init[m] == Key(acc[i].perm, acc[i].arm);
          assert keys[m].perm != keys[last].perm;
        } else {
          assert q.marks[i - |acc|] < q.marks[j - |acc|];
        }
      }
    }
  }

  /** A successful table is the table of all keys but the last, followed by the last group's rows. */
  lemma TableStep(rows: seq<Obs>, keys: seq<Key>, grid: seq<nat>)
    requires keys != []
    requires PercentileTable(rows, keys, grid).Success?
    ensures var last := |keys| - 1;
      var xs := Sort(Select(rows, ObsKey, ObsChg, keys[last]));
      PercentileTable(rows, keys[..last], grid).Success? && SasQuantiles(xs, grid).Success? &&
      PercentileTable(rows, keys, grid).value ==
        PercentileTable(rows, keys[..last], grid).value + GroupRows(keys[last], SasQuantiles(xs, grid).value)
  {
  }

  /** The value `sas_percentile` gives mark `t` over the sorted values of group `k`. */
  function GroupMark(rows: seq<Obs>, k: Key, t: nat): MarkValue {
    MarkAt(Sort(Select(rows, ObsKey, ObsChg, k)), t)
  }

  /** Position of mark `idx` of group `m` in a table whose groups have `w` rows each. */
  function Cell(m: nat, w: nat, idx: nat): nat { m * w + idx }

  /**
   * The table holds one block of `|grid|` rows per visited group, in key
   * order; row `idx` of block `m` carries mark `grid[idx]` and the value
   * `sas_percentile` gives that mark over the group's sorted values.
   */
  predicate LaidOut(t: seq<PctRow>, rows: seq<Obs>, keys: seq<Key>, grid: seq<nat>) {
    |t| == |keys| * |grid| &&
    forall m, idx :: 0 <= m < |keys| && 0 <= idx < |grid| ==>
      Cell(m, |grid|, idx) < |t| && GroupMark(rows, keys[m], grid[idx]).Value? &&
      t[Cell(m, |grid|, idx)] == PctRow(keys[m].perm, keys[m].arm, grid[idx], GroupMark(rows, keys[m], grid[idx]).v)
  }

  /** On marks within 0..100, a group's rows are the grid marks in order, each with its `MarkAt` value. */
  lemma GroupRowsOnGrid(rows: seq<Obs>, k: Key, grid: seq<nat>)
    requires forall i :: 0 <= i < |grid| ==> grid[i] <= 100
    requires SasQuantiles(Sort(Select(rows, ObsKey, ObsChg, k)), grid).Success?
    ensures var g := GroupRows(k, SasQuantiles(Sort(Select(rows, ObsKey, ObsChg, k)), grid).value);
      |g| == |grid| &&
      forall idx :: 0 <= idx < |grid| ==>
        GroupMark(rows, k, grid[idx]).Value? &&
        g[idx] == PctRow(k.perm, k.arm, grid[idx], GroupMark(rows, k, grid[idx]).v)
  {
    var xs := Sort(Select(rows, ObsKey, ObsChg, k));
    QuantilesOnGrid(xs, grid);
  }

  /** Appending the block of the last visited group to the blocks of the others. */
  lemma LaidOutSnoc(acc: seq<PctRow>, g: seq<PctRow>, rows: seq<Obs>, keys: seq<Key>, grid: seq<nat>)
    requires keys != []
    requires LaidOut(acc, rows, keys[..|keys| - 1], grid)
    requires |g| == |grid|
    requires forall idx :: 0 <= idx < |grid| ==>
      GroupMark(rows, keys[|keys| - 1], grid[idx]).Value? &&
      g[idx] == PctRow(keys[|keys| - 1].perm, keys[|keys| - 1].arm, grid[idx], GroupMark(rows, keys[|keys| - 1], grid[idx]).v)
    ensures LaidOut(acc + g, rows, keys, grid)
  {
    var last := |keys| - 1;
    var w := |grid|;
    var t := acc + g;
    MulSucc(last, w);
    forall m, idx | 0 <= m < |keys| && 0 <= idx < w
      ensures Cell(m, w, idx) < |t| && GroupMark(rows, keys[m], grid[idx]).Value? &&
        t[Cell(m, w, idx)] == PctRow(keys[m].perm, keys[m].arm, grid[idx], GroupMark(rows, keys[m], grid[idx]).v)
    {
      if m < last {
        MulMonoInt(m + 1, last, w);
        MulSucc(m, w);
        assert keys[..last][m] == keys[m];
        assert t[Cell(m, w, idx)] == acc[Cell(m, w, idx)];
      } else {
        assert Cell(m, w, idx) == |acc| + idx;
        assert t[|acc| + idx] == g[idx];
      }
    }
  }

  /**
   * On marks within 0..100 the table is laid out group by group in visiting
   * order, one row per mark, each with the group's `sas_percentile` value.
   */
  lemma {:induction false} PercentileTableLayout(rows: seq<Obs>, keys: seq<Key>, grid: seq<nat>)
    requires forall k :: 0 <= k < |grid| ==> grid[k] <= 100
    requires PercentileTable(rows, keys, grid).Success?
    ensures LaidOut(PercentileTable(rows, keys, grid).value, rows, keys, grid)
    decreases |keys|
  {
    if keys != [] {
      var last := |keys| - 1;
      TableStep(rows, keys, grid);
      PercentileTableLayout(rows, keys[..last], grid);
      GroupRowsOnGrid(rows, keys[last], grid);
      var xs := Sort(Select(rows, ObsKey, ObsChg, keys[last]));
      LaidOutSnoc(PercentileTable(rows, keys[..last], grid).value, GroupRows(keys[last], SasQuantiles(xs, grid).value),
        rows, keys, grid);
    }
  }

  /** Some row of table `t` has join key `jk` and value `v`. */
  predicate HasEntry(t: seq<PctRow>, jk: JoinKey, v: real) {
    exists a :: 0 <= a < |t| && JoinKeyOf(t[a]) == jk && t[a].value == v
  }

  /**
   * On marks within 0..100, every visited group has a row for every mark,
   * holding the value `sas_percentile` gives that mark over the group.
   */
  lemma PercentileTableCovers(rows: seq<Obs>, keys: seq<Key>, grid: seq<nat>, m: nat, idx: nat)
    requires forall k :: 0 <= k < |grid| ==> grid[k] <= 100
    requires m < |keys| && idx < |grid|
    requires PercentileTable(rows, keys, grid).Success?
    ensures GroupMark(rows, keys[m], grid[idx]).Value?
    ensures HasEntry(PercentileTable(rows, keys, grid).value, JoinKey(keys[m].perm, grid[idx]),
      GroupMark(rows, keys[m], grid[idx]).v)
  {
    PercentileTableLayout(rows, keys, grid);
    var t := PercentileTable(rows, keys, grid).value;
    var c := Cell(m, |grid|, idx);
    assert JoinKeyOf(t[c]) == JoinKey(keys[m].perm, grid[idx]);
  }

  /**
   * A placebo frame with a single TRT01PN gives a `pct_pcb` table in which
   * no two rows share (NPERMS, percentile), so the join below never
   * duplicates a treatment row.
   */
  lemma PlaceboTableJoinUnique(pcb: Frame, grid: seq<nat>)
    requires forall i, j :: 0 <= i < |pcb.rows| && 0 <= j < |pcb.rows| ==> pcb.rows[i].arm == pcb.rows[j].arm
    requires forall i, j :: 0 <= i < j < |grid| ==> grid[i] < grid[j]
    requires var p := WithPerms(pcb); PercentileTable(p, SortedKeys(p, ObsKey), grid).Success?
    ensures var p := WithPerms(pcb); UniqueKeys(PercentileTable(p, SortedKeys(p, ObsKey), grid).value, JoinKeyOf)
  {
    if pcb.rows != [] {
      TableJoinUnique(WithPerms(pcb), pcb.rows[0].arm, grid);
    } else {
      TableJoinUnique(WithPerms(pcb), 0, grid);
    }
  }

  /** Placebo rows of one arm `pcbArm` give a table with unique join keys. */
  lemma TableJoinUnique(p: seq<Obs>, pcbArm: int, grid: seq<nat>)
    requires forall a :: 0 <= a < |p| ==> p[a].arm == pcbArm
    requires forall i, j :: 0 <= i < j < |grid| ==> grid[i] < grid[j]
    requires PercentileTable(p, SortedKeys(p, ObsKey), grid).Success?
    ensures UniqueKeys(PercentileTable(p, SortedKeys(p, ObsKey), grid).value, JoinKeyOf)
  {
    var keys := SortedKeys(p, ObsKey);
    forall i, j | 0 <= i < j < |keys| ensures keys[i].perm != keys[j].perm {
      assert keys[i] in KeySet(p, ObsKey) && keys[j] in KeySet(p, ObsKey);
      var a :| 0 <= a < |p| && ObsKey(p[a]) == keys[i];
      var b :| 0 <= b < |p| && ObsKey(p[b]) == keys[j];
      assert keys[i].arm == p[a].arm == p[b].arm == keys[j].arm;
    }
    PercentileTableJoinUnique(p, keys, grid);
  }

  // ---------------------------------------------------------------------
  // Rank-based treatment percentiles (calculate_sigma)
  // ---------------------------------------------------------------------

  /**
   * `pct_trt['percentile'] = groupby(...).transform(calculate_percentile)`:
   * every treatment row keeps its place and gets the rank percentile of its
   * CHG within its own (NPERMS, TRT01PN) group.
   */
  function RankedRows(rows: seq<Obs>): (r: seq<PctRow>)
    ensures |r| == |rows|
    ensures forall i :: 0 <= i < |r| ==>
      r[i].perm == rows[i].perm && r[i].arm == rows[i].arm && r[i].value == rows[i].chg &&
      0 <= r[i].pct <= 100
  {
    seq(|rows|, i requires 0 <= i < |rows| => PctRow(rows[i].perm, rows[i].arm, RankOf(rows, i), rows[i].chg))
  }

  /** The percentile of row `i` is `calculate_percentile` of its CHG within its own (NPERMS, TRT01PN) group. */
  lemma RankedRowsPercentile(rows: seq<Obs>, i: nat)
    requires i < |rows|
    ensures rows[i].chg in Select(rows, ObsKey, ObsChg, ObsKey(rows[i]))
    ensures RankedRows(rows)[i].pct == RankPercentile(Select(rows, ObsKey, ObsChg, ObsKey(rows[i])), rows[i].chg)
  {
    var r := RankedRows(rows);
    assert r[i] == PctRow(rows[i].perm, rows[i].arm, RankOf(rows, i), rows[i].chg);
  }

  /** The rank percentile of row `i` within its own group. */
  function RankOf(rows: seq<Obs>, i: nat): (pct: int)
    requires i < |rows|
    ensures rows[i].chg in Select(rows, ObsKey, ObsChg, ObsKey(rows[i]))
    ensures 0 <= pct <= 100
  {
    SelectContains(rows, ObsKey, ObsChg, i);
    RankPercentile(Select(rows, ObsKey, ObsChg, ObsKey(rows[i])), rows[i].chg)
  }

  /**
   * Within one (NPERMS, TRT01PN) group, a larger CHG never gets a smaller
   * percentile, so tied CHG values share one percentile.
   */
  lemma RankedRowsMonotone(rows: seq<Obs>, i: nat, j: nat)
    requires i < |rows| && j < |rows|
    requires ObsKey(rows[i]) == ObsKey(rows[j])
    ensures rows[i].chg <= rows[j].chg ==> RankedRows(rows)[i].pct <= RankedRows(rows)[j].pct
    ensures rows[i].chg == rows[j].chg ==> RankedRows(rows)[i].pct == RankedRows(rows)[j].pct
  {
    var g := Select(rows, ObsKey, ObsChg, ObsKey(rows[i]));
    SelectContains(rows, ObsKey, ObsChg, i);
    SelectContains(rows, ObsKey, ObsChg, j);
    if rows[i].chg <= rows[j].chg {
      RankMonotone(g, rows[i].chg, rows[j].chg);
    }
  }

  // ---------------------------------------------------------------------
  // The left join and ITE = CHG - PCB_CHG
  // ---------------------------------------------------------------------

  /** The output rows of one treatment row: one per matching placebo row, or one with NaN. */
  function JoinRow(l: PctRow, pcb: seq<PctRow>): (r: seq<IteRow>)
    ensures |r| >= 1
  {
    var ms := Select(pcb, JoinKeyOf, PctValue, JoinKeyOf(l));
    if ms == [] then [IteRow(l.perm, l.arm, l.pct, l.value, None, None)]
    else seq(|ms|, i requires 0 <= i < |ms| => IteRow(l.perm, l.arm, l.pct, l.value, Some(ms[i]), Some(l.value - ms[i])))
  }

  /**
   * `pd.merge(pct_trt, pct_pcb, on=['NPERMS','percentile'], how='left')`
   * followed by `ITE = CHG - PCB_CHG`.
   */
  function LeftJoin(trt: seq<PctRow>, pcb: seq<PctRow>): (r: seq<IteRow>)
    ensures |r| >= |trt|
    ensures forall i :: 0 <= i < |r| ==>
      (r[i].ite.Some? <==> r[i].pcbChg.Some?) &&
      (r[i].ite.Some? ==> r[i].ite.value == r[i].chg - r[i].pcbChg.value)
  {
    if trt == [] then [] else LeftJoin(trt[..|trt| - 1], pcb) + JoinRow(trt[|trt| - 1], pcb)
  }

  /**
   * When no two placebo rows share (NPERMS, percentile), the left join keeps
   * every treatment row exactly once, in order, and fills PCB_CHG exactly
   * where a placebo row with the same (NPERMS, percentile) exists.
   */
  lemma {:induction false} LeftJoinOneToOne(trt: seq<PctRow>, pcb: seq<PctRow>)
    requires UniqueKeys(pcb, JoinKeyOf)
    ensures |LeftJoin(trt, pcb)| == |trt|
    ensures forall i :: 0 <= i < |trt| ==>
      var o := LeftJoin(trt, pcb)[i];
      o.perm == trt[i].perm && o.arm == trt[i].arm && o.pct == trt[i].pct && o.chg == trt[i].value &&
      (o.pcbChg.Some? <==> JoinKeyOf(trt[i]) in KeySet(pcb, JoinKeyOf)) &&
      (forall j :: 0 <= j < |pcb| && JoinKeyOf(pcb[j]) == JoinKeyOf(trt[i]) ==> o.pcbChg == Some(pcb[j].value))
    decreases |trt|
  {
    if trt != [] {
      var last := |trt| - 1;
      var l := trt[last];
      LeftJoinOneToOne(trt[..last], pcb);
      SelectUnique(pcb, JoinKeyOf, PctValue, JoinKeyOf(l));
      SelectNonEmpty(pcb, JoinKeyOf, PctValue, JoinKeyOf(l));
      assert |JoinRow(l, pcb)| == 1;
      var out := LeftJoin(trt, pcb);
      forall i | 0 <= i < |trt| ensures
        var o := out[i];
        o.perm == trt[i].perm && o.arm == trt[i].arm && o.pct == trt[i].pct && o.chg == trt[i].value &&
        (o.pcbChg.Some? <==> JoinKeyOf(trt[i]) in KeySet(pcb, JoinKeyOf)) &&
        (forall j :: 0 <= j < |pcb| && JoinKeyOf(pcb[j]) == JoinKeyOf(trt[i]) ==> o.pcbChg == Some(pcb[j].value))
      {
        if i < last {
          assert out[i] == LeftJoin(trt[..last], pcb)[i];
          assert trt[..last][i] == trt[i];
        }
      }
    }
  }

  /** Some output row of the join came from treatment row `l`. */
  predicate Reaches(out: seq<IteRow>, l: PctRow) {
    exists o :: o in out && o.perm == l.perm && o.arm == l.arm && o.pct == l.pct && o.chg == l.value
  }

  /** Whatever the placebo table holds, every treatment row reaches the output of the left join. */
  lemma {:induction false} LeftJoinKeepsEveryRow(trt: seq<PctRow>, pcb: seq<PctRow>)
    ensures forall i :: 0 <= i < |trt| ==> Reaches(LeftJoin(trt, pcb), trt[i])
    decreases |trt|
  {
    if trt != [] {
      var last := |trt| - 1;
      var init := trt[..last];
      LeftJoinKeepsEveryRow(init, pcb);
      var out := LeftJoin(trt, pcb);
      forall i | 0 <= i < |trt| ensures Reaches(out, trt[i]) {
        if i < last {
          assert init[i] == trt[i];
          var o :| o in LeftJoin(init, pcb) &&
            o.perm == trt[i].perm && o.arm == trt[i].arm && o.pct == trt[i].pct && o.chg == trt[i].value;
          assert o in out;
        } else {
          var o := JoinRow(trt[last], pcb)[0];
          assert o in out;
        }
      }
    }
  }

  // ---------------------------------------------------------------------
  // The central 95% restriction
  // ---------------------------------------------------------------------

  /** `ite_df[(percentile >= 3) & (percentile <= 97)]`. */
  function Central(rows: seq<IteRow>): (r: seq<IteRow>)
    ensures |r| <= |rows|
    ensures forall x :: x in r <==> x in rows && 3 <= x.pct <= 97
  {
    if rows == [] then []
    else
      var x := rows[|rows| - 1];
      var init := Central(rows[..|rows| - 1]);
      assert rows == rows[..|rows| - 1] + [x];
      if 3 <= x.pct <= 97 then init + [x] else init
  }

  /** The restriction keeps every central row as often as it occurs, and no other row. */
  lemma {:induction false} CentralMultiset(rows: seq<IteRow>)
    ensures forall x :: multiset(Central(rows))[x] == if 3 <= x.pct <= 97 then multiset(rows)[x] else 0
    decreases |rows|
  {
    if rows != [] {
      var last := |rows| - 1;
      CentralMultiset(rows[..last]);
      assert rows == rows[..last] + [rows[last]];
    }
  }

  /** The restriction keeps the order of the rows: restricting `a + b` is restricting `a`, then `b`. */
  lemma {:induction false} CentralAppend(a: seq<IteRow>, b: seq<IteRow>)
    ensures Central(a + b) == Central(a) + Central(b)
    decreases |b|
  {
    if b == [] {
      assert a + b == a;
    } else {
      var last := |b| - 1;
      CentralAppend(a, b[..last]);
      assert (a + b)[..|a + b| - 1] == a + b[..last];
      assert (a + b)[|a + b| - 1] == b[last];
    }
  }

  /** `if interval95 == True:` apply the restriction. */
  function Restrict(rows: seq<IteRow>, interval95: bool): seq<IteRow> {
    if interval95 then Central(rows) else rows
  }

  // ---------------------------------------------------------------------
  // Sample variance with ddof 1, skipping NaN
  // ---------------------------------------------------------------------

  function Sum(xs: seq<real>): real {
    if xs == [] then 0.0 else xs[0] + Sum(xs[1..])
  }

  function Mean(xs: seq<real>): real
    requires |xs| > 0
  {
    Sum(xs) / (|xs| as real)
  }

  /** `d ** 2`: never negative, and zero only for zero. */
  function Square(d: real): (s: real)
    ensures s >= 0.0
    ensures d != 0.0 ==> s > 0.0
  {
    ProductSign(d, d);
    Product(d, d)
  }

  /** The sum of squared deviations from `m`. */
  function SquaredDeviations(xs: seq<real>, m: real): (s: real)
    ensures s >= 0.0
  {
    if xs == [] then 0.0
    else
      Square(xs[0] - m) + SquaredDeviations(xs[1..], m)
  }

  /** `Series.std()` squared: NaN below two values, otherwise the n - 1 denominator. */
  function SampleVariance(xs: seq<real>): (v: Option<real>)
    ensures v.Some? <==> |xs| >= 2
    ensures v.Some? ==> v.value >= 0.0
  {
    if |xs| < 2 then None
    else Some(SquaredDeviations(xs, Mean(xs)) / ((|xs| - 1) as real))
  }

  lemma {:induction false} SumOfConstant(xs: seq<real>, c: real)
    requires forall i :: 0 <= i < |xs| ==> xs[i] == c
    ensures Sum(xs) == (|xs| as real) * c
  {
    if xs != [] {
      SumOfConstant(xs[1..], c);
    }
  }

  lemma {:induction false} DeviationsZero(xs: seq<real>, m: real)
    ensures SquaredDeviations(xs, m) == 0.0 <==> forall i :: 0 <= i < |xs| ==> xs[i] == m
  {
    if xs != [] {
      DeviationsZero(xs[1..], m);
      assert forall i :: 1 <= i < |xs| ==> xs[i] == xs[1..][i - 1];
    }
  }

  /** With two or more values, the variance is zero exactly when all values are equal. */
  lemma VarianceZeroIffConstant(xs: seq<real>)
    requires |xs| >= 2
    ensures SampleVariance(xs) == Some(0.0) <==>
      forall i, j :: 0 <= i < |xs| && 0 <= j < |xs| ==> xs[i] == xs[j]
  {
    var m := Mean(xs);
    DeviationsZero(xs, m);
    if forall i, j :: 0 <= i < |xs| && 0 <= j < |xs| ==> xs[i] == xs[j] {
      SumOfConstant(xs, xs[0]);
      assert m == xs[0];
    }
  }

  /** The ITE values pandas' `std` uses: the non-NaN ones. */
  function Present(xs: seq<Option<real>>): (r: seq<real>)
    ensures |r| <= |xs|
    ensures forall v :: v in r <==> Some(v) in xs
    ensures (forall i :: 0 <= i < |xs| ==> xs[i].Some?) ==> |r| == |xs|
  {
    if xs == [] then []
    else
      assert xs == [xs[0]] + xs[1..];
      (if xs[0].Some? then [xs[0].value] else []) + Present(xs[1..])
  }

  /** Skipping NaN keeps every present value as often as it occurs. */
  lemma {:induction false} PresentMultiset(xs: seq<Option<real>>)
    ensures forall v :: multiset(Present(xs))[v] == multiset(xs)[Some(v)]
    decreases |xs|
  {
    if xs != [] {
      PresentMultiset(xs[1..]);
      assert xs == [xs[0]] + xs[1..];
    }
  }

  /** Skipping NaN keeps the order of the values: `Present(a + b)` is `Present(a)` then `Present(b)`. */
  lemma {:induction false} PresentAppend(a: seq<Option<real>>, b: seq<Option<real>>)
    ensures Present(a + b) == Present(a) + Present(b)
    decreases |a|
  {
    if a == [] {
      assert a + b == b;
    } else {
      PresentAppend(a[1..], b);
      var h := if a[0].Some? then [a[0].value] else [];
      var x, y := Present(a[1..]), Present(b);
      calc {
        Present(a + b);
        { assert (a + b)[1..] == a[1..] + b; assert (a + b)[0] == a[0]; }
        h + (x + y);
        { assert h + (x + y) == (h + x) + y; }
        Present(a) + y;
      }
    }
  }

  /**
   * `ite_df.groupby(['NPERMS','TRT01PN'])['ITE'].std()`: one row per group
   * of `ite`, in ascending key order, with that group's variance.
   */
  function SigmaTable(ite: seq<IteRow>): (r: seq<SigmaRow>)
    ensures |r| == |SortedKeys(ite, IteKey)|
    ensures forall i :: 0 <= i < |r| ==> Key(r[i].perm, r[i].arm) in KeySet(ite, IteKey)
    ensures forall i, j :: 0 <= i < j < |r| ==> KeyBefore(Key(r[i].perm, r[i].arm), Key(r[j].perm, r[j].arm))
    ensures forall k :: k in KeySet(ite, IteKey) ==> exists i :: 0 <= i < |r| && Key(r[i].perm, r[i].arm) == k
    ensures forall i :: 0 <= i < |r| && r[i].variance.Some? ==> r[i].variance.value >= 0.0
  {
    var keys := SortedKeys(ite, IteKey);
    var r := GroupVariances(ite, keys);
    assert forall k :: k in KeySet(ite, IteKey) ==> exists i :: 0 <= i < |r| && Key(r[i].perm, r[i].arm) == k by {
      forall k | k in KeySet(ite, IteKey) ensures exists i :: 0 <= i < |r| && Key(r[i].perm, r[i].arm) == k {
        var i :| 0 <= i < |keys| && keys[i] == k;
        assert Key(r[i].perm, r[i].arm) == k;
      }
    }
    r
  }

  /** For each key, in order, the variance of the non-NaN ITEs of that group. */
  function GroupVariances(ite: seq<IteRow>, keys: seq<Key>): (r: seq<SigmaRow>)
    ensures |r| == |keys|
    ensures forall i :: 0 <= i < |r| ==> Key(r[i].perm, r[i].arm) == keys[i]
    ensures forall i :: 0 <= i < |r| && r[i].variance.Some? ==> r[i].variance.value >= 0.0
  {
    seq(|keys|, i requires 0 <= i < |keys| =>
      SigmaRow(keys[i].perm, keys[i].arm, SampleVariance(Present(Select(ite, IteKey, IteValue, keys[i])))))
  }

  lemma SigmaTableRows(ite: seq<IteRow>, i: nat)
    requires i < |SigmaTable(ite)|
    ensures var r := SigmaTable(ite)[i];
      r.variance == SampleVariance(Present(Select(ite, IteKey, IteValue, Key(r.perm, r.arm))))
  {
  }

  /** A group whose ITEs are all the same value `c` (at least two of them) has sigma 0. */
  lemma ConstantGroupHasZeroSigma(ite: seq<IteRow>, k: Key, c: real)
    requires |Select(ite, IteKey, IteValue, k)| >= 2
    requires forall v :: v in Select(ite, IteKey, IteValue, k) ==> v == Some(c)
    ensures exists i :: 0 <= i < |SigmaTable(ite)| && SigmaTable(ite)[i] == SigmaRow(k.perm, k.arm, Some(0.0))
  {
    var vs := Select(ite, IteKey, IteValue, k);
    var xs := Present(vs);
    assert forall i :: 0 <= i < |vs| ==> vs[i].Some? by {
      forall i | 0 <= i < |vs| ensures vs[i].Some? {
        assert vs[i] in vs;
      }
    }
    assert forall i :: 0 <= i < |xs| ==> xs[i] == c by {
      forall i | 0 <= i < |xs| ensures xs[i] == c {
        assert xs[i] in xs;
      }
    }
    VarianceZeroIffConstant(xs);
    SelectNonEmpty(ite, IteKey, IteValue, k);
    var r := SigmaTable(ite);
    var i :| 0 <= i < |r| && Key(r[i].perm, r[i].arm) == k;
    assert SortedKeys(ite, IteKey)[i] == k;
  }

  // ---------------------------------------------------------------------
  // The two entry points
  // ---------------------------------------------------------------------

  /**
   * `calculate_sigma48(indf_p, indf_t, st, en, pctiles, interval95)`: both
   * arms through `sas_percentile` on the grid, joined on (NPERMS, percentile).
   * Grouping a frame without columns by TRT01PN raises `KeyError`; so does
   * reading `percentile` from the table of an arm with no rows, which no
   * group was concatenated into.
   */
  function Sigma48Of(pcb: Frame, trt: Frame, grid: seq<nat>, interval95: bool): Result<SigmaOutput> {
    var p := WithPerms(pcb);
    var t := WithPerms(trt);
    if !pcb.hasColumns then Failure(MissingColumn)
    else
      match PercentileTable(p, SortedKeys(p, ObsKey), grid)
      case Failure(e) => Failure(e)
      case Success(pctPcb) =>
        if p == [] || !trt.hasColumns then Failure(MissingColumn)
        else
          match PercentileTable(t, SortedKeys(t, ObsKey), grid)
          case Failure(e) => Failure(e)
          case Success(pctTrt) =>
            if t == [] then Failure(MissingColumn)
            else
              var ite := Restrict(LeftJoin(pctTrt, pctPcb), interval95);
              Success(SigmaOutput(SigmaTable(ite), ite))
  }

  /**
   * `calculate_sigma(indf_p, indf_t, st, en, pctiles, interval95)`: the
   * placebo arm through `sas_percentile`, every treatment row ranked within
   * its group, joined on (NPERMS, percentile). Grouping a frame without
   * columns by TRT01PN raises `KeyError`; so does reading `percentile` from a
   * `pct_pcb` that no group was concatenated into. A treatment frame that has
   * its columns but no rows gives empty tables.
   */
  function SigmaOf(pcb: Frame, trt: Frame, grid: seq<nat>, interval95: bool): Result<SigmaOutput> {
    var p := WithPerms(pcb);
    var t := WithPerms(trt);
    if !pcb.hasColumns then Failure(MissingColumn)
    else
      match PercentileTable(p, SortedKeys(p, ObsKey), grid)
      case Failure(e) => Failure(e)
      case Success(pctPcb) =>
        if p == [] || !trt.hasColumns then Failure(MissingColumn)
        else
          var ite := Restrict(LeftJoin(RankedRows(t), pctPcb), interval95);
          Success(SigmaOutput(SigmaTable(ite), ite))
  }

  /**
   * When each entry point raises `KeyError`: a placebo frame without columns
   * or without rows, or, once every placebo group has its percentiles, a
   * treatment frame without columns (or, in `calculate_sigma48`, without
   * rows). An index error in a placebo group is raised first.
   */
  lemma MissingColumnExactly(pcb: Frame, trt: Frame, grid: seq<nat>, interval95: bool)
    ensures SigmaOf(pcb, trt, grid, interval95) == Failure(MissingColumn) <==>
      !pcb.hasColumns || pcb.rows == [] ||
      (PercentileTable(WithPerms(pcb), SortedKeys(WithPerms(pcb), ObsKey), grid).Success? && !trt.hasColumns)
    ensures Sigma48Of(pcb, trt, grid, interval95) == Failure(MissingColumn) <==>
      !pcb.hasColumns || pcb.rows == [] ||
      (PercentileTable(WithPerms(pcb), SortedKeys(WithPerms(pcb), ObsKey), grid).Success? &&
       (!trt.hasColumns || trt.rows == []))
  {
  }

  /**
   * Without the restriction, `ite_df` of `calculate_sigma` is the left join of
   * the ranked rows to `pct_pcb`; a proof step that unfolds `SigmaOf` for the
   * lemmas below, not a separate claim.
   */
  lemma SigmaOfIte(pcb: Frame, trt: Frame, grid: seq<nat>)
    requires SigmaOf(pcb, trt, grid, false).Success?
    ensures var p := WithPerms(pcb);
      PercentileTable(p, SortedKeys(p, ObsKey), grid).Success? &&
      SigmaOf(pcb, trt, grid, false).value.ite ==
        LeftJoin(RankedRows(WithPerms(trt)), PercentileTable(p, SortedKeys(p, ObsKey), grid).value)
  {
  }

  /**
   * `calculate_sigma` with a single-arm placebo frame and a strictly
   * increasing grid, before the 3..97 restriction: `ite_df` has exactly one
   * row per treatment row, in order, with its NPERMS (0 without the column),
   * TRT01PN, CHG and rank percentile.
   */
  lemma SigmaOneRowPerSubject(pcb: Frame, trt: Frame, grid: seq<nat>)
    requires forall i, j :: 0 <= i < |pcb.rows| && 0 <= j < |pcb.rows| ==> pcb.rows[i].arm == pcb.rows[j].arm
    requires forall i, j :: 0 <= i < j < |grid| ==> grid[i] < grid[j]
    requires SigmaOf(pcb, trt, grid, false).Success?
    ensures var ite := SigmaOf(pcb, trt, grid, false).value.ite;
      |ite| == |trt.rows| &&
      forall i :: 0 <= i < |ite| ==>
        ite[i].perm == (if trt.hasPerms then trt.rows[i].perm else 0) &&
        ite[i].arm == trt.rows[i].arm && ite[i].chg == trt.rows[i].chg &&
        ite[i].pct == RankedRows(WithPerms(trt))[i].pct
  {
    var p := WithPerms(pcb);
    SigmaOfIte(pcb, trt, grid);
    PlaceboTableJoinUnique(pcb, grid);
    LeftJoinOneToOne(RankedRows(WithPerms(trt)), PercentileTable(p, SortedKeys(p, ObsKey), grid).value);
  }

  /**
   * With placebo rows that all have TRT01PN `pcbArm`, and marks within
   * 0..100: when some placebo row has NPERMS `perm`, the placebo table has a
   * row for (`perm`, `grid[idx]`) holding the value `sas_percentile` gives
   * that mark over the group's CHG.
   */
  lemma PlaceboHasEntry(p: seq<Obs>, pcbArm: int, grid: seq<nat>, perm: int, idx: nat)
    requires forall a :: 0 <= a < |p| ==> p[a].arm == pcbArm
    requires forall k :: 0 <= k < |grid| ==> grid[k] <= 100
    requires PercentileTable(p, SortedKeys(p, ObsKey), grid).Success?
    requires idx < |grid|
    requires exists a :: 0 <= a < |p| && p[a].perm == perm
    ensures GroupMark(p, Key(perm, pcbArm), grid[idx]).Value?
    ensures HasEntry(PercentileTable(p, SortedKeys(p, ObsKey), grid).value, JoinKey(perm, grid[idx]),
      GroupMark(p, Key(perm, pcbArm), grid[idx]).v)
  {
    var keys := SortedKeys(p, ObsKey);
    var a :| 0 <= a < |p| && p[a].perm == perm;
    assert ObsKey(p[a]) == Key(perm, pcbArm) && ObsKey(p[a]) in KeySet(p, ObsKey);
    var m :| 0 <= m < |keys| && keys[m] == Key(perm, pcbArm);
    PercentileTableCovers(p, keys, grid, m, idx);
  }

  /** A row of a successful table carries the NPERMS of some input row. */
  lemma TableKeyHasPerm(p: seq<Obs>, grid: seq<nat>, jk: JoinKey)
    requires PercentileTable(p, SortedKeys(p, ObsKey), grid).Success?
    requires jk in KeySet(PercentileTable(p, SortedKeys(p, ObsKey), grid).value, JoinKeyOf)
    ensures exists a :: 0 <= a < |p| && p[a].perm == jk.perm
  {
    var keys := SortedKeys(p, ObsKey);
    var table := PercentileTable(p, keys, grid).value;
    var b :| 0 <= b < |table| && JoinKeyOf(table[b]) == jk;
    PercentileTableRows(p, keys, grid);
    var k := Key(table[b].perm, table[b].arm);
    assert k in KeySet(p, ObsKey);
    var a :| 0 <= a < |p| && ObsKey(p[a]) == k;
  }

  /** Under unique placebo join keys, a treatment row whose key has placebo value `v` gets PCB_CHG `v`. */
  lemma JoinWithEntry(trt: seq<PctRow>, pcb: seq<PctRow>, i: nat, v: real)
    requires UniqueKeys(pcb, JoinKeyOf)
    requires i < |trt| && HasEntry(pcb, JoinKeyOf(trt[i]), v)
    ensures i < |LeftJoin(trt, pcb)|
    ensures LeftJoin(trt, pcb)[i].pct == trt[i].pct
    ensures LeftJoin(trt, pcb)[i].pcbChg == Some(v)
    ensures LeftJoin(trt, pcb)[i].ite.Some? && LeftJoin(trt, pcb)[i].ite.value == trt[i].value - v
  {
    LeftJoinOneToOne(trt, pcb);
    var b :| 0 <= b < |pcb| && JoinKeyOf(pcb[b]) == JoinKeyOf(trt[i]) && pcb[b].value == v;
  }

  /**
   * `calculate_sigma` on the grid 0..100 with a placebo frame of one arm
   * `pcbArm`: every treatment row whose NPERMS also has placebo rows gets as
   * PCB_CHG the placebo quantile at the row's own rank percentile, so its ITE
   * is CHG minus that quantile and never NaN.
   */
  lemma FullGridLeavesNoGap(pcb: Frame, trt: Frame, pcbArm: int, i: nat)
    requires forall a :: 0 <= a < |pcb.rows| ==> pcb.rows[a].arm == pcbArm
    requires SigmaOf(pcb, trt, FullGrid(), false).Success?
    requires i < |trt.rows|
    requires exists a :: 0 <= a < |WithPerms(pcb)| && WithPerms(pcb)[a].perm == WithPerms(trt)[i].perm
    ensures var t := WithPerms(trt);
      var ite := SigmaOf(pcb, trt, FullGrid(), false).value.ite;
      i < |ite| && 0 <= ite[i].pct <= 100 &&
      var q := GroupMark(WithPerms(pcb), Key(t[i].perm, pcbArm), ite[i].pct);
      q.Value? && ite[i].pcbChg == Some(q.v) && ite[i].ite.Some? && ite[i].ite.value == trt.rows[i].chg - q.v
  {
    GridMarks();
    FullGridOrdered();
    GridLeavesNoGap(pcb, trt, FullGrid(), pcbArm, i);
  }

  /** `FullGridLeavesNoGap` for any grid that lists the marks 0..100 in order. */
  lemma GridLeavesNoGap(pcb: Frame, trt: Frame, grid: seq<nat>, pcbArm: int, i: nat)
    requires |grid| == 101 && forall k :: 0 <= k < 101 ==> grid[k] == k
    requires forall k, l :: 0 <= k < l < |grid| ==> grid[k] < grid[l]
    requires forall a :: 0 <= a < |pcb.rows| ==> pcb.rows[a].arm == pcbArm
    requires SigmaOf(pcb, trt, grid, false).Success?
    requires i < |trt.rows|
    requires exists a :: 0 <= a < |WithPerms(pcb)| && WithPerms(pcb)[a].perm == WithPerms(trt)[i].perm
    ensures var t := WithPerms(trt);
      var ite := SigmaOf(pcb, trt, grid, false).value.ite;
      i < |ite| && 0 <= ite[i].pct <= 100 &&
      var q := GroupMark(WithPerms(pcb), Key(t[i].perm, pcbArm), ite[i].pct);
      q.Value? && ite[i].pcbChg == Some(q.v) && ite[i].ite.Some? && ite[i].ite.value == trt.rows[i].chg - q.v
  {
    SigmaOfIte(pcb, trt, grid);
    PlaceboCoversRow(WithPerms(pcb), RankedRows(WithPerms(trt)), grid, pcbArm, i);
  }

  /**
   * On a grid listing every mark 0..100 in order, a ranked treatment row whose
   * NPERMS has placebo rows is joined to the placebo quantile at its rank.
   */
  lemma PlaceboCoversRow(p: seq<Obs>, ranked: seq<PctRow>, grid: seq<nat>, pcbArm: int, i: nat)
    requires |grid| == 101 && forall k :: 0 <= k < 101 ==> grid[k] == k
    requires forall k, l :: 0 <= k < l < |grid| ==> grid[k] < grid[l]
    requires forall a :: 0 <= a < |p| ==> p[a].arm == pcbArm
    requires PercentileTable(p, SortedKeys(p, ObsKey), grid).Success?
    requires i < |ranked| && 0 <= ranked[i].pct <= 100
    requires exists a :: 0 <= a < |p| && p[a].perm == ranked[i].perm
    ensures i < |LeftJoin(ranked, PercentileTable(p, SortedKeys(p, ObsKey), grid).value)|
    ensures LeftJoin(ranked, PercentileTable(p, SortedKeys(p, ObsKey), grid).value)[i].pct == ranked[i].pct
    ensures GroupMark(p, Key(ranked[i].perm, pcbArm), ranked[i].pct).Value?
    ensures LeftJoin(ranked, PercentileTable(p, SortedKeys(p, ObsKey), grid).value)[i].pcbChg ==
      Some(GroupMark(p, Key(ranked[i].perm, pcbArm), ranked[i].pct).v)
    ensures LeftJoin(ranked, PercentileTable(p, SortedKeys(p, ObsKey), grid).value)[i].ite.Some?
    ensures LeftJoin(ranked, PercentileTable(p, SortedKeys(p, ObsKey), grid).value)[i].ite.value ==
      ranked[i].value - GroupMark(p, Key(ranked[i].perm, pcbArm), ranked[i].pct).v
  {
    var table := PercentileTable(p, SortedKeys(p, ObsKey), grid).value;
    var pct := ranked[i].pct;
    assert grid[pct] == pct;
    PlaceboHasEntry(p, pcbArm, grid, ranked[i].perm, pct);
    var v := GroupMark(p, Key(ranked[i].perm, pcbArm), pct).v;
    TableJoinUnique(p, pcbArm, grid);
    JoinWithEntry(ranked, table, i, v);
  }

  /**
   * `calculate_sigma48` with a placebo frame of one arm `pcbArm` and a strictly
   * increasing grid within 0..100, before the 3..97 restriction: `ite_df` has
   * one row per (treatment group, mark), groups in `groupby` order and marks
   * in grid order. Each row carries the group's quantile at its mark as CHG,
   * and has an ITE exactly when the placebo has rows with its NPERMS; PCB_CHG
   * is then the placebo quantile at the same mark.
   */
  lemma Sigma48Layout(pcb: Frame, trt: Frame, pcbArm: int, grid: seq<nat>, m: nat, idx: nat)
    requires forall a :: 0 <= a < |pcb.rows| ==> pcb.rows[a].arm == pcbArm
    requires forall k :: 0 <= k < |grid| ==> grid[k] <= 100
    requires forall k, l :: 0 <= k < l < |grid| ==> grid[k] < grid[l]
    requires Sigma48Of(pcb, trt, grid, false).Success?
    requires m < |SortedKeys(WithPerms(trt), ObsKey)| && idx < |grid|
    ensures var t := WithPerms(trt);
      var keys := SortedKeys(t, ObsKey);
      var ite := Sigma48Of(pcb, trt, grid, false).value.ite;
      |ite| == |keys| * |grid| && Cell(m, |grid|, idx) < |ite|
    ensures var t := WithPerms(trt);
      var p := WithPerms(pcb);
      var k := SortedKeys(t, ObsKey)[m];
      var ite := Sigma48Of(pcb, trt, grid, false).value.ite;
      var o := ite[Cell(m, |grid|, idx)];
      o.perm == k.perm && o.arm == k.arm && o.pct == grid[idx] &&
      GroupMark(t, k, grid[idx]).Value? && o.chg == GroupMark(t, k, grid[idx]).v &&
      (o.ite.Some? <==> exists a :: 0 <= a < |p| && p[a].perm == k.perm) &&
      (o.ite.Some? ==>
        GroupMark(p, Key(k.perm, pcbArm), grid[idx]).Value? &&
        o.pcbChg == Some(GroupMark(p, Key(k.perm, pcbArm), grid[idx]).v))
  {
    var p := WithPerms(pcb);
    var t := WithPerms(trt);
    var keys := SortedKeys(t, ObsKey);
    var pcbTable := PercentileTable(p, SortedKeys(p, ObsKey), grid).value;
    var trtTable := PercentileTable(t, keys, grid).value;
    PercentileTableLayout(t, keys, grid);
    var c := Cell(m, |grid|, idx);
    var k := keys[m];
    TableJoinUnique(p, pcbArm, grid);
    LeftJoinOneToOne(trtTable, pcbTable);
    var jk := JoinKey(keys[m].perm, grid[idx]);
    assert JoinKeyOf(trtTable[c]) == jk;
    if exists a :: 0 <= a < |p| && p[a].perm == k.perm {
      PlaceboHasEntry(p, pcbArm, grid, keys[m].perm, idx);
      var b :| 0 <= b < |pcbTable| && JoinKeyOf(pcbTable[b]) == jk && pcbTable[b].value == GroupMark(p, Key(k.perm, pcbArm), grid[idx]).v;
    }
    if jk in KeySet(pcbTable, JoinKeyOf) {
      TableKeyHasPerm(p, grid, jk);
    }
  }

  method CalculateSigma48(pcb: Frame, trt: Frame, grid: seq<nat>, interval95: bool) returns (r: Result<SigmaOutput>)
    ensures r == Sigma48Of(pcb, trt, grid, interval95)
  {
    var p := WithPerms(pcb);
    var t := WithPerms(trt);
    if !pcb.hasColumns {
      return Failure(MissingColumn);
    }
    var pctPcb := BuildPercentileTable(p, grid);
    if pctPcb.Failure? {
      return Failure(pctPcb.error);
    }
    if |p| == 0 || !trt.hasColumns {
      return Failure(MissingColumn);
    }
    var pctTrt := BuildPercentileTable(t, grid);
    if pctTrt.Failure? {
      return Failure(pctTrt.error);
    }
    if |t| == 0 {
      return Failure(MissingColumn);
    }
    var ite := LeftJoin(pctTrt.value, pctPcb.value);
    if interval95 {
      ite := Central(ite);
    }
    r := Success(SigmaOutput(SigmaTable(ite), ite));
  }

  method CalculateSigma(pcb: Frame, trt: Frame, grid: seq<nat>, interval95: bool) returns (r: Result<SigmaOutput>)
    ensures r == SigmaOf(pcb, trt, grid, interval95)
  {
    var p := WithPerms(pcb);
    var t := WithPerms(trt);
    if !pcb.hasColumns {
      return Failure(MissingColumn);
    }
    var pctPcb := BuildPercentileTable(p, grid);
    if pctPcb.Failure? {
      return Failure(pctPcb.error);
    }
    if |p| == 0 || !trt.hasColumns {
      return Failure(MissingColumn);
    }
    var pctTrt := RankedRows(t);
    var ite := LeftJoin(pctTrt, pctPcb.value);
    if interval95 {
      ite := Central(ite);
    }
    r := Success(SigmaOutput(SigmaTable(ite), ite));
  }
}
