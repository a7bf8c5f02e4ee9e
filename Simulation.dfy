/**
 * The row structure of `gen_sim` (src/ehte/eHTE.py:70-85): replicates
 * `1 .. n_perms - 1` outermost, then the arms in the order given, then the
 * subjects `1 .. nobs[arm]`; every row draws the next normal variate.
 *
 * The generator is not modelled: `z` is the sequence of standard normal
 * variates the seeded generator yields, and a row of arm `a` gets
 * `CHG = mean[a] + s_1 * z[k]` for its position `k`.
 */
module Simulation {
  import opened Arith
  import opened Tables

  /** A simulated row: NPERMS, TRT01PN, PT, M and CHG. */
  datatype SimRow = SimRow(perm: int, arm: int, pt: nat, mean: real, chg: real)

  /** The settings `gen_sim` reads: the arms, their counts and means, and the shared sd. */
  datatype Setup = Setup(trts: seq<int>, nobs: map<int, nat>, means: map<int, real>, s1: real)

  /** Every arm has a count and a mean (`nobs_dict[i]` and `m_dict[i]` succeed). */
  predicate Covered(s: Setup) {
    forall i :: 0 <= i < |s.trts| ==> s.trts[i] in s.nobs && s.trts[i] in s.means
  }

  /** The number of rows of one replicate: the counts of the arms summed. */
  function Total(trts: seq<int>, nobs: map<int, nat>): nat
    requires forall i :: 0 <= i < |trts| ==> trts[i] in nobs
  {
    if trts == [] then 0 else nobs[trts[0]] + Total(trts[1..], nobs)
  }

  function Width(s: Setup): nat
    requires Covered(s)
  {
    Total(s.trts, s.nobs)
  }

  /** The subjects of one arm in one replicate, drawing `z[off ..]`. */
  function ArmBlock(perm: int, arm: int, n: nat, mean: real, s1: real, z: seq<real>, off: nat): (r: seq<SimRow>)
    requires off + n <= |z|
    ensures |r| == n
    ensures forall j :: 0 <= j < n ==>
      r[j] == SimRow(perm, arm, j + 1, mean, mean + s1 * z[off + j])
  {
    seq(n, j requires 0 <= j < n => SimRow(perm, arm, j + 1, mean, mean + s1 * z[off + j]))
  }

  /** One replicate: the arms in order, drawing `z[off ..]`. */
  function PermBlock(perm: int, s: Setup, trts: seq<int>, z: seq<real>, off: nat): (r: seq<SimRow>)
    requires forall i :: 0 <= i < |trts| ==> trts[i] in s.nobs && trts[i] in s.means
    requires off + Total(trts, s.nobs) <= |z|
    ensures |r| == Total(trts, s.nobs)
    decreases |trts|
  {
    if trts == [] then []
    else
      var a := trts[0];
      ArmBlock(perm, a, s.nobs[a], s.means[a], s.s1, z, off) + PermBlock(perm, s, trts[1..], z, off + s.nobs[a])
  }

  /** The rows taken by `n` blocks of `w` rows, counted block by block. */
  function Blocks(n: nat, w: nat): nat {
    if n == 0 then 0 else Blocks(n - 1, w) + w
  }

  lemma {:induction false} BlocksIsProduct(n: nat, w: nat)
    ensures Blocks(n, w) == n * w
  {
    if n > 0 {
      BlocksIsProduct(n - 1, w);
      MulSucc(n - 1, w);
    }
  }

  lemma {:induction false} BlocksMono(m: nat, n: nat, w: nat)
    requires m <= n
    ensures Blocks(m, w) <= Blocks(n, w)
    decreases n
  {
    if m < n {
      BlocksMono(m, n - 1, w);
    }
  }

  /** `count` replicates numbered from `perm`, drawing `z[off ..]`. */
  function Replicates(perm: int, count: nat, s: Setup, z: seq<real>, off: nat): (r: seq<SimRow>)
    requires Covered(s)
    requires off + Blocks(count, Width(s)) <= |z|
    ensures |r| == Blocks(count, Width(s))
    decreases count
  {
    if count == 0 then []
    else PermBlock(perm, s, s.trts, z, off) + Replicates(perm + 1, count - 1, s, z, off + Width(s))
  }

  /**
   * `gen_sim(trts, seed, nobs_dict, m_dict, s_1)` for `self.n_perms ==
   * nPerms`: replicates `1 .. nPerms - 1`, `Width(s)` rows each, and row `k`
   * draws `z[k]`.
   */
  function GenSim(nPerms: int, s: Setup, z: seq<real>): (r: seq<SimRow>)
    requires Covered(s)
    requires 1 < nPerms ==> (nPerms - 1) * Width(s) <= |z|
    ensures 1 < nPerms ==> |r| == (nPerms - 1) * Width(s)
    ensures nPerms <= 1 ==> r == []
  {
    if nPerms <= 1 then []
    else
      BlocksIsProduct(nPerms - 1, Width(s));
      Replicates(1, nPerms - 1, s, z, 0)
  }

  /**
   * The frame `calculate_sigma` receives: NPERMS, TRT01PN and CHG of every
   * row; built from no records, it has no columns.
   */
  function AsFrame(rows: seq<SimRow>): (f: Frame)
    ensures f.hasPerms && |f.rows| == |rows|
    ensures f.hasColumns <==> rows != []
    ensures forall i :: 0 <= i < |rows| ==> f.rows[i] == Obs(rows[i].perm, rows[i].arm, rows[i].chg)
  {
    Frame(true, rows != [], seq(|rows|, i requires 0 <= i < |rows| => Obs(rows[i].perm, rows[i].arm, rows[i].chg)))
  }

  // ---------------------------------------------------------------------
  // What each row holds
  // ---------------------------------------------------------------------

  /** A row of arm `row.arm` carries that arm's mean and `CHG = M + s_1 * zk`. */
  predicate Drawn(row: SimRow, s: Setup, zk: real) {
    row.arm in s.means && row.mean == s.means[row.arm] && row.chg == row.mean + s.s1 * zk
  }

  /** Every row of a replicate belongs to it, to a listed arm, and draws its own variate. */
  lemma {:induction false} PermBlockRows(perm: int, s: Setup, trts: seq<int>, z: seq<real>, off: nat)
    requires forall i :: 0 <= i < |trts| ==> trts[i] in s.nobs && trts[i] in s.means
    requires off + Total(trts, s.nobs) <= |z|
    ensures forall j :: 0 <= j < |PermBlock(perm, s, trts, z, off)| ==>
      PermBlock(perm, s, trts, z, off)[j].perm == perm && PermBlock(perm, s, trts, z, off)[j].arm in trts &&
      Drawn(PermBlock(perm, s, trts, z, off)[j], s, z[off + j])
    decreases |trts|
  {
    if trts != [] {
      var a := trts[0];
      var n := s.nobs[a];
      var head := ArmBlock(perm, a, n, s.means[a], s.s1, z, off);
      var tail := PermBlock(perm, s, trts[1..], z, off + n);
      PermBlockRows(perm, s, trts[1..], z, off + n);
      var r := PermBlock(perm, s, trts, z, off);
      assert r == head + tail;
      forall j | 0 <= j < |r| ensures r[j].perm == perm && r[j].arm in trts && Drawn(r[j], s, z[off + j]) {
        if j >= n {
          assert r[j] == tail[j - n];
          assert tail[j - n].arm in trts[1..];
        }
      }
    }
  }

  /** The number of rows the first `i` arms of `trts` take up in one replicate. */
  function Offset(trts: seq<int>, nobs: map<int, nat>, i: nat): nat
    requires i <= |trts|
    requires forall k :: 0 <= k < |trts| ==> trts[k] in nobs
    decreases i
  {
    if i == 0 then 0 else nobs[trts[0]] + Offset(trts[1..], nobs, i - 1)
  }

  /** `Offset` is the total count of the arms before position `i`. */
  lemma {:induction false} OffsetIsTotal(trts: seq<int>, nobs: map<int, nat>, i: nat)
    requires i <= |trts|
    requires forall k :: 0 <= k < |trts| ==> trts[k] in nobs
    ensures Offset(trts, nobs, i) == Total(trts[..i], nobs)
    decreases i
  {
    if i == 0 {
      assert trts[..0] == [];
    } else {
      OffsetIsTotal(trts[1..], nobs, i - 1);
      assert trts[..i][1..] == trts[1..][..i - 1];
    }
  }

  /**
   * The layout of one replicate: the arms in the order of `trts`, and within
   * arm `trts[i]` the subjects `PT = 1 .. nobs`; subject `j + 1` of that arm
   * sits after the rows of the arms before it and draws the variate there.
   */
  lemma PermBlockLayout(perm: int, s: Setup, trts: seq<int>, z: seq<real>, off: nat, i: nat, j: nat)
    requires forall k :: 0 <= k < |trts| ==> trts[k] in s.nobs && trts[k] in s.means
    requires off + Total(trts, s.nobs) <= |z|
    requires i < |trts| && j < s.nobs[trts[i]]
    ensures Total(trts[..i], s.nobs) + j < Total(trts, s.nobs)
    ensures PermBlock(perm, s, trts, z, off)[Total(trts[..i], s.nobs) + j] ==
      SimRow(perm, trts[i], j + 1, s.means[trts[i]], s.means[trts[i]] + s.s1 * z[off + Total(trts[..i], s.nobs) + j])
  {
    OffsetIsTotal(trts, s.nobs, i);
    PermBlockAt(perm, s, trts, z, off, i, j);
    PermBlockRows(perm, s, trts, z, off);
  }

  /** Arm `trts[i]`, subject `j + 1`, sits `Offset(trts, nobs, i) + j` rows into a replicate. */
  lemma {:induction false} PermBlockAt(perm: int, s: Setup, trts: seq<int>, z: seq<real>, off: nat, i: nat, j: nat)
    requires forall k :: 0 <= k < |trts| ==> trts[k] in s.nobs && trts[k] in s.means
    requires off + Total(trts, s.nobs) <= |z|
    requires i < |trts| && j < s.nobs[trts[i]]
    ensures Offset(trts, s.nobs, i) + j < Total(trts, s.nobs)
    ensures PermBlock(perm, s, trts, z, off)[Offset(trts, s.nobs, i) + j].arm == trts[i]
    ensures PermBlock(perm, s, trts, z, off)[Offset(trts, s.nobs, i) + j].pt == j + 1
    decreases i
  {
    if i == 0 {
      PermBlockFirst(perm, s, trts, z, off, j);
    } else {
      PermBlockAt(perm, s, trts[1..], z, off + s.nobs[trts[0]], i - 1, j);
      PermBlockNext(perm, s, trts, z, off, i, j);
    }
  }

  /** Subject `j + 1` of the first arm is row `j` of a replicate. */
  lemma PermBlockFirst(perm: int, s: Setup, trts: seq<int>, z: seq<real>, off: nat, j: nat)
    requires forall k :: 0 <= k < |trts| ==> trts[k] in s.nobs && trts[k] in s.means
    requires off + Total(trts, s.nobs) <= |z|
    requires 0 < |trts| && j < s.nobs[trts[0]]
    ensures Offset(trts, s.nobs, 0) + j < Total(trts, s.nobs)
    ensures PermBlock(perm, s, trts, z, off)[Offset(trts, s.nobs, 0) + j].arm == trts[0]
    ensures PermBlock(perm, s, trts, z, off)[Offset(trts, s.nobs, 0) + j].pt == j + 1
  {
    var a := trts[0];
    var head := ArmBlock(perm, a, s.nobs[a], s.means[a], s.s1, z, off);
    var tail := PermBlock(perm, s, trts[1..], z, off + s.nobs[a]);
    SlotAt(PermBlock(perm, s, trts, z, off), head, tail, j, a, j + 1);
  }

  /** A row of the replicate over `trts[1..]` moves down by the first arm's count. */
  lemma PermBlockNext(perm: int, s: Setup, trts: seq<int>, z: seq<real>, off: nat, i: nat, j: nat)
    requires forall k :: 0 <= k < |trts| ==> trts[k] in s.nobs && trts[k] in s.means
    requires off + Total(trts, s.nobs) <= |z|
    requires 0 < i < |trts| && j < s.nobs[trts[i]]
    requires Offset(trts[1..], s.nobs, i - 1) + j < Total(trts[1..], s.nobs)
    requires PermBlock(perm, s, trts[1..], z, off + s.nobs[trts[0]])[Offset(trts[1..], s.nobs, i - 1) + j].arm == trts[1..][i - 1]
    requires PermBlock(perm, s, trts[1..], z, off + s.nobs[trts[0]])[Offset(trts[1..], s.nobs, i - 1) + j].pt == j + 1
    ensures Offset(trts, s.nobs, i) + j < Total(trts, s.nobs)
    ensures PermBlock(perm, s, trts, z, off)[Offset(trts, s.nobs, i) + j].arm == trts[i]
    ensures PermBlock(perm, s, trts, z, off)[Offset(trts, s.nobs, i) + j].pt == j + 1
  {
    var a := trts[0];
    var head := ArmBlock(perm, a, s.nobs[a], s.means[a], s.s1, z, off);
    var tail := PermBlock(perm, s, trts[1..], z, off + s.nobs[a]);
    assert trts[1..][i - 1] == trts[i];
    SlotAt(PermBlock(perm, s, trts, z, off), head, tail, Offset(trts, s.nobs, i) + j, trts[i], j + 1);
  }

  /** Row `k` of `head + tail` lies in `head` or, shifted by `|head|`, in `tail`. */
  lemma SlotAt(r: seq<SimRow>, head: seq<SimRow>, tail: seq<SimRow>, k: nat, arm: int, pt: nat)
    requires r == head + tail && k < |r|
    requires k < |head| ==> head[k].arm == arm && head[k].pt == pt
    requires |head| <= k ==> tail[k - |head|].arm == arm && tail[k - |head|].pt == pt
    ensures r[k].arm == arm && r[k].pt == pt
  {
  }

  /** Every row of `count` replicates from `perm` belongs to one of them and draws its own variate. */
  lemma {:induction false} ReplicatesRows(perm: int, count: nat, s: Setup, z: seq<real>, off: nat)
    requires Covered(s)
    requires off + Blocks(count, Width(s)) <= |z|
    ensures forall j :: 0 <= j < |Replicates(perm, count, s, z, off)| ==>
      perm <= Replicates(perm, count, s, z, off)[j].perm < perm + count &&
      Replicates(perm, count, s, z, off)[j].arm in s.trts &&
      Drawn(Replicates(perm, count, s, z, off)[j], s, z[off + j])
    decreases count
  {
    if count > 0 {
      ReplicatesStep(perm, count, s, z, off);
      var head := PermBlock(perm, s, s.trts, z, off);
      var tail := Replicates(perm + 1, count - 1, s, z, off + Width(s));
      assert forall j :: 0 <= j < |head| ==>
        head[j].perm == perm && head[j].arm in s.trts && Drawn(head[j], s, z[off + j])
      by {
        PermBlockRows(perm, s, s.trts, z, off);
      }
      ReplicatesRows(perm + 1, count - 1, s, z, off + Width(s));
      AppendRows(head, tail, s, z, off, Width(s), perm, count);
    }
  }

  /** The rows of one replicate followed by those of the next `count - 1`. */
  lemma AppendRows(head: seq<SimRow>, tail: seq<SimRow>, s: Setup, z: seq<real>, off: nat, w: nat, perm: int, count: nat)
    requires w == |head| && off + w + |tail| <= |z|
    requires forall j :: 0 <= j < |head| ==>
      head[j].perm == perm && head[j].arm in s.trts && Drawn(head[j], s, z[off + j])
    requires forall j :: 0 <= j < |tail| ==>
      perm + 1 <= tail[j].perm < perm + 1 + (count - 1) && tail[j].arm in s.trts && Drawn(tail[j], s, z[off + w + j])
    requires 0 < count
    ensures forall j :: 0 <= j < |head + tail| ==>
      perm <= (head + tail)[j].perm < perm + count && (head + tail)[j].arm in s.trts &&
      Drawn((head + tail)[j], s, z[off + j])
  {
    var r := head + tail;
    forall j | 0 <= j < |r| ensures perm <= r[j].perm < perm + count && r[j].arm in s.trts && Drawn(r[j], s, z[off + j]) {
      if j >= w {
        assert r[j] == tail[j - w];
        assert off + w + (j - w) == off + j;
      } else {
        assert r[j] == head[j];
      }
    }
  }

  /**
   * Every row of `gen_sim` belongs to a replicate `1 .. nPerms - 1` and to a
   * listed arm, carries that arm's mean, and row `k` has `CHG = M + s_1 * z[k]`.
   */
  lemma GenSimRows(nPerms: int, s: Setup, z: seq<real>)
    requires Covered(s)
    requires 1 < nPerms ==> (nPerms - 1) * Width(s) <= |z|
    ensures forall k :: 0 <= k < |GenSim(nPerms, s, z)| ==>
      1 <= GenSim(nPerms, s, z)[k].perm < nPerms && GenSim(nPerms, s, z)[k].arm in s.trts &&
      Drawn(GenSim(nPerms, s, z)[k], s, z[k])
  {
    if 1 < nPerms {
      BlocksIsProduct(nPerms - 1, Width(s));
      ReplicatesRows(1, nPerms - 1, s, z, 0);
    }
  }

  // ---------------------------------------------------------------------
  // Where each row sits
  // ---------------------------------------------------------------------

  /** A non-empty run of replicates is its first block followed by the others. */
  lemma ReplicatesStep(perm: int, count: nat, s: Setup, z: seq<real>, off: nat)
    requires Covered(s) && 0 < count
    requires off + Blocks(count, Width(s)) <= |z|
    ensures off + Width(s) + Blocks(count - 1, Width(s)) <= |z|
    ensures |PermBlock(perm, s, s.trts, z, off)| == Width(s)
    ensures Replicates(perm, count, s, z, off) ==
      PermBlock(perm, s, s.trts, z, off) + Replicates(perm + 1, count - 1, s, z, off + Width(s))
  {
  }

  /** Position `j` of block `i` when blocks have `w` rows. */
  function Pos(i: nat, w: nat, j: nat): nat {
    Blocks(i, w) + j
  }

  /** `r` is `count` blocks of `w` rows, and block `i` holds replicate `perm + i`. */
  predicate BlockNumbered(r: seq<SimRow>, perm: int, count: nat, w: nat) {
    |r| == Blocks(count, w) &&
    forall i: nat, j: nat :: i < count && j < w ==> Pos(i, w, j) < |r| && r[Pos(i, w, j)].perm == perm + i
  }

  /** A block of replicate `perm` in front of blocks numbered from `perm + 1`. */
  lemma BlockNumberedCons(head: seq<SimRow>, tail: seq<SimRow>, perm: int, count: nat, w: nat)
    requires 0 < count && |head| == w
    requires forall k :: 0 <= k < |head| ==> head[k].perm == perm
    requires BlockNumbered(tail, perm + 1, count - 1, w)
    ensures BlockNumbered(head + tail, perm, count, w)
  {
    var r := head + tail;
    forall i: nat, j: nat | i < count && j < w ensures Pos(i, w, j) < |r| && r[Pos(i, w, j)].perm == perm + i {
      if i == 0 {
        assert r[Pos(0, w, j)] == head[j];
      } else {
        var k := Pos(i - 1, w, j);
        assert Pos(i, w, j) == w + k;
        assert r[w + k] == tail[k];
      }
    }
  }

  /** The replicates are numbered block by block from `perm`. */
  lemma {:induction false} ReplicatesNumbered(perm: int, count: nat, s: Setup, z: seq<real>, off: nat)
    requires Covered(s)
    requires off + Blocks(count, Width(s)) <= |z|
    ensures BlockNumbered(Replicates(perm, count, s, z, off), perm, count, Width(s))
    decreases count
  {
    if count > 0 {
      ReplicatesStep(perm, count, s, z, off);
      PermBlockRows(perm, s, s.trts, z, off);
      ReplicatesNumbered(perm + 1, count - 1, s, z, off + Width(s));
      BlockNumberedCons(PermBlock(perm, s, s.trts, z, off), Replicates(perm + 1, count - 1, s, z, off + Width(s)),
        perm, count, Width(s));
    }
  }

  /** Row `k` of `gen_sim` in position `j` of replicate block `i` belongs to replicate `1 + i`. */
  lemma ReplicateOfSimRow(nPerms: int, s: Setup, z: seq<real>, i: nat, j: nat)
    requires Covered(s)
    requires 1 < nPerms && (nPerms - 1) * Width(s) <= |z|
    requires i < nPerms - 1 && j < Width(s)
    ensures i * Width(s) + j < |GenSim(nPerms, s, z)|
    ensures GenSim(nPerms, s, z)[i * Width(s) + j].perm == 1 + i
  {
    var w := Width(s);
    BlocksIsProduct(nPerms - 1, w);
    BlocksIsProduct(i, w);
    ReplicatesNumbered(1, nPerms - 1, s, z, 0);
    assert Pos(i, w, j) == i * w + j;
  }

  /** Some row belongs to replicate `p`. */
  predicate HasPerm(rows: seq<SimRow>, p: int) {
    exists k :: 0 <= k < |rows| && rows[k].perm == p
  }

  /**
   * With `self.n_perms = n_perms + 1` (src/ehte/eHTE.py:39), the replicates
   * are exactly `1 .. requested`: `requested` of them, none extra.
   */
  lemma ReplicatesAreRequested(requested: nat, nPerms: int, s: Setup, z: seq<real>)
    requires nPerms == requested + 1
    requires Covered(s) && Width(s) > 0
    requires requested * Width(s) <= |z|
    ensures forall k :: 0 <= k < |GenSim(nPerms, s, z)| ==> 1 <= GenSim(nPerms, s, z)[k].perm <= requested
    ensures |GenSim(nPerms, s, z)| == requested * Width(s)
    ensures forall p :: 1 <= p <= requested ==> HasPerm(GenSim(nPerms, s, z), p)
  {
    var r := GenSim(nPerms, s, z);
    GenSimRows(nPerms, s, z);
    forall p | 1 <= p <= requested ensures HasPerm(r, p) {
      ReplicateOfSimRow(nPerms, s, z, p - 1, 0);
      assert r[(p - 1) * Width(s) + 0].perm == p;
    }
  }

  // ---------------------------------------------------------------------
  // How many subjects each arm gets
  // ---------------------------------------------------------------------

  /** The number of rows of arm `a`. */
  function CountArm(rows: seq<SimRow>, a: int): (c: nat)
    ensures c <= |rows|
  {
    if rows == [] then 0 else (if rows[0].arm == a then 1 else 0) + CountArm(rows[1..], a)
  }

  lemma {:induction false} CountArmAppend(x: seq<SimRow>, y: seq<SimRow>, a: int)
    ensures CountArm(x + y, a) == CountArm(x, a) + CountArm(y, a)
    decreases |x|
  {
    if x == [] {
      assert x + y == y;
    } else {
      CountArmAppend(x[1..], y, a);
      assert (x + y)[1..] == x[1..] + y;
    }
  }

  /** Rows that all belong to one arm count fully for it and not at all for another. */
  lemma {:induction false} CountArmUniform(rows: seq<SimRow>, arm: int, a: int)
    requires forall j :: 0 <= j < |rows| ==> rows[j].arm == arm
    ensures CountArm(rows, a) == (if arm == a then |rows| else 0)
    decreases |rows|
  {
    if rows != [] {
      CountArmUniform(rows[1..], arm, a);
    }
  }

  lemma CountArmBlock(perm: int, arm: int, n: nat, mean: real, s1: real, z: seq<real>, off: nat, a: int)
    requires off + n <= |z|
    ensures CountArm(ArmBlock(perm, arm, n, mean, s1, z, off), a) == (if arm == a then n else 0)
  {
    CountArmUniform(ArmBlock(perm, arm, n, mean, s1, z, off), arm, a);
  }

  /** With distinct arms, each replicate holds `nobs[a]` subjects of every arm `a` it lists. */
  lemma {:induction false} PermBlockCounts(perm: int, s: Setup, trts: seq<int>, z: seq<real>, off: nat, a: int)
    requires forall i :: 0 <= i < |trts| ==> trts[i] in s.nobs && trts[i] in s.means
    requires forall i, j :: 0 <= i < j < |trts| ==> trts[i] != trts[j]
    requires off + Total(trts, s.nobs) <= |z|
    ensures CountArm(PermBlock(perm, s, trts, z, off), a) == (if a in trts then s.nobs[a] else 0)
    decreases |trts|
  {
    if trts != [] {
      var b := trts[0];
      var head := ArmBlock(perm, b, s.nobs[b], s.means[b], s.s1, z, off);
      var tail := PermBlock(perm, s, trts[1..], z, off + s.nobs[b]);
      PermBlockCounts(perm, s, trts[1..], z, off + s.nobs[b], a);
      CountArmAppend(head, tail, a);
      CountArmBlock(perm, b, s.nobs[b], s.means[b], s.s1, z, off, a);
      if a == b {
        forall j | 0 <= j < |trts[1..]| ensures trts[1..][j] != a {
          assert trts[1..][j] == trts[j + 1];
        }
      } else if a in trts {
        assert a in trts[1..];
      }
    }
  }

  /** Over all replicates, arm `a` of the distinct arms gets `count * nobs[a]` subjects. */
  lemma {:induction false} ArmTotal(perm: int, count: nat, s: Setup, z: seq<real>, off: nat, a: int)
    requires Covered(s)
    requires forall i, j :: 0 <= i < j < |s.trts| ==> s.trts[i] != s.trts[j]
    requires a in s.trts
    requires off + Blocks(count, Width(s)) <= |z|
    ensures CountArm(Replicates(perm, count, s, z, off), a) == count * s.nobs[a]
    decreases count
  {
    if count > 0 {
      var head := PermBlock(perm, s, s.trts, z, off);
      assert off + Width(s) + Blocks(count - 1, Width(s)) <= |z|;
      var tail := Replicates(perm + 1, count - 1, s, z, off + Width(s));
      PermBlockCounts(perm, s, s.trts, z, off, a);
      ArmTotal(perm + 1, count - 1, s, z, off + Width(s), a);
      assert CountArm(Replicates(perm, count, s, z, off), a) == CountArm(head, a) + CountArm(tail, a) by {
        ReplicatesStep(perm, count, s, z, off);
        CountArmAppend(head, tail, a);
      }
      MulSucc(count - 1, s.nobs[a]);
    }
  }

  /** `gen_sim` gives every listed arm `(nPerms - 1) * nobs[a]` subjects. */
  lemma SimArmTotal(nPerms: int, s: Setup, z: seq<real>, a: int)
    requires Covered(s)
    requires forall i, j :: 0 <= i < j < |s.trts| ==> s.trts[i] != s.trts[j]
    requires a in s.trts
    requires 1 < nPerms && (nPerms - 1) * Width(s) <= |z|
    ensures CountArm(GenSim(nPerms, s, z), a) == (nPerms - 1) * s.nobs[a]
  {
    BlocksIsProduct(nPerms - 1, Width(s));
    ArmTotal(1, nPerms - 1, s, z, 0, a);
  }
}
