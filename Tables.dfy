/**
 * The tabular side of `calculate_sigma48` and `calculate_sigma`
 * (src/ehte/eHTE.py:132-212): observation rows, the (NPERMS, TRT01PN) group
 * key, and pandas' `groupby`, written as an explicit map from key to the
 * group's values together with the ascending order in which `groupby` visits
 * the keys.
 */
module Tables {

  /** One row of the input frame: NPERMS, TRT01PN and CHG. */
  datatype Obs = Obs(perm: int, arm: int, chg: real)

  /**
   * A frame of observations; `hasPerms` says whether it has an NPERMS column,
   * and `hasColumns` is false for the frame pandas builds from no records at
   * all, which has neither rows nor TRT01PN and CHG columns.
   */
  datatype Frame = Frame(hasPerms: bool, hasColumns: bool, rows: seq<Obs>)

  /** The group key (NPERMS, TRT01PN). */
  datatype Key = Key(perm: int, arm: int)

  function ObsKey(o: Obs): Key { Key(o.perm, o.arm) }

  function ObsChg(o: Obs): real { o.chg }

  /** A frame without an NPERMS column is read as if every row had NPERMS = 0. */
  function WithPerms(f: Frame): (rows: seq<Obs>)
    ensures |rows| == |f.rows|
    ensures forall i :: 0 <= i < |rows| ==>
      rows[i].arm == f.rows[i].arm && rows[i].chg == f.rows[i].chg &&
      rows[i].perm == (if f.hasPerms then f.rows[i].perm else 0)
  {
    if f.hasPerms then f.rows
    else seq(|f.rows|, i requires 0 <= i < |f.rows| => f.rows[i].(perm := 0))
  }

  /** The lexicographic order of `groupby` keys. */
  predicate KeyBefore(a: Key, b: Key) {
    a.perm < b.perm || (a.perm == b.perm && a.arm < b.arm)
  }

  predicate StrictlyAscending(ks: seq<Key>) {
    forall i, j :: 0 <= i < j < |ks| ==> KeyBefore(ks[i], ks[j])
  }

  /** Adds `k` to an ascending list of distinct keys. */
  function InsertKey(ks: seq<Key>, k: Key): (r: seq<Key>)
    requires StrictlyAscending(ks)
    ensures StrictlyAscending(r)
    ensures forall x :: x in r <==> x in ks || x == k
  {
    if ks == [] then [k]
    else if k == ks[0] then ks
    else if KeyBefore(k, ks[0]) then [k] + ks
    else
      var rest := InsertKey(ks[1..], k);
      assert forall x :: x in ks[1..] ==> KeyBefore(ks[0], x);
      [ks[0]] + rest
  }

  /** The keys that occur in `rows`. */
  function KeySet<R, K>(rows: seq<R>, key: R -> K): set<K> {
    set i | 0 <= i < |rows| :: key(rows[i])
  }

  /** No two rows share a key. */
  predicate UniqueKeys<R, K(==)>(rows: seq<R>, key: R -> K) {
    forall i, j :: 0 <= i < j < |rows| ==> key(rows[i]) != key(rows[j])
  }

  /** The keys that occur in `rows`, each once, in the order `groupby` visits them. */
  function SortedKeys<R>(rows: seq<R>, key: R -> Key): (ks: seq<Key>)
    ensures StrictlyAscending(ks)
    ensures forall k :: k in ks <==> k in KeySet(rows, key)
  {
    if rows == [] then []
    else
      var init := rows[..|rows| - 1];
      assert forall k :: k in KeySet(rows, key) <==> k in KeySet(init, key) || k == key(rows[|rows| - 1]) by {
        forall k | k in KeySet(rows, key) ensures k in KeySet(init, key) || k == key(rows[|rows| - 1]) {
          var i :| 0 <= i < |rows| && key(rows[i]) == k;
          if i < |rows| - 1 {
            assert key(init[i]) == k;
          }
        }
        forall k | k in KeySet(init, key) ensures k in KeySet(rows, key) {
          var i :| 0 <= i < |init| && key(init[i]) == k;
          assert key(rows[i]) == k;
        }
      }
      InsertKey(SortedKeys(init, key), key(rows[|rows| - 1]))
  }

  /** The values of the rows whose key is `k`, in row order. */
  function Select<R, K(==), V>(rows: seq<R>, key: R -> K, val: R -> V, k: K): (vs: seq<V>)
    ensures |vs| <= |rows|
  {
    if rows == [] then []
    else
      var init := Select(rows[..|rows| - 1], key, val, k);
      if key(rows[|rows| - 1]) == k then init + [val(rows[|rows| - 1])] else init
  }

  /** The value of every row is among the values of its own group. */
  lemma {:induction false} SelectContains<R, K, V>(rows: seq<R>, key: R -> K, val: R -> V, i: nat)
    requires i < |rows|
    ensures val(rows[i]) in Select(rows, key, val, key(rows[i]))
    decreases |rows|
  {
    var last := |rows| - 1;
    if i < last {
      assert rows[..last][i] == rows[i];
      SelectContains(rows[..last], key, val, i);
    }
  }

  /** Every value of a group comes from a row of that group. */
  lemma {:induction false} SelectFrom<R, K, V>(rows: seq<R>, key: R -> K, val: R -> V, k: K, v: V)
    requires v in Select(rows, key, val, k)
    ensures exists i :: 0 <= i < |rows| && key(rows[i]) == k && val(rows[i]) == v
    decreases |rows|
  {
    var last := |rows| - 1;
    if v in Select(rows[..last], key, val, k) {
      SelectFrom(rows[..last], key, val, k, v);
      var i :| 0 <= i < last && key(rows[..last][i]) == k && val(rows[..last][i]) == v;
      assert rows[i] == rows[..last][i];
    }
  }

  /** A group is empty exactly when its key does not occur. */
  lemma SelectNonEmpty<R, K, V>(rows: seq<R>, key: R -> K, val: R -> V, k: K)
    ensures |Select(rows, key, val, k)| > 0 <==> k in KeySet(rows, key)
  {
    if k in KeySet(rows, key) {
      var i :| 0 <= i < |rows| && key(rows[i]) == k;
      SelectContains(rows, key, val, i);
    }
    if |Select(rows, key, val, k)| > 0 {
      SelectFrom(rows, key, val, k, Select(rows, key, val, k)[0]);
    }
  }

  /** With unique keys a group holds at most one value: that of its row. */
  lemma {:induction false} SelectUnique<R, K, V>(rows: seq<R>, key: R -> K, val: R -> V, k: K)
    requires UniqueKeys(rows, key)
    ensures |Select(rows, key, val, k)| <= 1
    ensures forall i :: 0 <= i < |rows| && key(rows[i]) == k ==> Select(rows, key, val, k) == [val(rows[i])]
    decreases |rows|
  {
    if rows != [] {
      var last := |rows| - 1;
      var init := rows[..last];
      assert UniqueKeys(init, key);
      SelectUnique(init, key, val, k);
      if key(rows[last]) == k {
        assert k !in KeySet(init, key);
        SelectNonEmpty(init, key, val, k);
      }
      forall i | 0 <= i < |rows| && key(rows[i]) == k ensures Select(rows, key, val, k) == [val(rows[i])] {
        if i < last {
          assert init[i] == rows[i];
          assert key(rows[last]) != k;
        }
      }
    }
  }

  /**
   * `df.groupby([NPERMS, TRT01PN])`: one entry per key that occurs, holding
   * that group's values in row order; no group is empty.
   */
  function GroupBy<R, V>(rows: seq<R>, key: R -> Key, val: R -> V): (g: map<Key, seq<V>>)
    ensures g.Keys == KeySet(rows, key)
    ensures forall k :: k in g ==> g[k] == Select(rows, key, val, k) && |g[k]| > 0
  {
    var g := map k | k in KeySet(rows, key) :: Select(rows, key, val, k);
    assert forall k :: k in g ==> |g[k]| > 0 by {
      forall k | k in g ensures |g[k]| > 0 {
        SelectNonEmpty(rows, key, val, k);
      }
    }
    g
  }
}
