/**
 Group-and-sum: rows are grouped by a key, `weightKg` is summed per group, and
 the groups come out with their keys in ascending order (one entry per key
 present, none for an absent key). A summary is a sequence of (key, total)
 entries; it is built by inserting the rows one at a time into a sorted
 sequence of entries.
 */
module GroupSum {
  import opened Observations
  import opened Ordering

  /** The keys of a summary. */
  ghost function KeySet<K>(g: seq<(K, real)>): set<K> {
    set i | 0 <= i < |g| :: g[i].0
  }

  /** Keys strictly ascending: sorted and without repetition. */
  ghost predicate Ascending<K>(g: seq<(K, real)>, lt: (K, K) -> bool) {
    forall i, j :: 0 <= i < j < |g| ==> lt(g[i].0, g[j].0)
  }

  /** The sum of the totals of a summary. */
  function SumTotals<K>(g: seq<(K, real)>): real {
    if g == [] then 0.0 else g[0].1 + SumTotals(g[1..])
  }

  /** The total recorded for `k`, or 0 when `k` has no entry. */
  function TotalOf<K(==)>(g: seq<(K, real)>, k: K): real {
    if g == [] then 0.0 else if g[0].0 == k then g[0].1 else TotalOf(g[1..], k)
  }

  /** Reference definition of a group's total: the weight of the rows whose key is `k`. */
  function WeightWhere<K(==)>(rows: seq<Row>, key: Row -> K, k: K): real {
    if rows == [] then 0.0
    else (if key(rows[0]) == k then rows[0].weightKg else 0.0) + WeightWhere(rows[1..], key, k)
  }

  /** Adds weight `w` to the entry of `k`, creating it at its sorted place if absent. */
  function Insert<K(==)>(g: seq<(K, real)>, k: K, w: real, lt: (K, K) -> bool): seq<(K, real)> {
    if g == [] then [(k, w)]
    else if g[0].0 == k then [(k, g[0].1 + w)] + g[1..]
    else if lt(k, g[0].0) then [(k, w)] + g
    else [g[0]] + Insert(g[1..], k, w, lt)
  }

  /** The summary of `rows` grouped by `key`. */
  function GroupBy<K(==)>(rows: seq<Row>, key: Row -> K, lt: (K, K) -> bool): seq<(K, real)> {
    if rows == [] then [] else Insert(GroupBy(rows[1..], key, lt), key(rows[0]), rows[0].weightKg, lt)
  }

  // ---------------------------------------------------------------- Insert

  lemma KeySetCons<K>(e: (K, real), g: seq<(K, real)>)
    ensures KeySet([e] + g) == {e.0} + KeySet(g)
  {
    var s := [e] + g;
    assert s[0].0 == e.0;
    forall x | x in KeySet(s) ensures x in {e.0} + KeySet(g) {
      var i :| 0 <= i < |s| && s[i].0 == x;
      if i > 0 {
        assert s[i] == g[i - 1];
      }
    }
    forall x | x in KeySet(g) ensures x in KeySet(s) {
      var i :| 0 <= i < |g| && g[i].0 == x;
      assert s[i + 1] == g[i];
    }
  }

  lemma {:induction false} InsertKeys<K>(g: seq<(K, real)>, k: K, w: real, lt: (K, K) -> bool)
    ensures KeySet(Insert(g, k, w, lt)) == KeySet(g) + {k}
    ensures |Insert(g, k, w, lt)| <= |g| + 1
  {
    if g == [] {
      assert Insert(g, k, w, lt) == [(k, w)] + [];
      KeySetCons((k, w), []);
    } else {
      assert g == [g[0]] + g[1..];
      KeySetCons(g[0], g[1..]);
      if g[0].0 == k {
        KeySetCons((k, g[0].1 + w), g[1..]);
      } else if lt(k, g[0].0) {
        KeySetCons((k, w), g);
      } else {
        InsertKeys(g[1..], k, w, lt);
        KeySetCons(g[0], Insert(g[1..], k, w, lt));
      }
    }
  }

  lemma {:induction false} InsertSum<K>(g: seq<(K, real)>, k: K, w: real, lt: (K, K) -> bool)
    ensures SumTotals(Insert(g, k, w, lt)) == SumTotals(g) + w
  {
    if g != [] {
      if g[0].0 == k {
        assert ([(k, g[0].1 + w)] + g[1..])[1..] == g[1..];
      } else if lt(k, g[0].0) {
        assert ([(k, w)] + g)[1..] == g;
      } else {
        InsertSum(g[1..], k, w, lt);
        assert ([g[0]] + Insert(g[1..], k, w, lt))[1..] == Insert(g[1..], k, w, lt);
      }
    }
  }

  /** In a strictly ascending summary, a key below the first key has no entry. */
  lemma BelowFirstIsAbsent<K(!new)>(g: seq<(K, real)>, k: K, lt: (K, K) -> bool)
    requires StrictTotalOrder(lt) && Ascending(g, lt)
    requires g != [] && lt(k, g[0].0)
    ensures k !in KeySet(g)
  {
  }

  lemma {:induction false} AbsentTotalIsZero<K>(g: seq<(K, real)>, k: K)
    requires k !in KeySet(g)
    ensures TotalOf(g, k) == 0.0
  {
    if g != [] {
      assert g[0].0 in KeySet(g);
      assert KeySet(g[1..]) <= KeySet(g) by {
        assert forall i :: 0 <= i < |g| - 1 ==> g[1..][i] == g[i + 1];
      }
      AbsentTotalIsZero(g[1..], k);
    }
  }

  lemma {:induction false} InsertAscending<K(!new)>(g: seq<(K, real)>, k: K, w: real, lt: (K, K) -> bool)
    requires StrictTotalOrder(lt) && Ascending(g, lt)
    ensures Ascending(Insert(g, k, w, lt), lt)
  {
    if g != [] && g[0].0 != k && !lt(k, g[0].0) {
      var rest := Insert(g[1..], k, w, lt);
      InsertAscending(g[1..], k, w, lt);
      InsertKeys(g[1..], k, w, lt);
      forall j | 0 <= j < |rest| ensures lt(g[0].0, rest[j].0) {
        assert rest[j].0 in KeySet(rest);
        if rest[j].0 != k {
          var i :| 0 <= i < |g[1..]| && g[1..][i].0 == rest[j].0;
          assert g[1..][i] == g[i + 1];
        }
      }
      var ins := [g[0]] + rest;
      forall i, j | 0 <= i < j < |ins| ensures lt(ins[i].0, ins[j].0) {
        if i == 0 {
          assert ins[j] == rest[j - 1];
        } else {
          assert ins[i] == rest[i - 1] && ins[j] == rest[j - 1];
        }
      }
    }
  }

  lemma {:induction false} InsertTotalOf<K(!new)>(g: seq<(K, real)>, k: K, w: real, lt: (K, K) -> bool, x: K)
    requires StrictTotalOrder(lt) && Ascending(g, lt)
    ensures TotalOf(Insert(g, k, w, lt), x) == TotalOf(g, x) + (if x == k then w else 0.0)
  {
    if g != [] {
      if g[0].0 == k {
        assert ([(k, g[0].1 + w)] + g[1..])[1..] == g[1..];
      } else if lt(k, g[0].0) {
        assert ([(k, w)] + g)[1..] == g;
        if x == k {
          BelowFirstIsAbsent(g, k, lt);
          AbsentTotalIsZero(g, k);
        }
      } else {
        InsertTotalOf(g[1..], k, w, lt, x);
        assert ([g[0]] + Insert(g[1..], k, w, lt))[1..] == Insert(g[1..], k, w, lt);
      }
    }
  }

  // ---------------------------------------------------------------- GroupBy

  /** The keys of the summary are exactly the keys of the rows: absent keys get no entry. */
  lemma {:induction false} GroupByKeys<K>(rows: seq<Row>, key: Row -> K, lt: (K, K) -> bool)
    ensures KeySet(GroupBy(rows, key, lt)) == set r | r in rows :: key(r)
    ensures |GroupBy(rows, key, lt)| <= |rows|
  {
    if rows != [] {
      GroupByKeys(rows[1..], key, lt);
      InsertKeys(GroupBy(rows[1..], key, lt), key(rows[0]), rows[0].weightKg, lt);
      assert forall r :: r in rows <==> r == rows[0] || r in rows[1..];
    }
  }

  /** No row is dropped or counted twice: the totals add up to the weight of all rows. */
  lemma {:induction false} GroupBySum<K>(rows: seq<Row>, key: Row -> K, lt: (K, K) -> bool)
    ensures SumTotals(GroupBy(rows, key, lt)) == TotalWeight(rows)
  {
    if rows != [] {
      GroupBySum(rows[1..], key, lt);
      InsertSum(GroupBy(rows[1..], key, lt), key(rows[0]), rows[0].weightKg, lt);
    }
  }

  /** The keys come out strictly ascending. */
  lemma {:induction false} GroupByAscending<K(!new)>(rows: seq<Row>, key: Row -> K, lt: (K, K) -> bool)
    requires StrictTotalOrder(lt)
    ensures Ascending(GroupBy(rows, key, lt), lt)
  {
    if rows != [] {
      GroupByAscending(rows[1..], key, lt);
      InsertAscending(GroupBy(rows[1..], key, lt), key(rows[0]), rows[0].weightKg, lt);
    }
  }

  /** The total recorded for each key is the weight of the rows with that key. */
  lemma {:induction false} GroupByTotalOf<K(!new)>(rows: seq<Row>, key: Row -> K, lt: (K, K) -> bool, x: K)
    requires StrictTotalOrder(lt)
    ensures TotalOf(GroupBy(rows, key, lt), x) == WeightWhere(rows, key, x)
  {
    if rows != [] {
      GroupByTotalOf(rows[1..], key, lt, x);
      GroupByAscending(rows[1..], key, lt);
      InsertTotalOf(GroupBy(rows[1..], key, lt), key(rows[0]), rows[0].weightKg, lt, x);
    }
  }

  /** In a strictly ascending summary, each entry's total is the one recorded for its key. */
  lemma {:induction false} EntryTotal<K(!new)>(g: seq<(K, real)>, lt: (K, K) -> bool, i: nat)
    requires StrictTotalOrder(lt) && Ascending(g, lt)
    requires i < |g|
    ensures TotalOf(g, g[i].0) == g[i].1
  {
    if i > 0 {
      assert lt(g[0].0, g[i].0);
      assert g[1..][i - 1] == g[i];
      EntryTotal(g[1..], lt, i - 1);
    }
  }

  /** Every entry of the summary holds the weight of exactly the rows with its key. */
  lemma GroupByEntries<K(!new)>(rows: seq<Row>, key: Row -> K, lt: (K, K) -> bool)
    requires StrictTotalOrder(lt)
    ensures var g := GroupBy(rows, key, lt);
      forall i :: 0 <= i < |g| ==> g[i].1 == WeightWhere(rows, key, g[i].0)
  {
    var g := GroupBy(rows, key, lt);
    GroupByAscending(rows, key, lt);
    forall i | 0 <= i < |g| ensures g[i].1 == WeightWhere(rows, key, g[i].0) {
      EntryTotal(g, lt, i);
      GroupByTotalOf(rows, key, lt, g[i].0);
    }
  }
}
