/**
 The conjunctive row filter: a row stays in the filtered view exactly when its
 region is among the selected regions AND its plastic type is among the
 selected types. The filter is stable: kept rows stay in source order.
 */
module Filter {
  import opened Observations

  predicate Keep(r: Row, regions: set<string>, types: set<string>) {
    r.region in regions && r.plasticType in types
  }

  /** The filtered view of `rows` for the two selections. */
  function FilterRows(rows: seq<Row>, regions: set<string>, types: set<string>): (view: seq<Row>)
    ensures |view| <= |rows|
    ensures forall i :: 0 <= i < |view| ==> Keep(view[i], regions, types)
    ensures forall i :: 0 <= i < |rows| && Keep(rows[i], regions, types) ==> rows[i] in view
  {
    if rows == [] then []
    else
      var rest := FilterRows(rows[1..], regions, types);
      assert forall i :: 1 <= i < |rows| ==> rows[i] == rows[1..][i - 1];
      if Keep(rows[0], regions, types) then [rows[0]] + rest else rest
  }

  /** `s` is obtained from `t` by deleting some elements, keeping the order of the rest. */
  ghost predicate IsSubsequence<T>(s: seq<T>, t: seq<T>)
    decreases |t|
  {
    if s == [] then true
    else if t == [] then false
    else (s[0] == t[0] && IsSubsequence(s[1..], t[1..])) || IsSubsequence(s, t[1..])
  }

  /** A row is in the view exactly when it is in the source and passes both tests. */
  lemma {:induction false} FilterMembership(rows: seq<Row>, regions: set<string>, types: set<string>, x: Row)
    ensures x in FilterRows(rows, regions, types) <==> x in rows && Keep(x, regions, types)
  {
    if rows != [] {
      FilterMembership(rows[1..], regions, types, x);
      assert x in rows <==> x == rows[0] || x in rows[1..];
    }
  }

  /** Each kept row occurs in the view as often as in the source; no other row occurs. */
  lemma {:induction false} FilterMultiplicity(rows: seq<Row>, regions: set<string>, types: set<string>, x: Row)
    ensures multiset(FilterRows(rows, regions, types))[x]
         == if Keep(x, regions, types) then multiset(rows)[x] else 0
  {
    if rows != [] {
      FilterMultiplicity(rows[1..], regions, types, x);
      assert rows == [rows[0]] + rows[1..];
      assert multiset(rows) == multiset([rows[0]]) + multiset(rows[1..]);
    }
  }

  /** The view keeps source order. */
  lemma {:induction false} FilterPreservesOrder(rows: seq<Row>, regions: set<string>, types: set<string>)
    ensures IsSubsequence(FilterRows(rows, regions, types), rows)
  {
    if rows != [] {
      var rest := FilterRows(rows[1..], regions, types);
      FilterPreservesOrder(rows[1..], regions, types);
      if Keep(rows[0], regions, types) {
        assert ([rows[0]] + rest)[1..] == rest;
      } else if rest != [] {
        assert IsSubsequence(rest, rows[1..]);
      }
    }
  }

  /** Filtering a concatenation filters each part: the view is built row by row, in order. */
  lemma {:induction false} FilterAppend(a: seq<Row>, b: seq<Row>, regions: set<string>, types: set<string>)
    ensures FilterRows(a + b, regions, types) == FilterRows(a, regions, types) + FilterRows(b, regions, types)
  {
    if a == [] {
      assert a + b == b;
    } else {
      assert (a + b)[1..] == a[1..] + b;
      FilterAppend(a[1..], b, regions, types);
    }
  }

  /** An empty selection in either dimension selects nothing (not everything). */
  lemma {:induction false} EmptySelectionFiltersAll(rows: seq<Row>, regions: set<string>, types: set<string>)
    requires regions == {} || types == {}
    ensures FilterRows(rows, regions, types) == []
  {
    if rows != [] {
      EmptySelectionFiltersAll(rows[1..], regions, types);
    }
  }

  /** The default selection (every region and every type present) keeps the whole table. */
  lemma {:induction false} FullSelectionKeepsAll(rows: seq<Row>, regions: set<string>, types: set<string>)
    requires forall i :: 0 <= i < |rows| ==> rows[i].region in regions && rows[i].plasticType in types
    ensures FilterRows(rows, regions, types) == rows
  {
    if rows != [] {
      assert forall i :: 1 <= i < |rows| ==> rows[1..][i - 1] == rows[i];
      FullSelectionKeepsAll(rows[1..], regions, types);
      assert rows == [rows[0]] + rows[1..];
    }
  }

  /** Re-applying the same selection changes nothing. */
  lemma FilterIdempotent(rows: seq<Row>, regions: set<string>, types: set<string>)
    ensures FilterRows(FilterRows(rows, regions, types), regions, types) == FilterRows(rows, regions, types)
  {
    FullSelectionKeepsAll(FilterRows(rows, regions, types), regions, types);
  }
}
