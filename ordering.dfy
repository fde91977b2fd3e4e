/**
 The orders in which grouped keys come out. Grouping sorts its keys: region
 labels compare as strings do (lexicographically by code point, a proper
 prefix first), monthly periods compare chronologically.
 */
module Ordering {
  import opened Observations

  ghost predicate StrictTotalOrder<K(!new)>(lt: (K, K) -> bool) {
    && (forall a :: !lt(a, a))
    && (forall a, b, c :: lt(a, b) && lt(b, c) ==> lt(a, c))
    && (forall a, b :: a != b ==> lt(a, b) || lt(b, a))
  }

  /** String order: lexicographic on characters, a proper prefix before its extensions. */
  function StrLess(a: string, b: string): bool
  {
    if a == [] then b != []
    else if b == [] then false
    else if a[0] != b[0] then a[0] < b[0]
    else StrLess(a[1..], b[1..])
  }

  lemma {:induction false} StrLessIrreflexive(a: string)
    ensures !StrLess(a, a)
  {
    if a != [] {
      StrLessIrreflexive(a[1..]);
    }
  }

  lemma {:induction false} StrLessTransitive(a: string, b: string, c: string)
    requires StrLess(a, b) && StrLess(b, c)
    ensures StrLess(a, c)
  {
    if a != [] && a[0] == b[0] && b[0] == c[0] {
      StrLessTransitive(a[1..], b[1..], c[1..]);
    }
  }

  lemma {:induction false} StrLessTotal(a: string, b: string)
    requires a != b
    ensures StrLess(a, b) || StrLess(b, a)
  {
    if a != [] && b != [] && a[0] == b[0] {
      assert a == [a[0]] + a[1..] && b == [b[0]] + b[1..];
      StrLessTotal(a[1..], b[1..]);
    }
  }

  lemma StrLessIsStrictTotalOrder()
    ensures StrictTotalOrder(StrLess)
  {
    forall a: string ensures !StrLess(a, a) {
      StrLessIrreflexive(a);
    }
    forall a: string, b: string, c: string | StrLess(a, b) && StrLess(b, c)
      ensures StrLess(a, c)
    {
      StrLessTransitive(a, b, c);
    }
    forall a: string, b: string | a != b ensures StrLess(a, b) || StrLess(b, a) {
      StrLessTotal(a, b);
    }
  }

  /** Chronological order of monthly periods. */
  function MonthLess(a: YearMonth, b: YearMonth): bool
  {
    a.year < b.year || (a.year == b.year && a.month < b.month)
  }

  lemma MonthLessIsStrictTotalOrder()
    ensures StrictTotalOrder(MonthLess)
  {
  }

  /** Chronological order of dates: by year, then month, then day. */
  predicate DateLessEq(a: Date, b: Date) {
    a.year < b.year || (a.year == b.year && (a.month < b.month || (a.month == b.month && a.day <= b.day)))
  }

  /**
   Truncating dates to their months keeps their order: a later date never
   falls in an earlier month, and a date in an earlier month is strictly
   earlier.
   */
  lemma MonthTruncationMonotone(d1: Date, d2: Date)
    ensures DateLessEq(d1, d2) ==> !MonthLess(YearMonthOf(d2), YearMonthOf(d1))
    ensures MonthLess(YearMonthOf(d1), YearMonthOf(d2)) ==> DateLessEq(d1, d2) && d1 != d2
  {
  }

  /**
   Truncating a date and re-expanding its month gives the earliest valid date
   of that month: no later than the date, equal to it exactly on day 1; and
   re-expanding then truncating gives back the month.
   */
  lemma MonthStartBeginsMonth(d: Date, e: Date)
    requires ValidDate(d)
    ensures DateLessEq(MonthStart(YearMonthOf(d)), d)
    ensures MonthStart(YearMonthOf(d)) == d <==> d.day == 1
    ensures ValidDate(e) && YearMonthOf(e) == YearMonthOf(d) ==> DateLessEq(MonthStart(YearMonthOf(d)), e)
    ensures YearMonthOf(MonthStart(YearMonthOf(d))) == YearMonthOf(d)
  {
  }
}
