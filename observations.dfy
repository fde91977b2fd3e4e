/**
 The observation table of the dashboard: one `Row` per measured pollution
 event. Dates are already parsed into calendar triples; weights are exact
 reals.
 */
module Observations {

  /** A calendar date, as the date column parses to. */
  datatype Date = Date(year: int, month: int, day: int)

  /** A calendar month: the key a date is truncated to when grouping by month. */
  datatype YearMonth = YearMonth(year: int, month: int)

  /** One row of the observation table. */
  datatype Row = Row(
    region: string,
    plasticType: string,
    weightKg: real,
    date: Date,
    latitude: real,
    longitude: real,
    depthMeters: real)

  predicate IsLeapYear(year: int) {
    year % 4 == 0 && (year % 100 != 0 || year % 400 == 0)
  }

  function DaysInMonth(year: int, month: int): (n: int)
    requires 1 <= month <= 12
    ensures 28 <= n <= 31
    ensures month == 2 <==> n < 30
  {
    if month == 2 then (if IsLeapYear(year) then 29 else 28)
    else if month == 4 || month == 6 || month == 9 || month == 11 then 30
    else 31
  }

  /** A real calendar date: a month 1 to 12 and a day within that month. */
  predicate ValidDate(d: Date) {
    1 <= d.month <= 12 && 1 <= d.day <= DaysInMonth(d.year, d.month)
  }

  /** Truncates a date to its calendar month (a monthly period). */
  function YearMonthOf(d: Date): YearMonth
  {
    YearMonth(d.year, d.month)
  }

  /** Re-expands a monthly period to a timestamp: the first day of that month. */
  function MonthStart(ym: YearMonth): (d: Date)
    ensures d.day == 1
    ensures YearMonthOf(d) == ym
    ensures 1 <= ym.month <= 12 ==> ValidDate(d)
  {
    Date(ym.year, ym.month, 1)
  }

  /** The grouping keys of a row. */
  function RegionOf(r: Row): string { r.region }

  function MonthOf(r: Row): YearMonth { YearMonthOf(r.date) }

  /** The sum of `weightKg` over a sequence of rows. */
  function TotalWeight(rows: seq<Row>): real
  {
    if rows == [] then 0.0 else rows[0].weightKg + TotalWeight(rows[1..])
  }
}
