/**
 * The hire records both reports read from the hired_employees table, and
 * the year filter they share.
 */
module ReportData {
  import opened Dates
  import opened Models

  /** df['datetime'].dt.year == year */
  predicate InYear(h: HiredEmployee, year: int) { h.datetime.year == year }

  /** Every stored datetime has a calendar month, so its quarter is defined. */
  predicate MonthsValid(hs: seq<HiredEmployee>)
  {
    forall i :: 0 <= i < |hs| ==> 1 <= hs[i].datetime.month <= 12
  }

  /** Strictly increasing, so also free of repeats. */
  predicate Increasing(xs: seq<int>) { forall i, j :: 0 <= i < j < |xs| ==> xs[i] < xs[j] }
}
