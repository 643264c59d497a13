/**
 * One field of a data frame: missing (pandas' NaN/NA/NaT), raw text as read
 * from the CSV file, or a value produced by a coercion.
 */
module Cells {
  import opened Wrappers
  import opened Decimal
  import opened Dates

  datatype Cell = Missing | Text(text: string) | IntVal(n: int) | TimeVal(t: DateTime)

  /** What the CSV reader produces: text, or missing for an empty field. */
  predicate IsRaw(c: Cell) { c.Missing? || c.Text? }

  /** The field holds text that the integer coercion accepts. */
  predicate CoercesToInt(c: Cell) { c.Text? && ParseInt(c.text).Some? }

  /** The field holds text that the datetime coercion accepts. */
  predicate CoercesToTime(c: Cell) { c.Text? && ParseDateTime(c.text).Some? }

  /** The two column conversions the validators apply. */
  datatype Coercion = Numeric | Timestamp

  /**
   * pd.to_numeric(errors='coerce').astype('Int64') for Numeric and
   * pd.to_datetime(errors='coerce') for Timestamp, on one field: text that
   * does not convert becomes missing, and a missing field stays missing.
   */
  function Coerce(how: Coercion, c: Cell): (r: Cell)
    ensures IsRaw(c) && how == Numeric ==> (r.IntVal? <==> CoercesToInt(c)) && (r.Missing? <==> !CoercesToInt(c))
    ensures IsRaw(c) && how == Numeric && r.IntVal? ==> r.n == ParseInt(c.text).value
    ensures IsRaw(c) && how == Timestamp ==> (r.TimeVal? <==> CoercesToTime(c)) && (r.Missing? <==> !CoercesToTime(c))
    ensures IsRaw(c) && how == Timestamp && r.TimeVal? ==> r.t == ParseDateTime(c.text).value
    ensures c.Missing? ==> r.Missing?
  {
    match (how, c)
    case (Numeric, Text(s)) => (match ParseInt(s) case Some(n) => IntVal(n) case None => Missing)
    case (Numeric, IntVal(n)) => c
    case (Timestamp, Text(s)) => (match ParseDateTime(s) case Some(t) => TimeVal(t) case None => Missing)
    case (Timestamp, TimeVal(t)) => c
    // Missing stays missing; a value of the other kind is not produced by the
    // CSV reader and is treated as not convertible.
    case _ => Missing
  }

  /** fillna(v) on one field. */
  function Fill(c: Cell, v: Cell): Cell { if c.Missing? then v else c }
}
