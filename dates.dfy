/**
 * Timestamps as the import's datetime coercion produces them: a calendar date
 * and a time of day in whole seconds, within the span pandas can represent.
 */
module Dates {
  import opened Wrappers
  import opened Decimal

  datatype DateTime = DateTime(year: int, month: int, day: int, hour: int, minute: int, second: int)

  predicate IsLeapYear(y: int) { y % 4 == 0 && (y % 100 != 0 || y % 400 == 0) }

  function DaysInMonth(y: int, m: int): (n: int)
    requires 1 <= m <= 12
    ensures 28 <= n <= 31
  {
    if m == 2 then (if IsLeapYear(y) then 29 else 28)
    else if m == 4 || m == 6 || m == 9 || m == 11 then 30
    else 31
  }

  /** A real calendar instant: month, day, hour, minute and second in range. */
  predicate ValidDateTime(d: DateTime)
  {
    && 1 <= d.month <= 12
    && 1 <= d.day <= DaysInMonth(d.year, d.month)
    && 0 <= d.hour < 24 && 0 <= d.minute < 60 && 0 <= d.second < 60
  }

  /** Chronological order on timestamps (lexicographic on the fields). */
  predicate NotAfter(a: DateTime, b: DateTime)
  {
    if a.year != b.year then a.year < b.year
    else if a.month != b.month then a.month < b.month
    else if a.day != b.day then a.day < b.day
    else if a.hour != b.hour then a.hour < b.hour
    else if a.minute != b.minute then a.minute < b.minute
    else a.second <= b.second
  }

  /** First and last whole second of pandas' nanosecond timestamp range. */
  const MinTimestamp := DateTime(1677, 9, 21, 0, 12, 44)
  const MaxTimestamp := DateTime(2262, 4, 11, 23, 47, 16)

  predicate InTimestampRange(d: DateTime) { NotAfter(MinTimestamp, d) && NotAfter(d, MaxTimestamp) }

  /** Calendar quarter of a timestamp, as pandas' dt.quarter. */
  function Quarter(d: DateTime): (q: int)
    requires 1 <= d.month <= 12
    ensures 1 <= q <= 4
    ensures 3 * (q - 1) < d.month <= 3 * q
  {
    (d.month - 1) / 3 + 1
  }

  predicate DigitsAt(s: string, lo: nat, hi: nat)
    requires lo <= hi <= |s|
  {
    AllDigits(s[lo..hi])
  }

  /**
   * Datetime coercion of one text field: "YYYY-MM-DDTHH:MM:SS", with ' ' also
   * accepted as the date/time separator and an optional trailing 'Z' (UTC).
   * A field that is not a real instant inside the representable span does not coerce.
   */
  function ParseDateTime(s: string): (r: Option<DateTime>)
    ensures r.Some? ==> ValidDateTime(r.value) && InTimestampRange(r.value)
    ensures r.Some? ==> |s| == 19 || (|s| == 20 && s[19] == 'Z')
    ensures r.Some? ==> s[4] == '-' && s[7] == '-' && (s[10] == 'T' || s[10] == ' ') && s[13] == ':' && s[16] == ':'
  {
    if !(|s| == 19 || (|s| == 20 && s[19] == 'Z')) then None
    else if !(s[4] == '-' && s[7] == '-' && (s[10] == 'T' || s[10] == ' ') && s[13] == ':' && s[16] == ':') then None
    else if !(DigitsAt(s, 0, 4) && DigitsAt(s, 5, 7) && DigitsAt(s, 8, 10)
              && DigitsAt(s, 11, 13) && DigitsAt(s, 14, 16) && DigitsAt(s, 17, 19)) then None
    else
      var d := DateTime(Value(s[0..4]), Value(s[5..7]), Value(s[8..10]),
                        Value(s[11..13]), Value(s[14..16]), Value(s[17..19]));
      if ValidDateTime(d) && InTimestampRange(d) then Some(d) else None
  }

  /** The date half of the text, "YYYY-MM-DD". */
  function DatePart(d: DateTime): (s: string)
    requires ValidDateTime(d) && InTimestampRange(d)
    ensures |s| == 10
  {
    Padded(d.year, 4) + "-" + Padded(d.month, 2) + "-" + Padded(d.day, 2)
  }

  /** The time half of the text, "HH:MM:SS". */
  function TimePart(d: DateTime): (s: string)
    requires ValidDateTime(d)
    ensures |s| == 8
  {
    Padded(d.hour, 2) + ":" + Padded(d.minute, 2) + ":" + Padded(d.second, 2)
  }

  /** ISO 8601 text of a timestamp in UTC, the form the source data uses. */
  function FormatDateTime(d: DateTime): (s: string)
    requires ValidDateTime(d) && InTimestampRange(d)
    ensures |s| == 20
  {
    DatePart(d) + "T" + TimePart(d) + "Z"
  }

  lemma {:induction false} ParseFormatDateTime(d: DateTime)
    requires ValidDateTime(d) && InTimestampRange(d)
    ensures ParseDateTime(FormatDateTime(d)) == Some(d)
  {
    var s := FormatDateTime(d);
    FormatFields(d);
    assert DigitsAt(s, 0, 4) && DigitsAt(s, 5, 7) && DigitsAt(s, 8, 10)
      && DigitsAt(s, 11, 13) && DigitsAt(s, 14, 16) && DigitsAt(s, 17, 19);
    ValueOfPadded(d.year, 4);
    ValueOfPadded(d.month, 2);
    ValueOfPadded(d.day, 2);
    ValueOfPadded(d.hour, 2);
    ValueOfPadded(d.minute, 2);
    ValueOfPadded(d.second, 2);
  }

  /** Where each field and separator of the formatted text sits. */
  lemma FormatFields(d: DateTime)
    requires ValidDateTime(d) && InTimestampRange(d)
    ensures var s := FormatDateTime(d);
      && s[0..4] == Padded(d.year, 4) && s[5..7] == Padded(d.month, 2) && s[8..10] == Padded(d.day, 2)
      && s[11..13] == Padded(d.hour, 2) && s[14..16] == Padded(d.minute, 2) && s[17..19] == Padded(d.second, 2)
      && s[4] == '-' && s[7] == '-' && s[10] == 'T' && s[13] == ':' && s[16] == ':' && s[19] == 'Z'
  {
  }

  lemma DateFields(d: DateTime)
    requires ValidDateTime(d) && InTimestampRange(d)
    ensures var s := DatePart(d);
      && s[0..4] == Padded(d.year, 4) && s[5..7] == Padded(d.month, 2) && s[8..10] == Padded(d.day, 2)
      && s[4] == '-' && s[7] == '-'
  {
  }

  lemma TimeFields(d: DateTime)
    requires ValidDateTime(d)
    ensures var s := TimePart(d);
      && s[0..2] == Padded(d.hour, 2) && s[3..5] == Padded(d.minute, 2) && s[6..8] == Padded(d.second, 2)
      && s[2] == ':' && s[5] == ':'
  {
  }
}
