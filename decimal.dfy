/**
 * Decimal digit strings: the integer syntax that the import's numeric
 * coercion accepts, and fixed-width digit fields used by timestamps.
 */
module Decimal {
  import opened Wrappers

  predicate IsDigit(c: char) { '0' <= c <= '9' }

  predicate AllDigits(s: string) { forall i :: 0 <= i < |s| ==> IsDigit(s[i]) }

  function DigitValue(c: char): (n: nat)
    requires IsDigit(c)
    ensures n < 10
  {
    c as int - '0' as int
  }

  function DigitChar(n: nat): (c: char)
    requires n < 10
    ensures IsDigit(c) && DigitValue(c) == n
  {
    ('0' as int + n) as char
  }

  /** The value of a digit string, most significant digit first (the empty string is 0). */
  function Value(s: string): nat
    requires AllDigits(s)
    decreases |s|
  {
    if |s| == 0 then 0 else Value(s[..|s| - 1]) * 10 + DigitValue(s[|s| - 1])
  }

  /** The shortest decimal form of n. */
  function Digits(n: nat): (s: string)
    ensures 1 <= |s| && AllDigits(s)
    decreases n
  {
    if n < 10 then [DigitChar(n)] else Digits(n / 10) + [DigitChar(n % 10)]
  }

  /** 10 to the power w. */
  function Pow10(w: nat): nat
  {
    if w == 0 then 1 else 10 * Pow10(w - 1)
  }

  /** n written with exactly w digits, zero-padded on the left. */
  function Padded(n: nat, w: nat): (s: string)
    requires n < Pow10(w)
    ensures |s| == w && AllDigits(s)
    decreases w
  {
    if w == 0 then [] else Padded(n / 10, w - 1) + [DigitChar(n % 10)]
  }

  lemma {:induction false} ValueOfDigits(n: nat)
    ensures Value(Digits(n)) == n
    decreases n
  {
    if n >= 10 {
      var s := Digits(n);
      assert s[..|s| - 1] == Digits(n / 10);
      ValueOfDigits(n / 10);
    }
  }

  lemma {:induction false} ValueOfPadded(n: nat, w: nat)
    requires n < Pow10(w)
    ensures Value(Padded(n, w)) == n
    decreases w
  {
    if w > 0 {
      var s := Padded(n, w);
      assert s[..|s| - 1] == Padded(n / 10, w - 1);
      ValueOfPadded(n / 10, w - 1);
    }
  }

  predicate IsSign(c: char) { c == '-' || c == '+' }

  /**
   * Integer coercion of one text field: an optional sign followed by at least
   * one decimal digit. Anything else does not coerce.
   */
  function ParseInt(s: string): (r: Option<int>)
    ensures r.Some? ==> |s| >= 1 && (IsDigit(s[0]) || IsSign(s[0]))
    ensures r.Some? ==> forall i :: 1 <= i < |s| ==> IsDigit(s[i])
    ensures 1 <= |s| && AllDigits(s) ==> r == Some(Value(s))
    ensures 2 <= |s| && s[0] == '-' && AllDigits(s[1..]) ==> r == Some(-(Value(s[1..]) as int))
    ensures 2 <= |s| && s[0] == '+' && AllDigits(s[1..]) ==> r == Some(Value(s[1..]) as int)
    ensures r.Some? <==> (1 <= |s| && AllDigits(s)) || (2 <= |s| && IsSign(s[0]) && AllDigits(s[1..]))
  {
    if |s| == 0 then None
    else if IsSign(s[0]) then
      if |s| >= 2 && AllDigits(s[1..]) then
        var v: int := Value(s[1..]);
        Some(if s[0] == '-' then -v else v)
      else None
    else if AllDigits(s) then Some(Value(s))
    else None
  }

  /** Canonical decimal text of an integer. */
  function FormatInt(n: int): (s: string)
    ensures 1 <= |s|
  {
    if n < 0 then "-" + Digits(-n) else Digits(n)
  }

  lemma {:induction false} ParseFormatInt(n: int)
    ensures ParseInt(FormatInt(n)) == Some(n)
  {
    if n < 0 {
      var d := Digits(-n);
      var s := "-" + d;
      assert s[1..] == d;
      assert 2 <= |s| && s[0] == '-' && AllDigits(s[1..]);
      ValueOfDigits(-n);
    } else {
      ValueOfDigits(n);
    }
  }
}
