/**
 The `%Y-%m-%d` rendering of a calendar date by `strftime`: a four-digit
 zero-padded year, a two-digit month and a two-digit day joined by `-`, and
 the parser that reads such a stamp back.
 */
module DateStamp {

  datatype Option<T> = None | Some(value: T)

  predicate IsDigit(ch: char) {
    '0' <= ch <= '9'
  }

  predicate AllDigits(s: string) {
    forall i :: 0 <= i < |s| ==> IsDigit(s[i])
  }

  function DigitChar(n: nat): (ch: char)
    requires n < 10
    ensures IsDigit(ch)
  {
    ('0' as int + n) as char
  }

  function DigitValue(ch: char): (n: nat)
    requires IsDigit(ch)
    ensures n < 10 && DigitChar(n) == ch
  {
    ch as int - '0' as int
  }

  function Pow10(w: nat): (p: nat)
    ensures p >= 1
  {
    if w == 0 then 1 else 10 * Pow10(w - 1)
  }

  /** The decimal digits of `n`, padded on the left with `0` to exactly `w` characters. */
  function ZeroPad(n: nat, w: nat): (r: string)
    requires n < Pow10(w)
    ensures |r| == w && AllDigits(r)
  {
    if w == 0 then []
    else ZeroPad(n / 10, w - 1) + [DigitChar(n % 10)]
  }

  /** The number a string of decimal digits denotes (leading zeros allowed). */
  function DecimalValue(s: string): nat
    requires AllDigits(s)
  {
    if s == [] then 0 else DecimalValue(s[..|s| - 1]) * 10 + DigitValue(s[|s| - 1])
  }

  /** Reading a padded number back gives the number. */
  lemma {:induction false} ZeroPadRoundTrip(n: nat, w: nat)
    requires n < Pow10(w)
    ensures DecimalValue(ZeroPad(n, w)) == n
  {
    if w > 0 {
      var r := ZeroPad(n, w);
      assert r[..w - 1] == ZeroPad(n / 10, w - 1);
      ZeroPadRoundTrip(n / 10, w - 1);
    }
  }

  /** `w` digits denote a number below `10^w`, and padding that number to `w` digits gives the digits back. */
  lemma {:induction false} DecimalValueRoundTrip(s: string)
    requires AllDigits(s)
    ensures DecimalValue(s) < Pow10(|s|)
    ensures ZeroPad(DecimalValue(s), |s|) == s
  {
    if s != [] {
      var front := s[..|s| - 1];
      DecimalValueRoundTrip(front);
      var v := DecimalValue(s);
      assert v / 10 == DecimalValue(front) && v % 10 == DigitValue(s[|s| - 1]);
      assert s == front + [s[|s| - 1]];
    }
  }

  /** `strftime("%Y-%m-%d")` of a date with year `y`, month `m` and day `d`. */
  function Stamp(y: nat, m: nat, d: nat): (r: string)
    requires y <= 9999 && 1 <= m <= 12 && 1 <= d <= 31
    ensures |r| == 10 && r[4] == '-' && r[7] == '-'
    ensures forall i :: 0 <= i < 10 && i != 4 && i != 7 ==> IsDigit(r[i])
  {
    ZeroPad(y, 4) + "-" + ZeroPad(m, 2) + "-" + ZeroPad(d, 2)
  }

  /** Every character of a stamp is a digit or `-`; in particular no `/`, `.` or `_`. */
  lemma StampAlphabet(y: nat, m: nat, d: nat)
    requires y <= 9999 && 1 <= m <= 12 && 1 <= d <= 31
    ensures '/' !in Stamp(y, m, d) && '.' !in Stamp(y, m, d) && '_' !in Stamp(y, m, d)
  {
    var r := Stamp(y, m, d);
    forall i | 0 <= i < |r| ensures r[i] != '/' && r[i] != '.' && r[i] != '_' {
      assert i == 4 || i == 7 || IsDigit(r[i]);
    }
  }

  /**
   Reads a `YYYY-MM-DD` stamp back into (year, month, day); `None` unless the
   text has that shape, the month is 1 to 12 and the day is 1 to 31. The day
   range is the same for every month: only `Stamp`'s own domain is checked.
   */
  function ParseStamp(s: string): (r: Option<(nat, nat, nat)>)
    ensures r.Some? ==> r.value.0 <= 9999 && 1 <= r.value.1 <= 12 && 1 <= r.value.2 <= 31
    ensures r.Some? ==> Stamp(r.value.0, r.value.1, r.value.2) == s
  {
    if |s| == 10 && s[4] == '-' && s[7] == '-'
       && AllDigits(s[..4]) && AllDigits(s[5..7]) && AllDigits(s[8..])
    then
      var y, m, d := DecimalValue(s[..4]), DecimalValue(s[5..7]), DecimalValue(s[8..]);
      if 1 <= m <= 12 && 1 <= d <= 31 then
        DecimalValueRoundTrip(s[..4]);
        DecimalValueRoundTrip(s[5..7]);
        DecimalValueRoundTrip(s[8..]);
        assert s == s[..4] + "-" + s[5..7] + "-" + s[8..];
        Some((y, m, d))
      else None
    else None
  }

  /** Parsing a stamp gives back the date it was rendered from. */
  lemma StampRoundTrip(y: nat, m: nat, d: nat)
    requires y <= 9999 && 1 <= m <= 12 && 1 <= d <= 31
    ensures ParseStamp(Stamp(y, m, d)) == Some((y, m, d))
  {
    var s := Stamp(y, m, d);
    assert s[..4] == ZeroPad(y, 4);
    assert s[5..7] == ZeroPad(m, 2);
    assert s[8..] == ZeroPad(d, 2);
    ZeroPadRoundTrip(y, 4);
    ZeroPadRoundTrip(m, 2);
    ZeroPadRoundTrip(d, 2);
  }

  /** Distinct dates give distinct stamps. */
  lemma StampInjective(y1: nat, m1: nat, d1: nat, y2: nat, m2: nat, d2: nat)
    requires y1 <= 9999 && 1 <= m1 <= 12 && 1 <= d1 <= 31
    requires y2 <= 9999 && 1 <= m2 <= 12 && 1 <= d2 <= 31
    requires Stamp(y1, m1, d1) == Stamp(y2, m2, d2)
    ensures y1 == y2 && m1 == m2 && d1 == d2
  {
    StampRoundTrip(y1, m1, d1);
    StampRoundTrip(y2, m2, d2);
  }
}
