/** Calendar dates as the attendance table stores them: proleptic Gregorian, years 1 to 9999,
    compared chronologically, and written in the `YYYY-MM-DD` form the payloads and query bounds use. */
module Dates {
  import opened Wrappers

  datatype Date = Date(year: int, month: int, day: int)

  const MinYear: int := 1
  const MaxYear: int := 9999

  predicate IsLeapYear(y: int) {
    y % 4 == 0 && (y % 100 != 0 || y % 400 == 0)
  }

  function DaysInMonth(y: int, m: int): (n: int)
    requires 1 <= m <= 12
    ensures 28 <= n <= 31
    ensures n == 29 <==> m == 2 && IsLeapYear(y)
  {
    if m == 2 then (if IsLeapYear(y) then 29 else 28)
    else if m == 4 || m == 6 || m == 9 || m == 11 then 30
    else 31
  }

  /** A day that exists on the calendar. */
  predicate IsValid(d: Date) {
    && MinYear <= d.year <= MaxYear
    && 1 <= d.month <= 12
    && 1 <= d.day <= DaysInMonth(d.year, d.month)
  }

  /** Chronological order: `a` is on or before `b`. */
  predicate OnOrBefore(a: Date, b: Date) {
    || a.year < b.year
    || (a.year == b.year && (a.month < b.month || (a.month == b.month && a.day <= b.day)))
  }

  /** The order used by the date-range filters is a total order. */
  lemma OnOrBeforeIsTotalOrder(a: Date, b: Date, c: Date)
    ensures OnOrBefore(a, a)
    ensures OnOrBefore(a, b) && OnOrBefore(b, a) ==> a == b
    ensures OnOrBefore(a, b) && OnOrBefore(b, c) ==> OnOrBefore(a, c)
    ensures OnOrBefore(a, b) || OnOrBefore(b, a)
  {
  }

  predicate IsDigit(c: char) {
    '0' <= c <= '9'
  }

  function DigitChar(n: int): (c: char)
    requires 0 <= n <= 9
    ensures IsDigit(c)
  {
    ('0' as int + n) as char
  }

  function DigitValue(c: char): (n: int)
    requires IsDigit(c)
    ensures 0 <= n <= 9
    ensures DigitChar(n) == c
  {
    c as int - '0' as int
  }

  predicate AllDigits(s: string) {
    forall i :: 0 <= i < |s| ==> IsDigit(s[i])
  }

  /** Two decimal digits, zero-padded. */
  function Pad2(n: int): (s: string)
    requires 0 <= n < 100
    ensures |s| == 2 && AllDigits(s)
  {
    [DigitChar(n / 10), DigitChar(n % 10)]
  }

  /** Four decimal digits, zero-padded. */
  function Pad4(n: int): (s: string)
    requires 0 <= n < 10000
    ensures |s| == 4 && AllDigits(s)
  {
    Pad2(n / 100) + Pad2(n % 100)
  }

  function Num2(s: string): (n: int)
    requires |s| == 2 && AllDigits(s)
    ensures 0 <= n < 100
  {
    10 * DigitValue(s[0]) + DigitValue(s[1])
  }

  function Num4(s: string): (n: int)
    requires |s| == 4 && AllDigits(s)
    ensures 0 <= n < 10000
  {
    100 * Num2(s[..2]) + Num2(s[2..])
  }

  /** The `YYYY-MM-DD` spelling of a valid date. */
  function ToIso(d: Date): (s: string)
    requires IsValid(d)
    ensures |s| == 10 && s[4] == '-' && s[7] == '-'
  {
    Pad4(d.year) + "-" + Pad2(d.month) + "-" + Pad2(d.day)
  }

  /** Ten characters: four digits, a dash, two digits, a dash, two digits. */
  predicate IsoShaped(s: string) {
    && |s| == 10
    && s[4] == '-' && s[7] == '-'
    && AllDigits(s[..4]) && AllDigits(s[5..7]) && AllDigits(s[8..])
  }

  /** Reads a `YYYY-MM-DD` string; succeeds only on a day that exists, and then
      the string is exactly the spelling of that day. */
  function ParseIso(s: string): (r: Option<Date>)
    ensures r.Some? ==> IsValid(r.value) && ToIso(r.value) == s
  {
    if !IsoShaped(s) then None
    else
      var d := Date(Num4(s[..4]), Num2(s[5..7]), Num2(s[8..]));
      if IsValid(d) then
        Pad2Num2(s[5..7]);
        Pad2Num2(s[8..]);
        Pad4Num4(s[..4]);
        assert s == s[..4] + "-" + s[5..7] + "-" + s[8..];
        Some(d)
      else None
  }

  lemma Num2Pad2(n: int)
    requires 0 <= n < 100
    ensures Num2(Pad2(n)) == n
  {
  }

  lemma Pad2Num2(s: string)
    requires |s| == 2 && AllDigits(s)
    ensures Pad2(Num2(s)) == s
  {
    var a, b := DigitValue(s[0]), DigitValue(s[1]);
    assert (10 * a + b) / 10 == a;
    assert (10 * a + b) % 10 == b;
  }

  lemma Num4Pad4(n: int)
    requires 0 <= n < 10000
    ensures Num4(Pad4(n)) == n
  {
    var s := Pad4(n);
    assert s[..2] == Pad2(n / 100) && s[2..] == Pad2(n % 100);
    Num2Pad2(n / 100);
    Num2Pad2(n % 100);
  }

  lemma Pad4Num4(s: string)
    requires |s| == 4 && AllDigits(s)
    ensures Pad4(Num4(s)) == s
  {
    var hi, lo := Num2(s[..2]), Num2(s[2..]);
    assert (100 * hi + lo) / 100 == hi;
    assert (100 * hi + lo) % 100 == lo;
    Pad2Num2(s[..2]);
    Pad2Num2(s[2..]);
    assert s == s[..2] + s[2..];
  }

  /** Every valid date survives formatting and reading back. */
  lemma ParseIsoOfToIso(d: Date)
    requires IsValid(d)
    ensures ParseIso(ToIso(d)) == Some(d)
  {
    var s := ToIso(d);
    assert s[..4] == Pad4(d.year);
    assert s[5..7] == Pad2(d.month);
    assert s[8..] == Pad2(d.day);
    Num4Pad4(d.year);
    Num2Pad2(d.month);
    Num2Pad2(d.day);
  }
}
