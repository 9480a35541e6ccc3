/**
 * Calendar months. The report keys every record by the first day of its month
 * (`month_date`, parsed from the `YYYY-MM` text of the `month` column); the
 * generator writes that text with `strftime("%Y-%m")`.
 */
module Calendar {
  import opened Wrappers

  /** The first day of a calendar month; `month` counts from 1 (January). */
  datatype YearMonth = YearMonth(year: int, month: int)

  /** Chronological order of months. */
  predicate Before(a: YearMonth, b: YearMonth) {
    a.year < b.year || (a.year == b.year && a.month < b.month)
  }

  /**
   * A month whose first day is a pandas timestamp: timestamps run from
   * 1677-09-21 to 2262-04-11, so the first representable first-of-month is
   * 1677-10-01 and the last is 2262-04-01.
   */
  predicate Representable(ym: YearMonth) {
    && 1 <= ym.month <= 12
    && !Before(ym, YearMonth(1677, 10))
    && !Before(YearMonth(2262, 4), ym)
  }

  predicate IsDigit(c: char) {
    '0' <= c <= '9'
  }

  function DigitValue(c: char): int
    requires IsDigit(c)
  {
    c as int - '0' as int
  }

  function DigitChar(d: int): char
    requires 0 <= d <= 9
  {
    ('0' as int + d) as char
  }

  /** `strftime("%Y-%m")`: four-digit year, a dash, two-digit month. */
  function Format(ym: YearMonth): (s: string)
    requires Representable(ym)
    ensures |s| == 7 && s[4] == '-'
  {
    var y, m := ym.year, ym.month;
    [DigitChar(y / 1000), DigitChar(y / 100 % 10), DigitChar(y / 10 % 10), DigitChar(y % 10),
     '-', DigitChar(m / 10), DigitChar(m % 10)]
  }

  /**
   * `pd.to_datetime(s + "-01")` for the `YYYY-MM` form: `None` when the text
   * is not four digits, a dash and two digits, when the month is not 01..12,
   * or when the date lies outside the timestamp range.
   */
  function Parse(s: string): (r: Option<YearMonth>)
    ensures r.Some? ==> Representable(r.value)
  {
    if && |s| == 7 && IsDigit(s[0]) && IsDigit(s[1]) && IsDigit(s[2]) && IsDigit(s[3])
       && s[4] == '-' && IsDigit(s[5]) && IsDigit(s[6])
    then
      var ym := YearMonth(
        1000 * DigitValue(s[0]) + 100 * DigitValue(s[1]) + 10 * DigitValue(s[2]) + DigitValue(s[3]),
        10 * DigitValue(s[5]) + DigitValue(s[6]));
      if Representable(ym) then Some(ym) else None
    else
      None
  }

  lemma DigitRoundTrip(d: int)
    requires 0 <= d <= 9
    ensures IsDigit(DigitChar(d)) && DigitValue(DigitChar(d)) == d
  {
  }

  lemma FromFourDigits(a: int, b: int, c: int, d: int)
    requires 0 <= a <= 9 && 0 <= b <= 9 && 0 <= c <= 9 && 0 <= d <= 9
    ensures var y := 1000 * a + 100 * b + 10 * c + d;
      y / 1000 == a && y / 100 % 10 == b && y / 10 % 10 == c && y % 10 == d
  {
    var y := 1000 * a + 100 * b + 10 * c + d;
    assert y == 1000 * a + (100 * b + 10 * c + d);
    assert y == 100 * (10 * a + b) + (10 * c + d);
    assert y / 100 == 10 * a + b;
    assert y == 10 * (100 * a + 10 * b + c) + d;
    assert y / 10 == 100 * a + 10 * b + c;
  }

  lemma FourDigits(y: int)
    requires 0 <= y < 10000
    ensures 1000 * (y / 1000) + 100 * (y / 100 % 10) + 10 * (y / 10 % 10) + y % 10 == y
    ensures 0 <= y / 1000 <= 9
  {
    var a, r := y / 1000, y % 1000;
    var b, r2 := r / 100, r % 100;
    var c, d := r2 / 10, r2 % 10;
    assert y == 1000 * a + 100 * b + 10 * c + d;
    FromFourDigits(a, b, c, d);
  }

  /** Reading back what was written gives the same month. */
  lemma ParseFormat(ym: YearMonth)
    requires Representable(ym)
    ensures Parse(Format(ym)) == Some(ym)
  {
    var y, m := ym.year, ym.month;
    FourDigits(y);
    DigitRoundTrip(y / 1000);
    DigitRoundTrip(y / 100 % 10);
    DigitRoundTrip(y / 10 % 10);
    DigitRoundTrip(y % 10);
    DigitRoundTrip(m / 10);
    DigitRoundTrip(m % 10);
  }

  /** Every text that parses is exactly the rendering of the month it denotes. */
  lemma FormatParse(s: string)
    requires Parse(s).Some?
    ensures Format(Parse(s).value) == s
  {
    var ym := Parse(s).value;
    var a, b, c, d := DigitValue(s[0]), DigitValue(s[1]), DigitValue(s[2]), DigitValue(s[3]);
    var e, f := DigitValue(s[5]), DigitValue(s[6]);
    FromFourDigits(a, b, c, d);
    FromFourDigits(0, 0, e, f);
    var t := Format(ym);
    assert t[0] == s[0] && t[1] == s[1] && t[2] == s[2] && t[3] == s[3];
    assert t[5] == s[5] && t[6] == s[6];
  }

  /** Distinct months have distinct renderings. */
  lemma FormatInjective(a: YearMonth, b: YearMonth)
    requires Representable(a) && Representable(b) && a != b
    ensures Format(a) != Format(b)
  {
    ParseFormat(a);
    ParseFormat(b);
  }
}
