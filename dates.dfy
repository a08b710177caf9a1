/** Calendar dates as the service uses them: the `date_start` of a version,
    the injected "today", and the `date` query parameter of the refbook
    listing, which is read with Django's `parse_date`. */
module Dates {

  datatype Date = Date(year: int, month: int, day: int)

  /** `a` is on or before `b`: dates compare by year, then month, then day. */
  predicate OnOrBefore(a: Date, b: Date) {
    a.year < b.year || (a.year == b.year && (a.month < b.month || (a.month == b.month && a.day <= b.day)))
  }

  /** `a` is strictly before `b`. */
  predicate Before(a: Date, b: Date) {
    OnOrBefore(a, b) && a != b
  }

  predicate IsLeapYear(y: int) {
    y % 4 == 0 && (y % 100 != 0 || y % 400 == 0)
  }

  function DaysInMonth(y: int, m: int): (n: int)
    requires 1 <= m <= 12
    ensures 28 <= n <= 31
    ensures m == 2 ==> (n == 29 <==> IsLeapYear(y))
  {
    if m == 2 then (if IsLeapYear(y) then 29 else 28)
    else if m == 4 || m == 6 || m == 9 || m == 11 then 30
    else 31
  }

  /** A date Python's `datetime.date` accepts: years 1 to 9999, a real month,
      and a day that month has. */
  predicate IsCalendarDate(d: Date) {
    && 1 <= d.year <= 9999
    && 1 <= d.month <= 12
    && 1 <= d.day <= DaysInMonth(d.year, d.month)
  }

  predicate IsDigit(c: char) {
    '0' <= c <= '9'
  }

  predicate AllDigits(s: string) {
    forall i | 0 <= i < |s| :: IsDigit(s[i])
  }

  function DigitValue(c: char): (n: nat)
    requires IsDigit(c)
    ensures n < 10
  {
    c as int - '0' as int
  }

  /** The decimal number a run of digits denotes. */
  function Number(s: string): (n: nat)
    requires AllDigits(s)
  {
    if s == [] then 0 else Number(s[..|s| - 1]) * 10 + DigitValue(s[|s| - 1])
  }

  /** What `parse_date` does with a string: it returns nothing for text of the
      wrong shape, raises for text of the right shape that names no calendar
      day, and otherwise returns the date. */
  datatype DateParse = Malformed | OutOfRange | Parsed(date: Date)

  /** `s` is four digits, a dash, `m` digits, a dash and `d` digits. */
  predicate ShapedAs(s: string, m: nat, d: nat) {
    && |s| == 6 + m + d
    && AllDigits(s[..4])
    && s[4] == '-'
    && AllDigits(s[5..5 + m])
    && s[5 + m] == '-'
    && AllDigits(s[6 + m..])
  }

  /** The shape `parse_date` recognises: `YYYY-M-D` with one- or two-digit
      month and day. */
  predicate DateShaped(s: string) {
    ShapedAs(s, 1, 1) || ShapedAs(s, 1, 2) || ShapedAs(s, 2, 1) || ShapedAs(s, 2, 2)
  }

  /** How many digits the month takes: 1 or 2 when a dash follows them, else 0. */
  function MonthWidth(s: string): (w: nat)
    requires |s| >= 8
    ensures w <= 2
  {
    if IsDigit(s[5]) && s[6] == '-' then 1
    else if IsDigit(s[5]) && IsDigit(s[6]) && s[7] == '-' then 2
    else 0
  }

  function ParseDate(s: string): (r: DateParse)
    ensures r.Parsed? ==> IsCalendarDate(r.date)
  {
    if |s| < 8 || !AllDigits(s[..4]) || s[4] != '-' then Malformed
    else
      var m := MonthWidth(s);
      if m == 0 || |s| < 6 + m + 1 || 6 + m + 2 < |s| || !AllDigits(s[6 + m..]) then Malformed
      else
        var date := Date(Number(s[..4]), Number(s[5..5 + m]), Number(s[6 + m..]));
        if IsCalendarDate(date) then Parsed(date) else OutOfRange
  }

  /** The parser rejects as malformed exactly the strings that do not have the
      `YYYY-M-D` shape; every string of that shape is either a date or out of range. */
  lemma ParseDateRecognisesShape(s: string)
    ensures ParseDate(s).Malformed? <==> !DateShaped(s)
  {
    if DateShaped(s) {
      var m := if ShapedAs(s, 1, 1) || ShapedAs(s, 1, 2) then 1 else 2;
      var d := if ShapedAs(s, m, 1) then 1 else 2;
      assert ShapedAs(s, m, d);
      var month := s[5..5 + m];
      assert month[0] == s[5] && IsDigit(month[0]);
      if m == 2 {
        assert month[1] == s[6] && IsDigit(month[1]);
      }
      assert MonthWidth(s) == m;
    }
  }

  /** The date a text of shape `ShapedAs(s, m, d)` writes: its three digit
      groups read as year, month and day. */
  function WrittenDate(s: string, m: nat, d: nat): Date
    requires ShapedAs(s, m, d)
  {
    Date(Number(s[..4]), Number(s[5..5 + m]), Number(s[6 + m..]))
  }

  /** A text of the `YYYY-M-D` shape parses to the date it writes when that
      is a calendar date, and raises (out of range) otherwise. */
  lemma ParseDateOfShape(s: string, m: nat, d: nat)
    requires 1 <= m <= 2 && 1 <= d <= 2 && ShapedAs(s, m, d)
    ensures ParseDate(s) == (if IsCalendarDate(WrittenDate(s, m, d)) then Parsed(WrittenDate(s, m, d)) else OutOfRange)
  {
    var month := s[5..5 + m];
    assert month[0] == s[5] && IsDigit(month[0]);
    if m == 2 {
      assert month[1] == s[6] && IsDigit(month[1]);
    }
    assert MonthWidth(s) == m;
  }

  /** The character of a single decimal digit. */
  function DigitChar(n: nat): (c: char)
    requires n < 10
    ensures IsDigit(c) && DigitValue(c) == n
  {
    ('0' as int + n) as char
  }

  function TwoDigits(n: nat): (s: string)
    requires n < 100
  {
    [DigitChar(n / 10), DigitChar(n % 10)]
  }

  function FourDigits(n: nat): (s: string)
    requires n < 10000
  {
    TwoDigits(n / 100) + TwoDigits(n % 100)
  }

  /** The canonical `YYYY-MM-DD` text of a calendar date. */
  function FormatDate(d: Date): (s: string)
    requires IsCalendarDate(d)
  {
    FourDigits(d.year) + "-" + TwoDigits(d.month) + "-" + TwoDigits(d.day)
  }

  lemma TwoDigitsNumber(n: nat)
    requires n < 100
    ensures AllDigits(TwoDigits(n)) && Number(TwoDigits(n)) == n
  {
    var s := TwoDigits(n);
    assert s[..1] == [s[0]] && s[..1][..0] == [];
    assert Number(s[..1]) == n / 10;
    assert Number(s) == (n / 10) * 10 + n % 10;
  }

  lemma FourDigitsNumber(n: nat)
    requires n < 10000
    ensures AllDigits(FourDigits(n)) && Number(FourDigits(n)) == n
  {
    var s := FourDigits(n);
    var hi, lo := n / 100, n % 100;
    TwoDigitsNumber(hi);
    TwoDigitsNumber(lo);
    assert s[..3] == TwoDigits(hi) + [s[2]];
    assert s[..3][..2] == TwoDigits(hi);
    assert Number(s[..3]) == hi * 10 + DigitValue(s[2]);
    assert Number(s) == (hi * 10 + lo / 10) * 10 + lo % 10;
  }

  /** Every calendar date written as `YYYY-MM-DD`, the format the listing's
      error message asks for, parses back to that date. */
  lemma {:induction false} ParseFormatRoundTrip(d: Date)
    requires IsCalendarDate(d)
    ensures ParseDate(FormatDate(d)) == Parsed(d)
  {
    var s := FormatDate(d);
    FourDigitsNumber(d.year);
    TwoDigitsNumber(d.month);
    TwoDigitsNumber(d.day);
    assert s[..4] == FourDigits(d.year);
    assert s[5..7] == TwoDigits(d.month);
    assert s[8..] == TwoDigits(d.day);
    assert MonthWidth(s) == 2;
  }
}
