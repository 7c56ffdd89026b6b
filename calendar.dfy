/** The calendar arithmetic behind birthdays: Python's `datetime.date`
    (proleptic Gregorian, years 1 to 9999), its `toordinal` and `replace`,
    and `datetime.strptime` for the one format the address book uses,
    `%d-%m-%Y`. */
module Calendar {
  import opened Base
  import opened Text
  import opened Seqs

  /** A calendar date. Only values satisfying `ValidDate` are dates. */
  datatype Date = Date(year: int, month: int, day: int)

  const MinYear: int := 1
  const MaxYear: int := 9999

  predicate IsLeap(y: int) {
    y % 4 == 0 && (y % 100 != 0 || y % 400 == 0)
  }

  function DaysInYear(y: int): int {
    if IsLeap(y) then 366 else 365
  }

  function DaysInMonth(y: int, m: int): int
    requires 1 <= m <= 12
  {
    if m == 2 then (if IsLeap(y) then 29 else 28)
    else if m == 4 || m == 6 || m == 9 || m == 11 then 30
    else 31
  }

  /** What `datetime.date(year, month, day)` accepts. */
  predicate ValidDate(d: Date) {
    MinYear <= d.year <= MaxYear && 1 <= d.month <= 12 && 1 <= d.day <= DaysInMonth(d.year, d.month)
  }

  /** Days of a non-leap year before the first of each month. */
  const CumulativeDays: seq<int> := [0, 31, 59, 90, 120, 151, 181, 212, 243, 273, 304, 334]

  /** Days of year `y` before the first of month `m`. */
  function DaysBeforeMonth(y: int, m: int): int
    requires 1 <= m <= 12
  {
    CumulativeDays[m - 1] + (if m > 2 && IsLeap(y) then 1 else 0)
  }

  /** Days in the years before year `y`, counted from year 1. */
  function DaysBeforeYear(y: int): int {
    var y1 := y - 1;
    y1 * 365 + y1 / 4 - y1 / 100 + y1 / 400
  }

  /** `date.toordinal()`: 1 January of year 1 is day 1. */
  function Ordinal(d: Date): int
    requires 1 <= d.month <= 12
  {
    DaysBeforeYear(d.year) + DaysBeforeMonth(d.year, d.month) + d.day
  }

  /** Position of a date in its year, 1 for 1 January. */
  function DayOfYear(d: Date): int
    requires 1 <= d.month <= 12
  {
    DaysBeforeMonth(d.year, d.month) + d.day
  }

  /** `a` falls earlier in the year than `b`, comparing month and day only. */
  predicate MonthDayBefore(a: Date, b: Date) {
    a.month < b.month || (a.month == b.month && a.day < b.day)
  }

  /** `d.replace(year=y)`: the same month and day in year `y`, or the
      `ValueError` Python raises when that is no date (29 February of a
      non-leap year, or a year outside 1..9999). */
  function ReplaceYear(d: Date, y: int): (r: Option<Date>)
    ensures r.Some? <==> ValidDate(Date(y, d.month, d.day))
    ensures r.Some? ==> r.value.year == y && r.value.month == d.month && r.value.day == d.day
  {
    var e := Date(y, d.month, d.day);
    if ValidDate(e) then Some(e) else None
  }

  // ---------------------------------------------------------------------
  // Ordinal arithmetic

  /** The month table lists running sums of the month lengths. */
  lemma DaysBeforeMonthStep(y: int, m: int)
    requires 1 <= m < 12
    ensures DaysBeforeMonth(y, m + 1) == DaysBeforeMonth(y, m) + DaysInMonth(y, m)
  {
  }

  lemma DaysBeforeLastMonth(y: int)
    ensures DaysBeforeMonth(y, 12) + DaysInMonth(y, 12) == DaysInYear(y)
  {
  }

  /** Months before `m2` hold at least all days of months up to `m1`. */
  lemma {:induction false} DaysBeforeMonthMonotone(y: int, m1: int, m2: int)
    requires 1 <= m1 < m2 <= 12
    ensures DaysBeforeMonth(y, m1) + DaysInMonth(y, m1) <= DaysBeforeMonth(y, m2)
    decreases m2 - m1
  {
    DaysBeforeMonthStep(y, m1);
    if m1 + 1 < m2 {
      DaysBeforeMonthMonotone(y, m1 + 1, m2);
    }
  }

  lemma DivStep4(y: int)
    requires y >= 1
    ensures y / 4 - (y - 1) / 4 == if y % 4 == 0 then 1 else 0
  {
  }

  lemma DivStep100(y: int)
    requires y >= 1
    ensures y / 100 - (y - 1) / 100 == if y % 100 == 0 then 1 else 0
  {
  }

  lemma DivStep400(y: int)
    requires y >= 1
    ensures y / 400 - (y - 1) / 400 == if y % 400 == 0 then 1 else 0
  {
  }

  /** A multiple of 400 is one of 100, and a multiple of 100 one of 4. */
  lemma LeapDivisors(y: int)
    ensures y % 400 == 0 ==> y % 100 == 0
    ensures y % 100 == 0 ==> y % 4 == 0
  {
    if y % 400 == 0 {
      var t := 4 * (y / 400);
      assert y == 100 * t;
    }
    if y % 100 == 0 {
      var t := 25 * (y / 100);
      assert y == 4 * t;
    }
  }

  /** Consecutive years are `DaysInYear` apart: the closed formula of
      `DaysBeforeYear` follows the Gregorian leap rule. */
  lemma DaysBeforeYearStep(y: int)
    requires y >= 1
    ensures DaysBeforeYear(y + 1) == DaysBeforeYear(y) + DaysInYear(y)
  {
    DivStep4(y);
    DivStep100(y);
    DivStep400(y);
    LeapDivisors(y);
    assert DaysBeforeYear(y + 1) - DaysBeforeYear(y)
        == 365 + (y / 4 - (y - 1) / 4) - (y / 100 - (y - 1) / 100) + (y / 400 - (y - 1) / 400);
  }

  /** A date sits inside its year. */
  lemma DayOfYearBounds(d: Date)
    requires ValidDate(d)
    ensures 1 <= DayOfYear(d) <= DaysInYear(d.year)
  {
    if d.month < 12 {
      DaysBeforeMonthMonotone(d.year, d.month, 12);
    }
    DaysBeforeLastMonth(d.year);
  }

  /** Within one year the ordinal order is the month-then-day order. */
  lemma SameYearOrder(a: Date, b: Date)
    requires ValidDate(a) && ValidDate(b) && a.year == b.year
    ensures Ordinal(a) < Ordinal(b) <==> MonthDayBefore(a, b)
    ensures Ordinal(a) == Ordinal(b) <==> (a.month == b.month && a.day == b.day)
  {
    if a.month < b.month {
      DaysBeforeMonthMonotone(a.year, a.month, b.month);
    } else if b.month < a.month {
      DaysBeforeMonthMonotone(a.year, b.month, a.month);
    }
  }

  /** The same month and day one year apart: the ordinals differ by the
      length of the first year, corrected by one where only one of the two
      years has a 29 February before the date. */
  lemma NextYearOrdinal(a: Date, b: Date)
    requires ValidDate(a) && ValidDate(b) && b.year == a.year + 1
    ensures Ordinal(b) - Ordinal(a) == DaysInYear(a.year) + DayOfYear(b) - DayOfYear(a)
  {
    DaysBeforeYearStep(a.year);
  }

  /** A date's ordinal lies within the span of its year. */
  lemma OrdinalWithinYear(d: Date)
    requires ValidDate(d)
    ensures DaysBeforeYear(d.year) < Ordinal(d) <= DaysBeforeYear(d.year + 1)
  {
    DayOfYearBounds(d);
    DaysBeforeYearStep(d.year);
  }

  lemma {:induction false} DaysBeforeYearMonotone(y1: int, y2: int)
    requires 1 <= y1 <= y2
    ensures DaysBeforeYear(y1) <= DaysBeforeYear(y2)
    decreases y2 - y1
  {
    if y1 < y2 {
      DaysBeforeYearStep(y1);
      DaysBeforeYearMonotone(y1 + 1, y2);
    }
  }

  /** A date of an earlier year comes first. */
  lemma EarlierYear(a: Date, b: Date)
    requires ValidDate(a) && ValidDate(b) && a.year < b.year
    ensures Ordinal(a) < Ordinal(b)
  {
    OrdinalWithinYear(a);
    OrdinalWithinYear(b);
    DaysBeforeYearMonotone(a.year + 1, b.year);
  }

  // ---------------------------------------------------------------------
  // datetime.strptime(s, '%d-%m-%Y')

  function DigitValue(c: char): int
    requires IsAsciiDigit(c)
  {
    c as int - '0' as int
  }

  /** Value of a two-digit field. */
  function TwoDigits(a: char, b: char): int
    requires IsAsciiDigit(a) && IsAsciiDigit(b)
  {
    10 * DigitValue(a) + DigitValue(b)
  }

  /** `%d` matched in full: `3[01]|[12]\d|0[1-9]|[1-9]| [1-9]`, that is one
      non-zero digit, a space and a non-zero digit, or two digits from 01
      to 31. */
  function DayField(t: string): (r: Option<int>)
    ensures r.Some? ==> 1 <= r.value <= 31
  {
    if |t| == 1 && IsAsciiDigit(t[0]) && t[0] != '0' then Some(DigitValue(t[0]))
    else if |t| == 2 && t[0] == ' ' && IsAsciiDigit(t[1]) && t[1] != '0' then Some(DigitValue(t[1]))
    else if |t| == 2 && IsAsciiDigit(t[0]) && IsAsciiDigit(t[1]) && 1 <= TwoDigits(t[0], t[1]) <= 31 then Some(TwoDigits(t[0], t[1]))
    else None
  }

  /** `%m` matched in full: `1[0-2]|0[1-9]|[1-9]`. */
  function MonthField(t: string): (r: Option<int>)
    ensures r.Some? ==> 1 <= r.value <= 12
  {
    if |t| == 1 && IsAsciiDigit(t[0]) && t[0] != '0' then Some(DigitValue(t[0]))
    else if |t| == 2 && IsAsciiDigit(t[0]) && IsAsciiDigit(t[1]) && 1 <= TwoDigits(t[0], t[1]) <= 12 then Some(TwoDigits(t[0], t[1]))
    else None
  }

  /** `%Y` matched in full: exactly four digits. */
  function YearField(t: string): (r: Option<int>)
    ensures r.Some? ==> 0 <= r.value <= 9999
  {
    if |t| == 4 && IsAsciiDigit(t[0]) && IsAsciiDigit(t[1]) && IsAsciiDigit(t[2]) && IsAsciiDigit(t[3])
    then Some(100 * TwoDigits(t[0], t[1]) + TwoDigits(t[2], t[3]))
    else None
  }

  /** `datetime.strptime(s, '%d-%m-%Y').date()`, or `None` where it raises
      `ValueError`. None of the three fields can hold a '-', so the two
      separators are the first two '-' of `s`; the whole string must be
      consumed, and the fields must name a real date. */
  function ParseDate(s: string): (r: Option<Date>)
    ensures r.Some? ==> ValidDate(r.value)
  {
    var i := IndexOf(s, '-');
    if i < 0 then None
    else
      var rest := s[i + 1..];
      var j := IndexOf(rest, '-');
      if j < 0 then None
      else
        match (DayField(s[..i]), MonthField(rest[..j]), YearField(rest[j + 1..]))
        case (Some(d), Some(m), Some(y)) =>
          if ValidDate(Date(y, m, d)) then Some(Date(y, m, d)) else None
        case _ => None
  }

  function DigitChar(n: int): (c: char)
    requires 0 <= n <= 9
    ensures IsAsciiDigit(c) && DigitValue(c) == n
  {
    ('0' as int + n) as char
  }

  function Pad2(n: int): string
    requires 0 <= n <= 99
  {
    [DigitChar(n / 10), DigitChar(n % 10)]
  }

  function Pad4(n: int): string
    requires 0 <= n <= 9999
  {
    Pad2(n / 100) + Pad2(n % 100)
  }

  /** A date written in the `%d-%m-%Y` format, zero-padded. */
  function FormatDate(d: Date): string
    requires ValidDate(d)
  {
    Pad2(d.day) + "-" + Pad2(d.month) + "-" + Pad4(d.year)
  }

  lemma IndexOfAfterTwoDigits(a: string, b: string)
    requires |a| == 2 && IsAsciiDigit(a[0]) && IsAsciiDigit(a[1])
    ensures IndexOf(a + "-" + b, '-') == 2
  {
    var s := a + "-" + b;
    assert s[0] == a[0] && s[1] == a[1] && s[2] == '-';
    assert s[1..][1..] == s[2..];
  }

  /** Each zero-padded field reads back as its value. */
  lemma DayFieldPad(n: int)
    requires 1 <= n <= 31
    ensures DayField(Pad2(n)) == Some(n)
  {
  }

  lemma MonthFieldPad(n: int)
    requires 1 <= n <= 12
    ensures MonthField(Pad2(n)) == Some(n)
  {
  }

  lemma TwoDigitsPad(n: int)
    requires 0 <= n <= 99
    ensures TwoDigits(Pad2(n)[0], Pad2(n)[1]) == n
  {
  }

  lemma YearFieldPad(n: int)
    requires 0 <= n <= 9999
    ensures YearField(Pad4(n)) == Some(n)
  {
    var t := Pad4(n);
    TwoDigitsPad(n / 100);
    TwoDigitsPad(n % 100);
    assert t[0] == Pad2(n / 100)[0] && t[1] == Pad2(n / 100)[1];
    assert t[2] == Pad2(n % 100)[0] && t[3] == Pad2(n % 100)[1];
  }

  /** Writing a date in the format and parsing it back gives the date. */
  lemma ParseFormatRoundTrip(d: Date)
    requires ValidDate(d)
    ensures ParseDate(FormatDate(d)) == Some(d)
  {
    var s := FormatDate(d);
    var dd, mm, yy := Pad2(d.day), Pad2(d.month), Pad4(d.year);
    assert s == dd + "-" + (mm + "-" + yy);
    IndexOfAfterTwoDigits(dd, mm + "-" + yy);
    var rest := s[3..];
    assert rest == mm + "-" + yy;
    IndexOfAfterTwoDigits(mm, yy);
    assert s[..2] == dd;
    assert rest[..2] == mm;
    assert rest[3..] == yy;
    DayFieldPad(d.day);
    MonthFieldPad(d.month);
    YearFieldPad(d.year);
  }
}
