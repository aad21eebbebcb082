/** Proleptic-Gregorian calendar dates as Python's `datetime` sees them: years 1..9999, Monday is
    weekday 0, and the two string forms the backfill uses, `DD-MM-YYYY` (the portal's form) and
    `YYYY-MM-DD` (the command line's form), written by `strftime` and read by `strptime`. */
module Dates {
  import opened Text

  datatype Date = Date(year: int, month: int, day: int)

  /** An inclusive span of days, as the `(start_str, end_str)` pairs of the source. */
  datatype DateRange = DateRange(start: Date, end: Date)

  /** `datetime.MAXYEAR`: stepping past 31-12-9999 raises `OverflowError`. */
  const MaxYear := 9999
  const LastDate := Date(MaxYear, 12, 31)

  predicate IsLeapYear(y: int) {
    y % 4 == 0 && (y % 100 != 0 || y % 400 == 0)
  }

  /** `calendar.monthrange(y, m)[1]`. */
  function DaysInMonth(y: int, m: int): (n: int)
    requires 1 <= m <= 12
    ensures 28 <= n <= 31
  {
    if m == 2 then (if IsLeapYear(y) then 29 else 28)
    else if m == 4 || m == 6 || m == 9 || m == 11 then 30
    else 31
  }

  /** A month and day that exist in the calendar, whatever the year. */
  predicate InCalendar(d: Date) {
    1 <= d.month <= 12 && 1 <= d.day <= DaysInMonth(d.year, d.month)
  }

  /** A date `datetime` can hold. */
  predicate Valid(d: Date) {
    1 <= d.year <= MaxYear && InCalendar(d)
  }

  /** Chronological order, as `datetime` compares. */
  predicate Before(a: Date, b: Date) {
    a.year < b.year || (a.year == b.year && (a.month < b.month || (a.month == b.month && a.day < b.day)))
  }

  predicate NotAfter(a: Date, b: Date) {
    !Before(b, a)
  }

  /** `d + timedelta(days=1)`, before the `MAXYEAR` check. */
  function NextDay(d: Date): (n: Date)
    requires InCalendar(d)
    ensures InCalendar(n) && Before(d, n)
  {
    if d.day < DaysInMonth(d.year, d.month) then Date(d.year, d.month, d.day + 1)
    else if d.month < 12 then Date(d.year, d.month + 1, 1)
    else Date(d.year + 1, 1, 1)
  }

  /** No calendar day lies strictly between a day and the next one, and only the last representable
      day has a successor `datetime` cannot hold. */
  lemma NextDayIsSuccessor(d: Date, x: Date)
    requires InCalendar(d) && InCalendar(x)
    ensures Before(d, x) ==> NotAfter(NextDay(d), x)
    ensures Valid(d) ==> (Valid(NextDay(d)) <==> d != LastDate)
  {
  }

  // ----- Ordinals and weekdays -----

  function DaysBeforeYear(y: int): int
    requires y >= 1
  {
    var p := y - 1;
    p * 365 + p / 4 - p / 100 + p / 400
  }

  /** Days in the months before month `m`, from the cumulative table of a common year plus the leap
      day once February is past, as `datetime` computes it. */
  function DaysBeforeMonth(y: int, m: int): int
    requires 1 <= m <= 13
  {
    [0, 31, 59, 90, 120, 151, 181, 212, 243, 273, 304, 334, 365][m - 1]
    + (if m > 2 && IsLeapYear(y) then 1 else 0)
  }

  /** The table agrees with the month lengths: each month starts where the previous one ends. */
  lemma DaysBeforeNextMonth(y: int, m: int)
    requires 1 <= m <= 12
    ensures DaysBeforeMonth(y, m + 1) == DaysBeforeMonth(y, m) + DaysInMonth(y, m)
  {
  }

  /** `date.toordinal()`: 1 for 0001-01-01. */
  function Ordinal(d: Date): int
    requires d.year >= 1 && InCalendar(d)
  {
    DaysBeforeYear(d.year) + DaysBeforeMonth(d.year, d.month) + d.day
  }

  /** `date.weekday()`: Monday is 0 and Sunday is 6 (0001-01-01 was a Monday). */
  function Weekday(d: Date): (w: int)
    requires d.year >= 1 && InCalendar(d)
    ensures 0 <= w < 7
  {
    (Ordinal(d) + 6) % 7
  }

  lemma DivStep4(p: int)
    requires p >= 0
    ensures (p + 1) / 4 == p / 4 + (if (p + 1) % 4 == 0 then 1 else 0)
  {
  }

  lemma DivStep100(p: int)
    requires p >= 0
    ensures (p + 1) / 100 == p / 100 + (if (p + 1) % 100 == 0 then 1 else 0)
  {
  }

  lemma DivStep400(p: int)
    requires p >= 0
    ensures (p + 1) / 400 == p / 400 + (if (p + 1) % 400 == 0 then 1 else 0)
  {
  }

  lemma Multiple400(y: int)
    requires y % 400 == 0
    ensures y % 100 == 0
  {
    var k := y / 400;
    assert y == 400 * k;
    assert y == 100 * (4 * k) + 0;
  }

  lemma Multiple100(y: int)
    requires y % 100 == 0
    ensures y % 4 == 0
  {
    var k := y / 100;
    assert y == 100 * k;
    assert y == 4 * (25 * k) + 0;
  }

  lemma YearLength(y: int)
    requires y >= 1
    ensures DaysBeforeYear(y + 1) == DaysBeforeYear(y) + (if IsLeapYear(y) then 366 else 365)
  {
    var p := y - 1;
    DivStep4(p);
    DivStep100(p);
    DivStep400(p);
    if y % 400 == 0 {
      Multiple400(y);
    }
    if y % 100 == 0 {
      Multiple100(y);
    }
    var a4, a100, a400 := (if y % 4 == 0 then 1 else 0), (if y % 100 == 0 then 1 else 0), (if y % 400 == 0 then 1 else 0);
    assert DaysBeforeYear(y + 1) == DaysBeforeYear(y) + 365 + a4 - a100 + a400;
  }

  /** Consecutive days have consecutive ordinals, across month and year ends too. */
  lemma OrdinalNext(d: Date)
    requires d.year >= 1 && InCalendar(d)
    ensures Ordinal(NextDay(d)) == Ordinal(d) + 1
  {
    if d.day == DaysInMonth(d.year, d.month) {
      if d.month == 12 {
        YearLength(d.year);
      } else {
        DaysBeforeNextMonth(d.year, d.month);
      }
    }
  }

  /** Within one month the weekday advances by one per day, modulo 7. */
  lemma WeekdayInMonth(y: int, m: int, a: int, b: int)
    requires y >= 1 && 1 <= m <= 12
    requires 1 <= a <= b <= DaysInMonth(y, m)
    ensures Weekday(Date(y, m, b)) == (Weekday(Date(y, m, a)) + (b - a)) % 7
  {
    var k := DaysBeforeYear(y) + DaysBeforeMonth(y, m) + 6;
    assert Ordinal(Date(y, m, b)) + 6 == k + b;
    assert Ordinal(Date(y, m, a)) + 6 == k + a;
    ModShift(k + a, b - a);
  }

  lemma ModShift(x: int, c: int)
    ensures (x % 7 + c) % 7 == (x + c) % 7
  {
  }

  // ----- DD-MM-YYYY and YYYY-MM-DD -----

  /** `d.strftime("%d-%m-%Y")`. */
  function FormatDMY(d: Date): (s: string)
    requires Valid(d)
    ensures |s| == 10 && s[2] == '-' && s[5] == '-'
  {
    Pad2(d.day) + "-" + Pad2(d.month) + "-" + Pad4(d.year)
  }

  /** `s.split(sep)`: the pieces between separators, always at least one. */
  function Split(s: string, sep: char): (parts: seq<string>)
    ensures |parts| >= 1
    decreases |s|
  {
    if s == [] then [[]]
    else
      var rest := Split(s[1..], sep);
      if s[0] == sep then [[]] + rest else [[s[0]] + rest[0]] + rest[1..]
  }

  lemma {:induction false} SplitNone(a: string, sep: char)
    requires sep !in a
    ensures Split(a, sep) == [a]
    decreases |a|
  {
    if a != [] {
      assert a[0] in a;
      SplitNone(a[1..], sep);
      assert [a[0]] + a[1..] == a;
    }
  }

  lemma {:induction false} SplitAppend(a: string, sep: char, b: string)
    requires sep !in a
    ensures Split(a + [sep] + b, sep) == [a] + Split(b, sep)
    decreases |a|
  {
    if a != [] {
      assert a[0] in a;
      assert (a + [sep] + b)[1..] == a[1..] + [sep] + b;
      SplitAppend(a[1..], sep, b);
      assert [a[0]] + a[1..] == a;
    } else {
      assert (a + [sep] + b)[1..] == b;
    }
  }

  /** strptime's `%d`, the regex `3[01]|[12]\d|0[1-9]|[1-9]| [1-9]` matched against a whole field. */
  function DayField(f: string): Option<int> {
    if |f| == 1 && '1' <= f[0] <= '9' then Some(DigitValue(f[0]))
    else if |f| == 2 && f[0] == ' ' && '1' <= f[1] <= '9' then Some(DigitValue(f[1]))
    else if |f| == 2 && AllDigits(f) && 1 <= DigitsValue(f) <= 31 then Some(DigitsValue(f))
    else None
  }

  /** strptime's `%m`, the regex `1[0-2]|0[1-9]|[1-9]`. */
  function MonthField(f: string): Option<int> {
    if |f| == 1 && '1' <= f[0] <= '9' then Some(DigitValue(f[0]))
    else if |f| == 2 && AllDigits(f) && 1 <= DigitsValue(f) <= 12 then Some(DigitsValue(f))
    else None
  }

  /** strptime's `%Y`, the regex `\d\d\d\d`. */
  function YearField(f: string): Option<int> {
    if |f| == 4 && AllDigits(f) then Some(DigitsValue(f)) else None
  }

  /** The `datetime` constructor's range checks on the parsed fields. */
  function CheckedDate(y: Option<int>, m: Option<int>, d: Option<int>): (r: Option<Date>)
    ensures r.Some? ==> Valid(r.value)
    ensures r.Some? <==> y.Some? && m.Some? && d.Some? && Valid(Date(y.value, m.value, d.value))
    ensures r.Some? ==> r.value == Date(y.value, m.value, d.value)
  {
    if y.Some? && m.Some? && d.Some? && Valid(Date(y.value, m.value, d.value))
    then Some(Date(y.value, m.value, d.value))
    else None
  }

  /** `datetime.strptime(s, "%d-%m-%Y")`, `None` where it raises `ValueError`. No field can hold a
      `-`, so the fields are exactly the three pieces between the two dashes. */
  function ParseDMY(s: string): (r: Option<Date>)
    ensures r.Some? ==> Valid(r.value)
  {
    var parts := Split(s, '-');
    if |parts| != 3 then None
    else CheckedDate(YearField(parts[2]), MonthField(parts[1]), DayField(parts[0]))
  }

  /** `datetime.strptime(s, "%Y-%m-%d")`, `None` where it raises `ValueError`. */
  function ParseYMD(s: string): (r: Option<Date>)
    ensures r.Some? ==> Valid(r.value)
  {
    var parts := Split(s, '-');
    if |parts| != 3 then None
    else CheckedDate(YearField(parts[0]), MonthField(parts[1]), DayField(parts[2]))
  }

  lemma DigitsHaveNoDash(s: string)
    requires AllDigits(s)
    ensures '-' !in s
  {
  }

  /** Parsing what `strftime("%d-%m-%Y")` wrote gives the date back, so the source's
      format-then-parse round trips between its helpers lose nothing. */
  lemma ParseFormatDMY(d: Date)
    requires Valid(d)
    ensures ParseDMY(FormatDMY(d)) == Some(d)
  {
    var dd, mm, yy := Pad2(d.day), Pad2(d.month), Pad4(d.year);
    DigitsHaveNoDash(dd);
    DigitsHaveNoDash(mm);
    DigitsHaveNoDash(yy);
    assert FormatDMY(d) == dd + ['-'] + (mm + ['-'] + yy);
    SplitAppend(dd, '-', mm + ['-'] + yy);
    SplitAppend(mm, '-', yy);
    SplitNone(yy, '-');
    assert Split(FormatDMY(d), '-') == [dd, mm, yy];
  }

  /** A date written `YYYY-MM-DD`, the form the backfill's command line takes. */
  function FormatYMD(d: Date): (s: string)
    requires Valid(d)
    ensures |s| == 10 && s[4] == '-' && s[7] == '-'
  {
    Pad4(d.year) + "-" + Pad2(d.month) + "-" + Pad2(d.day)
  }

  /** Every real date written `YYYY-MM-DD` is accepted by `strptime(..., "%Y-%m-%d")` and read as
      itself. */
  lemma ParseFormatYMD(d: Date)
    requires Valid(d)
    ensures ParseYMD(FormatYMD(d)) == Some(d)
  {
    var yy, mm, dd := Pad4(d.year), Pad2(d.month), Pad2(d.day);
    DigitsHaveNoDash(yy);
    DigitsHaveNoDash(mm);
    DigitsHaveNoDash(dd);
    assert FormatYMD(d) == yy + ['-'] + (mm + ['-'] + dd);
    SplitAppend(yy, '-', mm + ['-'] + dd);
    SplitAppend(mm, '-', dd);
    SplitNone(dd, '-');
    assert Split(FormatYMD(d), '-') == [yy, mm, dd];
  }

  lemma FormatDMYInjective(a: Date, b: Date)
    requires Valid(a) && Valid(b) && FormatDMY(a) == FormatDMY(b)
    ensures a == b
  {
    ParseFormatDMY(a);
    ParseFormatDMY(b);
  }
}
