/** The calendar range arithmetic of the backfill (`get_first_and_last_day_of_month`,
    `get_weekly_ranges_for_month`, `get_daily_ranges_for_period`): a month's bounds, its
    Monday-to-Sunday spans clipped to the month, and the one-day ranges of a period. */
module Ranges {
  import opened Text
  import opened Dates

  /** What a range helper produces: its list, or the `OverflowError` Python raises when the loop
      steps past 31-12-9999. */
  datatype Listing = Listed(ranges: seq<DateRange>) | Overflowed

  predicate ValidMonth(y: int, m: int) {
    1 <= y <= MaxYear && 1 <= m <= 12
  }

  predicate InMonth(y: int, m: int, d: Date)
    requires 1 <= m <= 12
  {
    d.year == y && d.month == m && 1 <= d.day <= DaysInMonth(y, m)
  }

  // ----- Month bounds -----

  /** `get_first_and_last_day_of_month`: the month's first and last day as `DD-MM-YYYY`. The
      last day is the one whose successor lies in another month. */
  function FirstAndLastDayOfMonth(y: int, m: int): (string, string)
    requires ValidMonth(y, m)
  {
    (FormatDMY(Date(y, m, 1)), FormatDMY(Date(y, m, DaysInMonth(y, m))))
  }

  /** The two strings read back as the month's first day and as the day of the month whose
      successor lies in another month. */
  lemma MonthBounds(y: int, m: int)
    requires ValidMonth(y, m)
    ensures ParseDMY(FirstAndLastDayOfMonth(y, m).0) == Some(Date(y, m, 1))
    ensures ParseDMY(FirstAndLastDayOfMonth(y, m).1).Some?
    ensures var e := ParseDMY(FirstAndLastDayOfMonth(y, m).1).value;
      e.year == y && e.month == m && NextDay(e).month != m
  {
    ParseFormatDMY(Date(y, m, 1));
    ParseFormatDMY(Date(y, m, DaysInMonth(y, m)));
  }

  /** The month lengths behind the bounds: 31, 30 or 28 days, and 29 in a leap-year February. */
  lemma MonthLengths(y: int, m: int)
    requires ValidMonth(y, m)
    ensures m == 2 ==> (DaysInMonth(y, m) == 29 <==> IsLeapYear(y))
    ensures m == 2 && !IsLeapYear(y) ==> DaysInMonth(y, m) == 28
    ensures m != 2 ==> (DaysInMonth(y, m) == 30 <==> (m == 4 || m == 6 || m == 9 || m == 11))
    ensures m != 2 && m != 4 && m != 6 && m != 9 && m != 11 ==> DaysInMonth(y, m) == 31
  {
  }

  // ----- Weekly spans -----
  //
  // The weekly functions take a month as its first day's weekday `w1` and its length `last`; the
  // calendar enters only through `FirstWeekday` and `DaysInMonth` in `WeekSpans`.

  /** The weekday (Monday 0, Sunday 6) of day `k` of a month whose first day has weekday `w1`. */
  function DayOfWeek(w1: int, k: int): (w: int)
    ensures 0 <= w < 7
  {
    (w1 + (k - 1)) % 7
  }

  function FirstWeekday(y: int, m: int): int
    requires ValidMonth(y, m)
  {
    Weekday(Date(y, m, 1))
  }

  /** Counting on from the first of the month gives `date.weekday()` for every day of the month. */
  lemma DayOfWeekIsWeekday(y: int, m: int, k: int)
    requires ValidMonth(y, m) && 1 <= k <= DaysInMonth(y, m)
    ensures DayOfWeek(FirstWeekday(y, m), k) == Weekday(Date(y, m, k))
  {
    WeekdayInMonth(y, m, 1, k);
  }

  lemma DayOfWeekStep(w1: int, a: int, b: int)
    ensures DayOfWeek(w1, b) == (DayOfWeek(w1, a) + (b - a)) % 7
  {
    ModShift(w1 + (a - 1), b - a);
  }

  /** The last day of the span that starts on day `d`: the next Sunday, clipped to the month end. */
  function WeekEnd(w1: int, last: int, d: int): int {
    var sunday := d + (6 - DayOfWeek(w1, d));
    if sunday > last then last else sunday
  }

  function WeeksFrom(y: int, m: int, w1: int, last: int, d: int): seq<DateRange>
    requires 1 <= d
    decreases last + 1 - d
  {
    if d > last then []
    else
      var e := WeekEnd(w1, last, d);
      [DateRange(Date(y, m, d), Date(y, m, e))] + WeeksFrom(y, m, w1, last, e + 1)
  }

  /** The weekly spans of a month, as `get_weekly_ranges_for_month` lists them. */
  function WeekSpans(y: int, m: int): seq<DateRange>
    requires ValidMonth(y, m)
  {
    WeeksFrom(y, m, FirstWeekday(y, m), DaysInMonth(y, m), 1)
  }

  /** Span `r` lies within days `1..last` of month `m` of year `y`. */
  predicate SpanIn(y: int, m: int, last: int, r: DateRange) {
    && r.start.year == y && r.start.month == m && r.end.year == y && r.end.month == m
    && 1 <= r.start.day <= r.end.day <= last
  }

  /** The spans of days `d..last` of a month, cut after every Sunday: they start on day `d`, end on
      the last day, follow each other without gap or overlap, each ends on a Sunday or the last day,
      and none has a Sunday before its own last day. */
  predicate PartitionFrom(y: int, m: int, w1: int, last: int, d: int, ws: seq<DateRange>) {
    && |ws| >= 1
    && ws[0].start.day == d
    && ws[|ws| - 1].end.day == last
    && (forall i :: 0 <= i < |ws| ==> SpanIn(y, m, last, ws[i]))
    && (forall i :: 0 <= i < |ws| ==> DayOfWeek(w1, ws[i].end.day) == 6 || ws[i].end.day == last)
    && (forall i, k :: 0 <= i < |ws| && ws[i].start.day <= k < ws[i].end.day ==> DayOfWeek(w1, k) != 6)
    && (forall i :: 0 < i < |ws| ==> ws[i].start.day == ws[i - 1].end.day + 1)
  }

  /** A partition of the whole month into Monday-to-Sunday weeks clipped at its edges. */
  predicate IsWeekPartition(y: int, m: int, ws: seq<DateRange>)
    requires ValidMonth(y, m)
  {
    PartitionFrom(y, m, FirstWeekday(y, m), DaysInMonth(y, m), 1, ws)
  }

  /** Day `k` of the month lies in one of the spans. */
  predicate Covers(ws: seq<DateRange>, k: int) {
    exists i :: 0 <= i < |ws| && ws[i].start.day <= k <= ws[i].end.day
  }

  /** Day `k` of the month is the last day of one of the spans. */
  predicate EndsSpan(ws: seq<DateRange>, k: int) {
    exists i :: 0 <= i < |ws| && ws[i].end.day == k
  }

  lemma WeekEndFacts(w1: int, last: int, d: int)
    requires 1 <= d <= last
    ensures d <= WeekEnd(w1, last, d) <= last
    ensures DayOfWeek(w1, WeekEnd(w1, last, d)) == 6 || WeekEnd(w1, last, d) == last
    ensures forall k :: d <= k < WeekEnd(w1, last, d) ==> DayOfWeek(w1, k) != 6
  {
    var e := WeekEnd(w1, last, d);
    if e == d + (6 - DayOfWeek(w1, d)) {
      DayOfWeekStep(w1, d, e);
    }
    forall k | d <= k < e
      ensures DayOfWeek(w1, k) != 6
    {
      DayOfWeekStep(w1, d, k);
    }
  }

  /** Putting one more span before a partition of the following days gives a partition. */
  lemma PartitionCons(y: int, m: int, w1: int, last: int, first: DateRange, rest: seq<DateRange>)
    requires SpanIn(y, m, last, first)
    requires DayOfWeek(w1, first.end.day) == 6 || first.end.day == last
    requires forall k :: first.start.day <= k < first.end.day ==> DayOfWeek(w1, k) != 6
    requires PartitionFrom(y, m, w1, last, first.end.day + 1, rest)
    ensures PartitionFrom(y, m, w1, last, first.start.day, [first] + rest)
  {
    var ws := [first] + rest;
    forall i | 0 < i < |ws|
      ensures ws[i] == rest[i - 1]
    {
    }
  }

  lemma PartitionSingle(y: int, m: int, w1: int, last: int, only: DateRange)
    requires SpanIn(y, m, last, only) && only.end.day == last
    requires forall k :: only.start.day <= k < only.end.day ==> DayOfWeek(w1, k) != 6
    ensures PartitionFrom(y, m, w1, last, only.start.day, [only])
  {
  }

  /** `WeeksFrom` from a day of the month: the span up to the next Sunday or month end, then the rest. */
  lemma WeeksFromUnfold(y: int, m: int, w1: int, last: int, d: int)
    requires 1 <= d <= last
    ensures WeeksFrom(y, m, w1, last, d)
      == [DateRange(Date(y, m, d), Date(y, m, WeekEnd(w1, last, d)))] + WeeksFrom(y, m, w1, last, WeekEnd(w1, last, d) + 1)
  {
  }

  lemma WeeksFromStep(y: int, m: int, w1: int, last: int, d: int)
    requires 1 <= d <= last && WeekEnd(w1, last, d) < last
    requires PartitionFrom(y, m, w1, last, WeekEnd(w1, last, d) + 1, WeeksFrom(y, m, w1, last, WeekEnd(w1, last, d) + 1))
    ensures PartitionFrom(y, m, w1, last, d, WeeksFrom(y, m, w1, last, d))
  {
    var e := WeekEnd(w1, last, d);
    WeekEndFacts(w1, last, d);
    WeeksFromUnfold(y, m, w1, last, d);
    PartitionCons(y, m, w1, last, DateRange(Date(y, m, d), Date(y, m, e)), WeeksFrom(y, m, w1, last, e + 1));
  }

  lemma WeeksFromLast(y: int, m: int, w1: int, last: int, d: int)
    requires 1 <= d <= last && WeekEnd(w1, last, d) == last
    ensures PartitionFrom(y, m, w1, last, d, WeeksFrom(y, m, w1, last, d))
  {
    WeekEndFacts(w1, last, d);
    WeeksFromUnfold(y, m, w1, last, d);
    var only := DateRange(Date(y, m, d), Date(y, m, last));
    assert WeeksFrom(y, m, w1, last, last + 1) == [];
    assert WeeksFrom(y, m, w1, last, d) == [only];
    PartitionSingle(y, m, w1, last, only);
  }

  lemma {:induction false} WeeksFromIsPartition(y: int, m: int, w1: int, last: int, d: int)
    requires 1 <= d <= last
    ensures PartitionFrom(y, m, w1, last, d, WeeksFrom(y, m, w1, last, d))
    decreases last + 1 - d
  {
    WeekEndFacts(w1, last, d);
    if WeekEnd(w1, last, d) < last {
      WeeksFromIsPartition(y, m, w1, last, WeekEnd(w1, last, d) + 1);
      WeeksFromStep(y, m, w1, last, d);
    } else {
      WeeksFromLast(y, m, w1, last, d);
    }
  }

  /** The spans `get_weekly_ranges_for_month` lists partition the month into Monday-to-Sunday
      weeks clipped to its first and last day. */
  lemma WeekSpansIsPartition(y: int, m: int)
    requires ValidMonth(y, m)
    ensures IsWeekPartition(y, m, WeekSpans(y, m))
  {
    WeeksFromIsPartition(y, m, FirstWeekday(y, m), DaysInMonth(y, m), 1);
  }

  lemma {:induction false} PartitionFromUnique(y: int, m: int, w1: int, last: int, d: int, ws: seq<DateRange>)
    requires 1 <= d <= last
    requires PartitionFrom(y, m, w1, last, d, ws)
    ensures ws == WeeksFrom(y, m, w1, last, d)
    decreases |ws|
  {
    var e := WeekEnd(w1, last, d);
    WeekEndFacts(w1, last, d);
    var first := DateRange(Date(y, m, d), Date(y, m, e));
    assert ws[0] == first;
    assert WeeksFrom(y, m, w1, last, d) == [first] + WeeksFrom(y, m, w1, last, e + 1);
    if |ws| == 1 {
      assert WeeksFrom(y, m, w1, last, e + 1) == [];
    } else {
      var rest := ws[1..];
      assert PartitionFrom(y, m, w1, last, e + 1, rest) by {
        assert forall i :: 0 <= i < |rest| ==> rest[i] == ws[i + 1];
      }
      PartitionFromUnique(y, m, w1, last, e + 1, rest);
      assert ws == [first] + rest;
    }
  }

  /** The weekly partition of a month is unique: any list of spans with the partition's properties
      is exactly what `get_weekly_ranges_for_month` returns. */
  lemma WeekPartitionUnique(y: int, m: int, ws: seq<DateRange>)
    requires ValidMonth(y, m)
    requires IsWeekPartition(y, m, ws)
    ensures ws == WeekSpans(y, m)
  {
    PartitionFromUnique(y, m, FirstWeekday(y, m), DaysInMonth(y, m), 1, ws);
  }

  lemma {:induction false} PartitionCovers(y: int, m: int, w1: int, last: int, ws: seq<DateRange>, j: int, k: int)
    requires PartitionFrom(y, m, w1, last, 1, ws)
    requires 0 <= j < |ws| && 1 <= k <= ws[j].end.day
    ensures exists i :: 0 <= i <= j && ws[i].start.day <= k <= ws[i].end.day
    decreases j
  {
    if k < ws[j].start.day {
      PartitionCovers(y, m, w1, last, ws, j - 1, k);
      var i :| 0 <= i <= j - 1 && ws[i].start.day <= k <= ws[i].end.day;
    }
  }

  lemma {:induction false} PartitionOrdered(y: int, m: int, w1: int, last: int, ws: seq<DateRange>, i: int, j: int)
    requires PartitionFrom(y, m, w1, last, 1, ws)
    requires 0 <= i < j < |ws|
    ensures ws[i].end.day < ws[j].start.day
    decreases j - i
  {
    if i + 1 < j {
      PartitionOrdered(y, m, w1, last, ws, i, j - 1);
    }
  }

  /** Every weekly span ends on a Sunday or on the month's last day. */
  lemma WeekPartitionEnds(y: int, m: int, ws: seq<DateRange>)
    requires ValidMonth(y, m) && IsWeekPartition(y, m, ws)
    ensures forall i :: 0 <= i < |ws| ==> Weekday(ws[i].end) == 6 || ws[i].end.day == DaysInMonth(y, m)
  {
    forall i | 0 <= i < |ws|
      ensures Weekday(ws[i].end) == 6 || ws[i].end.day == DaysInMonth(y, m)
    {
      assert ws[i].end == Date(y, m, ws[i].end.day);
      DayOfWeekIsWeekday(y, m, ws[i].end.day);
    }
  }

  /** Every weekly span after the first starts on a Monday. */
  lemma WeekPartitionMondays(y: int, m: int, ws: seq<DateRange>)
    requires ValidMonth(y, m) && IsWeekPartition(y, m, ws)
    ensures forall i :: 0 < i < |ws| ==> Weekday(ws[i].start) == 0
  {
    forall i | 0 < i < |ws|
      ensures Weekday(ws[i].start) == 0
    {
      var p := ws[i - 1].end.day;
      assert ws[i].start == Date(y, m, p + 1);
      DayOfWeekStep(FirstWeekday(y, m), p, p + 1);
      DayOfWeekIsWeekday(y, m, p + 1);
    }
  }

  /** No weekly span is longer than seven days. */
  lemma WeekPartitionLengths(y: int, m: int, ws: seq<DateRange>)
    requires ValidMonth(y, m) && IsWeekPartition(y, m, ws)
    ensures forall i :: 0 <= i < |ws| ==> ws[i].end.day - ws[i].start.day <= 6
  {
    var w1 := FirstWeekday(y, m);
    forall i | 0 <= i < |ws|
      ensures ws[i].end.day - ws[i].start.day <= 6
    {
      var s := ws[i].start.day;
      DayOfWeekStep(w1, s, s + (6 - DayOfWeek(w1, s)));
    }
  }

  /** The weekly partition covers the month in order: the spans are chronological without overlap,
      every day of the month lies in one of them, and every Sunday of the month closes one. */
  lemma WeekPartitionCoverage(y: int, m: int, ws: seq<DateRange>)
    requires ValidMonth(y, m) && IsWeekPartition(y, m, ws)
    ensures forall i, j :: 0 <= i < j < |ws| ==> ws[i].end.day < ws[j].start.day
    ensures forall k :: 1 <= k <= DaysInMonth(y, m) ==> Covers(ws, k)
    ensures forall k :: 1 <= k <= DaysInMonth(y, m) && Weekday(Date(y, m, k)) == 6 ==> EndsSpan(ws, k)
  {
    var w1, last := FirstWeekday(y, m), DaysInMonth(y, m);
    forall i, j | 0 <= i < j < |ws|
      ensures ws[i].end.day < ws[j].start.day
    {
      PartitionOrdered(y, m, w1, last, ws, i, j);
    }
    forall k | 1 <= k <= last
      ensures Covers(ws, k)
    {
      PartitionCovers(y, m, w1, last, ws, |ws| - 1, k);
    }
    forall k | 1 <= k <= last && Weekday(Date(y, m, k)) == 6
      ensures EndsSpan(ws, k)
    {
      PartitionCovers(y, m, w1, last, ws, |ws| - 1, k);
      var i :| 0 <= i < |ws| && ws[i].start.day <= k <= ws[i].end.day;
      DayOfWeekIsWeekday(y, m, k);
    }
  }

  function WeeklySpec(y: int, m: int): Listing
    requires ValidMonth(y, m)
  {
    if y == MaxYear && m == 12 then Overflowed else Listed(WeekSpans(y, m))
  }

  /** The end of the span that starts on day `cur` in `get_weekly_ranges_for_month`: `cur` plus the
      days until Sunday (`6 - current_start.weekday()`), or the month end if that is earlier. */
  method SpanEnd(y: int, m: int, cur: int) returns (end: int)
    requires ValidMonth(y, m) && 1 <= cur <= DaysInMonth(y, m)
    ensures end == WeekEnd(FirstWeekday(y, m), DaysInMonth(y, m), cur)
    ensures cur <= end <= DaysInMonth(y, m)
    ensures end == DaysInMonth(y, m) || Weekday(Date(y, m, end)) == 6
  {
    DayOfWeekIsWeekday(y, m, cur);
    end := cur + (6 - Weekday(Date(y, m, cur)));
    if end > DaysInMonth(y, m) {
      end := DaysInMonth(y, m);
    }
    WeekEndFacts(FirstWeekday(y, m), DaysInMonth(y, m), cur);
    DayOfWeekIsWeekday(y, m, end);
  }

  /** `get_weekly_ranges_for_month`. `cur` is the day of `current_start`; a week end computed past
      the month's last day stands for a date in the next month, which is later than the month end, so
      comparing day numbers decides as comparing dates does. In December 9999 the step after the
      last span leaves `datetime`'s range. */
  method WeeklyRanges(y: int, m: int) returns (r: Listing)
    requires ValidMonth(y, m)
    ensures r == WeeklySpec(y, m)
  {
    var last := DaysInMonth(y, m);
    ghost var w1 := FirstWeekday(y, m);
    var ranges: seq<DateRange> := [];
    var cur := 1;
    while cur <= last
      invariant 1 <= cur <= last + 1
      invariant ranges + WeeksFrom(y, m, w1, last, cur) == WeekSpans(y, m)
      invariant cur > last ==> !(y == MaxYear && m == 12)
      decreases last + 1 - cur
    {
      var end := SpanEnd(y, m, cur);
      var span := DateRange(Date(y, m, cur), Date(y, m, end));
      WeeksFromUnfold(y, m, w1, last, cur);
      AppendSpan(ranges, span, WeeksFrom(y, m, w1, last, end + 1));
      ranges := ranges + [span];
      if end == last && y == MaxYear && m == 12 {
        return Overflowed;
      }
      cur := end + 1;
    }
    assert WeeksFrom(y, m, w1, last, cur) == [];
    r := Listed(ranges);
  }

  lemma AppendSpan(ranges: seq<DateRange>, span: DateRange, rest: seq<DateRange>)
    ensures ranges + ([span] + rest) == (ranges + [span]) + rest
  {
  }

  // ----- Daily spans -----

  /** One `(d, d)` range per day from `s` to `e`, ascending; empty when `s` is after `e`. */
  function DaysFrom(s: Date, e: Date): seq<DateRange>
    requires s.year >= 1 && InCalendar(s) && Valid(e)
    decreases e.year - s.year, 12 - s.month, 31 - s.day
  {
    if Before(e, s) then [] else [DateRange(s, s)] + DaysFrom(NextDay(s), e)
  }

  lemma ValidNotAfterLast(d: Date)
    requires Valid(d)
    ensures NotAfter(d, LastDate)
  {
  }

  /** The daily list of a period: one single-day range per calendar day from the start to the end
      inclusive, each the day after the previous one; empty exactly when the start is after the end. */
  lemma {:induction false} DaysFromShape(s: Date, e: Date)
    requires Valid(s) && Valid(e)
    ensures var r := DaysFrom(s, e);
      && (r == [] <==> Before(e, s))
      && (r != [] ==> r[0].start == s && r[|r| - 1].start == e)
      && (forall i :: 0 <= i < |r| ==>
            r[i].start == r[i].end && Valid(r[i].start) && NotAfter(s, r[i].start) && NotAfter(r[i].start, e))
      && (forall i :: 0 < i < |r| ==> r[i].start == NextDay(r[i - 1].start))
    decreases e.year - s.year, 12 - s.month, 31 - s.day
  {
    if !Before(e, s) {
      var n := NextDay(s);
      if s == e {
        assert DaysFrom(n, e) == [];
      } else {
        NextDayIsSuccessor(s, e);
        ValidNotAfterLast(e);
        DaysFromShape(n, e);
        var rest := DaysFrom(n, e);
        assert DaysFrom(s, e) == [DateRange(s, s)] + rest;
      }
    }
  }

  /** The daily list has one entry per calendar day: its length is the ordinal distance plus one. */
  lemma {:induction false} DaysFromCount(s: Date, e: Date)
    requires Valid(s) && Valid(e) && NotAfter(s, e)
    ensures |DaysFrom(s, e)| == Ordinal(e) - Ordinal(s) + 1
    decreases e.year - s.year, 12 - s.month, 31 - s.day
  {
    OrdinalNext(s);
    var n := NextDay(s);
    if s == e {
      assert DaysFrom(n, e) == [];
    } else {
      NextDayIsSuccessor(s, e);
      ValidNotAfterLast(e);
      DaysFromCount(n, e);
    }
  }

  /** Listing two adjacent periods one after the other lists the joined period. */
  lemma {:induction false} DaysFromAppend(a: Date, b: Date, c: Date)
    requires Valid(a) && Valid(b) && Valid(c)
    requires NotAfter(a, b) && Before(b, c)
    ensures DaysFrom(a, b) + DaysFrom(NextDay(b), c) == DaysFrom(a, c)
    decreases b.year - a.year, 12 - a.month, 31 - a.day
  {
    ValidNotAfterLast(c);
    NextDayIsSuccessor(b, c);
    if a == b {
      assert DaysFrom(NextDay(a), b) == [];
    } else {
      NextDayIsSuccessor(a, b);
      ValidNotAfterLast(b);
      DaysFromAppend(NextDay(a), b, c);
    }
  }

  /** `get_daily_ranges_for_period`, as a value: the empty list when either string fails to parse,
      the `OverflowError` when the loop would step past 31-12-9999. */
  function DailySpec(startStr: string, endStr: string): Listing {
    var s, e := ParseDMY(startStr), ParseDMY(endStr);
    if s.None? || e.None? then Listed([])
    else if NotAfter(s.value, e.value) && e.value == LastDate then Overflowed
    else Listed(DaysFrom(s.value, e.value))
  }

  /** `get_daily_ranges_for_period`: parse both ends, then append one `(d, d)` per day. */
  method DailyRanges(startStr: string, endStr: string) returns (r: Listing)
    ensures r == DailySpec(startStr, endStr)
    ensures r.Listed? && ParseDMY(startStr).Some? && ParseDMY(endStr).Some? ==>
      r.ranges == DaysFrom(ParseDMY(startStr).value, ParseDMY(endStr).value)
  {
    var ps, pe := ParseDMY(startStr), ParseDMY(endStr);
    if ps.None? || pe.None? {
      return Listed([]);
    }
    var first, end := ps.value, pe.value;
    ValidNotAfterLast(end);
    var cur := first;
    var ranges: seq<DateRange> := [];
    while NotAfter(cur, end)
      invariant Valid(cur) && NotAfter(first, cur)
      invariant ranges + DaysFrom(cur, end) == DaysFrom(first, end)
      decreases end.year - cur.year, 12 - cur.month, 31 - cur.day
    {
      assert DaysFrom(cur, end) == [DateRange(cur, cur)] + DaysFrom(NextDay(cur), end);
      ranges := ranges + [DateRange(cur, cur)];
      if cur == LastDate {
        return Overflowed;
      }
      NextDayIsSuccessor(cur, end);
      cur := NextDay(cur);
    }
    ValidNotAfterLast(cur);
    r := Listed(ranges);
  }
}
