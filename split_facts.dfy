/** What the month -> week -> day split does to the data directory. A file is identified by the
    download that wrote it, read back from its name; the split then deletes only the month file and
    week files that hit the row limit, never a day file and never a file of another month, and it
    adds only files of the month it is working on. */
module SplitFacts {
  import opened Text
  import opened Dates
  import opened Ranges
  import opened Names
  import opened Download
  import opened Backfill
  import opened BackfillFacts

  /** Reads a data-directory file name back into the month and split position of the download
      that wrote it; `None` for a file the backfill does not write. */
  function FileName(f: string): Option<Name> {
    if |f| >= 4 && f[|f| - 4..] == ".csv" then ParseName(f[..|f| - 4]) else None
  }

  /** Every file the backfill saves reads back to the name it was saved for. */
  lemma FileNameOf(n: Name)
    requires ValidName(n)
    ensures FileName(CsvFile(NameString(n))) == Some(n)
  {
    var s := NameString(n);
    var f := CsvFile(s);
    assert f[..|f| - 4] == s;
    assert f[|f| - 4..] == ".csv";
    ParseNameString(n);
  }

  /** `f` is a file of month `y`-`m`. */
  predicate OfMonth(f: string, y: int, m: int) {
    FileName(f).Some? && FileName(f).value.year == y && FileName(f).value.month == m
  }

  /** `f` is a week or day file of month `y`-`m`. */
  predicate SplitOf(f: string, y: int, m: int) {
    OfMonth(f, y, m) && !FileName(f).value.node.MonthNode?
  }

  /** `f` is the week file of part `part` of month `y`-`m`, or one of its day files. */
  predicate PartOf(f: string, y: int, m: int, part: nat) {
    SplitOf(f, y, m) && FileName(f).value.node.part == part
  }

  /** `f` is a week file of month `y`-`m`. */
  predicate WeekFileOf(f: string, y: int, m: int) {
    SplitOf(f, y, m) && FileName(f).value.node.WeekNode?
  }

  lemma {:induction false} DayFilesPart(y: int, m: int, part: nat, days: seq<DateRange>, f: string)
    requires ValidMonth(y, m) && SpansValid(days) && f in DayFiles(y, m, part, days)
    ensures PartOf(f, y, m, part) && FileName(f).value.node.DayNode?
    decreases |days|
  {
    var d := days[0].start.day;
    if f == CsvFile(DayName(y, m, part, d)) {
      FileNameOf(Name(y, m, DayNode(part, d)));
    } else {
      assert SpansValid(days[1..]) by {
        forall i | 0 <= i < |days[1..]|
          ensures Valid(days[1..][i].start) && Valid(days[1..][i].end)
        {
          assert days[1..][i] == days[i + 1];
        }
      }
      DayFilesPart(y, m, part, days[1..], f);
    }
  }

  /** The day list of a split week deletes nothing and adds only day files of that week. */
  lemma DaysSpecFiles(w: World, o: Oracle, y: int, m: int, s: string, e: string, part: nat, maxRetries: int)
    requires ValidMonth(y, m)
    ensures var w' := DaysSpec(w, o, y, m, s, e, part, maxRetries).0;
      && w.files <= w'.files
      && (forall f | f in w'.files && f !in w.files :: PartOf(f, y, m, part) && FileName(f).value.node.DayNode?)
  {
    if DailySpec(s, e).Listed? {
      var days := DailySpec(s, e).ranges;
      DailySpecValid(s, e);
      DaysFoldFiles(w, o, y, m, part, days, maxRetries);
      var w' := DaysFold(w, o, y, m, part, days, maxRetries);
      forall f | f in w'.files && f !in w.files
        ensures PartOf(f, y, m, part) && FileName(f).value.node.DayNode?
      {
        DayFilesPart(y, m, part, days, f);
      }
    }
  }

  /** A week removes nothing but its own file, and adds only its own file and its day files. The
      week file does not survive a week that hits the row limit, and is there after a week that
      was downloaded. */
  lemma WeekSpecFiles(w: World, o: Oracle, y: int, m: int, span: DateRange, part: nat, maxRetries: int)
    requires ValidMonth(y, m) && Valid(span.start) && Valid(span.end)
    ensures var w' := WeekSpec(w, o, y, m, span, part, maxRetries).0;
      var wf := CsvFile(WeekName(y, m, part));
      var out := Retry(w, o, WeekRequest(y, m, span, part), maxRetries, 0).1;
      && (forall f | f in w.files && f !in w'.files :: f == wf)
      && (forall f | f in w'.files && f !in w.files :: PartOf(f, y, m, part))
      && (out.RowLimited? ==> wf !in w'.files)
      && (out.Done? && 0 < maxRetries ==> wf in w'.files)
  {
    var s, e := FormatDMY(span.start), FormatDMY(span.end);
    var req := WeekRequest(y, m, span, part);
    var wf := CsvFile(req.base);
    var wn := Name(y, m, WeekNode(part));
    NameEndsInDigit(wn);
    FileNameOf(wn);
    RetryFiles(w, o, req, maxRetries, 0);
    var r := Retry(w, o, req, maxRetries, 0);
    var w' := WeekSpec(w, o, y, m, span, part, maxRetries).0;
    if r.1.RowLimited? {
      var w2 := Remove(r.0, r.1.err.filepath);
      assert w2.files == r.0.files - {wf};
      assert w' == DaysSpec(w2, o, y, m, s, e, part, maxRetries).0;
      DaysSpecFiles(w2, o, y, m, s, e, part, maxRetries);
    } else {
      assert w' == r.0;
    }
  }

  /** The week loop from part `part` on removes only week files of this month with a part number
      from `part` on, and adds only week and day files of this month. */
  lemma {:induction false} WeeksFoldFiles(w: World, o: Oracle, y: int, m: int, spans: seq<DateRange>, part: nat, maxRetries: int)
    requires ValidMonth(y, m) && SpansValid(spans)
    ensures var w' := WeeksFold(w, o, y, m, spans, part, maxRetries).0;
      && (forall f | f in w.files && f !in w'.files :: WeekFileOf(f, y, m) && FileName(f).value.node.part >= part)
      && (forall f | f in w'.files && f !in w.files :: SplitOf(f, y, m))
    decreases |spans|
  {
    if spans != [] {
      var w' := WeeksFold(w, o, y, m, spans, part, maxRetries).0;
      WeekSpecFiles(w, o, y, m, spans[0], part, maxRetries);
      FileNameOf(Name(y, m, WeekNode(part)));
      var (w1, _, escaped) := WeekSpec(w, o, y, m, spans[0], part, maxRetries);
      if !escaped {
        assert SpansValid(spans[1..]) by {
          forall i | 0 <= i < |spans[1..]|
            ensures Valid(spans[1..][i].start) && Valid(spans[1..][i].end)
          {
            assert spans[1..][i] == spans[i + 1];
          }
        }
        WeeksFoldFiles(w1, o, y, m, spans[1..], part + 1, maxRetries);
        assert w' == WeeksFold(w1, o, y, m, spans[1..], part + 1, maxRetries).0;
      } else {
        assert w' == w1;
      }
    }
  }

  /** The split of a month removes only week files of that month and adds only its week and day
      files. */
  lemma SplitSpecFiles(w: World, o: Oracle, y: int, m: int, maxRetries: int)
    requires ValidMonth(y, m)
    ensures var w' := SplitSpec(w, o, y, m, maxRetries).0;
      && (forall f | f in w.files && f !in w'.files :: WeekFileOf(f, y, m))
      && (forall f | f in w'.files && f !in w.files :: SplitOf(f, y, m))
  {
    if WeeklySpec(y, m).Listed? {
      WeekSpansValid(y, m);
      WeeksFoldFiles(w, o, y, m, WeekSpans(y, m), 0, maxRetries);
    }
  }

  /** A month removes only its own month file and week files, never a day file and never a file of
      another month, and adds only files of its own. Without a row-limit error it adds at most the
      month file, which is there after a download; after a row-limit error the month file is gone,
      whatever the weeks and days do. */
  lemma MonthSpecFiles(w: World, o: Oracle, y: int, m: int, maxRetries: int)
    requires ValidMonth(y, m)
    ensures var w' := MonthSpec(w, o, y, m, maxRetries).0;
      var mf := CsvFile(MonthName(y, m));
      var out := Retry(Log(w, BeginMonth(y, m)), o, MonthRequest(y, m), maxRetries, 0).1;
      && (forall f | f in w.files && f !in w'.files :: OfMonth(f, y, m) && !FileName(f).value.node.DayNode?)
      && (forall f | f in w'.files && f !in w.files :: OfMonth(f, y, m))
      && (out.RowLimited? ==> mf !in w'.files)
      && (!out.RowLimited? ==> w'.files <= w.files + {mf})
      && (out.Done? && 0 < maxRetries ==> mf in w'.files)
  {
    var w0 := Log(w, BeginMonth(y, m));
    var req := MonthRequest(y, m);
    var mf := CsvFile(req.base);
    var mn := Name(y, m, MonthNode);
    NameEndsInDigit(mn);
    FileNameOf(mn);
    RetryFiles(w0, o, req, maxRetries, 0);
    var r := Retry(w0, o, req, maxRetries, 0);
    var w' := MonthSpec(w, o, y, m, maxRetries).0;
    if r.1.RowLimited? {
      var w2 := Remove(r.0, r.1.err.filepath);
      assert w' == SplitSpec(w2, o, y, m, maxRetries).0;
      SplitSpecFiles(w2, o, y, m, maxRetries);
      SplitMonthFiles(w.files, r.0.files, w2.files, w'.files, mf, y, m);
    } else {
      assert w' == r.0;
      WholeMonthFiles(w.files, w'.files, mf, y, m);
    }
  }

  /** The file bookkeeping of a month that hit the row limit, over plain sets: `mid` is the
      directory after the month download, `cut` the same without the month file, `after` the
      directory after the split. */
  lemma SplitMonthFiles(before: set<string>, mid: set<string>, cut: set<string>, after: set<string>, mf: string, y: int, m: int)
    requires FileName(mf) == Some(Name(y, m, MonthNode))
    requires before <= mid <= before + {mf} && cut == mid - {mf}
    requires forall f | f in cut && f !in after :: WeekFileOf(f, y, m)
    requires forall f | f in after && f !in cut :: SplitOf(f, y, m)
    ensures forall f | f in before && f !in after :: OfMonth(f, y, m) && !FileName(f).value.node.DayNode?
    ensures forall f | f in after && f !in before :: OfMonth(f, y, m)
    ensures mf !in after
  {
  }

  /** The same for a month that did not: at most the month file was added. */
  lemma WholeMonthFiles(before: set<string>, after: set<string>, mf: string, y: int, m: int)
    requires FileName(mf) == Some(Name(y, m, MonthNode))
    requires before <= after <= before + {mf}
    ensures forall f | f in before && f !in after :: OfMonth(f, y, m) && !FileName(f).value.node.DayNode?
    ensures forall f | f in after && f !in before :: OfMonth(f, y, m)
  {
  }

  // ----- The whole run -----

  /** `f` is a file of one of the months `ms`. */
  predicate InMonths(f: string, ms: seq<(int, int)>) {
    FileName(f).Some? && (FileName(f).value.year, FileName(f).value.month) in ms
  }

  /** From `w` to `w'` only files of the months `ms` were added, and only month and week files of
      those months were removed. */
  predicate TouchesOnly(w: World, w': World, ms: seq<(int, int)>) {
    && (forall f | f in w.files && f !in w'.files :: InMonths(f, ms) && !FileName(f).value.node.DayNode?)
    && (forall f | f in w'.files && f !in w.files :: InMonths(f, ms))
  }

  /** The month loop from `cur` on touches only files of the months it visits, and never removes a
      day file. */
  lemma {:induction false} DriveFiles(w: World, o: Oracle, cur: Date, end: Date, delay: int, maxRetries: int)
    requires Valid(cur) && Valid(end)
    ensures TouchesOnly(w, Drive(w, o, cur, end, delay, maxRetries).0, MonthsFrom(cur, end))
    decreases MonthIndex(end) - MonthIndex(cur) + 1
  {
    var w' := Drive(w, o, cur, end, delay, maxRetries).0;
    if !Before(end, cur) {
      var y, m := cur.year, cur.month;
      var (w1, escaped) := MonthSpec(w, o, y, m, maxRetries);
      MonthSpecFiles(w, o, y, m, maxRetries);
      var ms := MonthsFrom(cur, end);
      if escaped || (y == MaxYear && m == 12) {
        assert w' == w1;
        TouchesHead(w, w1, w1, ms);
      } else {
        var w2 := if delay > 0 then Log(w1, Pause(delay)) else w1;
        var rest := MonthsFrom(NextMonth(cur), end);
        assert w' == Drive(w2, o, NextMonth(cur), end, delay, maxRetries).0;
        assert ms == [(y, m)] + rest;
        DriveFiles(w2, o, NextMonth(cur), end, delay, maxRetries);
        TouchesStep(w, w1, w2, w', y, m, rest);
      }
    }
  }

  /** One month at the head of the list, and nothing after it. */
  lemma TouchesHead(w: World, w1: World, w': World, ms: seq<(int, int)>)
    requires |ms| > 0 && w'.files == w1.files
    requires forall f | f in w.files && f !in w1.files :: OfMonth(f, ms[0].0, ms[0].1) && !FileName(f).value.node.DayNode?
    requires forall f | f in w1.files && f !in w.files :: OfMonth(f, ms[0].0, ms[0].1)
    ensures TouchesOnly(w, w', ms)
  {
    forall f | f in w.files && f !in w'.files
      ensures InMonths(f, ms)
    {
      assert ms[0] == (FileName(f).value.year, FileName(f).value.month);
    }
    forall f | f in w'.files && f !in w.files
      ensures InMonths(f, ms)
    {
      assert ms[0] == (FileName(f).value.year, FileName(f).value.month);
    }
  }

  /** One month, then the loop over the rest. */
  lemma TouchesStep(w: World, w1: World, w2: World, w': World, y: int, m: int, rest: seq<(int, int)>)
    requires w2.files == w1.files
    requires forall f | f in w.files && f !in w1.files :: OfMonth(f, y, m) && !FileName(f).value.node.DayNode?
    requires forall f | f in w1.files && f !in w.files :: OfMonth(f, y, m)
    requires TouchesOnly(w2, w', rest)
    ensures TouchesOnly(w, w', [(y, m)] + rest)
  {
    var ms := [(y, m)] + rest;
    forall f | f in w.files && f !in w'.files
      ensures InMonths(f, ms) && !FileName(f).value.node.DayNode?
    {
      if f in w1.files {
        assert InMonths(f, rest);
      }
    }
    forall f | f in w'.files && f !in w.files
      ensures InMonths(f, ms)
    {
      if f in w1.files {
        assert ms[0] == (y, m);
      } else {
        assert InMonths(f, rest);
      }
    }
  }

  /** The whole backfill touches only files of the months from the start's to the end's, and never
      removes a day file; a range it rejects touches nothing. */
  lemma BackfillFiles(w: World, o: Oracle, startStr: string, endStr: string, delay: int, maxRetries: int)
    ensures var w' := BackfillSpec(w, o, startStr, endStr, delay, maxRetries).0;
      var s, e := ParseYMD(startStr), ParseYMD(endStr);
      if s.Some? && e.Some? && NotAfter(s.value, e.value) then TouchesOnly(w, w', MonthsFrom(s.value, e.value))
      else w'.files == w.files
  {
    var s, e := ParseYMD(startStr), ParseYMD(endStr);
    if s.Some? && e.Some? && NotAfter(s.value, e.value) {
      DriveFiles(w, o, s.value, e.value, delay, maxRetries);
    }
  }
}
