/** What the backfill guarantees, stated over its specification functions: how the retry wrapper
    spends its tries and sleeps, which files each level can create or delete, when an exception
    can escape a month, and which months the driver announces and in what order. */
module BackfillFacts {
  import opened Text
  import opened Dates
  import opened Ranges
  import opened Names
  import opened Download
  import opened Backfill

  // ----- The retry wrapper -----

  /** The trace of a sequence of tries with the given responses, a sleep between each two. */
  function Tries(req: Request, rs: seq<Response>): seq<Event>
    requires rs != []
    decreases |rs|
  {
    if |rs| == 1 then [Attempt(req, rs[0])]
    else [Attempt(req, rs[0]), Backoff(RetryDelay)] + Tries(req, rs[1..])
  }

  /** What the wrapper makes of the response that ends it. */
  function OutcomeOf(r: Response): Outcome {
    match r
    case Ok(_) => Done
    case RowLimit(e) => RowLimited(e)
    case Failed => Errored
    case Timeout => GaveUp
  }

  /** The wrapper went from `w` to `w'` with outcome `out` by the tries `rs`: at least one and at
      most `maxRetries - attempt`, every one but the last timed out, the last decides the outcome, and a last
      timeout means the budget is spent. */
  predicate RetriedWith(w: World, w': World, out: Outcome, req: Request, rs: seq<Response>, maxRetries: int, attempt: nat) {
    && 1 <= |rs| <= maxRetries - attempt
    && (forall i :: 0 <= i < |rs| - 1 ==> rs[i] == Timeout)
    && (rs[|rs| - 1] == Timeout ==> |rs| == maxRetries - attempt)
    && out == OutcomeOf(rs[|rs| - 1])
    && w'.trace == w.trace + Tries(req, rs)
    && w'.calls == w.calls + |rs|
  }

  /** Some run of tries explains the wrapper's result. */
  ghost predicate Retried(w: World, r: (World, Outcome), req: Request, maxRetries: int, attempt: nat) {
    exists rs :: RetriedWith(w, r.0, r.1, req, rs, maxRetries, attempt)
  }

  /** `max_retries` counts tries, not retries: with `max_retries <= 0` nothing is called and the
      wrapper returns as if it had succeeded; otherwise it makes between one and `max_retries`
      tries, retrying only after timeouts, and stops at the first response that is not one. */
  lemma {:induction false} RetryTrace(w: World, o: Oracle, req: Request, maxRetries: int, attempt: nat)
    ensures attempt >= maxRetries ==> Retry(w, o, req, maxRetries, attempt) == (w, Done)
    ensures attempt < maxRetries ==> Retried(w, Retry(w, o, req, maxRetries, attempt), req, maxRetries, attempt)
    decreases maxRetries - attempt
  {
    if attempt < maxRetries {
      var (w1, resp) := Call(w, o, req);
      var r := Retry(w, o, req, maxRetries, attempt);
      if resp.Timeout? && attempt + 1 < maxRetries {
        var w2 := Log(w1, Backoff(RetryDelay));
        assert r == Retry(w2, o, req, maxRetries, attempt + 1);
        RetryTrace(w2, o, req, maxRetries, attempt + 1);
        var rs' :| RetriedWith(w2, r.0, r.1, req, rs', maxRetries, attempt + 1);
        var rs := [Timeout] + rs';
        assert rs[1..] == rs';
        assert Tries(req, rs) == [Attempt(req, Timeout), Backoff(RetryDelay)] + Tries(req, rs');
        assert RetriedWith(w, r.0, r.1, req, rs, maxRetries, attempt);
      } else {
        var rs := [resp];
        assert RetriedWith(w, r.0, r.1, req, rs, maxRetries, attempt);
      }
    }
  }

  function Backoffs(t: seq<Event>): nat
    decreases |t|
  {
    if t == [] then 0 else (if t[0].Backoff? then 1 else 0) + Backoffs(t[1..])
  }

  /** A run of `n` tries sleeps `n - 1` times, so a period that times out on every one of its
      `max_retries` tries sleeps `max_retries - 1` times. */
  lemma {:induction false} TriesBackoffs(req: Request, rs: seq<Response>)
    requires rs != []
    ensures Backoffs(Tries(req, rs)) == |rs| - 1
    decreases |rs|
  {
    if |rs| > 1 {
      var t := Tries(req, rs);
      TriesBackoffs(req, rs[1..]);
      assert t[1..][1..] == Tries(req, rs[1..]);
    }
  }

  /** A base name ending in a digit is saved as itself plus `.csv`. */
  lemma DigitBaseFileName(base: string, suggested: string, ts: string)
    requires |base| > 0 && IsDigit(base[|base| - 1])
    ensures FinalFilename(base, suggested, ts) == base + ".csv"
  {
    var l := LowerString(base);
    assert l[|l| - 1] == base[|base| - 1];
  }

  /** Every name the backfill builds is saved as that name plus `.csv`. */
  lemma BackfillFileName(n: Name, suggested: string, ts: string)
    requires ValidName(n)
    ensures FinalFilename(NameString(n), suggested, ts) == NameString(n) + ".csv"
  {
    NameEndsInDigit(n);
    DigitBaseFileName(NameString(n), suggested, ts);
  }

  /** The file a base name is saved under. */
  function CsvFile(base: string): string {
    base + ".csv"
  }

  predicate DigitEnded(base: string) {
    |base| > 0 && IsDigit(base[|base| - 1])
  }

  /** One downloader call for a backfill base name can only add that name's file; the row-limit
      error it raises names that very file and carries more than 50000 rows. */
  lemma CallFiles(w: World, o: Oracle, req: Request)
    requires DigitEnded(req.base)
    ensures var (w', resp) := Call(w, o, req);
      && w.files <= w'.files <= w.files + {CsvFile(req.base)}
      && ((resp.Ok? || resp.RowLimit?) ==> CsvFile(req.base) in w'.files)
      && (resp.RowLimit? ==> resp.err.filepath == CsvFile(req.base) && resp.err.rowCount > MaxRowsLimit)
  {
    var p := o(req, w.calls);
    if p.Served? {
      DigitBaseFileName(req.base, p.suggested, p.timestamp);
    }
    RunRowLimit(req.base, true, p);
  }

  /** The wrapper only ever adds the period's own file; when it returns after a try, or re-raises
      the row-limit error, that file is there, and the error's path is the file to delete. */
  lemma {:induction false} RetryFiles(w: World, o: Oracle, req: Request, maxRetries: int, attempt: nat)
    requires DigitEnded(req.base)
    ensures var (w', out) := Retry(w, o, req, maxRetries, attempt);
      && w.files <= w'.files <= w.files + {CsvFile(req.base)}
      && (out.RowLimited? ==> out.err.filepath == CsvFile(req.base) && CsvFile(req.base) in w'.files)
      && (out.Done? && attempt < maxRetries ==> CsvFile(req.base) in w'.files)
    decreases maxRetries - attempt
  {
    if attempt < maxRetries {
      CallFiles(w, o, req);
      var (w1, resp) := Call(w, o, req);
      if resp.Timeout? && attempt + 1 < maxRetries {
        RetryFiles(Log(w1, Backoff(RetryDelay)), o, req, maxRetries, attempt + 1);
      }
    }
  }

  // ----- Quiet extensions of the trace -----

  /** Events below the driver: downloader calls and the wrapper's sleeps. */
  predicate Quiet(t: seq<Event>) {
    forall i :: 0 <= i < |t| ==> t[i].Attempt? || t[i].Backoff?
  }

  /** `w'` continues `w`'s trace with quiet events only, and makes no fewer calls. */
  predicate Extends(w: World, w': World) {
    && |w.trace| <= |w'.trace| && w'.trace[..|w.trace|] == w.trace
    && Quiet(w'.trace[|w.trace|..])
    && w.calls <= w'.calls
  }

  lemma ExtendsTrans(a: World, b: World, c: World)
    requires Extends(a, b) && Extends(b, c)
    ensures Extends(a, c)
  {
    var ta, tb, tc := a.trace, b.trace, c.trace;
    assert tc[..|ta|] == tb[..|ta|];
    forall i | 0 <= i < |tc| - |ta|
      ensures tc[|ta|..][i].Attempt? || tc[|ta|..][i].Backoff?
    {
      if |ta| + i < |tb| {
        assert tc[|ta|..][i] == tb[|ta|..][i];
      } else {
        assert tc[|ta|..][i] == tc[|tb|..][|ta| + i - |tb|];
      }
    }
  }

  lemma {:induction false} RetryExtends(w: World, o: Oracle, req: Request, maxRetries: int, attempt: nat)
    ensures Extends(w, Retry(w, o, req, maxRetries, attempt).0)
    decreases maxRetries - attempt
  {
    if attempt < maxRetries {
      var (w1, resp) := Call(w, o, req);
      assert Extends(w, w1);
      if resp.Timeout? && attempt + 1 < maxRetries {
        var w2 := Log(w1, Backoff(RetryDelay));
        assert Extends(w1, w2);
        RetryExtends(w2, o, req, maxRetries, attempt + 1);
        ExtendsTrans(w1, w2, Retry(w2, o, req, maxRetries, attempt + 1).0);
        ExtendsTrans(w, w1, Retry(w2, o, req, maxRetries, attempt + 1).0);
      }
    }
  }

  // ----- Days, weeks and months -----

  /** The files of the days of week part `part`. */
  function DayFiles(y: int, m: int, part: nat, days: seq<DateRange>): set<string>
    requires ValidMonth(y, m) && SpansValid(days)
    decreases |days|
  {
    if days == [] then {} else {CsvFile(DayName(y, m, part, days[0].start.day))} + DayFiles(y, m, part, days[1..])
  }

  lemma DayNameDigitEnded(y: int, m: int, part: nat, day: int)
    requires ValidMonth(y, m) && 1 <= day <= 31
    ensures DigitEnded(DayName(y, m, part, day))
  {
    NameEndsInDigit(Name(y, m, DayNode(part, day)));
  }

  /** The day loop deletes nothing, oversized day files included, and adds at most the files of
      its own days; its trace holds only calls and sleeps. */
  lemma {:induction false} DaysFoldFiles(w: World, o: Oracle, y: int, m: int, part: nat, days: seq<DateRange>, maxRetries: int)
    requires ValidMonth(y, m) && SpansValid(days)
    ensures var w' := DaysFold(w, o, y, m, part, days, maxRetries);
      && w.files <= w'.files <= w.files + DayFiles(y, m, part, days)
      && Extends(w, w')
    decreases |days|
  {
    if days != [] {
      var req := DayRequest(y, m, part, days[0]);
      DayNameDigitEnded(y, m, part, days[0].start.day);
      RetryFiles(w, o, req, maxRetries, 0);
      RetryExtends(w, o, req, maxRetries, 0);
      var (w1, _) := Retry(w, o, req, maxRetries, 0);
      DaysFoldFiles(w1, o, y, m, part, days[1..], maxRetries);
      ExtendsTrans(w, w1, DaysFold(w1, o, y, m, part, days[1..], maxRetries));
    }
  }

  lemma DaysSpecExtends(w: World, o: Oracle, y: int, m: int, s: string, e: string, part: nat, maxRetries: int)
    requires ValidMonth(y, m)
    ensures Extends(w, DaysSpec(w, o, y, m, s, e, part, maxRetries).0)
  {
    if DailySpec(s, e).Listed? {
      DailySpecValid(s, e);
      DaysFoldFiles(w, o, y, m, part, DailySpec(s, e).ranges, maxRetries);
    }
  }

  lemma WeekSpecExtends(w: World, o: Oracle, y: int, m: int, span: DateRange, part: nat, maxRetries: int)
    requires ValidMonth(y, m) && Valid(span.start) && Valid(span.end)
    ensures Extends(w, WeekSpec(w, o, y, m, span, part, maxRetries).0)
  {
    var s, e := FormatDMY(span.start), FormatDMY(span.end);
    var req := WeekRequest(y, m, span, part);
    var r := Retry(w, o, req, maxRetries, 0);
    var result := WeekSpec(w, o, y, m, span, part, maxRetries);
    RetryExtends(w, o, req, maxRetries, 0);
    if r.1.RowLimited? {
      var w2 := Remove(r.0, r.1.err.filepath);
      assert Extends(w, w2);
      DaysSpecExtends(w2, o, y, m, s, e, part, maxRetries);
      assert result.0 == DaysSpec(w2, o, y, m, s, e, part, maxRetries).0;
      ExtendsTrans(w, w2, result.0);
    } else {
      assert result.0 == r.0;
    }
  }

  lemma {:induction false} WeeksFoldExtends(w: World, o: Oracle, y: int, m: int, spans: seq<DateRange>, part: nat, maxRetries: int)
    requires ValidMonth(y, m) && SpansValid(spans)
    ensures Extends(w, WeeksFold(w, o, y, m, spans, part, maxRetries).0)
    decreases |spans|
  {
    if spans != [] {
      WeekSpecExtends(w, o, y, m, spans[0], part, maxRetries);
      var (w1, _, escaped) := WeekSpec(w, o, y, m, spans[0], part, maxRetries);
      if !escaped {
        WeeksFoldExtends(w1, o, y, m, spans[1..], part + 1, maxRetries);
        ExtendsTrans(w, w1, WeeksFold(w1, o, y, m, spans[1..], part + 1, maxRetries).0);
      }
    }
  }

  /** A month's trace is its announcement followed by calls and sleeps only. */
  lemma MonthSpecExtends(w: World, o: Oracle, y: int, m: int, maxRetries: int)
    requires ValidMonth(y, m)
    ensures Extends(Log(w, BeginMonth(y, m)), MonthSpec(w, o, y, m, maxRetries).0)
  {
    var w0 := Log(w, BeginMonth(y, m));
    var req := MonthRequest(y, m);
    RetryExtends(w0, o, req, maxRetries, 0);
    var (w1, out) := Retry(w0, o, req, maxRetries, 0);
    if out.RowLimited? && WeeklySpec(y, m).Listed? {
      WeekSpansValid(y, m);
      var w2 := Remove(w1, out.err.filepath);
      WeeksFoldExtends(w2, o, y, m, WeekSpans(y, m), 0, maxRetries);
      ExtendsTrans(w0, w2, WeeksFold(w2, o, y, m, WeekSpans(y, m), 0, maxRetries).0);
    }
  }

  /** No daily list of a week outside December 9999 overflows. */
  lemma {:induction false} WeeksFoldNoEscape(w: World, o: Oracle, y: int, m: int, spans: seq<DateRange>, part: nat, maxRetries: int)
    requires ValidMonth(y, m) && SpansValid(spans)
    requires forall i :: 0 <= i < |spans| ==> spans[i].end != LastDate
    ensures !WeeksFold(w, o, y, m, spans, part, maxRetries).1
    decreases |spans|
  {
    if spans != [] {
      var span := spans[0];
      ParseFormatDMY(span.start);
      ParseFormatDMY(span.end);
      var (w1, _, escaped) := WeekSpec(w, o, y, m, span, part, maxRetries);
      assert !escaped;
      WeeksFoldNoEscape(w1, o, y, m, spans[1..], part + 1, maxRetries);
    }
  }

  /** An exception escapes a month only in December 9999, whose weekly list overflows; the handler
      of every other month swallows whatever its downloads raise. */
  lemma MonthEscapeOnlyAtEnd(w: World, o: Oracle, y: int, m: int, maxRetries: int)
    requires ValidMonth(y, m)
    ensures MonthSpec(w, o, y, m, maxRetries).1 ==> y == MaxYear && m == 12
  {
    if !(y == MaxYear && m == 12) {
      var (w1, out) := Retry(Log(w, BeginMonth(y, m)), o, MonthRequest(y, m), maxRetries, 0);
      if out.RowLimited? {
        var ws := WeekSpans(y, m);
        WeekSpansIsPartition(y, m);
        WeekSpansValid(y, m);
        WeeksFoldNoEscape(Remove(w1, out.err.filepath), o, y, m, ws, 0, maxRetries);
      }
    }
  }

  // ----- The driver -----

  /** The calendar months from `cur`'s to `end`'s, in order, as (year, month). */
  function MonthsFrom(cur: Date, end: Date): seq<(int, int)>
    requires Valid(cur) && Valid(end)
    decreases MonthIndex(end) - MonthIndex(cur) + 1
  {
    if Before(end, cur) then []
    else if cur.year == MaxYear && cur.month == 12 then [(cur.year, cur.month)]
    else [(cur.year, cur.month)] + MonthsFrom(NextMonth(cur), end)
  }

  /** The month list is every month from the start's month to the end's month once, in order: entry
      `i` is the `i`-th month after the start's, so December is followed by January of the next
      year. */
  lemma {:induction false} MonthsFromSpan(cur: Date, end: Date)
    requires Valid(cur) && Valid(end) && NotAfter(cur, end)
    ensures var ms := MonthsFrom(cur, end);
      && |ms| == MonthIndex(end) - MonthIndex(cur) + 1
      && forall i :: 0 <= i < |ms| ==>
           1 <= ms[i].1 <= 12 && ms[i].0 * 12 + ms[i].1 == MonthIndex(cur) + i
    decreases MonthIndex(end) - MonthIndex(cur) + 1
  {
    var ms := MonthsFrom(cur, end);
    if !(cur.year == MaxYear && cur.month == 12) {
      var n := NextMonth(cur);
      if Before(end, n) {
        assert MonthIndex(end) == MonthIndex(cur);
        assert MonthsFrom(n, end) == [];
      } else {
        MonthsFromSpan(n, end);
        assert ms == [(cur.year, cur.month)] + MonthsFrom(n, end);
      }
    }
  }

  /** The driver-level events: month announcements and the pauses between months. */
  function DriverEvents(t: seq<Event>): seq<Event>
    decreases |t|
  {
    if t == [] then []
    else (if t[0].BeginMonth? || t[0].Pause? then [t[0]] else []) + DriverEvents(t[1..])
  }

  lemma {:induction false} DriverEventsAppend(a: seq<Event>, b: seq<Event>)
    ensures DriverEvents(a + b) == DriverEvents(a) + DriverEvents(b)
    decreases |a|
  {
    if a == [] {
      assert a + b == b;
    } else {
      var head: seq<Event> := if a[0].BeginMonth? || a[0].Pause? then [a[0]] else [];
      assert (a + b)[0] == a[0];
      assert (a + b)[1..] == a[1..] + b;
      assert DriverEvents(a + b) == head + DriverEvents(a[1..] + b);
      DriverEventsAppend(a[1..], b);
      assert DriverEvents(a) == head + DriverEvents(a[1..]);
      assert head + (DriverEvents(a[1..]) + DriverEvents(b)) == head + DriverEvents(a[1..]) + DriverEvents(b);
    }
  }

  lemma {:induction false} DriverEventsQuiet(t: seq<Event>)
    requires Quiet(t)
    ensures DriverEvents(t) == []
    decreases |t|
  {
    if t != [] {
      DriverEventsQuiet(t[1..]);
    }
  }

  lemma ExtendsDriverEvents(w: World, w': World)
    requires Extends(w, w')
    ensures DriverEvents(w'.trace) == DriverEvents(w.trace)
  {
    var t := w'.trace;
    assert t == w.trace + t[|w.trace|..];
    DriverEventsAppend(w.trace, t[|w.trace|..]);
    DriverEventsQuiet(t[|w.trace|..]);
  }

  /** The schedule of driver events for a list of months: each month announced, then a pause when
      the delay is positive, except after the last month when the loop did not finish normally. */
  function Schedule(ms: seq<(int, int)>, delay: int, finished: bool): seq<Event>
    decreases |ms|
  {
    if ms == [] then []
    else
      [BeginMonth(ms[0].0, ms[0].1)]
      + (if delay > 0 && (finished || |ms| > 1) then [Pause(delay)] else [])
      + Schedule(ms[1..], delay, finished)
  }

  lemma MonthSpecDriverEvents(w: World, o: Oracle, y: int, m: int, maxRetries: int)
    requires ValidMonth(y, m)
    ensures DriverEvents(MonthSpec(w, o, y, m, maxRetries).0.trace) == DriverEvents(w.trace) + [BeginMonth(y, m)]
  {
    MonthSpecExtends(w, o, y, m, maxRetries);
    ExtendsDriverEvents(Log(w, BeginMonth(y, m)), MonthSpec(w, o, y, m, maxRetries).0);
    DriverEventsAppend(w.trace, [BeginMonth(y, m)]);
  }

  lemma ScheduleCons(m: (int, int), rest: seq<(int, int)>, delay: int, finished: bool)
    ensures Schedule([m] + rest, delay, finished)
      == [BeginMonth(m.0, m.1)] + (if delay > 0 && (finished || rest != []) then [Pause(delay)] else [])
         + Schedule(rest, delay, finished)
  {
    assert ([m] + rest)[1..] == rest;
  }

  /** What the month loop promises from `cur` on. */
  predicate DrivePromise(w: World, cur: Date, end: Date, delay: int, w': World, status: Status)
    requires Valid(cur) && Valid(end)
  {
    && DriverEvents(w'.trace) == DriverEvents(w.trace) + Schedule(MonthsFrom(cur, end), delay, status == Finished)
    && (status == Finished || status == Stopped || status == Crashed)
    && (status != Finished <==> NotAfter(cur, end) && end.year == MaxYear && end.month == 12)
  }

  /** The month loop announces every month from `cur`'s to `end`'s exactly once, in order, pausing
      after each when the delay is positive; it finishes normally unless the range reaches December
      9999, where it either breaks (an exception escaped the month) or crashes computing the next
      month, without a pause. */
  lemma {:induction false} DriveSchedule(w: World, o: Oracle, cur: Date, end: Date, delay: int, maxRetries: int)
    requires Valid(cur) && Valid(end)
    ensures DrivePromise(w, cur, end, delay, Drive(w, o, cur, end, delay, maxRetries).0, Drive(w, o, cur, end, delay, maxRetries).1)
    decreases MonthIndex(end) - MonthIndex(cur) + 1
  {
    if !Before(end, cur) {
      var (w1, escaped) := MonthSpec(w, o, cur.year, cur.month, maxRetries);
      MonthSpecDriverEvents(w, o, cur.year, cur.month, maxRetries);
      MonthEscapeOnlyAtEnd(w, o, cur.year, cur.month, maxRetries);
      if escaped || (cur.year == MaxYear && cur.month == 12) {
        DriveLast(w, o, cur, end, delay, maxRetries);
      } else {
        var w2 := if delay > 0 then Log(w1, Pause(delay)) else w1;
        DriveSchedule(w2, o, NextMonth(cur), end, delay, maxRetries);
        DriveStep(w, o, cur, end, delay, maxRetries);
      }
    }
  }

  /** The last month of a range that reaches December 9999. */
  lemma DriveLast(w: World, o: Oracle, cur: Date, end: Date, delay: int, maxRetries: int)
    requires Valid(cur) && Valid(end) && NotAfter(cur, end)
    requires cur.year == MaxYear && cur.month == 12
    ensures DrivePromise(w, cur, end, delay, Drive(w, o, cur, end, delay, maxRetries).0, Drive(w, o, cur, end, delay, maxRetries).1)
  {
    var (w1, escaped) := MonthSpec(w, o, cur.year, cur.month, maxRetries);
    MonthSpecDriverEvents(w, o, cur.year, cur.month, maxRetries);
    assert MonthsFrom(cur, end) == [(cur.year, cur.month)];
    ScheduleCons((cur.year, cur.month), [], delay, false);
  }

  /** One ordinary month, given the promise for the months after it. */
  lemma DriveStep(w: World, o: Oracle, cur: Date, end: Date, delay: int, maxRetries: int)
    requires Valid(cur) && Valid(end) && NotAfter(cur, end)
    requires !(cur.year == MaxYear && cur.month == 12)
    requires !MonthSpec(w, o, cur.year, cur.month, maxRetries).1
    requires var w1 := MonthSpec(w, o, cur.year, cur.month, maxRetries).0;
      var w2 := if delay > 0 then Log(w1, Pause(delay)) else w1;
      var r := Drive(w2, o, NextMonth(cur), end, delay, maxRetries);
      DrivePromise(w2, NextMonth(cur), end, delay, r.0, r.1)
    ensures DrivePromise(w, cur, end, delay, Drive(w, o, cur, end, delay, maxRetries).0, Drive(w, o, cur, end, delay, maxRetries).1)
  {
    var w1 := MonthSpec(w, o, cur.year, cur.month, maxRetries).0;
    var w2 := if delay > 0 then Log(w1, Pause(delay)) else w1;
    var r := Drive(w2, o, NextMonth(cur), end, delay, maxRetries);
    assert Drive(w, o, cur, end, delay, maxRetries) == r;
    MonthSpecDriverEvents(w, o, cur.year, cur.month, maxRetries);
    StepPromise(w, w1, w2, cur, end, delay, r.0, r.1);
  }

  /** The bookkeeping of one ordinary month over plain worlds: `w1` is `w` after the month, `w2`
      after the pause, and the loop goes on from the next month to `(w', status)`. */
  lemma StepPromise(w: World, w1: World, w2: World, cur: Date, end: Date, delay: int, w': World, status: Status)
    requires Valid(cur) && Valid(end) && NotAfter(cur, end)
    requires !(cur.year == MaxYear && cur.month == 12)
    requires DriverEvents(w1.trace) == DriverEvents(w.trace) + [BeginMonth(cur.year, cur.month)]
    requires w2 == if delay > 0 then Log(w1, Pause(delay)) else w1
    requires DrivePromise(w2, NextMonth(cur), end, delay, w', status)
    ensures DrivePromise(w, cur, end, delay, w', status)
  {
    var n := NextMonth(cur);
    DriverEventsAppend(w1.trace, [Pause(delay)]);
    var pause: seq<Event> := if delay > 0 then [Pause(delay)] else [];
    assert DriverEvents(w2.trace) == DriverEvents(w.trace) + [BeginMonth(cur.year, cur.month)] + pause;
    var rest := MonthsFrom(n, end);
    assert MonthsFrom(cur, end) == [(cur.year, cur.month)] + rest;
    if rest == [] {
      assert Before(end, n);
    }
    ScheduleCons((cur.year, cur.month), rest, delay, status == Finished);
    StepEvents(DriverEvents(w.trace), [BeginMonth(cur.year, cur.month)], pause, Schedule(rest, delay, status == Finished));
    if end.year == MaxYear && end.month == 12 {
      NextMonthNotAfter(cur, end);
    }
  }

  lemma StepEvents(e: seq<Event>, b: seq<Event>, p: seq<Event>, t: seq<Event>)
    ensures e + b + p + t == e + (b + p + t)
  {
  }

  /** A range that reaches December 9999 also reaches it from the month after `cur`. */
  lemma NextMonthNotAfter(cur: Date, end: Date)
    requires Valid(cur) && Valid(end) && !(cur.year == MaxYear && cur.month == 12)
    requires end.year == MaxYear && end.month == 12
    ensures NotAfter(NextMonth(cur), end)
  {
  }

  /** An unparsable range or a start after the end makes `run_backfill` return before any month:
      nothing is downloaded, slept or deleted. Any other range is handed to the month loop. */
  lemma BackfillRejects(w: World, o: Oracle, startStr: string, endStr: string, delay: int, maxRetries: int)
    ensures var (w', status) := BackfillSpec(w, o, startStr, endStr, delay, maxRetries);
      var s, e := ParseYMD(startStr), ParseYMD(endStr);
      && (status == BadRange <==> s.None? || e.None?)
      && (status == StartAfterEnd <==> s.Some? && e.Some? && Before(e.value, s.value))
      && ((status == BadRange || status == StartAfterEnd) ==> w' == w)
  {
    var s, e := ParseYMD(startStr), ParseYMD(endStr);
    if s.Some? && e.Some? && !Before(e.value, s.value) {
      DriveSchedule(w, o, s.value, e.value, delay, maxRetries);
    }
  }

  /** `run_backfill` on a valid range announces each calendar month of the range once, in order,
      with a pause after each when `delay_seconds > 0`; it completes unless the range ends in
      December 9999. */
  lemma BackfillSchedule(w: World, o: Oracle, startStr: string, endStr: string, delay: int, maxRetries: int)
    requires ParseYMD(startStr).Some? && ParseYMD(endStr).Some?
    requires NotAfter(ParseYMD(startStr).value, ParseYMD(endStr).value)
    ensures var (w', status) := BackfillSpec(w, o, startStr, endStr, delay, maxRetries);
      var s, e := ParseYMD(startStr).value, ParseYMD(endStr).value;
      && DriverEvents(w'.trace) == DriverEvents(w.trace) + Schedule(MonthsFrom(s, e), delay, status == Finished)
      && |MonthsFrom(s, e)| == MonthIndex(e) - MonthIndex(s) + 1
      && (status == Finished <==> !(e.year == MaxYear && e.month == 12))
  {
    var s, e := ParseYMD(startStr).value, ParseYMD(endStr).value;
    DriveSchedule(w, o, s, e, delay, maxRetries);
    MonthsFromSpan(s, e);
  }
}
