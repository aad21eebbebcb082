/** The adaptive backfill (`src/etl/extract/backfill_by_month.py`): each month of a range is
    downloaded as one file; a month that hits the portal's row limit is deleted and downloaded week
    by week, and a week that hits it is deleted and downloaded day by day. Every download goes
    through a retry wrapper that retries timeouts only.

    The effects are threaded through a `World`: the files of the data directory (by name), the
    trace of what happened (downloader calls with their outcome, sleeps, the log line that opens a
    month), and the number of downloader calls so far. The portal is an `Oracle`: what the browser
    session does on the n-th call for a request. */
module Backfill {
  import opened Text
  import opened Dates
  import opened Ranges
  import opened Names
  import opened Download

  /** The arguments the backfill passes to `download_csv.run`. */
  datatype Request = Request(start: string, end: string, base: string)

  datatype Event =
    | Attempt(req: Request, response: Response)  // one call of `download_csv.run`
    | Backoff(delay: nat)                        // `time.sleep(retry_delay)` between tries
    | BeginMonth(year: int, month: int)          // the log line that opens a month
    | Pause(seconds: int)                        // `time.sleep(delay_seconds)` between months

  datatype World = World(files: set<string>, trace: seq<Event>, calls: nat)

  /** What the browser session does on the n-th downloader call of the run, for a request. */
  type Oracle = (Request, nat) -> Portal

  /** `retry_delay`: no caller passes it, so the default applies. */
  const RetryDelay: nat := 5

  /** One call of `download_csv.run` with row numbers on (the backfill never turns them off). */
  function Call(w: World, o: Oracle, req: Request): (World, Response) {
    var r := Run(req.base, true, o(req, w.calls));
    var files := if r.saved.Some? then w.files + {r.saved.value.name} else w.files;
    (World(files, w.trace + [Attempt(req, r.response)], w.calls + 1), r.response)
  }

  function Log(w: World, e: Event): World {
    w.(trace := w.trace + [e])
  }

  /** `os.remove(path)` when the file exists; removing a missing file changes nothing either. */
  function Remove(w: World, path: string): World {
    w.(files := w.files - {path})
  }

  // ----- _download_data_for_period -----

  /** How `_download_data_for_period` ends: it returns (also when it never tried), re-raises the
      last `TimeoutError`, re-raises `CsvMaxRowsExceededError`, or re-raises any other exception. */
  datatype Outcome = Done | GaveUp | RowLimited(err: CsvMaxRowsExceeded) | Errored

  /** The retry loop from try number `attempt` (0-based) on: a timeout sleeps and tries again while
      tries remain, and is re-raised after the last one; anything else ends it at once. */
  function Retry(w: World, o: Oracle, req: Request, maxRetries: int, attempt: nat): (World, Outcome)
    decreases maxRetries - attempt
  {
    if attempt >= maxRetries then (w, Done)
    else
      var (w1, resp) := Call(w, o, req);
      match resp
      case Ok(_) => (w1, Done)
      case RowLimit(e) => (w1, RowLimited(e))
      case Failed => (w1, Errored)
      case Timeout =>
        if attempt + 1 < maxRetries then Retry(Log(w1, Backoff(RetryDelay)), o, req, maxRetries, attempt + 1)
        else (w1, GaveUp)
  }

  /** `_download_data_for_period`. */
  method DownloadDataForPeriod(w: World, o: Oracle, req: Request, maxRetries: int)
    returns (w': World, out: Outcome)
    ensures (w', out) == Retry(w, o, req, maxRetries, 0)
  {
    var cur := w;
    var attempt: nat := 0;
    while attempt < maxRetries
      invariant Retry(cur, o, req, maxRetries, attempt) == Retry(w, o, req, maxRetries, 0)
      decreases maxRetries - attempt
    {
      var (w1, resp) := Call(cur, o, req);
      match resp {
        case Ok(_) =>
          return w1, Done;
        case RowLimit(e) =>
          return w1, RowLimited(e);
        case Failed =>
          return w1, Errored;
        case Timeout =>
          attempt := attempt + 1;
          if attempt < maxRetries {
            cur := Log(w1, Backoff(RetryDelay));
          } else {
            return w1, GaveUp;
          }
      }
    }
    return cur, Done;
  }

  // ----- _process_days_for_week -----

  /** Every span of a list holds dates `datetime` can represent. */
  predicate SpansValid(rs: seq<DateRange>) {
    forall i :: 0 <= i < |rs| ==> Valid(rs[i].start) && Valid(rs[i].end)
  }

  lemma DailySpecValid(s: string, e: string)
    ensures DailySpec(s, e).Listed? ==> SpansValid(DailySpec(s, e).ranges)
  {
    var ps, pe := ParseDMY(s), ParseDMY(e);
    if ps.Some? && pe.Some? {
      DaysFromShape(ps.value, pe.value);
    }
  }

  /** The request for one day of week part `part`: the day twice, and the name
      `contracts_YYYY-MM-part{part}-day{DD}`. */
  function DayRequest(y: int, m: int, part: nat, r: DateRange): Request
    requires ValidMonth(y, m) && Valid(r.start) && Valid(r.end)
  {
    Request(FormatDMY(r.start), FormatDMY(r.end), DayName(y, m, part, r.start.day))
  }

  /** The day loop: each day is downloaded in turn, and whatever it ends with (a row-limit error,
      a timeout, another error) the loop goes on to the next day; nothing is deleted. */
  function DaysFold(w: World, o: Oracle, y: int, m: int, part: nat, days: seq<DateRange>, maxRetries: int): World
    requires ValidMonth(y, m) && SpansValid(days)
    decreases |days|
  {
    if days == [] then w
    else
      var (w1, _) := Retry(w, o, DayRequest(y, m, part, days[0]), maxRetries, 0);
      DaysFold(w1, o, y, m, part, days[1..], maxRetries)
  }

  /** `_process_days_for_week` as a value: the new world, and whether an exception escapes it (only
      the `OverflowError` of a daily list ending on 31-12-9999). */
  function DaysSpec(w: World, o: Oracle, y: int, m: int, s: string, e: string, part: nat, maxRetries: int): (World, bool)
    requires ValidMonth(y, m)
  {
    match DailySpec(s, e)
    case Overflowed => (w, true)
    case Listed(days) =>
      DailySpecValid(s, e);
      (DaysFold(w, o, y, m, part, days, maxRetries), false)
  }

  /** The `for` loop of `_process_days_for_week` over the daily list. */
  method DownloadDays(w: World, o: Oracle, y: int, m: int, part: nat, days: seq<DateRange>, maxRetries: int)
    returns (w': World)
    requires ValidMonth(y, m) && SpansValid(days)
    ensures w' == DaysFold(w, o, y, m, part, days, maxRetries)
  {
    w' := w;
    var i := 0;
    while i < |days|
      invariant 0 <= i <= |days|
      invariant DaysFold(w', o, y, m, part, days[i..], maxRetries) == DaysFold(w, o, y, m, part, days, maxRetries)
    {
      assert days[i..][1..] == days[i + 1..];
      var w1, _ := DownloadDataForPeriod(w', o, DayRequest(y, m, part, days[i]), maxRetries);
      w' := w1;
      i := i + 1;
    }
  }

  /** `_process_days_for_week`. */
  method ProcessDaysForWeek(w: World, o: Oracle, y: int, m: int, s: string, e: string, part: nat, maxRetries: int)
    returns (w': World, escaped: bool)
    requires ValidMonth(y, m)
    ensures (w', escaped) == DaysSpec(w, o, y, m, s, e, part, maxRetries)
  {
    var daily := DailyRanges(s, e);
    if daily.Overflowed? {
      return w, true;
    }
    DailySpecValid(s, e);
    w' := DownloadDays(w, o, y, m, part, daily.ranges, maxRetries);
    escaped := false;
  }

  // ----- _process_week_with_retries -----

  /** The request for week part `part`: the span's ends as `DD-MM-YYYY`, and the base name
      `contracts_YYYY-MM-part{part}`. */
  function WeekRequest(y: int, m: int, span: DateRange, part: nat): Request
    requires ValidMonth(y, m) && Valid(span.start) && Valid(span.end)
  {
    Request(FormatDMY(span.start), FormatDMY(span.end), WeekName(y, m, part))
  }

  /** `_process_week_with_retries` as a value: the new world, the returned flag (the week was
      downloaded or split into days), and whether an exception escapes. A week that hits the row
      limit has its file deleted and is split into days; any other failure skips the week. */
  function WeekSpec(w: World, o: Oracle, y: int, m: int, span: DateRange, part: nat, maxRetries: int): (World, bool, bool)
    requires ValidMonth(y, m) && Valid(span.start) && Valid(span.end)
  {
    var s, e := FormatDMY(span.start), FormatDMY(span.end);
    var (w1, out) := Retry(w, o, WeekRequest(y, m, span, part), maxRetries, 0);
    match out
    case Done => (w1, true, false)
    case RowLimited(err) =>
      var (w2, escaped) := DaysSpec(Remove(w1, err.filepath), o, y, m, s, e, part, maxRetries);
      (w2, true, escaped)
    case _ => (w1, false, false)
  }

  /** `_process_week_with_retries`. */
  method ProcessWeekWithRetries(w: World, o: Oracle, y: int, m: int, span: DateRange, part: nat, maxRetries: int)
    returns (w': World, processed: bool, escaped: bool)
    requires ValidMonth(y, m) && Valid(span.start) && Valid(span.end)
    ensures (w', processed, escaped) == WeekSpec(w, o, y, m, span, part, maxRetries)
  {
    var s, e := FormatDMY(span.start), FormatDMY(span.end);
    var w1, out := DownloadDataForPeriod(w, o, WeekRequest(y, m, span, part), maxRetries);
    match out {
      case Done =>
        return w1, true, false;
      case RowLimited(err) =>
        w', escaped := ProcessDaysForWeek(Remove(w1, err.filepath), o, y, m, s, e, part, maxRetries);
        processed := true;
      case GaveUp =>
        return w1, false, false;
      case Errored =>
        return w1, false, false;
    }
  }

  // ----- _process_month_with_retries -----

  /** The request for a whole month: its first and last day as `DD-MM-YYYY`, and the base name
      `contracts_YYYY-MM`. */
  function MonthRequest(y: int, m: int): Request
    requires ValidMonth(y, m)
  {
    var (s, e) := FirstAndLastDayOfMonth(y, m);
    Request(s, e, MonthName(y, m))
  }

  /** The week loop from part counter `part` on: the counter goes up by one for every week, whatever
      the week did; an exception escaping a week ends the loop and the month. */
  function WeeksFold(w: World, o: Oracle, y: int, m: int, spans: seq<DateRange>, part: nat, maxRetries: int): (World, bool)
    requires ValidMonth(y, m) && SpansValid(spans)
    decreases |spans|
  {
    if spans == [] then (w, false)
    else
      var (w1, _, escaped) := WeekSpec(w, o, y, m, spans[0], part, maxRetries);
      if escaped then (w1, true) else WeeksFold(w1, o, y, m, spans[1..], part + 1, maxRetries)
  }

  lemma WeekSpansValid(y: int, m: int)
    requires ValidMonth(y, m)
    ensures SpansValid(WeekSpans(y, m))
  {
    WeekSpansIsPartition(y, m);
  }

  /** The row-limit handler of `_process_month_with_retries`, after the month file is deleted:
      the weekly list is computed (an `OverflowError` for December 9999 escapes) and the weeks are
      processed with the part counter from 0. */
  function SplitSpec(w: World, o: Oracle, y: int, m: int, maxRetries: int): (World, bool)
    requires ValidMonth(y, m)
  {
    match WeeklySpec(y, m)
    case Overflowed => (w, true)
    case Listed(ws) =>
      WeekSpansValid(y, m);
      WeeksFold(w, o, y, m, ws, 0, maxRetries)
  }

  /** `_process_month_with_retries` as a value: the new world and whether an exception escapes it.
      The month is announced, then downloaded whole; on the row-limit error the month file is
      deleted and the month is split into weeks. The handler for every other exception swallows
      timeouts and errors alike, but an exception raised while the row-limit handler runs escapes. */
  function MonthSpec(w: World, o: Oracle, y: int, m: int, maxRetries: int): (World, bool)
    requires ValidMonth(y, m)
  {
    var (w1, out) := Retry(Log(w, BeginMonth(y, m)), o, MonthRequest(y, m), maxRetries, 0);
    match out
    case RowLimited(err) => SplitSpec(Remove(w1, err.filepath), o, y, m, maxRetries)
    case _ => (w1, false)
  }

  /** `_process_month_with_retries`. */
  method ProcessMonthWithRetries(w: World, o: Oracle, y: int, m: int, maxRetries: int)
    returns (w': World, escaped: bool)
    requires ValidMonth(y, m)
    ensures (w', escaped) == MonthSpec(w, o, y, m, maxRetries)
  {
    var w1, out := DownloadDataForPeriod(Log(w, BeginMonth(y, m)), o, MonthRequest(y, m), maxRetries);
    if !out.RowLimited? {
      return w1, false;
    }
    w' := Remove(w1, out.err.filepath);
    var weekly := WeeklyRanges(y, m);
    if weekly.Overflowed? {
      return w', true;
    }
    WeekSpansValid(y, m);
    w', escaped := ProcessWeeks(w', o, y, m, weekly.ranges, maxRetries);
  }

  /** The `for` loop of `_process_month_with_retries` over the weekly list, with `part_counter`. */
  method ProcessWeeks(w: World, o: Oracle, y: int, m: int, ws: seq<DateRange>, maxRetries: int)
    returns (w': World, escaped: bool)
    requires ValidMonth(y, m) && SpansValid(ws)
    ensures (w', escaped) == WeeksFold(w, o, y, m, ws, 0, maxRetries)
  {
    w' := w;
    var partCounter: nat := 0;
    while partCounter < |ws|
      invariant partCounter <= |ws|
      invariant WeeksFold(w', o, y, m, ws[partCounter..], partCounter, maxRetries) == WeeksFold(w, o, y, m, ws, 0, maxRetries)
    {
      assert ws[partCounter..][1..] == ws[partCounter + 1..];
      var w1, _, esc := ProcessWeekWithRetries(w', o, y, m, ws[partCounter], partCounter, maxRetries);
      w' := w1;
      if esc {
        return w', true;
      }
      partCounter := partCounter + 1;
    }
    escaped := false;
  }

  // ----- run_backfill -----

  /** How `run_backfill` ends: it returns on an unparsable range or a start after the end, completes
      the loop, breaks out of it when an exception escapes a month, or raises `OverflowError` itself
      when computing the month after December 9999. */
  datatype Status = BadRange | StartAfterEnd | Finished | Stopped | Crashed

  /** Months are counted from year 0 so that consecutive months differ by one. */
  function MonthIndex(d: Date): int {
    d.year * 12 + d.month
  }

  /** The first day of the month after `d`'s. */
  function NextMonth(d: Date): (n: Date)
    requires Valid(d) && !(d.year == MaxYear && d.month == 12)
    ensures Valid(n) && n.day == 1 && MonthIndex(n) == MonthIndex(d) + 1
  {
    if d.month == 12 then Date(d.year + 1, 1, 1) else Date(d.year, d.month + 1, 1)
  }

  /** The month loop from `cur` on. */
  function Drive(w: World, o: Oracle, cur: Date, end: Date, delay: int, maxRetries: int): (World, Status)
    requires Valid(cur) && Valid(end)
    decreases MonthIndex(end) - MonthIndex(cur) + 1
  {
    if Before(end, cur) then (w, Finished)
    else
      var (w1, escaped) := MonthSpec(w, o, cur.year, cur.month, maxRetries);
      if escaped then (w1, Stopped)
      else if cur.year == MaxYear && cur.month == 12 then (w1, Crashed)
      else
        var w2 := if delay > 0 then Log(w1, Pause(delay)) else w1;
        Drive(w2, o, NextMonth(cur), end, delay, maxRetries)
  }

  /** `run_backfill` as a value: both dates are parsed as `YYYY-MM-DD` first, then ordered. */
  function BackfillSpec(w: World, o: Oracle, startStr: string, endStr: string, delay: int, maxRetries: int): (World, Status) {
    var s, e := ParseYMD(startStr), ParseYMD(endStr);
    if s.None? || e.None? then (w, BadRange)
    else if Before(e.value, s.value) then (w, StartAfterEnd)
    else Drive(w, o, s.value, e.value, delay, maxRetries)
  }

  /** `run_backfill`. */
  method RunBackfill(w: World, o: Oracle, startStr: string, endStr: string, delay: int, maxRetries: int)
    returns (w': World, status: Status)
    ensures (w', status) == BackfillSpec(w, o, startStr, endStr, delay, maxRetries)
  {
    var s, e := ParseYMD(startStr), ParseYMD(endStr);
    if s.None? || e.None? {
      return w, BadRange;
    }
    if Before(e.value, s.value) {
      return w, StartAfterEnd;
    }
    var cur := s.value;
    var end := e.value;
    w' := w;
    while !Before(end, cur)
      invariant Valid(cur)
      invariant Drive(w', o, cur, end, delay, maxRetries) == Drive(w, o, s.value, end, delay, maxRetries)
      decreases MonthIndex(end) - MonthIndex(cur) + 1
    {
      var w1, escaped := ProcessMonthWithRetries(w', o, cur.year, cur.month, maxRetries);
      if escaped {
        return w1, Stopped;
      }
      if cur.year == MaxYear && cur.month == 12 {
        return w1, Crashed;
      }
      cur := NextMonth(cur);
      w' := w1;
      if delay > 0 {
        w' := Log(w', Pause(delay));
      }
    }
    status := Finished;
  }
}
