/** Which periods the backfill asks the downloader for, and in what order. A period's retries
    repeat its request after a retry sleep, so the first try of each period is the attempt that
    does not follow a `Backoff`; collapsing the retries leaves one request per period. */
module OrderFacts {
  import opened Dates
  import opened Ranges
  import opened Download
  import opened Backfill
  import opened BackfillFacts

  // ----- Periods of a trace -----

  /** The requests of the first tries in a trace, in order: the attempts that do not follow a retry
      sleep. `afterBackoff` says whether the event just before `t` was one. */
  function Periods(t: seq<Event>, afterBackoff: bool): seq<Request>
    decreases |t|
  {
    if t == [] then []
    else (if t[0].Attempt? && !afterBackoff then [t[0].req] else []) + Periods(t[1..], t[0].Backoff?)
  }

  /** Whether the last event of `t`, or the one before it when `t` is empty, is a retry sleep. */
  function EndsInBackoff(t: seq<Event>, afterBackoff: bool): bool {
    if t == [] then afterBackoff else t[|t| - 1].Backoff?
  }

  /** Between `w` and `w'` the trace only grew, the downloader was asked for exactly the periods
      `reqs`, in this order and retries aside, and the new events do not end in a retry sleep. */
  predicate AskedFor(w: World, w': World, reqs: seq<Request>) {
    && w.trace <= w'.trace
    && Periods(w'.trace[|w.trace|..], false) == reqs
    && !EndsInBackoff(w'.trace[|w.trace|..], false)
  }

  lemma {:induction false} PeriodsAppend(a: seq<Event>, b: seq<Event>, f: bool)
    ensures Periods(a + b, f) == Periods(a, f) + Periods(b, EndsInBackoff(a, f))
    decreases |a|
  {
    if a != [] {
      assert (a + b)[0] == a[0];
      assert (a + b)[1..] == a[1..] + b;
      PeriodsAppend(a[1..], b, a[0].Backoff?);
      if |a| > 1 {
        assert a[1..][|a| - 2] == a[|a| - 1];
      }
    } else {
      assert a + b == b;
    }
  }

  /** The tries of one period hold a single first try, and end with an attempt. */
  lemma {:induction false} PeriodsTries(req: Request, rs: seq<Response>, f: bool)
    requires rs != []
    ensures Periods(Tries(req, rs), f) == (if f then [] else [req])
    ensures Tries(req, rs) != [] && Tries(req, rs)[|Tries(req, rs)| - 1].Attempt?
    decreases |rs|
  {
    if |rs| > 1 {
      var head := [Attempt(req, rs[0]), Backoff(RetryDelay)];
      var rest := Tries(req, rs[1..]);
      PeriodsTries(req, rs[1..], true);
      assert Tries(req, rs) == head + rest;
      PeriodsAppend(head, rest, f);
      assert head[1..][1..] == [];
      assert Periods(head, f) == (if f then [] else [req]);
      assert (head + rest)[|head + rest| - 1] == rest[|rest| - 1];
    }
  }

  lemma AskedForNothing(w: World, w': World)
    requires w'.trace == w.trace
    ensures AskedFor(w, w', [])
  {
    assert w'.trace[|w.trace|..] == [];
  }

  /** An event that is neither a try nor a retry sleep asks for nothing. */
  lemma AskedForAnnouncement(w: World, e: Event)
    requires !e.Attempt? && !e.Backoff?
    ensures AskedFor(w, Log(w, e), [])
  {
    var t := Log(w, e).trace[|w.trace|..];
    assert t == [e];
    assert t[1..] == [];
    assert Periods(t, false) == [] + Periods([], e.Backoff?);
    assert EndsInBackoff(t, false) == t[0].Backoff?;
  }

  lemma AskedForAppend(w1: World, w2: World, w3: World, r1: seq<Request>, r2: seq<Request>)
    requires AskedFor(w1, w2, r1) && AskedFor(w2, w3, r2)
    ensures AskedFor(w1, w3, r1 + r2)
  {
    var a, b := w2.trace[|w1.trace|..], w3.trace[|w2.trace|..];
    assert w3.trace[|w1.trace|..] == a + b;
    PeriodsAppend(a, b, false);
    if b != [] {
      assert (a + b)[|a + b| - 1] == b[|b| - 1];
    }
  }

  // ----- The retry wrapper -----

  /** `_download_data_for_period` asks for its own period once, however often it retries it, and
      for nothing when it has no tries. */
  lemma RetryAskedFor(w: World, o: Oracle, req: Request, maxRetries: int)
    ensures AskedFor(w, Retry(w, o, req, maxRetries, 0).0, if maxRetries > 0 then [req] else [])
  {
    RetryTrace(w, o, req, maxRetries, 0);
    var w' := Retry(w, o, req, maxRetries, 0).0;
    if maxRetries > 0 {
      var rs :| RetriedWith(w, w', Retry(w, o, req, maxRetries, 0).1, req, rs, maxRetries, 0);
      assert w'.trace[|w.trace|..] == Tries(req, rs);
      PeriodsTries(req, rs, false);
    } else {
      AskedForNothing(w, w');
    }
  }

  // ----- Days -----

  /** The request of each day of the list, in order. */
  function DayRequests(y: int, m: int, part: nat, days: seq<DateRange>): (r: seq<Request>)
    requires ValidMonth(y, m) && SpansValid(days)
    ensures |r| == |days|
    ensures forall i :: 0 <= i < |days| ==> r[i] == DayRequest(y, m, part, days[i])
    decreases |days|
  {
    if days == [] then [] else [DayRequest(y, m, part, days[0])] + DayRequests(y, m, part, days[1..])
  }

  /** The day loop of `_process_days_for_week` asks for every day of its list exactly once, in
      the list's order, whatever each day ends with (given at least one try per period). */
  lemma {:induction false} DaysFoldAskedFor(w: World, o: Oracle, y: int, m: int, part: nat, days: seq<DateRange>, maxRetries: int)
    requires ValidMonth(y, m) && SpansValid(days)
    ensures AskedFor(w, DaysFold(w, o, y, m, part, days, maxRetries),
                     if maxRetries > 0 then DayRequests(y, m, part, days) else [])
    decreases |days|
  {
    if days == [] {
      AskedForNothing(w, w);
    } else {
      var req := DayRequest(y, m, part, days[0]);
      var (w1, _) := Retry(w, o, req, maxRetries, 0);
      RetryAskedFor(w, o, req, maxRetries);
      DaysFoldAskedFor(w1, o, y, m, part, days[1..], maxRetries);
      AskedForAppend(w, w1, DaysFold(w, o, y, m, part, days, maxRetries),
                     if maxRetries > 0 then [req] else [],
                     if maxRetries > 0 then DayRequests(y, m, part, days[1..]) else []);
    }
  }

  /** The requests for the days of a week span, in order. */
  function DayPlan(y: int, m: int, part: nat, span: DateRange): (r: seq<Request>)
    requires ValidMonth(y, m) && Valid(span.start) && Valid(span.end)
    ensures NotAfter(span.start, span.end) ==> |r| == Ordinal(span.end) - Ordinal(span.start) + 1
  {
    DaysFromShape(span.start, span.end);
    if NotAfter(span.start, span.end) then DaysFromCount(span.start, span.end); DayRequests(y, m, part, DaysFrom(span.start, span.end))
    else DayRequests(y, m, part, DaysFrom(span.start, span.end))
  }

  // ----- Weeks -----

  /** `_process_days_for_week` on a week span asks for each day of the span, in order, unless the
      day list overflows, in which case it asks for nothing. */
  lemma DaysSpecAskedFor(w: World, o: Oracle, y: int, m: int, span: DateRange, part: nat, maxRetries: int)
    requires ValidMonth(y, m) && Valid(span.start) && Valid(span.end)
    ensures var (w', escaped) := DaysSpec(w, o, y, m, FormatDMY(span.start), FormatDMY(span.end), part, maxRetries);
      AskedFor(w, w', if maxRetries > 0 && !escaped then DayPlan(y, m, part, span) else [])
  {
    var s, e := FormatDMY(span.start), FormatDMY(span.end);
    ParseFormatDMY(span.start);
    ParseFormatDMY(span.end);
    DaysFromShape(span.start, span.end);
    if DailySpec(s, e).Listed? {
      assert DailySpec(s, e).ranges == DaysFrom(span.start, span.end);
      DaysFoldAskedFor(w, o, y, m, part, DaysFrom(span.start, span.end), maxRetries);
    } else {
      AskedForNothing(w, w);
    }
  }

  /** `_process_week_with_retries` asks for its week; when the week hits the row limit and its
      daily list does not overflow, it then asks for each of the week's days, in order. */
  lemma WeekSpecAskedFor(w: World, o: Oracle, y: int, m: int, span: DateRange, part: nat, maxRetries: int)
    requires ValidMonth(y, m) && Valid(span.start) && Valid(span.end)
    ensures var req := WeekRequest(y, m, span, part);
      var (w', _, escaped) := WeekSpec(w, o, y, m, span, part, maxRetries);
      AskedFor(w, w',
        if maxRetries <= 0 then []
        else [req] + (if Retry(w, o, req, maxRetries, 0).1.RowLimited? && !escaped then DayPlan(y, m, part, span) else []))
  {
    var req := WeekRequest(y, m, span, part);
    var (w1, out) := Retry(w, o, req, maxRetries, 0);
    RetryAskedFor(w, o, req, maxRetries);
    if out.RowLimited? {
      var w2 := Remove(w1, out.err.filepath);
      AskedForNothing(w1, w2);
      var (w', escaped) := DaysSpec(w2, o, y, m, FormatDMY(span.start), FormatDMY(span.end), part, maxRetries);
      DaysSpecAskedFor(w2, o, y, m, span, part, maxRetries);
      var head := if maxRetries > 0 then [req] else [];
      AskedForAppend(w1, w2, w', [], if maxRetries > 0 && !escaped then DayPlan(y, m, part, span) else []);
      AskedForAppend(w, w1, w', head, [] + (if maxRetries > 0 && !escaped then DayPlan(y, m, part, span) else []));
      assert WeekSpec(w, o, y, m, span, part, maxRetries) == (w', true, escaped);
    } else {
      assert WeekSpec(w, o, y, m, span, part, maxRetries).0 == w1;
      assert !WeekSpec(w, o, y, m, span, part, maxRetries).2;
      assert [req] + [] == [req];
    }
  }

  /** The requests of the first `|split|` weeks of a list, the part counter starting at `part`:
      each week's request, followed by its days' requests when `split` says it was split. */
  function WeeksPlan(y: int, m: int, spans: seq<DateRange>, part: nat, split: seq<bool>): seq<Request>
    requires ValidMonth(y, m) && SpansValid(spans) && |split| <= |spans|
    decreases |split|
  {
    if split == [] then []
    else
      [WeekRequest(y, m, spans[0], part)]
      + (if split[0] then DayPlan(y, m, part, spans[0]) else [])
      + WeeksPlan(y, m, spans[1..], part + 1, split[1..])
  }

  /** One week's requests in front of the plan of the weeks after it give the plan of the list. */
  lemma WeeksPlanStep(w: World, w1: World, w': World, y: int, m: int, spans: seq<DateRange>, part: nat,
                      maxRetries: int, b: bool, head: seq<Request>, split': seq<bool>)
    requires ValidMonth(y, m) && SpansValid(spans) && spans != [] && |split'| <= |spans| - 1
    requires head == if maxRetries <= 0 then []
                     else [WeekRequest(y, m, spans[0], part)] + (if b then DayPlan(y, m, part, spans[0]) else [])
    requires AskedFor(w, w1, head)
    requires AskedFor(w1, w', if maxRetries > 0 then WeeksPlan(y, m, spans[1..], part + 1, split') else [])
    ensures AskedFor(w, w', if maxRetries > 0 then WeeksPlan(y, m, spans, part, [b] + split') else [])
  {
    var tail := if maxRetries > 0 then WeeksPlan(y, m, spans[1..], part + 1, split') else [];
    AskedForAppend(w, w1, w', head, tail);
    assert ([b] + split')[1..] == split';
  }

  /** Which weeks of the list the week loop goes through, and which of them it splits into days:
      one entry per week it asks for, `true` where the week hit the row limit and its days were
      listed. */
  function WeeksSplit(w: World, o: Oracle, y: int, m: int, spans: seq<DateRange>, part: nat, maxRetries: int): (r: seq<bool>)
    requires ValidMonth(y, m) && SpansValid(spans)
    ensures |r| <= |spans|
    decreases |spans|
  {
    if spans == [] then []
    else
      var (w1, _, esc1) := WeekSpec(w, o, y, m, spans[0], part, maxRetries);
      var b := Retry(w, o, WeekRequest(y, m, spans[0], part), maxRetries, 0).1.RowLimited? && !esc1;
      if esc1 then [b] else [b] + WeeksSplit(w1, o, y, m, spans[1..], part + 1, maxRetries)
  }

  /** Only an escaping exception stops the week loop before the end of its list. */
  lemma {:induction false} WeeksSplitLength(w: World, o: Oracle, y: int, m: int, spans: seq<DateRange>, part: nat, maxRetries: int)
    requires ValidMonth(y, m) && SpansValid(spans)
    ensures !WeeksFold(w, o, y, m, spans, part, maxRetries).1 ==> |WeeksSplit(w, o, y, m, spans, part, maxRetries)| == |spans|
    decreases |spans|
  {
    if spans != [] {
      var (w1, _, esc1) := WeekSpec(w, o, y, m, spans[0], part, maxRetries);
      if !esc1 {
        WeeksSplitLength(w1, o, y, m, spans[1..], part + 1, maxRetries);
      }
    }
  }

  /** The week loop asks for every week of its list once, in order, with part counters counting up
      from `part`, each followed by its days when it was split; only an escaping exception cuts
      the list short. */
  lemma {:induction false} WeeksFoldAskedFor(w: World, o: Oracle, y: int, m: int, spans: seq<DateRange>, part: nat, maxRetries: int)
    requires ValidMonth(y, m) && SpansValid(spans)
    ensures AskedFor(w, WeeksFold(w, o, y, m, spans, part, maxRetries).0,
                     if maxRetries > 0 then WeeksPlan(y, m, spans, part, WeeksSplit(w, o, y, m, spans, part, maxRetries)) else [])
    decreases |spans|
  {
    if spans == [] {
      AskedForNothing(w, w);
    } else {
      var req := WeekRequest(y, m, spans[0], part);
      var (w1, _, esc1) := WeekSpec(w, o, y, m, spans[0], part, maxRetries);
      var b := Retry(w, o, req, maxRetries, 0).1.RowLimited? && !esc1;
      var head := if maxRetries <= 0 then [] else [req] + (if b then DayPlan(y, m, part, spans[0]) else []);
      WeekSpecAskedFor(w, o, y, m, spans[0], part, maxRetries);
      if esc1 {
        AskedForNothing(w1, w1);
        WeeksPlanStep(w, w1, w1, y, m, spans, part, maxRetries, b, head, []);
        assert [b] + [] == [b];
      } else {
        var w' := WeeksFold(w1, o, y, m, spans[1..], part + 1, maxRetries).0;
        WeeksFoldAskedFor(w1, o, y, m, spans[1..], part + 1, maxRetries);
        WeeksPlanStep(w, w1, w', y, m, spans, part, maxRetries, b, head, WeeksSplit(w1, o, y, m, spans[1..], part + 1, maxRetries));
      }
    }
  }

  // ----- Months -----

  /** A month that hit the row limit and whose weekly list was computed: the month's request, then
      the week plan of the list from part 0. */
  lemma MonthSplitAskedFor(w: World, o: Oracle, y: int, m: int, maxRetries: int)
    requires ValidMonth(y, m) && WeeklySpec(y, m).Listed?
    requires Retry(Log(w, BeginMonth(y, m)), o, MonthRequest(y, m), maxRetries, 0).1.RowLimited?
    ensures var (w1, out) := Retry(Log(w, BeginMonth(y, m)), o, MonthRequest(y, m), maxRetries, 0);
      AskedFor(w, MonthSpec(w, o, y, m, maxRetries).0,
        [MonthRequest(y, m)]
        + (WeekSpansValid(y, m);
           WeeksPlan(y, m, WeeklySpec(y, m).ranges, 0,
                     WeeksSplit(Remove(w1, out.err.filepath), o, y, m, WeeklySpec(y, m).ranges, 0, maxRetries))))
  {
    var w0 := Log(w, BeginMonth(y, m));
    var (w1, out) := Retry(w0, o, MonthRequest(y, m), maxRetries, 0);
    assert maxRetries > 0;
    AskedForAnnouncement(w, BeginMonth(y, m));
    RetryAskedFor(w0, o, MonthRequest(y, m), maxRetries);
    AskedForAppend(w, w0, w1, [], [MonthRequest(y, m)]);
    var w2 := Remove(w1, out.err.filepath);
    AskedForNothing(w1, w2);
    AskedForAppend(w, w1, w2, [MonthRequest(y, m)], []);
    WeekSpansValid(y, m);
    var ws := WeeklySpec(y, m).ranges;
    WeeksFoldAskedFor(w2, o, y, m, ws, 0, maxRetries);
    AskedForAppend(w, w2, WeeksFold(w2, o, y, m, ws, 0, maxRetries).0, [MonthRequest(y, m)],
                   WeeksPlan(y, m, ws, 0, WeeksSplit(w2, o, y, m, ws, 0, maxRetries)));
  }

  /** `_process_month_with_retries` asks for its whole month first (announcing the month asks for
      nothing); when the month hits the row limit and its weekly list is computed, it then asks for
      the weeks of that list in order, the part counter from 0, each followed by its days when it was
      split. */
  lemma MonthSpecAskedFor(w: World, o: Oracle, y: int, m: int, maxRetries: int)
    requires ValidMonth(y, m)
    ensures var (w1, out) := Retry(Log(w, BeginMonth(y, m)), o, MonthRequest(y, m), maxRetries, 0);
      AskedFor(w, MonthSpec(w, o, y, m, maxRetries).0,
        if maxRetries <= 0 then []
        else if out.RowLimited? && WeeklySpec(y, m).Listed? then
          WeekSpansValid(y, m);
          [MonthRequest(y, m)]
          + WeeksPlan(y, m, WeeklySpec(y, m).ranges, 0,
                      WeeksSplit(Remove(w1, out.err.filepath), o, y, m, WeeklySpec(y, m).ranges, 0, maxRetries))
        else [MonthRequest(y, m)])
  {
    var w0 := Log(w, BeginMonth(y, m));
    var (w1, out) := Retry(w0, o, MonthRequest(y, m), maxRetries, 0);
    if out.RowLimited? && WeeklySpec(y, m).Listed? {
      MonthSplitAskedFor(w, o, y, m, maxRetries);
    } else {
      AskedForAnnouncement(w, BeginMonth(y, m));
      RetryAskedFor(w0, o, MonthRequest(y, m), maxRetries);
      AskedForAppend(w, w0, w1, [], if maxRetries > 0 then [MonthRequest(y, m)] else []);
      if out.RowLimited? {
        AskedForNothing(w1, Remove(w1, out.err.filepath));
        AskedForAppend(w, w1, Remove(w1, out.err.filepath), [MonthRequest(y, m)], []);
      }
    }
  }
}
