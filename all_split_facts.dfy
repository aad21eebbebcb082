/** What the backfill asks for in a month where every export of the month and of its weeks is over
    the portal's row limit: the month, then every week, each followed by every one of its days. */
module AllSplitFacts {
  import opened Captcha
  import opened Dates
  import opened Ranges
  import opened Download
  import opened Backfill
  import opened OrderFacts

  /** The split flags of `n` weeks that were all split into days. */
  function EverySplit(n: nat): (r: seq<bool>)
    ensures |r| == n && forall i :: 0 <= i < n ==> r[i]
  {
    if n == 0 then [] else [true] + EverySplit(n - 1)
  }

  /** A browser session that serves an export with more rows than the limit, whose CAPTCHA is
      answered and whose file reads back and numbers without error. */
  predicate OverLimit(p: Portal) {
    && p.Served? && SolveCaptcha(Current, p.question).Some?
    && !p.countFails && !p.numberingFails && |p.rows| > MaxRowsLimit
  }

  /** Every export of the month is over the limit. */
  ghost predicate MonthOverLimit(o: Oracle, y: int, m: int)
    requires ValidMonth(y, m)
  {
    forall n: nat {:trigger OverLimit(o(MonthRequest(y, m), n))} :: OverLimit(o(MonthRequest(y, m), n))
  }

  /** Every export of every week of the month, whatever its span and part, is over the limit. */
  ghost predicate WeeksOverLimit(o: Oracle, y: int, m: int)
    requires ValidMonth(y, m)
  {
    forall span: DateRange, p: nat, n: nat {:trigger OverLimit(o(WeekRequest(y, m, span, p), n))} ::
      Valid(span.start) && Valid(span.end) ==> OverLimit(o(WeekRequest(y, m, span, p), n))
  }

  /** A period whose first export is over the limit ends its first try with the row-limit error. */
  lemma RetryOverLimit(w: World, o: Oracle, req: Request, maxRetries: int)
    requires maxRetries > 0
    requires OverLimit(o(req, w.calls))
    ensures Retry(w, o, req, maxRetries, 0).1.RowLimited?
  {
    RunSaves(req.base, true, o(req, w.calls));
    RunRowLimit(req.base, true, o(req, w.calls));
  }

  /** A month whose exports are all over the limit ends its first try with the row-limit error. */
  lemma MonthFirstTryLimited(w: World, o: Oracle, y: int, m: int, maxRetries: int)
    requires ValidMonth(y, m) && maxRetries > 0 && MonthOverLimit(o, y, m)
    ensures Retry(w, o, MonthRequest(y, m), maxRetries, 0).1.RowLimited?
  {
    assert OverLimit(o(MonthRequest(y, m), w.calls));
    RetryOverLimit(w, o, MonthRequest(y, m), maxRetries);
  }

  /** A week whose exports are all over the limit ends its first try with the row-limit error. */
  lemma WeekFirstTryLimited(w: World, o: Oracle, y: int, m: int, span: DateRange, part: nat, maxRetries: int)
    requires ValidMonth(y, m) && Valid(span.start) && Valid(span.end) && maxRetries > 0
    requires WeeksOverLimit(o, y, m)
    ensures Retry(w, o, WeekRequest(y, m, span, part), maxRetries, 0).1.RowLimited?
  {
    assert OverLimit(o(WeekRequest(y, m, span, part), w.calls));
    RetryOverLimit(w, o, WeekRequest(y, m, span, part), maxRetries);
  }

  /** A week that hit the row limit and does not end on the last date has its daily list computed,
      so nothing escapes and the week is split into days. */
  lemma WeekLimitedNoEscape(w: World, o: Oracle, y: int, m: int, span: DateRange, part: nat, maxRetries: int)
    requires ValidMonth(y, m) && Valid(span.start) && Valid(span.end) && span.end != LastDate
    requires Retry(w, o, WeekRequest(y, m, span, part), maxRetries, 0).1.RowLimited?
    ensures !WeekSpec(w, o, y, m, span, part, maxRetries).2
  {
    var (w1, out) := Retry(w, o, WeekRequest(y, m, span, part), maxRetries, 0);
    DaysSpecListed(Remove(w1, out.err.filepath), o, y, m, span, part, maxRetries);
  }

  /** The daily list of a span that does not end on the last date does not overflow. */
  lemma DaysSpecListed(w: World, o: Oracle, y: int, m: int, span: DateRange, part: nat, maxRetries: int)
    requires ValidMonth(y, m) && Valid(span.start) && Valid(span.end) && span.end != LastDate
    ensures !DaysSpec(w, o, y, m, FormatDMY(span.start), FormatDMY(span.end), part, maxRetries).1
  {
    ParseFormatDMY(span.start);
    ParseFormatDMY(span.end);
  }

  /** A week whose exports are all over the limit and that does not end on the last date: the
      week is asked for, then every one of its days, and nothing escapes. */
  lemma WeekAllSplitAskedFor(w: World, o: Oracle, y: int, m: int, span: DateRange, part: nat, maxRetries: int)
    requires ValidMonth(y, m) && Valid(span.start) && Valid(span.end) && maxRetries > 0
    requires span.end != LastDate && WeeksOverLimit(o, y, m)
    ensures !WeekSpec(w, o, y, m, span, part, maxRetries).2
    ensures AskedFor(w, WeekSpec(w, o, y, m, span, part, maxRetries).0,
                     [WeekRequest(y, m, span, part)] + DayPlan(y, m, part, span))
  {
    WeekFirstTryLimited(w, o, y, m, span, part, maxRetries);
    WeekLimitedNoEscape(w, o, y, m, span, part, maxRetries);
    WeekSpecAskedFor(w, o, y, m, span, part, maxRetries);
  }

  /** When every week is over the limit and no span ends on the last date, the week loop asks for
      every week of its list in order, each followed by every one of its days, and nothing escapes. */
  lemma {:induction false} WeeksFoldAllSplit(w: World, o: Oracle, y: int, m: int, spans: seq<DateRange>, part: nat, maxRetries: int)
    requires ValidMonth(y, m) && SpansValid(spans) && maxRetries > 0
    requires forall i :: 0 <= i < |spans| ==> spans[i].end != LastDate
    requires WeeksOverLimit(o, y, m)
    ensures !WeeksFold(w, o, y, m, spans, part, maxRetries).1
    ensures AskedFor(w, WeeksFold(w, o, y, m, spans, part, maxRetries).0, WeeksPlan(y, m, spans, part, EverySplit(|spans|)))
    decreases |spans|
  {
    if spans == [] {
      AskedForNothing(w, w);
    } else {
      var span := spans[0];
      WeekAllSplitAskedFor(w, o, y, m, span, part, maxRetries);
      var w1 := WeekSpec(w, o, y, m, span, part, maxRetries).0;
      var w' := WeeksFold(w1, o, y, m, spans[1..], part + 1, maxRetries).0;
      WeeksFoldAllSplit(w1, o, y, m, spans[1..], part + 1, maxRetries);
      WeeksPlanStep(w, w1, w', y, m, spans, part, maxRetries, true,
                    [WeekRequest(y, m, span, part)] + DayPlan(y, m, part, span), EverySplit(|spans| - 1));
    }
  }

  /** The tail of a partition of days `d..last` partitions the days after its first span. */
  lemma PartitionTail(y: int, m: int, w1: int, last: int, d: int, ws: seq<DateRange>)
    requires PartitionFrom(y, m, w1, last, d, ws) && |ws| > 1
    ensures PartitionFrom(y, m, w1, last, ws[0].end.day + 1, ws[1..])
  {
    assert ws[1..][0] == ws[1];
    forall i | 0 < i < |ws| - 1
      ensures ws[1..][i].start.day == ws[1..][i - 1].end.day + 1
    {
      assert ws[1..][i] == ws[i + 1] && ws[1..][i - 1] == ws[i];
    }
  }

  /** The days of a span within a month, one request each. */
  lemma DayPlanInMonth(y: int, m: int, part: nat, span: DateRange)
    requires ValidMonth(y, m) && SpanIn(y, m, DaysInMonth(y, m), span)
    ensures Valid(span.start) && Valid(span.end)
    ensures |DayPlan(y, m, part, span)| == span.end.day - span.start.day + 1
  {
    assert NotAfter(span.start, span.end);
  }

  /** The plan of a list whose every week is split: the first week, its days, then the plan of the rest. */
  lemma AllSplitPlanCons(y: int, m: int, ws: seq<DateRange>, part: nat)
    requires ValidMonth(y, m) && SpansValid(ws) && ws != []
    ensures WeeksPlan(y, m, ws, part, EverySplit(|ws|))
      == [WeekRequest(y, m, ws[0], part)] + DayPlan(y, m, part, ws[0]) + WeeksPlan(y, m, ws[1..], part + 1, EverySplit(|ws| - 1))
  {
    var all := EverySplit(|ws|);
    assert all == [true] + EverySplit(|ws| - 1);
    assert all[0] && all[1..] == EverySplit(|ws| - 1);
  }

  /** When every week of a partition of days `d..last` is split, the plan holds one request per
      week and one per day. */
  lemma {:induction false} AllSplitPlanLength(y: int, m: int, w1: int, d: int, ws: seq<DateRange>, part: nat)
    requires ValidMonth(y, m) && SpansValid(ws)
    requires PartitionFrom(y, m, w1, DaysInMonth(y, m), d, ws)
    ensures |WeeksPlan(y, m, ws, part, EverySplit(|ws|))| == |ws| + DaysInMonth(y, m) - d + 1
    decreases |ws|
  {
    var span := ws[0];
    assert SpanIn(y, m, DaysInMonth(y, m), span);
    DayPlanInMonth(y, m, part, span);
    AllSplitPlanCons(y, m, ws, part);
    if |ws| > 1 {
      PartitionTail(y, m, w1, DaysInMonth(y, m), d, ws);
      assert SpansValid(ws[1..]);
      AllSplitPlanLength(y, m, w1, span.end.day + 1, ws[1..], part + 1);
    } else {
      assert EverySplit(|ws| - 1) == [];
    }
  }

  /** A month outside December 9999 whose month and week exports are all over the limit: the
      backfill asks for the month, then for each week of the month in order, each followed by every
      day of that week, named after the week's part and the day. Apart from the month and the weeks
      that is one request per day of the month. December 9999 is excluded, since there the weekly
      list itself overflows. */
  lemma AllSplitMonth(w: World, o: Oracle, y: int, m: int, maxRetries: int)
    requires ValidMonth(y, m) && !(y == MaxYear && m == 12) && maxRetries > 0
    requires MonthOverLimit(o, y, m) && WeeksOverLimit(o, y, m)
    ensures var ws := WeekSpans(y, m);
      && SpansValid(ws)
      && AskedFor(w, MonthSpec(w, o, y, m, maxRetries).0,
                  [MonthRequest(y, m)] + WeeksPlan(y, m, ws, 0, EverySplit(|ws|)))
      && |WeeksPlan(y, m, ws, 0, EverySplit(|ws|))| == |ws| + DaysInMonth(y, m)
  {
    WeekSpansValid(y, m);
    WeekSpansIsPartition(y, m);
    var ws := WeekSpans(y, m);
    var w0 := Log(w, BeginMonth(y, m));
    MonthFirstTryLimited(w0, o, y, m, maxRetries);
    var (w1, out) := Retry(w0, o, MonthRequest(y, m), maxRetries, 0);
    assert WeeklySpec(y, m) == Listed(ws);
    forall i | 0 <= i < |ws|
      ensures ws[i].end != LastDate
    {
      assert SpanIn(y, m, DaysInMonth(y, m), ws[i]);
    }
    AskedForAnnouncement(w, BeginMonth(y, m));
    RetryAskedFor(w0, o, MonthRequest(y, m), maxRetries);
    AskedForAppend(w, w0, w1, [], [MonthRequest(y, m)]);
    var w2 := Remove(w1, out.err.filepath);
    AskedForNothing(w1, w2);
    AskedForAppend(w, w1, w2, [MonthRequest(y, m)], []);
    WeeksFoldAllSplit(w2, o, y, m, ws, 0, maxRetries);
    assert MonthSpec(w, o, y, m, maxRetries).0 == WeeksFold(w2, o, y, m, ws, 0, maxRetries).0;
    AskedForAppend(w, w2, WeeksFold(w2, o, y, m, ws, 0, maxRetries).0, [MonthRequest(y, m)],
                   WeeksPlan(y, m, ws, 0, EverySplit(|ws|)));
    AllSplitPlanLength(y, m, FirstWeekday(y, m), 1, ws, 0);
  }
}
