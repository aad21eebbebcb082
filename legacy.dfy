/** The older backfill (`src/etl/backfill_by_month.py`): every month of the range is downloaded
    once, as one file named `contracts_YYYY-MM`, through the older `download_csv.run`, which
    swallows every exception and returns a path or `None`. There are no retries, no splitting into
    weeks or days, no pauses, and nothing is ever deleted.

    The effects are threaded through a `State`: the files of the data directory and, month by
    month, the request made and what `run` returned. The portal is the same `Oracle` as for the
    newer backfill, asked with the number of calls made so far. */
module LegacyBackfill {
  import opened Text
  import opened Dates
  import opened Ranges
  import opened Names
  import opened Captcha
  import opened Download
  import opened Backfill
  import opened BackfillFacts

  /** One month: the arguments passed to `run` and the path it returned, if any. */
  datatype Visit = Visit(req: Request, path: Option<string>)

  datatype State = State(files: set<string>, visits: seq<Visit>)

  /** One call of the older `run`; the file it saved stays, whatever it returned. */
  function Fetch(st: State, o: Oracle, req: Request): State {
    var (saved, path) := LegacyRun(req.base, o(req, |st.visits|));
    var files := if saved.Some? then st.files + {saved.value.name} else st.files;
    State(files, st.visits + [Visit(req, path)])
  }

  /** The month loop from `cur` on. Computing the month after December 9999 raises out of
      `run_backfill`. */
  function LegacyDrive(st: State, o: Oracle, cur: Date, end: Date): (State, Status)
    requires Valid(cur) && Valid(end)
    decreases MonthIndex(end) - MonthIndex(cur) + 1
  {
    if Before(end, cur) then (st, Finished)
    else
      var st1 := Fetch(st, o, MonthRequest(cur.year, cur.month));
      if cur.year == MaxYear && cur.month == 12 then (st1, Crashed)
      else LegacyDrive(st1, o, NextMonth(cur), end)
  }

  /** `run_backfill` of the older copy as a value: both dates are parsed as `YYYY-MM-DD`, then
      ordered, exactly as in the newer copy. */
  function LegacySpec(st: State, o: Oracle, startStr: string, endStr: string): (State, Status) {
    var s, e := ParseYMD(startStr), ParseYMD(endStr);
    if s.None? || e.None? then (st, BadRange)
    else if Before(e.value, s.value) then (st, StartAfterEnd)
    else LegacyDrive(st, o, s.value, e.value)
  }

  /** `run_backfill` of the older copy. */
  method RunLegacyBackfill(st: State, o: Oracle, startStr: string, endStr: string)
    returns (st': State, status: Status)
    ensures (st', status) == LegacySpec(st, o, startStr, endStr)
  {
    var s, e := ParseYMD(startStr), ParseYMD(endStr);
    if s.None? || e.None? {
      return st, BadRange;
    }
    if Before(e.value, s.value) {
      return st, StartAfterEnd;
    }
    var cur := s.value;
    var end := e.value;
    st' := st;
    while !Before(end, cur)
      invariant Valid(cur)
      invariant LegacyDrive(st', o, cur, end) == LegacyDrive(st, o, s.value, end)
      decreases MonthIndex(end) - MonthIndex(cur) + 1
    {
      st' := Fetch(st', o, MonthRequest(cur.year, cur.month));
      if cur.year == MaxYear && cur.month == 12 {
        return st', Crashed;
      }
      cur := NextMonth(cur);
    }
    status := Finished;
  }

  // ----- What the older backfill guarantees -----

  predicate MonthsValid(ms: seq<(int, int)>) {
    forall i :: 0 <= i < |ms| ==> ValidMonth(ms[i].0, ms[i].1)
  }

  lemma {:induction false} MonthsFromValid(cur: Date, end: Date)
    requires Valid(cur) && Valid(end)
    ensures MonthsValid(MonthsFrom(cur, end))
    decreases MonthIndex(end) - MonthIndex(cur) + 1
  {
    if !Before(end, cur) && !(cur.year == MaxYear && cur.month == 12) {
      MonthsFromValid(NextMonth(cur), end);
    }
  }

  /** The month requests for a list of months, in order. */
  function MonthRequests(ms: seq<(int, int)>): seq<Request>
    requires MonthsValid(ms)
  {
    if ms == [] then [] else [MonthRequest(ms[0].0, ms[0].1)] + MonthRequests(ms[1..])
  }

  /** The files the months of a list can leave. */
  function MonthFiles(ms: seq<(int, int)>): set<string>
    requires MonthsValid(ms)
  {
    set i | 0 <= i < |ms| :: CsvFile(MonthName(ms[i].0, ms[i].1))
  }

  function Requests(vs: seq<Visit>): seq<Request> {
    if vs == [] then [] else [vs[0].req] + Requests(vs[1..])
  }

  lemma {:induction false} RequestsAppend(a: seq<Visit>, b: seq<Visit>)
    ensures Requests(a + b) == Requests(a) + Requests(b)
  {
    if a == [] {
      assert a + b == b;
    } else {
      assert (a + b)[0] == a[0];
      assert (a + b)[1..] == a[1..] + b;
      RequestsAppend(a[1..], b);
    }
  }

  /** One call of the older `run` for a month: at most the month's own `.csv` file is added and
      nothing is removed; a returned path names that file, which is then present. A download over
      the row limit reports `None` but leaves its file behind. */
  lemma FetchFacts(st: State, o: Oracle, y: int, m: int)
    requires ValidMonth(y, m)
    ensures var req := MonthRequest(y, m);
      var st' := Fetch(st, o, req);
      var f := CsvFile(MonthName(y, m));
      && st.files <= st'.files <= st.files + {f}
      && Requests(st'.visits) == Requests(st.visits) + [req]
      && (st'.visits[|st.visits|].path.Some? ==> st'.visits[|st.visits|].path == Some(f) && f in st'.files)
  {
    var req := MonthRequest(y, m);
    var base := MonthName(y, m);
    NameEndsInDigit(Name(y, m, MonthNode));
    var portal := o(req, |st.visits|);
    if portal.Served? {
      DigitBaseFileName(base, portal.suggested, portal.timestamp);
    }
    RequestsAppend(st.visits, [Visit(req, LegacyRun(base, portal).1)]);
  }

  /** The older `run` keeps an over-limit download: the file stays in the data directory and the
      month reports no path, where the newer backfill deletes the file and splits the month. */
  lemma OversizedMonthKept(st: State, o: Oracle, y: int, m: int)
    requires ValidMonth(y, m)
    requires var p := o(MonthRequest(y, m), |st.visits|);
      p.Served? && SolveCaptcha(Variant.Legacy, p.question).Some? && |p.rows| > MaxRowsLimit
    ensures var st' := Fetch(st, o, MonthRequest(y, m));
      && CsvFile(MonthName(y, m)) in st'.files
      && st'.visits[|st.visits|].path.None?
  {
    var p := o(MonthRequest(y, m), |st.visits|);
    NameEndsInDigit(Name(y, m, MonthNode));
    DigitBaseFileName(MonthName(y, m), p.suggested, p.timestamp);
  }

  /** What the month loop from `cur` leaves: the requests are the month requests of the schedule
      shared with the newer backfill, in order, whatever the portal does; files are only added, and
      only month files of that schedule; the loop finishes unless it reaches December 9999. */
  predicate LegacyPromise(st: State, cur: Date, end: Date, st': State, status: Status)
    requires Valid(cur) && Valid(end)
  {
    MonthsFromValid(cur, end);
    && Recorded(st, MonthsFrom(cur, end), st')
    && (status == Finished || status == Crashed)
    && (status == Crashed <==> NotAfter(cur, end) && end.year == MaxYear && end.month == 12)
  }

  /** From `st` to `st'` exactly the month requests of `ms` were made, in order, and only month
      files of `ms` were added. */
  predicate Recorded(st: State, ms: seq<(int, int)>, st': State)
    requires MonthsValid(ms)
  {
    && Requests(st'.visits) == Requests(st.visits) + MonthRequests(ms)
    && st.files <= st'.files <= st.files + MonthFiles(ms)
  }

  lemma {:induction false} LegacyDriveSchedule(st: State, o: Oracle, cur: Date, end: Date)
    requires Valid(cur) && Valid(end)
    ensures LegacyPromise(st, cur, end, LegacyDrive(st, o, cur, end).0, LegacyDrive(st, o, cur, end).1)
    decreases MonthIndex(end) - MonthIndex(cur) + 1
  {
    MonthsFromValid(cur, end);
    if !Before(end, cur) {
      var st1 := Fetch(st, o, MonthRequest(cur.year, cur.month));
      FetchFacts(st, o, cur.year, cur.month);
      if cur.year == MaxYear && cur.month == 12 {
        LegacyLast(st, o, cur, end);
      } else {
        LegacyDriveSchedule(st1, o, NextMonth(cur), end);
        LegacyStep(st, o, cur, end);
      }
    }
  }

  lemma LegacyLast(st: State, o: Oracle, cur: Date, end: Date)
    requires Valid(cur) && Valid(end) && NotAfter(cur, end)
    requires cur.year == MaxYear && cur.month == 12
    ensures LegacyPromise(st, cur, end, LegacyDrive(st, o, cur, end).0, LegacyDrive(st, o, cur, end).1)
  {
    MonthsFromValid(cur, end);
    FetchFacts(st, o, cur.year, cur.month);
    var ms := MonthsFrom(cur, end);
    assert ms == [(cur.year, cur.month)];
    assert MonthRequests(ms) == [MonthRequest(cur.year, cur.month)];
    assert CsvFile(MonthName(cur.year, cur.month)) in MonthFiles(ms) by {
      assert ms[0] == (cur.year, cur.month);
    }
  }

  lemma LegacyStep(st: State, o: Oracle, cur: Date, end: Date)
    requires Valid(cur) && Valid(end) && NotAfter(cur, end)
    requires !(cur.year == MaxYear && cur.month == 12)
    requires var st1 := Fetch(st, o, MonthRequest(cur.year, cur.month));
      var r := LegacyDrive(st1, o, NextMonth(cur), end);
      LegacyPromise(st1, NextMonth(cur), end, r.0, r.1)
    ensures LegacyPromise(st, cur, end, LegacyDrive(st, o, cur, end).0, LegacyDrive(st, o, cur, end).1)
  {
    var st1 := Fetch(st, o, MonthRequest(cur.year, cur.month));
    var r := LegacyDrive(st1, o, NextMonth(cur), end);
    assert LegacyDrive(st, o, cur, end) == r;
    FetchFacts(st, o, cur.year, cur.month);
    LegacyStepPromise(st, st1, cur, end, r.0, r.1);
  }

  /** The bookkeeping of one month of the loop, over plain values. */
  lemma LegacyStepPromise(st: State, st1: State, cur: Date, end: Date, st': State, status: Status)
    requires Valid(cur) && Valid(end) && NotAfter(cur, end)
    requires !(cur.year == MaxYear && cur.month == 12)
    requires Requests(st1.visits) == Requests(st.visits) + [MonthRequest(cur.year, cur.month)]
    requires st.files <= st1.files <= st.files + {CsvFile(MonthName(cur.year, cur.month))}
    requires LegacyPromise(st1, NextMonth(cur), end, st', status)
    ensures LegacyPromise(st, cur, end, st', status)
  {
    var n := NextMonth(cur);
    MonthsFromValid(cur, end);
    MonthsFromValid(n, end);
    assert MonthsFrom(cur, end) == [(cur.year, cur.month)] + MonthsFrom(n, end);
    RecordedCons(st, st1, st', (cur.year, cur.month), MonthsFrom(n, end));
    if end.year == MaxYear && end.month == 12 {
      NextMonthNotAfter(cur, end);
    }
  }

  lemma RecordedCons(st: State, st1: State, st': State, m: (int, int), rest: seq<(int, int)>)
    requires ValidMonth(m.0, m.1) && MonthsValid(rest)
    requires Requests(st1.visits) == Requests(st.visits) + [MonthRequest(m.0, m.1)]
    requires st.files <= st1.files <= st.files + {CsvFile(MonthName(m.0, m.1))}
    requires Recorded(st1, rest, st')
    ensures MonthsValid([m] + rest) && Recorded(st, [m] + rest, st')
  {
    var ms := [m] + rest;
    assert ms[0] == m && ms[1..] == rest;
    var r := MonthRequest(m.0, m.1);
    assert MonthRequests(ms) == [r] + MonthRequests(rest);
    Assoc(Requests(st.visits), [r], MonthRequests(rest));
    MonthFilesCons(ms, rest);
  }

  lemma Assoc(a: seq<Request>, b: seq<Request>, c: seq<Request>)
    ensures (a + b) + c == a + (b + c)
  {
  }

  lemma MonthFilesCons(ms: seq<(int, int)>, rest: seq<(int, int)>)
    requires MonthsValid(ms) && MonthsValid(rest) && |ms| > 0 && ms[1..] == rest
    ensures MonthFiles(ms) == {CsvFile(MonthName(ms[0].0, ms[0].1))} + MonthFiles(rest)
  {
    forall f | f in MonthFiles(ms)
      ensures f in {CsvFile(MonthName(ms[0].0, ms[0].1))} + MonthFiles(rest)
    {
      var i :| 0 <= i < |ms| && f == CsvFile(MonthName(ms[i].0, ms[i].1));
      if i > 0 {
        assert rest[i - 1] == ms[i];
      }
    }
    forall f | f in MonthFiles(rest)
      ensures f in MonthFiles(ms)
    {
      var i :| 0 <= i < |rest| && f == CsvFile(MonthName(rest[i].0, rest[i].1));
      assert ms[i + 1] == rest[i];
    }
  }

  /** For any well-formed range in order, the older backfill asks the portal for exactly the
      months from the start's to the end's, one whole-month request each, in order and whatever the
      portal answers; it only ever adds month files; and it ends normally unless the range ends in
      December 9999. */
  lemma LegacySchedule(st: State, o: Oracle, startStr: string, endStr: string)
    requires ParseYMD(startStr).Some? && ParseYMD(endStr).Some?
    requires NotAfter(ParseYMD(startStr).value, ParseYMD(endStr).value)
    ensures MonthsValid(MonthsFrom(ParseYMD(startStr).value, ParseYMD(endStr).value))
    ensures var (st', status) := LegacySpec(st, o, startStr, endStr);
      var s, e := ParseYMD(startStr).value, ParseYMD(endStr).value;
      && Requests(st'.visits) == Requests(st.visits) + MonthRequests(MonthsFrom(s, e))
      && st.files <= st'.files <= st.files + MonthFiles(MonthsFrom(s, e))
      && |MonthsFrom(s, e)| == MonthIndex(e) - MonthIndex(s) + 1
      && (status == Finished <==> !(e.year == MaxYear && e.month == 12))
  {
    var s, e := ParseYMD(startStr).value, ParseYMD(endStr).value;
    MonthsFromValid(s, e);
    LegacyDriveSchedule(st, o, s, e);
    MonthsFromSpan(s, e);
  }

  /** An unparsable range or a start after the end is reported and nothing happens. */
  lemma LegacyRejects(st: State, o: Oracle, startStr: string, endStr: string)
    ensures var (st', status) := LegacySpec(st, o, startStr, endStr);
      && (status == BadRange <==> ParseYMD(startStr).None? || ParseYMD(endStr).None?)
      && (status == StartAfterEnd <==>
            ParseYMD(startStr).Some? && ParseYMD(endStr).Some?
            && Before(ParseYMD(endStr).value, ParseYMD(startStr).value))
      && (status == BadRange || status == StartAfterEnd ==> st' == st)
  {
    var s, e := ParseYMD(startStr), ParseYMD(endStr);
    if s.Some? && e.Some? && !Before(e.value, s.value) {
      LegacyDriveSchedule(st, o, s.value, e.value);
    }
  }
}
