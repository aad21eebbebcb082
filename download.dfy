/** What `download_csv.run` does around the browser session: solve the CAPTCHA, choose the output
    file name, save the export, count its rows against the portal's 50000-row export limit, prefix
    a row-number column, and report the outcome. The portal itself (navigation, clicks, the
    download) is a `Portal` value: how the session ended, and what was served when it succeeded. */
module Download {
  import opened Text
  import opened Captcha

  /** A CSV record, as `csv.reader` yields it. */
  type Row = seq<string>

  /** `MAX_ROWS_LIMIT`. */
  const MaxRowsLimit := 50000

  /** `CsvMaxRowsExceededError(message, filepath, row_count, limit)`, without the message text. */
  datatype CsvMaxRowsExceeded = CsvMaxRowsExceeded(filepath: string, rowCount: nat, limit: nat)

  /** How the browser session ended: a Playwright `TimeoutError`, any other exception before the
      file was saved, or a served export with the CAPTCHA question shown, the server's suggested
      file name, the `%Y%m%d_%H%M%S` timestamp of the moment, the rows of the file, whether reading
      the saved file back to count its rows raises (a decoding or `csv.Error`), and whether the
      row-numbering rewrite raises. */
  datatype Portal =
    | PortalTimeout
    | PortalError
    | Served(question: string, suggested: string, timestamp: string, rows: seq<Row>, countFails: bool, numberingFails: bool)

  /** What `run` returns or raises: the saved path, `TimeoutError`, `CsvMaxRowsExceededError`, or
      any other exception. */
  datatype Response = Ok(path: string) | Timeout | RowLimit(err: CsvMaxRowsExceeded) | Failed

  /** The file `run` leaves in the data directory, if any. */
  datatype SavedFile = SavedFile(name: string, rows: seq<Row>)

  datatype RunResult = RunResult(saved: Option<SavedFile>, response: Response)

  // ----- Row count -----

  /** The row-count loop: every record is counted, the header included. */
  method CountRows(rows: seq<Row>) returns (n: nat)
    ensures n == |rows|
  {
    n := 0;
    var i := 0;
    while i < |rows|
      invariant 0 <= i <= |rows| && n == i
    {
      n := n + 1;
      i := i + 1;
    }
  }

  datatype RowCheck = WithinLimit | NoRows | OverLimit(err: CsvMaxRowsExceeded)

  /** The verdict on the row count: over the limit is an error carrying the path, the count and
      the limit; zero rows only warns; exactly the limit passes. */
  function CheckRowCount(path: string, count: nat): (c: RowCheck)
    ensures c.OverLimit? <==> count > MaxRowsLimit
    ensures c.OverLimit? ==> c.err == CsvMaxRowsExceeded(path, count, MaxRowsLimit)
    ensures c.NoRows? <==> count == 0
  {
    if count > MaxRowsLimit then OverLimit(CsvMaxRowsExceeded(path, count, MaxRowsLimit))
    else if count == 0 then NoRows
    else WithinLimit
  }

  // ----- Row numbers -----

  /** Data rows numbered from `k` on, as `enumerate(reader, k)` writes them. */
  function NumberFrom(rows: seq<Row>, k: nat): seq<Row>
    decreases |rows|
  {
    if rows == [] then [] else [[NatToString(k)] + rows[0]] + NumberFrom(rows[1..], k + 1)
  }

  /** The file `add_csv_row_numbers` writes: the header with `col` in front (just `[col]` for an
      empty file), then each data row with its 1-based number in front. */
  function NumberedRows(rows: seq<Row>, col: string): seq<Row> {
    if rows == [] then [[col]] else [[col] + rows[0]] + NumberFrom(rows[1..], 1)
  }

  lemma {:induction false} NumberFromIndex(rows: seq<Row>, k: nat)
    ensures |NumberFrom(rows, k)| == |rows|
    ensures forall i :: 0 <= i < |rows| ==> NumberFrom(rows, k)[i] == [NatToString(k + i)] + rows[i]
    decreases |rows|
  {
    if rows != [] {
      NumberFromIndex(rows[1..], k + 1);
    }
  }

  lemma {:induction false} NumberFromSnoc(rows: seq<Row>, r: Row, k: nat)
    ensures NumberFrom(rows + [r], k) == NumberFrom(rows, k) + [[NatToString(k + |rows|)] + r]
    decreases |rows|
  {
    if rows == [] {
      assert rows + [r] == [r];
    } else {
      assert (rows + [r])[1..] == rows[1..] + [r];
      NumberFromSnoc(rows[1..], r, k + 1);
    }
  }

  /** The shape of the numbered file: as many rows as the input (one for an empty input), the
      header extended by `col`, and data row `i` prefixed by the decimal string of `i`. */
  lemma NumberedRowsShape(rows: seq<Row>, col: string)
    ensures var out := NumberedRows(rows, col);
      && |out| == (if rows == [] then 1 else |rows|)
      && out[0] == [col] + (if rows == [] then [] else rows[0])
      && forall i :: 1 <= i < |rows| ==> out[i] == [NatToString(i)] + rows[i]
  {
    if rows != [] {
      NumberFromIndex(rows[1..], 1);
      var out := NumberedRows(rows, col);
      forall i | 1 <= i < |rows|
        ensures out[i] == [NatToString(i)] + rows[i]
      {
        assert out[i] == NumberFrom(rows[1..], 1)[i - 1];
      }
    }
  }

  /** Dropping the first column of the numbered file gives the original back, and the number
      column reads back as the row index: the rewrite loses and reorders nothing. */
  lemma RowNumbersRoundTrip(rows: seq<Row>, col: string)
    requires rows != []
    ensures var out := NumberedRows(rows, col);
      && |out| == |rows|
      && (forall i :: 0 <= i < |rows| ==> |out[i]| >= 1 && out[i][1..] == rows[i])
      && out[0][0] == col
      && (forall i :: 1 <= i < |rows| ==> AllDigits(out[i][0]) && DigitsValue(out[i][0]) == i)
  {
    NumberedRowsShape(rows, col);
    var out := NumberedRows(rows, col);
    forall i | 1 <= i < |rows|
      ensures AllDigits(out[i][0]) && DigitsValue(out[i][0]) == i
    {
      NatToStringRoundTrip(i);
    }
  }

  /** `add_csv_row_numbers`: the header, then one numbered row per data row. */
  method AddCsvRowNumbers(rows: seq<Row>, col: string) returns (out: seq<Row>)
    ensures out == NumberedRows(rows, col)
  {
    if |rows| == 0 {
      return [[col]];
    }
    out := [[col] + rows[0]];
    var i := 1;
    while i < |rows|
      invariant 1 <= i <= |rows|
      invariant out == [[col] + rows[0]] + NumberFrom(rows[1..i], 1)
    {
      assert rows[1..i + 1] == rows[1..i] + [rows[i]];
      NumberFromSnoc(rows[1..i], rows[i], 1);
      out := out + [[NatToString(i)] + rows[i]];
      i := i + 1;
    }
    assert rows[1..i] == rows[1..];
  }

  // ----- Output file name -----

  /** The index of the last `c` in `s`, or -1. */
  function LastIndex(s: string, c: char): (i: int)
    ensures -1 <= i < |s|
    decreases |s|
  {
    if s == [] then -1
    else if s[|s| - 1] == c then |s| - 1
    else LastIndex(s[..|s| - 1], c)
  }

  /** The index found holds `c`, and no later index does. */
  lemma {:induction false} LastIndexSpec(s: string, c: char)
    ensures LastIndex(s, c) >= 0 ==> s[LastIndex(s, c)] == c
    ensures forall j :: LastIndex(s, c) < j < |s| ==> s[j] != c
    decreases |s|
  {
    if s != [] && s[|s| - 1] != c {
      LastIndexSpec(s[..|s| - 1], c);
    }
  }

  predicate AllDots(s: string) {
    forall i :: 0 <= i < |s| ==> s[i] == '.'
  }

  /** `os.path.splitext` (POSIX): the extension starts at the last `.` after the last `/`, unless
      only dots precede it in the last path component (a leading-dot name has no extension). */
  function Splitext(p: string): (string, string) {
    var sep := LastIndex(p, '/');
    var dot := LastIndex(p, '.');
    if dot > sep && !AllDots(p[sep + 1..dot]) then (p[..dot], p[dot..]) else (p, [])
  }

  /** The two parts put back together give the path, and only the empty path has an empty stem. */
  lemma SplitextParts(p: string)
    ensures Splitext(p).0 + Splitext(p).1 == p
    ensures Splitext(p).0 == [] ==> p == []
  {
    var sep := LastIndex(p, '/');
    var dot := LastIndex(p, '.');
    var r := Splitext(p);
    if dot > sep && !AllDots(p[sep + 1..dot]) {
      assert sep + 1 < dot;
      SplitAt(p, dot);
      assert r == (p[..dot], p[dot..]);
    } else {
      assert r == (p, []);
      assert p + [] == p;
    }
  }

  lemma SplitAt(p: string, k: int)
    requires 0 < k <= |p|
    ensures p[..k] + p[k..] == p && p[..k] != []
  {
  }

  /** An extension is a single `.`-led suffix of the last path component. */
  lemma SplitextExtension(p: string)
    ensures Splitext(p).1 != [] ==> Splitext(p).1[0] == '.'
    ensures forall j :: 1 <= j < |Splitext(p).1| ==> Splitext(p).1[j] != '.'
    ensures forall j :: 0 <= j < |Splitext(p).1| ==> Splitext(p).1[j] != '/'
  {
    var sep := LastIndex(p, '/');
    var dot := LastIndex(p, '.');
    var ext := Splitext(p).1;
    LastIndexSpec(p, '/');
    LastIndexSpec(p, '.');
    if ext != [] {
      assert dot > sep && ext == p[dot..];
      forall j | 0 <= j < |ext|
        ensures ext[j] == p[dot + j]
        ensures j >= 1 ==> ext[j] != '.'
        ensures ext[j] != '/'
      {
      }
    }
  }

  lemma LowerSuffix(s: string, t: string)
    ensures EndsWith(LowerString(s + t), LowerString(t))
  {
    var l := LowerString(s + t);
    assert l[|s|..] == LowerString(t) by {
      forall j | 0 <= j < |t|
        ensures l[|s|..][j] == LowerString(t)[j]
      {
        assert (s + t)[|s| + j] == t[j];
      }
    }
  }

  /** The `.csv` extension kept as it was written when the suggested one matches case-insensitively,
      `.csv` otherwise. */
  function CsvExtension(ext: string): (e: string)
    ensures LowerString(e) == ".csv"
  {
    if LowerString(ext) == ".csv" then ext else ".csv"
  }

  /** The name before the empty-stem fallback: `f"{base}_{timestamp}{ext}"`. */
  function TimestampedName(suggested: string, ts: string): string {
    var (stem, ext) := Splitext(suggested);
    stem + "_" + ts + CsvExtension(ext)
  }

  /** The file name `run` saves to: a given base with `.csv` appended unless it already ends with it
      (in any case); without one, the server's suggested name with the timestamp before its
      extension, or `download_<timestamp>.csv` when that comes out as `_<timestamp>.csv`. The empty
      string stands for both `None` and `""`, which the source's truthiness test does not tell
      apart. */
  function FinalFilename(base: string, suggested: string, ts: string): string {
    if base != [] then
      (if EndsWith(LowerString(base), ".csv") then base else base + ".csv")
    else
      var name := TimestampedName(suggested, ts);
      if name == "_" + ts + ".csv" then "download_" + ts + ".csv" else name
  }

  /** Whatever the inputs, the saved name ends in `.csv`, ignoring case. */
  lemma FinalFilenameIsCsv(base: string, suggested: string, ts: string)
    ensures EndsWith(LowerString(FinalFilename(base, suggested, ts)), ".csv")
  {
    if base != [] {
      if !EndsWith(LowerString(base), ".csv") {
        LowerSuffix(base, ".csv");
      }
    } else {
      var (stem, ext) := Splitext(suggested);
      SplitextParts(suggested);
      LowerSuffix(stem + "_" + ts, CsvExtension(ext));
      LowerSuffix("download_" + ts, ".csv");
    }
  }

  /** A given base is kept as the name's prefix, extended by at most `.csv`, and normalising a
      normalised name changes nothing. */
  lemma FinalFilenameGiven(base: string, suggested: string, ts: string, suggested2: string, ts2: string)
    requires base != []
    ensures var name := FinalFilename(base, suggested, ts);
      && (name == base || name == base + ".csv")
      && FinalFilename(name, suggested2, ts2) == name
  {
    FinalFilenameIsCsv(base, suggested, ts);
  }

  /** Without a base, the replacement by `download_<timestamp>.csv` fires exactly when the server
      suggested no name: any non-empty suggestion leaves a non-empty stem. */
  lemma FallbackOnlyForEmptySuggestion(suggested: string, ts: string)
    ensures TimestampedName(suggested, ts) == "_" + ts + ".csv" <==> suggested == []
    ensures suggested == [] ==> FinalFilename([], suggested, ts) == "download_" + ts + ".csv"
    ensures suggested != [] ==> FinalFilename([], suggested, ts) == TimestampedName(suggested, ts)
  {
    var (stem, ext) := Splitext(suggested);
    SplitextParts(suggested);
    var e := CsvExtension(ext);
    if suggested == [] {
      assert stem == [] && ext == [];
      assert TimestampedName(suggested, ts) == "_" + ts + ".csv";
    } else {
      assert |TimestampedName(suggested, ts)| == |stem| + 1 + |ts| + |e|;
      assert |e| == 4;
    }
  }

  /** A suggestion that is only an extension is not treated as empty: `.csv` has no extension for
      `splitext`, so it becomes the stem. */
  lemma DotCsvSuggestion(ts: string)
    ensures FinalFilename([], ".csv", ts) == ".csv_" + ts + ".csv"
  {
    DotCsvHasNoExtension();
    assert LowerString([]) != ".csv";
    assert TimestampedName(".csv", ts) == ".csv" + "_" + ts + ".csv";
    FallbackOnlyForEmptySuggestion(".csv", ts);
  }

  lemma DotCsvHasNoExtension()
    ensures Splitext(".csv") == (".csv", [])
  {
    var s := ".csv";
    assert s[0] == '.' && s[1] == 'c' && s[2] == 's' && s[3] == 'v';
    LastIndexSpec(s, '/');
    LastIndexSpec(s, '.');
    assert LastIndex(s, '/') == -1;
    assert LastIndex(s, '.') == 0;
  }

  // ----- run -----

  /** `download_csv.run` (the newer copy) after the browser session: a timeout or another failure
      before the save leaves nothing; an unsolved CAPTCHA raises before any download; otherwise the
      file is saved, its rows counted (a failure there re-raises and leaves the file, unnumbered),
      row numbers added when asked (a failure there raises a plain exception and leaves the
      unnumbered file), and only then is the row-limit error raised. */
  function Run(base: string, addRowNumbers: bool, portal: Portal): RunResult {
    match portal
    case PortalTimeout => RunResult(None, Timeout)
    case PortalError => RunResult(None, Failed)
    case Served(question, suggested, ts, rows, countFails, numberingFails) =>
      if SolveCaptcha(Current, question).None? then RunResult(None, Failed)
      else
        var name := FinalFilename(base, suggested, ts);
        if countFails then RunResult(Some(SavedFile(name, rows)), Failed)
        else
          var check := CheckRowCount(name, |rows|);
          if addRowNumbers && numberingFails then RunResult(Some(SavedFile(name, rows)), Failed)
          else
            var content := if addRowNumbers then NumberedRows(rows, "row_number") else rows;
            var response := if check.OverLimit? then RowLimit(check.err) else Ok(name);
            RunResult(Some(SavedFile(name, content)), response)
  }

  /** A file is saved exactly when the portal served an export whose CAPTCHA was solved; the answer
      then stands on the page as a non-empty string. */
  lemma RunSaves(base: string, addRowNumbers: bool, portal: Portal)
    ensures var r := Run(base, addRowNumbers, portal);
      && (r.saved.Some? <==> portal.Served? && SolveCaptcha(Current, portal.question).Some?)
      && (r.saved.Some? ==> r.saved.value.name == FinalFilename(base, portal.suggested, portal.timestamp))
      && (r.saved.Some? ==> |SolveCaptcha(Current, portal.question).value| >= 1)
  {
    if portal.Served? && SolveCaptcha(Current, portal.question).Some? {
      AnswerNonEmpty(Current, portal.question);
    }
  }

  /** The row-limit error is raised exactly when more than 50000 rows were saved, counting them did
      not fail, and row numbering, when asked for, did not fail; it names the saved file and carries the count and the limit. */
  lemma RunRowLimit(base: string, addRowNumbers: bool, portal: Portal)
    ensures var r := Run(base, addRowNumbers, portal);
      && (r.response.RowLimit? <==>
            && r.saved.Some? && |portal.rows| > MaxRowsLimit
            && !portal.countFails && !(addRowNumbers && portal.numberingFails))
      && (r.response.RowLimit? ==>
            r.response.err == CsvMaxRowsExceeded(r.saved.value.name, |portal.rows|, MaxRowsLimit))
  {
  }

  /** A successful run returns the saved name; the file holds the served rows, numbered when asked,
      and there were at most 50000 of them (exactly 50000 passes, and so does an empty file). */
  lemma RunOk(base: string, addRowNumbers: bool, portal: Portal)
    ensures var r := Run(base, addRowNumbers, portal);
      r.response.Ok? ==>
        && r.saved.Some? && r.response.path == r.saved.value.name
        && |portal.rows| <= MaxRowsLimit && !portal.countFails
        && r.saved.value.rows == (if addRowNumbers then NumberedRows(portal.rows, "row_number") else portal.rows)
  {
  }

  /** A failed numbering replaces the row-limit error: the run fails with a plain exception whatever
      the row count, and the file is left as it was downloaded. */
  lemma RunNumberingFailure(base: string, portal: Portal)
    requires portal.Served? && !portal.countFails && portal.numberingFails
    requires SolveCaptcha(Current, portal.question).Some?
    ensures Run(base, true, portal) ==
      RunResult(Some(SavedFile(FinalFilename(base, portal.suggested, portal.timestamp), portal.rows)), Failed)
  {
  }

  /** A failed row count re-raises before numbering is tried: the run fails with the file saved
      as downloaded, whatever the row count and whether numbering was asked for. */
  lemma RunCountFailure(base: string, addRowNumbers: bool, portal: Portal)
    requires portal.Served? && portal.countFails
    requires SolveCaptcha(Current, portal.question).Some?
    ensures Run(base, addRowNumbers, portal) ==
      RunResult(Some(SavedFile(FinalFilename(base, portal.suggested, portal.timestamp), portal.rows)), Failed)
  {
  }

  /** A timeout is reported only when the session timed out; a row limit never stems from one. */
  lemma RunTimeout(base: string, addRowNumbers: bool, portal: Portal)
    ensures Run(base, addRowNumbers, portal).response.Timeout? <==> portal.PortalTimeout?
  {
  }

  // ----- The older copy of run -----

  /** `download_csv.run` in the older copy: no row numbers, the mis-encoded CAPTCHA class, and every
      exception swallowed, so the caller sees a path or `None`. More than 50000 rows raises a plain
      exception, caught at once: the file stays and `None` is returned. So does a failure to read
      the saved file back. */
  function LegacyRun(base: string, portal: Portal): (Option<SavedFile>, Option<string>) {
    match portal
    case PortalTimeout => (None, None)
    case PortalError => (None, None)
    case Served(question, suggested, ts, rows, countFails, _) =>
      if SolveCaptcha(Legacy, question).None? then (None, None)
      else
        var name := FinalFilename(base, suggested, ts);
        if countFails then (Some(SavedFile(name, rows)), None)
        else if CheckRowCount(name, |rows|).OverLimit? then (Some(SavedFile(name, rows)), None)
        else (Some(SavedFile(name, rows)), Some(name))
  }

  /** The older run is the newer one without row numbers, with every exception turned into `None`:
      the same file is saved, and a path is returned exactly when the newer run returns one. */
  lemma LegacyRunAgrees(base: string, portal: Portal)
    ensures var (saved, path) := LegacyRun(base, portal);
      var r := Run(base, false, portal);
      && saved == r.saved
      && (path.Some? <==> r.response.Ok?)
      && (path.Some? ==> path.value == r.response.path)
  {
    if portal.Served? {
      LegacySolverAgrees(portal.question);
    }
  }
}
