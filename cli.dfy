/** The date checks the downloader's command line makes before it starts a browser: both dates
    must look like `DD-MM-YYYY`, differ as strings, be real calendar dates, and be in order. Both
    copies of the downloader make the same checks in the same order. */
module Cli {
  import opened Text
  import opened Dates

  /** `re.match(r"^\d{2}-\d{2}-\d{4}$", s)`. Without the multiline flag `$` matches at the end of
      the text and also just before a final newline, so one trailing `\n` passes. */
  predicate DateShaped(s: string) {
    (|s| == 10 || (|s| == 11 && s[10] == '\n'))
    && AllDigits(s[..2]) && s[2] == '-' && AllDigits(s[3..5]) && s[5] == '-' && AllDigits(s[6..10])
  }

  /** Which message `main` prints and returns on, or the two parsed dates it goes on with. */
  datatype Verdict =
    | BadStartFormat
    | BadEndFormat
    | SameDates
    | InvalidDate
    | StartAfterEnd
    | Accepted(start: Date, end: Date)

  /** The checks of `main`, first failure wins: start format, end format, identical strings, then
      `strptime(..., "%d-%m-%Y")` of the start and of the end (`ValueError`), then start after end. */
  function ValidateDates(startStr: string, endStr: string): Verdict {
    if !DateShaped(startStr) then BadStartFormat
    else if !DateShaped(endStr) then BadEndFormat
    else if startStr == endStr then SameDates
    else
      match (ParseDMY(startStr), ParseDMY(endStr))
      case (Some(a), Some(b)) => if Before(b, a) then StartAfterEnd else Accepted(a, b)
      case _ => InvalidDate
  }

  lemma SplitDashed(a: string, b: string, c: string)
    requires '-' !in a && '-' !in b && '-' !in c
    ensures Split(a + "-" + b + "-" + c, '-') == [a, b, c]
  {
    assert a + "-" + b + "-" + c == a + ['-'] + (b + ['-'] + c);
    SplitAppend(a, '-', b + ['-'] + c);
    SplitAppend(b, '-', c);
    SplitNone(c, '-');
  }

  /** A date-shaped string splits at its two dashes into day, month and the rest. */
  lemma ShapedFields(s: string)
    requires DateShaped(s)
    ensures Split(s, '-') == [s[..2], s[3..5], s[6..]]
  {
    var y := s[6..];
    DigitsHaveNoDash(s[..2]);
    DigitsHaveNoDash(s[3..5]);
    DigitsHaveNoDash(s[6..10]);
    assert y == s[6..10] + s[10..];
    assert '-' !in y;
    assert s == s[..2] + "-" + s[3..5] + "-" + y;
    SplitDashed(s[..2], s[3..5], y);
  }

  /** A date-shaped string that `strptime` accepts is exactly what `strftime` writes for that date:
      no trailing newline, and every field zero-padded. */
  lemma ShapedParse(s: string)
    requires DateShaped(s) && ParseDMY(s).Some?
    ensures |s| == 10 && FormatDMY(ParseDMY(s).value) == s
  {
    ShapedFields(s);
    var d := ParseDMY(s).value;
    assert |s[6..]| == 4;
    PadCanonical(s[..2]);
    PadCanonical(s[3..5]);
    PadCanonical(s[6..]);
    assert s == s[..2] + "-" + s[3..5] + "-" + s[6..];
  }

  /** What the checks let through is a pair of canonical `DD-MM-YYYY` strings of two dates, the
      start strictly before the end. */
  lemma ValidateAccepted(startStr: string, endStr: string)
    requires ValidateDates(startStr, endStr).Accepted?
    ensures var v := ValidateDates(startStr, endStr);
      && Before(v.start, v.end)
      && FormatDMY(v.start) == startStr && FormatDMY(v.end) == endStr
  {
    ShapedParse(startStr);
    ShapedParse(endStr);
  }

  lemma FormatShaped(d: Date)
    requires Valid(d)
    ensures DateShaped(FormatDMY(d))
  {
    var s := FormatDMY(d);
    assert s[..2] == Pad2(d.day) && s[3..5] == Pad2(d.month) && s[6..10] == Pad4(d.year);
  }

  /** Conversely every pair of distinct dates in order, written as `DD-MM-YYYY`, is accepted. */
  lemma ValidateComplete(a: Date, b: Date)
    requires Valid(a) && Valid(b) && Before(a, b)
    ensures ValidateDates(FormatDMY(a), FormatDMY(b)) == Accepted(a, b)
  {
    FormatShaped(a);
    FormatShaped(b);
    ParseFormatDMY(a);
    ParseFormatDMY(b);
  }

  /** A start date with a trailing newline passes the format check but not `strptime`, so it is
      reported as an invalid date rather than a bad format. */
  lemma TrailingNewlineIsInvalidDate(a: Date, b: Date)
    requires Valid(a) && Valid(b)
    ensures ValidateDates(FormatDMY(a) + "\n", FormatDMY(b)) == InvalidDate
  {
    var s := FormatDMY(a) + "\n";
    FormatShaped(a);
    FormatShaped(b);
    assert s[..10] == FormatDMY(a);
    assert DateShaped(s);
    ShapedFields(s);
    assert |s[6..]| == 5;
  }
}
