# Contratos de Madrid: the CSV export downloader and the month-by-month backfill

This project models the part of the contratosdemadrid ETL that pulls contract data out of the
Community of Madrid's (Comunidad de Madrid) public procurement portal. The portal exports at most 50000 rows per search. The code
therefore asks for one calendar month at a time. When a month's export hits the limit, it deletes
that file and asks again week by week. When a week hits the limit, it deletes that file and asks
day by day.

The model covers:

- the newer downloader, `src/etl/extract/download_csv.py`: the arithmetic CAPTCHA solver, the
  choice of the output file name, the row-count check against the export limit, the row-number
  column, the outcome of `run`, and the date checks of its command line;
- the newer backfill, `src/etl/extract/backfill_by_month.py`:
  - the month, week and day ranges;
  - the retry wrapper around `run`;
  - the day, week and month handlers that split an oversized export;
  - the driver that walks the months of a date range;
- the older copies `src/etl/download_csv.py` and `src/etl/backfill_by_month.py`. The older backfill
  fetches whole months only. It keeps an oversized file and moves on.

The browser session is not modelled. A `Portal` value stands in for it: it says how the session
ended and, when an export was served, the CAPTCHA question shown, the suggested file name, the
timestamp of the moment and the rows of the file. The backfill receives these values from an
`Oracle`, a function of the request and of the number of calls made so far. The data directory is a
`set<string>` of file names. Sleeps and month announcements are events appended to a trace.

Modules, in dependency order:

- `Text`: digit strings, `str(n)`, zero padding, ASCII `lower()`.
- `Dates`: the proleptic Gregorian calendar of Python's `datetime`, weekdays, and `strptime`/`strftime`
  for `%d-%m-%Y` and `%Y-%m-%d`.
- `Ranges`: month bounds, weekly ranges and daily ranges.
- `Names`: the file names of the backfill, `contracts_YYYY-MM[-partN[-dayDD]]`.
- `Captcha`: the CAPTCHA parser and solver.
- `Download`: what `run` does after the browser session, in both copies.
- `Cli`: the date checks of the downloader's `main`.
- `Backfill`: the newer backfill, with imperative methods each proved equal to a specification
  function.
- `BackfillFacts`: what the newer backfill promises about retries, the trace and the schedule.
- `SplitFacts`: which files each handler adds and removes.
- `OrderFacts`: which periods each handler asks the downloader for, and in what order.
- `AllSplitFacts`: the worst case of the newer backfill, where the month and every week hit the
  row limit and the month is fetched day by day.
- `LegacyBackfill`: the older backfill and what it promises.

Behaviour the model takes from the code as written:

- `max_retries` counts tries, not retries. A value of 3 makes at most three calls. A value of 0 or
  less makes none, and the wrapper returns as if it had succeeded.
- The wrapper retries only after a timeout. It re-raises the row-limit error and every other error
  at once.
- Oversized files are deleted by the month and week handlers, not by the retry wrapper. An oversized
  day file is kept. Its data is incomplete.
- The month handler catches every exception, timeouts included. The driver's handlers, which stop
  the backfill, can therefore only be reached one way. For December 9999, an oversized month makes
  the weekly range computation step past the last representable date, and the resulting
  `OverflowError` escapes the month handler's own `except` clause.
- The driver sleeps after every month, including the last, whenever the delay is positive.
- Neither backfill keeps a ledger of finished months, and neither can resume one.

## Model

| member | source | states |
|---|---|---|
| Text.NatToString | src/etl/extract/backfill_by_month.py:141 | `str(n)` of a natural number is a non-empty digit string without a leading zero |
| Text.NatToStringRoundTrip | src/etl/extract/backfill_by_month.py:141 | reading back the digits of `str(n)` gives `n` |
| Text.NatToStringInjective | src/etl/extract/backfill_by_month.py:141 | different part counters give different `partN` strings |
| Text.IntToString | src/etl/extract/download_csv.py:84 | `str(result)` is non-empty and starts with `-` exactly when the result is negative |
| Text.IntToStringReadBack | src/etl/extract/download_csv.py:84 | `str(result)` reads back as the result: a minus sign then the digits of its magnitude when negative, its digits otherwise |
| Text.Pad2 | src/etl/extract/backfill_by_month.py:115 | `%02d`/`%d`/`%m` of a number below 100 is two digits whose value is that number |
| Text.Pad4 | src/etl/extract/backfill_by_month.py:141 | `%04d`/`%Y` of a number below 10000 is four digits whose value is that number |
| Text.PadCanonical | src/etl/extract/backfill_by_month.py:58-59 | every two- or four-digit string is the padding of its own value, so padding loses nothing |
| Text.DigitsValueInjective | src/etl/extract/backfill_by_month.py:58-59 | two digit strings of the same length with the same value are equal |
| Text.TakeDigits | src/etl/extract/download_csv.py:67 | greedy `\d+` takes a maximal prefix of digits: what follows does not start with a digit |
| Text.TakeDigitsOf | src/etl/extract/download_csv.py:67 | greedy `\d+` on digits followed by a non-digit returns exactly those digits |
| Text.TakeSpaces | src/etl/extract/download_csv.py:67 | greedy `\s*` takes a maximal prefix of whitespace: what follows does not start with whitespace |
| Text.TakeSpacesOf | src/etl/extract/download_csv.py:67 | greedy `\s*` on whitespace followed by a non-space returns exactly that whitespace |
| Text.LowerString | src/etl/extract/download_csv.py:188 | `lower()` keeps the length and lowers each ASCII capital in place |
| Dates.DaysInMonth | src/etl/extract/backfill_by_month.py:19 | `calendar.monthrange` gives a month length between 28 and 31 |
| Dates.NextDay | src/etl/extract/backfill_by_month.py:68 | adding one day gives a calendar date strictly after the given one |
| Dates.NextDayIsSuccessor | src/etl/extract/backfill_by_month.py:68 | the day after `d` is not after any date later than `d`; it is a valid date unless `d` is 31-12-9999 |
| Dates.YearLength | src/etl/extract/backfill_by_month.py:19 | a year has 366 days when it is a leap year and 365 otherwise |
| Dates.OrdinalNext | src/etl/extract/backfill_by_month.py:68 | stepping one day adds one to the day's ordinal number |
| Dates.Weekday | src/etl/extract/backfill_by_month.py:34 | `weekday()` lies between 0 (Monday) and 6 (Sunday) |
| Dates.WeekdayInMonth | src/etl/extract/backfill_by_month.py:34 | within a month, the weekday advances by one per day, modulo 7 |
| Dates.FormatDMY | src/etl/extract/backfill_by_month.py:21 | `strftime("%d-%m-%Y")` is ten characters with dashes at positions 2 and 5 |
| Dates.CheckedDate | src/etl/extract/backfill_by_month.py:58-59 | `datetime(y, m, d)` succeeds exactly when all three fields were read and form a real date |
| Dates.ParseDMY | src/etl/extract/backfill_by_month.py:58-59 | whatever `strptime(..., "%d-%m-%Y")` accepts is a real date |
| Dates.ParseYMD | src/etl/extract/backfill_by_month.py:226-227 | whatever `strptime(..., "%Y-%m-%d")` accepts is a real date |
| Dates.ParseFormatYMD | src/etl/extract/backfill_by_month.py:223-229 | every real date written `YYYY-MM-DD` is accepted and read as itself |
| Dates.ParseFormatDMY | src/etl/extract/backfill_by_month.py:58-66 | parsing a formatted date gives the date back |
| Dates.FormatDMYInjective | src/etl/extract/backfill_by_month.py:42-43 | different dates format to different strings |
| Ranges.MonthBounds | src/etl/extract/backfill_by_month.py:16-21 | the first string parses to day 1 of the month; the second to a day of the same month whose next day is in another month |
| Ranges.MonthLengths | src/etl/extract/backfill_by_month.py:19 | February has 29 days exactly in leap years and 28 otherwise; April, June, September and November have 30; the rest have 31 |
| Ranges.DayOfWeekIsWeekday | src/etl/extract/backfill_by_month.py:33-34 | the weekday worked out from the month's first weekday agrees with `weekday()` |
| Ranges.WeekEndFacts | src/etl/extract/backfill_by_month.py:34-39 | a week's end lies between its start and the month end, is a Sunday or the month end, and no earlier day of the span is a Sunday |
| Ranges.SpanEnd | src/etl/extract/backfill_by_month.py:34-39 | the computed week end is the next Sunday capped at the month end |
| Ranges.WeeklyRanges | src/etl/extract/backfill_by_month.py:23-52 | the loop lists exactly the month's week spans, or overflows for December 9999 |
| Ranges.WeekSpansIsPartition | src/etl/extract/backfill_by_month.py:23-52 | the week spans start on day 1, follow each other without gap, end on Sundays except the last, and the last ends at the month end |
| Ranges.WeekPartitionUnique | src/etl/extract/backfill_by_month.py:23-52 | any list with those properties is the list the loop produces |
| Ranges.WeekPartitionEnds | src/etl/extract/backfill_by_month.py:34-39 | every span ends on a Sunday or on the month's last day |
| Ranges.WeekPartitionMondays | src/etl/extract/backfill_by_month.py:46-47 | every span after the first starts on a Monday |
| Ranges.WeekPartitionLengths | src/etl/extract/backfill_by_month.py:34-39 | no span is longer than seven days |
| Ranges.WeekPartitionCoverage | src/etl/extract/backfill_by_month.py:23-52 | the spans are disjoint and ordered, every day of the month lies in one, and every Sunday ends one |
| Ranges.DaysFromShape | src/etl/extract/backfill_by_month.py:65-69 | the day list is empty exactly when the end is before the start; otherwise it runs from the start to the end, one single-day span per consecutive day |
| Ranges.DaysFromCount | src/etl/extract/backfill_by_month.py:65-69 | the day list has as many entries as there are days from start to end |
| Ranges.DaysFromAppend | src/etl/extract/backfill_by_month.py:65-69 | the days of two adjacent periods together are the days of the joined period |
| Ranges.DailyRanges | src/etl/extract/backfill_by_month.py:54-69 | the loop returns the empty list on a bad date, overflows when it would step past 31-12-9999, and otherwise lists exactly the days from start to end |
| Names.MonthName | src/etl/extract/backfill_by_month.py:177 | the month file base name is 17 characters: `contracts_`, four digits reading as the year, `-`, two digits reading as the month |
| Names.ParseNameString | src/etl/extract/backfill_by_month.py:115-177 | a month, week or day base name can be read back into the year, month, part and day it was built from |
| Names.NameStringInjective | src/etl/extract/backfill_by_month.py:115-177 | different months, parts or days never share a file name |
| Names.NameEndsInDigit | src/etl/extract/backfill_by_month.py:115-177 | every base name ends in a digit, so the downloader saves it as `<base>.csv` |
| Captcha.OperatorsDelimited | src/etl/extract/download_csv.py:67 | no operator of either solver is a digit or whitespace, so the regex's parts cannot run into each other |
| Captcha.MatchQuestion | src/etl/extract/download_csv.py:67 | a match yields two digit strings and an operator from the regex's class |
| Captcha.MatchQuestionSound | src/etl/extract/download_csv.py:67 | a match splits the question into well-formed parts that render back to the question |
| Captcha.MatchQuestionComplete | src/etl/extract/download_csv.py:67 | every well-formed question is matched, and the match gives back its parts |
| Captcha.RenderInjective | src/etl/extract/download_csv.py:67 | a question text determines its operands and operator |
| Captcha.Apply | src/etl/extract/download_csv.py:74-87 | the operator table yields a number exactly for `+`, `-`, `*` and `x` |
| Captcha.RespondCases | src/etl/extract/download_csv.py:74-87 | the answer is `str` of the sum, difference or product, and there is no answer for any other operator |
| Captcha.SolveRendered | src/etl/extract/download_csv.py:63-90 | solving a well-formed question answers its own operands and operator |
| Captcha.SolveCaptchaNeedsMatch | src/etl/extract/download_csv.py:67-87 | an answer needs a regex match whose operator is `+`, `-` or `*`; `x` is in the table but never matched, and `×` is matched but never answered |
| Captcha.AnswerNonEmpty | src/etl/extract/download_csv.py:140-145 | an answer the page is filled with is never empty |
| Captcha.MatchAcrossClasses | src/etl/download_csv.py:49-72 | matching with a different operator class gives the same parts when the operator found is in both classes |
| Captcha.NoAnswerOutsideTable | src/etl/extract/download_csv.py:85-87 | an operator outside the table gives no answer |
| Captcha.LegacySolverAgrees | src/etl/download_csv.py:49-72 | the older solver answers every text exactly as the newer one does |
| Download.CountRows | src/etl/extract/download_csv.py:202-208 | the counting loop counts every row of the file |
| Download.CheckRowCount | src/etl/extract/download_csv.py:212-223 | the limit error is raised exactly above 50000 rows, carrying the file, the count and the limit; the empty-file warning comes exactly at 0 rows |
| Download.AddCsvRowNumbers | src/etl/extract/download_csv.py:92-108 | the rewrite loop produces exactly the numbered rows |
| Download.NumberedRowsShape | src/etl/extract/download_csv.py:92-108 | the header gains the column name, row `i` gains `str(i)` in front, and an empty file becomes a lone header |
| Download.RowNumbersRoundTrip | src/etl/extract/download_csv.py:92-108 | dropping the first column gives back every original row, and each data row's number reads back as its index |
| Download.LastIndex | src/etl/extract/download_csv.py:186 | `rfind` returns -1 or an index into the text |
| Download.LastIndexSpec | src/etl/extract/download_csv.py:186 | `rfind` finds the character, and no later position holds it |
| Download.SplitextParts | src/etl/extract/download_csv.py:186 | `splitext` splits the name into root and extension that join back to the name, and the root is empty only for an empty name |
| Download.SplitextExtension | src/etl/extract/download_csv.py:186 | a non-empty extension starts with its only dot and holds no slash |
| Download.CsvExtension | src/etl/extract/download_csv.py:187-188 | the extension used is `.csv` in some case mix |
| Download.FinalFilenameIsCsv | src/etl/extract/download_csv.py:177-191 | every file name the downloader chooses ends in `.csv`, ignoring case |
| Download.FinalFilenameGiven | src/etl/extract/download_csv.py:177-182 | a given base name is used as is or with `.csv` added, and naming again is a no-op |
| Download.FallbackOnlyForEmptySuggestion | src/etl/extract/download_csv.py:184-191 | the `download_` fallback replaces the timestamped name exactly when the server suggested no name |
| Download.DotCsvSuggestion | src/etl/extract/download_csv.py:186-191 | a suggested name of `.csv` has no extension by `splitext`, so it becomes `.csv_<timestamp>.csv` and not the fallback |
| Download.RunSaves | src/etl/extract/download_csv.py:138-195 | a file is saved exactly when an export was served and its CAPTCHA solved; the file gets the chosen name and the answer filled in is non-empty |
| Download.RunRowLimit | src/etl/extract/download_csv.py:212-219 | the limit error escapes exactly when a saved file has more than 50000 rows, reading it back to count them did not fail, and numbering did not fail first; it names the saved file, its count and the limit |
| Download.RunOk | src/etl/extract/download_csv.py:200-258 | success returns the saved file's name, the file was read back and is within the limit, and it holds the rows, numbered when asked |
| Download.RunCountFailure | src/etl/extract/download_csv.py:200-230 | when reading the saved file back to count its rows fails, `run` re-raises: the file stays saved, unnumbered, and no row-limit check or numbering happens |
| Download.RunNumberingFailure | src/etl/extract/download_csv.py:238-252 | a failed numbering leaves the saved file unnumbered and raises a plain error, even when the file is over the limit |
| Download.RunTimeout | src/etl/extract/download_csv.py:110-275 | `run` raises a timeout exactly when the browser session timed out |
| Download.LegacyRunAgrees | src/etl/download_csv.py:74-206 | the older `run` saves the same file as the newer one without numbering, returns a path exactly when the newer one succeeds (so a failed read-back returns no path, with the file kept), and returns the same path |
| Cli.ShapedParse | src/etl/extract/download_csv.py:291-310 | a string that passes the regex and parses is ten characters long and formats back to itself |
| Cli.ValidateAccepted | src/etl/extract/download_csv.py:291-317 | accepted start and end dates are real dates, the start strictly before the end, and each formats back to its argument |
| Cli.ValidateComplete | src/etl/extract/download_csv.py:291-317 | every pair of real dates in strict order, written `DD-MM-YYYY`, is accepted |
| Cli.TrailingNewlineIsInvalidDate | src/etl/download_csv.py:224-249 | a date followed by a newline passes the `$`-anchored regex of both copies but is then rejected as an invalid date |
| Backfill.DownloadDataForPeriod | src/etl/extract/backfill_by_month.py:71-103 | the retry loop ends in the state and outcome the retry specification gives; `BackfillFacts.RetryTrace` characterises them |
| Backfill.DailySpecValid | src/etl/extract/backfill_by_month.py:54-69 | every listed day is a valid date |
| Backfill.DownloadDays | src/etl/extract/backfill_by_month.py:112-132 | the loop over days ends in the state of the day fold, which swallows each day's errors; `OrderFacts.DaysFoldAskedFor` states that it asks for each day once, in order |
| Backfill.ProcessDaysForWeek | src/etl/extract/backfill_by_month.py:105-132 | the day handler lists the week's days and fetches them, and only the overflow of the day list escapes it |
| Backfill.ProcessWeekWithRetries | src/etl/extract/backfill_by_month.py:134-168 | the week handler fetches the week; on the row limit it deletes the week file and splits into days; on any other error it reports failure |
| Backfill.WeekSpansValid | src/etl/extract/backfill_by_month.py:23-52 | every week span is a pair of valid dates |
| Backfill.ProcessWeeks | src/etl/extract/backfill_by_month.py:203-213 | the loop over weeks ends in the state of the week fold, which numbers them from 0 and stops only if an overflow escapes; `OrderFacts.WeeksFoldAskedFor` states the order of its requests |
| Backfill.ProcessMonthWithRetries | src/etl/extract/backfill_by_month.py:170-217 | the month handler fetches the month; on the row limit it deletes the month file and splits into weeks; it swallows every other error |
| Backfill.NextMonth | src/etl/extract/backfill_by_month.py:251-254 | the next month's first day is valid, is day 1, and is exactly one month later |
| Backfill.RunBackfill | src/etl/extract/backfill_by_month.py:219-262 | the driver loop ends in the state and status of the backfill specification, whose schedule `BackfillFacts.BackfillSchedule` states |
| BackfillFacts.RetryTrace | src/etl/extract/backfill_by_month.py:71-103 | with no budget, nothing is called; otherwise the wrapper makes 1 to `max_retries` tries, every try but the last timed out, and a final timeout means the budget is spent; the last response decides the outcome, the trace records each try, and the call count grows by the number of tries |
| BackfillFacts.TriesBackoffs | src/etl/extract/backfill_by_month.py:87-95 | the wrapper sleeps once between each two tries and never after the last |
| BackfillFacts.DigitBaseFileName | src/etl/extract/download_csv.py:177-182 | a base name ending in a digit is saved as `<base>.csv`, whatever the server suggests |
| BackfillFacts.BackfillFileName | src/etl/extract/backfill_by_month.py:115-177 | every month, week and day file of the backfill is saved as its base name plus `.csv` |
| BackfillFacts.CallFiles | src/etl/extract/backfill_by_month.py:80-84 | one call adds at most the request's own file; the file is there after success or the row limit, and the row-limit error names that file and a count above the limit |
| BackfillFacts.RetryFiles | src/etl/extract/backfill_by_month.py:71-103 | the retry wrapper adds at most its own file and deletes nothing; the file is present when the wrapper reports the row limit or a success after a real try |
| BackfillFacts.RetryExtends | src/etl/extract/backfill_by_month.py:71-103 | the retry wrapper only appends tries and backoffs to the trace |
| BackfillFacts.DayNameDigitEnded | src/etl/extract/backfill_by_month.py:113-115 | every day file base name ends in a digit |
| BackfillFacts.DaysFoldFiles | src/etl/extract/backfill_by_month.py:112-132 | the day loop deletes nothing and adds only the files of the days it fetched |
| BackfillFacts.DaysSpecExtends | src/etl/extract/backfill_by_month.py:105-132 | the day handler only appends download events |
| BackfillFacts.WeekSpecExtends | src/etl/extract/backfill_by_month.py:134-168 | the week handler only appends download events |
| BackfillFacts.WeeksFoldExtends | src/etl/extract/backfill_by_month.py:203-213 | the week loop only appends download events |
| BackfillFacts.MonthSpecExtends | src/etl/extract/backfill_by_month.py:170-217 | after announcing the month, the month handler only appends download events |
| BackfillFacts.WeeksFoldNoEscape | src/etl/extract/backfill_by_month.py:203-213 | no overflow escapes the week loop unless a span ends on 31-12-9999 |
| BackfillFacts.MonthEscapeOnlyAtEnd | src/etl/extract/backfill_by_month.py:191-217 | an exception escapes the month handler only for December 9999 |
| BackfillFacts.MonthsFromSpan | src/etl/extract/backfill_by_month.py:237-254 | the months visited are the consecutive months from the start's month to the end's month, once each, in order |
| BackfillFacts.DriverEventsAppend | src/etl/extract/backfill_by_month.py:236-260 | the driver's announcements and pauses in a joined trace are those of each part, in order |
| BackfillFacts.DriverEventsQuiet | src/etl/extract/backfill_by_month.py:71-103 | a trace of downloads only holds no announcement or pause |
| BackfillFacts.ExtendsDriverEvents | src/etl/extract/backfill_by_month.py:236-260 | appending download events leaves the driver's announcements and pauses unchanged |
| BackfillFacts.MonthSpecDriverEvents | src/etl/extract/backfill_by_month.py:170-180 | the month handler adds exactly one announcement, of its own month |
| BackfillFacts.DriveSchedule | src/etl/extract/backfill_by_month.py:236-260 | the loop announces every month of the range once, in order, pausing after each when the delay is positive; it finishes normally exactly when the range does not reach December 9999 |
| BackfillFacts.DriveLast | src/etl/extract/backfill_by_month.py:236-256 | in December 9999 the loop announces the month and then stops or crashes, without a pause |
| BackfillFacts.DriveStep | src/etl/extract/backfill_by_month.py:236-260 | a month that returns normally, followed by the due pause, keeps the loop's promise for the rest of the range |
| BackfillFacts.StepPromise | src/etl/extract/backfill_by_month.py:236-260 | one month's announcement and pause, in front of the promise for the remaining months, give the promise for the whole range |
| BackfillFacts.NextMonthNotAfter | src/etl/extract/backfill_by_month.py:251-254 | when the range ends in December 9999, the next month of any earlier month is still in range |
| BackfillFacts.BackfillRejects | src/etl/extract/backfill_by_month.py:225-234 | the backfill stops on an unparsable date exactly when one fails to parse and on a reversed range exactly when both parse and the end is earlier; it then does nothing |
| BackfillFacts.BackfillSchedule | src/etl/extract/backfill_by_month.py:219-262 | for a valid range, the driver's events are the schedule of the months from start to end; their number is the month distance plus one; the run finishes normally exactly when the end is not in December 9999 |
| SplitFacts.FileNameOf | src/etl/extract/backfill_by_month.py:115-177 | every backfill file name can be read back into its month, part and day |
| SplitFacts.DayFilesPart | src/etl/extract/backfill_by_month.py:113-115 | each day file belongs to its month and its week part, and is a day file |
| SplitFacts.DaysSpecFiles | src/etl/extract/backfill_by_month.py:124-129 | the day handler never deletes a file, not even an oversized one, and adds only day files of its week part |
| SplitFacts.WeekSpecFiles | src/etl/extract/backfill_by_month.py:151-164 | the week handler deletes at most its own week file, adds only files of its part, leaves no week file after the row limit, and keeps it after a success |
| SplitFacts.WeeksFoldFiles | src/etl/extract/backfill_by_month.py:203-213 | the week loop deletes only week files of its month from the current part on, and adds only week and day files of its month |
| SplitFacts.SplitSpecFiles | src/etl/extract/backfill_by_month.py:202-213 | splitting a month deletes only its week files and adds only its week and day files |
| SplitFacts.MonthSpecFiles | src/etl/extract/backfill_by_month.py:191-201 | the month handler touches only files of its month and never deletes a day file; after the row limit the month file is gone; otherwise at most the month file is added, and it is there after a success |
| SplitFacts.DriveFiles | src/etl/extract/backfill_by_month.py:236-260 | the month loop adds and deletes only files of the months it visits, and never deletes a day file |
| SplitFacts.BackfillFiles | src/etl/extract/backfill_by_month.py:219-262 | the backfill touches only files of the months of its range, and none at all when the range is rejected |
| OrderFacts.RetryAskedFor | src/etl/extract/backfill_by_month.py:71-103 | with retries collapsed, the retry wrapper asks for its period exactly once, or not at all when `max_retries` is 0 or less |
| OrderFacts.DayRequests | src/etl/extract/backfill_by_month.py:113-121 | one request per listed day, the `i`-th for the `i`-th day, named after the week part and the day |
| OrderFacts.DaysFoldAskedFor | src/etl/extract/backfill_by_month.py:112-132 | the day loop asks for every day of its list once, in list order |
| OrderFacts.DayPlan | src/etl/extract/backfill_by_month.py:105-132 | the day handler's plan has one request per calendar day of the week span |
| OrderFacts.DaysSpecAskedFor | src/etl/extract/backfill_by_month.py:105-132 | the day handler asks for each day of its week span once, in order, and for nothing when the day list overflows |
| OrderFacts.WeekSpecAskedFor | src/etl/extract/backfill_by_month.py:134-168 | the week handler asks for its week; when the week hits the row limit and its day list is computed, it then asks for each day of the week, in order |
| OrderFacts.WeeksSplitLength | src/etl/extract/backfill_by_month.py:203-213 | unless an exception escapes, the week loop goes through every week of its list |
| OrderFacts.WeeksFoldAskedFor | src/etl/extract/backfill_by_month.py:203-213 | the week loop asks for its weeks in list order, with part counters counting up from 0, each week once and followed by its days when it was split |
| OrderFacts.MonthSpecAskedFor | src/etl/extract/backfill_by_month.py:170-217 | the month handler asks for the whole month first; after the row limit it asks for the month's weeks in order, each followed by its days when it was split |
| OrderFacts.MonthSplitAskedFor | src/etl/extract/backfill_by_month.py:191-213 | a month that hit the row limit and has a weekly list is asked for once, then its weeks in order, each followed by its days when it was split |
| AllSplitFacts.RetryOverLimit | src/etl/extract/backfill_by_month.py:71-103 | a period whose first export is served, answered, readable and over 50000 rows ends its first try with the row-limit error |
| AllSplitFacts.MonthFirstTryLimited | src/etl/extract/backfill_by_month.py:182-191 | a month whose exports are all over the limit hits the row limit |
| AllSplitFacts.WeekFirstTryLimited | src/etl/extract/backfill_by_month.py:142-150 | a week whose exports are all over the limit hits the row limit |
| AllSplitFacts.WeekAllSplitAskedFor | src/etl/extract/backfill_by_month.py:134-168 | such a week, if it does not end on 31-12-9999, is asked for once and then every one of its days in order, and no exception escapes |
| AllSplitFacts.WeeksFoldAllSplit | src/etl/extract/backfill_by_month.py:203-213 | when every week is over the limit, the week loop asks for each week in order with parts 0, 1, 2, …, each followed by all its days, and no exception escapes |
| AllSplitFacts.AllSplitPlanLength | src/etl/extract/backfill_by_month.py:23-52 | with every week split, the plan of the weekly list holds one request per week and one per day of the month |
| AllSplitFacts.AllSplitMonth | src/etl/extract/backfill_by_month.py:170-217 | when the month and all its weeks are over the limit (outside December 9999), the backfill asks for the month, then each week in order followed by each of its days named after the part and the day: one day request per day of the month |
| LegacyBackfill.RunLegacyBackfill | src/etl/backfill_by_month.py:20-70 | the loop ends in the state and status of the older backfill's specification, whose schedule `LegacyBackfill.LegacySchedule` states |
| LegacyBackfill.MonthsFromValid | src/etl/backfill_by_month.py:37-67 | every month visited is a real calendar month |
| LegacyBackfill.RequestsAppend | src/etl/backfill_by_month.py:37-67 | the requests of two runs of visits are those of the first followed by those of the second |
| LegacyBackfill.FetchFacts | src/etl/backfill_by_month.py:44-61 | one month adds at most the month's file and records exactly one request; a returned path is that file, and the file exists |
| LegacyBackfill.OversizedMonthKept | src/etl/download_csv.py:163-206 | an oversized export is kept on disk, and `run` returns no path for it |
| LegacyBackfill.LegacyDriveSchedule | src/etl/backfill_by_month.py:37-67 | the loop requests every month of the range once, in order, adds only those months' files, and finishes exactly when the range does not reach December 9999, where it crashes |
| LegacyBackfill.LegacyLast | src/etl/backfill_by_month.py:63-67 | in December 9999 the loop fetches the month and then crashes computing the next one |
| LegacyBackfill.LegacyStep | src/etl/backfill_by_month.py:37-67 | a month fetched before a later month keeps the loop's promise for the rest of the range |
| LegacyBackfill.LegacyStepPromise | src/etl/backfill_by_month.py:37-67 | one month's request and file, in front of the promise for the remaining months, give the promise for the whole range |
| LegacyBackfill.LegacySchedule | src/etl/backfill_by_month.py:20-70 | for a valid range, the requests are one per month from start to end, in order; only those months' files are added; the month count is the month distance plus one; the run finishes exactly when the end is not in December 9999 |
| LegacyBackfill.LegacyRejects | src/etl/backfill_by_month.py:25-34 | the older backfill returns on an unparsable date exactly when one fails to parse and on a reversed range exactly when both parse and the end is earlier; it then does nothing |

Proof helpers without rows of their own: `BackfillFacts.ExtendsTrans`, `BackfillFacts.ScheduleCons`,
`SplitFacts.SplitMonthFiles`, `SplitFacts.WholeMonthFiles`, `SplitFacts.TouchesHead`,
`SplitFacts.TouchesStep`, `LegacyBackfill.RecordedCons`, `LegacyBackfill.MonthFilesCons`,
`OrderFacts.PeriodsAppend`, `OrderFacts.PeriodsTries`, `OrderFacts.AskedForNothing`,
`OrderFacts.AskedForAnnouncement`, `Dates.FormatYMD`,
`OrderFacts.AskedForAppend`, `OrderFacts.WeeksPlanStep`, `AllSplitFacts.EverySplit`,
`AllSplitFacts.WeekLimitedNoEscape`, `AllSplitFacts.DaysSpecListed`, `AllSplitFacts.PartitionTail`,
`AllSplitFacts.DayPlanInMonth` and `AllSplitFacts.AllSplitPlanCons`.

## Left out

- The Playwright session is left out: navigation, the search form, clicks, waits, finding the CAPTCHA element, `strip()` of its text, screenshots and `headless`. Each session is one `Portal` value handed in as a parameter.
- CSV parsing and writing are left out: the delimiter, the `utf-8-sig` encoding and quoting. A file is its parsed rows, `seq<seq<string>>`.
- Directories and paths are left out: the data directory, `os.makedirs` and `os.path.join`. Files are tracked by name in a set.
- The temporary `.tmp_numbered` file and its clean-up are left out. Only the numbered content and the failure are modelled.
- `datetime.now()` is left out. The timestamp is part of the `Portal` value.
- Logging, `print` and `time.sleep` are left out. Sleeps are `Pause` and `Backoff` events in a trace, with their durations.
- Failures of `os.remove` are left out. Those failures are logged and ignored, and the model always removes the file.
- The reason the read-back of a saved file fails is not modelled. A `FileNotFoundError`, a decoding error and a `csv.Error` are one `countFails` flag of the `Portal` value, and each leads to the same outcome.
- Non-ASCII input is not fully modelled:
  - Digits are ASCII digits only. Python's `\d` and `int()` also accept other Unicode decimal digits.
  - `lower()` lowers ASCII capitals only.
- `argparse` parsing and the rest of each `main` are left out. This includes the backfill's `--delay` and `--retries` options, which arrive as parameters of `RunBackfill`.
- AllSplitFacts.AllSplitMonth: December 9999 is not covered, because there the weekly list itself overflows and the month handler raises before any week is asked for; `BackfillFacts.MonthEscapeOnlyAtEnd` covers that month.
- File names follow POSIX path rules: `Download.Splitext` splits as `posixpath.splitext` does, so the Windows separators `\` and drive letters that `ntpath` also honours are not modelled.
- Everything else in the repository is not part of this model: the API, the transform step and `config.py`.
