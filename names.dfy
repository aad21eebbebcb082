/** The output base names of the backfill: `contracts_YYYY-MM` for a month, `-part{N}` appended
    for week part `N` of a split month, and `-day{DD}` appended for a day of a split week. A
    decoder reads a name back, which makes the naming collision-free. */
module Names {
  import opened Text
  import opened Dates

  /** Where a download sits in the month -> week -> day split. */
  datatype Node = MonthNode | WeekNode(part: nat) | DayNode(part: nat, day: int)

  datatype Name = Name(year: int, month: int, node: Node)

  predicate ValidName(n: Name) {
    1 <= n.year <= MaxYear && 1 <= n.month <= 12 && (n.node.DayNode? ==> 1 <= n.node.day <= 31)
  }

  /** `f"contracts_{year:04d}-{month:02d}"`. */
  function MonthName(y: int, m: int): (s: string)
    requires 1 <= y <= MaxYear && 1 <= m <= 12
    ensures |s| == 17 && s[..10] == "contracts_" && s[14] == '-'
    ensures AllDigits(s[10..14]) && DigitsValue(s[10..14]) == y
    ensures AllDigits(s[15..]) && DigitsValue(s[15..]) == m
  {
    var y4, m2 := Pad4(y), Pad2(m);
    var s := "contracts_" + y4 + "-" + m2;
    assert s[10..14] == y4 && s[15..] == m2;
    s
  }

  /** `f"contracts_{year:04d}-{month:02d}-part{part_counter}"`. */
  function WeekName(y: int, m: int, part: nat): string
    requires 1 <= y <= MaxYear && 1 <= m <= 12
  {
    MonthName(y, m) + "-part" + NatToString(part)
  }

  /** `f"contracts_{year:04d}-{month:02d}-part{week_part_counter}-day{day_part_suffix}"`, the day
      suffix being `strftime('%d')` of the day. */
  function DayName(y: int, m: int, part: nat, day: int): string
    requires 1 <= y <= MaxYear && 1 <= m <= 12 && 1 <= day <= 31
  {
    WeekName(y, m, part) + "-day" + Pad2(day)
  }

  function NameString(n: Name): string
    requires ValidName(n)
  {
    match n.node
    case MonthNode => MonthName(n.year, n.month)
    case WeekNode(part) => WeekName(n.year, n.month, part)
    case DayNode(part, day) => DayName(n.year, n.month, part, day)
  }

  /** Reads a base name back into the month and split position it names; `None` for anything the
      backfill does not write. */
  function ParseName(s: string): Option<Name> {
    if |s| < 17 || s[..10] != "contracts_" || s[14] != '-' || !AllDigits(s[10..14]) || !AllDigits(s[15..17])
    then None
    else ParseSuffix(DigitsValue(s[10..14]), DigitsValue(s[15..17]), s[17..])
  }

  /** What follows `contracts_YYYY-MM`: nothing, `-part{N}`, or `-part{N}-day{DD}`. */
  function ParseSuffix(y: int, m: int, rest: string): Option<Name> {
    if rest == [] then Some(Name(y, m, MonthNode))
    else if |rest| < 5 || rest[..5] != "-part" then None
    else
      var (digits, tail) := TakeDigits(rest[5..]);
      if digits == [] then None else ParseDayTail(y, m, DigitsValue(digits), tail)
  }

  /** What follows the part number: nothing, or `-day{DD}`. */
  function ParseDayTail(y: int, m: int, part: nat, tail: string): Option<Name> {
    if tail == [] then Some(Name(y, m, WeekNode(part)))
    else if |tail| == 6 && tail[..4] == "-day" && AllDigits(tail[4..])
    then Some(Name(y, m, DayNode(part, DigitsValue(tail[4..]))))
    else None
  }

  lemma ParseMonthPrefix(y: int, m: int, rest: string)
    requires 1 <= y <= MaxYear && 1 <= m <= 12
    ensures ParseName(MonthName(y, m) + rest) == ParseSuffix(y, m, rest)
  {
    var y4, m2 := Pad4(y), Pad2(m);
    var s := MonthName(y, m) + rest;
    assert s == "contracts_" + y4 + "-" + m2 + rest;
    assert s[..10] == "contracts_" && s[10..14] == y4 && s[14] == '-' && s[15..17] == m2;
    assert s[17..] == rest;
  }

  lemma ParseWeekSuffix(y: int, m: int, part: nat)
    ensures ParseSuffix(y, m, "-part" + NatToString(part)) == Some(Name(y, m, WeekNode(part)))
  {
    var ps := NatToString(part);
    var rest := "-part" + ps;
    assert rest[..5] == "-part" && rest[5..] == ps + [];
    TakeDigitsOf(ps, []);
    NatToStringRoundTrip(part);
  }

  lemma ParseDaySuffix(y: int, m: int, part: nat, day: int)
    requires 1 <= day <= 31
    ensures ParseSuffix(y, m, "-part" + NatToString(part) + "-day" + Pad2(day))
      == Some(Name(y, m, DayNode(part, day)))
  {
    var ps := NatToString(part);
    var tail := "-day" + Pad2(day);
    var rest := "-part" + ps + tail;
    assert rest == "-part" + NatToString(part) + "-day" + Pad2(day);
    assert rest[..5] == "-part" && rest[5..] == ps + tail;
    assert tail[0] == '-';
    TakeDigitsOf(ps, tail);
    NatToStringRoundTrip(part);
    assert tail[..4] == "-day" && tail[4..] == Pad2(day);
    assert ParseDayTail(y, m, part, tail) == Some(Name(y, m, DayNode(part, day)));
  }

  /** Every name the backfill writes decodes to the month and split position it was built from. */
  lemma ParseNameString(n: Name)
    requires ValidName(n)
    ensures ParseName(NameString(n)) == Some(n)
  {
    var mn := MonthName(n.year, n.month);
    match n.node
    case MonthNode =>
      assert NameString(n) == mn + [];
      ParseMonthPrefix(n.year, n.month, []);
    case WeekNode(part) =>
      assert NameString(n) == mn + ("-part" + NatToString(part));
      ParseMonthPrefix(n.year, n.month, "-part" + NatToString(part));
      ParseWeekSuffix(n.year, n.month, part);
    case DayNode(part, day) =>
      var rest := "-part" + NatToString(part) + "-day" + Pad2(day);
      assert NameString(n) == mn + rest;
      ParseMonthPrefix(n.year, n.month, rest);
      ParseDaySuffix(n.year, n.month, part, day);
  }

  /** Different split positions, or different months, never share a base name: no download can
      overwrite another's file. */
  lemma NameStringInjective(a: Name, b: Name)
    requires ValidName(a) && ValidName(b)
    requires NameString(a) == NameString(b)
    ensures a == b
  {
    ParseNameString(a);
    ParseNameString(b);
  }

  /** Every base name ends in a digit, so never in `.csv`. */
  lemma NameEndsInDigit(n: Name)
    requires ValidName(n)
    ensures var s := NameString(n); |s| > 0 && IsDigit(s[|s| - 1])
  {
    var s := NameString(n);
    match n.node
    case MonthNode =>
      assert s[|s| - 1] == Pad2(n.month)[1];
    case WeekNode(part) =>
      var ps := NatToString(part);
      assert s[|s| - 1] == ps[|ps| - 1];
    case DayNode(part, day) =>
      assert s[|s| - 1] == Pad2(day)[1];
  }
}
