/** The arithmetic part of `solve_arithmetic_captcha`: the question text is matched against
    `^\s*(\d+)\s*([ops])\s*(\d+)\s*=?\s*$`, and the operator is looked up in the table
    `{"+": add, "-": sub, "*": mul, "x": mul}`; the answer is `str` of the result. The newer
    downloader's operator class is `+ - * ×`; the older one's is the mis-encoded `+ - * Ã —`. */
module Captcha {
  import opened Text

  datatype Variant = Current | Legacy

  /** The regex's operator character class. */
  function Operators(v: Variant): set<char> {
    match v
    case Current => {'+', '-', '*', '\U{00D7}'}
    case Legacy => {'+', '-', '*', '\U{00C3}', '\U{2014}'}
  }

  /** The keys of the operator table. */
  const TableOperators: set<char> := {'+', '-', '*', 'x'}

  /** The end of a question: whitespace, an optional `=`, and whitespace after it. Without `=` all
      the trailing whitespace is in `gap`, so each accepted text has exactly one decomposition. */
  datatype Ending = Ending(gap: string, equals: bool, trail: string)

  /** The operand after the operator, with the whitespace before it and the ending after it. */
  datatype RightPart = RightPart(gap: string, digits: string, ending: Ending)

  /** A question the regex accepts, cut into the pieces its parts match. */
  datatype Question = Question(lead: string, left: string, gap: string, op: char, right: RightPart)

  function RenderEnding(e: Ending): string {
    e.gap + (if e.equals then "=" else "") + e.trail
  }

  function RenderRight(r: RightPart): string {
    r.gap + r.digits + RenderEnding(r.ending)
  }

  function Render(q: Question): string {
    q.lead + q.left + q.gap + [q.op] + RenderRight(q.right)
  }

  predicate EndingWellFormed(e: Ending) {
    AllSpaces(e.gap) && AllSpaces(e.trail) && (!e.equals ==> e.trail == [])
  }

  predicate RightWellFormed(r: RightPart) {
    AllSpaces(r.gap) && r.digits != [] && AllDigits(r.digits) && EndingWellFormed(r.ending)
  }

  predicate WellFormed(ops: set<char>, q: Question) {
    AllSpaces(q.lead) && q.left != [] && AllDigits(q.left) && AllSpaces(q.gap)
    && q.op in ops && RightWellFormed(q.right)
  }

  /** An operator class the scan can delimit: no operator is whitespace, a digit or `=`. */
  predicate Delimited(ops: set<char>) {
    forall c :: c in ops ==> !IsSpace(c) && !IsDigit(c) && c != '='
  }

  lemma OperatorsDelimited(v: Variant)
    ensures Delimited(Operators(v))
  {
  }

  /** `\s*=?\s*$` at the end of the text. */
  function MatchEnding(s: string): Option<Ending> {
    var (gap, s1) := TakeSpaces(s);
    if s1 == [] then Some(Ending(gap, false, []))
    else if s1[0] != '=' then None
    else
      var (trail, s2) := TakeSpaces(s1[1..]);
      if s2 == [] then Some(Ending(gap, true, trail)) else None
  }

  /** `\s*(\d+)` followed by the ending. */
  function MatchRight(s: string): (r: Option<RightPart>)
    ensures r.Some? ==> AllDigits(r.value.digits)
  {
    var (gap, s1) := TakeSpaces(s);
    var (digits, s2) := TakeDigits(s1);
    if digits == [] then None
    else
      match MatchEnding(s2)
      case None => None
      case Some(e) => Some(RightPart(gap, digits, e))
  }

  /** `re.search` of the question pattern: the pieces are delimited by character class, so a left
      to right scan with greedy runs finds the only match there is. */
  function MatchQuestion(ops: set<char>, s: string): (r: Option<Question>)
    ensures r.Some? ==> AllDigits(r.value.left) && AllDigits(r.value.right.digits) && r.value.op in ops
  {
    var (lead, s1) := TakeSpaces(s);
    var (left, s2) := TakeDigits(s1);
    var (gap, s3) := TakeSpaces(s2);
    if left == [] || s3 == [] || s3[0] !in ops then None
    else
      match MatchRight(s3[1..])
      case None => None
      case Some(rp) => Some(Question(lead, left, gap, s3[0], rp))
  }

  lemma EqualsSplit(s: string, gap: string, s1: string, trail: string)
    requires gap + s1 == s && s1 != [] && s1[0] == '=' && trail == s1[1..]
    ensures gap + "=" + trail == s
  {
    assert s1 == "=" + trail;
  }

  /** What the ending scan accepts is a well-formed ending, and exactly the text it was given. */
  lemma MatchEndingSound(s: string)
    ensures MatchEnding(s).Some? ==> EndingWellFormed(MatchEnding(s).value) && RenderEnding(MatchEnding(s).value) == s
  {
    var (gap, s1) := TakeSpaces(s);
    if s1 != [] && s1[0] == '=' {
      var (trail, s2) := TakeSpaces(s1[1..]);
      if s2 == [] {
        EqualsSplit(s, gap, s1, trail);
      }
    }
  }

  lemma Assoc3(a: string, b: string, c: string)
    ensures a + (b + c) == a + b + c
  {
  }

  lemma MatchRightSound(s: string)
    ensures MatchRight(s).Some? ==> RightWellFormed(MatchRight(s).value) && RenderRight(MatchRight(s).value) == s
  {
    var (gap, s1) := TakeSpaces(s);
    var (digits, s2) := TakeDigits(s1);
    if digits != [] {
      MatchEndingSound(s2);
      Assoc3(gap, digits, s2);
    }
  }

  /** The pieces the scan cuts off, put back together, give the text it scanned. */
  lemma QuestionParts(s: string, lead: string, s1: string, left: string, s2: string, gap: string, s3: string, rest: string)
    requires lead + s1 == s && left + s2 == s1 && gap + s3 == s2
    requires s3 != [] && rest == s3[1..]
    ensures lead + left + gap + [s3[0]] + rest == s
  {
    assert s3 == [s3[0]] + rest;
  }

  /** Every match is a question of the shape the regex describes, and renders back to exactly the
      text it was found in. */
  lemma MatchQuestionSound(ops: set<char>, s: string)
    ensures MatchQuestion(ops, s).Some? ==> WellFormed(ops, MatchQuestion(ops, s).value) && Render(MatchQuestion(ops, s).value) == s
  {
    var (lead, s1) := TakeSpaces(s);
    var (left, s2) := TakeDigits(s1);
    var (gap, s3) := TakeSpaces(s2);
    if !(left == [] || s3 == [] || s3[0] !in ops) {
      MatchRightSound(s3[1..]);
      if MatchRight(s3[1..]).Some? {
        QuestionParts(s, lead, s1, left, s2, gap, s3, RenderRight(MatchRight(s3[1..]).value));
      }
    }
  }

  lemma MatchEndingComplete(e: Ending)
    requires EndingWellFormed(e)
    ensures MatchEnding(RenderEnding(e)) == Some(e)
  {
    if e.equals {
      assert RenderEnding(e) == e.gap + ("=" + e.trail);
      TakeSpacesOf(e.gap, "=" + e.trail);
      assert ("=" + e.trail)[1..] == e.trail + [];
      TakeSpacesOf(e.trail, []);
    } else {
      assert RenderEnding(e) == e.gap + [];
      TakeSpacesOf(e.gap, []);
    }
  }

  lemma MatchRightComplete(r: RightPart)
    requires RightWellFormed(r)
    ensures MatchRight(RenderRight(r)) == Some(r)
  {
    var rest := RenderEnding(r.ending);
    assert RenderRight(r) == r.gap + (r.digits + rest);
    TakeSpacesOf(r.gap, r.digits + rest);
    if rest != [] {
      assert rest[0] == '=' || IsSpace(rest[0]);
    }
    TakeDigitsOf(r.digits, rest);
    MatchEndingComplete(r.ending);
  }

  /** Every text of the shape the regex describes is matched, with exactly its own pieces. */
  lemma MatchQuestionComplete(ops: set<char>, q: Question)
    requires Delimited(ops) && WellFormed(ops, q)
    ensures MatchQuestion(ops, Render(q)) == Some(q)
  {
    var s3 := [q.op] + RenderRight(q.right);
    var s2 := q.gap + s3;
    var s1 := q.left + s2;
    assert Render(q) == q.lead + s1;
    TakeSpacesOf(q.lead, s1);
    TakeDigitsOf(q.left, s2);
    TakeSpacesOf(q.gap, s3);
    assert s3[1..] == RenderRight(q.right);
    MatchRightComplete(q.right);
  }

  /** A question text has at most one decomposition. */
  lemma RenderInjective(ops: set<char>, q1: Question, q2: Question)
    requires Delimited(ops) && WellFormed(ops, q1) && WellFormed(ops, q2)
    requires Render(q1) == Render(q2)
    ensures q1 == q2
  {
    MatchQuestionComplete(ops, q1);
    MatchQuestionComplete(ops, q2);
  }

  /** The operator table: `None` where the operator is not one of its keys. */
  function Apply(op: char, a: int, b: int): (r: Option<int>)
    ensures r.Some? <==> op in TableOperators
  {
    if op == '+' then Some(a + b)
    else if op == '-' then Some(a - b)
    else if op == '*' || op == 'x' then Some(a * b)
    else None
  }

  /** `str` of the table's result, if the operator is a key. */
  function Respond(op: char, a: int, b: int): Option<string> {
    match Apply(op, a, b)
    case None => None
    case Some(n) => Some(IntToString(n))
  }

  /** The operator table: `str` of the sum, of the difference (negative when the right operand is
      larger) or of the product, and nothing for an operator that is not a key. */
  lemma RespondCases(op: char, a: int, b: int)
    ensures Respond(op, a, b) ==
      if op == '+' then Some(IntToString(a + b))
      else if op == '-' then Some(IntToString(a - b))
      else if op == '*' || op == 'x' then Some(IntToString(a * b))
      else None
  {
    if op == '*' || op == 'x' {
      assert Apply(op, a, b) == Some(a * b);
    }
  }

  /** The answer to a matched question. */
  function Answer(m: Option<Question>): Option<string>
    requires m.Some? ==> AllDigits(m.value.left) && AllDigits(m.value.right.digits)
  {
    match m
    case None => None
    case Some(q) => Respond(q.op, DigitsValue(q.left), DigitsValue(q.right.digits))
  }

  /** The arithmetic part of `solve_arithmetic_captcha` on the (stripped) question text. */
  function SolveCaptcha(v: Variant, text: string): Option<string> {
    Answer(MatchQuestion(Operators(v), text))
  }

  /** A rendered question is answered by the table entry for its own operator and operands. */
  lemma SolveRendered(v: Variant, q: Question)
    requires WellFormed(Operators(v), q)
    ensures SolveCaptcha(v, Render(q)) == Respond(q.op, DigitsValue(q.left), DigitsValue(q.right.digits))
  {
    OperatorsDelimited(v);
    MatchQuestionComplete(Operators(v), q);
  }

  /** Only texts the regex accepts get an answer, and only with `+`, `-` or `*`: the table's `x`
      entry is never reached, since `x` is in neither character class. */
  lemma SolveCaptchaNeedsMatch(v: Variant, text: string)
    requires SolveCaptcha(v, text).Some?
    ensures MatchQuestion(Operators(v), text).Some?
    ensures MatchQuestion(Operators(v), text).value.op in {'+', '-', '*'}
  {
    var m := MatchQuestion(Operators(v), text);
    assert m.value.op in Operators(v) && m.value.op in TableOperators;
  }

  /** Every answer is a non-empty string, so the caller's truthiness test accepts it. */
  lemma AnswerNonEmpty(v: Variant, text: string)
    requires SolveCaptcha(v, text).Some?
    ensures |SolveCaptcha(v, text).value| >= 1
  {
  }

  lemma MatchAcrossClasses(ops1: set<char>, ops2: set<char>, s: string)
    requires Delimited(ops1) && Delimited(ops2)
    requires MatchQuestion(ops1, s).Some? && MatchQuestion(ops1, s).value.op in ops2
    ensures MatchQuestion(ops2, s) == MatchQuestion(ops1, s)
  {
    var q := MatchQuestion(ops1, s).value;
    MatchQuestionSound(ops1, s);
    MatchQuestionComplete(ops2, q);
  }

  /** A match whose operator is not a key of the table gets no answer. */
  lemma NoAnswerOutsideTable(m: Option<Question>)
    requires m.Some? ==> AllDigits(m.value.left) && AllDigits(m.value.right.digits)
    requires m.Some? ==> m.value.op !in TableOperators
    ensures Answer(m) == None
  {
  }

  /** The mis-encoded class of the older downloader loses nothing: both solvers give the same
      answer on every text, because only `+`, `-` and `*` ever produce one. */
  lemma LegacySolverAgrees(text: string)
    ensures SolveCaptcha(Legacy, text) == SolveCaptcha(Current, text)
  {
    var cur, leg := Operators(Current), Operators(Legacy);
    OperatorsDelimited(Current);
    OperatorsDelimited(Legacy);
    var mc, ml := MatchQuestion(cur, text), MatchQuestion(leg, text);
    if mc.Some? && mc.value.op in leg {
      MatchAcrossClasses(cur, leg, text);
    } else if ml.Some? && ml.value.op in cur {
      MatchAcrossClasses(leg, cur, text);
    } else {
      assert mc.Some? ==> mc.value.op in cur - leg;
      assert ml.Some? ==> ml.value.op in leg - cur;
      NoAnswerOutsideTable(mc);
      NoAnswerOutsideTable(ml);
    }
  }
}
