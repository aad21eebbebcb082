/** Characters, decimal digits and the fixed-width numbers the backfill writes into dates and
    file names. Python's `str(int)`, `f"{n:02d}"`, `f"{n:04d}"` and `strftime` fields are all
    rendered here; ASCII digits only. */
module Text {

  datatype Option<T> = None | Some(value: T)

  predicate IsDigit(c: char) {
    '0' <= c <= '9'
  }

  predicate AllDigits(s: string) {
    forall i :: 0 <= i < |s| ==> IsDigit(s[i])
  }

  function DigitValue(c: char): nat
    requires IsDigit(c)
  {
    c as int - '0' as int
  }

  function DigitChar(n: nat): (c: char)
    requires n < 10
    ensures IsDigit(c) && DigitValue(c) == n
  {
    ('0' as int + n) as char
  }

  /** The number a run of decimal digits denotes (leading zeros allowed, as `int()` allows them). */
  function DigitsValue(s: string): nat
    requires AllDigits(s)
    decreases |s|
  {
    if s == [] then 0 else DigitsValue(s[..|s| - 1]) * 10 + DigitValue(s[|s| - 1])
  }

  /** The longest run of digits at the front of `s`, and what follows it. */
  function TakeDigits(s: string): (r: (string, string))
    ensures AllDigits(r.0) && r.0 + r.1 == s
    ensures r.1 != [] ==> !IsDigit(r.1[0])
    decreases |s|
  {
    if s != [] && IsDigit(s[0]) then
      var rest := TakeDigits(s[1..]);
      assert [s[0]] + rest.0 + rest.1 == s;
      ([s[0]] + rest.0, rest.1)
    else ([], s)
  }

  lemma {:induction false} TakeDigitsOf(d: string, r: string)
    requires AllDigits(d)
    requires r == [] || !IsDigit(r[0])
    ensures TakeDigits(d + r) == (d, r)
    decreases |d|
  {
    if d == [] {
      assert d + r == r;
    } else {
      assert (d + r)[1..] == d[1..] + r;
      TakeDigitsOf(d[1..], r);
      assert [d[0]] + d[1..] == d;
    }
  }

  /** Python's `str(n)` for a non-negative integer: decimal, no leading zeros. */
  function NatToString(n: nat): (s: string)
    ensures AllDigits(s) && 1 <= |s|
    ensures |s| > 1 ==> s[0] != '0'
    decreases n
  {
    if n < 10 then [DigitChar(n)] else NatToString(n / 10) + [DigitChar(n % 10)]
  }

  /** Python's `str(i)` for any integer: a minus sign before the magnitude of a negative number. */
  function IntToString(i: int): (s: string)
    ensures 1 <= |s|
    ensures (s[0] == '-') <==> i < 0
  {
    if i < 0 then "-" + NatToString(-i) else NatToString(i)
  }

  /** `f"{n:02d}"`, also strftime's `%d` and `%m`. */
  function Pad2(n: nat): (s: string)
    requires n < 100
    ensures |s| == 2 && AllDigits(s) && DigitsValue(s) == n
  {
    var s := [DigitChar(n / 10), DigitChar(n % 10)];
    assert s[..1][..0] == [];
    assert DigitsValue(s[..1]) == n / 10;
    s
  }

  /** `f"{n:04d}"`, also strftime's `%Y` for a four-digit year. */
  function Pad4(n: nat): (s: string)
    requires n < 10000
    ensures |s| == 4 && AllDigits(s) && DigitsValue(s) == n
  {
    var s := [DigitChar(n / 1000), DigitChar(n / 100 % 10), DigitChar(n / 10 % 10), DigitChar(n % 10)];
    assert s[..1][..0] == [];
    assert DigitsValue(s[..1]) == n / 1000;
    assert s[..2][..1] == s[..1];
    assert DigitsValue(s[..2]) == n / 100;
    assert s[..3][..2] == s[..2];
    assert DigitsValue(s[..3]) == n / 10;
    s
  }

  /** Two digit strings of the same length with the same value are the same string. */
  lemma {:induction false} DigitsValueInjective(a: string, b: string)
    requires AllDigits(a) && AllDigits(b) && |a| == |b|
    requires DigitsValue(a) == DigitsValue(b)
    ensures a == b
    decreases |a|
  {
    if a != [] {
      var n := |a| - 1;
      DigitsValueInjective(a[..n], b[..n]);
      assert a == a[..n] + [a[n]] && b == b[..n] + [b[n]];
    }
  }

  function Pow10(n: nat): (p: nat)
    ensures p >= 1
  {
    if n == 0 then 1 else 10 * Pow10(n - 1)
  }

  lemma {:induction false} DigitsValueBound(s: string)
    requires AllDigits(s)
    ensures DigitsValue(s) < Pow10(|s|)
    decreases |s|
  {
    if s != [] {
      DigitsValueBound(s[..|s| - 1]);
    }
  }

  /** A fixed-width field is the zero-padded rendering of its own value. */
  lemma PadCanonical(s: string)
    requires AllDigits(s)
    ensures |s| == 2 ==> DigitsValue(s) < 100 && Pad2(DigitsValue(s)) == s
    ensures |s| == 4 ==> DigitsValue(s) < 10000 && Pad4(DigitsValue(s)) == s
  {
    DigitsValueBound(s);
    if |s| == 2 {
      assert Pow10(2) == 100;
      DigitsValueInjective(Pad2(DigitsValue(s)), s);
    }
    if |s| == 4 {
      assert Pow10(4) == 10000;
      DigitsValueInjective(Pad4(DigitsValue(s)), s);
    }
  }

  /** Reading back what `str(n)` wrote gives `n`: the decimal rendering is injective. */
  lemma {:induction false} NatToStringRoundTrip(n: nat)
    ensures DigitsValue(NatToString(n)) == n
    decreases n
  {
    if n >= 10 {
      NatToStringRoundTrip(n / 10);
      var s := NatToString(n);
      assert s[..|s| - 1] == NatToString(n / 10);
    }
  }

  /** `str(i)` reads back as `i`: a minus sign and the magnitude's digits for a negative number,
      the digits of the value otherwise. */
  lemma IntToStringReadBack(i: int)
    ensures var s := IntToString(i);
      if i < 0 then s[0] == '-' && AllDigits(s[1..]) && DigitsValue(s[1..]) == -i
      else AllDigits(s) && DigitsValue(s) == i
  {
    if i < 0 {
      assert IntToString(i)[1..] == NatToString(-i);
      NatToStringRoundTrip(-i);
    } else {
      NatToStringRoundTrip(i);
    }
  }

  lemma NatToStringInjective(a: nat, b: nat)
    requires NatToString(a) == NatToString(b)
    ensures a == b
  {
    NatToStringRoundTrip(a);
    NatToStringRoundTrip(b);
  }

  /** The characters Python's `str.isspace()` (and so the regex class `\s`) accepts. */
  predicate IsSpace(c: char) {
    var n := c as int;
    (9 <= n <= 13) || (28 <= n <= 32) || n == 0x85 || n == 0xA0 || n == 0x1680
    || (0x2000 <= n <= 0x200A) || n == 0x2028 || n == 0x2029 || n == 0x202F
    || n == 0x205F || n == 0x3000
  }

  predicate AllSpaces(s: string) {
    forall i :: 0 <= i < |s| ==> IsSpace(s[i])
  }

  /** The longest run of whitespace at the front of `s` (what a greedy `\s*` consumes), and what
      follows it. */
  function TakeSpaces(s: string): (r: (string, string))
    ensures AllSpaces(r.0) && r.0 + r.1 == s
    ensures r.1 != [] ==> !IsSpace(r.1[0])
    decreases |s|
  {
    if s != [] && IsSpace(s[0]) then
      var rest := TakeSpaces(s[1..]);
      assert [s[0]] + rest.0 + rest.1 == s;
      ([s[0]] + rest.0, rest.1)
    else ([], s)
  }

  lemma {:induction false} TakeSpacesOf(w: string, r: string)
    requires AllSpaces(w)
    requires r == [] || !IsSpace(r[0])
    ensures TakeSpaces(w + r) == (w, r)
    decreases |w|
  {
    if w == [] {
      assert w + r == r;
    } else {
      assert (w + r)[1..] == w[1..] + r;
      TakeSpacesOf(w[1..], r);
      assert [w[0]] + w[1..] == w;
    }
  }

  /** ASCII lower-casing, the part of `str.lower()` that can matter to a `.csv` suffix test. */
  function AsciiLower(c: char): (r: char)
    ensures 'A' <= c <= 'Z' ==> 'a' <= r <= 'z'
    ensures !('A' <= c <= 'Z') ==> r == c
  {
    if 'A' <= c <= 'Z' then (c as int + 32) as char else c
  }

  function LowerString(s: string): (r: string)
    ensures |r| == |s| && forall i :: 0 <= i < |s| ==> r[i] == AsciiLower(s[i])
  {
    seq(|s|, i requires 0 <= i < |s| => AsciiLower(s[i]))
  }

  predicate EndsWith(s: string, suffix: string) {
    |suffix| <= |s| && s[|s| - |suffix|..] == suffix
  }
}
