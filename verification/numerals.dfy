/** Python 3's `int(text)` in base 10, as `_get_ws_address` applies it to the
    port text of the debugger URL, and the decimal rendering it inverts. */
module Numerals {
  import opened Outcomes
  import opened Strings

  predicate IsDigit(c: char) {
    '0' <= c <= '9'
  }

  /** ASCII characters for which `str.isspace()` holds. */
  predicate IsSpace(c: char) {
    c == ' ' || '\t' <= c <= '\r' || '\U{1C}' <= c <= '\U{1F}'
  }

  predicate AllDigits(s: string) {
    forall i :: 0 <= i < |s| ==> IsDigit(s[i])
  }

  /** `s` without its leading whitespace. */
  function TrimStart(s: string): (t: string)
    ensures |t| <= |s| && t == s[|s| - |t|..]
    ensures |t| == 0 || !IsSpace(t[0])
    ensures forall i :: 0 <= i < |s| - |t| ==> IsSpace(s[i])
  {
    if |s| > 0 && IsSpace(s[0]) then
      var t := TrimStart(s[1..]);
      assert s[1..][|s| - 1 - |t|..] == s[|s| - |t|..];
      t
    else s
  }

  /** `s` without its trailing whitespace. */
  function TrimEnd(s: string): (t: string)
    ensures |t| <= |s| && t == s[..|t|]
    ensures |t| == 0 || !IsSpace(t[|t| - 1])
    ensures forall i :: |t| <= i < |s| ==> IsSpace(s[i])
  {
    if |s| > 0 && IsSpace(s[|s| - 1]) then TrimEnd(s[..|s| - 1]) else s
  }

  /** Python's `s.strip()` restricted to ASCII whitespace. */
  function Strip(s: string): string {
    TrimEnd(TrimStart(s))
  }

  /** Decimal digits, optionally grouped by single underscores between digits
      (the literal grammar `int()` accepts since Python 3.6). */
  predicate IsDigitGroups(s: string) {
    && |s| > 0
    && IsDigit(s[0])
    && IsDigit(s[|s| - 1])
    && (forall i :: 0 <= i < |s| ==> IsDigit(s[i]) || s[i] == '_')
    && !Contains(s, "__")
  }

  /** The digits of `s` with the group separators removed. */
  function Ungroup(s: string): (d: string)
    requires forall i :: 0 <= i < |s| ==> IsDigit(s[i]) || s[i] == '_'
    ensures AllDigits(d)
    ensures |d| <= |s|
  {
    if |s| == 0 then ""
    else if s[0] == '_' then Ungroup(s[1..])
    else [s[0]] + Ungroup(s[1..])
  }

  function DigitValue(c: char): nat
    requires IsDigit(c)
  {
    c as int - '0' as int
  }

  /** Value of a string of decimal digits, most significant first. */
  function DecimalValue(s: string): nat
    requires AllDigits(s)
  {
    if |s| == 0 then 0 else 10 * DecimalValue(s[..|s| - 1]) + DigitValue(s[|s| - 1])
  }

  /** Python's `int(s)`: surrounding whitespace, then an optional sign, then
      grouped digits; anything else is the `ValueError` case, `None` here. */
  function ParseInt(s: string): Option<int> {
    ParseSigned(Strip(s))
  }

  /** `int()` on text already stripped of whitespace. */
  function ParseSigned(t: string): Option<int> {
    match ParseUnsigned(SignedBody(t))
    case None => None
    case Some(magnitude) =>
      Some(if |t| > 0 && t[0] == '-' then -(magnitude as int) else magnitude as int)
  }

  /** CPython's default bound on the digits `int()` converts from text
      (`sys.get_int_max_str_digits()`); the group separators do not count. */
  const MaxStrDigits: nat := 4300

  /** Value of grouped digits, `None` for any other text and for more digits
      than the conversion bound allows. */
  function ParseUnsigned(body: string): Option<nat> {
    if IsDigitGroups(body) && |Ungroup(body)| <= MaxStrDigits then Some(DecimalValue(Ungroup(body)))
    else None
  }

  /** What follows an optional leading sign. */
  function SignedBody(t: string): (body: string)
    ensures body == t || (|t| > 0 && (t[0] == '+' || t[0] == '-') && body == t[1..])
  {
    if |t| > 0 && (t[0] == '-' || t[0] == '+') then t[1..] else t
  }

  predicate IsNumeralChar(c: char) {
    IsDigit(c) || IsSpace(c) || c == '_' || c == '+' || c == '-'
  }

  /** After stripping, `int()` accepts only signs, digits and underscores,
      ending in a digit. */
  lemma {:induction false} ParseSignedAlphabet(t: string)
    requires ParseSigned(t).Some?
    ensures |t| > 0 && IsDigit(t[|t| - 1])
    ensures AllNumeralChars(t)
  {
    var body := SignedBody(t);
    assert IsDigitGroups(body);
    var off := |t| - |body|;
    assert body == t[off..];
    assert t[|t| - 1] == body[|body| - 1];
    forall i | 0 <= i < |t|
      ensures IsNumeralChar(t[i])
    {
      if i >= off {
        assert t[i] == body[i - off];
      }
    }
  }

  predicate AllNumeralChars(s: string) {
    forall i :: 0 <= i < |s| ==> IsNumeralChar(s[i])
  }

  /** Trailing whitespace adds only numeral characters. */
  lemma {:induction false} TrimEndAlphabet(s: string)
    requires AllNumeralChars(TrimEnd(s))
    ensures AllNumeralChars(s)
  {
    var t := TrimEnd(s);
    forall i | 0 <= i < |s|
      ensures IsNumeralChar(s[i])
    {
      if i < |t| {
        assert s[i] == t[i];
      }
    }
  }

  /** Leading whitespace adds only numeral characters. */
  lemma {:induction false} TrimStartAlphabet(s: string)
    requires AllNumeralChars(TrimStart(s))
    ensures AllNumeralChars(s)
  {
    var t := TrimStart(s);
    var a := |s| - |t|;
    forall i | 0 <= i < |s|
      ensures IsNumeralChar(s[i])
    {
      if a <= i {
        assert s[i] == t[i - a];
      }
    }
  }

  /** `int()` accepts only text made of whitespace, signs, digits and
      underscores, and holding at least one digit. */
  lemma {:induction false} ParseIntAlphabet(s: string)
    requires ParseInt(s).Some?
    ensures exists i :: 0 <= i < |s| && IsDigit(s[i])
    ensures forall i :: 0 <= i < |s| ==> IsNumeralChar(s[i])
  {
    var t0 := TrimStart(s);
    var t := TrimEnd(t0);
    ParseSignedAlphabet(t);
    TrimEndAlphabet(t0);
    TrimStartAlphabet(s);
    var a := |s| - |t0|;
    assert t[|t| - 1] == t0[|t| - 1];
    assert t0[|t| - 1] == s[a + |t| - 1];
  }

  function DigitChar(d: nat): (c: char)
    requires d < 10
    ensures IsDigit(c) && DigitValue(c) == d
  {
    ('0' as int + d) as char
  }

  /** Python's `str(n)` for a natural number. */
  function Show(n: nat): (s: string)
    ensures |s| > 0 && AllDigits(s)
  {
    if n < 10 then [DigitChar(n)] else Show(n / 10) + [DigitChar(n % 10)]
  }

  lemma {:induction false} DecimalValueShow(n: nat)
    ensures DecimalValue(Show(n)) == n
  {
    var s := Show(n);
    if n >= 10 {
      assert s[..|s| - 1] == Show(n / 10);
      DecimalValueShow(n / 10);
    }
  }

  lemma {:induction false} UngroupDigits(s: string)
    requires AllDigits(s)
    ensures Ungroup(s) == s
  {
    if |s| > 0 {
      UngroupDigits(s[1..]);
    }
  }

  lemma {:induction false} NoDoubleUnderscore(s: string)
    requires AllDigits(s)
    ensures !Contains(s, "__")
  {
    forall i: nat
      ensures !OccursAt("__", s, i)
    {
      if i + 2 <= |s| {
        assert s[i..i + 2][0] == s[i];
      }
    }
  }

  /** A plain run of digits parses to its decimal value, with or without a minus sign. */
  lemma {:induction false} ParseUnsignedDigits(s: string)
    requires |s| > 0 && AllDigits(s)
    ensures ParseUnsigned(s) == if |s| <= MaxStrDigits then Some(DecimalValue(s)) else None
  {
    NoDoubleUnderscore(s);
    UngroupDigits(s);
  }

  lemma {:induction false} ParseIntDigits(s: string)
    requires |s| > 0 && AllDigits(s)
    ensures ParseInt(s) == if |s| <= MaxStrDigits then Some(DecimalValue(s) as int) else None
  {
    assert TrimStart(s) == s;
    assert TrimEnd(s) == s;
    assert SignedBody(s) == s;
    ParseUnsignedDigits(s);
  }

  /** Stripping leaves a signed run of digits unchanged. */
  lemma {:induction false} StripNegatedDigits(s: string)
    requires |s| > 0 && AllDigits(s)
    ensures Strip("-" + s) == "-" + s
    ensures SignedBody("-" + s) == s
  {
    var m := "-" + s;
    assert TrimStart(m) == m;
    assert m[|m| - 1] == s[|s| - 1];
    assert m[1..] == s;
  }

  /** A minus sign in front of a run of digits negates its value. */
  lemma {:induction false} ParseIntNegatedDigits(s: string, v: nat)
    requires |s| > 0 && AllDigits(s) && DecimalValue(s) == v
    ensures ParseInt("-" + s) == if |s| <= MaxStrDigits then Some(-(v as int)) else None
  {
    StripNegatedDigits(s);
    ParseUnsignedDigits(s);
  }

  /** `int(str(n)) == n` and `int("-" + str(n)) == -n` while `str(n)` is
      within the conversion bound; beyond it both raise. */
  lemma {:induction false} ParseIntShow(n: nat)
    ensures ParseInt(Show(n)) == if |Show(n)| <= MaxStrDigits then Some(n) else None
    ensures ParseInt("-" + Show(n)) == if |Show(n)| <= MaxStrDigits then Some(-(n as int)) else None
  {
    DecimalValueShow(n);
    ParseIntDigits(Show(n));
    ParseIntNegatedDigits(Show(n), n);
  }
}
