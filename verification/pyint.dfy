/** Python's `int(text)` for base-10 text, and the decimal rendering `str(n)` that
    tracebacks use for line numbers. */
module PyInt {
  import opened Wrappers
  import opened PyStr

  predicate IsDigit(c: char) {
    '0' as int <= c as int <= '9' as int
  }

  function DigitValue(c: char): nat
    requires IsDigit(c)
  {
    c as int - '0' as int
  }

  /** The digit part `int()` accepts: ASCII digits, starting and ending with a digit,
      with single underscores allowed between digits. */
  predicate IsDigitRun(b: string) {
    && |b| > 0 && IsDigit(b[0]) && IsDigit(b[|b| - 1])
    && (forall k :: 0 <= k < |b| ==> IsDigit(b[k]) || b[k] == '_')
    && (forall k :: 0 <= k < |b| - 1 ==> b[k] == '_' ==> b[k + 1] != '_')
  }

  /** The value of a run of digits and underscores, underscores ignored. */
  function DigitsValue(b: string): nat
    requires forall k :: 0 <= k < |b| ==> IsDigit(b[k]) || b[k] == '_'
    decreases |b|
  {
    if |b| == 0 then 0
    else if b[|b| - 1] == '_' then DigitsValue(b[..|b| - 1])
    else DigitsValue(b[..|b| - 1]) * 10 + DigitValue(b[|b| - 1])
  }

  /** The most digits `int()` converts from text, the default of
      `sys.get_int_max_str_digits()`: a longer number raises `ValueError`. */
  const MaxStrDigits: nat := 4300

  /** How many digits a run holds, underscores not counted. */
  function DigitCount(b: string): nat
    decreases |b|
  {
    if |b| == 0 then 0
    else DigitCount(b[..|b| - 1]) + (if b[|b| - 1] == '_' then 0 else 1)
  }

  /** The digit part `int()` converts: a digit run within the digit limit. */
  predicate IsNumeral(b: string) {
    IsDigitRun(b) && DigitCount(b) <= MaxStrDigits
  }

  /** The value a sign and a numeral stand for. */
  function SignedValue(sign: string, d: string): int
    requires IsNumeral(d)
  {
    if sign == "-" then -(DigitsValue(d) as int) else DigitsValue(d)
  }

  /** `s` is an integer literal `int()` accepts, cut into its parts: whitespace `int()`
      skips, an optional sign, a numeral, and more skipped whitespace. */
  ghost predicate IntLiteral(s: string, lead: string, sign: string, d: string, trail: string) {
    && s == lead + sign + d + trail
    && AllBlank(IntBlanks, lead) && AllBlank(IntBlanks, trail)
    && (sign == "" || sign == "-" || sign == "+")
    && IsNumeral(d)
  }

  ghost predicate IsIntLiteral(s: string) {
    exists lead, sign, d, trail :: IntLiteral(s, lead, sign, d, trail)
  }

  /** `int(s)`, with `None` where Python raises `ValueError`: a number exactly when `s`
      is an integer literal, and then the value its sign and numeral stand for. */
  function ParseInt(s: string): (r: Option<int>)
    ensures r.Some? <==> IsIntLiteral(s)
    ensures forall lead, sign, d, trail :: IntLiteral(s, lead, sign, d, trail) ==> r == Some(SignedValue(sign, d))
  {
    LiteralsAreTrimmed(s);
    LiteralOfTrim(s);
    ParseTrimmed(Trim(IntBlanks, s))
  }

  /** `int()` once the whitespace it skips is gone: one optional sign, then a numeral. */
  function ParseTrimmed(t: string): Option<int> {
    if |t| > 0 && (t[0] == '-' || t[0] == '+') then
      if IsNumeral(t[1..]) then
        var v: int := DigitsValue(t[1..]);
        Some(if t[0] == '-' then -v else v)
      else None
    else if IsNumeral(t) then Some(DigitsValue(t))
    else None
  }

  /** Every literal reading of `s` trims to its sign and numeral, which read as its value. */
  lemma LiteralsAreTrimmed(s: string)
    ensures forall lead, sign, d, trail :: IntLiteral(s, lead, sign, d, trail) ==>
      Trim(IntBlanks, s) == sign + d && ParseTrimmed(sign + d) == Some(SignedValue(sign, d))
  {
    forall lead, sign, d, trail | IntLiteral(s, lead, sign, d, trail)
      ensures Trim(IntBlanks, s) == sign + d && ParseTrimmed(sign + d) == Some(SignedValue(sign, d))
    {
      PaddedLiteralTrimmed(lead, sign, d, trail);
      ParseSignedNumeral(sign, d);
    }
  }

  /** Skipped whitespace around a sign and a numeral is all that trimming removes. */
  lemma PaddedLiteralTrimmed(lead: string, sign: string, d: string, trail: string)
    requires AllBlank(IntBlanks, lead) && AllBlank(IntBlanks, trail)
    requires sign == "" || sign == "-" || sign == "+"
    requires IsNumeral(d)
    ensures Trim(IntBlanks, lead + sign + d + trail) == sign + d
  {
    SignedNumeralTrimmed(sign, d);
    PaddedTrimmed(lead, sign + d, trail);
    ConcatRegroup(lead, sign, d, trail);
  }

  lemma ConcatRegroup(a: string, b: string, c: string, d: string)
    ensures a + b + c + d == a + (b + c) + d
  {
  }

  lemma PaddedTrimmed(lead: string, w: string, trail: string)
    requires AllBlank(IntBlanks, lead) && AllBlank(IntBlanks, trail)
    requires Trim(IntBlanks, w) == w
    ensures Trim(IntBlanks, lead + w + trail) == w
  {
    TrimIgnoresSurroundingBlanks(IntBlanks, lead, w, trail);
  }

  /** A sign and a numeral have nothing to trim. */
  lemma SignedNumeralTrimmed(sign: string, d: string)
    requires sign == "" || sign == "-" || sign == "+"
    requires IsNumeral(d)
    ensures Trim(IntBlanks, sign + d) == sign + d
  {
    var w := sign + d;
    DigitNotSpace(d[0]);
    DigitNotSpace(d[|d| - 1]);
    assert w[|w| - 1] == d[|d| - 1];
    assert w[0] == if sign == "" then d[0] else sign[0];
    TrimNoSurroundingBlanks(IntBlanks, w);
  }

  lemma ParseSignedNumeral(sign: string, d: string)
    requires sign == "" || sign == "-" || sign == "+"
    requires IsNumeral(d)
    ensures ParseTrimmed(sign + d) == Some(SignedValue(sign, d))
  {
    var w := sign + d;
    if sign == "" {
      assert w == d;
      DigitNotSpace(d[0]);
    } else {
      assert w[0] == sign[0] && w[1..] == d;
    }
  }

  /** Whatever `int()` reads is an integer literal: the trimmed text is a sign and a
      numeral, and the trimmed-off ends are skipped whitespace. */
  lemma LiteralOfTrim(s: string)
    ensures ParseTrimmed(Trim(IntBlanks, s)).Some? ==> IsIntLiteral(s)
  {
    var t := Trim(IntBlanks, s);
    if ParseTrimmed(t).Some? {
      var i, j :| TrimAt(IntBlanks, t, s, i, j);
      assert s == s[..i] + t + s[j..];
      LiteralOfParts(s[..i], t, s[j..]);
    }
  }

  lemma LiteralOfParts(lead: string, t: string, trail: string)
    requires AllBlank(IntBlanks, lead) && AllBlank(IntBlanks, trail)
    requires ParseTrimmed(t).Some?
    ensures IsIntLiteral(lead + t + trail)
  {
    var sign, d := SignAndNumeral(t);
    assert lead + t + trail == lead + sign + d + trail;
    assert IntLiteral(lead + t + trail, lead, sign, d, trail);
  }

  /** A text `int()` reads once trimmed is an optional sign followed by a numeral. */
  lemma SignAndNumeral(t: string) returns (sign: string, d: string)
    requires ParseTrimmed(t).Some?
    ensures t == sign + d && (sign == "" || sign == "-" || sign == "+") && IsNumeral(d)
  {
    if |t| > 0 && (t[0] == '-' || t[0] == '+') {
      sign, d := t[..1], t[1..];
      assert sign == [t[0]];
    } else {
      sign, d := "", t;
    }
  }

  /** `str(n)` for `n >= 0`. */
  function ShowNat(n: nat): (r: string)
    ensures |r| > 0
    ensures forall k :: 0 <= k < |r| ==> IsDigit(r[k])
  {
    if n < 10 then [('0' as int + n) as char]
    else ShowNat(n / 10) + [('0' as int + n % 10) as char]
  }

  /** `str(n)`. */
  function ShowInt(n: int): string {
    if n < 0 then "-" + ShowNat(-n) else ShowNat(n)
  }

  lemma {:induction false} DigitsValueShow(n: nat)
    ensures DigitsValue(ShowNat(n)) == n
  {
    if n >= 10 {
      var x := ShowNat(n / 10);
      var r := ShowNat(n);
      assert r[..|r| - 1] == x;
      DigitsValueShow(n / 10);
    }
  }

  lemma DigitNotSpace(c: char)
    requires IsDigit(c)
    ensures !IsSpace(c) && c != '-' && c != '+'
  {
  }

  /** In a run of digits alone every character counts. */
  lemma {:induction false} DigitCountOfDigits(b: string)
    requires forall k :: 0 <= k < |b| ==> IsDigit(b[k])
    ensures DigitCount(b) == |b|
    decreases |b|
  {
    if |b| > 0 {
      DigitCountOfDigits(b[..|b| - 1]);
    }
  }

  /** `int()` of a text that is already stripped and unsigned reads its digit run, as
      long as the run is within the digit limit. */
  lemma ParseDigitRun(d: string)
    requires IsDigitRun(d)
    ensures ParseInt(d) == if DigitCount(d) <= MaxStrDigits then Some(DigitsValue(d)) else None
  {
    DigitNotSpace(d[0]);
    DigitNotSpace(d[|d| - 1]);
    TrimNoSurroundingBlanks(IntBlanks, d);
  }

  /** A number with more digits than the limit is refused, even though it is a
      well-formed digit run. */
  lemma LongNumeralRefused()
    ensures ParseInt(seq(MaxStrDigits + 1, _ => '9')) == None
  {
    var d: string := seq(MaxStrDigits + 1, _ => '9');
    DigitCountOfDigits(d);
    ParseDigitRun(d);
  }

  /** The rendering of a number within the limit. */
  predicate ShowsWithinLimit(m: nat) {
    |ShowNat(m)| <= MaxStrDigits
  }

  lemma ParseShowNat(m: nat)
    requires ShowsWithinLimit(m)
    ensures ParseInt(ShowNat(m)) == Some(m)
  {
    DigitsValueShow(m);
    ShowNatIsRun(m);
    DigitCountOfDigits(ShowNat(m));
    ParseDigitRun(ShowNat(m));
  }

  lemma ParseShowNegative(m: nat)
    requires ShowsWithinLimit(m)
    ensures ParseInt("-" + ShowNat(m)) == Some(-(m as int))
  {
    DigitsValueShow(m);
    ShowNatIsRun(m);
    DigitCountOfDigits(ShowNat(m));
    ParseNegatedRun(ShowNat(m), m);
  }

  lemma ShowNatIsRun(m: nat)
    ensures IsDigitRun(ShowNat(m))
  {
  }

  /** `int("-" + d)` for a numeral `d` is minus its value. */
  lemma ParseNegatedRun(d: string, m: nat)
    requires IsNumeral(d) && DigitsValue(d) == m
    ensures ParseInt("-" + d) == Some(-(m as int))
  {
    var s := "-" + d;
    assert s[|s| - 1] == d[|d| - 1];
    DigitNotSpace(d[|d| - 1]);
    TrimNoSurroundingBlanks(IntBlanks, s);
    assert s[1..] == d;
    ParseNegativeRun(s);
  }

  /** `int()` of a trimmed `"-"` followed by a numeral is the negated numeral. */
  lemma ParseNegativeRun(s: string)
    requires Trim(IntBlanks, s) == s && |s| > 0 && s[0] == '-' && IsNumeral(s[1..])
    ensures ParseInt(s) == Some(-(DigitsValue(s[1..]) as int))
  {
  }

  /** `int()` looks only at the text without the whitespace it skips. */
  lemma ParseSeesTrim(a: string, b: string)
    requires Trim(IntBlanks, a) == Trim(IntBlanks, b)
    ensures ParseInt(a) == ParseInt(b)
  {
  }

  /** `int(str(n)) == n` for every integer whose rendering is within the digit limit
      (past it, `str(n)` itself raises). */
  lemma ParseShowRoundTrip(n: int)
    requires ShowsWithinLimit(if n < 0 then -n else n)
    ensures ParseInt(ShowInt(n)) == Some(n)
  {
    if n < 0 {
      ParseShowNegative(-n);
    } else {
      ParseShowNat(n);
    }
  }

  /** `int()` reads the same number with or without the whitespace it skips around it. */
  lemma ParseIgnoresSurroundingSpace(lead: string, s: string, trail: string)
    requires AllBlank(IntBlanks, lead) && AllBlank(IntBlanks, trail)
    ensures ParseInt(lead + s + trail) == ParseInt(s)
  {
    TrimIgnoresSurroundingBlanks(IntBlanks, lead, s, trail);
    ParseSeesTrim(lead + s + trail, s);
  }

  /** A separator character U+001C to U+001F in front of a text makes `int()` raise,
      although `str.strip()` would remove it. */
  lemma ParseRefusesSeparator(c: char, s: string)
    requires '\U{1c}' <= c <= '\U{1f}'
    ensures ParseInt([c] + s) == None
    ensures Strip([c] + s) == Strip(s)
  {
    TrimKeepsFirst(IntBlanks, [c] + s);
    ParseReadsTrim([c] + s);
    NoDigitNoSignFirst(Trim(IntBlanks, [c] + s));
    SeparatorStripped(c, s);
  }

  lemma ParseReadsTrim(s: string)
    ensures ParseInt(s) == ParseTrimmed(Trim(IntBlanks, s))
  {
  }

  /** Trimmed text that starts with neither a digit nor a sign is not a number. */
  lemma NoDigitNoSignFirst(t: string)
    requires |t| > 0 && !IsDigit(t[0]) && t[0] != '-' && t[0] != '+'
    ensures ParseTrimmed(t) == None
  {
  }

  lemma SeparatorStripped(c: char, s: string)
    requires '\U{1c}' <= c <= '\U{1f}'
    ensures Strip([c] + s) == Strip(s)
  {
    assert AllBlank(StripBlanks, [c]) && AllBlank(StripBlanks, []);
    assert [c] + s == [c] + s + [];
    TrimIgnoresSurroundingBlanks(StripBlanks, [c], s, []);
  }

  /** Text with no digit in it never parses. */
  lemma ParseNeedsDigit(s: string)
    requires forall k :: 0 <= k < |s| ==> !IsDigit(s[k])
    ensures ParseInt(s) == None
  {
    var t := Trim(IntBlanks, s);
    var i, j :| TrimAt(IntBlanks, t, s, i, j);
    if |t| > 1 {
      assert t[1] == s[i + 1];
    }
    if |t| > 0 {
      assert t[0] == s[i];
    }
  }
}
