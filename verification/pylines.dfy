/** Python's `str.splitlines()`, which the classifier uses to walk captured output
    and to take its last line. */
module PyLines {

  /** The characters `str.splitlines` treats as line boundaries; `"\r\n"` is one boundary. */
  predicate IsLineBreak(c: char) {
    || c == '\n' || c == '\r' || c == '\U{0b}' || c == '\U{0c}'
    || c == '\U{1c}' || c == '\U{1d}' || c == '\U{1e}'
    || c == '\U{85}' || c == '\U{2028}' || c == '\U{2029}'
  }

  predicate NoBreak(s: string) {
    forall k :: 0 <= k < |s| ==> !IsLineBreak(s[k])
  }

  /** Index of the first line-boundary character of `s` at or after `i`, or `|s|`. */
  function BreakFrom(s: string, i: nat): (k: nat)
    requires i <= |s|
    ensures i <= k <= |s|
    ensures forall m :: i <= m < k ==> !IsLineBreak(s[m])
    ensures k < |s| ==> IsLineBreak(s[k])
    decreases |s| - i
  {
    if i == |s| || IsLineBreak(s[i]) then i else BreakFrom(s, i + 1)
  }

  /** Index of the first line-boundary character of `s`, or `|s|` when there is none. */
  function FirstBreak(s: string): (i: nat)
    ensures i <= |s|
    ensures NoBreak(s[..i])
    ensures i < |s| ==> IsLineBreak(s[i])
  {
    var i := BreakFrom(s, 0);
    assert forall m :: 0 <= m < i ==> s[..i][m] == s[m];
    i
  }

  /** The first line boundary is fixed by the text: a break preceded only by non-breaks. */
  lemma FirstBreakAt(s: string, j: nat)
    requires j <= |s| && NoBreak(s[..j]) && (j < |s| ==> IsLineBreak(s[j]))
    ensures FirstBreak(s) == j
  {
    assert forall m :: 0 <= m < j ==> s[..j][m] == s[m];
  }

  /** Length of the boundary at `s[i]`: two for `"\r\n"`, one otherwise. */
  function BreakWidth(s: string, i: nat): nat
    requires i < |s|
  {
    if s[i] == '\r' && i + 1 < |s| && s[i + 1] == '\n' then 2 else 1
  }

  /** `s.splitlines()`: the lines of `s` without their boundaries; a boundary at the
      very end does not open another (empty) line, and `""` has no lines at all. */
  function SplitLines(s: string): (r: seq<string>)
    ensures |r| == 0 <==> |s| == 0
    decreases |s|
  {
    if |s| == 0 then []
    else
      var i := FirstBreak(s);
      if i == |s| then [s]
      else [s[..i]] + SplitLines(s[i + BreakWidth(s, i)..])
  }

  /** No line `splitlines` returns holds a boundary character. */
  lemma {:induction false} SplitLinesNoBreak(s: string)
    ensures forall k :: 0 <= k < |SplitLines(s)| ==> NoBreak(SplitLines(s)[k])
    decreases |s|
  {
    if |s| > 0 && FirstBreak(s) < |s| {
      var i := FirstBreak(s);
      var rest := s[i + BreakWidth(s, i)..];
      SplitLinesNoBreak(rest);
      assert SplitLines(s) == [s[..i]] + SplitLines(rest);
    }
  }

  /** A text with no boundary inside is one line, whether or not a `"\n"` ends it. */
  lemma SplitLinesOne(line: string)
    requires NoBreak(line)
    ensures |line| > 0 ==> SplitLines(line) == [line]
    ensures SplitLines(line + "\n") == [line]
  {
    FirstBreakAt(line, |line|);
    var s := line + "\n";
    assert s[..|line|] == line;
    FirstBreakAt(s, |line|);
    assert s[|line| + 1..] == [];
  }

  /** One line boundary as it appears in text: `"\r\n"` or a single boundary character. */
  predicate IsBoundary(b: string) {
    b == "\r\n" || (|b| == 1 && IsLineBreak(b[0]))
  }

  /** A boundary-free line followed by any boundary is split off as one line, and the
      rest of the text is split on its own; a lone `"\r"` counts as the boundary only
      when the rest does not start with `"\n"`. With `SplitLinesOne` for the final line,
      this fixes `splitlines` on every text. */
  lemma SplitLinesStep(x: string, b: string, rest: string)
    requires NoBreak(x) && IsBoundary(b)
    requires !(b == "\r" && |rest| > 0 && rest[0] == '\n')
    ensures SplitLines(x + b + rest) == [x] + SplitLines(rest)
  {
    var s := x + b + rest;
    assert s[..|x|] == x;
    assert s[|x|] == b[0];
    FirstBreakAt(s, |x|);
    assert BreakWidth(s, |x|) == |b| by {
      if b == "\r\n" {
        assert s[|x| + 1] == '\n';
      } else if |rest| > 0 {
        assert s[|x| + 1] == rest[0];
      }
    }
    assert s[|x| + |b|..] == rest;
    SplitLinesAt(s, |x|, |b|, x, rest);
  }

  /** A boundary-free line closed by any one boundary is that one line. */
  lemma SplitLinesClosed(line: string, b: string)
    requires NoBreak(line) && IsBoundary(b)
    ensures SplitLines(line + b) == [line]
  {
    SplitLinesStep(line, b, []);
    assert line + b + [] == line + b;
  }

  lemma SplitLinesAt(s: string, i: nat, w: nat, x: string, rest: string)
    requires i == FirstBreak(s) && i < |s| && w == BreakWidth(s, i)
    requires x == s[..i] && rest == s[i + w..]
    ensures SplitLines(s) == [x] + SplitLines(rest)
  {
  }

  lemma FirstBreakPrefix(a: string, b: string)
    requires FirstBreak(a) < |a|
    ensures FirstBreak(a + b) == FirstBreak(a)
  {
    var i := FirstBreak(a);
    assert (a + b)[..i] == a[..i];
    FirstBreakAt(a + b, i);
  }

  /** A boundary inside `a` has the same width in `a + b`, unless it is a final
      `"\r"` that `b` would complete to `"\r\n"`. */
  lemma BreakWidthAppend(a: string, b: string, i: nat)
    requires i < |a|
    requires !(a[|a| - 1] == '\r' && |b| > 0 && b[0] == '\n')
    ensures BreakWidth(a + b, i) == BreakWidth(a, i)
  {
    assert (a + b)[i] == a[i];
    if i + 1 < |a| {
      assert (a + b)[i + 1] == a[i + 1];
    }
  }

  /** The first line of `a + b` is the first line of `a` when `a` ends at a boundary,
      and both continue with the same remainder of `a`. */
  lemma SplitLinesAppendStep(a: string, b: string) returns (x: string, tail: string)
    requires |a| > 0 && IsLineBreak(a[|a| - 1])
    requires !(a[|a| - 1] == '\r' && |b| > 0 && b[0] == '\n')
    ensures SplitLines(a + b) == [x] + SplitLines(tail + b)
    ensures SplitLines(a) == [x] + SplitLines(tail)
    ensures |tail| < |a| && (|tail| > 0 ==> tail[|tail| - 1] == a[|a| - 1])
  {
    var i, w := AppendStepFacts(a, b);
    tail := a[i + w..];
    x := a[..i];
    SplitLinesAt(a + b, i, w, x, tail + b);
    SplitLinesAt(a, i, w, x, tail);
  }

  /** Where the first boundary of `a + b` lies and how wide it is, when `a` ends at one. */
  lemma AppendStepFacts(a: string, b: string) returns (i: nat, w: nat)
    requires |a| > 0 && IsLineBreak(a[|a| - 1])
    requires !(a[|a| - 1] == '\r' && |b| > 0 && b[0] == '\n')
    ensures i == FirstBreak(a) == FirstBreak(a + b) && i < |a|
    ensures w == BreakWidth(a, i) == BreakWidth(a + b, i) && i + w <= |a|
    ensures (a + b)[..i] == a[..i] && (a + b)[i + w..] == a[i + w..] + b
  {
    i := FirstBreak(a);
    FirstBreakPrefix(a, b);
    w := BreakWidth(a, i);
    BreakWidthAppend(a, b, i);
    assert (a + b)[i + w..] == a[i + w..] + b;
    assert (a + b)[..i] == a[..i];
  }

  /** Once a text ends at a line boundary, what follows it is split on its own. */
  lemma {:induction false} SplitLinesAppend(a: string, b: string)
    requires |a| > 0 && IsLineBreak(a[|a| - 1])
    requires !(a[|a| - 1] == '\r' && |b| > 0 && b[0] == '\n')
    ensures SplitLines(a + b) == SplitLines(a) + SplitLines(b)
    decreases |a|
  {
    var x, tail := SplitLinesAppendStep(a, b);
    var lt, lb := SplitLines(tail), SplitLines(b);
    if |tail| == 0 {
      assert tail + b == b;
      assert lt == [];
      assert [x] + lt == [x];
    } else {
      SplitLinesAppend(tail, b);
      ConsAssoc(x, lt, lb);
    }
  }

  /** How many characters the boundary closing `s` takes: two for `"\r\n"`, one for any
      other break, none when `s` does not end at a boundary. */
  function ClosingWidth(s: string): (w: nat)
    ensures w <= |s|
  {
    if |s| >= 2 && s[|s| - 2] == '\r' && s[|s| - 1] == '\n' then 2
    else if |s| >= 1 && IsLineBreak(s[|s| - 1]) then 1
    else 0
  }

  /** `s` without the one line boundary it ends with, if it ends with one. */
  function DropFinalBreak(s: string): (body: string)
    ensures |body| <= |s| && body == s[..|body|]
  {
    s[..|s| - ClosingWidth(s)]
  }

  /** `x` is the text after the last line boundary of `body` (all of it when there is
      none). */
  predicate IsFinalLine(body: string, x: string) {
    && |x| <= |body| && body[|body| - |x|..] == x && NoBreak(x)
    && (|x| < |body| ==> IsLineBreak(body[|body| - |x| - 1]))
  }

  /** A text has one final line. */
  lemma FinalLineUnique(body: string, x: string, y: string)
    requires IsFinalLine(body, x) && IsFinalLine(body, y)
    ensures x == y
  {
  }

  /** The last line `splitlines` returns is the final line of the text once its closing
      boundary, if any, is dropped. */
  lemma {:induction false} LastOfSplitLines(s: string)
    requires |s| > 0
    ensures |SplitLines(s)| > 0
    ensures IsFinalLine(DropFinalBreak(s), SplitLines(s)[|SplitLines(s)| - 1])
    decreases |s|
  {
    var i := FirstBreak(s);
    if i == |s| {
      OnlyLine(s);
    } else {
      var w := BreakWidth(s, i);
      if i + w == |s| {
        ClosedFirstLine(s, i, w);
      } else {
        LastOfSplitLines(s[i + w..]);
        LastLineOfRest(s, i, w);
      }
    }
  }

  /** A text without a boundary is its own last line. */
  lemma OnlyLine(s: string)
    requires |s| > 0 && FirstBreak(s) == |s|
    ensures |SplitLines(s)| > 0
    ensures IsFinalLine(DropFinalBreak(s), SplitLines(s)[|SplitLines(s)| - 1])
  {
    assert s[..|s|] == s;
    assert SplitLines(s) == [s];
    assert DropFinalBreak(s) == s;
    assert s[|s| - |s|..] == s;
  }

  /** When the first boundary closes the text, the first line is also the last. */
  lemma ClosedFirstLine(s: string, i: nat, w: nat)
    requires i == FirstBreak(s) && i < |s| && w == BreakWidth(s, i) && i + w == |s|
    ensures |SplitLines(s)| > 0
    ensures IsFinalLine(DropFinalBreak(s), SplitLines(s)[|SplitLines(s)| - 1])
  {
    LastOfClosed(s, i, w);
    LastBoundary(s, i, w);
    var x := s[..i];
    assert SplitLines(s)[|SplitLines(s)| - 1] == x;
    assert x[|x| - |x|..] == x;
  }

  /** Past the first boundary, the last line and the final line both come from the rest. */
  lemma LastLineOfRest(s: string, i: nat, w: nat)
    requires i == FirstBreak(s) && i < |s| && w == BreakWidth(s, i) && i + w < |s|
    requires |SplitLines(s[i + w..])| > 0
    requires IsFinalLine(DropFinalBreak(s[i + w..]), SplitLines(s[i + w..])[|SplitLines(s[i + w..])| - 1])
    ensures |SplitLines(s)| > 0
    ensures IsFinalLine(DropFinalBreak(s), SplitLines(s)[|SplitLines(s)| - 1])
  {
    var rest := s[i + w..];
    var x := SplitLines(rest)[|SplitLines(rest)| - 1];
    LastFromRest(s, i, w);
    InnerBoundary(s, i, w);
    FinalLineOfRest(s, i + w, x);
  }

  /** When the first boundary closes the text, the first line is the only one. */
  lemma LastOfClosed(s: string, i: nat, w: nat)
    requires i == FirstBreak(s) && i < |s| && w == BreakWidth(s, i) && i + w == |s|
    ensures SplitLines(s) == [s[..i]]
  {
    SplitLinesAt(s, i, w, s[..i], s[i + w..]);
    assert SplitLines(s[i + w..]) == [];
  }

  /** Otherwise the last line is the last line of what follows the first boundary. */
  lemma LastFromRest(s: string, i: nat, w: nat)
    requires i == FirstBreak(s) && i < |s| && w == BreakWidth(s, i) && i + w < |s|
    ensures |SplitLines(s[i + w..])| > 0
    ensures SplitLines(s)[|SplitLines(s)| - 1] == SplitLines(s[i + w..])[|SplitLines(s[i + w..])| - 1]
  {
    SplitLinesAt(s, i, w, s[..i], s[i + w..]);
  }

  /** The final line after an inner break is the final line of the whole text. */
  lemma FinalLineOfRest(s: string, k: nat, x: string)
    requires 0 < k < |s| && IsLineBreak(s[k - 1]) && !(s[k - 1] == '\r' && s[k] == '\n')
    requires IsFinalLine(DropFinalBreak(s[k..]), x)
    ensures IsFinalLine(DropFinalBreak(s), x)
  {
    DropFinalBreakSuffix(s, k);
    FinalLineAfter(s[..k], DropFinalBreak(s[k..]), x);
  }

  /** When the first boundary closes the text, dropping it leaves the first line. */
  lemma LastBoundary(s: string, i: nat, w: nat)
    requires i == FirstBreak(s) && i < |s| && w == BreakWidth(s, i) && i + w == |s|
    ensures DropFinalBreak(s) == s[..i]
  {
    if w == 1 && i > 0 {
      assert s[..i][i - 1] == s[i - 1];
    }
  }

  /** A boundary inside the text ends on a break that does not join with what follows. */
  lemma InnerBoundary(s: string, i: nat, w: nat)
    requires i == FirstBreak(s) && i < |s| && w == BreakWidth(s, i) && i + w < |s|
    ensures IsLineBreak(s[i + w - 1]) && !(s[i + w - 1] == '\r' && s[i + w] == '\n')
  {
  }

  /** Dropping the closing boundary only touches the part after an inner break. */
  lemma DropFinalBreakSuffix(s: string, k: nat)
    requires 0 < k < |s| && IsLineBreak(s[k - 1]) && !(s[k - 1] == '\r' && s[k] == '\n')
    ensures DropFinalBreak(s) == s[..k] + DropFinalBreak(s[k..])
  {
    var t := s[k..];
    ClosingWidthSuffix(s, k);
    var w := ClosingWidth(t);
    assert s[..|s| - w] == s[..k] + t[..|t| - w];
  }

  /** The boundary closing the text is the one closing its part after an inner break. */
  lemma ClosingWidthSuffix(s: string, k: nat)
    requires 0 < k < |s| && IsLineBreak(s[k - 1]) && !(s[k - 1] == '\r' && s[k] == '\n')
    ensures ClosingWidth(s) == ClosingWidth(s[k..])
  {
    var t := s[k..];
    assert t[|t| - 1] == s[|s| - 1];
    if |t| >= 2 {
      assert t[|t| - 2] == s[|s| - 2];
    } else {
      assert s[|s| - 2] == s[k - 1];
    }
  }

  /** The final line survives putting text that ends at a boundary in front. */
  lemma FinalLineAfter(pre: string, body: string, x: string)
    requires |pre| > 0 && IsLineBreak(pre[|pre| - 1]) && IsFinalLine(body, x)
    ensures IsFinalLine(pre + body, x)
  {
    var b := pre + body;
    assert b[|b| - |x|..] == body[|body| - |x|..];
    if |x| < |body| {
      assert b[|b| - |x| - 1] == body[|body| - |x| - 1];
    } else {
      assert b[|b| - |x| - 1] == pre[|pre| - 1];
    }
  }

  lemma ConsAssoc(x: string, l1: seq<string>, l2: seq<string>)
    ensures [x] + (l1 + l2) == ([x] + l1) + l2
  {
  }
}
