/** Python `str` operations used by the grading service: `strip`, `in`,
    `find`, `split`, `join`, `count` and `lower`, on `string = seq<char>`. */
module PyStr {
  import opened Wrappers

  /** Python's `str.isspace` for a single character. */
  predicate IsSpace(c: char) {
    || c == ' '
    || ('\t' <= c <= '\r')
    || ('\U{1c}' <= c <= '\U{1f}')
    || c == '\U{85}' || c == '\U{a0}' || c == '\U{1680}'
    || ('\U{2000}' <= c <= '\U{200a}')
    || c == '\U{2028}' || c == '\U{2029}' || c == '\U{202f}' || c == '\U{205f}' || c == '\U{3000}'
  }

  /** The two kinds of whitespace the service trims. `StripBlanks` is what `str.strip()`
      removes: every `str.isspace` character. `IntBlanks` is what `int()` skips around a
      number: it turns non-ASCII whitespace into a space and then skips only the ASCII
      space, tab, newline, vertical tab, form feed and carriage return, so the
      separators U+001C to U+001F are not skipped. */
  datatype Blanks = StripBlanks | IntBlanks

  predicate IsBlank(b: Blanks, c: char) {
    IsSpace(c) && (b.StripBlanks? || !('\U{1c}' <= c <= '\U{1f}'))
  }

  ghost predicate AllBlank(b: Blanks, s: string) {
    forall k :: 0 <= k < |s| ==> IsBlank(b, s[k])
  }

  // ---------------------------------------------------------------------------
  // strip
  // ---------------------------------------------------------------------------

  /** The end of the run of blanks that starts at `i`. */
  function BlankRunEnd(b: Blanks, s: string, i: nat): (k: nat)
    requires i <= |s|
    ensures i <= k <= |s|
    ensures forall m :: i <= m < k ==> IsBlank(b, s[m])
    ensures k == |s| || !IsBlank(b, s[k])
    decreases |s| - i
  {
    if i < |s| && IsBlank(b, s[i]) then BlankRunEnd(b, s, i + 1) else i
  }

  /** The start of the run of blanks that ends at `j`, not going below `lo`. */
  function BlankRunStart(b: Blanks, s: string, lo: nat, j: nat): (k: nat)
    requires lo <= j <= |s|
    ensures lo <= k <= j
    ensures forall m :: k <= m < j ==> IsBlank(b, s[m])
    ensures k == lo || !IsBlank(b, s[k - 1])
    decreases j - lo
  {
    if lo < j && IsBlank(b, s[j - 1]) then BlankRunStart(b, s, lo, j - 1) else j
  }

  /** `r` is the slice `s[i..j]`, it starts and ends with a non-blank, and only blanks
      lie before `i` and from `j` on. */
  ghost predicate TrimAt(b: Blanks, r: string, s: string, i: int, j: int) {
    && 0 <= i <= j <= |s|
    && r == s[i..j]
    && AllBlank(b, s[..i])
    && AllBlank(b, s[j..])
    && (r == [] || (!IsBlank(b, r[0]) && !IsBlank(b, r[|r| - 1])))
  }

  /** `r` is `s` without its surrounding blanks. */
  ghost predicate IsTrimOf(b: Blanks, r: string, s: string) {
    exists i, j :: TrimAt(b, r, s, i, j)
  }

  /** `s` with the blanks of kind `b` removed from both ends. */
  function Trim(b: Blanks, s: string): (r: string)
    ensures IsTrimOf(b, r, s)
  {
    var i := BlankRunEnd(b, s, 0);
    var j := BlankRunStart(b, s, i, |s|);
    TrimWitness(b, s, i, j);
    s[i..j]
  }

  /** `s.strip()`. */
  function Strip(s: string): string {
    Trim(StripBlanks, s)
  }

  lemma TrimWitness(b: Blanks, s: string, i: nat, j: nat)
    requires i <= j <= |s|
    requires forall m :: 0 <= m < i ==> IsBlank(b, s[m])
    requires i == |s| || !IsBlank(b, s[i])
    requires forall m :: j <= m < |s| ==> IsBlank(b, s[m])
    requires j == i || !IsBlank(b, s[j - 1])
    ensures TrimAt(b, s[i..j], s, i, j)
  {
    assert forall m :: 0 <= m < i ==> s[..i][m] == s[m];
    assert forall m :: 0 <= m < |s| - j ==> s[j..][m] == s[j + m];
  }

  lemma AllBlankConcat(b: Blanks, x: string, y: string)
    requires AllBlank(b, x) && AllBlank(b, y)
    ensures AllBlank(b, x + y)
  {
    forall k | 0 <= k < |x + y| ensures IsBlank(b, (x + y)[k]) {
      if k < |x| {
        assert (x + y)[k] == x[k];
      } else {
        assert (x + y)[k] == y[k - |x|];
      }
    }
  }

  lemma BlankBefore(b: Blanks, s: string, i: int, k: int)
    requires 0 <= k < i <= |s| && AllBlank(b, s[..i])
    ensures IsBlank(b, s[k])
  {
    assert s[..i][k] == s[k];
  }

  lemma BlankFrom(b: Blanks, s: string, j: int, k: int)
    requires 0 <= j <= k < |s| && AllBlank(b, s[j..])
    ensures IsBlank(b, s[k])
  {
    assert s[j..][k - j] == s[k];
  }

  /** Where a trim sits in `s`: everything before it and after it is blank, and it
      starts and ends with a non-blank; an empty trim leaves only blanks. */
  lemma TrimAtBounds(b: Blanks, r: string, s: string, i: int, j: int)
    requires TrimAt(b, r, s, i, j)
    ensures forall k :: 0 <= k < i ==> IsBlank(b, s[k])
    ensures forall k :: j <= k < |s| ==> IsBlank(b, s[k])
    ensures r != [] ==> i < j && !IsBlank(b, s[i]) && !IsBlank(b, s[j - 1])
    ensures r == [] ==> forall k :: 0 <= k < |s| ==> IsBlank(b, s[k])
  {
    forall k | 0 <= k < i ensures IsBlank(b, s[k]) {
      BlankBefore(b, s, i, k);
    }
    forall k | j <= k < |s| ensures IsBlank(b, s[k]) {
      BlankFrom(b, s, j, k);
    }
    assert r == s[i..j];
  }

  /** The two ends of a non-empty trim are the first and last non-blank characters of
      `s`, so they are fixed by `s`. */
  lemma {:induction false} TrimAtUnique(b: Blanks, r1: string, r2: string, s: string, i1: int, j1: int, i2: int, j2: int)
    requires TrimAt(b, r1, s, i1, j1) && TrimAt(b, r2, s, i2, j2)
    ensures r1 == r2
  {
    TrimAtBounds(b, r1, s, i1, j1);
    TrimAtBounds(b, r2, s, i2, j2);
  }

  /** There is only one way to trim a string, so `IsTrimOf` defines `Trim`. */
  lemma TrimUnique(b: Blanks, r1: string, r2: string, s: string)
    requires IsTrimOf(b, r1, s) && IsTrimOf(b, r2, s)
    ensures r1 == r2
  {
    var i1, j1 :| TrimAt(b, r1, s, i1, j1);
    var i2, j2 :| TrimAt(b, r2, s, i2, j2);
    TrimAtUnique(b, r1, r2, s, i1, j1, i2, j2);
  }

  /** Blanks added around a string do not change its trim. */
  lemma TrimIgnoresSurroundingBlanks(b: Blanks, lead: string, s: string, trail: string)
    requires AllBlank(b, lead) && AllBlank(b, trail)
    ensures Trim(b, lead + s + trail) == Trim(b, s)
  {
    var w := lead + s + trail;
    PaddedTrimOf(b, lead, s, trail, Trim(b, s));
    TrimUnique(b, Trim(b, w), Trim(b, s), w);
  }

  lemma PaddedTrimOf(b: Blanks, lead: string, s: string, trail: string, r: string)
    requires IsTrimOf(b, r, s) && AllBlank(b, lead) && AllBlank(b, trail)
    ensures IsTrimOf(b, r, lead + s + trail)
  {
    var i, j :| TrimAt(b, r, s, i, j);
    TrimAtPadded(b, r, s, i, j, lead, trail);
  }

  lemma TrimAtPadded(b: Blanks, r: string, s: string, i: int, j: int, lead: string, trail: string)
    requires TrimAt(b, r, s, i, j) && AllBlank(b, lead) && AllBlank(b, trail)
    ensures TrimAt(b, r, lead + s + trail, |lead| + i, |lead| + j)
  {
    var w := lead + s + trail;
    assert w[|lead| + i..|lead| + j] == r;
    assert w[..|lead| + i] == lead + s[..i];
    AllBlankConcat(b, lead, s[..i]);
    assert w[|lead| + j..] == s[j..] + trail;
    AllBlankConcat(b, s[j..], trail);
  }

  /** A text that begins and ends with a non-blank is its own trim. */
  lemma TrimNoSurroundingBlanks(b: Blanks, s: string)
    requires |s| > 0 && !IsBlank(b, s[0]) && !IsBlank(b, s[|s| - 1])
    ensures Trim(b, s) == s
  {
    assert s[0..|s|] == s && s[..0] == [] && s[|s|..] == [];
    assert TrimAt(b, s, s, 0, |s|);
    TrimUnique(b, Trim(b, s), s, s);
  }

  /** Trimming twice is trimming once: stripping a stripped text changes nothing. */
  lemma TrimIdempotent(b: Blanks, s: string)
    ensures Trim(b, Trim(b, s)) == Trim(b, s)
  {
    var r := Trim(b, s);
    assert r[0..|r|] == r;
    assert r[..0] == [] && r[|r|..] == [];
    assert TrimAt(b, r, r, 0, |r|);
    TrimUnique(b, Trim(b, r), r, r);
  }

  /** A text that starts with a non-blank keeps that character at the front of its trim. */
  lemma TrimKeepsFirst(b: Blanks, w: string)
    requires |w| > 0 && !IsBlank(b, w[0])
    ensures |Trim(b, w)| > 0 && Trim(b, w)[0] == w[0]
  {
    var t := Trim(b, w);
    var i, j :| TrimAt(b, t, w, i, j);
    TrimAtBounds(b, t, w, i, j);
  }

  // ---------------------------------------------------------------------------
  // find / in
  // ---------------------------------------------------------------------------

  /** `sub` occurs in `s` starting at index `i`. */
  predicate OccursAt(s: string, sub: string, i: int) {
    0 <= i && i + |sub| <= |s| && s[i..i + |sub|] == sub
  }

  lemma OccursShift(s: string, sub: string, j: int)
    requires |s| > 0 && 0 <= j
    ensures OccursAt(s[1..], sub, j) <==> OccursAt(s, sub, j + 1)
  {
    if 0 <= j && j + |sub| <= |s| - 1 {
      assert s[1..][j..j + |sub|] == s[j + 1..j + 1 + |sub|];
    }
  }

  /** `s.find(sub)`, with `None` in place of `-1`: the first index where `sub` occurs. */
  function Find(s: string, sub: string): (r: Option<nat>)
    ensures r.Some? ==> OccursAt(s, sub, r.value) && forall j :: 0 <= j < r.value ==> !OccursAt(s, sub, j)
    ensures r.None? ==> forall j :: !OccursAt(s, sub, j)
    decreases |s|
  {
    if |s| < |sub| then None
    else if s[..|sub|] == sub then
      assert s[0..|sub|] == s[..|sub|];
      Some(0)
    else
      assert s[0..|sub|] == s[..|sub|];
      var r := Find(s[1..], sub);
      assert forall j | 0 <= j :: OccursAt(s[1..], sub, j) <==> OccursAt(s, sub, j + 1) by {
        forall j | 0 <= j ensures OccursAt(s[1..], sub, j) <==> OccursAt(s, sub, j + 1) {
          OccursShift(s, sub, j);
        }
      }
      match r
      case None =>
        assert forall j :: !OccursAt(s, sub, j) by {
          forall j ensures !OccursAt(s, sub, j) {
            if j > 0 { assert !OccursAt(s[1..], sub, j - 1); }
          }
        }
        None
      case Some(i) =>
        assert forall j :: 0 <= j < i + 1 ==> !OccursAt(s, sub, j) by {
          forall j | 0 <= j < i + 1 ensures !OccursAt(s, sub, j) {
            if j > 0 { assert !OccursAt(s[1..], sub, j - 1); }
          }
        }
        Some(i + 1)
  }

  /** Python's `sub in s`. */
  predicate Contains(s: string, sub: string) {
    Find(s, sub).Some?
  }

  /** Text around an occurrence does not hide it. */
  lemma {:induction false} ContainsWithin(a: string, s: string, b: string, sub: string)
    requires Contains(s, sub)
    ensures Contains(a + s + b, sub)
  {
    var i := Find(s, sub).value;
    var w := a + s + b;
    assert w[|a| + i..|a| + i + |sub|] == s[i..i + |sub|];
    assert OccursAt(w, sub, |a| + i);
  }

  lemma OccursInPrefix(s: string, n: int, sub: string, j: int)
    requires 0 <= n <= |s|
    requires OccursAt(s[..n], sub, j)
    ensures OccursAt(s, sub, j)
  {
    assert s[..n][j..j + |sub|] == s[j..j + |sub|];
  }

  // ---------------------------------------------------------------------------
  // split / join / count
  // ---------------------------------------------------------------------------

  /** `sep.join(parts)`. */
  function Join(sep: string, parts: seq<string>): string
    decreases |parts|
  {
    if |parts| == 0 then ""
    else if |parts| == 1 then parts[0]
    else parts[0] + sep + Join(sep, parts[1..])
  }

  /** `s.split(sep)` for a non-empty separator (Python raises for an empty one):
      the pieces between the non-overlapping occurrences of `sep`, left to right. */
  function SplitOn(s: string, sep: string): (r: seq<string>)
    requires |sep| > 0
    ensures |r| >= 1
    decreases |s|
  {
    match Find(s, sep)
    case None => [s]
    case Some(i) => [s[..i]] + SplitOn(s[i + |sep|..], sep)
  }

  /** The pieces of a split, joined again with the separator, give back the text. */
  lemma {:induction false} SplitOnJoin(s: string, sep: string)
    requires |sep| > 0
    ensures Join(sep, SplitOn(s, sep)) == s
    decreases |s|
  {
    match Find(s, sep)
    case None =>
    case Some(i) =>
      var rest := s[i + |sep|..];
      SplitOnJoin(rest, sep);
      JoinSplitStep(s, sep, i);
      CutAt(s, sep, i);
  }

  lemma JoinSplitStep(s: string, sep: string, i: nat)
    requires |sep| > 0 && Find(s, sep) == Some(i)
    ensures Join(sep, SplitOn(s, sep)) == s[..i] + sep + Join(sep, SplitOn(s[i + |sep|..], sep))
  {
    var tail := SplitOn(s[i + |sep|..], sep);
    var r := SplitOn(s, sep);
    assert r == [s[..i]] + tail;
    assert |r| >= 2 && r[0] == s[..i] && r[1..] == tail;
  }

  /** A text is its part before an occurrence, the occurrence, and the part after it. */
  lemma CutAt(s: string, sub: string, i: int)
    requires OccursAt(s, sub, i)
    ensures s == s[..i] + sub + s[i + |sub|..]
  {
    assert s[i..i + |sub|] == sub;
  }

  /** There are two or more pieces exactly when the separator occurs, and no piece
      contains the separator. */
  lemma {:induction false} SplitOnPieces(s: string, sep: string)
    requires |sep| > 0
    ensures |SplitOn(s, sep)| >= 2 <==> Contains(s, sep)
    ensures forall k :: 0 <= k < |SplitOn(s, sep)| ==> !Contains(SplitOn(s, sep)[k], sep)
    decreases |s|
  {
    match Find(s, sep)
    case None =>
    case Some(i) =>
      var rest := s[i + |sep|..];
      SplitOnPieces(rest, sep);
      var r := SplitOn(s, sep);
      assert r == [s[..i]] + SplitOn(rest, sep);
      assert !Contains(s[..i], sep) by {
        if Contains(s[..i], sep) {
          OccursInPrefix(s, i, sep, Find(s[..i], sep).value);
        }
      }
      assert forall k :: 1 <= k < |r| ==> r[k] == SplitOn(rest, sep)[k - 1];
  }

  /** The first piece of `s.split(sep)` is the text before the first `sep`. */
  lemma SplitHead(s: string, sep: string)
    requires |sep| > 0
    ensures Find(s, sep).Some? ==> SplitOn(s, sep)[0] == s[..Find(s, sep).value]
    ensures Find(s, sep).None? ==> SplitOn(s, sep)[0] == s
  {
  }

  /** The second piece of `s.split(sep)`, when `sep` occurs, is the first piece of the
      text after the first `sep`. */
  lemma SplitSecond(s: string, sep: string)
    requires |sep| > 0 && Contains(s, sep)
    ensures SplitOn(s, sep)[1] == SplitOn(s[Find(s, sep).value + |sep|..], sep)[0]
  {
    var i := Find(s, sep).value;
    var tail := SplitOn(s[i + |sep|..], sep);
    assert SplitOn(s, sep) == [s[..i]] + tail;
    assert ([s[..i]] + tail)[1] == tail[0];
  }

  /** `s.count(c)` for a one-character string `c`. */
  function CountChar(s: string, c: char): nat
    decreases |s|
  {
    if |s| == 0 then 0 else (if s[0] == c then 1 else 0) + CountChar(s[1..], c)
  }

  lemma {:induction false} CountCharAppend(a: string, b: string, c: char)
    ensures CountChar(a + b, c) == CountChar(a, c) + CountChar(b, c)
    decreases |a|
  {
    if |a| > 0 {
      assert (a + b)[1..] == a[1..] + b;
      CountCharAppend(a[1..], b, c);
    } else {
      assert a + b == b;
    }
  }

  lemma {:induction false} CountCharAbsent(s: string, c: char)
    requires forall k :: 0 <= k < |s| ==> s[k] != c
    ensures CountChar(s, c) == 0
    decreases |s|
  {
    if |s| > 0 { CountCharAbsent(s[1..], c); }
  }

  /** `s.split(c)` for a one-character separator has one more piece than `s.count(c)`. */
  lemma {:induction false} SplitCount(s: string, c: char)
    ensures |SplitOn(s, [c])| == CountChar(s, c) + 1
    decreases |s|
  {
    match Find(s, [c])
    case None =>
      forall k | 0 <= k < |s| ensures s[k] != c {
        assert !OccursAt(s, [c], k);
        assert s[k..k + 1] == [s[k]];
      }
      CountCharAbsent(s, c);
    case Some(i) =>
      assert s[i..i + 1] == [c];
      forall k | 0 <= k < i ensures s[..i][k] != c {
        assert !OccursAt(s, [c], k);
        assert s[k..k + 1] == [s[k]];
      }
      CountCharAbsent(s[..i], c);
      assert s == s[..i] + [c] + s[i + 1..];
      CountCharAppend(s[..i] + [c], s[i + 1..], c);
      CountCharAppend(s[..i], [c], c);
      SplitCount(s[i + 1..], c);
  }

  /** The first occurrence of a one-character string is the first index holding it. */
  lemma FindCharAt(s: string, c: char, n: int)
    requires 0 <= n < |s| && s[n] == c
    requires forall k :: 0 <= k < n ==> s[k] != c
    ensures Find(s, [c]) == Some(n)
  {
    assert s[n..n + 1] == [c];
    assert OccursAt(s, [c], n);
    var i := Find(s, [c]).value;
    assert s[i..i + 1] == [s[i]];
  }

  lemma FindCharNone(s: string, c: char)
    requires Find(s, [c]).None?
    ensures c !in s
  {
    forall k | 0 <= k < |s| ensures s[k] != c {
      assert !OccursAt(s, [c], k);
      assert s[k..k + 1] == [s[k]];
    }
  }

  lemma FindCharAbsent(s: string, c: char)
    requires c !in s
    ensures Find(s, [c]).None?
  {
    forall j ensures !OccursAt(s, [c], j) {
      if 0 <= j < |s| {
        assert s[j..j + 1] == [s[j]];
      }
    }
  }

  /** Splitting at a single separator character splits the pieces on either side. */
  lemma SplitAround(a: string, b: string, c: char)
    requires c !in a
    ensures SplitOn(a + [c] + b, [c]) == [a] + SplitOn(b, [c])
  {
    var s := a + [c] + b;
    FindCharAt(s, c, |a|);
    assert s[..|a|] == a;
    assert s[|a| + 1..] == b;
  }

  /** Splitting on one character undoes joining on it, when no part holds that character. */
  lemma {:induction false} SplitJoin(parts: seq<string>, c: char)
    requires |parts| > 0
    requires forall k :: 0 <= k < |parts| ==> c !in parts[k]
    ensures SplitOn(Join([c], parts), [c]) == parts
    decreases |parts|
  {
    var p := parts[0];
    if |parts| == 1 {
      FindCharAbsent(p, c);
    } else {
      var rest := Join([c], parts[1..]);
      assert Join([c], parts) == p + [c] + rest;
      SplitAround(p, rest, c);
      SplitJoin(parts[1..], c);
      assert parts == [p] + parts[1..];
    }
  }

  /** Splitting the text `a + c + b` on `c` gives the pieces of `a` followed by those of `b`. */
  lemma {:induction false} SplitPrefix(a: string, b: string, c: char)
    ensures SplitOn(a + [c] + b, [c]) == SplitOn(a, [c]) + SplitOn(b, [c])
    decreases |a|
  {
    if Find(a, [c]).None? {
      FindCharNone(a, c);
      SplitAround(a, b, c);
    } else {
      var i := Find(a, [c]).value;
      var head, tail := a[..i], a[i + 1..];
      NoCharBeforeFind(a, c);
      assert a[i..i + 1] == [c];
      assert a == head + [c] + tail;
      var x := tail + [c] + b;
      assert a + [c] + b == head + [c] + x;
      var pb, pt := SplitOn(b, [c]), SplitOn(tail, [c]);
      calc {
        SplitOn(a + [c] + b, [c]);
        SplitOn(head + [c] + x, [c]);
        { SplitAround(head, x, c); }
        [head] + SplitOn(x, [c]);
        { SplitPrefix(tail, b, c); }
        [head] + (pt + pb);
        ([head] + pt) + pb;
        { SplitAround(head, tail, c); }
        SplitOn(head + [c] + tail, [c]) + pb;
        SplitOn(a, [c]) + pb;
      }
    }
  }

  lemma NoCharBeforeFind(a: string, c: char)
    requires Find(a, [c]).Some?
    ensures c !in a[..Find(a, [c]).value]
  {
    var i := Find(a, [c]).value;
    forall k | 0 <= k < i ensures a[k] != c {
      assert !OccursAt(a, [c], k);
      assert a[k..k + 1] == [a[k]];
    }
  }

  // ---------------------------------------------------------------------------
  // lower
  // ---------------------------------------------------------------------------

  predicate IsUpperAscii(c: char) {
    'A' <= c <= 'Z'
  }

  /** `c` and `d` are the same character up to the case of an ASCII letter. */
  predicate SameIgnoringCase(c: char, d: char) {
    || c == d
    || ('a' <= d <= 'z' && c as int == d as int - 32)
    || ('a' <= c <= 'z' && d as int == c as int - 32)
  }

  function LowerChar(c: char): char {
    if IsUpperAscii(c) then (c as int + 32) as char else c
  }

  /** `s.lower()` on the ASCII letters: no upper-case ASCII letter is left, and each
      character is the input's own up to case. These two facts fix the result. */
  function LowerAscii(s: string): (r: string)
    ensures |r| == |s|
    ensures forall k :: 0 <= k < |r| ==> !IsUpperAscii(r[k])
    ensures forall k :: 0 <= k < |s| ==> SameIgnoringCase(s[k], r[k])
  {
    seq(|s|, k requires 0 <= k < |s| => LowerChar(s[k]))
  }

  /** Any text with the two properties `LowerAscii` promises is `LowerAscii` of the input. */
  lemma LowerAsciiUnique(s: string, r: string)
    requires |r| == |s|
    requires forall k :: 0 <= k < |r| ==> !IsUpperAscii(r[k])
    requires forall k :: 0 <= k < |s| ==> SameIgnoringCase(s[k], r[k])
    ensures r == LowerAscii(s)
  {
    forall k | 0 <= k < |s| ensures r[k] == LowerAscii(s)[k] {
      LowerCharOfSame(s[k], r[k]);
    }
  }

  /** A character that is not an upper-case ASCII letter is the lower case of every
      character that matches it up to case. */
  lemma LowerCharOfSame(c: char, d: char)
    requires SameIgnoringCase(c, d) && !IsUpperAscii(d)
    ensures LowerChar(c) == d
  {
  }

  /** `w` matches `s` at `i` up to the case of ASCII letters. */
  predicate MatchesIgnoringCaseAt(s: string, w: string, i: int) {
    0 <= i && i + |w| <= |s| && forall k :: 0 <= k < |w| ==> SameIgnoringCase(s[i + k], w[k])
  }

  /** `w` occurs somewhere in `s` up to the case of ASCII letters. */
  ghost predicate ContainsIgnoringCase(s: string, w: string) {
    exists i :: MatchesIgnoringCaseAt(s, w, i)
  }

  /** The lowered text holds a pattern without upper-case letters at `i` exactly when
      the original text matches the pattern there up to case. */
  lemma LowerOccursAt(s: string, w: string, i: int)
    requires forall k :: 0 <= k < |w| ==> !IsUpperAscii(w[k])
    ensures OccursAt(LowerAscii(s), w, i) <==> MatchesIgnoringCaseAt(s, w, i)
  {
    var l := LowerAscii(s);
    if OccursAt(l, w, i) {
      forall k | 0 <= k < |w| ensures SameIgnoringCase(s[i + k], w[k]) {
        assert l[i..i + |w|][k] == l[i + k];
      }
    }
    if MatchesIgnoringCaseAt(s, w, i) {
      forall k | 0 <= k < |w| ensures l[i..i + |w|][k] == w[k] {
        LowerCharOfSame(s[i + k], w[k]);
      }
    }
  }

  /** `w in s.lower()`, for a pattern without upper-case letters, is a match of `w` in
      `s` that ignores the case of ASCII letters. */
  lemma LowerContains(s: string, w: string)
    requires forall k :: 0 <= k < |w| ==> !IsUpperAscii(w[k])
    ensures Contains(LowerAscii(s), w) <==> ContainsIgnoringCase(s, w)
  {
    var l := LowerAscii(s);
    match Find(l, w)
    case Some(i) =>
      LowerOccursAt(s, w, i);
    case None =>
      if ContainsIgnoringCase(s, w) {
        var i :| MatchesIgnoringCaseAt(s, w, i);
        LowerOccursAt(s, w, i);
      }
  }
}
