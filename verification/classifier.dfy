/** The verdict half of `submit_fix` (app.py:76-133): the puzzle lookup, the three
    ways the child process can end, and the scraping of its captured output for a
    status, a line hint and a one-line summary. The process itself is a parameter:
    `run` maps the program text to how the interpreter run of it ended. */
module Classifier {
  import opened Wrappers
  import opened PyStr
  import opened PyLines
  import opened PyInt
  import opened Puzzles
  import opened Runner
  import opened Selector

  /** How the run of the interpreter on the program ended, as the route's `try` sees it. */
  datatype ProcessOutcome =
    | Exit0                                   // returned normally
    | NonZero(stdout: string, stderr: string) // raised CalledProcessError
    | Timeout                                 // raised TimeoutExpired
    | Unhandled                               // raised anything else: FileNotFoundError when
                                              // no `python` can be started, UnicodeDecodeError
                                              // when the output is not valid text

  datatype Status = Partial | Error {
    function Label(): string {
      match this
      case Partial => "partial"
      case Error => "error"
    }
  }

  /** The JSON body `submit_fix` answers with. */
  datatype Verdict =
    | Solved(explanation: string)
    | Failed(status: Status, lineHint: Option<int>, fixLine: Option<int>, error: string)
    | TimedOut(error: string)
    | NotFound(error: string)
    | InternalError // an exception `submit_fix` does not catch: FastAPI answers 500
  {
    /** The `correct` field. */
    predicate Correct() {
      Solved?
    }

    function HttpStatus(): int {
      if NotFound? then 404 else if InternalError? then 500 else 200
    }
  }

  const NotFoundMessage: string := "Puzzle not found"
  const TimeoutMessage: string := "\U{274C} Execution timed out. Try a simpler fix."
  const HintPrefix: string := "\U{274C} Hint: "
  const NoOutputSummary: string := "Error occurred"

  // ---------------------------------------------------------------------------
  // Captured output
  // ---------------------------------------------------------------------------

  /** The captured output of a failed run: its standard output and its standard error,
      each empty when missing, joined by one newline. */
  function FullOutput(stdout: string, stderr: string): (full: string)
    ensures |full| == |stdout| + 1 + |stderr|
    ensures full[..|stdout|] == stdout && full[|stdout|] == '\n' && full[|stdout| + 1..] == stderr
  {
    stdout + "\n" + stderr
  }

  // ---------------------------------------------------------------------------
  // Line hint
  // ---------------------------------------------------------------------------

  const LineMarker: string := ", line "

  /** The number a traceback-shaped line carries: the field after the first `", line "`
      read as an integer. `None` when the line does not hold both `"File"` and
      `", line "`, or when the field is not an integer literal. */
  function FrameLine(line: string): (r: Option<int>)
    ensures r.Some? <==> Contains(line, "File") && Contains(line, LineMarker) && IsIntLiteral(FrameField(line))
    ensures r.Some? ==>
      forall lead, sign, d, trail :: IntLiteral(FrameField(line), lead, sign, d, trail) ==> r.value == SignedValue(sign, d)
  {
    if Contains(line, "File") && Contains(line, LineMarker) then ParseInt(FrameField(line))
    else None
  }

  /** The second piece of the line split at `", line "`, cut again at its first comma:
      the text after the first `", line "` up to the next comma, or to the end of the
      line when no comma follows. */
  function FrameField(line: string): (field: string)
    requires Contains(line, LineMarker)
    ensures field == UpTo(line[Find(line, LineMarker).value + |LineMarker|..], ',')
  {
    var rest := line[Find(line, LineMarker).value + |LineMarker|..];
    SplitSecond(line, LineMarker);
    assert "," == [','];
    FirstPieceUpTo(rest, LineMarker, ',');
    SplitOn(SplitOn(line, LineMarker)[1], ",")[0]
  }

  /** `s` up to the first `c` in it, or all of `s` when there is none. */
  function UpTo(s: string, c: char): (r: string)
    ensures |r| <= |s| && r == s[..|r|] && c !in r
    ensures |r| < |s| ==> s[|r|] == c
  {
    match Find(s, [c])
    case Some(k) =>
      NoCharBeforeFind(s, c);
      assert s[k..k + 1] == [c];
      s[..k]
    case None =>
      FindCharNone(s, c);
      s
  }

  lemma PieceBeforeSep(s: string, sep: string, c: char, k: int)
    requires |sep| > 0 && sep[0] == c && 0 <= k && OccursAt(s, sep, k)
    ensures SplitOn(s[..k], [c])[0] == UpTo(s, c)
  {
    assert s[k..k + |sep|][0] == s[k];
    var r := UpTo(s, c);
    SplitHead(s[..k], [c]);
    if |r| < k {
      assert s[..k][..|r|] == r;
      FindCharAt(s[..k], c, |r|);
    } else {
      assert s[..k] == r;
      FindCharAbsent(s[..k], c);
    }
  }

  /** Cutting at the first `sep` and then at the first `c` keeps the text up to the
      first `c`, when `sep` itself starts with `c`. */
  lemma FirstPieceUpTo(s: string, sep: string, c: char)
    requires |sep| > 0 && sep[0] == c
    ensures SplitOn(SplitOn(s, sep)[0], [c])[0] == UpTo(s, c)
  {
    SplitHead(s, sep);
    match Find(s, sep)
    case None =>
      SplitHead(s, [c]);
    case Some(k) =>
      PieceBeforeSep(s, sep, c, k);
  }

  /** The first occurrence of `sep` is right after a prefix that lacks its first character. */
  lemma FindAfter(pre: string, sep: string, rest: string)
    requires |sep| > 0 && sep[0] !in pre
    ensures Find(pre + sep + rest, sep) == Some(|pre|)
  {
    var s := pre + sep + rest;
    assert s[|pre|..|pre| + |sep|] == sep;
    assert OccursAt(s, sep, |pre|);
  }

  lemma UpToBeforeMark(head: string, tail: string, c: char)
    requires c !in head
    requires tail == [] || tail[0] == c
    ensures UpTo(head + tail, c) == head
  {
    assert (head + tail)[..|head|] == head;
  }

  /** A traceback line holds its number as Python prints it: the text before
      `", line "` names the file and has no comma, the number follows, and the rest of
      the line (if any) starts with a comma. `FrameLine` reads that number back. */
  lemma FrameLineReadsTraceback(file: string, n: int, tail: string)
    requires Contains(file, "File") && ',' !in file
    requires tail == [] || tail[0] == ','
    requires ShowsWithinLimit(if n < 0 then -n else n)
    ensures FrameLine(file + LineMarker + ShowInt(n) + tail) == Some(n)
  {
    var number := ShowInt(n);
    assert file + LineMarker + number + tail == file + LineMarker + (number + tail);
    FieldAfterMarker(file, number + tail);
    ShowIntNoComma(n);
    UpToBeforeMark(number, tail, ',');
    ParseShowRoundTrip(n);
  }

  /** After a comma-free text naming a file, `FrameLine` parses what follows the marker
      up to the next comma. */
  lemma FieldAfterMarker(file: string, after: string)
    requires Contains(file, "File") && ',' !in file
    ensures FrameLine(file + LineMarker + after) == ParseInt(UpTo(after, ','))
  {
    var line := file + LineMarker + after;
    assert Contains(line, "File") by {
      ContainsWithin([], file, LineMarker + after, "File");
      assert [] + file + (LineMarker + after) == line;
    }
    assert LineMarker[0] == ',';
    FindAfter(file, LineMarker, after);
    assert line[|file| + |LineMarker|..] == after;
  }

  /** A separator character U+001C to U+001F before the number, which `str.strip()`
      would remove but `int()` does not skip, makes `int()` raise: the line gives no
      number and so no hint. */
  lemma FrameLineRefusesSeparator(file: string, c: char, rest: string, userLines: int)
    requires Contains(file, "File") && ',' !in file && ',' !in rest
    requires '\U{1c}' <= c <= '\U{1f}'
    ensures FrameLine(file + LineMarker + [c] + rest) == None
    ensures LineHint([file + LineMarker + [c] + rest], userLines) == None
  {
    var after := [c] + rest;
    assert file + LineMarker + [c] + rest == file + LineMarker + after;
    FieldAfterMarker(file, after);
    assert after + [] == after;
    UpToBeforeMark(after, [], ',');
    ParseRefusesSeparator(c, rest);
    NoNumberNoHint(file + LineMarker + after, userLines);
  }

  lemma NoNumberNoHint(line: string, userLines: int)
    requires FrameLine(line) == None
    ensures LineHint([line], userLines) == None
  {
    assert !Hit([line][0], userLines);
  }

  lemma ShowIntNoComma(n: int)
    ensures ',' !in ShowInt(n)
  {
  }

  /** A number read from a line is used when it is within the count. */
  predicate InRange(number: Option<int>, userLines: int) {
    number.Some? && number.value <= userLines
  }

  /** The line satisfies the test inside the loop: it carries a number within the count. */
  predicate Hit(line: string, userLines: int) {
    InRange(FrameLine(line), userLines)
  }

  /** Index of the first number, from `i` on, that is in range; `|numbers|` when none is. */
  function FirstInRange(numbers: seq<Option<int>>, userLines: int, i: nat): (k: nat)
    requires i <= |numbers|
    ensures i <= k <= |numbers|
    ensures forall j :: i <= j < k ==> !InRange(numbers[j], userLines)
    ensures k < |numbers| ==> InRange(numbers[k], userLines)
    decreases |numbers| - i
  {
    if i == |numbers| || InRange(numbers[i], userLines) then i
    else FirstInRange(numbers, userLines, i + 1)
  }

  /** The number each line carries, if any. */
  function FrameLines(lines: seq<string>): (numbers: seq<Option<int>>)
    ensures |numbers| == |lines|
    ensures forall k :: 0 <= k < |lines| ==> numbers[k] == FrameLine(lines[k])
  {
    seq(|lines|, k requires 0 <= k < |lines| => FrameLine(lines[k]))
  }

  /** The loop over the output's lines: the number of the first line that is a hit,
      or `None` when no line is. */
  function LineHint(lines: seq<string>, userLines: int): (r: Option<int>)
    ensures r.None? <==> forall k :: 0 <= k < |lines| ==> !Hit(lines[k], userLines)
    ensures r.Some? ==> r.value <= userLines
    ensures r.Some? ==>
      exists k :: 0 <= k < |lines| && FrameLine(lines[k]) == r && (forall j :: 0 <= j < k ==> !Hit(lines[j], userLines))
  {
    var numbers := FrameLines(lines);
    var k := FirstInRange(numbers, userLines, 0);
    if k < |numbers| then numbers[k] else None
  }

  /** Only the upper bound is checked: a traceback line naming any line number up to
      the count, zero and negative numbers included, becomes the hint. */
  lemma HintTakesAnyNumberUpToCount(file: string, n: int, tail: string, userLines: int)
    requires Contains(file, "File") && ',' !in file
    requires tail == [] || tail[0] == ','
    requires ShowsWithinLimit(if n < 0 then -n else n)
    requires n <= userLines
    ensures LineHint([file + LineMarker + ShowInt(n) + tail], userLines) == Some(n)
  {
    FrameLineReadsTraceback(file, n, tail);
  }

  // ---------------------------------------------------------------------------
  // Status and summary
  // ---------------------------------------------------------------------------

  const WrongOutput: string := "wrong output"

  /** The status of a failed run: partial exactly when the output holds
      "AssertionError" as written or "wrong output" in any mix of ASCII case. */
  function StatusOf(full: string): (s: Status)
    ensures s == Partial <==> Contains(full, "AssertionError") || ContainsIgnoringCase(full, WrongOutput)
  {
    LowerContains(full, WrongOutput);
    if Contains(full, "AssertionError") || Contains(LowerAscii(full), WrongOutput) then Partial else Error
  }

  lemma LowerConcat(a: string, s: string, b: string)
    ensures LowerAscii(a + s + b) == LowerAscii(a) + LowerAscii(s) + LowerAscii(b)
  {
  }

  /** More output never turns a partial verdict into an error. */
  lemma PartialSurvivesMoreOutput(a: string, full: string, b: string)
    requires StatusOf(full) == Partial
    ensures StatusOf(a + full + b) == Partial
  {
    if Contains(full, "AssertionError") {
      ContainsWithin(a, full, b, "AssertionError");
    } else {
      LowerConcat(a, full, b);
      LowerContains(full, WrongOutput);
      ContainsWithin(LowerAscii(a), LowerAscii(full), LowerAscii(b), WrongOutput);
    }
  }

  /** "wrong output" is recognised in any mix of upper and lower case. */
  lemma WrongOutputAnyCase(a: string, w: string, b: string)
    requires LowerAscii(w) == "wrong output"
    ensures StatusOf(a + w + b) == Partial
  {
    assert OccursAt(LowerAscii(w), "wrong output", 0);
    LowerConcat(a, w, b);
    ContainsWithin(LowerAscii(a), LowerAscii(w), LowerAscii(b), "wrong output");
  }

  /** The one-line summary of a failed run: the last line of the output, or a fixed
      message when the output is empty. */
  function ErrorSummary(full: string): (summary: string)
    ensures |full| == 0 ==> summary == NoOutputSummary
    ensures |full| > 0 ==> IsFinalLine(DropFinalBreak(full), summary)
  {
    if |full| > 0 then
      LastOfSplitLines(full);
      var lines := SplitLines(full);
      lines[|lines| - 1]
    else NoOutputSummary
  }

  /** The combined output is never empty, so the summary is always its last line and the
      `"Error occurred"` fallback cannot be reached. */
  lemma SummaryIsLastLine(stdout: string, stderr: string)
    ensures |SplitLines(FullOutput(stdout, stderr))| > 0
    ensures ErrorSummary(FullOutput(stdout, stderr)) ==
      SplitLines(FullOutput(stdout, stderr))[|SplitLines(FullOutput(stdout, stderr))| - 1]
  {
  }

  /** For a traceback on stderr, the summary is its final line, for example
      `AssertionError` or `NameError: name 'x' is not defined`. */
  lemma SummaryOfTraceback(stdout: string, before: string, last: string)
    requires NoBreak(last)
    requires before == [] || (IsLineBreak(before[|before| - 1]) && before[|before| - 1] != '\r')
    ensures ErrorSummary(FullOutput(stdout, before + last + "\n")) == last
  {
    var a := stdout + "\n" + before;
    assert FullOutput(stdout, before + last + "\n") == a + (last + "\n");
    assert a[|a| - 1] == (if before == [] then '\n' else before[|before| - 1]);
    SplitLinesAppend(a, last + "\n");
    SplitLinesOne(last);
  }

  /** With nothing on stderr and stdout empty or ending in a newline, the summary is the
      empty string: the hint then reads just the prefix. */
  lemma SummaryMayBeEmpty(stdout: string)
    requires stdout == [] || stdout[|stdout| - 1] == '\n'
    ensures ErrorSummary(FullOutput(stdout, "")) == ""
  {
    SplitLinesOne("");
    assert "" + "\n" == "\n";
    if stdout != [] {
      assert FullOutput(stdout, "") == stdout + "\n";
      SplitLinesAppend(stdout, "\n");
    } else {
      assert FullOutput(stdout, "") == "" + "\n";
    }
  }

  // ---------------------------------------------------------------------------
  // The verdict
  // ---------------------------------------------------------------------------

  /** The file a puzzle id names: the id followed by `.json`. */
  function PuzzleFile(puzzleId: string): string {
    puzzleId + ".json"
  }

  /** The verdict for puzzle `p` once the run of the submitted `code` has ended. */
  function Classify(p: Puzzle, code: string, outcome: ProcessOutcome): (v: Verdict)
    ensures v.Solved? <==> outcome.Exit0?
    ensures v.TimedOut? <==> outcome.Timeout?
    ensures v.Failed? <==> outcome.NonZero?
    ensures v.InternalError? <==> outcome.Unhandled?
    ensures !v.NotFound?
    ensures v.Solved? ==> v.explanation == p.explanation
    ensures v.TimedOut? ==> v.error == TimeoutMessage
    ensures v.Failed? ==> v.fixLine == p.fixLine
    ensures v.Failed? && v.lineHint.Some? ==> v.lineHint.value <= UserCodeLines(code)
    ensures v.Failed? ==> |v.error| >= |HintPrefix| && v.error[..|HintPrefix|] == HintPrefix
    ensures outcome.NonZero? ==>
      var full := FullOutput(outcome.stdout, outcome.stderr);
      && v.status == StatusOf(full)
      && v.lineHint == LineHint(SplitLines(full), UserCodeLines(code))
      && v.error == HintPrefix + ErrorSummary(full)
  {
    match outcome
    case Exit0 => Solved(p.explanation)
    case Timeout => TimedOut(TimeoutMessage)
    case Unhandled => InternalError
    case NonZero(stdout, stderr) =>
      var full := FullOutput(stdout, stderr);
      Failed(StatusOf(full), LineHint(SplitLines(full), UserCodeLines(code)), p.fixLine,
             HintPrefix + ErrorSummary(full))
  }

  /** The file a puzzle id names is a name the puzzle routes list. */
  lemma PuzzleFileIsJson(puzzleId: string)
    ensures EndsWith(PuzzleFile(puzzleId), ".json")
  {
    assert PuzzleFile(puzzleId)[|puzzleId|..] == ".json";
  }

  /** `POST /submit`: check that `<id>.json` exists in the puzzle directory, read it,
      run the assembled program, and classify how the run ended. A listed file that
      cannot be read raises, which FastAPI answers with 500. */
  function Submit(dir: PuzzleDir, code: string, puzzleId: string,
                  run: string -> ProcessOutcome): (v: Verdict)
    ensures v.NotFound? <==> PuzzleFile(puzzleId) !in dir.listing
    ensures v.NotFound? ==> v.error == NotFoundMessage && v.HttpStatus() == 404
    ensures v.Correct() <==>
      && PuzzleFile(puzzleId) in dir.listing && PuzzleFile(puzzleId) in dir.files
      && run(Assemble(code, dir.files[PuzzleFile(puzzleId)].tests)) == Exit0
    ensures PuzzleFile(puzzleId) in dir.listing && PuzzleFile(puzzleId) !in dir.files ==> v == InternalError
    ensures PuzzleFile(puzzleId) in dir.listing && PuzzleFile(puzzleId) in dir.files ==>
      var p := dir.files[PuzzleFile(puzzleId)];
      v == Classify(p, code, run(Assemble(code, p.tests)))
    ensures Consistent(dir) ==>
      (v.InternalError? <==>
         PuzzleFile(puzzleId) in dir.listing && run(Assemble(code, dir.files[PuzzleFile(puzzleId)].tests)).Unhandled?)
  {
    PuzzleFileIsJson(puzzleId);
    var file := PuzzleFile(puzzleId);
    if file !in dir.listing then NotFound(NotFoundMessage)
    else if file !in dir.files then InternalError
    else
      var p := dir.files[file];
      Classify(p, code, run(Assemble(code, p.tests)))
  }

  /** A line hint of a failed run, when it is a real line number (1 or more), names a
      line of the program that belongs to the user's code, never one of the tests. */
  lemma HintPointsIntoUserCode(p: Puzzle, code: string, outcome: ProcessOutcome)
    requires Classify(p, code, outcome).Failed?
    requires Classify(p, code, outcome).lineHint.Some?
    requires Classify(p, code, outcome).lineHint.value >= 1
    ensures var h := Classify(p, code, outcome).lineHint.value;
            && h - 1 < |SplitOn(code, "\n")| < |SplitOn(Assemble(code, p.tests), "\n")|
            && SplitOn(Assemble(code, p.tests), "\n")[h - 1] == SplitOn(code, "\n")[h - 1]
  {
    var v := Classify(p, code, outcome);
    var h := v.lineHint.value;
    assert h <= UserCodeLines(code);
    UserRegionIsUserCode(code, p.tests);
    var lines, codeLines := SplitOn(Assemble(code, p.tests), "\n"), SplitOn(code, "\n");
    assert 0 <= h - 1 < UserCodeLines(code) <= |codeLines|;
    assert lines[h - 1] == codeLines[h - 1];
  }
}
