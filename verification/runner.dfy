/** How `submit_fix` prepares a submission (app.py:85-89): the count of the user's
    lines and the program text handed to the interpreter. Lines of that program are
    numbered the way the interpreter numbers them, by `"\n"`. */
module Runner {
  import opened PyStr

  /** The number of lines of the code once surrounding whitespace is stripped: one more
      than its newlines. */
  function UserCodeLines(code: string): (n: nat)
    ensures n >= 1
    ensures n == |SplitOn(Strip(code), "\n")|
  {
    SplitCount(Strip(code), '\n');
    CountChar(Strip(code), '\n') + 1
  }

  /** The text written to the temporary file: the code, a blank line, then the tests
      one after another, separated by newlines. */
  function Assemble(code: string, tests: seq<string>): (program: string)
    ensures |program| >= |code| + 2
    ensures program[..|code|] == code
    ensures program[|code|..|code| + 2] == "\n\n"
    ensures program[|code| + 2..] == Join("\n", tests)
  {
    code + "\n\n" + Join("\n", tests)
  }

  /** Whatever the tests hold, the program's lines begin with the lines of `code`, and
      what follows the code (a newline, then the joined tests) adds at least one line. */
  lemma CodeLinesComeFirst(code: string, tests: seq<string>)
    ensures var lines, codeLines := SplitOn(Assemble(code, tests), "\n"), SplitOn(code, "\n");
      && |codeLines| < |lines|
      && lines == codeLines + SplitOn("\n" + Join("\n", tests), "\n")
  {
    var j := Join("\n", tests);
    assert Assemble(code, tests) == code + ['\n'] + ("\n" + j);
    SplitPrefix(code, "\n" + j, '\n');
    assert "\n" == ['\n'];
  }

  /** The lines of the program: the lines of `code`, one blank line, then each test on a
      line of its own (tests hold no line break; with no tests one empty line follows). */
  lemma AssembledLines(code: string, tests: seq<string>)
    requires forall t :: 0 <= t < |tests| ==> '\n' !in tests[t]
    ensures |tests| > 0 ==> SplitOn(Assemble(code, tests), "\n") == SplitOn(code, "\n") + [""] + tests
    ensures |tests| == 0 ==> SplitOn(Assemble(code, tests), "\n") == SplitOn(code, "\n") + ["", ""]
  {
    var codeLines := SplitOn(code, "\n");
    var rest := SplitOn("\n" + Join("\n", tests), "\n");
    CodeLinesComeFirst(code, tests);
    BlankThenTests(tests);
    if |tests| > 0 {
      assert codeLines + rest == codeLines + [""] + tests;
    } else {
      assert codeLines + rest == codeLines + ["", ""];
    }
  }

  /** The text after the code: a newline, then the tests joined by newlines. */
  lemma BlankThenTests(tests: seq<string>)
    requires forall t :: 0 <= t < |tests| ==> '\n' !in tests[t]
    ensures |tests| > 0 ==> SplitOn("\n" + Join("\n", tests), "\n") == [""] + tests
    ensures |tests| == 0 ==> SplitOn("\n" + Join("\n", tests), "\n") == ["", ""]
  {
    var j := Join("\n", tests);
    assert "\n" + j == [] + ['\n'] + j;
    assert "\n" == ['\n'];
    SplitAround([], j, '\n');
    if |tests| > 0 {
      SplitJoin(tests, '\n');
    } else {
      assert j == [];
      FindCharAbsent([], '\n');
    }
  }

  lemma CountCharSlice(s: string, i: int, j: int, c: char)
    requires 0 <= i <= j <= |s|
    ensures CountChar(s[i..j], c) <= CountChar(s, c)
  {
    assert s == s[..i] + s[i..j] + s[j..];
    CountCharAppend(s[..i] + s[i..j], s[j..], c);
    CountCharAppend(s[..i], s[i..j], c);
  }

  /** Stripping never adds lines: the count is at most the lines `code` itself spans. */
  lemma UserCodeLinesBound(code: string)
    ensures UserCodeLines(code) <= |SplitOn(code, "\n")|
  {
    var r := Strip(code);
    var i, j :| TrimAt(StripBlanks, r, code, i, j);
    CountCharSlice(code, i, j, '\n');
    SplitCount(code, '\n');
  }

  /** Line numbers 1 to `UserCodeLines(code)` (indices 0 to `UserCodeLines(code) - 1`)
      name lines of the program that are lines of the user's code, whatever the tests
      hold. */
  lemma UserRegionIsUserCode(code: string, tests: seq<string>)
    ensures var lines, codeLines := SplitOn(Assemble(code, tests), "\n"), SplitOn(code, "\n");
      && UserCodeLines(code) <= |codeLines| < |lines|
      && (forall k :: 0 <= k < UserCodeLines(code) ==> lines[k] == codeLines[k])
  {
    CodeLinesComeFirst(code, tests);
    UserCodeLinesBound(code);
    var lines, codeLines := SplitOn(Assemble(code, tests), "\n"), SplitOn(code, "\n");
    assert forall k :: 0 <= k < |codeLines| ==> lines[k] == codeLines[k];
  }

  /** When no test spans several lines, each test sits on its own program line after the
      code's lines and the blank separator. */
  lemma TestsFollowUserCode(code: string, tests: seq<string>)
    requires forall t :: 0 <= t < |tests| ==> '\n' !in tests[t]
    ensures var lines, codeLines := SplitOn(Assemble(code, tests), "\n"), SplitOn(code, "\n");
      forall t :: 0 <= t < |tests| ==> |codeLines| + 1 + t < |lines| && lines[|codeLines| + 1 + t] == tests[t]
  {
    AssembledLines(code, tests);
  }

  function Newlines(k: nat): (r: string)
    ensures |r| == k && forall i :: 0 <= i < k ==> r[i] == '\n'
  {
    seq(k, _ => '\n')
  }

  lemma NoNewlineOneLine(s: string)
    requires '\n' !in s
    ensures SplitOn(s, "\n") == [s]
  {
    assert "\n" == ['\n'];
    FindCharAbsent(s, '\n');
  }

  /** Each leading newline contributes one empty line before the text. */
  lemma {:induction false} SplitLeadingNewlines(k: nat, s: string)
    requires '\n' !in s
    ensures SplitOn(Newlines(k) + s, "\n") == seq(k, _ => "") + [s]
  {
    if k == 0 {
      assert Newlines(0) + s == s;
      NoNewlineOneLine(s);
    } else {
      assert Newlines(k) + s == [] + ['\n'] + (Newlines(k - 1) + s);
      SplitAround([], Newlines(k - 1) + s, '\n');
      SplitLeadingNewlines(k - 1, s);
      assert seq(k, _ => "") == [""] + seq(k - 1, _ => "");
    }
  }

  /** Leading blank lines are dropped from the count but not from the program, so the
      counted region can stop short of the user's code: a one-line statement after
      `k` blank lines is counted as line 1 but is line `k + 1` of the program. */
  lemma LeadingBlankLinesShortenRegion(k: nat, stmt: string, tests: seq<string>)
    requires |stmt| > 0 && !IsSpace(stmt[0]) && !IsSpace(stmt[|stmt| - 1]) && '\n' !in stmt
    ensures UserCodeLines(Newlines(k) + stmt) == 1
    ensures |SplitOn(Assemble(Newlines(k) + stmt, tests), "\n")| > k
    ensures SplitOn(Assemble(Newlines(k) + stmt, tests), "\n")[k] == stmt
  {
    BlankLinesThenStatementCount(k, stmt);
    StatementLineInProgram(k, stmt, tests);
  }

  lemma BlankLinesThenStatementCount(k: nat, stmt: string)
    requires |stmt| > 0 && !IsSpace(stmt[0]) && !IsSpace(stmt[|stmt| - 1]) && '\n' !in stmt
    ensures UserCodeLines(Newlines(k) + stmt) == 1
  {
    assert AllBlank(StripBlanks, Newlines(k));
    TrimNoSurroundingBlanks(StripBlanks, stmt);
    assert Newlines(k) + stmt == Newlines(k) + stmt + [];
    TrimIgnoresSurroundingBlanks(StripBlanks, Newlines(k), stmt, []);
    NoNewlineOneLine(stmt);
  }

  lemma StatementLineInProgram(k: nat, stmt: string, tests: seq<string>)
    requires '\n' !in stmt
    ensures |SplitOn(Assemble(Newlines(k) + stmt, tests), "\n")| > k
    ensures SplitOn(Assemble(Newlines(k) + stmt, tests), "\n")[k] == stmt
  {
    var code := Newlines(k) + stmt;
    var codeLines := SplitOn(code, "\n");
    SplitLeadingNewlines(k, stmt);
    assert (seq(k, _ => "") + [stmt])[k] == stmt;
    CodeLinesComeFirst(code, tests);
  }
}
