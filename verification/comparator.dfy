/** The line/fix comparator `evaluate_submission` (app.py:17-27): grades a claimed
    bug line and the user's replacement text against the canonical answer. */
module Comparator {
  import opened PyStr

  /** The three grades, written `"green"`, `"yellow"` and `"none"` by the source. */
  datatype Grade = Green | Yellow | Miss {
    function Label(): string {
      match this
      case Green => "green"
      case Yellow => "yellow"
      case Miss => "none"
    }
  }

  /** The two texts are the same fix: removing surrounding whitespace from each
      leaves one and the same text. */
  ghost predicate SameFix(userCode: string, correctCode: string) {
    exists r :: IsTrimOf(StripBlanks, r, userCode) && IsTrimOf(StripBlanks, r, correctCode)
  }

  lemma SameFixIffStripEqual(userCode: string, correctCode: string)
    ensures SameFix(userCode, correctCode) <==> Strip(userCode) == Strip(correctCode)
  {
    if SameFix(userCode, correctCode) {
      var r :| IsTrimOf(StripBlanks, r, userCode) && IsTrimOf(StripBlanks, r, correctCode);
      TrimUnique(StripBlanks, r, Strip(userCode), userCode);
      TrimUnique(StripBlanks, r, Strip(correctCode), correctCode);
    }
  }

  /** The verdict `evaluate_submission` gives for a fix line and the submitted code,
      against the correct line and code. */
  function Evaluate(userFixLine: int, correctFixLine: int, userCode: string, correctCode: string): (g: Grade)
    ensures g == Miss <==> userFixLine != correctFixLine
    ensures g == Green <==> userFixLine == correctFixLine && SameFix(userCode, correctCode)
    ensures g == Yellow <==> userFixLine == correctFixLine && !SameFix(userCode, correctCode)
  {
    SameFixIffStripEqual(userCode, correctCode);
    if userFixLine != correctFixLine then Miss
    else if Strip(userCode) == Strip(correctCode) then Green
    else Yellow
  }

  /** A wrong line is `"none"` whatever text either side supplies. */
  lemma WrongLineIgnoresCode(userLine: int, correctLine: int, c1: string, c2: string, d1: string, d2: string)
    requires userLine != correctLine
    ensures Evaluate(userLine, correctLine, c1, c2) == Evaluate(userLine, correctLine, d1, d2) == Miss
  {
  }

  /** The canonical answer grades itself `"green"`, and so does the canonical text with
      any whitespace added around it. */
  lemma CanonicalIsGreen(line: int, code: string, lead: string, trail: string)
    requires AllBlank(StripBlanks, lead) && AllBlank(StripBlanks, trail)
    ensures Evaluate(line, line, code, code) == Green
    ensures Evaluate(line, line, lead + code + trail, code) == Green
  {
    TrimIgnoresSurroundingBlanks(StripBlanks, lead, code, trail);
  }
}
