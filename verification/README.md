# Bugdle: a Dafny model of the puzzle server's decision logic

Bugdle is a daily "find the bug" game. A puzzle is a JSON file holding a short
Python snippet with one faulty line, the number of that line, hidden tests and an
explanation. The FastAPI server in `app.py` does four things:

* picks the puzzle of the day, of a past date, or at random from the sorted `.json`
  files of its puzzle directory;
* shows that puzzle without the answer;
* runs a submitted fix together with the puzzle's tests in a child interpreter;
* turns the way that run ended into a verdict. The verdict carries a status, a line
  hint taken from the traceback, and a one-line summary of the error.

This project models that logic as pure Dafny functions and proves what each step
guarantees. The modules follow the program's structure:

| module | file | what it holds |
|---|---|---|
| `Wrappers` | wrappers.dfy | `Option` and `Result` |
| `PyStr` | pystr.dfy | Python's `str.strip` and the narrower whitespace `int()` skips, `in`, `find`, `split`, `join`, `count` and ASCII `lower` |
| `PyLines` | pylines.dfy | `str.splitlines` with Python's full set of line boundaries, and what its last line is |
| `PyInt` | pyint.dfy | `int(text)` on ASCII digits, with the whitespace it skips and its 4300-digit limit, and `str(n)` |
| `Sorting` | sorting.dfy | `sorted()` over file names, in code-point order |
| `Dates` | dates.dfy | `date.toordinal()` (proleptic Gregorian) and date comparison |
| `Puzzles` | puzzles.dfy | the puzzle record and its public projection |
| `Comparator` | comparator.dfy | `evaluate_submission` |
| `Selector` | selector.dfy | the daily, by-date and random puzzle routes |
| `Runner` | runner.dfy | `user_code_lines` and the assembled program text |
| `Classifier` | classifier.dfy | `submit_fix`: lookup, outcome, line hint, status, summary |

The puzzle directory is modelled as a listing plus a map from file name to puzzle.
The clock, the random draw and the child process are parameters:

* `today`, a `Date`;
* `draw`, a natural number reduced modulo the number of puzzles;
* `run`, a function from the program text to `Exit0`, `NonZero(stdout, stderr)`,
  `Timeout` or `Unhandled`. `Unhandled` is any other exception out of
  `subprocess.run`, such as a missing `python` executable or output that is not valid
  text.

## Model

| member | source | states |
|---|---|---|
| `Comparator.Evaluate` | app.py:17-27 | "none" exactly when the fix lines differ; "green" exactly when they agree and both codes strip to the same text; "yellow" exactly when they agree and the stripped codes differ |
| `Comparator.SameFixIffStripEqual` | app.py:24 | two codes count as the same fix exactly when their stripped forms are equal |
| `Comparator.WrongLineIgnoresCode` | app.py:22-23 | with the wrong line, the grade is "none" whatever code either side sends |
| `Comparator.CanonicalIsGreen` | app.py:24-25 | the correct line with the correct code is "green", also when the user pads the code with whitespace |
| `PyStr.Trim` | app.py:24 | the result is a slice of the input with only blanks of the given kind cut from each end, and neither end of it is such a blank; `str.strip()` is the kind holding every `isspace` character |
| `PyStr.TrimUnique` | app.py:24 | a text has only one strip, so the contract of `PyStr.Trim` fixes its result |
| `PyStr.TrimIgnoresSurroundingBlanks` | app.py:24 | whitespace added around a text does not change what it strips to |
| `PyStr.Find` | app.py:108 | the result is the first position where the substring occurs, or none when it never occurs |
| `PyStr.SplitOn` | app.py:110 | a split always has at least one piece (what the pieces are is stated by the next two rows) |
| `PyStr.SplitOnJoin` | app.py:110 | joining the pieces of a split with the separator gives the text back |
| `PyStr.SplitOnPieces` | app.py:110 | a split has two or more pieces exactly when the separator occurs, and no piece contains the separator |
| `PyStr.SplitJoin` | app.py:89 | splitting a join on a character that no part contains gives back the parts |
| `PyStr.SplitCount` | app.py:85 | splitting on a character gives one piece more than the character's count |
| `PyStr.SplitPrefix` | app.py:89 | splitting `a + c + b` on `c` is the split of `a` followed by the split of `b` |
| `PyStr.LowerAscii` | app.py:118 | the result has the input's length, holds no upper-case ASCII letter, and matches the input character by character up to case; `PyStr.LowerAsciiUnique` shows these facts fix the result |
| `PyStr.LowerAsciiUnique` | app.py:118 | any text with those three properties is the lowered input |
| `PyStr.LowerContains` | app.py:118 | a lower-case pattern occurs in `s.lower()` exactly when it matches somewhere in `s` with ASCII case ignored |
| `PyLines.SplitLines` | app.py:107 | the result is empty exactly when the text is; `PyLines.SplitLinesStep` and `PyLines.SplitLinesOne` give the lines themselves |
| `PyLines.SplitLinesStep` | app.py:107 | a boundary-free line followed by any line boundary (`"\r\n"` or one boundary character) comes out as one line, followed by the lines of the rest; a lone `"\r"` is the boundary only when the rest does not start with `"\n"` |
| `PyLines.SplitLinesClosed` | app.py:107 | a boundary-free line closed by any one boundary is exactly that one line |
| `PyLines.SplitLinesOne` | app.py:107 | a text with no line boundary is one line, with or without a final `"\n"` |
| `PyLines.SplitLinesNoBreak` | app.py:107 | no line holds a line boundary |
| `PyLines.SplitLinesAppend` | app.py:119 | text that ends a line before more text splits into its own lines followed by the lines of the rest |
| `PyLines.LastOfSplitLines` | app.py:119 | the last line `splitlines` returns is the text after the last line boundary, once the one boundary that closes the text (if any) is dropped |
| `PyInt.ParseShowRoundTrip` | app.py:110 | `int(str(n)) == n` for every integer of at most 4300 digits, negative ones included |
| `PyInt.ParseDigitRun` | app.py:110 | a digit run reads as its value when it has at most 4300 digits and raises `ValueError` when it has more |
| `PyInt.LongNumeralRefused` | app.py:110 | a run of 4301 nines raises `ValueError` |
| `PyInt.ParseInt` | app.py:110 | `int()` gives a number exactly when the text is skipped whitespace, an optional "+" or "-", a numeral of at most 4300 digits with single underscores between digits, and skipped whitespace; the number is the numeral's value, negated after "-" |
| `PyInt.ParseIgnoresSurroundingSpace` | app.py:110 | `int()` reads the same value with or without the whitespace it skips around the number: ASCII space, tab, newline, vertical tab, form feed, carriage return and non-ASCII whitespace |
| `PyInt.ParseRefusesSeparator` | app.py:110 | a character U+001C to U+001F before the number makes `int()` raise, although `str.strip()` removes it |
| `PyInt.ParseNeedsDigit` | app.py:109-115 | text without a digit raises `ValueError` (no value) |
| `Sorting.SortNames` | app.py:32 | the result is sorted and is a permutation of the input |
| `Sorting.SortedUnique` | app.py:32 | two sorted permutations of the same names are the same list |
| `Sorting.TextOrderNotNumeric` | app.py:32 | names sort as text: "10.json" comes before "2.json" |
| `Sorting.LexLeTotal` | app.py:32 | any two names are ordered one way or the other |
| `Sorting.LexLeTransitive` | app.py:32 | the order on names is transitive |
| `Dates.ToOrdinal` | app.py:33 | a date's ordinal is positive and lies within the days counted for its year |
| `Dates.FirstOrdinal` | app.py:33 | 0001-01-01 is day 1 |
| `Dates.OrdinalOfKnownDay` | app.py:33 | 2026-10-10 is day 739899 |
| `Dates.NextDayOrdinal` | app.py:33 | the day after any valid date other than 9999-12-31 is valid and numbered one more, across month and year ends |
| `Dates.OrdinalOrder` | app.py:145 | one date is after another exactly when its ordinal is greater, and two dates are equal exactly when their ordinals are |
| `Puzzles.PublicView` | app.py:51-57 | the public id, title, description and snippet are the stored ones; the public difficulty is the puzzle's when it has one and "Unknown" otherwise |
| `Puzzles.PublicViewHidesAnswers` | app.py:67-73 | two puzzles that differ only in fix line, tests or explanation look the same to the player, and the id, title, description and snippet shown are the stored ones |
| `Selector.JsonFiles` | app.py:62 | each name ending in ".json" keeps its number of occurrences; every other name is dropped |
| `Selector.PuzzleNames` | app.py:148 | the result is sorted and is a permutation of the listed names that end in ".json", each kept as often as it is listed |
| `Selector.ListingOrderIrrelevant` | app.py:32 | the puzzle list does not depend on the order the directory lists its files in |
| `Selector.DayIndex` | app.py:33 | the index is below the puzzle count and differs from the ordinal by a multiple of it |
| `Selector.DayIndexUnique` | app.py:33 | only one index below the count differs from the day number by a multiple of the count |
| `Selector.NameForDay` | app.py:30-34 | the day's name is the name at the index that differs from the day number by a multiple of the count |
| `Selector.NameForDayPeriodic` | app.py:149 | ordinals a whole number of puzzle counts apart get the same puzzle |
| `Selector.NameForDayRotates` | app.py:33 | the next day's index is the current index plus one, wrapping at the count |
| `Selector.OpenName` | app.py:150-161 | reading a listed name succeeds exactly when the directory holds a readable record for it, and then gives that record's public view; otherwise the answer is a server error (500) |
| `Selector.AnswersForDayUnique` | app.py:148-161 | the description of a day's answer admits one answer per directory and day number |
| `Selector.PuzzleForOrdinal` | app.py:148-161 | no puzzle files gives a server error; otherwise the answer is the public view of the sorted name at the day number modulo the count, or a server error when that file cannot be read; a consistent directory with puzzle files always succeeds |
| `Selector.DailyPuzzle` | app.py:30-57 | `GET /puzzle` answers for today's day number in the same way, and succeeds for a consistent directory with puzzle files |
| `Selector.PuzzleByDate` | app.py:136-161 | an unparsable date gives 400; the answer is 403 exactly when the date's ordinal is past today's; a date up to today is answered for its own day number |
| `Selector.FutureRefusedForAnyDirectory` | app.py:144-146 | a date after today is refused before the directory is read, whatever it holds |
| `Selector.TodayByDateIsDaily` | app.py:144-150 | asking by today's date gives the daily puzzle |
| `Selector.DailyServesAPuzzle` | app.py:30-57 | with at least one puzzle file the daily route succeeds, and its answer does not depend on listing order |
| `Selector.DailyPeriodic` | app.py:30-40 | days a whole number of puzzle counts apart get the same daily puzzle |
| `Selector.RandomPuzzle` | app.py:60-73 | no puzzle files gives a server error; a consistent directory with puzzle files always succeeds; a success is the public view of a listed ".json" file |
| `Selector.RandomReachesEveryName` | app.py:62-63 | every listed ".json" puzzle can be drawn |
| `Runner.UserCodeLines` | app.py:85 | the count is at least 1 and equals the number of lines of the stripped code |
| `Runner.UserCodeLinesBound` | app.py:85 | the count never exceeds the number of lines the unstripped code spans |
| `Runner.Assemble` | app.py:89 | the program is the code, then two newlines, then the tests joined by newlines |
| `Runner.AssembledLines` | app.py:89 | the program's lines are the code's lines, one blank line, then one line per test |
| `Runner.CodeLinesComeFirst` | app.py:89 | whatever the tests hold, the program's lines are the code's lines followed by at least one more |
| `Runner.UserRegionIsUserCode` | app.py:85-89 | whatever the tests hold, program lines 1 to the count are lines of the user's code |
| `Runner.TestsFollowUserCode` | app.py:89 | when no test spans several lines, each test is its own program line after the code and the blank line |
| `Runner.LeadingBlankLinesShortenRegion` | app.py:85 | after `k` leading blank lines, a one-line fix counts as 1 line but sits on program line `k + 1` |
| `Classifier.FullOutput` | app.py:103 | the combined output is stdout, one newline, then stderr |
| `Classifier.FrameLine` | app.py:108-110 | a line yields a number exactly when it holds "File" and ", line " and the field after the first ", line " is an integer literal `int()` accepts; the number is that literal's value |
| `Classifier.FrameField` | app.py:108-110 | the field handed to `int()` is the text after the first ", line " up to the next comma |
| `Classifier.FrameLineReadsTraceback` | app.py:106-115 | a line shaped like `File "x", line N, in f` yields `N` |
| `Classifier.FrameLineRefusesSeparator` | app.py:106-115 | a frame line with U+001C to U+001F before its number yields no number and no hint |
| `Classifier.LineHint` | app.py:106-115 | no hint exactly when no line carries a number within the count; otherwise the hint is at most the count and comes from the first such line |
| `Classifier.HintTakesAnyNumberUpToCount` | app.py:111-112 | only the upper bound is checked, so zero and negative line numbers become hints |
| `Classifier.StatusOf` | app.py:118 | "partial" exactly when the output holds "AssertionError" as written, or "wrong output" with its ASCII letters in either case |
| `Classifier.PartialSurvivesMoreOutput` | app.py:118 | more output around a partial result keeps it partial |
| `Classifier.WrongOutputAnyCase` | app.py:118 | "Wrong Output", "WRONG OUTPUT" and every other casing give "partial" |
| `Classifier.SummaryIsLastLine` | app.py:119 | the combined output is never empty, so the summary is its last line and "Error occurred" is never used |
| `Classifier.SummaryOfTraceback` | app.py:119 | when stderr ends in a traceback, the summary is the traceback's last line |
| `Classifier.SummaryMayBeEmpty` | app.py:119-125 | with empty stderr and stdout empty or ending in a newline, the summary is empty |
| `Classifier.ErrorSummary` | app.py:119 | empty output gives "Error occurred"; otherwise the summary is the final line of the output with its closing line boundary dropped: break-free, and preceded by a boundary or by nothing (`PyLines.FinalLineUnique` shows only one text is such a line) |
| `Classifier.Classify` | app.py:92-129 | solved exactly on a clean exit, with the puzzle's explanation; timed out exactly on a timeout, with its message; a server error exactly when the run raised something else; a failed run gives a failure with the puzzle's fix line, the status of its output, the line hint of its output's lines, and "❌ Hint: " followed by the summary |
| `Classifier.Submit` | app.py:76-133 | 404 "Puzzle not found" exactly when `<id>.json` is not in the puzzle directory; a listed file that cannot be read gives 500; correct exactly when the file is read and the assembled program exits cleanly; for a consistent directory, 500 exactly when the run raised an exception the route does not catch |
| `Classifier.HintPointsIntoUserCode` | app.py:85-113 | for any tests, a hint of 1 or more names a program line that is a line of the user's code, never a line the tests contribute |

## Where the code and its documented behaviour differ

The model follows the code in every case below.

- The comment at app.py:85 speaks of the lines in the user's code. The count is taken after `strip()`, so leading blank lines are not counted. `Runner.LeadingBlankLinesShortenRegion` shows a one-line fix after `k` blank lines: it counts as line 1 but sits on program line `k + 1`.
- The line hint is documented as a line inside the user's code. The code checks only the upper bound, and it does not look at which file the traceback frame names. `Classifier.HintTakesAnyNumberUpToCount` shows that 0 and negative numbers pass. `Classifier.HintPointsIntoUserCode` gives the guarantee that does hold: a hint of 1 or more names a line of the user's code.
- A reader would expect the summary to be the last line with something on it. The code takes the last line as it is, which can be empty: see `Classifier.SummaryMayBeEmpty`.
- One would expect an empty puzzle directory to give a clear "no puzzles" error. In the code the daily and by-date routes divide by zero and the random route raises `IndexError`, so the server answers 500. The model returns `ServerError`.

## Left out

- HTTP transport is not modelled: FastAPI routing, form parsing, the static mount, the home page and the `print` at start-up. Results carry the status code (`HttpStatus`) in place of a response object.
- File-system access is not modelled. `os.listdir` is the directory's listing, and `os.path.exists` is membership in that listing. `open` followed by `json.load` is a lookup in the directory's map of readable puzzles: a listed name with an entry is read, and a listed name without one raises, which gives HTTP 500.
- Malformed JSON and a missing required key are not modelled. Each makes the source raise and answer HTTP 500. The puzzle record assumes its required fields are present. A listed file that is not in the map is modelled: the routes give `ServerError` and `Submit` gives `InternalError`.
- The `puzzle_id` is not sanitised in the source, so `..` or an absolute path can escape the directory. The model keys the store by `<id>.json` only.
- The child process is a parameter `run`. The model does not cover the interpreter itself, the 2-second limit, the temporary file's name, or its removal in `finally`. Exceptions other than `CalledProcessError` and `TimeoutExpired` are one outcome, `Unhandled`, which gives `InternalError` (HTTP 500); the model does not say which of them occurs when.
- The clock and `strptime` are left to the caller: `today` is a `Date`, and the parsed date is an `Option<Date>` with `None` for text that does not parse. Dates are limited to years 1 to 9999, as in Python.
- Selector.RandomPuzzle: `random.choice` is a caller-supplied `draw` taken modulo the number of puzzles. The model says nothing about uniformity.
- PyStr.LowerAscii: lowers only ASCII letters. The only other characters whose lower case contains ASCII are U+0130 and U+212A, which lower to "i̇" and "k". Neither letter occurs in "wrong output", so the status is unaffected.
- PyInt.ParseInt: accepts ASCII digits only, while Python's `int()` also accepts every other Unicode decimal digit. The hint loop reads every output line, the user's own prints included, so for a printed line such as `File x, line ٣` the source takes 3 as the hint where the model finds no number. Tracebacks themselves always print ASCII digits. The Unicode digit tables are not modelled.
- PyStr.SplitOn: the function's own contract states only that a split has at least one piece. `PyStr.SplitHead` and `PyStr.SplitSecond` fix the first two pieces, which are the only ones the service uses: the text before the first separator, and the text from there to the next one. `PyStr.SplitOnJoin` and `PyStr.SplitOnPieces` describe all pieces, but for a separator that can overlap itself they do not fix where the later cuts fall.
- PyInt.ParseInt: the 4300-digit limit is the default of Python 3.11 and later. Earlier versions have no limit, and the `PYTHONINTMAXSTRDIGITS` setting can change it; neither is modelled.
- Line numbers are taken from the traceback text as given. How the interpreter numbers lines of code that holds a lone `"\r"` is not modelled.
- puzzle_generator.py and static/script.js are not part of this model.
