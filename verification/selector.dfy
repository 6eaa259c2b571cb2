/** Puzzle selection (app.py `get_daily_puzzle_name`, `get_random_puzzle`,
    `get_puzzle_by_date`): the `.json` names of the puzzle directory, sorted as text,
    indexed by the date's day number modulo their count. The directory is given as
    its listing plus the records its files hold; "today" and the parsed request date
    are parameters. */
module Selector {
  import opened Wrappers
  import opened Sorting
  import opened Dates
  import opened Puzzles

  /** The puzzle directory: `os.listdir` in whatever order the OS returns it, and the
      record `json.load` reads from each file. */
  datatype PuzzleDir = PuzzleDir(listing: seq<string>, files: map<string, Puzzle>)

  /** Every listed `.json` name can be opened and read. */
  ghost predicate Consistent(dir: PuzzleDir) {
    forall f :: f in dir.listing && EndsWith(f, ".json") ==> f in dir.files
  }

  /** Why a puzzle route answers with an error instead of a puzzle. */
  datatype RouteError =
    | InvalidDateFormat  // strptime refused the path parameter: 400
    | FutureDate         // the date is after today: 403
    | ServerError        // an uncaught exception (empty directory, unreadable file): 500
  {
    function HttpStatus(): int {
      match this
      case InvalidDateFormat => 400
      case FutureDate => 403
      case ServerError => 500
    }
  }

  /** `s.endswith(suffix)`. */
  predicate EndsWith(s: string, suffix: string) {
    |suffix| <= |s| && s[|s| - |suffix|..] == suffix
  }

  /** The names of the listing that end in `.json`, in listing order. */
  function JsonFiles(listing: seq<string>): (r: seq<string>)
    ensures forall f :: multiset(r)[f] == if EndsWith(f, ".json") then multiset(listing)[f] else 0
  {
    if |listing| == 0 then []
    else
      var rest := JsonFiles(listing[1..]);
      assert listing == [listing[0]] + listing[1..];
      if EndsWith(listing[0], ".json") then [listing[0]] + rest else rest
  }

  /** The puzzle names the routes choose from: the directory's `.json` names in text
      order. */
  function PuzzleNames(listing: seq<string>): (r: seq<string>)
    ensures Sorted(r)
    ensures multiset(r) == multiset(JsonFiles(listing))
    ensures forall f :: f in r <==> f in listing && EndsWith(f, ".json")
  {
    var r := SortNames(JsonFiles(listing));
    assert forall f :: f in r <==> multiset(JsonFiles(listing))[f] > 0;
    r
  }

  /** The order `os.listdir` happens to return does not change the sorted names. */
  lemma ListingOrderIrrelevant(l1: seq<string>, l2: seq<string>)
    requires multiset(l1) == multiset(l2)
    ensures PuzzleNames(l1) == PuzzleNames(l2)
  {
    var j1, j2 := JsonFiles(l1), JsonFiles(l2);
    forall f ensures multiset(j1)[f] == multiset(j2)[f] {
    }
    assert multiset(j1) == multiset(j2);
    SortedUnique(SortNames(j1), SortNames(j2));
  }

  /** `ordinal % count` for a positive count, where Python's floor remainder agrees with
      Dafny's Euclidean one: the residue of the day number below the count. */
  function DayIndex(ordinal: int, count: int): (i: nat)
    requires count > 0
    ensures i < count
    ensures (ordinal - i) % count == 0
  {
    ModUnique(ordinal - ordinal % count, count, ordinal / count, 0);
    ordinal % count
  }

  /** Only one index below the count differs from the day number by a multiple of the
      count, so that condition picks the day's index. */
  lemma DayIndexUnique(ordinal: int, count: int, i: int)
    requires count > 0 && 0 <= i < count && (ordinal - i) % count == 0
    ensures i == DayIndex(ordinal, count)
  {
    var q := (ordinal - i) / count;
    assert ordinal - i == q * count;
    ModUnique(ordinal, count, q, i);
  }

  /** The daily pick from a non-empty sorted list: the name whose index differs
      from the day number by a multiple of the list length. */
  function NameForDay(names: seq<string>, ordinal: int): (f: string)
    requires |names| > 0
    ensures exists i :: 0 <= i < |names| && (ordinal - i) % |names| == 0 && f == names[i]
  {
    var i := DayIndex(ordinal, |names|);
    names[i]
  }

  /** Day numbers a whole number of list lengths apart select the same name. */
  lemma NameForDayPeriodic(names: seq<string>, o1: int, o2: int, k: int)
    requires |names| > 0 && o2 == o1 + k * |names|
    ensures NameForDay(names, o2) == NameForDay(names, o1)
  {
    var n := |names|;
    ModUnique(o2, n, o1 / n + k, o1 % n);
    assert (o1 / n + k) * n == (o1 / n) * n + k * n;
  }

  /** Consecutive day numbers walk through the names one at a time, wrapping around. */
  lemma NameForDayRotates(names: seq<string>, ordinal: int)
    requires |names| > 0
    ensures DayIndex(ordinal + 1, |names|) == (DayIndex(ordinal, |names|) + 1) % |names|
  {
    var n := |names|;
    var r := ordinal % n;
    if r + 1 < n {
      ModUnique(ordinal + 1, n, ordinal / n, r + 1);
      ModUnique(r + 1, n, 0, r + 1);
    } else {
      ModUnique(ordinal + 1, n, ordinal / n + 1, 0);
      assert (ordinal / n + 1) * n == (ordinal / n) * n + n;
      ModUnique(n, n, 1, 0);
    }
  }

  /** Open a listed name and project the record it holds; a file that cannot be read
      raises, which the server answers with 500. */
  function OpenName(dir: PuzzleDir, f: string): (r: Result<PublicPuzzle, RouteError>)
    ensures r.Success? <==> f in dir.files
    ensures r.Success? ==> r.value == PublicView(dir.files[f])
    ensures r.Failure? ==> r.error == ServerError
  {
    if f in dir.files then Success(PublicView(dir.files[f])) else Failure(ServerError)
  }

  /** `r` is the answer for day number `ordinal`: a server error when there is no
      puzzle name; otherwise what opening the name whose index differs from the day
      number by a multiple of the count gives. */
  ghost predicate AnswersForDay(dir: PuzzleDir, ordinal: int, r: Result<PublicPuzzle, RouteError>) {
    var names := PuzzleNames(dir.listing);
    if |names| == 0 then r == Failure(ServerError)
    else
      exists i :: 0 <= i < |names| && (ordinal - i) % |names| == 0 && r == OpenName(dir, names[i])
  }

  /** Opening the name at the day's index answers for that day, and succeeds when the
      directory is consistent. */
  lemma DayAnswer(dir: PuzzleDir, names: seq<string>, ordinal: int, i: nat)
    requires names == PuzzleNames(dir.listing) && |names| > 0
    requires i == DayIndex(ordinal, |names|)
    ensures AnswersForDay(dir, ordinal, OpenName(dir, names[i]))
    ensures Consistent(dir) ==> OpenName(dir, names[i]).Success?
  {
    assert names[i] in names;
  }

  /** `AnswersForDay` leaves no choice: one answer per directory and day number. */
  lemma AnswersForDayUnique(dir: PuzzleDir, ordinal: int, r1: Result<PublicPuzzle, RouteError>, r2: Result<PublicPuzzle, RouteError>)
    requires AnswersForDay(dir, ordinal, r1) && AnswersForDay(dir, ordinal, r2)
    ensures r1 == r2
  {
    var names := PuzzleNames(dir.listing);
    if |names| > 0 {
      var i1 :| 0 <= i1 < |names| && (ordinal - i1) % |names| == 0 && r1 == OpenName(dir, names[i1]);
      var i2 :| 0 <= i2 < |names| && (ordinal - i2) % |names| == 0 && r2 == OpenName(dir, names[i2]);
      DayIndexUnique(ordinal, |names|, i1);
      DayIndexUnique(ordinal, |names|, i2);
    }
  }

  /** Read and project the puzzle for a day number; an empty directory raises
      `ZeroDivisionError` and a listed file that cannot be read raises as well. */
  function PuzzleForOrdinal(dir: PuzzleDir, ordinal: int): (r: Result<PublicPuzzle, RouteError>)
    ensures AnswersForDay(dir, ordinal, r)
    ensures Consistent(dir) && |PuzzleNames(dir.listing)| > 0 ==> r.Success?
  {
    var names := PuzzleNames(dir.listing);
    if |names| == 0 then Failure(ServerError)
    else
      var i := DayIndex(ordinal, |names|);
      DayAnswer(dir, names, ordinal, i);
      OpenName(dir, names[i])
  }

  /** `GET /puzzle`: the puzzle for today's day number. */
  function DailyPuzzle(dir: PuzzleDir, today: Date): (r: Result<PublicPuzzle, RouteError>)
    requires Valid(today)
    ensures AnswersForDay(dir, ToOrdinal(today), r)
    ensures Consistent(dir) && |PuzzleNames(dir.listing)| > 0 ==> r.Success?
  {
    PuzzleForOrdinal(dir, ToOrdinal(today))
  }

  /** `GET /puzzle/date/{date_str}`; `parsed` is the date parsed from the path in the
      year-month-day format, `None` when the text does not parse. */
  function PuzzleByDate(dir: PuzzleDir, parsed: Option<Date>, today: Date): (r: Result<PublicPuzzle, RouteError>)
    requires Valid(today)
    requires parsed.Some? ==> Valid(parsed.value)
    ensures parsed.None? ==> r == Failure(InvalidDateFormat)
    ensures r == Failure(FutureDate) <==> parsed.Some? && ToOrdinal(parsed.value) > ToOrdinal(today)
    ensures r.Success? ==> parsed.Some? && ToOrdinal(parsed.value) <= ToOrdinal(today)
    ensures parsed.Some? && !After(parsed.value, today) ==> AnswersForDay(dir, ToOrdinal(parsed.value), r)
  {
    match parsed
    case None => Failure(InvalidDateFormat)
    case Some(d) =>
      OrdinalOrder(d, today);
      if After(d, today) then Failure(FutureDate)
      else PuzzleForOrdinal(dir, ToOrdinal(d))
  }

  /** `GET /puzzle/random`; `draw` stands for the index `random.choice` picks, which the
      model reduces modulo the list length; an empty list raises `IndexError`. */
  function RandomPuzzle(dir: PuzzleDir, draw: nat): (r: Result<PublicPuzzle, RouteError>)
    ensures |PuzzleNames(dir.listing)| == 0 ==> r == Failure(ServerError)
    ensures Consistent(dir) && |PuzzleNames(dir.listing)| > 0 ==> r.Success?
    ensures r.Success? ==>
      exists f :: f in dir.listing && EndsWith(f, ".json") && f in dir.files && r.value == PublicView(dir.files[f])
  {
    var names := PuzzleNames(dir.listing);
    if |names| == 0 then Failure(ServerError)
    else
      var f := names[draw % |names|];
      assert f in names;
      OpenName(dir, f)
  }

  /** Every puzzle in the directory can come out of the random route. */
  lemma RandomReachesEveryName(dir: PuzzleDir, f: string)
    requires Consistent(dir)
    requires f in dir.listing && EndsWith(f, ".json")
    ensures exists draw: nat :: RandomPuzzle(dir, draw) == Success(PublicView(dir.files[f]))
  {
    var names := PuzzleNames(dir.listing);
    var i :| 0 <= i < |names| && names[i] == f;
    ModUnique(i, |names|, 0, i);
    assert RandomPuzzle(dir, i) == Success(PublicView(dir.files[f]));
  }

  /** A date after today is refused before the directory is even looked at. */
  lemma FutureRefusedForAnyDirectory(dir1: PuzzleDir, dir2: PuzzleDir, d: Date, today: Date)
    requires Valid(today) && Valid(d) && After(d, today)
    ensures PuzzleByDate(dir1, Some(d), today) == PuzzleByDate(dir2, Some(d), today) == Failure(FutureDate)
  {
    OrdinalOrder(d, today);
  }

  /** Asking for today's date by date gives the daily puzzle. */
  lemma TodayByDateIsDaily(dir: PuzzleDir, today: Date)
    requires Valid(today)
    ensures PuzzleByDate(dir, Some(today), today) == DailyPuzzle(dir, today)
  {
  }

  /** A consistent non-empty directory always answers the daily route with a puzzle,
      and the one it picks depends only on which names are listed, not their order. */
  lemma DailyServesAPuzzle(dir: PuzzleDir, other: seq<string>, today: Date)
    requires Valid(today) && Consistent(dir)
    requires |PuzzleNames(dir.listing)| > 0
    requires multiset(other) == multiset(dir.listing)
    ensures DailyPuzzle(dir, today).Success?
    ensures DailyPuzzle(dir, today) == DailyPuzzle(PuzzleDir(other, dir.files), today)
  {
    ListingOrderIrrelevant(dir.listing, other);
  }

  /** Dates whose day numbers differ by a multiple of the puzzle count get the same puzzle. */
  lemma DailyPeriodic(dir: PuzzleDir, d1: Date, d2: Date, k: int)
    requires Valid(d1) && Valid(d2)
    requires ToOrdinal(d2) == ToOrdinal(d1) + k * |PuzzleNames(dir.listing)|
    ensures DailyPuzzle(dir, d1) == DailyPuzzle(dir, d2)
  {
    PuzzleForOrdinalPeriodic(dir, ToOrdinal(d1), ToOrdinal(d2), k, |PuzzleNames(dir.listing)|);
  }

  lemma PuzzleForOrdinalPeriodic(dir: PuzzleDir, o1: int, o2: int, k: int, n: int)
    requires n == |PuzzleNames(dir.listing)|
    requires o2 == o1 + k * n
    ensures PuzzleForOrdinal(dir, o1) == PuzzleForOrdinal(dir, o2)
  {
    var names := PuzzleNames(dir.listing);
    if n > 0 {
      NameForDayPeriodic(names, o1, o2, k);
    }
  }
}
