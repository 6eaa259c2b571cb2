/** Python's `datetime.date` as far as the selector uses it: the proleptic Gregorian
    day number `toordinal()` (day 1 is 0001-01-01) and the `>` comparison of dates. */
module Dates {

  datatype Date = Date(year: int, month: int, day: int)

  predicate IsLeap(y: int) {
    y % 4 == 0 && (y % 100 != 0 || y % 400 == 0)
  }

  function DaysInYear(y: int): int {
    if IsLeap(y) then 366 else 365
  }

  function DaysInMonth(y: int, m: int): int
    requires 1 <= m <= 12
  {
    if m == 2 then (if IsLeap(y) then 29 else 28)
    else if m == 4 || m == 6 || m == 9 || m == 11 then 30
    else 31
  }

  /** A date `datetime.date` accepts: years 1 to 9999, a real month and day. */
  predicate Valid(d: Date) {
    && 1 <= d.year <= 9999
    && 1 <= d.month <= 12
    && 1 <= d.day <= DaysInMonth(d.year, d.month)
  }

  /** Days in the years before `y`, counted from year 1. */
  function DaysBeforeYear(y: int): int
    requires y >= 1
  {
    var p := y - 1;
    p * 365 + p / 4 - p / 100 + p / 400
  }

  /** Days in the months of year `y` before month `m`. */
  function DaysBeforeMonth(y: int, m: int): int
    requires 1 <= m <= 12
  {
    var before :=
      if m == 1 then 0 else if m == 2 then 31 else if m == 3 then 59
      else if m == 4 then 90 else if m == 5 then 120 else if m == 6 then 151
      else if m == 7 then 181 else if m == 8 then 212 else if m == 9 then 243
      else if m == 10 then 273 else if m == 11 then 304 else 334;
    before + (if m > 2 && IsLeap(y) then 1 else 0)
  }

  /** A year holds one more day than the years before it account for. */
  lemma DaysBeforeYearStep(y: int)
    requires y >= 1
    ensures DaysBeforeYear(y + 1) == DaysBeforeYear(y) + DaysInYear(y)
  {
    DivStep(y, 4);
    DivStep(y, 100);
    DivStep(y, 400);
    if y % 400 == 0 {
      ModUnique(y, 100, 4 * (y / 400), 0);
    }
    if y % 100 == 0 {
      ModUnique(y, 4, 25 * (y / 100), 0);
    }
  }

  /** Going from `y - 1` to `y`, the count of multiples of `n` up to it grows by one
      exactly when `y` is a multiple of `n`. */
  lemma DivStep(y: int, n: int)
    requires n > 0
    ensures y / n == (y - 1) / n + (if y % n == 0 then 1 else 0)
  {
    var q, r := (y - 1) / n, (y - 1) % n;
    assert (q + 1) * n == q * n + n;
    if r == n - 1 {
      ModUnique(y, n, q + 1, 0);
    } else {
      ModUnique(y, n, q, r + 1);
    }
  }

  lemma MulAtLeast(d: int, n: int)
    requires d >= 1 && n > 0
    ensures d * n >= n
  {
    if d > 1 {
      MulAtLeast(d - 1, n);
      assert d * n == (d - 1) * n + n;
    }
  }

  /** Euclidean division has one quotient and one remainder. */
  lemma ModUnique(x: int, n: int, q: int, r: int)
    requires n > 0 && 0 <= r < n && x == q * n + r
    ensures x % n == r && x / n == q
  {
    var q', r' := x / n, x % n;
    var d := q - q';
    assert d * n == r' - r by {
      assert q * n - q' * n == (q - q') * n;
    }
    if d >= 1 {
      MulAtLeast(d, n);
    } else if d <= -1 {
      MulAtLeast(-d, n);
    }
  }

  lemma {:induction false} DaysBeforeYearMonotone(y1: int, y2: int)
    requires 1 <= y1 <= y2
    ensures DaysBeforeYear(y1) + (y2 - y1) * 365 <= DaysBeforeYear(y2)
    decreases y2 - y1
  {
    if y1 < y2 {
      DaysBeforeYearStep(y1);
      DaysBeforeYearMonotone(y1 + 1, y2);
    }
  }

  /** `date.toordinal()`. */
  function ToOrdinal(d: Date): (n: int)
    requires Valid(d)
    ensures DaysBeforeYear(d.year) < n <= DaysBeforeYear(d.year) + DaysInYear(d.year)
    ensures n >= 1
  {
    assert DaysBeforeYear(d.year) >= 0 by {
      DaysBeforeYearMonotone(1, d.year);
    }
    DaysBeforeYear(d.year) + DaysBeforeMonth(d.year, d.month) + d.day
  }

  /** Day 1 is 0001-01-01, as `date.toordinal()` documents. */
  lemma FirstOrdinal()
    ensures ToOrdinal(Date(1, 1, 1)) == 1
  {
  }

  /** A second fixed point of the count: 2026-10-10 is day 739899. */
  lemma OrdinalOfKnownDay()
    ensures ToOrdinal(Date(2026, 10, 10)) == 739899
  {
    ModUnique(2025, 4, 506, 1);
    ModUnique(2025, 100, 20, 25);
    ModUnique(2025, 400, 5, 25);
    ModUnique(2026, 4, 506, 2);
    assert DaysBeforeYear(2026) == 739616;
    assert DaysBeforeMonth(2026, 10) == 273;
  }

  /** The calendar day after `d`. */
  function NextDay(d: Date): Date
    requires Valid(d)
  {
    if d.day < DaysInMonth(d.year, d.month) then Date(d.year, d.month, d.day + 1)
    else if d.month < 12 then Date(d.year, d.month + 1, 1)
    else Date(d.year + 1, 1, 1)
  }

  /** Each calendar day is numbered one more than the day before it, across month and
      year ends; with the first anchor this pins down every ordinal. */
  lemma NextDayOrdinal(d: Date)
    requires Valid(d) && d != Date(9999, 12, 31)
    ensures Valid(NextDay(d))
    ensures ToOrdinal(NextDay(d)) == ToOrdinal(d) + 1
  {
    if d.day == DaysInMonth(d.year, d.month) && d.month == 12 {
      DaysBeforeYearStep(d.year);
    }
  }

  /** `a > b` on dates: year, then month, then day. */
  predicate After(a: Date, b: Date) {
    || a.year > b.year
    || (a.year == b.year && (a.month > b.month || (a.month == b.month && a.day > b.day)))
  }

  lemma AfterOrdinal(a: Date, b: Date)
    requires Valid(a) && Valid(b) && After(a, b)
    ensures ToOrdinal(a) > ToOrdinal(b)
  {
    if a.year > b.year {
      DaysBeforeYearStep(b.year);
      DaysBeforeYearMonotone(b.year + 1, a.year);
    }
  }

  /** Comparing dates is comparing their day numbers, and the day number names one date. */
  lemma OrdinalOrder(a: Date, b: Date)
    requires Valid(a) && Valid(b)
    ensures After(a, b) <==> ToOrdinal(a) > ToOrdinal(b)
    ensures a == b <==> ToOrdinal(a) == ToOrdinal(b)
  {
    if After(a, b) {
      AfterOrdinal(a, b);
    } else if After(b, a) {
      AfterOrdinal(b, a);
    }
  }
}
