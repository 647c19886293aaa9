/**
 * The proleptic Gregorian calendar as Python's `datetime.date` and
 * `calendar.monthrange` present it: dates are (year, month, day) triples
 * with 1 <= year <= 9999, compared field by field; `toordinal()` numbers
 * the days from 0001-01-01 (day 1); subtracting two dates gives the
 * difference of their ordinals; `weekday()` is 0 for Monday.
 */
module Calendar {

  const MinYear := 1
  const MaxYear := 9999

  datatype Date = Date(year: int, month: int, day: int)

  /** The last date Python can represent. */
  const LastDate := Date(MaxYear, 12, 31)

  predicate IsLeap(y: int) {
    y % 4 == 0 && (y % 100 != 0 || y % 400 == 0)
  }

  function DaysInYear(y: int): int {
    if IsLeap(y) then 366 else 365
  }

  /** `calendar.monthrange(y, m)[1]`: the number of days of month `m`. */
  function DaysInMonth(y: int, m: int): (n: int)
    requires 1 <= m <= 12
    ensures 28 <= n <= 31
    ensures m == 2 ==> (n == 29 <==> IsLeap(y))
  {
    if m == 2 then (if IsLeap(y) then 29 else 28)
    else if m == 4 || m == 6 || m == 9 || m == 11 then 30
    else 31
  }

  /** The triples `date(year, month, day)` accepts without raising ValueError. */
  predicate ValidDate(d: Date) {
    && MinYear <= d.year <= MaxYear
    && 1 <= d.month <= 12
    && 1 <= d.day <= DaysInMonth(d.year, d.month)
  }

  /** `a < b` on dates: by year, then month, then day. */
  predicate Before(a: Date, b: Date) {
    || a.year < b.year
    || (a.year == b.year && a.month < b.month)
    || (a.year == b.year && a.month == b.month && a.day < b.day)
  }

  /** `a <= b` on dates. */
  predicate NotAfter(a: Date, b: Date) {
    !Before(b, a)
  }

  /** Python's `max(a, b)` on dates. */
  function MaxDate(a: Date, b: Date): (r: Date)
    ensures r == a || r == b
    ensures NotAfter(a, r) && NotAfter(b, r)
  {
    if Before(a, b) then b else a
  }

  /** Python's `min(a, b)` on dates. */
  function MinDate(a: Date, b: Date): (r: Date)
    ensures r == a || r == b
    ensures NotAfter(r, a) && NotAfter(r, b)
  {
    if Before(b, a) then b else a
  }

  // ---------------------------------------------------------------------
  // Day ordinals

  /** Days in the years before `y` (Python's `_days_before_year`). */
  function DaysBeforeYear(y: int): int {
    var p := y - 1;
    p * 365 + p / 4 - p / 100 + p / 400
  }

  /** Days in year `y` before the first of month `m` (`_days_before_month`). */
  function DaysBeforeMonth(y: int, m: int): int
    requires 1 <= m <= 12
  {
    [0, 31, 59, 90, 120, 151, 181, 212, 243, 273, 304, 334][m - 1]
      + (if m > 2 && IsLeap(y) then 1 else 0)
  }

  /** `d.toordinal()`: 0001-01-01 is day 1. */
  function Ordinal(d: Date): (n: int)
    requires ValidDate(d)
    ensures n >= 1
  {
    DaysBeforeYearNonNegative(d.year);
    DaysBeforeYear(d.year) + DaysBeforeMonth(d.year, d.month) + d.day
  }

  /** `(b - a).days`: positive exactly when `a < b`, zero exactly when the
      dates are equal. */
  function DaysBetween(a: Date, b: Date): (n: int)
    requires ValidDate(a) && ValidDate(b)
    ensures n > 0 <==> Before(a, b)
    ensures n == 0 <==> a == b
  {
    OrdinalOrder(a, b);
    Ordinal(b) - Ordinal(a)
  }

  /** `d.weekday()`: Monday is 0, Sunday is 6. */
  function Weekday(d: Date): (w: int)
    requires ValidDate(d)
    ensures 0 <= w <= 6
  {
    (Ordinal(d) + 6) % 7
  }

  lemma DaysBeforeYearNonNegative(y: int)
    requires y >= MinYear
    ensures DaysBeforeYear(y) >= 0
  {
    var p := y - 1;
    assert p / 100 <= p;
  }

  /** One more year adds that year's length. */
  lemma DaysBeforeYearStep(y: int)
    ensures DaysBeforeYear(y + 1) == DaysBeforeYear(y) + DaysInYear(y)
  {
    QuotientStepFour(y);
    QuotientStepHundred(y);
    QuotientStepFourHundred(y);
    LeapDivisibility(y);
  }

  /** Passing `y` adds one to the count of multiples of 4 exactly when 4 divides `y`. */
  lemma QuotientStepFour(y: int)
    ensures y / 4 - (y - 1) / 4 == if y % 4 == 0 then 1 else 0
  {
  }

  /** The same for multiples of 100. */
  lemma QuotientStepHundred(y: int)
    ensures y / 100 - (y - 1) / 100 == if y % 100 == 0 then 1 else 0
  {
  }

  /** The same for multiples of 400. */
  lemma QuotientStepFourHundred(y: int)
    ensures y / 400 - (y - 1) / 400 == if y % 400 == 0 then 1 else 0
  {
  }

  /** A multiple of 400 is a multiple of 100, and a multiple of 100 one of 4. */
  lemma LeapDivisibility(y: int)
    ensures y % 400 == 0 ==> y % 100 == 0
    ensures y % 100 == 0 ==> y % 4 == 0
  {
    if y % 400 == 0 {
      assert y == 400 * (y / 400);
    }
    if y % 100 == 0 {
      assert y == 100 * (y / 100);
    }
  }

  lemma {:induction false} DaysBeforeYearMonotone(y1: int, y2: int)
    requires y1 <= y2
    ensures DaysBeforeYear(y1) + 365 * (y2 - y1) <= DaysBeforeYear(y2)
    decreases y2 - y1
  {
    if y1 < y2 {
      DaysBeforeYearMonotone(y1, y2 - 1);
      DaysBeforeYearStep(y2 - 1);
    }
  }

  /** The first of month `m2` comes after every day of an earlier month `m1`. */
  lemma {:induction false} DaysBeforeMonthMonotone(y: int, m1: int, m2: int)
    requires 1 <= m1 < m2 <= 12
    ensures DaysBeforeMonth(y, m1) + DaysInMonth(y, m1) <= DaysBeforeMonth(y, m2)
    decreases m2 - m1
  {
    if m1 + 1 < m2 {
      DaysBeforeMonthMonotone(y, m1, m2 - 1);
    }
  }

  /** Lexicographic order on valid dates is the order of their ordinals. */
  lemma BeforeOrdinal(a: Date, b: Date)
    requires ValidDate(a) && ValidDate(b) && Before(a, b)
    ensures Ordinal(a) < Ordinal(b)
  {
    if a.year < b.year {
      EarlierYearOrdinal(a, b);
    } else if a.month < b.month {
      DaysBeforeMonthMonotone(a.year, a.month, b.month);
    }
  }

  /** Every day of an earlier year has a smaller ordinal. */
  lemma EarlierYearOrdinal(a: Date, b: Date)
    requires ValidDate(a) && ValidDate(b) && a.year < b.year
    ensures Ordinal(a) < Ordinal(b)
  {
    if a.month < 12 {
      DaysBeforeMonthMonotone(a.year, a.month, 12);
    }
    DaysBeforeYearStep(a.year);
    DaysBeforeYearMonotone(a.year + 1, b.year);
    DaysBeforeYearNonNegative(b.year);
  }

  /** Ordinals order valid dates exactly as Python's comparison does, and
      distinct valid dates have distinct ordinals. */
  lemma OrdinalOrder(a: Date, b: Date)
    requires ValidDate(a) && ValidDate(b)
    ensures Before(a, b) <==> Ordinal(a) < Ordinal(b)
    ensures a == b <==> Ordinal(a) == Ordinal(b)
  {
    if Before(a, b) {
      BeforeOrdinal(a, b);
    } else if Before(b, a) {
      BeforeOrdinal(b, a);
    }
  }

  // ---------------------------------------------------------------------
  // Enumerating the days of a range

  /** `d + timedelta(days=1)`. */
  function NextDay(d: Date): (r: Date)
    requires ValidDate(d) && d != LastDate
    ensures ValidDate(r) && Ordinal(r) == Ordinal(d) + 1
  {
    if d.day < DaysInMonth(d.year, d.month) then
      Date(d.year, d.month, d.day + 1)
    else if d.month < 12 then
      Date(d.year, d.month + 1, 1)
    else
      DaysBeforeYearStep(d.year);
      Date(d.year + 1, 1, 1)
  }

  /** Every calendar date from `lo` through `hi`, in order; empty when `hi` is before `lo`. */
  function DatesFrom(lo: Date, hi: Date): (r: seq<Date>)
    requires ValidDate(lo) && ValidDate(hi)
    ensures |r| == if Before(hi, lo) then 0 else Ordinal(hi) - Ordinal(lo) + 1
    ensures forall i :: 0 <= i < |r| ==> ValidDate(r[i]) && Ordinal(r[i]) == Ordinal(lo) + i
    decreases Ordinal(hi) - Ordinal(lo)
  {
    OrdinalOrder(lo, hi);
    if Before(hi, lo) then []
    else if lo == hi then [lo]
    else
      var next := NextDay(lo);
      OrdinalOrder(hi, next);
      [lo] + DatesFrom(next, hi)
  }

  /** `DatesFrom(lo, hi)` holds exactly the valid dates `x` with `lo <= x <= hi`. */
  lemma DatesFromContains(lo: Date, hi: Date, x: Date)
    requires ValidDate(lo) && ValidDate(hi) && ValidDate(x)
    ensures x in DatesFrom(lo, hi) <==> NotAfter(lo, x) && NotAfter(x, hi)
  {
    var r := DatesFrom(lo, hi);
    OrdinalOrder(lo, x);
    OrdinalOrder(x, hi);
    OrdinalOrder(lo, hi);
    if x in r {
      var i :| 0 <= i < |r| && r[i] == x;
    }
    if NotAfter(lo, x) && NotAfter(x, hi) {
      var i := Ordinal(x) - Ordinal(lo);
      assert 0 <= i < |r|;
      OrdinalOrder(r[i], x);
      assert r[i] == x;
    }
  }

  /** The first date of a range is `lo`, and the rest starts the day after. */
  lemma DatesFromUnfold(lo: Date, hi: Date)
    requires ValidDate(lo) && ValidDate(hi) && Before(lo, hi)
    ensures lo != LastDate
    ensures DatesFrom(lo, hi) == [lo] + DatesFrom(NextDay(lo), hi)
  {
    OrdinalOrder(lo, hi);
  }
}
