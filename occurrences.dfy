/**
 * The date arithmetic of the spending endpoints: the query windows, the
 * overlap of an activity with a window, and the closed-form occurrence
 * counts for each recurrence type.
 *
 * Each count is related to one reference definition: the number of dates
 * of the overlap on which the day endpoint's membership test (`FallsOn`)
 * holds.
 */
module Occurrences {
  import opened Calendar
  import opened Wrappers
  import opened Models

  /** The bounds the endpoints' query parameters declare for `year`. */
  const MinQueryYear := 1800
  const MaxQueryYear := 3000

  /** An inclusive range of dates `[start, end]`. */
  datatype Window = Window(start: Date, end: Date)

  predicate ValidWindow(w: Window) {
    ValidDate(w.start) && ValidDate(w.end) && NotAfter(w.start, w.end)
  }

  predicate InWindow(d: Date, w: Window) {
    NotAfter(w.start, d) && NotAfter(d, w.end)
  }

  /** A year query's window lies inside one calendar year and starts on 1 January. */
  predicate YearShaped(w: Window) {
    ValidWindow(w) && w.start == Date(w.end.year, 1, 1)
  }

  /** A month query's window lies inside one month and starts on its first day. */
  predicate MonthShaped(w: Window) {
    ValidWindow(w) && w.start == Date(w.end.year, w.end.month, 1)
  }

  // ---------------------------------------------------------------------
  // Windows

  /** The window of a year query: `None` for a year after today's, else
      1 January through 31 December, or through today in the current year. */
  function YearWindow(year: int, today: Date): (w: Option<Window>)
    requires MinQueryYear <= year <= MaxQueryYear && ValidDate(today)
    ensures w.None? <==> year > today.year
    ensures w.Some? ==> YearShaped(w.value) && w.value.end.year == year && NotAfter(w.value.end, today)
  {
    if year > today.year then None
    else Some(Window(Date(year, 1, 1), if today.year > year then Date(year, 12, 31) else today))
  }

  /** A year query's window holds exactly the dates of that year up to today. */
  lemma YearWindowDates(year: int, today: Date, d: Date)
    requires MinQueryYear <= year <= MaxQueryYear && ValidDate(today) && ValidDate(d)
    requires year <= today.year
    ensures InWindow(d, YearWindow(year, today).value) <==> d.year == year && NotAfter(d, today)
  {
  }

  /** The window of a month query: `None` when the month's first day is
      after today, else the first day through the earlier of the month's last
      day and today. */
  function MonthWindow(year: int, month: int, today: Date): (w: Option<Window>)
    requires MinQueryYear <= year <= MaxQueryYear && 1 <= month <= 12 && ValidDate(today)
    ensures w.None? <==> Before(today, Date(year, month, 1))
    ensures w.Some? ==> MonthShaped(w.value) && w.value.end.year == year && w.value.end.month == month
    ensures w.Some? ==> NotAfter(w.value.end, today)
  {
    var startOfMonth := Date(year, month, 1);
    if Before(today, startOfMonth) then None
    else
      var endOfMonth := Date(year, month, DaysInMonth(year, month));
      Some(Window(startOfMonth, if NotAfter(endOfMonth, today) then endOfMonth else today))
  }

  /** A month query's window holds exactly the dates of that month up to today. */
  lemma MonthWindowDates(year: int, month: int, today: Date, d: Date)
    requires MinQueryYear <= year <= MaxQueryYear && 1 <= month <= 12 && ValidDate(today) && ValidDate(d)
    requires NotAfter(Date(year, month, 1), today)
    ensures InWindow(d, MonthWindow(year, month, today).value) <==>
            d.year == year && d.month == month && NotAfter(d, today)
  {
  }

  // ---------------------------------------------------------------------
  // Overlap

  /** The year and month pre-filter: the activity starts no later than the
      window's end and has no end date or ends no earlier than its start. */
  predicate ActiveDuring(a: Activity, w: Window) {
    NotAfter(a.startDate, w.end) && (a.endDate.None? || NotAfter(w.start, a.endDate.value))
  }

  /** `[max(startDate, window start), min(endDate or window end, window end)]`. */
  function Overlap(a: Activity, w: Window): (o: Window)
    requires ValidActivity(a) && ValidWindow(w)
    ensures ValidDate(o.start) && ValidDate(o.end)
  {
    Window(MaxDate(a.startDate, w.start), MinDate(a.endDate.GetOr(w.end), w.end))
  }

  /** The overlap holds exactly the window's dates on which the activity is active. */
  lemma OverlapDates(a: Activity, w: Window, d: Date)
    requires ValidActivity(a) && ValidWindow(w)
    ensures InWindow(d, Overlap(a, w)) <==>
            InWindow(d, w) && NotAfter(a.startDate, d) && (a.endDate.None? || NotAfter(d, a.endDate.value))
  {
  }

  /** The overlap's bounds lie inside the window and inside the activity's
      active period, whatever the activity's dates. */
  lemma OverlapBounds(a: Activity, w: Window)
    requires ValidActivity(a) && ValidWindow(w)
    ensures var o := Overlap(a, w);
      && NotAfter(w.start, o.start) && NotAfter(o.end, w.end)
      && NotAfter(a.startDate, o.start)
      && (a.endDate.Some? ==> NotAfter(o.end, a.endDate.value))
  {
  }

  /** Under the pre-filter, the overlap of an activity that does not end
      before it starts is non-empty. */
  lemma OverlapNonEmpty(a: Activity, w: Window)
    requires ValidActivity(a) && OrderedDates(a) && ValidWindow(w) && ActiveDuring(a, w)
    ensures ValidWindow(Overlap(a, w))
  {
  }

  // ---------------------------------------------------------------------
  // The reference: dates on which an activity's expense falls

  /** The day endpoint's per-type test for a date `d` on or after `start`. */
  predicate FallsOn(kind: RecurrenceType, start: Date, d: Date)
    requires ValidDate(start) && ValidDate(d)
  {
    match kind
    case Once => d == start
    case Daily => true
    case Weekly => Weekday(start) == Weekday(d)
    case Monthly => start.day == d.day
    case Yearly => start.month == d.month && start.day == d.day
    case Unrecognised => false
  }

  /** Every recognised type is due on its own start date, and a weekly
      activity is due exactly every seventh day from it. */
  lemma FallsOnStartDate(kind: RecurrenceType, start: Date, d: Date)
    requires ValidDate(start) && ValidDate(d)
    ensures d == start ==> (FallsOn(kind, start, d) <==> kind != Unrecognised)
    ensures kind == Weekly ==> (FallsOn(kind, start, d) <==> (Ordinal(d) - Ordinal(start)) % 7 == 0)
  {
    if kind == Weekly {
      SameResidueModSeven(Ordinal(d) + 6, Ordinal(start) + 6);
    }
  }

  /** Two integers leave the same remainder modulo 7 exactly when their
      difference is a multiple of 7. */
  lemma SameResidueModSeven(x: int, y: int)
    ensures x % 7 == y % 7 <==> (x - y) % 7 == 0
  {
    var q := x / 7 - y / 7;
    var r := x % 7 - y % 7;
    assert x - y == 7 * q + r;
    assert -7 < r < 7;
    if r == 0 {
      assert (x - y) % 7 == (7 * q) % 7 == 0;
    } else if r > 0 {
      assert (x - y) / 7 == q;
    } else {
      assert (x - y) / 7 == q - 1;
    }
  }

  /** How many of the dates `ds` pass `FallsOn`. */
  function CountFallsOn(kind: RecurrenceType, start: Date, ds: seq<Date>): (n: nat)
    requires ValidDate(start) && forall i :: 0 <= i < |ds| ==> ValidDate(ds[i])
    ensures n <= |ds|
  {
    if ds == [] then 0
    else (if FallsOn(kind, start, ds[0]) then 1 else 0) + CountFallsOn(kind, start, ds[1..])
  }

  /** The number of dates in `[lo, hi]` on which the expense falls. */
  function OccurrencesIn(kind: RecurrenceType, start: Date, lo: Date, hi: Date): nat
    requires ValidDate(start) && ValidDate(lo) && ValidDate(hi)
  {
    CountFallsOn(kind, start, DatesFrom(lo, hi))
  }

  lemma {:induction false} CountFallsOnAppend(kind: RecurrenceType, start: Date, xs: seq<Date>, ys: seq<Date>)
    requires ValidDate(start)
    requires forall i :: 0 <= i < |xs| ==> ValidDate(xs[i])
    requires forall i :: 0 <= i < |ys| ==> ValidDate(ys[i])
    ensures CountFallsOn(kind, start, xs + ys) == CountFallsOn(kind, start, xs) + CountFallsOn(kind, start, ys)
  {
    if xs != [] {
      assert (xs + ys)[0] == xs[0];
      assert (xs + ys)[1..] == xs[1..] + ys;
      CountFallsOnAppend(kind, start, xs[1..], ys);
    } else {
      assert xs + ys == ys;
    }
  }

  /** Splitting a range after `mid` splits its dates. */
  lemma DatesFromSplit(lo: Date, mid: Date, hi: Date)
    requires ValidDate(lo) && ValidDate(mid) && ValidDate(hi)
    requires NotAfter(lo, mid) && Before(mid, hi)
    ensures mid != LastDate
    ensures DatesFrom(lo, hi) == DatesFrom(lo, mid) + DatesFrom(NextDay(mid), hi)
  {
    var next := NextDay(mid);
    var all, left, right := DatesFrom(lo, hi), DatesFrom(lo, mid), DatesFrom(next, hi);
    OrdinalOrder(lo, mid);
    OrdinalOrder(mid, hi);
    OrdinalOrder(lo, hi);
    OrdinalOrder(hi, next);
    assert |all| == |left| + |right|;
    forall i | 0 <= i < |all|
      ensures all[i] == (left + right)[i]
    {
      if i < |left| {
        assert (left + right)[i] == left[i];
      } else {
        assert (left + right)[i] == right[i - |left|];
      }
      OrdinalOrder(all[i], (left + right)[i]);
    }
  }

  /** The dates of `[lo, hi]` are `lo` followed by the dates of the rest. */
  lemma OccurrencesInUnfold(kind: RecurrenceType, start: Date, lo: Date, hi: Date)
    requires ValidDate(start) && ValidDate(lo) && ValidDate(hi) && Before(lo, hi)
    ensures lo != LastDate
    ensures OccurrencesIn(kind, start, lo, hi) ==
            (if FallsOn(kind, start, lo) then 1 else 0) + OccurrencesIn(kind, start, NextDay(lo), hi)
  {
    DatesFromUnfold(lo, hi);
    var rest := DatesFrom(NextDay(lo), hi);
    assert ([lo] + rest)[0] == lo;
    assert ([lo] + rest)[1..] == rest;
  }

  /** When exactly one date `x` of a range can pass the test, the range holds
      one occurrence if `x` is a real date inside it and none otherwise. */
  lemma {:induction false} CountSingleDate(kind: RecurrenceType, start: Date, lo: Date, hi: Date, x: Date)
    requires ValidDate(start) && ValidDate(lo) && ValidDate(hi)
    requires forall d :: ValidDate(d) && NotAfter(lo, d) && NotAfter(d, hi) ==> (FallsOn(kind, start, d) <==> d == x)
    ensures OccurrencesIn(kind, start, lo, hi) == if ValidDate(x) && NotAfter(lo, x) && NotAfter(x, hi) then 1 else 0
    decreases Ordinal(hi) - Ordinal(lo)
  {
    OrdinalOrder(lo, hi);
    if Before(hi, lo) {
    } else if lo == hi {
      assert DatesFrom(lo, hi) == [lo];
    } else {
      var next := NextDay(lo);
      forall d | ValidDate(d) && NotAfter(next, d)
        ensures Before(lo, d)
      {
        NextDayOrder(lo, d);
      }
      CountSingleDate(kind, start, next, hi, x);
      CountSingleDateStep(kind, start, lo, hi, x);
    }
  }

  /** The step of `CountSingleDate`: the count over `[lo, hi]` adds the test
      on `lo` to the count over the rest. */
  lemma CountSingleDateStep(kind: RecurrenceType, start: Date, lo: Date, hi: Date, x: Date)
    requires ValidDate(start) && ValidDate(lo) && ValidDate(hi) && Before(lo, hi)
    requires FallsOn(kind, start, lo) <==> lo == x
    requires lo != LastDate
    requires OccurrencesIn(kind, start, NextDay(lo), hi) ==
             if ValidDate(x) && NotAfter(NextDay(lo), x) && NotAfter(x, hi) then 1 else 0
    ensures OccurrencesIn(kind, start, lo, hi) == if ValidDate(x) && NotAfter(lo, x) && NotAfter(x, hi) then 1 else 0
  {
    OccurrencesInUnfold(kind, start, lo, hi);
    if ValidDate(x) {
      NextDayOrder(lo, x);
    }
  }

  /** A date is on or after the day after `lo` exactly when it is after `lo`. */
  lemma NextDayOrder(lo: Date, d: Date)
    requires ValidDate(lo) && ValidDate(d) && lo != LastDate
    ensures NotAfter(NextDay(lo), d) <==> Before(lo, d)
  {
    OrdinalOrder(NextDay(lo), d);
    OrdinalOrder(lo, d);
  }

  lemma {:induction false} CountFallsOnDaily(start: Date, ds: seq<Date>)
    requires ValidDate(start) && forall i :: 0 <= i < |ds| ==> ValidDate(ds[i])
    ensures CountFallsOn(Daily, start, ds) == |ds|
  {
    if ds != [] {
      CountFallsOnDaily(start, ds[1..]);
    }
  }

  // ---------------------------------------------------------------------
  // Per-type counts, as the endpoints compute them

  /** ONCE: the expense is added when the activity's start is the overlap's start. */
  function OnceCount(start: Date, overlapStart: Date): (n: int)
    ensures 0 <= n <= 1
  {
    if start == overlapStart then 1 else 0
  }

  /** DAILY: `(overlap_end - overlap_start).days + 1`. */
  function DailyCount(lo: Date, hi: Date): (n: int)
    requires ValidDate(lo) && ValidDate(hi)
    ensures NotAfter(lo, hi) ==> n >= 1
  {
    OrdinalOrder(hi, lo);
    DaysBetween(lo, hi) + 1
  }

  /** WEEKLY: one more than the number of days from the overlap's first day to
      the first day that has the start date's weekday. */
  function WeeklyGap(startWeekday: int, overlapWeekday: int): (gap: int)
    requires 0 <= startWeekday <= 6 && 0 <= overlapWeekday <= 6
    ensures 1 <= gap <= 7
    ensures (overlapWeekday + gap - 1) % 7 == startWeekday
  {
    if startWeekday >= overlapWeekday then startWeekday - overlapWeekday + 1
    else startWeekday - overlapWeekday + 8
  }

  /** WEEKLY: `(time_delta - gap) // 7 + 1`. Python's `//` rounds toward minus
      infinity, as Dafny's `/` does for a positive divisor. */
  function WeeklyCount(start: Date, lo: Date, hi: Date): (n: int)
    requires ValidDate(start) && ValidDate(lo) && ValidDate(hi)
    ensures NotAfter(lo, hi) ==> n >= 0
    ensures Before(hi, lo) ==> n <= 0
  {
    OrdinalOrder(hi, lo);
    var timeDelta := DaysBetween(lo, hi) + 1;
    var gap := WeeklyGap(Weekday(start), Weekday(lo));
    (timeDelta - gap) / 7 + 1
  }

  /** MONTHLY in a year query: the months from the overlap's first to its
      last, the last one only when the start's day-of-month has been reached. */
  function MonthlyCountInYear(start: Date, lo: Date, hi: Date): (n: int)
    ensures lo.year == hi.year && NotAfter(lo, hi) && 1 <= lo.month && hi.month <= 12 ==> 0 <= n <= 12
  {
    if start.day <= hi.day then hi.month - lo.month + 1 else hi.month - lo.month
  }

  /** MONTHLY in a month query. */
  function MonthlyCountInMonth(start: Date, hi: Date): (n: int)
    ensures 0 <= n <= 1
  {
    if start.day <= hi.day then 1 else 0
  }

  /** YEARLY in a year query: the start's month and day have been reached. */
  function YearlyCountInYear(start: Date, hi: Date): (n: int)
    ensures 0 <= n <= 1
  {
    if start.month > hi.month then 0
    else if start.month < hi.month then 1
    else if start.day <= hi.day then 1
    else 0
  }

  /** YEARLY in a month query for `month`. */
  function YearlyCountInMonth(start: Date, month: int, hi: Date): (n: int)
    ensures 0 <= n <= 1
  {
    if start.month == month && start.day <= hi.day then 1 else 0
  }

  /** The occurrences a year query charges for `a`. */
  function YearOccurrences(a: Activity, w: Window): (n: int)
    requires ValidActivity(a) && ValidWindow(w)
    ensures a.recurrenceType in {Once, Yearly, Unrecognised} ==> 0 <= n <= 1
  {
    var o := Overlap(a, w);
    match a.recurrenceType
    case Once => OnceCount(a.startDate, o.start)
    case Daily => DailyCount(o.start, o.end)
    case Weekly => WeeklyCount(a.startDate, o.start, o.end)
    case Monthly => MonthlyCountInYear(a.startDate, o.start, o.end)
    case Yearly => YearlyCountInYear(a.startDate, o.end)
    case Unrecognised => 0
  }

  /** The occurrences a month query charges for `a`; the queried month is the window's. */
  function MonthOccurrences(a: Activity, w: Window): (n: int)
    requires ValidActivity(a) && ValidWindow(w)
    ensures a.recurrenceType !in {Daily, Weekly} ==> 0 <= n <= 1
  {
    var o := Overlap(a, w);
    match a.recurrenceType
    case Once => OnceCount(a.startDate, o.start)
    case Daily => DailyCount(o.start, o.end)
    case Weekly => WeeklyCount(a.startDate, o.start, o.end)
    case Monthly => MonthlyCountInMonth(a.startDate, o.end)
    case Yearly => YearlyCountInMonth(a.startDate, w.start.month, o.end)
    case Unrecognised => 0
  }

  // ---------------------------------------------------------------------
  // Each count against the reference

  /** ONCE counts the start date when it lies in `[lo, hi]`: that is, exactly
      when the activity starts no earlier than the window. */
  lemma OnceCountIsOccurrences(start: Date, windowStart: Date, hi: Date)
    requires ValidDate(start) && ValidDate(windowStart) && ValidDate(hi) && NotAfter(start, hi)
    ensures var lo := MaxDate(start, windowStart);
      OnceCount(start, lo) == OccurrencesIn(Once, start, lo, hi)
    ensures OnceCount(start, MaxDate(start, windowStart)) == 1 <==> NotAfter(windowStart, start)
  {
    var lo := MaxDate(start, windowStart);
    CountSingleDate(Once, start, lo, hi, start);
  }

  /** DAILY counts every day of the overlap, and there is at least one. */
  lemma DailyCountIsOccurrences(start: Date, lo: Date, hi: Date)
    requires ValidDate(start) && ValidDate(lo) && ValidDate(hi) && NotAfter(lo, hi)
    ensures DailyCount(lo, hi) == OccurrencesIn(Daily, start, lo, hi) == |DatesFrom(lo, hi)|
    ensures DailyCount(lo, hi) >= 1
  {
    CountFallsOnDaily(start, DatesFrom(lo, hi));
  }

  /** Moving the overlap's first day forward by one shifts the gap by one. */
  lemma WeeklyGapStep(startWeekday: int, overlapWeekday: int)
    requires 0 <= startWeekday <= 6 && 0 <= overlapWeekday <= 6
    ensures WeeklyGap(startWeekday, (overlapWeekday + 1) % 7) ==
            if WeeklyGap(startWeekday, overlapWeekday) == 1 then 7 else WeeklyGap(startWeekday, overlapWeekday) - 1
  {
  }

  /** WEEKLY counts the days of the overlap that share the start date's
      weekday; in particular the count is never negative. */
  lemma {:induction false} WeeklyCountIsOccurrences(start: Date, lo: Date, hi: Date)
    requires ValidDate(start) && ValidDate(lo) && ValidDate(hi) && NotAfter(lo, hi)
    ensures WeeklyCount(start, lo, hi) == OccurrencesIn(Weekly, start, lo, hi)
    ensures WeeklyCount(start, lo, hi) >= 0
    decreases Ordinal(hi) - Ordinal(lo)
  {
    if lo == hi {
      assert DatesFrom(lo, hi) == [lo];
      WeeklyCountOneDay(start, lo);
    } else {
      OrdinalOrder(lo, hi);
      OccurrencesInUnfold(Weekly, start, lo, hi);
      var next := NextDay(lo);
      OrdinalOrder(next, hi);
      WeeklyCountIsOccurrences(start, next, hi);
      WeeklyCountStep(start, lo, hi);
    }
  }

  /** On a one-day overlap the weekly count is whether the weekdays agree. */
  lemma WeeklyCountOneDay(start: Date, d: Date)
    requires ValidDate(start) && ValidDate(d)
    ensures WeeklyCount(start, d, d) == if Weekday(start) == Weekday(d) then 1 else 0
  {
    var gap := WeeklyGap(Weekday(start), Weekday(d));
    assert gap == 1 <==> Weekday(start) == Weekday(d);
  }

  /** The weekday of the next day is one further round the week. */
  lemma WeekdayNextDay(d: Date)
    requires ValidDate(d) && d != LastDate
    ensures Weekday(NextDay(d)) == (Weekday(d) + 1) % 7
  {
    SuccessorModSeven(Ordinal(d) + 6);
  }

  lemma SuccessorModSeven(n: int)
    ensures (n + 1) % 7 == (n % 7 + 1) % 7
  {
    var q, r := n / 7, n % 7;
    assert n + 1 == 7 * q + (r + 1);
    if r == 6 {
      assert n + 1 == 7 * (q + 1);
    }
  }

  /** The weekly formula's step, as arithmetic on the day count and the gap. */
  lemma WeeklyFormulaStep(timeDelta: int, gap: int, nextGap: int)
    requires 1 <= gap <= 7
    requires nextGap == if gap == 1 then 7 else gap - 1
    ensures (timeDelta - gap) / 7 + 1 == (if gap == 1 then 1 else 0) + ((timeDelta - 1) - nextGap) / 7 + 1
  {
  }

  /** Dropping the overlap's first day drops one occurrence exactly when that
      day has the start date's weekday. */
  lemma WeeklyCountStep(start: Date, lo: Date, hi: Date)
    requires ValidDate(start) && ValidDate(lo) && ValidDate(hi) && Before(lo, hi)
    ensures lo != LastDate
    ensures WeeklyCount(start, lo, hi) ==
            (if Weekday(start) == Weekday(lo) then 1 else 0) + WeeklyCount(start, NextDay(lo), hi)
  {
    var next := NextDay(lo);
    var ws, wl := Weekday(start), Weekday(lo);
    WeekdayNextDay(lo);
    WeeklyGapStep(ws, wl);
    var gap := WeeklyGap(ws, wl);
    assert gap == 1 <==> ws == wl;
    WeeklyFormulaStep(DaysBetween(lo, hi) + 1, gap, WeeklyGap(ws, Weekday(next)));
  }

  /** MONTHLY in a month: the start's day-of-month is reached in the overlap
      exactly when it is at most the overlap's last day. */
  lemma MonthlyCountInMonthIsOccurrences(start: Date, lo: Date, hi: Date)
    requires ValidDate(start) && ValidDate(lo) && ValidDate(hi) && NotAfter(lo, hi)
    requires lo.year == hi.year && lo.month == hi.month && lo.day <= start.day
    ensures MonthlyCountInMonth(start, hi) == OccurrencesIn(Monthly, start, lo, hi)
  {
    CountSingleDate(Monthly, start, lo, hi, Date(lo.year, lo.month, start.day));
  }

  /** YEARLY in a month: the anniversary falls in the overlap exactly when it
      is in the queried month and not after the overlap's last day. */
  lemma YearlyCountInMonthIsOccurrences(start: Date, lo: Date, hi: Date)
    requires ValidDate(start) && ValidDate(lo) && ValidDate(hi) && NotAfter(lo, hi)
    requires lo.year == hi.year && lo.month == hi.month && lo.day <= start.day
    ensures YearlyCountInMonth(start, lo.month, hi) == OccurrencesIn(Yearly, start, lo, hi)
  {
    CountSingleDate(Yearly, start, lo, hi, Date(lo.year, start.month, start.day));
  }

  /** YEARLY in a year: when the anniversary is a real date of the overlap's
      year and not before the overlap, the count is whether it has been reached. */
  lemma YearlyCountInYearIsOccurrences(start: Date, lo: Date, hi: Date)
    requires ValidDate(start) && ValidDate(lo) && ValidDate(hi) && NotAfter(lo, hi) && lo.year == hi.year
    requires ValidDate(Date(lo.year, start.month, start.day)) && NotAfter(lo, Date(lo.year, start.month, start.day))
    ensures YearlyCountInYear(start, hi) == OccurrencesIn(Yearly, start, lo, hi)
  {
    CountSingleDate(Yearly, start, lo, hi, Date(lo.year, start.month, start.day));
  }

  /** A yearly activity anchored on 29 February is charged once in a whole
      common year, although no date of that year passes the day test. */
  lemma YearlyLeapDayInCommonYear()
    ensures YearlyCountInYear(Date(2020, 2, 29), Date(2023, 12, 31)) == 1
    ensures OccurrencesIn(Yearly, Date(2020, 2, 29), Date(2023, 1, 1), Date(2023, 12, 31)) == 0
  {
    var start, lo, hi, x := Date(2020, 2, 29), Date(2023, 1, 1), Date(2023, 12, 31), Date(2023, 2, 29);
    assert !IsLeap(2023) && !ValidDate(x);
    forall d | ValidDate(d) && NotAfter(lo, d) && NotAfter(d, hi)
      ensures FallsOn(Yearly, start, d) <==> d == x
    {
      assert d.year == 2023;
    }
    CountSingleDate(Yearly, start, lo, hi, x);
  }

  /** MONTHLY in a year: when the start's day-of-month exists in every month
      the overlap touches before its last (the last month is decided by the
      formula's own test), the count is the number of overlap dates carrying
      that day-of-month. */
  lemma {:induction false} MonthlyCountInYearIsOccurrences(start: Date, lo: Date, hi: Date)
    requires ValidDate(start) && ValidDate(lo) && ValidDate(hi) && NotAfter(lo, hi)
    requires lo.year == hi.year && lo.day <= start.day
    requires forall m :: lo.month <= m < hi.month ==> start.day <= DaysInMonth(lo.year, m)
    ensures MonthlyCountInYear(start, lo, hi) == OccurrencesIn(Monthly, start, lo, hi)
    decreases hi.month - lo.month
  {
    if lo.month == hi.month {
      MonthlyCountInMonthIsOccurrences(start, lo, hi);
    } else {
      var monthEnd := Date(lo.year, lo.month, DaysInMonth(lo.year, lo.month));
      DatesFromSplit(lo, monthEnd, hi);
      var next := NextDay(monthEnd);
      assert next == Date(lo.year, lo.month + 1, 1);
      CountFallsOnAppend(Monthly, start, DatesFrom(lo, monthEnd), DatesFrom(next, hi));
      MonthlyCountInMonthIsOccurrences(start, lo, monthEnd);
      MonthlyCountInYearIsOccurrences(start, next, hi);
    }
  }

  // ---------------------------------------------------------------------
  // Whole queries against the reference

  /** In a month query, for an activity that does not end before it starts,
      every recurrence type is charged exactly once per overlap date (end
      date included) that passes the day query's per-type test `FallsOn`. */
  lemma MonthOccurrencesAreOccurrences(a: Activity, w: Window)
    requires ValidActivity(a) && OrderedDates(a) && MonthShaped(w) && ActiveDuring(a, w)
    ensures var o := Overlap(a, w);
      MonthOccurrences(a, w) == OccurrencesIn(a.recurrenceType, a.startDate, o.start, o.end)
  {
    var o := Overlap(a, w);
    OverlapBounds(a, w);
    OverlapNonEmpty(a, w);
    match a.recurrenceType
    case Once => OnceCountIsOccurrences(a.startDate, w.start, o.end);
    case Daily => DailyCountIsOccurrences(a.startDate, o.start, o.end);
    case Weekly => WeeklyCountIsOccurrences(a.startDate, o.start, o.end);
    case Monthly => MonthlyCountInMonthIsOccurrences(a.startDate, o.start, o.end);
    case Yearly => YearlyCountInMonthIsOccurrences(a.startDate, o.start, o.end);
    case Unrecognised => CountSingleDate(Unrecognised, a.startDate, o.start, o.end, Date(0, 1, 1));
  }

  /** A year query's monthly or yearly due dates all exist: the start's
      day-of-month exists in every month the overlap touches before its last,
      or the anniversary is a real date of the window's year. */
  predicate DueDatesExist(a: Activity, w: Window)
    requires ValidActivity(a) && ValidWindow(w)
  {
    var o := Overlap(a, w);
    && (a.recurrenceType == Monthly ==>
          forall m :: o.start.month <= m < o.end.month ==> a.startDate.day <= DaysInMonth(w.end.year, m))
    && (a.recurrenceType == Yearly ==> ValidDate(Date(w.end.year, a.startDate.month, a.startDate.day)))
  }

  /** In a year query, for an activity that does not end before it starts,
      every recurrence type is charged exactly once per overlap date (end
      date included) that passes the day query's per-type test `FallsOn`,
      provided the monthly or yearly due dates exist. */
  lemma YearOccurrencesAreOccurrences(a: Activity, w: Window)
    requires ValidActivity(a) && OrderedDates(a) && YearShaped(w) && ActiveDuring(a, w)
    requires DueDatesExist(a, w)
    ensures var o := Overlap(a, w);
      YearOccurrences(a, w) == OccurrencesIn(a.recurrenceType, a.startDate, o.start, o.end)
  {
    var o := Overlap(a, w);
    OverlapBounds(a, w);
    OverlapNonEmpty(a, w);
    match a.recurrenceType
    case Once => OnceCountIsOccurrences(a.startDate, w.start, o.end);
    case Daily => DailyCountIsOccurrences(a.startDate, o.start, o.end);
    case Weekly => WeeklyCountIsOccurrences(a.startDate, o.start, o.end);
    case Monthly => MonthlyCountInYearIsOccurrences(a.startDate, o.start, o.end);
    case Yearly => YearlyCountInYearIsOccurrences(a.startDate, o.start, o.end);
    case Unrecognised => CountSingleDate(Unrecognised, a.startDate, o.start, o.end, Date(0, 1, 1));
  }

  /** The counts a year query charges are never negative. */
  lemma YearOccurrencesNonNegative(a: Activity, w: Window)
    requires ValidActivity(a) && OrderedDates(a) && YearShaped(w) && ActiveDuring(a, w)
    ensures YearOccurrences(a, w) >= 0
  {
    var o := Overlap(a, w);
    OverlapBounds(a, w);
    OverlapNonEmpty(a, w);
    match a.recurrenceType
    case Daily => DailyCountIsOccurrences(a.startDate, o.start, o.end);
    case Weekly => WeeklyCountIsOccurrences(a.startDate, o.start, o.end);
    case _ =>
  }

  /** The counts a month query charges are never negative. */
  lemma MonthOccurrencesNonNegative(a: Activity, w: Window)
    requires ValidActivity(a) && OrderedDates(a) && MonthShaped(w) && ActiveDuring(a, w)
    ensures MonthOccurrences(a, w) >= 0
  {
    MonthOccurrencesAreOccurrences(a, w);
  }

  // ---------------------------------------------------------------------
  // Inputs on which the formulas and the reference part

  /** The year query's monthly formula counts a day-31 activity in all twelve
      months of 2023, February included, though 31 February does not exist. */
  lemma MonthlyDay31CountedInEveryMonth()
    ensures MonthlyCountInYear(Date(2023, 1, 31), Date(2023, 1, 31), Date(2023, 12, 31)) == 12
    ensures !ValidDate(Date(2023, 2, 31)) && !ValidDate(Date(2023, 4, 31))
  {
  }

  /** A daily row that ends before it starts passes the year pre-filter and
      is charged a negative number of times. */
  lemma UnorderedDailyRowCountsNegative()
    ensures var a := Activity(0, 0, 100, Date(2023, 3, 5), Some(Date(2023, 3, 3)), Daily);
      var w := Window(Date(2023, 1, 1), Date(2023, 12, 31));
      && ActiveDuring(a, w) && !OrderedDates(a)
      && YearOccurrences(a, w) == -1
  {
  }

  /** A one-off row that ends before it starts passes the month pre-filter
      and is charged once, though its overlap holds no date. */
  lemma UnorderedOnceRowCharged()
    ensures var a := Activity(0, 0, 100, Date(2023, 3, 5), Some(Date(2023, 3, 3)), Once);
      var w := Window(Date(2023, 3, 1), Date(2023, 3, 31));
      var o := Overlap(a, w);
      && ActiveDuring(a, w) && !OrderedDates(a)
      && MonthOccurrences(a, w) == 1
      && OccurrencesIn(Once, a.startDate, o.start, o.end) == 0
  {
  }
}
