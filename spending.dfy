/**
 * The three spending endpoints of the activity router: total spend of an
 * account (optionally of one category) in a year, a month or a day.
 *
 * The database is a sequence `db` of activity rows; each endpoint's SELECT
 * is the filter of `db` by the endpoint's WHERE clause. The clock is the
 * parameter `today`.
 */
module Spending {
  import opened Calendar
  import opened Wrappers
  import opened Models
  import opened Occurrences

  // ---------------------------------------------------------------------
  // The SELECT statements

  /** The account and optional category conditions every query applies. */
  predicate OfAccount(a: Activity, accountId: int, category: Option<int>) {
    a.accountId == accountId && (category.None? || a.category == category.value)
  }

  /** The WHERE clause of the year and month queries; the end date is inclusive. */
  predicate PeriodFilter(a: Activity, accountId: int, category: Option<int>, w: Window) {
    OfAccount(a, accountId, category) && ActiveDuring(a, w)
  }

  /** The WHERE clause of the day query; here the end date is exclusive. */
  predicate DayFilter(a: Activity, accountId: int, category: Option<int>, d: Date) {
    && OfAccount(a, accountId, category)
    && NotAfter(a.startDate, d)
    && (a.endDate.None? || Before(d, a.endDate.value))
  }

  /** The rows of `db` the year or month query returns, in table order. */
  function SelectForPeriod(db: seq<Activity>, accountId: int, category: Option<int>, w: Window): (r: seq<Activity>)
    ensures forall a :: a in r <==> a in db && PeriodFilter(a, accountId, category, w)
  {
    if db == [] then []
    else
      var rest := SelectForPeriod(db[1..], accountId, category, w);
      if PeriodFilter(db[0], accountId, category, w) then [db[0]] + rest else rest
  }

  /** The rows of `db` the day query returns, in table order. */
  function SelectForDay(db: seq<Activity>, accountId: int, category: Option<int>, d: Date): (r: seq<Activity>)
    ensures forall a :: a in r <==> a in db && DayFilter(a, accountId, category, d)
  {
    if db == [] then []
    else
      var rest := SelectForDay(db[1..], accountId, category, d);
      if DayFilter(db[0], accountId, category, d) then [db[0]] + rest else rest
  }

  /** The year or month selection keeps every copy of each row that passes
      the filter, and no copy of any other. */
  lemma {:induction false} SelectForPeriodMultiplicity(db: seq<Activity>, accountId: int, category: Option<int>, w: Window)
    ensures forall x :: multiset(SelectForPeriod(db, accountId, category, w))[x] ==
                        if PeriodFilter(x, accountId, category, w) then multiset(db)[x] else 0
  {
    if db != [] {
      SelectForPeriodMultiplicity(db[1..], accountId, category, w);
      assert db == [db[0]] + db[1..];
    }
  }

  /** The day selection keeps every copy of each row that passes the filter,
      and no copy of any other. */
  lemma {:induction false} SelectForDayMultiplicity(db: seq<Activity>, accountId: int, category: Option<int>, d: Date)
    ensures forall x :: multiset(SelectForDay(db, accountId, category, d))[x] ==
                        if DayFilter(x, accountId, category, d) then multiset(db)[x] else 0
  {
    if db != [] {
      SelectForDayMultiplicity(db[1..], accountId, category, d);
      assert db == [db[0]] + db[1..];
    }
  }

  // ---------------------------------------------------------------------
  // Totals

  /** What a query is over. */
  datatype Period = YearPeriod(w: Window) | MonthPeriod(w: Window) | DayPeriod(d: Date)

  predicate ValidPeriod(p: Period) {
    match p
    case YearPeriod(w) => ValidWindow(w)
    case MonthPeriod(w) => ValidWindow(w)
    case DayPeriod(d) => ValidDate(d)
  }

  /** What one activity adds to a query's total: its expense times its occurrences. */
  function Contribution(a: Activity, p: Period): (r: int)
    requires ValidActivity(a) && ValidPeriod(p)
    ensures p.DayPeriod? ==> r == 0 || r == a.expense
    ensures p.DayPeriod? && a.recurrenceType == Daily ==> r == a.expense
  {
    match p
    case YearPeriod(w) => YearOccurrences(a, w) * a.expense
    case MonthPeriod(w) => MonthOccurrences(a, w) * a.expense
    case DayPeriod(d) => if FallsOn(a.recurrenceType, a.startDate, d) then a.expense else 0
  }

  /** The sum of the contributions of `acts`, added in order. */
  function Total(acts: seq<Activity>, p: Period): int
    requires ValidPeriod(p) && forall a | a in acts :: ValidActivity(a)
  {
    if acts == [] then 0
    else Total(acts[..|acts| - 1], p) + Contribution(acts[|acts| - 1], p)
  }

  /** Extending the prefix by one activity adds that activity's contribution. */
  lemma TotalStep(acts: seq<Activity>, i: nat, p: Period)
    requires ValidPeriod(p) && forall a | a in acts :: ValidActivity(a)
    requires i < |acts|
    ensures acts[i] in acts
    ensures Total(acts[..i + 1], p) == Total(acts[..i], p) + Contribution(acts[i], p)
  {
    assert acts[..i + 1][..i] == acts[..i];
  }

  // ---------------------------------------------------------------------
  // The endpoints

  /** The body of `get_spending_in_year`'s loop: what one activity adds to
      the year's total. */
  method YearCharge(activity: Activity, yearStartDate: Date, yearEndDate: Date) returns (charge: int)
    requires ValidActivity(activity) && ValidWindow(Window(yearStartDate, yearEndDate))
    ensures charge == Contribution(activity, YearPeriod(Window(yearStartDate, yearEndDate)))
  {
    var startDate := activity.startDate;
    var endDate := activity.endDate.GetOr(yearEndDate);
    var overlapStart := MaxDate(startDate, yearStartDate);
    var overlapEnd := MinDate(yearEndDate, endDate);
    assert Overlap(activity, Window(yearStartDate, yearEndDate)) == Window(overlapStart, overlapEnd);

    charge := 0;
    if activity.recurrenceType == Once {
      if activity.startDate == overlapStart {
        charge := activity.expense;
      }
    } else {
      var occurrence := 0;
      match activity.recurrenceType {
        case Daily =>
          occurrence := DailyCount(overlapStart, overlapEnd);
        case Weekly =>
          occurrence := WeeklyCount(startDate, overlapStart, overlapEnd);
        case Monthly =>
          occurrence := MonthlyCountInYear(activity.startDate, overlapStart, overlapEnd);
        case Yearly =>
          occurrence := YearlyCountInYear(startDate, overlapEnd);
        case _ =>
          occurrence := 0;
      }
      charge := occurrence * activity.expense;
    }
  }

  /** `get_spending_in_year`. */
  method SpendingInYear(db: seq<Activity>, accountId: int, category: Option<int>, year: int, today: Date)
    returns (r: SpendPublic)
    requires MinQueryYear <= year <= MaxQueryYear && ValidDate(today)
    requires forall a | a in db :: ValidActivity(a)
    ensures r.year == year && r.month.None? && r.day.None?
    ensures year > today.year ==> r.totalSpend == 0
    ensures year <= today.year ==>
      var w := YearWindow(year, today).value;
      r.totalSpend == Total(SelectForPeriod(db, accountId, category, w), YearPeriod(w))
  {
    if year > today.year {
      return SpendPublic(year, None, None, 0);
    }
    var yearStartDate := Date(year, 1, 1);
    var yearEndDate := if today.year > year then Date(year, 12, 31) else today;
    var w := Window(yearStartDate, yearEndDate);
    assert w == YearWindow(year, today).value;
    var activities := SelectForPeriod(db, accountId, category, w);

    var totalSpend := 0;
    for i := 0 to |activities|
      invariant totalSpend == Total(activities[..i], YearPeriod(w))
    {
      TotalStep(activities, i, YearPeriod(w));
      var charge := YearCharge(activities[i], yearStartDate, yearEndDate);
      totalSpend := totalSpend + charge;
    }
    assert activities[..|activities|] == activities;
    return SpendPublic(year, None, None, totalSpend);
  }

  /** The body of the month route's loop: what one activity adds to the
      month's total. */
  method MonthCharge(activity: Activity, month: int, startOfMonth: Date, endOfMonth: Date) returns (charge: int)
    requires ValidActivity(activity) && ValidWindow(Window(startOfMonth, endOfMonth))
    requires startOfMonth.month == month
    ensures charge == Contribution(activity, MonthPeriod(Window(startOfMonth, endOfMonth)))
  {
    var activityStart := activity.startDate;
    var activityEnd := activity.endDate.GetOr(endOfMonth);
    var overlappedStart := MaxDate(activityStart, startOfMonth);
    var overlappedEnd := MinDate(activityEnd, endOfMonth);
    assert Overlap(activity, Window(startOfMonth, endOfMonth)) == Window(overlappedStart, overlappedEnd);

    charge := 0;
    if activity.recurrenceType == Once {
      if overlappedStart == activityStart {
        charge := activity.expense;
      }
    } else {
      var occurrence := 0;
      match activity.recurrenceType {
        case Daily =>
          occurrence := DailyCount(overlappedStart, overlappedEnd);
        case Weekly =>
          occurrence := WeeklyCount(activityStart, overlappedStart, overlappedEnd);
        case Monthly =>
          occurrence := MonthlyCountInMonth(activityStart, overlappedEnd);
        case Yearly =>
          occurrence := YearlyCountInMonth(activityStart, month, overlappedEnd);
        case _ =>
          occurrence := 0;
      }
      charge := occurrence * activity.expense;
    }
  }

  /** `get_spending_in_date` at the month route. */
  method SpendingInMonth(db: seq<Activity>, accountId: int, category: Option<int>, year: int, month: int, today: Date)
    returns (r: SpendPublic)
    requires MinQueryYear <= year <= MaxQueryYear && 1 <= month <= 12 && ValidDate(today)
    requires forall a | a in db :: ValidActivity(a)
    ensures r.year == year && r.month == Some(month) && r.day.None?
    ensures Before(today, Date(year, month, 1)) ==> r.totalSpend == 0
    ensures NotAfter(Date(year, month, 1), today) ==>
      var w := MonthWindow(year, month, today).value;
      r.totalSpend == Total(SelectForPeriod(db, accountId, category, w), MonthPeriod(w))
  {
    var startOfMonth := Date(year, month, 1);
    if Before(today, startOfMonth) {
      return SpendPublic(year, Some(month), None, 0);
    }
    var endOfMonth := Date(year, month, DaysInMonth(year, month));
    endOfMonth := if NotAfter(endOfMonth, today) then endOfMonth else today;
    var w := Window(startOfMonth, endOfMonth);
    assert w == MonthWindow(year, month, today).value;
    var activities := SelectForPeriod(db, accountId, category, w);

    var totalSpending := 0;
    for i := 0 to |activities|
      invariant totalSpending == Total(activities[..i], MonthPeriod(w))
    {
      TotalStep(activities, i, MonthPeriod(w));
      var charge := MonthCharge(activities[i], month, startOfMonth, endOfMonth);
      totalSpending := totalSpending + charge;
    }
    assert activities[..|activities|] == activities;
    return SpendPublic(year, Some(month), None, totalSpending);
  }

  /** `get_spending_in_date` at the day route; an impossible date is refused
      with status 403. */
  method SpendingOnDay(db: seq<Activity>, accountId: int, category: Option<int>,
                       year: int, month: int, day: int, today: Date)
    returns (r: Result<SpendPublic, HttpError>)
    requires MinQueryYear <= year <= MaxQueryYear && 1 <= month <= 12 && ValidDate(today)
    requires forall a | a in db :: ValidActivity(a)
    ensures r.Err? <==> !ValidDate(Date(year, month, day))
    ensures r.Err? ==> r.error == HttpError(403, "Forbidden")
    ensures r.Ok? ==> r.value.year == year && r.value.month == Some(month) && r.value.day == Some(day)
    ensures r.Ok? && Before(today, Date(year, month, day)) ==> r.value.totalSpend == 0
    ensures r.Ok? && NotAfter(Date(year, month, day), today) ==>
      var d := Date(year, month, day);
      r.value.totalSpend == Total(SelectForDay(db, accountId, category, d), DayPeriod(d))
  {
    if !(1 <= day <= DaysInMonth(year, month)) {
      return Err(HttpError(403, "Forbidden"));
    }
    var mydate := Date(year, month, day);
    if Before(today, mydate) {
      return Ok(SpendPublic(year, Some(month), Some(day), 0));
    }
    var activities := SelectForDay(db, accountId, category, mydate);

    var totalSpend := 0;
    for i := 0 to |activities|
      invariant totalSpend == Total(activities[..i], DayPeriod(mydate))
    {
      var activity := activities[i];
      TotalStep(activities, i, DayPeriod(mydate));
      match activity.recurrenceType {
        case Once =>
          if mydate == activity.startDate {
            totalSpend := totalSpend + activity.expense;
          }
        case Daily =>
          totalSpend := totalSpend + activity.expense;
        case Weekly =>
          if Weekday(activity.startDate) == Weekday(mydate) {
            totalSpend := totalSpend + activity.expense;
          }
        case Monthly =>
          if activity.startDate.day == mydate.day {
            totalSpend := totalSpend + activity.expense;
          }
        case Yearly =>
          if activity.startDate.month == mydate.month && activity.startDate.day == mydate.day {
            totalSpend := totalSpend + activity.expense;
          }
        case Unrecognised =>
      }
    }
    assert activities[..|activities|] == activities;
    return Ok(SpendPublic(year, Some(month), Some(day), totalSpend));
  }

  // ---------------------------------------------------------------------
  // Properties of the totals

  /** A period query's total, as the reference: each activity's expense times
      the number of overlap dates (end date included) that pass the day
      query's per-type test `FallsOn`. */
  function OccurrenceTotal(acts: seq<Activity>, w: Window): int
    requires ValidWindow(w) && forall a | a in acts :: ValidActivity(a)
  {
    if acts == [] then 0
    else
      var a := acts[|acts| - 1];
      var o := Overlap(a, w);
      OccurrenceTotal(acts[..|acts| - 1], w) + OccurrencesIn(a.recurrenceType, a.startDate, o.start, o.end) * a.expense
  }

  /** The month total charges every selected activity that does not end
      before it starts once per date of its overlap, end date included, that
      passes the per-type test `FallsOn`. */
  lemma {:induction false} MonthTotalIsOccurrenceTotal(acts: seq<Activity>, w: Window)
    requires MonthShaped(w)
    requires forall a | a in acts :: ValidActivity(a) && OrderedDates(a) && ActiveDuring(a, w)
    ensures Total(acts, MonthPeriod(w)) == OccurrenceTotal(acts, w)
  {
    if acts != [] {
      var last := acts[|acts| - 1];
      MonthOccurrencesAreOccurrences(last, w);
      MonthTotalIsOccurrenceTotal(acts[..|acts| - 1], w);
    }
  }

  /** The year total does the same when the monthly and yearly due dates of
      every selected activity exist in the queried year. */
  lemma {:induction false} YearTotalIsOccurrenceTotal(acts: seq<Activity>, w: Window)
    requires YearShaped(w)
    requires forall a | a in acts :: ValidActivity(a) && OrderedDates(a) && ActiveDuring(a, w) && DueDatesExist(a, w)
    ensures Total(acts, YearPeriod(w)) == OccurrenceTotal(acts, w)
  {
    if acts != [] {
      var last := acts[|acts| - 1];
      YearOccurrencesAreOccurrences(last, w);
      YearTotalIsOccurrenceTotal(acts[..|acts| - 1], w);
    }
  }

  /** The conditions under which no contribution is negative: a day
      contribution is the expense or nothing, while a year or month one also
      needs the activity not to end before it starts. */
  predicate ChargesNonNegative(a: Activity, p: Period) {
    && a.expense >= 0
    && match p
       case YearPeriod(w) => OrderedDates(a) && YearShaped(w) && ActiveDuring(a, w)
       case MonthPeriod(w) => OrderedDates(a) && MonthShaped(w) && ActiveDuring(a, w)
       case DayPeriod(d) => true
  }

  lemma ProductNonNegative(x: int, y: int)
    requires x >= 0 && y >= 0
    ensures x * y >= 0
  {
  }

  /** One activity's contribution is never negative under those conditions. */
  lemma ContributionNonNegative(a: Activity, p: Period)
    requires ValidPeriod(p) && ValidActivity(a) && ChargesNonNegative(a, p)
    ensures Contribution(a, p) >= 0
  {
    match p
    case YearPeriod(w) =>
      YearOccurrencesNonNegative(a, w);
      ProductNonNegative(YearOccurrences(a, w), a.expense);
    case MonthPeriod(w) =>
      MonthOccurrencesNonNegative(a, w);
      ProductNonNegative(MonthOccurrences(a, w), a.expense);
    case DayPeriod(d) =>
  }

  /** With non-negative expenses and end dates not before start dates, a
      query's total is never negative. */
  lemma {:induction false} TotalNonNegative(acts: seq<Activity>, p: Period)
    requires ValidPeriod(p)
    requires forall a | a in acts :: ValidActivity(a)
    requires forall a | a in acts :: ChargesNonNegative(a, p)
    ensures Total(acts, p) >= 0
  {
    if acts != [] {
      var last := acts[|acts| - 1];
      assert last in acts;
      ContributionNonNegative(last, p);
      var init := acts[..|acts| - 1];
      assert forall a | a in init :: a in acts;
      TotalNonNegative(init, p);
    }
  }

  /** The year endpoint's total is never negative. */
  lemma YearSpendingNonNegative(db: seq<Activity>, accountId: int, category: Option<int>, year: int, today: Date)
    requires MinQueryYear <= year <= MaxQueryYear && year <= today.year && ValidDate(today)
    requires forall a | a in db :: ValidActivity(a) && OrderedDates(a) && a.expense >= 0
    ensures var w := YearWindow(year, today).value;
      Total(SelectForPeriod(db, accountId, category, w), YearPeriod(w)) >= 0
  {
    var w := YearWindow(year, today).value;
    TotalNonNegative(SelectForPeriod(db, accountId, category, w), YearPeriod(w));
  }

  /** The month endpoint's total is never negative. */
  lemma MonthSpendingNonNegative(db: seq<Activity>, accountId: int, category: Option<int>, year: int, month: int, today: Date)
    requires MinQueryYear <= year <= MaxQueryYear && 1 <= month <= 12 && ValidDate(today)
    requires NotAfter(Date(year, month, 1), today)
    requires forall a | a in db :: ValidActivity(a) && OrderedDates(a) && a.expense >= 0
    ensures var w := MonthWindow(year, month, today).value;
      Total(SelectForPeriod(db, accountId, category, w), MonthPeriod(w)) >= 0
  {
    var w := MonthWindow(year, month, today).value;
    TotalNonNegative(SelectForPeriod(db, accountId, category, w), MonthPeriod(w));
  }

  /** The day endpoint's total is never negative when no expense is; unlike
      the period queries it needs nothing about the end dates. */
  lemma DaySpendingNonNegative(db: seq<Activity>, accountId: int, category: Option<int>, d: Date)
    requires ValidDate(d)
    requires forall a | a in db :: ValidActivity(a) && a.expense >= 0
    ensures Total(SelectForDay(db, accountId, category, d), DayPeriod(d)) >= 0
  {
    TotalNonNegative(SelectForDay(db, accountId, category, d), DayPeriod(d));
  }

  /** Every row the day query selects ends after it starts. */
  lemma DayFilterOrdersDates(a: Activity, accountId: int, category: Option<int>, d: Date)
    requires DayFilter(a, accountId, category, d)
    ensures a.endDate.Some? ==> Before(a.startDate, a.endDate.value)
  {
  }

  // ---------------------------------------------------------------------
  // The end-date conventions of the two kinds of query

  /** A period query counts an activity on its end date, while the day query
      does not select the activity on that date: a daily row from 1 to 3 March
      is charged 3 times in March and passes the per-type test on 3 March, yet
      the day query for 3 March leaves it out. */
  lemma EndDateConventions()
    ensures var a := Activity(7, 0, 100, Date(2023, 3, 1), Some(Date(2023, 3, 3)), Daily);
      var w := Window(Date(2023, 3, 1), Date(2023, 3, 31));
      && PeriodFilter(a, 7, None, w)
      && MonthOccurrences(a, w) == 3
      && FallsOn(Daily, a.startDate, Date(2023, 3, 3))
      && !DayFilter(a, 7, None, Date(2023, 3, 3))
  {
  }
}
