# Spending calculator — a verified model

This project models the spending endpoints of a personal-finance backend. The
backend stores *activities*: expenses charged once, daily, weekly, monthly or
yearly from a start date until an optional end date. It answers three questions
about one account, optionally restricted to one category:

- how much was spent in a calendar year, counted up to today;
- how much was spent in a month, counted up to today;
- how much was spent on one day.

The model is split into these modules:

- `Calendar`: the proleptic Gregorian calendar as Python's `datetime.date`
  sees it.
  - Dates are triples with years 1..9999, compared field by field.
  - A day's ordinal counts from 0001-01-01.
  - Weekdays run from Monday = 0.
  - Month lengths are those of `calendar.monthrange`.
  - `DatesFrom(lo, hi)` enumerates the days of a range.
- `Models`: the activity record, the recurrence types and the response record.
  An `expense` is an integer number of cents.
- `Occurrences`: the query windows, the overlap of an activity with a window,
  and the closed-form occurrence counts the router computes per recurrence type.
  - The counts are checked against a reference definition. `OccurrencesIn` is
    the number of dates in the overlap, end date included, that pass the day
    query's per-type test (`FallsOn`). The day query itself never selects an
    activity on its end date, so on that date the reference and the day query
    differ (`Spending.EndDateConventions`).
  - For a month window, every count equals the reference for an activity that
    passes the pre-filter (`ActiveDuring`) and does not end before it starts
    (`OrderedDates`).
  - For a year window, every count equals the reference for such an activity
    when the monthly or yearly due dates exist in that year (`DueDatesExist`).
  - The `OrderedDates` hypothesis cannot be dropped: a one-off row ending
    before it starts is charged once against a reference of 0
    (`Occurrences.UnorderedOnceRowCharged`).
- `Spending`: the three endpoints as methods over an in-memory table `db`.
  - Each database `select` is a filter function of `db`. It keeps the table
    order and every copy of each row that passes the filter.
  - Each endpoint's loop keeps `total == Total(selected[..i], period)`. Here
    `Total` sums each activity's `Contribution`, which is its occurrence count
    times its expense.
  - For activities that do not end before they start, the month total is
    proved equal to the reference total; so is the year total when, in
    addition, the due dates exist.
  - The year and month totals are proved non-negative under the same
    `OrderedDates` hypothesis and non-negative expenses. The day total needs
    only non-negative expenses, since each activity adds its expense or
    nothing.

The model follows the router's code as written, including these behaviours:

- The year and month queries treat an activity's `endDate` as inclusive. The
  day query treats it as exclusive, so an activity is not charged on its end
  date by the day query (`DayFilter`).
- Over a whole common year, the year query charges a yearly activity anchored
  on 29 February once, while no day of that year passes the day query's test
  (`Occurrences.YearlyLeapDayInCommonYear`). A current-year window that ends
  before 1 March charges it nothing.
- The year query's monthly count compares the start's day-of-month with
  the last overlap day's day-of-month only. For a start day above 28 it also
  counts months that lack that day (`Occurrences.MonthlyDay31CountedInEveryMonth`).
  The agreement with the reference is therefore proved under `DueDatesExist`,
  which asks for that day in every overlapped month before the last; the last
  month is decided by the formula's own comparison.
- Nothing checks that an activity's `endDate` is not before its `startDate`.
  Such an activity can pass the year and month pre-filters (when it starts by
  the window end and ends on or after the window start), and the daily,
  weekly and monthly formulas can then produce negative counts
  (`Occurrences.UnorderedDailyRowCountsNegative`), so non-negativity is proved
  under `OrderedDates`.
- There is no recurrence interval, no weekday set and no clamping of a
  day-of-month to the month's length. The formulas count every occurrence of
  the plain recurrence.

## Model

| member | source | states |
|---|---|---|
| Calendar.DaysInMonth | backend/app/routers/activity.py:131 | a month has 28 to 31 days; February has 29 exactly in a leap year |
| Calendar.MaxDate | backend/app/routers/activity.py:71 | `max` of two dates is one of them and is not before either |
| Calendar.MinDate | backend/app/routers/activity.py:72 | `min` of two dates is one of them and is not after either |
| Calendar.Ordinal | backend/app/routers/activity.py:81 | every valid date has an ordinal of at least 1 |
| Calendar.OrdinalOrder | backend/app/routers/activity.py:81 | date comparison agrees with ordinal comparison, and distinct dates have distinct ordinals, so `(b - a).days` measures the order |
| Calendar.ValidDate | backend/app/routers/activity.py:196-199 | the triples `date(year, month, day)` accepts: year 1..9999, month 1..12, day within the month's length; the day query answers 403 exactly when this fails (`Spending.SpendingOnDay`), and `Calendar.DaysInMonth` states the month lengths |
| Calendar.Before | backend/app/routers/activity.py:124 | date `<`, by year, then month, then day; `Calendar.OrdinalOrder` states that it agrees with the ordinal order and `Calendar.DatesFromContains` that it bounds the listed days |
| Calendar.NotAfter | backend/app/routers/activity.py:54-57 | date `<=`, the negation of `Before` with the arguments swapped, used by the pre-filters at lines 54, 57, 132, 200 and 210-213; `Calendar.OrdinalOrder` and `Calendar.DatesFromContains` state its properties |
| Calendar.DaysBetween | backend/app/routers/activity.py:81-83 | `(b - a).days`, as in the year query here and the month query at lines 162 and 164, is positive exactly when `a < b` and zero exactly when the dates are equal |
| Calendar.Weekday | backend/app/routers/activity.py:84-85 | `weekday()` lies in 0..6 |
| Calendar.NextDay | backend/app/routers/activity.py:81 | the day after a date is valid and has the next ordinal |
| Calendar.DatesFrom | backend/app/routers/activity.py:81 | the days from `lo` to `hi` number `(hi - lo).days + 1` (none if `hi < lo`), with consecutive ordinals |
| Calendar.DatesFromContains | backend/app/routers/activity.py:81 | a date is listed exactly when `lo <= d <= hi` |
| Occurrences.YearWindow | backend/app/routers/activity.py:39-50 | no window exactly when the year is after today's year; otherwise the window runs from 1 January of that year to an end in that year not after today |
| Occurrences.YearWindowDates | backend/app/routers/activity.py:49-50 | the year window holds exactly the dates of that year up to today |
| Occurrences.MonthWindow | backend/app/routers/activity.py:123-132 | no window exactly when the first of the month is after today; otherwise the window runs from the first of the month to an end in that month not after today |
| Occurrences.MonthWindowDates | backend/app/routers/activity.py:123-132 | the month window holds exactly the dates of that month up to today |
| Occurrences.Overlap | backend/app/routers/activity.py:68-72 | the overlap's bounds are valid dates |
| Occurrences.OverlapDates | backend/app/routers/activity.py:68-72 | the overlap holds exactly the window dates between the activity's start and its end date, if any |
| Occurrences.OverlapBounds | backend/app/routers/activity.py:68-72 | for every activity, the overlap's bounds lie inside the window and inside the activity's active period |
| Occurrences.OverlapNonEmpty | backend/app/routers/activity.py:52-72 | for an activity passing the pre-filter that does not end before it starts, the overlap is non-empty |
| Occurrences.FallsOn | backend/app/routers/activity.py:223-237 | the day query's per-type test; no contract of its own, its properties are stated by `FallsOnStartDate`, and the formulas are compared with it by the `…IsOccurrences` lemmas |
| Occurrences.FallsOnStartDate | backend/app/routers/activity.py:223-237 | every recognised type is due on its start date and an unrecognised type never is; a weekly activity is due exactly on the days a multiple of 7 days from its start |
| Occurrences.OnceCount | backend/app/routers/activity.py:74-76 | a one-off expense is counted 0 or 1 times |
| Occurrences.OnceCountIsOccurrences | backend/app/routers/activity.py:74-76 | the one-off count equals the number of overlap dates equal to the start, and is 1 exactly when the start is not before the window start |
| Occurrences.DailyCount | backend/app/routers/activity.py:81 | on a non-empty overlap the daily count is at least 1; `DailyCountIsOccurrences` ties it to the overlap's days |
| Occurrences.DailyCountIsOccurrences | backend/app/routers/activity.py:80-81 | the daily count is the number of overlap days, and is at least 1 |
| Occurrences.WeeklyGap | backend/app/routers/activity.py:84-86 | the gap is in 1..7, and the overlap start's weekday advanced by gap − 1 days is the start's weekday |
| Occurrences.WeeklyCount | backend/app/routers/activity.py:83-87 | on a non-empty overlap the weekly count is non-negative, on an inverted one it is at most 0; `WeeklyCountIsOccurrences` ties it to the overlap's days |
| Occurrences.WeeklyCountIsOccurrences | backend/app/routers/activity.py:82-87 | the weekly formula equals the number of overlap days sharing the start's weekday, and is non-negative |
| Occurrences.WeeklyCountOneDay | backend/app/routers/activity.py:82-87 | on a one-day range the weekly formula is 1 exactly when the weekdays match |
| Occurrences.MonthlyCountInYear | backend/app/routers/activity.py:88-92 | within one year, the monthly count lies in 0..12 |
| Occurrences.MonthlyCountInYearIsOccurrences | backend/app/routers/activity.py:88-92 | the year query's monthly count equals the number of overlap days with the start's day-of-month, when that day exists in every overlapped month before the last one (the last month is decided by the code's own `start.day <= end.day` test) |
| Occurrences.YearlyCountInYear | backend/app/routers/activity.py:93-101 | the yearly count in a year query is 0 or 1 |
| Occurrences.YearlyCountInYearIsOccurrences | backend/app/routers/activity.py:93-101 | the yearly count equals the number of overlap days on the anniversary, when the anniversary is a real date of that year and is not before the overlap start; a year window's overlap, which starts on 1 January, always meets the second condition. Without it the code counts an anniversary before the overlap: with the overlap starting on 1 June and an anniversary on 1 March the code gives 1 and the reference 0 |
| Occurrences.YearlyLeapDayInCommonYear | backend/app/routers/activity.py:93-101 | a 29 February anchor is counted once in 2023 by the year query, though no day of 2023 is its anniversary |
| Occurrences.MonthlyCountInMonth | backend/app/routers/activity.py:169-170 | the monthly count in a month query is 0 or 1 |
| Occurrences.MonthlyCountInMonthIsOccurrences | backend/app/routers/activity.py:169-170 | the monthly count in a month query equals the number of overlap days with the start's day-of-month |
| Occurrences.YearlyCountInMonth | backend/app/routers/activity.py:171-172 | the yearly count in a month query is 0 or 1 |
| Occurrences.YearlyCountInMonthIsOccurrences | backend/app/routers/activity.py:171-172 | the yearly count in a month query equals the number of overlap days on the anniversary |
| Occurrences.YearOccurrences | backend/app/routers/activity.py:74-103 | the count a year query charges per type; one-off, yearly and unrecognised types are charged 0 or 1 times |
| Occurrences.MonthOccurrences | backend/app/routers/activity.py:155-174 | the count a month query charges per type; every type but daily and weekly is charged 0 or 1 times |
| Occurrences.MonthOccurrencesAreOccurrences | backend/app/routers/activity.py:147-176 | for every recurrence type and an activity that passes the pre-filter and does not end before it starts, the month query charges once per overlap day, end date included, that passes `FallsOn` |
| Occurrences.YearOccurrencesAreOccurrences | backend/app/routers/activity.py:66-105 | for every recurrence type and an activity that passes the pre-filter and does not end before it starts, the year query charges once per overlap day, end date included, that passes `FallsOn`, when the due dates exist |
| Occurrences.YearOccurrencesNonNegative | backend/app/routers/activity.py:74-103 | the year query's count for a pre-filtered activity with ordered dates is never negative |
| Occurrences.MonthOccurrencesNonNegative | backend/app/routers/activity.py:155-174 | the month query's count for a pre-filtered activity with ordered dates is never negative |
| Occurrences.MonthlyDay31CountedInEveryMonth | backend/app/routers/activity.py:88-92 | a day-31 monthly row is counted 12 times over 2023 by the year query, though 31 February and 31 April do not exist |
| Occurrences.UnorderedDailyRowCountsNegative | backend/app/routers/activity.py:52-81 | a daily row ending before it starts passes the year pre-filter and is counted −1 times |
| Occurrences.UnorderedOnceRowCharged | backend/app/routers/activity.py:134-157 | a one-off row ending before it starts passes the month pre-filter and is charged once, though its overlap holds no date |
| Spending.PeriodFilter | backend/app/routers/activity.py:52-62 | the WHERE clause of the year and month queries, end date inclusive; no contract of its own, characterised through `SelectForPeriod` |
| Spending.DayFilter | backend/app/routers/activity.py:208-218 | the WHERE clause of the day query, end date exclusive; no contract of its own, characterised through `SelectForDay` |
| Spending.SelectForPeriod | backend/app/routers/activity.py:52-64 | the selection holds exactly the rows of the account and category that start by the window end and have no end date or end on or after the window start; `SelectForPeriodMultiplicity` gives how many copies it keeps |
| Spending.SelectForPeriodMultiplicity | backend/app/routers/activity.py:52-64 | the year or month selection holds every copy of each row that passes the filter and no copy of any other row |
| Spending.SelectForDay | backend/app/routers/activity.py:208-219 | the selection holds exactly the rows of the account and category that start on or before the day and have no end date or end strictly after it; `SelectForDayMultiplicity` gives how many copies it keeps |
| Spending.SelectForDayMultiplicity | backend/app/routers/activity.py:208-219 | the day selection holds every copy of each row that passes the filter and no copy of any other row |
| Spending.DayFilterOrdersDates | backend/app/routers/activity.py:208-215 | a row the day query selects ends strictly after it starts |
| Spending.Contribution | backend/app/routers/activity.py:74-105 | what one activity adds to a total; on a day query it adds its whole expense or nothing, and a daily activity always adds it |
| Spending.Total | backend/app/routers/activity.py:66-105 | the sum of the contributions of a prefix of the selection, in table order; the loops keep their accumulator equal to it, and `TotalNonNegative` bounds it |
| Spending.OccurrenceTotal | backend/app/routers/activity.py:147-176 | the reference total over the `FallsOn` counts; the totals are tied to it by `MonthTotalIsOccurrenceTotal` and `YearTotalIsOccurrenceTotal` |
| Spending.YearCharge | backend/app/routers/activity.py:67-105 | one loop step of the year query adds the activity's occurrence count times its expense |
| Spending.SpendingInYear | backend/app/routers/activity.py:31-111 | echoes the year; a future year totals 0; otherwise the total is the sum of the charges of the selected activities over the year window |
| Spending.MonthCharge | backend/app/routers/activity.py:148-176 | one loop step of the month query adds the activity's occurrence count times its expense |
| Spending.SpendingInMonth | backend/app/routers/activity.py:115-182 | echoes year and month; a month starting after today totals 0; otherwise the total is the sum of the charges of the selected activities over the month window |
| Spending.SpendingOnDay | backend/app/routers/activity.py:186-243 | fails with 403 "Forbidden" exactly when the date does not exist; a future date totals 0; otherwise each selected activity adds its expense exactly when its recurrence falls on that day |
| Spending.YearTotalIsOccurrenceTotal | backend/app/routers/activity.py:66-105 | for pre-filtered rows that do not end before they start and whose due dates exist, the year total equals the sum of expense times the overlap days, end date included, that pass `FallsOn` |
| Spending.MonthTotalIsOccurrenceTotal | backend/app/routers/activity.py:147-176 | for pre-filtered rows that do not end before they start, the month total equals the sum of expense times the overlap days, end date included, that pass `FallsOn` |
| Spending.ContributionNonNegative | backend/app/routers/activity.py:74-105 | with a non-negative expense, a day contribution is non-negative; a year or month contribution is too for a pre-filtered activity that does not end before it starts |
| Spending.TotalNonNegative | backend/app/routers/activity.py:66-105 | a total over activities whose contributions are non-negative is non-negative |
| Spending.YearSpendingNonNegative | backend/app/routers/activity.py:52-111 | the year query's total over the selected rows is non-negative when every row has ordered dates and a non-negative expense |
| Spending.MonthSpendingNonNegative | backend/app/routers/activity.py:134-182 | the month query's total over the selected rows is non-negative when every row has ordered dates and a non-negative expense |
| Spending.DaySpendingNonNegative | backend/app/routers/activity.py:221-237 | the day query's total over the selected rows is non-negative whenever no expense is negative, whatever the rows' end dates |
| Spending.EndDateConventions | backend/app/routers/activity.py:134-140 | a daily row from 1 to 3 March passes the month pre-filter and is charged 3 times in March, and passes `FallsOn` on 3 March, yet the day query for 3 March does not select it (line 213) |

## Left out

- The database session and SQL: the table is a sequence `db` of activities, and each `select ... where` is a filter function over it. Row order is the sequence order.
- The clock: `date.today()` is a parameter `today`, read once per query. The source reads it twice in the year query (lines 39 and 41) and in the month query (lines 124 and 130). If midnight on 1 January falls between the year query's two reads, the query for the new year passes line 41 while `today` is still 31 December of the year before. The window of line 50 then ends before it starts, and every pre-filtered monthly row is charged 12 times and every yearly row once. The single `today` of the model cannot show this.
- FastAPI routing and query validation: the `Query` bounds on `year` (1800..3000) and `month` (1..12) are preconditions. The `category` value is an integer, with `None` meaning no filter.
- Money: `totalSpend` is a float in the source and an integer number of cents here, so rounding of float sums is not modelled.
- `create_new_activity` and `get_activities` (activity.py:17-29): a database insert and a paged read with no logic beyond the query, so they are not modelled.
- The `Activity` table declarations, the other routers, authentication, voice input and the frontend are not part of this model.
- Occurrences.MonthlyCountInYearIsOccurrences: agreement with the reference is stated only when the start's day-of-month exists in every overlapped month before the last one; the last month is decided by the code's own comparison. Without that condition the code counts earlier months lacking that day (`Occurrences.MonthlyDay31CountedInEveryMonth`).
- Occurrences.YearOccurrencesAreOccurrences: stated under `DueDatesExist`, for the same reason and for a 29 February anchor in a common year (see `YearlyLeapDayInCommonYear`).
- Spending.YearTotalIsOccurrenceTotal: stated under `DueDatesExist` for every row, for the same reasons.
- Spending.YearSpendingNonNegative: requires every row's end date not to be before its start date. The source never checks this, and such a row can make the total negative.
- Spending.MonthSpendingNonNegative: same requirement, for the same reason.
