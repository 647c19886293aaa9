/**
 * The records the spending endpoints read and return. The `Activity` table
 * columns used by the endpoints (`expense`, `startDate`, `endDate`,
 * `recurrenceType`, `category`) and the `RecurrenceType` and `SpendPublic`
 * types are imported by the router but not declared in the model file; they
 * are given here as the router uses them.
 */
module Models {
  import opened Calendar
  import opened Wrappers

  /** How often an activity's expense is incurred. `Unrecognised` stands for
      any value the router's `match` does not name. */
  datatype RecurrenceType = Once | Daily | Weekly | Monthly | Yearly | Unrecognised

  /** One spending item. `expense` is in the smallest currency unit (cents). */
  datatype Activity = Activity(
    accountId: int,
    category: int,
    expense: int,
    startDate: Date,
    endDate: Option<Date>,
    recurrenceType: RecurrenceType)

  /** Dates read from the database are real calendar dates. */
  predicate ValidActivity(a: Activity) {
    ValidDate(a.startDate) && (a.endDate.Some? ==> ValidDate(a.endDate.value))
  }

  /** An activity does not end before it starts. Nothing in the router checks this. */
  predicate OrderedDates(a: Activity) {
    a.endDate.Some? ==> NotAfter(a.startDate, a.endDate.value)
  }

  /** The endpoints' answer: the echoed query and the total spend in cents. */
  datatype SpendPublic = SpendPublic(year: int, month: Option<int>, day: Option<int>, totalSpend: int)

  /** An HTTP error raised by an endpoint. */
  datatype HttpError = HttpError(statusCode: int, detail: string)
}
