/** Calendar dates without a time component, ordered as `datetime.date` orders them. */
module Calendar {

  datatype Date = Date(year: int, month: int, day: int)

  /** `a` falls on or before `b`: year, then month, then day. */
  predicate OnOrBefore(a: Date, b: Date) {
    || a.year < b.year
    || (a.year == b.year && (a.month < b.month || (a.month == b.month && a.day <= b.day)))
  }

  /** `a` falls strictly before `b`. */
  predicate Before(a: Date, b: Date) {
    OnOrBefore(a, b) && a != b
  }
}
