/** Calendar dates as the services compare them (java.time.LocalDate). */
module Dates {

  /** A calendar date; LocalDate orders dates by year, then month, then day. */
  datatype Date = Date(year: int, month: int, day: int)

  /** LocalDate.isBefore: strictly earlier, field by field. */
  predicate IsBefore(a: Date, b: Date) {
    || a.year < b.year
    || (a.year == b.year && a.month < b.month)
    || (a.year == b.year && a.month == b.month && a.day < b.day)
  }

  /** LocalDate.isAfter: strictly later. */
  predicate IsAfter(a: Date, b: Date) {
    IsBefore(b, a)
  }
}
