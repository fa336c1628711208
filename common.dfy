/** Shared value types: an optional value and the admission record that the
    admissions endpoint hands to every screen of the application. */
module Common {

  datatype Option<+T> = None | Some(value: T) {
    /** The value, or `default` when absent (JavaScript's `x || default`
        for a field that may be missing). */
    function GetOr(default: T): T {
      match this
      case Some(v) => v
      case None => default
    }
  }

  /** A calendar month: `year` and `month` as the integers read from a date. */
  datatype YearMonth = YearMonth(year: int, month: int)

  /** One student admission as the admissions endpoint returns it. A missing
      middle name is the empty string; the admission date is reduced to the
      calendar month it falls in. */
  datatype Admission = Admission(
    id: string,
    firstName: string,
    middleName: string,
    lastName: string,
    courseName: string,
    certificateName: string,
    mobileNumber: string,
    aadharNumber: string,
    timing: string,
    admitted: YearMonth
  )
}
