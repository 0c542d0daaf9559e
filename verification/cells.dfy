/** The raw values a spreadsheet cell of the registration sheet can hold. */
module Cells {

  /** A free-text column (gender code, addresses, `Reg`, qualification, ...):
      either empty in the sheet (pandas NaN) or a string. */
  datatype TextCell = Absent | Present(text: string)

  /** A calendar date with no time of day; also used for "today". */
  datatype Date = Date(year: int, month: int, day: int)

  /** The `Date of Birth` column, whose encoding varies from row to row:
      empty, a string, a number (already truncated by `int()`), or a date value. */
  datatype DobCell = Missing | Str(text: string) | Num(n: int) | When(date: Date)
}
