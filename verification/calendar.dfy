/** Proleptic Gregorian dates as Python's `datetime` accepts them, and the
    age in completed years that app.py computes from a birth date. */
module Calendar {
  import opened Cells

  predicate IsLeapYear(y: int) {
    y % 4 == 0 && (y % 100 != 0 || y % 400 == 0)
  }

  function DaysInMonth(y: int, m: int): (n: int)
    requires 1 <= m <= 12
    ensures 28 <= n <= 31
    ensures n == 29 <==> m == 2 && IsLeapYear(y)
  {
    if m == 2 then (if IsLeapYear(y) then 29 else 28)
    else if m == 4 || m == 6 || m == 9 || m == 11 then 30
    else 31
  }

  /** A date the `datetime` constructor accepts: years 1 (MINYEAR) to 9999
      (MAXYEAR), a real month, and a day that month has in that year. */
  predicate IsValid(d: Date) {
    && 1 <= d.year <= 9999
    && 1 <= d.month <= 12
    && 1 <= d.day <= DaysInMonth(d.year, d.month)
  }

  /** Chronological order on (year, month, day), compared lexicographically. */
  predicate OnOrBefore(a: Date, b: Date) {
    || a.year < b.year
    || (a.year == b.year && a.month < b.month)
    || (a.year == b.year && a.month == b.month && a.day <= b.day)
  }

  /** The `k`-th anniversary of `birth`: the same month and day, `k` years on. */
  function Anniversary(birth: Date, k: int): Date {
    Date(birth.year + k, birth.month, birth.day)
  }

  /** The age on `today` of someone born on `birth`: the year difference,
      less one while this year's birthday is still ahead (app.py:84-86).
      It is the number of completed years: the anniversary for that age has
      been reached, the next one has not. */
  function AgeOn(birth: Date, today: Date): (age: int)
    ensures OnOrBefore(Anniversary(birth, age), today)
    ensures !OnOrBefore(Anniversary(birth, age + 1), today)
  {
    var age := today.year - birth.year;
    if today.month < birth.month || (today.month == birth.month && today.day < birth.day)
    then age - 1
    else age
  }

  /** Every anniversary up to the age has been reached, and none after it. */
  lemma AgeCountsCompletedYears(birth: Date, today: Date, k: int)
    ensures OnOrBefore(Anniversary(birth, k), today) <==> k <= AgeOn(birth, today)
  {
  }
}
