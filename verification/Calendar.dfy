// What the day-number calendars share: dates, their order, and the year that starts in March.
module Calendar {
  datatype Date = Date(year: int, month: int, day: int)

  predicate Before(a: Date, b: Date) {
    if a.year != b.year then a.year < b.year
    else if a.month != b.month then a.month < b.month
    else a.day < b.day
  }

  const MONTH_LENGTHS := [31, 28, 31, 30, 31, 30, 31, 31, 30, 31, 30, 31]

  // Day of a year that starts on 1 March.
  function DayOfMarchYear(m: int, d: int): int {
    (153 * (if m > 2 then m - 3 else m + 9) + 2) / 5 + d - 1
  }

  function MarchMonth(doy: int): int {
    var mp := (5 * doy + 2) / 153;
    if mp < 10 then mp + 3 else mp - 9
  }

  function MarchDay(doy: int): int {
    var mp := (5 * doy + 2) / 153;
    doy - (153 * mp + 2) / 5 + 1
  }

  lemma MarchMonthInverts(doy: int)
    requires 0 <= doy < 366
    ensures var m, d := MarchMonth(doy), MarchDay(doy);
            1 <= m <= 12 && DayOfMarchYear(m, d) == doy &&
            1 <= d <= if m == 2 then (if doy == 365 then 29 else 28) else MONTH_LENGTHS[m - 1]
  {
  }

  lemma DayOfMarchYearInverts(m: int, d: int)
    requires 1 <= m <= 12 && 1 <= d <= if m == 2 then 29 else MONTH_LENGTHS[m - 1]
    ensures 0 <= DayOfMarchYear(m, d) < 366
    ensures DayOfMarchYear(m, d) == 365 <==> m == 2 && d == 29
    ensures MarchMonth(DayOfMarchYear(m, d)) == m && MarchDay(DayOfMarchYear(m, d)) == d
  {
  }
}
