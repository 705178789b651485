// The proleptic Julian calendar.
module Julian {
  import opened Calendar
  import opened Truncation
  import G = Gregorian

  predicate IsLeap(y: int) {
    y % 4 == 0
  }

  function LastDay(y: int, m: int): int
    requires 1 <= m <= 12
  {
    if m != 2 || !IsLeap(y) then MONTH_LENGTHS[m - 1] else 29
  }

  // Every 16-bit year is accepted.
  predicate YearOk(y: int) {
    -0x8000 <= y < 0x8000
  }

  predicate Valid(t: Date) {
    1 <= t.month <= 12 && 1 <= t.day <= LastDay(t.year, t.month)
  }

  predicate Ok(t: Date) {
    YearOk(t.year) && Valid(t)
  }

  function ToDays(t: Date): int {
    var y := t.year - (if t.month <= 2 then 1 else 0);
    var era := TruncDiv(if y >= 0 then y else y - 3, 4);
    var yoe := y - era * 4;
    var doe := yoe * 365 + DayOfMarchYear(t.month, t.day);
    era * 1461 + doe - 719470
  }

  // The second half of the conversion, up to the narrowing of the year to 16 bits.
  function DateOfEraDay(era: int, doe: int): Date {
    var yoe := (doe - doe / 1460) / 365;
    var y := yoe + era * 4;
    var doy := doe - 365 * yoe;
    var m := MarchMonth(doy);
    Date(y + (if m <= 2 then 1 else 0), m, MarchDay(doy))
  }

  function FromDays(n: int): Date {
    var z := n + 719470;
    var era := TruncDiv(if z >= 0 then z else z - 1460, 1461);
    var t := DateOfEraDay(era, z - era * 1461);
    t.(year := ToShort(t.year))
  }

  function YearLength(y: int): int {
    if IsLeap(y) then 366 else 365
  }

  lemma ToDaysClosed(t: Date)
    ensures var y := if t.month <= 2 then t.year - 1 else t.year;
            ToDays(t) == y / 4 * 1461 + y % 4 * 365 + DayOfMarchYear(t.month, t.day) - 719470
  {
    FloorIdiom(if t.month <= 2 then t.year - 1 else t.year, 4);
  }

  /** The length of every year, measured in day numbers, agrees with the leap rule. */
  lemma YearSpan(y: int)
    ensures ToDays(Date(y + 1, 1, 1)) - ToDays(Date(y, 1, 1)) == YearLength(y)
  {
    ToDaysClosed(Date(y + 1, 1, 1));
    ToDaysClosed(Date(y, 1, 1));
  }

  // ---------- the reference: counting days from 19 December 1969, which was 1970-01-01 ----------

  function MonthStart(y: int, m: int): int
    requires 1 <= m <= 13
  {
    if m == 1 then 0 else MonthStart(y, m - 1) + LastDay(y, m - 1)
  }

  function YearStart(y: int): int
    decreases if y >= 1969 then y - 1969 else 1969 - y
  {
    if y == 1969 then -MonthStart(1969, 12) - 18
    else if y > 1969 then YearStart(y - 1) + MonthStart(y - 1, 13)
    else YearStart(y + 1) - MonthStart(y, 13)
  }

  function Counted(t: Date): int
    requires Valid(t)
  {
    YearStart(t.year) + MonthStart(t.year, t.month) + t.day - 1
  }

  lemma MonthStartClosed(y: int, m: int)
    requires 1 <= m <= 13
    ensures MonthStart(y, m) ==
            if m <= 2 then DayOfMarchYear(m, 1) - 306
            else if m <= 12 then DayOfMarchYear(m, 1) + YearLength(y) - 306
            else YearLength(y)
  {
    if m > 1 {
      MonthStartClosed(y, m - 1);
    }
  }

  lemma AnchorYear()
    ensures ToDays(Date(1969, 1, 1)) == -352 && YearLength(1969) == 365
  {
  }

  lemma {:induction false} YearStartClosed(y: int)
    ensures YearStart(y) == ToDays(Date(y, 1, 1))
    decreases if y >= 1969 then y - 1969 else 1969 - y
  {
    hide IsLeap, ToDays;
    if y > 1969 {
      YearStartClosed(y - 1);
      YearSpan(y - 1);
      MonthStartClosed(y - 1, 13);
    } else if y < 1969 {
      YearStartClosed(y + 1);
      YearSpan(y);
      MonthStartClosed(y, 13);
    } else {
      MonthStartClosed(1969, 12);
      AnchorYear();
    }
  }

  lemma MarchYearStep(y: int)
    ensures y / 4 * 1461 + y % 4 * 365 == (y - 1) / 4 * 1461 + (y - 1) % 4 * 365 + YearLength(y)
  {
  }

  lemma DayInMonth(m: int, d: int)
    ensures DayOfMarchYear(m, d) == DayOfMarchYear(m, 1) + d - 1 && DayOfMarchYear(1, 1) == 306
  {
  }

  /** The closed form is the naive count of days. */
  lemma ToDaysCounts(t: Date)
    requires Valid(t)
    ensures ToDays(t) == Counted(t)
  {
    hide DayOfMarchYear, ToDays;
    ToDaysClosed(t);
    ToDaysClosed(Date(t.year, 1, 1));
    YearStartClosed(t.year);
    MonthStartClosed(t.year, t.month);
    MarchYearStep(t.year);
    DayInMonth(t.month, t.day);
    DayInMonth(1, 1);
  }

  /** The count is zero on the day that the Gregorian one starts from. */
  lemma SameEpoch()
    ensures Valid(Date(1969, 12, 19)) && Counted(Date(1969, 12, 19)) == 0
    ensures ToDays(Date(1969, 12, 19)) == G.ToDays(Date(1970, 1, 1))
  {
    ToDaysCounts(Date(1969, 12, 19));
  }

  lemma YearOfEra(yoe: int, doy: int)
    requires 0 <= yoe < 4 && 0 <= doy <= 365 && (doy == 365 ==> yoe == 3)
    ensures var doe := yoe * 365 + doy;
            0 <= doe < 1461 && (doe - doe / 1460) / 365 == yoe
  {
  }

  lemma YearOfEraDay(doe: int)
    requires 0 <= doe < 1461
    ensures var yoe := (doe - doe / 1460) / 365; var doy := doe - 365 * yoe;
            0 <= yoe <= 3 && 0 <= doy <= 365 && (doy == 365 ==> yoe == 3)
  {
  }

  lemma LeapFebruary(era: int, yoe: int)
    requires 0 <= yoe <= 3
    ensures IsLeap(yoe + era * 4 + 1) <==> yoe == 3
  {
  }

  lemma EraDayInverts(era: int, doe: int)
    requires 0 <= doe < 1461
    ensures var t := DateOfEraDay(era, doe);
            Valid(t) && ToDays(t) == era * 1461 + doe - 719470
  {
    hide ToDays, DayOfMarchYear, MarchMonth, MarchDay;
    var yoe := (doe - doe / 1460) / 365;
    var doy := doe - 365 * yoe;
    YearOfEraDay(doe);
    MarchMonthInverts(doy);
    QuotientIs(yoe + era * 4, 4, era, yoe);
    var t := DateOfEraDay(era, doe);
    assert t.year == yoe + era * 4 + if t.month <= 2 then 1 else 0;
    LeapFebruary(era, yoe);
    ToDaysClosed(t);
  }

  lemma EraDayOfDate(t: Date, y: int, doy: int)
    requires y == if t.month <= 2 then t.year - 1 else t.year
    requires MarchMonth(doy) == t.month && MarchDay(doy) == t.day
    requires var doe := y % 4 * 365 + doy; (doe - doe / 1460) / 365 == y % 4
    ensures DateOfEraDay(y / 4, y % 4 * 365 + doy) == t
  {
  }

  lemma DateInverts(t: Date)
    requires Valid(t)
    ensures var z := ToDays(t) + 719470; DateOfEraDay(z / 1461, z % 1461) == t
  {
    hide ToDays, DayOfMarchYear, MarchMonth, MarchDay, DateOfEraDay;
    var y := if t.month <= 2 then t.year - 1 else t.year;
    var doy := DayOfMarchYear(t.month, t.day);
    DayOfMarchYearInverts(t.month, t.day);
    ToDaysClosed(t);
    YearOfEra(y % 4, doy);
    QuotientIs(ToDays(t) + 719470, 1461, y / 4, y % 4 * 365 + doy);
    EraDayOfDate(t, y, doy);
  }

  predicate DayInRange(n: int) {
    ToDays(Date(-0x8000, 1, 1)) <= n <= ToDays(Date(0x7FFF, 12, 31))
  }

  lemma InRange(t: Date)
    requires Valid(t)
    ensures DayInRange(ToDays(t)) <==> YearOk(t.year)
  {
    ToDaysClosed(t);
    DayOfMarchYearInverts(t.month, t.day);
    ToDaysClosed(Date(-0x8000, 1, 1));
    ToDaysClosed(Date(0x7FFF, 12, 31));
  }

  lemma FromDaysIsEraDay(n: int)
    ensures var z := n + 719470; var t := DateOfEraDay(z / 1461, z % 1461);
            FromDays(n) == t.(year := ToShort(t.year))
  {
    FloorIdiom(n + 719470, 1461);
  }

  /** Days to date and back, over every day whose year is representable. */
  lemma FromDaysInverts(n: int)
    requires DayInRange(n)
    ensures Ok(FromDays(n)) && ToDays(FromDays(n)) == n
  {
    var z := n + 719470;
    var t := DateOfEraDay(z / 1461, z % 1461);
    FromDaysIsEraDay(n);
    EraDayInverts(z / 1461, z % 1461);
    InRange(t);
    ShortFits(t.year);
  }

  /** Date to days and back, over every valid date. */
  lemma ToDaysInverts(t: Date)
    requires Ok(t)
    ensures DayInRange(ToDays(t)) && FromDays(ToDays(t)) == t
  {
    FromDaysIsEraDay(ToDays(t));
    DateInverts(t);
    InRange(t);
    ShortFits(t.year);
  }
}
