// The proleptic Gregorian calendar: conversion between dates and day numbers counted from 1970-01-01.
module Gregorian {
  import opened Calendar
  import opened Truncation

  // ---------- the library's functions ----------

  predicate IsLeap(y: int) {
    y % 4 == 0 && (y % 100 != 0 || y % 400 == 0)
  }

  function LastDay(y: int, m: int): int {
    if 1 <= m <= 12 && (m != 2 || !IsLeap(y)) then
      MONTH_LENGTHS[m - 1]
    else
      29
  }

  // The smallest 16-bit value is reserved for "not a year".
  predicate YearOk(y: int) {
    -0x8000 < y < 0x8000
  }

  predicate Valid(t: Date) {
    1 <= t.month <= 12 && 1 <= t.day <= LastDay(t.year, t.month)
  }

  predicate Ok(t: Date) {
    YearOk(t.year) && Valid(t)
  }

  function ToDays(t: Date): int {
    var y := t.year - (if t.month <= 2 then 1 else 0);
    var era := TruncDiv(if y >= 0 then y else y - 399, 400);
    var yoe := y - era * 400;
    var doy := DayOfMarchYear(t.month, t.day);
    var doe := yoe * 365 + yoe / 4 - yoe / 100 + doy;
    era * 146097 + doe - 719468
  }

  // The second half of the conversion, up to the narrowing of the year to 16 bits.
  function DateOfEraDay(era: int, doe: int): Date {
    var yoe := (doe - doe / 1460 + doe / 36524 - doe / 146096) / 365;
    var y := yoe + era * 400;
    var doy := doe - (365 * yoe + yoe / 4 - yoe / 100);
    var m := MarchMonth(doy);
    Date(y + (if m <= 2 then 1 else 0), m, MarchDay(doy))
  }

  function FromDays(n: int): Date {
    var z := n + 719468;
    var era := TruncDiv(if z >= 0 then z else z - 146096, 146097);
    var t := DateOfEraDay(era, z - era * 146097);
    t.(year := ToShort(t.year))
  }

  // ---------- the reference: counting days one year and one month at a time ----------

  function YearLength(y: int): int {
    if IsLeap(y) then 366 else 365
  }

  function YearStart(y: int): int
    decreases if y >= 1970 then y - 1970 else 1970 - y
  {
    if y == 1970 then 0
    else if y > 1970 then YearStart(y - 1) + YearLength(y - 1)
    else YearStart(y + 1) - YearLength(y)
  }

  function MonthStart(y: int, m: int): int
    requires 1 <= m <= 13
  {
    if m == 1 then 0 else MonthStart(y, m - 1) + LastDay(y, m - 1)
  }

  function Counted(t: Date): int
    requires Valid(t)
  {
    YearStart(t.year) + MonthStart(t.year, t.month) + t.day - 1
  }

  // ---------- closed form ----------

  // Days before 1 March of year y, counted from 1 March of year 0.
  function MarchYear(y: int): int {
    365 * y + y / 4 - y / 100 + y / 400
  }

  lemma EraSplit(y: int)
    ensures var era, yoe := y / 400, y % 400;
            MarchYear(y) == era * 146097 + yoe * 365 + yoe / 4 - yoe / 100
  {
    var era, yoe := y / 400, y % 400;
    assert y == 400 * era + yoe;
    assert y / 4 == 100 * era + yoe / 4;
    assert y / 100 == 4 * era + yoe / 100;
  }

  lemma ToDaysClosed(t: Date)
    ensures ToDays(t) == MarchYear(if t.month <= 2 then t.year - 1 else t.year) + DayOfMarchYear(t.month, t.day) - 719468
  {
    var y := if t.month <= 2 then t.year - 1 else t.year;
    FloorIdiom(y, 400);
    EraSplit(y);
  }

  lemma QuotientStep(y: int, b: int)
    requires b > 1
    ensures y / b == (y - 1) / b + if y % b == 0 then 1 else 0
  {
    if y % b == 0 {
      QuotientIs(y - 1, b, y / b - 1, b - 1);
    } else {
      QuotientIs(y - 1, b, y / b, y % b - 1);
    }
  }

  lemma MarchYearStep(y: int)
    ensures MarchYear(y) == MarchYear(y - 1) + YearLength(y)
  {
    QuotientStep(y, 4);
    QuotientStep(y, 100);
    QuotientStep(y, 400);
    if y % 400 == 0 {
      QuotientIs(y, 100, 4 * (y / 400), 0);
    }
    if y % 100 == 0 {
      QuotientIs(y, 4, 25 * (y / 100), 0);
    }
  }

  lemma {:induction false} YearStartClosed(y: int)
    ensures YearStart(y) == MarchYear(y - 1) + 306 - 719468
    decreases if y >= 1970 then y - 1970 else 1970 - y
  {
    if y > 1970 {
      YearStartClosed(y - 1);
      MarchYearStep(y - 1);
    } else if y < 1970 {
      YearStartClosed(y + 1);
      MarchYearStep(y);
    }
  }

  lemma MonthStartClosed(y: int, m: int)
    requires 1 <= m <= 13
    ensures MonthStart(y, m) ==
            if m <= 2 then DayOfMarchYear(m, 1) - 306
            else if m <= 12 then DayOfMarchYear(m, 1) + YearLength(y) - 306
            else YearLength(y)
  {
    if m > 1 {
      MonthStartClosed(y, m - 1);
    }
  }

  /** The closed form is the naive count of days. */
  lemma ToDaysCounts(t: Date)
    requires Valid(t)
    ensures ToDays(t) == Counted(t)
  {
    ToDaysClosed(t);
    YearStartClosed(t.year);
    MonthStartClosed(t.year, t.month);
    MarchYearStep(t.year);
  }

  // ---------- order ----------

  lemma {:induction false} YearStartMonotone(a: int, b: int)
    requires a < b
    ensures YearStart(a) + YearLength(a) <= YearStart(b)
    decreases b - a
  {
    YearStartClosed(b);
    YearStartClosed(b - 1);
    MarchYearStep(b - 1);
    if a < b - 1 {
      YearStartMonotone(a, b - 1);
    }
  }

  lemma {:induction false} MonthStartMonotone(y: int, a: int, b: int)
    requires 1 <= a < b <= 13
    ensures MonthStart(y, a) + LastDay(y, a) <= MonthStart(y, b)
    decreases b - a
  {
    if a < b - 1 {
      MonthStartMonotone(y, a, b - 1);
    }
  }

  lemma CountedBefore(a: Date, b: Date)
    requires Valid(a) && Valid(b) && Before(a, b)
    ensures Counted(a) < Counted(b)
  {
    if a.year < b.year {
      YearStartMonotone(a.year, b.year);
      MonthStartMonotone(a.year, a.month, 13);
      MonthStartClosed(a.year, 13);
      MonthStartClosed(b.year, b.month);
    } else if a.month < b.month {
      MonthStartMonotone(a.year, a.month, b.month);
    }
  }

  /** Day numbers order dates exactly as the calendar does. */
  lemma ToDaysIncreasing(a: Date, b: Date)
    requires Valid(a) && Valid(b)
    ensures Before(a, b) <==> ToDays(a) < ToDays(b)
  {
    ToDaysCounts(a);
    ToDaysCounts(b);
    if Before(a, b) {
      CountedBefore(a, b);
    } else if a != b {
      CountedBefore(b, a);
    }
  }

  // ---------- the inverse ----------

  // A day of the 400-year era is day s of the 4-year group q of century c.
  lemma YearOfEra(c: int, q: int, s: int)
    requires 0 <= c <= 3 && 0 <= q <= 24 && 0 <= s <= 1460
    requires c < 3 && q == 24 ==> s < 1460
    ensures var doe := 36524 * c + 1461 * q + s;
            var yog := if s == 1460 then 3 else s / 365;
            (doe - doe / 1460 + doe / 36524 - doe / 146096) / 365 == 100 * c + 4 * q + yog
  {
    var doe := 36524 * c + 1461 * q + s;
    var e := if 24 * c + q + s >= 1460 then 1 else 0;
    assert doe / 1460 == 25 * c + q + e;
    if c == 3 && q == 24 && s == 1460 {
      assert doe == 146096;
    } else {
      assert doe / 36524 == c;
      assert doe / 146096 == 0;
      assert doe - doe / 1460 + doe / 36524 == 365 * (100 * c + 4 * q) + (s - e);
    }
  }

  // The leap rule for the year after year yog of group q of century c.
  lemma YearOfGroup(c: int, q: int, yog: int)
    requires 0 <= c <= 3 && 0 <= q <= 24 && 0 <= yog <= 3
    ensures var yoe := 100 * c + 4 * q + yog;
            yoe / 4 == 25 * c + q && yoe / 100 == c &&
            (IsLeap(yoe + 1) <==> yog == 3 && (q < 24 || c == 3))
  {
    if yog == 3 {
      var y := 100 * c + 4 * q + 4;
      assert y % 4 == 0;
      assert y % 100 == 0 <==> q == 24;
      assert y % 400 == 0 <==> q == 24 && c == 3;
    }
  }

  // The closed form for the year of the era leaves a day of the year in range.
  lemma DayOfEra(doe: int)
    returns (yoe: int)
    requires 0 <= doe < 146097
    ensures yoe == (doe - doe / 1460 + doe / 36524 - doe / 146096) / 365
    ensures 0 <= yoe < 400
    ensures 0 <= doe - (365 * yoe + yoe / 4 - yoe / 100)
    ensures doe - (365 * yoe + yoe / 4 - yoe / 100) < YearLength(yoe + 1)
  {
    hide IsLeap;
    var c := if doe == 146096 then 3 else doe / 36524;
    var r := doe - 36524 * c;
    var q := r / 1461;
    var s := r - 1461 * q;
    YearOfEra(c, q, s);
    var yog := if s == 1460 then 3 else s / 365;
    yoe := 100 * c + 4 * q + yog;
    YearOfGroup(c, q, yog);
  }

  predicate DayInRange(n: int) {
    ToDays(Date(-0x7FFF, 1, 1)) <= n <= ToDays(Date(0x7FFF, 12, 31))
  }

  // The date before it is stored in 16 bits.
  function Civil(n: int): Date {
    DateOfEraDay((n + 719468) / 146097, (n + 719468) % 146097)
  }

  lemma FromDaysIsCivil(n: int)
    ensures FromDays(n) == Civil(n).(year := ToShort(Civil(n).year))
  {
    var z := n + 719468;
    FloorIdiom(z, 146097);
    assert z - z / 146097 * 146097 == z % 146097;
  }

  lemma LeapPeriod(era: int, y: int)
    ensures IsLeap(400 * era + y) == IsLeap(y)
  {
    QuotientIs(400 * era + y, 4, 100 * era + y / 4, y % 4);
    QuotientIs(400 * era + y, 100, 4 * era + y / 100, y % 100);
    QuotientIs(400 * era + y, 400, era + y / 400, y % 400);
  }

  lemma YearOfEraStart(era: int, yoe: int)
    requires 0 <= yoe < 400
    ensures MarchYear(yoe + era * 400) == era * 146097 + yoe * 365 + yoe / 4 - yoe / 100
  {
    QuotientIs(yoe + era * 400, 400, era, yoe);
    EraSplit(yoe + era * 400);
  }

  lemma CivilFields(era: int, doe: int, yoe: int, doy: int)
    requires yoe == (doe - doe / 1460 + doe / 36524 - doe / 146096) / 365
    requires doy == doe - (365 * yoe + yoe / 4 - yoe / 100)
    requires 0 <= doy < YearLength(yoe + era * 400 + 1)
    ensures var t := DateOfEraDay(era, doe);
            Valid(t) && DayOfMarchYear(t.month, t.day) == doy &&
            t.year == yoe + era * 400 + if t.month <= 2 then 1 else 0
  {
    hide DayOfMarchYear, MarchMonth, MarchDay;
    MarchMonthInverts(doy);
  }

  lemma EraDayInverts(era: int, doe: int)
    requires 0 <= doe < 146097
    ensures var t := DateOfEraDay(era, doe);
            Valid(t) && ToDays(t) == era * 146097 + doe - 719468
  {
    var yoe := DayOfEra(doe);
    var doy := doe - (365 * yoe + yoe / 4 - yoe / 100);
    LeapPeriod(era, yoe + 1);
    CivilFields(era, doe, yoe, doy);
    YearOfEraStart(era, yoe);
    ToDaysClosed(DateOfEraDay(era, doe));
  }

  lemma CivilInverts(n: int)
    ensures Valid(Civil(n)) && ToDays(Civil(n)) == n
  {
    var z := n + 719468;
    EraDayInverts(z / 146097, z % 146097);
    assert z / 146097 * 146097 + z % 146097 == z;
  }

  lemma InRange(n: int)
    ensures DayInRange(n) <==> YearOk(Civil(n).year)
  {
    CivilInverts(n);
    var t := Civil(n);
    ToDaysIncreasing(t, Date(-0x7FFF, 1, 1));
    ToDaysIncreasing(Date(0x7FFF, 12, 31), t);
  }

  /** Days to date and back, over every day whose year is representable. */
  lemma FromDaysInverts(n: int)
    requires DayInRange(n)
    ensures Ok(FromDays(n)) && ToDays(FromDays(n)) == n
  {
    FromDaysIsCivil(n);
    CivilInverts(n);
    InRange(n);
    var t := Civil(n);
    ShortFits(t.year);
    assert FromDays(n) == t;
  }

  /** Date to days and back, over every valid date. */
  lemma ToDaysInverts(t: Date)
    requires Ok(t)
    ensures DayInRange(ToDays(t)) && FromDays(ToDays(t)) == t
  {
    ToDaysIncreasing(t, Date(-0x7FFF, 1, 1));
    ToDaysIncreasing(Date(0x7FFF, 12, 31), t);
    var u := FromDays(ToDays(t));
    FromDaysInverts(ToDays(t));
    ToDaysIncreasing(t, u);
    ToDaysIncreasing(u, t);
  }
}
