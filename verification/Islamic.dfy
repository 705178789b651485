// The tabular Islamic calendar: a cycle of 30 years with 11 leap years.
module Islamic {
  import opened Calendar
  import opened Truncation
  import G = Gregorian

  const LEAP_YEARS := {1, 4, 6, 9, 12, 15, 17, 20, 23, 25, 28}

  predicate IsLeap(year: int) {
    var y := year - 1;
    var era := TruncDiv(if y >= 0 then y else y - 29, 30);
    var yoe := y - era * 30;
    yoe in LEAP_YEARS
  }

  function LastDay(y: int, m: int): int
    requires 1 <= m <= 12
  {
    if m != 12 || !IsLeap(y) then (if m % 2 == 1 then 30 else 29) else 30
  }

  // Every 16-bit year is accepted.
  predicate YearOk(y: int) {
    -0x8000 <= y < 0x8000
  }

  predicate Valid(t: Date) {
    1 <= t.month <= 12 && 1 <= t.day <= LastDay(t.year, t.month)
  }

  predicate Ok(t: Date) {
    YearOk(t.year) && Valid(t)
  }

  function DayOfYear(m: int, d: int): int {
    29 * (m - 1) + m / 2 + d - 1
  }

  function ToDays(t: Date): int {
    var y := t.year - 1;
    var era := TruncDiv(if y >= 0 then y else y - 29, 30);
    var yoe := y - era * 30;
    var doe := yoe * 354 + (11 * (yoe + 1) + 3) / 30 + DayOfYear(t.month, t.day);
    era * 10631 + doe - 492148
  }

  // The second half of the conversion, up to the narrowing of the year to 16 bits.
  function DateOfEraDay(era: int, doe: int): Date {
    var yoe := (30 * doe + 10646) / 10631 - 1;
    var y := yoe + era * 30 + 1;
    var doy := doe - (yoe * 354 + (11 * (yoe + 1) + 3) / 30);
    var m := (11 * doy + 330) / 325;
    var d := doy - (29 * (m - 1) + m / 2) + 1;
    Date(y, m, d)
  }

  function FromDays(n: int): Date {
    var z := n + 492148;
    var era := TruncDiv(if z >= 0 then z else z - 10630, 10631);
    var t := DateOfEraDay(era, z - era * 10631);
    t.(year := ToShort(t.year))
  }

  // ---------- the leap table and the leap count ----------

  function LeapsBefore(yoe: nat): nat {
    if yoe == 0 then 0 else LeapsBefore(yoe - 1) + if yoe - 1 in LEAP_YEARS then 1 else 0
  }

  lemma LeapStep(yoe: nat)
    requires yoe < 30
    ensures (11 * (yoe + 2) + 3) / 30 == (11 * (yoe + 1) + 3) / 30 + if yoe in LEAP_YEARS then 1 else 0
  {
    var x := 11 * (yoe + 1) + 3;
    assert yoe in LEAP_YEARS <==> x % 30 >= 19;
    QuotientIs(x + 11, 30, x / 30 + (if x % 30 >= 19 then 1 else 0), (x + 11) % 30);
  }

  /** The division hidden in the day formula counts the years of the table. */
  lemma {:induction false} LeapCount(yoe: nat)
    requires yoe <= 30
    ensures LeapsBefore(yoe) == (11 * (yoe + 1) + 3) / 30
  {
    if yoe > 0 {
      LeapCount(yoe - 1);
      LeapStep(yoe - 1);
    }
  }

  function YearStart(yoe: int): int {
    yoe * 354 + (11 * (yoe + 1) + 3) / 30
  }

  function YearLength(y: int): int {
    if IsLeap(y) then 355 else 354
  }

  lemma LeapOfCycle(y: int)
    ensures IsLeap(y) <==> (y - 1) % 30 in LEAP_YEARS
  {
    FloorIdiom(y - 1, 30);
    assert y - 1 - (y - 1) / 30 * 30 == (y - 1) % 30;
  }

  lemma YearStep(y: int)
    ensures var yoe := (y - 1) % 30; YearStart(yoe + 1) - YearStart(yoe) == YearLength(y)
  {
    var yoe := (y - 1) % 30;
    LeapOfCycle(y);
    LeapStep(yoe);
  }

  lemma ToDaysClosed(t: Date)
    ensures ToDays(t) == (t.year - 1) / 30 * 10631 + YearStart((t.year - 1) % 30) + DayOfYear(t.month, t.day) - 492148
  {
    var y := t.year - 1;
    FloorIdiom(y, 30);
    assert y - y / 30 * 30 == y % 30;
  }

  /** The length of every year, measured in day numbers, agrees with the leap table. */
  lemma YearSpan(y: int)
    ensures ToDays(Date(y + 1, 1, 1)) - ToDays(Date(y, 1, 1)) == YearLength(y)
  {
    ToDaysClosed(Date(y, 1, 1));
    ToDaysClosed(Date(y + 1, 1, 1));
    YearStep(y);
    var q, r := (y - 1) / 30, (y - 1) % 30;
    if r < 29 {
      QuotientIs(y, 30, q, r + 1);
    } else {
      QuotientIs(y, 30, q + 1, 0);
    }
  }

  // ---------- the reference: counting days from 22 Shawwal 1389, which was 1970-01-01 ----------

  function MonthStart(y: int, m: int): int
    requires 1 <= m <= 13
  {
    if m == 1 then 0 else MonthStart(y, m - 1) + LastDay(y, m - 1)
  }

  function CountedYearStart(y: int): int
    decreases if y >= 1389 then y - 1389 else 1389 - y
  {
    if y == 1389 then -MonthStart(1389, 10) - 21
    else if y > 1389 then CountedYearStart(y - 1) + MonthStart(y - 1, 13)
    else CountedYearStart(y + 1) - MonthStart(y, 13)
  }

  function Counted(t: Date): int
    requires Valid(t)
  {
    CountedYearStart(t.year) + MonthStart(t.year, t.month) + t.day - 1
  }

  lemma {:induction false} MonthStartClosed(y: int, m: int)
    requires 1 <= m <= 13
    ensures MonthStart(y, m) == if m <= 12 then DayOfYear(m, 1) else YearLength(y)
  {
    hide IsLeap;
    if m > 1 {
      MonthStartClosed(y, m - 1);
    }
  }

  lemma {:induction false} CountedYearStartClosed(y: int)
    ensures CountedYearStart(y) == ToDays(Date(y, 1, 1))
    decreases if y >= 1389 then y - 1389 else 1389 - y
  {
    hide IsLeap, ToDays;
    if y > 1389 {
      CountedYearStartClosed(y - 1);
      YearSpan(y - 1);
      MonthStartClosed(y - 1, 13);
    } else if y < 1389 {
      CountedYearStartClosed(y + 1);
      YearSpan(y);
      MonthStartClosed(y, 13);
    } else {
      MonthStartClosed(1389, 10);
      ToDaysClosed(Date(1389, 1, 1));
    }
  }

  /** The closed form is the naive count of days. */
  lemma ToDaysCounts(t: Date)
    requires Valid(t)
    ensures ToDays(t) == Counted(t)
  {
    hide IsLeap, ToDays;
    ToDaysClosed(t);
    ToDaysClosed(Date(t.year, 1, 1));
    CountedYearStartClosed(t.year);
    MonthStartClosed(t.year, t.month);
  }

  /** The count is zero on the day that the Gregorian one starts from. */
  lemma SameEpoch()
    ensures Valid(Date(1389, 10, 22)) && Counted(Date(1389, 10, 22)) == 0
    ensures ToDays(Date(1389, 10, 22)) == G.ToDays(Date(1970, 1, 1))
  {
    ToDaysCounts(Date(1389, 10, 22));
  }

  // ---------- inverses ----------

  lemma YearOfEra(yoe: int, doe: int)
    requires 0 <= yoe < 30
    ensures YearStart(yoe) <= doe < YearStart(yoe + 1) <==> (30 * doe + 10646) / 10631 - 1 == yoe
  {
    var a, b := (11 * (yoe + 1) + 3) / 30, (11 * (yoe + 2) + 3) / 30;
    assert 11 * yoe + 14 - 29 <= 30 * a <= 11 * yoe + 14;
    assert 11 * yoe + 25 - 29 <= 30 * b <= 11 * yoe + 25;
  }

  lemma MonthOfYear(doy: int)
    requires 0 <= doy < 355
    ensures var m := (11 * doy + 330) / 325;
            var d := doy - (29 * (m - 1) + m / 2) + 1;
            1 <= m <= 12 && DayOfYear(m, d) == doy &&
            1 <= d <= if m == 12 && doy == 354 then 30 else if m % 2 == 1 then 30 else 29
  {
  }

  lemma DayOfYearInverts(m: int, d: int)
    requires 1 <= m <= 12 && 1 <= d <= if m == 12 || m % 2 == 1 then 30 else 29
    ensures var doy := DayOfYear(m, d);
            0 <= doy < 355 && (doy == 354 <==> m == 12 && d == 30) &&
            (11 * doy + 330) / 325 == m && doy - (29 * (m - 1) + m / 2) + 1 == d
  {
  }

  lemma EraDayInverts(era: int, doe: int)
    requires 0 <= doe < 10631
    ensures var t := DateOfEraDay(era, doe);
            Valid(t) && ToDays(t) == era * 10631 + doe - 492148
  {
    hide ToDays, IsLeap, DayOfYear;
    var yoe := (30 * doe + 10646) / 10631 - 1;
    assert 0 <= yoe < 30;
    YearOfEra(yoe, doe);
    var y := yoe + era * 30 + 1;
    QuotientIs(y - 1, 30, era, yoe);
    YearStep(y);
    var doy := doe - YearStart(yoe);
    MonthOfYear(doy);
    ToDaysClosed(DateOfEraDay(era, doe));
  }

  lemma EraDayOfDate(era: int, yoe: int, doe: int, t: Date)
    requires 0 <= yoe < 30 && YearStart(yoe) <= doe < YearStart(yoe + 1)
    requires t.year == yoe + era * 30 + 1
    requires doe == YearStart(yoe) + DayOfYear(t.month, t.day)
    requires t.month == (11 * (doe - YearStart(yoe)) + 330) / 325
    ensures DateOfEraDay(era, doe) == t
    ensures 0 <= doe < 10631
  {
    YearOfEra(yoe, doe);
  }

  lemma DateInverts(t: Date)
    requires Valid(t)
    ensures var z := ToDays(t) + 492148; DateOfEraDay(z / 10631, z % 10631) == t
  {
    var era, yoe := (t.year - 1) / 30, (t.year - 1) % 30;
    var doe := YearStart(yoe) + DayOfYear(t.month, t.day);
    DayOfYearInverts(t.month, t.day);
    YearStep(t.year);
    ToDaysClosed(t);
    EraDayOfDate(era, yoe, doe, t);
    QuotientIs(ToDays(t) + 492148, 10631, era, doe);
  }

  // A line that every day number stays close to, so that different years cannot overlap.
  lemma NearLine(t: Date)
    requires Valid(t)
    ensures 10631 * (t.year - 1) - 15 <= 30 * (ToDays(t) + 492148) <= 10631 * (t.year - 1) + 10615
  {
    var yoe := (t.year - 1) % 30;
    YearStep(t.year);
    DayOfYearInverts(t.month, t.day);
    ToDaysClosed(t);
    assert 10631 * yoe - 15 <= 30 * YearStart(yoe);
    assert 30 * YearStart(yoe + 1) <= 10631 * yoe + 10645;
    assert t.year - 1 == (t.year - 1) / 30 * 30 + yoe;
  }

  lemma DaysOfYearIncreasing(m: int, d: int, n: int, e: int)
    requires 1 <= m <= 12 && 1 <= d <= if m == 12 || m % 2 == 1 then 30 else 29
    requires 1 <= n <= 12 && 1 <= e <= if n == 12 || n % 2 == 1 then 30 else 29
    ensures DayOfYear(m, d) < DayOfYear(n, e) <==> m < n || (m == n && d < e)
  {
  }

  /** Day numbers order dates exactly as the calendar does. */
  lemma ToDaysIncreasing(a: Date, b: Date)
    requires Valid(a) && Valid(b)
    ensures Before(a, b) <==> ToDays(a) < ToDays(b)
  {
    if a.year != b.year {
      NearLine(a);
      NearLine(b);
    } else {
      DaysOfYearIncreasing(a.month, a.day, b.month, b.day);
      ToDaysClosed(a);
      ToDaysClosed(b);
    }
  }

  predicate DayInRange(n: int) {
    ToDays(Date(-0x8000, 1, 1)) <= n <= ToDays(Date(0x7FFF, 12, LastDay(0x7FFF, 12)))
  }

  lemma InRange(t: Date)
    requires Valid(t)
    ensures DayInRange(ToDays(t)) <==> YearOk(t.year)
  {
    ToDaysIncreasing(t, Date(-0x8000, 1, 1));
    ToDaysIncreasing(Date(0x7FFF, 12, LastDay(0x7FFF, 12)), t);
  }

  lemma FromDaysIsEraDay(n: int)
    ensures var z := n + 492148; var t := DateOfEraDay(z / 10631, z % 10631);
            FromDays(n) == t.(year := ToShort(t.year))
  {
    FloorIdiom(n + 492148, 10631);
  }

  /** Days to date and back, over every day whose year is representable. */
  lemma FromDaysInverts(n: int)
    requires DayInRange(n)
    ensures Ok(FromDays(n)) && ToDays(FromDays(n)) == n
  {
    var z := n + 492148;
    var t := DateOfEraDay(z / 10631, z % 10631);
    FromDaysIsEraDay(n);
    EraDayInverts(z / 10631, z % 10631);
    InRange(t);
    ShortFits(t.year);
  }

  /** Date to days and back, over every valid date. */
  lemma ToDaysInverts(t: Date)
    requires Ok(t)
    ensures DayInRange(ToDays(t)) && FromDays(ToDays(t)) == t
  {
    FromDaysIsEraDay(ToDays(t));
    DateInverts(t);
    InRange(t);
    ShortFits(t.year);
  }
}
