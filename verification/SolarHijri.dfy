// The Solar Hijri calendar with its 2820-year era: twenty-two 128-year periods and four closing years.
module SolarHijri {
  import opened Calendar
  import opened Truncation
  import G = Gregorian

  const EPOCH := 2121446
  const DAYS_IN_ERA := 1029983
  const YEARS_IN_ERA := 2820
  const UNIX_TIME_SHIFT := 2440588
  const DAYS_IN_FIRST_CYCLE := 10592
  const DAYS_IN_OTHER_CYCLES := 12053
  const DAYS_IN_PERIOD := 46751

  // ---------- the library's functions ----------

  function YearOfCycle(yoe: int): int {
    if yoe < 22 * 128 then (if yoe % 128 < 29 then yoe % 128 else (yoe % 128 - 29) % 33) else yoe - 22 * 128 + 33
  }

  // The library finds the era by a floating-point division whose fraction is dropped; FloatingDivision shows that this
  // is the integer division used here.

  predicate IsLeap(year: int) {
    var y := year - 475;
    var era := TruncDiv(if y >= 0 then y else y - YEARS_IN_ERA + 1, YEARS_IN_ERA);
    var yoe := y - era * YEARS_IN_ERA;
    var yoc := YearOfCycle(yoe);
    yoc != 0 && yoc % 4 == 0
  }

  function LastDay(y: int, m: int): int
    requires 1 <= m <= 12
  {
    if m != 12 || !IsLeap(y) then (if m <= 6 then 31 else if m < 12 then 30 else 29) else 30
  }

  // Every 16-bit year is accepted.
  predicate YearOk(y: int) {
    -0x8000 <= y < 0x8000
  }

  predicate Valid(t: Date) {
    1 <= t.month <= 12 && 1 <= t.day <= LastDay(t.year, t.month)
  }

  predicate Ok(t: Date) {
    YearOk(t.year) && Valid(t)
  }

  function FirstDayOfCycle(cycle: int): int {
    if cycle > 0 then DAYS_IN_FIRST_CYCLE + (cycle - 1) * DAYS_IN_OTHER_CYCLES else 0
  }

  function FirstDayInCycle(yoc: int): int {
    var group := if yoc < 1 then 0 else (yoc - 1) / 4;
    var yog := if yoc < 1 then -1 else (yoc - 1) % 4;
    group * 1461 + (yog + 1) * 365
  }

  // First day of a year of the era.
  function FirstDayOfYear(yoe: int): int {
    var period := TruncDiv(yoe, 128);
    var yop := TruncMod(yoe, 128);
    var fdop := period * DAYS_IN_PERIOD;
    var cycle := if yop < 29 then 0 else (yop - 29) / 33 + 1;
    var yoc := if yop < 29 then yop else (yop - 29) % 33;
    fdop + FirstDayOfCycle(cycle) + FirstDayInCycle(yoc)
  }

  function DayOfYear(m: int, d: int): int {
    30 * (m - 1) + (if m > 6 then 6 else m - 1) + d - 1
  }

  function ToDays(t: Date): int {
    var y := t.year - 475;
    var era := TruncDiv(if y >= 0 then y else y - YEARS_IN_ERA + 1, YEARS_IN_ERA);
    var fdoe := EPOCH + era * DAYS_IN_ERA;
    var yoe := y - era * YEARS_IN_ERA;
    fdoe + FirstDayOfYear(yoe) + DayOfYear(t.month, t.day) - UNIX_TIME_SHIFT
  }

  // The same, once the period, the cycle and the day of the cycle are known.
  function YearAndDayOfCycle(doe: int, period: int, cycle: int, doc: int): (int, int) {
    var group := if doc < 365 && period != 22 then -1 else ((if doc < 365 then 365 else doc) - 365) / 1461;
    var yog := if doc < 365 && period != 22 then -1
               else (if period != 22 then (doc - 365) % 1461 else doc) / 365;
    var yog3 := if yog == 4 then 3 else yog;
    var yoc := if group == -1 then 0 else (if period != 22 then 1 else 0) + group * 4 + yog3;
    var rest := doe - period * DAYS_IN_PERIOD - FirstDayOfCycle(cycle) - (group * 1461 + (yog3 + 1) * 365);
    var doy := if group == -1 then doc
               else if period != 22 then (if (yoc - 1) % 4 == 0 then (if group >= 0 then rest else 365) else rest)
               else if yog == 4 then 365
               else doe - period * DAYS_IN_PERIOD - yog * 365;
    var yoe := if period != 22 then period * 128 + (if cycle > 0 then 29 + (cycle - 1) * 33 else 0) + yoc
               else 22 * 128 + yog3;
    (yoe, doy)
  }

  // Year of the era and day of that year, from the day of the era.
  function YearAndDay(doe: int): (int, int) {
    var period := if doe < 22 * DAYS_IN_PERIOD then doe / DAYS_IN_PERIOD else 22;
    var dop := doe % DAYS_IN_PERIOD;
    var cycle := if dop < DAYS_IN_FIRST_CYCLE then 0 else (dop - DAYS_IN_FIRST_CYCLE) / DAYS_IN_OTHER_CYCLES + 1;
    var doc := if dop < DAYS_IN_FIRST_CYCLE then dop else (dop - DAYS_IN_FIRST_CYCLE) % DAYS_IN_OTHER_CYCLES;
    YearAndDayOfCycle(doe, period, cycle, doc)
  }

  // The second half of the conversion, up to the narrowing of the year to 16 bits.
  function DateOfEraDay(era: int, doe: int): Date {
    var (yoe, doy) := YearAndDay(doe);
    var y := yoe + 475 + era * YEARS_IN_ERA;
    var m := if doy < 186 then doy / 31 + 1 else (doy - 186) / 30 + 7;
    var d := doy - (30 * (m - 1) + (if m > 6 then 6 else m - 1) - 1);
    Date(y, m, d)
  }

  function FromDays(n: int): Date {
    var z := n + UNIX_TIME_SHIFT;
    var delta := z - EPOCH;
    var era := TruncDiv(if delta >= 0 then delta else delta - DAYS_IN_ERA + 1, DAYS_IN_ERA);
    var fdoe := EPOCH + era * DAYS_IN_ERA;
    var t := DateOfEraDay(era, z - fdoe);
    t.(year := ToShort(t.year))
  }

  // ---------- leap years and year lengths ----------

  predicate LeapYearOfEra(yoe: int) {
    var yoc := YearOfCycle(yoe);
    yoc != 0 && yoc % 4 == 0
  }

  function YearLength(y: int): int {
    if IsLeap(y) then 366 else 365
  }

  lemma LeapOfEra(y: int)
    ensures IsLeap(y) <==> LeapYearOfEra((y - 475) % YEARS_IN_ERA)
  {
    hide YearOfCycle;
    FloorIdiom(y - 475, YEARS_IN_ERA);
    assert y - 475 - (y - 475) / YEARS_IN_ERA * YEARS_IN_ERA == (y - 475) % YEARS_IN_ERA;
  }

  lemma CycleStep(yoc: int)
    requires 0 <= yoc
    ensures FirstDayInCycle(yoc + 1) == FirstDayInCycle(yoc) + if yoc != 0 && yoc % 4 == 0 then 366 else 365
  {
    if yoc > 0 {
      var g, r := (yoc - 1) / 4, (yoc - 1) % 4;
      if r < 3 {
        QuotientIs(yoc, 4, g, r + 1);
      } else {
        QuotientIs(yoc, 4, g + 1, 0);
      }
    }
  }

  // The year of the era in terms of its period, cycle and year of the cycle.
  lemma YearSplit(period: int, cycle: int, yoc: int)
    requires 0 <= period && 0 <= cycle <= 3 && 0 <= yoc < if cycle == 0 then 29 else 33
    ensures var yoe := period * 128 + (if cycle > 0 then 29 + (cycle - 1) * 33 else 0) + yoc;
            FirstDayOfYear(yoe) == period * DAYS_IN_PERIOD + FirstDayOfCycle(cycle) + FirstDayInCycle(yoc) &&
            (yoe < 22 * 128 ==> YearOfCycle(yoe) == yoc)
  {
    hide FirstDayInCycle, FirstDayOfCycle;
    var yop := (if cycle > 0 then 29 + (cycle - 1) * 33 else 0) + yoc;
    QuotientIs(period * 128 + yop, 128, period, yop);
    if cycle > 0 {
      QuotientIs(yop - 29, 33, cycle - 1, yoc);
    }
  }

  lemma YearIsSplit(yoe: int)
    returns (period: int, cycle: int, yoc: int)
    requires 0 <= yoe
    ensures 0 <= period && 0 <= cycle <= 3 && 0 <= yoc < if cycle == 0 then 29 else 33
    ensures yoe == period * 128 + (if cycle > 0 then 29 + (cycle - 1) * 33 else 0) + yoc
  {
    period := yoe / 128;
    var yop := yoe % 128;
    cycle := if yop < 29 then 0 else (yop - 29) / 33 + 1;
    yoc := if yop < 29 then yop else (yop - 29) % 33;
  }

  lemma ClosingYears(yoe: int)
    requires yoe >= 22 * 128
    ensures YearOfCycle(yoe) == yoe - 22 * 128 + 33
  {
  }

  lemma CycleEnds()
    ensures FirstDayInCycle(0) == 0
    ensures FirstDayInCycle(29) == DAYS_IN_FIRST_CYCLE && FirstDayInCycle(33) == DAYS_IN_OTHER_CYCLES
  {
  }

  // From each year of a period to the next, over the ends of cycles and of the period.
  lemma SplitStep(period: int, cycle: int, yoc: int)
    requires 0 <= period && 0 <= cycle <= 3 && 0 <= yoc < if cycle == 0 then 29 else 33
    ensures var yoe := period * 128 + (if cycle > 0 then 29 + (cycle - 1) * 33 else 0) + yoc;
            FirstDayOfYear(yoe + 1) == FirstDayOfYear(yoe) + if yoc != 0 && yoc % 4 == 0 then 366 else 365
  {
    hide FirstDayOfYear, YearOfCycle, FirstDayInCycle;
    YearSplit(period, cycle, yoc);
    CycleStep(yoc);
    CycleEnds();
    if yoc + 1 < if cycle == 0 then 29 else 33 {
      YearSplit(period, cycle, yoc + 1);
    } else if cycle < 3 {
      YearSplit(period, cycle + 1, 0);
    } else {
      YearSplit(period + 1, 0, 0);
    }
  }

  lemma LastYear()
    ensures FirstDayOfYear(YEARS_IN_ERA - 1) == DAYS_IN_ERA - 366
  {
  }

  lemma EraYearStep(yoe: int)
    requires 0 <= yoe < YEARS_IN_ERA
    ensures (if yoe + 1 < YEARS_IN_ERA then FirstDayOfYear(yoe + 1) else DAYS_IN_ERA) ==
            FirstDayOfYear(yoe) + if LeapYearOfEra(yoe) then 366 else 365
  {
    hide FirstDayOfYear, YearOfCycle, FirstDayInCycle;
    var period, cycle, yoc := YearIsSplit(yoe);
    SplitStep(period, cycle, yoc);
    YearSplit(period, cycle, yoc);
    if yoe >= 22 * 128 {
      ClosingYears(yoe);
      LastYear();
    }
  }

  // ---------- order ----------

  lemma ToDaysClosed(t: Date)
    ensures var y := t.year - 475;
            ToDays(t) == EPOCH - UNIX_TIME_SHIFT + y / YEARS_IN_ERA * DAYS_IN_ERA +
                         FirstDayOfYear(y % YEARS_IN_ERA) + DayOfYear(t.month, t.day)
  {
    hide FirstDayOfYear, DayOfYear;
    var y := t.year - 475;
    FloorIdiom(y, YEARS_IN_ERA);
    assert y - y / YEARS_IN_ERA * YEARS_IN_ERA == y % YEARS_IN_ERA;
  }

  /** Every year, measured in day numbers, has 366 days exactly when it is a leap year. */
  lemma YearSpan(y: int)
    ensures ToDays(Date(y + 1, 1, 1)) - ToDays(Date(y, 1, 1)) == YearLength(y)
  {
    hide FirstDayOfYear, LeapYearOfEra, IsLeap, ToDays;
    ToDaysClosed(Date(y, 1, 1));
    ToDaysClosed(Date(y + 1, 1, 1));
    LeapOfEra(y);
    var era, yoe := (y - 475) / YEARS_IN_ERA, (y - 475) % YEARS_IN_ERA;
    EraYearStep(yoe);
    if yoe + 1 < YEARS_IN_ERA {
      QuotientIs(y + 1 - 475, YEARS_IN_ERA, era, yoe + 1);
    } else {
      QuotientIs(y + 1 - 475, YEARS_IN_ERA, era + 1, 0);
      YearSplit(0, 0, 0);
    }
  }

  lemma {:induction false} YearsApart(a: int, b: int)
    requires a < b
    ensures ToDays(Date(a, 1, 1)) + YearLength(a) <= ToDays(Date(b, 1, 1))
    decreases b - a
  {
    hide ToDays, IsLeap;
    YearSpan(b - 1);
    if a < b - 1 {
      YearsApart(a, b - 1);
    }
  }

  lemma MonthOfYear(doy: int)
    requires 0 <= doy < 366
    ensures var m := if doy < 186 then doy / 31 + 1 else (doy - 186) / 30 + 7;
            var d := doy - (30 * (m - 1) + (if m > 6 then 6 else m - 1) - 1);
            1 <= m <= 12 && DayOfYear(m, d) == doy &&
            1 <= d <= if m <= 6 then 31 else if m < 12 || doy == 365 then 30 else 29
  {
  }

  lemma DaysOfYearIncreasing(y: int, m: int, d: int, n: int, e: int)
    requires 1 <= m <= 12 && 1 <= d <= LastDay(y, m) && 1 <= n <= 12 && 1 <= e <= LastDay(y, n)
    ensures 0 <= DayOfYear(m, d) < YearLength(y)
    ensures DayOfYear(m, d) < DayOfYear(n, e) <==> m < n || (m == n && d < e)
  {
    hide IsLeap;
  }

  lemma DayWithinYear(t: Date)
    ensures ToDays(t) == ToDays(Date(t.year, 1, 1)) + DayOfYear(t.month, t.day)
  {
    hide FirstDayOfYear, ToDays;
    ToDaysClosed(t);
    ToDaysClosed(Date(t.year, 1, 1));
  }

  /** Day numbers order dates exactly as the calendar does. */
  lemma ToDaysIncreasing(a: Date, b: Date)
    requires Valid(a) && Valid(b)
    ensures Before(a, b) <==> ToDays(a) < ToDays(b)
  {
    hide ToDays, DayOfYear, IsLeap, LastDay;
    DayWithinYear(a);
    DayWithinYear(b);
    DaysOfYearIncreasing(a.year, a.month, a.day, a.month, a.day);
    DaysOfYearIncreasing(b.year, b.month, b.day, b.month, b.day);
    if a.year < b.year {
      YearsApart(a.year, b.year);
    } else if b.year < a.year {
      YearsApart(b.year, a.year);
    } else {
      DaysOfYearIncreasing(a.year, a.month, a.day, b.month, b.day);
    }
  }

  // ---------- the reference: counting days from 11 Dey 1348, which was 1970-01-01 ----------

  function MonthStart(y: int, m: int): int
    requires 1 <= m <= 13
  {
    if m == 1 then 0 else MonthStart(y, m - 1) + LastDay(y, m - 1)
  }

  function YearStart(y: int): int
    decreases if y >= 1348 then y - 1348 else 1348 - y
  {
    if y == 1348 then -MonthStart(1348, 10) - 10
    else if y > 1348 then YearStart(y - 1) + MonthStart(y - 1, 13)
    else YearStart(y + 1) - MonthStart(y, 13)
  }

  function Counted(t: Date): int
    requires Valid(t)
  {
    YearStart(t.year) + MonthStart(t.year, t.month) + t.day - 1
  }

  lemma {:induction false} MonthStartClosed(y: int, m: int)
    requires 1 <= m <= 13
    ensures MonthStart(y, m) == if m <= 12 then DayOfYear(m, 1) else YearLength(y)
  {
    hide IsLeap;
    if m > 1 {
      MonthStartClosed(y, m - 1);
    }
  }

  lemma AnchorYear()
    ensures ToDays(Date(1348, 1, 1)) == -286
  {
  }

  lemma {:induction false} YearStartClosed(y: int)
    ensures YearStart(y) == ToDays(Date(y, 1, 1))
    decreases if y >= 1348 then y - 1348 else 1348 - y
  {
    hide IsLeap, ToDays;
    if y > 1348 {
      YearStartClosed(y - 1);
      YearSpan(y - 1);
      MonthStartClosed(y - 1, 13);
    } else if y < 1348 {
      YearStartClosed(y + 1);
      YearSpan(y);
      MonthStartClosed(y, 13);
    } else {
      MonthStartClosed(1348, 10);
      AnchorYear();
    }
  }

  /** The closed form is the naive count of days. */
  lemma ToDaysCounts(t: Date)
    requires Valid(t)
    ensures ToDays(t) == Counted(t)
  {
    hide IsLeap, ToDays;
    DayWithinYear(t);
    YearStartClosed(t.year);
    MonthStartClosed(t.year, t.month);
  }

  lemma FirstGregorianDay()
    ensures G.ToDays(Date(1970, 1, 1)) == 0
  {
  }

  /** The count is zero on the day that the Gregorian one starts from. */
  lemma SameEpoch()
    ensures Valid(Date(1348, 10, 11)) && Counted(Date(1348, 10, 11)) == 0
    ensures ToDays(Date(1348, 10, 11)) == G.ToDays(Date(1970, 1, 1))
  {
    hide IsLeap, ToDays, G.ToDays;
    ToDaysCounts(Date(1348, 10, 11));
    DayWithinYear(Date(1348, 10, 11));
    AnchorYear();
    FirstGregorianDay();
  }

  lemma YearOfPeriod(yoe: int)
    requires 865 <= yoe < 965
    ensures LeapYearOfEra(yoe) <==> yoe in {867, 871, 875, 879, 883, 887, 891, 895, 900, 904, 908, 912, 916, 920, 924, 929,
                                            933, 937, 941, 945, 949, 953, 957, 962}
  {
    if yoe < 896 {
      QuotientIs(yoe, 128, 6, yoe - 768);
      QuotientIs(yoe - 768 - 29, 33, 2, yoe - 768 - 95);
    } else {
      QuotientIs(yoe, 128, 7, yoe - 896);
      if yoe >= 958 {
        QuotientIs(yoe - 896 - 29, 33, 1, yoe - 896 - 62);
      } else if yoe >= 925 {
        QuotientIs(yoe - 896 - 29, 33, 0, yoe - 896 - 29);
      }
    }
  }

  /** The leap years of a century: every fourth year, and the fifth after 1370, 1399 and 1432. */
  lemma LeapYears(y: int)
    requires 1340 <= y < 1440
    ensures IsLeap(y) <==> y in {1342, 1346, 1350, 1354, 1358, 1362, 1366, 1370, 1375, 1379, 1383, 1387, 1391, 1395,
                                 1399, 1404, 1408, 1412, 1416, 1420, 1424, 1428, 1432, 1437}
  {
    hide IsLeap, LeapYearOfEra;
    LeapOfEra(y);
    QuotientIs(y - 475, YEARS_IN_ERA, 0, y - 475);
    YearOfPeriod(y - 475);
  }

  // ---------- the inverse ----------

  lemma CycleDay(doc: int)
    requires 365 <= doc < DAYS_IN_OTHER_CYCLES
    ensures var group := (doc - 365) / 1461;
            var yog := (doc - 365) % 1461 / 365;
            var yog3 := if yog == 4 then 3 else yog;
            var yoc := 1 + group * 4 + yog3;
            var doy := doc - (group * 1461 + (yog3 + 1) * 365);
            1 <= yoc < (if doc < DAYS_IN_FIRST_CYCLE then 29 else 33) &&
            FirstDayInCycle(yoc) == group * 1461 + (yog3 + 1) * 365 &&
            0 <= doy < if yoc % 4 == 0 then 366 else 365
  {
    var group, r := (doc - 365) / 1461, (doc - 365) % 1461;
    var yog := r / 365;
    var yog3 := if yog == 4 then 3 else yog;
    QuotientIs(group * 4 + yog3, 4, group, yog3);
    assert 0 <= group <= 7;
    assert doc < DAYS_IN_FIRST_CYCLE ==> group <= 6;
  }

  lemma CycleOfDay(period: int, cycle: int, doc: int)
    requires 0 <= period < 22 && 0 <= cycle <= 3
    requires 0 <= doc < if cycle == 0 then DAYS_IN_FIRST_CYCLE else DAYS_IN_OTHER_CYCLES
    ensures var doe := period * DAYS_IN_PERIOD + FirstDayOfCycle(cycle) + doc;
            YearAndDay(doe) == YearAndDayOfCycle(doe, period, cycle, doc)
  {
    hide YearAndDayOfCycle;
    var dop := FirstDayOfCycle(cycle) + doc;
    var doe := period * DAYS_IN_PERIOD + dop;
    assert dop < DAYS_IN_PERIOD;
    QuotientIs(doe, DAYS_IN_PERIOD, period, dop);
    if cycle > 0 {
      QuotientIs(dop - DAYS_IN_FIRST_CYCLE, DAYS_IN_OTHER_CYCLES, cycle - 1, doc);
    }
  }

  // The conversion within one of the 22 full periods.
  lemma YearAndDayInPeriod(period: int, cycle: int, doc: int)
    requires 0 <= period < 22 && 0 <= cycle <= 3
    requires 0 <= doc < if cycle == 0 then DAYS_IN_FIRST_CYCLE else DAYS_IN_OTHER_CYCLES
    ensures var group := (doc - 365) / 1461;
            var yog := (doc - 365) % 1461 / 365;
            var yog3 := if yog == 4 then 3 else yog;
            var start := period * 128 + if cycle > 0 then 29 + (cycle - 1) * 33 else 0;
            YearAndDay(period * DAYS_IN_PERIOD + FirstDayOfCycle(cycle) + doc) ==
            if doc < 365 then (start, doc)
            else (start + 1 + group * 4 + yog3, doc - (group * 1461 + (yog3 + 1) * 365))
  {
    hide YearAndDay, FirstDayOfCycle;
    CycleOfDay(period, cycle, doc);
  }

  lemma CycleOfPeriod(dop: int)
    returns (cycle: int, doc: int)
    requires 0 <= dop < DAYS_IN_PERIOD
    ensures 0 <= cycle <= 3 && dop == FirstDayOfCycle(cycle) + doc
    ensures 0 <= doc < if cycle == 0 then DAYS_IN_FIRST_CYCLE else DAYS_IN_OTHER_CYCLES
  {
    cycle := if dop < DAYS_IN_FIRST_CYCLE then 0 else (dop - DAYS_IN_FIRST_CYCLE) / DAYS_IN_OTHER_CYCLES + 1;
    doc := if dop < DAYS_IN_FIRST_CYCLE then dop else (dop - DAYS_IN_FIRST_CYCLE) % DAYS_IN_OTHER_CYCLES;
  }

  lemma CycleStart()
    ensures FirstDayInCycle(0) == 0
  {
  }

  lemma PeriodDay(period: int, dop: int)
    requires 0 <= period < 22 && 0 <= dop < DAYS_IN_PERIOD
    ensures var (yoe, doy) := YearAndDay(period * DAYS_IN_PERIOD + dop);
            0 <= yoe < 22 * 128 &&
            period * DAYS_IN_PERIOD + dop == FirstDayOfYear(yoe) + doy &&
            0 <= doy < if LeapYearOfEra(yoe) then 366 else 365
  {
    hide FirstDayInCycle, FirstDayOfCycle, FirstDayOfYear, YearOfCycle, YearAndDay;
    var cycle, doc := CycleOfPeriod(dop);
    YearAndDayInPeriod(period, cycle, doc);
    if doc < 365 {
      YearSplit(period, cycle, 0);
      CycleStart();
    } else {
      CycleDay(doc);
      var group := (doc - 365) / 1461;
      var yog := (doc - 365) % 1461 / 365;
      YearSplit(period, cycle, 1 + group * 4 + (if yog == 4 then 3 else yog));
    }
  }

  lemma ClosingDay(dop: int)
    requires 0 <= dop < 1461
    ensures var (yoe, doy) := YearAndDay(22 * DAYS_IN_PERIOD + dop);
            22 * 128 <= yoe < YEARS_IN_ERA &&
            22 * DAYS_IN_PERIOD + dop == FirstDayOfYear(yoe) + doy &&
            0 <= doy < if LeapYearOfEra(yoe) then 366 else 365
  {
    hide FirstDayOfYear;
    var yog := if dop == 1460 then 3 else dop / 365;
    QuotientIs(22 * DAYS_IN_PERIOD + dop, DAYS_IN_PERIOD, 22, dop);
    YearSplit(22, 0, yog);
    ClosingYears(22 * 128 + yog);
  }

  lemma EraDay(doe: int)
    requires 0 <= doe < DAYS_IN_ERA
    ensures var (yoe, doy) := YearAndDay(doe);
            0 <= yoe < YEARS_IN_ERA && doe == FirstDayOfYear(yoe) + doy &&
            0 <= doy < if LeapYearOfEra(yoe) then 366 else 365
  {
    hide FirstDayOfYear, YearAndDay, LeapYearOfEra;
    if doe < 22 * DAYS_IN_PERIOD {
      PeriodDay(doe / DAYS_IN_PERIOD, doe % DAYS_IN_PERIOD);
    } else {
      ClosingDay(doe - 22 * DAYS_IN_PERIOD);
    }
  }

  // The date before it is stored in 16 bits.
  function Civil(n: int): Date {
    var delta := n + UNIX_TIME_SHIFT - EPOCH;
    DateOfEraDay(delta / DAYS_IN_ERA, delta % DAYS_IN_ERA)
  }

  lemma FromDaysIsCivil(n: int)
    ensures FromDays(n) == Civil(n).(year := ToShort(Civil(n).year))
  {
    hide DateOfEraDay, ToShort;
    var delta := n + UNIX_TIME_SHIFT - EPOCH;
    FloorIdiom(delta, DAYS_IN_ERA);
    assert delta - delta / DAYS_IN_ERA * DAYS_IN_ERA == delta % DAYS_IN_ERA;
  }

  lemma EraDayInverts(era: int, doe: int)
    requires 0 <= doe < DAYS_IN_ERA
    ensures var t := DateOfEraDay(era, doe);
            Valid(t) && ToDays(t) == EPOCH - UNIX_TIME_SHIFT + era * DAYS_IN_ERA + doe
  {
    hide ToDays, FirstDayOfYear, YearAndDay, LeapYearOfEra, IsLeap, DayOfYear;
    EraDay(doe);
    var (yoe, doy) := YearAndDay(doe);
    MonthOfYear(doy);
    var t := DateOfEraDay(era, doe);
    QuotientIs(t.year - 475, YEARS_IN_ERA, era, yoe);
    LeapOfEra(t.year);
    ToDaysClosed(t);
  }

  lemma CivilInverts(n: int)
    ensures Valid(Civil(n)) && ToDays(Civil(n)) == n
  {
    hide ToDays, DateOfEraDay, Valid;
    var delta := n + UNIX_TIME_SHIFT - EPOCH;
    EraDayInverts(delta / DAYS_IN_ERA, delta % DAYS_IN_ERA);
  }

  const FIRST_DATE := Date(-0x8000, 1, 1)

  // The last date of the last 16-bit year.
  function LastDate(): Date {
    Date(0x7FFF, 12, LastDay(0x7FFF, 12))
  }

  predicate DayInRange(n: int) {
    ToDays(FIRST_DATE) <= n <= ToDays(LastDate())
  }

  lemma InRange(t: Date)
    requires Valid(t)
    ensures DayInRange(ToDays(t)) <==> YearOk(t.year)
  {
    hide ToDays, IsLeap;
    ToDaysIncreasing(t, FIRST_DATE);
    ToDaysIncreasing(LastDate(), t);
  }

  /** Days to date and back, over every day whose year is representable, in positive and negative eras. */
  lemma FromDaysInverts(n: int)
    requires DayInRange(n)
    ensures Ok(FromDays(n)) && ToDays(FromDays(n)) == n
  {
    hide ToDays, FromDays, Civil, Valid, DayInRange;
    FromDaysIsCivil(n);
    CivilInverts(n);
    InRange(Civil(n));
    ShortFits(Civil(n).year);
  }

  /** Date to days and back, over every valid date. */
  lemma ToDaysInverts(t: Date)
    requires Ok(t)
    ensures DayInRange(ToDays(t)) && FromDays(ToDays(t)) == t
  {
    hide ToDays, FromDays, Valid, DayInRange;
    InRange(t);
    var u := FromDays(ToDays(t));
    FromDaysInverts(ToDays(t));
    ToDaysIncreasing(t, u);
    ToDaysIncreasing(u, t);
  }
}
