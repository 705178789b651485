// ISO 8601 week dates (section 3.2.2 of ISO 8601:2004) on top of the Gregorian day numbers.
module IsoWeek {
  import opened Calendar
  import opened Truncation
  import G = Gregorian

  datatype WeekDate = WeekDate(year: int, week: int, weekday: int)

  const MON := 1
  const THU := 4

  // ---------- the library's functions ----------

  // Monday is 1 and Sunday is 7.
  function Weekday(n: int): int {
    var wd := if n >= -4 then TruncMod(n + 4, 7) else TruncMod(n + 5, 7) + 6;
    if wd != 0 then wd else 7
  }

  // The Gregorian header's own formula, through 32-bit unsigned arithmetic; Sunday is 0.
  function SundayWeekday(n: int): int {
    var u := ToUnsigned(n);
    if n >= -4 then ToUnsigned(u + 4) % 7 else u % 7
  }

  // Days from weekday y forward to weekday x.
  function WeekdayGap(x: int, y: int): int {
    var diff := ToUnsigned(x - y);
    if diff <= 6 then diff else ToUnsigned(diff + 7)
  }

  function SundayWeekdayGap(x: int, y: int): int {
    var wdu := x - y;
    var wk := TruncDiv(if wdu >= 0 then wdu else wdu - 6, 7);
    wdu - wk * 7
  }

  // Last Thursday of December.
  function LastThursday(y: int): int {
    var d := G.ToDays(Date(y, 12, 31));
    d - SundayWeekdayGap(SundayWeekday(d), THU)
  }

  function LastWeek(y: int): int {
    var s0 := LastThursday(ToShort(y - 1));
    var s1 := LastThursday(y);
    ToByte(TruncDiv(s1 - s0, 7))
  }

  function YearStartsOn(y: int): int {
    LastThursday(ToShort(y - 1)) + WeekdayGap(MON, THU)
  }

  function ToDays(w: WeekDate): int {
    LastThursday(ToShort(w.year - 1)) + SundayWeekdayGap(MON, THU) + 7 * (w.week - 1) + WeekdayGap(w.weekday, MON)
  }

  function FromDays(n: int): WeekDate {
    var wd := Weekday(n);
    var y0 := G.FromDays(n + 3).year;
    var y := if n < YearStartsOn(y0) then ToShort(y0 - 1) else y0;
    WeekDate(y, ToByte(TruncDiv(n - YearStartsOn(y), 7) + 1), wd)
  }

  // Unlike the Gregorian year, the week year accepts every 16-bit value.
  predicate YearOk(y: int) {
    -0x8000 <= y < 0x8000
  }

  predicate Ok(w: WeekDate) {
    YearOk(w.year) && 1 <= w.weekday <= 7 && 1 <= w.week <= LastWeek(w.year)
  }

  // ---------- the reference: a week belongs to the year of its Thursday ----------

  // 1970-01-01 was a Thursday, so Thursdays are the multiples of seven.
  function ThursdayOf(n: int): int {
    (n + 3) / 7 * 7
  }

  function WeekOf(n: int): WeekDate {
    var thursday := ThursdayOf(n);
    var y := G.Civil(thursday).year;
    WeekDate(y, (thursday - G.YearStart(y)) / 7 + 1, n - thursday + THU)
  }

  // ---------- weekdays ----------

  predicate FitsInt(n: int) {
    -0x8000_0000 <= n < 0x8000_0000
  }

  lemma UnsignedWeekday(n: int)
    requires FitsInt(n)
    ensures SundayWeekday(n) == (n + 4) % 7
  {
    if n < -4 {
      assert ToUnsigned(n) == n + 0x1_0000_0000;
      QuotientIs(n + 0x1_0000_0000, 7, (n + 4) / 7 + 613566756, (n + 4) % 7);
    }
  }

  lemma SignedWeekday(n: int)
    ensures Weekday(n) == if (n + 4) % 7 == 0 then 7 else (n + 4) % 7
  {
    if n < -4 {
      var k := -(n + 5);
      QuotientIs(n + 4, 7, -(k / 7) - 1, 6 - k % 7);
    }
  }

  /** Both modular weekday formulas are the floored remainder, for negative days too. */
  lemma WeekdaysAgree(n: int)
    requires FitsInt(n)
    ensures SundayWeekday(n) == (n + 4) % 7
    ensures Weekday(n) == n - ThursdayOf(n) + THU
    ensures Weekday(n) == if SundayWeekday(n) == 0 then 7 else SundayWeekday(n)
  {
    hide SundayWeekday, Weekday;
    UnsignedWeekday(n);
    SignedWeekday(n);
    QuotientIs(n + 3, 7, (n + 3) / 7, (n + 3) % 7);
  }

  lemma GapsAgree(x: int, y: int)
    requires 0 <= x <= 7 && 0 <= y <= 7 && -6 <= x - y <= 6
    ensures WeekdayGap(x, y) == SundayWeekdayGap(x, y) == (x - y) % 7
  {
    FloorIdiom(x - y, 7);
  }

  // ---------- years ----------

  lemma DayOfYear(t: Date)
    requires G.Valid(t)
    ensures 0 <= G.MonthStart(t.year, t.month) + t.day - 1 < G.YearLength(t.year)
  {
    G.MonthStartMonotone(t.year, t.month, 13);
    G.MonthStartClosed(t.year, 13);
    G.MonthStartClosed(t.year, t.month);
  }

  lemma YearSpan(y: int)
    ensures G.YearStart(y + 1) == G.YearStart(y) + G.YearLength(y)
  {
    G.YearStartClosed(y);
    G.YearStartClosed(y + 1);
    G.MarchYearStep(y);
  }

  lemma YearContains(n: int)
    ensures G.YearStart(G.Civil(n).year) <= n < G.YearStart(G.Civil(n).year + 1)
  {
    hide G.ToDays, G.YearStart, G.Civil;
    var t := G.Civil(n);
    G.CivilInverts(n);
    G.ToDaysCounts(t);
    DayOfYear(t);
    YearSpan(t.year);
  }

  lemma YearsApart(a: int, b: int)
    requires a <= b
    ensures G.YearStart(a) <= G.YearStart(b)
  {
    hide G.ToDays, G.YearStart, G.Civil, G.FromDays;
    if a < b {
      G.YearStartMonotone(a, b);
    }
  }

  lemma YearIs(n: int, y: int)
    ensures G.Civil(n).year == y <==> G.YearStart(y) <= n < G.YearStart(y + 1)
  {
    hide G.ToDays, G.YearStart, G.Civil, G.FromDays;
    YearContains(n);
    var z := G.Civil(n).year;
    if z < y {
      YearsApart(z + 1, y);
    } else if y < z {
      YearsApart(y + 1, z);
    }
  }

  lemma LastDayOfYear(y: int)
    ensures G.ToDays(Date(y, 12, 31)) == G.YearStart(y + 1) - 1
  {
    G.ToDaysCounts(Date(y, 12, 31));
    G.MonthStartClosed(y, 12);
    YearSpan(y);
  }

  lemma YearFits(y: int)
    requires -0x8000 <= y <= 0x8000
    ensures FitsInt(G.YearStart(y) - 1000) && FitsInt(G.YearStart(y) + 1000)
  {
    G.YearStartClosed(y);
  }

  lemma ThursdayGap(d: int)
    ensures d - ((d + 4) % 7 - 4) % 7 == d / 7 * 7
  {
  }

  lemma LastThursdayClosed(y: int)
    requires -0x8000 <= y < 0x8000
    ensures LastThursday(y) == (G.YearStart(y + 1) - 1) / 7 * 7
  {
    hide G.ToDays, G.YearStart, G.Civil, G.FromDays;
    var d := G.ToDays(Date(y, 12, 31));
    LastDayOfYear(y);
    YearFits(y + 1);
    WeekdaysAgree(d);
    FloorIdiom(SundayWeekday(d) - THU, 7);
    ThursdayGap(d);
  }

  // The first Monday of an ISO year is three days before the year's first Thursday.
  function FirstMonday(y: int): int {
    (G.YearStart(y) - 1) / 7 * 7 + 4
  }

  lemma YearStartsOnClosed(y: int)
    requires G.YearOk(y)
    ensures YearStartsOn(y) == FirstMonday(y)
  {
    hide G.YearStart, LastThursday, WeekdayGap;
    ShortFits(y - 1);
    LastThursdayClosed(y - 1);
    GapsAgree(MON, THU);
  }

  lemma WeeksBetween(s: int, length: int)
    requires 365 <= length <= 366
    ensures var gap := (s + length - 1) / 7 * 7 - (s - 1) / 7 * 7;
            gap >= 0 && gap / 7 == if s % 7 == 0 || (s + length - 1) % 7 == 0 then 53 else 52
  {
    var a, r := (s - 1) / 7, (s - 1) % 7;
    QuotientIs(s + length - 1, 7, a + (r + length) / 7, (r + length) % 7);
  }

  lemma WeekNumber(s: int, n: int)
    requires s <= ThursdayOf(n) && (s - 1) / 7 * 7 + 4 <= n
    ensures (n - ((s - 1) / 7 * 7 + 4)) / 7 == (ThursdayOf(n) - s) / 7
  {
    var a, k := (s - 1) / 7, (n + 3) / 7;
    QuotientIs(n - (7 * a + 4), 7, k - a - 1, (n + 3) % 7);
    QuotientIs(7 * k - s, 7, k - a - 1, 6 - (s - 1) % 7);
  }

  lemma DayOfWeek(s: int, week: int, wd: int)
    requires 1 <= wd <= 7
    ensures var n := (s - 1) / 7 * 7 + 4 + 7 * (week - 1) + wd - 1;
            ThursdayOf(n) == (s - 1) / 7 * 7 + 7 * week && (ThursdayOf(n) - s) / 7 + 1 == week &&
            n - ThursdayOf(n) + THU == wd
  {
    var a := (s - 1) / 7;
    QuotientIs(7 * (a + week) + wd - 1, 7, a + week, wd - 1);
    QuotientIs(7 * (a + week) - s, 7, week - 1, 6 - (s - 1) % 7);
  }

  /** A year has 52 weeks, or 53 when its first or its last day is a Thursday. */
  lemma LastWeekIs52Or53(y: int)
    requires G.YearOk(y)
    ensures LastWeek(y) == if G.YearStart(y) % 7 == 0 || (G.YearStart(y + 1) - 1) % 7 == 0 then 53 else 52
  {
    hide LastThursday;
    ShortFits(y - 1);
    LastThursdayClosed(y - 1);
    LastThursdayClosed(y);
    YearSpan(y);
    WeeksBetween(G.YearStart(y), G.YearLength(y));
  }

  // ---------- from days ----------

  // The days of the weeks of the years after the first 16-bit year; before it, the year of the preceding December
  // wraps round.
  predicate DayInRange(n: int) {
    FirstMonday(-0x7FFF) <= n < FirstMonday(0x8000)
  }

  // Days near year y, by the number of days since its start.
  lemma YearBetween(n: int, low: int, high: int)
    requires G.YearStart(low) <= n < G.YearStart(high + 1)
    ensures low <= G.Civil(n).year <= high
  {
    hide G.YearStart, G.Civil;
    YearContains(n);
    var y := G.Civil(n).year;
    if y < low {
      YearsApart(y + 1, low);
    } else if high < y {
      YearsApart(high + 1, y);
    }
  }

  lemma FirstMondayNear(y: int)
    ensures G.YearStart(y) - 3 <= FirstMonday(y) <= G.YearStart(y) + 3
  {
    hide G.YearStart;
  }

  lemma YearBeforeAdjustment(n: int)
    requires DayInRange(n)
    ensures var c := G.Civil(n + 3).year;
            -0x7FFF <= c <= 0x8000 && G.YearStart(c) <= n + 3 < G.YearStart(c + 1) &&
            G.FromDays(n + 3).year == if c == 0x8000 then -0x8000 else c
    ensures FitsInt(n)
  {
    hide G.ToDays, G.YearStart, G.Civil, G.FromDays;
    FirstMondayNear(-0x7FFF);
    FirstMondayNear(0x8000);
    YearSpan(0x8000);
    YearBetween(n + 3, -0x7FFF, 0x8000);
    YearContains(n + 3);
    G.FromDaysIsCivil(n + 3);
    YearFits(-0x7FFF);
    YearFits(0x8000);
  }

  // The first 16-bit year has no year before it, and is taken to start where the year after the last one does.
  lemma FirstYearStartsOn()
    ensures YearStartsOn(-0x8000) == FirstMonday(0x8000)
  {
    hide G.YearStart, LastThursday, WeekdayGap;
    LastThursdayClosed(0x7FFF);
    GapsAgree(MON, THU);
  }

  lemma MondayAndThursday(s: int, n: int)
    ensures var monday := (s - 1) / 7 * 7 + 4;
            s + 3 - 6 <= monday <= s + 3 && n <= ThursdayOf(n) + 3 && ThursdayOf(n) <= n + 3 &&
            (monday <= n <==> s <= ThursdayOf(n))
  {
  }

  // A week whose last day lies in year y belongs to y exactly when it does not start before y's first week.
  lemma WeekOfYear(n: int, y: int)
    requires G.YearStart(y) <= n + 3 < G.YearStart(y + 1)
    ensures FirstMonday(y) <= n ==> G.YearStart(y) <= ThursdayOf(n) < G.YearStart(y + 1)
    ensures n < FirstMonday(y) ==>
              FirstMonday(y - 1) <= n && G.YearStart(y - 1) <= ThursdayOf(n) < G.YearStart(y)
  {
    hide G.YearStart;
    YearSpan(y - 1);
    MondayAndThursday(G.YearStart(y), n);
    MondayAndThursday(G.YearStart(y - 1), n);
  }

  lemma YearAdjusted(n: int)
    requires DayInRange(n)
    ensures var y := FromDays(n).year;
            G.YearOk(y) && G.YearStart(y) <= ThursdayOf(n) < G.YearStart(y + 1) && FirstMonday(y) <= n &&
            YearStartsOn(y) == FirstMonday(y)
  {
    hide G.ToDays, G.YearStart, G.Civil, G.FromDays, YearStartsOn, ThursdayOf;
    var c := G.Civil(n + 3).year;
    YearBeforeAdjustment(n);
    WeekOfYear(n, c);
    if c == 0x8000 {
      FirstYearStartsOn();
      YearStartsOnClosed(0x7FFF);
    } else {
      YearStartsOnClosed(c);
      if n < YearStartsOn(c) {
        assert c > -0x7FFF;
        ShortFits(c - 1);
        YearStartsOnClosed(c - 1);
      }
    }
  }

  lemma WeekInYear(n: int, y: int)
    requires G.YearOk(y) && G.YearStart(y) <= ThursdayOf(n) < G.YearStart(y + 1)
    ensures 1 <= (ThursdayOf(n) - G.YearStart(y)) / 7 + 1 <= LastWeek(y)
  {
    hide G.YearStart, LastWeek;
    LastWeekIs52Or53(y);
    YearSpan(y);
    var gap := ThursdayOf(n) - G.YearStart(y);
    assert 0 <= gap < 366;
    if gap / 7 == 52 {
      assert gap == 364 || gap == 365;
      assert (G.YearStart(y) + gap) % 7 == 0;
    }
  }

  lemma SmallWeek(week: int)
    requires 0 <= week < 256
    ensures ToByte(week) == week
  {
  }

  lemma DaysSinceThursday(n: int)
    ensures ThursdayOf(n) % 7 == 0 && -3 <= n - ThursdayOf(n) <= 3
  {
  }

  lemma FirstMondayIs(y: int)
    ensures FirstMonday(y) == (G.YearStart(y) - 1) / 7 * 7 + 4
  {
    hide G.YearStart;
  }

  /** The conversion gives the year and week of the week's Thursday, with a valid week number. */
  lemma FromDaysIsWeekOf(n: int)
    requires DayInRange(n)
    ensures FromDays(n) == WeekOf(n)
    ensures Ok(FromDays(n)) && FromDays(n).year != -0x8000
  {
    hide G.ToDays, G.YearStart, G.Civil, G.FromDays, YearStartsOn, LastWeek, DayInRange, ThursdayOf, Weekday;
    YearBeforeAdjustment(n);
    YearAdjusted(n);
    WeekdaysAgree(n);
    DaysSinceThursday(n);
    var y := FromDays(n).year;
    YearIs(ThursdayOf(n), y);
    WeekInYear(n, y);
    LastWeekIs52Or53(y);
    WeekNumber(G.YearStart(y), n);
    FirstMondayIs(y);
    SmallWeek((ThursdayOf(n) - G.YearStart(y)) / 7 + 1);
  }

  // ---------- and back ----------

  // The year whose first Monday a week date is counted from.
  function CountedFrom(y: int): int {
    if y == -0x8000 then 0x8000 else y
  }

  lemma ToDaysClosed(w: WeekDate)
    requires YearOk(w.year) && 1 <= w.weekday <= 7
    ensures ToDays(w) == FirstMonday(CountedFrom(w.year)) + 7 * (w.week - 1) + w.weekday - 1
  {
    hide LastThursday, G.YearStart;
    var y := CountedFrom(w.year);
    assert ToShort(w.year - 1) == y - 1;
    LastThursdayClosed(y - 1);
    GapsAgree(MON, THU);
    GapsAgree(w.weekday, MON);
  }

  lemma WeekStart(s: int, thursday: int)
    requires thursday % 7 == 0
    ensures (thursday - s) / 7 * 7 == thursday - (s - 1) / 7 * 7 - 7
  {
    QuotientIs(thursday - s, 7, thursday / 7 - (s - 1) / 7 - 1, 6 - (s - 1) % 7);
  }

  // A day whose Thursday lies in year y is in range.
  lemma YearsBetween(y: int)
    requires G.YearOk(y)
    ensures forall n :: G.YearStart(y) <= ThursdayOf(n) < G.YearStart(y + 1) ==> DayInRange(n)
  {
    hide G.YearStart;
    YearsApart(-0x7FFF, y);
    YearsApart(y + 1, 0x8000);
    forall n | G.YearStart(y) <= ThursdayOf(n) < G.YearStart(y + 1) ensures DayInRange(n) {
      MondayAndThursday(G.YearStart(-0x7FFF), n);
      MondayAndThursday(G.YearStart(0x8000), n);
    }
  }

  lemma DayInRangeInverts(n: int)
    requires DayInRange(n)
    ensures ToDays(FromDays(n)) == n
  {
    hide FromDays, ToDays, DayInRange, G.YearStart, G.Civil, LastWeek, ThursdayOf;
    FromDaysIsWeekOf(n);
    var w := FromDays(n);
    var thursday := ThursdayOf(n);
    DaysSinceThursday(n);
    ToDaysClosed(w);
    WeekStart(G.YearStart(w.year), thursday);
  }

  lemma LastThursdayOfYear(s: int, length: int)
    requires 365 <= length <= 366
    ensures var last := if s % 7 == 0 || (s + length - 1) % 7 == 0 then 53 else 52;
            s <= (s - 1) / 7 * 7 + 7 && (s - 1) / 7 * 7 + 7 * last < s + length
  {
    WeeksBetween(s, length);
  }

  // The Thursday of a numbered week lies in the week's year.
  lemma ThursdayWithinYear(y: int, week: int)
    requires G.YearOk(y) && 1 <= week <= LastWeek(y)
    ensures G.YearStart(y) <= (G.YearStart(y) - 1) / 7 * 7 + 7 * week < G.YearStart(y + 1)
  {
    hide G.YearStart, LastWeek;
    LastWeekIs52Or53(y);
    YearSpan(y);
    LastThursdayOfYear(G.YearStart(y), G.YearLength(y));
  }

  lemma WeekOfIs(n: int, w: WeekDate)
    requires G.YearStart(w.year) <= ThursdayOf(n) < G.YearStart(w.year + 1)
    requires (ThursdayOf(n) - G.YearStart(w.year)) / 7 + 1 == w.week && n - ThursdayOf(n) + THU == w.weekday
    ensures WeekOf(n) == w
  {
    hide G.YearStart, G.Civil, ThursdayOf;
    YearIs(ThursdayOf(n), w.year);
  }

  lemma OrdinaryYearInverts(w: WeekDate)
    requires Ok(w) && w.year != -0x8000
    ensures FromDays(ToDays(w)) == w
  {
    hide FromDays, ToDays, G.YearStart, G.Civil, LastWeek, ThursdayOf, WeekOf, FirstMonday;
    var n := ToDays(w);
    ToDaysClosed(w);
    FirstMondayIs(w.year);
    ThursdayWithinYear(w.year, w.week);
    DayOfWeek(G.YearStart(w.year), w.week, w.weekday);
    YearsBetween(w.year);
    FromDaysIsWeekOf(n);
    WeekOfIs(n, w);
  }

  // ---------- the first 16-bit year ----------

  lemma YearsAtTheEnds()
    ensures G.YearStart(0x8000) == 11248738 && G.YearStart(0x8001) == 11249104
    ensures G.YearStart(-0x7FFF) == -12687428
    ensures FirstMonday(0x8000) == 11248738
  {
    G.YearStartClosed(0x8000);
    G.YearStartClosed(0x8001);
    G.YearStartClosed(-0x7FFF);
  }

  /** The first 16-bit year is accepted as a year, but the year before it wraps round to the last one, and its number
      of weeks, cut to a byte, is 196. */
  lemma FirstYearWeeks()
    ensures LastWeek(-0x8000) == 196
  {
    hide LastThursday, G.YearStart;
    YearsAtTheEnds();
    LastThursdayClosed(0x7FFF);
    LastThursdayClosed(-0x8000);
    assert LastThursday(0x7FFF) == 11248734 && LastThursday(-0x8000) == -12687430;
    assert ToShort(-0x8001) == 0x7FFF;
    assert TruncDiv(-12687430 - 11248734, 7) == -3419452;
  }

  lemma StaysInFirstYear(n: int)
    requires FirstMonday(0x8000) <= n && G.FromDays(n + 3).year == -0x8000
    requires YearStartsOn(-0x8000) == FirstMonday(0x8000)
    ensures FromDays(n) == WeekDate(-0x8000, ToByte((n - FirstMonday(0x8000)) / 7 + 1), Weekday(n))
  {
    hide G.YearStart, YearStartsOn, G.FromDays, Weekday;
  }

  lemma TenYears(y: int)
    ensures G.YearStart(y + 10) >= G.YearStart(y) + 3650
  {
    G.YearStartClosed(y);
    G.YearStartClosed(y + 10);
  }

  lemma LeavesFirstYear(n: int)
    requires G.YearStart(0x8001) <= n + 3 < G.YearStart(0x8001) + 2000
    ensures FromDays(n).year != -0x8000
  {
    hide G.YearStart, YearStartsOn, G.FromDays, G.Civil, Weekday;
    YearsAtTheEnds();
    TenYears(0x8001);
    YearBetween(n + 3, 0x8001, 0x800A);
    G.FromDaysIsCivil(n + 3);
    var y0 := G.Civil(n + 3).year - 0x1_0000;
    assert G.FromDays(n + 3).year == y0;
    YearStartsOnClosed(y0);
    FirstMondayNear(y0);
    YearsApart(y0, 1970);
  }

  lemma FirstYearInverts(w: WeekDate)
    requires Ok(w) && w.year == -0x8000
    ensures FromDays(ToDays(w)) == w <==> 7 * w.week + w.weekday < 371
  {
    hide FromDays, ToDays, G.YearStart, G.Civil, LastWeek, YearStartsOn, G.FromDays;
    var n := ToDays(w);
    ToDaysClosed(w);
    FirstYearWeeks();
    YearsAtTheEnds();
    G.FromDaysIsCivil(n + 3);
    WeekdaysAgree(n);
    if n + 3 < G.YearStart(0x8001) {
      YearBetween(n + 3, 0x8000, 0x8000);
      FirstYearStartsOn();
      DayOfWeek(G.YearStart(0x8000), w.week, w.weekday);
      StaysInFirstYear(n);
    } else {
      LeavesFirstYear(n);
    }
  }

  // ---------- all days ----------

  lemma MondaysInOrder(a: int, b: int)
    requires a <= b
    ensures FirstMonday(a) <= FirstMonday(b)
  {
    hide G.YearStart;
    YearsApart(a, b);
  }

  // Where the first week of a date's year starts is one of these.
  lemma StartsWithin(y: int)
    requires YearOk(y)
    ensures FirstMonday(-0x7FFF) <= YearStartsOn(y) <= FirstMonday(0x8000)
    ensures y != -0x8000 ==> YearStartsOn(y) == FirstMonday(y)
    ensures y == -0x8000 ==> YearStartsOn(y) == FirstMonday(0x8000)
  {
    hide YearStartsOn, G.YearStart;
    if y == -0x8000 {
      FirstYearStartsOn();
      MondaysInOrder(-0x7FFF, 0x8000);
    } else {
      YearStartsOnClosed(y);
      MondaysInOrder(-0x7FFF, y);
      MondaysInOrder(y, 0x8000);
    }
  }

  lemma ShortRange(y: int)
    ensures YearOk(ToShort(y))
  {
  }

  lemma WeekYearOf(n: int)
    ensures var y0 := ToShort(G.Civil(n + 3).year);
            FromDays(n).year == if n < YearStartsOn(y0) then ToShort(y0 - 1) else y0
  {
    hide YearStartsOn, G.FromDays, G.Civil, Weekday;
    G.FromDaysIsCivil(n + 3);
  }

  // The way back counts from where the year of the date is taken to start, with a week number of one byte.
  lemma BackFrom(n: int)
    ensures var w := FromDays(n);
            YearOk(w.year) && 1 <= w.weekday <= 7 && 0 <= w.week < 256 &&
            w.week == ToByte(TruncDiv(n - YearStartsOn(w.year), 7) + 1) &&
            ToDays(w) == YearStartsOn(w.year) + 7 * (w.week - 1) + w.weekday - 1
  {
    hide YearStartsOn, G.FromDays, G.Civil, G.YearStart, ToDays, Weekday, FirstMonday, ToShort;
    var w := FromDays(n);
    WeekYearOf(n);
    ShortRange(G.Civil(n + 3).year);
    ShortRange(ToShort(G.Civil(n + 3).year) - 1);
    SignedWeekday(n);
    StartsWithin(w.year);
    ToDaysClosed(w);
  }

  // A day too far from the start of its date's year does not come back.
  lemma FarDayFails(n: int)
    requires n < YearStartsOn(FromDays(n).year) - 7 || n >= YearStartsOn(FromDays(n).year) + 1785
    ensures ToDays(FromDays(n)) != n
  {
    hide FromDays, ToDays, YearStartsOn;
    BackFrom(n);
  }

  lemma MondaysAtTheEnds()
    ensures FirstMonday(0x8000) == 11248738 && FirstMonday(0x7FFF) > 0 && FirstMonday(-0x7FFF) < -100
  {
    hide G.YearStart;
    YearsAtTheEnds();
    YearSpan(0x7FFF);
    FirstMondayNear(0x7FFF);
    FirstMondayNear(-0x7FFF);
  }

  // The days of the week before the first one in range.
  lemma EarlyYear(n: int)
    requires FirstMonday(-0x7FFF) - 7 <= n < FirstMonday(-0x7FFF)
    ensures -0x8000 <= G.Civil(n + 3).year <= -0x7FFF
  {
    hide G.YearStart, G.Civil;
    FirstMondayNear(-0x7FFF);
    YearSpan(-0x8000);
    YearSpan(-0x7FFF);
    YearBetween(n + 3, -0x8000, -0x7FFF);
  }

  lemma EarlyDayFails(n: int)
    requires n < FirstMonday(-0x7FFF)
    ensures ToDays(FromDays(n)) != n
  {
    hide FromDays, ToDays, YearStartsOn, G.YearStart, G.Civil, FirstMonday;
    BackFrom(n);
    StartsWithin(FromDays(n).year);
    if n >= FirstMonday(-0x7FFF) - 7 {
      WeekYearOf(n);
      EarlyYear(n);
      FirstYearStartsOn();
      StartsWithin(0x7FFF);
      StartsWithin(-0x7FFF);
      MondaysAtTheEnds();
    }
    FarDayFails(n);
  }

  lemma LowYearStarts(y: int)
    requires -0x7FFF <= y <= -0x7FF6
    ensures FirstMonday(y) < 100
  {
    YearsApart(y, 1970);
    FirstMondayNear(y);
  }

  lemma LateDayFails(n: int)
    requires n + 3 >= G.YearStart(0x8001)
    ensures ToDays(FromDays(n)) != n
  {
    hide FromDays, ToDays, YearStartsOn, G.YearStart, G.Civil, FirstMonday;
    YearsAtTheEnds();
    WeekYearOf(n);
    var y0 := ToShort(G.Civil(n + 3).year);
    ShortRange(G.Civil(n + 3).year);
    StartsWithin(y0);
    if n + 3 < G.YearStart(0x8001) + 2000 {
      TenYears(0x8001);
      YearBetween(n + 3, 0x8001, 0x800A);
      assert y0 == G.Civil(n + 3).year - 0x1_0000;
      LowYearStarts(y0);
    }
    FarDayFails(n);
  }

  // The days that come back: those of the years after the first 16-bit year, and the year after the last but for its
  // end, which is read as the first.
  predicate DayComesBack(n: int) {
    FirstMonday(-0x7FFF) <= n && n + 3 < G.YearStart(0x8001)
  }

  lemma WeekdayFrom(n: int)
    ensures FromDays(n).weekday == (n + 3) % 7 + 1
  {
    hide YearStartsOn, G.FromDays, Weekday;
    SignedWeekday(n);
  }

  // The year after the last one is taken for the first one, and counted from the same day.
  lemma YearAfterLastInverts(n: int)
    requires FirstMonday(0x8000) <= n && n + 3 < G.YearStart(0x8001)
    ensures ToDays(FromDays(n)) == n
  {
    hide FromDays, ToDays, YearStartsOn, G.YearStart, G.Civil;
    YearsAtTheEnds();
    YearBetween(n + 3, 0x8000, 0x8000);
    WeekYearOf(n);
    FirstYearStartsOn();
    BackFrom(n);
    WeekdayFrom(n);
  }

  /** Days to week date and back is the identity exactly on these days, for every day whatever. */
  lemma FromDaysInverts(n: int)
    ensures ToDays(FromDays(n)) == n <==> DayComesBack(n)
  {
    hide FromDays, ToDays, G.YearStart;
    YearsAtTheEnds();
    if n < FirstMonday(-0x7FFF) {
      EarlyDayFails(n);
    } else if n + 3 >= G.YearStart(0x8001) {
      LateDayFails(n);
    } else if n < FirstMonday(0x8000) {
      DayInRangeInverts(n);
    } else {
      YearAfterLastInverts(n);
    }
  }

  /** Week date to days and back is the identity on every date that the library calls ok, except exactly for what
      runs past week 52 of the first 16-bit year. */
  lemma ToDaysInverts(w: WeekDate)
    requires Ok(w)
    ensures FromDays(ToDays(w)) == w <==> w.year != -0x8000 || 7 * w.week + w.weekday < 371
  {
    hide Ok, FromDays, ToDays;
    if w.year == -0x8000 {
      FirstYearInverts(w);
    } else {
      OrdinaryYearInverts(w);
    }
  }
}
