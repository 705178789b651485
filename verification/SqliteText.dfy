// The text form of dates and times that the SQLite connector binds as parameters and reads back from result rows.
module SqliteText {
  import opened Calendar
  import opened DecimalText
  import opened Truncation
  import opened Wrappers
  import G = Gregorian

  const MICROS_PER_MILLI := 1000
  const MICROS_PER_DAY := 86400000000

  // ---------- printing ----------

  function YearText(y: int): string {
    (if y < 0 then "-" + Padded(-y, 4) else Padded(y, 4)) +
    if G.YearOk(y) then "" else " is not a valid year"
  }

  function DateText(t: Date): string
    requires 0 <= t.month && 0 <= t.day
  {
    YearText(t.year) + "-" + Padded(t.month, 2) + "-" + Padded(t.day, 2) +
    if G.Ok(t) then "" else " is not a valid date"
  }

  // Hours, minutes, seconds and milliseconds of a duration in milliseconds.
  function TimeText(d: int): string {
    var a := if d < 0 then -d else d;
    var (h, m, s, ms) := (a / 3600000, a / 60000 % 60, a / 1000 % 60, a % 1000);
    (if d < 0 then "-" else "") +
    (if h < 10 then "0" else "") + Numeral(h) + ":" +
    (if m < 10 then "0" else "") + Numeral(m) + ":" +
    Padded(s, 2) + "." + Padded(ms, 3)
  }

  // The day and the time of day of a time point in microseconds.
  function DayOf(t: int): int {
    t / MICROS_PER_DAY
  }

  function MillisOfDay(t: int): int {
    (t - DayOf(t) * MICROS_PER_DAY) / MICROS_PER_MILLI
  }

  lemma FieldsOfDay(day: int)
    ensures var t := G.FromDays(day);
            1 <= t.month <= 12 && 1 <= t.day <= 31 && t == G.Civil(day).(year := ToShort(G.Civil(day).year))
  {
    hide G.Civil, G.FromDays, G.ToDays;
    G.FromDaysIsCivil(day);
    G.CivilInverts(day);
  }

  function DateTimeText(t: int): string {
    FieldsOfDay(DayOf(t));
    DateText(G.FromDays(DayOf(t))) + " " + TimeText(MillisOfDay(t))
  }

  // ---------- reading ----------

  const DATE_DIGITS := [true, true, true, true, false, true, true, false, true, true]
  const TIME_DIGITS := [false, true, true, false, true, true, false, true, true]
  const MS_DIGITS := [false, true, true, true]

  // The character a pointer into a zero-terminated string sees; reading past the terminator is not allowed.
  function CharAt(s: string, i: nat): char
    requires i <= |s|
  {
    if i < |s| then s[i] else '\0'
  }

  predicate Matches(s: string, flags: seq<bool>) {
    && |flags| <= |s|
    && forall i :: 0 <= i < |flags| ==> if flags[i] then IsDigit(s[i]) else !IsDigit(s[i]) && s[i] != '\0'
  }

  /** Compares a text with a digit pattern, without ever reading past its terminator. */
  method CheckDigits(text: string, digitFlags: seq<bool>) returns (ok: bool)
    ensures ok <==> Matches(text, digitFlags)
  {
    var p := 0;
    for k := 0 to |digitFlags|
      invariant p == k <= |text|
      invariant forall i :: 0 <= i < k ==> if digitFlags[i] then IsDigit(text[i]) else !IsDigit(text[i]) && text[i] != '\0'
    {
      if digitFlags[k] {
        if !IsDigit(CharAt(text, p)) {
          return false;
        }
      } else {
        if IsDigit(CharAt(text, p)) || CharAt(text, p) == '\0' {
          return false;
        }
      }
      p := p + 1;
    }
    return true;
  }

  function ReadDate(s: string): int
    requires |s| >= 10
  {
    G.ToDays(Date(ToShort(Atoi(s, 0)), Atoi(s, 5) % 256, Atoi(s, 8) % 256))
  }

  function ParseDate(s: string): int {
    if Matches(s, DATE_DIGITS) then ReadDate(s) else 0
  }

  function ParseMillis(s: string): int {
    if Matches(s, MS_DIGITS) && CharAt(s, 4) == '\0' then Atoi(s, 1) else 0
  }

  // Milliseconds after midnight.
  function ParseTime(s: string): int {
    if Matches(s, TIME_DIGITS) then
      3600000 * Atoi(s, 1) + 60000 * Atoi(s, 4) + 1000 * Atoi(s, 7) + ParseMillis(s[9..])
    else 0
  }

  function ParseDateTime(s: string): int {
    if Matches(s, DATE_DIGITS) then
      ReadDate(s) * MICROS_PER_DAY + ParseTime(s[10..]) * MICROS_PER_MILLI
    else 0
  }

  // ---------- what a column's text means, position by position ----------

  // A character that is neither a digit nor the terminator.
  predicate IsSeparator(c: char) {
    !IsDigit(c) && c != '\0'
  }

  predicate DateShape(s: string) {
    && |s| >= 10
    && AllDigits(s[..4]) && IsSeparator(s[4]) && AllDigits(s[5..7]) && IsSeparator(s[7]) && AllDigits(s[8..10])
  }

  predicate TimeShape(s: string) {
    && |s| >= 19
    && IsSeparator(s[10]) && AllDigits(s[11..13]) && IsSeparator(s[13]) && AllDigits(s[14..16]) && IsSeparator(s[16])
    && AllDigits(s[17..19])
  }

  // One separator, exactly three digits, and the end of the text.
  predicate FractionShape(s: string) {
    && |s| >= 23
    && IsSeparator(s[19]) && AllDigits(s[20..23]) && (|s| == 23 || s[23] == '\0')
  }

  // A run of digits from one position to another, as far as it goes.
  predicate RunEnds(s: string, i: nat, e: nat) {
    i <= e <= |s| && AllDigits(s[i..e]) && (e < |s| ==> !IsDigit(s[e]))
  }

  lemma RunIs(s: string, i: nat, e: nat)
    requires RunEnds(s, i, e)
    ensures Atoi(s, i) == Value(s[i..e])
  {
    DigitRunIs(s, i, e);
  }

  lemma AtoiFrom(s: string, k: nat, i: nat)
    requires k + i <= |s|
    ensures Atoi(s[k..], i) == Atoi(s, k + i)
  {
    var e := DigitRun(s, k + i);
    assert s[k..][i..e - k] == s[k + i..e];
    DigitRunIs(s[k..], i, e - k);
  }

  lemma DigitsAre(s: string, i: nat, j: nat)
    requires i <= j <= |s|
    ensures AllDigits(s[i..j]) <==> forall k :: i <= k < j ==> IsDigit(s[k])
  {
    if AllDigits(s[i..j]) {
      forall k | i <= k < j ensures IsDigit(s[k]) {
        assert s[k] == s[i..j][k - i];
      }
    }
  }

  lemma DateShapeIs(s: string)
    ensures DateShape(s) <==> Matches(s, DATE_DIGITS)
  {
    hide AllDigits, IsDigit;
    if |s| >= 10 {
      DigitsAre(s, 0, 4);
      DigitsAre(s, 5, 7);
      DigitsAre(s, 8, 10);
      assert s[0..4] == s[..4];
      assert |DATE_DIGITS| == 10;
    }
  }

  lemma TimeShapeIs(s: string)
    requires |s| >= 10
    ensures TimeShape(s) <==> Matches(s[10..], TIME_DIGITS)
  {
    hide AllDigits, IsDigit;
    if |s| >= 19 {
      DigitsAre(s, 11, 13);
      DigitsAre(s, 14, 16);
      DigitsAre(s, 17, 19);
      assert forall k :: 0 <= k < 9 ==> s[10..][k] == s[10 + k];
    }
  }

  lemma FractionShapeIs(s: string)
    requires |s| >= 19
    ensures FractionShape(s) <==> Matches(s[19..], MS_DIGITS) && CharAt(s[19..], 4) == '\0'
  {
    hide AllDigits, IsDigit;
    if |s| >= 23 {
      DigitsAre(s, 20, 23);
      assert forall k :: 0 <= k < 4 ==> s[19..][k] == s[19 + k];
    }
  }

  // The day of a text, whatever follows the digits of the day.
  ghost predicate DayIs(s: string, day: int)
    requires DateShape(s)
  {
    forall e: nat :: RunEnds(s, 8, e) ==> day == G.ToDays(Date(Value(s[..4]), Value(s[5..7]), Value(s[8..e]) % 256))
  }

  lemma SmallFields(s: string)
    requires DateShape(s)
    ensures Value(s[..4]) < 10000 && Value(s[5..7]) < 100
  {
    ValueBelow(s[..4]);
    ValueBelow(s[5..7]);
    assert Pow10(4) == 10000 && Pow10(2) == 100;
  }

  lemma DateMeaning(s: string)
    requires DateShape(s)
    ensures DayIs(s, ReadDate(s))
  {
    hide Value, Atoi, AllDigits, G.ToDays;
    SmallFields(s);
    assert s[0..4] == s[..4];
    RunIs(s, 0, 4);
    RunIs(s, 5, 7);
    forall e: nat | RunEnds(s, 8, e) ensures Atoi(s, 8) == Value(s[8..e]) {
      RunIs(s, 8, e);
    }
    ShortFits(Value(s[..4]));
  }

  // A day of exactly two digits.
  lemma TwoDigitDay(s: string, day: int)
    requires DateShape(s) && |s| > 10 && !IsDigit(s[10]) && DayIs(s, day)
    ensures day == G.ToDays(Date(Value(s[..4]), Value(s[5..7]), Value(s[8..10])))
  {
    hide Value, G.ToDays;
    assert RunEnds(s, 8, 10);
    ValueBelow(s[8..10]);
    assert Pow10(2) == 100;
  }

  // The time of day in microseconds.
  ghost predicate MicrosAre(s: string, micros: int)
    requires TimeShape(s)
  {
    forall e: nat :: RunEnds(s, 17, e) ==>
      micros == Value(s[11..13]) * 3600000000 + Value(s[14..16]) * 60000000 + Value(s[17..e]) * 1000000 +
                if FractionShape(s) then Value(s[20..23]) * 1000 else 0
  }

  lemma FractionMeaning(s: string)
    requires |s| >= 19
    ensures ParseMillis(s[19..]) == if FractionShape(s) then Value(s[20..23]) else 0
  {
    hide Value, AllDigits;
    FractionShapeIs(s);
    if FractionShape(s) {
      AtoiFrom(s, 19, 1);
      RunIs(s, 20, 23);
    }
  }

  lemma TimeMeaning(s: string)
    requires TimeShape(s)
    ensures MicrosAre(s, ParseTime(s[10..]) * MICROS_PER_MILLI)
  {
    hide Value, Atoi, AllDigits, ParseMillis, Matches, FractionShape;
    TimeShapeIs(s);
    assert s[10..][9..] == s[19..];
    FractionMeaning(s);
    AtoiFrom(s, 10, 1);
    AtoiFrom(s, 10, 4);
    AtoiFrom(s, 10, 7);
    RunIs(s, 11, 13);
    RunIs(s, 14, 16);
    forall e: nat | RunEnds(s, 17, e) ensures Atoi(s, 17) == Value(s[17..e]) {
      RunIs(s, 17, e);
    }
  }

  // A text that starts with a date means its day; a time that follows is added, and then a fraction of exactly three
  // digits at the end of the text; any other ending adds nothing, and any other text means the epoch.
  ghost predicate MeansDateTime(s: string, value: int) {
    if !DateShape(s) then value == 0
    else if !TimeShape(s) then exists day :: DayIs(s, day) && value == day * MICROS_PER_DAY
    else exists micros :: MicrosAre(s, micros) &&
           value == G.ToDays(Date(Value(s[..4]), Value(s[5..7]), Value(s[8..10]))) * MICROS_PER_DAY + micros
  }

  /** The reader gives a text the value that it means. */
  lemma DateTimeMeaning(s: string)
    ensures MeansDateTime(s, ParseDateTime(s))
  {
    hide Value, AllDigits, Matches, ReadDate, DayIs, MicrosAre, G.ToDays;
    DateShapeIs(s);
    if DateShape(s) {
      DateMeaning(s);
      TimeShapeIs(s);
      if TimeShape(s) {
        TwoDigitDay(s, ReadDate(s));
        TimeMeaning(s);
      }
    }
  }

  method BindDateResult(column: Option<string>) returns (value: int, isNull: bool)
    ensures isNull == column.None?
    ensures value == if column.None? then 0 else ParseDate(column.value)
    ensures column.Some? && !DateShape(column.value) ==> value == 0
    ensures column.Some? && DateShape(column.value) ==> DayIs(column.value, value)
  {
    isNull := column.None?;
    if isNull {
      return 0, isNull;
    }
    var dateString := column.value;
    DateShapeIs(dateString);
    if DateShape(dateString) {
      DateMeaning(dateString);
    }
    var dateOk := CheckDigits(dateString, DATE_DIGITS);
    if dateOk {
      value := ReadDate(dateString);
    } else {
      value := 0;
    }
  }

  method BindDateTimeResult(column: Option<string>) returns (value: int, isNull: bool)
    ensures isNull == column.None?
    ensures value == if column.None? then 0 else ParseDateTime(column.value)
    ensures column.Some? ==> MeansDateTime(column.value, value)
  {
    isNull := column.None?;
    if isNull {
      return 0, isNull;
    }
    hide MeansDateTime, Value, Atoi, AllDigits, IsDigit, ReadDate;
    var dateTimeString := column.value;
    DateTimeMeaning(dateTimeString);
    var ok := CheckDigits(dateTimeString, DATE_DIGITS);
    if ok {
      value := ReadDate(dateTimeString) * MICROS_PER_DAY;
    } else {
      return 0, isNull;
    }
    var timeString := dateTimeString[10..];
    ok := CheckDigits(timeString, TIME_DIGITS);
    if ok {
      value := value + 3600000000 * Atoi(timeString, 1) + 60000000 * Atoi(timeString, 4) + 1000000 * Atoi(timeString, 7);
    } else {
      return value, isNull;
    }
    var msString := timeString[9..];
    ok := CheckDigits(msString, MS_DIGITS);
    if ok && CharAt(msString, 4) == '\0' {
      value := value + MICROS_PER_MILLI * Atoi(msString, 1);
    }
  }

  // ---------- reading back what was printed ----------

  // The years that the pattern of the reader can hold.
  predicate PlainYear(day: int) {
    0 <= G.Civil(day).year <= 9999
  }

  // A field of digits inside a longer text.
  predicate FieldAt(s: string, i: nat, f: string) {
    && i + |f| <= |s|
    && s[i..i + |f|] == f
    && AllDigits(f)
    && (i + |f| < |s| ==> !IsDigit(s[i + |f|]))
  }

  lemma FieldReads(s: string, i: nat, f: string)
    requires FieldAt(s, i, f)
    ensures Atoi(s, i) == Value(f)
  {
    DigitRunIs(s, i, i + |f|);
  }

  lemma TwoDigits(n: nat)
    requires n < 100
    ensures (if n < 10 then "0" else "") + Numeral(n) == Padded(n, 2)
    ensures |Padded(n, 2)| == 2 && AllDigits(Padded(n, 2)) && Value(Padded(n, 2)) == n
  {
    assert Zeros(1) == "0";
    assert Pow10(2) == 100 && Pow10(1) == 10;
    NumeralLength(n, 1);
    NumeralLength(n, 2);
    PaddedValue(n, 2);
  }

  lemma ThreeDigits(n: nat)
    requires n < 1000
    ensures |Padded(n, 3)| == 3 && AllDigits(Padded(n, 3)) && Value(Padded(n, 3)) == n
  {
    assert Pow10(3) == 1000;
    PaddedLength(n, 3);
    PaddedValue(n, 3);
  }

  lemma FourDigits(n: nat)
    ensures |Padded(n, 4)| >= 4 && (|Padded(n, 4)| == 4 <==> n < 10000)
    ensures AllDigits(Padded(n, 4)) && Value(Padded(n, 4)) == n
  {
    assert Pow10(4) == 10000;
    PaddedLength(n, 4);
    PaddedValue(n, 4);
  }

  lemma DateLayout(y: string, m: string, d: string, rest: string)
    requires |y| == 4 && |m| == 2 && |d| == 2 && AllDigits(y) && AllDigits(m) && AllDigits(d)
    requires rest == "" || !IsDigit(rest[0])
    ensures var s := y + "-" + m + "-" + d + rest;
            FieldAt(s, 0, y) && s[4] == '-' && FieldAt(s, 5, m) && s[7] == '-' && FieldAt(s, 8, d)
  {
    var s := y + "-" + m + "-" + d + rest;
    assert s[0..4] == y;
    assert s[5..7] == m;
    assert s[8..10] == d;
  }

  lemma DatePattern(s: string, y: string, m: string, d: string)
    requires |y| == 4 && |m| == 2 && |d| == 2
    requires FieldAt(s, 0, y) && FieldAt(s, 5, m) && FieldAt(s, 8, d) && s[4] == '-' && s[7] == '-'
    ensures Matches(s, DATE_DIGITS)
  {
    assert forall i :: 0 <= i < 4 ==> s[i] == y[i];
    assert forall i :: 5 <= i < 7 ==> s[i] == m[i - 5];
    assert forall i :: 8 <= i < 10 ==> s[i] == d[i - 8];
  }

  lemma DateFields(y: string, m: string, d: string, rest: string)
    requires |y| == 4 && |m| == 2 && |d| == 2 && AllDigits(y) && AllDigits(m) && AllDigits(d)
    requires rest == "" || !IsDigit(rest[0])
    ensures var s := y + "-" + m + "-" + d + rest;
            Matches(s, DATE_DIGITS) && Atoi(s, 0) == Value(y) && Atoi(s, 5) == Value(m) && Atoi(s, 8) == Value(d)
  {
    hide Value, Atoi, Matches;
    var s := y + "-" + m + "-" + d + rest;
    DateLayout(y, m, d, rest);
    FieldReads(s, 0, y);
    FieldReads(s, 5, m);
    FieldReads(s, 8, d);
    DatePattern(s, y, m, d);
  }

  lemma TimeLayout(h: string, m: string, s: string, rest: string)
    requires |h| == 2 && |m| == 2 && |s| == 2 && AllDigits(h) && AllDigits(m) && AllDigits(s)
    requires rest == "" || !IsDigit(rest[0])
    ensures var t := " " + h + ":" + m + ":" + s + rest;
            t[0] == ' ' && FieldAt(t, 1, h) && t[3] == ':' && FieldAt(t, 4, m) && t[6] == ':' && FieldAt(t, 7, s) &&
            t[9..] == rest
  {
    var t := " " + h + ":" + m + ":" + s + rest;
    assert t[1..3] == h;
    assert t[4..6] == m;
    assert t[7..9] == s;
  }

  lemma TimePattern(t: string, h: string, m: string, s: string)
    requires |h| == 2 && |m| == 2 && |s| == 2
    requires FieldAt(t, 1, h) && FieldAt(t, 4, m) && FieldAt(t, 7, s) && t[0] == ' ' && t[3] == ':' && t[6] == ':'
    ensures Matches(t, TIME_DIGITS)
  {
    assert forall i :: 1 <= i < 3 ==> t[i] == h[i - 1];
    assert forall i :: 4 <= i < 6 ==> t[i] == m[i - 4];
    assert forall i :: 7 <= i < 9 ==> t[i] == s[i - 7];
  }

  lemma TimeFields(h: string, m: string, s: string, rest: string)
    requires |h| == 2 && |m| == 2 && |s| == 2 && AllDigits(h) && AllDigits(m) && AllDigits(s)
    requires rest == "" || !IsDigit(rest[0])
    ensures var t := " " + h + ":" + m + ":" + s + rest;
            |t| >= 9 && t[9..] == rest &&
            ParseTime(t) == 3600000 * Value(h) + 60000 * Value(m) + 1000 * Value(s) + ParseMillis(rest)
  {
    hide Value, Atoi, Matches, ParseMillis;
    var t := " " + h + ":" + m + ":" + s + rest;
    TimeLayout(h, m, s, rest);
    FieldReads(t, 1, h);
    FieldReads(t, 4, m);
    FieldReads(t, 7, s);
    TimePattern(t, h, m, s);
  }

  lemma MillisField(f: string)
    requires |f| == 3 && AllDigits(f)
    ensures ParseMillis("." + f) == Value(f)
  {
    var s := "." + f;
    assert s[1..4] == f;
    FieldReads(s, 1, f);
  }

  lemma TimeTextPadded(d: int)
    requires 0 <= d < 86400000
    ensures TimeText(d) == Padded(d / 3600000, 2) + ":" + Padded(d / 60000 % 60, 2) + ":" +
                           Padded(d / 1000 % 60, 2) + "." + Padded(d % 1000, 3)
  {
    hide Padded, Numeral;
    TwoDigits(d / 3600000);
    TwoDigits(d / 60000 % 60);
  }

  lemma TimeSplit(d: int)
    requires 0 <= d
    ensures 3600000 * (d / 3600000) + 60000 * (d / 60000 % 60) + 1000 * (d / 1000 % 60) + d % 1000 == d
  {
    QuotientIs(d / 60000, 60, d / 3600000, d / 60000 % 60);
  }

  lemma TimeRoundTrip(d: int)
    requires 0 <= d < 86400000
    ensures ParseTime(" " + TimeText(d)) == d
  {
    hide Padded, Value, ParseMillis, ParseTime, TimeText, AllDigits;
    var (h, m, s, ms) := (Padded(d / 3600000, 2), Padded(d / 60000 % 60, 2), Padded(d / 1000 % 60, 2), Padded(d % 1000, 3));
    TimeTextPadded(d);
    TwoDigits(d / 3600000);
    TwoDigits(d / 60000 % 60);
    TwoDigits(d / 1000 % 60);
    ThreeDigits(d % 1000);
    TimeFields(h, m, s, "." + ms);
    MillisField(ms);
    assert " " + TimeText(d) == " " + h + ":" + m + ":" + s + ("." + ms);
    TimeSplit(d);
  }

  // What follows a date that is no date of the calendar.
  function Remark(t: Date): string {
    if G.Ok(t) then "" else " is not a valid date"
  }

  lemma PlainDateReads(t: Date, rest: string)
    requires 0 <= t.year <= 9999 && 1 <= t.month <= 12 && 1 <= t.day <= 31 && (rest == "" || !IsDigit(rest[0]))
    ensures var s := DateText(t) + rest;
            Matches(s, DATE_DIGITS) && s[10..] == Remark(t) + rest && ReadDate(s) == G.ToDays(t)
  {
    hide Padded, Value, G.ToDays, G.Ok, Atoi, Matches, AllDigits;
    var (y, m, d) := (Padded(t.year, 4), Padded(t.month, 2), Padded(t.day, 2));
    FourDigits(t.year);
    TwoDigits(t.month);
    TwoDigits(t.day);
    DateFields(y, m, d, Remark(t) + rest);
    assert DateText(t) + rest == y + "-" + m + "-" + d + (Remark(t) + rest);
    ShortFits(t.year);
  }

  lemma OddDateFails(t: Date, rest: string)
    requires !(0 <= t.year <= 9999) && 1 <= t.month <= 12 && 1 <= t.day <= 31
    ensures !Matches(DateText(t) + rest, DATE_DIGITS)
  {
    hide Padded, G.Ok;
    var s := DateText(t) + rest;
    if t.year < 0 {
      assert s[0] == '-';
    } else {
      FourDigits(t.year);
      assert s[4] == Padded(t.year, 4)[4];
    }
  }

  // The years that the pattern of the reader can hold, as they are printed.
  predicate PrintsPlain(day: int) {
    0 <= G.FromDays(day).year <= 9999
  }

  // For every day, even one whose year does not fit 16 bits: the date part of the text reads as the printed date,
  // whatever non-digit follows it.
  lemma DateTextReads(day: int, rest: string)
    requires rest == "" || !IsDigit(rest[0])
    ensures var t := G.FromDays(day);
            1 <= t.month <= 12 && 1 <= t.day <= 31 &&
            var s := DateText(t) + rest;
            if PrintsPlain(day) then Matches(s, DATE_DIGITS) && ReadDate(s) == G.ToDays(t) && s[10..] == Remark(t) + rest
            else !Matches(s, DATE_DIGITS)
  {
    hide DateText, Remark, Matches, ReadDate, G.ToDays, G.FromDays, G.Civil;
    FieldsOfDay(day);
    if PrintsPlain(day) {
      PlainDateReads(G.FromDays(day), rest);
    } else {
      OddDateFails(G.FromDays(day), rest);
    }
  }

  lemma InRangePrints(day: int)
    requires G.DayInRange(day)
    ensures G.Ok(G.FromDays(day)) && G.ToDays(G.FromDays(day)) == day && (PrintsPlain(day) <==> PlainYear(day))
  {
    hide G.ToDays, G.FromDays, G.Civil, G.DayInRange;
    G.FromDaysInverts(day);
    G.FromDaysIsCivil(day);
    G.InRange(day);
    ShortFits(G.Civil(day).year);
  }

  // A date with a four-digit year is a day of a representable year, even when it is not a date of the calendar.
  lemma PlainDatesInRange(t: Date)
    requires 0 <= t.year <= 9999 && 1 <= t.month <= 12 && 1 <= t.day <= 31
    ensures G.DayInRange(G.ToDays(t))
  {
    G.ToDaysClosed(t);
    G.ToDaysClosed(Date(-0x7FFF, 1, 1));
    G.ToDaysClosed(Date(0x7FFF, 12, 31));
  }

  lemma PlainYearInRange(day: int)
    requires PlainYear(day)
    ensures G.DayInRange(day)
  {
    hide G.Civil, G.DayInRange;
    G.InRange(day);
  }

  /** For every day: the printed date reads as the day of the printed date, or as the epoch where its year needs more or
      fewer characters than four digits. */
  lemma PrintedDateReads(day: int)
    ensures 1 <= G.FromDays(day).month && 1 <= G.FromDays(day).day
    ensures ParseDate(DateText(G.FromDays(day))) == if PrintsPlain(day) then G.ToDays(G.FromDays(day)) else 0
  {
    hide DateText, Remark, ReadDate, G.FromDays, G.ToDays, PrintsPlain, Matches;
    DateTextReads(day, "");
    assert DateText(G.FromDays(day)) + "" == DateText(G.FromDays(day));
  }

  lemma EpochIsPlain()
    ensures PlainYear(0)
  {
  }

  // A day whose year does not fit 16 bits cannot come back.
  lemma NotBack(day: int)
    requires !G.DayInRange(day)
    ensures !PlainYear(day) && day != 0
    ensures PrintsPlain(day) ==> G.ToDays(G.FromDays(day)) != day
  {
    hide G.FromDays, G.ToDays, G.Civil, G.DayInRange;
    FieldsOfDay(day);
    if PrintsPlain(day) {
      PlainDatesInRange(G.FromDays(day));
    }
    if PlainYear(day) {
      PlainYearInRange(day);
    }
    EpochIsPlain();
    PlainYearInRange(0);
  }

  /** It reads back as the day itself exactly for the years 0 to 9999; every other representable year gives the epoch. */
  lemma DateRoundTrip(day: int)
    ensures 1 <= G.FromDays(day).month && 1 <= G.FromDays(day).day
    ensures ParseDate(DateText(G.FromDays(day))) == day <==> PlainYear(day)
    ensures G.DayInRange(day) && !PlainYear(day) ==> ParseDate(DateText(G.FromDays(day))) == 0
  {
    hide DateText, ReadDate, ParseDate, G.FromDays, G.ToDays, G.Civil, G.DayInRange;
    PrintedDateReads(day);
    if G.DayInRange(day) {
      InRangePrints(day);
      EpochIsPlain();
    } else {
      NotBack(day);
    }
  }

  // After a remark no time is read.
  lemma RemarkHidesTime(rest: string)
    ensures ParseTime(" is not a valid date" + rest) == 0
  {
    assert (" is not a valid date" + rest)[1] == 'i';
  }

  lemma MillisSplit(t: int)
    ensures 0 <= MillisOfDay(t) < 86400000
    ensures DayOf(t) * MICROS_PER_DAY + MillisOfDay(t) * MICROS_PER_MILLI == t / MICROS_PER_MILLI * MICROS_PER_MILLI
  {
    var r := t - DayOf(t) * MICROS_PER_DAY;
    QuotientIs(t, MICROS_PER_MILLI, DayOf(t) * 86400000 + r / MICROS_PER_MILLI, r % MICROS_PER_MILLI);
  }

  // What a printed time point reads as: a printed date that is none of the calendar loses its time.
  function Reread(t: int): int {
    var date := G.FromDays(DayOf(t));
    if PrintsPlain(DayOf(t)) then
      G.ToDays(date) * MICROS_PER_DAY + if G.Ok(date) then MillisOfDay(t) * MICROS_PER_MILLI else 0
    else 0
  }

  /** For every time point, even one whose year does not fit 16 bits. */
  lemma PrintedDateTimeReads(t: int)
    ensures ParseDateTime(DateTimeText(t)) == Reread(t)
  {
    hide DateText, TimeText, ReadDate, G.FromDays, G.ToDays, G.Ok, PrintsPlain, ParseTime, Matches;
    var (date, rest) := (G.FromDays(DayOf(t)), " " + TimeText(MillisOfDay(t)));
    DateTextReads(DayOf(t), rest);
    assert DateTimeText(t) == DateText(date) + rest;
    MillisSplit(t);
    TimeRoundTrip(MillisOfDay(t));
    RemarkHidesTime(rest);
    assert "" + rest == rest;
  }

  predicate Representable(t: int) {
    G.DayInRange(DayOf(t))
  }

  /** A printed time point reads back floored to milliseconds, or as the epoch when its year needs more or fewer
      characters than four digits. */
  lemma DateTimeRoundTrip(t: int)
    requires Representable(t)
    ensures ParseDateTime(DateTimeText(t)) == if PlainYear(DayOf(t)) then t / MICROS_PER_MILLI * MICROS_PER_MILLI else 0
  {
    hide DateTimeText, ParseDateTime, G.FromDays, G.ToDays, G.Ok, PrintsPlain, PlainYear, G.DayInRange;
    PrintedDateTimeReads(t);
    InRangePrints(DayOf(t));
    MillisSplit(t);
  }

  lemma RereadDay(t: int)
    ensures DayOf(Reread(t)) == if PrintsPlain(DayOf(t)) then G.ToDays(G.FromDays(DayOf(t))) else 0
  {
    hide G.FromDays, G.ToDays, G.Ok, PrintsPlain;
    MillisSplit(t);
    var day := G.ToDays(G.FromDays(DayOf(t)));
    QuotientIs(day * MICROS_PER_DAY + MillisOfDay(t) * MICROS_PER_MILLI, MICROS_PER_DAY, day,
               MillisOfDay(t) * MICROS_PER_MILLI);
    QuotientIs(day * MICROS_PER_DAY, MICROS_PER_DAY, day, 0);
  }

  // Dropping the fraction of a millisecond keeps the day.
  lemma FlooredDay(t: int)
    ensures DayOf(t / MICROS_PER_MILLI * MICROS_PER_MILLI) == DayOf(t)
  {
    MillisSplit(t);
    QuotientIs(t / MICROS_PER_MILLI * MICROS_PER_MILLI, MICROS_PER_DAY, DayOf(t), MillisOfDay(t) * MICROS_PER_MILLI);
  }

  /** For every time point, reading back gives the time floored to milliseconds exactly for the years 0 to 9999. */
  lemma DateTimeRoundTripIff(t: int)
    ensures ParseDateTime(DateTimeText(t)) == t / MICROS_PER_MILLI * MICROS_PER_MILLI <==> PlainYear(DayOf(t))
  {
    hide G.Civil, DateTimeText, ParseDateTime, G.FromDays, G.ToDays, G.Ok, PrintsPlain, PlainYear, G.DayInRange;
    if Representable(t) {
      DateTimeRoundTrip(t);
      EpochIsPlain();
      FlooredDay(t);
    } else {
      PrintedDateTimeReads(t);
      NotBack(DayOf(t));
      FlooredDay(t);
      FlooredDay(Reread(t));
      RereadDay(t);
    }
  }

  // A text of 23 characters: YYYY-MM-DD hh:mm:ss.mmm
  predicate StampLayout(s: string) {
    && |s| == 23
    && s[4] == s[7] == '-' && s[10] == ' ' && s[13] == s[16] == ':' && s[19] == '.'
    && AllDigits(s[..4]) && AllDigits(s[5..7]) && AllDigits(s[8..10])
    && AllDigits(s[11..13]) && AllDigits(s[14..16]) && AllDigits(s[17..19]) && AllDigits(s[20..])
  }

  lemma StampFields(y: string, m: string, d: string, h: string, mi: string, sec: string, ms: string)
    requires |y| == 4 && |m| == |d| == |h| == |mi| == |sec| == 2 && |ms| == 3
    ensures var s := y + "-" + m + "-" + d + " " + (h + ":" + mi + ":" + sec + "." + ms);
            |s| == 23 && s[4] == s[7] == '-' && s[10] == ' ' && s[13] == s[16] == ':' && s[19] == '.' &&
            s[..4] == y && s[5..7] == m && s[8..10] == d && s[11..13] == h && s[14..16] == mi && s[17..19] == sec && s[20..] == ms
  {
  }

  /** Every time point with a year from 0 to 9999 is printed in the one fixed layout, field by field. */
  lemma PrintedLayout(t: int)
    requires PlainYear(DayOf(t))
    ensures var s := DateTimeText(t); var ymd, ms := G.Civil(DayOf(t)), MillisOfDay(t);
            StampLayout(s) &&
            Value(s[..4]) == ymd.year && Value(s[5..7]) == ymd.month && Value(s[8..10]) == ymd.day &&
            Value(s[11..13]) * 3600000 + Value(s[14..16]) * 60000 + Value(s[17..19]) * 1000 + Value(s[20..]) == ms
  {
    hide Padded, Value, AllDigits, TimeText, G.FromDays, G.Civil, G.DayInRange, MillisOfDay;
    var ymd, d := G.Civil(DayOf(t)), MillisOfDay(t);
    PlainYearInRange(DayOf(t));
    InRangePrints(DayOf(t));
    FieldsOfDay(DayOf(t));
    ShortFits(ymd.year);
    MillisSplit(t);
    FourDigits(ymd.year);
    TwoDigits(ymd.month);
    TwoDigits(ymd.day);
    TimeTextPadded(d);
    TwoDigits(d / 3600000);
    TwoDigits(d / 60000 % 60);
    TwoDigits(d / 1000 % 60);
    ThreeDigits(d % 1000);
    TimeSplit(d);
    StampFields(Padded(ymd.year, 4), Padded(ymd.month, 2), Padded(ymd.day, 2), Padded(d / 3600000, 2),
                Padded(d / 60000 % 60, 2), Padded(d / 1000 % 60, 2), Padded(d % 1000, 3));
    assert DateText(ymd) == Padded(ymd.year, 4) + "-" + Padded(ymd.month, 2) + "-" + Padded(ymd.day, 2);
  }

  lemma FiveDigits(n: nat)
    requires n < 100000
    ensures |Padded(n, 4)| <= 5
  {
    assert Pow10(5) == 100000;
    NumeralLength(n, 5);
  }

  /** A year is printed with its sign and at least four digits, as many as it needs. */
  lemma PrintedYear(y: int)
    requires G.YearOk(y)
    ensures var s := YearText(y); var digits := if y < 0 then s[1..] else s;
            (y < 0 ==> s[0] == '-') && AllDigits(digits) && Value(digits) == (if y < 0 then -y else y) &&
            |digits| >= 4 && (|digits| == 4 <==> -10000 < y < 10000) && (|digits| <= 5)
  {
    hide Padded, Value, AllDigits;
    var n := if y < 0 then -y else y;
    FourDigits(n);
    FiveDigits(n);
    if y < 0 {
      assert YearText(y) == "-" + Padded(n, 4);
      assert YearText(y)[1..] == Padded(n, 4);
    } else {
      assert YearText(y) == Padded(n, 4);
    }
  }

  // The numbers in the two texts below.
  lemma SomeNumerals()
    ensures Padded(100, 4) == "0100" && Padded(32768, 4) == "32768"
    ensures Padded(29, 2) == "29" && Padded(2, 2) == "02" && Padded(1, 2) == "01"
  {
    assert Numeral(10) == "1" + "0" && Numeral(100) == Numeral(10) + "0";
    assert Numeral(32) == "3" + "2" && Numeral(327) == Numeral(32) + "7" && Numeral(3276) == Numeral(327) + "6";
    assert Numeral(32768) == Numeral(3276) + "8";
    assert Numeral(29) == "2" + "9";
    assert Zeros(1) == "0";
  }

  lemma FirstYearText()
    ensures YearText(-0x8000) == "-32768 is not a valid year"
  {
    hide Padded;
    SomeNumerals();
    assert "-" + "32768" == "-32768";
  }

  lemma NoSuchDate(t: Date)
    requires t == Date(100, 2, 29)
    ensures !G.Ok(t)
  {
  }

  /** A wrapped year may turn a leap day into no date; it is printed all the same, with a remark. */
  lemma PrintedRemark()
    ensures DateText(Date(100, 2, 29)) == "0100-02-29 is not a valid date"
  {
    hide Padded, G.Ok;
    SomeNumerals();
    NoSuchDate(Date(100, 2, 29));
    assert YearText(100) == "0100";
    assert "0100" + "-" + "02" + "-" + "29" == "0100-02-29";
  }

  // ---------- parameters ----------

  /** The date parameter: None is bound as SQL NULL. */
  method BindDateParameter(value: Option<int>) returns (text: Option<string>)
    ensures value.None? ==> text.None?
    ensures value.Some? ==> 1 <= G.FromDays(value.value).month && 1 <= G.FromDays(value.value).day
    ensures value.Some? ==> text == Some(DateText(G.FromDays(value.value)))
    ensures value.Some? ==> (ParseDate(text.value) == value.value <==> PlainYear(value.value))
  {
    if value.None? {
      return None;
    }
    var ymd := G.FromDays(value.value);
    FieldsOfDay(value.value);
    var os := YearText(ymd.year);
    os := os + "-";
    os := os + Padded(ymd.month, 2);
    os := os + "-";
    os := os + Padded(ymd.day, 2);
    if !G.Ok(ymd) {
      os := os + " is not a valid date";
    }
    assert os == DateText(ymd);
    DateRoundTrip(value.value);
    text := Some(os);
  }

  /** The date-time parameter: None is bound as SQL NULL. */
  method BindDateTimeParameter(value: Option<int>) returns (text: Option<string>)
    ensures value.None? ==> text.None?
    ensures value.Some? ==> text == Some(DateTimeText(value.value))
    ensures value.Some? ==> (ParseDateTime(text.value) == value.value / MICROS_PER_MILLI * MICROS_PER_MILLI <==>
                             PlainYear(DayOf(value.value)))
  {
    hide DateText, TimeText, ParseDateTime, PlainYear, G.FromDays, G.ToDays;
    if value.None? {
      return None;
    }
    var dp := value.value / MICROS_PER_DAY;
    var time := (value.value - dp * MICROS_PER_DAY) / MICROS_PER_MILLI;
    FieldsOfDay(dp);
    var os := DateText(G.FromDays(dp));
    os := os + " ";
    os := os + TimeText(time);
    assert os == DateTimeText(value.value);
    DateTimeRoundTripIff(value.value);
    text := Some(os);
  }
}
