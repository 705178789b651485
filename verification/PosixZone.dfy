// POSIX time zone strings (section 8.3 of the POSIX.1-2017 Base Definitions): parsing a string into a zone and
// printing the zone's name.
module PosixZone {
  import opened DecimalText
  import opened Wrappers

  const HOUR := 3600
  const DEFAULT_TIME := 2 * HOUR

  datatype Rule =
    | Off
    | J(n: nat, time: int)
    | M(month: nat, week: nat, weekday: nat, time: int)
    | N(n: nat, time: int)

  datatype Zone = Zone(stdAbbrev: string, dstAbbrev: string, offset: int, save: int, startRule: Rule, endRule: Rule)

  predicate IsAlpha(c: char) {
    'A' <= c <= 'Z' || 'a' <= c <= 'z'
  }

  predicate AllAlpha(s: string) {
    forall i :: 0 <= i < |s| ==> IsAlpha(s[i])
  }

  // ---------- reading: every reader takes the remaining text and returns what it leaves ----------

  function DigitPrefix(t: string, limit: nat): (k: nat)
    ensures k <= |t| && k <= limit && AllDigits(t[..k])
    ensures k == limit || k == |t| || !IsDigit(t[k])
  {
    if limit == 0 || t == "" || !IsDigit(t[0]) then 0
    else
      var k := DigitPrefix(t[1..], limit - 1);
      assert t[..1 + k] == [t[0]] + t[1..][..k];
      1 + k
  }

  function AlphaPrefix(t: string): (k: nat)
    ensures k <= |t| && AllAlpha(t[..k]) && (k < |t| ==> !IsAlpha(t[k]))
  {
    if t == "" || !IsAlpha(t[0]) then 0
    else
      var k := AlphaPrefix(t[1..]);
      assert t[..1 + k] == [t[0]] + t[1..][..k];
      1 + k
  }

  // Position of the first closing bracket, or the length of the text.
  function UntilBracket(t: string): (k: nat)
    ensures k <= |t| && '>' !in t[..k] && (k < |t| ==> t[k] == '>')
  {
    if t == "" || t[0] == '>' then 0
    else
      var k := UntilBracket(t[1..]);
      assert t[..1 + k] == [t[0]] + t[1..][..k];
      1 + k
  }

  function ReadUnsigned(t: string, limit: nat, message: string): Result<(nat, string)> {
    if t == "" || !IsDigit(t[0]) then Err(message)
    else
      var k := DigitPrefix(t, limit);
      Ok((Value(t[..k]), t[k..]))
  }

  function LongEnough(name: string, rest: string): Result<(string, string)> {
    if |name| < 3 then Err("Found name to be shorter than 3 characters") else Ok((name, rest))
  }

  function ReadName(t: string): Result<(string, string)> {
    if t == "" then Err("Expected a name but found end of string")
    else if t[0] == '<' then
      var k := UntilBracket(t[1..]);
      if k == |t[1..]| then Err("Expected to find closing '>', but found end of string")
      else LongEnough(t[1..][..k], t[1..][k + 1..])
    else
      var k := AlphaPrefix(t);
      LongEnough(t[..k], t[k..])
  }

  function ReadUnsignedTime(t: string): (r: Result<(int, string)>)
    ensures r.Ok? ==> r.value.0 >= 0
  {
    if t == "" then Err("Expected to read unsigned time, but found end of string")
    else
      var (h, t1) :- ReadUnsigned(t, 2, "Expected to find hours [0, 24]");
      if t1 == "" || t1[0] != ':' then Ok((h * HOUR, t1))
      else
        var (m, t2) :- ReadUnsigned(t1[1..], 2, "Expected to find minutes [0, 59]");
        if t2 == "" || t2[0] != ':' then Ok((h * HOUR + m * 60, t2))
        else
          var (s, t3) :- ReadUnsigned(t2[1..], 2, "Expected to find seconds [0, 59]");
          Ok((h * HOUR + m * 60 + s, t3))
  }

  function ReadSignedTime(t: string): Result<(int, string)> {
    if t == "" then Err("Expected to read signed time, but found end of string")
    else if t[0] == '-' then
      var (x, rest) :- ReadUnsignedTime(t[1..]);
      Ok((-x, rest))
    else if t[0] == '+' then ReadUnsignedTime(t[1..])
    else ReadUnsignedTime(t)
  }

  // A weekday given as 7 is stored as 0.
  function StoredWeekday(wd: nat): nat {
    if wd != 7 then wd else 0
  }

  // The part of a rule before its optional time.
  function ReadDay(t: string): Result<(Rule, string)> {
    if t == "" then Err("Expected rule but found end of string")
    else if t[0] == 'J' then
      var (n, rest) :- ReadUnsigned(t[1..], 3, "Expected to find the Julian day [1, 365]");
      Ok((J(n, DEFAULT_TIME), rest))
    else if t[0] == 'M' then
      var (m, t1) :- ReadUnsigned(t[1..], 2, "Expected to find month [1, 12]");
      if t1 == "" || t1[0] != '.' then Err("Expected '.' after month")
      else
        var (n, t2) :- ReadUnsigned(t1[1..], 1, "Expected to find week number [1, 5]");
        if t2 == "" || t2[0] != '.' then Err("Expected '.' after weekday index")
        else
          var (wd, t3) :- ReadUnsigned(t2[1..], 1, "Expected to find day of week [0, 6]");
          Ok((M(m, n, StoredWeekday(wd), DEFAULT_TIME), t3))
    else if IsDigit(t[0]) then
      var (n, rest) :- ReadUnsigned(t, 3, "");
      Ok((N(n, DEFAULT_TIME), rest))
    else Err("Expected 'J', 'M', or a digit to start rule")
  }

  function WithTime(r: Rule, time: int): Rule {
    match r
    case Off => Off
    case J(n, _) => J(n, time)
    case M(m, n, wd, _) => M(m, n, wd, time)
    case N(n, _) => N(n, time)
  }

  function ReadDate(t: string): Result<(Rule, string)> {
    var (r, rest) :- ReadDay(t);
    if rest != "" && rest[0] == '/' then
      var (time, rest') :- ReadUnsignedTime(rest[1..]);
      Ok((WithTime(r, time), rest'))
    else Ok((r, rest))
  }

  function ReadRules(t: string): Result<(Rule, Rule)> {
    if t == "" || t[0] != ',' then Err("Expecting end of string or ',' to start rule")
    else
      var (start, t1) :- ReadDate(t[1..]);
      if t1 == "" || t1[0] != ',' then Err("Expecting ',' and then the ending rule")
      else
        var (end, t2) :- ReadDate(t1[1..]);
        if t2 != "" then Err("Found unexpected trailing characters") else Ok((start, end))
  }

  // What follows the daylight-saving abbreviation.
  function ReadSaving(t: string, offset: int): Result<(int, Rule, Rule)> {
    if t == "" then Ok((HOUR, Off, Off))
    else if t[0] == ',' then
      var (start, end) :- ReadRules(t);
      Ok((HOUR, start, end))
    else
      var (x, t1) :- ReadSignedTime(t);
      if t1 == "" then Ok((-x - offset, Off, Off))
      else
        var (start, end) :- ReadRules(t1);
        Ok((-x - offset, start, end))
  }

  function ParseZone(s: string): Result<Zone> {
    var (std, t1) :- ReadName(s);
    var (x, t2) :- ReadSignedTime(t1);
    if t2 == "" then Ok(Zone(std, "", -x, HOUR, Off, Off))
    else
      var (dst, t3) :- ReadName(t2);
      var (save, start, end) :- ReadSaving(t3, -x);
      Ok(Zone(std, dst, -x, save, start, end))
  }

  // ---------- printing ----------

  function TwoDigits(n: nat): string {
    (if n < 10 then "0" else "") + Numeral(n)
  }

  // Hours, then minutes and seconds only when they are needed.
  function TimeText(a: nat): string {
    var (h, m, s) := (a / HOUR, a / 60 % 60, a % 60);
    Numeral(h) +
    if m != 0 || s != 0 then ":" + TwoDigits(m) + (if s != 0 then ":" + TwoDigits(s) else "") else ""
  }

  // Offsets are printed west-positive.
  function OffsetText(off: int): string {
    if -off < 0 then "-" + TimeText(off) else TimeText(-off)
  }

  function RuleTimeText(time: int): string {
    if time != DEFAULT_TIME then "/" + TimeText(if time < 0 then -time else time) else ""
  }

  function DayText(r: Rule): string {
    match r
    case Off => ""
    case J(n, _) => "J" + Numeral(n)
    case M(m, n, wd, _) => "M" + Numeral(m) + "." + Numeral(n) + "." + Numeral(wd)
    case N(n, _) => Numeral(n)
  }

  function RuleTime(r: Rule): int {
    if r.Off? then DEFAULT_TIME else r.time
  }

  function RuleText(r: Rule): string {
    DayText(r) + RuleTimeText(RuleTime(r))
  }

  function RulesText(z: Zone): string {
    if !z.startRule.Off? then "," + RuleText(z.startRule) + "," + RuleText(z.endRule) else ""
  }

  function SavingText(z: Zone): string {
    (if z.save != HOUR then OffsetText(z.offset + z.save) else "") + RulesText(z)
  }

  function Name(z: Zone): string {
    z.stdAbbrev + OffsetText(z.offset) + if z.dstAbbrev != "" then z.dstAbbrev + SavingText(z) else ""
  }

  // ---------- what parsing guarantees ----------

  predicate RuleWellFormed(r: Rule) {
    match r
    case Off => true
    case J(n, time) => n < 1000 && time >= 0
    case M(m, n, wd, time) => m < 100 && n < 10 && wd < 10 && wd != 7 && time >= 0
    case N(n, time) => n < 1000 && time >= 0
  }

  predicate WellFormed(z: Zone) {
    && |z.stdAbbrev| >= 3
    && (z.dstAbbrev == "" || |z.dstAbbrev| >= 3)
    && '>' !in z.stdAbbrev && '>' !in z.dstAbbrev
    && RuleWellFormed(z.startRule) && RuleWellFormed(z.endRule)
    && (z.startRule.Off? <==> z.endRule.Off?)
    && (z.dstAbbrev == "" ==> z.save == HOUR && z.startRule.Off?)
  }

  lemma {:induction false} Pow10Monotone(a: nat, b: nat)
    requires a <= b
    ensures Pow10(a) <= Pow10(b)
    decreases b - a
  {
    Pow10Positive(b);
    if a < b {
      Pow10Monotone(a, b - 1);
      Pow10Positive(b - 1);
    }
  }

  lemma UnsignedBound(t: string, limit: nat)
    ensures var r := ReadUnsigned(t, limit, ""); r.Ok? ==> r.value.0 < Pow10(limit)
  {
    if t != "" && IsDigit(t[0]) {
      var k := DigitPrefix(t, limit);
      ValueBelow(t[..k]);
      Pow10Monotone(k, limit);
    }
  }

  lemma MessageIrrelevant(t: string, limit: nat, message: string)
    ensures var r := ReadUnsigned(t, limit, ""); var q := ReadUnsigned(t, limit, message);
            r.Ok? <==> q.Ok?
    ensures var r := ReadUnsigned(t, limit, ""); var q := ReadUnsigned(t, limit, message);
            r.Ok? ==> q.value == r.value
  {
  }

  lemma SmallPowers()
    ensures Pow10(1) == 10 && Pow10(2) == 100 && Pow10(3) == 1000
  {
    assert Pow10(0) == 1;
  }

  lemma DayWellFormed(t: string)
    ensures var r := ReadDay(t); r.Ok? ==> !r.value.0.Off? && RuleWellFormed(r.value.0)
  {
    hide ReadUnsigned, Pow10;
    SmallPowers();
    if t != "" {
      MessageIrrelevant(t[1..], 3, "Expected to find the Julian day [1, 365]");
      MessageIrrelevant(t[1..], 2, "Expected to find month [1, 12]");
      UnsignedBound(t[1..], 3);
      UnsignedBound(t[1..], 2);
      UnsignedBound(t, 3);
      var m := ReadUnsigned(t[1..], 2, "Expected to find month [1, 12]");
      if m.Ok? && m.value.1 != "" {
        var t1 := m.value.1;
        MessageIrrelevant(t1[1..], 1, "Expected to find week number [1, 5]");
        UnsignedBound(t1[1..], 1);
        var n := ReadUnsigned(t1[1..], 1, "Expected to find week number [1, 5]");
        if n.Ok? && n.value.1 != "" {
          MessageIrrelevant(n.value.1[1..], 1, "Expected to find day of week [0, 6]");
          UnsignedBound(n.value.1[1..], 1);
        }
      }
    }
  }

  lemma DateWellFormed(t: string)
    ensures var r := ReadDate(t); r.Ok? ==> !r.value.0.Off? && RuleWellFormed(r.value.0)
  {
    hide ReadDay, ReadUnsigned;
    DayWellFormed(t);
  }

  lemma RulesWellFormed(t: string)
    ensures var r := ReadRules(t);
            r.Ok? ==> !r.value.0.Off? && !r.value.1.Off? && RuleWellFormed(r.value.0) && RuleWellFormed(r.value.1)
  {
    hide ReadDate, RuleWellFormed;
    if t != "" {
      DateWellFormed(t[1..]);
      var start := ReadDate(t[1..]);
      if start.Ok? && start.value.1 != "" {
        DateWellFormed(start.value.1[1..]);
      }
    }
  }

  lemma SavingWellFormed(t: string, offset: int)
    ensures var r := ReadSaving(t, offset);
            r.Ok? ==> RuleWellFormed(r.value.1) && RuleWellFormed(r.value.2) && (r.value.1.Off? <==> r.value.2.Off?)
  {
    hide ReadRules, ReadSignedTime;
    RulesWellFormed(t);
    var x := ReadSignedTime(t);
    if x.Ok? {
      RulesWellFormed(x.value.1);
    }
  }

  lemma NameIsPlain(t: string)
    ensures var r := ReadName(t); r.Ok? ==> |r.value.0| >= 3 && '>' !in r.value.0
  {
  }

  lemma OffWellFormed()
    ensures RuleWellFormed(Off)
  {
  }

  /** Every zone that parsing can produce is well formed. */
  lemma ParsedWellFormed(s: string)
    ensures ParseZone(s).Ok? ==> WellFormed(ParseZone(s).value)
  {
    hide ReadName, ReadSignedTime, ReadSaving, RuleWellFormed;
    NameIsPlain(s);
    var std := ReadName(s);
    if std.Ok? {
      var x := ReadSignedTime(std.value.1);
      if x.Ok? {
        NameIsPlain(x.value.1);
        var dst := ReadName(x.value.1);
        if dst.Ok? {
          SavingWellFormed(dst.value.1, -x.value.0);
        }
      }
    }
    assert RuleWellFormed(Off) by { OffWellFormed(); }
  }

  // ---------- reading back what was printed ----------

  predicate Stops(rest: string) {
    rest == "" || !IsDigit(rest[0])
  }

  predicate TimeStops(rest: string) {
    rest == "" || (!IsDigit(rest[0]) && rest[0] != ':')
  }

  lemma {:induction false} DigitPrefixIs(f: string, rest: string, limit: nat)
    requires AllDigits(f) && |f| <= limit && (|f| == limit || Stops(rest))
    ensures DigitPrefix(f + rest, limit) == |f|
    decreases |f|
  {
    if f == "" {
      assert f + rest == rest;
    } else {
      assert (f + rest)[1..] == f[1..] + rest;
      DigitPrefixIs(f[1..], rest, limit - 1);
    }
  }

  // A field of digits that the limit or a following non-digit ends.
  lemma DigitsRead(f: string, rest: string, limit: nat, message: string)
    requires AllDigits(f) && 0 < |f| <= limit && (|f| == limit || Stops(rest))
    ensures ReadUnsigned(f + rest, limit, message) == Ok((Value(f), rest))
  {
    var t := f + rest;
    DigitPrefixIs(f, rest, limit);
    assert t[..|f|] == f && t[|f|..] == rest;
    assert t[0] == f[0];
  }

  lemma NumeralRead(n: nat, rest: string, limit: nat, message: string)
    requires limit > 0 && n < Pow10(limit) && Stops(rest)
    ensures ReadUnsigned(Numeral(n) + rest, limit, message) == Ok((n, rest))
  {
    hide ReadUnsigned, Value;
    NumeralLength(n, limit);
    NumeralValue(n);
    DigitsRead(Numeral(n), rest, limit, message);
  }

  lemma TwoDigitsRead(n: nat, rest: string, message: string)
    requires n < 100
    ensures ReadUnsigned(TwoDigits(n) + rest, 2, message) == Ok((n, rest))
  {
    hide ReadUnsigned;
    SmallPowers();
    NumeralLength(n, 1);
    NumeralLength(n, 2);
    NumeralValue(n);
    if n < 10 {
      LeadingZeros(1, Numeral(n));
      assert Zeros(1) == "0";
    }
    DigitsRead(TwoDigits(n), rest, 2, message);
  }

  predicate Short(time: int) {
    -100 * HOUR < time < 100 * HOUR
  }

  function AfterMinutes(s: nat, rest: string): string {
    if s == 0 then rest else ":" + (TwoDigits(s) + rest)
  }

  // What follows the hours of a printed time.
  function AfterHours(a: nat, rest: string): string {
    var (m, s) := (a / 60 % 60, a % 60);
    if m == 0 && s == 0 then rest
    else ":" + (TwoDigits(m) + AfterMinutes(s, rest))
  }

  lemma TimeTextParts(a: nat, rest: string)
    ensures TimeText(a) + rest == Numeral(a / HOUR) + AfterHours(a, rest)
  {
    hide Numeral, TwoDigits;
  }

  lemma TimeSplit(a: nat)
    ensures a / HOUR * HOUR + a / 60 % 60 * 60 + a % 60 == a
  {
    assert a / HOUR == a / 60 / 60;
  }

  lemma MinutesRead(a: nat, rest: string)
    requires TimeStops(rest) && AfterHours(a, rest) != rest
    ensures var t1 := AfterHours(a, rest);
            t1 != "" && t1[0] == ':' &&
            ReadUnsigned(t1[1..], 2, "Expected to find minutes [0, 59]") == Ok((a / 60 % 60, AfterMinutes(a % 60, rest)))
  {
    hide TwoDigits, ReadUnsigned, AfterMinutes;
    var t1 := AfterHours(a, rest);
    assert t1[1..] == TwoDigits(a / 60 % 60) + AfterMinutes(a % 60, rest);
    TwoDigitsRead(a / 60 % 60, AfterMinutes(a % 60, rest), "Expected to find minutes [0, 59]");
  }

  lemma SecondsRead(s: nat, rest: string)
    requires 0 < s < 60
    ensures var t2 := AfterMinutes(s, rest);
            t2 != "" && t2[0] == ':' && ReadUnsigned(t2[1..], 2, "Expected to find seconds [0, 59]") == Ok((s, rest))
  {
    hide TwoDigits, ReadUnsigned;
    var t2 := AfterMinutes(s, rest);
    assert t2[1..] == TwoDigits(s) + rest;
    TwoDigitsRead(s, rest, "Expected to find seconds [0, 59]");
  }

  lemma TimeReads(a: nat, rest: string)
    requires a < 100 * HOUR && TimeStops(rest)
    ensures TimeText(a) + rest != ""
    ensures ReadUnsignedTime(TimeText(a) + rest) == Ok((a, rest))
  {
    hide TimeText, Numeral, ReadUnsigned, TwoDigits;
    var t1 := AfterHours(a, rest);
    TimeTextParts(a, rest);
    TimeSplit(a);
    SmallPowers();
    NumeralRead(a / HOUR, t1, 2, "Expected to find hours [0, 24]");
    if a / 60 % 60 != 0 || a % 60 != 0 {
      assert |t1| > |rest|;
      MinutesRead(a, rest);
      if a % 60 != 0 {
        SecondsRead(a % 60, rest);
      }
    }
  }

  lemma TwoDigitsOfMany(f: string, rest: string)
    requires AllDigits(f) && |f| > 2
    ensures f + rest != "" && IsDigit((f + rest)[0])
    ensures var r := ReadUnsignedTime(f + rest);
            r.Ok? && r.value.1 == f[2..] + rest
  {
    hide ReadUnsigned, Value;
    var t := f + rest;
    var left := f[2..] + rest;
    assert t == f[..2] + left;
    assert t[0] == f[0] && left[0] == f[2];
    DigitsRead(f[..2], left, 2, "Expected to find hours [0, 24]");
  }

  // Only two digits of the hours are read.
  lemma LongTimeReads(a: nat, rest: string)
    requires a >= 100 * HOUR
    ensures var t := TimeText(a) + rest; t != "" && IsDigit(t[0])
    ensures var r := ReadUnsignedTime(TimeText(a) + rest);
            r.Ok? && r.value.1 != "" && IsDigit(r.value.1[0])
  {
    hide TimeText, ReadUnsignedTime, Numeral, Pow10, AfterHours;
    TimeTextParts(a, rest);
    SmallPowers();
    var f := Numeral(a / HOUR);
    NumeralLength(a / HOUR, 2);
    TwoDigitsOfMany(f, AfterHours(a, rest));
    assert (f[2..] + AfterHours(a, rest))[0] == f[2];
  }

  lemma DigitFirst(a: nat, rest: string)
    ensures var t := TimeText(a) + rest; t != "" && IsDigit(t[0])
  {
  }

  lemma OffsetReads(off: int, rest: string)
    requires Short(off) && TimeStops(rest)
    ensures ReadSignedTime(OffsetText(off) + rest) == Ok((-off, rest))
  {
    hide TimeText, ReadUnsignedTime;
    var a := if -off < 0 then off else -off;
    TimeReads(a, rest);
    DigitFirst(a, rest);
    var t := OffsetText(off) + rest;
    if -off < 0 {
      assert t[1..] == TimeText(a) + rest;
    }
  }

  lemma LongOffsetReads(off: int, rest: string)
    requires !Short(off)
    ensures var r := ReadSignedTime(OffsetText(off) + rest);
            r.Ok? && r.value.1 != "" && IsDigit(r.value.1[0])
  {
    hide TimeText, ReadUnsignedTime;
    var a := if -off < 0 then off else -off;
    LongTimeReads(a, rest);
    var t := OffsetText(off) + rest;
    if -off < 0 {
      assert t[1..] == TimeText(a) + rest;
    }
  }

  lemma OffsetFirst(off: int, rest: string)
    ensures var t := OffsetText(off) + rest; t != "" && (IsDigit(t[0]) || t[0] == '-')
  {
    hide TimeText;
    DigitFirst(if -off < 0 then off else -off, rest);
  }

  // ---------- rules ----------

  lemma JulianReads(n: nat, rest: string)
    requires n < 1000 && Stops(rest)
    ensures ReadDay("J" + Numeral(n) + rest) == Ok((J(n, DEFAULT_TIME), rest))
  {
    hide ReadUnsigned, Numeral;
    SmallPowers();
    var t := "J" + Numeral(n) + rest;
    assert t[1..] == Numeral(n) + rest;
    NumeralRead(n, rest, 3, "Expected to find the Julian day [1, 365]");
  }

  lemma MonthSteps(a: string, m: nat, b: string, n: nat, c: string, wd: nat, rest: string)
    requires ReadUnsigned(a, 2, "Expected to find month [1, 12]") == Ok((m, "." + b))
    requires ReadUnsigned(b, 1, "Expected to find week number [1, 5]") == Ok((n, "." + c))
    requires ReadUnsigned(c, 1, "Expected to find day of week [0, 6]") == Ok((wd, rest))
    ensures ReadDay("M" + a) == Ok((M(m, n, StoredWeekday(wd), DEFAULT_TIME), rest))
  {
    hide ReadUnsigned, StoredWeekday;
    assert ("M" + a)[1..] == a;
    assert ("." + b)[1..] == b;
    assert ("." + c)[1..] == c;
  }

  lemma DotStops(t: string)
    ensures Stops("." + t)
  {
  }

  lemma MonthReads(m: nat, n: nat, wd: nat, rest: string)
    requires m < 100 && n < 10 && wd < 10 && Stops(rest)
    ensures ReadDay("M" + Numeral(m) + "." + Numeral(n) + "." + Numeral(wd) + rest) ==
            Ok((M(m, n, StoredWeekday(wd), DEFAULT_TIME), rest))
  {
    hide ReadUnsigned, Numeral, Pow10, ReadDay, StoredWeekday;
    SmallPowers();
    var t2 := "." + (Numeral(wd) + rest);
    var t1 := "." + (Numeral(n) + t2);
    var t := "M" + (Numeral(m) + t1);
    DotStops(Numeral(n) + t2);
    DotStops(Numeral(wd) + rest);
    NumeralRead(m, t1, 2, "Expected to find month [1, 12]");
    NumeralRead(n, t2, 1, "Expected to find week number [1, 5]");
    NumeralRead(wd, rest, 1, "Expected to find day of week [0, 6]");
    MonthSteps(Numeral(m) + t1, m, Numeral(n) + t2, n, Numeral(wd) + rest, wd, rest);
    assert t == "M" + Numeral(m) + "." + Numeral(n) + "." + Numeral(wd) + rest;
  }

  lemma NumberReads(n: nat, rest: string)
    requires n < 1000 && Stops(rest)
    ensures ReadDay(Numeral(n) + rest) == Ok((N(n, DEFAULT_TIME), rest))
  {
    hide ReadUnsigned;
    SmallPowers();
    var t := Numeral(n) + rest;
    NumeralRead(n, rest, 3, "");
    assert t[0] == Numeral(n)[0];
  }

  lemma DayReads(r: Rule, rest: string)
    requires !r.Off? && RuleWellFormed(r) && Stops(rest)
    ensures ReadDay(DayText(r) + rest) == Ok((WithTime(r, DEFAULT_TIME), rest))
  {
    hide ReadDay;
    match r
    case J(n, _) => JulianReads(n, rest);
    case M(m, n, wd, _) => MonthReads(m, n, wd, rest);
    case N(n, _) => NumberReads(n, rest);
  }

  // Inside a zone a printed rule is followed by a comma or by nothing.
  predicate RuleStops(rest: string) {
    rest == "" || rest[0] == ','
  }

  lemma RuleTextParts(r: Rule, rest: string)
    ensures RuleText(r) + rest == DayText(r) + (RuleTimeText(RuleTime(r)) + rest)
  {
    hide DayText, RuleTimeText;
  }

  lemma DateReads(r: Rule, rest: string)
    requires !r.Off? && RuleWellFormed(r) && RuleStops(rest) && Short(r.time)
    ensures ReadDate(RuleText(r) + rest) == Ok((r, rest))
  {
    hide ReadDay, DayText, RuleText, ReadUnsignedTime, TimeText;
    var after := RuleTimeText(r.time) + rest;
    RuleTextParts(r, rest);
    DayReads(r, after);
    if r.time != DEFAULT_TIME {
      TimeReads(r.time, rest);
      assert after[1..] == TimeText(r.time) + rest;
    } else {
      assert after == rest;
    }
  }

  lemma LongDateReads(r: Rule, rest: string)
    requires !r.Off? && RuleWellFormed(r) && !Short(r.time)
    ensures var q := ReadDate(RuleText(r) + rest);
            q.Ok? && q.value.1 != "" && IsDigit(q.value.1[0])
  {
    hide ReadDay, DayText, RuleText, ReadUnsignedTime, TimeText;
    var after := RuleTimeText(r.time) + rest;
    RuleTextParts(r, rest);
    DayReads(r, after);
    LongTimeReads(r.time, rest);
    assert after[1..] == TimeText(r.time) + rest;
  }

  lemma RulesRead(z: Zone)
    requires WellFormed(z) && !z.startRule.Off?
    ensures RulesText(z) != "" && RulesText(z)[0] == ','
    ensures if Short(z.startRule.time) && Short(z.endRule.time) then ReadRules(RulesText(z)) == Ok((z.startRule, z.endRule))
            else ReadRules(RulesText(z)).Err?
  {
    hide ReadDate, RuleText, RuleWellFormed;
    var endText := RuleText(z.endRule);
    var t := RulesText(z);
    assert t[1..] == RuleText(z.startRule) + ("," + endText);
    assert endText + "" == endText;
    if Short(z.startRule.time) {
      DateReads(z.startRule, "," + endText);
      assert ("," + endText)[1..] == endText;
      if Short(z.endRule.time) {
        DateReads(z.endRule, "");
      } else {
        LongDateReads(z.endRule, "");
      }
    } else {
      LongDateReads(z.startRule, "," + endText);
    }
  }

  // ---------- zones ----------

  // Times that the two-digit hours of the reader can hold; a saving of one hour is never printed.
  predicate ShortTimes(z: Zone) {
    && Short(z.offset)
    && (z.save != HOUR ==> Short(z.offset + z.save))
    && Short(RuleTime(z.startRule)) && Short(RuleTime(z.endRule))
  }

  predicate Alphabetic(z: Zone) {
    AllAlpha(z.stdAbbrev) && AllAlpha(z.dstAbbrev)
  }

  lemma DefaultIsShort()
    ensures Short(DEFAULT_TIME)
  {
  }

  lemma RulesTextFirst(z: Zone)
    ensures z.startRule.Off? ==> RulesText(z) == ""
    ensures !z.startRule.Off? ==> RulesText(z) != "" && RulesText(z)[0] == ','
  {
  }

  lemma NoComma(t: string)
    requires t != "" && IsDigit(t[0])
    ensures ReadRules(t).Err?
  {
  }

  lemma SavingReads(z: Zone)
    requires WellFormed(z) && z.dstAbbrev != ""
    requires Short(z.offset)
    ensures if ShortTimes(z) then ReadSaving(SavingText(z), z.offset) == Ok((z.save, z.startRule, z.endRule))
            else ReadSaving(SavingText(z), z.offset).Err?
  {
    hide ReadRules, ReadSignedTime, RulesText, OffsetText, Short;
    var rules := RulesText(z);
    DefaultIsShort();
    RulesTextFirst(z);
    if !z.startRule.Off? {
      RulesRead(z);
    }
    if z.save != HOUR {
      OffsetFirst(z.offset + z.save, rules);
      if Short(z.offset + z.save) {
        OffsetReads(z.offset + z.save, rules);
      } else {
        LongOffsetReads(z.offset + z.save, rules);
        var left := ReadSignedTime(SavingText(z)).value.1;
        NoComma(left);
      }
    } else {
      assert SavingText(z) == rules;
    }
  }

  lemma {:induction false} AlphaPrefixIs(f: string, rest: string)
    requires AllAlpha(f) && (rest == "" || !IsAlpha(rest[0]))
    ensures AlphaPrefix(f + rest) == |f|
    decreases |f|
  {
    if f == "" {
      assert f + rest == rest;
    } else {
      assert (f + rest)[1..] == f[1..] + rest;
      AlphaPrefixIs(f[1..], rest);
    }
  }

  lemma NameReads(name: string, rest: string)
    requires |name| >= 3 && AllAlpha(name) && (rest == "" || !IsAlpha(rest[0]))
    ensures ReadName(name + rest) == Ok((name, rest))
  {
    AlphaPrefixIs(name, rest);
    var t := name + rest;
    assert t[0] == name[0];
    assert t[..|name|] == name && t[|name|..] == rest;
  }

  lemma DigitIsNoName(t: string)
    requires t != "" && IsDigit(t[0])
    ensures ReadName(t).Err?
  {
  }

  lemma SavingFirst(z: Zone)
    requires z.dstAbbrev != ""
    ensures var t := SavingText(z); t == "" || !IsAlpha(t[0])
  {
    hide OffsetText, RulesText;
    RulesTextFirst(z);
    if z.save != HOUR {
      OffsetFirst(z.offset + z.save, RulesText(z));
    }
  }

  lemma NameParts(z: Zone)
    ensures Name(z) == z.stdAbbrev + (OffsetText(z.offset) + if z.dstAbbrev != "" then z.dstAbbrev + SavingText(z) else "")
  {
    hide OffsetText, SavingText;
  }

  lemma AlphabeticNameParses(z: Zone)
    requires WellFormed(z) && Alphabetic(z)
    ensures if ShortTimes(z) then ParseZone(Name(z)) == Ok(z) else ParseZone(Name(z)).Err?
  {
    hide Name, ReadName, ReadSignedTime, ReadSaving, OffsetText, SavingText, Short, RuleWellFormed;
    var t2 := if z.dstAbbrev != "" then z.dstAbbrev + SavingText(z) else "";
    var t1 := OffsetText(z.offset) + t2;
    NameParts(z);
    DefaultIsShort();
    OffsetFirst(z.offset, t2);
    NameReads(z.stdAbbrev, t1);
    assert TimeStops(t2);
    if Short(z.offset) {
      OffsetReads(z.offset, t2);
      if z.dstAbbrev != "" {
        SavingFirst(z);
        NameReads(z.dstAbbrev, SavingText(z));
        SavingReads(z);
      }
    } else {
      LongOffsetReads(z.offset, t2);
      DigitIsNoName(ReadSignedTime(t1).value.1);
    }
  }

  // ---------- without a closing bracket only alphabetic names can be read ----------

  lemma PlainNameIsAlpha(t: string)
    requires '>' !in t
    ensures var r := ReadName(t); r.Ok? ==> AllAlpha(r.value.0) && '>' !in r.value.1
  {
  }

  lemma PlainUnsignedLeaves(t: string, limit: nat, message: string)
    requires '>' !in t
    ensures var r := ReadUnsigned(t, limit, message); r.Ok? ==> '>' !in r.value.1
  {
    hide Value, DigitPrefix;
  }

  lemma PlainTail(t: string)
    requires '>' !in t && t != ""
    ensures '>' !in t[1..]
  {
  }

  lemma PlainUnsignedTimeLeaves(t: string)
    requires '>' !in t
    ensures var r := ReadUnsignedTime(t); r.Ok? ==> '>' !in r.value.1
  {
    hide ReadUnsigned;
    PlainUnsignedLeaves(t, 2, "Expected to find hours [0, 24]");
    var h := ReadUnsigned(t, 2, "Expected to find hours [0, 24]");
    if h.Ok? && h.value.1 != "" {
      var t1 := h.value.1;
      PlainTail(t1);
      PlainUnsignedLeaves(t1[1..], 2, "Expected to find minutes [0, 59]");
      var m := ReadUnsigned(t1[1..], 2, "Expected to find minutes [0, 59]");
      if m.Ok? && m.value.1 != "" {
        PlainTail(m.value.1);
        PlainUnsignedLeaves(m.value.1[1..], 2, "Expected to find seconds [0, 59]");
      }
    }
  }

  lemma PlainTimeLeaves(t: string)
    requires '>' !in t
    ensures var r := ReadSignedTime(t); r.Ok? ==> '>' !in r.value.1
  {
    hide ReadUnsignedTime;
    if t != "" {
      PlainTail(t);
      PlainUnsignedTimeLeaves(t[1..]);
      PlainUnsignedTimeLeaves(t);
    }
  }

  lemma PlainTextIsAlphabetic(s: string)
    requires '>' !in s
    ensures var r := ParseZone(s); r.Ok? ==> Alphabetic(r.value)
  {
    hide ReadName, ReadSignedTime, ReadSaving;
    PlainNameIsAlpha(s);
    var std := ReadName(s);
    if std.Ok? {
      PlainTimeLeaves(std.value.1);
      var x := ReadSignedTime(std.value.1);
      if x.Ok? {
        PlainNameIsAlpha(x.value.1);
      }
    }
  }

  lemma NumeralIsPlain(n: nat)
    ensures '>' !in Numeral(n)
  {
    assert AllDigits(Numeral(n));
  }

  lemma TimeTextIsPlain(a: nat)
    ensures '>' !in TimeText(a)
  {
    hide Numeral;
    NumeralIsPlain(a / HOUR);
    NumeralIsPlain(a / 60 % 60);
    NumeralIsPlain(a % 60);
  }

  lemma OffsetTextIsPlain(off: int)
    ensures '>' !in OffsetText(off)
  {
    hide TimeText;
    TimeTextIsPlain(if -off < 0 then off else -off);
  }

  lemma DayTextIsPlain(r: Rule)
    ensures '>' !in DayText(r)
  {
    hide Numeral;
    match r
    case Off =>
    case J(n, _) => NumeralIsPlain(n);
    case M(m, n, wd, _) =>
      NumeralIsPlain(m);
      NumeralIsPlain(n);
      NumeralIsPlain(wd);
      assert '>' !in "M" + Numeral(m) + ".";
    case N(n, _) => NumeralIsPlain(n);
  }

  lemma RuleTextIsPlain(r: Rule)
    ensures '>' !in RuleText(r)
  {
    hide DayText, TimeText;
    var time := RuleTime(r);
    TimeTextIsPlain(if time < 0 then -time else time);
    DayTextIsPlain(r);
  }

  lemma NameTextIsPlain(z: Zone)
    requires WellFormed(z)
    ensures '>' !in Name(z)
  {
    hide OffsetText, RuleText, RuleWellFormed;
    OffsetTextIsPlain(z.offset);
    OffsetTextIsPlain(z.offset + z.save);
    RuleTextIsPlain(z.startRule);
    RuleTextIsPlain(z.endRule);
  }

  // ---------- main results ----------

  /** The printed name of a well-formed zone parses back to the zone exactly when its abbreviations are alphabetic
      and every printed time is under 100 hours. */
  lemma NameRoundTrip(z: Zone)
    requires WellFormed(z)
    ensures ParseZone(Name(z)) == Ok(z) <==> Alphabetic(z) && ShortTimes(z)
  {
    hide Name, ParseZone, WellFormed, ShortTimes;
    if Alphabetic(z) {
      AlphabeticNameParses(z);
    } else {
      NameTextIsPlain(z);
      PlainTextIsAlphabetic(Name(z));
    }
  }

  /** For every string that parses: its zone's name parses to the same zone exactly under that condition, and then
      the name is a fixed point of parsing and printing. */
  lemma ParsedNameRoundTrip(s: string)
    requires ParseZone(s).Ok?
    ensures var z := ParseZone(s).value;
            ParseZone(Name(z)) == Ok(z) <==> Alphabetic(z) && ShortTimes(z)
    ensures var z := ParseZone(s).value;
            Alphabetic(z) && ShortTimes(z) ==> Name(ParseZone(Name(z)).value) == Name(z)
  {
    hide Name, ParseZone;
    ParsedWellFormed(s);
    NameRoundTrip(ParseZone(s).value);
  }

  lemma ReadQuotedName()
    ensures ReadName("<+03>-3") == Ok(("+03", "-3"))
  {
    var t := "+03>-3";
    assert "<+03>-3"[1..] == t;
    assert t[1..] == "03>-3" && "03>-3"[1..] == "3>-3" && "3>-3"[1..] == ">-3";
    assert UntilBracket(t) == 3;
    assert t[..3] == "+03" && t[4..] == "-3";
  }

  lemma ReadMinusThree()
    ensures ReadSignedTime("-3") == Ok((-3 * HOUR, ""))
  {
    assert "-3"[1..] == "3";
    assert DigitPrefix("3", 2) == 1;
    assert "3"[..1] == "3" && "3"[1..] == "" && "3"[..0] == "";
    assert Value("3") == 3;
  }

  /** The condition is not empty talk: a quoted abbreviation is printed without its brackets. */
  lemma QuotedNameFails()
    ensures var z := ParseZone("<+03>-3");
            z == Ok(Zone("+03", "", 3 * HOUR, HOUR, Off, Off)) && ParseZone(Name(z.value)) != z
  {
    hide ReadName, ReadSignedTime, Name;
    ReadQuotedName();
    ReadMinusThree();
    var z := ParseZone("<+03>-3").value;
    ParsedWellFormed("<+03>-3");
    NameRoundTrip(z);
    assert !IsAlpha(z.stdAbbrev[0]);
  }
}
