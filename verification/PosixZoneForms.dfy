// What a zone string means, form by form: digits with or without leading zeros, signs, defaults, and every malformed
// text's message.
module PosixZoneForms {
  import opened DecimalText
  import opened PosixZone
  import opened Wrappers

  // A field of one or more digits that the limit or a following non-digit ends.
  predicate Field(f: string, limit: nat, rest: string) {
    AllDigits(f) && 0 < |f| <= limit && (|f| == limit || Stops(rest))
  }

  // The two cases of the English letters, and the ten digits, by their codes.
  lemma Letters(c: char)
    ensures IsAlpha(c) <==> 65 <= c as int <= 90 || 97 <= c as int <= 122
    ensures IsDigit(c) <==> 48 <= c as int <= 57
  {
  }

  // ---------- times ----------

  /** Hours are counted in seconds, and so are the minutes and seconds that follow a colon each. */
  lemma HoursRead(h: string, rest: string)
    requires Field(h, 2, rest) && (rest == "" || rest[0] != ':')
    ensures ReadUnsignedTime(h + rest) == Ok((3600 * Value(h), rest))
  {
    hide ReadUnsigned, Value;
    DigitsRead(h, rest, 2, "Expected to find hours [0, 24]");
  }

  lemma MinutesRead(h: string, m: string, rest: string)
    requires Field(h, 2, ":") && Field(m, 2, rest) && (rest == "" || rest[0] != ':')
    ensures ReadUnsignedTime(h + (":" + (m + rest))) == Ok((3600 * Value(h) + 60 * Value(m), rest))
  {
    hide ReadUnsigned, Value;
    var t1 := ":" + (m + rest);
    DigitsRead(h, t1, 2, "Expected to find hours [0, 24]");
    DigitsRead(m, rest, 2, "Expected to find minutes [0, 59]");
    assert t1[1..] == m + rest;
  }

  lemma SecondsRead(h: string, m: string, s: string, rest: string)
    requires Field(h, 2, ":") && Field(m, 2, ":") && Field(s, 2, rest)
    ensures ReadUnsignedTime(h + (":" + (m + (":" + (s + rest))))) ==
            Ok((3600 * Value(h) + 60 * Value(m) + Value(s), rest))
  {
    hide ReadUnsigned, Value;
    var t2 := ":" + (s + rest);
    var t1 := ":" + (m + t2);
    DigitsRead(h, t1, 2, "Expected to find hours [0, 24]");
    DigitsRead(m, t2, 2, "Expected to find minutes [0, 59]");
    DigitsRead(s, rest, 2, "Expected to find seconds [0, 59]");
    assert t1[1..] == m + t2 && t2[1..] == s + rest;
  }

  // ---------- signs ----------

  predicate Unsigned(u: string) {
    u != "" && IsDigit(u[0])
  }

  /** A plus sign says nothing; a minus sign negates. */
  lemma SignsRead(u: string)
    ensures ReadSignedTime("+" + u) == ReadUnsignedTime(u)
    ensures Unsigned(u) ==> ReadSignedTime(u) == ReadUnsignedTime(u)
    ensures ReadUnsignedTime(u).Ok? ==>
              ReadSignedTime("-" + u) == Ok((-ReadUnsignedTime(u).value.0, ReadUnsignedTime(u).value.1))
    ensures ReadUnsignedTime(u).Err? ==> ReadSignedTime("-" + u) == Err(ReadUnsignedTime(u).message)
  {
    hide ReadUnsignedTime;
    assert ("+" + u)[1..] == u && ("-" + u)[1..] == u;
  }

  // An abbreviation as a zone string starts with it: letters, or anything in brackets.
  predicate Abbreviation(text: string, name: string) {
    && |name| >= 3
    && ((text == name && AllAlpha(name)) || (text == "<" + name + ">" && '>' !in name))
  }

  lemma {:induction false} BracketAt(name: string, rest: string)
    requires '>' !in name
    ensures UntilBracket(name + (">" + rest)) == |name|
    decreases |name|
  {
    if name == "" {
      assert name + (">" + rest) == ">" + rest;
    } else {
      assert (name + (">" + rest))[1..] == name[1..] + (">" + rest);
      BracketAt(name[1..], rest);
    }
  }

  lemma AbbreviationRead(text: string, name: string, rest: string)
    requires Abbreviation(text, name) && (rest == "" || !IsAlpha(rest[0]))
    ensures ReadName(text + rest) == Ok((name, rest))
  {
    hide UntilBracket;
    if text == name && AllAlpha(name) {
      NameReads(name, rest);
    } else {
      var t := text + rest;
      BracketAt(name, rest);
      assert t[1..] == name + (">" + rest);
      assert t[1..][..|name|] == name && t[1..][|name| + 1..] == rest;
    }
  }

  /** Writing a plus sign before an offset does not change the zone, whatever follows. */
  lemma PlusSign(text: string, name: string, u: string)
    requires Abbreviation(text, name) && Unsigned(u)
    ensures ParseZone(text + ("+" + u)) == ParseZone(text + u)
  {
    hide ReadName, ReadSignedTime, ReadSaving, ReadUnsignedTime;
    AbbreviationRead(text, name, "+" + u);
    AbbreviationRead(text, name, u);
    SignsRead(u);
  }

  /** A zone without daylight saving: offsets are written west-positive and kept east-positive, in seconds. */
  lemma StandardZone(text: string, name: string, u: string, x: int)
    requires Abbreviation(text, name) && Unsigned(u) && ReadUnsignedTime(u) == Ok((x, ""))
    ensures ParseZone(text + u) == Ok(Zone(name, "", -x, 3600, Off, Off))
    ensures ParseZone(text + ("+" + u)) == Ok(Zone(name, "", -x, 3600, Off, Off))
    ensures ParseZone(text + ("-" + u)) == Ok(Zone(name, "", x, 3600, Off, Off))
  {
    hide ReadName, ReadSignedTime, ReadSaving, ReadUnsignedTime;
    AbbreviationRead(text, name, u);
    AbbreviationRead(text, name, "+" + u);
    AbbreviationRead(text, name, "-" + u);
    SignsRead(u);
  }

  /** With a daylight-saving abbreviation alone, the saving is an hour and there are no rules. */
  lemma SavingZone(text: string, name: string, u: string, x: int, text': string, name': string)
    requires Abbreviation(text, name) && Abbreviation(text', name') && Unsigned(u)
    requires ReadUnsignedTime(u + text') == Ok((x, text'))
    ensures ParseZone(text + (u + text')) == Ok(Zone(name, name', -x, 3600, Off, Off))
  {
    hide ReadName, ReadSignedTime, ReadUnsignedTime;
    assert Unsigned(u + text');
    AbbreviationRead(text, name, u + text');
    AbbreviationRead(text', name', "");
    assert text' + "" == text';
    SignsRead(u + text');
  }

  /** With an offset of its own, the saving is the difference of the two offsets. */
  lemma SavingOffset(t: string, y: int, offset: int)
    requires t != "" && t[0] != ',' && ReadSignedTime(t) == Ok((y, ""))
    ensures ReadSaving(t, offset) == Ok((-y - offset, Off, Off))
  {
    hide ReadSignedTime;
  }

  // ---------- rules ----------

  /** A day rule takes two o'clock when no time is given. */
  lemma DaysRead(f: string, rest: string)
    requires Field(f, 3, rest) && (rest == "" || rest[0] != '/')
    ensures ReadDate("J" + f + rest) == Ok((J(Value(f), 7200), rest))
    ensures ReadDate(f + rest) == Ok((N(Value(f), 7200), rest))
  {
    hide ReadUnsigned, Value;
    assert ("J" + f + rest)[1..] == f + rest;
    DigitsRead(f, rest, 3, "Expected to find the Julian day [1, 365]");
    DigitsRead(f, rest, 3, "");
    assert (f + rest)[0] == f[0];
  }

  lemma DaysWithTimeRead(f: string, u: string, x: int, rest: string)
    requires Field(f, 3, "/") && ReadUnsignedTime(u) == Ok((x, rest))
    ensures ReadDate("J" + f + ("/" + u)) == Ok((J(Value(f), x), rest))
    ensures ReadDate(f + ("/" + u)) == Ok((N(Value(f), x), rest))
  {
    hide ReadUnsigned, Value, ReadUnsignedTime;
    var t := "/" + u;
    assert ("J" + f + t)[1..] == f + t && t[1..] == u;
    DigitsRead(f, t, 3, "Expected to find the Julian day [1, 365]");
    DigitsRead(f, t, 3, "");
    assert (f + t)[0] == f[0];
  }

  // A weekday of 7 is Sunday, as 0 is.
  function Sunday(wd: nat): nat {
    if wd == 7 then 0 else wd
  }

  lemma MonthFields(a: string, b: string, c: string, rest: string)
    requires Field(a, 2, ".") && Field(b, 1, ".") && Field(c, 1, rest)
    ensures ReadDay("M" + (a + ("." + (b + ("." + (c + rest)))))) ==
            Ok((M(Value(a), Value(b), Sunday(Value(c)), 7200), rest))
  {
    hide ReadUnsigned, Value;
    DigitsRead(c, rest, 1, "Expected to find day of week [0, 6]");
    DigitsRead(b, "." + (c + rest), 1, "Expected to find week number [1, 5]");
    DigitsRead(a, "." + (b + ("." + (c + rest))), 2, "Expected to find month [1, 12]");
    MonthSteps(a + ("." + (b + ("." + (c + rest)))), Value(a), b + ("." + (c + rest)), Value(b), c + rest, Value(c), rest);
  }

  lemma MonthsRead(a: string, b: string, c: string, rest: string)
    requires Field(a, 2, ".") && Field(b, 1, ".") && Field(c, 1, rest) && (rest == "" || rest[0] != '/')
    ensures ReadDate("M" + (a + ("." + (b + ("." + (c + rest)))))) ==
            Ok((M(Value(a), Value(b), Sunday(Value(c)), 7200), rest))
  {
    hide ReadDay, Value;
    MonthFields(a, b, c, rest);
  }

  lemma MonthsWithTimeRead(a: string, b: string, c: string, u: string, x: int, rest: string)
    requires Field(a, 2, ".") && Field(b, 1, ".") && Field(c, 1, "/") && ReadUnsignedTime(u) == Ok((x, rest))
    ensures ReadDate("M" + (a + ("." + (b + ("." + (c + ("/" + u))))))) ==
            Ok((M(Value(a), Value(b), Sunday(Value(c)), x), rest))
  {
    hide ReadDay, Value, ReadUnsignedTime;
    MonthFields(a, b, c, "/" + u);
    assert ("/" + u)[1..] == u;
  }

  // ---------- malformed texts ----------

  lemma TimeErrors(t: string)
    ensures ReadSignedTime("") == Err("Expected to read signed time, but found end of string")
    ensures ReadUnsignedTime("") == Err("Expected to read unsigned time, but found end of string")
    ensures t != "" && !IsDigit(t[0]) ==> ReadUnsignedTime(t) == Err("Expected to find hours [0, 24]")
  {
  }

  lemma MinuteErrors(h: string, t: string)
    requires Field(h, 2, ":") && (t == "" || !IsDigit(t[0]))
    ensures ReadUnsignedTime(h + (":" + t)) == Err("Expected to find minutes [0, 59]")
  {
    DigitsRead(h, ":" + t, 2, "Expected to find hours [0, 24]");
    assert (":" + t)[1..] == t;
  }

  lemma SecondErrors(h: string, m: string, t: string)
    requires Field(h, 2, ":") && Field(m, 2, ":") && (t == "" || !IsDigit(t[0]))
    ensures ReadUnsignedTime(h + (":" + (m + (":" + t)))) == Err("Expected to find seconds [0, 59]")
  {
    hide Value;
    var t2 := ":" + t;
    DigitsRead(h, ":" + (m + t2), 2, "Expected to find hours [0, 24]");
    DigitsRead(m, t2, 2, "Expected to find minutes [0, 59]");
    assert (":" + (m + t2))[1..] == m + t2 && t2[1..] == t;
  }

  lemma {:induction false} NoBracket(name: string)
    requires '>' !in name
    ensures UntilBracket(name) == |name|
  {
    if name != "" {
      NoBracket(name[1..]);
    }
  }

  lemma NameErrors(name: string)
    ensures ReadName("") == Err("Expected a name but found end of string")
    ensures '>' !in name ==> ReadName("<" + name) == Err("Expected to find closing '>', but found end of string")
    ensures AllAlpha(name) && 0 < |name| < 3 ==> ReadName(name) == Err("Found name to be shorter than 3 characters")
  {
    if '>' !in name {
      assert ("<" + name)[1..] == name;
      NoBracket(name);
    }
    if AllAlpha(name) && 0 < |name| < 3 {
      AlphaPrefixIs(name, "");
      assert name + "" == name;
    }
  }

  lemma DayErrors(t: string)
    ensures ReadDay("") == Err("Expected rule but found end of string")
    ensures t != "" && t[0] != 'J' && t[0] != 'M' && !IsDigit(t[0]) ==>
              ReadDay(t) == Err("Expected 'J', 'M', or a digit to start rule")
    ensures t == "" || !IsDigit(t[0]) ==> ReadDay("J" + t) == Err("Expected to find the Julian day [1, 365]")
    ensures t == "" || !IsDigit(t[0]) ==> ReadDay("M" + t) == Err("Expected to find month [1, 12]")
  {
    assert ("J" + t)[1..] == t && ("M" + t)[1..] == t;
  }

  lemma MonthErrors(a: string, t: string)
    requires Field(a, 2, t)
    ensures t == "" || t[0] != '.' ==> ReadDay("M" + (a + t)) == Err("Expected '.' after month")
    ensures t != "" && t[0] == '.' && (|t| == 1 || !IsDigit(t[1])) ==>
              ReadDay("M" + (a + t)) == Err("Expected to find week number [1, 5]")
  {
    hide Value;
    DigitsRead(a, t, 2, "Expected to find month [1, 12]");
    assert ("M" + (a + t))[1..] == a + t;
  }

  lemma WeekErrors(a: string, b: string, t: string)
    requires Field(a, 2, ".") && Field(b, 1, t)
    ensures t == "" || t[0] != '.' ==> ReadDay("M" + (a + ("." + (b + t)))) == Err("Expected '.' after weekday index")
    ensures t != "" && t[0] == '.' && (|t| == 1 || !IsDigit(t[1])) ==>
              ReadDay("M" + (a + ("." + (b + t)))) == Err("Expected to find day of week [0, 6]")
  {
    hide Value;
    var t1 := "." + (b + t);
    DigitsRead(a, t1, 2, "Expected to find month [1, 12]");
    DigitsRead(b, t, 1, "Expected to find week number [1, 5]");
    assert ("M" + (a + t1))[1..] == a + t1 && t1[1..] == b + t;
  }

  lemma RuleErrors(t: string, u: string, r: Rule)
    ensures t == "" || t[0] != ',' ==> ReadRules(t) == Err("Expecting end of string or ',' to start rule")
    ensures ReadDate(t) == Ok((r, u)) && (u == "" || u[0] != ',') ==>
              ReadRules("," + t) == Err("Expecting ',' and then the ending rule")
  {
    hide ReadDate;
    assert ("," + t)[1..] == t;
  }

  lemma TrailingError(t: string, u: string, v: string, r: Rule, q: Rule)
    requires ReadDate(t) == Ok((r, "," + u)) && ReadDate(u) == Ok((q, v))
    ensures ReadRules("," + t) == if v == "" then Ok((r, q)) else Err("Found unexpected trailing characters")
  {
    hide ReadDate;
    assert ("," + t)[1..] == t && ("," + u)[1..] == u;
  }

  // ---------- printed texts ----------

  lemma TwoIsPadded(n: nat)
    requires n < 100
    ensures TwoDigits(n) == Padded(n, 2)
  {
    SmallPowers();
    NumeralLength(n, 1);
    NumeralLength(n, 2);
    assert Zeros(1) == "0";
  }

  /** A printed time: the hours as they are, and two digits each for minutes and seconds where they are needed. */
  lemma PrintedTime(a: nat)
    ensures TimeText(a) == Numeral(a / 3600) +
            if a % 3600 == 0 then ""
            else ":" + Padded(a / 60 % 60, 2) + if a % 60 == 0 then "" else ":" + Padded(a % 60, 2)
  {
    hide Numeral;
    TwoIsPadded(a / 60 % 60);
    TwoIsPadded(a % 60);
    assert a % 3600 == a / 60 % 60 * 60 + a % 60;
  }

  /** What is usual is left out of a name: the saving of one hour, and the time of two o'clock. */
  lemma UsualLeftOut(z: Zone, r: Rule)
    ensures z.dstAbbrev != "" && z.save == 3600 ==>
              Name(z) == z.stdAbbrev + OffsetText(z.offset) + (z.dstAbbrev + RulesText(z))
    ensures RuleTime(r) == 7200 ==> RuleText(r) == DayText(r)
  {
    hide OffsetText, DayText, RulesText, TimeText;
    assert "" + RulesText(z) == RulesText(z) && DayText(r) + "" == DayText(r);
  }

  const EASTERN := Zone("EST", "EDT", -18000, 3600, M(3, 2, 0, 7200), M(11, 1, 0, 7200))

  lemma EasternRules()
    ensures DayText(EASTERN.startRule) == "M3.2.0" && DayText(EASTERN.endRule) == "M11.1.0"
  {
    assert Numeral(11) == "1" + "1";
  }

  lemma EasternOffset()
    ensures OffsetText(-18000) == "5"
  {
    assert TimeText(18000) == Numeral(5) + "";
  }

  /** A zone as its string is usually written. */
  lemma EasternName()
    ensures Name(EASTERN) == "EST" + "5" + ("EDT" + ("," + "M3.2.0" + "," + "M11.1.0"))
    ensures ParseZone("EST" + "5" + ("EDT" + ("," + "M3.2.0" + "," + "M11.1.0"))) == Ok(EASTERN)
  {
    hide RuleText, OffsetText, ParseZone, DayText;
    EasternRules();
    EasternOffset();
    UsualLeftOut(EASTERN, EASTERN.startRule);
    UsualLeftOut(EASTERN, EASTERN.endRule);
    assert WellFormed(EASTERN) && Alphabetic(EASTERN) && ShortTimes(EASTERN);
    NameRoundTrip(EASTERN);
  }
}
