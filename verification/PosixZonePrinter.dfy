// The printer of a zone's name as it runs: text is appended piece by piece. Each method gives the text that the
// round-trip theorems speak of.
module PosixZonePrinter {
  import opened DecimalText
  import opened PosixZone
  import opened Wrappers

  method PrintTwoDigits(n: nat) returns (nm: string)
    ensures nm == TwoDigits(n)
  {
    hide Numeral;
    nm := "";
    if n < 10 {
      nm := nm + "0";
    }
    nm := nm + Numeral(n);
  }

  // Hours, then minutes and seconds where they are not zero.
  method PrintTime(a: nat) returns (nm: string)
    ensures nm == TimeText(a)
  {
    hide Numeral, TwoDigits;
    var minutes, seconds := a / 60 % 60, a % 60;
    nm := Numeral(a / HOUR);
    if minutes != 0 || seconds != 0 {
      ghost var hours := nm;
      var m := PrintTwoDigits(minutes);
      nm := nm + ":" + m;
      assert nm == hours + (":" + m + "");
      if seconds != 0 {
        var s := PrintTwoDigits(seconds);
        nm := nm + ":" + s;
        assert nm == hours + (":" + m + (":" + s));
      }
    }
  }

  // The sign is turned round: west of Greenwich is positive.
  method PrintOffset(off: int) returns (nm: string)
    ensures nm == OffsetText(off)
    ensures Short(off) ==> ReadSignedTime(nm) == Ok((-off, ""))
  {
    nm := if -off < 0 then "-" else "";
    var time := PrintTime(if -off < 0 then off else -off);
    nm := nm + time;
    if Short(off) {
      OffsetReads(off, "");
      assert OffsetText(off) + "" == OffsetText(off);
    }
  }

  method PrintDay(r: Rule) returns (nm: string)
    ensures nm == DayText(r)
  {
    match r {
      case J(n, _) =>
        nm := "J";
        nm := nm + Numeral(n);
      case M(m, n, wd, _) =>
        nm := "M";
        nm := nm + Numeral(m);
        nm := nm + ".";
        nm := nm + Numeral(n);
        nm := nm + ".";
        nm := nm + Numeral(wd);
      case N(n, _) =>
        nm := Numeral(n);
      case Off =>
        nm := "";
    }
  }

  method PrintRule(r: Rule) returns (nm: string)
    ensures nm == RuleText(r)
    ensures !r.Off? && RuleWellFormed(r) && Short(r.time) ==> ReadDate(nm) == Ok((r, ""))
  {
    hide DayText, TimeText, ReadDate, RuleWellFormed;
    nm := PrintDay(r);
    ghost var day := nm;
    if RuleTime(r) != DEFAULT_TIME {
      nm := nm + "/";
      var time := PrintTime(if RuleTime(r) < 0 then -RuleTime(r) else RuleTime(r));
      nm := nm + time;
      assert nm == day + ("/" + time);
    }
    assert nm == RuleText(r);
    if !r.Off? && RuleWellFormed(r) && Short(r.time) {
      DateReads(r, "");
      assert RuleText(r) + "" == RuleText(r);
    }
  }

  /** The name of a zone. For a zone that parsing can produce it reads back to the zone exactly when its
      abbreviations are alphabetic and its printed times are under 100 hours. */
  method PrintName(z: Zone) returns (nm: string)
    ensures nm == Name(z)
    ensures WellFormed(z) ==> (ParseZone(nm) == Ok(z) <==> Alphabetic(z) && ShortTimes(z))
  {
    hide ParseZone, OffsetText, RuleText, WellFormed, Alphabetic, ShortTimes;
    nm := z.stdAbbrev;
    var offset := PrintOffset(z.offset);
    nm := nm + offset;
    ghost var standard := nm;
    if z.dstAbbrev != "" {
      nm := nm + z.dstAbbrev;
      ghost var saving := "";
      if z.save != HOUR {
        var summer := PrintOffset(z.offset + z.save);
        nm := nm + summer;
        saving := summer;
      }
      assert nm == standard + (z.dstAbbrev + saving);
      if !z.startRule.Off? {
        var first := PrintRule(z.startRule);
        var second := PrintRule(z.endRule);
        nm := nm + ",";
        nm := nm + first;
        nm := nm + ",";
        nm := nm + second;
        assert nm == standard + (z.dstAbbrev + (saving + ("," + first + "," + second)));
      } else {
        assert nm == standard + (z.dstAbbrev + (saving + ""));
      }
      assert nm == standard + (z.dstAbbrev + SavingText(z));
    }
    assert nm == Name(z);
    if WellFormed(z) {
      NameRoundTrip(z);
    }
  }
}
