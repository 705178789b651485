// The parser as it runs: an index that moves over the string. Each method does what its reader on the remaining
// text does, so everything proved about those readers holds of it.
module PosixZoneReader {
  import opened DecimalText
  import opened PosixZone
  import opened Wrappers

  // The index form and the remaining-text form give the same value, or the same error.
  predicate Agrees<T(==)>(s: string, r: Result<(nat, T)>, spec: Result<(T, string)>) {
    match r
    case Err(message) => spec == Err(message)
    case Ok((i, value)) => i <= |s| && spec == Ok((value, s[i..]))
  }

  method ReadUnsignedAt(s: string, start: nat, limit: nat, message: string) returns (r: Result<(nat, nat)>)
    requires start <= |s| && limit > 0
    ensures Agrees(s, r, ReadUnsigned(s[start..], limit, message))
  {
    var i := start;
    if i == |s| || !IsDigit(s[i]) {
      return Err(message);
    }
    var u := DigitValue(s[i]);
    var count := 1;
    i := i + 1;
    assert s[start..i] == [s[start]];
    assert s[start..i][..0] == "";
    while count < limit && i != |s| && IsDigit(s[i])
      invariant start < i <= |s| && count == i - start <= limit
      invariant AllDigits(s[start..i]) && u == Value(s[start..i])
      decreases |s| - i
    {
      u := u * 10 + DigitValue(s[i]);
      i, count := i + 1, count + 1;
      assert s[start..i][..count - 1] == s[start..i - 1];
    }
    assert s[start..] == s[start..i] + s[i..];
    DigitsRead(s[start..i], s[i..], limit, message);
    return Ok((i, u));
  }

  lemma EmptyName()
    ensures ReadName("") == Err("Expected a name but found end of string")
  {
  }

  lemma {:induction false} BracketAt(name: string, rest: string)
    requires '>' !in name && (rest == "" || rest[0] == '>')
    ensures UntilBracket(name + rest) == |name|
    decreases |name|
  {
    if name == "" {
      assert name + rest == rest;
    } else {
      assert (name + rest)[1..] == name[1..] + rest;
      BracketAt(name[1..], rest);
    }
  }

  lemma OpenName(s: string, start: nat)
    requires start < |s| && s[start] == '<' && '>' !in s[start + 1..]
    ensures ReadName(s[start..]) == Err("Expected to find closing '>', but found end of string")
  {
    hide UntilBracket;
    var name := s[start + 1..];
    BracketAt(name, "");
    assert name + "" == name == s[start..][1..];
  }

  lemma QuotedName(s: string, start: nat, i: nat)
    requires start < i < |s| && s[start] == '<' && '>' !in s[start + 1..i] && s[i] == '>'
    ensures ReadName(s[start..]) == LongEnough(s[start + 1..i], s[i + 1..])
  {
    hide UntilBracket;
    var name, t := s[start + 1..i], s[start..][1..];
    BracketAt(name, s[i..]);
    assert t == name + s[i..];
    assert t[..|name|] == name && t[|name| + 1..] == s[i + 1..];
  }

  lemma BareName(s: string, start: nat, i: nat)
    requires start <= i <= |s| && start < |s| && s[start] != '<'
    requires AllAlpha(s[start..i]) && (i < |s| ==> !IsAlpha(s[i]))
    ensures ReadName(s[start..]) == LongEnough(s[start..i], s[i..])
  {
    hide AlphaPrefix;
    var name, t := s[start..i], s[start..];
    AlphaPrefixIs(name, s[i..]);
    assert t == name + s[i..];
    assert t[..|name|] == name && t[|name|..] == s[i..];
  }

  method ReadNameAt(s: string, start: nat) returns (r: Result<(nat, string)>)
    requires start <= |s|
    ensures Agrees(s, r, ReadName(s[start..]))
  {
    hide ReadName;
    var i := start;
    if i == |s| {
      EmptyName();
      assert s[start..] == "";
      return Err("Expected a name but found end of string");
    }
    var name := "";
    if s[i] == '<' {
      i := i + 1;
      while true
        invariant start < i <= |s| && name == s[start + 1..i] && '>' !in name
        decreases |s| - i
      {
        if i == |s| {
          OpenName(s, start);
          return Err("Expected to find closing '>', but found end of string");
        }
        if s[i] == '>' {
          break;
        }
        name := name + [s[i]];
        i := i + 1;
      }
      QuotedName(s, start, i);
      i := i + 1;
    } else {
      while i != |s| && IsAlpha(s[i])
        invariant start <= i <= |s| && name == s[start..i] && AllAlpha(name)
        decreases |s| - i
      {
        name := name + [s[i]];
        i := i + 1;
      }
      BareName(s, start, i);
    }
    if |name| < 3 {
      return Err("Found name to be shorter than 3 characters");
    }
    return Ok((i, name));
  }

  method ReadUnsignedTimeAt(s: string, start: nat) returns (r: Result<(nat, int)>)
    requires start <= |s|
    ensures Agrees(s, r, ReadUnsignedTime(s[start..]))
  {
    hide ReadUnsigned;
    var i := start;
    if i == |s| {
      return Err("Expected to read unsigned time, but found end of string");
    }
    var x := ReadUnsignedAt(s, i, 2, "Expected to find hours [0, 24]");
    if x.Err? {
      return Err(x.message);
    }
    i := x.value.0;
    var t := x.value.1 * HOUR;
    if i != |s| && s[i] == ':' {
      i := i + 1;
      assert s[i - 1..][1..] == s[i..];
      x := ReadUnsignedAt(s, i, 2, "Expected to find minutes [0, 59]");
      if x.Err? {
        return Err(x.message);
      }
      i := x.value.0;
      t := t + x.value.1 * 60;
      if i != |s| && s[i] == ':' {
        i := i + 1;
        assert s[i - 1..][1..] == s[i..];
        x := ReadUnsignedAt(s, i, 2, "Expected to find seconds [0, 59]");
        if x.Err? {
          return Err(x.message);
        }
        i := x.value.0;
        t := t + x.value.1;
      }
    }
    return Ok((i, t));
  }

  method ReadSignedTimeAt(s: string, start: nat) returns (r: Result<(nat, int)>)
    requires start <= |s|
    ensures Agrees(s, r, ReadSignedTime(s[start..]))
    ensures start == |s| ==> r == Err("Expected to read signed time, but found end of string")
    ensures start < |s| && s[start] == '-' ==>
              match r
              case Err(message) => ReadUnsignedTime(s[start + 1..]) == Err(message)
              case Ok((i, t)) => i <= |s| && ReadUnsignedTime(s[start + 1..]) == Ok((-t, s[i..]))
    ensures start < |s| && s[start] == '+' ==> Agrees(s, r, ReadUnsignedTime(s[start + 1..]))
    ensures start < |s| && s[start] != '-' && s[start] != '+' ==> Agrees(s, r, ReadUnsignedTime(s[start..]))
  {
    hide ReadUnsignedTime;
    var i := start;
    if i == |s| {
      return Err("Expected to read signed time, but found end of string");
    }
    var negative := false;
    if s[i] == '-' {
      negative := true;
      i := i + 1;
    } else if s[i] == '+' {
      i := i + 1;
    }
    assert i > start ==> s[start..][1..] == s[i..];
    r := ReadUnsignedTimeAt(s, i);
    if r.Ok? && negative {
      r := Ok((r.value.0, -r.value.1));
    }
  }

  method ReadMonthAt(s: string, start: nat) returns (r: Result<(nat, Rule)>)
    requires start < |s| && s[start] == 'M'
    ensures Agrees(s, r, ReadDay(s[start..]))
  {
    hide ReadUnsigned, StoredWeekday;
    var i := start + 1;
    assert s[start..][1..] == s[i..];
    var m := ReadUnsignedAt(s, i, 2, "Expected to find month [1, 12]");
    if m.Err? {
      return Err(m.message);
    }
    i := m.value.0;
    if i == |s| || s[i] != '.' {
      return Err("Expected '.' after month");
    }
    i := i + 1;
    assert s[i - 1..][1..] == s[i..];
    var n := ReadUnsignedAt(s, i, 1, "Expected to find week number [1, 5]");
    if n.Err? {
      return Err(n.message);
    }
    i := n.value.0;
    if i == |s| || s[i] != '.' {
      return Err("Expected '.' after weekday index");
    }
    i := i + 1;
    assert s[i - 1..][1..] == s[i..];
    var wd := ReadUnsignedAt(s, i, 1, "Expected to find day of week [0, 6]");
    if wd.Err? {
      return Err(wd.message);
    }
    return Ok((wd.value.0, M(m.value.1, n.value.1, StoredWeekday(wd.value.1), DEFAULT_TIME)));
  }

  method ReadDayAt(s: string, start: nat) returns (r: Result<(nat, Rule)>)
    requires start <= |s|
    ensures Agrees(s, r, ReadDay(s[start..]))
  {
    hide ReadUnsigned, IsDigit;
    var i := start;
    if i == |s| {
      return Err("Expected rule but found end of string");
    }
    if s[i] == 'J' {
      i := i + 1;
      assert s[start..][1..] == s[i..];
      var n := ReadUnsignedAt(s, i, 3, "Expected to find the Julian day [1, 365]");
      if n.Err? {
        return Err(n.message);
      }
      return Ok((n.value.0, J(n.value.1, DEFAULT_TIME)));
    } else if s[i] == 'M' {
      r := ReadMonthAt(s, start);
    } else if IsDigit(s[i]) {
      var n := ReadUnsignedAt(s, i, 3, "");
      if n.Err? {
        return Err(n.message);
      }
      return Ok((n.value.0, N(n.value.1, DEFAULT_TIME)));
    } else {
      return Err("Expected 'J', 'M', or a digit to start rule");
    }
  }

  method ReadDateAt(s: string, start: nat) returns (r: Result<(nat, Rule)>)
    requires start <= |s|
    ensures Agrees(s, r, ReadDate(s[start..]))
  {
    hide ReadDay, ReadUnsignedTime;
    r := ReadDayAt(s, start);
    if r.Ok? && r.value.0 != |s| && s[r.value.0] == '/' {
      var i := r.value.0 + 1;
      assert s[i - 1..][1..] == s[i..];
      var t := ReadUnsignedTimeAt(s, i);
      if t.Err? {
        return Err(t.message);
      }
      r := Ok((t.value.0, WithTime(r.value.1, t.value.1)));
    }
  }

  method ReadRulesAt(s: string, start: nat) returns (r: Result<(Rule, Rule)>)
    requires start <= |s|
    ensures r == ReadRules(s[start..])
  {
    hide ReadDate;
    var i := start;
    if i == |s| || s[i] != ',' {
      return Err("Expecting end of string or ',' to start rule");
    }
    i := i + 1;
    assert s[start..][1..] == s[i..];
    var first := ReadDateAt(s, i);
    if first.Err? {
      return Err(first.message);
    }
    i := first.value.0;
    if i == |s| || s[i] != ',' {
      return Err("Expecting ',' and then the ending rule");
    }
    i := i + 1;
    assert s[i - 1..][1..] == s[i..];
    var second := ReadDateAt(s, i);
    if second.Err? {
      return Err(second.message);
    }
    if second.value.0 != |s| {
      return Err("Found unexpected trailing characters");
    }
    return Ok((first.value.1, second.value.1));
  }

  /** The constructor of a zone from its string. A zone that comes out is well formed, and its name reads back to it
      exactly when its abbreviations are alphabetic and its printed times are under 100 hours. */
  method ParseZoneFrom(s: string) returns (r: Result<Zone>)
    ensures r == ParseZone(s)
    ensures r.Ok? ==> WellFormed(r.value)
    ensures r.Ok? ==> (ParseZone(Name(r.value)) == r <==> Alphabetic(r.value) && ShortTimes(r.value))
  {
    hide ReadName, ReadSignedTime, ReadUnsignedTime, ReadRules, WellFormed, Name, Alphabetic, ShortTimes;
    ParsedWellFormed(s);
    assert s[0..] == s;
    var std := ReadNameAt(s, 0);
    if std.Err? {
      return Err(std.message);
    }
    var i := std.value.0;
    var x := ReadSignedTimeAt(s, i);
    if x.Err? {
      return Err(x.message);
    }
    i := x.value.0;
    var offset := -x.value.1;
    var dstAbbrev, save, startRule, endRule := "", HOUR, Off, Off;
    if i != |s| {
      var dst := ReadNameAt(s, i);
      if dst.Err? {
        return Err(dst.message);
      }
      i := dst.value.0;
      dstAbbrev := dst.value.1;
      if i != |s| {
        if s[i] != ',' {
          var y := ReadSignedTimeAt(s, i);
          if y.Err? {
            return Err(y.message);
          }
          i := y.value.0;
          save := -y.value.1 - offset;
        }
        if i != |s| {
          var rules := ReadRulesAt(s, i);
          if rules.Err? {
            return Err(rules.message);
          }
          startRule, endRule := rules.value.0, rules.value.1;
        }
      }
    }
    r := Ok(Zone(std.value.1, dstAbbrev, offset, save, startRule, endRule));
    NameRoundTrip(r.value);
  }
}
