/** Clock times of one day as minute offsets: the `"%H:%M"` directive of
    Python's `datetime.strptime` (reading) and `strftime` (writing). The code
    only ever compares and subtracts the parsed `datetime` values, all of which
    fall on 1900-01-01, so a minute of the day carries the same information. */
module Clock {
  import opened Results
  import opened Text

  const MinutesPerDay := 1440

  /** A time field of `strptime`: one or two ASCII digits. */
  predicate IsField(s: string) {
    1 <= |s| <= 2 && AllDigits(s)
  }

  /** Combines an hour field and a minute field; `%H` accepts 0-23 and `%M` 0-59. */
  function FromFields(h: string, m: string): (r: Option<int>)
    ensures r.Some? <==> IsField(h) && IsField(m) && DigitsValue(h) <= 23 && DigitsValue(m) <= 59
    ensures r.Some? ==> 0 <= r.value < MinutesPerDay
    ensures r.Some? ==> r.value / 60 == DigitsValue(h) && r.value % 60 == DigitsValue(m)
  {
    if IsField(h) && IsField(m) && DigitsValue(h) <= 23 && DigitsValue(m) <= 59 then
      Some(DigitsValue(h) * 60 + DigitsValue(m))
    else None
  }

  /** `datetime.strptime(s, "%H:%M")`, as a minute of the day. The whole text
      must be consumed: no surrounding spaces, no third digit, no seconds. */
  function ParseClock(s: string): (r: Option<int>)
    ensures r.Some? ==> 0 <= r.value < MinutesPerDay
    ensures r.Some? ==> 3 <= |s| <= 5 && Count(s, ':') == 1
    ensures r.Some? ==> forall i :: 0 <= i < |s| ==> IsDigit(s[i]) || s[i] == ':'
  {
    if |s| >= 2 && s[1] == ':' then
      assert s == s[..1] + [':'] + s[2..];
      OneColon(s[..1], s[2..]);
      FromFields(s[..1], s[2..])
    else if |s| >= 3 && s[2] == ':' then
      assert s == s[..2] + [':'] + s[3..];
      OneColon(s[..2], s[3..]);
      FromFields(s[..2], s[3..])
    else None
  }

  /** An accepted text is an hour field and a minute field around one
      colon, and its value is what those fields give. */
  lemma ParseClockSound(s: string)
    requires ParseClock(s).Some?
    ensures exists h, m :: s == h + [':'] + m && FromFields(h, m) == ParseClock(s)
  {
    if |s| >= 2 && s[1] == ':' {
      assert s == s[..1] + [':'] + s[2..];
    } else {
      assert s == s[..2] + [':'] + s[3..];
    }
  }

  /** The converse: a text made of two fields around one colon reads as
      those fields do, so `strptime` accepts it exactly when the hour is at
      most 23 and the minute at most 59. */
  lemma ParseClockSplit(s: string, h: string, m: string)
    requires s == h + [':'] + m && IsField(h) && IsField(m)
    ensures ParseClock(s) == FromFields(h, m)
  {
    if |h| == 1 {
      assert s[1] == ':' && s[..1] == h && s[2..] == m;
    } else {
      assert s[1] == h[1] && IsDigit(h[1]);
      assert s[2] == ':' && s[..2] == h && s[3..] == m;
    }
  }

  /** Two-digit zero-padded rendering of 0..99 (`%02d`). */
  function TwoDigits(n: int): (s: string)
    requires 0 <= n < 100
    ensures |s| == 2 && AllDigits(s) && DigitsValue(s) == n
  {
    var s := [('0' as int + n / 10) as char, ('0' as int + n % 10) as char];
    assert s[..1] == [s[0]];
    s
  }

  /** `strftime("%H:%M")` of a minute of the day. */
  function FormatClock(t: int): (s: string)
    requires 0 <= t < MinutesPerDay
    ensures |s| == 5 && s[2] == ':'
  {
    TwoDigits(t / 60) + ":" + TwoDigits(t % 60)
  }

  lemma OneColon(h: string, m: string)
    ensures IsField(h) && IsField(m) ==> Count(h + [':'] + m, ':') == 1
  {
    assert h + [':'] + m == h + ([':'] + m);
    CountConcat(h, [':'] + m, ':');
    CountConcat([':'], m, ':');
    assert [':'][1..] == [];
    CountDigits(h, ':');
    CountDigits(m, ':');
  }

  /** Reading back what `strftime` wrote gives the same minute. */
  lemma ParseFormat(t: int)
    requires 0 <= t < MinutesPerDay
    ensures ParseClock(FormatClock(t)) == Some(t)
  {
    var s := FormatClock(t);
    assert s[..2] == TwoDigits(t / 60);
    assert s[3..] == TwoDigits(t % 60);
  }

  /** A five-character text that parses is exactly what `strftime` writes for
      its value: zero-padded `HH:MM` is the one canonical spelling. */
  lemma FormatParse(s: string)
    requires |s| == 5 && ParseClock(s).Some?
    ensures FormatClock(ParseClock(s).value) == s
  {
    var h, m := s[..2], s[3..];
    assert s[2] == ':' by {
      if s[1] == ':' {
        assert false;
      }
    }
    var t := ParseClock(s).value;
    assert t == DigitsValue(h) * 60 + DigitsValue(m);
    assert t / 60 == DigitsValue(h) && t % 60 == DigitsValue(m);
    var f := FormatClock(t);
    TwoDigitsUnique(h);
    TwoDigitsUnique(m);
    assert f == h + ":" + m;
    assert s == h + ":" + m;
  }

  /** A two-digit field is the zero-padded rendering of its own value. */
  lemma TwoDigitsUnique(s: string)
    requires |s| == 2 && AllDigits(s)
    ensures TwoDigits(DigitsValue(s)) == s
  {
    assert s[..1] == [s[0]];
    assert DigitsValue(s) == DigitValue(s[0]) * 10 + DigitValue(s[1]);
  }

  /** `strptime` also accepts unpadded fields: "9:5" is 09:05. */
  lemma UnpaddedAccepted()
    ensures ParseClock("9:5") == Some(545)
    ensures ParseClock("09:05") == Some(545)
  {
    assert "9:5"[..1] == "9";
    assert "09:05"[..2] == "09";
  }

  /** Hours past 23 and minutes past 59 are rejected. */
  lemma OutOfRangeRejected()
    ensures ParseClock("24:00").None? && ParseClock("09:60").None?
  {
    assert "24:00"[..2] == "24";
    assert "09:60"[3..] == "60";
  }

  /** A leading space or a third hour digit is rejected. */
  lemma MalformedRejected()
    ensures ParseClock(" 9:05").None? && ParseClock("009:05").None?
  {
    assert " 9:05"[..2] == " 9";
  }
}
