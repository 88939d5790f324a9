/** Reading and writing the time-range texts that label the schedule columns
    (`parse_time_range` in `get_stats` and `save_to_excel`, and the
    `"HH:MM-HH:MM"` strings the export writes). */
module Interval {
  import opened Results
  import opened Text
  import opened Clock

  /** A worked range as two minutes of the day. The code never checks that
      `end` lies after `start`, so neither does this type. */
  datatype TimeRange = TimeRange(start: int, end: int)

  predicate InDay(r: TimeRange) {
    0 <= r.start < MinutesPerDay && 0 <= r.end < MinutesPerDay
  }

  /** `re.sub(r"\s*~\s*", "-", s)`: every `~`, together with the whitespace
      on both sides of it, becomes one `-`. A match starts wherever the
      leading whitespace of the rest is followed by `~`. */
  function RewriteTildes(s: string): (r: string)
    ensures '~' !in r
    ensures Count(r, '-') == Count(s, '-') + Count(s, '~')
    decreases |s|
  {
    if s == [] then []
    else
      var t := TrimStart(s);
      if t != [] && t[0] == '~' then
        var k := |s| - |t|;
        var u := t[1..];
        TildeMatchCounts(s, k);
        CountTrimStart(u, '-');
        CountTrimStart(u, '~');
        "-" + RewriteTildes(TrimStart(u))
      else
        var rest := RewriteTildes(s[1..]);
        assert s == [s[0]] + s[1..];
        CountConcat([s[0]], s[1..], '-');
        CountConcat([s[0]], s[1..], '~');
        CountConcat([s[0]], rest, '-');
        [s[0]] + rest
  }

  /** Counting separators around a `~` match that starts at position 0 and
      whose `~` sits at position `k`. */
  lemma TildeMatchCounts(s: string, k: nat)
    requires k < |s| && s[k] == '~' && AllSpace(s[..k])
    ensures Count(s, '-') == Count(s[k + 1..], '-')
    ensures Count(s, '~') == 1 + Count(s[k + 1..], '~')
  {
    CountSlices(s, k, '-');
    CountSlices(s, k, '~');
    CountAllSpace(s[..k], '-');
    CountAllSpace(s[..k], '~');
    assert s[k..] == [s[k]] + s[k + 1..];
    CountConcat([s[k]], s[k + 1..], '-');
    CountConcat([s[k]], s[k + 1..], '~');
  }

  /** `parse_time_range`: rewrite `~` to `-`, split on `-`, demand exactly two
      parts, strip each, and read each as `%H:%M`. Any failure (wrong number
      of parts, a malformed clock) is `None`, the ValueError the caller skips. */
  function ParseRange(text: string): (r: Option<TimeRange>)
    ensures r.Some? ==> InDay(r.value)
    ensures r.Some? ==> Count(text, '-') + Count(text, '~') == 1
  {
    var parts := Split(RewriteTildes(text), '-');
    if |parts| != 2 then None
    else
      match (ParseClock(Strip(parts[0])), ParseClock(Strip(parts[1])))
      case (Some(a), Some(b)) => Some(TimeRange(a, b))
      case _ => None
  }

  /** An accepted text is one `-` (after the tilde rewrite) between two
      dash-free parts, each of which reads, once stripped, as the clock time
      it contributes. */
  lemma ParseRangeSound(text: string)
    requires ParseRange(text).Some?
    ensures exists a, b ::
      && RewriteTildes(text) == a + "-" + b && '-' !in a && '-' !in b
      && ParseClock(Strip(a)) == Some(ParseRange(text).value.start)
      && ParseClock(Strip(b)) == Some(ParseRange(text).value.end)
  {
    var parts := Split(RewriteTildes(text), '-');
    assert Join(parts, '-') == parts[0] + ['-'] + parts[1];
    assert RewriteTildes(text) == parts[0] + "-" + parts[1];
  }

  /** The converse: a text that rewrites to two dash-free parts around one
      `-` is accepted exactly when both stripped parts read as clock times,
      and then it is the range between them. */
  lemma ParseRangeParts(text: string, a: string, b: string)
    requires RewriteTildes(text) == a + "-" + b && '-' !in a && '-' !in b
    ensures ParseRange(text) ==
              if ParseClock(Strip(a)).Some? && ParseClock(Strip(b)).Some?
              then Some(TimeRange(ParseClock(Strip(a)).value, ParseClock(Strip(b)).value))
              else None
  {
    SplitTwo(a, b, '-');
  }

  /** The export's `f"{s.strftime('%H:%M')}-{e.strftime('%H:%M')}"`. */
  function FormatRange(r: TimeRange): (s: string)
    requires InDay(r)
    ensures |s| == 11 && s[5] == '-'
  {
    FormatClock(r.start) + "-" + FormatClock(r.end)
  }

  /** Text with no `~` passes through the rewrite untouched. */
  lemma {:induction false} RewriteWithoutTilde(s: string)
    requires '~' !in s
    ensures RewriteTildes(s) == s
  {
    if s != [] {
      assert s[1..] == s[|s| - |s[1..]|..];
      RewriteWithoutTilde(s[1..]);
    }
  }

  /** One step of the rewrite where no match starts at position 0. */
  lemma RewriteNoMatch(s: string)
    requires s != [] && (TrimStart(s) == [] || TrimStart(s)[0] != '~')
    ensures RewriteTildes(s) == [s[0]] + RewriteTildes(s[1..])
  {
  }

  /** One step of the rewrite where a match starts at position 0. */
  lemma RewriteMatch(s: string)
    requires TrimStart(s) != [] && TrimStart(s)[0] == '~'
    ensures RewriteTildes(s) == "-" + RewriteTildes(TrimStart(TrimStart(s)[1..]))
  {
  }

  /** The rewrite keeps `a` as it is and swallows the whitespace `ws` before a
      `~`, provided `a` has no `~` and does not itself end in whitespace. */
  lemma {:induction false} RewriteAcross(a: string, ws: string, u: string)
    requires '~' !in a && AllSpace(ws)
    requires a == [] || !IsSpace(a[|a| - 1])
    ensures RewriteTildes(a + (ws + "~" + u)) == a + "-" + RewriteTildes(TrimStart(u))
  {
    var x := ws + "~" + u;
    if a == [] {
      assert a + x == x;
      RewriteAfterSpaces(ws, u);
      assert a + "-" == "-";
    } else {
      var r := RewriteTildes(TrimStart(u));
      SeqAssoc([a[0]], a[1..], "-", r);
      assert [a[0]] + a[1..] == a;
      RewriteKeepsFirst(a, x);
      RewriteAcross(a[1..], ws, u);
      calc {
        RewriteTildes(a + x);
        [a[0]] + RewriteTildes(a[1..] + x);
        [a[0]] + (a[1..] + "-" + r);
        a + "-" + r;
      }
    }
  }

  lemma SeqAssoc(w: string, x: string, y: string, z: string)
    ensures w + (x + y + z) == w + x + y + z
  {
  }

  /** The first character of `a` survives the rewrite when `a` holds no `~`
      and ends in a non-space, whatever follows it. */
  lemma RewriteKeepsFirst(a: string, x: string)
    requires a != [] && '~' !in a && !IsSpace(a[|a| - 1])
    ensures RewriteTildes(a + x) == [a[0]] + RewriteTildes(a[1..] + x)
  {
    FirstNonSpaceInside(a, x);
    RewriteNoMatch(a + x);
    assert (a + x)[1..] == a[1..] + x;
  }

  /** A `~` after nothing but whitespace is a match at position 0. */
  lemma RewriteAfterSpaces(ws: string, u: string)
    requires AllSpace(ws)
    ensures RewriteTildes(ws + "~" + u) == "-" + RewriteTildes(TrimStart(u))
  {
    var s := ws + "~" + u;
    assert s == ws + ("~" + u);
    TrimStartPastSpaces(ws, "~" + u);
    assert TrimStart("~" + u) == "~" + u;
    assert ("~" + u)[1..] == u;
    RewriteMatch(s);
  }

  /** When `a` ends in a non-space, `lstrip` of `a + x` stops inside `a`. */
  lemma FirstNonSpaceInside(a: string, x: string)
    requires a != [] && !IsSpace(a[|a| - 1])
    ensures TrimStart(a + x) != []
    ensures TrimStart(a + x)[0] in a
  {
    var s := a + x;
    var t := TrimStart(s);
    var k := |s| - |t|;
    TrimStartStops(s, |a| - 1);
    assert t[0] == s[k] == a[k];
  }

  /** `"09:00~12:30"`, `"09:00 ~ 12:30"` and `"09:00-12:30"` read alike: a `~`
      with any whitespace around it is the same separator as a bare `-`. */
  lemma TildeSpelling(a: string, ws1: string, ws2: string, b: string)
    requires '~' !in a && '~' !in b && AllSpace(ws1) && AllSpace(ws2)
    requires a == [] || !IsSpace(a[|a| - 1])
    requires b == [] || !IsSpace(b[0])
    ensures ParseRange(a + ws1 + "~" + ws2 + b) == ParseRange(a + "-" + b)
  {
    assert a + ws1 + "~" + ws2 + b == a + (ws1 + "~" + (ws2 + b));
    RewriteAcross(a, ws1, ws2 + b);
    TrimStartPastSpaces(ws2, b);
    RewriteWithoutTilde(b);
    RewriteWithoutTilde(a + "-" + b);
  }

  /** Splitting on a separator that occurs exactly once, between two parts free of it. */
  lemma SplitTwo(a: string, b: string, c: char)
    requires c !in a && c !in b
    ensures Split(a + [c] + b, c) == [a, b]
  {
    var parts := Split(a + [c] + b, c);
    CountConcat(a + [c], b, c);
    CountConcat(a, [c], c);
    CountAbsent(a, c);
    CountAbsent(b, c);
    assert |parts| == 2;
    assert Join(parts, c) == parts[0] + [c] + parts[1];
    SeparatedUnique(parts[0], parts[1], a, b, c);
  }

  lemma CountAbsent(s: string, c: char)
    requires c !in s
    ensures Count(s, c) == 0
  {
    if s != [] {
      CountAbsent(s[1..], c);
    }
  }

  /** `x + c + y` has only one decomposition around a `c` that neither side holds. */
  lemma SeparatedUnique(x: string, y: string, a: string, b: string, c: char)
    requires c !in x && c !in y && c !in a && c !in b
    requires x + [c] + y == a + [c] + b
    ensures x == a && y == b
  {
    var s := a + [c] + b;
    assert |x| == |a| by {
      assert s[|x|] == c && s[|a|] == c;
    }
    assert x == s[..|x|] == a;
    assert y == s[|x| + 1..] == b;
  }

  /** Every character `strftime` writes is a digit or the colon. */
  lemma FormatClockChars(t: int)
    requires 0 <= t < MinutesPerDay
    ensures forall i :: 0 <= i < 5 ==> IsDigit(FormatClock(t)[i]) || FormatClock(t)[i] == ':'
  {
    ParseFormat(t);
  }

  /** Reading back an exported range gives the range that was written. */
  lemma FormatRangeRoundTrip(r: TimeRange)
    requires InDay(r)
    ensures ParseRange(FormatRange(r)) == Some(r)
  {
    FormatRangeParts(r);
    StripFormat(r.start);
    StripFormat(r.end);
    ParseFormat(r.start);
    ParseFormat(r.end);
  }

  /** The export's range text splits back into its two clock texts. */
  lemma FormatRangeParts(r: TimeRange)
    requires InDay(r)
    ensures Split(RewriteTildes(FormatRange(r)), '-') == [FormatClock(r.start), FormatClock(r.end)]
  {
    var a, b := FormatClock(r.start), FormatClock(r.end);
    FormatClockChars(r.start);
    FormatClockChars(r.end);
    var s := FormatRange(r);
    assert s == a + ['-'] + b;
    RewriteWithoutTilde(s);
    SplitTwo(a, b, '-');
  }

  /** A clock text written by `strftime` has nothing to strip. */
  lemma StripFormat(t: int)
    requires 0 <= t < MinutesPerDay
    ensures Strip(FormatClock(t)) == FormatClock(t)
  {
    var a := FormatClock(t);
    FormatClockChars(t);
    assert !IsSpace(a[0]) && !IsSpace(a[4]);
    StripClean(a);
  }

  /** `strftime` writes 09:00 and 12:30 as `"09:00"` and `"12:30"`. */
  lemma ClockTexts()
    ensures FormatClock(540) == "09:00" && FormatClock(750) == "12:30"
  {
    assert TwoDigits(9) == "09" && TwoDigits(0) == "00";
    assert TwoDigits(12) == "12" && TwoDigits(30) == "30";
  }

  /** A `~` between two exported clock texts, bare or with any run of
      spaces on either side, reads back as the range that was written:
      `"09:00~12:30"` and `"09:00 ~ 12:30"` both give 09:00 to 12:30. */
  lemma TildeSpellings(r: TimeRange, ws1: string, ws2: string)
    requires InDay(r) && AllSpace(ws1) && AllSpace(ws2)
    ensures ParseRange(FormatClock(r.start) + ws1 + "~" + ws2 + FormatClock(r.end)) == Some(r)
  {
    var a, b := FormatClock(r.start), FormatClock(r.end);
    FormatClockChars(r.start);
    FormatClockChars(r.end);
    assert '~' !in a && '~' !in b;
    assert !IsSpace(a[4]) && !IsSpace(b[0]);
    TildeSpelling(a, ws1, ws2, b);
    FormatRangeRoundTrip(r);
  }
}
