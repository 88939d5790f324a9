/** The handful of Python string operations the attendance code relies on:
    `str.strip`, `in` on strings, `str.split`, `str.replace` with an empty
    replacement, and `int(str)` in base 10. */
module Text {
  import opened Results

  /** Python's `str.isspace()`, which is also what `\s` matches in a `str` regex. */
  predicate IsSpace(c: char) {
    ('\t' <= c <= '\r') || ('\U{1C}' <= c <= '\U{1F}') || c == ' ' || c == '\U{85}' ||
    c == '\U{A0}' || c == '\U{1680}' || ('\U{2000}' <= c <= '\U{200A}') ||
    c == '\U{2028}' || c == '\U{2029}' || c == '\U{202F}' || c == '\U{205F}' || c == '\U{3000}'
  }

  predicate AllSpace(s: string) {
    forall i :: 0 <= i < |s| ==> IsSpace(s[i])
  }

  /** How many whitespace characters `s` starts with. */
  function LeadingSpaces(s: string): (k: nat)
    ensures k <= |s| && AllSpace(s[..k])
    ensures k < |s| ==> !IsSpace(s[k])
  {
    if |s| > 0 && IsSpace(s[0]) then
      var k := 1 + LeadingSpaces(s[1..]);
      assert s[..k] == [s[0]] + s[1..][..k - 1];
      k
    else 0
  }

  /** `s.lstrip()`: the suffix left after dropping every leading whitespace character. */
  function TrimStart(s: string): (r: string)
    ensures |r| <= |s| && r == s[|s| - |r|..]
    ensures AllSpace(s[..|s| - |r|])
    ensures r == [] || !IsSpace(r[0])
  {
    s[LeadingSpaces(s)..]
  }

  /** How many whitespace characters `s` ends with. */
  function TrailingSpaces(s: string): (k: nat)
    ensures k <= |s| && AllSpace(s[|s| - k..])
    ensures k < |s| ==> !IsSpace(s[|s| - k - 1])
  {
    if |s| > 0 && IsSpace(s[|s| - 1]) then
      var j := TrailingSpaces(s[..|s| - 1]);
      TrailingStep(s, j);
      1 + j
    else 0
  }

  /** One more trailing space in front of the `j` already counted. */
  lemma TrailingStep(s: string, j: nat)
    requires |s| > 0 && IsSpace(s[|s| - 1])
    requires j < |s| && AllSpace(s[..|s| - 1][|s| - 1 - j..])
    requires j < |s| - 1 ==> !IsSpace(s[..|s| - 1][|s| - 2 - j])
    ensures AllSpace(s[|s| - 1 - j..])
    ensures j + 1 < |s| ==> !IsSpace(s[|s| - 2 - j])
  {
    var t := s[..|s| - 1];
    forall i | |s| - 1 - j <= i < |s|
      ensures IsSpace(s[i])
    {
      if i < |s| - 1 {
        assert s[i] == t[i] == t[|s| - 1 - j..][i - (|s| - 1 - j)];
      }
    }
  }

  /** `s.rstrip()`: the prefix left after dropping every trailing whitespace character. */
  function TrimEnd(s: string): (r: string)
    ensures |r| <= |s| && r == s[..|r|]
    ensures AllSpace(s[|r|..])
    ensures r == [] || !IsSpace(r[|r| - 1])
  {
    s[..|s| - TrailingSpaces(s)]
  }

  /** `s.strip()`. */
  function Strip(s: string): (r: string)
    ensures |r| <= |s|
    ensures r == [] || (!IsSpace(r[0]) && !IsSpace(r[|r| - 1]))
  {
    TrimEnd(TrimStart(s))
  }

  /** What `strip()` removes is whitespace only: the result is a slice of
      the input with nothing but whitespace before and after it. */
  lemma StripSlice(s: string)
    ensures exists i, j :: 0 <= i <= j <= |s| && Strip(s) == s[i..j] && AllSpace(s[..i]) && AllSpace(s[j..])
  {
    var u := TrimStart(s);
    var i := |s| - |u|;
    StripBounds(s, i, i + |TrimEnd(u)|);
  }

  /** The slice `strip()` keeps runs from the first to past the last non-space. */
  lemma StripBounds(s: string, i: nat, j: int)
    requires i == |s| - |TrimStart(s)| && j == i + |TrimEnd(TrimStart(s))|
    ensures 0 <= i <= j <= |s| && Strip(s) == s[i..j] && AllSpace(s[..i]) && AllSpace(s[j..])
  {
    var u := TrimStart(s);
    SliceShift(s, i, j);
    assert s[i..] == u;
  }

  lemma SliceShift(s: string, i: nat, j: nat)
    requires i <= j <= |s|
    ensures s[i..][..j - i] == s[i..j] && s[i..][j - i..] == s[j..]
  {
  }

  /** Python's `sub in s`: `sub` occurs as a contiguous block of `s`. */
  predicate Contains(s: string, sub: string)
    decreases |s|
  {
    |sub| <= |s| && (s[..|sub|] == sub || Contains(s[1..], sub))
  }

  function Count(s: string, c: char): nat
  {
    if s == [] then 0 else (if s[0] == c then 1 else 0) + Count(s[1..], c)
  }

  /** Joins `parts` with `c` between consecutive parts (`c.join(parts)` in Python). */
  function Join(parts: seq<string>, c: char): string
    requires |parts| >= 1
  {
    if |parts| == 1 then parts[0] else parts[0] + [c] + Join(parts[1..], c)
  }

  /** `s.split(c)` for a one-character separator: there is exactly one more part
      than separators, no part holds the separator, and joining the parts with
      the separator gives back `s`. */
  function Split(s: string, c: char): (parts: seq<string>)
    ensures |parts| == Count(s, c) + 1
    ensures forall k :: 0 <= k < |parts| ==> c !in parts[k]
    ensures Join(parts, c) == s
  {
    if |s| == 0 then [""]
    else
      var rest := Split(s[1..], c);
      if s[0] == c then
        assert s == [c] + s[1..];
        [""] + rest
      else
        var parts := [[s[0]] + rest[0]] + rest[1..];
        assert parts[1..] == rest[1..];
        assert s == [s[0]] + s[1..];
        parts
  }

  /** `s.replace(c, "")`: every `c` is removed and nothing else changes. */
  function RemoveAll(s: string, c: char): (r: string)
    ensures c !in r
    ensures |r| == |s| - Count(s, c)
    ensures forall x :: x != c ==> (x in r <==> x in s)
  {
    if s == [] then []
    else if s[0] == c then RemoveAll(s[1..], c)
    else [s[0]] + RemoveAll(s[1..], c)
  }

  lemma CountConcat(a: string, b: string, c: char)
    ensures Count(a + b, c) == Count(a, c) + Count(b, c)
  {
    if a == [] {
      assert a + b == b;
    } else {
      assert (a + b)[1..] == a[1..] + b;
    }
  }

  lemma CountDigits(s: string, c: char)
    requires !IsDigit(c)
    ensures AllDigits(s) ==> Count(s, c) == 0
  {
    if s != [] {
      CountDigits(s[1..], c);
    }
  }

  /** Whitespace holds no separator or digit. */
  lemma CountAllSpace(s: string, c: char)
    requires AllSpace(s) && !IsSpace(c)
    ensures Count(s, c) == 0
  {
    if s != [] {
      CountAllSpace(s[1..], c);
    }
  }

  lemma CountSlices(s: string, k: nat, c: char)
    requires k <= |s|
    ensures Count(s, c) == Count(s[..k], c) + Count(s[k..], c)
  {
    assert s == s[..k] + s[k..];
    CountConcat(s[..k], s[k..], c);
  }

  /** Dropping leading whitespace keeps every non-space character. */
  lemma CountTrimStart(s: string, c: char)
    requires !IsSpace(c)
    ensures Count(TrimStart(s), c) == Count(s, c)
  {
    var t := TrimStart(s);
    CountSlices(s, |s| - |t|, c);
    CountAllSpace(s[..|s| - |t|], c);
  }

  /** Leading whitespace makes no difference to `lstrip`. */
  lemma TrimStartPastSpaces(ws: string, x: string)
    requires AllSpace(ws)
    ensures TrimStart(ws + x) == TrimStart(x)
  {
    if ws != [] {
      assert (ws + x)[1..] == ws[1..] + x;
      TrimStartPastSpaces(ws[1..], x);
    } else {
      assert ws + x == x;
    }
  }

  /** `lstrip` stops at the first non-space character. */
  lemma {:induction false} TrimStartStops(s: string, i: nat)
    requires i < |s| && !IsSpace(s[i])
    ensures |s| - |TrimStart(s)| <= i
  {
    if IsSpace(s[0]) {
      TrimStartStops(s[1..], i - 1);
    }
  }

  /** A text with no whitespace at either end is its own `strip()`. */
  lemma StripClean(s: string)
    requires s == [] || (!IsSpace(s[0]) && !IsSpace(s[|s| - 1]))
    ensures Strip(s) == s
  {
  }

  predicate IsDigit(c: char) {
    '0' <= c <= '9'
  }

  predicate AllDigits(s: string) {
    forall i :: 0 <= i < |s| ==> IsDigit(s[i])
  }

  function DigitValue(c: char): nat
    requires IsDigit(c)
  {
    (c as int) - ('0' as int)
  }

  /** The value of a string of decimal digits, most significant first. */
  function DigitsValue(s: string): (n: nat)
    requires AllDigits(s)
    ensures n < Power10(|s|)
  {
    if s == [] then 0 else DigitsValue(s[..|s| - 1]) * 10 + DigitValue(s[|s| - 1])
  }

  function Power10(k: nat): (p: nat)
    ensures p >= 1
  {
    if k == 0 then 1 else 10 * Power10(k - 1)
  }

  /** Python's `int(s)` in base 10: surrounding whitespace is ignored, an
      optional sign is allowed, and at least one digit must follow. */
  function ParseInt(s: string): (r: Option<int>)
    ensures r.Some? ==> Strip(s) != [] && IsDigit(Strip(s)[|Strip(s)| - 1])
    ensures r.Some? && r.value < 0 ==> Strip(s)[0] == '-'
  {
    ParseStripped(Strip(s))
  }

  /** `int()` once the surrounding whitespace is gone. */
  function ParseStripped(t: string): (r: Option<int>)
  {
    if |t| > 0 && (t[0] == '+' || t[0] == '-') then
      var ds := t[1..];
      if |ds| > 0 && AllDigits(ds) then
        assert IsDigit(t[1]);
        var v: int := DigitsValue(ds);
        Some(if t[0] == '-' then -v else v)
      else None
    else if |t| > 0 && AllDigits(t) then
      assert IsDigit(t[0]);
      Some(DigitsValue(t))
    else None
  }

  /** What `int()` accepts: once stripped, the text is a run of digits,
      with at most a `+` or `-` in front, and the value is theirs. */
  lemma ParseIntSound(s: string)
    ensures ParseInt(s).Some? ==>
              exists ds :: |ds| > 0 && AllDigits(ds) &&
                ((Strip(s) == ds && ParseInt(s).value == DigitsValue(ds)) ||
                 (Strip(s) == "+" + ds && ParseInt(s).value == DigitsValue(ds)) ||
                 (Strip(s) == "-" + ds && ParseInt(s).value == -(DigitsValue(ds) as int)))
  {
    StrippedSound(Strip(s));
  }

  lemma StrippedSound(t: string)
    ensures ParseStripped(t).Some? ==>
              exists ds :: |ds| > 0 && AllDigits(ds) &&
                ((t == ds && ParseStripped(t).value == DigitsValue(ds)) ||
                 (t == "+" + ds && ParseStripped(t).value == DigitsValue(ds)) ||
                 (t == "-" + ds && ParseStripped(t).value == -(DigitsValue(ds) as int)))
  {
    if ParseStripped(t).Some? && (t[0] == '+' || t[0] == '-') {
      var ds := t[1..];
      assert t == [t[0]] + ds;
    }
  }

  /** `int()` of plain digits is their value. */
  lemma ParseIntDigits(s: string)
    requires |s| > 0 && AllDigits(s)
    ensures ParseInt(s) == Some(DigitsValue(s))
  {
    StripDigits(s);
    UnsignedDigits(s);
  }

  /** A sign in front of digits: `-` negates their value and `+` keeps it. */
  lemma ParseIntSigned(sign: char, ds: string)
    requires (sign == '-' || sign == '+') && |ds| > 0 && AllDigits(ds)
    ensures ParseInt([sign] + ds) == Some((if sign == '-' then -1 else 1) * DigitsValue(ds))
  {
    var t := [sign] + ds;
    assert t[|t| - 1] == ds[|ds| - 1];
    StripClean(t);
    SignedStripped(sign, ds);
  }

  lemma SignedStripped(sign: char, ds: string)
    requires (sign == '-' || sign == '+') && |ds| > 0 && AllDigits(ds)
    ensures ParseStripped([sign] + ds) == Some((if sign == '-' then -1 else 1) * DigitsValue(ds))
  {
    assert ([sign] + ds)[1..] == ds;
  }

  /** `int()` accepts no text without a digit. */
  lemma ParseIntHasDigit(s: string)
    ensures ParseInt(s).Some? ==> exists i :: 0 <= i < |s| && IsDigit(s[i])
  {
    var u := TrimStart(s);
    var t := TrimEnd(u);
    if ParseStripped(t).Some? {
      var i := if t[0] == '+' || t[0] == '-' then 1 else 0;
      assert IsDigit(t[i]);
      assert t[i] == u[i] == s[|s| - |u| + i];
    }
  }

  /** A text that starts with neither a sign nor a digit is not a number. */
  lemma NoLeadingDigit(t: string)
    requires t != [] && !IsDigit(t[0]) && t[0] != '+' && t[0] != '-'
    ensures ParseStripped(t) == None
  {
    assert !AllDigits(t);
  }

  /** A single digit's value. */
  lemma OneDigit(c: char)
    requires IsDigit(c)
    ensures DigitsValue([c]) == DigitValue(c)
  {
    assert [c][..0] == [];
  }

  lemma StripDigits(s: string)
    requires |s| > 0 && AllDigits(s)
    ensures Strip(s) == s
  {
    assert IsDigit(s[0]) && IsDigit(s[|s| - 1]);
    StripClean(s);
  }

  lemma UnsignedDigits(t: string)
    requires |t| > 0 && AllDigits(t)
    ensures ParseStripped(t) == Some(DigitsValue(t))
  {
    assert IsDigit(t[0]);
  }

  /** Removing a character that is not there changes nothing. */
  lemma {:induction false} RemoveAbsent(s: string, c: char)
    requires c !in s
    ensures RemoveAll(s, c) == s
  {
    if s != [] {
      RemoveAbsent(s[1..], c);
      assert [s[0]] + s[1..] == s;
    }
  }

  lemma {:induction false} RemoveConcat(a: string, b: string, c: char)
    ensures RemoveAll(a + b, c) == RemoveAll(a, c) + RemoveAll(b, c)
  {
    if a == [] {
      assert a + b == b;
    } else {
      assert (a + b)[0] == a[0] && (a + b)[1..] == a[1..] + b;
      RemoveConcat(a[1..], b, c);
    }
  }

  /** A field free of the separator, then the separator, splits off as the
      first part. */
  lemma {:induction false} SplitCons(a: string, b: string, c: char)
    requires c !in a
    ensures Split(a + [c] + b, c) == [a] + Split(b, c)
  {
    var s := a + [c] + b;
    if a == [] {
      assert s == [c] + b && s[1..] == b;
    } else {
      assert s[0] == a[0] != c;
      assert s[1..] == a[1..] + [c] + b;
      SplitCons(a[1..], b, c);
      var rest := Split(s[1..], c);
      assert rest[0] == a[1..] && rest[1..] == Split(b, c);
      assert [s[0]] + rest[0] == a;
    }
  }

  /** `s.split(c)[0]`: the text before the first `c`. */
  function FirstPart(s: string, c: char): (r: string)
    ensures |r| <= |s| && c !in r && r == s[..|r|]
    ensures |r| < |s| ==> s[|r|] == c
  {
    if s == [] || s[0] == c then []
    else
      var r := FirstPart(s[1..], c);
      assert [s[0]] + r == s[..|r| + 1];
      [s[0]] + r
  }

  /** The first part ends at the first separator. */
  lemma {:induction false} FirstPartAt(s: string, c: char, k: nat)
    requires k < |s| && s[k] == c && c !in s[..k]
    ensures FirstPart(s, c) == s[..k]
  {
    if k > 0 {
      assert s[0] in s[..k];
      assert s[1..][..k - 1] == s[1..k];
      FirstPartAt(s[1..], c, k - 1);
      assert [s[0]] + s[1..k] == s[..k];
    }
  }

  /** The first part of a split is the text before the first separator. */
  lemma {:induction false} FirstPartSplit(s: string, c: char)
    ensures Split(s, c)[0] == FirstPart(s, c)
  {
    if s != [] && s[0] != c {
      FirstPartSplit(s[1..], c);
    }
  }

  lemma {:induction false} SplitJoin(parts: seq<string>, c: char)
    requires |parts| >= 1 && forall k :: 0 <= k < |parts| ==> c !in parts[k]
    ensures Split(Join(parts, c), c) == parts
  {
    if |parts| == 1 {
      SplitNone(parts[0], c);
    } else {
      SplitJoin(parts[1..], c);
      SplitCons(parts[0], Join(parts[1..], c), c);
      assert [parts[0]] + parts[1..] == parts;
    }
  }

  /** Text without the separator is one part. */
  lemma {:induction false} SplitNone(s: string, c: char)
    requires c !in s
    ensures Split(s, c) == [s]
  {
    if s != [] {
      SplitNone(s[1..], c);
      assert [s[0]] + s[1..] == s;
    }
  }
}
