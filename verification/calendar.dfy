/** Placing the sheet's day labels on the calendar. A sheet covers one
    period that starts in a chosen month; its labels carry only the day of
    the month ("28일"), so the code walks the labels in order, moves to the
    next month whenever the day number goes down, and builds a
    `datetime.date` for each to find its weekday. */
module Calendar {
  import opened Results
  import opened Text

  /** `datetime.MINYEAR` and `datetime.MAXYEAR`. */
  const MinYear := 1
  const MaxYear := 9999

  predicate IsLeap(y: int) {
    y % 4 == 0 && (y % 100 != 0 || y % 400 == 0)
  }

  function DaysInMonth(y: int, m: int): (n: int)
    requires 1 <= m <= 12
    ensures 28 <= n <= 31
    ensures n == 29 <==> (m == 2 && IsLeap(y))
  {
    if m == 2 then (if IsLeap(y) then 29 else 28)
    else if m == 4 || m == 6 || m == 9 || m == 11 then 30
    else 31
  }

  /** What `date(y, m, d)` accepts; anything else raises ValueError. */
  predicate ValidDate(y: int, m: int, d: int) {
    MinYear <= y <= MaxYear && 1 <= m <= 12 && 1 <= d <= DaysInMonth(y, m)
  }

  function DaysInYear(y: int): int {
    if IsLeap(y) then 366 else 365
  }

  /** Days in the years before `y` (proleptic Gregorian calendar). */
  function DaysBeforeYear(y: int): int
    requires y >= 1
  {
    var p := y - 1;
    p * 365 + p / 4 - p / 100 + p / 400
  }

  /** Days in the months of year `y` before month `m`. */
  function DaysBeforeMonth(y: int, m: int): (n: int)
    requires 1 <= m <= 12
    ensures 0 <= n <= 31 * (m - 1)
  {
    if m == 1 then 0 else DaysBeforeMonth(y, m - 1) + DaysInMonth(y, m - 1)
  }

  /** `date.toordinal()`: 0001-01-01 is day 1. */
  function Ordinal(y: int, m: int, d: int): (n: int)
    requires ValidDate(y, m, d)
    ensures n >= 1
  {
    DaysBeforeYear(y) + DaysBeforeMonth(y, m) + d
  }

  /** `date.weekday()`: Monday is 0 and Sunday is 6. */
  function Weekday(y: int, m: int, d: int): (w: int)
    requires ValidDate(y, m, d)
    ensures 0 <= w < 7
  {
    (Ordinal(y, m, d) + 6) % 7
  }

  /** The day after a valid date, where there is one. */
  function NextDate(y: int, m: int, d: int): (r: (int, int, int))
    requires ValidDate(y, m, d) && !(y == MaxYear && m == 12 && d == 31)
    ensures ValidDate(r.0, r.1, r.2)
  {
    if d < DaysInMonth(y, m) then (y, m, d + 1)
    else if m < 12 then (y, m + 1, 1)
    else (y + 1, 1, 1)
  }

  lemma YearLength(y: int)
    requires y >= 1
    ensures DaysBeforeYear(y + 1) == DaysBeforeYear(y) + DaysInYear(y)
  {
    var p := y - 1;
    Succ4(p);
    Succ100(p);
    Succ400(p);
  }

  /** Counting multiples of 4, 100 and 400: one more is reached exactly
      when `p + 1` is one. */
  lemma Succ4(p: int)
    requires p >= 0
    ensures (p + 1) / 4 == p / 4 + (if (p + 1) % 4 == 0 then 1 else 0)
  {
  }

  lemma Succ100(p: int)
    requires p >= 0
    ensures (p + 1) / 100 == p / 100 + (if (p + 1) % 100 == 0 then 1 else 0)
  {
  }

  lemma Succ400(p: int)
    requires p >= 0
    ensures (p + 1) / 400 == p / 400 + (if (p + 1) % 400 == 0 then 1 else 0)
  {
  }

  lemma MonthsFillYear(y: int)
    ensures DaysBeforeMonth(y, 12) + 31 == DaysInYear(y)
  {
    var feb := if IsLeap(y) then 29 else 28;
    assert DaysBeforeMonth(y, 3) == 31 + feb;
    assert DaysBeforeMonth(y, 4) == DaysBeforeMonth(y, 3) + 31;
    assert DaysBeforeMonth(y, 5) == DaysBeforeMonth(y, 4) + 30;
    assert DaysBeforeMonth(y, 6) == DaysBeforeMonth(y, 5) + 31;
    assert DaysBeforeMonth(y, 7) == DaysBeforeMonth(y, 6) + 30;
    assert DaysBeforeMonth(y, 8) == DaysBeforeMonth(y, 7) + 31;
    assert DaysBeforeMonth(y, 9) == DaysBeforeMonth(y, 8) + 31;
    assert DaysBeforeMonth(y, 10) == DaysBeforeMonth(y, 9) + 30;
    assert DaysBeforeMonth(y, 11) == DaysBeforeMonth(y, 10) + 31;
    assert DaysBeforeMonth(y, 12) == DaysBeforeMonth(y, 11) + 30;
  }

  /** The ordinal counts days: the next date is one ordinal further on. */
  lemma OrdinalNext(y: int, m: int, d: int)
    requires ValidDate(y, m, d) && !(y == MaxYear && m == 12 && d == 31)
    ensures var n := NextDate(y, m, d); Ordinal(n.0, n.1, n.2) == Ordinal(y, m, d) + 1
  {
    if d == DaysInMonth(y, m) && m == 12 {
      YearLength(y);
      MonthsFillYear(y);
    }
  }

  /** Weekdays run in a cycle: the next day is the next weekday. */
  lemma WeekdayNext(y: int, m: int, d: int)
    requires ValidDate(y, m, d) && !(y == MaxYear && m == 12 && d == 31)
    ensures var n := NextDate(y, m, d); Weekday(n.0, n.1, n.2) == (Weekday(y, m, d) + 1) % 7
  {
    OrdinalNext(y, m, d);
    var n := NextDate(y, m, d);
    var o := Ordinal(y, m, d);
    assert Weekday(n.0, n.1, n.2) == (o + 7) % 7;
    Mod7Step(o + 6);
  }

  lemma Mod7Step(a: int)
    ensures (a + 1) % 7 == (a % 7 + 1) % 7
  {
    var q := a / 7;
    assert a == 7 * q + a % 7;
    if a % 7 == 6 {
      assert a + 1 == 7 * (q + 1);
    } else {
      assert a + 1 == 7 * q + (a % 7 + 1);
    }
  }

  /** The calendar's anchor: 0001-01-01 was a Monday. */
  lemma FirstDayMonday()
    ensures Weekday(1, 1, 1) == 0
  {
  }

  /** `int(d_str.replace("일", ""))`: drop every `일` and read what is left
      as an integer. */
  function ParseDayLabel(text: string): Option<int> {
    ParseInt(RemoveAll(text, '일'))
  }

  /** `int(selected_range.split("-")[0])`: the period is written
      `"start-end"` and only its start month is read. */
  function StartMonth(selection: string): Option<int> {
    ParseInt(FirstPart(selection, '-'))
  }

  /** The start month is read from the first part of `split("-")`. */
  lemma StartMonthSplit(selection: string)
    ensures StartMonth(selection) == ParseInt(Split(selection, '-')[0])
  {
    FirstPartSplit(selection, '-');
  }

  /** Only the start of the period counts: `"4-5"` and `"4-12"` both start in April. */
  lemma StartMonthIgnoresEnd(a: string, b: string)
    requires '-' !in a
    ensures StartMonth(a + "-" + b) == ParseInt(a)
  {
    var s := a + "-" + b;
    assert s[..|a|] == a && s[|a|] == '-';
    FirstPartAt(s, '-', |a|);
  }

  /** `cur_month += 1`, wrapping from December to January of the next year. */
  function Bump(y: int, m: int): (r: (int, int))
    ensures 1 <= m <= 12 ==> 1 <= r.1 <= 12 && MonthIndex(r.0, r.1) == MonthIndex(y, m) + 1
  {
    if m + 1 > 12 then (y + 1, 1) else (y, m + 1)
  }

  /** Months counted from year 0: consecutive months differ by one. */
  function MonthIndex(y: int, m: int): int {
    y * 12 + (m - 1)
  }

  /** One placed label: its date and weekday. */
  datatype CalendarDay = CalendarDay(year: int, month: int, day: int, weekday: int)

  predicate Placed(c: CalendarDay) {
    ValidDate(c.year, c.month, c.day) && c.weekday == Weekday(c.year, c.month, c.day)
  }

  /** Whether day `d` after day `prev` starts a new month (`prev_day and
      day_int < prev_day`; a `prev` of 0 means no label was placed yet). */
  predicate Rolls(prev: int, d: int) {
    prev != 0 && d < prev
  }

  /** `c` is where the loop puts the next label after month `(y, m)` and
      day `prev`: the same month, or the next one if the day number fell. */
  predicate Follows(y: int, m: int, prev: int, c: CalendarDay) {
    (c.year, c.month) == (if Rolls(prev, c.day) then Bump(y, m) else (y, m))
  }

  /** `c` is a real date, with its weekday, whose day number `text` reads as. */
  predicate Reads(text: string, c: CalendarDay) {
    Placed(c) && ParseDayLabel(text) == Some(c.day)
  }

  /** The errors the loop can raise: a label that is not a number, or a
      date that does not exist. */
  predicate Explains(e: Failure, labels: seq<string>) {
    (e.BadDayLabel? && e.dayText in labels && ParseDayLabel(e.dayText).None?) ||
    (e.InvalidDate? && !ValidDate(e.year, e.month, e.day))
  }

  /** The loop over the labels from the current `(year, month, prev)` on.
      The first label that does not read as a number, or the first date
      `datetime.date` rejects, ends it with that error. */
  function ProjectFrom(labels: seq<string>, year: int, month: int, prev: int): (r: Result<seq<CalendarDay>, Failure>)
    ensures r.Ok? ==> |r.value| == |labels|
    ensures r.Ok? ==> forall i :: 0 <= i < |labels| ==> Reads(labels[i], r.value[i])
    ensures r.Ok? && labels != [] ==> Follows(year, month, prev, r.value[0])
    ensures r.Ok? ==> forall i :: 0 < i < |labels| ==>
              Follows(r.value[i - 1].year, r.value[i - 1].month, r.value[i - 1].day, r.value[i])
    ensures r.Err? ==> Explains(r.error, labels)
    decreases |labels|
  {
    if labels == [] then Ok([])
    else
      match ParseDayLabel(labels[0])
      case None => Err(BadDayLabel(labels[0]))
      case Some(d) =>
        var (y, m) := if Rolls(prev, d) then Bump(year, month) else (year, month);
        if !ValidDate(y, m, d) then Err(InvalidDate(y, m, d))
        else
          var here := CalendarDay(y, m, d, Weekday(y, m, d));
          match ProjectFrom(labels[1..], y, m, d)
          case Err(e) =>
            ExplainsWider(e, labels[1..], labels);
            Err(e)
          case Ok(rest) =>
            ConsSteps(labels, here, rest);
            Ok([here] + rest)
  }

  lemma ExplainsWider(e: Failure, part: seq<string>, labels: seq<string>)
    requires Explains(e, part) && forall x :: x in part ==> x in labels
    ensures Explains(e, labels)
  {
  }

  lemma ConsSteps(labels: seq<string>, here: CalendarDay, rest: seq<CalendarDay>)
    requires labels != [] && |rest| == |labels| - 1
    requires Reads(labels[0], here)
    requires forall i :: 0 <= i < |rest| ==> Reads(labels[1..][i], rest[i])
    requires rest != [] ==> Follows(here.year, here.month, here.day, rest[0])
    requires forall i :: 0 < i < |rest| ==> Follows(rest[i - 1].year, rest[i - 1].month, rest[i - 1].day, rest[i])
    ensures forall i :: 0 <= i < |labels| ==> Reads(labels[i], ([here] + rest)[i])
    ensures forall i :: 0 < i < |labels| ==>
              Follows(([here] + rest)[i - 1].year, ([here] + rest)[i - 1].month, ([here] + rest)[i - 1].day, ([here] + rest)[i])
  {
    var out := [here] + rest;
    forall i | 0 < i < |labels|
      ensures Reads(labels[i], out[i])
      ensures Follows(out[i - 1].year, out[i - 1].month, out[i - 1].day, out[i])
    {
      assert out[i] == rest[i - 1] && labels[i] == labels[1..][i - 1];
      if i > 1 {
        assert out[i - 1] == rest[i - 2];
      }
    }
  }

  /** The calendar step of the code: read the start month from the chosen
      period, then place every label, starting in that month of `year`.
      An unreadable period fails before any label is looked at. */
  function Project(labels: seq<string>, selection: string, year: int): (r: Result<seq<CalendarDay>, Failure>)
    ensures StartMonth(selection).None? ==> r == Err(BadSelection(selection))
    ensures r.Ok? ==> |r.value| == |labels| && Chain(r.value)
    ensures r.Ok? ==> forall i :: 0 <= i < |labels| ==> ParseDayLabel(labels[i]) == Some(r.value[i].day)
    ensures r.Ok? && labels != [] ==>
              r.value[0].year == year && r.value[0].month == StartMonth(selection).value
    ensures r.Err? ==> r.error.BadSelection? || Explains(r.error, labels)
  {
    match StartMonth(selection)
    case None => Err(BadSelection(selection))
    case Some(m) =>
      var r := ProjectFrom(labels, year, m, 0);
      if r.Ok? then
        assert Chain(r.value) by {
          forall j | 0 <= j < |r.value| ensures Placed(r.value[j]) {
            assert Reads(labels[j], r.value[j]);
          }
        }
        assert labels != [] ==> Follows(year, m, 0, r.value[0]);
        r
      else r
  }

  /** How many times the day number goes down along `days`. */
  function Drops(days: seq<int>): nat {
    if |days| < 2 then 0
    else Drops(days[..|days| - 1]) + (if days[|days| - 1] < days[|days| - 2] then 1 else 0)
  }

  function Days(cs: seq<CalendarDay>): (ds: seq<int>)
    ensures |ds| == |cs| && forall i :: 0 <= i < |cs| ==> ds[i] == cs[i].day
  {
    if cs == [] then [] else Days(cs[..|cs| - 1]) + [cs[|cs| - 1].day]
  }

  /** After a real date, a fall in the day number is one month on, and
      anything else stays in the same month. */
  lemma FollowsIndex(p: CalendarDay, c: CalendarDay)
    requires Placed(p) && Follows(p.year, p.month, p.day, c)
    ensures MonthIndex(c.year, c.month) == MonthIndex(p.year, p.month) + (if c.day < p.day then 1 else 0)
  {
  }

  /** A run of placed dates, each following the one before it. */
  predicate Chain(out: seq<CalendarDay>) {
    (forall i :: 0 <= i < |out| ==> Placed(out[i])) &&
    (forall i :: 0 < i < |out| ==> Follows(out[i - 1].year, out[i - 1].month, out[i - 1].day, out[i]))
  }

  /** Along a chain, every fall in the day number moves exactly one
      calendar month on and nothing else does. */
  lemma {:induction false} ChainAdvance(out: seq<CalendarDay>, i: nat)
    requires Chain(out) && i < |out|
    ensures MonthIndex(out[i].year, out[i].month) == MonthIndex(out[0].year, out[0].month) + Drops(Days(out)[..i + 1])
  {
    var ds := Days(out);
    if i == 0 {
      assert ds[..1] == [ds[0]];
    } else {
      ChainAdvance(out, i - 1);
      assert ds[..i + 1][..i] == ds[..i];
      FollowsIndex(out[i - 1], out[i]);
    }
  }

  /** The `i`-th label lies as many months after the start month as the day
      number has fallen up to it; December rolls over into January of the
      next year. So a sheet whose day numbers fall twice spans three months. */
  lemma MonthsAdvance(labels: seq<string>, selection: string, year: int, i: nat)
    requires Project(labels, selection, year).Ok? && i < |labels|
    ensures var out := Project(labels, selection, year).value;
            MonthIndex(out[i].year, out[i].month)
              == MonthIndex(year, StartMonth(selection).value) + Drops(Days(out)[..i + 1])
  {
    ChainAdvance(Project(labels, selection, year).value, i);
  }

  /** A label written as digits followed by `일` reads as those digits. */
  lemma DigitsThenIl(ds: string)
    requires |ds| > 0 && AllDigits(ds)
    ensures ParseDayLabel(ds + "일") == Some(DigitsValue(ds))
  {
    assert '일' !in ds;
    RemoveConcat(ds, "일", '일');
    RemoveAbsent(ds, '일');
    assert RemoveAll("일", '일') == [];
    assert RemoveAll(ds + "일", '일') == ds;
    ParseIntDigits(ds);
  }

  /** How the sheet's labels read: `"30일"` is day 30, and a missing label,
      which the code turns into the text `"nan"`, is no number at all. */
  lemma Day30()
    ensures ParseDayLabel("30일") == Some(30)
  {
    var ds := "30";
    DigitsThenIl(ds);
    assert ds[..1] == "3";
    assert DigitsValue(ds) == 30;
    assert ds + "일" == "30일";
  }

  lemma NanLabel()
    ensures ParseDayLabel("nan") == None
  {
    var s := "nan";
    assert s[0] == 'n' && s[|s| - 1] == 'n' && '일' !in s;
    WordLabel(s);
  }

  /** A label with no `일`, nothing to strip, and neither a sign nor a digit
      in front is not a number. */
  lemma WordLabel(t: string)
    requires t != [] && '일' !in t
    requires !IsSpace(t[0]) && !IsSpace(t[|t| - 1])
    requires !IsDigit(t[0]) && t[0] != '+' && t[0] != '-'
    ensures ParseDayLabel(t) == None
  {
    RemoveAbsent(t, '일');
    StripClean(t);
    NoLeadingDigit(t);
  }

  lemma FourReads()
    ensures ParseInt("4") == Some(4)
  {
    var s := "4";
    assert s == ['4'];
    ParseIntDigits(s);
    OneDigit('4');
  }

  lemma AprilSelection()
    ensures StartMonth("4-5") == Some(4)
  {
    var s := "4-5";
    FirstPartAt(s, '-', 1);
    assert s[..1] == "4";
    FourReads();
  }

  /** The period only contributes its start month. */
  lemma ProjectStart(labels: seq<string>, selection: string, year: int, m: int)
    requires StartMonth(selection) == Some(m)
    ensures Project(labels, selection, year) == ProjectFrom(labels, year, m, 0)
  {
  }

  /** One turn of the loop: the first label is placed, then the rest. */
  lemma ProjectStep(labels: seq<string>, year: int, month: int, prev: int, c: CalendarDay, rest: seq<CalendarDay>)
    requires labels != [] && ParseDayLabel(labels[0]) == Some(c.day)
    requires (c.year, c.month) == (if Rolls(prev, c.day) then Bump(year, month) else (year, month))
    requires ValidDate(c.year, c.month, c.day) && c.weekday == Weekday(c.year, c.month, c.day)
    requires ProjectFrom(labels[1..], c.year, c.month, c.day) == Ok(rest)
    ensures ProjectFrom(labels, year, month, prev) == Ok([c] + rest)
  {
  }

  /** A label that does not read as a number stops the walk with itself as
      the error, whatever follows it. */
  lemma ProjectBadLabel(l: string, ls: seq<string>, year: int, month: int, prev: int)
    requires ParseDayLabel(l).None?
    ensures ProjectFrom([l] + ls, year, month, prev) == Err(BadDayLabel(l))
  {
    assert ([l] + ls)[0] == l;
  }

  /** A label that reads as day `d` of a month (after any move on) that has
      no such day stops the walk with that date as the error. */
  lemma ProjectBadDate(l: string, ls: seq<string>, year: int, month: int, prev: int, d: int, y: int, m: int)
    requires ParseDayLabel(l) == Some(d)
    requires (y, m) == (if Rolls(prev, d) then Bump(year, month) else (year, month))
    requires !ValidDate(y, m, d)
    ensures ProjectFrom([l] + ls, year, month, prev) == Err(InvalidDate(y, m, d))
  {
    assert ([l] + ls)[0] == l;
  }

  /** After a label that is placed, the walk fails exactly as the walk of
      the remaining labels from that date does: the error reported is the
      first one. */
  lemma ProjectErrPasses(l: string, ls: seq<string>, year: int, month: int, prev: int, c: CalendarDay)
    requires Reads(l, c) && Follows(year, month, prev, c)
    requires ProjectFrom(ls, c.year, c.month, c.day).Err?
    ensures ProjectFrom([l] + ls, year, month, prev) == ProjectFrom(ls, c.year, c.month, c.day)
  {
    assert ([l] + ls)[0] == l && ([l] + ls)[1..] == ls;
  }

  /** `replace("일", "")` drops every `일`, wherever it stands. */
  lemma IlAnywhere(a: string, b: string)
    ensures ParseDayLabel(a + "일" + b) == ParseDayLabel(a + b)
  {
    RemoveConcat(a + "일", b, '일');
    RemoveConcat(a, "일", '일');
    RemoveConcat(a, b, '일');
    assert RemoveAll("일", '일') == [];
    assert RemoveAll(a, '일') + [] == RemoveAll(a, '일');
  }

  /** `date(y, 2, 29)` exists exactly in the leap years of the calendar's range. */
  lemma LeapDay(y: int)
    ensures ValidDate(y, 2, 29) <==> MinYear <= y <= MaxYear && IsLeap(y)
  {
  }

  /** The placed label for a real date. */
  function DayOf(y: int, m: int, d: int): (c: CalendarDay)
    requires ValidDate(y, m, d)
    ensures Placed(c) && c.day == d && c.year == y && c.month == m
  {
    CalendarDay(y, m, d, Weekday(y, m, d))
  }

  /** The last label, placed. */
  lemma PlaceLast(l: string, year: int, month: int, prev: int, c: CalendarDay)
    requires Reads(l, c) && Follows(year, month, prev, c)
    ensures ProjectFrom([l], year, month, prev) == Ok([c])
  {
    assert [l][1..] == [];
    ProjectStep([l], year, month, prev, c, []);
    assert [c] + [] == [c];
  }

  /** A label placed in front of labels already placed. */
  lemma PlaceFirst(l: string, ls: seq<string>, year: int, month: int, prev: int, c: CalendarDay, out: seq<CalendarDay>)
    requires Reads(l, c) && Follows(year, month, prev, c)
    requires ProjectFrom(ls, c.year, c.month, c.day) == Ok(out)
    ensures ProjectFrom([l] + ls, year, month, prev) == Ok([c] + out)
  {
    assert ([l] + ls)[1..] == ls;
    ProjectStep([l] + ls, year, month, prev, c, out);
  }

  /** Two labels placed one after another. */
  lemma PlaceTwo(l2: string, l3: string, year: int, month: int, prev: int, c2: CalendarDay, c3: CalendarDay)
    requires Reads(l2, c2) && Reads(l3, c3)
    requires Follows(year, month, prev, c2) && Follows(c2.year, c2.month, c2.day, c3)
    ensures ProjectFrom([l2] + [l3], year, month, prev) == Ok([c2] + [c3])
  {
    PlaceLast(l3, c2.year, c2.month, c2.day, c3);
    PlaceFirst(l2, [l3], year, month, prev, c2, [c3]);
  }

  /** Three labels placed one after another from a fresh start. */
  lemma PlaceThree(l1: string, l2: string, l3: string, year: int, month: int, c1: CalendarDay, c2: CalendarDay, c3: CalendarDay)
    requires Reads(l1, c1) && Reads(l2, c2) && Reads(l3, c3)
    requires Follows(year, month, 0, c1)
    requires Follows(c1.year, c1.month, c1.day, c2) && Follows(c2.year, c2.month, c2.day, c3)
    ensures ProjectFrom([l1, l2, l3], year, month, 0) == Ok([c1, c2, c3])
  {
    PlaceTwo(l2, l3, c1.year, c1.month, c1.day, c2, c3);
    PlaceFirst(l1, [l2] + [l3], year, month, 0, c1, [c2] + [c3]);
    Three(l1, l2, l3);
    Three(c1, c2, c3);
  }

  lemma Three<T>(a: T, b: T, c: T)
    ensures [a] + ([b] + [c]) == [a, b, c]
  {
  }

  /** A sheet for a period starting in April (see `ProjectStart`) whose
      labels read 30, 2, 5 (such as `"30일"`, `"2일"`, `"5일"`): the day
      number falls between the 30th and the 2nd, so the 2nd and every later
      day fall in May. */
  lemma AprilToMay(l1: string, l2: string, l3: string, year: int)
    requires ParseDayLabel(l1) == Some(30) && ParseDayLabel(l2) == Some(2) && ParseDayLabel(l3) == Some(5)
    requires MinYear <= year <= MaxYear
    ensures ProjectFrom([l1, l2, l3], year, 4, 0)
         == Ok([DayOf(year, 4, 30), DayOf(year, 5, 2), DayOf(year, 5, 5)])
  {
    var c1, c2, c3 := DayOf(year, 4, 30), DayOf(year, 5, 2), DayOf(year, 5, 5);
    AprilSteps(year);
    PlaceThree(l1, l2, l3, year, 4, c1, c2, c3);
  }

  /** The dates of the April example follow one another. */
  lemma AprilSteps(year: int)
    requires MinYear <= year <= MaxYear
    ensures Follows(year, 4, 0, DayOf(year, 4, 30))
    ensures Follows(year, 4, 30, DayOf(year, 5, 2))
    ensures Follows(year, 5, 2, DayOf(year, 5, 5))
  {
  }

  /** Each fall of the day number moves one more month on, across the turn
      of the year: from a November start, labels reading 30, 15, 10 are the
      30th of November, the 15th of December and the 10th of January of the
      next year. */
  lemma NovemberToJanuary(l1: string, l2: string, l3: string, year: int)
    requires ParseDayLabel(l1) == Some(30) && ParseDayLabel(l2) == Some(15) && ParseDayLabel(l3) == Some(10)
    requires MinYear <= year < MaxYear
    ensures ProjectFrom([l1, l2, l3], year, 11, 0)
         == Ok([DayOf(year, 11, 30), DayOf(year, 12, 15), DayOf(year + 1, 1, 10)])
  {
    var c1, c2, c3 := DayOf(year, 11, 30), DayOf(year, 12, 15), DayOf(year + 1, 1, 10);
    NovemberSteps(year);
    PlaceThree(l1, l2, l3, year, 11, c1, c2, c3);
  }

  /** The dates of the November example follow one another. */
  lemma NovemberSteps(year: int)
    requires MinYear <= year < MaxYear
    ensures Follows(year, 11, 0, DayOf(year, 11, 30))
    ensures Follows(year, 11, 30, DayOf(year, 12, 15))
    ensures Follows(year, 12, 15, DayOf(year + 1, 1, 10))
  {
  }

  /** In 2025 the April example's days fall on a Wednesday, a Friday and a Monday. */
  lemma AprilMay2025()
    ensures Weekday(2025, 4, 30) == 2 && Weekday(2025, 5, 2) == 4 && Weekday(2025, 5, 5) == 0
  {
    assert DaysBeforeYear(2025) == 739251;
    assert DaysBeforeMonth(2025, 4) == 90;
    assert DaysBeforeMonth(2025, 5) == 120;
  }

  /** The 31st of April does not exist: `date` raises and the step fails. */
  lemma NoAprilThirtyFirst(text: string, selection: string, year: int)
    requires ParseDayLabel(text) == Some(31) && StartMonth(selection) == Some(4)
    ensures Project([text], selection, year) == Err(InvalidDate(year, 4, 31))
  {
    ProjectStart([text], selection, year, 4);
  }
}
