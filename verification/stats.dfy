/** What `get_stats` reports for one worker, and the rows `save_to_excel`
    writes: for every date the worker appears on, the reconciled and merged
    ranges, the whole minutes they cover, and the date's place on the
    calendar. */
module Stats {
  import opened Results
  import opened Text
  import opened Clock
  import opened Interval
  import Reconcile
  import Merge
  import Calendar
  import Lookup

  /** The final ranges of one date: `process_time_changes`, then
      `merge_adjacent_ranges`. They lie inside the day, in order, apart. */
  function DayRanges(es: seq<Reconcile.Entry>): (rs: seq<TimeRange>)
    ensures Merge.Separated(rs) && Merge.LexSorted(rs)
    ensures forall k :: 0 <= k < |rs| ==> InDay(rs[k])
  {
    var processed := Reconcile.ProcessTimeChanges(es);
    var rs := Merge.MergeAdjacent(processed);
    forall k | 0 <= k < |rs| ensures InDay(rs[k]) {
      Merge.MergeEndpoints(processed, rs[k]);
    }
    rs
  }

  /** `sum(int((end - start).total_seconds() // 60) for start, end in ...)`.
      Both ends are on the same day, so the division is exact; a range that
      ends before it starts counts negative. */
  function Minutes(rs: seq<TimeRange>): (m: int)
    ensures (forall k :: 0 <= k < |rs| ==> rs[k].start <= rs[k].end) ==> m >= 0
    ensures (forall k :: 0 <= k < |rs| ==> rs[k].start == rs[k].end) ==> m == 0
  {
    if rs == [] then 0 else (rs[0].end - rs[0].start) + Minutes(rs[1..])
  }

  function Sum(xs: seq<int>): int {
    if xs == [] then 0 else xs[0] + Sum(xs[1..])
  }

  /** Ranges that are in order and apart add up to no more than the span
      from the first start to the last end. */
  lemma {:induction false} MinutesWithinSpan(rs: seq<TimeRange>)
    requires rs != [] && Merge.Separated(rs)
    ensures Minutes(rs) <= rs[|rs| - 1].end - rs[0].start
  {
    if |rs| > 1 {
      assert rs[1..][0] == rs[1];
      MinutesWithinSpan(rs[1..]);
    }
  }

  /** One date never counts more than 23 hours 59 minutes, however many
      overlapping records the sheet holds for it. */
  lemma DayMinutesBound(es: seq<Reconcile.Entry>)
    ensures Minutes(DayRanges(es)) < MinutesPerDay
  {
    var rs := DayRanges(es);
    if rs != [] {
      MinutesWithinSpan(rs);
    }
  }

  /** A date none of whose records parse still gives a (zero-minute) day. */
  lemma UnparsedDayIsZero(es: seq<Reconcile.Entry>)
    requires forall e :: e in es ==> ParseRange(e.text).None?
    ensures DayRanges(es) == [] && Minutes(DayRanges(es)) == 0
  {
    NothingParses(es);
  }

  lemma {:induction false} NothingParses(es: seq<Reconcile.Entry>)
    requires forall e :: e in es ==> ParseRange(e.text).None?
    ensures Reconcile.Parsed(es) == []
  {
    if es != [] {
      assert es[0] in es;
      NothingParses(es[1..]);
    }
  }

  /** `str(d)`: a date that was never filled in prints as "nan". */
  function DayText(d: Option<string>): string {
    match d
    case None => "nan"
    case Some(s) => s
  }

  /** `weekday_kor` of `get_stats`, indexed by `date.weekday()`. */
  const ShortNames: seq<string> := ["월", "화", "수", "목", "금", "토", "일"]

  /** `weekday_kor` of `save_to_excel`. */
  const LongNames: seq<string> := ["월요일", "화요일", "수요일", "목요일", "금요일", "토요일", "일요일"]

  /** The two weekday tables name the same days. */
  lemma WeekdayNamesAgree(w: nat)
    requires w < 7
    ensures LongNames[w] == ShortNames[w] + "요일"
  {
  }

  /** The dictionary `get_stats` returns. The minutes are kept whole (the
      code reports them as hours, rounded, in floating point) and the
      projected dates are kept beside their labels. */
  datatype Summary = Summary(
    days: nat,
    totalMinutes: int,
    dayList: seq<string>,
    dayMinutes: seq<int>,
    dayLabels: seq<string>,
    dates: seq<Calendar.CalendarDay>)

  function DayList(gs: seq<Lookup.Group>): (ds: seq<string>)
    ensures |ds| == |gs|
    ensures forall k :: 0 <= k < |gs| ==> ds[k] == DayText(gs[k].date)
  {
    seq(|gs|, k requires 0 <= k < |gs| => DayText(gs[k].date))
  }

  /** The figures of a summary fit together: one entry per day in every
      list, the total is the sum of the days, and no day reaches 24 hours. */
  predicate Tallied(s: Summary) {
    s.days == |s.dayList| == |s.dayMinutes| == |s.dayLabels| == |s.dates| &&
    s.totalMinutes == Sum(s.dayMinutes) &&
    forall k :: 0 <= k < |s.dayMinutes| ==> s.dayMinutes[k] < MinutesPerDay
  }

  /** `r` is the report `get_stats` gives for the groups `gs`: it exists
      exactly when the calendar walk over the date labels succeeds, and then
      holds one entry per group, with the walk's date, the group's date text,
      the minutes of its final ranges and the label naming its weekday. */
  predicate Reports(gs: seq<Lookup.Group>, selection: string, year: int, r: Result<Summary, Failure>) {
    var walk := Calendar.Project(DayList(gs), selection, year);
    (r.Ok? <==> walk.Ok?) &&
    (r.Ok? ==>
      r.value.days == |gs| && Tallied(r.value) && r.value.dates == walk.value &&
      forall k :: 0 <= k < |gs| ==>
        r.value.dayList[k] == DayText(gs[k].date) &&
        r.value.dayMinutes[k] == Minutes(DayRanges(gs[k].entries)) &&
        0 <= r.value.dates[k].weekday < 7 &&
        r.value.dayLabels[k] == r.value.dayList[k] + " (" + ShortNames[r.value.dates[k].weekday] + ")")
  }

  /** `get_stats` after the lookup: the minutes of every date, then the
      calendar pass over the date labels. */
  function Summarize(gs: seq<Lookup.Group>, selection: string, year: int): (r: Result<Summary, Failure>)
    ensures r.Ok? ==> r.value.days == |gs| && Tallied(r.value)
    ensures r.Ok? ==> Calendar.Chain(r.value.dates)
    ensures r.Ok? ==> forall k :: 0 <= k < |gs| ==>
              Calendar.ParseDayLabel(r.value.dayList[k]) == Some(r.value.dates[k].day) &&
              r.value.dayLabels[k] == r.value.dayList[k] + " (" + ShortNames[r.value.dates[k].weekday] + ")"
    ensures r.Err? ==> r.error.BadSelection? || Calendar.Explains(r.error, DayList(gs))
    ensures r.Ok? <==> Calendar.Project(DayList(gs), selection, year).Ok?
    ensures r.Ok? ==> r.value.dayList == DayList(gs) && r.value.dates == Calendar.Project(DayList(gs), selection, year).value
    ensures r.Ok? ==> forall k :: 0 <= k < |gs| ==> r.value.dayMinutes[k] == Minutes(DayRanges(gs[k].entries))
    ensures Reports(gs, selection, year, r)
  {
    match Calendar.Project(DayList(gs), selection, year)
    case Err(e) => Err(e)
    case Ok(cal) =>
      assert forall k :: 0 <= k < |cal| ==> Calendar.Placed(cal[k]);
      Ok(Tally(gs, cal))
  }

  /** The figures of the dates `gs`, placed on the calendar at `cal`. */
  function Tally(gs: seq<Lookup.Group>, cal: seq<Calendar.CalendarDay>): (s: Summary)
    requires |cal| == |gs| && forall k :: 0 <= k < |cal| ==> 0 <= cal[k].weekday < 7
    ensures s.days == |gs| && Tallied(s) && s.dayList == DayList(gs) && s.dates == cal
    ensures forall k :: 0 <= k < |gs| ==> s.dayMinutes[k] == Minutes(DayRanges(gs[k].entries))
    ensures forall k :: 0 <= k < |gs| ==>
              s.dayLabels[k] == s.dayList[k] + " (" + ShortNames[cal[k].weekday] + ")"
  {
    var dayList := DayList(gs);
    var mins := seq(|gs|, k requires 0 <= k < |gs| => Minutes(DayRanges(gs[k].entries)));
    forall k | 0 <= k < |gs| ensures mins[k] < MinutesPerDay {
      DayMinutesBound(gs[k].entries);
    }
    var labels := seq(|gs|, k requires 0 <= k < |gs| => dayList[k] + " (" + ShortNames[cal[k].weekday] + ")");
    Summary(|gs|, Sum(mins), dayList, mins, labels, cal)
  }

  /** `get_stats`: `None` when no cell holds the name, otherwise the figures
      per date. The year is the one `datetime.now()` would give. */
  function GetStats(t: Lookup.Table, name: string, selection: string, year: int): (r: Result<Summary, Failure>)
    ensures |t.header| < 2 <==> r == Err(MissingColumns)
    ensures r == Err(NotFound) <==> |t.header| >= 2 && !Lookup.Found(t, name)
    ensures r.Ok? ==> r.value.days >= 1 && Tallied(r.value)
    ensures r.Ok? ==> Lookup.Lookup(t, name).Ok? && r.value.days == |Lookup.Lookup(t, name).value|
    ensures r.Ok? ==> forall k :: 0 <= k < r.value.days ==>
              r.value.dayList[k] == DayText(Lookup.Lookup(t, name).value[k].date) &&
              r.value.dayMinutes[k] == Minutes(DayRanges(Lookup.Lookup(t, name).value[k].entries))
    ensures Lookup.Lookup(t, name).Ok? ==> Reports(Lookup.Lookup(t, name).value, selection, year, r)
  {
    var found := Lookup.Lookup(t, name);
    if found.Err? then Err(found.error)
    else
      var gs := found.value;
      var r := Summarize(gs, selection, year);
      assert r.Err? ==> r.error.BadSelection? || r.error.BadDayLabel? || r.error.InvalidDate?;
      assert r.Ok? ==> r.value.days == |gs| && r.value.dayList == DayList(gs);
      r
  }

  /** `total_hours`. */
  function TotalHours(s: Summary): real {
    s.totalMinutes as real / 60.0
  }

  /** `avg_hours = total_hours / days if days else 0`. */
  function AverageHours(s: Summary): (h: real)
    ensures s.days > 0 ==> h * s.days as real == TotalHours(s)
    ensures s.days == 0 ==> h == 0.0
  {
    if s.days > 0 then TotalHours(s) / s.days as real else 0.0
  }

  /** Numbers each below `b` add up to no more than `|xs| * b`. */
  lemma {:induction false} SumBelow(xs: seq<int>, b: int)
    requires forall k :: 0 <= k < |xs| ==> xs[k] <= b
    ensures Sum(xs) <= |xs| * b
  {
    if xs != [] {
      SumBelow(xs[1..], b);
    }
  }

  /** The average a worker is shown never exceeds 23 hours 59 minutes a day. */
  lemma AverageBound(s: Summary)
    requires Tallied(s)
    ensures AverageHours(s) <= (MinutesPerDay - 1) as real / 60.0
  {
    SumBelow(s.dayMinutes, MinutesPerDay - 1);
    if s.days > 0 {
      AverageBelow(s.totalMinutes, s.days, MinutesPerDay - 1);
    }
  }

  /** A total of at most `b` minutes a day averages at most `b` minutes a day. */
  lemma AverageBelow(total: int, days: nat, b: int)
    requires days > 0 && total <= days * b
    ensures total as real / 60.0 / days as real <= b as real / 60.0
  {
    var d := days as real;
    var h := total as real / 60.0 / d;
    assert h * d == total as real / 60.0;
    if h > b as real / 60.0 {
      assert h * d > (b as real / 60.0) * d;
    }
  }

  /** One row of the exported sheet: 월, 일, 요일, 근무시간. */
  datatype Record = Record(month: int, day: int, weekday: string, times: string)

  /** Each range as `f"{s.strftime('%H:%M')}-{e.strftime('%H:%M')}"`. */
  function Formatted(rs: seq<TimeRange>): (parts: seq<string>)
    requires forall k :: 0 <= k < |rs| ==> InDay(rs[k])
    ensures |parts| == |rs|
    ensures forall k :: 0 <= k < |rs| ==> parts[k] == FormatRange(rs[k])
  {
    seq(|rs|, k requires 0 <= k < |rs| => FormatRange(rs[k]))
  }

  /** `",".join(...)` of the formatted ranges. */
  function Times(rs: seq<TimeRange>): (s: string)
    requires forall k :: 0 <= k < |rs| ==> InDay(rs[k])
    ensures s == [] <==> rs == []
  {
    if rs == [] then ""
    else
      var parts := Formatted(rs);
      assert |Join(parts, ',')| >= |parts[0]|;
      Join(parts, ',')
  }

  /** Reading a times cell back: split on commas, parse each part. */
  function Reread(s: string): (rs: seq<Option<TimeRange>>) {
    if s == [] then []
    else ParseAll(Split(s, ','))
  }

  function ParseAll(parts: seq<string>): (rs: seq<Option<TimeRange>>)
    ensures |rs| == |parts|
    ensures forall k :: 0 <= k < |parts| ==> rs[k] == ParseRange(parts[k])
  {
    seq(|parts|, k requires 0 <= k < |parts| => ParseRange(parts[k]))
  }

  function Somes(rs: seq<TimeRange>): (os: seq<Option<TimeRange>>)
    ensures |os| == |rs|
    ensures forall k :: 0 <= k < |rs| ==> os[k] == Some(rs[k])
  {
    seq(|rs|, k requires 0 <= k < |rs| => Some(rs[k]))
  }

  /** A formatted range holds no comma. */
  lemma NoCommaInRange(r: TimeRange)
    requires InDay(r)
    ensures ',' !in FormatRange(r)
  {
    FormatClockChars(r.start);
    FormatClockChars(r.end);
    assert FormatRange(r) == FormatClock(r.start) + "-" + FormatClock(r.end);
  }

  /** The commas of a times cell are exactly those `join` put in. */
  lemma SplitTimes(rs: seq<TimeRange>)
    requires rs != [] && forall k :: 0 <= k < |rs| ==> InDay(rs[k])
    ensures Split(Times(rs), ',') == Formatted(rs)
  {
    var parts := Formatted(rs);
    forall k | 0 <= k < |parts| ensures ',' !in parts[k] {
      NoCommaInRange(rs[k]);
    }
    SplitJoin(parts, ',');
  }

  /** An exported times cell reads back as the ranges it was written from. */
  lemma TimesReadBack(rs: seq<TimeRange>)
    requires forall k :: 0 <= k < |rs| ==> InDay(rs[k])
    ensures Reread(Times(rs)) == Somes(rs)
  {
    if rs != [] {
      SplitTimes(rs);
      var back := ParseAll(Formatted(rs));
      forall k | 0 <= k < |rs| ensures back[k] == Some(rs[k]) {
        FormatRangeRoundTrip(rs[k]);
      }
    }
  }

  /** `r` is the table `save_to_excel` writes for the groups `gs`: it exists
      exactly when the calendar walk succeeds, and then holds one row per
      group with the month, day and weekday name of the walk's date and a
      times text that reads back as the group's final ranges. */
  predicate Tabulates(gs: seq<Lookup.Group>, selection: string, year: int, r: Result<seq<Record>, Failure>) {
    var walk := Calendar.Project(DayList(gs), selection, year);
    (r.Ok? <==> walk.Ok?) &&
    (r.Ok? ==>
      |r.value| == |gs| == |walk.value| &&
      forall k :: 0 <= k < |gs| ==>
        r.value[k].month == walk.value[k].month && r.value[k].day == walk.value[k].day &&
        0 <= walk.value[k].weekday < 7 && r.value[k].weekday == LongNames[walk.value[k].weekday] &&
        Reread(r.value[k].times) == Somes(DayRanges(gs[k].entries)))
  }

  /** The rows of `save_to_excel` for given groups. */
  function RecordsOf(gs: seq<Lookup.Group>, selection: string, year: int): (r: Result<seq<Record>, Failure>)
    ensures r.Ok? ==> |r.value| == |gs|
    ensures r.Ok? ==> forall k :: 0 <= k < |gs| ==>
              Reread(r.value[k].times) == Somes(DayRanges(gs[k].entries))
    ensures r.Err? ==> r.error.BadSelection? || Calendar.Explains(r.error, DayList(gs))
    ensures r.Ok? <==> Calendar.Project(DayList(gs), selection, year).Ok?
    ensures r.Ok? ==> forall k :: 0 <= k < |gs| ==>
              var c := Calendar.Project(DayList(gs), selection, year).value[k];
              r.value[k].month == c.month && r.value[k].day == c.day && r.value[k].weekday == LongNames[c.weekday]
    ensures Tabulates(gs, selection, year, r)
  {
    match Calendar.Project(DayList(gs), selection, year)
    case Err(e) => Err(e)
    case Ok(cal) =>
      assert forall k :: 0 <= k < |cal| ==> Calendar.Placed(cal[k]);
      Ok(Rows(gs, cal))
  }

  /** The table rows of the dates `gs`, placed on the calendar at `cal`:
      each times cell reads back as the date's final ranges. */
  function Rows(gs: seq<Lookup.Group>, cal: seq<Calendar.CalendarDay>): (rows: seq<Record>)
    requires |cal| == |gs| && forall k :: 0 <= k < |cal| ==> 0 <= cal[k].weekday < 7
    ensures |rows| == |gs|
    ensures forall k :: 0 <= k < |gs| ==> Reread(rows[k].times) == Somes(DayRanges(gs[k].entries))
    ensures forall k :: 0 <= k < |gs| ==>
              rows[k].month == cal[k].month && rows[k].day == cal[k].day && rows[k].weekday == LongNames[cal[k].weekday]
  {
    var rows := seq(|gs|, k requires 0 <= k < |gs| =>
      Record(cal[k].month, cal[k].day, LongNames[cal[k].weekday], Times(DayRanges(gs[k].entries))));
    forall k | 0 <= k < |gs| ensures Reread(rows[k].times) == Somes(DayRanges(gs[k].entries)) {
      TimesReadBack(DayRanges(gs[k].entries));
    }
    rows
  }

  /** `save_to_excel`: the same lookup, except that a worker who is not on
      the sheet gets an empty table rather than `None`. */
  function Export(t: Lookup.Table, name: string, selection: string, year: int): (r: Result<seq<Record>, Failure>)
    ensures |t.header| < 2 <==> r == Err(MissingColumns)
    ensures r != Err(NotFound)
    ensures |t.header| >= 2 && !Lookup.Found(t, name) && Calendar.StartMonth(selection).Some? ==> r == Ok([])
    ensures r.Ok? && Lookup.Lookup(t, name).Ok? ==> |r.value| == |Lookup.Lookup(t, name).value|
    ensures r.Ok? && Lookup.Lookup(t, name).Ok? ==> forall k :: 0 <= k < |r.value| ==>
              Reread(r.value[k].times) == Somes(DayRanges(Lookup.Lookup(t, name).value[k].entries))
    ensures |t.header| >= 2 && Calendar.StartMonth(selection).None? ==> r == Err(BadSelection(selection))
    ensures Lookup.Lookup(t, name).Ok? ==> Tabulates(Lookup.Lookup(t, name).value, selection, year, r)
  {
    var found := Lookup.Lookup(t, name);
    if found == Err(MissingColumns) then Err(MissingColumns)
    else
      var gs := if found.Ok? then found.value else [];
      var r := RecordsOf(gs, selection, year);
      assert r.Err? ==> r.error.BadSelection? || r.error.BadDayLabel? || r.error.InvalidDate?;
      NoRows(selection, year);
      r
  }

  /** No groups and a readable period give an empty table. */
  lemma NoRows(selection: string, year: int)
    ensures Calendar.StartMonth(selection).Some? ==> RecordsOf([], selection, year) == Ok([])
  {
    if Calendar.StartMonth(selection).Some? {
      Calendar.ProjectStart([], selection, year, Calendar.StartMonth(selection).value);
    }
  }

  /** A report and an export describe the same days: the same dates in the
      same order with the same weekdays, and every times cell reads back as
      ranges worth the minutes the report counts for that date. */
  ghost predicate Agrees(s: Summary, rows: seq<Record>) {
    |rows| == |s.dates| == |s.dayMinutes| &&
    forall k :: 0 <= k < |rows| ==>
      rows[k].month == s.dates[k].month && rows[k].day == s.dates[k].day &&
      0 <= s.dates[k].weekday < 7 && rows[k].weekday == ShortNames[s.dates[k].weekday] + "요일" &&
      exists rs :: Reread(rows[k].times) == Somes(rs) && Minutes(rs) == s.dayMinutes[k]
  }

  /** Over the same groups, the report and the export fail together and
      agree when they succeed. */
  lemma SummaryMatchesRecords(gs: seq<Lookup.Group>, selection: string, year: int)
    ensures Summarize(gs, selection, year).Ok? <==> RecordsOf(gs, selection, year).Ok?
    ensures Summarize(gs, selection, year).Ok? ==>
              Agrees(Summarize(gs, selection, year).value, RecordsOf(gs, selection, year).value)
  {
    if Summarize(gs, selection, year).Ok? {
      var s, rows := Summarize(gs, selection, year).value, RecordsOf(gs, selection, year).value;
      var cal := Calendar.Project(DayList(gs), selection, year).value;
      assert s.dates == cal;
      forall k | 0 <= k < |rows|
        ensures rows[k].month == s.dates[k].month && rows[k].day == s.dates[k].day
        ensures 0 <= s.dates[k].weekday < 7 && rows[k].weekday == ShortNames[s.dates[k].weekday] + "요일"
        ensures exists rs :: Reread(rows[k].times) == Somes(rs) && Minutes(rs) == s.dayMinutes[k]
      {
        assert Calendar.Placed(cal[k]);
        WeekdayNamesAgree(cal[k].weekday);
        var rs := DayRanges(gs[k].entries);
        assert Reread(rows[k].times) == Somes(rs);
      }
    }
  }

  /** For a worker on the sheet, `get_stats` and `save_to_excel` fail
      together, and when they succeed the report and the table agree. */
  lemma StatsMatchExport(t: Lookup.Table, name: string, selection: string, year: int)
    requires |t.header| >= 2 && Lookup.Found(t, name)
    ensures GetStats(t, name, selection, year).Ok? <==> Export(t, name, selection, year).Ok?
    ensures GetStats(t, name, selection, year).Ok? ==>
              Agrees(GetStats(t, name, selection, year).value, Export(t, name, selection, year).value)
  {
    var gs := Lookup.Lookup(t, name).value;
    assert GetStats(t, name, selection, year) == Summarize(gs, selection, year);
    assert Export(t, name, selection, year) == RecordsOf(gs, selection, year);
    SummaryMatchesRecords(gs, selection, year);
  }
}
