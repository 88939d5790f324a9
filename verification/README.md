# School gym attendance: reconciliation core in Dafny

The program models the attendance engine of a small school-gym staff tool. It takes a schedule sheet and a worker's name and reports how long the worker worked on each date. The sheet is a grid:

- the first column holds day labels such as `"28일"`;
- the second column holds the worker;
- the remaining column headers are time ranges such as `"09:00~12:30"`.

Every cell that mentions the worker counts as one record. The record is `(date, column header, row)`. For each date, the records go through two steps:

1. They are reconciled in row order. A later range that overlaps or touches an accepted one replaces it. Any other range is kept.
2. What remains is sorted and coalesced into separate ranges.

The engine then sums the minutes. It places each bare day number on the calendar: the walk starts in a chosen month and moves one month on every time the day number goes down. It also derives the weekday. The same pipeline is used twice:

- `get_stats` gives the figures for the on-screen report;
- `save_to_excel` gives the rows of the exported table. Each row holds month, day, weekday name and the merged ranges as `"HH:MM-HH:MM"` texts joined by commas.

The Dafny modules follow the pipeline:

| module | what it holds |
|---|---|
| `Results` | `Option`, `Result` and the failures: missing columns, name not found, bad period, bad day label, non-existent date |
| `Text` | Python's `strip`, `split`, `replace`, `in` and `int()` on strings |
| `Clock` | `strptime`/`strftime` with `"%H:%M"`, on minutes of the day |
| `Interval` | `parse_time_range` and the export's range format |
| `Reconcile` | `process_time_changes` |
| `Merge` | `merge_adjacent_ranges` |
| `Calendar` | proleptic Gregorian dates as `datetime.date` sees them, and the month-rollover walk |
| `Lookup` | blank-row filter, date carry-down, cell matching, grouping by date |
| `Stats` | per-day minutes, totals, average, `get_stats`, `save_to_excel` |

Some behaviours of main.py are easy to misread; the model keeps them as written:

- **Overlap resolution replaces rather than unites.** A new range that overlaps or touches an accepted one takes its place (main.py lines 682-686); the two are not joined.
- **The month moves on at every fall in the day number, not once.** The year moves on whenever the month passes December, whatever the start month was (main.py lines 742-746).
- **Ranges that end before their start are not skipped.** Such a range takes part in the overlap test and the merge. When it stays a range of its own after the merge, its minutes count negative. The merge can also absorb it: after 09:00-10:00, the range 09:30-08:20 starts inside the running range and disappears into it (main.py lines 703-712). A range that ends at its start counts zero.
- **`days` is the number of distinct dates with a matching cell** (main.py line 752). This includes dates none of whose records parse, which count as zero-minute days.
- **Every cell is searched.** Column headers are the time texts, and any cell of the sheet, the date and worker columns included, that contains the name is a record (main.py lines 634-640).

## Model

| member | source | states |
|---|---|---|
| Text.Strip | main.py:634 | `str.strip()`: the result starts and ends with a non-whitespace character or is empty, and is no longer than the input |
| Text.StripSlice | main.py:634 | `str.strip()` removes whitespace only: the result is a slice of the input with only whitespace before and after it |
| Text.StripBounds | main.py:654 | the slice `strip()` keeps runs from the end of the leading whitespace to the start of the trailing whitespace |
| Text.LeadingSpaces | main.py:654 | the count of leading whitespace: everything before it is whitespace and the character at it is not |
| Text.TrailingSpaces | main.py:654 | the count of trailing whitespace: everything after it is whitespace and the character before it is not |
| Text.TrimStart | main.py:654 | the result is a suffix of the input, everything dropped is whitespace, and it does not start with whitespace |
| Text.TrimEnd | main.py:654 | the result is a prefix, everything dropped is whitespace, and it does not end with whitespace |
| Text.Split | main.py:654 | `str.split(c)`: one more part than separators, no part holds `c`, and joining the parts with `c` gives the text back |
| Text.SplitJoin | main.py:936-938 | splitting a comma-joined list of comma-free parts gives the parts back |
| Text.SplitCons | main.py:735 | a separator-free prefix before the first separator is the first part (the `"M-N"` period's `split("-")[0]`) |
| Text.FirstPart | main.py:735 | the text before the first separator: a separator-free prefix, followed by the separator unless it is the whole text |
| Text.FirstPartAt | main.py:735 | a separator-free prefix ending at a separator is the first part |
| Text.FirstPartSplit | main.py:735 | the first part is the first piece of `split` |
| Text.RemoveAll | main.py:741 | `replace(c, "")`: no `c` is left, the length drops by the number of `c`, every other character survives |
| Text.ParseIntHasDigit | main.py:741 | `int()` accepts no text without a digit |
| Text.NoLeadingDigit | main.py:741 | a stripped text starting with neither a sign nor a digit is rejected |
| Text.UnsignedDigits | main.py:741 | a stripped text of digits alone is accepted with its decimal value |
| Text.StripDigits | main.py:741 | `strip()` leaves a text of digits unchanged |
| Text.ParseIntDigits | main.py:741 | `int()` of plain digits is their decimal value |
| Text.ParseInt | main.py:741 | `int()`: an accepted text ends, once stripped, in a digit, and a negative value comes only from a leading `-` |
| Text.ParseIntSigned | main.py:741 | `-` before digits negates their value and `+` keeps it |
| Text.ParseIntSound | main.py:741 | `int()` accepts only digits, with at most one `+` or `-` in front, once the text is stripped, and returns their value with that sign; "3a4" is rejected |
| Clock.ParseClock | main.py:657-658 | `strptime("%H:%M")`: a result is a minute of the day, the text is 3 to 5 characters of digits and exactly one colon |
| Clock.FromFields | main.py:657-658 | one- or two-digit fields are accepted exactly when the hour is at most 23 and the minute at most 59, and then give the minute of the day whose hour and minute they are |
| Clock.ParseClockSound | main.py:657-658 | an accepted text is an hour field and a minute field around one colon, and its value is what those fields give |
| Clock.ParseClockSplit | main.py:657-658 | a text made of two fields around a colon reads as those fields do, so it is accepted exactly when the hour is at most 23 and the minute at most 59 |
| Clock.FormatClock | main.py:937 | `strftime("%H:%M")` is five characters with the colon in the middle |
| Clock.ParseFormat | main.py:657-658 | reading back what `strftime` wrote (main.py line 937) gives the same minute |
| Clock.FormatParse | main.py:657-658 | a five-character text that parses is exactly what `strftime` (main.py line 937) writes for its minute |
| Clock.UnpaddedAccepted | main.py:657-658 | `"9:5"` and `"09:05"` both read as 09:05 |
| Clock.OutOfRangeRejected | main.py:657-658 | `"24:00"` and `"09:60"` are rejected |
| Clock.MalformedRejected | main.py:657-658 | `" 9:05"` and `"009:05"` are rejected |
| Interval.RewriteTildes | main.py:654 | `re.sub(r"\s*~\s*", "-", s)`: no `~` is left and every `~` became one `-` |
| Interval.ParseRange | main.py:651-659 | a parsed range lies within the day and its text had exactly one separator |
| Interval.ParseRangeSound | main.py:651-659 | an accepted text is one `-` (after the tilde rewrite) between two dash-free parts, each of which reads, stripped, as the clock time it gives |
| Interval.ParseRangeParts | main.py:651-659 | a text that rewrites to two dash-free parts around one `-` is accepted exactly when both stripped parts read as clock times, and then gives the range between them |
| Interval.TildeSpelling | main.py:654 | a `~` with any whitespace around it reads exactly like a bare `-` |
| Interval.TildeSpellings | main.py:651-659 | two `strftime` clock texts joined by a `~`, with any whitespace on either side, read back as the range they were written from (`"09:00~12:30"` and `"09:00 ~ 12:30"` both give 09:00 to 12:30) |
| Interval.RewriteWithoutTilde | main.py:654 | text without `~` is left unchanged by the rewrite |
| Interval.FormatRange | main.py:937 | the export's range text is 11 characters with `-` in the middle |
| Interval.FormatRangeParts | main.py:937 | an exported range text splits at its `-` into the two clock texts |
| Interval.StripFormat | main.py:654 | a clock text as `strftime` writes it (main.py line 937) has no whitespace to strip |
| Interval.FormatRangeRoundTrip | main.py:651-659 | parsing an exported range text (main.py line 937) gives back the range |
| Reconcile.SortByRow | main.py:664 | `sort(key=row)`: sorted by row, a permutation, and stable (each row keeps its entries in input order) |
| Reconcile.SortedUnique | main.py:664 | two row-sorted lists with the same entries in every row are equal |
| Reconcile.SameLast | main.py:664 | two row-sorted lists with the same entries in every row end in the same entry |
| Reconcile.SortKeepsSorted | main.py:664 | a list already in row order is not reordered |
| Reconcile.FirstTouching | main.py:678-686 | the index of the first accepted range the new one overlaps or touches; none before it does |
| Reconcile.Absorb | main.py:676-689 | the length is unchanged exactly when some accepted range touches the new one; then the first touched position holds the new range and no other position changes; otherwise the new range is appended |
| Reconcile.Step | main.py:671-692 | one record: an unparsable text leaves the list alone; a parsed range ends up in the list, which grows by at most one and gains nothing else |
| Reconcile.FoldEntries | main.py:671-692 | the loop over records never shrinks the list, adds at most one range per record, and every range it adds is some record's parse |
| Reconcile.AcceptAll | main.py:671-689 | the loop over parsed ranges never shrinks the list, adds at most one per range, and invents nothing |
| Reconcile.Parsed | main.py:672-674 | the parsable entries' ranges, exactly those |
| Reconcile.ParsedCons | main.py:672-674 | the first entry's range, when it parses, goes in front of the others' and nothing else is added |
| Reconcile.FoldSkipsMalformed | main.py:672-692 | a record that fails to parse is skipped without affecting the others |
| Reconcile.ProcessTimeChanges | main.py:661-693 | empty in, empty out; at most one range per parsable record; every output is some record's range verbatim |
| Reconcile.RowOrderDecides | main.py:664 | inputs listing the same entries per row give the same result, however rows are interleaved |
| Reconcile.ChainCollapses | main.py:682-686 | ranges each touching the one before collapse onto the last |
| Reconcile.LaterRowWins | main.py:682-686 | from nothing accepted, a chain of touching ranges leaves only the last |
| Reconcile.TouchingPairKeepsLater | main.py:682-686 | 09:00-12:00 then 12:00-15:00 leaves only 12:00-15:00 |
| Reconcile.SeparateShiftsKept | main.py:688-689 | ranges touching nothing accepted so far are all appended in order |
| Merge.InsertRange | main.py:701 | inserting into a tuple-sorted list keeps it sorted and adds exactly that range |
| Merge.SortRanges | main.py:701 | `ranges.sort()`: sorted by `(start, end)` and a permutation |
| Merge.CoalesceFrom | main.py:703-712 | the coalescing loop's output starts at the running start and reaches at least the running end, is sorted, and its ranges are strictly apart |
| Merge.CoalesceNoGap | main.py:703-712 | the loop bridges no gap: every half-minute point inside an emitted range lies inside the running range or some later input range, so ranges a whole minute apart stay apart |
| Merge.MergeAdjacent | main.py:696-713 | empty exactly for empty input, no longer than the input, sorted, consecutive ranges strictly apart |
| Merge.MergeCovers | main.py:696-713 | every input range lies inside some output range |
| Merge.MergeEndpoints | main.py:696-713 | every output's start and end are some inputs' start and end |
| Merge.MergeNoGap | main.py:696-713 | every half-minute point inside a merged range lies inside some input range |
| Merge.MergeSpans | main.py:696-713 | a half-minute point lies in some merged range exactly when it lies in some input range; points are counted in half minutes so that the gap between 10:10 and 10:11 is seen |
| Merge.SortSorted | main.py:701 | sorting a list already in tuple order changes nothing |
| Merge.CoalesceSeparated | main.py:703-712 | the loop passes sorted, strictly separate ranges through unchanged |
| Merge.CoalesceApart | main.py:706-710 | a range ending before the next one starts is emitted on its own |
| Merge.MergeSeparated | main.py:696-713 | a sorted list of separate ranges is its own merge |
| Merge.MergeIdempotent | main.py:696-713 | merging a merge changes nothing |
| Merge.TouchingMerge | main.py:706-707 | 12:00-15:00 and 09:00-12:00 merge into 09:00-15:00 |
| Merge.GapKeepsApart | main.py:706-710 | 09:00-10:00 and 10:01-11:40 stay two ranges |
| Calendar.DaysInMonth | main.py:748 | month lengths 28 to 31; 29 exactly for February of a leap year |
| Calendar.Weekday | main.py:749 | `date.weekday()` is 0 to 6 |
| Calendar.NextDate | main.py:748 | the day after a valid date is valid |
| Calendar.OrdinalNext | main.py:748 | `toordinal()` of the next day is one more |
| Calendar.WeekdayNext | main.py:749 | the weekday of the next day is one on, modulo 7 |
| Calendar.FirstDayMonday | main.py:749 | 0001-01-01 is weekday 0 (Monday first) |
| Calendar.YearLength | main.py:748 | the ordinal count of a year is the count of the year before plus its length |
| Calendar.MonthsFillYear | main.py:748 | the month lengths add up to the year's length |
| Calendar.AprilMay2025 | main.py:749 | 2025-04-30 is a Wednesday, 2025-05-02 a Friday, 2025-05-05 a Monday |
| Calendar.StartMonthSplit | main.py:734-735 | the start month is `int()` of the first `-`-separated piece of the period |
| Calendar.StartMonthIgnoresEnd | main.py:734-735 | the start month is `int()` of the text before the first `-`; the rest is ignored |
| Calendar.AprilSelection | main.py:734-735 | `"4-5"` starts in April |
| Calendar.Bump | main.py:742-746 | moving on a month wraps December to January of the next year and is always exactly one month on |
| Calendar.ProjectFrom | main.py:740-750 | on success one valid date per label whose day is the label's number, each month moved on from the previous exactly when the day number fell; on failure an unreadable label from the list or a non-existent date |
| Calendar.ProjectBadLabel | main.py:741 | a label that is not a number stops the walk with itself as the error, whatever follows |
| Calendar.ProjectBadDate | main.py:741-748 | a label whose day does not exist in the month reached stops the walk with that date as the error |
| Calendar.ProjectErrPasses | main.py:740-750 | after a placed label the walk fails exactly as the walk of the remaining labels does, so the error reported is the first one |
| Calendar.Project | main.py:734-750 | an unreadable period fails; on success the dates form a chain starting in the given year and start month, each label reading as its date's day |
| Calendar.ChainAdvance | main.py:740-747 | along a chain, the month index grows by exactly the number of falls in the day number so far |
| Calendar.MonthsAdvance | main.py:734-750 | the month of the i-th date is the start month moved on once per fall among the first i+1 day numbers |
| Calendar.FollowsIndex | main.py:741-747 | one step of the walk moves the month on by one exactly when the day falls |
| Calendar.DigitsThenIl | main.py:741 | `"<digits>일"` reads as the digits' value |
| Calendar.IlAnywhere | main.py:741 | a `일` anywhere in a label makes no difference to its number |
| Calendar.WordLabel | main.py:741 | a label with no `일`, nothing to strip and neither a sign nor a digit in front is not a number |
| Calendar.LeapDay | main.py:748 | `date(y, 2, 29)` exists exactly in the leap years between years 1 and 9999 |
| Calendar.NanLabel | main.py:741 | the label of a dateless match, `"nan"` (main.py line 729), is not a number |
| Calendar.AprilToMay | main.py:740-750 | labels reading 30, 2, 5, walked from April, give April 30, May 2, May 5 of the year |
| Calendar.NovemberToJanuary | main.py:740-750 | labels reading 30, 15, 10, walked from November, give November 30, December 15 and January 10 of the next year |
| Calendar.ProjectStart | main.py:734-740 | the period contributes only its start month to the walk |
| Calendar.PlaceThree | main.py:740-750 | three labels each reading as the next step of the walk are placed as those three dates |
| Calendar.NoAprilThirtyFirst | main.py:748 | day 31 in April fails with an invalid-date error |
| Lookup.CarriedNearest | main.py:632 | `ffill`: the date in force at a row is the date cell of the nearest row at or above it that has one, and there is none exactly when no such row exists |
| Lookup.CarriedPastBlanks | main.py:631-632 | the date carried past dropped rows is the one in force above them |
| Lookup.ShapedKeep | main.py:631 | a kept row becomes the last line, after every earlier one |
| Lookup.LinesShape | main.py:631 | the filtered rows keep their original indices, in order, with their own cells, and every dropped row is blank in both first columns |
| Lookup.LinesComplete | main.py:631 | every row with a date or a worker survives the filter |
| Lookup.LinesDates | main.py:631-632 | every surviving row carries the date in force at it, computed over the raw rows |
| Lookup.Lines | main.py:628-632 | exactly the kept rows, in order, each with its index and carried date |
| Lookup.ColumnsFrom | main.py:635 | the set flags of one row, in column order, and all of them |
| Lookup.PositionsFrom | main.py:635 | the set flags of the rows from `i` on, in row-major order, and all of them |
| Lookup.Positions | main.py:634-635 | exactly the matching cells, in row-major order |
| Lookup.DateOrder | main.py:642-645 | every record's date once, and nothing else |
| Lookup.DateOrderFirstSeen | main.py:642-645 | the dates come in the order of their first appearance among the records |
| Lookup.FirstAt | main.py:642-645 | the first position of a date among the records |
| Lookup.FirstAtEarlier | main.py:642-645 | a date already seen keeps its first position when a record is added |
| Lookup.FirstAtLast | main.py:642-645 | a date new at the last record is first found there |
| Lookup.Select | main.py:647-649 | a date's `(column, row)` entries are exactly those of the records on that date |
| Lookup.SelectSorted | main.py:647-649 | records in row order give entries in row order, so the row sort at main.py line 664 has nothing to do |
| Lookup.Groups | main.py:642-649 | one group per date of `date_order`, in that order, so the dates come in order of first appearance among the records; each group holds that date's entries; some group for any record, and no group is empty |
| Lookup.SelectInOrder | main.py:647-649 | the entries of a date come from its records in the records' order |
| Lookup.GroupsNonEmpty | main.py:647-649 | a date some record carries has a non-empty group |
| Lookup.GroupsPartition | main.py:642-649 | no date has two groups and every record is in the group of its date |
| Lookup.HitFrom | main.py:634-640 | the i-th record is built from the i-th matching position |
| Lookup.HitsSound | main.py:634-640 | every record comes from a matching cell |
| Lookup.HitsComplete | main.py:634-640 | every matching cell gives a record |
| Lookup.HitsInRowOrder | main.py:635-640 | the records' rows never decrease |
| Lookup.GroupsComplete | main.py:634-649 | every matching cell lands in the group of its date |
| Lookup.GroupsFromHits | main.py:647-649 | every entry of a group comes from a record on that date |
| Lookup.GroupsSound | main.py:634-649 | every entry of a group comes from a matching cell on the group's date, with that cell's header and row |
| Lookup.GroupsSorted | main.py:635-649 | every group's entries are already in row order |
| Lookup.Lookup | main.py:627-649 | fewer than two columns fails; "not found" exactly when no cell holds the name; otherwise non-empty groups, none empty |
| Lookup.LookupExact | main.py:627-649 | a successful lookup holds every matching cell in its date's group, only matching cells, one group per date, each in row order; the groups come in order of their dates' first matching cell, and each group's entries are that date's records in order |
| Lookup.EntriesInSheetOrder | main.py:634-649 | of two entries of a group, the earlier comes from a matching cell before the later's in row-major order, so cells of one row come column by column |
| Stats.Minutes | main.py:725-727 | ranges none of which ends before it starts sum to a non-negative count, and ranges that each end at their start sum to zero |
| Stats.DayRanges | main.py:719-722 | a date's final ranges lie within the day, sorted, strictly apart |
| Stats.MinutesWithinSpan | main.py:724-726 | separate ranges in order sum to at most the span from first start to last end |
| Stats.DayMinutesBound | main.py:719-726 | a date never counts 24 hours or more |
| Stats.UnparsedDayIsZero | main.py:719-729 | a date none of whose records parse has no ranges and zero minutes |
| Stats.NothingParses | main.py:691-692 | with no parsable record there are no parsed ranges |
| Stats.WeekdayNamesAgree | main.py:905-913 | the long weekday names are the short ones of main.py line 733 followed by "요일" |
| Stats.Tally | main.py:715-750 | one entry per date in every list, each day's minutes those of the date's final ranges, the total is the sum of the days, each day under 24 hours, each label the date text with its weekday name |
| Stats.Summarize | main.py:715-762 | succeeds exactly when the calendar walk over the date labels does, and then gives the walk's dates; one entry per date in every list, each day's minutes those of the date's final ranges, the total is the sum of the days, each day is under 24 hours, the dates form a calendar chain, each label reads as its date's day and is shown with its weekday name |
| Stats.GetStats | main.py:627-762 | fewer than two columns fails; `None` exactly when no cell holds the name; for a worker on the sheet, a report exists exactly when the calendar walk over the groups' date labels succeeds, and then has one day per group (at least one) with the walk's date, the group's date text, the minutes of its final ranges and the label naming its weekday; its figures fit together |
| Stats.AverageHours | main.py:752-754 | the average times the day count is the total hours; 0 when there are no days |
| Stats.AverageBelow | main.py:752-754 | at most `b` minutes a day on average gives an average of at most `b / 60` hours |
| Stats.AverageBound | main.py:715-754 | a consistent report's average never exceeds 23 hours 59 minutes |
| Stats.SumBelow | main.py:727 | a sum of days each at most `b` is at most the day count times `b` |
| Stats.Times | main.py:936-938 | the times text is empty exactly when there are no ranges |
| Stats.NoCommaInRange | main.py:937 | a rendered range holds no comma |
| Stats.SplitTimes | main.py:936-938 | splitting a times text on commas gives the rendered ranges |
| Stats.TimesReadBack | main.py:936-938 | a times text reads back as exactly the ranges it was written from |
| Stats.Rows | main.py:914-938 | one row per date, with the month, day and weekday name of its calendar date, whose times text reads back as that date's final ranges |
| Stats.RecordsOf | main.py:914-947 | succeeds exactly when the calendar walk does; then one row per date, with the month, day and weekday name the walk gives it, whose times text reads back as that date's final ranges; on failure a bad period, unreadable label or non-existent date |
| Stats.Export | main.py:825-947 | fewer than two columns fails; never "not found"; an unreadable period fails as itself; a worker missing from the sheet gets an empty table when the period is readable; for a worker on the sheet, a table exists exactly when the calendar walk succeeds, and then has one row per group with the month, day and weekday name of the walk's date and a times text that reads back as the group's final ranges |
| Stats.NoRows | main.py:901-916 | no dates and a readable period give no rows |
| Stats.SummaryMatchesRecords | main.py:914-947 | over the same groups, the export rows and the report of main.py lines 715-762 fail together and agree on dates, weekdays and minutes |
| Stats.StatsMatchExport | main.py:825-947 | for a worker on the sheet, `save_to_excel` and `get_stats` (main.py lines 627-762) fail together and agree when they succeed |

## Left out

- The PyQt5 interface, the Google Sheets download, the chart and the salary figure are not modelled. They are GUI, network I/O, rendering and floating point.
- `pd.read_csv` and the openpyxl styling are not modelled. A sheet is a header row plus rows of optional strings, with empty cells as `None`.
- pandas' own reading rules are not modelled:
  - type inference, so a cell `"1"` may become the number `1.0`;
  - recognition of NA spellings;
  - renaming of duplicate column names.
- Stats.Summarize: the per-day hours `round(day_minutes / 60, 2)` and `total_minutes / 60` are floats in the code. The model keeps whole minutes and gives the average as an exact rational. Float rounding is not modelled.
- Stats.GetStats and Stats.Export take the year as a parameter in place of `datetime.now().year`.
- Stats.Export finds the first two columns by position, as `get_stats` does. The code looks them up by the names `"Unnamed: 0"` and `"Unnamed: 1"`, so a sheet whose first two headers are not blank raises KeyError there. The model does not reproduce that error.
- Stats.Export: a match with no date above it makes `save_to_excel` raise AttributeError, because it calls `.replace` on NaN. The model reports it as the unreadable label `"nan"`, the error `get_stats` gives for the same sheet.
- Lookup.Lookup: cells are taken as already read, so a cell holding the text `"nan"` stays that text (`Some("nan")`) and differs from a missing cell (`None`). With its default NA spellings, `pd.read_csv` would read such a cell as missing.
- Text.ParseInt and Clock.ParseClock accept ASCII digits only. Python also accepts other Unicode decimal digits and underscores between digits in `int()`.
- Interval.ParseRange: its own contract gives bounds and the single separator only. What an accepted text is made of, and the converse, are stated by Interval.ParseRangeSound and Interval.ParseRangeParts.
- Clock.ParseClock: its own contract gives bounds and shape only. The fields an accepted text is made of, and the converse, are stated by Clock.ParseClockSound and Clock.ParseClockSplit.
- Merge.CoalesceFrom: its own contract does not say that no gap between input ranges is bridged. Merge.CoalesceNoGap states it.
- Merge.MergeAdjacent: its own contract does not say that no gap between input ranges is bridged. Merge.MergeNoGap and Merge.MergeSpans state it.
- Calendar.ProjectFrom: its own contract says only that a failure is explained by the labels. Which failure is reported, the first one, is stated by Calendar.ProjectBadLabel, Calendar.ProjectBadDate and Calendar.ProjectErrPasses.
- The duplicated nested helpers of `save_to_excel` (main.py:844-899) are modelled once, through the `get_stats` versions.
