/** Finding a worker on the schedule sheet (the start of `get_stats`, and of
    `save_to_excel`, which repeats it). The sheet is read as a table whose
    first two columns are renamed "날짜" (date) and "근무자" (worker); rows
    blank in both are dropped, the date is carried down into the rows
    below it, and every cell whose stripped text contains the worker's name
    becomes one record `(date, column header, row index)`. */
module Lookup {
  import opened Results
  import opened Text
  import Reconcile

  /** The sheet as read: the header row, and the data rows. An empty cell
      (pandas' NaN) is `None`; a row shorter than the header is padded with
      empty cells. */
  datatype Table = Table(header: seq<string>, rows: seq<seq<Option<string>>>)

  /** A data row that survived the blank-row filter: its position among the
      data rows (pandas keeps the original index), its date after carrying
      down, and its cells. */
  datatype Line = Line(index: nat, date: Option<string>, cells: seq<Option<string>>)

  /** One matching cell: the row's date, the column's header, the row index. */
  datatype Hit = Hit(date: Option<string>, column: string, row: nat)

  /** The cells of one date, as `(column header, row index)` pairs in sheet order. */
  datatype Group = Group(date: Option<string>, entries: seq<Reconcile.Entry>)

  const DateColumn := "날짜"
  const WorkerColumn := "근무자"

  function CellAt(cells: seq<Option<string>>, j: nat): Option<string> {
    if j < |cells| then cells[j] else None
  }

  /** A row that `dropna(subset=["날짜", "근무자"], how="all")` keeps: its
      date or its worker cell is filled. */
  predicate Kept(row: seq<Option<string>>) {
    CellAt(row, 0).Some? || CellAt(row, 1).Some?
  }

  /** The date in force at raw row `i`: its own date cell, else the one in
      force at the row above, else none. Blank rows have no date cell, so
      this is the same whether or not they were dropped first. */
  function Carried(rows: seq<seq<Option<string>>>, i: nat): Option<string>
    requires i < |rows|
  {
    if CellAt(rows[i], 0).Some? then CellAt(rows[i], 0)
    else if i == 0 then None
    else Carried(rows, i - 1)
  }

  /** `ffill`: the date in force at row `i` is the date cell of the nearest
      row at or above it that has one, and there is none exactly when no
      such row exists. */
  lemma {:induction false} CarriedNearest(rows: seq<seq<Option<string>>>, i: nat)
    requires i < |rows|
    ensures Carried(rows, i).None? <==> forall j :: 0 <= j <= i ==> CellAt(rows[j], 0).None?
    ensures Carried(rows, i).Some? ==>
      exists j :: 0 <= j <= i && Carried(rows, i) == CellAt(rows[j], 0) &&
        forall k :: j < k <= i ==> CellAt(rows[k], 0).None?
  {
    if CellAt(rows[i], 0).None? && i > 0 {
      CarriedNearest(rows, i - 1);
      if Carried(rows, i).Some? {
        var j :| 0 <= j <= i - 1 && Carried(rows, i - 1) == CellAt(rows[j], 0) &&
          forall k :: j < k <= i - 1 ==> CellAt(rows[k], 0).None?;
        assert forall k :: j < k <= i ==> CellAt(rows[k], 0).None?;
      }
    }
  }

  /** The date carried down past a run of dropped rows is the one in force above them. */
  lemma {:induction false} CarriedPastBlanks(rows: seq<seq<Option<string>>>, m: int, i: nat)
    requires -1 <= m <= i < |rows|
    requires forall x :: m < x <= i ==> !Kept(rows[x])
    ensures Carried(rows, i) == if m < 0 then None else Carried(rows, m)
    decreases i
  {
    if m < i {
      assert !Kept(rows[i]);
      if i > 0 {
        CarriedPastBlanks(rows, m, i - 1);
      }
    }
  }

  /** The index of the last line, or -1 if there is none. */
  function LastIndex(lines: seq<Line>): int {
    if lines == [] then -1 else lines[|lines| - 1].index
  }

  function LastDate(lines: seq<Line>): Option<string> {
    if lines == [] then None else lines[|lines| - 1].date
  }

  /** The first `n` data rows after `dropna` and `fillna(method="ffill")`. */
  function LinesUpTo(rows: seq<seq<Option<string>>>, n: nat): (lines: seq<Line>)
    requires n <= |rows|
    ensures |lines| <= n
    ensures forall k :: 0 <= k < |lines| ==> lines[k].index < n
  {
    if n == 0 then []
    else
      var prev := LinesUpTo(rows, n - 1);
      if !Kept(rows[n - 1]) then prev
      else
        var d := if CellAt(rows[n - 1], 0).Some? then CellAt(rows[n - 1], 0) else LastDate(prev);
        prev + [Line(n - 1, d, rows[n - 1])]
  }

  /** Indices stay in order and below `n`, each line holds its own row, and
      every row after the last line was dropped. */
  predicate Shaped(rows: seq<seq<Option<string>>>, n: nat, lines: seq<Line>)
    requires n <= |rows|
  {
    (forall k :: 0 <= k < |lines| ==>
       lines[k].index < n && lines[k].cells == rows[lines[k].index] && Kept(rows[lines[k].index])) &&
    (forall k, l :: 0 <= k < l < |lines| ==> lines[k].index < lines[l].index) &&
    (forall i :: LastIndex(lines) < i < n ==> !Kept(rows[i]))
  }

  lemma {:induction false} LinesShape(rows: seq<seq<Option<string>>>, n: nat)
    requires n <= |rows|
    ensures Shaped(rows, n, LinesUpTo(rows, n))
  {
    if n > 0 {
      var prev := LinesUpTo(rows, n - 1);
      LinesShape(rows, n - 1);
      if !Kept(rows[n - 1]) {
        ShapedDrop(rows, n, prev);
      } else {
        var d := if CellAt(rows[n - 1], 0).Some? then CellAt(rows[n - 1], 0) else LastDate(prev);
        ShapedKeep(rows, n, prev, d);
      }
    }
  }

  /** A dropped row leaves the lines as they were. */
  lemma ShapedDrop(rows: seq<seq<Option<string>>>, n: nat, prev: seq<Line>)
    requires 0 < n <= |rows| && Shaped(rows, n - 1, prev) && !Kept(rows[n - 1])
    ensures Shaped(rows, n, prev)
  {
  }

  /** A kept row becomes the last line. */
  lemma ShapedKeep(rows: seq<seq<Option<string>>>, n: nat, prev: seq<Line>, d: Option<string>)
    requires 0 < n <= |rows| && Shaped(rows, n - 1, prev) && Kept(rows[n - 1])
    ensures Shaped(rows, n, prev + [Line(n - 1, d, rows[n - 1])])
  {
    var lines := prev + [Line(n - 1, d, rows[n - 1])];
    assert LastIndex(lines) == n - 1;
    forall k, l | 0 <= k < l < |lines| ensures lines[k].index < lines[l].index {
      assert lines[k] == prev[k];
      if l < |prev| {
        assert lines[l] == prev[l];
      }
    }
  }

  /** Every kept row among the first `n` is there. */
  lemma {:induction false} LinesComplete(rows: seq<seq<Option<string>>>, n: nat, i: nat)
    requires i < n <= |rows| && Kept(rows[i])
    ensures exists k :: 0 <= k < |LinesUpTo(rows, n)| && LinesUpTo(rows, n)[k].index == i
  {
    var prev := LinesUpTo(rows, n - 1);
    var lines := LinesUpTo(rows, n);
    if i < n - 1 {
      LinesComplete(rows, n - 1, i);
      var k :| 0 <= k < |prev| && prev[k].index == i;
      assert lines[k] == prev[k];
    } else {
      assert lines[|prev|].index == i;
    }
  }

  /** Each line carries the date in force at its row. */
  lemma {:induction false} LinesDates(rows: seq<seq<Option<string>>>, n: nat)
    requires n <= |rows|
    ensures forall k :: 0 <= k < |LinesUpTo(rows, n)| ==>
              LinesUpTo(rows, n)[k].date == Carried(rows, LinesUpTo(rows, n)[k].index)
  {
    if n > 0 {
      var prev := LinesUpTo(rows, n - 1);
      var i := n - 1;
      LinesDates(rows, i);
      LinesShape(rows, i);
      if Kept(rows[i]) && CellAt(rows[i], 0).None? && i > 0 {
        CarriedPastBlanks(rows, LastIndex(prev), i - 1);
      }
    }
  }

  /** The rows of the sheet after the blank-row filter and the carrying down
      of dates: exactly the kept rows, in order, each with its original
      index and the date in force at it. */
  function Lines(t: Table): (lines: seq<Line>)
    ensures forall k :: 0 <= k < |lines| ==>
              lines[k].index < |t.rows| && lines[k].cells == t.rows[lines[k].index] && Kept(t.rows[lines[k].index])
    ensures forall k :: 0 <= k < |lines| ==> lines[k].date == Carried(t.rows, lines[k].index)
    ensures forall i :: 0 <= i < |t.rows| && Kept(t.rows[i]) ==> exists k :: 0 <= k < |lines| && lines[k].index == i
    ensures forall k, l :: 0 <= k < l < |lines| ==> lines[k].index < lines[l].index
  {
    var lines := LinesUpTo(t.rows, |t.rows|);
    LinesShape(t.rows, |t.rows|);
    LinesDates(t.rows, |t.rows|);
    forall i | 0 <= i < |t.rows| && Kept(t.rows[i])
      ensures exists k :: 0 <= k < |lines| && lines[k].index == i
    {
      LinesComplete(t.rows, |t.rows|, i);
    }
    lines
  }

  /** `str(x)`: an empty cell prints as "nan". The date column shows the
      carried-down date. */
  function CellText(line: Line, j: nat): string {
    var v := if j == 0 then line.date else CellAt(line.cells, j);
    match v
    case None => "nan"
    case Some(s) => s
  }

  /** `target_name in str(x).strip()`. */
  predicate Matches(name: string, line: Line, j: nat) {
    Contains(Strip(CellText(line, j)), name)
  }

  /** The column's name after the renaming of the first two. */
  function ColumnName(header: seq<string>, j: nat): string
    requires j < |header|
  {
    if j == 0 then DateColumn else if j == 1 then WorkerColumn else header[j]
  }

  /** Row-major order on `(row, column)` positions. */
  predicate Before(p: (nat, nat), q: (nat, nat)) {
    p.0 < q.0 || (p.0 == q.0 && p.1 < q.1)
  }

  predicate RowMajor(ps: seq<(nat, nat)>) {
    forall k, l :: 0 <= k < l < |ps| ==> Before(ps[k], ps[l])
  }

  /** `df.applymap(lambda x: target_name in str(x).strip())`: one flag per
      line and column. */
  function Mask(lines: seq<Line>, width: nat, name: string): (mask: seq<seq<bool>>)
    ensures |mask| == |lines|
    ensures forall r :: 0 <= r < |lines| ==> |mask[r]| == width
    ensures forall r, c :: 0 <= r < |lines| && 0 <= c < width ==> mask[r][c] == Matches(name, lines[r], c)
  {
    seq(|lines|, r requires 0 <= r < |lines| => seq(width, c requires 0 <= c < width => Matches(name, lines[r], c)))
  }

  /** The set flags of row `r` from column `j` on. */
  function ColumnsFrom(row: seq<bool>, r: nat, j: nat): (ps: seq<(nat, nat)>)
    requires j <= |row|
    ensures forall k :: 0 <= k < |ps| ==> ps[k].0 == r && j <= ps[k].1 < |row| && row[ps[k].1]
    ensures forall c :: j <= c < |row| && row[c] ==> (r, c) in ps
    ensures forall k, l :: 0 <= k < l < |ps| ==> ps[k].1 < ps[l].1
    decreases |row| - j
  {
    if j == |row| then []
    else
      var rest := ColumnsFrom(row, r, j + 1);
      if row[j] then [(r, j)] + rest else rest
  }

  /** The set flags of rows `i ..`, row by row. */
  function PositionsFrom(mask: seq<seq<bool>>, i: nat): (ps: seq<(nat, nat)>)
    requires i <= |mask|
    ensures forall k :: 0 <= k < |ps| ==> i <= ps[k].0 < |mask| && ps[k].1 < |mask[ps[k].0]| && mask[ps[k].0][ps[k].1]
    ensures forall r: nat, c: nat :: i <= r < |mask| && c < |mask[r]| && mask[r][c] ==> (r, c) in ps
    ensures RowMajor(ps)
    decreases |mask| - i
  {
    if i == |mask| then []
    else ColumnsFrom(mask[i], i, 0) + PositionsFrom(mask, i + 1)
  }

  /** `mask.stack()[mask.stack()].index`: exactly the matching cells, in
      row-major order. */
  function Positions(lines: seq<Line>, width: nat, name: string): (ps: seq<(nat, nat)>)
    ensures forall k :: 0 <= k < |ps| ==> ps[k].0 < |lines| && ps[k].1 < width && Matches(name, lines[ps[k].0], ps[k].1)
    ensures forall r: nat, c: nat :: r < |lines| && c < width && Matches(name, lines[r], c) ==> (r, c) in ps
    ensures RowMajor(ps)
  {
    PositionsFrom(Mask(lines, width, name), 0)
  }

  /** `[(df.at[row, "날짜"], time, row) for row, time in positions]`. */
  function HitsOf(lines: seq<Line>, header: seq<string>, ps: seq<(nat, nat)>): (hs: seq<Hit>)
    requires forall k :: 0 <= k < |ps| ==> ps[k].0 < |lines| && ps[k].1 < |header|
    ensures |hs| == |ps|
    ensures forall k :: 0 <= k < |ps| ==>
              hs[k] == Hit(lines[ps[k].0].date, ColumnName(header, ps[k].1), lines[ps[k].0].index)
  {
    if ps == [] then []
    else [Hit(lines[ps[0].0].date, ColumnName(header, ps[0].1), lines[ps[0].0].index)] + HitsOf(lines, header, ps[1..])
  }

  /** `date_order`: each date of the hits, once. */
  function DateOrder(hs: seq<Hit>): (ds: seq<Option<string>>)
    ensures forall d :: d in ds ==> exists i :: 0 <= i < |hs| && hs[i].date == d
    ensures forall i :: 0 <= i < |hs| ==> hs[i].date in ds
    ensures forall k, l :: 0 <= k < l < |ds| ==> ds[k] != ds[l]
  {
    if hs == [] then []
    else
      var p := hs[..|hs| - 1];
      var init := DateOrder(p);
      var d := hs[|hs| - 1].date;
      assert forall i :: 0 <= i < |p| ==> p[i] == hs[i];
      if d in init then init else init + [d]
  }

  /** Where date `d` first appears among the hits (`|hs|` if nowhere). */
  function FirstAt(hs: seq<Hit>, d: Option<string>): (k: nat)
    ensures k <= |hs|
    ensures k < |hs| ==> hs[k].date == d
    ensures forall l :: 0 <= l < k ==> hs[l].date != d
  {
    if hs == [] then 0
    else if hs[0].date == d then 0
    else 1 + FirstAt(hs[1..], d)
  }

  /** Two hit lists that agree up to an occurrence of `d` find `d` at the same place. */
  lemma {:induction false} FirstAtSame(a: seq<Hit>, b: seq<Hit>, d: Option<string>, k: nat)
    requires k < |a| && k < |b| && a[..k + 1] == b[..k + 1] && a[k].date == d
    ensures FirstAt(a, d) == FirstAt(b, d) <= k
  {
    if a[0].date != d {
      assert a[0] == a[..k + 1][0];
      assert a[1..][..k] == b[1..][..k];
      FirstAtSame(a[1..], b[1..], d, k - 1);
    }
  }

  /** The dates come out in the order of their first appearance among the
      hits, which is how `date_order` is built. */
  lemma {:induction false} DateOrderFirstSeen(hs: seq<Hit>)
    ensures FirstSeenOrder(hs, DateOrder(hs))
  {
    if hs != [] {
      var p := hs[..|hs| - 1];
      var d := hs[|hs| - 1].date;
      DateOrderFirstSeen(p);
      FirstAtEarlier(hs);
      KeepOrder(hs, p, DateOrder(p));
      if d !in DateOrder(p) {
        FirstAtLast(hs);
        AppendOrder(hs, DateOrder(p), d);
      }
    }
  }

  /** The dates `ds` are found among the hits in this order. */
  predicate FirstSeenOrder(hs: seq<Hit>, ds: seq<Option<string>>) {
    forall k, l :: 0 <= k < l < |ds| ==> FirstAt(hs, ds[k]) < FirstAt(hs, ds[l])
  }

  /** Dates found in order among the earlier hits are found in the same places among all of them. */
  lemma KeepOrder(hs: seq<Hit>, p: seq<Hit>, ds: seq<Option<string>>)
    requires FirstSeenOrder(p, ds)
    requires forall x :: x in ds ==> FirstAt(hs, x) == FirstAt(p, x)
    ensures FirstSeenOrder(hs, ds)
  {
    forall k, l | 0 <= k < l < |ds| ensures FirstAt(hs, ds[k]) < FirstAt(hs, ds[l]) {
      assert ds[k] in ds && ds[l] in ds;
    }
  }

  /** A date found after all of `ds` may follow them. */
  lemma AppendOrder(hs: seq<Hit>, ds: seq<Option<string>>, d: Option<string>)
    requires FirstSeenOrder(hs, ds)
    requires forall x :: x in ds ==> FirstAt(hs, x) < FirstAt(hs, d)
    ensures FirstSeenOrder(hs, ds + [d])
  {
    var r := ds + [d];
    forall k, l | 0 <= k < l < |r| ensures FirstAt(hs, r[k]) < FirstAt(hs, r[l]) {
      assert r[k] == ds[k] && ds[k] in ds;
      if l < |ds| {
        assert r[l] == ds[l];
      }
    }
  }

  /** A date already among the earlier hits is first found where it was before. */
  lemma FirstAtEarlier(hs: seq<Hit>)
    requires hs != []
    ensures forall x :: x in DateOrder(hs[..|hs| - 1]) ==>
              FirstAt(hs, x) == FirstAt(hs[..|hs| - 1], x) < |hs| - 1
  {
    var p := hs[..|hs| - 1];
    forall x | x in DateOrder(p) ensures FirstAt(hs, x) == FirstAt(p, x) < |hs| - 1 {
      var i :| 0 <= i < |p| && p[i].date == x;
      assert hs[..i + 1] == p[..i + 1];
      FirstAtSame(hs, p, x, i);
    }
  }

  /** A date new at the last hit is first found there. */
  lemma FirstAtLast(hs: seq<Hit>)
    requires hs != [] && hs[|hs| - 1].date !in DateOrder(hs[..|hs| - 1])
    ensures FirstAt(hs, hs[|hs| - 1].date) == |hs| - 1
  {
    var p := hs[..|hs| - 1];
    var d := hs[|hs| - 1].date;
    forall l | 0 <= l < |p| ensures hs[l].date != d {
      DateOrderHas(p, l);
    }
    FirstAtOnlyLast(hs, d);
  }

  lemma DateOrderHas(hs: seq<Hit>, i: nat)
    requires i < |hs|
    ensures hs[i].date in DateOrder(hs)
  {
  }

  lemma FirstAtOnlyLast(hs: seq<Hit>, d: Option<string>)
    requires hs != [] && hs[|hs| - 1].date == d
    requires forall l :: 0 <= l < |hs| - 1 ==> hs[l].date != d
    ensures FirstAt(hs, d) == |hs| - 1
  {
  }

  /** `grouped[d]`: the `(column header, row index)` pairs of the hits on
      date `d`, in order. */
  function Select(hs: seq<Hit>, d: Option<string>): (es: seq<Reconcile.Entry>)
    ensures |es| <= |hs|
    ensures forall e :: e in es ==> exists k :: 0 <= k < |hs| && hs[k].date == d && e == Reconcile.Entry(hs[k].column, hs[k].row)
    ensures forall k :: 0 <= k < |hs| && hs[k].date == d ==> Reconcile.Entry(hs[k].column, hs[k].row) in es
  {
    if hs == [] then []
    else
      var rest := Select(hs[1..], d);
      assert forall k :: 1 <= k < |hs| ==> hs[k] == hs[1..][k - 1];
      if hs[0].date == d then [Reconcile.Entry(hs[0].column, hs[0].row)] + rest
      else rest
  }

  /** Hits whose rows never decrease give entries whose rows never decrease,
      so the sort by row in `process_time_changes` leaves a group as it is. */
  lemma {:induction false} SelectSorted(hs: seq<Hit>, d: Option<string>)
    requires RowsRising(hs)
    ensures Reconcile.SortedByRow(Select(hs, d))
  {
    if hs != [] {
      RisingTail(hs);
      SelectSorted(hs[1..], d);
      SelectAbove(hs, d);
    }
  }

  /** The hits' rows never decrease. */
  predicate RowsRising(hs: seq<Hit>) {
    forall k, l :: 0 <= k < l < |hs| ==> hs[k].row <= hs[l].row
  }

  lemma RisingTail(hs: seq<Hit>)
    requires hs != [] && RowsRising(hs)
    ensures RowsRising(hs[1..])
    ensures forall k :: 0 <= k < |hs[1..]| ==> hs[0].row <= hs[1..][k].row
  {
    forall k | 0 <= k < |hs[1..]| ensures hs[0].row <= hs[1..][k].row {
      assert hs[1..][k] == hs[k + 1];
    }
  }

  /** The entries selected after the first hit lie at or below its row. */
  lemma SelectAbove(hs: seq<Hit>, d: Option<string>)
    requires hs != []
    requires forall k :: 0 <= k < |hs[1..]| ==> hs[0].row <= hs[1..][k].row
    ensures forall e :: e in Select(hs[1..], d) ==> hs[0].row <= e.row
  {
  }

  /** One group per date of `ds`. */
  function GroupsOf(hs: seq<Hit>, ds: seq<Option<string>>): (gs: seq<Group>)
    ensures |gs| == |ds|
    ensures forall k :: 0 <= k < |ds| ==> gs[k].date == ds[k] && gs[k].entries == Select(hs, ds[k])
  {
    if ds == [] then [] else [Group(ds[0], Select(hs, ds[0]))] + GroupsOf(hs, ds[1..])
  }

  /** A hit lands in the group of its date. */
  predicate InGroupOf(gs: seq<Group>, h: Hit) {
    exists k :: 0 <= k < |gs| && gs[k].date == h.date && Reconcile.Entry(h.column, h.row) in gs[k].entries
  }

  /** The hits grouped by date, the dates in order of first appearance. */
  function Groups(hs: seq<Hit>): (gs: seq<Group>)
    ensures hs != [] ==> gs != []
    ensures forall k :: 0 <= k < |gs| ==> gs[k].entries != []
    ensures |gs| == |DateOrder(hs)|
    ensures forall k :: 0 <= k < |gs| ==> gs[k].date == DateOrder(hs)[k] && gs[k].entries == Select(hs, gs[k].date)
    ensures forall k, l :: 0 <= k < l < |gs| ==> FirstAt(hs, gs[k].date) < FirstAt(hs, gs[l].date)
  {
    var order := DateOrder(hs);
    assert hs != [] ==> hs[0].date in order;
    GroupsNonEmpty(hs, order);
    DateOrderFirstSeen(hs);
    GroupsOf(hs, order)
  }

  /** A date that some hit carries has a non-empty group. */
  lemma GroupsNonEmpty(hs: seq<Hit>, ds: seq<Option<string>>)
    requires forall d :: d in ds ==> exists i :: 0 <= i < |hs| && hs[i].date == d
    ensures forall k :: 0 <= k < |ds| ==> GroupsOf(hs, ds)[k].entries != []
  {
    var gs := GroupsOf(hs, ds);
    forall k | 0 <= k < |ds| ensures gs[k].entries != [] {
      assert ds[k] in ds;
      var i :| 0 <= i < |hs| && hs[i].date == ds[k];
      assert Reconcile.Entry(hs[i].column, hs[i].row) in Select(hs, ds[k]);
    }
  }

  /** Every hit lands in the group of its date, and no date has two groups. */
  lemma GroupsPartition(hs: seq<Hit>)
    ensures forall k, l :: 0 <= k < l < |Groups(hs)| ==> Groups(hs)[k].date != Groups(hs)[l].date
    ensures forall i :: 0 <= i < |hs| ==> InGroupOf(Groups(hs), hs[i])
  {
    var order := DateOrder(hs);
    var gs := Groups(hs);
    forall i | 0 <= i < |hs| ensures InGroupOf(gs, hs[i]) {
      var k :| 0 <= k < |order| && order[k] == hs[i].date;
      assert gs[k].date == hs[i].date;
    }
  }

  /** The record `(date, column header, row index)` of cell `j` of line `k`. */
  function HitAt(lines: seq<Line>, header: seq<string>, k: nat, j: nat): Hit
    requires k < |lines| && j < |header|
  {
    Hit(lines[k].date, ColumnName(header, j), lines[k].index)
  }

  /** The records of all matching cells, in row-major order. */
  function Hits(lines: seq<Line>, header: seq<string>, name: string): seq<Hit> {
    HitsOf(lines, header, Positions(lines, |header|, name))
  }

  /** Record `i` comes from the `i`-th matching position. */
  lemma HitFrom(lines: seq<Line>, header: seq<string>, name: string, i: nat)
    requires i < |Hits(lines, header, name)|
    ensures var p := Positions(lines, |header|, name)[i];
      p.0 < |lines| && p.1 < |header| && Matches(name, lines[p.0], p.1) &&
      Hits(lines, header, name)[i] == HitAt(lines, header, p.0, p.1)
  {
  }

  /** Every record comes from a matching cell. */
  lemma HitsSound(lines: seq<Line>, header: seq<string>, name: string)
    ensures forall i :: 0 <= i < |Hits(lines, header, name)| ==>
              exists k, j :: 0 <= k < |lines| && 0 <= j < |header| && Matches(name, lines[k], j) &&
                Hits(lines, header, name)[i] == HitAt(lines, header, k, j)
  {
    var ps := Positions(lines, |header|, name);
    var hs := Hits(lines, header, name);
    forall i | 0 <= i < |hs|
      ensures exists k, j :: 0 <= k < |lines| && 0 <= j < |header| && Matches(name, lines[k], j) && hs[i] == HitAt(lines, header, k, j)
    {
      HitFrom(lines, header, name, i);
    }
  }

  /** Every matching cell gives a record. */
  lemma HitsComplete(lines: seq<Line>, header: seq<string>, name: string, k: nat, j: nat)
    requires k < |lines| && j < |header| && Matches(name, lines[k], j)
    ensures HitAt(lines, header, k, j) in Hits(lines, header, name)
  {
    var ps := Positions(lines, |header|, name);
    var hs := Hits(lines, header, name);
    assert (k, j) in ps;
    var i :| 0 <= i < |ps| && ps[i] == (k, j);
    assert hs[i] == HitAt(lines, header, k, j);
  }

  /** Lines in row order give records whose rows never decrease. */
  lemma HitsInRowOrder(lines: seq<Line>, header: seq<string>, name: string)
    requires forall k, l :: 0 <= k < l < |lines| ==> lines[k].index < lines[l].index
    ensures RowsRising(Hits(lines, header, name))
  {
    var ps := Positions(lines, |header|, name);
    var hs := Hits(lines, header, name);
    forall i, i2 | 0 <= i < i2 < |hs| ensures hs[i].row <= hs[i2].row {
      assert Before(ps[i], ps[i2]);
    }
  }

  /** Some cell of the sheet holds the name. */
  predicate Found(t: Table, name: string) {
    exists k, j :: 0 <= k < |Lines(t)| && 0 <= j < |t.header| && Matches(name, Lines(t)[k], j)
  }

  /** The worker lookup of `get_stats`: fewer than two columns is the
      IndexError of the renaming; no matching cell is `None`; otherwise the
      hits grouped by date, in order of first appearance. */
  function Lookup(t: Table, name: string): (r: Result<seq<Group>, Failure>)
    ensures |t.header| < 2 <==> r == Err(MissingColumns)
    ensures r == Err(NotFound) <==> |t.header| >= 2 && !Found(t, name)
    ensures r.Ok? ==> r.value != [] && forall g :: g in r.value ==> g.entries != []
  {
    if |t.header| < 2 then Err(MissingColumns)
    else
      var lines := Lines(t);
      var ps := Positions(lines, |t.header|, name);
      if ps == [] then
        assert !Found(t, name) by {
          forall k, j | 0 <= k < |lines| && 0 <= j < |t.header| ensures !Matches(name, lines[k], j) {
            assert (k, j) !in ps;
          }
        }
        Err(NotFound)
      else
        assert Matches(name, lines[ps[0].0], ps[0].1);
        Ok(Groups(Hits(lines, t.header, name)))
  }

  /** What a successful lookup returns: every matching cell lands in the
      group of its date, every entry of a group comes from a matching cell
      on that date, no date has two groups, and each group's rows are in
      order already. */
  lemma LookupExact(t: Table, name: string)
    requires Lookup(t, name).Ok?
    ensures forall k, j :: 0 <= k < |Lines(t)| && 0 <= j < |t.header| && Matches(name, Lines(t)[k], j) ==>
              InGroupOf(Lookup(t, name).value, HitAt(Lines(t), t.header, k, j))
    ensures forall g, e :: g in Lookup(t, name).value && e in g.entries ==>
              exists k, j :: 0 <= k < |Lines(t)| && 0 <= j < |t.header| && Matches(name, Lines(t)[k], j) &&
                g.date == Lines(t)[k].date && e == Reconcile.Entry(ColumnName(t.header, j), Lines(t)[k].index)
    ensures forall k, l :: 0 <= k < l < |Lookup(t, name).value| ==> Lookup(t, name).value[k].date != Lookup(t, name).value[l].date
    ensures forall g :: g in Lookup(t, name).value ==> Reconcile.SortedByRow(g.entries)
    ensures forall k, l :: 0 <= k < l < |Lookup(t, name).value| ==>
              FirstAt(Hits(Lines(t), t.header, name), Lookup(t, name).value[k].date) <
              FirstAt(Hits(Lines(t), t.header, name), Lookup(t, name).value[l].date)
    ensures forall g :: g in Lookup(t, name).value ==> g.entries == Select(Hits(Lines(t), t.header, name), g.date)
  {
    var lines := Lines(t);
    var hs := Hits(lines, t.header, name);
    assert Lookup(t, name).value == Groups(hs);
    GroupsComplete(lines, t.header, name);
    forall g, e | g in Groups(hs) && e in g.entries
      ensures exists k, j :: 0 <= k < |lines| && 0 <= j < |t.header| && Matches(name, lines[k], j) &&
                g.date == lines[k].date && e == Reconcile.Entry(ColumnName(t.header, j), lines[k].index)
    {
      GroupsSound(lines, t.header, name, g, e);
    }
    GroupsPartition(hs);
    GroupsSorted(lines, t.header, name);
  }

  /** The entries of a group keep the sheet's row-major order: of two
      entries, the earlier comes from a matching cell before the later's,
      so two cells of one row appear column by column. */
  lemma EntriesInSheetOrder(t: Table, name: string, g: Group, a: nat, b: nat)
    requires Lookup(t, name).Ok? && g in Lookup(t, name).value && a < b < |g.entries|
    ensures exists p: (nat, nat), q: (nat, nat) ::
              Before(p, q) &&
              p.0 < |Lines(t)| && p.1 < |t.header| && Matches(name, Lines(t)[p.0], p.1) &&
              q.0 < |Lines(t)| && q.1 < |t.header| && Matches(name, Lines(t)[q.0], q.1) &&
              g.entries[a] == Reconcile.Entry(ColumnName(t.header, p.1), Lines(t)[p.0].index) &&
              g.entries[b] == Reconcile.Entry(ColumnName(t.header, q.1), Lines(t)[q.0].index)
  {
    var lines := Lines(t);
    assert Lookup(t, name).value == Groups(Hits(lines, t.header, name));
    GroupInOrder(lines, t.header, name, g, a, b);
  }

  lemma GroupInOrder(lines: seq<Line>, header: seq<string>, name: string, g: Group, a: nat, b: nat)
    requires g in Groups(Hits(lines, header, name)) && a < b < |g.entries|
    ensures exists p: (nat, nat), q: (nat, nat) ::
              Before(p, q) &&
              p.0 < |lines| && p.1 < |header| && Matches(name, lines[p.0], p.1) &&
              q.0 < |lines| && q.1 < |header| && Matches(name, lines[q.0], q.1) &&
              g.entries[a] == Reconcile.Entry(ColumnName(header, p.1), lines[p.0].index) &&
              g.entries[b] == Reconcile.Entry(ColumnName(header, q.1), lines[q.0].index)
  {
    var hs := Hits(lines, header, name);
    var ps := Positions(lines, |header|, name);
    var gs := Groups(hs);
    var m :| 0 <= m < |gs| && gs[m] == g;
    SelectInOrder(hs, g.date, a, b);
    var i, j :| 0 <= i < j < |hs| && hs[i].date == g.date && hs[j].date == g.date &&
                g.entries[a] == Reconcile.Entry(hs[i].column, hs[i].row) &&
                g.entries[b] == Reconcile.Entry(hs[j].column, hs[j].row);
    HitFrom(lines, header, name, i);
    HitFrom(lines, header, name, j);
    var p, q := ps[i], ps[j];
    assert Before(p, q);
    assert hs[i] == HitAt(lines, header, p.0, p.1) && hs[j] == HitAt(lines, header, q.0, q.1);
  }

  /** The entries of date `d` come from the hits in the hits' order. */
  lemma {:induction false} SelectInOrder(hs: seq<Hit>, d: Option<string>, a: nat, b: nat)
    requires a < b < |Select(hs, d)|
    ensures exists i, j :: 0 <= i < j < |hs| && hs[i].date == d && hs[j].date == d &&
              Select(hs, d)[a] == Reconcile.Entry(hs[i].column, hs[i].row) &&
              Select(hs, d)[b] == Reconcile.Entry(hs[j].column, hs[j].row)
  {
    var tail := hs[1..];
    var rest := Select(tail, d);
    if hs[0].date == d && a == 0 {
      assert Select(hs, d)[b] == rest[b - 1] && rest[b - 1] in rest;
      var k :| 0 <= k < |tail| && tail[k].date == d && rest[b - 1] == Reconcile.Entry(tail[k].column, tail[k].row);
      assert hs[k + 1] == tail[k];
      assert Select(hs, d)[a] == Reconcile.Entry(hs[0].column, hs[0].row);
      assert 0 < k + 1 < |hs| && hs[k + 1].date == d &&
             Select(hs, d)[b] == Reconcile.Entry(hs[k + 1].column, hs[k + 1].row);
    } else {
      var shift := if hs[0].date == d then 1 else 0;
      var a', b' := a - shift, b - shift;
      assert Select(hs, d)[a] == rest[a'] && Select(hs, d)[b] == rest[b'];
      SelectInOrder(tail, d, a', b');
      var i, j :| 0 <= i < j < |tail| && tail[i].date == d && tail[j].date == d &&
                  rest[a'] == Reconcile.Entry(tail[i].column, tail[i].row) &&
                  rest[b'] == Reconcile.Entry(tail[j].column, tail[j].row);
      assert hs[i + 1] == tail[i] && hs[j + 1] == tail[j];
      assert 0 <= i + 1 < j + 1 < |hs| && hs[i + 1].date == d && hs[j + 1].date == d &&
             Select(hs, d)[a] == Reconcile.Entry(hs[i + 1].column, hs[i + 1].row) &&
             Select(hs, d)[b] == Reconcile.Entry(hs[j + 1].column, hs[j + 1].row);
    }
  }

  /** Every matching cell lands in the group of its date. */
  lemma GroupsComplete(lines: seq<Line>, header: seq<string>, name: string)
    ensures forall k, j :: 0 <= k < |lines| && 0 <= j < |header| && Matches(name, lines[k], j) ==>
              InGroupOf(Groups(Hits(lines, header, name)), HitAt(lines, header, k, j))
  {
    var hs := Hits(lines, header, name);
    GroupsPartition(hs);
    forall k, j | 0 <= k < |lines| && 0 <= j < |header| && Matches(name, lines[k], j)
      ensures InGroupOf(Groups(hs), HitAt(lines, header, k, j))
    {
      HitsComplete(lines, header, name, k, j);
      var i :| 0 <= i < |hs| && hs[i] == HitAt(lines, header, k, j);
    }
  }

  /** Every entry of a group comes from a hit on the group's date. */
  lemma GroupsFromHits(hs: seq<Hit>, g: Group, e: Reconcile.Entry)
    requires g in Groups(hs) && e in g.entries
    ensures exists i :: 0 <= i < |hs| && hs[i].date == g.date && e == Reconcile.Entry(hs[i].column, hs[i].row)
  {
    var gs := Groups(hs);
    var m :| 0 <= m < |gs| && gs[m] == g;
    assert g.entries == Select(hs, g.date);
  }

  /** Every entry of a group comes from a matching cell on the group's date. */
  lemma GroupsSound(lines: seq<Line>, header: seq<string>, name: string, g: Group, e: Reconcile.Entry)
    requires g in Groups(Hits(lines, header, name)) && e in g.entries
    ensures exists k, j :: 0 <= k < |lines| && 0 <= j < |header| && Matches(name, lines[k], j) &&
              g.date == lines[k].date && e == Reconcile.Entry(ColumnName(header, j), lines[k].index)
  {
    var hs := Hits(lines, header, name);
    GroupsFromHits(hs, g, e);
    var i :| 0 <= i < |hs| && hs[i].date == g.date && e == Reconcile.Entry(hs[i].column, hs[i].row);
    HitFrom(lines, header, name, i);
    var p := Positions(lines, |header|, name)[i];
    assert hs[i] == HitAt(lines, header, p.0, p.1);
  }

  /** Lines in row order give groups whose rows are in order. */
  lemma GroupsSorted(lines: seq<Line>, header: seq<string>, name: string)
    requires forall k, l :: 0 <= k < l < |lines| ==> lines[k].index < lines[l].index
    ensures forall g :: g in Groups(Hits(lines, header, name)) ==> Reconcile.SortedByRow(g.entries)
  {
    var hs := Hits(lines, header, name);
    var gs := Groups(hs);
    HitsInRowOrder(lines, header, name);
    forall g | g in gs ensures Reconcile.SortedByRow(g.entries) {
      var m :| 0 <= m < |gs| && gs[m] == g;
      SelectSorted(hs, g.date);
    }
  }
}
