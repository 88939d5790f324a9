/** `process_time_changes`: a day's `(time_str, row_idx)` pairs are put in row
    order and folded into a list of accepted ranges, where a range that
    overlaps or touches an accepted one replaces the first such range (the
    later row wins) and any other range is appended. */
module Reconcile {
  import opened Results
  import opened Interval

  /** One `(time_str, row_idx)` pair of a day's group. */
  datatype Entry = Entry(text: string, row: nat)

  predicate SortedByRow(es: seq<Entry>) {
    forall i, j :: 0 <= i < j < |es| ==> es[i].row <= es[j].row
  }

  /** The entries of row `k`, in their order in `es`. */
  function OfRow(es: seq<Entry>, k: nat): (r: seq<Entry>)
    ensures forall x :: x in r ==> x in es && x.row == k
  {
    if es == [] then []
    else OfRow(es[..|es| - 1], k) + (if es[|es| - 1].row == k then [es[|es| - 1]] else [])
  }

  lemma {:induction false} OfRowConcat(a: seq<Entry>, b: seq<Entry>, k: nat)
    ensures OfRow(a + b, k) == OfRow(a, k) + OfRow(b, k)
  {
    if b == [] {
      assert a + b == a;
    } else {
      var b', last := b[..|b| - 1], b[|b| - 1];
      var t := if last.row == k then [last] else [];
      assert (a + b)[..|a + b| - 1] == a + b' && (a + b)[|a + b| - 1] == last;
      OfRowConcat(a, b', k);
      assert OfRow(a + b, k) == OfRow(a, k) + OfRow(b', k) + t;
      assert OfRow(b, k) == OfRow(b', k) + t;
    }
  }

  /** Peeling the last entry off `OfRow`. */
  lemma OfRowSnoc(es: seq<Entry>, k: nat)
    requires es != []
    ensures OfRow(es, k) == OfRow(es[..|es| - 1], k) + OfRow([es[|es| - 1]], k)
  {
    assert OfRow([es[|es| - 1]], k) == OfRow([], k) + (if es[|es| - 1].row == k then [es[|es| - 1]] else []);
  }

  /** In a row-sorted sequence no entry has a row above the last one's. */
  lemma LastRowIsMax(es: seq<Entry>, x: Entry)
    requires SortedByRow(es) && x in es
    ensures x.row <= es[|es| - 1].row
  {
  }

  lemma SortedInit(es: seq<Entry>)
    requires SortedByRow(es) && es != []
    ensures SortedByRow(es[..|es| - 1])
  {
  }

  lemma SortedSnoc(es: seq<Entry>, x: Entry)
    requires SortedByRow(es)
    requires forall y :: y in es ==> y.row <= x.row
    ensures SortedByRow(es + [x])
  {
    forall i, j | 0 <= i < j < |es| + 1 ensures (es + [x])[i].row <= (es + [x])[j].row {
      if j == |es| {
        assert (es + [x])[i] in es;
      }
    }
  }

  /** Places `x` after every entry whose row is not above its own, which is
      where a stable sort puts the last of equal keys. */
  function InsertByRow(s: seq<Entry>, x: Entry): (r: seq<Entry>)
    requires SortedByRow(s)
    ensures SortedByRow(r)
    ensures multiset(r) == multiset(s) + multiset{x}
  {
    if s == [] || s[|s| - 1].row <= x.row then
      SortedSnoc(s, x);
      s + [x]
    else
      var init, last := s[..|s| - 1], s[|s| - 1];
      SortedInit(s);
      var front := InsertByRow(init, x);
      assert s == init + [last];
      assert forall y :: y in front ==> y.row <= last.row by {
        forall y | y in front ensures y.row <= last.row {
          assert y in multiset(front);
          assert y in multiset(init) || y == x;
        }
      }
      SortedSnoc(front, last);
      front + [last]
  }

  /** Insertion adds `x` at the end of its own row and disturbs no row. */
  lemma {:induction false} InsertByRowRows(s: seq<Entry>, x: Entry, k: nat)
    requires SortedByRow(s)
    ensures OfRow(InsertByRow(s, x), k) == OfRow(s, k) + OfRow([x], k)
  {
    if s == [] || s[|s| - 1].row <= x.row {
      OfRowConcat(s, [x], k);
    } else {
      var init, last := s[..|s| - 1], s[|s| - 1];
      SortedInit(s);
      var front := InsertByRow(init, x);
      assert InsertByRow(s, x) == front + [last];
      assert s == init + [last];
      InsertByRowRows(init, x, k);
      OfRowConcat(front, [last], k);
      OfRowConcat(init, [last], k);
      OfRowSingle(x, k);
      OfRowSingle(last, k);
      Reorder(OfRow(init, k), OfRow([x], k), OfRow([last], k));
    }
  }

  /** Two pieces of which one is empty can be put in either order. */
  lemma Reorder(p: seq<Entry>, u: seq<Entry>, v: seq<Entry>)
    requires u == [] || v == []
    ensures p + u + v == p + v + u
  {
    if u == [] {
      assert p + u == p && p + v + u == p + v;
    } else {
      assert p + u + v == p + u && p + v == p;
    }
  }

  lemma OfRowSingle(x: Entry, k: nat)
    ensures OfRow([x], k) == if x.row == k then [x] else []
  {
    assert [x][..0] == [];
  }

  /** Python's `list.sort(key=lambda x: x[1])`: ordered by row, and stable, so
      the entries of any one row keep their relative order. */
  function SortByRow(es: seq<Entry>): (r: seq<Entry>)
    ensures SortedByRow(r)
    ensures multiset(r) == multiset(es)
    ensures forall k: nat :: OfRow(r, k) == OfRow(es, k)
  {
    if es == [] then []
    else
      var init, last := es[..|es| - 1], es[|es| - 1];
      var r := InsertByRow(SortByRow(init), last);
      assert es == init + [last];
      forall k: nat ensures OfRow(r, k) == OfRow(es, k) {
        InsertByRowRows(SortByRow(init), last, k);
        OfRowConcat(init, [last], k);
      }
      r
  }

  /** The overlap test of the loop, `start_time <= existing_end and
      end_time >= existing_start`: inclusive, so ranges that merely touch count. */
  predicate Touches(existing: TimeRange, incoming: TimeRange) {
    incoming.start <= existing.end && incoming.end >= existing.start
  }

  /** The position of the first accepted range the new one touches, or
      `|acc|` when it touches none. */
  function FirstTouching(acc: seq<TimeRange>, r: TimeRange): (i: nat)
    ensures i <= |acc|
    ensures i < |acc| ==> Touches(acc[i], r)
    ensures forall j :: 0 <= j < i ==> !Touches(acc[j], r)
  {
    if acc == [] then 0
    else if Touches(acc[0], r) then 0
    else 1 + FirstTouching(acc[1..], r)
  }

  /** One pass of the inner loop: the first touched range is replaced in
      place by `r` (`processed_ranges[i] = new_range; break`), or `r` is
      appended when it touches none. */
  function Absorb(acc: seq<TimeRange>, r: TimeRange): (out: seq<TimeRange>)
    ensures r in out
    ensures |out| == |acc| <==> exists j :: 0 <= j < |acc| && Touches(acc[j], r)
    ensures |out| == |acc| || |out| == |acc| + 1
    ensures |out| == |acc| + 1 ==> out == acc + [r]
    ensures forall j :: 0 <= j < |acc| && out[j] != acc[j] ==>
      out[j] == r && Touches(acc[j], r) && forall l :: 0 <= l < j ==> !Touches(acc[l], r)
    ensures forall j, l :: 0 <= j < l < |acc| && out[j] != acc[j] ==> out[l] == acc[l]
    ensures FirstTouching(acc, r) < |acc| ==> out[FirstTouching(acc, r)] == r
  {
    var i := FirstTouching(acc, r);
    if i < |acc| then
      assert acc[i := r][i] == r;
      acc[i := r]
    else acc + [r]
  }

  /** One turn of the outer loop; a text that fails to parse raises ValueError
      or IndexError, which the `except` clause turns into `continue`. */
  function Step(acc: seq<TimeRange>, e: Entry): (out: seq<TimeRange>)
    ensures ParseRange(e.text).None? ==> out == acc
    ensures ParseRange(e.text).Some? ==> ParseRange(e.text).value in out
    ensures |acc| <= |out| <= |acc| + 1
    ensures forall x :: x in out ==> x in acc || ParseRange(e.text) == Some(x)
  {
    match ParseRange(e.text)
    case None => acc
    case Some(r) => Absorb(acc, r)
  }

  /** The outer loop over entries in the given order. */
  function FoldEntries(acc: seq<TimeRange>, es: seq<Entry>): (out: seq<TimeRange>)
    ensures |acc| <= |out| <= |acc| + |es|
    ensures forall x :: x in out ==> x in acc || exists e :: e in es && ParseRange(e.text) == Some(x)
    decreases |es|
  {
    if es == [] then acc
    else
      var out := FoldEntries(Step(acc, es[0]), es[1..]);
      assert forall e :: e in es[1..] ==> e in es;
      out
  }

  /** The same loop over ranges that are already parsed. */
  function AcceptAll(acc: seq<TimeRange>, rs: seq<TimeRange>): (out: seq<TimeRange>)
    ensures |acc| <= |out| <= |acc| + |rs|
    ensures forall x :: x in out ==> x in acc || x in rs
    decreases |rs|
  {
    if rs == [] then acc else AcceptAll(Absorb(acc, rs[0]), rs[1..])
  }

  /** The ranges of the entries whose text parses, in entry order. */
  function Parsed(es: seq<Entry>): (rs: seq<TimeRange>)
    ensures |rs| <= |es|
    ensures forall x :: x in rs <==> exists e :: e in es && ParseRange(e.text) == Some(x)
  {
    if es == [] then []
    else
      var rest := Parsed(es[1..]);
      var head := ParseRange(es[0].text);
      ParsedCons(es, head, rest);
      match head
      case None => rest
      case Some(r) => [r] + rest
  }

  /** The membership step of `Parsed`: the parse of the first entry, if
      any, in front of the parses of the others. */
  lemma ParsedCons(es: seq<Entry>, head: Option<TimeRange>, rest: seq<TimeRange>)
    requires es != [] && head == ParseRange(es[0].text)
    requires forall x :: x in rest <==> exists e :: e in es[1..] && ParseRange(e.text) == Some(x)
    ensures var out := if head.Some? then [head.value] + rest else rest;
      forall x :: x in out <==> exists e :: e in es && ParseRange(e.text) == Some(x)
  {
    var out := if head.Some? then [head.value] + rest else rest;
    forall x | x in out
      ensures exists e :: e in es && ParseRange(e.text) == Some(x)
    {
      ParsedConsSound(es, head, rest, x);
    }
    forall x, e | e in es && ParseRange(e.text) == Some(x)
      ensures x in out
    {
      if e != es[0] {
        assert e in es[1..];
      }
    }
  }

  lemma ParsedConsSound(es: seq<Entry>, head: Option<TimeRange>, rest: seq<TimeRange>, x: TimeRange)
    requires es != [] && head == ParseRange(es[0].text)
    requires forall x :: x in rest ==> exists e :: e in es[1..] && ParseRange(e.text) == Some(x)
    requires x in (if head.Some? then [head.value] + rest else rest)
    ensures exists e :: e in es && ParseRange(e.text) == Some(x)
  {
    if head.Some? && x == head.value {
      assert es[0] in es;
    } else {
      assert x in rest;
      var e :| e in es[1..] && ParseRange(e.text) == Some(x);
      assert e in es;
    }
  }

  lemma {:induction false} ParsedConcat(a: seq<Entry>, b: seq<Entry>)
    ensures Parsed(a + b) == Parsed(a) + Parsed(b)
  {
    if a == [] {
      assert a + b == b;
    } else {
      assert (a + b)[0] == a[0];
      assert (a + b)[1..] == a[1..] + b;
      ParsedConcat(a[1..], b);
    }
  }

  /** Sorting neither adds nor loses a parsable entry. */
  lemma {:induction false} ParsedInsert(s: seq<Entry>, x: Entry)
    requires SortedByRow(s)
    ensures |Parsed(InsertByRow(s, x))| == |Parsed(s)| + |Parsed([x])|
  {
    if s == [] || s[|s| - 1].row <= x.row {
      ParsedConcat(s, [x]);
    } else {
      var init, last := s[..|s| - 1], s[|s| - 1];
      assert s == init + [last];
      ParsedInsert(init, x);
      ParsedConcat(InsertByRow(init, x), [last]);
      ParsedConcat(init, [last]);
    }
  }

  lemma {:induction false} ParsedSort(es: seq<Entry>)
    ensures |Parsed(SortByRow(es))| == |Parsed(es)|
  {
    if es != [] {
      var init, last := es[..|es| - 1], es[|es| - 1];
      assert es == init + [last];
      ParsedSort(init);
      ParsedInsert(SortByRow(init), last);
      ParsedConcat(init, [last]);
    }
  }

  /** A record that fails to parse is skipped without affecting the others:
      the loop over entries is the loop over the ranges that parse. */
  lemma {:induction false} FoldSkipsMalformed(acc: seq<TimeRange>, es: seq<Entry>)
    ensures FoldEntries(acc, es) == AcceptAll(acc, Parsed(es))
    decreases |es|
  {
    if es != [] {
      FoldSkipsMalformed(Step(acc, es[0]), es[1..]);
    }
  }

  /** `process_time_changes`: sort by row, return `[]` for no entries, else
      run the loop from an empty list. At most one range per parsable entry
      comes out, and each is the parse of some entry, unchanged. */
  function ProcessTimeChanges(es: seq<Entry>): (out: seq<TimeRange>)
    ensures es == [] ==> out == []
    ensures |out| <= |Parsed(es)|
    ensures forall x :: x in out ==> exists e :: e in es && ParseRange(e.text) == Some(x)
  {
    var sorted := SortByRow(es);
    if sorted == [] then []
    else
      FoldSkipsMalformed([], sorted);
      ParsedSort(es);
      assert forall e :: e in sorted <==> e in es by {
        assert forall e :: e in sorted <==> e in multiset(sorted);
      }
      FoldEntries([], sorted)
  }

  /** Two row-sorted sequences that agree on the entries of every row are the same. */
  lemma {:induction false} SortedUnique(a: seq<Entry>, b: seq<Entry>)
    requires SortedByRow(a) && SortedByRow(b)
    requires forall k: nat :: OfRow(a, k) == OfRow(b, k)
    ensures a == b
    decreases |a| + |b|
  {
    if a == [] && b == [] {
    } else if a == [] {
      LastInOwnRow(b);
      assert false;
    } else if b == [] {
      LastInOwnRow(a);
      assert false;
    } else {
      SameLast(a, b);
      var a', b', t := a[..|a| - 1], b[..|b| - 1], a[|a| - 1];
      assert a == a' + [t] && b == b' + [t];
      SortedInit(a);
      SortedInit(b);
      SameInits(a', b', t);
      SortedUnique(a', b');
    }
  }

  /** Agreeing row-sorted sequences end in the same entry. */
  lemma SameLast(a: seq<Entry>, b: seq<Entry>)
    requires a != [] && b != [] && SortedByRow(a) && SortedByRow(b)
    requires forall k: nat :: OfRow(a, k) == OfRow(b, k)
    ensures a[|a| - 1] == b[|b| - 1]
  {
    var la, lb := a[|a| - 1], b[|b| - 1];
    LastInOwnRow(a);
    LastInOwnRow(b);
    var ra, rb := OfRow(b, la.row), OfRow(a, lb.row);
    LastRowIsMax(b, ra[|ra| - 1]);
    LastRowIsMax(a, rb[|rb| - 1]);
    assert la.row == lb.row;
  }

  /** Dropping the same last entry keeps the rows in agreement. */
  lemma SameInits(a: seq<Entry>, b: seq<Entry>, t: Entry)
    requires forall k: nat :: OfRow(a + [t], k) == OfRow(b + [t], k)
    ensures forall k: nat :: OfRow(a, k) == OfRow(b, k)
  {
    forall k: nat ensures OfRow(a, k) == OfRow(b, k) {
      OfRowConcat(a, [t], k);
      OfRowConcat(b, [t], k);
      var x, y, u := OfRow(a, k), OfRow(b, k), OfRow([t], k);
      assert x + u == y + u;
      assert x == (x + u)[..|x|] == (y + u)[..|y|] == y;
    }
  }

  /** The last entry closes the list of its own row. */
  lemma LastInOwnRow(es: seq<Entry>)
    requires es != []
    ensures OfRow(es, es[|es| - 1].row) != []
    ensures OfRow(es, es[|es| - 1].row)[|OfRow(es, es[|es| - 1].row)| - 1] == es[|es| - 1]
  {
  }

  /** Only the row order matters: inputs that list the same entries for every
      row (in the same order within a row) reconcile identically, however
      their rows are interleaved. */
  lemma RowOrderDecides(es1: seq<Entry>, es2: seq<Entry>)
    requires forall k: nat :: OfRow(es1, k) == OfRow(es2, k)
    ensures ProcessTimeChanges(es1) == ProcessTimeChanges(es2)
  {
    SortedUnique(SortByRow(es1), SortByRow(es2));
  }

  /** Entries already in row order are not reordered by the sort. */
  lemma {:induction false} SortKeepsSorted(es: seq<Entry>)
    requires SortedByRow(es)
    ensures SortByRow(es) == es
  {
    SortedUnique(SortByRow(es), es);
  }

  /** A chain of touching ranges collapses onto its last member: each new
      range touches the single accepted one and replaces it. */
  lemma {:induction false} ChainCollapses(x: TimeRange, rs: seq<TimeRange>)
    requires rs != [] && Touches(x, rs[0])
    requires forall i :: 0 < i < |rs| ==> Touches(rs[i - 1], rs[i])
    ensures AcceptAll([x], rs) == [rs[|rs| - 1]]
    decreases |rs|
  {
    assert Absorb([x], rs[0]) == [rs[0]];
    if |rs| > 1 {
      ChainCollapses(rs[0], rs[1..]);
    }
  }

  /** Later row wins: when every range touches the one before it, the
      reconciled day is exactly the last range. */
  lemma LaterRowWins(rs: seq<TimeRange>)
    requires rs != []
    requires forall i :: 0 < i < |rs| ==> Touches(rs[i - 1], rs[i])
    ensures AcceptAll([], rs) == [rs[|rs| - 1]]
  {
    assert Absorb([], rs[0]) == [rs[0]];
    if |rs| > 1 {
      ChainCollapses(rs[0], rs[1..]);
    }
  }

  /** Touching 09:00-12:00 followed by 12:00-15:00 keeps only 12:00-15:00:
      replacement, not union. */
  lemma TouchingPairKeepsLater()
    ensures AcceptAll([], [TimeRange(540, 720), TimeRange(720, 900)]) == [TimeRange(720, 900)]
  {
    LaterRowWins([TimeRange(540, 720), TimeRange(720, 900)]);
  }

  /** Ranges that touch nothing accepted so far are all kept, in order. */
  lemma {:induction false} SeparateShiftsKept(acc: seq<TimeRange>, rs: seq<TimeRange>)
    requires forall i, j :: 0 <= i < |acc| + |rs| && 0 <= j < |rs| && i < |acc| + j ==>
      !Touches((acc + rs)[i], rs[j])
    ensures AcceptAll(acc, rs) == acc + rs
    decreases |rs|
  {
    if rs == [] {
      assert acc + rs == acc;
    } else {
      assert forall j :: 0 <= j < |acc| ==> !Touches(acc[j], rs[0]) by {
        forall j | 0 <= j < |acc| ensures !Touches(acc[j], rs[0]) {
          assert (acc + rs)[j] == acc[j];
        }
      }
      assert Absorb(acc, rs[0]) == acc + [rs[0]];
      assert acc + [rs[0]] + rs[1..] == acc + rs;
      forall i, j | 0 <= i < |acc| + 1 + |rs[1..]| && 0 <= j < |rs[1..]| && i < |acc| + 1 + j
        ensures !Touches((acc + [rs[0]] + rs[1..])[i], rs[1..][j])
      {
        assert rs[1..][j] == rs[j + 1];
      }
      SeparateShiftsKept(acc + [rs[0]], rs[1..]);
    }
  }
}
