/** `merge_adjacent_ranges`: sort the day's ranges by `(start, end)` and
    coalesce every range whose start does not lie after the running end. */
module Merge {
  import opened Interval

  /** Python's order on `(start, end)` tuples. */
  predicate RangeLe(a: TimeRange, b: TimeRange) {
    a.start < b.start || (a.start == b.start && a.end <= b.end)
  }

  predicate LexSorted(rs: seq<TimeRange>) {
    forall i, j :: 0 <= i < j < |rs| ==> RangeLe(rs[i], rs[j])
  }

  /** Consecutive ranges are strictly apart: each ends before the next starts. */
  predicate Separated(rs: seq<TimeRange>) {
    forall i :: 0 < i < |rs| ==> rs[i - 1].end < rs[i].start
  }

  /** `x` lies inside `o`. */
  predicate Within(x: TimeRange, o: TimeRange) {
    o.start <= x.start && x.end <= o.end
  }

  lemma SortedInit(rs: seq<TimeRange>)
    requires LexSorted(rs) && rs != []
    ensures LexSorted(rs[..|rs| - 1])
  {
  }

  lemma SortedSnoc(rs: seq<TimeRange>, x: TimeRange)
    requires LexSorted(rs)
    requires forall y :: y in rs ==> RangeLe(y, x)
    ensures LexSorted(rs + [x])
  {
    forall i, j | 0 <= i < j < |rs| + 1 ensures RangeLe((rs + [x])[i], (rs + [x])[j]) {
      if j == |rs| {
        assert (rs + [x])[i] in rs;
      }
    }
  }

  /** Insertion into a sorted list, from the back. */
  function InsertRange(s: seq<TimeRange>, x: TimeRange): (r: seq<TimeRange>)
    requires LexSorted(s)
    ensures LexSorted(r)
    ensures multiset(r) == multiset(s) + multiset{x}
  {
    if s == [] || RangeLe(s[|s| - 1], x) then
      SortedSnoc(s, x);
      s + [x]
    else
      var init, last := s[..|s| - 1], s[|s| - 1];
      SortedInit(s);
      var front := InsertRange(init, x);
      assert s == init + [last];
      assert forall y :: y in front ==> RangeLe(y, last) by {
        forall y | y in front ensures RangeLe(y, last) {
          assert y in multiset(front);
          assert y in multiset(init) || y == x;
        }
      }
      SortedSnoc(front, last);
      front + [last]
  }

  /** `ranges.sort()`: the same ranges, in tuple order. */
  function SortRanges(rs: seq<TimeRange>): (r: seq<TimeRange>)
    ensures LexSorted(r)
    ensures multiset(r) == multiset(rs)
  {
    if rs == [] then []
    else
      assert rs == rs[..|rs| - 1] + [rs[|rs| - 1]];
      InsertRange(SortRanges(rs[..|rs| - 1]), rs[|rs| - 1])
  }

  /** Sorting a sorted list changes nothing. */
  lemma {:induction false} SortSorted(rs: seq<TimeRange>)
    requires LexSorted(rs)
    ensures SortRanges(rs) == rs
  {
    if rs != [] {
      SortedInit(rs);
      SortSorted(rs[..|rs| - 1]);
      SortedLast(rs);
      InsertAtEnd(rs[..|rs| - 1], rs[|rs| - 1]);
    }
  }

  /** The last range of a sorted list is not below the one before it. */
  lemma SortedLast(rs: seq<TimeRange>)
    requires LexSorted(rs) && rs != []
    ensures rs == rs[..|rs| - 1] + [rs[|rs| - 1]]
    ensures |rs| > 1 ==> RangeLe(rs[..|rs| - 1][|rs| - 2], rs[|rs| - 1])
  {
  }

  /** A range not below the last one goes at the end. */
  lemma InsertAtEnd(s: seq<TimeRange>, x: TimeRange)
    requires LexSorted(s) && (s == [] || RangeLe(s[|s| - 1], x))
    ensures InsertRange(s, x) == s + [x]
  {
  }

  /** The loop of `merge_adjacent_ranges` from the running range `cur` on:
      a range starting at or before the running end extends it
      (`current_end = max(current_end, end)`), any other closes it. The
      result is strictly separated and still in tuple order. */
  function CoalesceFrom(cur: TimeRange, rest: seq<TimeRange>): (out: seq<TimeRange>)
    requires LexSorted(rest)
    requires rest != [] ==> RangeLe(cur, rest[0])
    ensures out != [] && |out| <= 1 + |rest|
    ensures out[0].start == cur.start && out[0].end >= cur.end
    ensures forall o :: o in out ==> RangeLe(cur, o)
    ensures Separated(out) && LexSorted(out)
    decreases |rest|
  {
    if rest == [] then [cur]
    else
      var next := rest[0];
      SortedTail(rest);
      if next.start <= cur.end then
        var grown := TimeRange(cur.start, if next.end > cur.end then next.end else cur.end);
        assert rest[1..] != [] ==> RangeLe(grown, rest[1]);
        CoalesceFrom(grown, rest[1..])
      else
        var tail := CoalesceFrom(next, rest[1..]);
        var out := [cur] + tail;
        assert out[1] == tail[0];
        assert forall j :: 0 <= j < |tail| ==> RangeLe(cur, tail[j]) by {
          forall j | 0 <= j < |tail| ensures RangeLe(cur, tail[j]) {
            assert tail[j] in tail;
          }
        }
        SortedCons(cur, tail);
        out
  }

  lemma SortedTail(rs: seq<TimeRange>)
    requires LexSorted(rs) && rs != []
    ensures LexSorted(rs[1..])
    ensures rs[1..] != [] ==> RangeLe(rs[0], rs[1])
  {
  }

  lemma SortedCons(x: TimeRange, rs: seq<TimeRange>)
    requires LexSorted(rs)
    requires forall j :: 0 <= j < |rs| ==> RangeLe(x, rs[j])
    ensures LexSorted([x] + rs)
  {
    forall i, j | 0 <= i < j < |rs| + 1 ensures RangeLe(([x] + rs)[i], ([x] + rs)[j]) {
      if i > 0 {
        assert ([x] + rs)[i] == rs[i - 1] && ([x] + rs)[j] == rs[j - 1];
      }
    }
  }

  /** `merge_adjacent_ranges`: nothing in, nothing out; otherwise the sorted
      ranges coalesced into strictly separated ranges, no more than came in. */
  function MergeAdjacent(rs: seq<TimeRange>): (out: seq<TimeRange>)
    ensures rs == [] <==> out == []
    ensures |out| <= |rs|
    ensures Separated(out) && LexSorted(out)
  {
    if rs == [] then []
    else
      var sorted := SortRanges(rs);
      assert |sorted| == |multiset(sorted)| == |rs|;
      SortedTail(sorted);
      CoalesceFrom(sorted[0], sorted[1..])
  }

  /** Every range of `[cur] + rest` lies inside some range the loop emits. */
  lemma {:induction false} CoalesceCovers(cur: TimeRange, rest: seq<TimeRange>, x: TimeRange)
    requires LexSorted(rest)
    requires rest != [] ==> RangeLe(cur, rest[0])
    requires x in [cur] + rest
    ensures exists o :: o in CoalesceFrom(cur, rest) && Within(x, o)
    decreases |rest|
  {
    var out := CoalesceFrom(cur, rest);
    if rest == [] {
      assert x == cur && out[0] == cur;
    } else {
      var next := rest[0];
      SortedTail(rest);
      assert rest == [next] + rest[1..];
      if next.start <= cur.end {
        var grown := TimeRange(cur.start, if next.end > cur.end then next.end else cur.end);
        assert rest[1..] != [] ==> RangeLe(grown, rest[1]);
        assert out == CoalesceFrom(grown, rest[1..]);
        if x == cur || x == next {
          CoalesceCovers(grown, rest[1..], grown);
          var o :| o in out && Within(grown, o);
          assert Within(x, o);
        } else {
          assert x in [grown] + rest[1..];
          CoalesceCovers(grown, rest[1..], x);
        }
      } else {
        var tail := CoalesceFrom(next, rest[1..]);
        assert out == [cur] + tail;
        if x == cur {
          assert out[0] == cur && Within(x, cur);
        } else {
          assert x in [next] + rest[1..];
          CoalesceCovers(next, rest[1..], x);
          var o :| o in tail && Within(x, o);
          assert o in out;
        }
      }
    }
  }

  /** The loop emits no start and no end that was not already in its input. */
  lemma {:induction false} CoalesceEndpoints(cur: TimeRange, rest: seq<TimeRange>, o: TimeRange)
    requires LexSorted(rest)
    requires rest != [] ==> RangeLe(cur, rest[0])
    requires o in CoalesceFrom(cur, rest)
    ensures exists x :: x in [cur] + rest && x.start == o.start
    ensures exists y :: y in [cur] + rest && y.end == o.end
    decreases |rest|
  {
    var all := [cur] + rest;
    if rest == [] {
      assert o == cur && cur in all;
    } else {
      var next := rest[0];
      SortedTail(rest);
      assert all == [cur] + ([next] + rest[1..]);
      assert cur in all && next in all;
      if next.start <= cur.end {
        var grown := TimeRange(cur.start, if next.end > cur.end then next.end else cur.end);
        assert rest[1..] != [] ==> RangeLe(grown, rest[1]);
        CoalesceEndpoints(grown, rest[1..], o);
        var x :| x in [grown] + rest[1..] && x.start == o.start;
        var y :| y in [grown] + rest[1..] && y.end == o.end;
        if x != grown {
          assert x in all;
        }
        if y != grown {
          assert y in all;
        }
      } else {
        var tail := CoalesceFrom(next, rest[1..]);
        if o != cur {
          assert o in tail;
          CoalesceEndpoints(next, rest[1..], o);
          var x :| x in [next] + rest[1..] && x.start == o.start;
          var y :| y in [next] + rest[1..] && y.end == o.end;
          assert x in all && y in all;
        }
      }
    }
  }

  /** Every input range lies inside one merged range. */
  lemma MergeCovers(rs: seq<TimeRange>, x: TimeRange)
    requires x in rs
    ensures exists o :: o in MergeAdjacent(rs) && Within(x, o)
  {
    var sorted := SortRanges(rs);
    assert x in multiset(rs);
    assert x in sorted;
    assert sorted == [sorted[0]] + sorted[1..];
    SortedTail(sorted);
    CoalesceCovers(sorted[0], sorted[1..], x);
  }

  /** Merging invents no clock time: each merged range starts at some input
      range's start and ends at some input range's end. */
  lemma MergeEndpoints(rs: seq<TimeRange>, o: TimeRange)
    requires o in MergeAdjacent(rs)
    ensures exists x :: x in rs && x.start == o.start
    ensures exists y :: y in rs && y.end == o.end
  {
    var sorted := SortRanges(rs);
    assert sorted == [sorted[0]] + sorted[1..];
    SortedTail(sorted);
    CoalesceEndpoints(sorted[0], sorted[1..], o);
    var x :| x in sorted && x.start == o.start;
    var y :| y in sorted && y.end == o.end;
    assert x in multiset(sorted) && y in multiset(sorted);
  }

  /** The half-minute point `q` (the time `q / 2` minutes) lies inside `x`.
      Counting in half minutes sees the gap between two ranges a whole
      minute apart, such as 10:10 and 10:11, which whole minutes cannot. */
  predicate HalfIn(q: int, x: TimeRange) {
    2 * x.start <= q <= 2 * x.end
  }

  /** The half-minute point `q` lies inside some range of `xs`. */
  predicate Spanned(q: int, xs: seq<TimeRange>) {
    exists x :: x in xs && HalfIn(q, x)
  }

  /** The loop bridges no gap: every half-minute point inside an emitted
      range is inside the running range it started from or inside some
      later input range. */
  lemma {:induction false} CoalesceNoGap(cur: TimeRange, rest: seq<TimeRange>, src: seq<TimeRange>, o: TimeRange, q: int)
    requires LexSorted(rest)
    requires rest != [] ==> RangeLe(cur, rest[0])
    requires forall p :: HalfIn(p, cur) ==> Spanned(p, src)
    requires forall x :: x in rest ==> x in src
    requires o in CoalesceFrom(cur, rest) && HalfIn(q, o)
    ensures Spanned(q, src)
    decreases |rest|
  {
    if rest == [] {
      assert o == cur;
    } else {
      var next := rest[0];
      SortedTail(rest);
      assert next in rest;
      forall x | x in rest[1..] ensures x in src {
        assert x in rest;
      }
      if next.start <= cur.end {
        var grown := TimeRange(cur.start, if next.end > cur.end then next.end else cur.end);
        assert rest[1..] != [] ==> RangeLe(grown, rest[1]);
        forall p | HalfIn(p, grown) ensures Spanned(p, src) {
          if p > 2 * cur.end {
            assert HalfIn(p, next);
          }
        }
        CoalesceNoGap(grown, rest[1..], src, o, q);
      } else if o == cur {
      } else {
        var tail := CoalesceFrom(next, rest[1..]);
        assert o in tail;
        forall p | HalfIn(p, next) ensures Spanned(p, src) {
        }
        CoalesceNoGap(next, rest[1..], src, o, q);
      }
    }
  }

  /** Merging fills no gap: a half-minute point inside a merged range is
      inside some input range. */
  lemma MergeNoGap(rs: seq<TimeRange>, o: TimeRange, q: int)
    requires o in MergeAdjacent(rs) && HalfIn(q, o)
    ensures Spanned(q, rs)
  {
    var sorted := SortRanges(rs);
    assert sorted == [sorted[0]] + sorted[1..];
    SortedTail(sorted);
    forall x | x in sorted ensures x in rs {
      assert x in multiset(sorted);
    }
    assert sorted[0] in sorted;
    CoalesceNoGap(sorted[0], sorted[1..], rs, o, q);
  }

  /** Merging keeps exactly the covered times: a half-minute point lies in
      a merged range if and only if it lies in an input range. */
  lemma MergeSpans(rs: seq<TimeRange>, q: int)
    ensures Spanned(q, MergeAdjacent(rs)) <==> Spanned(q, rs)
  {
    if Spanned(q, MergeAdjacent(rs)) {
      var o :| o in MergeAdjacent(rs) && HalfIn(q, o);
      MergeNoGap(rs, o, q);
    }
    if Spanned(q, rs) {
      var x :| x in rs && HalfIn(q, x);
      MergeCovers(rs, x);
    }
  }

  /** Ranges already strictly apart pass through the loop unchanged. */
  lemma {:induction false} CoalesceSeparated(m: seq<TimeRange>)
    requires m != [] && LexSorted(m) && Separated(m)
    ensures CoalesceFrom(m[0], m[1..]) == m
    decreases |m|
  {
    SortedTail(m);
    SeparatedTail(m);
    if |m| == 1 {
      assert m == [m[0]] && m[1..] == [];
    } else {
      CoalesceSeparated(m[1..]);
      CoalesceApart(m[0], m[1..]);
    }
  }

  lemma SeparatedTail(m: seq<TimeRange>)
    requires m != [] && Separated(m)
    ensures Separated(m[1..])
    ensures |m| > 1 ==> m[0].end < m[1..][0].start
    ensures m == [m[0]] + m[1..]
  {
    var rest := m[1..];
    forall i | 0 < i < |rest| ensures rest[i - 1].end < rest[i].start {
      assert rest[i - 1] == m[i] && rest[i] == m[i + 1];
    }
  }

  /** A range ending before the next one starts is emitted on its own. */
  lemma CoalesceApart(cur: TimeRange, rest: seq<TimeRange>)
    requires LexSorted(rest) && rest != [] && RangeLe(cur, rest[0])
    requires cur.end < rest[0].start
    ensures LexSorted(rest[1..]) && (rest[1..] != [] ==> RangeLe(rest[0], rest[1..][0]))
    ensures CoalesceFrom(cur, rest) == [cur] + CoalesceFrom(rest[0], rest[1..])
  {
    SortedTail(rest);
  }

  /** Ranges already sorted and strictly apart are their own merge. */
  lemma MergeSeparated(m: seq<TimeRange>)
    requires LexSorted(m) && Separated(m)
    ensures MergeAdjacent(m) == m
  {
    if m != [] {
      SortSorted(m);
      MergeUnfold(m);
      CoalesceSeparated(m);
    }
  }

  /** Merging is idempotent: the merged ranges merge to themselves. */
  lemma MergeIdempotent(rs: seq<TimeRange>)
    ensures MergeAdjacent(MergeAdjacent(rs)) == MergeAdjacent(rs)
  {
    MergeSeparated(MergeAdjacent(rs));
  }

  /** Ranges that touch at a minute merge, whatever order they come in. */
  lemma TouchingMerge()
    ensures MergeAdjacent([TimeRange(720, 900), TimeRange(540, 720)]) == [TimeRange(540, 900)]
  {
    var x, y := TimeRange(720, 900), TimeRange(540, 720);
    SortTwoSwapped(x, y);
    MergeUnfold([x, y]);
    assert [y, x][1..] == [x];
    assert CoalesceFrom(y, [x]) == [TimeRange(540, 900)] by {
      assert [x][1..] == [];
    }
  }

  lemma SortTwoSwapped(x: TimeRange, y: TimeRange)
    requires !RangeLe(x, y)
    ensures SortRanges([x, y]) == [y, x]
  {
    assert [x, y][..1] == [x] && [x, y][1] == y;
    SortOne(x);
    InsertBefore(x, y);
  }

  lemma SortOne(x: TimeRange)
    ensures SortRanges([x]) == [x]
  {
    assert [x][..0] == [];
    assert InsertRange([], x) == [x];
  }

  lemma InsertBefore(x: TimeRange, y: TimeRange)
    requires !RangeLe(x, y)
    ensures InsertRange([x], y) == [y, x]
  {
    assert [x][..0] == [];
    assert InsertRange([], y) == [y];
  }

  lemma MergeUnfold(rs: seq<TimeRange>)
    requires rs != []
    ensures SortRanges(rs) != []
    ensures MergeAdjacent(rs) == CoalesceFrom(SortRanges(rs)[0], SortRanges(rs)[1..])
  {
    var sorted := SortRanges(rs);
    assert |sorted| == |multiset(sorted)| == |rs|;
  }

  /** A one-minute gap keeps two ranges apart. */
  lemma GapKeepsApart()
    ensures MergeAdjacent([TimeRange(540, 600), TimeRange(601, 700)])
         == [TimeRange(540, 600), TimeRange(601, 700)]
  {
    MergeSeparated([TimeRange(540, 600), TimeRange(601, 700)]);
  }
}
