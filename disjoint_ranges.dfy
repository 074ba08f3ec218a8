/**
 * `examples/file_system/lineage.py`: closed integer ranges of file offsets
 * and `DisjointRanges`, a list of such ranges kept sorted by start, apart
 * from one another and with neighbours that touch merged.
 */
module DisjointRangesModel {

  /** A closed range `(start, stop)` of file offsets. */
  datatype Range = Range(start: int, stop: int)

  /** The range holds at least one point. */
  predicate WellFormed(r: Range)
  {
    r.start <= r.stop
  }

  /** Point z lies inside the closed range r. */
  predicate In(r: Range, z: int)
  {
    r.start <= z <= r.stop
  }

  /** `overlap`: neither range lies wholly before the other. */
  predicate Overlap(p: Range, q: Range)
  {
    !(q.stop < p.start || q.start > p.stop)
  }

  /** `union`'s assertion: the ranges overlap or one ends right before the other starts. */
  predicate Joinable(p: Range, q: Range)
  {
    Overlap(p, q) || p.stop + 1 == q.start || q.stop + 1 == p.start
  }

  /** `union`: the smallest range enclosing both; the caller must pass joinable ranges. */
  function RangeUnion(p: Range, q: Range): (r: Range)
    requires Joinable(p, q)
    ensures r.start <= p.start && r.start <= q.start && p.stop <= r.stop && q.stop <= r.stop
    ensures (r.start == p.start || r.start == q.start) && (r.stop == p.stop || r.stop == q.stop)
  {
    Range(if p.start <= q.start then p.start else q.start, if p.stop >= q.stop then p.stop else q.stop)
  }

  /** `intersect`: the common part; the caller must pass overlapping ranges. */
  function Intersect(p: Range, q: Range): (r: Range)
    requires Overlap(p, q)
    ensures forall z :: In(r, z) <==> In(p, z) && In(q, z)
  {
    Range(if p.start >= q.start then p.start else q.start, if p.stop <= q.stop then p.stop else q.stop)
  }

  /** `subsumes`: q lies inside p. */
  predicate Subsumes(p: Range, q: Range)
  {
    p.start <= q.start && p.stop >= q.stop
  }

  /** For ranges that hold points, overlapping means sharing a point. */
  lemma OverlapSpec(p: Range, q: Range)
    requires WellFormed(p) && WellFormed(q)
    ensures Overlap(p, q) <==> exists z :: In(p, z) && In(q, z)
  {
    if Overlap(p, q) {
      var z := if p.start >= q.start then p.start else q.start;
      assert In(p, z) && In(q, z);
    }
  }

  /** The result of `intersect` overlaps both arguments it came from and lies inside them. */
  lemma IntersectInside(p: Range, q: Range)
    requires WellFormed(p) && WellFormed(q) && Overlap(p, q)
    ensures WellFormed(Intersect(p, q))
    ensures Subsumes(p, Intersect(p, q)) && Subsumes(q, Intersect(p, q))
  {
    var r := Intersect(p, q);
    assert In(r, r.start) by {
      OverlapSpec(p, q);
      var z :| In(p, z) && In(q, z);
      assert In(r, z);
    }
  }

  /** Joining two joinable ranges that hold points covers exactly the points of the two. */
  lemma UnionSpec(p: Range, q: Range)
    requires WellFormed(p) && WellFormed(q) && Joinable(p, q)
    ensures forall z :: In(RangeUnion(p, q), z) <==> In(p, z) || In(q, z)
  {
  }

  /** For a range that holds points, `subsumes` is inclusion of point sets. */
  lemma SubsumesSpec(p: Range, q: Range)
    requires WellFormed(q)
    ensures Subsumes(p, q) <==> forall z :: In(q, z) ==> In(p, z)
  {
    if forall z :: In(q, z) ==> In(p, z) {
      assert In(q, q.start) && In(q, q.stop);
    }
  }

  /** Point z is covered by some range of rs. */
  predicate Covered(rs: seq<Range>, z: int)
  {
    exists i :: 0 <= i < |rs| && In(rs[i], z)
  }

  /** Every range holds a point and each lies strictly before the next. */
  predicate Valid(rs: seq<Range>)
  {
    (forall i :: 0 <= i < |rs| ==> WellFormed(rs[i])) &&
    (forall i, j :: 0 <= i < j < |rs| ==> rs[i].stop < rs[j].start)
  }

  /** Valid and, besides, no range ends right before the next starts: the state `condense` leaves. */
  predicate Condensed(rs: seq<Range>)
  {
    (forall i :: 0 <= i < |rs| ==> WellFormed(rs[i])) &&
    (forall i, j :: 0 <= i < j < |rs| ==> rs[i].stop + 1 < rs[j].start)
  }

  /** Coverage of a list with one more range at its end. */
  lemma CoveredSnoc(s: seq<Range>, x: Range, z: int)
    ensures Covered(s + [x], z) <==> Covered(s, z) || In(x, z)
  {
    if Covered(s + [x], z) {
      var i :| 0 <= i < |s| + 1 && In((s + [x])[i], z);
      if i < |s| {
        assert In(s[i], z);
      }
    }
    if Covered(s, z) {
      var i :| 0 <= i < |s| && In(s[i], z);
      assert (s + [x])[i] == s[i];
    }
    if In(x, z) {
      assert (s + [x])[|s|] == x;
    }
  }

  /** Two lists holding the same ranges, in any order, cover the same points. */
  lemma CoveredPermutation(a: seq<Range>, b: seq<Range>, z: int)
    requires multiset(a) == multiset(b)
    ensures Covered(a, z) <==> Covered(b, z)
  {
    if Covered(a, z) {
      var i :| 0 <= i < |a| && In(a[i], z);
      assert a[i] in multiset(b);
      var j :| 0 <= j < |b| && b[j] == a[i];
    }
    if Covered(b, z) {
      var j :| 0 <= j < |b| && In(b[j], z);
      assert b[j] in multiset(a);
      var i :| 0 <= i < |a| && a[i] == b[j];
    }
  }

  // ---------------------------------------------------------------------
  // condense

  /** One iteration of `condense`'s loop: extend the last range when x starts right after it, else append x. */
  function CombineStep(c: seq<Range>, x: Range): seq<Range>
    requires |c| > 0
  {
    var last := c[|c| - 1];
    if last.stop + 1 == x.start then c[..|c| - 1] + [Range(last.start, x.stop)] else c + [x]
  }

  /** The list `condense` builds from s: the first range, then each later one combined in turn. */
  function Combined(s: seq<Range>): (r: seq<Range>)
    ensures |s| > 0 ==> |r| > 0 && r[|r| - 1].stop == s[|s| - 1].stop
    ensures |r| <= |s|
  {
    if |s| <= 1 then s else CombineStep(Combined(s[..|s| - 1]), s[|s| - 1])
  }

  /** Condensing one more range of s is one more step of the loop. */
  lemma CombinedPrefix(s: seq<Range>, i: nat)
    requires 1 <= i < |s|
    ensures Combined(s[..i + 1]) == CombineStep(Combined(s[..i]), s[i])
  {
    var q := s[..i + 1];
    assert |q| == i + 1 > 1;
    assert q[..|q| - 1] == s[..i];
    assert q[|q| - 1] == s[i];
  }

  /** Condensing a list of ranges that hold points keeps exactly the covered points. */
  lemma {:induction false} CombinedCovers(s: seq<Range>, z: int)
    requires forall i :: 0 <= i < |s| ==> WellFormed(s[i])
    ensures forall i :: 0 <= i < |Combined(s)| ==> WellFormed(Combined(s)[i])
    ensures Covered(Combined(s), z) <==> Covered(s, z)
  {
    if |s| > 1 {
      var p := s[..|s| - 1];
      var x := s[|s| - 1];
      assert s == p + [x];
      CombinedCovers(p, z);
      CoveredSnoc(p, x, z);
      CombineStepCovers(Combined(p), x, z);
    }
  }

  /** One step of `condense` keeps ranges well formed and covers the points of the list and of x. */
  lemma CombineStepCovers(c: seq<Range>, x: Range, z: int)
    requires |c| > 0 && WellFormed(x) && forall i :: 0 <= i < |c| ==> WellFormed(c[i])
    ensures var r := CombineStep(c, x);
      (forall i :: 0 <= i < |r| ==> WellFormed(r[i])) && (Covered(r, z) <==> Covered(c, z) || In(x, z))
  {
    var last := c[|c| - 1];
    if last.stop + 1 == x.start {
      var front := c[..|c| - 1];
      assert c == front + [last];
      CoveredSnoc(front, last, z);
      CoveredSnoc(front, Range(last.start, x.stop), z);
    } else {
      CoveredSnoc(c, x, z);
    }
  }

  /** One step of `condense` keeps a condensed list condensed when x starts after its last range. */
  lemma CombineStepCondensed(c: seq<Range>, x: Range)
    requires |c| > 0 && Condensed(c) && WellFormed(x) && c[|c| - 1].stop < x.start
    ensures Condensed(CombineStep(c, x))
  {
    var last := c[|c| - 1];
    if last.stop + 1 == x.start {
      var r := c[..|c| - 1] + [Range(last.start, x.stop)];
      assert forall i :: 0 <= i < |r| - 1 ==> r[i] == c[i];
      assert r[|r| - 1].start == last.start;
    } else {
      var r := c + [x];
      forall i, j | 0 <= i < j < |r|
        ensures r[i].stop + 1 < r[j].start
      {
        if j == |r| - 1 && i < |c| - 1 {
          assert c[i].stop + 1 < last.start <= last.stop;
        }
      }
    }
  }

  /** Condensing a valid list yields a condensed one. */
  lemma {:induction false} CombinedCondensed(s: seq<Range>)
    requires Valid(s)
    ensures Condensed(Combined(s))
  {
    if |s| > 1 {
      var p := s[..|s| - 1];
      assert Valid(p);
      CombinedCondensed(p);
      assert s[|s| - 2].stop < s[|s| - 1].start;
      CombineStepCondensed(Combined(p), s[|s| - 1]);
    }
  }

  /** Condensing an already condensed list changes nothing. */
  lemma {:induction false} CombinedIdempotent(s: seq<Range>)
    requires Condensed(s)
    ensures Combined(s) == s
  {
    if |s| > 1 {
      var p := s[..|s| - 1];
      CombinedIdempotent(p);
      assert s[|s| - 2].stop + 1 < s[|s| - 1].start;
      assert p + [s[|s| - 1]] == s;
    }
  }

  // ---------------------------------------------------------------------
  // list.sort(key=start)

  predicate SortedByStart(s: seq<Range>)
  {
    forall i, j :: 0 <= i < j < |s| ==> s[i].start <= s[j].start
  }

  /** x placed after every range of the sorted list s whose start is not greater than its own. */
  function InsertByStart(s: seq<Range>, x: Range): (r: seq<Range>)
    ensures multiset(r) == multiset(s) + multiset{x}
    ensures |r| == |s| + 1
  {
    if |s| == 0 || s[|s| - 1].start <= x.start then s + [x]
    else
      assert s == s[..|s| - 1] + [s[|s| - 1]];
      InsertByStart(s[..|s| - 1], x) + [s[|s| - 1]]
  }

  /** Python's stable sort by start, as an insertion sort. */
  function SortByStart(s: seq<Range>): (r: seq<Range>)
    ensures multiset(r) == multiset(s)
    ensures |r| == |s|
  {
    if |s| == 0 then []
    else
      assert s == s[..|s| - 1] + [s[|s| - 1]];
      InsertByStart(SortByStart(s[..|s| - 1]), s[|s| - 1])
  }

  lemma {:induction false} InsertByStartSorted(s: seq<Range>, x: Range)
    requires SortedByStart(s)
    ensures SortedByStart(InsertByStart(s, x))
  {
    if |s| > 0 && s[|s| - 1].start > x.start {
      var p := s[..|s| - 1];
      InsertByStartSorted(p, x);
      var q := InsertByStart(p, x);
      var last := s[|s| - 1];
      forall i | 0 <= i < |q|
        ensures q[i].start <= last.start
      {
        InsertByStartMember(p, x, i);
        if q[i] != x {
          var k :| 0 <= k < |p| && p[k] == q[i];
          assert s[k] == p[k];
        }
      }
      SortedSnoc(q, last);
    }
  }

  /** A sorted list stays sorted when a range starting no earlier than all of them is appended. */
  lemma SortedSnoc(q: seq<Range>, y: Range)
    requires SortedByStart(q) && forall i :: 0 <= i < |q| ==> q[i].start <= y.start
    ensures SortedByStart(q + [y])
  {
    var t := q + [y];
    forall i, j | 0 <= i < j < |t|
      ensures t[i].start <= t[j].start
    {
      if j < |q| {
        assert t[i] == q[i] && t[j] == q[j];
      } else {
        assert t[i] == q[i];
      }
    }
  }

  /** The sort yields a list sorted by start holding the same ranges. */
  lemma {:induction false} SortByStartSorted(s: seq<Range>)
    ensures SortedByStart(SortByStart(s))
  {
    if |s| > 0 {
      SortByStartSorted(s[..|s| - 1]);
      InsertByStartSorted(SortByStart(s[..|s| - 1]), s[|s| - 1]);
    }
  }

  /** Sorting a list already sorted by start leaves it as it is. */
  lemma {:induction false} SortByStartOfSorted(s: seq<Range>)
    requires SortedByStart(s)
    ensures SortByStart(s) == s
  {
    if |s| > 0 {
      var p := s[..|s| - 1];
      SortByStartOfSorted(p);
      assert p + [s[|s| - 1]] == s;
    }
  }

  /** Every range of the insertion result is x or a range of s. */
  lemma InsertByStartMember(s: seq<Range>, x: Range, i: int)
    requires 0 <= i < |s| + 1
    ensures InsertByStart(s, x)[i] == x || exists k :: 0 <= k < |s| && s[k] == InsertByStart(s, x)[i]
  {
    var q := InsertByStart(s, x);
    assert q[i] in multiset(q);
    if q[i] != x {
      assert q[i] in multiset(s);
    }
  }

  /** A valid list stays valid when a range starting after all of them is appended. */
  lemma ValidSnoc(q: seq<Range>, y: Range)
    requires Valid(q) && WellFormed(y)
    requires forall i :: 0 <= i < |q| ==> q[i].stop < y.start
    ensures Valid(q + [y])
  {
    var r := q + [y];
    assert forall i :: 0 <= i < |q| ==> r[i] == q[i];
  }

  /** Inserting a range that overlaps none of a valid list keeps the list valid. */
  lemma {:induction false} InsertByStartValid(s: seq<Range>, x: Range)
    requires Valid(s) && WellFormed(x)
    requires forall i :: 0 <= i < |s| ==> !Overlap(s[i], x)
    ensures Valid(InsertByStart(s, x))
  {
    if |s| > 0 && s[|s| - 1].start > x.start {
      var p := s[..|s| - 1];
      var last := s[|s| - 1];
      assert Valid(p);
      InsertByStartValid(p, x);
      var q := InsertByStart(p, x);
      assert x.stop < last.start by {
        assert !Overlap(last, x);
      }
      forall i | 0 <= i < |q|
        ensures q[i].stop < last.start
      {
        InsertByStartMember(p, x, i);
      }
      ValidSnoc(q, last);
    } else if |s| > 0 {
      forall i | 0 <= i < |s|
        ensures s[i].stop < x.start
      {
        assert !Overlap(s[i], x);
        assert s[i].start <= s[|s| - 1].start;
      }
      ValidSnoc(s, x);
    }
  }

  // ---------------------------------------------------------------------
  // DisjointRanges.union

  /** The indices, in increasing order, of the ranges of rs that overlap r (`overlaps`). */
  function OverlapIndices(rs: seq<Range>, r: Range): (idx: seq<nat>)
    ensures forall k :: 0 <= k < |idx| ==> idx[k] < |rs| && Overlap(rs[idx[k]], r)
    ensures forall i :: 0 <= i < |rs| && Overlap(rs[i], r) ==> i in idx
    ensures forall a, b :: 0 <= a < b < |idx| ==> idx[a] < idx[b]
  {
    if |rs| == 0 then []
    else
      var p := OverlapIndices(rs[..|rs| - 1], r);
      assert forall k :: 0 <= k < |p| ==> rs[..|rs| - 1][p[k]] == rs[p[k]];
      p + if Overlap(rs[|rs| - 1], r) then [|rs| - 1] else []
  }

  lemma {:induction false} OverlapIndicesNone(rs: seq<Range>, r: Range)
    requires forall j :: 0 <= j < |rs| ==> !Overlap(rs[j], r)
    ensures OverlapIndices(rs, r) == []
  {
    if |rs| > 0 {
      OverlapIndicesNone(rs[..|rs| - 1], r);
    }
  }

  /** When the range at i is the only one overlapping r, `overlaps` is exactly [i]. */
  lemma {:induction false} OverlapIndicesOnly(rs: seq<Range>, r: Range, i: nat)
    requires i < |rs|
    requires forall j :: 0 <= j < |rs| ==> (Overlap(rs[j], r) <==> j == i)
    ensures OverlapIndices(rs, r) == [i]
  {
    var p := rs[..|rs| - 1];
    if i == |rs| - 1 {
      OverlapIndicesNone(p, r);
    } else {
      OverlapIndicesOnly(p, r, i);
    }
  }

  /** The indices idx all point at ranges of rs that overlap r. */
  predicate OverlapsAt(rs: seq<Range>, idx: seq<nat>, r: Range)
  {
    forall k :: 0 <= k < |idx| ==> idx[k] < |rs| && Overlap(rs[idx[k]], r)
  }

  /**
   * r after `for (i, rng) in overlaps: r = union(rng, r)` over the ranges at
   * idx. Every range joined overlaps the original r, so `union`'s assertion
   * always holds. The result encloses r and every joined range, and its ends
   * are ends of r or of joined ranges.
   */
  function UnionAll(rs: seq<Range>, idx: seq<nat>, r: Range): (h: Range)
    requires OverlapsAt(rs, idx, r)
    ensures h.start <= r.start && r.stop <= h.stop
    ensures forall k :: 0 <= k < |idx| ==> h.start <= rs[idx[k]].start && rs[idx[k]].stop <= h.stop
    ensures h.start == r.start || exists k :: 0 <= k < |idx| && h.start == rs[idx[k]].start
    ensures h.stop == r.stop || exists k :: 0 <= k < |idx| && h.stop == rs[idx[k]].stop
  {
    if |idx| == 0 then r
    else
      var acc := UnionAll(rs, idx[..|idx| - 1], r);
      var h := RangeUnion(rs[idx[|idx| - 1]], acc);
      assert forall k :: 0 <= k < |idx| - 1 ==> idx[..|idx| - 1][k] == idx[k];
      h
  }

  /** `self.ranges[low:high + 1] = [h]`. */
  function Spliced(rs: seq<Range>, low: nat, high: nat, h: Range): (m: seq<Range>)
    requires low <= high < |rs|
    ensures |m| == |rs| - (high - low)
  {
    rs[..low] + [h] + rs[high + 1..]
  }

  /**
   * The list and the answer `DisjointRanges.union(r)` leaves: with no
   * overlapping range, r joins the list, which is re-sorted by start; with a
   * single overlapping range that already holds r, nothing changes and the
   * answer is true; otherwise the slice from the first to the last
   * overlapping range is replaced by their union with r. The list is
   * condensed in every case.
   */
  function UnionResult(rs: seq<Range>, r: Range): (seq<Range>, bool)
  {
    var idx := OverlapIndices(rs, r);
    if |idx| == 0 then (Combined(SortByStart(rs + [r])), false)
    else if |idx| == 1 && Subsumes(rs[idx[0]], r) then (Combined(rs), true)
    else
      (Combined(Spliced(rs, idx[0], idx[|idx| - 1], UnionAll(rs, idx, r))), false)
  }

  /** With a valid list, the answer is true exactly when some range of the list already holds r. */
  lemma UnionSubsumed(rs: seq<Range>, r: Range)
    requires Valid(rs) && WellFormed(r)
    ensures UnionResult(rs, r).1 <==> exists i :: 0 <= i < |rs| && Subsumes(rs[i], r)
  {
    var idx := OverlapIndices(rs, r);
    if i :| 0 <= i < |rs| && Subsumes(rs[i], r) {
      assert i in idx;
      forall j | 0 <= j < |rs| && j != i
        ensures !Overlap(rs[j], r)
      {
        if j < i {
          assert rs[j].stop < rs[i].start;
        } else {
          assert rs[i].stop < rs[j].start;
        }
      }
      OverlapIndicesOnly(rs, r, i);
    }
  }

  /**
   * The facts about the merging case that the lemmas below rely on: low and
   * high are the first and last ranges overlapping r, and h encloses r and
   * both of them, each end of h coming from r or from an overlapping range
   * between low and high.
   */
  predicate MergeCase(rs: seq<Range>, r: Range, low: nat, high: nat, h: Range)
  {
    low <= high < |rs| && Overlap(rs[low], r) && Overlap(rs[high], r) &&
    (forall i :: 0 <= i < |rs| && Overlap(rs[i], r) ==> low <= i <= high) &&
    h.start <= r.start && r.stop <= h.stop &&
    h.start <= rs[low].start && rs[high].stop <= h.stop &&
    (h.start == r.start || exists i :: low <= i <= high && Overlap(rs[i], r) && h.start == rs[i].start) &&
    (h.stop == r.stop || exists i :: low <= i <= high && Overlap(rs[i], r) && h.stop == rs[i].stop)
  }

  /** Every index of `overlaps` lies between its first and its last. */
  lemma OverlapIndicesBetween(rs: seq<Range>, r: Range)
    requires |OverlapIndices(rs, r)| > 0
    ensures var idx := OverlapIndices(rs, r);
      forall i :: 0 <= i < |rs| && Overlap(rs[i], r) ==> idx[0] <= i <= idx[|idx| - 1]
  {
    var idx := OverlapIndices(rs, r);
    forall k | 0 <= k < |idx|
      ensures idx[0] <= idx[k] <= idx[|idx| - 1]
    {
      if 0 < k {
        assert idx[0] < idx[k];
      }
      if k < |idx| - 1 {
        assert idx[k] < idx[|idx| - 1];
      }
    }
    forall i | 0 <= i < |rs| && Overlap(rs[i], r)
      ensures idx[0] <= i <= idx[|idx| - 1]
    {
      assert i in idx;
    }
  }

  /** `union`'s merging branch is a merge case. */
  lemma MergeCaseHolds(rs: seq<Range>, r: Range)
    requires |OverlapIndices(rs, r)| > 0
    ensures var idx := OverlapIndices(rs, r);
      MergeCase(rs, r, idx[0], idx[|idx| - 1], UnionAll(rs, idx, r))
  {
    OverlapIndicesBetween(rs, r);
    MergedStartFrom(rs, r);
    MergedStopFrom(rs, r);
  }

  /** The merged range starts where r or one of the overlapping ranges starts. */
  lemma MergedStartFrom(rs: seq<Range>, r: Range)
    requires |OverlapIndices(rs, r)| > 0
    ensures var idx := OverlapIndices(rs, r);
      var h := UnionAll(rs, idx, r);
      h.start == r.start || exists i :: idx[0] <= i <= idx[|idx| - 1] && Overlap(rs[i], r) && h.start == rs[i].start
  {
    var idx := OverlapIndices(rs, r);
    var h := UnionAll(rs, idx, r);
    OverlapIndicesBetween(rs, r);
    if h.start != r.start {
      var k :| 0 <= k < |idx| && h.start == rs[idx[k]].start;
      assert idx[0] <= idx[k] <= idx[|idx| - 1] && Overlap(rs[idx[k]], r);
    }
  }

  /** The merged range stops where r or one of the overlapping ranges stops. */
  lemma MergedStopFrom(rs: seq<Range>, r: Range)
    requires |OverlapIndices(rs, r)| > 0
    ensures var idx := OverlapIndices(rs, r);
      var h := UnionAll(rs, idx, r);
      h.stop == r.stop || exists i :: idx[0] <= i <= idx[|idx| - 1] && Overlap(rs[i], r) && h.stop == rs[i].stop
  {
    var idx := OverlapIndices(rs, r);
    var h := UnionAll(rs, idx, r);
    OverlapIndicesBetween(rs, r);
    if h.stop != r.stop {
      var k :| 0 <= k < |idx| && h.stop == rs[idx[k]].stop;
      assert idx[0] <= idx[k] <= idx[|idx| - 1] && Overlap(rs[idx[k]], r);
    }
  }

  /** In a merge case every range before low ends before h starts, and every range after high starts after h ends. */
  lemma MergeBounds(rs: seq<Range>, r: Range, low: nat, high: nat, h: Range)
    requires Valid(rs) && WellFormed(r) && MergeCase(rs, r, low, high, h)
    ensures WellFormed(h)
    ensures forall a :: 0 <= a < low ==> rs[a].stop < h.start
    ensures forall b :: high < b < |rs| ==> h.stop < rs[b].start
  {
    forall a | 0 <= a < low
      ensures rs[a].stop < h.start
    {
      assert rs[a].stop < rs[low].start;
      assert !Overlap(rs[a], r);
      if h.start != r.start {
        var i :| low <= i <= high && Overlap(rs[i], r) && h.start == rs[i].start;
        assert rs[a].stop < rs[i].start;
      }
    }
    forall b | high < b < |rs|
      ensures h.stop < rs[b].start
    {
      assert rs[high].stop < rs[b].start;
      assert !Overlap(rs[b], r);
      if h.stop != r.stop {
        var i :| low <= i <= high && Overlap(rs[i], r) && h.stop == rs[i].stop;
        assert rs[i].stop < rs[b].start;
      }
    }
  }

  /** In a merge case the spliced list is valid. */
  lemma MergeValid(rs: seq<Range>, r: Range, low: nat, high: nat, h: Range)
    requires Valid(rs) && WellFormed(r) && MergeCase(rs, r, low, high, h)
    ensures Valid(Spliced(rs, low, high, h))
  {
    MergeBounds(rs, r, low, high, h);
    var m := Spliced(rs, low, high, h);
    forall i | 0 <= i < |m|
      ensures WellFormed(m[i])
    {
      SplicedAt(rs, low, high, h, i);
    }
    forall i, j | 0 <= i < j < |m|
      ensures m[i].stop < m[j].start
    {
      SplicedOrdered(rs, low, high, h, i, j);
    }
  }

  /** Position i of the spliced list: a range before the slice, the merged range, or a range after it. */
  lemma SplicedAt(rs: seq<Range>, low: nat, high: nat, h: Range, i: nat)
    requires low <= high < |rs| && i < |rs| - (high - low)
    ensures var m := Spliced(rs, low, high, h);
      (i < low ==> m[i] == rs[i]) && (i == low ==> m[i] == h) && (i > low ==> m[i] == rs[i - low + high])
  {
  }

  /** With the merged range strictly between its neighbours, the spliced list stays ordered. */
  lemma SplicedOrdered(rs: seq<Range>, low: nat, high: nat, h: Range, i: nat, j: nat)
    requires Valid(rs) && low <= high < |rs| && WellFormed(h)
    requires forall a :: 0 <= a < low ==> rs[a].stop < h.start
    requires forall b :: high < b < |rs| ==> h.stop < rs[b].start
    requires i < j < |rs| - (high - low)
    ensures Spliced(rs, low, high, h)[i].stop < Spliced(rs, low, high, h)[j].start
  {
    SplicedAt(rs, low, high, h, i);
    SplicedAt(rs, low, high, h, j);
    if i < low && j > low {
      assert rs[i].stop < h.start <= h.stop < rs[j - low + high].start;
    }
  }

  /** In a merge case the spliced list still covers every old point and every point of r. */
  lemma MergeCoversOld(rs: seq<Range>, r: Range, low: nat, high: nat, h: Range, z: int)
    requires Valid(rs) && low <= high < |rs|
    requires h.start <= r.start && r.stop <= h.stop && h.start <= rs[low].start && rs[high].stop <= h.stop
    requires Covered(rs, z) || In(r, z)
    ensures Covered(Spliced(rs, low, high, h), z)
  {
    var m := Spliced(rs, low, high, h);
    if In(r, z) {
      SplicedAt(rs, low, high, h, low);
      assert In(m[low], z);
    } else {
      var k :| 0 <= k < |rs| && In(rs[k], z);
      if k < low {
        SplicedAt(rs, low, high, h, k);
        assert In(m[k], z);
      } else if k > high {
        SplicedAt(rs, low, high, h, k - high + low);
        assert In(m[k - high + low], z);
      } else {
        BetweenEnds(rs, low, high, k, z);
        SplicedAt(rs, low, high, h, low);
        assert In(m[low], z);
      }
    }
  }

  /** A point of a range between positions low and high of a valid list lies between their ends. */
  lemma BetweenEnds(rs: seq<Range>, low: nat, high: nat, k: nat, z: int)
    requires Valid(rs) && low <= k <= high < |rs| && In(rs[k], z)
    ensures rs[low].start <= z <= rs[high].stop
  {
    assert rs[low].start <= rs[k].start by {
      if low < k {
        assert rs[low].stop < rs[k].start;
      }
    }
    assert rs[k].stop <= rs[high].stop by {
      if k < high {
        assert rs[k].stop < rs[high].start;
      }
    }
  }

  /** In a merge case every point the spliced list covers is an old point or a point of r. */
  lemma MergeCoversNew(rs: seq<Range>, r: Range, low: nat, high: nat, h: Range, z: int)
    requires MergeCase(rs, r, low, high, h)
    requires Covered(Spliced(rs, low, high, h), z)
    ensures Covered(rs, z) || In(r, z)
  {
    var m := Spliced(rs, low, high, h);
    var j :| 0 <= j < |m| && In(m[j], z);
    if j < low {
      assert m[j] == rs[j];
    } else if j > low {
      assert m[j] == rs[j - low + high];
    } else if z < r.start {
      assert m[j] == h;
      var i :| low <= i <= high && Overlap(rs[i], r) && h.start == rs[i].start;
      assert In(rs[i], z);
    } else if z > r.stop {
      assert m[j] == h;
      var i :| low <= i <= high && Overlap(rs[i], r) && h.stop == rs[i].stop;
      assert In(rs[i], z);
    }
  }

  /** With no range overlapping r, the re-sorted list is the valid list with r inserted by start. */
  lemma AppendSorted(rs: seq<Range>, r: Range)
    requires Valid(rs) && WellFormed(r) && |OverlapIndices(rs, r)| == 0
    ensures SortByStart(rs + [r]) == InsertByStart(rs, r)
    ensures Valid(SortByStart(rs + [r]))
  {
    assert forall i :: 0 <= i < |rs| ==> !Overlap(rs[i], r);
    assert (rs + [r])[..|rs|] == rs;
    SortByStartOfSorted(rs);
    InsertByStartValid(rs, r);
  }

  /** `DisjointRanges.union` keeps a valid list valid, and leaves it condensed. */
  lemma UnionCondensed(rs: seq<Range>, r: Range)
    requires Valid(rs) && WellFormed(r)
    ensures Condensed(UnionResult(rs, r).0)
  {
    var idx := OverlapIndices(rs, r);
    if |idx| == 0 {
      UnionCondensedAppended(rs, r);
    } else if |idx| == 1 && Subsumes(rs[idx[0]], r) {
      CombinedCondensed(rs);
    } else {
      UnionCondensedMerged(rs, r);
    }
  }

  lemma UnionCondensedAppended(rs: seq<Range>, r: Range)
    requires Valid(rs) && WellFormed(r) && |OverlapIndices(rs, r)| == 0
    ensures Condensed(UnionResult(rs, r).0)
  {
    AppendSorted(rs, r);
    CombinedCondensed(SortByStart(rs + [r]));
  }

  lemma UnionCondensedMerged(rs: seq<Range>, r: Range)
    requires Valid(rs) && WellFormed(r) && |OverlapIndices(rs, r)| > 0
    requires !(|OverlapIndices(rs, r)| == 1 && Subsumes(rs[OverlapIndices(rs, r)[0]], r))
    ensures Condensed(UnionResult(rs, r).0)
  {
    var idx := OverlapIndices(rs, r);
    var h := UnionAll(rs, idx, r);
    MergeCaseHolds(rs, r);
    MergeValid(rs, r, idx[0], idx[|idx| - 1], h);
    CombinedCondensed(Spliced(rs, idx[0], idx[|idx| - 1], h));
  }

  /** After `DisjointRanges.union` on a valid list, the points covered are the old ones and those of r. */
  lemma UnionCovers(rs: seq<Range>, r: Range, z: int)
    requires Valid(rs) && WellFormed(r)
    ensures Covered(UnionResult(rs, r).0, z) <==> Covered(rs, z) || In(r, z)
  {
    var idx := OverlapIndices(rs, r);
    if |idx| == 0 {
      UnionCoversAppended(rs, r, z);
    } else if |idx| == 1 && Subsumes(rs[idx[0]], r) {
      UnionCoversSubsumed(rs, r, z);
    } else {
      UnionCoversMerged(rs, r, z);
    }
  }

  lemma UnionCoversAppended(rs: seq<Range>, r: Range, z: int)
    requires Valid(rs) && WellFormed(r) && |OverlapIndices(rs, r)| == 0
    ensures Covered(UnionResult(rs, r).0, z) <==> Covered(rs, z) || In(r, z)
  {
    AppendSorted(rs, r);
    var t := SortByStart(rs + [r]);
    CombinedCovers(t, z);
    CoveredPermutation(t, rs + [r], z);
    CoveredSnoc(rs, r, z);
  }

  lemma UnionCoversSubsumed(rs: seq<Range>, r: Range, z: int)
    requires Valid(rs) && WellFormed(r)
    requires |OverlapIndices(rs, r)| == 1 && Subsumes(rs[OverlapIndices(rs, r)[0]], r)
    ensures Covered(UnionResult(rs, r).0, z) <==> Covered(rs, z) || In(r, z)
  {
    var i := OverlapIndices(rs, r)[0];
    CombinedCovers(rs, z);
    if In(r, z) {
      assert In(rs[i], z);
    }
  }

  lemma UnionCoversMerged(rs: seq<Range>, r: Range, z: int)
    requires Valid(rs) && WellFormed(r) && |OverlapIndices(rs, r)| > 0
    requires !(|OverlapIndices(rs, r)| == 1 && Subsumes(rs[OverlapIndices(rs, r)[0]], r))
    ensures Covered(UnionResult(rs, r).0, z) <==> Covered(rs, z) || In(r, z)
  {
    var idx := OverlapIndices(rs, r);
    var low, high := idx[0], idx[|idx| - 1];
    var h := UnionAll(rs, idx, r);
    MergeCaseHolds(rs, r);
    MergeValid(rs, r, low, high, h);
    var m := Spliced(rs, low, high, h);
    CombinedCovers(m, z);
    if Covered(rs, z) || In(r, z) {
      MergeCoversOld(rs, r, low, high, h, z);
    }
    if Covered(m, z) {
      MergeCoversNew(rs, r, low, high, h, z);
    }
  }

  // ---------------------------------------------------------------------
  // the class

  /** `DisjointRanges`: the list of ranges a lineage query accumulates. */
  class DisjointRanges {
    var ranges: seq<Range>

    constructor ()
      ensures ranges == []
    {
      ranges := [];
    }

    /** `condense`: combine consecutive ranges. */
    method Condense()
      modifies this
      ensures ranges == Combined(old(ranges))
    {
      var rs := ranges;
      var acc := if |rs| == 0 then [] else [rs[0]];
      var i := |acc|;
      assert acc == Combined(rs[..i]);
      while i < |rs|
        invariant 1 <= i <= |rs| || i == |rs| == 0
        invariant acc == Combined(rs[..i])
      {
        var last := acc[|acc| - 1];
        var next := rs[i];
        CombinedPrefix(rs, i);
        if last.stop + 1 == next.start {
          acc := acc[..|acc| - 1] + [Range(last.start, next.stop)];
        } else {
          acc := acc + [next];
        }
        i := i + 1;
      }
      assert rs[..i] == rs;
      ranges := acc;
    }

    /** `union`: add r to the ranges; the answer says whether a single existing range already held it. */
    method Union(r: Range) returns (subsumed: bool)
      modifies this
      ensures (ranges, subsumed) == UnionResult(old(ranges), r)
    {
      var rs := ranges;
      var overlaps := OverlapIndices(rs, r);
      subsumed := false;
      if |overlaps| == 0 {
        ranges := SortByStart(rs + [r]);
      } else if |overlaps| == 1 && Subsumes(rs[overlaps[0]], r) {
        subsumed := true;
      } else {
        var h := UnionOverlapping(rs, overlaps, r);
        var low, high := overlaps[0], overlaps[|overlaps| - 1];
        ranges := rs[..low] + [h] + rs[high + 1..];
        assert ranges == Spliced(rs, low, high, h);
      }
      Condense();
    }
  }

  /** `union`'s loop `for (i, rng) in overlaps: r = union(rng, r)`. */
  method UnionOverlapping(rs: seq<Range>, overlaps: seq<nat>, r: Range) returns (h: Range)
    requires OverlapsAt(rs, overlaps, r)
    ensures h == UnionAll(rs, overlaps, r)
  {
    h := r;
    var k := 0;
    while k < |overlaps|
      invariant 0 <= k <= |overlaps|
      invariant h == UnionAll(rs, overlaps[..k], r)
    {
      assert overlaps[..k + 1][..k] == overlaps[..k];
      h := RangeUnion(rs[overlaps[k]], h);
      k := k + 1;
    }
    assert overlaps[..k] == overlaps;
  }
}
