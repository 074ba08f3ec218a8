/**
 * `ra/logical_to_physical.h`: lowering a logical relational-algebra plan to
 * a physical one whose rows each carry their lineage, the set of
 * `LocalTupleId`s of the collection tuples they were derived from.
 *
 * The lowered plan is given here by its output: `Eval` computes the
 * lineaged rows that the physical plan's `ToRange` produces. A plan whose
 * column indices do not fit its rows, which the C++ templates reject at
 * compile time, evaluates to `None`.
 */
module LogicalToPhysical {
  import opened Wrappers
  import TupleUtil
  import opened Relations
  import opened Aggregates
  import Collections
  import PhysicalGroupBy
  import PhysicalHashJoin

  /** `LocalTupleId{collection_name, hash, logical_time_inserted}`. */
  datatype LocalTupleId = LocalTupleId(collectionName: string, hash: nat, time: int)

  /** A physical row: the tuple and its lineage. */
  datatype Lineaged = Lineaged(row: Row, lineage: set<LocalTupleId>)

  /** The logical operators. `Map` and `Filter` carry the user's function. */
  datatype Plan =
    | Collection(name: string, entries: seq<(Row, Collections.TupleIds)>)
    | Iterable(rows: seq<Row>)
    | Map(child: Plan, f: Row -> Row)
    | Filter(child: Plan, p: Row -> bool)
    | Project(child: Plan, columns: seq<nat>)
    | Cross(left: Plan, right: Plan)
    | HashJoin(left: Plan, leftKeys: seq<nat>, right: Plan, rightKeys: seq<nat>)
    | GroupBy(child: Plan, keys: seq<nat>, aggs: seq<Aggregate>)

  /** The ids of one collection tuple: one per logical time it was inserted at. */
  function IdsLineage(name: string, ids: Collections.TupleIds): set<LocalTupleId>
  {
    set t | t in ids.times :: LocalTupleId(name, ids.hash, t)
  }

  /**
   * The lineage holds exactly the ids (name, hash, t) for the tuple's insert
   * times t, one id per time.
   */
  lemma IdsLineageSpec(name: string, ids: Collections.TupleIds)
    ensures forall id :: id in IdsLineage(name, ids) <==>
      id.collectionName == name && id.hash == ids.hash && id.time in ids.times
    ensures |IdsLineage(name, ids)| == |ids.times|
  {
    IdsCardinality(name, ids.hash, ids.times);
  }

  lemma {:induction false} IdsCardinality(name: string, hash: nat, times: set<int>)
    ensures |set t | t in times :: LocalTupleId(name, hash, t)| == |times|
    decreases |times|
  {
    if times != {} {
      var t := Element(times);
      var rest := times - {t};
      IdsCardinality(name, hash, rest);
      var s := set u | u in times :: LocalTupleId(name, hash, u);
      var sr := set u | u in rest :: LocalTupleId(name, hash, u);
      assert s == sr + {LocalTupleId(name, hash, t)};
      assert LocalTupleId(name, hash, t) !in sr;
    }
  }

  /** Some element of a nonempty set. */
  lemma Element<T>(s: set<T>) returns (x: T)
    requires s != {}
    ensures x in s
  {
    x :| x in s;
  }

  /** The loop of the Collection case that inserts one id per insert time. */
  method CollectionLineage(name: string, ids: Collections.TupleIds) returns (lineage: set<LocalTupleId>)
    ensures lineage == IdsLineage(name, ids)
  {
    lineage := {};
    var todo := ids.times;
    while todo != {}
      invariant todo <= ids.times
      invariant lineage == set t | t in ids.times - todo :: LocalTupleId(name, ids.hash, t)
      decreases |todo|
    {
      ghost var left := Element(todo);  // a time is left to insert
      var t :| t in todo;
      lineage := lineage + {LocalTupleId(name, ids.hash, t)};
      todo := todo - {t};
    }
  }

  /** The tuples of lineaged rows. */
  function Rows(xs: seq<Lineaged>): (r: seq<Row>)
    ensures |r| == |xs| && forall i :: 0 <= i < |xs| ==> r[i] == xs[i].row
  {
    seq(|xs|, i requires 0 <= i < |xs| => xs[i].row)
  }

  /** `make_filter`: the rows whose tuple satisfies p, in order. */
  function FilterRows(xs: seq<Lineaged>, p: Row -> bool): seq<Lineaged>
  {
    if xs == [] then []
    else
      var prev := FilterRows(xs[..|xs| - 1], p);
      if p(xs[|xs| - 1].row) then prev + [xs[|xs| - 1]] else prev
  }

  /** Every left row with every right row; the lineage is the union of both. */
  function CrossRows(left: seq<Lineaged>, right: seq<Lineaged>): seq<Lineaged>
  {
    if left == [] then []
    else
      var l := left[|left| - 1];
      CrossRows(left[..|left| - 1], right) + CrossWith(l, right)
  }

  /** The left row l paired with each right row, lineages unioned. */
  function CrossWith(l: Lineaged, right: seq<Lineaged>): (out: seq<Lineaged>)
    ensures |out| == |right| &&
      forall j :: 0 <= j < |right| ==> out[j] == Lineaged(l.row + right[j].row, l.lineage + right[j].lineage)
  {
    seq(|right|, j requires 0 <= j < |right| => Lineaged(l.row + right[j].row, l.lineage + right[j].lineage))
  }

  /** x pairs some left row with some right row, lineages unioned. */
  predicate Crossed(left: seq<Lineaged>, right: seq<Lineaged>, x: Lineaged)
  {
    exists i, j :: 0 <= i < |left| && 0 <= j < |right| &&
      x == Lineaged(left[i].row + right[j].row, left[i].lineage + right[j].lineage)
  }

  predicate KeysFit(xs: seq<Lineaged>, keys: seq<nat>)
  {
    forall i :: 0 <= i < |xs| ==> TupleUtil.InRange(xs[i].row, keys)
  }

  /** The lineaged rows whose tuple has key k. */
  function MatchingLineaged(xs: seq<Lineaged>, keys: seq<nat>, k: Row): seq<Lineaged>
    requires KeysFit(xs, keys)
  {
    if xs == [] then []
    else
      var prev := MatchingLineaged(xs[..|xs| - 1], keys, k);
      if Key(xs[|xs| - 1].row, keys) == k then prev + [xs[|xs| - 1]] else prev
  }

  /** The physical hash join over flattened rows, then the map that unions the two lineages. */
  function JoinRows(left: seq<Lineaged>, right: seq<Lineaged>, lk: seq<nat>, rk: seq<nat>): seq<Lineaged>
    requires KeysFit(left, lk) && KeysFit(right, rk)
  {
    if right == [] then []
    else
      var r := right[|right| - 1];
      JoinRows(left, right[..|right| - 1], lk, rk) + JoinWith(MatchingLineaged(left, lk, Key(r.row, rk)), r)
  }

  /** Each matching left row joined with the right row r. */
  function JoinWith(ms: seq<Lineaged>, r: Lineaged): (out: seq<Lineaged>)
    ensures |out| == |ms| &&
      forall i :: 0 <= i < |ms| ==> out[i] == Lineaged(ms[i].row + r.row, ms[i].lineage + r.lineage)
  {
    seq(|ms|, i requires 0 <= i < |ms| => Lineaged(ms[i].row + r.row, ms[i].lineage + r.lineage))
  }

  /** The distinct keys of the rows, in order of first occurrence. */
  function DistinctKeys(rows: seq<Row>, keys: seq<nat>): (ks: seq<Row>)
    requires forall i :: 0 <= i < |rows| ==> TupleUtil.InRange(rows[i], keys)
    ensures forall i, j :: 0 <= i < j < |ks| ==> ks[i] != ks[j]
    ensures forall k :: k in ks <==> k in KeysOf(rows, keys)
  {
    if rows == [] then []
    else
      var p := rows[..|rows| - 1];
      var prev := DistinctKeys(p, keys);
      var k := Key(rows[|rows| - 1], keys);
      KeysOfSnoc(rows, keys, |rows| - 1);
      assert rows[..|rows|] == rows;
      if k in prev then prev else prev + [k]
  }

  /** The union of the lineages of the rows whose tuple has key k (the `UnionImpl` aggregate). */
  function GroupLineage(xs: seq<Lineaged>, keys: seq<nat>, k: Row): set<LocalTupleId>
    requires KeysFit(xs, keys)
  {
    if xs == [] then {}
    else
      var prev := GroupLineage(xs[..|xs| - 1], keys, k);
      if Key(xs[|xs| - 1].row, keys) == k then prev + xs[|xs| - 1].lineage else prev
  }

  /** A group's aggregates, or the initial ones for a key with no group. */
  function GroupOf(g: map<Row, seq<Aggregate>>, k: Row, init: seq<Aggregate>): seq<Aggregate>
  {
    if k in g then g[k] else init
  }

  /** The physical group-by over flattened rows, then the map that moves the lineage out. */
  function GroupRows(xs: seq<Lineaged>, keys: seq<nat>, init: seq<Aggregate>): seq<Lineaged>
    requires PhysicalGroupBy.AllFit(Rows(xs), keys, init)
  {
    var g := PhysicalGroupBy.Groups(Rows(xs), keys, init);
    var ks := DistinctKeys(Rows(xs), keys);
    seq(|ks|, i requires 0 <= i < |ks| =>
      Lineaged(ks[i] + PhysicalGroupBy.Gets(GroupOf(g, ks[i], init)), GroupLineage(xs, keys, ks[i])))
  }

  /** `LogicalToPhysical(ra).ToRange()`. */
  function Eval(plan: Plan): Option<seq<Lineaged>>
  {
    match plan
    case Collection(name, entries) =>
      Some(seq(|entries|, i requires 0 <= i < |entries| => Lineaged(entries[i].0, IdsLineage(name, entries[i].1))))
    case Iterable(rows) =>
      Some(seq(|rows|, i requires 0 <= i < |rows| => Lineaged(rows[i], {})))
    case Map(child, f) =>
      var c := Eval(child);
      if c.None? then None
      else Some(seq(|c.value|, i requires 0 <= i < |c.value| => Lineaged(f(c.value[i].row), c.value[i].lineage)))
    case Filter(child, p) =>
      var c := Eval(child);
      if c.None? then None else Some(FilterRows(c.value, p))
    case Project(child, columns) =>
      var c := Eval(child);
      if c.None? || !KeysFit(c.value, columns) then None
      else Some(seq(|c.value|, i requires 0 <= i < |c.value| =>
        Lineaged(TupleUtil.TupleProject(c.value[i].row, columns), c.value[i].lineage)))
    case Cross(left, right) =>
      var l := Eval(left);
      var r := Eval(right);
      if l.None? || r.None? then None else Some(CrossRows(l.value, r.value))
    case HashJoin(left, lk, right, rk) =>
      var l := Eval(left);
      var r := Eval(right);
      if l.None? || r.None? || !KeysFit(l.value, lk) || !KeysFit(r.value, rk) then None
      else Some(JoinRows(l.value, r.value, lk, rk))
    case GroupBy(child, keys, aggs) =>
      var c := Eval(child);
      if c.None? || !PhysicalGroupBy.AllFit(Rows(c.value), keys, aggs) then None
      else Some(GroupRows(c.value, keys, aggs))
  }

  /**
   * Collection: one output row per collection tuple, whose lineage holds one
   * id (name, hash, t) per logical insert time t.
   */
  lemma CollectionCase(name: string, entries: seq<(Row, Collections.TupleIds)>)
    ensures Eval(Collection(name, entries)).Some?
    ensures var out := Eval(Collection(name, entries)).value;
      |out| == |entries| &&
      forall i :: 0 <= i < |entries| ==>
        out[i].row == entries[i].0 && |out[i].lineage| == |entries[i].1.times| &&
        forall id :: id in out[i].lineage <==>
          id.collectionName == name && id.hash == entries[i].1.hash && id.time in entries[i].1.times
  {
    forall i | 0 <= i < |entries| {
      IdsLineageSpec(name, entries[i].1);
    }
  }

  /** Iterable: the container's tuples, each with empty lineage. */
  lemma IterableCase(rows: seq<Row>)
    ensures Eval(Iterable(rows)).Some?
    ensures var out := Eval(Iterable(rows)).value;
      Rows(out) == rows && forall i :: 0 <= i < |out| ==> out[i].lineage == {}
  {
  }

  /** Map: f applied to each tuple, lineage carried over unchanged. */
  lemma MapCase(child: Plan, f: Row -> Row)
    ensures Eval(Map(child, f)).Some? <==> Eval(child).Some?
    ensures Eval(child).Some? ==>
      var c, out := Eval(child).value, Eval(Map(child, f)).value;
      |out| == |c| && forall i :: 0 <= i < |c| ==> out[i].row == f(c[i].row) && out[i].lineage == c[i].lineage
  {
  }

  lemma {:induction false} FilterRowsSpec(xs: seq<Lineaged>, p: Row -> bool)
    ensures forall x :: x in FilterRows(xs, p) <==> x in xs && p(x.row)
  {
    if xs != [] {
      var q := xs[..|xs| - 1];
      FilterRowsSpec(q, p);
      assert xs == q + [xs[|xs| - 1]];
    }
  }

  /** Filter: exactly the child's rows whose tuple satisfies p, with their lineage. */
  lemma FilterCase(child: Plan, p: Row -> bool)
    ensures Eval(Filter(child, p)).Some? <==> Eval(child).Some?
    ensures Eval(child).Some? ==>
      forall x :: x in Eval(Filter(child, p)).value <==> x in Eval(child).value && p(x.row)
  {
    if Eval(child).Some? {
      FilterRowsSpec(Eval(child).value, p);
    }
  }

  /** Project: the chosen columns of each tuple, lineage carried over unchanged. */
  lemma ProjectCase(child: Plan, columns: seq<nat>)
    ensures Eval(Project(child, columns)).Some? <==> Eval(child).Some? && KeysFit(Eval(child).value, columns)
    ensures Eval(Project(child, columns)).Some? ==>
      var c, out := Eval(child).value, Eval(Project(child, columns)).value;
      |out| == |c| && forall i :: 0 <= i < |c| ==>
        out[i].lineage == c[i].lineage && |out[i].row| == |columns| &&
        forall j :: 0 <= j < |columns| ==> out[i].row[j] == c[i].row[columns[j]]
  {
    if Eval(Project(child, columns)).Some? {
      var c := Eval(child).value;
      forall i | 0 <= i < |c| {
        TupleUtil.TupleProjectSpec(c[i].row, columns);
      }
    }
  }

  /** Cross: x is a result iff it pairs some left row with some right row, lineages unioned. */
  lemma {:induction false} CrossRowsSpec(left: seq<Lineaged>, right: seq<Lineaged>)
    ensures |CrossRows(left, right)| == |left| * |right|
    ensures forall x :: x in CrossRows(left, right) <==>
      exists i, j :: 0 <= i < |left| && 0 <= j < |right| &&
        x == Lineaged(left[i].row + right[j].row, left[i].lineage + right[j].lineage)
  {
    CrossRowsLength(left, right);
    CrossRowsMembership(left, right);
  }

  lemma {:induction false} CrossRowsLength(left: seq<Lineaged>, right: seq<Lineaged>)
    ensures |CrossRows(left, right)| == |left| * |right|
  {
    if left != [] {
      CrossRowsLength(left[..|left| - 1], right);
      assert |left| * |right| == (|left| - 1) * |right| + |right|;
    }
  }

  lemma {:induction false} CrossRowsMembership(left: seq<Lineaged>, right: seq<Lineaged>)
    ensures forall x :: x in CrossRows(left, right) <==> Crossed(left, right, x)
  {
    if left != [] {
      var p := left[..|left| - 1];
      CrossRowsMembership(p, right);
      assert CrossRows(left, right) == CrossRows(p, right) + CrossWith(left[|left| - 1], right);
      forall x ensures x in CrossRows(left, right) <==> Crossed(left, right, x) {
        if x in CrossRows(p, right) {
          CrossedExtends(left, right, p, x);
        } else if x in CrossWith(left[|left| - 1], right) {
          CrossWithCrossed(left, right, x);
        }
        if Crossed(left, right, x) {
          CrossedSplits(left, right, p, x);
        }
      }
    }
  }

  lemma CrossedExtends(left: seq<Lineaged>, right: seq<Lineaged>, p: seq<Lineaged>, x: Lineaged)
    requires left != [] && p == left[..|left| - 1] && Crossed(p, right, x)
    ensures Crossed(left, right, x)
  {
    var i, j :| 0 <= i < |p| && 0 <= j < |right| &&
      x == Lineaged(p[i].row + right[j].row, p[i].lineage + right[j].lineage);
    assert left[i] == p[i];
  }

  lemma CrossWithCrossed(left: seq<Lineaged>, right: seq<Lineaged>, x: Lineaged)
    requires left != [] && x in CrossWith(left[|left| - 1], right)
    ensures Crossed(left, right, x)
  {
    var n := |left| - 1;
    var t := CrossWith(left[n], right);
    var j :| 0 <= j < |right| && t[j] == x;
    assert x == Lineaged(left[n].row + right[j].row, left[n].lineage + right[j].lineage);
  }

  lemma CrossedSplits(left: seq<Lineaged>, right: seq<Lineaged>, p: seq<Lineaged>, x: Lineaged)
    requires left != [] && p == left[..|left| - 1] && Crossed(left, right, x)
    ensures Crossed(p, right, x) || x in CrossWith(left[|left| - 1], right)
  {
    var n := |left| - 1;
    var i, j :| 0 <= i < |left| && 0 <= j < |right| &&
      x == Lineaged(left[i].row + right[j].row, left[i].lineage + right[j].lineage);
    if i < n {
      assert p[i] == left[i];
    } else {
      assert CrossWith(left[n], right)[j] == x;
    }
  }

  /** Cross: every pair of child rows, with the union of the two lineages. */
  lemma CrossCase(left: Plan, right: Plan)
    ensures Eval(Cross(left, right)).Some? <==> Eval(left).Some? && Eval(right).Some?
    ensures Eval(Cross(left, right)).Some? ==>
      var l, r, out := Eval(left).value, Eval(right).value, Eval(Cross(left, right)).value;
      |out| == |l| * |r| &&
      forall x :: x in out <==>
        exists i, j :: 0 <= i < |l| && 0 <= j < |r| &&
          x == Lineaged(l[i].row + r[j].row, l[i].lineage + r[j].lineage)
  {
    if Eval(Cross(left, right)).Some? {
      CrossRowsSpec(Eval(left).value, Eval(right).value);
    }
  }

  /** Matching on lineaged rows picks the rows that plain matching picks. */
  lemma {:induction false} MatchingLineagedRows(xs: seq<Lineaged>, keys: seq<nat>, k: Row)
    requires KeysFit(xs, keys)
    ensures Rows(MatchingLineaged(xs, keys, k)) == Matching(Rows(xs), keys, k)
  {
    if xs != [] {
      var p := xs[..|xs| - 1];
      MatchingLineagedRows(p, keys, k);
      assert Rows(xs)[..|xs| - 1] == Rows(p);
    }
  }

  /** Matching on lineaged rows keeps exactly the rows with key k. */
  lemma {:induction false} MatchingLineagedMembers(xs: seq<Lineaged>, keys: seq<nat>, k: Row)
    requires KeysFit(xs, keys)
    ensures forall x :: x in MatchingLineaged(xs, keys, k) <==> x in xs && Key(x.row, keys) == k
  {
    if xs != [] {
      var p := xs[..|xs| - 1];
      MatchingLineagedMembers(p, keys, k);
      assert xs == p + [xs[|xs| - 1]];
      assert forall x :: x in xs <==> x in p || x == xs[|xs| - 1];
    }
  }

  /** The join's tuples are those of the physical hash join over the children's tuples. */
  lemma {:induction false} JoinRowsTuples(left: seq<Lineaged>, right: seq<Lineaged>, lk: seq<nat>, rk: seq<nat>)
    requires KeysFit(left, lk) && KeysFit(right, rk)
    ensures PhysicalHashJoin.KeysFit(Rows(left), lk) && PhysicalHashJoin.KeysFit(Rows(right), rk)
    ensures Rows(JoinRows(left, right, lk, rk)) == PhysicalHashJoin.Joined(Rows(left), Rows(right), lk, rk)
  {
    PhysicalHashJoin.HashJoinIsNestedLoop(Rows(left), Rows(right), lk, rk);
    JoinRowsNested(left, right, lk, rk);
  }

  lemma {:induction false} JoinRowsNested(left: seq<Lineaged>, right: seq<Lineaged>, lk: seq<nat>, rk: seq<nat>)
    requires KeysFit(left, lk) && KeysFit(right, rk)
    ensures Rows(JoinRows(left, right, lk, rk)) == PhysicalHashJoin.NestedLoopJoin(Rows(left), Rows(right), lk, rk)
  {
    if right != [] {
      var p := right[..|right| - 1];
      var r := right[|right| - 1];
      JoinRowsNested(left, p, lk, rk);
      assert Rows(right)[..|right| - 1] == Rows(p);
      var ms := MatchingLineaged(left, lk, Key(r.row, rk));
      MatchingLineagedRows(left, lk, Key(r.row, rk));
      var tail := JoinWith(ms, r);
      assert Rows(tail) == PhysicalHashJoin.Pair(Rows(ms), r.row);
      RowsAppend(JoinRows(left, p, lk, rk), tail);
    }
  }

  lemma RowsAppend(a: seq<Lineaged>, b: seq<Lineaged>)
    ensures Rows(a + b) == Rows(a) + Rows(b)
  {
    assert forall i :: 0 <= i < |a| ==> (a + b)[i] == a[i];
    assert forall i :: 0 <= i < |b| ==> (a + b)[|a| + i] == b[i];
  }

  /** x joins a left and a right row with equal keys, lineages unioned. */
  predicate JoinedPair(left: seq<Lineaged>, right: seq<Lineaged>, lk: seq<nat>, rk: seq<nat>, x: Lineaged)
    requires KeysFit(left, lk) && KeysFit(right, rk)
  {
    exists i, j :: 0 <= i < |left| && 0 <= j < |right| && Key(left[i].row, lk) == Key(right[j].row, rk) &&
      x == Lineaged(left[i].row + right[j].row, left[i].lineage + right[j].lineage)
  }

  lemma {:induction false} JoinRowsMembership(left: seq<Lineaged>, right: seq<Lineaged>, lk: seq<nat>, rk: seq<nat>)
    requires KeysFit(left, lk) && KeysFit(right, rk)
    ensures forall x :: x in JoinRows(left, right, lk, rk) <==> JoinedPair(left, right, lk, rk, x)
  {
    if right != [] {
      var p := right[..|right| - 1];
      JoinRowsMembership(left, p, lk, rk);
      forall x ensures x in JoinRows(left, right, lk, rk) <==> JoinedPair(left, right, lk, rk, x) {
        JoinRowsMembershipStep(left, right, p, lk, rk, x);
      }
    }
  }

  lemma JoinRowsMembershipStep(left: seq<Lineaged>, right: seq<Lineaged>, p: seq<Lineaged>, lk: seq<nat>, rk: seq<nat>, x: Lineaged)
    requires KeysFit(left, lk) && KeysFit(right, rk)
    requires right != [] && p == right[..|right| - 1]
    requires x in JoinRows(left, p, lk, rk) <==> JoinedPair(left, p, lk, rk, x)
    ensures x in JoinRows(left, right, lk, rk) <==> JoinedPair(left, right, lk, rk, x)
  {
    var r := right[|right| - 1];
    var tail := JoinWith(MatchingLineaged(left, lk, Key(r.row, rk)), r);
    assert JoinRows(left, right, lk, rk) == JoinRows(left, p, lk, rk) + tail;
    if x in JoinRows(left, p, lk, rk) {
      JoinedPairPrefix(left, right, p, lk, rk, x);
    } else if x in tail {
      JoinedPairLast(left, right, lk, rk, x);
    }
    if JoinedPair(left, right, lk, rk, x) {
      JoinedPairSplit(left, right, p, lk, rk, x);
    }
  }

  lemma JoinedPairPrefix(left: seq<Lineaged>, right: seq<Lineaged>, p: seq<Lineaged>, lk: seq<nat>, rk: seq<nat>, x: Lineaged)
    requires KeysFit(left, lk) && KeysFit(right, rk)
    requires right != [] && p == right[..|right| - 1]
    requires JoinedPair(left, p, lk, rk, x)
    ensures JoinedPair(left, right, lk, rk, x)
  {
    var i, j :| 0 <= i < |left| && 0 <= j < |p| && Key(left[i].row, lk) == Key(p[j].row, rk) &&
      x == Lineaged(left[i].row + p[j].row, left[i].lineage + p[j].lineage);
    assert right[j] == p[j];
  }

  lemma JoinedPairLast(left: seq<Lineaged>, right: seq<Lineaged>, lk: seq<nat>, rk: seq<nat>, x: Lineaged)
    requires KeysFit(left, lk) && KeysFit(right, rk) && right != []
    requires x in JoinWith(MatchingLineaged(left, lk, Key(right[|right| - 1].row, rk)), right[|right| - 1])
    ensures JoinedPair(left, right, lk, rk, x)
  {
    var n := |right| - 1;
    var r := right[n];
    var ms := MatchingLineaged(left, lk, Key(r.row, rk));
    MatchingLineagedMembers(left, lk, Key(r.row, rk));
    var a :| 0 <= a < |ms| && JoinWith(ms, r)[a] == x;
    assert ms[a] in ms;
    var i :| 0 <= i < |left| && left[i] == ms[a];
    assert Key(left[i].row, lk) == Key(right[n].row, rk);
  }

  lemma JoinedPairSplit(left: seq<Lineaged>, right: seq<Lineaged>, p: seq<Lineaged>, lk: seq<nat>, rk: seq<nat>, x: Lineaged)
    requires KeysFit(left, lk) && KeysFit(right, rk)
    requires right != [] && p == right[..|right| - 1]
    requires JoinedPair(left, right, lk, rk, x)
    ensures JoinedPair(left, p, lk, rk, x) ||
      x in JoinWith(MatchingLineaged(left, lk, Key(right[|right| - 1].row, rk)), right[|right| - 1])
  {
    var n := |right| - 1;
    var r := right[n];
    var i, j :| 0 <= i < |left| && 0 <= j < |right| && Key(left[i].row, lk) == Key(right[j].row, rk) &&
      x == Lineaged(left[i].row + right[j].row, left[i].lineage + right[j].lineage);
    if j < n {
      assert p[j] == right[j];
    } else {
      JoinWithMatched(left, lk, rk, i, r);
    }
  }

  /** A left row whose key equals r's, joined with r, is among r's joined rows. */
  lemma JoinWithMatched(left: seq<Lineaged>, lk: seq<nat>, rk: seq<nat>, i: nat, r: Lineaged)
    requires KeysFit(left, lk) && i < |left| && TupleUtil.InRange(r.row, rk)
    requires Key(left[i].row, lk) == Key(r.row, rk)
    ensures Lineaged(left[i].row + r.row, left[i].lineage + r.lineage) in JoinWith(MatchingLineaged(left, lk, Key(r.row, rk)), r)
  {
    var ms := MatchingLineaged(left, lk, Key(r.row, rk));
    MatchingLineagedMembers(left, lk, Key(r.row, rk));
    assert left[i] in ms;
    var a :| 0 <= a < |ms| && ms[a] == left[i];
    assert JoinWith(ms, r)[a] == Lineaged(left[i].row + r.row, left[i].lineage + r.lineage);
  }

  /**
   * HashJoin: the tuples are the physical hash join's output, and x is a
   * result iff it joins a left and a right row with equal keys, carrying
   * the union of their lineages.
   */
  lemma HashJoinCase(left: Plan, lk: seq<nat>, right: Plan, rk: seq<nat>)
    ensures Eval(HashJoin(left, lk, right, rk)).Some? <==>
      Eval(left).Some? && Eval(right).Some? && KeysFit(Eval(left).value, lk) && KeysFit(Eval(right).value, rk)
    ensures Eval(HashJoin(left, lk, right, rk)).Some? ==>
      var l, r, out := Eval(left).value, Eval(right).value, Eval(HashJoin(left, lk, right, rk)).value;
      PhysicalHashJoin.KeysFit(Rows(l), lk) && PhysicalHashJoin.KeysFit(Rows(r), rk) &&
      Rows(out) == PhysicalHashJoin.Joined(Rows(l), Rows(r), lk, rk) &&
      forall x :: x in out <==> JoinedPair(l, r, lk, rk, x)
  {
    if Eval(HashJoin(left, lk, right, rk)).Some? {
      var l, r := Eval(left).value, Eval(right).value;
      JoinRowsTuples(l, r, lk, rk);
      JoinRowsMembership(l, r, lk, rk);
    }
  }

  /** A group's lineage is the union of the lineages of the rows with its key. */
  lemma {:induction false} GroupLineageSpec(xs: seq<Lineaged>, keys: seq<nat>, k: Row)
    requires KeysFit(xs, keys)
    ensures forall id :: id in GroupLineage(xs, keys, k) <==>
      exists j :: 0 <= j < |xs| && Key(xs[j].row, keys) == k && id in xs[j].lineage
  {
    if xs != [] {
      var p := xs[..|xs| - 1];
      var n := |xs| - 1;
      GroupLineageSpec(p, keys, k);
      forall id ensures id in GroupLineage(xs, keys, k) <==>
        exists j :: 0 <= j < |xs| && Key(xs[j].row, keys) == k && id in xs[j].lineage
      {
        if id in GroupLineage(p, keys, k) {
          var j :| 0 <= j < |p| && Key(p[j].row, keys) == k && id in p[j].lineage;
          assert xs[j] == p[j];
        }
        if exists j :: 0 <= j < |xs| && Key(xs[j].row, keys) == k && id in xs[j].lineage {
          var j :| 0 <= j < |xs| && Key(xs[j].row, keys) == k && id in xs[j].lineage;
          if j < n {
            assert p[j] == xs[j];
          }
        }
      }
    }
  }

  /** The grouped tuples: each distinct key once, followed by its group's results. */
  lemma GroupRowsTuples(xs: seq<Lineaged>, keys: seq<nat>, init: seq<Aggregate>)
    requires PhysicalGroupBy.AllFit(Rows(xs), keys, init)
    ensures KeysFit(xs, keys)
    ensures var out, g, ks := GroupRows(xs, keys, init), PhysicalGroupBy.Groups(Rows(xs), keys, init), DistinctKeys(Rows(xs), keys);
      |out| == |ks| && (forall k :: k in g <==> k in ks) &&
      forall i :: 0 <= i < |ks| ==> |ks[i]| == |keys| && out[i].row == ks[i] + PhysicalGroupBy.Gets(g[ks[i]])
  {
    var rows := Rows(xs);
    assert KeysFit(xs, keys) by {
      forall i | 0 <= i < |xs| ensures TupleUtil.InRange(xs[i].row, keys) {
        assert PhysicalGroupBy.RowFits(rows[i], keys, init);
      }
    }
    PhysicalGroupBy.GroupsKeys(rows, keys, init);
    DistinctKeysWidth(rows, keys);
  }

  /** Every distinct key has one column per key index. */
  lemma DistinctKeysWidth(rows: seq<Row>, keys: seq<nat>)
    requires forall i :: 0 <= i < |rows| ==> TupleUtil.InRange(rows[i], keys)
    ensures forall i :: 0 <= i < |DistinctKeys(rows, keys)| ==> |DistinctKeys(rows, keys)[i]| == |keys|
  {
    var ks := DistinctKeys(rows, keys);
    forall i | 0 <= i < |ks| ensures |ks[i]| == |keys| {
      assert ks[i] in KeysOf(rows, keys);
      var j :| 0 <= j < |rows| && Key(rows[j], keys) == ks[i];
      TupleUtil.TupleProjectSpec(rows[j], keys);
    }
  }

  /** A grouped row's lineage is the union of the lineages of the child rows with its key. */
  lemma GroupRowsLineage(xs: seq<Lineaged>, keys: seq<nat>, init: seq<Aggregate>)
    requires PhysicalGroupBy.AllFit(Rows(xs), keys, init)
    ensures KeysFit(xs, keys)
    ensures var out, ks := GroupRows(xs, keys, init), DistinctKeys(Rows(xs), keys);
      |out| == |ks| &&
      forall i :: 0 <= i < |ks| ==>
        forall id :: id in out[i].lineage <==>
          exists j :: 0 <= j < |xs| && Key(xs[j].row, keys) == ks[i] && id in xs[j].lineage
  {
    GroupRowsTuples(xs, keys, init);
    var ks := DistinctKeys(Rows(xs), keys);
    forall i | 0 <= i < |ks|
      ensures forall id :: id in GroupLineage(xs, keys, ks[i]) <==>
        exists j :: 0 <= j < |xs| && Key(xs[j].row, keys) == ks[i] && id in xs[j].lineage
    {
      GroupLineageSpec(xs, keys, ks[i]);
    }
  }

  /** The set of grouped tuples is the physical group-by's output. */
  lemma GroupRowsOutput(xs: seq<Lineaged>, keys: seq<nat>, init: seq<Aggregate>)
    requires PhysicalGroupBy.AllFit(Rows(xs), keys, init)
    ensures var out := GroupRows(xs, keys, init);
      (set i | 0 <= i < |out| :: out[i].row) == PhysicalGroupBy.Output(PhysicalGroupBy.Groups(Rows(xs), keys, init))
  {
    GroupRowsTuples(xs, keys, init);
    var out := GroupRows(xs, keys, init);
    var g := PhysicalGroupBy.Groups(Rows(xs), keys, init);
    TuplesAreOutput(out, DistinctKeys(Rows(xs), keys), g);
  }

  /** Rows listing each key of a table once, followed by its results, hold exactly the table's output. */
  lemma TuplesAreOutput(out: seq<Lineaged>, ks: seq<Row>, g: map<Row, seq<Aggregate>>)
    requires |out| == |ks| && forall k :: k in g <==> k in ks
    requires forall i :: 0 <= i < |ks| ==> out[i].row == ks[i] + PhysicalGroupBy.Gets(g[ks[i]])
    ensures (set i | 0 <= i < |out| :: out[i].row) == PhysicalGroupBy.Output(g)
  {
    var tuples := set i | 0 <= i < |out| :: out[i].row;
    forall x | x in tuples ensures x in PhysicalGroupBy.Output(g) {
      var i :| 0 <= i < |out| && out[i].row == x;
      assert ks[i] in g;
    }
    forall x | x in PhysicalGroupBy.Output(g) ensures x in tuples {
      var k :| k in g && x == k + PhysicalGroupBy.Gets(g[k]);
      var i :| 0 <= i < |ks| && ks[i] == k;
      assert out[i].row == x;
    }
  }

  /**
   * GroupBy: one row per distinct key of the child, holding the key and the
   * group's aggregate results, with the union of the lineages of the child
   * rows with that key. The set of tuples is the physical group-by's output.
   */
  lemma GroupByCase(child: Plan, keys: seq<nat>, aggs: seq<Aggregate>)
    ensures Eval(GroupBy(child, keys, aggs)).Some? <==>
      Eval(child).Some? && PhysicalGroupBy.AllFit(Rows(Eval(child).value), keys, aggs)
    ensures Eval(GroupBy(child, keys, aggs)).Some? ==>
      var c, out := Eval(child).value, Eval(GroupBy(child, keys, aggs)).value;
      var g := PhysicalGroupBy.Groups(Rows(c), keys, aggs);
      KeysFit(c, keys) &&
      (set i | 0 <= i < |out| :: out[i].row) == PhysicalGroupBy.Output(g) &&
      var ks := DistinctKeys(Rows(c), keys);
      |out| == |ks| && (forall k :: k in g <==> k in ks) &&
      forall i :: 0 <= i < |ks| ==>
        out[i].row == ks[i] + PhysicalGroupBy.Gets(g[ks[i]]) &&
        forall id :: id in out[i].lineage <==>
          exists j :: 0 <= j < |c| && Key(c[j].row, keys) == ks[i] && id in c[j].lineage
  {
    if Eval(GroupBy(child, keys, aggs)).Some? {
      var c := Eval(child).value;
      GroupRowsTuples(c, keys, aggs);
      GroupRowsLineage(c, keys, aggs);
      GroupRowsOutput(c, keys, aggs);
    }
  }
}
