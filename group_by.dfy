/**
 * `ra/physical/group_by.h`: the physical GroupBy operator. `ToRange` clears
 * its group map, feeds every child row to the aggregates of the row's key,
 * then emits one row per key: the key followed by each aggregate's `Get`.
 */
module PhysicalGroupBy {
  import opened Aggregates
  import TupleUtil
  import opened Relations

  /** The key columns and every aggregate's column exist in the row. */
  predicate RowFits(row: Row, keys: seq<nat>, aggs: seq<Aggregate>)
  {
    TupleUtil.InRange(row, keys) && forall j :: 0 <= j < |aggs| ==> Fits(aggs[j], row)
  }

  predicate AllFit(rows: seq<Row>, keys: seq<nat>, aggs: seq<Aggregate>)
  {
    forall i :: 0 <= i < |rows| ==> RowFits(rows[i], keys, aggs)
  }

  predicate SameColumns(group: seq<Aggregate>, aggs: seq<Aggregate>)
  {
    |group| == |aggs| && forall j :: 0 <= j < |aggs| ==> group[j].column == aggs[j].column
  }

  /** `TupleIter(group, UpdateAgg)`: every aggregate of the group updated with the row. */
  function UpdateGroup(group: seq<Aggregate>, row: Row): (r: seq<Aggregate>)
    requires forall j :: 0 <= j < |group| ==> Fits(group[j], row)
    ensures SameColumns(r, group)
  {
    seq(|group|, j requires 0 <= j < |group| => Update(group[j], row))
  }

  /**
   * The group map after the rows were fed in order: each row's key maps to
   * the aggregates so far, starting from the default-constructed `init`.
   */
  function Groups(rows: seq<Row>, keys: seq<nat>, init: seq<Aggregate>): (g: map<Row, seq<Aggregate>>)
    requires AllFit(rows, keys, init)
    ensures forall k :: k in g ==> SameColumns(g[k], init)
  {
    if rows == [] then map[]
    else
      var g := Groups(rows[..|rows| - 1], keys, init);
      var row := rows[|rows| - 1];
      assert RowFits(row, keys, init);
      var k := Key(row, keys);
      var current := if k in g then g[k] else init;
      g[k := UpdateGroup(current, row)]
  }

  /** Every row sharing a key fits the aggregates. */
  lemma MatchingFits(rows: seq<Row>, keys: seq<nat>, init: seq<Aggregate>, k: Row)
    requires AllFit(rows, keys, init)
    ensures forall i, j :: 0 <= i < |Matching(rows, keys, k)| && 0 <= j < |init| ==>
      Fits(init[j], Matching(rows, keys, k)[i])
  {
    var m := Matching(rows, keys, k);
    forall i, j | 0 <= i < |m| && 0 <= j < |init| ensures Fits(init[j], m[i]) {
      assert m[i] in rows;
      var n :| 0 <= n < |rows| && rows[n] == m[i];
      assert RowFits(rows[n], keys, init);
    }
  }

  /** There is one group per distinct key of the input. */
  lemma {:induction false} GroupsKeys(rows: seq<Row>, keys: seq<nat>, init: seq<Aggregate>)
    requires AllFit(rows, keys, init)
    ensures Groups(rows, keys, init).Keys == KeysOf(rows, keys)
  {
    if rows != [] {
      var p := rows[..|rows| - 1];
      assert AllFit(p, keys, init);
      GroupsKeys(p, keys, init);
      assert forall i :: 0 <= i < |rows| ==> TupleUtil.InRange(rows[i], keys) by {
        forall i | 0 <= i < |rows| ensures TupleUtil.InRange(rows[i], keys) {
          assert RowFits(rows[i], keys, init);
        }
      }
      KeysOfSnoc(rows, keys, |rows| - 1);
      assert rows[..|rows|] == rows;
    }
  }

  /**
   * There is one group per distinct key, and the j-th aggregate of key k's
   * group has been updated with exactly the rows whose key is k, in order.
   */
  lemma {:induction false} GroupsSpec(rows: seq<Row>, keys: seq<nat>, init: seq<Aggregate>)
    requires AllFit(rows, keys, init)
    ensures Groups(rows, keys, init).Keys == KeysOf(rows, keys)
    ensures forall k, j :: k in Groups(rows, keys, init) && 0 <= j < |init| ==>
      (forall i :: 0 <= i < |Matching(rows, keys, k)| ==> Fits(init[j], Matching(rows, keys, k)[i])) &&
      Groups(rows, keys, init)[k][j] == UpdateAll(init[j], Matching(rows, keys, k))
  {
    GroupsKeys(rows, keys, init);
    if rows != [] {
      var p := rows[..|rows| - 1];
      var row := rows[|rows| - 1];
      assert AllFit(p, keys, init);
      GroupsSpec(p, keys, init);
      var g := Groups(rows, keys, init);
      forall k, j | k in g && 0 <= j < |init|
        ensures (forall i :: 0 <= i < |Matching(rows, keys, k)| ==> Fits(init[j], Matching(rows, keys, k)[i]))
        ensures g[k][j] == UpdateAll(init[j], Matching(rows, keys, k))
      {
        MatchingFits(rows, keys, init, k);
        GroupStep(rows, p, keys, init, k, j);
      }
    }
  }

  /** One step of GroupsSpec: the last row only touches its own key's group. */
  lemma GroupStep(rows: seq<Row>, p: seq<Row>, keys: seq<nat>, init: seq<Aggregate>, k: Row, j: nat)
    requires rows != [] && p == rows[..|rows| - 1] && AllFit(rows, keys, init)
    requires k in Groups(rows, keys, init) && j < |init|
    requires AllFit(p, keys, init)
    requires Groups(p, keys, init).Keys == KeysOf(p, keys)
    requires k in Groups(p, keys, init) ==>
      (forall i :: 0 <= i < |Matching(p, keys, k)| ==> Fits(init[j], Matching(p, keys, k)[i])) &&
      Groups(p, keys, init)[k][j] == UpdateAll(init[j], Matching(p, keys, k))
    ensures forall i :: 0 <= i < |Matching(rows, keys, k)| ==> Fits(init[j], Matching(rows, keys, k)[i])
    ensures Groups(rows, keys, init)[k][j] == UpdateAll(init[j], Matching(rows, keys, k))
  {
    var row := rows[|rows| - 1];
    var m := Matching(rows, keys, k);
    var mp := Matching(p, keys, k);
    var gp := Groups(p, keys, init);
    MatchingFits(rows, keys, init, k);
    assert RowFits(row, keys, init);
    if Key(row, keys) == k {
      assert m == mp + [row];
      assert m[..|m| - 1] == mp;
      if k !in gp {
        MatchingEmpty(p, keys, k);
      }
    } else {
      assert m == mp;
    }
  }

  /** GroupsSpec for one key and one aggregate. */
  lemma GroupAt(rows: seq<Row>, keys: seq<nat>, init: seq<Aggregate>, k: Row, j: nat)
    requires AllFit(rows, keys, init)
    requires k in Groups(rows, keys, init) && j < |init|
    ensures forall i :: 0 <= i < |Matching(rows, keys, k)| ==> Fits(init[j], Matching(rows, keys, k)[i])
    ensures Groups(rows, keys, init)[k][j] == UpdateAll(init[j], Matching(rows, keys, k))
  {
    GroupsSpec(rows, keys, init);
  }

  /**
   * With freshly constructed aggregates, a group's sums are the totals of
   * their column over the group's rows and its counts are the group size
   * modulo 2^64.
   */
  lemma GroupAggregates(rows: seq<Row>, keys: seq<nat>, init: seq<Aggregate>, k: Row, j: nat)
    requires AllFit(rows, keys, init)
    requires k in Groups(rows, keys, init) && j < |init| && Get(init[j]) == 0
    ensures var m := Matching(rows, keys, k);
      (forall i :: 0 <= i < |m| ==> init[j].column < |m[i]|) &&
      Get(Groups(rows, keys, init)[k][j]) == if init[j].SumImpl? then SumColumn(m, init[j].column) else |m| % SIZE_T_MODULUS
  {
    GroupAt(rows, keys, init, k, j);
    var m := Matching(rows, keys, k);
    var g := Groups(rows, keys, init)[k][j];
    assert g == UpdateAll(init[j], m);
    if init[j].SumImpl? {
      SumSpec(init[j], m);
    } else {
      FreshCount(init[j], m);
    }
  }

  /** The `Get` of every aggregate of a group. */
  function Gets(group: seq<Aggregate>): (r: seq<int>)
    ensures |r| == |group|
  {
    seq(|group|, j requires 0 <= j < |group| => Get(group[j]))
  }

  /** The transform over `groups_`: each key followed by its aggregates' results. */
  function Output(groups: map<Row, seq<Aggregate>>): set<Row>
  {
    set k | k in groups :: k + Gets(groups[k])
  }

  /**
   * Every output row starts with a distinct key of the input and continues
   * with that key's aggregate results; every key of the input has a row. No
   * input, no output, even without key columns.
   */
  lemma OutputSpec(rows: seq<Row>, keys: seq<nat>, init: seq<Aggregate>)
    requires AllFit(rows, keys, init)
    ensures var g := Groups(rows, keys, init);
      (forall r :: r in Output(g) ==>
        |r| == |keys| + |init| && r[..|keys|] in KeysOf(rows, keys) && r[..|keys|] in g &&
        r[|keys|..] == Gets(g[r[..|keys|]])) &&
      (forall k :: k in KeysOf(rows, keys) ==> k in g && k + Gets(g[k]) in Output(g)) &&
      (rows == [] ==> Output(g) == {})
  {
    var g := Groups(rows, keys, init);
    GroupsSpec(rows, keys, init);
    forall k | k in g ensures |k| == |keys| {
      var i :| 0 <= i < |rows| && Key(rows[i], keys) == k;
      TupleUtil.TupleProjectSpec(rows[i], keys);
    }
    forall r | r in Output(g)
      ensures |r| == |keys| + |init| && r[..|keys|] in KeysOf(rows, keys) && r[..|keys|] in g
      ensures r[|keys|..] == Gets(g[r[..|keys|]])
    {
      var k :| k in g && r == k + Gets(g[k]);
      assert r[..|keys|] == k;
    }
  }

  /** Feeding one more row updates only its key's group. */
  lemma GroupsPrefix(rows: seq<Row>, keys: seq<nat>, init: seq<Aggregate>, i: nat)
    requires AllFit(rows, keys, init) && i < |rows|
    ensures RowFits(rows[i], keys, init) && AllFit(rows[..i + 1], keys, init)
    ensures var g, k := Groups(rows[..i], keys, init), Key(rows[i], keys);
      Groups(rows[..i + 1], keys, init) == g[k := UpdateGroup(if k in g then g[k] else init, rows[i])]
  {
    var q := rows[..i + 1];
    assert q[..|q| - 1] == rows[..i];
    assert q[|q| - 1] == rows[i];
  }

  /** The loop of `ToRange` that feeds each child row to its key's group. */
  method BuildGroups(input: seq<Row>, keys: seq<nat>, init: seq<Aggregate>) returns (groups: map<Row, seq<Aggregate>>)
    requires AllFit(input, keys, init)
    ensures groups == Groups(input, keys, init)
  {
    groups := map[];
    var i := 0;
    while i < |input|
      invariant 0 <= i <= |input|
      invariant AllFit(input[..i], keys, init)
      invariant groups == Groups(input[..i], keys, init)
    {
      var row := input[i];
      GroupsPrefix(input, keys, init, i);
      var k := Key(row, keys);
      var group := if k in groups then groups[k] else init;
      groups := groups[k := UpdateGroup(group, row)];
      i := i + 1;
    }
    assert input[..i] == input;
  }

  /** `GroupBy<Ra, Keys<Ks...>, KeyColumnTuple, AggregateImplTuple>`. */
  class GroupBy {
    const keys: seq<nat>
    /** The default-constructed aggregates each new group starts with. */
    const init: seq<Aggregate>
    var groups: map<Row, seq<Aggregate>>

    constructor (keys: seq<nat>, init: seq<Aggregate>)
      ensures this.keys == keys && this.init == init && groups == map[]
    {
      this.keys, this.init := keys, init;
      groups := map[];
    }

    /**
     * `ToRange()` over the child's rows: the groups are rebuilt from scratch,
     * so the result depends on this call's input alone.
     */
    method ToRange(input: seq<Row>) returns (out: set<Row>)
      requires AllFit(input, keys, init)
      modifies this
      ensures groups == Groups(input, keys, init)
      ensures out == Output(groups)
    {
      groups := BuildGroups(input, keys, init);
      out := Output(groups);
    }
  }
}
