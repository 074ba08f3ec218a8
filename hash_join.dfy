/**
 * `ra/physical/hash_join.h`: the physical HashJoin operator. `ToRange`
 * clears `left_hash_`, builds it from the left child (key -> left rows in
 * order), then for each right row yields `left ++ right` for every left row
 * in the bucket of the right row's key.
 */
module PhysicalHashJoin {
  import TupleUtil
  import opened Relations

  type Row = seq<int>

  /** Every row has the key columns. */
  predicate KeysFit(rows: seq<Row>, keys: seq<nat>)
  {
    forall i :: 0 <= i < |rows| ==> TupleUtil.InRange(rows[i], keys)
  }

  /** `left_hash_[k]` read without the side effect: absent keys hold no rows. */
  function Bucket(h: map<Row, seq<Row>>, k: Row): seq<Row>
  {
    if k in h then h[k] else []
  }

  /** The hash table after the build loop over the left rows. */
  function Buckets(left: seq<Row>, lk: seq<nat>): map<Row, seq<Row>>
    requires KeysFit(left, lk)
  {
    if left == [] then map[]
    else
      var h := Buckets(left[..|left| - 1], lk);
      var l := left[|left| - 1];
      var k := Key(l, lk);
      h[k := Bucket(h, k) + [l]]
  }

  /** Each bucket holds the left rows with its key, in input order, and only keys of the left rows have one. */
  lemma {:induction false} BucketsSpec(left: seq<Row>, lk: seq<nat>)
    requires KeysFit(left, lk)
    ensures Buckets(left, lk).Keys == KeysOf(left, lk)
    ensures forall k :: Bucket(Buckets(left, lk), k) == Matching(left, lk, k)
  {
    if left != [] {
      var p := left[..|left| - 1];
      BucketsSpec(p, lk);
      assert KeysOf(left, lk) == KeysOf(p, lk) + {Key(left[|left| - 1], lk)} by {
        assert forall i :: 0 <= i < |p| ==> p[i] == left[i];
      }
    }
  }

  /** Every left row of a bucket followed by the right row. */
  function Pair(ls: seq<Row>, r: Row): (out: seq<Row>)
    ensures |out| == |ls| && forall i :: 0 <= i < |ls| ==> out[i] == ls[i] + r
  {
    seq(|ls|, i requires 0 <= i < |ls| => ls[i] + r)
  }

  /** The probe over the right rows, against hash table h. */
  function Probe(h: map<Row, seq<Row>>, right: seq<Row>, rk: seq<nat>): seq<Row>
    requires KeysFit(right, rk)
  {
    if right == [] then []
    else
      var r := right[|right| - 1];
      Probe(h, right[..|right| - 1], rk) + Pair(Bucket(h, Key(r, rk)), r)
  }

  /** The hash table after the probe: `operator[]` adds an empty bucket for every missing right key. */
  function Touched(h: map<Row, seq<Row>>, right: seq<Row>, rk: seq<nat>): map<Row, seq<Row>>
    requires KeysFit(right, rk)
  {
    map k | k in h.Keys + KeysOf(right, rk) :: Bucket(h, k)
  }

  /** The output of `ToRange`. */
  function Joined(left: seq<Row>, right: seq<Row>, lk: seq<nat>, rk: seq<nat>): seq<Row>
    requires KeysFit(left, lk) && KeysFit(right, rk)
  {
    Probe(Buckets(left, lk), right, rk)
  }

  /** The reference definition: a nested-loop join, right rows outside, left rows inside. */
  function NestedLoopJoin(left: seq<Row>, right: seq<Row>, lk: seq<nat>, rk: seq<nat>): seq<Row>
    requires KeysFit(left, lk) && KeysFit(right, rk)
  {
    if right == [] then []
    else
      var r := right[|right| - 1];
      NestedLoopJoin(left, right[..|right| - 1], lk, rk) + Pair(Matching(left, lk, Key(r, rk)), r)
  }

  /** The hash join computes the nested-loop join, in the same order. */
  lemma {:induction false} HashJoinIsNestedLoop(left: seq<Row>, right: seq<Row>, lk: seq<nat>, rk: seq<nat>)
    requires KeysFit(left, lk) && KeysFit(right, rk)
    ensures Joined(left, right, lk, rk) == NestedLoopJoin(left, right, lk, rk)
  {
    BucketsSpec(left, lk);
    if right != [] {
      var p := right[..|right| - 1];
      HashJoinIsNestedLoop(left, p, lk, rk);
    }
  }

  /**
   * The output holds exactly the concatenations `l ++ r` of a left row and a
   * right row whose projected keys are equal, compared position by position.
   */
  lemma {:induction false} JoinMembership(left: seq<Row>, right: seq<Row>, lk: seq<nat>, rk: seq<nat>)
    requires KeysFit(left, lk) && KeysFit(right, rk)
    ensures forall x :: x in NestedLoopJoin(left, right, lk, rk) <==> Joinable(left, right, lk, rk, x)
  {
    if right != [] {
      var p := right[..|right| - 1];
      JoinMembership(left, p, lk, rk);
      forall x ensures x in NestedLoopJoin(left, right, lk, rk) <==> Joinable(left, right, lk, rk, x) {
        JoinMembershipStep(left, right, p, lk, rk, x);
      }
    }
  }

  /** x is `l ++ r` for a left row l and a right row r with equal keys. */
  predicate Joinable(left: seq<Row>, right: seq<Row>, lk: seq<nat>, rk: seq<nat>, x: Row)
    requires KeysFit(left, lk) && KeysFit(right, rk)
  {
    exists i, j :: 0 <= i < |left| && 0 <= j < |right| &&
      Key(left[i], lk) == Key(right[j], rk) && x == left[i] + right[j]
  }

  lemma JoinMembershipStep(left: seq<Row>, right: seq<Row>, p: seq<Row>, lk: seq<nat>, rk: seq<nat>, x: Row)
    requires KeysFit(left, lk) && KeysFit(right, rk)
    requires right != [] && p == right[..|right| - 1]
    requires x in NestedLoopJoin(left, p, lk, rk) <==> Joinable(left, p, lk, rk, x)
    ensures x in NestedLoopJoin(left, right, lk, rk) <==> Joinable(left, right, lk, rk, x)
  {
    var r := right[|right| - 1];
    var m := Matching(left, lk, Key(r, rk));
    assert NestedLoopJoin(left, right, lk, rk) == NestedLoopJoin(left, p, lk, rk) + Pair(m, r);
    if x in NestedLoopJoin(left, p, lk, rk) {
      JoinableExtends(left, right, p, lk, rk, x);
    } else if x in Pair(m, r) {
      PairJoinable(left, right, lk, rk, x);
    }
    if Joinable(left, right, lk, rk, x) {
      JoinableSplits(left, right, p, lk, rk, x);
    }
  }

  /** A join of the shorter right side is a join of the longer one. */
  lemma JoinableExtends(left: seq<Row>, right: seq<Row>, p: seq<Row>, lk: seq<nat>, rk: seq<nat>, x: Row)
    requires KeysFit(left, lk) && KeysFit(right, rk)
    requires right != [] && p == right[..|right| - 1]
    requires Joinable(left, p, lk, rk, x)
    ensures Joinable(left, right, lk, rk, x)
  {
    var i, j :| 0 <= i < |left| && 0 <= j < |p| && Key(left[i], lk) == Key(p[j], rk) && x == left[i] + p[j];
    assert right[j] == p[j];
  }

  /** The last right row's pairs join a left row with that right row. */
  lemma PairJoinable(left: seq<Row>, right: seq<Row>, lk: seq<nat>, rk: seq<nat>, x: Row)
    requires KeysFit(left, lk) && KeysFit(right, rk) && right != []
    requires x in Pair(Matching(left, lk, Key(right[|right| - 1], rk)), right[|right| - 1])
    ensures Joinable(left, right, lk, rk, x)
  {
    var n := |right| - 1;
    var r := right[n];
    var m := Matching(left, lk, Key(r, rk));
    MatchingSpec(left, lk, Key(r, rk));
    var a :| 0 <= a < |m| && Pair(m, r)[a] == x;
    assert m[a] in m;
    var i :| 0 <= i < |left| && left[i] == m[a] && Key(left[i], lk) == Key(r, rk);
    assert Key(left[i], lk) == Key(right[n], rk) && x == left[i] + right[n];
  }

  /** A join of the longer right side joins a row of the shorter one or the last right row. */
  lemma JoinableSplits(left: seq<Row>, right: seq<Row>, p: seq<Row>, lk: seq<nat>, rk: seq<nat>, x: Row)
    requires KeysFit(left, lk) && KeysFit(right, rk)
    requires right != [] && p == right[..|right| - 1]
    requires Joinable(left, right, lk, rk, x)
    ensures Joinable(left, p, lk, rk, x) ||
      x in Pair(Matching(left, lk, Key(right[|right| - 1], rk)), right[|right| - 1])
  {
    var n := |right| - 1;
    var i, j :| 0 <= i < |left| && 0 <= j < |right| &&
      Key(left[i], lk) == Key(right[j], rk) && x == left[i] + right[j];
    if j < n {
      assert p[j] == right[j];
    } else {
      var r := right[n];
      var m := Matching(left, lk, Key(r, rk));
      MatchingSpec(left, lk, Key(r, rk));
      assert left[i] in m;
      var a :| 0 <= a < |m| && m[a] == left[i];
      assert Pair(m, r)[a] == x;
    }
  }

  /** If either side is empty, so is the output. */
  lemma {:induction false} EmptySide(left: seq<Row>, right: seq<Row>, lk: seq<nat>, rk: seq<nat>)
    requires KeysFit(left, lk) && KeysFit(right, rk)
    requires left == [] || right == []
    ensures Joined(left, right, lk, rk) == []
  {
    HashJoinIsNestedLoop(left, right, lk, rk);
    NestedLoopEmpty(left, right, lk, rk);
  }

  lemma {:induction false} NestedLoopEmpty(left: seq<Row>, right: seq<Row>, lk: seq<nat>, rk: seq<nat>)
    requires KeysFit(left, lk) && KeysFit(right, rk)
    requires left == [] || right == []
    ensures NestedLoopJoin(left, right, lk, rk) == []
  {
    if right != [] {
      NestedLoopEmpty(left, right[..|right| - 1], lk, rk);
    }
  }

  /** The build loop of `ToRange`, pushing each left row onto its key's bucket. */
  method BuildHash(left: seq<Row>, lk: seq<nat>) returns (h: map<Row, seq<Row>>)
    requires KeysFit(left, lk)
    ensures h == Buckets(left, lk)
  {
    h := map[];
    var i := 0;
    while i < |left|
      invariant 0 <= i <= |left|
      invariant h == Buckets(left[..i], lk)
    {
      var k := Key(left[i], lk);
      BuildStep(left, lk, i);
      h := h[k := Bucket(h, k) + [left[i]]];
      i := i + 1;
    }
    assert left[..i] == left;
  }

  /** Building over one more left row pushes it onto its key's bucket. */
  lemma BuildStep(left: seq<Row>, lk: seq<nat>, i: nat)
    requires KeysFit(left, lk) && i < |left|
    ensures var h := Buckets(left[..i], lk);
      var k := Key(left[i], lk);
      Buckets(left[..i + 1], lk) == h[k := Bucket(h, k) + [left[i]]]
  {
    var q := left[..i + 1];
    assert q[..|q| - 1] == left[..i];
    assert q[|q| - 1] == left[i];
  }

  /** Probing one more right row extends the output by its pairs and touches its key. */
  lemma ProbeStep(h0: map<Row, seq<Row>>, right: seq<Row>, rk: seq<nat>, i: nat)
    requires KeysFit(right, rk) && i < |right|
    ensures var k := Key(right[i], rk);
      Probe(h0, right[..i + 1], rk) == Probe(h0, right[..i], rk) + Pair(Bucket(h0, k), right[i]) &&
      Touched(h0, right[..i + 1], rk) == Touched(h0, right[..i], rk)[k := Bucket(h0, k)] &&
      Bucket(Touched(h0, right[..i], rk), k) == Bucket(h0, k)
  {
    var k := Key(right[i], rk);
    var q := right[..i + 1];
    assert q[..i] == right[..i];
    assert q[i] == right[i];
    KeysOfSnoc(right, rk, i);
    var t := Touched(h0, right[..i], rk);
    var t' := Touched(h0, q, rk);
    assert t'.Keys == t.Keys + {k};
    assert t' == t[k := Bucket(h0, k)];
  }

  /** The probe of `ToRange`: looks each right row's key up with `operator[]`. */
  method ProbeHash(h0: map<Row, seq<Row>>, right: seq<Row>, rk: seq<nat>) returns (out: seq<Row>, h: map<Row, seq<Row>>)
    requires KeysFit(right, rk)
    ensures out == Probe(h0, right, rk)
    ensures h == Touched(h0, right, rk)
  {
    out, h := [], h0;
    var i := 0;
    while i < |right|
      invariant 0 <= i <= |right|
      invariant out == Probe(h0, right[..i], rk)
      invariant h == Touched(h0, right[..i], rk)
    {
      var r := right[i];
      var k := Key(r, rk);
      // `operator[]`: the key's bucket, created empty when missing
      var b := Bucket(h, k);
      h := h[k := b];
      out := out + Pair(b, r);
      ProbeStep(h0, right, rk, i);
      i := i + 1;
    }
    assert right[..i] == right;
  }

  /** `HashJoin<Left, LeftKeys<LeftKs...>, Right, RightKeys<RightKs...>, ...>`. */
  class HashJoin {
    const leftKeys: seq<nat>
    const rightKeys: seq<nat>
    var leftHash: map<Row, seq<Row>>

    constructor (leftKeys: seq<nat>, rightKeys: seq<nat>)
      ensures this.leftKeys == leftKeys && this.rightKeys == rightKeys && leftHash == map[]
    {
      this.leftKeys, this.rightKeys := leftKeys, rightKeys;
      leftHash := map[];
    }

    /**
     * `ToRange()` over the children's rows. The table is rebuilt from
     * scratch; afterwards it also holds an empty bucket for each right key
     * that no left row has.
     */
    method ToRange(left: seq<Row>, right: seq<Row>) returns (out: seq<Row>)
      requires KeysFit(left, leftKeys) && KeysFit(right, rightKeys)
      modifies this
      ensures out == Joined(left, right, leftKeys, rightKeys)
      ensures leftHash == Touched(Buckets(left, leftKeys), right, rightKeys)
    {
      leftHash := map[];
      leftHash := BuildHash(left, leftKeys);
      out, leftHash := ProbeHash(leftHash, right, rightKeys);
    }
  }
}
