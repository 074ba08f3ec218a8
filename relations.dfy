/**
 * The relational vocabulary shared by the physical operators: the key a row
 * projects to (`TupleProject<Ks...>` of `ra/keys.h`) and the rows that share
 * a key.
 */
module Relations {
  import TupleUtil

  /** `TupleProject<Ks...>(t)`: the grouping key of a row. */
  function Key<T>(row: seq<T>, keys: seq<nat>): seq<T>
    requires TupleUtil.InRange(row, keys)
  {
    TupleUtil.TupleProject(row, keys)
  }

  /** The rows whose key is k, in order. */
  function Matching<T(==)>(rows: seq<seq<T>>, keys: seq<nat>, k: seq<T>): (r: seq<seq<T>>)
    requires forall i :: 0 <= i < |rows| ==> TupleUtil.InRange(rows[i], keys)
    ensures forall i :: 0 <= i < |r| ==> r[i] in rows
  {
    if rows == [] then []
    else
      var prev := Matching(rows[..|rows| - 1], keys, k);
      var row := rows[|rows| - 1];
      if Key(row, keys) == k then prev + [row] else prev
  }

  /** The keys of the rows. */
  function KeysOf<T(==)>(rows: seq<seq<T>>, keys: seq<nat>): set<seq<T>>
    requires forall i :: 0 <= i < |rows| ==> TupleUtil.InRange(rows[i], keys)
  {
    set i | 0 <= i < |rows| :: Key(rows[i], keys)
  }

  /** The keys of a prefix one row longer gain that row's key. */
  lemma KeysOfSnoc<T>(rows: seq<seq<T>>, keys: seq<nat>, i: nat)
    requires forall j :: 0 <= j < |rows| ==> TupleUtil.InRange(rows[j], keys)
    requires i < |rows|
    ensures KeysOf(rows[..i + 1], keys) == KeysOf(rows[..i], keys) + {Key(rows[i], keys)}
  {
    var q := rows[..i + 1];
    assert forall j :: 0 <= j < i ==> q[j] == rows[..i][j];
    assert q[i] == rows[i];
  }

  lemma {:induction false} MatchingEmpty<T>(rows: seq<seq<T>>, keys: seq<nat>, k: seq<T>)
    requires forall i :: 0 <= i < |rows| ==> TupleUtil.InRange(rows[i], keys)
    requires k !in KeysOf(rows, keys)
    ensures Matching(rows, keys, k) == []
  {
    if rows != [] {
      var p := rows[..|rows| - 1];
      assert KeysOf(p, keys) <= KeysOf(rows, keys) by {
        assert forall i :: 0 <= i < |p| ==> p[i] == rows[i];
      }
      MatchingEmpty(p, keys, k);
      assert Key(rows[|rows| - 1], keys) in KeysOf(rows, keys);
    }
  }

  /** The matching rows are exactly the rows whose key is k. */
  lemma {:induction false} MatchingSpec<T>(rows: seq<seq<T>>, keys: seq<nat>, k: seq<T>)
    requires forall i :: 0 <= i < |rows| ==> TupleUtil.InRange(rows[i], keys)
    ensures forall x :: x in Matching(rows, keys, k) <==>
      exists i :: 0 <= i < |rows| && rows[i] == x && Key(rows[i], keys) == k
  {
    if rows != [] {
      var p := rows[..|rows| - 1];
      var n := |rows| - 1;
      MatchingSpec(p, keys, k);
      forall x ensures x in Matching(rows, keys, k) <==>
        exists i :: 0 <= i < |rows| && rows[i] == x && Key(rows[i], keys) == k
      {
        if x in Matching(rows, keys, k) {
          if x in Matching(p, keys, k) {
            var i :| 0 <= i < |p| && p[i] == x && Key(p[i], keys) == k;
            assert rows[i] == p[i];
          } else {
            assert rows[n] == x && Key(rows[n], keys) == k;
          }
        }
        if exists i :: 0 <= i < |rows| && rows[i] == x && Key(rows[i], keys) == k {
          var i :| 0 <= i < |rows| && rows[i] == x && Key(rows[i], keys) == k;
          if i < n {
            assert p[i] == x;
          }
        }
      }
    }
  }
}
