/**
 * `ra/aggregates.h`: the `SumImpl` and `CountImpl` aggregates. An aggregate
 * is fed one row at a time through `Update` and reports its result through
 * `Get`; here an aggregate is a value that `Update` returns updated.
 */
module Aggregates {

  type Row = seq<int>

  /** `count_` is a `std::size_t`: it wraps around at 2^64. */
  const SIZE_T_MODULUS: nat := 0x1_0000_0000_0000_0000

  datatype Aggregate =
    | SumImpl(column: nat, sum: int)
    | CountImpl(column: nat, count: nat)

  /** `SumImpl()`: the sum starts at the value-initialised zero. */
  function NewSum(column: nat): (a: Aggregate)
    ensures a.SumImpl? && a.column == column && Get(a) == 0
  {
    SumImpl(column, 0)
  }

  /** `CountImpl()`: the count starts at 0. */
  function NewCount(column: nat): (a: Aggregate)
    ensures a.CountImpl? && a.column == column && Get(a) == 0
  {
    CountImpl(column, 0)
  }

  predicate Fits(a: Aggregate, row: Row)
  {
    a.column < |row|
  }

  /**
   * `Update(x)` with x the aggregate's column of the row: `sum_ += x`, or
   * `count_++` modulo 2^64.
   */
  function Update(a: Aggregate, row: Row): (r: Aggregate)
    requires Fits(a, row)
    ensures r.column == a.column && r.SumImpl? == a.SumImpl?
  {
    match a
    case SumImpl(c, s) => SumImpl(c, s + row[c])
    case CountImpl(c, n) => CountImpl(c, (n + 1) % SIZE_T_MODULUS)
  }

  /** `Get()`. */
  function Get(a: Aggregate): int
  {
    match a
    case SumImpl(_, s) => s
    case CountImpl(_, n) => n
  }

  /** Every row fed to the aggregate, in order. */
  function UpdateAll(a: Aggregate, rows: seq<Row>): (r: Aggregate)
    requires forall i :: 0 <= i < |rows| ==> Fits(a, rows[i])
    ensures r.column == a.column && r.SumImpl? == a.SumImpl?
  {
    if rows == [] then a
    else
      var prev := UpdateAll(a, rows[..|rows| - 1]);
      assert Fits(a, rows[|rows| - 1]);
      Update(prev, rows[|rows| - 1])
  }

  /** The sum of column c over the rows. */
  function SumColumn(rows: seq<Row>, c: nat): int
    requires forall i :: 0 <= i < |rows| ==> c < |rows[i]|
  {
    if rows == [] then 0 else SumColumn(rows[..|rows| - 1], c) + rows[|rows| - 1][c]
  }

  /** Each `Update` adds the row's column value to the sum; a fresh sum ends as the column total. */
  lemma {:induction false} SumSpec(a: Aggregate, rows: seq<Row>)
    requires a.SumImpl?
    requires forall i :: 0 <= i < |rows| ==> Fits(a, rows[i])
    ensures Get(UpdateAll(a, rows)) == Get(a) + SumColumn(rows, a.column)
  {
    if rows != [] {
      SumSpec(a, rows[..|rows| - 1]);
    }
  }

  /**
   * Each `Update` adds exactly one to the count modulo 2^64; a fresh count
   * ends as the number of rows modulo 2^64.
   */
  lemma {:induction false} CountSpec(a: Aggregate, rows: seq<Row>)
    requires a.CountImpl? && a.count < SIZE_T_MODULUS
    requires forall i :: 0 <= i < |rows| ==> Fits(a, rows[i])
    ensures Get(UpdateAll(a, rows)) == (Get(a) + |rows|) % SIZE_T_MODULUS
  {
    if rows != [] {
      var n := |rows| - 1;
      CountSpec(a, rows[..n]);
      WrapSucc(Get(a) + n);
    }
  }

  /** A fresh count ends as the number of rows modulo 2^64. */
  lemma FreshCount(a: Aggregate, rows: seq<Row>)
    requires a.CountImpl? && a.count == 0
    requires forall i :: 0 <= i < |rows| ==> Fits(a, rows[i])
    ensures Get(UpdateAll(a, rows)) == |rows| % SIZE_T_MODULUS
  {
    CountSpec(a, rows);
  }

  lemma WrapSucc(x: nat)
    ensures (x % SIZE_T_MODULUS + 1) % SIZE_T_MODULUS == (x + 1) % SIZE_T_MODULUS
  {
    var q := x / SIZE_T_MODULUS;
    var r := x % SIZE_T_MODULUS;
    assert x + 1 == q * SIZE_T_MODULUS + (r + 1);
    if r + 1 < SIZE_T_MODULUS {
      assert (x + 1) % SIZE_T_MODULUS == r + 1;
    } else {
      assert x + 1 == (q + 1) * SIZE_T_MODULUS;
      assert (x + 1) % SIZE_T_MODULUS == 0;
    }
  }
}
