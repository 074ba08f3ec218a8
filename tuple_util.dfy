/**
 * `common/tuple_util.h` on tuples whose elements are modelled as a sequence
 * (the element types of a `std::tuple` are fixed at compile time; every
 * operation here only moves elements around or hands them to a callback).
 */
module TupleUtil {
  import opened CommonStatus
  import StringUtil

  // ---------------------------------------------------------------------
  // Index lists (`SizetList`) and projection

  /** `std::make_index_sequence<n>`: 0, 1, ..., n-1. */
  function Indices(n: nat): (r: seq<nat>)
    ensures |r| == n && forall k :: 0 <= k < n ==> r[k] == k
  {
    if n == 0 then [] else Indices(n - 1) + [n - 1]
  }

  /** `SizetListTake<ids, N>`: the first N indices, or all of them when there are fewer. */
  function SizetListTake(ids: seq<nat>, n: nat): seq<nat>
  {
    if n == 0 || ids == [] then [] else [ids[0]] + SizetListTake(ids[1..], n - 1)
  }

  /** `SizetListDrop<ids, N>`: what is left after the first N indices. */
  function SizetListDrop(ids: seq<nat>, n: nat): seq<nat>
  {
    if n == 0 || ids == [] then ids else SizetListDrop(ids[1..], n - 1)
  }

  lemma {:induction false} SizetListTakeDrop(ids: seq<nat>, n: nat)
    ensures var m := if n < |ids| then n else |ids|;
      SizetListTake(ids, n) == ids[..m] && SizetListDrop(ids, n) == ids[m..]
  {
    if n != 0 && ids != [] {
      SizetListTakeDrop(ids[1..], n - 1);
      var m := if n < |ids| then n else |ids|;
      assert ids[..m] == [ids[0]] + ids[1..][..m - 1];
      assert ids[m..] == ids[1..][m - 1..];
    }
  }

  predicate InRange<T>(t: seq<T>, ids: seq<nat>)
  {
    forall k :: 0 <= k < |ids| ==> ids[k] < |t|
  }

  /** `TupleProject<I1, ..., In>(t)`, the `tuple_cat` of `make_tuple(get<Ik>(t))`. */
  function TupleProject<T>(t: seq<T>, ids: seq<nat>): (r: seq<T>)
    requires InRange(t, ids)
  {
    if ids == [] then [] else [t[ids[0]]] + TupleProject(t, ids[1..])
  }

  /** The projection is (t[I1], ..., t[In]); an index may appear several times. */
  lemma {:induction false} TupleProjectSpec<T>(t: seq<T>, ids: seq<nat>)
    requires InRange(t, ids)
    ensures |TupleProject(t, ids)| == |ids|
    ensures forall k :: 0 <= k < |ids| ==> TupleProject(t, ids)[k] == t[ids[k]]
  {
    if ids != [] {
      TupleProjectSpec(t, ids[1..]);
    }
  }

  /** `TupleTake<N>(t)`: the projection on the first N indices of t. */
  function TupleTake<T>(t: seq<T>, n: nat): (r: seq<T>)
  {
    SizetListTakeDrop(Indices(|t|), n);
    TupleProject(t, SizetListTake(Indices(|t|), n))
  }

  /** `TupleDrop<N>(t)`: the projection on the indices of t from N on. */
  function TupleDrop<T>(t: seq<T>, n: nat): (r: seq<T>)
  {
    SizetListTakeDrop(Indices(|t|), n);
    TupleProject(t, SizetListDrop(Indices(|t|), n))
  }

  /** Take keeps the first min(N, |t|) elements and Drop the others, so together they rebuild t. */
  lemma TakeDropSpec<T>(t: seq<T>, n: nat)
    ensures var m := if n < |t| then n else |t|;
      TupleTake(t, n) == t[..m] && TupleDrop(t, n) == t[m..] &&
      TupleTake(t, n) + TupleDrop(t, n) == t
  {
    var ids := Indices(|t|);
    SizetListTakeDrop(ids, n);
    var m := if n < |t| then n else |t|;
    ProjectIndexRange(t, 0, m);
    ProjectIndexRange(t, m, |t|);
    assert ids[0..m] == ids[..m] && ids[m..|t|] == ids[m..];
    assert t[0..m] == t[..m] && t[m..|t|] == t[m..];
    assert t[..m] + t[m..] == t;
  }

  /** Projecting t on a slice of its own indices gives the same slice of t. */
  lemma ProjectIndexRange<T>(t: seq<T>, lo: nat, hi: nat)
    requires lo <= hi <= |t|
    ensures InRange(t, Indices(|t|)[lo..hi]) && TupleProject(t, Indices(|t|)[lo..hi]) == t[lo..hi]
  {
    var all := Indices(|t|);
    var ids := all[lo..hi];
    forall k | 0 <= k < |ids|
      ensures ids[k] == lo + k
    {
      assert ids[k] == all[lo + k];
    }
    TupleProjectSpec(t, ids);
    var r := TupleProject(t, ids);
    forall k | 0 <= k < |r|
      ensures r[k] == t[lo..hi][k]
    {
      assert r[k] == t[ids[k]];
    }
  }

  // ---------------------------------------------------------------------
  // Folds

  /** `detail::TupleFoldImpl<I>`: thread `acc` through f from index i to the end. */
  function FoldFrom<A, T>(acc: A, t: seq<T>, f: (A, T) -> A, i: nat): A
    requires i <= |t|
    decreases |t| - i
  {
    if i == |t| then acc else FoldFrom(f(acc, t[i]), t, f, i + 1)
  }

  /** `TupleFold(a, t, f)`. */
  function TupleFold<A, T>(acc: A, t: seq<T>, f: (A, T) -> A): A
  {
    FoldFrom(acc, t, f, 0)
  }

  /** The documented meaning, `f(f(f(a, x), y), z)`: f applied last to the last element. */
  function FoldLeft<A, T>(acc: A, t: seq<T>, f: (A, T) -> A): A
  {
    if t == [] then acc else f(FoldLeft(acc, t[..|t| - 1], f), t[|t| - 1])
  }

  lemma {:induction false} FoldFromSpec<A, T>(acc: A, t: seq<T>, f: (A, T) -> A, i: nat)
    requires i <= |t|
    ensures FoldFrom(FoldLeft(acc, t[..i], f), t, f, i) == FoldLeft(acc, t, f)
    decreases |t| - i
  {
    if i < |t| {
      assert t[..i + 1][..i] == t[..i];
      FoldFromSpec(acc, t, f, i + 1);
    } else {
      assert t[..i] == t;
    }
  }

  lemma TupleFoldIsLeftFold<A, T>(acc: A, t: seq<T>, f: (A, T) -> A)
    ensures TupleFold(acc, t, f) == FoldLeft(acc, t, f)
  {
    assert t[..0] == [];
    FoldFromSpec(acc, t, f, 0);
  }

  // ---------------------------------------------------------------------
  // Status short-circuiting

  function IterStatusStep<T>(f: T -> Status): (Status, T) -> Status
  {
    (s: Status, x: T) => if Ok(s) then f(x) else s
  }

  /** `TupleIterStatus(t, f)`: f on each element while every call so far returned OK. */
  function TupleIterStatus<T>(t: seq<T>, f: T -> Status): Status
  {
    TupleFold(DefaultStatus(), t, IterStatusStep(f))
  }

  /** The index of the first element on which f fails, or |t| when there is none. */
  function FirstFailure<T>(t: seq<T>, f: T -> Status): (k: nat)
    ensures k <= |t|
    ensures forall j :: 0 <= j < k ==> Ok(f(t[j]))
    ensures k < |t| ==> !Ok(f(t[k]))
  {
    if t == [] || !Ok(f(t[0])) then 0
    else
      var k := 1 + FirstFailure(t[1..], f);
      assert forall j :: 1 <= j < k ==> t[j] == t[1..][j - 1];
      k
  }

  lemma {:induction false} FoldLeftIterStatus<T>(t: seq<T>, f: T -> Status)
    ensures var k := FirstFailure(t, f);
      FoldLeft(DefaultStatus(), t, IterStatusStep(f)) ==
        if k < |t| then f(t[k]) else DefaultStatus()
  {
    if t != [] {
      var p := t[..|t| - 1];
      FoldLeftIterStatus(p, f);
      FirstFailurePrefix(t, f);
    }
  }

  lemma {:induction false} FirstFailurePrefix<T>(t: seq<T>, f: T -> Status)
    requires t != []
    ensures var k, kp := FirstFailure(t, f), FirstFailure(t[..|t| - 1], f);
      (kp < |t| - 1 ==> k == kp) && (kp == |t| - 1 ==> k == |t| - 1 || k == |t|)
  {
    var p := t[..|t| - 1];
    var k, kp := FirstFailure(t, f), FirstFailure(p, f);
    assert forall j :: 0 <= j < |p| ==> p[j] == t[j];
    if kp < |p| {
      assert !Ok(f(t[kp]));
      assert k <= kp;
    } else {
      assert forall j :: 0 <= j < |p| ==> Ok(f(t[j]));
      assert k >= |p|;
    }
  }

  /**
   * `TupleIterStatus` returns the status of the first failing call, or OK
   * when every call succeeds.
   */
  lemma TupleIterStatusSpec<T>(t: seq<T>, f: T -> Status)
    ensures var k := FirstFailure(t, f);
      TupleIterStatus(t, f) == if k < |t| then f(t[k]) else DefaultStatus()
    ensures Ok(TupleIterStatus(t, f)) <==> forall j :: 0 <= j < |t| ==> Ok(f(t[j]))
  {
    TupleFoldIsLeftFold(DefaultStatus(), t, IterStatusStep(f));
    FoldLeftIterStatus(t, f);
  }

  function IteriStatusCall<T>(f: (nat, T) -> Status, acc: (Status, nat), x: T): (Status, nat)
  {
    if Ok(acc.0) then (f(acc.1, x), acc.1 + 1) else acc
  }

  function IteriStatusStep<T>(f: (nat, T) -> Status): ((Status, nat), T) -> (Status, nat)
  {
    (acc: (Status, nat), x: T) => IteriStatusCall(f, acc, x)
  }

  /**
   * `TupleIteriStatus(t, f)` with its accumulator: the status so far and the
   * number of calls of f made so far, which is also the next index.
   */
  function TupleIteriStatusAcc<T>(t: seq<T>, f: (nat, T) -> Status): (Status, nat)
  {
    TupleFold((DefaultStatus(), 0), t, IteriStatusStep(f))
  }

  function TupleIteriStatus<T>(t: seq<T>, f: (nat, T) -> Status): Status
  {
    TupleIteriStatusAcc(t, f).0
  }

  /** The index of the first i with f(i, t[i]) failing, or |t|. */
  function FirstIndexedFailure<T>(t: seq<T>, f: (nat, T) -> Status, from: nat): (k: nat)
    requires from <= |t|
    ensures from <= k <= |t|
    ensures forall j :: from <= j < k ==> Ok(f(j, t[j]))
    ensures k < |t| ==> !Ok(f(k, t[k]))
    decreases |t| - from
  {
    if from == |t| || !Ok(f(from, t[from])) then from else FirstIndexedFailure(t, f, from + 1)
  }

  lemma {:induction false} IteriStatusFrom<T>(t: seq<T>, f: (nat, T) -> Status, i: nat)
    requires i <= |t|
    ensures var k := FirstIndexedFailure(t, f, i);
      FoldFrom((DefaultStatus(), i), t, IteriStatusStep(f), i) ==
        if k < |t| then (f(k, t[k]), k + 1) else (DefaultStatus(), |t|)
    decreases |t| - i
  {
    if i < |t| {
      var s := f(i, t[i]);
      if Ok(s) {
        assert s == DefaultStatus();
        IteriStatusFrom(t, f, i + 1);
      } else {
        StoppedFold(t, f, (s, i + 1), i + 1);
      }
    }
  }

  lemma {:induction false} StoppedFold<T>(t: seq<T>, f: (nat, T) -> Status, acc: (Status, nat), i: nat)
    requires i <= |t| && !Ok(acc.0)
    ensures FoldFrom(acc, t, IteriStatusStep(f), i) == acc
    decreases |t| - i
  {
    if i < |t| {
      StoppedFold(t, f, acc, i + 1);
    }
  }

  /**
   * `TupleIteriStatus` calls f(0, t[0]), f(1, t[1]), ... up to and including
   * the first failing call and no further: it returns that call's status, and
   * the call count is k+1; with no failure it returns OK after |t| calls.
   */
  lemma TupleIteriStatusSpec<T>(t: seq<T>, f: (nat, T) -> Status)
    ensures var k := FirstIndexedFailure(t, f, 0);
      TupleIteriStatusAcc(t, f) == if k < |t| then (f(k, t[k]), k + 1) else (DefaultStatus(), |t|)
  {
    IteriStatusFrom(t, f, 0);
  }

  // ---------------------------------------------------------------------
  // Printing

  /** `TupleIteri(t, f)` for an f that updates a state: f(0, t[0]), then f(1, t[1]), ... */
  function IteriFrom<S, T>(state: S, t: seq<T>, f: (S, nat, T) -> S, i: nat): S
    requires i <= |t|
    decreases |t| - i
  {
    if i == |t| then state else IteriFrom(f(state, i, t[i]), t, f, i + 1)
  }

  /** The body of `operator<<`'s callback: the element, then ", " unless it is the last. */
  function PrintElement(n: nat): (string, nat, string) -> string
  {
    (out: string, i: nat, x: string) => if i == n - 1 then out + x else out + x + ", "
  }

  /** `operator<<` on a tuple whose elements print as the given strings. */
  function PrintTuple(t: seq<string>): string
  {
    "(" + IteriFrom("", t, PrintElement(|t|), 0) + ")"
  }

  lemma {:induction false} PrintFrom(t: seq<string>, i: nat)
    requires 0 < i <= |t|
    ensures IteriFrom(StringUtil.Join(StringUtil.Texts(t[..i])) + (if i < |t| then ", " else ""), t, PrintElement(|t|), i)
      == StringUtil.Join(StringUtil.Texts(t))
    decreases |t| - i
  {
    if i < |t| {
      assert t[..i + 1] == t[..i] + [t[i]];
      assert StringUtil.Texts(t[..i + 1]) == StringUtil.Texts(t[..i]) + [StringUtil.Text(t[i])];
      StringUtil.JoinSnoc(StringUtil.Texts(t[..i]), StringUtil.Text(t[i]));
      PrintFrom(t, i + 1);
    } else {
      assert t[..i] == t;
    }
  }

  /** A tuple prints as "(" then its elements joined by ", " then ")", e.g. "(1, 2, 3)". */
  lemma PrintTupleSpec(t: seq<string>)
    ensures PrintTuple(t) == "(" + StringUtil.Join(StringUtil.Texts(t)) + ")"
  {
    if t != [] {
      var g := PrintElement(|t|);
      assert IteriFrom("", t, g, 0) == IteriFrom(g("", 0, t[0]), t, g, 1);
      assert g("", 0, t[0]) == t[0] + (if 1 < |t| then ", " else "");
      assert t[..1] == [t[0]];
      assert StringUtil.Texts(t[..1]) == [StringUtil.Text(t[0])];
      PrintFrom(t, 1);
    }
  }
}
