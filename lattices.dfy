/**
 * The lattices of `fluent/`: bool, last-writer-wins, set and map lattices,
 * each of whose `merge` folds another value into the element held in place.
 */
module Lattices {

  // ---------------------------------------------------------------------
  // BoolLattice

  /** `BoolLattice::convert`: 1 for true, 0 for false. */
  function Convert(b: bool): int
  {
    if b then 1 else 0
  }

  /** The comparison operators of `BoolLattice`, all through `convert`. */
  predicate BoolLess(a: bool, b: bool) { Convert(a) < Convert(b) }
  predicate BoolGreater(a: bool, b: bool) { Convert(a) > Convert(b) }
  predicate BoolGreaterEq(a: bool, b: bool) { Convert(a) >= Convert(b) }
  predicate BoolEq(a: bool, b: bool) { Convert(a) == Convert(b) }

  /** The order is false < true, and `==` through `convert` is equality of the elements. */
  lemma BoolOrder(a: bool, b: bool)
    ensures BoolLess(a, b) <==> !a && b
    ensures BoolGreater(a, b) <==> a && !b
    ensures BoolGreaterEq(a, b) <==> a || !b
    ensures BoolEq(a, b) <==> a == b
  {
  }

  class BoolLattice {
    var element: bool

    /** `BoolLattice(name)`: the name constructor value-initialises the element (`element_()`) to false; names are not modelled. */
    constructor ()
      ensures element == false
    {
      element := false;
    }

    constructor FromElement(e: bool)
      ensures element == e
    {
      element := e;
    }

    function Reveal(): bool
      reads this
    {
      element
    }

    /**
     * `merge`: the element becomes the logical OR of both. It never goes
     * down in the lattice order, and true stays true.
     */
    method Merge(other: bool)
      modifies this
      ensures element == (old(element) || other)
      ensures BoolGreaterEq(element, old(element)) && BoolGreaterEq(element, other)
    {
      element := element || other;
    }
  }

  /** Merging is commutative, idempotent and associative in the resulting element. */
  lemma BoolMergeLaws(a: bool, b: bool, c: bool)
    ensures (a || b) == (b || a) && (a || a) == a && ((a || b) || c) == (a || (b || c))
  {
  }

  // ---------------------------------------------------------------------
  // LwwLattice

  /** The element of an `LwwLattice<T>`: a `long` timestamp and a value. */
  datatype Stamped<T> = Stamped(timestamp: int, value: T)

  /** The element after `merge`: the incoming pair replaces the current one only when its timestamp is strictly larger. */
  function LwwMerge<T>(current: Stamped<T>, incoming: Stamped<T>): Stamped<T>
  {
    if current.timestamp < incoming.timestamp then incoming else current
  }

  /**
   * The timestamp after a merge is the larger of the two; on a tie the
   * current value is kept; merging an element with itself changes nothing.
   */
  lemma LwwMergeSpec<T>(current: Stamped<T>, incoming: Stamped<T>)
    ensures var r := LwwMerge(current, incoming);
      r.timestamp == (if current.timestamp < incoming.timestamp then incoming.timestamp else current.timestamp) &&
      r.timestamp >= current.timestamp && r.timestamp >= incoming.timestamp &&
      (current.timestamp == incoming.timestamp ==> r == current) &&
      (r == current || r == incoming) &&
      LwwMerge(current, current) == current
  {
  }

  /** Merging again with the same pair changes nothing. */
  lemma LwwMergeIdempotent<T>(current: Stamped<T>, incoming: Stamped<T>)
    ensures LwwMerge(LwwMerge(current, incoming), incoming) == LwwMerge(current, incoming)
  {
  }

  class LwwLattice<T> {
    var element: Stamped<T>

    constructor (e: Stamped<T>)
      ensures element == e
    {
      element := e;
    }

    function Reveal(): Stamped<T>
      reads this
    {
      element
    }

    /** `merge`: both fields are overwritten only when the incoming timestamp is strictly larger. */
    method Merge(incoming: Stamped<T>)
      modifies this
      ensures element == LwwMerge(old(element), incoming)
    {
      if element.timestamp < incoming.timestamp {
        element := Stamped(incoming.timestamp, incoming.value);
      }
    }
  }

  // ---------------------------------------------------------------------
  // SetLattice

  class SetLattice<T(==)> {
    var element: set<T>

    constructor (e: set<T>)
      ensures element == e
    {
      element := e;
    }

    function Reveal(): set<T>
      reads this
    {
      element
    }

    /** `merge(s)`: every element of s is inserted, so the element becomes the union and loses nothing. */
    method Merge(s: set<T>)
      modifies this
      ensures element == old(element) + s
      ensures old(element) <= element && s <= element
    {
      var todo := s;
      while todo != {}
        invariant todo <= s
        invariant element == old(element) + (s - todo)
        decreases todo
      {
        var t :| t in todo;
        element := element + {t};
        todo := todo - {t};
      }
    }

    /** `merge(t)` for a single tuple. */
    method MergeOne(t: T)
      modifies this
      ensures element == old(element) + {t}
    {
      element := element + {t};
    }

    /** `size()`: the number of elements; 0 exactly for the empty set. */
    function Size(): (r: nat)
      reads this
      ensures r == 0 <==> element == {}
      ensures forall t :: t in element ==> r >= 1
    {
      |element|
    }
  }

  /** A subset is no larger than its superset. */
  lemma {:induction false} SubsetSize<T>(a: set<T>, b: set<T>)
    requires a <= b
    ensures |a| <= |b|
    decreases a
  {
    if a != {} {
      var x :| x in a;
      SubsetSize(a - {x}, b - {x});
    }
  }

  /**
   * `size()` is a max lattice because merging never shrinks a set: the union
   * is at least as large as either side and at most their sizes together.
   */
  lemma SetSizeMonotone<T>(a: set<T>, s: set<T>)
    ensures |a| <= |a + s| && |s| <= |a + s| && |a + s| <= |a| + |s|
  {
    SubsetSize(a, a + s);
    SubsetSize(s, a + s);
  }

  /** Set merge is idempotent: merging the same set twice adds nothing the second time. */
  lemma SetMergeIdempotent<T>(a: set<T>, s: set<T>)
    ensures (a + s) + s == a + s && a <= a + s
  {
  }

  // ---------------------------------------------------------------------
  // MapLattice

  /** `insert_pair(k, v)` on a value: an absent key is added with v, a present key's value is merged with v. */
  function InsertPair<K, V>(m: map<K, V>, k: K, v: V, join: (V, V) -> V): (r: map<K, V>)
  {
    if k !in m then m[k := v] else m[k := join(m[k], v)]
  }

  /** The element after `merge(other)`: the keys of both, values of shared keys merged. */
  function MapMerge<K, V>(m: map<K, V>, other: map<K, V>, join: (V, V) -> V): (r: map<K, V>)
  {
    map k | k in m.Keys + other.Keys ::
      if k in m && k in other then join(m[k], other[k]) else if k in m then m[k] else other[k]
  }

  /**
   * A merge keeps every key of both maps, merges the values of shared keys
   * with V's merge, and copies the others.
   */
  lemma MapMergeSpec<K, V>(m: map<K, V>, other: map<K, V>, join: (V, V) -> V)
    ensures var r := MapMerge(m, other, join);
      r.Keys == m.Keys + other.Keys &&
      (forall k :: k in m && k in other ==> r[k] == join(m[k], other[k])) &&
      (forall k :: k in m && k !in other ==> r[k] == m[k]) &&
      (forall k :: k !in m && k in other ==> r[k] == other[k])
  {
  }

  /** Merging never shrinks a map: it keeps at least as many keys as either side had. */
  lemma MapSizeMonotone<K, V>(m: map<K, V>, other: map<K, V>, join: (V, V) -> V)
    ensures |m.Keys| <= |MapMerge(m, other, join).Keys| && |other.Keys| <= |MapMerge(m, other, join).Keys|
  {
    var r := MapMerge(m, other, join);
    assert r.Keys == m.Keys + other.Keys;
    SetSizeMonotone(m.Keys, other.Keys);
  }

  /** When V's merge is commutative and idempotent, so is the map's. */
  lemma MapMergeLaws<K, V>(m: map<K, V>, other: map<K, V>, join: (V, V) -> V)
    requires forall x, y :: join(x, y) == join(y, x)
    requires forall x :: join(x, x) == x
    ensures MapMerge(m, other, join) == MapMerge(other, m, join)
    ensures MapMerge(m, m, join) == m
  {
    var a, b := MapMerge(m, other, join), MapMerge(other, m, join);
    assert a.Keys == b.Keys;
    forall k | k in a ensures a[k] == b[k] {
    }
    var c := MapMerge(m, m, join);
    assert c.Keys == m.Keys;
    forall k | k in c ensures c[k] == m[k] {
    }
  }

  lemma InsertPairStep<K, V>(m: map<K, V>, other: map<K, V>, done: set<K>, k: K, join: (V, V) -> V)
    requires k in other && k !in done
    ensures InsertPair(MapMerge(m, map j | j in other && j in done :: other[j], join), k, other[k], join)
      == MapMerge(m, map j | j in other && j in done + {k} :: other[j], join)
  {
    var a := InsertPair(MapMerge(m, map j | j in other && j in done :: other[j], join), k, other[k], join);
    var b := MapMerge(m, map j | j in other && j in done + {k} :: other[j], join);
    assert a.Keys == b.Keys;
    forall j | j in a ensures a[j] == b[j] {
    }
  }

  /**
   * `MapLattice<K, V>`: V is itself a lattice, given here by its merge
   * (`join`) and by the value its default constructor builds (`bottom`).
   */
  class MapLattice<K(==), V> {
    var element: map<K, V>
    const join: (V, V) -> V
    const bottom: V

    constructor (e: map<K, V>, join: (V, V) -> V, bottom: V)
      ensures element == e && this.join == join && this.bottom == bottom
    {
      element, this.join, this.bottom := e, join, bottom;
    }

    function Reveal(): map<K, V>
      reads this
    {
      element
    }

    method InsertPairInPlace(k: K, v: V)
      modifies this
      ensures element == InsertPair(old(element), k, v, join)
    {
      if k !in element {
        element := element[k := v];
      } else {
        element := element[k := join(element[k], v)];
      }
    }

    /** `merge(other)`: `insert_pair` for each entry of other. */
    method Merge(other: map<K, V>)
      modifies this
      ensures element == MapMerge(old(element), other, join)
    {
      ghost var m := element;
      var todo := other.Keys;
      while todo != {}
        invariant todo <= other.Keys
        invariant element == MapMerge(m, map j | j in other && j in other.Keys - todo :: other[j], join)
        decreases todo
      {
        var k :| k in todo;
        ghost var done := other.Keys - todo;
        InsertPairStep(m, other, done, k, join);
        InsertPairInPlace(k, other[k]);
        todo := todo - {k};
        assert other.Keys - todo == done + {k};
      }
      assert (map j | j in other && j in other.Keys - todo :: other[j]) == other;
    }

    /** `at(k)`: the value of k, after inserting a default-constructed value when k is absent. */
    method At(k: K) returns (v: V)
      modifies this
      ensures k in element && v == element[k]
      ensures element == if k in old(element) then old(element) else old(element)[k := bottom]
    {
      if k !in element {
        element := element[k := bottom];
      }
      v := element[k];
    }

    /** `size()`: the number of keys; 0 exactly for the empty map. */
    function Size(): (r: nat)
      reads this
      ensures r == 0 <==> element == map[]
      ensures forall k :: k in element ==> r >= 1
    {
      |element.Keys|
    }
  }
}
