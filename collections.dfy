/**
 * `collections/`: tables, channels and periodics. Each maps a tuple to its
 * `CollectionTupleIds`, the tuple's hash and the set of logical times at
 * which it was inserted.
 */
module Collections {

  /** `CollectionTupleIds`: a `std::size_t` hash and a `std::set<int>` of logical insert times. */
  datatype TupleIds = TupleIds(hash: nat, times: set<int>)

  /**
   * `MergeCollectionTuple(t, hash, time, &m)`: a tuple not in m is inserted
   * with {hash, {time}}; a tuple already in m keeps its entry and gains the
   * time.
   */
  function MergeTuple<T>(m: map<T, TupleIds>, t: T, hash: nat, time: int): (r: map<T, TupleIds>)
  {
    if t in m then m[t := TupleIds(m[t].hash, m[t].times + {time})]
    else m[t := TupleIds(hash, {time})]
  }

  /**
   * Merging adds t if it was absent and never removes anything; every other
   * entry is unchanged, and t's entry afterwards holds the time on top of
   * whatever times it held before.
   */
  lemma MergeTupleSpec<T>(m: map<T, TupleIds>, t: T, hash: nat, time: int)
    ensures var r := MergeTuple(m, t, hash, time);
      r.Keys == m.Keys + {t} &&
      (forall k :: k in m && k != t ==> r[k] == m[k]) &&
      (t in m ==> r[t].hash == m[t].hash && r[t].times == m[t].times + {time}) &&
      (t !in m ==> r[t] == TupleIds(hash, {time}))
  {
  }

  /** Merging the same tuple at the same time twice is merging it once. */
  lemma MergeTupleIdempotent<T>(m: map<T, TupleIds>, t: T, hash: nat, time: int)
    ensures MergeTuple(MergeTuple(m, t, hash, time), t, hash, time) == MergeTuple(m, t, hash, time)
  {
    var r := MergeTuple(m, t, hash, time);
    assert r[t].times + {time} == r[t].times;
  }

  predicate HashesFrom<T>(m: map<T, TupleIds>, hashOf: T -> nat)
  {
    forall k :: k in m ==> m[k].hash == hashOf(k)
  }

  /** The entries of `ts` with every entry of `dm` unioned in, as `Table::Tick`'s first loop leaves them. */
  function ApplyMerges<T>(ts: map<T, TupleIds>, dm: map<T, TupleIds>): (r: map<T, TupleIds>)
  {
    map k | k in ts.Keys + dm.Keys ::
      if k in ts && k in dm then TupleIds(ts[k].hash, ts[k].times + dm[k].times)
      else if k in ts then ts[k] else dm[k]
  }

  /** The entries of m whose tuple is not in `keys`. */
  function Without<T>(m: map<T, TupleIds>, keys: set<T>): (r: map<T, TupleIds>)
  {
    map k | k in m && k !in keys :: m[k]
  }

  /** The entries of m whose tuple is in `keys`. */
  function Only<T>(m: map<T, TupleIds>, keys: set<T>): (r: map<T, TupleIds>)
  {
    map k | k in m && k in keys :: m[k]
  }

  lemma ApplyMergesStep<T>(ts: map<T, TupleIds>, dm: map<T, TupleIds>, done: set<T>, t: T)
    requires t in dm && t !in done
    ensures ApplyMerges(ts, Only(dm, done + {t})) ==
      ApplyMerges(ts, Only(dm, done))[t := if t in ts then TupleIds(ts[t].hash, ts[t].times + dm[t].times) else dm[t]]
  {
    var o, o' := Only(dm, done), Only(dm, done + {t});
    assert o'.Keys == o.Keys + {t};
    var a := ApplyMerges(ts, o');
    var b := ApplyMerges(ts, o)[t := if t in ts then TupleIds(ts[t].hash, ts[t].times + dm[t].times) else dm[t]];
    assert a.Keys == b.Keys;
    forall k | k in a ensures a[k] == b[k] {
      if k != t {
        assert (k in o' <==> k in o) && (k in o ==> o'[k] == o[k]);
      }
    }
  }

  /** Before t is merged, its entry is the contents' own, if any. */
  lemma ApplyMergesBefore<T>(ts: map<T, TupleIds>, dm: map<T, TupleIds>, done: set<T>, t: T)
    requires t !in done
    ensures var a := ApplyMerges(ts, Only(dm, done));
      (t in a <==> t in ts) && (t in ts ==> a[t] == ts[t])
  {
  }

  /**
   * The first loop of `Table::Tick`: each deferred-merged tuple absent from
   * the contents is inserted, and a present one gains its times (after a
   * `CHECK_EQ` of the two hashes, which holds when both come from `hashOf`).
   */
  method MergeDeferred<T>(ts: map<T, TupleIds>, dm: map<T, TupleIds>, ghost hashOf: T -> nat)
    returns (r: map<T, TupleIds>)
    requires HashesFrom(ts, hashOf) && HashesFrom(dm, hashOf)
    ensures r == ApplyMerges(ts, dm) && HashesFrom(r, hashOf)
  {
    r := ts;
    var todo := dm.Keys;
    while todo != {}
      invariant todo <= dm.Keys
      invariant r == ApplyMerges(ts, Only(dm, dm.Keys - todo))
      invariant HashesFrom(r, hashOf)
      decreases todo
    {
      var t :| t in todo;
      var ids := dm[t];
      ghost var done := dm.Keys - todo;
      ApplyMergesBefore(ts, dm, done, t);
      ApplyMergesStep(ts, dm, done, t);
      if t !in r {
        r := r[t := ids];
      } else {
        assert r[t].hash == ids.hash;
        r := r[t := TupleIds(r[t].hash, r[t].times + ids.times)];
      }
      todo := todo - {t};
      assert dm.Keys - todo == done + {t};
    }
    assert dm.Keys - todo == dm.Keys;
    assert Only(dm, dm.Keys) == dm;
  }

  /**
   * The second loop of `Table::Tick`: each deferred-deleted tuple present in
   * the contents is moved into `deleted` (after a `CHECK_EQ` of the hashes);
   * absent ones are skipped.
   */
  method DeleteDeferred<T>(ts: map<T, TupleIds>, dd: map<T, TupleIds>, ghost hashOf: T -> nat)
    returns (kept: map<T, TupleIds>, deleted: map<T, TupleIds>)
    requires HashesFrom(ts, hashOf) && HashesFrom(dd, hashOf)
    ensures kept == Without(ts, dd.Keys) && deleted == Only(ts, dd.Keys)
    ensures HashesFrom(kept, hashOf)
  {
    kept, deleted := ts, map[];
    var todo := dd.Keys;
    while todo != {}
      invariant todo <= dd.Keys
      invariant kept == Without(ts, dd.Keys - todo)
      invariant deleted == Only(ts, dd.Keys - todo)
      decreases todo
    {
      var t :| t in todo;
      ghost var done := dd.Keys - todo;
      if t in kept {
        assert kept[t].hash == dd[t].hash;
        deleted := deleted[t := kept[t]];
        kept := map k | k in kept && k != t :: kept[k];
      }
      todo := todo - {t};
      assert dd.Keys - todo == done + {t};
    }
    assert dd.Keys - todo == dd.Keys;
  }

  /** `Table<Ts...>`: a persistent collection with deferred merges and deletes. */
  class Table<T(==)> {
    var ts: map<T, TupleIds>
    var deferredMerge: map<T, TupleIds>
    var deferredDelete: map<T, TupleIds>
    /** `std::hash` of the tuple type: every hash passed in is this function of the tuple. */
    ghost const hashOf: T -> nat

    ghost predicate Valid()
      reads this
    {
      HashesFrom(ts, hashOf) && HashesFrom(deferredMerge, hashOf) && HashesFrom(deferredDelete, hashOf)
    }

    constructor (ghost hashOf: T -> nat)
      ensures Valid() && this.hashOf == hashOf
      ensures ts == map[] && deferredMerge == map[] && deferredDelete == map[]
    {
      this.hashOf := hashOf;
      ts, deferredMerge, deferredDelete := map[], map[], map[];
    }

    /** `Get()`: the current contents. */
    function Get(): map<T, TupleIds>
      reads this
    {
      ts
    }

    /** `Merge`: merged into the contents at once. */
    method Merge(t: T, hash: nat, time: int)
      requires Valid() && hash == hashOf(t)
      modifies this
      ensures Valid()
      ensures ts == MergeTuple(old(ts), t, hash, time)
      ensures deferredMerge == old(deferredMerge) && deferredDelete == old(deferredDelete)
    {
      ts := MergeTuple(ts, t, hash, time);
    }

    /** `DeferredMerge`: buffered until the next `Tick`; the contents do not change. */
    method DeferredMerge(t: T, hash: nat, time: int)
      requires Valid() && hash == hashOf(t)
      modifies this
      ensures Valid()
      ensures deferredMerge == MergeTuple(old(deferredMerge), t, hash, time)
      ensures ts == old(ts) && deferredDelete == old(deferredDelete)
    {
      deferredMerge := MergeTuple(deferredMerge, t, hash, time);
    }

    /** `DeferredDelete`: buffered until the next `Tick`; the contents do not change. */
    method DeferredDelete(t: T, hash: nat, time: int)
      requires Valid() && hash == hashOf(t)
      modifies this
      ensures Valid()
      ensures deferredDelete == MergeTuple(old(deferredDelete), t, hash, time)
      ensures ts == old(ts) && deferredMerge == old(deferredMerge)
    {
      deferredDelete := MergeTuple(deferredDelete, t, hash, time);
    }

    /**
     * `Tick`: first every deferred merge is unioned into the contents, then
     * every deferred-deleted tuple present in the contents is removed (its
     * times play no part); the removed entries are returned and both buffers
     * are cleared. The `CHECK_EQ`s on hashes hold by `Valid()`.
     */
    method Tick() returns (deleted: map<T, TupleIds>)
      requires Valid()
      modifies this
      ensures Valid()
      ensures var merged := ApplyMerges(old(ts), old(deferredMerge));
        ts == Without(merged, old(deferredDelete).Keys) &&
        deleted == Only(merged, old(deferredDelete).Keys)
      ensures deferredMerge == map[] && deferredDelete == map[]
    {
      var merged := MergeDeferred(ts, deferredMerge, hashOf);
      ts, deleted := DeleteDeferred(merged, deferredDelete, hashOf);
      deferredMerge := map[];
      deferredDelete := map[];
    }
  }

  /** With nothing buffered, a tick changes nothing and removes nothing. */
  lemma TickWithNothingPending<T>(ts: map<T, TupleIds>)
    ensures Without(ApplyMerges(ts, map[]), {}) == ts
    ensures Only(ApplyMerges(ts, map[]), {}) == map[]
  {
  }

  /**
   * The contents after a tick and the entries it returns split the merged
   * contents: every merged tuple is in exactly one of the two, and the
   * returned ones are exactly the deferred-deleted tuples that were present.
   */
  lemma TickPartitions<T>(ts: map<T, TupleIds>, dm: map<T, TupleIds>, dd: map<T, TupleIds>)
    ensures var merged := ApplyMerges(ts, dm);
      var kept, deleted := Without(merged, dd.Keys), Only(merged, dd.Keys);
      kept.Keys + deleted.Keys == merged.Keys && kept.Keys * deleted.Keys == {} &&
      deleted.Keys == dd.Keys * (ts.Keys + dm.Keys) &&
      (forall k :: k in deleted ==> deleted[k] == merged[k]) &&
      (forall k :: k in kept ==> kept[k] == merged[k])
  {
  }

  /**
   * Merges are applied before deletes: a tuple merged and deleted in the
   * same tick is absent afterwards, and a tuple deleted but absent is
   * ignored.
   */
  lemma TickDeletesAfterMerges<T>(ts: map<T, TupleIds>, dm: map<T, TupleIds>, dd: map<T, TupleIds>, t: T)
    requires t in dd
    ensures t !in Without(ApplyMerges(ts, dm), dd.Keys)
    ensures t !in ts && t !in dm ==> t !in Only(ApplyMerges(ts, dm), dd.Keys)
  {
  }

  /** A deferred merge followed by a tick with no deletes is the same as an immediate `Merge`. */
  lemma DeferredMergeThenTick<T>(ts: map<T, TupleIds>, t: T, hash: nat, time: int)
    ensures Without(ApplyMerges(ts, MergeTuple(map[], t, hash, time)), {}) == MergeTuple(ts, t, hash, time)
  {
    var dm := MergeTuple(map[], t, hash, time);
    var a := Without(ApplyMerges(ts, dm), {});
    var b := MergeTuple(ts, t, hash, time);
    assert a.Keys == b.Keys;
    forall k | k in a ensures a[k] == b[k] {
    }
  }

  /** `Channel<Pickler, T, Ts...>`: holds the tuples received during one tick. */
  class Channel<T(==)> {
    var ts: map<T, TupleIds>

    /** A new channel is empty. */
    constructor ()
      ensures ts == map[]
    {
      ts := map[];
    }

    function Get(): map<T, TupleIds>
      reads this
    {
      ts
    }

    /** `Receive`: a tuple that arrived from the network is merged into the contents. */
    method Receive(t: T, hash: nat, time: int)
      modifies this
      ensures ts == MergeTuple(old(ts), t, hash, time)
    {
      ts := MergeTuple(ts, t, hash, time);
    }

    /** `Tick`: swaps the contents out, returning them and leaving the channel empty. */
    method Tick() returns (previous: map<T, TupleIds>)
      modifies this
      ensures previous == old(ts) && ts == map[]
    {
      previous := ts;
      ts := map[];
    }
  }

  /** The `std::size_t` width of a periodic's id counter. */
  const SIZE_T_MODULUS: nat := 0x1_0000_0000_0000_0000

  /** A periodic's tuples are (id, time). */
  datatype PeriodicTuple = PeriodicTuple(id: nat, time: int)

  /** `Periodic`: a collection filled by a timer, with a counter for fresh tuple ids. */
  class Periodic {
    var id: nat
    var ts: map<PeriodicTuple, TupleIds>

    ghost predicate Valid()
      reads this
    {
      id < SIZE_T_MODULUS
    }

    /** Ids start at 0 and the collection starts empty. */
    constructor ()
      ensures Valid() && id == 0 && ts == map[]
    {
      id := 0;
      ts := map[];
    }

    function Get(): map<PeriodicTuple, TupleIds>
      reads this
    {
      ts
    }

    /** `GetAndIncrementId`: `id_++`, wrapping around at 2^64 as a `std::size_t` does. */
    method GetAndIncrementId() returns (r: nat)
      requires Valid()
      modifies this
      ensures Valid()
      ensures r == old(id) && id == (old(id) + 1) % SIZE_T_MODULUS && ts == old(ts)
    {
      r := id;
      id := (id + 1) % SIZE_T_MODULUS;
    }

    method Merge(t: PeriodicTuple, hash: nat, time: int)
      modifies this
      ensures ts == MergeTuple(old(ts), t, hash, time) && id == old(id)
    {
      ts := MergeTuple(ts, t, hash, time);
    }

    /** `Tick`: swaps the contents out; the id counter is untouched. */
    method Tick() returns (previous: map<PeriodicTuple, TupleIds>)
      modifies this
      ensures previous == old(ts) && ts == map[] && id == old(id)
    {
      previous := ts;
      ts := map[];
    }
  }

  /** A new periodic hands out the ids 0, 1, 2, 3 in that order. */
  method PeriodicIdsCountUp() returns (ids: seq<nat>)
    ensures ids == [0, 1, 2, 3]
  {
    var p := new Periodic();
    var a := p.GetAndIncrementId();
    var b := p.GetAndIncrementId();
    var c := p.GetAndIncrementId();
    var d := p.GetAndIncrementId();
    ids := [a, b, c, d];
  }
}
