/**
 * The record store `Records`: a `HashMap<i32, Record>` keyed by id, with
 * overwriting insertion, a draining sorted export and next-id allocation.
 */
module RecordStore {
  import opened Wrappers
  import opened Decimal
  import opened RecordParser
  import opened Sorting

  /** The sort key of `into_vec`. */
  function RecordId(r: Record): int
  {
    r.id
  }

  /** The sort key of `next_id`'s `ids.sort()`. */
  function IntKey(x: int): int
  {
    x
  }

  lemma {:induction false} HasMaximum(s: set<int>)
    requires s != {}
    ensures exists m :: m in s && forall k :: k in s ==> k <= m
  {
    assert (forall k :: k !in s) ==> s == {};
    var x :| x in s;
    if s != {x} {
      HasMaximum(s - {x});
      var m :| m in s - {x} && forall k :: k in s - {x} ==> k <= m;
      var top := if m < x then x else m;
      forall k | k in s ensures k <= top {
        if k != x {
          assert k in s - {x};
        }
      }
    } else {
      assert forall k :: k in s ==> k <= x;
    }
  }

  /** The largest element of a non-empty finite set of ids. */
  ghost function MaxKey(s: set<int>): (m: int)
    requires s != {}
    ensures m in s && forall k :: k in s ==> k <= m
  {
    HasMaximum(s);
    var m :| m in s && forall k :: k in s ==> k <= m;
    m
  }

  /**
   * The id `next_id` allocates: one past the largest id, or 1 for no ids.
   * It collides with no id in use.
   */
  ghost function NextIdOf(keys: set<int>): (n: int)
    ensures n !in keys
    ensures forall k :: k in keys ==> k < n
    ensures keys == {} ==> n == 1
    ensures keys != {} ==> n - 1 in keys
  {
    if keys == {} then 1 else MaxKey(keys) + 1
  }

  /**
   * Allocating ids one after another gives consecutive ids: after the
   * allocated id is taken, the next one is one larger.
   */
  lemma NextIdConsecutive(keys: set<int>)
    ensures NextIdOf(keys + {NextIdOf(keys)}) == NextIdOf(keys) + 1
  {
    var n := NextIdOf(keys);
    var n' := NextIdOf(keys + {n});
    assert n' - 1 in keys + {n};
  }

  class Records {
    var inner: map<Int32, Record>

    /** Every record is stored under its own id. */
    ghost predicate Valid()
      reads this
    {
      forall k :: k in inner ==> inner[k].id == k
    }

    /** `Records::new`: an empty store. */
    constructor ()
      ensures Valid() && inner == map[]
    {
      inner := map[];
    }

    /**
     * `add`: the record is stored under its id, replacing any earlier record
     * with that id, and every other id keeps its entry.
     */
    method Add(record: Record)
      requires Valid()
      modifies this
      ensures Valid()
      ensures inner == old(inner)[record.id := record]
      ensures record.id in inner && inner[record.id] == record
      ensures forall k :: k != record.id ==> (k in inner <==> k in old(inner))
      ensures forall k :: k in old(inner) && k != record.id ==> inner[k] == old(inner)[k]
      ensures |inner| == if record.id in old(inner) then |old(inner)| else |old(inner)| + 1
    {
      inner := inner[record.id := record];
    }

    /**
     * `into_vec`: drains the store and returns its records in strictly
     * ascending id order, each record exactly once.
     */
    method IntoVec() returns (v: seq<Record>)
      requires Valid()
      modifies this
      ensures Valid() && inner == map[]
      ensures StrictlySortedBy(v, RecordId)
      ensures forall r :: r in v <==> r in old(inner).Values
      ensures |v| == |old(inner)|
    {
      var drained: seq<Record> := [];
      while inner != map[]
        invariant forall k :: k in inner ==> k in old(inner) && inner[k] == old(inner)[k]
        invariant forall i :: 0 <= i < |drained| ==>
          drained[i].id in old(inner) && old(inner)[drained[i].id] == drained[i] && drained[i].id !in inner
        invariant forall k :: k in old(inner) ==> k in inner || old(inner)[k] in drained
        invariant DistinctKeys(drained, RecordId)
        invariant |drained| + |inner| == |old(inner)|
        decreases |inner|
      {
        var k :| k in inner;
        drained := drained + [inner[k]];
        inner := inner - {k};
      }
      var a := new Record[|drained|](i requires 0 <= i < |drained| => drained[i]);
      assert a[..] == drained;
      SortByKey(a, RecordId);
      DistinctKeysPermutation(drained, a[..], RecordId);
      SortedDistinctIsStrict(a[..], RecordId);
      v := a[..];
      forall r ensures r in v <==> r in old(inner).Values {
        assert r in v <==> r in multiset(v);
        assert r in drained <==> r in multiset(drained);
      }
    }

    /**
     * `next_id`: one past the largest id in the store, or 1 when it is
     * empty; the store is only read. The result always fits the `i64`
     * the source returns.
     */
    method NextId() returns (n: int)
      ensures n == NextIdOf(inner.Keys)
      ensures I64_MIN <= n <= I64_MAX
    {
      var ids: seq<int> := [];
      var rest := inner.Keys;
      while rest != {}
        invariant rest <= inner.Keys
        invariant forall k :: k in inner.Keys ==> k in rest || k in ids
        invariant forall i :: 0 <= i < |ids| ==> ids[i] in inner.Keys
        decreases |rest|
      {
        var k :| k in rest;
        ids := ids + [k];
        rest := rest - {k};
      }
      var a := new int[|ids|](i requires 0 <= i < |ids| => ids[i]);
      assert a[..] == ids;
      SortByKey(a, IntKey);
      if a.Length == 0 {
        n := 1;
        assert inner.Keys == {};
      } else {
        var last := a[a.Length - 1];
        n := last + 1;
        assert last in multiset(ids);
        forall k | k in inner.Keys ensures k <= last {
          assert k in multiset(a[..]);
          var i :| 0 <= i < a.Length && a[i] == k;
          assert IntKey(a[..][i]) <= IntKey(a[..][a.Length - 1]);
        }
      }
    }
  }

  /** A client: `next_id` is 1 on an empty store and 8 after ids 3, 7 and 1. */
  method NextIdScenario()
  {
    var store := new Records();
    var first := store.NextId();
    assert first == 1;
    store.Add(Record(3, "c", None));
    store.Add(Record(7, "g", None));
    store.Add(Record(1, "a", None));
    assert store.inner.Keys == {1, 3, 7};
    var next := store.NextId();
    assert next == 8;
  }

  /**
   * A client: a repeated id keeps the later record, `into_vec` returns the
   * three records and empties the store, so a second export is empty.
   */
  method IntoVecScenario()
  {
    var store := new Records();
    var r5, r1, r3 := Record(5, "e", None), Record(1, "a", Some("a@x")), Record(3, "c", None);
    store.Add(Record(5, "old", None));
    store.Add(r5);
    store.Add(r1);
    store.Add(r3);
    assert store.inner == map[5 := r5, 1 := r1, 3 := r3];
    ghost var before := store.inner;
    assert before[1] == r1 && before[3] == r3 && before[5] == r5;
    var v := store.IntoVec();
    assert |v| == 3 && r1 in v && r3 in v && r5 in v;
    var again := store.IntoVec();
    assert again == [];
  }
}
