/** The bounded caches behind the reader's mutexes. */
module Caches {
  import opened Bytes

  /** An LRU cache seen as a bounded map. Which entry an insertion evicts is left open, so what is
      proved of its users holds for every eviction order. */
  class Lru<V> {
    const capacity: nat
    var entries: map<nat, V>

    ghost predicate Valid()
      reads this
    {
      0 < capacity && |entries| <= capacity
    }

    /** A requested capacity of 0 becomes 1. */
    constructor (requested: nat)
      ensures Valid() && entries == map[]
    {
      capacity := if requested == 0 then 1 else requested;
      entries := map[];
    }

    method Get(key: nat) returns (v: Option<V>)
      ensures v == if key in entries then Some(entries[key]) else None
    {
      v := if key in entries then Some(entries[key]) else None;
    }

    method Put(key: nat, v: V)
      requires Valid()
      modifies this
      ensures Valid()
      ensures key in entries && entries[key] == v
      ensures forall k :: k in entries && k != key ==> k in old(entries) && entries[k] == old(entries)[k]
    {
      if key !in entries && |entries| == capacity {
        assert |entries.Keys| == |entries|;
        assert entries.Keys != {};
        var victim :| victim in entries.Keys;
        assert (entries - {victim}).Keys == entries.Keys - {victim};
        entries := entries - {victim};
      }
      ghost var before := entries;
      entries := entries[key := v];
      assert entries.Keys == before.Keys + {key};
      assert |entries.Keys| == |entries| && |before.Keys| == |before|;
    }
  }
}
