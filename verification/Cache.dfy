/** The heap objects behind the local shard map (internal/cache/mapping.go). */
module Cache {
  import opened Types

  /** A map of the program: a reference, so that two holders can share one. */
  class Dict<K(==), V> {
    var entries: map<K, V>

    constructor ()
      ensures entries == map[]
    {
      entries := map[];
    }

    method Put(k: K, v: V)
      modifies this
      ensures entries == old(entries)[k := v]
    {
      entries := entries[k := v];
    }

    method Remove(k: K)
      modifies this
      ensures entries == old(entries) - {k}
    {
      entries := entries - {k};
    }

    /** The copying loop of Clone: every key of `source`, in any order. */
    method CopyFrom(source: Dict<K, V>)
      requires source != this && entries == map[]
      modifies this
      ensures entries == source.entries
    {
      var todo := source.entries.Keys;
      while todo != {}
        invariant source.entries == old(source.entries)
        invariant todo <= source.entries.Keys
        invariant entries == source.entries - todo
        decreases todo
      {
        var k :| k in todo;
        Put(k, source.entries[k]);
        todo := todo - {k};
      }
    }
  }

  class Mapping {
    var revision: int
    const shards: Dict<Text, ShardDef>
    const buckets: Dict<int, BucketDef>

    function Contents(): Snapshot
      reads this, shards, buckets
    {
      Snapshot(revision, shards.entries, buckets.entries)
    }

    /** Everything that `Contents` depends on. */
    ghost function Footprint(): set<object> {
      {this, shards, buckets}
    }

    constructor (rev: int)
      ensures fresh(Footprint())
      ensures Contents() == Snapshot(rev, map[], map[])
    {
      revision := rev;
      var s := new Dict<Text, ShardDef>();
      var b := new Dict<int, BucketDef>();
      shards := s;
      buckets := b;
    }

    /** A copy that shares neither map with the original. */
    method Clone() returns (out: Mapping)
      ensures fresh(out.Footprint())
      ensures out.Contents() == Contents()
    {
      out := new Mapping(revision);
      out.shards.CopyFrom(shards);
      out.buckets.CopyFrom(buckets);
    }
  }

  class Store {
    var ptr: Mapping?

    constructor ()
      ensures ptr == null
    {
      ptr := null;
    }

    method Load() returns (m: Mapping?)
      ensures m == ptr
    {
      m := ptr;
    }

    method Swap(m: Mapping)
      modifies this
      ensures ptr == m
    {
      ptr := m;
    }

    method Ready() returns (ready: bool)
      ensures ready <==> ptr != null
    {
      ready := ptr != null;
    }
  }
}
