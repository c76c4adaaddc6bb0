/** The bounded cache of segment metadata; its queue may hold stale duplicates of a file id. */
module MetadataCaches {
  import opened Types
  import opened Segment

  class MetadataCache<V> {
    const maxEntries: nat
    var entries: map<nat, V>
    var lru: seq<nat>

    /** Every cached id is queued for eviction at least once, so the cache can always shrink below its bound. */
    ghost predicate Valid()
      reads this
    {
      && maxEntries >= 1
      && |entries| <= maxEntries
      && forall id :: id in entries ==> id in lru
    }

    constructor (maxEntries: nat)
      ensures Valid() && entries == map[]
      ensures this.maxEntries == if maxEntries < 1 then 1 else maxEntries
    {
      this.maxEntries := if maxEntries < 1 then 1 else maxEntries;
      entries := map[];
      lru := [];
    }

    method Get(fileId: nat) returns (value: Option<V>)
      requires Valid()
      modifies this`lru
      ensures Valid()
      ensures value == if fileId in entries then Some(entries[fileId]) else None
      ensures lru == if fileId in entries then old(lru) + [fileId] else old(lru)
    {
      if fileId in entries {
        lru := lru + [fileId];
        value := Some(entries[fileId]);
      } else {
        value := None;
      }
    }

    /** Evicts the ids queued longest until an id not cached has room. */
    method MakeRoom(fileId: nat) returns (ghost k: nat)
      requires Valid() && fileId !in entries
      modifies this
      ensures fileId !in entries && |entries| < maxEntries && forall id :: id in entries ==> id in lru
      ensures k <= |old(lru)| && lru == old(lru)[k..] && entries == Left(old(entries), old(lru), k)
      ensures k > 0 ==> |Left(old(entries), old(lru), k - 1)| >= maxEntries
      ensures forall id :: id in entries ==> id in old(entries) && entries[id] == old(entries)[id]
      ensures if |old(entries)| < maxEntries then entries == old(entries) else |entries| == maxEntries - 1
    {
      hide Left, Remove;
      ghost var before, queue := entries, lru;
      LeftAll(before, queue);
      k := 0;
      while |entries| >= maxEntries
        invariant fileId !in entries
        invariant k <= |queue| && lru == queue[k..] && entries == Left(before, queue, k)
        invariant k > 0 ==> |Left(before, queue, k - 1)| >= maxEntries
        invariant |entries| <= maxEntries
        invariant forall id :: id in entries ==> id in lru && id in before && entries[id] == before[id]
        invariant |before| < maxEntries ==> entries == before
        invariant |before| >= maxEntries ==> |entries| >= maxEntries - 1
        decreases |lru|
      {
        NonEmptyMap(entries);
        if lru == [] {
          break;
        }
        var victim := lru[0];
        lru := lru[1..];
        LeftPush(before, queue, k);
        k := k + 1;
        RemoveOne(entries, victim);
        if victim != fileId {
          entries := Remove(entries, victim);
        }
      }
    }

    /** A hit or a cache with room evicts nothing; a full cache evicts down to its bound and keeps the rest. */
    method Insert(fileId: nat, value: V)
      requires Valid()
      modifies this
      ensures Valid()
      ensures fileId in entries && entries[fileId] == value
      ensures forall id :: id in entries && id != fileId ==> id in old(entries) && entries[id] == old(entries)[id]
      ensures fileId in old(entries) || |old(entries)| < maxEntries ==> entries == old(entries)[fileId := value]
      ensures fileId !in old(entries) && |old(entries)| >= maxEntries ==> |entries| == maxEntries
      ensures fileId in old(entries) ==> lru == old(lru) + [fileId]
      ensures fileId !in old(entries) ==>
                MissInserted(old(entries), old(lru), maxEntries, fileId, value, entries, lru)
    {
      hide Left, MissInserted;
      if fileId !in entries {
        ghost var k := MakeRoom(fileId);
        MissDone(old(entries), old(lru), maxEntries, fileId, value, k);
      }
      lru := lru + [fileId];
      InsertOne(entries, fileId, value);
      entries := entries[fileId := value];
    }

    /** What is left once the first `k` queued ids are evicted. */
    static ghost function Left(m: map<nat, V>, queue: seq<nat>, k: nat): map<nat, V>
      requires k <= |queue|
    {
      m - Elements(queue[..k])
    }

    /** Evicting the first `k` queued ids makes room, and evicting one fewer does not. */
    static ghost predicate EvictsFirst(m: map<nat, V>, queue: seq<nat>, max: nat, k: nat) {
      k <= |queue| && |Left(m, queue, k)| < max && (k > 0 ==> |Left(m, queue, k - 1)| >= max)
    }

    /** The ids queued longest are evicted until there is room, and no longer. */
    static ghost predicate MissInserted(m: map<nat, V>, queue: seq<nat>, max: nat, fileId: nat, value: V,
                                        m': map<nat, V>, queue': seq<nat>) {
      exists k: nat ::
        && EvictsFirst(m, queue, max, k)
        && queue' == queue[k..] + [fileId] && m' == Left(m, queue, k)[fileId := value]
    }

    static lemma {:induction false} MissDone(m: map<nat, V>, queue: seq<nat>, max: nat, fileId: nat, value: V, k: nat)
      requires k <= |queue| && |Left(m, queue, k)| < max && (k > 0 ==> |Left(m, queue, k - 1)| >= max)
      ensures MissInserted(m, queue, max, fileId, value, Left(m, queue, k)[fileId := value], queue[k..] + [fileId])
    {
      hide Left;
    }

    static lemma {:induction false} LeftAll(m: map<nat, V>, queue: seq<nat>)
      ensures Left(m, queue, 0) == m
    {
    }

    static lemma {:induction false} LeftPush(m: map<nat, V>, queue: seq<nat>, k: nat)
      requires k < |queue|
      ensures Left(m, queue, k + 1) == Remove(Left(m, queue, k), queue[k])
    {
      assert queue[..k + 1] == queue[..k] + [queue[k]];
    }

    static lemma {:induction false} NonEmptyMap(m: map<nat, V>)
      ensures |m| >= 1 ==> exists id :: id in m
    {
      if |m| >= 1 {
        assert |m.Keys| == |m|;
        var id :| id in m.Keys;
      }
    }

    static function Remove(m: map<nat, V>, k: nat): map<nat, V> {
      map id | id in m && id != k :: m[id]
    }

    static lemma {:induction false} RemoveOne(m: map<nat, V>, k: nat)
      ensures |Remove(m, k)| == if k in m then |m| - 1 else |m|
      ensures forall id :: id in Remove(m, k) ==> id in m && id != k && Remove(m, k)[id] == m[id]
      ensures k !in m ==> Remove(m, k) == m
    {
      assert Remove(m, k).Keys == m.Keys - {k};
      assert |Remove(m, k).Keys| == |Remove(m, k)| && |m.Keys| == |m|;
    }

    static lemma {:induction false} InsertOne(m: map<nat, V>, k: nat, v: V)
      ensures |m[k := v]| == if k in m then |m| else |m| + 1
    {
      assert m[k := v].Keys == m.Keys + {k};
      assert |m[k := v].Keys| == |m[k := v]| && |m.Keys| == |m|;
    }
  }
}
