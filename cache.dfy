/**
 * The two string-keyed caches of utils/cache.go: GenericCache maps keys to
 * arbitrary values, DummyCache maps keys to the time they were added and
 * forgets entries older than its expiry time. The read-write lock is left
 * out, and the clock is a parameter. Go's map iteration order picks the
 * entry that is evicted, so eviction removes an arbitrary existing key.
 *
 * As written, both caches grow their size field whenever they insert
 * without evicting, so the invariant |mdata| < size holds throughout and the
 * eviction branch is never taken. BoundedCache is the same cache with the
 * size field left as a fixed capacity.
 */
module Cache {
  import opened ByteText

  /**
   * The map that is left after taking one entry out of a full map, or the
   * map itself when it is empty (Go then deletes the zero-value key "",
   * which an empty map does not hold).
   */
  method EvictAny<V>(m: map<Bytes, V>) returns (r: map<Bytes, V>)
    ensures m == map[] ==> r == map[]
    ensures m != map[] ==> |r| == |m| - 1 && exists tk :: tk in m && r == m - {tk}
  {
    if m == map[] {
      return m;
    }
    var tk :| tk in m;
    MapRemoveSize(m, tk);
    r := m - {tk};
  }

  /** A GenericCache (utils/cache.go:15-19) without its lock. */
  class GenericCache<V> {
    var size: int
    var mdata: map<Bytes, V>

    /** Set by the constructor and kept by every operation: fewer entries than size. */
    predicate Valid()
      reads this
    {
      |mdata| < size
    }

    constructor (size: int)
      requires size > 0
      ensures this.size == size && mdata == map[] && Valid()
    {
      this.size := size;
      mdata := map[];
    }

    /**
     * Add: when the map holds size entries or more, one entry is evicted
     * first; otherwise size grows by one. Afterwards key maps to v.
     */
    method Add(key: Bytes, v: V)
      modifies this
      ensures key in mdata && mdata[key] == v
      ensures old(|mdata|) < old(size) ==> size == old(size) + 1 && mdata == old(mdata)[key := v]
      ensures old(|mdata|) >= old(size) ==> size == old(size)
      ensures old(|mdata|) >= old(size) && old(mdata) == map[] ==> mdata == map[key := v]
      ensures old(|mdata|) >= old(size) && old(mdata) != map[] ==>
        exists tk :: tk in old(mdata) && mdata == (old(mdata) - {tk})[key := v]
      ensures forall k :: k in mdata && k != key ==> k in old(mdata) && mdata[k] == old(mdata)[k]
      ensures old(Valid()) ==> Valid() && mdata == old(mdata)[key := v]
    {
      if |mdata| >= size {
        var before := mdata;
        mdata := EvictAny(mdata);
        if before != map[] {
          ghost var tk :| tk in before && mdata == before - {tk};
          assert mdata[key := v] == (before - {tk})[key := v];
        }
      } else {
        size := size + 1;
      }
      MapUpdateSize(mdata, key, v);
      mdata := mdata[key := v];
    }

    /** Get: the value stored under key, if any; nothing changes. */
    method Get(key: Bytes) returns (r: Option<V>)
      ensures r.Some? <==> key in mdata
      ensures r.Some? ==> r.value == mdata[key]
    {
      if key in mdata {
        return Some(mdata[key]);
      }
      return None;
    }

    /** Del: a present key is removed and size drops by one; an absent key changes nothing. */
    method Del(key: Bytes)
      modifies this
      ensures key !in mdata
      ensures key in old(mdata) ==> mdata == old(mdata) - {key} && size == old(size) - 1
      ensures key !in old(mdata) ==> mdata == old(mdata) && size == old(size)
      ensures old(Valid()) ==> Valid()
    {
      if key in mdata {
        MapRemoveSize(mdata, key);
        mdata := mdata - {key};
        size := size - 1;
      }
    }
  }

  /** NewGenericCache: no cache for a size of zero or less. */
  method NewGenericCache<V>(size: int) returns (c: GenericCache?<V>)
    ensures c == null <==> size <= 0
    ensures c != null ==> fresh(c) && c.size == size && c.mdata == map[] && c.Valid()
  {
    if size <= 0 {
      return null;
    }
    c := new GenericCache(size);
  }

  /** A DummyCache (utils/cache.go:8-13) without its lock: each key maps to the time it was added. */
  class DummyCache {
    var size: int
    var expireTime: int
    var mdata: map<Bytes, int>

    predicate Valid()
      reads this
    {
      |mdata| < size
    }

    constructor (size: int, expireTime: int)
      requires size > 0
      ensures this.size == size && this.expireTime == expireTime && mdata == map[] && Valid()
    {
      this.size := size;
      this.expireTime := expireTime;
      mdata := map[];
    }

    /** Whether an entry added at addTime has expired at now. */
    predicate Expired(addTime: int, now: int)
      reads this
    {
      expireTime > 0 && now - addTime > expireTime
    }

    /** Add: as GenericCache.Add, with the current time as the value. */
    method Add(key: Bytes, now: int)
      modifies this
      ensures key in mdata && mdata[key] == now
      ensures expireTime == old(expireTime)
      ensures old(|mdata|) < old(size) ==> size == old(size) + 1 && mdata == old(mdata)[key := now]
      ensures old(|mdata|) >= old(size) ==> size == old(size)
      ensures old(|mdata|) >= old(size) && old(mdata) == map[] ==> mdata == map[key := now]
      ensures old(|mdata|) >= old(size) && old(mdata) != map[] ==>
        exists tk :: tk in old(mdata) && mdata == (old(mdata) - {tk})[key := now]
      ensures forall k :: k in mdata && k != key ==> k in old(mdata) && mdata[k] == old(mdata)[k]
      ensures old(Valid()) ==> Valid() && mdata == old(mdata)[key := now]
    {
      if |mdata| >= size {
        var before := mdata;
        mdata := EvictAny(mdata);
        if before != map[] {
          ghost var tk :| tk in before && mdata == before - {tk};
          assert mdata[key := now] == (before - {tk})[key := now];
        }
      } else {
        size := size + 1;
      }
      MapUpdateSize(mdata, key, now);
      mdata := mdata[key := now];
    }

    /**
     * Get: whether key is present and not expired at now. An expired entry
     * is deleted and size drops by one; otherwise nothing changes.
     */
    method Get(key: Bytes, now: int) returns (found: bool)
      modifies this
      ensures found <==> key in old(mdata) && !old(Expired(mdata[key], now))
      ensures expireTime == old(expireTime)
      ensures key in old(mdata) && old(Expired(mdata[key], now)) ==>
        mdata == old(mdata) - {key} && size == old(size) - 1
      ensures !(key in old(mdata) && old(Expired(mdata[key], now))) ==>
        mdata == old(mdata) && size == old(size)
      ensures old(Valid()) ==> Valid()
    {
      found := key in mdata;
      if found && Expired(mdata[key], now) {
        MapRemoveSize(mdata, key);
        mdata := mdata - {key};
        size := size - 1;
        found := false;
      }
    }
  }

  /** NewDummyCache: no cache for a size of zero or less. */
  method NewDummyCache(size: int, expireTime: int) returns (c: DummyCache?)
    ensures c == null <==> size <= 0
    ensures c != null ==> fresh(c) && c.size == size && c.expireTime == expireTime && c.mdata == map[] && c.Valid()
  {
    if size <= 0 {
      return null;
    }
    c := new DummyCache(size, expireTime);
  }

  lemma MapUpdateSize<V>(m: map<Bytes, V>, key: Bytes, v: V)
    ensures key in m ==> |m[key := v]| == |m|
    ensures key !in m ==> |m[key := v]| == |m| + 1
  {
    if key in m {
      assert m[key := v].Keys == m.Keys;
    } else {
      assert m[key := v].Keys == m.Keys + {key};
    }
  }

  lemma MapRemoveSize<V>(m: map<Bytes, V>, key: Bytes)
    requires key in m
    ensures |m - {key}| == |m| - 1
  {
    assert (m - {key}).Keys == m.Keys - {key};
  }

  /**
   * As written, a cache created with size 1 holds two entries after two
   * additions of different keys: the size given to the constructor does not
   * bound the number of entries.
   */
  method OverfullAsWritten() returns (entries: int, requested: int)
    ensures requested == 1 && entries == 2
  {
    requested := 1;
    var c := NewGenericCache<int>(requested);
    c.Add("a", 0);
    c.Add("b", 0);
    assert c.mdata == map["a" := 0, "b" := 0];
    assert c.mdata.Keys == {"a", "b"};
    entries := |c.mdata|;
  }

  /**
   * GenericCache with size kept as a fixed capacity: Add evicts once the map
   * is full, and Del does not change the capacity.
   */
  class BoundedCache<V> {
    const size: int
    var mdata: map<Bytes, V>

    predicate Valid()
      reads this
    {
      0 < size && |mdata| <= size
    }

    constructor (size: int)
      requires size > 0
      ensures this.size == size && mdata == map[] && Valid()
    {
      this.size := size;
      mdata := map[];
    }

    method Add(key: Bytes, v: V)
      requires Valid()
      modifies this
      ensures Valid()
      ensures key in mdata && mdata[key] == v
      ensures forall k :: k in mdata && k != key ==> k in old(mdata) && mdata[k] == old(mdata)[k]
      ensures old(|mdata|) < size ==> mdata == old(mdata)[key := v]
      ensures old(|mdata|) >= size ==>
        exists tk :: tk in old(mdata) && mdata == (old(mdata) - {tk})[key := v]
    {
      if |mdata| >= size {
        var before := mdata;
        mdata := EvictAny(mdata);
        ghost var tk :| tk in before && mdata == before - {tk};
        assert mdata[key := v] == (before - {tk})[key := v];
      }
      MapUpdateSize(mdata, key, v);
      mdata := mdata[key := v];
    }

    /** The same lookup as GenericCache.Get; this class keeps its own copy because it has its own fields. */
    method Get(key: Bytes) returns (r: Option<V>)
      ensures r.Some? <==> key in mdata
      ensures r.Some? ==> r.value == mdata[key]
    {
      if key in mdata {
        return Some(mdata[key]);
      }
      return None;
    }

    method Del(key: Bytes)
      requires Valid()
      modifies this
      ensures Valid()
      ensures mdata == old(mdata) - {key}
    {
      if key in mdata {
        MapRemoveSize(mdata, key);
      }
      mdata := mdata - {key};
    }
  }

  /** With size as a capacity, a cache of size 1 holds one entry after two additions. */
  method BoundedAfterTwoAdds() returns (entries: int, requested: int)
    ensures requested == 1 && entries == 1
  {
    requested := 1;
    var c := new BoundedCache<int>(requested);
    c.Add("a", 0);
    c.Add("b", 0);
    assert c.mdata == map["b" := 0] by {
      var tk :| tk in map["a" := 0] && c.mdata == (map["a" := 0] - {tk})["b" := 0];
      assert tk == "a";
    }
    entries := |c.mdata|;
  }
}
