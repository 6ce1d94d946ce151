/**
 * MaplandsDisplayChunks: the chunks a map keeps loaded while rendering, each
 * kept for a minute of ticks after its last use. The forced chunk loads
 * themselves belong to the server; `isDone` says whether a chunk's
 * asynchronous load has completed.
 */
module DisplayChunks {
  import opened Wrappers
  import opened MapUtil

  /** Ticks a chunk stays loaded after its last use: about a minute. */
  const CloseTimeout: int := 20 * 60

  /** A world, compared by identity. */
  type WorldId = int

  /** Chunk coordinates. */
  datatype ChunkKey = ChunkKey(x: int, z: int)

  /** A kept chunk: the tick from which it may be closed. */
  datatype LoadedChunk = LoadedChunk(timeout: int)

  /** MathUtil.toChunk: the chunk coordinate of a block coordinate, `x >> 4`. */
  function ToChunk(x: int): (c: int)
    ensures 16 * c <= x < 16 * c + 16
  {
    FloorDiv(x, 16)
  }

  /** The entries of `cache` still kept at tick `ticks`. */
  function Expire(cache: map<ChunkKey, LoadedChunk>, ticks: int): (r: map<ChunkKey, LoadedChunk>)
    ensures forall k :: k in r <==> k in cache && ticks < cache[k].timeout
    ensures forall k | k in r :: r[k] == cache[k]
  {
    map k | k in cache && ticks < cache[k].timeout :: cache[k]
  }

  /** The table while update's removal loop still has `keys` to look at. */
  function Partial(cache: map<ChunkKey, LoadedChunk>, keys: set<ChunkKey>, ticks: int): (r: map<ChunkKey, LoadedChunk>)
    ensures forall k :: k in r <==> k in cache && (k in keys || ticks < cache[k].timeout)
  {
    map k | k in cache && (k in keys || ticks < cache[k].timeout) :: cache[k]
  }

  lemma PartialAll(cache: map<ChunkKey, LoadedChunk>, ticks: int)
    ensures Partial(cache, cache.Keys, ticks) == cache
  {
  }

  lemma PartialNone(cache: map<ChunkKey, LoadedChunk>, ticks: int)
    ensures Partial(cache, {}, ticks) == Expire(cache, ticks)
  {
  }

  /** Looking at key `k` removes it exactly when it has expired. */
  lemma PartialStep(cache: map<ChunkKey, LoadedChunk>, keys: set<ChunkKey>, ticks: int, k: ChunkKey)
    requires k in keys && keys <= cache.Keys
    ensures ticks >= cache[k].timeout ==> Partial(cache, keys - {k}, ticks) == Partial(cache, keys, ticks) - {k}
    ensures ticks < cache[k].timeout ==> Partial(cache, keys - {k}, ticks) == Partial(cache, keys, ticks)
  {
  }

  /** Every chunk kept after a tick still expires within a minute of the new tick. */
  lemma ExpireKept(cache: map<ChunkKey, LoadedChunk>, now: int)
    requires forall k | k in cache :: cache[k].timeout <= now - 1 + CloseTimeout
    ensures forall k | k in Expire(cache, now) :: Expire(cache, now)[k].timeout <= now + CloseTimeout
  {
  }

  class MaplandsDisplayChunks {
    var world: Option<WorldId>
    var cache: map<ChunkKey, LoadedChunk>
    /** The entry of the last chunk looked up, absent after a tick or a clear. */
    var lastValue: Option<ChunkKey>
    var ticks: int

    /**
     * The last value is an entry of the table, and every entry expires at
     * most a minute from now.
     */
    ghost predicate Valid()
      reads this
    {
      (lastValue.Some? ==> lastValue.value in cache) &&
      forall k | k in cache :: cache[k].timeout <= ticks + CloseTimeout
    }

    constructor ()
      ensures Valid()
      ensures world == None && cache == map[] && lastValue == None && ticks == 0
    {
      world, cache, lastValue, ticks := None, map[], None, 0;
    }

    /** update: one tick passes, and every chunk whose timeout has come is closed and removed. */
    method Update()
      requires Valid()
      modifies this
      ensures Valid()
      ensures ticks == old(ticks) + 1 && lastValue == None && world == old(world)
      ensures cache == Expire(old(cache), ticks)
    {
      lastValue := None;
      ticks := ticks + 1;
      var keys := cache.Keys;
      ghost var before := cache;
      PartialAll(before, ticks);
      while keys != {}
        invariant keys <= before.Keys
        invariant cache == Partial(before, keys, ticks)
        invariant lastValue == None && world == old(world) && ticks == old(ticks) + 1
        decreases |keys|
      {
        var k :| k in keys;
        if ticks >= cache[k].timeout {
          cache := cache - {k};
        }
        PartialStep(before, keys, ticks, k);
        keys := keys - {k};
      }
      PartialNone(before, ticks);
      ExpireKept(before, ticks);
    }

    /**
     * cacheChunk: a chunk of another world first clears the whole table. The
     * chunk's entry is then found (through the last value when it is the
     * same chunk, otherwise in the table, where a missing one is added),
     * becomes the last value and is kept for another minute. The result says
     * whether the chunk has loaded.
     */
    method CacheChunk(w: WorldId, x: int, z: int, isDone: bool) returns (loaded: bool)
      requires Valid()
      modifies this
      ensures Valid()
      ensures world == Some(w) && ticks == old(ticks)
      ensures lastValue == Some(ChunkKey(x, z))
      ensures old(world) == Some(w) ==> cache == old(cache)[ChunkKey(x, z) := LoadedChunk(ticks + CloseTimeout)]
      ensures old(world) != Some(w) ==> cache == map[ChunkKey(x, z) := LoadedChunk(ticks + CloseTimeout)]
      ensures loaded == isDone
    {
      if world != Some(w) {
        world := Some(w);
        Clear();
      }
      var key := ChunkKey(x, z);
      if lastValue.Some? && lastValue.value.x == x && lastValue.value.z == z {
        cache := cache[key := LoadedChunk(ticks + CloseTimeout)];
        return isDone;
      }
      if key !in cache {
        cache := cache[key := LoadedChunk(ticks + CloseTimeout)];
      }
      lastValue := Some(key);
      cache := cache[key := LoadedChunk(ticks + CloseTimeout)];
      loaded := isDone;
    }

    /** cacheBlock: cacheChunk for the chunk holding block column (x, z). */
    method CacheBlock(w: WorldId, x: int, z: int, isDone: bool) returns (loaded: bool)
      requires Valid()
      modifies this
      ensures Valid()
      ensures world == Some(w) && ticks == old(ticks)
      ensures lastValue == Some(ChunkKey(ToChunk(x), ToChunk(z)))
      ensures old(world) == Some(w) ==> cache == old(cache)[ChunkKey(ToChunk(x), ToChunk(z)) := LoadedChunk(ticks + CloseTimeout)]
      ensures old(world) != Some(w) ==> cache == map[ChunkKey(ToChunk(x), ToChunk(z)) := LoadedChunk(ticks + CloseTimeout)]
      ensures loaded == isDone
    {
      loaded := CacheChunk(w, ToChunk(x), ToChunk(z), isDone);
    }

    /** clear: every chunk is closed, the table is empty and there is no last value. */
    method Clear()
      modifies this`cache, this`lastValue
      ensures Valid()
      ensures cache == map[] && lastValue == None
    {
      cache := map[];
      lastValue := None;
    }
  }
}
