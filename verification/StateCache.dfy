/**
 * The detector cache as it runs: slots are overwritten in place, the key map, free stack and
 * cursor are fields. `Model` reads the fields off as a value of CacheModel, and every method
 * is proved to move that value as the function of the same name does.
 *
 * The clock is not part of the object. Each method takes the reading it would have made.
 */
module StateCache {
  import opened Prelude
  import M = CacheModel
  import R = ShardedRuns

  class CircularCache<K(==,!new), V> {
    const ttl: int
    const slots: array<M.Slot<K, V>>
    var items: map<K, nat>
    var free: seq<nat>
    var usedSlots: nat
    var nextEvict: nat
    var len: int

    ghost function Model(): M.Cache<K, V>
      reads this, slots
    {
      M.Cache(ttl, items, slots[..], free, usedSlots, nextEvict, len)
    }

    ghost predicate Valid()
      reads this, slots
    {
      Model().WellFormed()
    }

    constructor (maxEntries: int, ttl: int)
      ensures Valid() && fresh(slots)
      ensures Model() == M.Fresh(if maxEntries <= 0 then 1 else maxEntries, ttl)
    {
      var size := if maxEntries <= 0 then 1 else maxEntries;
      this.ttl := ttl;
      slots := new M.Slot<K, V>[size](_ => M.Empty);
      items, free := map[], [];
      usedSlots, nextEvict, len := 0, 0, 0;
      new;
      assert slots[..] == seq(size, _ => M.Empty);
    }

    method Get(key: K, now: int) returns (found: Option<V>)
      requires Valid()
      modifies this, slots
      ensures Valid() && (Model(), found) == M.Get(old(Model()), key, now)
    {
      if key !in items {
        return None;
      }
      var idx := items[key];
      // A mapped slot is always in use, so the source's clean-up of a stale mapping never runs.
      if slots[idx].Empty? {
        assert false;
      }
      if now > slots[idx].expiresAt {
        RemoveSlot(idx);
        return None;
      }
      return Some(slots[idx].value);
    }

    method Put(key: K, value: V, now: int) returns (evicted: nat)
      requires Valid()
      modifies this, slots
      ensures Valid() && (Model(), evicted) == M.Put(old(Model()), key, value, now)
    {
      hide M.Cache.FreeList;
      ghost var before := Model();
      if key in items {
        var idx := items[key];
        slots[idx] := M.Used(key, value, now + ttl);
        assert Model() == M.Put(before, key, value, now).0;
        return 0;
      }
      var idx;
      idx, evicted := NextSlot();
      slots[idx] := M.Used(key, value, now + ttl);
      items := items[key := idx];
      len := len + 1;
      assert Model() == M.Put(before, key, value, now).0;
    }

    method Len() returns (n: int)
      ensures n == Model().len
    {
      n := len;
    }

    method NextSlot() returns (idx: nat, evicted: nat)
      requires Valid()
      modifies this
      ensures (Model(), idx, evicted) == M.NextSlot(old(Model()))
    {
      var n := |free|;
      if n > 0 {
        idx := free[n - 1];
        free := free[..n - 1];
        return idx, 0;
      }
      if usedSlots < slots.Length {
        idx := usedSlots;
        usedSlots := usedSlots + 1;
        return idx, 0;
      }
      idx := nextEvict;
      nextEvict := (nextEvict + 1) % slots.Length;
      // With every slot handed out and none free, the slot under the cursor is always in use.
      if slots[idx].Empty? {
        assert false;
      }
      items := items - {slots[idx].key};
      len := len - 1;
      evicted := 1;
    }

    method RemoveSlot(idx: nat)
      requires Valid() && idx < slots.Length
      modifies this, slots
      ensures Valid() && Model() == M.RemoveSlot(old(Model()), idx)
    {
      if slots[idx].Empty? {
        return;
      }
      ghost var before := Model();
      items := items - {slots[idx].key};
      slots[idx] := M.Empty;
      free := free + [idx];
      len := len - 1;
      assert Model() == M.RemoveSlot(before, idx);
    }
  }

  const DEFAULT_CACHE_SHARDS: nat := 64

  function ShardCount(maxEntries: nat): nat {
    if maxEntries < DEFAULT_CACHE_SHARDS then maxEntries else DEFAULT_CACHE_SHARDS
  }

  function ShardSize(maxEntries: nat, idx: nat): nat
    requires 0 < maxEntries
  {
    maxEntries / ShardCount(maxEntries) + if idx < maxEntries % ShardCount(maxEntries) then 1 else 0
  }

  /** The shards of a new cache of the given total size. */
  function FreshShards<K(==,!new), V>(maxEntries: nat, ttl: int): (shards: seq<M.Cache<K, V>>)
    requires 0 < maxEntries
    ensures |shards| == Min(64, maxEntries)
    ensures forall i :: 0 <= i < |shards| ==> shards[i].ttl == ttl
  {
    ShardSizesArePositive(maxEntries);
    seq(ShardCount(maxEntries), i requires 0 <= i < ShardCount(maxEntries) => M.Fresh(ShardSize(maxEntries, i), ttl))
  }

  lemma ShardSizesArePositive(maxEntries: nat)
    requires 0 < maxEntries
    ensures 0 < ShardCount(maxEntries) <= maxEntries
    ensures forall i :: 0 <= i < ShardCount(maxEntries) ==> 0 < ShardSize(maxEntries, i)
  {
    QuotientIsPositive(maxEntries, ShardCount(maxEntries));
  }

  lemma QuotientIsPositive(a: nat, b: nat)
    requires 0 < b <= a
    ensures 0 < a / b
  {
    var q := a / b;
    assert q * b == a - a % b > 0;
  }

  class StateCache<K(==,!new), V> {
    const hash: K -> u64
    const size: nat
    const shards: seq<CircularCache<K, V>>

    ghost function Repr(): (r: set<object>)
      ensures forall i :: 0 <= i < |shards| ==> shards[i] in r && shards[i].slots in r
    {
      (set i | 0 <= i < |shards| :: shards[i] as object) + (set i | 0 <= i < |shards| :: shards[i].slots as object)
    }

    /** The shards share neither their objects nor their slot arrays. */
    ghost predicate Separate() {
      && (forall i, j :: 0 <= i < j < |shards| ==> shards[i] != shards[j])
      && (forall i, j :: 0 <= i < j < |shards| ==> shards[i].slots != shards[j].slots)
    }

    ghost function Model(): R.Store<K, V>
      reads Repr()
    {
      R.Store(seq(|shards|, i requires 0 <= i < |shards| reads Repr() => shards[i].Model()), hash)
    }

    ghost predicate Valid()
      reads Repr()
    {
      Separate() && Model().WellFormed()
    }

    constructor (maxEntries: int, ttl: int, hash: K -> u64)
      ensures Valid() && fresh(Repr())
      ensures size == (if maxEntries <= 0 then 1 else maxEntries)
      ensures Model() == R.Store(FreshShards(size, ttl), hash)
      ensures R.BuiltWith(Model(), size, ttl, hash)
    {
      hide M.Cache.WellFormed;
      var total := if maxEntries <= 0 then 1 else maxEntries;
      var shardCount := DEFAULT_CACHE_SHARDS;
      if total < shardCount {
        shardCount := total;
      }
      ShardSizesArePositive(total);
      var baseSize, extra := total / shardCount, total % shardCount;
      var built: seq<CircularCache<K, V>> := [];
      for idx := 0 to shardCount
        invariant |built| == idx
        invariant forall i :: 0 <= i < idx ==>
          fresh(built[i]) && fresh(built[i].slots) && built[i].Model() == M.Fresh(ShardSize(total, i), ttl)
        invariant forall i, j :: 0 <= i < j < idx ==> built[i] != built[j] && built[i].slots != built[j].slots
      {
        var shardSize := baseSize;
        if idx < extra {
          shardSize := shardSize + 1;
        }
        var shard := new CircularCache<K, V>(shardSize, ttl);
        built := built + [shard];
      }
      this.hash := hash;
      size := total;
      shards := built;
      new;
      FreshShardsAreWellFormed<K, V>(total, ttl, hash);
      FreshShardsAreBuilt<K, V>(total, ttl, hash);
      assert Model().shards == FreshShards(total, ttl);
    }

    /** Lookup and insert under the lock of one shard; the other shards are not touched. */
    method GetOrPut(key: K, value: V, tGet: int, tPut: int) returns (answer: M.Answer<V>)
      requires Valid()
      modifies Repr()
      ensures Valid()
      ensures (Model(), answer) == R.Step(old(Model()), R.Call(key, value, tGet, tPut))
    {
      hide M.Get;
      hide M.Put;
      hide M.Cache.WellFormed;
      ghost var before := Model();
      var s := hash(key) % |shards|;
      assert shards[s].Model() == before.shards[s];
      var found := shards[s].Get(key, tGet);
      if found.Some? {
        answer := M.Hit(found.value);
      } else {
        var evicted := shards[s].Put(key, value, tPut);
        answer := M.Miss(evicted);
      }
      forall i | 0 <= i < |shards| && i != s
        ensures shards[i].Model() == before.shards[i]
      {
      }
      assert Model().shards == before.shards[s := shards[s].Model()];
      assert Model() == R.Step(before, R.Call(key, value, tGet, tPut)).0;
    }

    /** With no concurrent access the total is the number of stored keys. */
    method Len() returns (total: int)
      requires Valid()
      ensures total == Model().Occupancy()
    {
      total := 0;
      ghost var read := Model().shards;
      hide M.Cache.WellFormed;
      for idx := 0 to |shards|
        invariant total == SumBy(read[..idx], R.LenOf)
      {
        var n := shards[idx].Len();
        total := total + n;
        assert read[..idx + 1][..idx] == read[..idx];
      }
      assert read[..|shards|] == read == Model().shards;
      assert Model().Occupancy() == SumBy(read, R.LenOf);
    }
  }

  lemma FreshShardsAreWellFormed<K(!new), V>(maxEntries: nat, ttl: int, hash: K -> u64)
    requires 0 < maxEntries
    ensures R.Store(FreshShards<K, V>(maxEntries, ttl), hash).IsFresh()
  {
    ShardSizesArePositive(maxEntries);
  }

  /** The planned shards are those a cache of this size and time to live has to have. */
  lemma FreshShardsAreBuilt<K(!new), V>(maxEntries: nat, ttl: int, hash: K -> u64)
    requires 0 < maxEntries
    ensures R.BuiltWith(R.Store(FreshShards<K, V>(maxEntries, ttl), hash), maxEntries, ttl, hash)
  {
    hide M.Cache.WellFormed;
    hide M.Fresh;
    ShardSizesArePositive(maxEntries);
  }

  /** The shard sizes are positive and add up to the requested size. */
  lemma ShardSizesAddUp<K(!new), V>(maxEntries: nat, ttl: int, hash: K -> u64)
    requires 0 < maxEntries
    ensures var st := R.Store(FreshShards<K, V>(maxEntries, ttl), hash);
            && st.WellFormed()
            && st.Capacity() == maxEntries
            && forall i :: 0 <= i < |st.shards| ==> 1 <= st.shards[i].Capacity()
  {
    FreshShardsAreWellFormed<K, V>(maxEntries, ttl, hash);
    hide M.Cache.WellFormed;
    ShardSizesArePositive(maxEntries);
    var shards := FreshShards<K, V>(maxEntries, ttl);
    var count := ShardCount(maxEntries);
    SumOfFirstShards(maxEntries / count, maxEntries % count, shards, |shards|);
    assert shards[..|shards|] == shards;
    DivMod(maxEntries, count);
  }

  lemma DivMod(a: nat, b: nat)
    requires 0 < b
    ensures b * (a / b) + Min(b, a % b) == a
  {
  }

  lemma {:induction false} SumOfFirstShards<K(!new), V>(base: nat, extra: nat, shards: seq<M.Cache<K, V>>, n: nat)
    requires n <= |shards|
    requires forall i :: 0 <= i < |shards| ==> shards[i].Capacity() == base + if i < extra then 1 else 0
    ensures SumBy(shards[..n], R.SlotsOf) == n * base + Min(n, extra)
  {
    if n > 0 {
      SumOfFirstShards(base, extra, shards, n - 1);
      assert shards[..n][..n - 1] == shards[..n - 1];
      Distribute(n, base);
    }
  }

  lemma Distribute(n: int, base: int)
    ensures n * base == (n - 1) * base + base
  {
  }
}
