/**
 * Runs of a sharded detector cache. Every access happens under the lock of one shard,
 * so any concurrent history is some sequence of calls; a run is such a sequence. Clock
 * readings are arbitrary: nothing here assumes that they are ordered.
 */
module ShardedRuns {
  import opened Prelude
  import opened CacheModel

  /** Skip stands for an event that does not consult the cache, so that runs keep their indices. */
  datatype Call<K, V> = Skip | Call(key: K, value: V, tGet: int, tPut: int)

  function LenOf<K(!new), V>(c: Cache<K, V>): int {
    c.len
  }

  function SlotsOf<K(!new), V>(c: Cache<K, V>): int {
    c.Capacity()
  }

  datatype Store<!K(==,!new), V> = Store(shards: seq<Cache<K, V>>, hash: K -> u64)
  {
    function ShardOf(key: K): (s: nat)
      requires 0 < |shards|
      ensures s < |shards|
    {
      hash(key) % |shards|
    }

    /** Every shard is in order, uses the same ttl and stores only keys that belong to it. */
    ghost predicate WellFormed() {
      && 0 < |shards|
      && (forall i :: 0 <= i < |shards| ==> shards[i].WellFormed() && shards[i].ttl == shards[0].ttl)
      && (forall i, k :: 0 <= i < |shards| && k in shards[i].items ==> ShardOf(k) == i)
    }

    ghost function Home(key: K): Cache<K, V>
      requires WellFormed()
    {
      shards[ShardOf(key)]
    }

    ghost function Find(key: K): Option<Entry<V>>
      requires WellFormed()
    {
      Home(key).Find(key)
    }

    ghost predicate Live(key: K, now: int)
      requires WellFormed()
    {
      Find(key).Some? && now <= Find(key).value.expiresAt
    }

    ghost predicate IsFresh() {
      WellFormed() && forall k :: Find(k) == None
    }

    ghost function Ttl(): int
      requires WellFormed()
    {
      shards[0].ttl
    }

    /** The same shards, as far as their configuration goes. */
    ghost predicate SameShape(other: Store<K, V>) {
      && hash == other.hash && |shards| == |other.shards|
      && forall i :: 0 <= i < |shards| ==>
           shards[i].ttl == other.shards[i].ttl && shards[i].Capacity() == other.shards[i].Capacity()
    }

    function Occupancy(): int {
      SumBy(shards, LenOf)
    }

    function Capacity(): int {
      SumBy(shards, SlotsOf)
    }
  }

  /**
   * A store as it is built for a number of entries: at most 64 new shards, of sizes that differ by
   * at most one and add up, all with the time to live asked for.
   */
  ghost predicate BuiltWith<K(!new), V>(st: Store<K, V>, size: nat, ttl: int, hash: K -> u64)
    requires 0 < size
  {
    && st.hash == hash && |st.shards| == Min(64, size)
    && forall i :: 0 <= i < |st.shards| ==>
         var capacity := BuiltCapacity(size, |st.shards|, i);
         0 < capacity && st.shards[i] == Fresh(capacity, ttl)
  }

  function BuiltCapacity(size: nat, count: nat, i: nat): nat
    requires 0 < count
  {
    size / count + if i < size % count then 1 else 0
  }

  lemma BuiltMeans<K(!new), V>(st: Store<K, V>, size: nat, ttl: int, hash: K -> u64)
    requires 0 < size && BuiltWith(st, size, ttl, hash)
    ensures st.IsFresh() && st.Ttl() == ttl && st.hash == hash
    ensures forall i :: 0 <= i < |st.shards| ==>
              st.shards[i].ttl == ttl && st.shards[i].Capacity() == BuiltCapacity(size, |st.shards|, i) > 0
  {
    hide Cache.WellFormed;
    assert forall i :: 0 <= i < |st.shards| ==> forall k :: st.shards[i].Find(k) == None;
    hide Fresh;
  }

  function Step<K(==,!new), V>(st: Store<K, V>, call: Call<K, V>): (r: (Store<K, V>, Answer<V>))
    requires st.WellFormed()
    ensures r.0.WellFormed() && st.SameShape(r.0) && r.0.Ttl() == st.Ttl()
    ensures r.1 == NotAsked <==> call.Skip?
    ensures call.Skip? ==> r.0 == st
  {
    match call
    case Skip => (st, NotAsked)
    case Call(key, value, tGet, tPut) =>
      StepKeeps(st, call);
      hide GetOrPut;
      hide Cache.WellFormed;
      hide Store.SameShape;
      hide Store.Ttl;
      var s := st.ShardOf(key);
      var (c, a) := GetOrPut(st.shards[s], key, value, tGet, tPut);
      (Store(st.shards[s := c], st.hash), a)
  }

  lemma StepKeeps<K(!new), V>(st: Store<K, V>, call: Call<K, V>)
    requires st.WellFormed() && call.Call?
    ensures var s := st.ShardOf(call.key);
            var c := GetOrPut(st.shards[s], call.key, call.value, call.tGet, call.tPut).0;
            var r := Store(st.shards[s := c], st.hash);
            r.WellFormed() && st.SameShape(r) && r.Ttl() == st.Ttl()
  {
    hide GetOrPut;
    hide Cache.WellFormed;
    var s := st.ShardOf(call.key);
    var r := Store(st.shards[s := GetOrPut(st.shards[s], call.key, call.value, call.tGet, call.tPut).0], st.hash);
    forall k | k in r.shards[s].items
      ensures r.ShardOf(k) == s
    {
      if k != call.key {
        OnlyTheKeyIsAdded(st.shards[s], call, k);
        assert k in st.shards[s].items;
      }
      assert r.ShardOf(k) == st.ShardOf(k);
    }
    forall i, k | 0 <= i < |r.shards| && k in r.shards[i].items
      ensures r.ShardOf(k) == i
    {
      assert i != s ==> r.shards[i] == st.shards[i];
      assert r.ShardOf(k) == st.ShardOf(k);
    }
  }

  lemma OnlyTheKeyIsAdded<K(!new), V>(c: Cache<K, V>, call: Call<K, V>, k: K)
    requires c.WellFormed() && call.Call? && k != call.key
    requires k in GetOrPut(c, call.key, call.value, call.tGet, call.tPut).0.items
    ensures k in c.items
  {
    hide GetOrPut;
    if c.Live(call.key, call.tGet) {
      GetOrPutHit(c, call.key, call.value, call.tGet, call.tPut);
    } else {
      GetOrPutMiss(c, call.key, call.value, call.tGet, call.tPut);
      assert GetOrPut(c, call.key, call.value, call.tGet, call.tPut).0.Find(k).Some?;
    }
  }

  /** The key a call pushes out of the cache to make room, if any. */
  ghost function Lost<K(!new), V>(st: Store<K, V>, call: Call<K, V>): (lost: Option<K>)
    requires st.WellFormed()
    ensures lost.Some? ==> call.Call? && lost.value != call.key
  {
    if call.Skip? || st.Live(call.key, call.tGet) then None
    else Evicted(st.Home(call.key), call.key)
  }

  /** One call against the whole store, seen as a partial map. */
  lemma StepMeaning<K(!new), V>(st: Store<K, V>, call: Call<K, V>)
    requires st.WellFormed()
    ensures var (st', a) := Step(st, call);
            && (call.Skip? ==> st' == st)
            && (call.Call? && st.Live(call.key, call.tGet) ==>
                  st' == st && a == Hit(st.Find(call.key).value.value))
            && (call.Call? && !st.Live(call.key, call.tGet) ==>
                  a == Miss(if Lost(st, call).Some? then 1 else 0))
            && forall k :: st'.Find(k) ==
                 if call.Call? && !st.Live(call.key, call.tGet) && k == call.key
                 then Some(Entry(call.value, call.tPut + st.Ttl()))
                 else if Lost(st, call) == Some(k) then None
                 else st.Find(k)
  {
    hide Cache.WellFormed;
    hide GetOrPut;
    if call.Call? {
      var c := st.Home(call.key);
      var s := st.ShardOf(call.key);
      if st.Live(call.key, call.tGet) {
        GetOrPutHit(c, call.key, call.value, call.tGet, call.tPut);
        assert st.shards[s := c] == st.shards;
      } else {
        GetOrPutMiss(c, call.key, call.value, call.tGet, call.tPut);
      }
    }
  }

  /** The store after the first n calls of a run. */
  function StateAt<K(==,!new), V>(st: Store<K, V>, calls: seq<Call<K, V>>, n: nat): (r: Store<K, V>)
    requires st.WellFormed() && n <= |calls|
    ensures r.WellFormed() && st.SameShape(r) && r.Ttl() == st.Ttl()
  {
    hide Step;
    if n == 0 then st else Step(StateAt(st, calls, n - 1), calls[n - 1]).0
  }

  function AnswerAt<K(==,!new), V>(st: Store<K, V>, calls: seq<Call<K, V>>, i: nat): Answer<V>
    requires st.WellFormed() && i < |calls|
  {
    Step(StateAt(st, calls, i), calls[i]).1
  }

  ghost function LostAt<K(!new), V>(st: Store<K, V>, calls: seq<Call<K, V>>, i: nat): Option<K>
    requires st.WellFormed() && i < |calls|
  {
    Lost(StateAt(st, calls, i), calls[i])
  }

  /** Extending a run does not change its past. */
  lemma {:induction false} StateAtPrefix<K(!new), V>(st: Store<K, V>, a: seq<Call<K, V>>, b: seq<Call<K, V>>, n: nat)
    requires st.WellFormed() && n <= |a|
    ensures StateAt(st, a + b, n) == StateAt(st, a, n)
  {
    hide Step;
    hide Store.WellFormed;
    hide Store.SameShape;
    hide Store.Ttl;
    if n > 0 {
      StateAtPrefix(st, a, b, n - 1);
    }
  }

  // First write wins

  /** Call j stored its value under the key, and up to call n the key kept that value. */
  ghost predicate Holds<K(!new), V>(st: Store<K, V>, calls: seq<Call<K, V>>, j: nat, n: nat, key: K)
    requires st.WellFormed() && n <= |calls|
  {
    && j < n
    && calls[j].Call? && calls[j].key == key && AnswerAt(st, calls, j).Miss?
    && forall m :: j < m < n ==>
         && LostAt(st, calls, m) != Some(key)
         && (calls[m].Call? && calls[m].key == key ==> AnswerAt(st, calls, m) == Hit(calls[j].value))
  }

  lemma HoldsExtends<K(!new), V>(st: Store<K, V>, calls: seq<Call<K, V>>, j: nat, n: nat, key: K)
    requires st.WellFormed() && 0 < n <= |calls| && Holds(st, calls, j, n - 1, key)
    requires LostAt(st, calls, n - 1) != Some(key)
    requires calls[n - 1].Call? && calls[n - 1].key == key ==> AnswerAt(st, calls, n - 1) == Hit(calls[j].value)
    ensures Holds(st, calls, j, n, key)
  {
    hide AnswerAt;
    hide LostAt;
  }

  /** Whatever the store knows about a key, some call stored it and nothing has touched it since. */
  lemma {:induction false} Provenance<K(!new), V>(st: Store<K, V>, calls: seq<Call<K, V>>, n: nat, key: K) returns (j: nat)
    requires st.IsFresh() && n <= |calls|
    requires StateAt(st, calls, n).Find(key).Some?
    ensures Holds(st, calls, j, n, key)
    ensures StateAt(st, calls, n).Find(key) == Some(Entry(calls[j].value, calls[j].tPut + st.Ttl()))
  {
    hide Step;
    hide Store.WellFormed;
    hide Store.SameShape;
    hide Store.Find;
    hide Store.Ttl;
    hide Lost;
    var prev, call := StateAt(st, calls, n - 1), calls[n - 1];
    StepMeaning(prev, call);
    assert AnswerAt(st, calls, n - 1) == Step(prev, call).1;
    assert LostAt(st, calls, n - 1) == Lost(prev, call);
    if call.Call? && call.key == key && Step(prev, call).1.Miss? {
      j := n - 1;
    } else {
      hide Holds;
      j := Provenance(st, calls, n - 1, key);
      HoldsExtends(st, calls, j, n, key);
    }
  }

  /**
   * A hit returns the value of the call that first stored the key since it was last dropped.
   * That call happened at most one ttl before the lookup, and no hit in between renewed it.
   */
  lemma HitReturnsFirstWrite<K(!new), V>(st: Store<K, V>, calls: seq<Call<K, V>>, i: nat) returns (j: nat)
    requires st.IsFresh() && i < |calls| && AnswerAt(st, calls, i).Hit?
    ensures Holds(st, calls, j, i, calls[i].key)
    ensures AnswerAt(st, calls, i) == Hit(calls[j].value)
    ensures calls[i].tGet <= calls[j].tPut + st.Ttl()
  {
    hide Step;
    hide Store.WellFormed;
    hide Store.SameShape;
    hide Store.Find;
    hide Store.Ttl;
    StepMeaning(StateAt(st, calls, i), calls[i]);
    j := Provenance(st, calls, i, calls[i].key);
  }

  /** The key was neither evicted nor looked up after its time between call j and call i. */
  ghost predicate KeptUntil<K(!new), V>(st: Store<K, V>, calls: seq<Call<K, V>>, j: nat, i: nat)
    requires st.WellFormed() && j < i < |calls| && calls[j].Call?
  {
    && (forall m :: j < m < i ==> LostAt(st, calls, m) != Some(calls[j].key))
    && (forall m :: j < m <= i && calls[m].Call? && calls[m].key == calls[j].key ==>
          calls[m].tGet <= calls[j].tPut + st.Ttl())
  }

  lemma {:induction false} StillStored<K(!new), V>(st: Store<K, V>, calls: seq<Call<K, V>>, j: nat, i: nat)
    requires st.WellFormed() && j < i < |calls|
    requires calls[j].Call? && AnswerAt(st, calls, j).Miss? && KeptUntil(st, calls, j, i)
    ensures StateAt(st, calls, i).Find(calls[j].key) == Some(Entry(calls[j].value, calls[j].tPut + st.Ttl()))
  {
    hide Step;
    hide Store.WellFormed;
    hide Store.SameShape;
    hide Store.Find;
    hide Store.Ttl;
    var prev, call := StateAt(st, calls, i - 1), calls[i - 1];
    StepMeaning(prev, call);
    if j + 1 < i {
      StillStored(st, calls, j, i - 1);
      assert LostAt(st, calls, i - 1) != Some(calls[j].key);
      assert call.Call? && call.key == calls[j].key ==> prev.Live(call.key, call.tGet);
    } else {
      assert AnswerAt(st, calls, j) == Step(prev, call).1;
      assert !prev.Live(call.key, call.tGet);
    }
  }

  /** The converse: until its key is evicted or expires, the stored value answers every lookup. */
  lemma KeptValueIsReturned<K(!new), V>(st: Store<K, V>, calls: seq<Call<K, V>>, j: nat, i: nat)
    requires st.WellFormed() && j < i < |calls|
    requires calls[j].Call? && AnswerAt(st, calls, j).Miss?
    requires calls[i].Call? && calls[i].key == calls[j].key
    requires KeptUntil(st, calls, j, i)
    ensures AnswerAt(st, calls, i) == Hit(calls[j].value)
  {
    hide Step;
    hide Store.WellFormed;
    hide Store.SameShape;
    hide Store.Find;
    hide Store.Ttl;
    StillStored(st, calls, j, i);
    StepMeaning(StateAt(st, calls, i), calls[i]);
  }

  // Agreement with an unbounded table

  type Table<K, V> = map<K, Entry<V>>

  /** The simple specification: a map in which the first write wins until it expires. */
  function TableStep<K, V>(t: Table<K, V>, ttl: int, call: Call<K, V>): (Table<K, V>, Answer<V>) {
    match call
    case Skip => (t, NotAsked)
    case Call(key, value, tGet, tPut) =>
      if key in t && tGet <= t[key].expiresAt then (t, Hit(t[key].value))
      else (t[key := Entry(value, tPut + ttl)], Miss(0))
  }

  function TableAt<K, V>(ttl: int, calls: seq<Call<K, V>>, n: nat): Table<K, V>
    requires n <= |calls|
  {
    if n == 0 then map[] else TableStep(TableAt(ttl, calls, n - 1), ttl, calls[n - 1]).0
  }

  /** All keys come from a set of which no shard is home to more than it has slots for. */
  ghost predicate Fits<K(!new), V>(st: Store<K, V>, calls: seq<Call<K, V>>, keys: set<K>)
    requires st.WellFormed()
  {
    && (forall i :: 0 <= i < |calls| && calls[i].Call? ==> calls[i].key in keys)
    && (forall s :: 0 <= s < |st.shards| ==> |KeysAt(st, keys, s)| <= st.shards[s].Capacity())
  }

  ghost function KeysAt<K(!new), V>(st: Store<K, V>, keys: set<K>, s: nat): set<K>
    requires st.WellFormed()
  {
    set k | k in keys && st.ShardOf(k) == s
  }

  ghost predicate Agrees<K(!new), V>(st: Store<K, V>, t: Table<K, V>)
    requires st.WellFormed()
  {
    forall k :: st.Find(k) == if k in t then Some(t[k]) else None
  }

  /** A shard that only holds keys it has room for evicts nothing. */
  lemma RoomyShardEvictsNothing<K(!new), V>(c: Cache<K, V>, keys: set<K>, key: K)
    requires c.WellFormed() && c.items.Keys <= keys && |keys| <= c.Capacity()
    requires key in keys && key !in c.items
    ensures c.Victim() == None
  {
    SubsetSize(c.items.Keys, keys - {key});
  }

  ghost predicate HoldsOnly<K(!new), V>(st: Store<K, V>, keys: set<K>)
    requires st.WellFormed()
  {
    forall k :: st.Find(k).Some? ==> k in keys
  }

  lemma NothingIsLost<K(!new), V>(st: Store<K, V>, call: Call<K, V>, keys: set<K>)
    requires st.WellFormed() && HoldsOnly(st, keys) && (call.Call? ==> call.key in keys)
    requires forall s :: 0 <= s < |st.shards| ==> |KeysAt(st, keys, s)| <= st.shards[s].Capacity()
    ensures Lost(st, call) == None
  {
    hide Cache.WellFormed;
    if call.Call? && call.key !in st.Home(call.key).items {
      var s := st.ShardOf(call.key);
      forall k | k in st.shards[s].items
        ensures k in KeysAt(st, keys, s)
      {
        assert st.Find(k).Some?;
      }
      RoomyShardEvictsNothing(st.shards[s], KeysAt(st, keys, s), call.key);
    }
  }

  lemma {:induction false} FittingRunAgrees<K(!new), V>(st: Store<K, V>, calls: seq<Call<K, V>>, keys: set<K>, n: nat)
    requires st.IsFresh() && Fits(st, calls, keys) && n <= |calls|
    ensures Agrees(StateAt(st, calls, n), TableAt(st.Ttl(), calls, n))
    ensures HoldsOnly(StateAt(st, calls, n), keys)
    ensures n < |calls| ==> LostAt(st, calls, n) == None
  {
    hide Step;
    hide Store.WellFormed;
    hide Store.Find;
    if n > 0 {
      FittingRunAgrees(st, calls, keys, n - 1);
      StepMeaning(StateAt(st, calls, n - 1), calls[n - 1]);
    }
    if n < |calls| {
      var now := StateAt(st, calls, n);
      forall s | 0 <= s < |now.shards|
        ensures |KeysAt(now, keys, s)| <= now.shards[s].Capacity()
      {
        assert KeysAt(now, keys, s) == KeysAt(st, keys, s);
      }
      NothingIsLost(now, calls[n], keys);
    }
  }

  /**
   * If no shard ever sees more distinct keys than it has slots, nothing is evicted and every
   * answer is that of the unbounded first-write-wins table.
   */
  lemma FittingRunIsUnbounded<K(!new), V>(st: Store<K, V>, calls: seq<Call<K, V>>, keys: set<K>, i: nat)
    requires st.IsFresh() && Fits(st, calls, keys) && i < |calls|
    ensures LostAt(st, calls, i) == None
    ensures AnswerAt(st, calls, i) == TableStep(TableAt(st.Ttl(), calls, i), st.Ttl(), calls[i]).1
  {
    hide Step;
    hide Store.WellFormed;
    hide Store.Find;
    FittingRunAgrees(st, calls, keys, i);
    StepMeaning(StateAt(st, calls, i), calls[i]);
  }

  // Sharding

  /** The calls for the keys that a hash sends to shard s of `count`, each in its place. */
  function OnlyShard<K, V>(calls: seq<Call<K, V>>, hash: K -> u64, count: nat, s: nat): (r: seq<Call<K, V>>)
    requires 0 < count
    ensures |r| == |calls|
  {
    seq(|calls|, i requires 0 <= i < |calls| =>
      if calls[i].Call? && hash(calls[i].key) % count == s then calls[i] else Skip)
  }

  /** The run in which only the calls for one shard remain, each in its place. */
  function Restrict<K(==,!new), V>(st: Store<K, V>, calls: seq<Call<K, V>>, s: nat): (r: seq<Call<K, V>>)
    requires 0 < |st.shards|
    ensures |r| == |calls|
  {
    seq(|calls|, i requires 0 <= i < |calls| =>
      if calls[i].Call? && st.ShardOf(calls[i].key) == s then calls[i] else Skip)
  }

  /** A call reads and writes its own shard only. */
  lemma StepOnShard<K(!new), V>(st: Store<K, V>, call: Call<K, V>, s: nat)
    requires st.WellFormed() && s < |st.shards|
    ensures call.Call? && st.ShardOf(call.key) == s ==>
              (Step(st, call).0.shards[s], Step(st, call).1) ==
              GetOrPut(st.shards[s], call.key, call.value, call.tGet, call.tPut)
    ensures !(call.Call? && st.ShardOf(call.key) == s) ==> Step(st, call).0.shards[s] == st.shards[s]
  {
    hide GetOrPut;
    hide Cache.WellFormed;
  }

  /** A call and what is left of it for one shard do the same to that shard. */
  lemma RestrictedStep<K(!new), V>(st: Store<K, V>, other: Store<K, V>, calls: seq<Call<K, V>>, s: nat, i: nat)
    requires st.WellFormed() && other.WellFormed() && i < |calls| && s < |st.shards| == |other.shards|
    requires st.hash == other.hash && st.shards[s] == other.shards[s]
    ensures Step(st, calls[i]).0.shards[s] == Step(other, Restrict(st, calls, s)[i]).0.shards[s]
  {
    hide Step;
    hide GetOrPut;
    hide Store.WellFormed;
    StepOnShard(st, calls[i], s);
    StepOnShard(other, Restrict(st, calls, s)[i], s);
  }

  lemma RestrictSameShape<K(!new), V>(st: Store<K, V>, other: Store<K, V>, calls: seq<Call<K, V>>, s: nat)
    requires 0 < |st.shards| && st.SameShape(other)
    ensures Restrict(st, calls, s) == Restrict(other, calls, s)
  {
    hide Cache.WellFormed;
  }

  lemma {:induction false} RestrictKeepsShard<K(!new), V>(st: Store<K, V>, calls: seq<Call<K, V>>, s: nat, n: nat)
    requires st.WellFormed() && s < |st.shards| && n <= |calls|
    ensures StateAt(st, Restrict(st, calls, s), n).shards[s] == StateAt(st, calls, n).shards[s]
  {
    hide Step;
    hide Store.WellFormed;
    hide GetOrPut;
    hide Restrict;
    if n > 0 {
      RestrictKeepsShard(st, calls, s, n - 1);
      var here, there := StateAt(st, calls, n - 1), StateAt(st, Restrict(st, calls, s), n - 1);
      RestrictSameShape(st, here, calls, s);
      RestrictedStep(here, there, calls, s, n - 1);
    }
  }

  /** An answer depends only on the calls for keys of the same shard. */
  lemma ShardsAreIndependent<K(!new), V>(st: Store<K, V>, calls: seq<Call<K, V>>, i: nat)
    requires st.WellFormed() && i < |calls| && calls[i].Call?
    ensures AnswerAt(st, Restrict(st, calls, st.ShardOf(calls[i].key)), i) == AnswerAt(st, calls, i)
  {
    hide Step;
    hide GetOrPut;
    var s := st.ShardOf(calls[i].key);
    hide Store.WellFormed;
    RestrictKeepsShard(st, calls, s, i);
    StepOnShard(StateAt(st, calls, i), calls[i], s);
    StepOnShard(StateAt(st, Restrict(st, calls, s), i), calls[i], s);
  }

  /** Calls on different shards commute, answers included. */
  lemma DifferentShardsCommute<K(!new), V>(st: Store<K, V>, a: Call<K, V>, b: Call<K, V>)
    requires st.WellFormed()
    requires a.Call? && b.Call? ==> st.ShardOf(a.key) != st.ShardOf(b.key)
    ensures var (sa, ra) := Step(st, a);
            var (sb, rb) := Step(st, b);
            && Step(sa, b).0 == Step(sb, a).0
            && Step(sa, b).1 == rb
            && Step(sb, a).1 == ra
  {
    hide Cache.WellFormed;
    hide GetOrPut;
    var (sa, ra) := Step(st, a);
    var (sb, rb) := Step(st, b);
    if a.Call? && b.Call? {
      assert Step(sa, b).0.shards == Step(sb, a).0.shards;
    }
  }

  // Occupancy

  /** The lookup drops the entry because its time has passed. */
  ghost predicate Expires<K(!new), V>(st: Store<K, V>, call: Call<K, V>)
    requires st.WellFormed()
  {
    call.Call? && st.Find(call.key).Some? && !st.Live(call.key, call.tGet)
  }

  datatype Tally = Tally(misses: nat, evictions: nat, expiries: nat)

  /** What the operation and eviction counters, and the silent expiries, add up to. */
  ghost function TallyAt<K(!new), V>(st: Store<K, V>, calls: seq<Call<K, V>>, n: nat): Tally
    requires st.WellFormed() && n <= |calls|
  {
    if n == 0 then Tally(0, 0, 0)
    else
      var t, a := TallyAt(st, calls, n - 1), AnswerAt(st, calls, n - 1);
      Tally(t.misses + (if a.Miss? then 1 else 0),
            t.evictions + (if a.Miss? then a.evicted else 0),
            t.expiries + (if Expires(StateAt(st, calls, n - 1), calls[n - 1]) then 1 else 0))
  }

  lemma GetOrPutLen<K(!new), V>(c: Cache<K, V>, key: K, value: V, tGet: int, tPut: int)
    requires c.WellFormed()
    ensures var (c', a) := GetOrPut(c, key, value, tGet, tPut);
            c'.len == c.len + (if a.Miss? then 1 - a.evicted else 0)
                            - (if key in c.items && !c.Live(key, tGet) then 1 else 0)
  {
  }

  lemma StepOccupancy<K(!new), V>(st: Store<K, V>, call: Call<K, V>)
    requires st.WellFormed()
    ensures var (st', a) := Step(st, call);
            st'.Occupancy() == st.Occupancy() + (if a.Miss? then 1 - a.evicted else 0)
                                              - (if Expires(st, call) then 1 else 0)
  {
    hide GetOrPut;
    hide Cache.WellFormed;
    if call.Call? {
      var s := st.ShardOf(call.key);
      GetOrPutLen(st.shards[s], call.key, call.value, call.tGet, call.tPut);
      SumUpdate(st.shards, s, Step(st, call).0.shards[s], LenOf);
    }
  }

  /** Every entry came with a miss and left by eviction or expiry. */
  lemma {:induction false} OccupancyIsConserved<K(!new), V>(st: Store<K, V>, calls: seq<Call<K, V>>, n: nat)
    requires st.WellFormed() && n <= |calls|
    ensures var t := TallyAt(st, calls, n);
            StateAt(st, calls, n).Occupancy() == st.Occupancy() + t.misses - t.evictions - t.expiries
  {
    hide Step;
    hide Store.WellFormed;
    hide Store.SameShape;
    hide Store.Occupancy;
    hide Expires;
    if n > 0 {
      OccupancyIsConserved(st, calls, n - 1);
      StepOccupancy(StateAt(st, calls, n - 1), calls[n - 1]);
    }
  }

  /**
   * Reading the length locks one shard at a time, so the shards may be read at different
   * moments of a run. Whatever the moments, the total stays within the capacity.
   */
  lemma LenNeverExceedsCapacity<K(!new), V>(st: Store<K, V>, calls: seq<Call<K, V>>, moments: seq<nat>)
    requires st.WellFormed() && |moments| == |st.shards|
    requires forall i :: 0 <= i < |moments| ==> moments[i] <= |calls|
    ensures SumBy(ReadAt(st, calls, moments), LenOf) <= st.Capacity()
  {
    hide Cache.WellFormed;
    hide StateAt;
    var read := ReadAt(st, calls, moments);
    forall i | 0 <= i < |read|
      ensures read[i].len <= read[i].Capacity() == st.shards[i].Capacity()
    {
      FullExactlyWhenEvicting(read[i]);
    }
    SumOfCapacities(read, st.shards);
    SumBounds(read, LenOf, SlotsOf);
  }

  ghost function ReadAt<K(!new), V>(st: Store<K, V>, calls: seq<Call<K, V>>, moments: seq<nat>): seq<Cache<K, V>>
    requires st.WellFormed() && |moments| == |st.shards|
    requires forall i :: 0 <= i < |moments| ==> moments[i] <= |calls|
  {
    seq(|moments|, i requires 0 <= i < |moments| => StateAt(st, calls, moments[i]).shards[i])
  }

  lemma {:induction false} SumOfCapacities<K(!new), V>(a: seq<Cache<K, V>>, b: seq<Cache<K, V>>)
    requires |a| == |b| && forall i :: 0 <= i < |a| ==> a[i].Capacity() == b[i].Capacity()
    ensures SumBy(a, SlotsOf) == SumBy(b, SlotsOf)
  {
    if a != [] {
      SumOfCapacities(a[..|a| - 1], b[..|b| - 1]);
    }
  }
}
