/**
 * The simplest account of the cache: a bounded queue of keys and a table of what was written last
 * under each. It has no slots, no free stack and no cursor, and yet gives the same answers as the
 * sharded cache in every run.
 */
module Reference {
  import opened Prelude
  import opened CacheModel
  import R = ShardedRuns
  import F = Fifo

  datatype Shelf<K, V> = Shelf(queue: seq<K>, table: map<K, Entry<V>>)

  /** A queued key whose time has not passed is answered; any other call writes. */
  function ShelfStep<K, V>(capacity: nat, ttl: int, shelf: Shelf<K, V>, call: R.Call<K, V>): (Shelf<K, V>, Answer<V>)
    requires 0 < capacity
  {
    match call
    case Skip => (shelf, NotAsked)
    case Call(key, value, tGet, tPut) =>
      var table := shelf.table[key := Entry(value, tPut + ttl)];
      if key !in shelf.queue then
        (Shelf(F.Enqueue(shelf.queue, key, capacity), table), Miss(if |shelf.queue| == capacity then 1 else 0))
      else if key in shelf.table && tGet <= shelf.table[key].expiresAt then (shelf, Hit(shelf.table[key].value))
      else (Shelf(shelf.queue, table), Miss(0))
  }

  function ShelfAt<K, V>(capacity: nat, ttl: int, calls: seq<R.Call<K, V>>, n: nat): Shelf<K, V>
    requires 0 < capacity && n <= |calls|
  {
    if n == 0 then Shelf([], map[]) else ShelfStep(capacity, ttl, ShelfAt(capacity, ttl, calls, n - 1), calls[n - 1]).0
  }

  function ShelfAnswer<K(==), V>(capacity: nat, ttl: int, calls: seq<R.Call<K, V>>, i: nat): Answer<V>
    requires 0 < capacity && i < |calls|
  {
    ShelfStep(capacity, ttl, ShelfAt(capacity, ttl, calls, i), calls[i]).1
  }

  /** The queue of the shelf is that of the keys asked for. */
  lemma {:induction false} ShelfQueue<K, V>(capacity: nat, ttl: int, calls: seq<R.Call<K, V>>, n: nat)
    requires 0 < capacity && n <= |calls|
    ensures ShelfAt(capacity, ttl, calls, n).queue == F.KeyQueue(capacity, F.KeysOf(calls), n)
  {
    hide F.Enqueue;
    if n > 0 {
      ShelfQueue(capacity, ttl, calls, n - 1);
    }
  }

  /** A shard and a shelf remember the same. */
  ghost predicate Agree<K(!new), V>(c: Cache<K, V>, shelf: Shelf<K, V>) {
    && c.WellFormed() && F.Ring(c, shelf.queue)
    && forall k :: k in shelf.queue ==> k in shelf.table && c.Find(k) == Some(shelf.table[k])
  }

  /** What a hit or a write leaves in a shard, and what it answers. */
  lemma CallMeaning<K(!new), V>(c: Cache<K, V>, queue: seq<K>, call: R.Call<K, V>)
    requires c.WellFormed() && F.Ring(c, queue) && call.Call?
    ensures var (c', a) := F.Do(c, call);
            && (c.Live(call.key, call.tGet) ==> c' == c && a == Hit(c.Find(call.key).value.value))
            && (!c.Live(call.key, call.tGet) ==>
                  && a == Miss(if call.key !in queue && |queue| == c.Capacity() then 1 else 0)
                  && forall k :: k in c'.items ==>
                       c'.Find(k) == if k == call.key then Some(Entry(call.value, call.tPut + c.ttl)) else c.Find(k))
    ensures call.key in c.items <==> call.key in queue
  {
    hide GetOrPut;
    hide F.Ring;
    hide Cache.Bijection;
    hide Cache.FreeList;
    F.RingHoldsLiveKeys(c, queue);
    F.VictimIsHead(c, queue);
    if c.Live(call.key, call.tGet) {
      GetOrPutHit(c, call.key, call.value, call.tGet, call.tPut);
    } else {
      GetOrPutMiss(c, call.key, call.value, call.tGet, call.tPut);
    }
  }

  /** One lookup of a shard is one of its shelf. */
  lemma StepAgrees<K(!new), V>(c: Cache<K, V>, shelf: Shelf<K, V>, call: R.Call<K, V>)
    requires Agree(c, shelf)
    ensures var (shelf', a) := ShelfStep(c.Capacity(), c.ttl, shelf, call);
            Agree(F.Do(c, call).0, shelf') && F.Do(c, call).1 == a
  {
    hide Cache.Bijection;
    hide Cache.FreeList;
    hide F.Ring;
    hide F.Enqueue;
    hide GetOrPut;
    if call.Call? {
      CallMeaning(c, shelf.queue, call);
      F.CallOnQueue(c, shelf.queue, call);
      hide F.Do;
      if c.Live(call.key, call.tGet) {
        LiveOnShelf(c, shelf, call);
      } else {
        var c', shelf' := F.Do(c, call).0, ShelfStep(c.Capacity(), c.ttl, shelf, call).0;
        LateOnShelf(c, shelf, call);
        F.RingHoldsLiveKeys(c', shelf'.queue);
        EnqueuedKeys(shelf.queue, call.key, c.Capacity());
      }
    }
  }

  lemma LiveOnShelf<K(!new), V>(c: Cache<K, V>, shelf: Shelf<K, V>, call: R.Call<K, V>)
    requires Agree(c, shelf) && call.Call? && c.Live(call.key, call.tGet)
    requires call.key in c.items <==> call.key in shelf.queue
    ensures ShelfStep(c.Capacity(), c.ttl, shelf, call) == (shelf, Hit(c.Find(call.key).value.value))
  {
    hide Cache.Bijection;
    hide Cache.FreeList;
    hide F.Ring;
    hide F.Enqueue;
  }

  lemma LateOnShelf<K(!new), V>(c: Cache<K, V>, shelf: Shelf<K, V>, call: R.Call<K, V>)
    requires Agree(c, shelf) && call.Call? && !c.Live(call.key, call.tGet)
    requires call.key in c.items <==> call.key in shelf.queue
    ensures var (shelf', a) := ShelfStep(c.Capacity(), c.ttl, shelf, call);
            && shelf'.table == shelf.table[call.key := Entry(call.value, call.tPut + c.ttl)]
            && shelf'.queue == (if call.key in shelf.queue then shelf.queue
                                else F.Enqueue(shelf.queue, call.key, c.Capacity()))
            && a == Miss(if call.key !in shelf.queue && |shelf.queue| == c.Capacity() then 1 else 0)
  {
    hide Cache.Bijection;
    hide Cache.FreeList;
    hide F.Ring;
    hide F.Enqueue;
  }

  lemma EnqueuedKeys<K>(queue: seq<K>, key: K, size: nat)
    requires 0 < size
    ensures forall k :: k in F.Enqueue(queue, key, size) ==> k == key || k in queue
  {
  }

  lemma {:induction false} RunAgrees<K(!new), V>(c: Cache<K, V>, run: F.Run<K, V>, n: nat)
    requires c.WellFormed() && F.Ring(c, []) && n <= |run| && 0 < c.Capacity()
    ensures Agree(F.CacheAt(c, run, n), ShelfAt(c.Capacity(), c.ttl, run, n))
  {
    hide Agree;
    hide F.Do;
    hide F.Ring;
    hide ShelfStep;
    hide Cache.WellFormed;
    if n == 0 {
      EmptyAgrees(c);
    } else {
      RunAgrees(c, run, n - 1);
      StepAgrees(F.CacheAt(c, run, n - 1), ShelfAt(c.Capacity(), c.ttl, run, n - 1), run[n - 1]);
    }
  }

  lemma EmptyAgrees<K(!new), V>(c: Cache<K, V>)
    requires c.WellFormed() && F.Ring(c, [])
    ensures Agree(c, Shelf([], map[]))
  {
  }

  // The sharded cache

  /** A store as it is built: every shard an empty queue. */
  ghost predicate IsNew<K(!new), V>(st: R.Store<K, V>) {
    st.WellFormed() && forall s :: 0 <= s < |st.shards| ==> F.Ring(st.shards[s], [])
  }

  /** Such is a store as it is built. */
  lemma BuiltIsNew<K(!new), V>(st: R.Store<K, V>, size: nat, ttl: int, hash: K -> u64)
    requires 0 < size && R.BuiltWith(st, size, ttl, hash)
    ensures IsNew(st)
  {
    R.BuiltMeans(st, size, ttl, hash);
    hide Cache.WellFormed;
    hide F.Ring;
    hide Fresh;
    forall s | 0 <= s < |st.shards|
      ensures F.Ring(st.shards[s], [])
    {
      F.FreshIsEmptyRing<K, V>(R.BuiltCapacity(size, |st.shards|, s), ttl);
    }
  }

  lemma NewIsFresh<K(!new), V>(st: R.Store<K, V>)
    requires IsNew(st)
    ensures st.IsFresh()
  {
    hide Cache.WellFormed;
    hide F.Ring;
    forall k
      ensures st.Find(k) == None
    {
      F.RingHoldsLiveKeys(st.Home(k), []);
    }
  }

  /** Seen from one shard, a run of the store is a run of that shard. */
  lemma {:induction false} ShardRun<K(!new), V>(st: R.Store<K, V>, calls: seq<R.Call<K, V>>, s: nat, n: nat)
    requires st.WellFormed() && s < |st.shards| && n <= |calls|
    ensures R.StateAt(st, calls, n).shards[s] == F.CacheAt(st.shards[s], R.Restrict(st, calls, s), n)
  {
    hide R.Step;
    hide GetOrPut;
    hide Cache.WellFormed;
    if n > 0 {
      ShardRun(st, calls, s, n - 1);
      R.StepOnShard(R.StateAt(st, calls, n - 1), calls[n - 1], s);
    }
  }

  lemma ShardOfNew<K(!new), V>(st: R.Store<K, V>, s: nat)
    requires IsNew(st) && s < |st.shards|
    ensures st.shards[s].WellFormed() && F.Ring(st.shards[s], []) && st.shards[s].ttl == st.Ttl()
    ensures 0 < st.shards[s].Capacity()
  {
  }

  lemma RestrictIsOnlyShard<K(!new), V>(st: R.Store<K, V>, calls: seq<R.Call<K, V>>, s: nat)
    requires 0 < |st.shards|
    ensures R.Restrict(st, calls, s) == R.OnlyShard(calls, st.hash, |st.shards|, s)
  {
  }

  /** In every run every answer is that of the shelf of the key's shard, evictions included. */
  lemma AnswersAreShelfAnswers<K(!new), V>(st: R.Store<K, V>, calls: seq<R.Call<K, V>>, i: nat)
    requires IsNew(st) && i < |calls| && calls[i].Call?
    ensures var count := |st.shards|;
            var s := st.hash(calls[i].key) % count;
            && 0 < st.shards[s].Capacity()
            && R.AnswerAt(st, calls, i) ==
                 ShelfAnswer(st.shards[s].Capacity(), st.Ttl(), R.OnlyShard(calls, st.hash, count, s), i)
  {
    RestrictIsOnlyShard(st, calls, st.ShardOf(calls[i].key));
    hide R.OnlyShard;
    var s := st.ShardOf(calls[i].key);
    var c, run := st.shards[s], R.Restrict(st, calls, s);
    ShardOfNew(st, s);
    hide IsNew;
    hide Agree;
    hide GetOrPut;
    hide R.Step;
    hide ShelfStep;
    hide F.Ring;
    hide Cache.WellFormed;
    hide R.StateAt;
    hide F.CacheAt;
    hide ShelfAt;
    ShardRun(st, calls, s, i);
    R.StepOnShard(R.StateAt(st, calls, i), calls[i], s);
    RunAgrees(c, run, i);
    StepAgrees(F.CacheAt(c, run, i), ShelfAt(c.Capacity(), c.ttl, run, i), run[i]);
  }

  /**
   * What a cache built for a size, a time to live and a hash answers: in every run, what the shelf
   * of the key's shard does with that time to live.
   */
  lemma BuiltCacheAnswers<K(!new), V>(
    st: R.Store<K, V>, size: nat, ttl: int, hash: K -> u64, calls: seq<R.Call<K, V>>, i: nat)
    requires 0 < size && R.BuiltWith(st, size, ttl, hash) && st.WellFormed() && i < |calls| && calls[i].Call?
    ensures var count := if size < 64 then size else 64;
            var s := hash(calls[i].key) % count;
            var capacity := size / count + if s < size % count then 1 else 0;
            && 0 < capacity
            && R.AnswerAt(st, calls, i) == ShelfAnswer(capacity, ttl, R.OnlyShard(calls, hash, count, s), i)
  {
    hide R.BuiltWith;
    hide IsNew;
    hide R.OnlyShard;
    hide R.Store.WellFormed;
    hide R.Store.IsFresh;
    hide R.Store.Ttl;
    hide R.AnswerAt;
    hide ShelfAnswer;
    hide Cache.WellFormed;
    BuiltIsNew(st, size, ttl, hash);
    R.BuiltMeans(st, size, ttl, hash);
    BuiltCount(st, size, ttl, hash);
    AnswersAreShelfAnswers(st, calls, i);
  }

  lemma BuiltCount<K(!new), V>(st: R.Store<K, V>, size: nat, ttl: int, hash: K -> u64)
    requires 0 < size && R.BuiltWith(st, size, ttl, hash)
    ensures |st.shards| == (if size < 64 then size else 64) && st.hash == hash
  {
  }
}
