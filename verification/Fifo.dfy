/**
 * Eviction order of one cache shard. A lookup that drops an expired entry is followed, under the
 * same lock, by an insertion that takes the freed slot back. So the slot array with its cursor is
 * a queue in every run: the stored keys are the most recently admitted ones, and making room
 * costs the one admitted first. A key renewed after its time keeps its old place.
 */
module Fifo {
  import opened Prelude
  import opened CacheModel
  import R = ShardedRuns

  type Run<K, V> = seq<R.Call<K, V>>

  function Do<K(==,!new), V>(c: Cache<K, V>, call: R.Call<K, V>): (r: (Cache<K, V>, Answer<V>))
    requires c.WellFormed()
    ensures r.0.WellFormed() && r.0.Capacity() == c.Capacity() && r.0.ttl == c.ttl
    ensures r.1 == NotAsked <==> call.Skip?
  {
    match call
    case Skip => (c, NotAsked)
    case Call(key, value, tGet, tPut) => GetOrPut(c, key, value, tGet, tPut)
  }

  function CacheAt<K(==,!new), V>(c: Cache<K, V>, run: Run<K, V>, n: nat): (r: Cache<K, V>)
    requires c.WellFormed() && n <= |run|
    ensures r.WellFormed() && r.Capacity() == c.Capacity() && r.ttl == c.ttl
  {
    if n == 0 then c else Do(CacheAt(c, run, n - 1), run[n - 1]).0
  }

  /** Call i asks for the key and does not find it stored, not even expired. */
  predicate Admits<K(==,!new), V>(c: Cache<K, V>, run: Run<K, V>, i: nat, key: K)
    requires c.WellFormed() && i < |run|
  {
    run[i].Call? && run[i].key == key && key !in CacheAt(c, run, i).items
  }

  /** Call i finds the key stored but past its time, and stores the new pair in its place. */
  ghost predicate Renews<K(!new), V>(c: Cache<K, V>, run: Run<K, V>, i: nat, key: K)
    requires c.WellFormed() && i < |run|
  {
    var now := CacheAt(c, run, i);
    run[i].Call? && run[i].key == key && key in now.items && !now.Live(key, run[i].tGet)
  }

  /** The keys admitted so far, in order. */
  function Admitted<K(==,!new), V>(c: Cache<K, V>, run: Run<K, V>, n: nat): seq<K>
    requires c.WellFormed() && n <= |run|
  {
    if n == 0 then []
    else if run[n - 1].Call? && Admits(c, run, n - 1, run[n - 1].key)
    then Admitted(c, run, n - 1) + [run[n - 1].key]
    else Admitted(c, run, n - 1)
  }

  function LastN<T>(s: seq<T>, n: nat): seq<T> {
    if |s| <= n then s else s[|s| - n..]
  }

  /** The slot i places after the cursor. */
  function Ahead(cursor: nat, i: nat, size: nat): nat
    requires cursor < size && i < size
  {
    if cursor + i < size then cursor + i else cursor + i - size
  }

  /** Reading the slots from the cursor onwards yields exactly the queue, oldest key first. */
  ghost predicate Ring<K(!new), V>(c: Cache<K, V>, queue: seq<K>)
    requires c.WellFormed()
  {
    && c.free == []
    && |queue| == c.usedSlots
    && (c.usedSlots < |c.slots| ==> c.nextEvict == 0)
    && forall i :: 0 <= i < |queue| ==>
         var slot := c.slots[Ahead(c.nextEvict, i, |c.slots|)];
         slot.Used? && slot.key == queue[i]
  }

  function Enqueue<T>(queue: seq<T>, x: T, size: nat): seq<T>
    requires 0 < size
  {
    (if |queue| == size then queue[1..] else queue) + [x]
  }

  lemma NextCursor(cursor: nat, size: nat)
    requires cursor < size
    ensures (cursor + 1) % size == if cursor + 1 == size then 0 else cursor + 1
  {
  }

  lemma InsertEnqueues<K(!new), V>(c: Cache<K, V>, queue: seq<K>, key: K, value: V, now: int)
    requires c.WellFormed() && Ring(c, queue) && key !in c.items
    ensures Ring(Put(c, key, value, now).0, Enqueue(queue, key, c.Capacity()))
  {
    hide Cache.Bijection;
    hide Cache.FreeList;
    var r := Put(c, key, value, now).0;
    if c.usedSlots == |c.slots| {
      RingAdvances(c, r, queue, Used(key, value, now + c.ttl));
    } else {
      assert r.slots == c.slots[c.usedSlots := Used(key, value, now + c.ttl)];
    }
  }

  /** Overwriting the slot under the cursor and moving on drops the head and appends at the tail. */
  lemma RingAdvances<K(!new), V>(c: Cache<K, V>, r: Cache<K, V>, queue: seq<K>, stored: Slot<K, V>)
    requires c.WellFormed() && Ring(c, queue) && c.usedSlots == |c.slots| && stored.Used?
    requires r.WellFormed() && r.free == [] && r.usedSlots == c.usedSlots
    requires r.slots == c.slots[c.nextEvict := stored] && r.nextEvict == (c.nextEvict + 1) % |c.slots|
    ensures Ring(r, queue[1..] + [stored.key])
  {
    hide Cache.Bijection;
    hide Cache.FreeList;
    var size := |c.slots|;
    NextCursor(c.nextEvict, size);
    forall i | 0 <= i < size
      ensures var slot := r.slots[Ahead(r.nextEvict, i, size)];
              slot.Used? && slot.key == (queue[1..] + [stored.key])[i]
    {
      assert i < size - 1 ==> Ahead(r.nextEvict, i, size) == Ahead(c.nextEvict, i + 1, size);
      assert i == size - 1 ==> Ahead(r.nextEvict, i, size) == c.nextEvict;
    }
  }

  lemma UpdateKeepsRing<K(!new), V>(c: Cache<K, V>, queue: seq<K>, key: K, value: V, now: int)
    requires c.WellFormed() && Ring(c, queue) && key in c.items
    ensures Ring(Put(c, key, value, now).0, queue)
  {
  }

  lemma LastNHas<T>(s: seq<T>, n: nat)
    ensures forall i :: |s| - n <= i < |s| && 0 <= i ==> s[i] in LastN(s, n)
    ensures |s| >= n ==> |LastN(s, n)| == n && forall i :: 0 <= i < n ==> LastN(s, n)[i] == s[|s| - n + i]
  {
    forall i | |s| - n <= i < |s| && 0 <= i
      ensures s[i] in LastN(s, n)
    {
      assert LastN(s, n)[if |s| <= n then i else i - (|s| - n)] == s[i];
    }
  }

  lemma LastNOfAppend<T>(s: seq<T>, x: T, n: nat)
    requires 0 < n
    ensures LastN(s + [x], n) == Enqueue(LastN(s, n), x, n)
  {
  }

  lemma DropLeavesOneFree<K(!new), V>(c: Cache<K, V>, key: K, now: int)
    requires c.WellFormed() && c.free == [] && key in c.items && !c.Live(key, now)
    ensures var idx, r := c.items[key], Get(c, key, now).0;
            && idx < |c.slots| && c.slots[idx].Used? && c.slots[idx].key == key
            && r == c.(items := c.items - {key}, slots := c.slots[idx := Empty], free := [idx], len := c.len - 1)
  {
    hide Cache.FreeList;
  }

  lemma PutIntoOneFree<K(!new), V>(c: Cache<K, V>, idx: nat, key: K, value: V, now: int)
    requires c.WellFormed() && c.free == [idx] && key !in c.items
    ensures idx < |c.slots|
    ensures Put(c, key, value, now).0 ==
              c.(items := c.items[key := idx], slots := c.slots[idx := Used(key, value, now + c.ttl)],
                 free := [], len := c.len + 1)
  {
    hide Cache.Bijection;
    assert c.free[0] == idx;
  }

  /** Dropping an expired entry and storing its key again uses the same slot. */
  lemma RenewalInPlace<K(!new), V>(c: Cache<K, V>, key: K, value: V, tGet: int, tPut: int)
    requires c.WellFormed() && c.free == [] && key in c.items && !c.Live(key, tGet)
    ensures var idx, r := c.items[key], GetOrPut(c, key, value, tGet, tPut).0;
            && idx < |c.slots| && c.slots[idx].Used? && c.slots[idx].key == key
            && r.free == [] && r.usedSlots == c.usedSlots && r.nextEvict == c.nextEvict
            && r.slots == c.slots[idx := Used(key, value, tPut + c.ttl)]
  {
    hide Put;
    hide NextSlot;
    hide Cache.WellFormed;
    DropLeavesOneFree(c, key, tGet);
    var d := Get(c, key, tGet).0;
    PutIntoOneFree(d, c.items[key], key, value, tPut);
    hide Get;
  }

  lemma NewValueKeepsRing<K(!new), V>(c: Cache<K, V>, r: Cache<K, V>, queue: seq<K>, idx: nat, stored: Slot<K, V>)
    requires c.WellFormed() && Ring(c, queue) && r.WellFormed()
    requires idx < |c.slots| && c.slots[idx].Used? && stored.Used? && stored.key == c.slots[idx].key
    requires r.slots == c.slots[idx := stored]
    requires r.free == [] && r.usedSlots == c.usedSlots && r.nextEvict == c.nextEvict
    ensures Ring(r, queue)
  {
    hide Cache.Bijection;
    hide Cache.FreeList;
  }

  lemma RenewalKeepsRing<K(!new), V>(c: Cache<K, V>, queue: seq<K>, key: K, value: V, tGet: int, tPut: int)
    requires c.WellFormed() && Ring(c, queue) && key in c.items && !c.Live(key, tGet)
    ensures Ring(GetOrPut(c, key, value, tGet, tPut).0, queue)
  {
    hide GetOrPut;
    hide Cache.FreeList;
    RenewalInPlace(c, key, value, tGet, tPut);
    var r := GetOrPut(c, key, value, tGet, tPut).0;
    NewValueKeepsRing(c, r, queue, c.items[key], Used(key, value, tPut + c.ttl));
  }

  /** One call against the queue: only the admission of a key changes it. */
  lemma CallOnQueue<K(!new), V>(c: Cache<K, V>, queue: seq<K>, call: R.Call<K, V>)
    requires c.WellFormed() && Ring(c, queue)
    ensures Ring(Do(c, call).0,
                 if call.Call? && call.key !in c.items then Enqueue(queue, call.key, c.Capacity()) else queue)
  {
    hide Ring;
    hide Put;
    hide Enqueue;
    match call
    case Skip =>
    case Call(key, value, tGet, tPut) =>
      if key !in c.items {
        InsertEnqueues(c, queue, key, value, tPut);
      } else if !c.Live(key, tGet) {
        RenewalKeepsRing(c, queue, key, value, tGet, tPut);
      }
  }

  /** The stored keys as the queue has them, oldest admission first. */
  function Queue<K(==,!new), V>(c: Cache<K, V>, run: Run<K, V>, n: nat): seq<K>
    requires c.WellFormed() && n <= |run|
  {
    LastN(Admitted(c, run, n), c.Capacity())
  }

  /** The cache is a bounded queue of its admissions, whatever expires. */
  lemma {:induction false} RunIsQueue<K(!new), V>(c: Cache<K, V>, run: Run<K, V>, n: nat)
    requires c.WellFormed() && Ring(c, []) && n <= |run|
    ensures Ring(CacheAt(c, run, n), Queue(c, run, n))
  {
    hide Cache.WellFormed;
    hide Ring;
    hide Do;
    hide Enqueue;
    if n == 0 {
      assert LastN(Admitted(c, run, 0), c.Capacity()) == [];
    } else {
      RunIsQueue(c, run, n - 1);
      CallOnQueue(CacheAt(c, run, n - 1), Queue(c, run, n - 1), run[n - 1]);
      hide LastN;
      CapacityIsPositive(c);
      if run[n - 1].Call? {
        LastNOfAppend(Admitted(c, run, n - 1), run[n - 1].key, c.Capacity());
      }
    }
  }

  lemma CapacityIsPositive<K(!new), V>(c: Cache<K, V>)
    requires c.WellFormed()
    ensures 0 < c.Capacity()
  {
  }

  lemma RingHoldsLiveKeys<K(!new), V>(c: Cache<K, V>, queue: seq<K>)
    requires c.WellFormed() && Ring(c, queue)
    ensures forall k :: k in c.items <==> k in queue
    ensures forall i, j :: 0 <= i < j < |queue| ==> queue[i] != queue[j]
  {
    forall k | k in c.items
      ensures k in queue
    {
      var s := c.items[k];
      var i := if c.nextEvict <= s then s - c.nextEvict else s + |c.slots| - c.nextEvict;
      assert Ahead(c.nextEvict, i, |c.slots|) == s;
      assert queue[i] == k;
    }
    forall i, j | 0 <= i < j < |queue|
      ensures queue[i] != queue[j]
    {
      assert Ahead(c.nextEvict, i, |c.slots|) != Ahead(c.nextEvict, j, |c.slots|);
    }
  }

  lemma FreshIsEmptyRing<K(!new), V>(capacity: nat, ttl: int)
    requires 0 < capacity
    ensures Ring(Fresh<K, V>(capacity, ttl), [])
  {
  }

  /** The key evicted next is the head of a full queue. */
  lemma VictimIsHead<K(!new), V>(c: Cache<K, V>, queue: seq<K>)
    requires c.WellFormed() && Ring(c, queue)
    ensures c.Victim().Some? <==> |queue| == c.Capacity()
    ensures c.Victim().Some? ==> c.Victim().value == queue[0]
  {
    if c.Victim().Some? {
      assert Ahead(c.nextEvict, 0, |c.slots|) == c.nextEvict;
    }
  }

  /**
   * In every run the stored keys are the last `Capacity` admitted ones, without repetition, and
   * the next admission evicts the one admitted first exactly when there is no room. Between
   * calls the free stack is empty.
   */
  lemma LiveKeysAreLastInserted<K(!new), V>(capacity: nat, ttl: int, run: Run<K, V>, n: nat)
    requires 0 < capacity && n <= |run|
    ensures var c := CacheAt(Fresh<K, V>(capacity, ttl), run, n);
            var queue := LastN(Admitted(Fresh<K, V>(capacity, ttl), run, n), capacity);
            && c.free == []
            && (forall k :: k in c.items <==> k in queue)
            && (forall i, j :: 0 <= i < j < |queue| ==> queue[i] != queue[j])
            && (c.Victim().Some? <==> |queue| == capacity)
            && (c.Victim().Some? ==> c.Victim().value == queue[0])
  {
    hide CacheAt;
    hide Admitted;
    hide LastN;
    var start := Fresh<K, V>(capacity, ttl);
    FreshIsEmptyRing<K, V>(capacity, ttl);
    RunIsQueue(start, run, n);
    var c, queue := CacheAt(start, run, n), Queue(start, run, n);
    assert c.free == [];
    hide Cache.WellFormed;
    hide Ring;
    RingHoldsLiveKeys(c, queue);
    VictimIsHead(c, queue);
  }

  // What is stored depends on the keys asked for and on nothing else

  /** The keys a run asks for, call by call. */
  function KeysOf<K, V>(run: Run<K, V>): (keys: seq<Option<K>>)
    ensures |keys| == |run|
  {
    seq(|run|, i requires 0 <= i < |run| => if run[i].Call? then Some(run[i].key) else None)
  }

  /** A bounded queue that takes in every key it does not hold. It knows no values, times or slots. */
  function KeyQueue<K(==)>(capacity: nat, keys: seq<Option<K>>, n: nat): seq<K>
    requires 0 < capacity && n <= |keys|
  {
    if n == 0 then []
    else
      var queue := KeyQueue(capacity, keys, n - 1);
      if keys[n - 1].None? || keys[n - 1].value in queue then queue
      else Enqueue(queue, keys[n - 1].value, capacity)
  }

  /** In every run the slots, read from the cursor, are the queue of the keys asked for. */
  lemma {:induction false} RunIsKeyQueue<K(!new), V>(c: Cache<K, V>, run: Run<K, V>, n: nat)
    requires c.WellFormed() && Ring(c, []) && n <= |run| && 0 < c.Capacity()
    ensures Ring(CacheAt(c, run, n), KeyQueue(c.Capacity(), KeysOf(run), n))
  {
    hide Cache.WellFormed;
    hide Ring;
    hide Do;
    hide Enqueue;
    if n > 0 {
      RunIsKeyQueue(c, run, n - 1);
      var queue := KeyQueue(c.Capacity(), KeysOf(run), n - 1);
      CallOnQueue(CacheAt(c, run, n - 1), queue, run[n - 1]);
      RingHoldsLiveKeys(CacheAt(c, run, n - 1), queue);
    }
  }

  /** A shard stores exactly the keys of that queue, and evicts its head when the queue is full. */
  lemma StoredIffQueued<K(!new), V>(capacity: nat, ttl: int, run: Run<K, V>, n: nat)
    requires 0 < capacity && n <= |run|
    ensures var c := CacheAt(Fresh<K, V>(capacity, ttl), run, n);
            var queue := KeyQueue(capacity, KeysOf(run), n);
            && (forall k :: k in c.items <==> k in queue)
            && (c.Victim().Some? <==> |queue| == capacity)
            && (c.Victim().Some? ==> c.Victim().value == queue[0])
  {
    hide CacheAt;
    hide KeyQueue;
    hide Cache.WellFormed;
    hide Ring;
    FreshIsEmptyRing<K, V>(capacity, ttl);
    RunIsKeyQueue(Fresh<K, V>(capacity, ttl), run, n);
    RingHoldsLiveKeys(CacheAt(Fresh<K, V>(capacity, ttl), run, n), KeyQueue(capacity, KeysOf(run), n));
    VictimIsHead(CacheAt(Fresh<K, V>(capacity, ttl), run, n), KeyQueue(capacity, KeysOf(run), n));
  }

  /** Other values, other clock readings, another time to live: the same keys are stored. */
  lemma OnlyKeysMatter<K(!new), V>(
    capacity: nat, ttl: int, run: Run<K, V>, otherTtl: int, other: Run<K, V>, n: nat, key: K)
    requires 0 < capacity && KeysOf(run) == KeysOf(other) && n <= |run| == |other|
    ensures key in CacheAt(Fresh<K, V>(capacity, ttl), run, n).items <==>
            key in CacheAt(Fresh<K, V>(capacity, otherTtl), other, n).items
  {
    hide CacheAt;
    hide KeyQueue;
    hide KeysOf;
    hide Cache.WellFormed;
    StoredIffQueued<K, V>(capacity, ttl, run, n);
    StoredIffQueued<K, V>(capacity, otherTtl, other, n);
  }

  // The order of writes

  /** Call m stores a pair under the key, as an admission or as a renewal. */
  predicate Writes<K(==,!new), V>(c: Cache<K, V>, run: Run<K, V>, m: nat, key: K)
    requires c.WellFormed() && m < |run|
  {
    run[m].Call? && run[m].key == key && Do(CacheAt(c, run, m), run[m]).1.Miss?
  }

  /** The last of the first n calls that wrote the key, or -1. */
  function LastWrite<K(==,!new), V>(c: Cache<K, V>, run: Run<K, V>, n: nat, key: K): (w: int)
    requires c.WellFormed() && n <= |run|
    ensures -1 <= w < n
  {
    hide Cache.WellFormed;
    if n == 0 then -1
    else if Writes(c, run, n - 1, key) then n - 1
    else LastWrite(c, run, n - 1, key)
  }

  lemma {:induction false} LastWriteIsLast<K(!new), V>(c: Cache<K, V>, run: Run<K, V>, n: nat, key: K)
    requires c.WellFormed() && n <= |run|
    ensures var w := LastWrite(c, run, n, key);
            && (0 <= w ==> Writes(c, run, w, key))
            && forall m :: w < m < n ==> !Writes(c, run, m, key)
  {
    hide Writes;
    hide Cache.WellFormed;
    if n > 0 && !Writes(c, run, n - 1, key) {
      LastWriteIsLast(c, run, n - 1, key);
    }
  }

  lemma WriteIsAdmissionOrRenewal<K(!new), V>(c: Cache<K, V>, run: Run<K, V>, m: nat, key: K)
    requires c.WellFormed() && m < |run|
    ensures Writes(c, run, m, key) <==> Admits(c, run, m, key) || Renews(c, run, m, key)
  {
    hide CacheAt;
    hide GetOrPut;
    hide Cache.Bijection;
    hide Cache.FreeList;
    if run[m].Call? {
      var now, call := CacheAt(c, run, m), run[m];
      if now.Live(call.key, call.tGet) {
        GetOrPutHit(now, call.key, call.value, call.tGet, call.tPut);
      } else {
        GetOrPutMiss(now, call.key, call.value, call.tGet, call.tPut);
      }
    }
  }

  lemma {:induction false} AdmittedGrows<K(!new), V>(c: Cache<K, V>, run: Run<K, V>, m: nat, n: nat)
    requires c.WellFormed() && m <= n <= |run|
    ensures Admitted(c, run, m) <= Admitted(c, run, n)
  {
    hide Admits;
    hide Cache.WellFormed;
    if m < n {
      AdmittedGrows(c, run, m, n - 1);
    }
  }

  /** A key that entered the list of admissions at call m or later was written then or later. */
  lemma {:induction false} AdmittedSince<K(!new), V>(c: Cache<K, V>, run: Run<K, V>, m: nat, n: nat, i: nat)
    requires c.WellFormed() && m <= n <= |run| && |Admitted(c, run, m)| <= i < |Admitted(c, run, n)|
    ensures LastWrite(c, run, n, Admitted(c, run, n)[i]) >= m
  {
    hide Writes;
    hide Admits;
    hide Cache.WellFormed;
    if m < n {
      if i < |Admitted(c, run, n - 1)| {
        AdmittedSince(c, run, m, n - 1, i);
      } else {
        WriteIsAdmissionOrRenewal(c, run, n - 1, run[n - 1].key);
      }
    }
  }

  /** k comes after v in the queue. */
  predicate Behind<K(==)>(queue: seq<K>, v: K, k: K) {
    exists i, j :: 0 <= i < j < |queue| && queue[i] == v && queue[j] == k
  }

  ghost predicate NothingBehind<K(!new)>(queue: seq<K>, v: K) {
    forall k :: !Behind(queue, v, k)
  }

  /** All other stored pairs were written after that of v. */
  ghost predicate OldestWritten<K(!new), V>(c: Cache<K, V>, run: Run<K, V>, n: nat, v: K)
    requires c.WellFormed() && n <= |run|
  {
    forall k :: k in CacheAt(c, run, n).items && k != v ==> LastWrite(c, run, n, v) < LastWrite(c, run, n, k)
  }

  ghost predicate RenewedSince<K(!new), V>(c: Cache<K, V>, run: Run<K, V>, from: int, n: nat, k: K)
    requires c.WellFormed() && n <= |run| && 0 <= from
  {
    exists m :: from <= m < n && Renews(c, run, m, k)
  }

  lemma RenewedMeansWritten<K(!new), V>(c: Cache<K, V>, run: Run<K, V>, from: int, n: nat, k: K)
    requires c.WellFormed() && n <= |run| && 0 <= from && RenewedSince(c, run, from, n, k)
    ensures LastWrite(c, run, n, k) >= from
  {
    hide Writes;
    hide Renews;
    hide Cache.WellFormed;
    var m :| from <= m < n && Renews(c, run, m, k);
    LastWriteIsLast(c, run, n, k);
    WriteIsAdmissionOrRenewal(c, run, m, k);
  }

  lemma AdmittedAtStart<K(!new), V>(c: Cache<K, V>, run: Run<K, V>)
    requires c.WellFormed()
    ensures Admitted(c, run, 0) == []
  {
  }

  /** Where the key to be evicted next stood when it was last written. */
  lemma VictimPosition<K(!new), V>(c: Cache<K, V>, run: Run<K, V>, n: nat) returns (a: nat)
    requires c.WellFormed() && Ring(c, []) && n <= |run| && |Admitted(c, run, n)| >= c.Capacity()
    ensures a + c.Capacity() == |Admitted(c, run, n)|
    ensures Admitted(c, run, n)[a] == Queue(c, run, n)[0]
    ensures var w := LastWrite(c, run, n, Queue(c, run, n)[0]);
            0 <= w && a < |Admitted(c, run, w + 1)| && Admitted(c, run, w + 1) <= Admitted(c, run, n)
  {
    hide Admitted;
    hide LastWrite;
    hide Writes;
    CapacityIsPositive(c);
    hide Cache.WellFormed;
    hide Ring;
    a := |Admitted(c, run, n)| - c.Capacity();
    var v := Admitted(c, run, n)[a];
    var w := LastWrite(c, run, n, v);
    AdmittedAtStart(c, run);
    AdmittedSince(c, run, 0, n, a);
    AdmittedGrows(c, run, w + 1, n);
    if a >= |Admitted(c, run, w + 1)| {
      AdmittedSince(c, run, w + 1, n, a);
    }
  }

  /** A key behind the victim at its last write is still stored, and any later write renewed it. */
  lemma BehindStays<K(!new), V>(c: Cache<K, V>, run: Run<K, V>, m: nat, n: nat, b: nat)
    requires c.WellFormed() && Ring(c, []) && m <= n <= |run|
    requires |Admitted(c, run, n)| - c.Capacity() <= b < |Admitted(c, run, m)|
    ensures Admitted(c, run, m) <= Admitted(c, run, n)
    ensures Admitted(c, run, m)[b] in CacheAt(c, run, m).items
  {
    hide Admitted;
    hide Cache.WellFormed;
    hide Ring;
    hide LastN;
    AdmittedGrows(c, run, m, n);
    RunIsQueue(c, run, m);
    RingHoldsLiveKeys(CacheAt(c, run, m), Queue(c, run, m));
    LastNHas(Admitted(c, run, m), c.Capacity());
  }

  /** A write of a key that stays stored is a renewal. */
  lemma LaterWriteRenews<K(!new), V>(c: Cache<K, V>, run: Run<K, V>, from: nat, n: nat, b: nat)
    requires c.WellFormed() && Ring(c, []) && from <= n <= |run|
    requires |Admitted(c, run, n)| - c.Capacity() <= b < |Admitted(c, run, from)|
    requires LastWrite(c, run, n, Admitted(c, run, from)[b]) >= from
    ensures RenewedSince(c, run, from, n, Admitted(c, run, from)[b])
  {
    hide Admitted;
    hide LastWrite;
    hide Writes;
    hide Renews;
    hide Admits;
    hide Cache.WellFormed;
    hide Ring;
    var k := Admitted(c, run, from)[b];
    var m := LastWrite(c, run, n, k);
    LastWriteIsLast(c, run, n, k);
    AdmittedGrows(c, run, from, m);
    AdmittedGrows(c, run, m, n);
    BehindStays(c, run, m, n, b);
    assert Admitted(c, run, m)[b] == k;
    WriteIsAdmissionOrRenewal(c, run, m, k);
    StoredIsNotAdmitted(c, run, m, k);
  }

  lemma StoredIsNotAdmitted<K(!new), V>(c: Cache<K, V>, run: Run<K, V>, m: nat, key: K)
    requires c.WellFormed() && m < |run| && key in CacheAt(c, run, m).items
    ensures !Admits(c, run, m, key)
  {
  }

  /** Every key behind v at that moment has been renewed since. */
  ghost predicate BehindRenewed<K(!new), V>(c: Cache<K, V>, run: Run<K, V>, from: nat, n: nat, v: K)
    requires c.WellFormed() && from <= n <= |run|
  {
    forall k :: Behind(Queue(c, run, from), v, k) ==> RenewedSince(c, run, from, n, k)
  }

  lemma BehindInLastN<K(!new)>(all: seq<K>, n: nat, a: nat, k: K)
    requires |all| - n <= a < |all|
    requires forall i, j :: 0 <= i < j < |LastN(all, n)| ==> LastN(all, n)[i] != LastN(all, n)[j]
    ensures Behind(LastN(all, n), all[a], k) <==> exists b :: a < b < |all| && all[b] == k
  {
    var queue := LastN(all, n);
    var cut := if |all| <= n then 0 else |all| - n;
    assert forall i :: 0 <= i < |queue| ==> queue[i] == all[cut + i];
    assert queue[a - cut] == all[a];
    if b :| a < b < |all| && all[b] == k {
      assert queue[b - cut] == k;
    }
    if Behind(queue, all[a], k) {
      var i, j :| 0 <= i < j < |queue| && queue[i] == all[a] && queue[j] == k;
      assert i == a - cut;
      assert all[cut + j] == k;
    }
  }

  /** Positions in the queue are positions in the list of admissions. */
  lemma BehindInAdmitted<K(!new), V>(c: Cache<K, V>, run: Run<K, V>, m: nat, a: nat, k: K)
    requires c.WellFormed() && Ring(c, []) && m <= |run|
    requires |Admitted(c, run, m)| - c.Capacity() <= a < |Admitted(c, run, m)|
    ensures Behind(Queue(c, run, m), Admitted(c, run, m)[a], k) <==>
              exists b :: a < b < |Admitted(c, run, m)| && Admitted(c, run, m)[b] == k
  {
    hide Admitted;
    hide LastN;
    hide Behind;
    hide Cache.WellFormed;
    hide Ring;
    RunIsQueue(c, run, m);
    RingHoldsLiveKeys(CacheAt(c, run, m), Queue(c, run, m));
    BehindInLastN(Admitted(c, run, m), c.Capacity(), a, k);
  }

  /** A full queue is the end of the list of admissions, and it lists the stored keys. */
  lemma FullQueue<K(!new), V>(c: Cache<K, V>, run: Run<K, V>, n: nat, a: nat)
    requires c.WellFormed() && Ring(c, []) && n <= |run| && a + c.Capacity() == |Admitted(c, run, n)|
    ensures forall k :: k in CacheAt(c, run, n).items <==>
              exists b :: a <= b < |Admitted(c, run, n)| && Admitted(c, run, n)[b] == k
    ensures forall b :: a < b < |Admitted(c, run, n)| ==> Admitted(c, run, n)[b] != Admitted(c, run, n)[a]
  {
    hide Admitted;
    hide Cache.WellFormed;
    hide LastN;
    hide Ring;
    var all, queue := Admitted(c, run, n), Queue(c, run, n);
    RunIsQueue(c, run, n);
    RingHoldsLiveKeys(CacheAt(c, run, n), queue);
    LastNHas(all, c.Capacity());
    hide CacheAt;
    forall b | a <= b < |all|
      ensures queue[b - a] == all[b]
    {
    }
    forall k | k in queue
      ensures exists b :: a <= b < |all| && all[b] == k
    {
      var i :| 0 <= i < |queue| && queue[i] == k;
      assert all[a + i] == k;
    }
  }

  lemma OldestNeedsRenewals<K(!new), V>(c: Cache<K, V>, run: Run<K, V>, n: nat, a: nat, from: nat)
    requires c.WellFormed() && Ring(c, []) && from <= n <= |run|
    requires a + c.Capacity() == |Admitted(c, run, n)| && a < |Admitted(c, run, from)|
    requires from == LastWrite(c, run, n, Admitted(c, run, n)[a]) + 1
    requires OldestWritten(c, run, n, Admitted(c, run, n)[a])
    ensures BehindRenewed(c, run, from, n, Admitted(c, run, n)[a])
  {
    hide Admitted;
    hide LastWrite;
    hide RenewedSince;
    hide Cache.WellFormed;
    hide Behind;
    CapacityIsPositive(c);
    var all, v := Admitted(c, run, n), Admitted(c, run, n)[a];
    AdmittedGrows(c, run, from, n);
    hide Ring;
    hide Queue;
    hide CacheAt;
    FullQueue(c, run, n, a);
    forall k | Behind(Queue(c, run, from), v, k)
      ensures RenewedSince(c, run, from, n, k)
    {
      BehindInAdmitted(c, run, from, a, k);
      var b :| a < b < |Admitted(c, run, from)| && Admitted(c, run, from)[b] == k;
      assert all[b] == k;
      LaterWriteRenews(c, run, from, n, b);
    }
  }

  lemma RenewalsMakeOldest<K(!new), V>(c: Cache<K, V>, run: Run<K, V>, n: nat, a: nat, from: nat)
    requires c.WellFormed() && Ring(c, []) && from <= n <= |run|
    requires a + c.Capacity() == |Admitted(c, run, n)| && a < |Admitted(c, run, from)|
    requires from == LastWrite(c, run, n, Admitted(c, run, n)[a]) + 1
    requires BehindRenewed(c, run, from, n, Admitted(c, run, n)[a])
    ensures OldestWritten(c, run, n, Admitted(c, run, n)[a])
  {
    hide Admitted;
    hide LastWrite;
    hide RenewedSince;
    hide Cache.WellFormed;
    hide Behind;
    CapacityIsPositive(c);
    var all, v := Admitted(c, run, n), Admitted(c, run, n)[a];
    AdmittedGrows(c, run, from, n);
    hide Ring;
    hide Queue;
    hide CacheAt;
    FullQueue(c, run, n, a);
    forall k | k in CacheAt(c, run, n).items && k != v
      ensures LastWrite(c, run, n, v) < LastWrite(c, run, n, k)
    {
      var b :| a <= b < |all| && all[b] == k;
      YoungerIsWritten(c, run, n, a, from, b);
    }
  }

  lemma YoungerIsWritten<K(!new), V>(c: Cache<K, V>, run: Run<K, V>, n: nat, a: nat, from: nat, b: nat)
    requires c.WellFormed() && Ring(c, []) && from <= n <= |run|
    requires a + c.Capacity() == |Admitted(c, run, n)| && a < |Admitted(c, run, from)| && a < b < |Admitted(c, run, n)|
    requires BehindRenewed(c, run, from, n, Admitted(c, run, n)[a])
    ensures LastWrite(c, run, n, Admitted(c, run, n)[b]) >= from
  {
    hide Admitted;
    hide LastWrite;
    hide RenewedSince;
    hide Cache.WellFormed;
    hide Behind;
    hide LastN;
    hide Ring;
    AdmittedGrows(c, run, from, n);
    if b < |Admitted(c, run, from)| {
      var k := Admitted(c, run, from)[b];
      BehindInAdmitted(c, run, from, a, k);
      RenewedMeansWritten(c, run, from, n, k);
    } else {
      AdmittedSince(c, run, from, n, b);
    }
  }

  /**
   * The key evicted next is the one written longest ago exactly if every key that stood behind it
   * when it was last written has been renewed since.
   */
  lemma EvictsOldestWrittenIff<K(!new), V>(capacity: nat, ttl: int, run: Run<K, V>, n: nat)
    requires 0 < capacity && n <= |run|
    requires CacheAt(Fresh<K, V>(capacity, ttl), run, n).Victim().Some?
    ensures var start := Fresh<K, V>(capacity, ttl);
            var v := CacheAt(start, run, n).Victim().value;
            var w := LastWrite(start, run, n, v);
            && 0 <= w
            && (OldestWritten(start, run, n, v) <==> BehindRenewed(start, run, w + 1, n, v))
  {
    hide Admitted;
    hide LastWrite;
    hide OldestWritten;
    hide BehindRenewed;
    hide Cache.WellFormed;
    var start := Fresh<K, V>(capacity, ttl);
    FreshIsEmptyRing<K, V>(capacity, ttl);
    hide Fresh;
    RunIsQueue(start, run, n);
    VictimIsHead(CacheAt(start, run, n), Queue(start, run, n));
    hide Ring;
    var a := VictimPosition(start, run, n);
    var v := CacheAt(start, run, n).Victim().value;
    var from := LastWrite(start, run, n, v) + 1;
    if OldestWritten(start, run, n, v) {
      OldestNeedsRenewals(start, run, n, a, from);
    }
    if BehindRenewed(start, run, from, n, v) {
      RenewalsMakeOldest(start, run, n, a, from);
    }
  }

  /** A key stands at the end of the queue when it is admitted, so that nothing is behind it. */
  lemma NothingBehindAdmission<K(!new), V>(c: Cache<K, V>, run: Run<K, V>, m: nat, key: K)
    requires c.WellFormed() && Ring(c, []) && m < |run| && Admits(c, run, m, key)
    ensures NothingBehind(Queue(c, run, m + 1), key)
  {
    hide Cache.WellFormed;
    var after := m + 1;
    assert Admitted(c, run, after) == Admitted(c, run, m) + [key];
    hide Admitted;
    CapacityIsPositive(c);
    forall k
      ensures !Behind(Queue(c, run, after), key, k)
    {
      BehindInAdmitted(c, run, after, |Admitted(c, run, m)|, k);
    }
  }

  // A renewed key is evicted before a pair written earlier

  const RENEWAL: Run<int, int> := [R.Call(1, 0, 0, 0), R.Call(2, 0, 5, 5), R.Call(1, 0, 12, 12)]

  /**
   * Two slots and a time to live of 10. Key 1 is stored at time 0 and, being past its time,
   * again at 12. It is the next to go, although the pair of key 2 is older and still live.
   */
  lemma RenewedKeyGoesFirst()
    ensures var start := Fresh<int, int>(2, 10);
            var c := CacheAt(start, RENEWAL, 3);
            && c.Victim() == Some(1) && c.Live(2, 13)
            && LastWrite(start, RENEWAL, 3, 2) < LastWrite(start, RENEWAL, 3, 1)
            && !OldestWritten(start, RENEWAL, 3, 1)
  {
    FirstTwoCalls();
    ThirdCall();
    hide GetOrPut;
    var start := Fresh<int, int>(2, 10);
    assert 2 in CacheAt(start, RENEWAL, 3).items;
    assert LastWrite(start, RENEWAL, 3, 1) == 2;
    assert !Writes(start, RENEWAL, 2, 2);
  }

  lemma FirstTwoCalls()
    ensures CacheAt(Fresh<int, int>(2, 10), RENEWAL, 2)
              == FULL
  {
    hide Cache.WellFormed;
    var start := Fresh<int, int>(2, 10);
    assert CacheAt(start, RENEWAL, 0) == start;
    assert CacheAt(start, RENEWAL, 1) == Cache(10, map[1 := 0], [Used(1, 0, 10), Empty], [], 1, 0, 1);
  }

  const FULL: Cache<int, int> := Cache(10, map[1 := 0, 2 := 1], [Used(1, 0, 10), Used(2, 0, 15)], [], 2, 0, 2)
  const DROPPED: Cache<int, int> := Cache(10, map[2 := 1], [Empty, Used(2, 0, 15)], [0], 2, 0, 1)

  lemma ThirdCall()
    ensures FULL.WellFormed()
    ensures GetOrPut(FULL, 1, 0, 12, 12)
              == (Cache(10, map[2 := 1, 1 := 0], [Used(1, 0, 22), Used(2, 0, 15)], [], 2, 0, 2), Miss(0))
  {
    FullIsWellFormed();
    hide Cache.WellFormed;
    GetOrPutMiss(FULL, 1, 0, 12, 12);
    DropFirst();
    PutIntoOneFree(DROPPED, 0, 1, 0, 12);
    hide Get;
    hide Put;
    assert DROPPED.items[1 := 0] == map[2 := 1, 1 := 0];
    assert DROPPED.slots[0 := Used(1, 0, 22)] == [Used(1, 0, 22), Used(2, 0, 15)];
  }

  lemma FullIsWellFormed()
    ensures FULL.WellFormed() && FULL.Victim() == Some(1) && FULL.Find(1) == Some(Entry(0, 10))
  {
  }

  lemma DropFirst()
    requires FULL.WellFormed()
    ensures Get(FULL, 1, 12) == (DROPPED, None) && DROPPED.WellFormed()
  {
    hide Cache.FreeList;
    DropLeavesOneFree(FULL, 1, 12);
    hide Get;
    assert FULL.items - {1} == DROPPED.items;
    assert FULL.slots[0 := Empty] == DROPPED.slots;
  }
}
