/**
 * The state of one shard of a detector cache and the operations on it, as values.
 * The class in StateCache.dfy performs the same operations in place and is proved
 * against the functions here; what the operations mean is stated on `Find`, the
 * plain partial map from keys to stored values that the slot bookkeeping represents.
 */
module CacheModel {
  import opened Prelude

  /** An unused slot holds nothing: the source resets it to the zero slot. */
  datatype Slot<K, V> = Empty | Used(key: K, value: V, expiresAt: int)

  datatype Entry<V> = Entry(value: V, expiresAt: int)

  datatype Cache<K(==,!new), V> = Cache(
    ttl: int,
    items: map<K, nat>,
    slots: seq<Slot<K, V>>,
    free: seq<nat>,
    usedSlots: nat,
    nextEvict: nat,
    len: int)
  {
    function Capacity(): nat {
      |slots|
    }

    /** items and the used slots name each other. */
    ghost predicate Bijection() {
      && (forall k :: k in items ==> items[k] < |slots| && slots[items[k]].Used? && slots[items[k]].key == k)
      && (forall i :: 0 <= i < |slots| && slots[i].Used? ==> slots[i].key in items && items[slots[i].key] == i)
    }

    /** free lists, without repetition, exactly the unused slots below the high-water mark. */
    ghost predicate FreeList()
      requires usedSlots <= |slots|
    {
      && (forall i :: 0 <= i < |free| ==> free[i] < usedSlots && slots[free[i]].Empty?)
      && (forall i, j :: 0 <= i < j < |free| ==> free[i] != free[j])
      && (forall s :: 0 <= s < usedSlots && slots[s].Empty? ==> s in free)
      && (forall s :: usedSlots <= s < |slots| ==> slots[s].Empty?)
    }

    ghost predicate WellFormed() {
      && 0 < |slots|
      && usedSlots <= |slots|
      && nextEvict < |slots|
      && Bijection()
      && FreeList()
      && len == |items|
      && usedSlots == len + |free|
    }

    /** What the cache remembers for a key. */
    ghost function Find(key: K): (e: Option<Entry<V>>)
      requires Bijection()
      ensures e.Some? <==> key in items
    {
      if key in items then Some(Entry(slots[items[key]].value, slots[items[key]].expiresAt)) else None
    }

    /** A key is live when it is stored and its time to live, bound included, has not passed. */
    ghost predicate Live(key: K, now: int)
      requires Bijection()
    {
      Find(key).Some? && now <= Find(key).value.expiresAt
    }

    /** The key that inserting a new key pushes out, if any. */
    ghost function Victim(): (v: Option<K>)
      requires WellFormed()
      ensures v.Some? ==> v.value in items
    {
      if free == [] && usedSlots == |slots| then Some(slots[nextEvict].key) else None
    }
  }

  function Fresh<K(==,!new), V>(capacity: nat, ttl: int): (c: Cache<K, V>)
    requires 0 < capacity
    ensures c.WellFormed() && c.Capacity() == capacity && c.ttl == ttl
    ensures forall k :: c.Find(k) == None
  {
    Cache(ttl, map[], seq(capacity, _ => Empty), [], 0, 0, 0)
  }

  function RemoveSlot<K(==,!new), V>(c: Cache<K, V>, idx: nat): (r: Cache<K, V>)
    requires c.WellFormed() && idx < |c.slots|
    ensures r.WellFormed() && r.ttl == c.ttl && r.Capacity() == c.Capacity()
    ensures c.slots[idx].Empty? ==> r == c
    ensures c.slots[idx].Used? ==> forall k :: r.Find(k) == if k == c.slots[idx].key then None else c.Find(k)
  {
    if c.slots[idx].Empty? then c
    else
      RemoveSlotKeeps(c, idx);
      c.(items := c.items - {c.slots[idx].key},
         slots := c.slots[idx := Empty],
         free := c.free + [idx],
         len := c.len - 1)
  }

  /** A live entry is returned and the cache left alone; an expired one is dropped. */
  function Get<K(==,!new), V>(c: Cache<K, V>, key: K, now: int): (r: (Cache<K, V>, Option<V>))
    requires c.WellFormed()
    ensures r.0.WellFormed() && r.0.ttl == c.ttl && r.0.Capacity() == c.Capacity()
    ensures c.Live(key, now) ==> r == (c, Some(c.Find(key).value.value))
    ensures !c.Live(key, now) ==>
              r.1 == None && forall k :: r.0.Find(k) == if k == key then None else c.Find(k)
  {
    if key !in c.items then (c, None)
    else
      var slot := c.slots[c.items[key]];
      if now > slot.expiresAt then (RemoveSlot(c, c.items[key]), None)
      else (c, Some(slot.value))
  }

  /** Picks the slot for a new key: the free stack first, then untouched slots, then eviction. */
  function NextSlot<K(==,!new), V>(c: Cache<K, V>): (r: (Cache<K, V>, nat, nat))
    requires c.WellFormed()
    ensures r.1 < |c.slots|
    ensures r.0.slots == c.slots && r.0.ttl == c.ttl
    ensures c.Victim().None? ==> r.2 == 0 && c.slots[r.1].Empty? && r.0.items == c.items
    ensures c.Victim().Some? ==>
              && r.2 == 1 && c.slots[r.1].Used?
              && c.slots[r.1].key == c.Victim().value
              && r.0.items == c.items - {c.Victim().value}
  {
    if c.free != [] then
      (c.(free := c.free[..|c.free| - 1]), c.free[|c.free| - 1], 0)
    else if c.usedSlots < |c.slots| then
      (c.(usedSlots := c.usedSlots + 1), c.usedSlots, 0)
    else
      (c.(nextEvict := (c.nextEvict + 1) % |c.slots|,
          items := c.items - {c.slots[c.nextEvict].key},
          len := c.len - 1),
       c.nextEvict, 1)
  }

  /** Stores a value: in place for a known key, otherwise at the cost of at most one other key. */
  function Put<K(==,!new), V>(c: Cache<K, V>, key: K, value: V, now: int): (r: (Cache<K, V>, nat))
    requires c.WellFormed()
    ensures r.0.WellFormed() && r.0.ttl == c.ttl && r.0.Capacity() == c.Capacity()
    ensures key in c.items ==>
              && r.1 == 0 && r.0.items == c.items
              && forall k :: r.0.Find(k) == if k == key then Some(Entry(value, now + c.ttl)) else c.Find(k)
    ensures key !in c.items ==>
              && r.1 == (if c.Victim().Some? then 1 else 0)
              && forall k :: r.0.Find(k) == if k == key then Some(Entry(value, now + c.ttl))
                                            else if c.Victim() == Some(k) then None
                                            else c.Find(k)
  {
    var stored := Used(key, value, now + c.ttl);
    if key in c.items then
      PutKnown(c, stored);
      (c.(slots := c.slots[c.items[key] := stored]), 0)
    else
      PutNew(c, stored);
      var (c', idx, evicted) := NextSlot(c);
      (Install(c', idx, stored), evicted)
  }

  function Install<K(==,!new), V>(c: Cache<K, V>, idx: nat, stored: Slot<K, V>): Cache<K, V>
    requires idx < |c.slots| && stored.Used?
  {
    c.(slots := c.slots[idx := stored], items := c.items[stored.key := idx], len := c.len + 1)
  }

  datatype Answer<V> = NotAsked | Hit(value: V) | Miss(evicted: nat)

  /** One locked lookup-or-insert. The clock is read once by the lookup and again by the insert. */
  function GetOrPut<K(==,!new), V>(c: Cache<K, V>, key: K, value: V, tGet: int, tPut: int): (r: (Cache<K, V>, Answer<V>))
    requires c.WellFormed()
    ensures r.0.WellFormed() && r.0.ttl == c.ttl && r.0.Capacity() == c.Capacity()
    ensures r.1 != NotAsked
  {
    var (c1, found) := Get(c, key, tGet);
    if found.Some? then (c1, Hit(found.value))
    else
      var (c2, evicted) := Put(c1, key, value, tPut);
      (c2, Miss(evicted))
  }

  /** Which key a missing lookup of `key` evicts. Dropping an expired `key` makes room for itself. */
  ghost function Evicted<K(!new), V>(c: Cache<K, V>, key: K): (v: Option<K>)
    requires c.WellFormed()
    ensures v.Some? ==> v.value != key && v.value in c.items
  {
    if key in c.items then None else c.Victim()
  }

  /** A live key is answered from the table, which does not change: hits never renew an entry. */
  lemma GetOrPutHit<K(!new), V>(c: Cache<K, V>, key: K, value: V, tGet: int, tPut: int)
    requires c.WellFormed() && c.Live(key, tGet)
    ensures GetOrPut(c, key, value, tGet, tPut) == (c, Hit(c.Find(key).value.value))
  {
  }

  /** Otherwise the pair is stored, always as a new key, and at most one other key is lost. */
  lemma GetOrPutMiss<K(!new), V>(c: Cache<K, V>, key: K, value: V, tGet: int, tPut: int)
    requires c.WellFormed() && !c.Live(key, tGet)
    ensures key !in Get(c, key, tGet).0.items
    ensures var (c', a) := GetOrPut(c, key, value, tGet, tPut);
            && a == Miss(if Evicted(c, key).Some? then 1 else 0)
            && forall k :: c'.Find(k) == if k == key then Some(Entry(value, tPut + c.ttl))
                                         else if Evicted(c, key) == Some(k) then None
                                         else c.Find(k)
  {
    GetDrops(c, key, tGet);
    var c1 := Get(c, key, tGet).0;
    var victim := c1.Victim();
    var (c2, evicted) := Put(c1, key, value, tPut);
    forall k
      ensures c2.Find(k) == if k == key then Some(Entry(value, tPut + c.ttl))
                            else if victim == Some(k) then None
                            else c.Find(k)
    {
      assert k != key ==> c1.Find(k) == c.Find(k);
    }
  }

  /** After a failed lookup the key is gone, and if it was there its slot is free for reuse. */
  lemma GetDrops<K(!new), V>(c: Cache<K, V>, key: K, now: int)
    requires c.WellFormed() && !c.Live(key, now)
    ensures key !in Get(c, key, now).0.items
    ensures Get(c, key, now).0.Victim() == Evicted(c, key)
  {
    var c1 := Get(c, key, now).0;
    assert c1.Find(key) == None;
    if key in c.items {
      assert c1.free[|c.free|] == c.items[key];
    }
  }

  /** A full cache is exactly one without room, so the capacity bounds the number of keys. */
  lemma FullExactlyWhenEvicting<K(!new), V>(c: Cache<K, V>)
    requires c.WellFormed()
    ensures c.len <= c.Capacity()
    ensures c.Victim().Some? <==> c.len == c.Capacity()
  {
  }

  // The remaining lemmas show that each way of filling or emptying a slot keeps the bookkeeping.

  lemma RemoveSlotKeeps<K(!new), V>(c: Cache<K, V>, idx: nat)
    requires c.WellFormed() && idx < |c.slots| && c.slots[idx].Used?
    ensures var r := c.(items := c.items - {c.slots[idx].key}, slots := c.slots[idx := Empty],
                        free := c.free + [idx], len := c.len - 1);
            r.WellFormed() && forall k :: r.Find(k) == if k == c.slots[idx].key then None else c.Find(k)
  {
    hide Cache.Bijection;
    hide Cache.FreeList;
    hide Cache.Find;
    var r := c.(items := c.items - {c.slots[idx].key}, slots := c.slots[idx := Empty],
                free := c.free + [idx], len := c.len - 1);
    ClearSlot(c, r, idx);
    FreedSlot(c, r, idx);
  }

  /** Emptying a slot below the high-water mark and pushing it keeps the free stack. */
  lemma FreedSlot<K(!new), V>(c: Cache<K, V>, r: Cache<K, V>, idx: nat)
    requires c.usedSlots <= |c.slots| && c.FreeList() && idx < |c.slots| && c.slots[idx].Used?
    requires r.usedSlots == c.usedSlots && r.slots == c.slots[idx := Empty] && r.free == c.free + [idx]
    ensures r.FreeList()
  {
    assert r.free[|c.free|] == idx;
    forall s | 0 <= s < r.usedSlots && r.slots[s].Empty?
      ensures s in r.free
    {
      if s != idx {
        var j :| 0 <= j < |c.free| && c.free[j] == s;
        assert r.free[j] == s;
      }
    }
  }

  lemma PutKnown<K(!new), V>(c: Cache<K, V>, stored: Slot<K, V>)
    requires c.WellFormed() && stored.Used? && stored.key in c.items
    ensures var r := c.(slots := c.slots[c.items[stored.key] := stored]);
            && r.WellFormed()
            && forall k :: r.Find(k) == if k == stored.key then Some(Entry(stored.value, stored.expiresAt)) else c.Find(k)
  {
  }

  lemma PutNew<K(!new), V>(c: Cache<K, V>, stored: Slot<K, V>)
    requires c.WellFormed() && stored.Used? && stored.key !in c.items
    ensures var (c', idx, evicted) := NextSlot(c);
            var r := Install(c', idx, stored);
            && r.WellFormed()
            && forall k :: r.Find(k) == if k == stored.key then Some(Entry(stored.value, stored.expiresAt))
                                        else if c.Victim() == Some(k) then None
                                        else c.Find(k)
  {
    if c.free != [] {
      PutInFreeSlot(c, stored);
    } else if c.usedSlots < |c.slots| {
      PutInUntouchedSlot(c, stored);
    } else {
      PutEvicting(c, stored);
    }
  }

  /** Filling an empty slot with an absent key extends the bijection by that pair. */
  lemma FillSlot<K(!new), V>(c: Cache<K, V>, r: Cache<K, V>, idx: nat, stored: Slot<K, V>)
    requires c.Bijection() && stored.Used? && stored.key !in c.items
    requires idx < |c.slots| && c.slots[idx].Empty?
    requires r.items == c.items[stored.key := idx] && r.slots == c.slots[idx := stored]
    ensures r.Bijection() && |r.items| == |c.items| + 1
    ensures forall k :: r.Find(k) == if k == stored.key then Some(Entry(stored.value, stored.expiresAt)) else c.Find(k)
  {
  }

  /** Emptying a used slot removes its key. */
  lemma ClearSlot<K(!new), V>(c: Cache<K, V>, r: Cache<K, V>, idx: nat)
    requires c.Bijection() && idx < |c.slots| && c.slots[idx].Used?
    requires r.items == c.items - {c.slots[idx].key} && r.slots == c.slots[idx := Empty]
    ensures r.Bijection() && |r.items| == |c.items| - 1
    ensures forall k :: r.Find(k) == if k == c.slots[idx].key then None else c.Find(k)
  {
  }

  lemma PutInFreeSlot<K(!new), V>(c: Cache<K, V>, stored: Slot<K, V>)
    requires c.WellFormed() && stored.Used? && stored.key !in c.items && c.free != []
    ensures var (c', idx, evicted) := NextSlot(c);
            var r := Install(c', idx, stored);
            && r.WellFormed()
            && forall k :: r.Find(k) == if k == stored.key then Some(Entry(stored.value, stored.expiresAt)) else c.Find(k)
  {
    hide Cache.Bijection;
    hide Cache.Find;
    var n := |c.free| - 1;
    var idx := c.free[n];
    var r := Install(NextSlot(c).0, idx, stored);
    FillSlot(c, r, idx, stored);
    assert r.FreeList() by {
      forall s | 0 <= s < r.usedSlots && r.slots[s].Empty?
        ensures s in r.free
      {
        var j :| 0 <= j < |c.free| && c.free[j] == s;
        assert c.free[j] == r.free[j];
      }
    }
  }

  lemma PutInUntouchedSlot<K(!new), V>(c: Cache<K, V>, stored: Slot<K, V>)
    requires c.WellFormed() && stored.Used? && stored.key !in c.items
    requires c.free == [] && c.usedSlots < |c.slots|
    ensures var (c', idx, evicted) := NextSlot(c);
            var r := Install(c', idx, stored);
            && r.WellFormed()
            && forall k :: r.Find(k) == if k == stored.key then Some(Entry(stored.value, stored.expiresAt)) else c.Find(k)
  {
    hide Cache.Bijection;
    hide Cache.Find;
    var idx := c.usedSlots;
    var r := Install(NextSlot(c).0, idx, stored);
    FillSlot(c, r, idx, stored);
  }

  lemma PutEvicting<K(!new), V>(c: Cache<K, V>, stored: Slot<K, V>)
    requires c.WellFormed() && stored.Used? && stored.key !in c.items
    requires c.free == [] && c.usedSlots == |c.slots|
    ensures var (c', idx, evicted) := NextSlot(c);
            var r := Install(c', idx, stored);
            && r.WellFormed()
            && forall k :: r.Find(k) == if k == stored.key then Some(Entry(stored.value, stored.expiresAt))
                                        else if k == c.slots[c.nextEvict].key then None
                                        else c.Find(k)
  {
    hide Cache.Bijection;
    hide Cache.Find;
    var idx := c.nextEvict;
    var r := Install(NextSlot(c).0, idx, stored);
    var hole := c.(items := c.items - {c.slots[idx].key}, slots := c.slots[idx := Empty]);
    ClearSlot(c, hole, idx);
    assert r.slots == hole.slots[idx := stored];
    FillSlot(hole, r, idx, stored);
    assert r.FreeList();
  }
}
