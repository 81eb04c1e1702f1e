/**
 * How long the sharded cache remembers, and so which duplicates the detector misses. What a shard
 * stores is a queue of the keys it was asked for, whatever the values, the clock and the time to
 * live: a key stays until as many further keys have been admitted to its shard as it has slots.
 */
module Retention {
  import opened Prelude
  import opened CacheModel
  import opened Validation
  import opened Detectors
  import R = ShardedRuns
  import F = Fifo
  import opened Reference

  /** The queue that the keys asked of a key's shard make by themselves. */
  ghost function QueueOf<K(!new), V>(st: R.Store<K, V>, calls: seq<R.Call<K, V>>, key: K, n: nat): seq<K>
    requires st.WellFormed() && n <= |calls|
  {
    F.KeyQueue(st.Home(key).Capacity(), F.KeysOf(R.Restrict(st, calls, st.ShardOf(key))), n)
  }

  /** A key is stored exactly if it is in that queue. */
  lemma StoredIffQueued<K(!new), V>(st: R.Store<K, V>, calls: seq<R.Call<K, V>>, n: nat, key: K)
    requires IsNew(st) && n <= |calls|
    ensures R.StateAt(st, calls, n).Find(key).Some? <==> key in QueueOf(st, calls, key, n)
  {
    var s := st.ShardOf(key);
    var c, run := st.shards[s], R.Restrict(st, calls, s);
    ShardOfNew(st, s);
    ShardRun(st, calls, s, n);
    hide IsNew;
    hide F.Ring;
    hide R.StateAt;
    hide F.CacheAt;
    F.RunIsKeyQueue(c, run, n);
    F.RingHoldsLiveKeys(F.CacheAt(c, run, n), F.KeyQueue(c.Capacity(), F.KeysOf(run), n));
    hide Cache.FreeList;
    hide F.KeyQueue;
    hide F.KeysOf;
  }

  /** The keys admitted to one shard during the first n calls. */
  ghost function Admitted<K(!new), V>(st: R.Store<K, V>, calls: seq<R.Call<K, V>>, s: nat, n: nat): seq<K>
    requires st.WellFormed() && s < |st.shards| && n <= |calls|
  {
    F.Admitted(st.shards[s], R.Restrict(st, calls, s), n)
  }

  /** Call a asks for the key and does not find it in the store. */
  ghost predicate Admits<K(!new), V>(st: R.Store<K, V>, calls: seq<R.Call<K, V>>, a: nat, key: K)
    requires st.WellFormed() && a < |calls|
  {
    calls[a].Call? && calls[a].key == key && R.StateAt(st, calls, a).Find(key) == None
  }

  lemma AdmitsInShard<K(!new), V>(st: R.Store<K, V>, calls: seq<R.Call<K, V>>, a: nat, key: K)
    requires st.WellFormed() && a < |calls|
    ensures Admits(st, calls, a, key) <==>
              F.Admits(st.shards[st.ShardOf(key)], R.Restrict(st, calls, st.ShardOf(key)), a, key)
  {
    ShardRun(st, calls, st.ShardOf(key), a);
    hide Cache.WellFormed;
    hide F.CacheAt;
    hide R.StateAt;
  }

  /** Between two calls that do not admit a key it does not enter the list of admissions. */
  lemma {:induction false} NotAdmittedBetween<K(!new), V>(c: Cache<K, V>, run: F.Run<K, V>, m: nat, n: nat, key: K)
    requires c.WellFormed() && m <= n <= |run|
    requires forall a :: m <= a < n ==> !F.Admits(c, run, a, key)
    ensures F.Admitted(c, run, m) <= F.Admitted(c, run, n)
    ensures forall i :: |F.Admitted(c, run, m)| <= i < |F.Admitted(c, run, n)| ==> F.Admitted(c, run, n)[i] != key
  {
    hide F.Admits;
    hide Cache.WellFormed;
    if m < n {
      NotAdmittedBetween(c, run, m, n - 1, key);
    }
  }

  /** A key is among the last n of a list exactly if its last occurrence is. */
  lemma LastOccurrence<K>(all: seq<K>, n: nat, at: nat)
    requires at < |all| && forall i :: at < i < |all| ==> all[i] != all[at]
    ensures all[at] in F.LastN(all, n) <==> |all| - at <= n
  {
    var queue := F.LastN(all, n);
    var cut := if |all| <= n then 0 else |all| - n;
    assert forall i :: 0 <= i < |queue| ==> queue[i] == all[cut + i];
    if at >= cut {
      assert queue[at - cut] == all[at];
    }
  }

  lemma AdmissionAppends<K(!new), V>(c: Cache<K, V>, run: F.Run<K, V>, a: nat, key: K)
    requires c.WellFormed() && a < |run| && F.Admits(c, run, a, key)
    ensures F.Admitted(c, run, a + 1) == F.Admitted(c, run, a) + [key]
  {
    hide Cache.WellFormed;
    hide F.CacheAt;
  }

  lemma StoredInShard<K(!new), V>(c: Cache<K, V>, run: F.Run<K, V>, a: nat, n: nat, key: K)
    requires c.WellFormed() && F.Ring(c, []) && a < n <= |run|
    requires F.Admits(c, run, a, key) && forall m :: a < m < n ==> !F.Admits(c, run, m, key)
    ensures key in F.CacheAt(c, run, n).items <==>
              |F.Admitted(c, run, n)| - |F.Admitted(c, run, a + 1)| < c.Capacity()
  {
    hide Cache.WellFormed;
    hide F.CacheAt;
    hide F.Admits;
    hide F.Admitted;
    hide F.LastN;
    hide F.Ring;
    AdmissionAppends(c, run, a, key);
    NotAdmittedBetween(c, run, a + 1, n, key);
    F.RunIsQueue(c, run, n);
    F.RingHoldsLiveKeys(F.CacheAt(c, run, n), F.Queue(c, run, n));
    LastOccurrence(F.Admitted(c, run, n), c.Capacity(), |F.Admitted(c, run, a)|);
  }

  /** How many keys have been admitted to the key's shard by the calls from `from` to before n. */
  ghost function AdmittedBetween<K(!new), V>(st: R.Store<K, V>, calls: seq<R.Call<K, V>>, key: K, from: nat, n: nat): int
    requires st.WellFormed() && from <= n <= |calls|
  {
    |Admitted(st, calls, st.ShardOf(key), n)| - |Admitted(st, calls, st.ShardOf(key), from)|
  }

  /**
   * A key is stored, and in the queue of the keys asked for, exactly until its shard has admitted
   * as many further keys as it has slots.
   */
  lemma StoredUntilPushedOut<K(!new), V>(st: R.Store<K, V>, calls: seq<R.Call<K, V>>, a: nat, n: nat, key: K)
    requires IsNew(st) && a < n <= |calls|
    requires Admits(st, calls, a, key) && forall m :: a < m < n ==> !Admits(st, calls, m, key)
    ensures R.StateAt(st, calls, n).Find(key).Some? <==>
              AdmittedBetween(st, calls, key, a + 1, n) < st.Home(key).Capacity()
    ensures key in QueueOf(st, calls, key, n) <==>
              AdmittedBetween(st, calls, key, a + 1, n) < st.Home(key).Capacity()
  {
    StoredIffQueued(st, calls, n, key);
    hide QueueOf;
    var s := st.ShardOf(key);
    var c, run := st.shards[s], R.Restrict(st, calls, s);
    ShardRun(st, calls, s, n);
    AdmitsInShard(st, calls, a, key);
    forall m | a < m < n
      ensures !F.Admits(c, run, m, key)
    {
      AdmitsInShard(st, calls, m, key);
    }
    hide Admits;
    hide F.Admits;
    hide Cache.WellFormed;
    hide F.Ring;
    hide R.StateAt;
    hide F.CacheAt;
    StoredInShard(c, run, a, n, key);
  }

  // What a lookup answers

  /** Call j wrote the key, and no later call before i did. */
  ghost predicate LatestWrite<K(!new), V>(st: R.Store<K, V>, calls: seq<R.Call<K, V>>, j: nat, i: nat, key: K)
    requires st.WellFormed() && j < i <= |calls|
  {
    && calls[j].Call? && calls[j].key == key && R.AnswerAt(st, calls, j).Miss?
    && forall m :: j < m < i && calls[m].Call? && calls[m].key == key ==> !R.AnswerAt(st, calls, m).Miss?
  }

  lemma AdmissionIsMiss<K(!new), V>(st: R.Store<K, V>, calls: seq<R.Call<K, V>>, a: nat, key: K)
    requires st.WellFormed() && a < |calls| && Admits(st, calls, a, key)
    ensures R.AnswerAt(st, calls, a).Miss?
  {
    hide R.Step;
    hide R.StateAt;
    hide R.Store.WellFormed;
    hide R.Store.Find;
    R.StepMeaning(R.StateAt(st, calls, a), calls[a]);
  }

  /** Every written key was admitted, and not after it was written. */
  lemma {:induction false} LastAdmission<K(!new), V>(st: R.Store<K, V>, calls: seq<R.Call<K, V>>, j: nat, key: K)
    returns (a: nat)
    requires st.IsFresh() && j < |calls| && calls[j].Call? && calls[j].key == key && R.AnswerAt(st, calls, j).Miss?
    ensures a <= j && Admits(st, calls, a, key)
    ensures forall m :: a < m <= j ==> !Admits(st, calls, m, key)
    decreases j
  {
    hide R.Step;
    hide R.StateAt;
    hide R.Store.WellFormed;
    hide R.Store.Find;
    hide R.AnswerAt;
    if R.StateAt(st, calls, j).Find(key) == None {
      a := j;
    } else {
      var w := R.Provenance(st, calls, j, key);
      hide R.LostAt;
      a := LastAdmission(st, calls, w, key);
      forall m | w < m < j
        ensures !Admits(st, calls, m, key)
      {
        if Admits(st, calls, m, key) {
          AdmissionIsMiss(st, calls, m, key);
        }
      }
    }
  }

  lemma LatestWriteIsStored<K(!new), V>(st: R.Store<K, V>, calls: seq<R.Call<K, V>>, j: nat, i: nat, key: K)
    requires st.IsFresh() && j < i <= |calls| && LatestWrite(st, calls, j, i, key)
    requires R.StateAt(st, calls, i).Find(key).Some?
    ensures R.StateAt(st, calls, i).Find(key) == Some(Entry(calls[j].value, calls[j].tPut + st.Ttl()))
  {
    hide R.Step;
    hide R.StateAt;
    hide R.Store.WellFormed;
    hide R.Store.Find;
    hide R.AnswerAt;
    hide R.LostAt;
    var w := R.Provenance(st, calls, i, key);
  }

  /** The admission that the latest write of a key belongs to. */
  lemma AdmissionOfWrite<K(!new), V>(st: R.Store<K, V>, calls: seq<R.Call<K, V>>, j: nat, i: nat, key: K)
    returns (a: nat)
    requires st.IsFresh() && j < i <= |calls| && LatestWrite(st, calls, j, i, key)
    ensures a <= j && Admits(st, calls, a, key)
    ensures forall m :: a < m < i ==> !Admits(st, calls, m, key)
  {
    hide R.AnswerAt;
    hide R.StateAt;
    hide R.Store.WellFormed;
    a := LastAdmission(st, calls, j, key);
    forall m | j < m < i
      ensures !Admits(st, calls, m, key)
    {
      if Admits(st, calls, m, key) {
        AdmissionIsMiss(st, calls, m, key);
      }
    }
  }

  /**
   * Exactly when a lookup finds the value last written: within its time, and while the key is in
   * the queue of the keys asked of its shard. That queue has lost it once the shard has admitted,
   * since the key was admitted, as many further keys as it has slots.
   */
  lemma LookupFindsLatestIff<K(!new), V>(st: R.Store<K, V>, calls: seq<R.Call<K, V>>, j: nat, i: nat, key: K)
    returns (a: nat)
    requires IsNew(st) && j < i < |calls| && LatestWrite(st, calls, j, i, key)
    requires calls[i].Call? && calls[i].key == key
    ensures a <= j && Admits(st, calls, a, key)
    ensures key in QueueOf(st, calls, key, i) <==>
              AdmittedBetween(st, calls, key, a + 1, i) < st.Home(key).Capacity()
    ensures var found := calls[i].tGet <= calls[j].tPut + st.Ttl() && key in QueueOf(st, calls, key, i);
            && (found ==> R.AnswerAt(st, calls, i) == Hit(calls[j].value))
            && (!found ==> R.AnswerAt(st, calls, i).Miss?)
  {
    NewIsFresh(st);
    hide R.Step;
    hide R.StateAt;
    hide R.Store.WellFormed;
    hide R.Store.Find;
    hide R.Store.IsFresh;
    hide IsNew;
    hide AdmittedBetween;
    hide QueueOf;
    a := AdmissionOfWrite(st, calls, j, i, key);
    hide Admits;
    StoredUntilPushedOut(st, calls, a, i, key);
    if R.StateAt(st, calls, i).Find(key).Some? {
      LatestWriteIsStored(st, calls, j, i, key);
    }
    hide LatestWrite;
    R.StepMeaning(R.StateAt(st, calls, i), calls[i]);
  }

  // What the detector misses

  /**
   * Sample j is the latest recorded one under the key of sample i. If the bits differ, the
   * conflict is missed exactly when sample i comes too late, or when its key has left the queue of
   * the keys asked of its shard. Equal bits are never reported.
   */
  lemma ConflictMissedIff(cfg: Config, st: SampleStore, arrivals: seq<Arrival>, j: nat, i: nat) returns (a: nat)
    requires IsNew(st) && j < i < |arrivals| && arrivals[i].Eligible(cfg)
    requires LatestWrite(st, SampleCalls(cfg, arrivals), j, i, arrivals[i].Key(cfg))
    ensures a <= j && Admits(st, SampleCalls(cfg, arrivals), a, arrivals[i].Key(cfg))
    ensures var key := arrivals[i].Key(cfg);
            key in QueueOf(st, SampleCalls(cfg, arrivals), key, i) <==>
              AdmittedBetween(st, SampleCalls(cfg, arrivals), key, a + 1, i) < st.Home(key).Capacity()
    ensures arrivals[j].Eligible(cfg) && arrivals[j].Key(cfg) == arrivals[i].Key(cfg)
    ensures var key := arrivals[i].Key(cfg);
            var missed := || arrivals[i].tGet > arrivals[j].tPut + st.Ttl()
                          || key !in QueueOf(st, SampleCalls(cfg, arrivals), key, i);
            ConflictAt(cfg, st, arrivals, i) ==
              if missed || arrivals[i].bits == arrivals[j].bits then NoConflict
              else Found(arrivals[j].bits, arrivals[i].bits)
  {
    hide IsNew;
    hide R.AnswerAt;
    hide R.Store.WellFormed;
    hide WellFormedSeries;
    hide AdmittedBetween;
    hide QueueOf;
    hide Admits;
    var calls, key := SampleCalls(cfg, arrivals), arrivals[i].Key(cfg);
    assert calls[j].Call? && calls[j].key == key;
    a := LookupFindsLatestIff(st, calls, j, i, key);
  }

  /** The same for paths: visit j is the latest recorded one of the series of visit i. */
  lemma CollisionMissedIff(cfg: Config, st: PathStore, visits: seq<Visit>, j: nat, i: nat) returns (a: nat)
    requires IsNew(st) && j < i < |visits| && visits[i].Eligible(cfg)
    requires LatestWrite(st, PathCalls(cfg, visits), j, i, visits[i].Key(cfg))
    ensures a <= j && Admits(st, PathCalls(cfg, visits), a, visits[i].Key(cfg))
    ensures var key := visits[i].Key(cfg);
            key in QueueOf(st, PathCalls(cfg, visits), key, i) <==>
              AdmittedBetween(st, PathCalls(cfg, visits), key, a + 1, i) < st.Home(key).Capacity()
    ensures visits[j].Eligible(cfg) && visits[j].Key(cfg) == visits[i].Key(cfg)
    ensures var key := visits[i].Key(cfg);
            var missed := || visits[i].tGet > visits[j].tPut + st.Ttl()
                          || key !in QueueOf(st, PathCalls(cfg, visits), key, i);
            CollisionAt(cfg, st, visits, i) <==> !missed && visits[i].Path() != visits[j].Path()
  {
    hide IsNew;
    hide R.AnswerAt;
    hide R.Store.WellFormed;
    hide WellFormedSeries;
    hide AdmittedBetween;
    hide QueueOf;
    hide Admits;
    var calls, key := PathCalls(cfg, visits), visits[i].Key(cfg);
    assert calls[j].Call? && calls[j].key == key;
    a := LookupFindsLatestIff(st, calls, j, i, key);
  }

  /** A sample of the metric `up` that carries no labels besides its name. */
  function UpSample(identity: Identity, timestamp: int, bits: u64): Arrival {
    Arrival(identity, [Label("__name__", "up")], 2, timestamp, bits, 0, 0)
  }

  function ThreeSamples(identity: Identity): seq<Arrival> {
    [UpSample(identity, 1, 0), UpSample(identity, 2, 0), UpSample(identity, 1, 7)]
  }

  lemma UpIsWellFormed(limits: Limits)
    requires 1 <= limits.maxLabels && 2 <= limits.maxLabelValueLength
    ensures WellFormedSeries([Label("__name__", "up")], limits)
  {
    assert ValidMetricName("up") && ValidLabelName("__name__");
    assert [Label("__name__", "up")][0] == Label("__name__", "up");
  }

  /**
   * A missed conflict. One slot, and samples of one series at the timestamps 1, 2 and 1 again,
   * all at the same time: the third has other bits than the first, and nothing is reported.
   */
  lemma MissedConflict(cfg: Config, ttl: int, hash: SampleKey -> u64, identity: Identity)
    requires 1 <= cfg.limits.maxLabels && 2 <= cfg.limits.maxLabelValueLength
    requires !cfg.disableDuplicateSampleDetection && 1 <= cfg.staleCutoffMs && 0 <= cfg.futureSkewMs && 0 <= ttl
    ensures var st := R.Store([Fresh<SampleKey, u64>(1, ttl)], hash);
            var arrivals := ThreeSamples(identity);
            && IsNew(st)
            && (forall i :: 0 <= i < 3 ==> arrivals[i].Eligible(cfg))
            && arrivals[0].Key(cfg) == arrivals[2].Key(cfg) && arrivals[0].bits != arrivals[2].bits
            && arrivals[2].tGet <= arrivals[0].tPut + st.Ttl()
            && ConflictAt(cfg, st, arrivals, 2) == NoConflict
  {
    hide Fresh;
    hide Arrival.Eligible;
    hide Arrival.Key;
    hide R.AnswerAt;
    hide SampleCalls;
    var arrivals := ThreeSamples(identity);
    ThreeCalls(cfg, identity);
    OneSlotIsNew(ttl, hash);
    hide IsNew;
    hide R.Store.WellFormed;
    var st := R.Store([Fresh<SampleKey, u64>(1, ttl)], hash);
    ThirdIsMiss(st, SampleCalls(cfg, arrivals), arrivals[0].Key(cfg), arrivals[1].Key(cfg));
  }

  lemma ThreeCalls(cfg: Config, identity: Identity)
    requires 1 <= cfg.limits.maxLabels && 2 <= cfg.limits.maxLabelValueLength
    requires !cfg.disableDuplicateSampleDetection && 1 <= cfg.staleCutoffMs && 0 <= cfg.futureSkewMs
    ensures var arrivals := ThreeSamples(identity);
            var k1, k2 := arrivals[0].Key(cfg), arrivals[1].Key(cfg);
            && (forall i :: 0 <= i < 3 ==> arrivals[i].Eligible(cfg))
            && k1 != k2 && arrivals[2].Key(cfg) == k1
            && SampleCalls(cfg, arrivals) == [R.Call(k1, 0, 0, 0), R.Call(k2, 0, 0, 0), R.Call(k1, 7, 0, 0)]
  {
    hide Arrival.Eligible;
    hide Config.SeriesHash;
    EligibleUp(cfg, identity, 1, 0);
    EligibleUp(cfg, identity, 2, 0);
    EligibleUp(cfg, identity, 1, 7);
  }

  lemma EligibleUp(cfg: Config, identity: Identity, timestamp: int, bits: u64)
    requires 1 <= cfg.limits.maxLabels && 2 <= cfg.limits.maxLabelValueLength && 1 <= timestamp <= 2
    requires !cfg.disableDuplicateSampleDetection && 1 <= cfg.staleCutoffMs && 0 <= cfg.futureSkewMs
    ensures UpSample(identity, timestamp, bits).Eligible(cfg)
  {
    UpIsWellFormed(cfg.limits);
    hide WellFormedSeries;
  }

  lemma OneSlotIsNew(ttl: int, hash: SampleKey -> u64)
    ensures IsNew(R.Store([Fresh<SampleKey, u64>(1, ttl)], hash))
    ensures R.Store([Fresh<SampleKey, u64>(1, ttl)], hash).Ttl() == ttl
    ensures Fresh<SampleKey, u64>(1, ttl).Capacity() == 1
  {
  }

  lemma ThirdIsMiss(st: SampleStore, calls: seq<R.Call<SampleKey, u64>>, k1: SampleKey, k2: SampleKey)
    requires IsNew(st) && |st.shards| == 1 && st.shards[0].Capacity() == 1 && k1 != k2
    requires calls == [R.Call(k1, 0, 0, 0), R.Call(k2, 0, 0, 0), R.Call(k1, 7, 0, 0)]
    ensures R.AnswerAt(st, calls, 2).Miss?
  {
    hide R.Step;
    hide R.StateAt;
    hide R.Store.Find;
    var keys := F.KeysOf(R.Restrict(st, calls, 0));
    assert keys == [Some(k1), Some(k2), Some(k1)];
    assert F.KeyQueue(1, keys, 0) == [];
    assert F.KeyQueue(1, keys, 1) == [k1];
    assert F.KeyQueue(1, keys, 2) == [k2];
    StoredIffQueued(st, calls, 2, k1);
    hide R.Store.WellFormed;
    R.StepMeaning(R.StateAt(st, calls, 2), calls[2]);
  }
}
