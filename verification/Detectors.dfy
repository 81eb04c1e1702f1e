/**
 * The two stateful detectors over whole runs. A run is the sequence of all float samples (or
 * of all series) that reach the inspector, in the order in which they take the cache lock; it
 * may interleave any number of requests.
 */
module Detectors {
  import opened Prelude
  import opened Validation
  import H = Hashing
  import M = CacheModel
  import R = ShardedRuns

  const UNKNOWN := "unknown"

  type Identity = map<string, string>

  function Field(identity: Identity, name: string): string {
    if name in identity then identity[name] else UNKNOWN
  }

  datatype Config = Config(
    limits: Limits,
    staleCutoffMs: int,
    futureSkewMs: int,
    hasInputPath: bool,
    disableDuplicateSampleDetection: bool,
    disableCrossPathCollisionDetection: bool,
    diagnosticPrefixes: seq<string>,
    digest: string -> u64)
  {
    function SeriesHash(labels: seq<Label>): u64 {
      digest(H.Stream(H.Canonical(labels)))
    }

    predicate IsStale(timestamp: int, nowMs: int) {
      timestamp < nowMs - staleCutoffMs
    }

    predicate IsFuture(timestamp: int, nowMs: int) {
      timestamp > nowMs + futureSkewMs
    }
  }

  // Duplicate timestamps

  datatype SampleKey = SampleKey(tenant: string, series: u64, timestamp: int)

  /** A float sample together with its request's time and the clock readings of its cache access. */
  datatype Arrival = Arrival(
    identity: Identity, labels: seq<Label>, nowMs: int, timestamp: int, bits: u64, tGet: int, tPut: int)
  {
    function Key(cfg: Config): SampleKey {
      SampleKey(Field(identity, "tenant"), cfg.SeriesHash(labels), timestamp)
    }

    /** Only fresh samples of series without complaints are compared. */
    ghost predicate Eligible(cfg: Config) {
      && !cfg.disableDuplicateSampleDetection
      && WellFormedSeries(labels, cfg.limits)
      && !cfg.IsStale(timestamp, nowMs) && !cfg.IsFuture(timestamp, nowMs)
    }

    ghost function Call(cfg: Config): R.Call<SampleKey, u64> {
      if Eligible(cfg) then R.Call(Key(cfg), bits, tGet, tPut) else R.Skip
    }
  }

  /** The order of the labels does not matter to the series hash. */
  lemma HashIgnoresOrder(cfg: Config, a: seq<Label>, b: seq<Label>)
    requires multiset(a) == multiset(b)
    ensures cfg.SeriesHash(a) == cfg.SeriesHash(b)
  {
    H.CanonicalIgnoresOrder(a, b);
  }

  /** Two samples share a key exactly if tenant, series hash and timestamp agree. */
  lemma KeyMeans(cfg: Config, a: Arrival, b: Arrival)
    ensures a.Key(cfg) == b.Key(cfg) <==>
              && (if "tenant" in a.identity then a.identity["tenant"] else "unknown") ==
                 (if "tenant" in b.identity then b.identity["tenant"] else "unknown")
              && cfg.SeriesHash(a.labels) == cfg.SeriesHash(b.labels)
              && a.timestamp == b.timestamp
  {
    hide Config.SeriesHash;
  }

  /** A sample is compared exactly if its series is well formed and its timestamp within the limits. */
  lemma EligibleMeans(cfg: Config, a: Arrival)
    ensures a.Eligible(cfg) <==>
              && !cfg.disableDuplicateSampleDetection && WellFormedSeries(a.labels, cfg.limits)
              && a.nowMs - cfg.staleCutoffMs <= a.timestamp <= a.nowMs + cfg.futureSkewMs
  {
    hide WellFormedSeries;
  }

  ghost function SampleCalls(cfg: Config, arrivals: seq<Arrival>): (calls: seq<R.Call<SampleKey, u64>>)
    ensures |calls| == |arrivals|
  {
    seq(|arrivals|, i requires 0 <= i < |arrivals| => arrivals[i].Call(cfg))
  }

  datatype Conflict = NoConflict | Found(previousBits: u64, incomingBits: u64)

  function ConflictFrom(answer: M.Answer<u64>, bits: u64): Conflict {
    if answer.Hit? && answer.value != bits then Found(answer.value, bits) else NoConflict
  }

  type SampleStore = R.Store<SampleKey, u64>

  ghost function ConflictAt(cfg: Config, st: SampleStore, arrivals: seq<Arrival>, i: nat): Conflict
    requires st.WellFormed() && i < |arrivals|
  {
    ConflictFrom(R.AnswerAt(st, SampleCalls(cfg, arrivals), i), arrivals[i].bits)
  }

  /**
   * Every reported conflict is real: an earlier eligible sample of the same tenant, series and
   * timestamp carried exactly the reported previous bits, they differ from the incoming ones,
   * and it was recorded at most one ttl before. Both belong to the same tenant.
   */
  lemma ReportedConflictIsReal(cfg: Config, st: SampleStore, arrivals: seq<Arrival>, i: nat) returns (j: nat)
    requires st.IsFresh() && i < |arrivals| && ConflictAt(cfg, st, arrivals, i).Found?
    ensures j < i
    ensures arrivals[j].Eligible(cfg) && arrivals[i].Eligible(cfg)
    ensures arrivals[j].Key(cfg) == arrivals[i].Key(cfg)
    ensures ConflictAt(cfg, st, arrivals, i) == Found(arrivals[j].bits, arrivals[i].bits)
    ensures arrivals[j].bits != arrivals[i].bits
    ensures (if "tenant" in arrivals[j].identity then arrivals[j].identity["tenant"] else "unknown") ==
            (if "tenant" in arrivals[i].identity then arrivals[i].identity["tenant"] else "unknown")
    ensures cfg.SeriesHash(arrivals[j].labels) == cfg.SeriesHash(arrivals[i].labels)
    ensures arrivals[j].timestamp == arrivals[i].timestamp
    ensures arrivals[i].tGet <= arrivals[j].tPut + st.Ttl()
  {
    hide R.Step;
    hide R.Store.WellFormed;
    hide R.Store.SameShape;
    hide R.Store.IsFresh;
    hide WellFormedSeries;
    var calls := SampleCalls(cfg, arrivals);
    assert calls[i].Call?;
    j := R.HitReturnsFirstWrite(st, calls, i);
    hide R.AnswerAt;
    hide R.LostAt;
    assert calls[j].Call? && calls[j].key == calls[i].key;
    KeyMeans(cfg, arrivals[j], arrivals[i]);
  }

  /** Samples of different tenants are never compared. */
  lemma TenantsDoNotMix(cfg: Config, a: Arrival, b: Arrival)
    requires "tenant" in a.identity && "tenant" in b.identity && a.identity["tenant"] != b.identity["tenant"]
    ensures a.Key(cfg) != b.Key(cfg)
  {
    KeyMeans(cfg, a, b);
  }

  /** A sample is not reported unless its own tenant has sent one of that series and timestamp before. */
  lemma FirstOfTenantIsNotReported(cfg: Config, st: SampleStore, arrivals: seq<Arrival>, i: nat)
    requires st.IsFresh() && i < |arrivals|
    requires forall m :: 0 <= m < i && arrivals[m].timestamp == arrivals[i].timestamp
                         && cfg.SeriesHash(arrivals[m].labels) == cfg.SeriesHash(arrivals[i].labels) ==>
               (if "tenant" in arrivals[m].identity then arrivals[m].identity["tenant"] else "unknown") !=
               (if "tenant" in arrivals[i].identity then arrivals[i].identity["tenant"] else "unknown")
    ensures ConflictAt(cfg, st, arrivals, i) == NoConflict
  {
    hide R.AnswerAt;
    hide R.Store.WellFormed;
    hide Config.SeriesHash;
    hide WellFormedSeries;
    if ConflictAt(cfg, st, arrivals, i).Found? {
      var j := ReportedConflictIsReal(cfg, st, arrivals, i);
    }
  }

  /** While a recorded sample stays in the cache, conflicts are reported exactly for other bits. */
  lemma ConflictExactlyWhenBitsDiffer(cfg: Config, st: SampleStore, arrivals: seq<Arrival>, j: nat, i: nat)
    requires st.WellFormed() && j < i < |arrivals|
    requires arrivals[j].Eligible(cfg) && arrivals[i].Eligible(cfg)
    requires arrivals[j].Key(cfg) == arrivals[i].Key(cfg)
    requires R.AnswerAt(st, SampleCalls(cfg, arrivals), j).Miss?
    requires R.KeptUntil(st, SampleCalls(cfg, arrivals), j, i)
    ensures ConflictAt(cfg, st, arrivals, i) ==
              if arrivals[i].bits != arrivals[j].bits then Found(arrivals[j].bits, arrivals[i].bits) else NoConflict
  {
    hide R.AnswerAt;
    hide R.Store.WellFormed;
    hide WellFormedSeries;
    R.KeptValueIsReturned(st, SampleCalls(cfg, arrivals), j, i);
  }

  /**
   * With room for all keys and no lookup of this key after its time, nothing else matters: the
   * first eligible sample of a key decides about every later one.
   */
  lemma FirstSampleDecides(cfg: Config, st: SampleStore, arrivals: seq<Arrival>, keys: set<SampleKey>, j: nat, i: nat)
    requires st.IsFresh() && R.Fits(st, SampleCalls(cfg, arrivals), keys) && j < i < |arrivals|
    requires arrivals[j].Eligible(cfg) && arrivals[i].Eligible(cfg)
    requires arrivals[j].Key(cfg) == arrivals[i].Key(cfg)
    requires forall m :: 0 <= m < j && arrivals[m].Eligible(cfg) ==> arrivals[m].Key(cfg) != arrivals[j].Key(cfg)
    requires forall m :: j < m <= i && arrivals[m].Eligible(cfg) && arrivals[m].Key(cfg) == arrivals[j].Key(cfg) ==>
               arrivals[m].tGet <= arrivals[j].tPut + st.Ttl()
    ensures ConflictAt(cfg, st, arrivals, j) == NoConflict
    ensures ConflictAt(cfg, st, arrivals, i) ==
              if arrivals[i].bits != arrivals[j].bits then Found(arrivals[j].bits, arrivals[i].bits) else NoConflict
  {
    FirstSampleMisses(cfg, st, arrivals, j);
    FreshSampleStays(cfg, st, arrivals, keys, j, i);
    hide R.Store.IsFresh;
    hide R.Fits;
    hide R.KeptUntil;
    hide R.AnswerAt;
    hide Arrival.Eligible;
    ConflictExactlyWhenBitsDiffer(cfg, st, arrivals, j, i);
  }

  lemma FirstSampleMisses(cfg: Config, st: SampleStore, arrivals: seq<Arrival>, j: nat)
    requires st.IsFresh() && j < |arrivals| && arrivals[j].Eligible(cfg)
    requires forall m :: 0 <= m < j && arrivals[m].Eligible(cfg) ==> arrivals[m].Key(cfg) != arrivals[j].Key(cfg)
    ensures R.AnswerAt(st, SampleCalls(cfg, arrivals), j).Miss?
  {
    hide R.AnswerAt;
    hide R.Store.IsFresh;
    hide Arrival.Eligible;
    hide Arrival.Key;
    FirstCallMisses(st, SampleCalls(cfg, arrivals), j);
  }

  lemma FreshSampleStays(cfg: Config, st: SampleStore, arrivals: seq<Arrival>, keys: set<SampleKey>, j: nat, i: nat)
    requires st.IsFresh() && R.Fits(st, SampleCalls(cfg, arrivals), keys) && j < i < |arrivals|
    requires arrivals[j].Eligible(cfg)
    requires forall m :: j < m <= i && arrivals[m].Eligible(cfg) && arrivals[m].Key(cfg) == arrivals[j].Key(cfg) ==>
               arrivals[m].tGet <= arrivals[j].tPut + st.Ttl()
    ensures R.KeptUntil(st, SampleCalls(cfg, arrivals), j, i)
  {
    hide R.Store.IsFresh;
    hide R.Fits;
    hide R.KeptUntil;
    hide Arrival.Eligible;
    hide Arrival.Key;
    RoomKeepsKey(st, SampleCalls(cfg, arrivals), keys, j, i);
  }

  lemma RoomKeepsKey<K(!new), V>(st: R.Store<K, V>, calls: seq<R.Call<K, V>>, keys: set<K>, j: nat, i: nat)
    requires st.IsFresh() && R.Fits(st, calls, keys) && j < i < |calls| && calls[j].Call?
    requires forall m :: j < m <= i && calls[m].Call? && calls[m].key == calls[j].key ==>
               calls[m].tGet <= calls[j].tPut + st.Ttl()
    ensures R.KeptUntil(st, calls, j, i)
  {
    forall m | j < m < i
      ensures R.LostAt(st, calls, m) == None
    {
      hide R.LostAt;
      R.FittingRunIsUnbounded(st, calls, keys, m);
    }
    hide R.LostAt;
    hide R.Store.WellFormed;
  }

  lemma FirstCallMisses<K(!new), V>(st: R.Store<K, V>, calls: seq<R.Call<K, V>>, j: nat)
    requires st.IsFresh() && j < |calls| && calls[j].Call?
    requires forall m :: 0 <= m < j && calls[m].Call? ==> calls[m].key != calls[j].key
    ensures R.AnswerAt(st, calls, j).Miss?
  {
    hide R.Step;
    hide R.Store.WellFormed;
    if R.AnswerAt(st, calls, j).Hit? {
      var m := R.HitReturnsFirstWrite(st, calls, j);
      assert false;
    }
  }

  /**
   * With NUL bytes in label values, samples of two different well-formed series can share a key,
   * whatever the digest, and are then taken for duplicates of each other.
   */
  lemma DifferentSeriesShareKey(cfg: Config, a: Arrival, b: Arrival)
    requires 3 <= cfg.limits.maxLabels && 5 <= cfg.limits.maxLabelValueLength
    requires a.labels == H.ONE_LABEL && b.labels == H.TWO_LABELS
    requires Field(a.identity, "tenant") == Field(b.identity, "tenant") && a.timestamp == b.timestamp
    ensures WellFormedSeries(a.labels, cfg.limits) && WellFormedSeries(b.labels, cfg.limits)
    ensures multiset(a.labels) != multiset(b.labels) && a.Key(cfg) == b.Key(cfg)
  {
    hide H.ONE_LABEL;
    hide H.TWO_LABELS;
    hide WellFormedSeries;
    H.NulBytesCollide(cfg.limits);
  }

  // Cross-path collisions

  datatype PathKey = PathKey(tenant: string, series: u64)

  /** A series together with the clock readings of its cache access. */
  datatype Visit = Visit(identity: Identity, labels: seq<Label>, tGet: int, tPut: int)
  {
    function Path(): string {
      Field(identity, "input_path")
    }

    function Key(cfg: Config): PathKey {
      PathKey(Field(identity, "tenant"), cfg.SeriesHash(labels))
    }

    ghost predicate Eligible(cfg: Config) {
      && !cfg.disableCrossPathCollisionDetection
      && WellFormedSeries(labels, cfg.limits)
      && Path() != UNKNOWN
    }

    ghost function Call(cfg: Config): R.Call<PathKey, string> {
      if Eligible(cfg) then R.Call(Key(cfg), Path(), tGet, tPut) else R.Skip
    }
  }

  /** Two visits share a key exactly if tenant and series hash agree. */
  lemma VisitKeyMeans(cfg: Config, a: Visit, b: Visit)
    ensures a.Key(cfg) == b.Key(cfg) <==>
              && (if "tenant" in a.identity then a.identity["tenant"] else "unknown") ==
                 (if "tenant" in b.identity then b.identity["tenant"] else "unknown")
              && cfg.SeriesHash(a.labels) == cfg.SeriesHash(b.labels)
  {
    hide Config.SeriesHash;
  }

  /** A series is compared exactly if it is well formed and its path known. */
  lemma VisitEligibleMeans(cfg: Config, v: Visit)
    ensures v.Eligible(cfg) <==>
              && !cfg.disableCrossPathCollisionDetection && WellFormedSeries(v.labels, cfg.limits)
              && "input_path" in v.identity && v.identity["input_path"] != "unknown"
    ensures v.Eligible(cfg) ==> v.Path() == v.identity["input_path"]
  {
    hide WellFormedSeries;
  }

  ghost function PathCalls(cfg: Config, visits: seq<Visit>): (calls: seq<R.Call<PathKey, string>>)
    ensures |calls| == |visits|
  {
    seq(|visits|, i requires 0 <= i < |visits| => visits[i].Call(cfg))
  }

  type PathStore = R.Store<PathKey, string>

  ghost predicate CollisionAt(cfg: Config, st: PathStore, visits: seq<Visit>, i: nat)
    requires st.WellFormed() && i < |visits|
  {
    var answer := R.AnswerAt(st, PathCalls(cfg, visits), i);
    answer.Hit? && answer.value != visits[i].Path()
  }

  /** Every reported collision has an earlier visit of the same tenant and series over another known path. */
  lemma ReportedCollisionIsReal(cfg: Config, st: PathStore, visits: seq<Visit>, i: nat) returns (j: nat)
    requires st.IsFresh() && i < |visits| && CollisionAt(cfg, st, visits, i)
    ensures j < i
    ensures visits[j].Eligible(cfg) && visits[i].Eligible(cfg)
    ensures visits[j].Key(cfg) == visits[i].Key(cfg)
    ensures visits[j].Path() != visits[i].Path()
    ensures (if "tenant" in visits[j].identity then visits[j].identity["tenant"] else "unknown") ==
            (if "tenant" in visits[i].identity then visits[i].identity["tenant"] else "unknown")
    ensures cfg.SeriesHash(visits[j].labels) == cfg.SeriesHash(visits[i].labels)
    ensures visits[i].tGet <= visits[j].tPut + st.Ttl()
  {
    hide R.Step;
    hide R.Store.WellFormed;
    hide R.Store.SameShape;
    hide R.Store.IsFresh;
    hide WellFormedSeries;
    var calls := PathCalls(cfg, visits);
    assert calls[i].Call?;
    j := R.HitReturnsFirstWrite(st, calls, i);
    hide R.AnswerAt;
    hide R.LostAt;
    assert calls[j].Call? && calls[j].key == calls[i].key;
    VisitKeyMeans(cfg, visits[j], visits[i]);
  }

  /** A series is not reported unless its own tenant has sent it before. */
  lemma FirstVisitOfTenantIsNotReported(cfg: Config, st: PathStore, visits: seq<Visit>, i: nat)
    requires st.IsFresh() && i < |visits|
    requires forall m :: 0 <= m < i && cfg.SeriesHash(visits[m].labels) == cfg.SeriesHash(visits[i].labels) ==>
               (if "tenant" in visits[m].identity then visits[m].identity["tenant"] else "unknown") !=
               (if "tenant" in visits[i].identity then visits[i].identity["tenant"] else "unknown")
    ensures !CollisionAt(cfg, st, visits, i)
  {
    hide R.AnswerAt;
    hide R.Store.WellFormed;
    hide Config.SeriesHash;
    hide WellFormedSeries;
    if CollisionAt(cfg, st, visits, i) {
      var j := ReportedCollisionIsReal(cfg, st, visits, i);
    }
  }

  lemma CollisionExactlyWhenPathsDiffer(cfg: Config, st: PathStore, visits: seq<Visit>, j: nat, i: nat)
    requires st.WellFormed() && j < i < |visits|
    requires visits[j].Eligible(cfg) && visits[i].Eligible(cfg) && visits[j].Key(cfg) == visits[i].Key(cfg)
    requires R.AnswerAt(st, PathCalls(cfg, visits), j).Miss?
    requires R.KeptUntil(st, PathCalls(cfg, visits), j, i)
    ensures CollisionAt(cfg, st, visits, i) <==> visits[i].Path() != visits[j].Path()
  {
    hide R.AnswerAt;
    hide R.Store.WellFormed;
    hide WellFormedSeries;
    R.KeptValueIsReturned(st, PathCalls(cfg, visits), j, i);
  }

  // Running one stretch after another

  /** A run continued is a run from where the first part ended. */
  lemma {:induction false} ContinuedRun<K(!new), V>(st: R.Store<K, V>, a: seq<R.Call<K, V>>, b: seq<R.Call<K, V>>, k: nat)
    requires st.WellFormed() && k <= |b|
    ensures R.StateAt(st, a + b, |a| + k) == R.StateAt(R.StateAt(st, a, |a|), b, k)
  {
    hide R.Step;
    hide R.Store.WellFormed;
    if k == 0 {
      R.StateAtPrefix(st, a, b, |a|);
    } else {
      ContinuedRun(st, a, b, k - 1);
      assert (a + b)[|a| + k - 1] == b[k - 1];
    }
  }

  ghost predicate SampleProblem(cfg: Config, st: SampleStore, arrivals: seq<Arrival>, i: nat)
    requires st.WellFormed() && i < |arrivals|
  {
    var a := arrivals[i];
    cfg.IsStale(a.timestamp, a.nowMs) || cfg.IsFuture(a.timestamp, a.nowMs) || ConflictAt(cfg, st, arrivals, i).Found?
  }

  ghost predicate AnySampleProblem(cfg: Config, st: SampleStore, arrivals: seq<Arrival>)
    requires st.WellFormed()
  {
    exists i :: 0 <= i < |arrivals| && SampleProblem(cfg, st, arrivals, i)
  }

  ghost function SamplesDone(cfg: Config, st: SampleStore, arrivals: seq<Arrival>): (r: SampleStore)
    requires st.WellFormed()
    ensures r.WellFormed()
  {
    R.StateAt(st, SampleCalls(cfg, arrivals), |arrivals|)
  }

  lemma ContinuedAnswers<K(!new), V>(st: R.Store<K, V>, a: seq<R.Call<K, V>>, b: seq<R.Call<K, V>>)
    requires st.WellFormed()
    ensures forall i :: 0 <= i < |a| ==> R.AnswerAt(st, a + b, i) == R.AnswerAt(st, a, i)
    ensures forall k :: 0 <= k < |b| ==> R.AnswerAt(st, a + b, |a| + k) == R.AnswerAt(R.StateAt(st, a, |a|), b, k)
  {
    hide R.Step;
    hide R.StateAt;
    hide R.Store.WellFormed;
    forall i | 0 <= i < |a|
      ensures R.AnswerAt(st, a + b, i) == R.AnswerAt(st, a, i)
    {
      R.StateAtPrefix(st, a, b, i);
    }
    forall k | 0 <= k < |b|
      ensures R.AnswerAt(st, a + b, |a| + k) == R.AnswerAt(R.StateAt(st, a, |a|), b, k)
    {
      ContinuedRun(st, a, b, k);
    }
  }

  lemma ProblemsInParts(cfg: Config, st: SampleStore, a: seq<Arrival>, b: seq<Arrival>)
    requires st.WellFormed()
    ensures var mid := SamplesDone(cfg, st, a);
            && SamplesDone(cfg, st, a + b) == SamplesDone(cfg, mid, b)
            && (forall i :: 0 <= i < |a| ==> (SampleProblem(cfg, st, a + b, i) <==> SampleProblem(cfg, st, a, i)))
            && (forall i :: |a| <= i < |a + b| ==> (SampleProblem(cfg, st, a + b, i) <==> SampleProblem(cfg, mid, b, i - |a|)))
  {
    hide R.Store.WellFormed;
    hide R.AnswerAt;
    hide R.StateAt;
    hide Arrival.Call;
    hide Config.IsStale;
    hide Config.IsFuture;
    var ca, cb := SampleCalls(cfg, a), SampleCalls(cfg, b);
    assert SampleCalls(cfg, a + b) == ca + cb;
    ContinuedRun(st, ca, cb, |b|);
    ContinuedAnswers(st, ca, cb);
    forall i | |a| <= i < |a + b|
      ensures SampleProblem(cfg, st, a + b, i) <==> SampleProblem(cfg, SamplesDone(cfg, st, a), b, i - |a|)
    {
      assert R.AnswerAt(st, ca + cb, |a| + (i - |a|)) == R.AnswerAt(R.StateAt(st, ca, |ca|), cb, i - |a|);
    }
  }

  /** What a run of samples finds is what its parts find, each from the store it meets. */
  lemma SamplesInParts(cfg: Config, st: SampleStore, a: seq<Arrival>, b: seq<Arrival>)
    requires st.WellFormed()
    ensures var mid := SamplesDone(cfg, st, a);
            && SamplesDone(cfg, st, a + b) == SamplesDone(cfg, mid, b)
            && (AnySampleProblem(cfg, st, a + b) <==> AnySampleProblem(cfg, st, a) || AnySampleProblem(cfg, mid, b))
  {
    hide R.Store.WellFormed;
    hide SampleProblem;
    hide SamplesDone;
    ProblemsInParts(cfg, st, a, b);
    var mid := SamplesDone(cfg, st, a);
    if k :| 0 <= k < |b| && SampleProblem(cfg, mid, b, k) {
      assert SampleProblem(cfg, st, a + b, |a| + k);
    }
  }

  // Findings

  /** Why a sample is reported. A conflict carries both bit patterns. */
  datatype SampleReason = StaleSample | FutureSample | DifferentValue(previousBits: u64, incomingBits: u64)

  function FreshnessReasons(cfg: Config, timestamp: int, nowMs: int): set<SampleReason> {
    (if cfg.IsStale(timestamp, nowMs) then {StaleSample} else {}) +
    (if cfg.IsFuture(timestamp, nowMs) then {FutureSample} else {})
  }

  function ConflictReasons(conflict: Conflict): set<SampleReason> {
    if conflict.Found? then {DifferentValue(conflict.previousBits, conflict.incomingBits)} else {}
  }

  /** What is reported about the i-th sample of a run. */
  ghost function SampleReasons(cfg: Config, st: SampleStore, arrivals: seq<Arrival>, i: nat): set<SampleReason>
    requires st.WellFormed() && i < |arrivals|
  {
    FreshnessReasons(cfg, arrivals[i].timestamp, arrivals[i].nowMs) + ConflictReasons(ConflictAt(cfg, st, arrivals, i))
  }

  /** Stale is older than the cut-off, future is newer than the skew allows, and nothing else is either. */
  lemma FreshnessMeans(cfg: Config, timestamp: int, nowMs: int)
    ensures StaleSample in FreshnessReasons(cfg, timestamp, nowMs) <==> timestamp < nowMs - cfg.staleCutoffMs
    ensures FutureSample in FreshnessReasons(cfg, timestamp, nowMs) <==> timestamp > nowMs + cfg.futureSkewMs
    ensures forall r :: r in FreshnessReasons(cfg, timestamp, nowMs) ==> r == StaleSample || r == FutureSample
  {
  }

  /** A sample is a problem exactly if something is reported about it. */
  lemma ProblemMeansReason(cfg: Config, st: SampleStore, arrivals: seq<Arrival>, i: nat)
    requires st.WellFormed() && i < |arrivals|
    ensures SampleProblem(cfg, st, arrivals, i) <==> SampleReasons(cfg, st, arrivals, i) != {}
  {
    hide ConflictAt;
    hide R.Store.WellFormed;
    var a := arrivals[i];
    if cfg.IsStale(a.timestamp, a.nowMs) {
      assert StaleSample in SampleReasons(cfg, st, arrivals, i);
    } else if cfg.IsFuture(a.timestamp, a.nowMs) {
      assert FutureSample in SampleReasons(cfg, st, arrivals, i);
    } else if ConflictAt(cfg, st, arrivals, i).Found? {
      var c := ConflictAt(cfg, st, arrivals, i);
      assert DifferentValue(c.previousBits, c.incomingBits) in SampleReasons(cfg, st, arrivals, i);
    }
  }

  ghost predicate SampleFindings(cfg: Config, st: SampleStore, arrivals: seq<Arrival>, found: seq<set<SampleReason>>)
    requires st.WellFormed()
  {
    |found| == |arrivals| && forall i :: 0 <= i < |found| ==> found[i] == SampleReasons(cfg, st, arrivals, i)
  }

  lemma ReasonsInParts(cfg: Config, st: SampleStore, a: seq<Arrival>, b: seq<Arrival>)
    requires st.WellFormed()
    ensures forall i :: 0 <= i < |a| ==> SampleReasons(cfg, st, a + b, i) == SampleReasons(cfg, st, a, i)
    ensures var mid := SamplesDone(cfg, st, a);
            forall i :: |a| <= i < |a + b| ==> SampleReasons(cfg, st, a + b, i) == SampleReasons(cfg, mid, b, i - |a|)
  {
    hide R.Store.WellFormed;
    hide R.AnswerAt;
    hide R.StateAt;
    hide Arrival.Call;
    hide FreshnessReasons;
    hide ConflictReasons;
    var ca, cb := SampleCalls(cfg, a), SampleCalls(cfg, b);
    assert SampleCalls(cfg, a + b) == ca + cb;
    ContinuedAnswers(st, ca, cb);
    forall i | |a| <= i < |a + b|
      ensures SampleReasons(cfg, st, a + b, i) == SampleReasons(cfg, SamplesDone(cfg, st, a), b, i - |a|)
    {
      assert R.AnswerAt(st, ca + cb, |a| + (i - |a|)) == R.AnswerAt(R.StateAt(st, ca, |ca|), cb, i - |a|);
    }
  }

  lemma FindingsInParts(
    cfg: Config, st: SampleStore, a: seq<Arrival>, b: seq<Arrival>, inA: seq<set<SampleReason>>, inB: seq<set<SampleReason>>)
    requires st.WellFormed() && SampleFindings(cfg, st, a, inA)
    requires SampleFindings(cfg, SamplesDone(cfg, st, a), b, inB)
    ensures SampleFindings(cfg, st, a + b, inA + inB)
  {
    hide R.Store.WellFormed;
    hide SampleReasons;
    hide SamplesDone;
    ReasonsInParts(cfg, st, a, b);
  }

  ghost predicate AnyCollision(cfg: Config, st: PathStore, visits: seq<Visit>)
    requires st.WellFormed()
  {
    exists i :: 0 <= i < |visits| && CollisionAt(cfg, st, visits, i)
  }

  ghost function VisitsDone(cfg: Config, st: PathStore, visits: seq<Visit>): (r: PathStore)
    requires st.WellFormed()
    ensures r.WellFormed()
  {
    R.StateAt(st, PathCalls(cfg, visits), |visits|)
  }

  lemma CollisionsInParts(cfg: Config, st: PathStore, a: seq<Visit>, b: seq<Visit>)
    requires st.WellFormed()
    ensures var mid := VisitsDone(cfg, st, a);
            && VisitsDone(cfg, st, a + b) == VisitsDone(cfg, mid, b)
            && (forall i :: 0 <= i < |a| ==> (CollisionAt(cfg, st, a + b, i) <==> CollisionAt(cfg, st, a, i)))
            && (forall i :: |a| <= i < |a + b| ==> (CollisionAt(cfg, st, a + b, i) <==> CollisionAt(cfg, mid, b, i - |a|)))
  {
    hide R.Store.WellFormed;
    hide R.AnswerAt;
    hide R.StateAt;
    hide Visit.Call;
    var ca, cb := PathCalls(cfg, a), PathCalls(cfg, b);
    assert PathCalls(cfg, a + b) == ca + cb;
    ContinuedRun(st, ca, cb, |b|);
    ContinuedAnswers(st, ca, cb);
    forall i | |a| <= i < |a + b|
      ensures CollisionAt(cfg, st, a + b, i) <==> CollisionAt(cfg, VisitsDone(cfg, st, a), b, i - |a|)
    {
      assert R.AnswerAt(st, ca + cb, |a| + (i - |a|)) == R.AnswerAt(R.StateAt(st, ca, |ca|), cb, i - |a|);
    }
  }

  lemma VisitsInParts(cfg: Config, st: PathStore, a: seq<Visit>, b: seq<Visit>)
    requires st.WellFormed()
    ensures var mid := VisitsDone(cfg, st, a);
            && VisitsDone(cfg, st, a + b) == VisitsDone(cfg, mid, b)
            && (AnyCollision(cfg, st, a + b) <==> AnyCollision(cfg, st, a) || AnyCollision(cfg, mid, b))
  {
    hide R.Store.WellFormed;
    hide CollisionAt;
    hide VisitsDone;
    CollisionsInParts(cfg, st, a, b);
    var mid := VisitsDone(cfg, st, a);
    if k :| 0 <= k < |b| && CollisionAt(cfg, mid, b, k) {
      assert CollisionAt(cfg, st, a + b, |a| + k);
    }
  }
}
