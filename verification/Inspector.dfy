/**
 * Inspecting one decoded request. The methods use the caches in place; the ghost results list
 * the cache accesses made, with the clock readings they happened to see, so that a request is
 * a stretch of a run in the sense of Detectors.
 */
module Inspector {
  import opened Prelude
  import opened Strings
  import opened Validation
  import opened Detectors
  import H = Hashing
  import M = CacheModel
  import R = ShardedRuns
  import S = StateCache

  datatype Sample = Sample(timestamp: int, bits: u64)

  /** A histogram counts with its timestamp only. */
  datatype TimeSeries = TimeSeries(labels: seq<Label>, samples: seq<Sample>, histograms: seq<int>)

  datatype InspectionResult = InspectionResult(totalSamples: nat, badData: bool)

  /** The first named metric, if the series has one. */
  function SeriesName(labels: seq<Label>): string {
    if labels == [] then UNKNOWN
    else if labels[0].name == METRIC_NAME_LABEL && labels[0].value != "" then labels[0].value
    else SeriesName(labels[1..])
  }

  predicate IsDiagnosticMetric(cfg: Config, name: string) {
    exists p :: p in cfg.diagnosticPrefixes && p != "" && p <= name
  }

  predicate LacksWriter(cfg: Config, identity: Identity, labels: seq<Label>) {
    && IsDiagnosticMetric(cfg, SeriesName(labels))
    && "writer_id" in identity && Field(identity, "writer_id") == UNKNOWN
  }

  /** The name of a series is the first nonempty value of a `__name__` label. */
  lemma {:induction false} SeriesNameMeans(labels: seq<Label>, i: nat)
    requires i < |labels| && labels[i].name == "__name__" && labels[i].value != ""
    requires forall k :: 0 <= k < i ==> labels[k].name != "__name__" || labels[k].value == ""
    ensures SeriesName(labels) == labels[i].value
  {
    if i > 0 {
      SeriesNameMeans(labels[1..], i - 1);
    }
  }

  lemma {:induction false} UnnamedSeries(labels: seq<Label>)
    requires forall k :: 0 <= k < |labels| ==> labels[k].name != "__name__" || labels[k].value == ""
    ensures SeriesName(labels) == "unknown"
  {
    if labels != [] {
      UnnamedSeries(labels[1..]);
    }
  }

  /**
   * A writer is missing for a well-formed series exactly if its metric name begins with one of the
   * nonempty diagnostic prefixes and the identity has the field `writer_id` without a known value.
   */
  lemma LacksWriterMeans(cfg: Config, identity: Identity, labels: seq<Label>, i: nat)
    requires WellFormedSeries(labels, cfg.limits) && i < |labels| && labels[i].name == "__name__"
    ensures LacksWriter(cfg, identity, labels) <==>
              && "writer_id" in identity && identity["writer_id"] == "unknown"
              && exists p :: p in cfg.diagnosticPrefixes && p != "" && |p| <= |labels[i].value| && labels[i].value[..|p|] == p
  {
    forall k | 0 <= k < i
      ensures labels[k].name != "__name__"
    {
      LessIsIrreflexive(labels[k].name);
    }
    SeriesNameMeans(labels, i);
    hide SeriesName;
    hide WellFormedSeries;
    var name := labels[i].value;
    assert forall p: string :: p <= name <==> |p| <= |name| && name[..|p|] == p;
  }

  function TotalSamples(request: seq<TimeSeries>): nat {
    if request == [] then 0
    else
      var last := request[|request| - 1];
      TotalSamples(request[..|request| - 1]) + |last.samples| + |last.histograms|
  }

  /** What is wrong with a series whatever the caches hold. */
  ghost predicate SeriesProblem(cfg: Config, identity: Identity, series: TimeSeries, nowMs: int) {
    || !WellFormedSeries(series.labels, cfg.limits)
    || LacksWriter(cfg, identity, series.labels)
    || exists h :: h in series.histograms && (cfg.IsStale(h, nowMs) || cfg.IsFuture(h, nowMs))
  }

  /** The float samples of a series as arrivals, clock readings apart. */
  ghost function ArrivalsOf(identity: Identity, series: TimeSeries, nowMs: int): seq<Arrival> {
    seq(|series.samples|, i requires 0 <= i < |series.samples| =>
      Arrival(identity, series.labels, nowMs, series.samples[i].timestamp, series.samples[i].bits, 0, 0))
  }

  ghost function AllArrivals(identity: Identity, request: seq<TimeSeries>, nowMs: int): seq<Arrival> {
    if request == [] then []
    else
      AllArrivals(identity, request[..|request| - 1], nowMs) + ArrivalsOf(identity, request[|request| - 1], nowMs)
  }

  /** Why a series is reported. */
  datatype SeriesReason = Structural(reason: Reason) | CrossPathCollision | WriterMissing

  /** What is reported about the i-th series of a run, apart from its samples. */
  ghost predicate SeriesReasons(cfg: Config, st: PathStore, visits: seq<Visit>, i: nat, found: set<SeriesReason>)
    requires st.WellFormed() && i < |visits|
  {
    var v := visits[i];
    && (forall r :: Structural(r) in found <==> Has(r, v.labels, cfg.limits))
    && (CrossPathCollision in found <==> CollisionAt(cfg, st, visits, i))
    && (WriterMissing in found <==> WellFormedSeries(v.labels, cfg.limits) && LacksWriter(cfg, v.identity, v.labels))
  }

  ghost predicate SeriesFindings(cfg: Config, st: PathStore, visits: seq<Visit>, found: seq<set<SeriesReason>>)
    requires st.WellFormed()
  {
    |found| == |visits| && forall i :: 0 <= i < |found| ==> SeriesReasons(cfg, st, visits, i, found[i])
  }

  lemma SeriesReasonsInParts(cfg: Config, st: PathStore, a: seq<Visit>, b: seq<Visit>, i: nat, found: set<SeriesReason>)
    requires st.WellFormed() && i < |a + b|
    ensures i < |a| ==> (SeriesReasons(cfg, st, a + b, i, found) <==> SeriesReasons(cfg, st, a, i, found))
    ensures i >= |a| ==> (SeriesReasons(cfg, st, a + b, i, found) <==>
                            SeriesReasons(cfg, VisitsDone(cfg, st, a), b, i - |a|, found))
  {
    hide R.Store.WellFormed;
    hide CollisionAt;
    hide VisitsDone;
    hide Has;
    hide WellFormedSeries;
    hide LacksWriter;
    CollisionsInParts(cfg, st, a, b);
  }

  lemma SeriesFindingsInParts(
    cfg: Config, st: PathStore, a: seq<Visit>, b: seq<Visit>, inA: seq<set<SeriesReason>>, inB: seq<set<SeriesReason>>)
    requires st.WellFormed() && SeriesFindings(cfg, st, a, inA)
    requires SeriesFindings(cfg, VisitsDone(cfg, st, a), b, inB)
    ensures SeriesFindings(cfg, st, a + b, inA + inB)
  {
    hide R.Store.WellFormed;
    hide SeriesReasons;
    hide VisitsDone;
    var found := inA + inB;
    forall i | 0 <= i < |found|
      ensures SeriesReasons(cfg, st, a + b, i, found[i])
    {
      SeriesReasonsInParts(cfg, st, a, b, i, found[i]);
    }
  }

  /** The histograms of a series one by one. */
  function HistogramFindings(cfg: Config, histograms: seq<int>, nowMs: int): (found: seq<set<SampleReason>>)
    ensures |found| == |histograms|
  {
    seq(|histograms|, i requires 0 <= i < |histograms| => FreshnessReasons(cfg, histograms[i], nowMs))
  }

  function AllHistogramFindings(cfg: Config, request: seq<TimeSeries>, nowMs: int): seq<set<SampleReason>> {
    if request == [] then []
    else
      AllHistogramFindings(cfg, request[..|request| - 1], nowMs)
      + HistogramFindings(cfg, request[|request| - 1].histograms, nowMs)
  }

  /** All that is reported about a request: series by series, sample by sample, histogram by histogram. */
  datatype Findings = Findings(
    series: seq<set<SeriesReason>>, samples: seq<set<SampleReason>>, histograms: seq<set<SampleReason>>)

  /** The same arrivals, with some clock readings filled in. */
  ghost predicate Timed(arrivals: seq<Arrival>, untimed: seq<Arrival>) {
    && |arrivals| == |untimed|
    && forall i :: 0 <= i < |arrivals| ==> arrivals[i].(tGet := 0, tPut := 0) == untimed[i]
  }

  class Inspector {
    const cfg: Config
    const samples: S.StateCache?<SampleKey, u64>
    const paths: S.StateCache?<PathKey, string>

    ghost function SampleRepr(): set<object> {
      if samples == null then {} else samples.Repr()
    }

    ghost function PathRepr(): set<object> {
      if paths == null then {} else paths.Repr()
    }

    /** The caches exist exactly when their detectors can be asked anything. */
    ghost predicate Valid()
      reads SampleRepr(), PathRepr()
    {
      && (samples == null <==> cfg.disableDuplicateSampleDetection)
      && (paths == null <==> cfg.disableCrossPathCollisionDetection || !cfg.hasInputPath)
      && (samples != null ==> samples.Valid())
      && (paths != null ==> paths.Valid())
      && SampleRepr() !! PathRepr()
    }

    /** The state of the sample cache; a cache that is switched off behaves like one never asked. */
    ghost function SampleState(): (st: SampleStore)
      requires Valid()
      reads SampleRepr(), PathRepr()
      ensures st.WellFormed()
    {
      if samples == null then R.Store([M.Fresh(1, 0)], _ => 0) else samples.Model()
    }

    ghost function PathState(): (st: PathStore)
      requires Valid()
      reads SampleRepr(), PathRepr()
      ensures st.WellFormed()
    {
      if paths == null then R.Store([M.Fresh(1, 0)], _ => 0) else paths.Model()
    }

    /** Builds the caches that the configuration asks for, each new and not shared. */
    constructor (cfg: Config, cacheSize: int, ttl: int, sampleHash: SampleKey -> u64, pathHash: PathKey -> u64)
      ensures Valid() && this.cfg == cfg
      ensures fresh(SampleRepr()) && fresh(PathRepr())
      ensures var size := if cacheSize <= 0 then 1 else cacheSize;
              && (samples != null ==> SampleState() == R.Store(S.FreshShards<SampleKey, u64>(size, ttl), sampleHash))
              && (paths != null ==> PathState() == R.Store(S.FreshShards<PathKey, string>(size, ttl), pathHash))
      ensures var size := if cacheSize <= 0 then 1 else cacheSize;
              && (samples != null ==> R.BuiltWith(SampleState(), size, ttl, sampleHash))
              && (paths != null ==> R.BuiltWith(PathState(), size, ttl, pathHash))
    {
      hide R.BuiltWith;
      hide R.Store.WellFormed;
      hide M.Cache.WellFormed;
      hide S.FreshShards;
      hide S.StateCache.Model;
      var sampleCache: S.StateCache?<SampleKey, u64> := null;
      if !cfg.disableDuplicateSampleDetection {
        sampleCache := new S.StateCache(cacheSize, ttl, sampleHash);
      }
      var pathCache: S.StateCache?<PathKey, string> := null;
      if !cfg.disableCrossPathCollisionDetection && cfg.hasInputPath {
        pathCache := new S.StateCache(cacheSize, ttl, pathHash);
      }
      this.cfg, samples, paths := cfg, sampleCache, pathCache;
    }

    method DetectDuplicateSample(identity: Identity, series: u64, timestamp: int, bits: u64, tGet: int, tPut: int)
      returns (conflict: Conflict)
      requires Valid() && samples != null
      modifies SampleRepr()
      ensures Valid() && PathState() == old(PathState())
      ensures var (st, answer) := R.Step(old(SampleState()),
                R.Call(SampleKey(Field(identity, "tenant"), series, timestamp), bits, tGet, tPut));
              SampleState() == st && conflict == ConflictFrom(answer, bits)
    {
      hide R.Step;
      hide M.Cache.WellFormed;
      var key := SampleKey(Field(identity, "tenant"), series, timestamp);
      var answer := samples.GetOrPut(key, bits, tGet, tPut);
      if answer.Hit? {
        if answer.value != bits {
          return Found(answer.value, bits);
        }
        return NoConflict;
      }
      return NoConflict;
    }

    method DetectCrossPathCollision(identity: Identity, series: u64, tGet: int, tPut: int) returns (collision: bool)
      requires Valid() && (paths == null ==> Field(identity, "input_path") == UNKNOWN)
      modifies PathRepr()
      ensures Valid() && SampleState() == old(SampleState())
      ensures Field(identity, "input_path") == UNKNOWN ==> PathState() == old(PathState()) && !collision
      ensures Field(identity, "input_path") != UNKNOWN ==>
                var path := Field(identity, "input_path");
                var (st, answer) := R.Step(old(PathState()),
                  R.Call(PathKey(Field(identity, "tenant"), series), path, tGet, tPut));
                PathState() == st && (collision <==> answer.Hit? && answer.value != path)
    {
      hide R.Step;
      hide M.Cache.WellFormed;
      var inputPath := Field(identity, "input_path");
      if inputPath == UNKNOWN {
        return false;
      }
      var key := PathKey(Field(identity, "tenant"), series);
      var answer := paths.GetOrPut(key, inputPath, tGet, tPut);
      if answer.Hit? {
        return answer.value != inputPath;
      }
      return false;
    }

    /** One float sample: freshness first, and the cache only for an unsuspicious sample of a clean series. */
    method InspectSample(identity: Identity, labels: seq<Label>, clean: bool, hash: u64, sample: Sample, nowMs: int)
      returns (bad: bool, found: set<SampleReason>, ghost arrival: Arrival)
      requires Valid() && (clean <==> WellFormedSeries(labels, cfg.limits)) && hash == cfg.SeriesHash(labels)
      modifies SampleRepr()
      ensures Valid() && PathState() == old(PathState())
      ensures Timed([arrival], [Arrival(identity, labels, nowMs, sample.timestamp, sample.bits, 0, 0)])
      ensures SampleState() == SamplesDone(cfg, old(SampleState()), [arrival])
      ensures bad <==> AnySampleProblem(cfg, old(SampleState()), [arrival])
      ensures SampleFindings(cfg, old(SampleState()), [arrival], [found])
    {
      hide R.Step;
      hide R.Store.WellFormed;
      hide M.Cache.WellFormed;
      hide WellFormedSeries;
      var tGet: int, tPut: int := *, *;
      arrival := Arrival(identity, labels, nowMs, sample.timestamp, sample.bits, tGet, tPut);
      SingleSample(cfg, SampleState(), arrival);
      var suspicious := false;
      found := {};
      if cfg.IsStale(sample.timestamp, nowMs) {
        suspicious := true;
        found := found + {StaleSample};
      }
      if cfg.IsFuture(sample.timestamp, nowMs) {
        suspicious := true;
        found := found + {FutureSample};
      }
      bad := suspicious;
      if clean && !suspicious && !cfg.disableDuplicateSampleDetection {
        var conflict := DetectDuplicateSample(identity, hash, sample.timestamp, sample.bits, tGet, tPut);
        if conflict.Found? {
          bad := true;
          found := found + {DifferentValue(conflict.previousBits, conflict.incomingBits)};
        }
      }
    }

    method InspectSamples(identity: Identity, series: TimeSeries, clean: bool, hash: u64, nowMs: int)
      returns (bad: bool, found: seq<set<SampleReason>>, ghost arrivals: seq<Arrival>)
      requires Valid() && (clean <==> WellFormedSeries(series.labels, cfg.limits)) && hash == cfg.SeriesHash(series.labels)
      modifies SampleRepr()
      ensures Valid() && PathState() == old(PathState())
      ensures Timed(arrivals, ArrivalsOf(identity, series, nowMs))
      ensures SampleState() == SamplesDone(cfg, old(SampleState()), arrivals)
      ensures bad <==> AnySampleProblem(cfg, old(SampleState()), arrivals)
      ensures SampleFindings(cfg, old(SampleState()), arrivals, found)
    {
      hide SampleFindings;
      hide Valid;
      hide SampleState;
      hide PathState;
      hide R.Store.WellFormed;
      hide M.Cache.WellFormed;
      hide WellFormedSeries;
      hide AnySampleProblem;
      hide SamplesDone;
      ghost var start := SampleState();
      NoSamples(cfg, start);
      bad, found, arrivals := false, [], [];
      for i := 0 to |series.samples|
        invariant Valid() && PathState() == old(PathState())
        invariant |arrivals| == i && Timed(arrivals, ArrivalsOf(identity, series, nowMs)[..i])
        invariant SampleState() == SamplesDone(cfg, start, arrivals)
        invariant bad <==> AnySampleProblem(cfg, start, arrivals)
        invariant SampleFindings(cfg, start, arrivals, found)
      {
        var badSample, reasons;
        ghost var arrival;
        badSample, reasons, arrival := InspectSample(identity, series.labels, clean, hash, series.samples[i], nowMs);
        SamplesInParts(cfg, start, arrivals, [arrival]);
        FindingsInParts(cfg, start, arrivals, [arrival], found, [reasons]);
        found := found + [reasons];
        arrivals := arrivals + [arrival];
        bad := bad || badSample;
      }
    }

    method InspectHistograms(histograms: seq<int>, nowMs: int) returns (bad: bool, found: seq<set<SampleReason>>)
      ensures bad <==> exists h :: h in histograms && (cfg.IsStale(h, nowMs) || cfg.IsFuture(h, nowMs))
      ensures found == HistogramFindings(cfg, histograms, nowMs)
    {
      bad, found := false, [];
      for i := 0 to |histograms|
        invariant bad <==> exists k :: 0 <= k < i && (cfg.IsStale(histograms[k], nowMs) || cfg.IsFuture(histograms[k], nowMs))
        invariant found == HistogramFindings(cfg, histograms[..i], nowMs)
      {
        var reasons := {};
        if cfg.IsStale(histograms[i], nowMs) {
          bad := true;
          reasons := reasons + {StaleSample};
        }
        if cfg.IsFuture(histograms[i], nowMs) {
          bad := true;
          reasons := reasons + {FutureSample};
        }
        assert reasons == FreshnessReasons(cfg, histograms[i], nowMs);
        assert histograms[..i + 1] == histograms[..i] + [histograms[i]];
        found := found + [reasons];
      }
    }

    /** The path cache is asked for a clean series only, unless the detector is off. */
    method VisitSeries(identity: Identity, labels: seq<Label>, clean: bool, hash: u64)
      returns (collision: bool, ghost visit: Visit)
      requires Valid() && (clean <==> WellFormedSeries(labels, cfg.limits)) && hash == cfg.SeriesHash(labels)
      requires !cfg.hasInputPath ==> "input_path" !in identity
      modifies PathRepr()
      ensures Valid() && SampleState() == old(SampleState())
      ensures visit.identity == identity && visit.labels == labels
      ensures PathState() == VisitsDone(cfg, old(PathState()), [visit])
      ensures collision <==> CollisionAt(cfg, old(PathState()), [visit], 0)
    {
      hide R.Step;
      hide R.Store.WellFormed;
      hide M.Cache.WellFormed;
      hide WellFormedSeries;
      hide CollisionAt;
      hide VisitsDone;
      var tGet: int, tPut: int := *, *;
      visit := Visit(identity, labels, tGet, tPut);
      SingleVisit(cfg, PathState(), visit);
      collision := false;
      if clean && !cfg.disableCrossPathCollisionDetection {
        collision := DetectCrossPathCollision(identity, hash, tGet, tPut);
      }
    }

    /** The whole treatment of one series, apart from its samples. */
    method InspectLabels(identity: Identity, labels: seq<Label>, hash: u64)
      returns (clean: bool, bad: bool, found: set<SeriesReason>, ghost visit: Visit)
      requires Valid() && hash == cfg.SeriesHash(labels)
      requires !cfg.hasInputPath ==> "input_path" !in identity
      modifies PathRepr()
      ensures Valid() && SampleState() == old(SampleState())
      ensures clean <==> WellFormedSeries(labels, cfg.limits)
      ensures visit.identity == identity && visit.labels == labels
      ensures PathState() == VisitsDone(cfg, old(PathState()), [visit])
      ensures bad <==> !clean || LacksWriter(cfg, identity, labels) || AnyCollision(cfg, old(PathState()), [visit])
      ensures SeriesFindings(cfg, old(PathState()), [visit], [found])
    {
      hide Has;
      hide H.Canonical;
      hide H.Stream;
      hide R.Store.WellFormed;
      hide M.Cache.WellFormed;
      hide WellFormedSeries;
      hide LacksWriter;
      hide VisitsDone;
      hide AnyCollision;
      hide CollisionAt;
      hide SeriesFindings;
      ghost var st := PathState();
      clean, found := InspectStructure(labels, cfg.limits);
      assert Valid() && SampleState() == old(SampleState()) && PathState() == st;
      hide Valid;
      hide SampleState;
      hide PathState;
      var collision;
      collision, visit := VisitSeries(identity, labels, clean, hash);
      if collision {
        found := found + {CrossPathCollision};
      }
      var writerMissing := clean && LacksWriter(cfg, identity, labels);
      if writerMissing {
        found := found + {WriterMissing};
      }
      bad := !clean || collision || writerMissing;
      SingleFinding(cfg, st, visit, found);
    }

    /** One series: its labels, then its samples, then its histograms. */
    method InspectSeries(identity: Identity, series: TimeSeries, nowMs: int)
      returns (bad: bool, found: Findings, ghost visit: Visit, ghost arrivals: seq<Arrival>)
      requires Valid()
      requires !cfg.hasInputPath ==> "input_path" !in identity
      modifies SampleRepr(), PathRepr()
      ensures Valid()
      ensures visit.identity == identity && visit.labels == series.labels
      ensures Timed(arrivals, ArrivalsOf(identity, series, nowMs))
      ensures SampleState() == SamplesDone(cfg, old(SampleState()), arrivals)
      ensures PathState() == VisitsDone(cfg, old(PathState()), [visit])
      ensures bad <==>
                || SeriesProblem(cfg, identity, series, nowMs)
                || AnySampleProblem(cfg, old(SampleState()), arrivals)
                || AnyCollision(cfg, old(PathState()), [visit])
      ensures SeriesFindings(cfg, old(PathState()), [visit], found.series)
      ensures SampleFindings(cfg, old(SampleState()), arrivals, found.samples)
      ensures found.histograms == HistogramFindings(cfg, series.histograms, nowMs)
    {
      hide SeriesFindings;
      hide SampleFindings;
      hide HistogramFindings;
      hide ArrivalsOf;
      hide H.Canonical;
      hide H.Stream;
      hide Config.IsStale;
      hide Config.IsFuture;
      hide Valid;
      hide SampleState;
      hide PathState;
      hide R.Store.WellFormed;
      hide M.Cache.WellFormed;
      hide WellFormedSeries;
      hide AnySampleProblem;
      hide AnyCollision;
      hide SamplesDone;
      hide VisitsDone;
      hide LacksWriter;
      hide Timed;
      var hash := H.CanonicalHash(series.labels, cfg.digest);
      var clean, badLabels, inLabels, badSamples, inSamples;
      clean, badLabels, inLabels, visit := InspectLabels(identity, series.labels, hash);
      badSamples, inSamples, arrivals := InspectSamples(identity, series, clean, hash, nowMs);
      var badHistograms, inHistograms := InspectHistograms(series.histograms, nowMs);
      found := Findings([inLabels], inSamples, inHistograms);
      bad := badLabels || badSamples || badHistograms;
    }

    /**
     * A request is bad exactly when a series is malformed, lacks its writer or carries a stale or
     * future histogram, when a sample is stale, future or in conflict, or when paths collide. The
     * caches go through exactly the accesses of its series and samples, in order.
     */
    method InspectReceived(identity: Identity, request: seq<TimeSeries>, nowMs: int)
      returns (result: InspectionResult, found: Findings, ghost visits: seq<Visit>, ghost arrivals: seq<Arrival>)
      requires Valid()
      requires !cfg.hasInputPath ==> "input_path" !in identity
      modifies SampleRepr(), PathRepr()
      ensures Valid()
      ensures result.totalSamples == TotalSamples(request)
      ensures Timed(arrivals, AllArrivals(identity, request, nowMs))
      ensures |visits| == |request| &&
              forall k :: 0 <= k < |visits| ==> visits[k].identity == identity && visits[k].labels == request[k].labels
      ensures SampleState() == SamplesDone(cfg, old(SampleState()), arrivals)
      ensures PathState() == VisitsDone(cfg, old(PathState()), visits)
      ensures result.badData <==>
                || (exists k :: 0 <= k < |request| && SeriesProblem(cfg, identity, request[k], nowMs))
                || AnySampleProblem(cfg, old(SampleState()), arrivals)
                || AnyCollision(cfg, old(PathState()), visits)
      ensures SeriesFindings(cfg, old(PathState()), visits, found.series)
      ensures SampleFindings(cfg, old(SampleState()), arrivals, found.samples)
      ensures found.histograms == AllHistogramFindings(cfg, request, nowMs)
      ensures result.totalSamples == |found.samples| + |found.histograms|
    {
      hide SeriesFindings;
      hide Config.IsStale;
      hide Config.IsFuture;
      hide H.Canonical;
      hide H.Stream;
      hide ArrivalsOf;
      hide SampleFindings;
      hide HistogramFindings;
      hide Valid;
      hide SampleState;
      hide PathState;
      hide R.Store.WellFormed;
      hide M.Cache.WellFormed;
      hide WellFormedSeries;
      hide AnySampleProblem;
      hide AnyCollision;
      hide SamplesDone;
      hide VisitsDone;
      hide SeriesProblem;
      ghost var samples0, paths0 := SampleState(), PathState();
      NoSamples(cfg, samples0);
      NoVisits(cfg, paths0);
      var total, bad := 0, false;
      visits, arrivals, found := [], [], Findings([], [], []);
      for k := 0 to |request|
        invariant Valid()
        invariant total == TotalSamples(request[..k])
        invariant Timed(arrivals, AllArrivals(identity, request[..k], nowMs))
        invariant |visits| == k &&
                  forall i :: 0 <= i < k ==> visits[i].identity == identity && visits[i].labels == request[i].labels
        invariant SampleState() == SamplesDone(cfg, samples0, arrivals)
        invariant PathState() == VisitsDone(cfg, paths0, visits)
        invariant bad <==>
                    || (exists i :: 0 <= i < k && SeriesProblem(cfg, identity, request[i], nowMs))
                    || AnySampleProblem(cfg, samples0, arrivals)
                    || AnyCollision(cfg, paths0, visits)
        invariant SeriesFindings(cfg, paths0, visits, found.series)
        invariant SampleFindings(cfg, samples0, arrivals, found.samples)
        invariant found.histograms == AllHistogramFindings(cfg, request[..k], nowMs)
      {
        var series := request[k];
        assert request[..k + 1][..k] == request[..k];
        total := total + |series.samples| + |series.histograms|;
        var badSeries, inSeries;
        ghost var visit, more;
        badSeries, inSeries, visit, more := InspectSeries(identity, series, nowMs);
        VisitsInParts(cfg, paths0, visits, [visit]);
        SamplesInParts(cfg, samples0, arrivals, more);
        SeriesFindingsInParts(cfg, paths0, visits, [visit], found.series, inSeries.series);
        FindingsInParts(cfg, samples0, arrivals, more, found.samples, inSeries.samples);
        found := Findings(found.series + inSeries.series, found.samples + inSeries.samples,
                          found.histograms + inSeries.histograms);
        visits := visits + [visit];
        arrivals := arrivals + more;
        bad := bad || badSeries;
      }
      assert request[..|request|] == request;
      result := InspectionResult(total, bad);
      AllSamplesAreFound(cfg, identity, request, nowMs);
      assert |found.samples| == |arrivals| by {
        FindingsPerSample(cfg, samples0, arrivals, found.samples);
      }
    }
  }

  lemma FindingsPerSample(cfg: Config, st: SampleStore, arrivals: seq<Arrival>, found: seq<set<SampleReason>>)
    requires st.WellFormed() && SampleFindings(cfg, st, arrivals, found)
    ensures |found| == |arrivals|
  {
  }

  lemma {:induction false} AllSamplesAreFound(cfg: Config, identity: Identity, request: seq<TimeSeries>, nowMs: int)
    ensures TotalSamples(request) == |AllArrivals(identity, request, nowMs)| + |AllHistogramFindings(cfg, request, nowMs)|
  {
    hide HistogramFindings;
    if request != [] {
      AllSamplesAreFound(cfg, identity, request[..|request| - 1], nowMs);
    }
  }

  lemma SingleFinding(cfg: Config, st: PathStore, v: Visit, found: set<SeriesReason>)
    requires st.WellFormed()
    ensures AnyCollision(cfg, st, [v]) <==> CollisionAt(cfg, st, [v], 0)
    ensures SeriesFindings(cfg, st, [v], [found]) <==>
              && (forall r :: Structural(r) in found <==> Has(r, v.labels, cfg.limits))
              && (CrossPathCollision in found <==> CollisionAt(cfg, st, [v], 0))
              && (WriterMissing in found <==> WellFormedSeries(v.labels, cfg.limits) && LacksWriter(cfg, v.identity, v.labels))
  {
    hide R.Store.WellFormed;
    hide CollisionAt;
    hide Has;
    hide WellFormedSeries;
    hide LacksWriter;
    assert AnyCollision(cfg, st, [v]) <==> CollisionAt(cfg, st, [v], 0);
    assert SeriesFindings(cfg, st, [v], [found]) <==> SeriesReasons(cfg, st, [v], 0, found) by {
      assert [found][0] == found;
    }
  }

  lemma CleanMeansWellFormed(labels: seq<Label>, limits: Limits, structural: set<Reason>)
    requires forall r :: r in structural <==> Has(r, labels, limits)
    ensures structural == {} <==> WellFormedSeries(labels, limits)
  {
    NoReasonMeansWellFormed(labels, limits);
    hide WellFormedSeries;
    hide Has;
    if structural != {} {
      assert exists r :: r in structural;
    }
  }

  method InspectStructure(labels: seq<Label>, limits: Limits) returns (clean: bool, found: set<SeriesReason>)
    ensures clean <==> WellFormedSeries(labels, limits)
    ensures forall r :: Structural(r) in found <==> Has(r, labels, limits)
    ensures CrossPathCollision !in found && WriterMissing !in found
  {
    hide Has;
    hide WellFormedSeries;
    var reasons := ValidateSeries(labels, limits);
    clean := reasons == {};
    CleanMeansWellFormed(labels, limits, reasons);
    found := set r | r in reasons :: Structural(r);
  }

  lemma NoSamples(cfg: Config, st: SampleStore)
    requires st.WellFormed()
    ensures SamplesDone(cfg, st, []) == st && !AnySampleProblem(cfg, st, []) && SampleFindings(cfg, st, [], [])
  {
  }

  lemma NoVisits(cfg: Config, st: PathStore)
    requires st.WellFormed()
    ensures VisitsDone(cfg, st, []) == st && !AnyCollision(cfg, st, []) && SeriesFindings(cfg, st, [], [])
  {
  }

  lemma SingleSample(cfg: Config, st: SampleStore, a: Arrival)
    requires st.WellFormed()
    ensures var (st', answer) := R.Step(st, a.Call(cfg));
            && SamplesDone(cfg, st, [a]) == st'
            && (AnySampleProblem(cfg, st, [a]) <==>
                  || cfg.IsStale(a.timestamp, a.nowMs) || cfg.IsFuture(a.timestamp, a.nowMs)
                  || ConflictFrom(answer, a.bits).Found?)
            && SampleReasons(cfg, st, [a], 0) ==
                 FreshnessReasons(cfg, a.timestamp, a.nowMs) + ConflictReasons(ConflictFrom(answer, a.bits))
  {
    hide R.Step;
    hide R.Store.WellFormed;
    assert SampleCalls(cfg, [a]) == [a.Call(cfg)];
    hide Arrival.Call;
    assert R.StateAt(st, [a.Call(cfg)], 0) == st;
    assert SampleProblem(cfg, st, [a], 0) <==> AnySampleProblem(cfg, st, [a]);
  }

  lemma SingleVisit(cfg: Config, st: PathStore, v: Visit)
    requires st.WellFormed()
    ensures var (st', answer) := R.Step(st, v.Call(cfg));
            && VisitsDone(cfg, st, [v]) == st'
            && (AnyCollision(cfg, st, [v]) <==> answer.Hit? && answer.value != v.Path())
            && (CollisionAt(cfg, st, [v], 0) <==> answer.Hit? && answer.value != v.Path())
  {
    hide R.Step;
    hide R.Store.WellFormed;
    assert PathCalls(cfg, [v]) == [v.Call(cfg)];
    hide Visit.Call;
    assert R.StateAt(st, [v.Call(cfg)], 0) == st;
    assert CollisionAt(cfg, st, [v], 0) <==> AnyCollision(cfg, st, [v]);
  }
}
