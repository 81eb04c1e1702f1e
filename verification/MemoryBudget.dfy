/** How a memory budget becomes a number of cache entries, and that the caches built from it fit. */
module MemoryBudget {
  import opened Prelude
  import M = CacheModel
  import R = ShardedRuns
  import StateCache

  const ESTIMATED_BYTES_PER_ENTRY: nat := 160

  /** The part of the configuration that decides which stateful caches exist and how big they are. */
  datatype Config = Config(
    cacheMemoryBytes: int,
    identityNames: seq<string>,
    disableDuplicateSampleDetection: bool,
    disableCrossPathCollisionDetection: bool)
  {
    predicate HasSampleCache() {
      !disableDuplicateSampleDetection
    }

    predicate HasPathCache() {
      !disableCrossPathCollisionDetection && "input_path" in identityNames
    }

    function ActiveStatefulDetectors(): nat {
      (if HasSampleCache() then 1 else 0) + (if HasPathCache() then 1 else 0)
    }
  }

  /** Which detectors keep state: duplicates unless switched off, paths unless switched off or without the field. */
  lemma ActiveDetectorsMean(cfg: Config)
    ensures cfg.ActiveStatefulDetectors() ==
              if cfg.disableDuplicateSampleDetection then
                if cfg.disableCrossPathCollisionDetection || "input_path" !in cfg.identityNames then 0 else 1
              else
                if cfg.disableCrossPathCollisionDetection || "input_path" !in cfg.identityNames then 1 else 2
    ensures cfg.HasSampleCache() <==> !cfg.disableDuplicateSampleDetection
  {
  }

  function CacheSizeFromMemoryBudget(bytes: int, activeCaches: int): (size: nat)
    requires 0 < bytes <= MAX_INT
    ensures activeCaches <= 0 ==> size == 0
    ensures 0 < activeCaches ==> 1 <= size <= MAX_INT
    ensures 0 < activeCaches && activeCaches * ESTIMATED_BYTES_PER_ENTRY <= bytes ==>
              var cost := activeCaches * ESTIMATED_BYTES_PER_ENTRY;
              size * cost <= bytes < size * cost + cost
    ensures 0 < activeCaches && bytes < activeCaches * ESTIMATED_BYTES_PER_ENTRY ==> size == 1
  {
    if activeCaches <= 0 then 0
    else
      var entries := bytes / (activeCaches * ESTIMATED_BYTES_PER_ENTRY);
      if entries < 1 then 1 else if entries > MAX_INT then MAX_INT else entries
  }

  /** All slots of all caches that are built for a configuration and a cache size. */
  function TotalSlots(cfg: Config, cacheSize: nat, ttl: int, sampleHash: int -> u64, pathHash: int -> u64): int {
    var size := if cacheSize <= 0 then 1 else cacheSize;
    (if cfg.HasSampleCache() then R.Store(StateCache.FreshShards<int, int>(size, ttl), sampleHash).Capacity() else 0) +
    (if cfg.HasPathCache() then R.Store(StateCache.FreshShards<int, int>(size, ttl), pathHash).Capacity() else 0)
  }

  /**
   * The estimated size of all slots stays within the budget exactly when the budget pays for at
   * least one entry in each active cache, and then one more entry in each would exceed it.
   */
  lemma CachesFitBudget(cfg: Config, ttl: int, sampleHash: int -> u64, pathHash: int -> u64)
    requires 0 < cfg.cacheMemoryBytes <= MAX_INT
    ensures var active := cfg.ActiveStatefulDetectors();
            var size := CacheSizeFromMemoryBudget(cfg.cacheMemoryBytes, active);
            var slots := TotalSlots(cfg, size, ttl, sampleHash, pathHash);
            && slots == active * size
            && (slots * 160 <= cfg.cacheMemoryBytes <==> active * 160 <= cfg.cacheMemoryBytes)
            && (slots * ESTIMATED_BYTES_PER_ENTRY <= cfg.cacheMemoryBytes <==>
                  active * ESTIMATED_BYTES_PER_ENTRY <= cfg.cacheMemoryBytes)
            && (0 < active && active * ESTIMATED_BYTES_PER_ENTRY <= cfg.cacheMemoryBytes ==>
                  cfg.cacheMemoryBytes < (slots + active) * ESTIMATED_BYTES_PER_ENTRY)
  {
    hide M.Cache.WellFormed;
    var active := cfg.ActiveStatefulDetectors();
    var size := CacheSizeFromMemoryBudget(cfg.cacheMemoryBytes, active);
    if 0 < active {
      StateCache.ShardSizesAddUp<int, int>(size, ttl, sampleHash);
      StateCache.ShardSizesAddUp<int, int>(size, ttl, pathHash);
    }
  }
}
