/** Which series and paths the load generator's numbered requests carry. */
module LoadGen {
  import opened Prelude

  datatype Config = Config(
    seriesPerRequest: int, activeSeries: int, tenantCount: int, sinkCount: int, pathCount: int, writerCount: int)
  {
    predicate Valid() {
      && 0 < seriesPerRequest && 0 < activeSeries && activeSeries + seriesPerRequest <= MAX_INT
      && 0 < tenantCount && 0 < sinkCount && 0 < pathCount && 0 < writerCount
    }

    /** Requests needed to emit every series once. */
    function CycleLen(): int
      requires Valid()
    {
      (activeSeries + seriesPerRequest - 1) / seriesPerRequest
    }

    /** How many series a cycle emits beyond the active ones. */
    function Slack(): int
      requires Valid()
    {
      CycleLen() * seriesPerRequest - activeSeries
    }
  }

  /** The product is taken in 64 bits. */
  function StartSeries(cfg: Config, number: nat): int
    requires cfg.Valid()
  {
    number * cfg.seriesPerRequest % WORD % cfg.activeSeries
  }

  function SeriesAt(cfg: Config, number: nat, idx: int): int
    requires cfg.Valid()
  {
    (StartSeries(cfg, number) + idx) % cfg.activeSeries
  }

  function CycleOf(cfg: Config, number: nat): int
    requires cfg.Valid()
  {
    CycleLenIsPositive(cfg);
    number / cfg.CycleLen()
  }

  function PathIndex(cfg: Config, number: nat): int
    requires cfg.Valid()
  {
    CycleOf(cfg, number) % cfg.pathCount
  }

  datatype Identity = Identity(tenant: int, sink: int, path: int, writer: int)

  /** Fills the request's series one after the other. */
  method GenerateRequest(cfg: Config, number: u64) returns (series: array<int>, identity: Identity)
    requires cfg.Valid()
    ensures fresh(series) && series.Length == cfg.seriesPerRequest
    ensures forall i :: 0 <= i < series.Length ==> series[i] == SeriesAt(cfg, number, i)
    ensures identity == Identity(number % cfg.tenantCount, number % cfg.sinkCount,
                                 PathIndex(cfg, number), number % cfg.writerCount)
  {
    series := new int[cfg.seriesPerRequest];
    var startSeries := number * cfg.seriesPerRequest % WORD % cfg.activeSeries;
    for idx := 0 to series.Length
      invariant forall i :: 0 <= i < idx ==> series[i] == SeriesAt(cfg, number, i)
    {
      series[idx] := (startSeries + idx) % cfg.activeSeries;
    }
    CycleLenIsPositive(cfg);
    var cycleLen := (cfg.activeSeries + cfg.seriesPerRequest - 1) / cfg.seriesPerRequest;
    var pathIndex := number / cycleLen % cfg.pathCount;
    identity := Identity(number % cfg.tenantCount, number % cfg.sinkCount, pathIndex, number % cfg.writerCount);
  }

  // Division

  lemma DivisionIsUnique(x: int, m: int, q: int, r: int)
    requires 0 < m && x == m * q + r && 0 <= r < m
    ensures x / m == q && x % m == r
  {
    var d := q - x / m;
    assert m * d == x % m - r && m * -d == r - x % m;
    if d >= 1 {
      MulAtLeast(m, d);
    } else if d <= -1 {
      MulAtLeast(m, -d);
    }
  }

  lemma MulAtLeast(m: int, d: int)
    requires 0 < m && 1 <= d
    ensures m * d >= m
  {
  }

  lemma ModOfSum(a: int, b: int, m: int)
    requires 0 < m
    ensures (a % m + b) % m == (a + b) % m
  {
    var q, r := a / m, a % m;
    var q2, r2 := (r + b) / m, (r + b) % m;
    assert a + b == m * q + m * q2 + r2;
    assert m * q + m * q2 == m * (q + q2);
    DivisionIsUnique(a + b, m, q + q2, r2);
  }

  /** Among m consecutive numbers one has any given remainder. */
  lemma NextWithRemainder(from: nat, m: int, r: int) returns (x: nat)
    requires 0 <= r < m
    ensures from <= x < from + m && x % m == r
  {
    x := from + (r - from) % m;
    ModOfSum(r - from, from, m);
    DivisionIsUnique(r, m, 0, r);
  }

  lemma CycleLenIsPositive(cfg: Config)
    requires cfg.Valid()
    ensures cfg.CycleLen() > 0
    ensures 0 <= cfg.Slack() < cfg.seriesPerRequest
    ensures cfg.CycleLen() * cfg.seriesPerRequest < WORD
  {
    var n, k := cfg.activeSeries + cfg.seriesPerRequest - 1, cfg.seriesPerRequest;
    var q := n / k;
    assert k * q == n - n % k > 0;
    assert k * q == q * k;
  }

  lemma QuotientWithin(x: nat, k: int, lo: int, hi: int)
    requires 0 < k && lo * k <= x < hi * k
    ensures lo <= x / k < hi && x == (x / k) * k + x % k
  {
    var q := x / k;
    assert x == k * q + x % k;
    assert k * q == q * k && (lo - 1) * k == lo * k - k;
    if q < lo {
      ProductWithin(q, lo - 1, k);
    }
    if q >= hi {
      ProductWithin(hi, q, k);
    }
  }

  lemma ProductWithin(a: int, b: int, k: int)
    requires a <= b && 0 <= k
    ensures a * k <= b * k
  {
  }

  /** Congruent numbers less than m apart are equal. */
  lemma CongruentAndNear(a: int, b: int, m: int)
    requires 0 < m && a % m == b % m && -m < a - b < m
    ensures a == b
  {
    var d := a / m - b / m;
    assert a - b == m * d;
    if d >= 1 {
      MulAtLeast(m, d);
    } else if d <= -1 {
      MulAtLeast(m, -d);
    }
  }

  /** Adding a multiple changes no remainder. */
  lemma ModOfMultiple(a: int, q: int, m: int)
    requires 0 < m
    ensures (a + m * q) % m == a % m
  {
    assert a + m * q == m * (a / m + q) + a % m by {
      assert m * (a / m + q) == m * (a / m) + m * q;
    }
    DivisionIsUnique(a + m * q, m, a / m + q, a % m);
  }

  // Which running numbers a request carries

  /** How often the product of a request has passed 2^64. */
  function Laps(cfg: Config, number: nat): nat
    requires cfg.Valid()
  {
    number * cfg.seriesPerRequest / WORD
  }

  /** Request `number` carries consecutive running numbers from its product on, set back by 2^64 per lap. */
  lemma SeriesIsRunningNumber(cfg: Config, number: nat, idx: int)
    requires cfg.Valid()
    ensures SeriesAt(cfg, number, idx) ==
              (number * cfg.seriesPerRequest - Laps(cfg, number) * WORD + idx) % cfg.activeSeries
  {
    var product := number * cfg.seriesPerRequest;
    assert product % WORD == product - product / WORD * WORD;
    ModOfSum(product % WORD, idx, cfg.activeSeries);
  }

  lemma LapsGrow(cfg: Config, a: nat, b: nat)
    requires cfg.Valid() && a <= b
    ensures Laps(cfg, a) <= Laps(cfg, b)
  {
    ProductWithin(a, b, cfg.seriesPerRequest);
    QuotientGrows(a * cfg.seriesPerRequest, b * cfg.seriesPerRequest, WORD);
  }

  lemma QuotientGrows(x: int, y: int, m: int)
    requires x <= y && 0 < m
    ensures x / m <= y / m
  {
    var d := x / m - y / m;
    assert x - y == m * d + x % m - y % m;
    if d >= 1 {
      MulAtLeast(m, d);
    }
  }

  /** Requests less than 2^64 series apart are at most one lap apart. */
  lemma LapsGrowSlowly(cfg: Config, a: nat, b: nat)
    requires cfg.Valid() && a <= b && b * cfg.seriesPerRequest < a * cfg.seriesPerRequest + WORD
    ensures Laps(cfg, b) <= Laps(cfg, a) + 1
  {
    var x := a * cfg.seriesPerRequest;
    QuotientGrows(b * cfg.seriesPerRequest, x + WORD, WORD);
    DivisionIsUnique(x + WORD, WORD, x / WORD + 1, x % WORD);
  }

  /** The first request of the next lap. */
  lemma {:induction false} FindCrossing(cfg: Config, lo: nat, hi: nat) returns (j: nat)
    requires cfg.Valid() && lo < hi && Laps(cfg, lo) != Laps(cfg, hi)
    ensures lo < j <= hi && Laps(cfg, j) == Laps(cfg, hi)
    ensures forall q :: lo <= q < j ==> Laps(cfg, q) < Laps(cfg, hi)
    ensures forall q :: j <= q <= hi ==> Laps(cfg, q) == Laps(cfg, hi)
    decreases hi - lo
  {
    hide Laps;
    forall q | lo <= q <= hi
      ensures Laps(cfg, lo) <= Laps(cfg, q) <= Laps(cfg, hi)
    {
      LapsGrow(cfg, lo, q);
      LapsGrow(cfg, q, hi);
    }
    var end := Laps(cfg, hi);
    if Laps(cfg, hi - 1) == end {
      j := FindCrossing(cfg, lo, hi - 1);
    } else {
      j := hi;
      forall q | lo <= q < j
        ensures Laps(cfg, q) < end
      {
        LapsGrow(cfg, q, hi - 1);
      }
    }
  }

  // Coverage

  /** Some request of the cycle from request `first` on carries the series. */
  ghost predicate InCycle(cfg: Config, first: nat, series: int)
    requires cfg.Valid()
  {
    exists number: nat, idx ::
      && first <= number < first + cfg.CycleLen() && 0 <= idx < cfg.seriesPerRequest
      && SeriesAt(cfg, number, idx) == series
  }

  ghost predicate CoversAll(cfg: Config, first: nat)
    requires cfg.Valid()
  {
    forall series :: 0 <= series < cfg.activeSeries ==> InCycle(cfg, first, series)
  }

  predicate SameLap(cfg: Config, first: nat)
    requires cfg.Valid()
  {
    CycleLenIsPositive(cfg);
    Laps(cfg, first) == Laps(cfg, first + cfg.CycleLen() - 1)
  }

  /** If the product does not pass 2^64 within it, a cycle emits every series. */
  lemma CycleCoversSeries(cfg: Config, first: nat, series: int) returns (number: nat, idx: int)
    requires cfg.Valid() && 0 <= series < cfg.activeSeries && SameLap(cfg, first)
    ensures first <= number < first + cfg.CycleLen() && 0 <= idx < cfg.seriesPerRequest
    ensures SeriesAt(cfg, number, idx) == series
  {
    hide Laps;
    CycleLenIsPositive(cfg);
    var k, len := cfg.seriesPerRequest, cfg.CycleLen();
    var back := Laps(cfg, first) * WORD;
    var y := Offset(cfg, first * k - back, series);
    number, idx := Position(first, len, k, y);
    LapsGrow(cfg, first, number);
    LapsGrow(cfg, number, first + len - 1);
    SeriesIsRunningNumber(cfg, number, idx);
  }

  /** Every series is some steps, fewer than there are series, after a given running number. */
  lemma Offset(cfg: Config, from: int, series: int) returns (y: int)
    requires cfg.Valid() && 0 <= series < cfg.activeSeries
    ensures 0 <= y < cfg.activeSeries && (from + y) % cfg.activeSeries == series
  {
    var m := cfg.activeSeries;
    y := (series - from) % m;
    ModOfSum(series - from, from, m);
    DivisionIsUnique(series, m, 0, series);
  }

  /** The i-th series of a stretch of requests. */
  lemma Position(first: nat, len: int, k: int, i: int) returns (number: nat, idx: int)
    requires 0 < k && 0 <= i < len * k
    ensures first <= number < first + len && 0 <= idx < k
    ensures number * k + idx == first * k + i
    ensures number == first + i / k
  {
    QuotientWithin(i, k, 0, len);
    number, idx := first + i / k, i % k;
    assert (first + i / k) * k == first * k + i / k * k;
  }

  lemma PositionOf(first: nat, number: nat, k: int, idx: int, len: int) returns (i: int)
    requires 0 < k && first <= number < first + len && 0 <= idx < k
    ensures 0 <= i < len * k && number * k + idx == first * k + i && i == (number - first) * k + idx
  {
    i := (number - first) * k + idx;
    ProductWithin(number - first, len - 1, k);
    ProductWithin(0, number - first, k);
    assert (len - 1) * k == len * k - k;
    assert number * k == first * k + (number - first) * k;
  }

  /** Where the lap ends within a cycle, and what the running numbers are on either side. */
  lemma Crossing(cfg: Config, first: nat) returns (j: nat)
    requires cfg.Valid() && !SameLap(cfg, first)
    ensures 1 <= j < cfg.CycleLen()
    ensures forall q :: first <= q < first + j ==> Laps(cfg, q) == Laps(cfg, first)
    ensures forall q :: first + j <= q < first + cfg.CycleLen() ==> Laps(cfg, q) == Laps(cfg, first) + 1
  {
    CycleLenIsPositive(cfg);
    var len, k := cfg.CycleLen(), cfg.seriesPerRequest;
    var last := first + len - 1;
    LapsGrow(cfg, first, last);
    assert last * k == first * k + (len - 1) * k;
    ProductWithin(len - 1, len, k);
    LapsGrowSlowly(cfg, first, last);
    var at := FindCrossing(cfg, first, last);
    hide Laps;
    forall q | first <= q < at
      ensures Laps(cfg, q) == Laps(cfg, first)
    {
      LapsGrow(cfg, first, q);
    }
    j := at - first;
  }

  /** Across 2^64 the running numbers fall back by this much, up to whole rounds of the series. */
  function SetBack(cfg: Config): int
    requires cfg.Valid()
  {
    WORD % cfg.activeSeries
  }

  lemma SetBackIsLap(cfg: Config, x: int)
    requires cfg.Valid()
    ensures (x - WORD) % cfg.activeSeries == (x - SetBack(cfg)) % cfg.activeSeries
  {
    var q := WORD / cfg.activeSeries;
    assert WORD == cfg.activeSeries * q + SetBack(cfg);
    ModOfMultiple(x - WORD, q, cfg.activeSeries);
  }

  /** What request `number` of a cycle with a crossing carries, relative to the first running number. */
  lemma SeriesInCycle(cfg: Config, first: nat, j: nat, number: nat, idx: int, i: int)
    requires cfg.Valid() && first <= number && number * cfg.seriesPerRequest + idx == first * cfg.seriesPerRequest + i
    requires Laps(cfg, number) == Laps(cfg, first) + if number < first + j then 0 else 1
    ensures var start := first * cfg.seriesPerRequest - Laps(cfg, first) * WORD;
            SeriesAt(cfg, number, idx) ==
              (start + i - if number < first + j then 0 else SetBack(cfg)) % cfg.activeSeries
  {
    SeriesIsRunningNumber(cfg, number, idx);
    var start := first * cfg.seriesPerRequest - Laps(cfg, first) * WORD;
    SetBackIsLap(cfg, start + i);
    assert (Laps(cfg, first) + 1) * WORD == Laps(cfg, first) * WORD + WORD;
  }

  lemma CrossingCovers(cfg: Config, first: nat, series: int) returns (number: nat, idx: int)
    requires cfg.Valid() && !SameLap(cfg, first) && SetBack(cfg) <= cfg.Slack() && 0 <= series < cfg.activeSeries
    ensures first <= number < first + cfg.CycleLen() && 0 <= idx < cfg.seriesPerRequest
    ensures SeriesAt(cfg, number, idx) == series
  {
    hide Laps;
    hide SeriesAt;
    CycleLenIsPositive(cfg);
    var j := Crossing(cfg, first);
    hide SameLap;
    var k, len := cfg.seriesPerRequest, cfg.CycleLen();
    var y := Offset(cfg, first * k - Laps(cfg, first) * WORD, series);
    var i := if y < j * k then y else y + SetBack(cfg);
    number, idx := Position(first, len, k, i);
    if y < j * k {
      QuotientWithin(i, k, 0, j);
    } else {
      QuotientWithin(i, k, j, len);
    }
    SeriesInCycle(cfg, first, j, number, idx, i);
  }

  /** A series that a cycle misses if the fall-back is larger than the slack. */
  lemma CrossingMisses(cfg: Config, first: nat) returns (series: int)
    requires cfg.Valid() && !SameLap(cfg, first) && SetBack(cfg) > cfg.Slack()
    ensures 0 <= series < cfg.activeSeries
    ensures !InCycle(cfg, first, series)
  {
    hide Laps;
    CycleLenIsPositive(cfg);
    var j := Crossing(cfg, first);
    hide SameLap;
    var k, len, active, back := cfg.seriesPerRequest, cfg.CycleLen(), cfg.activeSeries, SetBack(cfg);
    hide SetBack;
    var m, start := j * k, first * k - Laps(cfg, first) * WORD;
    ProductWithin(1, j, k);
    ProductWithin(j, len - 1, k);
    assert (len - 1) * k == len * k - k;
    var y := if m <= len * k - back then len * k - back else m;
    series := (start + y) % active;
    forall number: nat, idx | first <= number < first + len && 0 <= idx < k
      ensures SeriesAt(cfg, number, idx) != series
    {
      var i := PositionOf(first, number, k, idx, len);
      BeforeOrAfter(number - first, j, k, idx);
      SeriesInCycle(cfg, first, j, number, idx, i);
      hide SeriesAt;
      MissedOffset(active, len * k, m, back, k, i, y, number < first + j, start);
    }
  }

  lemma BeforeOrAfter(n: nat, j: nat, k: int, idx: int)
    requires 0 <= idx < k
    ensures n < j ==> n * k + idx < j * k
    ensures n >= j ==> n * k + idx >= j * k
  {
    if n < j {
      ProductWithin(n + 1, j, k);
      assert (n + 1) * k == n * k + k;
    } else {
      ProductWithin(j, n, k);
    }
  }

  /** The stretches [0, m) and [m - back, size - back) leave out y, modulo `active`. */
  lemma MissedOffset(active: int, size: int, m: int, back: int, k: int, i: int, y: int, before: bool, start: int)
    requires 0 < k <= m <= size - k && 0 <= size - active < k && size - active < back < active
    requires y == if m <= size - back then size - back else m
    requires if before then 0 <= i < m else m <= i < size
    ensures (start + i - if before then 0 else back) % active != (start + y) % active
  {
    var a, b := start + i - (if before then 0 else back), start + y;
    if a % active == b % active {
      CongruentAndNear(a, b, active);
    }
  }

  /**
   * A cycle emits every series exactly if the product does not pass 2^64 within it, or if the
   * fall-back this causes is made up by the series a cycle emits twice.
   */
  lemma CycleCoversIff(cfg: Config, first: nat)
    requires cfg.Valid()
    ensures CoversAll(cfg, first) <==> SameLap(cfg, first) || SetBack(cfg) <= cfg.Slack()
  {
    hide SameLap;
    hide SetBack;
    hide SeriesAt;
    CycleLenIsPositive(cfg);
    if SameLap(cfg, first) || SetBack(cfg) <= cfg.Slack() {
      forall series | 0 <= series < cfg.activeSeries
        ensures InCycle(cfg, first, series)
      {
        var number, idx;
        if SameLap(cfg, first) {
          number, idx := CycleCoversSeries(cfg, first, series);
        } else {
          number, idx := CrossingCovers(cfg, first, series);
        }
      }
    } else {
      var series := CrossingMisses(cfg, first);
    }
  }

  /** The first request of a block of CycleLen requests. */
  function BlockStart(cfg: Config, block: nat): nat
    requires cfg.Valid()
  {
    CycleLenIsPositive(cfg);
    ProductWithin(0, block, cfg.CycleLen());
    block * cfg.CycleLen()
  }

  /** pathCount consecutive cycles from a multiple of the cycle length on emit every series on every path. */
  ghost predicate CoversPairs(cfg: Config, firstBlock: nat)
    requires cfg.Valid()
  {
    forall series, path :: 0 <= series < cfg.activeSeries && 0 <= path < cfg.pathCount ==>
      PairIsEmitted(cfg, firstBlock, series, path)
  }

  ghost predicate PairIsEmitted(cfg: Config, firstBlock: nat, series: int, path: int)
    requires cfg.Valid()
  {
    exists number: nat, idx ::
      && BlockStart(cfg, firstBlock) <= number < BlockStart(cfg, firstBlock + cfg.pathCount)
      && 0 <= idx < cfg.seriesPerRequest
      && SeriesAt(cfg, number, idx) == series && PathIndex(cfg, number) == path
  }

  /** The pairs are covered exactly when each of the cycles covers all series. */
  lemma BlocksCoverPairs(cfg: Config, firstBlock: nat)
    requires cfg.Valid()
    ensures CoversPairs(cfg, firstBlock) <==>
              forall block: nat :: firstBlock <= block < firstBlock + cfg.pathCount ==>
                CoversAll(cfg, BlockStart(cfg, block))
  {
    hide CoversPairs;
    hide CoversAll;
    if CoversPairs(cfg, firstBlock) {
      forall block: nat | firstBlock <= block < firstBlock + cfg.pathCount
        ensures CoversAll(cfg, BlockStart(cfg, block))
      {
        PairsNeedBlock(cfg, firstBlock, block);
      }
    }
    if forall block: nat :: firstBlock <= block < firstBlock + cfg.pathCount ==>
         CoversAll(cfg, BlockStart(cfg, block)) {
      BlocksGivePairs(cfg, firstBlock);
    }
  }

  lemma BlocksGivePairs(cfg: Config, firstBlock: nat)
    requires cfg.Valid()
    requires forall block: nat :: firstBlock <= block < firstBlock + cfg.pathCount ==>
               CoversAll(cfg, BlockStart(cfg, block))
    ensures CoversPairs(cfg, firstBlock)
  {
    hide BlockStart;
    forall series, path | 0 <= series < cfg.activeSeries && 0 <= path < cfg.pathCount
      ensures PairIsEmitted(cfg, firstBlock, series, path)
    {
      var block: nat := NextWithRemainder(firstBlock, cfg.pathCount, path);
      assert InCycle(cfg, BlockStart(cfg, block), series);
      PairInBlock(cfg, firstBlock, block, series);
    }
  }

  lemma PairInBlock(cfg: Config, firstBlock: nat, block: nat, series: int)
    requires cfg.Valid() && firstBlock <= block < firstBlock + cfg.pathCount
    requires InCycle(cfg, BlockStart(cfg, block), series)
    ensures PairIsEmitted(cfg, firstBlock, series, block % cfg.pathCount)
  {
    hide Config.CycleLen;
    hide SeriesAt;
    hide BlockStart;
    BlockWithin(cfg, firstBlock, block);
    var number: nat, idx :| BlockStart(cfg, block) <= number < BlockStart(cfg, block) + cfg.CycleLen()
                            && 0 <= idx < cfg.seriesPerRequest && SeriesAt(cfg, number, idx) == series;
    BlockOf(cfg, block, number);
  }

  lemma BlockWithin(cfg: Config, firstBlock: nat, block: nat)
    requires cfg.Valid() && firstBlock <= block < firstBlock + cfg.pathCount
    ensures BlockStart(cfg, firstBlock) <= BlockStart(cfg, block)
    ensures BlockStart(cfg, block) + cfg.CycleLen() <= BlockStart(cfg, firstBlock + cfg.pathCount)
  {
    hide Config.CycleLen;
    var len := cfg.CycleLen();
    CycleLenIsPositive(cfg);
    ProductWithin(firstBlock, block, len);
    ProductWithin(block + 1, firstBlock + cfg.pathCount, len);
    assert (block + 1) * len == block * len + len;
  }

  lemma BlockOf(cfg: Config, block: nat, number: nat)
    requires cfg.Valid()
    ensures BlockStart(cfg, block) <= number < BlockStart(cfg, block) + cfg.CycleLen() <==> CycleOf(cfg, number) == block
  {
    hide Config.CycleLen;
    var len := cfg.CycleLen();
    CycleLenIsPositive(cfg);
    assert number == len * (number / len) + number % len;
    assert len * (number / len) == number / len * len;
    if block * len <= number < block * len + len {
      DivisionIsUnique(number, len, block, number - block * len);
    }
  }

  /** The requests of the c-th cycle all go to path c modulo the number of paths. */
  lemma PathOfCycle(cfg: Config, c: nat, number: nat)
    requires cfg.Valid() && BlockStart(cfg, c) <= number < BlockStart(cfg, c + 1)
    ensures PathIndex(cfg, number) == c % cfg.pathCount
  {
    CycleWithin(cfg, number, c, c + 1);
    hide CycleOf;
  }

  lemma PairsNeedBlock(cfg: Config, firstBlock: nat, block: nat)
    requires cfg.Valid() && CoversPairs(cfg, firstBlock) && firstBlock <= block < firstBlock + cfg.pathCount
    ensures CoversAll(cfg, BlockStart(cfg, block))
  {
    hide BlockStart;
    forall series | 0 <= series < cfg.activeSeries
      ensures InCycle(cfg, BlockStart(cfg, block), series)
    {
      assert PairIsEmitted(cfg, firstBlock, series, block % cfg.pathCount);
      BlockOfPair(cfg, firstBlock, block, series);
    }
  }

  lemma BlockOfPair(cfg: Config, firstBlock: nat, block: nat, series: int)
    requires cfg.Valid() && firstBlock <= block < firstBlock + cfg.pathCount
    requires PairIsEmitted(cfg, firstBlock, series, block % cfg.pathCount)
    ensures InCycle(cfg, BlockStart(cfg, block), series)
  {
    hide Config.CycleLen;
    hide SeriesAt;
    hide BlockStart;
    hide CycleOf;
    var number: nat, idx :|
      && BlockStart(cfg, firstBlock) <= number < BlockStart(cfg, firstBlock + cfg.pathCount)
      && 0 <= idx < cfg.seriesPerRequest
      && SeriesAt(cfg, number, idx) == series && PathIndex(cfg, number) == block % cfg.pathCount;
    CycleWithin(cfg, number, firstBlock, firstBlock + cfg.pathCount);
    CongruentAndNear(CycleOf(cfg, number), block, cfg.pathCount);
    BlockOf(cfg, block, number);
  }

  lemma CycleWithin(cfg: Config, number: nat, lo: nat, hi: nat)
    requires cfg.Valid() && BlockStart(cfg, lo) <= number < BlockStart(cfg, hi)
    ensures lo <= CycleOf(cfg, number) < hi
  {
    hide Config.CycleLen;
    CycleLenIsPositive(cfg);
    QuotientWithin(number, cfg.CycleLen(), lo, hi);
  }

  /** Cycles that miss a series exist: six series, two a request, and a cycle around request 2^63. */
  lemma WrapMissesSeries()
    ensures var cfg := Config(2, 6, 1, 1, 1, 1);
            cfg.Valid() && !CoversAll(cfg, WORD / 2 - 1)
  {
    var cfg := Config(2, 6, 1, 1, 1, 1);
    assert cfg.CycleLen() == 3;
    CycleCoversIff(cfg, WORD / 2 - 1);
  }
}
