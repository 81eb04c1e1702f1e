/**
 * The load generator's latency histogram and the percentiles read off it. Latencies and bounds
 * are in nanoseconds. A percentile is compared with the nearest-rank value of the sorted list
 * of all latencies, which the histogram does not keep.
 */
module Histogram {
  import opened Prelude
  import Sorting

  const BOUNDS: seq<int> := [
    100 * MICROSECOND, 250 * MICROSECOND, 500 * MICROSECOND,
    MILLISECOND, 2 * MILLISECOND, 5 * MILLISECOND, 10 * MILLISECOND, 25 * MILLISECOND, 50 * MILLISECOND,
    100 * MILLISECOND, 250 * MILLISECOND, 500 * MILLISECOND,
    SECOND, 2 * SECOND, 5 * SECOND, 10 * SECOND]

  ghost predicate Increasing(bounds: seq<int>) {
    forall i, j :: 0 <= i < j < |bounds| ==> bounds[i] < bounds[j]
  }

  lemma BoundsIncrease()
    ensures Increasing(BOUNDS) && |BOUNDS| == 16
  {
  }

  /** The first bucket whose bound is not exceeded; one bucket lies beyond all bounds. */
  function BucketOf(bounds: seq<int>, latency: int): (b: nat)
    ensures b <= |bounds|
    ensures b < |bounds| ==> latency <= bounds[b]
    ensures forall i :: 0 <= i < b ==> bounds[i] < latency
  {
    if bounds == [] then 0
    else if latency <= bounds[0] then 0
    else 1 + BucketOf(bounds[1..], latency)
  }

  lemma BucketIsAtMost(bounds: seq<int>, latency: int, i: nat)
    requires Increasing(bounds) && i < |bounds|
    ensures BucketOf(bounds, latency) <= i <==> latency <= bounds[i]
  {
    hide BucketOf;
  }

  lemma BucketIsMonotone(bounds: seq<int>, a: int, b: int)
    requires a <= b
    ensures BucketOf(bounds, a) <= BucketOf(bounds, b)
  {
    hide BucketOf;
    var i, j := BucketOf(bounds, a), BucketOf(bounds, b);
    assert forall k :: 0 <= k < i ==> bounds[k] < a;
  }

  lemma BucketIsUnique(bounds: seq<int>, latency: int, idx: nat)
    requires idx <= |bounds| && (idx < |bounds| ==> latency <= bounds[idx])
    requires forall i :: 0 <= i < idx ==> bounds[i] < latency
    ensures idx == BucketOf(bounds, latency)
  {
    hide BucketOf;
    var b := BucketOf(bounds, latency);
    assert forall k :: 0 <= k < b ==> bounds[k] < latency;
  }

  // Counting

  function CountWhere<T>(s: seq<T>, p: T -> bool): nat {
    if s == [] then 0 else CountWhere(s[..|s| - 1], p) + if p(s[|s| - 1]) then 1 else 0
  }

  lemma {:induction false} CountConcat<T>(a: seq<T>, b: seq<T>, p: T -> bool)
    ensures CountWhere(a + b, p) == CountWhere(a, p) + CountWhere(b, p)
  {
    if b == [] {
      assert a + b == a;
    } else {
      CountConcat(a, b[..|b| - 1], p);
      assert (a + b)[..|a + b| - 1] == a + b[..|b| - 1];
    }
  }

  /** The list with its i-th element taken out. */
  function Without<T>(t: seq<T>, i: nat): (r: seq<T>)
    requires i < |t|
    ensures |r| == |t| - 1
  {
    t[..i] + t[i + 1..]
  }

  lemma CountWithoutOne<T>(t: seq<T>, i: nat, p: T -> bool)
    requires i < |t|
    ensures CountWhere(t, p) == CountWhere(Without(t, i), p) + if p(t[i]) then 1 else 0
  {
    hide CountWhere;
    SplitAt(t, i);
    CountMiddle(t[..i], t[i], t[i + 1..], p);
  }

  lemma SplitAt<T>(t: seq<T>, i: nat)
    requires i < |t|
    ensures t == t[..i] + [t[i]] + t[i + 1..]
  {
  }

  lemma CountMiddle<T>(a: seq<T>, x: T, b: seq<T>, p: T -> bool)
    ensures CountWhere(a + [x] + b, p) == CountWhere(a + b, p) + if p(x) then 1 else 0
  {
    hide CountWhere;
    CountAppend(a, x, p);
    CountConcat(a + [x], b, p);
    CountConcat(a, b, p);
  }

  lemma CountAppend<T>(s: seq<T>, x: T, p: T -> bool)
    ensures CountWhere(s + [x], p) == CountWhere(s, p) + if p(x) then 1 else 0
  {
    assert (s + [x])[..|s|] == s;
  }

  lemma WithoutOne<T>(t: seq<T>, i: nat)
    requires i < |t|
    ensures multiset(Without(t, i)) == multiset(t) - multiset{t[i]}
  {
    assert t == t[..i] + [t[i]] + t[i + 1..];
  }

  lemma {:induction false} CountPermutation<T>(s: seq<T>, t: seq<T>, p: T -> bool)
    requires multiset(s) == multiset(t)
    ensures CountWhere(s, p) == CountWhere(t, p)
    decreases |s|
  {
    hide Without;
    if s == [] {
      assert |multiset(t)| == 0;
      assert t == [];
    } else {
      hide CountWhere;
      assert s[0] in multiset(t);
      var i :| 0 <= i < |t| && t[i] == s[0];
      WithoutOne(s, 0);
      WithoutOne(t, i);
      CountWithoutOne(s, 0, p);
      CountWithoutOne(t, i, p);
      CountPermutation(Without(s, 0), Without(t, i), p);
    }
  }

  lemma {:induction false} CountBounds<T>(s: seq<T>, p: T -> bool)
    ensures CountWhere(s, p) <= |s|
    ensures (forall i :: 0 <= i < |s| ==> p(s[i])) ==> CountWhere(s, p) == |s|
    ensures (forall i :: 0 <= i < |s| ==> !p(s[i])) ==> CountWhere(s, p) == 0
  {
    if s != [] {
      CountBounds(s[..|s| - 1], p);
    }
  }

  function InBucket(bounds: seq<int>, b: int): int -> bool {
    latency => BucketOf(bounds, latency) == b
  }

  function UpToBucket(bounds: seq<int>, b: int): int -> bool {
    latency => BucketOf(bounds, latency) <= b
  }

  function NotAbove(bound: int): int -> bool {
    latency => latency <= bound
  }

  function Total(counts: seq<int>): int {
    if counts == [] then 0 else Total(counts[..|counts| - 1]) + counts[|counts| - 1]
  }

  /** The count of all buckets up to b. */
  function Running(counts: seq<int>, b: nat): int
    requires b < |counts|
  {
    Total(counts[..b + 1])
  }

  /** counts is the histogram of the latencies. */
  ghost predicate Tallies(bounds: seq<int>, counts: seq<int>, latencies: seq<int>) {
    && |counts| == |bounds| + 1
    && forall b :: 0 <= b < |counts| ==> counts[b] == CountWhere(latencies, InBucket(bounds, b))
  }

  lemma {:induction false} SplitLastBucket(bounds: seq<int>, latencies: seq<int>, b: int)
    ensures CountWhere(latencies, UpToBucket(bounds, b)) ==
              CountWhere(latencies, UpToBucket(bounds, b - 1)) + CountWhere(latencies, InBucket(bounds, b))
  {
    hide BucketOf;
    if latencies != [] {
      SplitLastBucket(bounds, latencies[..|latencies| - 1], b);
    }
  }

  /** Adding up buckets counts the latencies below the last of them. */
  lemma {:induction false} RunningTotal(bounds: seq<int>, counts: seq<int>, latencies: seq<int>, n: nat)
    requires Tallies(bounds, counts, latencies) && n <= |counts|
    ensures Total(counts[..n]) == CountWhere(latencies, UpToBucket(bounds, n - 1))
  {
    hide BucketOf;
    if n == 0 {
      CountBounds(latencies, UpToBucket(bounds, -1));
    } else {
      RunningTotal(bounds, counts, latencies, n - 1);
      SplitLastBucket(bounds, latencies, n - 1);
      assert counts[..n][..n - 1] == counts[..n - 1];
    }
  }

  lemma CountsAddUp(bounds: seq<int>, counts: seq<int>, latencies: seq<int>)
    requires Tallies(bounds, counts, latencies)
    ensures Total(counts) == |latencies|
  {
    RunningTotal(bounds, counts, latencies, |counts|);
    assert counts[..|counts|] == counts;
    CountBounds(latencies, UpToBucket(bounds, |counts| - 1));
  }

  // Percentiles

  function Ceil(x: real): int {
    -((-x).Floor)
  }

  /** The rank asked for, at least the first. */
  function Target(total: int, percentile: real): int {
    var target := Ceil(total as real * percentile);
    if target <= 0 then 1 else target
  }

  datatype Label = NoLatency | AtMost(bucket: nat) | BeyondLastBound

  function LabelOf(bounds: seq<int>, bucket: nat): Label {
    if bucket >= |bounds| then BeyondLastBound else AtMost(bucket)
  }

  /** The bucket at which the running total first reaches the target. */
  ghost predicate FirstReaching(counts: seq<int>, target: int, bucket: nat) {
    && bucket < |counts|
    && Running(counts, bucket) >= target
    && forall b :: 0 <= b < bucket ==> Running(counts, b) < target
  }

  /** The rank is the least one, from the first on, that is no smaller than the share asked for. */
  lemma TargetIsLeastRank(total: int, percentile: real, rank: int)
    ensures 1 <= Target(total, percentile)
    ensures Target(total, percentile) as real >= total as real * percentile
    ensures 1 <= rank && rank as real >= total as real * percentile ==> Target(total, percentile) <= rank
  {
  }

  /** The bounds of the buckets in nanoseconds: 0.1 ms, 0.25 ms, and so on up to 10 s. */
  lemma BoundsAre()
    ensures BOUNDS == [
      100_000, 250_000, 500_000, 1_000_000, 2_000_000, 5_000_000, 10_000_000, 25_000_000, 50_000_000,
      100_000_000, 250_000_000, 500_000_000, 1_000_000_000, 2_000_000_000, 5_000_000_000, 10_000_000_000]
  {
  }

  /** The rank stays within the list exactly for percentiles up to 1. */
  lemma TargetWithinTotal(total: int, percentile: real)
    requires 0 < total && 0.0 < percentile
    ensures 1 <= Target(total, percentile)
    ensures Target(total, percentile) <= total <==> percentile <= 1.0
  {
    var x := total as real * percentile;
    if percentile <= 1.0 {
      assert x <= total as real;
    } else {
      assert x > total as real;
    }
  }

  predicate Shorter(a: int, b: int) {
    a < b
  }

  /** The nearest-rank value lies in the bucket at which the running total reaches its rank. */
  lemma RankedValueIsInBucket(bounds: seq<int>, counts: seq<int>, latencies: seq<int>, sorted: seq<int>, rank: nat, bucket: nat)
    requires Tallies(bounds, counts, latencies) && multiset(sorted) == multiset(latencies) && Sorting.Sorted(sorted, Shorter)
    requires 1 <= rank <= |sorted| && FirstReaching(counts, rank, bucket)
    ensures BucketOf(bounds, sorted[rank - 1]) == bucket
  {
    var b := BucketOf(bounds, sorted[rank - 1]);
    CountOfRank(bounds, counts, latencies, sorted, rank, b);
    if bucket < b {
      CountBelowRank(bounds, counts, latencies, sorted, rank, bucket);
    }
  }

  /** At least `rank` latencies lie no higher than the bucket of the value with that rank. */
  lemma CountOfRank(bounds: seq<int>, counts: seq<int>, latencies: seq<int>, sorted: seq<int>, rank: nat, b: nat)
    requires Tallies(bounds, counts, latencies) && multiset(sorted) == multiset(latencies) && Sorting.Sorted(sorted, Shorter)
    requires 1 <= rank <= |sorted| && BucketOf(bounds, sorted[rank - 1]) == b
    ensures b < |counts| && Running(counts, b) >= rank
  {
    hide BucketOf;
    hide CountWhere;
    hide Total;
    RunningTotal(bounds, counts, latencies, b + 1);
    var p := UpToBucket(bounds, b);
    CountPermutation(sorted, latencies, p);
    assert sorted == sorted[..rank] + sorted[rank..];
    CountConcat(sorted[..rank], sorted[rank..], p);
    forall i | 0 <= i < rank
      ensures p(sorted[..rank][i])
    {
      BucketIsMonotone(bounds, sorted[i], sorted[rank - 1]);
    }
    CountBounds(sorted[..rank], p);
  }

  /** Fewer than `rank` latencies lie in lower buckets. */
  lemma CountBelowRank(bounds: seq<int>, counts: seq<int>, latencies: seq<int>, sorted: seq<int>, rank: nat, b: nat)
    requires Tallies(bounds, counts, latencies) && multiset(sorted) == multiset(latencies) && Sorting.Sorted(sorted, Shorter)
    requires 1 <= rank <= |sorted| && b < BucketOf(bounds, sorted[rank - 1]) && b < |counts|
    ensures Running(counts, b) < rank
  {
    hide BucketOf;
    hide CountWhere;
    hide Total;
    hide Tallies;
    RunningTotal(bounds, counts, latencies, b + 1);
    var p := UpToBucket(bounds, b);
    CountPermutation(sorted, latencies, p);
    assert sorted == sorted[..rank - 1] + sorted[rank - 1..];
    CountConcat(sorted[..rank - 1], sorted[rank - 1..], p);
    var high := sorted[rank - 1..];
    forall i | 0 <= i < |high|
      ensures !p(high[i])
    {
      BucketIsMonotone(bounds, sorted[rank - 1], high[i]);
    }
    CountBounds(high, p);
    CountBounds(sorted[..rank - 1], p);
  }

  lemma {:induction false} LeastReaching(counts: seq<int>, target: int, b: nat) returns (bucket: nat)
    requires b < |counts| && Running(counts, b) >= target
    ensures FirstReaching(counts, target, bucket)
  {
    hide Running;
    if c :| 0 <= c < b && Running(counts, c) >= target {
      bucket := LeastReaching(counts, target, c);
    } else {
      bucket := b;
    }
  }

  /**
   * For a percentile in (0, 1] and at least one latency, the label read off the histogram names
   * the bucket of the nearest-rank value of the sorted latencies.
   */
  lemma PercentileAgreesWithSortedList(
    bounds: seq<int>, counts: seq<int>, latencies: seq<int>, sorted: seq<int>, percentile: real, shown: Label)
    requires Tallies(bounds, counts, latencies) && multiset(sorted) == multiset(latencies) && Sorting.Sorted(sorted, Shorter)
    requires latencies != [] && 0.0 < percentile <= 1.0
    requires IsPercentileLabel(bounds, counts, percentile, shown)
    ensures |sorted| == |latencies| && 1 <= Target(|latencies|, percentile) <= |latencies|
    ensures shown == LabelOf(bounds, BucketOf(bounds, sorted[Target(|latencies|, percentile) - 1]))
  {
    assert |multiset(sorted)| == |sorted| && |multiset(latencies)| == |latencies|;
    CountsAddUp(bounds, counts, latencies);
    TargetWithinTotal(|latencies|, percentile);
    var rank := Target(|latencies|, percentile);
    hide BucketOf;
    hide Target;
    CountOfRank(bounds, counts, latencies, sorted, rank, BucketOf(bounds, sorted[rank - 1]));
    var least := LeastReaching(counts, rank, BucketOf(bounds, sorted[rank - 1]));
    var bucket :| FirstReaching(counts, rank, bucket) && shown == LabelOf(bounds, bucket);
    RankedValueIsInBucket(bounds, counts, latencies, sorted, rank, bucket);
  }

  /**
   * The label said of the sorted latencies: a named bound is not exceeded by the nearest-rank value,
   * while all smaller bounds are; no bound is named exactly if the value exceeds them all.
   */
  lemma LabelBoundsRankedValue(
    bounds: seq<int>, counts: seq<int>, latencies: seq<int>, sorted: seq<int>, percentile: real, shown: Label)
    requires Tallies(bounds, counts, latencies) && multiset(sorted) == multiset(latencies)
    requires Sorting.Sorted(sorted, Shorter) && Increasing(bounds)
    requires latencies != [] && 0.0 < percentile <= 1.0
    requires IsPercentileLabel(bounds, counts, percentile, shown)
    ensures 1 <= Target(|latencies|, percentile) <= |sorted|
    ensures var value := sorted[Target(|latencies|, percentile) - 1];
            && (shown.AtMost? ==>
                  && shown.bucket < |bounds| && value <= bounds[shown.bucket]
                  && forall b :: 0 <= b < shown.bucket ==> bounds[b] < value)
            && (shown.BeyondLastBound? <==> forall b :: 0 <= b < |bounds| ==> bounds[b] < value)
            && shown != NoLatency
  {
    PercentileAgreesWithSortedList(bounds, counts, latencies, sorted, percentile, shown);
    hide Target;
    hide Tallies;
    hide IsPercentileLabel;
    var bucket := BucketOf(bounds, sorted[Target(|latencies|, percentile) - 1]);
    hide BucketOf;
  }

  /** The bound named is the least one with enough latencies at or below it. */
  lemma NamedBoundIsLeast(bounds: seq<int>, counts: seq<int>, latencies: seq<int>, target: int, bucket: nat)
    requires Increasing(bounds) && Tallies(bounds, counts, latencies) && FirstReaching(counts, target, bucket)
    ensures bucket < |bounds| ==> CountWhere(latencies, NotAbove(bounds[bucket])) >= target
    ensures forall b :: 0 <= b < bucket && b < |bounds| ==> CountWhere(latencies, NotAbove(bounds[b])) < target
  {
    forall b | 0 <= b < |bounds|
      ensures CountWhere(latencies, NotAbove(bounds[b])) == Running(counts, b)
    {
      RunningTotal(bounds, counts, latencies, b + 1);
      SameCount(bounds, latencies, b);
    }
  }

  lemma {:induction false} SameCount(bounds: seq<int>, latencies: seq<int>, b: nat)
    requires Increasing(bounds) && b < |bounds|
    ensures CountWhere(latencies, NotAbove(bounds[b])) == CountWhere(latencies, UpToBucket(bounds, b))
  {
    hide BucketOf;
    if latencies != [] {
      SameCount(bounds, latencies[..|latencies| - 1], b);
      BucketIsAtMost(bounds, latencies[|latencies| - 1], b);
    }
  }

  // The code

  /** What the label means: no latencies, or the bucket that reaches the target, or no such bucket. */
  ghost predicate IsPercentileLabel(bounds: seq<int>, counts: seq<int>, percentile: real, shown: Label) {
    var total := Total(counts);
    if total == 0 then shown == NoLatency
    else if exists b :: FirstReaching(counts, Target(total, percentile), b)
    then exists b :: FirstReaching(counts, Target(total, percentile), b) && shown == LabelOf(bounds, b)
    else shown == BeyondLastBound
  }

  method SumOf(counts: seq<int>) returns (total: int)
    ensures total == Total(counts)
  {
    total := 0;
    for i := 0 to |counts|
      invariant total == Total(counts[..i])
    {
      assert counts[..i + 1][..i] == counts[..i];
      total := total + counts[i];
    }
    assert counts[..|counts|] == counts;
  }

  /** fellThrough tells that the search for a bucket ended without one. */
  method PercentileLabel(counts: seq<int>, percentile: real) returns (shown: Label, ghost fellThrough: bool)
    requires forall i :: 0 <= i < |counts| ==> 0 <= counts[i]
    ensures IsPercentileLabel(BOUNDS, counts, percentile, shown)
    ensures Total(counts) > 0 && 0.0 < percentile ==> (fellThrough <==> percentile > 1.0)
  {
    hide BOUNDS;
    var total := SumOf(counts);
    TotalIsNatural(counts);
    if total == 0 {
      return NoLatency, false;
    }
    var target := Target(total, percentile);
    if 0.0 < percentile {
      TargetWithinTotal(total, percentile);
    }
    hide Target;
    var bucket := FindBucket(counts, target);
    hide FirstReaching;
    if bucket < |counts| {
      PartialTotal(counts, bucket + 1);
      return LabelOf(BOUNDS, bucket), false;
    }
    assert counts[..|counts|] == counts;
    return BeyondLastBound, true;
  }

  /** The accumulating loop; it ends past the last bucket if none reaches the target. */
  method FindBucket(counts: seq<int>, target: int) returns (bucket: nat)
    ensures bucket <= |counts|
    ensures bucket < |counts| ==> FirstReaching(counts, target, bucket) && Total(counts[..bucket + 1]) >= target
    ensures bucket == |counts| ==> forall b :: 0 <= b < |counts| ==> !FirstReaching(counts, target, b)
    ensures bucket == |counts| > 0 ==> Total(counts[..|counts|]) < target
  {
    var seen := 0;
    for idx := 0 to |counts|
      invariant seen == Total(counts[..idx])
      invariant forall b :: 0 <= b < idx ==> Running(counts, b) < target
    {
      assert counts[..idx + 1][..idx] == counts[..idx];
      seen := seen + counts[idx];
      if seen >= target {
        return idx;
      }
    }
    bucket := |counts|;
    assert |counts| > 0 ==> Running(counts, |counts| - 1) < target;
  }

  lemma {:induction false} TotalIsNatural(counts: seq<int>)
    requires forall i :: 0 <= i < |counts| ==> 0 <= counts[i]
    ensures 0 <= Total(counts)
  {
    if counts != [] {
      TotalIsNatural(counts[..|counts| - 1]);
    }
  }

  lemma {:induction false} PartialTotal(counts: seq<int>, n: nat)
    requires n <= |counts| && forall i :: 0 <= i < |counts| ==> 0 <= counts[i]
    ensures Total(counts[..n]) <= Total(counts)
    decreases |counts|
  {
    if n < |counts| {
      PartialTotal(counts[..|counts| - 1], n);
      assert counts[..|counts| - 1][..n] == counts[..n];
    } else {
      assert counts[..n] == counts;
    }
  }

  /** Binary search for the first index at which a monotone condition holds. */
  method Search(n: nat, holds: int -> bool) returns (idx: nat)
    requires forall i, j :: 0 <= i <= j < n && holds(i) ==> holds(j)
    ensures idx <= n && (idx < n ==> holds(idx)) && forall i :: 0 <= i < idx ==> !holds(i)
  {
    var lo, hi := 0, n;
    while lo < hi
      invariant 0 <= lo <= hi <= n
      invariant forall i :: 0 <= i < lo ==> !holds(i)
      invariant hi < n ==> holds(hi)
    {
      var mid := (lo + hi) / 2;
      if !holds(mid) {
        lo := mid + 1;
      } else {
        hi := mid;
      }
    }
    idx := lo;
  }

  class LatencyHistogram {
    const counts: array<int>
    ghost var observed: seq<int>

    ghost predicate Valid()
      reads this, counts
    {
      Tallies(BOUNDS, counts[..], observed)
    }

    constructor ()
      ensures Valid() && fresh(counts) && observed == []
    {
      counts := new int[17](_ => 0);
      observed := [];
    }

    /** One bucket goes up by one: the one the latency belongs to. */
    method Observe(latency: int)
      requires Valid()
      modifies this, counts
      ensures Valid() && observed == old(observed) + [latency]
    {
      BoundsIncrease();
      hide BucketOf;
      hide BOUNDS;
      var bounds := BOUNDS;
      var fits := i => 0 <= i < |bounds| && latency <= bounds[i];
      var idx := Search(|bounds|, fits);
      forall i | 0 <= i < idx
        ensures bounds[i] < latency
      {
        assert !fits(i);
      }
      BucketIsUnique(BOUNDS, latency, idx);
      counts[idx] := counts[idx] + 1;
      assert (observed + [latency])[..|observed|] == observed;
      observed := observed + [latency];
    }
  }
}
