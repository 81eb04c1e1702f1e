/**
 * Which findings are logged. In each window the first few distinct findings are logged for
 * certain; any other call may be logged by chance, which is an input here.
 */
module LogSampler {
  import opened Prelude

  /** lucky: the repeat rate is positive and the random draw falls within it. */
  datatype Call<K> = Call(now: int, key: K, lucky: bool)

  datatype Sampler<K(==)> = Sampler(window: int, firstLimit: int, windowStart: int, seen: set<K>)

  datatype Decision = FirstExample | ByChance | Silent

  function Fresh<K(==)>(window: int, firstLimit: int, now: int): Sampler<K> {
    Sampler(window, firstLimit, now, {})
  }

  predicate StartsWindow<K(==)>(s: Sampler<K>, now: int) {
    now - s.windowStart >= s.window
  }

  /** The sampler as the call finds it: emptied if its window has passed. */
  function Renewed<K(==)>(s: Sampler<K>, now: int): Sampler<K> {
    if StartsWindow(s, now) then s.(windowStart := now, seen := {}) else s
  }

  function Ask<K(==)>(s: Sampler<K>, key: K, lucky: bool): (Sampler<K>, Decision) {
    if key !in s.seen && |s.seen| < s.firstLimit then (s.(seen := s.seen + {key}), FirstExample)
    else (s, if lucky then ByChance else Silent)
  }

  function ShouldLog<K(==)>(s: Sampler<K>, call: Call<K>): (Sampler<K>, Decision) {
    Ask(Renewed(s, call.now), call.key, call.lucky)
  }

  function SamplerAt<K(==)>(s: Sampler<K>, calls: seq<Call<K>>, n: nat): Sampler<K>
    requires n <= |calls|
  {
    if n == 0 then s else ShouldLog(SamplerAt(s, calls, n - 1), calls[n - 1]).0
  }

  function DecisionAt<K(==)>(s: Sampler<K>, calls: seq<Call<K>>, i: nat): Decision
    requires i < |calls|
  {
    ShouldLog(SamplerAt(s, calls, i), calls[i]).1
  }

  // The specification: what a window has been asked, and what it owes

  /** When the window of the n-th call began, by the times of the calls before it alone. */
  function Beginning<K>(window: int, start: int, calls: seq<Call<K>>, n: nat): int
    requires n <= |calls|
  {
    if n == 0 then start
    else
      var before := Beginning(window, start, calls, n - 1);
      if calls[n - 1].now - before >= window then calls[n - 1].now else before
  }

  /** Call i comes when the window before it has passed. */
  predicate Opens<K>(window: int, start: int, calls: seq<Call<K>>, i: nat)
    requires i < |calls|
  {
    calls[i].now - Beginning(window, start, calls, i) >= window
  }

  /** The keys of the calls since the current window began, the n-th call not included. */
  function WindowKeys<K>(window: int, start: int, calls: seq<Call<K>>, n: nat): seq<K>
    requires n <= |calls|
  {
    if n == 0 then []
    else
      (if Opens(window, start, calls, n - 1) then [] else WindowKeys(window, start, calls, n - 1))
      + [calls[n - 1].key]
  }

  /** The keys that were first examples since the current window began. */
  function WindowExamples<K(==)>(s: Sampler<K>, calls: seq<Call<K>>, n: nat): seq<K>
    requires n <= |calls|
  {
    if n == 0 then []
    else
      (if Opens(s.window, s.windowStart, calls, n - 1) then [] else WindowExamples(s, calls, n - 1))
      + if DecisionAt(s, calls, n - 1).FirstExample? then [calls[n - 1].key] else []
  }

  /** The distinct keys in the order of their first occurrence. */
  function Distinct<K(==,!new)>(keys: seq<K>): (d: seq<K>)
    ensures forall k :: k in d <==> k in keys
    ensures forall i, j :: 0 <= i < j < |d| ==> d[i] != d[j]
  {
    if keys == [] then []
    else
      var front, last := Distinct(keys[..|keys| - 1]), keys[|keys| - 1];
      assert keys == keys[..|keys| - 1] + [last];
      if last in front then front else front + [last]
  }

  function Take<T>(s: seq<T>, n: int): seq<T> {
    if n <= 0 then [] else if n >= |s| then s else s[..n]
  }

  ghost function Elements<K>(s: seq<K>): set<K> {
    set k | k in s
  }

  lemma {:induction false} ElementsSize<K(!new)>(s: seq<K>)
    requires forall i, j :: 0 <= i < j < |s| ==> s[i] != s[j]
    ensures |Elements(s)| == |s|
  {
    if s != [] {
      ElementsSize(s[..|s| - 1]);
      assert Elements(s) == Elements(s[..|s| - 1]) + {s[|s| - 1]};
    }
  }

  /** What one window has logged and remembered, given the keys it was asked about. */
  ghost predicate WindowIs<K(!new)>(s: Sampler<K>, keys: seq<K>, examples: seq<K>) {
    && examples == Take(Distinct(keys), s.firstLimit)
    && s.seen == Elements(examples)
  }

  lemma {:induction false} DistinctOfAppend<K(!new)>(keys: seq<K>, key: K)
    ensures Distinct(keys + [key]) == if key in keys then Distinct(keys) else Distinct(keys) + [key]
  {
    var more := keys + [key];
    assert more[..|more| - 1] == keys;
  }

  /** The limit cuts a longer list of distinct keys where it cut the shorter one, or one later. */
  lemma TakeOfAppend<K(!new)>(d: seq<K>, key: K, limit: int)
    ensures Take(d + [key], limit) == Take(d, limit) + if |d| < limit then [key] else []
    ensures |Take(d, limit)| < limit <==> |d| < limit
  {
  }

  /** The examples are full, or they are all the distinct keys there are. */
  lemma ExamplesSize<K(!new)>(d: seq<K>, limit: int)
    requires forall i, j :: 0 <= i < j < |d| ==> d[i] != d[j]
    ensures |Elements(Take(d, limit))| < limit <==> |d| < limit
    ensures |d| < limit ==> Take(d, limit) == d
  {
    ElementsSize(Take(d, limit));
  }

  lemma InElements<K(!new)>(s: seq<K>, key: K)
    ensures key in Elements(s) <==> key in s
  {
  }

  lemma ElementsOfAppend<K(!new)>(s: seq<K>, key: K)
    ensures Elements(s + [key]) == Elements(s) + {key}
  {
  }

  lemma WindowGoesOn<K(!new)>(s: Sampler<K>, keys: seq<K>, examples: seq<K>, key: K, lucky: bool)
    requires WindowIs(s, keys, examples)
    ensures var (s', d) := Ask(s, key, lucky);
            && WindowIs(s', keys + [key], examples + if d.FirstExample? then [key] else [])
            && (d.FirstExample? <==> key !in keys && |Distinct(keys)| < s.firstLimit)
  {
    hide Distinct;
    hide Take;
    hide Elements;
    var d := Distinct(keys);
    DistinctOfAppend(keys, key);
    ExamplesSize(d, s.firstLimit);
    TakeOfAppend(d, key, s.firstLimit);
    ElementsOfAppend(examples, key);
    InElements(d, key);
    assert examples + [] == examples;
  }

  lemma EmptyWindow<K(!new)>(s: Sampler<K>)
    requires s.seen == {}
    ensures WindowIs(s, [], [])
  {
  }

  /** The sampler's window is that of the times. */
  lemma {:induction false} WindowIsByTimes<K(!new)>(s: Sampler<K>, calls: seq<Call<K>>, n: nat)
    requires n <= |calls|
    ensures var now := SamplerAt(s, calls, n);
            && now.window == s.window && now.firstLimit == s.firstLimit
            && now.windowStart == Beginning(s.window, s.windowStart, calls, n)
    ensures n < |calls| ==>
              (StartsWindow(SamplerAt(s, calls, n), calls[n].now) <==> Opens(s.window, s.windowStart, calls, n))
  {
    if n > 0 {
      WindowIsByTimes(s, calls, n - 1);
    }
  }

  lemma {:induction false} SamplerFollowsWindow<K(!new)>(s: Sampler<K>, calls: seq<Call<K>>, n: nat)
    requires s.seen == {} && n <= |calls|
    ensures var now := SamplerAt(s, calls, n);
            && now.firstLimit == s.firstLimit
            && WindowIs(now, WindowKeys(s.window, s.windowStart, calls, n), WindowExamples(s, calls, n))
  {
    hide WindowIs;
    hide SamplerAt;
    hide WindowKeys;
    hide WindowExamples;
    if n == 0 {
      NoCallYet(s, calls);
    } else {
      SamplerFollowsWindow(s, calls, n - 1);
      OneMoreCall(s, calls, n);
    }
  }

  lemma NoCallYet<K(!new)>(s: Sampler<K>, calls: seq<Call<K>>)
    requires s.seen == {}
    ensures SamplerAt(s, calls, 0) == s
    ensures WindowIs(s, WindowKeys(s.window, s.windowStart, calls, 0), WindowExamples(s, calls, 0))
  {
    EmptyWindow(s);
  }

  lemma OneMoreCall<K(!new)>(s: Sampler<K>, calls: seq<Call<K>>, n: nat)
    requires 0 < n <= |calls|
    requires WindowIs(SamplerAt(s, calls, n - 1), WindowKeys(s.window, s.windowStart, calls, n - 1),
                      WindowExamples(s, calls, n - 1))
    requires SamplerAt(s, calls, n - 1).firstLimit == s.firstLimit
    ensures var now := SamplerAt(s, calls, n);
            && now.firstLimit == s.firstLimit
            && WindowIs(now, WindowKeys(s.window, s.windowStart, calls, n), WindowExamples(s, calls, n))
  {
    hide WindowIs;
    hide Distinct;
    hide Beginning;
    hide Opens;
    WindowIsByTimes(s, calls, n - 1);
    var prev, call := SamplerAt(s, calls, n - 1), calls[n - 1];
    assert SamplerAt(s, calls, n) == ShouldLog(prev, call).0 && DecisionAt(s, calls, n - 1) == ShouldLog(prev, call).1;
    hide SamplerAt;
    hide DecisionAt;
    var w := Renewed(prev, call.now);
    if StartsWindow(prev, call.now) {
      EmptyWindow(w);
      WindowGoesOn(w, [], [], call.key, call.lucky);
    } else {
      WindowGoesOn(w, WindowKeys(s.window, s.windowStart, calls, n - 1), WindowExamples(s, calls, n - 1),
                   call.key, call.lucky);
    }
  }

  /**
   * At any moment the first examples of the current window are exactly its first distinct keys,
   * up to the limit, in call order and once each.
   */
  lemma ExamplesAreFirstDistinct<K(!new)>(window: int, firstLimit: int, start: int, calls: seq<Call<K>>, n: nat)
    requires n <= |calls|
    ensures var keys := WindowKeys(window, start, calls, n);
            var examples := WindowExamples(Fresh<K>(window, firstLimit, start), calls, n);
            && examples == Take(Distinct(keys), firstLimit)
            && (forall i, j :: 0 <= i < j < |examples| ==> examples[i] != examples[j])
            && |examples| == (if firstLimit <= 0 then 0 else Min(firstLimit, |Distinct(keys)|))
  {
    SamplerFollowsWindow(Fresh<K>(window, firstLimit, start), calls, n);
  }

  /** The keys the i-th call's own window was asked about before it. */
  function AskedBefore<K>(window: int, start: int, calls: seq<Call<K>>, i: nat): seq<K>
    requires i < |calls|
  {
    if Opens(window, start, calls, i) then [] else WindowKeys(window, start, calls, i)
  }

  /** A call is a first example exactly when its key is new to its window and the limit not used up. */
  lemma FirstExampleIff<K(!new)>(s: Sampler<K>, calls: seq<Call<K>>, i: nat)
    requires s.seen == {} && i < |calls|
    ensures var asked := AskedBefore(s.window, s.windowStart, calls, i);
            DecisionAt(s, calls, i).FirstExample? <==> calls[i].key !in asked && |Distinct(asked)| < s.firstLimit
  {
    hide WindowIs;
    hide Distinct;
    hide Beginning;
    SamplerFollowsWindow(s, calls, i);
    WindowIsByTimes(s, calls, i);
    hide Opens;
    var prev, call := SamplerAt(s, calls, i), calls[i];
    var w := Renewed(prev, call.now);
    if StartsWindow(prev, call.now) {
      EmptyWindow(w);
      WindowGoesOn(w, [], [], call.key, call.lucky);
    } else {
      WindowGoesOn(w, WindowKeys(s.window, s.windowStart, calls, i), WindowExamples(s, calls, i), call.key, call.lucky);
    }
  }

  /** Any other call is logged exactly by chance. */
  lemma OthersByChance<K(!new)>(s: Sampler<K>, calls: seq<Call<K>>, i: nat)
    requires i < |calls| && !DecisionAt(s, calls, i).FirstExample?
    ensures DecisionAt(s, calls, i) == if calls[i].lucky then ByChance else Silent
  {
    hide SamplerAt;
  }

  /** How many calls of the current window were logged for whatever reason. */
  function WindowLogs<K(==)>(s: Sampler<K>, calls: seq<Call<K>>, n: nat): nat
    requires n <= |calls|
  {
    if n == 0 then 0
    else
      (if Opens(s.window, s.windowStart, calls, n - 1) then 0 else WindowLogs(s, calls, n - 1))
      + if DecisionAt(s, calls, n - 1).Silent? then 0 else 1
  }

  /** Without chance repeats, a window logs its first examples and nothing else. */
  lemma {:induction false} OnlyExamplesWithoutRepeats<K(!new)>(s: Sampler<K>, calls: seq<Call<K>>, n: nat)
    requires n <= |calls| && forall i :: 0 <= i < |calls| ==> !calls[i].lucky
    ensures WindowLogs(s, calls, n) == |WindowExamples(s, calls, n)|
  {
    hide SamplerAt;
    hide DecisionAt;
    hide Opens;
    if n > 0 {
      OnlyExamplesWithoutRepeats(s, calls, n - 1);
      NoChance(s, calls, n - 1);
    }
  }

  lemma NoChance<K(!new)>(s: Sampler<K>, calls: seq<Call<K>>, i: nat)
    requires i < |calls| && !calls[i].lucky
    ensures !DecisionAt(s, calls, i).ByChance?
  {
    hide SamplerAt;
  }

  class FindingLogSampler<K(==)> {
    const window: int
    const firstLimit: int
    var windowStart: int
    var seen: set<K>

    ghost function Model(): Sampler<K>
      reads this
    {
      Sampler(window, firstLimit, windowStart, seen)
    }

    constructor (window: int, firstLimit: int, now: int)
      ensures Model() == Fresh(window, firstLimit, now)
    {
      this.window, this.firstLimit, windowStart := window, firstLimit, now;
      seen := {};
    }

    method Decide(now: int, key: K, lucky: bool) returns (log: bool)
      modifies this
      ensures var (s, d) := ShouldLog(old(Model()), Call(now, key, lucky));
              Model() == s && (log <==> !d.Silent?)
    {
      if now - windowStart >= window {
        windowStart := now;
        seen := {};
      }
      if key !in seen && |seen| < firstLimit {
        seen := seen + {key};
        return true;
      }
      return lucky;
    }
  }
}
