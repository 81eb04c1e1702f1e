/**
 * What the top-series table can promise within one window. A table is seen as the multiset of
 * observations it still remembers; `dropped` collects those that prunes have forgotten.
 */
module HeavyHitters {
  import opened Prelude

  datatype Table<!K(!new)> = Table(stored: multiset<K>, dropped: multiset<K>, prunes: int)

  ghost function Keys<K(!new)>(m: multiset<K>): set<K> {
    set k | k in m
  }

  /** Entries are kept or lost as a whole, `keep` of them are kept, and none lost outweighs one kept. */
  ghost predicate IsPrune<K(!new)>(before: multiset<K>, after: multiset<K>, keep: int) {
    && (forall k :: after[k] == before[k] || after[k] == 0)
    && |Keys(after)| == keep
    && (forall k, d :: k in after && d in before && d !in after ==> before[d] <= before[k])
  }

  /** One observation with table size limit 50 * max, followed by a prune if the table has grown past it. */
  ghost predicate ObserveStep<K(!new)>(max: int, t: Table<K>, key: K, t': Table<K>) {
    var added := t.stored + multiset{key};
    if |Keys(added)| > 50 * max then
      && IsPrune(added, t'.stored, 25 * max)
      && t'.dropped == t.dropped + (added - t'.stored)
      && t'.prunes == t.prunes + 1
    else t' == Table(added, t.dropped, t.prunes)
  }

  /** The tables a window goes through, one observation at a time, for some choices of the prunes. */
  ghost predicate Run<K(!new)>(max: int, keys: seq<K>, tables: seq<Table<K>>) {
    && |tables| == |keys| + 1
    && tables[0] == Table(multiset{}, multiset{}, 0)
    && forall i :: 0 <= i < |keys| ==> ObserveStep(max, tables[i], keys[i], tables[i + 1])
  }

  // Counting

  lemma KeysOfAdd<K(!new)>(m: multiset<K>, key: K)
    ensures Keys(m + multiset{key}) == Keys(m) + {key}
    ensures |Keys(m + multiset{key})| <= |Keys(m)| + 1
  {
  }

  /** If every key of a set occurs at least c times, the multiset has at least c elements for each. */
  lemma {:induction false} WeightOfKeys<K(!new)>(keys: set<K>, m: multiset<K>, c: nat)
    requires forall k :: k in keys ==> m[k] >= c
    ensures |keys| * c <= |m|
  {
    if keys != {} {
      var k :| k in keys;
      WeightOfKeys(keys - {k}, m[k := 0], c);
      assert |m[k := 0]| == |m| - m[k];
      assert |keys| * c == |keys - {k}| * c + c;
    }
  }

  /** Every lost count is outweighed by the count of each kept key and its own. */
  lemma LostCountIsSmall<K(!new)>(before: multiset<K>, after: multiset<K>, keep: nat, d: K)
    requires IsPrune(before, after, keep) && d in before && d !in after
    ensures (keep + 1) * before[d] <= |before|
  {
    var keys := Keys(after) + {d};
    assert |keys| == keep + 1;
    forall k | k in keys
      ensures before[k] >= before[d]
    {
      if k != d {
        assert k in after && after[k] == before[k];
      }
    }
    WeightOfKeys(keys, before, before[d]);
  }

  /** A prune forgets at least one observation for each entry it removes. */
  lemma PruneForgets<K(!new)>(before: multiset<K>, after: multiset<K>, keep: nat)
    requires IsPrune(before, after, keep) && |Keys(before)| >= keep
    ensures after <= before && |before - after| >= |Keys(before)| - keep
  {
    var lost := Keys(before) - Keys(after);
    assert Keys(after) <= Keys(before);
    assert |lost| == |Keys(before)| - keep;
    forall k | k in lost
      ensures (before - after)[k] >= 1
    {
    }
    WeightOfKeys(lost, before - after, 1);
  }

  // The invariant of a window

  /** The number of entries a prune starts from, less the ones it keeps. */
  function Share(max: nat): nat {
    25 * max + 1
  }

  ghost predicate TableInv<K(!new)>(max: nat, keys: seq<K>, t: Table<K>) {
    && t.stored + t.dropped == multiset(keys)
    && |Keys(t.stored)| <= 50 * max
    && 0 <= t.prunes && t.prunes * Share(max) <= |t.dropped|
  }

  lemma StepKeepsInv<K(!new)>(max: nat, keys: seq<K>, prev: Table<K>, key: K, t: Table<K>)
    requires 0 < max && TableInv(max, keys, prev) && ObserveStep(max, prev, key, t)
    ensures TableInv(max, keys + [key], t)
  {
    var added := prev.stored + multiset{key};
    KeysOfAdd(prev.stored, key);
    if |Keys(added)| > 50 * max {
      PruneForgets(added, t.stored, 25 * max);
      OneMore(prev.prunes, Share(max));
      assert t.stored + (added - t.stored) == added;
    }
  }

  lemma OneMore(n: int, w: int)
    ensures (n + 1) * w == n * w + w
  {
  }

  /**
   * Within a window the stored and the forgotten observations together are exactly the ones made:
   * no count is too high, and a key of which nothing was forgotten has its true count. The table
   * stays within 50 entries per row of output, and prunes are rare.
   */
  lemma WindowKeepsInv<K(!new)>(max: nat, keys: seq<K>, tables: seq<Table<K>>, n: nat)
    requires 0 < max && Run(max, keys, tables) && n <= |keys|
    ensures TableInv(max, keys[..n], tables[n])
    ensures forall k :: tables[n].stored[k] <= multiset(keys[..n])[k]
    ensures forall k :: k !in tables[n].dropped ==> tables[n].stored[k] == multiset(keys[..n])[k]
    ensures tables[n].prunes * (25 * max + 1) <= n
  {
    InvAt(max, keys, tables, n);
    InvMeansCounts(max, keys[..n], tables[n]);
  }

  lemma {:induction false} InvAt<K(!new)>(max: nat, keys: seq<K>, tables: seq<Table<K>>, n: nat)
    requires 0 < max && Run(max, keys, tables) && n <= |keys|
    ensures TableInv(max, keys[..n], tables[n])
  {
    hide TableInv;
    hide ObserveStep;
    if n == 0 {
      NothingObserved<K>(max);
      assert keys[..0] == [];
    } else {
      InvAt(max, keys, tables, n - 1);
      StepKeepsInv(max, keys[..n - 1], tables[n - 1], keys[n - 1], tables[n]);
      assert keys[..n] == keys[..n - 1] + [keys[n - 1]];
    }
  }

  lemma NothingObserved<K(!new)>(max: nat)
    ensures TableInv<K>(max, [], Table(multiset{}, multiset{}, 0))
  {
  }

  lemma InvMeansCounts<K(!new)>(max: nat, keys: seq<K>, t: Table<K>)
    requires TableInv(max, keys, t)
    ensures forall k :: t.stored[k] <= multiset(keys)[k]
    ensures forall k :: k !in t.dropped ==> t.stored[k] == multiset(keys)[k]
    ensures t.prunes * Share(max) <= |keys|
  {
    hide Share;
    assert |multiset(keys)| == |keys|;
    assert forall k :: (t.stored + t.dropped)[k] == multiset(keys)[k];
  }

  /**
   * Each prune starts one entry above the limit and keeps half of it. With n observations made,
   * a dropped count times (25 max + 1) is at most n; so a count above that share survives.
   */
  lemma PruneErrorBound<K(!new)>(max: nat, keys: seq<K>, tables: seq<Table<K>>, n: nat)
    requires 0 < max && Run(max, keys, tables) && 0 < n <= |keys|
    requires tables[n].prunes != tables[n - 1].prunes
    ensures var added, kept := tables[n - 1].stored + multiset{keys[n - 1]}, tables[n].stored;
            && |Keys(added)| == 50 * max + 1 && |Keys(kept)| == 25 * max
            && (forall d :: d in added && d !in kept ==> (25 * max + 1) * added[d] <= n)
            && (forall k :: (25 * max + 1) * added[k] > n ==> kept[k] == added[k])
  {
    InvAt(max, keys, tables, n - 1);
    StepErrorBound(max, keys[..n - 1], tables[n - 1], keys[n - 1], tables[n]);
  }

  lemma StepErrorBound<K(!new)>(max: nat, keys: seq<K>, prev: Table<K>, key: K, t: Table<K>)
    requires 0 < max && TableInv(max, keys, prev) && ObserveStep(max, prev, key, t) && t.prunes != prev.prunes
    ensures var added := prev.stored + multiset{key};
            && |Keys(added)| == 50 * max + 1 && |Keys(t.stored)| == 25 * max
            && (forall d :: d in added && d !in t.stored ==> Share(max) * added[d] <= |keys| + 1)
            && (forall k :: Share(max) * added[k] > |keys| + 1 ==> t.stored[k] == added[k])
  {
    var added := prev.stored + multiset{key};
    KeysOfAdd(prev.stored, key);
    assert |multiset(keys)| == |keys|;
    assert |added| <= |keys| + 1;
    forall d
      ensures d in added && d !in t.stored ==> Share(max) * added[d] <= |keys| + 1
      ensures Share(max) * added[d] > |keys| + 1 ==> t.stored[d] == added[d]
    {
      if d in added && d !in t.stored {
        LostCountIsSmall(added, t.stored, 25 * max, d);
      } else if d !in added {
        assert Share(max) * added[d] == 0;
      }
    }
  }

  // When a key can be missing
  //
  // A pruned key starts again from zero, so the bound on stored counts is no bound on
  // observations. The exact one has to pay for every prune the key was lost in.

  ghost predicate AllAtLeast<K(!new)>(stored: multiset<K>, keys: set<K>, c: int) {
    forall k :: k in keys ==> stored[k] >= c
  }

  /** At least n keys are stored with a count of c or more. */
  ghost predicate Crowded<K(!new)>(stored: multiset<K>, n: int, c: int) {
    exists keys: set<K> :: |keys| == n && AllAtLeast(stored, keys, c)
  }

  /**
   * What losing k has cost so far: no prune forgot more than c observations of it, each forgot
   * 25 max of other keys besides, and the table is crowded with counts of c or more.
   */
  ghost predicate LossPaid<K(!new)>(max: nat, t: Table<K>, k: K, c: nat) {
    && 0 <= t.prunes
    && t.dropped[k] <= t.prunes * c
    && |t.dropped| >= t.dropped[k] + 25 * max * t.prunes
    && (t.prunes == 0 ==> c == 0)
    && (t.prunes > 0 ==> Crowded(t.stored, 25 * max, c))
  }

  lemma CrowdGrows<K(!new)>(stored: multiset<K>, key: K, n: int, c: int)
    requires Crowded(stored, n, c)
    ensures Crowded(stored + multiset{key}, n, c)
  {
    var keys: set<K> :| |keys| == n && AllAtLeast(stored, keys, c);
    assert AllAtLeast(stored + multiset{key}, keys, c);
  }

  lemma SomeOutside<K>(keys: set<K>, kept: set<K>, k: K) returns (d: K)
    requires |keys| >= |kept| && k in kept
    ensures d in keys && (d == k || d !in kept)
  {
    if keys <= kept - {k} {
      SubsetSize(keys, kept - {k});
      assert false;
    }
    d :| d in keys && d !in kept - {k};
  }

  /** A prune that keeps n keys keeps no count below one that n keys had. */
  lemma CrowdSurvives<K(!new)>(before: multiset<K>, after: multiset<K>, n: nat, c: int)
    requires IsPrune(before, after, n) && Crowded(before, n, c)
    ensures AllAtLeast(after, Keys(after), c)
  {
    var keys: set<K> :| |keys| == n && AllAtLeast(before, keys, c);
    forall k | k in Keys(after)
      ensures after[k] >= c
    {
      var d := SomeOutside(keys, Keys(after), k);
      assert before[d] >= c;
    }
  }

  /** Besides k itself, a prune forgets an observation of each other key it removes. */
  lemma ForgetsBesides<K(!new)>(before: multiset<K>, after: multiset<K>, keep: nat, k: K)
    requires IsPrune(before, after, keep) && |Keys(before)| >= keep + 1
    ensures (before - after)[k] == before[k] - after[k]
    ensures |before - after| >= (before - after)[k] + |Keys(before)| - keep - 1
  {
    var others := Keys(before) - Keys(after) - {k};
    assert Keys(after) <= Keys(before);
    var lost := before - after;
    var rest := lost[k := 0];
    assert |others| >= |Keys(before)| - keep - 1;
    forall x | x in others
      ensures rest[x] >= 1
    {
    }
    WeightOfKeys(others, rest, 1);
    assert |rest| == |lost| - lost[k];
  }

  /** After a prune that k is lost in, or not, all counts kept are those lost of k or higher. */
  lemma KeptOutweighLost<K(!new)>(before: multiset<K>, after: multiset<K>, keep: nat, k: K)
    requires IsPrune(before, after, keep)
    ensures after[k] <= before[k]
    ensures AllAtLeast(after, Keys(after), before[k] - after[k])
  {
  }

  lemma KeptIsCrowd<K(!new)>(before: multiset<K>, after: multiset<K>, keep: nat, k: K, c: int)
    requires IsPrune(before, after, keep)
    requires c == before[k] - after[k] || Crowded(before, keep, c)
    ensures Crowded(after, keep, c)
  {
    KeptOutweighLost(before, after, keep, k);
    if Crowded(before, keep, c) {
      CrowdSurvives(before, after, keep, c);
    }
    assert AllAtLeast(after, Keys(after), c);
  }

  lemma PrunePaysLoss<K(!new)>(max: nat, prev: Table<K>, added: multiset<K>, t: Table<K>, k: K, c: nat) returns (c': nat)
    requires 0 < max && |Keys(added)| > 50 * max && IsPrune(added, t.stored, 25 * max)
    requires t.dropped == prev.dropped + (added - t.stored) && t.prunes == prev.prunes + 1
    requires LossPaid(max, prev.(stored := added), k, c)
    ensures LossPaid(max, t, k, c')
  {
    hide Crowded;
    hide IsPrune;
    hide Keys;
    KeptOutweighLost(added, t.stored, 25 * max, k);
    var lost: int := added[k] - t.stored[k];
    ForgetsBesides(added, t.stored, 25 * max, k);
    hide AllAtLeast;
    assert t.dropped[k] == prev.dropped[k] + lost && |t.dropped| == |prev.dropped| + |added - t.stored|;
    c' := if lost > c then lost else c;
    LossAdds(prev.prunes, c, c', prev.dropped[k], lost);
    ForgottenAdds(25 * max, prev.prunes, |prev.dropped|, prev.dropped[k], |added - t.stored|, lost);
    assert c' == lost || (c' == c && prev.prunes > 0);
    KeptIsCrowd(added, t.stored, 25 * max, k, c');
  }

  lemma ForgottenAdds(others: int, p: int, dropped: int, ofKey: int, forgotten: int, lost: int)
    requires dropped >= ofKey + others * p && forgotten >= lost + others
    ensures dropped + forgotten >= ofKey + lost + others * (p + 1)
  {
    OneMore(p, others);
  }

  lemma StepPaysLoss<K(!new)>(max: nat, prev: Table<K>, key: K, t: Table<K>, k: K, c: nat) returns (c': nat)
    requires 0 < max && ObserveStep(max, prev, key, t) && LossPaid(max, prev, k, c)
    ensures LossPaid(max, t, k, c')
  {
    hide Crowded;
    hide IsPrune;
    var added := prev.stored + multiset{key};
    if prev.prunes > 0 {
      CrowdGrows(prev.stored, key, 25 * max, c);
    }
    assert LossPaid(max, prev.(stored := added), k, c);
    if |Keys(added)| > 50 * max {
      hide LossPaid;
      c' := PrunePaysLoss(max, prev, added, t, k, c);
    } else {
      c' := c;
    }
  }

  lemma LossAdds(p: nat, c: nat, c': nat, dropped: int, lost: int)
    requires dropped <= p * c && lost <= c' && c <= c'
    ensures dropped + lost <= (p + 1) * c'
  {
    assert p * c <= p * c';
    OneMore(p, c');
  }

  lemma {:induction false} LossIsPaid<K(!new)>(max: nat, keys: seq<K>, tables: seq<Table<K>>, n: nat, k: K) returns (c: nat)
    requires 0 < max && Run(max, keys, tables) && n <= |keys|
    ensures LossPaid(max, tables[n], k, c)
  {
    hide LossPaid;
    hide ObserveStep;
    if n == 0 {
      c := 0;
      NothingLost(max, k);
    } else {
      c := LossIsPaid(max, keys, tables, n - 1, k);
      c := StepPaysLoss(max, tables[n - 1], keys[n - 1], tables[n], k, c);
    }
  }

  lemma NothingLost<K(!new)>(max: nat, k: K)
    ensures LossPaid(max, Table(multiset{}, multiset{}, 0), k, 0)
  {
  }

  /**
   * How far a stored count can be below the truth: by at most c for each of the p prunes of the
   * window, which has paid 25 max for each prune and c for each of 25 max keys with such counts.
   */
  lemma UndercountBound<K(!new)>(max: nat, keys: seq<K>, tables: seq<Table<K>>, n: nat, k: K) returns (c: nat)
    requires 0 < max && Run(max, keys, tables) && n <= |keys|
    ensures tables[n].stored[k] <= multiset(keys[..n])[k]
    ensures var d, p := multiset(keys[..n])[k] - tables[n].stored[k], tables[n].prunes;
            && d <= p * c
            && (p > 0 ==> d + 25 * max * p + 25 * max * c <= n)
  {
    c := LossIsPaid(max, keys, tables, n, k);
    InvAt(max, keys, tables, n);
    hide Run;
    var t := tables[n];
    var seen := multiset(keys[..n]);
    assert seen[k] - t.stored[k] == t.dropped[k];
    assert |seen| == n == |t.stored| + |t.dropped|;
    if t.prunes > 0 {
      var crowd: set<K> :| |crowd| == 25 * max && AllAtLeast(t.stored, crowd, c);
      WeightOfKeys(crowd, t.stored, c);
    }
  }

  /**
   * A key with observations in the window that is not in the table has been lost in p >= 1 prunes
   * of at most c observations each, and the window has paid for that.
   */
  lemma MissingKeyBound<K(!new)>(max: nat, keys: seq<K>, tables: seq<Table<K>>, n: nat, k: K) returns (p: nat, c: nat)
    requires 0 < max && Run(max, keys, tables) && n <= |keys|
    requires k in multiset(keys[..n]) && k !in tables[n].stored
    ensures 1 <= p && 1 <= c && p == tables[n].prunes
    ensures multiset(keys[..n])[k] <= p * c
    ensures multiset(keys[..n])[k] + 25 * max * p + 25 * max * c <= n
  {
    c := UndercountBound(max, keys, tables, n, k);
    WindowKeepsInv(max, keys, tables, n);
    hide Run;
    p := tables[n].prunes;
    assert p == 0 ==> p * c == 0;
    assert c == 0 ==> p * c == 0;
  }

  function Last<T>(s: seq<T>): T
    requires s != []
  {
    s[|s| - 1]
  }

  lemma RunGoesOn<K(!new)>(max: int, keys: seq<K>, tables: seq<Table<K>>, key: K, t: Table<K>)
    requires Run(max, keys, tables) && ObserveStep(max, Last(tables), key, t)
    ensures Run(max, keys + [key], tables + [t]) && Last(tables + [t]) == t
    ensures multiset(keys + [key]) == multiset(keys) + multiset{key}
  {
    hide ObserveStep;
    var keys', tables' := keys + [key], tables + [t];
    forall i | 0 <= i < |keys'|
      ensures ObserveStep(max, tables'[i], keys'[i], tables'[i + 1])
    {
      if i < |keys| {
        assert tables'[i] == tables[i] && tables'[i + 1] == tables[i + 1] && keys'[i] == keys[i];
      }
    }
  }

  lemma RunLength<K(!new)>(max: int, keys: seq<K>, tables: seq<Table<K>>)
    requires Run(max, keys, tables)
    ensures |tables| == |keys| + 1
  {
  }

  /** after holds n more of each key in (from, upTo] than before. */
  ghost predicate Raised(before: multiset<int>, after: multiset<int>, from: int, upTo: int, n: nat) {
    forall k :: after[k] == before[k] + if from < k <= upTo then n else 0
  }

  /** Observing one key again and again, in a table with room for it. */
  lemma {:induction false} ObserveMany(max: nat, keys: seq<int>, tables: seq<Table<int>>, key: int, n: nat)
    returns (keys': seq<int>, tables': seq<Table<int>>)
    requires Run(max, keys, tables) && |Keys(Last(tables).stored) + {key}| <= 50 * max
    ensures Run(max, keys', tables') && |tables'| > 0 && |keys'| == |keys| + n
    ensures Raised(multiset(keys), multiset(keys'), key - 1, key, n)
    ensures Raised(Last(tables).stored, Last(tables').stored, key - 1, key, n)
  {
    RunLength(max, keys, tables);
    hide Run;
    if n == 0 {
      keys', tables' := keys, tables;
    } else {
      var k1, t1 := ObserveMany(max, keys, tables, key, n - 1);
      var before := Last(t1);
      KeysOfAdd(before.stored, key);
      forall k
        ensures k in Keys(before.stored) + {key} <==> k in Keys(Last(tables).stored) + {key}
      {
        assert k != key ==> before.stored[k] == Last(tables).stored[k];
      }
      assert Keys(before.stored) + {key} == Keys(Last(tables).stored) + {key};
      var t := Table(before.stored + multiset{key}, before.dropped, before.prunes);
      RunGoesOn(max, k1, t1, key, t);
      keys', tables' := k1 + [key], t1 + [t];
    }
  }

  function Numbers(n: nat): (s: set<int>)
    ensures |s| == n && forall x :: x in s <==> 0 <= x < n
  {
    if n == 0 then {} else Numbers(n - 1) + {n - 1}
  }

  lemma FewNumbers(s: set<int>, n: nat)
    requires forall x :: x in s ==> 0 <= x < n
    ensures |s| <= n
  {
    SubsetSize(s, Numbers(n));
  }

  lemma ManyNumbers(s: set<int>, n: nat)
    requires forall x :: 0 <= x < n ==> x in s
    ensures |s| >= n
  {
    SubsetSize(Numbers(n), s);
  }

  lemma RaisedByNothing(m: multiset<int>, from: int, n: nat)
    ensures Raised(m, m, from, from, n)
  {
  }

  lemma RaisedTwice(a: multiset<int>, b: multiset<int>, c: multiset<int>, from: int, upTo: int, n: nat)
    requires from < upTo && Raised(a, b, from, upTo - 1, n) && Raised(b, c, upTo - 1, upTo, n)
    ensures Raised(a, c, from, upTo, n)
  {
  }

  lemma RaisedHasRoom(a: multiset<int>, b: multiset<int>, from: int, upTo: int, n: nat, room: nat)
    requires 0 <= from <= upTo && upTo + 1 < room && Raised(a, b, from, upTo, n)
    requires forall k :: k in a ==> 0 <= k <= from
    ensures |Keys(b) + {upTo + 1}| <= room
  {
    FewNumbers(Keys(b) + {upTo + 1}, room);
  }

  /** Observing the keys from + 1 .. upTo in turn, all of them among 50 max numbers. */
  lemma {:induction false} ObserveBlock(
    max: nat, keys: seq<int>, tables: seq<Table<int>>, from: int, upTo: int, times: nat)
    returns (keys': seq<int>, tables': seq<Table<int>>)
    requires Run(max, keys, tables) && 0 <= from <= upTo < 50 * max
    requires forall k :: k in Last(tables).stored ==> 0 <= k <= from
    ensures Run(max, keys', tables') && |tables'| > 0 && |keys'| == |keys| + (upTo - from) * times
    ensures Raised(multiset(keys), multiset(keys'), from, upTo, times)
    ensures Raised(Last(tables).stored, Last(tables').stored, from, upTo, times)
    decreases upTo
  {
    hide Run;
    hide Raised;
    hide Keys;
    RunLength(max, keys, tables);
    if upTo == from {
      keys', tables' := keys, tables;
      RaisedByNothing(multiset(keys), from, times);
      RaisedByNothing(Last(tables).stored, from, times);
    } else {
      var k1, t1 := ObserveBlock(max, keys, tables, from, upTo - 1, times);
      RaisedHasRoom(Last(tables).stored, Last(t1).stored, from, upTo - 1, times, 50 * max);
      keys', tables' := ObserveMany(max, k1, t1, upTo, times);
      RaisedTwice(multiset(keys), multiset(k1), multiset(keys'), from, upTo, times);
      RaisedTwice(Last(tables).stored, Last(t1).stored, Last(tables').stored, from, upTo, times);
      OneMore(upTo - from - 1, times);
    }
  }

  /** The table holds the keys 1 .. 25 max, each `times` times, and nothing else. */
  ghost predicate OnlyAnchors(max: nat, tables: seq<Table<int>>, times: nat) {
    tables != [] && Raised(multiset{}, Last(tables).stored, 0, 25 * max, times)
  }

  /**
   * One round: key 0 is seen at least once and no more often than each anchor, then 25 max other
   * keys once. The last of them makes one entry too many, and the prune may keep the anchors.
   */
  lemma Round(max: nat, keys: seq<int>, tables: seq<Table<int>>, times: nat, zeros: nat)
    returns (keys': seq<int>, tables': seq<Table<int>>)
    requires 0 < max && 1 <= zeros <= times && Run(max, keys, tables) && OnlyAnchors(max, tables, times)
    ensures Run(max, keys', tables') && OnlyAnchors(max, tables', times)
    ensures |keys'| == |keys| + zeros + 25 * max
    ensures multiset(keys')[0] == multiset(keys)[0] + zeros
  {
    hide Run;
    var anchors := Last(tables).stored;
    FewNumbers(Keys(anchors) + {0}, 25 * max + 1);
    var k1, t1 := ObserveMany(max, keys, tables, 0, zeros);
    var k2, t2 := ObserveBlock(max, k1, t1, 25 * max, 50 * max - 1, 1);
    var added := Last(t2).stored + multiset{50 * max};
    AnchorsSurvive(max, added, anchors, times, zeros);
    var t := Table(anchors, Last(t2).dropped + (added - anchors), Last(t2).prunes + 1);
    RunGoesOn(max, k2, t2, 50 * max, t);
    keys', tables' := k2 + [50 * max], t2 + [t];
  }

  lemma AnchorsSurvive(max: nat, added: multiset<int>, anchors: multiset<int>, times: nat, zeros: nat)
    requires 0 < max && 1 <= zeros <= times && Raised(multiset{}, anchors, 0, 25 * max, times)
    requires forall k :: added[k] ==
               if k == 0 then zeros else if 0 < k <= 25 * max then times else if 25 * max < k <= 50 * max then 1 else 0
    ensures |Keys(added)| > 50 * max && IsPrune(added, anchors, 25 * max)
  {
    ManyNumbers(Keys(added), 50 * max + 1);
    FewNumbers(Keys(anchors) + {0}, 25 * max + 1);
    ManyNumbers(Keys(anchors) + {0}, 25 * max + 1);
    assert 0 !in Keys(anchors);
  }

  /** If key 0 is seen less often than each anchor, the prune has no choice. */
  lemma AnchorsAreForced(max: nat, added: multiset<int>, after: multiset<int>, times: nat, zeros: nat)
    requires 0 < max && 1 < times && zeros < times && IsPrune(added, after, 25 * max)
    requires forall k :: added[k] ==
               if k == 0 then zeros else if 0 < k <= 25 * max then times else if 25 * max < k <= 50 * max then 1 else 0
    ensures Raised(multiset{}, after, 0, 25 * max, times)
  {
    var anchors := Numbers(25 * max + 1) - {0};
    assert AllAtLeast(added, anchors, times);
    CrowdSurvives(added, after, 25 * max, times);
    assert Keys(after) <= anchors;
    SameSizeSubset(Keys(after), anchors);
    forall k
      ensures after[k] == if 0 < k <= 25 * max then times else 0
    {
      assert k in Keys(after) <==> k in anchors;
    }
  }

  lemma SameSizeSubset<T>(a: set<T>, b: set<T>)
    requires a <= b && |a| == |b|
    ensures a == b
  {
    assert b == a + (b - a);
  }

  /** Up to `rounds` rounds lose any number of observations of key 0, at most `times` in each. */
  lemma {:induction false} Rounds(max: nat, rounds: nat, times: nat, zeros: nat)
    returns (keys: seq<int>, tables: seq<Table<int>>)
    requires 0 < max && 0 < times && zeros <= rounds * times
    ensures Run(max, keys, tables) && OnlyAnchors(max, tables, times)
    ensures multiset(keys)[0] == zeros
    ensures |keys| <= 25 * max * times + zeros + 25 * max * rounds
    decreases rounds
  {
    if zeros == 0 {
      keys, tables := ObserveBlock(max, [], [Table(multiset{}, multiset{}, 0)], 0, 25 * max, times);
      assert 0 <= 25 * max * rounds;
    } else {
      OneMore(rounds - 1, times);
      OneMore(rounds - 1, 25 * max);
      var now := if zeros <= times then zeros else times;
      keys, tables := Rounds(max, rounds - 1, times, zeros - now);
      keys, tables := Round(max, keys, tables, times, now);
    }
  }

  /** Observing an anchor until the window has the given length. */
  lemma Pad(max: nat, keys: seq<int>, tables: seq<Table<int>>, times: nat, length: nat)
    returns (keys': seq<int>, tables': seq<Table<int>>)
    requires 0 < max && 0 < times && Run(max, keys, tables) && OnlyAnchors(max, tables, times) && |keys| <= length
    ensures Run(max, keys', tables') && tables' != [] && |keys'| == length
    ensures multiset(keys')[0] == multiset(keys)[0] && 0 !in Last(tables').stored
  {
    FewNumbers(Keys(Last(tables).stored) + {1}, 25 * max + 1);
    keys', tables' := ObserveMany(max, keys, tables, 1, length - |keys|);
  }

  /** A window of n observations, t of them of key 0, that leaves key 0 out of the table. */
  ghost predicate Missing(max: nat, t: nat, n: nat, keys: seq<int>, tables: seq<Table<int>>) {
    && Run(max, keys, tables) && |keys| == n && tables != []
    && multiset(keys)[0] == t && 0 !in Last(tables).stored
  }

  /** The price of losing t observations in p prunes of at most c each fits the window. */
  ghost predicate CanPay(max: nat, t: nat, n: nat, p: nat, c: nat) {
    1 <= p && 1 <= c && t <= p * c && t + 25 * max * p + 25 * max * c <= n
  }

  lemma MissingMustPay(max: nat, t: nat, n: nat, keys: seq<int>, tables: seq<Table<int>>) returns (p: nat, c: nat)
    requires 0 < max && 0 < t && Missing(max, t, n, keys, tables)
    ensures CanPay(max, t, n, p, c)
  {
    RunLength(max, keys, tables);
    assert keys[..n] == keys;
    p, c := MissingKeyBound(max, keys, tables, n, 0);
  }

  lemma PaidCanMiss(max: nat, t: nat, n: nat, p: nat, c: nat) returns (keys: seq<int>, tables: seq<Table<int>>)
    requires 0 < max && CanPay(max, t, n, p, c)
    ensures Missing(max, t, n, keys, tables)
  {
    keys, tables := Rounds(max, p, c, t);
    keys, tables := Pad(max, keys, tables, c, n);
  }

  /**
   * The bound is exact. For every table size, a key with t > 0 of the n observations of a window
   * can be missing at its end exactly if the loss can be paid for.
   */
  lemma MissingIff(max: nat, t: nat, n: nat)
    requires 0 < max && 0 < t
    ensures (exists keys, tables :: Missing(max, t, n, keys, tables)) <==> exists p, c :: CanPay(max, t, n, p, c)
  {
    if keys, tables :| Missing(max, t, n, keys, tables) {
      var p, c := MissingMustPay(max, t, n, keys, tables);
    }
    if p, c :| CanPay(max, t, n, p, c) {
      var keys, tables := PaidCanMiss(max, t, n, p, c);
    }
  }

  /**
   * So a key can have p * c observations out of p * c + 25 max * (p + c), which is as near to all
   * of them as one likes, and yet be missing.
   */
  lemma MajorityCanBeLost(max: nat, p: nat, c: nat) returns (keys: seq<int>, tables: seq<Table<int>>)
    requires 0 < max && 1 <= p && 1 <= c
    ensures Missing(max, p * c, p * c + 25 * max * p + 25 * max * c, keys, tables)
  {
    keys, tables := PaidCanMiss(max, p * c, p * c + 25 * max * p + 25 * max * c, p, c);
  }
}
