/**
 * The top-series collector: a table of rows, pruned when it grows too large, emptied when its
 * window has passed, and reported as a sorted list. The ghost fields tie the rows to the
 * window's run in HeavyHitters. Map iteration and sorting may choose any order they allow.
 */
module TopSeries {
  import opened Prelude
  import opened Strings
  import opened HeavyHitters
  import Hashing
  import Sorting

  datatype Key = Key(identityValues: string, reason: string, seriesHash: u64)

  datatype Row = Row(key: Key, seriesName: string, fingerprint: string, count: int)

  // The two orders

  predicate HigherCount(a: Row, b: Row) {
    a.count > b.count
  }

  /** The order of the report: count, then name, then fingerprint. */
  predicate Ahead(a: Row, b: Row) {
    if a.count == b.count then
      if a.seriesName == b.seriesName then Less(a.fingerprint, b.fingerprint)
      else Less(a.seriesName, b.seriesName)
    else a.count > b.count
  }

  lemma AheadIsWeakOrder()
    ensures Sorting.StrictWeakOrder(Ahead)
  {
    forall a, b | Ahead(a, b)
      ensures !Ahead(b, a)
    {
      AheadIsAsymmetric(a, b);
    }
    forall a, b, c | !Ahead(b, a) && !Ahead(c, b)
      ensures !Ahead(c, a)
    {
      NotAheadIsTransitive(a, b, c);
    }
  }

  lemma AheadIsAsymmetric(a: Row, b: Row)
    requires Ahead(a, b)
    ensures !Ahead(b, a)
  {
    if a.count == b.count {
      if a.seriesName == b.seriesName {
        LessIsAsymmetric(a.fingerprint, b.fingerprint);
      } else {
        LessIsAsymmetric(a.seriesName, b.seriesName);
      }
    }
  }

  lemma NotAheadIsTransitive(a: Row, b: Row, c: Row)
    requires !Ahead(b, a) && !Ahead(c, b)
    ensures !Ahead(c, a)
  {
    if a.count == b.count == c.count {
      if a.seriesName == b.seriesName == c.seriesName {
        AtMostIsTransitive(a.fingerprint, b.fingerprint, c.fingerprint);
      } else {
        LessIsIrreflexive(a.seriesName);
        LessIsIrreflexive(b.seriesName);
        AtMostIsTransitive(a.seriesName, b.seriesName, c.seriesName);
        if a.seriesName == c.seriesName {
          AtMostIsAntisymmetric(a.seriesName, b.seriesName);
        }
      }
    }
  }

  lemma HigherCountIsWeakOrder()
    ensures Sorting.StrictWeakOrder(HigherCount)
  {
  }

  /** As fingerprints are those of the hashes, the last tie-break orders rows by hash. */
  lemma TieBreakIsByHash(a: Row, b: Row)
    requires a.count == b.count && a.seriesName == b.seriesName
    requires RowValid(a) && RowValid(b)
    ensures Ahead(a, b) <==> a.key.seriesHash < b.key.seriesHash
  {
    Hashing.FingerprintKeepsOrder(a.key.seriesHash, b.key.seriesHash);
  }

  /** In a sorted report, rows that agree in count and name are in the order of their hashes. */
  lemma ReportTiesAreByHash(rows: seq<Row>, i: nat, j: nat)
    requires Sorting.Sorted(rows, Ahead) && i < j < |rows| && RowValid(rows[i]) && RowValid(rows[j])
    requires rows[i].count == rows[j].count && rows[i].seriesName == rows[j].seriesName
    ensures rows[i].key.seriesHash <= rows[j].key.seriesHash
  {
    TieBreakIsByHash(rows[j], rows[i]);
  }

  /** What the order of the report says on the fields, for a row that b is not ahead of. */
  lemma NotAheadMeans(a: Row, b: Row)
    requires RowValid(a) && RowValid(b) && !Ahead(b, a)
    ensures a.count >= b.count
    ensures a.count == b.count ==> AtMost(a.seriesName, b.seriesName)
    ensures a.count == b.count && a.seriesName == b.seriesName ==> a.key.seriesHash <= b.key.seriesHash
  {
    if a.count == b.count && a.seriesName == b.seriesName {
      LessIsIrreflexive(a.seriesName);
      TieBreakIsByHash(b, a);
    }
  }

  // Rows of a table as a list

  type Rows = map<Key, Row>

  /** A row of the table shows its key's fingerprint and has been counted. */
  ghost predicate RowValid(row: Row) {
    row.count > 0 && row.fingerprint == Hashing.SeriesFingerprint(row.key.seriesHash)
  }

  /** Every row is stored under its key. */
  ghost predicate RowsValid(rows: Rows) {
    forall k :: k in rows ==> rows[k].key == k && RowValid(rows[k])
  }

  /** The table with one more observation counted. */
  function Counted(rows: Rows, key: Key, seriesName: string): Rows {
    var row := if key in rows then rows[key]
               else Row(key, seriesName, Hashing.SeriesFingerprint(key.seriesHash), 0);
    rows[key := row.(count := row.count + 1)]
  }

  /** One row counts one more, or is new with a count of one, and the others are as they were. */
  lemma CountedMeans(rows: Rows, key: Key, seriesName: string)
    requires RowsValid(rows)
    ensures var counted := Counted(rows, key, seriesName);
            && counted.Keys == rows.Keys + {key}
            && (forall k :: k in rows && k != key ==> counted[k] == rows[k])
            && counted[key].key == key
            && counted[key].fingerprint == Hashing.SeriesFingerprint(key.seriesHash)
            && (key in rows ==>
                  counted[key].count == rows[key].count + 1 && counted[key].seriesName == rows[key].seriesName)
            && (key !in rows ==> counted[key].count == 1 && counted[key].seriesName == seriesName)
  {
    hide Hashing.SeriesFingerprint;
  }

  /**
   * What the end of the n-th observation of a window may do to the counted rows: nothing, unless
   * there is one row too many. Then half of them stay, as they are, and each row lost has a count
   * that no row kept falls below and that is a small share of the observations.
   */
  ghost predicate Trimmed(max: nat, n: int, counted: Rows, after: Rows) {
    && (|counted| <= 50 * max ==> after == counted)
    && (|counted| > 50 * max ==> |counted| == 50 * max + 1 && |after| == 25 * max)
    && (forall k :: k in after ==> k in counted && after[k] == counted[k])
    && (forall k :: k in counted && k !in after ==>
          (25 * max + 1) * counted[k].count <= n && forall j :: j in after ==> counted[k].count <= after[j].count)
  }

  ghost function EmptyTable(): Table<Key> {
    Table(multiset{}, multiset{}, 0)
  }

  ghost predicate CountsAre(rows: Rows, stored: multiset<Key>) {
    forall k :: stored[k] == if k in rows then rows[k].count else 0
  }

  /** The list has each row of the table once and nothing else, in some order. */
  ghost predicate ListsRows(list: seq<Row>, rows: Rows) {
    forall r :: multiset(list)[r] == if r.key in rows && rows[r.key] == r then 1 else 0
  }

  method RowsInSomeOrder(rows: Rows) returns (list: seq<Row>)
    requires RowsValid(rows)
    ensures ListsRows(list, rows) && |list| == |rows|
  {
    list := [];
    var left := rows;
    while left != map[]
      invariant RowsValid(left) && left.Keys <= rows.Keys
      invariant forall k :: k in left ==> left[k] == rows[k]
      invariant forall r :: multiset(list)[r] ==
                  if r.key in rows && rows[r.key] == r && r.key !in left then 1 else 0
      invariant |list| + |left| == |rows|
      decreases |left|
    {
      var k :| k in left;
      list := list + [left[k]];
      left := left - {k};
    }
  }

  lemma ListedOnce(list: seq<Row>, rows: Rows, i: nat, j: nat)
    requires ListsRows(list, rows) && i < j < |list|
    ensures list[i].key in rows && rows[list[i].key] == list[i]
    ensures list[i].key != list[j].key
  {
    assert list[i] in multiset(list) && list[j] in multiset(list);
    if list[i] == list[j] {
      TwoOccurrences(list, i, j);
    }
  }

  lemma TwoOccurrences<T>(list: seq<T>, i: nat, j: nat)
    requires i < j < |list| && list[i] == list[j]
    ensures multiset(list)[list[i]] >= 2
  {
    assert list == list[..j] + [list[j]] + list[j + 1..];
    assert list[i] in list[..j];
  }

  lemma ListedRow(list: seq<Row>, rows: Rows, i: nat)
    requires ListsRows(list, rows) && i < |list|
    ensures list[i].key in rows && rows[list[i].key] == list[i]
  {
    assert list[i] in multiset(list);
  }

  lemma RowIsListed(list: seq<Row>, rows: Rows, k: Key) returns (i: nat)
    requires ListsRows(list, rows) && RowsValid(rows) && k in rows
    ensures i < |list| && list[i] == rows[k]
  {
    assert rows[k] in multiset(list);
    i :| 0 <= i < |list| && list[i] == rows[k];
  }

  class TopSeriesCollector {
    const maxSeries: int
    const window: int
    var windowStart: int
    var entries: Rows
    /** The keys observed in the current window, and the tables it has gone through. */
    ghost var observed: seq<Key>
    ghost var tables: seq<Table<Key>>

    ghost predicate Valid()
      reads this
    {
      && 0 < maxSeries
      && RowsValid(entries)
      && Run(maxSeries, observed, tables)
      && CountsAre(entries, Last(tables).stored)
      && |entries| == |Keys(Last(tables).stored)|
    }

    constructor (maxSeries: int, window: int, now: int)
      requires 0 < maxSeries
      ensures Valid() && observed == [] && windowStart == now
    {
      this.maxSeries, this.window, windowStart := maxSeries, window, now;
      entries := map[];
      observed, tables := [], [EmptyTable()];
      new;
      assert Keys(Last(tables).stored) == {};
    }

    method ResetExpired(now: int)
      requires Valid()
      modifies this
      ensures Valid()
      ensures now - old(windowStart) < window ==>
                windowStart == old(windowStart) && entries == old(entries)
                && observed == old(observed) && tables == old(tables)
      ensures now - old(windowStart) >= window ==>
                windowStart == now && entries == map[] && observed == [] && tables == [EmptyTable()]
    {
      if now - windowStart < window {
        return;
      }
      windowStart := now;
      entries := map[];
      observed, tables := [], [EmptyTable()];
      assert Keys(Last(tables).stored) == {};
    }

    /**
     * Counts one finding. Its window goes on, or a new one starts with it. The table history of
     * the window grows by one table, and the rows are those counted, trimmed if there are too many.
     */
    method Observe(now: int, key: Key, seriesName: string)
      requires Valid()
      modifies this
      ensures Valid()
      ensures observed == (if now - old(windowStart) >= window then [] else old(observed)) + [key]
      ensures windowStart == if now - old(windowStart) >= window then now else old(windowStart)
      ensures tables == (if now - old(windowStart) >= window then [EmptyTable()] else old(tables)) + [Last(tables)]
      ensures var rows := if now - old(windowStart) >= window then map[] else old(entries);
              Trimmed(maxSeries, |observed|, Counted(rows, key, seriesName), entries)
    {
      hide RowsValid;
      hide CountsAre;
      hide Run;
      hide Trimmed;
      hide Counted;
      hide Keys;
      hide EmptyTable;
      ResetExpired(now);
      RunLength(maxSeries, observed, tables);
      hide Last;
      ghost var next;
      entries, next := CountAndTrim(maxSeries, entries, key, seriesName, observed, tables);
      observed, tables := observed + [key], tables + [next];
    }

    /**
     * The report has as many rows as exist and fit, in order, and no row left out is ahead of
     * a row shown. Nothing is said about the order of complete ties.
     */
    method Collect(now: int) returns (rows: seq<Row>)
      requires Valid()
      modifies this
      ensures Valid()
      ensures observed == if now - old(windowStart) >= window then [] else old(observed)
      ensures windowStart == if now - old(windowStart) >= window then now else old(windowStart)
      ensures entries == if now - old(windowStart) >= window then map[] else old(entries)
      ensures |rows| == Min(|entries|, maxSeries)
      ensures Sorting.Sorted(rows, Ahead)
      ensures forall i :: 0 <= i < |rows| ==> rows[i].key in entries && entries[rows[i].key] == rows[i]
      ensures forall i, j :: 0 <= i < j < |rows| ==> rows[i].key != rows[j].key
      ensures forall k, i :: k in entries && entries[k] !in rows && 0 <= i < |rows| ==> !Ahead(entries[k], rows[i])
      ensures forall i, j :: 0 <= i < j < |rows| ==>
                && rows[i].count >= rows[j].count
                && (rows[i].count == rows[j].count ==> AtMost(rows[i].seriesName, rows[j].seriesName))
                && (rows[i].count == rows[j].count && rows[i].seriesName == rows[j].seriesName ==>
                      rows[i].key.seriesHash <= rows[j].key.seriesHash)
      ensures forall k, i :: k in entries && entries[k] !in rows && 0 <= i < |rows| ==>
                && rows[i].count >= entries[k].count
                && (rows[i].count == entries[k].count ==> AtMost(rows[i].seriesName, entries[k].seriesName))
                && (rows[i].count == entries[k].count && rows[i].seriesName == entries[k].seriesName ==>
                      rows[i].key.seriesHash <= k.seriesHash)
    {
      ResetExpired(now);
      hide Run;
      hide Ahead;
      var list := RowsInSomeOrder(entries);
      AheadIsWeakOrder();
      list := Sorting.SortSlice(list, Ahead);
      rows := list;
      if |rows| > maxSeries {
        rows := list[..maxSeries];
      }
      TopOfList(list, rows, entries);
      ReportMeans(rows, entries);
    }
  }

  /** Whatever has been observed, the table is small and counts no key too often. */
  lemma TableIsSound(c: TopSeriesCollector)
    requires c.Valid()
    ensures |c.entries| <= 50 * c.maxSeries
    ensures forall k :: k in c.entries ==> 0 < c.entries[k].count <= multiset(c.observed)[k]
  {
    hide ObserveStep;
    var n := |c.observed|;
    WindowKeepsInv(c.maxSeries, c.observed, c.tables, n);
    assert c.observed[..n] == c.observed;
    forall k | k in c.entries
      ensures 0 < c.entries[k].count <= multiset(c.observed)[k]
    {
      assert Last(c.tables).stored[k] == c.entries[k].count;
    }
  }

  /** The count a table shows for a key; a key without a row counts as zero. */
  function RowCount(rows: Rows, k: Key): int {
    if k in rows then rows[k].count else 0
  }

  /** How far the count shown for a key can be below its observations in the current window. */
  lemma UndercountOfRow(c: TopSeriesCollector, k: Key) returns (p: nat, cost: nat)
    requires c.Valid()
    ensures var d := multiset(c.observed)[k] - RowCount(c.entries, k);
            && 0 <= d <= p * cost
            && (p > 0 ==> d + 25 * c.maxSeries * p + 25 * c.maxSeries * cost <= |c.observed|)
  {
    var n := |c.observed|;
    RunLength(c.maxSeries, c.observed, c.tables);
    TableIsSound(c);
    assert c.observed[..n] == c.observed;
    WindowKeepsInv(c.maxSeries, c.observed, c.tables, n);
    hide Run;
    assert Last(c.tables).stored[k] == RowCount(c.entries, k);
    cost := UndercountBound(c.maxSeries, c.observed, c.tables, n, k);
    p := c.tables[n].prunes;
  }

  /** A key observed t times is in the table unless the window could pay for losing it. */
  lemma MissingRowBound(c: TopSeriesCollector, k: Key) returns (p: nat, cost: nat)
    requires c.Valid() && k in c.observed && k !in c.entries
    ensures 1 <= p && 1 <= cost && multiset(c.observed)[k] <= p * cost
    ensures multiset(c.observed)[k] + 25 * c.maxSeries * p + 25 * c.maxSeries * cost <= |c.observed|
  {
    var n := |c.observed|;
    RunLength(c.maxSeries, c.observed, c.tables);
    hide Run;
    CountsMeanRows(c.entries, Last(c.tables).stored);
    assert c.observed[..n] == c.observed;
    p, cost := MissingKeyBound(c.maxSeries, c.observed, c.tables, n, k);
  }

  /** Sorted rows of a table, said on their fields. */
  lemma ReportMeans(rows: seq<Row>, entries: Rows)
    requires Sorting.Sorted(rows, Ahead) && RowsValid(entries)
    requires forall i :: 0 <= i < |rows| ==> rows[i].key in entries && entries[rows[i].key] == rows[i]
    requires forall k, i :: k in entries && entries[k] !in rows && 0 <= i < |rows| ==> !Ahead(entries[k], rows[i])
    ensures forall i, j :: 0 <= i < j < |rows| ==>
              && rows[i].count >= rows[j].count
              && (rows[i].count == rows[j].count ==> AtMost(rows[i].seriesName, rows[j].seriesName))
              && (rows[i].count == rows[j].count && rows[i].seriesName == rows[j].seriesName ==>
                    rows[i].key.seriesHash <= rows[j].key.seriesHash)
    ensures forall k, i :: k in entries && entries[k] !in rows && 0 <= i < |rows| ==>
              && rows[i].count >= entries[k].count
              && (rows[i].count == entries[k].count ==> AtMost(rows[i].seriesName, entries[k].seriesName))
              && (rows[i].count == entries[k].count && rows[i].seriesName == entries[k].seriesName ==>
                    rows[i].key.seriesHash <= k.seriesHash)
  {
    hide Ahead;
    hide RowValid;
    hide AtMost;
    forall i, j | 0 <= i < j < |rows|
      ensures && rows[i].count >= rows[j].count
              && (rows[i].count == rows[j].count ==> AtMost(rows[i].seriesName, rows[j].seriesName))
              && (rows[i].count == rows[j].count && rows[i].seriesName == rows[j].seriesName ==>
                    rows[i].key.seriesHash <= rows[j].key.seriesHash)
    {
      assert RowValid(rows[i]) && RowValid(rows[j]);
      NotAheadMeans(rows[i], rows[j]);
    }
    forall k, i | k in entries && entries[k] !in rows && 0 <= i < |rows|
      ensures && rows[i].count >= entries[k].count
              && (rows[i].count == entries[k].count ==> AtMost(rows[i].seriesName, entries[k].seriesName))
              && (rows[i].count == entries[k].count && rows[i].seriesName == entries[k].seriesName ==>
                    rows[i].key.seriesHash <= k.seriesHash)
    {
      assert RowValid(rows[i]) && RowValid(entries[k]) && entries[k].key == k;
      NotAheadMeans(rows[i], entries[k]);
    }
  }

  lemma TopOfList(list: seq<Row>, rows: seq<Row>, entries: Rows)
    requires ListsRows(list, entries) && RowsValid(entries) && Sorting.Sorted(list, Ahead)
    requires |rows| <= |list| && rows == list[..|rows|]
    ensures Sorting.Sorted(rows, Ahead)
    ensures forall i :: 0 <= i < |rows| ==> rows[i].key in entries && entries[rows[i].key] == rows[i]
    ensures forall i, j :: 0 <= i < j < |rows| ==> rows[i].key != rows[j].key
    ensures forall k, i :: k in entries && entries[k] !in rows && 0 <= i < |rows| ==> !Ahead(entries[k], rows[i])
  {
    hide Ahead;
    assert forall i :: 0 <= i < |rows| ==> rows[i] == list[i] && list[i] in rows;
    forall i | 0 <= i < |rows|
      ensures rows[i].key in entries && entries[rows[i].key] == rows[i]
    {
      ListedRow(list, entries, i);
    }
    forall i, j | 0 <= i < j < |rows|
      ensures rows[i].key != rows[j].key
    {
      ListedOnce(list, entries, i, j);
    }
    forall k, i | k in entries && entries[k] !in rows && 0 <= i < |rows|
      ensures !Ahead(entries[k], rows[i])
    {
      var at := RowIsListed(list, entries, k);
      assert rows[i] == list[i];
    }
  }

  lemma CountedIsAdded(rows: Rows, stored: multiset<Key>, key: Key, seriesName: string)
    requires RowsValid(rows) && CountsAre(rows, stored)
    ensures var counted := Counted(rows, key, seriesName);
            && RowsValid(counted) && CountsAre(counted, stored + multiset{key})
            && |counted| == |Keys(stored + multiset{key})|
  {
    hide Hashing.SeriesFingerprint;
    CountsGiveSize(Counted(rows, key, seriesName), stored + multiset{key});
  }

  /** What the bound on lost counts says about rows. */
  lemma PrunedRows(max: nat, observed: seq<Key>, t: Table<Key>, key: Key, counted: Rows, after: Rows, next: Table<Key>)
    requires 0 < max && TableInv(max, observed, t) && ObserveStep(max, t, key, next) && |counted| > 50 * max
    requires RowsValid(counted) && CountsAre(counted, t.stored + multiset{key})
    requires RowsValid(after) && CountsAre(after, next.stored)
    ensures |counted| == 50 * max + 1 && |after| == 25 * max
    ensures forall k :: k in counted && k !in after ==>
              (25 * max + 1) * counted[k].count <= |observed| + 1
    ensures forall k, j :: k in counted && k !in after && j in after ==> counted[k].count <= after[j].count
  {
    hide RowsValid;
    hide CountsAre;
    hide TableInv;
    hide IsPrune;
    var added := t.stored + multiset{key};
    CountsGiveSize(counted, added);
    CountsGiveSize(after, next.stored);
    CountsMeanRows(counted, added);
    CountsMeanRows(after, next.stored);
    assert IsPrune(added, next.stored, 25 * max) && next.prunes != t.prunes;
    StepErrorBound(max, observed, t, key, next);
    hide ObserveStep;
    hide Keys;
    HeavierKept(added, next.stored, 25 * max);
  }

  lemma HeavierKept<K(!new)>(before: multiset<K>, after: multiset<K>, keep: int)
    requires IsPrune(before, after, keep)
    ensures forall k, d :: k in after && d in before && d !in after ==> before[d] <= after[k]
  {
  }

  lemma CountsMeanRows(rows: Rows, stored: multiset<Key>)
    requires RowsValid(rows) && CountsAre(rows, stored)
    ensures forall k :: k in rows <==> k in stored
    ensures forall k :: k in rows ==> rows[k].count == stored[k]
  {
    hide Hashing.SeriesFingerprint;
  }

  lemma ObservationDone(
    max: nat, observed: seq<Key>, tables: seq<Table<Key>>, key: Key, counted: Rows, after: Rows, next: Table<Key>)
    requires 0 < max && Run(max, observed, tables) && ObserveStep(max, Last(tables), key, next)
    requires RowsValid(counted) && CountsAre(counted, Last(tables).stored + multiset{key})
    requires RowsValid(after) && CountsAre(after, next.stored)
    requires forall k :: k in after ==> k in counted && after[k] == counted[k]
    requires |counted| <= 50 * max ==> after == counted
    ensures Trimmed(max, |observed| + 1, counted, after)
    ensures |after| == |Keys(next.stored)|
    ensures Run(max, observed + [key], tables + [next]) && Last(tables + [next]) == next
  {
    hide RowsValid;
    hide CountsAre;
    hide ObserveStep;
    RunLength(max, observed, tables);
    InvAt(max, observed, tables, |observed|);
    assert observed[..|observed|] == observed;
    RunGoesOn(max, observed, tables, key, next);
    hide Run;
    hide TableInv;
    CountsGiveSize(after, next.stored);
    if |counted| > 50 * max {
      PrunedRows(max, observed, Last(tables), key, counted, after, next);
    }
  }

  lemma CountsGiveSize(rows: Rows, stored: multiset<Key>)
    requires RowsValid(rows) && CountsAre(rows, stored)
    ensures |rows| == |Keys(stored)|
  {
    assert Keys(stored) == rows.Keys;
  }

  lemma StepDone(max: int, t: Table<Key>, key: Key, next: Table<Key>, added: multiset<Key>)
    requires added == t.stored + multiset{key}
    requires |Keys(added)| <= 50 * max ==> next == Table(added, t.dropped + (added - added), t.prunes)
    requires |Keys(added)| > 50 * max ==>
               && IsPrune(added, next.stored, 25 * max)
               && next == Table(next.stored, t.dropped + (added - next.stored), t.prunes + 1)
    ensures ObserveStep(max, t, key, next)
  {
    hide IsPrune;
    assert added - added == multiset{};
  }

  /** Adds to the key's count, or adds its row, and prunes a table that has grown too large. */
  method CountAndTrim(
    maxSeries: int, rows: Rows, key: Key, seriesName: string, ghost observed: seq<Key>, ghost tables: seq<Table<Key>>)
    returns (after: Rows, ghost next: Table<Key>)
    requires 0 < maxSeries && RowsValid(rows) && Run(maxSeries, observed, tables) && CountsAre(rows, Last(tables).stored)
    ensures RowsValid(after) && CountsAre(after, next.stored) && |after| == |Keys(next.stored)|
    ensures Run(maxSeries, observed + [key], tables + [next]) && Last(tables + [next]) == next
    ensures Trimmed(maxSeries, |observed| + 1, Counted(rows, key, seriesName), after)
  {
    hide RowsValid;
    hide RowValid;
    hide CountsAre;
    hide Run;
    hide ObserveStep;
    hide IsPrune;
    hide Trimmed;
    hide Hashing.SeriesFingerprint;
    RunLength(maxSeries, observed, tables);
    ghost var t := Last(tables);
    ghost var added := t.stored + multiset{key};
    CountedIsAdded(rows, t.stored, key, seriesName);
    var counted := Counted(rows, key, seriesName);
    hide Counted;
    after := counted;
    ghost var stored, prunes := added, t.prunes;
    if |counted| > maxSeries * 50 {
      after := Prune(counted, maxSeries, added);
      stored :| CountsAre(after, stored) && IsPrune(added, stored, 25 * maxSeries);
      prunes := prunes + 1;
    }
    next := Table(stored, t.dropped + (added - stored), prunes);
    StepDone(maxSeries, t, key, next, added);
    ObservationDone(maxSeries, observed, tables, key, counted, after, next);
  }

  /** next has a row for exactly the keys of the first rows of the list. */
  ghost predicate TakesFirst(next: Rows, list: seq<Row>, keep: nat)
    requires keep <= |list|
  {
    |next| == keep && forall k :: k in next <==> exists j :: 0 <= j < keep && list[j].key == k
  }

  /** Keeps the rows with the highest counts; which of several equal ones is left open. */
  method Prune(entries: Rows, maxSeries: int, ghost stored: multiset<Key>) returns (next: Rows)
    requires 0 < maxSeries && RowsValid(entries) && CountsAre(entries, stored)
    requires |entries| > 50 * maxSeries
    ensures RowsValid(next)
    ensures forall k :: k in next ==> k in entries && next[k] == entries[k]
    ensures exists after :: CountsAre(next, after) && IsPrune(stored, after, 25 * maxSeries)
  {
    hide ListsRows;
    hide RowsValid;
    hide CountsAre;
    hide IsPrune;
    hide Sorting.Sorted;
    hide Sorting.StrictWeakOrder;
    hide HigherCount;
    hide TakesFirst;
    var unsorted := RowsInSomeOrder(entries);
    HigherCountIsWeakOrder();
    var list := Sorting.SortSlice(unsorted, HigherCount);
    SameRowsListed(unsorted, list, entries);
    var keep := maxSeries * 25;
    if keep < maxSeries {
      keep := maxSeries;
    }
    if |list| <= keep {
      return entries;
    }
    next := FirstRows(list, entries, keep);
    SomeRowsValid(entries, next);
    KeptTop(entries, next, list, keep, stored);
  }

  lemma SameRowsListed(a: seq<Row>, b: seq<Row>, rows: Rows)
    requires ListsRows(a, rows) && multiset(a) == multiset(b)
    ensures ListsRows(b, rows)
  {
  }

  lemma SomeRowsValid(rows: Rows, some: Rows)
    requires RowsValid(rows) && forall k :: k in some ==> k in rows && some[k] == rows[k]
    ensures RowsValid(some)
  {
    hide RowValid;
  }

  method FirstRows(list: seq<Row>, entries: Rows, keep: nat) returns (next: Rows)
    requires RowsValid(entries) && ListsRows(list, entries) && keep <= |list|
    ensures TakesFirst(next, list, keep)
    ensures forall k :: k in next ==> k in entries && next[k] == entries[k]
  {
    hide RowsValid;
    hide ListsRows;
    hide TakesFirst;
    next := map[];
    TakesNone(list);
    for i := 0 to keep
      invariant TakesFirst(next, list, i)
      invariant forall k :: k in next ==> k in entries && next[k] == entries[k]
    {
      TakesOneMore(next, list, i, entries);
      ListedRow(list, entries, i);
      next := next[list[i].key := list[i]];
    }
  }

  lemma TakesNone(list: seq<Row>)
    ensures TakesFirst(map[], list, 0)
  {
  }

  lemma TakesOneMore(next: Rows, list: seq<Row>, n: nat, entries: Rows)
    requires n < |list| && TakesFirst(next, list, n) && ListsRows(list, entries)
    ensures TakesFirst(next[list[n].key := list[n]], list, n + 1)
  {
    forall j | 0 <= j < n
      ensures list[j].key != list[n].key
    {
      ListedOnce(list, entries, j, n);
    }
    hide ListsRows;
    assert list[n].key !in next;
  }

  /** No row left out of the first ones of a list sorted by count has a higher count than one of them. */
  lemma FirstAreHighest(entries: Rows, next: Rows, list: seq<Row>, keep: nat, k: Key, d: Key)
    requires RowsValid(entries) && ListsRows(list, entries) && Sorting.Sorted(list, HigherCount) && keep <= |list|
    requires TakesFirst(next, list, keep)
    requires k in next && d in entries && d !in next
    ensures k in entries && entries[d].count <= entries[k].count
  {
    hide RowValid;
    var i :| 0 <= i < keep && list[i].key == k;
    var j := RowIsListed(list, entries, d);
    ListedRow(list, entries, i);
    assert j >= keep;
    assert !HigherCount(list[j], list[i]);
  }

  lemma KeptTop(entries: Rows, next: Rows, list: seq<Row>, keep: nat, stored: multiset<Key>)
    requires RowsValid(entries) && CountsAre(entries, stored) && RowsValid(next)
    requires ListsRows(list, entries) && Sorting.Sorted(list, HigherCount) && keep <= |list| && TakesFirst(next, list, keep)
    requires forall k :: k in next ==> k in entries && next[k] == entries[k]
    ensures exists after :: CountsAre(next, after) && IsPrune(stored, after, keep)
  {
    hide RowsValid;
    hide ListsRows;
    hide Sorting.Sorted;
    var after := Restricted(stored, next.Keys);
    CountsMeanRows(entries, stored);
    assert CountsAre(next, after);
    CountsMeanRows(next, after);
    CountsGiveSize(next, after);
    hide CountsAre;
    assert |next| == keep;
    hide TakesFirst;
    forall k, d | k in after && d in stored && d !in after
      ensures stored[d] <= stored[k]
    {
      FirstAreHighest(entries, next, list, keep, k, d);
    }
  }

  /** The part of a multiset on the given keys. */
  ghost function Restricted<K(!new)>(m: multiset<K>, keys: set<K>): (r: multiset<K>)
    ensures forall k :: r[k] == if k in keys then m[k] else 0
  {
    if keys == {} then multiset{}
    else
      var k :| k in keys;
      Restricted(m, keys - {k})[k := m[k]]
  }
}
