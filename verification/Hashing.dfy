/**
 * The canonical series hash. The digest is an arbitrary function of the bytes written to it,
 * so what matters is which bytes are written.
 */
module Hashing {
  import opened Prelude
  import opened Strings
  import opened Validation
  import Sorting

  const NUL: char := '\0'

  /** The order of the canonical form: by name, then by value. */
  predicate PairLess(a: Label, b: Label) {
    if a.name == b.name then Less(a.value, b.value) else Less(a.name, b.name)
  }

  lemma PairLessIsTotalOrder(a: Label, b: Label, c: Label)
    ensures !PairLess(a, a)
    ensures PairLess(a, b) && PairLess(b, c) ==> PairLess(a, c)
    ensures PairLess(a, b) || a == b || PairLess(b, a)
    ensures PairLess(a, b) ==> !PairLess(b, a)
  {
    LessIsIrreflexive(a.name);
    LessIsIrreflexive(a.value);
    LessIsTotal(a.name, b.name);
    LessIsTotal(a.value, b.value);
    if PairLess(a, b) {
      if a.name == b.name {
        LessIsAsymmetric(a.value, b.value);
      } else {
        LessIsAsymmetric(a.name, b.name);
      }
      if PairLess(b, c) {
        if a.name == b.name == c.name {
          LessIsTransitive(a.value, b.value, c.value);
        } else if a.name != b.name && b.name != c.name {
          LessIsTransitive(a.name, b.name, c.name);
          if a.name == c.name {
            LessIsAsymmetric(a.name, b.name);
          }
        }
      }
    }
  }

  lemma PairLessIsWeakOrder()
    ensures Sorting.StrictWeakOrder(PairLess)
  {
    forall a, b
      ensures PairLess(a, b) ==> !PairLess(b, a)
    {
      PairLessIsTotalOrder(a, b, a);
    }
    forall a, b, c | !PairLess(b, a) && !PairLess(c, b)
      ensures !PairLess(c, a)
    {
      PairLessIsTotalOrder(a, b, c);
      PairLessIsTotalOrder(b, c, a);
      PairLessIsTotalOrder(c, a, b);
    }
  }

  ghost predicate InCanonicalOrder(labels: seq<Label>) {
    Sorting.Sorted(labels, PairLess)
  }

  /** The bytes written for a list of labels. */
  function Stream(labels: seq<Label>): string {
    if labels == [] then ""
    else labels[0].name + [NUL] + labels[0].value + [NUL] + Stream(labels[1..])
  }

  /** The bytes written for one label. */
  function Bytes(l: Label): string {
    l.name + [NUL] + l.value + [NUL]
  }

  lemma StreamOfMore(first: Label, rest: seq<Label>)
    ensures Stream([first] + rest) == Bytes(first) + Stream(rest)
  {
    assert ([first] + rest)[1..] == rest;
  }

  lemma {:induction false} StreamAppend(labels: seq<Label>, last: Label)
    ensures Stream(labels + [last]) == Stream(labels) + Bytes(last)
  {
    hide Bytes;
    if labels == [] {
      assert labels + [last] == [last] + [];
      StreamOfMore(last, []);
    } else {
      StreamAppend(labels[1..], last);
      assert labels == [labels[0]] + labels[1..];
      assert labels + [last] == [labels[0]] + (labels[1..] + [last]);
      StreamOfMore(labels[0], labels[1..]);
      StreamOfMore(labels[0], labels[1..] + [last]);
      hide Stream;
    }
  }

  /** The labels in canonical order. */
  function Canonical(labels: seq<Label>): (r: seq<Label>)
    ensures multiset(r) == multiset(labels) && |r| == |labels|
    ensures InCanonicalOrder(r)
  {
    PairLessIsWeakOrder();
    if labels == [] then []
    else
      assert labels == [labels[0]] + labels[1..];
      Sorting.Insert(labels[0], Canonical(labels[1..]), PairLess)
  }

  /** In canonical order names go up, and at equal names values do. */
  lemma CanonicalMeans(labels: seq<Label>, i: nat, j: nat)
    requires i < j < |labels|
    ensures AtMost(Canonical(labels)[i].name, Canonical(labels)[j].name)
    ensures Canonical(labels)[i].name == Canonical(labels)[j].name ==>
              AtMost(Canonical(labels)[i].value, Canonical(labels)[j].value)
  {
    hide Canonical;
    var a, b := Canonical(labels)[i], Canonical(labels)[j];
    assert !PairLess(b, a);
    LessIsIrreflexive(a.name);
    hide Less;
  }

  lemma SmallestComesFirst(a: seq<Label>, b: seq<Label>)
    requires InCanonicalOrder(a) && InCanonicalOrder(b) && multiset(a) == multiset(b) && a != []
    ensures b != [] && a[0] == b[0]
  {
    assert a[0] in multiset(b);
    assert b != [];
    assert b[0] in multiset(a);
    var i :| 0 <= i < |b| && b[i] == a[0];
    var j :| 0 <= j < |a| && a[j] == b[0];
    PairLessIsTotalOrder(a[0], b[0], a[0]);
    hide PairLess;
    assert i != 0 ==> !PairLess(b[i], b[0]);
    assert j != 0 ==> !PairLess(a[j], a[0]);
  }

  /** There is only one way to put given labels in canonical order. */
  lemma {:induction false} CanonicalOrderIsUnique(a: seq<Label>, b: seq<Label>)
    requires InCanonicalOrder(a) && InCanonicalOrder(b) && multiset(a) == multiset(b)
    ensures a == b
  {
    hide PairLess;
    if a == [] {
      assert |multiset(b)| == 0;
    } else {
      SmallestComesFirst(a, b);
      TailElements(a);
      TailElements(b);
      CanonicalOrderIsUnique(a[1..], b[1..]);
      assert a == [a[0]] + a[1..] && b == [b[0]] + b[1..];
    }
  }

  lemma TailElements<T>(s: seq<T>)
    requires s != []
    ensures multiset(s[1..]) == multiset(s) - multiset{s[0]}
  {
    assert s == [s[0]] + s[1..];
  }

  /** The canonical form, and with it the hash, does not depend on the order of the labels. */
  lemma CanonicalIgnoresOrder(a: seq<Label>, b: seq<Label>)
    ensures Canonical(a) == Canonical(b) <==> multiset(a) == multiset(b)
  {
    if multiset(a) == multiset(b) {
      CanonicalOrderIsUnique(Canonical(a), Canonical(b));
    }
  }

  // Which label lists share a byte stream

  /** The pieces between the NUL bytes of a string. */
  function Cut(s: string): (pieces: seq<string>)
    ensures pieces != [] && forall p :: p in pieces ==> NUL !in p
  {
    if s == "" then [""]
    else
      var rest := Cut(s[1..]);
      if s[0] == NUL then [""] + rest else [[s[0]] + rest[0]] + rest[1..]
  }

  function Pieces(labels: seq<Label>): (pieces: seq<string>)
    ensures forall p :: p in pieces ==> NUL !in p
  {
    if labels == [] then [] else Cut(labels[0].name) + Cut(labels[0].value) + Pieces(labels[1..])
  }

  /** Each piece followed by a NUL byte. */
  function Terminated(pieces: seq<string>): string {
    if pieces == [] then "" else pieces[0] + [NUL] + Terminated(pieces[1..])
  }

  lemma {:induction false} TerminatedConcat(p: seq<string>, q: seq<string>)
    ensures Terminated(p + q) == Terminated(p) + Terminated(q)
  {
    if p == [] {
      assert p + q == q;
    } else {
      TerminatedConcat(p[1..], q);
      assert (p + q)[1..] == p[1..] + q;
    }
  }

  lemma {:induction false} TerminatedCut(s: string)
    ensures Terminated(Cut(s)) == s + [NUL]
  {
    if s == "" {
      assert Terminated([""]) == "" + [NUL] + Terminated([""][1..]);
    } else {
      TerminatedCut(s[1..]);
      var rest := Cut(s[1..]);
      if s[0] == NUL {
        assert ([""] + rest)[1..] == rest;
      } else {
        assert ([[s[0]] + rest[0]] + rest[1..])[1..] == rest[1..];
        assert [s[0]] + (rest[0] + [NUL] + Terminated(rest[1..])) == [s[0]] + rest[0] + [NUL] + Terminated(rest[1..]);
      }
      assert s + [NUL] == [s[0]] + (s[1..] + [NUL]);
    }
  }

  lemma {:induction false} StreamIsTerminatedPieces(labels: seq<Label>)
    ensures Stream(labels) == Terminated(Pieces(labels))
  {
    if labels != [] {
      StreamIsTerminatedPieces(labels[1..]);
      TerminatedCut(labels[0].name);
      TerminatedCut(labels[0].value);
      TerminatedConcat(Cut(labels[0].name), Cut(labels[0].value));
      TerminatedConcat(Cut(labels[0].name) + Cut(labels[0].value), Pieces(labels[1..]));
    }
  }

  lemma SplitAtNul(x: string, s: string, y: string, t: string)
    requires NUL !in x && NUL !in y
    requires x + [NUL] + s == y + [NUL] + t
    ensures x == y && s == t
  {
    var u, v := x + [NUL] + s, y + [NUL] + t;
    assert u[|x|] == NUL && v[|y|] == NUL;
    assert forall i :: 0 <= i < |x| ==> u[i] == x[i] != NUL;
    assert forall i :: 0 <= i < |y| ==> v[i] == y[i] != NUL;
    assert |x| == |y|;
    assert x == u[..|x|] == v[..|y|] == y;
    assert s == u[|x| + 1..] == v[|y| + 1..] == t;
  }

  lemma {:induction false} TerminatedIsInjective(p: seq<string>, q: seq<string>)
    requires (forall x :: x in p ==> NUL !in x) && (forall x :: x in q ==> NUL !in x)
    requires Terminated(p) == Terminated(q)
    ensures p == q
  {
    if p != [] && q != [] {
      SplitAtNul(p[0], Terminated(p[1..]), q[0], Terminated(q[1..]));
      TerminatedIsInjective(p[1..], q[1..]);
      assert p == [p[0]] + p[1..] && q == [q[0]] + q[1..];
    }
  }

  /** Two lists give the digest the same bytes exactly when cutting at NUL bytes leaves the same pieces. */
  lemma SameStreamIffSamePieces(a: seq<Label>, b: seq<Label>)
    ensures Stream(a) == Stream(b) <==> Pieces(a) == Pieces(b)
  {
    StreamIsTerminatedPieces(a);
    StreamIsTerminatedPieces(b);
    if Stream(a) == Stream(b) {
      TerminatedIsInjective(Pieces(a), Pieces(b));
    }
  }

  predicate NulFree(labels: seq<Label>) {
    forall i :: 0 <= i < |labels| ==> NUL !in labels[i].name && NUL !in labels[i].value
  }

  lemma {:induction false} CutNulFree(s: string)
    requires NUL !in s
    ensures Cut(s) == [s]
  {
    if s != "" {
      CutNulFree(s[1..]);
      assert s == [s[0]] + s[1..];
    }
  }

  /** Without NUL bytes the pieces are the name and the value of each label in turn. */
  lemma {:induction false} PiecesAreNamesAndValues(labels: seq<Label>, i: nat)
    requires NulFree(labels) && i < |labels|
    ensures |Pieces(labels)| == 2 * |labels|
    ensures Pieces(labels)[2 * i] == labels[i].name && Pieces(labels)[2 * i + 1] == labels[i].value
  {
    CutNulFree(labels[0].name);
    CutNulFree(labels[0].value);
    var rest := labels[1..];
    assert Pieces(labels) == [labels[0].name, labels[0].value] + Pieces(rest);
    if rest != [] {
      PiecesAreNamesAndValues(rest, if i > 0 then i - 1 else 0);
    } else {
      assert Pieces(rest) == [];
    }
  }

  /** Without NUL bytes the pieces are the names and values themselves. */
  lemma {:induction false} PiecesOfNulFree(a: seq<Label>, b: seq<Label>)
    requires NulFree(a) && NulFree(b) && Pieces(a) == Pieces(b)
    ensures a == b
  {
    if a != [] && b != [] {
      CutNulFree(a[0].name);
      CutNulFree(a[0].value);
      CutNulFree(b[0].name);
      CutNulFree(b[0].value);
      assert Pieces(a)[0] == Pieces(b)[0] && Pieces(a)[1] == Pieces(b)[1];
      assert Pieces(a)[2..] == Pieces(a[1..]) && Pieces(b)[2..] == Pieces(b[1..]);
      PiecesOfNulFree(a[1..], b[1..]);
      assert a == [a[0]] + a[1..] && b == [b[0]] + b[1..];
    }
  }

  lemma CanonicalIsNulFree(labels: seq<Label>)
    requires NulFree(labels)
    ensures NulFree(Canonical(labels))
  {
    forall l | l in Canonical(labels)
      ensures NUL !in l.name && NUL !in l.value
    {
      assert l in multiset(Canonical(labels));
      assert l in labels;
    }
  }

  /** For labels without NUL bytes, equal hash input means the same labels, and nothing less. */
  lemma SameInputIffSameLabels(a: seq<Label>, b: seq<Label>)
    requires NulFree(a) && NulFree(b)
    ensures Stream(Canonical(a)) == Stream(Canonical(b)) <==> multiset(a) == multiset(b)
  {
    CanonicalIsNulFree(a);
    CanonicalIsNulFree(b);
    CanonicalIgnoresOrder(a, b);
    if Stream(Canonical(a)) == Stream(Canonical(b)) {
      SameStreamIffSamePieces(Canonical(a), Canonical(b));
      PiecesOfNulFree(Canonical(a), Canonical(b));
    }
  }

  const ONE_LABEL: seq<Label> := [Label("__name__", "up"), Label("a", "b\0c\0d")]
  const TWO_LABELS: seq<Label> := [Label("__name__", "up"), Label("a", "b"), Label("c", "d")]

  /** A NUL inside a value can imitate a label boundary: these two well-formed series always collide. */
  lemma NulBytesCollide(limits: Limits)
    requires 3 <= limits.maxLabels && 5 <= limits.maxLabelValueLength
    ensures WellFormedSeries(ONE_LABEL, limits) && WellFormedSeries(TWO_LABELS, limits)
    ensures multiset(ONE_LABEL) != multiset(TWO_LABELS)
    ensures Stream(Canonical(ONE_LABEL)) == Stream(Canonical(TWO_LABELS))
  {
    CollidingAreWellFormed(limits);
    CollidingAreCanonical();
    hide InCanonicalOrder;
    hide WellFormedSeries;
    CanonicalOrderIsUnique(ONE_LABEL, Canonical(ONE_LABEL));
    CanonicalOrderIsUnique(TWO_LABELS, Canonical(TWO_LABELS));
    CollidingStreams();
    assert |multiset(ONE_LABEL)| == 2 && |multiset(TWO_LABELS)| == 3;
  }

  lemma CollidingAreWellFormed(limits: Limits)
    requires 3 <= limits.maxLabels && 5 <= limits.maxLabelValueLength
    ensures WellFormedSeries(ONE_LABEL, limits) && WellFormedSeries(TWO_LABELS, limits)
  {
    assert ValidMetricName("up") && ValidLabelName("__name__") && ValidLabelName("a") && ValidLabelName("c");
    hide ValidMetricName;
    hide ValidLabelName;
    assert Less("__name__", "a") && Less("a", "c") && Less("__name__", "c");
    hide Less;
    assert ONE_LABEL[0] == TWO_LABELS[0] == Label("__name__", "up");
  }

  lemma CollidingAreCanonical()
    ensures InCanonicalOrder(ONE_LABEL) && InCanonicalOrder(TWO_LABELS)
  {
    assert Less("__name__", "a") && Less("a", "c") && Less("__name__", "c");
    LessIsAsymmetric("__name__", "a");
    LessIsAsymmetric("a", "c");
    LessIsAsymmetric("__name__", "c");
    hide Less;
  }

  lemma CollidingStreams()
    ensures Stream(ONE_LABEL) == Stream(TWO_LABELS)
  {
    var a, b := ONE_LABEL[1..], TWO_LABELS[1..];
    assert a == [Label("a", "b\0c\0d")] && b == [Label("a", "b"), Label("c", "d")];
    assert Stream(a) == "a" + [NUL] + "b\0c\0d" + [NUL] + Stream(a[1..]) == "a\0b\0c\0d\0";
    assert b[1..] == [Label("c", "d")];
    assert Stream(b[1..]) == "c" + [NUL] + "d" + [NUL] + Stream(b[1..][1..]) == "c\0d\0";
    assert Stream(b) == "a" + [NUL] + "b" + [NUL] + Stream(b[1..]) == "a\0b\0c\0d\0";
    assert Stream(ONE_LABEL) == "__name__" + [NUL] + "up" + [NUL] + Stream(a);
    assert Stream(TWO_LABELS) == "__name__" + [NUL] + "up" + [NUL] + Stream(b);
  }

  // The code

  /** Comparing neighbours decides whether the whole list is in canonical order. */
  method LabelsInCanonicalOrder(labels: seq<Label>) returns (ordered: bool)
    ensures ordered <==> InCanonicalOrder(labels)
  {
    hide Less;
    hide Sorting.StrictWeakOrder;
    PairLessIsWeakOrder();
    var idx := 1;
    while idx < |labels|
      invariant 1 <= idx <= |labels| || |labels| == 0
      invariant idx <= |labels| ==> InCanonicalOrder(labels[..idx])
    {
      var prev, curr := labels[idx - 1], labels[idx];
      assert PairLess(curr, prev) ==> !InCanonicalOrder(labels);
      if Less(curr.name, prev.name) {
        NameDecides(curr, prev);
        return false;
      }
      if curr.name == prev.name && Less(curr.value, prev.value) {
        return false;
      }
      ExtendOrder(labels, idx);
      idx := idx + 1;
    }
    assert labels[..|labels|] == labels;
    return true;
  }

  lemma NameDecides(a: Label, b: Label)
    requires Less(a.name, b.name)
    ensures PairLess(a, b)
  {
    LessIsIrreflexive(a.name);
  }

  lemma ExtendOrder(labels: seq<Label>, n: nat)
    requires 0 < n < |labels| && InCanonicalOrder(labels[..n]) && !PairLess(labels[n], labels[n - 1])
    ensures InCanonicalOrder(labels[..n + 1])
  {
    forall i | 0 <= i < n
      ensures !PairLess(labels[n], labels[i])
    {
      PairLessIsWeakOrder();
      hide PairLess;
      assert i < n - 1 ==> !PairLess(labels[..n][n - 1], labels[..n][i]);
    }
  }

  method HashLabels(labels: seq<Label>, digest: string -> u64) returns (sum: u64)
    ensures sum == digest(Stream(labels))
  {
    var written := "";
    for idx := 0 to |labels|
      invariant written == Stream(labels[..idx])
    {
      StreamAppend(labels[..idx], labels[idx]);
      assert labels[..idx + 1] == labels[..idx] + [labels[idx]];
      written := written + labels[idx].name;
      written := written + [NUL];
      written := written + labels[idx].value;
      written := written + [NUL];
    }
    assert labels[..|labels|] == labels;
    return digest(written);
  }

  method SortedPairs(labels: seq<Label>) returns (pairs: seq<Label>)
    ensures pairs == Canonical(labels)
  {
    PairLessIsWeakOrder();
    pairs := Sorting.SortSlice(labels, PairLess);
    CanonicalOrderIsUnique(pairs, Canonical(labels));
  }

  /** Fast path and slow path hash the same bytes. */
  method CanonicalHash(labels: seq<Label>, digest: string -> u64) returns (sum: u64)
    ensures sum == digest(Stream(Canonical(labels)))
  {
    var ordered := LabelsInCanonicalOrder(labels);
    if ordered {
      CanonicalOrderIsUnique(labels, Canonical(labels));
      sum := HashLabels(labels, digest);
    } else {
      var pairs := SortedPairs(labels);
      sum := HashLabels(pairs, digest);
    }
  }

  // Fingerprints

  function HexDigit(d: nat): char
    requires d < 16
  {
    if d < 10 then '0' + d as char else 'a' + (d - 10) as char
  }

  /** The last k hexadecimal digits of n, leading zeroes included. */
  function HexDigits(n: nat, k: nat): (s: string)
    ensures |s| == k
  {
    if k == 0 then "" else HexDigits(n / 16, k - 1) + [HexDigit(n % 16)]
  }

  function SeriesFingerprint(hash: u64): string {
    HexDigits(hash, 16)
  }

  function Pow16(k: nat): nat {
    if k == 0 then 1 else 16 * Pow16(k - 1)
  }

  lemma {:induction false} LessOfAppend(a: string, b: string, c: char, d: char)
    requires |a| == |b|
    ensures Less(a + [c], b + [d]) <==> Less(a, b) || (a == b && c < d)
  {
    if a == [] {
      assert a + [c] == [c] && b + [d] == [d];
    } else {
      LessOfAppend(a[1..], b[1..], c, d);
      assert (a + [c])[1..] == a[1..] + [c] && (b + [d])[1..] == b[1..] + [d];
      assert a == [a[0]] + a[1..] && b == [b[0]] + b[1..];
    }
  }

  lemma {:induction false} HexDigitsKeepOrder(a: nat, b: nat, k: nat)
    requires a < Pow16(k) && b < Pow16(k)
    ensures Less(HexDigits(a, k), HexDigits(b, k)) <==> a < b
    ensures HexDigits(a, k) == HexDigits(b, k) <==> a == b
  {
    if k > 0 {
      HexDigitsKeepOrder(a / 16, b / 16, k - 1);
      LessOfAppend(HexDigits(a / 16, k - 1), HexDigits(b / 16, k - 1), HexDigit(a % 16), HexDigit(b % 16));
      assert HexDigits(a, k)[..k - 1] == HexDigits(a / 16, k - 1) && HexDigits(a, k)[k - 1] == HexDigit(a % 16);
      assert HexDigits(b, k)[..k - 1] == HexDigits(b / 16, k - 1) && HexDigits(b, k)[k - 1] == HexDigit(b % 16);
    }
  }

  /** What a lower-case hexadecimal digit stands for. */
  function DigitValue(c: char): int {
    if '0' <= c <= '9' then c as int - '0' as int
    else if 'a' <= c <= 'f' then 10 + (c as int - 'a' as int)
    else -1
  }

  function ReadHex(s: string): int {
    if s == "" then 0 else 16 * ReadHex(s[..|s| - 1]) + DigitValue(s[|s| - 1])
  }

  lemma {:induction false} HexDigitsRead(n: nat, k: nat)
    requires n < Pow16(k)
    ensures ReadHex(HexDigits(n, k)) == n
    ensures forall c :: c in HexDigits(n, k) ==> 0 <= DigitValue(c) < 16
  {
    if k > 0 {
      HexDigitsRead(n / 16, k - 1);
      assert HexDigits(n, k)[..k - 1] == HexDigits(n / 16, k - 1);
    }
  }

  /** The fingerprint is 16 lower-case hexadecimal digits that read as the hash. */
  lemma FingerprintReads(hash: u64)
    ensures |SeriesFingerprint(hash)| == 16 && ReadHex(SeriesFingerprint(hash)) == hash
    ensures forall c :: c in SeriesFingerprint(hash) ==> 0 <= DigitValue(c) < 16
  {
    assert Pow16(4) == 0x1_0000;
    assert Pow16(8) == 0x1_0000_0000;
    assert Pow16(12) == 0x1_0000_0000_0000;
    assert Pow16(16) == WORD;
    HexDigitsRead(hash, 16);
  }

  /** Comparing fingerprints as strings compares hashes as numbers. */
  lemma FingerprintKeepsOrder(a: u64, b: u64)
    ensures Less(SeriesFingerprint(a), SeriesFingerprint(b)) <==> a < b
    ensures SeriesFingerprint(a) == SeriesFingerprint(b) <==> a == b
  {
    assert Pow16(4) == 0x1_0000;
    assert Pow16(8) == 0x1_0000_0000;
    assert Pow16(12) == 0x1_0000_0000_0000;
    assert Pow16(16) == WORD;
    HexDigitsKeepOrder(a, b, 16);
  }
}
