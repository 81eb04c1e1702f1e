/**
 * Strings as the source compares them: byte by byte, the first difference deciding. Each
 * character here stands for one byte. (The built-in order on sequences is the prefix order.)
 */
module Strings {

  predicate Less(a: string, b: string) {
    if b == [] then false
    else if a == [] then true
    else a[0] < b[0] || (a[0] == b[0] && Less(a[1..], b[1..]))
  }

  /** Either a is a proper beginning of b, or at the first difference it has the smaller byte. */
  ghost predicate Lexicographic(a: string, b: string) {
    exists n ::
      && 0 <= n <= |a| && n <= |b| && a[..n] == b[..n]
      && if n == |a| then n < |b| else n < |b| && a[n] < b[n]
  }

  lemma {:induction false} LessIsLexicographic(a: string, b: string)
    ensures Less(a, b) <==> Lexicographic(a, b)
  {
    if a == [] || b == [] {
      assert a[..0] == b[..0] == [];
    } else {
      LessIsLexicographic(a[1..], b[1..]);
      if a[0] != b[0] {
        assert a[..0] == b[..0] == [];
      }
      if Lexicographic(a, b) && a[0] == b[0] {
        DropFirst(a, b);
      }
      if Lexicographic(a[1..], b[1..]) && a[0] == b[0] {
        AddFirst(a, b);
      }
    }
  }

  lemma DropFirst(a: string, b: string)
    requires a != [] && b != [] && a[0] == b[0] && Lexicographic(a, b)
    ensures Lexicographic(a[1..], b[1..])
  {
    var n :| 0 <= n <= |a| && n <= |b| && a[..n] == b[..n]
             && if n == |a| then n < |b| else n < |b| && a[n] < b[n];
    assert a[1..][..n - 1] == a[..n][1..] == b[..n][1..] == b[1..][..n - 1];
  }

  lemma AddFirst(a: string, b: string)
    requires a != [] && b != [] && a[0] == b[0] && Lexicographic(a[1..], b[1..])
    ensures Lexicographic(a, b)
  {
    var x, y := a[1..], b[1..];
    var n :| 0 <= n <= |x| && n <= |y| && x[..n] == y[..n]
             && if n == |x| then n < |y| else n < |y| && x[n] < y[n];
    assert a[..n + 1] == [a[0]] + x[..n] == [b[0]] + y[..n] == b[..n + 1];
  }

  lemma {:induction false} LessIsIrreflexive(a: string)
    ensures !Less(a, a)
  {
    if a != [] {
      LessIsIrreflexive(a[1..]);
    }
  }

  lemma {:induction false} LessIsTransitive(a: string, b: string, c: string)
    requires Less(a, b) && Less(b, c)
    ensures Less(a, c)
  {
    if a != [] && a[0] == b[0] == c[0] {
      LessIsTransitive(a[1..], b[1..], c[1..]);
    }
  }

  lemma {:induction false} LessIsTotal(a: string, b: string)
    ensures Less(a, b) || a == b || Less(b, a)
  {
    if a != [] && b != [] && a[0] == b[0] {
      LessIsTotal(a[1..], b[1..]);
      assert a == [a[0]] + a[1..] && b == [b[0]] + b[1..];
    }
  }

  lemma LessIsAsymmetric(a: string, b: string)
    requires Less(a, b)
    ensures !Less(b, a)
  {
    if Less(b, a) {
      LessIsTransitive(a, b, a);
      LessIsIrreflexive(a);
    }
  }

  /** a precedes or equals b. */
  predicate AtMost(a: string, b: string) {
    !Less(b, a)
  }

  lemma AtMostIsTransitive(a: string, b: string, c: string)
    requires AtMost(a, b) && AtMost(b, c)
    ensures AtMost(a, c)
  {
    if Less(c, a) {
      LessIsTotal(a, b);
      if Less(a, b) {
        LessIsTransitive(c, a, b);
      }
    }
  }

  lemma AtMostIsAntisymmetric(a: string, b: string)
    requires AtMost(a, b) && AtMost(b, a)
    ensures a == b
  {
    LessIsTotal(a, b);
  }
}
