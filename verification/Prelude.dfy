/** Small shared vocabulary: optional values, 64-bit words and sums over sequences. */
module Prelude {

  datatype Option<+T> = None | Some(value: T)

  const WORD: nat := 0x1_0000_0000_0000_0000

  /** The largest value of the source's int. */
  const MAX_INT: nat := 0x7fff_ffff_ffff_ffff

  /** An unsigned 64-bit pattern. */
  type u64 = n: nat | n < WORD

  // Durations, in nanoseconds.
  const MICROSECOND: nat := 1_000
  const MILLISECOND: nat := 1_000_000
  const SECOND: nat := 1_000_000_000

  function Min(a: int, b: int): int {
    if a <= b then a else b
  }

  /** The sum of f over the elements of s. */
  function SumBy<T>(s: seq<T>, f: T -> int): int {
    if s == [] then 0 else SumBy(s[..|s| - 1], f) + f(s[|s| - 1])
  }

  /** Replacing one element changes the sum by the difference of the two elements. */
  lemma {:induction false} SumUpdate<T>(s: seq<T>, i: nat, x: T, f: T -> int)
    requires i < |s|
    ensures SumBy(s[i := x], f) == SumBy(s, f) - f(s[i]) + f(x)
  {
    var n := |s| - 1;
    if i == n {
      assert s[i := x][..n] == s[..n];
    } else {
      assert s[i := x][..n] == s[..n][i := x];
      SumUpdate(s[..n], i, x, f);
    }
  }

  /** Pointwise bounds carry over to sums. */
  lemma {:induction false} SumBounds<T>(s: seq<T>, f: T -> int, g: T -> int)
    requires forall i :: 0 <= i < |s| ==> f(s[i]) <= g(s[i])
    ensures SumBy(s, f) <= SumBy(s, g)
  {
    if s != [] {
      SumBounds(s[..|s| - 1], f, g);
    }
  }

  /** A sum of zeroes is zero. */
  lemma {:induction false} SumZero<T>(s: seq<T>, f: T -> int)
    requires forall i :: 0 <= i < |s| ==> f(s[i]) == 0
    ensures SumBy(s, f) == 0
  {
    if s != [] {
      SumZero(s[..|s| - 1], f);
    }
  }

  /** A subset is no larger than the whole. */
  lemma {:induction false} SubsetSize<T>(a: set<T>, b: set<T>)
    requires a <= b
    ensures |a| <= |b|
  {
    if a != {} {
      var x :| x in a;
      SubsetSize(a - {x}, b - {x});
    }
  }

  /** A sum of amounts that are not negative is at least each of them. */
  lemma {:induction false} SumAtLeast<T>(s: seq<T>, i: nat, f: T -> int)
    requires i < |s| && forall x :: x in s ==> 0 <= f(x)
    ensures f(s[i]) <= SumBy(s, f)
  {
    if i < |s| - 1 {
      SumAtLeast(s[..|s| - 1], i, f);
    } else {
      SumNotNegative(s[..|s| - 1], f);
    }
  }

  lemma {:induction false} SumNotNegative<T>(s: seq<T>, f: T -> int)
    requires forall x :: x in s ==> 0 <= f(x)
    ensures 0 <= SumBy(s, f)
  {
    if s != [] {
      SumNotNegative(s[..|s| - 1], f);
    }
  }
}
