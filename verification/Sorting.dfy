/** Sorting by a comparator, as the library routine promises it: no promise about ties. */
module Sorting {

  /** What a comparator must satisfy: asymmetric, and "not after" is transitive. */
  ghost predicate StrictWeakOrder<T(!new)>(less: (T, T) -> bool) {
    && (forall a, b :: less(a, b) ==> !less(b, a))
    && (forall a, b, c :: !less(b, a) && !less(c, b) ==> !less(c, a))
  }

  ghost predicate Sorted<T>(s: seq<T>, less: (T, T) -> bool) {
    forall i, j :: 0 <= i < j < |s| ==> !less(s[j], s[i])
  }

  method SortSlice<T(!new)>(xs: seq<T>, less: (T, T) -> bool) returns (ys: seq<T>)
    requires StrictWeakOrder(less)
    ensures multiset(ys) == multiset(xs) && |ys| == |xs|
    ensures Sorted(ys, less)
  {
    ys := [];
    for n := 0 to |xs|
      invariant multiset(ys) == multiset(xs[..n]) && |ys| == n
      invariant Sorted(ys, less)
    {
      assert xs[..n + 1] == xs[..n] + [xs[n]];
      ys := Insert(xs[n], ys, less);
    }
    assert xs[..|xs|] == xs;
  }

  /** Places x behind the elements it does not precede. */
  function Insert<T(!new)>(x: T, s: seq<T>, less: (T, T) -> bool): (r: seq<T>)
    requires Sorted(s, less) && StrictWeakOrder(less)
    ensures multiset(r) == multiset(s) + multiset{x} && |r| == |s| + 1
    ensures Sorted(r, less)
  {
    if s == [] then [x]
    else if less(x, s[0]) then
      InsertInFront(x, s, less);
      [x] + s
    else
      var rest := Insert(x, s[1..], less);
      InsertBehind(x, s, rest, less);
      [s[0]] + rest
  }

  lemma InsertInFront<T(!new)>(x: T, s: seq<T>, less: (T, T) -> bool)
    requires Sorted(s, less) && StrictWeakOrder(less) && s != [] && less(x, s[0])
    ensures Sorted([x] + s, less)
  {
    forall i | 0 <= i < |s|
      ensures !less(s[i], x)
    {
      assert !less(s[0], x) && !less(s[i], s[0]);
    }
  }

  lemma InsertBehind<T(!new)>(x: T, s: seq<T>, rest: seq<T>, less: (T, T) -> bool)
    requires Sorted(s, less) && s != [] && !less(x, s[0])
    requires Sorted(rest, less) && multiset(rest) == multiset(s[1..]) + multiset{x}
    ensures Sorted([s[0]] + rest, less)
    ensures multiset([s[0]] + rest) == multiset(s) + multiset{x}
  {
    forall i | 0 <= i < |rest|
      ensures !less(rest[i], s[0])
    {
      assert rest[i] in multiset(rest);
      assert rest[i] == x || rest[i] in s[1..];
    }
    assert s == [s[0]] + s[1..];
  }
}
