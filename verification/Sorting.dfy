// Sorting a copy of a slice, and the orders the writers sort by.

module Sorting {
  import opened Words

  /** less is a strict weak order: what sort.Slice asks of its comparison. */
  ghost predicate StrictWeakOrder<T(!new)>(less: (T, T) -> bool) {
    && (forall a, b :: less(a, b) ==> !less(b, a))
    && (forall a, b, c :: !less(a, b) && !less(b, c) ==> !less(a, c))
  }

  /** No later element is less than an earlier one. */
  ghost predicate Sorted<T>(s: seq<T>, less: (T, T) -> bool) {
    forall i, j :: 0 <= i < j < |s| ==> !less(s[j], s[i])
  }

  ghost predicate SortedCopy<T>(sorted: seq<T>, s: seq<T>, less: (T, T) -> bool) {
    multiset(sorted) == multiset(s) && Sorted(sorted, less)
  }

  /** sort.Slice on a copy: some sorted rearrangement. Callers rely on nothing else about it. */
  method SortSlice<T(!new)>(s: seq<T>, less: (T, T) -> bool) returns (r: seq<T>)
    requires StrictWeakOrder(less)
    ensures SortedCopy(r, s, less)
  {
    r := [];
    for i := 0 to |s|
      invariant SortedCopy(r, s[..i], less)
    {
      r := Insert(r, s[i], less);
      assert s[..i + 1] == s[..i] + [s[i]];
    }
    assert s[..|s|] == s;
  }

  method Insert<T(!new)>(s: seq<T>, x: T, less: (T, T) -> bool) returns (r: seq<T>)
    requires StrictWeakOrder(less) && Sorted(s, less)
    ensures SortedCopy(r, s + [x], less)
  {
    var i := |s|;
    while i > 0 && less(x, s[i - 1])
      invariant 0 <= i <= |s|
      invariant forall k :: i <= k < |s| ==> less(x, s[k])
    {
      i := i - 1;
    }
    r := s[..i] + [x] + s[i..];
    assert s == s[..i] + s[i..];
    forall a, b | 0 <= a < b < |r|
      ensures !less(r[b], r[a])
    {
      InsertedOrder(s, x, i, less, a, b);
    }
  }

  lemma InsertedOrder<T(!new)>(s: seq<T>, x: T, i: nat, less: (T, T) -> bool, a: nat, b: nat)
    requires StrictWeakOrder(less) && Sorted(s, less) && i <= |s|
    requires i > 0 ==> !less(x, s[i - 1])
    requires forall k :: i <= k < |s| ==> less(x, s[k])
    requires a < b < |s| + 1
    ensures var r := s[..i] + [x] + s[i..]; !less(r[b], r[a])
  {
    if b == i {
      assert !less(x, s[i - 1]);
      if a < i - 1 {
        assert !less(s[i - 1], s[a]);
      }
    } else if a == i {
      assert less(x, s[b - 1]);
    }
  }

  lemma SameSize<T>(a: seq<T>, b: seq<T>)
    requires multiset(a) == multiset(b)
    ensures |a| == |b|
    ensures forall x :: x in a <==> x in b
  {
    assert |multiset(a)| == |a| && |multiset(b)| == |b|;
    forall x
      ensures x in a <==> x in b
    {
      assert x in multiset(a) <==> x in multiset(b);
    }
  }

  /** Byte strings in dictionary order, a proper prefix first. */
  predicate LexLess(a: seq<byte>, b: seq<byte>) {
    if |b| == 0 then false
    else if |a| == 0 then true
    else a[0] < b[0] || (a[0] == b[0] && LexLess(a[1..], b[1..]))
  }

  lemma {:induction false} LexAsymmetric(a: seq<byte>, b: seq<byte>)
    requires LexLess(a, b)
    ensures !LexLess(b, a)
  {
    if |a| > 0 && a[0] == b[0] {
      LexAsymmetric(a[1..], b[1..]);
    }
  }

  /** Not less either way only for the same string. */
  lemma {:induction false} LexTotal(a: seq<byte>, b: seq<byte>)
    requires !LexLess(a, b) && !LexLess(b, a)
    ensures a == b
  {
    if |a| > 0 && |b| > 0 {
      LexTotal(a[1..], b[1..]);
      assert a == [a[0]] + a[1..] && b == [b[0]] + b[1..];
    }
  }

  lemma {:induction false} LexTransitive(a: seq<byte>, b: seq<byte>, d: seq<byte>)
    requires !LexLess(a, b) && !LexLess(b, d)
    ensures !LexLess(a, d)
  {
    if |d| > 0 && |b| > 0 && |a| > 0 && a[0] == b[0] && b[0] == d[0] {
      LexTransitive(a[1..], b[1..], d[1..]);
    }
  }

  lemma LexIsOrder<T(!new)>(less: (T, T) -> bool, key: T -> seq<byte>)
    requires forall x, y :: less(x, y) == LexLess(key(x), key(y))
    ensures StrictWeakOrder(less)
  {
    forall x, y | less(x, y)
      ensures !less(y, x)
    {
      LexAsymmetric(key(x), key(y));
    }
    forall x, y, z | !less(x, y) && !less(y, z)
      ensures !less(x, z)
    {
      LexTransitive(key(x), key(y), key(z));
    }
  }

  /** The comparison loops of the writers: the first byte that differs decides. */
  method KeyLess(a: seq<byte>, b: seq<byte>, n: nat) returns (r: bool)
    requires n <= |a| && n <= |b|
    ensures r == LexLess(a[..n], b[..n])
  {
    for i := 0 to n
      invariant LexLess(a[..n], b[..n]) == LexLess(a[i..n], b[i..n])
    {
      assert a[i..n][1..] == a[i + 1..n] && b[i..n][1..] == b[i + 1..n];
      if a[i] != b[i] {
        return a[i] < b[i];
      }
    }
    r := false;
  }
}
