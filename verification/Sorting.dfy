/** The order of strings, and what the library's sorts promise. */
module Sorting {
  import opened Bytes

  /** Byte-wise lexicographic order, the order of Rust strings. */
  predicate LexLeq(a: bytes, b: bytes) {
    a == [] || (b != [] && (a[0] < b[0] || (a[0] == b[0] && LexLeq(a[1..], b[1..]))))
  }

  /** The strings differ first at k, where the first one has the smaller byte. */
  predicate SmallerAt(a: bytes, b: bytes, k: nat) {
    k < |a| && k < |b| && a[k] < b[k] && forall i :: 0 <= i < k ==> a[i] == b[i]
  }

  lemma SmallerAtFront(a: bytes, b: bytes, k: nat)
    requires a != [] && b != []
    ensures SmallerAt(a, b, 0) <==> a[0] < b[0]
    ensures SmallerAt(a, b, k + 1) <==> a[0] == b[0] && SmallerAt(a[1..], b[1..], k)
  {
    var x, y := a[1..], b[1..];
    if a[0] == b[0] && SmallerAt(x, y, k) {
      assert forall i :: 0 < i <= k ==> a[i] == x[i - 1] && b[i] == y[i - 1];
    }
    if SmallerAt(a, b, k + 1) {
      assert forall i :: 0 <= i < k ==> x[i] == a[i + 1] && y[i] == b[i + 1];
    }
  }

  /** The first string is a prefix, or has the smaller byte at the first difference. */
  lemma {:induction false} LexLeqIff(a: bytes, b: bytes)
    ensures LexLeq(a, b) <==> a <= b || exists k :: SmallerAt(a, b, k)
  {
    if a != [] && b != [] {
      hide SmallerAt;
      LexLeqIff(a[1..], b[1..]);
      assert a == [a[0]] + a[1..] && b == [b[0]] + b[1..];
      SmallerAtFront(a, b, 0);
      if k :| SmallerAt(a, b, k) {
        SmallerAtFront(a, b, SaturatingSub(k, 1));
      }
      if k :| SmallerAt(a[1..], b[1..], k) {
        SmallerAtFront(a, b, k);
      }
    }
  }

  lemma {:induction false} LexTotal(a: bytes, b: bytes)
    ensures LexLeq(a, b) || LexLeq(b, a)
  {
    if a != [] && b != [] {
      LexTotal(a[1..], b[1..]);
    }
  }

  lemma {:induction false} LexTransitive(a: bytes, b: bytes, c: bytes)
    requires LexLeq(a, b) && LexLeq(b, c)
    ensures LexLeq(a, c)
  {
    if a != [] && a[0] == b[0] == c[0] {
      LexTransitive(a[1..], b[1..], c[1..]);
    }
  }

  lemma {:induction false} LexAntisymmetric(a: bytes, b: bytes)
    requires LexLeq(a, b) && LexLeq(b, a)
    ensures a == b
  {
    if a != [] {
      LexAntisymmetric(a[1..], b[1..]);
      assert a == [a[0]] + a[1..] && b == [b[0]] + b[1..];
    }
  }

  // ---- Sorting by any total preorder ----

  ghost predicate TotalPreorder<T(!new)>(leq: (T, T) -> bool) {
    && (forall a, b :: leq(a, b) || leq(b, a))
    && (forall a, b, c :: leq(a, b) && leq(b, c) ==> leq(a, c))
  }

  predicate Sorted<T>(leq: (T, T) -> bool, items: seq<T>) {
    forall i, j :: 0 <= i < j < |items| ==> leq(items[i], items[j])
  }

  lemma InsertedSorted<T(!new)>(leq: (T, T) -> bool, items: seq<T>, n: nat, x: T)
    requires TotalPreorder(leq) && Sorted(leq, items) && n <= |items|
    requires n > 0 ==> leq(items[n - 1], x)
    requires n < |items| ==> leq(x, items[n])
    ensures Sorted(leq, items[..n] + [x] + items[n..])
  {
    var result := items[..n] + [x] + items[n..];
    forall i, j | 0 <= i < j < |result| ensures leq(result[i], result[j]) {
      assert i < n ==> result[i] == items[i] && leq(items[i], x);
      assert j > n ==> result[j] == items[j - 1] && leq(x, items[j - 1]);
    }
  }

  /** A sorted permutation. Callers know nothing else about it, so whatever they
      prove holds for a stable and for an unstable sort. */
  method Sort<T(==, !new)>(leq: (T, T) -> bool, items: seq<T>) returns (sorted: seq<T>)
    requires TotalPreorder(leq)
    ensures multiset(sorted) == multiset(items) && Sorted(leq, sorted)
  {
    hide Sorted, TotalPreorder;
    sorted := [];
    SortedNothing(leq);
    for k := 0 to |items|
      invariant multiset(sorted) == multiset(items[..k]) && Sorted(leq, sorted)
    {
      sorted := Insert(leq, sorted, items[k]);
      assert items[..k + 1] == items[..k] + [items[k]];
    }
    assert items[..|items|] == items;
  }

  lemma SortedNothing<T>(leq: (T, T) -> bool)
    ensures Sorted(leq, [])
  {
  }

  method Insert<T(==, !new)>(leq: (T, T) -> bool, sorted: seq<T>, x: T) returns (result: seq<T>)
    requires TotalPreorder(leq) && Sorted(leq, sorted)
    ensures multiset(result) == multiset(sorted) + multiset{x} && Sorted(leq, result)
  {
    hide Sorted;
    var n := |sorted|;
    while n > 0 && !leq(sorted[n - 1], x)
      invariant 0 <= n <= |sorted|
      invariant n < |sorted| ==> leq(x, sorted[n])
    {
      n := n - 1;
    }
    result := sorted[..n] + [x] + sorted[n..];
    InsertedSorted(leq, sorted, n, x);
    assert sorted == sorted[..n] + sorted[n..];
  }

  // ---- Repeated elements ----

  lemma RepeatedCounts<T>(s: seq<T>, i: nat, j: nat)
    requires i < j < |s| && s[i] == s[j]
    ensures multiset(s)[s[i]] >= 2
  {
    assert s == s[..i] + [s[i]] + s[i + 1..j] + [s[j]] + s[j + 1..];
  }

  lemma {:induction false} CountedTwice<T>(s: seq<T>, x: T) returns (i: nat, j: nat)
    requires multiset(s)[x] >= 2
    ensures i < j < |s| && s[i] == s[j] == x
  {
    assert s == [s[0]] + s[1..];
    if s[0] == x {
      assert multiset(s[1..])[x] >= 1;
      assert x in s[1..];
      i := 0;
      j :| 0 < j < |s| && s[j] == x;
    } else {
      i, j := CountedTwice(s[1..], x);
      i, j := i + 1, j + 1;
    }
  }

  // ---- Sorting strings ----

  function ByKey<T>(key: T -> bytes): (T, T) -> bool {
    (a, b) => LexLeq(key(a), key(b))
  }

  lemma ByKeyIsPreorder<T(!new)>(key: T -> bytes)
    ensures TotalPreorder(ByKey(key))
  {
    forall a: T, b: T ensures LexLeq(key(a), key(b)) || LexLeq(key(b), key(a)) { LexTotal(key(a), key(b)); }
    forall a: T, b: T, c: T | LexLeq(key(a), key(b)) && LexLeq(key(b), key(c)) ensures LexLeq(key(a), key(c)) {
      LexTransitive(key(a), key(b), key(c));
    }
  }
}
