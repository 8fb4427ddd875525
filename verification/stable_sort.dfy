/** A stable sort over sequences, the model of Kotlin's `sortedWith` /
    `sortedBy` (a stable merge sort on the JVM): elements are ordered by a
    key, and elements whose keys are equal keep their input order.

    The sort is written as an insertion sort, which inserts each element
    after every element whose key does not rank strictly after its own.
    What is proved about it is what any stable sort must satisfy: the
    output is a permutation of the input, it is ordered by the key, and for
    every key value the elements carrying it appear in input order.
 */
module StableSort {

  /** `less` is a strict total order on keys. */
  ghost predicate StrictTotalOrder<K(!new)>(less: (K, K) -> bool) {
    && (forall a :: !less(a, a))
    && (forall a, b, c :: less(a, b) && less(b, c) ==> less(a, c))
    && (forall a, b :: a != b ==> less(a, b) || less(b, a))
  }

  /** No element ranks strictly before an element to its left. */
  ghost predicate Sorted<T, K>(s: seq<T>, key: T -> K, less: (K, K) -> bool) {
    forall i, j :: 0 <= i < j < |s| ==> !less(key(s[j]), key(s[i]))
  }

  /** The elements of `s` whose key is `k`, in their order in `s`. */
  function WithKey<T, K(==)>(s: seq<T>, key: T -> K, k: K): (r: seq<T>)
    ensures |r| <= |s|
  {
    if s == [] then []
    else (if key(s[0]) == k then [s[0]] else []) + WithKey(s[1..], key, k)
  }

  lemma {:induction false} WithKeyAppend<T, K>(a: seq<T>, b: seq<T>, key: T -> K, k: K)
    ensures WithKey(a + b, key, k) == WithKey(a, key, k) + WithKey(b, key, k)
  {
    if a != [] {
      assert (a + b)[1..] == a[1..] + b;
      WithKeyAppend(a[1..], b, key, k);
    } else {
      assert a + b == b;
    }
  }

  lemma {:induction false} WithKeyNone<T, K>(s: seq<T>, key: T -> K, k: K)
    requires forall i :: 0 <= i < |s| ==> key(s[i]) != k
    ensures WithKey(s, key, k) == []
  {
    if s != [] { WithKeyNone(s[1..], key, k); }
  }

  /** Inserts `x` after every element that `x` does not rank strictly before. */
  function Insert<T, K>(s: seq<T>, x: T, key: T -> K, less: (K, K) -> bool): (r: seq<T>)
    ensures |r| == |s| + 1
  {
    if s == [] then [x]
    else if less(key(x), key(s[0])) then [x] + s
    else [s[0]] + Insert(s[1..], x, key, less)
  }

  /** `sortedWith`: stable insertion sort of `s` by `key` under `less`. */
  function Sort<T, K>(s: seq<T>, key: T -> K, less: (K, K) -> bool): (r: seq<T>)
    ensures |r| == |s|
  {
    if s == [] then []
    else Insert(Sort(s[..|s| - 1], key, less), s[|s| - 1], key, less)
  }

  lemma {:induction false} InsertPermutation<T, K>(s: seq<T>, x: T, key: T -> K, less: (K, K) -> bool)
    ensures multiset(Insert(s, x, key, less)) == multiset(s) + multiset{x}
  {
    if s != [] && !less(key(x), key(s[0])) {
      InsertPermutation(s[1..], x, key, less);
      assert s == [s[0]] + s[1..];
    }
  }

  lemma {:induction false} InsertSorted<T, K(!new)>(s: seq<T>, x: T, key: T -> K, less: (K, K) -> bool)
    requires StrictTotalOrder(less)
    requires Sorted(s, key, less)
    ensures Sorted(Insert(s, x, key, less), key, less)
  {
    if s == [] {
    } else if less(key(x), key(s[0])) {
      var r := [x] + s;
      forall i, j | 0 <= i < j < |r| ensures !less(key(r[j]), key(r[i])) {
        if i == 0 {
          var kj := key(s[j - 1]);
          if j - 1 > 0 {
            assert !less(kj, key(s[0]));
            if kj != key(s[0]) { assert less(key(s[0]), kj); }
          }
        }
      }
    } else {
      var rest := Insert(s[1..], x, key, less);
      InsertSorted(s[1..], x, key, less);
      InsertPermutation(s[1..], x, key, less);
      var r := [s[0]] + rest;
      forall j | 0 < j < |r| ensures !less(key(r[j]), key(s[0])) {
        assert r[j] == rest[j - 1];
        assert rest[j - 1] in multiset(rest);
        if rest[j - 1] != x {
          assert rest[j - 1] in multiset(s[1..]);
          var q :| 0 <= q < |s[1..]| && s[1..][q] == rest[j - 1];
          assert s[q + 1] == rest[j - 1];
        }
      }
    }
  }

  /** In a sorted sequence no element carries a key ranking strictly before the first one's. */
  lemma NoneRanksBelowHead<T, K(!new)>(s: seq<T>, key: T -> K, less: (K, K) -> bool, k: K)
    requires StrictTotalOrder(less)
    requires Sorted(s, key, less)
    requires s != [] && less(k, key(s[0]))
    ensures forall i :: 0 <= i < |s| ==> key(s[i]) != k
  {
    forall i | 0 <= i < |s| ensures key(s[i]) != k {
      if i > 0 && key(s[i]) != key(s[0]) {
        assert less(key(s[0]), key(s[i]));
      }
    }
  }

  /** Inserting into a sorted sequence appends `x` to the elements of its key class. */
  lemma {:induction false} InsertWithKey<T, K(!new)>(s: seq<T>, x: T, key: T -> K, less: (K, K) -> bool, k: K)
    requires StrictTotalOrder(less)
    requires Sorted(s, key, less)
    ensures WithKey(Insert(s, x, key, less), key, k)
         == WithKey(s, key, k) + (if key(x) == k then [x] else [])
  {
    var cx := if key(x) == k then [x] else [];
    if s == [] {
      assert Insert(s, x, key, less) == [x];
      assert WithKey([x], key, k) == cx + WithKey([x][1..], key, k);
    } else if less(key(x), key(s[0])) {
      assert Insert(s, x, key, less) == [x] + s;
      assert ([x] + s)[1..] == s;
      assert WithKey([x] + s, key, k) == cx + WithKey(s, key, k);
      if key(x) == k {
        NoneRanksBelowHead(s, key, less, k);
        WithKeyNone(s, key, k);
      }
    } else {
      var r := Insert(s[1..], x, key, less);
      assert Insert(s, x, key, less) == [s[0]] + r;
      assert Sorted(s[1..], key, less) by {
        forall i, j | 0 <= i < j < |s[1..]| ensures !less(key(s[1..][j]), key(s[1..][i])) {
          assert s[1..][i] == s[i + 1] && s[1..][j] == s[j + 1];
        }
      }
      InsertWithKey(s[1..], x, key, less, k);
      var cs := if key(s[0]) == k then [s[0]] else [];
      assert ([s[0]] + r)[1..] == r;
      assert WithKey([s[0]] + r, key, k) == cs + WithKey(r, key, k);
      assert WithKey(s, key, k) == cs + WithKey(s[1..], key, k);
    }
  }

  /** The sorted sequence is a permutation of the input. */
  lemma {:induction false} SortPermutation<T, K>(s: seq<T>, key: T -> K, less: (K, K) -> bool)
    ensures multiset(Sort(s, key, less)) == multiset(s)
  {
    if s != [] {
      SortPermutation(s[..|s| - 1], key, less);
      InsertPermutation(Sort(s[..|s| - 1], key, less), s[|s| - 1], key, less);
      assert s == s[..|s| - 1] + [s[|s| - 1]];
    }
  }

  /** The sorted sequence is ordered by key. */
  lemma {:induction false} SortSorted<T, K(!new)>(s: seq<T>, key: T -> K, less: (K, K) -> bool)
    requires StrictTotalOrder(less)
    ensures Sorted(Sort(s, key, less), key, less)
  {
    if s != [] {
      SortSorted(s[..|s| - 1], key, less);
      InsertSorted(Sort(s[..|s| - 1], key, less), s[|s| - 1], key, less);
    }
  }

  /** Stability: for every key value, the elements carrying it come out in
      the order they went in. */
  lemma {:induction false} SortStable<T, K(!new)>(s: seq<T>, key: T -> K, less: (K, K) -> bool, k: K)
    requires StrictTotalOrder(less)
    ensures WithKey(Sort(s, key, less), key, k) == WithKey(s, key, k)
  {
    if s != [] {
      var init, last := s[..|s| - 1], s[|s| - 1];
      SortStable(init, key, less, k);
      SortSorted(init, key, less);
      InsertWithKey(Sort(init, key, less), last, key, less, k);
      assert s == init + [last];
      WithKeyAppend(init, [last], key, k);
    }
  }

  /** An element that ranks strictly before nothing in `s` goes to the end. */
  lemma {:induction false} InsertMaxAtEnd<T, K>(s: seq<T>, x: T, key: T -> K, less: (K, K) -> bool)
    requires forall i :: 0 <= i < |s| ==> !less(key(x), key(s[i]))
    ensures Insert(s, x, key, less) == s + [x]
  {
    if s != [] {
      InsertMaxAtEnd(s[1..], x, key, less);
      assert s == [s[0]] + s[1..];
    }
  }

  /** An element ranking strictly before the last one leaves the last one last. */
  lemma {:induction false} InsertKeepsLast<T, K>(s: seq<T>, x: T, key: T -> K, less: (K, K) -> bool)
    requires s != [] && less(key(x), key(s[|s| - 1]))
    ensures Insert(s, x, key, less)[|s|] == s[|s| - 1]
  {
    if !less(key(x), key(s[0])) {
      InsertKeepsLast(s[1..], x, key, less);
    }
  }

  /** The last element of the sorted sequence is the last element of the
      input among those of greatest key: what `sortedBy { }.last()` picks. */
  lemma {:induction false} SortLast<T, K>(s: seq<T>, key: T -> K, less: (K, K) -> bool, j: nat)
    requires j < |s|
    requires forall i :: 0 <= i < |s| ==> !less(key(s[j]), key(s[i]))
    requires forall i :: j < i < |s| ==> less(key(s[i]), key(s[j]))
    ensures Sort(s, key, less)[|s| - 1] == s[j]
  {
    var n := |s| - 1;
    var init, x := s[..n], s[n];
    var t := Sort(init, key, less);
    assert Sort(s, key, less) == Insert(t, x, key, less);
    if j == n {
      forall i | 0 <= i < |t| ensures !less(key(x), key(t[i])) {
        SortPermutation(init, key, less);
        assert t[i] in multiset(init) by { assert t[i] in multiset(t); }
      }
      InsertMaxAtEnd(t, x, key, less);
    } else {
      SortLast(init, key, less, j);
      InsertKeepsLast(t, x, key, less);
    }
  }
}
