/** Python's `sorted(xs, key=...)` and `list.sort(key=...)`: a stable sort by
    a key under a strict total order on keys. The model is an insertion sort;
    its result is characterised by sortedness, stability and being a
    permutation, and these three pin it down uniquely. */
module Sorting {
  import opened Ordering

  /** Inserts `x`, which preceded every element of `s` in the input, before
      the first element whose key is not less than its own. */
  function Insert<T, K(==)>(x: T, s: seq<T>, key: T -> K, less: (K, K) -> bool): seq<T>
  {
    if |s| == 0 then [x]
    else if less(key(s[0]), key(x)) then [s[0]] + Insert(x, s[1..], key, less)
    else [x] + s
  }

  function SortBy<T, K(==)>(s: seq<T>, key: T -> K, less: (K, K) -> bool): seq<T>
  {
    if |s| == 0 then [] else Insert(s[0], SortBy(s[1..], key, less), key, less)
  }

  /** No later element has a key less than an earlier one. */
  ghost predicate SortedBy<T, K>(s: seq<T>, key: T -> K, less: (K, K) -> bool) {
    forall i, j | 0 <= i < j < |s| :: !less(key(s[j]), key(s[i]))
  }

  /** The elements of `s` whose key is `k`, in order. */
  function WithKey<T, K(==)>(s: seq<T>, key: T -> K, k: K): seq<T>
  {
    if |s| == 0 then []
    else (if key(s[0]) == k then [s[0]] else []) + WithKey(s[1..], key, k)
  }

  /** `r` keeps, for every key, the relative order that `s` had. */
  ghost predicate StableFor<T, K(!new)>(r: seq<T>, s: seq<T>, key: T -> K) {
    forall k :: WithKey(r, key, k) == WithKey(s, key, k)
  }

  // ---------------------------------------------------------------- permutation

  lemma {:induction false} InsertPermutes<T, K>(x: T, s: seq<T>, key: T -> K, less: (K, K) -> bool)
    ensures multiset(Insert(x, s, key, less)) == multiset(s) + multiset{x}
    decreases |s|
  {
    if |s| > 0 && less(key(s[0]), key(x)) {
      InsertPermutes(x, s[1..], key, less);
      assert s == [s[0]] + s[1..];
    }
  }

  lemma {:induction false} SortByPermutes<T, K>(s: seq<T>, key: T -> K, less: (K, K) -> bool)
    ensures multiset(SortBy(s, key, less)) == multiset(s)
    decreases |s|
  {
    if |s| > 0 {
      SortByPermutes(s[1..], key, less);
      InsertPermutes(s[0], SortBy(s[1..], key, less), key, less);
      assert s == [s[0]] + s[1..];
    }
  }

  // ---------------------------------------------------------------- sortedness

  lemma {:induction false} InsertSorted<T, K(!new)>(x: T, s: seq<T>, key: T -> K, less: (K, K) -> bool)
    requires StrictTotalOrder(less)
    requires SortedBy(s, key, less)
    ensures SortedBy(Insert(x, s, key, less), key, less)
    decreases |s|
  {
    var r := Insert(x, s, key, less);
    if |s| == 0 {
    } else if less(key(s[0]), key(x)) {
      var t := Insert(x, s[1..], key, less);
      InsertSorted(x, s[1..], key, less);
      InsertPermutes(x, s[1..], key, less);
      forall j | 0 <= j < |t| ensures !less(key(t[j]), key(s[0])) {
        assert t[j] in multiset(t);
        if t[j] == x {
        } else {
          assert t[j] in multiset(s[1..]);
          var m :| 0 <= m < |s[1..]| && s[1..][m] == t[j];
          assert s[m + 1] == t[j];
        }
      }
    } else {
      forall i, j | 0 <= i < j < |r| ensures !less(key(r[j]), key(r[i])) {
        if i == 0 && j > 1 {
          assert r[j] == s[j - 1];
          assert !less(key(s[j - 1]), key(s[0]));
        }
      }
    }
  }

  lemma {:induction false} SortBySorted<T, K(!new)>(s: seq<T>, key: T -> K, less: (K, K) -> bool)
    requires StrictTotalOrder(less)
    ensures SortedBy(SortBy(s, key, less), key, less)
    decreases |s|
  {
    if |s| > 0 {
      SortBySorted(s[1..], key, less);
      InsertSorted(s[0], SortBy(s[1..], key, less), key, less);
    }
  }

  // ---------------------------------------------------------------- stability

  lemma {:induction false} WithKeyAppend<T, K>(a: seq<T>, b: seq<T>, key: T -> K, k: K)
    ensures WithKey(a + b, key, k) == WithKey(a, key, k) + WithKey(b, key, k)
    decreases |a|
  {
    if |a| == 0 {
      assert a + b == b;
    } else {
      assert (a + b)[0] == a[0] && (a + b)[1..] == a[1..] + b;
      WithKeyAppend(a[1..], b, key, k);
      var h := if key(a[0]) == k then [a[0]] else [];
      assert h + (WithKey(a[1..], key, k) + WithKey(b, key, k))
          == (h + WithKey(a[1..], key, k)) + WithKey(b, key, k);
    }
  }

  lemma {:induction false} InsertStable<T, K(!new)>(x: T, s: seq<T>, key: T -> K, less: (K, K) -> bool, k: K)
    requires StrictTotalOrder(less)
    ensures WithKey(Insert(x, s, key, less), key, k) == WithKey([x] + s, key, k)
    decreases |s|
  {
    if |s| > 0 && less(key(s[0]), key(x)) {
      InsertStable(x, s[1..], key, less, k);
      WithKeyAppend([s[0]], Insert(x, s[1..], key, less), key, k);
      WithKeyAppend([x], s[1..], key, k);
      WithKeyAppend([x], s, key, k);
      assert s == [s[0]] + s[1..];
      WithKeyAppend([s[0]], s[1..], key, k);
      // s[0] and x cannot both have key k, since less(key(s[0]), key(x)).
    }
  }

  lemma {:induction false} SortByStable<T, K(!new)>(s: seq<T>, key: T -> K, less: (K, K) -> bool)
    requires StrictTotalOrder(less)
    ensures StableFor(SortBy(s, key, less), s, key)
    decreases |s|
  {
    if |s| > 0 {
      SortByStable(s[1..], key, less);
      forall k ensures WithKey(SortBy(s, key, less), key, k) == WithKey(s, key, k) {
        var rest := SortBy(s[1..], key, less);
        InsertStable(s[0], rest, key, less, k);
        WithKeyAppend([s[0]], rest, key, k);
        WithKeyAppend([s[0]], s[1..], key, k);
        assert s == [s[0]] + s[1..];
      }
    }
  }

  // ---------------------------------------------------------------- identity

  /** Sorting an already sorted sequence leaves it as it is. */
  lemma {:induction false} SortBySortedIsIdentity<T, K>(s: seq<T>, key: T -> K, less: (K, K) -> bool)
    requires SortedBy(s, key, less)
    ensures SortBy(s, key, less) == s
    decreases |s|
  {
    if |s| > 0 {
      SortBySortedIsIdentity(s[1..], key, less);
      assert s == [s[0]] + s[1..];
      if |s| > 1 {
        assert !less(key(s[1]), key(s[0]));
      }
    }
  }

  // ---------------------------------------------------------------- uniqueness

  /** The elements whose key is `k` are exactly those found by `WithKey`. */
  lemma {:induction false} WithKeyMembers<T, K>(s: seq<T>, key: T -> K, k: K, x: T)
    ensures x in WithKey(s, key, k) <==> x in s && key(x) == k
    decreases |s|
  {
    if |s| > 0 {
      WithKeyMembers(s[1..], key, k, x);
      assert s == [s[0]] + s[1..];
    }
  }

  /** Any sorted, stable rearrangement of `s` is the one `SortBy` yields:
      sortedness and stability together determine the result. */
  lemma {:induction false} SortedStableIsUnique<T, K(!new)>(r: seq<T>, s: seq<T>, key: T -> K, less: (K, K) -> bool)
    requires StrictTotalOrder(less)
    requires SortedBy(r, key, less) && StableFor(r, s, key)
    ensures r == SortBy(s, key, less)
  {
    SortBySorted(s, key, less);
    SortByStable(s, key, less);
    SortedStableEqual(r, SortBy(s, key, less), key, less);
  }

  lemma {:induction false} SortedStableEqual<T, K(!new)>(r: seq<T>, q: seq<T>, key: T -> K, less: (K, K) -> bool)
    requires StrictTotalOrder(less)
    requires SortedBy(r, key, less) && SortedBy(q, key, less)
    requires forall k :: WithKey(r, key, k) == WithKey(q, key, k)
    ensures r == q
    decreases |r| + |q|
  {
    if |r| == 0 && |q| == 0 {
    } else if |r| == 0 {
      var k := key(q[0]);
      WithKeyMembers(q, key, k, q[0]);
      WithKeyMembers(r, key, k, q[0]);
    } else if |q| == 0 {
      var k := key(r[0]);
      WithKeyMembers(r, key, k, r[0]);
      WithKeyMembers(q, key, k, r[0]);
    } else {
      HeadKeysAgree(r, q, key, less);
      var k0 := key(r[0]);
      WithKeyOfHead(r, key);
      WithKeyOfHead(q, key);
      assert WithKey(r, key, k0) == WithKey(q, key, k0);
      assert WithKey(r, key, k0)[0] == r[0];
      assert WithKey(q, key, k0)[0] == q[0];
      TailsAgree(r, q, key);
      SortedStableEqual(r[1..], q[1..], key, less);
      assert r == [r[0]] + r[1..] && q == [q[0]] + q[1..];
    }
  }

  /** Two sorted sequences with the same elements per key start with the same key. */
  lemma HeadKeysAgree<T, K(!new)>(r: seq<T>, q: seq<T>, key: T -> K, less: (K, K) -> bool)
    requires StrictTotalOrder(less)
    requires |r| > 0 && |q| > 0
    requires SortedBy(r, key, less) && SortedBy(q, key, less)
    requires forall k :: WithKey(r, key, k) == WithKey(q, key, k)
    ensures key(r[0]) == key(q[0])
  {
    var a, b := r[0], q[0];
    WithKeyMembers(q, key, key(b), b);
    WithKeyMembers(r, key, key(b), b);
    WithKeyMembers(r, key, key(a), a);
    WithKeyMembers(q, key, key(a), a);
    var i :| 0 <= i < |r| && r[i] == b;
    var j :| 0 <= j < |q| && q[j] == a;
    assert i == 0 || !less(key(b), key(a));
    assert j == 0 || !less(key(a), key(b));
  }

  lemma WithKeyOfHead<T, K>(s: seq<T>, key: T -> K)
    requires |s| > 0
    ensures WithKey(s, key, key(s[0])) == [s[0]] + WithKey(s[1..], key, key(s[0]))
  {
  }

  /** Removing equal heads keeps the per-key subsequences equal. */
  lemma TailsAgree<T, K(!new)>(r: seq<T>, q: seq<T>, key: T -> K)
    requires |r| > 0 && |q| > 0 && r[0] == q[0]
    requires forall k :: WithKey(r, key, k) == WithKey(q, key, k)
    ensures forall k :: WithKey(r[1..], key, k) == WithKey(q[1..], key, k)
  {
    forall k ensures WithKey(r[1..], key, k) == WithKey(q[1..], key, k) {
      var w := if key(r[0]) == k then [r[0]] else [];
      assert WithKey(r, key, k) == w + WithKey(r[1..], key, k);
      assert WithKey(q, key, k) == w + WithKey(q[1..], key, k);
      assert WithKey(r[1..], key, k) == (w + WithKey(r[1..], key, k))[|w|..];
      assert WithKey(q[1..], key, k) == (w + WithKey(q[1..], key, k))[|w|..];
    }
  }

  // ---------------------------------------------------------------- injective keys

  /** When no other element of `s` shares `x`'s key, the elements with that
      key are copies of `x`, as many as `s` holds. */
  lemma {:induction false} WithKeyCopies<T, K>(s: seq<T>, key: T -> K, x: T)
    requires forall y | y in s && key(y) == key(x) :: y == x
    ensures WithKey(s, key, key(x)) == seq(multiset(s)[x], _ => x)
    decreases |s|
  {
    if |s| > 0 {
      assert forall y | y in s[1..] :: y in s;
      WithKeyCopies(s[1..], key, x);
      assert s == [s[0]] + s[1..];
      assert multiset(s)[x] == (if s[0] == x then 1 else 0) + multiset(s[1..])[x];
    }
  }

  /** Keys that differ at different positions tell the elements apart. */
  lemma DistinctKeysAtIndices<T, K>(s: seq<T>, key: T -> K)
    requires forall i, j | 0 <= i < |s| && 0 <= j < |s| && i != j :: key(s[i]) != key(s[j])
    ensures forall x, y | x in s && y in s :: key(x) == key(y) ==> x == y
  {
    forall x, y | x in s && y in s && key(x) == key(y) ensures x == y {
      var i :| 0 <= i < |s| && s[i] == x;
      var j :| 0 <= j < |s| && s[j] == y;
    }
  }

  /** When the key tells the elements of `a` apart, the sorted result depends
      only on which elements there are, not on the order in which they come. */
  lemma SortByKeyInjectiveOn<T, K(!new)>(a: seq<T>, b: seq<T>, key: T -> K, less: (K, K) -> bool)
    requires StrictTotalOrder(less)
    requires forall x, y | x in a && y in a :: key(x) == key(y) ==> x == y
    requires multiset(a) == multiset(b)
    ensures SortBy(a, key, less) == SortBy(b, key, less)
  {
    var r := SortBy(a, key, less);
    SortBySorted(a, key, less);
    SortByStable(a, key, less);
    forall k ensures WithKey(r, key, k) == WithKey(b, key, k) {
      if x :| x in a && key(x) == k {
        assert forall y | y in b :: y in multiset(a);
        WithKeyCopies(a, key, x);
        WithKeyCopies(b, key, x);
      } else {
        assert forall y | y in b :: y in multiset(a);
        WithKeyAbsent(a, key, k);
        WithKeyAbsent(b, key, k);
      }
    }
    SortedStableIsUnique(r, b, key, less);
  }

  /** With an injective key, the sorted result depends only on which elements
      there are, not on the order in which they come. */
  lemma SortByInjectiveKey<T, K(!new)>(a: seq<T>, b: seq<T>, key: T -> K, less: (K, K) -> bool)
    requires StrictTotalOrder(less)
    requires forall x, y :: key(x) == key(y) ==> x == y
    requires multiset(a) == multiset(b)
    ensures SortBy(a, key, less) == SortBy(b, key, less)
  {
    SortByKeyInjectiveOn(a, b, key, less);
  }

  lemma {:induction false} WithKeyAbsent<T, K>(s: seq<T>, key: T -> K, k: K)
    requires forall x | x in s :: key(x) != k
    ensures WithKey(s, key, k) == []
    decreases |s|
  {
    if |s| > 0 {
      assert forall y | y in s[1..] :: y in s;
      WithKeyAbsent(s[1..], key, k);
    }
  }
}
