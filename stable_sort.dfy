/** Python's `sorted(xs, key=key)`, with `lt` standing for `<` on the keys:
    a stable sort that compares only keys. It is modelled by an insertion sort
    that places each element before the first one whose key is not smaller;
    the lemmas show that its result is a permutation, non-decreasing by key,
    and keeps elements with equal keys in their original order. */
module StableSort {

  /** Inserts `x` before the first element whose key is not smaller than its own. */
  function Insert<T, K>(x: T, r: seq<T>, key: T -> K, lt: (K, K) -> bool): (out: seq<T>)
    ensures multiset(out) == multiset(r) + multiset{x}
  {
    if r == [] then [x]
    else if lt(key(r[0]), key(x)) then
      assert r == [r[0]] + r[1..];
      [r[0]] + Insert(x, r[1..], key, lt)
    else [x] + r
  }

  /** `sorted(xs, key=key)`; a permutation of `xs`. */
  function Sort<T, K>(xs: seq<T>, key: T -> K, lt: (K, K) -> bool): (r: seq<T>)
    ensures multiset(r) == multiset(xs)
  {
    if xs == [] then []
    else
      assert xs == [xs[0]] + xs[1..];
      Insert(xs[0], Sort(xs[1..], key, lt), key, lt)
  }

  /** `lt` is a strict total order on the keys of elements of `T`: irreflexive,
      transitive, and two keys are ordered one way or the other or are equal. */
  ghost predicate StrictTotalOnKeys<T(!new), K>(key: T -> K, lt: (K, K) -> bool)
  {
    (forall x :: !lt(key(x), key(x))) &&
    (forall x, y, z :: lt(key(x), key(y)) && lt(key(y), key(z)) ==> lt(key(x), key(z))) &&
    (forall x, y :: lt(key(x), key(y)) || lt(key(y), key(x)) || key(x) == key(y))
  }

  /** Non-decreasing by key: no later element has a smaller key than an earlier one. */
  ghost predicate Ordered<T, K>(r: seq<T>, key: T -> K, lt: (K, K) -> bool)
  {
    forall i, j :: 0 <= i < j < |r| ==> !lt(key(r[j]), key(r[i]))
  }

  /** The elements of `s` whose key is `k`, in the order of `s`. */
  function WithKey<T, K(==)>(s: seq<T>, key: T -> K, k: K): seq<T>
  {
    if s == [] then [] else (if key(s[0]) == k then [s[0]] else []) + WithKey(s[1..], key, k)
  }

  lemma {:induction false} InsertOrdered<T(!new), K>(x: T, r: seq<T>, key: T -> K, lt: (K, K) -> bool)
    requires StrictTotalOnKeys(key, lt)
    requires Ordered(r, key, lt)
    ensures Ordered(Insert(x, r, key, lt), key, lt)
    decreases |r|
  {
    if r != [] && lt(key(r[0]), key(x)) {
      OrderedTail(r, key, lt);
      InsertOrdered(x, r[1..], key, lt);
      InsertOrderedPast(x, r, key, lt);
    } else if r != [] {
      InsertOrderedFront(x, r, key, lt);
    }
  }

  /** Inserting `x` past a smaller head keeps the head first. */
  lemma InsertOrderedPast<T(!new), K>(x: T, r: seq<T>, key: T -> K, lt: (K, K) -> bool)
    requires StrictTotalOnKeys(key, lt)
    requires Ordered(r, key, lt)
    requires r != [] && lt(key(r[0]), key(x))
    requires Ordered(Insert(x, r[1..], key, lt), key, lt)
    ensures Ordered(Insert(x, r, key, lt), key, lt)
  {
    var rest := Insert(x, r[1..], key, lt);
    forall j | 0 <= j < |rest|
      ensures !lt(key(rest[j]), key(r[0]))
    {
      InsertElement(x, r[1..], key, lt, rest[j]);
      if rest[j] != x {
        var m :| 0 <= m < |r[1..]| && r[1..][m] == rest[j];
        assert r[m + 1] == rest[j];
      }
    }
    OrderedCons(r[0], rest, key, lt);
  }

  /** An element of `Insert(x, r)` is `x` or an element of `r`. */
  lemma InsertElement<T, K>(x: T, r: seq<T>, key: T -> K, lt: (K, K) -> bool, y: T)
    requires y in Insert(x, r, key, lt)
    ensures y == x || y in r
  {
    assert y in multiset(Insert(x, r, key, lt));
  }

  lemma OrderedTail<T, K>(r: seq<T>, key: T -> K, lt: (K, K) -> bool)
    requires r != [] && Ordered(r, key, lt)
    ensures Ordered(r[1..], key, lt)
  {
    forall i, j | 0 <= i < j < |r[1..]| ensures !lt(key(r[1..][j]), key(r[1..][i])) {
      assert r[1..][j] == r[j + 1] && r[1..][i] == r[i + 1];
    }
  }

  /** A head whose key is not above any later key keeps a list ordered. */
  lemma OrderedCons<T, K>(h: T, rest: seq<T>, key: T -> K, lt: (K, K) -> bool)
    requires Ordered(rest, key, lt)
    requires forall j :: 0 <= j < |rest| ==> !lt(key(rest[j]), key(h))
    ensures Ordered([h] + rest, key, lt)
  {
    var out := [h] + rest;
    forall i, j | 0 <= i < j < |out|
      ensures !lt(key(out[j]), key(out[i]))
    {
      assert out[j] == rest[j - 1];
      if i > 0 { assert out[i] == rest[i - 1]; }
    }
  }

  /** Inserting `x` in front of a head that is not smaller. */
  lemma InsertOrderedFront<T(!new), K>(x: T, r: seq<T>, key: T -> K, lt: (K, K) -> bool)
    requires StrictTotalOnKeys(key, lt)
    requires Ordered(r, key, lt)
    requires r != [] && !lt(key(r[0]), key(x))
    ensures Ordered(Insert(x, r, key, lt), key, lt)
  {
    assert Insert(x, r, key, lt) == [x] + r;
    forall j | 0 <= j < |r|
      ensures !lt(key(r[j]), key(x))
    {
      if j > 0 {
        assert !lt(key(r[j]), key(r[0]));
        assert lt(key(r[0]), key(r[j])) || key(r[0]) == key(r[j]);
      }
    }
    OrderedCons(x, r, key, lt);
  }

  /** The result of the sort is non-decreasing by key. */
  lemma {:induction false} SortIsOrdered<T(!new), K>(xs: seq<T>, key: T -> K, lt: (K, K) -> bool)
    requires StrictTotalOnKeys(key, lt)
    ensures Ordered(Sort(xs, key, lt), key, lt)
    decreases |xs|
  {
    if xs != [] {
      SortIsOrdered(xs[1..], key, lt);
      InsertOrdered(xs[0], Sort(xs[1..], key, lt), key, lt);
    }
  }

  lemma {:induction false} InsertKeepsEqualKeysInOrder<T(!new), K>(x: T, r: seq<T>, key: T -> K, lt: (K, K) -> bool, k: K)
    requires forall y :: !lt(key(y), key(y))
    ensures WithKey(Insert(x, r, key, lt), key, k) == (if key(x) == k then [x] else []) + WithKey(r, key, k)
    decreases |r|
  {
    if r != [] && lt(key(r[0]), key(x)) {
      InsertKeepsEqualKeysInOrder(x, r[1..], key, lt, k);
      InsertPastSmaller(x, r, key, lt, k);
    } else if r != [] {
      assert Insert(x, r, key, lt) == [x] + r;
      assert ([x] + r)[1..] == r;
    }
  }

  lemma InsertPastSmaller<T, K>(x: T, r: seq<T>, key: T -> K, lt: (K, K) -> bool, k: K)
    requires r != [] && lt(key(r[0]), key(x)) && key(r[0]) != key(x)
    requires WithKey(Insert(x, r[1..], key, lt), key, k) ==
      (if key(x) == k then [x] else []) + WithKey(r[1..], key, k)
    ensures WithKey(Insert(x, r, key, lt), key, k) == (if key(x) == k then [x] else []) + WithKey(r, key, k)
  {
    var rest := Insert(x, r[1..], key, lt);
    var a := if key(r[0]) == k then [r[0]] else [];
    var b := if key(x) == k then [x] else [];
    assert Insert(x, r, key, lt) == [r[0]] + rest;
    assert ([r[0]] + rest)[1..] == rest;
    assert WithKey(Insert(x, r, key, lt), key, k) == a + WithKey(rest, key, k);
    assert WithKey(r, key, k) == a + WithKey(r[1..], key, k);
    var w := WithKey(r[1..], key, k);
    if a == [] {
      assert a + (b + w) == b + w && a + w == w;
    } else {
      assert b == [];
      assert b + (a + w) == a + w && b + w == w;
    }
  }

  /** The sort is stable: for every key, the elements with that key appear in
      the result in the same order as in `xs`. */
  lemma {:induction false} SortIsStable<T(!new), K>(xs: seq<T>, key: T -> K, lt: (K, K) -> bool, k: K)
    requires StrictTotalOnKeys(key, lt)
    ensures WithKey(Sort(xs, key, lt), key, k) == WithKey(xs, key, k)
    decreases |xs|
  {
    if xs != [] {
      SortIsStable(xs[1..], key, lt, k);
      InsertKeepsEqualKeysInOrder(xs[0], Sort(xs[1..], key, lt), key, lt, k);
    }
  }

  lemma {:induction false} WithKeyMember<T, K>(s: seq<T>, key: T -> K, k: K, x: T)
    requires x in WithKey(s, key, k)
    ensures x in s && key(x) == k
    decreases |s|
  {
    if s != [] && !(key(s[0]) == k && x == s[0]) {
      WithKeyMember(s[1..], key, k, x);
    }
  }

  /** Two lists that are both non-decreasing by key and agree, key by key,
      on the order of their elements are the same list. */
  lemma {:induction false} OrderedAndStableIsUnique<T(!new), K>(a: seq<T>, b: seq<T>, key: T -> K, lt: (K, K) -> bool)
    requires StrictTotalOnKeys(key, lt)
    requires Ordered(a, key, lt) && Ordered(b, key, lt)
    requires forall k :: WithKey(a, key, k) == WithKey(b, key, k)
    ensures a == b
    decreases |a|
  {
    if a != [] { assert WithKey(a, key, key(a[0]))[0] == a[0]; }
    if b != [] { assert WithKey(b, key, key(b[0]))[0] == b[0]; }
    if a != [] && b != [] {
      var ka, kb := key(a[0]), key(b[0]);
      assert WithKey(a, key, ka)[0] == a[0];
      var bj := WithKey(b, key, ka)[0];
      WithKeyMember(b, key, ka, bj);
      var j :| 0 <= j < |b| && b[j] == bj;
      assert !lt(ka, kb) by { if j > 0 { assert !lt(key(b[j]), key(b[0])); } }
      assert WithKey(b, key, kb)[0] == b[0];
      var ai := WithKey(a, key, kb)[0];
      WithKeyMember(a, key, kb, ai);
      var i :| 0 <= i < |a| && a[i] == ai;
      assert !lt(kb, ka) by { if i > 0 { assert !lt(key(a[i]), key(a[0])); } }
      assert ka == kb;
      assert a[0] == b[0];
      forall k
        ensures WithKey(a[1..], key, k) == WithKey(b[1..], key, k)
      {
        var h := if key(a[0]) == k then [a[0]] else [];
        assert WithKey(a, key, k) == h + WithKey(a[1..], key, k);
        assert WithKey(b, key, k) == h + WithKey(b[1..], key, k);
        assert (h + WithKey(a[1..], key, k))[|h|..] == WithKey(a[1..], key, k);
        assert (h + WithKey(b[1..], key, k))[|h|..] == WithKey(b[1..], key, k);
      }
      OrderedTail(a, key, lt);
      OrderedTail(b, key, lt);
      OrderedAndStableIsUnique(a[1..], b[1..], key, lt);
      assert a == [a[0]] + a[1..] && b == [b[0]] + b[1..];
    }
  }

  /** The sort is the only stable ordering by key: any list that is
      non-decreasing by key and keeps, for every key, the order of `xs`, is
      `Sort(xs)`. */
  lemma SortIsTheStableOrdering<T(!new), K>(xs: seq<T>, r: seq<T>, key: T -> K, lt: (K, K) -> bool)
    requires StrictTotalOnKeys(key, lt)
    requires Ordered(r, key, lt)
    requires forall k :: WithKey(r, key, k) == WithKey(xs, key, k)
    ensures r == Sort(xs, key, lt)
  {
    SortIsOrdered(xs, key, lt);
    forall k ensures WithKey(Sort(xs, key, lt), key, k) == WithKey(xs, key, k) {
      SortIsStable(xs, key, lt, k);
    }
    OrderedAndStableIsUnique(r, Sort(xs, key, lt), key, lt);
  }
}
