/**
  Stable sorting by a string key, as Rust's `slice::sort_by` does it. The
  same reference sort also stands for the title order the blog asks MongoDB
  for (`FindOptions::sort`), which fixes no order among equal titles; the
  model takes the stable one.

  `Sort` is the reference definition (insertion sort on sequences); the
  lemmas show that it is ordered, keeps every element, and keeps the
  relative order of elements with equal keys. `Unique` shows that those
  properties determine the result, which is how `SortInPlace`, the in-place
  array sort, is proved to compute `Sort`.
 */
module StableSort {
  import opened Lex

  /** A key `x` may stand before a key `y`: ascending order, or descending when `desc`. */
  predicate InOrder(x: string, y: string, desc: bool) {
    if desc then LessEq(y, x) else LessEq(x, y)
  }

  lemma InOrderReflexive(x: string, desc: bool)
    ensures InOrder(x, x, desc)
  {
    LessEqReflexive(x);
  }

  lemma InOrderTotal(x: string, y: string, desc: bool)
    ensures InOrder(x, y, desc) || InOrder(y, x, desc)
  {
    LessEqTotal(x, y);
  }

  lemma InOrderAntisymmetric(x: string, y: string, desc: bool)
    requires InOrder(x, y, desc) && InOrder(y, x, desc)
    ensures x == y
  {
    LessEqAntisymmetric(x, y);
  }

  lemma InOrderTransitive(x: string, y: string, z: string, desc: bool)
    requires InOrder(x, y, desc) && InOrder(y, z, desc)
    ensures InOrder(x, z, desc)
  {
    if desc { LessEqTransitive(z, y, x); } else { LessEqTransitive(x, y, z); }
  }

  predicate Sorted<T>(s: seq<T>, key: T -> string, desc: bool) {
    forall i, j :: 0 <= i < j < |s| ==> InOrder(key(s[i]), key(s[j]), desc)
  }

  /** The elements of `s` whose key is `k`, in their order in `s`. */
  function WithKey<T>(s: seq<T>, key: T -> string, k: string): (r: seq<T>)
  {
    if s == [] then []
    else (if key(s[0]) == k then [s[0]] else []) + WithKey(s[1..], key, k)
  }

  /** Every key picks out the same elements, in the same order, from `x` and `y`. */
  ghost predicate SameKeyClasses<T>(x: seq<T>, y: seq<T>, key: T -> string) {
    forall k :: WithKey(x, key, k) == WithKey(y, key, k)
  }

  /** Places `e` before the first element it may precede. */
  function Insert<T>(e: T, s: seq<T>, key: T -> string, desc: bool): (r: seq<T>)
    ensures |r| == |s| + 1
    ensures multiset(r) == multiset(s) + multiset{e}
  {
    if s == [] || InOrder(key(e), key(s[0]), desc) then [e] + s
    else
      assert s == [s[0]] + s[1..];
      [s[0]] + Insert(e, s[1..], key, desc)
  }

  function Sort<T>(s: seq<T>, key: T -> string, desc: bool): (r: seq<T>)
    ensures |r| == |s|
    ensures multiset(r) == multiset(s)
  {
    if s == [] then []
    else
      assert s == [s[0]] + s[1..];
      Insert(s[0], Sort(s[1..], key, desc), key, desc)
  }

  lemma {:induction false} WithKeyAppend<T>(a: seq<T>, b: seq<T>, key: T -> string, k: string)
    ensures WithKey(a + b, key, k) == WithKey(a, key, k) + WithKey(b, key, k)
  {
    if a == [] {
      assert a + b == b;
    } else {
      assert (a + b)[0] == a[0] && (a + b)[1..] == a[1..] + b;
      WithKeyAppend(a[1..], b, key, k);
    }
  }

  lemma {:induction false} WithKeyMembers<T>(s: seq<T>, key: T -> string, k: string)
    ensures forall x :: x in WithKey(s, key, k) ==> x in s && key(x) == k
    ensures (exists i :: 0 <= i < |s| && key(s[i]) == k) ==> WithKey(s, key, k) != []
  {
    if s != [] {
      WithKeyMembers(s[1..], key, k);
      if key(s[0]) != k && exists i :: 0 <= i < |s| && key(s[i]) == k {
        var i :| 0 <= i < |s| && key(s[i]) == k;
        assert s[1..][i - 1] == s[i];
      }
    }
  }

  lemma {:induction false} InsertSorted<T>(e: T, s: seq<T>, key: T -> string, desc: bool)
    requires Sorted(s, key, desc)
    ensures Sorted(Insert(e, s, key, desc), key, desc)
  {
    var r := Insert(e, s, key, desc);
    if s == [] {
    } else if InOrder(key(e), key(s[0]), desc) {
      forall j | 1 <= j < |r| ensures InOrder(key(r[0]), key(r[j]), desc) {
        if j > 1 { InOrderTransitive(key(e), key(s[0]), key(s[j - 1]), desc); }
      }
    } else {
      InOrderTotal(key(e), key(s[0]), desc);
      var t := Insert(e, s[1..], key, desc);
      InsertSorted(e, s[1..], key, desc);
      forall j | 0 <= j < |t| ensures InOrder(key(s[0]), key(t[j]), desc) {
        assert t[j] in multiset(t);
        if t[j] != e {
          assert t[j] in s[1..];
          var m :| 0 <= m < |s[1..]| && s[1..][m] == t[j];
          assert s[m + 1] == t[j];
        }
      }
    }
  }

  lemma {:induction false} InsertWithKey<T>(e: T, s: seq<T>, key: T -> string, desc: bool, k: string)
    ensures WithKey(Insert(e, s, key, desc), key, k)
         == (if key(e) == k then [e] else []) + WithKey(s, key, k)
  {
    if s == [] || InOrder(key(e), key(s[0]), desc) {
      assert ([e] + s)[1..] == s;
    } else {
      InsertWithKey(e, s[1..], key, desc, k);
      InOrderReflexive(key(e), desc);
      assert ([s[0]] + Insert(e, s[1..], key, desc))[1..] == Insert(e, s[1..], key, desc);
    }
  }

  /** The reference sort is ordered by the key. */
  lemma {:induction false} SortSorted<T>(s: seq<T>, key: T -> string, desc: bool)
    ensures Sorted(Sort(s, key, desc), key, desc)
  {
    if s != [] {
      SortSorted(s[1..], key, desc);
      InsertSorted(s[0], Sort(s[1..], key, desc), key, desc);
    }
  }

  /** The reference sort is stable: each key's elements keep their relative order. */
  lemma {:induction false} SortStable<T>(s: seq<T>, key: T -> string, desc: bool)
    ensures SameKeyClasses(Sort(s, key, desc), s, key)
  {
    if s != [] {
      SortStable(s[1..], key, desc);
      forall k ensures WithKey(Sort(s, key, desc), key, k) == WithKey(s, key, k) {
        InsertWithKey(s[0], Sort(s[1..], key, desc), key, desc, k);
      }
    }
  }

  lemma HeadClass<T>(s: seq<T>, key: T -> string)
    requires s != []
    ensures WithKey(s, key, key(s[0])) != []
  {
  }

  /** Two ordered sequences with the same elements per key start with elements of the same key. */
  lemma HeadsShareKey<T>(x: seq<T>, y: seq<T>, key: T -> string, desc: bool)
    requires Sorted(x, key, desc) && Sorted(y, key, desc)
    requires SameKeyClasses(x, y, key)
    requires x != [] && y != []
    ensures key(x[0]) == key(y[0])
  {
    var kx, ky := key(x[0]), key(y[0]);
    WithKeyMembers(x, key, kx);
    WithKeyMembers(y, key, kx);
    assert WithKey(y, key, kx) == WithKey(x, key, kx);
    var i :| 0 <= i < |y| && key(y[i]) == kx;
    if i > 0 { assert InOrder(ky, kx, desc); } else { InOrderReflexive(kx, desc); }
    WithKeyMembers(y, key, ky);
    WithKeyMembers(x, key, ky);
    assert WithKey(y, key, ky) == WithKey(x, key, ky);
    var j :| 0 <= j < |x| && key(x[j]) == ky;
    if j > 0 { assert InOrder(kx, ky, desc); } else { InOrderReflexive(ky, desc); }
    InOrderAntisymmetric(kx, ky, desc);
  }

  /** Removing heads of the same key keeps the per-key elements equal. */
  lemma TailsShareClasses<T>(x: seq<T>, y: seq<T>, key: T -> string)
    requires SameKeyClasses(x, y, key)
    requires x != [] && y != [] && key(x[0]) == key(y[0])
    ensures x[0] == y[0] && SameKeyClasses(x[1..], y[1..], key)
  {
    var k0 := key(x[0]);
    assert WithKey(x, key, k0) == WithKey(y, key, k0);
    assert WithKey(x, key, k0)[0] == x[0];
    assert WithKey(y, key, k0)[0] == y[0];
    forall k ensures WithKey(x[1..], key, k) == WithKey(y[1..], key, k) {
      var wx, wy := WithKey(x[1..], key, k), WithKey(y[1..], key, k);
      assert WithKey(x, key, k) == WithKey(y, key, k);
      if k == k0 {
        assert ([x[0]] + wx)[1..] == wx;
        assert ([y[0]] + wy)[1..] == wy;
      } else {
        assert [] + wx == wx && [] + wy == wy;
      }
    }
  }

  /** Two ordered sequences with the same elements per key, in the same order, are equal. */
  lemma {:induction false} Unique<T>(x: seq<T>, y: seq<T>, key: T -> string, desc: bool)
    requires Sorted(x, key, desc) && Sorted(y, key, desc)
    requires SameKeyClasses(x, y, key)
    ensures x == y
    decreases |x|
  {
    if x == [] && y == [] {
    } else if x == [] {
      HeadClass(y, key);
      assert false;
    } else if y == [] {
      HeadClass(x, key);
      assert false;
    } else {
      HeadsShareKey(x, y, key, desc);
      TailsShareClasses(x, y, key);
      Unique(x[1..], y[1..], key, desc);
      assert x == [x[0]] + x[1..] && y == [y[0]] + y[1..];
    }
  }

  /** Exchanging two neighbours with different keys changes no key's elements. */
  lemma SwapNeighbours<T>(s: seq<T>, j: nat, key: T -> string)
    requires 0 < j < |s| && key(s[j - 1]) != key(s[j])
    ensures SameKeyClasses(s[..j - 1] + [s[j], s[j - 1]] + s[j + 1..], s, key)
  {
    assert s == s[..j - 1] + [s[j - 1], s[j]] + s[j + 1..];
    forall k ensures WithKey(s[..j - 1] + [s[j], s[j - 1]] + s[j + 1..], key, k) == WithKey(s, key, k) {
      WithKeyAppend(s[..j - 1] + [s[j], s[j - 1]], s[j + 1..], key, k);
      WithKeyAppend(s[..j - 1], [s[j], s[j - 1]], key, k);
      WithKeyAppend(s[..j - 1] + [s[j - 1], s[j]], s[j + 1..], key, k);
      WithKeyAppend(s[..j - 1], [s[j - 1], s[j]], key, k);
      assert [s[j], s[j - 1]][1..] == [s[j - 1]];
      assert [s[j - 1], s[j]][1..] == [s[j]];
    }
  }

  /**
    `v.sort_by(cmp)` on a vector. This loop is one stable sort (exchanging
    neighbours, moving an element only past elements it strictly precedes);
    by `Unique`, every stable sort leaves the same result, namely `Sort`.
   */
  method SortInPlace<T>(a: array<T>, key: T -> string, desc: bool)
    modifies a
    ensures a[..] == Sort(old(a[..]), key, desc)
  {
    ghost var s0 := a[..];
    var i := 0;
    while i < a.Length
      invariant 0 <= i <= a.Length
      invariant Sorted(a[..i], key, desc)
      invariant SameKeyClasses(a[..], s0, key)
    {
      var j := i;
      while j > 0 && !InOrder(key(a[j - 1]), key(a[j]), desc)
        invariant 0 <= j <= i
        invariant forall p, q :: 0 <= p < q <= i && q != j ==> InOrder(key(a[p]), key(a[q]), desc)
        invariant forall q :: j < q <= i ==> InOrder(key(a[j]), key(a[q]), desc)
        invariant SameKeyClasses(a[..], s0, key)
      {
        InOrderReflexive(key(a[j]), desc);
        InOrderTotal(key(a[j - 1]), key(a[j]), desc);
        ghost var before := a[..];
        SwapNeighbours(before, j, key);
        a[j - 1], a[j] := a[j], a[j - 1];
        assert a[..] == before[..j - 1] + [before[j], before[j - 1]] + before[j + 1..];
        forall q | j < q <= i ensures InOrder(key(a[j - 1]), key(a[q]), desc) {
          InOrderTransitive(key(a[j - 1]), key(a[j]), key(a[q]), desc);
        }
        j := j - 1;
      }
      forall p, q | 0 <= p < q <= i ensures InOrder(key(a[p]), key(a[q]), desc) {
        if q == j && p < j - 1 {
          InOrderTransitive(key(a[p]), key(a[j - 1]), key(a[j]), desc);
        }
      }
      i := i + 1;
    }
    assert a[..a.Length] == a[..];
    SortSorted(s0, key, desc);
    SortStable(s0, key, desc);
    Unique(a[..], Sort(s0, key, desc), key, desc);
  }

  /** Position of `t[i]` among the elements of `t` that share its key. */
  lemma RankInClass<T>(t: seq<T>, key: T -> string, i: nat)
    requires i < |t|
    ensures var c := WithKey(t, key, key(t[i]));
            |WithKey(t[..i], key, key(t[i]))| < |c| && c[|WithKey(t[..i], key, key(t[i]))|] == t[i]
  {
    var k := key(t[i]);
    assert t == t[..i] + [t[i]] + t[i + 1..];
    WithKeyAppend(t[..i] + [t[i]], t[i + 1..], key, k);
    WithKeyAppend(t[..i], [t[i]], key, k);
    assert WithKey([t[i]], key, k) == [t[i]];
  }

  lemma RankIncreasing<T>(t: seq<T>, key: T -> string, i: nat, j: nat)
    requires i < j < |t| && key(t[i]) == key(t[j])
    ensures |WithKey(t[..i], key, key(t[i]))| < |WithKey(t[..j], key, key(t[j]))|
  {
    var k := key(t[i]);
    assert t[..j] == t[..i] + [t[i]] + t[i + 1..j];
    WithKeyAppend(t[..i] + [t[i]], t[i + 1..j], key, k);
    WithKeyAppend(t[..i], [t[i]], key, k);
    assert WithKey([t[i]], key, k) == [t[i]];
  }

  /** Filtering keeps an order by any other key. */
  lemma {:induction false} WithKeySorted<T>(s: seq<T>, key: T -> string, k: string, key2: T -> string, desc2: bool)
    requires Sorted(s, key2, desc2)
    ensures Sorted(WithKey(s, key, k), key2, desc2)
  {
    if s != [] {
      WithKeySorted(s[1..], key, k, key2, desc2);
      WithKeyMembers(s[1..], key, k);
      var w := WithKey(s[1..], key, k);
      forall j | 0 <= j < |w| ensures InOrder(key2(s[0]), key2(w[j]), desc2) {
        assert w[j] in s[1..];
        var m :| 0 <= m < |s[1..]| && s[1..][m] == w[j];
        assert s[m + 1] == w[j];
      }
    }
  }

  /**
    Stability, stated pairwise: if `t` has the same elements per key as `s`,
    and `s` is ordered by a second key, then two elements of `t` with equal
    keys appear in `t` in the order of the second key.
   */
  lemma TiesKeepOrder<T>(t: seq<T>, s: seq<T>, key: T -> string, key2: T -> string, desc2: bool, i: nat, j: nat)
    requires SameKeyClasses(t, s, key) && Sorted(s, key2, desc2)
    requires i < j < |t| && key(t[i]) == key(t[j])
    ensures InOrder(key2(t[i]), key2(t[j]), desc2)
  {
    var k := key(t[i]);
    RankInClass(t, key, i);
    RankInClass(t, key, j);
    RankIncreasing(t, key, i, j);
    assert WithKey(t, key, k) == WithKey(s, key, k);
    WithKeySorted(s, key, k, key2, desc2);
  }
}
