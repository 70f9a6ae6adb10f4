/**
 * `Array.prototype.sort` with a comparator `(a, b) => key(a) - key(b)`: an
 * ascending sort by an integer key that keeps the input order among equal keys
 * (ECMAScript requires a stable sort since its 2019 edition). The solver sorts
 * this way twice: the courses by domain size, and each domain by score.
 */
module Sorting {

  /** Inserts `x` before the first element whose key is not smaller than its own. */
  function Insert<T>(x: T, s: seq<T>, key: T -> int): (r: seq<T>)
    ensures multiset(r) == multiset(s) + multiset{x}
  {
    if s == [] || key(x) <= key(s[0]) then [x] + s
    else
      var tail := Insert(x, s[1..], key);
      assert s == [s[0]] + s[1..];
      [s[0]] + tail
  }

  /** The stable ascending sort by `key`: it keeps exactly the elements it is given. */
  function SortBy<T>(s: seq<T>, key: T -> int): (r: seq<T>)
    ensures multiset(r) == multiset(s)
  {
    if s == [] then []
    else
      assert s == [s[0]] + s[1..];
      Insert(s[0], SortBy(s[1..], key), key)
  }

  ghost predicate SortedBy<T>(s: seq<T>, key: T -> int)
  {
    forall i, j :: 0 <= i < j < |s| ==> key(s[i]) <= key(s[j])
  }

  /** The elements of `s` whose key is `k`, in the order they have in `s`. */
  function WithKey<T>(s: seq<T>, key: T -> int, k: int): seq<T>
  {
    if s == [] then [] else (if key(s[0]) == k then [s[0]] else []) + WithKey(s[1..], key, k)
  }

  lemma {:induction false} WithKeyMembers<T>(s: seq<T>, key: T -> int, k: int)
    ensures forall y :: y in WithKey(s, key, k) ==> y in s && key(y) == k
    ensures forall y :: y in s && key(y) == k ==> y in WithKey(s, key, k)
  {
    if s != [] {
      WithKeyMembers(s[1..], key, k);
      assert s == [s[0]] + s[1..];
    }
  }

  lemma {:induction false} WithKeyAppend<T>(a: seq<T>, b: seq<T>, key: T -> int, k: int)
    ensures WithKey(a + b, key, k) == WithKey(a, key, k) + WithKey(b, key, k)
  {
    if a != [] {
      WithKeyAppend(a[1..], b, key, k);
      assert (a + b)[1..] == a[1..] + b;
    } else {
      assert a + b == b;
    }
  }

  lemma {:induction false} InsertSorted<T>(x: T, s: seq<T>, key: T -> int)
    requires SortedBy(s, key)
    ensures SortedBy(Insert(x, s, key), key)
  {
    if s != [] && key(x) > key(s[0]) {
      var tail := Insert(x, s[1..], key);
      InsertSorted(x, s[1..], key);
      forall y | y in tail ensures key(s[0]) <= key(y)
      {
        assert y in multiset(tail);
        if y != x {
          assert y in s[1..];
        }
      }
      ConsSorted(s[0], tail, key);
    }
  }

  /** A head no larger than any element of an ordered tail keeps it ordered. */
  lemma ConsSorted<T>(h: T, t: seq<T>, key: T -> int)
    requires SortedBy(t, key) && forall y :: y in t ==> key(h) <= key(y)
    ensures SortedBy([h] + t, key)
  {
    var r := [h] + t;
    forall i, j | 0 <= i < j < |r| ensures key(r[i]) <= key(r[j])
    {
      assert r[j] == t[j - 1];
      if i > 0 {
        assert r[i] == t[i - 1];
      } else {
        assert t[j - 1] in t;
      }
    }
  }

  /** The result of the sort is ordered by key. */
  lemma {:induction false} SortBySorted<T>(s: seq<T>, key: T -> int)
    ensures SortedBy(SortBy(s, key), key)
  {
    if s != [] {
      SortBySorted(s[1..], key);
      InsertSorted(s[0], SortBy(s[1..], key), key);
    }
  }

  lemma {:induction false} InsertWithKey<T>(x: T, s: seq<T>, key: T -> int, k: int)
    ensures WithKey(Insert(x, s, key), key, k) == (if key(x) == k then [x] else []) + WithKey(s, key, k)
    decreases |s|, 1
  {
    if s != [] && key(x) > key(s[0]) {
      InsertPastHead(x, s, key, k);
    } else {
      assert Insert(x, s, key) == [x] + s;
      assert ([x] + s)[1..] == s;
    }
  }

  lemma {:induction false} InsertPastHead<T>(x: T, s: seq<T>, key: T -> int, k: int)
    requires s != [] && key(x) > key(s[0])
    ensures WithKey(Insert(x, s, key), key, k) == (if key(x) == k then [x] else []) + WithKey(s, key, k)
    decreases |s|, 0
  {
    var tail := Insert(x, s[1..], key);
    InsertWithKey(x, s[1..], key, k);
    assert Insert(x, s, key) == [s[0]] + tail;
    WithKeyCons(s[0], tail, key, k);
    var hx := if key(x) == k then [x] else [];
    var hs := if key(s[0]) == k then [s[0]] else [];
    assert WithKey(s, key, k) == hs + WithKey(s[1..], key, k);
    SwapEmpty(hs, hx, WithKey(s[1..], key, k));
  }

  lemma WithKeyCons<T>(h: T, t: seq<T>, key: T -> int, k: int)
    ensures WithKey([h] + t, key, k) == (if key(h) == k then [h] else []) + WithKey(t, key, k)
  {
    assert ([h] + t)[1..] == t;
  }

  /** Two prefixes of which one is empty can be put in either order. */
  lemma SwapEmpty<T>(a: seq<T>, b: seq<T>, w: seq<T>)
    requires a == [] || b == []
    ensures a + (b + w) == b + (a + w)
  {
    if a == [] {
      assert [] + (b + w) == b + w;
      assert [] + w == w;
    } else {
      assert [] + (a + w) == a + w;
      assert [] + w == w;
    }
  }

  /** The sort is stable: among the elements with any one key, the input order is kept. */
  lemma {:induction false} SortByStable<T>(s: seq<T>, key: T -> int, k: int)
    ensures WithKey(SortBy(s, key), key, k) == WithKey(s, key, k)
  {
    if s != [] {
      SortByStable(s[1..], key, k);
      InsertWithKey(s[0], SortBy(s[1..], key), key, k);
    }
  }

  lemma WithKeyOfHead<T>(s: seq<T>, key: T -> int)
    ensures s != [] ==> WithKey(s, key, key(s[0])) != []
  {
  }

  /**
   * Two sequences that are both ordered by key and agree on the elements of every
   * key, in order, are equal: a stable sort has only one possible result.
   */
  lemma {:induction false} StableSortUnique<T>(r1: seq<T>, r2: seq<T>, key: T -> int)
    requires SortedBy(r1, key) && SortedBy(r2, key)
    requires forall k :: WithKey(r1, key, k) == WithKey(r2, key, k)
    ensures r1 == r2
    decreases |r1|
  {
    if r1 == [] {
      WithKeyOfHead(r2, key);
    } else if r2 == [] {
      WithKeyOfHead(r1, key);
    } else {
      SameHead(r1, r2, key);
      forall k ensures WithKey(r1[1..], key, k) == WithKey(r2[1..], key, k)
      {
        SameTail(r1, r2, key, k);
      }
      StableSortUnique(r1[1..], r2[1..], key);
      assert r1 == [r1[0]] + r1[1..] && r2 == [r2[0]] + r2[1..];
    }
  }

  /** Both sequences start with the first element of the smallest key. */
  lemma SameHead<T>(r1: seq<T>, r2: seq<T>, key: T -> int)
    requires r1 != [] && r2 != []
    requires SortedBy(r1, key) && SortedBy(r2, key)
    requires forall k :: WithKey(r1, key, k) == WithKey(r2, key, k)
    ensures r1[0] == r2[0]
  {
    var k1, k2 := key(r1[0]), key(r2[0]);
    WithKeyMembers(r1, key, k2);
    WithKeyMembers(r2, key, k1);
    assert r1[0] in WithKey(r1, key, k1);
    assert r2[0] in WithKey(r2, key, k2);
    assert k2 <= k1 by {
      var j :| 0 <= j < |r2| && r2[j] == r1[0];
    }
    assert k1 <= k2 by {
      var j :| 0 <= j < |r1| && r1[j] == r2[0];
    }
    assert WithKey(r1, key, k1) == [r1[0]] + WithKey(r1[1..], key, k1);
    assert WithKey(r2, key, k1) == [r2[0]] + WithKey(r2[1..], key, k1);
    assert WithKey(r1, key, k1)[0] == r1[0] && WithKey(r2, key, k1)[0] == r2[0];
  }

  /** Equal heads removed, the tails still agree on the elements of key `k`. */
  lemma SameTail<T>(r1: seq<T>, r2: seq<T>, key: T -> int, k: int)
    requires r1 != [] && r2 != [] && r1[0] == r2[0]
    requires WithKey(r1, key, k) == WithKey(r2, key, k)
    ensures WithKey(r1[1..], key, k) == WithKey(r2[1..], key, k)
  {
    var head := if key(r1[0]) == k then [r1[0]] else [];
    assert WithKey(r1, key, k) == head + WithKey(r1[1..], key, k);
    assert WithKey(r2, key, k) == head + WithKey(r2[1..], key, k);
    assert (head + WithKey(r1[1..], key, k))[|head|..] == WithKey(r1[1..], key, k);
    assert (head + WithKey(r2[1..], key, k))[|head|..] == WithKey(r2[1..], key, k);
  }

  /**
   * When every key is `a` or `b` with `a < b`, the stable sort puts every element
   * with key `a` first and every element with key `b` after, each group in input order.
   */
  lemma TwoKeySort<T>(s: seq<T>, key: T -> int, a: int, b: int)
    requires a < b
    requires forall x :: x in s ==> key(x) == a || key(x) == b
    ensures SortBy(s, key) == WithKey(s, key, a) + WithKey(s, key, b)
  {
    var lo, hi := WithKey(s, key, a), WithKey(s, key, b);
    var r := lo + hi;
    WithKeyMembers(s, key, a);
    WithKeyMembers(s, key, b);
    forall i, j | 0 <= i < j < |r| ensures key(r[i]) <= key(r[j])
    {
      if i < |lo| {
        assert r[i] in lo;
        if j < |lo| { assert r[j] in lo; } else { assert r[j] == hi[j - |lo|] && hi[j - |lo|] in hi; }
      } else {
        assert r[i] == hi[i - |lo|] && hi[i - |lo|] in hi;
        assert r[j] == hi[j - |lo|] && hi[j - |lo|] in hi;
      }
    }
    forall k ensures WithKey(r, key, k) == WithKey(SortBy(s, key), key, k)
    {
      SortByStable(s, key, k);
      WithKeyAppend(lo, hi, key, k);
      OneKey(lo, key, a, k);
      OneKey(hi, key, b, k);
      if k != a && k != b {
        NoSuchKey(s, key, k);
      }
    }
    SortBySorted(s, key);
    StableSortUnique(r, SortBy(s, key), key);
  }

  lemma {:induction false} OneKey<T>(s: seq<T>, key: T -> int, a: int, k: int)
    requires forall x :: x in s ==> key(x) == a
    ensures WithKey(s, key, k) == if k == a then s else []
  {
    if s != [] {
      assert s[0] in s;
      assert forall x :: x in s[1..] ==> x in s;
      OneKey(s[1..], key, a, k);
      assert s == [s[0]] + s[1..];
    }
  }

  lemma NoSuchKey<T>(s: seq<T>, key: T -> int, k: int)
    requires forall x :: x in s ==> key(x) != k
    ensures WithKey(s, key, k) == []
  {
    WithKeyMembers(s, key, k);
  }

  /** No two elements of `s` have the same image under `f`. */
  ghost predicate DistinctBy<T, U>(s: seq<T>, f: T -> U)
  {
    forall i, j :: 0 <= i < j < |s| ==> f(s[i]) != f(s[j])
  }

  lemma {:induction false} DistinctByOnce<T, U>(s: seq<T>, f: T -> U, x: T)
    requires DistinctBy(s, f)
    ensures multiset(s)[x] <= 1
  {
    if s != [] {
      var tail := s[1..];
      assert DistinctBy(tail, f) by {
        forall i, j | 0 <= i < j < |tail| ensures f(tail[i]) != f(tail[j])
        {
          assert tail[i] == s[i + 1] && tail[j] == s[j + 1];
        }
      }
      DistinctByOnce(tail, f, x);
      assert s == [s[0]] + tail;
      if s[0] == x {
        forall k | 0 <= k < |tail| ensures tail[k] != x
        {
          assert tail[k] == s[k + 1];
        }
      }
    }
  }

  lemma TwiceCounted<T>(s: seq<T>, i: nat, j: nat)
    requires i < j < |s| && s[i] == s[j]
    ensures multiset(s)[s[i]] >= 2
  {
    assert s == s[..j] + [s[j]] + s[j + 1..];
    assert s[i] in s[..j];
  }

  /** Reordering keeps elements distinct by any projection: in particular, the sort does. */
  lemma PermutationKeepsDistinct<T, U>(a: seq<T>, b: seq<T>, f: T -> U)
    requires multiset(a) == multiset(b) && DistinctBy(a, f)
    ensures DistinctBy(b, f)
  {
    forall i, j | 0 <= i < j < |b| ensures f(b[i]) != f(b[j])
    {
      if b[i] == b[j] {
        TwiceCounted(b, i, j);
        DistinctByOnce(a, f, b[i]);
      } else {
        assert b[i] in multiset(a) && b[j] in multiset(a);
        var p :| 0 <= p < |a| && a[p] == b[i];
        var q :| 0 <= q < |a| && a[q] == b[j];
        assert p < q || q < p;
      }
    }
  }
}
