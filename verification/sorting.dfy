/**
 * Python's `sorted(xs, key=k)` on entries that carry their key: a stable
 * sort. The key of every element is computed once, so the list is modelled
 * as pairs `(key, item)`. Any two stable sorts of a list agree, so the
 * insertion sort used here gives the same result as Python's.
 */
module Sorting {
  /** An element with its precomputed key. */
  type Entry<T> = (real, T)

  predicate Sorted<T>(s: seq<Entry<T>>)
  {
    forall i, j :: 0 <= i < j < |s| ==> s[i].0 <= s[j].0
  }

  /** The elements of `s` whose key is `k`, in their order in `s`. */
  function WithKey<T>(s: seq<Entry<T>>, k: real): (r: seq<Entry<T>>)
    ensures |r| <= |s|
  {
    if s == [] then []
    else (if s[0].0 == k then [s[0]] else []) + WithKey(s[1..], k)
  }

  /** `x` placed before the first element of `t` whose key is not smaller. */
  function Insert<T>(x: Entry<T>, t: seq<Entry<T>>): (r: seq<Entry<T>>)
    ensures |r| == |t| + 1
  {
    if t == [] || x.0 <= t[0].0 then [x] + t
    else [t[0]] + Insert(x, t[1..])
  }

  lemma {:induction false} InsertMultiset<T>(x: Entry<T>, t: seq<Entry<T>>)
    ensures multiset(Insert(x, t)) == multiset([x] + t)
  {
    if t != [] && x.0 > t[0].0 {
      InsertMultiset(x, t[1..]);
      assert t == [t[0]] + t[1..];
      assert [x] + t == [x] + [t[0]] + t[1..];
    }
  }

  lemma {:induction false} InsertSorted<T>(x: Entry<T>, t: seq<Entry<T>>)
    requires Sorted(t)
    ensures Sorted(Insert(x, t))
  {
    if t != [] && x.0 > t[0].0 {
      var u := t[1..];
      InsertSorted(x, u);
      InsertMultiset(x, u);
      var r := Insert(x, u);
      forall j | 0 <= j < |r| ensures t[0].0 <= r[j].0 {
        assert r[j] in multiset(r);
        assert r[j] in multiset([x] + u);
      }
    }
  }

  /** The sort: a sorted permutation of its input. */
  function SortByKey<T>(s: seq<Entry<T>>): (r: seq<Entry<T>>)
    ensures Sorted(r)
    ensures multiset(r) == multiset(s)
    ensures |r| == |s|
  {
    if s == [] then []
    else
      var t := SortByKey(s[1..]);
      InsertSorted(s[0], t);
      InsertMultiset(s[0], t);
      assert s == [s[0]] + s[1..];
      Insert(s[0], t)
  }

  lemma {:induction false} WithKeyAppend<T>(a: seq<Entry<T>>, b: seq<Entry<T>>, k: real)
    ensures WithKey(a + b, k) == WithKey(a, k) + WithKey(b, k)
  {
    if a != [] {
      WithKeyAppend(a[1..], b, k);
      assert (a + b)[0] == a[0] && (a + b)[1..] == a[1..] + b;
      assert WithKey(a + b, k) == (if a[0].0 == k then [a[0]] else []) + WithKey(a[1..] + b, k);
    } else {
      assert a + b == b;
    }
  }

  /** Two neighbours with different keys may change places without changing any key's subsequence. */
  lemma WithKeySwap<T>(x: Entry<T>, y: Entry<T>, rest: seq<Entry<T>>, k: real)
    requires x.0 != y.0
    ensures WithKey([x, y] + rest, k) == WithKey([y, x] + rest, k)
  {
    WithKeyAppend([x, y], rest, k);
    WithKeyAppend([y, x], rest, k);
    WithKeyAppend([x], [y], k);
    WithKeyAppend([y], [x], k);
  }

  /** Inserting goes past smaller keys only, so no key's subsequence changes. */
  lemma {:induction false} InsertStable<T>(x: Entry<T>, t: seq<Entry<T>>, k: real)
    requires Sorted(t)
    ensures WithKey(Insert(x, t), k) == WithKey([x] + t, k)
  {
    if t != [] && x.0 > t[0].0 {
      var t0, u := t[0], t[1..];
      assert t == [t0] + u;
      calc {
        WithKey(Insert(x, t), k);
        WithKey([t0] + Insert(x, u), k);
        { WithKeyAppend([t0], Insert(x, u), k); }
        WithKey([t0], k) + WithKey(Insert(x, u), k);
        { InsertStable(x, u, k); }
        WithKey([t0], k) + WithKey([x] + u, k);
        { WithKeyAppend([t0], [x] + u, k); assert [t0] + ([x] + u) == [t0, x] + u; }
        WithKey([t0, x] + u, k);
        { WithKeySwap(t0, x, u, k); }
        WithKey([x, t0] + u, k);
        { assert [x, t0] + u == [x] + t; }
        WithKey([x] + t, k);
      }
    }
  }

  /** The sort is stable: for every key, the elements with that key keep their order. */
  lemma {:induction false} SortStable<T>(s: seq<Entry<T>>, k: real)
    ensures WithKey(SortByKey(s), k) == WithKey(s, k)
  {
    if s != [] {
      SortStable(s[1..], k);
      InsertStable(s[0], SortByKey(s[1..]), k);
      WithKeyAppend([s[0]], SortByKey(s[1..]), k);
      WithKeyAppend([s[0]], s[1..], k);
      assert s == [s[0]] + s[1..];
    }
  }

  /** A key occurs in `s` exactly when its subsequence is not empty. */
  lemma {:induction false} WithKeyNonEmpty<T>(s: seq<Entry<T>>, i: int)
    requires 0 <= i < |s|
    ensures WithKey(s, s[i].0) != []
  {
    if i > 0 {
      WithKeyNonEmpty(s[1..], i - 1);
    }
  }

  /** The first element with key `k` is the head of its subsequence. */
  lemma {:induction false} WithKeyHead<T>(s: seq<Entry<T>>, i: int)
    requires 0 <= i < |s|
    requires forall j :: 0 <= j < i ==> s[j].0 != s[i].0
    ensures WithKey(s, s[i].0) != [] && WithKey(s, s[i].0)[0] == s[i]
  {
    if i > 0 {
      WithKeyHead(s[1..], i - 1);
    }
  }

  /** Every element of a key's subsequence has that key and comes from `s`. */
  lemma {:induction false} WithKeyMembers<T>(s: seq<Entry<T>>, k: real)
    ensures forall e :: e in WithKey(s, k) ==> e.0 == k && e in s
  {
    if s != [] {
      WithKeyMembers(s[1..], k);
    }
  }

  /**
   * Stable sorting has one result: two sorted lists with the same
   * subsequence for every key are equal. So the insertion sort agrees with
   * any other stable sort, Python's included.
   */
  lemma {:induction false} StableUnique<T>(r1: seq<Entry<T>>, r2: seq<Entry<T>>)
    requires Sorted(r1) && Sorted(r2)
    requires forall k :: WithKey(r1, k) == WithKey(r2, k)
    ensures r1 == r2
    decreases |r1|
  {
    if r1 == [] || r2 == [] {
      // a key present in one list and absent from the other would have different subsequences
      if r1 != [] {
        WithKeyNonEmpty(r1, 0);
      } else if r2 != [] {
        WithKeyNonEmpty(r2, 0);
      }
    } else {
      var k1, k2 := r1[0].0, r2[0].0;
      WithKeyNonEmpty(r1, 0);
      WithKeyNonEmpty(r2, 0);
      WithKeyMembers(r1, k2);
      WithKeyMembers(r2, k1);
      assert WithKey(r2, k1)[0] in WithKey(r2, k1);
      assert WithKey(r1, k2)[0] in WithKey(r1, k2);
      assert k1 == k2;
      WithKeyHead(r1, 0);
      WithKeyHead(r2, 0);
      assert r1[0] == r2[0];
      forall k ensures WithKey(r1[1..], k) == WithKey(r2[1..], k) {
        var h := if k == k1 then [r1[0]] else [];
        assert WithKey(r1, k) == h + WithKey(r1[1..], k);
        assert WithKey(r2, k) == h + WithKey(r2[1..], k);
        assert WithKey(r1, k) == WithKey(r2, k);
        assert WithKey(r1[1..], k) == WithKey(r1, k)[|h|..];
        assert WithKey(r2[1..], k) == WithKey(r2, k)[|h|..];
      }
      StableUnique(r1[1..], r2[1..]);
    }
  }

  /** Reference definition: the first index of a smallest key, as a left-to-right scan finds it. */
  function FirstMin<T>(s: seq<Entry<T>>): (i: int)
    requires |s| > 0
    ensures 0 <= i < |s|
    ensures forall j :: 0 <= j < |s| ==> s[i].0 <= s[j].0
    ensures forall j :: 0 <= j < i ==> s[j].0 > s[i].0
  {
    if |s| == 1 then 0
    else
      var i := FirstMin(s[1..]);
      if s[0].0 <= s[i + 1].0 then 0 else i + 1
  }

  /** The front of the sorted list carries the smallest key. */
  lemma SortHeadKey<T>(s: seq<Entry<T>>)
    requires |s| > 0
    ensures SortByKey(s)[0].0 == s[FirstMin(s)].0
  {
    var r, i := SortByKey(s), FirstMin(s);
    SameElements(r, s, 0);
    var p :| 0 <= p < |s| && s[p] == r[0];
    SameElements(s, r, i);
    var j :| 0 <= j < |r| && r[j] == s[i];
    assert s[i].0 <= s[p].0;
    assert r[0].0 <= r[j].0;
  }

  /** An element of one of two lists with the same multiset occurs in the other. */
  lemma SameElements<T>(a: seq<Entry<T>>, b: seq<Entry<T>>, i: int)
    requires multiset(a) == multiset(b)
    requires 0 <= i < |a|
    ensures a[i] in b
  {
    assert a[i] in multiset(a);
  }

  /**
   * After sorting, the front of the deque is the first entry of smallest
   * key in the original order: ties go to the earliest.
   */
  lemma SortHead<T>(s: seq<Entry<T>>)
    requires |s| > 0
    ensures SortByKey(s)[0] == s[FirstMin(s)]
  {
    var r, i := SortByKey(s), FirstMin(s);
    SortHeadKey(s);
    SortStable(s, s[i].0);
    WithKeyHead(s, i);
    WithKeyHead(r, 0);
  }
}
