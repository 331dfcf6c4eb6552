/**
 Python's `sorted(xs, key=key)` on integer keys: a stable sort. It is modelled
 as an insertion sort and proved to return a permutation of its input, ordered
 by key, in which elements of equal key keep their input order. Those three
 properties determine the result, so any stable sort returns the same sequence.
 */
module StableSort {

  predicate SortedBy<T>(s: seq<T>, key: T -> int) {
    forall i, j :: 0 <= i < j < |s| ==> key(s[i]) <= key(s[j])
  }

  /** The elements of `s` whose key is `k`, in their order in `s`. */
  function WithKey<T>(s: seq<T>, key: T -> int, k: int): (r: seq<T>)
    ensures |r| <= |s|
    ensures forall i :: 0 <= i < |r| ==> key(r[i]) == k
    ensures forall x :: x in r ==> x in s
  {
    if |s| == 0 then []
    else if key(s[0]) == k then [s[0]] + WithKey(s[1..], key, k)
    else WithKey(s[1..], key, k)
  }

  /** `t` lists, for every key, the same elements in the same order as `s`. */
  ghost predicate SameOrderPerKey<T>(t: seq<T>, s: seq<T>, key: T -> int) {
    forall k :: WithKey(t, key, k) == WithKey(s, key, k)
  }

  /** Places `x` before the first element whose key is not smaller than its own. */
  function Insert<T>(x: T, t: seq<T>, key: T -> int): (r: seq<T>)
    ensures multiset(r) == multiset(t) + multiset{x}
  {
    if |t| == 0 then [x]
    else if key(x) <= key(t[0]) then [x] + t
    else
      var r := [t[0]] + Insert(x, t[1..], key);
      assert t == [t[0]] + t[1..];
      r
  }

  lemma {:induction false} InsertSorted<T>(x: T, t: seq<T>, key: T -> int)
    requires SortedBy(t, key)
    ensures SortedBy(Insert(x, t, key), key)
    decreases |t|
  {
    if |t| > 0 && key(x) > key(t[0]) {
      var u := Insert(x, t[1..], key);
      InsertSorted(x, t[1..], key);
      forall j | 0 <= j < |u|
        ensures key(t[0]) <= key(u[j])
      {
        assert u[j] in multiset(u);
        if u[j] != x {
          assert u[j] in multiset(t[1..]);
          var m :| 0 <= m < |t[1..]| && t[1..][m] == u[j];
          assert t[m + 1] == u[j];
        }
      }
      assert Insert(x, t, key) == [t[0]] + u;
    }
  }

  lemma {:induction false} InsertWithKey<T>(x: T, t: seq<T>, key: T -> int, k: int)
    ensures WithKey(Insert(x, t, key), key, k)
         == (if key(x) == k then [x] + WithKey(t, key, k) else WithKey(t, key, k))
    decreases |t|
  {
    if |t| == 0 {
    } else if key(x) <= key(t[0]) {
      assert ([x] + t)[1..] == t;
    } else {
      var r := [t[0]] + Insert(x, t[1..], key);
      assert r[1..] == Insert(x, t[1..], key);
      InsertWithKey(x, t[1..], key, k);
    }
  }

  /** The insertion sort; it sorts the tail and inserts the head in front of its equals. */
  function Sort<T>(s: seq<T>, key: T -> int): (r: seq<T>)
    ensures multiset(r) == multiset(s)
    ensures SortedBy(r, key)
    ensures SameOrderPerKey(r, s, key)
  {
    if |s| == 0 then []
    else
      var rest := Sort(s[1..], key);
      var r := Insert(s[0], rest, key);
      InsertSorted(s[0], rest, key);
      assert s == [s[0]] + s[1..];
      forall k ensures WithKey(r, key, k) == WithKey(s, key, k) {
        InsertWithKey(s[0], rest, key, k);
      }
      r
  }

  // ---------------------------------------------------------------------------
  // uniqueness: the three properties leave no freedom

  lemma {:induction false} WithKeyNonEmpty<T>(s: seq<T>, key: T -> int, k: int)
    requires |WithKey(s, key, k)| > 0
    ensures exists i :: 0 <= i < |s| && key(s[i]) == k
    decreases |s|
  {
    if key(s[0]) != k {
      WithKeyNonEmpty(s[1..], key, k);
      var i :| 0 <= i < |s[1..]| && key(s[1..][i]) == k;
      assert key(s[i + 1]) == k;
    }
  }

  lemma WithKeyHasIndex<T>(s: seq<T>, key: T -> int, i: int)
    requires 0 <= i < |s|
    ensures |WithKey(s, key, key(s[i]))| > 0
  {
    var k := key(s[i]);
    if |WithKey(s, key, k)| == 0 {
      WithKeyAbsent(s, key, k, i);
    }
  }

  lemma {:induction false} WithKeyAbsent<T>(s: seq<T>, key: T -> int, k: int, i: int)
    requires 0 <= i < |s| && key(s[i]) == k
    ensures |WithKey(s, key, k)| > 0
    decreases |s|
  {
    if key(s[0]) != k {
      WithKeyAbsent(s[1..], key, k, i - 1);
    }
  }

  /** Two sorted sequences with the same elements in the same order per key are equal. */
  lemma {:induction false} StableSortUnique<T>(a: seq<T>, b: seq<T>, key: T -> int)
    requires SortedBy(a, key) && SortedBy(b, key)
    requires forall k :: WithKey(a, key, k) == WithKey(b, key, k)
    ensures a == b
    decreases |a|
  {
    if |a| == 0 {
      if |b| > 0 {
        WithKeyHasIndex(b, key, 0);
      }
    } else if |b| == 0 {
      WithKeyHasIndex(a, key, 0);
    } else {
      var ka, kb := key(a[0]), key(b[0]);
      WithKeyHasIndex(a, key, 0);
      WithKeyNonEmpty(b, key, ka);
      WithKeyHasIndex(b, key, 0);
      WithKeyNonEmpty(a, key, kb);
      assert ka == kb;
      assert WithKey(a, key, ka)[0] == a[0];
      assert WithKey(b, key, kb)[0] == b[0];
      assert a[0] == b[0];
      forall k ensures WithKey(a[1..], key, k) == WithKey(b[1..], key, k) {
        assert WithKey(a, key, k) == WithKey(b, key, k);
        if key(a[0]) == k {
          assert WithKey(a, key, k) == [a[0]] + WithKey(a[1..], key, k);
          assert WithKey(b, key, k) == [b[0]] + WithKey(b[1..], key, k);
          assert WithKey(a, key, k)[1..] == WithKey(a[1..], key, k);
        }
      }
      StableSortUnique(a[1..], b[1..], key);
      assert a == [a[0]] + a[1..];
      assert b == [b[0]] + b[1..];
    }
  }

  /** Any stable sort of `s` by `key` is the insertion sort `Sort(s, key)`. */
  lemma StableSortIsSort<T>(s: seq<T>, t: seq<T>, key: T -> int)
    requires SortedBy(t, key) && SameOrderPerKey(t, s, key)
    ensures t == Sort(s, key)
  {
    var r := Sort(s, key);
    StableSortUnique(t, r, key);
  }
}
