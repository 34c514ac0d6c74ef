/** The stable sort behind Python's `sorted(..., key=...)` and `list.sort(key=...)`,
    as an insertion sort over (key, item) pairs. Keys are compared
    lexicographically; a sort on one real key uses minor component 0. */
module Sorting {

  datatype Key = Key(major: real, minor: real)

  predicate KeyLe(a: Key, b: Key)
  {
    a.major < b.major || (a.major == b.major && a.minor <= b.minor)
  }

  predicate SortedByKey<T>(s: seq<(Key, T)>)
  {
    forall i, j :: 0 <= i < j < |s| ==> KeyLe(s[i].0, s[j].0)
  }

  /** The entries with key k, in their order in s. */
  function WithKey<T>(s: seq<(Key, T)>, k: Key): seq<(Key, T)>
  {
    if s == [] then []
    else (if s[0].0 == k then [s[0]] else []) + WithKey(s[1..], k)
  }

  /** Insert x before the first entry whose key is not smaller than x's. */
  function Insert<T>(x: (Key, T), s: seq<(Key, T)>): (r: seq<(Key, T)>)
    ensures |r| == |s| + 1
  {
    if s == [] then [x]
    else if KeyLe(x.0, s[0].0) then [x] + s
    else [s[0]] + Insert(x, s[1..])
  }

  lemma {:induction false} InsertPermutation<T>(x: (Key, T), s: seq<(Key, T)>)
    ensures multiset(Insert(x, s)) == multiset(s) + multiset{x}
  {
    if s != [] && !KeyLe(x.0, s[0].0) {
      InsertPermutation(x, s[1..]);
      assert s == [s[0]] + s[1..];
    }
  }

  lemma {:induction false} InsertSorted<T>(x: (Key, T), s: seq<(Key, T)>)
    requires SortedByKey(s)
    ensures SortedByKey(Insert(x, s))
  {
    if s == [] {
    } else if KeyLe(x.0, s[0].0) {
    } else {
      var rest := Insert(x, s[1..]);
      InsertSorted(x, s[1..]);
      InsertPermutation(x, s[1..]);
      var r := [s[0]] + rest;
      assert Insert(x, s) == r;
      forall j | 0 <= j < |rest| ensures KeyLe(s[0].0, rest[j].0) {
        assert rest[j] in multiset(rest);
        if rest[j] != x {
          assert rest[j] in multiset(s[1..]);
          var m :| 0 <= m < |s[1..]| && s[1..][m] == rest[j];
          assert s[m + 1] == rest[j];
        }
      }
      forall i, j | 0 <= i < j < |r| ensures KeyLe(r[i].0, r[j].0) {
        if i == 0 {
          assert r[j] == rest[j - 1];
        } else {
          assert r[i] == rest[i - 1] && r[j] == rest[j - 1];
        }
      }
    }
  }

  lemma {:induction false} WithKeyAppend<T>(a: seq<(Key, T)>, b: seq<(Key, T)>, k: Key)
    ensures WithKey(a + b, k) == WithKey(a, k) + WithKey(b, k)
  {
    if a == [] {
      assert a + b == b;
    } else {
      assert (a + b)[1..] == a[1..] + b;
      WithKeyAppend(a[1..], b, k);
    }
  }

  /** The entries passed over before x is placed all have keys strictly below
      x's, so the entries sharing x's key keep their order behind x. */
  lemma {:induction false} InsertStable<T>(x: (Key, T), s: seq<(Key, T)>, k: Key)
    ensures WithKey(Insert(x, s), k) == (if x.0 == k then [x] else []) + WithKey(s, k)
  {
    if s == [] {
      assert WithKey([x], k) == (if x.0 == k then [x] else []) + WithKey([], k) by {
        WithKeyAppend([x], [], k);
        assert [x] + [] == [x];
      }
    } else if KeyLe(x.0, s[0].0) {
      assert ([x] + s)[1..] == s;
    } else {
      InsertStable(x, s[1..], k);
      var rest := Insert(x, s[1..]);
      assert ([s[0]] + rest)[1..] == rest;
      assert s[0].0 != x.0;
    }
  }

  /** `sorted(s, key=...)`. */
  function SortByKey<T>(s: seq<(Key, T)>): (r: seq<(Key, T)>)
    ensures |r| == |s|
  {
    if s == [] then [] else Insert(s[0], SortByKey(s[1..]))
  }

  lemma {:induction false} SortPermutation<T>(s: seq<(Key, T)>)
    ensures multiset(SortByKey(s)) == multiset(s)
  {
    if s != [] {
      SortPermutation(s[1..]);
      InsertPermutation(s[0], SortByKey(s[1..]));
      assert s == [s[0]] + s[1..];
    }
  }

  lemma {:induction false} SortSorted<T>(s: seq<(Key, T)>)
    ensures SortedByKey(SortByKey(s))
  {
    if s != [] {
      SortSorted(s[1..]);
      InsertSorted(s[0], SortByKey(s[1..]));
    }
  }

  /** Stability: among entries with equal keys the input order is kept. */
  lemma {:induction false} SortStable<T>(s: seq<(Key, T)>, k: Key)
    ensures WithKey(SortByKey(s), k) == WithKey(s, k)
  {
    if s != [] {
      SortStable(s[1..], k);
      InsertStable(s[0], SortByKey(s[1..]), k);
    }
  }

  /** The Python sorting promise in one place: ascending, a permutation, stable. */
  lemma SortByKeyCorrect<T>(s: seq<(Key, T)>)
    ensures SortedByKey(SortByKey(s))
    ensures multiset(SortByKey(s)) == multiset(s)
    ensures forall k :: WithKey(SortByKey(s), k) == WithKey(s, k)
  {
    SortSorted(s);
    SortPermutation(s);
    forall k ensures WithKey(SortByKey(s), k) == WithKey(s, k) {
      SortStable(s, k);
    }
  }

  /** The items of the pairs, in order. */
  function Items<T>(s: seq<(Key, T)>): (r: seq<T>)
    ensures |r| == |s|
    ensures forall i :: 0 <= i < |s| ==> r[i] == s[i].1
  {
    if s == [] then [] else [s[0].1] + Items(s[1..])
  }

  lemma {:induction false} InsertItems<T>(x: (Key, T), s: seq<(Key, T)>)
    ensures multiset(Items(Insert(x, s))) == multiset(Items(s)) + multiset{x.1}
  {
    if s == [] {
    } else if KeyLe(x.0, s[0].0) {
      assert ([x] + s)[1..] == s;
    } else {
      InsertItems(x, s[1..]);
      var rest := Insert(x, s[1..]);
      assert ([s[0]] + rest)[1..] == rest;
      assert Items(s) == [s[0].1] + Items(s[1..]);
    }
  }

  /** Sorting moves items around without adding or losing any. */
  lemma {:induction false} SortItems<T>(s: seq<(Key, T)>)
    ensures multiset(Items(SortByKey(s))) == multiset(Items(s))
  {
    if s != [] {
      SortItems(s[1..]);
      InsertItems(s[0], SortByKey(s[1..]));
      assert Items(s) == [s[0].1] + Items(s[1..]);
    }
  }

  lemma {:induction false} ItemsSplit<T>(a: seq<(Key, T)>, b: seq<(Key, T)>)
    ensures Items(a + b) == Items(a) + Items(b)
  {
    if a == [] {
      assert a + b == b;
    } else {
      assert (a + b)[1..] == a[1..] + b;
      ItemsSplit(a[1..], b);
    }
  }
}
