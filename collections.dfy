/** Small sequence helpers: an optional value, distinctness, and Python's
    `list.remove(x)`, which drops the first element equal to x. */
module Collections {

  datatype Option<T> = None | Some(value: T)

  predicate Distinct<T(==)>(s: seq<T>)
  {
    forall i, j :: 0 <= i < j < |s| ==> s[i] != s[j]
  }

  /** The position of the first x in s. */
  function FirstIndex<T(==)>(s: seq<T>, x: T): (i: nat)
    requires x in s
    ensures i < |s| && s[i] == x && x !in s[..i]
  {
    if s[0] == x then 0
    else
      var j := FirstIndex(s[1..], x);
      assert s[..j + 1] == [s[0]] + s[1..][..j];
      1 + j
  }

  /** `s.remove(x)`: the first x is cut out and the order of the rest is
      kept. For an absent x, where Python raises, s is returned. */
  function Remove<T(==)>(s: seq<T>, x: T): (r: seq<T>)
    ensures x in s ==> |r| == |s| - 1
    ensures x !in s ==> r == s
    ensures forall y :: y in r ==> y in s
    ensures forall y :: y in s && y != x ==> y in r
    ensures Distinct(s) ==> Distinct(r) && x !in r
  {
    if |s| == 0 then []
    else if s[0] == x then
      assert Distinct(s) ==> x !in s[1..];
      s[1..]
    else
      var rest := Remove(s[1..], x);
      assert s == [s[0]] + s[1..];
      assert Distinct(s) ==> s[0] !in s[1..] && Distinct(s[1..]);
      assert Distinct(s) ==> s[0] !in rest;
      [s[0]] + rest
  }

  /** `remove` cuts out the first x and keeps the order of the rest. */
  lemma {:induction false} RemoveFirst<T>(s: seq<T>, x: T)
    requires x in s
    ensures Remove(s, x) == s[..FirstIndex(s, x)] + s[FirstIndex(s, x) + 1..]
  {
    if s[0] != x {
      assert x in s[1..];
      RemoveFirst(s[1..], x);
      var j := FirstIndex(s[1..], x);
      assert s[..j + 1] == [s[0]] + s[1..][..j];
      assert s[j + 2..] == s[1..][j + 1..];
    }
  }

  /** The elements of s that are not in xs, in order. */
  function Without<T(==)>(s: seq<T>, xs: seq<T>): (r: seq<T>)
    ensures |r| <= |s|
    ensures forall y :: y in r ==> y in s && y !in xs
    ensures forall y :: y in s && y !in xs ==> y in r
  {
    if |s| == 0 then []
    else
      assert forall y :: y in s ==> y == s[0] || y in s[1..];
      (if s[0] in xs then [] else [s[0]]) + Without(s[1..], xs)
  }

  lemma {:induction false} WithoutNone<T>(s: seq<T>)
    ensures Without(s, []) == s
  {
    if |s| > 0 {
      WithoutNone(s[1..]);
      assert s == [s[0]] + s[1..];
    }
  }

  /** Removing one more value from a list without duplicates is leaving it
      out together with the others. */
  lemma {:induction false} RemoveWithout<T>(s: seq<T>, xs: seq<T>, x: T)
    requires Distinct(s)
    ensures Remove(Without(s, xs), x) == Without(s, xs + [x])
  {
    if |s| > 0 {
      assert Distinct(s[1..]) && s[0] !in s[1..];
      RemoveWithout(s[1..], xs, x);
      var w := Without(s[1..], xs);
      if s[0] == x {
        WithoutAbsent(s[1..], xs, x);
        if x !in xs {
          assert Remove([x] + w, x) == w;
        }
      } else if s[0] !in xs {
        assert s[0] !in xs + [x];
        assert Without(s, xs) == [s[0]] + w;
        assert Remove([s[0]] + w, x) == [s[0]] + Remove(w, x) by {
          assert ([s[0]] + w)[1..] == w;
        }
      } else {
        assert s[0] in xs + [x];
        assert Without(s, xs) == w;
        assert Without(s, xs + [x]) == Without(s[1..], xs + [x]);
      }
    }
  }

  lemma {:induction false} WithoutAbsent<T>(s: seq<T>, xs: seq<T>, x: T)
    requires x !in s
    ensures Without(s, xs + [x]) == Without(s, xs)
  {
    if |s| > 0 {
      assert s[0] != x && x !in s[1..];
      WithoutAbsent(s[1..], xs, x);
    }
  }

  /** A prefix of a prefix is a prefix. */
  lemma PrefixTransitive<T>(a: seq<T>, b: seq<T>, c: seq<T>)
    requires |c| <= |b| <= |a| && a[..|b|] == b && b[..|c|] == c
    ensures a[..|c|] == c
  {
    assert forall i :: 0 <= i < |c| ==> a[i] == a[..|b|][i];
  }
}
