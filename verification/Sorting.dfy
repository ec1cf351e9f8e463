/** `sort.Slice`, for orders given by a pair of integers per element. */
module Sorting {

  predicate Before(a: (int, int), b: (int, int)) {
    a.0 < b.0 || (a.0 == b.0 && a.1 <= b.1)
  }

  ghost predicate Sorted<T>(s: seq<T>, key: T -> (int, int)) {
    forall i, j :: 0 <= i < j < |s| ==> Before(key(s[i]), key(s[j]))
  }

  function InsertAt<T>(r: seq<T>, i: nat, x: T): (t: seq<T>)
    requires i <= |r|
    ensures |t| == |r| + 1
    ensures forall k :: 0 <= k < |t| ==> t[k] == if k < i then r[k] else if k == i then x else r[k - 1]
  {
    r[..i] + [x] + r[i..]
  }

  lemma InsertAtMultiset<T>(r: seq<T>, i: nat, x: T)
    requires i <= |r|
    ensures multiset(InsertAt(r, i, x)) == multiset(r) + multiset{x}
  {
    assert r == r[..i] + r[i..];
  }

  lemma SortedInsert<T>(r: seq<T>, i: nat, x: T, key: T -> (int, int))
    requires Sorted(r, key) && i <= |r|
    requires forall j :: 0 <= j < i ==> Before(key(r[j]), key(x))
    requires i < |r| ==> !Before(key(r[i]), key(x))
    ensures Sorted(InsertAt(r, i, x), key)
  {
    var t := InsertAt(r, i, x);
    forall k | i <= k < |r|
      ensures Before(key(x), key(r[k]))
    {
      if i < k {
        assert Before(key(r[i]), key(r[k]));
      }
    }
    forall j, k | 0 <= j < k < |t|
      ensures Before(key(t[j]), key(t[k]))
    {
      var u, v := t[j], t[k];
      if j < i {
        assert u == r[j];
        if k < i {
          assert v == r[k];
        } else if k > i {
          assert v == r[k - 1] && Before(key(r[j]), key(r[k - 1]));
        }
      } else if j == i {
        assert v == r[k - 1] && Before(key(x), key(r[k - 1]));
      } else {
        assert u == r[j - 1] && v == r[k - 1] && Before(key(r[j - 1]), key(r[k - 1]));
      }
    }
  }

  /** Returns some arrangement of `s` that is ordered by `key`; which one of
      several is not promised, as `sort.Slice` is not stable. */
  method Sort<T>(s: seq<T>, key: T -> (int, int)) returns (r: seq<T>)
    ensures Sorted(r, key)
    ensures multiset(r) == multiset(s)
  {
    r := [];
    var n := 0;
    while n < |s|
      invariant 0 <= n <= |s|
      invariant Sorted(r, key) && multiset(r) == multiset(s[..n])
    {
      var i := 0;
      while i < |r| && Before(key(r[i]), key(s[n]))
        invariant 0 <= i <= |r|
        invariant forall j :: 0 <= j < i ==> Before(key(r[j]), key(s[n]))
      {
        i := i + 1;
      }
      SortedInsert(r, i, s[n], key);
      InsertAtMultiset(r, i, s[n]);
      r := InsertAt(r, i, s[n]);
      assert s[..n + 1] == s[..n] + [s[n]];
      n := n + 1;
    }
    assert s[..n] == s;
  }

  /** Same elements, in both directions. */
  lemma SameElements<T>(r: seq<T>, s: seq<T>)
    requires multiset(r) == multiset(s)
    ensures |r| == |s|
    ensures forall x :: x in r <==> x in s
  {
    assert |r| == |multiset(r)| && |s| == |multiset(s)|;
    forall x
      ensures x in r <==> x in s
    {
      assert x in r <==> x in multiset(r);
    }
  }

  /** Objects together with the attribute by which they are sorted. */
  function Keyed<T>(keys: seq<int>, s: seq<T>): (r: seq<(int, T)>)
    requires |keys| == |s|
    ensures |r| == |s| && forall k :: 0 <= k < |r| ==> r[k] == (keys[k], s[k])
  {
    seq(|s|, k requires 0 <= k < |s| => (keys[k], s[k]))
  }

  function ByKey<T>(p: (int, T)): (int, int) {
    (p.0, 0)
  }

  function Second<T>(s: seq<(int, T)>): (r: seq<T>)
    ensures |r| == |s| && forall k :: 0 <= k < |r| ==> r[k] == s[k].1
  {
    seq(|s|, k requires 0 <= k < |s| => s[k].1)
  }

  ghost predicate Distinct<T>(s: seq<T>) {
    forall i, j :: 0 <= i < j < |s| ==> s[i] != s[j]
  }

  lemma {:induction false} DistinctMultiset<T>(s: seq<T>)
    ensures Distinct(s) <==> forall x :: multiset(s)[x] <= 1
  {
    if s != [] {
      var n := |s| - 1;
      var t, y := s[..n], s[n];
      assert s == t + [y];
      DistinctMultiset(t);
      assert forall x :: multiset(s)[x] == multiset(t)[x] + if x == y then 1 else 0;
      if Distinct(s) {
        assert y !in t;
        assert y !in multiset(t);
      }
      if forall x :: multiset(s)[x] <= 1 {
        assert multiset(s)[y] <= 1;
        assert y !in multiset(t);
        assert y !in t;
        forall x
          ensures multiset(t)[x] <= 1
        {
          assert multiset(s)[x] <= 1;
        }
      }
    }
  }

  /** Sorting keeps elements apart. */
  lemma DistinctSame<T>(r: seq<T>, s: seq<T>)
    requires multiset(r) == multiset(s) && Distinct(s)
    ensures Distinct(r)
  {
    DistinctMultiset(r);
    DistinctMultiset(s);
  }
}
