/** Lists of disjoint networks in ascending order, and the smallest such list
    for a set of addresses.
  */
module PrefixLists {
  import opened Prefixes

  predicate AllValid(l: seq<Prefix>) {
    forall k :: 0 <= k < |l| ==> l[k].Valid()
  }

  predicate EndsBefore(p: Prefix, q: Prefix) {
    p.base + Pow2(p.inv) <= q.base
  }

  /** Disjoint and in ascending order. */
  predicate Ascending(l: seq<Prefix>) {
    forall j, k :: 0 <= j < k < |l| ==> EndsBefore(l[j], l[k])
  }

  ghost predicate HasAny(l: seq<Prefix>, a: nat) {
    exists k :: 0 <= k < |l| && l[k].Has(a)
  }

  /** All addresses of the network belong to the list. */
  ghost predicate Includes(l: seq<Prefix>, p: Prefix) {
    forall a: nat :: p.Has(a) ==> HasAny(l, a)
  }

  ghost predicate CoveredBy(l: seq<Prefix>, p: Prefix) {
    exists k :: 0 <= k < |l| && l[k].Covers(p)
  }

  /** Each network inside the set of addresses lies in a single element, so that
      no shorter list has the same addresses. */
  ghost predicate Canonical(l: seq<Prefix>) {
    forall p: Prefix :: p.Valid() && Includes(l, p) ==> CoveredBy(l, p)
  }

  predicate Combinable(p: Prefix, q: Prefix) {
    p.inv == q.inv && Trunc(p.base, p.inv + 1) == Trunc(q.base, p.inv + 1)
  }

  predicate NoneCombinable(l: seq<Prefix>) {
    forall k :: 0 <= k < |l| - 1 ==> !Combinable(l[k], l[k + 1])
  }

  predicate Precedes(l: seq<Prefix>, j: nat, k: nat) {
    j < k < |l| ==> EndsBefore(l[j], l[k])
  }

  lemma AscendingAt(l: seq<Prefix>, j: nat, k: nat)
    requires Ascending(l)
    ensures Precedes(l, j, k)
  {
  }

  /** An address belongs to one element at most. */
  lemma InOne(l: seq<Prefix>, j: nat, k: nat, a: nat)
    requires Ascending(l) && j < |l| && k < |l| && l[j].Has(a) && l[k].Has(a)
    ensures j == k
  {
    hide Pow2, Ascending;
    AscendingAt(l, j, k);
    AscendingAt(l, k, j);
  }

  /** If no neighbors can be combined, then the list is canonical. */
  lemma NotCombinableCanonical(l: seq<Prefix>)
    requires AllValid(l) && Ascending(l) && NoneCombinable(l)
    ensures Canonical(l)
  {
    forall p: Prefix | p.Valid() && Includes(l, p)
      ensures CoveredBy(l, p)
    {
      InOneElement(l, p);
    }
  }

  lemma {:induction false} InOneElement(l: seq<Prefix>, p: Prefix)
    requires AllValid(l) && Ascending(l) && NoneCombinable(l)
    requires p.Valid() && Includes(l, p)
    ensures CoveredBy(l, p)
    decreases p.inv
  {
    hide Trunc, Pow2, Ascending, NoneCombinable;
    if p.inv == 0 {
      BaseIn(p);
      var k :| 0 <= k < |l| && l[k].Has(p.base);
      SharedAddressNests(l[k], p, p.base);
    } else {
      HalvesValid(p);
      var x, y := LeftHalf(p), RightHalf(p);
      InOneElement(l, x);
      InOneElement(l, y);
      var j :| 0 <= j < |l| && l[j].Covers(x);
      var k :| 0 <= k < |l| && l[k].Covers(y);
      if l[j].inv > x.inv {
        CoversUp(l[j], x);
      } else if l[k].inv > y.inv {
        CoversUp(l[k], y);
      } else {
        SameSize(l[j], x);
        SameSize(l[k], y);
        HalvesCombinable(l, p, j, k);
      }
    }
  }

  lemma BaseIn(p: Prefix)
    ensures p.Has(p.base)
  {
  }

  lemma SameSize(p: Prefix, q: Prefix)
    requires p.Valid() && q.Valid() && p.Covers(q) && p.inv <= q.inv
    ensures p == q
  {
  }

  /** Both halves of a network would be neighbors in the list. */
  lemma HalvesCombinable(l: seq<Prefix>, p: Prefix, j: nat, k: nat)
    requires Ascending(l) && p.Valid() && p.inv > 0 && j < |l| && k < |l|
    requires l[j] == LeftHalf(p) && l[k] == RightHalf(p)
    ensures !NoneCombinable(l)
  {
    hide Trunc, Pow2, Ascending;
    HalvesValid(p);
    AscendingAt(l, k, j);
    AscendingAt(l, j, j + 1);
    AscendingAt(l, j + 1, k);
    assert k == j + 1;
    assert LeftHalf(p).Up() == RightHalf(p).Up();
    assert Combinable(l[j], l[j + 1]);
  }

  /** A canonical list is determined by its addresses. */
  lemma CanonicalUnique(l: seq<Prefix>, m: seq<Prefix>)
    requires AllValid(l) && Ascending(l) && Canonical(l)
    requires AllValid(m) && Ascending(m) && Canonical(m)
    requires forall a: nat :: HasAny(l, a) <==> HasAny(m, a)
    ensures l == m
  {
    hide Ascending, Canonical;
    forall p | p in l
      ensures p in m
    {
      Belongs(l, m, p);
    }
    forall p | p in m
      ensures p in l
    {
      Belongs(m, l, p);
    }
    SameList(l, m);
  }

  lemma Belongs(l: seq<Prefix>, m: seq<Prefix>, p: Prefix)
    requires AllValid(l) && Ascending(l) && Canonical(l)
    requires AllValid(m) && Canonical(m)
    requires forall a: nat :: HasAny(l, a) <==> HasAny(m, a)
    requires p in l
    ensures p in m
  {
    hide Trunc, Pow2, Ascending;
    assert Includes(m, p);
    var j :| 0 <= j < |m| && m[j].Covers(p);
    assert Includes(l, m[j]);
    var k :| 0 <= k < |l| && l[k].Covers(m[j]);
    var i :| 0 <= i < |l| && l[i] == p;
    BaseIn(p);
    CoversTrans(l[k], m[j], p);
    CoversHas(l[k], p, p.base);
    InOne(l, i, k, p.base);
    CoversAntisym(p, m[j]);
  }

  lemma {:induction false} SameList(l: seq<Prefix>, m: seq<Prefix>)
    requires Ascending(l) && Ascending(m)
    requires forall p :: p in l <==> p in m
    ensures l == m
  {
    if l == [] {
      if m != [] {
        Member(m);
      }
    } else {
      assert l[0] in m && m[0] in l;
      First(l, m[0]);
      First(m, l[0]);
      assert l[0].base == m[0].base;
      Alone(l, m[0]);
      forall p
        ensures p in l[1..] <==> p in m[1..]
      {
        Others(l, p);
        Others(m, p);
      }
      SameList(l[1..], m[1..]);
      assert l == [l[0]] + l[1..] && m == [m[0]] + m[1..];
    }
  }

  lemma Member(m: seq<Prefix>)
    requires m != []
    ensures m[0] in m
  {
  }

  lemma First(l: seq<Prefix>, p: Prefix)
    requires Ascending(l) && p in l
    ensures l[0].base <= p.base
  {
    var k :| 0 <= k < |l| && l[k] == p;
    AscendingAt(l, 0, k);
  }

  lemma Alone(l: seq<Prefix>, p: Prefix)
    requires Ascending(l) && p in l && p.base == l[0].base
    ensures p == l[0]
  {
    hide Ascending;
    var k :| 0 <= k < |l| && l[k] == p;
    AscendingAt(l, 0, k);
  }

  lemma Others(l: seq<Prefix>, p: Prefix)
    requires Ascending(l) && l != []
    ensures p in l[1..] <==> p in l && p != l[0]
  {
    assert l == [l[0]] + l[1..];
    if p in l[1..] {
      var k :| 0 <= k < |l[1..]| && l[1..][k] == p;
      assert EndsBefore(l[0], l[k + 1]);
    }
  }
}
