/** IP prefixes as aligned blocks of natural numbers.

    An address is a natural number, and a prefix is the pair of its network
    address and the number of its host bits (`invPrefix` in print-code.go).
    Netspoc works on byte slices; `Trunc` is `ip.Mask(mask)` for the mask
    that leaves `k` host bits free.  The facts collected here are the only
    arithmetic the other modules need: masking twice is masking with the
    coarser mask, two prefixes are nested or disjoint, and the two halves of
    a prefix unite exactly to it.
  */
module Prefixes {

  function Pow2(k: nat): (r: nat)
    ensures r >= 1
  {
    if k == 0 then 1 else 2 * Pow2(k - 1)
  }

  /** `ip.Mask(mask)`: clears the `k` host bits of `a`. */
  function Trunc(a: nat, k: nat): (t: nat)
    ensures t <= a < t + Pow2(k)
  {
    if k == 0 then a else 2 * Trunc(a / 2, k - 1)
  }

  /** The `k` host bits of `a` are zero. */
  predicate Aligned(a: nat, k: nat) {
    Trunc(a, k) == a
  }

  datatype Prefix = Prefix(base: nat, inv: nat) {
    predicate Valid() {
      Aligned(base, inv)
    }

    /** The address `a` belongs to this network. */
    predicate Has(a: nat) {
      base <= a < base + Pow2(inv)
    }

    /** The network `n` lies inside this one, or equals it. */
    predicate Covers(n: Prefix) {
      n.inv <= inv && Trunc(n.base, inv) == base
    }

    predicate Disjoint(n: Prefix) {
      base + Pow2(inv) <= n.base || n.base + Pow2(n.inv) <= base
    }

    /** The next larger network, of which this one is a half. */
    function Up(): (u: Prefix)
      ensures u.Valid()
    {
      TruncAligned(base, inv + 1);
      Prefix(Trunc(base, inv + 1), inv + 1)
    }

    /** This network is the left half of `Up()`: its lowest network bit is zero. */
    predicate IsLeft() {
      Aligned(base, inv + 1)
    }

    /** Address of the first network behind this one; the right half of `Up()`
        if this one is the left half. */
    function Next(): Prefix {
      Prefix(base + Pow2(inv), inv)
    }
  }

  /** The widths agree and `r` is the right half belonging to the left half `l`. */
  predicate Buddies(l: Prefix, r: Prefix) {
    l.IsLeft() && r == l.Next()
  }

  // ---------------------------------------------------------------- arithmetic

  lemma {:induction false} TruncAligned(a: nat, k: nat)
    ensures Aligned(Trunc(a, k), k)
  {
    if k > 0 {
      TruncAligned(a / 2, k - 1);
    }
  }

  lemma {:induction false} Pow2Mono(j: nat, k: nat)
    requires j <= k
    ensures Pow2(j) <= Pow2(k)
    ensures j < k ==> 2 * Pow2(j) <= Pow2(k)
    decreases k
  {
    if j < k {
      Pow2Mono(j, k - 1);
    }
  }

  /** A number aligned to a large block is aligned to every smaller one. */
  lemma {:induction false} AlignedDown(a: nat, j: nat, k: nat)
    requires j <= k && Aligned(a, k)
    ensures Aligned(a, j)
    decreases k
  {
    if j > 0 {
      AlignedDown(a / 2, j - 1, k - 1);
    }
  }

  lemma {:induction false} AlignedSum(a: nat, b: nat, k: nat)
    requires Aligned(a, k) && Aligned(b, k)
    ensures Aligned(a + b, k)
    ensures a <= b ==> Aligned(b - a, k)
  {
    if k > 0 {
      var c, d := Trunc(a / 2, k - 1), Trunc(b / 2, k - 1);
      assert a == 2 * c && b == 2 * d;
      AlignedSum(c, d, k - 1);
      assert (a + b) / 2 == c + d;
      assert a <= b ==> (b - a) / 2 == d - c;
    }
  }

  lemma {:induction false} AlignedPow2(j: nat, k: nat)
    requires j <= k
    ensures Aligned(Pow2(k), j)
    decreases k
  {
    if j > 0 {
      AlignedPow2(j - 1, k - 1);
    }
  }

  lemma {:induction false} ZeroAligned(k: nat)
    ensures Aligned(0, k)
  {
    if k > 0 {
      ZeroAligned(k - 1);
    }
  }

  /** Aligned numbers that differ are at least one block apart. */
  lemma {:induction false} AlignedGap(a: nat, b: nat, k: nat)
    requires Aligned(a, k) && Aligned(b, k) && a < b
    ensures a + Pow2(k) <= b
  {
    if k > 0 {
      AlignedGap(a / 2, b / 2, k - 1);
    }
  }

  /** There is exactly one aligned block around an address. */
  lemma TruncUnique(a: nat, b: nat, k: nat)
    requires Aligned(b, k) && b <= a < b + Pow2(k)
    ensures Trunc(a, k) == b
  {
    hide Trunc, Pow2;
    TruncAligned(a, k);
    if Trunc(a, k) < b {
      AlignedGap(Trunc(a, k), b, k);
    } else if b < Trunc(a, k) {
      AlignedGap(b, Trunc(a, k), k);
    }
  }

  /** Masking with a fine and then with a coarse mask is masking with the coarse one. */
  lemma {:induction false} TruncTrunc(a: nat, j: nat, k: nat)
    requires j <= k
    ensures Trunc(Trunc(a, j), k) == Trunc(a, k)
    decreases k
  {
    if j > 0 {
      TruncTrunc(a / 2, j - 1, k - 1);
    }
  }

  // ------------------------------------------------------------------ prefixes

  /** A valid network owns exactly the addresses that mask to its base. */
  lemma HasTrunc(p: Prefix, a: nat)
    requires p.Valid()
    ensures p.Has(a) <==> Trunc(a, p.inv) == p.base
  {
    if p.Has(a) {
      TruncUnique(a, p.base, p.inv);
    }
  }

  /** Covering is the inclusion of address sets. */
  lemma CoversHas(p: Prefix, n: Prefix, a: nat)
    requires p.Valid() && n.Valid() && p.Covers(n) && n.Has(a)
    ensures p.Has(a)
  {
    HasTrunc(n, a);
    TruncTrunc(a, n.inv, p.inv);
  }

  lemma CoversTrans(p: Prefix, q: Prefix, r: Prefix)
    requires p.Covers(q) && q.Covers(r)
    ensures p.Covers(r)
  {
    TruncTrunc(r.base, q.inv, p.inv);
  }

  lemma CoversRefl(p: Prefix)
    requires p.Valid()
    ensures p.Covers(p)
  {
    TruncUnique(p.base, p.base, p.inv);
  }

  lemma CoversAntisym(p: Prefix, q: Prefix)
    requires p.Valid() && q.Valid() && p.Covers(q) && q.Covers(p)
    ensures p == q
  {
    TruncUnique(p.base, p.base, p.inv);
  }

  /** Covering, seen from the interval borders. */
  lemma CoversInterval(p: Prefix, n: Prefix)
    requires p.Valid() && n.Valid()
    ensures p.Covers(n) <==>
            p.base <= n.base && n.base + Pow2(n.inv) <= p.base + Pow2(p.inv)
  {
    hide Trunc, Pow2;
    if p.Covers(n) {
      AlignedDown(p.base, n.inv, p.inv);
      AlignedPow2(n.inv, p.inv);
      AlignedSum(p.base, Pow2(p.inv), n.inv);
      AlignedGap(n.base, p.base + Pow2(p.inv), n.inv);
    }
    if p.base <= n.base && n.base + Pow2(n.inv) <= p.base + Pow2(p.inv) {
      TruncUnique(n.base, p.base, p.inv);
      if p.inv < n.inv {
        Pow2Mono(p.inv, n.inv);
      }
    }
  }

  /** Two networks are nested or disjoint: a shared address means that the
      larger one covers the smaller one. */
  lemma SharedAddressNests(p: Prefix, n: Prefix, a: nat)
    requires p.Valid() && n.Valid() && n.inv <= p.inv && p.Has(a) && n.Has(a)
    ensures p.Covers(n)
  {
    HasTrunc(p, a);
    HasTrunc(n, a);
    TruncTrunc(a, n.inv, p.inv);
  }

  lemma NestedOrDisjoint(p: Prefix, n: Prefix)
    requires p.Valid() && n.Valid()
    ensures p.Covers(n) || n.Covers(p) || p.Disjoint(n)
  {
    if !p.Disjoint(n) {
      var a := if p.base < n.base then n.base else p.base;
      if n.inv <= p.inv {
        SharedAddressNests(p, n, a);
      } else {
        SharedAddressNests(n, p, a);
      }
    }
  }

  /** The networks that contain a given network form a chain. */
  lemma SupernetsNest(p: Prefix, q: Prefix, n: Prefix)
    requires p.Covers(n) && q.Covers(n) && p.inv <= q.inv
    ensures q.Covers(p)
  {
    TruncTrunc(n.base, p.inv, q.inv);
  }

  /** A network is one half of its parent. */
  lemma UpHalf(p: Prefix)
    requires p.Valid()
    ensures p.Up().Covers(p)
    ensures p.IsLeft() ==> p.Up().base == p.base
    ensures !p.IsLeft() ==> p.base == p.Up().base + Pow2(p.inv)
  {
    var u := p.Up();
    if p.IsLeft() {
      TruncUnique(p.base, p.base, p.inv + 1);
    } else {
      AlignedDown(u.base, p.inv, p.inv + 1);
      if u.base == p.base {
        assert false;
      }
      AlignedGap(u.base, p.base, p.inv);
      if u.base + Pow2(p.inv) < p.base {
        AlignedPow2(p.inv, p.inv);
        AlignedSum(u.base, Pow2(p.inv), p.inv);
        AlignedGap(u.base + Pow2(p.inv), p.base, p.inv);
      }
    }
  }

  /** The right half of a parent is valid and has the same parent. */
  lemma BuddyValid(l: Prefix)
    requires l.Valid() && l.IsLeft()
    ensures l.Next().Valid() && l.Next().Up() == l.Up() && !l.Next().IsLeft()
    ensures l.Up() == Prefix(l.base, l.inv + 1)
  {
    AlignedPow2(l.inv, l.inv);
    AlignedSum(l.base, Pow2(l.inv), l.inv);
    UpHalf(l);
    TruncUnique(l.base + Pow2(l.inv), l.base, l.inv + 1);
    if l.Next().IsLeft() {
      UpHalf(l.Next());
    }
  }

  /** Buddies unite exactly to their parent. */
  lemma BuddiesUnite(l: Prefix, r: Prefix, a: nat)
    requires l.Valid() && Buddies(l, r)
    ensures l.Up().Has(a) <==> l.Has(a) || r.Has(a)
  {
    UpHalf(l);
  }

  /** Two different networks of one width with a common parent are buddies. */
  lemma SameParentBuddies(p: Prefix, q: Prefix)
    requires p.Valid() && q.Valid() && p.inv == q.inv && p.base < q.base
    requires p.Up() == q.Up()
    ensures Buddies(p, q)
  {
    UpHalf(p);
    UpHalf(q);
  }

  /** What a strictly larger network covers of a network, it covers of its parent. */
  lemma CoversUp(p: Prefix, n: Prefix)
    requires p.Covers(n) && n.inv < p.inv
    ensures p.Covers(n.Up())
  {
    TruncTrunc(n.base, n.inv + 1, p.inv);
  }

  // -------------------------------------------------------------------- halves

  function LeftHalf(p: Prefix): Prefix
    requires p.inv > 0
  {
    Prefix(p.base, p.inv - 1)
  }

  function RightHalf(p: Prefix): Prefix
    requires p.inv > 0
  {
    LeftHalf(p).Next()
  }

  lemma HalvesValid(p: Prefix)
    requires p.Valid() && p.inv > 0
    ensures LeftHalf(p).Valid() && RightHalf(p).Valid()
    ensures LeftHalf(p).Up() == p && RightHalf(p).Up() == p
    ensures p.Covers(LeftHalf(p)) && p.Covers(RightHalf(p))
    ensures forall a :: p.Has(a) <==> LeftHalf(p).Has(a) || RightHalf(p).Has(a)
  {
    hide Trunc;
    AlignedDown(p.base, p.inv - 1, p.inv);
    BuddyValid(LeftHalf(p));
    UpHalf(LeftHalf(p));
    UpHalf(RightHalf(p));
  }

  /** The half of a network in which a strictly smaller network lies. */
  lemma WhichHalf(p: Prefix, n: Prefix)
    requires p.Valid() && n.Valid() && n.inv < p.inv && p.Has(n.base)
    ensures Trunc(n.base, p.inv - 1) == p.base ==> LeftHalf(p).Covers(n)
    ensures Trunc(n.base, p.inv - 1) != p.base ==> RightHalf(p).Covers(n)
  {
    hide Trunc, Pow2;
    var q := Prefix(Trunc(n.base, p.inv - 1), p.inv - 1);
    HasTrunc(p, n.base);
    TruncTrunc(n.base, p.inv - 1, p.inv);
    TruncAligned(n.base, p.inv - 1);
    UpHalf(q);
  }

  /** Two networks whose masked addresses first agree at width `j` lie in
      opposite halves of the network of this width. */
  lemma OppositeHalves(m: Prefix, n: Prefix, j: nat)
    requires m.Valid() && n.Valid() && m.inv < j && n.inv < j && m.base < n.base
    requires Trunc(m.base, j) == Trunc(n.base, j)
    requires Trunc(m.base, j - 1) != Trunc(n.base, j - 1)
    ensures var r := Prefix(Trunc(m.base, j), j);
            r.Valid() && LeftHalf(r).Covers(m) && RightHalf(r).Covers(n)
  {
    hide Trunc; hide Pow2;
    var p := Prefix(Trunc(m.base, j - 1), j - 1);
    var q := Prefix(Trunc(n.base, j - 1), j - 1);
    TruncTrunc(m.base, j - 1, j);
    TruncTrunc(n.base, j - 1, j);
    TruncAligned(m.base, j - 1);
    TruncAligned(n.base, j - 1);
    if q.base < p.base {
      AlignedGap(q.base, p.base, j - 1);
    }
    SameParentBuddies(p, q);
    UpHalf(p);
  }
}
