/** Covering a range of addresses by networks (`splitIpRange` in
    go/pkg/pass1/convert-hosts.go).

    The first address of the remaining range is extended to the largest aligned
    block that still fits.  The result is the smallest list of networks with
    exactly the addresses of the range.
  */
module SplitIpRange {
  import opened Prefixes
  import opened PrefixLists

  /** IPv4 addresses, and IPv6 addresses in two parts of 64 bits. */
  datatype IP = V4(addr: nat) | V6(upper: nat, lower: nat) {
    function To16(): IP {
      if V4? then V6(0, 0xffff * Pow2(32) + addr) else this
    }
  }

  datatype Result = Ok(upper: nat, nets: seq<Prefix>) | Err(msg: string)

  // ------------------------------------------------------------ tilings of a range

  /** The networks follow each other without gap, from `lo` to `hi`. */
  predicate Tiles(l: seq<Prefix>, lo: nat, hi: int) {
    if l == [] then hi + 1 == lo
    else
      var n := |l| - 1;
      && l[n].base + Pow2(l[n].inv) == hi + 1
      && Tiles(l[..n], lo, l[n].base - 1)
  }

  lemma {:induction false} TilesBounds(l: seq<Prefix>, lo: nat, hi: int)
    requires Tiles(l, lo, hi)
    ensures lo <= hi + 1 && (l != [] ==> lo <= hi)
    ensures forall k :: 0 <= k < |l| ==> lo <= l[k].base && l[k].base + Pow2(l[k].inv) <= hi + 1
  {
    if l != [] {
      TilesBounds(l[..|l| - 1], lo, l[|l| - 1].base - 1);
    }
  }

  lemma {:induction false} TilesAscending(l: seq<Prefix>, lo: nat, hi: int)
    requires Tiles(l, lo, hi)
    ensures Ascending(l)
  {
    if l != [] {
      var n := |l| - 1;
      TilesAscending(l[..n], lo, l[n].base - 1);
      TilesBounds(l[..n], lo, l[n].base - 1);
      forall j, k | 0 <= j < k < |l|
        ensures EndsBefore(l[j], l[k])
      {
        assert l[..n][j] == l[j];
        if k < n {
          assert l[..n][k] == l[k];
          AscendingAt(l[..n], j, k);
        }
      }
    }
  }

  /** A tiling has exactly the addresses of the range. */
  lemma {:induction false} TilesHas(l: seq<Prefix>, lo: nat, hi: int, a: nat)
    requires Tiles(l, lo, hi)
    ensures HasAny(l, a) <==> lo <= a <= hi
  {
    if l != [] {
      var n := |l| - 1;
      var m := l[..n];
      TilesHas(m, lo, l[n].base - 1, a);
      TilesBounds(m, lo, l[n].base - 1);
      assert HasAny(m, a) ==> HasAny(l, a) by {
        if HasAny(m, a) {
          var k :| 0 <= k < |m| && m[k].Has(a);
          assert l[k].Has(a);
        }
      }
      if HasAny(l, a) && !l[n].Has(a) {
        var k :| 0 <= k < |l| && l[k].Has(a);
        assert m[k].Has(a);
      }
    }
  }

  /** The network starts in the range and does not reach beyond its end. */
  predicate Fits(p: Prefix, lo: nat, hi: int) {
    p.Valid() && lo <= p.base && p.base + Pow2(p.inv) <= hi + 1
  }

  /** Each network is the largest one of all that start there and fit. */
  ghost predicate Greedy(l: seq<Prefix>, hi: int) {
    forall k :: 0 <= k < |l| ==> Largest(l[k], hi)
  }

  ghost predicate Largest(p: Prefix, hi: int) {
    forall q: Prefix :: q.base == p.base && Fits(q, p.base, hi) ==> q.inv <= p.inv
  }

  lemma LargestThere(q: Prefix, lo: nat, hi: int, p: Prefix)
    requires p.Valid() && q.Valid() && q.Has(p.base) && Fits(p, lo, hi) && Largest(q, hi)
    ensures p.inv <= q.inv
  {
    if q.inv < p.inv {
      BaseIn(p);
      SharedAddressNests(p, q, p.base);
      CoversInterval(p, q);
    }
  }

  /** Each network that fits into the range lies in one element. */
  lemma GreedyCovers(l: seq<Prefix>, lo: nat, hi: int, p: Prefix)
    requires AllValid(l) && Tiles(l, lo, hi) && Greedy(l, hi) && Fits(p, lo, hi)
    ensures CoveredBy(l, p)
  {
    hide Trunc, Pow2, Tiles;
    BaseIn(p);
    TilesHas(l, lo, hi, p.base) by {
      assert p.base + Pow2(p.inv) <= hi + 1;
    }
    var k :| 0 <= k < |l| && l[k].Has(p.base);
    if l[k].inv >= p.inv {
      SharedAddressNests(l[k], p, p.base);
    } else {
      LargestThere(l[k], lo, hi, p);
    }
  }

  /** The range determines the result: no other list of disjoint networks with these
      addresses is as short, and combining neighbors must lead to the same list. */
  lemma GreedyCanonical(l: seq<Prefix>, lo: nat, hi: int)
    requires AllValid(l) && Tiles(l, lo, hi) && Greedy(l, hi)
    ensures Canonical(l)
  {
    hide Trunc, Pow2, Tiles, Greedy;
    forall p: Prefix | p.Valid() && Includes(l, p)
      ensures CoveredBy(l, p)
    {
      Ends(p);
      TilesHas(l, lo, hi, p.base);
      TilesHas(l, lo, hi, p.base + Pow2(p.inv) - 1);
      assert HasAny(l, p.base) && HasAny(l, p.base + Pow2(p.inv) - 1);
      GreedyCovers(l, lo, hi, p);
    }
  }

  lemma Ends(p: Prefix)
    ensures p.Has(p.base) && p.Has(p.base + Pow2(p.inv) - 1)
  {
  }

  // ---------------------------------------------------------------- size of result

  /** The network of twice the size around an element does not lie inside the range. */
  lemma UpSticksOut(l: seq<Prefix>, lo: nat, hi: int, k: nat)
    requires AllValid(l) && Tiles(l, lo, hi) && Greedy(l, hi) && k < |l|
    ensures !Fits(l[k].Up(), lo, hi)
  {
    hide Trunc, Pow2, Tiles, Greedy, Fits, Ascending;
    var p, u := l[k], l[k].Up();
    if Fits(u, lo, hi) {
      TilesAscending(l, lo, hi);
      UpHalf(p);
      GreedyCovers(l, lo, hi, u);
      var m :| 0 <= m < |l| && l[m].Covers(u);
      CoversTrans(l[m], u, p);
      OnlyItself(l, k, m);
    }
  }

  lemma OnlyItself(l: seq<Prefix>, k: nat, m: nat)
    requires AllValid(l) && Ascending(l) && k < |l| && m < |l| && l[m].Covers(l[k])
    ensures k == m
  {
    hide Trunc, Pow2, Ascending;
    BaseIn(l[k]);
    CoversHas(l[m], l[k], l[k].base);
    InOne(l, k, m, l[k].base);
  }

  /** Of three networks with the same size, the one in the middle lies with its buddy
      inside the range; so there are no three. */
  lemma AtMostTwo(l: seq<Prefix>, lo: nat, hi: int, i: nat, j: nat, k: nat)
    requires AllValid(l) && Tiles(l, lo, hi) && Greedy(l, hi) && i < j < k < |l|
    ensures !(l[i].inv == l[j].inv == l[k].inv)
  {
    hide Trunc, Pow2, Tiles, Greedy, Ascending;
    if l[i].inv == l[j].inv == l[k].inv {
      TilesAscending(l, lo, hi);
      TilesBounds(l, lo, hi);
      AscendingAt(l, i, j);
      AscendingAt(l, j, k);
      UpHalf(l[j]);
      TwoHalves(l[j].inv);
      UpSticksOut(l, lo, hi, j);
    }
  }

  /** Of two networks with the same size in front of a larger one, the second lies with
      its buddy inside the range; so sizes ascend up to the largest one. */
  lemma AscendToLarger(l: seq<Prefix>, lo: nat, hi: int, i: nat, j: nat, k: nat)
    requires AllValid(l) && Tiles(l, lo, hi) && Greedy(l, hi) && i < j < k < |l|
    ensures !(l[i].inv == l[j].inv < l[k].inv)
  {
    hide Trunc, Pow2, Tiles, Greedy, Ascending;
    if l[i].inv == l[j].inv < l[k].inv {
      var u := l[j].Up();
      TilesAscending(l, lo, hi);
      TilesBounds(l, lo, hi);
      AscendingAt(l, i, j);
      AscendingAt(l, j, k);
      UpHalf(l[j]);
      TwoHalves(l[j].inv);
      AlignedDown(l[k].base, u.inv, l[k].inv);
      AlignedGap(u.base, l[k].base, u.inv);
      UpSticksOut(l, lo, hi, j);
    }
  }

  /** The same behind a larger network: sizes descend from the largest one. */
  lemma DescendFromLarger(l: seq<Prefix>, lo: nat, hi: int, k: nat, i: nat, j: nat)
    requires AllValid(l) && Tiles(l, lo, hi) && Greedy(l, hi) && k < i < j < |l|
    ensures !(l[i].inv == l[j].inv < l[k].inv)
  {
    hide Trunc, Pow2, Tiles, Greedy, Ascending;
    if l[i].inv == l[j].inv < l[k].inv {
      var u, e := l[i].Up(), l[k].base + Pow2(l[k].inv);
      TilesAscending(l, lo, hi);
      TilesBounds(l, lo, hi);
      AscendingAt(l, k, i);
      AscendingAt(l, i, j);
      UpHalf(l[i]);
      TwoHalves(l[i].inv);
      AlignedPow2(l[k].inv, l[k].inv);
      AlignedSum(l[k].base, Pow2(l[k].inv), l[k].inv);
      AlignedDown(e, u.inv, l[k].inv);
      if u.base < e {
        AlignedGap(u.base, e, u.inv);
      }
      UpSticksOut(l, lo, hi, i);
    }
  }

  lemma TwoHalves(k: nat)
    ensures Pow2(k + 1) == 2 * Pow2(k)
  {
  }

  ghost function OfSize(l: seq<Prefix>, n: nat): set<nat> {
    set k | 0 <= k < |l| && l[k].inv == n
  }

  ghost function UpToSize(l: seq<Prefix>, n: nat): set<nat> {
    set k | 0 <= k < |l| && l[k].inv < n
  }

  lemma NotThree(l: seq<Prefix>, lo: nat, hi: int, n: nat)
    requires AllValid(l) && Tiles(l, lo, hi) && Greedy(l, hi)
    ensures |OfSize(l, n)| <= 2
  {
    hide Tiles, Greedy;
    var s := OfSize(l, n);
    if |s| > 2 {
      var a :| a in s;
      var t := s - {a};
      assert |t| == |s| - 1;
      var b :| b in t;
      assert |t - {b}| == |t| - 1;
      var c :| c in t - {b};
      var x, z := Min(a, Min(b, c)), Max(a, Max(b, c));
      var y := a + b + c - x - z;
      AtMostTwo(l, lo, hi, x, y, z);
    }
  }

  /** `k` is a half of all addresses with `bits` bits, and the only one in the list. */
  ghost predicate OnlyHalf(l: seq<Prefix>, k: nat, bits: nat) {
    && 0 < bits && k < |l| && l[k].inv == bits - 1
    && forall j :: 0 <= j < |l| && j != k ==> l[j].inv < bits - 1
  }

  /** Next to a half, each smaller size occurs only once. */
  lemma NotTwo(l: seq<Prefix>, lo: nat, hi: int, k: nat, bits: nat, n: nat)
    requires AllValid(l) && Tiles(l, lo, hi) && Greedy(l, hi) && hi < Pow2(bits) && OnlyHalf(l, k, bits)
    requires n < bits - 1
    ensures |OfSize(l, n)| <= 1
  {
    hide Tiles, Greedy, Trunc, Pow2;
    var s := OfSize(l, n);
    if |s| > 1 {
      var a :| a in s;
      assert |s - {a}| == |s| - 1;
      var b :| b in s - {a};
      var i, j := Min(a, b), Max(a, b);
      if j < k {
        AscendToLarger(l, lo, hi, i, j, k);
      } else if k < i {
        DescendFromLarger(l, lo, hi, k, i, j);
      } else {
        HalfAtBorder(l, lo, hi, i, k, j, bits);
      }
    }
  }

  /** A half of all addresses has no networks on both sides. */
  lemma HalfAtBorder(l: seq<Prefix>, lo: nat, hi: int, i: nat, k: nat, j: nat, bits: nat)
    requires AllValid(l) && Tiles(l, lo, hi) && hi < Pow2(bits) && i < k < j < |l|
    ensures bits == 0 || l[k].inv != bits - 1
  {
    hide Tiles, Trunc, Pow2, Ascending;
    if bits > 0 && l[k].inv == bits - 1 {
      TilesAscending(l, lo, hi);
      TilesBounds(l, lo, hi);
      AscendingAt(l, i, k);
      AscendingAt(l, k, j);
      ZeroAligned(bits - 1);
      AlignedGap(0, l[k].base, bits - 1);
      TwoHalves(bits - 1);
    }
  }

  /** With a network of full width, there is no other one; with one half, there is
      not the other one. */
  lemma LargeOnes(l: seq<Prefix>, lo: nat, hi: int, k: nat, bits: nat)
    requires AllValid(l) && Tiles(l, lo, hi) && Greedy(l, hi) && hi < Pow2(bits)
    requires 0 < bits && k < |l| && l[k].inv >= bits - 1
    ensures |l| == 1 || OnlyHalf(l, k, bits)
  {
    hide Tiles, Greedy, Trunc, Pow2;
    forall j | 0 <= j < |l| && j != k && l[j].inv >= bits - 1
      ensures false
    {
      TwoLarge(l, lo, hi, Min(j, k), Max(j, k), bits);
    }
    if l[k].inv >= bits && |l| > 1 {
      NotWholeRange(l, lo, hi, k, if k == 0 then 1 else 0, bits);
    }
  }

  lemma NotWholeRange(l: seq<Prefix>, lo: nat, hi: int, k: nat, j: nat, bits: nat)
    requires Tiles(l, lo, hi) && hi < Pow2(bits) && k < |l| && j < |l| && j != k
    ensures l[k].inv < bits
  {
    hide Tiles, Ascending, Pow2;
    TilesAscending(l, lo, hi);
    TilesBounds(l, lo, hi);
    AscendingAt(l, k, j);
    AscendingAt(l, j, k);
    if bits <= l[k].inv {
      Pow2Mono(bits, l[k].inv);
    }
  }

  /** Both halves would have been one network. */
  lemma TwoLarge(l: seq<Prefix>, lo: nat, hi: int, i: nat, j: nat, bits: nat)
    requires AllValid(l) && Tiles(l, lo, hi) && Greedy(l, hi) && hi < Pow2(bits)
    requires 0 < bits && i < j < |l|
    ensures l[i].inv < bits - 1 || l[j].inv < bits - 1
  {
    hide Tiles, Greedy, Ascending, Trunc, Pow2;
    if l[i].inv >= bits - 1 && l[j].inv >= bits - 1 {
      NotWholeRange(l, lo, hi, i, j, bits);
      NotWholeRange(l, lo, hi, j, i, bits);
      TilesAscending(l, lo, hi);
      TilesBounds(l, lo, hi);
      AscendingAt(l, i, j);
      TwoHalves(bits - 1);
      ZeroAligned(bits);
      assert Aligned(l[i].base, bits);
      UpHalf(l[i]);
      UpSticksOut(l, lo, hi, i);
    }
  }

  function Min(a: nat, b: nat): nat {
    if a < b then a else b
  }

  function Max(a: nat, b: nat): nat {
    if a < b then b else a
  }

  /** Sizes below `n` occur at most `c` times each. */
  lemma {:induction false} CountUpTo(l: seq<Prefix>, n: nat, c: nat)
    requires forall i :: 0 <= i < n ==> |OfSize(l, i)| <= c
    ensures |UpToSize(l, n)| <= c * n
  {
    if n == 0 {
      assert UpToSize(l, 0) == {};
    } else {
      CountUpTo(l, n - 1, c);
      assert UpToSize(l, n) == UpToSize(l, n - 1) + OfSize(l, n - 1);
      assert c * n == c * (n - 1) + c;
    }
  }

  ghost function Indices(n: nat): (r: set<nat>)
    ensures |r| == n && forall k: nat :: k in r <==> k < n
  {
    if n == 0 then {} else Indices(n - 1) + {n - 1}
  }

  /** A range of addresses with `bits` bits needs at most two networks of each size
      below that of a half, or one half and one network of each smaller size. */
  lemma SizeBound(l: seq<Prefix>, lo: nat, hi: int, bits: nat)
    requires AllValid(l) && Tiles(l, lo, hi) && Greedy(l, hi) && hi < Pow2(bits) && 2 <= bits
    ensures |l| <= 2 * bits - 2
  {
    hide Tiles, Greedy, Pow2, AllValid, OnlyHalf, OfSize;
    if k :| 0 <= k < |l| && l[k].inv >= bits - 1 {
      LargeOnes(l, lo, hi, k, bits);
      if |l| > 1 {
        HalfBound(l, lo, hi, k, bits);
      }
    } else {
      forall n | 0 <= n < bits - 1
        ensures |OfSize(l, n)| <= 2
      {
        NotThree(l, lo, hi, n);
      }
      CountUpTo(l, bits - 1, 2);
      assert Indices(|l|) == UpToSize(l, bits - 1);
    }
  }

  lemma HalfBound(l: seq<Prefix>, lo: nat, hi: int, k: nat, bits: nat)
    requires AllValid(l) && Tiles(l, lo, hi) && Greedy(l, hi) && hi < Pow2(bits) && OnlyHalf(l, k, bits)
    ensures |l| <= bits
  {
    hide Tiles, Greedy, Pow2, AllValid, OfSize;
    forall n | 0 <= n < bits - 1
      ensures |OfSize(l, n)| <= 1
    {
      NotTwo(l, lo, hi, k, bits, n);
    }
    CountUpTo(l, bits - 1, 1);
    OthersSmaller(l, k, bits);
  }

  lemma OthersSmaller(l: seq<Prefix>, k: nat, bits: nat)
    requires OnlyHalf(l, k, bits)
    ensures |l| == |UpToSize(l, bits - 1)| + 1
  {
    assert Indices(|l|) == UpToSize(l, bits - 1) + {k};
  }

  /** A network that fits, while the network of twice the size does not, is an element. */
  lemma MaximalIsElement(l: seq<Prefix>, lo: nat, hi: int, p: Prefix) returns (k: nat)
    requires AllValid(l) && Tiles(l, lo, hi) && Greedy(l, hi) && Fits(p, lo, hi) && !Fits(p.Up(), lo, hi)
    ensures k < |l| && l[k] == p
  {
    hide Trunc, Pow2, Tiles, Greedy;
    GreedyCovers(l, lo, hi, p);
    k :| 0 <= k < |l| && l[k].Covers(p);
    TilesBounds(l, lo, hi);
    UpHalf(p);
    if p.inv < l[k].inv {
      CoversUp(l[k], p);
      CoversInterval(l[k], p.Up());
    } else {
      CoversAntisym(l[k], p) by {
        assert p.base == l[k].base by {
          CoversInterval(l[k], p);
        }
        CoversRefl(p);
      }
    }
  }

  /** The first network of size `n`, counted from the end of all addresses, that has not
      the last address. */
  ghost function NearEnd(bits: nat, n: nat): Prefix
    requires n + 1 < bits
  {
    Pow2Mono(n + 1, bits);
    Prefix(Pow2(bits) - Pow2(n + 1), n)
  }

  /** The networks of size `n` at the lower and at the upper end. */
  lemma EndNetworks(bits: nat, n: nat)
    requires n + 1 < bits
    ensures var lo, hi := 1, Pow2(bits) - 2;
            var p, q := Prefix(Pow2(n), n), NearEnd(bits, n);
            p != q && Fits(p, lo, hi) && !Fits(p.Up(), lo, hi) && Fits(q, lo, hi) && !Fits(q.Up(), lo, hi)
  {
    TwoHalves(n);
    Pow2Mono(n + 2, bits);
    TwoHalves(n + 1);
    FirstNetwork(n);
    LastNetwork(bits, n);
    hide Pow2, Trunc;
  }

  lemma FirstNetwork(n: nat)
    ensures Prefix(Pow2(n), n).Valid() && Prefix(Pow2(n), n).Up().base == 0
  {
    hide Pow2, Trunc;
    TwoHalves(n);
    AlignedPow2(n, n);
    ZeroAligned(n + 1);
    TruncUnique(Pow2(n), 0, n + 1);
  }

  lemma LastNetwork(bits: nat, n: nat)
    requires n + 1 < bits
    ensures NearEnd(bits, n).Valid() && NearEnd(bits, n).Up() == Prefix(NearEnd(bits, n).base, n + 1)
  {
    hide Pow2, Trunc;
    Pow2Mono(n + 1, bits);
    AlignedPow2(n + 1, bits);
    AlignedPow2(n + 1, n + 1);
    AlignedSum(Pow2(n + 1), Pow2(bits), n + 1);
    AlignedDown(Pow2(bits) - Pow2(n + 1), n, n + 1);
  }

  lemma {:induction false} CountFrom(l: seq<Prefix>, n: nat)
    requires forall i :: 0 <= i < n ==> |OfSize(l, i)| >= 2
    ensures |UpToSize(l, n)| >= 2 * n
  {
    if n > 0 {
      CountFrom(l, n - 1);
      var s, t := UpToSize(l, n - 1), OfSize(l, n - 1);
      assert UpToSize(l, n) == s + t && s !! t;
    }
  }

  /** The bound is reached: the range of all addresses but the first and the last one
      needs two networks of each size below that of a half. */
  lemma BoundReached(l: seq<Prefix>, bits: nat)
    requires AllValid(l) && Tiles(l, 1, Pow2(bits) - 2) && Greedy(l, Pow2(bits) - 2) && 2 <= bits
    ensures |l| == 2 * bits - 2
  {
    hide Tiles, Greedy, Pow2, AllValid, Fits;
    var hi := Pow2(bits) - 2;
    SizeBound(l, 1, hi, bits);
    forall n | 0 <= n < bits - 1
      ensures |OfSize(l, n)| >= 2
    {
      EndNetworks(bits, n);
      var j := MaximalIsElement(l, 1, hi, Prefix(Pow2(n), n));
      var k := MaximalIsElement(l, 1, hi, NearEnd(bits, n));
      assert {j, k} <= OfSize(l, n);
      Subset({j, k}, OfSize(l, n));
    }
    CountFrom(l, bits - 1);
    Subset(UpToSize(l, bits - 1), Indices(|l|));
  }

  lemma {:induction false} Subset(s: set<nat>, t: set<nat>)
    requires s <= t
    ensures |s| <= |t|
  {
    if s != {} {
      var x :| x in s;
      Subset(s - {x}, t - {x});
    }
  }

  // ---------------------------------------------------------------- the method

  /** Calculations use unsigned numbers of 64 bits. */
  function Width(): nat {
    64
  }

  /** Both ends of a range; IPv6 ranges lie inside of a network of size /64. */
  datatype Range = Range(upper: nat, lo: nat, hi: nat) | NoRange(msg: string)

  function RangeOf(lo: IP, hi: IP): Range {
    if lo.V4? && hi.V4? then
      Check(0, lo.addr, hi.addr)
    else
      var (x, y) := (lo.To16(), hi.To16());
      if x.upper != y.upper then NoRange("IP range doesn't fit into /64 network")
      else Check(x.upper, x.lower, y.lower)
  }

  function Check(upper: nat, lo: nat, hi: nat): Range {
    if lo > hi then NoRange("Invalid IP range") else Range(upper, lo, hi)
  }

  /** Ranges of IPv4 addresses, and of IPv6 addresses with the same upper 64 bits, are split
      if they are not empty; an IPv4 address counts as the IPv6 address it is mapped to, if the
      other end is an IPv6 address. */
  lemma RangeOfIs(lo: IP, hi: IP)
    ensures lo.V4? && hi.V4? && lo.addr <= hi.addr ==> RangeOf(lo, hi) == Range(0, lo.addr, hi.addr)
    ensures lo.V6? && hi.V6? && lo.upper == hi.upper && lo.lower <= hi.lower ==>
              RangeOf(lo, hi) == Range(lo.upper, lo.lower, hi.lower)
    ensures lo.V4? && hi.V6? && hi.upper == 0 && 0xffff_0000_0000 + lo.addr <= hi.lower ==>
              RangeOf(lo, hi) == Range(0, 0xffff_0000_0000 + lo.addr, hi.lower)
    ensures lo.V6? && hi.V4? && lo.upper == 0 && lo.lower <= 0xffff_0000_0000 + hi.addr ==>
              RangeOf(lo, hi) == Range(0, lo.lower, 0xffff_0000_0000 + hi.addr)
    ensures (lo.V6? && hi.V6? && lo.upper != hi.upper) || (lo.V4? && hi.V6? && hi.upper != 0) ||
            (lo.V6? && hi.V4? && lo.upper != 0) ==>
              RangeOf(lo, hi) == NoRange("IP range doesn't fit into /64 network")
    ensures lo.V4? && hi.V4? && lo.addr > hi.addr ==> RangeOf(lo, hi) == NoRange("Invalid IP range")
    ensures lo.V6? && hi.V6? && lo.upper == hi.upper && lo.lower > hi.lower ==>
              RangeOf(lo, hi) == NoRange("Invalid IP range")
    ensures lo.V4? && hi.V6? && hi.upper == 0 && 0xffff_0000_0000 + lo.addr > hi.lower ==>
              RangeOf(lo, hi) == NoRange("Invalid IP range")
    ensures lo.V6? && hi.V4? && lo.upper == 0 && lo.lower > 0xffff_0000_0000 + hi.addr ==>
              RangeOf(lo, hi) == NoRange("Invalid IP range")
  {
    Mapped();
    hide Pow2;
  }

  lemma Mapped()
    ensures 0xffff * Pow2(32) == 0xffff_0000_0000
  {
    assert Pow2(8) == 0x100;
    assert Pow2(16) == 0x10000;
    assert Pow2(24) == 0x1000000;
  }

  /** Numbers of 64 bits: the last address plus one is zero. */
  function Wrap(a: nat): nat {
    a % Pow2(Width())
  }

  lemma WrapSmall(a: nat)
    ensures Wrap(a) < Pow2(Width()) && (a < Pow2(Width()) ==> Wrap(a) == a)
  {
    Positive(Width());
    hide Width, Pow2;
  }

  lemma Positive(k: nat)
    ensures Pow2(k) >= 1
  {
  }

  method SplitIpRange(lo: IP, hi: IP) returns (r: Result)
    requires RangeOf(lo, hi).Range? ==> RangeOf(lo, hi).hi < Pow2(Width()) - 1
    ensures match RangeOf(lo, hi)
            case NoRange(msg) => r == Err(msg)
            case Range(upper, l, h) =>
              r.Ok? && r.upper == upper && AllValid(r.nets) && Tiles(r.nets, l, h) && Greedy(r.nets, h)
  {
    hide Trunc, Pow2, RangeOf, Width, Wrap, Tiles, Greedy, NoLarger;
    var range := RangeOf(lo, hi);
    if range.NoRange? {
      return Err(range.msg);
    }
    var l, h := range.lo, range.hi;
    var nets := [];
    NoBlocks(lo, hi, l, h);
    while l <= h
      invariant range.lo <= l <= h + 1
      invariant AllValid(nets) && Tiles(nets, range.lo, l - 1) && Greedy(nets, h)
      decreases h + 1 - l
    {
      var k := FindBlock(l, h);
      NextBlock(nets, range.lo, l, h, k);
      WrapSmall(l + Pow2(k));
      nets := nets + [Prefix(l, k)];
      l := Wrap(l + Pow2(k));
    }
    return Ok(range.upper, nets);
  }

  /** The loop over masks, from 255.255.255.255 down to 0.0.0.0. */
  method FindBlock(l: nat, h: nat) returns (k: nat)
    requires l <= h < Pow2(Width())
    ensures Prefix(l, k).Valid() && l < l + Pow2(k) <= h + 1 && NoLarger(l, h, k)
    ensures k == BlockSize(l, h, Width())
  {
    hide Trunc, Pow2, Width;
    k := Width();
    NothingLarger(l, h);
    while !(Aligned(l, k) && l + Pow2(k) - 1 <= h)
      invariant NoLarger(l, h, k) && BlockSize(l, h, Width()) == BlockSize(l, h, k)
      decreases k
    {
      Single(l);
      k := k - 1;
    }
    Positive(k);
  }

  /** No larger block than of size `k` starts at `l`. */
  ghost predicate NoLarger(l: nat, h: nat, k: nat) {
    forall q: Prefix :: q.base == l && Fits(q, l, h) ==> q.inv <= k
  }

  lemma NoBlocks(lo: IP, hi: IP, l: nat, h: nat)
    ensures Tiles([], l, l - 1) && Greedy([], h)
    ensures RangeOf(lo, hi).Range? ==> RangeOf(lo, hi).lo <= RangeOf(lo, hi).hi
  {
    hide Pow2;
  }

  lemma NextBlock(nets: seq<Prefix>, lo: nat, l: nat, h: nat, k: nat)
    requires Tiles(nets, lo, l - 1) && Greedy(nets, h) && NoLarger(l, h, k)
    ensures Tiles(nets + [Prefix(l, k)], lo, l + Pow2(k) - 1) && Greedy(nets + [Prefix(l, k)], h)
  {
    var p := Prefix(l, k);
    assert (nets + [p])[..|nets|] == nets;
    hide Trunc, Fits;
  }

  lemma NothingLarger(l: nat, h: nat)
    requires h < Pow2(Width())
    ensures NoLarger(l, h, Width())
  {
    hide Pow2, Trunc, Width;
    forall q: Prefix | q.base == l && Fits(q, l, h)
      ensures q.inv <= Width()
    {
      if q.inv > Width() {
        Pow2Mono(Width(), q.inv);
      }
    }
  }

  lemma Single(l: nat)
    ensures Aligned(l, 0) && Pow2(0) == 1
  {
  }

  // --------------------------------------------------------------- termination

  /** Size of the largest block, not larger than `k`, that starts at `l` and fits. */
  function BlockSize(l: nat, h: nat, k: nat): (r: nat)
    ensures r <= k
    ensures l <= h ==> Aligned(l, r) && l + Pow2(r) - 1 <= h
  {
    if k == 0 || (Aligned(l, k) && l + Pow2(k) - 1 <= h) then k else BlockSize(l, h, k - 1)
  }

  /** Start of the remaining range after `n` rounds, as a number of 64 bits. */
  function Start(l: nat, h: nat, n: nat): nat
    decreases n
  {
    if n == 0 then l else Start(Wrap(l + Pow2(BlockSize(l, h, Width()))), h, n - 1)
  }

  /** The loop ends exactly if the range ends before the last number of 64 bits. */
  lemma EndsUnlessWrapped(l: nat, h: nat)
    requires l <= h < Pow2(Width())
    ensures (exists n: nat :: Start(l, h, n) > h) <==> h < Pow2(Width()) - 1
  {
    hide Pow2, Trunc, Width, Wrap, BlockSize;
    if h < Pow2(Width()) - 1 {
      LeavesRange(l, h);
    } else {
      forall n: nat
        ensures Start(l, h, n) <= h
      {
        StartInWidth(l, h, n);
      }
    }
  }

  lemma {:induction false} StartInWidth(l: nat, h: nat, n: nat)
    requires l < Pow2(Width())
    ensures Start(l, h, n) < Pow2(Width())
    decreases n
  {
    hide Pow2, BlockSize, Width, Wrap;
    if n > 0 {
      WrapSmall(l + Pow2(BlockSize(l, h, Width())));
      StartInWidth(Wrap(l + Pow2(BlockSize(l, h, Width()))), h, n - 1);
    }
  }

  lemma BlockFits(l: nat, h: nat)
    requires l <= h
    ensures l < l + Pow2(BlockSize(l, h, Width())) <= h + 1
  {
    hide Trunc, Width;
  }

  lemma {:induction false} LeavesRange(l: nat, h: nat)
    requires l <= h + 1 && h < Pow2(Width()) - 1
    ensures exists n: nat :: Start(l, h, n) > h
    decreases h + 1 - l
  {
    hide Pow2, Trunc, Width, Wrap, BlockSize;
    if l > h {
      assert Start(l, h, 0) > h;
    } else {
      var next := Wrap(l + Pow2(BlockSize(l, h, Width())));
      BlockFits(l, h);
      WrapSmall(l + Pow2(BlockSize(l, h, Width())));
      LeavesRange(next, h);
      var n: nat :| Start(next, h, n) > h;
      var m := n + 1;
      assert Start(l, h, m) > h;
    }
  }
}
