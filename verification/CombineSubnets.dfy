/** Combining adjacent subnets (`combineSubnets` in go/pkg/pass1/convert-hosts.go).

    Subnets have been linked to their right neighbor and to the object which both
    make up.  As long as both neighbors are in the list, they are replaced by this
    object: a larger subnet, or the whole network.
  */
module CombineSubnets {
  import opened Prefixes
  import Sorting

  class Network {
    const net: Prefix

    constructor (net: Prefix)
      ensures this.net == net
    {
      this.net := net;
    }
  }

  /** The next larger object: nothing yet, a subnet, or the network. */
  datatype Up = Unset | InSubnet(s: Subnet) | InNetwork(n: Network) {
    function Net(): Prefix
      requires !Unset?
    {
      if InSubnet? then s.net else n.net
    }
  }

  class Subnet {
    const net: Prefix
    const network: Network
    /** Without NAT and without ID */
    const plain: bool
    var up: Up
    var neighbor: Subnet?
    var hasNeighbor: bool

    constructor (net: Prefix, network: Network, plain: bool)
      ensures this.net == net && this.network == network && this.plain == plain
      ensures up == Unset && neighbor == null && !hasNeighbor
    {
      this.net, this.network, this.plain := net, network, plain;
      up, neighbor, hasNeighbor := Unset, null, false;
    }
  }

  /** A neighbor is the right half of the object to which both are linked. */
  ghost predicate Linked(all: set<Subnet>)
    reads all
  {
    forall s :: s in all ==> s.net.Valid() && (s.neighbor != null ==> s.neighbor in all && HalfOf(s, all))
  }

  ghost predicate HalfOf(s: Subnet, all: set<Subnet>)
    requires s.neighbor != null
    reads s, s.neighbor
  {
    && s.neighbor in all && s.neighbor.hasNeighbor && Buddies(s.net, s.neighbor.net)
    && !s.up.Unset? && s.up.Net() == s.net.Up() && (s.up.InSubnet? ==> s.up.s in all)
  }

  // ---------------------------------------------------------------- families of networks

  /** Subnets in the list, and networks that have been put together. */
  ghost predicate Disjoint(m: set<Subnet>, nets: seq<Network>) {
    && (forall x, y :: x in m && y in m && x != y ==> x.net.Disjoint(y.net))
    && (forall x, k :: x in m && 0 <= k < |nets| ==> x.net.Disjoint(nets[k].net))
    && (forall j, k :: 0 <= j < k < |nets| ==> nets[j].net.Disjoint(nets[k].net))
  }

  ghost predicate HasAddr(m: set<Subnet>, nets: seq<Network>, a: nat) {
    (exists x :: x in m && x.net.Has(a)) || (exists k :: 0 <= k < |nets| && nets[k].net.Has(a))
  }

  /** A member of the family really includes the subnet. */
  ghost predicate Swallowed(m: set<Subnet>, nets: seq<Network>, p: Prefix) {
    (exists x :: x in m && p.inv < x.net.inv && x.net.Covers(p)) ||
    (exists k :: 0 <= k < |nets| && p.inv < nets[k].net.inv && nets[k].net.Covers(p))
  }

  lemma {:induction false} Overlap(p: Prefix, q: Prefix)
    requires p.Covers(q)
    ensures !p.Disjoint(q) && !q.Disjoint(p)
  {
  }

  /** What covers the left half also covers the right one, if it is larger. */
  lemma {:induction false} CoversBuddy(p: Prefix, l: Prefix, r: Prefix)
    requires l.Valid() && Buddies(l, r) && p.Covers(l) && l.inv < p.inv
    ensures p.Covers(r) && p.Covers(l.Up())
  {
    hide Trunc, Pow2;
    CoversUp(p, l);
    BuddyValid(l);
    UpHalf(l);
    UpHalf(r);
    CoversTrans(p, l.Up(), r);
  }

  /** If the right half is in the list, then nothing has swallowed the left half. */
  lemma {:induction false} NotSwallowed(m: set<Subnet>, nets: seq<Network>, s: Subnet, t: Subnet)
    requires Disjoint(m, nets) && t in m && s.net.Valid() && Buddies(s.net, t.net)
    ensures !Swallowed(m, nets, s.net)
  {
    hide Trunc, Pow2, Prefix.Disjoint, Prefix.Covers;
    if exists x :: x in m && s.net.inv < x.net.inv && x.net.Covers(s.net) {
      var x :| x in m && s.net.inv < x.net.inv && x.net.Covers(s.net);
      CoversBuddy(x.net, s.net, t.net);
      Overlap(x.net, t.net);
    } else if exists k :: 0 <= k < |nets| && s.net.inv < nets[k].net.inv && nets[k].net.Covers(s.net) {
      var k :| 0 <= k < |nets| && s.net.inv < nets[k].net.inv && nets[k].net.Covers(s.net);
      CoversBuddy(nets[k].net, s.net, t.net);
      Overlap(nets[k].net, t.net);
    }
  }

  /** The state while pairs are combined. */
  ghost predicate Combining(all: set<Subnet>, m: set<Subnet>, subnets: seq<Subnet>, nets: seq<Network>) {
    && m <= all && (forall k :: 0 <= k < |subnets| ==> subnets[k] in all)
    && (forall x :: x in m ==> x in subnets)
    && Sorting.Distinct(subnets)
    && Disjoint(m, nets)
    && (forall k :: 0 <= k < |subnets| && subnets[k] !in m ==> Swallowed(m, nets, subnets[k].net))
  }

  lemma {:induction false} HalfDisjoint(p: Prefix, l: Prefix, r: Prefix)
    requires l.Valid() && Buddies(l, r) && p.Disjoint(l) && p.Disjoint(r)
    ensures p.Disjoint(l.Up()) && l.Up().Disjoint(p)
  {
    BuddyValid(l);
    hide Trunc;
    assert Pow2(l.inv + 1) == 2 * Pow2(l.inv) && Pow2(p.inv) >= 1;
    hide Pow2;
  }

  lemma DisjointSym(p: Prefix, q: Prefix)
    ensures p.Disjoint(q) <==> q.Disjoint(p)
  {
  }

  /** What is swallowed stays swallowed, if a half is replaced by the whole. */
  lemma {:induction false} StaysSwallowed(m: set<Subnet>, nets: seq<Network>, m': set<Subnet>, nets': seq<Network>,
                                          s: Subnet, t: Subnet, p: Prefix)
    requires Swallowed(m, nets, p) && s.net.Valid() && t.net.Valid() && Buddies(s.net, t.net)
    requires m - {s, t} <= m' && (forall k :: 0 <= k < |nets| ==> nets[k] in nets')
    requires (exists x :: x in m' && x.net == s.net.Up()) || exists k :: 0 <= k < |nets'| && nets'[k].net == s.net.Up()
    ensures Swallowed(m', nets', p)
  {
    hide Prefix.Covers, Prefix.Up, Buddies;
    if exists x :: x in m && p.inv < x.net.inv && x.net.Covers(p) {
      var x :| x in m && p.inv < x.net.inv && x.net.Covers(p);
      if x == s || x == t {
        WholeCovers(s.net, t.net, p);
      } else {
        assert x in m';
      }
    } else {
      var k :| 0 <= k < |nets| && p.inv < nets[k].net.inv && nets[k].net.Covers(p);
      var j :| 0 <= j < |nets'| && nets'[j] == nets[k];
    }
  }

  lemma {:induction false} WholeCovers(l: Prefix, r: Prefix, p: Prefix)
    requires l.Valid() && Buddies(l, r)
    ensures l.Up().inv == l.inv + 1 == r.inv + 1 && l.Up().Covers(l) && l.Up().Covers(r)
    ensures l.Covers(p) || r.Covers(p) ==> l.Up().Covers(p)
  {
    hide Trunc, Pow2;
    BuddyValid(l);
    UpHalf(l);
    UpHalf(r);
    if l.Covers(p) {
      CoversTrans(l.Up(), l, p);
    } else if r.Covers(p) {
      CoversTrans(l.Up(), r, p);
    }
  }

  /** Both halves are in the list: the object which they make up takes their place. */
  ghost predicate Pair(m: set<Subnet>, s: Subnet, t: Subnet) {
    s in m && t in m && s != t && s.net.Valid() && t.net.Valid() && Buddies(s.net, t.net)
  }

  lemma {:induction false} WholeDisjoint(all: set<Subnet>, m: set<Subnet>, nets: seq<Network>, s: Subnet, t: Subnet)
    requires Disjoint(m, nets) && Pair(m, s, t)
    ensures forall x :: x in m - {s, t} ==> x.net.Disjoint(s.net.Up()) && s.net.Up().Disjoint(x.net)
    ensures forall k :: 0 <= k < |nets| ==> nets[k].net.Disjoint(s.net.Up()) && s.net.Up().Disjoint(nets[k].net)
  {
    hide Prefix.Disjoint, Prefix.Up, Buddies, Prefix.Valid;
    forall x | x in m - {s, t}
      ensures x.net.Disjoint(s.net.Up()) && s.net.Up().Disjoint(x.net)
    {
      HalfDisjoint(x.net, s.net, t.net);
    }
    forall k | 0 <= k < |nets|
      ensures nets[k].net.Disjoint(s.net.Up()) && s.net.Up().Disjoint(nets[k].net)
    {
      DisjointSym(s.net, nets[k].net);
      DisjointSym(t.net, nets[k].net);
      HalfDisjoint(nets[k].net, s.net, t.net);
    }
  }

  /** The pair makes up a larger subnet. */
  lemma {:induction false} IntoSubnet(all: set<Subnet>, m: set<Subnet>, subnets: seq<Subnet>, nets: seq<Network>,
                                      i: nat, t: Subnet, x: Subnet)
    requires Combining(all, m, subnets, nets) && i < |subnets| && x in all
    requires Pair(m, subnets[i], t) && x.net == subnets[i].net.Up()
    ensures Combining(all, m - {subnets[i], t} + {x}, subnets[i := x], nets)
    ensures x !in m
  {
    hide Prefix.Disjoint, Prefix.Up, Buddies, Prefix.Valid, Swallowed, Prefix.Covers;
    var s := subnets[i];
    var m', l := m - {s, t} + {x}, subnets[i := x];
    WholeCovers(s.net, t.net, s.net);
    NotInList(all, m, subnets, nets, s, t, x);
    assert Disjoint(m', nets) by {
      WholeDisjoint(all, m, nets, s, t);
    }
    forall k | 0 <= k < |l| && l[k] !in m'
      ensures Swallowed(m', nets, l[k].net)
    {
      if l[k] == t {
        TakesHalf(m', nets, s, t, x);
      } else {
        StaysSwallowed(m, nets, m', nets, s, t, l[k].net);
      }
    }
    forall y | y in m'
      ensures y in l
    {
      if y == x {
        assert l[i] == x;
      } else {
        var k :| 0 <= k < |subnets| && subnets[k] == y;
        assert l[k] == y;
      }
    }
  }

  lemma {:induction false} TakesHalf(m: set<Subnet>, nets: seq<Network>, s: Subnet, t: Subnet, x: Subnet)
    requires s.net.Valid() && Buddies(s.net, t.net) && x in m && x.net == s.net.Up()
    ensures Swallowed(m, nets, t.net)
  {
    WholeCovers(s.net, t.net, s.net);
  }

  /** The larger subnet was not in the list before. */
  lemma {:induction false} NotInList(all: set<Subnet>, m: set<Subnet>, subnets: seq<Subnet>, nets: seq<Network>,
                                     s: Subnet, t: Subnet, x: Subnet)
    requires Combining(all, m, subnets, nets) && Pair(m, s, t) && x.net == s.net.Up()
    ensures x !in m && x !in subnets
  {
    hide Trunc, Pow2, Prefix.Disjoint, Prefix.Up, Buddies;
    WholeCovers(s.net, t.net, s.net);
    Overlap(x.net, s.net);
    if x in subnets && x !in m {
      var k :| 0 <= k < |subnets| && subnets[k] == x;
      SwallowedMeets(m, nets, x.net, s);
    }
  }

  lemma {:induction false} SwallowedMeets(m: set<Subnet>, nets: seq<Network>, p: Prefix, s: Subnet)
    requires Disjoint(m, nets) && s in m && p.Covers(s.net)
    ensures !Swallowed(m, nets, p)
  {
    hide Trunc, Pow2, Prefix.Disjoint;
    if exists x :: x in m && p.inv < x.net.inv && x.net.Covers(p) {
      var x :| x in m && p.inv < x.net.inv && x.net.Covers(p);
      CoversTrans(x.net, p, s.net);
      Overlap(x.net, s.net);
    } else if exists k :: 0 <= k < |nets| && p.inv < nets[k].net.inv && nets[k].net.Covers(p) {
      var k :| 0 <= k < |nets| && p.inv < nets[k].net.inv && nets[k].net.Covers(p);
      CoversTrans(nets[k].net, p, s.net);
      Overlap(nets[k].net, s.net);
    }
  }

  /** The pair makes up a whole network. */
  lemma {:induction false} IntoNetwork(all: set<Subnet>, m: set<Subnet>, subnets: seq<Subnet>, nets: seq<Network>,
                                       s: Subnet, t: Subnet, n: Network)
    requires Combining(all, m, subnets, nets) && Pair(m, s, t) && n.net == s.net.Up()
    ensures Combining(all, m - {s, t}, subnets, nets + [n])
  {
    hide Prefix.Disjoint, Prefix.Up, Buddies, Prefix.Valid, Swallowed, Prefix.Covers;
    var m', nets' := m - {s, t}, nets + [n];
    assert nets'[|nets|] == n;
    assert Disjoint(m', nets') by {
      WholeDisjoint(all, m, nets, s, t);
    }
    forall k | 0 <= k < |subnets| && subnets[k] !in m'
      ensures Swallowed(m', nets', subnets[k].net)
    {
      if subnets[k] == s || subnets[k] == t {
        NetworkTakesHalf(m', nets', |nets|, s, t, subnets[k].net);
      } else {
        StaysSwallowed(m, nets, m', nets', s, t, subnets[k].net);
      }
    }
  }

  lemma {:induction false} NetworkTakesHalf(m: set<Subnet>, nets: seq<Network>, k: nat, s: Subnet, t: Subnet, p: Prefix)
    requires s.net.Valid() && Buddies(s.net, t.net) && k < |nets| && nets[k].net == s.net.Up()
    requires p == s.net || p == t.net
    ensures Swallowed(m, nets, p)
  {
    WholeCovers(s.net, t.net, s.net);
  }

  // ----------------------------------------------------------------------- the method

  /** An object of a rule; other objects than subnets are left alone. */
  datatype Obj = Sub(subnet: Subnet) | Net(network: Network) | Other(id: nat, net: Prefix) {
    function Prefix(): Prefix {
      match this
      case Sub(s) => s.net
      case Net(n) => n.net
      case Other(_, net) => net
    }
  }

  predicate Joinable(s: Subnet)
    reads s
  {
    s.neighbor != null || s.hasNeighbor
  }

  predicate IsJoinable(o: Obj)
    reads if o.Sub? then {o.subnet} else {}
  {
    o.Sub? && Joinable(o.subnet)
  }

  function Wrap(subnets: seq<Subnet>, m: set<Subnet>): seq<Obj> {
    if subnets == [] then [] else
      var n := |subnets| - 1;
      Wrap(subnets[..n], m) + if subnets[n] in m then [Sub(subnets[n])] else []
  }

  function WrapNets(nets: seq<Network>): (r: seq<Obj>)
    ensures |r| == |nets| && forall k :: 0 <= k < |r| ==> r[k] == Net(nets[k])
  {
    seq(|nets|, k requires 0 <= k < |nets| => Net(nets[k]))
  }

  ghost predicate NoSubTwice(list: seq<Obj>) {
    forall j, k :: 0 <= j < k < |list| && list[j].Sub? ==> list[j] != list[k]
  }

  /** Different subnets with a neighbor do not overlap. */
  ghost predicate Sparse(list: seq<Obj>)
    reads set k | 0 <= k < |list| && list[k].Sub? :: list[k].subnet
  {
    forall j, k :: 0 <= j < |list| && 0 <= k < |list| && list[j] != list[k] &&
                   IsJoinable(list[j]) && IsJoinable(list[k]) ==>
      list[j].subnet.net.Disjoint(list[k].subnet.net)
  }

  /** Subnets of the list that have a neighbor, and all other objects. */
  method Separate(list: seq<Obj>) returns (subnets: seq<Subnet>, others: seq<Obj>)
    ensures forall x :: x in subnets <==> Sub(x) in list && Joinable(x)
    ensures forall o :: o in others <==> o in list && !IsJoinable(o)
    ensures NoSubTwice(list) ==> Sorting.Distinct(subnets)
  {
    subnets, others := [], [];
    var i := 0;
    while i < |list|
      invariant 0 <= i <= |list|
      invariant forall x :: x in subnets <==> Sub(x) in list[..i] && Joinable(x)
      invariant forall o :: o in others <==> o in list[..i] && !IsJoinable(o)
      invariant NoSubTwice(list) ==> Sorting.Distinct(subnets)
    {
      var obj := list[i];
      assert NoSubTwice(list) && obj.Sub? ==> obj !in list[..i];
      assert list[..i + 1] == list[..i] + [obj];
      if obj.Sub? && (obj.subnet.neighbor != null || obj.subnet.hasNeighbor) {
        subnets := subnets + [obj.subnet];
      } else {
        others := others + [obj];
      }
      i := i + 1;
    }
    assert list[..|list|] == list;
  }

  /** No subnet is still in the list together with its neighbor. */
  ghost predicate NonePaired(m: set<Subnet>, subnets: seq<Subnet>, n: nat)
    requires n <= |subnets|
    reads subnets
  {
    forall k :: 0 <= k < n ==> subnets[k].neighbor == null || subnets[k].neighbor !in m
  }

  ghost predicate SameAddresses(m: set<Subnet>, nets: seq<Network>, m': set<Subnet>) {
    forall a: nat :: HasAddr(m, nets, a) <==> HasAddr(m', [], a)
  }

  lemma {:induction false} PairFound(all: set<Subnet>, m: set<Subnet>, subnets: seq<Subnet>, nets: seq<Network>, i: nat)
    requires Linked(all) && Combining(all, m, subnets, nets) && i < |subnets|
    requires subnets[i].neighbor != null && subnets[i].neighbor in m
    ensures Pair(m, subnets[i], subnets[i].neighbor)
    ensures subnets[i] in all && HalfOf(subnets[i], all)
  {
    hide Trunc, Pow2, Swallowed, Disjoint, Prefix.Up;
    var s := subnets[i];
    if s !in m {
      NotSwallowed(m, nets, s, s.neighbor);
    }
    Positive(s.net.inv);
  }

  lemma Positive(k: nat)
    ensures Pow2(k) >= 1
  {
  }

  // -------------------------------------------------- lists with overlapping subnets

  /** The addresses of each place in the list still belong to the family, also if its
      subnet has been taken out of the list. */
  ghost predicate Slots(all: set<Subnet>, m: set<Subnet>, subnets: seq<Subnet>, nets: seq<Network>) {
    && m <= all && (forall k :: 0 <= k < |subnets| ==> subnets[k] in all)
    && (forall x :: x in m ==> x in subnets)
    && (forall x, a: nat :: x in subnets && x.net.Has(a) ==> HasAddr(m, nets, a))
  }

  /** What two neighbors make up has the addresses of both. */
  ghost predicate Whole(s: Subnet, t: Subnet, p: Prefix) {
    && p.inv == s.net.inv + 1
    && forall a: nat :: p.Has(a) <==> s.net.Has(a) || t.net.Has(a)
  }

  lemma {:induction false} WholeOf(all: set<Subnet>, s: Subnet)
    requires Linked(all) && s in all && s.neighbor != null
    ensures !s.up.Unset? && Whole(s, s.neighbor, s.up.Net()) && (s.up.InSubnet? ==> s.up.s in all)
    ensures s.neighbor in all
  {
    assert HalfOf(s, all);
    hide Trunc, Pow2, Prefix.Has;
    forall a: nat
      ensures s.up.Net().Has(a) <==> s.net.Has(a) || s.neighbor.net.Has(a)
    {
      BuddiesUnite(s.net, s.neighbor.net, a);
    }
  }

  /** The larger subnet takes the place of the left half. */
  lemma {:induction false} SlotsSubnet(all: set<Subnet>, m: set<Subnet>, subnets: seq<Subnet>, nets: seq<Network>,
                                       i: nat, t: Subnet, x: Subnet)
    requires Slots(all, m, subnets, nets) && i < |subnets| && t in m && x in all && Whole(subnets[i], t, x.net)
    ensures var m' := m - {subnets[i], t} + {x};
            Slots(all, m', subnets[i := x], nets) && forall a: nat :: HasAddr(m', nets, a) <==> HasAddr(m, nets, a)
  {
    hide Prefix.Has;
    var s, m', l := subnets[i], m - {subnets[i], t} + {x}, subnets[i := x];
    forall a: nat
      ensures HasAddr(m', nets, a) <==> HasAddr(m, nets, a)
    {
      assert s in subnets && x in m';
    }
    hide HasAddr;
    forall y | y in m'
      ensures y in l
    {
      if y == x {
        assert l[i] == x;
      } else {
        var k :| 0 <= k < |subnets| && subnets[k] == y;
        assert l[k] == y;
      }
    }
    forall y, a: nat | y in l && y.net.Has(a)
      ensures HasAddr(m', nets, a)
    {
      if y == x {
        assert s.net.Has(a) || t.net.Has(a);
        assert s in subnets && t in subnets;
      }
    }
  }

  /** The network is kept aside. */
  lemma {:induction false} SlotsNetwork(all: set<Subnet>, m: set<Subnet>, subnets: seq<Subnet>, nets: seq<Network>,
                                        i: nat, t: Subnet, n: Network)
    requires Slots(all, m, subnets, nets) && i < |subnets| && t in m && Whole(subnets[i], t, n.net)
    ensures var m' := m - {subnets[i], t};
            Slots(all, m', subnets, nets + [n]) && forall a: nat :: HasAddr(m', nets + [n], a) <==> HasAddr(m, nets, a)
  {
    hide Prefix.Has;
    var s, m', nets' := subnets[i], m - {subnets[i], t}, nets + [n];
    assert nets'[|nets|] == n && s in subnets;
    assert forall k :: 0 <= k < |nets| ==> nets'[k] == nets[k];
    forall a: nat
      ensures HasAddr(m', nets', a) <==> HasAddr(m, nets, a)
    {
      if HasAddr(m, nets, a) {
        if x :| x in m && x.net.Has(a) {
          assert x == s || x == t ==> nets'[|nets|].net.Has(a);
        } else {
          var k :| 0 <= k < |nets| && nets[k].net.Has(a);
          assert nets'[k].net.Has(a);
        }
      }
      if HasAddr(m', nets', a) {
        if k :| 0 <= k < |nets'| && nets'[k].net.Has(a) {
          assert k < |nets| ==> nets[k].net.Has(a);
        }
      }
    }
    hide HasAddr;
  }

  /** Number of steps by which the subnets may still become larger. */
  ghost function Room(subnets: seq<Subnet>, width: nat): nat
    requires forall x :: x in subnets ==> x.net.inv <= width
  {
    if subnets == [] then 0 else width - subnets[0].net.inv + Room(subnets[1..], width)
  }

  lemma {:induction false} LessRoom(subnets: seq<Subnet>, width: nat, i: nat, x: Subnet)
    requires forall y :: y in subnets ==> y.net.inv <= width
    requires i < |subnets| && subnets[i].net.inv < x.net.inv <= width
    ensures (forall y :: y in subnets[i := x] ==> y.net.inv <= width)
    ensures Room(subnets[i := x], width) < Room(subnets, width)
  {
    if i == 0 {
      assert subnets[i := x][1..] == subnets[1..];
    } else {
      LessRoom(subnets[1..], width, i - 1, x);
      assert subnets[i := x][1..] == subnets[1..][i - 1 := x];
    }
  }

  lemma {:induction false} SomeWidth(all: set<Subnet>) returns (width: nat)
    ensures forall x :: x in all ==> x.net.inv <= width
  {
    if all == {} {
      width := 0;
    } else {
      var x :| x in all;
      var w := SomeWidth(all - {x});
      width := if w < x.net.inv then x.net.inv else w;
    }
  }

  /** A family without overlaps stays one. */
  lemma {:induction false} StillDisjoint(all: set<Subnet>, m: set<Subnet>, subnets: seq<Subnet>, nets: seq<Network>,
                                         i: nat)
    requires Linked(all) && Combining(all, m, subnets, nets) && i < |subnets|
    requires subnets[i].neighbor != null && subnets[i].neighbor in m
    ensures var s := subnets[i];
            match s.up
            case Unset => true
            case InNetwork(n) => Combining(all, m - {s, s.neighbor}, subnets, nets + [n])
            case InSubnet(x) => Combining(all, m - {s, s.neighbor} + {x}, subnets[i := x], nets)
  {
    hide Combining, Linked, Pair;
    var s := subnets[i];
    PairFound(all, m, subnets, nets, i);
    UpOf(s, all);
    match s.up
    case Unset =>
    case InNetwork(n) => IntoNetwork(all, m, subnets, nets, s, s.neighbor, n);
    case InSubnet(x) => IntoSubnet(all, m, subnets, nets, i, s.neighbor, x);
  }

  /** Combines pairs of neighbors, until there is none.  The addresses stay the same, and
      subnets and networks without overlap stay so. */
  method CombinePairs(ghost all: set<Subnet>, subnets0: seq<Subnet>)
    returns (subnets: seq<Subnet>, m: set<Subnet>, nets: seq<Network>)
    requires Linked(all) && forall x :: x in subnets0 ==> x in all
    ensures Slots(all, m, subnets, nets) && NonePaired(m, subnets, |subnets|)
    ensures Made(all, subnets0, subnets, nets)
    ensures SameAddresses(m, nets, set x | x in subnets0)
    ensures Combining(all, (set x | x in subnets0), subnets0, []) ==> Combining(all, m, subnets, nets)
  {
    hide Linked, Combining, HasAddr, HalfOf, Pair, Slots, Whole, Room, Made;
    NothingMade(all, subnets0);
    subnets, m, nets := subnets0, (set x | x in subnets0), [];
    ghost var was := m;
    StartSlots(all, subnets0);
    ghost var width := SomeWidth(all);
    SlotsWidth(all, m, subnets, nets, width);
    ghost var disjoint := Combining(all, m, subnets, nets);
    var again := true;
    while again
      invariant Slots(all, m, subnets, nets) && SameAddresses(m, nets, was) && Made(all, subnets0, subnets, nets)
      invariant disjoint ==> Combining(all, m, subnets, nets)
      invariant forall x :: x in subnets ==> x.net.inv <= width
      invariant !again ==> NonePaired(m, subnets, |subnets|)
      decreases Room(subnets, width), again
    {
      again := false;
      var i := 0;
      ghost var room := Room(subnets, width);
      while i < |subnets|
        invariant 0 <= i <= |subnets|
        invariant Slots(all, m, subnets, nets) && SameAddresses(m, nets, was) && Made(all, subnets0, subnets, nets)
        invariant disjoint ==> Combining(all, m, subnets, nets)
        invariant forall x :: x in subnets ==> x.net.inv <= width
        invariant if again then Room(subnets, width) < room else Room(subnets, width) == room
        invariant !again ==> NonePaired(m, subnets, i)
      {
        var s := subnets[i];
        var neighbor := s.neighbor;
        if neighbor != null && neighbor in m {
          SlotKnown(all, m, subnets, nets, i);
          WholeOf(all, s);
          if disjoint {
            StillDisjoint(all, m, subnets, nets, i);
          }
          match s.up {
            case InNetwork(n) =>
              SlotsNetwork(all, m, subnets, nets, i, neighbor, n);
              NetworkMade(all, subnets0, subnets, nets, s, n);
              m := m - {s, neighbor};
              nets := nets + [n];
            case InSubnet(x) =>
              SlotsSubnet(all, m, subnets, nets, i, neighbor, x);
              SubnetMade(all, subnets0, subnets, nets, i, x);
              LargerFits(all, s, neighbor, x, width);
              LessRoom(subnets, width, i, x);
              m := m - {s, neighbor} + {x};
              subnets := subnets[i := x];
              again := true;
          }
        }
        i := i + 1;
      }
    }
  }

  /** What is in the list was there before, or subnets with a neighbor are linked to it. */
  ghost predicate Made(all: set<Subnet>, subnets0: seq<Subnet>, subnets: seq<Subnet>, nets: seq<Network>)
    reads all
  {
    && (forall x :: x in subnets ==> x in subnets0 || exists s :: s in all && s.neighbor != null && s.up == InSubnet(x))
    && (forall n :: n in nets ==> exists s :: s in all && s.neighbor != null && s.up == InNetwork(n))
  }

  lemma NothingMade(all: set<Subnet>, subnets: seq<Subnet>)
    ensures Made(all, subnets, subnets, [])
  {
  }

  lemma SubnetMade(all: set<Subnet>, subnets0: seq<Subnet>, subnets: seq<Subnet>, nets: seq<Network>, i: nat, x: Subnet)
    requires Made(all, subnets0, subnets, nets) && i < |subnets| && subnets[i] in all
    requires subnets[i].neighbor != null && subnets[i].up == InSubnet(x)
    ensures Made(all, subnets0, subnets[i := x], nets)
  {
    forall y | y in subnets[i := x]
      ensures y == x || y in subnets
    {
    }
  }

  lemma NetworkMade(all: set<Subnet>, subnets0: seq<Subnet>, subnets: seq<Subnet>, nets: seq<Network>,
                    s: Subnet, n: Network)
    requires Made(all, subnets0, subnets, nets) && s in all && s.neighbor != null && s.up == InNetwork(n)
    ensures Made(all, subnets0, subnets, nets + [n])
  {
  }

  lemma LargerFits(all: set<Subnet>, s: Subnet, t: Subnet, x: Subnet, width: nat)
    requires x in all && Whole(s, t, x.net) && forall y :: y in all ==> y.net.inv <= width
    ensures s.net.inv < x.net.inv <= width
  {
  }

  lemma StartSlots(all: set<Subnet>, subnets: seq<Subnet>)
    requires forall x :: x in subnets ==> x in all
    ensures Slots(all, (set x | x in subnets), subnets, [])
  {
    hide Prefix.Has;
  }

  lemma SlotsWidth(all: set<Subnet>, m: set<Subnet>, subnets: seq<Subnet>, nets: seq<Network>, width: nat)
    requires Slots(all, m, subnets, nets) && forall x :: x in all ==> x.net.inv <= width
    ensures forall x :: x in subnets ==> x.net.inv <= width
  {
  }

  lemma SlotKnown(all: set<Subnet>, m: set<Subnet>, subnets: seq<Subnet>, nets: seq<Network>, i: nat)
    requires Slots(all, m, subnets, nets) && i < |subnets|
    ensures subnets[i] in all
  {
  }

  lemma UpOf(s: Subnet, all: set<Subnet>)
    requires s.neighbor != null && HalfOf(s, all)
    ensures !s.up.Unset? && s.up.Net() == s.net.Up() && (s.up.InSubnet? ==> s.up.s in all)
  {
  }

  ghost predicate ObjsHave(list: seq<Obj>, a: nat) {
    exists k :: 0 <= k < |list| && list[k].Prefix().Has(a)
  }

  lemma {:induction false} ObjsHaveSum(l: seq<Obj>, r: seq<Obj>, a: nat)
    ensures ObjsHave(l + r, a) <==> ObjsHave(l, a) || ObjsHave(r, a)
  {
    hide Prefix.Has, Obj.Prefix;
    if ObjsHave(l, a) {
      var k :| 0 <= k < |l| && l[k].Prefix().Has(a);
      assert (l + r)[k] == l[k];
    }
    if ObjsHave(r, a) {
      var k :| 0 <= k < |r| && r[k].Prefix().Has(a);
      assert (l + r)[|l| + k] == r[k];
    }
  }

  lemma {:induction false} WrapIs(subnets: seq<Subnet>, m: set<Subnet>, o: Obj)
    ensures o in Wrap(subnets, m) <==> o.Sub? && o.subnet in subnets && o.subnet in m
  {
    if subnets != [] {
      var n := |subnets| - 1;
      WrapIs(subnets[..n], m, o);
      assert subnets == subnets[..n] + [subnets[n]];
    }
  }

  lemma {:induction false} WrapHas(subnets: seq<Subnet>, m: set<Subnet>, a: nat)
    ensures ObjsHave(Wrap(subnets, m), a) <==> exists x :: x in subnets && x in m && x.net.Has(a)
  {
    hide Prefix.Has, Wrap;
    var l := Wrap(subnets, m);
    if ObjsHave(l, a) {
      var k :| 0 <= k < |l| && l[k].Prefix().Has(a);
      WrapIs(subnets, m, l[k]);
    }
    if exists x :: x in subnets && x in m && x.net.Has(a) {
      var x :| x in subnets && x in m && x.net.Has(a);
      WrapIs(subnets, m, Sub(x));
      var k :| 0 <= k < |l| && l[k] == Sub(x);
      assert l[k].Prefix().Has(a);
    }
  }

  lemma WrapNetsHas(nets: seq<Network>, a: nat)
    ensures ObjsHave(WrapNets(nets), a) <==> exists k :: 0 <= k < |nets| && nets[k].net.Has(a)
  {
    hide Prefix.Has;
    var r := WrapNets(nets);
    assert forall k :: 0 <= k < |nets| ==> r[k].Prefix() == nets[k].net;
  }

  /** The result has the addresses of the list. */
  lemma {:induction false} ResultHas(all: set<Subnet>, others: seq<Obj>, subnets0: seq<Subnet>, subnets: seq<Subnet>,
                                     m: set<Subnet>, nets: seq<Network>, a: nat)
    requires Slots(all, m, subnets, nets) && SameAddresses(m, nets, set x | x in subnets0)
    ensures ObjsHave(others + Wrap(subnets, m) + WrapNets(nets), a) <==>
            ObjsHave(others, a) || exists x :: x in subnets0 && x.net.Has(a)
  {
    hide Prefix.Has, ObjsHave;
    ObjsHaveSum(others + Wrap(subnets, m), WrapNets(nets), a);
    ObjsHaveSum(others, Wrap(subnets, m), a);
    WrapHas(subnets, m, a);
    WrapNetsHas(nets, a);
    var was := set x | x in subnets0;
    assert HasAddr(m, nets, a) <==> HasAddr(was, [], a);
    assert HasAddr(was, [], a) <==> exists x :: x in subnets0 && x.net.Has(a);
    assert HasAddr(m, nets, a) <==>
      (exists x :: x in subnets && x in m && x.net.Has(a)) || exists k :: 0 <= k < |nets| && nets[k].net.Has(a);
  }

  lemma {:induction false} ListHas(list: seq<Obj>, others: seq<Obj>, subnets: seq<Subnet>, a: nat)
    requires forall x :: x in subnets <==> Sub(x) in list && Joinable(x)
    requires forall o :: o in others <==> o in list && !IsJoinable(o)
    ensures ObjsHave(list, a) <==> ObjsHave(others, a) || exists x :: x in subnets && x.net.Has(a)
  {
    hide Prefix.Has;
    if ObjsHave(list, a) {
      var k :| 0 <= k < |list| && list[k].Prefix().Has(a);
      if IsJoinable(list[k]) {
        assert list[k] == Sub(list[k].subnet) && list[k].subnet in subnets;
      } else {
        assert list[k] in others;
      }
    }
    if ObjsHave(others, a) {
      var k :| 0 <= k < |others| && others[k].Prefix().Has(a);
      assert others[k] in others && others[k] in list;
    }
    if exists x :: x in subnets && x.net.Has(a) {
      var x :| x in subnets && x.net.Has(a);
      var k :| 0 <= k < |list| && list[k] == Sub(x);
      assert list[k].Prefix().Has(a);
    }
  }

  /** Finds adjacent subnets and substitutes them by the object which they make up: the
      addresses stay the same, and no two neighbors remain. */
  method CombineSubnets(list: seq<Obj>, ghost all: set<Subnet>) returns (r: seq<Obj>)
    requires Linked(all) && forall s :: Sub(s) in list ==> s in all
    ensures forall a: nat :: ObjsHave(r, a) <==> ObjsHave(list, a)
    ensures forall s: Subnet, t: Subnet :: Sub(s) in r && Sub(t) in r ==> s.neighbor != t
    ensures forall o :: o in list && !IsJoinable(o) ==> o in r
    ensures NoSubTwice(list) && Sparse(list) ==> Sparse(r)
    ensures forall o :: o in r ==> o in list || MadeUp(all, o)
  {
    hide ObjsHave, Linked, Prefix.Disjoint, NoSubTwice, Made, MadeUp, Slots;
    var subnets0, others := Separate(list);
    if subnets0 == [] {
      forall a: nat
        ensures ObjsHave(others, a) <==> ObjsHave(list, a)
      {
        ListHas(list, others, subnets0, a);
      }
      StartSlots(all, []);
      assert (set x: Subnet | x in []) == {};
      NoPairLeft(all, others, [], {}, [], others);
      return others;
    }
    if NoSubTwice(list) && Sparse(list) {
      SparseDisjoint(list, subnets0);
      StartCombining(all, subnets0);
    }
    var subnets, m, nets := CombinePairs(all, subnets0);
    r := others + Wrap(subnets, m) + WrapNets(nets);
    forall a: nat
      ensures ObjsHave(r, a) <==> ObjsHave(list, a)
    {
      ListHas(list, others, subnets0, a);
      ResultHas(all, others, subnets0, subnets, m, nets, a);
    }
    NoPairLeft(all, others, subnets, m, nets, r);
    forall o | o in r
      ensures o in list || MadeUp(all, o)
    {
      OnlyMade(all, subnets0, others, subnets, m, nets, o);
    }
    if NoSubTwice(list) && Sparse(list) {
      StaysSparse(all, others, subnets, m, nets, r);
    }
  }

  /** Two neighbors are linked to the object. */
  ghost predicate MadeUp(all: set<Subnet>, o: Obj)
    reads all
  {
    exists s :: s in all && s.neighbor != null &&
                ((o.Sub? && s.up == InSubnet(o.subnet)) || (o.Net? && s.up == InNetwork(o.network)))
  }

  lemma OnlyMade(all: set<Subnet>, subnets0: seq<Subnet>, others: seq<Obj>, subnets: seq<Subnet>, m: set<Subnet>,
                 nets: seq<Network>, o: Obj)
    requires Made(all, subnets0, subnets, nets) && o in others + Wrap(subnets, m) + WrapNets(nets)
    ensures o in others || (o.Sub? && o.subnet in subnets0) || MadeUp(all, o)
  {
    WrapIs(subnets, m, o);
    hide Wrap;
    if o in WrapNets(nets) {
      var k :| 0 <= k < |nets| && WrapNets(nets)[k] == o;
      assert nets[k] in nets;
    }
  }

  lemma SparseDisjoint(list: seq<Obj>, subnets: seq<Subnet>)
    requires Sparse(list) && forall x :: x in subnets ==> Sub(x) in list && Joinable(x)
    ensures forall s, t :: s in subnets && t in subnets && s != t ==> s.net.Disjoint(t.net)
  {
    hide Prefix.Disjoint;
    forall s, t | s in subnets && t in subnets && s != t
      ensures s.net.Disjoint(t.net)
    {
      var j :| 0 <= j < |list| && list[j] == Sub(s);
      var k :| 0 <= k < |list| && list[k] == Sub(t);
    }
  }

  lemma {:induction false} StaysSparse(all: set<Subnet>, others: seq<Obj>, subnets: seq<Subnet>, m: set<Subnet>,
                                       nets: seq<Network>, r: seq<Obj>)
    requires Combining(all, m, subnets, nets) && forall o :: o in others ==> !IsJoinable(o)
    requires r == others + Wrap(subnets, m) + WrapNets(nets)
    ensures Sparse(r)
  {
    hide Prefix.Disjoint, Swallowed, Wrap;
    forall j, k | 0 <= j < |r| && 0 <= k < |r| && r[j] != r[k] && IsJoinable(r[j]) && IsJoinable(r[k])
      ensures r[j].subnet.net.Disjoint(r[k].subnet.net)
    {
      WrapIs(subnets, m, r[j]);
      WrapIs(subnets, m, r[k]);
      assert r[j] !in WrapNets(nets) && r[k] !in WrapNets(nets) && r[j] in r && r[k] in r;
    }
  }

  /** Different subnets without overlap are a family that stays one. */
  lemma {:induction false} StartCombining(all: set<Subnet>, subnets: seq<Subnet>)
    requires forall x :: x in subnets ==> x in all
    requires Sorting.Distinct(subnets)
    requires forall s, t :: s in subnets && t in subnets && s != t ==> s.net.Disjoint(t.net)
    ensures Combining(all, (set x | x in subnets), subnets, [])
  {
    hide Prefix.Disjoint;
  }

  lemma NeighborsMarked(all: set<Subnet>)
    requires Linked(all)
    ensures forall s :: s in all && s.neighbor != null ==> s.neighbor.hasNeighbor
  {
  }

  lemma {:induction false} NoPairLeft(all: set<Subnet>, others: seq<Obj>, subnets: seq<Subnet>, m: set<Subnet>,
                                      nets: seq<Network>, r: seq<Obj>)
    requires Linked(all) && Slots(all, m, subnets, nets) && NonePaired(m, subnets, |subnets|)
    requires forall o :: o in others ==> !IsJoinable(o) && (o.Sub? ==> o.subnet in all)
    requires r == others + Wrap(subnets, m) + WrapNets(nets)
    ensures forall s: Subnet, t: Subnet :: Sub(s) in r && Sub(t) in r ==> s.neighbor != t
    ensures forall o :: o in others ==> o in r
  {
    NeighborsMarked(all);
    hide HasAddr, Wrap, Linked;
    forall s: Subnet, t: Subnet | Sub(s) in r && Sub(t) in r
      ensures s.neighbor != t
    {
      WrapIs(subnets, m, Sub(s));
      WrapIs(subnets, m, Sub(t));
      assert Sub(s) !in WrapNets(nets) && Sub(t) !in WrapNets(nets);
    }
  }
}
