/** Networks and aggregates of a zone (`findSubnetsInZone0` in
    go/pkg/pass1/find-subnets.go and `linkImplicitAggregateToZone` in
    go/pkg/pass1/get-aggregates.go).

    Each object is linked to the smallest object around it.  The attribute
    `networks` has the networks inside of an object, up to the next network that
    is no aggregate.
  */
module ZoneSubnets {
  import opened Prefixes
  import opened SubnetRelation

  class Network {
    const net: Prefix
    const isAggregate: bool
    var up: Network?
    var networks: seq<Network>

    constructor (net: Prefix, isAggregate: bool)
      ensures this.net == net && this.isAggregate == isAggregate && up == null && networks == []
    {
      this.net, this.isAggregate, up, networks := net, isAggregate, null, [];
    }
  }

  /** Objects of a zone, by address and mask. */
  type Zone = map<Prefix, Network>

  ghost predicate Known(z: Zone) {
    forall n :: n in z ==> z[n].net == n && n.Valid()
  }

  /** `q` is the smallest object that is larger than `n` and includes it. */
  ghost predicate Smallest(z: Zone, n: Prefix, q: Prefix) {
    q in z && Strict(q, n) && forall r :: r in z && Strict(r, n) ==> q.inv <= r.inv
  }

  ghost predicate UpOk(z: Zone, n: Prefix)
    requires n in z
    reads z.Values`up
  {
    if z[n].up == null then
      forall q :: q in z ==> !Strict(q, n)
    else
      z[n].up.net in z && z[z[n].up.net] == z[n].up && Smallest(z, n, z[n].up.net)
  }

  ghost predicate UpsOk(z: Zone)
    reads z.Values`up
  {
    forall n :: n in z ==> UpOk(z, n)
  }

  /** A network that is no aggregate lies strictly between. */
  ghost predicate Separated(z: Zone, n: Prefix, big: Prefix) {
    exists r :: r in z && !z[r].isAggregate && Strict(r, n) && Strict(big, r)
  }

  /** `n` is a network inside of `big`, and belongs to no smaller network. */
  ghost predicate Belongs(z: Zone, n: Prefix, big: Prefix) {
    n in z && !z[n].isAggregate && Strict(big, n) && !Separated(z, n, big)
  }

  ghost predicate NetworksOk(z: Zone, big: Prefix)
    requires big in z
    reads z.Values`networks
  {
    && (forall x :: x in z[big].networks ==> x.net in z && z[x.net] == x && Belongs(z, x.net, big))
    && (forall n :: Belongs(z, n, big) ==> z[n] in z[big].networks)
  }

  ghost predicate AllNetworksOk(z: Zone)
    reads z.Values`networks
  {
    forall n :: n in z ==> NetworksOk(z, n)
  }

  // ------------------------------------------------------------------------- the order

  lemma StrictTrans(p: Prefix, q: Prefix, r: Prefix)
    requires Strict(p, q) && Strict(q, r)
    ensures Strict(p, r)
  {
    CoversTrans(p, q, r);
  }

  /** Two objects around `n` are comparable. */
  lemma Chain(p: Prefix, q: Prefix, n: Prefix)
    requires Strict(p, n) && Strict(q, n)
    ensures p == q || Strict(p, q) || Strict(q, p)
  {
    if p.inv == q.inv {
      SameWidth(p, q, n);
    } else if p.inv < q.inv {
      SupernetsNest(p, q, n);
    } else {
      SupernetsNest(q, p, n);
    }
  }

  /** What `big` gets from a direct part `s`: the network itself, or the networks of an aggregate. */
  ghost predicate Gets(z: Zone, s: Prefix, n: Prefix)
    requires s in z
  {
    if z[s].isAggregate then Belongs(z, n, s) else n == s
  }

  lemma {:induction false} GetsBelongs(z: Zone, s: Prefix, big: Prefix, n: Prefix)
    requires s in z && Smallest(z, s, big) && Gets(z, s, n)
    ensures Belongs(z, n, big)
  {
    hide Strict;
    if z[s].isAggregate {
      StrictTrans(big, s, n);
    }
    forall r | r in z && !z[r].isAggregate && Strict(r, n)
      ensures !Strict(big, r)
    {
      if Strict(big, r) {
        if n != s {
          Chain(r, s, n);
        }
        StrictSize(big, r);
      }
    }
  }

  lemma StrictSize(p: Prefix, q: Prefix)
    requires Strict(p, q)
    ensures q.inv < p.inv
  {
  }

  /** The last object of the chain from `n` to `big`. */
  lemma {:induction false} LastBefore(z: Zone, n: Prefix, big: Prefix) returns (s: Prefix)
    requires n in z && big in z && Strict(big, n)
    ensures s in z && Smallest(z, s, big) && (s == n || Strict(s, n))
    decreases big.inv - n.inv
  {
    hide Trunc;
    if Smallest(z, n, big) {
      s := n;
    } else {
      var r :| r in z && Strict(r, n) && r.inv < big.inv;
      Chain(r, big, n);
      s := LastBefore(z, r, big);
      if s != r {
        StrictTrans(s, r, n);
      }
    }
  }

  lemma {:induction false} BelongsGets(z: Zone, big: Prefix, n: Prefix) returns (s: Prefix)
    requires big in z && Belongs(z, n, big)
    ensures s in z && Smallest(z, s, big) && Gets(z, s, n)
  {
    hide Strict;
    s := LastBefore(z, n, big);
    if s != n {
      assert z[s].isAggregate;
      forall r | r in z && !z[r].isAggregate && Strict(r, n)
        ensures !Strict(s, r)
      {
        if Strict(s, r) {
          StrictTrans(big, s, r);
        }
      }
    }
  }

  // ------------------------------------------------------------- findSubnetsInZone0

  ghost predicate Collected(m: MaskIPMap<Network>, z: Zone) {
    forall p: Prefix :: (Stored(m, p) <==> p in z) && (Stored(m, p) ==> m[p.inv][p.base] == z[p])
  }

  function StoreOne(m: MaskIPMap<Network>, n: Network): MaskIPMap<Network> {
    var ip, mask := n.net.base, n.net.inv;
    var ipMap: map<nat, Network> := if mask in m then m[mask] else map[];
    m[mask := ipMap[ip := n]]
  }

  lemma {:induction false} StoredMore(m: MaskIPMap<Network>, z: Zone, n: Network)
    requires Collected(m, z)
    ensures Collected(StoreOne(m, n), z[n.net := n])
    ensures Stored(m, n.net) <==> n.net in z
  {
  }

  /** The zone has, for each address and mask, one of the first `n` networks. */
  ghost predicate FromList(z: Zone, l: seq<Network>, n: nat)
    requires n <= |l|
  {
    && Known(z) && (forall p :: p in z ==> z[p] in l[..n])
    && (forall x :: x in l[..n] ==> x.net in z)
  }

  lemma {:induction false} FromListMore(z: Zone, l: seq<Network>, n: nat)
    requires n < |l| && FromList(z, l, n) && l[n].net.Valid()
    ensures l[n].net in z ==> FromList(z, l, n + 1)
    ensures l[n].net !in z ==> FromList(z[l[n].net := l[n]], l, n + 1)
  {
    hide Prefix.Valid;
    assert l[..n + 1] == l[..n] + [l[n]];
  }

  /** Each network for which another one is already stored, and this other one. */
  ghost predicate ErrorsOk(errors: seq<(Network, Network)>, z: Zone) {
    forall k :: 0 <= k < |errors| ==> errors[k].0.net in z && z[errors[k].0.net] == errors[k].1
  }

  lemma {:induction false} ErrorsMore(errors: seq<(Network, Network)>, z: Zone, n: Network)
    requires ErrorsOk(errors, z)
    ensures n.net in z ==> ErrorsOk(errors + [(n, z[n.net])], z)
    ensures n.net !in z ==> ErrorsOk(errors, z[n.net := n])
  {
  }

  /** Stores networks under their address and mask.  Returns those for which another
      network is already stored. */
  method Collect(l: seq<Network>) returns (m: MaskIPMap<Network>, z: Zone, errors: seq<(Network, Network)>)
    requires forall x :: x in l ==> x.net.Valid()
    ensures FromList(z, l, |l|) && Collected(m, z)
    ensures |errors| + |z| == |l| && ErrorsOk(errors, z)
  {
    m, z, errors := map[], map[], [];
    assert Collected(m, z);
    hide Collected, StoreOne, Prefix.Valid;
    var i := 0;
    while i < |l|
      invariant 0 <= i <= |l| && FromList(z, l, i) && Collected(m, z)
      invariant |errors| + |z| == i && ErrorsOk(errors, z)
    {
      hide FromList, ErrorsOk;
      var n := l[i];
      assert n in l;
      StoredMore(m, z, n);
      FromListMore(z, l, i);
      if Stored(m, n.net) {
        CollectedAt(m, z, n.net);
        ErrorsMore(errors, z, n);
        errors := errors + [(n, m[n.net.inv][n.net.base])];
      } else {
        ErrorsMore(errors, z, n);
        m := StoreOne(m, n);
        z := z[n.net := n];
      }
      i := i + 1;
    }
  }

  lemma CollectedAt(m: MaskIPMap<Network>, z: Zone, p: Prefix)
    requires Collected(m, z) && p in z
    ensures Stored(m, p) && m[p.inv][p.base] == z[p]
  {
  }

  lemma {:induction false} DirectSmallest(m: MaskIPMap<Network>, z: Zone, p: Prefix, q: Prefix)
    requires Collected(m, z)
    ensures Direct(m, p, q) <==> Smallest(z, p, q)
  {
    hide Strict;
  }

  /** The pairs of the subnet relation. */
  ghost predicate Relation(pairs: seq<(Prefix, Prefix)>, z: Zone) {
    && SmallFirst(pairs)
    && (forall i :: 0 <= i < |pairs| ==> pairs[i].0 in z && Smallest(z, pairs[i].0, pairs[i].1))
    && (forall p, q :: p in z && Smallest(z, p, q) ==> exists i :: 0 <= i < |pairs| && pairs[i] == (p, q))
  }

  method FindRelation(m: MaskIPMap<Network>, ghost z: Zone) returns (pairs: seq<(Prefix, Prefix)>)
    requires Collected(m, z)
    ensures Relation(pairs, z)
  {
    hide Direct, Smallest;
    pairs := SubnetPairs(m);
    forall i | 0 <= i < |pairs|
      ensures pairs[i].0 in z && Smallest(z, pairs[i].0, pairs[i].1)
    {
      assert (pairs[i].0, pairs[i].1) in pairs;
      DirectSmallest(m, z, pairs[i].0, pairs[i].1);
    }
    forall p, q | p in z && Smallest(z, p, q)
      ensures exists i :: 0 <= i < |pairs| && pairs[i] == (p, q)
    {
      DirectSmallest(m, z, p, q);
      assert (p, q) in pairs;
    }
  }

  /** One of the first `n` pairs hands `x` to `big`. */
  ghost predicate Got(z: Zone, pairs: seq<(Prefix, Prefix)>, n: nat, big: Prefix, x: Prefix)
    requires n <= |pairs|
  {
    exists k :: 0 <= k < n && pairs[k].1 == big && pairs[k].0 in z && Gets(z, pairs[k].0, x)
  }

  ghost predicate PartNetworks(z: Zone, pairs: seq<(Prefix, Prefix)>, n: nat, big: Prefix)
    requires n <= |pairs| && big in z
    reads z.Values`networks
  {
    && (forall x :: x in z[big].networks ==> x.net in z && z[x.net] == x && Got(z, pairs, n, big, x.net))
    && (forall p :: p in z && Got(z, pairs, n, big, p) ==> z[p] in z[big].networks)
  }

  lemma {:induction false} GotIff(z: Zone, pairs: seq<(Prefix, Prefix)>, n: nat, big: Prefix, x: Prefix)
    requires Relation(pairs, z) && n <= |pairs| && big in z
    requires forall k :: n <= k < |pairs| ==> pairs[k].1 != big
    ensures Got(z, pairs, n, big, x) <==> Belongs(z, x, big)
  {
    hide Belongs, Smallest, SmallFirst;
    if Got(z, pairs, n, big, x) {
      var k :| 0 <= k < n && pairs[k].1 == big && pairs[k].0 in z && Gets(z, pairs[k].0, x);
      GetsBelongs(z, pairs[k].0, big, x);
    }
    if Belongs(z, x, big) {
      var s := BelongsGets(z, big, x);
      var k :| 0 <= k < |pairs| && pairs[k] == (s, big);
    }
  }

  /** All parts of a network have been handed to it, before it is handed on. */
  lemma {:induction false} PartsFirst(z: Zone, pairs: seq<(Prefix, Prefix)>, i: nat)
    requires Relation(pairs, z) && i < |pairs|
    ensures forall k :: i <= k < |pairs| ==> pairs[k].1 != pairs[i].0
  {
    forall k | i <= k < |pairs|
      ensures pairs[k].1 != pairs[i].0
    {
      StrictSize(pairs[k].1, pairs[k].0);
    }
  }

  lemma {:induction false} GotMore(z: Zone, pairs: seq<(Prefix, Prefix)>, i: nat, big: Prefix, x: Prefix)
    requires i < |pairs| && pairs[i].0 in z
    ensures Got(z, pairs, i + 1, big, x) <==> Got(z, pairs, i, big, x) || (pairs[i].1 == big && Gets(z, pairs[i].0, x))
  {
    hide Gets;
  }

  /** Links a network to a larger one, and hands over the networks. */
  method Work(z: Zone, ghost pairs: seq<(Prefix, Prefix)>, ghost i: nat, sub: Network, big: Network)
    requires Known(z) && Relation(pairs, z) && i < |pairs|
    requires pairs[i] == (sub.net, big.net) && big.net in z && z[sub.net] == sub && z[big.net] == big
    requires forall n :: n in z ==> PartNetworks(z, pairs, i, n)
    modifies sub`up, big`networks
    ensures sub.up == big
    ensures forall n :: n in z ==> PartNetworks(z, pairs, i + 1, n)
  {
    hide Relation, Got, Belongs;
    var s := sub.net;
    PartsFirst(z, pairs, i);
    assert s in z && s != big.net by {
      RelationAt(z, pairs, i);
    }
    forall x
      ensures Got(z, pairs, i, s, x) <==> Belongs(z, x, s)
    {
      GotIff(z, pairs, i, s, x);
    }
    forall n, x
      ensures Got(z, pairs, i + 1, n, x) <==> Got(z, pairs, i, n, x) || (n == big.net && Gets(z, s, x))
    {
      GotMore(z, pairs, i, n, x);
    }
    assert PartNetworks(z, pairs, i, s);
    assert forall p :: Belongs(z, p, s) ==> p in z by {
      BelongsIn(z, s);
    }
    sub.up := big;
    if sub.isAggregate {
      big.networks := big.networks + sub.networks;
    } else {
      big.networks := big.networks + [sub];
    }
  }

  lemma BelongsIn(z: Zone, s: Prefix)
    ensures forall p :: Belongs(z, p, s) ==> p in z
  {
  }

  lemma RelationAt(z: Zone, pairs: seq<(Prefix, Prefix)>, i: nat)
    requires Relation(pairs, z) && i < |pairs|
    ensures pairs[i].0 in z && pairs[i].0 != pairs[i].1
  {
  }

  /** Links all objects, and collects the networks of each. */
  method SetSubnets(z: Zone, pairs: seq<(Prefix, Prefix)>)
    requires Known(z) && Relation(pairs, z)
    requires forall n :: n in z ==> z[n].up == null && z[n].networks == []
    modifies z.Values
    ensures UpsOk(z) && AllNetworksOk(z)
  {
    hide Relation, PartNetworks, Smallest;
    NothingGot(z, pairs);
    var i := 0;
    while i < |pairs|
      invariant 0 <= i <= |pairs|
      invariant forall n :: n in z ==> PartNetworks(z, pairs, i, n)
      invariant forall k :: 0 <= k < i ==> LinkedPair(z, pairs[k])
      invariant forall n :: n in z && z[n].up != null ==> exists k :: 0 <= k < i && pairs[k].0 == n
    {
      PairIn(z, pairs, i);
      var sub, big := z[pairs[i].0], z[pairs[i].1];
      Work(z, pairs, i, sub, big);
      i := i + 1;
    }
    AllLinked(z, pairs);
    AllGot(z, pairs);
  }

  ghost predicate LinkedPair(z: Zone, p: (Prefix, Prefix))
    reads z.Values`up
  {
    p.0 in z && p.1 in z && z[p.0].up == z[p.1]
  }

  lemma {:induction false} NothingGot(z: Zone, pairs: seq<(Prefix, Prefix)>)
    requires forall n :: n in z ==> z[n].networks == []
    ensures forall n :: n in z ==> PartNetworks(z, pairs, 0, n)
  {
  }

  lemma {:induction false} PairIn(z: Zone, pairs: seq<(Prefix, Prefix)>, i: nat)
    requires Relation(pairs, z) && i < |pairs|
    ensures pairs[i].0 in z && pairs[i].1 in z && Smallest(z, pairs[i].0, pairs[i].1)
    ensures forall k :: 0 <= k < i ==> pairs[k].0 != pairs[i].0
  {
  }

  lemma {:induction false} AllLinked(z: Zone, pairs: seq<(Prefix, Prefix)>)
    requires Known(z) && Relation(pairs, z)
    requires forall k :: 0 <= k < |pairs| ==> LinkedPair(z, pairs[k])
    requires forall n :: n in z && z[n].up != null ==> exists k :: 0 <= k < |pairs| && pairs[k].0 == n
    ensures UpsOk(z)
  {
    hide Smallest, Strict;
    forall n | n in z
      ensures UpOk(z, n)
    {
      if z[n].up != null {
        var k :| 0 <= k < |pairs| && pairs[k].0 == n;
        PairIn(z, pairs, k);
        assert LinkedPair(z, pairs[k]);
      } else {
        NoneSmallest(z, pairs, n);
      }
    }
  }

  lemma {:induction false} NoneSmallest(z: Zone, pairs: seq<(Prefix, Prefix)>, n: Prefix)
    requires Relation(pairs, z) && n in z && z[n].up == null
    requires forall k :: 0 <= k < |pairs| ==> LinkedPair(z, pairs[k])
    ensures forall q :: q in z ==> !Strict(q, n)
  {
    hide Smallest, Strict;
    forall q | q in z
      ensures !Strict(q, n)
    {
      if Strict(q, n) {
        var r := SomeSmallest(z, n, q);
        NotSmallest(z, pairs, n, r);
      }
    }
  }

  lemma {:induction false} NotSmallest(z: Zone, pairs: seq<(Prefix, Prefix)>, n: Prefix, r: Prefix)
    requires Relation(pairs, z) && n in z && z[n].up == null
    requires forall k :: 0 <= k < |pairs| ==> LinkedPair(z, pairs[k])
    ensures !Smallest(z, n, r)
  {
    hide Smallest;
  }

  lemma {:induction false} SomeSmallest(z: Zone, n: Prefix, q: Prefix) returns (r: Prefix)
    requires q in z && Strict(q, n)
    ensures Smallest(z, n, r)
    decreases q.inv
  {
    if Smallest(z, n, q) {
      r := q;
    } else {
      var s :| s in z && Strict(s, n) && s.inv < q.inv;
      r := SomeSmallest(z, n, s);
    }
  }

  lemma {:induction false} AllGot(z: Zone, pairs: seq<(Prefix, Prefix)>)
    requires Relation(pairs, z) && forall n :: n in z ==> PartNetworks(z, pairs, |pairs|, n)
    ensures AllNetworksOk(z)
  {
    hide Relation, Got, Belongs;
    forall n | n in z
      ensures NetworksOk(z, n)
    {
      forall x
        ensures Got(z, pairs, |pairs|, n, x) <==> Belongs(z, x, n)
      {
        GotIff(z, pairs, |pairs|, n, x);
      }
      assert PartNetworks(z, pairs, |pairs|, n);
      BelongsIn(z, n);
    }
  }

  // ---------------------------------------------------------- the networks of the zone

  /** The largest network that is no aggregate, from `n` on upwards. */
  ghost function MaxNet(z: Zone, n: Prefix, bits: nat): (r: Network?)
    requires Known(z) && UpsOk(z) && n in z && n.inv <= bits && forall p :: p in z ==> p.inv <= bits
    reads z.Values`up
    decreases bits - n.inv
  {
    assert UpOk(z, n);
    var r := if z[n].up == null then null else MaxNet(z, z[n].up.net, bits);
    if r != null then r else if z[n].isAggregate then null else z[n]
  }

  /** There is such a network, if any network that is no aggregate includes or equals `n`. */
  lemma {:induction false} MaxNetIff(z: Zone, n: Prefix, bits: nat)
    requires Known(z) && UpsOk(z) && n in z && n.inv <= bits && forall p :: p in z ==> p.inv <= bits
    ensures MaxNet(z, n, bits) != null <==> exists r :: r in z && !z[r].isAggregate && (r == n || Strict(r, n))
    decreases bits - n.inv
  {
    hide Strict;
    assert UpOk(z, n);
    if z[n].up != null {
      var u := z[n].up.net;
      StrictSize(u, n);
      MaxNetIff(z, u, bits);
      forall r | r in z
        ensures Strict(r, n) <==> r == u || Strict(r, u)
      {
        AroundUp(z, n, u, r);
      }
    }
  }

  lemma {:induction false} AroundUp(z: Zone, n: Prefix, u: Prefix, r: Prefix)
    requires Smallest(z, n, u) && r in z
    ensures Strict(r, n) <==> r == u || Strict(r, u)
  {
    hide Strict;
    if Strict(r, n) {
      Chain(r, u, n);
      if Strict(u, r) {
        StrictSize(u, r);
      }
    } else if Strict(r, u) {
      StrictTrans(r, u, n);
    }
  }

  /** The network is an object of the zone; another one with the same address is linked to nothing. */
  predicate IsStored(z: Zone, n: Network) {
    n.net in z && z[n.net] == n
  }

  /** `maxUpNet` remembers, for some networks, the largest network around. */
  ghost predicate Remembered(z: Zone, maxUpNet: map<Network, Network>, bits: nat)
    requires Known(z) && UpsOk(z) && forall p :: p in z ==> p.inv <= bits
    reads z.Values`up
  {
    forall n :: n in maxUpNet ==>
      && IsStored(z, n) && !n.isAggregate && z[n.net].up != null && UpOk(z, n.net)
      && maxUpNet[n] == MaxNet(z, z[n.net].up.net, bits)
  }

  method SetMaxNet(z: Zone, n: Network, maxUpNet: map<Network, Network>, ghost bits: nat)
    returns (r: Network?, max: map<Network, Network>)
    requires Known(z) && UpsOk(z) && (forall p :: p in z ==> p.inv <= bits)
    requires Remembered(z, maxUpNet, bits) && (IsStored(z, n) || n.up == null)
    ensures IsStored(z, n) ==> r == MaxNet(z, n.net, bits)
    ensures Remembered(z, max, bits)
    ensures forall p :: p in maxUpNet ==> p in max && max[p] == maxUpNet[p]
    ensures IsStored(z, n) && !n.isAggregate && HasMaxUp(z, n.net, bits) ==> n in max
    decreases if IsStored(z, n) then bits - n.net.inv else 0
  {
    hide Strict, Smallest;
    max := maxUpNet;
    if n.net in z {
      UpInside(z, n.net);
    }
    if n in maxUpNet {
      return maxUpNet[n], max;
    }
    r := null;
    if n.up != null {
      r, max := SetMaxNet(z, n.up, maxUpNet, bits);
    }
    if r != null {
      if !n.isAggregate {
        max := max[n := r];
      }
      return;
    }
    if !n.isAggregate {
      r := n;
    }
  }

  lemma UpInside(z: Zone, n: Prefix)
    requires Known(z) && UpsOk(z) && n in z
    ensures UpOk(z, n)
    ensures z[n].up != null ==> z[n].up.net in z && z[z[n].up.net] == z[n].up && n.inv < z[n].up.net.inv
  {
    assert UpOk(z, n);
  }

  /** Networks of the zone that lie inside no other network which is no aggregate. */
  method RemoveSubnets(z: Zone, networks: seq<Network>, ghost bits: nat) returns (l: seq<Network>)
    requires Known(z) && UpsOk(z) && (forall p :: p in z ==> p.inv <= bits)
    requires forall n :: n in networks ==> !n.isAggregate && (IsStored(z, n) || n.up == null)
    ensures forall n :: n in l <==> n in networks && (IsStored(z, n) ==> !InsideNetwork(z, n.net))
  {
    hide Strict, Smallest, UpsOk, Known;
    var maxUpNet: map<Network, Network> := map[];
    var i := 0;
    while i < |networks|
      invariant 0 <= i <= |networks| && Remembered(z, maxUpNet, bits)
      invariant forall k :: 0 <= k < i && IsStored(z, networks[k]) && HasMaxUp(z, networks[k].net, bits) ==>
                  networks[k] in maxUpNet
    {
      assert networks[i] in networks;
      var r, max := SetMaxNet(z, networks[i], maxUpNet, bits);
      maxUpNet := max;
      i := i + 1;
    }
    forall k | 0 <= k < |networks|
      ensures networks[k] in maxUpNet <==> IsStored(z, networks[k]) && InsideNetwork(z, networks[k].net)
    {
      assert networks[k] in networks;
      if IsStored(z, networks[k]) {
        HasMaxUpIff(z, networks[k].net, bits);
      }
    }
    hide Remembered, HasMaxUp, InsideNetwork;
    l := [];
    i := 0;
    while i < |networks|
      invariant 0 <= i <= |networks|
      invariant forall n :: n in l <==> n in networks[..i] && n !in maxUpNet
    {
      assert networks[..i + 1] == networks[..i] + [networks[i]];
      if networks[i] !in maxUpNet {
        l := l + [networks[i]];
      }
      i := i + 1;
    }
    assert networks[..|networks|] == networks;
  }

  /** Another network of the zone, which is no aggregate, includes `n`. */
  ghost predicate InsideNetwork(z: Zone, n: Prefix) {
    exists r :: r in z && !z[r].isAggregate && Strict(r, n)
  }

  ghost predicate HasMaxUp(z: Zone, n: Prefix, bits: nat)
    requires Known(z) && UpsOk(z) && n in z && forall p :: p in z ==> p.inv <= bits
    reads z.Values`up
  {
    UpOk(z, n) && z[n].up != null && MaxNet(z, z[n].up.net, bits) != null
  }

  lemma {:induction false} HasMaxUpIff(z: Zone, n: Prefix, bits: nat)
    requires Known(z) && UpsOk(z) && n in z && forall p :: p in z ==> p.inv <= bits
    ensures HasMaxUp(z, n, bits) <==> InsideNetwork(z, n)
  {
    hide Strict;
    assert UpOk(z, n);
    if z[n].up != null {
      var u := z[n].up.net;
      MaxNetIff(z, u, bits);
      forall r | r in z
        ensures Strict(r, n) <==> r == u || Strict(r, u)
      {
        AroundUp(z, n, u, r);
      }
    }
  }

  /** Sets `up` and `networks` of all objects of a zone, and returns the networks that
      remain networks of the zone itself. */
  method FindSubnetsInZone(networks: seq<Network>, aggregates: seq<Network>, ghost bits: nat)
    returns (z: Zone, l: seq<Network>, errors: seq<(Network, Network)>)
    requires forall n :: n in networks + aggregates ==>
               n.net.Valid() && n.net.inv <= bits && n.up == null && n.networks == []
    requires forall n :: n in networks ==> !n.isAggregate
    modifies set n | n in networks + aggregates
    ensures FromList(z, networks + aggregates, |networks + aggregates|) && ErrorsOk(errors, z)
    ensures |errors| + |z| == |networks + aggregates|
    ensures UpsOk(z) && AllNetworksOk(z)
    ensures forall n :: n in l <==> n in networks && (IsStored(z, n) ==> !InsideNetwork(z, n.net))
  {
    hide Strict, Relation, Collected, UpsOk, AllNetworksOk, ErrorsOk, Prefix.Valid, InsideNetwork;
    ghost var all := networks + aggregates;
    assert all[..|all|] == all;
    var maskIPMap;
    maskIPMap, z, errors := Collect(networks + aggregates);
    var pairs := FindRelation(maskIPMap, z);
    SetSubnets(z, pairs);
    l := RemoveSubnets(z, networks, bits);
  }
}
