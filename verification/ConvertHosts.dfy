/** Relations between the subnets of a network (`convertHosts` in
    go/pkg/pass1/convert-hosts.go): each subnet is linked to the smallest object around
    it, and to its right neighbor.  Larger subnets are added where two neighbors make
    them up.
  */
module ConvertHosts {
  import opened Prefixes
  import opened SubnetRelation
  import opened CombineSubnets

  /** `subnetAref`: subnets by number of host bits and by address */
  type Subnets = MaskIPMap<Subnet>

  ghost predicate Known(m: Subnets, n: Network) {
    n.net.Valid() && forall p: Prefix :: Stored(m, p) ==> m[p.inv][p.base].net == p && p.Valid() && n.net.Covers(p)
  }

  function At(m: Subnets, p: Prefix): Subnet
    requires Stored(m, p)
  {
    m[p.inv][p.base]
  }

  ghost function All(m: Subnets): set<Subnet> {
    set k, ip | k in m && ip in m[k] :: m[k][ip]
  }

  /** `up` is the smallest subnet around `p`, or the network if there is none inside the network. */
  ghost predicate UpIs(m: Subnets, n: Network, p: Prefix, up: Up) {
    match up
    case Unset => false
    case InSubnet(x) => Stored(m, x.net) && At(m, x.net) == x && Direct(m, p, x.net)
    case InNetwork(n') => n' == n && forall q :: Stored(m, q) && Strict(q, p) ==> q.inv >= n.net.inv
  }

  ghost predicate UpOk(m: Subnets, n: Network, p: Prefix)
    requires Stored(m, p)
    reads At(m, p)
  {
    UpIs(m, n, p, At(m, p).up)
  }

  /** Both halves of a larger object; the left one has neither NAT nor ID. */
  predicate Adjacent(m: Subnets, p: Prefix) {
    Stored(m, p) && At(m, p).plain && p.IsLeft() && Stored(m, p.Next())
  }

  /** The left half is linked to the right one, and both to the object which they make up. */
  ghost predicate LinkOk(m: Subnets, n: Network, p: Prefix)
    requires Adjacent(m, p)
    reads At(m, p), At(m, p.Next())
  {
    var s, t := At(m, p), At(m, p.Next());
    && s.neighbor == t && t.hasNeighbor && s.up == t.up
    && (if p.inv + 1 >= n.net.inv then s.up == InNetwork(n)
        else Stored(m, p.Up()) && s.up == InSubnet(At(m, p.Up())))
  }

  ghost predicate NeighborOk(m: Subnets, n: Network, p: Prefix)
    requires Stored(m, p)
    reads At(m, p), if Adjacent(m, p) then {At(m, p.Next())} else {}
  {
    if Adjacent(m, p) then LinkOk(m, n, p) else At(m, p).neighbor == null
  }

  /** Only right halves are marked. */
  ghost predicate MarkOk(m: Subnets, p: Prefix)
    requires Stored(m, p)
    reads At(m, p)
  {
    At(m, p).hasNeighbor ==> exists q :: Adjacent(m, q) && q.Next() == p
  }

  ghost predicate State(m: Subnets, n: Network, done: set<Prefix>)
    reads All(m)
  {
    && Known(m, n)
    && forall p: Prefix :: Stored(m, p) ==> At(m, p) in All(m) && SubnetOk(m, n, done, p)
  }

  ghost predicate SubnetOk(m: Subnets, n: Network, done: set<Prefix>, p: Prefix)
    requires Stored(m, p)
    reads All(m)
  {
    && At(m, p) in All(m) && UpOk(m, n, p) && MarkOk(m, p)
    && (if p in done then (Adjacent(m, p) ==> At(m, p.Next()) in All(m)) && NeighborOk(m, n, p)
        else At(m, p).neighbor == null)
  }

  // ---------------------------------------------------------------- arithmetic of halves

  /** Neighbors inside of a network are no larger than its halves. */
  lemma {:induction false} HalvesInside(n: Prefix, p: Prefix)
    requires n.Valid() && p.Valid() && p.IsLeft() && n.Covers(p) && n.Covers(p.Next())
    ensures p.inv < n.inv && n.Covers(p.Up()) && p.Next().Valid()
    ensures p.inv + 1 == n.inv ==> p.Up() == n
  {
    hide Trunc;
    BuddyValid(p);
    assert Pow2(p.inv) >= 1;
    hide Pow2;
    if p.inv == n.inv {
      SameWidth(n, p, p) by {
        CoversRefl(p);
      }
      SameWidth(n, p.Next(), p.Next()) by {
        CoversRefl(p.Next());
      }
    }
    CoversUp(n, p);
    if p.inv + 1 == n.inv {
      CoversRefl(p.Up());
      SameWidth(n, p.Up(), p.Up());
    }
  }

  /** A subnet strictly inside of the whole lies in one of the halves. */
  lemma {:induction false} InsideHalf(p: Prefix, t: Prefix)
    requires p.Valid() && p.IsLeft() && t.Valid() && Strict(p.Up(), t)
    ensures t == p || t == p.Next() || Strict(p, t) || Strict(p.Next(), t)
  {
    hide Trunc, Pow2;
    BuddyValid(p);
    BaseInside(t);
    CoversHas(p.Up(), t, t.base);
    BuddiesUnite(p, p.Next(), t.base);
    if p.Has(t.base) {
      SharedAddressNests(p, t, t.base);
      if t.inv == p.inv {
        SameWidth(p, t, t) by {
          CoversRefl(t);
        }
      }
    } else {
      SharedAddressNests(p.Next(), t, t.base);
      if t.inv == p.inv {
        SameWidth(p.Next(), t, t) by {
          CoversRefl(t);
        }
      }
    }
  }

  lemma BaseInside(t: Prefix)
    ensures t.Has(t.base)
  {
  }

  /** What is strictly around a half, is the whole or strictly around the whole. */
  lemma {:induction false} AroundHalf(p: Prefix, q: Prefix, half: Prefix)
    requires p.Valid() && p.IsLeft() && q.Valid() && (half == p || half == p.Next())
    ensures Strict(q, half) <==> q == p.Up() || Strict(q, p.Up())
  {
    hide Trunc, Pow2;
    BuddyValid(p);
    UpHalf(p);
    UpHalf(p.Next());
    if Strict(q, half) {
      CoversUp(q, half);
      if q.inv == half.inv + 1 {
        CoversRefl(p.Up());
        SameWidth(q, p.Up(), p.Up());
      }
    } else if Strict(q, p.Up()) {
      CoversTrans(q, p.Up(), half);
    }
  }

  // ------------------------------------------------------------------ adding a subnet

  function Added(m: Subnets, u: Subnet): Subnets {
    var ip, k := u.net.base, u.net.inv;
    var level: map<nat, Subnet> := if k in m then m[k] else map[];
    m[k := level[ip := u]]
  }

  lemma {:induction false} AddedStored(m: Subnets, u: Subnet, p: Prefix)
    ensures Stored(Added(m, u), p) <==> Stored(m, p) || p == u.net
    ensures p == u.net ==> At(Added(m, u), p) == u
    ensures Stored(m, p) && p != u.net ==> At(Added(m, u), p) == At(m, p)
  {
  }

  lemma {:induction false} AddedKnown(m: Subnets, n: Network, u: Subnet)
    requires Known(m, n) && u.net.Valid() && n.net.Covers(u.net)
    ensures Known(Added(m, u), n)
  {
    hide Added, Prefix.Covers, Prefix.Valid;
    forall p: Prefix | Stored(Added(m, u), p)
      ensures At(Added(m, u), p).net == p && p.Valid() && n.net.Covers(p)
    {
      AddedStored(m, u, p);
    }
  }

  /** The new subnet is the smallest one around its halves, and none of the others. */
  lemma {:induction false} UpAfterAdd(m: Subnets, n: Network, u: Subnet, p: Prefix, q: Prefix, up: Up)
    requires Known(m, n) && Stored(m, p) && p.IsLeft() && Stored(m, p.Next())
    requires u.net == p.Up() && !Stored(m, u.net) && Stored(m, q) && UpIs(m, n, q, up)
    ensures q != p && q != p.Next() ==> UpIs(Added(m, u), n, q, up)
    ensures q == p ==> UpIs(Added(m, u), n, u.net, up)
  {
    hide Trunc, Pow2, Added, Strict;
    var m' := Added(m, u);
    assert p.Valid() && q.Valid();
    forall r: Prefix
      ensures Stored(m', r) <==> Stored(m, r) || r == u.net
    {
      AddedStored(m, u, r);
    }
    if up.InSubnet? {
      AddedStored(m, u, up.s.net);
    }
    if q == p {
      forall r | Stored(m, r)
        ensures Strict(r, u.net) <==> Strict(r, p)
      {
        AroundHalf(p, r, p);
      }
      NotStrict(u.net);
    } else if q != p.Next() && Strict(u.net, q) {
      InsideHalf(p, q);
      SmallerHalf(p, q);
    }
  }

  lemma NotStrict(p: Prefix)
    ensures !Strict(p, p)
  {
  }

  lemma SmallerHalf(p: Prefix, q: Prefix)
    requires Strict(p, q) || Strict(p.Next(), q)
    ensures exists h :: (h == p || h == p.Next()) && Strict(h, q) && h.inv < p.Up().inv
  {
  }

  /** The links of both halves. */
  lemma {:induction false} UpOfHalf(m: Subnets, n: Network, p: Prefix, half: Prefix)
    requires Known(m, n) && Stored(m, p) && p.IsLeft() && (half == p || half == p.Next())
    ensures Stored(m, p.Up()) ==> UpIs(m, n, half, InSubnet(At(m, p.Up())))
    ensures p.inv + 1 >= n.net.inv ==> UpIs(m, n, half, InNetwork(n))
  {
    hide Trunc, Pow2, Strict;
    assert p.Valid();
    forall q | Stored(m, q)
      ensures Strict(q, half) ==> q.inv >= p.inv + 1
      ensures q == p.Up() ==> Strict(q, half)
    {
      AroundHalf(p, q, half);
      WholeSize(p, q);
    }
  }

  lemma WholeSize(p: Prefix, q: Prefix)
    ensures p.Up().inv == p.inv + 1 && (Strict(q, p.Up()) ==> q.inv > p.inv + 1)
  {
  }

  // -------------------------------------------------------------------- the method

  /** The subnets stay, and perhaps the object which two halves make up is added. */
  ghost predicate Grown(m: Subnets, m': Subnets, p: Prefix) {
    || m' == m
    || (!Stored(m, p.Up()) && Stored(m', p.Up()) && At(m', p.Up()).net == p.Up() && m' == Added(m, At(m', p.Up())))
  }

  lemma InAll(m: Subnets, p: Prefix)
    requires Stored(m, p)
    ensures At(m, p) in All(m)
  {
  }

  lemma {:induction false} GrownStored(m: Subnets, m': Subnets, p: Prefix, q: Prefix)
    requires Grown(m, m', p)
    ensures Stored(m, q) ==> Stored(m', q) && At(m', q) == At(m, q)
    ensures q.inv <= p.inv && Stored(m', q) ==> Stored(m, q)
    ensures Stored(m', q) && !Stored(m, q) ==> q == p.Up()
  {
    hide Added, Trunc;
    if m' != m {
      AddedStored(m, At(m', p.Up()), q);
      SizeOfUp(p);
    }
  }

  lemma SizeOfUp(p: Prefix)
    ensures p.Up().inv == p.inv + 1
  {
  }

  lemma {:induction false} AdjacentGrown(m: Subnets, m': Subnets, p: Prefix, q: Prefix)
    requires Grown(m, m', p)
    ensures Adjacent(m, q) ==> Adjacent(m', q)
    ensures q.inv <= p.inv ==> (Adjacent(m', q) <==> Adjacent(m, q))
  {
    hide Grown, Prefix.IsLeft;
    GrownStored(m, m', p, q);
    GrownStored(m, m', p, q.Next());
  }

  /** Nothing changes for the other subnets. */
  lemma {:induction false} OtherOk(m: Subnets, m': Subnets, n: Network, done: set<Prefix>, p: Prefix, q: Prefix)
    requires Known(m, n) && Grown(m, m', p) && Adjacent(m, p)
    requires forall r :: r in done ==> r.inv <= p.inv
    requires Stored(m, q) && Stored(m', q) && q != p && q != p.Next()
    requires UpIs(m, n, q, At(m, q).up) && MarkOk(m, q)
    requires if q in done then NeighborOk(m, n, q) else At(m, q).neighbor == null
    ensures SubnetOk(m', n, done + {p}, q)
  {
    hide Trunc, Pow2, UpIs, Direct, Added, Prefix.IsLeft, Prefix.Next, Prefix.Up, All, Adjacent, Known;
    GrownStored(m, m', p, q);
    InAll(m', q);
    assert UpIs(m', n, q, At(m', q).up) by {
      if m' != m {
        AdjacentParts(m, p);
        UpAfterAdd(m, n, At(m', p.Up()), p, q, At(m, q).up);
      }
    }
    if At(m, q).hasNeighbor {
      var r :| Adjacent(m, r) && r.Next() == q;
      AdjacentGrown(m, m', p, r);
    }
    if q in done {
      AdjacentGrown(m, m', p, q);
      if Adjacent(m, q) {
        AdjacentParts(m, q);
        GrownStored(m, m', p, q.Next());
        GrownStored(m, m', p, q.Up());
        InAll(m', q.Next());
      }
    }
  }

  lemma AdjacentParts(m: Subnets, p: Prefix)
    requires Adjacent(m, p)
    ensures Stored(m, p) && At(m, p).plain && p.IsLeft() && Stored(m, p.Next())
  {
  }

  /** The object which both halves make up. */
  ghost predicate WholeOf(m: Subnets, n: Network, p: Prefix, up: Up) {
    if p.inv + 1 >= n.net.inv then up == InNetwork(n) else Stored(m, p.Up()) && up == InSubnet(At(m, p.Up()))
  }

  lemma {:induction false} WholeIs(m: Subnets, n: Network, p: Prefix, half: Prefix, up: Up)
    requires Known(m, n) && Adjacent(m, p) && (half == p || half == p.Next()) && WholeOf(m, n, p, up)
    ensures UpIs(m, n, half, up)
  {
    hide UpIs, Trunc;
    UpOfHalf(m, n, p, half);
  }

  lemma {:induction false} LeftOk(m: Subnets, m': Subnets, n: Network, done: set<Prefix>, p: Prefix)
    requires Known(m', n) && Grown(m, m', p) && Adjacent(m, p) && Adjacent(m', p)
    requires var s, t := At(m', p), At(m', p.Next());
             s.neighbor == t && t.hasNeighbor && s.up == t.up && WholeOf(m', n, p, s.up)
    requires MarkOk(m, p) && At(m, p) == At(m', p)
    ensures SubnetOk(m', n, done + {p}, p)
  {
    hide Trunc, Pow2, UpIs, Added, Prefix.IsLeft, Prefix.Next, Prefix.Up, All, Adjacent, Known, Grown;
    AdjacentParts(m, p);
    AdjacentParts(m', p);
    InAll(m', p);
    InAll(m', p.Next());
    WholeIs(m', n, p, p, At(m', p).up);
    if At(m, p).hasNeighbor {
      var r :| Adjacent(m, r) && r.Next() == p;
      AdjacentGrown(m, m', p, r);
    }
  }

  lemma {:induction false} RightOk(m': Subnets, n: Network, p: Prefix, done: set<Prefix>)
    requires Known(m', n) && Adjacent(m', p)
    requires var s, t := At(m', p), At(m', p.Next());
             t.neighbor == null && s.up == t.up && WholeOf(m', n, p, s.up)
    ensures Stored(m', p.Next()) && SubnetOk(m', n, done + {p}, p.Next())
  {
    NotLeftBuddy(m', n, p);
    hide Trunc, Pow2, UpIs, Prefix.IsLeft, Prefix.Next, Prefix.Up, All, Known;
    InAll(m', p.Next());
    WholeIs(m', n, p, p.Next(), At(m', p).up);
  }

  lemma {:induction false} NotLeftBuddy(m: Subnets, n: Network, p: Prefix)
    requires Known(m, n) && Adjacent(m, p)
    ensures !p.Next().IsLeft() && p.Next() != p
    ensures forall q: Prefix :: q.IsLeft() ==> q.Next() != p
  {
    hide Trunc;
    BuddyValid(p);
    assert Pow2(p.inv) >= 1;
    hide Pow2;
    forall q: Prefix | q.IsLeft()
      ensures q.Next() != p
    {
      if q.Next() == p {
        AlignedDown(q.base, q.inv, q.inv + 1);
        BuddyValid(q);
      }
    }
  }

  lemma {:induction false} NewOk(m: Subnets, n: Network, done: set<Prefix>, p: Prefix, u: Subnet, up: Up)
    requires Known(m, n) && Adjacent(m, p) && u.net == p.Up() && !Stored(m, u.net) && UpIs(m, n, p, up)
    requires forall r :: r in done ==> r.inv <= p.inv
    requires u.neighbor == null && !u.hasNeighbor && u.up == up
    ensures Stored(Added(m, u), u.net) && At(Added(m, u), u.net) == u && SubnetOk(Added(m, u), n, done + {p}, u.net)
  {
    hide Trunc, Pow2, UpIs, Added, Prefix.IsLeft, Prefix.Next, All;
    AdjacentParts(m, p);
    AddedStored(m, u, u.net);
    UpAfterAdd(m, n, u, p, p, up);
    InAll(Added(m, u), u.net);
    SizeOfUp(p);
  }

  lemma DistinctNext(p: Prefix, q: Prefix)
    ensures p != q ==> p.Next() != q.Next()
  {
  }

  lemma {:induction false} NextNotLinked(m: Subnets, n: Network, done: set<Prefix>, p: Prefix)
    requires Adjacent(m, p) && SubnetOk(m, n, done, p.Next()) && !p.Next().IsLeft()
    ensures At(m, p.Next()).neighbor == null
  {
  }

  lemma {:induction false} AllGrown(m: Subnets, m': Subnets, p: Prefix)
    requires Grown(m, m', p)
    ensures forall x :: x in All(m') ==> x in All(m) || (m' != m && x == At(m', p.Up()))
  {
    hide Prefix.Up;
  }

  lemma {:induction false} HalvesKnown(m: Subnets, n: Network, p: Prefix)
    requires Known(m, n) && Adjacent(m, p)
    ensures p.Up() == Prefix(p.base, p.inv + 1) && p.Up().Valid() && n.net.Covers(p.Up())
    ensures At(m, p).net == p && At(m, p.Next()).net == p.Next()
    ensures forall q: Prefix :: Stored(m, q) ==> At(m, q).net == q
  {
    hide Trunc, Pow2;
    BuddyValid(p);
    HalvesInside(n.net, p);
  }

  /** Links two adjacent subnets to each other, and to the object which they make up. */
  method LinkPair(m: Subnets, n: Network, p: Prefix, ghost done: set<Prefix>) returns (m': Subnets)
    requires State(m, n, done) && Adjacent(m, p) && p !in done
    requires forall q :: q in done ==> q.inv <= p.inv
    modifies At(m, p), At(m, p.Next())
    ensures Grown(m, m', p) && (m' != m ==> p.inv + 1 < n.net.inv) && State(m', n, done + {p})
    ensures forall x :: x in All(m') ==> x in All(m) || fresh(x)
  {
    hide Trunc, Pow2, UpIs, Added, Prefix.IsLeft, Prefix.Up, Prefix.Next, All, Direct, Adjacent, Prefix.Covers, Known;
    AdjacentParts(m, p);
    var s, neighbor := At(m, p), At(m, p.Next());
    NotLeftBuddy(m, n, p);
    HalvesKnown(m, n, p);
    ghost var oldUp := s.up;
    assert SubnetOk(m, n, done, p) && SubnetOk(m, n, done, p.Next());
    NextNotLinked(m, n, done, p);
    m' := m;
    s.neighbor := neighbor;
    neighbor.hasNeighbor := true;
    var up;
    if p.inv + 1 >= n.net.inv {
      up := InNetwork(n);
    } else if Stored(m, Prefix(p.base, p.inv + 1)) {
      up := InSubnet(At(m, Prefix(p.base, p.inv + 1)));
    } else {
      var u := new Subnet(Prefix(p.base, p.inv + 1), n, true);
      u.up := s.up;
      m' := Added(m, u);
      up := InSubnet(u);
      AddedStored(m, u, u.net);
      AddedKnown(m, n, u);
      NewOk(m, n, done, p, u, oldUp);
    }
    s.up := up;
    neighbor.up := up;
    GrownStored(m, m', p, p);
    GrownStored(m, m', p, p.Next());
    AdjacentGrown(m, m', p, p);
    LeftOk(m, m', n, done, p);
    RightOk(m', n, p, done);
    forall q: Prefix | Stored(m', q)
      ensures At(m', q) in All(m') && SubnetOk(m', n, done + {p}, q)
    {
      GrownStored(m, m', p, q);
      InAll(m', q);
      if Stored(m, q) && q != p && q != p.Next() {
        assert old(SubnetOk(m, n, done, q));
        assert At(m, q).net == q;
        if Adjacent(m, q) {
          AdjacentParts(m, q);
          DistinctNext(p, q);
          assert At(m, q.Next()).net == q.Next();
        }
        OtherOk(m, m', n, done, p, q);
      }
    }
    AllGrown(m, m', p);
  }

  /** Searches for the enclosing subnet. */
  method FindUp(m: Subnets, n: Network, p: Prefix, bits: nat) returns (up: Up)
    requires Known(m, n) && Stored(m, p) && forall q: Prefix :: Stored(m, q) ==> q.inv < bits
    ensures UpIs(m, n, p, up)
  {
    hide Trunc, Pow2;
    var ip := p.base;
    var j := p.inv + 1;
    SameBase(p);
    while j < bits
      invariant p.inv < j && ip == Trunc(p.base, j - 1)
      invariant forall q :: Stored(m, q) && Strict(q, p) ==> q.inv >= j
    {
      TruncTrunc(p.base, j - 1, j);
      ip := Trunc(ip, j);
      var q := Prefix(ip, j);
      if Stored(m, q) {
        return InSubnet(At(m, q));
      }
      j := j + 1;
    }
    up := InNetwork(n);
  }

  lemma SameBase(p: Prefix)
    requires p.Valid()
    ensures Trunc(p.base, p.inv) == p.base
  {
  }

  /** Subnets as they have been created from hosts. */
  ghost predicate Created(m: Subnets, n: Network, bits: nat)
    reads All(m)
  {
    && Known(m, n) && n.net.inv <= bits
    && forall p: Prefix :: Stored(m, p) ==>
         p.inv < bits && At(m, p) in All(m) && At(m, p).neighbor == null && !At(m, p).hasNeighbor
  }

  /** Sets `up` of all subnets. */
  method SetUps(m: Subnets, n: Network, bits: nat)
    requires Created(m, n, bits)
    modifies All(m)
    ensures Created(m, n, bits) && State(m, n, {})
  {
    hide Trunc, Pow2, UpIs, Direct, Prefix.Covers, Prefix.Valid;
    var i := 0;
    while i < bits
      invariant Created(m, n, bits)
      invariant forall p: Prefix :: Stored(m, p) && p.inv < i ==> UpOk(m, n, p)
    {
      var todo := if i in m then m[i].Keys else {};
      while todo != {}
        invariant todo <= if i in m then m[i].Keys else {}
        invariant Created(m, n, bits)
        invariant forall p: Prefix :: Stored(m, p) && (p.inv < i || (p.inv == i && p.base !in todo)) ==> UpOk(m, n, p)
        decreases todo
      {
        hide All;
        var ip :| ip in todo;
        todo := todo - {ip};
        var p := Prefix(ip, i);
        assert Stored(m, p) && At(m, p) in All(m);
        var up := FindUp(m, n, p, bits);
        assert forall q: Prefix :: Stored(m, q) && q != p ==> At(m, q).net == q && At(m, q) != At(m, p);
        At(m, p).up := up;
      }
      i := i + 1;
    }
  }

  lemma {:induction false} SkipOk(m: Subnets, n: Network, done: set<Prefix>, p: Prefix)
    requires State(m, n, done) && Stored(m, p) && !Adjacent(m, p) && p !in done
    ensures State(m, n, done + {p})
  {
    hide Known, Adjacent, UpOk, LinkOk, All, MarkOk;
    forall q: Prefix | Stored(m, q)
      ensures SubnetOk(m, n, done + {p}, q)
    {
      assert SubnetOk(m, n, done, q);
    }
  }

  lemma {:induction false} Growth(m: Subnets, m': Subnets, p: Prefix)
    requires Grown(m, m', p)
    ensures forall q: Prefix :: Stored(m, q) ==> Stored(m', q) && At(m', q) == At(m, q)
    ensures forall q: Prefix :: Stored(m', q) && !Stored(m, q) ==> m' != m && q.inv == p.inv + 1
  {
    hide Grown;
    forall q: Prefix
      ensures Stored(m, q) ==> Stored(m', q) && At(m', q) == At(m, q)
      ensures Stored(m', q) && !Stored(m, q) ==> m' != m && q.inv == p.inv + 1
    {
      GrownStored(m, m', p, q);
      SizeOfUp(p);
    }
  }

  /** Only subnets which two adjacent ones make up have been added. */
  ghost predicate OnlyWholes(m0: Subnets, m: Subnets) {
    forall q: Prefix :: Stored(m, q) && !Stored(m0, q) ==> exists p :: Adjacent(m, p) && p.Up() == q
  }

  lemma NothingAdded(m: Subnets)
    ensures OnlyWholes(m, m)
  {
  }

  lemma {:induction false} WholesGrown(m0: Subnets, m: Subnets, m': Subnets, p: Prefix)
    requires OnlyWholes(m0, m) && Grown(m, m', p) && Adjacent(m, p)
    ensures OnlyWholes(m0, m')
  {
    hide Grown, Adjacent, Prefix.Up;
    forall q: Prefix | Stored(m', q) && !Stored(m0, q)
      ensures exists r :: Adjacent(m', r) && r.Up() == q
    {
      GrownStored(m, m', p, q);
      if Stored(m, q) {
        var r :| Adjacent(m, r) && r.Up() == q;
        AdjacentGrown(m, m', p, r);
      } else {
        AdjacentGrown(m, m', p, p);
      }
    }
  }

  /** Finds adjacent subnets which build a larger subnet. */
  method FindNeighbors(m0: Subnets, n: Network, bits: nat) returns (m: Subnets, ghost done: set<Prefix>)
    requires Created(m0, n, bits) && State(m0, n, {})
    modifies All(m0)
    ensures State(m, n, done) && forall p: Prefix :: Stored(m, p) ==> p in done
    ensures forall p: Prefix :: Stored(m0, p) ==> Stored(m, p) && At(m, p) == At(m0, p)
    ensures forall x :: x in All(m) ==> x in All(m0) || fresh(x)
    ensures OnlyWholes(m0, m)
  {
    hide Trunc, Pow2, State, All, Adjacent, Prefix.IsLeft, Prefix.Next, Prefix.Up, OnlyWholes, Grown;
    NothingAdded(m0);
    m, done := m0, {};
    var i := 0;
    while i < bits
      invariant 0 <= i <= bits && State(m, n, done)
      invariant forall p: Prefix :: Stored(m, p) ==> p.inv < bits
      invariant forall p: Prefix :: p in done <==> Stored(m, p) && p.inv < i
      invariant forall p: Prefix :: Stored(m0, p) ==> Stored(m, p) && At(m, p) == At(m0, p)
      invariant forall x :: x in All(m) ==> x in All(m0) || fresh(x)
      invariant OnlyWholes(m0, m)
    {
      var todo := if i in m then m[i].Keys else {};
      while todo != {}
        invariant forall ip :: ip in todo ==> Stored(m, Prefix(ip, i))
        invariant State(m, n, done) && forall p: Prefix :: Stored(m, p) ==> p.inv < bits
        invariant forall p: Prefix :: p in done <==> Stored(m, p) && (p.inv < i || (p.inv == i && p.base !in todo))
        invariant forall p: Prefix :: Stored(m0, p) ==> Stored(m, p) && At(m, p) == At(m0, p)
        invariant forall x :: x in All(m) ==> x in All(m0) || fresh(x)
        invariant OnlyWholes(m0, m)
        decreases todo
      {
        var ip :| ip in todo;
        todo := todo - {ip};
        var p := Prefix(ip, i);
        if Adjacent(m, p) {
          var before := m;
          InAll(m, p);
          AdjacentParts(m, p);
          InAll(m, p.Next());
          m := LinkPair(m, n, p, done);
          Growth(before, m, p);
          WholesGrown(m0, before, m, p);
        } else {
          SkipOk(m, n, done, p);
        }
        done := done + {p};
      }
      i := i + 1;
    }
  }

  /** The relations are those on which combining of subnets relies. */
  lemma {:induction false} RelationsLinked(m: Subnets, n: Network, done: set<Prefix>)
    requires State(m, n, done) && forall p: Prefix :: Stored(m, p) ==> p in done
    ensures Linked(All(m))
  {
    forall s | s in All(m)
      ensures s.net.Valid() && (s.neighbor != null ==> s.neighbor in All(m) && HalfOf(s, All(m)))
    {
      hide Trunc, Pow2, UpIs, Direct;
      InStored(m, n, s);
      assert SubnetOk(m, n, done, s.net);
      if s.neighbor != null {
        AdjacentParts(m, s.net);
        HalvesKnown(m, n, s.net);
        LinkedHalf(m, n, s);
      }
    }
  }

  lemma {:induction false} InStored(m: Subnets, n: Network, s: Subnet)
    requires Known(m, n) && s in All(m)
    ensures Stored(m, s.net) && At(m, s.net) == s && s.net.Valid()
  {
    var k, ip :| k in m && ip in m[k] && m[k][ip] == s;
    var p := Prefix(ip, k);
    assert Stored(m, p);
  }

  lemma {:induction false} LinkedHalf(m: Subnets, n: Network, s: Subnet)
    requires Known(m, n) && Stored(m, s.net) && At(m, s.net) == s && Adjacent(m, s.net) && LinkOk(m, n, s.net)
    ensures s.neighbor != null && s.neighbor in All(m) && HalfOf(s, All(m))
  {
    hide Trunc, Pow2, All;
    HalvesKnown(m, n, s.net);
    HalvesInside(n.net, s.net);
    InAll(m, s.net.Next());
    if s.net.inv + 1 < n.net.inv {
      InAll(m, s.net.Up());
    }
  }

  /** Each neighbor is the right half of the object to which both halves are linked; all other
      subnets are linked to the smallest object around them. */
  method ConvertHosts(m0: Subnets, n: Network, bits: nat) returns (m: Subnets)
    requires Created(m0, n, bits)
    modifies All(m0)
    ensures Known(m, n) && Linked(All(m))
    ensures forall p: Prefix :: Stored(m, p) ==> At(m, p) in All(m) && UpOk(m, n, p) && MarkOk(m, p)
    ensures forall p: Prefix :: Stored(m, p) && Adjacent(m, p) ==> LinkOk(m, n, p)
    ensures forall p: Prefix :: Stored(m, p) && !Adjacent(m, p) ==> At(m, p).neighbor == null
    ensures forall p: Prefix :: Stored(m0, p) ==> Stored(m, p) && At(m, p) == At(m0, p)
    ensures NeighborsExact(m) && AddedExact(m0, m)
  {
    SetUps(m0, n, bits);
    ghost var done;
    m, done := FindNeighbors(m0, n, bits);
    RelationsLinked(m, n, done);
    hide Known, Adjacent, LinkOk, UpOk, MarkOk, All, Linked, NeighborsExact, AddedExact;
    forall p: Prefix | Stored(m, p)
      ensures SubnetOk(m, n, done, p)
    {
    }
    AllNeighbors(m, n, done);
    AllWholes(m0, m, n);
  }

  /** Exactly the subnets with a right part are linked to it, and it is marked. */
  ghost predicate NeighborsExact(m: Subnets)
    reads All(m)
  {
    forall p: Prefix :: Stored(m, p) ==> At(m, p) in All(m) && NeighborExact(m, p)
  }

  ghost predicate NeighborExact(m: Subnets, p: Prefix)
    requires Stored(m, p)
    reads At(m, p), if HasRight(m, p) then {m[p.inv][p.base + Pow2(p.inv)]} else {}
  {
    if HasRight(m, p) then At(m, p).neighbor == m[p.inv][p.base + Pow2(p.inv)] && At(m, p).neighbor.hasNeighbor
    else At(m, p).neighbor == null
  }

  /** Each new subnet consists of two linked ones. */
  ghost predicate AddedExact(m0: Subnets, m: Subnets) {
    forall q: Prefix :: Stored(m, q) && !Stored(m0, q) ==> exists p :: HasRight(m, p) && q == Prefix(p.base, p.inv + 1)
  }

  /** The subnet has neither NAT nor ID, its lowest network bit is zero, and the subnet of the
      same size behind it exists, too. */
  predicate HasRight(m: Subnets, p: Prefix) {
    && p.inv in m && p.base in m[p.inv] && m[p.inv][p.base].plain
    && Trunc(p.base, p.inv + 1) == p.base && p.base + Pow2(p.inv) in m[p.inv]
  }

  lemma AdjacentIff(m: Subnets, p: Prefix)
    ensures Adjacent(m, p) <==> HasRight(m, p)
    ensures p.Next() == Prefix(p.base + Pow2(p.inv), p.inv)
  {
  }

  lemma {:induction false} AllNeighbors(m: Subnets, n: Network, done: set<Prefix>)
    requires State(m, n, done) && forall p: Prefix :: Stored(m, p) ==> p in done
    ensures NeighborsExact(m)
  {
    hide Trunc, Pow2, UpOk, All, Known, MarkOk, Adjacent, Prefix.Next, Prefix.Up;
    forall p: Prefix | Stored(m, p)
      ensures At(m, p) in All(m) && NeighborExact(m, p)
    {
      AdjacentIff(m, p);
      assert SubnetOk(m, n, done, p);
      if Adjacent(m, p) {
        AdjacentParts(m, p);
      }
    }
  }

  lemma {:induction false} AllWholes(m0: Subnets, m: Subnets, n: Network)
    requires Known(m, n) && OnlyWholes(m0, m)
    ensures AddedExact(m0, m)
  {
    forall q: Prefix | Stored(m, q) && !Stored(m0, q)
      ensures exists p :: HasRight(m, p) && q == Prefix(p.base, p.inv + 1)
    {
      var p :| Adjacent(m, p) && p.Up() == q;
      HalvesKnown(m, n, p);
      AdjacentIff(m, p);
    }
  }
}
