/** Adding an aggregate to a zone (`linkImplicitAggregateToZone` in
    go/pkg/pass1/get-aggregates.go).
  */
module Aggregates {
  import opened Prefixes
  import opened SubnetRelation
  import opened ZoneSubnets
  import Sorting

  // ------------------------------------------------------------ the objects of a zone

  /** A network which is no aggregate, strictly inside of `n`. */
  predicate Inner(z: Zone, n: Prefix, x: Network) {
    IsStored(z, x) && !x.isAggregate && Strict(n, x.net)
  }

  /** The largest network between `x` and `n` belongs to `n`. */
  lemma {:induction false} TopBetween(z: Zone, x: Prefix, n: Prefix) returns (r: Prefix)
    requires x in z && !z[x].isAggregate && Strict(n, x)
    ensures Belongs(z, r, n) && (r == x || Strict(r, x))
    decreases n.inv - x.inv
  {
    hide Strict;
    if Separated(z, x, n) {
      var s :| s in z && !z[s].isAggregate && Strict(s, x) && Strict(n, s);
      StrictSize(s, x);
      StrictSize(n, s);
      r := TopBetween(z, s, n);
      if r != s {
        StrictTrans(r, s, x);
      }
    } else {
      r := x;
    }
  }

  /** `addSubnets`: all networks inside of `n` */
  method AddSubnets(z: Zone, n: Network, objects: seq<Network>) returns (r: seq<Network>)
    requires Known(z) && AllNetworksOk(z) && IsStored(z, n)
    ensures forall x :: x in r <==> x in objects || Inner(z, n.net, x)
    decreases n.net.inv
  {
    hide Strict, AllNetworksOk;
    NetworksAt(z, n.net);
    r := objects;
    var i := 0;
    while i < |n.networks|
      invariant 0 <= i <= |n.networks|
      invariant forall x :: x in r <==> x in objects || Below(z, n.networks[..i], x)
    {
      var s := n.networks[i];
      assert s in n.networks;
      assert Belongs(z, s.net, n.net);
      StrictSize(n.net, s.net);
      BelowMore(z, n.networks, i);
      r := AddSubnets(z, s, r + [s]);
      i := i + 1;
    }
    BelowAll(z, n);
  }

  /** The network is listed, or lies inside of a listed one. */
  ghost predicate Below(z: Zone, l: seq<Network>, x: Network) {
    exists k :: 0 <= k < |l| && (x == l[k] || Inner(z, l[k].net, x))
  }

  lemma NetworksAt(z: Zone, n: Prefix)
    requires AllNetworksOk(z) && n in z
    ensures NetworksOk(z, n)
  {
  }

  lemma {:induction false} BelowMore(z: Zone, l: seq<Network>, i: nat)
    requires i < |l|
    ensures forall x :: Below(z, l[..i + 1], x) <==> Below(z, l[..i], x) || x == l[i] || Inner(z, l[i].net, x)
  {
    hide Inner;
    var m := l[..i + 1];
    assert m == l[..i] + [l[i]];
    forall x
      ensures Below(z, m, x) <==> Below(z, l[..i], x) || x == l[i] || Inner(z, l[i].net, x)
    {
      if Below(z, l[..i], x) {
        var k :| 0 <= k < i && (x == l[..i][k] || Inner(z, l[..i][k].net, x));
        assert m[k] == l[..i][k];
      }
      if x == l[i] || Inner(z, l[i].net, x) {
        assert m[i] == l[i];
      }
    }
  }

  lemma {:induction false} BelowAll(z: Zone, n: Network)
    requires Known(z) && IsStored(z, n) && NetworksOk(z, n.net)
    ensures forall x :: Below(z, n.networks[..|n.networks|], x) <==> Inner(z, n.net, x)
  {
    hide Strict;
    assert n.networks[..|n.networks|] == n.networks;
    forall x
      ensures Below(z, n.networks, x) <==> Inner(z, n.net, x)
    {
      if Below(z, n.networks, x) {
        var k :| 0 <= k < |n.networks| && (x == n.networks[k] || Inner(z, n.networks[k].net, x));
        assert n.networks[k] in n.networks;
        if x != n.networks[k] {
          StrictTrans(n.net, n.networks[k].net, x.net);
        }
      }
      if Inner(z, n.net, x) {
        var r := TopBetween(z, x.net, n.net);
        assert z[r] in n.networks;
        var k :| 0 <= k < |n.networks| && n.networks[k] == z[r];
      }
    }
  }

  /** The networks of the zone are those which lie inside no other network. */
  ghost predicate TopNetworks(z: Zone, networks: seq<Network>) {
    && (forall x :: x in networks ==> IsStored(z, x) && !x.isAggregate)
    && (forall p :: p in z && !z[p].isAggregate && !InsideNetwork(z, p) ==> z[p] in networks)
  }

  ghost predicate AllAggregates(z: Zone, aggregates: seq<Network>) {
    && (forall x :: x in aggregates ==> IsStored(z, x) && x.isAggregate)
    && (forall p :: p in z && z[p].isAggregate ==> z[p] in aggregates)
  }

  /** All aggregates, networks and subnets of the zone */
  method CollectObjects(z: Zone, aggregates: seq<Network>, networks: seq<Network>) returns (objects: seq<Network>)
    requires Known(z) && AllNetworksOk(z) && TopNetworks(z, networks) && AllAggregates(z, aggregates)
    ensures forall x :: x in objects <==> IsStored(z, x)
  {
    hide Strict, AllNetworksOk;
    objects := aggregates;
    var i := 0;
    while i < |networks|
      invariant 0 <= i <= |networks|
      invariant forall x :: x in objects <==> x in aggregates || Below(z, networks[..i], x)
    {
      var n := networks[i];
      assert n in networks;
      BelowMore(z, networks, i);
      objects := AddSubnets(z, n, objects + [n]);
      i := i + 1;
    }
    assert networks[..|networks|] == networks;
    AllObjects(z, aggregates, networks);
  }

  lemma {:induction false} AllObjects(z: Zone, aggregates: seq<Network>, networks: seq<Network>)
    requires Known(z) && TopNetworks(z, networks) && AllAggregates(z, aggregates)
    ensures forall x :: x in aggregates || Below(z, networks, x) <==> IsStored(z, x)
  {
    hide Strict;
    forall x
      ensures x in aggregates || Below(z, networks, x) <==> IsStored(z, x)
    {
      if Below(z, networks, x) {
        var k :| 0 <= k < |networks| && (x == networks[k] || Inner(z, networks[k].net, x));
        assert networks[k] in networks;
      }
      if IsStored(z, x) && !x.isAggregate {
        var r := Outermost(z, x.net);
        var k :| 0 <= k < |networks| && networks[k] == z[r];
        assert x == networks[k] || Inner(z, networks[k].net, x);
      }
    }
  }

  /** Each network lies in one that lies inside no other network. */
  lemma {:induction false} Outermost(z: Zone, x: Prefix) returns (r: Prefix)
    requires x in z && !z[x].isAggregate
    ensures r in z && !z[r].isAggregate && !InsideNetwork(z, r) && (r == x || Strict(r, x))
    decreases Larger(z, x)
  {
    hide Strict;
    if InsideNetwork(z, x) {
      var s :| s in z && !z[s].isAggregate && Strict(s, x);
      LargerFewer(z, x, s);
      r := Outermost(z, s);
      if r != s {
        StrictTrans(r, s, x);
      }
    } else {
      r := x;
    }
  }

  ghost function Larger(z: Zone, x: Prefix): set<Prefix> {
    set p | p in z && x.inv < p.inv
  }

  lemma LargerFewer(z: Zone, x: Prefix, s: Prefix)
    requires s in z && Strict(s, x)
    ensures Larger(z, s) < Larger(z, x)
  {
    StrictSize(s, x);
    assert s in Larger(z, x) && s !in Larger(z, s);
  }

  // -------------------------------------------------------------- the new aggregate

  /** The new aggregate becomes the smallest object around `n`. */
  predicate Selected(ups: map<Prefix, Network?>, agg: Prefix, n: Prefix) {
    Strict(agg, n) && n in ups && (ups[n] == null || ups[n].net.inv >= agg.inv)
  }

  ghost function NewUp(z: Zone, ups: map<Prefix, Network?>, agg: Network, l: seq<Network>, p: Prefix): Network?
    requires p in z && p in ups
  {
    if z[p] in l && Selected(ups, agg.net, p) then agg else ups[p]
  }

  /** The objects `l` have been linked to the aggregate, if it is smaller than their `up`. */
  ghost predicate Relinked(z: Zone, ups: map<Prefix, Network?>, agg: Network, l: seq<Network>)
    reads z.Values`up
  {
    forall p :: p in z ==> p in ups && z[p].up == NewUp(z, ups, agg, l, p)
  }

  /** The aggregate has got the networks of these objects. */
  ghost predicate Gathered(z: Zone, ups: map<Prefix, Network?>, agg: Network, l: seq<Network>, y: Network) {
    exists k :: 0 <= k < |l| && IsStored(z, l[k]) && IsStored(z, y) &&
                Selected(ups, agg.net, l[k].net) && Gets(z, l[k].net, y.net)
  }

  lemma {:induction false} GatheredMore(z: Zone, ups: map<Prefix, Network?>, agg: Network, l: seq<Network>, i: nat,
                                        y: Network)
    requires i < |l| && IsStored(z, l[i])
    ensures Gathered(z, ups, agg, l[..i + 1], y) <==>
            Gathered(z, ups, agg, l[..i], y) ||
            (IsStored(z, y) && Selected(ups, agg.net, l[i].net) && Gets(z, l[i].net, y.net))
  {
    hide Selected, Gets;
    assert l[..i + 1] == l[..i] + [l[i]];
  }

  lemma NothingGathered(z: Zone, ups: map<Prefix, Network?>, agg: Network, l: seq<Network>)
    requires l == []
    ensures forall y :: !Gathered(z, ups, agg, l, y)
  {
  }

  /** The test of the loop, also for an object that has already been linked. */
  lemma SelectedAt(z: Zone, ups: map<Prefix, Network?>, agg: Network, l: seq<Network>, obj: Network)
    requires IsStored(z, obj) && Relinked(z, ups, agg, l)
    ensures obj.net in ups && Selected(ups, agg.net, obj.net) <==>
            obj.net.inv < agg.net.inv && agg.net.Covers(obj.net) && (obj.up == null || obj.up.net.inv >= agg.net.inv)
  {
    assert z[obj.net] == obj;
  }

  lemma {:induction false} GetsNetworks(z: Zone, obj: Network)
    requires Known(z) && AllNetworksOk(z) && IsStored(z, obj)
    ensures forall y :: (IsStored(z, y) && Gets(z, obj.net, y.net)) <==>
                        (if obj.isAggregate then y in obj.networks else y == obj)
  {
    assert NetworksOk(z, obj.net);
  }

  lemma {:induction false} RelinkStep(z: Zone, ups: map<Prefix, Network?>, agg: Network, l: seq<Network>, i: nat)
    requires Known(z) && i < |l| && IsStored(z, l[i]) && forall p :: p in z ==> p in ups
    ensures forall p :: p in z && z[p] == l[i] && Selected(ups, agg.net, l[i].net) ==>
              NewUp(z, ups, agg, l[..i + 1], p) == agg
    ensures forall p :: p in z && !(z[p] == l[i] && Selected(ups, agg.net, l[i].net)) ==>
              NewUp(z, ups, agg, l[..i + 1], p) == NewUp(z, ups, agg, l[..i], p)
  {
    hide Selected;
    assert l[..i + 1] == l[..i] + [l[i]];
  }

  lemma {:induction false} GatherStep(z: Zone, ups: map<Prefix, Network?>, agg: Network, l: seq<Network>, i: nat,
                                      was: seq<Network>, added: seq<Network>)
    requires Known(z) && AllNetworksOk(z) && i < |l| && IsStored(z, l[i])
    requires forall y :: y in was <==> Gathered(z, ups, agg, l[..i], y)
    requires added == if l[i].isAggregate then l[i].networks else [l[i]]
    ensures Selected(ups, agg.net, l[i].net) ==>
              forall y :: y in was + added <==> Gathered(z, ups, agg, l[..i + 1], y)
    ensures !Selected(ups, agg.net, l[i].net) ==>
              forall y :: y in was <==> Gathered(z, ups, agg, l[..i + 1], y)
  {
    GetsNetworks(z, l[i]);
    hide Selected, Gets, AllNetworksOk, Gathered;
    forall y
      ensures Gathered(z, ups, agg, l[..i + 1], y) <==>
              Gathered(z, ups, agg, l[..i], y) ||
              (IsStored(z, y) && Selected(ups, agg.net, l[i].net) && Gets(z, l[i].net, y.net))
    {
      GatheredMore(z, ups, agg, l, i, y);
    }
  }

  /** Links the object to the aggregate and hands over its networks, if the aggregate is
      smaller than its `up`. */
  method AddObject(z: Zone, objects: seq<Network>, i: nat, agg: Network, ghost ups: map<Prefix, Network?>)
    requires Known(z) && AllNetworksOk(z) && agg.net !in z && i < |objects| && IsStored(z, objects[i])
    requires Relinked(z, ups, agg, objects[..i])
    requires forall y :: y in agg.networks <==> Gathered(z, ups, agg, objects[..i], y)
    modifies {objects[i]}`up, agg`networks
    ensures Relinked(z, ups, agg, objects[..i + 1])
    ensures forall y :: y in agg.networks <==> Gathered(z, ups, agg, objects[..i + 1], y)
  {
    hide Gets, Belongs, Gathered, AllNetworksOk, Selected, NewUp, Trunc, Pow2;
    var obj := objects[i];
    SelectedAt(z, ups, agg, objects[..i], obj);
    var added := if obj.isAggregate then obj.networks else [obj];
    GatherStep(z, ups, agg, objects, i, agg.networks, added);
    RelinkStep(z, ups, agg, objects, i);
    if obj.net.inv < agg.net.inv && agg.net.Covers(obj.net) && (obj.up == null || obj.up.net.inv >= agg.net.inv) {
      obj.up := agg;
      agg.networks := agg.networks + added;
    }
  }

  /** Finds the subnets of the new aggregate. */
  method FindSubnets(z: Zone, objects: seq<Network>, agg: Network, ghost ups: map<Prefix, Network?>)
    requires Known(z) && AllNetworksOk(z) && agg.net !in z && agg.networks == []
    requires forall x :: x in objects <==> IsStored(z, x)
    requires ups == map p | p in z :: z[p].up
    modifies z.Values`up, agg`networks
    ensures Relinked(z, ups, agg, objects)
    ensures forall y :: y in agg.networks <==> Gathered(z, ups, agg, objects, y)
  {
    hide Gets, Belongs, Gathered, AllNetworksOk;
    NothingGathered(z, ups, agg, objects[..0]);
    var i := 0;
    while i < |objects|
      invariant 0 <= i <= |objects|
      invariant Relinked(z, ups, agg, objects[..i])
      invariant forall y :: y in agg.networks <==> Gathered(z, ups, agg, objects[..i], y)
    {
      hide Selected, Known, NewUp, Relinked;
      assert objects[i] in objects;
      AddObject(z, objects, i, agg, ups);
      i := i + 1;
    }
    assert objects[..|objects|] == objects;
  }

  function BySize(x: Network): (int, int) {
    (x.net.inv, 0)
  }

  /** Finds the supernet of the new aggregate: the smallest larger object around it. */
  method FindSupernet(z: Zone, objects: seq<Network>, agg: Network)
    requires Known(z) && agg.up == null && forall x :: x in objects <==> IsStored(z, x)
    modifies agg`up
    ensures if agg.up == null then forall q :: q in z ==> !Strict(q, agg.net)
            else IsStored(z, agg.up) && Smallest(z, agg.net, agg.up.net)
  {
    hide Sorting.Sorted;
    var larger := [];
    var i := 0;
    while i < |objects|
      invariant 0 <= i <= |objects|
      invariant forall x :: x in larger <==> x in objects[..i] && x.net.inv > agg.net.inv
    {
      assert objects[..i + 1] == objects[..i] + [objects[i]];
      if objects[i].net.inv > agg.net.inv {
        larger := larger + [objects[i]];
      }
      i := i + 1;
    }
    assert objects[..|objects|] == objects;
    var sorted := Sorting.Sort(larger, BySize);
    Sorting.SameElements(sorted, larger);
    i := 0;
    while i < |sorted|
      invariant 0 <= i <= |sorted|
      invariant forall k :: 0 <= k < i ==> !sorted[k].net.Covers(agg.net)
    {
      assert sorted[i] in sorted;
      if sorted[i].net.Covers(agg.net) {
        FirstSmallest(z, objects, sorted, agg, i);
        agg.up := sorted[i];
        return;
      }
      i := i + 1;
    }
    forall q | q in z
      ensures !Strict(q, agg.net)
    {
      assert z[q] in objects;
      if z[q] in sorted {
        var k :| 0 <= k < |sorted| && sorted[k] == z[q];
      }
    }
  }

  lemma {:induction false} FirstSmallest(z: Zone, objects: seq<Network>, sorted: seq<Network>, agg: Network, i: nat)
    requires Known(z) && (forall x :: x in objects <==> IsStored(z, x))
    requires forall x :: x in sorted <==> x in objects && x.net.inv > agg.net.inv
    requires Sorting.Sorted(sorted, BySize) && i < |sorted| && sorted[i].net.Covers(agg.net)
    requires forall k :: 0 <= k < i ==> !sorted[k].net.Covers(agg.net)
    ensures IsStored(z, sorted[i]) && Smallest(z, agg.net, sorted[i].net)
  {
    assert sorted[i] in sorted;
    forall r | r in z && Strict(r, agg.net)
      ensures sorted[i].net.inv <= r.inv
    {
      assert z[r] in objects && z[r] in sorted;
      var k :| 0 <= k < |sorted| && sorted[k] == z[r];
      assert k >= i;
      assert k > i ==> Sorting.Before(BySize(sorted[i]), BySize(sorted[k]));
    }
  }

  /** Adds an aggregate to a zone.  All objects are still linked to the smallest object around
      them, and have the networks that belong to them. */
  method LinkImplicitAggregateToZone(z: Zone, aggregates: seq<Network>, networks: seq<Network>, agg: Network)
    returns (z': Zone)
    requires Known(z) && UpsOk(z) && AllNetworksOk(z) && TopNetworks(z, networks) && AllAggregates(z, aggregates)
    requires agg.net !in z && agg.net.Valid() && agg.isAggregate && agg.up == null && agg.networks == []
    modifies z.Values`up, agg
    ensures z' == z[agg.net := agg]
    ensures Known(z') && UpsOk(z') && AllNetworksOk(z')
    ensures TopNetworks(z', networks) && AllAggregates(z', aggregates + [agg])
  {
    hide Strict, UpsOk, AllNetworksOk, Belongs, Gathered, Relinked, Smallest, WereOk, TopNetworks, AllAggregates;
    ghost var ups := map p | p in z :: z[p].up;
    var objects := CollectObjects(z, aggregates, networks);
    assert ups == map p | p in z :: z[p].up;
    OldUps(z, ups);
    FindSubnets(z, objects, agg, ups);
    z' := z[agg.net := agg];
    NewNetworksOk(z, ups, objects, agg);
    FindSupernet(z, objects, agg);
    NewUpsOk(z, ups, objects, agg);
    NewTop(z, aggregates, networks, agg);
  }

  /** The link of `p` before the aggregate was added. */
  ghost predicate WasOk(z: Zone, ups: map<Prefix, Network?>, p: Prefix)
    requires p in ups
  {
    if ups[p] == null then forall q :: q in z ==> !Strict(q, p)
    else IsStored(z, ups[p]) && Smallest(z, p, ups[p].net)
  }

  ghost predicate WereOk(z: Zone, ups: map<Prefix, Network?>) {
    forall p :: p in z ==> p in ups && WasOk(z, ups, p)
  }

  lemma {:induction false} OldUps(z: Zone, ups: map<Prefix, Network?>)
    requires UpsOk(z) && ups == map p | p in z :: z[p].up
    ensures WereOk(z, ups)
  {
    hide Smallest, Strict;
    forall p | p in z
      ensures WasOk(z, ups, p)
    {
      assert UpOk(z, p);
    }
  }

  /** The aggregate is selected for exactly those objects of which it is the smallest supernet;
      the others keep theirs. */
  lemma {:induction false} SelectedSmallest(z: Zone, ups: map<Prefix, Network?>, agg: Network, p: Prefix)
    requires Known(z) && WereOk(z, ups) && agg.net !in z && agg.net.Valid() && p in z
    ensures var z' := z[agg.net := agg];
            && (Selected(ups, agg.net, p) <==> Smallest(z', p, agg.net))
            && (!Selected(ups, agg.net, p) ==> WasOk(z', ups, p))
  {
    var z' := z[agg.net := agg];
    assert WasOk(z, ups, p);
    if ups[p] != null && Strict(agg.net, p) {
      Chain(ups[p].net, agg.net, p);
    }
  }

  lemma {:induction false} NewUpsOk(z: Zone, ups: map<Prefix, Network?>, objects: seq<Network>, agg: Network)
    requires Known(z) && WereOk(z, ups) && agg.net !in z && agg.net.Valid()
    requires (forall x :: x in objects <==> IsStored(z, x)) && Relinked(z, ups, agg, objects)
    requires if agg.up == null then forall q :: q in z ==> !Strict(q, agg.net)
             else IsStored(z, agg.up) && Smallest(z, agg.net, agg.up.net)
    ensures UpsOk(z[agg.net := agg])
  {
    hide Smallest, Strict, Selected;
    var z' := z[agg.net := agg];
    forall p | p in z'
      ensures UpOk(z', p)
    {
      if p == agg.net {
        SmallestOfNew(z, agg);
      } else {
        SelectedSmallest(z, ups, agg, p);
        assert z[p] in objects;
      }
    }
  }

  lemma {:induction false} SmallestOfNew(z: Zone, agg: Network)
    ensures !Strict(agg.net, agg.net)
    ensures forall q :: Smallest(z, agg.net, q) ==> Smallest(z[agg.net := agg], agg.net, q)
  {
    hide Prefix.Covers;
  }

  /** An aggregate separates no networks. */
  lemma {:induction false} BelongsSame(z: Zone, agg: Network, x: Prefix, big: Prefix)
    requires agg.net !in z && agg.isAggregate
    ensures Belongs(z[agg.net := agg], x, big) <==> Belongs(z, x, big)
  {
    hide Strict;
    var z' := z[agg.net := agg];
    assert Separated(z', x, big) <==> Separated(z, x, big);
  }

  lemma {:induction false} NewNetworksOk(z: Zone, ups: map<Prefix, Network?>, objects: seq<Network>, agg: Network)
    requires Known(z) && WereOk(z, ups) && agg.net !in z && agg.net.Valid() && agg.isAggregate
    requires AllNetworksOk(z) && forall x :: x in objects <==> IsStored(z, x)
    requires forall y :: y in agg.networks <==> Gathered(z, ups, agg, objects, y)
    ensures AllNetworksOk(z[agg.net := agg])
  {
    hide Smallest, Strict, Selected, Belongs, Gathered, AllNetworksOk;
    var z' := z[agg.net := agg];
    forall x, big
      ensures Belongs(z', x, big) <==> Belongs(z, x, big)
    {
      BelongsSame(z, agg, x, big);
    }
    forall p | p in z
      ensures NetworksOk(z', p)
    {
      NetworksAt(z, p);
      BelongsIn(z, p);
    }
    BelongsIn(z, agg.net);
    forall y
      ensures Gathered(z, ups, agg, objects, y) <==> IsStored(z, y) && Belongs(z', y.net, agg.net)
    {
      GatheredBelongs(z, ups, objects, agg, y);
    }
    assert NetworksOk(z', agg.net);
    EachOk(z');
  }

  lemma EachOk(z: Zone)
    requires forall n :: n in z ==> NetworksOk(z, n)
    ensures AllNetworksOk(z)
  {
  }

  lemma {:induction false} GatheredBelongs(z: Zone, ups: map<Prefix, Network?>, objects: seq<Network>, agg: Network,
                                           y: Network)
    requires Known(z) && WereOk(z, ups) && agg.net !in z && agg.net.Valid() && agg.isAggregate
    requires forall x :: x in objects <==> IsStored(z, x)
    ensures Gathered(z, ups, agg, objects, y) <==> IsStored(z, y) && Belongs(z[agg.net := agg], y.net, agg.net)
  {
    hide Smallest, Strict, Selected, Belongs;
    var z' := z[agg.net := agg];
    if Gathered(z, ups, agg, objects, y) {
      var k :| 0 <= k < |objects| && IsStored(z, objects[k]) && IsStored(z, y) &&
               Selected(ups, agg.net, objects[k].net) && Gets(z, objects[k].net, y.net);
      var s := objects[k].net;
      SelectedSmallest(z, ups, agg, s);
      BelongsSame(z, agg, y.net, s);
      assert Gets(z', s, y.net);
      GetsBelongs(z', s, agg.net, y.net);
    }
    if IsStored(z, y) && Belongs(z', y.net, agg.net) {
      var s := BelongsGets(z', agg.net, y.net);
      SmallestOfNew(z, agg);
      SmallestStrict(z', s, agg.net);
      SelectedSmallest(z, ups, agg, s);
      BelongsSame(z, agg, y.net, s);
      assert Gets(z, s, y.net);
      assert z[s] in objects;
      var k :| 0 <= k < |objects| && objects[k] == z[s];
    }
  }

  lemma SmallestStrict(z: Zone, s: Prefix, q: Prefix)
    requires Smallest(z, s, q)
    ensures Strict(q, s)
  {
  }

  lemma {:induction false} NewTop(z: Zone, aggregates: seq<Network>, networks: seq<Network>, agg: Network)
    requires TopNetworks(z, networks) && AllAggregates(z, aggregates) && agg.net !in z && agg.isAggregate
    ensures TopNetworks(z[agg.net := agg], networks) && AllAggregates(z[agg.net := agg], aggregates + [agg])
  {
    hide Strict;
    var z' := z[agg.net := agg];
    forall p | p in z
      ensures InsideNetwork(z', p) <==> InsideNetwork(z, p)
    {
    }
    hide InsideNetwork;
  }
}
