/** Compression of static routes (`printRoutes` in go/pkg/pass1/print-code.go).

    A routing table maps a network to the interface and next hop behind which
    it is reachable.  Packets are forwarded by longest prefix match, see section
    5.2.4.3 of RFC 1812.
  */
module Routes {
  import opened Wrappers
  import opened Prefixes

  /** `hopInfo` */
  datatype Hop = Hop(intf: nat, hop: nat)

  type Table = map<Prefix, Hop>

  ghost predicate ValidTable(t: Table, bits: nat) {
    forall n :: n in t ==> n.Valid() && n.inv <= bits && n.base < Pow2(bits)
  }

  /** The network with `k` host bits to which an address belongs. */
  function NetAt(a: nat, k: nat): (n: Prefix)
    ensures n.Valid()
  {
    TruncAligned(a, k);
    Prefix(Trunc(a, k), k)
  }

  /** Longest match among networks with at least `k` host bits. */
  ghost function Lpm(t: Table, a: nat, k: nat, bits: nat): Option<Hop>
    decreases bits + 1 - k
  {
    if k > bits then None
    else if NetAt(a, k) in t then Some(t[NetAt(a, k)])
    else Lpm(t, a, k + 1, bits)
  }

  /** Where the router forwards packets for an address. */
  ghost function Forward(t: Table, a: nat, bits: nat): Option<Hop> {
    Lpm(t, a, 0, bits)
  }

  /** All addresses of a network agree about larger networks. */
  lemma {:induction false} LpmSame(t: Table, a: nat, b: nat, k: nat, bits: nat)
    requires Trunc(a, k) == Trunc(b, k)
    ensures Lpm(t, a, k, bits) == Lpm(t, b, k, bits)
    decreases bits + 1 - k
  {
    hide Trunc;
    if k <= bits {
      TruncTrunc(a, k, k + 1);
      TruncTrunc(b, k, k + 1);
      LpmSame(t, a, b, k + 1, bits);
    }
  }

  /** A match at width `j` is found if there is none at a smaller width. */
  lemma {:induction false} LpmFound(t: Table, a: nat, k: nat, j: nat, bits: nat)
    requires k <= j <= bits && NetAt(a, j) in t
    requires forall i :: k <= i < j ==> NetAt(a, i) !in t
    ensures Lpm(t, a, k, bits) == Some(t[NetAt(a, j)])
    decreases j - k
  {
    hide NetAt;
    if k < j {
      LpmFound(t, a, k + 1, j, bits);
    }
  }

  lemma {:induction false} LpmNone(t: Table, a: nat, k: nat, bits: nat)
    requires forall i :: k <= i <= bits ==> NetAt(a, i) !in t
    ensures Lpm(t, a, k, bits) == None
    decreases bits + 1 - k
  {
    hide NetAt;
    if k <= bits {
      LpmNone(t, a, k + 1, bits);
    }
  }

  // ------------------------------------------------------- combine adjacent networks

  /** Left and right part are replaced by the combined network. */
  function Combine(t: Table, left: Prefix): Table
    requires left in t
  {
    (t - {left, left.Next()})[left.Up() := t[left]]
  }

  predicate Combinable(t: Table, left: Prefix) {
    && left in t && left.IsLeft() && left.Next() in t
    && t[left] == t[left.Next()] && left.Up() !in t
  }

  lemma CombineValid(t: Table, left: Prefix, bits: nat)
    requires ValidTable(t, bits) && left in t && left.IsLeft() && left.inv < bits
    ensures ValidTable(Combine(t, left), bits)
  {
    BuddyValid(left);
  }

  /** The part of the combined network to which an address belongs. */
  lemma PartOf(left: Prefix, a: nat)
    requires left.Valid() && left.IsLeft()
    ensures NetAt(a, left.inv) == left || NetAt(a, left.inv) == left.Next() <==> NetAt(a, left.inv + 1) == left.Up()
  {
    hide Trunc, Pow2;
    BuddyValid(left);
    HasTrunc(left, a);
    HasTrunc(left.Next(), a);
    HasTrunc(left.Up(), a);
    BuddiesUnite(left, left.Next(), a);
  }

  lemma {:induction false} CombineKeepsFrom(t: Table, left: Prefix, a: nat, k: nat, bits: nat)
    requires Combinable(t, left) && left.Valid() && left.inv < bits
    requires k <= left.inv || k > left.inv + 1
    ensures Lpm(Combine(t, left), a, k, bits) == Lpm(t, a, k, bits)
    decreases bits + 1 - k
  {
    hide Trunc, Pow2;
    var c := Combine(t, left);
    PartOf(left, a);
    var n := NetAt(a, k);
    if k <= bits {
      if k == left.inv {
        if n == left || n == left.Next() {
          assert n !in c;
          assert Lpm(c, a, k, bits) == Lpm(c, a, k + 1, bits);
        } else {
          assert n in c <==> n in t;
          assert NetAt(a, k + 1) in c <==> NetAt(a, k + 1) in t;
          CombineKeepsFrom(t, left, a, k + 2, bits);
        }
      } else {
        assert n in c <==> n in t;
        CombineKeepsFrom(t, left, a, k + 1, bits);
      }
    }
  }

  /** Combining two adjacent networks does not change forwarding of any address. */
  lemma CombineKeeps(t: Table, left: Prefix, bits: nat)
    requires Combinable(t, left) && left.Valid() && left.inv < bits
    ensures forall a: nat :: Forward(Combine(t, left), a, bits) == Forward(t, a, bits)
  {
    forall a: nat
      ensures Forward(Combine(t, left), a, bits) == Forward(t, a, bits)
    {
      CombineKeepsFrom(t, left, a, 0, bits);
    }
  }

  // ----------------------------------------------------------- remove small networks

  /** Hop of the smallest network that is larger than `n` and contains it. */
  ghost function Larger(t: Table, n: Prefix, bits: nat): Option<Hop> {
    Lpm(t, n.base, n.inv + 1, bits)
  }

  /** Networks whose next larger network uses the same hop are left out. */
  ghost function Kept(t: Table, bits: nat): Table {
    map n | n in t && Larger(t, n, bits) != Some(t[n]) :: t[n]
  }

  lemma {:induction false} KeptKeepsFrom(t: Table, a: nat, k: nat, bits: nat)
    ensures Lpm(Kept(t, bits), a, k, bits) == Lpm(t, a, k, bits)
    decreases bits + 1 - k
  {
    hide Trunc;
    if k <= bits {
      KeptKeepsFrom(t, a, k + 1, bits);
      var n := NetAt(a, k);
      if n in t {
        TruncTrunc(a, k, k + 1);
        LpmSame(t, a, n.base, k + 1, bits);
      }
    }
  }

  /** Leaving out small networks does not change forwarding of any address. */
  lemma KeptKeeps(t: Table, bits: nat)
    ensures forall a: nat :: Forward(Kept(t, bits), a, bits) == Forward(t, a, bits)
  {
    forall a: nat
      ensures Forward(Kept(t, bits), a, bits) == Forward(t, a, bits)
    {
      KeptKeepsFrom(t, a, 0, bits);
    }
  }

  // ------------------------------------------------------------------- default route

  /** The default route replaces all routes to `hop` without a larger network. */
  ghost function WithDefault(t: Table, hop: Hop, bits: nat): Table {
    (map n | n in Kept(t, bits) && (t[n] != hop || Larger(t, n, bits).Some?) :: t[n])[Prefix(0, bits) := hop]
  }

  lemma NetAtBits(a: nat, bits: nat)
    requires a < Pow2(bits)
    ensures NetAt(a, bits) == Prefix(0, bits)
  {
    TruncUnique(a, 0, bits);
  }

  lemma {:induction false} DefaultFrom(t: Table, hop: Hop, a: nat, k: nat, bits: nat)
    requires a < Pow2(bits) && Prefix(0, bits) !in t && k <= bits
    ensures Lpm(WithDefault(t, hop, bits), a, k, bits) ==
            if Lpm(t, a, k, bits).Some? then Lpm(t, a, k, bits) else Some(hop)
    decreases bits + 1 - k
  {
    hide Trunc, Pow2;
    NetAtBits(a, bits);
    var d, n := WithDefault(t, hop, bits), NetAt(a, k);
    if k == bits {
      assert n in d;
    } else {
      DefaultFrom(t, hop, a, k + 1, bits);
      if n in t {
        TruncTrunc(a, k, k + 1);
        LpmSame(t, a, n.base, k + 1, bits);
      }
    }
  }

  /** The default route leaves the forwarding of all covered addresses unchanged
      and takes all others. */
  lemma DefaultKeeps(t: Table, hop: Hop, bits: nat)
    requires Prefix(0, bits) !in t
    ensures forall a: nat :: a < Pow2(bits) ==>
              Forward(WithDefault(t, hop, bits), a, bits) ==
              if Forward(t, a, bits).Some? then Forward(t, a, bits) else Some(hop)
  {
    forall a: nat | a < Pow2(bits)
      ensures Forward(WithDefault(t, hop, bits), a, bits) ==
              if Forward(t, a, bits).Some? then Forward(t, a, bits) else Some(hop)
    {
      DefaultFrom(t, hop, a, 0, bits);
    }
  }

  // ---------------------------------------------------------------------- printRoutes

  /** `netInfo` */
  datatype NetInfo = NetInfo(net: Prefix, noOpt: bool)

  /** `intf2hop2netInfos` */
  type NetInfos = map<Hop, seq<NetInfo>>

  function InfosOf(infos: NetInfos, hop: Hop): seq<NetInfo> {
    if hop in infos then infos[hop] else []
  }

  /** The printed routes are exactly those of table `t`. */
  ghost predicate Prints(infos: NetInfos, t: Table) {
    forall n, h :: (exists o :: NetInfo(n, o) in InfosOf(infos, h)) <==> n in t && t[n] == h
  }

  /** No two halves with the same hop remain, unless the network which they make up has
      been collected itself. */
  ghost predicate NoPairs(routes: Table, collected: Table, bits: nat) {
    forall left: Prefix ::
      left in routes && left.IsLeft() && left.inv < bits && left.Next() in routes &&
      routes[left] == routes[left.Next()] ==>
        left.Up() in collected
  }

  /** The same for networks with fewer than `inv` host bits; larger ones than those with
      `inv` host bits are still as collected. */
  ghost predicate CombinedBelow(routes: Table, collected: Table, inv: nat) {
    && (forall left: Prefix ::
          left.inv < inv && SameHalves(routes, left) ==> left.Up() in collected)
    && (forall n: Prefix :: n.inv > inv ==> (n in routes <==> n in collected))
  }

  lemma CombinedNext(before: Table, after: Table, collected: Table, inv: nat)
    requires CombinedBelow(before, collected, inv)
    requires forall n: Prefix :: n.inv < inv ==> (n in after <==> n in before) && (n in after ==> after[n] == before[n])
    requires forall n: Prefix :: n.inv > inv + 1 ==> (n in after <==> n in before)
    requires forall left: Prefix ::
               left.inv == inv && SameHalves(after, left) ==> left.Up() in before
    ensures CombinedBelow(after, collected, inv + 1)
  {
    forall left: Prefix | left.inv <= inv && SameHalves(after, left)
      ensures left.Up() in collected
    {
      assert left.Next().inv == left.inv && left.Up().inv == left.inv + 1;
    }
  }

  /** Go from small to large networks, so newly added networks are combined as well. */
  method CombineRoutes(collected: Table, bits: nat) returns (routes: Table)
    requires ValidTable(collected, bits)
    ensures ValidTable(routes, bits)
    ensures forall a: nat :: Forward(routes, a, bits) == Forward(collected, a, bits)
    ensures NoPairs(routes, collected, bits) && |routes| <= |collected|
  {
    hide Trunc, Pow2, Lpm, CombinedBelow;
    NothingCombined(collected);
    routes := collected;
    var aref := collected;
    var inv := 0;
    while inv < bits
      invariant 0 <= inv <= bits
      invariant ValidTable(routes, bits)
      invariant forall n: Prefix :: n.inv >= inv ==>
                  (n in aref <==> n in routes) && (n in aref ==> aref[n] == routes[n])
      invariant forall a: nat :: Forward(routes, a, bits) == Forward(collected, a, bits)
      invariant CombinedBelow(routes, collected, inv) && |routes| <= |collected|
    {
      ghost var before := routes;
      routes, aref := CombineLevel(routes, aref, inv, bits);
      CombinedNext(before, routes, collected, inv);
      inv := inv + 1;
    }
    AllCombined(routes, collected, bits);
  }

  lemma NothingCombined(collected: Table)
    ensures CombinedBelow(collected, collected, 0)
  {}

  lemma AllCombined(routes: Table, collected: Table, bits: nat)
    requires CombinedBelow(routes, collected, bits)
    ensures NoPairs(routes, collected, bits)
  {}

  /** The networks of width `inv` in `rest` are still to be looked at. */
  ghost predicate LevelState(routes: Table, aref: Table, rest: set<Prefix>, inv: nat, bits: nat) {
    && ValidTable(routes, bits)
    && (forall n: Prefix :: n.inv > inv ==> (n in aref <==> n in routes) && (n in aref ==> aref[n] == routes[n]))
    && (forall n: Prefix :: n.inv == inv && n in routes ==> n in aref && routes[n] == aref[n])
    && (forall l :: l in rest ==> l.inv == inv && l in aref && l.Valid())
    && (forall l :: l in rest && l.IsLeft() ==> l in routes && (l.Next() in aref ==> l.Next() in routes))
  }

  lemma LevelStep(routes: Table, aref: Table, rest: set<Prefix>, left: Prefix, inv: nat, bits: nat)
    requires inv < bits && LevelState(routes, aref, rest, inv, bits) && left in rest
    requires left.IsLeft() && left.Next() in aref && aref[left] == aref[left.Next()] && left.Up() !in aref
    ensures Combinable(routes, left) && left.Valid()
    ensures LevelState(Combine(routes, left), aref[left.Up() := aref[left]], rest - {left}, inv, bits)
  {
    hide Trunc, Pow2;
    CombineValid(routes, left, bits);
    BuddyValid(left);
    forall l | l in rest - {left} && l.IsLeft()
      ensures l != left.Next() && l.Next() != left && l.Next() != left.Next()
    {
      BuddyValid(l);
    }
  }

  /** Combines adjacent networks with `inv` host bits. */
  method CombineLevel(routes0: Table, aref0: Table, inv: nat, bits: nat) returns (routes: Table, aref: Table)
    requires inv < bits && ValidTable(routes0, bits)
    requires forall n: Prefix :: n.inv >= inv ==>
               (n in aref0 <==> n in routes0) && (n in aref0 ==> aref0[n] == routes0[n])
    ensures ValidTable(routes, bits)
    ensures forall n: Prefix :: n.inv > inv ==> (n in aref <==> n in routes) && (n in aref ==> aref[n] == routes[n])
    ensures forall a: nat :: Forward(routes, a, bits) == Forward(routes0, a, bits)
    ensures forall n: Prefix :: n.inv < inv ==>
              (n in routes <==> n in routes0) && (n in routes ==> routes[n] == routes0[n])
    ensures forall n: Prefix :: n.inv > inv + 1 ==> (n in routes <==> n in routes0)
    ensures forall left: Prefix ::
              left.inv == inv && SameHalves(routes, left) ==> left.Up() in routes0
    ensures |routes| <= |routes0|
  {
    hide Forward, Trunc, Combine, LevelPairs;
    routes, aref := routes0, aref0;
    var rest := set n | n in aref && n.inv == inv;
    LevelStart(routes, aref, rest, inv, bits);
    PairsStart(routes, aref, rest, inv);
    while rest != {}
      invariant LevelState(routes, aref, rest, inv, bits)
      invariant forall a: nat :: Forward(routes, a, bits) == Forward(routes0, a, bits)
      invariant LevelPairs(routes, aref, routes0, rest, inv) && |routes| <= |routes0|
      decreases rest
    {
      hide LevelState;
      var left :| left in rest;
      var right := left.Next();
      LevelMember(routes, aref, rest, left, inv, bits);
      if left.IsLeft() && right in aref && aref[left] == aref[right] && left.Up() !in aref {
        LevelStep(routes, aref, rest, left, inv, bits);
        CombineKeeps(routes, left, bits);
        PairsStep(routes, aref, routes0, rest, left, inv, bits);
        routes, aref := Combine(routes, left), aref[left.Up() := aref[left]];
      } else {
        PairsSkip(routes, aref, routes0, rest, left, inv, bits);
      }
      rest := rest - {left};
    }
    PairsEnd(routes, aref, routes0, inv);
  }

  /** Only networks with `inv` host bits are removed, and only larger ones are added. */
  ghost predicate OthersStay(routes: Table, routes0: Table, inv: nat) {
    forall n: Prefix :: n.inv < inv || n.inv > inv + 1 ==>
      (n in routes <==> n in routes0) && (n.inv < inv && n in routes ==> routes[n] == routes0[n])
  }

  /** What halves in `rest` make up has not been added. */
  ghost predicate OpenHalves(aref: Table, routes0: Table, rest: set<Prefix>, inv: nat) {
    forall l :: l in rest && l.inv == inv && l.IsLeft() && l.Up() in aref ==> l.Up() in routes0
  }

  /** Other halves have been combined, if possible. */
  ghost predicate DoneHalves(routes: Table, routes0: Table, rest: set<Prefix>, inv: nat) {
    forall l: Prefix :: l !in rest && l.inv == inv && SameHalves(routes, l) ==> l.Up() in routes0
  }

  ghost predicate LevelPairs(routes: Table, aref: Table, routes0: Table, rest: set<Prefix>, inv: nat) {
    OthersStay(routes, routes0, inv) && OpenHalves(aref, routes0, rest, inv) && DoneHalves(routes, routes0, rest, inv)
  }

  predicate SameHalves(routes: Table, left: Prefix) {
    left in routes && left.IsLeft() && left.Next() in routes && routes[left] == routes[left.Next()]
  }

  lemma PairsStart(routes: Table, aref: Table, rest: set<Prefix>, inv: nat)
    requires rest == set n | n in aref && n.inv == inv
    requires forall n: Prefix :: n.inv >= inv ==> (n in aref <==> n in routes) && (n in aref ==> aref[n] == routes[n])
    ensures LevelPairs(routes, aref, routes, rest, inv)
  {
    forall left: Prefix | left.inv == inv && left in routes
      ensures left.Up().inv >= inv
    {}
  }

  lemma PairsSkip(routes: Table, aref: Table, routes0: Table, rest: set<Prefix>, left: Prefix, inv: nat, bits: nat)
    requires LevelPairs(routes, aref, routes0, rest, inv) && LevelState(routes, aref, rest, inv, bits) && left in rest
    requires !(left.IsLeft() && left.Next() in aref && left in aref && aref[left] == aref[left.Next()] &&
               left.Up() !in aref)
    ensures LevelPairs(routes, aref, routes0, rest - {left}, inv)
  {
    assert left.Next().inv == left.inv == inv;
  }

  lemma PairsStep(routes: Table, aref: Table, routes0: Table, rest: set<Prefix>, left: Prefix, inv: nat, bits: nat)
    requires LevelPairs(routes, aref, routes0, rest, inv)
    requires Combinable(routes, left) && left.Valid() && left in rest && left.inv == inv
    ensures LevelPairs(Combine(routes, left), aref[left.Up() := routes[left]], routes0, rest - {left}, inv)
    ensures |Combine(routes, left)| <= |routes|
  {
    CombineSize(routes, left);
    CombineAt(routes, left);
    NextSize(left);
    hide Combine, Prefix.Up, Prefix.IsLeft, Prefix.Next, Prefix.Valid, SameHalves;
    assert OpenHalves(aref[left.Up() := routes[left]], routes0, rest - {left}, inv) by {
      OpenStep(aref, routes0, rest, left, inv, routes[left]);
    }
    assert DoneHalves(Combine(routes, left), routes0, rest - {left}, inv) by {
      DoneStep(routes, routes0, rest, left, inv);
    }
    hide OpenHalves, DoneHalves;
  }

  lemma OpenStep(aref: Table, routes0: Table, rest: set<Prefix>, left: Prefix, inv: nat, h: Hop)
    requires OpenHalves(aref, routes0, rest, inv) && left.inv == inv && left.IsLeft()
    ensures OpenHalves(aref[left.Up() := h], routes0, rest - {left}, inv)
  {
    forall l | l in rest - {left} && l.inv == inv && l.IsLeft()
      ensures l.Up() != left.Up()
    {
      if l.Up() == left.Up() {
        SameUp(l, left);
      }
    }
  }

  lemma DoneStep(routes: Table, routes0: Table, rest: set<Prefix>, left: Prefix, inv: nat)
    requires DoneHalves(routes, routes0, rest, inv) && Combinable(routes, left) && left.inv == inv
    ensures DoneHalves(Combine(routes, left), routes0, rest - {left}, inv)
  {
    CombineAt(routes, left);
    NextSize(left);
    hide Combine, Prefix.Up, Prefix.IsLeft, Prefix.Next, Prefix.Valid;
    forall l: Prefix | l !in rest - {left} && l.inv == inv && SameHalves(Combine(routes, left), l)
      ensures l.Up() in routes0
    {
      NextSize(l);
      assert l != left.Up() && l.Next() != left.Up() && SameHalves(routes, l);
    }
  }

  lemma SameUp(l: Prefix, m: Prefix)
    requires l.inv == m.inv && l.Up() == m.Up() && l.IsLeft() && m.IsLeft()
    ensures l == m
  {
    hide Pow2;
    AlignedDown(l.base, l.inv, l.inv + 1);
    AlignedDown(m.base, m.inv, m.inv + 1);
    hide Trunc;
    BuddyValid(l);
    BuddyValid(m);
  }

  lemma NextSize(l: Prefix)
    ensures l.Next().inv == l.inv && l.Up().inv == l.inv + 1
  {}

  lemma CombineAt(t: Table, left: Prefix)
    requires left in t
    ensures forall n :: n in Combine(t, left) <==> n == left.Up() || (n in t && n != left && n != left.Next())
    ensures forall n :: n in Combine(t, left) && n != left.Up() ==> Combine(t, left)[n] == t[n]
  {}

  lemma CombineSize(t: Table, left: Prefix)
    requires Combinable(t, left) && left.Valid()
    ensures |Combine(t, left)| == |t| - 1
  {
    hide Trunc;
    assert left.Next() != left && left.Up() != left && left.Up() != left.Next();
    var rest := t - {left, left.Next()};
    assert t.Keys == rest.Keys + {left} + {left.Next()};
    assert Combine(t, left).Keys == rest.Keys + {left.Up()};
    assert |t| == |t.Keys| && |rest| == |rest.Keys|;
  }

  lemma PairsEnd(routes: Table, aref: Table, routes0: Table, inv: nat)
    requires LevelPairs(routes, aref, routes0, {}, inv)
    ensures forall n: Prefix :: n.inv < inv ==>
              (n in routes <==> n in routes0) && (n in routes ==> routes[n] == routes0[n])
    ensures forall n: Prefix :: n.inv > inv + 1 ==> (n in routes <==> n in routes0)
    ensures forall left: Prefix ::
              left.inv == inv && SameHalves(routes, left) ==> left.Up() in routes0
  {}

  lemma LevelMember(routes: Table, aref: Table, rest: set<Prefix>, left: Prefix, inv: nat, bits: nat)
    requires LevelState(routes, aref, rest, inv, bits) && left in rest
    ensures left.inv == inv && left in aref
    ensures left.IsLeft() ==> left in routes
    ensures LevelState(routes, aref, rest - {left}, inv, bits)
  {}

  lemma LevelStart(routes: Table, aref: Table, rest: set<Prefix>, inv: nat, bits: nat)
    requires ValidTable(routes, bits) && rest == set n | n in aref && n.inv == inv
    requires forall n: Prefix :: n.inv >= inv ==> (n in aref <==> n in routes) && (n in aref ==> aref[n] == routes[n])
    ensures LevelState(routes, aref, rest, inv, bits)
  {
    forall l | l in rest
      ensures l in routes && (l.Next() in aref ==> l.Next() in routes)
    {
      assert l.Next().inv == inv;
    }
  }

  lemma {:induction false} LpmSkip(t: Table, a: nat, k: nat, j: nat, bits: nat)
    requires k <= j <= bits + 1 && forall i :: k <= i < j ==> NetAt(a, i) !in t
    ensures Lpm(t, a, k, bits) == Lpm(t, a, j, bits)
    decreases j - k
  {
    hide NetAt;
    if k < j {
      LpmSkip(t, a, k + 1, j, bits);
    }
  }

  /** `prefixes` lists the widths of all networks that are wider than `k`. */
  ghost predicate WidthsFrom(prefixes: seq<nat>, t: Table, k: nat, bits: nat) {
    && (forall i :: 0 <= i < |prefixes| ==> k <= prefixes[i] <= bits)
    && (forall i, j :: 0 <= i < j < |prefixes| ==> prefixes[i] < prefixes[j])
    && (forall n :: n in t && n.inv >= k ==> n.inv in prefixes)
  }

  /** Compares a network with larger networks. */
  method FindLarger(t: Table, n: Prefix, prefixes: seq<nat>, bits: nat) returns (big: Option<Hop>)
    requires n.inv <= bits && WidthsFrom(prefixes, t, n.inv + 1, bits)
    ensures big == Larger(t, n, bits)
  {
    hide Trunc, Lpm;
    var i := 0;
    while i < |prefixes|
      invariant 0 <= i <= |prefixes|
      invariant forall j :: n.inv + 1 <= j <= bits && (i < |prefixes| ==> j < prefixes[i]) ==> NetAt(n.base, j) !in t
    {
      var net := NetAt(n.base, prefixes[i]);
      if net in t {
        LpmFound(t, n.base, n.inv + 1, prefixes[i], bits);
        return Some(t[net]);
      }
      i := i + 1;
    }
    LpmNone(t, n.base, n.inv + 1, bits);
    return None;
  }

  /** `x` is one of the infos for a network of `done`. */
  ghost predicate IsInfo(x: NetInfo, h: Hop, t: Table, done: set<Prefix>, bits: nat) {
    && x.net in done && x.net in t && t[x.net] == h
    && Larger(t, x.net, bits) != Some(h) && x.noOpt == Larger(t, x.net, bits).Some?
  }

  /** The networks of `done` have been looked at. */
  ghost predicate KeptInfos(infos: NetInfos, t: Table, done: set<Prefix>, bits: nat) {
    && (forall h, x :: x in InfosOf(infos, h) <==> IsInfo(x, h, t, done, bits))
    && (forall h :: DistinctInfos(InfosOf(infos, h)))
  }

  ghost predicate DistinctInfos(l: seq<NetInfo>) {
    forall i, j :: 0 <= i < j < |l| ==> l[i] != l[j]
  }

  lemma KeptInfosStep(infos: NetInfos, t: Table, done: set<Prefix>, n: Prefix, bits: nat)
    requires KeptInfos(infos, t, done, bits) && n in t && n !in done
    ensures var big := Larger(t, n, bits);
            KeptInfos(if big == Some(t[n]) then infos
                      else infos[t[n] := InfosOf(infos, t[n]) + [NetInfo(n, big.Some?)]], t, done + {n}, bits)
  {
    hide Larger;
    var big := Larger(t, n, bits);
    var x0 := NetInfo(n, big.Some?);
    var next := if big == Some(t[n]) then infos else infos[t[n] := InfosOf(infos, t[n]) + [x0]];
    assert x0 !in InfosOf(infos, t[n]);
    forall h, x
      ensures x in InfosOf(next, h) <==> IsInfo(x, h, t, done + {n}, bits)
    {
      assert x in InfosOf(next, h) <==>
        x in InfosOf(infos, h) || (big != Some(t[n]) && h == t[n] && x == x0);
    }
    forall h
      ensures DistinctInfos(InfosOf(next, h))
    {
      assert DistinctInfos(InfosOf(infos, h));
    }
  }

  /** Finds and removes networks inside of larger networks with same hop. */
  method RemoveSmall(t: Table, bits: nat) returns (infos: NetInfos)
    requires ValidTable(t, bits)
    ensures KeptInfos(infos, t, t.Keys, bits)
  {
    hide Trunc, Pow2, Lpm, KeptInfos;
    infos := map[];
    NoInfos(t, bits);
    var prefixes := Widths(t, bits);
    ghost var k := 0;
    assert NarrowerThan(t, k) == {};
    while prefixes != []
      invariant 0 <= k <= bits + 1 && WidthsFrom(prefixes, t, k, bits)
      invariant KeptInfos(infos, t, NarrowerThan(t, k), bits)
      decreases |prefixes|
    {
      var inv := prefixes[0];
      WidthsNext(prefixes, t, k, bits);
      prefixes := prefixes[1..];
      infos := RemoveLevel(infos, t, prefixes, k, inv, bits);
      k := inv + 1;
    }
    assert NarrowerThan(t, k) == t.Keys;
  }

  ghost function NarrowerThan(t: Table, k: nat): set<Prefix> {
    set n | n in t && n.inv < k
  }

  method RemoveLevel(infos0: NetInfos, t: Table, prefixes: seq<nat>, ghost k: nat, inv: nat, bits: nat)
    returns (infos: NetInfos)
    requires inv <= bits && k <= inv && WidthsFrom(prefixes, t, inv + 1, bits)
    requires forall n :: n in t && n.inv < inv ==> n.inv < k
    requires KeptInfos(infos0, t, NarrowerThan(t, k), bits)
    ensures KeptInfos(infos, t, NarrowerThan(t, inv + 1), bits)
  {
    hide Trunc, Pow2, Lpm, KeptInfos, WidthsFrom;
    infos := infos0;
    ghost var done := NarrowerThan(t, k);
    var rest := set n | n in t && n.inv == inv;
    while rest != {}
      invariant forall n :: n in rest ==> n in t && n.inv == inv
      invariant done == NarrowerThan(t, inv + 1) - rest
      invariant KeptInfos(infos, t, done, bits)
      decreases rest
    {
      var small :| small in rest;
      var big := FindLarger(t, small, prefixes, bits);
      KeptInfosStep(infos, t, done, small, bits);
      if big != Some(t[small]) {
        infos := infos[t[small] := InfosOf(infos, t[small]) + [NetInfo(small, big.Some?)]];
      }
      rest := rest - {small};
      done := done + {small};
    }
    assert done == NarrowerThan(t, inv + 1);
  }

  lemma NoInfos(t: Table, bits: nat)
    ensures KeptInfos(map[], t, {}, bits)
  {}

  lemma WidthsNext(prefixes: seq<nat>, t: Table, k: nat, bits: nat)
    requires WidthsFrom(prefixes, t, k, bits) && prefixes != []
    ensures WidthsFrom(prefixes[1..], t, prefixes[0] + 1, bits)
    ensures forall n :: n in t && n.inv < prefixes[0] ==> n.inv < k
  {
    forall n | n in t && n.inv >= k && n.inv != prefixes[0]
      ensures n.inv in prefixes[1..] && n.inv > prefixes[0]
    {
      var i :| 0 <= i < |prefixes| && prefixes[i] == n.inv;
      assert prefixes[1..][i - 1] == n.inv;
    }
  }

  /** The sorted list of all widths. */
  method Widths(t: Table, bits: nat) returns (prefixes: seq<nat>)
    requires ValidTable(t, bits)
    ensures WidthsFrom(prefixes, t, 0, bits)
  {
    prefixes := [];
    var inv := 0;
    while inv <= bits
      invariant 0 <= inv <= bits + 1
      invariant forall i :: 0 <= i < |prefixes| ==> prefixes[i] < inv
      invariant forall i, j :: 0 <= i < j < |prefixes| ==> prefixes[i] < prefixes[j]
      invariant forall n :: n in t && n.inv < inv ==> n.inv in prefixes
    {
      if exists n :: n in t && n.inv == inv {
        prefixes := prefixes + [inv];
      }
      inv := inv + 1;
    }
  }

  // ------------------------------------------------------- selection of default route

  /** Number of routes which the default route would replace. */
  function Count(l: seq<NetInfo>): nat {
    if l == [] then 0 else Count(l[..|l| - 1]) + (if l[|l| - 1].noOpt then 0 else 1)
  }

  function OnlyNoOpt(l: seq<NetInfo>): (r: seq<NetInfo>)
    ensures forall x :: x in r <==> x in l && x.noOpt
  {
    if l == [] then []
    else OnlyNoOpt(l[..|l| - 1]) + (if l[|l| - 1].noOpt then [l[|l| - 1]] else [])
  }

  lemma {:induction false} CountOne(l: seq<NetInfo>) returns (i: nat)
    requires Count(l) > 0
    ensures i < |l| && !l[i].noOpt
  {
    i := |l| - 1;
    if l[i].noOpt {
      i := CountOne(l[..i]);
    }
  }

  lemma {:induction false} CountTwo(l: seq<NetInfo>) returns (i: nat, j: nat)
    requires Count(l) > 1
    ensures i < j < |l| && !l[i].noOpt && !l[j].noOpt
  {
    j := |l| - 1;
    if l[j].noOpt {
      i, j := CountTwo(l[..j]);
    } else {
      i := CountOne(l[..j]);
    }
  }

  /** With a route for all addresses, no two routes lack a larger network. */
  lemma NoDefaultYet(infos: NetInfos, t: Table, h: Hop, bits: nat)
    requires ValidTable(t, bits) && KeptInfos(infos, t, t.Keys, bits) && Count(InfosOf(infos, h)) > 1
    ensures Prefix(0, bits) !in t
  {
    hide Trunc, Pow2;
    var l := InfosOf(infos, h);
    var i, j := CountTwo(l);
    assert l[i] in l && l[j] in l && DistinctInfos(l);
    assert IsInfo(l[i], h, t, t.Keys, bits) && IsInfo(l[j], h, t, t.Keys, bits);
    assert l[i].net != l[j].net;
    if Prefix(0, bits) in t {
      var x := if l[i].net == Prefix(0, bits) then l[j] else l[i];
      InsideDefault(t, x.net, bits);
    }
  }

  lemma InsideDefault(t: Table, n: Prefix, bits: nat)
    requires ValidTable(t, bits) && n in t && n != Prefix(0, bits) && Prefix(0, bits) in t
    ensures Larger(t, n, bits).Some?
  {
    hide Trunc, Pow2;
    NetAtBits(n.base, bits);
    HasTrunc(n, n.base);
    if n.inv == bits {
      CoversRefl(n);
    } else {
      LpmSome(t, n.base, n.inv + 1, bits);
    }
  }

  lemma {:induction false} LpmSome(t: Table, a: nat, k: nat, bits: nat)
    requires k <= bits && NetAt(a, bits) in t
    ensures Lpm(t, a, k, bits).Some?
    decreases bits - k
  {
    if k < bits {
      LpmSome(t, a, k + 1, bits);
    }
  }

  /** Find interface and hop with largest number of routing entries, if there are
      at least two entries. */
  method FindMax(infos: NetInfos) returns (maxHop: Option<Hop>)
    ensures maxHop.Some? ==>
              && Count(InfosOf(infos, maxHop.value)) > 1
              && forall h :: h in infos ==> Count(infos[h]) <= Count(InfosOf(infos, maxHop.value))
    ensures maxHop.None? ==> forall h :: h in infos ==> Count(infos[h]) <= 1
  {
    maxHop := None;
    var max := 1;
    var rest := infos.Keys;
    while rest != {}
      invariant rest <= infos.Keys && max >= 1
      invariant maxHop.Some? ==> max > 1 && max == Count(InfosOf(infos, maxHop.value))
      invariant maxHop.None? ==> max == 1
      invariant forall h :: h in infos && h !in rest ==> Count(infos[h]) <= max
      decreases rest
    {
      var hop :| hop in rest;
      rest := rest - {hop};
      var count := Count(infos[hop]);
      if count > max {
        maxHop, max := Some(hop), count;
      }
    }
  }

  lemma KeptPrints(infos: NetInfos, t: Table, bits: nat)
    requires KeptInfos(infos, t, t.Keys, bits)
    ensures Prints(infos, Kept(t, bits))
  {
    hide Larger;
    forall n, h
      ensures (exists o :: NetInfo(n, o) in InfosOf(infos, h)) <==> n in Kept(t, bits) && Kept(t, bits)[n] == h
    {
      if n in Kept(t, bits) && Kept(t, bits)[n] == h {
        assert IsInfo(NetInfo(n, Larger(t, n, bits).Some?), h, t, t.Keys, bits);
      }
      if o :| NetInfo(n, o) in InfosOf(infos, h) {
        assert IsInfo(NetInfo(n, o), h, t, t.Keys, bits);
      }
    }
  }

  lemma DefaultPrints(infos: NetInfos, t: Table, hop: Hop, bits: nat)
    requires KeptInfos(infos, t, t.Keys, bits) && Prefix(0, bits) !in t
    ensures Prints(infos[hop := [NetInfo(Prefix(0, bits), false)] + OnlyNoOpt(InfosOf(infos, hop))],
                   WithDefault(t, hop, bits))
  {
    hide Larger;
    var d, dst := Prefix(0, bits), WithDefault(t, hop, bits);
    var next := infos[hop := [NetInfo(d, false)] + OnlyNoOpt(InfosOf(infos, hop))];
    forall n, h
      ensures (exists o :: NetInfo(n, o) in InfosOf(next, h)) <==> n in dst && dst[n] == h
    {
      if n in dst && dst[n] == h {
        if n == d {
          assert NetInfo(d, false) in InfosOf(next, h);
        } else {
          var x := NetInfo(n, Larger(t, n, bits).Some?);
          assert IsInfo(x, h, t, t.Keys, bits);
          assert x in InfosOf(next, h);
        }
      }
      if o :| NetInfo(n, o) in InfosOf(next, h) {
        assert NetInfo(n, o) == NetInfo(d, false) || NetInfo(n, o) in InfosOf(infos, h);
        assert NetInfo(n, o) in InfosOf(infos, h) ==> IsInfo(NetInfo(n, o), h, t, t.Keys, bits);
      }
    }
  }

  /** Each address that is covered by a collected route is forwarded as before.  Other
      addresses are either not forwarded at all, or all of them by the default route. */
  ghost predicate KeepsForwarding(printed: Table, collected: Table, bits: nat, autoDefaultRoute: bool) {
    && (forall a: nat :: a < Pow2(bits) && Forward(collected, a, bits).Some? ==>
          Forward(printed, a, bits) == Forward(collected, a, bits))
    && ((forall a: nat :: a < Pow2(bits) && Forward(collected, a, bits).None? ==> Forward(printed, a, bits).None?) ||
        (autoDefaultRoute && Prefix(0, bits) !in collected &&
         exists h :: forall a: nat :: a < Pow2(bits) && Forward(collected, a, bits).None? ==>
           Forward(printed, a, bits) == Some(h)))
  }

  /** No network is printed whose next larger printed network has the same hop, and no two
      halves with the same hop, unless what they make up has been collected. */
  ghost predicate Minimal(printed: Table, collected: Table, bits: nat) {
    && (forall n :: n in printed ==> Larger(printed, n, bits) != Some(printed[n]))
    && NoPairs(printed, collected, bits)
  }

  /** The routes which a default route to `hop` would replace. */
  ghost function Replaceable(t: Table, hop: Hop, bits: nat): set<Prefix> {
    set n | n in t && t[n] == hop && Larger(t, n, bits).None?
  }

  /** A default route is introduced exactly if it is wanted, has not been collected, and
      replaces at least two routes; then it replaces as many as possible. */
  ghost predicate DefaultChosen(printed: Table, combined: Table, collected: Table, bits: nat, autoDefaultRoute: bool) {
    var d := Prefix(0, bits);
    if autoDefaultRoute && d !in collected && exists h :: |Replaceable(combined, h, bits)| > 1 then
      && d in printed && d !in combined && |Replaceable(combined, printed[d], bits)| > 1
      && (forall h :: |Replaceable(combined, h, bits)| <= |Replaceable(combined, printed[d], bits)|)
      && forall n :: n in Replaceable(combined, printed[d], bits) ==> n !in printed
    else
      forall n :: n in printed ==> n in combined
  }

  lemma KeptMinimal(t: Table, collected: Table, bits: nat)
    requires NoPairs(t, collected, bits)
    ensures Minimal(Kept(t, bits), collected, bits)
  {
    hide Lpm;
    forall n | n in Kept(t, bits)
      ensures Larger(Kept(t, bits), n, bits) != Some(Kept(t, bits)[n])
    {
      KeptKeepsFrom(t, n.base, n.inv + 1, bits);
    }
  }

  lemma DefaultMinimal(t: Table, hop: Hop, collected: Table, bits: nat)
    requires ValidTable(t, bits) && NoPairs(t, collected, bits) && Prefix(0, bits) !in t
    ensures Minimal(WithDefault(t, hop, bits), collected, bits)
  {
    hide Lpm;
    var d := WithDefault(t, hop, bits);
    forall n | n in d
      ensures Larger(d, n, bits) != Some(d[n])
    {
      if n == Prefix(0, bits) || n.inv == bits {
        NothingLarger(d, n, bits);
      } else {
        DefaultFrom(t, hop, n.base, n.inv + 1, bits);
      }
    }
    forall left: Prefix | left in d && left.IsLeft() && left.inv < bits && left.Next() in d && d[left] == d[left.Next()]
      ensures left.Up() in collected
    {
      assert left.Next().inv == left.inv;
    }
  }

  lemma NothingLarger(t: Table, n: Prefix, bits: nat)
    requires n.inv == bits
    ensures Larger(t, n, bits) == None
  {}

  /** Counting infos means counting the routes that the default route would replace. */
  lemma CountReplaceable(infos: NetInfos, t: Table, h: Hop, bits: nat)
    requires KeptInfos(infos, t, t.Keys, bits)
    ensures Count(InfosOf(infos, h)) == |Replaceable(t, h, bits)|
  {
    hide Larger;
    var l := InfosOf(infos, h);
    assert DistinctInfos(l);
    CountNets(l);
    assert NetsToReplace(l) == Replaceable(t, h, bits) by {
      forall n
        ensures n in NetsToReplace(l) <==> n in Replaceable(t, h, bits)
      {
        assert NetInfo(n, false) in l <==> IsInfo(NetInfo(n, false), h, t, t.Keys, bits);
      }
    }
  }

  ghost function NetsToReplace(l: seq<NetInfo>): (r: set<Prefix>)
    ensures forall n :: n in r <==> NetInfo(n, false) in l
  {
    if l == [] then {} else
      NetsToReplace(l[..|l| - 1]) + if l[|l| - 1].noOpt then {} else {l[|l| - 1].net}
  }

  lemma {:induction false} CountNets(l: seq<NetInfo>)
    requires DistinctInfos(l)
    ensures Count(l) == |NetsToReplace(l)|
  {
    if l != [] {
      var m, x := l[..|l| - 1], l[|l| - 1];
      assert DistinctInfos(m);
      CountNets(m);
      assert x !in m;
      if !x.noOpt {
        assert x == NetInfo(x.net, false) && x.net !in NetsToReplace(m);
      }
    }
  }

  /** If a default route replaces the most routes, it has been chosen as it should be. */
  lemma ChosenWith(infos: NetInfos, t: Table, hop: Hop, collected: Table, bits: nat)
    requires KeptInfos(infos, t, t.Keys, bits) && Count(InfosOf(infos, hop)) > 1
    requires forall h :: h in infos ==> Count(infos[h]) <= Count(InfosOf(infos, hop))
    requires Prefix(0, bits) !in collected && Prefix(0, bits) !in t
    ensures DefaultChosen(WithDefault(t, hop, bits), t, collected, bits, true)
  {
    hide Larger, Count, KeptInfos;
    CountReplaceable(infos, t, hop, bits);
    forall h
      ensures |Replaceable(t, h, bits)| <= |Replaceable(t, hop, bits)|
    {
      CountReplaceable(infos, t, h, bits);
      CountNothing();
    }
  }

  lemma CountNothing()
    ensures Count([]) == 0
  {}

  lemma ChosenWithout(infos: NetInfos, t: Table, collected: Table, bits: nat, autoDefaultRoute: bool)
    requires KeptInfos(infos, t, t.Keys, bits)
    requires !autoDefaultRoute || Prefix(0, bits) in collected || forall h :: h in infos ==> Count(infos[h]) <= 1
    ensures DefaultChosen(Kept(t, bits), t, collected, bits, autoDefaultRoute)
  {
    hide Larger, Count, KeptInfos;
    forall h
      ensures autoDefaultRoute && Prefix(0, bits) !in collected ==> |Replaceable(t, h, bits)| <= 1
    {
      CountReplaceable(infos, t, h, bits);
      CountNothing();
    }
  }

  /** The printed routes make up a table which keeps forwarding and from which no route can
      be left out.  It stems from a table of combined routes. */
  method PrintRoutes(collected: Table, bits: nat, autoDefaultRoute: bool) returns (infos: NetInfos)
    requires ValidTable(collected, bits)
    ensures exists printed: Table, combined: Table ::
              && Prints(infos, printed) && KeepsForwarding(printed, collected, bits, autoDefaultRoute)
              && Minimal(printed, collected, bits)
              && NoPairs(combined, collected, bits)
              && DefaultChosen(printed, combined, collected, bits, autoDefaultRoute)
              && forall a: nat :: Forward(combined, a, bits) == Forward(collected, a, bits)
  {
    hide Trunc, Pow2, Forward, KeptInfos, Prints, Kept, WithDefault, NoPairs, Minimal, DefaultChosen;
    var doAutoDefaultRoute := autoDefaultRoute && Prefix(0, bits) !in collected;
    var routes := CombineRoutes(collected, bits);
    infos := RemoveSmall(routes, bits);
    KeptPrints(infos, routes, bits);
    KeptKeeps(routes, bits);
    KeptMinimal(routes, collected, bits);
    if doAutoDefaultRoute {
      var maxHop := FindMax(infos);
      if maxHop.Some? {
        var hop := maxHop.value;
        NoDefaultYet(infos, routes, hop, bits);
        DefaultPrints(infos, routes, hop, bits);
        DefaultKeeps(routes, hop, bits);
        DefaultMinimal(routes, hop, collected, bits);
        ChosenWith(infos, routes, hop, collected, bits);
        infos := infos[hop := [NetInfo(Prefix(0, bits), false)] + OnlyNoOpt(InfosOf(infos, hop))];
        ghost var printed := WithDefault(routes, hop, bits);
        assert KeepsForwarding(printed, collected, bits, autoDefaultRoute);
        return;
      }
    }
    ChosenWithout(infos, routes, collected, bits, autoDefaultRoute);
    ghost var printed := Kept(routes, bits);
    assert KeepsForwarding(printed, collected, bits, autoDefaultRoute);
  }
}
