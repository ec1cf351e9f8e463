/** The tree for a set of protocols (`genprtBintree` in go/cmd/spoc2/main.go),
    without ICMP.

    A protocol is known by the range of its ports in a common numbering of all
    protocols, see `PRT_IP` and `KindOf`.  `tree` gives the subtree of each
    protocol of the current set, `up` the next larger known protocol.
  */
module GenprtBintree {
  import opened Wrappers
  import opened Iptables
  import Sorting
  import P = PrtBintree

  const TCP_BASE := 0x10000
  const UDP_BASE := 0x20000
  const PROTO_BASE := 0x30000
  const PRT_IP := Range(0, 0x3FFFF)

  datatype Kind = Ip | Tcp | Udp | Proto | Unknown

  function KindOf(r: Range): Kind {
    if r == PRT_IP then Ip
    else if TCP_BASE <= r.low <= r.high < UDP_BASE then Tcp
    else if UDP_BASE <= r.low <= r.high < PROTO_BASE then Udp
    else if PROTO_BASE <= r.low == r.high <= PRT_IP.high then Proto
    else Unknown
  }

  predicate Strict(r: Range, outer: Range) {
    P.Inside(r, outer) && r != outer
  }

  function Width(r: Range): int {
    r.high - r.low
  }

  /** Result of setupPrtRelation: `up` is the smallest known protocol that
      includes a protocol, and known protocols do not overlap. */
  ghost predicate UpRelation(up: map<Range, Range>, known: set<Range>) {
    && PRT_IP in known && PRT_IP !in up
    && (forall r :: r in known ==> KindOf(r) != Unknown)
    && (forall q, r :: q in known && r in known ==> P.Inside(q, r) || P.Inside(r, q) || P.Disjoint(q, r))
    && (forall r :: r in known && r != PRT_IP ==> r in up && up[r] in known && Strict(r, up[r]))
    && (forall r, k :: r in known && r != PRT_IP && k in known && Strict(r, k) ==> P.Inside(up[r], k))
  }

  /** The first protocol of the current set on the `up` chain that starts at
      `u`, but not 'ip'. */
  function Nearest<S>(u: Range, up: map<Range, Range>, tree: map<Range, S>, ghost known: set<Range>): (o: Option<Range>)
    requires UpRelation(up, known) && u in known
    ensures o.Some? ==> o.value in tree && o.value != PRT_IP && o.value in known && P.Inside(u, o.value)
    ensures forall k :: k in tree && k in known && k != PRT_IP && P.Inside(u, k) ==> o.Some? && P.Inside(o.value, k)
    decreases PRT_IP.high - PRT_IP.low - Width(u)
  {
    UpFacts(u, up, known);
    if u !in up then None
    else if u in tree then Some(u)
    else Nearest(up[u], up, tree, known)
  }

  lemma UpFacts(u: Range, up: map<Range, Range>, known: set<Range>)
    requires UpRelation(up, known) && u in known
    ensures u in up <==> u != PRT_IP
    ensures u == PRT_IP ==> forall k :: k in known && k != PRT_IP ==> !P.Inside(u, k)
    ensures u in up ==> up[u] in known && P.Inside(u, up[u]) && Width(u) < Width(up[u]) <= Width(PRT_IP)
    ensures u in up ==> forall k :: k in known && P.Inside(u, k) && k != u ==> P.Inside(up[u], k)
  {
    assert u in up ==> KindOf(up[u]) != Unknown;
  }

  /** The next larger protocol of the current set. */
  function Outer<S>(r: Range, up: map<Range, Range>, tree: map<Range, S>, ghost known: set<Range>): (o: Option<Range>)
    requires UpRelation(up, known) && r in known && r != PRT_IP
    ensures o.Some? ==> o.value in tree && o.value != PRT_IP && o.value in known && Strict(r, o.value)
    ensures forall k :: k in tree && k in known && k != PRT_IP && Strict(r, k) ==> o.Some? && P.Inside(o.value, k)
  {
    assert Strict(r, up[r]);
    Nearest(up[r], up, tree, known)
  }

  // ------------------------------------------------------------ grouping protocols

  /** The protocols and relations of one call: `tree` holds the current set. */
  ghost predicate Input<S>(up: map<Range, Range>, tree: map<Range, S>, known: set<Range>) {
    UpRelation(up, known) && tree.Keys <= known
  }

  /** `r` goes to `topPrt`. */
  predicate IsTop<S>(r: Range, up: map<Range, Range>, tree: map<Range, S>, ghost known: set<Range>)
    requires Input(up, tree, known) && r in tree
  {
    r != PRT_IP && Outer(r, up, tree, known).None?
  }

  /** `r` goes to `subPrt[u]`. */
  predicate IsSub<S(==)>(r: Range, u: Range, up: map<Range, Range>, tree: map<Range, S>, ghost known: set<Range>)
    requires Input(up, tree, known) && r in tree
  {
    r != PRT_IP && Outer(r, up, tree, known) == Some(u) && tree[r] != tree[u]
  }

  /** `r` gets a node in the generated tree: no protocol from `r` up to the top
      one is ignored for having the subtree of the next larger protocol. */
  predicate Reachable<S(==)>(r: Range, up: map<Range, Range>, tree: map<Range, S>, ghost known: set<Range>)
    requires Input(up, tree, known) && r in tree
    decreases PRT_IP.high - PRT_IP.low - Width(r)
  {
    r == PRT_IP ||
    match Outer(r, up, tree, known)
    case None => true
    case Some(u) =>
      assert KindOf(u) != Unknown;
      tree[r] != tree[u] && Reachable(u, up, tree, known)
  }

  /** No protocol gets lost: one without node has the subtree of a larger
      protocol with node. */
  ghost predicate NothingLost<S>(up: map<Range, Range>, tree: map<Range, S>, known: set<Range>)
    requires Input(up, tree, known)
  {
    forall r :: r in tree && !Reachable(r, up, tree, known) ==>
      exists u :: u in tree && P.Inside(r, u) && tree[u] == tree[r] && Reachable(u, up, tree, known)
  }

  lemma {:induction false} SameNearest<S, U>(u: Range, up: map<Range, Range>, a: map<Range, S>, b: map<Range, U>,
                                             known: set<Range>)
    requires UpRelation(up, known) && u in known && a.Keys == b.Keys
    ensures Nearest(u, up, a, known) == Nearest(u, up, b, known)
    decreases PRT_IP.high - PRT_IP.low - Width(u)
  {
    UpFacts(u, up, known);
    assert u in a <==> u in b;
    if u in up && u !in a {
      SameNearest(up[u], up, a, b, known);
    }
  }

  /** Which protocols get nodes depends only on which subtrees are equal. */
  lemma {:induction false} SameReachable<S, U>(r: Range, up: map<Range, Range>, a: map<Range, S>, b: map<Range, U>,
                                               known: set<Range>)
    requires Input(up, a, known) && Input(up, b, known) && a.Keys == b.Keys && r in a
    requires forall q, u :: q in a && u in a ==> (a[q] == a[u] <==> b[q] == b[u])
    ensures Reachable(r, up, a, known) <==> Reachable(r, up, b, known)
    decreases PRT_IP.high - PRT_IP.low - Width(r)
  {
    assert r in b;
    if r != PRT_IP {
      SameNearest(up[r], up, a, b, known);
      var o := Outer(r, up, a, known);
      if o.Some? {
        assert KindOf(o.value) != Unknown;
        SameReachable(o.value, up, a, b, known);
      }
    }
  }

  /** The protocols of `elements` that go to the top list of a kind. */
  ghost predicate TopList<S(!new)>(list: seq<Range>, kind: Kind, elements: seq<Range>,
                                   up: map<Range, Range>, tree: map<Range, S>, known: set<Range>)
    requires Input(up, tree, known) && forall r :: r in elements ==> r in tree
  {
    Sorting.Distinct(list) &&
    forall r :: r in list <==> r in elements && KindOf(r) == kind && IsTop(r, up, tree, known)
  }

  ghost predicate SubList<S(!new)>(list: seq<Range>, u: Range, elements: seq<Range>,
                                   up: map<Range, Range>, tree: map<Range, S>, known: set<Range>)
    requires Input(up, tree, known) && forall r :: r in elements ==> r in tree
  {
    Sorting.Distinct(list) &&
    forall r :: r in list <==> r in elements && IsSub(r, u, up, tree, known)
  }

  datatype Groups = Groups(tcp: seq<Range>, udp: seq<Range>, protos: seq<Range>, sub: map<Range, seq<Range>>) {
    ghost predicate Holds<S(!new)>(elements: seq<Range>, up: map<Range, Range>, tree: map<Range, S>, known: set<Range>)
      requires Input(up, tree, known) && forall r :: r in elements ==> r in tree
    {
      && TopList(tcp, Tcp, elements, up, tree, known)
      && TopList(udp, Udp, elements, up, tree, known)
      && TopList(protos, Proto, elements, up, tree, known)
      && forall u :: SubList(P.SubOf(sub, u), u, elements, up, tree, known)
    }
  }

  /** The groups after one more protocol has been looked at. */
  function Grouped<S(==)>(g: Groups, prt: Range, up: map<Range, Range>, tree: map<Range, S>,
                          ghost known: set<Range>): Groups
    requires Input(up, tree, known) && prt in tree
  {
    if prt == PRT_IP then g
    else match Outer(prt, up, tree, known)
      case Some(u) =>
        if tree[prt] != tree[u] then g.(sub := g.sub[u := P.SubOf(g.sub, u) + [prt]]) else g
      case None =>
        match KindOf(prt)
        case Tcp => g.(tcp := g.tcp + [prt])
        case Udp => g.(udp := g.udp + [prt])
        case _ => g.(protos := g.protos + [prt])
  }

  lemma TopStep<S(!new)>(list: seq<Range>, kind: Kind, elements: seq<Range>, prt: Range,
                         up: map<Range, Range>, tree: map<Range, S>, known: set<Range>)
    requires Input(up, tree, known) && prt in tree && forall r :: r in elements ==> r in tree
    requires prt !in elements && TopList(list, kind, elements, up, tree, known)
    ensures var goes := KindOf(prt) == kind && IsTop(prt, up, tree, known);
            TopList(if goes then list + [prt] else list, kind, elements + [prt], up, tree, known)
  {}

  lemma SubStep<S(!new)>(list: seq<Range>, u: Range, elements: seq<Range>, prt: Range,
                         up: map<Range, Range>, tree: map<Range, S>, known: set<Range>)
    requires Input(up, tree, known) && prt in tree && forall r :: r in elements ==> r in tree
    requires prt !in elements && SubList(list, u, elements, up, tree, known)
    ensures SubList(if IsSub(prt, u, up, tree, known) then list + [prt] else list, u, elements + [prt], up, tree, known)
  {}

  lemma GroupedHolds<S(!new)>(g: Groups, elements: seq<Range>, prt: Range,
                              up: map<Range, Range>, tree: map<Range, S>, known: set<Range>)
    requires Input(up, tree, known) && prt in tree && forall r :: r in elements ==> r in tree
    requires prt !in elements && g.Holds(elements, up, tree, known)
    ensures forall r :: r in elements + [prt] ==> r in tree
    ensures Grouped(g, prt, up, tree, known).Holds(elements + [prt], up, tree, known)
  {
    hide TopList, SubList;
    var h := Grouped(g, prt, up, tree, known);
    TopStep(g.tcp, Tcp, elements, prt, up, tree, known);
    TopStep(g.udp, Udp, elements, prt, up, tree, known);
    TopStep(g.protos, Proto, elements, prt, up, tree, known);
    forall u
      ensures SubList(P.SubOf(h.sub, u), u, elements + [prt], up, tree, known)
    {
      SubStep(P.SubOf(g.sub, u), u, elements, prt, up, tree, known);
    }
  }

  method GroupProtocols<S(==,!new)>(elements: seq<Range>, up: map<Range, Range>, tree: map<Range, S>,
                                    ghost known: set<Range>)
    returns (g: Groups)
    requires Input(up, tree, known) && Sorting.Distinct(elements) && forall r :: r in elements ==> r in tree
    ensures g.Holds(elements, up, tree, known)
  {
    hide Grouped;
    g := Groups([], [], [], map[]);
    var i := 0;
    while i < |elements|
      invariant 0 <= i <= |elements|
      invariant g.Holds(elements[..i], up, tree, known)
    {
      assert elements[..i + 1] == elements[..i] + [elements[i]];
      GroupedHolds(g, elements[..i], elements[i], up, tree, known);
      g := Grouped(g, elements[i], up, tree, known);
      i := i + 1;
    }
    assert elements[..i] == elements;
  }

  // ------------------------------------------------------- meaning of the groups

  const ALL := 0x40000

  ghost predicate Grouping<S(!new)>(g: Groups, elements: seq<Range>, up: map<Range, Range>,
                                    tree: map<Range, S>, known: set<Range>)
  {
    Input(up, tree, known) && (forall r :: r in elements <==> r in tree) && g.Holds(elements, up, tree, known)
  }

  /** Two protocols with the same next larger one are disjoint. */
  lemma SiblingsDisjoint<S(!new)>(q: Range, r: Range, up: map<Range, Range>, tree: map<Range, S>, known: set<Range>)
    requires Input(up, tree, known) && q in tree && r in tree && q != r && q != PRT_IP && r != PRT_IP
    requires Outer(q, up, tree, known) == Outer(r, up, tree, known)
    ensures P.Disjoint(q, r)
  {
    assert !Strict(q, r);
    assert !Strict(r, q);
  }

  /** What is known of the list below a protocol. */
  lemma SubFacts<S(!new)>(g: Groups, u: Range, elements: seq<Range>, up: map<Range, Range>,
                          tree: map<Range, S>, known: set<Range>)
    requires Grouping(g, elements, up, tree, known)
    ensures Sorting.Distinct(P.SubOf(g.sub, u))
    ensures forall r :: r in P.SubOf(g.sub, u) ==>
              && r in tree && r in known && r.low <= r.high && Strict(r, u) && Width(r) < Width(u)
              && IsSub(r, u, up, tree, known)
              && (u in tree && Reachable(u, up, tree, known) ==> Reachable(r, up, tree, known))
    ensures forall q, r :: q in P.SubOf(g.sub, u) && r in P.SubOf(g.sub, u) && q != r ==> P.Disjoint(q, r)
  {
    var list := P.SubOf(g.sub, u);
    assert SubList(list, u, elements, up, tree, known);
    forall q, r | q in list && r in list && q != r
      ensures P.Disjoint(q, r)
    {
      SiblingsDisjoint(q, r, up, tree, known);
    }
  }

  lemma TopFacts<S(!new)>(list: seq<Range>, kind: Kind, elements: seq<Range>, up: map<Range, Range>,
                          tree: map<Range, S>, known: set<Range>)
    requires Input(up, tree, known) && forall r :: r in elements ==> r in tree
    requires TopList(list, kind, elements, up, tree, known)
    ensures Sorting.Distinct(list)
    ensures forall r :: r in list ==>
              && r in tree && r in known && r.low <= r.high && Width(r) < ALL && KindOf(r) == kind && r != PRT_IP
              && Reachable(r, up, tree, known)
    ensures forall q, r :: q in list && r in list && q != r ==> P.Disjoint(q, r)
  {
    forall q, r | q in list && r in list && q != r
      ensures P.Disjoint(q, r)
    {
      SiblingsDisjoint(q, r, up, tree, known);
    }
  }

  lemma {:induction false} SubForest<S(!new)>(g: Groups, u: Range, elements: seq<Range>, up: map<Range, Range>,
                                              tree: map<Range, S>, known: set<Range>)
    requires Grouping(g, elements, up, tree, known) && Width(u) >= 0
    ensures P.Forest(P.SubOf(g.sub, u), g.sub, tree, Width(u))
    decreases Width(u)
  {
    hide Grouping, UpRelation, Input, IsSub, Reachable, Sorting.Distinct, P.SubOf;
    SubFacts(g, u, elements, up, tree, known);
    forall r | r in P.SubOf(g.sub, u)
      ensures P.Forest(P.SubOf(g.sub, r), g.sub, tree, Width(r))
      ensures forall q :: q in P.SubOf(g.sub, r) ==> P.Inside(q, r)
    {
      SubForest(g, r, elements, up, tree, known);
      SubFacts(g, r, elements, up, tree, known);
    }
  }

  lemma {:induction false} TopForest<S(!new)>(g: Groups, list: seq<Range>, kind: Kind, elements: seq<Range>,
                                              up: map<Range, Range>, tree: map<Range, S>, known: set<Range>)
    requires Grouping(g, elements, up, tree, known) && TopList(list, kind, elements, up, tree, known)
    ensures P.Forest(list, g.sub, tree, ALL)
  {
    hide UpRelation, IsSub, Reachable, Sorting.Distinct, P.SubOf, TopList;
    TopFacts(list, kind, elements, up, tree, known);
    forall r | r in list
      ensures P.Forest(P.SubOf(g.sub, r), g.sub, tree, Width(r))
      ensures forall q :: q in P.SubOf(g.sub, r) ==> P.Inside(q, r)
    {
      SubForest(g, r, elements, up, tree, known);
      SubFacts(g, r, elements, up, tree, known);
    }
  }

  /** The protocol to which a reachable one is linked. */
  lemma OuterFacts<S(!new)>(g: Groups, r: Range, elements: seq<Range>, up: map<Range, Range>,
                            tree: map<Range, S>, known: set<Range>) returns (o: Option<Range>)
    requires Grouping(g, elements, up, tree, known) && r in tree && r != PRT_IP && Reachable(r, up, tree, known)
    ensures o.None? ==> forall list :: TopList(list, KindOf(r), elements, up, tree, known) ==> r in list
    ensures o.Some? ==>
              && r in P.SubOf(g.sub, o.value) && o.value in tree && o.value != PRT_IP
              && Reachable(o.value, up, tree, known) && KindOf(o.value) == KindOf(r)
              && 0 <= Width(r) < Width(o.value) < ALL && P.Inside(r, o.value)
  {
    o := Outer(r, up, tree, known);
    if o.Some? {
      assert SubList(P.SubOf(g.sub, o.value), o.value, elements, up, tree, known);
    }
  }

  /** The protocol `r`, or one below it, leads to `s`. */
  ghost predicate LeadsFrom<S(!new)>(g: Groups, r: Range, tree: map<Range, S>, v: int, s: S) {
    && r in tree && 0 <= Width(r) < ALL && P.Forest(P.SubOf(g.sub, r), g.sub, tree, Width(r))
    && P.RangeLeads(r, g.sub, tree, ALL, v, s)
  }

  /** What a reachable protocol leads to, the forest of its top protocol leads to. */
  lemma {:induction false} ReachableLeads<S(!new)>(g: Groups, r: Range, list: seq<Range>, elements: seq<Range>,
                                                   up: map<Range, Range>, tree: map<Range, S>, known: set<Range>,
                                                   v: int, s: S)
    requires Grouping(g, elements, up, tree, known) && TopList(list, KindOf(r), elements, up, tree, known)
    requires r in tree && r != PRT_IP && Reachable(r, up, tree, known) && LeadsFrom(g, r, tree, v, s)
    ensures P.Forest(list, g.sub, tree, ALL) && P.ForestLeads(list, g.sub, tree, ALL, v, s)
    decreases ALL - Width(r)
  {
    hide Grouping, UpRelation, Input, Reachable, P.SubOf, TopList, P.Forest, KindOf, LeadsFrom;
    var o := OuterFacts(g, r, elements, up, tree, known);
    TopForest(g, list, KindOf(r), elements, up, tree, known);
    if o.Some? {
      SubForest(g, o.value, elements, up, tree, known);
      LeadsUp(g, r, o.value, tree, v, s);
      ReachableLeads(g, o.value, list, elements, up, tree, known, v, s);
    } else {
      LeadsTop(g, r, list, tree, v, s);
    }
  }

  lemma LeadsUp<S(!new)>(g: Groups, r: Range, u: Range, tree: map<Range, S>, v: int, s: S)
    requires u in tree && 0 <= Width(u) < ALL && P.Forest(P.SubOf(g.sub, u), g.sub, tree, Width(u))
    requires r in P.SubOf(g.sub, u) && Width(r) < Width(u) && LeadsFrom(g, r, tree, v, s)
    ensures LeadsFrom(g, u, tree, v, s)
  {
    assert P.RangeLeads(r, g.sub, tree, Width(u), v, s);
  }

  lemma LeadsTop<S(!new)>(g: Groups, r: Range, list: seq<Range>, tree: map<Range, S>, v: int, s: S)
    requires P.Forest(list, g.sub, tree, ALL) && r in list && LeadsFrom(g, r, tree, v, s)
    ensures P.ForestLeads(list, g.sub, tree, ALL, v, s)
  {}

  /** What a forest leads to, one of its reachable protocols leads to. */
  lemma {:induction false} LeadsReachable<S(!new)>(g: Groups, list: seq<Range>, width: nat, elements: seq<Range>,
                                                   up: map<Range, Range>, tree: map<Range, S>, known: set<Range>,
                                                   v: int, s: S) returns (r: Range)
    requires Grouping(g, elements, up, tree, known) && P.Forest(list, g.sub, tree, width)
    requires forall q :: q in list ==> q in tree && q != PRT_IP && Reachable(q, up, tree, known)
    requires P.ForestLeads(list, g.sub, tree, width, v, s)
    ensures r in tree && r != PRT_IP && Reachable(r, up, tree, known) && r.Has(v) && tree[r] == s
    ensures exists q :: q in list && P.Inside(r, q)
    decreases width
  {
    hide Grouping, UpRelation, Input, Reachable, P.SubOf, KindOf, IsSub;
    var q :| q in list && P.RangeLeads(q, g.sub, tree, width, v, s);
    if tree[q] == s && q.Has(v) {
      r := q;
    } else {
      SubFacts(g, q, elements, up, tree, known);
      SubNotIp(g, q, elements, up, tree, known);
      r := LeadsReachable(g, P.SubOf(g.sub, q), Width(q), elements, up, tree, known, v, s);
    }
  }

  lemma SubNotIp<S(!new)>(g: Groups, u: Range, elements: seq<Range>, up: map<Range, Range>,
                          tree: map<Range, S>, known: set<Range>)
    requires Grouping(g, elements, up, tree, known)
    ensures PRT_IP !in P.SubOf(g.sub, u)
  {
    assert SubList(P.SubOf(g.sub, u), u, elements, up, tree, known);
  }

  // ------------------------------------------------- exactly when a protocol gets lost

  /** The relation of the current set, and the one of the nodes generated for it. */
  ghost predicate SetLeads<S>(tree: map<Range, S>, v: int, s: S) {
    exists r :: r in tree && r.Has(v) && tree[r] == s
  }

  ghost predicate NodesLead<S>(up: map<Range, Range>, tree: map<Range, S>, known: set<Range>, v: int, s: S)
    requires Input(up, tree, known)
  {
    exists r :: r in tree && r.Has(v) && tree[r] == s && Reachable(r, up, tree, known)
  }

  /** Everything inside a protocol without node has no node either. */
  lemma {:induction false} InsideUnreachable<S(!new)>(q: Range, r: Range, up: map<Range, Range>, tree: map<Range, S>,
                                                      known: set<Range>)
    requires Input(up, tree, known) && q in tree && r in tree && P.Inside(q, r)
    requires !Reachable(r, up, tree, known)
    ensures !Reachable(q, up, tree, known)
    decreases PRT_IP.high - Width(q)
  {
    if q != r {
      match Outer(q, up, tree, known)
      case None =>
      case Some(u) => InsideUnreachable(u, r, up, tree, known);
    }
  }

  /** The generated nodes mean the same as the set of protocols if and only if
      every ignored protocol has the subtree of a larger one with node. */
  lemma LostIff<S(!new)>(up: map<Range, Range>, tree: map<Range, S>, known: set<Range>)
    requires Input(up, tree, known)
    ensures (forall v, s :: SetLeads(tree, v, s) <==> NodesLead(up, tree, known, v, s)) <==>
            NothingLost(up, tree, known)
  {
    if NothingLost(up, tree, known) {
      forall v, s | SetLeads(tree, v, s)
        ensures NodesLead(up, tree, known, v, s)
      {
        var r :| r in tree && r.Has(v) && tree[r] == s;
        if !Reachable(r, up, tree, known) {
          var u :| u in tree && P.Inside(r, u) && tree[u] == tree[r] && Reachable(u, up, tree, known);
        }
      }
    }
    if forall v, s :: SetLeads(tree, v, s) <==> NodesLead(up, tree, known, v, s) {
      forall r | r in tree && !Reachable(r, up, tree, known)
        ensures exists u :: u in tree && P.Inside(r, u) && tree[u] == tree[r] && Reachable(u, up, tree, known)
      {
        assert KindOf(r) != Unknown && r.Has(r.low);
        assert SetLeads(tree, r.low, tree[r]);
        assert NodesLead(up, tree, known, r.low, tree[r]);
        var u :| u in tree && u.Has(r.low) && tree[u] == tree[r] && Reachable(u, up, tree, known);
        if P.Inside(u, r) {
          InsideUnreachable(u, r, up, tree, known);
        }
      }
    }
  }

  /** A protocol does get lost: 'tcp 85' has its own subtree, but the tree for
      tcp, tcp 80-90 and tcp 85 has no node for it, because the next larger
      protocol tcp 80-90 has been ignored for having the subtree of tcp. */
  lemma ProtocolGetsLost()
    ensures var tcp, ports, port := Range(TCP_BASE + 1, TCP_BASE + 65535), Range(TCP_BASE + 80, TCP_BASE + 90),
                                    Range(TCP_BASE + 85, TCP_BASE + 85);
            var up := map[tcp := PRT_IP, ports := tcp, port := ports];
            var tree := map[tcp := 1, ports := 1, port := 2];
            var known := {PRT_IP, tcp, ports, port};
            && Input(up, tree, known)
            && SetLeads(tree, TCP_BASE + 85, 2)
            && !NodesLead(up, tree, known, TCP_BASE + 85, 2)
  {
    var tcp, ports, port := Range(TCP_BASE + 1, TCP_BASE + 65535), Range(TCP_BASE + 80, TCP_BASE + 90),
                            Range(TCP_BASE + 85, TCP_BASE + 85);
    var up := map[tcp := PRT_IP, ports := tcp, port := ports];
    var tree := map[tcp := 1, ports := 1, port := 2];
    var known := {PRT_IP, tcp, ports, port};
    assert Input(up, tree, known);
    hide UpRelation;
    assert tree[port] == 2 && port.Has(TCP_BASE + 85);
    assert Outer(ports, up, tree, known) == Some(tcp);
    assert Outer(port, up, tree, known) == Some(ports);
    hide Outer;
    assert !Reachable(ports, up, tree, known);
    assert !Reachable(port, up, tree, known);
  }
}
