/** The complete tree for a set of protocols (`genprtBintree` in
    go/cmd/spoc2/main.go): port trees for tcp and udp, single nodes for numeric
    protocols, and a root above them.
  */
module ProtocolTree {
  import opened Wrappers
  import opened Iptables
  import opened Prefixes
  import opened ChainCompiler
  import opened BintreeViews
  import opened RuleTrees
  import A = AddrBintree
  import P = PrtBintree
  import G = GenprtBintree
  import PortNames
  import Sorting

  // ---------------------------------------------------- root of the protocol trees

  /** One of the protocols of `list` has the packet and leads to a subtree that
      has it, too. */
  ghost predicate AnyElement(tree: map<Range, Tree>, list: set<Range>, d: nat, order: Order, p: Packet, deny: bool)
    requires d < 4
  {
    exists r :: r in list && r in tree && r.Has(p.Get(order[d])) && SubtreeHits(tree[r], d, order, p, deny)
  }

  /** The protocols of a kind for which a node is generated. */
  ghost function NodesOf(kind: G.Kind, env: Env, tree: map<Range, Tree>): set<Range>
    requires G.Input(env.up, tree, env.known)
  {
    set r | r in tree && G.KindOf(r) == kind && G.Reachable(r, env.up, tree, env.known)
  }

  lemma NodeIsLed(g: G.Groups, list: seq<Range>, kind: G.Kind, elements: seq<Range>, env: Env,
                  tree: map<Range, Tree>, r: Range, v: int)
    requires G.Grouping(g, elements, env.up, tree, env.known) && kind != G.Ip
    requires G.TopList(list, kind, elements, env.up, tree, env.known)
    requires r in NodesOf(kind, env, tree) && r.Has(v)
    ensures P.Forest(list, g.sub, tree, G.ALL) && P.ForestLeads(list, g.sub, tree, G.ALL, v, tree[r])
  {
    hide P.Forest, P.ForestLeads, G.TopList, G.Reachable, G.UpRelation, G.Groups.Holds, G.Outer;
    NodeHasPort(kind, env, tree, r);
    G.SubForest(g, r, elements, env.up, tree, env.known);
    assert P.RangeLeads(r, g.sub, tree, G.ALL, v, tree[r]);
    assert G.LeadsFrom(g, r, tree, v, tree[r]);
    G.ReachableLeads(g, r, list, elements, env.up, tree, env.known, v, tree[r]);
  }

  lemma LedIsNode(g: G.Groups, list: seq<Range>, kind: G.Kind, elements: seq<Range>, env: Env,
                  tree: map<Range, Tree>, v: int, s: Tree) returns (r: Range)
    requires G.Grouping(g, elements, env.up, tree, env.known) && kind != G.Ip
    requires G.TopList(list, kind, elements, env.up, tree, env.known)
    requires P.Forest(list, g.sub, tree, G.ALL) && P.ForestLeads(list, g.sub, tree, G.ALL, v, s)
    ensures r in NodesOf(kind, env, tree) && r.Has(v) && tree[r] == s
  {
    hide P.Forest, P.ForestLeads, G.TopList, G.Reachable;
    G.TopFacts(list, kind, elements, env.up, tree, env.known);
    r := G.LeadsReachable(g, list, G.ALL, elements, env.up, tree, env.known, v, s);
    assert r in env.known && G.KindOf(r) != G.Unknown;
    assert G.KindOf(r) == kind;
  }

  lemma TopLeads(g: G.Groups, list: seq<Range>, kind: G.Kind, elements: seq<Range>, env: Env,
                 tree: map<Range, Tree>, d: nat, order: Order, p: Packet, deny: bool)
    requires G.Grouping(g, elements, env.up, tree, env.known) && d < 4 && kind != G.Ip
    requires G.TopList(list, kind, elements, env.up, tree, env.known)
    ensures P.Forest(list, g.sub, tree, G.ALL)
    ensures AnyElement(tree, NodesOf(kind, env, tree), d, order, p, deny) <==>
            exists s :: P.ForestLeads(list, g.sub, tree, G.ALL, p.Get(order[d]), s) && SubtreeHits(s, d, order, p, deny)
  {
    hide SubtreeHits, P.Forest, P.ForestLeads, G.TopList, G.UpRelation, NodesOf, G.Groups.Holds;
    var v := p.Get(order[d]);
    G.TopForest(g, list, kind, elements, env.up, tree, env.known);
    if r :| r in NodesOf(kind, env, tree) && r in tree && r.Has(v) && SubtreeHits(tree[r], d, order, p, deny) {
      NodeIsLed(g, list, kind, elements, env, tree, r, v);
    }
    if s :| P.ForestLeads(list, g.sub, tree, G.ALL, v, s) && SubtreeHits(s, d, order, p, deny) {
      var r := LedIsNode(g, list, kind, elements, env, tree, v, s);
      NodeInTree(kind, env, tree, r);
    }
  }

  lemma NodeInTree(kind: G.Kind, env: Env, tree: map<Range, Tree>, r: Range)
    requires G.Input(env.up, tree, env.known) && r in NodesOf(kind, env, tree)
    ensures r in tree
  {}

  /** The part of the port numbering that belongs to a kind of protocol. */
  function Block(kind: G.Kind): Range {
    match kind
    case Tcp => Range(G.TCP_BASE, G.UDP_BASE - 1)
    case Udp => Range(G.UDP_BASE, G.PROTO_BASE - 1)
    case _ => G.PRT_IP
  }

  lemma SpanInBlock(list: seq<Range>, kind: G.Kind, elements: seq<Range>, env: Env,
                    tree: map<Range, Tree>, t: P.PrtTree<Tree>)
    requires G.Input(env.up, tree, env.known) && forall r :: r in elements ==> r in tree
    requires G.TopList(list, kind, elements, env.up, tree, env.known)
    requires kind == G.Tcp || kind == G.Udp
    requires t.Node? && P.Shape(t) && P.Spans(t.range.low, t.range.high, list)
    ensures t.range.low <= t.range.high && P.Inside(t.range, Block(kind))
  {
    hide G.UpRelation, G.TopList, G.Reachable;
    G.TopFacts(list, kind, elements, env.up, tree, env.known);
    assert forall r :: r in list ==> P.Inside(r, Block(kind));
  }

  /** The tree for one of the lists of top protocols. */
  method TopTree(g: G.Groups, list: seq<Range>, ghost kind: G.Kind, ghost elements: seq<Range>, ghost env: Env,
                 tree: map<Range, Tree>, id: nat, ghost d: nat, ghost order: Order, ghost deny: bool)
    returns (t: Tree)
    requires G.Grouping(g, elements, env.up, tree, env.known)
    requires G.TopList(list, kind, elements, env.up, tree, env.known) && list != [] && (kind == G.Tcp || kind == G.Udp)
    requires d < 4 && forall r :: r in tree ==> WellFormed(tree[r], d + 1, deny)
    ensures t.Node? && t.id == id && !t.noop && WellFormed(t, d, deny)
    ensures t.range.low <= t.range.high && P.Inside(t.range, Block(kind))
    ensures forall p :: TreeHits(t, d, order, p, deny) <==>
              AnyElement(tree, NodesOf(kind, env, tree), d, order, p, deny)
  {
    hide SubtreeHits, P.Forest, P.ForestLeads, P.Shape, G.UpRelation, G.TopList, WellFormed, TreeHits, NodesOf;
    G.TopForest(g, list, kind, elements, env.up, tree, env.known);
    var ranges := P.GenRangetree(list, g.sub, tree, G.ALL);
    t := PrtView(ranges, id);
    SpanInBlock(list, kind, elements, env, tree, ranges);
    forall v, s | P.Leads(ranges, v, s)
      ensures WellFormed(s, d + 1, deny)
    {
      G.TopFacts(list, kind, elements, env.up, tree, env.known);
      var r := G.LeadsReachable(g, list, G.ALL, elements, env.up, tree, env.known, v, s);
    }
    PrtSubtreesOf(ranges, d, deny);
    forall p
      ensures WellFormed(t, d, deny)
      ensures TreeHits(t, d, order, p, deny) <==>
              AnyElement(tree, NodesOf(kind, env, tree), d, order, p, deny)
    {
      TopLeads(g, list, kind, elements, env, tree, d, order, p, deny);
      PrtViewHits(ranges, id, d, order, p, deny);
    }
    PrtViewHits(ranges, id, d, order, Packet(0, 0, 0, 0), deny);
  }

  // --------------------------------------------------- sequence of protocol trees

  /** Trees for disjoint parts of the port numbering below `bound`, none of them `noop`. */
  ghost predicate Disjoint(kids: seq<Tree>, bound: int, id: nat, d: nat, deny: bool) {
    && (forall i :: 0 <= i < |kids| ==>
          && kids[i].Node? && kids[i].id == id && !kids[i].noop && WellFormed(kids[i], d, deny)
          && G.TCP_BASE <= kids[i].range.low <= kids[i].range.high < bound)
    && (forall i, j :: 0 <= i < j < |kids| ==> P.Disjoint(kids[i].range, kids[j].range))
  }

  lemma DisjointMono(kids: seq<Tree>, bound: int, more: int, id: nat, d: nat, deny: bool)
    requires Disjoint(kids, bound, id, d, deny) && bound <= more
    ensures Disjoint(kids, more, id, d, deny)
  {}

  lemma DisjointEmpty(id: nat, d: nat, order: Order, deny: bool)
    ensures Disjoint([], 0, id, d, deny)
    ensures forall p :: !SomeHits([], d, order, p, deny)
  {}

  lemma DisjointAppend(kids: seq<Tree>, bound: int, t: Tree, more: int, id: nat, d: nat, order: Order, deny: bool)
    requires Disjoint(kids, bound, id, d, deny) && t.Node? && t.id == id && !t.noop && WellFormed(t, d, deny)
    requires bound <= more && G.TCP_BASE <= t.range.low <= t.range.high < more
    requires forall i :: 0 <= i < |kids| ==> P.Disjoint(kids[i].range, t.range)
    ensures Disjoint(kids + [t], more, id, d, deny)
    ensures forall p :: SomeHits(kids + [t], d, order, p, deny) <==>
              SomeHits(kids, d, order, p, deny) || TreeHits(t, d, order, p, deny)
  {
    hide WellFormed, TreeHits;
    var all := kids + [t];
    assert Disjoint(all, more, id, d, deny);
    forall p
      ensures SomeHits(all, d, order, p, deny) <==> SomeHits(kids, d, order, p, deny) || TreeHits(t, d, order, p, deny)
    {
      SomeHitsStep(all, |kids|, d, order, p, deny);
      assert all[..|kids|] == kids && all[..|kids| + 1] == all && all[|kids|] == t;
    }
  }

  /** A tree behind all others is disjoint from them. */
  lemma BehindAppend(kids: seq<Tree>, bound: int, t: Tree, more: int, id: nat, d: nat, order: Order, deny: bool)
    requires Disjoint(kids, bound, id, d, deny) && t.Node? && t.id == id && !t.noop && WellFormed(t, d, deny)
    requires bound <= t.range.low && G.TCP_BASE <= t.range.low <= t.range.high < more
    ensures Disjoint(kids + [t], more, id, d, deny)
    ensures forall p :: SomeHits(kids + [t], d, order, p, deny) <==>
              SomeHits(kids, d, order, p, deny) || TreeHits(t, d, order, p, deny)
  {
    hide WellFormed, TreeHits, SomeHits;
    DisjointAppend(kids, bound, t, more, id, d, order, deny);
  }

  /** The root above the trees of all protocols. */
  function PrtRoot(tree: map<Range, Tree>, kids: seq<Tree>, id: nat): Tree
    requires G.PRT_IP in tree || kids != []
  {
    if G.PRT_IP in tree then Node(id, G.PRT_IP, true, Some(tree[G.PRT_IP]), None, None, kids)
    else if |kids| > 1 then Node(id, G.PRT_IP, true, None, None, None, kids)
    else kids[0]
  }

  lemma PrtRootWellFormed(tree: map<Range, Tree>, kids: seq<Tree>, id: nat, d: nat, deny: bool)
    requires G.PRT_IP in tree || kids != []
    requires d < 4 && Disjoint(kids, G.ALL, id, d, deny) && forall r :: r in tree ==> WellFormed(tree[r], d + 1, deny)
    ensures var t := PrtRoot(tree, kids, id); t.Node? && t.id == id && WellFormed(t, d, deny)
  {
    var t := PrtRoot(tree, kids, id);
    if G.PRT_IP in tree || |kids| > 1 {
      assert t.Seq() == kids;
      forall i | 0 <= i < |kids|
        ensures Within(kids[i], t) && kids[i] < t
      {
        assert t.Seq()[i] == kids[i];
      }
    }
  }

  lemma PrtRootHits(tree: map<Range, Tree>, kids: seq<Tree>, id: nat, d: nat, order: Order, p: Packet, deny: bool)
    requires G.PRT_IP in tree || kids != []
    requires d < 4 && Disjoint(kids, G.ALL, id, d, deny) && forall r :: r in tree ==> WellFormed(tree[r], d + 1, deny)
    requires G.PRT_IP.Has(p.Get(order[d]))
    ensures var t := PrtRoot(tree, kids, id); t.Node? && t.id == id && WellFormed(t, d, deny)
    ensures TreeHits(PrtRoot(tree, kids, id), d, order, p, deny) <==>
            SomeHits(kids, d, order, p, deny) || AnyElement(tree, {G.PRT_IP}, d, order, p, deny)
  {
    hide WellFormed;
    PrtRootWellFormed(tree, kids, id, d, deny);
    var t := PrtRoot(tree, kids, id);
    if G.PRT_IP in tree || |kids| > 1 {
      assert t.Seq() == kids;
    } else {
      assert kids == [t];
    }
  }

  /** The node of a numeric protocol. */
  function ProtoNode(r: Range, tree: map<Range, Tree>, id: nat): Tree
    requires r in tree
  {
    Node(id, r, false, Some(tree[r]), None, None, [])
  }

  lemma ProtoNodeHits(r: Range, tree: map<Range, Tree>, id: nat, d: nat, order: Order, p: Packet, deny: bool)
    requires r in tree && d < 4 && WellFormed(tree[r], d + 1, deny)
    ensures WellFormed(ProtoNode(r, tree, id), d, deny)
    ensures TreeHits(ProtoNode(r, tree, id), d, order, p, deny) <==> AnyElement(tree, {r}, d, order, p, deny)
  {
    var t := ProtoNode(r, tree, id);
    assert t.Seq() == [];
    assert AnyElement(tree, {r}, d, order, p, deny) <==>
           r.Has(p.Get(order[d])) && SubtreeHits(tree[r], d, order, p, deny);
  }

  ghost function Elements(s: seq<Range>): set<Range> {
    set r | r in s
  }

  /** The name of a numeric protocol. */
  function NameOf(r: Range): string {
    if r.low < G.PROTO_BASE then "" else PortNames.Itoa(r.low - G.PROTO_BASE)
  }

  /** Numeric protocols are sorted by name. */
  function ByName(r: Range): (int, int) {
    (PortNames.TextKey(NameOf(r), 5), 0)
  }

  ghost predicate NamesOrdered(sorted: seq<Range>) {
    forall i, j :: 0 <= i < j < |sorted| ==> PortNames.TextBefore(NameOf(sorted[i]), NameOf(sorted[j]))
  }

  method SortProtos(protos: seq<Range>) returns (sorted: seq<Range>)
    requires Sorting.Distinct(protos) && forall r :: r in protos ==> G.KindOf(r) == G.Proto
    ensures Sorting.Distinct(sorted) && |sorted| == |protos| && (forall r :: r in sorted <==> r in protos)
    ensures NamesOrdered(sorted)
  {
    hide PortNames.TextKey;
    sorted := Sorting.Sort(protos, ByName);
    Sorting.SameElements(sorted, protos);
    Sorting.DistinctSame(sorted, protos);
    forall i, j | 0 <= i < j < |sorted|
      ensures PortNames.TextBefore(NameOf(sorted[i]), NameOf(sorted[j]))
    {
      assert sorted[i] in protos && sorted[j] in protos;
      PortNames.ItoaLength(sorted[i].low - G.PROTO_BASE);
      PortNames.ItoaLength(sorted[j].low - G.PROTO_BASE);
      PortNames.TextKeyOrder(NameOf(sorted[i]), NameOf(sorted[j]), 5);
      assert Sorting.Before(ByName(sorted[i]), ByName(sorted[j]));
    }
  }

  /** The nodes behind `kids0`, in the order of `sorted`. */
  ghost predicate NodesInOrder(kids: seq<Tree>, kids0: seq<Tree>, sorted: seq<Range>, n: nat)
    requires n <= |sorted|
  {
    && |kids| == |kids0| + n && kids[..|kids0|] == kids0
    && forall i :: 0 <= i < n ==> kids[|kids0| + i].Node? && kids[|kids0| + i].range == sorted[i]
  }

  /** Nodes for the numeric protocols, appended to `kids0`. */
  method AddProtos(kids0: seq<Tree>, protos: seq<Range>, tree: map<Range, Tree>, id: nat,
                   ghost d: nat, ghost order: Order, ghost deny: bool) returns (kids: seq<Tree>)
    requires d < 4 && Disjoint(kids0, G.PROTO_BASE, id, d, deny)
    requires forall r :: r in tree ==> WellFormed(tree[r], d + 1, deny)
    requires Sorting.Distinct(protos) && forall r :: r in protos ==> r in tree && G.KindOf(r) == G.Proto
    ensures Disjoint(kids, G.ALL, id, d, deny) && |kids| == |kids0| + |protos|
    ensures exists sorted :: (forall r :: r in sorted <==> r in protos) && NamesOrdered(sorted) &&
                             NodesInOrder(kids, kids0, sorted, |sorted|)
    ensures forall p :: SomeHits(kids, d, order, p, deny) <==>
              SomeHits(kids0, d, order, p, deny) || AnyElement(tree, Elements(protos), d, order, p, deny)
  {
    hide WellFormed, TreeHits, SubtreeHits, SomeHits, NamesOrdered, AnyElement;
    kids := kids0;
    var sorted := SortProtos(protos);
    AnyNone(tree, d, order, Packet(0, 0, 0, 0), deny);
    DisjointMono(kids0, G.PROTO_BASE, G.ALL, id, d, deny);
    NoElements(tree, d, order, deny);
    var i := 0;
    while i < |sorted|
      invariant 0 <= i <= |sorted|
      invariant Disjoint(kids, G.ALL, id, d, deny) && NodesInOrder(kids, kids0, sorted, i)
      invariant forall p :: SomeHits(kids, d, order, p, deny) <==>
                  SomeHits(kids0, d, order, p, deny) || AnyElement(tree, Elements(sorted[..i]), d, order, p, deny)
    {
      var r := sorted[i];
      OneMore(sorted, i, tree, d, order, deny);
      forall p
        ensures WellFormed(ProtoNode(r, tree, id), d, deny)
        ensures TreeHits(ProtoNode(r, tree, id), d, order, p, deny) <==> AnyElement(tree, {r}, d, order, p, deny)
      {
        ProtoNodeHits(r, tree, id, d, order, p, deny);
      }
      ProtoNodeHits(r, tree, id, d, order, Packet(0, 0, 0, 0), deny);
      NewProto(kids, kids0, sorted, i, id, d, deny);
      DisjointAppend(kids, G.ALL, ProtoNode(r, tree, id), G.ALL, id, d, order, deny);
      kids := kids + [ProtoNode(r, tree, id)];
      i := i + 1;
    }
    assert sorted[..i] == sorted;
    assert Elements(sorted) == Elements(protos);
  }

  lemma NoElements(tree: map<Range, Tree>, d: nat, order: Order, deny: bool)
    requires d < 4
    ensures forall p, s: seq<Range> :: !AnyElement(tree, Elements(s[..0]), d, order, p, deny)
  {
    hide SubtreeHits;
  }

  lemma OneMore(sorted: seq<Range>, i: nat, tree: map<Range, Tree>, d: nat, order: Order, deny: bool)
    requires d < 4 && i < |sorted|
    ensures forall p :: AnyElement(tree, Elements(sorted[..i + 1]), d, order, p, deny) <==>
              AnyElement(tree, Elements(sorted[..i]), d, order, p, deny) ||
              AnyElement(tree, {sorted[i]}, d, order, p, deny)
  {
    hide AnyElement;
    assert sorted[..i + 1] == sorted[..i] + [sorted[i]];
    assert Elements(sorted[..i + 1]) == Elements(sorted[..i]) + {sorted[i]};
    forall p
      ensures AnyElement(tree, Elements(sorted[..i + 1]), d, order, p, deny) <==>
              AnyElement(tree, Elements(sorted[..i]), d, order, p, deny) ||
              AnyElement(tree, {sorted[i]}, d, order, p, deny)
    {
      AnyUnion(tree, Elements(sorted[..i]), {sorted[i]}, d, order, p, deny);
    }
  }

  /** The node of another numeric protocol is disjoint from all nodes in front of it. */
  lemma NewProto(kids: seq<Tree>, kids0: seq<Tree>, sorted: seq<Range>, i: nat, id: nat, d: nat, deny: bool)
    requires Disjoint(kids0, G.PROTO_BASE, id, d, deny) && i < |sorted| && NodesInOrder(kids, kids0, sorted, i)
    requires Sorting.Distinct(sorted) && forall r :: r in sorted ==> G.KindOf(r) == G.Proto
    ensures forall k :: 0 <= k < |kids| ==> kids[k].Node? && P.Disjoint(kids[k].range, sorted[i])
    ensures G.TCP_BASE <= sorted[i].low <= sorted[i].high < G.ALL
  {
    hide WellFormed;
    assert sorted[i] in sorted;
    forall k | 0 <= k < |kids|
      ensures kids[k].Node? && P.Disjoint(kids[k].range, sorted[i])
    {
      if k < |kids0| {
        assert kids[k] == kids0[k];
      } else {
        var j := k - |kids0|;
        assert kids[|kids0| + j].Node? && kids[|kids0| + j].range == sorted[j] && sorted[j] in sorted;
      }
    }
  }

  lemma AnyUnion(tree: map<Range, Tree>, a: set<Range>, b: set<Range>, d: nat, order: Order, p: Packet, deny: bool)
    requires d < 4
    ensures AnyElement(tree, a + b, d, order, p, deny) <==>
            AnyElement(tree, a, d, order, p, deny) || AnyElement(tree, b, d, order, p, deny)
  {
    hide SubtreeHits;
    if r :| r in a + b && r in tree && r.Has(p.Get(order[d])) && SubtreeHits(tree[r], d, order, p, deny) {
      assert r in a || r in b;
    }
  }

  // ------------------------------------------------------------ all protocols at once

  ghost function AllNodes(env: Env, tree: map<Range, Tree>): set<Range>
    requires G.Input(env.up, tree, env.known)
  {
    set r | r in tree && G.Reachable(r, env.up, tree, env.known)
  }

  lemma {:induction false} SomeTop(r: Range, env: Env, tree: map<Range, Tree>) returns (t: Range)
    requires G.Input(env.up, tree, env.known) && r in tree && r != G.PRT_IP
    ensures t in tree && G.IsTop(t, env.up, tree, env.known)
    decreases G.PRT_IP.high - G.Width(r)
  {
    match G.Outer(r, env.up, tree, env.known)
    case None => t := r;
    case Some(u) =>
      assert G.KindOf(u) != G.Unknown;
      t := SomeTop(u, env, tree);
  }

  lemma ProtosAreTop(g: G.Groups, elements: seq<Range>, env: Env, tree: map<Range, Tree>, r: Range)
    requires G.Grouping(g, elements, env.up, tree, env.known) && r in tree && G.KindOf(r) == G.Proto
    ensures r in g.protos && G.Reachable(r, env.up, tree, env.known)
  {
    var o := G.Outer(r, env.up, tree, env.known);
    assert o.Some? ==> G.KindOf(o.value) != G.Unknown;
  }

  lemma NoListNoNodes(g: G.Groups, list: seq<Range>, kind: G.Kind, elements: seq<Range>, env: Env,
                      tree: map<Range, Tree>)
    requires G.Grouping(g, elements, env.up, tree, env.known) && kind != G.Ip
    requires G.TopList(list, kind, elements, env.up, tree, env.known) && list == []
    ensures NodesOf(kind, env, tree) == {}
  {
    hide NodesOf, G.UpRelation;
    if r :| r in NodesOf(kind, env, tree) {
      NodeHasPort(kind, env, tree, r);
      NodeIsLed(g, list, kind, elements, env, tree, r, r.low);
    }
  }

  lemma NodeHasPort(kind: G.Kind, env: Env, tree: map<Range, Tree>, r: Range)
    requires G.Input(env.up, tree, env.known) && r in NodesOf(kind, env, tree)
    ensures r.Has(r.low) && 0 <= G.Width(r) < G.ALL && r in env.known
  {
    assert r in env.known && G.KindOf(r) != G.Unknown;
  }

  /** The lists of top protocols cover all nodes. */
  lemma NodesSplit(g: G.Groups, elements: seq<Range>, env: Env, tree: map<Range, Tree>)
    requires G.Grouping(g, elements, env.up, tree, env.known)
    ensures AllNodes(env, tree) == NodesOf(G.Tcp, env, tree) + NodesOf(G.Udp, env, tree) + Elements(g.protos) +
                                   (if G.PRT_IP in tree then {G.PRT_IP} else {})
  {
    hide G.Outer, G.Reachable, G.UpRelation, G.Groups.Holds;
    forall r | r in tree && G.KindOf(r) == G.Proto
      ensures r in g.protos && G.Reachable(r, env.up, tree, env.known)
    {
      ProtosAreTop(g, elements, env, tree, r);
    }
    forall r | r in tree
      ensures G.KindOf(r) != G.Unknown
      ensures r == G.PRT_IP ==> G.Reachable(r, env.up, tree, env.known)
    {
      KindKnown(env, tree, r);
    }
    ProtosKind(g, elements, env, tree);
  }

  lemma KindKnown(env: Env, tree: map<Range, Tree>, r: Range)
    requires G.Input(env.up, tree, env.known) && r in tree
    ensures G.KindOf(r) != G.Unknown
    ensures r == G.PRT_IP ==> G.Reachable(r, env.up, tree, env.known)
  {}

  lemma ProtosKind(g: G.Groups, elements: seq<Range>, env: Env, tree: map<Range, Tree>)
    requires G.Grouping(g, elements, env.up, tree, env.known)
    ensures forall r :: r in g.protos ==> r in tree && G.KindOf(r) == G.Proto
  {}

  /** Some list has an element, and a kind without top protocols has no nodes. */
  lemma SomeList(g: G.Groups, elements: seq<Range>, env: Env, tree: map<Range, Tree>)
    requires G.Grouping(g, elements, env.up, tree, env.known)
    ensures g.tcp == [] ==> NodesOf(G.Tcp, env, tree) == {}
    ensures g.udp == [] ==> NodesOf(G.Udp, env, tree) == {}
    ensures elements != [] && G.PRT_IP !in tree ==> g.tcp != [] || g.udp != [] || g.protos != []
  {
    hide G.Outer, NodesOf;
    if g.tcp == [] {
      NoListNoNodes(g, g.tcp, G.Tcp, elements, env, tree);
    }
    if g.udp == [] {
      NoListNoNodes(g, g.udp, G.Udp, elements, env, tree);
    }
    if elements != [] && G.PRT_IP !in tree {
      assert elements[0] in elements;
      var t := SomeTop(elements[0], env, tree);
      KindKnown(env, tree, t);
    }
  }

  /** `genprtBintree`: the tree has a packet exactly if a protocol that gets a
      node has it and leads to a subtree that has it. */
  method GenprtBintree(elements: seq<Range>, env: Env, tree: map<Range, Tree>, id: nat,
                       ghost d: nat, ghost order: Order, ghost deny: bool) returns (bintree: Tree)
    requires G.Input(env.up, tree, env.known) && elements != [] && Sorting.Distinct(elements)
    requires forall r :: r in elements <==> r in tree
    requires d < 4 && forall r :: r in tree ==> WellFormed(tree[r], d + 1, deny)
    ensures bintree.Node? && bintree.id == id && WellFormed(bintree, d, deny)
    ensures bintree.noop <==> bintree.range == G.PRT_IP
    ensures G.PRT_IP in tree ==> bintree.noop && bintree.subtree == Some(tree[G.PRT_IP])
    ensures G.PRT_IP !in tree && bintree.noop ==> bintree.subtree.None? && |bintree.subnodes| > 1
    ensures forall p: Packet :: G.PRT_IP.Has(p.Get(order[d])) ==>
              (TreeHits(bintree, d, order, p, deny) <==> AnyElement(tree, AllNodes(env, tree), d, order, p, deny))
  {
    hide WellFormed, TreeHits, SubtreeHits, G.UpRelation, G.TopList, NodesOf, AllNodes, SomeHits, AnyElement, Disjoint;
    var g := G.GroupProtocols(elements, env.up, tree, env.known);
    NodesSplit(g, elements, env, tree);
    SomeList(g, elements, env, tree);
    DisjointEmpty(id, d, order, deny);
    var kids := [];
    if g.tcp != [] {
      var t := TopTree(g, g.tcp, G.Tcp, elements, env, tree, id, d, order, deny);
      BehindAppend(kids, 0, t, G.UDP_BASE, id, d, order, deny);
      kids := kids + [t];
    } else {
      DisjointMono(kids, 0, G.UDP_BASE, id, d, deny);
    }
    if g.udp != [] {
      var t := TopTree(g, g.udp, G.Udp, elements, env, tree, id, d, order, deny);
      BehindAppend(kids, G.UDP_BASE, t, G.PROTO_BASE, id, d, order, deny);
      kids := kids + [t];
    } else {
      DisjointMono(kids, G.UDP_BASE, G.PROTO_BASE, id, d, deny);
    }
    G.TopFacts(g.protos, G.Proto, elements, env.up, tree, env.known);
    kids := AddProtos(kids, g.protos, tree, id, d, order, deny);
    bintree := PrtRoot(tree, kids, id);
    ghost var tcp, udp, ip := NodesOf(G.Tcp, env, tree), NodesOf(G.Udp, env, tree), {G.PRT_IP};
    forall p: Packet | G.PRT_IP.Has(p.Get(order[d]))
      ensures WellFormed(bintree, d, deny)
      ensures TreeHits(bintree, d, order, p, deny) <==> AnyElement(tree, AllNodes(env, tree), d, order, p, deny)
    {
      PrtRootHits(tree, kids, id, d, order, p, deny);
      AnyNone(tree, d, order, p, deny);
      AnyUnion(tree, tcp, udp, d, order, p, deny);
      AnyUnion(tree, tcp + udp, Elements(g.protos), d, order, p, deny);
      AnyUnion(tree, tcp + udp + Elements(g.protos), if G.PRT_IP in tree then ip else {}, d, order, p, deny);
    }
    PrtRootWellFormed(tree, kids, id, d, deny);
    RootIsIP(tree, kids, id, d, deny);
  }

  /** Only the root for several protocols, or for 'ip' itself, needs no test. */
  lemma RootIsIP(tree: map<Range, Tree>, kids: seq<Tree>, id: nat, d: nat, deny: bool)
    requires (G.PRT_IP in tree || kids != []) && Disjoint(kids, G.ALL, id, d, deny)
    ensures var t := PrtRoot(tree, kids, id);
            && t.Node? && (t.noop <==> t.range == G.PRT_IP)
            && (G.PRT_IP in tree ==> t.noop && t.subtree == Some(tree[G.PRT_IP]))
            && (G.PRT_IP !in tree && t.noop ==> t.subtree.None? && |t.subnodes| > 1)
  {
    hide WellFormed;
  }

  lemma AnyNone(tree: map<Range, Tree>, d: nat, order: Order, p: Packet, deny: bool)
    requires d < 4
    ensures !AnyElement(tree, {}, d, order, p, deny)
    ensures G.PRT_IP !in tree ==> !AnyElement(tree, {G.PRT_IP}, d, order, p, deny)
  {}
}
