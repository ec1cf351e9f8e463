/** Search for all paths through a cluster of loops (`clusterPathMark1` in
    go/pkg/pass1/path-walk.go).

    Routers and zones are connected by interfaces.  A path must not visit a node
    twice and must not cross a path restriction twice; both are found by marks
    that are set and cleared around the recursion.
  */
module PathWalk {
  import opened Wrappers

  datatype Node = Router(id: nat) | Zone(id: nat)

  datatype Intf = Intf(id: nat, router: nat, zone: nat, loop: Option<nat>, pathRestrict: seq<nat>) {
    function Restricts(): set<nat> {
      set r | r in pathRestrict
    }
  }

  /** The interfaces and the loop of each node, and for each loop the loops that
      may be entered next. */
  datatype Topology = Topology(intfList: map<Node, seq<Intf>>, loop: map<Node, nat>, navi: map<nat, set<nat>>) {
    /** Every node behind an interface of a node is known. */
    ghost predicate Closed() {
      && loop.Keys == intfList.Keys
      && forall n, i :: n in intfList && i in intfList[n] ==> Next(n, i) in intfList
    }

    /** `getNext` */
    function Next(obj: Node, intf: Intf): Node {
      if obj.Router? then Zone(intf.zone) else Router(intf.router)
    }

    predicate Allowed(obj: Node, intf: Intf)
      requires obj in loop
    {
      intf.loop.Some? && loop[obj] in navi && intf.loop.value in navi[loop[obj]]
    }

    /** The path may leave node `obj`, entered at `inIntf`, through `intf`. */
    predicate Leaves(obj: Node, inIntf: Intf, intf: Intf)
      requires obj in loop && obj in intfList
    {
      intf in intfList[obj] && Allowed(obj, intf) && intf != inIntf
    }
  }

  // ------------------------------------------------------------------------- paths

  /** `p` are the interfaces of a path from `obj`, entered at `inIntf`, to `end`,
      that avoids the given nodes and path restrictions. */
  ghost predicate IsPath(t: Topology, obj: Node, inIntf: Intf, end: Node, p: seq<Intf>,
                         nodes: set<Node>, restricts: set<nat>)
    decreases |p|
  {
    && inIntf.Restricts() !! restricts && obj !in nodes
    && if obj == end then p == []
       else
         && p != [] && obj in t.loop && obj in t.intfList && t.Leaves(obj, inIntf, p[0])
         && IsPath(t, t.Next(obj, p[0]), p[0], end, p[1..], nodes + {obj}, restricts + inIntf.Restricts())
  }

  /** The node reached behind the first `k` interfaces: an interface leads from its router
      to its zone and back. */
  ghost function NodeAt(t: Topology, obj: Node, p: seq<Intf>, k: nat): Node
    requires k <= |p|
    decreases k
  {
    if k == 0 then obj
    else NodeAt(t, if obj.Router? then Zone(p[0].zone) else Router(p[0].router), p[1..], k - 1)
  }

  function IntfAt(inIntf: Intf, p: seq<Intf>, k: nat): Intf
    requires k <= |p|
  {
    if k == 0 then inIntf else p[k - 1]
  }

  /** The `k`-th step of a path leads on from a node which is not yet the end, through
      another interface of this node that belongs to a loop which may be entered next. */
  ghost predicate StepOk(t: Topology, obj: Node, inIntf: Intf, end: Node, p: seq<Intf>, k: nat)
    requires k < |p|
  {
    var n := NodeAt(t, obj, p, k);
    && n != end && n in t.loop && n in t.intfList
    && p[k] in t.intfList[n] && p[k] != IntfAt(inIntf, p, k)
    && p[k].loop.Some? && t.loop[n] in t.navi && p[k].loop.value in t.navi[t.loop[n]]
  }

  /** Neither the `k`-th node nor a restriction of its interface is marked. */
  ghost predicate Unmarked(t: Topology, obj: Node, inIntf: Intf, p: seq<Intf>, k: nat, nodes: set<Node>,
                           restricts: set<nat>)
    requires k <= |p|
  {
    NodeAt(t, obj, p, k) !in nodes && forall r :: r in IntfAt(inIntf, p, k).pathRestrict ==> r !in restricts
  }

  /** Two positions of a path share neither node nor restriction. */
  ghost predicate Apart(t: Topology, obj: Node, inIntf: Intf, p: seq<Intf>, j: nat, k: nat)
    requires j <= |p| && k <= |p|
  {
    && NodeAt(t, obj, p, j) != NodeAt(t, obj, p, k)
    && forall r :: r in IntfAt(inIntf, p, j).pathRestrict ==> r !in IntfAt(inIntf, p, k).pathRestrict
  }

  /** A path, stated for the whole sequence: each interface leads on from the node
      reached so far, only the last node is `end`, no node is visited twice, no
      path restriction is crossed at two interfaces, and marked ones not at all. */
  ghost predicate SimplePath(t: Topology, obj: Node, inIntf: Intf, end: Node, p: seq<Intf>,
                             nodes: set<Node>, restricts: set<nat>)
  {
    && NodeAt(t, obj, p, |p|) == end
    && (forall k :: 0 <= k < |p| ==> StepOk(t, obj, inIntf, end, p, k))
    && (forall k :: 0 <= k <= |p| ==> Unmarked(t, obj, inIntf, p, k, nodes, restricts))
    && (forall j, k :: 0 <= j < k <= |p| ==> Apart(t, obj, inIntf, p, j, k))
  }

  lemma ShiftPath(t: Topology, obj: Node, inIntf: Intf, p: seq<Intf>, k: nat)
    requires p != [] && k <= |p| - 1
    ensures NodeAt(t, obj, p, k + 1) == NodeAt(t, t.Next(obj, p[0]), p[1..], k)
    ensures IntfAt(inIntf, p, k + 1) == IntfAt(p[0], p[1..], k)
  {}

  /** Following the marks step by step gives exactly the simple paths. */
  lemma {:induction false} PathIsSimple(t: Topology, obj: Node, inIntf: Intf, end: Node, p: seq<Intf>,
                                        nodes: set<Node>, restricts: set<nat>)
    ensures IsPath(t, obj, inIntf, end, p, nodes, restricts) <==>
            SimplePath(t, obj, inIntf, end, p, nodes, restricts)
    decreases |p|
  {
    if p == [] {
      assert NodeAt(t, obj, p, 0) == obj && IntfAt(inIntf, p, 0) == inIntf;
      assert SimplePath(t, obj, inIntf, end, p, nodes, restricts) ==> Unmarked(t, obj, inIntf, p, 0, nodes, restricts);
    } else {
      hide SimplePath;
      PathIsSimple(t, t.Next(obj, p[0]), p[0], end, p[1..], nodes + {obj}, restricts + inIntf.Restricts());
      if SimplePath(t, obj, inIntf, end, p, nodes, restricts) {
        SimpleRest(t, obj, inIntf, end, p, nodes, restricts);
      }
      if IsPath(t, obj, inIntf, end, p, nodes, restricts) {
        SimpleExtend(t, obj, inIntf, end, p, nodes, restricts);
      }
    }
  }

  lemma SimpleRest(t: Topology, obj: Node, inIntf: Intf, end: Node, p: seq<Intf>, nodes: set<Node>, restricts: set<nat>)
    requires p != [] && SimplePath(t, obj, inIntf, end, p, nodes, restricts)
    ensures inIntf.Restricts() !! restricts && obj !in nodes && obj != end
    ensures obj in t.loop && obj in t.intfList && t.Leaves(obj, inIntf, p[0])
    ensures SimplePath(t, t.Next(obj, p[0]), p[0], end, p[1..], nodes + {obj}, restricts + inIntf.Restricts())
  {
    hide NodeAt, IntfAt;
    var next, rest := t.Next(obj, p[0]), p[1..];
    Start(t, obj, inIntf, p);
    assert StepOk(t, obj, inIntf, end, p, 0) && Unmarked(t, obj, inIntf, p, 0, nodes, restricts);
    forall k | 0 <= k <= |rest|
      ensures Unmarked(t, next, p[0], rest, k, nodes + {obj}, restricts + inIntf.Restricts())
      ensures k < |rest| ==> StepOk(t, next, p[0], end, rest, k)
    {
      ShiftPath(t, obj, inIntf, p, k);
      assert Unmarked(t, obj, inIntf, p, k + 1, nodes, restricts) && Apart(t, obj, inIntf, p, 0, k + 1);
      assert k < |rest| ==> StepOk(t, obj, inIntf, end, p, k + 1);
    }
    forall j, k | 0 <= j < k <= |rest|
      ensures Apart(t, next, p[0], rest, j, k)
    {
      ShiftPath(t, obj, inIntf, p, j);
      ShiftPath(t, obj, inIntf, p, k);
      assert Apart(t, obj, inIntf, p, j + 1, k + 1);
    }
    ShiftPath(t, obj, inIntf, p, |rest|);
  }

  lemma Start(t: Topology, obj: Node, inIntf: Intf, p: seq<Intf>)
    ensures NodeAt(t, obj, p, 0) == obj && IntfAt(inIntf, p, 0) == inIntf
  {}

  lemma SimpleExtend(t: Topology, obj: Node, inIntf: Intf, end: Node, p: seq<Intf>, nodes: set<Node>,
                     restricts: set<nat>)
    requires p != [] && inIntf.Restricts() !! restricts && obj !in nodes && obj != end
    requires obj in t.loop && obj in t.intfList && t.Leaves(obj, inIntf, p[0])
    requires SimplePath(t, t.Next(obj, p[0]), p[0], end, p[1..], nodes + {obj}, restricts + inIntf.Restricts())
    ensures SimplePath(t, obj, inIntf, end, p, nodes, restricts)
  {
    hide NodeAt, IntfAt;
    var next, rest := t.Next(obj, p[0]), p[1..];
    Start(t, obj, inIntf, p);
    forall k | 0 <= k <= |p|
      ensures Unmarked(t, obj, inIntf, p, k, nodes, restricts)
      ensures k < |p| ==> StepOk(t, obj, inIntf, end, p, k)
      ensures k > 0 ==> Apart(t, obj, inIntf, p, 0, k)
    {
      if k > 0 {
        ShiftPath(t, obj, inIntf, p, k - 1);
        assert Unmarked(t, next, p[0], rest, k - 1, nodes + {obj}, restricts + inIntf.Restricts());
        assert k < |p| ==> StepOk(t, next, p[0], end, rest, k - 1);
      }
    }
    forall j, k | 0 <= j < k <= |p|
      ensures Apart(t, obj, inIntf, p, j, k)
    {
      if j > 0 {
        ShiftPath(t, obj, inIntf, p, j - 1);
        ShiftPath(t, obj, inIntf, p, k - 1);
        assert Apart(t, next, p[0], rest, j - 1, k - 1);
      }
    }
    ShiftPath(t, obj, inIntf, p, |rest|);
  }

  // --------------------------------------------------------------- results of a search

  /** The path has interfaces `a` and `b` next to each other, at a router or at a zone. */
  ghost predicate PairOn(t: Topology, obj: Node, inIntf: Intf, p: seq<Intf>, router: bool, a: Intf, b: Intf) {
    exists k :: 0 <= k < |p| && NodeAt(t, obj, p, k).Router? == router && IntfAt(inIntf, p, k) == a && p[k] == b
  }

  lemma PairStep(t: Topology, obj: Node, inIntf: Intf, p: seq<Intf>, router: bool, a: Intf, b: Intf)
    requires p != []
    ensures PairOn(t, obj, inIntf, p, router, a, b) <==>
            (obj.Router? == router && a == inIntf && b == p[0]) ||
            PairOn(t, t.Next(obj, p[0]), p[0], p[1..], router, a, b)
  {
    hide NodeAt, IntfAt;
    Start(t, obj, inIntf, p);
    var next, rest := t.Next(obj, p[0]), p[1..];
    if k :| 0 <= k < |rest| && NodeAt(t, next, rest, k).Router? == router && IntfAt(p[0], rest, k) == a &&
            rest[k] == b {
      ShiftPath(t, obj, inIntf, p, k);
      assert p[k + 1] == b;
    }
    if k :| 0 <= k < |p| && NodeAt(t, obj, p, k).Router? == router && IntfAt(inIntf, p, k) == a && p[k] == b {
      if k > 0 {
        ShiftPath(t, obj, inIntf, p, k - 1);
        assert rest[k - 1] == b;
      }
    }
  }

  /** The arguments of a search: current node, interface it was entered from, end
      of the path, and what is marked. */
  datatype Args = Args(obj: Node, inIntf: Intf, end: Node, nodes: set<Node>, restricts: set<nat>) {
    ghost predicate Path(t: Topology, p: seq<Intf>) {
      IsPath(t, obj, inIntf, end, p, nodes, restricts)
    }

    /** Arguments of the search behind an interface. */
    function Behind(t: Topology, intf: Intf): Args {
      Args(t.Next(obj, intf), intf, end, nodes + {obj}, restricts + inIntf.Restricts())
    }

    predicate Blocked() {
      !(inIntf.Restricts() !! restricts) || obj in nodes
    }
  }

  ghost predicate Exists(t: Topology, x: Args) {
    exists p :: x.Path(t, p)
  }

  /** There is a path exactly if there is a simple path. */
  lemma SimpleExists(t: Topology, x: Args)
    ensures Exists(t, x) <==> exists p :: SimplePath(t, x.obj, x.inIntf, x.end, p, x.nodes, x.restricts)
  {
    hide SimplePath, IsPath;
    forall p
      ensures x.Path(t, p) <==> SimplePath(t, x.obj, x.inIntf, x.end, p, x.nodes, x.restricts)
    {
      PathIsSimple(t, x.obj, x.inIntf, x.end, p, x.nodes, x.restricts);
    }
  }

  /** Some path ends with interface `i`. */
  ghost predicate EndsAt(t: Topology, x: Args, i: Intf) {
    exists p :: x.Path(t, p) && IntfAt(x.inIntf, p, |p|) == i
  }

  /** Some path has `a` and `b` next to each other. */
  ghost predicate HasPair(t: Topology, x: Args, router: bool, a: Intf, b: Intf) {
    exists p :: x.Path(t, p) && PairOn(t, x.obj, x.inIntf, p, router, a, b)
  }

  /** The same for paths that leave the current node through one of the first
      `n` interfaces. */
  ghost predicate Via(t: Topology, x: Args, n: nat, p: seq<Intf>) {
    x.Path(t, p) && p != [] && x.obj in t.intfList && n <= |t.intfList[x.obj]| && p[0] in t.intfList[x.obj][..n]
  }

  ghost predicate ExistsVia(t: Topology, x: Args, n: nat) {
    exists p :: Via(t, x, n, p)
  }

  ghost predicate EndsAtVia(t: Topology, x: Args, n: nat, i: Intf) {
    exists p :: Via(t, x, n, p) && IntfAt(x.inIntf, p, |p|) == i
  }

  ghost predicate HasPairVia(t: Topology, x: Args, n: nat, router: bool, a: Intf, b: Intf) {
    exists p :: Via(t, x, n, p) && PairOn(t, x.obj, x.inIntf, p, router, a, b)
  }

  /** A path through `intf` is a path behind `intf`. */
  lemma PathBehind(t: Topology, x: Args, intf: Intf, q: seq<Intf>)
    requires !x.Blocked() && x.obj != x.end && x.obj in t.loop && x.obj in t.intfList
    ensures x.Path(t, [intf] + q) <==> t.Leaves(x.obj, x.inIntf, intf) && x.Behind(t, intf).Path(t, q)
    ensures IntfAt(x.inIntf, [intf] + q, |q| + 1) == IntfAt(intf, q, |q|)
  {
    var p := [intf] + q;
    assert p[1..] == q;
  }

  lemma ViaSplit(t: Topology, x: Args, n: nat, p: seq<Intf>)
    requires x.obj in t.intfList && n < |t.intfList[x.obj]|
    ensures Via(t, x, n + 1, p) <==>
            Via(t, x, n, p) || (x.Path(t, p) && p != [] && p[0] == t.intfList[x.obj][n])
  {
    var l := t.intfList[x.obj];
    assert l[..n + 1] == l[..n] + [l[n]];
  }

  /** A new path is one behind interface `n`. */
  lemma NewPath(t: Topology, x: Args, n: nat, p: seq<Intf>) returns (q: seq<Intf>)
    requires !x.Blocked() && x.obj != x.end && x.obj in t.loop && x.obj in t.intfList && n < |t.intfList[x.obj]|
    requires Via(t, x, n + 1, p) && !Via(t, x, n, p)
    ensures var intf := t.intfList[x.obj][n];
            p == [intf] + q && t.Leaves(x.obj, x.inIntf, intf) && x.Behind(t, intf).Path(t, q)
  {
    hide IsPath;
    ViaSplit(t, x, n, p);
    q := p[1..];
    assert p == [t.intfList[x.obj][n]] + q;
    PathBehind(t, x, t.intfList[x.obj][n], q);
  }

  lemma OldPath(t: Topology, x: Args, n: nat, p: seq<Intf>)
    requires x.obj in t.intfList && n < |t.intfList[x.obj]| && Via(t, x, n, p)
    ensures Via(t, x, n + 1, p)
  {
    ViaSplit(t, x, n, p);
  }

  lemma PathVia(t: Topology, x: Args, n: nat, q: seq<Intf>)
    requires !x.Blocked() && x.obj != x.end && x.obj in t.loop && x.obj in t.intfList && n < |t.intfList[x.obj]|
    requires t.Leaves(x.obj, x.inIntf, t.intfList[x.obj][n]) && x.Behind(t, t.intfList[x.obj][n]).Path(t, q)
    ensures Via(t, x, n + 1, [t.intfList[x.obj][n]] + q)
  {
    PathBehind(t, x, t.intfList[x.obj][n], q);
    ViaSplit(t, x, n, [t.intfList[x.obj][n]] + q);
  }

  /** One more interface adds the paths behind it. */
  lemma ViaStep(t: Topology, x: Args, n: nat)
    requires !x.Blocked() && x.obj != x.end && x.obj in t.loop && x.obj in t.intfList && n < |t.intfList[x.obj]|
    ensures var intf := t.intfList[x.obj][n];
            ExistsVia(t, x, n + 1) <==>
              ExistsVia(t, x, n) || (t.Leaves(x.obj, x.inIntf, intf) && Exists(t, x.Behind(t, intf)))
  {
    hide IsPath, Via;
    var m := n + 1;
    if p :| Via(t, x, m, p) {
      if !Via(t, x, n, p) {
        var q := NewPath(t, x, n, p);
      }
    }
    if p :| Via(t, x, n, p) {
      OldPath(t, x, n, p);
    }
    var intf := t.intfList[x.obj][n];
    if t.Leaves(x.obj, x.inIntf, intf) && Exists(t, x.Behind(t, intf)) {
      var q :| x.Behind(t, intf).Path(t, q);
      PathVia(t, x, n, q);
    }
  }

  lemma EndsAtStep(t: Topology, x: Args, n: nat, i: Intf)
    requires !x.Blocked() && x.obj != x.end && x.obj in t.loop && x.obj in t.intfList && n < |t.intfList[x.obj]|
    ensures var intf := t.intfList[x.obj][n];
            EndsAtVia(t, x, n + 1, i) <==>
              EndsAtVia(t, x, n, i) || (t.Leaves(x.obj, x.inIntf, intf) && EndsAt(t, x.Behind(t, intf), i))
  {
    hide IsPath, Via;
    var intf := t.intfList[x.obj][n];
    if p :| Via(t, x, n + 1, p) && IntfAt(x.inIntf, p, |p|) == i {
      if !Via(t, x, n, p) {
        var q := NewPath(t, x, n, p);
        assert IntfAt(intf, q, |q|) == i;
      }
    }
    if p :| Via(t, x, n, p) && IntfAt(x.inIntf, p, |p|) == i {
      OldPath(t, x, n, p);
    }
    if t.Leaves(x.obj, x.inIntf, intf) && EndsAt(t, x.Behind(t, intf), i) {
      var q :| x.Behind(t, intf).Path(t, q) && IntfAt(intf, q, |q|) == i;
      PathVia(t, x, n, q);
      assert IntfAt(x.inIntf, [intf] + q, |q| + 1) == i;
    }
  }

  lemma HasPairStep(t: Topology, x: Args, n: nat, r: bool, a: Intf, b: Intf)
    requires !x.Blocked() && x.obj != x.end && x.obj in t.loop && x.obj in t.intfList && n < |t.intfList[x.obj]|
    ensures var intf := t.intfList[x.obj][n];
            HasPairVia(t, x, n + 1, r, a, b) <==>
              || HasPairVia(t, x, n, r, a, b)
              || (t.Leaves(x.obj, x.inIntf, intf) && Exists(t, x.Behind(t, intf)) &&
                  r == x.obj.Router? && a == x.inIntf && b == intf)
              || (t.Leaves(x.obj, x.inIntf, intf) && HasPair(t, x.Behind(t, intf), r, a, b))
  {
    hide IsPath, Via, PairOn;
    var intf := t.intfList[x.obj][n];
    var y := x.Behind(t, intf);
    if p :| Via(t, x, n + 1, p) && PairOn(t, x.obj, x.inIntf, p, r, a, b) {
      if !Via(t, x, n, p) {
        var q := NewPath(t, x, n, p);
        assert p[1..] == q;
        PairStep(t, x.obj, x.inIntf, p, r, a, b);
      }
    }
    if p :| Via(t, x, n, p) && PairOn(t, x.obj, x.inIntf, p, r, a, b) {
      OldPath(t, x, n, p);
    }
    if t.Leaves(x.obj, x.inIntf, intf) {
      if r == x.obj.Router? && a == x.inIntf && b == intf && Exists(t, y) {
        var q :| y.Path(t, q);
        PathVia(t, x, n, q);
        PairStep(t, x.obj, x.inIntf, [intf] + q, r, a, b);
      }
      if q :| y.Path(t, q) && PairOn(t, y.obj, y.inIntf, q, r, a, b) {
        PathVia(t, x, n, q);
        assert ([intf] + q)[1..] == q;
        PairStep(t, x.obj, x.inIntf, [intf] + q, r, a, b);
      }
    }
  }

  /** Before the first interface there is no path, behind the last one all. */
  lemma ViaBounds(t: Topology, x: Args)
    requires !x.Blocked() && x.obj != x.end && x.obj in t.loop && x.obj in t.intfList
    ensures !ExistsVia(t, x, 0) && (forall i :: !EndsAtVia(t, x, 0, i)) &&
            (forall r, a, b :: !HasPairVia(t, x, 0, r, a, b))
    ensures var n := |t.intfList[x.obj]|;
            && (ExistsVia(t, x, n) <==> Exists(t, x))
            && (forall i :: EndsAtVia(t, x, n, i) <==> EndsAt(t, x, i))
            && (forall r, a, b :: HasPairVia(t, x, n, r, a, b) <==> HasPair(t, x, r, a, b))
  {
    var n := |t.intfList[x.obj]|;
    assert t.intfList[x.obj][..n] == t.intfList[x.obj];
    assert forall p :: Via(t, x, n, p) <==> x.Path(t, p);
  }

  /** A blocked search finds nothing, a search at the end the path that ends here. */
  lemma NoSearch(t: Topology, x: Args)
    requires x.Blocked() || x.obj == x.end
    ensures Exists(t, x) <==> !x.Blocked()
    ensures forall i :: EndsAt(t, x, i) <==> !x.Blocked() && i == x.inIntf
    ensures forall r, a, b :: !HasPair(t, x, r, a, b)
  {
    if !x.Blocked() {
      assert x.Path(t, []);
      assert IntfAt(x.inIntf, [], 0) == x.inIntf;
    }
  }

  // --------------------------------------------------------------------------- search

  type Tuple = (Intf, Intf)

  /** `l` has been extended by exactly the tuples that some path has at routers,
      or at zones. */
  ghost predicate TuplesAdded(l0: seq<Tuple>, l: seq<Tuple>, t: Topology, x: Args, router: bool) {
    l0 <= l && forall a, b :: (a, b) in l[|l0|..] <==> HasPair(t, x, router, a, b)
  }

  ghost predicate TuplesVia(l0: seq<Tuple>, l: seq<Tuple>, t: Topology, x: Args, n: nat, router: bool) {
    l0 <= l && forall a, b :: (a, b) in l[|l0|..] <==> HasPairVia(t, x, n, router, a, b)
  }

  ghost predicate LeaveAdded(l0: seq<Intf>, l: seq<Intf>, t: Topology, x: Args) {
    l0 <= l && forall i :: i in l[|l0|..] <==> EndsAt(t, x, i)
  }

  ghost predicate LeaveVia(l0: seq<Intf>, l: seq<Intf>, t: Topology, x: Args, n: nat) {
    l0 <= l && forall i :: i in l[|l0|..] <==> EndsAtVia(t, x, n, i)
  }

  lemma TuplesStep(l0: seq<Tuple>, l1: seq<Tuple>, l2: seq<Tuple>, t: Topology, x: Args, n: nat, router: bool)
    requires !x.Blocked() && x.obj != x.end && x.obj in t.loop && x.obj in t.intfList && n < |t.intfList[x.obj]|
    requires t.Leaves(x.obj, x.inIntf, t.intfList[x.obj][n])
    requires TuplesVia(l0, l1, t, x, n, router) && TuplesAdded(l1, l2, t, x.Behind(t, t.intfList[x.obj][n]), router)
    ensures var intf := t.intfList[x.obj][n];
            TuplesVia(l0,
                      if Exists(t, x.Behind(t, intf)) && router == x.obj.Router? then l2 + [(x.inIntf, intf)] else l2,
                      t, x, n + 1, router)
  {
    hide HasPair, HasPairVia, Exists;
    var intf := t.intfList[x.obj][n];
    var y := x.Behind(t, intf);
    var l3 := if Exists(t, y) && router == x.obj.Router? then l2 + [(x.inIntf, intf)] else l2;
    assert l2[|l0|..] == l1[|l0|..] + l2[|l1|..];
    assert l3[|l0|..] == l2[|l0|..] + l3[|l2|..];
    forall a, b
      ensures (a, b) in l3[|l0|..] <==> HasPairVia(t, x, n + 1, router, a, b)
    {
      HasPairStep(t, x, n, router, a, b);
      assert (a, b) in l3[|l2|..] <==> Exists(t, y) && router == x.obj.Router? && a == x.inIntf && b == intf;
    }
  }

  lemma TuplesSkip(l0: seq<Tuple>, l: seq<Tuple>, t: Topology, x: Args, n: nat, router: bool)
    requires !x.Blocked() && x.obj != x.end && x.obj in t.loop && x.obj in t.intfList && n < |t.intfList[x.obj]|
    requires !t.Leaves(x.obj, x.inIntf, t.intfList[x.obj][n]) && TuplesVia(l0, l, t, x, n, router)
    ensures TuplesVia(l0, l, t, x, n + 1, router)
  {
    hide HasPair, HasPairVia, Exists;
    forall a, b
      ensures (a, b) in l[|l0|..] <==> HasPairVia(t, x, n + 1, router, a, b)
    {
      HasPairStep(t, x, n, router, a, b);
    }
  }

  lemma LeaveStep(l0: seq<Intf>, l1: seq<Intf>, l2: seq<Intf>, t: Topology, x: Args, n: nat)
    requires !x.Blocked() && x.obj != x.end && x.obj in t.loop && x.obj in t.intfList && n < |t.intfList[x.obj]|
    requires LeaveVia(l0, l1, t, x, n)
    requires if t.Leaves(x.obj, x.inIntf, t.intfList[x.obj][n])
             then LeaveAdded(l1, l2, t, x.Behind(t, t.intfList[x.obj][n]))
             else l1 == l2
    ensures LeaveVia(l0, l2, t, x, n + 1)
  {
    hide EndsAt, EndsAtVia;
    assert l2[|l0|..] == l1[|l0|..] + l2[|l1|..];
    forall i
      ensures i in l2[|l0|..] <==> EndsAtVia(t, x, n + 1, i)
    {
      EndsAtStep(t, x, n, i);
    }
  }

  class PathFinder {
    const t: Topology
    // Nodes and path restrictions with attribute activePath.
    var activeNodes: set<Node>
    var activeRestricts: set<nat>
    // Collected path information.
    var leave: seq<Intf>
    var routerTuples: seq<Tuple>
    var zoneTuples: seq<Tuple>

    constructor (t: Topology)
      ensures this.t == t && activeNodes == {} && activeRestricts == {}
      ensures leave == [] && routerTuples == [] && zoneTuples == []
    {
      this.t, activeNodes, activeRestricts := t, {}, {};
      leave, routerTuples, zoneTuples := [], [], [];
    }

    ghost function Search(obj: Node, inIntf: Intf, end: Node): Args
      reads this
    {
      Args(obj, inIntf, end, activeNodes, activeRestricts)
    }

    method PushTuple(router: bool, tuple: Tuple)
      modifies this`routerTuples, this`zoneTuples
      ensures router ==> routerTuples == old(routerTuples) + [tuple] && zoneTuples == old(zoneTuples)
      ensures !router ==> zoneTuples == old(zoneTuples) + [tuple] && routerTuples == old(routerTuples)
    {
      if router {
        routerTuples := routerTuples + [tuple];
      } else {
        zoneTuples := zoneTuples + [tuple];
      }
    }

    /** Returns whether there is a path; collects the last interfaces of all paths
        and their pairs of neighboring interfaces, and restores all marks. */
    method ClusterPathMark1(obj: Node, inIntf: Intf, end: Node) returns (success: bool)
      requires t.Closed() && obj in t.intfList
      modifies this
      ensures activeNodes == old(activeNodes) && activeRestricts == old(activeRestricts)
      ensures success <==> Exists(t, old(Search(obj, inIntf, end)))
      ensures success <==> exists p :: SimplePath(t, obj, inIntf, end, p, old(activeNodes), old(activeRestricts))
      ensures LeaveAdded(old(leave), leave, t, old(Search(obj, inIntf, end)))
      ensures TuplesAdded(old(routerTuples), routerTuples, t, old(Search(obj, inIntf, end)), true)
      ensures TuplesAdded(old(zoneTuples), zoneTuples, t, old(Search(obj, inIntf, end)), false)
      decreases t.intfList.Keys - activeNodes
    {
      hide Exists, EndsAt, HasPair, ExistsVia, EndsAtVia, HasPairVia, SimplePath;
      ghost var x := Search(obj, inIntf, end);
      SimpleExists(t, x);
      if !(inIntf.Restricts() !! activeRestricts) || obj in activeNodes {
        NoSearch(t, x);
        return false;
      }
      if obj == end {
        NoSearch(t, x);
        leave := leave + [inIntf];
        return true;
      }
      activeNodes := activeNodes + {obj};
      activeRestricts := activeRestricts + inIntf.Restricts();
      ViaBounds(t, x);
      success := false;
      var intfs := t.intfList[obj];
      var i := 0;
      while i < |intfs|
        invariant 0 <= i <= |intfs|
        invariant activeNodes == x.nodes + {obj} && activeRestricts == x.restricts + inIntf.Restricts()
        invariant success <==> ExistsVia(t, x, i)
        invariant LeaveVia(old(leave), leave, t, x, i)
        invariant TuplesVia(old(routerTuples), routerTuples, t, x, i, true)
        invariant TuplesVia(old(zoneTuples), zoneTuples, t, x, i, false)
      {
        var found := TryIntf(obj, inIntf, end, i, x, old(leave), old(routerTuples), old(zoneTuples));
        success := success || found;
        i := i + 1;
      }
      activeNodes := activeNodes - {obj};
      activeRestricts := activeRestricts - inIntf.Restricts();
    }

    /** Proceeds with interface `i` of the current node. */
    method TryIntf(obj: Node, inIntf: Intf, end: Node, i: nat, ghost x: Args,
                   ghost leave0: seq<Intf>, ghost routerTuples0: seq<Tuple>, ghost zoneTuples0: seq<Tuple>)
      returns (found: bool)
      requires t.Closed() && obj in t.intfList && i < |t.intfList[obj]|
      requires x.obj == obj && x.inIntf == inIntf && x.end == end && !x.Blocked() && obj != end
      requires activeNodes == x.nodes + {obj} && activeRestricts == x.restricts + inIntf.Restricts()
      requires LeaveVia(leave0, leave, t, x, i)
      requires TuplesVia(routerTuples0, routerTuples, t, x, i, true)
      requires TuplesVia(zoneTuples0, zoneTuples, t, x, i, false)
      modifies this
      ensures activeNodes == old(activeNodes) && activeRestricts == old(activeRestricts)
      ensures ExistsVia(t, x, i + 1) <==> ExistsVia(t, x, i) || found
      ensures LeaveVia(leave0, leave, t, x, i + 1)
      ensures TuplesVia(routerTuples0, routerTuples, t, x, i + 1, true)
      ensures TuplesVia(zoneTuples0, zoneTuples, t, x, i + 1, false)
      decreases t.intfList.Keys - x.nodes, 0
    {
      hide Exists, EndsAt, HasPair, ExistsVia, EndsAtVia, HasPairVia, TuplesVia, TuplesAdded, LeaveVia, LeaveAdded;
      var intf := t.intfList[obj][i];
      ViaStep(t, x, i);
      found := false;
      if !t.Leaves(obj, inIntf, intf) {
        TuplesSkip(routerTuples0, routerTuples, t, x, i, true);
        TuplesSkip(zoneTuples0, zoneTuples, t, x, i, false);
        LeaveStep(leave0, leave, leave, t, x, i);
        return;
      }
      ghost var y := x.Behind(t, intf);
      ghost var l1, r1, z1 := leave, routerTuples, zoneTuples;
      found := ClusterPathMark1(t.Next(obj, intf), intf, end);
      LeaveStep(leave0, l1, leave, t, x, i);
      TuplesStep(routerTuples0, r1, routerTuples, t, x, i, true);
      TuplesStep(zoneTuples0, z1, zoneTuples, t, x, i, false);
      if found {
        PushTuple(obj.Router?, (inIntf, intf));
      }
    }
  }
}
