/** `findChains` in go/cmd/spoc2/main.go for one group of rules with the same
    action: rules are put into a tree of nested maps, equal subtrees get one
    binary tree, and the nested binary trees are compiled to chains.
  */
module FindChains {
  import opened Wrappers
  import opened Iptables
  import opened Prefixes
  import opened ChainCompiler
  import opened BintreeViews
  import opened RuleTrees
  import A = AddrBintree
  import G = GenprtBintree
  import ProtocolTree
  import Sorting

  /** The binary tree decides like those keys of the rule tree that get nodes. */
  ghost predicate BintreeFor(bt: Tree, t: RuleTree, d: nat, order: Order, env: Env, deny: bool) {
    && WellFormed(bt, d, deny)
    && forall p :: RealPacket(p, env) ==> (TreeHits(bt, d, order, p, deny) <==> Accepts(t, d, order, env, p))
  }

  /** One of the keys with nodes has the packet and leads to a binary tree that has it. */
  ghost predicate KeyHits(t: RuleTree, bintrees: map<RuleTree, Tree>, d: nat, order: Order, env: Env, p: Packet,
                          deny: bool)
    requires t.Level? && d < 4 && forall k :: k in t.m ==> t.m[k] in bintrees
  {
    exists k :: k in t.m && HasNode(t, k, env) && k.Has(p.Get(order[d])) &&
                SubtreeHits(bintrees[t.m[k]], d, order, p, deny)
  }

  /** All binary trees generated so far: each decides like its rule tree, and
      different rule trees have different binary trees. */
  ghost predicate BintreesSound(bintrees: map<RuleTree, Tree>, next: nat, order: Order, env: Env, deny: bool) {
    && (forall t, d :: t in bintrees && d <= 4 && TreeOk(t, d, order, env, deny) && NonEmpty(t) ==>
          BintreeFor(bintrees[t], t, d, order, env, deny))
    && (forall t :: t in bintrees && bintrees[t].Node? ==> bintrees[t].id < next)
    && (forall t, u :: t in bintrees && u in bintrees && t != u ==> bintrees[t] != bintrees[u])
    && (forall t :: t in bintrees && t.Level? ==> bintrees[t].Node?)
  }

  /** Known subtrees keep their binary trees. */
  ghost predicate Extends(bintrees: map<RuleTree, Tree>, before: map<RuleTree, Tree>) {
    forall t :: t in before ==> t in bintrees && bintrees[t] == before[t]
  }

  /** The binary trees of the subtrees of `t` are known. */
  ghost predicate Ready(t: RuleTree, bintrees: map<RuleTree, Tree>) {
    t.Level? ==> forall k :: k in t.m ==> t.m[k] in bintrees
  }

  /** The binary trees are known for everything two levels below `t`. */
  ghost predicate SubtreesReady(t: RuleTree, bintrees: map<RuleTree, Tree>) {
    t.Level? ==> forall k :: k in t.m ==> Ready(t.m[k], bintrees)
  }

  lemma KeyHitsAccepts(t: RuleTree, bintrees: map<RuleTree, Tree>, next: nat, d: nat, order: Order, env: Env,
                       deny: bool, p: Packet)
    requires BintreesSound(bintrees, next, order, env, deny) && t.Level? && d < 4 && Ready(t, bintrees)
    requires TreeOk(t, d, order, env, deny) && RealPacket(p, env)
    ensures KeyHits(t, bintrees, d, order, env, p, deny) <==> Accepts(t, d, order, env, p)
  {
    forall k | k in t.m
      ensures SubtreeHits(bintrees[t.m[k]], d, order, p, deny) <==> Accepts(t.m[k], d + 1, order, env, p)
    {
      assert BintreeFor(bintrees[t.m[k]], t.m[k], d + 1, order, env, deny);
    }
  }

  // ----------------------------------------------------------- networks as keys

  method NetElements(t: RuleTree, bintrees: map<RuleTree, Tree>, ghost a: Attr, ghost env: Env)
    returns (elements: seq<Prefix>, tree: map<Prefix, Tree>)
    requires t.Level? && Ready(t, bintrees) && IsNetAttr(a) && forall k :: k in t.m ==> KeyOk(k, a, env)
    ensures Sorting.Distinct(elements)
    ensures forall n :: n in elements <==> NetKey(n) in t.m
    ensures forall n :: n in elements <==> n in tree
    ensures forall n :: n in elements ==> tree[n] == bintrees[t.m[NetKey(n)]]
  {
    elements, tree := [], map[];
    var rest := t.m.Keys;
    while rest != {}
      invariant rest <= t.m.Keys
      invariant Sorting.Distinct(elements)
      invariant forall n :: n in elements <==> NetKey(n) in t.m.Keys - rest
      invariant forall n :: n in elements <==> n in tree
      invariant forall n :: n in elements ==> tree[n] == bintrees[t.m[NetKey(n)]]
      decreases rest
    {
      var k :| k in rest;
      assert KeyOk(k, a, env);
      elements := elements + [k.net];
      tree := tree[k.net := bintrees[t.m[k]]];
      rest := rest - {k};
    }
  }

  /** Elements and keys with their binary trees are the same. */
  ghost predicate SameNets(sorted: seq<Prefix>, tree: map<Prefix, Tree>, t: RuleTree, bintrees: map<RuleTree, Tree>)
    requires t.Level? && Ready(t, bintrees)
  {
    && (forall n :: n in sorted <==> NetKey(n) in t.m)
    && (forall n :: n in sorted ==> n in tree && tree[n] == bintrees[t.m[NetKey(n)]])
  }

  lemma ElementHits(sorted: seq<Prefix>, tree: map<Prefix, Tree>, t: RuleTree, bintrees: map<RuleTree, Tree>,
                    d: nat, order: Order, env: Env, deny: bool, p: Packet)
    requires t.Level? && d < 4 && Ready(t, bintrees) && TreeOk(t, d, order, env, deny) && IsNetAttr(order[d])
    requires SameNets(sorted, tree, t, bintrees) && p.Get(order[d]) >= 0
    ensures forall i :: 0 <= i < |sorted| ==> sorted[i] in tree
    ensures KeyHits(t, bintrees, d, order, env, p, deny) <==>
            exists s :: A.SomeElement(sorted, |sorted|, tree, p.Get(order[d]), s) && SubtreeHits(s, d, order, p, deny)
  {
    hide SubtreeHits;
    var v := p.Get(order[d]);
    assert forall i :: 0 <= i < |sorted| ==> sorted[i] in sorted;
    if KeyHits(t, bintrees, d, order, env, p, deny) {
      var k :| k in t.m && HasNode(t, k, env) && k.Has(v) && SubtreeHits(bintrees[t.m[k]], d, order, p, deny);
      assert KeyOk(k, order[d], env) && k.net in sorted;
      var i :| 0 <= i < |sorted| && sorted[i] == k.net;
      assert A.SomeElement(sorted, |sorted|, tree, v, bintrees[t.m[k]]);
    }
    if s :| A.SomeElement(sorted, |sorted|, tree, v, s) && SubtreeHits(s, d, order, p, deny) {
      var i :| 0 <= i < |sorted| && sorted[i].Has(v) && tree[sorted[i]] == s;
      assert NetKey(sorted[i]).Has(v) && NetKey(sorted[i]) in t.m;
    }
  }

  lemma NetsDecide(v: A.NetTree<Tree>, id: nat, sorted: seq<Prefix>, tree: map<Prefix, Tree>,
                   t: RuleTree, bintrees: map<RuleTree, Tree>, next: nat,
                   d: nat, order: Order, env: Env, deny: bool)
    requires BintreesSound(bintrees, next, order, env, deny) && t.Level? && d < 4 && Ready(t, bintrees) && NonEmpty(t)
    requires TreeOk(t, d, order, env, deny) && IsNetAttr(order[d]) && SameNets(sorted, tree, t, bintrees)
    requires v.Node? && A.Shape(v, env.bits) && forall i :: 0 <= i < |sorted| ==> sorted[i] in tree
    requires forall a, s :: A.Leads(v, a, s) <==> A.SomeElement(sorted, |sorted|, tree, a, s)
    ensures BintreeFor(NetValue(v, id, v.net.inv == env.bits), t, d, order, env, deny)
  {
    hide SubtreeHits, A.Leads, KeyHits, KeyOk, NetValue, WellFormed, TreeHits, Accepts;
    var noop := v.net.inv == env.bits;
    forall a, s | A.Leads(v, a, s)
      ensures WellFormed(s, d + 1, deny)
    {
      var i :| 0 <= i < |sorted| && sorted[i].Has(a) && tree[sorted[i]] == s;
      SubtreeSound(NetKey(sorted[i]), t, bintrees, next, d, order, env, deny);
    }
    NetSubtreesOf(v, env.bits, d, deny);
    NetValueWellFormed(v, id, noop, env.bits, d, deny);
    forall p | RealPacket(p, env)
      ensures TreeHits(NetValue(v, id, noop), d, order, p, deny) <==> Accepts(t, d, order, env, p)
    {
      if noop {
        A.WholeRange(v.net.base, env.bits);
        RootHasAll(v, env, p.Get(order[d]));
      }
      NetValueHits(v, id, noop, env.bits, d, order, p, deny);
      ElementHits(sorted, tree, t, bintrees, d, order, env, deny, p);
      KeyHitsAccepts(t, bintrees, next, d, order, env, deny, p);
    }
  }

  lemma SubtreeSound(k: Key, t: RuleTree, bintrees: map<RuleTree, Tree>, next: nat, d: nat, order: Order, env: Env,
                     deny: bool)
    requires BintreesSound(bintrees, next, order, env, deny) && t.Level? && d < 4 && Ready(t, bintrees)
    requires TreeOk(t, d, order, env, deny) && k in t.m
    ensures WellFormed(bintrees[t.m[k]], d + 1, deny)
  {
    assert BintreeFor(bintrees[t.m[k]], t.m[k], d + 1, order, env, deny);
  }

  /** A network of full width has all addresses. */
  lemma RootHasAll(v: A.NetTree<Tree>, env: Env, a: nat)
    requires v.Node? && A.Shape(v, env.bits) && v.net.inv == env.bits && a < Pow2(env.bits)
    requires Trunc(v.net.base, env.bits) == 0
    ensures v.net.Has(a)
  {}

  method InsertNets(t: RuleTree, bintrees: map<RuleTree, Tree>, next: nat, env: Env,
                    ghost d: nat, ghost order: Order, ghost deny: bool) returns (bt: Tree)
    requires BintreesSound(bintrees, next, order, env, deny) && t.Level? && d < 4 && Ready(t, bintrees) && NonEmpty(t)
    requires TreeOk(t, d, order, env, deny) && IsNetAttr(order[d])
    ensures bt.Node? && bt.id == next && BintreeFor(bt, t, d, order, env, deny)
  {
    hide BintreesSound, BintreeFor, WellFormed, TreeHits, A.Leads, A.SomeElement, A.Shape, Trunc, Pow2;
    var elements, tree := NetElements(t, bintrees, order[d], env);
    assert t.m.Keys != {};
    ghost var k :| k in t.m;
    assert KeyOk(k, order[d], env) && k.net in elements;
    forall i | 0 <= i < |elements|
      ensures NetOk(elements[i], env) && elements[i] in tree
    {
      assert elements[i] in elements && KeyOk(NetKey(elements[i]), order[d], env);
    }
    var b, sorted := A.GenAddrBintree(env.bits, elements, tree);
    Sorting.SameElements(sorted, elements);
    NetsDecide(b.Value(), next, sorted, tree, t, bintrees, next, d, order, env, deny);
    bt := NetView(b, next, b.noop);
  }

  // ---------------------------------------------------------- protocols as keys

  ghost predicate SamePrts(tree: map<Range, Tree>, t: RuleTree, bintrees: map<RuleTree, Tree>)
    requires t.Level? && Ready(t, bintrees)
  {
    && (forall r :: r in tree <==> PrtKey(r) in t.m)
    && (forall r :: r in tree ==> tree[r] == bintrees[t.m[PrtKey(r)]])
  }

  method PrtElements(t: RuleTree, bintrees: map<RuleTree, Tree>, ghost a: Attr, ghost env: Env)
    returns (elements: seq<Range>, tree: map<Range, Tree>)
    requires t.Level? && Ready(t, bintrees) && !IsNetAttr(a) && forall k :: k in t.m ==> KeyOk(k, a, env)
    ensures Sorting.Distinct(elements) && SamePrts(tree, t, bintrees)
    ensures forall r :: r in elements <==> r in tree
    ensures tree.Keys <= env.known
  {
    elements, tree := [], map[];
    var rest := t.m.Keys;
    while rest != {}
      invariant rest <= t.m.Keys
      invariant Sorting.Distinct(elements)
      invariant forall r :: r in elements <==> PrtKey(r) in t.m.Keys - rest
      invariant forall r :: r in elements <==> r in tree
      invariant forall r :: r in tree ==> tree[r] == bintrees[t.m[PrtKey(r)]]
      decreases rest
    {
      var k :| k in rest;
      assert KeyOk(k, a, env);
      elements := elements + [k.prt];
      tree := tree[k.prt := bintrees[t.m[k]]];
      rest := rest - {k};
    }
    forall r | r in tree
      ensures r in env.known
    {
      assert KeyOk(PrtKey(r), a, env);
    }
  }

  /** A protocol gets a node in the binary tree if it gets one in the rule tree. */
  lemma SameNodes(tree: map<Range, Tree>, t: RuleTree, bintrees: map<RuleTree, Tree>, next: nat,
                  order: Order, env: Env, deny: bool)
    requires BintreesSound(bintrees, next, order, env, deny) && t.Level? && Ready(t, bintrees)
    requires SamePrts(tree, t, bintrees) && G.Input(env.up, tree, env.known)
    ensures forall r :: r in tree ==> (G.Reachable(r, env.up, tree, env.known) <==> HasNode(t, PrtKey(r), env))
  {
    hide BintreeFor, G.UpRelation, G.Reachable;
    assert PrtTree(t).Keys == tree.Keys;
    forall r | r in tree
      ensures G.Reachable(r, env.up, tree, env.known) <==> HasNode(t, PrtKey(r), env)
    {
      G.SameReachable(r, env.up, tree, PrtTree(t), env.known);
    }
  }

  lemma PrtHits(tree: map<Range, Tree>, t: RuleTree, bintrees: map<RuleTree, Tree>, d: nat, order: Order, env: Env,
                deny: bool, p: Packet)
    requires t.Level? && d < 4 && Ready(t, bintrees) && SamePrts(tree, t, bintrees)
    requires !IsNetAttr(order[d]) && TreeOk(t, d, order, env, deny) && G.Input(env.up, tree, env.known)
    requires forall r :: r in tree ==> (G.Reachable(r, env.up, tree, env.known) <==> HasNode(t, PrtKey(r), env))
    ensures ProtocolTree.AnyElement(tree, ProtocolTree.AllNodes(env, tree), d, order, p, deny) <==>
            KeyHits(t, bintrees, d, order, env, p, deny)
  {
    hide SubtreeHits, G.Reachable, HasNode;
    var v := p.Get(order[d]);
    if KeyHits(t, bintrees, d, order, env, p, deny) {
      var k :| k in t.m && HasNode(t, k, env) && k.Has(v) && SubtreeHits(bintrees[t.m[k]], d, order, p, deny);
      assert KeyOk(k, order[d], env) && k.prt in tree;
      assert k.prt in ProtocolTree.AllNodes(env, tree);
    }
    if r :| r in tree && r in ProtocolTree.AllNodes(env, tree) && r.Has(v) && SubtreeHits(tree[r], d, order, p, deny) {
      assert PrtKey(r) in t.m && PrtKey(r).Has(v);
    }
  }

  method InsertPrts(t: RuleTree, bintrees: map<RuleTree, Tree>, next: nat, env: Env,
                    ghost d: nat, ghost order: Order, ghost deny: bool) returns (bt: Tree)
    requires BintreesSound(bintrees, next, order, env, deny) && t.Level? && d < 4 && Ready(t, bintrees) && NonEmpty(t)
    requires TreeOk(t, d, order, env, deny) && !IsNetAttr(order[d]) && env.Valid()
    ensures bt.Node? && bt.id == next && BintreeFor(bt, t, d, order, env, deny)
  {
    hide BintreesSound, WellFormed, TreeHits, Accepts, HasNode, G.Reachable, G.UpRelation, KeyHits, SubtreeHits;
    hide ProtocolTree.AnyElement;
    var elements, tree := PrtElements(t, bintrees, order[d], env);
    assert t.m.Keys != {};
    ghost var k :| k in t.m;
    assert KeyOk(k, order[d], env) && k.prt in tree && k.prt in elements;
    forall r | r in tree
      ensures WellFormed(tree[r], d + 1, deny)
    {
      SubtreeSound(PrtKey(r), t, bintrees, next, d, order, env, deny);
    }
    SameNodes(tree, t, bintrees, next, order, env, deny);
    bt := ProtocolTree.GenprtBintree(elements, env, tree, next, d, order, deny);
    forall p | RealPacket(p, env)
      ensures TreeHits(bt, d, order, p, deny) <==> Accepts(t, d, order, env, p)
    {
      assert G.PRT_IP.Has(p.Get(order[d]));
      PrtHits(tree, t, bintrees, d, order, env, deny, p);
      KeyHitsAccepts(t, bintrees, next, d, order, env, deny, p);
    }
  }

  // --------------------------------------------------------------------- merging

  /** The binary tree for the root of a rule tree (`insertBintree`). */
  method InsertBintree(t: RuleTree, bintrees: map<RuleTree, Tree>, next: nat, env: Env,
                       d: nat, order: Order, ghost deny: bool) returns (bt: Tree)
    requires BintreesSound(bintrees, next, order, env, deny) && t.Level? && d < 4 && Ready(t, bintrees) && NonEmpty(t)
    requires TreeOk(t, d, order, env, deny) && env.Valid()
    ensures bt.Node? && bt.id == next && BintreeFor(bt, t, d, order, env, deny)
  {
    hide BintreesSound, BintreeFor, TreeOk;
    if IsNetAttr(order[d]) {
      bt := InsertNets(t, bintrees, next, env, d, order, deny);
    } else {
      bt := InsertPrts(t, bintrees, next, env, d, order, deny);
    }
  }

  lemma SoundInsert(bintrees: map<RuleTree, Tree>, next: nat, t: RuleTree, bt: Tree, d: nat, order: Order, env: Env,
                    deny: bool)
    requires BintreesSound(bintrees, next, order, env, deny) && t !in bintrees && d < 4
    requires TreeOk(t, d, order, env, deny) && NonEmpty(t)
    requires bt.Node? && bt.id == next && BintreeFor(bt, t, d, order, env, deny)
    ensures BintreesSound(bintrees[t := bt], next + 1, order, env, deny)
  {
    hide BintreeFor, TreeOk;
    forall e | e <= 4 && TreeOk(t, e, order, env, deny)
      ensures e == d
    {
      TreeLevel(t, d, e, order, env, deny);
    }
  }

  class Merger {
    var bintrees: map<RuleTree, Tree>
    var next: nat

    constructor (order: Order, ghost env: Env, deny: bool)
      ensures BintreesSound(bintrees, next, order, env, deny) && Action(deny) in bintrees
    {
      bintrees, next := map[Action(deny) := Leaf(deny)], 0;
    }

    method NewSubtree(subtree: RuleTree, depth: nat, order: Order, env: Env, ghost deny: bool)
      requires BintreesSound(bintrees, next, order, env, deny) && env.Valid() && subtree !in bintrees
      requires subtree.Level? && depth < 4 && TreeOk(subtree, depth, order, env, deny) && NonEmpty(subtree)
      requires Ready(subtree, bintrees)
      modifies this
      ensures BintreesSound(bintrees, next, order, env, deny)
      ensures bintrees.Keys == old(bintrees).Keys + {subtree} && Extends(bintrees, old(bintrees))
    {
      hide BintreesSound, TreeOk, NonEmpty, BintreeFor;
      var bt := InsertBintree(subtree, bintrees, next, env, depth, order, deny);
      SoundInsert(bintrees, next, subtree, bt, depth, order, env, deny);
      bintrees, next := bintrees[subtree := bt], next + 1;
    }

    /** Generates a binary tree for each subtree of `tree` which has not been
        seen before. */
    method MergeSubtrees1(tree: RuleTree, depth: nat, order: Order, env: Env, ghost deny: bool)
      requires BintreesSound(bintrees, next, order, env, deny) && env.Valid()
      requires tree.Level? && depth < 3 && TreeOk(tree, depth, order, env, deny)
      requires forall k :: k in tree.m ==> Ready(tree.m[k], bintrees)
      modifies this
      ensures BintreesSound(bintrees, next, order, env, deny) && Extends(bintrees, old(bintrees))
      ensures Ready(tree, bintrees)
    {
      hide BintreesSound, TreeOk, NonEmpty, BintreeFor;
      var rest := tree.m.Keys;
      while rest != {}
        invariant rest <= tree.m.Keys
        invariant BintreesSound(bintrees, next, order, env, deny) && Extends(bintrees, old(bintrees))
        invariant forall k :: k in tree.m && k !in rest ==> tree.m[k] in bintrees
        decreases rest
      {
        var k :| k in rest;
        Below(tree, depth, k, order, env, deny);
        rest := rest - {k};
        if tree.m[k] !in bintrees {
          NewSubtree(tree.m[k], depth + 1, order, env, deny);
        }
      }
    }

    /** Merges subtrees, leaf nodes first, and returns the binary tree of the root. */
    method MergeSubtrees(tree: RuleTree, order: Order, env: Env, ghost deny: bool) returns (bintree: Tree)
      requires BintreesSound(bintrees, next, order, env, deny) && env.Valid() && Action(deny) in bintrees
      requires tree.Level? && NonEmpty(tree) && TreeOk(tree, 0, order, env, deny)
      modifies this
      ensures bintree.Node? && BintreeFor(bintree, tree, 0, order, env, deny)
    {
      hide BintreesSound, TreeOk, NonEmpty, BintreeFor;
      var rest := tree.m.Keys;
      while rest != {}
        invariant rest <= tree.m.Keys && Action(deny) in bintrees
        invariant BintreesSound(bintrees, next, order, env, deny)
        invariant forall k :: k in tree.m && k !in rest ==> SubtreesReady(tree.m[k], bintrees)
        decreases rest
      {
        var k :| k in rest;
        Below(tree, 0, k, order, env, deny);
        MergeLevel2(tree.m[k], order, env, deny);
        rest := rest - {k};
      }
      rest := tree.m.Keys;
      while rest != {}
        invariant rest <= tree.m.Keys
        invariant BintreesSound(bintrees, next, order, env, deny)
        invariant forall k :: k in tree.m ==> SubtreesReady(tree.m[k], bintrees)
        invariant forall k :: k in tree.m && k !in rest ==> Ready(tree.m[k], bintrees)
        decreases rest
      {
        var k :| k in rest;
        Below(tree, 0, k, order, env, deny);
        MergeSubtrees1(tree.m[k], 1, order, env, deny);
        rest := rest - {k};
      }
      MergeSubtrees1(tree, 0, order, env, deny);
      bintree := InsertBintree(tree, bintrees, next, env, 0, order, deny);
    }

    /** Merges the subtrees of all subtrees of `tree1`, a node next to the root. */
    method MergeLevel2(tree1: RuleTree, order: Order, env: Env, ghost deny: bool)
      requires BintreesSound(bintrees, next, order, env, deny) && env.Valid() && Action(deny) in bintrees
      requires tree1.Level? && TreeOk(tree1, 1, order, env, deny)
      modifies this
      ensures BintreesSound(bintrees, next, order, env, deny) && Extends(bintrees, old(bintrees))
      ensures SubtreesReady(tree1, bintrees)
    {
      hide BintreesSound, TreeOk, NonEmpty, BintreeFor;
      var rest := tree1.m.Keys;
      while rest != {}
        invariant rest <= tree1.m.Keys && Extends(bintrees, old(bintrees))
        invariant BintreesSound(bintrees, next, order, env, deny)
        invariant forall k :: k in tree1.m && k !in rest ==> Ready(tree1.m[k], bintrees)
        decreases rest
      {
        var k :| k in rest;
        Below(tree1, 1, k, order, env, deny);
        forall l | l in tree1.m[k].m
          ensures Ready(tree1.m[k].m[l], bintrees)
        {
          LeavesReady(tree1.m[k], l, bintrees, order, env, deny);
        }
        MergeSubtrees1(tree1.m[k], 2, order, env, deny);
        rest := rest - {k};
      }
    }
  }

  // ------------------------------------------------------------------------ chains

  /** Number of different values of an attribute; of attributes with the same
      number, the one that comes first in `attrOrder` stays first. */
  function CountKey(rules: seq<GroupRule>, a: Attr): (int, int) {
    (|set i | 0 <= i < |rules| :: KeyOf(rules[i], a)|,
     match a case SrcRange => 0 case Dst => 1 case Prt => 2 case Src => 3)
  }

  ghost predicate AttrOrder(order: Order, rules: seq<GroupRule>) {
    Sorting.Sorted(order, a => CountKey(rules, a))
  }

  ghost function Different(rules: seq<GroupRule>, a: Attr): set<Key> {
    set i | 0 <= i < |rules| :: KeyOf(rules[i], a)
  }

  /** Attributes with fewer different keys come first; of those with the same number, the
      one that is first in `attrOrder`. */
  lemma FewestFirst(order: Order, rules: seq<GroupRule>, i: nat, j: nat)
    requires AttrOrder(order, rules) && i < j < 4
    ensures |Different(rules, order[i])| <= |Different(rules, order[j])|
    ensures |Different(rules, order[i])| == |Different(rules, order[j])| ==>
              || (order[i] == SrcRange) || (order[i] == Dst && order[j] != SrcRange)
              || (order[i] == Prt && order[j] == Src)
  {
    assert order[i] != order[j];
    assert Sorting.Before(CountKey(rules, order[i]), CountKey(rules, order[j]));
  }

  /** Use key with smaller number of different values first in rule tree. */
  method FindOrder(rules: seq<GroupRule>) returns (order: Order)
    ensures AttrOrder(order, rules)
    ensures forall i, j :: 0 <= i < j < 4 ==> |Different(rules, order[i])| <= |Different(rules, order[j])|
  {
    var attrs := [SrcRange, Dst, Prt, Src];
    var count := (a: Attr) => CountKey(rules, a);
    var sorted := Sorting.Sort(attrs, count);
    Sorting.SameElements(sorted, attrs);
    Sorting.DistinctSame(sorted, attrs);
    order := sorted;
    forall i, j | 0 <= i < j < |order|
      ensures Sorting.Before(CountKey(rules, order[i]), CountKey(rules, order[j]))
    {
      assert Sorting.Before(count(sorted[i]), count(sorted[j]));
    }
    forall i, j | 0 <= i < j < 4
      ensures |Different(rules, order[i])| <= |Different(rules, order[j])|
    {
      FewestFirst(order, rules, i, j);
    }
  }

  /** The machine, started with `rules`, halts with this outcome. */
  ghost predicate Outputs(rules: Rules, chains: seq<Rules>, p: Packet, o: Outcome) {
    && ClosedChains(chains) && Closed(rules, |chains|)
    && exists fuel: nat :: Run(fuel, chains, p, [rules]) == Some(o)
  }

  /** The machine decides exactly those packets that match a path of the rule
      tree all of whose keys got nodes, and falls through for all others. */
  ghost predicate DecidesLike(result: Rules, chains: seq<Rules>, rules: seq<GroupRule>, order: Order, env: Env,
                              deny: bool) {
    forall p :: RealPacket(p, env) ==>
      Outputs(result, chains, p,
              if Accepts(TreeOf(rules, order, deny), 0, order, env, p) then Decided(deny) else FellThrough)
  }

  /** Compiles a group of rules with the same action to chains.  The machine
      falls through for packets that no rule of the group matches.  It decides
      with the action of the group about the packets that some rule matches,
      if no rule shadows another one or no three protocols below 'ip' are
      nested; otherwise, the keys with nodes tell about which packets it
      decides. */
  method FindChains(rules: seq<GroupRule>, env: Env, deny: bool) returns (result: Rules, chains: seq<Rules>)
    requires rules != [] && env.Valid() && forall i :: 0 <= i < |rules| ==> RuleOk(rules[i], env)
    ensures exists order :: AttrOrder(order, rules) && DecidesLike(result, chains, rules, order, env, deny)
    ensures forall p :: RealPacket(p, env) && !SomeRuleMatches(rules, p) ==> Outputs(result, chains, p, FellThrough)
    ensures LongChains(chains) && EndsWithGoto(result)
    ensures NoneShadowed(rules) || !ThreeNested(env.known) ==>
              forall p :: RealPacket(p, env) ==>
                Outputs(result, chains, p, if SomeRuleMatches(rules, p) then Decided(deny) else FellThrough)
  {
    hide BintreesSound, TreeOk, NonEmpty, HasPath, NoneShadowed, ThreeNested, AttrOrder;
    hide RuleOk, SomeKeys, SomeRuleMatches, TreeHits, Accepts, WellFormed, Outputs, Compiled;
    var order := FindOrder(rules);
    var tree := BuildTree(rules, order, env, deny);
    var merger := new Merger(order, env, deny);
    var bintree := merger.MergeSubtrees(tree, order, env, deny);
    var compiler := new Compiler();
    result := compiler.GenChain(bintree, order, 0, deny);
    chains := compiler.chains;
    compiler.ValidChains(order, deny);
    CompiledSound(result, chains, bintree, 0, order, deny);
    forall p | RealPacket(p, env)
      ensures Outputs(result, chains, p, if Accepts(tree, 0, order, env, p) then Decided(deny) else FellThrough)
      ensures Accepts(tree, 0, order, env, p) ==> SomeRuleMatches(rules, p)
      ensures NoneShadowed(rules) || !ThreeNested(env.known) ==>
                (Accepts(tree, 0, order, env, p) <==> SomeRuleMatches(rules, p))
    {
      MachineDecides(result, chains, bintree, order, p, deny);
      AcceptedMatches(rules, order, env, deny, p);
      if NoneShadowed(rules) {
        UnshadowedMatches(rules, order, env, deny, p);
      } else if !ThreeNested(env.known) {
        FlatMatches(rules, order, env, deny, p);
      }
    }
    assert DecidesLike(result, chains, rules, order, env, deny);
  }

  /** The tree of the rules never matches too much. */
  lemma AcceptedMatches(rules: seq<GroupRule>, order: Order, env: Env, deny: bool, p: Packet)
    requires env.Valid() && RealPacket(p, env) && forall i :: 0 <= i < |rules| ==> RuleOk(rules[i], env)
    ensures Accepts(TreeOf(rules, order, deny), 0, order, env, p) ==> SomeRuleMatches(rules, p)
  {
    hide RuleOk, Accepts, InTree, TreeOk, HasPath, SomeKeys;
    TreeOfPaths(rules, order, env, deny);
    TreeMatches(rules, TreeOf(rules, order, deny), order, env, p);
    if Accepts(TreeOf(rules, order, deny), 0, order, env, p) {
      AcceptsInTree(TreeOf(rules, order, deny), 0, order, env, p);
    }
  }

  /** If nothing gets lost in the tree, it matches like the rules. */
  lemma LosslessMatches(rules: seq<GroupRule>, order: Order, env: Env, deny: bool, p: Packet)
    requires env.Valid() && RealPacket(p, env) && forall i :: 0 <= i < |rules| ==> RuleOk(rules[i], env)
    requires Lossless(TreeOf(rules, order, deny), 0, env)
    ensures Accepts(TreeOf(rules, order, deny), 0, order, env, p) <==> SomeRuleMatches(rules, p)
  {
    hide RuleOk, Accepts, InTree, TreeOk, HasPath, SomeKeys, Lossless;
    TreeOfPaths(rules, order, env, deny);
    TreeMatches(rules, TreeOf(rules, order, deny), order, env, p);
    LosslessAccepts(TreeOf(rules, order, deny), 0, order, env, deny, p);
  }

  /** Without shadowed protocols the tree matches like the rules. */
  lemma UnshadowedMatches(rules: seq<GroupRule>, order: Order, env: Env, deny: bool, p: Packet)
    requires env.Valid() && RealPacket(p, env) && forall i :: 0 <= i < |rules| ==> RuleOk(rules[i], env)
    requires NoneShadowed(rules)
    ensures Accepts(TreeOf(rules, order, deny), 0, order, env, p) <==> SomeRuleMatches(rules, p)
  {
    hide RuleOk, Accepts, TreeOk, HasPath, SomeKeys, Lossless, Unshadowed, NoneShadowed;
    var tree := TreeOf(rules, order, deny);
    TreeOfPaths(rules, order, env, deny);
    PathsAtRoot(rules, tree, order);
    TreeUnshadowed(rules, tree, 0, [], order, env, deny);
    UnshadowedLossless(tree, 0, order, env);
    LosslessMatches(rules, order, env, deny, p);
  }

  /** Without three nested protocols below 'ip' the tree matches like the rules. */
  lemma FlatMatches(rules: seq<GroupRule>, order: Order, env: Env, deny: bool, p: Packet)
    requires env.Valid() && RealPacket(p, env) && forall i :: 0 <= i < |rules| ==> RuleOk(rules[i], env)
    requires !ThreeNested(env.known)
    ensures Accepts(TreeOf(rules, order, deny), 0, order, env, p) <==> SomeRuleMatches(rules, p)
  {
    hide RuleOk, Accepts, Lossless, ThreeNested;
    FlatLossless(TreeOf(rules, order, deny), 0, env);
    LosslessMatches(rules, order, env, deny, p);
  }

  /** The machine decides like the compiled tree. */
  lemma MachineDecides(result: Rules, chains: seq<Rules>, bintree: Tree, order: Order, p: Packet, deny: bool)
    requires Compiled(result, chains, bintree, 0, order, deny)
    ensures Outputs(result, chains, p, if TreeHits(bintree, 0, order, p, deny) then Decided(deny) else FellThrough)
  {
    hide Hits, TreeHits, Eval;
    EvalHits(result, chains, |chains|, p, deny);
    var fuel := RunEval(result, chains, |chains|, p, [], 0);
    assert [result] + [] == [result];
  }

  lemma PathsAtRoot(rules: seq<GroupRule>, tree: RuleTree, order: Order)
    requires forall keys :: |keys| == 4 ==> (HasPath(tree, keys) <==> SomeKeys(rules, |rules|, order, keys))
    ensures PathsOfRules(tree, 0, [], rules, order)
  {
    forall keys: seq<Key> | |keys| == 4 && HasPath(tree, keys)
      ensures SomeKeys(rules, |rules|, order, [] + keys)
    {
      assert [] + keys == keys;
    }
  }

  lemma LeavesReady(t: RuleTree, l: Key, bintrees: map<RuleTree, Tree>, order: Order, env: Env, deny: bool)
    requires t.Level? && TreeOk(t, 2, order, env, deny) && l in t.m && Action(deny) in bintrees
    ensures Ready(t.m[l], bintrees)
  {
    forall k | k in t.m[l].m
      ensures t.m[l].m[k] in bintrees
    {
      assert TreeOk(t.m[l], 3, order, env, deny);
    }
  }

  /** What is known of a tree holds for its subtrees. */
  lemma Below(t: RuleTree, d: nat, k: Key, order: Order, env: Env, deny: bool)
    requires d < 4 && t.Level? && TreeOk(t, d, order, env, deny) && k in t.m
    ensures TreeOk(t.m[k], d + 1, order, env, deny) && NonEmpty(t.m[k])
    ensures d < 3 ==> t.m[k].Level?
    ensures d == 3 ==> t.m[k] == Action(deny)
  {}
}
