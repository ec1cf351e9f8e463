/** The binary trees of networks and of protocols, as the compiler of chains
    sees them (the methods `Hi`, `Lo`, `Seq`, `Subtree`, `Noop` of `npBintree`
    in go/cmd/spoc2/main.go).
  */
module BintreeViews {
  import opened Wrappers
  import opened Iptables
  import opened Prefixes
  import opened ChainCompiler
  import A = AddrBintree
  import P = PrtBintree

  /** Addresses of a network. */
  function NetRange(n: Prefix): Range {
    Range(n.base, n.base + Pow2(n.inv) - 1)
  }

  function NetValue(t: A.NetTree<Tree>, id: nat, noop: bool): Tree
    requires t.Node?
  {
    Node(id, NetRange(t.net), noop, t.subtree,
         if t.hi.Nil? then None else Some(NetValue(t.hi, id, false)),
         if t.lo.Nil? then None else Some(NetValue(t.lo, id, false)), [])
  }

  /** A linked tree, seen as a tree of tests; only the root may be `noop`. */
  function NetView(b: A.NetBintree<Tree>, id: nat, noop: bool): (t: Tree)
    requires b.Valid()
    reads b, b.Repr
    ensures t == NetValue(b.Value(), id, noop)
    decreases b.Repr
  {
    Node(id, NetRange(b.net), noop, b.subtree,
         if b.hi == null then None else Some(NetView(b.hi, id, false)),
         if b.lo == null then None else Some(NetView(b.lo, id, false)), [])
  }

  function PrtView(t: P.PrtTree<Tree>, id: nat): Tree
    requires t.Node?
  {
    Node(id, t.range, false, t.subtree,
         if t.hi.Nil? then None else Some(PrtView(t.hi, id)),
         if t.lo.Nil? then None else Some(PrtView(t.lo, id)), [])
  }

  /** `s` is a tree of level `d + 1` that has the packet. */
  ghost predicate SubtreeHits(s: Tree, d: nat, order: Order, p: Packet, deny: bool) {
    WellFormed(s, d + 1, deny) && TreeHits(s, d + 1, order, p, deny)
  }

  /** A node with at most two branches inside it, the low before the high one. */
  lemma TwoBranches(v: Tree, d: nat, deny: bool)
    requires v.Node? && v.subnodes == [] && d < 4
    requires v.subtree.Some? ==> WellFormed(v.subtree.value, d + 1, deny)
    requires v.subtree.Some? || v.lo.Some? || v.hi.Some?
    requires v.lo.Some? ==> WellFormed(v.lo.value, d, deny) && BranchOf(v.lo.value, v)
    requires v.hi.Some? ==> WellFormed(v.hi.value, d, deny) && BranchOf(v.hi.value, v)
    requires v.lo.Some? && v.hi.Some? ==> v.lo.value.range.high < v.hi.value.range.low
    ensures WellFormed(v, d, deny)
  {
    assert forall i :: 0 <= i < |v.Seq()| ==> Within(v.Seq()[i], v);
  }

  predicate BranchOf(kid: Tree, v: Tree)
    requires v.Node?
  {
    kid.Node? && !kid.noop && v.range.low <= kid.range.low && kid.range.high <= v.range.high
  }

  // -------------------------------------------------------------------- networks

  ghost predicate NetSubtrees(t: A.NetTree<Tree>, d: nat, deny: bool) {
    t.Node? ==>
      && (t.subtree.Some? ==> WellFormed(t.subtree.value, d + 1, deny))
      && NetSubtrees(t.lo, d, deny) && NetSubtrees(t.hi, d, deny)
  }

  lemma {:induction false} NetSubtreesOf(t: A.NetTree<Tree>, bits: nat, d: nat, deny: bool)
    requires A.Shape(t, bits) && forall a, s :: A.Leads(t, a, s) ==> WellFormed(s, d + 1, deny)
    ensures NetSubtrees(t, d, deny)
    decreases t
  {
    if t.Node? {
      if t.subtree.Some? {
        assert A.Leads(t, t.net.base, t.subtree.value);
      }
      forall a, s | A.Leads(t.lo, a, s) || A.Leads(t.hi, a, s)
        ensures WellFormed(s, d + 1, deny)
      {
        assert A.Leads(t, a, s);
      }
      NetSubtreesOf(t.lo, bits, d, deny);
      NetSubtreesOf(t.hi, bits, d, deny);
    }
  }

  /** The branches of a network, as ranges. */
  lemma NetBranches(t: A.NetTree<Tree>, bits: nat)
    requires t.Node? && A.Shape(t, bits)
    ensures t.lo.Node? ==>
              NetRange(t.net).low <= NetRange(t.lo.net).low && NetRange(t.lo.net).high <= NetRange(t.net).high
    ensures t.hi.Node? ==>
              NetRange(t.net).low <= NetRange(t.hi.net).low && NetRange(t.hi.net).high <= NetRange(t.net).high
    ensures t.lo.Node? && t.hi.Node? ==> NetRange(t.lo.net).high < NetRange(t.hi.net).low
  {
    hide Trunc;
    if t.net.inv > 0 {
      HalvesValid(t.net);
      if t.lo.Node? {
        CoversInterval(LeftHalf(t.net), t.lo.net);
      }
      if t.hi.Node? {
        CoversInterval(RightHalf(t.net), t.hi.net);
      }
    }
  }

  lemma {:induction false} NetValueWellFormed(t: A.NetTree<Tree>, id: nat, noop: bool, bits: nat, d: nat, deny: bool)
    requires t.Node? && A.Shape(t, bits) && NetSubtrees(t, d, deny) && d < 4
    ensures WellFormed(NetValue(t, id, noop), d, deny)
    decreases t
  {
    hide Pow2, Trunc, WellFormed;
    NetBranches(t, bits);
    if t.lo.Node? {
      NetValueWellFormed(t.lo, id, false, bits, d, deny);
    }
    if t.hi.Node? {
      NetValueWellFormed(t.hi, id, false, bits, d, deny);
    }
    TwoBranches(NetValue(t, id, noop), d, deny);
  }

  /** The tree of tests has a packet exactly if its address leads to a subtree
      that has it. */
  lemma {:induction false} NetValueHits(t: A.NetTree<Tree>, id: nat, noop: bool, bits: nat, d: nat,
                                        order: Order, p: Packet, deny: bool)
    requires t.Node? && A.Shape(t, bits) && NetSubtrees(t, d, deny) && d < 4 && p.Get(order[d]) >= 0
    requires noop ==> t.net.Has(p.Get(order[d]))
    ensures WellFormed(NetValue(t, id, noop), d, deny)
    ensures TreeHits(NetValue(t, id, noop), d, order, p, deny) <==>
            exists s :: A.Leads(t, p.Get(order[d]), s) && SubtreeHits(s, d, order, p, deny)
    decreases t
  {
    hide Pow2, Trunc, WellFormed, TreeHits, A.Shape;
    NetValueWellFormed(t, id, noop, bits, d, deny);
    NetShape(t, bits);
    var v, a := NetValue(t, id, noop), p.Get(order[d]);
    if t.lo.Node? {
      NetValueHits(t.lo, id, false, bits, d, order, p, deny);
    }
    if t.hi.Node? {
      NetValueHits(t.hi, id, false, bits, d, order, p, deny);
    }
    KidHits(v, d, order, p, deny);
    assert v.Has(a) <==> t.net.Has(a);
    assert forall s :: A.Leads(t.lo, a, s) || A.Leads(t.hi, a, s) ==> A.Leads(t, a, s);
    if t.subtree.Some? && t.net.Has(a) {
      assert A.Leads(t, a, t.subtree.value);
      assert SubtreeHits(t.subtree.value, d, order, p, deny) == TreeHits(t.subtree.value, d + 1, order, p, deny);
    }
    if s :| A.Leads(t, a, s) && SubtreeHits(s, d, order, p, deny) {
      assert (t.subtree == Some(s) && t.net.Has(a)) || A.Leads(t.lo, a, s) || A.Leads(t.hi, a, s);
    }
  }

  lemma NetShape(t: A.NetTree<Tree>, bits: nat)
    requires t.Node? && A.Shape(t, bits)
    ensures A.Shape(t.lo, bits) && A.Shape(t.hi, bits)
  {}

  /** `TreeHits` for a node with two branches. */
  lemma KidHits(v: Tree, d: nat, order: Order, p: Packet, deny: bool)
    requires v.Node? && v.subnodes == [] && WellFormed(v, d, deny)
    ensures v.lo.Some? ==> WellFormed(v.lo.value, d, deny)
    ensures v.hi.Some? ==> WellFormed(v.hi.value, d, deny)
    ensures v.subtree.Some? ==> WellFormed(v.subtree.value, d + 1, deny)
    ensures d < 4
    ensures TreeHits(v, d, order, p, deny) <==>
            || (v.subtree.Some? && v.Has(p.Get(order[d])) && TreeHits(v.subtree.value, d + 1, order, p, deny))
            || (v.lo.Some? && TreeHits(v.lo.value, d, order, p, deny))
            || (v.hi.Some? && TreeHits(v.hi.value, d, order, p, deny))
  {
    var s := v.Seq();
    if v.lo.Some? {
      assert s[|s| - 1] == v.lo.value;
    }
    if v.hi.Some? {
      assert s[0] == v.hi.value;
    }
  }

  // ------------------------------------------------------------------- protocols

  ghost predicate PrtSubtrees(t: P.PrtTree<Tree>, d: nat, deny: bool) {
    t.Node? ==>
      && (t.subtree.Some? ==> WellFormed(t.subtree.value, d + 1, deny))
      && PrtSubtrees(t.lo, d, deny) && PrtSubtrees(t.hi, d, deny)
  }

  lemma {:induction false} PrtSubtreesOf(t: P.PrtTree<Tree>, d: nat, deny: bool)
    requires P.Shape(t) && forall a, s :: P.Leads(t, a, s) ==> WellFormed(s, d + 1, deny)
    ensures PrtSubtrees(t, d, deny)
    decreases t
  {
    if t.Node? {
      if t.subtree.Some? {
        assert P.Leads(t, t.range.low, t.subtree.value);
      }
      forall a, s | P.Leads(t.lo, a, s) || P.Leads(t.hi, a, s)
        ensures WellFormed(s, d + 1, deny)
      {
        assert P.Leads(t, a, s);
      }
      PrtSubtreesOf(t.lo, d, deny);
      PrtSubtreesOf(t.hi, d, deny);
    }
  }

  lemma {:induction false} PrtViewHits(t: P.PrtTree<Tree>, id: nat, d: nat, order: Order, p: Packet, deny: bool)
    requires t.Node? && P.Shape(t) && PrtSubtrees(t, d, deny) && d < 4
    ensures WellFormed(PrtView(t, id), d, deny)
    ensures TreeHits(PrtView(t, id), d, order, p, deny) <==>
            exists s :: P.Leads(t, p.Get(order[d]), s) && SubtreeHits(s, d, order, p, deny)
    decreases t
  {
    hide WellFormed, TreeHits;
    var v, a := PrtView(t, id), p.Get(order[d]);
    if t.lo.Node? {
      PrtViewHits(t.lo, id, d, order, p, deny);
    }
    if t.hi.Node? {
      PrtViewHits(t.hi, id, d, order, p, deny);
    }
    TwoBranches(v, d, deny);
    KidHits(v, d, order, p, deny);
    assert forall s :: P.Leads(t.lo, a, s) || P.Leads(t.hi, a, s) ==> P.Leads(t, a, s);
    if t.subtree.Some? && t.range.Has(a) {
      assert P.Leads(t, a, t.subtree.value);
      assert SubtreeHits(t.subtree.value, d, order, p, deny) == TreeHits(t.subtree.value, d + 1, order, p, deny);
    }
    if s :| P.Leads(t, a, s) && SubtreeHits(s, d, order, p, deny) {
      assert (t.subtree == Some(s) && t.range.Has(a)) || P.Leads(t.lo, a, s) || P.Leads(t.hi, a, s);
    }
  }
}
