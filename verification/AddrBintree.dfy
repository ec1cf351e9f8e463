/** Binary trees of networks (`addBintree`, `genAddrBintree` in
    go/cmd/spoc2/main.go).

    A tree stands for the relation "address `a` leads to subtree `s`".  The
    class `NetBintree` is the linked tree that `AddBintree` changes in place;
    `NetTree` is its value, on which the meaning is stated.
  */
module AddrBintree {
  import opened Wrappers
  import opened Iptables
  import opened Prefixes
  import Sorting

  datatype NetTree<+S> = Nil | Node(net: Prefix, subtree: Option<S>, lo: NetTree<S>, hi: NetTree<S>)

  /** The relation that a tree stands for. */
  ghost predicate Leads<S>(t: NetTree<S>, a: nat, s: S) {
    t.Node? &&
    ((t.subtree == Some(s) && t.net.Has(a)) || Leads(t.lo, a, s) || Leads(t.hi, a, s))
  }

  /** Networks below a node lie in that half of it to which they are linked;
      nodes without subtree have two branches. */
  ghost predicate Shape<S>(t: NetTree<S>, bits: nat) {
    t.Node? ==>
      && t.net.Valid() && t.net.inv <= bits && t.net.base < Pow2(bits)
      && (t.subtree.Some? || (t.lo.Node? && t.hi.Node?))
      && (t.lo.Node? ==> t.net.inv > 0 && LeftHalf(t.net).Covers(t.lo.net))
      && (t.hi.Node? ==> t.net.inv > 0 && RightHalf(t.net).Covers(t.hi.net))
      && Shape(t.lo, bits)
      && Shape(t.hi, bits)
  }

  /** The network `n` is not larger than any node of the tree, and differs from them. */
  ghost predicate Fits<S>(t: NetTree<S>, n: Prefix) {
    t.Node? ==> n.inv <= t.net.inv && n != t.net && Fits(t.lo, n) && Fits(t.hi, n)
  }

  // ---------------------------------------------------------- value of insertion

  /** Width of the smallest network, at least `j` bits wide, that has both addresses. */
  function CommonInv(bits: nat, a: nat, b: nat, j: nat): (r: nat)
    requires a < Pow2(bits) && b < Pow2(bits) && j <= bits
    ensures j <= r <= bits && Trunc(a, r) == Trunc(b, r)
    ensures r > j ==> Trunc(a, r - 1) != Trunc(b, r - 1)
    decreases bits - j
  {
    if Trunc(a, j) == Trunc(b, j) then j
    else
      WholeRange(a, bits);
      WholeRange(b, bits);
      CommonInv(bits, a, b, j + 1)
  }

  lemma WholeRange(a: nat, bits: nat)
    requires a < Pow2(bits)
    ensures Trunc(a, bits) == 0
  {
    TruncUnique(a, 0, bits);
  }

  /** Two halves without branches and with the same subtree become one node. */
  function Merge<S(==)>(t: NetTree<S>): NetTree<S> {
    if t.Node? && t.subtree.None? && t.lo.Node? && t.hi.Node? &&
       t.lo.net.inv + 1 == t.net.inv && t.hi.net.inv + 1 == t.net.inv &&
       t.lo.subtree.Some? && t.hi.subtree.Some? && t.lo.subtree == t.hi.subtree &&
       t.lo.lo.Nil? && t.lo.hi.Nil? && t.hi.lo.Nil? && t.hi.hi.Nil?
    then Node(t.net, t.lo.subtree, Nil, Nil)
    else t
  }

  /** The common root of two networks that do not contain each other. */
  function CommonRoot<S>(bits: nat, t: NetTree<S>, node: NetTree<S>): NetTree<S>
    requires t.Node? && node.Node? && t.net.inv < bits
    requires t.net.base < Pow2(bits) && node.net.base < Pow2(bits)
  {
    var inv := CommonInv(bits, t.net.base, node.net.base, t.net.inv + 1);
    var root := Prefix(Trunc(node.net.base, inv), inv);
    if node.net.base < t.net.base then Node(root, None, node, t) else Node(root, None, t, node)
  }

  function Insert<S(==)>(bits: nat, t: NetTree<S>, node: NetTree<S>): NetTree<S>
    requires t.Node? && node.Node? && Shape(t, bits) && Shape(node, bits) && Fits(t, node.net)
    decreases t
  {
    Merge(
      if node.net.inv < t.net.inv && t.net.Has(node.net.base) then
        if t.subtree.Some? && t.subtree == node.subtree then t
        else if Trunc(node.net.base, t.net.inv - 1) == t.net.base then
          t.(lo := if t.lo.Node? then Insert(bits, t.lo, node) else node)
        else
          t.(hi := if t.hi.Node? then Insert(bits, t.hi, node) else node)
      else
        Apart(bits, t, node);
        CommonRoot(bits, t, node))
  }

  /** Two networks that do not contain each other already differ at the width
      of the larger one, and neither is the whole address range. */
  lemma {:induction false} Apart<S>(bits: nat, t: NetTree<S>, node: NetTree<S>)
    requires t.Node? && node.Node? && Shape(t, bits) && Shape(node, bits) && Fits(t, node.net)
    requires !(node.net.inv < t.net.inv && t.net.Has(node.net.base))
    ensures t.net.inv < bits && Trunc(t.net.base, t.net.inv) != Trunc(node.net.base, t.net.inv)
  {
    HasTrunc(t.net, t.net.base);
    HasTrunc(t.net, node.net.base);
    HasTrunc(node.net, node.net.base);
    if t.net.inv == bits {
      WholeRange(t.net.base, bits);
    }
  }

  // ------------------------------------------------------------ its properties

  lemma {:induction false} MergeKeeps<S(!new)>(t: NetTree<S>, bits: nat, n: Prefix)
    requires Shape(t, bits) && Fits(t, n)
    ensures Shape(Merge(t), bits) && Fits(Merge(t), n)
    ensures t.Node? ==> Merge(t).Node? && Merge(t).net == t.net
    ensures forall a, s :: Leads(Merge(t), a, s) <==> Leads(t, a, s)
  {
    if Merge(t) != t {
      HalvesValid(t.net);
      CoversAntisymWidth(LeftHalf(t.net), t.lo.net);
      CoversAntisymWidth(RightHalf(t.net), t.hi.net);
      forall a, s
        ensures Leads(Merge(t), a, s) <==> Leads(t, a, s)
      {
        assert Leads(t, a, s) <==> Leads(t.lo, a, s) || Leads(t.hi, a, s);
      }
    }
  }

  lemma CoversAntisymWidth(p: Prefix, n: Prefix)
    requires p.Valid() && n.Valid() && p.Covers(n) && p.inv == n.inv
    ensures p == n
  {
    TruncUnique(n.base, n.base, n.inv);
  }

  lemma CommonInvFacts(bits: nat, a: nat, b: nat, j: nat)
    requires a < Pow2(bits) && b < Pow2(bits) && j <= bits
    ensures var r := CommonInv(bits, a, b, j);
            && j <= r <= bits && Trunc(a, r) == Trunc(b, r)
            && (r > j ==> Trunc(a, r - 1) != Trunc(b, r - 1))
  {}

  /** Addresses that differ at some width differ at every smaller one. */
  lemma NoSmaller(a: nat, b: nat, inv: nat, q: nat)
    requires Trunc(a, inv) != Trunc(b, inv) && Trunc(a, q) == Trunc(b, q)
    ensures inv < q
  {
    hide Trunc;
    if q <= inv {
      TruncTrunc(a, q, inv);
      TruncTrunc(b, q, inv);
    }
  }

  /** The common root is the smallest network that contains both. */
  lemma CommonRootSmallest(bits: nat, m: Prefix, n: Prefix, inv: nat, p: Prefix)
    requires m.base < Pow2(bits) && n.base < Pow2(bits)
    requires m.inv < bits && Trunc(m.base, m.inv) != Trunc(n.base, m.inv)
    requires inv == CommonInv(bits, m.base, n.base, m.inv + 1)
    requires p.Covers(m) && p.Covers(n)
    ensures p.Covers(Prefix(Trunc(n.base, inv), inv))
  {
    hide Trunc, Pow2, CommonInv;
    CommonInvFacts(bits, m.base, n.base, m.inv + 1);
    NoSmaller(m.base, n.base, inv - 1, p.inv);
    TruncTrunc(n.base, inv, p.inv);
  }

  /** Where the common root of two networks puts them. */
  lemma CommonRootNet(bits: nat, m: Prefix, n: Prefix)
    requires m.Valid() && n.Valid() && m.base < Pow2(bits) && n.base < Pow2(bits)
    requires n.inv <= m.inv < bits && Trunc(m.base, m.inv) != Trunc(n.base, m.inv)
    ensures var inv := CommonInv(bits, m.base, n.base, m.inv + 1);
            var r := Prefix(Trunc(n.base, inv), inv);
            && r.Valid() && r.base < Pow2(bits) && m.inv < inv <= bits
            && (if n.base < m.base then LeftHalf(r).Covers(n) && RightHalf(r).Covers(m)
                else LeftHalf(r).Covers(m) && RightHalf(r).Covers(n))
  {
    hide Trunc, Pow2, CommonInv;
    CommonInvFacts(bits, m.base, n.base, m.inv + 1);
    var inv := CommonInv(bits, m.base, n.base, m.inv + 1);
    TruncBelow(n.base, inv);
    if n.base < m.base {
      OppositeHalves(n, m, inv);
    } else {
      OppositeHalves(m, n, inv);
    }
  }

  lemma TruncBelow(a: nat, k: nat)
    ensures Trunc(a, k) <= a
  {}

  lemma {:induction false} CommonRootKeeps<S(!new)>(bits: nat, t: NetTree<S>, node: NetTree<S>, n: Prefix)
    requires t.Node? && node.Node? && Shape(t, bits) && Shape(node, bits) && Fits(t, node.net)
    requires !(node.net.inv < t.net.inv && t.net.Has(node.net.base))
    requires Fits(t, n) && Fits(node, n)
    ensures t.net.inv < bits
    ensures var r := CommonRoot(bits, t, node);
            && Shape(r, bits) && Fits(r, n)
            && (forall p: Prefix :: p.Valid() && p.Covers(t.net) && p.Covers(node.net) ==> p.Covers(r.net))
            && forall a, s :: Leads(r, a, s) <==> Leads(t, a, s) || Leads(node, a, s)
  {
    hide Trunc, Pow2;
    Apart(bits, t, node);
    CommonRootNet(bits, t.net, node.net);
    forall p: Prefix | p.Valid() && p.Covers(t.net) && p.Covers(node.net)
      ensures p.Covers(CommonRoot(bits, t, node).net)
    {
      CommonRootSmallest(bits, t.net, node.net, CommonInv(bits, t.net.base, node.net.base, t.net.inv + 1), p);
    }
  }

  lemma {:induction false} ReplaceLo<S(!new)>(bits: nat, t: NetTree<S>, lo: NetTree<S>, n: Prefix)
    requires t.Node? && lo.Node? && Shape(t, bits) && Shape(lo, bits) && Fits(t, n) && Fits(lo, n)
    requires t.net.inv > 0 && LeftHalf(t.net).Covers(lo.net)
    ensures var r := t.(lo := lo);
            && Shape(r, bits) && Fits(r, n)
            && forall a, s :: Leads(r, a, s) <==>
                 (t.subtree == Some(s) && t.net.Has(a)) || Leads(lo, a, s) || Leads(t.hi, a, s)
  {}

  lemma {:induction false} ReplaceHi<S(!new)>(bits: nat, t: NetTree<S>, hi: NetTree<S>, n: Prefix)
    requires t.Node? && hi.Node? && Shape(t, bits) && Shape(hi, bits) && Fits(t, n) && Fits(hi, n)
    requires t.net.inv > 0 && RightHalf(t.net).Covers(hi.net)
    ensures var r := t.(hi := hi);
            && Shape(r, bits) && Fits(r, n)
            && forall a, s :: Leads(r, a, s) <==>
                 (t.subtree == Some(s) && t.net.Has(a)) || Leads(t.lo, a, s) || Leads(hi, a, s)
  {}

  /** `r` is a tree for the relations of `t` and `node` together; it stays inside
      every network that contains both, and leaves room for network `n`. */
  ghost predicate Inserted<S(!new)>(r: NetTree<S>, bits: nat, t: NetTree<S>, node: NetTree<S>, n: Prefix)
    requires t.Node? && node.Node?
  {
    && r.Node? && Shape(r, bits) && Fits(r, n)
    && (forall p: Prefix :: p.Valid() && p.Covers(t.net) && p.Covers(node.net) ==> p.Covers(r.net))
    && forall a, s :: Leads(r, a, s) <==> Leads(t, a, s) || Leads(node, a, s)
  }

  lemma MergeInserted<S(!new)>(r: NetTree<S>, bits: nat, t: NetTree<S>, node: NetTree<S>, n: Prefix)
    requires t.Node? && node.Node? && Inserted(r, bits, t, node, n)
    ensures Inserted(Merge(r), bits, t, node, n)
  {
    MergeKeeps(r, bits, n);
  }

  ghost predicate Insertable<S>(bits: nat, t: NetTree<S>, node: NetTree<S>, n: Prefix) {
    && t.Node? && node.Node? && Shape(t, bits) && Shape(node, bits) && Fits(t, node.net)
    && node.subtree.Some? && node.lo.Nil? && node.hi.Nil?
    && Fits(t, n) && n.inv <= node.net.inv && n != node.net
  }

  /** Inserting a network adds exactly its addresses with its subtree to the
      relation, and keeps the tree ready for every smaller or different network. */
  lemma {:induction false} InsertCorrect<S(!new)>(bits: nat, t: NetTree<S>, node: NetTree<S>, n: Prefix)
    requires Insertable(bits, t, node, n)
    ensures Inserted(Insert(bits, t, node), bits, t, node, n)
    decreases t, 1
  {
    hide Trunc, Pow2, Leads, Inserted;
    if node.net.inv < t.net.inv && t.net.Has(node.net.base) {
      HasTrunc(t.net, node.net.base);
      if t.subtree.Some? && t.subtree == node.subtree {
        Redundant(bits, t, node, n);
        MergeInserted(t, bits, t, node, n);
      } else {
        WhichHalf(t.net, node.net);
        if Trunc(node.net.base, t.net.inv - 1) == t.net.base {
          InsertLo(bits, t, node, n);
          var lo := if t.lo.Node? then Insert(bits, t.lo, node) else node;
          MergeInserted(t.(lo := lo), bits, t, node, n);
        } else {
          InsertHi(bits, t, node, n);
          var hi := if t.hi.Node? then Insert(bits, t.hi, node) else node;
          MergeInserted(t.(hi := hi), bits, t, node, n);
        }
      }
    } else {
      Apart(bits, t, node);
      CommonRootInserted(bits, t, node, n);
      MergeInserted(CommonRoot(bits, t, node), bits, t, node, n);
    }
  }

  lemma {:induction false} CommonRootInserted<S(!new)>(bits: nat, t: NetTree<S>, node: NetTree<S>, n: Prefix)
    requires Insertable(bits, t, node, n) && t.net.inv < bits
    requires !(node.net.inv < t.net.inv && t.net.Has(node.net.base))
    ensures Inserted(CommonRoot(bits, t, node), bits, t, node, n)
  {
    CommonRootKeeps(bits, t, node, n);
  }

  /** A network below a node with the same subtree adds nothing. */
  lemma {:induction false} Redundant<S(!new)>(bits: nat, t: NetTree<S>, node: NetTree<S>, n: Prefix)
    requires Insertable(bits, t, node, n) && t.net.Covers(node.net) && t.subtree == node.subtree
    ensures Inserted(t, bits, t, node, n)
  {
    forall a, s | Leads(node, a, s)
      ensures Leads(t, a, s)
    {
      assert !Leads(node.lo, a, s) && !Leads(node.hi, a, s);
      CoversHas(t.net, node.net, a);
    }
  }

  lemma {:induction false} InsertLo<S(!new)>(bits: nat, t: NetTree<S>, node: NetTree<S>, n: Prefix)
    requires Insertable(bits, t, node, n) && t.net.inv > 0 && LeftHalf(t.net).Covers(node.net)
    ensures var lo := if t.lo.Node? then Insert(bits, t.lo, node) else node;
            Inserted(t.(lo := lo), bits, t, node, n)
    decreases t, 0
  {
    hide Trunc, Pow2, Insert;
    HalvesValid(t.net);
    var lo := if t.lo.Node? then Insert(bits, t.lo, node) else node;
    if t.lo.Node? {
      InsertCorrect(bits, t.lo, node, n);
    }
    ReplaceLo(bits, t, lo, n);
  }

  lemma {:induction false} InsertHi<S(!new)>(bits: nat, t: NetTree<S>, node: NetTree<S>, n: Prefix)
    requires Insertable(bits, t, node, n) && t.net.inv > 0 && RightHalf(t.net).Covers(node.net)
    ensures var hi := if t.hi.Node? then Insert(bits, t.hi, node) else node;
            Inserted(t.(hi := hi), bits, t, node, n)
    decreases t, 0
  {
    hide Trunc, Pow2, Insert;
    HalvesValid(t.net);
    var hi := if t.hi.Node? then Insert(bits, t.hi, node) else node;
    if t.hi.Node? {
      InsertCorrect(bits, t.hi, node, n);
    }
    ReplaceHi(bits, t, hi, n);
  }

  // ------------------------------------------------------------- no needless nodes

  /** A node that comes from no network, above two leaves with the same subtree which are
      its halves. */
  ghost predicate LikeHalves<S>(t: NetTree<S>) {
    && t.Node? && t.subtree.None? && t.lo.Node? && t.hi.Node?
    && t.lo.net.inv + 1 == t.net.inv && t.hi.net.inv + 1 == t.net.inv
    && t.lo.subtree.Some? && t.lo.subtree == t.hi.subtree
    && t.lo.lo.Nil? && t.lo.hi.Nil? && t.hi.lo.Nil? && t.hi.hi.Nil?
  }

  ghost predicate Lacks<S>(t: NetTree<S>, s: Option<S>) {
    t.Node? ==> t.subtree != s && Lacks(t.lo, s) && Lacks(t.hi, s)
  }

  /** No two halves could be merged, and no node lies below one with the same subtree. */
  ghost predicate Reduced<S>(t: NetTree<S>) {
    t.Node? ==>
      && !LikeHalves(t) && Reduced(t.lo) && Reduced(t.hi)
      && (t.subtree.Some? ==> Lacks(t.lo, t.subtree) && Lacks(t.hi, t.subtree))
  }

  /** Merging leaves no mergeable halves. */
  lemma MergeReduced<S(!new)>(t: NetTree<S>)
    requires t.Node? && Reduced(t.lo) && Reduced(t.hi)
    requires t.subtree.Some? ==> Lacks(t.lo, t.subtree) && Lacks(t.hi, t.subtree)
    ensures Reduced(Merge(t))
  {}

  lemma MergeLacks<S(!new)>(t: NetTree<S>, s: Option<S>)
    requires s.Some? && Lacks(t, s)
    ensures Lacks(Merge(t), s)
  {}

  lemma LeafLacks<S>(t: NetTree<S>, s: Option<S>)
    requires t.Node? && t.lo.Nil? && t.hi.Nil? && t.subtree != s
    ensures Lacks(t, s)
  {}

  lemma {:induction false} InsertLacks<S(!new)>(bits: nat, t: NetTree<S>, node: NetTree<S>, s: Option<S>)
    requires t.Node? && node.Node? && Shape(t, bits) && Shape(node, bits) && Fits(t, node.net)
    requires node.lo.Nil? && node.hi.Nil? && s.Some? && Lacks(t, s) && node.subtree != s
    ensures Lacks(Insert(bits, t, node), s)
    decreases t
  {
    hide Trunc, Pow2, Shape, CommonInv, Merge;
    ShapeBelow(t, bits);
    ShapeBelow(node, bits);
    LeafLacks(node, s);
    if node.net.inv < t.net.inv && t.net.Has(node.net.base) {
      if t.subtree.Some? && t.subtree == node.subtree {
        MergeLacks(t, s);
      } else if Trunc(node.net.base, t.net.inv - 1) == t.net.base {
        if t.lo.Node? {
          InsertLacks(bits, t.lo, node, s);
        }
        MergeLacks(t.(lo := if t.lo.Node? then Insert(bits, t.lo, node) else node), s);
      } else {
        if t.hi.Node? {
          InsertLacks(bits, t.hi, node, s);
        }
        MergeLacks(t.(hi := if t.hi.Node? then Insert(bits, t.hi, node) else node), s);
      }
    } else {
      Apart(bits, t, node);
      MergeLacks(CommonRoot(bits, t, node), s);
    }
  }

  /** Inserting a network keeps the tree without needless nodes. */
  lemma {:induction false} InsertReduced<S(!new)>(bits: nat, t: NetTree<S>, node: NetTree<S>)
    requires t.Node? && node.Node? && Shape(t, bits) && Shape(node, bits) && Fits(t, node.net)
    requires Reduced(t) && node.subtree.Some? && node.lo.Nil? && node.hi.Nil?
    ensures Reduced(Insert(bits, t, node))
    decreases t
  {
    hide Trunc, Pow2, Shape, CommonInv, Merge, LikeHalves;
    ShapeBelow(t, bits);
    ShapeBelow(node, bits);
    SingleReduced(node);
    if node.net.inv < t.net.inv && t.net.Has(node.net.base) {
      if t.subtree.Some? && t.subtree == node.subtree {
        MergeReduced(t);
      } else if Trunc(node.net.base, t.net.inv - 1) == t.net.base {
        if t.lo.Node? {
          InsertReduced(bits, t.lo, node);
        }
        if t.subtree.Some? {
          BranchLacks(bits, t.lo, node, t.subtree);
        }
        MergeReduced(t.(lo := if t.lo.Node? then Insert(bits, t.lo, node) else node));
      } else {
        if t.hi.Node? {
          InsertReduced(bits, t.hi, node);
        }
        if t.subtree.Some? {
          BranchLacks(bits, t.hi, node, t.subtree);
        }
        MergeReduced(t.(hi := if t.hi.Node? then Insert(bits, t.hi, node) else node));
      }
    } else {
      Apart(bits, t, node);
      MergeReduced(CommonRoot(bits, t, node));
    }
  }

  lemma BranchLacks<S(!new)>(bits: nat, t: NetTree<S>, node: NetTree<S>, s: Option<S>)
    requires node.Node? && Shape(t, bits) && Shape(node, bits) && (t.Node? ==> Fits(t, node.net))
    requires node.lo.Nil? && node.hi.Nil? && s.Some? && Lacks(t, s) && node.subtree != s
    ensures Lacks(if t.Node? then Insert(bits, t, node) else node, s)
  {
    hide Shape, Insert;
    if t.Node? {
      InsertLacks(bits, t, node, s);
    }
  }

  lemma SingleReduced<S>(t: NetTree<S>)
    requires t.Node? && t.lo.Nil? && t.hi.Nil?
    ensures Reduced(t)
  {}

  lemma ShapeBelow<S>(t: NetTree<S>, bits: nat)
    requires t.Node? && Shape(t, bits)
    ensures Shape(t.lo, bits) && Shape(t.hi, bits) && t.net.base < Pow2(bits)
  {}

  // ---------------------------------------------------------------- linked tree

  class NetBintree<S(==)> {
    var net: Prefix
    var subtree: Option<S>
    var lo: NetBintree?<S>
    var hi: NetBintree?<S>
    var noop: bool
    ghost var Repr: set<object>

    ghost predicate Valid()
      reads this, Repr
      decreases Repr
      ensures Valid() ==> this in Repr
    {
      && this in Repr
      && (lo != null ==> lo in Repr && lo.Repr <= Repr && this !in lo.Repr && lo.Valid())
      && (hi != null ==> hi in Repr && hi.Repr <= Repr && this !in hi.Repr && hi.Valid())
      && (lo != null && hi != null ==> lo.Repr !! hi.Repr)
    }

    ghost function Value(): (t: NetTree<S>)
      requires Valid()
      reads this, Repr
      decreases Repr
      ensures t.Node?
    {
      Node(net, subtree,
           if lo == null then Nil else lo.Value(),
           if hi == null then Nil else hi.Value())
    }

    constructor (net: Prefix, subtree: Option<S>, lo: NetBintree?<S>, hi: NetBintree?<S>)
      requires lo != null ==> lo.Valid()
      requires hi != null ==> hi.Valid()
      requires lo != null && hi != null ==> lo.Repr !! hi.Repr
      ensures Valid() && !noop
      ensures this.net == net && this.subtree == subtree && this.lo == lo && this.hi == hi
      ensures Repr == {this} + (if lo == null then {} else lo.Repr) + (if hi == null then {} else hi.Repr)
    {
      this.net, this.subtree, this.lo, this.hi, this.noop := net, subtree, lo, hi, false;
      Repr := {this} + (if lo == null then {} else lo.Repr) + (if hi == null then {} else hi.Repr);
    }

    /** Merges adjacent sub-networks of this node. */
    method MergeHalves()
      requires Valid()
      modifies this
      ensures Valid() && Value() == Merge(old(Value())) && Repr == old(Repr)
      ensures noop == old(noop)
    {
      if subtree == None && lo != null && hi != null {
        if net.inv == lo.net.inv + 1 && net.inv == hi.net.inv + 1 &&
           lo.subtree != None && hi.subtree != None && lo.subtree == hi.subtree &&
           lo.lo == null && lo.hi == null && hi.lo == null && hi.hi == null {
          subtree := lo.subtree;
          lo, hi := null, null;
        }
      }
    }
  }

  /** Creates the common root of a tree and a node. */
  method AddRoot<S(==)>(bits: nat, tree: NetBintree<S>, node: NetBintree<S>) returns (result: NetBintree<S>)
    requires tree.Valid() && node.Valid() && tree.Repr !! node.Repr
    requires tree.net.inv < bits && tree.net.base < Pow2(bits) && node.net.base < Pow2(bits)
    ensures result.Valid() && fresh(result.Repr - tree.Repr - node.Repr) && fresh(result)
    ensures result.Value() == CommonRoot(bits, tree.Value(), node.Value())
  {
    hide Trunc, Pow2;
    var inv := tree.net.inv + 1;
    WholeRange(node.net.base, bits);
    WholeRange(tree.net.base, bits);
    while Trunc(node.net.base, inv) != Trunc(tree.net.base, inv)
      invariant tree.net.inv < inv <= bits
      invariant CommonInv(bits, tree.net.base, node.net.base, inv) ==
                CommonInv(bits, tree.net.base, node.net.base, tree.net.inv + 1)
      decreases bits - inv
    {
      inv := inv + 1;
    }
    var root := Prefix(Trunc(node.net.base, inv), inv);
    if node.net.base < tree.net.base {
      result := new NetBintree(root, None, node, tree);
    } else {
      result := new NetBintree(root, None, tree, node);
    }
  }

  method AddLo<S(==)>(bits: nat, tree: NetBintree<S>, node: NetBintree<S>)
    requires tree.Valid() && node.Valid() && tree.Repr !! node.Repr
    requires Shape(tree.Value(), bits) && Shape(node.Value(), bits) && Fits(tree.Value(), node.net)
    modifies tree.Repr
    ensures tree.Valid() && fresh(tree.Repr - old(tree.Repr) - old(node.Repr))
    ensures tree.Value() == var t, n := old(tree.Value()), old(node.Value());
                            t.(lo := if t.lo.Node? then Insert(bits, t.lo, n) else n)
    decreases tree.Repr, 0
  {
    hide Trunc, Pow2, Insert;
    if tree.lo != null {
      tree.lo := AddBintree(bits, tree.lo, node);
    } else {
      tree.lo := node;
    }
    tree.Repr := tree.Repr + tree.lo.Repr;
  }

  method AddHi<S(==)>(bits: nat, tree: NetBintree<S>, node: NetBintree<S>)
    requires tree.Valid() && node.Valid() && tree.Repr !! node.Repr
    requires Shape(tree.Value(), bits) && Shape(node.Value(), bits) && Fits(tree.Value(), node.net)
    modifies tree.Repr
    ensures tree.Valid() && fresh(tree.Repr - old(tree.Repr) - old(node.Repr))
    ensures tree.Value() == var t, n := old(tree.Value()), old(node.Value());
                            t.(hi := if t.hi.Node? then Insert(bits, t.hi, n) else n)
    decreases tree.Repr, 0
  {
    hide Trunc, Pow2, Insert;
    if tree.hi != null {
      tree.hi := AddBintree(bits, tree.hi, node);
    } else {
      tree.hi := node;
    }
    tree.Repr := tree.Repr + tree.hi.Repr;
  }

  method AddBintree<S(==)>(bits: nat, tree: NetBintree<S>, node: NetBintree<S>) returns (result: NetBintree<S>)
    requires tree.Valid() && node.Valid() && tree.Repr !! node.Repr
    requires Shape(tree.Value(), bits) && Shape(node.Value(), bits) && Fits(tree.Value(), node.net)
    modifies tree.Repr
    ensures result.Valid() && fresh(result.Repr - old(tree.Repr) - old(node.Repr))
    ensures result.Value() == Insert(bits, old(tree.Value()), old(node.Value()))
    decreases tree.Repr, 1
  {
    hide Trunc, Pow2, Merge;
    if node.net.inv < tree.net.inv && tree.net.Has(node.net.base) {
      if tree.subtree == None || node.subtree == None || tree.subtree != node.subtree {
        if Trunc(node.net.base, tree.net.inv - 1) == tree.net.base {
          AddLo(bits, tree, node);
        } else {
          AddHi(bits, tree, node);
        }
      }
      result := tree;
    } else {
      Apart(bits, tree.Value(), node.Value());
      result := AddRoot(bits, tree, node);
    }
    result.MergeHalves();
  }

  // ------------------------------------------------------------ building a tree

  /** The relation given by the first `n` elements. */
  ghost predicate SomeElement<S>(elements: seq<Prefix>, n: nat, tree: map<Prefix, S>, a: nat, s: S)
    requires n <= |elements| && forall i :: 0 <= i < |elements| ==> elements[i] in tree
  {
    exists i :: 0 <= i < n && elements[i].Has(a) && tree[elements[i]] == s
  }

  /** Large networks first; networks of one width by descending address. */
  function SizeOrder(n: Prefix): (int, int) {
    var inv: int, base: int := n.inv, n.base;
    (-inv, -base)
  }

  lemma SizeOrderFits(elements: seq<Prefix>, i: nat, j: nat)
    requires Sorting.Sorted(elements, SizeOrder) && Sorting.Distinct(elements) && i < j < |elements|
    ensures elements[j].inv <= elements[i].inv && elements[j] != elements[i]
  {
    assert Sorting.Before(SizeOrder(elements[i]), SizeOrder(elements[j]));
  }

  method GenAddrBintree<S(==,!new)>(bits: nat, elements: seq<Prefix>, tree: map<Prefix, S>)
    returns (bintree: NetBintree<S>, ghost sorted: seq<Prefix>)
    requires elements != [] && Sorting.Distinct(elements)
    requires forall i :: 0 <= i < |elements| ==> elements[i] in tree
    requires forall i :: 0 <= i < |elements| ==>
               elements[i].Valid() && elements[i].inv <= bits && elements[i].base < Pow2(bits)
    ensures bintree.Valid() && Shape(bintree.Value(), bits)
    ensures multiset(sorted) == multiset(elements) && |sorted| == |elements|
    ensures forall i :: 0 <= i < |sorted| ==> sorted[i] in tree
    ensures forall a, s :: Leads(bintree.Value(), a, s) <==> SomeElement(sorted, |sorted|, tree, a, s)
    ensures bintree.noop <==> bintree.net.inv == bits
    ensures Reduced(bintree.Value())
  {
    hide Trunc, Pow2, Insert, Reduced, Sorting.Sorted, Sorting.Distinct;
    var nodes := Sorting.Sort(elements, SizeOrder);
    sorted := nodes;
    Sorting.SameElements(nodes, elements);
    Sorting.DistinctSame(nodes, elements);
    forall i | 0 <= i < |nodes|
      ensures nodes[i] in tree && nodes[i].Valid() && nodes[i].inv <= bits && nodes[i].base < Pow2(bits)
    {
      assert nodes[i] in elements;
    }
    hide Shape, Fits, Leads, SomeElement;
    bintree := new NetBintree(nodes[0], Some(tree[nodes[0]]), null, null);
    FirstElement(bits, nodes, tree, bintree.Value());
    var i := 1;
    while i < |nodes|
      invariant 1 <= i <= |nodes|
      invariant bintree.Valid() && fresh(bintree.Repr) && Shape(bintree.Value(), bits) && Reduced(bintree.Value())
      invariant forall j :: i <= j < |nodes| ==> Fits(bintree.Value(), nodes[j])
      invariant forall a, s :: Leads(bintree.Value(), a, s) <==> SomeElement(nodes, i, tree, a, s)
    {
      var node := new NetBintree(nodes[i], Some(tree[nodes[i]]), null, null);
      ghost var t, n := bintree.Value(), node.Value();
      InsertElement(bits, t, n, nodes, i, tree);
      InsertReduced(bits, t, n);
      bintree := AddBintree(bits, bintree, node);
      i := i + 1;
    }
    bintree.noop := bintree.net.inv == bits;
  }

  /** The tree for the first element. */
  lemma FirstElement<S(!new)>(bits: nat, nodes: seq<Prefix>, tree: map<Prefix, S>, t: NetTree<S>)
    requires nodes != [] && Sorting.Sorted(nodes, SizeOrder) && Sorting.Distinct(nodes)
    requires forall j :: 0 <= j < |nodes| ==> nodes[j] in tree
    requires nodes[0].Valid() && nodes[0].inv <= bits && nodes[0].base < Pow2(bits)
    requires t == Node(nodes[0], Some(tree[nodes[0]]), Nil, Nil)
    ensures Shape(t, bits) && Reduced(t) && forall j :: 1 <= j < |nodes| ==> Fits(t, nodes[j])
    ensures forall a, s :: Leads(t, a, s) <==> SomeElement(nodes, 1, tree, a, s)
  {
    hide Sorting.Sorted, Sorting.Distinct, Pow2, Trunc;
    forall j | 1 <= j < |nodes|
      ensures Fits(t, nodes[j])
    {
      SizeOrderFits(nodes, 0, j);
    }
  }

  lemma {:induction false} InsertElement<S(!new)>(bits: nat, t: NetTree<S>, n: NetTree<S>,
                                                  nodes: seq<Prefix>, i: nat, tree: map<Prefix, S>)
    requires i < |nodes| && Sorting.Sorted(nodes, SizeOrder) && Sorting.Distinct(nodes)
    requires forall j :: 0 <= j < |nodes| ==> nodes[j] in tree
    requires nodes[i].Valid() && nodes[i].inv <= bits && nodes[i].base < Pow2(bits)
    requires t.Node? && Shape(t, bits) && forall j :: i <= j < |nodes| ==> Fits(t, nodes[j])
    requires n == Node(nodes[i], Some(tree[nodes[i]]), Nil, Nil)
    requires forall a, s :: Leads(t, a, s) <==> SomeElement(nodes, i, tree, a, s)
    ensures Shape(n, bits) && Shape(Insert(bits, t, n), bits)
    ensures forall j :: i < j < |nodes| ==> Fits(Insert(bits, t, n), nodes[j])
    ensures forall a, s :: Leads(Insert(bits, t, n), a, s) <==> SomeElement(nodes, i + 1, tree, a, s)
  {
    hide Trunc, Pow2, Insert, Sorting.Sorted, Sorting.Distinct;
    assert Shape(n, bits);
    InsertMeaning(bits, t, n, 0, tree[nodes[i]]);
    forall j | i < j < |nodes|
      ensures Fits(Insert(bits, t, n), nodes[j])
    {
      SizeOrderFits(nodes, i, j);
      InsertCorrect(bits, t, n, nodes[j]);
    }
    forall a, s
      ensures Leads(Insert(bits, t, n), a, s) <==> SomeElement(nodes, i + 1, tree, a, s)
    {
      InsertMeaning(bits, t, n, a, s);
    }
  }

  /** The part of `InsertCorrect` that does not speak of further networks. */
  lemma {:induction false} InsertMeaning<S(!new)>(bits: nat, t: NetTree<S>, node: NetTree<S>, a: nat, s: S)
    requires t.Node? && node.Node? && Shape(t, bits) && Shape(node, bits) && Fits(t, node.net)
    requires node.subtree.Some? && node.lo.Nil? && node.hi.Nil?
    ensures Shape(Insert(bits, t, node), bits)
    ensures Leads(Insert(bits, t, node), a, s) <==>
            Leads(t, a, s) || (node.net.Has(a) && node.subtree == Some(s))
  {
    hide Trunc, Pow2, Insert;
    var far := Prefix(Pow2(bits), 0);
    FitsFar(bits, t);
    InsertCorrect(bits, t, node, far);
    assert !Leads(node.lo, a, s) && !Leads(node.hi, a, s);
  }

  /** A network outside of the address range differs from every node. */
  lemma {:induction t} FitsFar<S>(bits: nat, t: NetTree<S>)
    requires Shape(t, bits)
    ensures Fits(t, Prefix(Pow2(bits), 0))
  {}
}
