/** Compilation of nested binary trees to iptables chains (`genChain` in
    go/cmd/spoc2/main.go).

    Level `d` of the nested trees tests attribute `order[d]` of a packet.
    Every node may lead to a tree of the next level, and behind the last
    level stands the action.
  */
module ChainCompiler {
  import opened Wrappers
  import opened Iptables

  /** `npBintree`.  `id` is the identity of the node object: subtrees are cached
      and compared by identity.  `Leaf` is one of `codedBdeny`, `codedBpermit`. */
  datatype Tree =
    | Leaf(deny: bool)
    | Node(id: nat, range: Range, noop: bool, subtree: Option<Tree>,
           hi: Option<Tree>, lo: Option<Tree>, subnodes: seq<Tree>)
  {
    /** What the test of this node lets pass. */
    predicate Has(v: int)
      requires Node?
    {
      noop || range.Has(v)
    }

    /** `getSeq` */
    function Seq(): (s: seq<Tree>)
      requires Node?
      ensures forall i :: 0 <= i < |s| ==> s[i] < this
    {
      if subnodes == [] then
        (if hi.Some? then [hi.value] else []) + (if lo.Some? then [lo.value] else [])
      else
        subnodes
    }
  }

  type Order = o: seq<Attr> | IsOrder(o) witness [SrcRange, Dst, Prt, Src]

  predicate IsOrder(o: seq<Attr>) {
    |o| == 4 && forall i, j :: 0 <= i < j < 4 ==> o[i] != o[j]
  }

  /** A tree of level `d` as built by genAddrBintree and genprtBintree: nodes
      below a node lie inside it and are disjoint; only a root may be `noop`;
      each node comes from a rule or joins other nodes. */
  ghost predicate WellFormed(t: Tree, d: nat, deny: bool)
    decreases t
  {
    if t.Leaf? then d == 4 && t.deny == deny
    else
      && d < 4
      && (t.subtree.Some? ==> WellFormed(t.subtree.value, d + 1, deny))
      && (t.subtree.Some? || t.Seq() != [])
      && (forall i :: 0 <= i < |t.Seq()| ==>
            && t.Seq()[i] < t
            && WellFormed(t.Seq()[i], d, deny)
            && Within(t.Seq()[i], t))
      && (forall i, j, v :: 0 <= i < j < |t.Seq()| && t.Seq()[i].Has(v) ==> !t.Seq()[j].Has(v))
  }

  ghost predicate Within(kid: Tree, t: Tree)
    requires t.Node?
  {
    kid.Node? && !kid.noop && forall v :: kid.Has(v) ==> t.Has(v)
  }

  /** The decision of nested trees: some node on each level has the packet. */
  ghost predicate TreeHits(t: Tree, d: nat, order: Order, p: Packet, deny: bool)
    requires WellFormed(t, d, deny)
    decreases t
  {
    t.Leaf? ||
    (t.subtree.Some? && t.Has(p.Get(order[d])) && TreeHits(t.subtree.value, d + 1, order, p, deny)) ||
    (exists i :: 0 <= i < |t.Seq()| && TreeHits(t.Seq()[i], d, order, p, deny))
  }

  /** The level of a tree is determined by the tree. */
  lemma {:induction false} LevelUnique(t: Tree, d: nat, e: nat, deny: bool)
    requires WellFormed(t, d, deny) && WellFormed(t, e, deny)
    ensures d == e
    decreases t
  {
    if t.Node? {
      if t.subtree.Some? {
        LevelUnique(t.subtree.value, d + 1, e + 1, deny);
      } else {
        LevelUnique(t.Seq()[0], d, e, deny);
      }
    }
  }

  /** A node only hits what its test lets pass. */
  lemma {:induction false} TreeHitsWithin(t: Tree, d: nat, order: Order, p: Packet, deny: bool)
    requires WellFormed(t, d, deny) && t.Node? && TreeHits(t, d, order, p, deny)
    ensures t.Has(p.Get(order[d]))
    decreases t
  {
    if i :| 0 <= i < |t.Seq()| && TreeHits(t.Seq()[i], d, order, p, deny) {
      TreeHitsWithin(t.Seq()[i], d, order, p, deny);
      assert Within(t.Seq()[i], t);
    }
  }

  ghost predicate SomeHits(ts: seq<Tree>, d: nat, order: Order, p: Packet, deny: bool)
    requires forall i :: 0 <= i < |ts| ==> WellFormed(ts[i], d, deny)
  {
    exists i :: 0 <= i < |ts| && TreeHits(ts[i], d, order, p, deny)
  }

  lemma NoneHits(d: nat, order: Order, deny: bool)
    ensures forall p :: !SomeHits([], d, order, p, deny)
  {}

  lemma SomeHitsStep(ts: seq<Tree>, i: nat, d: nat, order: Order, p: Packet, deny: bool)
    requires i < |ts| && forall j :: 0 <= j < |ts| ==> WellFormed(ts[j], d, deny)
    ensures SomeHits(ts[..i + 1], d, order, p, deny) <==>
            SomeHits(ts[..i], d, order, p, deny) || TreeHits(ts[i], d, order, p, deny)
  {
    assert ts[..i + 1][i] == ts[i];
    assert forall j :: 0 <= j < i ==> ts[..i + 1][j] == ts[..i][j];
  }

  /** The subtree of a node, the last node of `Seq` and the nodes in front of it. */
  lemma SeqHits(t: Tree, d: nat, order: Order, p: Packet, deny: bool)
    requires WellFormed(t, d, deny) && t.Node?
    ensures TreeHits(t, d, order, p, deny) <==>
            || (t.subtree.Some? && t.Has(p.Get(order[d])) && TreeHits(t.subtree.value, d + 1, order, p, deny))
            || (t.Seq() != [] && (|| SomeHits(t.Seq()[..|t.Seq()| - 1], d, order, p, deny)
                                  || TreeHits(t.Seq()[|t.Seq()| - 1], d, order, p, deny)))
  {
    var kids := t.Seq();
    if kids != [] {
      SomeHitsStep(kids, |kids| - 1, d, order, p, deny);
      assert kids[..|kids|] == kids;
    }
  }

  // ---------------------------------------------------- properties of rule lists

  /** The rules do not test the attributes of the levels below `d`. */
  ghost predicate Free(rules: Rules, order: Order, d: nat) {
    forall i, k :: 0 <= i < |rules| && 0 <= k < d && k < 4 ==> rules[i].Get(order[k]).None?
  }

  /** The rules only match packets which the test of `t` lets pass. */
  ghost predicate Confined(rules: Rules, a: Attr, t: Tree)
    requires t.Node?
  {
    forall i, p :: 0 <= i < |rules| && rules[i].Match(p) ==> t.Has(p.Get(a))
  }

  /** No goto of the rules matches a packet which the test of `t` lets pass. */
  ghost predicate Avoids(rules: Rules, a: Attr, t: Tree)
    requires t.Node?
  {
    forall i, p :: 0 <= i < |rules| && rules[i].useGoto && rules[i].Match(p) ==> !t.Has(p.Get(a))
  }

  ghost predicate Sound(rules: Rules, chains: seq<Rules>, order: Order, d: nat, deny: bool) {
    && GoodChains(chains, deny)
    && Closed(rules, |chains|)
    && GotoSafe(rules, chains, |chains|)
    && Uniform(rules, deny)
    && Free(rules, order, d)
  }

  /** Some path through the rules hits the packet. */
  ghost predicate ListHits(rules: Rules, chains: seq<Rules>, p: Packet) {
    ClosedChains(chains) && Closed(rules, |chains|) && Hits(rules, chains, |chains|, p)
  }

  /** A branch at the end of a list is always a goto, because nothing follows. */
  ghost predicate EndsWithGoto(rules: Rules) {
    rules != [] && (rules[|rules| - 1].chain.Some? ==> rules[|rules| - 1].useGoto)
  }

  lemma EndsConcat(a: Rules, b: Rules)
    requires EndsWithGoto(b)
    ensures EndsWithGoto(a + b)
  {}

  /** The rules hit the same packets as the tree. */
  ghost predicate Compiled(rules: Rules, chains: seq<Rules>, t: Tree, d: nat, order: Order, deny: bool) {
    && Sound(rules, chains, order, d, deny)
    && WellFormed(t, d, deny) && EndsWithGoto(rules)
    && forall p :: ListHits(rules, chains, p) <==> TreeHits(t, d, order, p, deny)
  }

  lemma EmptySound(chains: seq<Rules>, order: Order, d: nat, deny: bool, a: Attr)
    requires GoodChains(chains, deny)
    ensures Sound([], chains, order, d, deny)
    ensures forall t: Tree :: t.Node? ==> Confined([], a, t) && Avoids([], a, t)
    ensures forall p :: !ListHits([], chains, p)
  {}

  /** What a well-formed node says about one of the nodes below it. */
  lemma KidFacts(t: Tree, d: nat, deny: bool, i: nat)
    requires t.Node? && WellFormed(t, d, deny) && i < |t.Seq()|
    ensures d < 4 && t.Seq()[i] < t && WellFormed(t.Seq()[i], d, deny) && Within(t.Seq()[i], t)
    ensures forall j, v :: i < j < |t.Seq()| && t.Seq()[i].Has(v) ==> !t.Seq()[j].Has(v)
  {}

  lemma SoundExtend(rules: Rules, chains: seq<Rules>, more: seq<Rules>, order: Order, d: nat, deny: bool)
    requires Sound(rules, chains, order, d, deny) && GoodChains(more, deny) && chains <= more
    ensures Sound(rules, more, order, d, deny)
    ensures forall p :: ListHits(rules, chains, p) <==> ListHits(rules, more, p)
  {
    ClosedMono(rules, |chains|, |more|);
    GotoSafeExtend(rules, chains, more, |chains|, |more|);
    forall p
      ensures ListHits(rules, chains, p) <==> ListHits(rules, more, p)
    {
      HitsExtend(rules, chains, more, |chains|, |more|, p);
    }
  }

  lemma SoundConcat(a: Rules, b: Rules, chains: seq<Rules>, order: Order, d: nat, deny: bool, t: Tree)
    requires d < 4 && t.Node?
    requires Sound(a, chains, order, d, deny) && Sound(b, chains, order, d, deny)
    requires Avoids(a, order[d], t) && Confined(b, order[d], t)
    ensures Sound(a + b, chains, order, d, deny)
    ensures forall p :: ListHits(a + b, chains, p) <==>
                        ListHits(a, chains, p) || ListHits(b, chains, p)
  {
    forall i, j, p | 0 <= i < |a| && 0 <= j < |b| && a[i].useGoto && a[i].Match(p)
      ensures !b[j].Match(p)
    {
      assert !t.Has(p.Get(order[d]));
    }
    GotoSafeConcat(a, b, chains, |chains|);
    forall p
      ensures ListHits(a + b, chains, p) <==>
              ListHits(a, chains, p) || ListHits(b, chains, p)
    {
      HitsConcat(a, b, chains, |chains|, p);
    }
  }

  /** The copies of the rules of a subtree: the test of the node is added, and
      goto becomes a call if tests for other nodes follow. */
  function Attached(rules: Rules, t: Tree, order: Order, d: nat): (res: Rules)
    requires t.Node? && d < 4
    ensures |res| == |rules|
  {
    seq(|rules|, i requires 0 <= i < |rules| =>
      var rule := if t.Seq() != [] then rules[i].(useGoto := false) else rules[i];
      if t.noop then rule else rule.Set(order[d], t.range))
  }

  /** Without nodes behind it, the last rule stays a goto. */
  lemma AttachedEnds(rules: Rules, t: Tree, order: Order, d: nat)
    requires t.Node? && d < 4 && t.Seq() == [] && EndsWithGoto(rules)
    ensures EndsWithGoto(Attached(rules, t, order, d))
  {}

  lemma AttachedMatch(rules: Rules, t: Tree, order: Order, d: nat, i: nat, p: Packet)
    requires t.Node? && d < 4 && i < |rules| && Free(rules, order, d + 1)
    ensures Attached(rules, t, order, d)[i].Match(p) <==>
            rules[i].Match(p) && t.Has(p.Get(order[d]))
  {
    var r, s := rules[i], Attached(rules, t, order, d)[i];
    assert forall a: Attr :: a != order[d] ==> r.Get(a) == s.Get(a);
    assert r.Get(order[d]).None?;
    if !t.noop {
      assert s.Get(order[d]) == Some(t.range);
    }
  }

  lemma AttachedHits(rules: Rules, chains: seq<Rules>, t: Tree, order: Order, d: nat, deny: bool, p: Packet)
    requires t.Node? && d < 4 && Sound(rules, chains, order, d + 1, deny)
    ensures Closed(Attached(rules, t, order, d), |chains|)
    ensures forall i :: 0 <= i < |rules| ==>
              (RuleHits(Attached(rules, t, order, d)[i], chains, |chains|, p) <==>
               RuleHits(rules[i], chains, |chains|, p) && t.Has(p.Get(order[d])))
    ensures ListHits(Attached(rules, t, order, d), chains, p) <==>
            ListHits(rules, chains, p) && t.Has(p.Get(order[d]))
  {
    var res, n := Attached(rules, t, order, d), |chains|;
    forall i | 0 <= i < |rules|
      ensures RuleHits(res[i], chains, n, p) <==> RuleHits(rules[i], chains, n, p) && t.Has(p.Get(order[d]))
    {
      AttachedMatch(rules, t, order, d, i, p);
    }
    if Hits(rules, chains, n, p) && t.Has(p.Get(order[d])) {
      var i :| 0 <= i < |rules| && RuleHits(rules[i], chains, n, p);
      assert RuleHits(res[i], chains, n, p);
    }
    if Hits(res, chains, n, p) {
      var i :| 0 <= i < |res| && RuleHits(res[i], chains, n, p);
      assert RuleHits(rules[i], chains, n, p);
    }
  }

  lemma AttachedSound(rules: Rules, chains: seq<Rules>, t: Tree, order: Order, d: nat, deny: bool)
    requires t.Node? && d < 4 && Sound(rules, chains, order, d + 1, deny)
    ensures Sound(Attached(rules, t, order, d), chains, order, d, deny)
    ensures Confined(Attached(rules, t, order, d), order[d], t)
    ensures forall p :: ListHits(Attached(rules, t, order, d), chains, p) <==>
                        ListHits(rules, chains, p) && t.Has(p.Get(order[d]))
  {
    var res := Attached(rules, t, order, d);
    forall i, p | 0 <= i < |rules| && res[i].Match(p)
      ensures rules[i].Match(p) && t.Has(p.Get(order[d]))
    {
      AttachedMatch(rules, t, order, d, i, p);
    }
    forall p
      ensures Closed(res, |chains|)
      ensures forall i :: 0 <= i < |rules| && RuleHits(res[i], chains, |chains|, p) ==>
                RuleHits(rules[i], chains, |chains|, p)
      ensures ListHits(res, chains, p) <==> ListHits(rules, chains, p) && t.Has(p.Get(order[d]))
    {
      AttachedHits(rules, chains, t, order, d, deny, p);
    }
    AttachedHits(rules, chains, t, order, d, deny, Packet(0, 0, 0, 0));
  }

  /** A single rule that branches to a new chain instead of the list itself. */
  function Branch(chain: nat): LinuxRule {
    LinuxRule(false, None, None, None, None, Some(chain), true)
  }

  lemma BranchCompiled(rules: Rules, chains: seq<Rules>, t: Tree, d: nat, order: Order, deny: bool)
    requires d <= 4 && Compiled(rules, chains, t, d, order, deny)
    ensures Compiled([Branch(|chains|)], chains + [rules], t, d, order, deny)
  {
    var more, b := chains + [rules], [Branch(|chains|)];
    GoodChainsAppend(chains, rules, deny);
    forall p
      ensures ListHits(b, more, p) <==> TreeHits(t, d, order, p, deny)
    {
      HitsExtend(rules, chains, more, |chains|, |chains|, p);
      assert RuleHits(b[0], more, |more|, p) <==> Hits(more[|chains|], more, |chains|, p);
    }
  }

  /** The rule that carries out the action of a leaf. */
  function Action(leaf: Tree): LinuxRule
    requires leaf.Leaf?
  {
    LinuxRule(leaf.deny, None, None, None, None, None, false)
  }

  lemma ActionCompiled(leaf: Tree, chains: seq<Rules>, order: Order, deny: bool)
    requires leaf.Leaf? && leaf.deny == deny && GoodChains(chains, deny)
    ensures Compiled([Action(leaf)], chains, leaf, 4, order, deny)
  {
    var rules := [Action(leaf)];
    forall p
      ensures ListHits(rules, chains, p)
    {
      assert RuleHits(rules[0], chains, |chains|, p);
    }
  }

  /** The single rule that tests the root of a tree before it branches. */
  lemma TestedBranchSound(rules: Rules, chains: seq<Rules>, t: Tree, order: Order, d: nat, deny: bool)
    requires d < 4 && Compiled(rules, chains, t, d, order, deny) && t.Node? && !t.noop
    ensures Compiled([Branch(|chains|).Set(order[d], t.range)], chains + [rules], t, d, order, deny)
    ensures Confined([Branch(|chains|).Set(order[d], t.range)], order[d], t)
  {
    var more, rule := chains + [rules], Branch(|chains|).Set(order[d], t.range);
    BranchCompiled(rules, chains, t, d, order, deny);
    assert forall k :: 0 <= k < d ==> order[k] != order[d];
    forall p
      ensures rule.Match(p) <==> t.Has(p.Get(order[d]))
      ensures Hits([rule], more, |more|, p) <==> TreeHits(t, d, order, p, deny)
    {
      assert RuleHits(Branch(|chains|), more, |more|, p) <==> Hits([Branch(|chains|)], more, |more|, p) by {
        assert [Branch(|chains|)][0] == Branch(|chains|);
      }
      assert rule.Get(order[d]) == Some(t.range);
      assert RuleHits([rule][0], more, |more|, p) <==>
             t.Has(p.Get(order[d])) && RuleHits(Branch(|chains|), more, |more|, p);
      if TreeHits(t, d, order, p, deny) {
        TreeHitsWithin(t, d, order, p, deny);
      }
    }
  }

  lemma CompiledSound(rules: Rules, chains: seq<Rules>, t: Tree, d: nat, order: Order, deny: bool)
    requires Compiled(rules, chains, t, d, order, deny)
    ensures Sound(rules, chains, order, d, deny) && EndsWithGoto(rules)
  {}

  // -------------------------------------------------- the nodes of a tree, one by one

  /** The last of the nodes below a node. */
  function LastKid(t: Tree): Option<Tree>
    requires t.Node?
  {
    if t.Seq() == [] then None else Some(t.Seq()[|t.Seq()| - 1])
  }

  ghost predicate HitsLast(last: Option<Tree>, depth: nat, order: Order, p: Packet, deny: bool) {
    last.Some? && WellFormed(last.value, depth, deny) && TreeHits(last.value, depth, order, p, deny)
  }

  /** The rules hit what a node hits, except its last node below. */
  ghost predicate NodeCompiled(rules: Rules, chains: seq<Rules>, t: Tree, depth: nat, order: Order, deny: bool) {
    && t.Node? && WellFormed(t, depth, deny) && depth < 4
    && Sound(rules, chains, order, depth, deny) && Confined(rules, order[depth], t)
    && (LastKid(t).None? ==> EndsWithGoto(rules))
    && (LastKid(t).Some? ==> LastKid(t).value.Node? && Avoids(rules, order[depth], LastKid(t).value))
    && forall p :: TreeHits(t, depth, order, p, deny) <==>
                   ListHits(rules, chains, p) || HitsLast(LastKid(t), depth, order, p, deny)
  }

  /** The rules hit what the subtree of a node hits; they use no goto if other nodes follow. */
  ghost predicate SubtreeAttached(rules: Rules, chains: seq<Rules>, t: Tree, depth: nat, order: Order, deny: bool) {
    && t.Node? && WellFormed(t, depth, deny) && depth < 4
    && Sound(rules, chains, order, depth, deny) && Confined(rules, order[depth], t)
    && (if t.Seq() == [] then EndsWithGoto(rules) else Avoids(rules, order[depth], t))
    && forall p :: ListHits(rules, chains, p) <==>
                   t.subtree.Some? && t.Has(p.Get(order[depth])) && TreeHits(t.subtree.value, depth + 1, order, p, deny)
  }

  /** The rules hit what the nodes below a node hit, except the last one. */
  ghost predicate KidsCompiled(rules: Rules, chains: seq<Rules>, t: Tree, depth: nat, order: Order, deny: bool) {
    && t.Node? && WellFormed(t, depth, deny) && depth < 4 && t.Seq() != []
    && Sound(rules, chains, order, depth, deny) && Confined(rules, order[depth], t)
    && LastKid(t).value.Node? && Avoids(rules, order[depth], LastKid(t).value)
    && forall p :: ListHits(rules, chains, p) <==> SomeHits(t.Seq()[..|t.Seq()| - 1], depth, order, p, deny)
  }

  lemma AttachedDone(rules: Rules, chains: seq<Rules>, t: Tree, depth: nat, order: Order, deny: bool)
    requires t.Node? && t.subtree.Some? && WellFormed(t, depth, deny)
    requires Compiled(rules, chains, t.subtree.value, depth + 1, order, deny)
    ensures SubtreeAttached(Attached(rules, t, order, depth), chains, t, depth, order, deny)
  {
    hide TreeHits, ListHits, Sound, EndsWithGoto;
    AttachedSound(rules, chains, t, order, depth, deny);
    if t.Seq() == [] {
      AttachedEnds(rules, t, order, depth);
    } else {
      NoGoto(rules, t, order, depth);
    }
  }

  lemma NoGoto(rules: Rules, t: Tree, order: Order, depth: nat)
    requires t.Node? && depth < 4 && t.Seq() != []
    ensures Avoids(Attached(rules, t, order, depth), order[depth], t)
  {}

  lemma NothingAttached(chains: seq<Rules>, t: Tree, depth: nat, order: Order, deny: bool)
    requires t.Node? && t.subtree.None? && WellFormed(t, depth, deny) && GoodChains(chains, deny)
    ensures SubtreeAttached([], chains, t, depth, order, deny)
  {
    hide TreeHits, ListHits, Sound, GoodChains;
    EmptySound(chains, order, depth, deny, order[depth]);
  }

  lemma WithoutKids(rules: Rules, chains: seq<Rules>, t: Tree, depth: nat, order: Order, deny: bool)
    requires SubtreeAttached(rules, chains, t, depth, order, deny) && t.Seq() == []
    ensures NodeCompiled(rules, chains, t, depth, order, deny)
  {
    hide ListHits, Sound, TreeHits, EndsWithGoto;
    forall p {
      SeqHits(t, depth, order, p, deny);
    }
  }

  lemma WithKids(a: Rules, b: Rules, before: seq<Rules>, chains: seq<Rules>, t: Tree,
                 depth: nat, order: Order, deny: bool)
    requires SubtreeAttached(a, before, t, depth, order, deny) && before <= chains && GoodChains(chains, deny)
    requires KidsCompiled(b, chains, t, depth, order, deny)
    ensures NodeCompiled(a + b, chains, t, depth, order, deny)
  {
    hide ListHits, Sound, TreeHits, SomeHits, EndsWithGoto, GoodChains;
    SoundExtend(a, before, chains, order, depth, deny);
    SoundConcat(a, b, chains, order, depth, deny, t);
    KidFacts(t, depth, deny, |t.Seq()| - 1);
    forall p {
      SeqHits(t, depth, order, p, deny);
    }
    hide WellFormed;
  }

  /** The rules hit what a tree hits, except one node that is still to be compiled. */
  ghost predicate Partly(rules: Rules, chains: seq<Rules>, t: Tree, last: Option<Tree>,
                         depth: nat, order: Order, deny: bool) {
    && t.Node? && WellFormed(t, depth, deny) && depth < 4
    && Sound(rules, chains, order, depth, deny) && Confined(rules, order[depth], t)
    && (last.None? ==> EndsWithGoto(rules))
    && (last.Some? ==> last.value.Node? && Avoids(rules, order[depth], last.value) &&
                       forall v :: last.value.Has(v) ==> t.Has(v))
    && forall p :: TreeHits(t, depth, order, p, deny) <==>
                   ListHits(rules, chains, p) || HitsLast(last, depth, order, p, deny)
  }

  lemma NothingYet(chains: seq<Rules>, t: Tree, depth: nat, order: Order, deny: bool)
    requires GoodChains(chains, deny) && t.Node? && WellFormed(t, depth, deny)
    ensures Partly([], chains, t, Some(t), depth, order, deny)
  {
    hide GoodChains, TreeHits, ListHits, Sound;
    assert depth < 4;
    EmptySound(chains, order, depth, deny, order[depth]);
  }

  lemma NextNode(a: Rules, b: Rules, before: seq<Rules>, chains: seq<Rules>, t: Tree, node: Tree,
                 depth: nat, order: Order, deny: bool)
    requires Partly(a, before, t, Some(node), depth, order, deny) && before <= chains && GoodChains(chains, deny)
    requires NodeCompiled(b, chains, node, depth, order, deny)
    ensures Partly(a + b, chains, t, LastKid(node), depth, order, deny)
  {
    hide TreeHits, ListHits, Sound, GoodChains, EndsWithGoto;
    SoundExtend(a, before, chains, order, depth, deny);
    SoundConcat(a, b, chains, order, depth, deny, node);
    if LastKid(node).Some? {
      KidFacts(node, depth, deny, |node.Seq()| - 1);
    } else {
      EndsConcat(a, b);
    }
    hide WellFormed;
  }

  lemma AllNodes(rules: Rules, chains: seq<Rules>, t: Tree, depth: nat, order: Order, deny: bool)
    requires Partly(rules, chains, t, None, depth, order, deny)
    ensures Compiled(rules, chains, t, depth, order, deny) && Confined(rules, order[depth], t)
  {
    hide TreeHits, ListHits, Sound, WellFormed;
  }

  // ------------------------------------------------------------------- compiler

  /** A chain has several rules, and ends with a goto if it ends with a branch. */
  ghost predicate LongChains(chains: seq<Rules>) {
    forall k :: 0 <= k < |chains| ==> |chains[k]| > 1 && EndsWithGoto(chains[k])
  }

  /** What has been generated stays. */
  ghost predicate Remembers(cache: map<Tree, Rules>, before: map<Tree, Rules>) {
    forall t :: t in before ==> t in cache && cache[t] == before[t]
  }

  lemma RemembersAll(a: map<Tree, Rules>)
    ensures Remembers(a, a)
  {}

  lemma RemembersAdd(a: map<Tree, Rules>, b: map<Tree, Rules>, t: Tree, rules: Rules)
    requires Remembers(b, a) && t !in a
    ensures Remembers(b[t := rules], a)
  {}

  lemma RemembersMore(a: map<Tree, Rules>, b: map<Tree, Rules>, c: map<Tree, Rules>)
    requires Remembers(b, a) && Remembers(c, b)
    ensures Remembers(c, a)
  {}

  /** The chains of a router and the rules generated for each subtree. */
  class Compiler {
    var chains: seq<Rules>
    var cache: map<Tree, Rules>

    ghost predicate Valid(order: Order, deny: bool)
      reads this
    {
      && GoodChains(chains, deny) && LongChains(chains)
      && (forall t :: t in cache ==> exists e: nat :: WellFormed(t, e, deny))
      && (forall t, e: nat :: t in cache && WellFormed(t, e, deny) ==>
            Compiled(cache[t], chains, t, e, order, deny))
    }

    lemma ValidChains(order: Order, deny: bool)
      requires Valid(order, deny)
      ensures GoodChains(chains, deny) && LongChains(chains)
    {}

    constructor ()
      ensures chains == [] && cache == map[]
      ensures forall order, deny :: Valid(order, deny)
    {
      chains, cache := [], map[];
    }

    method NewChain(rules: Rules, ghost order: Order, ghost d: nat, ghost deny: bool) returns (chain: nat)
      requires Valid(order, deny) && Sound(rules, chains, order, d, deny) && |rules| > 1 && EndsWithGoto(rules)
      modifies this`chains
      ensures Valid(order, deny)
      ensures chains == old(chains) + [rules] && chain == old(|chains|)
    {
      GoodChainsAppend(chains, rules, deny);
      chain := |chains|;
      chains := chains + [rules];
      forall t, e: nat | t in cache && WellFormed(t, e, deny)
        ensures Compiled(cache[t], chains, t, e, order, deny)
      {
        SoundExtend(cache[t], old(chains), chains, order, e, deny);
      }
    }

    /** The rules of the subtree of a node, generated only once. */
    method SubtreeRules(bintree: Tree, order: Order, depth: nat, ghost deny: bool) returns (rules: Rules)
      requires Valid(order, deny)
      requires bintree.Node? && bintree.subtree.Some? && WellFormed(bintree, depth, deny)
      modifies this
      ensures Valid(order, deny) && old(chains) <= chains
      ensures Compiled(rules, chains, bintree.subtree.value, depth + 1, order, deny)
      ensures Remembers(cache, old(cache)) && bintree.subtree.value in cache && cache[bintree.subtree.value] == rules
      ensures bintree.subtree.value in old(cache) ==> chains == old(chains) && cache == old(cache)
      ensures bintree.subtree.value !in old(cache) && |rules| > 1 ==> bintree.noop
      decreases bintree, 0
    {
      hide Compiled, GoodChains, Valid, Remembers;
      var subtree := bintree.subtree.value;
      RemembersAll(cache);
      if subtree in cache {
        rules := cache[subtree];
        Cached(subtree, depth + 1, order, deny);
      } else {
        if depth + 1 >= |order| {
          rules := [Action(subtree)];
          ValidChains(order, deny);
          ActionCompiled(subtree, chains, order, deny);
        } else {
          rules := GenChain(subtree, order, depth + 1, deny);
        }
        if |rules| > 1 && !bintree.noop {
          BranchCompiled(rules, chains, subtree, depth + 1, order, deny);
          CompiledSound(rules, chains, subtree, depth + 1, order, deny);
          var chain := NewChain(rules, order, depth + 1, deny);
          rules := [Branch(chain)];
        }
        RemembersAdd(old(cache), cache, subtree, rules);
        Remember(subtree, rules, depth + 1, order, deny);
      }
    }

    lemma Cached(subtree: Tree, d: nat, order: Order, deny: bool)
      requires Valid(order, deny) && subtree in cache && WellFormed(subtree, d, deny)
      ensures Compiled(cache[subtree], chains, subtree, d, order, deny)
    {}

    method Remember(subtree: Tree, rules: Rules, ghost d: nat, ghost order: Order, ghost deny: bool)
      requires Valid(order, deny) && WellFormed(subtree, d, deny) && Compiled(rules, chains, subtree, d, order, deny)
      modifies this`cache
      ensures Valid(order, deny) && cache == old(cache)[subtree := rules]
    {
      hide Compiled, GoodChains;
      forall e: nat | WellFormed(subtree, e, deny)
        ensures e == d
      {
        LevelUnique(subtree, e, d, deny);
      }
      cache := cache[subtree := rules];
    }

    /** Rules for all nodes directly below `bintree` but the last one. */
    method SiblingRules(bintree: Tree, order: Order, depth: nat, ghost deny: bool) returns (newRules: Rules)
      requires Valid(order, deny) && bintree.Node? && WellFormed(bintree, depth, deny) && bintree.Seq() != []
      modifies this
      ensures Valid(order, deny) && old(chains) <= chains && Remembers(cache, old(cache))
      ensures KidsCompiled(newRules, chains, bintree, depth, order, deny)
      decreases bintree, 0
    {
      hide ListHits, TreeHits, Sound, SomeHits, GoodChains, Valid;
      newRules := [];
      ghost var a := order[depth];
      ValidChains(order, deny);
      EmptySound(chains, order, depth, deny, a);
      var kids := bintree.Seq();
      var i := 0;
      NoneHits(depth, order, deny);
      while i < |kids| - 1
        invariant 0 <= i < |kids|
        invariant Valid(order, deny) && old(chains) <= chains && Remembers(cache, old(cache))
        invariant Sound(newRules, chains, order, depth, deny)
        invariant Confined(newRules, a, bintree)
        invariant forall j :: i <= j < |kids| ==> Avoids(newRules, a, kids[j])
        invariant forall p :: ListHits(newRules, chains, p) <==>
                    SomeHits(kids[..i], depth, order, p, deny)
      {
        ghost var before := chains;
        KidFacts(bintree, depth, deny, i);
        var rules := GenChain(kids[i], order, depth, deny);
        ValidChains(order, deny);
        SoundExtend(newRules, before, chains, order, depth, deny);
        SoundConcat(newRules, rules, chains, order, depth, deny, kids[i]);
        newRules := newRules + rules;
        forall p
          ensures SomeHits(kids[..i + 1], depth, order, p, deny) <==>
                  SomeHits(kids[..i], depth, order, p, deny) || TreeHits(kids[i], depth, order, p, deny)
        {
          SomeHitsStep(kids, i, depth, order, p, deny);
        }
        i := i + 1;
      }
    }

    /** Rules for the subtree of a node and for all nodes directly below it
        but the last one. */
    method NodeRules(bintree: Tree, order: Order, depth: nat, ghost deny: bool) returns (newRules: Rules)
      requires Valid(order, deny) && bintree.Node? && WellFormed(bintree, depth, deny)
      modifies this
      ensures Valid(order, deny) && old(chains) <= chains && Remembers(cache, old(cache))
      ensures NodeCompiled(newRules, chains, bintree, depth, order, deny)
      decreases bintree, 1
    {
      hide Valid, Remembers, NodeCompiled, SubtreeAttached, KidsCompiled, GoodChains, Compiled;
      newRules := [];
      RemembersAll(cache);
      if bintree.subtree.Some? {
        var rules := SubtreeRules(bintree, order, depth, deny);
        newRules := Attached(rules, bintree, order, depth);
        AttachedDone(rules, chains, bintree, depth, order, deny);
      } else {
        ValidChains(order, deny);
        NothingAttached(chains, bintree, depth, order, deny);
      }
      if bintree.Seq() != [] {
        ghost var before, cached := chains, cache;
        var rules := SiblingRules(bintree, order, depth, deny);
        RemembersMore(old(cache), cached, cache);
        ValidChains(order, deny);
        WithKids(newRules, rules, before, chains, bintree, depth, order, deny);
        newRules := newRules + rules;
      } else {
        WithoutKids(newRules, chains, bintree, depth, order, deny);
      }
    }

    /** Rules for all nodes of a tree of one level: the loop over the last nodes. */
    method TreeRules(tree: Tree, order: Order, depth: nat, ghost deny: bool) returns (newRules: Rules)
      requires Valid(order, deny) && tree.Node? && WellFormed(tree, depth, deny)
      modifies this
      ensures Valid(order, deny) && old(chains) <= chains && Remembers(cache, old(cache))
      ensures Compiled(newRules, chains, tree, depth, order, deny)
      ensures Confined(newRules, order[depth], tree)
      decreases tree, 3
    {
      hide Valid, Remembers, Partly, NodeCompiled, Compiled, Confined, GoodChains;
      newRules := [];
      ValidChains(order, deny);
      RemembersAll(cache);
      NothingYet(chains, tree, depth, order, deny);
      var bintree := tree;
      var go := true;
      while go
        invariant bintree.Node? && WellFormed(bintree, depth, deny) && (bintree == tree || bintree < tree)
        invariant Valid(order, deny) && old(chains) <= chains && Remembers(cache, old(cache))
        invariant Partly(newRules, chains, tree, if go then Some(bintree) else None, depth, order, deny)
        decreases go, bintree
      {
        ghost var before, cached := chains, cache;
        var rules := NodeRules(bintree, order, depth, deny);
        RemembersMore(old(cache), cached, cache);
        ValidChains(order, deny);
        NextNode(newRules, rules, before, chains, tree, bintree, depth, order, deny);
        newRules := newRules + rules;
        var nodes := bintree.Seq();
        if nodes == [] {
          go := false;
        } else {
          KidFacts(bintree, depth, deny, |nodes| - 1);
          bintree := nodes[|nodes| - 1];
        }
      }
      AllNodes(newRules, chains, tree, depth, order, deny);
    }

    /** Rules for a tree; they become a chain of their own if there are several
        and the root has a test to branch on. */
    method GenChain(tree: Tree, order: Order, depth: nat, ghost deny: bool) returns (newRules: Rules)
      requires Valid(order, deny) && tree.Node? && WellFormed(tree, depth, deny)
      modifies this
      ensures Valid(order, deny) && old(chains) <= chains && Remembers(cache, old(cache))
      ensures Compiled(newRules, chains, tree, depth, order, deny)
      ensures Confined(newRules, order[depth], tree)
      ensures |newRules| > 1 ==> tree.noop
      decreases tree, 4
    {
      hide Compiled, Valid, Remembers, Confined;
      newRules := TreeRules(tree, order, depth, deny);
      if |newRules| > 1 && !tree.noop {
        newRules := OwnChain(newRules, tree, order, depth, deny);
      }
    }

    /** The rules of a tree become a chain of their own. */
    method OwnChain(rules: Rules, tree: Tree, order: Order, depth: nat, ghost deny: bool) returns (newRules: Rules)
      requires Valid(order, deny) && tree.Node? && !tree.noop && WellFormed(tree, depth, deny) && depth < 4
      requires Compiled(rules, chains, tree, depth, order, deny) && Confined(rules, order[depth], tree) && |rules| > 1
      modifies this`chains
      ensures Valid(order, deny) && chains == old(chains) + [rules]
      ensures Compiled(newRules, chains, tree, depth, order, deny)
      ensures Confined(newRules, order[depth], tree)
      ensures |newRules| == 1 && newRules[0].chain == Some(old(|chains|)) && newRules[0].useGoto
      ensures newRules[0].Get(order[depth]) == Some(tree.range)
    {
      hide ListHits, TreeHits, Sound, SomeHits, GoodChains, Valid;
      hide Hits, Eval, RuleHits, Closed, Free;
      TestedBranchSound(rules, chains, tree, order, depth, deny);
      var chain := NewChain(rules, order, depth, deny);
      newRules := [Branch(chain).Set(order[depth], tree.range)];
    }
  }
}
