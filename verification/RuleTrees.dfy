/** The rule tree of `findChains` in go/cmd/spoc2/main.go: nested maps, one
    level for each of the four attributes of a rule. */
module RuleTrees {
  import opened Wrappers
  import opened Iptables
  import opened Prefixes
  import opened ChainCompiler
  import G = GenprtBintree
  import P = PrtBintree

  /** A rule of one group; `srcRange` may be unset. */
  datatype GroupRule = GroupRule(src: Prefix, dst: Prefix, prt: Range, srcRange: Option<Range>)

  /** The protocols of an ACL with their `up` relation, and the width of addresses. */
  datatype Env = Env(bits: nat, up: map<Range, Range>, known: set<Range>) {
    ghost predicate Valid() {
      G.UpRelation(up, known) && PRT_TCP in known && PRT_UDP in known
    }
  }

  const PRT_TCP := Range(G.TCP_BASE + 1, G.TCP_BASE + 65535)
  const PRT_UDP := Range(G.UDP_BASE + 1, G.UDP_BASE + 65535)

  /** Addresses fit the width, and both ports belong to the same protocol. */
  predicate RealPacket(p: Packet, env: Env) {
    && 0 <= p.src < Pow2(env.bits) && 0 <= p.dst < Pow2(env.bits)
    && G.PRT_IP.Has(p.srcRange) && G.PRT_IP.Has(p.prt)
    && (PRT_TCP.Has(p.prt) <==> PRT_TCP.Has(p.srcRange))
    && (PRT_UDP.Has(p.prt) <==> PRT_UDP.Has(p.srcRange))
  }

  predicate NetOk(n: Prefix, env: Env) {
    n.Valid() && n.inv <= env.bits && n.base < Pow2(env.bits)
  }

  ghost predicate RuleOk(r: GroupRule, env: Env) {
    && NetOk(r.src, env) && NetOk(r.dst, env)
    && r.prt in env.known && (r.srcRange.Some? ==> r.srcRange.value in env.known)
    && (G.KindOf(r.prt) == G.Tcp ==> P.Inside(r.prt, PRT_TCP))
    && (G.KindOf(r.prt) == G.Udp ==> P.Inside(r.prt, PRT_UDP))
  }

  /** The rule matches a packet. */
  predicate RuleMatches(r: GroupRule, p: Packet) {
    && p.src >= 0 && r.src.Has(p.src) && p.dst >= 0 && r.dst.Has(p.dst)
    && r.prt.Has(p.prt) && (r.srcRange.Some? ==> r.srcRange.value.Has(p.srcRange))
  }

  /** An unset source range becomes the protocol of the rule. */
  function SrcRangeOf(r: GroupRule): Range {
    match r.srcRange
    case Some(s) => s
    case None =>
      match G.KindOf(r.prt)
      case Tcp => PRT_TCP
      case Udp => PRT_UDP
      case _ => G.PRT_IP
  }

  /** Key of a rule tree: a network or a protocol. */
  datatype Key = NetKey(net: Prefix) | PrtKey(prt: Range) {
    predicate Has(v: int) {
      match this
      case NetKey(net) => v >= 0 && net.Has(v)
      case PrtKey(prt) => prt.Has(v)
    }
  }

  predicate IsNetAttr(a: Attr) {
    a.Src? || a.Dst?
  }

  ghost predicate KeyOk(k: Key, a: Attr, env: Env) {
    if IsNetAttr(a) then k.NetKey? && NetOk(k.net, env) else k.PrtKey? && k.prt in env.known
  }

  /** The getters of `attrOrder`. */
  function KeyOf(r: GroupRule, a: Attr): Key {
    match a
    case Src => NetKey(r.src)
    case Dst => NetKey(r.dst)
    case Prt => PrtKey(r.prt)
    case SrcRange => PrtKey(SrcRangeOf(r))
  }

  function KeysOf(r: GroupRule, order: Order): (s: seq<Key>)
    ensures |s| == 4 && forall i :: 0 <= i < 4 ==> s[i] == KeyOf(r, order[i])
  {
    seq(4, i requires 0 <= i < 4 => KeyOf(r, order[i]))
  }

  /** `lRuleTree`; behind the fourth level stands the action of the rules. */
  datatype RuleTree = Action(deny: bool) | Level(m: map<Key, RuleTree>)

  /** A tree of level `d` with keys of the right kind and no empty subtrees. */
  ghost predicate TreeOk(t: RuleTree, d: nat, order: Order, env: Env, deny: bool)
    decreases 4 - d
  {
    if d >= 4 then d == 4 && t == Action(deny)
    else
      && t.Level?
      && forall k :: k in t.m ==>
           KeyOk(k, order[d], env) && NonEmpty(t.m[k]) && TreeOk(t.m[k], d + 1, order, env, deny)
  }

  predicate NonEmpty(t: RuleTree) {
    t.Level? ==> t.m != map[]
  }

  /** Some path through the tree matches the packet. */
  ghost predicate InTree(t: RuleTree, d: nat, order: Order, p: Packet)
    decreases 4 - d
  {
    d >= 4 || (t.Level? && exists k :: k in t.m && k.Has(p.Get(order[d])) && InTree(t.m[k], d + 1, order, p))
  }

  /** Adds the keys of a rule as a path to the tree. */
  function Add(t: RuleTree, keys: seq<Key>, deny: bool): RuleTree
    requires t.Level?
    decreases |keys|
  {
    if |keys| == 0 then t
    else if |keys| == 1 then Level(t.m[keys[0] := Action(deny)])
    else
      var sub := if keys[0] in t.m && t.m[keys[0]].Level? then t.m[keys[0]] else Level(map[]);
      Level(t.m[keys[0] := Add(sub, keys[1..], deny)])
  }

  ghost predicate HasPath(t: RuleTree, keys: seq<Key>)
    decreases |keys|
  {
    keys == [] || (t.Level? && keys[0] in t.m && HasPath(t.m[keys[0]], keys[1..]))
  }

  lemma SetOk(t: RuleTree, d: nat, k: Key, v: RuleTree, order: Order, env: Env, deny: bool)
    requires d < 4 && TreeOk(t, d, order, env, deny) && KeyOk(k, order[d], env)
    requires TreeOk(v, d + 1, order, env, deny) && NonEmpty(v)
    ensures TreeOk(Level(t.m[k := v]), d, order, env, deny) && NonEmpty(Level(t.m[k := v]))
  {
    hide KeyOk;
    assert k in t.m[k := v];
  }

  lemma {:induction false} AddOk(t: RuleTree, d: nat, keys: seq<Key>, order: Order, env: Env, deny: bool)
    requires d < 4 && TreeOk(t, d, order, env, deny) && |keys| == 4 - d
    requires forall i :: 0 <= i < |keys| ==> KeyOk(keys[i], order[d + i], env)
    ensures TreeOk(Add(t, keys, deny), d, order, env, deny) && NonEmpty(Add(t, keys, deny))
    decreases 4 - d
  {
    hide KeyOk;
    assert KeyOk(keys[0], order[d + 0], env);
    if d < 3 {
      var sub := if keys[0] in t.m && t.m[keys[0]].Level? then t.m[keys[0]] else Level(map[]);
      assert TreeOk(sub, d + 1, order, env, deny);
      forall i | 0 <= i < |keys[1..]|
        ensures KeyOk(keys[1..][i], order[d + 1 + i], env)
      {
        assert KeyOk(keys[i + 1], order[d + (i + 1)], env);
      }
      AddOk(sub, d + 1, keys[1..], order, env, deny);
      SetOk(t, d, keys[0], Add(sub, keys[1..], deny), order, env, deny);
    } else {
      SetOk(t, d, keys[0], Action(deny), order, env, deny);
    }
  }

  /** Adding a path adds exactly this path. */
  lemma {:induction false} AddPath(t: RuleTree, d: nat, keys: seq<Key>, other: seq<Key>,
                                   order: Order, env: Env, deny: bool)
    requires d < 4 && TreeOk(t, d, order, env, deny) && |keys| == 4 - d == |other|
    ensures HasPath(Add(t, keys, deny), other) <==> other == keys || HasPath(t, other)
    decreases 4 - d
  {
    hide KeyOk;
    var k := keys[0];
    assert other == [other[0]] + other[1..] && keys == [k] + keys[1..];
    if d == 3 {
      assert other[1..] == [] && keys[1..] == [];
    } else {
      var sub := if k in t.m && t.m[k].Level? then t.m[k] else Level(map[]);
      AddPath(sub, d + 1, keys[1..], other[1..], order, env, deny);
      assert k !in t.m ==> !HasPath(sub, other[1..]);
    }
  }

  /** All keys of a path match the packet. */
  ghost predicate PathMatches(keys: seq<Key>, d: nat, order: Order, p: Packet)
    requires d + |keys| <= 4
  {
    forall i :: 0 <= i < |keys| ==> keys[i].Has(p.Get(order[d + i]))
  }

  lemma {:induction false} InTreePath(t: RuleTree, d: nat, order: Order, p: Packet) returns (keys: seq<Key>)
    requires d <= 4 && InTree(t, d, order, p)
    ensures |keys| == 4 - d && HasPath(t, keys) && PathMatches(keys, d, order, p)
    decreases 4 - d
  {
    if d == 4 {
      keys := [];
    } else {
      var k :| k in t.m && k.Has(p.Get(order[d])) && InTree(t.m[k], d + 1, order, p);
      var rest := InTreePath(t.m[k], d + 1, order, p);
      keys := [k] + rest;
      assert keys[1..] == rest;
      forall i | 0 <= i < |keys|
        ensures keys[i].Has(p.Get(order[d + i]))
      {
        if i > 0 {
          assert rest[i - 1].Has(p.Get(order[d + 1 + (i - 1)]));
        }
      }
    }
  }

  lemma {:induction false} PathInTree(t: RuleTree, d: nat, order: Order, p: Packet, keys: seq<Key>)
    requires d <= 4 && |keys| == 4 - d && HasPath(t, keys) && PathMatches(keys, d, order, p)
    ensures InTree(t, d, order, p)
    decreases 4 - d
  {
    if d < 4 {
      forall i | 0 <= i < |keys[1..]|
        ensures keys[1..][i].Has(p.Get(order[d + 1 + i]))
      {
        assert keys[i + 1].Has(p.Get(order[d + (i + 1)]));
      }
      assert keys[0].Has(p.Get(order[d + 0]));
      PathInTree(t.m[keys[0]], d + 1, order, p, keys[1..]);
    }
  }

  lemma {:induction false} SomePath(t: RuleTree, d: nat, order: Order, env: Env, deny: bool) returns (keys: seq<Key>)
    requires d <= 4 && TreeOk(t, d, order, env, deny) && NonEmpty(t)
    ensures |keys| == 4 - d && HasPath(t, keys)
    decreases 4 - d
  {
    keys := [];
    if d < 4 {
      assert t.m.Keys != {};
      var k :| k in t.m;
      keys := SomePath(t.m[k], d + 1, order, env, deny);
      keys := [k] + keys;
      assert keys[1..] == keys[1..];
    }
  }

  /** The level of a tree is determined by the tree. */
  lemma {:induction false} TreeLevel(t: RuleTree, d: nat, e: nat, order: Order, env: Env, deny: bool)
    requires TreeOk(t, d, order, env, deny) && TreeOk(t, e, order, env, deny) && NonEmpty(t)
    ensures d == e
    decreases 4 - d
  {
    if d < 4 {
      assert t.m.Keys != {};
      var k :| k in t.m;
      TreeLevel(t.m[k], d + 1, e + 1, order, env, deny);
    }
  }

  // --------------------------------------------------------------- building the tree

  ghost predicate SomeKeys(rules: seq<GroupRule>, n: nat, order: Order, keys: seq<Key>)
    requires n <= |rules|
  {
    exists j :: 0 <= j < n && KeysOf(rules[j], order) == keys
  }

  lemma RuleKeysOk(r: GroupRule, order: Order, env: Env)
    requires env.Valid() && RuleOk(r, env)
    ensures forall i :: 0 <= i < 4 ==> KeyOk(KeysOf(r, order)[i], order[i], env)
  {}

  /** The rule tree of a group of rules. */
  function TreeOf(rules: seq<GroupRule>, order: Order, deny: bool): (t: RuleTree)
    ensures t.Level?
  {
    if rules == [] then Level(map[])
    else Add(TreeOf(rules[..|rules| - 1], order, deny), KeysOf(rules[|rules| - 1], order), deny)
  }

  /** The paths of the tree are exactly the keys of the rules. */
  lemma {:induction false} TreeOfPaths(rules: seq<GroupRule>, order: Order, env: Env, deny: bool)
    requires env.Valid() && forall i :: 0 <= i < |rules| ==> RuleOk(rules[i], env)
    ensures var tree := TreeOf(rules, order, deny);
            && TreeOk(tree, 0, order, env, deny) && (rules != [] ==> NonEmpty(tree))
            && forall keys :: |keys| == 4 ==> (HasPath(tree, keys) <==> SomeKeys(rules, |rules|, order, keys))
  {
    hide KeyOk, RuleOk, KeysOf, Env.Valid, Add;
    if rules != [] {
      var n := |rules| - 1;
      var before, keys := TreeOf(rules[..n], order, deny), KeysOf(rules[n], order);
      TreeOfPaths(rules[..n], order, env, deny);
      RuleKeysOk(rules[n], order, env);
      AddOk(before, 0, keys, order, env, deny);
      forall other: seq<Key> | |other| == 4
        ensures HasPath(Add(before, keys, deny), other) <==> SomeKeys(rules, n + 1, order, other)
      {
        AddPath(before, 0, keys, other, order, env, deny);
        SomeKeysNext(rules, n, order, other);
      }
    }
  }

  lemma TreeOfNext(rules: seq<GroupRule>, n: nat, order: Order, deny: bool)
    requires n < |rules|
    ensures TreeOf(rules[..n + 1], order, deny) == Add(TreeOf(rules[..n], order, deny), KeysOf(rules[n], order), deny)
  {
    hide Add, KeysOf;
    assert rules[..n + 1][..n] == rules[..n];
  }

  lemma SomeKeysNext(rules: seq<GroupRule>, n: nat, order: Order, keys: seq<Key>)
    requires n + 1 == |rules|
    ensures SomeKeys(rules, n + 1, order, keys) <==>
            KeysOf(rules[n], order) == keys || SomeKeys(rules[..n], n, order, keys)
  {
    hide KeysOf;
    if j :| 0 <= j < n && KeysOf(rules[j], order) == keys {
      assert rules[..n][j] == rules[j];
    }
  }

  method BuildTree(rules: seq<GroupRule>, order: Order, ghost env: Env, deny: bool) returns (tree: RuleTree)
    requires rules != [] && env.Valid() && forall i :: 0 <= i < |rules| ==> RuleOk(rules[i], env)
    ensures tree == TreeOf(rules, order, deny)
    ensures TreeOk(tree, 0, order, env, deny) && NonEmpty(tree)
    ensures forall keys :: |keys| == 4 ==> (HasPath(tree, keys) <==> SomeKeys(rules, |rules|, order, keys))
  {
    hide TreeOk, HasPath, SomeKeys, RuleOk, NonEmpty;
    tree := Level(map[]);
    var i := 0;
    while i < |rules|
      invariant 0 <= i <= |rules| && tree == TreeOf(rules[..i], order, deny)
    {
      assert rules[..i + 1][..i] == rules[..i];
      tree := Add(tree, KeysOf(rules[i], order), deny);
      i := i + 1;
    }
    assert rules[..i] == rules;
    TreeOfPaths(rules, order, env, deny);
  }

  ghost predicate SomeRuleMatches(rules: seq<GroupRule>, p: Packet) {
    exists j :: 0 <= j < |rules| && RuleMatches(rules[j], p)
  }

  /** The keys of a rule match the packets that the rule matches. */
  lemma KeysMatch(r: GroupRule, order: Order, env: Env, p: Packet)
    requires env.Valid() && RuleOk(r, env) && RealPacket(p, env)
    ensures PathMatches(KeysOf(r, order), 0, order, p) <==> RuleMatches(r, p)
  {
    var keys := KeysOf(r, order);
    assert r.prt.Has(p.prt) && r.srcRange.None? ==> SrcRangeOf(r).Has(p.srcRange) by {
      assert G.KindOf(r.prt) != G.Unknown;
    }
    if PathMatches(keys, 0, order, p) {
      forall a: Attr
        ensures KeyOf(r, a).Has(p.Get(a))
      {
        OrderComplete(order, a);
        var i :| 0 <= i < 4 && order[i] == a;
        assert keys[i].Has(p.Get(order[0 + i]));
      }
      assert KeyOf(r, Src).Has(p.Get(Src)) && KeyOf(r, Dst).Has(p.Get(Dst));
      assert KeyOf(r, Prt).Has(p.Get(Prt)) && KeyOf(r, SrcRange).Has(p.Get(SrcRange));
    }
    if RuleMatches(r, p) {
      forall a: Attr
        ensures KeyOf(r, a).Has(p.Get(a))
      {}
    }
  }

  lemma OrderComplete(order: Order, a: Attr)
    ensures exists i :: 0 <= i < 4 && order[i] == a
  {
    assert order[0] != order[1] && order[0] != order[2] && order[0] != order[3];
    assert order[1] != order[2] && order[1] != order[3] && order[2] != order[3];
  }

  /** The tree decides like the list of rules. */
  lemma TreeMatches(rules: seq<GroupRule>, tree: RuleTree, order: Order, env: Env, p: Packet)
    requires env.Valid() && RealPacket(p, env) && forall i :: 0 <= i < |rules| ==> RuleOk(rules[i], env)
    requires forall keys :: |keys| == 4 ==> (HasPath(tree, keys) <==> SomeKeys(rules, |rules|, order, keys))
    ensures InTree(tree, 0, order, p) <==> SomeRuleMatches(rules, p)
  {
    if InTree(tree, 0, order, p) {
      var keys := InTreePath(tree, 0, order, p);
      var j :| 0 <= j < |rules| && KeysOf(rules[j], order) == keys;
      KeysMatch(rules[j], order, env, p);
    }
    if SomeRuleMatches(rules, p) {
      var j :| 0 <= j < |rules| && RuleMatches(rules[j], p);
      KeysMatch(rules[j], order, env, p);
      var keys := KeysOf(rules[j], order);
      assert SomeKeys(rules, |rules|, order, keys);
      PathInTree(tree, 0, order, p, keys);
    }
  }

  // ------------------------------------------------------------------ lost protocols

  /** The protocols at the root of a tree. */
  ghost function PrtTree(t: RuleTree): (tree: map<Range, RuleTree>)
    requires t.Level?
    ensures forall r :: r in tree <==> PrtKey(r) in t.m
    ensures forall r :: r in tree ==> tree[r] == t.m[PrtKey(r)]
  {
    map k | k in t.m && k.PrtKey? :: k.prt := t.m[k]
  }

  /** The key gets a node in the binary tree: each network does, but a protocol
      may be ignored or be lost below an ignored one. */
  ghost predicate HasNode(t: RuleTree, k: Key, env: Env)
    requires t.Level? && k in t.m
  {
    k.PrtKey? ==>
      G.Input(env.up, PrtTree(t), env.known) && G.Reachable(k.prt, env.up, PrtTree(t), env.known)
  }

  /** Some path of keys that all have nodes matches the packet. */
  ghost predicate Accepts(t: RuleTree, d: nat, order: Order, env: Env, p: Packet)
    decreases 4 - d
  {
    d >= 4 ||
    (t.Level? && exists k :: k in t.m && HasNode(t, k, env) && k.Has(p.Get(order[d])) &&
                             Accepts(t.m[k], d + 1, order, env, p))
  }

  /** Nothing gets lost at any level of protocols. */
  ghost predicate Lossless(t: RuleTree, d: nat, env: Env)
    decreases 4 - d
  {
    d < 4 && t.Level? ==>
      && (G.Input(env.up, PrtTree(t), env.known) ==> G.NothingLost(env.up, PrtTree(t), env.known))
      && (forall k :: k in t.m ==> Lossless(t.m[k], d + 1, env))
  }

  /** A lost protocol never adds a match. */
  lemma {:induction false} AcceptsInTree(t: RuleTree, d: nat, order: Order, env: Env, p: Packet)
    requires Accepts(t, d, order, env, p)
    ensures InTree(t, d, order, p)
    decreases 4 - d
  {
    hide HasNode;
    if d < 4 {
      var k :| k in t.m && HasNode(t, k, env) && k.Has(p.Get(order[d])) && Accepts(t.m[k], d + 1, order, env, p);
      AcceptsInTree(t.m[k], d + 1, order, env, p);
    }
  }

  lemma InputOfTree(t: RuleTree, d: nat, order: Order, env: Env, deny: bool)
    requires d < 4 && TreeOk(t, d, order, env, deny) && env.Valid()
    ensures G.Input(env.up, PrtTree(t), env.known)
  {
    forall r | r in PrtTree(t)
      ensures r in env.known
    {
      assert KeyOk(PrtKey(r), order[d], env);
    }
  }

  /** If nothing gets lost, the keys with nodes match as well as all keys. */
  lemma {:induction false} LosslessAccepts(t: RuleTree, d: nat, order: Order, env: Env, deny: bool, p: Packet)
    requires d <= 4 && TreeOk(t, d, order, env, deny) && env.Valid() && Lossless(t, d, env)
    ensures Accepts(t, d, order, env, p) <==> InTree(t, d, order, p)
    decreases 4 - d
  {
    hide KeyOk, HasNode, G.Input, G.NothingLost;
    if Accepts(t, d, order, env, p) {
      AcceptsInTree(t, d, order, env, p);
    }
    if d < 4 && InTree(t, d, order, p) {
      InputOfTree(t, d, order, env, deny);
      var k :| k in t.m && k.Has(p.Get(order[d])) && InTree(t.m[k], d + 1, order, p);
      LosslessAccepts(t.m[k], d + 1, order, env, deny, p);
      var l := KeyWithNode(t, k, env, p.Get(order[d]));
      assert l.Has(p.Get(order[d])) && t.m[l] == t.m[k];
    }
  }

  lemma KeyWithNode(t: RuleTree, k: Key, env: Env, v: int) returns (l: Key)
    requires t.Level? && k in t.m && k.Has(v)
    requires G.Input(env.up, PrtTree(t), env.known) && G.NothingLost(env.up, PrtTree(t), env.known)
    ensures l in t.m && t.m[l] == t.m[k] && HasNode(t, l, env) && l.Has(v)
  {
    hide G.UpRelation, G.Reachable;
    l := k;
    if !HasNode(t, k, env) {
      var tree := PrtTree(t);
      assert k.prt in tree;
      var u :| u in tree && P.Inside(k.prt, u) && tree[u] == tree[k.prt] && G.Reachable(u, env.up, tree, env.known);
      l := PrtKey(u);
    }
  }

  // ------------------------------------------------------------------ nested protocols

  /** Three protocols below 'ip' are strictly nested. */
  ghost predicate ThreeNested(known: set<Range>) {
    exists a, b, c :: a in known && b in known && c in known && G.Strict(a, b) && G.Strict(b, c) && c != G.PRT_IP
  }

  /** TCP and UDP have ports from 1 to 65535. */
  ghost predicate ProperPorts(env: Env) {
    forall r :: r in env.known ==>
      && (G.KindOf(r) == G.Tcp ==> P.Inside(r, PRT_TCP))
      && (G.KindOf(r) == G.Udp ==> P.Inside(r, PRT_UDP))
  }

  /** Only a protocol that lies in a top protocol is ignored, and none lies below it. */
  lemma FlatNothingLost(t: RuleTree, env: Env)
    requires t.Level? && G.Input(env.up, PrtTree(t), env.known) && !ThreeNested(env.known)
    ensures G.NothingLost(env.up, PrtTree(t), env.known)
  {
    var tree := PrtTree(t);
    forall r | r in tree && !G.Reachable(r, env.up, tree, env.known)
      ensures exists u :: u in tree && P.Inside(r, u) && tree[u] == tree[r] && G.Reachable(u, env.up, tree, env.known)
    {
      var u := G.Outer(r, env.up, tree, env.known).value;
      assert G.KindOf(u) != G.Unknown;
      forall w | w in env.known && G.Strict(u, w)
        ensures w == G.PRT_IP
      {}
      assert G.Outer(u, env.up, tree, env.known).None?;
      assert G.Reachable(u, env.up, tree, env.known);
    }
  }

  lemma {:induction false} FlatLossless(t: RuleTree, d: nat, env: Env)
    requires !ThreeNested(env.known)
    ensures Lossless(t, d, env)
    decreases 4 - d
  {
    hide G.NothingLost, G.Input, ThreeNested;
    if d < 4 && t.Level? {
      if G.Input(env.up, PrtTree(t), env.known) {
        FlatNothingLost(t, env);
      }
      forall k | k in t.m
        ensures Lossless(t.m[k], d + 1, env)
      {
        FlatLossless(t.m[k], d + 1, env);
      }
    }
  }

  // -------------------------------------------------------------- shadowed protocols

  /** `r` differs from `q` only in that its protocol, or its source range, lies
      inside that of `q`. */
  predicate Shadows(q: GroupRule, r: GroupRule) {
    && q.src == r.src && q.dst == r.dst
    && (|| (SrcRangeOf(q) == SrcRangeOf(r) && G.Strict(r.prt, q.prt) && q.prt != G.PRT_IP)
        || (q.prt == r.prt && G.Strict(SrcRangeOf(r), SrcRangeOf(q)) && SrcRangeOf(q) != G.PRT_IP))
  }

  predicate NoneShadowed(rules: seq<GroupRule>) {
    forall i, j :: 0 <= i < |rules| && 0 <= j < |rules| ==> !Shadows(rules[i], rules[j])
  }

  /** Below any protocol there is no smaller one with the same subtree. */
  ghost predicate Unshadowed(t: RuleTree, d: nat, order: Order)
    decreases 4 - d
  {
    d < 4 && t.Level? ==>
      && (forall k, l :: k in t.m && l in t.m && k.PrtKey? && l.PrtKey? &&
                         G.Strict(k.prt, l.prt) && l.prt != G.PRT_IP ==>
            t.m[k] != t.m[l])
      && (forall k :: k in t.m ==> Unshadowed(t.m[k], d + 1, order))
  }

  lemma {:induction false} UnshadowedReachable(t: RuleTree, d: nat, order: Order, env: Env, r: Range)
    requires d < 4 && t.Level? && Unshadowed(t, d, order)
    requires G.Input(env.up, PrtTree(t), env.known) && r in PrtTree(t)
    ensures G.Reachable(r, env.up, PrtTree(t), env.known)
    decreases G.PRT_IP.high - G.Width(r)
  {
    if r != G.PRT_IP {
      var o := G.Outer(r, env.up, PrtTree(t), env.known);
      if o.Some? {
        assert G.KindOf(o.value) != G.Unknown;
        assert t.m[PrtKey(r)] != t.m[PrtKey(o.value)];
        UnshadowedReachable(t, d, order, env, o.value);
      }
    }
  }

  /** Without shadowed protocols each one gets a node. */
  lemma {:induction false} UnshadowedLossless(t: RuleTree, d: nat, order: Order, env: Env)
    requires Unshadowed(t, d, order)
    ensures Lossless(t, d, env)
    decreases 4 - d
  {
    if d < 4 && t.Level? {
      if G.Input(env.up, PrtTree(t), env.known) {
        forall r | r in PrtTree(t)
          ensures G.Reachable(r, env.up, PrtTree(t), env.known)
        {
          UnshadowedReachable(t, d, order, env, r);
        }
      }
      forall k | k in t.m
        ensures Lossless(t.m[k], d + 1, env)
      {
        UnshadowedLossless(t.m[k], d + 1, order, env);
      }
    }
  }

  /** Every path of a tree belongs to a rule, with the keys `front` before it. */
  ghost predicate PathsOfRules(t: RuleTree, d: nat, front: seq<Key>, rules: seq<GroupRule>, order: Order)
    requires d <= 4
  {
    |front| == d && forall keys :: |keys| == 4 - d && HasPath(t, keys) ==> SomeKeys(rules, |rules|, order, front + keys)
  }

  lemma PathsBelow(t: RuleTree, d: nat, front: seq<Key>, rules: seq<GroupRule>, order: Order, k: Key)
    requires d < 4 && PathsOfRules(t, d, front, rules, order) && t.Level? && k in t.m
    ensures PathsOfRules(t.m[k], d + 1, front + [k], rules, order)
  {
    forall keys: seq<Key> | |keys| == 4 - (d + 1) && HasPath(t.m[k], keys)
      ensures SomeKeys(rules, |rules|, order, (front + [k]) + keys)
    {
      assert ([k] + keys)[1..] == keys;
      assert front + ([k] + keys) == (front + [k]) + keys;
    }
  }

  lemma {:induction false} SameSubtreeShadows(t: RuleTree, d: nat, front: seq<Key>, rules: seq<GroupRule>, order: Order,
                                              env: Env, deny: bool, k: Key, l: Key) returns (i: nat, j: nat)
    requires d < 4 && TreeOk(t, d, order, env, deny) && PathsOfRules(t, d, front, rules, order)
    requires k in t.m && l in t.m && t.m[k] == t.m[l]
    requires k.PrtKey? && l.PrtKey? && G.Strict(k.prt, l.prt) && l.prt != G.PRT_IP
    ensures i < |rules| && j < |rules| && Shadows(rules[j], rules[i])
  {
    hide KeyOk, Shadows, KeysOf;
    var rest := SomePath(t.m[k], d + 1, order, env, deny);
    assert ([k] + rest)[1..] == rest && ([l] + rest)[1..] == rest;
    var small, large := front + ([k] + rest), front + ([l] + rest);
    i :| 0 <= i < |rules| && KeysOf(rules[i], order) == small;
    j :| 0 <= j < |rules| && KeysOf(rules[j], order) == large;
    assert forall n :: 0 <= n < 4 && n != d ==> small[n] == large[n];
    SameButOne(rules[j], rules[i], order, d);
  }

  lemma {:induction false} TreeUnshadowed(rules: seq<GroupRule>, t: RuleTree, d: nat, front: seq<Key>,
                                          order: Order, env: Env, deny: bool)
    requires d <= 4 && TreeOk(t, d, order, env, deny) && PathsOfRules(t, d, front, rules, order)
    requires NoneShadowed(rules)
    ensures Unshadowed(t, d, order)
    decreases 4 - d
  {
    hide KeyOk, Shadows, PathsOfRules;
    if d < 4 {
      forall k, l | k in t.m && l in t.m && k.PrtKey? && l.PrtKey? && G.Strict(k.prt, l.prt) && l.prt != G.PRT_IP
        ensures t.m[k] != t.m[l]
      {
        if t.m[k] == t.m[l] {
          var i, j := SameSubtreeShadows(t, d, front, rules, order, env, deny, k, l);
          assert false;
        }
      }
      forall k | k in t.m
        ensures Unshadowed(t.m[k], d + 1, order)
      {
        PathsBelow(t, d, front, rules, order, k);
        TreeUnshadowed(rules, t.m[k], d + 1, front + [k], order, env, deny);
      }
    }
  }

  lemma SameButOne(q: GroupRule, r: GroupRule, order: Order, d: nat)
    requires d < 4 && forall i :: 0 <= i < 4 && i != d ==> KeysOf(q, order)[i] == KeysOf(r, order)[i]
    requires KeysOf(q, order)[d].PrtKey? && KeysOf(r, order)[d].PrtKey?
    requires G.Strict(KeysOf(r, order)[d].prt, KeysOf(q, order)[d].prt) && KeysOf(q, order)[d].prt != G.PRT_IP
    ensures Shadows(q, r)
  {
    forall a: Attr | a != order[d]
      ensures KeyOf(q, a) == KeyOf(r, a)
    {
      OrderComplete(order, a);
      var i :| 0 <= i < 4 && order[i] == a;
    }
    assert KeyOf(q, order[d]).PrtKey?;
    assert order[d] == Prt || order[d] == SrcRange;
    assert order[d] != Src ==> KeyOf(q, Src) == KeyOf(r, Src);
    assert order[d] != Dst ==> KeyOf(q, Dst) == KeyOf(r, Dst);
    assert order[d] != Prt ==> KeyOf(q, Prt) == KeyOf(r, Prt);
    assert order[d] != SrcRange ==> KeyOf(q, SrcRange) == KeyOf(r, SrcRange);
  }
}
