/** Groups of rules for which the chains of `findChains` miss a packet that one
    of the rules matches: `genprtBintree` loses a protocol below an ignored one
    (go/cmd/spoc2/main.go:1418-1431).  This happens for some group of rules exactly
    if three protocols below 'ip' are strictly nested.
  */
module LostRules {
  import opened Wrappers
  import opened Iptables
  import opened Prefixes
  import opened ChainCompiler
  import opened RuleTrees
  import opened FindChains
  import G = GenprtBintree
  import P = PrtBintree
  import Sorting

  const A1 := Prefix(0, 0)
  const A2 := Prefix(1, 0)
  const B := Prefix(2, 0)
  const SERVER := Prefix(3, 0)
  const ORDER: Order := [SrcRange, Dst, Prt, Src]

  /** Three protocols of TCP, or of UDP, which are strictly nested. */
  datatype Nest = Nest(inner: Range, mid: Range, outer: Range) {
    /** All ports of the protocol. */
    function Whole(): Range {
      if G.KindOf(outer) == G.Tcp then PRT_TCP else PRT_UDP
    }

    predicate Valid() {
      && G.Strict(inner, mid) && G.Strict(mid, outer) && inner.low <= inner.high && P.Inside(outer, Whole())
      && (G.KindOf(outer) == G.Tcp || G.KindOf(outer) == G.Udp)
    }

    /** Packets from B to the inner protocol. */
    function Lost(): Packet {
      Packet(Whole().low, SERVER.base, inner.low, B.base)
    }

    /** A1 and A2 may use the outer and the middle protocol, but B only the inner one. */
    function Rules(): seq<GroupRule> {
      [RuleFor(A1, outer), RuleFor(A2, outer), RuleFor(A1, mid), RuleFor(A2, mid), RuleFor(B, inner)]
    }
  }

  function RuleFor(src: Prefix, prt: Range): GroupRule {
    GroupRule(src, SERVER, prt, None)
  }

  lemma NestKinds(n: Nest)
    requires n.Valid()
    ensures G.KindOf(n.inner) == G.KindOf(n.mid) == G.KindOf(n.outer)
    ensures forall src, prt :: prt in {n.inner, n.mid, n.outer} ==> SrcRangeOf(RuleFor(src, prt)) == n.Whole()
  {}

  lemma Counts(n: Nest)
    requires n.Valid()
    ensures CountKey(n.Rules(), SrcRange).0 == 1 && CountKey(n.Rules(), Dst).0 == 1
    ensures CountKey(n.Rules(), Prt).0 == 3 && CountKey(n.Rules(), Src).0 == 3
    ensures CountKey(n.Rules(), SrcRange).1 < CountKey(n.Rules(), Dst).1
    ensures CountKey(n.Rules(), Prt).1 < CountKey(n.Rules(), Src).1
  {
    NestKinds(n);
    hide SrcRangeOf, Nest.Valid;
    var r := n.Rules();
    assert r[0] == RuleFor(A1, n.outer) && r[1] == RuleFor(A2, n.outer) && r[2] == RuleFor(A1, n.mid);
    assert r[3] == RuleFor(A2, n.mid) && r[4] == RuleFor(B, n.inner);
    assert (set i | 0 <= i < |r| :: KeyOf(r[i], SrcRange)) == {PrtKey(n.Whole())};
    assert (set i | 0 <= i < |r| :: KeyOf(r[i], Dst)) == {NetKey(SERVER)};
    assert (set i | 0 <= i < |r| :: KeyOf(r[i], Prt)) == {PrtKey(n.outer), PrtKey(n.mid), PrtKey(n.inner)};
    assert (set i | 0 <= i < |r| :: KeyOf(r[i], Src)) == {NetKey(A1), NetKey(A2), NetKey(B)};
    assert n.outer != n.mid && n.mid != n.inner && n.outer != n.inner by {
      Different(n);
    }
  }

  lemma Different(n: Nest)
    requires n.Valid()
    ensures n.outer != n.mid && n.mid != n.inner && n.outer != n.inner
  {}

  lemma OrderOfRules(n: Nest, order: Order)
    requires n.Valid() && AttrOrder(order, n.Rules())
    ensures order == ORDER
  {
    hide CountKey, Nest.Valid, Nest.Rules;
    var r := n.Rules();
    Counts(n);
    assert forall i, j :: 0 <= i < j < 4 ==> Sorting.Before(CountKey(r, order[i]), CountKey(r, order[j]));
    assert order[0] != order[1] && order[0] != order[2] && order[0] != order[3];
    assert order[1] != order[2] && order[1] != order[3] && order[2] != order[3];
  }

  // ---------------------------------------------------------------- the rule tree

  /** Below the only source range and the only destination. */
  function Top(whole: Range, m: map<Key, RuleTree>): RuleTree {
    Level(map[PrtKey(whole) := Level(map[NetKey(SERVER) := Level(m)])])
  }

  function Sources(srcs: set<Prefix>, deny: bool): RuleTree {
    Level(map s | s in srcs :: NetKey(s) := Action(deny))
  }

  lemma AddBelow(m: map<Key, RuleTree>, prt: Range, srcs: set<Prefix>, src: Prefix, deny: bool)
    requires if srcs == {} then PrtKey(prt) !in m else PrtKey(prt) in m && m[PrtKey(prt)] == Sources(srcs, deny)
    ensures Add(Level(m), [PrtKey(prt), NetKey(src)], deny) == Level(m[PrtKey(prt) := Sources(srcs + {src}, deny)])
  {
    var keys := [PrtKey(prt), NetKey(src)];
    assert keys[1..] == [NetKey(src)];
    var before := if srcs == {} then Level(map[]) else Sources(srcs, deny);
    assert Add(before, [NetKey(src)], deny) == Sources(srcs + {src}, deny);
  }

  lemma AddAtTop(whole: Range, m: map<Key, RuleTree>, prt: Range, srcs: set<Prefix>, src: Prefix, deny: bool)
    requires SrcRangeOf(RuleFor(src, prt)) == whole
    requires if srcs == {} then PrtKey(prt) !in m else PrtKey(prt) in m && m[PrtKey(prt)] == Sources(srcs, deny)
    ensures var t := Top(whole, m[PrtKey(prt) := Sources(srcs + {src}, deny)]);
            && Add(Top(whole, m), KeysOf(RuleFor(src, prt), ORDER), deny) == t
            && (m == map[] ==> Add(Level(map[]), KeysOf(RuleFor(src, prt), ORDER), deny) == t)
  {
    var keys := KeysOf(RuleFor(src, prt), ORDER);
    assert keys == [PrtKey(whole), NetKey(SERVER), PrtKey(prt), NetKey(src)];
    assert keys[1..] == [NetKey(SERVER), PrtKey(prt), NetKey(src)];
    assert keys[1..][1..] == [PrtKey(prt), NetKey(src)];
    AddBelow(m, prt, srcs, src, deny);
    var mid, after := map[NetKey(SERVER) := Level(m)], Level(m[PrtKey(prt) := Sources(srcs + {src}, deny)]);
    assert mid[NetKey(SERVER) := after] == map[NetKey(SERVER) := after];
    assert Add(Level(mid), keys[1..], deny) == Level(map[NetKey(SERVER) := after]);
    var top := map[PrtKey(whole) := Level(mid)];
    assert top[PrtKey(whole) := Level(map[NetKey(SERVER) := after])] ==
           map[PrtKey(whole) := Level(map[NetKey(SERVER) := after])];
    if m == map[] {
      assert Add(Level(map[]), keys[1..], deny) == Level(map[NetKey(SERVER) := after]);
    }
  }

  lemma AddRule(rules: seq<GroupRule>, k: nat, whole: Range, m: map<Key, RuleTree>,
                prt: Range, srcs: set<Prefix>, src: Prefix, deny: bool)
    requires k < |rules| && rules[k] == RuleFor(src, prt) && SrcRangeOf(rules[k]) == whole
    requires TreeOf(rules[..k], ORDER, deny) == if k == 0 then Level(map[]) else Top(whole, m)
    requires k == 0 ==> m == map[]
    requires if srcs == {} then PrtKey(prt) !in m else PrtKey(prt) in m && m[PrtKey(prt)] == Sources(srcs, deny)
    ensures TreeOf(rules[..k + 1], ORDER, deny) == Top(whole, m[PrtKey(prt) := Sources(srcs + {src}, deny)])
  {
    hide Add, KeysOf, Top, Sources, SrcRangeOf, TreeOf;
    TreeOfNext(rules, k, ORDER, deny);
    AddAtTop(whole, m, prt, srcs, src, deny);
  }

  function Bottom(n: Nest, deny: bool): map<Key, RuleTree> {
    map[PrtKey(n.outer) := Sources({A1, A2}, deny), PrtKey(n.mid) := Sources({A1, A2}, deny),
        PrtKey(n.inner) := Sources({B}, deny)]
  }

  /** Two rules for the same protocol. */
  lemma AddBoth(rules: seq<GroupRule>, k: nat, whole: Range, m: map<Key, RuleTree>, prt: Range, deny: bool)
    requires k + 1 < |rules| && rules[k] == RuleFor(A1, prt) && rules[k + 1] == RuleFor(A2, prt)
    requires SrcRangeOf(rules[k]) == SrcRangeOf(rules[k + 1]) == whole && PrtKey(prt) !in m
    requires TreeOf(rules[..k], ORDER, deny) == if k == 0 then Level(map[]) else Top(whole, m)
    requires k == 0 ==> m == map[]
    ensures TreeOf(rules[..k + 2], ORDER, deny) == Top(whole, m[PrtKey(prt) := Sources({A1, A2}, deny)])
  {
    hide Top, Sources, SrcRangeOf, TreeOf, RuleFor;
    assert {} + {A1} == {A1} && {A1} + {A2} == {A1, A2};
    AddRule(rules, k, whole, m, prt, {}, A1, deny);
    var next := m[PrtKey(prt) := Sources({A1}, deny)];
    AddRule(rules, k + 1, whole, next, prt, {A1}, A2, deny);
    assert next[PrtKey(prt) := Sources({A1, A2}, deny)] == m[PrtKey(prt) := Sources({A1, A2}, deny)];
  }

  lemma TreeOfRules(n: Nest, deny: bool)
    requires n.Valid()
    ensures TreeOf(n.Rules(), ORDER, deny) == Top(n.Whole(), Bottom(n, deny))
  {
    NestKinds(n);
    Different(n);
    RulesAre(n);
    hide Top, Sources, SrcRangeOf, Nest.Valid, TreeOf, RuleFor, Nest.Rules, Nest.Whole;
    var r, w := n.Rules(), n.Whole();
    EmptyTree(r, deny);
    AddBoth(r, 0, w, map[], n.outer, deny);
    var m := map[PrtKey(n.outer) := Sources({A1, A2}, deny)];
    assert map[][PrtKey(n.outer) := Sources({A1, A2}, deny)] == m;
    AddBoth(r, 2, w, m, n.mid, deny);
    AddRule(r, 4, w, m[PrtKey(n.mid) := Sources({A1, A2}, deny)], n.inner, {}, B, deny);
    assert {} + {B} == {B};
    assert m[PrtKey(n.mid) := Sources({A1, A2}, deny)][PrtKey(n.inner) := Sources({B}, deny)] == Bottom(n, deny);
    assert r[..5] == r;
  }

  lemma RulesAre(n: Nest)
    ensures var r := n.Rules();
            && |r| == 5 && r[0] == RuleFor(A1, n.outer) && r[1] == RuleFor(A2, n.outer)
            && r[2] == RuleFor(A1, n.mid) && r[3] == RuleFor(A2, n.mid) && r[4] == RuleFor(B, n.inner)
  {}

  lemma EmptyTree(rules: seq<GroupRule>, deny: bool)
    ensures TreeOf(rules[..0], ORDER, deny) == Level(map[])
  {}

  // --------------------------------------------------------------- the lost packet

  ghost predicate Known(n: Nest, env: Env) {
    n.Valid() && n.inner in env.known && n.mid in env.known && n.outer in env.known
  }

  lemma HostFits(n: Prefix, env: Env)
    requires n.inv == 0 && n.base <= 3 && env.bits >= 2
    ensures NetOk(n, env) && n.base < Pow2(env.bits)
  {
    Pow2Mono(2, env.bits);
    assert Pow2(0) == 1 && Pow2(1) == 2 && Pow2(2) == 4;
  }

  lemma RulesHold(n: Nest, env: Env)
    requires env.Valid() && env.bits >= 2 && Known(n, env)
    ensures RealPacket(n.Lost(), env) && RuleMatches(n.Rules()[4], n.Lost())
    ensures forall i :: 0 <= i < |n.Rules()| ==> RuleOk(n.Rules()[i], env)
  {
    NestKinds(n);
    hide NetOk, Pow2, Env.Valid, SrcRangeOf;
    HostFits(A1, env);
    HostFits(A2, env);
    HostFits(B, env);
    HostFits(SERVER, env);
    assert B.Has(B.base) && SERVER.Has(SERVER.base);
  }

  /** The inner protocol has no node, because the middle one has the sources of the outer one. */
  lemma InnerWithoutNode(n: Nest, env: Env, deny: bool)
    requires env.Valid() && Known(n, env)
    ensures !HasNode(Level(Bottom(n, deny)), PrtKey(n.inner), env)
  {
    Different(n);
    var t := Level(Bottom(n, deny));
    var tree := PrtTree(t);
    assert tree.Keys == {n.inner, n.mid, n.outer};
    assert G.Input(env.up, tree, env.known);
    hide G.UpRelation, Nest.Whole;
    OutersOf(n, env, tree);
    assert tree[n.mid] == tree[n.outer];
    hide G.Outer, Nest.Valid;
    assert !G.Reachable(n.mid, env.up, tree, env.known);
  }

  lemma OutersOf(n: Nest, env: Env, tree: map<Range, RuleTree>)
    requires G.Input(env.up, tree, env.known) && Known(n, env) && tree.Keys == {n.inner, n.mid, n.outer}
    ensures n.mid != G.PRT_IP && n.inner != G.PRT_IP
    ensures G.Outer(n.mid, env.up, tree, env.known) == Some(n.outer)
    ensures G.Outer(n.inner, env.up, tree, env.known) == Some(n.mid)
  {
    hide G.UpRelation;
  }

  lemma OtherSources(env: Env, p: Packet, deny: bool)
    requires p.src == B.base
    ensures !Accepts(Sources({A1, A2}, deny), 3, ORDER, env, p)
  {
    hide HasNode;
  }

  lemma BottomFails(n: Nest, env: Env, p: Packet, deny: bool)
    requires !HasNode(Level(Bottom(n, deny)), PrtKey(n.inner), env)
    requires !Accepts(Sources({A1, A2}, deny), 3, ORDER, env, p)
    ensures !Accepts(Level(Bottom(n, deny)), 2, ORDER, env, p)
  {
    hide HasNode, Sources;
  }

  lemma NotAccepted(n: Nest, env: Env, deny: bool)
    requires env.Valid() && Known(n, env)
    ensures !Accepts(Top(n.Whole(), Bottom(n, deny)), 0, ORDER, env, n.Lost())
  {
    InnerWithoutNode(n, env, deny);
    OtherSources(env, n.Lost(), deny);
    hide HasNode, Env.Valid, Accepts, Known, Bottom;
    var t, p := Level(Bottom(n, deny)), n.Lost();
    BottomFails(n, env, p, deny);
    OnlyBelow(NetKey(SERVER), t, 1, env, p);
    OnlyBelow(PrtKey(n.Whole()), Level(map[NetKey(SERVER) := t]), 0, env, p);
  }

  lemma OnlyBelow(k: Key, t: RuleTree, d: nat, env: Env, p: Packet)
    requires d < 4
    ensures Accepts(Level(map[k := t]), d, ORDER, env, p) ==> Accepts(t, d + 1, ORDER, env, p)
  {
    hide HasNode;
  }

  /** The last rule matches the packet, but the machine falls through. */
  lemma PacketGetsLost(n: Nest, env: Env, result: Rules, chains: seq<Rules>, order: Order, deny: bool)
    requires env.Valid() && env.bits >= 2 && Known(n, env)
    requires AttrOrder(order, n.Rules()) && DecidesLike(result, chains, n.Rules(), order, env, deny)
    ensures forall i :: 0 <= i < |n.Rules()| ==> RuleOk(n.Rules()[i], env)
    ensures RealPacket(n.Lost(), env) && RuleMatches(n.Rules()[4], n.Lost())
    ensures Outputs(result, chains, n.Lost(), FellThrough)
  {
    hide Accepts, TreeOf, AttrOrder, RuleOk, NetOk, Env.Valid, Outputs, Top, Bottom, RealPacket, Nest.Rules, Nest.Lost;
    OrderOfRules(n, order);
    TreeOfRules(n, deny);
    RulesHold(n, env);
    NotAccepted(n, env, deny);
  }

  // ------------------------------------------------------------- the exact condition

  /** Each group of rules is decided exactly, with each order that `findChains` may choose. */
  ghost predicate DecidesAll(env: Env, deny: bool) {
    forall rules: seq<GroupRule>, order: Order, p: Packet ::
      (forall i :: 0 <= i < |rules| ==> RuleOk(rules[i], env)) && AttrOrder(order, rules) && RealPacket(p, env) ==>
      (Accepts(TreeOf(rules, order, deny), 0, order, env, p) <==> SomeRuleMatches(rules, p))
  }

  lemma SomeNest(env: Env) returns (n: Nest)
    requires env.Valid() && ProperPorts(env) && ThreeNested(env.known)
    ensures Known(n, env)
  {
    var a, b, c :| a in env.known && b in env.known && c in env.known && G.Strict(a, b) && G.Strict(b, c) &&
                   c != G.PRT_IP;
    n := Nest(a, b, c);
    assert G.KindOf(a) != G.Unknown && G.KindOf(b) != G.Unknown && G.KindOf(c) != G.Unknown;
  }

  lemma OrderIs(n: Nest)
    requires n.Valid()
    ensures AttrOrder(ORDER, n.Rules())
  {
    hide CountKey, Nest.Valid, Nest.Rules;
    Counts(n);
  }

  lemma LastMatches(n: Nest)
    requires RuleMatches(n.Rules()[4], n.Lost())
    ensures SomeRuleMatches(n.Rules(), n.Lost())
  {}

  /** All groups of rules over the known protocols are decided exactly, if and only if no
      three of these protocols below 'ip' are strictly nested. */
  lemma DecidesAllIff(env: Env, deny: bool)
    requires env.Valid() && env.bits >= 2 && ProperPorts(env)
    ensures DecidesAll(env, deny) <==> !ThreeNested(env.known)
  {
    hide Accepts, TreeOf, AttrOrder, RuleOk, Env.Valid, ProperPorts, ThreeNested, RealPacket, SomeRuleMatches, Known;
    if ThreeNested(env.known) {
      var n := SomeNest(env);
      RulesHold(n, env);
      OrderIs(n);
      TreeOfRules(n, deny);
      NotAccepted(n, env, deny);
      LastMatches(n);
    } else {
      forall rules: seq<GroupRule>, order: Order, p: Packet
        | (forall i :: 0 <= i < |rules| ==> RuleOk(rules[i], env)) && AttrOrder(order, rules) && RealPacket(p, env)
        ensures Accepts(TreeOf(rules, order, deny), 0, order, env, p) <==> SomeRuleMatches(rules, p)
      {
        FlatMatches(rules, order, env, deny, p);
      }
    }
  }
}
