/** Search for redundant rules (`setLocalPrtRelation`, `buildRuleTree` and
    `findRedundantRules` in go/pkg/pass1/check-redundant.go).

    Rules are stored in nested maps.  For each rule the search walks up the `up`
    chain of each of its six parts.  For protocols it takes the shorter chain
    `localUp`, which has only protocols that occur in the rules.
  */
module RedundantRules {
  import opened Wrappers

  class Proto {
    const id: nat
    const up: Proto?
    /** Number of larger protocols; it shows that each chain ends. */
    const height: nat
    var localUp: Proto?

    constructor (id: nat, up: Proto?)
      ensures this.id == id && this.up == up && localUp == null
      ensures height == if up == null then 0 else up.height + 1
    {
      this.id, this.up, localUp := id, up, null;
      height := if up == null then 0 else up.height + 1;
    }
  }

  /** Source and destination: a network, a subnet or an interface, with the next larger object. */
  datatype Obj = Obj(id: nat, up: Option<Obj>)

  datatype Rule = Rule(id: nat, stateless: bool, deny: bool, srcRange: Proto?, src: Obj, dst: Obj, prt: Proto,
                       log: string)

  /** A key in one of the nested maps. */
  datatype Part = Flag(flag: bool) | Prt(prt: Proto) | Net(obj: Obj)

  datatype Tree = Leaf(rule: Rule) | Node(subtrees: map<Part, Tree>)

  const STATELESS := 0
  const DENY := 1
  const PRT := 5
  const LEVELS := 6

  /** Larger protocols are known, and lie higher. */
  ghost predicate KnownUp(all: set<Proto>) {
    forall p :: p in all && p.up != null ==> p.up in all && p.up.height < p.height
  }

  ghost predicate Known(all: set<Proto>)
    reads all
  {
    KnownUp(all) && forall p :: p in all && p.localUp != null ==> p.localUp in all && p.localUp.height < p.height
  }

  ghost predicate KnownPart(x: Part, all: set<Proto>) {
    x.Prt? ==> x.prt in all
  }

  // -------------------------------------------------------------- the chains of a part

  /** The next larger value of a part, for protocols either by `localUp` or by `up`. */
  function Next(level: nat, x: Part, local: bool, ghost all: set<Proto>): (r: Option<Part>)
    requires Known(all) && KnownPart(x, all)
    reads all
    ensures r.Some? ==> KnownPart(r.value, all) && Height(level, r.value) < Height(level, x)
  {
    match x
    case Flag(b) =>
      if level == STATELESS && b then Some(Flag(false))
      else if level == DENY && !b then Some(Flag(true))
      else None
    case Prt(p) =>
      var q := if level == PRT && local then p.localUp else p.up;
      if q == null then None else Some(Prt(q))
    case Net(o) =>
      if o.up.Some? then Some(Net(o.up.value)) else None
  }

  function Depth(o: Obj): nat {
    if o.up.Some? then 1 + Depth(o.up.value) else 0
  }

  ghost function Height(level: nat, x: Part): nat {
    match x
    case Flag(b) => if level == STATELESS then (if b then 1 else 0) else if b then 0 else 1
    case Prt(p) => p.height
    case Net(o) => Depth(o)
  }

  /** `y` is found on the chain of `x`. */
  ghost predicate Above(level: nat, x: Part, y: Part, local: bool, all: set<Proto>)
    requires Known(all) && KnownPart(x, all)
    reads all
    decreases Height(level, x)
  {
    x == y || (Next(level, x, local, all).Some? && Above(level, Next(level, x, local, all).value, y, local, all))
  }

  /** `q` is `o` or a larger object around it. */
  ghost predicate Within(o: Obj, q: Obj)
    decreases o
  {
    o == q || (o.up.Some? && Within(o.up.value, q))
  }

  /** `q` is `p` or a larger protocol. */
  ghost predicate PartOf(p: Proto, q: Proto, all: set<Proto>)
    requires KnownUp(all) && p in all
    decreases p.height
  {
    p == q || (p.up != null && PartOf(p.up, q, all))
  }

  /** Stateless rules are covered by stateful ones, and permit rules by deny rules. */
  lemma AboveFlag(x: bool, y: bool, local: bool, all: set<Proto>)
    requires Known(all)
    ensures Above(STATELESS, Flag(x), Flag(y), local, all) <==> (y ==> x)
    ensures Above(DENY, Flag(x), Flag(y), local, all) <==> (x ==> y)
  {}

  lemma {:induction false} AboveObj(level: nat, o: Obj, q: Obj, local: bool, all: set<Proto>)
    requires Known(all)
    ensures Above(level, Net(o), Net(q), local, all) <==> Within(o, q)
    decreases o
  {
    if o.up.Some? {
      AboveObj(level, o.up.value, q, local, all);
    }
  }

  lemma {:induction false} AbovePrt(level: nat, p: Proto, q: Proto, all: set<Proto>)
    requires Known(all) && p in all
    ensures Above(level, Prt(p), Prt(q), false, all) <==> PartOf(p, q, all)
    decreases p.height
  {
    if p.up != null {
      AbovePrt(level, p.up, q, all);
    }
  }

  // --------------------------------------------------------------------- shorter chains

  /** The nearest of the protocols `used`, from `p` on upwards. */
  ghost function Nearest(p: Proto?, used: set<Proto>, all: set<Proto>): (r: Proto?)
    requires KnownUp(all) && (p != null ==> p in all)
    ensures r != null ==> p != null && r in used && r in all && r.height <= p.height
    decreases if p == null then 0 else p.height + 1
  {
    if p == null || p in used then p else Nearest(p.up, used, all)
  }

  ghost predicate LocalSet(used: set<Proto>, all: set<Proto>)
    requires Known(all)
    reads all
  {
    used <= all && forall p :: p in used ==> p.localUp == Nearest(p.up, used, all)
  }

  /** The chain from the next used protocol has the used protocols of the whole chain. */
  lemma {:induction false} NearestAbove(p: Proto, q: Proto, used: set<Proto>, all: set<Proto>)
    requires Known(all) && p in all && q in used
    ensures Above(PRT, Prt(p), Prt(q), false, all) <==>
            var r := Nearest(p, used, all); r != null && Above(PRT, Prt(r), Prt(q), false, all)
    decreases p.height
  {
    if p !in used && p.up != null {
      NearestAbove(p.up, q, used, all);
    }
  }

  /** Between used protocols both chains lead to the same ones. */
  lemma {:induction false} LocalAbove(p: Proto, q: Proto, used: set<Proto>, all: set<Proto>)
    requires Known(all) && LocalSet(used, all) && p in used && q in used
    ensures Above(PRT, Prt(p), Prt(q), true, all) <==> Above(PRT, Prt(p), Prt(q), false, all)
    decreases p.height
  {
    if p.up != null {
      NearestAbove(p.up, q, used, all);
    }
    if p.localUp != null {
      LocalAbove(p.localUp, q, used, all);
    }
  }

  method SetLocalPrtRelation(rules: seq<Rule>, ghost all: set<Proto>) returns (ghost used: set<Proto>)
    requires Known(all) && forall r :: r in rules ==> r.prt in all
    modifies all`localUp
    ensures used == (set r | r in rules :: r.prt)
    ensures Known(all) && LocalSet(used, all)
    ensures forall p :: p in all && p !in used ==> p.localUp == old(p.localUp)
  {
    var prtMap := set r | r in rules :: r.prt;
    used := prtMap;
    var todo := prtMap;
    while todo != {}
      invariant todo <= prtMap && Known(all)
      invariant forall p :: p in prtMap && p !in todo ==> p.localUp == Nearest(p.up, prtMap, all)
      invariant forall p :: p in all && p !in prtMap ==> p.localUp == old(p.localUp)
      decreases todo
    {
      var prt :| prt in todo;
      todo := todo - {prt};
      var localUp: Proto? := null;
      var up := prt.up;
      while up != null
        invariant up != null ==> up in all && up.height < prt.height
        invariant localUp == null && Nearest(up, prtMap, all) == Nearest(prt.up, prtMap, all)
        decreases if up == null then 0 else up.height + 1
      {
        if up in prtMap {
          localUp := up;
          break;
        }
        up := up.up;
      }
      prt.localUp := localUp;
    }
  }

  // ------------------------------------------------------------------------- rule trees

  /** Nested maps of depth `n` with known protocols. */
  ghost predicate IsTree(t: Tree, n: nat, all: set<Proto>) {
    if n == 0 then t.Leaf?
    else
      t.Node? && forall x :: x in t.subtrees ==> KnownPart(x, all) && IsTree(t.subtrees[x], n - 1, all)
  }

  function Get(t: Tree, path: seq<Part>): Option<Rule> {
    match t
    case Leaf(rule) => if path == [] then Some(rule) else None
    case Node(subtrees) =>
      if path != [] && path[0] in subtrees then Get(subtrees[path[0]], path[1..]) else None
  }

  /** Stores a subtree; missing maps are created. */
  function Put(t: Tree, path: seq<Part>, subtree: Tree): Tree
    decreases |path|
  {
    if path == [] then subtree
    else
      var subtrees := if t.Node? then t.subtrees else map[];
      var next := if path[0] in subtrees then subtrees[path[0]] else Node(map[]);
      Node(subtrees[path[0] := Put(next, path[1..], subtree)])
  }

  lemma {:induction false} PutTree(t: Tree, path: seq<Part>, subtree: Tree, n: nat, all: set<Proto>)
    requires IsTree(t, |path| + n, all) || t == Node(map[])
    requires IsTree(subtree, n, all) && forall x :: x in path ==> KnownPart(x, all)
    ensures IsTree(Put(t, path, subtree), |path| + n, all)
    decreases |path|
  {
    if path != [] {
      assert path[0] in path;
      var next := if path[0] in t.subtrees then t.subtrees[path[0]] else Node(map[]);
      PutTree(next, path[1..], subtree, n, all);
    }
  }

  /** Only paths that start with the given path are affected. */
  lemma {:induction false} GetPut(t: Tree, path: seq<Part>, subtree: Tree, n: nat, q: seq<Part>, all: set<Proto>)
    requires IsTree(t, |path| + n, all) || t == Node(map[])
    requires |q| == |path| + n
    ensures Get(Put(t, path, subtree), q) == if q[..|path|] == path then Get(subtree, q[|path|..]) else Get(t, q)
    decreases |path|
  {
    if path == [] {
      assert q[0..] == q;
    } else {
      var next := if path[0] in t.subtrees then t.subtrees[path[0]] else Node(map[]);
      var k := |path|;
      assert q[..k] == [q[0]] + q[1..][..k - 1] && path == [path[0]] + path[1..];
      assert q[k..] == q[1..][k - 1..];
      if q[0] == path[0] {
        GetPut(next, path[1..], subtree, n, q[1..], all);
      }
    }
  }

  function Path(r: Rule, prtIP: Proto): seq<Part> {
    [Flag(r.stateless), Flag(r.deny), Prt(if r.srcRange == null then prtIP else r.srcRange),
     Net(r.src), Net(r.dst), Prt(r.prt)]
  }

  // ------------------------------------------------------------------------- the search

  /** Pairs found below `ct`, when `y` and the larger values are looked up in `cmp`. */
  ghost function PairsUp(level: nat, ct: Tree, y: Part, cmp: Tree, local: bool, all: set<Proto>): set<(Rule, Rule)>
    requires Known(all) && KnownPart(y, all) && cmp.Node?
    reads all
    decreases ct, 1, Height(level, y)
  {
    (if y in cmp.subtrees then Pairs(level + 1, ct, cmp.subtrees[y], local, all) else {}) +
    match Next(level, y, local, all)
    case None => {}
    case Some(z) => PairsUp(level, ct, z, cmp, local, all)
  }

  /** Pairs of a rule of `chg` and a covering rule of `cmp`. */
  ghost function Pairs(level: nat, chg: Tree, cmp: Tree, local: bool, all: set<Proto>): set<(Rule, Rule)>
    requires Known(all)
    reads all
    decreases chg, 0
  {
    if chg.Leaf? && cmp.Leaf? then
      if cmp.rule != chg.rule && cmp.rule.log == chg.rule.log then {(chg.rule, cmp.rule)} else {}
    else if chg.Node? && cmp.Node? then
      set x, p | x in chg.subtrees && KnownPart(x, all) && p in PairsUp(level, chg.subtrees[x], x, cmp, local, all) :: p
    else
      {}
  }

  ghost function PairsOf(level: nat, keys: set<Part>, chg: Tree, cmp: Tree, local: bool,
                         all: set<Proto>): set<(Rule, Rule)>
    requires Known(all) && chg.Node? && cmp.Node?
    reads all
  {
    set x, p | x in keys && x in chg.subtrees && KnownPart(x, all) &&
               p in PairsUp(level, chg.subtrees[x], x, cmp, local, all) :: p
  }

  ghost function Elements(s: seq<(Rule, Rule)>): set<(Rule, Rule)> {
    set p | p in s
  }

  lemma ElementsSum(s: seq<(Rule, Rule)>, t: seq<(Rule, Rule)>)
    ensures Elements(s + t) == Elements(s) + Elements(t)
  {
  }

  lemma {:induction false} PairsOfMore(level: nat, done: set<Part>, x: Part, chg: Tree, cmp: Tree, all: set<Proto>)
    requires Known(all) && chg.Node? && cmp.Node? && x in chg.subtrees && KnownPart(x, all)
    ensures PairsOf(level, done + {x}, chg, cmp, true, all) ==
            PairsOf(level, done, chg, cmp, true, all) + PairsUp(level, chg.subtrees[x], x, cmp, true, all)
  {
    hide PairsUp;
  }

  /** The loops over one part of the rules, and all loops inside of it: collects each rule
      of `chg` together with each covering rule of `cmp`. */
  method FindRedundantRules(level: nat, chg: Tree, cmp: Tree, collect: seq<(Rule, Rule)>, ghost all: set<Proto>)
    returns (c: seq<(Rule, Rule)>)
    requires Known(all) && level <= LEVELS && IsTree(chg, LEVELS - level, all) && IsTree(cmp, LEVELS - level, all)
    ensures Elements(c) == Elements(collect) + Pairs(level, chg, cmp, true, all)
    decreases LEVELS - level, 1
  {
    hide PairsUp;
    c := collect;
    if chg.Leaf? {
      if cmp.rule != chg.rule && cmp.rule.log == chg.rule.log {
        ElementsSum(c, [(chg.rule, cmp.rule)]);
        c := c + [(chg.rule, cmp.rule)];
      }
      return;
    }
    hide Elements;
    var keys := chg.subtrees.Keys;
    ghost var done: set<Part> := {};
    assert PairsOf(level, done, chg, cmp, true, all) == {};
    while keys != {}
      invariant keys + done == chg.subtrees.Keys
      invariant Elements(c) == Elements(collect) + PairsOf(level, done, chg, cmp, true, all)
      decreases keys
    {
      var x :| x in keys;
      keys := keys - {x};
      PairsOfMore(level, done, x, chg, cmp, all);
      c := WalkUp(level, chg.subtrees[x], x, cmp, c, all);
      done := done + {x};
    }
    assert done == chg.subtrees.Keys;
  }

  /** The walk from part `x` of some rules to larger values. */
  method WalkUp(level: nat, ct: Tree, x: Part, cmp: Tree, collect: seq<(Rule, Rule)>, ghost all: set<Proto>)
    returns (c: seq<(Rule, Rule)>)
    requires Known(all) && KnownPart(x, all) && level < LEVELS
    requires IsTree(ct, LEVELS - level - 1, all) && IsTree(cmp, LEVELS - level, all)
    ensures Elements(c) == Elements(collect) + PairsUp(level, ct, x, cmp, true, all)
    decreases LEVELS - level, 0
  {
    hide Elements, Pairs, Known, Height;
    c := collect;
    var y := Some(x);
    while y.Some?
      invariant y.Some? ==> KnownPart(y.value, all)
      invariant Elements(collect) + PairsUp(level, ct, x, cmp, true, all) ==
                Elements(c) + if y.Some? then PairsUp(level, ct, y.value, cmp, true, all) else {}
      decreases if y.Some? then 1 + Height(level, y.value) else 0
    {
      if y.value in cmp.subtrees {
        c := FindRedundantRules(level + 1, ct, cmp.subtrees[y.value], c, all);
      }
      y := Next(level, y.value, true, all);
    }
  }

  // -------------------------------------------------- what the search finds

  lemma {:induction false} PairsUpIff(level: nat, ct: Tree, x: Part, cmp: Tree, local: bool, all: set<Proto>,
                                      p: (Rule, Rule))
    requires Known(all) && KnownPart(x, all) && cmp.Node?
    ensures p in PairsUp(level, ct, x, cmp, local, all) <==>
            exists y :: y in cmp.subtrees && Above(level, x, y, local, all) &&
                        p in Pairs(level + 1, ct, cmp.subtrees[y], local, all)
    decreases Height(level, x)
  {
    hide Pairs, Known;
    var z := Next(level, x, local, all);
    if z.Some? {
      PairsUpIff(level, ct, z.value, cmp, local, all, p);
    }
  }

  /** The first rule with this path. */
  function FirstRule(rules: seq<Rule>, q: seq<Part>, prtIP: Proto): Option<Rule> {
    if rules == [] then None
    else
      var n := |rules| - 1;
      var first := FirstRule(rules[..n], q, prtIP);
      if first.Some? then first else if Path(rules[n], prtIP) == q then Some(rules[n]) else None
  }

  lemma {:induction false} FirstRulePath(rules: seq<Rule>, q: seq<Part>, prtIP: Proto)
    ensures var r := FirstRule(rules, q, prtIP); r.Some? ==> r.value in rules && Path(r.value, prtIP) == q
  {
    if rules != [] {
      FirstRulePath(rules[..|rules| - 1], q, prtIP);
    }
  }

  /** Each part of `b`, from `level` on, lies on the chain of the same part of `a`. */
  ghost predicate CoveredFrom(level: nat, a: Rule, b: Rule, prtIP: Proto, local: bool, all: set<Proto>)
    requires Known(all) && forall x :: x in Path(a, prtIP) ==> KnownPart(x, all)
    reads all
  {
    forall i :: level <= i < LEVELS ==> Above(i, Path(a, prtIP)[i], Path(b, prtIP)[i], local, all)
  }

  ghost predicate KnownPath(a: Rule, prtIP: Proto, all: set<Proto>) {
    forall x :: x in Path(a, prtIP) ==> KnownPart(x, all)
  }

  /** Both rules are stored, below the paths `pc` and `pm`, and `b` covers `a` from `level` on. */
  ghost predicate Covering(level: nat, pc: seq<Part>, pm: seq<Part>, rules: seq<Rule>, prtIP: Proto,
                           all: set<Proto>, a: Rule, b: Rule)
    requires Known(all) && KnownPath(a, prtIP, all) && level <= LEVELS
    reads all
  {
    && FirstRule(rules, Path(a, prtIP), prtIP) == Some(a) && Path(a, prtIP)[..level] == pc
    && FirstRule(rules, Path(b, prtIP), prtIP) == Some(b) && Path(b, prtIP)[..level] == pm
    && a != b && a.log == b.log && CoveredFrom(level, a, b, prtIP, false, all)
  }

  lemma {:induction false} CoveringStep(level: nat, pc: seq<Part>, pm: seq<Part>, rules: seq<Rule>, prtIP: Proto,
                                        all: set<Proto>, a: Rule, b: Rule, x: Part, y: Part)
    requires Known(all) && KnownPath(a, prtIP, all) && level < LEVELS && |pc| == |pm| == level
    requires KnownPart(x, all)
    ensures Covering(level + 1, pc + [x], pm + [y], rules, prtIP, all, a, b) && Above(level, x, y, false, all) <==>
            && Covering(level, pc, pm, rules, prtIP, all, a, b)
            && x == Path(a, prtIP)[level] && y == Path(b, prtIP)[level]
  {
    CoveredStep(level, a, b, prtIP, all);
    var qa, qb := Path(a, prtIP), Path(b, prtIP);
    assert |qa| == |qb| == LEVELS;
    hide FirstRule, Path, CoveredFrom, Above, Known, KnownPath;
    Prefix(qa, pc, x);
    Prefix(qb, pm, y);
  }

  lemma {:induction false} CoveredStep(level: nat, a: Rule, b: Rule, prtIP: Proto, all: set<Proto>)
    requires Known(all) && KnownPath(a, prtIP, all) && level < LEVELS
    ensures CoveredFrom(level, a, b, prtIP, false, all) <==>
            Above(level, Path(a, prtIP)[level], Path(b, prtIP)[level], false, all) &&
            CoveredFrom(level + 1, a, b, prtIP, false, all)
  {
    hide Path, Above;
  }

  lemma {:induction false} Prefix(q: seq<Part>, p: seq<Part>, x: Part)
    requires |p| < |q|
    ensures q[..|p| + 1] == p + [x] <==> q[..|p|] == p && q[|p|] == x
  {
    assert q[..|p| + 1] == q[..|p|] + [q[|p|]];
  }

  /** Below the paths `pc` and `pm`, exactly the covered rules are found. */
  lemma {:induction false} PairsIff(level: nat, chg: Tree, cmp: Tree, pc: seq<Part>, pm: seq<Part>,
                                    rules: seq<Rule>, prtIP: Proto, all: set<Proto>, a: Rule, b: Rule)
    requires Known(all) && level <= LEVELS && |pc| == |pm| == level
    requires IsTree(chg, LEVELS - level, all) && IsTree(cmp, LEVELS - level, all)
    requires forall q :: |q| == LEVELS - level ==> Get(chg, q) == FirstRule(rules, pc + q, prtIP)
    requires forall q :: |q| == LEVELS - level ==> Get(cmp, q) == FirstRule(rules, pm + q, prtIP)
    requires KnownPath(a, prtIP, all)
    ensures (a, b) in Pairs(level, chg, cmp, false, all) <==> Covering(level, pc, pm, rules, prtIP, all, a, b)
    decreases LEVELS - level, 1
  {
    if level == LEVELS {
      PairsAtLeaves(chg, cmp, pc, pm, rules, prtIP, all, a, b);
    } else {
      var qa, qb := Path(a, prtIP), Path(b, prtIP);
      assert |qa| == |qb| == LEVELS;
      hide Path, Get, FirstRule, Covering, Above;
      if (a, b) in Pairs(level, chg, cmp, false, all) {
        var x :| x in chg.subtrees && KnownPart(x, all) &&
                 (a, b) in PairsUp(level, chg.subtrees[x], x, cmp, false, all);
        PairsUpIff(level, chg.subtrees[x], x, cmp, false, all, (a, b));
        var y :| y in cmp.subtrees && Above(level, x, y, false, all) &&
                 (a, b) in Pairs(level + 1, chg.subtrees[x], cmp.subtrees[y], false, all);
        PairsBelow(level, chg, cmp, pc, pm, rules, prtIP, all, a, b, x, y);
        CoveringStep(level, pc, pm, rules, prtIP, all, a, b, x, y);
      } else if Covering(level, pc, pm, rules, prtIP, all, a, b) {
        var x, y := qa[level], qb[level];
        CoveringStored(level, chg, cmp, pc, pm, rules, prtIP, all, a, b);
        CoveringStep(level, pc, pm, rules, prtIP, all, a, b, x, y);
        PairsBelow(level, chg, cmp, pc, pm, rules, prtIP, all, a, b, x, y);
        PairsUpIff(level, chg.subtrees[x], x, cmp, false, all, (a, b));
      }
    }
  }

  lemma {:induction false} PairsAtLeaves(chg: Tree, cmp: Tree, pc: seq<Part>, pm: seq<Part>,
                                         rules: seq<Rule>, prtIP: Proto, all: set<Proto>, a: Rule, b: Rule)
    requires Known(all) && |pc| == |pm| == LEVELS && chg.Leaf? && cmp.Leaf?
    requires Get(chg, []) == FirstRule(rules, pc + [], prtIP) && Get(cmp, []) == FirstRule(rules, pm + [], prtIP)
    requires KnownPath(a, prtIP, all)
    ensures (a, b) in Pairs(LEVELS, chg, cmp, false, all) <==> Covering(LEVELS, pc, pm, rules, prtIP, all, a, b)
  {
    var qa, qb := Path(a, prtIP), Path(b, prtIP);
    assert pc + [] == pc && pm + [] == pm && qa[..LEVELS] == qa && qb[..LEVELS] == qb;
    FirstRulePath(rules, pc, prtIP);
    FirstRulePath(rules, pm, prtIP);
    hide FirstRule, Path;
  }

  lemma {:induction false} CoveringStored(level: nat, chg: Tree, cmp: Tree, pc: seq<Part>, pm: seq<Part>,
                                          rules: seq<Rule>, prtIP: Proto, all: set<Proto>, a: Rule, b: Rule)
    requires Known(all) && level < LEVELS && |pc| == |pm| == level
    requires chg.Node? && cmp.Node?
    requires forall q :: |q| == LEVELS - level ==> Get(chg, q) == FirstRule(rules, pc + q, prtIP)
    requires forall q :: |q| == LEVELS - level ==> Get(cmp, q) == FirstRule(rules, pm + q, prtIP)
    requires KnownPath(a, prtIP, all) && Covering(level, pc, pm, rules, prtIP, all, a, b)
    ensures Path(a, prtIP)[level] in chg.subtrees && Path(b, prtIP)[level] in cmp.subtrees
    ensures KnownPart(Path(a, prtIP)[level], all)
  {
    var qa, qb := Path(a, prtIP), Path(b, prtIP);
    assert |qa| == |qb| == LEVELS;
    assert qa[level] in qa;
    hide FirstRule, Path, Get, CoveredFrom;
    Stored(chg, LEVELS - level, pc, rules, prtIP, qa);
    Stored(cmp, LEVELS - level, pm, rules, prtIP, qb);
  }

  lemma {:induction false} Stored(t: Tree, n: nat, p: seq<Part>, rules: seq<Rule>, prtIP: Proto, path: seq<Part>)
    requires t.Node? && n > 0 && |path| == |p| + n && path[..|p|] == p
    requires forall q :: |q| == n ==> Get(t, q) == FirstRule(rules, p + q, prtIP)
    requires FirstRule(rules, path, prtIP).Some?
    ensures path[|p|] in t.subtrees
  {
    hide FirstRule;
    var q := path[|p|..];
    assert p + q == path && q[0] == path[|p|];
    assert Get(t, q) == FirstRule(rules, p + q, prtIP);
  }

  lemma {:induction false} StoredBelow(t: Tree, n: nat, p: seq<Part>, rules: seq<Rule>, prtIP: Proto, x: Part)
    requires t.Node? && n > 0 && x in t.subtrees
    requires forall q :: |q| == n ==> Get(t, q) == FirstRule(rules, p + q, prtIP)
    ensures forall q :: |q| == n - 1 ==> Get(t.subtrees[x], q) == FirstRule(rules, p + [x] + q, prtIP)
  {
    hide FirstRule;
    forall q: seq<Part> | |q| == n - 1
      ensures Get(t.subtrees[x], q) == FirstRule(rules, p + [x] + q, prtIP)
    {
      var r := [x] + q;
      assert r[1..] == q && p + r == p + [x] + q;
      assert Get(t, r) == FirstRule(rules, p + r, prtIP);
    }
  }

  /** The same one level below. */
  lemma {:induction false} PairsBelow(level: nat, chg: Tree, cmp: Tree, pc: seq<Part>, pm: seq<Part>,
                                      rules: seq<Rule>, prtIP: Proto, all: set<Proto>, a: Rule, b: Rule, x: Part,
                                      y: Part)
    requires Known(all) && level < LEVELS && |pc| == |pm| == level
    requires IsTree(chg, LEVELS - level, all) && IsTree(cmp, LEVELS - level, all)
    requires forall q :: |q| == LEVELS - level ==> Get(chg, q) == FirstRule(rules, pc + q, prtIP)
    requires forall q :: |q| == LEVELS - level ==> Get(cmp, q) == FirstRule(rules, pm + q, prtIP)
    requires KnownPath(a, prtIP, all) && x in chg.subtrees && y in cmp.subtrees
    ensures (a, b) in Pairs(level + 1, chg.subtrees[x], cmp.subtrees[y], false, all) <==>
            Covering(level + 1, pc + [x], pm + [y], rules, prtIP, all, a, b)
    decreases LEVELS - level, 0
  {
    hide Path, Pairs, Covering, Get, FirstRule;
    StoredBelow(chg, LEVELS - level, pc, rules, prtIP, x);
    StoredBelow(cmp, LEVELS - level, pm, rules, prtIP, y);
    PairsIff(level + 1, chg.subtrees[x], cmp.subtrees[y], pc + [x], pm + [y], rules, prtIP, all, a, b);
  }

  // ------------------------------------------------ the shorter chains find the same

  ghost predicate UsedPart(x: Part, used: set<Proto>) {
    x.Prt? && x.prt in used
  }

  /** Apart from the protocol of a rule, both searches walk the same chains. */
  lemma {:induction false} AboveOther(level: nat, x: Part, y: Part, all: set<Proto>)
    requires Known(all) && KnownPart(x, all) && level != PRT
    ensures Above(level, x, y, true, all) <==> Above(level, x, y, false, all)
    decreases Height(level, x)
  {
    var z := Next(level, x, false, all);
    if z.Some? {
      AboveOther(level, z.value, y, all);
    }
  }

  /** The last keys of the tree are used protocols. */
  lemma {:induction false} UsedBelow(t: Tree, n: nat, x: Part, used: set<Proto>, all: set<Proto>)
    requires n > 0 && IsTree(t, n, all) && x in t.subtrees
    requires forall q :: |q| == n && Get(t, q).Some? ==> UsedPart(q[n - 1], used)
    ensures n == 1 ==> UsedPart(x, used)
    ensures forall q :: n > 1 && |q| == n - 1 && Get(t.subtrees[x], q).Some? ==> UsedPart(q[n - 2], used)
  {
    if n == 1 {
      var q := [x];
      assert q[1..] == [] && Get(t, q).Some?;
    }
    forall q: seq<Part> | n > 1 && |q| == n - 1 && Get(t.subtrees[x], q).Some?
      ensures UsedPart(q[n - 2], used)
    {
      var r := [x] + q;
      assert r[1..] == q && Get(t, r).Some?;
    }
  }

  /** The search over `localUp` finds the same pairs as the search over `up`. */
  lemma {:induction false} LocalSame(level: nat, chg: Tree, cmp: Tree, used: set<Proto>, all: set<Proto>,
                                     p: (Rule, Rule))
    requires Known(all) && LocalSet(used, all) && level <= LEVELS
    requires IsTree(chg, LEVELS - level, all) && IsTree(cmp, LEVELS - level, all)
    requires forall q :: level < LEVELS && |q| == LEVELS - level && Get(chg, q).Some? ==>
               UsedPart(q[LEVELS - level - 1], used)
    requires forall q :: level < LEVELS && |q| == LEVELS - level && Get(cmp, q).Some? ==>
               UsedPart(q[LEVELS - level - 1], used)
    ensures p in Pairs(level, chg, cmp, true, all) <==> p in Pairs(level, chg, cmp, false, all)
    decreases LEVELS - level
  {
    if level < LEVELS {
      hide PairsUp, Above, LocalSet, Get;
      forall x | x in chg.subtrees
        ensures KnownPart(x, all)
        ensures p in PairsUp(level, chg.subtrees[x], x, cmp, true, all) <==>
                p in PairsUp(level, chg.subtrees[x], x, cmp, false, all)
      {
        UsedBelow(chg, LEVELS - level, x, used, all);
        forall y | y in cmp.subtrees
          ensures Above(level, x, y, true, all) <==> Above(level, x, y, false, all)
          ensures p in Pairs(level + 1, chg.subtrees[x], cmp.subtrees[y], true, all) <==>
                  p in Pairs(level + 1, chg.subtrees[x], cmp.subtrees[y], false, all)
        {
          UsedBelow(cmp, LEVELS - level, y, used, all);
          if level == PRT {
            LocalAbove(x.prt, y.prt, used, all);
          } else {
            AboveOther(level, x, y, all);
          }
          LocalSame(level + 1, chg.subtrees[x], cmp.subtrees[y], used, all, p);
        }
        PairsUpIff(level, chg.subtrees[x], x, cmp, true, all, p);
        PairsUpIff(level, chg.subtrees[x], x, cmp, false, all, p);
      }
    }
  }

  // ------------------------------------------------------------------ building the tree

  /** Path of the rules without attributes, in the rule tree. */
  function SimplePath(prtIP: Proto): seq<Part> {
    [Flag(false), Flag(false), Prt(prtIP)]
  }

  ghost predicate KnownRule(r: Rule, prtIP: Proto, all: set<Proto>) {
    r.prt in all && (r.srcRange != null ==> r.srcRange in all && r.srcRange != prtIP)
  }

  /** Each rule with the same path as an earlier one, together with this one. */
  function Duplicates(rules: seq<Rule>, prtIP: Proto): seq<(Rule, Rule)> {
    if rules == [] then [] else
      var n := |rules| - 1;
      var first := FirstRule(rules[..n], Path(rules[n], prtIP), prtIP);
      Duplicates(rules[..n], prtIP) + if first.Some? then [(rules[n], first.value)] else []
  }

  /** What is found in both trees, before the simple one is inserted. */
  function GetBoth(tree: Tree, simple: Tree, q: seq<Part>, prtIP: Proto): Option<Rule>
    requires |q| == LEVELS
  {
    if q[..3] == SimplePath(prtIP) then Get(simple, q[3..]) else Get(tree, q)
  }

  /** A rule is stored in one of both trees. */
  lemma {:induction false} GetBothPut(tree: Tree, simple: Tree, prtIP: Proto, all: set<Proto>, r: Rule, q: seq<Part>)
    requires IsTree(tree, LEVELS, all) && IsTree(simple, 3, all) && |q| == LEVELS
    requires r.srcRange != prtIP
    ensures var path := Path(r, prtIP);
            var result := if q == path then Some(r) else GetBoth(tree, simple, q, prtIP);
            if path[..3] == SimplePath(prtIP) then
              GetBoth(tree, Put(simple, path[3..], Leaf(r)), q, prtIP) == result
            else
              GetBoth(Put(tree, path, Leaf(r)), simple, q, prtIP) == result
  {
    var path := Path(r, prtIP);
    assert |path| == LEVELS;
    hide Path;
    assert q == path <==> q[..3] == path[..3] && q[3..] == path[3..] by {
      assert q == q[..3] + q[3..] && path == path[..3] + path[3..];
    }
    assert q[..LEVELS] == q && q[3..][..3] == q[3..] && q[LEVELS..] == [];
    hide IsTree, Put, SimplePath;
    if path[..3] == SimplePath(prtIP) {
      GetPut(simple, path[3..], Leaf(r), 0, q[3..], all) by {
        LeafTree(r, all);
      }
    } else {
      GetPut(tree, path, Leaf(r), 0, q, all);
    }
  }

  lemma LeafTree(r: Rule, all: set<Proto>)
    ensures IsTree(Leaf(r), 0, all)
  {
  }

  lemma {:induction false} IsSimple(r: Rule, prtIP: Proto)
    requires r.srcRange != prtIP
    ensures |Path(r, prtIP)| == LEVELS
    ensures Path(r, prtIP)[..3] == SimplePath(prtIP) <==> !r.deny && !r.stateless && r.srcRange == null
  {
    var p := Path(r, prtIP);
    assert p[..3] == [p[0], p[1], p[2]];
  }

  lemma KnownPartsOf(r: Rule, prtIP: Proto, all: set<Proto>)
    requires prtIP in all && KnownRule(r, prtIP, all)
    ensures forall x :: x in Path(r, prtIP) ==> KnownPart(x, all)
    ensures forall x :: x in Path(r, prtIP)[3..] ==> KnownPart(x, all)
  {
  }

  /** The state of building the tree, after the first `n` rules. */
  lemma {:induction false} NextRule(rules: seq<Rule>, n: nat, q: seq<Part>, prtIP: Proto)
    requires n < |rules|
    ensures FirstRule(rules[..n + 1], q, prtIP) ==
            var first := FirstRule(rules[..n], q, prtIP);
            if first.Some? then first else if Path(rules[n], prtIP) == q then Some(rules[n]) else None
    ensures Duplicates(rules[..n + 1], prtIP) ==
            var first := FirstRule(rules[..n], Path(rules[n], prtIP), prtIP);
            Duplicates(rules[..n], prtIP) + if first.Some? then [(rules[n], first.value)] else []
  {
    assert rules[..n + 1][..n] == rules[..n];
  }

  /** Stores a rule without attributes in the simple tree, another one in the rule tree,
      unless another rule is found there. */
  function AddRule(tree: Tree, simpleTree: Tree, rule: Rule, prtIP: Proto): (Option<Rule>, Tree, Tree) {
    var path := Path(rule, prtIP);
    if rule.deny || rule.stateless || rule.srcRange != null then
      var other := Get(tree, path);
      (other, if other.Some? then tree else Put(tree, path, Leaf(rule)), simpleTree)
    else
      var other := Get(simpleTree, path[3..]);
      (other, tree, if other.Some? then simpleTree else Put(simpleTree, path[3..], Leaf(rule)))
  }

  lemma {:induction false} AddRuleTrees(tree: Tree, simpleTree: Tree, rule: Rule, prtIP: Proto, all: set<Proto>)
    requires IsTree(tree, LEVELS, all) && IsTree(simpleTree, 3, all) && prtIP in all && KnownRule(rule, prtIP, all)
    ensures var (other, t, st) := AddRule(tree, simpleTree, rule, prtIP);
            IsTree(t, LEVELS, all) && IsTree(st, 3, all) && other == GetBoth(tree, simpleTree, Path(rule, prtIP), prtIP)
  {
    IsSimple(rule, prtIP);
    KnownPartsOf(rule, prtIP, all);
    var path := Path(rule, prtIP);
    hide Get, Put, IsTree, SimplePath, Path;
    LeafTree(rule, all);
    if rule.deny || rule.stateless || rule.srcRange != null {
      PutTree(tree, path, Leaf(rule), 0, all);
    } else {
      PutTree(simpleTree, path[3..], Leaf(rule), 0, all);
    }
  }

  lemma {:induction false} AddRuleGets(tree: Tree, simpleTree: Tree, rule: Rule, prtIP: Proto, all: set<Proto>,
                                       q: seq<Part>)
    requires IsTree(tree, LEVELS, all) && IsTree(simpleTree, 3, all) && prtIP in all && KnownRule(rule, prtIP, all)
    requires |q| == LEVELS
    ensures var (other, t, st) := AddRule(tree, simpleTree, rule, prtIP);
            var found := GetBoth(tree, simpleTree, q, prtIP);
            && GetBoth(t, st, q, prtIP) ==
               (if found.Some? then found else if Path(rule, prtIP) == q then Some(rule) else None)
            && (q[..3] == SimplePath(prtIP) ==> Get(t, q) == Get(tree, q))
  {
    IsSimple(rule, prtIP);
    var path := Path(rule, prtIP);
    BothAt(tree, simpleTree, path, prtIP);
    hide Get, Put, IsTree, GetBoth, SimplePath, Path;
    GetBothPut(tree, simpleTree, prtIP, all, rule, q);
    if rule.deny || rule.stateless || rule.srcRange != null {
      StoredElsewhere(tree, path, rule, q, prtIP, all);
    }
  }

  lemma BothAt(tree: Tree, simpleTree: Tree, q: seq<Part>, prtIP: Proto)
    requires |q| == LEVELS
    ensures GetBoth(tree, simpleTree, q, prtIP) ==
            if q[..3] == SimplePath(prtIP) then Get(simpleTree, q[3..]) else Get(tree, q)
  {
  }

  lemma {:induction false} StoredElsewhere(tree: Tree, path: seq<Part>, rule: Rule, q: seq<Part>, prtIP: Proto,
                                           all: set<Proto>)
    requires IsTree(tree, LEVELS, all) && |path| == |q| == LEVELS && path[..3] != SimplePath(prtIP)
    ensures q[..3] == SimplePath(prtIP) ==> Get(Put(tree, path, Leaf(rule)), q) == Get(tree, q)
  {
    hide Get, Put, SimplePath;
    LeafTree(rule, all);
    GetPut(tree, path, Leaf(rule), 0, q, all);
    assert q[..LEVELS] == q;
  }

  function SrcRangeOf(r: Rule, prtIP: Proto): Proto {
    if r.srcRange == null then prtIP else r.srcRange
  }

  /** All attributes but the value of log are the same. */
  ghost predicate Duplicate(a: Rule, b: Rule, prtIP: Proto) {
    && a.stateless == b.stateless && a.deny == b.deny && SrcRangeOf(a, prtIP) == SrcRangeOf(b, prtIP)
    && a.src == b.src && a.dst == b.dst && a.prt == b.prt
  }

  /** The rule is in the list, and the first one with its attributes. */
  ghost predicate IsFirst(rules: seq<Rule>, a: Rule, prtIP: Proto) {
    exists i :: 0 <= i < |rules| && rules[i] == a && forall j :: 0 <= j < i ==> !Duplicate(rules[j], a, prtIP)
  }

  lemma SamePath(a: Rule, b: Rule, prtIP: Proto)
    ensures Path(a, prtIP) == Path(b, prtIP) <==> Duplicate(a, b, prtIP)
  {
    var p, q := Path(a, prtIP), Path(b, prtIP);
    assert p == q <==> p[0] == q[0] && p[1] == q[1] && p[2] == q[2] && p[3] == q[3] && p[4] == q[4] && p[5] == q[5];
  }

  lemma {:induction false} FirstRuleIs(rules: seq<Rule>, a: Rule, prtIP: Proto)
    ensures FirstRule(rules, Path(a, prtIP), prtIP) == Some(a) <==> IsFirst(rules, a, prtIP)
    ensures FirstRule(rules, Path(a, prtIP), prtIP).None? <==>
            forall j :: 0 <= j < |rules| ==> !Duplicate(rules[j], a, prtIP)
  {
    hide Path, Duplicate;
    if rules != [] {
      var n := |rules| - 1;
      FirstRuleIs(rules[..n], a, prtIP);
      SamePath(rules[n], a, prtIP);
      assert forall j :: 0 <= j < n ==> rules[..n][j] == rules[j];
      if i :| 0 <= i < n && rules[..n][i] == a && forall j :: 0 <= j < i ==> !Duplicate(rules[..n][j], a, prtIP) {
        assert IsFirst(rules, a, prtIP);
      }
      if i :| 0 <= i < |rules| && rules[i] == a && forall j :: 0 <= j < i ==> !Duplicate(rules[j], a, prtIP) {
        if i < n {
          assert rules[..n][i] == a;
        } else {
          SamePath(a, a, prtIP);
        }
      }
    }
  }

  /** Rule `a` occurs behind a rule with the same attributes, and `b` is the first one. */
  ghost predicate Repeats(rules: seq<Rule>, a: Rule, b: Rule, prtIP: Proto) {
    && IsFirst(rules, b, prtIP) && Duplicate(b, a, prtIP)
    && exists i :: 0 <= i < |rules| && rules[i] == a && exists j :: 0 <= j < i && Duplicate(rules[j], a, prtIP)
  }

  lemma FirstOfPath(rules: seq<Rule>, a: Rule, b: Rule, prtIP: Proto)
    ensures FirstRule(rules, Path(a, prtIP), prtIP) == Some(b) <==> IsFirst(rules, b, prtIP) && Duplicate(b, a, prtIP)
  {
    FirstRulePath(rules, Path(a, prtIP), prtIP);
    SamePath(b, a, prtIP);
    FirstRuleIs(rules, b, prtIP);
  }

  lemma {:induction false} IsFirstMore(rules: seq<Rule>, n: nat, b: Rule, prtIP: Proto)
    requires n < |rules|
    ensures IsFirst(rules[..n], b, prtIP) ==> IsFirst(rules, b, prtIP)
    ensures IsFirst(rules, b, prtIP) && (exists j :: 0 <= j < n && Duplicate(rules[j], b, prtIP)) ==>
              IsFirst(rules[..n], b, prtIP)
  {
    hide Duplicate;
    var l := rules[..n];
    assert forall j :: 0 <= j < n ==> l[j] == rules[j];
    if IsFirst(rules, b, prtIP) && exists j :: 0 <= j < n && Duplicate(rules[j], b, prtIP) {
      var i :| 0 <= i < |rules| && rules[i] == b && forall j :: 0 <= j < i ==> !Duplicate(rules[j], b, prtIP);
      assert i < n && l[i] == b;
    }
  }

  lemma DuplicateTrans(a: Rule, b: Rule, c: Rule, prtIP: Proto)
    requires Duplicate(a, b, prtIP) && Duplicate(c, b, prtIP)
    ensures Duplicate(a, c, prtIP) && Duplicate(b, b, prtIP)
  {}

  lemma {:induction false} DuplicatesIff(rules: seq<Rule>, a: Rule, b: Rule, prtIP: Proto)
    ensures (a, b) in Duplicates(rules, prtIP) <==> Repeats(rules, a, b, prtIP)
  {
    hide Path;
    if rules != [] {
      var n := |rules| - 1;
      DuplicatesIff(rules[..n], a, b, prtIP);
      FirstOfPath(rules[..n], rules[n], b, prtIP);
      RepeatsMore(rules, a, b, prtIP);
    }
  }

  lemma {:induction false} RepeatsMore(rules: seq<Rule>, a: Rule, b: Rule, prtIP: Proto)
    requires rules != []
    ensures var n := |rules| - 1;
            Repeats(rules, a, b, prtIP) <==>
            Repeats(rules[..n], a, b, prtIP) ||
            (a == rules[n] && IsFirst(rules[..n], b, prtIP) && Duplicate(b, a, prtIP))
  {
    hide Duplicate;
    var n := |rules| - 1;
    var l := rules[..n];
    IsFirstMore(rules, n, b, prtIP);
    assert forall j :: 0 <= j < n ==> l[j] == rules[j];
    if Repeats(rules, a, b, prtIP) {
      var i :| 0 <= i < |rules| && rules[i] == a && exists j :: 0 <= j < i && Duplicate(rules[j], a, prtIP);
      var j :| 0 <= j < i && Duplicate(rules[j], a, prtIP);
      DuplicateTrans(rules[j], a, b, prtIP);
      assert i < n ==> l[i] == a && Duplicate(l[j], a, prtIP);
    }
    if Repeats(l, a, b, prtIP) {
      var i :| 0 <= i < |l| && l[i] == a && exists j :: 0 <= j < i && Duplicate(l[j], a, prtIP);
      var j :| 0 <= j < i && Duplicate(l[j], a, prtIP);
      assert rules[i] == a && Duplicate(rules[j], a, prtIP);
    }
    if a == rules[n] && IsFirst(l, b, prtIP) && Duplicate(b, a, prtIP) {
      var i :| 0 <= i < |l| && l[i] == b;
      assert Duplicate(rules[i], a, prtIP);
    }
  }

  method BuildRuleTree(rules: seq<Rule>, prtIP: Proto, ghost all: set<Proto>)
    returns (tree: Tree, duplicates: seq<(Rule, Rule)>)
    requires prtIP in all && forall r :: r in rules ==> KnownRule(r, prtIP, all)
    ensures IsTree(tree, LEVELS, all)
    ensures duplicates == Duplicates(rules, prtIP)
    ensures forall q :: |q| == LEVELS ==> Get(tree, q) == FirstRule(rules, q, prtIP)
    ensures forall a, b :: (a, b) in duplicates <==> Repeats(rules, a, b, prtIP)
  {
    hide Repeats;
    tree, duplicates := Node(map[]), [];
    var simpleTree := Node(map[]);
    var i := 0;
    while i < |rules|
      invariant 0 <= i <= |rules|
      invariant IsTree(tree, LEVELS, all) && IsTree(simpleTree, 3, all)
      invariant forall q :: |q| == LEVELS ==> GetBoth(tree, simpleTree, q, prtIP) == FirstRule(rules[..i], q, prtIP)
      invariant forall q :: |q| == LEVELS && q[..3] == SimplePath(prtIP) ==> Get(tree, q) == None
      invariant duplicates == Duplicates(rules[..i], prtIP)
    {
      hide Get, Put, AddRule, IsTree, GetBoth, SimplePath, Path, FirstRule, Duplicates;
      var (other, t, st) := AddRule(tree, simpleTree, rules[i], prtIP);
      AddRuleTrees(tree, simpleTree, rules[i], prtIP, all);
      IsSimple(rules[i], prtIP);
      forall q: seq<Part> | |q| == LEVELS
        ensures GetBoth(t, st, q, prtIP) == FirstRule(rules[..i + 1], q, prtIP)
        ensures q[..3] == SimplePath(prtIP) ==> Get(t, q) == None
      {
        AddRuleGets(tree, simpleTree, rules[i], prtIP, all, q);
        NextRule(rules, i, q, prtIP);
      }
      NextRule(rules, i, Path(rules[i], prtIP), prtIP);
      if other.Some? {
        duplicates := duplicates + [(rules[i], other.value)];
      }
      tree, simpleTree := t, st;
      i := i + 1;
    }
    assert rules[..|rules|] == rules;
    if simpleTree.subtrees != map[] {
      ghost var before := tree;
      tree := Put(tree, SimplePath(prtIP), simpleTree);
      PutTree(before, SimplePath(prtIP), simpleTree, 3, all);
      forall q: seq<Part> | |q| == LEVELS
        ensures Get(tree, q) == FirstRule(rules, q, prtIP)
      {
        GetPut(before, SimplePath(prtIP), simpleTree, 3, q, all);
      }
    }
    AllDuplicates(rules, prtIP);
  }

  lemma AllDuplicates(rules: seq<Rule>, prtIP: Proto)
    ensures forall a, b :: (a, b) in Duplicates(rules, prtIP) <==> Repeats(rules, a, b, prtIP)
  {
    forall a, b
      ensures (a, b) in Duplicates(rules, prtIP) <==> Repeats(rules, a, b, prtIP)
    {
      DuplicatesIff(rules, a, b, prtIP);
    }
  }

  /** Each attribute of `a` is covered by that of `b`: stateful rules cover stateless ones,
      deny rules cover permit rules, and all other attributes cover smaller ones. */
  ghost predicate Covers(b: Rule, a: Rule, prtIP: Proto, all: set<Proto>)
    requires KnownUp(all) && a.prt in all && SrcRangeOf(a, prtIP) in all
  {
    && (b.stateless ==> a.stateless) && (a.deny ==> b.deny)
    && PartOf(SrcRangeOf(a, prtIP), SrcRangeOf(b, prtIP), all)
    && Within(a.src, b.src) && Within(a.dst, b.dst) && PartOf(a.prt, b.prt, all)
  }

  lemma PartsKnown(a: Rule, prtIP: Proto, all: set<Proto>)
    requires KnownPath(a, prtIP, all)
    ensures a.prt in all && SrcRangeOf(a, prtIP) in all
  {
    assert Path(a, prtIP)[PRT] in Path(a, prtIP) && Path(a, prtIP)[2] in Path(a, prtIP);
  }

  lemma CoveredIff(a: Rule, b: Rule, prtIP: Proto, all: set<Proto>)
    requires Known(all) && KnownPath(a, prtIP, all) && a.prt in all && SrcRangeOf(a, prtIP) in all
    ensures CoveredFrom(0, a, b, prtIP, false, all) <==> Covers(b, a, prtIP, all)
  {
    AboveFlag(a.stateless, b.stateless, false, all);
    AboveFlag(a.deny, b.deny, false, all);
    AbovePrt(2, SrcRangeOf(a, prtIP), SrcRangeOf(b, prtIP), all);
    AboveObj(3, a.src, b.src, false, all);
    AboveObj(4, a.dst, b.dst, false, all);
    AbovePrt(PRT, a.prt, b.prt, all);
    hide Above, Known, KnownPath, PartOf, Within;
    var p, q := Path(a, prtIP), Path(b, prtIP);
    assert CoveredFrom(0, a, b, prtIP, false, all) <==>
           && Above(0, p[0], q[0], false, all) && Above(1, p[1], q[1], false, all) && Above(2, p[2], q[2], false, all)
           && Above(3, p[3], q[3], false, all) && Above(4, p[4], q[4], false, all) && Above(5, p[5], q[5], false, all);
  }

  /** In terms of the first rule of each path, and of chains. */
  lemma {:induction false} SearchIff(rules: seq<Rule>, tree: Tree, prtIP: Proto, used: set<Proto>,
                                     all: set<Proto>, a: Rule, b: Rule)
    requires Known(all) && LocalSet(used, all) && IsTree(tree, LEVELS, all)
    requires forall q :: |q| == LEVELS ==> Get(tree, q) == FirstRule(rules, q, prtIP)
    requires forall r :: r in rules ==> r.prt in used
    requires KnownPath(a, prtIP, all)
    ensures (a, b) in Pairs(0, tree, tree, true, all) <==>
            && FirstRule(rules, Path(a, prtIP), prtIP) == Some(a) && FirstRule(rules, Path(b, prtIP), prtIP) == Some(b)
            && a != b && a.log == b.log && CoveredFrom(0, a, b, prtIP, false, all)
  {
    forall q: seq<Part> | |q| == LEVELS && Get(tree, q).Some?
      ensures UsedPart(q[LEVELS - 1], used)
    {
      FirstRulePath(rules, q, prtIP);
    }
    hide Get, FirstRule, CoveredFrom, Pairs, LocalSet, Path;
    LocalSame(0, tree, tree, used, all, (a, b));
    assert forall q: seq<Part> :: [] + q == q;
    PairsIff(0, tree, tree, [], [], rules, prtIP, all, a, b);
  }

  /** The search in the rule tree, over the shorter chains, finds exactly the pairs of
      different rules with equal log that are no duplicates of earlier ones, where the second
      rule covers the first one. */
  lemma SearchFindsCovered(rules: seq<Rule>, tree: Tree, prtIP: Proto, used: set<Proto>, all: set<Proto>,
                           a: Rule, b: Rule)
    requires Known(all) && LocalSet(used, all) && IsTree(tree, LEVELS, all)
    requires forall q :: |q| == LEVELS ==> Get(tree, q) == FirstRule(rules, q, prtIP)
    requires forall r :: r in rules ==> r.prt in used
    requires KnownPath(a, prtIP, all)
    ensures a.prt in all && SrcRangeOf(a, prtIP) in all
    ensures (a, b) in Pairs(0, tree, tree, true, all) <==>
            IsFirst(rules, a, prtIP) && IsFirst(rules, b, prtIP) && a != b && a.log == b.log && Covers(b, a, prtIP, all)
  {
    hide Get, FirstRule, CoveredFrom, Pairs, LocalSet, Path, IsFirst, Covers, Known, IsTree, KnownPath, SrcRangeOf;
    PartsKnown(a, prtIP, all);
    SearchIff(rules, tree, prtIP, used, all, a, b);
    CoveredIff(a, b, prtIP, all);
    FirstRuleIs(rules, a, prtIP);
    FirstRuleIs(rules, b, prtIP);
  }
}
