/** `optimizeRules` and `optimizeRedundantRules` in go/cmd/spoc2/main.go: the
    rules are changed in place and marked as deleted.  What results is given
    by `AclSpec.Acl`.
  */
module AclOptimizer {
  import opened Wrappers
  import opened AclSpec
  import Sorting

  /** `ciscoRule` */
  class CiscoRule {
    const deny: bool
    const log: string
    const optSecondary: bool
    var src: IpNet
    var dst: IpNet
    var prt: Proto
    var srcRange: Option<Proto>
    var deleted: bool

    constructor (r: Rule)
      ensures Value() == r && !deleted
    {
      deny, log, optSecondary := r.deny, r.log, r.optSecondary;
      src, dst, prt, srcRange := r.src, r.dst, r.prt, r.srcRange;
      deleted := false;
    }

    function Value(): Rule
      reads this
    {
      Rule(deny, src, dst, prt, srcRange, log, optSecondary)
    }
  }

  /** The nested maps of `ruleTree`. */
  type RuleTree = map<RuleKey, CiscoRule>

  // ---------------------------------------------- search for a covering rule

  predicate Hit(cmp: RuleTree, k: RuleKey, chg: CiscoRule) {
    k in cmp && cmp[k] != chg && cmp[k].log == chg.log
  }

  ghost predicate PrtHit(cmp: RuleTree, k: RuleKey, chg: CiscoRule)
    decreases k.prt
  {
    Hit(cmp, k, chg) || (k.prt.up.Some? && PrtHit(cmp, k.(prt := k.prt.up.value), chg))
  }

  ghost predicate DstHit(cmp: RuleTree, k: RuleKey, chg: CiscoRule)
    decreases k.dst
  {
    PrtHit(cmp, k, chg) || (k.dst.up.Some? && DstHit(cmp, k.(dst := k.dst.up.value), chg))
  }

  ghost predicate SrcHit(cmp: RuleTree, k: RuleKey, chg: CiscoRule)
    decreases k.src
  {
    DstHit(cmp, k, chg) || (k.src.up.Some? && SrcHit(cmp, k.(src := k.src.up.value), chg))
  }

  ghost predicate RangeHit(cmp: RuleTree, k: RuleKey, chg: CiscoRule)
    decreases k.srcRange
  {
    SrcHit(cmp, k, chg) || (k.srcRange.up.Some? && RangeHit(cmp, k.(srcRange := k.srcRange.up.value), chg))
  }

  /** A different rule of `cmp` with the same value of log covers `k`. */
  ghost predicate CoverHit(cmp: RuleTree, k: RuleKey, chg: CiscoRule) {
    exists c :: c in cmp && c.Covers(k) && cmp[c] != chg && cmp[c].log == chg.log
  }

  lemma {:induction false} PrtHitIff(cmp: RuleTree, k: RuleKey, chg: CiscoRule)
    ensures PrtHit(cmp, k, chg) <==> exists q :: k.prt.Below(q) && Hit(cmp, k.(prt := q), chg)
    decreases k.prt
  {
    assert k.(prt := k.prt) == k;
    if k.prt.up.Some? {
      var l := k.(prt := k.prt.up.value);
      PrtHitIff(cmp, l, chg);
      assert forall q :: l.(prt := q) == k.(prt := q);
    }
  }

  lemma {:induction false} DstHitIff(cmp: RuleTree, k: RuleKey, chg: CiscoRule)
    ensures DstHit(cmp, k, chg) <==> exists d :: k.dst.Below(d) && PrtHit(cmp, k.(dst := d), chg)
    decreases k.dst
  {
    assert k.(dst := k.dst) == k;
    if k.dst.up.Some? {
      var l := k.(dst := k.dst.up.value);
      DstHitIff(cmp, l, chg);
      assert forall d :: l.(dst := d) == k.(dst := d);
    }
  }

  lemma {:induction false} SrcHitIff(cmp: RuleTree, k: RuleKey, chg: CiscoRule)
    ensures SrcHit(cmp, k, chg) <==> exists s :: k.src.Below(s) && DstHit(cmp, k.(src := s), chg)
    decreases k.src
  {
    assert k.(src := k.src) == k;
    if k.src.up.Some? {
      var l := k.(src := k.src.up.value);
      SrcHitIff(cmp, l, chg);
      assert forall s :: l.(src := s) == k.(src := s);
    }
  }

  lemma {:induction false} RangeHitIff(cmp: RuleTree, k: RuleKey, chg: CiscoRule)
    ensures RangeHit(cmp, k, chg) <==> exists r :: k.srcRange.Below(r) && SrcHit(cmp, k.(srcRange := r), chg)
    decreases k.srcRange
  {
    assert k.(srcRange := k.srcRange) == k;
    if k.srcRange.up.Some? {
      var l := k.(srcRange := k.srcRange.up.value);
      RangeHitIff(cmp, l, chg);
      assert forall r :: l.(srcRange := r) == k.(srcRange := r);
    }
  }

  /** The nested search visits exactly the product of the `up` chains. */
  lemma SearchComplete(cmp: RuleTree, k: RuleKey, chg: CiscoRule)
    ensures CoverHit(cmp, k, chg) <==>
            RangeHit(cmp, k, chg) || (!k.deny && RangeHit(cmp, k.(deny := true), chg))
  {
    if c :| c in cmp && c.Covers(k) && cmp[c] != chg && cmp[c].log == chg.log {
      HitCovers(cmp, k.(deny := c.deny), c, chg);
      assert k.(deny := k.deny) == k;
    }
    if RangeHit(cmp, k, chg) {
      var c := CoverOfHit(cmp, k, chg);
    }
    if !k.deny && RangeHit(cmp, k.(deny := true), chg) {
      var c := CoverOfHit(cmp, k.(deny := true), chg);
    }
  }

  lemma HitCovers(cmp: RuleTree, k: RuleKey, c: RuleKey, chg: CiscoRule)
    requires c.deny == k.deny && c.Covers(k) && Hit(cmp, c, chg)
    ensures RangeHit(cmp, k, chg)
  {
    var k1 := k.(srcRange := c.srcRange);
    var k2 := k1.(src := c.src);
    var k3 := k2.(dst := c.dst);
    assert k3.(prt := c.prt) == c;
    PrtHitIff(cmp, k3, chg);
    DstHitIff(cmp, k2, chg);
    SrcHitIff(cmp, k1, chg);
    RangeHitIff(cmp, k, chg);
  }

  lemma CoverOfHit(cmp: RuleTree, k: RuleKey, chg: CiscoRule) returns (c: RuleKey)
    requires RangeHit(cmp, k, chg)
    ensures c.deny == k.deny && c.Covers(k) && Hit(cmp, c, chg)
  {
    RangeHitIff(cmp, k, chg);
    var r :| k.srcRange.Below(r) && SrcHit(cmp, k.(srcRange := r), chg);
    var k1 := k.(srcRange := r);
    SrcHitIff(cmp, k1, chg);
    var s :| k1.src.Below(s) && DstHit(cmp, k1.(src := s), chg);
    var k2 := k1.(src := s);
    DstHitIff(cmp, k2, chg);
    var d :| k2.dst.Below(d) && PrtHit(cmp, k2.(dst := d), chg);
    var k3 := k2.(dst := d);
    PrtHitIff(cmp, k3, chg);
    var q :| k3.prt.Below(q) && Hit(cmp, k3.(prt := q), chg);
    c := k3.(prt := q);
  }

  method SearchPrt(cmp: RuleTree, k: RuleKey, chg: CiscoRule) returns (found: bool)
    ensures found == PrtHit(cmp, k, chg)
  {
    var c := k;
    while true
      invariant PrtHit(cmp, c, chg) == PrtHit(cmp, k, chg)
      decreases c.prt
    {
      if Hit(cmp, c, chg) {
        return true;
      }
      if c.prt.up.None? {
        return false;
      }
      c := c.(prt := c.prt.up.value);
    }
  }

  method SearchDst(cmp: RuleTree, k: RuleKey, chg: CiscoRule) returns (found: bool)
    ensures found == DstHit(cmp, k, chg)
  {
    var c := k;
    while true
      invariant DstHit(cmp, c, chg) == DstHit(cmp, k, chg)
      decreases c.dst
    {
      found := SearchPrt(cmp, c, chg);
      if found || c.dst.up.None? {
        return;
      }
      c := c.(dst := c.dst.up.value);
    }
  }

  method SearchSrc(cmp: RuleTree, k: RuleKey, chg: CiscoRule) returns (found: bool)
    ensures found == SrcHit(cmp, k, chg)
  {
    var c := k;
    while true
      invariant SrcHit(cmp, c, chg) == SrcHit(cmp, k, chg)
      decreases c.src
    {
      found := SearchDst(cmp, c, chg);
      if found || c.src.up.None? {
        return;
      }
      c := c.(src := c.src.up.value);
    }
  }

  method SearchRange(cmp: RuleTree, k: RuleKey, chg: CiscoRule) returns (found: bool)
    ensures found == RangeHit(cmp, k, chg)
  {
    var c := k;
    while true
      invariant RangeHit(cmp, c, chg) == RangeHit(cmp, k, chg)
      decreases c.srcRange
    {
      found := SearchSrc(cmp, c, chg);
      if found || c.srcRange.up.None? {
        return;
      }
      c := c.(srcRange := c.srcRange.up.value);
    }
  }

  method Search(cmp: RuleTree, k: RuleKey, chg: CiscoRule) returns (found: bool)
    ensures found == CoverHit(cmp, k, chg)
  {
    SearchComplete(cmp, k, chg);
    found := SearchRange(cmp, k, chg);
    if !found && !k.deny {
      found := SearchRange(cmp, k.(deny := true), chg);
    }
  }

  ghost predicate Injective(tree: RuleTree) {
    forall k, l :: k in tree && l in tree && k != l ==> tree[k] != tree[l]
  }

  /** Marks the rules of `chg` that are covered by a different rule of `cmp`. */
  method OptimizeRedundantRules(cmp: RuleTree, chg: RuleTree) returns (changed: bool)
    requires Injective(chg)
    modifies (set k | k in chg :: chg[k])`deleted
    ensures forall k :: k in chg ==> (chg[k].deleted <==> old(chg[k].deleted) || CoverHit(cmp, k, chg[k]))
    ensures changed <==> exists k :: k in chg && chg[k].deleted && !old(chg[k].deleted)
  {
    changed := false;
    var rest := chg.Keys;
    while rest != {}
      invariant rest <= chg.Keys
      invariant forall k :: k in chg && k in rest ==> chg[k].deleted == old(chg[k].deleted)
      invariant forall k :: k in chg && k !in rest ==>
                  (chg[k].deleted <==> old(chg[k].deleted) || CoverHit(cmp, k, chg[k]))
      invariant changed <==> exists k :: k in chg && chg[k].deleted && !old(chg[k].deleted)
      decreases rest
    {
      var k :| k in rest;
      rest := rest - {k};
      if !chg[k].deleted {
        var found := Search(cmp, k, chg[k]);
        if found {
          chg[k].deleted := true;
          changed := true;
        }
      }
    }
  }

  // -------------------------------------------------------------- filling a rule tree

  /** Entry `i` has the log value of rule `i`. */
  ghost predicate LogsOf(es: seq<Entry>, rules: seq<CiscoRule>) {
    |es| == |rules| && forall i :: 0 <= i < |rules| ==> es[i].log == rules[i].log
  }

  /** The tree holds those of the first `n` rules that are found under their key. */
  ghost predicate TreeOf(tree: RuleTree, rules: seq<CiscoRule>, es: seq<Entry>, member: seq<bool>, n: nat)
    requires |rules| == |es| == |member| && n <= |rules|
  {
    && (forall k :: k in tree ==> exists i :: 0 <= i < n && First(es, member, i) && es[i].key == k)
    && (forall i :: 0 <= i < n && First(es, member, i) ==> es[i].key in tree && tree[es[i].key] == rules[i])
  }

  lemma TreeOfInjective(tree: RuleTree, rules: seq<CiscoRule>, es: seq<Entry>, member: seq<bool>, n: nat)
    requires |rules| == |es| == |member| && n <= |rules| && Sorting.Distinct(rules)
    requires TreeOf(tree, rules, es, member, n)
    ensures Injective(tree)
    ensures forall k :: k in tree ==> tree[k] in rules
  {
    forall k | k in tree
      ensures exists i :: 0 <= i < n && es[i].key == k && tree[k] == rules[i]
    {
      var i :| 0 <= i < n && First(es, member, i) && es[i].key == k;
    }
  }

  /** A search in the tree finds what the specification calls covered. */
  lemma CoverHitCovered(tree: RuleTree, rules: seq<CiscoRule>, es: seq<Entry>, member: seq<bool>, i: nat, k: RuleKey)
    requires |rules| == |es| == |member| && i < |rules| && Sorting.Distinct(rules) && LogsOf(es, rules)
    requires TreeOf(tree, rules, es, member, |rules|)
    ensures CoverHit(tree, k, rules[i]) <==> Covered(es, member, i, k)
  {
    if c :| c in tree && c.Covers(k) && tree[c] != rules[i] && tree[c].log == rules[i].log {
      var j :| 0 <= j < |rules| && First(es, member, j) && es[j].key == c;
    }
    if Covered(es, member, i, k) {
      var j :| 0 <= j < |es| && j != i && First(es, member, j) && es[j].key.Covers(k) && es[j].log == es[i].log;
      assert es[j].key in tree;
    }
  }

  method AddRule(tree: RuleTree, rule: CiscoRule, prtIP: Proto, ghost rules: seq<CiscoRule>,
                 ghost es: seq<Entry>, ghost member: seq<bool>, ghost n: nat) returns (r: RuleTree)
    requires |rules| == |es| == |member| && n < |rules| && rules[n] == rule && member[n]
    requires es[n].key == rule.Value().Key(prtIP) && TreeOf(tree, rules, es, member, n)
    modifies rule`deleted
    ensures TreeOf(r, rules, es, member, n + 1)
    ensures rule.deleted <==> old(rule.deleted) || !First(es, member, n)
  {
    var key := rule.Value().Key(prtIP);
    if key in tree {
      rule.deleted := true;
      r := tree;
      ghost var i :| 0 <= i < n && First(es, member, i) && es[i].key == key;
    } else {
      r := tree[key := rule];
      forall j | 0 <= j < n && member[j]
        ensures es[j].key != key
      {
        var f := FirstOf(es, member, j);
      }
    }
  }

  ghost predicate ValuesAre(rules: seq<CiscoRule>, acl: Acl)
    reads rules
  {
    |acl.rules| == |rules| && forall i :: 0 <= i < |rules| ==> rules[i].Value() == acl.rules[i]
  }

  lemma TreeOfNone(rules: seq<CiscoRule>, es: seq<Entry>, member: seq<bool>)
    requires |rules| == |es| == |member|
    ensures TreeOf(map[], rules, es, member, 0)
  {}

  method FillTree(rules: seq<CiscoRule>, prtIP: Proto, ghost acl: Acl) returns (tree: RuleTree)
    requires Sorting.Distinct(rules) && ValuesAre(rules, acl) && acl.prtIP == prtIP
    requires forall i :: 0 <= i < |rules| ==> !rules[i].deleted
    modifies rules`deleted
    ensures TreeOf(tree, rules, acl.Entries(), acl.All(), |rules|)
    ensures forall i :: 0 <= i < |rules| ==> (rules[i].deleted <==> !First(acl.Entries(), acl.All(), i))
  {
    hide First, TreeOf, Rule.Key;
    tree := map[];
    TreeOfNone(rules, acl.Entries(), acl.All());
    var n := 0;
    while n < |rules|
      invariant 0 <= n <= |rules|
      invariant TreeOf(tree, rules, acl.Entries(), acl.All(), n)
      invariant forall i :: 0 <= i < n ==> (rules[i].deleted <==> !First(acl.Entries(), acl.All(), i))
      invariant forall i :: n <= i < |rules| ==> !rules[i].deleted
    {
      EntryAt(acl, n);
      assert rules[n].Value() == acl.rules[n];
      tree := AddRule(tree, rules[n], prtIP, rules, acl.Entries(), acl.All(), n);
      n := n + 1;
    }
  }

  // ------------------------------------------------------------------ optimizeRules

  /** Rule `i` has been looked at, or is still to be looked at, when secondary
      rules are prepared. */
  ghost predicate WidenedAt(rule: CiscoRule, acl: Acl, i: nat, done: bool)
    requires i < |acl.rules|
    reads rule
  {
    && rule.Value() == (if done then acl.New(i) else acl.rules[i])
    && (rule.deleted <==> Gone(acl.Entries(), acl.All(), i) ||
                          (done && acl.Secondary(i) && !First(acl.NewEntries(), acl.Secondaries(), i)))
  }

  ghost predicate WidenedUpTo(rules: seq<CiscoRule>, acl: Acl, n: nat)
    requires |acl.rules| == |rules|
    reads rules
  {
    forall i :: 0 <= i < |rules| ==> WidenedAt(rules[i], acl, i, i < n)
  }

  /** Implement rules as secondary rule, if possible. */
  method WidenRules(rules: seq<CiscoRule>, prtIP: Proto, ghost acl: Acl) returns (secondaryTree: RuleTree)
    requires Sorting.Distinct(rules) && |acl.rules| == |rules| && acl.prtIP == prtIP && WidenedUpTo(rules, acl, 0)
    modifies rules
    ensures TreeOf(secondaryTree, rules, acl.NewEntries(), acl.Secondaries(), |rules|)
    ensures WidenedUpTo(rules, acl, |rules|)
  {
    hide TreeOf, WidenedUpTo;
    secondaryTree := map[];
    TreeOfNone(rules, acl.NewEntries(), acl.Secondaries());
    var n := 0;
    while n < |rules|
      invariant 0 <= n <= |rules|
      invariant TreeOf(secondaryTree, rules, acl.NewEntries(), acl.Secondaries(), n)
      invariant WidenedUpTo(rules, acl, n)
    {
      secondaryTree := WidenRule(rules, prtIP, acl, secondaryTree, n);
      n := n + 1;
    }
  }

  /** Replaces src and dst by supernets and changes the protocol to IP. */
  method SetWidened(rule: CiscoRule, prtIP: Proto)
    modifies rule`src, rule`dst, rule`prt, rule`srcRange
    ensures rule.Value() == Widened(old(rule.Value()), prtIP)
  {
    if rule.src.OptNetworks().Some? {
      rule.src := rule.src.OptNetworks().value;
    }
    if rule.dst.OptNetworks().Some? && !rule.dst.needProtect {
      rule.dst := rule.dst.OptNetworks().value;
    }
    rule.prt := prtIP;
    rule.srcRange := None;
  }

  lemma SecondaryIff(acl: Acl, n: nat, r: Rule)
    requires n < |acl.rules| && acl.rules[n] == r
    ensures acl.Secondary(n) <==>
              r.optSecondary && !Gone(acl.Entries(), acl.All(), n) && !r.src.noOptAddrs && !r.dst.noOptAddrs
    ensures acl.New(n) == if acl.Secondary(n) then Widened(r, acl.prtIP) else r
  {}

  method WidenRule(rules: seq<CiscoRule>, prtIP: Proto, ghost acl: Acl, tree: RuleTree, n: nat) returns (r: RuleTree)
    requires Sorting.Distinct(rules) && |acl.rules| == |rules| && acl.prtIP == prtIP && n < |rules|
    requires WidenedUpTo(rules, acl, n) && TreeOf(tree, rules, acl.NewEntries(), acl.Secondaries(), n)
    modifies rules[n]
    ensures TreeOf(r, rules, acl.NewEntries(), acl.Secondaries(), n + 1)
    ensures WidenedUpTo(rules, acl, n + 1)
  {
    hide WidenedAt, TreeOf;
    assert forall i :: 0 <= i < |rules| && i != n ==> rules[i] != rules[n];
    r := WidenOne(rules, prtIP, acl, tree, n);
  }

  method WidenOne(rules: seq<CiscoRule>, prtIP: Proto, ghost acl: Acl, tree: RuleTree, n: nat) returns (r: RuleTree)
    requires |acl.rules| == |rules| && acl.prtIP == prtIP && n < |rules| && WidenedAt(rules[n], acl, n, false)
    requires TreeOf(tree, rules, acl.NewEntries(), acl.Secondaries(), n)
    modifies rules[n]
    ensures TreeOf(r, rules, acl.NewEntries(), acl.Secondaries(), n + 1)
    ensures WidenedAt(rules[n], acl, n, true)
  {
    hide Gone, First, TreeOf, Acl.Secondary, Acl.New, Widened, Rule.Key;
    var rule := rules[n];
    EntryAt(acl, n);
    SecondaryIff(acl, n, rule.Value());
    if !rule.optSecondary || rule.deleted || rule.src.noOptAddrs || rule.dst.noOptAddrs {
      TreeOfSkip(tree, rules, acl.NewEntries(), acl.Secondaries(), n);
      r := tree;
    } else {
      SetWidened(rule, prtIP);
      r := AddRule(tree, rule, prtIP, rules, acl.NewEntries(), acl.Secondaries(), n);
    }
  }

  lemma TreeOfSkip(tree: RuleTree, rules: seq<CiscoRule>, es: seq<Entry>, member: seq<bool>, n: nat)
    requires |rules| == |es| == |member| && n < |rules| && !member[n]
    requires TreeOf(tree, rules, es, member, n)
    ensures TreeOf(tree, rules, es, member, n + 1)
  {}

  /** A rule tree compared with itself. */
  method CompareWithSelf(tree: RuleTree, rules: seq<CiscoRule>, ghost es: seq<Entry>, ghost member: seq<bool>)
    returns (changed: bool)
    requires |rules| == |es| == |member| && Sorting.Distinct(rules) && LogsOf(es, rules) &&
             TreeOf(tree, rules, es, member, |rules|)
    requires forall i :: 0 <= i < |rules| && member[i] && !First(es, member, i) ==> rules[i].deleted
    modifies rules`deleted
    ensures forall i :: 0 <= i < |rules| ==> (rules[i].deleted <==> old(rules[i].deleted) || Gone(es, member, i))
  {
    TreeOfInjective(tree, rules, es, member, |rules|);
    changed := OptimizeRedundantRules(tree, tree);
    forall i | 0 <= i < |rules|
      ensures rules[i].deleted <==> old(rules[i].deleted) || Gone(es, member, i)
    {
      CoverHitCovered(tree, rules, es, member, i, es[i].key);
      if First(es, member, i) {
        assert es[i].key in tree;
      } else {
        NotInTree(tree, rules, es, member, i);
      }
    }
  }

  lemma NotInTree(tree: RuleTree, rules: seq<CiscoRule>, es: seq<Entry>, member: seq<bool>, i: nat)
    requires |rules| == |es| == |member| && Sorting.Distinct(rules) && TreeOf(tree, rules, es, member, |rules|)
    requires i < |rules| && !First(es, member, i)
    ensures forall k :: k in tree ==> tree[k] != rules[i]
  {
    forall k | k in tree
      ensures tree[k] != rules[i]
    {
      var j :| 0 <= j < |rules| && First(es, member, j) && es[j].key == k;
    }
  }

  /** The original rule tree compared with the secondary rules. */
  method CompareWithSecondary(secondaryTree: RuleTree, tree: RuleTree, rules: seq<CiscoRule>, ghost acl: Acl)
    returns (changed: bool)
    requires Sorting.Distinct(rules) && |acl.rules| == |rules|
    requires LogsOf(acl.Entries(), rules) && LogsOf(acl.NewEntries(), rules)
    requires TreeOf(tree, rules, acl.Entries(), acl.All(), |rules|)
    requires TreeOf(secondaryTree, rules, acl.NewEntries(), acl.Secondaries(), |rules|)
    modifies rules`deleted
    ensures forall i :: 0 <= i < |rules| ==> (rules[i].deleted <==> old(rules[i].deleted) || acl.GoneBySecondary(i))
  {
    hide First;
    TreeOfInjective(tree, rules, acl.Entries(), acl.All(), |rules|);
    changed := OptimizeRedundantRules(secondaryTree, tree);
    forall i | 0 <= i < |rules|
      ensures rules[i].deleted <==> old(rules[i].deleted) || acl.GoneBySecondary(i)
    {
      CoverHitCovered(secondaryTree, rules, acl.NewEntries(), acl.Secondaries(), i, acl.Entries()[i].key);
      if First(acl.Entries(), acl.All(), i) {
        assert acl.Entries()[i].key in tree;
      } else {
        NotInTree(tree, rules, acl.Entries(), acl.All(), i);
      }
    }
  }

  /** The rules that are not deleted, in their old order. */
  ghost function Kept(rules: seq<CiscoRule>, acl: Acl, n: nat): seq<CiscoRule>
    requires |acl.rules| == |rules| && n <= |rules|
  {
    if n == 0 then [] else Kept(rules, acl, n - 1) + (if acl.Deleted(n - 1) then [] else [rules[n - 1]])
  }

  lemma SpecEntries(acl: Acl, rules: seq<CiscoRule>)
    requires |acl.rules| == |rules| && forall i :: 0 <= i < |rules| ==> acl.rules[i].log == rules[i].log
    ensures LogsOf(acl.Entries(), rules) && LogsOf(acl.NewEntries(), rules)
    ensures forall i :: 0 <= i < |rules| ==> acl.All()[i] && acl.Secondaries()[i] == acl.Secondary(i)
  {
    forall i | 0 <= i < |rules|
      ensures acl.Entries()[i].log == acl.NewEntries()[i].log == rules[i].log
      ensures acl.All()[i] && acl.Secondaries()[i] == acl.Secondary(i)
    {
      EntryAt(acl, i);
    }
  }

  /** Sets the attributes and marks of all rules as specified. */
  method MarkRules(rules: seq<CiscoRule>, prtIP: Proto, ghost acl: Acl)
    requires Sorting.Distinct(rules) && ValuesAre(rules, acl) && acl.prtIP == prtIP
    requires forall i :: 0 <= i < |rules| ==> !rules[i].deleted
    modifies rules
    ensures forall i :: 0 <= i < |rules| ==> rules[i].Value() == acl.New(i)
    ensures forall i :: 0 <= i < |rules| ==> (rules[i].deleted <==> acl.Deleted(i))
  {
    hide Gone, First, TreeOf, Acl.New, Acl.GoneBySecondary, LogsOf, Acl.Secondary;
    assert forall i :: 0 <= i < |rules| ==> rules[i].Value().log == rules[i].log;
    SpecEntries(acl, rules);
    FirstOrGone(acl);
    var tree := FillTree(rules, prtIP, acl);
    var changed := CompareWithSelf(tree, rules, acl.Entries(), acl.All());
    var secondaryTree := WidenRules(rules, prtIP, acl);
    if |secondaryTree| != 0 {
      changed := CompareWithSelf(secondaryTree, rules, acl.NewEntries(), acl.Secondaries());
      changed := CompareWithSecondary(secondaryTree, tree, rules, acl);
    } else {
      EmptySecondary(secondaryTree, rules, acl);
    }
  }

  /** Rules become as specified by `Acl`: their attributes, their mark `deleted`,
      and the list of remaining rules. */
  method OptimizeRules(rules: seq<CiscoRule>, prtIP: Proto, ghost acl: Acl) returns (newRules: seq<CiscoRule>)
    requires Sorting.Distinct(rules) && ValuesAre(rules, acl) && acl.prtIP == prtIP
    requires forall i :: 0 <= i < |rules| ==> !rules[i].deleted
    modifies rules
    ensures forall i :: 0 <= i < |rules| ==> rules[i].Value() == acl.New(i)
    ensures forall i :: 0 <= i < |rules| ==> (rules[i].deleted <==> acl.Deleted(i))
    ensures newRules == Kept(rules, acl, |rules|)
    ensures forall x :: x in newRules <==> x in rules && !x.deleted
    ensures acl.BelowIP() ==> NothingRedundant(newRules, prtIP)
    ensures forall i :: 0 <= i < |rules| && acl.rules[i].optSecondary && !Gone(acl.Entries(), acl.All(), i) &&
                        !acl.rules[i].src.noOptAddrs && !acl.rules[i].dst.noOptAddrs ==>
              WidenedToMarked(acl.rules[i], rules[i], prtIP)
    ensures forall i :: 0 <= i < |rules| && (!acl.rules[i].optSecondary || Gone(acl.Entries(), acl.All(), i) ||
                        acl.rules[i].src.noOptAddrs || acl.rules[i].dst.noOptAddrs) ==>
              rules[i].Value() == acl.rules[i]
  {
    hide Acl.Deleted, Acl.New, NothingRedundant, Acl.BelowIP, WidenedToMarked, Gone;
    MarkRules(rules, prtIP, acl);
    newRules := [];
    var n := 0;
    while n < |rules|
      invariant 0 <= n <= |rules| && newRules == Kept(rules, acl, n)
      invariant forall x :: x in newRules <==> x in rules[..n] && !x.deleted
    {
      assert rules[..n + 1] == rules[..n] + [rules[n]];
      if !rules[n].deleted {
        newRules := newRules + [rules[n]];
      }
      n := n + 1;
    }
    assert rules[..n] == rules;
    if acl.BelowIP() {
      KeptUncovered(rules, acl);
    }
    FieldsWidened(rules, acl);
  }

  /** The fields of a secondary rule: source and destination are the largest marked
      networks around the old ones, except a destination that needs protection. */
  ghost predicate WidenedToMarked(was: Rule, rule: CiscoRule, prtIP: Proto)
    reads rule
  {
    && rule.prt == prtIP && rule.srcRange == None
    && was.src.Below(rule.src) && (rule.src == was.src || rule.src.marked)
    && (forall m :: was.src.Below(m) && m.marked ==> rule.src.marked && m.Below(rule.src))
    && was.dst.Below(rule.dst) && (rule.dst == was.dst || rule.dst.marked)
    && if was.dst.needProtect then rule.dst == was.dst
       else forall m :: was.dst.Below(m) && m.marked ==> rule.dst.marked && m.Below(rule.dst)
  }

  lemma FieldsWidened(rules: seq<CiscoRule>, acl: Acl)
    requires |acl.rules| == |rules| && forall i :: 0 <= i < |rules| ==> rules[i].Value() == acl.New(i)
    ensures forall i :: 0 <= i < |rules| && acl.rules[i].optSecondary && !Gone(acl.Entries(), acl.All(), i) &&
                        !acl.rules[i].src.noOptAddrs && !acl.rules[i].dst.noOptAddrs ==>
              WidenedToMarked(acl.rules[i], rules[i], acl.prtIP)
    ensures forall i :: 0 <= i < |rules| && (!acl.rules[i].optSecondary || Gone(acl.Entries(), acl.All(), i) ||
                        acl.rules[i].src.noOptAddrs || acl.rules[i].dst.noOptAddrs) ==>
              rules[i].Value() == acl.rules[i]
  {
    hide Gone, Acl.New;
    forall i | 0 <= i < |rules|
      ensures acl.rules[i].optSecondary && !Gone(acl.Entries(), acl.All(), i) &&
              !acl.rules[i].src.noOptAddrs && !acl.rules[i].dst.noOptAddrs ==>
                WidenedToMarked(acl.rules[i], rules[i], acl.prtIP)
      ensures !acl.rules[i].optSecondary || Gone(acl.Entries(), acl.All(), i) ||
              acl.rules[i].src.noOptAddrs || acl.rules[i].dst.noOptAddrs ==>
                rules[i].Value() == acl.rules[i]
    {
      if acl.rules[i].optSecondary && !Gone(acl.Entries(), acl.All(), i) &&
         !acl.rules[i].src.noOptAddrs && !acl.rules[i].dst.noOptAddrs {
        SecondaryFields(acl, i);
        FieldsOf(rules[i], acl.New(i));
      } else {
        OtherFields(acl, i);
      }
    }
  }

  lemma FieldsOf(rule: CiscoRule, r: Rule)
    requires rule.Value() == r
    ensures rule.src == r.src && rule.dst == r.dst && rule.prt == r.prt && rule.srcRange == r.srcRange
  {}

  /** No rule of the list is covered by a different one with the same value of log. */
  ghost predicate NothingRedundant(rules: seq<CiscoRule>, prtIP: Proto)
    reads rules
  {
    forall r, s :: r in rules && s in rules && r != s && r.log == s.log ==>
      !(&& (s.deny ==> r.deny) && s.src.Below(r.src) && s.dst.Below(r.dst) && s.prt.Below(r.prt)
        && SrcRangeOf(s.Value(), prtIP).Below(SrcRangeOf(r.Value(), prtIP)))
  }

  lemma {:induction false} KeptIs(rules: seq<CiscoRule>, acl: Acl, n: nat, r: CiscoRule)
    requires |acl.rules| == |rules| && n <= |rules| && r in Kept(rules, acl, n)
    ensures exists i :: 0 <= i < n && !acl.Deleted(i) && rules[i] == r
  {
    hide Acl.Deleted;
    if n > 0 && r in Kept(rules, acl, n - 1) {
      KeptIs(rules, acl, n - 1, r);
    }
  }

  lemma KeptUncovered(rules: seq<CiscoRule>, acl: Acl)
    requires |acl.rules| == |rules| && acl.BelowIP()
    requires forall i :: 0 <= i < |rules| ==> rules[i].Value() == acl.New(i) && rules[i].log == acl.rules[i].log
    ensures NothingRedundant(Kept(rules, acl, |rules|), acl.prtIP)
  {
    hide Acl.Deleted, Acl.New, Acl.BelowIP, RuleKey.Covers, SrcRangeOf;
    var l := Kept(rules, acl, |rules|);
    forall r, s | r in l && s in l && r != s && r.log == s.log
      ensures !(&& (s.deny ==> r.deny) && s.src.Below(r.src) && s.dst.Below(r.dst) && s.prt.Below(r.prt)
                && SrcRangeOf(s.Value(), acl.prtIP).Below(SrcRangeOf(r.Value(), acl.prtIP)))
    {
      KeptIs(rules, acl, |rules|, r);
      KeptIs(rules, acl, |rules|, s);
      var i :| 0 <= i < |rules| && !acl.Deleted(i) && rules[i] == r;
      var j :| 0 <= j < |rules| && !acl.Deleted(j) && rules[j] == s;
      RemainingUncovered(acl, i, j);
    }
  }

  lemma FirstOrGone(acl: Acl)
    ensures forall i :: 0 <= i < |acl.rules| && !First(acl.Entries(), acl.All(), i) ==>
              Gone(acl.Entries(), acl.All(), i)
    ensures forall i :: 0 <= i < |acl.rules| && acl.Secondaries()[i] &&
                        !First(acl.NewEntries(), acl.Secondaries(), i) ==>
              Gone(acl.NewEntries(), acl.Secondaries(), i)
  {}

  lemma EmptySecondary(tree: RuleTree, rules: seq<CiscoRule>, acl: Acl)
    requires |acl.rules| == |rules| && tree == map[]
    requires TreeOf(tree, rules, acl.NewEntries(), acl.Secondaries(), |rules|)
    ensures forall i :: 0 <= i < |rules| ==> !Gone(acl.NewEntries(), acl.Secondaries(), i) && !acl.GoneBySecondary(i)
    ensures forall i :: 0 <= i < |rules| ==> !acl.Secondary(i)
  {
    forall i | 0 <= i < |rules|
      ensures !acl.Secondaries()[i]
    {
      if acl.Secondaries()[i] {
        var f := FirstOf(acl.NewEntries(), acl.Secondaries(), i);
      }
    }
    forall i | 0 <= i < |rules|
      ensures !acl.Secondary(i)
    {
      EntryAt(acl, i);
    }
  }
}
