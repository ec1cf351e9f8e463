/** Meaning of Cisco access lists, and what `optimizeRules` in
    go/cmd/spoc2/main.go makes of them, as a function of the list of rules.

    Networks and protocols form trees by their `up` relation.  A rule is looked
    up by its key; a key covers another one if each part of it lies on the `up`
    chain of the corresponding part, and a deny rule covers a permit rule.
  */
module AclSpec {
  import opened Wrappers
  import opened Prefixes

  /** `ipNet`; `marked` says that it is one of the `optNetworks` of the ACL. */
  datatype IpNet = IpNet(net: Prefix, marked: bool, noOptAddrs: bool, needProtect: bool, up: Option<IpNet>) {
    /** The attribute `optNetworks`, as propagated by setupIPNetRelation. */
    function OptNetworks(): Option<IpNet> {
      if up.Some? && up.value.OptNetworks().Some? then up.value.OptNetworks()
      else if marked then Some(this)
      else None
    }

    /** Larger networks really contain the smaller ones. */
    predicate Valid() {
      net.Valid() && (up.Some? ==> up.value.net.Covers(net) && net.inv < up.value.net.inv && up.value.Valid())
    }

    predicate Below(n: IpNet) {
      this == n || (up.Some? && up.value.Below(n))
    }

    function Depth(): nat {
      if up.Some? then 1 + up.value.Depth() else 0
    }
  }

  /** A protocol or port range of an ACL, with the next larger one. */
  datatype Proto = Proto(id: nat, up: Option<Proto>) {
    predicate Below(q: Proto) {
      this == q || (up.Some? && up.value.Below(q))
    }

    function Depth(): nat {
      if up.Some? then 1 + up.value.Depth() else 0
    }
  }

  /** A packet is known by its addresses and by the protocols and source ranges
      to which it belongs. */
  datatype Packet = Packet(src: nat, dst: nat, prts: set<Proto>, srcRanges: set<Proto>) {
    /** With a protocol a packet also belongs to the larger ones, up to 'ip'. */
    ghost predicate Real(prtIP: Proto) {
      && prtIP in prts && prtIP in srcRanges
      && (forall q :: q in prts && q.up.Some? ==> q.up.value in prts)
      && (forall q :: q in srcRanges && q.up.Some? ==> q.up.value in srcRanges)
    }
  }

  /** `ciscoRule` without the mark `deleted`. */
  datatype Rule = Rule(deny: bool, src: IpNet, dst: IpNet, prt: Proto, srcRange: Option<Proto>,
                       log: string, optSecondary: bool)
  {
    predicate Matches(p: Packet) {
      && src.net.Has(p.src) && dst.net.Has(p.dst)
      && prt in p.prts && (srcRange.Some? ==> srcRange.value in p.srcRanges)
    }

    function Key(prtIP: Proto): RuleKey {
      RuleKey(deny, if srcRange.Some? then srcRange.value else prtIP, src, dst, prt)
    }

    predicate Valid() {
      src.Valid() && dst.Valid()
    }
  }

  /** Position of a rule in a rule tree. */
  datatype RuleKey = RuleKey(deny: bool, srcRange: Proto, src: IpNet, dst: IpNet, prt: Proto) {
    predicate Covers(k: RuleKey) {
      && (k.deny ==> deny) && k.srcRange.Below(srcRange)
      && k.src.Below(src) && k.dst.Below(dst) && k.prt.Below(prt)
    }

    predicate Has(p: Packet) {
      src.net.Has(p.src) && dst.net.Has(p.dst) && prt in p.prts && srcRange in p.srcRanges
    }

    predicate Valid() {
      src.Valid() && dst.Valid()
    }

    /** Decreases on the way to a larger key. */
    function Height(): nat {
      srcRange.Depth() + src.Depth() + dst.Depth() + prt.Depth() + if deny then 0 else 1
    }
  }

  // -------------------------------------------------------------- the up relation

  lemma {:induction false} NetBelowTrans(a: IpNet, b: IpNet, c: IpNet)
    requires a.Below(b) && b.Below(c)
    ensures a.Below(c)
  {
    if a != b {
      NetBelowTrans(a.up.value, b, c);
    }
  }

  lemma {:induction false} NetBelowDepth(a: IpNet, b: IpNet)
    requires a.Below(b)
    ensures b.Depth() <= a.Depth() && (a.Depth() == b.Depth() ==> a == b)
  {
    if a != b {
      NetBelowDepth(a.up.value, b);
    }
  }

  /** The networks above a network form a chain. */
  lemma {:induction false} NetChain(a: IpNet, b: IpNet, c: IpNet)
    requires a.Below(b) && a.Below(c)
    ensures b.Below(c) || c.Below(b)
  {
    if a != b && a != c {
      NetChain(a.up.value, b, c);
    }
  }

  lemma {:induction false} NetBelowCovers(a: IpNet, b: IpNet)
    requires a.Valid() && a.Below(b)
    ensures b.Valid() && b.net.Covers(a.net) && (a != b ==> a.net.inv < b.net.inv)
  {
    if a == b {
      CoversRefl(a.net);
    } else {
      NetBelowCovers(a.up.value, b);
      CoversTrans(b.net, a.up.value.net, a.net);
    }
  }

  lemma {:induction false} PrtBelowTrans(a: Proto, b: Proto, c: Proto)
    requires a.Below(b) && b.Below(c)
    ensures a.Below(c)
  {
    if a != b {
      PrtBelowTrans(a.up.value, b, c);
    }
  }

  lemma {:induction false} PrtBelowDepth(a: Proto, b: Proto)
    requires a.Below(b)
    ensures b.Depth() <= a.Depth() && (a.Depth() == b.Depth() ==> a == b)
  {
    if a != b {
      PrtBelowDepth(a.up.value, b);
    }
  }

  lemma {:induction false} PrtBelowIn(a: Proto, b: Proto, s: set<Proto>)
    requires a.Below(b) && a in s && forall q :: q in s && q.up.Some? ==> q.up.value in s
    ensures b in s
  {
    if a != b {
      PrtBelowIn(a.up.value, b, s);
    }
  }

  /** The network reached by following `k` links. */
  function NetUp(n: IpNet, k: nat): Option<IpNet>
    decreases k
  {
    if k == 0 then Some(n) else if n.up.None? then None else NetUp(n.up.value, k - 1)
  }

  function PrtUp(p: Proto, k: nat): Option<Proto>
    decreases k
  {
    if k == 0 then Some(p) else if p.up.None? then None else PrtUp(p.up.value, k - 1)
  }

  lemma {:induction false} NetUpBelow(a: IpNet, b: IpNet, k: nat)
    requires NetUp(a, k) == Some(b)
    ensures a.Below(b)
    decreases k
  {
    if k > 0 {
      NetUpBelow(a.up.value, b, k - 1);
    }
  }

  lemma {:induction false} NetBelowUp(a: IpNet, b: IpNet) returns (k: nat)
    requires a.Below(b)
    ensures NetUp(a, k) == Some(b)
  {
    if a == b {
      k := 0;
    } else {
      k := NetBelowUp(a.up.value, b);
      k := k + 1;
    }
  }

  /** Exactly the networks that are reached by links lie above a network. */
  lemma NetBelowIff(a: IpNet, b: IpNet)
    ensures a.Below(b) <==> exists k: nat :: NetUp(a, k) == Some(b)
  {
    if a.Below(b) {
      var k := NetBelowUp(a, b);
    }
    if k: nat :| NetUp(a, k) == Some(b) {
      NetUpBelow(a, b, k);
    }
  }

  lemma {:induction false} PrtUpBelow(a: Proto, b: Proto, k: nat)
    requires PrtUp(a, k) == Some(b)
    ensures a.Below(b)
    decreases k
  {
    if k > 0 {
      PrtUpBelow(a.up.value, b, k - 1);
    }
  }

  lemma {:induction false} PrtBelowUp(a: Proto, b: Proto) returns (k: nat)
    requires a.Below(b)
    ensures PrtUp(a, k) == Some(b)
  {
    if a == b {
      k := 0;
    } else {
      k := PrtBelowUp(a.up.value, b);
      k := k + 1;
    }
  }

  /** The same for protocols. */
  lemma PrtBelowIff(a: Proto, b: Proto)
    ensures a.Below(b) <==> exists k: nat :: PrtUp(a, k) == Some(b)
  {
    if a.Below(b) {
      var k := PrtBelowUp(a, b);
    }
    if k: nat :| PrtUp(a, k) == Some(b) {
      PrtUpBelow(a, b, k);
    }
  }

  // ------------------------------------------------------------------ order of keys

  lemma CoversTransitive(a: RuleKey, b: RuleKey, c: RuleKey)
    requires a.Covers(b) && b.Covers(c)
    ensures a.Covers(c)
  {
    PrtBelowTrans(c.srcRange, b.srcRange, a.srcRange);
    NetBelowTrans(c.src, b.src, a.src);
    NetBelowTrans(c.dst, b.dst, a.dst);
    PrtBelowTrans(c.prt, b.prt, a.prt);
  }

  /** The order of keys is well-founded: a different covering key is higher. */
  lemma CoversHigher(a: RuleKey, b: RuleKey)
    requires a.Covers(b) && a != b
    ensures a.Height() < b.Height()
  {
    PrtBelowDepth(b.srcRange, a.srcRange);
    NetBelowDepth(b.src, a.src);
    NetBelowDepth(b.dst, a.dst);
    PrtBelowDepth(b.prt, a.prt);
  }

  /** A covering key has all packets of the covered one. */
  lemma CoversHas(a: RuleKey, b: RuleKey, p: Packet, prtIP: Proto)
    requires a.Covers(b) && b.Valid() && b.Has(p) && p.Real(prtIP)
    ensures a.Has(p) && a.Valid()
  {
    NetBelowCovers(b.src, a.src);
    NetBelowCovers(b.dst, a.dst);
    Prefixes.CoversHas(a.src.net, b.src.net, p.src);
    Prefixes.CoversHas(a.dst.net, b.dst.net, p.dst);
    PrtBelowIn(b.prt, a.prt, p.prts);
    PrtBelowIn(b.srcRange, a.srcRange, p.srcRanges);
  }

  lemma KeyHas(r: Rule, prtIP: Proto, p: Packet)
    requires p.Real(prtIP)
    ensures r.Key(prtIP).Has(p) <==> r.Matches(p)
  {}

  // ------------------------------------------------- redundant rules of one rule tree

  /** A rule as an entry of a rule tree. */
  datatype Entry = Entry(key: RuleKey, log: string)

  /** Rule `i`, if member of the rule tree, is found under its key: no earlier
      member has the same key. */
  ghost predicate First(es: seq<Entry>, member: seq<bool>, i: nat)
    requires |member| == |es| && i < |es|
  {
    member[i] && forall j :: 0 <= j < i && member[j] ==> es[j].key != es[i].key
  }

  /** A different rule of the rule tree with the same value of log covers key `k`
      of rule `i`. */
  ghost predicate Covered(es: seq<Entry>, member: seq<bool>, i: nat, k: RuleKey)
    requires |member| == |es| && i < |es|
  {
    exists j :: 0 <= j < |es| && j != i && First(es, member, j) && es[j].key.Covers(k) && es[j].log == es[i].log
  }

  /** Rule `i` is deleted when its tree is compared with itself. */
  ghost predicate Gone(es: seq<Entry>, member: seq<bool>, i: nat)
    requires |member| == |es| && i < |es|
  {
    member[i] && (!First(es, member, i) || Covered(es, member, i, es[i].key))
  }

  lemma {:induction false} FirstOf(es: seq<Entry>, member: seq<bool>, i: nat) returns (j: nat)
    requires |member| == |es| && i < |es| && member[i]
    ensures j <= i && First(es, member, j) && es[j].key == es[i].key
    decreases i
  {
    if First(es, member, i) {
      j := i;
    } else {
      var k :| 0 <= k < i && member[k] && es[k].key == es[i].key;
      j := FirstOf(es, member, k);
    }
  }

  /** Every rule of a tree is covered by one that is not deleted, even if the rule
      that caused its deletion is deleted as well.  It has the value of log of the
      first rule with the same key, which is the rule itself unless it is a duplicate. */
  lemma {:induction false} Survivor(es: seq<Entry>, member: seq<bool>, i: nat) returns (j: nat)
    requires |member| == |es| && i < |es| && member[i]
    ensures j < |es| && First(es, member, j) && !Gone(es, member, j) && es[j].key.Covers(es[i].key)
    ensures exists f :: 0 <= f <= i && First(es, member, f) && es[f].key == es[i].key && es[j].log == es[f].log
    decreases es[i].key.Height()
  {
    var f := FirstOf(es, member, i);
    if !Gone(es, member, f) {
      j := f;
    } else {
      var k :| 0 <= k < |es| && k != f && First(es, member, k) && es[k].key.Covers(es[f].key) && es[k].log == es[f].log;
      assert es[k].key != es[f].key;
      CoversHigher(es[k].key, es[f].key);
      j := Survivor(es, member, k);
      CoversTransitive(es[j].key, es[k].key, es[f].key);
    }
  }

  // ---------------------------------------------------------------- optimizeRules

  /** The list of rules of an ACL and the protocol 'ip'. */
  datatype Acl = Acl(rules: seq<Rule>, prtIP: Proto) {
    ghost predicate Valid() {
      prtIP.up.None? && forall i :: 0 <= i < |rules| ==> rules[i].Valid()
    }

    /** All protocols are linked to 'ip'. */
    ghost predicate BelowIP() {
      forall i :: 0 <= i < |rules| ==>
        rules[i].prt.Below(prtIP) && (rules[i].srcRange.Some? ==> rules[i].srcRange.value.Below(prtIP))
    }

    ghost function Entries(): (es: seq<Entry>)
      ensures |es| == |rules|
    {
      seq(|rules|, i requires 0 <= i < |rules| => Entry(rules[i].Key(prtIP), rules[i].log))
    }

    ghost function All(): (m: seq<bool>)
      ensures |m| == |rules|
    {
      seq(|rules|, i => true)
    }

    /** Rule `i` is changed to a secondary rule. */
    ghost predicate Secondary(i: nat)
      requires i < |rules|
    {
      && rules[i].optSecondary && !Gone(Entries(), All(), i)
      && !rules[i].src.noOptAddrs && !rules[i].dst.noOptAddrs
    }

    ghost function Secondaries(): (m: seq<bool>)
      ensures |m| == |rules|
    {
      seq(|rules|, i requires 0 <= i < |rules| => Secondary(i))
    }

    /** Attributes of rule `i` after optimization. */
    ghost function New(i: nat): Rule
      requires i < |rules|
    {
      if Secondary(i) then Widened(rules[i], prtIP) else rules[i]
    }

    ghost function NewEntries(): (es: seq<Entry>)
      ensures |es| == |rules|
    {
      seq(|rules|, i requires 0 <= i < |rules| => Entry(New(i).Key(prtIP), rules[i].log))
    }

    /** Rule `i` is deleted when the original rules are compared with the
        secondary ones. */
    ghost predicate GoneBySecondary(i: nat)
      requires i < |rules|
    {
      First(Entries(), All(), i) && Covered(NewEntries(), Secondaries(), i, Entries()[i].key)
    }

    ghost predicate Deleted(i: nat)
      requires i < |rules|
    {
      Gone(Entries(), All(), i) || Gone(NewEntries(), Secondaries(), i) || GoneBySecondary(i)
    }
  }

  function WideSrc(n: IpNet): IpNet {
    if n.OptNetworks().Some? then n.OptNetworks().value else n
  }

  function WideDst(n: IpNet): IpNet {
    if n.OptNetworks().Some? && !n.needProtect then n.OptNetworks().value else n
  }

  /** Replace objects by supernets, change protocol to IP. */
  function Widened(r: Rule, prtIP: Proto): Rule {
    r.(src := WideSrc(r.src), dst := WideDst(r.dst), prt := prtIP, srcRange := None)
  }

  // ---------------------------------------------------------- decisions of the list

  datatype Decision = Denied | Permitted | NoMatch

  /** Deny rules precede all permit rules. */
  ghost function Decide(rules: iset<Rule>, p: Packet): Decision {
    if exists r :: r in rules && r.deny && r.Matches(p) then Denied
    else if exists r :: r in rules && !r.deny && r.Matches(p) then Permitted
    else NoMatch
  }

  ghost function Before(acl: Acl): iset<Rule> {
    iset i | 0 <= i < |acl.rules| :: acl.rules[i]
  }

  ghost function After(acl: Acl): iset<Rule> {
    iset i | 0 <= i < |acl.rules| && !acl.Deleted(i) :: acl.New(i)
  }

  lemma EntryAt(acl: Acl, i: nat)
    requires i < |acl.rules|
    ensures acl.Entries()[i] == Entry(acl.rules[i].Key(acl.prtIP), acl.rules[i].log)
    ensures acl.NewEntries()[i] == Entry(acl.New(i).Key(acl.prtIP), acl.rules[i].log)
    ensures acl.All()[i] && acl.Secondaries()[i] == acl.Secondary(i)
  {}

  /** A matching rule has a matching rule that stays in the original tree. */
  lemma CoveredByOld(acl: Acl, i: nat, p: Packet) returns (j: nat)
    requires acl.Valid() && p.Real(acl.prtIP) && i < |acl.rules| && acl.rules[i].Matches(p)
    ensures j < |acl.rules| && First(acl.Entries(), acl.All(), j) && !Gone(acl.Entries(), acl.All(), j)
    ensures acl.rules[j].Matches(p) && (acl.rules[i].deny ==> acl.rules[j].deny)
  {
    EntryAt(acl, i);
    j := Survivor(acl.Entries(), acl.All(), i);
    EntryAt(acl, j);
    KeyHas(acl.rules[i], acl.prtIP, p);
    CoversHas(acl.Entries()[j].key, acl.Entries()[i].key, p, acl.prtIP);
    KeyHas(acl.rules[j], acl.prtIP, p);
  }

  // ------------------------------------------------------- nothing redundant remains

  lemma WidenedCoversRule(r: Rule, prtIP: Proto, k: RuleKey)
    requires k.Covers(Widened(r, prtIP).Key(prtIP)) && r.Key(prtIP).srcRange.Below(prtIP) && r.prt.Below(prtIP)
    ensures k.Covers(r.Key(prtIP))
  {
    OptNetworksLargest(r.src);
    OptNetworksLargest(r.dst);
    CoversTransitive(k, Widened(r, prtIP).Key(prtIP), r.Key(prtIP));
  }

  /** Rule `i` is found under its key in the tree where it belongs. */
  lemma RemainsFirst(acl: Acl, i: nat)
    requires i < |acl.rules| && !acl.Deleted(i)
    ensures First(acl.Entries(), acl.All(), i)
    ensures acl.Secondary(i) ==> First(acl.NewEntries(), acl.Secondaries(), i)
  {
    EntryAt(acl, i);
  }

  function SrcRangeOf(r: Rule, prtIP: Proto): Proto {
    if r.srcRange.Some? then r.srcRange.value else prtIP
  }

  /** No remaining rule covers another one with the same value of log, whether widened
      or not: a permit rule would cover only permit rules, and each part of the covered
      rule would lie on the chain of the other one. */
  lemma RemainingUncovered(acl: Acl, i: nat, j: nat)
    requires acl.BelowIP() && i < |acl.rules| && j < |acl.rules| && i != j && !acl.Deleted(i) && !acl.Deleted(j)
    requires acl.rules[i].log == acl.rules[j].log
    ensures var r, s := acl.New(i), acl.New(j);
            !(&& (s.deny ==> r.deny) && s.src.Below(r.src) && s.dst.Below(r.dst) && s.prt.Below(r.prt)
              && SrcRangeOf(s, acl.prtIP).Below(SrcRangeOf(r, acl.prtIP)))
    ensures !acl.New(i).Key(acl.prtIP).Covers(acl.New(j).Key(acl.prtIP))
  {
    NothingCovered(acl, i, j);
  }

  lemma NothingCovered(acl: Acl, i: nat, j: nat)
    requires acl.BelowIP() && i < |acl.rules| && j < |acl.rules| && i != j && !acl.Deleted(i) && !acl.Deleted(j)
    requires acl.rules[i].log == acl.rules[j].log
    ensures !acl.New(i).Key(acl.prtIP).Covers(acl.New(j).Key(acl.prtIP))
  {
    hide First, RuleKey.Covers, Widened, Acl.Secondary;
    EntryAt(acl, i);
    EntryAt(acl, j);
    RemainsFirst(acl, i);
    RemainsFirst(acl, j);
    if acl.New(i).Key(acl.prtIP).Covers(acl.New(j).Key(acl.prtIP)) && !acl.Secondary(i) && acl.Secondary(j) {
      WidenedCoversRule(acl.rules[j], acl.prtIP, acl.rules[i].Key(acl.prtIP));
    }
  }

  /** Rule `j`, in one of its forms, covers rule `i` in one of its forms, and both have
      the same value of log, unless rule `i` has the key of rule `j`. */
  ghost predicate MakesRedundant(acl: Acl, j: nat, i: nat)
    requires j < |acl.rules| && i < |acl.rules|
  {
    exists r, s ::
      && (r == acl.rules[j] || (r == acl.New(j) && acl.Secondary(j)))
      && (s == acl.rules[i] || (s == acl.New(i) && acl.Secondary(i)))
      && (s.deny ==> r.deny) && s.src.Below(r.src) && s.dst.Below(r.dst) && s.prt.Below(r.prt)
      && SrcRangeOf(s, acl.prtIP).Below(SrcRangeOf(r, acl.prtIP))
      && (r.log == s.log || s.Key(acl.prtIP) == r.Key(acl.prtIP))
  }

  lemma MakesRedundantBy(acl: Acl, j: nat, i: nat, r: Rule, s: Rule)
    requires j < |acl.rules| && i < |acl.rules| && r.Key(acl.prtIP).Covers(s.Key(acl.prtIP))
    requires r == acl.rules[j] || (r == acl.New(j) && acl.Secondary(j))
    requires s == acl.rules[i] || (s == acl.New(i) && acl.Secondary(i))
    requires r.log == s.log || s.Key(acl.prtIP) == r.Key(acl.prtIP)
    ensures MakesRedundant(acl, j, i)
  {
    hide Acl.New, Acl.Secondary;
  }

  /** A rule is deleted only if another rule makes it redundant. */
  lemma DeletedIsRedundant(acl: Acl, i: nat)
    requires i < |acl.rules| && acl.Deleted(i)
    ensures exists j :: 0 <= j < |acl.rules| && j != i && MakesRedundant(acl, j, i)
  {
    hide MakesRedundant, Acl.New, Acl.Secondary, RuleKey.Covers;
    var es, ns, all, m := acl.Entries(), acl.NewEntries(), acl.All(), acl.Secondaries();
    EntryAt(acl, i);
    SameLogs(acl);
    if Gone(es, all, i) {
      var j := CauseOf(es, all, i);
      EntryAt(acl, j);
      MakesRedundantBy(acl, j, i, acl.rules[j], acl.rules[i]);
    } else if Gone(ns, m, i) {
      var j := CauseOf(ns, m, i);
      EntryAt(acl, j);
      MakesRedundantBy(acl, j, i, acl.New(j), acl.New(i));
    } else {
      var j :| 0 <= j < |ns| && j != i && First(ns, m, j) && ns[j].key.Covers(es[i].key) && ns[j].log == ns[i].log;
      EntryAt(acl, j);
      MakesRedundantBy(acl, j, i, acl.New(j), acl.rules[i]);
    }
  }

  lemma SameLogs(acl: Acl)
    ensures forall i :: 0 <= i < |acl.rules| ==> acl.New(i).log == acl.rules[i].log
  {}

  /** What deletes a rule of a tree: a rule with the same key, or one that covers it. */
  lemma CauseOf(es: seq<Entry>, member: seq<bool>, i: nat) returns (j: nat)
    requires |member| == |es| && i < |es| && Gone(es, member, i)
    ensures j < |es| && j != i && member[j] && es[j].key.Covers(es[i].key)
    ensures es[j].log == es[i].log || es[j].key == es[i].key
  {
    if First(es, member, i) {
      j :| 0 <= j < |es| && j != i && First(es, member, j) && es[j].key.Covers(es[i].key) && es[j].log == es[i].log;
    } else {
      j :| 0 <= j < i && member[j] && es[j].key == es[i].key;
    }
  }

  // ------------------------------------------------------------- secondary rules

  /** `OptNetworks` is the largest marked network that contains `n`. */
  lemma {:induction false} OptNetworksLargest(n: IpNet)
    ensures n.OptNetworks().Some? ==>
              && n.Below(n.OptNetworks().value) && n.OptNetworks().value.marked
              && n.OptNetworks().value.OptNetworks() == n.OptNetworks()
    ensures forall m :: n.Below(m) && m.marked ==> n.OptNetworks().Some? && m.Below(n.OptNetworks().value)
  {
    if n.up.Some? {
      OptNetworksLargest(n.up.value);
    }
  }

  /** Networks inherit the value of a larger network. */
  lemma {:induction false} OptNetworksInherited(a: IpNet, b: IpNet)
    requires a.Below(b)
    ensures b.OptNetworks().Some? ==> a.OptNetworks() == b.OptNetworks()
    ensures b.OptNetworks().None? && a.OptNetworks().Some? ==> a.OptNetworks().value.Below(b)
  {
    if a != b {
      OptNetworksInherited(a.up.value, b);
    }
  }

  /** The fields of a secondary rule after optimization: source and destination are the
      largest marked networks around the old ones, and stay if there is none; a
      destination that needs protection stays in any case. */
  lemma SecondaryFields(acl: Acl, i: nat)
    requires i < |acl.rules| && acl.rules[i].optSecondary && !Gone(acl.Entries(), acl.All(), i)
    requires !acl.rules[i].src.noOptAddrs && !acl.rules[i].dst.noOptAddrs
    ensures var was, now := acl.rules[i], acl.New(i);
            && now.prt == acl.prtIP && now.srcRange == None
            && now.deny == was.deny && now.log == was.log
            && was.src.Below(now.src) && (now.src == was.src || now.src.marked)
            && (forall m :: was.src.Below(m) && m.marked ==> now.src.marked && m.Below(now.src))
            && (was.dst.needProtect ==> now.dst == was.dst)
            && was.dst.Below(now.dst) && (now.dst == was.dst || now.dst.marked)
            && (!was.dst.needProtect ==>
                  forall m :: was.dst.Below(m) && m.marked ==> now.dst.marked && m.Below(now.dst))
  {
    hide Gone;
    OptNetworksLargest(acl.rules[i].src);
    OptNetworksLargest(acl.rules[i].dst);
  }

  /** All other rules stay as they are. */
  lemma OtherFields(acl: Acl, i: nat)
    requires i < |acl.rules|
    requires !acl.rules[i].optSecondary || Gone(acl.Entries(), acl.All(), i) ||
             acl.rules[i].src.noOptAddrs || acl.rules[i].dst.noOptAddrs
    ensures acl.New(i) == acl.rules[i]
  {
    hide Gone;
  }

  /** The pair makes a rule for `a` get lost: `a` lies inside `b`, and is widened
      to more than `b`, while `b` is kept because it needs protection. */
  predicate Unprotected(a: IpNet, b: IpNet) {
    && a.Below(b) && a != b && !a.needProtect && !a.noOptAddrs
    && b.needProtect && !b.noOptAddrs && b.OptNetworks().Some? && b.OptNetworks().value != b
  }

  lemma WideSrcKeeps(a: IpNet, b: IpNet)
    requires a.Below(WideSrc(b))
    ensures WideSrc(a).Below(WideSrc(b))
  {
    OptNetworksLargest(b);
    OptNetworksInherited(a, WideSrc(b));
  }

  /** A widened destination that contains `a` contains the widened `a`, too. */
  lemma WideDstKeeps(a: IpNet, b: IpNet)
    requires a.Below(WideDst(b)) && !a.noOptAddrs && !b.noOptAddrs && !Unprotected(a, b)
    ensures WideDst(a).Below(WideDst(b))
  {
    if b.needProtect {
      OptNetworksInherited(a, b);
    } else {
      WideSrcKeeps(a, b);
    }
  }

  /** No secondary rule has an unprotected destination inside that of another one. */
  ghost predicate Safe(acl: Acl) {
    forall i, j :: 0 <= i < |acl.rules| && 0 <= j < |acl.rules| && acl.Secondary(i) && acl.Secondary(j) ==>
      !Unprotected(acl.rules[i].dst, acl.rules[j].dst)
  }

  ghost predicate OnlyPermitSecondary(acl: Acl) {
    forall i :: 0 <= i < |acl.rules| && acl.rules[i].deny ==> !acl.rules[i].optSecondary
  }

  /** If a secondary rule covers the original key of another secondary rule, it
      also covers the widened key of that rule. */
  lemma WidenedCovers(acl: Acl, i: nat, j: nat)
    requires i < |acl.rules| && j < |acl.rules| && acl.Secondary(i) && acl.Secondary(j) && acl.Valid() && Safe(acl)
    requires acl.NewEntries()[j].key.Covers(acl.Entries()[i].key)
    ensures acl.NewEntries()[j].key.Covers(acl.NewEntries()[i].key)
  {
    hide Gone;
    EntryAt(acl, i);
    EntryAt(acl, j);
    WideSrcKeeps(acl.rules[i].src, acl.rules[j].src);
    WideDstKeeps(acl.rules[i].dst, acl.rules[j].dst);
  }

  /** A secondary rule that survives the other secondary rules is not deleted,
      although the original rule tree still holds its original key. */
  lemma SecondaryStays(acl: Acl, j: nat)
    requires acl.Valid() && Safe(acl) && j < |acl.rules|
    requires First(acl.NewEntries(), acl.Secondaries(), j) && !Gone(acl.NewEntries(), acl.Secondaries(), j)
    ensures !acl.Deleted(j)
  {
    var es, m := acl.NewEntries(), acl.Secondaries();
    EntryAt(acl, j);
    if acl.GoneBySecondary(j) {
      var t :| 0 <= t < |es| && t != j && First(es, m, t) && es[t].key.Covers(acl.Entries()[j].key) &&
               es[t].log == es[j].log;
      EntryAt(acl, t);
      WidenedCovers(acl, j, t);
    }
  }

  /** Whatever matched a rule matches a rule that is not deleted. */
  lemma CoveredByNew(acl: Acl, i: nat, p: Packet) returns (j: nat)
    requires acl.Valid() && Safe(acl) && OnlyPermitSecondary(acl) && p.Real(acl.prtIP)
    requires i < |acl.rules| && acl.rules[i].Matches(p)
    ensures j < |acl.rules| && !acl.Deleted(j) && acl.New(j).Matches(p)
    ensures acl.rules[i].deny ==> acl.New(j).deny
    ensures acl.New(j).deny ==> acl.rules[j].deny && acl.rules[j].Matches(p)
  {
    hide First, Gone, Covered;
    var es, m := acl.NewEntries(), acl.Secondaries();
    j := CoveredByOld(acl, i, p);
    EntryAt(acl, j);
    if acl.Secondary(j) {
      WidenedMatches(acl.rules[j], acl.prtIP, p);
      KeyCoversItself(acl.New(j), acl.prtIP);
      j := SecondaryMatch(acl, j, acl.New(j), p);
    } else if acl.GoneBySecondary(j) {
      j := CoveredBySecondary(acl, j, p);
    } else {
      NotMember(acl, j);
    }
  }

  /** A widened rule matches at least what the rule matched. */
  lemma WidenedMatches(r: Rule, prtIP: Proto, p: Packet)
    requires r.Valid() && p.Real(prtIP) && r.Matches(p)
    ensures Widened(r, prtIP).Valid() && Widened(r, prtIP).Matches(p)
  {
    OptNetworksLargest(r.src);
    OptNetworksLargest(r.dst);
    NetBelowCovers(r.src, WideSrc(r.src));
    NetBelowCovers(r.dst, WideDst(r.dst));
    Prefixes.CoversHas(WideSrc(r.src).net, r.src.net, p.src);
    Prefixes.CoversHas(WideDst(r.dst).net, r.dst.net, p.dst);
  }

  lemma KeyCoversItself(r: Rule, prtIP: Proto)
    ensures r.Key(prtIP).Covers(r.Key(prtIP))
  {}

  lemma NotMember(acl: Acl, j: nat)
    requires j < |acl.rules| && !acl.Secondary(j)
    ensures !Gone(acl.NewEntries(), acl.Secondaries(), j)
  {
    EntryAt(acl, j);
  }

  /** A packet of a rule that is covered by secondary rule `t` matches some
      secondary rule that stays. */
  lemma SecondaryMatch(acl: Acl, t: nat, r: Rule, p: Packet) returns (j: nat)
    requires acl.Valid() && Safe(acl) && OnlyPermitSecondary(acl) && p.Real(acl.prtIP)
    requires t < |acl.rules| && acl.Secondary(t) && r.Valid() && r.Matches(p)
    requires acl.New(t).Key(acl.prtIP).Covers(r.Key(acl.prtIP))
    ensures j < |acl.rules| && !acl.Deleted(j) && acl.New(j).Matches(p) && !acl.New(j).deny && !r.deny
  {
    hide Gone;
    var es, m := acl.NewEntries(), acl.Secondaries();
    EntryAt(acl, t);
    j := Survivor(es, m, t);
    EntryAt(acl, j);
    SecondaryStays(acl, j);
    CoversTransitive(es[j].key, es[t].key, r.Key(acl.prtIP));
    KeyHas(r, acl.prtIP, p);
    CoversHas(es[j].key, r.Key(acl.prtIP), p, acl.prtIP);
    KeyHas(acl.New(j), acl.prtIP, p);
  }

  lemma CoveredBySecondary(acl: Acl, i: nat, p: Packet) returns (j: nat)
    requires acl.Valid() && Safe(acl) && OnlyPermitSecondary(acl) && p.Real(acl.prtIP)
    requires i < |acl.rules| && acl.GoneBySecondary(i) && acl.rules[i].Matches(p)
    ensures j < |acl.rules| && !acl.Deleted(j) && acl.New(j).Matches(p) && !acl.New(j).deny && !acl.rules[i].deny
  {
    hide Gone;
    var es, m := acl.NewEntries(), acl.Secondaries();
    var t :| 0 <= t < |es| && t != i && First(es, m, t) && es[t].key.Covers(acl.Entries()[i].key) &&
             es[t].log == es[i].log;
    EntryAt(acl, t);
    EntryAt(acl, i);
    j := SecondaryMatch(acl, t, acl.rules[i], p);
  }

  ghost predicate WidenedPermits(acl: Acl, p: Packet) {
    exists i :: 0 <= i < |acl.rules| && acl.rules[i].optSecondary && Widened(acl.rules[i], acl.prtIP).Matches(p)
  }

  /** A deny rule that stays in the original tree is not deleted later on. */
  lemma DenyStays(acl: Acl, j: nat)
    requires OnlyPermitSecondary(acl) && j < |acl.rules| && acl.rules[j].deny
    requires !Gone(acl.Entries(), acl.All(), j)
    ensures !acl.Deleted(j) && acl.New(j) == acl.rules[j]
  {
    hide Gone;
    var es, m := acl.NewEntries(), acl.Secondaries();
    NotMember(acl, j);
    EntryAt(acl, j);
    if acl.GoneBySecondary(j) {
      var t :| 0 <= t < |es| && t != j && First(es, m, t) && es[t].key.Covers(acl.Entries()[j].key) &&
               es[t].log == es[j].log;
      EntryAt(acl, t);
    }
  }

  /** Whatever is found after optimization was a rule before, or is a widened permit rule. */
  lemma NewOrWidened(acl: Acl, q: Rule, p: Packet)
    requires OnlyPermitSecondary(acl) && q in After(acl) && q.Matches(p)
    ensures q in Before(acl) || (!q.deny && WidenedPermits(acl, p))
  {
    hide Acl.Deleted, Gone;
    var j :| 0 <= j < |acl.rules| && !acl.Deleted(j) && acl.New(j) == q;
    assert acl.rules[j] in Before(acl);
  }

  /** With secondary rules: a packet is denied exactly if it was denied before, and
      additionally permitted is only what a widened secondary rule permits. */
  lemma OptimizeWidens(acl: Acl, p: Packet)
    requires acl.Valid() && OnlyPermitSecondary(acl) && p.Real(acl.prtIP)
    ensures Decide(Before(acl), p) == Denied <==> Decide(After(acl), p) == Denied
    ensures Decide(After(acl), p) == Permitted ==> Decide(Before(acl), p) == Permitted || WidenedPermits(acl, p)
  {
    hide Acl.Deleted, Gone, Rule.Matches, WidenedPermits;
    if r :| r in Before(acl) && r.deny && r.Matches(p) {
      var i :| 0 <= i < |acl.rules| && acl.rules[i] == r;
      var j := CoveredByOld(acl, i, p);
      DenyStays(acl, j);
      assert acl.New(j) in After(acl);
    }
    forall q | q in After(acl) && q.Matches(p)
      ensures q in Before(acl) || (!q.deny && WidenedPermits(acl, p))
    {
      NewOrWidened(acl, q, p);
    }
  }

  /** What was permitted stays permitted, if secondary rules are safe. */
  lemma OptimizeKeepsPermitted(acl: Acl, p: Packet)
    requires acl.Valid() && Safe(acl) && OnlyPermitSecondary(acl) && p.Real(acl.prtIP)
    ensures Decide(Before(acl), p) == Permitted ==> Decide(After(acl), p) == Permitted
  {
    hide Acl.Deleted, Gone, Rule.Matches;
    OptimizeWidens(acl, p);
    if r :| r in Before(acl) && r.Matches(p) {
      var i :| 0 <= i < |acl.rules| && acl.rules[i] == r;
      var j := CoveredByNew(acl, i, p);
      assert acl.New(j) in After(acl);
    }
  }

  ghost predicate NoSecondary(acl: Acl) {
    forall i :: 0 <= i < |acl.rules| ==> !acl.rules[i].optSecondary
  }

  /** Without secondary rules every packet is decided as before. */
  lemma OptimizeKeepsDecisions(acl: Acl, p: Packet)
    requires acl.Valid() && p.Real(acl.prtIP) && NoSecondary(acl)
    ensures Decide(After(acl), p) == Decide(Before(acl), p)
  {
    hide Decide, Gone;
    OptimizeWidens(acl, p);
    OptimizeKeepsPermitted(acl, p);
  }

  /** All rules of the ACL use networks of the given set. */
  ghost predicate Over(acl: Acl, nets: set<IpNet>) {
    forall i :: 0 <= i < |acl.rules| ==> acl.rules[i].src in nets && acl.rules[i].dst in nets
  }

  ghost predicate KeepsPermits(acl: Acl) {
    forall p: Packet :: p.Real(acl.prtIP) && Decide(Before(acl), p) == Permitted ==> Decide(After(acl), p) == Permitted
  }

  /** Both rules of this ACL are deleted by each other: the widened rule for `a`
      covers the rule for `b`, and the rule for `b` covers the original key of
      the rule for `a`. */
  function LossyAcl(a: IpNet, b: IpNet): Acl {
    var prtIP := Proto(0, None);
    var tcp := Proto(1, Some(prtIP));
    Acl([Rule(false, a, a, prtIP, None, "", true), Rule(false, a, b, tcp, None, "", true)], prtIP)
  }

  lemma LossyAclDeleted(a: IpNet, b: IpNet)
    requires a.Valid() && Unprotected(a, b)
    ensures LossyAcl(a, b).Deleted(0) && LossyAcl(a, b).Deleted(1)
  {
    var acl := LossyAcl(a, b);
    var es, all := acl.Entries(), acl.All();
    EntryAt(acl, 0);
    EntryAt(acl, 1);
    var m := b.OptNetworks().value;
    OptNetworksLargest(b);
    OptNetworksInherited(a, b);
    NetBelowTrans(a, b, m);
    NetBelowDepth(a, b);
    NetBelowDepth(b, m);
    assert !acl.rules[0].prt.Below(acl.rules[1].prt);
    if b.Below(a) {
      NetBelowDepth(b, a);
    }
    assert !es[0].key.Covers(es[1].key) && !es[1].key.Covers(es[0].key);
    assert acl.Secondary(0) && acl.Secondary(1);
    var ns, secondaries := acl.NewEntries(), acl.Secondaries();
    assert ns[0].key.src == m && ns[0].key.dst == m && ns[1].key.src == m && ns[1].key.dst == b;
    assert First(ns, secondaries, 0) && First(ns, secondaries, 1);
    assert ns[0].key.Covers(ns[1].key);
    assert ns[1].key.Covers(es[0].key);
    assert Covered(ns, secondaries, 1, ns[1].key);
    assert Covered(ns, secondaries, 0, es[0].key);
  }

  lemma LossyAclLoses(a: IpNet, b: IpNet)
    requires a.Valid() && b.Valid() && Unprotected(a, b)
    ensures var acl := LossyAcl(a, b);
            acl.Valid() && OnlyPermitSecondary(acl) && !KeepsPermits(acl)
  {
    hide Acl.Deleted;
    var acl := LossyAcl(a, b);
    LossyAclDeleted(a, b);
    var p := Packet(a.net.base, a.net.base, {acl.prtIP}, {acl.prtIP});
    assert p.Real(acl.prtIP);
    assert acl.rules[0] in Before(acl) && acl.rules[0].Matches(p);
    assert forall r :: r in Before(acl) ==> !r.deny;
    assert Decide(Before(acl), p) == Permitted;
    assert forall r :: r !in After(acl);
    assert Decide(After(acl), p) == NoMatch;
  }

  /** Permitted packets stay permitted for all ACLs over a set of networks, if
      and only if the set has no unprotected network inside a protected one
      that secondary optimization widens. */
  lemma KeepsPermitsIff(nets: set<IpNet>)
    requires forall n :: n in nets ==> n.Valid()
    ensures (forall acl: Acl :: acl.Valid() && Over(acl, nets) && OnlyPermitSecondary(acl) ==> KeepsPermits(acl)) <==>
            (forall a, b :: a in nets && b in nets ==> !Unprotected(a, b))
  {
    hide Unprotected, KeepsPermits, OnlyPermitSecondary;
    if forall a, b :: a in nets && b in nets ==> !Unprotected(a, b) {
      forall acl: Acl | acl.Valid() && Over(acl, nets) && OnlyPermitSecondary(acl)
        ensures KeepsPermits(acl)
      {
        KeepsIfSafe(acl);
      }
    } else {
      var a, b :| a in nets && b in nets && Unprotected(a, b);
      LossyAclLoses(a, b);
      assert Over(LossyAcl(a, b), nets);
    }
  }

  lemma KeepsIfSafe(acl: Acl)
    requires acl.Valid() && Safe(acl) && OnlyPermitSecondary(acl)
    ensures KeepsPermits(acl)
  {
    forall p: Packet | p.Real(acl.prtIP) && Decide(Before(acl), p) == Permitted
      ensures Decide(After(acl), p) == Permitted
    {
      OptimizeKeepsPermitted(acl, p);
    }
  }
}
