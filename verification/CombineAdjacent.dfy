/** Combining adjacent networks (`combineAdjacentIPMask` in go/cmd/spoc2/main.go).

    Rules that differ only in one of their networks are sorted by its address.
    Two halves of a larger network are replaced by this network; if it is itself
    a right half, then the walk steps back by one rule.
  */
module CombineAdjacent {
  import opened Wrappers
  import opened Prefixes
  import opened PrefixLists
  import opened AclSpec
  import opened AclOptimizer
  import Sorting
  import Split = SplitIpRange

  predicate DisjointAll(l: seq<Prefix>) {
    forall j, k :: 0 <= j < k < |l| ==> l[j].Disjoint(l[k])
  }

  // ------------------------------------------------------------------ the networks

  /** The networks at `i` and `i + 1` are replaced by the next larger one. */
  function Merged(l: seq<Prefix>, i: nat): seq<Prefix>
    requires i + 1 < |l|
  {
    l[..i] + [l[i].Up()] + l[i + 2..]
  }

  predicate NoneBefore(l: seq<Prefix>, i: nat) {
    forall k :: 0 <= k < i && k + 1 < |l| ==> !Combinable(l[k], l[k + 1])
  }

  lemma CombinableBuddies(p: Prefix, q: Prefix)
    requires p.Valid() && q.Valid() && EndsBefore(p, q) && Combinable(p, q)
    ensures Buddies(p, q) && p.Up() == Prefix(p.base, p.inv + 1)
  {
    hide Trunc, Pow2;
    Positive(p.inv);
    SameParentBuddies(p, q);
    BuddyValid(p);
  }

  lemma Positive(k: nat)
    ensures Pow2(k) >= 1 && Pow2(k + 1) == 2 * Pow2(k)
  {
  }

  /** Merging two halves keeps the list and its addresses. */
  lemma MergeKeeps(l: seq<Prefix>, i: nat)
    requires AllValid(l) && Ascending(l) && i + 1 < |l| && Combinable(l[i], l[i + 1])
    ensures AllValid(Merged(l, i)) && Ascending(Merged(l, i))
  {
    hide Trunc, Pow2, Ascending, Combinable;
    var m := Merged(l, i);
    AscendingAt(l, i, i + 1);
    CombinableBuddies(l[i], l[i + 1]);
    Positive(l[i].inv);
    forall j, k | 0 <= j < k < |m|
      ensures EndsBefore(m[j], m[k])
    {
      var x, y := if j <= i then j else j + 1, if k <= i then k else k + 1;
      AscendingAt(l, x, y);
      AscendingAt(l, i + 1, y);
    }
    assert Ascending(m) by {
      AscendingHere(m);
    }
  }

  lemma AscendingHere(m: seq<Prefix>)
    requires forall j, k :: 0 <= j < k < |m| ==> EndsBefore(m[j], m[k])
    ensures Ascending(m)
  {
  }

  lemma MergeHas(l: seq<Prefix>, i: nat, a: nat)
    requires AllValid(l) && Ascending(l) && i + 1 < |l| && Combinable(l[i], l[i + 1])
    ensures HasAny(Merged(l, i), a) <==> HasAny(l, a)
  {
    hide Trunc, Pow2, Ascending, Combinable;
    var m := Merged(l, i);
    AscendingAt(l, i, i + 1);
    CombinableBuddies(l[i], l[i + 1]);
    BuddiesUnite(l[i], l[i + 1], a);
    if HasAny(l, a) {
      var k :| 0 <= k < |l| && l[k].Has(a);
      var j := if k <= i then k else k - 1;
      assert m[j].Has(a);
    }
    if HasAny(m, a) {
      var k :| 0 <= k < |m| && m[k].Has(a);
      assert k < i ==> l[k].Has(a);
      assert k > i ==> l[k + 1].Has(a);
    }
  }

  /** The merged network can be combined with the one before only if it is a right half. */
  lemma MergeNoneBefore(l: seq<Prefix>, i: nat)
    requires AllValid(l) && Ascending(l) && i + 1 < |l| && Combinable(l[i], l[i + 1])
    requires NoneBefore(l, i)
    ensures NoneBefore(Merged(l, i), if i > 0 then i - 1 else 0)
    ensures Aligned(l[i].base, l[i].inv + 2) ==> NoneBefore(Merged(l, i), i)
  {
    hide Trunc, Pow2, Ascending, Combinable;
    var m := Merged(l, i);
    assert forall k :: 0 <= k < i ==> m[k] == l[k];
    MergeKeeps(l, i);
    AscendingAt(l, i, i + 1);
    CombinableBuddies(l[i], l[i + 1]);
    if i > 0 && Aligned(l[i].base, l[i].inv + 2) {
      NotLeft(m, i);
    }
  }

  lemma NotLeft(m: seq<Prefix>, i: nat)
    requires AllValid(m) && Ascending(m) && 0 < i < |m| && m[i].IsLeft()
    ensures !Combinable(m[i - 1], m[i])
  {
    hide Trunc, Pow2, Ascending, Combinable;
    AscendingAt(m, i - 1, i);
    if Combinable(m[i - 1], m[i]) {
      CombinableBuddies(m[i - 1], m[i]);
      BuddyValid(m[i - 1]);
    }
  }

  // --------------------------------------------------------------------- the rules

  function Get(r: Rule, isDst: bool): IpNet {
    if isDst then r.dst else r.src
  }

  ghost function Values(rules: seq<CiscoRule>): (v: seq<Rule>)
    reads rules
    ensures |v| == |rules| && forall k :: 0 <= k < |v| ==> v[k] == rules[k].Value()
  {
    if rules == [] then [] else [rules[0].Value()] + Values(rules[1..])
  }

  ghost function NetsOf(v: seq<Rule>, isDst: bool): (l: seq<Prefix>)
    ensures |l| == |v| && forall k :: 0 <= k < |l| ==> l[k] == Get(v[k], isDst).net
  {
    if v == [] then [] else [Get(v[0], isDst).net] + NetsOf(v[1..], isDst)
  }

  /** The networks of the rules. */
  ghost function Nets(rules: seq<CiscoRule>, isDst: bool): seq<Prefix>
    reads rules
  {
    NetsOf(Values(rules), isDst)
  }

  /** Rules which differ only in the network that is combined. */
  predicate Alike(r: Rule, s: Rule, isDst: bool) {
    && r.deny == s.deny && r.prt == s.prt && r.srcRange == s.srcRange && r.log == s.log
    && Get(r, !isDst) == Get(s, !isDst)
  }

  ghost predicate AnyMatches(v: seq<Rule>, p: Packet) {
    exists k :: 0 <= k < |v| && v[k].Matches(p)
  }

  ghost predicate AllAlike(v: seq<Rule>, r: Rule, isDst: bool) {
    forall k :: 0 <= k < |v| ==> Alike(v[k], r, isDst)
  }

  /** Rules which are alike match a packet if one of their networks has its address. */
  lemma AlikeMatches(v: seq<Rule>, r: Rule, isDst: bool, p: Packet)
    requires AllAlike(v, r, isDst)
    ensures AnyMatches(v, p) <==>
            && HasAny(NetsOf(v, isDst), if isDst then p.dst else p.src)
            && Get(r, !isDst).net.Has(if isDst then p.src else p.dst)
            && r.prt in p.prts && (r.srcRange.Some? ==> r.srcRange.value in p.srcRanges)
  {
    hide Pow2;
    var a, l := if isDst then p.dst else p.src, NetsOf(v, isDst);
    if AnyMatches(v, p) {
      var k :| 0 <= k < |v| && v[k].Matches(p);
      assert l[k].Has(a);
    }
    if HasAny(l, a) {
      var k :| 0 <= k < |l| && l[k].Has(a);
      assert Alike(v[k], r, isDst);
    }
  }

  ghost predicate BasesSorted(l: seq<Prefix>) {
    forall j, k :: 0 <= j < k < |l| ==> l[j].base <= l[k].base
  }

  lemma SortedAscending(l: seq<Prefix>)
    requires AllValid(l) && DisjointAll(l) && BasesSorted(l)
    ensures Ascending(l)
  {
    forall j, k | 0 <= j < k < |l|
      ensures EndsBefore(l[j], l[k])
    {
      Positive(l[k].inv);
      assert l[j].Disjoint(l[k]);
    }
  }

  class Combiner {
    /** Known networks. */
    var ipNet2obj: map<Prefix, IpNet>

    ghost predicate Valid()
      reads this
    {
      forall n :: n in ipNet2obj ==> ipNet2obj[n].net == n
    }

    method GetIPObj(net: Prefix) returns (obj: IpNet)
      requires Valid()
      modifies this
      ensures Valid() && obj.net == net
      ensures forall n :: n in old(ipNet2obj) ==> n in ipNet2obj && ipNet2obj[n] == old(ipNet2obj)[n]
    {
      if net !in ipNet2obj {
        ipNet2obj := ipNet2obj[net := IpNet(net, false, false, false, None)];
      }
      obj := ipNet2obj[net];
    }

    /** Replaces the network at `i` by the next larger one, and removes the rule behind. */
    method Merge(rules: seq<CiscoRule>, i: nat, isDst: bool) returns (r: seq<CiscoRule>)
      requires Valid() && Sorting.Distinct(rules) && i + 1 < |rules|
      requires var l := Nets(rules, isDst); AllValid(l) && Ascending(l) && Combinable(l[i], l[i + 1])
      modifies this, rules[i], rules[i + 1]
      ensures Valid() && r == rules[..i + 1] + rules[i + 2..]
      ensures Nets(r, isDst) == old(Merged(Nets(rules, isDst), i))
      ensures OnlyNet(old(rules[i].Value()), rules[i].Value(), isDst)
      ensures rules[i + 1].Value() == old(rules[i + 1].Value())
      ensures rules[i].deleted == old(rules[i].deleted) && rules[i + 1].deleted
    {
      hide Trunc, Pow2, Ascending, Combinable, Merged, NetsOf, AllValid, Values, Prefix.Up;
      ghost var v := Values(rules);
      ValuesIndex(rules);
      MergedParts(v, isDst, i);
      var rule := rules[i];
      var element := Get(rule.Value(), isDst);
      var upElement := GetIPObj(Prefix(element.net.base, element.net.inv + 1));
      if isDst {
        rule.dst := upElement;
      } else {
        rule.src := upElement;
      }
      rules[i + 1].deleted := true;
      r := rules[..i + 1] + rules[i + 2..];
      ValuesNow(rules, v, i);
      ValuesRemoved(rules, i);
      MergedNets(v, Values(rules), isDst, i);
    }

    /** The same, as a step of combining `rules`. */
    method MergeStep(rules: seq<CiscoRule>, ghost was: seq<Rule>, l: seq<CiscoRule>, i: nat, isDst: bool)
      returns (r: seq<CiscoRule>)
      requires Valid() && Combining(rules, was, l, isDst) && i + 1 < |l|
      requires Combinable(Get(l[i].Value(), isDst).net, Get(l[i + 1].Value(), isDst).net)
      requires NoneBefore(Nets(l, isDst), i)
      modifies this, rules
      ensures Valid() && Combining(rules, was, r, isDst)
      ensures |r| == |l| - 1 && NoneBefore(Nets(r, isDst), if i > 0 then i - 1 else 0)
      ensures var n := old(Get(l[i].Value(), isDst).net);
              Aligned(n.base, n.inv + 2) ==> NoneBefore(Nets(r, isDst), i)
    {
      hide Nets, NetsOf, AllValid, Ascending, Merged, Combinable, HasAny, Trunc, Pow2, Get, OnlyNet;
      hide Sorting.Distinct, NoneBefore;
      ghost var nets := Nets(l, isDst);
      NetsAt(l, isDst);
      MergeNoneBefore(nets, i);
      MergeKeeps(nets, i);
      forall a: nat
        ensures HasAny(Merged(nets, i), a) <==> HasAny(nets, a)
      {
        MergeHas(nets, i, a);
      }
      RemovedIn(l, i);
      assert l[i] in rules && l[i + 1] in rules;
      ghost var before := l[i].Value();
      r := Merge(l, i, isDst);
      forall k | 0 <= k < |rules|
        ensures OnlyNet(was[k], rules[k].Value(), isDst)
      {
        if rules[k] == l[i] {
          OnlyNetStep(was[k], before, rules[k].Value(), isDst);
        }
      }
    }

    /** Sorts the rules by address, and combines adjacent networks as long as possible.
        Rules that are no longer needed are marked as deleted. */
    method CombineAdjacentIPMask(rules: seq<CiscoRule>, isDst: bool) returns (r: seq<CiscoRule>)
      requires Valid() && Sorting.Distinct(rules)
      requires forall x :: x in rules ==> !x.deleted
      requires AllValid(Nets(rules, isDst)) && DisjointAll(Nets(rules, isDst))
      modifies this, rules
      ensures Valid()
      ensures Combining(rules, old(Values(rules)), r, isDst) && NoneCombinable(Nets(r, isDst))
    {
      hide AllValid, Ascending, Merged, NoneBefore, Trunc, Pow2, Nets, NetsOf, HasAny, NoneCombinable, DisjointAll;
      hide Sorting.Distinct, OnlyNet, Combining, Get, CiscoRule.Value, Values;
      ghost var was := Values(rules);
      var l := SortByAddress(rules, isDst);
      var i := 0;
      StartOver(Nets(l, isDst));
      while i + 1 < |l|
        invariant Valid() && Combining(rules, was, l, isDst)
        invariant (i < |l| || i == 0) && NoneBefore(Nets(l, isDst), i)
        decreases 2 * |l| - i
      {
        NetsAt(l, isDst);
        var element1 := Get(l[i].Value(), isDst).net;
        var element2 := Get(l[i + 1].Value(), isDst).net;
        if element1.inv != element2.inv {
          StepOver(Nets(l, isDst), i);
          i := i + 1;
          continue;
        }
        var up := element1.inv + 1;
        if Trunc(element1.base, up) != Trunc(element2.base, up) {
          StepOver(Nets(l, isDst), i);
          i := i + 1;
          continue;
        }
        l := MergeStep(rules, was, l, i, isDst);
        // Check previous network again, if the new network is a right part.
        if i > 0 && !Aligned(element1.base, up + 1) {
          i := i - 1;
        }
      }
      r := l;
      NetsAt(r, isDst);
      Finished(Nets(r, isDst), i);
    }
  }

  lemma NetsAt(r: seq<CiscoRule>, isDst: bool)
    ensures |Nets(r, isDst)| == |r|
    ensures forall k :: 0 <= k < |r| ==> Nets(r, isDst)[k] == Get(r[k].Value(), isDst).net
  {
  }

  lemma StartOver(l: seq<Prefix>)
    ensures NoneBefore(l, 0)
  {
  }

  lemma StepOver(l: seq<Prefix>, i: nat)
    requires NoneBefore(l, i) && i + 1 < |l| && !Combinable(l[i], l[i + 1])
    ensures NoneBefore(l, i + 1)
  {
  }

  lemma Finished(l: seq<Prefix>, i: nat)
    requires NoneBefore(l, i) && i + 1 >= |l|
    ensures NoneCombinable(l)
  {
  }

  lemma RemovedIn(l: seq<CiscoRule>, i: nat)
    requires Sorting.Distinct(l) && i + 1 < |l|
    ensures var r := l[..i + 1] + l[i + 2..];
            Sorting.Distinct(r) && forall x :: x in r <==> x in l && x != l[i + 1]
    ensures l[i] != l[i + 1]
  {
    var r := l[..i + 1] + l[i + 2..];
    assert forall k :: 0 <= k < |r| ==> r[k] == l[if k <= i then k else k + 1];
    assert l == l[..i + 1] + [l[i + 1]] + l[i + 2..];
  }

  lemma OnlyNetStep(r: Rule, s: Rule, t: Rule, isDst: bool)
    requires OnlyNet(r, s, isDst) && OnlyNet(s, t, isDst)
    ensures OnlyNet(r, t, isDst)
  {
  }

  /** The remaining rules `l` have disjoint networks with the same addresses as
      before; all other rules are deleted, and only networks have been changed. */
  ghost predicate Combining(rules: seq<CiscoRule>, was: seq<Rule>, l: seq<CiscoRule>, isDst: bool)
    reads rules, l
  {
    && |was| == |rules| && Sorting.Distinct(l) && (forall x :: x in l ==> x in rules)
    && (forall x :: x in rules ==> (x.deleted <==> x !in l))
    && (forall k :: 0 <= k < |rules| ==> OnlyNet(was[k], rules[k].Value(), isDst))
    && AllValid(Nets(l, isDst)) && Ascending(Nets(l, isDst))
    && (forall a: nat :: HasAny(Nets(l, isDst), a) <==> HasAny(NetsOf(was, isDst), a))
  }

  /** All attributes but the destination, or but the source, are the same. */
  predicate OnlyNet(r: Rule, s: Rule, isDst: bool) {
    && s.deny == r.deny && s.prt == r.prt && s.srcRange == r.srcRange
    && s.log == r.log && s.optSecondary == r.optSecondary
    && if isDst then s.src == r.src else s.dst == r.dst
  }

  function Bases(rules: seq<CiscoRule>, isDst: bool): (r: seq<int>)
    reads rules
    ensures |r| == |rules|
    ensures forall k :: 0 <= k < |r| ==> r[k] == Get(rules[k].Value(), isDst).net.base
  {
    if rules == [] then [] else [Get(rules[0].Value(), isDst).net.base] + Bases(rules[1..], isDst)
  }

  method SortByAddress(rules: seq<CiscoRule>, isDst: bool) returns (l: seq<CiscoRule>)
    requires Sorting.Distinct(rules)
    requires forall x :: x in rules ==> !x.deleted
    requires AllValid(Nets(rules, isDst)) && DisjointAll(Nets(rules, isDst))
    ensures Combining(rules, Values(rules), l, isDst)
  {
    hide Nets, NetsOf, Values, AllValid, DisjointAll, Sorting.Sorted, Ascending, HasAny;
    hide Sorting.Distinct, Sorting.Keyed, Sorting.Second, Bases, OnlyNet, CiscoRule.Value, Get;
    var items := Sorting.Keyed(Bases(rules, isDst), rules);
    var sorted := Sorting.Sort(items, Sorting.ByKey);
    Sorting.SameElements(sorted, items);
    KeyedDistinct(rules, isDst);
    SecondSize(items, sorted, rules, isDst);
    Sorting.DistinctSame(sorted, items);
    l := Sorting.Second(sorted);
    SortedRules(rules, isDst, sorted);
    Rearranged(rules, l, isDst);
    SortedAscending(Nets(l, isDst));
    NothingChanged(rules, isDst);
  }

  lemma SecondSize(items: seq<(int, CiscoRule)>, sorted: seq<(int, CiscoRule)>, rules: seq<CiscoRule>, isDst: bool)
    requires |sorted| == |items| && items == Sorting.Keyed(Bases(rules, isDst), rules)
    ensures |Sorting.Second(sorted)| == |rules| && |items| == |rules|
  {
  }

  lemma KeyedDistinct(rules: seq<CiscoRule>, isDst: bool)
    requires Sorting.Distinct(rules)
    ensures Sorting.Distinct(Sorting.Keyed(Bases(rules, isDst), rules))
  {
  }

  lemma NothingChanged(rules: seq<CiscoRule>, isDst: bool)
    ensures Nets(rules, isDst) == NetsOf(Values(rules), isDst) && |Values(rules)| == |rules|
    ensures forall k :: 0 <= k < |rules| ==> OnlyNet(Values(rules)[k], rules[k].Value(), isDst)
  {
    ValuesIndex(rules);
    hide Values;
  }

  lemma SortedRules(rules: seq<CiscoRule>, isDst: bool, sorted: seq<(int, CiscoRule)>)
    requires Sorting.Distinct(rules) && Sorting.Distinct(sorted) && Sorting.Sorted(sorted, Sorting.ByKey)
    requires |sorted| == |rules| && forall x :: x in sorted <==> x in Sorting.Keyed(Bases(rules, isDst), rules)
    ensures Sorting.Distinct(Sorting.Second(sorted))
    ensures forall x :: x in Sorting.Second(sorted) <==> x in rules
    ensures BasesSorted(Nets(Sorting.Second(sorted), isDst))
  {
    hide Sorting.Distinct, Nets;
    var items, l := Sorting.Keyed(Bases(rules, isDst), rules), Sorting.Second(sorted);
    forall k | 0 <= k < |sorted|
      ensures sorted[k] == (Get(l[k].Value(), isDst).net.base, l[k]) && l[k] in rules
    {
      assert sorted[k] in items;
    }
    forall x | x in rules
      ensures x in l
    {
      var k :| 0 <= k < |rules| && rules[k] == x;
      assert items[k] in sorted;
      var j :| 0 <= j < |sorted| && sorted[j] == items[k];
      assert l[j] == x;
    }
    DistinctSecond(sorted, l, isDst);
    NetsAt(l, isDst);
    var nets := Nets(l, isDst);
    forall j, k | 0 <= j < k < |nets|
      ensures nets[j].base <= nets[k].base
    {
      assert Sorting.Before(Sorting.ByKey(sorted[j]), Sorting.ByKey(sorted[k]));
    }
  }

  lemma DistinctSecond(sorted: seq<(int, CiscoRule)>, l: seq<CiscoRule>, isDst: bool)
    requires Sorting.Distinct(sorted) && |l| == |sorted|
    requires forall k :: 0 <= k < |sorted| ==> sorted[k] == (Get(l[k].Value(), isDst).net.base, l[k])
    ensures Sorting.Distinct(l)
  {
    hide Get, CiscoRule.Value;
    forall j, k | 0 <= j < k < |l|
      ensures l[j] != l[k]
    {
      assert sorted[j] != sorted[k];
    }
  }

  /** Another order of the rules keeps the networks. */
  lemma Rearranged(rules: seq<CiscoRule>, l: seq<CiscoRule>, isDst: bool)
    requires AllValid(Nets(rules, isDst)) && DisjointAll(Nets(rules, isDst))
    requires Sorting.Distinct(l) && forall x :: x in l <==> x in rules
    ensures AllValid(Nets(l, isDst)) && DisjointAll(Nets(l, isDst))
    ensures forall a: nat :: HasAny(Nets(l, isDst), a) <==> HasAny(Nets(rules, isDst), a)
  {
    hide Nets, Prefix.Has, Prefix.Valid;
    NetsAt(rules, isDst);
    NetsAt(l, isDst);
    var nets, was := Nets(l, isDst), Nets(rules, isDst);
    forall j, k | 0 <= j < k < |nets|
      ensures nets[j].Disjoint(nets[k])
    {
      assert l[j] in rules && l[k] in rules && l[j] != l[k];
      var a :| 0 <= a < |rules| && rules[a] == l[j];
      var b :| 0 <= b < |rules| && rules[b] == l[k];
      assert a < b ==> was[a].Disjoint(was[b]);
      assert b < a ==> was[b].Disjoint(was[a]);
    }
    forall k | 0 <= k < |nets|
      ensures nets[k].Valid() && nets[k] in was
    {
      assert l[k] in rules;
      var a :| 0 <= a < |rules| && rules[a] == l[k];
      assert was[a] == nets[k];
    }
    forall k | 0 <= k < |was|
      ensures was[k] in nets
    {
      assert rules[k] in l;
      var a :| 0 <= a < |l| && l[a] == rules[k];
      assert nets[a] == was[k];
    }
    forall a: nat
      ensures HasAny(nets, a) <==> HasAny(was, a)
    {
      SameNetsHave(nets, was, a);
      SameNetsHave(was, nets, a);
    }
  }

  lemma SameNetsHave(l: seq<Prefix>, m: seq<Prefix>, a: nat)
    requires forall k :: 0 <= k < |l| ==> l[k] in m
    ensures HasAny(l, a) ==> HasAny(m, a)
  {
    hide Prefix.Has;
  }

  lemma ValuesNow(rules: seq<CiscoRule>, v: seq<Rule>, i: nat)
    requires |v| == |rules| && forall k :: 0 <= k < |v| && k != i ==> rules[k].Value() == v[k]
    ensures |Values(rules)| == |v| && forall k :: 0 <= k < |v| && k != i ==> Values(rules)[k] == v[k]
    ensures i < |v| ==> Values(rules)[i] == rules[i].Value()
  {
    hide CiscoRule.Value;
  }

  lemma MergedParts(v: seq<Rule>, isDst: bool, i: nat)
    requires i + 1 < |v|
    requires var l := NetsOf(v, isDst); AllValid(l) && Ascending(l) && Combinable(l[i], l[i + 1])
    ensures var n := Get(v[i], isDst).net; n.Up() == Prefix(n.base, n.inv + 1)
  {
    hide Trunc, Pow2, Ascending, Combinable;
    var l := NetsOf(v, isDst);
    AscendingAt(l, i, i + 1);
    CombinableBuddies(l[i], l[i + 1]);
  }

  lemma ValuesRemoved(rules: seq<CiscoRule>, i: nat)
    requires i + 1 < |rules|
    ensures Values(rules[..i + 1] + rules[i + 2..]) == Values(rules)[..i + 1] + Values(rules)[i + 2..]
  {
    hide CiscoRule.Value, Values;
    var r := rules[..i + 1] + rules[i + 2..];
    ValuesIndex(rules);
    ValuesIndex(r);
    var v, w := Values(rules), Values(r);
    forall k | 0 <= k < |w|
      ensures w[k] == (v[..i + 1] + v[i + 2..])[k]
    {
      if k > i {
        assert r[k] == rules[k + 1];
      }
    }
  }

  lemma NetsIndex(v: seq<Rule>, isDst: bool)
    ensures |NetsOf(v, isDst)| == |v|
    ensures forall k :: 0 <= k < |v| ==> NetsOf(v, isDst)[k] == Get(v[k], isDst).net
  {
  }

  lemma ValuesIndex(rules: seq<CiscoRule>)
    ensures |Values(rules)| == |rules|
    ensures forall k :: 0 <= k < |rules| ==> Values(rules)[k] == rules[k].Value()
  {
  }

  lemma {:induction false} MergedNets(v: seq<Rule>, w: seq<Rule>, isDst: bool, i: nat)
    requires |w| == |v| && i + 1 < |v|
    requires forall k :: 0 <= k < |v| && k != i ==> w[k] == v[k]
    requires Get(w[i], isDst).net == Get(v[i], isDst).net.Up()
    ensures NetsOf(w[..i + 1] + w[i + 2..], isDst) == Merged(NetsOf(v, isDst), i)
  {
    hide Prefix.Up, Get, NetsOf, Merged;
    var x := w[..i + 1] + w[i + 2..];
    NetsIndex(x, isDst);
    NetsIndex(v, isDst);
    var l, m := NetsOf(v, isDst), NetsOf(x, isDst);
    assert |m| == |l| - 1;
    assert forall k :: 0 <= k < i ==> x[k] == v[k];
    assert x[i] == w[i];
    assert forall k :: i < k < |x| ==> x[k] == v[k + 1];
    MergedFrom(l, i, m);
  }

  lemma {:induction false} MergedFrom(l: seq<Prefix>, i: nat, m: seq<Prefix>)
    requires i + 1 < |l| && |m| == |l| - 1
    requires forall k :: 0 <= k < i ==> m[k] == l[k]
    requires m[i] == l[i].Up()
    requires forall k :: i < k < |m| ==> m[k] == l[k + 1]
    ensures m == Merged(l, i)
  {
    hide Prefix.Up;
  }

  // ----------------------------------------------------------------------- results

  /** Rules that are alike match the same packets before and after combining. */
  lemma {:induction false} CombinedMatches(rules: seq<CiscoRule>, was: seq<Rule>, l: seq<CiscoRule>, isDst: bool,
                                           r: Rule, p: Packet)
    requires Combining(rules, was, l, isDst) && AllAlike(was, r, isDst)
    ensures AnyMatches(Values(l), p) <==> AnyMatches(was, p)
  {
    hide NetsOf, HasAny, AllValid, Ascending, AnyMatches, Sorting.Distinct;
    ValuesIndex(l);
    forall k | 0 <= k < |l|
      ensures Alike(Values(l)[k], r, isDst)
    {
      assert l[k] in rules;
      var j :| 0 <= j < |rules| && rules[j] == l[k];
      assert OnlyNet(was[j], rules[j].Value(), isDst);
    }
    AlikeMatches(was, r, isDst, p);
    AlikeMatches(Values(l), r, isDst, p);
  }

  /** If the addresses of the rules form a range, then the result is the one of
      `splitIpRange`. */
  lemma {:induction false} CombinedRange(l: seq<Prefix>, nets: seq<Prefix>, lo: nat, hi: nat)
    requires AllValid(l) && Ascending(l) && NoneCombinable(l)
    requires forall a: nat :: HasAny(l, a) <==> lo <= a <= hi
    requires AllValid(nets) && Split.Tiles(nets, lo, hi) && Split.Greedy(nets, hi)
    ensures l == nets
  {
    hide AllValid, Ascending, NoneCombinable, HasAny, Canonical, Split.Tiles, Split.Greedy;
    NotCombinableCanonical(l);
    Split.TilesAscending(nets, lo, hi);
    Split.GreedyCanonical(nets, lo, hi);
    forall a: nat
      ensures HasAny(nets, a) <==> HasAny(l, a)
    {
      Split.TilesHas(nets, lo, hi, a);
    }
    CanonicalUnique(l, nets);
  }
}
