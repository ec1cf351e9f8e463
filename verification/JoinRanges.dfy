/** Joining adjacent port ranges (`joinRanges` in go/cmd/spoc2/main.go).

    Rules that differ only in their ports are sorted by low port.  If a range
    ends directly in front of the next one, then the next rule takes both ranges
    and the first rule is deleted.
  */
module JoinRanges {
  import opened Wrappers
  import opened PortNames
  import opened PortRanges
  import Acl = AclSpec
  import Sorting

  /** The parts of a rule which must be identical. */
  datatype Key = Key(deny: bool, src: Acl.IpNet, dst: Acl.IpNet, srcRange: Option<Acl.Proto>, log: string)

  class CiscoRule {
    const key: Key
    var prt: Proto
    var deleted: bool

    constructor (key: Key, prt: Proto)
      ensures this.key == key && this.prt == prt && !deleted
    {
      this.key, this.prt, deleted := key, prt, false;
    }
  }

  predicate Has(p: Proto, port: int) {
    p.low <= port <= p.high
  }

  predicate Apart(p: Proto, q: Proto) {
    p.high < q.low || q.high < p.low
  }

  /** Neither overlapping nor adjacent. */
  predicate Separated(p: Proto, q: Proto) {
    p.high + 1 < q.low || q.high + 1 < p.low
  }

  // --------------------------------------------------------------------- one group

  /** A port of one of the rules that are not deleted. */
  ghost predicate NowHas(l: seq<CiscoRule>, port: int)
    reads l
  {
    exists r :: r in l && !r.deleted && Has(r.prt, port)
  }

  /** A port of one of the rules, as they were before. */
  ghost predicate WasHas(l: seq<CiscoRule>, was: map<CiscoRule, Proto>, port: int) {
    exists r :: r in l && r in was && Has(was[r], port)
  }

  /** The ports of the range start and end like old ranges. */
  ghost predicate OldEnds(l: seq<CiscoRule>, was: map<CiscoRule, Proto>, low: int, high: int) {
    exists s, t :: s in l && t in l && s in was && t in was && low == was[s].low && high == was[t].high
  }

  ghost predicate PortsKept(l: seq<CiscoRule>, was: map<CiscoRule, Proto>)
    reads l
  {
    forall port :: NowHas(l, port) <==> WasHas(l, was, port)
  }

  ghost predicate NoneAdjacent(l: seq<CiscoRule>)
    reads l
  {
    forall r, s :: r in l && s in l && r != s && !r.deleted && !s.deleted ==> Separated(r.prt, s.prt)
  }

  /** The rules of `m`, which are rules of `l`, still have ranges of the same protocol. */
  ghost predicate SameKind(l: seq<CiscoRule>, was: map<CiscoRule, Proto>, m: seq<CiscoRule>)
    reads m
  {
    && (forall r :: r in m ==> r in was && r.prt.protocol == was[r].protocol && !r.prt.established)
    && (forall r :: r in m && !r.deleted ==> r.prt.low <= r.prt.high && OldEnds(l, was, r.prt.low, r.prt.high))
  }

  ghost predicate Joined(l: seq<CiscoRule>, was: map<CiscoRule, Proto>)
    reads l
  {
    PortsKept(l, was) && NoneAdjacent(l) && SameKind(l, was, l)
  }

  /** Ranges with valid ports, which do not overlap. */
  ghost predicate Group(l: seq<CiscoRule>, protocol: string)
    reads l
  {
    && Sorting.Distinct(l) && (protocol == "tcp" || protocol == "udp")
    && (forall r :: r in l ==> !r.deleted && r.prt.protocol == protocol && !r.prt.established)
    && (forall r :: r in l ==> 0 <= r.prt.low <= r.prt.high <= MAX_INT)
    && (forall r, s :: r in l && s in l && r != s ==> Apart(r.prt, s.prt))
  }

  /** No rule of the list has been changed. */
  ghost predicate Unchanged(l: seq<CiscoRule>, was: map<CiscoRule, Proto>)
    reads l
  {
    forall r :: r in l ==> r in was && r.prt == was[r] && !r.deleted
  }

  /** `m` and the range from `low` to `high` have the old ports of `w`. */
  ghost predicate PortsUpTo(m: seq<CiscoRule>, low: int, high: int, w: seq<CiscoRule>, was: map<CiscoRule, Proto>)
    reads m
  {
    forall port :: WasHas(w, was, port) <==> NowHas(m, port) || low <= port <= high
  }

  ghost predicate EndsBelow(m: seq<CiscoRule>, low: int)
    reads m
  {
    forall r :: r in m && !r.deleted ==> r.prt.high + 1 < low
  }

  /** In the sorted list `l` the rules in front of `n` are finished, rule `n` may be joined
      with the next one, and the other rules have not yet been changed. */
  ghost predicate Joining(l: seq<CiscoRule>, was: map<CiscoRule, Proto>, n: nat)
    requires n < |l|
    reads l
  {
    var m, a := l[..n], l[n];
    && NoneAdjacent(m) && SameKind(l, was, m) && SameKind(l, was, [a]) && Unchanged(l[n + 1..], was)
    && !a.deleted && a.prt.low <= a.prt.high == was[a].high && EndsBelow(m, a.prt.low)
    && PortsUpTo(m, a.prt.low, a.prt.high, l[..n + 1], was)
  }

  /** The old ranges are disjoint and in ascending order. */
  ghost predicate Ascending(l: seq<CiscoRule>, was: map<CiscoRule, Proto>, protocol: string) {
    && (forall k :: 0 <= k < |l| ==> l[k] in was && IsRange(was[l[k]], protocol))
    && (forall k :: 0 <= k < |l| ==> 0 <= was[l[k]].low <= was[l[k]].high <= MAX_INT)
    && (forall j, k :: 0 <= j < k < |l| ==> was[l[j]].high < was[l[k]].low)
  }

  lemma {:induction false} Parts(l: seq<CiscoRule>, n: nat)
    requires n + 1 < |l| && Sorting.Distinct(l)
    ensures l[..n + 1] == l[..n] + [l[n]] && l[..n + 2] == l[..n + 1] + [l[n + 1]]
    ensures l[n + 1..] == [l[n + 1]] + l[n + 2..]
    ensures forall k :: n <= k <= n + 1 ==> l[k] !in l[..n] && l[k] !in l[n + 2..]
    ensures l[n] != l[n + 1]
  {
  }

  lemma {:induction false} NowHasMore(m: seq<CiscoRule>, a: CiscoRule, port: int)
    ensures NowHas(m + [a], port) <==> NowHas(m, port) || (!a.deleted && Has(a.prt, port))
  {
    assert !a.deleted && Has(a.prt, port) ==> a in m + [a];
  }

  lemma {:induction false} WasHasMore(w: seq<CiscoRule>, was: map<CiscoRule, Proto>, b: CiscoRule, port: int)
    requires b in was
    ensures WasHas(w + [b], was, port) <==> WasHas(w, was, port) || Has(was[b], port)
  {
    assert Has(was[b], port) ==> b in w + [b];
  }

  lemma {:induction false} MorePorts(m: seq<CiscoRule>, low: int, high: int, w: seq<CiscoRule>,
                                     was: map<CiscoRule, Proto>, a: CiscoRule, b: CiscoRule)
    requires PortsUpTo(m, low, high, w, was) && b in was && low <= high && was[b].low <= was[b].high
    ensures !a.deleted && a.prt.low == low && a.prt.high == high ==>
              PortsUpTo(m + [a], was[b].low, was[b].high, w + [b], was)
    ensures a.deleted && high + 1 == was[b].low ==> PortsUpTo(m + [a], low, was[b].high, w + [b], was)
  {
    hide NowHas, WasHas;
    forall port
      ensures NowHas(m + [a], port) <==> NowHas(m, port) || (!a.deleted && Has(a.prt, port))
      ensures WasHas(w + [b], was, port) <==> WasHas(w, was, port) || Has(was[b], port)
    {
      NowHasMore(m, a, port);
      WasHasMore(w, was, b, port);
    }
  }

  /** What is known before rule `n` and the next one are compared. */
  lemma {:induction false} Compare(l: seq<CiscoRule>, was: map<CiscoRule, Proto>, n: nat, protocol: string)
    requires n + 1 < |l| && Sorting.Distinct(l) && Ascending(l, was, protocol) && Joining(l, was, n)
    ensures Unfinished(l, was, n, l[n].prt.low, l[n].prt.high)
    ensures !l[n].deleted && !l[n + 1].deleted && l[n + 1] in was && l[n + 1].prt == was[l[n + 1]]
    ensures IsRange(l[n].prt, protocol) && IsRange(l[n + 1].prt, protocol)
    ensures 0 <= l[n].prt.low <= l[n].prt.high < l[n + 1].prt.low <= l[n + 1].prt.high <= MAX_INT
    ensures OldEnds(l, was, l[n].prt.low, l[n].prt.high)
    ensures OldEnds(l, was, l[n + 1].prt.low, l[n + 1].prt.high)
    ensures OldEnds(l, was, l[n].prt.low, l[n + 1].prt.high)
  {
    hide PortsUpTo, NoneAdjacent, Sorting.Distinct;
    var a, b := l[n], l[n + 1];
    Parts(l, n);
    assert b in l[n + 1..] && b in l && a in l && a in [a];
  }

  /** Everything but the rules `n` and `n + 1` themselves. */
  ghost predicate Unfinished(l: seq<CiscoRule>, was: map<CiscoRule, Proto>, n: nat, low: int, high: int)
    requires n + 1 < |l|
    reads l[..n], l[n + 2..]
  {
    var m := l[..n];
    && NoneAdjacent(m) && SameKind(l, was, m) && Unchanged(l[n + 2..], was)
    && EndsBelow(m, low) && low <= high && PortsUpTo(m, low, high, l[..n + 1], was)
  }

  /** The first rule is deleted, or followed by a gap. */
  lemma {:induction false} Step(l: seq<CiscoRule>, was: map<CiscoRule, Proto>, n: nat, low: int, high: int,
                                protocol: string)
    requires n + 1 < |l| && Sorting.Distinct(l) && Ascending(l, was, protocol)
    requires Unfinished(l, was, n, low, high)
    requires var a, b := l[n], l[n + 1];
             && IsRange(a.prt, protocol) && IsRange(b.prt, protocol) && !b.deleted
             && OldEnds(l, was, b.prt.low, b.prt.high)
             && (if a.deleted then
                   high + 1 == was[b].low && b.prt.low == low && b.prt.high == was[b].high
                 else
                   a.prt.low == low && a.prt.high == high && high + 1 < was[b].low && b.prt == was[b] &&
                   OldEnds(l, was, a.prt.low, a.prt.high))
    ensures Joining(l, was, n + 1)
  {
    hide NowHas, WasHas, PortsUpTo, Sorting.Distinct, OldEnds;
    var m, a, b := l[..n], l[n], l[n + 1];
    Parts(l, n);
    assert 0 <= was[b].low <= was[b].high && IsRange(was[a], protocol) && IsRange(was[b], protocol);
    hide Ascending;
    MorePorts(m, low, high, l[..n + 1], was, a, b);
    hide Unchanged;
    assert NoneAdjacent(m + [a]) && EndsBelow(m + [a], b.prt.low) by {
      hide SameKind;
    }
    hide NoneAdjacent, EndsBelow, Separated;
  }

  predicate Describes(p: Proto, d: Description) {
    p.protocol == d.protocol && p.low == d.low && p.high == d.high && p.established == d.established
  }

  function LowPorts(l: seq<CiscoRule>): (r: seq<int>)
    reads l
    ensures |r| == |l| && forall k :: 0 <= k < |r| ==> r[k] == l[k].prt.low
  {
    if l == [] then [] else [l[0].prt.low] + LowPorts(l[1..])
  }

  lemma {:induction false} SortedGroup(l: seq<CiscoRule>, protocol: string, was: map<CiscoRule, Proto>,
                                       sorted: seq<(int, CiscoRule)>)
    requires Group(l, protocol) && Unchanged(l, was)
    requires |sorted| == |l| && Sorting.Distinct(sorted) && Sorting.Sorted(sorted, Sorting.ByKey)
    requires forall x :: x in sorted <==> x in Sorting.Keyed(LowPorts(l), l)
    ensures var list := Sorting.Second(sorted);
            && Sorting.Distinct(list) && Ascending(list, was, protocol) && Unchanged(list, was)
            && |list| == |sorted| && (forall r :: r in list <==> r in l) && (protocol == "tcp" || protocol == "udp")
  {
    var list := Sorting.Second(sorted);
    SortedElements(l, sorted);
    hide Sorting.Keyed, Sorting.Second, LowPorts, Sorting.Sorted;
    forall j, k | 0 <= j < k < |list|
      ensures list[j] != list[k] && was[list[j]].high < was[list[k]].low
    {
      SortedApart(l, protocol, sorted, list, j, k);
    }
  }

  /** Sorting keeps the rules. */
  lemma {:induction false} SortedElements(l: seq<CiscoRule>, sorted: seq<(int, CiscoRule)>)
    requires forall x :: x in sorted <==> x in Sorting.Keyed(LowPorts(l), l)
    ensures var list := Sorting.Second(sorted);
            && |list| == |sorted|
            && (forall k :: 0 <= k < |sorted| ==> sorted[k] == (list[k].prt.low, list[k]) && list[k] in l)
            && forall r :: r in list <==> r in l
  {
    var items, list := Sorting.Keyed(LowPorts(l), l), Sorting.Second(sorted);
    forall k | 0 <= k < |sorted|
      ensures sorted[k] == (list[k].prt.low, list[k]) && list[k] in l
    {
      assert sorted[k] in items;
    }
    forall r | r in l
      ensures r in list
    {
      var k :| 0 <= k < |l| && l[k] == r;
      assert items[k] in sorted;
      var j :| 0 <= j < |sorted| && sorted[j] == items[k];
      assert list[j] == r;
    }
  }

  lemma {:induction false} SortedApart(l: seq<CiscoRule>, protocol: string, sorted: seq<(int, CiscoRule)>,
                                       list: seq<CiscoRule>, j: nat, k: nat)
    requires Group(l, protocol) && Sorting.Distinct(sorted) && Sorting.Sorted(sorted, Sorting.ByKey)
    requires |list| == |sorted| && j < k < |list|
    requires forall i :: 0 <= i < |sorted| ==> sorted[i] == (list[i].prt.low, list[i]) && list[i] in l
    ensures list[j] != list[k] && list[j].prt.high < list[k].prt.low
  {
    assert sorted[j] != sorted[k];
    assert Sorting.Before(Sorting.ByKey(sorted[j]), Sorting.ByKey(sorted[k]));
    assert Apart(list[j].prt, list[k].prt);
  }

  lemma {:induction false} KeyedDistinct(l: seq<CiscoRule>, protocol: string)
    requires Group(l, protocol)
    ensures Sorting.Distinct(Sorting.Keyed(LowPorts(l), l)) && |Sorting.Keyed(LowPorts(l), l)| == |l|
  {
  }

  lemma {:induction false} BeginGroup(l: seq<CiscoRule>, was: map<CiscoRule, Proto>, protocol: string)
    requires l != [] && Ascending(l, was, protocol) && Unchanged(l, was)
    ensures Joining(l, was, 0)
  {
    var a := l[0];
    assert l[..0] == [] && l[..1] == [a];
    assert a in l && forall r :: r in l[1..] ==> r in l;
    assert OldEnds(l, was, a.prt.low, a.prt.high);
    forall port
      ensures WasHas([a], was, port) <==> a.prt.low <= port <= a.prt.high
    {
      WasHasMore([], was, a, port);
      assert [] + [a] == [a];
    }
  }

  lemma {:induction false} EndGroup(l: seq<CiscoRule>, was: map<CiscoRule, Proto>)
    requires l != [] && Joining(l, was, |l| - 1)
    ensures Joined(l, was)
  {
    var n := |l| - 1;
    var m, a := l[..n], l[n];
    assert l == m + [a] && l[..n + 1] == l;
    assert PortsKept(l, was) by {
      hide NowHas, WasHas, NoneAdjacent, SameKind;
      forall port
        ensures NowHas(l, port) <==> WasHas(l, was, port)
      {
        NowHasMore(m, a, port);
      }
    }
    hide PortsKept, PortsUpTo, OldEnds;
  }

  lemma {:induction false} SameRules(l: seq<CiscoRule>, m: seq<CiscoRule>, was: map<CiscoRule, Proto>)
    requires Joined(l, was) && forall r :: r in l <==> r in m
    ensures Joined(m, was)
  {
    forall port
      ensures NowHas(l, port) <==> NowHas(m, port)
      ensures WasHas(l, was, port) <==> WasHas(m, was, port)
    {
    }
    hide NowHas, WasHas;
  }

  class Joiner {
    var prt2obj: map<string, Proto>

    /** Protocols are stored under the name from which they have been created. */
    ghost predicate Valid()
      reads this
    {
      forall n :: n in prt2obj ==> Describes(prt2obj[n], ParsePrt(n))
    }

    method GetPrtObj(name: string) returns (p: Proto)
      requires Valid()
      modifies this
      ensures Valid() && Describes(p, ParsePrt(name))
      ensures forall n :: n in old(prt2obj) ==> n in prt2obj && prt2obj[n] == old(prt2obj)[n]
    {
      if name !in prt2obj {
        var d := ParsePrt(name);
        var obj := new Proto(d.protocol, d.low, d.high, d.established);
        prt2obj := prt2obj[name := obj];
      }
      p := prt2obj[name];
    }

    /** Joins adjacent ranges of rules that differ only in their ports. */
    method JoinGroup(l: seq<CiscoRule>, protocol: string, ghost was: map<CiscoRule, Proto>)
      requires Valid() && Group(l, protocol) && Unchanged(l, was)
      requires l != []
      modifies this, set r | r in l
      ensures Valid() && Joined(l, was)
    {
      hide Unchanged, Joined, Joining, Ascending, Group, Sorting.Sorted, Sorting.Distinct, Sorting.Keyed;
      hide Sorting.Second, LowPorts;
      var items := Sorting.Keyed(LowPorts(l), l);
      var sorted := Sorting.Sort(items, Sorting.ByKey);
      Sorting.SameElements(sorted, items);
      KeyedDistinct(l, protocol);
      Sorting.DistinctSame(sorted, items);
      var list := Sorting.Second(sorted);
      SortedGroup(l, protocol, was, sorted);
      JoinSorted(list, protocol, was);
      SameRules(list, l, was);
    }

    method JoinSorted(list: seq<CiscoRule>, protocol: string, ghost was: map<CiscoRule, Proto>)
      requires Valid() && Sorting.Distinct(list) && Unchanged(list, was) && Ascending(list, was, protocol)
      requires list != [] && (protocol == "tcp" || protocol == "udp")
      modifies this, set r | r in list
      ensures Valid() && Joined(list, was)
    {
      hide Joining, Joined, Ascending, Unchanged, Sorting.Distinct;
      BeginGroup(list, was, protocol);
      var i := 1;
      while i < |list|
        invariant 0 < i <= |list| && Valid() && Joining(list, was, i - 1)
      {
        JoinPair(list, i - 1, protocol, was);
        i := i + 1;
      }
      EndGroup(list, was);
    }

    /** Compares the ranges of two consecutive rules. */
    method JoinPair(list: seq<CiscoRule>, n: nat, protocol: string, ghost was: map<CiscoRule, Proto>)
      requires n + 1 < |list| && (protocol == "tcp" || protocol == "udp")
      requires Valid() && Sorting.Distinct(list) && Ascending(list, was, protocol) && Joining(list, was, n)
      modifies this, {list[n]}`deleted, {list[n + 1]}`prt
      ensures Valid() && Joining(list, was, n + 1)
    {
      hide Joining, Joined, Ascending, Unchanged, Unfinished, OldEnds, Sorting.Distinct;
      hide ParsePrt, GenPortName;
      var ruleA, ruleB := list[n], list[n + 1];
      var a1, a2 := ruleA.prt.low, ruleA.prt.high;
      var b1, b2 := ruleB.prt.low, ruleB.prt.high;
      Parts(list, n);
      Compare(list, was, n, protocol);
      if a2 + 1 == b1 {
        var name := GenPortName(protocol, a1, b2);
        NameRoundTrip(protocol, a1, b2);
        ruleB.prt := GetPrtObj(name);
        ruleA.deleted := true;
      }
      Step(list, was, n, a1, a2, protocol);
    }

    /** Joins the rules of each group, and returns the rules that are not deleted. */
    method JoinRanges(rules: seq<CiscoRule>)
      returns (r: seq<CiscoRule>, groups: map<(Key, string), seq<CiscoRule>>)
      requires Valid() && Joinable(rules)
      modifies this, set x | x in rules
      ensures Valid() && AllJoined(rules, old(Prts(rules)), groups)
      ensures r == Remaining(rules)
    {
      hide GroupsOf, Group, Unchanged, Joined, OthersUnchanged, Sorting.Distinct, Remaining, AllJoined;
      ghost var was := Prts(rules);
      groups := Collect(rules, was);
      GroupsJoinable(rules, was, groups);
      JoinAll(rules, groups, was);
      r := Filter(rules);
    }

    method JoinAll(rules: seq<CiscoRule>, key2rules: map<(Key, string), seq<CiscoRule>>,
                   ghost was: map<CiscoRule, Proto>)
      requires Valid() && GroupsOf(rules, was, key2rules) && OthersUnchanged(rules, was)
      requires forall k :: k in key2rules ==>
                 key2rules[k] != [] && Group(key2rules[k], k.1) && Unchanged(key2rules[k], was)
      modifies this, set x | x in rules
      ensures Valid() && AllJoined(rules, was, key2rules)
    {
      hide GroupsOf, Group, Unchanged, Joined;
      var keys := key2rules.Keys;
      while keys != {}
        invariant keys <= key2rules.Keys && Valid()
        invariant forall k :: k in keys ==> Group(key2rules[k], k.1) && Unchanged(key2rules[k], was)
        invariant forall k :: k in key2rules && k !in keys ==> Joined(key2rules[k], was)
        invariant GroupsOf(rules, was, key2rules) && OthersUnchanged(rules, was)
        decreases keys
      {
        var k :| k in keys;
        keys := keys - {k};
        GroupsApart(rules, was, key2rules, k);
        JoinGroup(key2rules[k], k.1, was);
      }
      AllDone(rules, was, key2rules);
    }
  }

  lemma {:induction false} AllDone(rules: seq<CiscoRule>, was: map<CiscoRule, Proto>,
                                   groups: map<(Key, string), seq<CiscoRule>>)
    requires GroupsOf(rules, was, groups) && OthersUnchanged(rules, was)
    requires forall k :: k in groups ==> Joined(groups[k], was)
    ensures AllJoined(rules, was, groups)
  {
    hide Joined, OthersUnchanged;
    forall k | k in groups
      ensures forall i :: 0 <= i < |groups[k]| ==> groups[k][i] in rules
    {
      assert forall i :: 0 <= i < |groups[k]| ==> groups[k][i] in groups[k];
    }
  }

  method Filter(rules: seq<CiscoRule>) returns (r: seq<CiscoRule>)
    ensures r == Remaining(rules)
  {
    r := [];
    var n := 0;
    while n < |rules|
      invariant 0 <= n <= |rules| && r == Remaining(rules[..n])
    {
      assert rules[..n + 1][..n] == rules[..n];
      if !rules[n].deleted {
        r := r + [rules[n]];
      }
      n := n + 1;
    }
    assert rules[..|rules|] == rules;
  }

  // -------------------------------------------------------------------- all groups

  ghost function Prts(rules: seq<CiscoRule>): map<CiscoRule, Proto>
    reads rules
  {
    map r | r in rules :: r.prt
  }

  function Remaining(rules: seq<CiscoRule>): seq<CiscoRule>
    reads rules
  {
    if rules == [] then [] else
      var n := |rules| - 1;
      Remaining(rules[..n]) + if rules[n].deleted then [] else [rules[n]]
  }

  /** The rules have been optimized: ranges of a group do not overlap. */
  ghost predicate Joinable(rules: seq<CiscoRule>)
    reads rules, set r | r in rules :: r.prt
  {
    && Sorting.Distinct(rules) && (forall r :: r in rules ==> !r.deleted)
    && (forall r :: r in rules && r.prt.hasNeighbor ==>
          && (r.prt.protocol == "tcp" || r.prt.protocol == "udp") && !r.prt.established
          && 0 <= r.prt.low <= r.prt.high <= MAX_INT)
    && (forall r, s | r in rules && s in rules && r.prt.hasNeighbor && s.prt.hasNeighbor ::
          r != s && r.key == s.key && r.prt.protocol == s.prt.protocol ==> Apart(r.prt, s.prt))
  }

  /** Each rule with a neighbor belongs to the group of its key. */
  ghost predicate GroupsOf(rules: seq<CiscoRule>, was: map<CiscoRule, Proto>,
                           groups: map<(Key, string), seq<CiscoRule>>)
    reads was.Values
  {
    && (forall r :: r in rules ==> r in was) && (forall r :: r in was ==> r in rules)
    && (forall k :: k in groups ==> forall r :: r in groups[k] ==>
          r in rules && r in was && was[r].hasNeighbor && !was[r].established && k == (r.key, was[r].protocol))
    && (forall r | r in was && was[r].hasNeighbor ::
          var k := (r.key, was[r].protocol); k in groups && r in groups[k])
  }

  ghost predicate OthersUnchanged(rules: seq<CiscoRule>, was: map<CiscoRule, Proto>)
    reads rules, was.Values
  {
    forall r :: r in rules && r in was && !was[r].hasNeighbor ==> r.prt == was[r] && !r.deleted
  }

  ghost predicate AllJoined(rules: seq<CiscoRule>, was: map<CiscoRule, Proto>,
                            groups: map<(Key, string), seq<CiscoRule>>)
    reads rules, was.Values
  {
    && GroupsOf(rules, was, groups) && OthersUnchanged(rules, was)
    && forall k :: k in groups ==>
         (forall i :: 0 <= i < |groups[k]| ==> groups[k][i] in rules) && Joined(groups[k], was)
  }

  method Collect(rules: seq<CiscoRule>, ghost was: map<CiscoRule, Proto>)
    returns (key2rules: map<(Key, string), seq<CiscoRule>>)
    requires Joinable(rules) && was == Prts(rules)
    ensures GroupsOf(rules, was, key2rules)
    ensures forall k :: k in key2rules ==> key2rules[k] != [] && Sorting.Distinct(key2rules[k])
  {
    key2rules := map[];
    var n := 0;
    while n < |rules|
      invariant 0 <= n <= |rules|
      invariant forall k :: k in key2rules ==> key2rules[k] != [] && Sorting.Distinct(key2rules[k])
      invariant forall k :: k in key2rules ==> forall r :: r in key2rules[k] ==>
                  r in rules[..n] && r.prt.hasNeighbor && k == (r.key, r.prt.protocol)
      invariant forall r | r in rules[..n] && r.prt.hasNeighbor ::
                  var k := (r.key, r.prt.protocol); k in key2rules && r in key2rules[k]
    {
      var r := rules[n];
      assert rules[..n + 1] == rules[..n] + [r] && r !in rules[..n];
      if r.prt.hasNeighbor {
        var k := (r.key, r.prt.protocol);
        var list := if k in key2rules then key2rules[k] else [];
        key2rules := key2rules[k := list + [r]];
      }
      n := n + 1;
    }
    assert rules[..|rules|] == rules;
  }

  lemma {:induction false} GroupsJoinable(rules: seq<CiscoRule>, was: map<CiscoRule, Proto>,
                                          groups: map<(Key, string), seq<CiscoRule>>)
    requires Joinable(rules) && was == Prts(rules) && GroupsOf(rules, was, groups)
    requires forall k :: k in groups ==> groups[k] != [] && Sorting.Distinct(groups[k])
    ensures forall k :: k in groups ==> Group(groups[k], k.1) && Unchanged(groups[k], was)
    ensures OthersUnchanged(rules, was)
  {
    forall k | k in groups
      ensures Group(groups[k], k.1) && Unchanged(groups[k], was)
    {
      var r := groups[k][0];
      assert r in groups[k];
    }
  }

  lemma {:induction false} GroupsApart(rules: seq<CiscoRule>, was: map<CiscoRule, Proto>,
                                       groups: map<(Key, string), seq<CiscoRule>>, k: (Key, string))
    requires GroupsOf(rules, was, groups) && k in groups
    ensures forall r :: r in groups[k] ==> r in rules && was[r].hasNeighbor
    ensures forall j, r :: j in groups && j != k && r in groups[j] ==> r !in groups[k]
  {
  }

  // ----------------------------------------------------------------------- results

  lemma {:induction false} RemainingIs(rules: seq<CiscoRule>, r: CiscoRule)
    ensures r in Remaining(rules) <==> r in rules && !r.deleted
  {
    if rules != [] {
      var n := |rules| - 1;
      RemainingIs(rules[..n], r);
      assert rules == rules[..n] + [rules[n]];
    }
  }

  /** Some rule with this key permits or denies the port now. */
  ghost predicate KeyHas(rules: seq<CiscoRule>, key: Key, protocol: string, port: int)
    reads rules
  {
    exists r :: r in rules && !r.deleted && r.key == key && IsRange(r.prt, protocol) && Has(r.prt, port)
  }

  ghost predicate KeyHad(rules: seq<CiscoRule>, was: map<CiscoRule, Proto>, key: Key, protocol: string, port: int) {
    exists r :: r in rules && r in was && r.key == key && IsRange(was[r], protocol) && Has(was[r], port)
  }

  /** Joining neither loses nor adds a port under any key. */
  lemma {:induction false} KeyPortsKept(rules: seq<CiscoRule>, was: map<CiscoRule, Proto>,
                                        groups: map<(Key, string), seq<CiscoRule>>,
                                        key: Key, protocol: string, port: int)
    requires AllJoined(rules, was, groups)
    ensures KeyHas(rules, key, protocol, port) <==> KeyHad(rules, was, key, protocol, port)
  {
    hide NoneAdjacent, OldEnds, Has;
    var k := (key, protocol);
    if KeyHas(rules, key, protocol, port) {
      var r :| r in rules && !r.deleted && r.key == key && IsRange(r.prt, protocol) && Has(r.prt, port);
      if was[r].hasNeighbor {
        var g := groups[(r.key, was[r].protocol)];
        assert NowHas(g, port);
        var s :| s in g && s in was && Has(was[s], port);
        assert r in g && s in rules;
      }
    }
    if KeyHad(rules, was, key, protocol, port) {
      var r :| r in rules && r in was && r.key == key && IsRange(was[r], protocol) && Has(was[r], port);
      if was[r].hasNeighbor {
        var g := groups[k];
        assert WasHas(g, was, port);
        var s :| s in g && !s.deleted && Has(s.prt, port);
        assert s in rules;
      } else {
        assert r.prt == was[r];
      }
    }
  }

  /** A rule keeps its protocol, and without neighbor everything else. */
  lemma {:induction false} KindKept(rules: seq<CiscoRule>, was: map<CiscoRule, Proto>,
                                    groups: map<(Key, string), seq<CiscoRule>>, r: CiscoRule)
    requires AllJoined(rules, was, groups) && r in rules
    ensures r in was && r.prt.protocol == was[r].protocol && r.prt.established == was[r].established
    ensures !was[r].hasNeighbor ==> r.prt == was[r] && !r.deleted
  {
    hide NoneAdjacent, PortsKept, OldEnds;
    if was[r].hasNeighbor {
      assert r in groups[(r.key, was[r].protocol)];
    }
  }

  /** A range in the result starts and ends like old ranges with the same key. */
  lemma {:induction false} OldBounds(rules: seq<CiscoRule>, was: map<CiscoRule, Proto>,
                                     groups: map<(Key, string), seq<CiscoRule>>, r: CiscoRule)
    returns (s: CiscoRule, t: CiscoRule)
    requires AllJoined(rules, was, groups) && r in rules && !r.deleted
    ensures s in was && t in was && r.prt.low == was[s].low && r.prt.high == was[t].high
    ensures !was[r].hasNeighbor ==> s == r && t == r
    ensures was[r].hasNeighbor ==>
              was[s].protocol == was[r].protocol && was[t].protocol == was[r].protocol &&
              !was[s].established && !was[t].established && r.prt.low <= r.prt.high
  {
    hide NoneAdjacent, PortsKept, Has;
    if was[r].hasNeighbor {
      var g := groups[(r.key, was[r].protocol)];
      assert r in g;
      assert OldEnds(g, was, r.prt.low, r.prt.high);
      s, t :| s in g && t in g && s in was && t in was && r.prt.low == was[s].low && r.prt.high == was[t].high;
    } else {
      s, t := r, r;
    }
  }

  /** If exactly the ranges with a neighbor have been marked, then no two adjacent ranges
      remain under one key. */
  lemma {:induction false} NoNeighborsRemain(rules: seq<CiscoRule>, was: map<CiscoRule, Proto>,
                                             groups: map<(Key, string), seq<CiscoRule>>,
                                             l: seq<Proto>, protocol: string, r: CiscoRule, s: CiscoRule)
    requires AllJoined(rules, was, groups) && NeighborsMarked(l)
    requires forall x :: x in was && IsRange(was[x], protocol) ==> was[x] in l && was[x].low <= was[x].high
    requires r in rules && s in rules && r != s && !r.deleted && !s.deleted && r.key == s.key
    requires r in was && s in was && IsRange(was[r], protocol) && IsRange(was[s], protocol)
    ensures !r.prt.Adjacent(s.prt)
  {
    hide NeighborsMarked, Joined, OthersUnchanged;
    if was[r].hasNeighbor && was[s].hasNeighbor {
      GroupSeparated(rules, was, groups, r, s);
    } else {
      var r1, r2 := OldBounds(rules, was, groups, r);
      var s1, s2 := OldBounds(rules, was, groups, s);
      if r.prt.Adjacent(s.prt) {
        BothMarked(l, was[r2], was[s1]);
      }
    }
  }

  lemma {:induction false} BothMarked(l: seq<Proto>, p: Proto, q: Proto)
    requires NeighborsMarked(l) && p in l && q in l && p.Adjacent(q)
    ensures p.hasNeighbor && q.hasNeighbor
  {
    assert HasAdjacent(l, p) && HasAdjacent(l, q);
  }

  lemma {:induction false} GroupSeparated(rules: seq<CiscoRule>, was: map<CiscoRule, Proto>,
                                          groups: map<(Key, string), seq<CiscoRule>>, r: CiscoRule, s: CiscoRule)
    requires AllJoined(rules, was, groups)
    requires r in rules && s in rules && r != s && !r.deleted && !s.deleted && r.key == s.key
    requires r in was && s in was && was[r].hasNeighbor && was[s].hasNeighbor && was[r].protocol == was[s].protocol
    ensures !r.prt.Adjacent(s.prt)
  {
    hide PortsKept, Has;
    var g := groups[(r.key, was[r].protocol)];
    assert r in g && s in g;
    assert Separated(r.prt, s.prt) && r.prt.low <= r.prt.high && s.prt.low <= s.prt.high;
  }
}
