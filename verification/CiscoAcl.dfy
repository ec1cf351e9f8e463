/** The way of the rules of a Cisco ACL through pass 2 (go/cmd/spoc2/main.go:2377-2386):
    first `optimizeRules`, then `joinRanges`.

    Both are seen at the same rules: a port range of `JoinRanges` stands for a protocol
    of `AclSpec`, whose `up` chain follows the links set by `orderRanges`.
  */
module CiscoAcl {
  import opened Wrappers
  import opened PortRanges
  import PortNames
  import Prefixes
  import Sorting
  import A = AclSpec
  import J = JoinRanges

  type Values = map<Proto, A.Proto>

  /** Each protocol has its own value, with the value of `up` above it. */
  ghost predicate Represents(value: Values)
    reads value.Keys`up
  {
    && (forall p :: p in value && p.up == null ==> value[p].up == None)
    && (forall p :: p in value && p.up != null ==> p.up in value && value[p].up == Some(value[p.up]))
    && (forall p, q :: p in value && q in value && value[p] == value[q] ==> p == q)
  }

  /** The ranges of one protocol, as `orderRanges` leaves them. */
  ghost predicate Arranged(value: Values, l: seq<Proto>, protocol: string, up: Proto)
    reads l
  {
    && (protocol == "tcp" || protocol == "udp") && Linked(l, up) && NestedOrDisjoint(l)
    && forall p :: p in l ==> p in value && IsRange(p, protocol) && 0 <= p.low <= p.high <= PortNames.MAX_INT
  }

  /** The value of a range lies below the values of all ranges around it. */
  lemma {:induction false} InsideBelow(value: Values, l: seq<Proto>, protocol: string, up: Proto, p: Proto, q: Proto)
    requires Represents(value) && Arranged(value, l, protocol, up) && p in l && q in l && p.Inside(q)
    ensures value[p].Below(value[q])
    decreases value[p]
  {
    if p != q {
      InsideBelow(value, l, protocol, up, p.up, q);
    }
  }

  // --------------------------------------------------------------- after optimizing

  /** The rule, with range `prt`. */
  function RuleOf(r: J.CiscoRule, prt: Proto, value: Values): A.Rule
    requires prt in value
  {
    A.Rule(r.key.deny, r.key.src, r.key.dst, value[prt], r.key.srcRange, r.key.log, false)
  }

  /** The list has exactly the rules that remain after optimization. */
  ghost predicate Optimized(rules: seq<J.CiscoRule>, was: map<J.CiscoRule, Proto>, value: Values, acl: A.Acl,
                            at: seq<nat>) {
    && |at| == |rules| && (forall j, k :: 0 <= j < k < |at| ==> at[j] < at[k])
    && (forall k :: 0 <= k < |at| ==> at[k] < |acl.rules| && !acl.Deleted(at[k]))
    && (forall i :: 0 <= i < |acl.rules| && !acl.Deleted(i) ==> i in at)
    && (forall k :: 0 <= k < |rules| ==>
          && rules[k] in was && was[rules[k]] in value
          && RuleOf(rules[k], was[rules[k]], value) == acl.New(at[k]).(optSecondary := false))
  }

  /** Ranges of different remaining rules with the same key do not overlap. */
  lemma OptimizedApart(rules: seq<J.CiscoRule>, was: map<J.CiscoRule, Proto>, value: Values, acl: A.Acl, at: seq<nat>,
                       l: seq<Proto>, protocol: string, up: Proto, j: nat, k: nat)
    requires Optimized(rules, was, value, acl, at) && Represents(value) && acl.BelowIP()
    requires Arranged(value, l, protocol, up)
    requires j < |rules| && k < |rules| && j != k && rules[j].key == rules[k].key
    requires was[rules[j]] in l && was[rules[k]] in l
    ensures J.Apart(was[rules[j]], was[rules[k]])
  {
    hide A.Acl.Deleted, A.Acl.New, A.Acl.BelowIP, Linked;
    var p, q := was[rules[j]], was[rules[k]];
    SameLog(acl, at[j]);
    SameLog(acl, at[k]);
    if p.Inside(q) {
      InsideBelow(value, l, protocol, up, p, q);
      A.RemainingUncovered(acl, at[k], at[j]);
    }
    if q.Inside(p) {
      InsideBelow(value, l, protocol, up, q, p);
      A.RemainingUncovered(acl, at[j], at[k]);
    }
  }

  lemma SameLog(acl: A.Acl, i: nat)
    requires i < |acl.rules|
    ensures acl.New(i).log == acl.rules[i].log
  {}

  /** Marked ranges belong to one of the lists. */
  ghost predicate MarkedListed(rules: seq<J.CiscoRule>, was: map<J.CiscoRule, Proto>, tcp: seq<Proto>, udp: seq<Proto>)
    reads was.Values
  {
    forall r :: r in rules && r in was && was[r].hasNeighbor ==> was[r] in tcp || was[r] in udp
  }

  /** What `joinRanges` relies on is established by `orderRanges` and `optimizeRules`. */
  lemma OptimizedJoinable(rules: seq<J.CiscoRule>, value: Values, acl: A.Acl, at: seq<nat>,
                          tcp: seq<Proto>, udp: seq<Proto>, up: Proto)
    requires Sorting.Distinct(rules) && forall r :: r in rules ==> !r.deleted
    requires Optimized(rules, J.Prts(rules), value, acl, at) && Represents(value) && acl.BelowIP()
    requires Arranged(value, tcp, "tcp", up) && Arranged(value, udp, "udp", up)
    requires MarkedListed(rules, J.Prts(rules), tcp, udp)
    ensures J.Joinable(rules)
  {
    var was := J.Prts(rules);
    hide Represents, Optimized, A.Acl.BelowIP, Linked, NestedOrDisjoint, J.Apart;
    forall r, s | r in rules && s in rules && r.prt.hasNeighbor && s.prt.hasNeighbor &&
                  r != s && r.key == s.key && r.prt.protocol == s.prt.protocol
      ensures J.Apart(r.prt, s.prt)
    {
      var j :| 0 <= j < |rules| && rules[j] == r;
      var k :| 0 <= k < |rules| && rules[k] == s;
      if r.prt in tcp {
        OptimizedApart(rules, was, value, acl, at, tcp, "tcp", up, j, k);
      } else {
        OptimizedApart(rules, was, value, acl, at, udp, "udp", up, j, k);
      }
    }
  }

  // ----------------------------------------------------------------------- decisions

  predicate HasPorts(p: Proto) {
    (p.protocol == "tcp" || p.protocol == "udp") && !p.established
  }

  /** The packet belongs to exactly those port ranges of its protocol that have its port. */
  ghost predicate PortIs(p: A.Packet, value: Values, protocol: string, port: int) {
    forall q :: q in value && (q.protocol == "tcp" || q.protocol == "udp") && !q.established ==>
      (value[q] in p.prts <==> q.protocol == protocol && J.Has(q, port))
  }

  /** A rule with range `prt` matches the packet: ranges by port, other protocols as such. */
  ghost predicate Matches(key: J.Key, prt: Proto, value: Values, p: A.Packet, protocol: string, port: int) {
    && key.src.net.Has(p.src) && key.dst.net.Has(p.dst)
    && (key.srcRange.Some? ==> key.srcRange.value in p.srcRanges)
    && if (prt.protocol == "tcp" || prt.protocol == "udp") && !prt.established
       then prt.protocol == protocol && J.Has(prt, port)
       else prt in value && value[prt] in p.prts
  }

  ghost predicate WasMatched(rules: seq<J.CiscoRule>, was: map<J.CiscoRule, Proto>, deny: bool, value: Values,
                             p: A.Packet, protocol: string, port: int)
  {
    exists r :: r in rules && r in was && r.key.deny == deny && Matches(r.key, was[r], value, p, protocol, port)
  }

  ghost predicate NowMatched(rules: seq<J.CiscoRule>, deny: bool, value: Values,
                             p: A.Packet, protocol: string, port: int)
    reads rules
  {
    exists r :: r in rules && r.key.deny == deny && Matches(r.key, r.prt, value, p, protocol, port)
  }

  lemma MatchesByKey(rules: seq<J.CiscoRule>, was: map<J.CiscoRule, Proto>,
                     groups: map<(J.Key, string), seq<J.CiscoRule>>,
                     deny: bool, value: Values, p: A.Packet, protocol: string, port: int)
    requires J.AllJoined(rules, was, groups) && forall r :: r in was && was[r].hasNeighbor ==> HasPorts(was[r])
    ensures NowMatched(J.Remaining(rules), deny, value, p, protocol, port) <==>
            WasMatched(rules, was, deny, value, p, protocol, port)
  {
    hide J.AllJoined, J.KeyHas, J.KeyHad, J.Remaining;
    if r :| r in J.Remaining(rules) && r.key.deny == deny && Matches(r.key, r.prt, value, p, protocol, port) {
      J.RemainingIs(rules, r);
      NowWas(rules, was, groups, r, value, p, protocol, port);
    }
    if r :| r in rules && r in was && r.key.deny == deny && Matches(r.key, was[r], value, p, protocol, port) {
      var s := WasNow(rules, was, groups, r, value, p, protocol, port);
      J.RemainingIs(rules, s);
    }
  }

  lemma NowWas(rules: seq<J.CiscoRule>, was: map<J.CiscoRule, Proto>, groups: map<(J.Key, string), seq<J.CiscoRule>>,
               r: J.CiscoRule, value: Values, p: A.Packet, protocol: string, port: int)
    requires J.AllJoined(rules, was, groups) && forall r :: r in was && was[r].hasNeighbor ==> HasPorts(was[r])
    requires r in rules && !r.deleted && Matches(r.key, r.prt, value, p, protocol, port)
    ensures exists s :: s in rules && s in was && s.key == r.key && Matches(s.key, was[s], value, p, protocol, port)
  {
    J.KeyPortsKept(rules, was, groups, r.key, protocol, port);
    J.KindKept(rules, was, groups, r);
    hide J.AllJoined, J.Has;
    if HasPorts(r.prt) {
      assert J.KeyHas(rules, r.key, protocol, port);
      var s :| s in rules && s in was && s.key == r.key && IsRange(was[s], protocol) && J.Has(was[s], port);
    }
  }

  lemma WasNow(rules: seq<J.CiscoRule>, was: map<J.CiscoRule, Proto>, groups: map<(J.Key, string), seq<J.CiscoRule>>,
               r: J.CiscoRule, value: Values, p: A.Packet, protocol: string, port: int) returns (s: J.CiscoRule)
    requires J.AllJoined(rules, was, groups) && forall r :: r in was && was[r].hasNeighbor ==> HasPorts(was[r])
    requires r in rules && r in was && Matches(r.key, was[r], value, p, protocol, port)
    ensures s in rules && !s.deleted && s.key == r.key && Matches(s.key, s.prt, value, p, protocol, port)
  {
    J.KeyPortsKept(rules, was, groups, r.key, protocol, port);
    J.KindKept(rules, was, groups, r);
    hide J.AllJoined, J.Has;
    if HasPorts(was[r]) {
      assert J.KeyHad(rules, was, r.key, protocol, port);
      s :| s in rules && !s.deleted && s.key == r.key && IsRange(s.prt, protocol) && J.Has(s.prt, port);
    } else {
      s := r;
    }
  }

  /** The value of a rule matches like its range. */
  lemma ValueMatches(rules: seq<J.CiscoRule>, was: map<J.CiscoRule, Proto>, value: Values, acl: A.Acl, at: seq<nat>,
                     k: nat, p: A.Packet, protocol: string, port: int)
    requires Optimized(rules, was, value, acl, at) && PortIs(p, value, protocol, port) && k < |rules|
    ensures |at| == |rules| && at[k] < |acl.rules| && rules[k] in was && acl.New(at[k]).deny == rules[k].key.deny
    ensures acl.New(at[k]).Matches(p) <==> Matches(rules[k].key, was[rules[k]], value, p, protocol, port)
  {
    hide A.Acl.Deleted, A.Acl.New, J.Has, Prefixes.Prefix.Has;
    var q := acl.New(at[k]);
    assert q.Matches(p) <==> RuleOf(rules[k], was[rules[k]], value).Matches(p);
  }

  /** The optimized rules decide like their ranges. */
  lemma OptimizedMatches(rules: seq<J.CiscoRule>, was: map<J.CiscoRule, Proto>, value: Values, acl: A.Acl, at: seq<nat>,
                         deny: bool, p: A.Packet, protocol: string, port: int)
    requires Optimized(rules, was, value, acl, at) && PortIs(p, value, protocol, port)
    ensures WasMatched(rules, was, deny, value, p, protocol, port) <==>
            exists q :: q in A.After(acl) && q.deny == deny && q.Matches(p)
  {
    hide A.Acl.Deleted, A.Acl.New, Matches, A.Rule.Matches, PortIs, Optimized, A.After;
    if r :| r in rules && r in was && r.key.deny == deny && Matches(r.key, was[r], value, p, protocol, port) {
      var k :| 0 <= k < |rules| && rules[k] == r;
      ValueMatches(rules, was, value, acl, at, k, p, protocol, port);
      RemainsAt(rules, was, value, acl, at, k);
    }
    if q :| q in A.After(acl) && q.deny == deny && q.Matches(p) {
      var k := IndexOf(rules, was, value, acl, at, q);
      ValueMatches(rules, was, value, acl, at, k, p, protocol, port);
      assert rules[k] in rules;
    }
  }

  lemma RemainsAt(rules: seq<J.CiscoRule>, was: map<J.CiscoRule, Proto>, value: Values, acl: A.Acl, at: seq<nat>,
                  k: nat)
    requires Optimized(rules, was, value, acl, at) && k < |rules|
    ensures |at| == |rules| && at[k] < |acl.rules| && acl.New(at[k]) in A.After(acl)
  {
    hide A.Acl.Deleted, A.Acl.New;
  }

  lemma IndexOf(rules: seq<J.CiscoRule>, was: map<J.CiscoRule, Proto>, value: Values, acl: A.Acl, at: seq<nat>,
                q: A.Rule)
    returns (k: nat)
    requires Optimized(rules, was, value, acl, at) && q in A.After(acl)
    ensures k < |rules| == |at| && at[k] < |acl.rules| && acl.New(at[k]) == q
  {
    hide A.Acl.Deleted, A.Acl.New;
    var i :| 0 <= i < |acl.rules| && !acl.Deleted(i) && acl.New(i) == q;
    k :| 0 <= k < |at| && at[k] == i;
  }

  ghost function DecideNow(rules: seq<J.CiscoRule>, value: Values, p: A.Packet, protocol: string, port: int): A.Decision
    reads rules
  {
    if NowMatched(rules, true, value, p, protocol, port) then A.Denied
    else if NowMatched(rules, false, value, p, protocol, port) then A.Permitted
    else A.NoMatch
  }

  /** Joins the optimized rules.  What remains decides each packet like the optimized
      rules, and without secondary rules like the original ones. */
  method JoinOptimized(joiner: J.Joiner, rules: seq<J.CiscoRule>, ghost value: Values, ghost acl: A.Acl,
                       ghost at: seq<nat>,
                       ghost tcp: seq<Proto>, ghost udp: seq<Proto>, ghost up: Proto) returns (r: seq<J.CiscoRule>)
    requires joiner.Valid() && acl.Valid() && acl.BelowIP()
    requires Sorting.Distinct(rules) && forall r :: r in rules ==> !r.deleted
    requires Optimized(rules, J.Prts(rules), value, acl, at) && Represents(value)
    requires Arranged(value, tcp, "tcp", up) && Arranged(value, udp, "udp", up)
    requires MarkedListed(rules, J.Prts(rules), tcp, udp)
    modifies joiner, set x | x in rules
    ensures r == J.Remaining(rules)
    ensures forall p: A.Packet, protocol, port :: p.Real(acl.prtIP) && PortIs(p, value, protocol, port) ==>
              DecideNow(r, value, p, protocol, port) == A.Decide(A.After(acl), p)
    ensures A.NoSecondary(acl) ==>
              forall p: A.Packet, protocol, port :: p.Real(acl.prtIP) && PortIs(p, value, protocol, port) ==>
                DecideNow(r, value, p, protocol, port) == A.Decide(A.Before(acl), p)
  {
    hide J.Joinable, J.AllJoined, J.Remaining, Represents, Optimized, PortIs, NowMatched, WasMatched, Linked;
    hide A.Acl.Valid, A.Acl.BelowIP, A.NoSecondary;
    ghost var was := J.Prts(rules);
    OptimizedJoinable(rules, value, acl, at, tcp, udp, up);
    var groups;
    r, groups := joiner.JoinRanges(rules);
    forall p: A.Packet, protocol, port | p.Real(acl.prtIP) && PortIs(p, value, protocol, port)
      ensures DecideNow(r, value, p, protocol, port) == A.Decide(A.After(acl), p)
      ensures A.NoSecondary(acl) ==> A.Decide(A.After(acl), p) == A.Decide(A.Before(acl), p)
    {
      MatchesByKey(rules, was, groups, true, value, p, protocol, port);
      MatchesByKey(rules, was, groups, false, value, p, protocol, port);
      OptimizedMatches(rules, was, value, acl, at, true, p, protocol, port);
      OptimizedMatches(rules, was, value, acl, at, false, p, protocol, port);
      if A.NoSecondary(acl) {
        A.OptimizeKeepsDecisions(acl, p);
      }
    }
  }
}
