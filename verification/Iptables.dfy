/** The target machine of the chain compiler: iptables rules and chains.

    A rule tests up to four attributes of a packet and then either decides,
    calls a chain (`-j`), or continues in a chain (`-g`).  A called chain
    returns behind the calling rule; a chain entered by goto returns to where
    the current chain would have returned to, so the rest of the current
    chain is skipped.
  */
module Iptables {

  import opened Wrappers

  /** The four attributes of `attrOrder`. */
  datatype Attr = SrcRange | Dst | Prt | Src

  /** A packet is known by one number per attribute: its addresses, and for
      each direction its port within its protocol. */
  datatype Packet = Packet(srcRange: int, dst: int, prt: int, src: int) {
    function Get(a: Attr): int {
      match a
      case SrcRange => srcRange
      case Dst => dst
      case Prt => prt
      case Src => src
    }
  }

  /** A network or port range, as printed behind `-s`, `-d`, `--dport`. */
  datatype Range = Range(low: int, high: int) {
    predicate Has(v: int) {
      low <= v <= high
    }
  }

  /** `linuxRule`; a chain is known by its number. */
  datatype LinuxRule = LinuxRule(
    deny: bool, srcRange: Option<Range>, dst: Option<Range>,
    prt: Option<Range>, src: Option<Range>,
    chain: Option<nat>, useGoto: bool)
  {
    function Get(a: Attr): Option<Range> {
      match a
      case SrcRange => srcRange
      case Dst => dst
      case Prt => prt
      case Src => src
    }

    /** The setters of `attrOrder`. */
    function Set(a: Attr, r: Range): (res: LinuxRule)
      ensures res.Get(a) == Some(r)
      ensures forall b :: b != a ==> res.Get(b) == Get(b)
      ensures res.chain == chain && res.useGoto == useGoto && res.deny == deny
    {
      match a
      case SrcRange => this.(srcRange := Some(r))
      case Dst => this.(dst := Some(r))
      case Prt => this.(prt := Some(r))
      case Src => this.(src := Some(r))
    }

    predicate Match(p: Packet) {
      forall a: Attr :: Get(a).Some? ==> Get(a).value.Has(p.Get(a))
    }
  }

  type Rules = seq<LinuxRule>

  /** Rules that refer to chains below `n` only. */
  ghost predicate Closed(rules: Rules, n: nat) {
    forall i :: 0 <= i < |rules| && rules[i].chain.Some? ==> rules[i].chain.value < n
  }

  /** A chain only calls chains that have been generated before it. */
  ghost predicate ClosedChains(chains: seq<Rules>) {
    forall k :: 0 <= k < |chains| ==> Closed(chains[k], k)
  }

  // ------------------------------------------------------------- small steps

  datatype Outcome = Decided(deny: bool) | FellThrough

  /** The machine: `stack[0]` are the rules still to be tested in the current
      chain, the other elements are the return positions of its callers. */
  ghost function Run(fuel: nat, chains: seq<Rules>, p: Packet, stack: seq<Rules>): Option<Outcome>
    requires ClosedChains(chains)
    requires forall k :: 0 <= k < |stack| ==> Closed(stack[k], |chains|)
  {
    if stack == [] then Some(FellThrough)
    else if fuel == 0 then None
    else if stack[0] == [] then Run(fuel - 1, chains, p, stack[1..])
    else
      var rule, rest := stack[0][0], stack[0][1..];
      assert Closed(stack[0], |chains|) && Closed(rest, |chains|);
      if !rule.Match(p) then
        Run(fuel - 1, chains, p, [rest] + stack[1..])
      else if rule.chain.None? then
        Some(Decided(rule.deny))
      else
        var called := chains[rule.chain.value];
        ClosedMono(called, rule.chain.value, |chains|);
        if rule.useGoto then
          Run(fuel - 1, chains, p, [called] + stack[1..])
        else
          Run(fuel - 1, chains, p, [called] + ([rest] + stack[1..]))
  }

  lemma ClosedMono(rules: Rules, m: nat, n: nat)
    requires Closed(rules, m) && m <= n
    ensures Closed(rules, n)
  {}

  // ---------------------------------------------------------------- big steps

  /** Outcome of a list of rules that refers to chains below `n` only. */
  ghost function Eval(rules: Rules, chains: seq<Rules>, n: nat, p: Packet): Outcome
    requires ClosedChains(chains) && n <= |chains| && Closed(rules, n)
    decreases n, |rules|
  {
    if rules == [] then FellThrough
    else if !rules[0].Match(p) then Eval(rules[1..], chains, n, p)
    else if rules[0].chain.None? then Decided(rules[0].deny)
    else
      var c := rules[0].chain.value;
      var o := Eval(chains[c], chains, c, p);
      if o.Decided? || rules[0].useGoto then o else Eval(rules[1..], chains, n, p)
  }

  /** Behind a goto that matches, the rest of the chain does not matter. */
  lemma GotoSkips(rule: LinuxRule, rest: Rules, chains: seq<Rules>, n: nat, p: Packet)
    requires ClosedChains(chains) && n <= |chains| && Closed([rule] + rest, n) && Closed(rest, n)
    requires rule.Match(p) && rule.chain.Some? && rule.useGoto
    ensures [rule][0].chain.value < n
    ensures Eval([rule] + rest, chains, n, p) == Eval(chains[rule.chain.value], chains, rule.chain.value, p)
  {
    assert ([rule] + rest)[0] == rule && ([rule] + rest)[1..] == rest;
  }

  /** A called chain that does not decide returns behind the calling rule. */
  lemma CallReturns(rule: LinuxRule, rest: Rules, chains: seq<Rules>, n: nat, p: Packet)
    requires ClosedChains(chains) && n <= |chains| && Closed([rule] + rest, n) && Closed(rest, n)
    requires rule.Match(p) && rule.chain.Some? && !rule.useGoto
    ensures [rule][0].chain.value < n
    ensures var o := Eval(chains[rule.chain.value], chains, rule.chain.value, p);
            Eval([rule] + rest, chains, n, p) == if o.FellThrough? then Eval(rest, chains, n, p) else o
  {
    assert ([rule] + rest)[0] == rule && ([rule] + rest)[1..] == rest;
  }

  /** The machine computes `Eval`: it decides like `Eval`, and where `Eval`
      falls through it continues, with `fuel` steps left, at the return
      position on top of `callers`. */
  lemma {:induction false} RunEval(rules: Rules, chains: seq<Rules>, n: nat, p: Packet,
                                   callers: seq<Rules>, fuel: nat)
    returns (total: nat)
    requires ClosedChains(chains) && n <= |chains| && Closed(rules, n) && Closed(rules, |chains|)
    requires forall k :: 0 <= k < |callers| ==> Closed(callers[k], |chains|)
    ensures Run(total, chains, p, [rules] + callers) ==
            if Eval(rules, chains, n, p).Decided? then Some(Eval(rules, chains, n, p))
            else Run(fuel, chains, p, callers)
    decreases n, |rules|
  {
    var stack := [rules] + callers;
    assert stack[1..] == callers;
    if rules == [] {
      total := fuel + 1;
    } else {
      var rest := rules[1..];
      assert Closed(rest, |chains|);
      if !rules[0].Match(p) {
        total := RunEval(rest, chains, n, p, callers, fuel);
        total := total + 1;
      } else if rules[0].chain.None? {
        total := 1;
      } else {
        var c := rules[0].chain.value;
        ClosedMono(chains[c], c, |chains|);
        if rules[0].useGoto {
          total := RunEval(chains[c], chains, c, p, callers, fuel);
        } else {
          var back := RunEval(rest, chains, n, p, callers, fuel);
          total := RunEval(chains[c], chains, c, p, [rest] + callers, back);
        }
        total := total + 1;
      }
    }
  }

  // ------------------------------------------------- what a list of rules hits

  /** Some path of matching rules leads to a decision, whatever comes before it. */
  ghost predicate Hits(rules: Rules, chains: seq<Rules>, n: nat, p: Packet)
    requires ClosedChains(chains) && n <= |chains| && Closed(rules, n)
    decreases n, 1
  {
    exists i :: 0 <= i < |rules| && RuleHits(rules[i], chains, n, p)
  }

  ghost predicate RuleHits(rule: LinuxRule, chains: seq<Rules>, n: nat, p: Packet)
    requires ClosedChains(chains) && n <= |chains|
    requires rule.chain.Some? ==> rule.chain.value < n
    decreases n, 0
  {
    rule.Match(p) &&
    (rule.chain.Some? ==> Hits(chains[rule.chain.value], chains, rule.chain.value, p))
  }

  /** Goto is safe: a rule behind it decides nothing that the goto has matched. */
  ghost predicate GotoSafe(rules: Rules, chains: seq<Rules>, n: nat)
    requires ClosedChains(chains) && n <= |chains| && Closed(rules, n)
  {
    forall i, j, p :: 0 <= i < j < |rules| && rules[i].useGoto && rules[i].Match(p) ==>
      !RuleHits(rules[j], chains, n, p)
  }

  /** Every deciding rule has the given action. */
  ghost predicate Uniform(rules: Rules, deny: bool) {
    forall i :: 0 <= i < |rules| && rules[i].chain.None? ==> rules[i].deny == deny
  }

  ghost predicate GoodChains(chains: seq<Rules>, deny: bool) {
    && ClosedChains(chains)
    && (forall k :: 0 <= k < |chains| ==> GotoSafe(chains[k], chains, k))
    && (forall k :: 0 <= k < |chains| ==> Uniform(chains[k], deny))
  }

  /** With safe gotos, a list decides exactly what some path through it hits. */
  lemma {:induction false} EvalHits(rules: Rules, chains: seq<Rules>, n: nat, p: Packet, deny: bool)
    requires GoodChains(chains, deny) && n <= |chains| && Closed(rules, n)
    requires GotoSafe(rules, chains, n) && Uniform(rules, deny)
    ensures Eval(rules, chains, n, p) ==
            if Hits(rules, chains, n, p) then Decided(deny) else FellThrough
    decreases n, |rules|
  {
    if rules != [] {
      var r, rest := rules[0], rules[1..];
      assert forall i :: 0 <= i < |rest| ==> rest[i] == rules[i + 1];
      EvalHits(rest, chains, n, p, deny);
      assert Hits(rules, chains, n, p) <==> RuleHits(r, chains, n, p) || Hits(rest, chains, n, p) by {
        if RuleHits(r, chains, n, p) {
          assert RuleHits(rules[0], chains, n, p);
        }
        if Hits(rest, chains, n, p) {
          var i :| 0 <= i < |rest| && RuleHits(rest[i], chains, n, p);
          assert RuleHits(rules[i + 1], chains, n, p);
        }
      }
      if r.Match(p) && r.chain.Some? {
        EvalHits(chains[r.chain.value], chains, r.chain.value, p, deny);
        if r.useGoto {
          forall i | 0 <= i < |rest|
            ensures !RuleHits(rest[i], chains, n, p)
          {
            assert !RuleHits(rules[i + 1], chains, n, p);
          }
        }
      }
    }
  }

  // --------------------------------------------------------- adding new chains

  /** Later chains do not change the meaning of a rule. */
  lemma {:induction false} HitsExtend(rules: Rules, chains: seq<Rules>, more: seq<Rules>, m: nat, n: nat, p: Packet)
    requires ClosedChains(chains) && ClosedChains(more) && chains <= more
    requires m <= |chains| && n <= |more| && Closed(rules, m) && Closed(rules, n)
    ensures Hits(rules, chains, m, p) == Hits(rules, more, n, p)
    ensures forall i :: 0 <= i < |rules| ==>
              RuleHits(rules[i], chains, m, p) == RuleHits(rules[i], more, n, p)
    decreases m
  {
    forall i | 0 <= i < |rules|
      ensures RuleHits(rules[i], chains, m, p) == RuleHits(rules[i], more, n, p)
    {
      if rules[i].chain.Some? {
        var c := rules[i].chain.value;
        HitsExtend(chains[c], chains, more, c, c, p);
      }
    }
  }

  lemma GotoSafeExtend(rules: Rules, chains: seq<Rules>, more: seq<Rules>, m: nat, n: nat)
    requires ClosedChains(chains) && ClosedChains(more) && chains <= more
    requires m <= |chains| && n <= |more| && Closed(rules, m) && Closed(rules, n)
    requires GotoSafe(rules, chains, m)
    ensures GotoSafe(rules, more, n)
  {
    forall i, j, p | 0 <= i < j < |rules| && rules[i].useGoto && rules[i].Match(p)
      ensures !RuleHits(rules[j], more, n, p)
    {
      HitsExtend(rules, chains, more, m, n, p);
    }
  }

  /** Appending a safe list as a new chain keeps all chains good. */
  lemma GoodChainsAppend(chains: seq<Rules>, rules: Rules, deny: bool)
    requires GoodChains(chains, deny) && Closed(rules, |chains|)
    requires GotoSafe(rules, chains, |chains|) && Uniform(rules, deny)
    ensures GoodChains(chains + [rules], deny)
  {
    var more := chains + [rules];
    assert ClosedChains(more);
    forall k | 0 <= k < |more|
      ensures GotoSafe(more[k], more, k)
    {
      GotoSafeExtend(more[k], chains, more, k, k);
    }
  }

  // -------------------------------------------------------------- joining lists

  lemma HitsConcat(a: Rules, b: Rules, chains: seq<Rules>, n: nat, p: Packet)
    requires ClosedChains(chains) && n <= |chains| && Closed(a, n) && Closed(b, n)
    ensures Closed(a + b, n)
    ensures Hits(a + b, chains, n, p) <==> Hits(a, chains, n, p) || Hits(b, chains, n, p)
  {
    var l := a + b;
    assert forall i :: 0 <= i < |a| ==> l[i] == a[i];
    assert forall i :: 0 <= i < |b| ==> l[|a| + i] == b[i];
    if Hits(l, chains, n, p) {
      var i :| 0 <= i < |l| && RuleHits(l[i], chains, n, p);
      assert i < |a| ==> RuleHits(a[i], chains, n, p);
      assert i >= |a| ==> RuleHits(b[i - |a|], chains, n, p);
    }
    if Hits(a, chains, n, p) {
      var i :| 0 <= i < |a| && RuleHits(a[i], chains, n, p);
      assert RuleHits(l[i], chains, n, p);
    }
    if Hits(b, chains, n, p) {
      var i :| 0 <= i < |b| && RuleHits(b[i], chains, n, p);
      assert RuleHits(l[|a| + i], chains, n, p);
    }
  }

  /** Two safe lists may be joined if no goto of the first one matches what the
      second one tests. */
  lemma GotoSafeConcat(a: Rules, b: Rules, chains: seq<Rules>, n: nat)
    requires ClosedChains(chains) && n <= |chains| && Closed(a, n) && Closed(b, n)
    requires GotoSafe(a, chains, n) && GotoSafe(b, chains, n)
    requires forall i, j, p :: 0 <= i < |a| && 0 <= j < |b| && a[i].useGoto && a[i].Match(p) ==> !b[j].Match(p)
    ensures GotoSafe(a + b, chains, n)
  {
    var l := a + b;
    forall i, j, p | 0 <= i < j < |l| && l[i].useGoto && l[i].Match(p)
      ensures !RuleHits(l[j], chains, n, p)
    {
      if j < |a| {
        assert !RuleHits(a[j], chains, n, p);
      } else if i >= |a| {
        assert !RuleHits(b[j - |a|], chains, n, p);
      } else {
        assert !b[j - |a|].Match(p);
      }
    }
  }
}
