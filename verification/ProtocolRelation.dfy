/** The relation between all protocols of an ACL (`setupPrtRelation` in
    go/cmd/spoc2/main.go, without ICMP): numeric protocols and the largest ranges of
    TCP and UDP are linked to 'ip', other ranges to the smallest range around them.
    The result is what `findChains` relies on.
  */
module ProtocolRelation {
  import opened Wrappers
  import opened Iptables
  import opened PortRanges
  import PortNames
  import RuleTrees
  import Sorting
  import G = GenprtBintree
  import P = PrtBintree

  // --------------------------------------------------------------- common numbering

  predicate IsNumeric(p: Proto) {
    p.protocol != "" && PortNames.AllDigits(p.protocol)
  }

  /** Ports in the common numbering of all protocols. */
  function RangeOf(p: Proto): Range {
    if p.protocol == "ip" then G.PRT_IP
    else if p.protocol == "tcp" then Range(G.TCP_BASE + p.low, G.TCP_BASE + p.high)
    else if p.protocol == "udp" then Range(G.UDP_BASE + p.low, G.UDP_BASE + p.high)
    else
      var n := if PortNames.AllDigits(p.protocol) then PortNames.Number(p.protocol) else 0;
      Range(G.PROTO_BASE + n, G.PROTO_BASE + n)
  }

  predicate HasPorts(p: Proto) {
    p.protocol == "tcp" || p.protocol == "udp"
  }

  predicate Proper(p: Proto) {
    && !p.established
    && (p.protocol == "ip" || HasPorts(p) || IsNumeric(p))
    && (HasPorts(p) ==> 1 <= p.low <= p.high <= 65535)
    && (PortNames.AllDigits(p.protocol) ==> PortNames.Number(p.protocol) < 0x10000)
  }

  /** Different protocols have different ports, and one of them is 'ip'. */
  ghost predicate Protocols(protos: seq<Proto>, prtIP: Proto) {
    && Sorting.Distinct(protos) && prtIP in protos && prtIP.protocol == "ip"
    && (forall p :: p in protos ==> Proper(p))
    && (forall p, q :: p in protos && q in protos && RangeOf(p) == RangeOf(q) ==> p == q)
  }

  /** Nothing has been linked or marked. */
  ghost predicate Fresh(protos: seq<Proto>)
    reads protos
  {
    forall p :: p in protos ==> p.up == null && !p.hasNeighbor
  }

  ghost function KnownOf(protos: seq<Proto>): set<Range> {
    set p | p in protos :: RangeOf(p)
  }

  /** The protocol with these ports. */
  ghost function ProtoOf(protos: seq<Proto>, r: Range): (p: Proto)
    requires r in KnownOf(protos)
    ensures p in protos && RangeOf(p) == r
  {
    var p :| p in protos && RangeOf(p) == r; p
  }

  ghost function UpMap(protos: seq<Proto>): map<Range, Range>
    reads protos`up
  {
    map r | r in KnownOf(protos) && ProtoOf(protos, r).up != null :: RangeOf(ProtoOf(protos, r).up)
  }

  // ------------------------------------------------------------------ the relation

  ghost predicate Lists(l: seq<Proto>, protos: seq<Proto>, protocol: string) {
    && (forall p :: p in l ==> p in protos && IsRange(p, protocol))
    && (forall p :: p in protos && IsRange(p, protocol) ==> p in l)
  }

  /** Numeric protocols are linked to 'ip', and ranges as `orderRanges` does. */
  ghost predicate Related(protos: seq<Proto>, prtIP: Proto, tcp: seq<Proto>, udp: seq<Proto>)
    reads protos`up, prtIP`up, tcp`up, udp`up
  {
    && prtIP.up == null && prtIP in protos
    && (forall p :: p in protos && IsNumeric(p) ==> p.up == prtIP)
    && Lists(tcp, protos, "tcp") && Lists(udp, protos, "udp")
    && Linked(tcp, prtIP) && Linked(udp, prtIP) && NestedOrDisjoint(tcp) && NestedOrDisjoint(udp)
  }

  /** The ranges of a protocol are nested or disjoint. */
  ghost predicate NoOverlap(protos: seq<Proto>, protocol: string) {
    forall p, q :: p in protos && q in protos && IsRange(p, protocol) && IsRange(q, protocol) ==>
      p.Inside(q) || q.Inside(p) || p.high < q.low || q.high < p.low
  }

  lemma NoOverlapIff(l: seq<Proto>, protos: seq<Proto>, protocol: string)
    requires Lists(l, protos, protocol)
    ensures NestedOrDisjoint(l) <==> NoOverlap(protos, protocol)
  {}

  /** Fails exactly if ranges overlap. */
  method SetupPrtRelation(protos: seq<Proto>, prtIP: Proto) returns (ok: bool, tcp: seq<Proto>, udp: seq<Proto>)
    requires Protocols(protos, prtIP) && Fresh(protos)
    modifies protos
    ensures ok <==> NoOverlap(protos, "tcp") && NoOverlap(protos, "udp")
    ensures ok ==> Related(protos, prtIP, tcp, udp) && G.UpRelation(UpMap(protos), KnownOf(protos))
  {
    hide Protocols, Linked, NestedOrDisjoint, NeighborsMarked, IsNumeric, Ranges, UpMap, KnownOf, G.UpRelation;
    hide NoOverlap;
    udp := [];
    LinkNumeric(protos, prtIP);
    RangesOf(protos, prtIP, "tcp");
    tcp, ok := OrderRanges("tcp", protos, prtIP);
    NoOverlapIff(tcp, protos, "tcp");
    if !ok {
      return;
    }
    RangesOf(protos, prtIP, "udp");
    udp, ok := OrderRanges("udp", protos, prtIP);
    NoOverlapIff(udp, protos, "udp");
    if ok {
      RelatedUp(protos, prtIP, tcp, udp);
    }
  }

  method LinkNumeric(protos: seq<Proto>, prtIP: Proto)
    requires Fresh(protos)
    modifies protos`up
    ensures forall p :: p in protos ==> p.up == if IsNumeric(p) then prtIP else null
  {
    hide PortNames.AllDigits;
    var i := 0;
    while i < |protos|
      invariant 0 <= i <= |protos|
      invariant forall p :: p in protos ==> p.up == if p in protos[..i] && IsNumeric(p) then prtIP else null
    {
      assert protos[..i + 1] == protos[..i] + [protos[i]];
      if protos[i].protocol != "" && PortNames.AllDigits(protos[i].protocol) {
        protos[i].up := prtIP;
      }
      i := i + 1;
    }
    assert protos[..|protos|] == protos;
  }

  lemma RangesOf(protos: seq<Proto>, prtIP: Proto, protocol: string)
    requires Protocols(protos, prtIP) && (protocol == "tcp" || protocol == "udp")
    requires forall p :: p in protos && IsRange(p, protocol) ==> !p.hasNeighbor
    ensures Ranges(protos, protocol) && prtIP in protos && !IsRange(prtIP, protocol)
    ensures forall p :: p in protos && IsRange(p, protocol) ==> !IsNumeric(p) && p != prtIP
    ensures !IsNumeric(prtIP)
  {
    NotNumeric(protos);
    hide IsNumeric;
  }

  lemma NotNumeric(protos: seq<Proto>)
    requires forall p :: p in protos ==> Proper(p)
    ensures forall p :: p in protos && IsNumeric(p) ==> !HasPorts(p) && p.protocol != "ip"
  {
    assert !PortNames.IsDigit("tcp"[0]) && !PortNames.IsDigit("udp"[0]) && !PortNames.IsDigit("ip"[0]);
  }

  /** `p.up` stands for the smallest protocol around `p`. */
  ghost predicate UpIsSmallest(protos: seq<Proto>, p: Proto)
    reads p`up
  {
    && p.up != null && p.up in protos && G.Strict(RangeOf(p), RangeOf(p.up))
    && forall q :: q in protos && G.Strict(RangeOf(p), RangeOf(q)) ==> P.Inside(RangeOf(p.up), RangeOf(q))
  }

  lemma KindsOf(protos: seq<Proto>, prtIP: Proto, p: Proto)
    requires Protocols(protos, prtIP) && p in protos
    ensures G.KindOf(RangeOf(p)) != G.Unknown
    ensures p.protocol == "ip" <==> p == prtIP
    ensures p.protocol == "ip" <==> G.KindOf(RangeOf(p)) == G.Ip
    ensures IsRange(p, "tcp") <==> G.KindOf(RangeOf(p)) == G.Tcp
    ensures IsRange(p, "udp") <==> G.KindOf(RangeOf(p)) == G.Udp
    ensures IsNumeric(p) <==> G.KindOf(RangeOf(p)) == G.Proto
    ensures IsNumeric(p) ==> RangeOf(p).low == G.PROTO_BASE + PortNames.Number(p.protocol)
  {
    NotNumeric(protos);
    hide PortNames.AllDigits;
  }

  /** Ranges of TCP, or of UDP, in the common numbering. */
  lemma SameBase(p: Proto, q: Proto, protocol: string)
    requires protocol == "tcp" || protocol == "udp"
    requires IsRange(p, protocol) && IsRange(q, protocol)
    ensures P.Inside(RangeOf(p), RangeOf(q)) <==> p.Inside(q)
    ensures P.Disjoint(RangeOf(p), RangeOf(q)) <==> p.high < q.low || q.high < p.low
  {}

  lemma RangeUp(protos: seq<Proto>, prtIP: Proto, l: seq<Proto>, protocol: string, p: Proto)
    requires Protocols(protos, prtIP) && Lists(l, protos, protocol) && Linked(l, prtIP)
    requires (protocol == "tcp" || protocol == "udp") && p in l
    ensures UpIsSmallest(protos, p)
  {
    KindsOf(protos, prtIP, prtIP);
    KindsOf(protos, prtIP, p);
    TopRange(protos, prtIP, p);
    TopRange(protos, prtIP, prtIP);
    hide Protocols, P.Inside, P.Disjoint, RangeOf, Proto.Inside;
    forall q | q in protos && G.Strict(RangeOf(p), RangeOf(q))
      ensures q == prtIP || (q in l && q != p && p.Inside(q))
    {
      LargerRange(protos, prtIP, l, protocol, p, q);
    }
    if p.up != prtIP {
      forall q | q in l && p.up.Inside(q)
        ensures P.Inside(RangeOf(p.up), RangeOf(q))
      {
        SameBase(p.up, q, protocol);
      }
      SameBase(p, p.up, protocol);
      TopRange(protos, prtIP, p.up);
      Injective(protos, prtIP, p, p.up);
    }
  }

  lemma Injective(protos: seq<Proto>, prtIP: Proto, p: Proto, q: Proto)
    requires Protocols(protos, prtIP) && p in protos && q in protos && p != q
    ensures RangeOf(p) != RangeOf(q)
  {}

  lemma TopRange(protos: seq<Proto>, prtIP: Proto, p: Proto)
    requires Protocols(protos, prtIP) && p in protos
    ensures P.Inside(RangeOf(p), RangeOf(prtIP)) && (p != prtIP ==> G.Strict(RangeOf(p), RangeOf(prtIP)))
  {
    KindsOf(protos, prtIP, p);
    KindsOf(protos, prtIP, prtIP);
  }

  /** Only ranges of the same protocol and 'ip' lie around a range. */
  lemma LargerRange(protos: seq<Proto>, prtIP: Proto, l: seq<Proto>, protocol: string, p: Proto, q: Proto)
    requires Protocols(protos, prtIP) && Lists(l, protos, protocol) && p in l && q in protos
    requires (protocol == "tcp" || protocol == "udp") && G.Strict(RangeOf(p), RangeOf(q))
    ensures q == prtIP || (q in l && q != p && p.Inside(q))
  {
    KindsOf(protos, prtIP, p);
    KindsOf(protos, prtIP, q);
    hide Protocols, IsNumeric, RangeOf;
    if q != prtIP {
      SameBase(p, q, protocol);
    }
  }

  lemma NumericUp(protos: seq<Proto>, prtIP: Proto, p: Proto)
    requires Protocols(protos, prtIP) && p in protos && IsNumeric(p) && p.up == prtIP
    ensures UpIsSmallest(protos, p)
  {
    KindsOf(protos, prtIP, p);
    TopRange(protos, prtIP, p);
    forall q | q in protos && G.Strict(RangeOf(p), RangeOf(q))
      ensures q == prtIP
    {
      KindsOf(protos, prtIP, q);
    }
  }

  lemma AllUp(protos: seq<Proto>, prtIP: Proto, tcp: seq<Proto>, udp: seq<Proto>, p: Proto)
    requires Protocols(protos, prtIP) && Related(protos, prtIP, tcp, udp) && p in protos && p != prtIP
    ensures UpIsSmallest(protos, p)
  {
    KindsOf(protos, prtIP, p);
    hide Protocols, RangeOf, UpIsSmallest, Linked, NestedOrDisjoint;
    if IsRange(p, "tcp") {
      RangeUp(protos, prtIP, tcp, "tcp", p);
    } else if IsRange(p, "udp") {
      RangeUp(protos, prtIP, udp, "udp", p);
    } else {
      NumericUp(protos, prtIP, p);
    }
  }

  lemma AllLaminar(protos: seq<Proto>, prtIP: Proto, tcp: seq<Proto>, udp: seq<Proto>, p: Proto, q: Proto)
    requires Protocols(protos, prtIP) && Related(protos, prtIP, tcp, udp) && p in protos && q in protos
    ensures var r, t := RangeOf(p), RangeOf(q); P.Inside(r, t) || P.Inside(t, r) || P.Disjoint(r, t)
  {
    KindsOf(protos, prtIP, p);
    KindsOf(protos, prtIP, q);
    TopRange(protos, prtIP, p);
    TopRange(protos, prtIP, q);
    hide Protocols, RangeOf, Linked, IsNumeric;
    if IsRange(p, "tcp") && IsRange(q, "tcp") {
      SameBase(p, q, "tcp");
      SameBase(q, p, "tcp");
    } else if IsRange(p, "udp") && IsRange(q, "udp") {
      SameBase(p, q, "udp");
      SameBase(q, p, "udp");
    }
  }

  /** The links between protocols give the `up` relation in the common numbering. */
  lemma RelatedUp(protos: seq<Proto>, prtIP: Proto, tcp: seq<Proto>, udp: seq<Proto>)
    requires Protocols(protos, prtIP) && Related(protos, prtIP, tcp, udp)
    ensures G.UpRelation(UpMap(protos), KnownOf(protos))
  {
    var up, known := UpMap(protos), KnownOf(protos);
    hide Related, UpIsSmallest, RangeOf, P.Inside, P.Disjoint;
    forall r | r in known
      ensures G.KindOf(r) != G.Unknown
    {
      KindsOf(protos, prtIP, ProtoOf(protos, r));
    }
    forall r, t | r in known && t in known
      ensures P.Inside(r, t) || P.Inside(t, r) || P.Disjoint(r, t)
    {
      AllLaminar(protos, prtIP, tcp, udp, ProtoOf(protos, r), ProtoOf(protos, t));
    }
    IPRange(protos, prtIP, tcp, udp);
    forall r | r in known && r != G.PRT_IP
      ensures r in up && up[r] in known && G.Strict(r, up[r])
      ensures forall k :: k in known && G.Strict(r, k) ==> P.Inside(up[r], k)
    {
      UpOfRange(protos, prtIP, tcp, udp, r);
    }
  }

  lemma IPRange(protos: seq<Proto>, prtIP: Proto, tcp: seq<Proto>, udp: seq<Proto>)
    requires Protocols(protos, prtIP) && Related(protos, prtIP, tcp, udp)
    ensures G.PRT_IP in KnownOf(protos) && G.PRT_IP !in UpMap(protos) && ProtoOf(protos, G.PRT_IP) == prtIP
  {
    assert RangeOf(prtIP) == G.PRT_IP;
  }

  lemma UpOfRange(protos: seq<Proto>, prtIP: Proto, tcp: seq<Proto>, udp: seq<Proto>, r: Range)
    requires Protocols(protos, prtIP) && Related(protos, prtIP, tcp, udp) && r in KnownOf(protos) && r != G.PRT_IP
    ensures var up, known := UpMap(protos), KnownOf(protos);
            && r in up && up[r] in known && G.Strict(r, up[r])
            && forall k :: k in known && G.Strict(r, k) ==> P.Inside(up[r], k)
  {
    var p := ProtoOf(protos, r);
    IPRange(protos, prtIP, tcp, udp);
    KindsOf(protos, prtIP, p);
    KindsOf(protos, prtIP, prtIP);
    assert p != prtIP;
    hide Protocols, Related, P.Inside, RangeOf;
    AllUp(protos, prtIP, tcp, udp, p);
    forall k | k in KnownOf(protos) && G.Strict(r, k)
      ensures P.Inside(RangeOf(p.up), k)
    {
      var q := ProtoOf(protos, k);
    }
  }

  /** With 'tcp' and 'udp' among the protocols, the environment of `findChains` is as
      it needs to be. */
  lemma EnvOfProtocols(protos: seq<Proto>, prtIP: Proto, tcp: seq<Proto>, udp: seq<Proto>, bits: nat)
    requires Protocols(protos, prtIP) && Related(protos, prtIP, tcp, udp)
    requires RuleTrees.PRT_TCP in KnownOf(protos) && RuleTrees.PRT_UDP in KnownOf(protos)
    ensures var env := RuleTrees.Env(bits, UpMap(protos), KnownOf(protos));
            env.Valid() && RuleTrees.ProperPorts(env)
  {
    hide Related, G.UpRelation;
    RelatedUp(protos, prtIP, tcp, udp);
    forall r | r in KnownOf(protos)
      ensures G.KindOf(r) == G.Tcp ==> P.Inside(r, RuleTrees.PRT_TCP)
      ensures G.KindOf(r) == G.Udp ==> P.Inside(r, RuleTrees.PRT_UDP)
    {
      PortsProper(protos, prtIP, ProtoOf(protos, r));
    }
    hide Protocols, UpMap, KnownOf, G.KindOf, P.Inside;
  }

  lemma PortsProper(protos: seq<Proto>, prtIP: Proto, p: Proto)
    requires Protocols(protos, prtIP) && p in protos
    ensures G.KindOf(RangeOf(p)) == G.Tcp ==> P.Inside(RangeOf(p), RuleTrees.PRT_TCP)
    ensures G.KindOf(RangeOf(p)) == G.Udp ==> P.Inside(RangeOf(p), RuleTrees.PRT_UDP)
  {
    KindsOf(protos, prtIP, p);
  }
}
