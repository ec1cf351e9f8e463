/** Using split port ranges (`expandSplitProtocol` and `classifyProtocols` in
    go/pkg/pass1/protocol.go): a range is replaced by its unsplit parts, without
    loss or overlap of ports.
  */
module ClassifyProtocols {
  import opened Wrappers
  import opened OrderProtocols

  ghost predicate Halved(p: Proto, all: set<Proto>)
    reads p
  {
    p.split.Some? ==>
      var (x, y) := p.split.value;
      x in all && y in all && p.HalvedInto(x, y)
  }

  /** Every split range consists of two known ranges. */
  ghost predicate Known(all: set<Proto>)
    reads all
  {
    forall p :: p in all ==> p.low <= p.high && Halved(p, all)
  }

  /** The ranges of both protocols. */
  ghost function AllOf(tcp: seq<Proto>, udp: seq<Proto>): set<Proto> {
    set p | p in tcp + udp
  }

  /** Arranged ranges are known, also those of several lists. */
  lemma ArrangedKnown(tcp: seq<Proto>, udp: seq<Proto>)
    requires Arranged(tcp) && Arranged(udp)
    ensures Known(AllOf(tcp, udp))
  {
    hide UpsOk, Laminar, Before;
    forall p | p in AllOf(tcp, udp)
      ensures p.low <= p.high && ((p in tcp && SplitOk(tcp, p)) || (p in udp && SplitOk(udp, p)))
    {
      if p in tcp {
        assert tcp[..|tcp|] == tcp;
      } else {
        assert udp[..|udp|] == udp;
      }
    }
  }

  /** A missing source range stands for all ports. */
  predicate Has(p: Proto?, port: int) {
    p == null || p.low <= port <= p.high
  }

  predicate Apart(q: Proto?, r: Proto?) {
    q != null && r != null && q.high < r.low
  }

  /** `expandSplitProtocol` */
  function Expand(p: Proto?, ghost all: set<Proto>): seq<Proto?>
    requires Known(all) && (p != null ==> p in all)
    reads all
    decreases if p == null then 0 else p.high - p.low
  {
    if p != null && p.split.Some? then
      Expand(p.split.value.0, all) + Expand(p.split.value.1, all)
    else
      [p]
  }

  ghost predicate Covered(r: seq<Proto?>, port: int) {
    exists k :: 0 <= k < |r| && Has(r[k], port)
  }

  lemma CoveredSum(r: seq<Proto?>, s: seq<Proto?>, port: int)
    ensures Covered(r + s, port) <==> Covered(r, port) || Covered(s, port)
  {
    if Covered(r, port) {
      var k :| 0 <= k < |r| && Has(r[k], port);
      assert (r + s)[k] == r[k];
    }
    if Covered(s, port) {
      var k :| 0 <= k < |s| && Has(s[k], port);
      assert (r + s)[|r| + k] == s[k];
    }
  }

  /** The parts have exactly the ports of the range. */
  lemma {:induction false} ExpandCovers(p: Proto?, all: set<Proto>, port: int)
    requires Known(all) && (p != null ==> p in all)
    ensures Covered(Expand(p, all), port) <==> Has(p, port)
    decreases if p == null then 0 else p.high - p.low
  {
    if p != null && p.split.Some? {
      var (x, y) := p.split.value;
      ExpandCovers(x, all, port);
      ExpandCovers(y, all, port);
      CoveredSum(Expand(x, all), Expand(y, all), port);
    } else {
      assert Expand(p, all)[0] == p;
    }
  }

  /** The parts are known, unsplit and in ascending order, so no port occurs twice. */
  lemma {:induction false} ExpandParts(p: Proto?, all: set<Proto>)
    requires Known(all) && (p != null ==> p in all)
    ensures p == null ==> Expand(p, all) == [null]
    ensures p != null ==> forall q :: q in Expand(p, all) ==> q != null && q in all && q.split.None? && q.Inside(p)
    ensures forall j, k :: 0 <= j < k < |Expand(p, all)| ==>
              Apart(Expand(p, all)[j], Expand(p, all)[k])
    decreases if p == null then 0 else p.high - p.low
  {
    if p != null && p.split.Some? {
      var (x, y) := p.split.value;
      ExpandParts(x, all);
      ExpandParts(y, all);
      var s, t := Expand(x, all), Expand(y, all);
      forall j, k | 0 <= j < k < |s + t|
        ensures Apart((s + t)[j], (s + t)[k])
      {
        if j < |s| {
          assert (s + t)[j] in s;
        }
        if k >= |s| {
          assert (s + t)[k] == t[k - |s|] && (s + t)[k] in t;
        }
      }
    }
  }

  // ------------------------------------------------------------------------ classes

  /** Modifiers of a protocol: its source ports, and flags which do not matter here. */
  datatype Modifiers = Modifiers(srcRange: Proto?, flags: set<string>)

  /** A protocol as given in a rule; `main` is the same protocol without modifiers. */
  datatype Service = Service(proto: string, ports: Proto?, statelessICMP: bool,
                             modifiers: Option<Modifiers>, main: Option<Service>)
  {
    function Main(): Service {
      if main.Some? then main.value else this
    }

    predicate HasPorts() {
      Main().proto == "tcp" || Main().proto == "udp"
    }

    predicate IsComplex() {
      modifiers.Some? || Main().statelessICMP
    }

    /** TCP and UDP protocols have a range of ports, and only ICMP is stateless. */
    ghost predicate Valid(all: set<Proto>) {
      && (HasPorts() ==> Main().ports != null && Main().ports in all && !Main().statelessICMP)
      && (modifiers.Some? && modifiers.value.srcRange != null ==> modifiers.value.srcRange in all)
    }
  }

  /** A protocol in the result: a range of ports, or a protocol without ports. */
  datatype Prt = Ports(proto: string, range: Proto?) | Whole(service: Service)

  datatype ModifiedProto = ModifiedProto(prt: Prt, src: Proto?, modifiers: Option<Modifiers>)

  function Row(proto: string, m: Option<Modifiers>, src: Proto?, dsts: seq<Proto?>): seq<ModifiedProto> {
    seq(|dsts|, k requires 0 <= k < |dsts| => ModifiedProto(Ports(proto, dsts[k]), src, m))
  }

  /** All pairs of source and destination ranges, in the order of the source ranges. */
  function Pairs(proto: string, m: Option<Modifiers>, srcs: seq<Proto?>, dsts: seq<Proto?>): seq<ModifiedProto> {
    if srcs == [] then [] else
      Pairs(proto, m, srcs[..|srcs| - 1], dsts) + Row(proto, m, srcs[|srcs| - 1], dsts)
  }

  /** The entries of the result that stem from `s`. */
  function Entries(s: Service, ghost all: set<Proto>): seq<ModifiedProto>
    requires Known(all) && s.Valid(all)
    reads all
  {
    var m, p := s.modifiers, s.Main();
    if !s.HasPorts() then
      [ModifiedProto(Whole(p), null, m)]
    else
      Pairs(p.proto, m, Expand(if m.Some? then m.value.srcRange else null, all), Expand(p.ports, all))
  }

  ghost function EntriesOf(l: seq<Service>, complex: bool, all: set<Proto>): seq<ModifiedProto>
    requires Known(all) && forall s :: s in l ==> s.Valid(all)
    reads all
  {
    if l == [] then [] else
      var n := |l| - 1;
      EntriesOf(l[..n], complex, all) + if l[n].IsComplex() == complex then Entries(l[n], all) else []
  }

  function WithoutModifiers(simple: seq<Prt>): seq<ModifiedProto> {
    seq(|simple|, k requires 0 <= k < |simple| => ModifiedProto(simple[k], null, None))
  }

  function PortsOf(proto: string, dsts: seq<Proto?>): seq<Prt> {
    seq(|dsts|, k requires 0 <= k < |dsts| => Ports(proto, dsts[k]))
  }

  /** Separates protocols with modifiers from those without; `simple` has no
      modifiers and no source ports. */
  method ClassifyProtocols(l: seq<Service>, ghost all: set<Proto>)
    returns (simple: seq<Prt>, complex: seq<ModifiedProto>)
    requires Known(all) && forall s :: s in l ==> s.Valid(all)
    ensures complex == EntriesOf(l, true, all)
    ensures WithoutModifiers(simple) == EntriesOf(l, false, all)
    ensures forall q :: Whole(q) in simple <==> StemsWhole(l, q, None) && !q.statelessICMP
    ensures forall q, src, m :: ModifiedProto(Whole(q), src, m) in complex <==>
              src == null && StemsWhole(l, q, m) && (m.Some? || q.statelessICMP)
  {
    simple, complex := [], [];
    var i := 0;
    while i < |l|
      invariant 0 <= i <= |l|
      invariant complex == EntriesOf(l[..i], true, all)
      invariant WithoutModifiers(simple) == EntriesOf(l[..i], false, all)
    {
      assert l[..i + 1][..i] == l[..i];
      assert l[i].Valid(all);
      var m := l[i].modifiers;
      var p := l[i].Main();
      if m.Some? || p.statelessICMP {
        if !l[i].HasPorts() {
          complex := complex + [ModifiedProto(Whole(p), null, m)];
        } else {
          var pairs := Combine(p.proto, m, Expand(m.value.srcRange, all), Expand(p.ports, all));
          complex := complex + pairs;
        }
      } else if !l[i].HasPorts() {
        WithoutModifiersSum(simple, [Whole(p)]);
        simple := simple + [Whole(p)];
      } else {
        var dsts := Expand(p.ports, all);
        OnlyRow(p.proto, m, dsts);
        WithoutModifiersSum(simple, PortsOf(p.proto, dsts));
        simple := simple + PortsOf(p.proto, dsts);
      }
      i := i + 1;
    }
    assert l[..|l|] == l;
    forall q, src, m
      ensures ModifiedProto(Whole(q), src, m) in complex <==>
              src == null && StemsWhole(l, q, m) && (m.Some? || q.statelessICMP)
    {
      WholeStems(l, true, all, q, src, m);
    }
    forall q
      ensures Whole(q) in simple <==> StemsWhole(l, q, None) && !q.statelessICMP
    {
      WholeStems(l, false, all, q, null, None);
      InSimple(simple, Whole(q));
    }
  }

  /** The list has a protocol without ports, with these modifiers, whose main protocol is `q`. */
  ghost predicate StemsWhole(l: seq<Service>, q: Service, m: Option<Modifiers>) {
    exists s :: s in l && s.modifiers == m && q == (if s.main.Some? then s.main.value else s) &&
                q.proto != "tcp" && q.proto != "udp"
  }

  lemma InSimple(simple: seq<Prt>, p: Prt)
    ensures p in simple <==> ModifiedProto(p, null, None) in WithoutModifiers(simple)
  {
    var w := WithoutModifiers(simple);
    if p in simple {
      var k :| 0 <= k < |simple| && simple[k] == p;
      assert w[k] == ModifiedProto(p, null, None);
    }
  }

  /** Protocols without ports are taken over as they are, without loss and without source ports. */
  lemma {:induction false} WholeStems(l: seq<Service>, complex: bool, all: set<Proto>, q: Service, src: Proto?,
                                      m: Option<Modifiers>)
    requires Known(all) && forall s :: s in l ==> s.Valid(all)
    ensures ModifiedProto(Whole(q), src, m) in EntriesOf(l, complex, all) <==>
            src == null && StemsWhole(l, q, m) && (m.Some? || q.statelessICMP) == complex
  {
    if l != [] {
      var n := |l| - 1;
      var s := l[n];
      assert l == l[..n] + [s];
      WholeStems(l[..n], complex, all, q, src, m);
      WholeEntry(s, all, q, src, m);
      hide Entries, Known;
    }
  }

  lemma WholeEntry(s: Service, all: set<Proto>, q: Service, src: Proto?, m: Option<Modifiers>)
    requires Known(all) && s.Valid(all)
    ensures ModifiedProto(Whole(q), src, m) in Entries(s, all) <==>
            src == null && s.modifiers == m && !s.HasPorts() && q == s.Main()
  {
    var p := s.Main();
    if s.HasPorts() {
      InPairs(p.proto, s.modifiers, Expand(if s.modifiers.Some? then s.modifiers.value.srcRange else null, all),
              Expand(p.ports, all), ModifiedProto(Whole(q), src, m));
    }
  }

  /** The loops over source and destination ranges. */
  method Combine(proto: string, m: Option<Modifiers>, srcs: seq<Proto?>, dsts: seq<Proto?>)
    returns (complex: seq<ModifiedProto>)
    ensures complex == Pairs(proto, m, srcs, dsts)
  {
    complex := [];
    var j := 0;
    while j < |srcs|
      invariant 0 <= j <= |srcs|
      invariant complex == Pairs(proto, m, srcs[..j], dsts)
    {
      var k := 0;
      ghost var base := complex;
      while k < |dsts|
        invariant 0 <= k <= |dsts|
        invariant complex == base + Row(proto, m, srcs[j], dsts[..k])
      {
        complex := complex + [ModifiedProto(Ports(proto, dsts[k]), srcs[j], m)];
        k := k + 1;
      }
      assert dsts[..|dsts|] == dsts && srcs[..j + 1][..j] == srcs[..j];
      j := j + 1;
    }
    assert srcs[..|srcs|] == srcs;
  }

  lemma WithoutModifiersSum(s: seq<Prt>, t: seq<Prt>)
    ensures WithoutModifiers(s + t) == WithoutModifiers(s) + WithoutModifiers(t)
  {
  }

  lemma OnlyRow(proto: string, m: Option<Modifiers>, dsts: seq<Proto?>)
    ensures Pairs(proto, m, [null], dsts) == Row(proto, m, null, dsts)
    ensures m == None ==> Row(proto, m, null, dsts) == WithoutModifiers(PortsOf(proto, dsts))
  {
    assert [null][..0] == [];
  }

  // ------------------------------------------------------------------------ meaning

  /** A packet with these ports belongs to the protocol. */
  predicate Matches(s: Service, src: int, dst: int) {
    && s.HasPorts() && Has(s.Main().ports, dst)
    && (s.modifiers.Some? ==> Has(s.modifiers.value.srcRange, src))
  }

  predicate EntryMatches(e: ModifiedProto, src: int, dst: int) {
    e.prt.Ports? && Has(e.src, src) && Has(e.prt.range, dst)
  }

  lemma {:induction false} InPairs(proto: string, m: Option<Modifiers>, srcs: seq<Proto?>, dsts: seq<Proto?>,
                                   e: ModifiedProto)
    ensures e in Pairs(proto, m, srcs, dsts) <==>
      e.modifiers == m && e.src in srcs && e.prt.Ports? && e.prt.proto == proto && e.prt.range in dsts
  {
    if srcs != [] {
      var n := |srcs| - 1;
      InPairs(proto, m, srcs[..n], dsts, e);
      assert srcs == srcs[..n] + [srcs[n]];
      var row := Row(proto, m, srcs[n], dsts);
      if e.modifiers == m && e.src == srcs[n] && e.prt.Ports? && e.prt.proto == proto && e.prt.range in dsts {
        var k :| 0 <= k < |dsts| && dsts[k] == e.prt.range;
        assert row[k] == e;
      }
    }
  }

  /** Some entry of the result has these modifiers and matches. */
  ghost predicate AnyMatches(es: seq<ModifiedProto>, proto: string, m: Option<Modifiers>, src: int, dst: int) {
    exists e :: e in es && e.modifiers == m && e.prt.Ports? && e.prt.proto == proto && EntryMatches(e, src, dst)
  }

  /** The entries that stem from a TCP or UDP protocol match exactly its pairs of
      ports, and each pair by a single entry. */
  lemma EntriesMatch(s: Service, all: set<Proto>, src: int, dst: int)
    requires Known(all) && s.Valid(all) && s.HasPorts()
    ensures Matches(s, src, dst) <==> AnyMatches(Entries(s, all), s.Main().proto, s.modifiers, src, dst)
    ensures forall k :: 0 <= k < |Entries(s, all)| ==> var e := Entries(s, all)[k];
              e.modifiers == s.modifiers && e.prt.Ports? && e.prt.proto == s.Main().proto
    ensures forall j, k | 0 <= j < k < |Entries(s, all)| ::
              EntryMatches(Entries(s, all)[j], src, dst) && EntryMatches(Entries(s, all)[k], src, dst) ==>
              Entries(s, all)[j] == Entries(s, all)[k]
  {
    var m, p := s.modifiers, s.Main();
    var srcRange := if m.Some? then m.value.srcRange else null;
    var dsts, srcs := Expand(p.ports, all), Expand(srcRange, all);
    var es := Entries(s, all);
    assert es == Pairs(p.proto, m, srcs, dsts);
    forall k | 0 <= k < |es|
      ensures es[k].modifiers == m && es[k].src in srcs && es[k].prt.Ports? && es[k].prt.proto == p.proto &&
              es[k].prt.range in dsts
    {
      InPairs(p.proto, m, srcs, dsts, es[k]);
    }
    ExpandCovers(p.ports, all, dst);
    ExpandCovers(srcRange, all, src);
    if Matches(s, src, dst) {
      var k :| 0 <= k < |dsts| && Has(dsts[k], dst);
      var j :| 0 <= j < |srcs| && Has(srcs[j], src);
      var e := ModifiedProto(Ports(p.proto, dsts[k]), srcs[j], m);
      InPairs(p.proto, m, srcs, dsts, e);
      assert e in es && EntryMatches(e, src, dst);
    }
    forall j, k | 0 <= j < k < |es| && EntryMatches(es[j], src, dst) && EntryMatches(es[k], src, dst)
      ensures es[j] == es[k]
    {
      OnePart(p.ports, all, dst, es[j].prt.range, es[k].prt.range);
      OnePart(srcRange, all, src, es[j].src, es[k].src);
    }
  }

  /** A TCP or UDP protocol with these modifiers has these ports; it is complex if it has
      modifiers. */
  ghost predicate Stems(s: Service, complex: bool, proto: string, m: Option<Modifiers>, src: int, dst: int) {
    var q := if s.main.Some? then s.main.value else s;
    && s.modifiers == m && (m.Some? || q.statelessICMP) == complex
    && q.proto == proto && (proto == "tcp" || proto == "udp")
    && (q.ports == null || q.ports.low <= dst <= q.ports.high)
    && (m.Some? && m.value.srcRange != null ==> m.value.srcRange.low <= src <= m.value.srcRange.high)
  }

  lemma StemsMatches(s: Service, complex: bool, proto: string, m: Option<Modifiers>, src: int, dst: int)
    ensures Stems(s, complex, proto, m, src, dst) <==>
            s.IsComplex() == complex && s.modifiers == m && s.Main().proto == proto && Matches(s, src, dst)
  {}

  /** Classifying loses no port and adds none: the entries of the result that match
      are those of matching protocols with the same modifiers. */
  lemma {:induction false} ClassifiedMatch(l: seq<Service>, complex: bool, all: set<Proto>, proto: string,
                                           m: Option<Modifiers>, src: int, dst: int)
    requires Known(all) && forall s :: s in l ==> s.Valid(all)
    ensures AnyMatches(EntriesOf(l, complex, all), proto, m, src, dst) <==>
            exists s :: s in l && Stems(s, complex, proto, m, src, dst)
  {
    if l != [] {
      var n := |l| - 1;
      var s := l[n];
      assert l == l[..n] + [s];
      ClassifiedMatch(l[..n], complex, all, proto, m, src, dst);
      StemsMatches(s, complex, proto, m, src, dst);
      if s.HasPorts() {
        EntriesMatch(s, all, src, dst);
      }
      hide Entries, Service.Main, EntryMatches, Known, Has, Stems;
    }
  }

  /** Ranges as arranged by `orderRanges` lose no port and add none when they are expanded. */
  lemma ArrangedMatch(tcp: seq<Proto>, udp: seq<Proto>, l: seq<Service>, complex: bool, proto: string,
                      m: Option<Modifiers>, src: int, dst: int)
    requires Arranged(tcp) && Arranged(udp) && forall s :: s in l ==> s.Valid(AllOf(tcp, udp))
    ensures Known(AllOf(tcp, udp))
    ensures AnyMatches(EntriesOf(l, complex, AllOf(tcp, udp)), proto, m, src, dst) <==>
            exists s :: s in l && Stems(s, complex, proto, m, src, dst)
  {
    hide Arranged, Known, AnyMatches, EntriesOf, Matches, Service.Valid;
    ArrangedKnown(tcp, udp);
    ClassifiedMatch(l, complex, AllOf(tcp, udp), proto, m, src, dst);
  }

  lemma OnePart(p: Proto?, all: set<Proto>, port: int, q: Proto?, r: Proto?)
    requires Known(all) && (p != null ==> p in all)
    requires q in Expand(p, all) && r in Expand(p, all) && Has(q, port) && Has(r, port)
    ensures q == r
  {
    ExpandParts(p, all);
    var l := Expand(p, all);
    var j :| 0 <= j < |l| && l[j] == q;
    var k :| 0 <= k < |l| && l[k] == r;
    assert j == k;
  }
}
