/** Names of protocols with ports: `GenPortName` in go/pkg/jcode/types.go writes
    them in pass 1, `createPrtObj` in go/cmd/spoc2/main.go reads them in pass 2.
  */
module PortNames {
  import opened Wrappers

  // ----------------------------------------------------------------- numbers as text

  predicate IsDigit(c: char) {
    '0' <= c <= '9'
  }

  predicate AllDigits(s: string) {
    forall k :: 0 <= k < |s| ==> IsDigit(s[k])
  }

  function Digit(n: nat): (c: char)
    requires n < 10
    ensures IsDigit(c)
  {
    '0' + n as char
  }

  function DigitValue(c: char): nat
    requires IsDigit(c)
  {
    (c - '0') as nat
  }

  /** `strconv.Itoa`, for numbers that are not negative */
  function Itoa(n: nat): (s: string)
    ensures s != [] && AllDigits(s)
  {
    if n < 10 then [Digit(n)] else Itoa(n / 10) + [Digit(n % 10)]
  }

  function Number(s: string): nat
    requires AllDigits(s)
  {
    if s == [] then 0 else 10 * Number(s[..|s| - 1]) + DigitValue(s[|s| - 1])
  }

  // ------------------------------------------------------------- order of numbers as text

  /** Comparison of strings, here `s <= t`. */
  predicate TextBefore(s: string, t: string) {
    s == [] || (t != [] && (s[0] < t[0] || (s[0] == t[0] && TextBefore(s[1..], t[1..]))))
  }

  function Weight(width: nat): (w: nat)
    ensures w >= 1
  {
    if width == 0 then 1 else 11 * Weight(width - 1)
  }

  /** A number with the order of texts: a missing character comes before all digits. */
  function TextKey(s: string, width: nat): (k: nat)
    requires AllDigits(s)
    ensures k < Weight(width)
    decreases width
  {
    if width == 0 || s == [] then 0
    else
      var d := 1 + DigitValue(s[0]);
      assert d * Weight(width - 1) <= 10 * Weight(width - 1);
      d * Weight(width - 1) + TextKey(s[1..], width - 1)
  }

  lemma DigitFirst(d: nat, e: nat, w: nat, a: nat, b: nat)
    requires d < e && a < w
    ensures d * w + a < e * w + b
  {
    assert (d + 1) * w <= e * w;
  }

  lemma {:induction false} TextKeyOrder(s: string, t: string, width: nat)
    requires AllDigits(s) && AllDigits(t) && |s| <= width && |t| <= width
    ensures TextKey(s, width) <= TextKey(t, width) <==> TextBefore(s, t)
    decreases width
  {
    if s != [] && t != [] {
      var w := Weight(width - 1);
      var d, e := 1 + DigitValue(s[0]), 1 + DigitValue(t[0]);
      var a, b := TextKey(s[1..], width - 1), TextKey(t[1..], width - 1);
      assert TextKey(s, width) == d * w + a && TextKey(t, width) == e * w + b;
      TextKeyOrder(s[1..], t[1..], width - 1);
      hide TextKey, Weight;
      if d < e {
        DigitFirst(d, e, w, a, b);
      } else if e < d {
        DigitFirst(e, d, w, b, a);
      }
    } else if s != [] {
      DigitFirst(0, 1 + DigitValue(s[0]), Weight(width - 1), 0, 0);
    }
  }

  lemma {:induction false} ItoaLength(n: nat)
    ensures (n < 10 ==> |Itoa(n)| <= 1) && (n < 100 ==> |Itoa(n)| <= 2) && (n < 1000 ==> |Itoa(n)| <= 3)
    ensures (n < 10000 ==> |Itoa(n)| <= 4) && (n < 100000 ==> |Itoa(n)| <= 5)
  {
    if n >= 10 {
      ItoaLength(n / 10);
    }
  }

  const MAX_INT: int := 0x7fff_ffff_ffff_ffff

  /** Value of `strconv.Atoi`, while its error is ignored: zero if there is something
      else than a number, and the last number of 64 bits if it is too large. */
  function Atoi(s: string): int {
    if s != [] && s[0] == '+' then
      Clip(Unsigned(s[1..]))
    else if s != [] && s[0] == '-' then
      var n: int := Unsigned(s[1..]);
      if n > MAX_INT + 1 then -(MAX_INT + 1) else -n
    else
      Clip(Unsigned(s))
  }

  function Unsigned(s: string): nat {
    if s != [] && AllDigits(s) then Number(s) else 0
  }

  function Clip(n: nat): int {
    if n > MAX_INT then MAX_INT else n
  }

  lemma {:induction false} NumberItoa(n: nat)
    ensures Number(Itoa(n)) == n
  {
    if n >= 10 {
      NumberItoa(n / 10);
      var s := Itoa(n / 10) + [Digit(n % 10)];
      assert s[..|s| - 1] == Itoa(n / 10);
    } else {
      assert [Digit(n)][..0] == [];
    }
  }

  lemma {:induction false} AtoiItoa(n: nat)
    requires n <= MAX_INT
    ensures Atoi(Itoa(n)) == n
  {
    NumberItoa(n);
  }

  /** Other texts: signs are read, large numbers end at the limits of 64 bits, and what is
      no number counts as zero. */
  lemma AtoiOther(n: nat, s: string)
    ensures n <= MAX_INT ==> Atoi("+" + Itoa(n)) == n && Atoi("-" + Itoa(n)) == 0 - n
    ensures n > MAX_INT ==> Atoi(Itoa(n)) == MAX_INT
    ensures n > MAX_INT + 1 ==> Atoi("-" + Itoa(n)) == -MAX_INT - 1
    ensures s == [] || (s[0] != '+' && s[0] != '-' && !AllDigits(s)) ==> Atoi(s) == 0
  {
    NumberItoa(n);
    var p, m := "+" + Itoa(n), "-" + Itoa(n);
    assert p[1..] == Itoa(n) && m[1..] == Itoa(n);
    assert Itoa(n)[0] in Itoa(n) && IsDigit(Itoa(n)[0]);
  }

  // ------------------------------------------------------------------------ the names

  /** `strings.Index`, for a single character */
  function Index(s: string, c: char): (i: int)
    ensures i == -1 ==> c !in s
    ensures i != -1 ==> 0 <= i < |s| && s[i] == c && c !in s[..i]
  {
    if s == [] then -1
    else if s[0] == c then 0
    else
      var i := Index(s[1..], c);
      if i == -1 then -1 else assert s[..i + 1] == [s[0]] + s[1..][..i]; i + 1
  }

  lemma {:induction false} IndexOfFirst(s: string, c: char, t: string)
    requires c !in s
    ensures Index(s + [c] + t, c) == |s|
  {
    if s != [] {
      IndexOfFirst(s[1..], c, t);
      assert (s + [c] + t)[1..] == s[1..] + [c] + t;
    }
  }

  function GenPortName(proto: string, v1: nat, v2: nat): string {
    if v1 == v2 then
      proto + " " + Itoa(v1)
    else if v1 == 1 && v2 == 65535 then
      proto
    else
      proto + " " + Itoa(v1) + "-" + Itoa(v2)
  }

  datatype Description = Description(protocol: string, low: int, high: int, established: bool,
                                     icmpType: int, icmpCode: int)

  /** `createPrtObj` */
  function ParsePrt(descr: string): Description {
    var i := Index(descr, ' ');
    var protocol := if i == -1 then descr else descr[..i];
    var detail := if i == -1 then "" else descr[i + 1..];
    if protocol == "tcp" || protocol == "udp" then
      var (p1, p2) := ParsePorts(detail);
      Description(protocol, p1, p2, Index(detail, '-') == -1 && detail == "established", 0, 0)
    else if protocol == "icmp" then
      var (t, c) := ParseIcmp(detail);
      Description(protocol, 0, 0, false, t, c)
    else if protocol == "proto" then
      Description(detail, 0, 0, false, 0, 0)
    else
      Description(protocol, 0, 0, false, 0, 0)
  }

  function ParsePorts(detail: string): (int, int) {
    var i := Index(detail, '-');
    if i == -1 then
      if detail == "established" || detail == "" then (1, 65535)
      else (Atoi(detail), Atoi(detail))
    else
      (Atoi(detail[..i]), Atoi(detail[i + 1..]))
  }

  function ParseIcmp(detail: string): (int, int) {
    if detail == "" then (-1, 0)
    else
      var i := Index(detail, '/');
      if i == -1 then (Atoi(detail), -1) else (Atoi(detail[..i]), Atoi(detail[i + 1..]))
  }

  lemma NoOther(s: string, c: char)
    requires AllDigits(s) && !IsDigit(c)
    ensures c !in s
  {
  }

  /** Reading the details of a name gives back the ports. */
  lemma {:induction false} PortsRoundTrip(v1: nat, v2: nat)
    requires v1 <= MAX_INT && v2 <= MAX_INT
    ensures ParsePorts(Itoa(v1) + "-" + Itoa(v2)) == (v1, v2)
    ensures ParsePorts(Itoa(v1)) == (v1, v1)
    ensures Itoa(v1) != "established" && Itoa(v1) + "-" + Itoa(v2) != "established"
  {
    var a, b := Itoa(v1), Itoa(v2);
    AtoiItoa(v1);
    AtoiItoa(v2);
    NoOther(a, '-');
    NoOther(a, 'e');
    IndexOfFirst(a, '-', b);
    var s := a + "-" + b;
    assert s[..|a|] == a && s[|a| + 1..] == b;
    hide Itoa, Atoi;
    assert s[0] == a[0];
    assert a[0] in a;
  }

  /** What pass 1 writes, pass 2 reads. */
  lemma {:induction false} NameRoundTrip(proto: string, v1: nat, v2: nat)
    requires proto == "tcp" || proto == "udp"
    requires v1 <= MAX_INT && v2 <= MAX_INT
    ensures ParsePrt(GenPortName(proto, v1, v2)) == Description(proto, v1, v2, false, 0, 0)
  {
    hide Itoa, Atoi, Index, ParsePorts;
    PortsRoundTrip(v1, v2);
    var detail := if v1 == v2 then Itoa(v1) else Itoa(v1) + "-" + Itoa(v2);
    var name := proto + " " + detail;
    IndexOfFirst(proto, ' ', detail);
    assert name[..|proto|] == proto && name[|proto| + 1..] == detail;
    if v1 != v2 {
      assert name == proto + " " + Itoa(v1) + "-" + Itoa(v2);
    }
    if v1 == 1 && v2 == 65535 {
      NoDetail(proto);
    }
  }

  lemma NoDetail(proto: string)
    requires proto == "tcp" || proto == "udp"
    ensures Index(proto, ' ') == -1 && ParsePorts("") == (1, 65535)
  {
    var i := Index(proto, ' ');
    assert ' ' !in proto;
  }

  /** Different ranges have different names. */
  lemma {:induction false} NamesDiffer(proto: string, v1: nat, v2: nat, proto': string, w1: nat, w2: nat)
    requires proto == "tcp" || proto == "udp"
    requires proto' == "tcp" || proto' == "udp"
    requires v1 <= MAX_INT && v2 <= MAX_INT && w1 <= MAX_INT && w2 <= MAX_INT
    requires GenPortName(proto, v1, v2) == GenPortName(proto', w1, w2)
    ensures proto == proto' && v1 == w1 && v2 == w2
  {
    NameRoundTrip(proto, v1, v2);
    NameRoundTrip(proto', w1, w2);
  }

  /** A name consists of the protocol and its details. */
  lemma WithDetail(proto: string, detail: string)
    requires ' ' !in proto
    ensures var d := ParsePrt(proto + " " + detail);
            && (proto == "tcp" || proto == "udp" ==>
                  d == Description(proto, ParsePorts(detail).0, ParsePorts(detail).1,
                                   Index(detail, '-') == -1 && detail == "established", 0, 0))
            && (proto == "icmp" ==> d == Description(proto, 0, 0, false, ParseIcmp(detail).0, ParseIcmp(detail).1))
            && (proto == "proto" ==> d == Description(detail, 0, 0, false, 0, 0))
  {
    hide Index, ParsePorts, ParseIcmp;
    IndexOfFirst(proto, ' ', detail);
    var name := proto + " " + detail;
    assert name[..|proto|] == proto && name[|proto| + 1..] == detail;
  }

  lemma WithoutDetail(proto: string)
    requires proto == "tcp" || proto == "udp" || proto == "icmp" || proto == "ip"
    ensures ParsePrt(proto) ==
            if proto == "icmp" then Description(proto, 0, 0, false, -1, 0)
            else if proto == "ip" then Description(proto, 0, 0, false, 0, 0)
            else Description(proto, 1, 65535, false, 0, 0)
  {
    hide Index, ParsePorts, ParseIcmp;
    NoBlank(proto);
    EstablishedPorts();
    if proto == "tcp" || proto == "udp" {
      NoDetail(proto);
    }
  }

  /** A name is found again: writing what has been read from the name of a whole protocol,
      of a port or of a range gives this name. */
  lemma NameAgain(proto: string, v1: nat, v2: nat)
    requires proto == "tcp" || proto == "udp"
    requires v1 <= MAX_INT && v2 <= MAX_INT && v1 != v2 && !(v1 == 1 && v2 == 65535)
    ensures Renamed(proto) == Some(proto)
    ensures var name := proto + " " + Itoa(v1); Renamed(name) == Some(name)
    ensures var name := proto + " " + (Itoa(v1) + "-" + Itoa(v2)); Renamed(name) == Some(name)
  {
    hide Itoa, Atoi, Index, ParsePorts, ParsePrt;
    NoBlank(proto);
    WithoutDetail(proto);
    WithDetail(proto, Itoa(v1));
    WithDetail(proto, Itoa(v1) + "-" + Itoa(v2));
    PortsRoundTrip(v1, v2);
    assert proto + " " + Itoa(v1) + "-" + Itoa(v2) == proto + " " + (Itoa(v1) + "-" + Itoa(v2));
  }

  lemma NoBlank(proto: string)
    requires proto == "tcp" || proto == "udp" || proto == "icmp" || proto == "ip" || proto == "proto"
    ensures ' ' !in proto && Index(proto, ' ') == -1
  {
    var i := Index(proto, ' ');
    assert ' ' !in proto;
  }

  /** The name of the ports which a name describes. */
  function Renamed(name: string): Option<string> {
    var d := ParsePrt(name);
    if d.low >= 0 && d.high >= 0 then Some(GenPortName(d.protocol, d.low, d.high)) else None
  }

  /** Names of other protocols: numeric ones, ICMP with type and code, and established TCP. */
  lemma OtherNames(n: nat, t: nat, c: nat)
    requires t <= MAX_INT && c <= MAX_INT
    ensures ParsePrt("proto" + " " + Itoa(n)) == Description(Itoa(n), 0, 0, false, 0, 0)
    ensures ParsePrt("icmp") == Description("icmp", 0, 0, false, -1, 0)
    ensures ParsePrt("icmp" + " " + Itoa(t)) == Description("icmp", 0, 0, false, t, -1)
    ensures ParsePrt("icmp" + " " + (Itoa(t) + "/" + Itoa(c))) == Description("icmp", 0, 0, false, t, c)
    ensures ParsePrt("tcp" + " " + "established") == Description("tcp", 1, 65535, true, 0, 0)
    ensures ParsePrt("ip") == Description("ip", 0, 0, false, 0, 0)
  {
    hide Itoa, Atoi, Index, ParsePorts, ParseIcmp, ParsePrt;
    NoBlank("proto");
    NoBlank("icmp");
    NoBlank("tcp");
    WithDetail("proto", Itoa(n));
    WithDetail("icmp", Itoa(t));
    WithDetail("icmp", Itoa(t) + "/" + Itoa(c));
    WithDetail("tcp", "established");
    WithoutDetail("icmp");
    WithoutDetail("ip");
    IcmpParts(t, c);
    EstablishedPorts();
  }

  lemma EstablishedPorts()
    ensures ParsePorts("established") == (1, 65535) && Index("established", '-') == -1 && ParseIcmp("") == (-1, 0)
  {
    var s := "established";
    assert '-' !in s;
    var i := Index(s, '-');
    assert i == -1;
    hide Index;
  }

  lemma {:induction false} IcmpParts(t: nat, c: nat)
    requires t <= MAX_INT && c <= MAX_INT
    ensures ParseIcmp(Itoa(t)) == (t, -1) && ParseIcmp(Itoa(t) + "/" + Itoa(c)) == (t, c)
  {
    var a, b := Itoa(t), Itoa(c);
    AtoiItoa(t);
    AtoiItoa(c);
    NoOther(a, '/');
    IndexOfFirst(a, '/', b);
    var s := a + "/" + b;
    assert s[..|a|] == a && s[|a| + 1..] == b;
    var i := Index(a, '/');
    hide Itoa, Atoi, Index;
  }
}
