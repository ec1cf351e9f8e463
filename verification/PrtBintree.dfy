/** Binary trees of port ranges (`genLohitrees`, `genRangetree` in
    go/cmd/spoc2/main.go), built from a laminar forest of ranges: the ranges of
    a list are disjoint, and `sub` holds the ranges directly below a range.
  */
module PrtBintree {
  import opened Wrappers
  import opened Iptables
  import Sorting

  datatype PrtTree<+S> = Nil | Node(range: Range, subtree: Option<S>, lo: PrtTree<S>, hi: PrtTree<S>)

  /** The relation "port `v` leads to subtree `s`" that a tree stands for. */
  ghost predicate Leads<S(!new)>(t: PrtTree<S>, v: int, s: S) {
    t.Node? &&
    ((t.subtree == Some(s) && t.range.Has(v)) || Leads(t.lo, v, s) || Leads(t.hi, v, s))
  }

  predicate Inside(r: Range, outer: Range) {
    outer.low <= r.low && r.high <= outer.high
  }

  /** Branches lie inside their node, the low branch before the high one.  A node
      that comes from no range has two branches and spans exactly from the
      beginning of the low one to the end of the high one. */
  ghost predicate Shape<S(!new)>(t: PrtTree<S>) {
    t.Node? ==>
      && t.range.low <= t.range.high
      && (t.lo.Node? ==> Inside(t.lo.range, t.range))
      && (t.hi.Node? ==> Inside(t.hi.range, t.range))
      && (t.lo.Node? && t.hi.Node? ==> t.lo.range.high < t.hi.range.low)
      && (t.subtree.None? ==> t.lo.Node? && t.hi.Node? && t.range == Range(t.lo.range.low, t.hi.range.high))
      && Shape(t.lo)
      && Shape(t.hi)
  }

  // ------------------------------------------------------------- laminar forests

  function SubOf(sub: map<Range, seq<Range>>, r: Range): seq<Range> {
    if r in sub then sub[r] else []
  }

  predicate Disjoint(a: Range, b: Range) {
    a.high < b.low || b.high < a.low
  }

  /** The ranges of `list` are disjoint and narrower than `width`; all ranges
      directly below a range lie inside it and are forests again. */
  ghost predicate Forest<S(!new)>(list: seq<Range>, sub: map<Range, seq<Range>>, tree: map<Range, S>, width: nat)
    decreases width
  {
    && Sorting.Distinct(list)
    && (forall r :: r in list ==> r in tree && r.low <= r.high && r.high - r.low < width)
    && (forall q, r :: q in list && r in list && q != r ==> Disjoint(q, r))
    && (forall r :: r in list ==>
          && (forall q :: q in SubOf(sub, r) ==> Inside(q, r))
          && Forest(SubOf(sub, r), sub, tree, r.high - r.low))
  }

  /** The relation that a forest stands for. */
  ghost predicate ForestLeads<S(!new)>(list: seq<Range>, sub: map<Range, seq<Range>>, tree: map<Range, S>,
                                       width: nat, v: int, s: S)
    requires Forest(list, sub, tree, width)
    decreases width
  {
    exists r :: r in list && RangeLeads(r, sub, tree, width, v, s)
  }

  ghost predicate RangeLeads<S(!new)>(r: Range, sub: map<Range, seq<Range>>, tree: map<Range, S>,
                                      width: nat, v: int, s: S)
    requires r in tree && 0 <= r.high - r.low < width && Forest(SubOf(sub, r), sub, tree, r.high - r.low)
    decreases width, 0
  {
    (tree[r] == s && r.Has(v)) || ForestLeads(SubOf(sub, r), sub, tree, r.high - r.low, v, s)
  }

  /** A part of a list stays a forest. */
  lemma ForestPart<S(!new)>(list: seq<Range>, part: seq<Range>, sub: map<Range, seq<Range>>, tree: map<Range, S>,
                            width: nat)
    requires Forest(list, sub, tree, width)
    requires Sorting.Distinct(part) && forall r :: r in part ==> r in list
    ensures Forest(part, sub, tree, width)
  {}

  lemma LeadsOfParts<S(!new)>(list: seq<Range>, left: seq<Range>, right: seq<Range>,
                              sub: map<Range, seq<Range>>, tree: map<Range, S>, width: nat, v: int, s: S)
    requires Forest(list, sub, tree, width) && Forest(left, sub, tree, width) && Forest(right, sub, tree, width)
    requires forall r :: r in list <==> r in left || r in right
    ensures ForestLeads(list, sub, tree, width, v, s) <==>
            ForestLeads(left, sub, tree, width, v, s) || ForestLeads(right, sub, tree, width, v, s)
  {
    if r :| r in list && RangeLeads(r, sub, tree, width, v, s) {
      assert r in left || r in right;
    }
  }

  lemma LeadsOfSingle<S(!new)>(r: Range, sub: map<Range, seq<Range>>, tree: map<Range, S>, width: nat, v: int, s: S)
    requires Forest([r], sub, tree, width)
    ensures r in [r]
    ensures ForestLeads([r], sub, tree, width, v, s) <==>
            (tree[r] == s && r.Has(v)) || ForestLeads(SubOf(sub, r), sub, tree, r.high - r.low, v, s)
  {
    assert r in [r];
  }

  // ------------------------------------------------------------------ generation

  /** The ports of a list, or of the two trees for it. */
  ghost predicate Spans(low: int, high: int, list: seq<Range>) {
    && (forall r :: r in list ==> low <= r.low && r.high <= high)
    && (exists r :: r in list && r.low == low)
    && (exists r :: r in list && r.high == high)
  }

  function LowOrder(r: Range): (int, int) {
    (r.low, 0)
  }

  /** Splitting a sorted list puts all ports of the left part first. */
  lemma SplitOrder<S(!new)>(ports: seq<Range>, mid: nat, sub: map<Range, seq<Range>>, tree: map<Range, S>, width: nat)
    requires Sorting.Sorted(ports, LowOrder) && Forest(ports, sub, tree, width) && 0 < mid < |ports|
    ensures forall q, r :: q in ports[..mid] && r in ports[mid..] ==> q.high < r.low
    ensures Sorting.Distinct(ports[..mid]) && Sorting.Distinct(ports[mid..])
    ensures forall r :: r in ports <==> r in ports[..mid] || r in ports[mid..]
  {
    forall q, r | q in ports[..mid] && r in ports[mid..]
      ensures q.high < r.low
    {
      var i :| 0 <= i < mid && ports[i] == q;
      var j :| mid <= j < |ports| && ports[j] == r;
      assert Sorting.Before(LowOrder(ports[i]), LowOrder(ports[j]));
      assert Disjoint(q, r);
    }
    assert ports == ports[..mid] + ports[mid..];
  }

  /** Sorts a list by low port and splits it in two halves (prefer larger left part). */
  method Halves<S(!new)>(prtAref: seq<Range>, ghost sub: map<Range, seq<Range>>, ghost tree: map<Range, S>,
                         ghost width: nat)
    returns (left: seq<Range>, right: seq<Range>)
    requires Forest(prtAref, sub, tree, width) && |prtAref| > 1
    ensures Forest(left, sub, tree, width) && Forest(right, sub, tree, width)
    ensures 0 < |left| < |prtAref| && 0 < |right| < |prtAref|
    ensures forall q, r :: q in left && r in right ==> q.high < r.low
    ensures forall r :: r in prtAref <==> r in left || r in right
    ensures |left| + |right| == |prtAref| && |right| <= |left| <= |right| + 1
  {
    var ports := Sorting.Sort(prtAref, LowOrder);
    Sorting.SameElements(ports, prtAref);
    Sorting.DistinctSame(ports, prtAref);
    ForestPart(prtAref, ports, sub, tree, width);
    var mid := (|ports| - 1) / 2 + 1;
    SplitOrder(ports, mid, sub, tree, width);
    left, right := ports[..mid], ports[mid..];
    ForestPart(ports, left, sub, tree, width);
    ForestPart(ports, right, sub, tree, width);
  }

  lemma SpansBoth(left: seq<Range>, right: seq<Range>, all: seq<Range>, l: Range, r: Range)
    requires Spans(l.low, l.high, left) && Spans(r.low, r.high, right)
    requires forall q, p :: q in left && p in right ==> q.high < p.low
    requires forall p :: p in all ==> p.low <= p.high
    requires forall p :: p in all <==> p in left || p in right
    ensures l.high < r.low && Spans(l.low, r.high, all)
  {
    var a :| a in left && a.low == l.low;
    var b :| b in left && b.high == l.high;
    var c :| c in right && c.low == r.low;
    var d :| d in right && d.high == r.high;
    assert a in all && b in all && c in all && d in all;
  }

  function Branches<S>(t: PrtTree<S>): nat {
    if t.Node? then (if t.lo.Node? then 1 else 0) + (if t.hi.Node? then 1 else 0) else 0
  }

  /** Adjacent ranges with the same subtree, and with no more than two branches together. */
  ghost predicate LikeNeighbors<S>(lo: PrtTree<S>, hi: PrtTree<S>) {
    && lo.Node? && hi.Node? && lo.range.high + 1 == hi.range.low
    && lo.subtree.Some? && lo.subtree == hi.subtree && Branches(lo) + Branches(hi) <= 2
  }

  /** No two ranges below a node that comes from no range could be merged. */
  ghost predicate Reduced<S>(t: PrtTree<S>) {
    t.Node? ==> (t.subtree.None? ==> !LikeNeighbors(t.lo, t.hi)) && Reduced(t.lo) && Reduced(t.hi)
  }

  /** Joining leaves no mergeable ranges. */
  lemma JoinedReduced<S(!new)>(lo: PrtTree<S>, hi: PrtTree<S>)
    requires lo.Node? && hi.Node? && Reduced(lo) && Reduced(hi)
    ensures Reduced(Joined(lo, hi))
  {
    if |One(lo.lo) + One(lo.hi) + One(hi.lo) + One(hi.hi)| <= 2 {
      TwoOfFour(lo.lo, lo.hi, hi.lo, hi.hi);
    }
  }

  method GenLohitrees<S(==,!new)>(prtAref: seq<Range>, sub: map<Range, seq<Range>>, tree: map<Range, S>,
                                  ghost width: nat)
    returns (lo: PrtTree<S>, hi: PrtTree<S>)
    requires Forest(prtAref, sub, tree, width)
    ensures Shape(lo) && Shape(hi) && Reduced(lo) && Reduced(hi)
    ensures lo.Node? <==> prtAref != []
    ensures hi.Node? <==> |prtAref| > 1
    ensures |prtAref| == 1 ==> lo.range == prtAref[0]
    ensures |prtAref| > 1 ==> lo.range.high < hi.range.low && Spans(lo.range.low, hi.range.high, prtAref)
    ensures forall v, s :: Leads(lo, v, s) || Leads(hi, v, s) <==> ForestLeads(prtAref, sub, tree, width, v, s)
    decreases width, |prtAref|, 0
  {
    if |prtAref| == 0 {
      lo, hi := Nil, Nil;
    } else if |prtAref| == 1 {
      var prt := prtAref[0];
      assert prtAref == [prt] && prt in prtAref;
      var l, h := GenLohitrees(SubOf(sub, prt), sub, tree, prt.high - prt.low);
      lo := Node(prt, Some(tree[prt]), l, h);
      hi := Nil;
      forall v, s
        ensures Leads(lo, v, s) <==> ForestLeads(prtAref, sub, tree, width, v, s)
      {
        LeadsOfSingle(prt, sub, tree, width, v, s);
      }
    } else {
      hide Forest, ForestLeads, Shape, Reduced;
      var left, right := Halves(prtAref, sub, tree, width);
      lo := GenRangetree(left, sub, tree, width);
      hi := GenRangetree(right, sub, tree, width);
      ForestRanges(prtAref, sub, tree, width);
      SpansBoth(left, right, prtAref, lo.range, hi.range);
      forall v, s {
        LeadsOfParts(prtAref, left, right, sub, tree, width, v, s);
      }
    }
  }

  lemma ForestRanges<S(!new)>(list: seq<Range>, sub: map<Range, seq<Range>>, tree: map<Range, S>, width: nat)
    requires Forest(list, sub, tree, width)
    ensures forall r :: r in list ==> r.low <= r.high
  {}

  function One<S>(t: PrtTree<S>): seq<PrtTree<S>> {
    if t.Node? then [t] else []
  }

  /** One tree for two neighboring trees; adjacent ranges with the same subtree
      are merged, if they have no more than two branches together. */
  function Joined<S(==)>(lo: PrtTree<S>, hi: PrtTree<S>): PrtTree<S>
    requires lo.Node? && hi.Node?
  {
    var range := Range(lo.range.low, hi.range.high);
    var hilo := One(lo.lo) + One(lo.hi) + One(hi.lo) + One(hi.hi);
    if lo.range.high + 1 == hi.range.low && lo.subtree.Some? && lo.subtree == hi.subtree && |hilo| <= 2 then
      Node(range, lo.subtree, if |hilo| > 0 then hilo[0] else Nil, if |hilo| > 1 then hilo[1] else Nil)
    else
      Node(range, None, lo, hi)
  }

  /** The branches that a merged node takes over. */
  lemma TwoOfFour<S>(a: PrtTree<S>, b: PrtTree<S>, c: PrtTree<S>, d: PrtTree<S>)
    requires |One(a) + One(b) + One(c) + One(d)| <= 2
    ensures var l := One(a) + One(b) + One(c) + One(d);
            var x, y := if |l| > 0 then l[0] else Nil, if |l| > 1 then l[1] else Nil;
            || (x == a && y == b && c.Nil? && d.Nil?) || (x == a && y == c && b.Nil? && d.Nil?)
            || (x == a && y == d && b.Nil? && c.Nil?) || (x == b && y == c && a.Nil? && d.Nil?)
            || (x == b && y == d && a.Nil? && c.Nil?) || (x == c && y == d && a.Nil? && b.Nil?)
            || (x == b && y == Nil && a.Nil? && c.Nil? && d.Nil?)
            || (x == c && y == Nil && a.Nil? && b.Nil? && d.Nil?)
            || (x == d && y == Nil && a.Nil? && b.Nil? && c.Nil?)
  {}

  lemma {:induction false} JoinedCorrect<S(!new)>(lo: PrtTree<S>, hi: PrtTree<S>)
    requires lo.Node? && hi.Node? && Shape(lo) && Shape(hi) && lo.range.high < hi.range.low
    ensures Joined(lo, hi).Node? && Joined(lo, hi).range == Range(lo.range.low, hi.range.high)
    ensures Shape(Joined(lo, hi))
    ensures forall v, s :: Leads(Joined(lo, hi), v, s) <==> Leads(lo, v, s) || Leads(hi, v, s)
  {
    if |One(lo.lo) + One(lo.hi) + One(hi.lo) + One(hi.hi)| <= 2 {
      TwoOfFour(lo.lo, lo.hi, hi.lo, hi.hi);
    }
    var t := Joined(lo, hi);
    forall v, s
      ensures Leads(t, v, s) <==> Leads(lo, v, s) || Leads(hi, v, s)
    {
      if t.subtree.Some? {
        assert Leads(lo, v, s) || Leads(hi, v, s) <==>
          (t.subtree == Some(s) && t.range.Has(v)) ||
          Leads(lo.lo, v, s) || Leads(lo.hi, v, s) || Leads(hi.lo, v, s) || Leads(hi.hi, v, s);
      }
    }
  }

  method GenRangetree<S(==,!new)>(prtAref: seq<Range>, sub: map<Range, seq<Range>>, tree: map<Range, S>,
                                  ghost width: nat)
    returns (t: PrtTree<S>)
    requires Forest(prtAref, sub, tree, width)
    ensures Shape(t) && Reduced(t) && (t.Node? <==> prtAref != [])
    ensures t.Node? ==> Spans(t.range.low, t.range.high, prtAref)
    ensures forall v, s :: Leads(t, v, s) <==> ForestLeads(prtAref, sub, tree, width, v, s)
    decreases width, |prtAref|, 1
  {
    hide Joined, Shape, Reduced, Forest;
    var lo, hi := GenLohitrees(prtAref, sub, tree, width);
    if hi.Nil? {
      t := lo;
    } else {
      JoinedCorrect(lo, hi);
      JoinedReduced(lo, hi);
      t := Joined(lo, hi);
    }
  }
}
