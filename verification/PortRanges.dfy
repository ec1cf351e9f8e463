/** Relations between the port ranges of an ACL (`orderRanges` in
    go/cmd/spoc2/main.go): the smallest range around each range, and which
    ranges have a neighbor.
  */
module PortRanges {
  import Sorting

  /** `proto`, for TCP and UDP. */
  class Proto {
    const protocol: string
    const low: int
    const high: int
    const established: bool
    var up: Proto?
    var hasNeighbor: bool

    constructor (protocol: string, low: int, high: int, established: bool)
      ensures this.protocol == protocol && this.low == low && this.high == high
      ensures this.established == established && up == null && !hasNeighbor
    {
      this.protocol, this.low, this.high, this.established := protocol, low, high, established;
      up, hasNeighbor := null, false;
    }

    predicate Inside(outer: Proto) {
      outer.low <= low && high <= outer.high
    }

    predicate Adjacent(next: Proto) {
      high + 1 == next.low
    }
  }

  function RangeOrder(p: Proto): (int, int) {
    (p.low, -p.high)
  }

  predicate Before(p: Proto, q: Proto) {
    p.low < q.low || (p.low == q.low && p.high > q.high)
  }

  ghost predicate Ordered(l: seq<Proto>) {
    && (forall k :: 0 <= k < |l| ==> l[k].low <= l[k].high)
    && (forall j, k :: 0 <= j < k < |l| ==> Before(l[j], l[k]))
  }

  /** The first `n` ranges are nested or disjoint. */
  ghost predicate Laminar(l: seq<Proto>, n: nat)
    requires n <= |l|
  {
    forall p, q :: p in l[..n] && q in l[..n] && Before(p, q) ==> q.Inside(p) || p.high < q.low
  }

  /** `p.up` is the smallest other range around `p`, or `up` if there is none. */
  ghost predicate UpOk(l: seq<Proto>, n: nat, up: Proto, p: Proto)
    requires n <= |l|
    reads p`up
  {
    if exists q :: q in l[..n] && q != p && p.Inside(q) then
      && p.up != null && p.up in l[..n] && p.up != p && p.Inside(p.up)
      && forall q :: q in l[..n] && q != p && p.Inside(q) ==> p.up.Inside(q)
    else
      p.up == up
  }

  ghost predicate UpsOk(l: seq<Proto>, n: nat, up: Proto)
    requires n <= |l|
    reads l[..n]`up
  {
    forall q :: q in l[..n] ==> UpOk(l, n, up, q)
  }

  /** The neighbors of the first `n` ranges are marked, except pairs of a range in
      progress and a range that is still to be visited. */
  ghost predicate Marked(l: seq<Proto>, n: nat, stack: seq<Proto>)
    requires n <= |l|
    reads l`hasNeighbor
  {
    forall p, q :: p in l[..n] && q in l && p.Adjacent(q) && (q in l[..n] || p !in stack) ==>
      p.hasNeighbor && q.hasNeighbor
  }

  ghost predicate HasAdjacent(l: seq<Proto>, p: Proto) {
    exists q :: q in l && (p.Adjacent(q) || q.Adjacent(p))
  }

  /** Only ranges with a neighbor are marked. */
  ghost predicate NoOtherMarked(l: seq<Proto>)
    reads l`hasNeighbor
  {
    forall p :: p in l && p.hasNeighbor ==> HasAdjacent(l, p)
  }

  ghost predicate Closed(l: seq<Proto>, n: nat, p: Proto) {
    n < |l| ==> p.high < l[n].low
  }

  /** The ranges in progress: each includes the next one. */
  ghost predicate StackOk(l: seq<Proto>, n: nat, stack: seq<Proto>)
    requires n <= |l|
  {
    && (forall q :: q in stack ==> q in l[..n])
    && (forall j, k :: 0 <= j < k < |stack| ==> stack[k].Inside(stack[j]))
    && (forall q :: q in l[..n] ==> q in stack || Closed(l, n, q))
  }

  ghost predicate Visited(l: seq<Proto>, n: nat, stack: seq<Proto>, up: Proto)
    reads l
  {
    && n <= |l| && Ordered(l) && StackOk(l, n, stack) && Laminar(l, n)
    && UpsOk(l, n, up) && Marked(l, n, stack) && NoOtherMarked(l)
  }

  // ------------------------------------------------------------------------- steps

  lemma OrderedAt(l: seq<Proto>, i: nat)
    requires Ordered(l) && i < |l|
    ensures l[i] in l && l[i].low <= l[i].high && l[i] !in l[..i]
    ensures l[..i + 1] == l[..i] + [l[i]] && l[i..] == [l[i]] + l[i + 1..] && l == l[..i] + l[i..]
    ensures forall q :: q in l[..i] ==> Before(q, l[i])
    ensures forall q :: q in l[i + 1..] ==> Before(l[i], q)
    ensures i + 1 < |l| ==> l[i].low <= l[i + 1].low
  {
    assert forall j, k :: 0 <= j < k < |l| ==> Before(l[j], l[k]);
  }

  /** Leaving the innermost range `a`, after its neighbors have been marked. */
  lemma {:induction false} Pop(l: seq<Proto>, n: nat, stack: seq<Proto>, up: Proto, a: Proto)
    requires Visited(l, n, stack + [a], up) && Closed(l, n, a)
    requires forall q :: q in l[n..] && a.Adjacent(q) ==> a.hasNeighbor && q.hasNeighbor
    ensures Visited(l, n, stack, up)
  {
    hide Ordered, Laminar, UpsOk, NoOtherMarked;
    var t := stack + [a];
    assert forall k :: 0 <= k < |stack| ==> t[k] == stack[k];
    assert StackOk(l, n, stack) by {
      hide Marked, Closed;
    }
    assert l == l[..n] + l[n..];
    hide StackOk, Closed;
  }

  /** The next range is visited; it lies inside the ranges in progress. */
  lemma {:induction false} Push(l: seq<Proto>, i: nat, stack: seq<Proto>, up: Proto)
    requires Visited(l, i, stack, up) && i < |l|
    requires forall q :: q in stack ==> l[i].Inside(q)
    requires l[i].up == if stack == [] then up else stack[|stack| - 1]
    ensures Visited(l, i + 1, stack + [l[i]], up)
  {
    hide StackOk, Laminar, UpsOk, Marked, NoOtherMarked, Ordered;
    PushStack(l, i, stack);
    PushMarked(l, i, stack);
    PushUps(l, i, stack, up);
  }

  lemma {:induction false} PushStack(l: seq<Proto>, i: nat, stack: seq<Proto>)
    requires Ordered(l) && i < |l| && StackOk(l, i, stack) && Laminar(l, i)
    requires forall q :: q in stack ==> l[i].Inside(q)
    ensures StackOk(l, i + 1, stack + [l[i]]) && Laminar(l, i + 1)
    ensures forall q :: q in l[..i] ==> q in stack || q.high < l[i].low
  {
    OrderedAt(l, i);
    hide Ordered;
    assert forall q :: q in l[..i] ==> q in stack || q.high < l[i].low;
    assert Laminar(l, i + 1) by {
      hide StackOk, Closed;
    }
    hide Laminar;
    PushChain(l, i, stack);
  }

  lemma {:induction false} PushChain(l: seq<Proto>, i: nat, stack: seq<Proto>)
    requires i < |l| && StackOk(l, i, stack) && l[..i + 1] == l[..i] + [l[i]]
    requires forall q :: q in stack ==> l[i].Inside(q)
    requires forall q :: q in l[..i] ==> q in stack || q.high < l[i].low
    requires i + 1 < |l| ==> l[i].low <= l[i + 1].low
    ensures StackOk(l, i + 1, stack + [l[i]])
  {
    var t := stack + [l[i]];
    forall j, k | 0 <= j < k < |t|
      ensures t[k].Inside(t[j])
    {
      assert t[j] in stack;
    }
  }

  /** A range that is adjacent to the next one is no longer in progress. */
  lemma {:induction false} PushMarked(l: seq<Proto>, i: nat, stack: seq<Proto>)
    requires Ordered(l) && i < |l| && Marked(l, i, stack)
    requires forall q :: q in stack ==> l[i].Inside(q)
    ensures Marked(l, i + 1, stack + [l[i]])
  {
    OrderedAt(l, i);
    hide Ordered;
  }

  lemma {:induction false} PushUps(l: seq<Proto>, i: nat, stack: seq<Proto>, up: Proto)
    requires Ordered(l) && i < |l| && UpsOk(l, i, up) && StackOk(l, i, stack)
    requires forall q :: q in stack ==> l[i].Inside(q)
    requires forall q :: q in l[..i] ==> q in stack || q.high < l[i].low
    requires l[i].up == if stack == [] then up else stack[|stack| - 1]
    ensures UpsOk(l, i + 1, up)
  {
    OrderedAt(l, i);
    hide Ordered, Closed;
    var b, n := l[i], i + 1;
    forall q | q in l[..n]
      ensures UpOk(l, n, up, q)
    {
      if q != b {
        assert UpOk(l, i, up, q);
        assert Before(q, b) && !q.Inside(b);
      } else {
        PushUp(l, i, stack, up);
      }
    }
  }

  lemma {:induction false} PushUp(l: seq<Proto>, i: nat, stack: seq<Proto>, up: Proto)
    requires i < |l| && StackOk(l, i, stack) && l[i] !in l[..i] && l[..i + 1] == l[..i] + [l[i]]
    requires l[i].low <= l[i].high
    requires forall q :: q in stack ==> l[i].Inside(q)
    requires forall q :: q in l[..i] ==> q in stack || q.high < l[i].low
    requires l[i].up == if stack == [] then up else stack[|stack| - 1]
    ensures UpOk(l, i + 1, up, l[i])
  {
    var b, n := l[i], i + 1;
    if stack != [] {
      var a := stack[|stack| - 1];
      assert a in stack;
      forall q | q in l[..n] && q != b && b.Inside(q)
        ensures a.Inside(q)
      {
        assert q in stack;
        var k :| 0 <= k < |stack| && stack[k] == q;
        assert k < |stack| - 1 ==> a.Inside(stack[k]);
      }
    }
  }

  // ----------------------------------------------------------------------- methods

  /** Marks range `a`, the range at position `i`, and all others with the same low port. */
  method SetMarks(l: seq<Proto>, i: nat, a: Proto)
    requires Ordered(l) && i < |l| && a in l
    modifies l`hasNeighbor
    ensures forall q :: q in l && old(q.hasNeighbor) ==> q.hasNeighbor
    ensures forall q :: q in l && q.hasNeighbor ==> old(q.hasNeighbor) || q == a || q.low == l[i].low
    ensures a.hasNeighbor && forall q :: q in l[i..] && q.low == l[i].low ==> q.hasNeighbor
  {
    hide Ordered;
    var b := l[i];
    a.hasNeighbor := true;
    b.hasNeighbor := true;
    var k := i + 1;
    while k < |l| && l[k].low == b.low
      invariant i < k <= |l|
      invariant forall q :: q in l && old(q.hasNeighbor) ==> q.hasNeighbor
      invariant forall q :: q in l && q.hasNeighbor ==> old(q.hasNeighbor) || q == a || q.low == b.low
      invariant a.hasNeighbor && forall j :: i <= j < k ==> l[j].hasNeighbor
    {
      l[k].hasNeighbor := true;
      k := k + 1;
    }
    BehindBlock(l, i, k);
  }

  lemma {:induction false} BehindBlock(l: seq<Proto>, i: nat, k: nat)
    requires Ordered(l) && i < k <= |l| && (k < |l| ==> l[k].low != l[i].low)
    ensures forall q :: q in l[i..] && q.low == l[i].low ==> q in l[i..k]
  {
    assert l[i..] == l[i..k] + l[k..];
    assert k < |l| ==> Before(l[i], l[k]);
    assert forall j :: k < j < |l| ==> Before(l[k], l[j]);
  }

  /** Marks the innermost range `a` and all ranges that start behind it, if the next
      range does. */
  method MarkNeighbors(l: seq<Proto>, i: nat, ghost stack: seq<Proto>, ghost up: Proto, a: Proto)
    requires Visited(l, i, stack + [a], up) && i < |l|
    modifies l`hasNeighbor
    ensures Visited(l, i, stack + [a], up)
    ensures Closed(l, i, a) ==> forall q :: q in l[i..] && a.Adjacent(q) ==> a.hasNeighbor && q.hasNeighbor
  {
    hide StackOk, Laminar, UpsOk;
    OrderedAt(l, i);
    hide Ordered;
    InStack(l, i, stack, a);
    var b := l[i];
    if a.high + 1 == b.low {
      SetMarks(l, i, a);
      assert a.Adjacent(b) && b in l;
    }
  }

  lemma {:induction false} InStack(l: seq<Proto>, i: nat, stack: seq<Proto>, a: Proto)
    requires i <= |l| && StackOk(l, i, stack + [a])
    ensures a in l[..i] && a in l
    ensures forall q :: q in stack + [a] ==> a.Inside(q)
  {
    var t := stack + [a];
    assert t[|stack|] == a;
    assert l == l[..i] + l[i..];
    forall q | q in t
      ensures a.Inside(q)
    {
      var k :| 0 <= k < |t| && t[k] == q;
      assert k < |stack| ==> t[|stack|].Inside(t[k]);
    }
  }

  /** Visits the ranges inside of `a`, starting at position `i0`.  Returns the position
      of the first range behind `a`, or 0 if there is none.  Stops at overlapping
      ranges. */
  method CheckSubrange(l: seq<Proto>, a: Proto, i0: nat, ghost stack: seq<Proto>, ghost up: Proto)
    returns (i: nat, ok: bool)
    requires i0 > 0 && Visited(l, i0, stack + [a], up)
    modifies l
    ensures ok && i > 0 ==> i0 <= i < |l| && Visited(l, i, stack, up) && a.high < l[i].low
    ensures ok && i == 0 ==> Visited(l, |l|, stack, up)
    ensures !ok ==> !Laminar(l, |l|)
    decreases |l| - i0
  {
    hide Ordered, StackOk, Laminar, UpsOk, Marked, NoOtherMarked;
    i := i0;
    while true
      invariant i0 <= i && Visited(l, i, stack + [a], up)
      decreases |l| - i
    {
      if i == |l| {
        Pop(l, i, stack, up, a);
        return 0, true;
      }
      var b := l[i];
      MarkNeighbors(l, i, stack, up, a);
      if a.high < b.low {
        Pop(l, i, stack, up, a);
        return i, true;
      }
      if a.high >= b.high {
        NestedIn(l, i, stack, a);
        b.up := a;
        Push(l, i, stack + [a], up);
        i, ok := CheckSubrange(l, b, i + 1, stack + [a], up);
        if !ok {
          return;
        }
        if i == 0 {
          Pop(l, |l|, stack, up, a);
          return;
        }
      } else {
        Overlap(l, i, stack, a);
        return i, false;
      }
    }
  }

  lemma {:induction false} NestedIn(l: seq<Proto>, i: nat, stack: seq<Proto>, a: Proto)
    requires Ordered(l) && i < |l| && StackOk(l, i, stack + [a])
    requires l[i].high <= a.high
    ensures l[i] in l && l[i] !in l[..i]
    ensures forall q :: q in stack + [a] ==> l[i].Inside(q)
  {
    InStack(l, i, stack, a);
    OrderedAt(l, i);
    hide Ordered;
  }

  lemma {:induction false} Overlap(l: seq<Proto>, i: nat, stack: seq<Proto>, a: Proto)
    requires Ordered(l) && i < |l| && StackOk(l, i, stack + [a])
    requires l[i].low <= a.high < l[i].high
    ensures !Laminar(l, |l|)
  {
    InStack(l, i, stack, a);
    OrderedAt(l, i);
    assert l[..|l|] == l;
  }

  // ----------------------------------------------------------------------- results

  /** Each range is linked to the smallest range around it, or to `up`. */
  ghost predicate Linked(l: seq<Proto>, up: Proto)
    reads l`up
  {
    forall p :: p in l ==>
      if exists q :: q in l && q != p && p.Inside(q) then
        && p.up != null && p.up in l && p.up != p && p.Inside(p.up)
        && forall q :: q in l && q != p && p.Inside(q) ==> p.up.Inside(q)
      else
        p.up == up
  }

  /** Exactly those ranges are marked that are adjacent to another one. */
  ghost predicate NeighborsMarked(l: seq<Proto>)
    reads l`hasNeighbor
  {
    forall p :: p in l ==> (p.hasNeighbor <==> HasAdjacent(l, p))
  }

  ghost predicate NestedOrDisjoint(l: seq<Proto>) {
    forall p, q :: p in l && q in l ==> p.Inside(q) || q.Inside(p) || p.high < q.low || q.high < p.low
  }

  lemma {:induction false} Finished(l: seq<Proto>, up: Proto)
    requires Visited(l, |l|, [], up)
    ensures Linked(l, up) && NeighborsMarked(l) && NestedOrDisjoint(l)
  {
    assert l[..|l|] == l;
    hide StackOk;
    assert NestedOrDisjoint(l) by {
      hide Marked, NoOtherMarked, UpsOk;
      Comparable(l);
      hide Ordered;
    }
    hide Laminar, Ordered;
    assert NeighborsMarked(l) by {
      hide UpsOk;
    }
    hide Marked, NoOtherMarked;
    forall p | p in l
      ensures UpOk(l, |l|, up, p)
    {
    }
  }

  lemma Comparable(l: seq<Proto>)
    requires Ordered(l)
    ensures forall p, q :: p in l && q in l ==> p == q || Before(p, q) || Before(q, p)
  {
  }

  lemma {:induction false} NotNested(l: seq<Proto>)
    requires !Laminar(l, |l|)
    ensures !NestedOrDisjoint(l)
  {
    assert l[..|l|] == l;
  }

  lemma {:induction false} Begin(l: seq<Proto>, up: Proto)
    requires Ordered(l) && forall p :: p in l ==> !p.hasNeighbor
    ensures Visited(l, 0, [], up)
  {
  }

  lemma {:induction false} SortedRanges(l: seq<Proto>)
    requires Sorting.Sorted(l, RangeOrder) && Sorting.Distinct(l)
    requires forall p :: p in l ==> p.low <= p.high
    requires forall p, q :: p in l && q in l && p.low == q.low && p.high == q.high ==> p == q
    ensures Ordered(l)
  {
    forall j, k | 0 <= j < k < |l|
      ensures Before(l[j], l[k])
    {
      assert Sorting.Before(RangeOrder(l[j]), RangeOrder(l[k]));
      assert l[j] in l && l[k] in l && l[j] != l[k];
    }
  }

  predicate IsRange(p: Proto, protocol: string) {
    p.protocol == protocol && !p.established
  }

  /** The objects of a map of protocols; different names stand for different ranges. */
  ghost predicate Ranges(protos: seq<Proto>, protocol: string)
    reads protos
  {
    && Sorting.Distinct(protos)
    && (forall p :: p in protos && IsRange(p, protocol) ==> p.low <= p.high && !p.hasNeighbor)
    && (forall p, q | p in protos && q in protos && IsRange(p, protocol) && IsRange(q, protocol) ::
          p.low == q.low && p.high == q.high ==> p == q)
  }

  method SelectRanges(protos: seq<Proto>, protocol: string) returns (ranges: seq<Proto>)
    requires Sorting.Distinct(protos)
    ensures Sorting.Distinct(ranges)
    ensures forall p :: p in ranges <==> p in protos && IsRange(p, protocol)
  {
    ranges := [];
    var i := 0;
    while i < |protos|
      invariant 0 <= i <= |protos|
      invariant Sorting.Distinct(ranges)
      invariant forall p :: p in ranges <==> p in protos[..i] && IsRange(p, protocol)
    {
      assert protos[..i + 1] == protos[..i] + [protos[i]];
      if protos[i].protocol == protocol && !protos[i].established {
        assert protos[i] !in ranges;
        ranges := ranges + [protos[i]];
      }
      i := i + 1;
    }
    assert protos[..|protos|] == protos;
  }

  /** Sets `up` and `hasNeighbor` of all ranges of a protocol; fails exactly if ranges overlap. */
  method OrderRanges(protocol: string, protos: seq<Proto>, up: Proto) returns (l: seq<Proto>, ok: bool)
    requires Ranges(protos, protocol)
    modifies set p | p in protos && IsRange(p, protocol)
    ensures forall p :: p in l <==> p in protos && IsRange(p, protocol)
    ensures ok <==> NestedOrDisjoint(l)
    ensures ok ==> Linked(l, up) && NeighborsMarked(l)
  {
    hide Sorting.Distinct, Sorting.Sorted, NestedOrDisjoint, Linked, NeighborsMarked, Visited, Laminar, Ordered;
    hide HasAdjacent;
    var ranges := SelectRanges(protos, protocol);
    l := Sorting.Sort(ranges, RangeOrder);
    Sorting.SameElements(l, ranges);
    Sorting.DistinctSame(l, ranges);
    SortedRanges(l);
    Begin(l, up);
    if |l| == 0 {
      Finished(l, up);
      return l, true;
    }
    var index := 0;
    while true
      invariant 0 <= index < |l| && Visited(l, index, [], up)
      decreases |l| - index
    {
      var a := l[index];
      assert a in l;
      SetTop(l, index, up);
      assert [] + [a] == [a];
      index, ok := CheckSubrange(l, a, index + 1, [], up);
      if !ok {
        NotNested(l);
        return;
      }
      if index == 0 {
        Finished(l, up);
        return;
      }
    }
  }

  /** A range that lies in no other one is linked to `up`. */
  method SetTop(l: seq<Proto>, i: nat, up: Proto)
    requires Visited(l, i, [], up) && i < |l|
    modifies l
    ensures Visited(l, i + 1, [l[i]], up)
  {
    hide StackOk, Laminar, UpsOk, Marked, NoOtherMarked;
    OrderedAt(l, i);
    hide Ordered;
    l[i].up := up;
    Push(l, i, [], up);
    assert [] + [l[i]] == [l[i]];
  }
}
