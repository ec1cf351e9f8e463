/** Arranging port ranges (`orderRanges` in go/pkg/pass1/order-protocols.go).

    Ranges are visited in the order of their low port, larger ones first.  A
    range that overlaps the current one is split in two; both parts are looked
    up in the rest of the list, and inserted if they are not found.
  */
module OrderProtocols {
  import opened Wrappers
  import Sorting

  class Proto {
    const low: int
    const high: int
    var up: Proto?
    var split: Option<(Proto, Proto)>

    constructor (low: int, high: int)
      ensures this.low == low && this.high == high && up == null && split == None
    {
      this.low, this.high, up, split := low, high, null, None;
    }

    /** Two adjacent ranges make up this one. */
    predicate HalvedInto(x: Proto, y: Proto) {
      x.low == low && x.high + 1 == y.low && y.high == high
    }

    predicate Inside(outer: Proto) {
      outer.low <= low && high <= outer.high
    }

  }

  /** Larger ranges come first, if low ports are equal. */
  function RangeOrder(p: Proto): (int, int) {
    (p.low, -p.high)
  }

  predicate Before(p: Proto, q: Proto) {
    p.low < q.low || (p.low == q.low && p.high > q.high)
  }

  ghost predicate Ordered(l: seq<Proto>) {
    && (forall k :: 0 <= k < |l| ==> l[k].low <= l[k].high && l[k].Inside(l[0]))
    && (forall j, k :: 0 <= j < k < |l| ==> Before(l[j], l[k]))
  }

  // ------------------------------------------------------------- state of the sweep

  /** Two parts in the list make up the range. */
  ghost predicate SplitOk(l: seq<Proto>, p: Proto)
    reads p
  {
    p.split.Some? ==>
      var (x, y) := p.split.value;
      x in l && y in l && p.HalvedInto(x, y)
  }

  ghost predicate SplitsOk(l: seq<Proto>, n: nat)
    requires n <= |l|
    reads l[..n]
  {
    forall k :: 0 <= k < n ==> SplitOk(l, l[..n][k])
  }

  ghost predicate UnsplitFrom(l: seq<Proto>, n: nat)
    requires n <= |l|
    reads l[n..]
  {
    forall q :: q in l[n..] ==> q.split.None?
  }

  /** `p.up` is the smallest of the other unsplit ranges among the first `n` that
      include `p`. */
  ghost predicate UpOk(l: seq<Proto>, n: nat, p: Proto)
    requires n <= |l|
    reads p, l[..n]
  {
    && p.up != null && p.up in l[..n] && p.up != p && p.up.split.None? && p.Inside(p.up)
    && forall q :: q in l[..n] && q != p && q.split.None? && p.Inside(q) ==> p.up.Inside(q)
  }

  ghost predicate UpsOk(l: seq<Proto>, n: nat)
    requires n <= |l|
    reads l[..n]
  {
    forall q :: q in l[..n] && q != l[0] && q.split.None? ==> UpOk(l, n, q)
  }

  /** Unsplit ranges are nested or disjoint. */
  ghost predicate Laminar(l: seq<Proto>, n: nat)
    requires n <= |l|
    reads l[..n]
  {
    forall p, q :: p in l[..n] && q in l[..n] && p.split.None? && q.split.None? && Before(p, q) ==>
      q.Inside(p) || p.high < q.low
  }

  /** The range ends before all ranges that are still to be visited. */
  ghost predicate Closed(l: seq<Proto>, n: nat, p: Proto) {
    n < |l| ==> p.high < l[n].low
  }

  ghost predicate OpenOnly(l: seq<Proto>, n: nat, stack: seq<Proto>)
    requires n <= |l|
    reads l[..n]
  {
    forall q :: q in l[..n] && q.split.None? ==> q in stack || Closed(l, n, q)
  }

  /** The ranges in progress: each includes the next one. */
  ghost predicate StackOk(l: seq<Proto>, n: nat, stack: seq<Proto>)
    requires n <= |l|
    reads stack
  {
    && (forall q :: q in stack ==> q in l[..n] && q.split.None?)
    && (forall j, k :: 0 <= j < k < |stack| ==> stack[k].Inside(stack[j]))
  }

  /** The first `n` ranges have been visited; those in `stack` may include further ones. */
  ghost predicate Passed(l: seq<Proto>, n: nat, stack: seq<Proto>)
    requires n <= |l|
    reads l[..n], stack
  {
    && Ordered(l)
    && StackOk(l, n, stack) && SplitsOk(l, n) && OpenOnly(l, n, stack)
    && UpsOk(l, n) && Laminar(l, n)
  }

  ghost predicate Visited(l: seq<Proto>, n: nat, stack: seq<Proto>)
    reads l, stack
  {
    0 < n <= |l| && Passed(l, n, stack) && UnsplitFrom(l, n)
  }

  /** Position in the order of ranges; it only moves forward. */
  ghost function Rest(l: seq<Proto>, i: nat): (int, int) {
    if i < |l| then (1 + l[0].high - l[i].low, 1 + l[i].high - l[0].low) else (0, 0)
  }

  // ------------------------------------------------------------------------- steps

  lemma OrderedDistinct(l: seq<Proto>, i: nat)
    requires Ordered(l) && i < |l|
    ensures l[i] !in l[..i] && l[i] !in l[i + 1..]
    ensures l[..i + 1] == l[..i] + [l[i]] && l[i..] == [l[i]] + l[i + 1..]
    ensures forall q :: q in l[..i] ==> Before(q, l[i])
    ensures i > 0 ==> l[i] != l[0] && l[0] in l[..i]
  {
    assert forall j, k :: 0 <= j < k < |l| ==> Before(l[j], l[k]);
    assert i > 0 ==> l[..i][0] == l[0];
  }

  /** What ends before a range ends before the next one. */
  lemma Later(l: seq<Proto>, i: nat)
    requires Ordered(l) && i < |l|
    ensures forall p :: Closed(l, i, p) ==> Closed(l, i + 1, p)
  {
    assert i + 1 < |l| ==> Before(l[i], l[i + 1]);
  }

  /** Leaving the innermost range: it ends before the next one. */
  lemma Pop(l: seq<Proto>, n: nat, stack: seq<Proto>, a: Proto)
    requires Visited(l, n, stack + [a]) && Closed(l, n, a)
    ensures Visited(l, n, stack)
  {
    hide Ordered, UnsplitFrom, SplitsOk, UpsOk, Laminar;
    var t := stack + [a];
    assert forall k :: 0 <= k < |stack| ==> t[k] == stack[k];
  }

  /** The next range lies inside the innermost range `a`, and becomes the innermost one. */
  lemma Nest(l: seq<Proto>, i: nat, stack: seq<Proto>, a: Proto)
    requires Visited(l, i, stack + [a]) && i < |l|
    requires l[i].low <= a.high && l[i].high <= a.high && l[i].up == a
    ensures Visited(l, i + 1, stack + [a] + [l[i]])
  {
    hide StackOk, OpenOnly, UpsOk, Laminar, UpOk, Ordered;
    OrderedDistinct(l, i);
    NestStack(l, i, stack, a);
    NestOrder(l, i, stack, a);
    NestUps(l, i, a);
  }

  lemma NestStack(l: seq<Proto>, i: nat, stack: seq<Proto>, a: Proto)
    requires Visited(l, i, stack + [a]) && i < |l|
    requires l[i].low <= a.high && l[i].high <= a.high
    ensures StackOk(l, i + 1, stack + [a] + [l[i]])
    ensures a.split.None? && a in l[..i] && l[i].Inside(a)
  {
    hide OpenOnly, SplitsOk, UpsOk, Laminar;
    var b, t, n := l[i], stack + [a], i + 1;
    OrderedDistinct(l, i);
    assert t[|stack|] == a;
    forall k | 0 <= k < |t|
      ensures b.Inside(t[k])
    {
      assert t[k] in l[..i];
      assert k < |stack| ==> a.Inside(t[k]);
    }
  }

  /** Each visited range includes the next range and `a`, or ends before the next range. */
  lemma NestOrder(l: seq<Proto>, i: nat, stack: seq<Proto>, a: Proto)
    requires Visited(l, i, stack + [a]) && i < |l|
    requires l[i].low <= a.high && l[i].high <= a.high
    ensures forall q :: q in l[..i] && q.split.None? ==>
              (l[i].Inside(q) && a.Inside(q)) || q.high < l[i].low
    ensures OpenOnly(l, i + 1, stack + [a] + [l[i]])
    ensures Laminar(l, i + 1)
  {
    hide SplitsOk, UpsOk;
    OrderedDistinct(l, i);
    Later(l, i);
    hide Ordered;
    var t := stack + [a];
    forall q | q in l[..i] && q.split.None?
      ensures (l[i].Inside(q) && a.Inside(q)) || q.high < l[i].low
    {
      hide Laminar;
      if q in t {
        var j :| 0 <= j < |t| && t[j] == q;
        assert t[|stack|] == a;
      }
    }
    hide StackOk, Proto.Inside;
  }

  lemma NestUps(l: seq<Proto>, i: nat, a: Proto)
    requires Ordered(l) && 0 < i < |l| && UpsOk(l, i)
    requires a in l[..i] && a.split.None? && l[i].Inside(a) && l[i].up == a
    requires forall q :: q in l[..i] && q.split.None? ==>
              (l[i].Inside(q) && a.Inside(q)) || q.high < l[i].low
    ensures UpsOk(l, i + 1)
  {
    var b, n := l[i], i + 1;
    OrderedDistinct(l, i);
    hide Ordered;
    forall q | q in l[..n] && q != l[0] && q.split.None?
      ensures UpOk(l, n, q)
    {
      if q != b {
        assert UpOk(l, i, q);
        assert Before(q, b) && !q.Inside(b);
      }
    }
  }

  /** A range that is split is visited. */
  lemma Skip(l: seq<Proto>, i: nat, stack: seq<Proto>)
    requires 0 < i < |l| && Passed(l, i, stack) && UnsplitFrom(l, i + 1)
    requires l[i].split.Some? && SplitOk(l, l[i])
    ensures Visited(l, i + 1, stack)
  {
    OrderedDistinct(l, i);
    Later(l, i);
    hide Ordered, Closed;
    assert StackOk(l, i + 1, stack) by {
      hide UpsOk, SplitsOk, OpenOnly, Laminar;
    }
    hide StackOk;
    assert Laminar(l, i + 1) by {
      hide UpsOk, SplitsOk, OpenOnly, Before, Proto.Inside;
    }
    hide Laminar;
    assert OpenOnly(l, i + 1, stack) && SplitsOk(l, i + 1) by {
      hide UpsOk, SplitOk;
    }
    hide SplitsOk, OpenOnly;
    SkipUps(l, i);
  }

  lemma SkipUps(l: seq<Proto>, i: nat)
    requires i < |l| && UpsOk(l, i) && l[i].split.Some? && l[..i + 1] == l[..i] + [l[i]]
    ensures UpsOk(l, i + 1)
  {
    forall q | q in l[..i + 1] && q != l[0] && q.split.None?
      ensures UpOk(l, i + 1, q)
    {
      assert UpOk(l, i, q);
    }
  }

  // --------------------------------------------------------------------- insertion

  /** `m` extends `l` by unsplit ranges behind the first `n` ones. */
  ghost predicate Extends(l: seq<Proto>, m: seq<Proto>, n: nat)
    reads m
  {
    && n <= |l| && n <= |m| && Ordered(m) && l[..n] == m[..n]
    && (forall q :: q in m[n..] ==> q in l[n..] || q.split.None?)
    && (forall q :: q in l ==> q in m)
  }

  /** Inserting ranges behind the next one keeps the state. */
  lemma Grow(l: seq<Proto>, m: seq<Proto>, n: nat, stack: seq<Proto>)
    requires Visited(l, n, stack) && Extends(l, m, n + 1)
    ensures Visited(m, n, stack) && m[n] == l[n]
  {
    OrderedDistinct(l, n);
    OrderedDistinct(m, n);
    assert l[0] == l[..n + 1][0] == m[..n + 1][0] == m[0];
    assert l[n] == l[..n + 1][n] == m[..n + 1][n] == m[n];
    assert l[..n] == l[..n + 1][..n] == m[..n];
    hide Ordered, StackOk, Laminar;
    assert UnsplitFrom(m, n);
    assert SplitsOk(m, n);
    assert Laminar(m, n) && StackOk(m, n, stack);
    forall q | q in m[..n] && q != m[0] && q.split.None?
      ensures UpOk(m, n, q)
    {
      assert UpOk(l, n, q);
    }
  }

  lemma InsertOrdered(l: seq<Proto>, i: nat, p: Proto)
    requires Ordered(l) && 0 < i <= |l| && p.low <= p.high && p.Inside(l[0])
    requires Before(l[i - 1], p) && (i < |l| ==> Before(p, l[i]))
    ensures Ordered(Sorting.InsertAt(l, i, p))
  {
    var m := Sorting.InsertAt(l, i, p);
    assert forall k :: 0 <= k < i ==> Before(l[k], p) by {
      assert forall k :: 0 <= k < i - 1 ==> Before(l[k], l[i - 1]);
    }
    assert forall k :: i <= k < |l| ==> Before(p, l[k]) by {
      assert forall k :: i < k < |l| ==> Before(l[i], l[k]);
    }
    forall j, k | 0 <= j < k < |m|
      ensures Before(m[j], m[k])
    {
      hide Before, Proto.Inside;
      var x, y := if j < i then j else j - 1, if k < i then k else k - 1;
      assert j != i && k != i ==> Before(l[x], l[y]);
    }
  }

  lemma InsertExtends(l: seq<Proto>, n: nat, i: nat, p: Proto)
    requires n <= i <= |l| && p.split.None? && Ordered(Sorting.InsertAt(l, i, p))
    ensures Extends(l, Sorting.InsertAt(l, i, p), n)
    ensures p in Sorting.InsertAt(l, i, p) && forall q :: q in Sorting.InsertAt(l, i, p) ==> q in l || q == p
  {
    hide Ordered;
    var m := Sorting.InsertAt(l, i, p);
    assert m[i] == p;
    assert m[..n] == l[..n];
    assert m[n..] == l[n..i] + [p] + l[i..];
    assert l[n..] == l[n..i] + l[i..];
    assert l == l[..i] + l[i..];
  }

  /** No range of the list is lost. */
  ghost predicate Kept(l: seq<Proto>, m: seq<Proto>) {
    l != [] && m != [] && l[0] == m[0] && forall q :: q in l ==> q in m
  }

  /** `q` is one of the parts of a range that was split. */
  ghost predicate IsPart(l: seq<Proto>, q: Proto)
    reads l
  {
    exists p :: p in l && p.split.Some? && (q == p.split.value.0 || q == p.split.value.1)
  }

  /** A range is split only at the end of a listed range that starts before it and ends in it. */
  ghost predicate Overlapped(l: seq<Proto>, p: Proto)
    reads p
  {
    p.split.Some? ==> exists q :: q in l && q.low < p.low <= q.high < p.high && p.split.value.0.high == q.high
  }

  ghost predicate OnlyOverlapped(l: seq<Proto>)
    reads l
  {
    forall p :: p in l ==> Overlapped(l, p)
  }

  lemma OverlappedKept(l: seq<Proto>, m: seq<Proto>, p: Proto)
    requires Kept(l, m) && Overlapped(l, p)
    ensures Overlapped(m, p)
  {}

  lemma Overlaps(l: seq<Proto>, i: nat, stack: seq<Proto>, a: Proto)
    requires Visited(l, i, stack + [a]) && i < |l| && a.high < l[i].high
    ensures a in l && a.low < l[i].low
  {
    var t := stack + [a];
    assert t[|stack|] == a && a in t && a in l[..i];
    var k :| 0 <= k < i && l[k] == a;
  }

  /** The walk has not gone back. */
  ghost predicate Further(l: seq<Proto>, i: nat, m: seq<Proto>, j: nat) {
    && l != [] && m != [] && l[0] == m[0] && i <= |l| && j <= |m|
    && (j < |m| ==> i < |l| && (l[i] == m[j] || Before(l[i], m[j])))
  }

  lemma StepForward(l: seq<Proto>, i: nat, stack: seq<Proto>)
    requires Visited(l, i, stack) && i < |l|
    ensures i > 0 && Ordered(l) && UnsplitFrom(l, i + 1)
    ensures l[i].low <= l[i].high && l[i].Inside(l[0]) && l[0].low <= l[0].high
    ensures i + 1 < |l| ==> Before(l[i], l[i + 1]) && l[i + 1].low <= l[i + 1].high && l[i + 1].Inside(l[0])
    ensures l[i] !in l[..i] && l[i] !in l[i + 1..] && l[i] !in stack && l[i] != l[0]
  {
    OrderedDistinct(l, i);
  }

  lemma InBounds(l: seq<Proto>, i: nat, stack: seq<Proto>)
    requires Visited(l, i, stack)
    ensures i < |l| ==> l[i].low <= l[i].high && l[i].Inside(l[0]) && l[0].low <= l[0].high
  {
  }

  class Arranger {
    var l: seq<Proto>

    constructor (l: seq<Proto>)
      ensures this.l == l
    {
      this.l := l;
    }

    /** Returns the range [a1, a2] of the list, from position `i0` on; inserts a new
        range if it is not found. */
    method FindOrInsertRange(a1: int, a2: int, i0: nat) returns (p: Proto)
      requires Ordered(l) && 0 < i0 <= |l| && a1 <= a2
      requires l[0].low <= a1 && a2 <= l[0].high
      requires l[i0 - 1].low < a1 || (l[i0 - 1].low == a1 && l[i0 - 1].high > a2)
      modifies this
      ensures Extends(old(l), l, i0) && Kept(old(l), l)
      ensures p.low == a1 && p.high == a2 && p in l
      ensures forall q :: q in l ==> q in old(l) || (q == p && fresh(p) && p.split.None?)
    {
      var i := i0;
      while i < |l| && (a1 > l[i].low || (a1 == l[i].low && a2 < l[i].high))
        invariant i0 <= i <= |l|
        invariant l[i - 1].low < a1 || (l[i - 1].low == a1 && l[i - 1].high > a2)
      {
        i := i + 1;
      }
      if i < |l| && l[i].low == a1 && l[i].high == a2 {
        return l[i];
      }
      ghost var was := l;
      p := new Proto(a1, a2);
      InsertOrdered(l, i, p);
      InsertExtends(l, i0, i, p);
      l := Sorting.InsertAt(l, i, p);
    }

    /** The next range starts inside of `a` and ends behind it: splits it at the end of `a`. */
    method SplitOverlap(a: Proto, i: nat, ghost stack: seq<Proto>)
      requires Visited(l, i, stack + [a]) && i < |l| && OnlyOverlapped(l)
      requires l[i].low <= a.high < l[i].high
      modifies this, l[i]
      ensures OnlyOverlapped(l)
      ensures Visited(l, i + 1, stack + [a]) && Further(old(l), i, l, i + 1)
      ensures i + 1 < |l| ==> Before(old(l[i]), l[i + 1])
      ensures Kept(old(l), l) && l[0].up == old(l[0].up)
      ensures forall q :: q in l ==> q in old(l) || (fresh(q) && IsPart(l, q))
      ensures forall q :: q in old(l) && old(q.split.Some?) ==> q.split == old(q.split)
    {
      hide Ordered, Passed, Extends;
      var b := l[i];
      StepForward(l, i, stack + [a]);
      ghost var before := l;
      var left := FindOrInsertRange(b.low, a.high, i + 1);
      Grow(before, l, i, stack + [a]);
      StepForward(l, i, stack + [a]);
      before := l;
      var right := FindOrInsertRange(a.high + 1, b.high, i + 1);
      Grow(before, l, i, stack + [a]);
      StepForward(l, i, stack + [a]);
      Overlaps(l, i, stack, a);
      b.split := Some((left, right));
      assert OnlyOverlapped(l) by {
        forall q | q in l
          ensures Overlapped(l, q)
        {
          if q != b && q in old(l) {
            OverlappedKept(old(l), l, q);
          }
        }
      }
      Skip(l, i, stack + [a]);
    }

    /** Checks the ranges from position `i` on for sub-ranges of `a`.  Returns the
        position of the first one that starts behind `a`. */
    method CheckSubrange(a: Proto, i0: nat, ghost stack: seq<Proto>) returns (i: nat)
      requires Visited(l, i0, stack + [a]) && OnlyOverlapped(l)
      modifies this, set q | q in l
      ensures OnlyOverlapped(l)
      ensures Visited(l, i, stack) && (i < |l| ==> a.high < l[i].low)
      ensures Further(old(l), i0, l, i)
      ensures Kept(old(l), l) && l[0].up == old(l[0].up)
      ensures forall q :: q in l ==> q in old(l) || (fresh(q) && IsPart(l, q))
      ensures forall q :: q in old(l) && old(q.split.Some?) ==> q.split == old(q.split)
      decreases Rest(l, i0).0, Rest(l, i0).1, 1
    {
      hide Ordered, Passed, Extends, SplitOk;
      i := i0;
      while i < |l| && l[i].low <= a.high
        invariant Visited(l, i, stack + [a]) && Further(old(l), i0, l, i) && OnlyOverlapped(l)
        invariant Kept(old(l), l) && l[0].up == old(l[0].up)
        invariant forall q :: q in l ==> q in old(l) || (fresh(q) && IsPart(l, q))
        invariant forall q :: q in old(l) && old(q.split.Some?) ==> q.split == old(q.split)
        decreases Rest(l, i).0, Rest(l, i).1
      {
        StepForward(l, i, stack + [a]);
        i := CheckRange(a, i, stack);
        InBounds(l, i, stack + [a]);
        assert Kept(old(l), l) && Further(old(l), i0, l, i);
      }
      Pop(l, i, stack, a);
    }

    /** The range at position `i0`, which starts in `a`, either is a sub-range of `a`, or
        overlaps with it and is split. */
    method CheckRange(a: Proto, i0: nat, ghost stack: seq<Proto>) returns (i: nat)
      requires Visited(l, i0, stack + [a]) && i0 < |l| && l[i0].low <= a.high && OnlyOverlapped(l)
      modifies this, set q | q in l
      ensures OnlyOverlapped(l)
      ensures Visited(l, i, stack + [a])
      ensures Further(old(l), i0, l, i) && (i < |l| ==> Before(old(l)[i0], l[i]))
      ensures Kept(old(l), l) && l[0].up == old(l[0].up)
      ensures forall q :: q in l ==> q in old(l) || (fresh(q) && IsPart(l, q))
      ensures forall q :: q in old(l) && old(q.split.Some?) ==> q.split == old(q.split)
      decreases Rest(l, i0).0, Rest(l, i0).1, 0
    {
      hide Ordered, Passed, Extends, SplitOk;
      var b := l[i0];
      assert b in l;
      StepForward(l, i0, stack + [a]);
      if a.high >= b.high {
        b.up := a;
        Nest(l, i0, stack, a);
        i := CheckSubrange(b, i0 + 1, stack + [a]);
      } else {
        SplitOverlap(a, i0, stack);
        i := i0 + 1;
      }
    }
  }

  /** `up` links to the smallest unsplit range around, split ranges consist of their
      parts, and unsplit ranges are nested or disjoint. */
  ghost predicate Arranged(l: seq<Proto>)
    reads l
  {
    Ordered(l) && SplitsOk(l, |l|) && UpsOk(l, |l|) && Laminar(l, |l|)
  }

  /** Links each range to the smallest range which includes it, the largest range to
      `up`.  Overlapping ranges are split before. */
  method OrderRanges(protos: seq<Proto>, up: Proto) returns (l: seq<Proto>)
    requires forall p :: p in protos ==> p.low <= p.high && p.split.None?
    requires forall p, q :: p in protos && q in protos && p.low == q.low && p.high == q.high ==> p == q
    requires Sorting.Distinct(protos)
    requires protos != [] ==> exists full :: full in protos && forall p :: p in protos ==> p.Inside(full)
    modifies set p | p in protos
    ensures Arranged(l) && OnlyOverlapped(l)
    ensures protos != [] ==> l != [] && l[0].up == up && forall p :: p in protos ==> p.Inside(l[0])
    ensures forall p :: p in protos ==> p in l
    ensures forall p :: p in l ==> p in protos || (fresh(p) && IsPart(l, p))
  {
    hide Sorting.Sorted, Sorting.Distinct;
    l := Sorting.Sort(protos, RangeOrder);
    Sorting.SameElements(l, protos);
    Sorting.DistinctSame(l, protos);
    if l == [] {
      return;
    }
    SortedRanges(l);
    var a := l[0];
    a.up := up;
    Start(l);
    var arranger := new Arranger(l);
    var i := arranger.CheckSubrange(a, 1, []);
    l := arranger.l;
    Swept(l, i);
  }

  lemma SortedRanges(l: seq<Proto>)
    requires l != [] && Sorting.Sorted(l, RangeOrder) && Sorting.Distinct(l)
    requires forall p :: p in l ==> p.low <= p.high
    requires forall p, q :: p in l && q in l && p.low == q.low && p.high == q.high ==> p == q
    requires exists full :: full in l && forall p :: p in l ==> p.Inside(full)
    ensures Ordered(l)
  {
    forall j, k | 0 <= j < k < |l|
      ensures Before(l[j], l[k])
    {
      assert Sorting.Before(RangeOrder(l[j]), RangeOrder(l[k]));
      assert l[j] in l && l[k] in l && l[j] != l[k];
      assert l[j].low != l[k].low || l[j].high != l[k].high;
    }
    var full :| full in l && forall p :: p in l ==> p.Inside(full);
    var m :| 0 <= m < |l| && l[m] == full;
    assert m > 0 ==> Before(l[0], l[m]);
    assert l[0].Inside(full);
  }

  lemma Swept(l: seq<Proto>, i: nat)
    requires Visited(l, i, []) && (i < |l| ==> l[0].high < l[i].low)
    ensures Arranged(l)
  {
    InBounds(l, i, []);
    assert i == |l|;
  }

  lemma Start(l: seq<Proto>)
    requires l != [] && Ordered(l) && forall p :: p in l ==> p.split.None?
    ensures Visited(l, 1, [] + [l[0]])
  {
    assert l[..1] == [l[0]];
    assert [] + [l[0]] == [l[0]];
    hide Ordered;
  }
}
