/** `setupIPNetRelation` in go/cmd/spoc2/main.go: links each network of an ACL to the
    smallest network around it, and passes the attribute `optNetworks` down.
  */
module IpNetRelation {
  import opened Prefixes
  import opened SubnetRelation

  class IpNet {
    const net: Prefix
    var up: IpNet?
    var optNetworks: IpNet?

    constructor (net: Prefix)
      ensures this.net == net && up == null && optNetworks == null
    {
      this.net, up, optNetworks := net, null, null;
    }
  }

  /** `0.0.0.0/0`, or `::/0` */
  function Net00(bits: nat): Prefix {
    Prefix(0, bits)
  }

  /** All networks are stored under their address and mask. */
  ghost predicate Known(objs: map<Prefix, IpNet>, bits: nat) {
    forall n :: n in objs ==> objs[n].net == n && n.Valid() && n.inv <= bits && n.base < Pow2(bits)
  }

  ghost predicate Marks(objs: map<Prefix, IpNet>)
    reads objs.Values
  {
    forall n :: n in objs ==> objs[n].optNetworks == null || objs[n].optNetworks == objs[n]
  }

  /** The networks that are marked by themselves. */
  ghost function Marked(objs: map<Prefix, IpNet>): set<Prefix>
    reads objs.Values
  {
    set n | n in objs && objs[n].optNetworks != null
  }

  /** `up` is the smallest of all larger networks around `n`, and missing if there is none. */
  ghost predicate UpOk(objs: map<Prefix, IpNet>, n: Prefix)
    requires n in objs
    reads objs.Values`up
  {
    var up := objs[n].up;
    if up == null then
      forall q :: q in objs ==> !Strict(q, n)
    else
      && up.net in objs && objs[up.net] == up && Strict(up.net, n)
      && forall q :: q in objs && Strict(q, n) ==> up.net.inv <= q.inv
  }

  ghost predicate UpsOk(objs: map<Prefix, IpNet>)
    reads objs.Values`up
  {
    forall n :: n in objs ==> UpOk(objs, n)
  }

  /** `o` is the largest marked network that includes `n`, if there is one. */
  ghost predicate LargestMarked(objs: map<Prefix, IpNet>, marks: set<Prefix>, n: Prefix, o: IpNet?) {
    if o == null then
      forall m :: m in marks ==> !m.Covers(n)
    else
      && o.net in marks && o.net in objs && objs[o.net] == o && o.net.Covers(n)
      && forall m :: m in marks && m.Covers(n) ==> o.net.Covers(m)
  }

  // ------------------------------------------------------------------- the up relation

  /** Larger networks around `n` are `up` or lie around `up`. */
  lemma {:induction false} StrictAbove(objs: map<Prefix, IpNet>, bits: nat, n: Prefix, q: Prefix)
    requires Known(objs, bits) && n in objs && UpOk(objs, n) && q in objs
    ensures Strict(q, n) <==> objs[n].up != null && (q == objs[n].up.net || Strict(q, objs[n].up.net))
  {
    hide Trunc, Pow2;
    if objs[n].up != null {
      var u := objs[n].up.net;
      if Strict(q, n) {
        SupernetsNest(u, q, n);
        if q.inv == u.inv {
          SameWidth(q, u, n);
        }
      } else if Strict(q, u) {
        CoversTrans(q, u, n);
      }
    }
  }

  /** `q` is found on the `up` chain of `n`. */
  ghost predicate Above(objs: map<Prefix, IpNet>, bits: nat, n: Prefix, q: Prefix)
    requires Known(objs, bits) && UpsOk(objs) && n in objs
    reads objs.Values
    decreases bits - n.inv
  {
    n == q || (UpOk(objs, n) && objs[n].up != null && Above(objs, bits, objs[n].up.net, q))
  }

  /** The `up` chain of a network has exactly the networks around it. */
  lemma {:induction false} AboveIffCovers(objs: map<Prefix, IpNet>, bits: nat, n: Prefix, q: Prefix)
    requires Known(objs, bits) && UpsOk(objs) && n in objs && q in objs
    ensures Above(objs, bits, n, q) <==> n == q || Strict(q, n)
    decreases bits - n.inv
  {
    hide Trunc, Pow2;
    assert UpOk(objs, n);
    StrictAbove(objs, bits, n, q);
    if objs[n].up != null {
      AboveIffCovers(objs, bits, objs[n].up.net, q);
    }
  }

  /** Only the network of all addresses has no network around it. */
  lemma {:induction false} EndsAtNet00(objs: map<Prefix, IpNet>, bits: nat, n: Prefix)
    requires Known(objs, bits) && UpsOk(objs) && n in objs && Net00(bits) in objs
    ensures objs[n].up == null <==> n == Net00(bits)
    ensures Above(objs, bits, n, Net00(bits))
  {
    hide Trunc, Pow2;
    assert UpOk(objs, n);
    var top := Net00(bits);
    TopCovers(n, bits);
    AboveIffCovers(objs, bits, n, top);
  }

  lemma {:induction false} TopCovers(n: Prefix, bits: nat)
    requires n.Valid() && n.inv <= bits && n.base < Pow2(bits)
    ensures Net00(bits).Covers(n) && (n.inv == bits ==> n == Net00(bits))
  {
    ZeroAligned(bits);
    TruncUnique(n.base, 0, bits);
  }

  lemma Net00Valid(bits: nat)
    ensures Net00(bits).Valid() && 0 < Pow2(bits)
  {
    ZeroAligned(bits);
  }

  // --------------------------------------------------------------------- the attribute

  /** The largest marked network around `up` is also the one around `n`. */
  lemma {:induction false} MarkDown(objs: map<Prefix, IpNet>, bits: nat, marks: set<Prefix>, n: Prefix, o: IpNet?)
    requires Known(objs, bits) && n in objs && UpOk(objs, n)
    requires forall m :: m in marks ==> m in objs
    requires objs[n].up != null ==> LargestMarked(objs, marks, objs[n].up.net, o)
    requires objs[n].up == null ==> o == null
    ensures LargestMarked(objs, marks, n, if o != null then o else if n in marks then objs[n] else null)
  {
    hide Trunc, Pow2;
    var u := objs[n].up;
    CoversRefl(n);
    forall m | m in marks && m.Covers(n)
      ensures m == n || (u != null && m.Covers(u.net))
    {
      if m.inv == n.inv {
        SameWidth(m, n, n);
      } else {
        StrictAbove(objs, bits, n, m);
        if u != null {
          CoversRefl(u.net);
        }
      }
    }
    if o != null {
      CoversTrans(o.net, u.net, n);
    }
  }

  // ------------------------------------------------------------------------ the method

  /** The nested maps have exactly the networks of `objs`. */
  ghost predicate Collected(m: MaskIPMap<IpNet>, objs: map<Prefix, IpNet>) {
    forall p: Prefix :: (Stored(m, p) <==> p in objs) && (Stored(m, p) ==> m[p.inv][p.base] == objs[p])
  }

  method Collect(objs: map<Prefix, IpNet>, ghost bits: nat) returns (m: MaskIPMap<IpNet>)
    requires Known(objs, bits)
    ensures Collected(m, objs)
  {
    m := map[];
    var todo := objs.Keys;
    while todo != {}
      invariant todo <= objs.Keys
      invariant forall p: Prefix :: Stored(m, p) <==> p in objs && p !in todo
      invariant forall p: Prefix :: Stored(m, p) ==> m[p.inv][p.base] == objs[p]
      decreases todo
    {
      var n :| n in todo;
      todo := todo - {n};
      var network := objs[n];
      var ip, mask := network.net.base, network.net.inv;
      var ipMap := if mask in m then m[mask] else map[];
      m := m[mask := ipMap[ip := network]];
    }
  }

  lemma {:induction false} DirectUp(m: MaskIPMap<IpNet>, objs: map<Prefix, IpNet>, bits: nat, n: Prefix)
    requires Known(objs, bits) && Collected(m, objs) && n in objs
    requires if objs[n].up == null then forall q :: !Direct(m, n, q)
             else exists q :: Direct(m, n, q) && q in objs && objs[n].up == objs[q]
    ensures UpOk(objs, n)
  {
    hide Trunc, Strict;
    if objs[n].up == null {
      forall q | q in objs
        ensures !Strict(q, n)
      {
        if Strict(q, n) {
          SomeDirect(m, n, q);
        }
      }
    }
  }

  /** If there are larger networks around `n`, then one of them is the smallest. */
  lemma {:induction false} SomeDirect(m: MaskIPMap<IpNet>, n: Prefix, q: Prefix)
    requires Stored(m, q) && Strict(q, n)
    ensures exists r :: Direct(m, n, r)
    decreases q.inv
  {
    if !Direct(m, n, q) {
      var r :| Stored(m, r) && Strict(r, n) && r.inv < q.inv;
      SomeDirect(m, n, r);
    }
  }

  /** Exactly the first networks of the first `n` pairs have been linked, to the second ones. */
  ghost predicate LinkedUpTo(objs: map<Prefix, IpNet>, pairs: seq<(Prefix, Prefix)>, n: nat)
    requires n <= |pairs| && forall k :: 0 <= k < |pairs| ==> pairs[k].0 in objs && pairs[k].1 in objs
    reads objs.Values`up
  {
    && (forall k :: 0 <= k < n ==> objs[pairs[k].0].up == objs[pairs[k].1])
    && (forall p :: p in objs && objs[p].up != null ==> exists k :: 0 <= k < n && pairs[k].0 == p)
  }

  ghost predicate PairsKnown(objs: map<Prefix, IpNet>, pairs: seq<(Prefix, Prefix)>) {
    && (forall k :: 0 <= k < |pairs| ==> pairs[k].0 in objs && pairs[k].1 in objs)
    && (forall j, k :: 0 <= j < k < |pairs| ==> objs[pairs[j].0] != objs[pairs[k].0])
  }

  method LinkPair(objs: map<Prefix, IpNet>, pairs: seq<(Prefix, Prefix)>, n: nat)
    requires PairsKnown(objs, pairs) && n < |pairs| && LinkedUpTo(objs, pairs, n)
    requires forall p, q :: p in objs && q in objs && objs[p] == objs[q] ==> p == q
    modifies {objs[pairs[n].0]}`up
    ensures LinkedUpTo(objs, pairs, n + 1)
  {
    var subnet, bignet := objs[pairs[n].0], objs[pairs[n].1];
    subnet.up := bignet;
  }

  /** Sets `up` of the networks which lie in a larger one. */
  method SetUps(objs: map<Prefix, IpNet>, m: MaskIPMap<IpNet>, ghost bits: nat)
    requires Known(objs, bits) && Collected(m, objs)
    requires forall n :: n in objs ==> objs[n].up == null
    modifies objs.Values`up
    ensures UpsOk(objs)
  {
    hide Direct, Strict, LinkedUpTo, Collected, AllValid, SmallFirst, Trunc, Pow2;
    var pairs := SubnetPairs(m);
    StoredPairs(pairs, m, objs, bits);
    NothingLinked(objs, pairs);
    var i := 0;
    while i < |pairs|
      invariant 0 <= i <= |pairs| && LinkedUpTo(objs, pairs, i)
    {
      LinkPair(objs, pairs, i);
      i := i + 1;
    }
    AllLinked(objs, m, pairs, bits);
  }

  lemma NothingLinked(objs: map<Prefix, IpNet>, pairs: seq<(Prefix, Prefix)>)
    requires PairsKnown(objs, pairs) && forall n :: n in objs ==> objs[n].up == null
    ensures LinkedUpTo(objs, pairs, 0)
  {
  }

  lemma {:induction false} AllLinked(objs: map<Prefix, IpNet>, m: MaskIPMap<IpNet>, pairs: seq<(Prefix, Prefix)>,
                                     bits: nat)
    requires Known(objs, bits) && Collected(m, objs) && PairsKnown(objs, pairs) && LinkedUpTo(objs, pairs, |pairs|)
    requires forall p, q :: (p, q) in pairs <==> Stored(m, p) && Direct(m, p, q)
    ensures UpsOk(objs)
  {
    hide Direct, Strict, Trunc, Pow2, UpOk;
    forall n | n in objs
      ensures UpOk(objs, n)
    {
      if objs[n].up != null {
        var k :| 0 <= k < |pairs| && pairs[k].0 == n;
        assert (pairs[k].0, pairs[k].1) in pairs;
      } else {
        NotPaired(pairs, m, n);
      }
      DirectUp(m, objs, bits, n);
    }
  }

  lemma {:induction false} StoredPairs(pairs: seq<(Prefix, Prefix)>, m: MaskIPMap<IpNet>, objs: map<Prefix, IpNet>,
                                       bits: nat)
    requires Known(objs, bits) && Collected(m, objs) && SmallFirst(pairs)
    requires forall p, q :: (p, q) in pairs ==> Stored(m, p) && Direct(m, p, q)
    ensures PairsKnown(objs, pairs)
    ensures forall p, q :: p in objs && q in objs && objs[p] == objs[q] ==> p == q
  {
    assert forall i :: 0 <= i < |pairs| ==> (pairs[i].0, pairs[i].1) in pairs;
  }

  lemma {:induction false} NotPaired(pairs: seq<(Prefix, Prefix)>, m: MaskIPMap<IpNet>, n: Prefix)
    requires forall p, q :: (p, q) in pairs <==> Stored(m, p) && Direct(m, p, q)
    requires Stored(m, n) && forall k :: 0 <= k < |pairs| ==> pairs[k].0 != n
    ensures forall q :: !Direct(m, n, q)
  {
    hide Direct;
    forall q
      ensures !Direct(m, n, q)
    {
      assert (n, q) !in pairs;
    }
  }

  /** The networks in `done` have got their attribute, others have their own mark. */
  ghost predicate Propagated(objs: map<Prefix, IpNet>, marks: set<Prefix>, done: set<Prefix>)
    reads objs.Values`optNetworks
  {
    forall n :: n in objs ==>
      if n in done then LargestMarked(objs, marks, n, objs[n].optNetworks)
      else objs[n].optNetworks == if n in marks then objs[n] else null
  }

  /** Takes the attribute from the next larger network. */
  method Inherit(objs: map<Prefix, IpNet>, ghost bits: nat, ghost marks: set<Prefix>, ghost done: set<Prefix>,
                 n: Prefix)
    requires Known(objs, bits) && UpsOk(objs) && n in objs && n !in done
    requires forall m :: m in marks ==> m in objs
    requires forall q :: q in objs && q.inv > n.inv ==> q in done
    requires Propagated(objs, marks, done)
    modifies objs.Values`optNetworks
    ensures Propagated(objs, marks, done + {n})
  {
    hide Trunc, LargestMarked, Marked;
    assert UpOk(objs, n);
    var network := objs[n];
    var up := network.up;
    if up == null {
      MarkDown(objs, bits, marks, n, null);
      return;
    }
    assert up.net in done && objs[up.net] == up;
    MarkDown(objs, bits, marks, n, up.optNetworks);
    var optNetworks := up.optNetworks;
    if optNetworks != null {
      network.optNetworks := optNetworks;
    }
  }

  /** Passes the attribute on, from large to small networks. */
  method Propagate(objs: map<Prefix, IpNet>, m: MaskIPMap<IpNet>, ghost bits: nat, ghost marks: set<Prefix>)
    requires Known(objs, bits) && UpsOk(objs) && Collected(m, objs)
    requires forall n :: n in marks ==> n in objs
    requires Propagated(objs, marks, {})
    modifies objs.Values`optNetworks
    ensures forall n :: n in objs ==> LargestMarked(objs, marks, n, objs[n].optNetworks)
  {
    hide Trunc, LargestMarked, Known, UpsOk, Propagated;
    var maskList := SortedKeys(m.Keys);
    var i := |maskList|;
    ghost var done: set<Prefix> := {};
    while i > 0
      invariant 0 <= i <= |maskList| && UpsOk(objs) && Propagated(objs, marks, done)
      invariant forall n :: n in done <==> n in objs && n.inv in maskList[i..]
    {
      i := i - 1;
      var k := maskList[i];
      LargerMasks(maskList, i);
      var todo := m[k].Keys;
      while todo != {}
        invariant todo <= m[k].Keys && UpsOk(objs) && Propagated(objs, marks, done)
        invariant forall n :: n in done <==>
                              n in objs && (n.inv in maskList[i + 1..] || (n.inv == k && n.base !in todo))
        decreases todo
      {
        var ip :| ip in todo;
        todo := todo - {ip};
        var n := Prefix(ip, k);
        assert Stored(m, n);
        forall q | q in objs && q.inv > k
          ensures q in done
        {
          assert Stored(m, q);
        }
        Inherit(objs, bits, marks, done, n);
        done := done + {n};
      }
    }
    forall n | n in objs
      ensures n in done
    {
      assert Stored(m, n);
    }
    AllPropagated(objs, marks, done);
  }

  lemma {:induction false} LargerMasks(l: seq<nat>, i: nat)
    requires Ordered(l) && i < |l|
    ensures l[i..] == [l[i]] + l[i + 1..] && l[i] !in l[i + 1..]
    ensures forall k :: k in l[i + 1..] <==> k in l && k > l[i]
  {
    UpperMasks(l, i);
  }

  lemma AllPropagated(objs: map<Prefix, IpNet>, marks: set<Prefix>, done: set<Prefix>)
    requires Propagated(objs, marks, done) && forall n :: n in objs ==> n in done
    ensures forall n :: n in objs ==> LargestMarked(objs, marks, n, objs[n].optNetworks)
  {
  }

  method SetupIPNetRelation(ipNet2obj: map<Prefix, IpNet>, bits: nat) returns (objs: map<Prefix, IpNet>)
    requires Known(ipNet2obj, bits) && Marks(ipNet2obj)
    requires forall n :: n in ipNet2obj ==> ipNet2obj[n].up == null
    modifies ipNet2obj.Values
    ensures Known(objs, bits) && Net00(bits) in objs && UpsOk(objs)
    ensures forall n :: n in ipNet2obj ==> n in objs && objs[n] == ipNet2obj[n]
    ensures forall n :: n in objs && n !in ipNet2obj ==> n == Net00(bits)
    ensures forall n :: n in objs ==> LargestMarked(objs, old(Marked(ipNet2obj)), n, objs[n].optNetworks)
  {
    hide Trunc, Pow2, LargestMarked, UpOk;
    objs := ipNet2obj;
    if Net00(bits) !in objs {
      var top := new IpNet(Net00(bits));
      Net00Valid(bits);
      objs := objs[Net00(bits) := top];
    }
    ghost var marks := old(Marked(ipNet2obj));
    assert Propagated(objs, marks, {});
    hide Propagated, Marked;
    var maskIPMap := Collect(objs, bits);
    SetUps(objs, maskIPMap, bits);
    Propagate(objs, maskIPMap, bits, marks);
  }
}
