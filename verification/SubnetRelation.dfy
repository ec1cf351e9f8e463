/** The relation between networks and the smallest networks around them, as found by
    `processSubnetRelation` in go/pkg/pass1/find-subnets.go and by the same loops of
    `setupIPNetRelation` in go/cmd/spoc2/main.go.

    Networks are stored in nested maps, by mask and address.  The address of a
    network is masked with each larger mask, until a network is found.
  */
module SubnetRelation {
  import opened Prefixes
  import Sorting

  /** `maskIPMap`: the number of host bits stands for the mask. */
  type MaskIPMap<V> = map<nat, map<nat, V>>

  predicate Stored<V>(m: MaskIPMap<V>, p: Prefix) {
    p.inv in m && p.base in m[p.inv]
  }

  ghost predicate AllValid<V>(m: MaskIPMap<V>) {
    forall p: Prefix :: Stored(m, p) ==> p.Valid()
  }

  predicate Strict(q: Prefix, p: Prefix) {
    p.inv < q.inv && q.Covers(p)
  }

  /** `q` is the smallest stored network that is larger than `p` and includes it. */
  ghost predicate Direct<V>(m: MaskIPMap<V>, p: Prefix, q: Prefix) {
    Stored(m, q) && Strict(q, p) && forall r :: Stored(m, r) && Strict(r, p) ==> q.inv <= r.inv
  }

  lemma SameWidth(q: Prefix, r: Prefix, p: Prefix)
    requires q.Covers(p) && r.Covers(p) && q.inv == r.inv
    ensures q == r
  {
  }

  predicate Ordered(l: seq<nat>) {
    forall i, j :: 0 <= i < j < |l| ==> l[i] < l[j]
  }

  function KeyOrder(k: nat): (int, int) {
    (k, 0)
  }

  /** The keys of a map, in ascending order. */
  method SortedKeys(s: set<nat>) returns (l: seq<nat>)
    ensures Ordered(l) && forall k :: k in l <==> k in s
  {
    var keys := [];
    var todo := s;
    while todo != {}
      invariant forall k :: k in keys <==> k in s && k !in todo
      invariant todo <= s && Sorting.Distinct(keys)
      decreases todo
    {
      var k :| k in todo;
      todo := todo - {k};
      keys := keys + [k];
    }
    l := Sorting.Sort(keys, KeyOrder);
    Sorting.SameElements(l, keys);
    Sorting.DistinctSame(l, keys);
    forall i, j | 0 <= i < j < |l|
      ensures l[i] < l[j]
    {
      assert Sorting.Before(KeyOrder(l[i]), KeyOrder(l[j]));
    }
  }

  /** None of the first `n` masks has a network around `p`. */
  ghost predicate NoneAmong<V>(m: MaskIPMap<V>, p: Prefix, masks: seq<nat>, n: nat)
    requires n <= |masks|
  {
    forall r :: Stored(m, r) && Strict(r, p) ==> r.inv !in masks[..n]
  }

  /** Searches the masks, from smaller to larger networks. */
  method FindSupernet<V>(m: MaskIPMap<V>, p: Prefix, masks: seq<nat>) returns (found: bool, big: Prefix)
    requires Ordered(masks)
    requires forall k :: k in masks <==> k in m && k > p.inv
    ensures found ==> Direct(m, p, big)
    ensures !found ==> forall q :: !Direct(m, p, q)
  {
    hide Trunc, Pow2;
    var j := 0;
    while j < |masks|
      invariant 0 <= j <= |masks| && NoneAmong(m, p, masks, j)
    {
      var k := masks[j];
      var i := Trunc(p.base, k);
      assert masks[..j + 1] == masks[..j] + [k];
      if i in m[k] {
        var q := Prefix(i, k);
        FirstIsDirect(m, p, q, masks, j);
        return true, q;
      }
      j := j + 1;
    }
    found, big := false, p;
    assert masks[..|masks|] == masks;
  }

  lemma {:induction false} FirstIsDirect<V>(m: MaskIPMap<V>, p: Prefix, q: Prefix, masks: seq<nat>, j: nat)
    requires Ordered(masks) && (forall k :: k in masks <==> k in m && k > p.inv)
    requires j < |masks| && masks[j] == q.inv && NoneAmong(m, p, masks, j)
    requires Stored(m, q) && q.base == Trunc(p.base, q.inv)
    ensures Direct(m, p, q)
  {
    hide Trunc;
    forall r | Stored(m, r) && Strict(r, p)
      ensures q.inv <= r.inv
    {
      var k :| 0 <= k < |masks| && masks[k] == r.inv;
      Earlier(masks, k, j);
    }
  }

  lemma Earlier(masks: seq<nat>, k: nat, j: nat)
    requires k < |masks| && j < |masks|
    ensures k < j ==> masks[k] in masks[..j]
  {
  }

  /** Each network of the first `n` masks that has a direct supernet is listed with it. */
  ghost predicate Listed<V>(pairs: seq<(Prefix, Prefix)>, m: MaskIPMap<V>, masks: seq<nat>) {
    forall p, q :: (p, q) in pairs <==> Stored(m, p) && p.inv in masks && Direct(m, p, q)
  }

  /** Smaller networks come first, and no network occurs twice. */
  ghost predicate SmallFirst(pairs: seq<(Prefix, Prefix)>) {
    forall i, j :: 0 <= i < j < |pairs| ==> pairs[i].0.inv <= pairs[j].0.inv && pairs[i].0 != pairs[j].0
  }

  /** `processSubnetRelation`: the pairs for which `work` is called, in this order. */
  method SubnetPairs<V>(m: MaskIPMap<V>) returns (pairs: seq<(Prefix, Prefix)>)
    ensures forall p, q :: (p, q) in pairs <==> Stored(m, p) && Direct(m, p, q)
    ensures SmallFirst(pairs)
  {
    hide Trunc, Pow2, Direct;
    var maskList := SortedKeys(m.Keys);
    pairs := [];
    var i := 0;
    while i < |maskList|
      invariant 0 <= i <= |maskList|
      invariant Listed(pairs, m, maskList[..i]) && SmallFirst(pairs)
    {
      UpperMasks(maskList, i);
      var more := PairsOfMask(m, maskList[i], maskList[i + 1..]);
      MorePairs(pairs, more, m, maskList, i);
      pairs := pairs + more;
      i := i + 1;
    }
    assert maskList[..|maskList|] == maskList;
  }

  lemma {:induction false} UpperMasks(l: seq<nat>, i: nat)
    requires Ordered(l) && i < |l|
    ensures Ordered(l[i + 1..]) && l[i] !in l[..i] && l[..i + 1] == l[..i] + [l[i]]
    ensures forall k :: k in l[i + 1..] <==> k in l && k > l[i]
    ensures forall k :: k in l[..i] ==> k < l[i]
  {
    forall k | k in l && k > l[i]
      ensures k in l[i + 1..]
    {
      var j :| 0 <= j < |l| && l[j] == k;
      assert j > i;
      assert l[i + 1..][j - i - 1] == k;
    }
  }

  lemma {:induction false} MorePairs<V>(pairs: seq<(Prefix, Prefix)>, more: seq<(Prefix, Prefix)>, m: MaskIPMap<V>,
                                        masks: seq<nat>, i: nat)
    requires Ordered(masks) && i < |masks|
    requires Listed(pairs, m, masks[..i]) && SmallFirst(pairs)
    requires Listed(more, m, [masks[i]]) && SmallFirst(more)
    ensures Listed(pairs + more, m, masks[..i + 1]) && SmallFirst(pairs + more)
  {
    hide Direct, Ordered;
    UpperMasks(masks, i);
    forall a, b | a in pairs && b in more
      ensures a.0.inv <= b.0.inv && a.0 != b.0
    {
      assert (a.0, a.1) in pairs && (b.0, b.1) in more;
    }
  }

  /** The loop over the addresses of one mask. */
  method PairsOfMask<V>(m: MaskIPMap<V>, k: nat, upperMasks: seq<nat>) returns (pairs: seq<(Prefix, Prefix)>)
    requires k in m && Ordered(upperMasks) && forall j :: j in upperMasks <==> j in m && j > k
    ensures Listed(pairs, m, [k]) && SmallFirst(pairs)
  {
    hide Trunc, Pow2;
    var ipList := SortedKeys(m[k].Keys);
    pairs := [];
    var i := 0;
    while i < |ipList|
      invariant 0 <= i <= |ipList|
      invariant forall p, q :: (p, q) in pairs <==> p.inv == k && p.base in ipList[..i] && Direct(m, p, q)
      invariant SmallFirst(pairs)
    {
      var sub := Prefix(ipList[i], k);
      var found, big := FindSupernet(m, sub, upperMasks);
      assert ipList[..i + 1] == ipList[..i] + [ipList[i]] && ipList[i] !in ipList[..i];
      if found {
        OnlyOne(m, sub, big);
        forall a | a in pairs
          ensures a.0.inv == k && a.0 != sub
        {
          assert (a.0, a.1) in pairs;
        }
        pairs := pairs + [(sub, big)];
      }
      i := i + 1;
    }
    assert ipList[..|ipList|] == ipList;
  }

  lemma OnlyOne<V>(m: MaskIPMap<V>, p: Prefix, q: Prefix)
    requires Direct(m, p, q)
    ensures forall r :: Direct(m, p, r) ==> r == q
  {
    hide Trunc;
    forall r | Direct(m, p, r)
      ensures r == q
    {
      SameWidth(q, r, p);
    }
  }
}
