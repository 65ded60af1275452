/**
 The LRU list of LRUCacheShard (cache/lru_cache.cc, cache/lru_cache.h): an intrusive circular list
 around a dummy head, cut into three priority pools by two pointers.  Handles are addresses, and
 each field of a handle is a map from addresses, so that links are really followed and rewritten.
 */
module LruList {

  type Ptr = nat

  /** The address of the dummy head `lru_`. */
  const HEAD: Ptr := 0

  // ---------------------------------------------------------------- charges

  function Charge(charge: map<Ptr, nat>, e: Ptr): nat { if e in charge then charge[e] else 0 }

  function Sum(charge: map<Ptr, nat>, nodes: seq<Ptr>): nat {
    if nodes == [] then 0 else Charge(charge, nodes[0]) + Sum(charge, nodes[1..])
  }

  lemma {:induction false} SumConcat(charge: map<Ptr, nat>, a: seq<Ptr>, b: seq<Ptr>)
    ensures Sum(charge, a + b) == Sum(charge, a) + Sum(charge, b)
  {
    if a == [] {
      assert a + b == b;
    } else {
      assert (a + b)[1..] == a[1..] + b;
      SumConcat(charge, a[1..], b);
    }
  }

  lemma {:induction false} SumSame(charge: map<Ptr, nat>, other: map<Ptr, nat>, nodes: seq<Ptr>)
    requires forall i :: 0 <= i < |nodes| ==> Charge(charge, nodes[i]) == Charge(other, nodes[i])
    ensures Sum(charge, nodes) == Sum(other, nodes)
  {
    if nodes != [] {
      SumSame(charge, other, nodes[1..]);
    }
  }

  lemma SumOne(charge: map<Ptr, nat>, e: Ptr)
    ensures Sum(charge, [e]) == Charge(charge, e)
  {
    assert [e][1..] == [];
  }

  function With(nodes: seq<Ptr>, p: nat, e: Ptr): seq<Ptr>
    requires p <= |nodes|
  {
    nodes[..p] + [e] + nodes[p..]
  }

  function Without(nodes: seq<Ptr>, p: nat): seq<Ptr>
    requires p < |nodes|
  {
    nodes[..p] + nodes[p + 1..]
  }

  /** The charge of a stretch of the list. */
  function Part(charge: map<Ptr, nat>, nodes: seq<Ptr>, from: nat, to: nat): nat
    requires from <= to <= |nodes|
  {
    Sum(charge, nodes[from..to])
  }

  lemma PartSplit(charge: map<Ptr, nat>, nodes: seq<Ptr>, a: nat, b: nat, c: nat)
    requires a <= b <= c <= |nodes|
    ensures Part(charge, nodes, a, c) == Part(charge, nodes, a, b) + Part(charge, nodes, b, c)
  {
    assert nodes[a..c] == nodes[a..b] + nodes[b..c];
    SumConcat(charge, nodes[a..b], nodes[b..c]);
  }

  lemma PartEmpty(charge: map<Ptr, nat>, nodes: seq<Ptr>, a: nat)
    requires a <= |nodes|
    ensures Part(charge, nodes, a, a) == 0
  {
    assert nodes[a..a] == [];
  }

  lemma PartOne(charge: map<Ptr, nat>, nodes: seq<Ptr>, a: nat)
    requires a < |nodes|
    ensures Part(charge, nodes, a, a + 1) == Charge(charge, nodes[a])
  {
    assert nodes[a..a + 1] == [nodes[a]];
    SumOne(charge, nodes[a]);
  }

  lemma WithSlices(nodes: seq<Ptr>, p: nat, e: Ptr, a: nat, b: nat)
    requires a <= b <= |nodes| && p <= |nodes|
    ensures |With(nodes, p, e)| == |nodes| + 1 && With(nodes, p, e)[p] == e
    ensures b <= p ==> With(nodes, p, e)[a..b] == nodes[a..b]
    ensures p <= a ==> With(nodes, p, e)[a + 1..b + 1] == nodes[a..b]
  {
    var z := With(nodes, p, e);
    assert forall i :: 0 <= i < |z| ==> z[i] == if i < p then nodes[i] else if i == p then e else nodes[i - 1];
  }

  lemma WithoutSlices(nodes: seq<Ptr>, p: nat, a: nat, b: nat)
    requires a <= b <= |nodes| && p < |nodes|
    ensures |Without(nodes, p)| == |nodes| - 1
    ensures b <= p ==> Without(nodes, p)[a..b] == nodes[a..b]
    ensures p < a ==> Without(nodes, p)[a - 1..b - 1] == nodes[a..b]
  {
    var z := Without(nodes, p);
    assert forall i :: 0 <= i < |z| ==> z[i] == if i < p then nodes[i] else nodes[i + 1];
  }

  /** Inserting at `p` shifts what comes after it, and adds to the stretch that it falls in. */
  lemma PartWith(charge: map<Ptr, nat>, nodes: seq<Ptr>, p: nat, e: Ptr, a: nat, b: nat)
    requires a <= b <= |nodes| && p <= |nodes|
    ensures b <= p ==> Part(charge, With(nodes, p, e), a, b) == Part(charge, nodes, a, b)
    ensures p <= a ==> Part(charge, With(nodes, p, e), a + 1, b + 1) == Part(charge, nodes, a, b)
    ensures a <= p <= b ==> Part(charge, With(nodes, p, e), a, b + 1) == Part(charge, nodes, a, b) + Charge(charge, e)
  {
    hide Sum, With;
    WithSlices(nodes, p, e, a, b);
    if a <= p <= b {
      var z := With(nodes, p, e);
      WithSlices(nodes, p, e, a, p);
      WithSlices(nodes, p, e, p, b);
      PartOne(charge, z, p);
      PartSplit(charge, z, a, p, b + 1);
      PartSplit(charge, z, p, p + 1, b + 1);
      PartSplit(charge, nodes, a, p, b);
    }
  }

  lemma PartWithout(charge: map<Ptr, nat>, nodes: seq<Ptr>, p: nat, a: nat, b: nat)
    requires a <= b <= |nodes| && p < |nodes|
    ensures b <= p ==> Part(charge, Without(nodes, p), a, b) == Part(charge, nodes, a, b)
    ensures p < a ==> Part(charge, Without(nodes, p), a - 1, b - 1) == Part(charge, nodes, a, b)
    ensures a <= p < b ==>
              Part(charge, Without(nodes, p), a, b - 1) == Part(charge, nodes, a, b) - Charge(charge, nodes[p])
  {
    hide Sum, Without;
    WithoutSlices(nodes, p, a, b);
    if a <= p < b {
      var z := Without(nodes, p);
      WithoutSlices(nodes, p, a, p);
      WithoutSlices(nodes, p, p + 1, b);
      PartSplit(charge, z, a, p, b - 1);
      PartSplit(charge, nodes, a, p, b);
      PartSplit(charge, nodes, p, p + 1, b);
      PartOne(charge, nodes, p);
    }
  }

  // ---------------------------------------------------------------- links

  function Succ(n: nat, i: nat): nat { if i + 1 < n then i + 1 else 0 }

  ghost predicate Distinct(all: seq<Ptr>) {
    forall i, j :: 0 <= i < j < |all| ==> all[i] != all[j]
  }

  ghost predicate LinkedAt(next: map<Ptr, Ptr>, prev: map<Ptr, Ptr>, all: seq<Ptr>, i: nat)
    requires i < |all|
  {
    var j := Succ(|all|, i);
    all[i] in next && next[all[i]] == all[j] && all[j] in prev && prev[all[j]] == all[i]
  }

  /** A circular list from the head through the sequence and back. */
  ghost predicate Linked(next: map<Ptr, Ptr>, prev: map<Ptr, Ptr>, nodes: seq<Ptr>) {
    var all := [HEAD] + nodes;
    Distinct(all) && forall i :: 0 <= i < |all| ==> LinkedAt(next, prev, all, i)
  }

  /** The links after `e` is put behind the entry `at`. */
  function NextWith(next: map<Ptr, Ptr>, at: Ptr, e: Ptr): map<Ptr, Ptr>
    requires at in next
  {
    next[e := next[at]][at := e]
  }

  function PrevWith(next: map<Ptr, Ptr>, prev: map<Ptr, Ptr>, at: Ptr, e: Ptr): map<Ptr, Ptr>
    requires at in next
  {
    prev[e := at][next[at] := e]
  }

  lemma DistinctWith(nodes: seq<Ptr>, p: nat, e: Ptr)
    requires Distinct([HEAD] + nodes) && p <= |nodes| && e != HEAD && e !in nodes
    ensures Distinct([HEAD] + With(nodes, p, e))
  {
    var all, z := [HEAD] + nodes, [HEAD] + With(nodes, p, e);
    assert e !in all;
    forall i, j | 0 <= i < j < |z|
      ensures z[i] != z[j]
    {
      assert z[i] == if i <= p then all[i] else if i == p + 1 then e else all[i - 1];
      assert z[j] == if j <= p then all[j] else if j == p + 1 then e else all[j - 1];
    }
  }

  lemma DistinctWithout(nodes: seq<Ptr>, p: nat)
    requires Distinct([HEAD] + nodes) && p < |nodes|
    ensures Distinct([HEAD] + Without(nodes, p)) && nodes[p] !in Without(nodes, p)
  {
    var all, z := [HEAD] + nodes, [HEAD] + Without(nodes, p);
    assert all[p + 1] == nodes[p];
    forall i, j | 0 <= i < j < |z|
      ensures z[i] != z[j]
    {
      assert z[i] == if i <= p then all[i] else all[i + 1];
      assert z[j] == if j <= p then all[j] else all[j + 1];
    }
    forall j | 0 <= j < |Without(nodes, p)|
      ensures Without(nodes, p)[j] != nodes[p]
    {
      assert Without(nodes, p)[j] == if j < p then all[j + 1] else all[j + 2];
    }
  }

  lemma LinkedWith(next: map<Ptr, Ptr>, prev: map<Ptr, Ptr>, nodes: seq<Ptr>, p: nat, e: Ptr)
    requires Linked(next, prev, nodes) && p <= |nodes| && e != HEAD && e !in nodes
    ensures var at := ([HEAD] + nodes)[p];
            && at in next && at != e && next[at] != e
            && Linked(NextWith(next, at, e), PrevWith(next, prev, at, e), With(nodes, p, e))
  {
    var all, z := [HEAD] + nodes, [HEAD] + With(nodes, p, e);
    var at := all[p];
    assert LinkedAt(next, prev, all, p);
    var n, b := NextWith(next, at, e), PrevWith(next, prev, at, e);
    assert forall i :: 0 <= i < |z| ==> z[i] == if i <= p then all[i] else if i == p + 1 then e else all[i - 1];
    DistinctWith(nodes, p, e);
    forall i | 0 <= i < |z|
      ensures LinkedAt(n, b, z, i)
    {
      if i < p {
        assert LinkedAt(next, prev, all, i);
      } else if i > p + 1 {
        assert LinkedAt(next, prev, all, i - 1);
      }
    }
  }

  /** The links after `e` is taken out. */
  function NextWithout(next: map<Ptr, Ptr>, prev: map<Ptr, Ptr>, e: Ptr): map<Ptr, Ptr>
    requires e in next && e in prev
  {
    next[prev[e] := next[e]] - {e}
  }

  function PrevWithout(next: map<Ptr, Ptr>, prev: map<Ptr, Ptr>, e: Ptr): map<Ptr, Ptr>
    requires e in next && e in prev
  {
    prev[next[e] := prev[e]] - {e}
  }

  lemma LinkedWithout(next: map<Ptr, Ptr>, prev: map<Ptr, Ptr>, nodes: seq<Ptr>, p: nat)
    requires Linked(next, prev, nodes) && p < |nodes|
    ensures var e := nodes[p];
            && e in next && e in prev && prev[e] == ([HEAD] + nodes)[p] && prev[e] != e && next[e] != e
            && Linked(NextWithout(next, prev, e), PrevWithout(next, prev, e), Without(nodes, p))
  {
    var all, z := [HEAD] + nodes, [HEAD] + Without(nodes, p);
    var e := nodes[p];
    assert all[p + 1] == e;
    assert LinkedAt(next, prev, all, p);
    assert LinkedAt(next, prev, all, p + 1);
    var n, b := NextWithout(next, prev, e), PrevWithout(next, prev, e);
    assert forall i :: 0 <= i < |z| ==> z[i] == if i <= p then all[i] else all[i + 1];
    DistinctWithout(nodes, p);
    forall i | 0 <= i < |z|
      ensures LinkedAt(n, b, z, i)
    {
      if i < p {
        assert LinkedAt(next, prev, all, i);
      } else if i > p {
        assert LinkedAt(next, prev, all, i + 1);
      }
    }
  }

  // ---------------------------------------------------------------- pools

  /**
   The entries from `low` on carry the high-pool flag, those from `bottom` to there the low-pool
   flag, and the rest none.  The two pointers are at the cuts, and the usages are sums over the pools.
   */
  datatype Pools = Pools(high: set<Ptr>, lows: set<Ptr>, bottomPri: Ptr, lowPri: Ptr, highUsage: nat, lowUsage: nat)

  ghost predicate Flagged(p: Pools, nodes: seq<Ptr>, bottom: nat, low: nat) {
    && bottom <= low <= |nodes|
    && (forall i :: 0 <= i < |nodes| ==> (nodes[i] in p.high <==> low <= i))
    && (forall i :: 0 <= i < |nodes| ==> (nodes[i] in p.lows <==> bottom <= i < low))
  }

  ghost predicate Pooled(charge: map<Ptr, nat>, p: Pools, nodes: seq<Ptr>, bottom: nat, low: nat) {
    && Flagged(p, nodes, bottom, low)
    && p.bottomPri == ([HEAD] + nodes)[bottom] && p.lowPri == ([HEAD] + nodes)[low]
    && p.highUsage == Part(charge, nodes, low, |nodes|) && p.lowUsage == Part(charge, nodes, bottom, low)
  }

  lemma PutHigh(charge: map<Ptr, nat>, p: Pools, nodes: seq<Ptr>, bottom: nat, low: nat, e: Ptr)
    requires Pooled(charge, p, nodes, bottom, low) && e !in nodes
    ensures Pooled(charge, p.(high := p.high + {e}, lows := p.lows - {e}, highUsage := p.highUsage + Charge(charge, e)),
                   With(nodes, |nodes|, e), bottom, low)
  {
    hide Part;
    PartWith(charge, nodes, |nodes|, e, low, |nodes|);
    PartWith(charge, nodes, |nodes|, e, bottom, low);
  }

  lemma PutLow(charge: map<Ptr, nat>, p: Pools, nodes: seq<Ptr>, bottom: nat, low: nat, e: Ptr)
    requires Pooled(charge, p, nodes, bottom, low) && e !in nodes
    ensures Pooled(charge, p.(high := p.high - {e}, lows := p.lows + {e}, lowUsage := p.lowUsage + Charge(charge, e),
              lowPri := e),
                   With(nodes, low, e), bottom, low + 1)
  {
    hide Part;
    PartWith(charge, nodes, low, e, low, |nodes|);
    PartWith(charge, nodes, low, e, bottom, low);
  }

  lemma PutBottom(charge: map<Ptr, nat>, p: Pools, nodes: seq<Ptr>, bottom: nat, low: nat, e: Ptr)
    requires Pooled(charge, p, nodes, bottom, low) && e !in nodes && Distinct([HEAD] + nodes)
    ensures Pooled(charge, p.(high := p.high - {e}, lows := p.lows - {e},
                              lowPri := if p.bottomPri == p.lowPri then e else p.lowPri, bottomPri := e),
                   With(nodes, bottom, e), bottom + 1, low + 1)
  {
    hide Part;
    PartWith(charge, nodes, bottom, e, low, |nodes|);
    PartWith(charge, nodes, bottom, e, bottom, low);
  }

  /** Taking out an entry moves a pointer that was on it to the entry before. */
  lemma TakeOut(charge: map<Ptr, nat>, p: Pools, nodes: seq<Ptr>, bottom: nat, low: nat, k: nat)
    requires Pooled(charge, p, nodes, bottom, low) && Distinct([HEAD] + nodes) && k < |nodes|
    ensures var e, before := nodes[k], ([HEAD] + nodes)[k];
            && !(e in p.high && e in p.lows)
            && (e in p.high ==> p.highUsage >= Charge(charge, e))
            && (e in p.lows ==> p.lowUsage >= Charge(charge, e))
            && Pooled(charge,
                      p.(bottomPri := if p.bottomPri == e then before else p.bottomPri,
                         lowPri := if p.lowPri == e then before else p.lowPri,
                         highUsage := if e in p.high then p.highUsage - Charge(charge, e) else p.highUsage,
                         lowUsage := if e in p.lows then p.lowUsage - Charge(charge, e) else p.lowUsage),
                      Without(nodes, k), if k < bottom then bottom - 1 else bottom, if k < low then low - 1 else low)
  {
    hide Part;
    PartWithout(charge, nodes, k, low, |nodes|);
    PartWithout(charge, nodes, k, bottom, low);
    var all := [HEAD] + nodes;
    assert all[k + 1] == nodes[k];
    assert p.bottomPri == nodes[k] <==> bottom == k + 1;
    assert p.lowPri == nodes[k] <==> low == k + 1;
  }

  /** The oldest high-priority entry becomes the newest low-priority one. */
  lemma OverflowHigh(charge: map<Ptr, nat>, p: Pools, nodes: seq<Ptr>, bottom: nat, low: nat)
    requires Pooled(charge, p, nodes, bottom, low) && Distinct([HEAD] + nodes) && p.highUsage > 0
    ensures low < |nodes|
    ensures var e := nodes[low];
            && e != HEAD && e in p.high && p.highUsage >= Charge(charge, e)
            && Pooled(charge, p.(lowPri := e, high := p.high - {e}, lows := p.lows + {e},
                                 highUsage := p.highUsage - Charge(charge, e),
                                 lowUsage := p.lowUsage + Charge(charge, e)),
                      nodes, bottom, low + 1)
  {
    PartEmpty(charge, nodes, low);
    hide Part;
    PartSplit(charge, nodes, low, low + 1, |nodes|);
    PartSplit(charge, nodes, bottom, low, low + 1);
    PartOne(charge, nodes, low);
    NodesDistinct(nodes);
  }

  /** The oldest low-priority entry becomes the newest bottom-priority one. */
  lemma OverflowLow(charge: map<Ptr, nat>, p: Pools, nodes: seq<Ptr>, bottom: nat, low: nat)
    requires Pooled(charge, p, nodes, bottom, low) && Distinct([HEAD] + nodes) && p.lowUsage > 0
    ensures bottom < low
    ensures var e := nodes[bottom];
            && e != HEAD && e in p.lows && p.lowUsage >= Charge(charge, e)
            && Pooled(charge, p.(bottomPri := e, high := p.high - {e}, lows := p.lows - {e},
                      lowUsage := p.lowUsage - Charge(charge, e)),
                      nodes, bottom + 1, low)
  {
    PartEmpty(charge, nodes, bottom);
    hide Part;
    PartSplit(charge, nodes, bottom, bottom + 1, low);
    PartOne(charge, nodes, bottom);
    NodesDistinct(nodes);
  }

  lemma NodesDistinct(nodes: seq<Ptr>)
    requires Distinct([HEAD] + nodes)
    ensures Distinct(nodes) && HEAD !in nodes
  {
    var all := [HEAD] + nodes;
    assert all[0] == HEAD;
    assert forall i :: 0 <= i < |nodes| ==> nodes[i] == all[i + 1];
  }
}
