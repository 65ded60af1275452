/**
 LRUCacheShard (cache/lru_cache.cc): a table of entries, reference counts, the LRU list of what is
 not referenced, and the usage counters.  The hash table is used here as the map that
 `LruHandleTable` shows it to be.
 */
module LruShard {
  import opened LruList
  import opened Options

  type Key = nat

  /** What a handle is created with. */
  datatype Info = Info(key: Key, isHighPri: bool, isLowPri: bool)

  /** The allocated handles: each field of theirs is a map from their addresses. */
  datatype Mem = Mem(info: map<Ptr, Info>, charge: map<Ptr, nat>, refs: map<Ptr, nat>, inCache: set<Ptr>)

  /**
   The three states of a handle: in the cache and on the list, in the cache and referenced, or
   only referenced.  `listed` are the handles on the list, `pinned` those with references.
   */
  ghost predicate Handles(mem: Mem, table: map<Key, Ptr>, listed: set<Ptr>, pinned: set<Ptr>) {
    && listed !! pinned && HEAD !in listed && HEAD !in pinned
    && mem.info.Keys == mem.refs.Keys == listed + pinned && listed + pinned <= mem.charge.Keys
    && (forall e :: e in listed ==> mem.refs[e] == 0 && e in mem.inCache)
    && (forall e :: e in pinned ==> mem.refs[e] > 0)
    && (forall e :: e in mem.inCache ==> e in mem.info && mem.info[e].key in table && table[mem.info[e].key] == e)
    && (forall k :: k in table ==> table[k] in mem.inCache && mem.info[table[k]].key == k)
  }

  /** How an insertion ends. */
  datatype Status = Ok | OkOverwritten | MemoryLimit

  function Freed(mem: Mem, e: Ptr): Mem {
    Mem(mem.info - {e}, mem.charge, mem.refs - {e}, mem.inCache - {e})
  }

  /** An entry leaves the list and the table, and is freed. */
  lemma DropListed(mem: Mem, table: map<Key, Ptr>, listed: set<Ptr>, pinned: set<Ptr>, e: Ptr)
    requires Handles(mem, table, listed, pinned) && e in listed
    ensures e in mem.info && Handles(Freed(mem, e), table - {mem.info[e].key}, listed - {e}, pinned)
  {
  }

  /** An entry on the list gets its first reference. */
  lemma Pin(mem: Mem, table: map<Key, Ptr>, listed: set<Ptr>, pinned: set<Ptr>, e: Ptr)
    requires Handles(mem, table, listed, pinned) && e in listed
    ensures Handles(mem.(refs := mem.refs[e := 1]), table, listed - {e}, pinned + {e})
  {
  }

  /** An entry in the cache loses its last reference and goes on the list. */
  lemma UnpinListed(mem: Mem, table: map<Key, Ptr>, listed: set<Ptr>, pinned: set<Ptr>, e: Ptr)
    requires Handles(mem, table, listed, pinned) && e in pinned && e in mem.inCache
    ensures Handles(mem.(refs := mem.refs[e := 0]), table, listed + {e}, pinned - {e})
  {
  }

  /** A referenced entry is freed, and leaves the table if it is there. */
  lemma DropPinned(mem: Mem, table: map<Key, Ptr>, listed: set<Ptr>, pinned: set<Ptr>, e: Ptr)
    requires Handles(mem, table, listed, pinned) && e in pinned
    ensures e in mem.info
    ensures Handles(Freed(mem, e), if e in mem.inCache then table - {mem.info[e].key} else table, listed, pinned - {e})
  {
  }

  lemma RecountPinned(mem: Mem, table: map<Key, Ptr>, listed: set<Ptr>, pinned: set<Ptr>, e: Ptr, n: nat)
    requires Handles(mem, table, listed, pinned) && e in pinned && n > 0
    ensures Handles(mem.(refs := mem.refs[e := n]), table, listed, pinned)
  {
  }

  /** A referenced entry leaves the table but stays alive. */
  lemma DetachPinned(mem: Mem, table: map<Key, Ptr>, listed: set<Ptr>, pinned: set<Ptr>, e: Ptr)
    requires Handles(mem, table, listed, pinned) && e in pinned && e in mem.inCache
    ensures e in mem.info && Handles(mem.(inCache := mem.inCache - {e}), table - {mem.info[e].key}, listed, pinned)
  {
  }

  function Allocated(mem: Mem, e: Ptr, info: Info, charge: nat, refs: nat, inCache: bool): Mem {
    Mem(mem.info[e := info], mem.charge[e := charge], mem.refs[e := refs],
        if inCache then mem.inCache + {e} else mem.inCache)
  }

  lemma AddListed(mem: Mem, table: map<Key, Ptr>, listed: set<Ptr>, pinned: set<Ptr>, e: Ptr, info: Info, charge: nat)
    requires Handles(mem, table, listed, pinned) && e !in mem.info && e != HEAD && info.key !in table
    ensures Handles(Allocated(mem, e, info, charge, 0, true), table[info.key := e], listed + {e}, pinned)
  {
  }

  lemma AddPinned(mem: Mem, table: map<Key, Ptr>, listed: set<Ptr>, pinned: set<Ptr>, e: Ptr, info: Info, charge: nat,
                  inCache: bool)
    requires Handles(mem, table, listed, pinned) && e !in mem.info && e != HEAD && (inCache ==> info.key !in table)
    ensures Handles(Allocated(mem, e, info, charge, 1, inCache), if inCache then table[info.key := e] else table,
                    listed, pinned + {e})
  {
  }

  // ---------------------------------------------------------------- sequences and their elements

  ghost function Elements(s: seq<Ptr>): set<Ptr> { set e | e in s }

  lemma WithElements(nodes: seq<Ptr>, p: nat, e: Ptr)
    requires p <= |nodes|
    ensures Elements(With(nodes, p, e)) == Elements(nodes) + {e}
  {
    assert nodes == nodes[..p] + nodes[p..];
  }

  lemma WithoutElements(nodes: seq<Ptr>, p: nat)
    requires p < |nodes| && Distinct(nodes)
    ensures Elements(Without(nodes, p)) == Elements(nodes) - {nodes[p]}
    ensures Distinct(Without(nodes, p))
  {
    var z := Without(nodes, p);
    assert forall i :: 0 <= i < |z| ==> z[i] == if i < p then nodes[i] else nodes[i + 1];
    forall e | e in nodes && e != nodes[p]
      ensures e in z
    {
      var i :| 0 <= i < |nodes| && nodes[i] == e;
      assert e == z[if i < p then i else i - 1];
    }
  }

  /** Sums and pools do not change when a handle elsewhere is allocated. */
  lemma ChargeElsewhere(charge: map<Ptr, nat>, e: Ptr, c: nat, nodes: seq<Ptr>, p: Pools, bottom: nat, low: nat)
    requires e !in nodes && Pooled(charge, p, nodes, bottom, low)
    ensures Pooled(charge[e := c], p, nodes, bottom, low)
    ensures Part(charge[e := c], nodes, 0, |nodes|) == Part(charge, nodes, 0, |nodes|)
  {
    PartElsewhere(charge, e, c, nodes, low, |nodes|);
    PartElsewhere(charge, e, c, nodes, bottom, low);
    PartElsewhere(charge, e, c, nodes, 0, |nodes|);
  }

  lemma PartElsewhere(charge: map<Ptr, nat>, e: Ptr, c: nat, nodes: seq<Ptr>, a: nat, b: nat)
    requires e !in nodes && a <= b <= |nodes|
    ensures Part(charge[e := c], nodes, a, b) == Part(charge, nodes, a, b)
  {
    SumSame(charge, charge[e := c], nodes[a..b]);
  }

  /** Before the eviction number `k` there is too little room. */
  ghost predicate OverAt(charge: map<Ptr, nat>, nodes: seq<Ptr>, usage: nat, need: nat, capacity: nat, k: nat) {
    k < |nodes| && usage + need > capacity + Sum(charge, nodes[..k])
  }

  /** What goes is the shortest stretch of the oldest entries that makes room, or everything. */
  ghost predicate Evicts(charge: map<Ptr, nat>, nodes: seq<Ptr>, usage: nat, need: nat, capacity: nat,
                         evicted: seq<Ptr>) {
    && evicted <= nodes && (forall k :: 0 <= k < |evicted| ==> OverAt(charge, nodes, usage, need, capacity, k))
    && Sum(charge, evicted) <= usage
    && (evicted == nodes || usage + need <= capacity + Sum(charge, evicted))
  }

  /** What an eviction changes. */
  datatype View = View(mem: Mem, table: map<Key, Ptr>, pools: Pools, usage: nat, nodes: seq<Ptr>, bottom: nat, low: nat)

  /** The oldest entry `e` has gone. */
  ghost predicate OneEvicted(v: View, e: Ptr, v': View) {
    && v.nodes != [] && e == v.nodes[0] && v'.nodes == v.nodes[1..]
    && v.usage == v'.usage + Charge(v.mem.charge, e)
    && e in v.mem.info && v'.table == v.table - {v.mem.info[e].key} && v'.mem == Freed(v.mem, e)
    && v'.pools.highUsage <= v.pools.highUsage && v'.pools.lowUsage <= v.pools.lowUsage
    && v'.bottom == Lowered(v.bottom, 1) && v'.low == Lowered(v.low, 1)
  }

  /** The entries `deleted` have gone, each of them while there was too little room. */
  ghost predicate EvictedSoFar(v: View, need: nat, capacity: nat, deleted: seq<Ptr>, v': View) {
    && deleted + v'.nodes == v.nodes && v.usage == v'.usage + Sum(v.mem.charge, deleted)
    && v'.table == v.table - KeysOf(v.mem, deleted) && v'.mem == FreedAll(v.mem, deleted)
    && v'.pools.highUsage <= v.pools.highUsage && v'.pools.lowUsage <= v.pools.lowUsage
    && v'.bottom == Lowered(v.bottom, |deleted|) && v'.low == Lowered(v.low, |deleted|)
    && (deleted == [] ==> v'.pools == v.pools)
    && (forall k :: 0 <= k < |deleted| ==> OverAt(v.mem.charge, v.nodes, v.usage, need, capacity, k))
  }

  lemma NothingEvicted(v: View, need: nat, capacity: nat)
    ensures EvictedSoFar(v, need, capacity, [], v)
  {
    NothingFreed(v.mem);
    assert v.table - {} == v.table;
  }

  lemma EvictedMore(v: View, need: nat, capacity: nat, deleted: seq<Ptr>, v1: View, e: Ptr, v2: View)
    requires EvictedSoFar(v, need, capacity, deleted, v1) && OneEvicted(v1, e, v2) && v1.usage + need > capacity
    ensures EvictedSoFar(v, need, capacity, deleted + [e], v2)
  {
    hide Sum, KeysOf, FreedAll, Freed, OverAt;
    FreedMore(v.mem, deleted, e);
    FreedAllCharge(v.mem, deleted);
    assert deleted + [e] + v2.nodes == v.nodes;
    EvictedMoreCharge(v.mem.charge, v.nodes, v.usage, need, capacity, deleted, e);
    var keys, key := KeysOf(v.mem, deleted), v1.mem.info[e].key;
    assert (v.table - keys) - {key} == v.table - (keys + {key});
  }

  lemma EvictedMoreCharge(charge: map<Ptr, nat>, nodes: seq<Ptr>, usage: nat, need: nat, capacity: nat,
                          evicted: seq<Ptr>, e: Ptr)
    requires evicted + [e] <= nodes && usage + need > capacity + Sum(charge, evicted)
    ensures OverAt(charge, nodes, usage, need, capacity, |evicted|)
    ensures Sum(charge, evicted + [e]) == Sum(charge, evicted) + Charge(charge, e)
  {
    assert nodes[..|evicted|] == evicted;
    SumConcat(charge, evicted, [e]);
    SumOne(charge, e);
  }

  lemma AllEvicted(v: View, need: nat, capacity: nat, deleted: seq<Ptr>, v': View)
    requires EvictedSoFar(v, need, capacity, deleted, v')
    ensures v'.usage + need <= capacity || v'.nodes == [] ==>
              Evicts(v.mem.charge, v.nodes, v.usage, need, capacity, deleted)
    ensures deleted + v'.nodes == v.nodes && v.usage == v'.usage + Sum(v.mem.charge, deleted)
    ensures v'.table == v.table - KeysOf(v.mem, deleted) && v'.mem == FreedAll(v.mem, deleted)
    ensures v'.pools.highUsage <= v.pools.highUsage && v'.pools.lowUsage <= v.pools.lowUsage
    ensures v'.bottom == Lowered(v.bottom, |deleted|) && v'.low == Lowered(v.low, |deleted|)
    ensures deleted == [] ==> v'.pools == v.pools
  {
    hide Sum, KeysOf, FreedAll, OverAt, Lowered;
    if v'.nodes == [] { assert deleted + [] == deleted; }
  }

  /** A cut of the list after `k` entries in front have gone. */
  function Lowered(cut: nat, k: nat): nat { if cut >= k then cut - k else 0 }

  function Max(a: nat, b: nat): nat { if a >= b then a else b }

  /** What is left of a stretch of the list after `k` entries in front have gone. */
  lemma PartOfRest(charge: map<Ptr, nat>, nodes: seq<Ptr>, k: nat, from: nat, to: nat)
    requires k <= |nodes| && from <= to <= |nodes|
    ensures Lowered(from, k) <= Lowered(to, k) <= |nodes[k..]|
    ensures Part(charge, nodes[k..], Lowered(from, k), Lowered(to, k)) == Part(charge, nodes, Max(k, from), Max(k, to))
  {
    assert nodes[k..][Lowered(from, k)..Lowered(to, k)] == nodes[Max(k, from)..Max(k, to)];
  }

  /** `now` is `was` without the entry `e`, in the same order. */
  ghost predicate TakenFrom(was: seq<Ptr>, e: Ptr, now: seq<Ptr>) {
    exists k: nat :: k < |was| && was[k] == e && now == Without(was, k)
  }

  ghost predicate Exactly(links: map<Ptr, Ptr>, nodes: seq<Ptr>) {
    forall e :: e in links <==> e == HEAD || e in nodes
  }

  class LRUCacheShard {
    // the handles
    var mem: Mem
    var next: map<Ptr, Ptr>
    var prev: map<Ptr, Ptr>
    var hit: set<Ptr>
    // the shard
    var table: map<Key, Ptr>
    var pools: Pools
    var lruUsage: nat
    var usage: nat
    var capacity: nat
    var strict: bool
    var highRatio: real
    var lowRatio: real
    var highCapacity: nat
    var lowCapacity: nat
    /** the list from the oldest entry on, where its pools begin, and the referenced handles */
    ghost var nodes: seq<Ptr>
    ghost var bottom: nat
    ghost var low: nat
    ghost var pinned: seq<Ptr>

    ghost predicate ListOk()
      reads `mem, `next, `prev, `pools, `lruUsage, `nodes, `bottom, `low
    {
      && Linked(next, prev, nodes) && Exactly(next, nodes) && Exactly(prev, nodes)
      && Pooled(mem.charge, pools, nodes, bottom, low)
      && lruUsage == Part(mem.charge, nodes, 0, |nodes|)
    }

    ghost function Seen(): View
      reads this
    {
      View(mem, table, pools, usage, nodes, bottom, low)
    }

    /** The usage is the total charge of what is in the table or referenced. */
    ghost predicate Core()
      reads `mem, `next, `prev, `pools, `lruUsage, `nodes, `bottom, `low, `table, `usage, `pinned
      reads `capacity, `highRatio, `lowRatio, `highCapacity, `lowCapacity
    {
      && ListOk()
      && Distinct(pinned) && Handles(mem, table, Elements(nodes), Elements(pinned))
      && usage == lruUsage + Sum(mem.charge, pinned)
      && PoolsSized()
    }

    ghost predicate PoolsSized()
      reads `capacity, `highRatio, `lowRatio, `highCapacity, `lowCapacity
    {
      && highRatio >= 0.0 && lowRatio >= 0.0
      && highCapacity == PoolCapacity(capacity, highRatio) && lowCapacity == PoolCapacity(capacity, lowRatio)
    }

    /** Both pools are within their capacities. */
    predicate Within()
      reads `pools, `highCapacity, `lowCapacity
    {
      pools.highUsage <= highCapacity && pools.lowUsage <= lowCapacity
    }

    /** Over capacity, there is nothing left to evict. */
    ghost predicate Valid()
      reads this
    {
      Core() && (usage > capacity ==> nodes == [])
    }

    constructor (capacity: nat, strict: bool, highRatio: real, lowRatio: real)
      requires highRatio >= 0.0 && lowRatio >= 0.0
      ensures Valid() && Within() && table == map[] && mem.info == map[] && usage == 0
      ensures pools.highUsage == pools.lowUsage == 0
      ensures PoolsSized()
      ensures this.capacity == capacity && this.strict == strict && this.highRatio == highRatio
      ensures this.lowRatio == lowRatio
    {
      mem, next, prev, hit := Mem(map[], map[], map[], {}), map[HEAD := HEAD], map[HEAD := HEAD], {};
      table, pools, lruUsage, usage := map[], Pools({}, {}, HEAD, HEAD, 0, 0), 0, 0;
      this.capacity, this.strict, this.highRatio, this.lowRatio := capacity, strict, highRatio, lowRatio;
      highCapacity, lowCapacity := PoolCapacity(capacity, highRatio), PoolCapacity(capacity, lowRatio);
      nodes, bottom, low, pinned := [], 0, 0, [];
      new;
      assert LinkedAt(next, prev, [HEAD] + nodes, 0);
    }

    // -------------------------------------------------------------- the LRU list

    method LRU_Remove(e: Ptr, ghost k: nat)
      requires ListOk() && k < |nodes| && nodes[k] == e
      modifies `next, `prev, `pools, `lruUsage, `nodes, `bottom, `low
      ensures ListOk() && nodes == Without(old(nodes), k) && e !in nodes
      ensures old(lruUsage) >= Charge(mem.charge, e) && lruUsage == old(lruUsage) - Charge(mem.charge, e)
      ensures pools.highUsage <= old(pools).highUsage && pools.lowUsage <= old(pools).lowUsage
      ensures bottom == (if k < old(bottom) then old(bottom) - 1 else old(bottom))
      ensures low == if k < old(low) then old(low) - 1 else old(low)
    {
      hide Linked, Pooled, Part, Exactly, Distinct, NextWithout, PrevWithout;
      Removal(mem.charge, next, prev, pools, nodes, bottom, low, k);
      var p := pools;
      if p.lowPri == e {
        p := p.(lowPri := prev[e]);
      }
      if p.bottomPri == e {
        p := p.(bottomPri := prev[e]);
      }
      if e in p.high {
        p := p.(highUsage := p.highUsage - Charge(mem.charge, e));
      } else if e in p.lows {
        p := p.(lowUsage := p.lowUsage - Charge(mem.charge, e));
      }
      assert p == TakenOut(mem.charge, pools, e, prev[e]);
      hide Without, TakenOut;
      next, prev, pools, lruUsage, nodes, bottom, low :=
        NextWithout(next, prev, e), PrevWithout(next, prev, e), p, lruUsage - Charge(mem.charge, e),
        Without(nodes, k), if k < bottom then bottom - 1 else bottom, if k < low then low - 1 else low;
    }

    /**
     Overflow from the high pool into the low one, and from there to the bottom, until both fit and no
     further than that.
     */
    method MaintainPoolSize()
      requires Linked(next, prev, nodes) && Pooled(mem.charge, pools, nodes, bottom, low)
      modifies `pools, `bottom, `low
      ensures Pooled(mem.charge, pools, nodes, bottom, low) && Within()
      ensures old(Within()) ==> pools == old(pools)
      ensures old(low) <= low <= |nodes| && old(bottom) <= bottom <= low
      ensures low == old(low) || Part(mem.charge, nodes, low - 1, |nodes|) > highCapacity
      ensures bottom == old(bottom) || Part(mem.charge, nodes, bottom - 1, low) > lowCapacity
    {
      hide Linked, Pooled, Part;
      PoolBounds(mem.charge, pools, nodes, bottom, low);
      while pools.highUsage > highCapacity
        invariant Pooled(mem.charge, pools, nodes, bottom, low) && (old(Within()) ==> pools == old(pools))
        invariant bottom == old(bottom) <= low <= |nodes| && old(low) <= low
        invariant low == old(low) || Part(mem.charge, nodes, low - 1, |nodes|) > highCapacity
        decreases |nodes| - low
      {
        HighestOverflows(mem.charge, next, prev, pools, nodes, bottom, low);
        var e := next[pools.lowPri];
        assert e != HEAD && e in pools.high && pools.highUsage >= Charge(mem.charge, e);
        pools := pools.(lowPri := e, high := pools.high - {e}, lows := pools.lows + {e},
        highUsage := pools.highUsage - Charge(mem.charge, e), lowUsage := pools.lowUsage + Charge(mem.charge, e));
        low := low + 1;
      }
      ghost var cut := low;
      while pools.lowUsage > lowCapacity
        invariant low == cut <= |nodes|
        invariant Pooled(mem.charge, pools, nodes, bottom, low) && pools.highUsage <= highCapacity
        invariant old(Within()) ==> pools == old(pools)
        invariant old(bottom) <= bottom <= low
        invariant bottom == old(bottom) || Part(mem.charge, nodes, bottom - 1, low) > lowCapacity
        decreases low - bottom
      {
        LowestOverflows(mem.charge, next, prev, pools, nodes, bottom, low);
        var e := next[pools.bottomPri];
        assert e != HEAD && e in pools.lows && pools.lowUsage >= Charge(mem.charge, e);
        pools := pools.(bottomPri := e, high := pools.high - {e}, lows := pools.lows - {e},
                  lowUsage := pools.lowUsage - Charge(mem.charge, e));
        bottom := bottom + 1;
      }
    }

    /** Where an entry goes: to the newest end of the pool that its priority, or a hit, entitles it to. */
    ghost function Place(e: Ptr): nat
      reads this
    {
      var high, lowp := e in mem.info && mem.info[e].isHighPri, e in mem.info && mem.info[e].isLowPri;
      if highRatio > 0.0 && (high || e in hit) then |nodes|
      else if lowRatio > 0.0 && (high || lowp || e in hit) then low
      else bottom
    }

    /** The entry goes into the high or the low pool, and not to the bottom. */
    predicate Pooling(info: Info, isHit: bool)
      reads this
    {
      || (highRatio > 0.0 && (info.isHighPri || isHit))
      || (lowRatio > 0.0 && (info.isHighPri || info.isLowPri || isHit))
    }

    /** A hit or a high priority is worth the newest place of all, if there is a high pool. */
    lemma PlaceIs(e: Ptr)
      requires e in mem.info
      ensures highRatio > 0.0 && (mem.info[e].isHighPri || e in hit) ==>
                Place(e) == |nodes| && With(nodes, Place(e), e) == nodes + [e]
      ensures !Pooling(mem.info[e], e in hit) ==> Place(e) == bottom
    {
      assert nodes[..|nodes|] == nodes;
    }

    /** The entry goes into the high pool and fits there. */
    predicate FitsHigh(info: Info, charge: nat)
      reads this
    {
      highRatio > 0.0 && info.isHighPri && pools.highUsage + charge <= highCapacity && pools.lowUsage <= lowCapacity
    }

    method LRU_Insert(e: Ptr)
      requires ListOk() && e != HEAD && e !in nodes && e in mem.info
      modifies `next, `prev, `pools, `lruUsage, `nodes, `bottom, `low
      ensures ListOk() && old(Place(e)) <= |old(nodes)| && nodes == With(old(nodes), old(Place(e)), e)
      ensures highRatio > 0.0 && (mem.info[e].isHighPri || e in hit) ==> nodes == old(nodes) + [e]
      ensures !Pooling(mem.info[e], e in hit) ==>
                old(bottom) <= |old(nodes)| && nodes == With(old(nodes), old(bottom), e)
      ensures lruUsage == old(lruUsage) + Charge(mem.charge, e)
      ensures old(Within()) || Pooling(mem.info[e], e in hit) ==> Within()
      ensures !Pooling(mem.info[e], e in hit) ==>
                pools.highUsage == old(pools).highUsage && pools.lowUsage == old(pools).lowUsage
      ensures old(FitsHigh(mem.info[e], Charge(mem.charge, e))) ==>
                pools.highUsage == old(pools).highUsage + Charge(mem.charge, e)
    {
      hide Linked, Pooled, Part, Exactly, Distinct, NextWith, PrevWith, With, Place;
      PlaceIs(e);
      var at, p;
      ghost var k, newBottom, newLow;
      at, p, k, newBottom, newLow := ChoosePlace(e);
      next, prev, pools, nodes := NextWith(next, at, e), PrevWith(next, prev, at, e), p, With(nodes, k, e);
      bottom, low := newBottom, newLow;
      if Pooling(mem.info[e], e in hit) {
        MaintainPoolSize();
      }
      lruUsage := lruUsage + Charge(mem.charge, e);
    }

    /** The entry after which `e` goes, and the pools with it in the one that it goes to. */
    method ChoosePlace(e: Ptr) returns (at: Ptr, p: Pools, ghost k: nat, ghost newBottom: nat, ghost newLow: nat)
      requires ListOk() && e != HEAD && e !in nodes && e in mem.info
      ensures k == Place(e) <= |nodes| && Inserted(next, prev, nodes, k, at, e)
      ensures Pooled(mem.charge, p, With(nodes, k, e), newBottom, newLow) && |With(nodes, k, e)| == |nodes| + 1
      ensures Part(mem.charge, With(nodes, k, e), 0, |nodes| + 1) ==
              Part(mem.charge, nodes, 0, |nodes|) + Charge(mem.charge, e)
      ensures !Pooling(mem.info[e], e in hit) ==> p.highUsage == pools.highUsage && p.lowUsage == pools.lowUsage
      ensures highRatio > 0.0 && mem.info[e].isHighPri ==>
                p.highUsage == pools.highUsage + Charge(mem.charge, e) && p.lowUsage == pools.lowUsage
    {
      hide Linked, Pooled, Part, Exactly, Distinct, NextWith, PrevWith, With, Inserted;
      Insertion(mem.charge, next, prev, pools, nodes, bottom, low, e);
      p := pools;
      k, newBottom, newLow := |nodes|, bottom, low;
      if highRatio > 0.0 && (mem.info[e].isHighPri || e in hit) {
        at := prev[HEAD];
        p := p.(high := p.high + {e}, lows := p.lows - {e}, highUsage := p.highUsage + Charge(mem.charge, e));
      } else if lowRatio > 0.0 && (mem.info[e].isHighPri || mem.info[e].isLowPri || e in hit) {
        at := p.lowPri;
        p := p.(high := p.high - {e}, lows := p.lows + {e}, lowUsage := p.lowUsage + Charge(mem.charge, e),
                  lowPri := e);
        k, newLow := low, low + 1;
      } else {
        at := p.bottomPri;
        p := p.(high := p.high - {e}, lows := p.lows - {e}, lowPri := if p.bottomPri == p.lowPri then e else p.lowPri,
        bottomPri := e);
        k, newBottom, newLow := bottom, bottom + 1, low + 1;
      }
    }

    // -------------------------------------------------------------- eviction

    /** Evict from the oldest entry on until there is room or nothing is left. */
    method EvictFromLRU(charge: nat) returns (deleted: seq<Ptr>)
      requires Core()
      modifies `mem, `next, `prev, `table, `pools, `lruUsage, `usage, `nodes, `bottom, `low
      ensures Core() && (usage + charge > capacity ==> nodes == [])
      ensures Evicts(old(mem).charge, old(nodes), old(usage), charge, capacity, deleted)
      ensures deleted + nodes == old(nodes) && usage == old(usage) - Sum(old(mem).charge, deleted)
      ensures pools.highUsage <= old(pools).highUsage && pools.lowUsage <= old(pools).lowUsage
      ensures bottom == Lowered(old(bottom), |deleted|) && low == Lowered(old(low), |deleted|)
      ensures deleted == [] ==> pools == old(pools)
      ensures table == old(table) - KeysOf(old(mem), deleted) && mem == FreedAll(old(mem), deleted)
    {
      hide Core, OneEvicted, EvictedSoFar;
      deleted := [];
      ghost var start := Seen();
      NothingEvicted(start, charge, capacity);
      HeadShowsEmpty();
      while usage + charge > capacity && next[HEAD] != HEAD
        invariant Core() && HEAD in next && (next[HEAD] == HEAD <==> nodes == [])
        invariant EvictedSoFar(start, charge, capacity, deleted, Seen())
        decreases |nodes|
      {
        var e := next[HEAD];
        ghost var before := Seen();
        HeadShowsEmpty();
        EvictOldest(e);
        EvictedMore(start, charge, capacity, deleted, before, e, Seen());
        deleted := deleted + [e];
        HeadShowsEmpty();
      }
      AllEvicted(start, charge, capacity, deleted, Seen());
    }

    lemma HeadShowsEmpty()
      requires Core()
      ensures HEAD in next && (next[HEAD] == HEAD <==> nodes == []) && (nodes != [] ==> next[HEAD] == nodes[0])
    {
      assert LinkedAt(next, prev, [HEAD] + nodes, 0);
    }

    /** The assertions of the code hold: the oldest entry is in the cache and not referenced. */
    method EvictOldest(e: Ptr)
      requires Core() && nodes != [] && e == nodes[0]
      modifies `mem, `next, `prev, `table, `pools, `lruUsage, `usage, `nodes, `bottom, `low
      ensures Core() && OneEvicted(old(Seen()), e, Seen()) && |nodes| < |old(nodes)|
    {
      hide Core, Freed;
      DropEntry(e, 0);
    }

    /** The entry number `k` of the list leaves the list and the table, and is freed. */
    method DropEntry(e: Ptr, ghost k: nat)
      requires Core() && k < |nodes| && e == nodes[k]
      modifies `mem, `next, `prev, `table, `pools, `lruUsage, `usage, `nodes, `bottom, `low
      ensures Core() && nodes == Without(old(nodes), k) && Charge(mem.charge, e) <= old(usage)
      ensures usage == old(usage) - Charge(mem.charge, e) && mem.charge == old(mem).charge
      ensures e in old(mem).info && e in old(mem).inCache && e in old(mem).refs && old(mem).refs[e] == 0
      ensures table == old(table) - {old(mem).info[e].key} && mem == Freed(old(mem), e)
      ensures pools.highUsage <= old(pools).highUsage && pools.lowUsage <= old(pools).lowUsage
      ensures bottom == (if k < old(bottom) then old(bottom) - 1 else old(bottom))
      ensures low == if k < old(low) then old(low) - 1 else old(low)
    {
      hide Handles, Linked, Pooled, Part, Sum, Exactly, Elements, Distinct, Without, Freed, PoolsSized;
      Dropping(mem, table, next, prev, nodes, pinned, k);
      LRU_Remove(e, k);
      table := table - {mem.info[e].key};
      usage := usage - Charge(mem.charge, e);
      mem := Freed(mem, e);
    }

    // -------------------------------------------------------------- references

    method Lookup(key: Key) returns (found: bool, e: Ptr)
      requires Valid()
      modifies `mem, `next, `prev, `hit, `pools, `lruUsage, `nodes, `bottom, `low, `pinned
      ensures Valid() && (found <==> key in table)
      ensures !found ==> mem == old(mem) && nodes == old(nodes) && hit == old(hit) && pinned == old(pinned)
      ensures found ==> e == table[key] && e in pinned && e in old(mem).refs && hit == old(hit) + {e}
                        && mem == old(mem).(refs := old(mem).refs[e := old(mem).refs[e] + 1])
      ensures found && old(mem).refs[e] == 0 ==> TakenFrom(old(nodes), e, nodes) && pinned == old(pinned) + [e]
      ensures found && old(mem).refs[e] > 0 ==> nodes == old(nodes) && pinned == old(pinned)
      ensures old(Within()) ==> Within()
    {
      hide Core, Without;
      found, e := key in table, HEAD;
      if found {
        e := table[key];
        TabledFacts(key);
        if mem.refs[e] == 0 {
          ghost var k: nat :| k < |nodes| && nodes[k] == e;
          Pin(e, k);
        } else {
          Recount(e, mem.refs[e] + 1);
        }
        hit := hit + {e};
      }
    }

    lemma TabledFacts(key: Key)
      requires Core() && key in table
      ensures var e := table[key];
              && e in mem.info && e in mem.inCache && e in mem.refs && mem.info[e].key == key
              && (if mem.refs[e] == 0 then e in nodes else e in pinned)
    {
      Tabled(mem, table, nodes, pinned, key);
    }

    /** An entry of the list gets its first reference. */
    method Pin(e: Ptr, ghost k: nat)
      requires Core() && k < |nodes| && nodes[k] == e && e in mem.refs && mem.refs[e] == 0
      modifies `mem, `next, `prev, `pools, `lruUsage, `nodes, `bottom, `low, `pinned
      ensures Core() && mem == old(mem).(refs := old(mem).refs[e := 1]) && pinned == old(pinned) + [e]
      ensures nodes == Without(old(nodes), k) && |nodes| < |old(nodes)|
      ensures pools.highUsage <= old(pools).highUsage && pools.lowUsage <= old(pools).lowUsage
    {
      hide Handles, Linked, Pooled, Part, Sum, Exactly, Elements, Distinct, PoolsSized;
      Pinning(mem, table, next, prev, nodes, pinned, k);
      LRU_Remove(e, k);
      pinned := pinned + [e];
      mem := mem.(refs := mem.refs[e := 1]);
    }

    method Ref(e: Ptr)
      requires Valid() && e in pinned
      modifies `mem
      ensures Valid() && e in old(mem).refs && mem == old(mem).(refs := old(mem).refs[e := old(mem).refs[e] + 1])
    {
      hide Core;
      PinnedFacts(e);
      Recount(e, mem.refs[e] + 1);
    }

    lemma PinnedFacts(e: Ptr)
      requires Core() && e in pinned
      ensures e in mem.info && e in mem.refs && mem.refs[e] > 0 && e !in nodes && e != HEAD
    {
      Referenced(mem, table, nodes, pinned, e);
    }

    /** The entry has `n` references. */
    method Recount(e: Ptr, n: nat)
      requires Core() && e in pinned && n > 0
      modifies `mem
      ensures Core() && mem == old(mem).(refs := old(mem).refs[e := n])
    {
      hide Handles, Linked, Pooled, Part, Sum, Exactly, Elements, Distinct, PoolsSized;
      Recounting(mem, table, nodes, pinned, e, n);
      mem := mem.(refs := mem.refs[e := n]);
    }

    /** An entry in the cache loses its last reference, and goes on the list. */
    method Unpin(e: Ptr, ghost j: nat)
      requires Core() && j < |pinned| && pinned[j] == e && e in mem.inCache && usage <= capacity
      modifies `mem, `next, `prev, `pools, `lruUsage, `nodes, `bottom, `low, `pinned
      ensures Valid() && mem == old(mem).(refs := old(mem).refs[e := 0]) && pinned == Without(old(pinned), j)
      ensures old(Place(e)) <= |old(nodes)| && nodes == With(old(nodes), old(Place(e)), e)
      ensures old(Within()) ==> Within()
    {
      hide Handles, Linked, Pooled, Part, Sum, Exactly, Elements, Distinct, Without;
      Referenced(mem, table, nodes, pinned, e);
      Unpinning(mem, table, next, prev, nodes, pinned, j);
      mem := mem.(refs := mem.refs[e := 0]);
      pinned := Without(pinned, j);
      PutBack(e);
    }

    /** A referenced entry is freed, and leaves the table if it is there. */
    method FreePinned(e: Ptr, ghost j: nat)
      requires Core() && j < |pinned| && pinned[j] == e
      modifies `mem, `table, `usage, `pinned
      ensures Core() && mem == Freed(old(mem), e) && pinned == Without(old(pinned), j)
      ensures Charge(mem.charge, e) <= old(usage) && usage == old(usage) - Charge(mem.charge, e)
      ensures forall k :: k in table <==> k in old(table) && old(table)[k] != e
    {
      hide Handles, Linked, Pooled, Part, Sum, Exactly, Elements, Distinct, Without, Freed;
      Referenced(mem, table, nodes, pinned, e);
      DroppingPinned(mem, table, nodes, pinned, j);
      if e in mem.inCache {
        table := table - {mem.info[e].key};
      }
      usage := usage - Charge(mem.charge, e);
      mem := Freed(mem, e);
      pinned := Without(pinned, j);
    }

    /**
     Give back a reference; the entry is freed if it was the last and nothing keeps the entry. A
     null handle is ignored.
     */
    method Release(handle: Option<Ptr>, eraseIfLastRef: bool) returns (freed: bool)
      requires Valid() && (handle.Some? ==> handle.value in pinned)
      modifies `mem, `next, `prev, `table, `pools, `lruUsage, `usage, `nodes, `bottom, `low, `pinned
      ensures Valid() && usage <= old(usage) && (old(Within()) ==> Within())
      ensures handle.None? ==>
                && !freed && mem == old(mem) && table == old(table) && usage == old(usage)
                && nodes == old(nodes) && pinned == old(pinned)
      ensures handle.Some? ==> handle.value in old(mem).refs
      ensures freed <==>
                && handle.Some? && old(mem).refs[handle.value] == 1
                && (handle.value !in old(mem).inCache || old(usage) > capacity || eraseIfLastRef)
      ensures freed ==>
                && mem == Freed(old(mem), handle.value) && usage == old(usage) - Charge(mem.charge, handle.value)
                && forall k :: k in table <==> k in old(table) && old(table)[k] != handle.value
      ensures handle.Some? && !freed ==>
                && mem == old(mem).(refs := old(mem).refs[handle.value := old(mem).refs[handle.value] - 1])
                && table == old(table) && usage == old(usage)
      ensures handle.Some? ==>
                if old(mem).refs[handle.value] == 1 then TakenFrom(old(pinned), handle.value, pinned)
                          else pinned == old(pinned)
      ensures if handle.Some? && old(mem).refs[handle.value] == 1 && !freed
              then && old(Place(handle.value)) <= |old(nodes)|
                   && nodes == With(old(nodes), old(Place(handle.value)), handle.value)
              else nodes == old(nodes)
    {
      hide Core, Freed, Without, With, Place;
      if handle.None? {
        return false;
      }
      var e := handle.value;
      PinnedFacts(e);
      ghost var j: nat :| j < |pinned| && pinned[j] == e;
      freed := mem.refs[e] == 1;
      if freed && e in mem.inCache && !(usage > capacity || eraseIfLastRef) {
        Unpin(e, j);
        freed := false;
      } else if freed {
        assert e in mem.inCache ==> next[HEAD] == HEAD || eraseIfLastRef by { HeadShowsEmpty(); }
        FreePinned(e, j);
      } else {
        Recount(e, mem.refs[e] - 1);
      }
    }

    /** An entry without references goes on the list. */
    method PutBack(e: Ptr)
      requires ListOk() && Distinct(pinned) && e !in nodes
      requires Handles(mem, table, Elements(nodes) + {e}, Elements(pinned))
      requires usage == lruUsage + Sum(mem.charge, pinned) + Charge(mem.charge, e) && usage <= capacity
      requires PoolsSized() && e != HEAD && e in mem.info
      modifies `next, `prev, `pools, `lruUsage, `nodes, `bottom, `low
      ensures Valid() && old(Place(e)) <= |old(nodes)| && nodes == With(old(nodes), old(Place(e)), e)
      ensures old(Within()) || Pooling(mem.info[e], e in hit) ==> Within()
      ensures !Pooling(mem.info[e], e in hit) ==>
                pools.highUsage == old(pools).highUsage && pools.lowUsage == old(pools).lowUsage
      ensures old(FitsHigh(mem.info[e], Charge(mem.charge, e))) ==>
                pools.highUsage == old(pools).highUsage + Charge(mem.charge, e)
    {
      hide Handles, Linked, Pooled, Part, Sum, Exactly, Distinct;
      ghost var was := nodes;
      ghost var p := Place(e);
      LRU_Insert(e);
      WithElements(was, p, e);
    }

    // -------------------------------------------------------------- insertion and erasure

    /** Take an entry out of the table; it is freed unless it is referenced. */
    method Detach(key: Key)
      requires Core() && key in table
      modifies `mem, `next, `prev, `table, `pools, `lruUsage, `usage, `nodes, `bottom, `low
      ensures Core() && table == old(table) - {key} && old(table)[key] in old(mem).refs
      ensures pools.highUsage <= old(pools).highUsage && pools.lowUsage <= old(pools).lowUsage
      ensures var e := old(table)[key];
              if old(mem).refs[e] == 0 then
                && mem == Freed(old(mem), e) && TakenFrom(old(nodes), e, nodes)
                && usage == old(usage) - Charge(mem.charge, e)
              else
                mem == old(mem).(inCache := old(mem).inCache - {e}) && nodes == old(nodes) && usage == old(usage)
      ensures (old(nodes) == [] ==> nodes == []) && usage <= old(usage) && mem.info.Keys <= old(mem).info.Keys
    {
      hide Core, Without;
      var e := table[key];
      TabledFacts(key);
      if mem.refs[e] == 0 {
        ghost var k: nat :| k < |nodes| && nodes[k] == e;
        DropEntry(e, k);
      } else {
        LeaveTable(e, key);
      }
    }

    /** A referenced entry leaves the table, and stays with its references and its charge. */
    method LeaveTable(e: Ptr, key: Key)
      requires Core() && key in table && table[key] == e && e in pinned
      modifies `mem, `table
      ensures Core() && table == old(table) - {key} && mem == old(mem).(inCache := old(mem).inCache - {e})
    {
      hide Handles, Linked, Pooled, Part, Sum, Exactly, Elements, Distinct, PoolsSized;
      Tabled(mem, table, nodes, pinned, key);
      Detaching(mem, table, nodes, pinned, e);
      table := table - {key};
      mem := mem.(inCache := mem.inCache - {e});
    }

    method Erase(key: Key)
      requires Valid()
      modifies `mem, `next, `prev, `table, `pools, `lruUsage, `usage, `nodes, `bottom, `low
      ensures Valid() && table == old(table) - {key} && usage <= old(usage) && (old(Within()) ==> Within())
      ensures key !in old(table) ==> mem == old(mem) && nodes == old(nodes) && usage == old(usage)
      ensures key in old(table) ==>
                var e := old(table)[key];
                e in old(mem).refs &&
                if old(mem).refs[e] == 0 then
                  && mem == Freed(old(mem), e) && TakenFrom(old(nodes), e, nodes)
                  && usage == old(usage) - Charge(mem.charge, e)
                else
                  mem == old(mem).(inCache := old(mem).inCache - {e}) && nodes == old(nodes) && usage == old(usage)
    {
      hide Core;
      if key in table {
        Detach(key);
      } else {
        assert table == table - {key};
      }
    }

    /** A new handle with one reference. */
    method CreatePinned(e: Ptr, info: Info, charge: nat, inCache: bool)
      requires Core() && e !in mem.info && e != HEAD && (inCache ==> info.key !in table)
      modifies `mem, `table, `usage, `pinned, `hit
      ensures Core() && usage == old(usage) + charge && pinned == old(pinned) + [e]
      ensures table == if inCache then old(table)[info.key := e] else old(table)
      ensures mem == Allocated(old(mem), e, info, charge, 1, inCache)
    {
      hide Handles, Linked, Pooled, Part, Sum, Exactly, Elements, Distinct, PoolsSized;
      CreatingPinned(mem, table, pools, nodes, bottom, low, pinned, e, info, charge, inCache);
      mem := Allocated(mem, e, info, charge, 1, inCache);
      if inCache {
        table := table[info.key := e];
      }
      usage := usage + charge;
      pinned := pinned + [e];
      hit := hit - {e};
    }

    /** A new entry that goes straight on the list. */
    method CreateListed(e: Ptr, info: Info, charge: nat)
      requires Core() && e !in mem.info && e != HEAD && info.key !in table && usage + charge <= capacity
      modifies `mem, `next, `prev, `table, `pools, `lruUsage, `usage, `nodes, `bottom, `low, `hit
      ensures Valid() && usage == old(usage) + charge && pinned == old(pinned)
      ensures table == old(table)[info.key := e] && mem == Allocated(old(mem), e, info, charge, 0, true)
      ensures old(Within()) || Pooling(info, false) ==> Within()
      ensures !Pooling(info, false) ==> pools.highUsage == old(pools).highUsage && pools.lowUsage == old(pools).lowUsage
      ensures old(FitsHigh(info, charge)) ==> pools.highUsage == old(pools).highUsage + charge
    {
      hide Handles, Linked, Pooled, Part, Sum, Exactly, Elements, Distinct, PoolsSized;
      CreatingListed(mem, table, pools, nodes, bottom, low, pinned, e, info, charge);
      mem := Allocated(mem, e, info, charge, 0, true);
      table := table[info.key := e];
      usage := usage + charge;
      hit := hit - {e};
      PutBack(e);
    }

    /**
     Insert an entry at the address `e`, with a handle for the caller or without.  Room is made
     first.  If there is still none, an insertion without a handle is as good as evicted at once,
     and one with a handle fails under the strict limit and otherwise goes over capacity.
     */
    method InsertItem(e: Ptr, info: Info, charge: nat, wantHandle: bool)
        returns (status: Status, inserted: bool, ghost evicted: seq<Ptr>)
      requires Valid() && e !in mem.info && e != HEAD
      modifies `mem, `next, `prev, `hit, `table, `pools, `lruUsage, `usage, `nodes, `bottom, `low, `pinned
      ensures Valid()
      ensures strict && old(usage) <= capacity ==> usage <= capacity
      ensures old(Within()) ==> Within()
      ensures Evicts(old(mem).charge, old(nodes), old(usage), charge, capacity, evicted)
      ensures inserted <==> old(usage) + charge <= capacity + Sum(old(mem).charge, evicted) || (wantHandle && !strict)
      ensures var t := old(table) - KeysOf(old(mem), evicted);
              && table == (if inserted then t[info.key := e] else t)
              && status == (if inserted then if info.key in t then OkOverwritten else Ok
                        else if wantHandle then MemoryLimit else Ok)
      ensures !inserted ==> mem == FreedAll(old(mem), evicted) && nodes == []
      ensures inserted ==>
                e in mem.info && mem.info[e] == info && e in mem.charge && mem.charge[e] == charge && e in mem.inCache
      ensures pinned == if inserted && wantHandle then old(pinned) + [e] else old(pinned)
      ensures info.key !in old(table) && old(usage) + charge <= capacity ==>
                && usage == old(usage) + charge
                && (!wantHandle && old(FitsHigh(info, charge)) ==> pools.highUsage == old(pools).highUsage + charge)
    {
      hide Core, KeysOf, FreedAll, Sum, Evicts, OverAt, TakenFrom, Pooling, With, Without;
      ghost var memBefore := mem;
      var deleted := EvictFromLRU(charge);
      evicted := deleted;
      FreedAllInfo(memBefore, deleted, e);
      NotEvicted(memBefore.charge, old(nodes), old(usage), charge, capacity, deleted);
      inserted, status := false, Ok;
      if usage + charge > capacity && (strict || !wantHandle) {
        if wantHandle {
          status := MemoryLimit;
        }
      } else {
        inserted := true;
        var overwritten := StoreItem(e, info, charge, wantHandle);
        if overwritten {
          status := OkOverwritten;
        }
      }
    }

    /** Put a new entry in the table, with a reference or on the list; one with the same key leaves. */
    method StoreItem(e: Ptr, info: Info, charge: nat, wantHandle: bool) returns (overwritten: bool)
      requires Core() && e !in mem.info && e != HEAD && (usage + charge > capacity ==> wantHandle && nodes == [])
      modifies `mem, `next, `prev, `hit, `table, `pools, `lruUsage, `usage, `nodes, `bottom, `low, `pinned
      ensures Valid() && usage <= old(usage) + charge && (old(Within()) ==> Within())
      ensures overwritten == (info.key in old(table)) && table == old(table)[info.key := e]
      ensures !overwritten && !wantHandle && old(FitsHigh(info, charge)) ==>
                pools.highUsage == old(pools).highUsage + charge
      ensures !overwritten ==> usage == old(usage) + charge
      ensures e in mem.info && mem.info[e] == info && e in mem.charge && mem.charge[e] == charge && e in mem.inCache
      ensures pinned == if wantHandle then old(pinned) + [e] else old(pinned)
    {
      hide Core, Freed, TakenFrom, Pooling;
      overwritten := info.key in table;
      if overwritten {
        Detach(info.key);
      }
      if wantHandle {
        CreatePinned(e, info, charge, true);
      } else {
        CreateListed(e, info, charge);
      }
    }

    /** An entry outside the table, with one reference. */
    method CreateStandalone(e: Ptr, info: Info, charge: nat, allowUncharged: bool)
        returns (created: bool, ghost evicted: seq<Ptr>)
      requires Valid() && e !in mem.info && e != HEAD
      modifies `mem, `next, `prev, `hit, `table, `pools, `lruUsage, `usage, `nodes, `bottom, `low, `pinned
      ensures Valid()
      ensures strict && old(usage) <= capacity ==> usage <= capacity
      ensures old(Within()) ==> Within()
      ensures Evicts(old(mem).charge, old(nodes), old(usage), charge, capacity, evicted)
      ensures table == old(table) - KeysOf(old(mem), evicted)
      ensures var fits := !strict || old(usage) + charge <= capacity + Sum(old(mem).charge, evicted);
              && created == (fits || allowUncharged)
              && mem == (if created
                         then Allocated(FreedAll(old(mem), evicted), e, info, if fits then charge else 0, 1, false)
                         else FreedAll(old(mem), evicted))
      ensures pinned == if created then old(pinned) + [e] else old(pinned)
    {
      hide Core;
      ghost var memBefore := mem;
      var deleted := EvictFromLRU(charge);
      evicted := deleted;
      FreedAllInfo(memBefore, deleted, e);
      created := true;
      if strict && usage + charge > capacity {
        if allowUncharged {
          CreatePinned(e, info, 0, false);
        } else {
          created := false;
        }
      } else {
        CreatePinned(e, info, charge, false);
      }
    }

    method SetStrictCapacityLimit(limit: bool)
      requires Valid()
      modifies `strict
      ensures Valid() && strict == limit
    {
      strict := limit;
    }

    /**
     A new capacity. The pools get new capacities too, but are not maintained, so they are within
     them exactly when what is left of them after the evictions is.
     */
    method SetCapacity(newCapacity: nat) returns (deleted: seq<Ptr>)
      requires Valid()
      modifies `mem, `next, `prev, `table, `pools, `lruUsage, `usage, `nodes, `bottom, `low, `capacity, `highCapacity
      modifies `lowCapacity
      ensures Valid() && capacity == newCapacity && usage == old(usage) - Sum(old(mem).charge, deleted) && PoolsSized()
      ensures Evicts(old(mem).charge, old(nodes), old(usage), 0, capacity, deleted) && deleted + nodes == old(nodes)
      ensures table == old(table) - KeysOf(old(mem), deleted) && mem == FreedAll(old(mem), deleted)
      ensures old(bottom) <= old(low) <= |old(nodes)| && |deleted| <= |old(nodes)|
      ensures var k, n := |deleted|, |old(nodes)|;
              Within() <==>
              && Part(old(mem).charge, old(nodes), Max(k, old(low)), n) <= PoolCapacity(newCapacity, highRatio)
              && Part(old(mem).charge, old(nodes), Max(k, old(bottom)), Max(k, old(low)))
                 <= PoolCapacity(newCapacity, lowRatio)
      ensures old(usage) <= newCapacity ==>
                && deleted == [] && pools == old(pools)
                && (Within() <==>
                    && old(pools).highUsage <= PoolCapacity(newCapacity, highRatio)
                    && old(pools).lowUsage <= PoolCapacity(newCapacity, lowRatio))
    {
      hide Handles, Linked, Part, Sum, Exactly, Elements, Distinct, Flagged, Evicts, KeysOf, FreedAll, PoolCapacity;
      hide OverAt;
      capacity := newCapacity;
      highCapacity := PoolCapacity(capacity, highRatio);
      lowCapacity := PoolCapacity(capacity, lowRatio);
      deleted := EvictFromLRU(0);
      FreedAllCharge(old(mem), deleted);
      ghost var k, was := |deleted|, old(nodes);
      NotEvicted(old(mem).charge, was, old(usage), 0, capacity, deleted);
      assert was[k..] == nodes;
      CutsInOrder(old(mem).charge, old(pools), was, old(bottom), old(low));
      PartOfRest(old(mem).charge, was, k, old(low), |was|);
      PartOfRest(old(mem).charge, was, k, old(bottom), old(low));
    }

    method SetHighPriorityPoolRatio(ratio: real)
      requires Valid() && ratio >= 0.0
      modifies `highRatio, `highCapacity, `pools, `bottom, `low
      ensures Valid() && highRatio == ratio && nodes == old(nodes)
      ensures Within()
    {
      hide Handles, Linked, Pooled, Part, Sum, Exactly, Elements, Distinct;
      highRatio := ratio;
      highCapacity := PoolCapacity(capacity, ratio);
      MaintainPoolSize();
    }

    method SetLowPriorityPoolRatio(ratio: real)
      requires Valid() && ratio >= 0.0
      modifies `lowRatio, `lowCapacity, `pools, `bottom, `low
      ensures Valid() && lowRatio == ratio && nodes == old(nodes)
      ensures Within()
    {
      hide Handles, Linked, Pooled, Part, Sum, Exactly, Elements, Distinct;
      lowRatio := ratio;
      lowCapacity := PoolCapacity(capacity, ratio);
      MaintainPoolSize();
    }

    /** Everything that is not referenced goes; nothing that is referenced does. */
    method EraseUnRefEntries()
      requires Valid()
      modifies `mem, `next, `prev, `table, `pools, `lruUsage, `usage, `nodes, `bottom, `low
      ensures Valid() && nodes == [] && usage <= old(usage) && (old(Within()) ==> Within())
      ensures table == old(table) - KeysOf(old(mem), old(nodes)) && mem == FreedAll(old(mem), old(nodes))
    {
      hide Core, OneEvicted, EvictedSoFar;
      ghost var deleted: seq<Ptr> := [];
      ghost var start := Seen();
      NothingEvicted(start, capacity + 1, capacity);
      HeadShowsEmpty();
      while next[HEAD] != HEAD
        invariant Core() && HEAD in next && (next[HEAD] == HEAD <==> nodes == [])
        invariant EvictedSoFar(start, capacity + 1, capacity, deleted, Seen())
        decreases |nodes|
      {
        var e := next[HEAD];
        ghost var before := Seen();
        HeadShowsEmpty();
        EvictOldest(e);
        EvictedMore(start, capacity + 1, capacity, deleted, before, e, Seen());
        deleted := deleted + [e];
        HeadShowsEmpty();
      }
      AllEvicted(start, capacity + 1, capacity, deleted, Seen());
      assert deleted + [] == deleted;
    }

    // -------------------------------------------------------------- whole runs

    function Now(): Reading
      reads this
    {
      Reading(usage, capacity, strict, Within())
    }

    /** One call, if its arguments are ones that a caller may pass. */
    method Perform(op: Op)
      requires Valid()
      modifies this
      ensures Valid()
      ensures old(strict) && old(usage) <= old(capacity) <= capacity ==> usage <= capacity
      ensures !op.Resize? && old(Within()) ==> Within()
    {
      hide Core, Within, Evicts, KeysOf, FreedAll, TakenFrom, Freed, With, Without, Part, Sum, Place, PoolCapacity;
      hide FitsHigh;
      match op
      case Insert(e, info, charge, wantHandle) =>
        if e !in mem.info && e != HEAD {
          var _, _, _ := InsertItem(e, info, charge, wantHandle);
        }
      case Alone(e, info, charge, allowUncharged) =>
        if e !in mem.info && e != HEAD {
          var _, _ := CreateStandalone(e, info, charge, allowUncharged);
        }
      case Find(key) => var _, _ := Lookup(key);
      case AddRef(e) =>
        if e in mem.refs && mem.refs[e] > 0 {
          ReferencedIsPinned(e);
          Ref(e);
        }
      case Drop(handle, eraseIfLastRef) =>
        if handle.Some? ==> handle.value in mem.refs && mem.refs[handle.value] > 0 {
          if handle.Some? { ReferencedIsPinned(handle.value); }
          var _ := Release(handle, eraseIfLastRef);
        }
      case Remove(key) => Erase(key);
      case RemoveUnreferenced => EraseUnRefEntries();
      case Resize(newCapacity) =>
        var _ := SetCapacity(newCapacity);
      case Limit(limit) => SetStrictCapacityLimit(limit);
      case HighRatio(ratio) => if ratio >= 0.0 { SetHighPriorityPoolRatio(ratio); }
      case LowRatio(ratio) => if ratio >= 0.0 { SetLowPriorityPoolRatio(ratio); }
    }

    lemma ReferencedIsPinned(e: Ptr)
      requires Core() && e in mem.refs && mem.refs[e] > 0
      ensures e in pinned
    {
      assert e in Elements(nodes) || e in Elements(pinned);
    }

    /**
     Any sequence of calls. Under the strict limit, and with a capacity that is never lowered, the
     usage is within the capacity all the time; and the pools stay within theirs in every call
     but `SetCapacity`.
     */
    method Run(ops: seq<Op>) returns (trace: seq<Reading>)
      requires Valid()
      modifies this
      ensures Valid() && |trace| == |ops| + 1 && trace[0] == old(Now())
      ensures old(usage) <= old(capacity) ==>
                forall i :: 0 <= i < |trace| && StrictUpTo(trace, i) ==> trace[i].usage <= trace[i].capacity
      ensures forall i :: 0 <= i < |ops| && !ops[i].Resize? && trace[i].within ==> trace[i + 1].within
    {
      hide Core, Within;
      trace := [Now()];
      for i := 0 to |ops|
        invariant Valid() && |trace| == i + 1 && trace[0] == old(Now()) && trace[i] == Now()
        invariant old(usage) <= old(capacity) ==>
                    forall k :: 0 <= k <= i && StrictUpTo(trace, k) ==> trace[k].usage <= trace[k].capacity
        invariant forall k :: 0 <= k < i && !ops[k].Resize? && trace[k].within ==> trace[k + 1].within
      {
        ghost var was := trace;
        Perform(ops[i]);
        trace := trace + [Now()];
        forall k | 0 <= k <= i
          ensures StrictUpTo(trace, k) <==> StrictUpTo(was, k)
        {
          StrictPrefix(was, trace, k);
        }
        assert StrictUpTo(trace, i + 1) ==> StrictUpTo(trace, i) && StrictAt(trace, i) && StrictAt(trace, i + 1);
      }
    }
  }

  /** The calls of a client. */
  datatype Op =
    | Insert(e: Ptr, info: Info, charge: nat, wantHandle: bool)
    | Alone(e: Ptr, info: Info, charge: nat, allowUncharged: bool)
    | Find(key: Key)
    | AddRef(e: Ptr)
    | Drop(handle: Option<Ptr>, eraseIfLastRef: bool)
    | Remove(key: Key)
    | RemoveUnreferenced
    | Resize(newCapacity: nat)
    | Limit(limit: bool)
    | HighRatio(ratio: real)
    | LowRatio(ratio: real)

  datatype Reading = Reading(usage: nat, capacity: nat, strict: bool, within: bool)

  predicate StrictAt(trace: seq<Reading>, k: nat)
    requires k < |trace|
  {
    trace[k].strict && (k > 0 ==> trace[k - 1].capacity <= trace[k].capacity)
  }

  /** Up to number `i`, the limit is strict and the capacity is never lowered. */
  predicate StrictUpTo(trace: seq<Reading>, i: nat)
    requires i < |trace|
  {
    forall k :: 0 <= k <= i ==> StrictAt(trace, k)
  }

  lemma StrictPrefix(a: seq<Reading>, b: seq<Reading>, i: nat)
    requires i < |a| <= |b| && b[..|a|] == a
    ensures StrictUpTo(b, i) <==> StrictUpTo(a, i)
  {
    assert forall k :: 0 <= k < |a| ==> b[k] == a[k];
    assert forall k :: 0 <= k <= i ==> (StrictAt(b, k) <==> StrictAt(a, k));
  }

  /** A smaller capacity leaves the high pool over its own: 5 of 10 is half, 5 of 8 is more. */
  method PoolsCanBeOver() returns (c: LRUCacheShard)
    ensures c.Valid() && c.usage <= c.capacity && c.pools.highUsage > c.highCapacity && !c.Within()
  {
    hide LRUCacheShard.Core, Evicts, KeysOf, FreedAll, Part, Sum;
    c := new LRUCacheShard(10, false, 0.5, 0.0);
    assert PoolCapacity(10, 0.5) == 5 && PoolCapacity(8, 0.5) == 4;
    var _, _, _ := c.InsertItem(1, Info(0, true, false), 5, false);
    assert c.usage == 5 && c.pools.highUsage == 5;
    var _ := c.SetCapacity(8);
  }

  lemma Detaching(mem: Mem, table: map<Key, Ptr>, nodes: seq<Ptr>, pinned: seq<Ptr>, e: Ptr)
    requires Handles(mem, table, Elements(nodes), Elements(pinned)) && e in pinned && e in mem.inCache
    ensures e in mem.info
    ensures Handles(mem.(inCache := mem.inCache - {e}), table - {mem.info[e].key}, Elements(nodes), Elements(pinned))
  {
    assert e in Elements(pinned);
    DetachPinned(mem, table, Elements(nodes), Elements(pinned), e);
  }

  lemma NotAmong(mem: Mem, table: map<Key, Ptr>, nodes: seq<Ptr>, pinned: seq<Ptr>, e: Ptr)
    requires Handles(mem, table, Elements(nodes), Elements(pinned)) && e !in mem.info
    ensures e !in nodes && e !in pinned
  {
    assert e !in Elements(nodes) && e !in Elements(pinned);
  }

  lemma CreatingPinned(mem: Mem, table: map<Key, Ptr>, p: Pools, nodes: seq<Ptr>, bottom: nat, low: nat,
                       pinned: seq<Ptr>,
                       e: Ptr, info: Info, charge: nat, inCache: bool)
    requires Handles(mem, table, Elements(nodes), Elements(pinned)) && Distinct(pinned)
    requires Pooled(mem.charge, p, nodes, bottom, low)
    requires e !in mem.info && e != HEAD && (inCache ==> info.key !in table)
    ensures var z := Allocated(mem, e, info, charge, 1, inCache);
            && Handles(z, if inCache then table[info.key := e] else table, Elements(nodes), Elements(pinned + [e]))
            && Distinct(pinned + [e]) && Sum(z.charge, pinned + [e]) == Sum(mem.charge, pinned) + charge
            && Pooled(z.charge, p, nodes, bottom, low)
            && Part(z.charge, nodes, 0, |nodes|) == Part(mem.charge, nodes, 0, |nodes|)
  {
    NotAmong(mem, table, nodes, pinned, e);
    AddPinned(mem, table, Elements(nodes), Elements(pinned), e, info, charge, inCache);
    ChargeElsewhere(mem.charge, e, charge, nodes, p, bottom, low);
    SumSame(mem.charge, mem.charge[e := charge], pinned);
    hide Handles, Pooled, Part, Sum;
    Appended(mem.charge[e := charge], pinned, e);
  }

  lemma CreatingListed(mem: Mem, table: map<Key, Ptr>, p: Pools, nodes: seq<Ptr>, bottom: nat, low: nat,
                       pinned: seq<Ptr>,
                       e: Ptr, info: Info, charge: nat)
    requires Handles(mem, table, Elements(nodes), Elements(pinned)) && Pooled(mem.charge, p, nodes, bottom, low)
    requires e !in mem.info && e != HEAD && info.key !in table
    ensures var z := Allocated(mem, e, info, charge, 0, true);
            && Handles(z, table[info.key := e], Elements(nodes) + {e}, Elements(pinned)) && e !in nodes
            && Sum(z.charge, pinned) == Sum(mem.charge, pinned)
            && Pooled(z.charge, p, nodes, bottom, low)
            && Part(z.charge, nodes, 0, |nodes|) == Part(mem.charge, nodes, 0, |nodes|)
  {
    NotAmong(mem, table, nodes, pinned, e);
    AddListed(mem, table, Elements(nodes), Elements(pinned), e, info, charge);
    ChargeElsewhere(mem.charge, e, charge, nodes, p, bottom, low);
    SumSame(mem.charge, mem.charge[e := charge], pinned);
  }

  /** Where a handle in the table is. */
  lemma Tabled(mem: Mem, table: map<Key, Ptr>, nodes: seq<Ptr>, pinned: seq<Ptr>, key: Key)
    requires Handles(mem, table, Elements(nodes), Elements(pinned)) && key in table
    ensures var e := table[key];
            && e in mem.info && e in mem.inCache && e in mem.refs && mem.info[e].key == key
            && (if mem.refs[e] == 0 then e in nodes else e in pinned)
  {
    assert table[key] in Elements(nodes) + Elements(pinned);
  }

  lemma Referenced(mem: Mem, table: map<Key, Ptr>, nodes: seq<Ptr>, pinned: seq<Ptr>, e: Ptr)
    requires Handles(mem, table, Elements(nodes), Elements(pinned)) && e in pinned
    ensures e in mem.info && e in mem.refs && mem.refs[e] > 0 && e !in nodes && e != HEAD
    ensures e in mem.inCache ==> mem.info[e].key in table && table[mem.info[e].key] == e
  {
    assert e in Elements(pinned);
  }

  lemma Recounting(mem: Mem, table: map<Key, Ptr>, nodes: seq<Ptr>, pinned: seq<Ptr>, e: Ptr, n: nat)
    requires Handles(mem, table, Elements(nodes), Elements(pinned)) && e in pinned && n > 0
    ensures Handles(mem.(refs := mem.refs[e := n]), table, Elements(nodes), Elements(pinned))
  {
    assert e in Elements(pinned);
    RecountPinned(mem, table, Elements(nodes), Elements(pinned), e, n);
  }

  lemma Appended(charge: map<Ptr, nat>, pinned: seq<Ptr>, e: Ptr)
    requires Distinct(pinned) && e !in pinned
    ensures Distinct(pinned + [e]) && Elements(pinned + [e]) == Elements(pinned) + {e}
    ensures Sum(charge, pinned + [e]) == Sum(charge, pinned) + Charge(charge, e)
  {
    SumConcat(charge, pinned, [e]);
    SumOne(charge, e);
  }

  lemma TakenAway(charge: map<Ptr, nat>, pinned: seq<Ptr>, j: nat)
    requires Distinct(pinned) && j < |pinned|
    ensures Distinct(Without(pinned, j)) && Elements(Without(pinned, j)) == Elements(pinned) - {pinned[j]}
    ensures Sum(charge, pinned) == Sum(charge, Without(pinned, j)) + Charge(charge, pinned[j])
  {
    WithoutElements(pinned, j);
    PartWithout(charge, pinned, j, 0, |pinned|);
    assert pinned[0..|pinned|] == pinned;
    assert Without(pinned, j)[0..|pinned| - 1] == Without(pinned, j);
  }

  lemma Pinning(mem: Mem, table: map<Key, Ptr>, next: map<Ptr, Ptr>, prev: map<Ptr, Ptr>, nodes: seq<Ptr>,
                pinned: seq<Ptr>, k: nat)
    requires Linked(next, prev, nodes) && Distinct(pinned) && Handles(mem, table, Elements(nodes), Elements(pinned))
    requires k < |nodes|
    ensures var e := nodes[k];
            && Handles(mem.(refs := mem.refs[e := 1]), table, Elements(Without(nodes, k)), Elements(pinned + [e]))
            && Distinct(pinned + [e])
            && Sum(mem.charge, pinned + [e]) == Sum(mem.charge, pinned) + Charge(mem.charge, e)
  {
    var e := nodes[k];
    assert e in Elements(nodes);
    assert e !in pinned by { assert e !in Elements(pinned); }
    Pin(mem, table, Elements(nodes), Elements(pinned), e);
    WithoutIsListed(next, prev, nodes, k);
    Appended(mem.charge, pinned, e);
  }

  lemma Unpinning(mem: Mem, table: map<Key, Ptr>, next: map<Ptr, Ptr>, prev: map<Ptr, Ptr>, nodes: seq<Ptr>,
                  pinned: seq<Ptr>, j: nat)
    requires Distinct(pinned) && Handles(mem, table, Elements(nodes), Elements(pinned)) && j < |pinned|
    requires pinned[j] in mem.inCache
    ensures var e := pinned[j];
            && Handles(mem.(refs := mem.refs[e := 0]), table, Elements(nodes) + {e}, Elements(Without(pinned, j)))
            && Distinct(Without(pinned, j))
            && Sum(mem.charge, pinned) == Sum(mem.charge, Without(pinned, j)) + Charge(mem.charge, e)
  {
    assert pinned[j] in Elements(pinned);
    UnpinListed(mem, table, Elements(nodes), Elements(pinned), pinned[j]);
    TakenAway(mem.charge, pinned, j);
  }

  lemma DroppingPinned(mem: Mem, table: map<Key, Ptr>, nodes: seq<Ptr>, pinned: seq<Ptr>, j: nat)
    requires Distinct(pinned) && Handles(mem, table, Elements(nodes), Elements(pinned)) && j < |pinned|
    ensures var e := pinned[j];
            && e in mem.info && Freed(mem, e).charge == mem.charge
            && (forall k :: k in table ==> (table[k] == e <==> e in mem.inCache && k == mem.info[e].key))
            && Handles(Freed(mem, e), if e in mem.inCache then table - {mem.info[e].key} else table,
                       Elements(nodes), Elements(Without(pinned, j)))
            && Distinct(Without(pinned, j))
            && Sum(mem.charge, pinned) == Sum(mem.charge, Without(pinned, j)) + Charge(mem.charge, e)
  {
    assert pinned[j] in Elements(pinned);
    DropPinned(mem, table, Elements(nodes), Elements(pinned), pinned[j]);
    TakenAway(mem.charge, pinned, j);
  }

  function KeysOf(mem: Mem, es: seq<Ptr>): set<Key> {
    set e | e in es && e in mem.info :: mem.info[e].key
  }

  function FreedAll(mem: Mem, es: seq<Ptr>): Mem {
    if es == [] then mem else Freed(FreedAll(mem, es[..|es| - 1]), es[|es| - 1])
  }

  lemma NothingFreed(mem: Mem)
    ensures FreedAll(mem, []) == mem && KeysOf(mem, []) == {}
  {
  }

  lemma FreedMore(mem: Mem, es: seq<Ptr>, e: Ptr)
    ensures FreedAll(mem, es + [e]) == Freed(FreedAll(mem, es), e)
    ensures e in FreedAll(mem, es).info ==>
              && e in mem.info && mem.info[e] == FreedAll(mem, es).info[e]
              && KeysOf(mem, es + [e]) == KeysOf(mem, es) + {mem.info[e].key}
  {
    assert (es + [e])[..|es|] == es;
    FreedAllInfo(mem, es, e);
  }

  lemma {:induction false} FreedAllInfo(mem: Mem, es: seq<Ptr>, e: Ptr)
    ensures var z := FreedAll(mem, es);
            && (e in z.info <==> e in mem.info && e !in es) && (e in z.info ==> z.info[e] == mem.info[e])
            && (e in z.refs <==> e in mem.refs && e !in es) && (e in z.refs ==> z.refs[e] == mem.refs[e])
            && (e in z.inCache <==> e in mem.inCache && e !in es)
            && z.charge == mem.charge
    decreases |es|
  {
    if es != [] {
      FreedAllInfo(mem, es[..|es| - 1], e);
    }
  }

  lemma FreedAllCharge(mem: Mem, es: seq<Ptr>)
    ensures FreedAll(mem, es).charge == mem.charge
  {
    FreedAllInfo(mem, es, 0);
  }

  lemma CutsInOrder(charge: map<Ptr, nat>, p: Pools, nodes: seq<Ptr>, bottom: nat, low: nat)
    requires Pooled(charge, p, nodes, bottom, low)
    ensures bottom <= low <= |nodes|
    ensures p.highUsage == Part(charge, nodes, low, |nodes|) && p.lowUsage == Part(charge, nodes, bottom, low)
  {
  }

  /** Nothing goes if everything fits. */
  lemma NotEvicted(charge: map<Ptr, nat>, nodes: seq<Ptr>, usage: nat, need: nat, capacity: nat, evicted: seq<Ptr>)
    requires Evicts(charge, nodes, usage, need, capacity, evicted)
    ensures usage + need <= capacity ==> evicted == [] && Sum(charge, evicted) == 0
  {
    assert nodes[..0] == [];
    assert evicted != [] ==> OverAt(charge, nodes, usage, need, capacity, 0);
  }

  /** What it takes to drop the entry number `k` of the list from everywhere. */
  lemma Dropping(mem: Mem, table: map<Key, Ptr>, next: map<Ptr, Ptr>, prev: map<Ptr, Ptr>, nodes: seq<Ptr>,
                 pinned: seq<Ptr>, k: nat)
    requires Linked(next, prev, nodes) && Handles(mem, table, Elements(nodes), Elements(pinned)) && k < |nodes|
    ensures var e := nodes[k];
            && e in mem.info && e in mem.inCache && e in mem.refs && mem.refs[e] == 0
            && (forall key :: key in table ==> (table[key] == e <==> key == mem.info[e].key))
            && Handles(Freed(mem, e), table - {mem.info[e].key}, Elements(Without(nodes, k)), Elements(pinned))
            && Freed(mem, e).charge == mem.charge && Freed(mem, e).info.Keys <= mem.info.Keys
    ensures k == 0 ==> Without(nodes, k) == nodes[1..]
  {
    var e := nodes[k];
    assert e in Elements(nodes);
    DropListed(mem, table, Elements(nodes), Elements(pinned), e);
    WithoutIsListed(next, prev, nodes, k);
  }

  lemma WithoutIsListed(next: map<Ptr, Ptr>, prev: map<Ptr, Ptr>, nodes: seq<Ptr>, k: nat)
    requires Linked(next, prev, nodes) && k < |nodes|
    ensures Elements(Without(nodes, k)) == Elements(nodes) - {nodes[k]} && Distinct(nodes)
  {
    NodesDistinct(nodes);
    WithoutElements(nodes, k);
  }

  lemma PoolBounds(charge: map<Ptr, nat>, p: Pools, nodes: seq<Ptr>, bottom: nat, low: nat)
    requires Pooled(charge, p, nodes, bottom, low)
    ensures bottom <= low <= |nodes|
    ensures p.highUsage == Part(charge, nodes, low, |nodes|) && p.lowUsage == Part(charge, nodes, bottom, low)
  {
  }

  lemma HighestOverflows(charge: map<Ptr, nat>, next: map<Ptr, Ptr>, prev: map<Ptr, Ptr>, p: Pools, nodes: seq<Ptr>,
                         bottom: nat, low: nat)
    requires Linked(next, prev, nodes) && Pooled(charge, p, nodes, bottom, low) && p.highUsage > 0
    ensures low < |nodes| && p.lowPri in next && p.highUsage == Part(charge, nodes, low, |nodes|)
    ensures var e := next[p.lowPri];
            && e != HEAD && e in p.high && p.highUsage >= Charge(charge, e)
            && Pooled(charge, p.(lowPri := e, high := p.high - {e}, lows := p.lows + {e},
                                 highUsage := p.highUsage - Charge(charge, e),
                                 lowUsage := p.lowUsage + Charge(charge, e)),
                      nodes, bottom, low + 1)
  {
    OverflowHigh(charge, p, nodes, bottom, low);
    assert LinkedAt(next, prev, [HEAD] + nodes, low);
  }

  lemma LowestOverflows(charge: map<Ptr, nat>, next: map<Ptr, Ptr>, prev: map<Ptr, Ptr>, p: Pools, nodes: seq<Ptr>,
                        bottom: nat, low: nat)
    requires Linked(next, prev, nodes) && Pooled(charge, p, nodes, bottom, low) && p.lowUsage > 0
    ensures bottom < low <= |nodes| && p.bottomPri in next && p.lowUsage == Part(charge, nodes, bottom, low)
    ensures var e := next[p.bottomPri];
            && e != HEAD && e in p.lows && p.lowUsage >= Charge(charge, e)
            && Pooled(charge, p.(bottomPri := e, high := p.high - {e}, lows := p.lows - {e},
                      lowUsage := p.lowUsage - Charge(charge, e)),
                      nodes, bottom + 1, low)
  {
    OverflowLow(charge, p, nodes, bottom, low);
    assert LinkedAt(next, prev, [HEAD] + nodes, bottom);
  }

  /** The list with an entry put in as number `k`. */
  ghost predicate Inserted(next: map<Ptr, Ptr>, prev: map<Ptr, Ptr>, nodes: seq<Ptr>, k: nat, at: Ptr, e: Ptr)
    requires k <= |nodes|
  {
    && at in next
    && Linked(NextWith(next, at, e), PrevWith(next, prev, at, e), With(nodes, k, e))
    && Exactly(NextWith(next, at, e), With(nodes, k, e)) && Exactly(PrevWith(next, prev, at, e), With(nodes, k, e))
  }

  lemma InsertedAt(next: map<Ptr, Ptr>, prev: map<Ptr, Ptr>, nodes: seq<Ptr>, k: nat, e: Ptr)
    requires Linked(next, prev, nodes) && Exactly(next, nodes) && Exactly(prev, nodes)
    requires k <= |nodes| && e != HEAD && e !in nodes
    ensures Inserted(next, prev, nodes, k, ([HEAD] + nodes)[k], e)
  {
    LinkedWith(next, prev, nodes, k, e);
    ExactlyWith(next, prev, nodes, k, e);
  }

  /** All three places where an entry can be put. */
  lemma Insertion(charge: map<Ptr, nat>, next: map<Ptr, Ptr>, prev: map<Ptr, Ptr>, p: Pools, nodes: seq<Ptr>,
                  bottom: nat, low: nat, e: Ptr)
    requires Linked(next, prev, nodes) && Exactly(next, nodes) && Exactly(prev, nodes)
    requires Pooled(charge, p, nodes, bottom, low) && e != HEAD && e !in nodes
    ensures bottom <= low <= |nodes| && HEAD in prev
    ensures Inserted(next, prev, nodes, |nodes|, prev[HEAD], e)
    ensures Pooled(charge, p.(high := p.high + {e}, lows := p.lows - {e}, highUsage := p.highUsage + Charge(charge, e)),
                   With(nodes, |nodes|, e), bottom, low)
    ensures Inserted(next, prev, nodes, low, p.lowPri, e)
    ensures Pooled(charge, p.(high := p.high - {e}, lows := p.lows + {e}, lowUsage := p.lowUsage + Charge(charge, e),
              lowPri := e),
                   With(nodes, low, e), bottom, low + 1)
    ensures Inserted(next, prev, nodes, bottom, p.bottomPri, e)
    ensures Pooled(charge, p.(high := p.high - {e}, lows := p.lows - {e},
                              lowPri := if p.bottomPri == p.lowPri then e else p.lowPri, bottomPri := e),
                   With(nodes, bottom, e), bottom + 1, low + 1)
    ensures forall k: nat :: k <= |nodes| ==>
              |With(nodes, k, e)| == |nodes| + 1 &&
              Part(charge, With(nodes, k, e), 0, |nodes| + 1) == Part(charge, nodes, 0, |nodes|) + Charge(charge, e)
  {
    assert LinkedAt(next, prev, [HEAD] + nodes, |nodes|);
    assert Distinct([HEAD] + nodes);
    assert bottom <= low <= |nodes| && p.bottomPri == ([HEAD] + nodes)[bottom] && p.lowPri == ([HEAD] + nodes)[low];
    hide Linked, Pooled, Part, Exactly, Distinct, Inserted;
    InsertedAt(next, prev, nodes, |nodes|, e);
    InsertedAt(next, prev, nodes, low, e);
    InsertedAt(next, prev, nodes, bottom, e);
    PutHigh(charge, p, nodes, bottom, low, e);
    PutLow(charge, p, nodes, bottom, low, e);
    PutBottom(charge, p, nodes, bottom, low, e);
    forall k: nat | k <= |nodes|
      ensures |With(nodes, k, e)| == |nodes| + 1
      ensures Part(charge, With(nodes, k, e), 0, |nodes| + 1) == Part(charge, nodes, 0, |nodes|) + Charge(charge, e)
    {
      PartWith(charge, nodes, k, e, 0, |nodes|);
    }
  }

  /** The pools after an entry is taken out, `before` being the entry before it. */
  function TakenOut(charge: map<Ptr, nat>, p: Pools, e: Ptr, before: Ptr): Pools
    requires e in p.high ==> p.highUsage >= Charge(charge, e)
    requires e in p.lows ==> p.lowUsage >= Charge(charge, e)
  {
    p.(bottomPri := if p.bottomPri == e then before else p.bottomPri,
       lowPri := if p.lowPri == e then before else p.lowPri,
       highUsage := if e in p.high then p.highUsage - Charge(charge, e) else p.highUsage,
       lowUsage := if e in p.lows then p.lowUsage - Charge(charge, e) else p.lowUsage)
  }

  lemma Removal(charge: map<Ptr, nat>, next: map<Ptr, Ptr>, prev: map<Ptr, Ptr>, p: Pools, nodes: seq<Ptr>,
                bottom: nat, low: nat, k: nat)
    requires Linked(next, prev, nodes) && Exactly(next, nodes) && Exactly(prev, nodes)
    requires Pooled(charge, p, nodes, bottom, low) && k < |nodes|
    ensures var e, z := nodes[k], Without(nodes, k);
            && e in next && e in prev && e !in z
            && Linked(NextWithout(next, prev, e), PrevWithout(next, prev, e), z)
            && Exactly(NextWithout(next, prev, e), z) && Exactly(PrevWithout(next, prev, e), z)
            && PoolRemoval(charge, p, nodes, bottom, low, k, prev[e])
  {
    assert Distinct([HEAD] + nodes);
    hide Linked, Pooled, Exactly, Distinct, PoolRemoval;
    LinkedWithout(next, prev, nodes, k);
    DistinctWithout(nodes, k);
    ExactlyWithout(next, prev, nodes, k);
    RemovalFromPools(charge, p, nodes, bottom, low, k);
    hide Without, NextWithout, PrevWithout;
  }

  /** The pools without the entry number `k`, `before` being the entry before it. */
  ghost predicate PoolRemoval(charge: map<Ptr, nat>, p: Pools, nodes: seq<Ptr>, bottom: nat, low: nat, k: nat,
                          before: Ptr)
    requires k < |nodes|
  {
    var e, z := nodes[k], Without(nodes, k);
    && !(e in p.high && e in p.lows)
    && (e in p.high ==> p.highUsage >= Charge(charge, e))
    && (e in p.lows ==> p.lowUsage >= Charge(charge, e))
    && Pooled(charge, TakenOut(charge, p, e, before), z,
              if k < bottom then bottom - 1 else bottom, if k < low then low - 1 else low)
    && Part(charge, nodes, 0, |nodes|) == Part(charge, z, 0, |z|) + Charge(charge, e)
  }

  lemma RemovalFromPools(charge: map<Ptr, nat>, p: Pools, nodes: seq<Ptr>, bottom: nat, low: nat, k: nat)
    requires Distinct([HEAD] + nodes) && Pooled(charge, p, nodes, bottom, low) && k < |nodes|
    ensures PoolRemoval(charge, p, nodes, bottom, low, k, ([HEAD] + nodes)[k])
  {
    hide Pooled, Part, Distinct;
    TakeOut(charge, p, nodes, bottom, low, k);
    PartWithout(charge, nodes, k, 0, |nodes|);
    WithoutSlices(nodes, k, 0, 0);
    hide Without;
  }

  function PoolCapacity(capacity: nat, ratio: real): nat
    requires ratio >= 0.0
  {
    (capacity as real * ratio).Floor
  }

  lemma ExactlyWith(next: map<Ptr, Ptr>, prev: map<Ptr, Ptr>, nodes: seq<Ptr>, p: nat, e: Ptr)
    requires Linked(next, prev, nodes) && Exactly(next, nodes) && Exactly(prev, nodes) && p <= |nodes|
    ensures var at := ([HEAD] + nodes)[p];
            && at in next && Exactly(NextWith(next, at, e), With(nodes, p, e))
            && Exactly(PrevWith(next, prev, at, e), With(nodes, p, e))
  {
    var all := [HEAD] + nodes;
    assert LinkedAt(next, prev, all, p);
    WithElements(nodes, p, e);
    assert forall x :: x in With(nodes, p, e) <==> x in Elements(With(nodes, p, e));
    assert forall x :: x in nodes <==> x in Elements(nodes);
  }

  lemma ExactlyWithout(next: map<Ptr, Ptr>, prev: map<Ptr, Ptr>, nodes: seq<Ptr>, k: nat)
    requires Linked(next, prev, nodes) && Exactly(next, nodes) && Exactly(prev, nodes) && k < |nodes|
    ensures var e := nodes[k];
            && e in next && e in prev && Exactly(NextWithout(next, prev, e), Without(nodes, k))
            && Exactly(PrevWithout(next, prev, e), Without(nodes, k))
  {
    var all := [HEAD] + nodes;
    assert all[k + 1] == nodes[k];
    assert LinkedAt(next, prev, all, k);
    assert LinkedAt(next, prev, all, k + 1);
    NodesDistinct(nodes);
    WithoutElements(nodes, k);
    assert forall x :: x in Without(nodes, k) <==> x in Elements(Without(nodes, k));
    assert forall x :: x in nodes <==> x in Elements(nodes);
  }
}
