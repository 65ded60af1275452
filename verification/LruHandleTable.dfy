/**
 LRUHandleTable (cache/lru_cache.cc): a hash table of chains linked through the entries, indexed
 by the upper bits of the hash and doubled when it is full.  Handles are addresses; the link in
 each handle is a map from addresses.
 */
module LruHandleTable {
  import opened Bits

  type Ptr = nat
  const NULL: Ptr := 0

  /** What an entry is looked up by. */
  datatype Name = Name(hash: nat, key: nat)

  const HASH_BITS: nat := 32

  predicate IsHash(h: nat) { h < Pow2(HASH_BITS) }

  /** The bucket of a hash in a table of 2^bits buckets: its upper bits. */
  function Index(hash: nat, bits: nat): nat
    requires bits <= 32
  {
    Quotient(hash, Pow2(32 - bits))
  }

  // ---------------------------------------------------------------- chains

  /** Following `next` from `p` goes through exactly these entries, each once. */
  ghost predicate IsChain(next: map<Ptr, Ptr>, p: Ptr, chain: seq<Ptr>)
    decreases |chain|
  {
    if chain == [] then p == NULL
    else p == chain[0] != NULL && p in next && p !in chain[1..] && IsChain(next, next[p], chain[1..])
  }

  lemma {:induction false} ChainFrame(next: map<Ptr, Ptr>, p: Ptr, chain: seq<Ptr>, h: Ptr, x: Ptr)
    requires h !in chain
    ensures IsChain(next[h := x], p, chain) == IsChain(next, p, chain)
    decreases |chain|
  {
    if chain != [] && p == chain[0] && p in next {
      ChainFrame(next, next[p], chain[1..], h, x);
    }
  }

  /** The pointer to the entry number `a` of a chain, or to its end. */
  function PointerAt(chain: seq<Ptr>, a: nat): Ptr
    requires a <= |chain|
  {
    if a < |chain| then chain[a] else NULL
  }

  lemma {:induction false} ChainStep(next: map<Ptr, Ptr>, p: Ptr, chain: seq<Ptr>, a: nat)
    requires IsChain(next, p, chain) && a < |chain|
    ensures chain[a] != NULL && chain[a] in next
    ensures next[chain[a]] == if a + 1 < |chain| then chain[a + 1] else NULL
    ensures p == chain[0]
    decreases |chain|
  {
    if a > 0 {
      ChainStep(next, next[p], chain[1..], a - 1);
    }
  }

  lemma {:induction false} ChainDistinct(next: map<Ptr, Ptr>, p: Ptr, chain: seq<Ptr>, a: nat, b: nat)
    requires IsChain(next, p, chain) && a < b < |chain|
    ensures chain[a] != chain[b]
    decreases |chain|
  {
    if a > 0 {
      ChainDistinct(next, next[p], chain[1..], a - 1, b - 1);
    } else {
      assert chain[b] == chain[1..][b - 1];
    }
  }

  /** The rest of a chain is a chain. */
  lemma {:induction false} ChainRest(next: map<Ptr, Ptr>, p: Ptr, chain: seq<Ptr>, a: nat)
    requires IsChain(next, p, chain) && a <= |chain|
    ensures IsChain(next, PointerAt(chain, a), chain[a..])
    decreases |chain|
  {
    if a == 0 {
      assert chain[0..] == chain;
    } else {
      ChainRest(next, next[p], chain[1..], a - 1);
      assert chain[1..][a - 1..] == chain[a..];
    }
  }

  /** Redirecting the pointer before number `a` replaces the rest of the chain. */
  lemma {:induction false} ChainSplice(next: map<Ptr, Ptr>, p: Ptr, chain: seq<Ptr>, a: nat, q: Ptr, rest: seq<Ptr>)
    requires IsChain(next, p, chain) && 0 < a <= |chain|
    requires IsChain(next, q, rest) && forall h :: h in rest ==> h !in chain[..a]
    ensures IsChain(next[chain[a - 1] := q], p, chain[..a] + rest)
    decreases |chain|
  {
    var z := chain[..a] + rest;
    var n := next[chain[a - 1] := q];
    assert z[0] == chain[0] && z[1..] == chain[..a][1..] + rest;
    if a == 1 {
      assert z[1..] == rest;
      assert p == chain[..a][0];
      ChainFrame(next, q, rest, p, q);
    } else {
      var tail := chain[1..];
      assert tail[..a - 1] == chain[..a][1..];
      assert forall h :: h in tail[..a - 1] ==> h in chain[..a];
      ChainSplice(next, next[p], tail, a - 1, q, rest);
      assert tail[a - 2] == chain[a - 1];
      ChainDistinct(next, p, chain, 0, a - 1);
      assert p in chain[..a] by { assert p == chain[..a][0]; }
      assert p !in tail[..a - 1] && p !in rest;
    }
  }

  // ---------------------------------------------------------------- the table as a map

  ghost predicate Chained(next: map<Ptr, Ptr>, heads: seq<Ptr>, chains: seq<seq<Ptr>>) {
    |heads| == |chains| && forall i :: 0 <= i < |chains| ==> IsChain(next, heads[i], chains[i])
  }

  /** An entry of bucket `i`: it belongs there, and the table shows it under its name. */
  ghost predicate AtHome(name: map<Ptr, Name>, bits: nat, shown: map<Name, Ptr>, i: nat, p: Ptr)
    requires bits <= 32
  {
    p in name && IsHash(name[p].hash) && Index(name[p].hash, bits) == i && name[p] in shown && shown[name[p]] == p
  }

  /** A name shown by the table: its entry is in the bucket of its hash. */
  ghost predicate Found(name: map<Ptr, Name>, bits: nat, chains: seq<seq<Ptr>>, shown: map<Name, Ptr>, n: Name)
    requires bits <= 32 && n in shown
  {
    && IsHash(n.hash) && Index(n.hash, bits) < |chains| && shown[n] in chains[Index(n.hash, bits)]
    && shown[n] in name && name[shown[n]] == n && shown[n] != NULL
  }

  ghost predicate Filed(name: map<Ptr, Name>, bits: nat, chains: seq<seq<Ptr>>, shown: map<Name, Ptr>)
    requires bits <= 32
  {
    && (forall i, p :: 0 <= i < |chains| && p in chains[i] ==> AtHome(name, bits, shown, i, p))
    && (forall n :: n in shown ==> Found(name, bits, chains, shown, n))
  }

  lemma IndexInTable(hash: nat, bits: nat)
    requires bits <= 32 && IsHash(hash)
    ensures Index(hash, bits) < Pow2(bits)
  {
    Pow2Splits(bits, 32 - bits);
    var d := Pow2(32 - bits);
    assert hash < Pow2(bits) * d;
    QuotientBelow(hash, d, Pow2(bits));
  }

  lemma {:induction false} Pow2Splits(a: nat, b: nat)
    ensures Pow2(a + b) == Pow2(a) * Pow2(b)
  {
    if a > 0 {
      Pow2Splits(a - 1, b);
      assert Pow2(a + b) == 2 * Pow2(a + b - 1);
    }
  }

  lemma QuotientBelow(x: nat, d: nat, m: nat)
    requires d > 0
    ensures x < m * d <==> x / d < m
  {
    var q := x / d;
    assert x == d * q + x % d;
    if q < m {
      MultipleIsFar(d, m - q);
      assert d * (m - q) == m * d - d * q;
    } else {
      MultipleIsFar(d, q - m);
      assert d * (q - m) == d * q - m * d;
    }
  }

  // ---------------------------------------------------------------- storing through a pointer

  function StoreHeads(heads: seq<Ptr>, i: nat, at: Ptr, q: Ptr): seq<Ptr>
    requires i < |heads|
  {
    if at == NULL then heads[i := q] else heads
  }

  function StoreNext(next: map<Ptr, Ptr>, at: Ptr, q: Ptr): map<Ptr, Ptr> {
    if at == NULL then next else next[at := q]
  }

  /** A store through the pointer before number `a` of bucket `i` replaces the rest of that chain only. */
  lemma Stored(next: map<Ptr, Ptr>, heads: seq<Ptr>, chains: seq<seq<Ptr>>, i: nat, a: nat, at: Ptr, q: Ptr,
               rest: seq<Ptr>)
    requires Chained(next, heads, chains) && i < |chains| && a <= |chains[i]|
    requires at == if a == 0 then NULL else chains[i][a - 1]
    requires a > 0 ==> forall j :: 0 <= j < |chains| && j != i ==> at !in chains[j]
    requires IsChain(next, q, rest) && forall h :: h in rest ==> h !in chains[i][..a]
    ensures Chained(StoreNext(next, at, q), StoreHeads(heads, i, at, q), chains[i := chains[i][..a] + rest])
  {
    var n, hs, cs := StoreNext(next, at, q), StoreHeads(heads, i, at, q), chains[i := chains[i][..a] + rest];
    assert IsChain(next, heads[i], chains[i]);
    if a > 0 {
      ChainStep(next, heads[i], chains[i], a - 1);
      ChainSplice(next, heads[i], chains[i], a, q, rest);
    } else {
      assert chains[i][..a] + rest == rest;
    }
    forall j | 0 <= j < |cs|
      ensures IsChain(n, hs[j], cs[j])
    {
      if j != i && a > 0 {
        ChainFrame(next, heads[j], chains[j], at, q);
      }
    }
  }

  /** No entry is in two buckets. */
  lemma OneBucket(name: map<Ptr, Name>, bits: nat, chains: seq<seq<Ptr>>, shown: map<Name, Ptr>, i: nat, j: nat, p: Ptr)
    requires bits <= 32 && Filed(name, bits, chains, shown) && i < |chains| && j < |chains|
    ensures p in chains[i] && p in chains[j] ==> i == j
  {
    assert p in chains[i] ==> AtHome(name, bits, shown, i, p);
    assert p in chains[j] ==> AtHome(name, bits, shown, j, p);
  }

  /** The chain with `h` in place of number `a`, or at the end. */
  function Replaced(chain: seq<Ptr>, a: nat, h: Ptr): seq<Ptr>
    requires a <= |chain|
  {
    chain[..a] + [h] + if a < |chain| then chain[a + 1..] else []
  }

  lemma ReplacedMembers(chain: seq<Ptr>, a: nat, h: Ptr, p: Ptr)
    requires a <= |chain|
    requires forall b, c :: 0 <= b < c < |chain| ==> chain[b] != chain[c]
    ensures p in Replaced(chain, a, h) <==> p == h || (p in chain && (a < |chain| ==> p != chain[a]))
  {
    var z := Replaced(chain, a, h);
    if p in chain && (a < |chain| ==> p != chain[a]) {
      var b :| 0 <= b < |chain| && chain[b] == p;
      assert z[b] == p;
    }
    assert z[a] == h;
  }

  lemma FiledInsert(name: map<Ptr, Name>, bits: nat, chains: seq<seq<Ptr>>, shown: map<Name, Ptr>, i: nat, a: nat,
                    h: Ptr, n: Name)
    requires bits <= 32 && Filed(name, bits, chains, shown) && IsHash(n.hash) && i == Index(n.hash, bits) < |chains|
    requires h != NULL
    requires forall j, p :: 0 <= j < |chains| && p in chains[j] ==> p != h
    requires a <= |chains[i]| && (n in shown <==> a < |chains[i]|) && (n in shown ==> shown[n] == chains[i][a])
    requires forall b, c :: 0 <= b < c < |chains[i]| ==> chains[i][b] != chains[i][c]
    ensures Filed(name[h := n], bits, chains[i := Replaced(chains[i], a, h)], shown[n := h])
  {
    var m, cs, z := name[h := n], chains[i := Replaced(chains[i], a, h)], shown[n := h];
    forall j, p | 0 <= j < |cs| && p in cs[j]
      ensures AtHome(m, bits, z, j, p)
    {
      if j == i { ReplacedMembers(chains[i], a, h, p); }
      if p != h {
        assert AtHome(name, bits, shown, j, p);
      }
    }
    forall k | k in z
      ensures Found(m, bits, cs, z, k)
    {
      if k == n {
        ReplacedMembers(chains[i], a, h, h);
      } else {
        assert Found(name, bits, chains, shown, k);
        if Index(k.hash, bits) == i { ReplacedMembers(chains[i], a, h, shown[k]); }
      }
    }
  }

  lemma FiledRemove(name: map<Ptr, Name>, bits: nat, chains: seq<seq<Ptr>>, shown: map<Name, Ptr>, i: nat, a: nat,
                    n: Name)
    requires bits <= 32 && Filed(name, bits, chains, shown) && i < |chains| && a < |chains[i]|
    requires n in shown && shown[n] == chains[i][a]
    requires forall b, c :: 0 <= b < c < |chains[i]| ==> chains[i][b] != chains[i][c]
    ensures Filed(name, bits, chains[i := chains[i][..a] + chains[i][a + 1..]], shown - {n})
  {
    var chain := chains[i];
    var short := chain[..a] + chain[a + 1..];
    var cs, z := chains[i := short], shown - {n};
    assert forall p :: p in chain && p != chain[a] ==> p in short by {
      forall p | p in chain && p != chain[a]
        ensures p in short
      {
        var b :| 0 <= b < |chain| && chain[b] == p;
        assert short[if b < a then b else b - 1] == p;
      }
    }
    assert chain[a] in chain;
    assert AtHome(name, bits, shown, i, chain[a]);
    forall j, p | 0 <= j < |cs| && p in cs[j]
      ensures AtHome(name, bits, z, j, p)
    {
      assert AtHome(name, bits, shown, j, p);
      if j == i {
        assert p != chain[a];
      }
    }
    forall k | k in z
      ensures Found(name, bits, cs, z, k)
    {
      assert Found(name, bits, chains, shown, k);
    }
  }

  /** What may happen to the table between two parts of a scan. */
  datatype Edit = Put(h: Ptr, n: Name) | Delete(n: Name)

  class HandleTable {
    var bits: nat
    const maxBits: nat
    var heads: seq<Ptr>
    /** the fields of the handles */
    var name: map<Ptr, Name>
    var next: map<Ptr, Ptr>
    var elems: nat
    ghost var chains: seq<seq<Ptr>>
    /** what the table is as a map */
    ghost var shown: map<Name, Ptr>

    ghost predicate Valid()
      reads this
    {
      && bits <= 32 && |heads| == Pow2(bits) && elems == |shown|
      && Chained(next, heads, chains) && Filed(name, bits, chains, shown)
    }

    /** Chains are at most one entry long on average, as long as the table may grow. */
    ghost predicate Light()
      reads this
    {
      elems < Pow2(bits) || bits >= maxBits || bits >= 31
    }

    /** Every handle that was ever named has a hash of 32 bits. */
    ghost predicate Hashed()
      reads this
    {
      forall p :: p in name ==> IsHash(name[p].hash)
    }

    constructor (maxBits: nat)
      ensures Valid() && Light() && Hashed() && shown == map[] && this.maxBits == maxBits && bits == 4
    {
      bits, this.maxBits := 4, maxBits;
      heads := seq(Pow2(4), _ => NULL);
      name, next, elems := map[], map[], 0;
      chains, shown := seq(Pow2(4), _ => []), map[];
    }

    /**
     The pointer that leads to the entry with the name, or to the end of its chain: the head of
     the bucket if `at` is null, and otherwise the link in the entry `at`.
     */
    method FindPointer(n: Name) returns (at: Ptr, p: Ptr, ghost a: nat)
      requires Valid() && IsHash(n.hash)
      ensures Index(n.hash, bits) < |chains| && a <= |chains[Index(n.hash, bits)]|
      ensures p == if n in shown then shown[n] else NULL
      ensures var chain := chains[Index(n.hash, bits)];
              && at == (if a == 0 then NULL else chain[a - 1]) && p == PointerAt(chain, a)
              && (n in shown <==> a < |chain|) && (n in shown <==> p != NULL)
    {
      hide Valid, Index, Pow2;
      BucketOf(n);
      var i := Index(n.hash, bits);
      ghost var chain := chains[i];
      ChainFacts(i);
      at, p, a := NULL, heads[i], 0;
      while p != NULL && name[p] != n
        invariant a <= |chain| && at == (if a == 0 then NULL else chain[a - 1]) && p == PointerAt(chain, a)
        invariant forall b :: 0 <= b < a ==> name[chain[b]] != n
        decreases |chain| - a
      {
        LinkFacts(i, a);
        at, p := p, next[p];
        a := a + 1;
      }
      SearchEnds(n, i, a);
    }

    lemma BucketOf(n: Name)
      requires Valid() && IsHash(n.hash)
      ensures bits <= 32 && Index(n.hash, bits) < |chains| == |heads|
    {
      IndexInTable(n.hash, bits);
    }

    /** What a search of the bucket that stops at entry number `a` has found. */
    lemma SearchEnds(n: Name, i: nat, a: nat)
      requires Valid() && IsHash(n.hash) && i == Index(n.hash, bits) && i < |chains| && a <= |chains[i]|
      requires forall b :: 0 <= b < |chains[i]| ==> chains[i][b] in name
      requires forall b :: 0 <= b < a ==> name[chains[i][b]] != n
      requires a < |chains[i]| ==> name[chains[i][a]] == n
      ensures n in shown <==> a < |chains[i]|
      ensures a < |chains[i]| ==> chains[i][a] == shown[n]
    {
      ChainFacts(i);
      assert n in shown ==> Found(name, bits, chains, shown, n);
      hide Chained, IsChain, Filed;
    }

    lemma LinkFacts(i: nat, b: nat)
      requires Valid() && i < |chains| && b < |chains[i]|
      ensures chains[i][b] in next && next[chains[i][b]] == PointerAt(chains[i], b + 1)
    {
      assert IsChain(next, heads[i], chains[i]);
      ChainStep(next, heads[i], chains[i], b);
    }

    /** Everything else about the entries of one bucket. */
    lemma ChainFacts(i: nat)
      requires Valid() && i < |chains|
      ensures heads[i] == PointerAt(chains[i], 0)
      ensures forall b :: 0 <= b < |chains[i]| ==>
                var p := chains[i][b];
                p != NULL && p in name && name[p] in shown && shown[name[p]] == p
    {
      var chain := chains[i];
      assert IsChain(next, heads[i], chain);
      forall b | 0 <= b < |chain|
        ensures var p := chain[b];
                p != NULL && p in name && name[p] in shown && shown[name[p]] == p
      {
        ChainStep(next, heads[i], chain, b);
        assert AtHome(name, bits, shown, i, chain[b]);
      }
    }

    method Lookup(n: Name) returns (p: Ptr)
      requires Valid() && IsHash(n.hash)
      ensures p == if n in shown then shown[n] else NULL
    {
      var at;
      ghost var a;
      at, p, a := FindPointer(n);
    }

    /** Entries of one chain are different, and in no other chain. */
    lemma Separate(i: nat)
      requires Valid() && i < |chains|
      ensures forall b, c :: 0 <= b < c < |chains[i]| ==> chains[i][b] != chains[i][c]
      ensures forall p, j :: p in chains[i] && 0 <= j < |chains| && j != i ==> p !in chains[j]
    {
      assert IsChain(next, heads[i], chains[i]);
      forall b, c | 0 <= b < c < |chains[i]|
        ensures chains[i][b] != chains[i][c]
      {
        ChainDistinct(next, heads[i], chains[i], b, c);
      }
      forall p, j | p in chains[i] && 0 <= j < |chains| && j != i
        ensures p !in chains[j]
      {
        OneBucket(name, bits, chains, shown, i, j, p);
      }
    }

    /** Put in the entry `h` under the name `n`; the entry it takes the place of is returned. */
    method Insert(h: Ptr, n: Name) returns (replaced: Ptr)
      requires Valid() && IsHash(n.hash) && h != NULL && forall k :: k in shown ==> shown[k] != h
      modifies this
      ensures Valid() && shown == old(shown)[n := h] && name == old(name)[h := n]
      ensures old(bits) <= bits <= old(bits) + 1 && (old(Light()) ==> Light())
      ensures replaced == if n in old(shown) then old(shown)[n] else NULL
    {
      hide Chained, Filed, Replaced, StoreNext, StoreHeads, PointerAt, Index, Pow2;
      var at;
      ghost var a;
      at, replaced, a := FindPointer(n);
      var i := Index(n.hash, bits);
      Inserting(h, n, i, a, at);
      var after := if replaced == NULL then NULL else next[replaced];
      next, heads := StoreNext(next[h := after], at, h), StoreHeads(heads, i, at, h);
      name, chains, shown := name[h := n], chains[i := Replaced(chains[i], a, h)], shown[n := h];
      if replaced == NULL {
        elems := elems + 1;
        QuotientPositive(elems, Pow2(bits));
        if elems / Pow2(bits) > 0 {
          Pow2Step(bits);
          Resize();
        }
      }
    }

    lemma Inserting(h: Ptr, n: Name, i: nat, a: nat, at: Ptr)
      requires Valid() && IsHash(n.hash) && h != NULL && forall k :: k in shown ==> shown[k] != h
      requires i == Index(n.hash, bits) < |chains| && a <= |chains[i]|
      requires at == if a == 0 then NULL else chains[i][a - 1]
      requires (n in shown <==> a < |chains[i]|) && (n in shown ==> shown[n] == PointerAt(chains[i], a))
      ensures n in shown ==> shown[n] in next && shown[n] != NULL
      ensures i < |heads| && |StoreHeads(heads, i, at, h)| == |heads|
      ensures var after := if n in shown then next[shown[n]] else NULL;
              Chained(StoreNext(next[h := after], at, h), StoreHeads(heads, i, at, h),
                      chains[i := Replaced(chains[i], a, h)])
      ensures Filed(name[h := n], bits, chains[i := Replaced(chains[i], a, h)], shown[n := h])
    {
      Separate(i);
      NotHere(h);
      if a < |chains[i]| { LinkFacts(i, a); ChainFacts(i); }
      InsertLinks(next, heads, chains, i, a, at, h, if a < |chains[i]| then next[chains[i][a]] else NULL);
      FiledInsert(name, bits, chains, shown, i, a, h, n);
    }

    lemma NotHere(h: Ptr)
      requires Valid() && forall k :: k in shown ==> shown[k] != h
      ensures forall j, p :: 0 <= j < |chains| && p in chains[j] ==> p != h
    {
      forall j, p | 0 <= j < |chains| && p in chains[j]
        ensures p != h
      {
        assert AtHome(name, bits, shown, j, p);
      }
    }

    method Remove(n: Name) returns (p: Ptr)
      requires Valid() && IsHash(n.hash)
      modifies this
      ensures Valid() && shown == old(shown) - {n} && name == old(name)
      ensures bits == old(bits) && (old(Light()) ==> Light())
      ensures p == if n in old(shown) then old(shown)[n] else NULL
    {
      hide Chained, Filed, StoreNext, StoreHeads, PointerAt, Index;
      var at;
      ghost var a;
      at, p, a := FindPointer(n);
      if p != NULL {
        var i := Index(n.hash, bits);
        Removing(n, i, a, at);
        next, heads := StoreNext(next, at, next[p]), StoreHeads(heads, i, at, next[p]);
        chains, shown := chains[i := chains[i][..a] + chains[i][a + 1..]], shown - {n};
        elems := elems - 1;
      } else {
        assert shown - {n} == shown;
      }
    }

    lemma Removing(n: Name, i: nat, a: nat, at: Ptr)
      requires Valid() && IsHash(n.hash) && n in shown
      requires i == Index(n.hash, bits) < |chains| && a < |chains[i]| && at == if a == 0 then NULL else chains[i][a - 1]
      requires shown[n] == PointerAt(chains[i], a)
      ensures shown[n] in next && i < |heads|
      ensures var q := next[shown[n]];
              && |StoreHeads(heads, i, at, q)| == |heads|
              && Chained(StoreNext(next, at, q), StoreHeads(heads, i, at, q),
                        chains[i := chains[i][..a] + chains[i][a + 1..]])
      ensures Filed(name, bits, chains[i := chains[i][..a] + chains[i][a + 1..]], shown - {n})
      ensures |shown - {n}| == |shown| - 1
    {
      Separate(i);
      LinkFacts(i, a);
      RemoveLinks(next, heads, chains, i, a, at);
      FiledRemove(name, bits, chains, shown, i, a, n);
      assert shown == (shown - {n})[n := shown[n]];
    }

    /** Twice as many buckets, the same entries. */
    method Resize()
      requires Valid()
      modifies `bits, `heads, `next, `chains
      ensures Valid() && bits == if old(bits) >= maxBits || old(bits) >= 31 then old(bits) else old(bits) + 1
    {
      hide Chained, Filed, Moved;
      if bits >= maxBits || bits >= 31 {
        return;
      }
      var links, newHeads;
      ghost var newChains;
      links, newHeads, newChains := MoveAll(bits + 1);
      MovedAll(name, bits, chains, newChains, shown);
      bits, heads, next, chains := bits + 1, newHeads, links, newChains;
    }

    /** The links and the buckets of a table with twice as many buckets. */
    method MoveAll(newBits: nat) returns (links: map<Ptr, Ptr>, newHeads: seq<Ptr>, ghost newChains: seq<seq<Ptr>>)
      requires Valid() && newBits == bits + 1 <= 32
      ensures |newHeads| == Pow2(newBits) && Chained(links, newHeads, newChains)
      ensures Moved(name, chains, newChains, newBits, |chains|)
    {
      hide Valid, Chained, Moved, Later, Pow2;
      newHeads := seq(Pow2(newBits), _ => NULL);
      newChains := seq(Pow2(newBits), _ => []);
      links := next;
      StartMove(newHeads, newChains, newBits);
      for i := 0 to |heads|
        invariant |newHeads| == Pow2(newBits) && Chained(links, newHeads, newChains)
        invariant Moved(name, chains, newChains, newBits, i) && Later(links, heads, chains, i)
      {
        links, newHeads, newChains := MoveBucket(i, links, newHeads, newChains, newBits);
      }
    }

    lemma StartMove(newHeads: seq<Ptr>, newChains: seq<seq<Ptr>>, newBits: nat)
      requires Valid() && newBits == bits + 1 <= 32 && |newHeads| == |newChains| == Pow2(newBits)
      requires forall j :: 0 <= j < |newHeads| ==> newHeads[j] == NULL && newChains[j] == []
      ensures |heads| == |chains|
      ensures Moved(name, chains, newChains, newBits, 0) && Chained(next, newHeads, newChains)
      ensures Later(next, heads, chains, 0)
    {
      MoveNone(next, name, heads, chains, newHeads, newChains, newBits);
    }

    lemma SameLength()
      requires Valid()
      ensures |heads| == |chains| == Pow2(bits)
    {
    }

    /** Move the entries of one bucket, from the front of its chain to the front of their new ones. */
    method MoveBucket(i: nat, links0: map<Ptr, Ptr>, newHeads0: seq<Ptr>, ghost newChains0: seq<seq<Ptr>>, newBits: nat)
        returns (links: map<Ptr, Ptr>, newHeads: seq<Ptr>, ghost newChains: seq<seq<Ptr>>)
      requires Valid() && newBits == bits + 1 <= 32 && i < |heads| && |newHeads0| == Pow2(newBits)
      requires Chained(links0, newHeads0, newChains0) && Moved(name, chains, newChains0, newBits, i)
      requires Later(links0, heads, chains, i)
      ensures |newHeads| == Pow2(newBits) && Chained(links, newHeads, newChains)
      ensures Moved(name, chains, newChains, newBits, i + 1) && Later(links, heads, chains, i + 1)
    {
      links, newHeads, newChains := links0, newHeads0, newChains0;
      var h := heads[i];
      ghost var k := 0;
      ghost var chain := chains[i];
      StartBucket(links, name, heads, chains, newChains, newBits, i);
      hide Chained, Filed, IsChain, Moved, Later, MovedPart;
      while h != NULL
        invariant k <= |chain| && IsChain(links, h, chain[k..])
        invariant |newHeads| == Pow2(newBits) && Chained(links, newHeads, newChains)
        invariant Later(links, heads, chains, i + 1) && MovedPart(name, chains, newChains, newBits, i, k)
        decreases |chain| - k
      {
        MoveOneFacts(i, k, links, h, newChains, newBits);
        MoveOne(links, name, heads, newHeads, chains, newChains, newBits, i, k);
        var after := links[h];
        var j := Index(name[h].hash, newBits);
        links := links[h := newHeads[j]];
        newChains := newChains[j := [h] + newChains[j]];
        newHeads := newHeads[j := h];
        h := after;
        k := k + 1;
      }
      EndBucket(links, h, name, chains, newChains, newBits, i, k);
    }

    /** The next entry to move exists, is named, and is not in any new bucket or later old one. */
    lemma MoveOneFacts(i: nat, k: nat, links: map<Ptr, Ptr>, h: Ptr, newChains: seq<seq<Ptr>>, newBits: nat)
      requires Valid() && newBits == bits + 1 <= 32 && i < |chains| && k <= |chains[i]| && h != NULL
      requires IsChain(links, h, chains[i][k..])
      requires MovedPart(name, chains, newChains, newBits, i, k)
      ensures k < |chains[i]| && chains[i][k] == h && h in links && h in name
      ensures Index(name[h].hash, newBits) < Pow2(newBits)
      ensures forall j :: 0 <= j < |newChains| ==> h !in newChains[j]
      ensures forall j :: i < j < |chains| ==> h !in chains[j]
      ensures h !in chains[i][k + 1..]
    {
      var rest := chains[i][k..];
      if rest != [] { ChainStep(links, h, rest, 0); }
      assert h == rest[0] == chains[i][k] && h in chains[i];
      assert AtHome(name, bits, shown, i, h);
      IndexInTable(name[h].hash, newBits);
      Separate(i);
      forall c | 0 <= c < i
        ensures h !in chains[c]
      {
        OneBucket(name, bits, chains, shown, i, c, h);
      }
      hide IsChain, Chained, AtHome, Found, Index, Filed;
      assert !Among(chains, i, h);
      assert h !in chains[i][..k] && h !in chains[i][k + 1..];
    }

    // -------------------------------------------------------------- scanning

    /** Apply to the entries of the buckets from `begin` to before `end`. */
    method ApplyToEntriesRange(begin: nat, end: nat) returns (visited: seq<Ptr>)
      requires Valid() && begin <= end <= Pow2(bits)
      ensures forall a, b :: 0 <= a < b < |visited| ==> visited[a] != visited[b]
      ensures forall p :: p in visited <==> exists i :: begin <= i < end && i < |chains| && p in chains[i]
    {
      hide Valid;
      visited := [];
      SameLength();
      for i := begin to end
        invariant forall a, b :: 0 <= a < b < |visited| ==> visited[a] != visited[b]
        invariant forall p :: p in visited <==> exists j :: begin <= j < i && j < |chains| && p in chains[j]
      {
        var chain := ApplyToBucket(i);
        Separate(i);
        ghost var before := visited;
        Together(visited, chain);
        visited := visited + chain;
        assert forall p :: p in visited <==> p in before || p in chain;
      }
    }

    /** The entries of one bucket, by following its chain. */
    method ApplyToBucket(i: nat) returns (visited: seq<Ptr>)
      requires Valid() && i < |heads| && i < |chains|
      ensures visited == chains[i]
    {
      hide Valid;
      ghost var chain := chains[i];
      ChainFacts(i);
      visited := [];
      var h := heads[i];
      ghost var k := 0;
      while h != NULL
        invariant k <= |chain| && visited == chain[..k] && h == PointerAt(chain, k)
        decreases |chain| - k
      {
        LinkFacts(i, k);
        visited := visited + [h];
        h := next[h];
        k := k + 1;
      }
    }

    /**
     Part of a scan.  The state is the place in the hash space where the next part begins, as a
     64-bit fraction, so that it stays good when the table is resized between parts.
     */
    method ApplyToSomeEntries(average: nat, state: nat) returns (state': nat, visited: seq<Ptr>)
      requires Valid() && average > 0 && IsScanState(state, bits)
      ensures state' == SCAN_END || (state < state' && IsScanState(state', bits))
      ensures forall a, b :: 0 <= a < b < |visited| ==> visited[a] != visited[b]
      ensures forall n :: n in shown ==> (shown[n] in visited <==> state <= Place(n.hash) < EndOf(state'))
      ensures forall p :: p in visited ==> p in name && name[p] in shown && shown[name[p]] == p
    {
      hide Pow2;
      var length := Pow2(bits);
      var unit := Pow2(64 - bits);
      var begin := state / unit;
      var end := begin + average;
      ScanBegins(state, bits);
      if end >= length {
        end := length;
        state' := SCAN_END;
      } else {
        state' := end * unit;
        ScanMoves(begin, end, bits);
      }
      visited := ApplyToEntriesRange(begin, end);
      VisitedAre(begin, end, state, state', visited);
    }

    /** An insertion or a removal between two parts of a scan, if a caller may make it. */
    method ApplyEdit(edit: Edit, ghost state: nat)
      requires Valid() && Hashed() && IsScanState(state, bits)
      modifies this
      ensures Valid() && Hashed() && IsScanState(state, bits)
    {
      hide Valid, Pow2, IsScanState;
      match edit
      case Put(h, n) =>
        if h != NULL && IsHash(n.hash) {
          var there := NULL;
          if h in name {
            there := Lookup(name[h]);
          }
          if there != h {
            NotStored(h);
            ghost var was := bits;
            var _ := Insert(h, n);
            BitsBound();
            if bits > was {
              ScanStateStays(state, was);
            }
          }
        }
      case Delete(n) =>
        if IsHash(n.hash) {
          var _ := Remove(n);
        }
    }

    lemma BitsBound()
      requires Valid()
      ensures bits <= 32
    {
    }

    /** A handle that its own name does not lead to is not in the table. */
    lemma NotStored(h: Ptr)
      requires Valid() && (h in name ==> name[h] !in shown || shown[name[h]] != h)
      ensures forall k :: k in shown ==> shown[k] != h
    {
      forall k | k in shown
        ensures shown[k] != h
      {
        assert Found(name, bits, chains, shown, k);
      }
    }

    /**
     A whole scan, with any insertions and removals, and the resizes that they bring, between its
     parts. A name that is in the table at every part is visited in exactly one of them.
     */
    method Scan(average: nat, edits: seq<seq<Edit>>) returns (visited: seq<seq<Ptr>>, ghost calls: seq<ScanCall>)
      requires Valid() && Hashed() && average > 0
      modifies this
      ensures Valid() && WholeScan(calls) && |visited| == |calls| && calls[0].shown == old(shown)
      ensures forall i :: 0 <= i < |calls| ==> calls[i].visited == visited[i]
      ensures forall n: Name :: IsHash(n.hash) && InAll(calls, n) ==> VisitedOnce(calls, n)
    {
      hide Valid, Pow2, IsScanState, CallOk, IsHash;
      visited, calls := [], [];
      var state := 0;
      BitsBound();
      StartsScan(bits);
      var more := true;
      while more
        invariant Valid() && Hashed() && |visited| == |calls|
        invariant PartScan(calls, state, more) && (more ==> IsScanState(state, bits))
        invariant if calls == [] then shown == old(shown) else calls[0].shown == old(shown)
        invariant forall i :: 0 <= i < |calls| ==> calls[i].visited == visited[i]
        decreases more, Pow2(64) - state
      {
        var state', found := ApplyToSomeEntries(average, state);
        CallIsOk(shown, found, state, bits, state');
        calls, visited := calls + [ScanCall(shown, found, state, state')], visited + [found];
        more := state' != SCAN_END;
        if more {
          var now := if |visited| <= |edits| then edits[|visited| - 1] else [];
          StateBound(state, bits);
          state := state';
          for i := 0 to |now|
            invariant Valid() && Hashed() && IsScanState(state, bits)
          {
            ApplyEdit(now[i], state);
          }
        }
      }
      forall n: Name | IsHash(n.hash) && InAll(calls, n)
        ensures VisitedOnce(calls, n)
      {
        var i := StayingEntryVisitedOnce(calls, n);
      }
    }

    lemma VisitedAre(begin: nat, end: nat, state: nat, state': nat, visited: seq<Ptr>)
      requires Valid() && begin <= end <= Pow2(bits)
      requires state == begin * Pow2(64 - bits)
      requires if state' == SCAN_END then end == Pow2(bits) else state' == end * Pow2(64 - bits)
      requires forall p :: p in visited <==> exists i :: begin <= i < end && i < |chains| && p in chains[i]
      ensures forall n :: n in shown ==> (shown[n] in visited <==> state <= Place(n.hash) < EndOf(state'))
      ensures forall p :: p in visited ==> p in name && name[p] in shown && shown[name[p]] == p
    {
      forall n | n in shown
        ensures shown[n] in visited <==> state <= Place(n.hash) < EndOf(state')
      {
        assert Found(name, bits, chains, shown, n);
        InPart(n.hash, bits, begin, end, state');
        var i := Index(n.hash, bits);
        if shown[n] in visited {
          var j :| begin <= j < end && j < |chains| && shown[n] in chains[j];
          OneBucket(name, bits, chains, shown, i, j, shown[n]);
        }
      }
      forall p | p in visited
        ensures p in name && name[p] in shown && shown[name[p]] == p
      {
        var j :| begin <= j < end && j < |chains| && p in chains[j];
        assert AtHome(name, bits, shown, j, p);
      }
    }
  }

  lemma Together(a: seq<Ptr>, b: seq<Ptr>)
    requires forall i, j :: 0 <= i < j < |a| ==> a[i] != a[j]
    requires forall i, j :: 0 <= i < j < |b| ==> b[i] != b[j]
    requires forall p :: p in b ==> p !in a
    ensures forall i, j :: 0 <= i < j < |a + b| ==> (a + b)[i] != (a + b)[j]
  {
    forall i, j | 0 <= i < j < |a + b|
      ensures (a + b)[i] != (a + b)[j]
    {
      if i < |a| <= j {
        assert (a + b)[i] in a && (a + b)[j] in b;
      }
    }
  }

  /** The mark that a scan is over: all ones, which no part begins at. */
  const SCAN_END: nat := 0xFFFF_FFFF_FFFF_FFFF

  function EndOf(state: nat): nat { if state == SCAN_END then Pow2(64) else state }

  /** Where a 32-bit hash lies in the 64-bit hash space. */
  function Place(hash: nat): nat { hash * Pow2(32) }

  predicate IsScanState(state: nat, bits: nat) {
    bits <= 32 && state < Pow2(64) && state % Pow2(64 - bits) == 0
  }

  lemma ScanBegins(state: nat, bits: nat)
    requires IsScanState(state, bits)
    ensures state == state / Pow2(64 - bits) * Pow2(64 - bits) && state / Pow2(64 - bits) < Pow2(bits)
  {
    hide Pow2;
    Pow2Splits(bits, 64 - bits);
    QuotientBelow(state, Pow2(64 - bits), Pow2(bits));
  }

  lemma ScanMoves(begin: nat, end: nat, bits: nat)
    requires bits <= 32 && begin < end < Pow2(bits)
    ensures begin * Pow2(64 - bits) < end * Pow2(64 - bits)
    ensures IsScanState(end * Pow2(64 - bits), bits) && end * Pow2(64 - bits) != SCAN_END
  {
    hide Pow2;
    var unit := Pow2(64 - bits);
    MultipleIsFar(unit, end - begin);
    assert unit * (end - begin) == end * unit - begin * unit;
    Pow2Splits(bits, 64 - bits);
    DivModUnique(end * unit, unit, end, 0);
    QuotientBelow(end * unit, unit, Pow2(bits));
    Pow2Step(63 - bits);
    assert (end * unit) == 2 * (end * Pow2(63 - bits));
  }

  /** A state stays good when the table grows. */
  lemma ScanStateStays(state: nat, bits: nat)
    requires IsScanState(state, bits) && bits < 32
    ensures IsScanState(state, bits + 1)
  {
    hide Pow2;
    Pow2Step(63 - bits);
    HalfDivides(state, Pow2(63 - bits));
  }

  lemma QuotientPositive(x: nat, d: nat)
    requires d > 0
    ensures x / d > 0 <==> x >= d
  {
    if x < d {
      DivModUnique(x, d, 0, x);
    } else {
      assert d * (x / d) + x % d == x;
    }
  }

  lemma HalfDivides(x: nat, half: nat)
    requires half > 0 && x % (2 * half) == 0
    ensures x % half == 0
  {
    var q := x / (2 * half);
    assert x == 2 * half * q;
    assert x == half * (2 * q);
    DivModUnique(x, half, 2 * q, 0);
  }

  /** The bucket of a hash is in a part exactly when the hash is in the part's stretch of the hash space. */
  lemma InPart(hash: nat, bits: nat, begin: nat, end: nat, state': nat)
    requires bits <= 32 && IsHash(hash) && begin <= end <= Pow2(bits)
    requires if state' == SCAN_END then end == Pow2(bits) else state' == end * Pow2(64 - bits)
    ensures begin <= Index(hash, bits) < end <==> begin * Pow2(64 - bits) <= Place(hash) < EndOf(state')
  {
    hide Pow2;
    var d, unit := Pow2(32 - bits), Pow2(64 - bits);
    Pow2Splits(32 - bits, 32);
    Pow2Splits(bits, 64 - bits);
    QuotientBelow(hash, d, begin);
    QuotientBelow(hash, d, end);
    Scaled(hash, begin * d, Pow2(32));
    Scaled(hash, end * d, Pow2(32));
    Regrouped(begin, d, Pow2(32));
    Regrouped(end, d, Pow2(32));
  }

  lemma Regrouped(a: nat, b: nat, c: nat)
    ensures a * b * c == a * (b * c)
  {
  }

  lemma Scaled(x: nat, y: nat, m: nat)
    requires m > 0
    ensures x < y <==> x * m < y * m
  {
    MultipleIsFar(m, y - x);
    assert m * (y - x) == y * m - x * m;
    MultipleIsFar(m, x - y);
    assert m * (x - y) == x * m - y * m;
  }

  /** The states of a scan, from zero on, each part ending where the next begins. */
  ghost predicate IsScan(cuts: seq<nat>) {
    && |cuts| >= 2 && cuts[0] == 0 && cuts[|cuts| - 1] == Pow2(64)
    && forall i :: 0 <= i < |cuts| - 1 ==> cuts[i] < cuts[i + 1]
  }

  ghost predicate InCut(cuts: seq<nat>, i: nat, x: nat)
    requires i + 1 < |cuts|
  {
    cuts[i] <= x < cuts[i + 1]
  }

  /** Whatever the sizes of the parts, every place in the hash space is in exactly one of them. */
  lemma ScanVisitsOnce(cuts: seq<nat>, hash: nat) returns (i: nat)
    requires IsScan(cuts) && IsHash(hash)
    ensures i + 1 < |cuts| && InCut(cuts, i, Place(hash))
    ensures forall j: nat :: j + 1 < |cuts| && InCut(cuts, j, Place(hash)) ==> j == i
  {
    hide Pow2;
    Pow2Splits(32, 32);
    Scaled(hash, Pow2(32), Pow2(32));
    i := PartOf(cuts, Place(hash), |cuts| - 1);
    forall j: nat | j + 1 < |cuts| && InCut(cuts, j, Place(hash))
      ensures j == i
    {
      CutsAscend(cuts, j + 1, i);
      CutsAscend(cuts, i + 1, j);
    }
  }

  /** One call of a scan: the table at the time, what was visited, and the states before and after. */
  datatype ScanCall = ScanCall(shown: map<Name, Ptr>, visited: seq<Ptr>, from: nat, to: nat)

  /** What `ApplyToSomeEntries` promises of a call. */
  ghost predicate CallOk(c: ScanCall) {
    && c.from < EndOf(c.to)
    && forall n :: n in c.shown ==> (c.shown[n] in c.visited <==> c.from <= Place(n.hash) < EndOf(c.to))
  }

  /** A whole scan, whatever happened to the table between its calls. */
  ghost predicate WholeScan(calls: seq<ScanCall>) {
    && |calls| >= 1 && calls[0].from == 0 && calls[|calls| - 1].to == SCAN_END
    && (forall i :: 0 <= i < |calls| ==> CallOk(calls[i]))
    && forall i :: 0 <= i < |calls| - 1 ==> calls[i].to != SCAN_END && calls[i].to == calls[i + 1].from
  }

  /** The calls of a scan so far, the next one being at `state`. */
  ghost predicate PartScan(calls: seq<ScanCall>, state: nat, more: bool) {
    && (forall i :: 0 <= i < |calls| ==> CallOk(calls[i]))
    && (forall i :: 0 <= i < |calls| - 1 ==> calls[i].to != SCAN_END && calls[i].to == calls[i + 1].from)
    && (if calls == [] then more && state == 0
        else calls[0].from == 0 && if more then calls[|calls| - 1].to == state != SCAN_END
                  else calls[|calls| - 1].to == SCAN_END)
  }

  ghost predicate InAll(calls: seq<ScanCall>, n: Name) {
    forall k :: 0 <= k < |calls| ==> n in calls[k].shown
  }

  ghost predicate VisitedOnce(calls: seq<ScanCall>, n: Name)
    requires InAll(calls, n)
  {
    exists i :: 0 <= i < |calls| && calls[i].shown[n] in calls[i].visited
                && forall k :: 0 <= k < |calls| && calls[k].shown[n] in calls[k].visited ==> k == i
  }

  lemma StartsScan(bits: nat)
    requires bits <= 32
    ensures IsScanState(0, bits)
  {
    DivModUnique(0, Pow2(64 - bits), 0, 0);
  }

  lemma StateBound(state: nat, bits: nat)
    requires IsScanState(state, bits)
    ensures state < Pow2(64)
  {
  }

  lemma CallIsOk(shown: map<Name, Ptr>, visited: seq<Ptr>, state: nat, bits: nat, state': nat)
    requires IsScanState(state, bits) && (state' == SCAN_END || state < state')
    requires forall n :: n in shown ==> (shown[n] in visited <==> state <= Place(n.hash) < EndOf(state'))
    ensures CallOk(ScanCall(shown, visited, state, state'))
  {
    hide Pow2;
  }

  ghost function Cuts(calls: seq<ScanCall>): (cuts: seq<nat>)
    requires WholeScan(calls)
    ensures |cuts| == |calls| + 1 && cuts[|calls|] == Pow2(64)
    ensures forall i :: 0 <= i < |calls| ==> cuts[i] == calls[i].from
  {
    seq(|calls|, i requires 0 <= i < |calls| => calls[i].from) + [Pow2(64)]
  }

  /** An entry that is in the table at every call of a scan is visited by exactly one of them. */
  lemma StayingEntryVisitedOnce(calls: seq<ScanCall>, n: Name) returns (i: nat)
    requires WholeScan(calls) && IsHash(n.hash) && forall k :: 0 <= k < |calls| ==> n in calls[k].shown
    ensures i < |calls| && calls[i].shown[n] in calls[i].visited
    ensures forall k :: 0 <= k < |calls| && calls[k].shown[n] in calls[k].visited ==> k == i
  {
    hide Pow2;
    var cuts := Cuts(calls);
    forall k | 0 <= k < |cuts| - 1
      ensures cuts[k] < cuts[k + 1] && cuts[k] == calls[k].from && cuts[k + 1] == EndOf(calls[k].to)
    {
      assert CallOk(calls[k]);
    }
    i := ScanVisitsOnce(cuts, n.hash);
    forall k | 0 <= k < |calls|
      ensures calls[k].shown[n] in calls[k].visited <==> InCut(cuts, k, Place(n.hash))
    {
      assert CallOk(calls[k]);
    }
  }

  lemma {:induction false} CutsAscend(cuts: seq<nat>, i: nat, j: nat)
    requires IsScan(cuts) && j < |cuts|
    ensures i <= j ==> cuts[i] <= cuts[j]
  {
    if i < j {
      CutsAscend(cuts, i, j - 1);
      assert cuts[j - 1] < cuts[j - 1 + 1];
    }
  }

  lemma {:induction false} PartOf(cuts: seq<nat>, x: nat, n: nat) returns (i: nat)
    requires IsScan(cuts) && 1 <= n < |cuts| && x < cuts[n]
    ensures i < n && InCut(cuts, i, x)
  {
    if x >= cuts[n - 1] {
      i := n - 1;
    } else {
      i := PartOf(cuts, x, n - 1);
    }
  }

  /** As `Moved`, with the first `k` entries of bucket `i` moved too. */
  ghost predicate MovedPart(name: map<Ptr, Name>, chains: seq<seq<Ptr>>, newChains: seq<seq<Ptr>>, newBits: nat,
                          i: nat, k: nat)
    requires newBits <= 32
  {
    && i < |chains| && k <= |chains[i]|
    && (forall j, p :: 0 <= j < |newChains| && p in newChains[j] ==>
          p in name && Index(name[p].hash, newBits) == j && (Among(chains, i, p) || p in chains[i][..k]))
    && (forall c, p :: 0 <= c < i && p in chains[c] ==> Arrived(name, newChains, newBits, p))
    && (forall p :: p in chains[i][..k] ==> Arrived(name, newChains, newBits, p))
  }

  ghost predicate Arrived(name: map<Ptr, Name>, newChains: seq<seq<Ptr>>, newBits: nat, p: Ptr)
    requires newBits <= 32
  {
    p in name && Index(name[p].hash, newBits) < |newChains| && p in newChains[Index(name[p].hash, newBits)]
  }

  lemma StartBucket(links: map<Ptr, Ptr>, name: map<Ptr, Name>, heads: seq<Ptr>, chains: seq<seq<Ptr>>,
                    newChains: seq<seq<Ptr>>, newBits: nat, i: nat)
    requires newBits <= 32 && Moved(name, chains, newChains, newBits, i) && Later(links, heads, chains, i)
    requires i < |chains|
    ensures IsChain(links, heads[i], chains[i][0..]) && Later(links, heads, chains, i + 1)
    ensures MovedPart(name, chains, newChains, newBits, i, 0)
  {
    assert chains[i][0..] == chains[i];
    forall c, p | 0 <= c < i && p in chains[c]
      ensures Arrived(name, newChains, newBits, p)
    {
    }
  }

  lemma EndBucket(links: map<Ptr, Ptr>, h: Ptr, name: map<Ptr, Name>, chains: seq<seq<Ptr>>, newChains: seq<seq<Ptr>>,
                  newBits: nat, i: nat, k: nat)
    requires newBits <= 32 && MovedPart(name, chains, newChains, newBits, i, k)
    requires h == NULL && IsChain(links, h, chains[i][k..])
    ensures Moved(name, chains, newChains, newBits, i + 1)
  {
    assert k == |chains[i]|;
    assert chains[i][..k] == chains[i];
    forall c, p | 0 <= c < i + 1 && p in chains[c]
      ensures Arrived(name, newChains, newBits, p)
    {
    }
    forall j, p | 0 <= j < |newChains| && p in newChains[j]
      ensures Among(chains, i + 1, p)
    {
      if Among(chains, i, p) {
        var c :| 0 <= c < i && p in chains[c];
      }
    }
  }

  lemma MoveOne(links: map<Ptr, Ptr>, name: map<Ptr, Name>, heads: seq<Ptr>, newHeads: seq<Ptr>, chains: seq<seq<Ptr>>,
                newChains: seq<seq<Ptr>>,
                newBits: nat, i: nat, k: nat)
    requires newBits <= 32 && Chained(links, newHeads, newChains) && |newHeads| == Pow2(newBits)
    requires MovedPart(name, chains, newChains, newBits, i, k) && Later(links, heads, chains, i + 1)
    requires k < |chains[i]| && IsChain(links, chains[i][k], chains[i][k..]) && chains[i][k] != NULL
    requires chains[i][k] in links && chains[i][k] in name && Index(name[chains[i][k]].hash, newBits) < Pow2(newBits)
    requires forall j :: 0 <= j < |newChains| ==> chains[i][k] !in newChains[j]
    requires forall j :: i < j < |chains| ==> chains[i][k] !in chains[j]
    requires chains[i][k] !in chains[i][k + 1..]
    ensures var h := chains[i][k];
            var j := Index(name[h].hash, newBits);
            var n := links[h := newHeads[j]];
            && IsChain(n, links[h], chains[i][k + 1..])
            && Chained(n, newHeads[j := h], newChains[j := [h] + newChains[j]])
            && Later(n, heads, chains, i + 1)
            && MovedPart(name, chains, newChains[j := [h] + newChains[j]], newBits, i, k + 1)
  {
    var h := chains[i][k];
    var j := Index(name[h].hash, newBits);
    var n := links[h := newHeads[j]];
    var z := newChains[j := [h] + newChains[j]];
    assert chains[i][k..][1..] == chains[i][k + 1..];
    ChainFrame(links, links[h], chains[i][k + 1..], h, newHeads[j]);
    forall c | 0 <= c < |newChains|
      ensures IsChain(n, newHeads[j := h][c], z[c])
    {
      ChainFrame(links, newHeads[c], newChains[c], h, newHeads[j]);
      if c == j { assert z[c][1..] == newChains[c]; }
    }
    forall c | i + 1 <= c < |chains|
      ensures IsChain(n, heads[c], chains[c])
    {
      ChainFrame(links, heads[c], chains[c], h, newHeads[j]);
    }
    MovedOneMore(name, chains, newChains, newBits, i, k);
  }

  lemma MovedOneMore(name: map<Ptr, Name>, chains: seq<seq<Ptr>>, newChains: seq<seq<Ptr>>, newBits: nat, i: nat,
                     k: nat)
    requires newBits <= 32 && MovedPart(name, chains, newChains, newBits, i, k)
    requires k < |chains[i]| && chains[i][k] in name && Index(name[chains[i][k]].hash, newBits) < |newChains|
    ensures var h := chains[i][k];
            var j := Index(name[h].hash, newBits);
            MovedPart(name, chains, newChains[j := [h] + newChains[j]], newBits, i, k + 1)
  {
    var h := chains[i][k];
    var j := Index(name[h].hash, newBits);
    var z := newChains[j := [h] + newChains[j]];
    assert chains[i][..k + 1] == chains[i][..k] + [h];
    assert forall p :: Arrived(name, newChains, newBits, p) ==> Arrived(name, z, newBits, p);
    assert h in z[j];
    assert Arrived(name, z, newBits, h);
  }

  /** The links that an insertion makes. */
  lemma InsertLinks(next: map<Ptr, Ptr>, heads: seq<Ptr>, chains: seq<seq<Ptr>>, i: nat, a: nat, at: Ptr, h: Ptr,
                    after: Ptr)
    requires Chained(next, heads, chains) && i < |chains| && a <= |chains[i]| && h != NULL
    requires at == if a == 0 then NULL else chains[i][a - 1]
    requires forall p, j :: p in chains[i] && 0 <= j < |chains| && j != i ==> p !in chains[j]
    requires forall j, p :: 0 <= j < |chains| && p in chains[j] ==> p != h
    requires forall b, c :: 0 <= b < c < |chains[i]| ==> chains[i][b] != chains[i][c]
    requires after == if a < |chains[i]| then PointerAt(chains[i], a + 1) else NULL
    ensures Chained(StoreNext(next[h := after], at, h), StoreHeads(heads, i, at, h),
            chains[i := Replaced(chains[i], a, h)])
  {
    var chain := chains[i];
    var n := next[h := after];
    ChainedElsewhere(next, heads, chains, h, after);
    assert IsChain(n, heads[i], chain);
    hide IsChain, Chained, Replaced, PointerAt;
    var rest := InsertTail(n, heads[i], chain, a, h, after);
    assert a > 0 ==> at in chain;
    Stored(n, heads, chains, i, a, at, h, rest);
  }

  /** The chain that starts at a new entry `h`, which takes the place of entry number `a`. */
  lemma InsertTail(n: map<Ptr, Ptr>, head: Ptr, chain: seq<Ptr>, a: nat, h: Ptr, after: Ptr) returns (rest: seq<Ptr>)
    requires IsChain(n, head, chain) && a <= |chain| && h != NULL && h !in chain && h in n && n[h] == after
    requires forall b, c :: 0 <= b < c < |chain| ==> chain[b] != chain[c]
    requires after == if a < |chain| then PointerAt(chain, a + 1) else NULL
    ensures IsChain(n, h, rest) && chain[..a] + rest == Replaced(chain, a, h)
    ensures forall x :: x in rest ==> x !in chain[..a]
  {
    var tail := if a < |chain| then chain[a + 1..] else [];
    rest := [h] + tail;
    if a < |chain| {
      ChainRest(n, head, chain, a + 1);
    }
    assert rest[1..] == tail;
  }

  /** A link written in an entry outside the table changes nothing in it. */
  lemma ChainedElsewhere(next: map<Ptr, Ptr>, heads: seq<Ptr>, chains: seq<seq<Ptr>>, h: Ptr, x: Ptr)
    requires Chained(next, heads, chains) && forall j, p :: 0 <= j < |chains| && p in chains[j] ==> p != h
    ensures Chained(next[h := x], heads, chains)
  {
    forall j | 0 <= j < |chains|
      ensures IsChain(next[h := x], heads[j], chains[j])
    {
      ChainFrame(next, heads[j], chains[j], h, x);
    }
  }

  lemma RemoveLinks(next: map<Ptr, Ptr>, heads: seq<Ptr>, chains: seq<seq<Ptr>>, i: nat, a: nat, at: Ptr)
    requires Chained(next, heads, chains) && i < |chains| && a < |chains[i]|
    requires at == if a == 0 then NULL else chains[i][a - 1]
    requires forall p, j :: p in chains[i] && 0 <= j < |chains| && j != i ==> p !in chains[j]
    requires forall b, c :: 0 <= b < c < |chains[i]| ==> chains[i][b] != chains[i][c]
    ensures var q := PointerAt(chains[i], a + 1);
            Chained(StoreNext(next, at, q), StoreHeads(heads, i, at, q),
                      chains[i := chains[i][..a] + chains[i][a + 1..]])
  {
    assert IsChain(next, heads[i], chains[i]);
    ChainRest(next, heads[i], chains[i], a + 1);
    assert a > 0 ==> at in chains[i];
    Stored(next, heads, chains, i, a, at, PointerAt(chains[i], a + 1), chains[i][a + 1..]);
  }

  // ---------------------------------------------------------------- rehashing

  /** The buckets from `i` on are still linked as they were. */
  ghost predicate Later(next: map<Ptr, Ptr>, heads: seq<Ptr>, chains: seq<seq<Ptr>>, i: nat) {
    |heads| == |chains| && forall j :: i <= j < |chains| ==> IsChain(next, heads[j], chains[j])
  }

  /** The new buckets hold exactly the entries of the first `i` old ones, each where its hash puts it. */
  ghost predicate Moved(name: map<Ptr, Name>, chains: seq<seq<Ptr>>, newChains: seq<seq<Ptr>>, newBits: nat, i: nat)
    requires newBits <= 32
  {
    && i <= |chains|
    && (forall j, p :: 0 <= j < |newChains| && p in newChains[j] ==>
          p in name && Index(name[p].hash, newBits) == j && Among(chains, i, p))
    && (forall k, p :: 0 <= k < i && p in chains[k] ==> Arrived(name, newChains, newBits, p))
  }

  ghost predicate Among(chains: seq<seq<Ptr>>, i: nat, p: Ptr)
    requires i <= |chains|
  {
    exists k :: 0 <= k < i && p in chains[k]
  }

  lemma MoveNone(next: map<Ptr, Ptr>, name: map<Ptr, Name>, heads: seq<Ptr>, chains: seq<seq<Ptr>>,
                 newHeads: seq<Ptr>, newChains: seq<seq<Ptr>>, newBits: nat)
    requires newBits <= 32 && Chained(next, heads, chains) && |newHeads| == |newChains|
    requires forall j :: 0 <= j < |newChains| ==> newChains[j] == [] && newHeads[j] == NULL
    ensures Moved(name, chains, newChains, newBits, 0) && Chained(next, newHeads, newChains)
    ensures Later(next, heads, chains, 0)
  {
  }

  lemma MovedAll(name: map<Ptr, Name>, bits: nat, chains: seq<seq<Ptr>>, newChains: seq<seq<Ptr>>,
                 shown: map<Name, Ptr>)
    requires bits < 32 && Filed(name, bits, chains, shown) && Moved(name, chains, newChains, bits + 1, |chains|)
    ensures Filed(name, bits + 1, newChains, shown)
  {
    forall j, p | 0 <= j < |newChains| && p in newChains[j]
      ensures AtHome(name, bits + 1, shown, j, p)
    {
      assert Among(chains, |chains|, p);
      var k :| 0 <= k < |chains| && p in chains[k];
      assert AtHome(name, bits, shown, k, p);
    }
    forall n | n in shown
      ensures Found(name, bits + 1, newChains, shown, n)
    {
      assert Found(name, bits, chains, shown, n);
      assert Arrived(name, newChains, bits + 1, shown[n]);
    }
  }
}
