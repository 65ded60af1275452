/**
 The chain of one home while `SplitForGrow` divides it between the old home and the grow home
 (cache/clock_cache.cc, AutoHyperClockTable).

 A chain is a linked list threaded through slots of the table. Every link carries the number of
 hash bits ("shift") of the home it leads along, and the last link is an end marker that names its
 head. `Phase` describes the shapes the two chains pass through; `Shape` says that a memory has
 such a shape; the lemmas show what each single store does to it.
 */
module ChainSplit {
  import opened Bits

  datatype Link = Next(slot: nat, shift: nat) | End(home: nat, shift: nat)

  /** A head pointer. The rewrite lock has no meaning on an end marker. */
  datatype Head = Unused | Head(link: Link, locked: bool)

  /** Where the entry of a slot belongs: the home being split, with the new hash bit 0 or 1, or not. */
  datatype Kind = Zero | One | Foreign

  /** The two heads and, for every slot, its chain pointer and where its entry belongs. */
  datatype Memory = Memory(oldHead: Head, growHead: Head, chain: seq<Link>, kind: seq<Kind>) {
    function HeadOf(one: bool): Head { if one then growHead else oldHead }
    predicate Is(s: nat, one: bool) { s < |kind| && kind[s] == if one then One else Zero }
  }

  /** Which home is split: bit number `shift` of the hash is the one that decides. */
  datatype Geometry = Geometry(shift: nat, oldHome: nat, growHome: nat) {
    ghost predicate Valid() { oldHome < Pow2(shift) && growHome == oldHome + Pow2(shift) }
    function NewShift(): nat { shift + 1 }
    function HomeOf(one: bool): nat { if one then growHome else oldHome }
    function KindOf(hash: nat): Kind {
      if BottomBits(hash, shift) != oldHome then Foreign
      else if BottomBits(hash, NewShift()) == oldHome then Zero
      else One
    }
  }

  /** An entry of the home being split goes to the old or to the grow home, as its kind says. */
  lemma KindDecidesHome(g: Geometry, hash: nat)
    requires g.Valid()
    ensures g.KindOf(hash).Zero? <==> BottomBits(hash, g.NewShift()) == g.oldHome
    ensures g.KindOf(hash).One? <==> BottomBits(hash, g.NewShift()) == g.growHome
  {
    OneMoreBit(hash, g.shift);
    HomeBits(g, false);
    HomeBits(g, true);
  }

  // ---------------------------------------------------------------- what Lookup needs

  /**
   The links from `l` lead through exactly the slots `p`, and Lookup for `home` at `shift` accepts
   each of them: the shift is its own or one generation older, and the end marker names the home
   that applies at the marker's shift.
   */
  ghost predicate Walk(chain: seq<Link>, l: Link, p: seq<nat>, home: nat, shift: nat)
    decreases |p|
  {
    && (l.shift == shift || l.shift + 1 == shift)
    && if p == [] then l.End? && l.home == BottomBits(home, l.shift)
       else l.Next? && l.slot == p[0] < |chain| && Walk(chain, chain[p[0]], p[1..], home, shift)
  }

  /** A walk from the home that applies to the entry in slot `s` right now reaches the entry. */
  ghost predicate Reached(g: Geometry, m: Memory, s: nat)
  {
    && s < |m.kind|
    && m.oldHead.Head?
    && if m.oldHead.link.shift == g.shift then
         exists p :: Walk(m.chain, m.oldHead.link, p, g.oldHome, g.shift) && s in p
       else
         var one := m.kind[s].One?;
         && m.HeadOf(one).Head?
         && exists p :: Walk(m.chain, m.HeadOf(one).link, p, g.HomeOf(one), g.NewShift()) && s in p
  }

  // ---------------------------------------------------------------- shapes

  ghost predicate Distinct(s: seq<nat>) {
    forall i, j :: 0 <= i < j < |s| ==> s[i] != s[j]
  }

  /** One target chain. Links before index `done` have the new shift, links from there the old one. */
  datatype Strand = Strand(path: seq<nat>, done: nat) {
    predicate Finished() { done == |path| }
    /** the part with old links, starting at the frontier */
    function Rest(): seq<nat> { if done <= |path| then path[done..] else [] }
  }

  datatype Phase =
    /** before the heads are updated */
    | Unsplit(path: seq<nat>)
    /** both strands unfinished; from index `join` on, the first strand is the other's rest */
    | Shared(zero: Strand, one: Strand, first: bool, join: nat)
    /** the strands have no slot in common */
    | Separate(zero: Strand, one: Strand)
  {
    function Of(b: bool): Strand
      requires !Unsplit?
    {
      if b then one else zero
    }
    ghost predicate Has(s: nat) {
      if Unsplit? then s in path else s in zero.path || s in one.path
    }
  }

  /** The link expected at index `i` of a strand. */
  function LinkAt(g: Geometry, one: bool, st: Strand, i: nat): Link
    requires i < |st.path|
  {
    var shift := if i < st.done then g.NewShift() else g.shift;
    if i + 1 < |st.path| then Next(st.path[i + 1], shift)
    else End(if i < st.done then g.HomeOf(one) else g.oldHome, shift)
  }

  /** The old link expected at index `i` of a path. */
  function OldLink(g: Geometry, path: seq<nat>, i: nat): Link
    requires i < |path|
  {
    if i + 1 < |path| then Next(path[i + 1], g.shift) else End(g.oldHome, g.shift)
  }

  /** The slots of `path` are linked by old links, up to the old end marker. */
  ghost predicate OldRun(g: Geometry, chain: seq<Link>, path: seq<nat>) {
    && (forall i :: 0 <= i < |path| ==> path[i] < |chain|)
    && (forall i {:trigger OldLink(g, path, i)} :: 0 <= i < |path| ==> chain[path[i]] == OldLink(g, path, i))
  }

  ghost predicate Placed(g: Geometry, m: Memory, path: seq<nat>)
    requires |m.kind| == |m.chain|
  {
    && Distinct(path)
    && forall i :: 0 <= i < |path| ==> path[i] < |m.chain| && !m.kind[path[i]].Foreign?
  }

  ghost predicate OnStrand(g: Geometry, m: Memory, one: bool, st: Strand)
    requires |m.kind| == |m.chain|
  {
    && st.done <= |st.path|
    && m.HeadOf(one).Head?
    && m.HeadOf(one).link == (if st.path == [] then End(g.HomeOf(one), g.NewShift())
                              else Next(st.path[0], g.NewShift()))
    && Placed(g, m, st.path)
    && (forall i {:trigger LinkAt(g, one, st, i)} :: 0 <= i < |st.path| ==>
          m.chain[st.path[i]] == LinkAt(g, one, st, i))
    && (forall i :: 0 <= i < |st.path| && i <= st.done ==> m.Is(st.path[i], one))
  }

  ghost predicate Apart(p: seq<nat>, q: seq<nat>) {
    forall i, j :: 0 <= i < |p| && 0 <= j < |q| ==> p[i] != q[j]
  }

  /** `p` runs through its own entries up to `join` and from there along the unfinished rest of `q`. */
  ghost predicate Joined(g: Geometry, m: Memory, first: bool, p: Strand, join: nat, q: Strand)
    requires |m.kind| == |m.chain| && Placed(g, m, p.path)
  {
    && p.done < join < |p.path|
    && q.done < |q.path|
    && p.path[join..] == q.path[q.done..]
    && Apart(p.path[..join], q.path)
    && forall i :: 0 <= i < join ==> m.Is(p.path[i], first)
  }

  ghost predicate Pure(g: Geometry, m: Memory, one: bool, path: seq<nat>)
    requires |m.kind| == |m.chain| && Placed(g, m, path)
  {
    forall i :: 0 <= i < |path| ==> m.Is(path[i], one)
  }

  ghost predicate Shape(g: Geometry, m: Memory, ph: Phase) {
    && |m.kind| == |m.chain|
    && match ph
       case Unsplit(p) =>
         && m.oldHead.Head?
         && m.oldHead.link == (if p == [] then End(g.oldHome, g.shift) else Next(p[0], g.shift))
         && Placed(g, m, p)
         && OldRun(g, m.chain, p)
       case Shared(_, _, first, join) => SharedShape(g, m, first, ph.Of(first), join, ph.Of(!first))
       case Separate(z, o) => SeparateShape(g, m, false, z, o)
  }

  ghost predicate SharedShape(g: Geometry, m: Memory, first: bool, p: Strand, join: nat, q: Strand)
    requires |m.kind| == |m.chain|
  {
    OnStrand(g, m, first, p) && OnStrand(g, m, !first, q) && Joined(g, m, first, p, join, q)
  }

  ghost predicate SeparateShape(g: Geometry, m: Memory, one: bool, p: Strand, q: Strand)
    requires |m.kind| == |m.chain|
  {
    && OnStrand(g, m, one, p) && OnStrand(g, m, !one, q)
    && Apart(p.path, q.path)
    && Pure(g, m, one, p.path) && Pure(g, m, !one, q.path)
  }

  // ---------------------------------------------------------------- every shape serves Lookup

  lemma {:induction false} StrandWalk(g: Geometry, m: Memory, one: bool, st: Strand, k: nat)
    requires g.Valid() && |m.kind| == |m.chain| && OnStrand(g, m, one, st) && k < |st.path|
    ensures Walk(m.chain, m.chain[st.path[k]], st.path[k + 1..], g.HomeOf(one), g.NewShift())
    decreases |st.path| - k
  {
    HomeBits(g, one);
    assert m.chain[st.path[k]] == LinkAt(g, one, st, k);
    if k + 1 < |st.path| {
      StrandWalk(g, m, one, st, k + 1);
      assert st.path[k + 1..][1..] == st.path[k + 2..];
    }
  }

  lemma HomeBits(g: Geometry, one: bool)
    requires g.Valid()
    ensures BottomBits(g.HomeOf(one), g.NewShift()) == g.HomeOf(one)
    ensures BottomBits(g.HomeOf(one), g.shift) == g.oldHome
  {
    var p := Pow2(g.shift);
    DivModUnique(g.oldHome, p, 0, g.oldHome);
    DivModUnique(g.growHome, p, 1, g.oldHome);
    DivModUnique(g.HomeOf(one), 2 * p, 0, g.HomeOf(one));
  }

  lemma {:induction false} PlainWalk(g: Geometry, m: Memory, p: seq<nat>, k: nat)
    requires g.Valid() && Shape(g, m, Unsplit(p)) && k < |p|
    ensures Walk(m.chain, m.chain[p[k]], p[k + 1..], g.oldHome, g.shift)
    decreases |p| - k
  {
    HomeBits(g, false);
    assert m.chain[p[k]] == OldLink(g, p, k);
    if k + 1 < |p| {
      PlainWalk(g, m, p, k + 1);
      assert p[k + 1..][1..] == p[k + 2..];
    }
  }

  /** In every shape, every entry is reached from the home that applies to it. */
  lemma ShapeServesLookup(g: Geometry, m: Memory, ph: Phase, s: nat)
    requires g.Valid() && Shape(g, m, ph) && ph.Has(s)
    ensures Reached(g, m, s)
  {
    match ph
    case Unsplit(p) =>
      PlainWalk(g, m, p, 0);
      assert Walk(m.chain, m.oldHead.link, p, g.oldHome, g.shift);
    case _ =>
      var one := m.kind[s].One?;
      assert s in ph.Of(one).path by { MemberIsOnItsStrand(g, m, ph, s); }
      StrandIsWalk(g, m, one, ph.Of(one));
  }

  lemma StrandIsWalk(g: Geometry, m: Memory, one: bool, st: Strand)
    requires g.Valid() && |m.kind| == |m.chain| && OnStrand(g, m, one, st)
    ensures Walk(m.chain, m.HeadOf(one).link, st.path, g.HomeOf(one), g.NewShift())
  {
    HomeBits(g, one);
    if st.path != [] { StrandWalk(g, m, one, st, 0); }
  }

  lemma MemberIsOnItsStrand(g: Geometry, m: Memory, ph: Phase, s: nat)
    requires Shape(g, m, ph) && !ph.Unsplit? && ph.Has(s)
    ensures s in ph.Of(m.kind[s].One?).path
  {
    if ph.Shared? {
      var p, q := ph.Of(ph.first), ph.Of(!ph.first);
      if s in p.path {
        var i :| 0 <= i < |p.path| && p.path[i] == s;
        if i >= ph.join { assert s == p.path[ph.join..][i - ph.join]; }
      }
    }
  }

  // ---------------------------------------------------------------- the stores of the splitter

  function SharedOf(first: bool, p: Strand, q: Strand, join: nat): (ph: Phase)
    ensures ph.Shared? && ph.Of(first) == p && ph.Of(!first) == q
  {
    if first then Shared(q, p, first, join) else Shared(p, q, first, join)
  }

  function SeparateOf(one: bool, p: Strand, q: Strand): (ph: Phase)
    ensures ph.Separate? && ph.Of(one) == p && ph.Of(!one) == q
  {
    if one then Separate(q, p) else Separate(p, q)
  }

  function Put(m: Memory, slot: nat, l: Link): (m': Memory)
    requires slot < |m.chain|
    ensures |m'.chain| == |m.chain|
  {
    m.(chain := m.chain[slot := l])
  }

  /** A store to a slot off the strand leaves the strand as it is. */
  lemma StoreElsewhere(g: Geometry, m: Memory, one: bool, st: Strand, slot: nat, l: Link)
    requires |m.kind| == |m.chain| && OnStrand(g, m, one, st) && slot < |m.chain| && slot !in st.path
    ensures OnStrand(g, Put(m, slot, l), one, st)
  {
  }

  /** The link at the frontier is replaced by one with the new shift, leading to a new rest. */
  lemma StoreAtFrontier(g: Geometry, m: Memory, one: bool, st: Strand, rest: seq<nat>)
    requires |m.kind| == |m.chain| && OnStrand(g, m, one, st) && !st.Finished()
    requires Placed(g, m, rest) && Apart(st.path[..st.done + 1], rest) && OldRun(g, m.chain, rest)
    requires rest != [] ==> m.Is(rest[0], one)
    ensures OnStrand(g, Put(m, st.path[st.done],
                            if rest != [] then Next(rest[0], g.NewShift())
                            else End(g.HomeOf(one), g.NewShift())),
                     one, Strand(st.path[..st.done + 1] + rest, st.done + 1))
  {
    var n := st.done + 1;
    var st' := Strand(st.path[..n] + rest, n);
    var m' := Put(m, st.path[st.done], if rest != [] then Next(rest[0], g.NewShift())
                                       else End(g.HomeOf(one), g.NewShift()));
    hide LinkAt;
    forall i | 0 <= i < |st'.path|
      ensures m'.chain[st'.path[i]] == LinkAt(g, one, st', i)
    {
      StoredLinkAt(g, m, one, st, rest, i);
    }
    PlacedTogether(g, m, st.path[..n], rest);
    assert Placed(g, m', st'.path);
  }

  lemma StoredLinkAt(g: Geometry, m: Memory, one: bool, st: Strand, rest: seq<nat>, i: nat)
    requires |m.kind| == |m.chain| && OnStrand(g, m, one, st) && !st.Finished() && i < st.done + 1 + |rest|
    requires Placed(g, m, rest) && Apart(st.path[..st.done + 1], rest) && OldRun(g, m.chain, rest)
    requires rest != [] ==> m.Is(rest[0], one)
    ensures var st' := Strand(st.path[..st.done + 1] + rest, st.done + 1);
            Put(m, st.path[st.done], if rest != [] then Next(rest[0], g.NewShift())
                                     else End(g.HomeOf(one), g.NewShift())).chain[st'.path[i]]
            == LinkAt(g, one, st', i)
  {
    var n := st.done + 1;
    if i < n {
      assert m.chain[st.path[i]] == LinkAt(g, one, st, i);
    } else {
      assert m.chain[rest[i - n]] == OldLink(g, rest, i - n);
      assert rest[i - n] != st.path[..n][st.done];
    }
  }

  lemma PlacedTogether(g: Geometry, m: Memory, p: seq<nat>, q: seq<nat>)
    requires |m.kind| == |m.chain| && Placed(g, m, p) && Placed(g, m, q) && Apart(p, q)
    ensures Placed(g, m, p + q)
  {
  }

  lemma StrandTail(g: Geometry, m: Memory, one: bool, st: Strand, k: nat)
    requires |m.kind| == |m.chain| && OnStrand(g, m, one, st) && st.done <= k <= |st.path|
    ensures Placed(g, m, st.path[k..]) && OldRun(g, m.chain, st.path[k..])
  {
    forall i | 0 <= i < |st.path[k..]|
      ensures m.chain[st.path[k..][i]] == OldLink(g, st.path[k..], i)
    {
      assert m.chain[st.path[k + i]] == LinkAt(g, one, st, k + i);
    }
  }

  /** One link before the other frontier gets the new shift. */
  lemma PromoteShared(g: Geometry, m: Memory, first: bool, p: Strand, join: nat, q: Strand)
    requires |m.kind| == |m.chain| && SharedShape(g, m, first, p, join, q) && p.done + 1 < join
    ensures SharedShape(g, Put(m, p.path[p.done], Next(p.path[p.done + 1], g.NewShift())),
                        first, p.(done := p.done + 1), join, q)
  {
    var n := p.done + 1;
    assert p.path[..join][p.done] == p.path[p.done];
    StrandTail(g, m, first, p, n);
    assert p.path[..n] + p.path[n..] == p.path;
    StoreAtFrontier(g, m, first, p, p.path[n..]);
    StoreElsewhere(g, m, !first, q, p.path[p.done], Next(p.path[n], g.NewShift()));
  }

  /** One link of a chain that shares nothing any more gets the new shift. */
  lemma PromoteSeparate(g: Geometry, m: Memory, one: bool, p: Strand, q: Strand)
    requires |m.kind| == |m.chain| && SeparateShape(g, m, one, p, q) && p.done + 1 < |p.path|
    ensures SeparateShape(g, Put(m, p.path[p.done], Next(p.path[p.done + 1], g.NewShift())),
                          one, p.(done := p.done + 1), q)
  {
    var n := p.done + 1;
    StrandTail(g, m, one, p, n);
    assert p.path[..n] + p.path[n..] == p.path;
    StoreAtFrontier(g, m, one, p, p.path[n..]);
    StoreElsewhere(g, m, !one, q, p.path[p.done], Next(p.path[n], g.NewShift()));
  }

  /** The last old link becomes the end marker of its own chain. */
  lemma Finish(g: Geometry, m: Memory, one: bool, p: Strand, q: Strand)
    requires |m.kind| == |m.chain| && SeparateShape(g, m, one, p, q) && p.done + 1 == |p.path|
    ensures SeparateShape(g, Put(m, p.path[p.done], End(g.HomeOf(one), g.NewShift())),
                          one, p.(done := p.done + 1), q)
  {
    assert p.path[..p.done + 1] + [] == p.path;
    StoreAtFrontier(g, m, one, p, []);
    StoreElsewhere(g, m, !one, q, p.path[p.done], End(g.HomeOf(one), g.NewShift()));
  }

  /** The small step: the first chain skips the other's entries, and the other chain becomes first. */
  lemma Skip(g: Geometry, m: Memory, first: bool, p: Strand, join: nat, q: Strand, j: nat)
    requires |m.kind| == |m.chain| && SharedShape(g, m, first, p, join, q) && p.done + 1 == join
    requires q.done < j < |q.path| && m.Is(q.path[j], first)
    requires forall i :: 0 <= i < j ==> m.Is(q.path[i], !first)
    ensures SharedShape(g, Put(m, p.path[p.done], Next(q.path[j], g.NewShift())),
                        !first, q, j, Strand(p.path[..join] + q.path[j..], join))
  {
    assert p.path[..join][p.done] == p.path[p.done];
    StrandTail(g, m, !first, q, j);
    StoreAtFrontier(g, m, first, p, q.path[j..]);
    StoreElsewhere(g, m, !first, q, p.path[p.done], Next(q.path[j], g.NewShift()));
    assert (p.path[..join] + q.path[j..])[join..] == q.path[j..];
  }

  /** Nothing is left for the first chain: its frontier gets its end marker. */
  lemma Sever(g: Geometry, m: Memory, first: bool, p: Strand, join: nat, q: Strand)
    requires |m.kind| == |m.chain| && SharedShape(g, m, first, p, join, q) && p.done + 1 == join
    requires forall i :: 0 <= i < |q.path| ==> m.Is(q.path[i], !first)
    ensures SeparateShape(g, Put(m, p.path[p.done], End(g.HomeOf(first), g.NewShift())),
                          first, Strand(p.path[..join], join), q)
  {
    assert p.path[..join][p.done] == p.path[p.done];
    assert p.path[..join] + [] == p.path[..join];
    StoreAtFrontier(g, m, first, p, []);
    StoreElsewhere(g, m, !first, q, p.path[p.done], End(g.HomeOf(first), g.NewShift()));
  }

  /** The first head update: the other chain's first entry is at `k`, or nowhere if `k == |p|`. */
  lemma Publish(g: Geometry, m: Memory, p: seq<nat>, first: bool, k: nat, m': Memory)
    requires Shape(g, m, Unsplit(p)) && k <= |p|
    requires forall i :: 0 <= i < k ==> m.Is(p[i], first)
    requires k < |p| ==> k > 0 && m.Is(p[k], !first)
    requires m'.chain == m.chain && m'.kind == m.kind && m'.oldHead.Head? && m'.growHead.Head?
    requires m'.HeadOf(first).link == (if p == [] then End(g.HomeOf(first), g.NewShift())
                                       else Next(p[0], g.NewShift()))
    requires m'.HeadOf(!first).link == (if k == |p| then End(g.HomeOf(!first), g.NewShift())
                                        else Next(p[k], g.NewShift()))
    ensures if k < |p| then SharedShape(g, m', first, Strand(p, 0), k, Strand(p[k..], 0))
            else SeparateShape(g, m', first, Strand(p, 0), Strand([], 0))
  {
    FreshStrand(g, m', first, p);
    TailOfRun(g, m, p, k);
    FreshStrand(g, m', !first, p[k..]);
  }

  lemma TailOfRun(g: Geometry, m: Memory, p: seq<nat>, k: nat)
    requires |m.kind| == |m.chain| && Placed(g, m, p) && OldRun(g, m.chain, p) && k <= |p|
    ensures Placed(g, m, p[k..]) && OldRun(g, m.chain, p[k..])
  {
    forall i | 0 <= i < |p[k..]|
      ensures m.chain[p[k..][i]] == OldLink(g, p[k..], i)
    {
      assert m.chain[p[k + i]] == OldLink(g, p, k + i);
    }
  }

  lemma FreshStrand(g: Geometry, m: Memory, one: bool, p: seq<nat>)
    requires |m.kind| == |m.chain| && Placed(g, m, p) && OldRun(g, m.chain, p)
    requires m.HeadOf(one).Head?
    requires m.HeadOf(one).link == (if p == [] then End(g.HomeOf(one), g.NewShift())
                                    else Next(p[0], g.NewShift()))
    requires p != [] ==> m.Is(p[0], one)
    ensures OnStrand(g, m, one, Strand(p, 0))
  {
    forall i | 0 <= i < |p|
      ensures m.chain[p[i]] == LinkAt(g, one, Strand(p, 0), i)
    {
      assert m.chain[p[i]] == OldLink(g, p, i);
    }
  }

  // ---------------------------------------------------------------- insertions by other threads

  function Prepend(x: nat, st: Strand): Strand {
    Strand([x] + st.path, st.done + 1)
  }

  function KindFor(one: bool): Kind { if one then One else Zero }

  /** `DoInsert` put a new entry in slot `x` and moved the head of chain `one` to it. */
  function Inserted(m: Memory, one: bool, x: nat, kind: Kind, shift: nat): Memory
    requires x < |m.chain| == |m.kind| && m.HeadOf(one).Head?
  {
    var h := m.HeadOf(one);
    var h' := Head(Next(x, shift), h.link.Next? && h.locked);
    var m' := m.(chain := m.chain[x := h.link], kind := m.kind[x := kind]);
    if one then m'.(growHead := h') else m'.(oldHead := h')
  }

  lemma PlacedWithNew(g: Geometry, m: Memory, one: bool, p: seq<nat>, x: nat, kind: Kind, shift: nat)
    requires x < |m.chain| == |m.kind| && m.HeadOf(one).Head? && Placed(g, m, p) && x !in p
    requires !kind.Foreign?
    ensures Placed(g, Inserted(m, one, x, kind, shift), [x] + p)
  {
    var m', p' := Inserted(m, one, x, kind, shift), [x] + p;
    forall i, j | 0 <= i < j < |p'| ensures p'[i] != p'[j] {
      assert p'[j] == p[j - 1];
    }
    forall i | 0 <= i < |p'| ensures p'[i] < |m'.chain| && !m'.kind[p'[i]].Foreign? {
      if i > 0 { assert p'[i] == p[i - 1]; }
    }
  }

  lemma InsertOnStrand(g: Geometry, m: Memory, one: bool, st: Strand, x: nat)
    requires x < |m.chain| == |m.kind| && OnStrand(g, m, one, st) && x !in st.path
    ensures OnStrand(g, Inserted(m, one, x, KindFor(one), g.NewShift()), one, Prepend(x, st))
  {
    var m', st' := Inserted(m, one, x, KindFor(one), g.NewShift()), Prepend(x, st);
    PlacedWithNew(g, m, one, st.path, x, KindFor(one), g.NewShift());
    forall i | 0 <= i < |st'.path|
      ensures m'.chain[st'.path[i]] == LinkAt(g, one, st', i)
    {
      if i > 0 {
        assert m.chain[st.path[i - 1]] == LinkAt(g, one, st, i - 1);
        assert st'.path[i] == st.path[i - 1];
        if i < |st.path| { assert st'.path[i + 1] == st.path[i]; }
      }
    }
    forall i | 0 <= i < |st'.path| && i <= st'.done ensures m'.Is(st'.path[i], one) {
      if i > 0 { assert st'.path[i] == st.path[i - 1]; }
    }
  }

  lemma InsertElsewhere(g: Geometry, m: Memory, one: bool, st: Strand, x: nat)
    requires x < |m.chain| == |m.kind| && OnStrand(g, m, !one, st) && x !in st.path && m.HeadOf(one).Head?
    ensures OnStrand(g, Inserted(m, one, x, KindFor(one), g.NewShift()), !one, st)
  {
  }

  function AfterInsert(ph: Phase, one: bool, x: nat): (r: Phase)
    ensures r.Unsplit? <==> ph.Unsplit?
  {
    match ph
    case Unsplit(p) => Unsplit([x] + p)
    case Shared(_, _, first, join) =>
      if one == first then SharedOf(first, Prepend(x, ph.Of(first)), ph.Of(!first), join + 1)
      else SharedOf(first, ph.Of(first), Prepend(x, ph.Of(!first)), join)
    case Separate(_, _) => SeparateOf(one, Prepend(x, ph.Of(one)), ph.Of(!one))
  }

  lemma InsertUnsplit(g: Geometry, m: Memory, p: seq<nat>, x: nat, kind: Kind)
    requires Shape(g, m, Unsplit(p)) && x < |m.chain| && x !in p && !kind.Foreign?
    ensures Shape(g, Inserted(m, false, x, kind, g.shift), Unsplit([x] + p))
  {
    var m', p' := Inserted(m, false, x, kind, g.shift), [x] + p;
    PlacedWithNew(g, m, false, p, x, kind, g.shift);
    forall i | 0 <= i < |p'|
      ensures m'.chain[p'[i]] == OldLink(g, p', i)
    {
      if i > 0 {
        assert m.chain[p[i - 1]] == OldLink(g, p, i - 1);
        assert p'[i] == p[i - 1];
        if i < |p| { assert p'[i + 1] == p[i]; }
      }
    }
  }

  lemma InsertOnFirst(g: Geometry, m: Memory, first: bool, p: Strand, join: nat, q: Strand, x: nat)
    requires x < |m.chain| == |m.kind| && SharedShape(g, m, first, p, join, q) && x !in p.path && x !in q.path
    ensures SharedShape(g, Inserted(m, first, x, KindFor(first), g.NewShift()), first, Prepend(x, p), join + 1, q)
  {
    var m', p' := Inserted(m, first, x, KindFor(first), g.NewShift()), Prepend(x, p);
    InsertOnStrand(g, m, first, p, x);
    InsertElsewhere(g, m, first, q, x);
    assert p'.path[join + 1..] == p.path[join..];
    var own := p'.path[..join + 1];
    forall i | 0 <= i < |own| ensures own[i] !in q.path {
      if i > 0 { assert p'.path[i] == p.path[..join][i - 1]; }
    }
    forall i | 0 <= i < join + 1 ensures m'.Is(p'.path[i], first) {
      if i > 0 { assert p'.path[i] == p.path[i - 1]; }
    }
  }

  lemma InsertOnOther(g: Geometry, m: Memory, first: bool, p: Strand, join: nat, q: Strand, x: nat)
    requires x < |m.chain| == |m.kind| && SharedShape(g, m, first, p, join, q) && x !in p.path && x !in q.path
    ensures SharedShape(g, Inserted(m, !first, x, KindFor(!first), g.NewShift()), first, p, join, Prepend(x, q))
  {
    var q' := Prepend(x, q);
    InsertOnStrand(g, m, !first, q, x);
    InsertElsewhere(g, m, !first, p, x);
    assert q'.path[q'.done..] == q.path[q.done..];
    forall i, j | 0 <= i < join && 0 <= j < |q'.path| ensures p.path[..join][i] != q'.path[j] {
      assert p.path[..join][i] == p.path[i];
      if j > 0 { assert q'.path[j] == q.path[j - 1]; }
    }
  }

  lemma InsertSeparate(g: Geometry, m: Memory, one: bool, p: Strand, q: Strand, x: nat)
    requires x < |m.chain| == |m.kind| && SeparateShape(g, m, one, p, q) && x !in p.path && x !in q.path
    ensures SeparateShape(g, Inserted(m, one, x, KindFor(one), g.NewShift()), one, Prepend(x, p), q)
  {
    var m', p' := Inserted(m, one, x, KindFor(one), g.NewShift()), Prepend(x, p);
    InsertOnStrand(g, m, one, p, x);
    InsertElsewhere(g, m, one, q, x);
    forall i | 0 <= i < |p'.path| ensures m'.Is(p'.path[i], one) && p'.path[i] !in q.path {
      if i > 0 { assert p'.path[i] == p.path[i - 1]; }
    }
  }

  /** Insertions, by any thread and in any phase, keep the shape. */
  lemma InsertKeepsShape(g: Geometry, m: Memory, ph: Phase, one: bool, x: nat, kind: Kind)
    requires Shape(g, m, ph) && x < |m.chain| && !ph.Has(x) && !kind.Foreign?
    requires if ph.Unsplit? then !one else kind == KindFor(one)
    ensures m.HeadOf(one).Head? && m.HeadOf(one).link.shift == if ph.Unsplit? then g.shift else g.NewShift()
    ensures Shape(g, Inserted(m, one, x, kind, m.HeadOf(one).link.shift), AfterInsert(ph, one, x))
  {
    match ph
    case Unsplit(p) => InsertUnsplit(g, m, p, x, kind);
    case Shared(_, _, _, _) => InsertKeepsShared(g, m, ph, one, x);
    case Separate(_, _) => InsertKeepsSeparate(g, m, ph, one, x);
  }

  lemma InsertKeepsShared(g: Geometry, m: Memory, ph: Phase, one: bool, x: nat)
    requires Shape(g, m, ph) && ph.Shared? && x < |m.chain| && !ph.Has(x)
    ensures Shape(g, Inserted(m, one, x, KindFor(one), g.NewShift()), AfterInsert(ph, one, x))
  {
    var p, q := ph.Of(ph.first), ph.Of(!ph.first);
    assert x !in p.path && x !in q.path;
    if one == ph.first { InsertOnFirst(g, m, ph.first, p, ph.join, q, x); }
    else { InsertOnOther(g, m, ph.first, p, ph.join, q, x); }
  }

  lemma InsertKeepsSeparate(g: Geometry, m: Memory, ph: Phase, one: bool, x: nat)
    requires Shape(g, m, ph) && ph.Separate? && x < |m.chain| && !ph.Has(x)
    ensures Shape(g, Inserted(m, one, x, KindFor(one), g.NewShift()), AfterInsert(ph, one, x))
  {
    var p, q := ph.Of(one), ph.Of(!one);
    assert x !in p.path && x !in q.path;
    SeparateEitherWay(g, m, one, p, q);
    InsertSeparate(g, m, one, p, q, x);
    SeparateEitherWay(g, Inserted(m, one, x, KindFor(one), g.NewShift()), one, Prepend(x, p), q);
  }

  lemma SeparateEitherWay(g: Geometry, m: Memory, one: bool, p: Strand, q: Strand)
    requires |m.chain| == |m.kind|
    ensures SeparateShape(g, m, one, p, q) <==> SeparateShape(g, m, !one, q, p)
  {
  }

  // ---------------------------------------------------------------- how moments follow each other

  /** The memory at one moment and the phase it is in. */
  datatype Moment = Moment(mem: Memory, phase: Phase)

  ghost predicate Before(p: seq<nat>, x: nat, y: nat) {
    exists i, j :: 0 <= i < j < |p| && p[i] == x && p[j] == y
  }

  /** Entries of the same target chain never change their order on it. */
  ghost predicate KeepsOrder(m: Memory, one: bool, p: seq<nat>, p': seq<nat>) {
    forall x, y :: Before(p, x, y) && m.Is(x, one) && m.Is(y, one) ==> Before(p', x, y)
  }

  /**
   What one store, of the splitter or of an inserter, may do: no entry is dropped, links only
   change to the new shift, the split is not undone, and the order on each target chain is kept.
   */
  ghost predicate Evolves(g: Geometry, a: Moment, b: Moment)
  {
    && Shape(g, a.mem, a.phase) && Shape(g, b.mem, b.phase)
    && Follows(g, a, b)
  }

  ghost predicate Follows(g: Geometry, a: Moment, b: Moment)
  {
    && (forall s: nat :: a.phase.Has(s) ==> b.phase.Has(s))
    && (forall s: nat :: a.phase.Has(s) ==>
          && s < |a.mem.kind| && s < |b.mem.kind| && b.mem.kind[s] == a.mem.kind[s]
          && s < |a.mem.chain| && s < |b.mem.chain|
          && (b.mem.chain[s] == a.mem.chain[s] || b.mem.chain[s].shift == g.NewShift()))
    && (!a.phase.Unsplit? ==>
          && !b.phase.Unsplit?
          && KeepsOrder(a.mem, false, a.phase.zero.path, b.phase.zero.path)
          && KeepsOrder(a.mem, true, a.phase.one.path, b.phase.one.path))
  }

  /** Replacing a rest that holds nothing of this chain keeps the order on it. */
  lemma CutKeepsOrder(m: Memory, one: bool, p: seq<nat>, n: nat, k: nat)
    requires n <= k <= |p|
    requires forall i :: n <= i < k ==> !m.Is(p[i], one)
    ensures KeepsOrder(m, one, p, p[..n] + p[k..])
  {
    var p' := p[..n] + p[k..];
    forall x, y | Before(p, x, y) && m.Is(x, one) && m.Is(y, one)
      ensures Before(p', x, y)
    {
      var i, j :| 0 <= i < j < |p| && p[i] == x && p[j] == y;
      var i', j' := if i < n then i else i - k + n, if j < n then j else j - k + n;
      assert p'[i'] == x && p'[j'] == y;
    }
  }

  lemma PrependKeepsOrder(m: Memory, one: bool, p: seq<nat>, x: nat)
    ensures KeepsOrder(m, one, p, [x] + p)
  {
    forall y, z | Before(p, y, z) ensures Before([x] + p, y, z) {
      var i, j :| 0 <= i < j < |p| && p[i] == y && p[j] == z;
      assert ([x] + p)[i + 1] == y && ([x] + p)[j + 1] == z;
    }
  }

  ghost predicate InRange(m: Memory, ph: Phase) {
    |m.chain| == |m.kind| && forall s: nat :: ph.Has(s) ==> s < |m.chain|
  }

  lemma ShapeInRange(g: Geometry, m: Memory, ph: Phase)
    requires Shape(g, m, ph)
    ensures InRange(m, ph)
  {
  }

  lemma SamePathsFollow(g: Geometry, m: Memory, ph: Phase, slot: nat, l: Link, ph': Phase)
    requires InRange(m, ph) && slot < |m.chain| && l.shift == g.NewShift() && !ph.Unsplit? && !ph'.Unsplit?
    requires ph.zero.path == ph'.zero.path && ph.one.path == ph'.one.path
    ensures Follows(g, Moment(m, ph), Moment(Put(m, slot, l), ph'))
  {
  }

  function With(ph: Phase, one: bool, p: Strand): Phase
    requires !ph.Unsplit?
  {
    if ph.Shared? then SharedOf(one, p, ph.Of(!one), ph.join) else SeparateOf(one, p, ph.Of(!one))
  }

  /** `FetchAdd(1)` on the link at the frontier, as in `UpgradeShiftsOnRange`. */
  lemma PromoteStep(g: Geometry, m: Memory, ph: Phase, one: bool)
    requires Shape(g, m, ph) && !ph.Unsplit? && ph.Of(one).done + 1 < |ph.Of(one).path|
    requires ph.Shared? ==> one == ph.first && ph.Of(one).done + 1 < ph.join
    ensures var p := ph.Of(one);
            Evolves(g, Moment(m, ph), Moment(Put(m, p.path[p.done], Next(p.path[p.done + 1], g.NewShift())),
                                             With(ph, one, p.(done := p.done + 1))))
  {
    var p, q := ph.Of(one), ph.Of(!one);
    var m' := Put(m, p.path[p.done], Next(p.path[p.done + 1], g.NewShift()));
    if ph.Shared? {
      PromoteShared(g, m, one, p, ph.join, q);
    } else {
      SeparateEitherWay(g, m, one, p, q);
      PromoteSeparate(g, m, one, p, q);
      SeparateEitherWay(g, m', one, p.(done := p.done + 1), q);
    }
    ShapeInRange(g, m, ph);
    SamePathsFollow(g, m, ph, p.path[p.done], Next(p.path[p.done + 1], g.NewShift()),
                    With(ph, one, p.(done := p.done + 1)));
  }

  /** The new end marker, as at the end of `UpgradeShiftsOnRange`. */
  lemma FinishStep(g: Geometry, m: Memory, ph: Phase, one: bool)
    requires Shape(g, m, ph) && ph.Separate? && ph.Of(one).done + 1 == |ph.Of(one).path|
    ensures var p := ph.Of(one);
            Evolves(g, Moment(m, ph), Moment(Put(m, p.path[p.done], End(g.HomeOf(one), g.NewShift())),
                                             With(ph, one, p.(done := p.done + 1))))
  {
    var p, q := ph.Of(one), ph.Of(!one);
    var m' := Put(m, p.path[p.done], End(g.HomeOf(one), g.NewShift()));
    SeparateEitherWay(g, m, one, p, q);
    Finish(g, m, one, p, q);
    SeparateEitherWay(g, m', one, p.(done := p.done + 1), q);
    ShapeInRange(g, m, ph);
    SamePathsFollow(g, m, ph, p.path[p.done], End(g.HomeOf(one), g.NewShift()), With(ph, one, p.(done := p.done + 1)));
  }

  function Skipped(ph: Phase, j: nat): Phase
    requires ph.Shared? && j <= |ph.Of(!ph.first).path| && ph.join <= |ph.Of(ph.first).path|
  {
    SharedOf(!ph.first, ph.Of(!ph.first),
             Strand(ph.Of(ph.first).path[..ph.join] + ph.Of(!ph.first).path[j..], ph.join), j)
  }

  lemma SkipStep(g: Geometry, m: Memory, ph: Phase, j: nat)
    requires Shape(g, m, ph) && ph.Shared? && ph.Of(ph.first).done + 1 == ph.join
    requires var q := ph.Of(!ph.first);
             && q.done < j < |q.path| && m.Is(q.path[j], ph.first)
             && forall i :: 0 <= i < j ==> m.Is(q.path[i], !ph.first)
    ensures var p := ph.Of(ph.first);
            Evolves(g, Moment(m, ph), Moment(Put(m, p.path[p.done], Next(ph.Of(!ph.first).path[j], g.NewShift())),
                                             Skipped(ph, j)))
  {
    var p, q := ph.Of(ph.first), ph.Of(!ph.first);
    Skip(g, m, ph.first, p, ph.join, q, j);
    CutFollows(g, m, ph, j, Next(q.path[j], g.NewShift()), Skipped(ph, j));
  }

  /** The first strand loses the other's entries from its join up to index `j` of the other. */
  lemma CutFollows(g: Geometry, m: Memory, ph: Phase, j: nat, l: Link, ph': Phase)
    requires Shape(g, m, ph) && ph.Shared? && l.shift == g.NewShift()
    requires var q := ph.Of(!ph.first);
             && q.done <= j <= |q.path|
             && forall i :: 0 <= i < j ==> m.Is(q.path[i], !ph.first)
    requires !ph'.Unsplit? && ph'.Of(!ph.first).path == ph.Of(!ph.first).path
    requires ph'.Of(ph.first).path == ph.Of(ph.first).path[..ph.join] + ph.Of(!ph.first).path[j..]
    ensures var p := ph.Of(ph.first);
            Follows(g, Moment(m, ph), Moment(Put(m, p.path[p.done], l), ph'))
  {
    var p, q := ph.Of(ph.first), ph.Of(!ph.first);
    ShapeInRange(g, m, ph);
    CutRest(m, ph.first, p.path, ph.join, q.path, q.done, j);
  }

  lemma CutRest(m: Memory, first: bool, p: seq<nat>, join: nat, q: seq<nat>, done: nat, j: nat)
    requires join <= |p| && done <= j <= |q| && p[join..] == q[done..]
    requires forall i :: 0 <= i < j ==> m.Is(q[i], !first)
    ensures KeepsOrder(m, first, p, p[..join] + q[j..])
    ensures forall s :: s in p ==> s in p[..join] + q[j..] || s in q
  {
    var k := join + j - done;
    assert p[k..] == p[join..][j - done..] == q[done..][j - done..] == q[j..];
    forall i | join <= i < k ensures p[i] == q[i - join + done] {
      assert p[i] == p[join..][i - join];
    }
    CutKeepsOrder(m, first, p, join, k);
    forall s | s in p ensures s in p[..join] + q[j..] || s in q {
      var i :| 0 <= i < |p| && p[i] == s;
      if i < join { assert p[..join][i] == s; }
      else { assert p[join..][i - join] == s; }
    }
  }

  function Severed(ph: Phase): Phase
    requires ph.Shared? && ph.join <= |ph.Of(ph.first).path|
  {
    SeparateOf(ph.first, Strand(ph.Of(ph.first).path[..ph.join], ph.join), ph.Of(!ph.first))
  }

  lemma SeverStep(g: Geometry, m: Memory, ph: Phase)
    requires Shape(g, m, ph) && ph.Shared? && ph.Of(ph.first).done + 1 == ph.join
    requires var q := ph.Of(!ph.first);
             forall i :: 0 <= i < |q.path| ==> m.Is(q.path[i], !ph.first)
    ensures var p := ph.Of(ph.first);
            Evolves(g, Moment(m, ph), Moment(Put(m, p.path[p.done], End(g.HomeOf(ph.first), g.NewShift())),
                                             Severed(ph)))
  {
    var p, q := ph.Of(ph.first), ph.Of(!ph.first);
    var m' := Put(m, p.path[p.done], End(g.HomeOf(ph.first), g.NewShift()));
    Sever(g, m, ph.first, p, ph.join, q);
    SeparateEitherWay(g, m', ph.first, Strand(p.path[..ph.join], ph.join), q);
    CutFollows(g, m, ph, |q.path|, End(g.HomeOf(ph.first), g.NewShift()), Severed(ph));
  }

  function Published(first: bool, p: seq<nat>, k: nat): Phase
    requires k <= |p|
  {
    if k < |p| then SharedOf(first, Strand(p, 0), Strand(p[k..], 0), k)
    else SeparateOf(first, Strand(p, 0), Strand([], 0))
  }

  lemma PublishStep(g: Geometry, m: Memory, p: seq<nat>, first: bool, k: nat, m': Memory)
    requires Shape(g, m, Unsplit(p)) && k <= |p|
    requires forall i :: 0 <= i < k ==> m.Is(p[i], first)
    requires k < |p| ==> k > 0 && m.Is(p[k], !first)
    requires m'.chain == m.chain && m'.kind == m.kind && m'.oldHead.Head? && m'.growHead.Head?
    requires m'.HeadOf(first).link == (if p == [] then End(g.HomeOf(first), g.NewShift())
                                       else Next(p[0], g.NewShift()))
    requires m'.HeadOf(!first).link == (if k == |p| then End(g.HomeOf(!first), g.NewShift())
                                        else Next(p[k], g.NewShift()))
    ensures Evolves(g, Moment(m, Unsplit(p)), Moment(m', Published(first, p, k)))
  {
    Publish(g, m, p, first, k, m');
    SeparateEitherWay(g, m', first, Strand(p, 0), Strand([], 0));
  }

  lemma InsertStep(g: Geometry, m: Memory, ph: Phase, one: bool, x: nat, kind: Kind)
    requires Shape(g, m, ph) && x < |m.chain| && !ph.Has(x) && !kind.Foreign?
    requires if ph.Unsplit? then !one else kind == KindFor(one)
    ensures m.HeadOf(one).Head?
    ensures Evolves(g, Moment(m, ph),
                    Moment(Inserted(m, one, x, kind, m.HeadOf(one).link.shift), AfterInsert(ph, one, x)))
  {
    InsertKeepsShape(g, m, ph, one, x, kind);
    InsertFollows(g, m, ph, one, x, kind, m.HeadOf(one).link.shift);
  }

  lemma InsertFollows(g: Geometry, m: Memory, ph: Phase, one: bool, x: nat, kind: Kind, shift: nat)
    requires Shape(g, m, ph) && x < |m.chain| && !ph.Has(x) && m.HeadOf(one).Head?
    ensures Follows(g, Moment(m, ph), Moment(Inserted(m, one, x, kind, shift), AfterInsert(ph, one, x)))
  {
    if !ph.Unsplit? { PrependKeepsOrder(m, one, ph.Of(one).path, x); }
  }
}
