/**
 The careful part of `AutoHyperClockTable::Lookup` (cache/clock_cache.cc) walking a chain while it
 is being split. The walk and the stores of the splitter and of inserters interleave in any way.

 Lookup is meant never to skip a live entry. One kind of round can make it do so, and no other: a
 step from an entry of the other target chain, over a link that already has the new shift, onto an
 entry that is under construction and whose old links no longer lead to the entry looked for. An
 entry under construction gives no home to check, and behind it the walk runs along the shared rest
 of the chain to an end marker that it takes for its own.
 */
module ChainLookup {
  import opened Bits
  import opened ChainSplit
  import opened Options

  /**
   Where a walk stands: `at` is the entry whose chain pointer is read next (None: the head), `ref`
   the last entry on which it holds a read reference, and `newShift` whether it works with the
   shift after the split.
   */
  datatype Walker = Walker(newShift: bool, at: Option<nat>, ref: Option<nat>)

  datatype Outcome = Continue(w: Walker) | Found | Absent

  predicate Standing(m: Memory, one: bool, w: Walker) {
    match w.at
    case None => m.HeadOf(w.newShift && one).Head?
    case Some(x) => x < |m.chain|
  }

  function LinkRead(m: Memory, one: bool, w: Walker): Link
    requires Standing(m, one, w)
  {
    match w.at
    case None => m.HeadOf(w.newShift && one).link
    case Some(x) => m.chain[x]
  }

  /** Whether the home of an entry is the one that applies to this walk at the given shift. */
  predicate HomeMatches(g: Geometry, one: bool, shift: nat, kind: Kind) {
    if shift == g.shift then !kind.Foreign? else kind == KindFor(one)
  }

  /**
   One round of the loop: the link is read, checked against the shift and home in use, and
   followed. `shareable` says of each slot whether its entry can be referenced, `hits` are the
   slots with a visible entry for the key, whose new hash bit is `one`.
   */
  function Round(g: Geometry, m: Memory, one: bool, w: Walker, shareable: seq<bool>, hits: set<nat>): Outcome
    requires Standing(m, one, w) && |shareable| == |m.kind|
    requires LinkRead(m, one, w).Next? ==> LinkRead(m, one, w).slot < |m.kind|
  {
    var l := LinkRead(m, one, w);
    var homeShift := if w.newShift then g.NewShift() else g.shift;
    var home := g.HomeOf(w.newShift && one);
    var effectiveHome := if l.shift < homeShift then g.oldHome else home;
    if l.shift > homeShift then
      if w.at == w.ref then Continue(Walker(true, None, None))    // the newer shift applies to us
      else Continue(w.(at := w.ref))
    else if l.End? then
      if l.home == effectiveHome then Absent else Continue(w.(at := w.ref))
    else if !shareable[l.slot] then
      Continue(w.(at := Some(l.slot)))
    else if l.slot in hits then
      Found
    else if !HomeMatches(g, one, l.shift, m.kind[l.slot]) then
      Continue(w.(at := w.ref))
    else if l.shift != homeShift && m.kind[l.slot] != KindFor(one) then
      Continue(w.(at := Some(l.slot)))                            // wrong chain: not worth keeping
    else
      Continue(w.(at := Some(l.slot), ref := Some(l.slot)))
  }

  // ---------------------------------------------------------------- what a walk can rely on

  /** The old links from `x` lead to `e`. */
  ghost predicate OldAhead(g: Geometry, mo: Moment, x: nat, e: nat) {
    exists p: seq<nat> :: OldPath(g, mo, x, p) && e in p
  }

  ghost predicate OldPath(g: Geometry, mo: Moment, x: nat, p: seq<nat>) {
    OldRun(g, mo.mem.chain, [x] + p) && forall i :: 0 <= i < |p| ==> mo.phase.Has(p[i])
  }

  /** If the walk goes on from `x` over an old link, `e` is ahead of it. */
  ghost predicate AheadIfOld(g: Geometry, mo: Moment, x: nat, e: nat) {
    && mo.phase.Has(x) && x < |mo.mem.chain|
    && (mo.mem.chain[x].shift == g.shift ==> OldAhead(g, mo, x, e))
  }

  /** `x` is on the chain of `e`, before it. */
  ghost predicate OnChainBefore(mo: Moment, one: bool, x: nat, e: nat) {
    !mo.phase.Unsplit? && mo.mem.Is(x, one) && Before(mo.phase.Of(one).path, x, e)
  }

  /** The walk has not passed `e`, or will notice that it left the chain. */
  ghost predicate NotPassed(g: Geometry, mo: Moment, one: bool, w: Walker, e: nat) {
    && mo.phase.Has(e) && mo.mem.Is(e, one)
    && (w.at.None? ==> w.ref.None?)
    && if !w.newShift then
         && (w.at.Some? ==> AheadIfOld(g, mo, w.at.value, e))
         && (w.ref.Some? ==> AheadIfOld(g, mo, w.ref.value, e))
       else
         && !mo.phase.Unsplit?
         && (w.at.Some? ==> OnChainBefore(mo, one, w.at.value, e)
                            || (!mo.mem.Is(w.at.value, one) && AheadIfOld(g, mo, w.at.value, e)))
         && (w.ref.Some? ==> OnChainBefore(mo, one, w.ref.value, e))
  }

  /** A step from the other chain, over a new link, onto an unreadable entry. */
  predicate Blind(g: Geometry, m: Memory, one: bool, w: Walker, shareable: seq<bool>) {
    && w.newShift && w.at.Some? && w.at.value < |m.chain| && !m.Is(w.at.value, one)
    && var l := m.chain[w.at.value];
       l.Next? && l.shift == g.NewShift() && l.slot < |shareable| && !shareable[l.slot]
  }

  /** The step that goes wrong: the entry it gets to has an old link, and `e` is not ahead of it. */
  ghost predicate Loses(g: Geometry, mo: Moment, one: bool, w: Walker, shareable: seq<bool>, e: nat) {
    && Blind(g, mo.mem, one, w, shareable)
    && var y := mo.mem.chain[w.at.value].slot;
       y < |mo.mem.chain| && mo.mem.chain[y].shift == g.shift && !OldAhead(g, mo, y, e)
  }

  // ---------------------------------------------------------------- paths of old links

  /** Old links determine the path. */
  lemma {:induction false} SamePath(g: Geometry, c: seq<Link>, c': seq<Link>, u: seq<nat>, v: seq<nat>, k: nat)
    requires OldRun(g, c, u) && OldRun(g, c', v) && u != [] && v != [] && u[0] == v[0]
    requires forall i :: 0 <= i < |u| ==> u[i] < |c'| && (c'[u[i]].shift == g.shift ==> c'[u[i]] == c[u[i]])
    requires k < |u|
    ensures k < |v| && u[k] == v[k] && (k + 1 < |u| <==> k + 1 < |v|)
  {
    if k > 0 { SamePath(g, c, c', u, v, k - 1); }
    assert c[u[k]] == OldLink(g, u, k);
    assert c'[v[k]] == OldLink(g, v, k);
    if k > 0 {
      assert c[u[k - 1]] == OldLink(g, u, k - 1);
      assert c'[v[k - 1]] == OldLink(g, v, k - 1);
    }
  }

  lemma SamePaths(g: Geometry, c: seq<Link>, c': seq<Link>, u: seq<nat>, v: seq<nat>)
    requires OldRun(g, c, u) && OldRun(g, c', v) && u != [] && v != [] && u[0] == v[0]
    requires forall i :: 0 <= i < |u| ==> u[i] < |c'| && (c'[u[i]].shift == g.shift ==> c'[u[i]] == c[u[i]])
    ensures u == v
  {
    SamePath(g, c, c', u, v, |u| - 1);
    forall k | 0 <= k < |u| ensures u[k] == v[k] { SamePath(g, c, c', u, v, k); }
  }

  lemma BothStrands(g: Geometry, m: Memory, ph: Phase, one: bool)
    requires Shape(g, m, ph) && !ph.Unsplit?
    ensures |m.kind| == |m.chain| && OnStrand(g, m, one, ph.Of(one))
  {
  }

  /** From an entry with an old link, the old links lead along a strand. */
  lemma OldPathFrom(g: Geometry, mo: Moment, x: nat) returns (p: seq<nat>)
    requires Shape(g, mo.mem, mo.phase) && mo.phase.Has(x) && x < |mo.mem.chain| && mo.mem.chain[x].shift == g.shift
    ensures OldPath(g, mo, x, p)
  {
    if mo.phase.Unsplit? {
      p := OldPathUnsplit(g, mo, x);
    } else {
      hide Shape;
      p := OldPathSplit(g, mo, x in mo.phase.one.path, x);
    }
  }

  lemma OldPathUnsplit(g: Geometry, mo: Moment, x: nat) returns (p: seq<nat>)
    requires Shape(g, mo.mem, mo.phase) && mo.phase.Unsplit? && x in mo.phase.path
    ensures OldPath(g, mo, x, p)
  {
    var path := mo.phase.path;
    var i :| 0 <= i < |path| && path[i] == x;
    TailOfRun(g, mo.mem, path, i);
    p := path[i + 1..];
    assert path[i..] == [x] + p;
  }

  lemma OldPathSplit(g: Geometry, mo: Moment, one: bool, x: nat) returns (p: seq<nat>)
    requires Shape(g, mo.mem, mo.phase) && !mo.phase.Unsplit? && x in mo.phase.Of(one).path
    requires x < |mo.mem.chain| && mo.mem.chain[x].shift == g.shift
    ensures OldPath(g, mo, x, p)
  {
    BothStrands(g, mo.mem, mo.phase, one);
    hide Shape;
    var st := mo.phase.Of(one);
    var i :| 0 <= i < |st.path| && st.path[i] == x;
    p := OldPathOnStrand(g, mo.mem, one, st, i);
    hide OnStrand;
    assert forall k :: 0 <= k < |p| ==> p[k] in st.path;
  }

  lemma OldPathOnStrand(g: Geometry, m: Memory, one: bool, st: Strand, i: nat) returns (p: seq<nat>)
    requires |m.kind| == |m.chain| && OnStrand(g, m, one, st) && i < |st.path| && m.chain[st.path[i]].shift == g.shift
    ensures OldRun(g, m.chain, [st.path[i]] + p) && p == st.path[i + 1..]
  {
    assert m.chain[st.path[i]] == LinkAt(g, one, st, i);
    StrandTail(g, m, one, st, i);
    p := st.path[i + 1..];
    assert st.path[i..] == [st.path[i]] + p;
  }

  /** On its own strand, an entry that old links lead to comes later. */
  lemma OldAheadIsBefore(g: Geometry, mo: Moment, one: bool, x: nat, e: nat)
    requires Shape(g, mo.mem, mo.phase) && !mo.phase.Unsplit? && mo.phase.Has(x) && mo.mem.Is(x, one)
    requires OldAhead(g, mo, x, e)
    ensures OnChainBefore(mo, one, x, e)
  {
    var p :| OldPath(g, mo, x, p) && e in p;
    MemberIsOnItsStrand(g, mo.mem, mo.phase, x);
    var i :| 0 <= i < |mo.phase.Of(one).path| && mo.phase.Of(one).path[i] == x;
    hide Shape;
    OldPathIsTail(g, mo, one, i, p);
    hide OldRun;
    var k :| 0 <= k < |p| && p[k] == e;
    assert mo.phase.Of(one).path[i + 1 + k] == mo.phase.Of(one).path[i..][k + 1] == ([x] + p)[k + 1];
  }

  /** A path of old links from an entry of a strand is the rest of the strand. */
  lemma OldPathIsTail(g: Geometry, mo: Moment, one: bool, i: nat, p: seq<nat>)
    requires Shape(g, mo.mem, mo.phase) && !mo.phase.Unsplit? && i < |mo.phase.Of(one).path|
    requires OldPath(g, mo, mo.phase.Of(one).path[i], p)
    ensures mo.phase.Of(one).path[i..] == [mo.phase.Of(one).path[i]] + p
  {
    var m, st := mo.mem, mo.phase.Of(one);
    var x := st.path[i];
    BothStrands(g, m, mo.phase, one);
    hide Shape;
    assert m.chain[st.path[i]] == LinkAt(g, one, st, i);
    assert m.chain[x] == OldLink(g, [x] + p, 0);
    StrandTail(g, m, one, st, i);
    hide OnStrand;
    SamePaths(g, m.chain, m.chain, [x] + p, st.path[i..]);
  }

  // ---------------------------------------------------------------- stores by other threads

  /** No store makes a walk pass the entry. */
  lemma StoreKeepsNotPassed(g: Geometry, a: Moment, b: Moment, one: bool, w: Walker, e: nat)
    requires Evolves(g, a, b) && NotPassed(g, a, one, w, e)
    ensures NotPassed(g, b, one, w, e)
  {
    if w.at.Some? { PositionKept(g, a, b, one, w.newShift, w.at.value, e); }
    if w.ref.Some? { PositionKept(g, a, b, one, w.newShift, w.ref.value, e); }
  }

  lemma PositionKept(g: Geometry, a: Moment, b: Moment, one: bool, newShift: bool, x: nat, e: nat)
    requires Evolves(g, a, b) && a.phase.Has(e) && a.mem.Is(e, one)
    ensures AheadIfOld(g, a, x, e) ==> AheadIfOld(g, b, x, e)
    ensures OnChainBefore(a, one, x, e) ==> OnChainBefore(b, one, x, e)
  {
    if AheadIfOld(g, a, x, e) { AheadKept(g, a, b, x, e); }
    if OnChainBefore(a, one, x, e) { OrderKept(g, a, b, one, x, e); }
  }

  lemma OrderKept(g: Geometry, a: Moment, b: Moment, one: bool, x: nat, e: nat)
    requires Evolves(g, a, b) && a.phase.Has(e) && a.mem.Is(e, one) && OnChainBefore(a, one, x, e)
    ensures OnChainBefore(b, one, x, e)
  {
    hide Shape;
    var i :| 0 <= i < |a.phase.Of(one).path| && a.phase.Of(one).path[i] == x;
    assert a.phase.Has(x);
    assert KeepsOrder(a.mem, one, a.phase.Of(one).path, b.phase.Of(one).path);
  }

  lemma AheadKept(g: Geometry, a: Moment, b: Moment, x: nat, e: nat)
    requires Evolves(g, a, b) && AheadIfOld(g, a, x, e)
    ensures AheadIfOld(g, b, x, e)
  {
    hide Shape;
    if b.mem.chain[x].shift == g.shift {
      assert b.mem.chain[x] == a.mem.chain[x];
      var p :| OldPath(g, a, x, p) && e in p;
      var q := OldPathFrom(g, b, x);
      SamePaths(g, a.mem.chain, b.mem.chain, [x] + p, [x] + q);
      assert p == ([x] + p)[1..] == ([x] + q)[1..] == q;
    }
  }

  // ---------------------------------------------------------------- rounds of the walk

  /** Over an old link the walk gets one entry further on the path of old links. */
  lemma FollowOld(g: Geometry, mo: Moment, x: nat, e: nat)
    requires Shape(g, mo.mem, mo.phase) && AheadIfOld(g, mo, x, e) && mo.mem.chain[x].shift == g.shift
    ensures var l := mo.mem.chain[x];
            && l.Next? && mo.phase.Has(l.slot) && l.slot < |mo.mem.kind| == |mo.mem.chain|
            && !mo.mem.kind[l.slot].Foreign?
            && (l.slot != e ==> OldAhead(g, mo, l.slot, e))
  {
    var p :| OldPath(g, mo, x, p) && e in p;
    assert mo.mem.chain[x] == OldLink(g, [x] + p, 0);
    MembersBelong(g, mo.mem, mo.phase, p[0]);
    hide Shape;
    if p[0] != e {
      OldPathShorter(g, mo, x, p);
    }
    hide OldRun;
  }

  lemma OldPathShorter(g: Geometry, mo: Moment, x: nat, p: seq<nat>)
    requires OldPath(g, mo, x, p) && p != []
    ensures OldPath(g, mo, p[0], p[1..])
  {
    var whole := [x] + p;
    forall i | 0 <= i < |p|
      ensures p[i] < |mo.mem.chain| && mo.mem.chain[p[i]] == OldLink(g, p, i)
    {
      assert p[i] == whole[i + 1];
      assert mo.mem.chain[([x] + p)[i + 1]] == OldLink(g, [x] + p, i + 1);
    }
    assert [p[0]] + p[1..] == p;
  }

  lemma MembersBelong(g: Geometry, m: Memory, ph: Phase, s: nat)
    requires Shape(g, m, ph) && ph.Has(s)
    ensures s < |m.kind| == |m.chain| && !m.kind[s].Foreign?
  {
  }

  /** What a walk reads on the chain of `e`, before `e`. */
  lemma FollowChain(g: Geometry, mo: Moment, one: bool, x: nat, e: nat)
    requires Shape(g, mo.mem, mo.phase) && OnChainBefore(mo, one, x, e) && mo.mem.Is(e, one)
    ensures x < |mo.mem.chain| && |mo.mem.kind| == |mo.mem.chain|
    ensures var l := mo.mem.chain[x];
            && l.Next? && mo.phase.Has(l.slot) && l.slot < |mo.mem.kind| && !mo.mem.kind[l.slot].Foreign?
            && (l.shift == g.shift || l.shift == g.NewShift())
            && (l.shift == g.NewShift() ==> mo.mem.Is(l.slot, one))
            && (l.slot != e && mo.mem.Is(l.slot, one) ==> OnChainBefore(mo, one, l.slot, e))
            && (l.slot != e && !mo.mem.Is(l.slot, one) ==> AheadIfOld(g, mo, l.slot, e))
  {
    hide Shape;
    var m, ph := mo.mem, mo.phase;
    var st := ph.Of(one);
    BothStrands(g, m, ph, one);
    var i, j :| 0 <= i < j < |st.path| && st.path[i] == x && st.path[j] == e;
    assert m.chain[st.path[i]] == LinkAt(g, one, st, i);
    var y := st.path[i + 1];
    MembersBelong(g, m, ph, y);
    if y != e && m.chain[y].shift == g.shift {
      StrandLeadsTo(g, mo, one, i + 1, j);
    }
    hide OldAhead, OnStrand;
  }

  /** Over old links, an entry of a strand leads to every later one. */
  lemma StrandLeadsTo(g: Geometry, mo: Moment, one: bool, i: nat, j: nat)
    requires Shape(g, mo.mem, mo.phase) && !mo.phase.Unsplit? && i < j < |mo.phase.Of(one).path|
    requires mo.phase.Of(one).path[i] < |mo.mem.chain| && mo.mem.chain[mo.phase.Of(one).path[i]].shift == g.shift
    ensures OldAhead(g, mo, mo.phase.Of(one).path[i], mo.phase.Of(one).path[j])
  {
    BothStrands(g, mo.mem, mo.phase, one);
    hide Shape;
    var st := mo.phase.Of(one);
    var p := OldPathOnStrand(g, mo.mem, one, st, i);
    hide OnStrand;
    assert st.path[j] == p[j - i - 1];
    assert forall k :: 0 <= k < |p| ==> p[k] in st.path;
    assert OldPath(g, mo, st.path[i], p);
  }

  /** A new link on the other chain leads to an entry or to the end marker of that chain. */
  lemma FollowOther(g: Geometry, mo: Moment, one: bool, x: nat)
    requires Shape(g, mo.mem, mo.phase) && !mo.phase.Unsplit? && mo.phase.Has(x) && !mo.mem.Is(x, one)
    ensures x < |mo.mem.chain| && |mo.mem.kind| == |mo.mem.chain|
    ensures var l := mo.mem.chain[x];
            && (l.shift == g.shift || l.shift == g.NewShift())
            && (l.shift == g.NewShift() && l.End? ==> l.home == g.HomeOf(!one))
            && (l.shift == g.NewShift() && l.Next? ==>
                  l.slot < |mo.mem.kind| && mo.mem.Is(l.slot, !one) && mo.phase.Has(l.slot))
  {
    var m, ph := mo.mem, mo.phase;
    MembersBelong(g, m, ph, x);
    MemberIsOnItsStrand(g, m, ph, x);
    BothStrands(g, m, ph, !one);
    var st := ph.Of(!one);
    var i :| 0 <= i < |st.path| && st.path[i] == x;
    assert m.chain[st.path[i]] == LinkAt(g, !one, st, i);
  }

  /** What a walk reads at the head it uses. */
  lemma FollowHead(g: Geometry, mo: Moment, one: bool, e: nat)
    requires Shape(g, mo.mem, mo.phase) && !mo.phase.Unsplit? && mo.phase.Has(e) && mo.mem.Is(e, one)
    ensures mo.mem.HeadOf(one).Head? && |mo.mem.kind| == |mo.mem.chain|
    ensures var l := mo.mem.HeadOf(one).link;
            && l.Next? && l.shift == g.NewShift() && l.slot < |mo.mem.kind| && mo.mem.Is(l.slot, one)
            && (l.slot != e ==> OnChainBefore(mo, one, l.slot, e))
  {
    var m, ph := mo.mem, mo.phase;
    MemberIsOnItsStrand(g, m, ph, e);
    BothStrands(g, m, ph, one);
    var st := ph.Of(one);
    var j :| 0 <= j < |st.path| && st.path[j] == e;
    if st.path[0] != e { assert Before(st.path, st.path[0], e); }
  }

  /** The entry looked for stays visible: whoever reaches its slot finds it. */
  ghost predicate Visible(m: Memory, shareable: seq<bool>, hits: set<nat>, e: nat) {
    |shareable| == |m.kind| && e < |shareable| && shareable[e] && e in hits
  }

  /** The round can be made, does not report absence, and leaves a walk that has not passed `e`. */
  ghost predicate Safe(g: Geometry, mo: Moment, one: bool, w: Walker, shareable: seq<bool>, hits: set<nat>, e: nat)
    requires |shareable| == |mo.mem.kind|
  {
    && Standing(mo.mem, one, w)
    && (LinkRead(mo.mem, one, w).Next? ==> LinkRead(mo.mem, one, w).slot < |mo.mem.kind|)
    && var r := Round(g, mo.mem, one, w, shareable, hits);
       !r.Absent? && (r.Continue? ==> NotPassed(g, mo, one, r.w, e))
  }

  lemma RoundAtHead(g: Geometry, mo: Moment, one: bool, w: Walker, shareable: seq<bool>, hits: set<nat>, e: nat)
    requires Shape(g, mo.mem, mo.phase) && NotPassed(g, mo, one, w, e) && Visible(mo.mem, shareable, hits, e)
    requires w.at.None?
    ensures Safe(g, mo, one, w, shareable, hits, e)
  {
    if mo.phase.Unsplit? {
      OldHeadLeadsTo(g, mo, e);
      hide OldAhead;
    } else {
      FollowHead(g, mo, one, e);
      OldHeadIsNew(g, mo);
      hide Shape;
    }
  }

  lemma OldHeadLeadsTo(g: Geometry, mo: Moment, e: nat)
    requires Shape(g, mo.mem, mo.phase) && mo.phase.Unsplit? && e in mo.phase.path
    ensures mo.phase.path[0] != e ==> OldAhead(g, mo, mo.phase.path[0], e)
  {
    var p := mo.phase.path;
    var j :| 0 <= j < |p| && p[j] == e;
    if p[0] != e {
      assert p == [p[0]] + p[1..];
      assert p[1..][j - 1] == e;
      assert OldPath(g, mo, p[0], p[1..]);
    }
  }

  lemma OldHeadIsNew(g: Geometry, mo: Moment)
    requires Shape(g, mo.mem, mo.phase) && !mo.phase.Unsplit?
    ensures mo.mem.oldHead.Head? && mo.mem.oldHead.link.shift == g.NewShift()
    ensures mo.mem.oldHead.link.Next? ==> mo.mem.oldHead.link.slot < |mo.mem.kind|
  {
  }

  lemma RoundWithOldShift(g: Geometry, mo: Moment, one: bool, w: Walker, shareable: seq<bool>, hits: set<nat>, e: nat)
    requires Shape(g, mo.mem, mo.phase) && NotPassed(g, mo, one, w, e) && Visible(mo.mem, shareable, hits, e)
    requires w.at.Some? && !w.newShift
    ensures Safe(g, mo, one, w, shareable, hits, e)
  {
    hide Shape, OldAhead;
    var x := w.at.value;
    LinksOfMembers(g, mo, x);
    if mo.mem.chain[x].shift == g.shift { FollowOld(g, mo, x, e); }
  }

  lemma LinksOfMembers(g: Geometry, mo: Moment, x: nat)
    requires Shape(g, mo.mem, mo.phase) && mo.phase.Has(x)
    ensures x < |mo.mem.chain| == |mo.mem.kind|
    ensures mo.mem.chain[x].shift == g.shift || (mo.mem.chain[x].shift == g.NewShift() && !mo.phase.Unsplit?)
    ensures mo.mem.chain[x].Next? ==> mo.mem.chain[x].slot < |mo.mem.kind|
  {
    if mo.phase.Unsplit? {
      var i :| 0 <= i < |mo.phase.path| && mo.phase.path[i] == x;
      assert mo.mem.chain[mo.phase.path[i]] == OldLink(g, mo.phase.path, i);
    } else {
      LinksOnStrand(g, mo, x in mo.phase.one.path, x);
    }
  }

  lemma LinksOnStrand(g: Geometry, mo: Moment, one: bool, x: nat)
    requires Shape(g, mo.mem, mo.phase) && !mo.phase.Unsplit? && x in mo.phase.Of(one).path
    ensures x < |mo.mem.chain| == |mo.mem.kind|
    ensures mo.mem.chain[x].shift == g.shift || mo.mem.chain[x].shift == g.NewShift()
    ensures mo.mem.chain[x].Next? ==> mo.mem.chain[x].slot < |mo.mem.kind|
  {
    hide Shape;
    var m, st := mo.mem, mo.phase.Of(one);
    BothStrands(g, m, mo.phase, one);
    var i :| 0 <= i < |st.path| && st.path[i] == x;
    assert m.chain[st.path[i]] == LinkAt(g, one, st, i);
  }

  lemma RoundOnChain(g: Geometry, mo: Moment, one: bool, w: Walker, shareable: seq<bool>, hits: set<nat>, e: nat)
    requires Shape(g, mo.mem, mo.phase) && NotPassed(g, mo, one, w, e) && Visible(mo.mem, shareable, hits, e)
    requires w.at.Some? && w.newShift && OnChainBefore(mo, one, w.at.value, e)
    ensures Safe(g, mo, one, w, shareable, hits, e)
  {
    hide Shape, OldAhead, Before;
    FollowChain(g, mo, one, w.at.value, e);
  }

  lemma RoundOffChain(g: Geometry, mo: Moment, one: bool, w: Walker, shareable: seq<bool>, hits: set<nat>, e: nat)
    requires g.Valid() && Shape(g, mo.mem, mo.phase) && NotPassed(g, mo, one, w, e)
    requires Visible(mo.mem, shareable, hits, e)
    requires w.at.Some? && w.newShift && !mo.mem.Is(w.at.value, one)
    requires !Loses(g, mo, one, w, shareable, e)
    ensures Safe(g, mo, one, w, shareable, hits, e)
  {
    hide Shape, OldAhead, Before;
    var x := w.at.value;
    FollowOther(g, mo, one, x);
    var l := mo.mem.chain[x];
    if l.shift == g.shift {
      FollowOld(g, mo, x, e);
      if l.slot != e && mo.mem.Is(l.slot, one) { OldAheadIsBefore(g, mo, one, l.slot, e); }
    }
  }

  /** Only a round that loses the entry passes it, and no round reports absence. */
  lemma RoundIsSafe(g: Geometry, mo: Moment, one: bool, w: Walker, shareable: seq<bool>, hits: set<nat>, e: nat)
    requires g.Valid() && Shape(g, mo.mem, mo.phase) && NotPassed(g, mo, one, w, e)
    requires Visible(mo.mem, shareable, hits, e)
    requires !Loses(g, mo, one, w, shareable, e)
    ensures Safe(g, mo, one, w, shareable, hits, e)
  {
    hide Shape, OldAhead, Before, AheadIfOld;
    if w.at.None? { RoundAtHead(g, mo, one, w, shareable, hits, e); }
    else if !w.newShift { RoundWithOldShift(g, mo, one, w, shareable, hits, e); }
    else if OnChainBefore(mo, one, w.at.value, e) { RoundOnChain(g, mo, one, w, shareable, hits, e); }
    else { RoundOffChain(g, mo, one, w, shareable, hits, e); }
  }

  // ---------------------------------------------------------------- whole walks

  /** A store by another thread, or a round of the walk with what it finds the slots to be. */
  datatype Event = Store(next: Moment) | Try(shareable: seq<bool>, hits: set<nat>)

  /**
   The walk reports absence although the entry in slot `e` is visible in each of its rounds, with
   or without losing it in one of them.
   */
  ghost predicate Misses(g: Geometry, mo: Moment, one: bool, w: Walker, events: seq<Event>, e: nat, losing: bool)
    decreases |events|
  {
    && events != []
    && match events[0]
       case Store(next) => Evolves(g, mo, next) && Misses(g, next, one, w, events[1..], e, losing)
       case Try(shareable, hits) =>
         && Visible(mo.mem, shareable, hits, e)
         && Standing(mo.mem, one, w)
         && (LinkRead(mo.mem, one, w).Next? ==> LinkRead(mo.mem, one, w).slot < |mo.mem.kind|)
         && (losing || !Loses(g, mo, one, w, shareable, e))
         && match Round(g, mo.mem, one, w, shareable, hits)
            case Absent => true
            case Found => false
            case Continue(w') => Misses(g, mo, one, w', events[1..], e, losing)
  }

  lemma {:induction false} WalkIsSafe(g: Geometry, mo: Moment, one: bool, w: Walker, events: seq<Event>, e: nat)
    requires g.Valid() && Shape(g, mo.mem, mo.phase) && NotPassed(g, mo, one, w, e)
    ensures !Misses(g, mo, one, w, events, e, false)
    decreases |events|
  {
    hide Shape, NotPassed, Follows;
    if Misses(g, mo, one, w, events, e, false) {
      match events[0]
      case Store(next) =>
        StoreKeepsNotPassed(g, mo, next, one, w, e);
        WalkIsSafe(g, next, one, w, events[1..], e);
      case Try(shareable, hits) =>
        RoundIsSafe(g, mo, one, w, shareable, hits, e);
        WalkIsSafe(g, mo, one, Round(g, mo.mem, one, w, shareable, hits).w, events[1..], e);
    }
  }

  /**
   Started in any phase, with the shift before or (once the heads are updated) after the split,
   and however stores come between its rounds, a walk without a losing round never misses.
   */
  lemma LookupNeverMisses(g: Geometry, mo: Moment, one: bool, newShift: bool, events: seq<Event>, e: nat)
    requires g.Valid() && Shape(g, mo.mem, mo.phase) && mo.phase.Has(e) && mo.mem.Is(e, one)
    requires newShift ==> !mo.phase.Unsplit?
    ensures !Misses(g, mo, one, Walker(newShift, None, None), events, e, false)
  {
    WalkIsSafe(g, mo, one, Walker(newShift, None, None), events, e);
  }

  /** In every round, no entry of the chain is under construction. */
  ghost predicate Readable(mo: Moment, events: seq<Event>)
    decreases |events|
  {
    events != [] ==>
      match events[0]
      case Store(next) => Readable(next, events[1..])
      case Try(shareable, _) => AllShareable(mo, shareable) && Readable(mo, events[1..])
  }

  ghost predicate AllShareable(mo: Moment, shareable: seq<bool>) {
    forall s: nat :: mo.phase.Has(s) ==> s < |shareable| && shareable[s]
  }

  lemma ReadableIsNotLosing(g: Geometry, mo: Moment, one: bool, w: Walker, shareable: seq<bool>, e: nat)
    requires Shape(g, mo.mem, mo.phase) && NotPassed(g, mo, one, w, e) && AllShareable(mo, shareable)
    ensures !Loses(g, mo, one, w, shareable, e)
  {
    hide Shape, OldAhead;
    if Blind(g, mo.mem, one, w, shareable) {
      FollowOther(g, mo, one, w.at.value);
    }
  }

  /**
   While no entry of the chain is under construction, whatever is inserted and wherever the split
   stands, a walk misses nothing.
   */
  lemma {:induction false} ReadableWalkNeverMisses(g: Geometry, mo: Moment, one: bool, w: Walker, events: seq<Event>,
                          e: nat)
    requires g.Valid() && Shape(g, mo.mem, mo.phase) && NotPassed(g, mo, one, w, e) && Readable(mo, events)
    ensures !Misses(g, mo, one, w, events, e, true)
    decreases |events|
  {
    hide Shape, NotPassed, Follows, Loses, AllShareable;
    if Misses(g, mo, one, w, events, e, true) {
      match events[0]
      case Store(next) =>
        StoreKeepsNotPassed(g, mo, next, one, w, e);
        ReadableWalkNeverMisses(g, next, one, w, events[1..], e);
      case Try(shareable, hits) =>
        ReadableIsNotLosing(g, mo, one, w, shareable, e);
        RoundIsSafe(g, mo, one, w, shareable, hits, e);
        ReadableWalkNeverMisses(g, mo, one, Round(g, mo.mem, one, w, shareable, hits).w, events[1..], e);
    }
  }

  lemma ReadableLookupNeverMisses(g: Geometry, mo: Moment, one: bool, newShift: bool, events: seq<Event>, e: nat)
    requires g.Valid() && Shape(g, mo.mem, mo.phase) && mo.phase.Has(e) && mo.mem.Is(e, one) && Readable(mo, events)
    requires newShift ==> !mo.phase.Unsplit?
    ensures !Misses(g, mo, one, Walker(newShift, None, None), events, e, true)
  {
    ReadableWalkNeverMisses(g, mo, one, Walker(newShift, None, None), events, e);
  }

  // ---------------------------------------------------------------- a losing round can miss

  /** Over old links that do not lead to `e`, the walk gets to an end marker that it accepts. */
  lemma {:induction false} OldRunMisses(g: Geometry, mo: Moment, one: bool, w: Walker, p: seq<nat>, e: nat)
      returns (events: seq<Event>)
    requires Shape(g, mo.mem, mo.phase) && w.newShift && w.at.Some? && OldPath(g, mo, w.at.value, p) && e !in p
    requires e < |mo.mem.kind|
    ensures Misses(g, mo, one, w, events, e, false)
    decreases |p|
  {
    var x := w.at.value;
    var try := Try(seq(|mo.mem.kind|, i => i == e), {e});
    assert mo.mem.chain[([x] + p)[0]] == OldLink(g, [x] + p, 0);
    events := [try];
    if p != [] {
      OldPathShorter(g, mo, x, p);
      MembersBelong(g, mo.mem, mo.phase, p[0]);
      hide Shape;
      var rest := OldRunMisses(g, mo, one, w.(at := Some(p[0])), p[1..], e);
      events := [try] + rest;
      assert events[1..] == rest;
    }
  }

  /**
   Exactly when a round makes a miss possible: a walk that has not passed the entry can go on from
   the round to report absence, without losing the entry in a later round, if and only if the
   round loses it.
   */
  lemma MissesIffLoses(g: Geometry, mo: Moment, one: bool, w: Walker, shareable: seq<bool>, hits: set<nat>, e: nat)
    requires g.Valid() && Shape(g, mo.mem, mo.phase) && NotPassed(g, mo, one, w, e)
    requires Visible(mo.mem, shareable, hits, e)
    ensures Standing(mo.mem, one, w)
    ensures LinkRead(mo.mem, one, w).Next? ==> LinkRead(mo.mem, one, w).slot < |mo.mem.kind|
    ensures var r := Round(g, mo.mem, one, w, shareable, hits);
            r.Absent? || (r.Continue? && exists events :: Misses(g, mo, one, r.w, events, e, false))
            <==> Loses(g, mo, one, w, shareable, e)
  {
    if Loses(g, mo, one, w, shareable, e) {
      LosingRoundMisses(g, mo, one, w, shareable, hits, e);
    } else {
      RoundIsSafe(g, mo, one, w, shareable, hits, e);
      hide Shape, NotPassed, Loses, Misses;
      var r := Round(g, mo.mem, one, w, shareable, hits);
      forall events | r.Continue?
        ensures !Misses(g, mo, one, r.w, events, e, false)
      {
        WalkIsSafe(g, mo, one, r.w, events, e);
      }
    }
  }

  lemma LosingRoundMisses(g: Geometry, mo: Moment, one: bool, w: Walker, shareable: seq<bool>, hits: set<nat>, e: nat)
    requires g.Valid() && Shape(g, mo.mem, mo.phase) && NotPassed(g, mo, one, w, e)
    requires Visible(mo.mem, shareable, hits, e)
    requires Loses(g, mo, one, w, shareable, e)
    ensures Standing(mo.mem, one, w) && LinkRead(mo.mem, one, w).Next? && LinkRead(mo.mem, one, w).slot < |mo.mem.kind|
    ensures var r := Round(g, mo.mem, one, w, shareable, hits);
            r.Continue? && exists events :: Misses(g, mo, one, r.w, events, e, false)
  {
    hide Shape, Before, Misses;
    var x := w.at.value;
    FollowOther(g, mo, one, x);
    var y := mo.mem.chain[x].slot;
    var p := OldPathFrom(g, mo, y);
    var events := OldRunMisses(g, mo, one, w.(at := Some(y)), p, e);
  }

  const SAMPLE_SPLIT := Geometry(1, 0, 2)
  const SAMPLE_KINDS := [Zero, One, Zero, One]
  const SAMPLE_PATH: seq<nat> := [0, 1, 2, 3]

  /** The chain 0 -> 1 -> 2 -> 3, with entries for the old and for the grow home in turn. */
  function SampleChain(): Memory {
    Memory(Head(Next(0, 1), true), Head(Next(1, 2), true), [Next(1, 1), Next(2, 1), Next(3, 1), End(0, 1)],
              SAMPLE_KINDS)
  }

  /** Its split, right after the heads are updated and after each of the next two small steps. */
  lemma SampleSplit() returns (a: Moment, b: Moment, c: Moment)
    ensures SAMPLE_SPLIT.Valid()
    ensures Shape(SAMPLE_SPLIT, a.mem, a.phase) && Evolves(SAMPLE_SPLIT, a, b) && Evolves(SAMPLE_SPLIT, b, c)
    ensures a.phase == Shared(Strand([0, 1, 2, 3], 0), Strand([1, 2, 3], 0), false, 1)
    ensures a.mem == SampleChain().(oldHead := Head(Next(0, 2), true))
    ensures b.mem == Put(a.mem, 0, Next(2, 2)) && c.mem == Put(b.mem, 1, Next(3, 2))
  {
    var g, m := SAMPLE_SPLIT, SampleChain();
    SampleShape();
    hide Shape, Follows;
    var m' := m.(oldHead := Head(Next(0, 2), true));
    PublishStep(g, m, SAMPLE_PATH, false, 1, m');
    a := Moment(m', Published(false, SAMPLE_PATH, 1));
    assert a.phase.one.path == [1, 2, 3];
    SkipStep(g, a.mem, a.phase, 1);
    b := Moment(Put(a.mem, 0, Next(2, 2)), Skipped(a.phase, 1));
    assert b.phase.zero.path == [0, 2, 3];
    SkipStep(g, b.mem, b.phase, 2);
    c := Moment(Put(b.mem, 1, Next(3, 2)), Skipped(b.phase, 2));
  }

  lemma SampleShape()
    ensures SAMPLE_SPLIT.Valid() && Shape(SAMPLE_SPLIT, SampleChain(), Unsplit(SAMPLE_PATH))
  {
    var g, m := SAMPLE_SPLIT, SampleChain();
    assert Pow2(1) == 2;
    forall i | 0 <= i < 4 ensures m.chain[SAMPLE_PATH[i]] == OldLink(g, SAMPLE_PATH, i) {
      assert i == 0 || i == 1 || i == 2 || i == 3;
    }
  }

  /**
   Slot 2 holds a visible entry all the time. The walk gets to slot 1 while the chains still share
   it, the split moves on, and the new link of slot 1 leads it past the entry to slot 3, which is
   under construction, and from there to the old end marker.
   */
  lemma BlindRoundCanMiss()
    ensures exists mo: Moment, events: seq<Event> ::
              && Shape(SAMPLE_SPLIT, mo.mem, mo.phase) && mo.phase.Has(2) && mo.mem.Is(2, false)
              && Misses(SAMPLE_SPLIT, mo, false, Walker(true, None, None), events, 2, true)
  {
    var g := SAMPLE_SPLIT;
    var a, b, c := SampleSplit();
    hide Shape, Evolves, Misses;
    var w0, w1, w2, w3 := Walker(true, None, None), Walker(true, Some(0), Some(0)), Walker(true, Some(1), Some(0)),
              Walker(true, Some(3), Some(0));
    var events := [SAMPLE_TRY];
    SampleRounds(a.mem, c.mem);
    MissesNow(g, c, w3);
    MissesLater(g, c, w2, w3, events);
    events := [SAMPLE_TRY] + events;
    MissesAfterStore(g, b, c, w2, events);
    events := [Store(c)] + events;
    MissesAfterStore(g, a, b, w2, events);
    events := [Store(b)] + events;
    MissesLater(g, a, w1, w2, events);
    events := [SAMPLE_TRY] + events;
    MissesLater(g, a, w0, w1, events);
  }

  /** Slot 3 is under construction, the other slots are not; slot 2 matches. */
  const SAMPLE_SHAREABLE := [true, true, true, false]
  const SAMPLE_TRY := Try(SAMPLE_SHAREABLE, {2})

  /** What each round of the walk reads and where it goes. */
  lemma SampleRounds(a: Memory, c: Memory)
    requires a == SampleChain().(oldHead := Head(Next(0, 2), true))
    requires c == Put(Put(a, 0, Next(2, 2)), 1, Next(3, 2))
    ensures RoundGoes(a, Walker(true, None, None), Some(Walker(true, Some(0), Some(0))))
    ensures RoundGoes(a, Walker(true, Some(0), Some(0)), Some(Walker(true, Some(1), Some(0))))
    ensures RoundGoes(c, Walker(true, Some(1), Some(0)), Some(Walker(true, Some(3), Some(0))))
    ensures RoundGoes(c, Walker(true, Some(3), Some(0)), None)
  {
    assert Pow2(1) == 2 && Pow2(2) == 4;
  }

  /** A round of the sample walk that goes on, or reports absence. */
  ghost predicate RoundGoes(m: Memory, w: Walker, w': Option<Walker>) {
    && Visible(m, SAMPLE_SHAREABLE, {2}, 2) && Standing(m, false, w)
    && (LinkRead(m, false, w).Next? ==> LinkRead(m, false, w).slot < |m.kind|)
    && Round(SAMPLE_SPLIT, m, false, w, SAMPLE_SHAREABLE, {2}) == if w'.Some? then Continue(w'.value) else Absent
  }

  lemma MissesNow(g: Geometry, mo: Moment, w: Walker)
    requires g == SAMPLE_SPLIT && RoundGoes(mo.mem, w, None)
    ensures Misses(g, mo, false, w, [SAMPLE_TRY], 2, true)
  {
    hide Round, Visible, Standing, LinkRead;
  }

  lemma MissesLater(g: Geometry, mo: Moment, w: Walker, w': Walker, events: seq<Event>)
    requires g == SAMPLE_SPLIT && RoundGoes(mo.mem, w, Some(w')) && Misses(g, mo, false, w', events, 2, true)
    ensures Misses(g, mo, false, w, [SAMPLE_TRY] + events, 2, true)
  {
    hide Round, Visible, Standing, LinkRead;
    assert ([SAMPLE_TRY] + events)[1..] == events;
  }

  lemma MissesAfterStore(g: Geometry, mo: Moment, next: Moment, w: Walker, events: seq<Event>)
    requires Evolves(g, mo, next) && Misses(g, next, false, w, events, 2, true)
    ensures Misses(g, mo, false, w, [Store(next)] + events, 2, true)
  {
    hide Evolves;
    assert ([Store(next)] + events)[1..] == events;
  }

  // ---------------------------------------------------------------- what a walk finds

  /** A round reports a find exactly when it follows a usable link to a visible entry of the key. */
  lemma FoundIsAHit(g: Geometry, m: Memory, one: bool, w: Walker, shareable: seq<bool>, hits: set<nat>)
    requires Standing(m, one, w) && |shareable| == |m.kind|
    requires LinkRead(m, one, w).Next? ==> LinkRead(m, one, w).slot < |m.kind|
    ensures var l := LinkRead(m, one, w);
            Round(g, m, one, w, shareable, hits).Found? <==>
            && l.Next? && l.shift <= (if w.newShift then g.NewShift() else g.shift)
            && shareable[l.slot] && l.slot in hits
  {
  }

  /** The walk over these events ends with a find in the last of them. */
  ghost predicate Finds(g: Geometry, mo: Moment, one: bool, w: Walker, events: seq<Event>)
    decreases |events|
  {
    && events != []
    && match events[0]
       case Store(next) => Finds(g, next, one, w, events[1..])
       case Try(shareable, hits) =>
         && |shareable| == |mo.mem.kind| && Standing(mo.mem, one, w)
         && (LinkRead(mo.mem, one, w).Next? ==> LinkRead(mo.mem, one, w).slot < |mo.mem.kind|)
         && match Round(g, mo.mem, one, w, shareable, hits)
            case Absent => false
            case Found => |events| == 1
            case Continue(w') => Finds(g, mo, one, w', events[1..])
  }

  /** The moment after all the stores among the events. */
  ghost function Latest(mo: Moment, events: seq<Event>): Moment
    decreases |events|
  {
    if events == [] then mo
    else Latest(if events[0].Store? then events[0].next else mo, events[1..])
  }

  /** Some head or entry leads to the slot. */
  ghost predicate LedTo(m: Memory, s: nat) {
    || (exists one :: m.HeadOf(one).Head? && m.HeadOf(one).link.Next? && m.HeadOf(one).link.slot == s)
    || (exists x :: 0 <= x < |m.chain| && m.chain[x].Next? && m.chain[x].slot == s)
  }

  /** Whatever happens on the way, what a walk finds is a visible entry of the key that it is led to. */
  lemma {:induction false} FindIsReal(g: Geometry, mo: Moment, one: bool, w: Walker, events: seq<Event>)
    returns (s: nat)
    requires Finds(g, mo, one, w, events)
    ensures var last := events[|events| - 1];
            && last.Try? && s in last.hits && s < |last.shareable| && last.shareable[s]
            && LedTo(Latest(mo, events).mem, s)
    decreases |events|
  {
    match events[0]
    case Store(next) =>
      s := FindIsReal(g, next, one, w, events[1..]);
    case Try(shareable, hits) =>
      var r := Round(g, mo.mem, one, w, shareable, hits);
      if r.Continue? {
        s := FindIsReal(g, mo, one, r.w, events[1..]);
      } else {
        FoundIsAHit(g, mo.mem, one, w, shareable, hits);
        s := LinkRead(mo.mem, one, w).slot;
        assert Latest(mo, events) == mo by { assert events[1..] == []; }
      }
  }

  /** A key that is in no slot is never found. */
  lemma NothingToFind(g: Geometry, mo: Moment, one: bool, w: Walker, events: seq<Event>)
    requires forall i :: 0 <= i < |events| && events[i].Try? ==> events[i].hits == {}
    ensures !Finds(g, mo, one, w, events)
  {
    if Finds(g, mo, one, w, events) {
      var s := FindIsReal(g, mo, one, w, events);
      assert false;
    }
  }

  // ---------------------------------------------------------------- an undisturbed walk

  /** With nothing changing, the walk ends in `n` rounds, with the outcome `r`. */
  ghost predicate Ends(g: Geometry, m: Memory, one: bool, w: Walker, shareable: seq<bool>, hits: set<nat>, n: nat,
                       r: Outcome)
    decreases n
  {
    && n > 0 && |shareable| == |m.kind| && Standing(m, one, w)
    && (LinkRead(m, one, w).Next? ==> LinkRead(m, one, w).slot < |m.kind|)
    && match Round(g, m, one, w, shareable, hits)
       case Continue(w') => Ends(g, m, one, w', shareable, hits, n - 1, r)
       case done => done == r
  }

  /** Found if a visible entry of the key is on the path from index `i` on, and otherwise Absent. */
  ghost function Verdict(path: seq<nat>, i: nat, shareable: seq<bool>, hits: set<nat>): Outcome
    requires forall k :: 0 <= k < |path| ==> path[k] < |shareable|
    decreases |path| - i
  {
    if i >= |path| then Absent
    else if shareable[path[i]] && path[i] in hits then Found
    else Verdict(path, i + 1, shareable, hits)
  }

  /** A visible entry of the key is on the path from index `i` on. */
  ghost predicate Present(path: seq<nat>, i: nat, shareable: seq<bool>, hits: set<nat>)
    requires forall k :: 0 <= k < |path| ==> path[k] < |shareable|
  {
    exists k :: i <= k < |path| && shareable[path[k]] && path[k] in hits
  }

  lemma {:induction false} VerdictIs(path: seq<nat>, i: nat, shareable: seq<bool>, hits: set<nat>)
    requires forall k :: 0 <= k < |path| ==> path[k] < |shareable|
    ensures var r := Verdict(path, i, shareable, hits);
            && (r.Found? || r.Absent?)
            && (r.Found? <==> Present(path, i, shareable, hits))
    decreases |path| - i
  {
    if i < |path| {
      VerdictIs(path, i + 1, shareable, hits);
    }
  }

  /** A walk with the new shift, from before the entry number `i` of its strand. */
  lemma {:induction false} StrandEnds(g: Geometry, m: Memory, one: bool, st: Strand, i: nat, w: Walker,
                          shareable: seq<bool>, hits: set<nat>)
    requires |m.kind| == |m.chain| == |shareable| && OnStrand(g, m, one, st) && i <= |st.path|
    requires w.newShift && w.at == if i == 0 then None else Some(st.path[i - 1])
    requires i == 0 ==> w.ref.None?
    ensures Ends(g, m, one, w, shareable, hits, |st.path| - i + 1, Verdict(st.path, i, shareable, hits))
    decreases |st.path| - i
  {
    if i > 0 {
      assert m.chain[st.path[i - 1]] == LinkAt(g, one, st, i - 1);
    }
    if i < |st.path| && !(shareable[st.path[i]] && st.path[i] in hits) {
      var r := Round(g, m, one, w, shareable, hits);
      StrandEnds(g, m, one, st, i + 1, r.w, shareable, hits);
    }
  }

  /** A walk with the old shift, on a chain that is not split. */
  lemma {:induction false} PlainEnds(g: Geometry, m: Memory, p: seq<nat>, one: bool, i: nat, w: Walker,
                          shareable: seq<bool>, hits: set<nat>)
    requires Shape(g, m, Unsplit(p)) && |m.kind| == |shareable| && i <= |p|
    requires !w.newShift && w.at == if i == 0 then None else Some(p[i - 1])
    ensures Ends(g, m, one, w, shareable, hits, |p| - i + 1, Verdict(p, i, shareable, hits))
    decreases |p| - i
  {
    if i > 0 {
      assert m.chain[p[i - 1]] == OldLink(g, p, i - 1);
    }
    if i < |p| && !(shareable[p[i]] && p[i] in hits) {
      var r := Round(g, m, one, w, shareable, hits);
      PlainEnds(g, m, p, one, i + 1, r.w, shareable, hits);
    }
  }

  /** The entries that a walk for a key with the new hash bit `one` goes through. */
  function PathFor(ph: Phase, one: bool): seq<nat> { if ph.Unsplit? then ph.path else ph.Of(one).path }

  /**
   In every phase of a split, a Lookup that nothing disturbs comes to an end: it finds the key if
   a visible entry of it is on the chain, and otherwise reports it absent.
   */
  lemma UndisturbedLookup(g: Geometry, m: Memory, ph: Phase, one: bool, newShift: bool, shareable: seq<bool>,
                          hits: set<nat>) returns (n: nat, r: Outcome)
    requires Shape(g, m, ph) && |shareable| == |m.kind| && (newShift ==> !ph.Unsplit?)
    ensures Ends(g, m, one, Walker(newShift, None, None), shareable, hits, n, r)
    ensures r.Found? || r.Absent?
    ensures forall k :: 0 <= k < |PathFor(ph, one)| ==> PathFor(ph, one)[k] < |shareable|
    ensures r.Found? <==> Present(PathFor(ph, one), 0, shareable, hits)
  {
    hide Ends, Verdict, OnStrand;
    if ph.Unsplit? {
      PlainEnds(g, m, ph.path, one, 0, Walker(false, None, None), shareable, hits);
      VerdictIs(ph.path, 0, shareable, hits);
      n, r := |ph.path| + 1, Verdict(ph.path, 0, shareable, hits);
    } else {
      n, r := UndisturbedSplit(g, m, ph, one, newShift, shareable, hits);
    }
  }

  lemma UndisturbedSplit(g: Geometry, m: Memory, ph: Phase, one: bool, newShift: bool, shareable: seq<bool>,
                         hits: set<nat>) returns (n: nat, r: Outcome)
    requires Shape(g, m, ph) && |shareable| == |m.kind| && !ph.Unsplit?
    ensures Ends(g, m, one, Walker(newShift, None, None), shareable, hits, n, r)
    ensures r.Found? || r.Absent?
    ensures forall k :: 0 <= k < |ph.Of(one).path| ==> ph.Of(one).path[k] < |shareable|
    ensures r.Found? <==> Present(ph.Of(one).path, 0, shareable, hits)
  {
    hide Shape, Verdict, LinkAt, OnStrand, Ends, Present;
    BothStrands(g, m, ph, one);
    OldHeadIsNew(g, Moment(m, ph));
    var st := ph.Of(one);
    StrandInRange(g, m, one, st);
    StrandEnds(g, m, one, st, 0, Walker(true, None, None), shareable, hits);
    VerdictIs(st.path, 0, shareable, hits);
    n, r := |st.path| + 1, Verdict(st.path, 0, shareable, hits);
    if !newShift {
      OldShiftRestarts(g, m, one, shareable, hits, n, r);
      n := n + 1;
    }
  }

  lemma StrandInRange(g: Geometry, m: Memory, one: bool, st: Strand)
    requires |m.kind| == |m.chain| && OnStrand(g, m, one, st)
    ensures forall k :: 0 <= k < |st.path| ==> st.path[k] < |m.kind|
  {
  }

  /** A walk with the old shift that meets a head with the new one starts over with that. */
  lemma OldShiftRestarts(g: Geometry, m: Memory, one: bool, shareable: seq<bool>, hits: set<nat>, n: nat, r: Outcome)
    requires m.oldHead.Head? && m.oldHead.link.shift == g.NewShift() && |shareable| == |m.kind|
    requires m.oldHead.link.Next? ==> m.oldHead.link.slot < |m.kind|
    requires Ends(g, m, one, Walker(true, None, None), shareable, hits, n, r)
    ensures Ends(g, m, one, Walker(false, None, None), shareable, hits, n + 1, r)
  {
  }
}
