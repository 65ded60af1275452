/**
 `AutoHyperClockTable::SplitForGrow` and the insertions that run beside it
 (cache/clock_cache.cc). Every store is one method call that appends to `trace`, and other threads
 may insert at the heads between any two of them (`Interfere`).
 */
module SplitForGrow {
  import opened Bits
  import opened ChainSplit
  import opened Options

  function Kinds(g: Geometry, hash: seq<nat>): (k: seq<Kind>) {
    seq(|hash|, i requires 0 <= i < |hash| => g.KindOf(hash[i]))
  }

  /** The entries of a path that belong to chain `one`, in order. */
  ghost function Picks(m: Memory, one: bool, p: seq<nat>): seq<nat> {
    if p == [] then []
    else (if m.Is(p[0], one) then [p[0]] else []) + Picks(m, one, p[1..])
  }

  lemma {:induction false} PicksConcat(m: Memory, one: bool, p: seq<nat>, q: seq<nat>)
    ensures Picks(m, one, p + q) == Picks(m, one, p) + Picks(m, one, q)
  {
    if p == [] {
      assert p + q == q;
    } else {
      assert (p + q)[1..] == p[1..] + q;
      PicksConcat(m, one, p[1..], q);
    }
  }

  lemma {:induction false} PicksNone(m: Memory, one: bool, p: seq<nat>)
    requires forall i :: 0 <= i < |p| ==> !m.Is(p[i], one)
    ensures Picks(m, one, p) == []
  {
    if p != [] { PicksNone(m, one, p[1..]); }
  }

  lemma {:induction false} PicksAll(m: Memory, one: bool, p: seq<nat>)
    requires forall i :: 0 <= i < |p| ==> m.Is(p[i], one)
    ensures Picks(m, one, p) == p
  {
    if p != [] { PicksAll(m, one, p[1..]); }
  }

  lemma {:induction false} PicksSame(m: Memory, m': Memory, one: bool, p: seq<nat>)
    requires forall i :: 0 <= i < |p| ==> m.Is(p[i], one) == m'.Is(p[i], one)
    ensures Picks(m, one, p) == Picks(m', one, p)
  {
    if p != [] { PicksSame(m, m', one, p[1..]); }
  }

  /** The chain when the heads were updated, and what was inserted in each target chain since. */
  datatype Account = Account(origin: seq<nat>, zero: seq<nat>, one: seq<nat>) {
    function Of(b: bool): seq<nat> { if b then one else zero }
    function Add(b: bool, x: nat): Account {
      if b then this.(one := [x] + one) else this.(zero := [x] + zero)
    }
  }

  /** The entries of target chain `b` are those inserted since the split and those it got from it. */
  ghost predicate Owed(m: Memory, b: bool, path: seq<nat>, a: Account) {
    Picks(m, b, path) == a.Of(b) + Picks(m, b, a.origin)
  }

  ghost predicate Balanced(m: Memory, ph: Phase, a: Account) {
    ph.Unsplit? ||
    (&& Owed(m, false, ph.zero.path, a) && Owed(m, true, ph.one.path, a)
     && forall i :: 0 <= i < |a.origin| ==> ph.Has(a.origin[i]))
  }

  lemma InsertOwed(m: Memory, m': Memory, b: bool, path: seq<nat>, other: seq<nat>, a: Account, x: nat)
    requires Owed(m, b, path, a) && Owed(m, !b, other, a) && m'.Is(x, b)
    requires x < |m.kind| && x !in path && x !in other && x !in a.origin
    requires m'.kind == m.kind[x := KindFor(b)]
    ensures Owed(m', b, [x] + path, a.Add(b, x)) && Owed(m', !b, other, a.Add(b, x))
  {
    PicksSame(m, m', b, path);
    PicksSame(m, m', b, a.origin);
    PicksSame(m, m', !b, other);
    PicksSame(m, m', !b, a.origin);
    assert ([x] + path)[1..] == path;
  }

  /** An insertion in a target chain is entered in the account. */
  lemma InsertBalanced(m: Memory, ph: Phase, a: Account, one: bool, x: nat, kind: Kind)
    requires Balanced(m, ph, a) && InRange(m, ph)
    requires x < |m.chain| && !ph.Has(x) && m.HeadOf(one).Head?
    requires !ph.Unsplit? ==> kind == KindFor(one)
    ensures Balanced(Inserted(m, one, x, kind, m.HeadOf(one).link.shift), AfterInsert(ph, one, x),
                     if ph.Unsplit? then a else a.Add(one, x))
  {
    hide Owed;
    if !ph.Unsplit? {
      var m' := Inserted(m, one, x, kind, m.HeadOf(one).link.shift);
      InsertOwed(m, m', one, ph.Of(one).path, ph.Of(!one).path, a, x);
    }
  }

  /** A phase after insertions at the heads: what is left to do is the same. */
  ghost predicate Undisturbed(a: Phase, b: Phase) {
    match a
    case Unsplit(p) => b.Unsplit? && Suffix(p, b.path)
    case Shared(z, o, first, join) =>
      && b.Shared? && b.first == first && z.Rest() == b.zero.Rest() && o.Rest() == b.one.Rest()
      && b.join - b.Of(first).done == join - a.Of(first).done
    case Separate(z, o) => b.Separate? && z.Rest() == b.zero.Rest() && o.Rest() == b.one.Rest()
  }

  lemma UndisturbedTransitive(a: Phase, b: Phase, c: Phase)
    requires Undisturbed(a, b) && Undisturbed(b, c)
    ensures Undisturbed(a, c)
  {
    if a.Unsplit? { SuffixTransitive(a.path, b.path, c.path); }
  }

  lemma SuffixTransitive(p: seq<nat>, q: seq<nat>, r: seq<nat>)
    requires Suffix(p, q) && Suffix(q, r)
    ensures Suffix(p, r)
  {
    assert r[|r| - |p|..] == r[|r| - |q|..][|q| - |p|..];
  }

  /** Removing entries of the other chain from a path leaves what the account says about it. */
  lemma CutOwed(m: Memory, m': Memory, b: bool, p: seq<nat>, join: nat, q: seq<nat>, done: nat, j: nat, a: Account)
    requires m'.kind == m.kind && Owed(m, b, p, a)
    requires join <= |p| && done <= j <= |q| && p[join..] == q[done..]
    requires forall i :: done <= i < j ==> !m.Is(q[i], b)
    ensures Owed(m', b, p[..join] + q[j..], a)
  {
    assert p == p[..join] + p[join..];
    assert q[done..] == q[done..j] + q[j..];
    PicksNone(m, b, q[done..j]);
    PicksConcat(m, b, p[..join], p[join..]);
    PicksConcat(m, b, q[done..j], q[j..]);
    PicksConcat(m, b, p[..join], q[j..]);
    PicksSame(m, m', b, p[..join] + q[j..]);
    PicksSame(m, m', b, a.origin);
  }

  lemma SameOwed(m: Memory, m': Memory, b: bool, p: seq<nat>, a: Account)
    requires m'.kind == m.kind && Owed(m, b, p, a)
    ensures Owed(m', b, p, a)
  {
    PicksSame(m, m', b, p);
    PicksSame(m, m', b, a.origin);
  }

  /** What the splitter reads at a frontier. */
  lemma FrontierLink(g: Geometry, m: Memory, ph: Phase, one: bool)
    requires Shape(g, m, ph) && !ph.Unsplit? && ph.Of(one).Rest() != []
    ensures var p := ph.Of(one);
            && p.path[p.done] < |m.chain|
            && m.chain[p.path[p.done]] == LinkAt(g, one, p, p.done)
            && p.path[p.done] == p.Rest()[0]
            && m.chain[p.path[p.done]].shift == g.shift
    ensures ph.Shared? && ph.first == one ==>
              var p, q := ph.Of(one), ph.Of(!one);
              && p.done < ph.join < |p.path| && q.done < |q.path| && q.Rest()[0] == q.path[q.done]
              && (m.chain[p.path[p.done]] == Next(q.path[q.done], g.shift) <==> p.done + 1 == ph.join)
  {
    var p := ph.Of(one);
    assert m.chain[p.path[p.done]] == LinkAt(g, one, p, p.done);
    if ph.Shared? && ph.first == one {
      var q := ph.Of(!one);
      assert p.path[ph.join] == p.path[ph.join..][0] == q.path[q.done..][0];
    }
  }

  lemma SamePathsBalanced(m: Memory, ph: Phase, a: Account, m': Memory, ph': Phase)
    requires m'.kind == m.kind && !ph.Unsplit? && !ph'.Unsplit? && Balanced(m, ph, a)
    requires ph.zero.path == ph'.zero.path && ph.one.path == ph'.one.path
    ensures Balanced(m', ph', a)
  {
    SameOwed(m, m', false, ph.zero.path, a);
    SameOwed(m, m', true, ph.one.path, a);
  }

  lemma SkipBalanced(m: Memory, ph: Phase, a: Account, j: nat, m': Memory, ph': Phase)
    requires ph.Shared? && Balanced(m, ph, a) && m'.kind == m.kind && !ph'.Unsplit?
    requires var p, q := ph.Of(ph.first), ph.Of(!ph.first);
             && ph.join <= |p.path| && q.done <= j <= |q.path| && p.path[ph.join..] == q.path[q.done..]
             && (forall i :: q.done <= i < j ==> !m.Is(q.path[i], ph.first))
             && ph'.Of(ph.first).path == p.path[..ph.join] + q.path[j..]
             && ph'.Of(!ph.first).path == q.path
    requires forall s: nat :: ph.Has(s) ==> ph'.Has(s)
    ensures Balanced(m', ph', a)
  {
    var p, q := ph.Of(ph.first), ph.Of(!ph.first);
    CutOwed(m, m', ph.first, p.path, ph.join, q.path, q.done, j, a);
    SameOwed(m, m', !ph.first, q.path, a);
  }

  /** The two frontiers are next to each other: the chains share all that is left. */
  ghost predicate Adjacent(ph: Phase, frontier: nat) {
    && ph.Shared?
    && ph.Of(!ph.first).Rest() != []
    && ph.Of(ph.first).Rest() == [frontier] + ph.Of(!ph.first).Rest()
    && ph.Of(ph.first).done + 1 == ph.join
  }

  lemma AdjacentFrontiers(g: Geometry, m: Memory, ph: Phase)
    requires Shape(g, m, ph) && ph.Shared? && ph.Of(ph.first).done + 1 == ph.join
    ensures Adjacent(ph, ph.Of(ph.first).path[ph.Of(ph.first).done])
    ensures var q := ph.Of(!ph.first);
            && q.path[q.done..] == q.Rest()
            && (forall i :: 0 <= i <= q.done ==> m.Is(q.path[i], !ph.first))
            && (forall s: nat :: ph.Has(s) ==> s < |m.kind| == |m.chain| && !m.kind[s].Foreign?)
            && ph.Of(ph.first).path[ph.join..] == q.path[q.done..]
            && ph.join <= |ph.Of(ph.first).path|
  {
    var p := ph.Of(ph.first);
    assert p.path[p.done..] == [p.path[p.done]] + p.path[ph.join..];
  }

  /** The entries left to divide: some of the other chain, then `cur` of the first. */
  ghost predicate SkipsTo(m: Memory, ph: Phase, f: nat, cur: nat, c: nat) {
    && Adjacent(ph, f)
    && var left := ph.Of(!ph.first).Rest();
       0 < c < |left| && left[c] == cur && m.Is(cur, ph.first) && forall i :: 0 <= i < c ==> m.Is(left[i], !ph.first)
  }

  /** All that the store of the small step needs and gives. */
  lemma SkipMove(g: Geometry, m: Memory, ph: Phase, a: Account, f: nat, cur: nat, c: nat) returns (ph': Phase)
    requires Shape(g, m, ph) && Balanced(m, ph, a) && SkipsTo(m, ph, f, cur, c)
    ensures f < |m.chain| && !ph'.Unsplit?
    ensures Evolves(g, Moment(m, ph), Moment(Put(m, f, Next(cur, g.NewShift())), ph'))
    ensures Balanced(Put(m, f, Next(cur, g.NewShift())), ph', a)
    ensures forall s: nat :: ph'.Has(s) ==> ph.Has(s)
    ensures ph'.Shared? && ph'.first == !ph.first
    ensures ph'.Of(!ph.first).Rest() == ph.Of(!ph.first).Rest()
    ensures ph'.Of(ph.first).Rest() == ph.Of(!ph.first).Rest()[c..]
  {
    hide Shape, Evolves, Balanced, Phase.Has, Skipped, Put;
    SkipEvolves(g, m, ph, f, cur, c);
    SkipKeepsBalance(g, m, ph, a, f, cur, c);
    SkipFacts(g, m, ph, f, cur, c);
    hide SkipsTo, Adjacent, Strand.Rest, Phase.Of;
    ph' := Skipped(ph, ph.Of(!ph.first).done + c);
  }

  /** The strands before and after the skip. */
  lemma SkipFacts(g: Geometry, m: Memory, ph: Phase, f: nat, cur: nat, c: nat)
    requires Shape(g, m, ph) && SkipsTo(m, ph, f, cur, c)
    ensures f < |m.chain| && ph.join <= |ph.Of(ph.first).path| && ph.Of(!ph.first).done + c <= |ph.Of(!ph.first).path|
    ensures var ph' := Skipped(ph, ph.Of(!ph.first).done + c);
            && ph'.Shared? && ph'.first == !ph.first
            && ph'.Of(!ph.first).Rest() == ph.Of(!ph.first).Rest()
            && ph'.Of(ph.first).Rest() == ph.Of(!ph.first).Rest()[c..]
            && forall s: nat :: ph'.Has(s) <==> ph.Has(s)
  {
    AdjacentFrontiers(g, m, ph);
    hide Shape;
    SkipIndices(m, ph, f, cur, c);
  }

  lemma SkipEvolves(g: Geometry, m: Memory, ph: Phase, f: nat, cur: nat, c: nat)
    requires Shape(g, m, ph) && SkipsTo(m, ph, f, cur, c)
    ensures f < |m.chain| && ph.join <= |ph.Of(ph.first).path| && ph.Of(!ph.first).done + c <= |ph.Of(!ph.first).path|
    ensures Evolves(g, Moment(m, ph),
                    Moment(Put(m, f, Next(cur, g.NewShift())), Skipped(ph, ph.Of(!ph.first).done + c)))
  {
    hide Shape, Evolves, Skipped, Memory.Is;
    AdjacentFrontiers(g, m, ph);
    SkipIndices(m, ph, f, cur, c);
    hide Phase.Has, Strand.Rest, SkipsTo;
    SkipStep(g, m, ph, ph.Of(!ph.first).done + c);
  }

  lemma SkipKeepsBalance(g: Geometry, m: Memory, ph: Phase, a: Account, f: nat, cur: nat, c: nat)
    requires Shape(g, m, ph) && Balanced(m, ph, a) && SkipsTo(m, ph, f, cur, c)
    ensures f < |m.chain| && ph.join <= |ph.Of(ph.first).path| && ph.Of(!ph.first).done + c <= |ph.Of(!ph.first).path|
    ensures Balanced(Put(m, f, Next(cur, g.NewShift())), Skipped(ph, ph.Of(!ph.first).done + c), a)
  {
    hide Shape, Balanced, Skipped, Memory.Is;
    AdjacentFrontiers(g, m, ph);
    SkipIndices(m, ph, f, cur, c);
    hide Phase.Has, Strand.Rest, SkipsTo;
    var j := ph.Of(!ph.first).done + c;
    SkipBalanced(m, ph, a, j, Put(m, f, Next(cur, g.NewShift())), Skipped(ph, j));
  }

  /** Where the skip goes, in terms of the strands. */
  lemma SkipIndices(m: Memory, ph: Phase, f: nat, cur: nat, c: nat)
    requires SkipsTo(m, ph, f, cur, c)
    requires var q := ph.Of(!ph.first);
             && (forall i :: 0 <= i <= q.done ==> m.Is(q.path[i], !ph.first))
             && (forall s: nat :: ph.Has(s) ==> s < |m.kind| == |m.chain| && !m.kind[s].Foreign?)
             && ph.join <= |ph.Of(ph.first).path| && ph.Of(ph.first).path[ph.join..] == q.path[q.done..]
    ensures var p, q := ph.Of(ph.first), ph.Of(!ph.first);
            var j := q.done + c;
            && p.done < |p.path| && p.path[p.done] == f && f < |m.chain|
            && q.done < j < |q.path| && q.path[j] == cur && m.Is(q.path[j], ph.first)
            && (forall i :: 0 <= i < j ==> m.Is(q.path[i], !ph.first))
            && (forall i :: q.done <= i < j ==> !m.Is(q.path[i], ph.first))
    ensures var ph' := Skipped(ph, ph.Of(!ph.first).done + c);
            && ph'.Shared? && ph'.first == !ph.first
            && ph'.Of(!ph.first) == ph.Of(!ph.first)
            && ph'.Of(ph.first).path ==
               ph.Of(ph.first).path[..ph.join] + ph.Of(!ph.first).path[ph.Of(!ph.first).done + c..]
            && ph'.Of(ph.first).Rest() == ph.Of(!ph.first).Rest()[c..]
            && forall s: nat :: ph'.Has(s) <==> ph.Has(s)
  {
    var p, q := ph.Of(ph.first), ph.Of(!ph.first);
    var j := q.done + c;
    assert forall i :: q.done <= i < |q.path| ==> q.path[i] == q.Rest()[i - q.done];
    assert p.path[p.done] == p.Rest()[0] == f;
    assert ph.Has(f);
    var ph' := Skipped(ph, j);
    SkippedHas(ph, j);
  }

  lemma SkippedHas(ph: Phase, j: nat)
    requires ph.Shared? && ph.join <= |ph.Of(ph.first).path|
    requires ph.Of(!ph.first).done <= j <= |ph.Of(!ph.first).path|
    requires ph.Of(ph.first).path[ph.join..] == ph.Of(!ph.first).path[ph.Of(!ph.first).done..]
    ensures forall s: nat :: Skipped(ph, j).Has(s) <==> ph.Has(s)
  {
    var p, q := ph.Of(ph.first).path, ph.Of(!ph.first).path;
    var ph' := Skipped(ph, j);
    forall s: nat
      ensures ph'.Has(s) <==> ph.Has(s)
    {
      assert p == p[..ph.join] + p[ph.join..];
      assert s in p <==> s in p[..ph.join] || s in p[ph.join..];
      assert s in p[ph.join..] ==> s in q;
      assert s in q[j..] ==> s in q;
    }
  }

  /** All that the store of the first chain's new tail needs and gives. */
  lemma SeverMove(g: Geometry, m: Memory, ph: Phase, a: Account, f: nat) returns (ph': Phase)
    requires Shape(g, m, ph) && Balanced(m, ph, a) && Adjacent(ph, f)
    requires var left := ph.Of(!ph.first).Rest();
             forall i :: 0 <= i < |left| ==> m.Is(left[i], !ph.first)
    ensures f < |m.chain| && !ph'.Unsplit?
    ensures var l := End(g.HomeOf(ph.first), g.NewShift());
            Evolves(g, Moment(m, ph), Moment(Put(m, f, l), ph')) && Balanced(Put(m, f, l), ph', a)
    ensures forall s: nat :: ph'.Has(s) ==> ph.Has(s)
    ensures ph'.Separate? && ph'.Of(ph.first).Finished()
    ensures ph'.Of(!ph.first).Rest() == ph.Of(!ph.first).Rest()
  {
    AdjacentFrontiers(g, m, ph);
    hide Shape, Follows, Balanced, Recorded;
    var p, q := ph.Of(ph.first), ph.Of(!ph.first);
    assert forall i :: q.done <= i < |q.path| ==> q.path[i] == q.Rest()[i - q.done];
    assert p.path[p.done] == p.Rest()[0] == f;
    assert ph.Has(f);
    SeverStep(g, m, ph);
    ph' := Severed(ph);
    assert p.path[..ph.join] + q.path[|q.path|..] == p.path[..ph.join];
    SkipBalanced(m, ph, a, |q.path|, Put(m, f, End(g.HomeOf(ph.first), g.NewShift())), ph');
  }

  /** The first entries of each kind on a chain, and where the second kind starts. */
  ghost predicate Scanned(m: Memory, p: seq<nat>, first: bool, k: nat) {
    && k <= |p|
    && (forall i :: 0 <= i < k ==> m.Is(p[i], first))
    && (k < |p| ==> k > 0 && m.Is(p[k], !first))
  }

  /** All that the head update that publishes the split needs and gives. */
  lemma PublishMove(g: Geometry, m: Memory, p: seq<nat>, first: bool, k: nat, m': Memory)
    requires Shape(g, m, Unsplit(p)) && Scanned(m, p, first, k)
    requires m'.chain == m.chain && m'.kind == m.kind && m'.oldHead.Head? && m'.growHead.Head?
    requires m'.HeadOf(first).link == (if p == [] then End(g.HomeOf(first), g.NewShift())
                                       else Next(p[0], g.NewShift()))
    requires m'.HeadOf(!first).link == (if k == |p| then End(g.HomeOf(!first), g.NewShift())
                                        else Next(p[k], g.NewShift()))
    ensures Evolves(g, Moment(m, Unsplit(p)), Moment(m', Published(first, p, k)))
    ensures Balanced(m', Published(first, p, k), Account(p, [], []))
  {
    PublishStep(g, m, p, first, k, m');
    hide Shape, Follows;
    PublishBalanced(m', p, first, k);
  }

  /** The heads written for the frontiers found are the ones that publish the split. */
  lemma PublishLinks(g: Geometry, m: Memory, p: seq<nat>, zero: Option<nat>, one: Option<nat>, first: bool, k: nat,
                     h: Head)
    requires Found(p, zero, one, first, k)
    requires m.growHead == if one.Some? then Head(Next(one.value, g.NewShift()), true)
              else Head(End(g.growHome, g.NewShift()), false)
    requires h == if zero.Some? then Head(Next(zero.value, g.NewShift()), true)
              else Head(End(g.oldHome, g.NewShift()), false)
    ensures var m' := m.(oldHead := h);
            && m'.chain == m.chain && m'.kind == m.kind && m'.oldHead.Head? && m'.growHead.Head?
            && m'.HeadOf(first).link == (if p == [] then End(g.HomeOf(first), g.NewShift())
                      else Next(p[0], g.NewShift()))
            && m'.HeadOf(!first).link == (if k == |p| then End(g.HomeOf(!first), g.NewShift())
                      else Next(p[k], g.NewShift()))
  {
  }

  lemma PublishFacts(g: Geometry, m: Memory, p: seq<nat>, zero: Option<nat>, one: Option<nat>, first: bool, k: nat,
                     h: Head)
    requires Shape(g, m, Unsplit(p)) && Found(p, zero, one, first, k) && Scanned(m, p, first, k)
    requires m.growHead == if one.Some? then Head(Next(one.value, g.NewShift()), true)
              else Head(End(g.growHome, g.NewShift()), false)
    requires h == if zero.Some? then Head(Next(zero.value, g.NewShift()), true)
              else Head(End(g.oldHome, g.NewShift()), false)
    ensures k <= |p|
    ensures Evolves(g, Moment(m, Unsplit(p)), Moment(m.(oldHead := h), Published(first, p, k)))
    ensures Balanced(m.(oldHead := h), Published(first, p, k), Account(p, [], []))
    ensures forall s: nat :: Published(first, p, k).Has(s) ==> Unsplit(p).Has(s)
  {
    PublishLinks(g, m, p, zero, one, first, k, h);
    PublishedHas(p, first, k);
    hide Shape, Evolves, Balanced, Published, Scanned, Memory.HeadOf;
    PublishMove(g, m, p, first, k, m.(oldHead := h));
  }

  lemma PublishBalanced(m: Memory, p: seq<nat>, first: bool, k: nat)
    requires Scanned(m, p, first, k)
    ensures Balanced(m, Published(first, p, k), Account(p, [], []))
  {
    hide Picks;
    assert p == p[..k] + p[k..];
    PicksConcat(m, !first, p[..k], p[k..]);
    PicksNone(m, !first, p[..k]);
    if k == |p| { assert p[k..] == []; }
  }

  lemma PublishedHas(p: seq<nat>, first: bool, k: nat)
    requires k <= |p|
    ensures !Published(first, p, k).Unsplit?
    ensures forall s: nat :: Published(first, p, k).Has(s) ==> s in p
  {
  }

  /** Head words other than the links of the phase do not matter to it: lock bits, an unpublished head. */
  lemma HeadStep(g: Geometry, m: Memory, ph: Phase, a: Account, m': Memory)
    requires Shape(g, m, ph) && Balanced(m, ph, a)
    requires m'.chain == m.chain && m'.kind == m.kind && m'.oldHead.Head? && m'.oldHead.link == m.oldHead.link
    requires !ph.Unsplit? ==> m'.growHead.Head? && m'.growHead.link == m.growHead.link
    ensures Evolves(g, Moment(m, ph), Moment(m', ph)) && Balanced(m', ph, a)
  {
    HeadShape(g, m, ph, m');
    HeadFollows(g, m, ph, m');
    hide Shape, Follows;
    if !ph.Unsplit? { SamePathsBalanced(m, ph, a, m', ph); }
  }

  lemma HeadShape(g: Geometry, m: Memory, ph: Phase, m': Memory)
    requires Shape(g, m, ph)
    requires m'.chain == m.chain && m'.kind == m.kind && m'.oldHead.Head? && m'.oldHead.link == m.oldHead.link
    requires !ph.Unsplit? ==> m'.growHead.Head? && m'.growHead.link == m.growHead.link
    ensures Shape(g, m', ph)
  {
  }

  lemma HeadFollows(g: Geometry, m: Memory, ph: Phase, m': Memory)
    requires Shape(g, m, ph) && m'.chain == m.chain && m'.kind == m.kind
    ensures Follows(g, Moment(m, ph), Moment(m', ph))
  {
    ShapeInRange(g, m, ph);
    hide Shape;
  }

  function HeadLink(home: nat, shift: nat, p: seq<nat>): Link {
    if p == [] then End(home, shift) else Next(p[0], shift)
  }

  ghost predicate Suffix(p: seq<nat>, q: seq<nat>) {
    |p| <= |q| && q[|q| - |p|..] == p
  }

  lemma SuffixSelf(p: seq<nat>)
    ensures Suffix(p, p)
  {
  }

  /** The frontiers found on a chain `p`: its first entry and the first entry of the other kind. */
  ghost predicate Found(p: seq<nat>, zero: Option<nat>, one: Option<nat>, first: bool, k: nat)
  {
    && k <= |p|
    && (if first then one else zero) == (if p == [] then None else Some(p[0]))
    && (if first then zero else one) == (if k == |p| then None else Some(p[k]))
  }

  /** The chain now, if its head is still the one read when the chain was `p`. */
  lemma SameHeadSameChain(g: Geometry, m: Memory, path: seq<nat>, p: seq<nat>)
    requires Shape(g, m, Unsplit(path)) && Suffix(p, path)
    requires m.oldHead.link == HeadLink(g.oldHome, g.shift, p)
    ensures path == p
  {
    if p != [] { assert p[0] == path[|path| - |p|]; }
  }

  /** The range that `UpgradeShiftsOnRange` still has to work on. */
  ghost predicate Upgradable(g: Geometry, ph: Phase, one: bool, frontier: nat, stop: Link)
  {
    && !ph.Unsplit?
    && ph.Of(one).Rest() != [] && frontier == ph.Of(one).Rest()[0]
    && if stop.Next? then
         && ph.Shared? && ph.first == one && ph.Of(!one).Rest() != []
         && stop == Next(ph.Of(!one).Rest()[0], g.shift)
       else
         ph.Separate? && stop == End(g.HomeOf(one), g.NewShift())
  }

  lemma ReadyToUpgrade(g: Geometry, ph: Phase, one: bool, f: nat, of: nat)
    requires ph.Shared? && ph.first == one && ph.Of(one).Rest() != [] && ph.Of(!one).Rest() != []
    requires ph.Of(one).Rest()[0] == f && ph.Of(!one).Rest()[0] == of
    ensures Upgradable(g, ph, one, f, Next(of, g.shift))
  {
  }

  /** Only insertions and, on chain `one`, upgrades of links have happened. */
  ghost predicate UpgradedFrom(a: Phase, one: bool, b: Phase) {
    && !a.Unsplit? && a.Shared? == b.Shared? && a.Separate? == b.Separate?
    && a.Of(!one).Rest() == b.Of(!one).Rest()
    && (a.Shared? ==> a.first == b.first)
  }

  lemma InsertUndisturbed(ph: Phase, one: bool, x: nat)
    requires !ph.Unsplit? ==> ph.zero.done <= |ph.zero.path| && ph.one.done <= |ph.one.path|
    ensures Undisturbed(ph, AfterInsert(ph, one, x))
    ensures forall s: nat :: AfterInsert(ph, one, x).Has(s) ==> ph.Has(s) || s == x
  {
  }

  lemma HeadsShowPhase(g: Geometry, m: Memory, ph: Phase)
    requires Shape(g, m, ph)
    ensures m.oldHead.Head? && m.oldHead.link.shift == (if ph.Unsplit? then g.shift else g.NewShift())
    ensures !ph.Unsplit? ==> m.growHead.Head? && m.growHead.link.shift == g.NewShift()
    ensures !ph.Unsplit? ==> ph.zero.done <= |ph.zero.path| && ph.one.done <= |ph.one.path|
  {
  }

  /** All that the head update of an insertion needs and gives. */
  lemma InsertMove(g: Geometry, m: Memory, ph: Phase, a: Account, x: nat, kind: Kind) returns (one: bool)
    requires Shape(g, m, ph) && Balanced(m, ph, a) && x < |m.chain| && !ph.Has(x) && !kind.Foreign?
    ensures m.oldHead.Head? && one == (m.oldHead.link.shift == g.NewShift() && kind.One?) && m.HeadOf(one).Head?
    ensures ph.Unsplit? <==> m.oldHead.link.shift != g.NewShift()
    ensures var m', ph' := Inserted(m, one, x, kind, m.HeadOf(one).link.shift), AfterInsert(ph, one, x);
            && Evolves(g, Moment(m, ph), Moment(m', ph'))
            && Balanced(m', ph', if ph.Unsplit? then a else a.Add(one, x))
            && Undisturbed(ph, ph')
            && forall s: nat :: ph'.Has(s) ==> ph.Has(s) || s == x
  {
    one := !ph.Unsplit? && kind.One?;
    HeadsShowPhase(g, m, ph);
    ShapeInRange(g, m, ph);
    InsertStep(g, m, ph, one, x, kind);
    InsertBalanced(m, ph, a, one, x, kind);
    InsertUndisturbed(ph, one, x);
  }

  ghost predicate StepAt(g: Geometry, trace: seq<Moment>, i: nat) {
    i + 1 < |trace| ==> Evolves(g, trace[i], trace[i + 1])
  }

  /** Moments that follow each other by single stores, from the first one to the last one. */
  ghost predicate Recorded(g: Geometry, start: Moment, trace: seq<Moment>, last: Moment) {
    && trace != [] && trace[0] == start && trace[|trace| - 1] == last
    && forall i: nat {:trigger StepAt(g, trace, i)} :: StepAt(g, trace, i)
  }

  lemma RecordNext(g: Geometry, start: Moment, trace: seq<Moment>, last: Moment, next: Moment)
    requires Recorded(g, start, trace, last) && Evolves(g, last, next)
    ensures Recorded(g, start, trace + [next], next)
  {
    forall i: nat ensures StepAt(g, trace + [next], i) {
      assert StepAt(g, trace, i);
      if i + 1 < |trace| { assert (trace + [next])[i] == trace[i] && (trace + [next])[i + 1] == trace[i + 1]; }
    }
  }

  lemma SharedRead(g: Geometry, m: Memory, ph: Phase, c: nat)
    requires Shape(g, m, ph) && ph.Shared? && c < |ph.Of(!ph.first).Rest()|
    ensures var left := ph.Of(!ph.first).Rest();
            && ph.Has(left[c]) && left[c] < |m.chain| == |m.kind|
            && m.chain[left[c]] == OldLink(g, left, c) && !m.kind[left[c]].Foreign?
            && (c == 0 ==> m.Is(left[c], !ph.first))
  {
    var q := ph.Of(!ph.first);
    StrandTail(g, m, !ph.first, q, q.done);
    assert m.chain[q.Rest()[c]] == OldLink(g, q.Rest(), c);
    assert q.Rest()[c] == q.path[q.done + c];
  }

  lemma NothingLeft(g: Geometry, m: Memory, ph: Phase, one: bool)
    requires Shape(g, m, ph) && !ph.Unsplit? && ph.Of(one).Rest() == []
    ensures ph.Of(one).Finished()
  {
  }

  /** At every recorded moment each entry is reached from its home, and it is never dropped again. */
  ghost predicate AlwaysServed(g: Geometry, trace: seq<Moment>) {
    && (forall i, s: nat :: 0 <= i < |trace| && trace[i].phase.Has(s) ==> Reached(g, trace[i].mem, s))
    && (forall i, j, s: nat :: 0 <= i <= j < |trace| && trace[i].phase.Has(s) ==> trace[j].phase.Has(s))
  }

  lemma {:induction false} NeverDropped(g: Geometry, start: Moment, trace: seq<Moment>, last: Moment, i: nat, j: nat,
                          s: nat)
    requires Recorded(g, start, trace, last) && i <= j < |trace| && trace[i].phase.Has(s)
    ensures trace[j].phase.Has(s)
    decreases j - i
  {
    if i < j {
      hide Shape;
      NeverDropped(g, start, trace, last, i, j - 1, s);
      assert StepAt(g, trace, j - 1);
    }
  }

  lemma RecordIsServed(g: Geometry, start: Moment, trace: seq<Moment>, last: Moment)
    requires g.Valid() && Recorded(g, start, trace, last) && Shape(g, last.mem, last.phase)
    ensures AlwaysServed(g, trace)
  {
    hide Shape, Phase.Has, Reached;
    forall i, s: nat | 0 <= i < |trace| && trace[i].phase.Has(s) ensures Reached(g, trace[i].mem, s) {
      if i + 1 < |trace| { assert StepAt(g, trace, i); }
      ShapeServesLookup(g, trace[i].mem, trace[i].phase, s);
    }
    forall i, j, s: nat | 0 <= i <= j < |trace| && trace[i].phase.Has(s) ensures trace[j].phase.Has(s) {
      NeverDropped(g, start, trace, last, i, j, s);
    }
  }

  /** With both strands finished, the chains are what the account says. */
  lemma FinishedIsPartition(g: Geometry, m: Memory, ph: Phase, a: Account)
    requires Shape(g, m, ph) && Balanced(m, ph, a) && ph.Separate?
    ensures ph.zero.path == a.zero + Picks(m, false, a.origin)
    ensures ph.one.path == a.one + Picks(m, true, a.origin)
  {
    PicksAll(m, false, ph.zero.path);
    PicksAll(m, true, ph.one.path);
  }

  /** With both strands finished, every link has the new shift. */
  lemma FinishedIsNew(g: Geometry, m: Memory, ph: Phase)
    requires Shape(g, m, ph)
    ensures ph.Separate? && ph.zero.Finished() && ph.one.Finished() ==>
              forall s: nat :: ph.Has(s) ==> s < |m.chain| && m.chain[s].shift == g.NewShift()
  {
    if ph.Separate? && ph.zero.Finished() && ph.one.Finished() {
      forall s: nat | ph.Has(s)
        ensures s < |m.chain| && m.chain[s].shift == g.NewShift()
      {
        var one := s in ph.one.path;
        var i :| 0 <= i < |ph.Of(one).path| && ph.Of(one).path[i] == s;
        assert m.chain[ph.Of(one).path[i]] == LinkAt(g, one, ph.Of(one), i);
      }
    }
  }

  class AutoTable {
    const g: Geometry
    var oldHead: Head
    var growHead: Head
    const chain: array<Link>
    const hash: array<nat>
    /** false for slots in the Empty state, which an insertion may take */
    const used: array<bool>
    /** how many insertions other threads are still going to make: any number */
    var pending: nat

    ghost var phase: Phase
    /** every moment so far, from the first one on */
    ghost const start: Moment
    ghost var trace: seq<Moment>
    ghost var account: Account
    /** the rewrite locks this thread holds */
    ghost var holdsZero: bool
    ghost var holdsOne: bool

    ghost function Mem(): Memory
      reads this, chain, hash
    {
      Memory(oldHead, growHead, chain[..], Kinds(g, hash[..]))
    }

    ghost predicate Inv()
      reads this, chain, hash, used
    {
      && g.Valid()
      && chain.Length == hash.Length == used.Length
      && Shape(g, Mem(), phase)
      && Balanced(Mem(), phase, account)
      && (forall s: nat :: phase.Has(s) ==> s < used.Length && used[s])
      && (holdsZero ==> oldHead.Head? && oldHead.link.Next? && oldHead.locked)
      && (holdsOne ==> growHead.Head? && growHead.link.Next? && growHead.locked)
      && (oldHead.Head? && oldHead.link.End? ==> !oldHead.locked)
      && (!phase.Unsplit? ==> LocksAreOwn())
      && Recorded(g, start, trace, Moment(Mem(), phase))
    }

    /** Nobody but this thread has locked a head. */
    ghost predicate LocksAreOwn()
      reads this
    {
      && oldHead.Head? && (oldHead.locked <==> holdsZero)
      && growHead.Head? && (growHead.locked <==> holdsOne)
    }

    /** A home with an empty chain, in a table of empty slots; the grow home is not yet in use. */
    constructor (g: Geometry, size: nat, pending: nat)
      requires g.Valid()
      ensures Inv() && phase == Unsplit([]) && growHead.Unused? && !holdsZero && !holdsOne
      ensures this.g == g && chain.Length == size && this.pending == pending
      ensures forall i :: 0 <= i < size ==> !used[i]
    {
      this.g, this.pending := g, pending;
      oldHead, growHead := Head(End(g.oldHome, g.shift), false), Unused;
      var links, hashes, flags := new Link[size](_ => End(0, 0)), new nat[size](_ => 0), new bool[size](_ => false);
      chain, hash, used := links, hashes, flags;
      phase, account, holdsZero, holdsOne := Unsplit([]), Account([], [], []), false, false;
      start := Moment(Memory(Head(End(g.oldHome, g.shift), false), Unused, links[..], Kinds(g, hashes[..])),
                Unsplit([]));
      trace := [Moment(Memory(Head(End(g.oldHome, g.shift), false), Unused, links[..], Kinds(g, hashes[..])),
                Unsplit([]))];
    }

    /** Entries that were stored are still stored, with the same hash. */
    ghost predicate Keeps(wasUsed: seq<bool>, wasHash: seq<nat>)
      reads hash, used
    {
      && |wasUsed| == used.Length && |wasHash| == hash.Length
      && forall s :: 0 <= s < |wasUsed| && s < |wasHash| && wasUsed[s] ==> used[s] && hash[s] == wasHash[s]
    }

    /** One atomic store to a chain pointer by the splitter. */
    method StoreChain(slot: nat, l: Link, ghost ph: Phase)
      requires Inv() && slot < chain.Length && !phase.Unsplit? && !ph.Unsplit?
      requires Evolves(g, Moment(Mem(), phase), Moment(Put(Mem(), slot, l), ph))
      requires Balanced(Put(Mem(), slot, l), ph, account)
      requires forall s: nat :: ph.Has(s) ==> phase.Has(s)
      modifies this`phase, this`trace, chain
      ensures Inv() && phase == ph && Mem() == Put(old(Mem()), slot, l)
    {
      hide Shape, Follows, Balanced, Recorded;
      RecordNext(g, start, trace, Moment(Mem(), phase), Moment(Put(Mem(), slot, l), ph));
      chain[slot] := l;
      phase := ph;
      assert Mem() == Put(old(Mem()), slot, l);
      trace := trace + [Moment(Mem(), phase)];
    }

    // -------------------------------------------------------------- other threads

    /** `DoInsert` of an entry of this home into the empty slot `x`: its chain pointer, then the head. */
    method Insert(x: nat, h: nat)
      requires Inv() && x < used.Length && !used[x] && !g.KindOf(h).Foreign?
      modifies this`oldHead, this`growHead, this`phase, this`trace, this`account, chain, hash, used
      ensures account.origin == old(account).origin
      ensures Inv() && Undisturbed(old(phase), phase)
      ensures used[x] && hash[x] == h && phase == AfterInsert(old(phase), !old(phase).Unsplit? && g.KindOf(h).One?, x)
      ensures Keeps(old(used[..]), old(hash[..]))
      ensures phase.Unsplit? == old(phase).Unsplit? && (phase.Unsplit? ==> growHead == old(growHead))
    {
      hide Shape, Evolves, Balanced, Undisturbed, AfterInsert, Phase.Has, Geometry.KindOf, Recorded;
      ghost var m0 := Mem();
      var kind := g.KindOf(h);
      ghost var b := InsertMove(g, m0, phase, account, x, kind);
      var split := oldHead.link.shift == g.NewShift();
      var one := split && kind.One?;
      var head := if one then growHead else oldHead;
      hash[x] := h;
      used[x] := true;
      chain[x] := head.link;
      var head' := Head(Next(x, head.link.shift), head.link.Next? && head.locked);
      if one { growHead := head'; } else { oldHead := head'; }
      account := if split then account.Add(one, x) else account;
      RecordNext(g, start, trace, Moment(m0, phase), Moment(Inserted(m0, one, x, kind, head.link.shift),
                AfterInsert(phase, one, x)));
      phase := AfterInsert(phase, one, x);
      assert Mem() == Inserted(m0, one, x, kind, head.link.shift);
      trace := trace + [Moment(Mem(), phase)];
    }

    /** Other threads run: any number of insertions, at any heads. */
    method Interfere()
      requires Inv()
      modifies this`oldHead, this`growHead, this`phase, this`trace, this`account, this`pending, chain, hash, used
      ensures account.origin == old(account).origin
      ensures Inv() && Undisturbed(old(phase), phase)
      ensures Keeps(old(used[..]), old(hash[..]))
      ensures phase.Unsplit? == old(phase).Unsplit? && (phase.Unsplit? ==> growHead == old(growHead))
      ensures pending < old(pending) || (pending == old(pending) && oldHead == old(oldHead))
    {
      hide Shape, Evolves, Balanced, Recorded, Undisturbed;
      assert Undisturbed(phase, phase) by { Itself(phase); }
      while pending > 0
        invariant account.origin == old(account).origin
        invariant Inv() && Undisturbed(old(phase), phase)
        invariant Keeps(old(used[..]), old(hash[..]))
        invariant phase.Unsplit? == old(phase).Unsplit? && (phase.Unsplit? ==> growHead == old(growHead))
        invariant pending < old(pending) || (pending == old(pending) && oldHead == old(oldHead))
      {
        var go: bool, x: nat, h: nat := *, *, *;
        if !go { break; }
        pending := pending - 1;
        if x < used.Length && !used[x] && !g.KindOf(h).Foreign? {
          ghost var ph := phase;
          Insert(x, h);
          UndisturbedTransitive(old(phase), ph, phase);
        }
      }
    }

    lemma Itself(ph: Phase)
      ensures Undisturbed(ph, ph)
    {
    }

    // -------------------------------------------------------------- the splitter

    /** What a load of the chain pointer at a frontier gives. */
    lemma FrontierRead(one: bool)
      requires Inv() && !phase.Unsplit? && phase.Of(one).Rest() != []
      ensures var p := phase.Of(one);
              && p.Rest()[0] < chain.Length
              && (chain[p.Rest()[0]].Next? ==> chain[p.Rest()[0]].shift == g.shift)
              && (chain[p.Rest()[0]].End? ==> chain[p.Rest()[0]].shift == g.shift && |p.Rest()| == 1)
      ensures phase.Shared? && phase.first == one ==>
                && phase.Of(!one).Rest() != []
                && chain[phase.Of(one).Rest()[0]].Next?
                && (chain[phase.Of(one).Rest()[0]] == Next(phase.Of(!one).Rest()[0], g.shift)
                    <==> phase.Of(one).done + 1 == phase.join)
    {
      FrontierLink(g, Mem(), phase, one);
      assert chain[phase.Of(one).Rest()[0]] == Mem().chain[phase.Of(one).Rest()[0]];
    }

    /** The frontier of chain `one` gets the new tail of that chain. */
    method StoreTail(one: bool, f: nat)
      requires Inv() && Upgradable(g, phase, one, f, End(g.HomeOf(one), g.NewShift())) && |phase.Of(one).Rest()| == 1
      modifies this`phase, this`trace, chain
      ensures Inv() && UpgradedFrom(old(phase), one, phase)
      ensures phase.Of(one).Finished()
    {
      hide Shape, Follows, Balanced, Recorded;
      FrontierLink(g, Mem(), phase, one);
      ghost var p := phase.Of(one);
      ghost var ph := With(phase, one, p.(done := p.done + 1));
      FinishStep(g, Mem(), phase, one);
      SamePathsBalanced(Mem(), phase, account, Put(Mem(), f, End(g.HomeOf(one), g.NewShift())), ph);
      StoreChain(f, End(g.HomeOf(one), g.NewShift()), ph);
    }

    /** The link at the frontier of chain `one` gets the new shift, and the frontier moves along it. */
    method UpgradeLink(one: bool, f: nat, next: Link, ghost stop: Link)
      requires Inv() && Upgradable(g, phase, one, f, stop) && next.Next? && f < chain.Length && chain[f] == next != stop
      modifies this`phase, this`trace, chain
      ensures Inv() && UpgradedFrom(old(phase), one, phase)
      ensures Upgradable(g, phase, one, next.slot, stop)
      ensures |phase.Of(one).Rest()| < |old(phase).Of(one).Rest()|
    {
      hide Shape, Follows, Balanced, Recorded;
      FrontierLink(g, Mem(), phase, one);
      ghost var p := phase.Of(one);
      ghost var ph := With(phase, one, p.(done := p.done + 1));
      assert next == Mem().chain[f];
      PromoteStep(g, Mem(), phase, one);
      SamePathsBalanced(Mem(), phase, account, Put(Mem(), f, Next(next.slot, next.shift + 1)), ph);
      StoreChain(f, Next(next.slot, next.shift + 1), ph);
    }

    /** One round of the loop below: `more` says whether it goes on, from `rest`. */
    method UpgradeRound(one: bool, f: nat, stop: Link) returns (more: bool, rest: Option<nat>)
      requires Inv() && Upgradable(g, phase, one, f, stop)
      modifies this`oldHead, this`growHead, this`phase, this`trace, this`account, this`pending, chain, hash, used
      ensures account.origin == old(account).origin
      ensures Inv() && UpgradedFrom(old(phase), one, phase)
      ensures Keeps(old(used[..]), old(hash[..]))
      ensures rest.Some? ==> Upgradable(g, phase, one, rest.value, stop)
      ensures more ==> rest.Some? && |phase.Of(one).Rest()| < |old(phase).Of(one).Rest()|
      ensures !more && stop.Next? ==> rest.Some? && phase.Of(one).done + 1 == phase.join
      ensures !more && stop.End? ==> rest.None? && phase.Of(one).Finished()
    {
      hide Inv;
      Interfere();
      FrontierRead(one);
      var next := chain[f];
      if next == stop {
        more, rest := false, Some(f);
      } else if next.End? {
        StoreTail(one, f);
        more, rest := false, None;
      } else {
        UpgradeLink(one, f, next, stop);
        more, rest := true, Some(next.slot);
      }
    }

    /**
     Gives the links from `frontier` on the new shift. Stops before the link `stopBeforeOrNewTail`,
     or goes to the end of the chain and makes it the new tail.
     */
    method UpgradeShiftsOnRange(one: bool, frontier: nat, stopBeforeOrNewTail: Link) returns (rest: Option<nat>)
      requires Inv() && Upgradable(g, phase, one, frontier, stopBeforeOrNewTail)
      modifies this`oldHead, this`growHead, this`phase, this`trace, this`account, this`pending, chain, hash, used
      ensures account.origin == old(account).origin
      ensures Inv() && UpgradedFrom(old(phase), one, phase)
      ensures Keeps(old(used[..]), old(hash[..]))
      ensures !phase.Unsplit? && phase.Of(!one).Rest() == old(phase).Of(!one).Rest()
      ensures stopBeforeOrNewTail.Next? ==> rest.Some? && phase.Shared? && phase.Of(one).done + 1 == phase.join
                                            && Upgradable(g, phase, one, rest.value, stopBeforeOrNewTail)
      ensures stopBeforeOrNewTail.End? ==> rest.None? && phase.Of(one).Finished()
    {
      hide Inv;
      rest := Some(frontier);
      var more := true;
      while more
        invariant account.origin == old(account).origin
        invariant Inv() && UpgradedFrom(old(phase), one, phase)
        invariant Keeps(old(used[..]), old(hash[..]))
        invariant rest.Some? ==> Upgradable(g, phase, one, rest.value, stopBeforeOrNewTail)
        invariant more ==> rest.Some?
        invariant !more && stopBeforeOrNewTail.Next? ==>
                  rest.Some? && phase.Shared? && phase.Of(one).done + 1 == phase.join
        invariant !more && stopBeforeOrNewTail.End? ==> rest.None? && phase.Of(one).Finished()
        decreases more, |phase.Of(one).Rest()|
      {
        more, rest := UpgradeRound(one, rest.value, stopBeforeOrNewTail);
      }
    }

    /** The first chain's frontier `f` skips to entry number `c` of what is left, the next of its own. */
    method SkipTo(ghost first: bool, f: nat, cur: nat, ghost c: nat)
      requires Inv() && SkipsTo(Mem(), phase, f, cur, c) && phase.first == first
      modifies this`phase, this`trace, chain
      ensures Inv()
      ensures phase.Shared? && phase.first == !first
      ensures phase.Of(!first).Rest() == old(phase).Of(!first).Rest()
      ensures phase.Of(first).Rest() == old(phase).Of(!first).Rest()[c..]
    {
      ghost var ph := SkipMove(g, Mem(), phase, account, f, cur, c);
      hide Shape, Follows, Balanced, Recorded, SkipsTo, Strand.Rest;
      StoreChain(f, Next(cur, g.NewShift()), ph);
    }

    /** The first chain's frontier `f` gets its new tail, and the chains have nothing in common any more. */
    method StoreFirstTail(f: nat, first: bool)
      requires Inv() && Adjacent(phase, f) && first == phase.first
      requires var left := phase.Of(!phase.first).Rest();
               forall i :: 0 <= i < |left| ==> Mem().Is(left[i], !phase.first)
      modifies this`phase, this`trace, chain
      ensures Inv()
      ensures phase.Separate? && phase.Of(first).Finished()
      ensures phase.Of(!first).Rest() == old(phase).Of(!first).Rest()
    {
      var l := End(g.HomeOf(first), g.NewShift());
      ghost var ph := SeverMove(g, Mem(), phase, account, f);
      hide Shape, Follows, Balanced, Recorded;
      StoreChain(f, l, ph);
    }

    /** A store to the old head that changes only its lock bit. */
    method StoreOldLock(locked: bool, ghost held: bool)
      requires Inv() && oldHead.Head? && oldHead.link.Next? && (held ==> locked)
      requires !phase.Unsplit? ==> held == locked
      modifies this`oldHead, this`trace, this`holdsZero
      ensures Inv() && holdsZero == held
      ensures oldHead == old(oldHead).(locked := locked)
    {
      hide Shape, Follows, Balanced, Recorded;
      ghost var m' := Mem().(oldHead := oldHead.(locked := locked));
      HeadsShowPhase(g, Mem(), phase);
      HeadStep(g, Mem(), phase, account, m');
      RecordNext(g, start, trace, Moment(Mem(), phase), Moment(m', phase));
      oldHead := oldHead.(locked := locked);
      holdsZero := held;
      assert Mem() == m';
      trace := trace + [Moment(Mem(), phase)];
    }

    /** A store to the grow head: before it is published, or to its lock bit. */
    method StoreGrowHead(h: Head, ghost held: bool)
      requires Inv() && h.Head? && (held ==> h.link.Next? && h.locked)
      requires !phase.Unsplit? ==> growHead.Head? && h.link == growHead.link && held == h.locked
      modifies this`growHead, this`trace, this`holdsOne
      ensures Inv() && holdsOne == held && growHead == h
    {
      hide Shape, Follows, Balanced, Recorded;
      ghost var m' := Mem().(growHead := h);
      HeadsShowPhase(g, Mem(), phase);
      HeadStep(g, Mem(), phase, account, m');
      RecordNext(g, start, trace, Moment(Mem(), phase), Moment(m', phase));
      growHead := h;
      holdsOne := held;
      assert Mem() == m';
      trace := trace + [Moment(Mem(), phase)];
    }

    /** The entry in slot `s` belongs to target chain `one`. */
    ghost predicate Bit(s: nat, one: bool)
      reads hash
    {
      s < hash.Length && g.KindOf(hash[s]) == KindFor(one)
    }

    /** What loads find on a chain that is not yet split. */
    lemma ChainRead(p: seq<nat>, i: nat)
      requires Inv() && phase.Unsplit? && Suffix(p, phase.path) && i < |p|
      ensures g.Valid() && p[i] < chain.Length == hash.Length == used.Length && used[p[i]]
      ensures chain[p[i]] == OldLink(g, p, i) && (Bit(p[i], false) || Bit(p[i], true))
    {
      hide Balanced, Recorded, Geometry.KindOf;
      var j := |phase.path| - |p| + i;
      assert p[i] == phase.path[j];
      if i + 1 < |p| { assert p[i + 1] == phase.path[j + 1]; }
      assert Mem().chain[phase.path[j]] == OldLink(g, phase.path, j);
      assert !Mem().kind[phase.path[j]].Foreign?;
    }

    /** The test of the new hash bit. */
    method OnZeroChain(s: nat) returns (b: bool)
      requires g.Valid() && (Bit(s, false) || Bit(s, true))
      ensures b == Bit(s, false) && !b == Bit(s, true)
    {
      KindDecidesHome(g, hash[s]);
      b := BottomBits(hash[s], g.NewShift()) == g.oldHome;
    }

    /**
     Finds the first entry for each target chain, or scans the whole chain if there is none for one
     of them. `first` is 0 or 1 for the chain of the first entry, -1 if the chain is empty.
     */
    method FindFrontiers(saved: Link, ghost p: seq<nat>)
      returns (zero: Option<nat>, one: Option<nat>, cur: Option<nat>, first: int, ghost k: nat)
      requires Inv() && phase.Unsplit? && Suffix(p, phase.path) && saved == HeadLink(g.oldHome, g.shift, p)
      modifies this`oldHead, this`growHead, this`phase, this`trace, this`account, this`pending, chain, hash, used
      ensures Inv() && phase.Unsplit? && Suffix(p, phase.path)
      ensures pending < old(pending) || (pending == old(pending) && oldHead == old(oldHead))
      ensures first == (if p == [] then -1 else if one == Some(p[0]) then 1 else 0)
      ensures Found(p, zero, one, first == 1, k)
      ensures Bits(p, first == 1, k)
      ensures cur == if k < |p| then Some(p[k]) else None
    {
      hide Inv, Geometry.KindOf;
      zero, one, cur, first, k := None, None, None, -1, |p|;
      var next := saved;
      ghost var i := 0;
      while true
        invariant Inv() && phase.Unsplit? && Suffix(p, phase.path)
        invariant pending < old(pending) || (pending == old(pending) && oldHead == old(oldHead))
        invariant i <= |p| && next == HeadLink(g.oldHome, g.shift, p[i..])
        invariant first == (if i == 0 then -1 else if one.Some? then 1 else 0)
        invariant zero == (if first == 0 then Some(p[0]) else None)
        invariant one == (if first == 1 then Some(p[0]) else None)
        invariant forall j :: 0 <= j < i ==> Bit(p[j], first == 1)
        decreases |p| - i
      {
        if next.End? { cur := None; break; }
        ChainRead(p, i);
        cur := Some(next.slot);
        var isZero := OnZeroChain(next.slot);
        if isZero {
          if zero.None? {
            zero := cur;
            if one.Some? { k := i; break; }
            first := 0;
          }
        } else {
          if one.None? {
            one := cur;
            if zero.Some? { k := i; break; }
            first := 1;
          }
        }
        next := LoadNext(cur.value, p, i, first == 1);
        i := i + 1;
      }
    }

    /** Other threads run, then the chain pointer of entry `i` of the chain `p` is read. */
    method LoadNext(s: nat, ghost p: seq<nat>, ghost i: nat, ghost one: bool) returns (next: Link)
      requires Inv() && phase.Unsplit? && Suffix(p, phase.path) && i < |p| && p[i] == s
      requires forall j :: 0 <= j <= i ==> Bit(p[j], one)
      modifies this`oldHead, this`growHead, this`phase, this`trace, this`account, this`pending, chain, hash, used
      ensures Inv() && phase.Unsplit? && Suffix(p, phase.path)
      ensures pending < old(pending) || (pending == old(pending) && oldHead == old(oldHead))
      ensures next == HeadLink(g.oldHome, g.shift, p[i + 1..])
      ensures forall j :: 0 <= j <= i ==> Bit(p[j], one)
    {
      hide Inv, Geometry.KindOf;
      forall j | 0 <= j <= i ensures p[j] < used.Length == hash.Length && used[p[j]] { ChainRead(p, j); }
      ghost var was := phase;
      Interfere();
      SuffixTransitive(p, was.path, phase.path);
      ChainRead(p, i);
      next := chain[s];
    }

    function GrowHeadFor(one: Option<nat>): Head {
      if one.Some? then Head(Next(one.value, g.NewShift()), true) else Head(End(g.growHome, g.NewShift()), false)
    }

    lemma OldHeadRead()
      requires Inv() && phase.Unsplit?
      ensures oldHead.Head? && oldHead.link == HeadLink(g.oldHome, g.shift, phase.path)
      ensures oldHead.link.End? ==> !oldHead.locked
      ensures holdsZero ==> phase.path != []
      ensures oldHead.link.End? <==> phase.path == []
    {
      hide Balanced, Recorded, Geometry.KindOf;
    }

    /** Another thread that holds the rewrite lock of the old home, for a purge say, gives it up. */
    method HolderReleases()
      requires Inv() && phase.Unsplit? && !holdsZero && oldHead.Head? && oldHead.locked
      modifies this`oldHead, this`trace, this`holdsZero
      ensures Inv() && !holdsZero && oldHead == old(oldHead).(locked := false)
    {
      hide Inv;
      OldHeadRead();
      StoreOldLock(false, false);
    }

    /** `ChainRewriteLock` on the old home: waits for another holder; an empty chain is not locked. */
    method AcquireOldHead() returns (saved: Head, ghost p: seq<nat>)
      requires Inv() && phase.Unsplit? && !holdsZero && !holdsOne
      modifies this`oldHead, this`growHead, this`phase, this`trace, this`account, this`pending, this`holdsZero, chain
      modifies hash, used
      ensures Inv() && phase.Unsplit? && pending <= old(pending)
      ensures Suffix(old(phase).path, phase.path) && p == phase.path
      ensures saved == oldHead && saved.Head? && saved.link == HeadLink(g.oldHome, g.shift, p)
      ensures holdsZero == (p != []) == saved.link.Next? == saved.locked
    {
      hide Inv, Suffix, HeadLink;
      Interfere();
      OldHeadRead();
      while oldHead.locked
        invariant Inv() && phase.Unsplit? && !holdsZero && !holdsOne && pending <= old(pending)
        invariant Suffix(old(phase).path, phase.path) && oldHead.Head?
        decreases oldHead.locked
      {
        HolderReleases();
      }
      ghost var ph := phase;
      Interfere();
      SuffixTransitive(old(phase).path, ph.path, phase.path);
      OldHeadRead();
      if oldHead.link.Next? {
        StoreOldLock(true, true);
      }
      saved, p := oldHead, phase.path;
    }

    /** The store of the old head that publishes the new shift of both heads. */
    method PublishHeads(h: Head, ghost p: seq<nat>, zero: Option<nat>, one: Option<nat>, ghost first: bool,
                        ghost k: nat)
      requires Inv() && phase == Unsplit(p) && Found(p, zero, one, first, k) && Scanned(Mem(), p, first, k)
      requires growHead == GrowHeadFor(one)
      requires h == if zero.Some? then Head(Next(zero.value, g.NewShift()), true)
                else Head(End(g.oldHome, g.NewShift()), false)
      modifies this`oldHead, this`phase, this`trace, this`account, this`holdsZero, this`holdsOne
      ensures Inv() && phase == Published(first, p, k) && account.origin == p
      ensures holdsZero == zero.Some? && holdsOne == one.Some?
    {
      hide Shape, Follows, Balanced, Recorded, Published, Geometry.KindOf, Found, Scanned, Phase.Has;
      ghost var m' := Mem().(oldHead := h);
      PublishFacts(g, Mem(), p, zero, one, first, k, h);
      RecordNext(g, start, trace, Moment(Mem(), phase), Moment(m', Published(first, p, k)));
      oldHead := h;
      phase, account := Published(first, p, k), Account(p, [], []);
      holdsZero, holdsOne := zero.Some?, one.Some?;
      assert Mem() == m';
      trace := trace + [Moment(Mem(), phase)];
    }

    lemma BitsAreKinds(p: seq<nat>, first: bool, k: nat)
      requires Bits(p, first, k)
      ensures Scanned(Mem(), p, first, k)
    {
      hide Geometry.KindOf;
    }

    /** The new hash bits of a chain `p`: `first` for the entries before `k`, then the other for entry `k`. */
    ghost predicate Bits(p: seq<nat>, first: bool, k: nat)
      reads hash
    {
      && k <= |p|
      && (forall j :: 0 <= j < k ==> Bit(p[j], first))
      && (k < |p| ==> k > 0 && Bit(p[k], !first))
    }

    /** Other threads run; the chain `p` is still there. */
    method InterfereBefore(ghost p: seq<nat>, ghost first: bool, ghost k: nat)
      requires Inv() && phase.Unsplit? && Suffix(p, phase.path) && Bits(p, first, k)
      modifies this`oldHead, this`growHead, this`phase, this`trace, this`account, this`pending, chain, hash, used
      ensures Inv() && phase.Unsplit? && Suffix(p, phase.path) && Bits(p, first, k)
      ensures growHead == old(growHead)
      ensures pending < old(pending) || (pending == old(pending) && oldHead == old(oldHead))
    {
      hide Inv, Geometry.KindOf;
      forall j | 0 <= j < |p| ensures p[j] < used.Length == hash.Length && used[p[j]] { ChainRead(p, j); }
      ghost var ph := phase;
      Interfere();
      SuffixTransitive(p, ph.path, phase.path);
    }

    /** Tries once to update both heads, after other threads ran. */
    method TryPublish(saved: Head, ghost p: seq<nat>, zero: Option<nat>, one: Option<nat>, ghost first: bool,
                      ghost k: nat)
      returns (ok: bool)
      requires Inv() && phase.Unsplit? && Suffix(p, phase.path) && saved.Head?
      requires saved.link == HeadLink(g.oldHome, g.shift, p)
      requires Found(p, zero, one, first, k) && growHead == GrowHeadFor(one) && Bits(p, first, k)
      modifies this`oldHead, this`growHead, this`phase, this`trace, this`account, this`pending, this`holdsZero
      modifies this`holdsOne, chain, hash, used
      ensures Inv()
      ensures !ok ==> pending < old(pending) || (pending == old(pending) && oldHead == old(oldHead))
      ensures !ok ==>
                && phase.Unsplit?
                && Suffix(p, phase.path)
                && oldHead != saved
                && holdsZero == old(holdsZero)
                && holdsOne == old(holdsOne)
      ensures ok ==>
                && phase == Published(first, p, k)
                && account.origin == p
                && holdsZero == zero.Some?
                && holdsOne == one.Some?
    {
      hide Inv, Bits, Suffix, Published;
      InterfereBefore(p, first, k);
      ok := oldHead == saved;
      if ok {
        HeadPinsChain(p);
        BitsAreKinds(p, first, k);
        PublishHeads(if zero.Some? then Head(Next(zero.value, g.NewShift()), true)
                  else Head(End(g.oldHome, g.NewShift()), false),
                     p, zero, one, first, k);
      }
    }

    lemma HeadPinsChain(p: seq<nat>)
      requires Inv() && phase.Unsplit? && Suffix(p, phase.path) && oldHead.Head?
      requires oldHead.link == HeadLink(g.oldHome, g.shift, p)
      ensures phase == Unsplit(p)
    {
      SameHeadSameChain(g, Mem(), phase.path, p);
    }

    /** One try at the "big step", with the old head as read when the chain was `p`. */
    method BigStepRound(saved: Head, ghost p: seq<nat>)
      returns (ok: bool, zero: Option<nat>, one: Option<nat>, cur: Option<nat>, first: int, ghost k: nat)
      requires Inv() && phase.Unsplit? && Suffix(p, phase.path) && saved.Head?
      requires saved.link == HeadLink(g.oldHome, g.shift, p)
      requires !holdsOne
      modifies this`oldHead, this`growHead, this`phase, this`trace, this`account, this`pending, this`holdsZero
      modifies this`holdsOne, chain, hash, used
      ensures Inv()
      ensures !ok ==> pending < old(pending) || (pending == old(pending) && oldHead == old(oldHead))
      ensures !ok ==>
                phase.Unsplit? && Suffix(p, phase.path) && oldHead != saved && holdsZero == old(holdsZero) && !holdsOne
      ensures Found(p, zero, one, first == 1, k)
      ensures ok ==>
                && phase == Published(first == 1, p, k)
                && account.origin == p
                && holdsZero == zero.Some?
                && holdsOne == one.Some?
      ensures first == (if p == [] then -1 else if one == Some(p[0]) then 1 else 0)
      ensures cur == if k < |p| then Some(p[k]) else None
    {
      hide Inv, Bits, Published, Suffix;
      zero, one, cur, first, k := FindFrontiers(saved.link, p);
      StoreGrowHead(GrowHeadFor(one), false);
      ok := TryPublish(saved, p, zero, one, first == 1, k);
    }

    /** The "big step": retried until no insertion came between reading the old head and the CAS on it. */
    method BigStep() returns (zero: Option<nat>, one: Option<nat>, cur: Option<nat>, first: int, ghost k: nat)
      requires Inv() && phase.Unsplit? && !holdsZero && !holdsOne
      modifies this`oldHead, this`growHead, this`phase, this`trace, this`account, this`pending, this`holdsZero
      modifies this`holdsOne, chain, hash, used
      ensures Inv() && holdsZero == zero.Some? && holdsOne == one.Some?
      ensures Suffix(old(phase).path, account.origin)
      ensures Found(account.origin, zero, one, first == 1, k) && phase == Published(first == 1, account.origin, k)
      ensures first == (if account.origin == [] then -1 else if one == Some(account.origin[0]) then 1 else 0)
      ensures cur == if k < |account.origin| then Some(account.origin[k]) else None
    {
      hide Inv, Published, Suffix, Found, HeadLink;
      var saved, p := AcquireOldHead();
      SuffixSelf(p);
      ghost var mark := pending;
      while true
        invariant Inv() && phase.Unsplit? && !holdsOne && holdsZero == (p != [])
        invariant Suffix(old(phase).path, p) && Suffix(p, phase.path)
        invariant saved.Head? && saved.link == HeadLink(g.oldHome, g.shift, p) && (saved.link.End? <==> p == [])
        invariant pending < mark || (pending == mark && oldHead == saved)
        decreases mark
      {
        var ok;
        ok, zero, one, cur, first, k := BigStepRound(saved, p);
        if ok { return; }
        SuffixTransitive(old(phase).path, p, phase.path);
        ghost var path := phase.path;
        if saved.link.End? {
          saved, p := AcquireOldHead();
          SuffixTransitive(old(phase).path, path, p);
        } else {
          OldHeadRead();
          saved, p := oldHead, phase.path;
        }
        SuffixSelf(p);
        mark := pending;
      }
    }

    /** Between two small steps: `f` and `of` are the frontiers of the chain `first` and of the other one. */
    ghost predicate Working(first: bool, f: nat, of: nat, cur: nat, c: nat)
      reads this, hash
    {
      && phase.Shared? && phase.first == first && Adjacent(phase, f)
      && var left := phase.Of(!first).Rest();
         c < |left| && left[0] == of && left[c] == cur && forall i :: 0 <= i <= c ==> Bit(left[i], !first)
    }

    lemma WorkingBits(first: bool, f: nat, of: nat, cur: nat, c: nat)
      requires Working(first, f, of, cur, c)
      ensures phase.Shared? && phase.first == first && Adjacent(phase, f)
      ensures var left := phase.Of(!first).Rest();
              c < |left| && left[0] == of && forall i :: 0 <= i <= c ==> Mem().Is(left[i], !first)
    {
      var left := phase.Of(!first).Rest();
      forall i | 0 <= i <= c ensures Mem().Is(left[i], !first) { assert Bit(left[i], !first); }
    }

    lemma {:induction false} WorkingRead(first: bool, f: nat, of: nat, cur: nat, c: nat)
      requires Inv() && Working(first, f, of, cur, c)
      ensures g.Valid() && cur < chain.Length == used.Length == hash.Length && phase.Shared?
      ensures var left := phase.Of(!first).Rest();
              && c < |left| && chain[cur] == OldLink(g, left, c)
              && (forall i :: 0 <= i <= c ==> left[i] < used.Length && used[left[i]])
              && (c + 1 < |left| ==> Bit(left[c + 1], false) || Bit(left[c + 1], true))
              && forall i :: 0 <= i <= c ==> Mem().Is(left[i], !first)
    {
      hide Shape, Balanced, Recorded, Geometry.KindOf;
      var left := phase.Of(!first).Rest();
      WorkingBits(first, f, of, cur, c);
      forall i | 0 <= i <= c ensures left[i] < used.Length && used[left[i]] { SharedRead(g, Mem(), phase, i); }
      SharedRead(g, Mem(), phase, c);
      if c + 1 < |left| { SharedRead(g, Mem(), phase, c + 1); }
    }

    /** Other threads run between two small steps. */
    method InterfereWorking(first: bool, f: nat, of: nat, cur: nat, ghost c: nat)
      requires Inv() && Working(first, f, of, cur, c)
      modifies this`oldHead, this`growHead, this`phase, this`trace, this`account, this`pending, chain, hash, used
      ensures account.origin == old(account).origin
      ensures Inv() && Working(first, f, of, cur, c) && phase.Shared?
      ensures phase.Of(!first).Rest() == old(phase).Of(!first).Rest()
    {
      hide Inv, Geometry.KindOf;
      WorkingRead(first, f, of, cur, c);
      ghost var left := phase.Of(!first).Rest();
      assert forall i :: 0 <= i <= c ==> Bit(left[i], !first);
      Interfere();
      forall i | 0 <= i <= c ensures Bit(left[i], !first) {
        assert old(used[left[i]]) && old(Bit(left[i], !first));
      }
    }

    lemma AdjacentNow()
      requires Inv() && phase.Shared? && phase.Of(phase.first).done + 1 == phase.join
      ensures phase.Of(phase.first).Rest() != [] && Adjacent(phase, phase.Of(phase.first).Rest()[0])
      ensures phase.Of(!phase.first).Rest() != [] && Mem().Is(phase.Of(!phase.first).Rest()[0], !phase.first)
    {
      AdjacentFrontiers(g, Mem(), phase);
      SharedRead(g, Mem(), phase, 0);
    }

    /** After an upgrade up to the other frontier, the frontiers are next to each other. */
    lemma UpgradedIsWorking(first: bool, f: nat, of: nat)
      requires Inv() && Upgradable(g, phase, first, f, Next(of, g.shift)) && phase.Of(first).done + 1 == phase.join
      ensures Working(first, f, of, of, 0)
    {
      hide Inv;
      AdjacentNow();
      assert Bit(of, !first);
    }

    /** The end of the original chain is reached: both chains get their new tails. */
    method FinishBoth(first: bool, f: nat, of: nat, cur: nat, ghost c: nat)
      requires Inv() && Working(first, f, of, cur, c) && c + 1 == |phase.Of(!first).Rest()|
      modifies this`oldHead, this`growHead, this`phase, this`trace, this`account, this`pending, chain, hash, used
      ensures account.origin == old(account).origin
      ensures Inv() && phase.Separate? && phase.zero.Finished() && phase.one.Finished()
    {
      WorkingBits(first, f, of, cur, c);
      hide Inv;
      StoreFirstTail(f, first);
      var rest := UpgradeShiftsOnRange(!first, of, End(g.HomeOf(!first), g.NewShift()));
      FinishedIfNothingLeft(first);
    }

    lemma FinishedIfNothingLeft(one: bool)
      requires Inv() && phase.Separate? && phase.Of(one).Rest() == []
      ensures phase.Of(one).Finished()
    {
      NothingLeft(g, Mem(), phase, one);
    }

    lemma WorkingSkips(first: bool, f: nat, of: nat, cur: nat, next: nat, c: nat)
      requires Working(first, f, of, cur, c) && c + 1 < |phase.Of(!first).Rest()|
      requires next == phase.Of(!first).Rest()[c + 1] && Bit(next, first)
      ensures SkipsTo(Mem(), phase, f, next, c + 1) && phase.first == first
      ensures phase.Of(!first).Rest()[0] == of
    {
      WorkingBits(first, f, of, cur, c);
      assert Mem().Is(next, first);
      hide Working, Bit, Memory.Is, Adjacent, Geometry.KindOf, Strand.Rest;
    }

    /** The first chain skips to its next entry `next`; the other chain is the first one from there on. */
    method SkipFrom(ghost first: bool, f: nat, ghost of: nat, ghost cur: nat, next: nat, ghost c: nat)
      requires Inv() && Working(first, f, of, cur, c) && c + 1 < |phase.Of(!first).Rest()|
      requires next == phase.Of(!first).Rest()[c + 1] && Bit(next, first)
      modifies this`phase, this`trace, chain
      ensures Inv() && Upgradable(g, phase, !first, of, Next(next, g.shift))
      ensures |phase.Of(first).Rest()| == |old(phase).Of(!first).Rest()| - (c + 1)
    {
      hide Inv, Working, Bit, SkipsTo, Upgradable, Strand.Rest, Phase.Of;
      WorkingSkips(first, f, of, cur, next, c);
      SkipTo(first, f, next, c + 1);
      ReadyToUpgrade(g, phase, !first, of, next);
    }

    /** One small step: the skip, then the other chain is upgraded up to the entry skipped to. */
    method SmallStep(first: bool, f: nat, of: nat, cur: nat, next: nat, ghost c: nat) returns (f': nat)
      requires Inv() && Working(first, f, of, cur, c) && c + 1 < |phase.Of(!first).Rest()|
      requires next == phase.Of(!first).Rest()[c + 1] && Bit(next, first)
      modifies this`oldHead, this`growHead, this`phase, this`trace, this`account, this`pending, chain, hash, used
      ensures Inv() && Working(!first, f', next, next, 0) && phase.Shared?
      ensures account.origin == old(account).origin
      ensures |phase.Of(first).Rest()| == |old(phase).Of(!first).Rest()| - (c + 1)
    {
      hide Inv, Working, Bit, Upgradable, UpgradedFrom, Keeps, Strand.Rest;
      SkipFrom(first, f, of, cur, next, c);
      var rest := UpgradeShiftsOnRange(!first, of, Next(next, g.shift));
      f' := rest.value;
      UpgradedIsWorking(!first, f', next);
    }

    /** Divides what the chains still share, entry by entry. */
    method SmallSteps(first0: bool, frontier: nat, other: nat)
      requires Inv() && Working(first0, frontier, other, other, 0)
      modifies this`oldHead, this`growHead, this`phase, this`trace, this`account, this`pending, chain, hash, used
      ensures account.origin == old(account).origin
      ensures Inv() && phase.Separate? && phase.zero.Finished() && phase.one.Finished()
    {
      hide Inv, Working, Strand.Rest;
      WorkingBits(first0, frontier, other, other, 0);
      var first, f, of: nat, cur: nat := first0, frontier, other, other;
      ghost var c := 0;
      while true
        invariant account.origin == old(account).origin
        invariant Inv() && Working(first, f, of, cur, c)
        invariant phase.Shared? && c < |phase.Of(!first).Rest()|
        decreases |phase.Of(!first).Rest()| - c
      {
        InterfereWorking(first, f, of, cur, c);
        WorkingRead(first, f, of, cur, c);
        var nextWithShift := chain[cur];
        if nextWithShift.End? {
          FinishBoth(first, f, of, cur, c);
          return;
        }
        var isZero := OnZeroChain(nextWithShift.slot);
        if isZero == !first {
          f := SmallStep(first, f, of, cur, nextWithShift.slot, c);
          first, of, c := !first, nextWithShift.slot, 0;
        } else {
          WorkingFurther(first, f, of, cur, c);
          c := c + 1;
        }
        cur := nextWithShift.slot;
      }
    }

    lemma WorkingFurther(first: bool, f: nat, of: nat, cur: nat, c: nat)
      requires Working(first, f, of, cur, c) && c + 1 < |phase.Of(!first).Rest()|
      requires Bit(phase.Of(!first).Rest()[c + 1], !first)
      ensures Working(first, f, of, phase.Of(!first).Rest()[c + 1], c + 1)
    {
    }

    /** Releases the rewrite locks that are held. */
    method ReleaseHeads(zero: bool, one: bool)
      requires Inv() && zero == holdsZero && one == holdsOne
      modifies this`oldHead, this`growHead, this`trace, this`holdsZero, this`holdsOne
      ensures Inv() && !holdsZero && !holdsOne
      ensures if zero then oldHead.Head? && old(oldHead).Head? && oldHead == old(oldHead).(locked := false)
              else oldHead == old(oldHead)
      ensures if one then growHead.Head? && old(growHead).Head? && growHead == old(growHead).(locked := false)
              else growHead == old(growHead)
    {
      hide Shape, Balanced, Recorded;
      if one { StoreGrowHead(growHead.(locked := false), false); }
      if zero { StoreOldLock(false, false); }
    }

    /** From the big step on: first the range before the other frontier, then the small steps. */
    method MigrateRest(zero: Option<nat>, one: Option<nat>, first: int, ghost p: seq<nat>, ghost k: nat)
      requires Inv() && Found(p, zero, one, first == 1, k) && phase == Published(first == 1, p, k)
      requires first == if p == [] then -1 else if one == Some(p[0]) then 1 else 0
      modifies this`oldHead, this`growHead, this`phase, this`trace, this`account, this`pending, chain, hash, used
      ensures account.origin == old(account).origin
      ensures Inv() && phase.Separate? && phase.zero.Finished() && phase.one.Finished()
    {
      hide Inv;
      if first >= 0 {
        var b := first == 1;
        var firstFrontier := if b then one.value else zero.value;
        var otherFrontier := if b then zero else one;
        if otherFrontier.Some? {
          var rest := UpgradeShiftsOnRange(b, firstFrontier, Next(otherFrontier.value, g.shift));
          UpgradedIsWorking(b, rest.value, otherFrontier.value);
          SmallSteps(b, rest.value, otherFrontier.value);
        } else {
          var rest := UpgradeShiftsOnRange(b, firstFrontier, End(g.HomeOf(b), g.NewShift()));
          FinishedIfNothingLeft(!b);
        }
      }
    }

    /**
     Splits the chain of the old home. At every moment on the way each entry is reached from the
     home that applies to it. In the end the two chains are the order-preserving parts of the
     chain as it was when the heads were updated, each after what was inserted since, and that
     chain had the one at the start as its tail.
     */
    method SplitForGrow()
      requires Inv() && phase.Unsplit? && !holdsZero && !holdsOne && growHead.Unused?
      modifies this`oldHead, this`growHead, this`phase, this`trace, this`account, this`pending, this`holdsZero
      modifies this`holdsOne, chain, hash, used
      ensures Inv() && !holdsZero && !holdsOne
      ensures oldHead.Head? && !oldHead.locked && growHead.Head? && !growHead.locked
      ensures forall s: nat :: phase.Has(s) ==> s < chain.Length && chain[s].shift == g.NewShift()
      ensures phase.Separate? && phase.zero.Finished() && phase.one.Finished()
      ensures phase.zero.path == account.zero + Picks(Mem(), false, account.origin)
      ensures phase.one.path == account.one + Picks(Mem(), true, account.origin)
      ensures Suffix(old(phase).path, account.origin)
      ensures trace != [] && trace[0] == start && AlwaysServed(g, trace)
    {
      hide Inv, Suffix, Found, Published, AlwaysServed;
      var zero, one, cur, first, k := BigStep();
      ghost var origin := account.origin;
      MigrateRest(zero, one, first, account.origin, k);
      ReleaseHeads(zero.Some?, one.Some?);
      Summary();
    }

    lemma Summary()
      requires Inv()
      ensures trace != [] && trace[0] == start && AlwaysServed(g, trace)
      ensures phase.Separate? ==> phase.zero.path == account.zero + Picks(Mem(), false, account.origin)
      ensures phase.Separate? ==> phase.one.path == account.one + Picks(Mem(), true, account.origin)
      ensures phase.Separate? ==> LocksAreOwn()
      ensures phase.Separate? && phase.zero.Finished() && phase.one.Finished() ==>
                forall s: nat :: phase.Has(s) ==> s < chain.Length && chain[s].shift == g.NewShift()
    {
      hide Shape, Balanced, AlwaysServed;
      RecordIsServed(g, start, trace, Moment(Mem(), phase));
      FinishedIsNew(g, Mem(), phase);
      if phase.Separate? { FinishedIsPartition(g, Mem(), phase, account); }
    }
  }
}
