/**
 The slot protocol run by one thread without interference does to a slot what the table operations
 (`FixedTable`) say it does: the two models of cache/clock_cache.cc agree.
 */
module SlotSequential {
  import P = Probing
  import F = FixedTable
  import opened SlotProtocol

  /** What the table sees of a slot that nobody owns. */
  function Seen(s: Slot): P.Slot
    requires s.meta.state.Shareable() ==> s.meta.acquire >= 0 && s.meta.release >= 0
  {
    if s.meta.state.Shareable()
    then P.Entry(s.item.key, s.item.id, s.meta.state.Visible?, s.meta.acquire, s.meta.release)
    else P.Empty
  }

  /** What the thread does next in its operation. */
  function NextAction(pc: Pc): Action
    requires !pc.Idle?
  {
    match pc
    case InsertTry(_, _) => Probe
    case InsertCompare(_, _) => Compare
    case LookupCompare(_) => Compare
    case EraseCompare(_) => Compare
    case Boosting(_, _) => Boost
    case Dropping(_) => Drop
    case Building(_, _, _) => WriteData
    case Written(_, _) => Publish
    case LookupHit(_) => MarkHit
    case EraseHide(_) => Hide
    case Freeing => FreeData
    case Emptying => MarkEmpty
    case _ => CompareExchange(false)
  }

  /** Alone, the thread gets from `s` to the end of its operation in `n` steps, at `z`. */
  ghost predicate Completes(s: Slot, t: Tid, n: nat, z: Slot)
    decreases n
  {
    if s.PcOf(t).Idle? then n == 0 && z == s
    else n > 0 && Enabled(s, t, NextAction(s.PcOf(t))) && Completes(Apply(s, t, NextAction(s.PcOf(t))), t, n - 1, z)
  }

  /** The slot before the operation: the thread is not in one, and the counters are right. */
  ghost predicate Ready(s: Slot, t: Tid) {
    && Inv(s) && s.PcOf(t).Idle? && !s.meta.state.Construction?
  }

  lemma ReadyFacts(s: Slot, t: Tid)
    requires Ready(s, t)
    ensures s.meta.state.Shareable() ==> 0 <= s.meta.release <= s.meta.acquire && |s.refs| == s.meta.RefCount()
    ensures s.refs[t] <= |s.refs|
  {
    InvIsLocal(s, t);
  }

  /** Freeing what the thread has taken over ends with an empty slot. */
  lemma TakenOverIsEmptied(s: Slot, t: Tid) returns (z: Slot)
    requires s.PcOf(t).Freeing?
    ensures Completes(s, t, 2, z) && z.meta == Meta(Empty, 0, 0, false)
    ensures z.freed == s.freed[s.item.id := s.freed[s.item.id] + 1]
  {
    var y := Apply(s, t, FreeData);
    z := Apply(y, t, MarkEmpty);
    assert Completes(z, t, 0, z);
    assert Completes(y, t, 1, z);
  }

  lemma DroppedIsGone(s: Slot, t: Tid) returns (z: Slot)
    requires s.PcOf(t).Dropping?
    ensures Completes(s, t, 1, z) && z.meta == s.meta.Unref(s.PcOf(t).n) && z.item == s.item
    ensures z.refs == s.Less(t, s.PcOf(t).n)
  {
    z := Apply(s, t, Drop);
    assert Completes(z, t, 0, z);
  }

  /** A Lookup alone gets a reference on a visible entry with the key, and changes nothing else. */
  lemma LookupAlone(s: Slot, t: Tid, key: Key) returns (z: Slot, n: nat)
    requires Ready(s, t)
    ensures Enabled(s, t, BeginLookup(key)) && Completes(Apply(s, t, BeginLookup(key)), t, n, z)
    ensures s.meta.state.Shareable() ==> s.meta.acquire >= 0 && s.meta.release >= 0 && z.meta.acquire >= 0
    ensures s.meta.state == z.meta.state && s.meta.release == z.meta.release
    ensures var was, now := Seen(s), Seen(z);
            if F.VisibleWith(was, key)
            then now == was.(acquire := was.acquire + 1) && z.refs[t] == s.refs[t] + 1 && z.meta.hit
            else now == was && z.refs[t] == s.refs[t]
  {
    ReadyFacts(s, t);
    var y := Apply(s, t, BeginLookup(key));
    if s.meta.state.Visible? {
      var x := Apply(y, t, Compare);
      if s.item.key == key {
        z, n := Apply(x, t, MarkHit), 2;
        assert Completes(z, t, 0, z);
        assert Completes(x, t, 1, z);
      } else {
        z := DroppedIsGone(x, t);
        n := 2;
      }
      assert Completes(y, t, 2, z);
    } else if s.meta.state.Invisible? {
      z := DroppedIsGone(y, t);
      n := 1;
    } else {
      z, n := y, 0;
    }
  }

  /** A Release alone does what the table operation does. */
  lemma ReleaseAlone(s: Slot, t: Tid, useful: bool, eraseIfLast: bool) returns (z: Slot, n: nat)
    requires Ready(s, t) && s.refs[t] > 0
    ensures Completes(Apply(s, t, BeginRelease(useful, eraseIfLast)), t, n, z)
    ensures s.meta.state.Shareable() && 0 <= s.meta.release < s.meta.acquire
    ensures z.meta.state.Shareable() ==> z.meta.acquire >= 0 && z.meta.release >= 0
    ensures Seen(z) == F.Released(Seen(s), useful, eraseIfLast)
    ensures z.meta.state.Shareable() || z.meta.state.Empty?
  {
    ReadyFacts(s, t);
    HolderExcludesOwner(s, t);
    var y := Apply(s, t, BeginRelease(useful, eraseIfLast));
    if y.PcOf(t).Idle? {
      z, n := y, 0;
    } else {
      var x := Apply(y, t, CompareExchange(false));
      if x.PcOf(t).Idle? {
        z, n := x, 1;
        assert Completes(x, t, 0, z);
      } else {
        z := TakenOverIsEmptied(x, t);
        n := 3;
      }
      assert Completes(y, t, n, z);
    }
  }

  /** So does an Erase. */
  lemma EraseAlone(s: Slot, t: Tid, key: Key) returns (z: Slot, n: nat)
    requires Ready(s, t)
    ensures Enabled(s, t, BeginErase(key)) && Completes(Apply(s, t, BeginErase(key)), t, n, z)
    ensures s.meta.state.Shareable() ==> s.meta.acquire >= 0 && s.meta.release >= 0
    ensures z.meta.state.Shareable() ==> z.meta.acquire >= 0 && z.meta.release >= 0
    ensures Seen(z) == F.Erased(Seen(s), key)
    ensures s.meta.state.Shareable() ==> z.meta.state.Shareable() || z.meta.state.Empty?
  {
    ReadyFacts(s, t);
    var y := Apply(s, t, BeginErase(key));
    if s.meta.state.Visible? {
      var x := Apply(y, t, Compare);
      if s.item.key == key {
        z, n := HideAlone(x, t);
      } else {
        z := DroppedIsGone(x, t);
        n := 1;
      }
      n := n + 1;
    } else if s.meta.state.Invisible? {
      z := DroppedIsGone(y, t);
      n := 1;
    } else {
      z, n := y, 0;
    }
  }

  lemma HideAlone(s: Slot, t: Tid) returns (z: Slot, n: nat)
    requires s.PcOf(t).EraseHide? && s.meta.state.Visible? && 0 <= s.meta.release < s.meta.acquire
    ensures Completes(s, t, n, z)
    ensures if s.meta.RefCount() == 1 then z.meta.state.Empty?
            else z.meta == s.meta.(state := Invisible, acquire := s.meta.acquire - 1) && z.item == s.item
  {
    var y := Apply(s, t, Hide);
    var x := Apply(y, t, CompareExchange(false));
    if s.meta.RefCount() == 1 {
      z := TakenOverIsEmptied(x, t);
      n := 4;
      assert Completes(y, t, 3, z);
    } else {
      z := DroppedIsGone(x, t);
      n := 3;
      assert Completes(y, t, 2, z);
    }
  }

  /** So does a visit of the clock hand that has read the word as it is. */
  lemma ClockAlone(s: Slot, t: Tid) returns (z: Slot, n: nat)
    requires Ready(s, t)
    ensures Enabled(s, t, LoadForClock(s.meta)) && Completes(Apply(s, t, LoadForClock(s.meta)), t, n, z)
    ensures s.meta.state.Shareable() ==> s.meta.acquire >= 0 && s.meta.release >= 0
    ensures z.meta.state.Shareable() ==> z.meta.acquire >= 0 && z.meta.release >= 0
    ensures Seen(z) == F.Aged(Seen(s))
  {
    ReadyFacts(s, t);
    hide Inv, Completes, F.Aged;
    var y := Apply(s, t, LoadForClock(s.meta));
    var x := ClockExchange(y, t);
    if x.PcOf(t).Idle? {
      z, n := x, 1;
      Finished(z, t);
      OneStep(y, t, x, 0, z);
    } else {
      z := TakenOverIsEmptied(x, t);
      n := 3;
      OneStep(y, t, x, 2, z);
    }
  }

  /** The sweep over unreferenced entries, alone, empties the slot exactly if nothing refers to the entry. */
  lemma SweepAlone(s: Slot, t: Tid) returns (z: Slot, n: nat)
    requires Ready(s, t)
    ensures Enabled(s, t, LoadForSweep(s.meta)) && Completes(Apply(s, t, LoadForSweep(s.meta)), t, n, z)
    ensures s.meta.state.Shareable() ==> s.meta.acquire >= 0 && s.meta.release >= 0
    ensures z.meta.state.Shareable() ==> z.meta.acquire >= 0 && z.meta.release >= 0
    ensures Seen(z) == if F.Unreferenced(Seen(s)) then P.Empty else Seen(s)
  {
    ReadyFacts(s, t);
    hide Inv, Completes;
    var y := Apply(s, t, LoadForSweep(s.meta));
    var x := Apply(y, t, CompareExchange(false));
    if x.PcOf(t).Idle? {
      z, n := x, 1;
      Finished(z, t);
      OneStep(y, t, x, 0, z);
    } else {
      z := TakenOverIsEmptied(x, t);
      n := 3;
      OneStep(y, t, x, 2, z);
    }
  }

  lemma Finished(z: Slot, t: Tid)
    requires z.PcOf(t).Idle?
    ensures Completes(z, t, 0, z)
  {
  }

  lemma OneStep(s: Slot, t: Tid, y: Slot, n: nat, z: Slot)
    requires !s.PcOf(t).Idle? && Enabled(s, t, NextAction(s.PcOf(t))) && y == Apply(s, t, NextAction(s.PcOf(t)))
    requires Completes(y, t, n, z)
    ensures Completes(s, t, n + 1, z)
  {
  }

  lemma ClockExchange(s: Slot, t: Tid) returns (x: Slot)
    requires s.PcOf(t) == ClockLoaded(s.meta)
    requires s.meta.state.Shareable() ==> 0 <= s.meta.release <= s.meta.acquire
    ensures Enabled(s, t, CompareExchange(false)) && x == Apply(s, t, CompareExchange(false))
    ensures x.meta.state.Shareable() ==> 0 <= x.meta.release <= x.meta.acquire
    ensures (x.PcOf(t).Idle? && Seen(x) == F.Aged(Seen(s))) || (x.PcOf(t).Freeing? && F.Aged(Seen(s)).Empty?)
  {
    x := Exchanged(s, t, false);
  }

  /** An insertion alone into an empty slot makes a visible entry, with a reference if one is kept. */
  lemma InsertAlone(s: Slot, t: Tid, item: Item, count: nat, keep: bool) returns (z: Slot)
    requires Ready(s, t) && s.meta.state.Empty? && count > 0 && item.id !in s.given
    ensures Enabled(s, t, BeginInsert(item, count, keep))
    ensures Completes(Apply(s, t, BeginInsert(item, count, keep)), t, 2, z)
    ensures z.meta.state.Visible? && z.meta.acquire >= 0 && z.meta.release >= 0
    ensures Seen(z) == P.Entry(item.key, item.id, true, count, if keep then count - 1 else count)
    ensures z.refs[t] == if keep then 1 else 0
  {
    var y := Apply(s, t, BeginInsert(item, count, keep));
    var x := Apply(y, t, WriteData);
    z := Apply(x, t, Publish);
    assert Completes(z, t, 0, z);
    assert Completes(x, t, 1, z);
  }

  /** An insertion alone that meets an entry gives its counts to a visible one with the key, and leaves others. */
  lemma InsertOntoAlone(s: Slot, t: Tid, item: Item, count: nat, keep: bool) returns (z: Slot, n: nat)
    requires Ready(s, t) && s.meta.state.Shareable() && count > 0
    ensures Enabled(s, t, BeginInsert(item, count, keep))
    ensures Completes(Apply(s, t, BeginInsert(item, count, keep)), t, n, z)
    ensures s.meta.acquire >= 0 && s.meta.release >= 0 && z.meta.acquire >= 0 && z.meta.release >= 0
    ensures var was := Seen(s);
            Seen(z) == if F.VisibleWith(was, item.key)
                       then was.(acquire := was.acquire + count, release := was.release + count) else was
    ensures z.refs == s.refs
  {
    ReadyFacts(s, t);
    hide Inv, Completes;
    var y := Apply(s, t, BeginInsert(item, count, keep));
    if s.meta.state.Visible? {
      var x := Apply(y, t, Probe);
      var v := Apply(x, t, Compare);
      if s.item.key == item.key {
        z := Apply(v, t, Boost);
        Finished(z, t);
        OneStep(v, t, z, 0, z);
      } else {
        z := DroppedIsGone(v, t);
      }
      OneStep(x, t, v, 1, z);
      OneStep(y, t, x, 2, z);
      n := 3;
    } else {
      z, n := y, 0;
      Finished(z, t);
    }
  }
}
