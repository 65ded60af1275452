/**
 One slot of a HyperClockCache table (cache/clock_cache.h, cache/clock_cache.cc) under any
 interleaving of any number of threads.  All threads share one atomic metadata word; a step is
 one atomic operation on it, or one access to the data it protects.
 */
module SlotProtocol {

  import Probing

  type Tid = nat
  type Key = Probing.HashedKey

  datatype State = Empty | Construction | Invisible | Visible {
    predicate Shareable() { Invisible? || Visible? }
  }

  /** The metadata word. That no counter underflows is part of what is proved. */
  datatype Meta = Meta(state: State, acquire: int, release: int, hit: bool) {
    function RefCount(): int { acquire - release }
    function Acquire(n: nat): Meta { this.(acquire := acquire + n) }
    function Release(n: nat): Meta { this.(release := release + n) }
    /** the reference was never taken */
    function Unref(n: nat): Meta { this.(acquire := acquire - n) }
  }

  const MAX_COUNTDOWN: nat := 3

  /** What is stored: a key, and a value with an identity of its own. */
  datatype Item = Item(key: Key, id: nat)

  /** Where a thread is in its operation on the slot. */
  datatype Pc =
    | Idle
      // Insert
    | InsertTry(item: Item, n: nat)
    | InsertCompare(item: Item, n: nat)
    | Boosting(key: Key, n: nat)
    | Building(item: Item, n: nat, keep: bool)
    | Written(n: nat, keep: bool)
      // Lookup
    | LookupCompare(key: Key)
    | LookupHit(key: Key)
      // Release
    | ReleaseLoop(seen: Meta)
      // Erase
    | EraseCompare(key: Key)
    | EraseHide(key: Key)
    | EraseLoop(key: Key, seen: Meta)
      // eviction, and the sweep over unreferenced entries
    | ClockLoaded(seen: Meta)
    | SweepLoaded(seen: Meta)
      // common ends
    | Dropping(n: nat)
    | Freeing
    | Emptying
  {
    /** References the operation itself is holding at this point. */
    function Held(): nat {
      match this
      case InsertCompare(_, n) => n
      case Boosting(_, n) => n
      case Dropping(n) => n
      case LookupCompare(_) => 1
      case LookupHit(_) => 1
      case EraseCompare(_) => 1
      case EraseHide(_) => 1
      case EraseLoop(_, _) => 1
      case _ => 0
    }
    /** The thread believes it owns the slot. */
    predicate Owns() { Building? || Written? || Freeing? || Emptying? }
    /** The thread is about to read the stored key. */
    predicate Reads() { InsertCompare? || LookupCompare? || EraseCompare? }
  }

  /**
   `refs` counts the references each thread holds, `owner` is the thread that last entered
   Construction and has not left it; `given` and `freed` are the values handed in and freed so far.
   None of these exist in memory.
   */
  datatype Slot = Slot(
    meta: Meta, item: Item, pcs: map<Tid, Pc>,
    refs: multiset<Tid>, owner: set<Tid>, given: set<nat>, freed: multiset<nat>)
  {
    function PcOf(t: Tid): Pc { if t in pcs then pcs[t] else Idle }
    function Goto(t: Tid, pc: Pc): Slot { this.(pcs := pcs[t := pc]) }
    function Take(t: Tid, n: nat): Slot { this.(meta := meta.Acquire(n), refs := refs[t := refs[t] + n]) }
    function Less(t: Tid, n: nat): multiset<Tid> { refs[t := if n <= refs[t] then refs[t] - n else 0] }
    /** The slot holds a value that nobody has freed. */
    predicate Live() {
      meta.state.Shareable() || exists t :: t in owner && (PcOf(t).Written? || PcOf(t).Freeing?)
    }
  }

  datatype Action =
    | BeginInsert(item: Item, n: nat, keep: bool)
    | Probe
    | Compare
    | Boost
    | Drop
    | WriteData
    | Publish
    | BeginLookup(key: Key)
    | MarkHit
    | BeginRelease(useful: bool, eraseIfLast: bool)
    | BeginErase(key: Key)
    | Hide
    | LoadForClock(seen: Meta)
    | LoadForSweep(seen: Meta)
    | CompareExchange(fails: bool)
    | FreeData
    | MarkEmpty
    | Ref
    | HandOver(to: Tid)

  /** What callers owe: fresh values, references they really hold. */
  ghost predicate Enabled(s: Slot, t: Tid, a: Action) {
    var pc := s.PcOf(t);
    match a
    case BeginInsert(item, n, _) => pc.Idle? && n > 0
    case Probe => pc.InsertTry?
    case Compare => pc.Reads()
    case Boost => pc.Boosting?
    case Drop => pc.Dropping?
    case WriteData => pc.Building? && pc.item.id !in s.given
    case Publish => pc.Written?
    case BeginLookup(_) => pc.Idle?
    case MarkHit => pc.LookupHit?
    case BeginRelease(_, _) => pc.Idle? && s.refs[t] > 0
    case BeginErase(_) => pc.Idle?
    case Hide => pc.EraseHide?
    case LoadForClock(_) => pc.Idle?
    case LoadForSweep(_) => pc.Idle?
    case CompareExchange(_) => pc.ReleaseLoop? || pc.EraseLoop? || pc.ClockLoaded? || pc.SweepLoaded?
    case FreeData => pc.Freeing?
    case MarkEmpty => pc.Emptying?
    case Ref => pc.Idle? && s.refs[t] > 0
    case HandOver(_) => s.refs[t] > pc.Held()
  }

  /** An optimistic acquisition: it counts only in a shareable state, elsewhere the counter is meaningless. */
  function Grab(s: Slot, t: Tid, n: nat, ifVisible: Pc): Slot {
    match s.meta.state
    case Visible => s.Take(t, n).Goto(t, ifVisible)
    case Invisible => s.Take(t, n).Goto(t, Dropping(n))
    case _ => s.(meta := s.meta.Acquire(n)).Goto(t, Idle)
  }

  /** A reader with a reference looks at the key. */
  function Compared(s: Slot, t: Tid): Slot
    requires s.PcOf(t).Reads()
  {
    match s.PcOf(t)
    case InsertCompare(item, n) => s.Goto(t, if s.item.key == item.key then Boosting(item.key, n) else Dropping(n))
    case LookupCompare(key) => s.Goto(t, if s.item.key == key then LookupHit(key) else Dropping(1))
    case EraseCompare(key) => s.Goto(t, if s.item.key == key then EraseHide(key) else Dropping(1))
  }

  /** The exchange succeeded: the thread owns the slot and will free what is in it. */
  function TakeOver(s: Slot, t: Tid, hit: bool): Slot {
    s.(meta := Meta(Construction, 0, 0, hit), refs := s.refs[t := 0], owner := {t}).Goto(t, Freeing)
  }

  function Exchanged(s: Slot, t: Tid, fails: bool): Slot
    requires var pc := s.PcOf(t); pc.ReleaseLoop? || pc.EraseLoop? || pc.ClockLoaded? || pc.SweepLoaded?
  {
    match s.PcOf(t)
    case ReleaseLoop(seen) =>
      if seen.RefCount() != 0 || !seen.state.Shareable() then s.Goto(t, Idle)
      else if s.meta == seen && !fails then TakeOver(s, t, false)
      else s.Goto(t, ReleaseLoop(s.meta))
    case EraseLoop(key, seen) =>
      if seen.RefCount() > 1 then s.Goto(t, Dropping(1))
      else if s.meta == seen && !fails then TakeOver(s, t, false)
      else s.Goto(t, EraseLoop(key, s.meta))
    case ClockLoaded(seen) =>
      if !seen.state.Shareable() || seen.acquire != seen.release then s.Goto(t, Idle)
      else if seen.state.Visible? && seen.acquire > 0 then
        var count := if seen.acquire - 1 < MAX_COUNTDOWN - 1 then seen.acquire - 1 else MAX_COUNTDOWN - 1;
        if s.meta == seen then s.(meta := Meta(Visible, count, count, seen.hit)).Goto(t, Idle) else s.Goto(t, Idle)
      else if s.meta == seen then TakeOver(s, t, seen.hit)
      else s.Goto(t, Idle)
    case SweepLoaded(seen) =>
      if seen.state.Shareable() && seen.RefCount() == 0 && s.meta == seen then TakeOver(s, t, false)
      else s.Goto(t, Idle)
  }

  function Apply(s: Slot, t: Tid, a: Action): Slot
    requires Enabled(s, t, a)
  {
    var pc := s.PcOf(t);
    match a
    case BeginInsert(item, n, keep) =>
      (match s.meta.state
       case Empty => s.(meta := s.meta.(state := Construction), owner := {t}).Goto(t, Building(item, n, keep))
       case Visible => s.Goto(t, InsertTry(item, n))
       case _ => s.Goto(t, Idle))
    case Probe => Grab(s, t, pc.n, InsertCompare(pc.item, pc.n))
    case Compare => Compared(s, t)
    case Boost => s.(meta := s.meta.Release(pc.n), refs := s.Less(t, pc.n)).Goto(t, Idle)
    case Drop => s.(meta := s.meta.Unref(pc.n), refs := s.Less(t, pc.n)).Goto(t, Idle)
    case WriteData => s.(item := pc.item, given := s.given + {pc.item.id}).Goto(t, Written(pc.n, pc.keep))
    case Publish =>
      var kept := if pc.keep then 1 else 0;
      s.(meta := Meta(Visible, pc.n, pc.n - kept, false), refs := s.refs[t := kept], owner := {}).Goto(t, Idle)
    case BeginLookup(key) => Grab(s, t, 1, LookupCompare(key))
    case MarkHit => s.(meta := s.meta.(hit := true)).Goto(t, Idle)
    case BeginRelease(useful, eraseIfLast) =>
      var meta := if useful then s.meta.Release(1) else s.meta.Unref(1);
      s.(meta := meta, refs := s.Less(t, 1))
       .Goto(t, if eraseIfLast || s.meta.state.Invisible? then ReleaseLoop(meta) else Idle)
    case BeginErase(key) => Grab(s, t, 1, EraseCompare(key))
    case Hide =>
      var meta := if s.meta.state.Visible? then s.meta.(state := Invisible) else s.meta;
      s.(meta := meta).Goto(t, EraseLoop(pc.key, meta))
    case LoadForClock(seen) => s.Goto(t, ClockLoaded(seen))
    case LoadForSweep(seen) => s.Goto(t, SweepLoaded(seen))
    case CompareExchange(fails) => Exchanged(s, t, fails)
    case FreeData => s.(freed := s.freed[s.item.id := s.freed[s.item.id] + 1]).Goto(t, Emptying)
    case MarkEmpty => s.(meta := Meta(Empty, 0, 0, false), owner := {}).Goto(t, Idle)
    case Ref => s.Take(t, 1)
    case HandOver(to) => s.(refs := s.Less(t, 1)[to := s.Less(t, 1)[to] + 1])
  }

  // ---------------------------------------------------------------- the invariant

  /** Counted references exist in shareable states only, and the word counts exactly them. */
  ghost predicate Counted(s: Slot) {
    if s.meta.state.Shareable() then |s.refs| == s.meta.RefCount() else s.refs == multiset{}
  }

  /** Construction has exactly one owner. */
  ghost predicate Owned(s: Slot) {
    && (forall t :: t in s.owner <==> s.PcOf(t).Owns())
    && (forall t, u :: t in s.owner && u in s.owner ==> t == u)
    && (s.meta.state.Construction? <==> s.owner != {})
  }

  /** Each thread really holds what its operation relies on. */
  ghost predicate Backed(s: Slot) {
    forall t :: s.PcOf(t).Held() <= s.refs[t]
  }

  /** What the operations of each thread know. */
  ghost predicate Informed(s: Slot, t: Tid) {
    match s.PcOf(t)
    case InsertTry(_, n) => n > 0
    case InsertCompare(_, n) => n > 0
    case Boosting(key, n) => n > 0 && s.item.key == key
    case LookupHit(key) => s.item.key == key
    case Dropping(n) => n > 0
    case Building(item, n, _) => n > 0
    case Written(n, _) => n > 0
    case EraseHide(key) => s.item.key == key
    case EraseLoop(key, seen) =>
      s.item.key == key && s.meta.state.Invisible? && seen.state.Invisible? && seen.RefCount() > 0
    case _ => true
  }

  /** Every value handed in is either stored or has been freed exactly once. */
  ghost predicate Conserved(s: Slot) {
    && (forall id :: s.freed[id] <= 1)
    && (forall id :: id in s.given <==> s.freed[id] == 1 || (s.Live() && id == s.item.id))
    && (s.Live() ==> s.freed[s.item.id] == 0)
  }

  ghost predicate Sound(s: Slot) { s.meta.state.Shareable() ==> s.meta.release >= 0 }

  ghost predicate Inv(s: Slot) {
    Sound(s) && Counted(s) && Owned(s) && Backed(s) && (forall t :: Informed(s, t)) && Conserved(s)
  }

  lemma OthersStay(s: Slot, t: Tid, a: Action, u: Tid)
    requires Enabled(s, t, a) && u != t
    ensures Apply(s, t, a).PcOf(u) == s.PcOf(u)
  {
  }

  /** A reference keeps the slot shareable, and an owner in turn means there are no references. */
  lemma HolderExcludesOwner(s: Slot, u: Tid)
    requires Counted(s) && Owned(s) && s.refs[u] > 0
    ensures s.meta.state.Shareable() && s.meta.RefCount() > 0 && forall t :: !s.PcOf(t).Owns()
  {
    assert |s.refs| > 0;
  }

  /** The last reference is the only one. */
  lemma OnlyHolder(s: Slot, t: Tid, u: Tid)
    requires |s.refs| == 1 && s.refs[t] > 0 && u != t
    ensures s.refs[u] == 0
  {
    assert |s.refs[t := 0]| == 0;
    assert s.refs[u] == s.refs[t := 0][u];
  }

  /**
   While one thread holds a reference, no step of another changes what is stored, frees it,
   takes the slot over, or makes an erased entry visible again.
   */
  lemma ReferencedIsStable(s: Slot, t: Tid, a: Action, u: Tid)
    requires Inv(s) && Enabled(s, t, a) && u != t && s.refs[u] > 0
    ensures var z := Apply(s, t, a);
            && z.item == s.item && z.freed == s.freed && z.meta.state.Shareable()
            && (s.meta.state.Invisible? ==> z.meta.state.Invisible?)
            && s.refs[u] <= z.refs[u]
  {
    HolderExcludesOwner(s, u);
    if |s.refs| == 1 && s.refs[t] > 0 {
      OnlyHolder(s, t, u);
    }
  }

  lemma InformedOther(s: Slot, t: Tid, a: Action, u: Tid)
    requires Inv(s) && Enabled(s, t, a) && u != t
    ensures Informed(Apply(s, t, a), u) && Apply(s, t, a).PcOf(u).Held() <= Apply(s, t, a).refs[u]
  {
    hide Apply, Conserved, Owned, Counted, Enabled;
    assert Informed(s, u);
    OthersStay(s, t, a, u);
    if s.PcOf(u).Held() > 0 {
      ReferencedIsStable(s, t, a, u);
    }
  }

  /** All that a thread's own step depends on. */
  ghost predicate Local(s: Slot, t: Tid) {
    && Sound(s) && Counted(s) && Informed(s, t)
    && s.PcOf(t).Held() <= s.refs[t] <= |s.refs|
    && (s.meta.state.Construction? <==> s.owner != {})
    && (s.PcOf(t).Owns() <==> t in s.owner)
    && (t in s.owner ==> s.owner == {t})
  }

  lemma InvIsLocal(s: Slot, t: Tid)
    requires Inv(s)
    ensures Local(s, t)
  {
    hide Conserved;
    assert |s.refs[t := 0]| == |s.refs| - s.refs[t];
  }

  /** The actions of an owner. */
  predicate ByOwner(a: Action) { a.WriteData? || a.Publish? || a.FreeData? || a.MarkEmpty? }

  /** What a step does to ownership: nothing, or taking it while there is no owner, or giving it up. */
  ghost predicate OwnerChange(s: Slot, t: Tid, z: Slot) {
    || (&& z.owner == s.owner && (z.meta.state.Construction? <==> s.meta.state.Construction?)
        && z.PcOf(t).Owns() == s.PcOf(t).Owns())
    || (s.owner == {} && z.owner == {t} && z.meta.state.Construction? && z.PcOf(t).Owns())
    || (t in s.owner && z.owner == {} && !z.meta.state.Construction? && !z.PcOf(t).Owns())
  }

  /** What the step leaves its own thread with. */
  ghost predicate LocalAfter(s: Slot, t: Tid, z: Slot) {
    Sound(z) && Counted(z) && Informed(z, t) && z.PcOf(t).Held() <= z.refs[t] && OwnerChange(s, t, z)
  }

  lemma ExchangeIsLocal(s: Slot, t: Tid, fails: bool)
    requires Local(s, t) && Enabled(s, t, CompareExchange(fails))
    ensures LocalAfter(s, t, Exchanged(s, t, fails))
  {
  }

  lemma OwnerStepIsLocal(s: Slot, t: Tid, a: Action)
    requires Local(s, t) && Enabled(s, t, a) && ByOwner(a)
    ensures LocalAfter(s, t, Apply(s, t, a))
  {
    hide Exchanged;
  }

  lemma GrabIsLocal(s: Slot, t: Tid, n: nat, pc: Pc)
    requires Local(s, t) && !s.PcOf(t).Owns() && n > 0 && s.PcOf(t).Held() == 0
    requires pc.LookupCompare? || pc.EraseCompare? || pc.InsertCompare?
    requires pc.Held() == n
    ensures LocalAfter(s, t, Grab(s, t, n, pc))
  {
  }

  lemma StepIsLocal(s: Slot, t: Tid, a: Action)
    requires Local(s, t) && Enabled(s, t, a)
    ensures LocalAfter(s, t, Apply(s, t, a))
  {
    hide Exchanged, LocalAfter, Grab;
    match a
    case CompareExchange(fails) => ExchangeIsLocal(s, t, fails);
    case Probe => GrabIsLocal(s, t, s.PcOf(t).n, InsertCompare(s.PcOf(t).item, s.PcOf(t).n));
    case BeginLookup(key) => GrabIsLocal(s, t, 1, LookupCompare(key));
    case BeginErase(key) => GrabIsLocal(s, t, 1, EraseCompare(key));
    case _ =>
      if ByOwner(a) {
        OwnerStepIsLocal(s, t, a);
      } else if MovesRefs(a) {
        RefStepIsLocal(s, t, a);
      } else {
        PlainStepIsLocal(s, t, a);
      }
  }

  /** The actions that give back or pass on references. */
  predicate MovesRefs(a: Action) { a.Boost? || a.Drop? || a.BeginRelease? || a.Ref? || a.HandOver? }

  lemma RefStepIsLocal(s: Slot, t: Tid, a: Action)
    requires Local(s, t) && Enabled(s, t, a) && MovesRefs(a)
    ensures LocalAfter(s, t, Apply(s, t, a))
  {
    hide Exchanged, Grab, Compared;
  }

  lemma PlainStepIsLocal(s: Slot, t: Tid, a: Action)
    requires Local(s, t) && Enabled(s, t, a) && !ByOwner(a) && !MovesRefs(a)
    requires !a.CompareExchange? && !a.Probe? && !a.BeginLookup? && !a.BeginErase?
    ensures LocalAfter(s, t, Apply(s, t, a))
  {
    hide Exchanged, Grab;
  }

  lemma OwnedAfter(s: Slot, t: Tid, a: Action)
    requires Inv(s) && Enabled(s, t, a)
    ensures Owned(Apply(s, t, a))
  {
    hide Apply, Conserved, Counted, Enabled, Backed, Informed, Local;
    assert Owned(s);
    InvIsLocal(s, t);
    StepIsLocal(s, t, a);
    var z := Apply(s, t, a);
    forall u
      ensures u in z.owner <==> z.PcOf(u).Owns()
    {
      if u != t {
        OthersStay(s, t, a, u);
      }
    }
  }

  // ---------------------------------------------------------------- values

  /** What a step does to the stored value. */
  ghost predicate ValueChange(s: Slot, t: Tid, z: Slot) {
    || (z.item == s.item && z.given == s.given && z.freed == s.freed && z.Live() == s.Live())
    || (!s.Live() && z.Live() && z.item.id !in s.given && z.given == s.given + {z.item.id} && z.freed == s.freed)
    || (&& s.Live() && !z.Live() && z.item == s.item && z.given == s.given
        && z.freed == s.freed[s.item.id := s.freed[s.item.id] + 1])
  }

  lemma LiveIs(s: Slot, t: Tid)
    requires Local(s, t)
    ensures s.PcOf(t).Owns() ==> (s.Live() <==> s.PcOf(t).Written? || s.PcOf(t).Freeing?)
    ensures s.owner == {} ==> (s.Live() <==> s.meta.state.Shareable())
  {
  }

  lemma OwnerValueAfter(s: Slot, t: Tid, a: Action)
    requires Local(s, t) && Enabled(s, t, a) && ByOwner(a)
    ensures ValueChange(s, t, Apply(s, t, a))
  {
    hide Exchanged, Grab, Compared;
    LiveIs(s, t);
  }

  lemma ExchangeValueAfter(s: Slot, t: Tid, fails: bool)
    requires Local(s, t) && Enabled(s, t, CompareExchange(fails))
    ensures ValueChange(s, t, Exchanged(s, t, fails))
  {
    LiveIs(s, t);
  }

  lemma OtherValueAfter(s: Slot, t: Tid, a: Action)
    requires Local(s, t) && Enabled(s, t, a) && !ByOwner(a)
    ensures ValueChange(s, t, Apply(s, t, a))
  {
    hide Exchanged;
    LiveIs(s, t);
    if a.CompareExchange? {
      ExchangeValueAfter(s, t, a.fails);
    }
  }

  lemma StepKeepsInv(s: Slot, t: Tid, a: Action)
    requires Inv(s) && Enabled(s, t, a)
    ensures Inv(Apply(s, t, a))
  {
    hide Apply, Enabled, Counted, Owned, Local, Informed, OwnerChange;
    var z := Apply(s, t, a);
    InvIsLocal(s, t);
    StepIsLocal(s, t, a);
    OwnedAfter(s, t, a);
    forall u
      ensures Informed(z, u) && z.PcOf(u).Held() <= z.refs[u]
    {
      if u != t {
        InformedOther(s, t, a, u);
      }
    }
    assert Conserved(z) by {
      hide Slot.Live;
      if ByOwner(a) {
        OwnerValueAfter(s, t, a);
      } else {
        OtherValueAfter(s, t, a);
      }
    }
  }

  // ---------------------------------------------------------------- whole runs

  /** A run: each step is some thread's next action. */
  ghost predicate IsRun(run: seq<Slot>, steps: seq<(Tid, Action)>) {
    && |run| == |steps| + 1
    && run[0].meta.state.Empty? && run[0].pcs == map[] && run[0].refs == multiset{} && run[0].owner == {}
    && run[0].given == {} && run[0].freed == multiset{}
    && forall i :: 0 <= i < |steps| ==> Follows(run[i], steps[i], run[i + 1])
  }

  ghost predicate Follows(s: Slot, step: (Tid, Action), z: Slot) {
    Enabled(s, step.0, step.1) && z == Apply(s, step.0, step.1)
  }

  lemma {:induction false} InvAlways(run: seq<Slot>, steps: seq<(Tid, Action)>, i: nat)
    requires IsRun(run, steps) && i < |run|
    ensures Inv(run[i])
  {
    if i > 0 {
      hide Inv, Apply, Enabled;
      InvAlways(run, steps, i - 1);
      assert Follows(run[i - 1], steps[i - 1], run[i]);
      StepKeepsInv(run[i - 1], steps[i - 1].0, steps[i - 1].1);
    }
  }

  /** Construction is exclusive: one owner, no references, no readers. */
  lemma ConstructionIsExclusive(run: seq<Slot>, steps: seq<(Tid, Action)>, i: nat, t: Tid, u: Tid)
    requires IsRun(run, steps) && i < |run| && run[i].PcOf(t).Owns()
    ensures run[i].meta.state.Construction? && run[i].refs == multiset{}
    ensures run[i].PcOf(u).Owns() ==> u == t
    ensures !run[i].PcOf(u).Reads()
  {
    InvAlways(run, steps, i);
    assert t in run[i].owner;
    assert run[i].PcOf(u).Held() <= run[i].refs[u];
    assert Informed(run[i], u);
  }

  /** No value is freed twice, and none is lost: each one handed in is stored or freed. */
  lemma FreedOnce(run: seq<Slot>, steps: seq<(Tid, Action)>, i: nat, id: nat)
    requires IsRun(run, steps) && i < |run|
    ensures run[i].freed[id] <= 1
    ensures id in run[i].given <==> run[i].freed[id] == 1 || (run[i].Live() && run[i].item.id == id)
    ensures run[i].meta.state.Empty? ==> (id in run[i].given <==> run[i].freed[id] == 1)
  {
    InvAlways(run, steps, i);
    assert run[i].owner == {} ==> (run[i].Live() <==> run[i].meta.state.Shareable());
  }

  lemma OwnReferenceIsStable(s: Slot, t: Tid, a: Action)
    requires Inv(s) && Enabled(s, t, a) && s.refs[t] > 0 && Apply(s, t, a).refs[t] > 0
    ensures Apply(s, t, a).item == s.item && Apply(s, t, a).freed == s.freed
  {
    HolderExcludesOwner(s, t);
  }

  /** From when a thread has a reference until it gives it up, the value is the same and is not freed. */
  lemma {:induction false} ReferencedValueStays(run: seq<Slot>, steps: seq<(Tid, Action)>, i: nat, j: nat, u: Tid)
    requires IsRun(run, steps) && i <= j < |run|
    requires forall k :: i <= k <= j ==> run[k].refs[u] > 0
    ensures run[j].item == run[i].item
    ensures run[j].freed[run[j].item.id] == 0
    ensures run[j].meta.state.Shareable()
  {
    hide Apply, Enabled;
    InvAlways(run, steps, j);
    HolderExcludesOwner(run[j], u);
    if i < j {
      ReferencedValueStays(run, steps, i, j - 1, u);
      InvAlways(run, steps, j - 1);
      assert Follows(run[j - 1], steps[j - 1], run[j]);
      var t, a := steps[j - 1].0, steps[j - 1].1;
      if t == u {
        OwnReferenceIsStable(run[j - 1], t, a);
      } else {
        ReferencedIsStable(run[j - 1], t, a, u);
      }
    }
  }

  /**
   The assertions in the code never fail: a store that ends Construction finds Construction, a
   reference given back was counted in a shareable state, an erased entry still has its key.
   */
  lemma AssertionsHold(run: seq<Slot>, steps: seq<(Tid, Action)>, i: nat, t: Tid)
    requires IsRun(run, steps) && i < |run|
    ensures run[i].PcOf(t).Written? || run[i].PcOf(t).Emptying? ==> run[i].meta.state.Construction?
    ensures run[i].refs[t] > 0 ==> run[i].meta.state.Shareable() && run[i].meta.RefCount() > 0
    ensures run[i].PcOf(t).Dropping? ==> run[i].meta.RefCount() >= run[i].PcOf(t).n > 0
    ensures run[i].PcOf(t).EraseLoop? ==> run[i].item.key == run[i].PcOf(t).key && run[i].PcOf(t).seen.RefCount() > 0
  {
    InvAlways(run, steps, i);
    InvIsLocal(run[i], t);
  }

  // ---------------------------------------------------------------- keys

  /** A reader goes on as with a match exactly when the stored key is the one it looks for. */
  lemma CompareDecides(s: Slot, t: Tid)
    requires Enabled(s, t, Compare)
    ensures var pc, z := s.PcOf(t), Apply(s, t, Compare).PcOf(t);
            match pc
            case LookupCompare(key) => if s.item.key == key then z == LookupHit(key) else z == Dropping(1)
            case InsertCompare(item, n) =>
              if s.item.key == item.key then z == Boosting(item.key, n) else z == Dropping(n)
            case EraseCompare(key) => if s.item.key == key then z == EraseHide(key) else z == Dropping(1)
    ensures Apply(s, t, Compare).meta == s.meta && Apply(s, t, Compare).refs == s.refs
  {
  }

  /** In every run, what a Lookup keeps a reference on has the key it looked for; so with an insertion's match. */
  lemma HitHasKey(run: seq<Slot>, steps: seq<(Tid, Action)>, i: nat, t: Tid)
    requires IsRun(run, steps) && i < |run| && (run[i].PcOf(t).LookupHit? || run[i].PcOf(t).Boosting?)
    ensures run[i].item.key == run[i].PcOf(t).key && run[i].refs[t] > 0 && run[i].meta.state.Shareable()
  {
    InvAlways(run, steps, i);
    assert Informed(run[i], t);
    assert run[i].PcOf(t).Held() <= run[i].refs[t];
    HolderExcludesOwner(run[i], t);
  }

  /** A Lookup gets as far as a comparison only on a visible entry, which then has its reference. */
  lemma LookupTakesVisible(s: Slot, t: Tid, key: Key)
    requires Enabled(s, t, BeginLookup(key))
    ensures var z := Apply(s, t, BeginLookup(key));
            && (z.PcOf(t) == LookupCompare(key) <==> s.meta.state.Visible?)
            && (s.meta.state.Shareable() ==> z.refs[t] == s.refs[t] + 1)
            && (!s.meta.state.Shareable() ==> z.PcOf(t).Idle? && z.refs == s.refs)
  {
  }
}
