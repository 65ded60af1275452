/**
 Thread-local caching of the SuperVersion (db/column_family.cc): readers swap a cached pointer out
 and back in without a lock, while an installing thread scrapes all thread-local slots.  A step is
 one atomic access, or one critical section of the database mutex that is not interrupted by others.
 */
module SuperVersions {

  type Tid = nat
  type Id = nat

  /** A thread-local slot. */
  datatype Local = Obsolete | InUse | Cached(id: Id)

  /** Where a reader is. */
  datatype Pc = Idle | Need | Using(id: Id) | Dropping(id: Id)

  /** An installation in progress: the version replaced, the slots that must still be scraped, the pointers scraped. */
  datatype Install = None | Installing(replaced: Id, left: set<Tid>, scraped: map<Tid, Id>)

  datatype State = State(
    installed: Id, refs: map<Id, int>, locals: map<Tid, Local>, pcs: map<Tid, Pc>,
    extra: map<nat, Id>, install: Install, freed: set<Id>)
  {
    function LocalOf(t: Tid): Local { if t in locals then locals[t] else Obsolete }
    function PcOf(t: Tid): Pc { if t in pcs then pcs[t] else Idle }
    function Refs(id: Id): int { if id in refs then refs[id] else 0 }
    /** one reference more, or less; at zero the version is freed */
    function Ref(id: Id): State { this.(refs := refs[id := Refs(id) + 1]) }
    function Unref(id: Id): State {
      this.(refs := refs[id := Refs(id) - 1], freed := if Refs(id) == 1 then freed + {id} else freed)
    }
  }

  datatype Action =
    | Swap(t: Tid)
    | Acquire(t: Tid)
    | TakeExtra(t: Tid, k: nat)
    | DropExtra(k: nat)
    | Return(t: Tid)
    | Drop(t: Tid)
    | BeginInstall(id: Id)
    | Scrape(t: Tid)
    | UnrefScraped(t: Tid)
    | EndInstall

  predicate Enabled(s: State, a: Action) {
    match a
    case Swap(t) => s.PcOf(t).Idle?
    case Acquire(t) => s.PcOf(t).Need? && s.install.None?
    case TakeExtra(t, k) => s.PcOf(t).Using? && k !in s.extra
    case DropExtra(k) => k in s.extra
    case Return(t) => s.PcOf(t).Using?
    case Drop(t) => s.PcOf(t).Dropping?
    case BeginInstall(id) => s.install.None? && id !in s.refs
      // every slot that was there at the start, and any that came since
    case Scrape(t) => s.install.Installing? && (t in s.install.left || t in s.locals)
    case UnrefScraped(t) => s.install.Installing? && s.install.left == {} && t in s.install.scraped
    case EndInstall => s.install.Installing? && s.install.left == {} && s.install.scraped == map[]
  }

  function Apply(s: State, a: Action): State
    requires Enabled(s, a)
  {
    match a
    case Swap(t) =>
      s.(locals := s.locals[t := InUse],
         pcs := s.pcs[t := if s.LocalOf(t).Cached? then Using(s.LocalOf(t).id) else Need])
    case Acquire(t) => s.Ref(s.installed).(pcs := s.pcs[t := Using(s.installed)])
    case TakeExtra(t, k) => s.Ref(s.PcOf(t).id).(extra := s.extra[k := s.PcOf(t).id])
    case DropExtra(k) => s.Unref(s.extra[k]).(extra := s.extra - {k})
    case Return(t) =>
      if s.LocalOf(t).InUse?
      then s.(locals := s.locals[t := Cached(s.PcOf(t).id)], pcs := s.pcs[t := Idle])
      else s.(pcs := s.pcs[t := Dropping(s.PcOf(t).id)])
    case Drop(t) => s.Unref(s.PcOf(t).id).(pcs := s.pcs[t := Idle])
    case BeginInstall(id) =>
      s.(refs := s.refs[id := 1], installed := id, install := Installing(s.installed, s.locals.Keys, map[]))
    case Scrape(t) =>
      var i := s.install;
      var scraped := if s.LocalOf(t).Cached? then i.scraped[t := s.LocalOf(t).id] else i.scraped;
      s.(locals := s.locals[t := Obsolete], install := Installing(i.replaced, i.left - {t}, scraped))
    case UnrefScraped(t) =>
      var i := s.install;
      s.Unref(i.scraped[t]).(install := Installing(i.replaced, i.left, i.scraped - {t}))
    case EndInstall => s.Unref(s.install.replaced).(install := None)
  }

  // ---------------------------------------------------------------- who holds a reference

  datatype Owner = Installed | Replaced | InSlot(t: Tid) | Held(t: Tid) | Extra(k: nat) | Scraped(t: Tid)

  /** Everything that counts as a reference to a version. */
  ghost predicate Owns(s: State, o: Owner, id: Id) {
    match o
    case Installed => s.installed == id
    case Replaced => s.install.Installing? && s.install.replaced == id
    case InSlot(t) => s.LocalOf(t) == Cached(id)
    case Held(t) => s.PcOf(t) == Using(id) || s.PcOf(t) == Dropping(id)
    case Extra(k) => k in s.extra && s.extra[k] == id
    case Scraped(t) => s.install.Installing? && t in s.install.scraped && s.install.scraped[t] == id
  }

  ghost function Owners(s: State, id: Id): set<Owner> {
    set o | o in Candidates(s) && Owns(s, o, id)
  }

  ghost function Candidates(s: State): set<Owner> {
    {Installed, Replaced}
    + (set t | t in s.locals :: InSlot(t)) + (set t | t in s.pcs :: Held(t)) + (set k | k in s.extra :: Extra(k))
    + (if s.install.Installing? then set t | t in s.install.scraped :: Scraped(t) else {})
  }

  lemma OwnersAre(s: State, id: Id, o: Owner)
    ensures o in Owners(s, id) <==> Owns(s, o, id)
  {
  }

  // ---------------------------------------------------------------- the invariant

  /** The count is the number of owners, and zero means freed. */
  ghost predicate Counted(s: State, id: Id) {
    && s.Refs(id) == |Owners(s, id)|
    && (id in s.freed <==> id in s.refs && s.refs[id] == 0)
    && (Owners(s, id) != {} ==> id in s.refs)
  }

  /** What a thread's slot holds agrees with where the thread is. */
  ghost predicate Consistent(s: State, t: Tid) {
    && (s.LocalOf(t).InUse? ==> s.PcOf(t).Need? || s.PcOf(t).Using?)
    && (s.LocalOf(t).Cached? ==> s.PcOf(t).Idle? || s.PcOf(t).Dropping?)
    && (s.install.None? ==>
          && (s.LocalOf(t).Cached? ==> s.LocalOf(t).id == s.installed)
          && (s.LocalOf(t).InUse? && s.PcOf(t).Using? ==> s.PcOf(t).id == s.installed))
    && (s.install.Installing? ==>
          && (s.LocalOf(t).Cached? ==> t in s.install.left && s.LocalOf(t).id == s.install.replaced)
          && (s.LocalOf(t).InUse? && s.PcOf(t).Using? ==> t in s.install.left && s.PcOf(t).id == s.install.replaced)
          && (t in s.install.scraped ==> s.install.scraped[t] == s.install.replaced && t !in s.install.left))
  }

  ghost predicate Inv(s: State) {
    && (forall id :: Counted(s, id))
    && (forall t :: Consistent(s, t))
    && (s.install.Installing? ==> s.install.replaced != s.installed)
  }

  // ---------------------------------------------------------------- references move, and are counted

  /** The owner that a step takes a reference from. */
  ghost function From(s: State, a: Action, id: Id): set<Owner>
    requires Enabled(s, a)
  {
    match a
    case Swap(t) => if s.LocalOf(t) == Cached(id) then {InSlot(t)} else {}
    case DropExtra(k) => if s.extra[k] == id then {Extra(k)} else {}
    case Return(t) => if s.PcOf(t).id == id && s.LocalOf(t).InUse? then {Held(t)} else {}
    case Drop(t) => if s.PcOf(t).id == id then {Held(t)} else {}
    case BeginInstall(_) => if s.installed == id then {Installed} else {}
    case Scrape(t) => if s.LocalOf(t) == Cached(id) then {InSlot(t)} else {}
    case UnrefScraped(t) => if s.install.scraped[t] == id then {Scraped(t)} else {}
    case EndInstall => if s.install.replaced == id then {Replaced} else {}
    case _ => {}
  }

  /** The owner that a step gives a reference to. */
  ghost function To(s: State, a: Action, id: Id): set<Owner>
    requires Enabled(s, a)
  {
    match a
    case Swap(t) => if s.LocalOf(t) == Cached(id) then {Held(t)} else {}
    case Acquire(t) => if s.installed == id then {Held(t)} else {}
    case TakeExtra(t, k) => if s.PcOf(t).id == id then {Extra(k)} else {}
    case Return(t) => if s.PcOf(t).id == id && s.LocalOf(t).InUse? then {InSlot(t)} else {}
    case BeginInstall(next) => if next == id then {Installed} else if s.installed == id then {Replaced} else {}
    case Scrape(t) => if s.LocalOf(t) == Cached(id) then {Scraped(t)} else {}
    case _ => {}
  }

  lemma OwnsAfter(s: State, a: Action, id: Id, o: Owner)
    requires Enabled(s, a)
    requires a.Swap? || a.Scrape? || a.Return? ==> Consistent(s, a.t)
    requires s.installed in s.refs && (id !in s.refs ==> !Owns(s, o, id))
    ensures Owns(Apply(s, a), o, id) <==> (Owns(s, o, id) && o !in From(s, a, id)) || o in To(s, a, id)
    ensures o in From(s, a, id) ==> Owns(s, o, id)
    ensures o in To(s, a, id) ==> !Owns(s, o, id)
  {
  }

  lemma OwnersAfter(s: State, a: Action, id: Id)
    requires Inv(s) && Enabled(s, a)
    ensures Owners(Apply(s, a), id) == Owners(s, id) - From(s, a, id) + To(s, a, id)
    ensures From(s, a, id) <= Owners(s, id) && To(s, a, id) !! Owners(s, id)
  {
    var z := Apply(s, a);
    OwnerIsCounted(s, Installed, s.installed);
    hide Owns, Owners, From, To, Apply, Enabled, Consistent;
    assert Counted(s, id);
    forall o
      ensures o in Owners(z, id) <==> (o in Owners(s, id) && o !in From(s, a, id)) || o in To(s, a, id)
      ensures o in From(s, a, id) ==> o in Owners(s, id)
      ensures o in To(s, a, id) ==> o !in Owners(s, id)
    {
      OwnersAre(s, id, o);
      OwnersAre(z, id, o);
      OwnsAfter(s, a, id, o);
    }
  }

  /** The number of references changes as the owners do. */
  lemma CountedAfter(s: State, a: Action, id: Id)
    requires Inv(s) && Enabled(s, a)
    ensures Counted(Apply(s, a), id)
  {
    hide Owners, From, To, Apply, Enabled, Consistent;
    OwnersAfter(s, a, id);
    RefsAfter(s, a, id);
    assert Counted(s, id);
    assert |Owners(s, id) - From(s, a, id)| == |Owners(s, id)| - |From(s, a, id)|;
  }

  /** Whatever is owned has a count above zero, and has not been freed. */
  lemma OwnerIsCounted(s: State, o: Owner, id: Id)
    requires Inv(s) && Owns(s, o, id)
    ensures id in s.refs && s.refs[id] >= 1 && id !in s.freed
  {
    OwnersAre(s, id, o);
    assert Counted(s, id);
    assert |Owners(s, id)| != 0;
  }

  lemma RefsAfter(s: State, a: Action, id: Id)
    requires Inv(s) && Enabled(s, a)
    ensures var z := Apply(s, a);
            && z.Refs(id) == s.Refs(id) - |From(s, a, id)| + |To(s, a, id)|
            && (id in s.refs ==> id in z.refs)
            && (To(s, a, id) != {} ==> id in z.refs)
            && (id in z.freed <==> id in s.freed || (s.Refs(id) == 1 && z.Refs(id) == 0))
            && (id in z.refs && z.refs[id] == 0 ==> id in s.refs)
            && (To(s, a, id) != {} && id in s.refs ==> s.refs[id] >= 1)
            && |From(s, a, id)| <= 1
  {
    hide Owners;
    assert Counted(s, id);
    OwnerIsCounted(s, Installed, s.installed);
    match a
    case TakeExtra(t, _) => OwnerIsCounted(s, Held(t), s.PcOf(t).id);
    case Drop(t) => OwnerIsCounted(s, Held(t), s.PcOf(t).id);
    case Return(t) => OwnerIsCounted(s, Held(t), s.PcOf(t).id);
    case Swap(t) => if s.LocalOf(t).Cached? { OwnerIsCounted(s, InSlot(t), s.LocalOf(t).id); }
    case Scrape(t) => if s.LocalOf(t).Cached? { OwnerIsCounted(s, InSlot(t), s.LocalOf(t).id); }
    case DropExtra(k) => OwnerIsCounted(s, Extra(k), s.extra[k]);
    case UnrefScraped(t) => OwnerIsCounted(s, Scraped(t), s.install.scraped[t]);
    case EndInstall => OwnerIsCounted(s, Replaced, s.install.replaced);
    case _ =>
  }

  lemma ConsistentAfter(s: State, a: Action, t: Tid)
    requires Inv(s) && Enabled(s, a)
    ensures Consistent(Apply(s, a), t)
  {
    hide Counted;
    assert Consistent(s, t);
  }

  lemma StepKeepsInv(s: State, a: Action)
    requires Inv(s) && Enabled(s, a)
    ensures Inv(Apply(s, a))
  {
    forall id
      ensures Counted(Apply(s, a), id)
    {
      CountedAfter(s, a, id);
    }
    forall t
      ensures Consistent(Apply(s, a), t)
    {
      ConsistentAfter(s, a, t);
    }
    OwnerIsCounted(s, Installed, s.installed);
    hide Counted, Consistent;
  }

  // ---------------------------------------------------------------- whole runs

  ghost predicate Initial(s: State) {
    && s.refs == map[s.installed := 1] && s.locals == map[] && s.pcs == map[] && s.extra == map[]
    && s.install.None? && s.freed == {}
  }

  ghost predicate IsRun(run: seq<State>, steps: seq<Action>) {
    && |run| == |steps| + 1
    && Initial(run[0])
    && forall i :: 0 <= i < |steps| ==> Follows(run[i], steps[i], run[i + 1])
  }

  ghost predicate Follows(s: State, a: Action, z: State) {
    Enabled(s, a) && z == Apply(s, a)
  }

  lemma InitialInv(s: State)
    requires Initial(s)
    ensures Inv(s)
  {
    forall id
      ensures Counted(s, id)
    {
      forall o
        ensures o in Owners(s, id) <==> o == Installed && id == s.installed
      {
        OwnersAre(s, id, o);
      }
      assert Owners(s, id) == if id == s.installed then {Installed} else {};
    }
  }

  lemma {:induction false} InvAlways(run: seq<State>, steps: seq<Action>, i: nat)
    requires IsRun(run, steps) && i < |run|
    ensures Inv(run[i])
  {
    hide Inv, Apply, Enabled;
    if i == 0 {
      InitialInv(run[0]);
    } else {
      InvAlways(run, steps, i - 1);
      assert Follows(run[i - 1], steps[i - 1], run[i]);
      StepKeepsInv(run[i - 1], steps[i - 1]);
    }
  }

  /**
   The count of a version is exactly the number of its owners, at every moment; and a version that was
   ever installed has been freed exactly when it has no owner.
   */
  lemma RefsAreOwners(run: seq<State>, steps: seq<Action>, i: nat, id: Id)
    requires IsRun(run, steps) && i < |run|
    ensures run[i].Refs(id) == |Owners(run[i], id)|
    ensures id in run[i].freed <==> id in run[i].refs && forall o :: !Owns(run[i], o, id)
  {
    InvAlways(run, steps, i);
    assert Counted(run[i], id);
    if id in run[i].freed {
      forall o
        ensures !Owns(run[i], o, id)
      {
        OwnersAre(run[i], id, o);
      }
    } else if o :| o in Owners(run[i], id) {
      OwnersAre(run[i], id, o);
    }
  }

  /** What a reader starts to use is the installed version, or the one that is just being replaced. */
  lemma ReaderGetsCurrent(run: seq<State>, steps: seq<Action>, i: nat, t: Tid)
    requires IsRun(run, steps) && i < |steps| && !run[i].PcOf(t).Using? && run[i + 1].PcOf(t).Using?
    ensures run[i + 1].PcOf(t).id ==
            if run[i].install.None? then run[i].installed else run[i].install.replaced
  {
    InvAlways(run, steps, i);
    assert Follows(run[i], steps[i], run[i + 1]);
    assert Consistent(run[i], t);
  }

  /** Outside an installation, a cached version is the installed one. */
  lemma CachedIsInstalled(run: seq<State>, steps: seq<Action>, i: nat, t: Tid)
    requires IsRun(run, steps) && i < |run| && run[i].install.None? && run[i].LocalOf(t).Cached?
    ensures run[i].LocalOf(t).id == run[i].installed
  {
    InvAlways(run, steps, i);
    assert Consistent(run[i], t);
  }

  /** A reader never holds a freed version. */
  lemma UsedIsLive(run: seq<State>, steps: seq<Action>, i: nat, t: Tid)
    requires IsRun(run, steps) && i < |run| && run[i].PcOf(t).Using?
    ensures run[i].Refs(run[i].PcOf(t).id) >= 1 && run[i].PcOf(t).id !in run[i].freed
  {
    InvAlways(run, steps, i);
    OwnerIsCounted(run[i], Held(t), run[i].PcOf(t).id);
  }

  /** The scrape never drops the last reference: the replaced version still counts as installed. */
  lemma ScrapeIsNeverLast(run: seq<State>, steps: seq<Action>, i: nat)
    requires IsRun(run, steps) && i < |steps| && steps[i].UnrefScraped? && Enabled(run[i], steps[i])
    ensures run[i].Refs(run[i].install.scraped[steps[i].t]) >= 2
    ensures run[i + 1].freed == run[i].freed
  {
    var s, t := run[i], steps[i].t;
    InvAlways(run, steps, i);
    assert Follows(s, steps[i], run[i + 1]);
    assert Consistent(s, t);
    var id := s.install.scraped[t];
    OwnersAre(s, id, Scraped(t));
    OwnersAre(s, id, Replaced);
    assert Counted(s, id);
    assert |Owners(s, id) - {Replaced}| == |Owners(s, id)| - 1;
    assert Scraped(t) in Owners(s, id) - {Replaced};
  }

  /** The assertions in the code hold: no nested use of a slot, and a failed put-back finds it scraped. */
  lemma AssertionsHold(run: seq<State>, steps: seq<Action>, i: nat, t: Tid)
    requires IsRun(run, steps) && i < |run|
    ensures run[i].PcOf(t).Idle? ==> !run[i].LocalOf(t).InUse?
    ensures run[i].PcOf(t).Using? && !run[i].LocalOf(t).InUse? ==> run[i].LocalOf(t).Obsolete?
  {
    InvAlways(run, steps, i);
    assert Consistent(run[i], t);
  }

  /** A version put back in its slot is the installed one, or will be collected by the scrape in progress. */
  lemma PutBackIsCurrent(run: seq<State>, steps: seq<Action>, i: nat)
    requires IsRun(run, steps) && i < |steps| && steps[i].Return?
    ensures var t := steps[i].t;
            var s := run[i];
            run[i + 1].LocalOf(t).Cached? ==>
              if s.install.None? then s.PcOf(t).id == s.installed
                        else s.PcOf(t).id == s.install.replaced && t in s.install.left
  {
    InvAlways(run, steps, i);
    assert Follows(run[i], steps[i], run[i + 1]);
    assert Consistent(run[i], steps[i].t);
  }
}
