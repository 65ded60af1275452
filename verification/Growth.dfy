/**
 Concurrent growth of the linear-hashing table (cache/clock_cache.cc): any number of threads run
 `Grow` and `CatchUpLengthInfoNoWait`, each of their atomic accesses being one step.  What a
 thread finds at the published length must be ready for it.
 */
module Growth {
  import opened Bits
  import opened LinearHashing

  /** How far the `Grow` for one home has come. */
  datatype Stage = Reserved | Waited | OneStored | Published

  /** A call of `CatchUpLengthInfoNoWait`: the length it last saw, and whether it may try to raise it. */
  datatype CatchUp = CatchUp(known: nat, seen: nat, checked: bool)

  /**
   `heads` gives the shift of each initialised head; a home that is missing is unused.
   `grows` records every home that was ever reserved.
   */
  datatype Table = Table(
    count: nat, heads: map<nat, nat>, frontier: nat, length: nat,
    grows: map<nat, Stage>, catchUps: map<nat, CatchUp>)
  {
    /** Both heads of the split that makes `g` have the new shift. */
    predicate Ready(g: nat) {
      g >= 1 && OldHome(g) in heads && heads[OldHome(g)] > OldShift(g)
    }
  }

  datatype Action =
    | Reserve
    | ResetFrontier
    | Wait(g: nat)
    | StoreOneHead(g: nat)
    | PublishZeroHead(g: nat)
    | StartCatchUp(t: nat, known: nat)
    | Check(t: nat)
    | Raise(t: nat)
    | EndCatchUp(t: nat)

  predicate Enabled(s: Table, a: Action) {
    match a
    case Reserve => true
    case ResetFrontier => s.frontier > s.count
      // the watched head has the shift that the split starts from
    case Wait(g) => g in s.grows && s.grows[g] == Reserved && g >= 2
                    && OldOldHome(g) in s.heads && s.heads[OldOldHome(g)] >= OldShift(g)
    case StoreOneHead(g) => g >= 1 && g in s.grows && (s.grows[g] == Waited || s.grows[g] == OneStored)
    case PublishZeroHead(g) => g >= 1 && g in s.grows && s.grows[g] == OneStored
      // the end of `Grow`, or an insertion that met a head with a larger shift than it expected
    case StartCatchUp(t, known) => t !in s.catchUps && s.Ready(known)
    case Check(t) => t in s.catchUps && !s.catchUps[t].checked && s.catchUps[t].seen <= s.catchUps[t].known
                     && s.catchUps[t].seen >= 1
                     && (s.catchUps[t].seen < s.catchUps[t].known ==> s.Ready(s.catchUps[t].seen))
    case Raise(t) => t in s.catchUps && s.catchUps[t].checked
    case EndCatchUp(t) => t in s.catchUps
  }

  function Apply(s: Table, a: Action): Table
    requires Enabled(s, a)
  {
    match a
    case Reserve =>
      var g := s.frontier;
      if g >= s.count then s.(frontier := g + 1)
      else s.(frontier := g + 1, grows := s.grows[g := Reserved])
    case ResetFrontier => s.(frontier := s.count)
    case Wait(g) => s.(grows := s.grows[g := Waited])
    case StoreOneHead(g) =>
      s.(heads := s.heads[g := OldShift(g) + 1], grows := s.grows[g := OneStored])
    case PublishZeroHead(g) =>
      s.(heads := s.heads[OldHome(g) := OldShift(g) + 1], grows := s.grows[g := Published])
    case StartCatchUp(t, known) => s.(catchUps := s.catchUps[t := CatchUp(known, s.length, false)])
    case Check(t) => s.(catchUps := s.catchUps[t := s.catchUps[t].(checked := true)])
    case Raise(t) =>
      var c := s.catchUps[t];
      if s.length == c.seen
      then s.(length := c.seen + 1, catchUps := s.catchUps[t := CatchUp(c.known, c.seen + 1, false)])
      else s.(catchUps := s.catchUps[t := CatchUp(c.known, s.length, false)])
    case EndCatchUp(t) => s.(catchUps := s.catchUps - {t})
  }

  /** A new table: every home of the starting length has its head. */
  ghost predicate Initial(s: Table) {
    && 2 <= s.length <= s.count && s.frontier == s.length && s.grows == map[] && s.catchUps == map[]
    && (forall i: nat :: i in s.heads <==> 0 <= i < s.length)
    && (forall i: nat :: 0 <= i < s.length ==> s.heads[i] == HomeShift(s.length, i))
  }

  // ---------------------------------------------------------------- the invariant

  /** A home whose split is announced by its old home is initialised, with the new shift. */
  ghost predicate ReadyIsInitialised(s: Table) {
    forall g: nat :: s.Ready(g) ==> g in s.heads && s.heads[g] > OldShift(g)
  }

  /** Only its own `Grow` makes a home ready. */
  ghost predicate OwnGrow(s: Table) {
    forall g: nat :: s.Ready(g) ==> g < s.frontier && g < s.count && (g in s.grows ==> s.grows[g] == Published)
  }

  /** A home without a head has not stored one yet. */
  ghost predicate HeadIsStored(s: Table) {
    forall g: nat :: g in s.heads ==>
      && g < s.frontier && g < s.count
      && (g in s.grows ==> s.grows[g] == OneStored || s.grows[g] == Published)
  }

  /** The old home has at least the shift to split from, and its own `Grow` has published it. */
  ghost predicate OldIsReady(s: Table, g: nat)
    requires g >= 1
  {
    && OldHome(g) in s.heads && s.heads[OldHome(g)] >= OldShift(g)
    && (OldHome(g) in s.grows ==> s.grows[OldHome(g)] == Published)
  }

  /** After the wait, the old home is ready. */
  ghost predicate OldIsThere(s: Table) {
    forall g: nat :: g in s.grows ==>
      && 2 <= g < s.frontier && g < s.count
      && (s.grows[g] != Reserved ==> OldIsReady(s, g))
      && (s.grows[g] == OneStored ==> g in s.heads && s.heads[g] == OldShift(g) + 1)
      && (s.grows[g] == Published ==> s.Ready(g))
  }

  ghost predicate PublishedAreReady(s: Table) {
    && s.length >= 2 && 0 in s.heads
    && (forall g: nat :: 1 <= g < s.length ==> s.Ready(g))
    && (forall t :: t in s.catchUps ==>
          s.Ready(s.catchUps[t].known) && (s.catchUps[t].checked ==> s.Ready(s.catchUps[t].seen)))
  }

  ghost predicate Inv(s: Table) {
    ReadyIsInitialised(s) && OwnGrow(s) && HeadIsStored(s) && OldIsThere(s) && PublishedAreReady(s)
  }

  /** When the zero head is about to be published, it still has exactly the old shift. */
  lemma OldShiftIsExact(s: Table, g: nat)
    requires Inv(s) && g >= 1 && g in s.grows && s.grows[g] in {Waited, OneStored}
    ensures OldHome(g) in s.heads && s.heads[OldHome(g)] == OldShift(g)
    ensures s.length <= g
  {
    assert !s.Ready(g);
  }

  /** Only publishing its zero head makes a home ready, and nothing makes it unready. */
  lemma ReadyAfter(s: Table, a: Action, x: nat)
    requires Inv(s) && Enabled(s, a)
    ensures Apply(s, a).Ready(x) <==> s.Ready(x) || a == PublishZeroHead(x)
  {
    hide PublishedAreReady, ReadyIsInitialised;
    match a
    case StoreOneHead(g) =>
      if x >= 1 && OldHome(x) == g {
        LaterShift(x);
      }
    case PublishZeroHead(g) =>
      OldShiftIsExact(s, g);
      if x >= 1 {
        OldHomeIs(x);
        OldHomeIs(g);
      }
    case _ =>
  }

  lemma HeadsAfter(s: Table, a: Action, x: nat)
    requires Inv(s) && Enabled(s, a)
    ensures x in s.heads ==> x in Apply(s, a).heads && s.heads[x] <= Apply(s, a).heads[x]
    ensures x in Apply(s, a).heads ==> x in s.heads || a == StoreOneHead(x)
    ensures s.length <= Apply(s, a).length
  {
    match a
    case PublishZeroHead(g) => OldShiftIsExact(s, g);
    case _ =>
  }

  /** The wait is enough: the old home has been split off with the shift that this split starts from. */
  lemma WaitSuffices(s: Table, g: nat)
    requires Inv(s) && Enabled(s, Wait(g))
    ensures OldIsReady(s, g)
  {
    OldOldHomeIs(g);
    OldHomeIs(g);
    var h := OldHome(g);
    if OldOldHome(g) != h {
      assert s.Ready(h);
    } else if h in s.grows {
      assert h < Pow2(OldShift(g) - 1);
      Pow2Monotone(OldShift(g) - 1, OldShift(h));
    }
  }

  lemma HeadsKept(s: Table, a: Action)
    requires Inv(s) && Enabled(s, a)
    ensures ReadyIsInitialised(Apply(s, a)) && OwnGrow(Apply(s, a)) && HeadIsStored(Apply(s, a))
  {
    hide PublishedAreReady;
    var z := Apply(s, a);
    forall x: nat
      ensures z.Ready(x) ==> x in z.heads && z.heads[x] > OldShift(x) && x < z.frontier && x < z.count
      ensures z.Ready(x) && x in z.grows ==> z.grows[x] == Published
      ensures x in z.heads ==> x < z.frontier && x < z.count && (x in z.grows ==> z.grows[x] in {OneStored, Published})
    {
      ReadyAfter(s, a, x);
      HeadsAfter(s, a, x);
      hide Table.Ready;
    }
  }

  lemma OldStaysReady(s: Table, a: Action, g: nat)
    requires Inv(s) && Enabled(s, a) && g >= 1 && OldIsReady(s, g)
    ensures OldIsReady(Apply(s, a), g)
  {
    hide ReadyIsInitialised, PublishedAreReady, OwnGrow;
    HeadsAfter(s, a, OldHome(g));
  }

  lemma OneHeadStays(s: Table, a: Action, g: nat)
    requires Inv(s) && Enabled(s, a) && g in s.grows && s.grows[g] == OneStored
    ensures g in Apply(s, a).heads && Apply(s, a).heads[g] == OldShift(g) + 1
  {
    hide ReadyIsInitialised, PublishedAreReady, OwnGrow;
  }

  lemma GrowsKept(s: Table, a: Action, g: nat)
    requires Inv(s) && Enabled(s, a) && g in Apply(s, a).grows
    ensures var z := Apply(s, a);
            && 2 <= g < z.frontier && g < z.count
            && (z.grows[g] != Reserved ==> OldIsReady(z, g))
            && (z.grows[g] == OneStored ==> g in z.heads && z.heads[g] == OldShift(g) + 1)
            && (z.grows[g] == Published ==> z.Ready(g))
  {
    ReadyAfter(s, a, g);
    if a == Wait(g) {
      WaitSuffices(s, g);
      OldStaysReady(s, a, g);
    } else if g in s.grows && s.grows[g] != Reserved {
      OldStaysReady(s, a, g);
      if s.grows[g] == OneStored {
        OneHeadStays(s, a, g);
      }
    }
    hide Table.Ready, OldIsReady, ReadyIsInitialised, HeadIsStored, OwnGrow;
  }

  lemma LengthKept(s: Table, a: Action)
    requires Inv(s) && Enabled(s, a)
    ensures PublishedAreReady(Apply(s, a))
  {
    hide Table.Ready, OldIsThere, ReadyIsInitialised, HeadIsStored, OwnGrow;
    var z := Apply(s, a);
    forall g: nat
      ensures s.Ready(g) ==> z.Ready(g)
    {
      ReadyAfter(s, a, g);
    }
    HeadsAfter(s, a, 0);
  }

  lemma StepKeepsInv(s: Table, a: Action)
    requires Inv(s) && Enabled(s, a)
    ensures Inv(Apply(s, a))
  {
    hide Apply, Table.Ready, OldIsReady, ReadyIsInitialised, HeadIsStored, OwnGrow, PublishedAreReady;
    HeadsKept(s, a);
    LengthKept(s, a);
    forall g: nat | g in Apply(s, a).grows
    {
      GrowsKept(s, a, g);
    }
  }

  /** A new table satisfies the invariant. */
  lemma InitialInv(s: Table)
    requires Initial(s)
    ensures Inv(s)
  {
    forall g: nat | g >= 1
      ensures s.Ready(g) <==> g < s.length
      ensures g < s.length ==> s.heads[g] > OldShift(g)
    {
      InitialReady(s, g);
    }
    HomeIsUsed(s.length, 0);
  }

  lemma InitialReady(s: Table, g: nat)
    requires Initial(s) && g >= 1
    ensures s.Ready(g) <==> g < s.length
    ensures g < s.length ==> s.heads[g] > OldShift(g)
  {
    var m := FloorLog2(s.length);
    OldHomeIs(g);
    OldHomeIs(s.length);
    var h := OldHome(g);
    SmallHash(h, m);
    SmallHash(g, m);
    Pow2Monotone(OldShift(g) + 1, m);
    Pow2Monotone(m, OldShift(g));
    Pow2Monotone(m + 1, OldShift(g));
  }

  lemma SmallHash(i: nat, m: nat)
    ensures i < Pow2(m) ==> BottomBits(i, m) == i
    ensures Pow2(m) <= i < 2 * Pow2(m) ==> BottomBits(i, m) == i - Pow2(m)
  {
    if i < Pow2(m) {
      DivModUnique(i, Pow2(m), 0, i);
    } else if i < 2 * Pow2(m) {
      DivModUnique(i, Pow2(m), 1, i - Pow2(m));
    }
  }

  // ---------------------------------------------------------------- whole runs

  ghost predicate IsRun(run: seq<Table>, steps: seq<Action>) {
    && |run| == |steps| + 1
    && Initial(run[0])
    && forall i :: 0 <= i < |steps| ==> Follows(run[i], steps[i], run[i + 1])
  }

  ghost predicate Follows(s: Table, a: Action, z: Table) {
    Enabled(s, a) && z == Apply(s, a)
  }

  lemma {:induction false} InvAlways(run: seq<Table>, steps: seq<Action>, i: nat)
    requires IsRun(run, steps) && i < |run|
    ensures Inv(run[i])
  {
    hide Inv, Apply, Enabled;
    if i == 0 {
      InitialInv(run[0]);
    } else {
      InvAlways(run, steps, i - 1);
      assert Follows(run[i - 1], steps[i - 1], run[i]);
      StepKeepsInv(run[i - 1], steps[i - 1]);
    }
  }

  /** The home of every hash, at the published length or an older one, is initialised with enough shift. */
  lemma HomesAreReady(s: Table, length: nat, hash: nat)
    requires Inv(s) && 2 <= length <= s.length
    ensures Home(length, hash) in s.heads && s.heads[Home(length, hash)] >= HomeShift(length, hash)
  {
    HomeComesFromSplit(length, hash);
    assert s.Ready(SplitOf(length, hash));
  }

  lemma PublishedHomesAreReady(run: seq<Table>, steps: seq<Action>, i: nat, length: nat, hash: nat)
    requires IsRun(run, steps) && i < |run| && 2 <= length <= run[i].length
    ensures Home(length, hash) in run[i].heads && run[i].heads[Home(length, hash)] >= HomeShift(length, hash)
  {
    InvAlways(run, steps, i);
    HomesAreReady(run[i], length, hash);
  }

  /** An insertion that finds a larger shift than it expected may go on with one more hash bit. */
  lemma LargerShiftIsReady(s: Table, home: nat, shift: nat)
    requires Inv(s) && home < Pow2(shift) && home in s.heads && s.heads[home] > shift
    ensures s.Ready(home + Pow2(shift))
    ensures home + Pow2(shift) in s.heads && s.heads[home + Pow2(shift)] > shift
  {
    SplitsOff(home, shift);
  }

  /** The loop of `CatchUpLengthInfoNoWait`, when no other thread moves the length. */
  ghost function CatchUpAlone(s: Table, t: nat): Table
    requires t in s.catchUps && s.catchUps[t].seen == s.length && !s.catchUps[t].checked
    decreases s.catchUps[t].known + 1 - s.length
  {
    if Enabled(s, Check(t)) then CatchUpAlone(Apply(Apply(s, Check(t)), Raise(t)), t) else s
  }

  /** It raises the length over every home that is ready, until the one it knows of is published. */
  lemma {:induction false} CatchUpRaises(s: Table, t: nat, z: Table)
    requires t in s.catchUps && s.catchUps[t].seen == s.length >= 1 && !s.catchUps[t].checked
    requires z == CatchUpAlone(s, t)
    ensures z.heads == s.heads && s.length <= z.length
    ensures forall g: nat :: s.length <= g < z.length && g < s.catchUps[t].known ==> s.Ready(g)
    ensures || z.length == s.length > s.catchUps[t].known
            || z.length == s.catchUps[t].known + 1
            || (z.length < s.catchUps[t].known && !s.Ready(z.length))
    decreases s.catchUps[t].known + 1 - s.length
  {
    hide Table.Ready;
    if Enabled(s, Check(t)) {
      var next := Apply(Apply(s, Check(t)), Raise(t));
      CatchUpRaises(next, t, z);
      SameReady(s, next);
    }
  }

  lemma SameReady(s: Table, z: Table)
    requires s.heads == z.heads
    ensures forall g: nat :: s.Ready(g) == z.Ready(g)
  {
  }

  /** The length and every shift only grow. */
  lemma {:induction false} OnlyGrows(run: seq<Table>, steps: seq<Action>, i: nat, j: nat, x: nat)
    requires IsRun(run, steps) && i <= j < |run|
    ensures run[i].length <= run[j].length
    ensures x in run[i].heads ==> x in run[j].heads && run[i].heads[x] <= run[j].heads[x]
  {
    hide Inv, Apply, Enabled;
    if i < j {
      OnlyGrows(run, steps, i, j - 1, x);
      InvAlways(run, steps, j - 1);
      assert Follows(run[j - 1], steps[j - 1], run[j]);
      HeadsAfter(run[j - 1], steps[j - 1], x);
    }
  }
}
