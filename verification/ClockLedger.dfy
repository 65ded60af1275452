/**
 Usage and occupancy accounting of the clock cache tables (cache/clock_cache.cc): every path of
 `Insert` and `CreateStandalone`, eviction, and the release of entries, as atomic steps of any
 number of threads that interleave in any order.
 */
module ClockLedger {

  /** A table slot, or a place for a standalone handle: vacant, or holding an entry with a charge. */
  datatype Cell = Vacant | Entry(charge: nat)

  /** What is fixed: capacity, charge for the table itself, and whether the capacity limit is strict. */
  datatype Config = Config(capacity: nat, metadata: nat, strict: bool)

  /** What an insertion is for: a table entry, with or without a handle, or a standalone handle only. */
  datatype Goal = Table(handle: bool) | Alone(allowUncharged: bool) {
    /** the occupancy that the operation has reserved in advance */
    function Reserved(): nat { if Table? then 1 else 0 }
  }

  datatype Pc =
    | Idle
      // occupancy is reserved; usage is not yet charged
    | Start(goal: Goal, charge: nat, evictForOccupancy: bool)
      // strict: `got` was added to usage, `need` has to come from evictions
    | Evicting(goal: Goal, charge: nat, evictForOccupancy: bool, got: int, need: int, freed: nat, count: nat)
    | Evicted(goal: Goal, charge: nat, evictForOccupancy: bool, got: int, need: int, freed: nat, count: nat)
      // not strict: nothing was added yet
    | Clearing(goal: Goal, charge: nat, evictForOccupancy: bool, freed: nat, count: nat)
    | Cleared(goal: Goal, charge: nat, freed: nat)
      // failed before charging
    | Refused(goal: Goal, charge: nat)
    | Unreserved(goal: Goal, charge: nat)
      // charged
    | Charged(goal: Goal, charge: nat)
    | NotPlaced(goal: Goal, charge: nat)
    | Refund(charge: nat)
    | Standing(charge: nat)
      // an entry was freed
    | Reclaim(charge: nat)
    | AloneFreed(charge: nat)
  {
    /** Usage that is counted but not in any entry, or already freed but still counted. */
    function Usage(): int {
      match this
      case Evicting(_, _, _, got, _, freed, _) => got + freed
      case Evicted(_, _, _, got, _, freed, _) => got + freed
      case Clearing(_, _, _, freed, _) => freed
      case Cleared(_, _, freed) => freed
      case Charged(_, c) => c
      case NotPlaced(_, c) => c
      case Refund(c) => c
      case Standing(c) => c
      case Reclaim(c) => c
      case AloneFreed(c) => c
      case _ => 0
    }
    /** Occupancy that is counted but not in any slot. */
    function Occupancy(): int {
      match this
      case Start(g, _, _) => g.Reserved()
      case Evicting(g, _, _, _, _, _, n) => g.Reserved() + n
      case Evicted(g, _, _, _, _, _, n) => g.Reserved()
      case Clearing(g, _, _, _, n) => g.Reserved() + n
      case Cleared(g, _, _) => g.Reserved()
      case Refused(g, _) => g.Reserved()
      case Charged(g, _) => g.Reserved()
      case NotPlaced(g, _) => g.Reserved()
      case Reclaim(_) => 1
      case _ => 0
    }
    function Alone(): int { if AloneFreed? then charge else 0 }
  }

  datatype State = State(usage: int, occupancy: int, aloneUsage: int, slots: seq<Cell>, alone: seq<Cell>, pcs: seq<Pc>)

  datatype Action =
    | BeginInsert(charge: nat, handle: bool, evictForOccupancy: bool)
    | BeginStandalone(charge: nat, allowUncharged: bool)
    | ChargeStrict
    | ChargeLoosely(need: nat)
    | Evict(i: nat)
    | FinishEvicting
    | Settle
    | Unreserve
    | ChargeAnyway
    | Place(i: nat)
    | FailToPlace
    | GiveBack
    | StandAlone(i: nat)
    | FreeEntry(i: nat)
    | FreeAlone(i: nat)
    | Uncount

  predicate Enabled(k: Config, s: State, t: nat, a: Action) {
    t < |s.pcs| &&
    var pc := s.pcs[t];
    match a
    case BeginInsert(_, _, _) => pc.Idle?
    case BeginStandalone(_, _) => pc.Idle?
    case ChargeStrict => pc.Start? && k.strict
    case ChargeLoosely(_) => pc.Start? && !k.strict
    case Evict(i) => (pc.Evicting? || pc.Clearing?) && i < |s.slots| && s.slots[i].Entry?
    case FinishEvicting => pc.Evicting? || pc.Clearing?
    case Settle => pc.Evicted? || pc.Cleared?
    case Unreserve => pc.Refused? || pc.NotPlaced?
    case ChargeAnyway => pc.Unreserved?
    case Place(i) => pc.Charged? && pc.goal.Table? && i < |s.slots| && s.slots[i].Vacant?
    case FailToPlace => pc.Charged? && pc.goal.Table?
    case GiveBack => pc.Refund?
    case StandAlone(i) => (pc.Standing? || (pc.Charged? && pc.goal.Alone?)) && i < |s.alone| && s.alone[i].Vacant?
    case FreeEntry(i) => pc.Idle? && i < |s.slots| && s.slots[i].Entry?
    case FreeAlone(i) => pc.Idle? && i < |s.alone| && s.alone[i].Entry?
    case Uncount => pc.Reclaim? || pc.AloneFreed?
  }

  function Min(a: int, b: int): int { if a < b then a else b }

  function Goto(s: State, t: nat, pc: Pc): State
    requires t < |s.pcs|
  {
    s.(pcs := s.pcs[t := pc])
  }

  /** The compare-and-swap of the strict path: take what capacity is left, owe the rest. */
  function ChargedStrictly(k: Config, s: State, t: nat, pc: Pc): State
    requires t < |s.pcs| && pc.Start?
  {
    if pc.charge > k.capacity then Goto(s, t, Refused(pc.goal, pc.charge))
    else
      var raised := Min(k.capacity, s.usage + pc.charge);
      var got, need := raised - s.usage, s.usage + pc.charge - raised;
      var z := s.(usage := raised);
      if need == 0 && !pc.evictForOccupancy then Goto(z, t, Charged(pc.goal, pc.charge))
      else Goto(z, t, Evicting(pc.goal, pc.charge, pc.evictForOccupancy, got, need, 0, 0))
  }

  /** After strict eviction: keep exactly the charge, or roll everything back. */
  function SettledStrictly(s: State, t: nat, pc: Pc): State
    requires t < |s.pcs| && pc.Evicted?
  {
    if pc.freed > pc.need then Goto(s.(usage := s.usage - (pc.freed - pc.need)), t, Charged(pc.goal, pc.charge))
    else if pc.freed < pc.need || (pc.evictForOccupancy && pc.count == 0) then
      Goto(s.(usage := s.usage - (pc.freed + pc.got)), t, Refused(pc.goal, pc.charge))
    else Goto(s, t, Charged(pc.goal, pc.charge))
  }

  /** A failed insertion without a handle is dropped; otherwise it becomes a standalone one, or fails. */
  function AfterRefusal(k: Config, goal: Goal, charge: nat): Pc {
    match goal
    case Table(handle) => if k.strict || !handle then Idle else Unreserved(goal, charge)
    case Alone(allowUncharged) => if allowUncharged then Standing(0) else Idle
  }

  function Apply(k: Config, s: State, t: nat, a: Action): State
    requires Enabled(k, s, t, a)
  {
    var pc := s.pcs[t];
    match a
    case BeginInsert(c, handle, evict) => Goto(s.(occupancy := s.occupancy + 1), t, Start(Table(handle), c, evict))
    case BeginStandalone(c, allowUncharged) => Goto(s, t, Start(Alone(allowUncharged), c, false))
    case ChargeStrict => ChargedStrictly(k, s, t, pc)
    case ChargeLoosely(need) =>
      if need == 0 && !pc.evictForOccupancy then Goto(s.(usage := s.usage + pc.charge), t, Charged(pc.goal, pc.charge))
      else Goto(s, t, Clearing(pc.goal, pc.charge, pc.evictForOccupancy, 0, 0))
    case Evict(i) =>
      var c := s.slots[i].charge;
      Goto(s.(slots := s.slots[i := Vacant]), t, pc.(freed := pc.freed + c, count := pc.count + 1))
    case FinishEvicting =>
      if pc.Evicting? then
        Goto(s.(occupancy := s.occupancy - pc.count), t,
             Evicted(pc.goal, pc.charge, pc.evictForOccupancy, pc.got, pc.need, pc.freed, pc.count))
      else if pc.evictForOccupancy && pc.count == 0 then Goto(s, t, Refused(pc.goal, pc.charge))
      else Goto(s.(occupancy := s.occupancy - pc.count), t, Cleared(pc.goal, pc.charge, pc.freed))
    case Settle =>
      if pc.Evicted? then SettledStrictly(s, t, pc)
      else Goto(s.(usage := s.usage + pc.charge - pc.freed), t, Charged(pc.goal, pc.charge))
    case Unreserve =>
      var z := s.(occupancy := s.occupancy - pc.goal.Reserved());
      if pc.Refused? then Goto(z, t, AfterRefusal(k, pc.goal, pc.charge))
      else Goto(z, t, if pc.goal.Table? && !pc.goal.handle then Refund(pc.charge) else Standing(pc.charge))
    case ChargeAnyway => Goto(s.(usage := s.usage + pc.charge), t, Standing(pc.charge))
    case Place(i) => Goto(s.(slots := s.slots[i := Entry(pc.charge)]), t, Idle)
    case FailToPlace => Goto(s, t, NotPlaced(pc.goal, pc.charge))
    case GiveBack => Goto(s.(usage := s.usage - pc.charge), t, Idle)
    case StandAlone(i) =>
      Goto(s.(alone := s.alone[i := Entry(pc.charge)], aloneUsage := s.aloneUsage + pc.charge), t, Idle)
    case FreeEntry(i) => Goto(s.(slots := s.slots[i := Vacant]), t, Reclaim(s.slots[i].charge))
    case FreeAlone(i) => Goto(s.(alone := s.alone[i := Vacant]), t, AloneFreed(s.alone[i].charge))
    case Uncount =>
      if pc.Reclaim? then Goto(s.(occupancy := s.occupancy - 1), t, Refund(pc.charge))
      else Goto(s.(aloneUsage := s.aloneUsage - pc.charge), t, Refund(pc.charge))
  }

  // ---------------------------------------------------------------- sums

  function Total(cells: seq<Cell>): nat {
    if cells == [] then 0 else Total(cells[1..]) + if cells[0].Entry? then cells[0].charge else 0
  }

  function Occupied(cells: seq<Cell>): nat {
    if cells == [] then 0 else Occupied(cells[1..]) + if cells[0].Entry? then 1 else 0
  }

  function UsageInFlight(pcs: seq<Pc>): int { if pcs == [] then 0 else pcs[0].Usage() + UsageInFlight(pcs[1..]) }
  function OccupancyInFlight(pcs: seq<Pc>): int {
    if pcs == [] then 0 else pcs[0].Occupancy() + OccupancyInFlight(pcs[1..])
  }
  function AloneInFlight(pcs: seq<Pc>): int { if pcs == [] then 0 else pcs[0].Alone() + AloneInFlight(pcs[1..]) }

  lemma {:induction false} CellUpdate(cells: seq<Cell>, i: nat, c: Cell)
    requires i < |cells|
    ensures Total(cells[i := c]) ==
            Total(cells) + (if c.Entry? then c.charge else 0) - (if cells[i].Entry? then cells[i].charge else 0)
    ensures Occupied(cells[i := c]) ==
            Occupied(cells) + (if c.Entry? then 1 else 0) - (if cells[i].Entry? then 1 else 0)
  {
    if i == 0 {
      assert cells[i := c][1..] == cells[1..];
    } else {
      assert cells[i := c][1..] == cells[1..][i - 1 := c];
      CellUpdate(cells[1..], i - 1, c);
    }
  }

  lemma {:induction false} PcUpdate(pcs: seq<Pc>, t: nat, pc: Pc)
    requires t < |pcs|
    ensures UsageInFlight(pcs[t := pc]) == UsageInFlight(pcs) + pc.Usage() - pcs[t].Usage()
    ensures OccupancyInFlight(pcs[t := pc]) == OccupancyInFlight(pcs) + pc.Occupancy() - pcs[t].Occupancy()
    ensures AloneInFlight(pcs[t := pc]) == AloneInFlight(pcs) + pc.Alone() - pcs[t].Alone()
  {
    hide Pc.Usage, Pc.Occupancy, Pc.Alone;
    if t == 0 {
      assert pcs[t := pc][1..] == pcs[1..];
    } else {
      assert pcs[t := pc][1..] == pcs[1..][t - 1 := pc];
      PcUpdate(pcs[1..], t - 1, pc);
    }
  }

  // ---------------------------------------------------------------- the invariant

  /** What each thread relies on: an eviction owes exactly what the charge has left to take. */
  ghost predicate Sound(pc: Pc) {
    match pc
    case Evicting(_, c, _, got, need, freed, count) => got + need == c && need >= 0 && (count == 0 ==> freed == 0)
    case Evicted(_, c, _, got, need, freed, count) => got + need == c && need >= 0 && (count == 0 ==> freed == 0)
    case Start(g, _, evict) => evict ==> g.Table?
    case Clearing(g, _, evict, freed, count) => (evict ==> g.Table?) && (count == 0 ==> freed == 0)
    case Unreserved(g, _) => g.Table?
    case NotPlaced(g, _) => g.Table?
    case _ => true
  }

  ghost predicate Inv(k: Config, s: State) {
    && s.usage == k.metadata + Total(s.slots) + Total(s.alone) + UsageInFlight(s.pcs)
    && s.occupancy == Occupied(s.slots) + OccupancyInFlight(s.pcs)
    && s.aloneUsage == Total(s.alone) + AloneInFlight(s.pcs)
    && (forall t :: 0 <= t < |s.pcs| ==> Sound(s.pcs[t]))
  }

  /** Under the strict limit, no thread is owed more than it put in, and usage is within capacity. */
  ghost predicate Within(k: Config, s: State) {
    && s.usage <= k.capacity
    && forall t :: 0 <= t < |s.pcs| ==>
         && (s.pcs[t].Evicting? || s.pcs[t].Evicted? ==> s.pcs[t].got >= 0)
         && !s.pcs[t].Clearing? && !s.pcs[t].Cleared? && !s.pcs[t].Unreserved?
  }

  /** How far a step moves the counters, the cells and the amounts in flight. */
  ghost predicate Balances(s: State, z: State, pc: Pc, after: Pc) {
    && Sound(after)
    && z.usage - s.usage ==
       Total(z.slots) - Total(s.slots) + Total(z.alone) - Total(s.alone) + after.Usage() - pc.Usage()
    && z.occupancy - s.occupancy == Occupied(z.slots) - Occupied(s.slots) + after.Occupancy() - pc.Occupancy()
    && z.aloneUsage - s.aloneUsage == Total(z.alone) - Total(s.alone) + after.Alone() - pc.Alone()
  }

  lemma ChargeBalances(k: Config, s: State, t: nat, pc: Pc)
    requires t < |s.pcs| && pc.Start? && Sound(pc)
    ensures var z := ChargedStrictly(k, s, t, pc); z.pcs == s.pcs[t := z.pcs[t]] && Balances(s, z, pc, z.pcs[t])
  {
    hide Total, Occupied;
  }

  lemma SettleBalances(s: State, t: nat, pc: Pc)
    requires t < |s.pcs| && pc.Evicted? && Sound(pc)
    ensures var z := SettledStrictly(s, t, pc); z.pcs == s.pcs[t := z.pcs[t]] && Balances(s, z, pc, z.pcs[t])
  {
    hide Total, Occupied;
  }

  /** The actions that fill or empty a cell. */
  predicate OnCell(a: Action) { a.Evict? || a.Place? || a.FreeEntry? || a.StandAlone? || a.FreeAlone? }

  lemma CellStepBalances(k: Config, s: State, t: nat, a: Action)
    requires Enabled(k, s, t, a) && Sound(s.pcs[t]) && OnCell(a)
    ensures var z := Apply(k, s, t, a); z.pcs == s.pcs[t := z.pcs[t]] && Balances(s, z, s.pcs[t], z.pcs[t])
  {
    hide Total, Occupied, ChargedStrictly, SettledStrictly;
    match a
    case Evict(i) => CellUpdate(s.slots, i, Vacant);
    case Place(i) => CellUpdate(s.slots, i, Entry(s.pcs[t].charge));
    case FreeEntry(i) => CellUpdate(s.slots, i, Vacant);
    case StandAlone(i) => CellUpdate(s.alone, i, Entry(s.pcs[t].charge));
    case FreeAlone(i) => CellUpdate(s.alone, i, Vacant);
  }

  lemma StepBalances(k: Config, s: State, t: nat, a: Action)
    requires Enabled(k, s, t, a) && Sound(s.pcs[t])
    ensures var z := Apply(k, s, t, a); z.pcs == s.pcs[t := z.pcs[t]] && Balances(s, z, s.pcs[t], z.pcs[t])
  {
    hide Total, Occupied, ChargedStrictly, SettledStrictly;
    if OnCell(a) {
      CellStepBalances(k, s, t, a);
    } else if a.ChargeStrict? {
      ChargeBalances(k, s, t, s.pcs[t]);
    } else if a.Settle? && s.pcs[t].Evicted? {
      SettleBalances(s, t, s.pcs[t]);
    } else {
      PlainStepBalances(k, s, t, a);
    }
  }

  lemma PlainStepBalances(k: Config, s: State, t: nat, a: Action)
    requires Enabled(k, s, t, a) && Sound(s.pcs[t]) && !OnCell(a) && !a.ChargeStrict?
    requires !(a.Settle? && s.pcs[t].Evicted?)
    ensures var z := Apply(k, s, t, a); z.pcs == s.pcs[t := z.pcs[t]] && Balances(s, z, s.pcs[t], z.pcs[t])
  {
    hide Total, Occupied, ChargedStrictly, SettledStrictly;
  }

  lemma StepKeepsInv(k: Config, s: State, t: nat, a: Action)
    requires Inv(k, s) && Enabled(k, s, t, a)
    ensures Inv(k, Apply(k, s, t, a))
  {
    hide Apply, Total, Occupied, UsageInFlight, OccupancyInFlight, AloneInFlight, Sound;
    StepBalances(k, s, t, a);
    PcUpdate(s.pcs, t, Apply(k, s, t, a).pcs[t]);
  }

  /** Under the strict limit no step takes usage beyond capacity, whoever else is in the middle of what. */
  lemma StepStaysWithin(k: Config, s: State, t: nat, a: Action)
    requires k.strict && Inv(k, s) && Within(k, s) && Enabled(k, s, t, a)
    ensures Within(k, Apply(k, s, t, a))
  {
    hide Total, Occupied, UsageInFlight, OccupancyInFlight, AloneInFlight;
    assert Sound(s.pcs[t]);
  }

  // ---------------------------------------------------------------- whole runs

  /** An empty table, with all threads idle. */
  ghost predicate Initial(k: Config, s: State) {
    && s.usage == k.metadata && s.occupancy == 0 && s.aloneUsage == 0
    && (forall i :: 0 <= i < |s.slots| ==> s.slots[i].Vacant?)
    && (forall i :: 0 <= i < |s.alone| ==> s.alone[i].Vacant?)
    && (forall t :: 0 <= t < |s.pcs| ==> s.pcs[t].Idle?)
  }

  ghost predicate IsRun(k: Config, run: seq<State>, steps: seq<(nat, Action)>) {
    && |run| == |steps| + 1
    && Initial(k, run[0])
    && forall i :: 0 <= i < |steps| ==> Follows(k, run[i], steps[i], run[i + 1])
  }

  ghost predicate Follows(k: Config, s: State, step: (nat, Action), z: State) {
    Enabled(k, s, step.0, step.1) && z == Apply(k, s, step.0, step.1)
  }

  lemma {:induction false} NothingStored(cells: seq<Cell>)
    requires forall i :: 0 <= i < |cells| ==> cells[i].Vacant?
    ensures Total(cells) == 0 && Occupied(cells) == 0
  {
    if cells != [] {
      NothingStored(cells[1..]);
    }
  }

  lemma {:induction false} NothingInFlight(pcs: seq<Pc>)
    requires forall t :: 0 <= t < |pcs| ==> pcs[t].Idle?
    ensures UsageInFlight(pcs) == 0 && OccupancyInFlight(pcs) == 0 && AloneInFlight(pcs) == 0
  {
    if pcs != [] {
      NothingInFlight(pcs[1..]);
    }
  }

  lemma {:induction false} InvAlways(k: Config, run: seq<State>, steps: seq<(nat, Action)>, i: nat)
    requires IsRun(k, run, steps) && i < |run|
    ensures Inv(k, run[i])
  {
    hide Apply, Enabled;
    if i == 0 {
      NothingStored(run[0].slots);
      NothingStored(run[0].alone);
      NothingInFlight(run[0].pcs);
    } else {
      InvAlways(k, run, steps, i - 1);
      assert Follows(k, run[i - 1], steps[i - 1], run[i]);
      StepKeepsInv(k, run[i - 1], steps[i - 1].0, steps[i - 1].1);
    }
  }

  /** Whenever no operation is in progress, the counters are exactly what is stored. */
  lemma QuietCountersAreExact(k: Config, run: seq<State>, steps: seq<(nat, Action)>, i: nat)
    requires IsRun(k, run, steps) && i < |run| && forall t :: 0 <= t < |run[i].pcs| ==> run[i].pcs[t].Idle?
    ensures run[i].usage == k.metadata + Total(run[i].slots) + Total(run[i].alone)
    ensures run[i].occupancy == Occupied(run[i].slots)
    ensures run[i].aloneUsage == Total(run[i].alone)
  {
    InvAlways(k, run, steps, i);
    NothingInFlight(run[i].pcs);
  }

  /** With the strict limit and a constant capacity, usage is within capacity at every moment. */
  lemma {:induction false} StrictLimitHolds(k: Config, run: seq<State>, steps: seq<(nat, Action)>, i: nat)
    requires IsRun(k, run, steps) && i < |run| && k.strict && k.metadata <= k.capacity
    ensures Within(k, run[i])
  {
    hide Apply, Enabled;
    if i > 0 {
      StrictLimitHolds(k, run, steps, i - 1);
      InvAlways(k, run, steps, i - 1);
      assert Follows(k, run[i - 1], steps[i - 1], run[i]);
      StepStaysWithin(k, run[i - 1], steps[i - 1].0, steps[i - 1].1);
    }
  }

  // ---------------------------------------------------------------- what an insertion comes to

  /** The thread is in the middle of inserting an entry of this charge for this purpose. */
  ghost predicate Working(k: Config, pc: Pc, goal: Goal, charge: nat) {
    match pc
    case Idle => false
    case Reclaim(_) => false
    case AloneFreed(_) => false
    case Refund(c) => goal == Table(false) && c == charge
    case Standing(c) =>
      goal != Table(false) && goal != Alone(false) && (c == charge || (c == 0 && goal.Alone? && k.strict))
    case Refused(g, c) => g == goal && c == charge && (k.strict || goal.Table?)
    case Unreserved(g, c) => g == goal == Table(true) && c == charge && !k.strict
    case Evicting(g, c, _, _, _, _, _) => g == goal && c == charge && k.strict
    case Evicted(g, c, _, _, _, _, _) => g == goal && c == charge && k.strict
    case _ => pc.goal == goal && pc.charge == charge
  }

  /**
   How an insertion ends: with its entry in the table, with a standalone entry for a caller that wants
   a handle, or with nothing. A caller that wants a handle goes without one only under the strict limit,
   and a standalone entry is uncharged only under the strict limit, when the caller allows that.
   */
  ghost predicate Delivered(k: Config, s: State, a: Action, z: State, goal: Goal, charge: nat) {
    match a
    case Place(i) => goal.Table? && i < |z.slots| && z.slots[i] == Entry(charge)
    case StandAlone(i) =>
      && goal != Table(false) && i < |z.alone|
      && (z.alone[i] == Entry(charge) || (z.alone[i] == Entry(0) && goal == Alone(true) && k.strict))
    case _ =>
      && z.slots == s.slots && z.alone == s.alone
      && (goal == Table(false) || (k.strict && goal != Alone(true)))
  }

  lemma WorkingStep(k: Config, s: State, t: nat, a: Action, goal: Goal, charge: nat)
    requires Enabled(k, s, t, a) && Sound(s.pcs[t]) && Working(k, s.pcs[t], goal, charge)
    ensures var z := Apply(k, s, t, a);
            if z.pcs[t].Idle? then Delivered(k, s, a, z, goal, charge) else Working(k, z.pcs[t], goal, charge)
  {
  }

  /** Thread `t` starts an insertion at step `i`, and is done with it at step `j`. */
  ghost predicate Inserts(run: seq<State>, steps: seq<(nat, Action)>, i: nat, j: nat, t: nat, goal: Goal, charge: nat)
    requires |run| == |steps| + 1
  {
    && i < j < |run| && steps[i].0 == t < |run[j].pcs|
    && (match steps[i].1
        case BeginInsert(c, handle, _) => goal == Table(handle) && charge == c
        case BeginStandalone(c, uncharged) => goal == Alone(uncharged) && charge == c
        case _ => false)
  }

  ghost predicate BusyUntil(run: seq<State>, i: nat, j: nat, t: nat) {
    forall m :: i < m < j && m < |run| ==> t < |run[m].pcs| && !run[m].pcs[t].Idle?
  }

  lemma {:induction false} WorkingAlong(k: Config, run: seq<State>, steps: seq<(nat, Action)>,
                                        i: nat, j: nat, t: nat, goal: Goal, charge: nat)
    requires IsRun(k, run, steps) && Inserts(run, steps, i, j, t, goal, charge) && BusyUntil(run, i, j + 1, t)
    ensures Working(k, run[j].pcs[t], goal, charge)
    decreases j
  {
    hide Sound, Delivered, Total, Occupied, UsageInFlight, OccupancyInFlight, AloneInFlight;
    assert Follows(k, run[j - 1], steps[j - 1], run[j]);
    if j > i + 1 {
      WorkingAlong(k, run, steps, i, j - 1, t, goal, charge);
      if steps[j - 1].0 == t {
        InvAlways(k, run, steps, j - 1);
        WorkingStep(k, run[j - 1], t, steps[j - 1].1, goal, charge);
      }
    }
  }

  /**
   What every insertion of every run comes to. In particular a caller that asked for a handle has one,
   in the table or standalone, unless the capacity limit is strict; and one that did not, never does.
   */
  lemma InsertDelivers(k: Config, run: seq<State>, steps: seq<(nat, Action)>,
                       i: nat, j: nat, t: nat, goal: Goal, charge: nat)
    requires IsRun(k, run, steps) && Inserts(run, steps, i, j, t, goal, charge)
    requires BusyUntil(run, i, j, t) && run[j].pcs[t].Idle?
    ensures steps[j - 1].0 == t && Delivered(k, run[j - 1], steps[j - 1].1, run[j], goal, charge)
  {
    hide Sound, Delivered, Total, Occupied, UsageInFlight, OccupancyInFlight, AloneInFlight;
    assert Follows(k, run[j - 1], steps[j - 1], run[j]);
    if j > i + 1 {
      WorkingAlong(k, run, steps, i, j - 1, t, goal, charge);
      InvAlways(k, run, steps, j - 1);
      if steps[j - 1].0 == t {
        WorkingStep(k, run[j - 1], t, steps[j - 1].1, goal, charge);
      }
    }
  }

  /** The strict limit refuses exactly when the charge never fits, or eviction freed too little. */
  lemma StrictRefusesExactlyWhenShort(k: Config, s: State, t: nat, a: Action)
    requires Enabled(k, s, t, a) && Sound(s.pcs[t]) && 0 <= s.usage <= k.capacity
    ensures a.ChargeStrict? ==>
              (Apply(k, s, t, a).pcs[t].Refused? <==> s.pcs[t].charge > k.capacity)
    ensures a.ChargeStrict? && s.usage + s.pcs[t].charge <= k.capacity && !s.pcs[t].evictForOccupancy ==>
              Apply(k, s, t, a).pcs[t].Charged?
    ensures a.Settle? && s.pcs[t].Evicted? ==>
              (Apply(k, s, t, a).pcs[t].Charged? <==>
               s.pcs[t].freed >= s.pcs[t].need && (s.pcs[t].evictForOccupancy ==> s.pcs[t].count > 0))
  {
  }

  /**
   An insertion that needs a slot, or usage that it has to free, goes on only after an eviction; one that
   needs neither goes on at once.
   */
  lemma ProceedingHasEvicted(k: Config, s: State, t: nat, a: Action)
    requires Enabled(k, s, t, a) && Sound(s.pcs[t])
    requires s.pcs[t].Start? || s.pcs[t].Evicted? || s.pcs[t].Clearing?
    ensures var pc, after := s.pcs[t], Apply(k, s, t, a).pcs[t];
            && (pc.evictForOccupancy && (after.Charged? || after.Cleared?) ==> !pc.Start? && pc.count > 0)
            && (pc.Evicted? && pc.need > 0 && after.Charged? ==> pc.count > 0)
            && (a.ChargeLoosely? ==> (after.Charged? <==> a.need == 0 && !pc.evictForOccupancy))
  {
  }

  lemma {:induction false} StrictInFlightIsPositive(pcs: seq<Pc>)
    requires forall t :: 0 <= t < |pcs| ==> (pcs[t].Evicting? || pcs[t].Evicted? ==> pcs[t].got >= 0)
    ensures UsageInFlight(pcs) >= 0 && OccupancyInFlight(pcs) >= 0 && AloneInFlight(pcs) >= 0
  {
    if pcs != [] {
      StrictInFlightIsPositive(pcs[1..]);
    }
  }

  /** So the counters never underflow, and what is stored is within capacity too. */
  lemma StoredIsWithinCapacity(k: Config, run: seq<State>, steps: seq<(nat, Action)>, i: nat)
    requires IsRun(k, run, steps) && i < |run| && k.strict && k.metadata <= k.capacity
    ensures 0 <= k.metadata + Total(run[i].slots) + Total(run[i].alone) <= run[i].usage <= k.capacity
    ensures Occupied(run[i].slots) <= run[i].occupancy && Total(run[i].alone) <= run[i].aloneUsage
  {
    InvAlways(k, run, steps, i);
    StrictLimitHolds(k, run, steps, i);
    StrictInFlightIsPositive(run[i].pcs);
  }
}
