/**
 Memory reservations against the block cache: CacheReservationManagerImpl and its concurrent wrapper
 (cache/cache_reservation_manager.cc, cache/cache_reservation_manager.h), and the distribution of
 placeholder reservations over a primary and a secondary cache (cache/secondary_cache_adapter.cc).
 */
module Reservations {
  import opened Bits

  const SIZE_DUMMY_ENTRY: nat := 256 * 1024
  const RESERVATION_CHUNK: nat := 1024 * 1024

  /** The smallest multiple of the dummy entry size that is at least `n`. */
  function RoundedUp(n: nat): nat { (n + SIZE_DUMMY_ENTRY - 1) / SIZE_DUMMY_ENTRY * SIZE_DUMMY_ENTRY }

  /** The largest multiple of the chunk size that is at most `n`. */
  function WholeChunks(n: nat): nat { n / RESERVATION_CHUNK * RESERVATION_CHUNK }

  lemma RoundedUpIs(n: nat, dummies: nat)
    requires dummies * SIZE_DUMMY_ENTRY >= n && dummies * SIZE_DUMMY_ENTRY < n + SIZE_DUMMY_ENTRY
    ensures dummies * SIZE_DUMMY_ENTRY == RoundedUp(n)
  {
  }

  /** Covers a memory usage by dummy entries in the cache. */
  class ReservationManager {
    const delayedDecrease: bool
    /** whether the cache accepts the dummy entry of each attempt; under a strict limit it may not */
    const accepts: nat -> bool
    var attempts: nat
    /** how many dummy entries are in the cache */
    var dummies: nat
    var allocatedSize: nat
    var memoryUsed: nat

    ghost predicate Valid()
      reads this
    {
      allocatedSize == dummies * SIZE_DUMMY_ENTRY
    }

    constructor (delayedDecrease: bool, accepts: nat -> bool)
      ensures Valid() && memoryUsed == 0 && allocatedSize == 0
      ensures this.delayedDecrease == delayedDecrease && this.accepts == accepts
    {
      this.delayedDecrease, this.accepts := delayedDecrease, accepts;
      attempts, dummies, allocatedSize, memoryUsed := 0, 0, 0, 0;
    }

    method IncreaseCacheReservation(newMemory: nat) returns (ok: bool)
      requires Valid() && allocatedSize < newMemory
      modifies `attempts, `dummies, `allocatedSize
      ensures Valid() && old(allocatedSize) <= allocatedSize <= RoundedUp(newMemory)
      ensures ok <==> allocatedSize >= newMemory
      ensures ok ==> allocatedSize == RoundedUp(newMemory)
      ensures (forall n :: accepts(n)) ==> ok
    {
      ok := true;
      while newMemory > allocatedSize
        invariant Valid() && ok && old(allocatedSize) <= allocatedSize < newMemory + SIZE_DUMMY_ENTRY
        decreases newMemory + SIZE_DUMMY_ENTRY - allocatedSize
      {
        attempts := attempts + 1;
        if !accepts(attempts - 1) {
          RoundedUpBounds(newMemory, dummies);
          return false;
        }
        dummies := dummies + 1;
        allocatedSize := allocatedSize + SIZE_DUMMY_ENTRY;
      }
      RoundedUpIs(newMemory, dummies);
    }

    method DecreaseCacheReservation(newMemory: nat)
      requires Valid() && newMemory < allocatedSize
      modifies `dummies, `allocatedSize
      ensures Valid() && allocatedSize == RoundedUp(newMemory)
    {
      while newMemory + SIZE_DUMMY_ENTRY <= allocatedSize
        invariant Valid() && newMemory <= allocatedSize
        decreases allocatedSize
      {
        dummies := dummies - 1;
        allocatedSize := allocatedSize - SIZE_DUMMY_ENTRY;
      }
      RoundedUpIs(newMemory, dummies);
    }

    /** The usage is recorded even if the cache refuses to cover all of it. */
    method UpdateCacheReservation(newMemory: nat) returns (ok: bool)
      requires Valid()
      modifies `attempts, `dummies, `allocatedSize, `memoryUsed
      ensures Valid() && memoryUsed == newMemory
      ensures ok <==> allocatedSize >= newMemory
      ensures newMemory > old(allocatedSize) ==> allocatedSize >= old(allocatedSize)
      ensures newMemory <= old(allocatedSize) || (forall n :: accepts(n)) ==> ok
      ensures ok && !delayedDecrease ==> allocatedSize == RoundedUp(newMemory)
      ensures ok && delayedDecrease ==>
                || allocatedSize == RoundedUp(newMemory)
                || (allocatedSize == old(allocatedSize) && newMemory >= allocatedSize / 4 * 3)
    {
      memoryUsed := newMemory;
      ok := true;
      if newMemory == allocatedSize {
        RoundedUpIs(newMemory, dummies);
      } else if newMemory > allocatedSize {
        ok := IncreaseCacheReservation(newMemory);
      } else if delayedDecrease && newMemory >= allocatedSize / 4 * 3 {
      } else {
        DecreaseCacheReservation(newMemory);
      }
    }

    /** Reserve for a while: releasing the same amount leads back to the same usage, and the same cover. */
    method MakeAndRelease(amount: nat) returns (made: bool)
      requires Valid()
      modifies `attempts, `dummies, `allocatedSize, `memoryUsed
      ensures Valid() && memoryUsed == old(memoryUsed)
      ensures !delayedDecrease && old(allocatedSize) == RoundedUp(old(memoryUsed)) ==>
                allocatedSize == old(allocatedSize)
    {
      made := MakeCacheReservation(amount);
      var ok := ReleaseCacheReservation(amount);
    }

    method MakeCacheReservation(amount: nat) returns (ok: bool)
      requires Valid()
      modifies `attempts, `dummies, `allocatedSize, `memoryUsed
      ensures Valid() && memoryUsed == old(memoryUsed) + amount
      ensures old(memoryUsed) <= old(allocatedSize) ==> old(memoryUsed) <= allocatedSize
    {
      ok := UpdateCacheReservation(memoryUsed + amount);
    }

    method ReleaseCacheReservation(amount: nat) returns (ok: bool)
      requires Valid() && amount <= memoryUsed
      modifies `attempts, `dummies, `allocatedSize, `memoryUsed
      ensures Valid() && memoryUsed == old(memoryUsed) - amount
      ensures memoryUsed <= old(allocatedSize) && !delayedDecrease ==> allocatedSize == RoundedUp(memoryUsed)
    {
      ok := UpdateCacheReservation(memoryUsed - amount);
    }

    /** The concurrent wrapper: change the usage by a difference, never below zero. */
    method UpdateBy(delta: nat, increase: bool) returns (ok: bool)
      requires Valid()
      modifies `attempts, `dummies, `allocatedSize, `memoryUsed
      ensures Valid()
      ensures memoryUsed == if increase then old(memoryUsed) + delta
                else if delta < old(memoryUsed) then old(memoryUsed) - delta else 0
      ensures ok <==> allocatedSize >= memoryUsed
    {
      if !increase {
        ok := UpdateCacheReservation(if memoryUsed > delta then memoryUsed - delta else 0);
      } else {
        ok := UpdateCacheReservation(memoryUsed + delta);
      }
    }
  }

  lemma RoundedUpBounds(n: nat, dummies: nat)
    requires dummies * SIZE_DUMMY_ENTRY < n
    ensures dummies * SIZE_DUMMY_ENTRY <= RoundedUp(n) && n <= RoundedUp(n) < n + SIZE_DUMMY_ENTRY
  {
  }

  // ---------------------------------------------------------------- distribution over two caches

  function Sum(charges: seq<nat>): nat { if charges == [] then 0 else charges[0] + Sum(charges[1..]) }

  lemma {:induction false} SumConcat(a: seq<nat>, b: seq<nat>)
    ensures Sum(a + b) == Sum(a) + Sum(b)
  {
    if a == [] {
      assert a + b == b;
    } else {
      assert (a + b)[1..] == a[1..] + b;
      SumConcat(a[1..], b);
    }
  }

  lemma SumWithout(charges: seq<nat>, i: nat)
    requires i < |charges|
    ensures Sum(charges) == Sum(charges[..i] + charges[i + 1..]) + charges[i]
  {
    assert charges == charges[..i] + charges[i..];
    SumConcat(charges[..i], charges[i..]);
    SumConcat(charges[..i], charges[i + 1..]);
  }

  /** The secondary cache's part of a reservation, with the exact ratio of the capacities, rounded down. */
  function SecondaryPart(reserved: nat, secCapacity: nat, capacity: nat): nat
    requires capacity > 0
  {
    reserved * secCapacity / capacity
  }

  /** The part is the exact share, rounded down. */
  lemma PartIs(reserved: nat, secCapacity: nat, capacity: nat)
    requires capacity > 0
    ensures var part := SecondaryPart(reserved, secCapacity, capacity);
            part * capacity <= reserved * secCapacity < (part + 1) * capacity
  {
    var x := reserved * secCapacity;
    assert x == capacity * (x / capacity) + x % capacity;
  }

  lemma PartIsMonotone(a: nat, b: nat, secCapacity: nat, capacity: nat)
    requires a <= b && capacity > 0
    ensures SecondaryPart(a, secCapacity, capacity) <= SecondaryPart(b, secCapacity, capacity)
  {
    assert b * secCapacity - a * secCapacity == (b - a) * secCapacity;
    assert (b - a) * secCapacity >= 0;
    QuotientMonotone(a * secCapacity, b * secCapacity, capacity);
  }

  lemma QuotientMonotone(x: nat, y: nat, d: nat)
    requires x <= y && d > 0
    ensures x / d <= y / d
  {
    var p, q := x / d, y / d;
    MultipleIsFar(d, p - q);
    assert d * (p - q) == d * p - d * q;
    assert x == d * p + x % d && y == d * q + y % d;
  }

  lemma WholePart(secCapacity: nat, capacity: nat)
    requires capacity > 0
    ensures SecondaryPart(capacity, secCapacity, capacity) == secCapacity
    ensures SecondaryPart(0, secCapacity, capacity) == 0
  {
    DivModUnique(capacity * secCapacity, capacity, secCapacity, 0);
    DivModUnique(0 * secCapacity, capacity, 0, 0);
  }

  /** What may happen to placeholders: one comes, or one of those that are out goes. */
  datatype Op = Insert(charge: nat) | Release(i: nat)

  /** The usage by placeholders, and what of it is reserved. */
  datatype Account = Account(usage: nat, reserved: nat) {
    /** whole chunks of the usage are reserved */
    predicate Whole() { reserved <= usage && reserved % RESERVATION_CHUNK == 0 }
    /** less than a chunk is not reserved */
    predicate Close() { reserved <= usage < reserved + RESERVATION_CHUNK }
  }

  class SecondaryAdapter {
    /** the capacity of the primary cache, which includes the budget of the secondary one */
    const capacity: nat
    const secCapacity: nat
    /** what the primary cache holds back for the secondary, and what the secondary was deflated by */
    const primary: ReservationManager
    const secondary: ReservationManager
    var placeholderUsage: nat
    var reservedUsage: nat
    var secReserved: nat
    /** the charges of the placeholders that are out */
    ghost var placeholders: seq<nat>

    function Now(): Account
      reads this
    {
      Account(placeholderUsage, reservedUsage)
    }

    /** The three accounts agree. */
    ghost predicate Valid()
      reads this, primary, secondary
    {
      && primary != secondary && primary.Valid() && secondary.Valid()
      && 0 < capacity && secCapacity <= capacity
      && placeholderUsage == Sum(placeholders)
      && reservedUsage <= placeholderUsage && reservedUsage <= capacity && reservedUsage % RESERVATION_CHUNK == 0
      && secReserved == SecondaryPart(reservedUsage, secCapacity, capacity)
      && primary.memoryUsed + secReserved == secCapacity
      && secondary.memoryUsed == secReserved
    }

    constructor (capacity: nat, secCapacity: nat, primaryAccepts: nat -> bool, secondaryAccepts: nat -> bool)
      requires 0 < capacity && secCapacity <= capacity
      ensures Valid() && fresh(primary) && fresh(secondary) && placeholders == [] && Now() == Account(0, 0)
      ensures this.capacity == capacity && this.secCapacity == secCapacity
    {
      this.capacity, this.secCapacity := capacity, secCapacity;
      var p := new ReservationManager(false, primaryAccepts);
      var ok := p.UpdateCacheReservation(secCapacity);
      var q := new ReservationManager(false, secondaryAccepts);
      primary, secondary := p, q;
      placeholderUsage, reservedUsage, secReserved := 0, 0, 0;
      placeholders := [];
      new;
      WholePart(secCapacity, capacity);
    }

    /** A placeholder goes into the primary cache; a whole number of chunks of it is shared with the secondary. */
    method InsertPlaceholder(charge: nat)
      requires Valid()
      modifies this, primary, secondary
      ensures Valid() && placeholders == old(placeholders) + [charge]
      ensures reservedUsage ==
              if placeholderUsage <= capacity && placeholderUsage - old(reservedUsage) >= RESERVATION_CHUNK
              then WholeChunks(placeholderUsage) else old(reservedUsage)
      ensures old(secReserved) <= secReserved && placeholderUsage == old(placeholderUsage) + charge
      ensures placeholderUsage <= capacity ==> Now().Close()
      ensures placeholderUsage > capacity ==> reservedUsage == old(reservedUsage)
      ensures old(placeholderUsage) <= capacity < placeholderUsage ==>
                (reservedUsage == WholeChunks(capacity) <==>
                 old(Now()).Close() && old(placeholderUsage) >= WholeChunks(capacity))
    {
      GoingOver(Now(), capacity);
      SumConcat(placeholders, [charge]);
      placeholders := placeholders + [charge];
      placeholderUsage := placeholderUsage + charge;
      if placeholderUsage <= capacity && placeholderUsage - reservedUsage >= RESERVATION_CHUNK {
        PartIsMonotone(reservedUsage, WholeChunks(placeholderUsage), secCapacity, capacity);
        PartIsMonotone(WholeChunks(placeholderUsage), capacity, secCapacity, capacity);
        WholePart(secCapacity, capacity);
        ChunksFit(placeholderUsage);
        hide SecondaryPart;
        reservedUsage := WholeChunks(placeholderUsage);
        var newSecReserved := SecondaryPart(reservedUsage, secCapacity, capacity);
        var secCharge := newSecReserved - secReserved;
        assert secCharge <= primary.memoryUsed;
        var ok := secondary.UpdateBy(secCharge, true);
        ok := primary.UpdateBy(secCharge, false);
        secReserved := secReserved + secCharge;
      }
    }

    /** The placeholder number `i` is erased; what it shared is given back in whole chunks. */
    method ReleasePlaceholder(ghost i: nat, charge: nat)
      requires Valid() && i < |placeholders| && placeholders[i] == charge
      modifies this, primary, secondary
      ensures charge <= old(placeholderUsage) && placeholderUsage == old(placeholderUsage) - charge
      ensures old(Now()).Close() ==> Now().Close()
      ensures placeholderUsage > capacity ==> reservedUsage == old(reservedUsage)
      ensures Valid() && placeholders == old(placeholders)[..i] + old(placeholders)[i + 1..]
      ensures reservedUsage == if placeholderUsage < old(reservedUsage) then WholeChunks(placeholderUsage)
                else old(reservedUsage)
      ensures secReserved <= old(secReserved)
    {
      SumWithout(placeholders, i);
      placeholders := placeholders[..i] + placeholders[i + 1..];
      placeholderUsage := placeholderUsage - charge;
      if placeholderUsage <= capacity && placeholderUsage < reservedUsage {
        ChunksFit(placeholderUsage);
        PartIsMonotone(WholeChunks(placeholderUsage), reservedUsage, secCapacity, capacity);
        hide SecondaryPart;
        reservedUsage := WholeChunks(placeholderUsage);
        var newSecReserved := SecondaryPart(reservedUsage, secCapacity, capacity);
        var secCharge := secReserved - newSecReserved;
        assert secCharge <= secondary.memoryUsed;
        var ok := secondary.UpdateBy(secCharge, false);
        ok := primary.UpdateBy(secCharge, true);
        secReserved := secReserved - secCharge;
      }
    }
  }

  /**
   Within the capacity, the reserved usage is at the largest that it can be exactly when less than
   a chunk is not reserved and the usage has reached the last whole chunk below the capacity.
   */
  lemma GoingOver(a: Account, capacity: nat)
    requires a.Whole()
    ensures a.usage <= capacity ==>
              (a.reserved == WholeChunks(capacity) <==> a.Close() && a.usage >= WholeChunks(capacity))
  {
    ChunksFit(capacity);
  }

  /** While placeholders exceed the capacity, the reserved usage need not be at its largest. */
  method OverCapacityNotMaxed() returns (a: SecondaryAdapter)
    ensures fresh(a) && fresh(a.primary) && fresh(a.secondary)
    ensures a.Valid() && a.capacity == 2 * RESERVATION_CHUNK
    ensures a.placeholders == [RESERVATION_CHUNK, 2 * RESERVATION_CHUNK]
    ensures a.placeholderUsage > a.capacity && a.reservedUsage == RESERVATION_CHUNK < WholeChunks(a.capacity)
  {
    a := new SecondaryAdapter(2 * RESERVATION_CHUNK, RESERVATION_CHUNK, _ => true, _ => true);
    SumOf(RESERVATION_CHUNK, 2 * RESERVATION_CHUNK);
    a.InsertPlaceholder(RESERVATION_CHUNK);
    assert a.placeholders == [RESERVATION_CHUNK];
    a.InsertPlaceholder(2 * RESERVATION_CHUNK);
    assert a.placeholders == [RESERVATION_CHUNK, 2 * RESERVATION_CHUNK];
  }

  /** Nor does it catch up when they come back to the capacity: here a whole chunk stays unshared. */
  method ReservedCanLag() returns (a: SecondaryAdapter)
    ensures a.Valid() && a.placeholderUsage <= a.capacity
    ensures a.placeholderUsage - a.reservedUsage >= RESERVATION_CHUNK
  {
    a := OverCapacityNotMaxed();
    SumOf(RESERVATION_CHUNK, 2 * RESERVATION_CHUNK);
    a.ReleasePlaceholder(0, RESERVATION_CHUNK);
    assert a.placeholders == [2 * RESERVATION_CHUNK];
  }

  /**
   Any sequence of insertions and releases; `charges` are the placeholders that are out, and a
   release of one that is not is not made. As long as the usage stays within the capacity, less
   than a chunk of it is not reserved. All the time that it is over, the reserved usage is at its
   largest exactly when, in the last account `j` before, less than a chunk was not reserved and
   the usage had reached the last whole chunk.
   */
  method RunPlaceholders(a: SecondaryAdapter, ops: seq<Op>) returns (trace: seq<Account>)
    requires a.Valid() && a.placeholders == []
    modifies a, a.primary, a.secondary
    ensures a.Valid() && |trace| == |ops| + 1 && trace[0].usage <= a.capacity
    ensures forall i :: 0 <= i < |trace| && WithinUpTo(trace, a.capacity, i) ==> trace[i].Close()
    ensures forall j: nat, i: nat :: j < i < |trace| && Over(trace, a.capacity, j, i) ==>
              (trace[i].reserved == WholeChunks(a.capacity) <==>
               trace[j].Close() && trace[j].usage >= WholeChunks(a.capacity))
  {
    hide WholeChunks, SecondaryAdapter.Valid, Over, WithinUpTo, Account.Whole;
    NothingOut(a);
    trace := [a.Now()];
    FirstAccount(a.Now(), a.capacity);
    var charges: seq<nat> := [];
    for i := 0 to |ops|
      invariant a.Valid() && |trace| == i + 1 && trace[i] == a.Now() && a.placeholders == charges
      invariant trace[0].usage <= a.capacity
      invariant forall k :: 0 <= k <= i ==> trace[k].Whole()
      invariant forall k :: 0 <= k <= i && WithinUpTo(trace, a.capacity, k) ==> trace[k].Close()
      invariant forall j: nat, k: nat :: j < k <= i && Over(trace, a.capacity, j, k) ==>
                  trace[k].reserved == trace[j].reserved
    {
      ghost var was := trace;
      charges := PerformPlaceholder(a, ops[i], charges);
      trace := trace + [a.Now()];
      OneMoreAccount(was, a.Now(), a.capacity);
    }
    forall j: nat, i: nat | j < i < |trace| && Over(trace, a.capacity, j, i)
      ensures trace[i].reserved == WholeChunks(a.capacity) <==>
              trace[j].Close() && trace[j].usage >= WholeChunks(a.capacity)
    {
      OverFromWithin(trace, a.capacity, j, i);
      GoingOver(trace[j], a.capacity);
    }
  }

  lemma NothingOut(a: SecondaryAdapter)
    requires a.Valid() && a.placeholders == []
    ensures a.Now().Whole() && a.Now().Close() && a.placeholderUsage <= a.capacity
  {
  }

  lemma FirstAccount(now: Account, capacity: nat)
    requires now.usage <= capacity
    ensures WithinUpTo([now], capacity, 0)
  {
  }

  method PerformPlaceholder(a: SecondaryAdapter, op: Op, charges: seq<nat>) returns (after: seq<nat>)
    requires a.Valid() && a.placeholders == charges
    modifies a, a.primary, a.secondary
    ensures a.Valid() && a.placeholders == after && a.Now().Whole()
    ensures old(a.Now()).Close() && a.placeholderUsage <= a.capacity ==> a.Now().Close()
    ensures a.placeholderUsage > a.capacity ==> a.reservedUsage == old(a.reservedUsage)
  {
    hide WholeChunks, SecondaryPart;
    after := charges;
    match op
    case Insert(charge) =>
      a.InsertPlaceholder(charge);
      after := charges + [charge];
    case Release(j) =>
      if j < |charges| {
        a.ReleasePlaceholder(j, charges[j]);
        after := charges[..j] + charges[j + 1..];
      }
  }

  /** The usage is over the capacity from after account `j` to account `i`, and within it in account `j`. */
  ghost predicate Over(trace: seq<Account>, capacity: nat, j: nat, i: nat)
    requires j < i < |trace|
  {
    trace[j].usage <= capacity && forall k :: j < k <= i ==> trace[k].usage > capacity
  }

  lemma OverFromWithin(trace: seq<Account>, capacity: nat, j: nat, i: nat)
    requires j < i < |trace| && Over(trace, capacity, j, i)
    ensures trace[j].usage <= capacity < trace[i].usage
  {
  }

  lemma OneMoreAccount(was: seq<Account>, now: Account, capacity: nat)
    requires was != []
    ensures forall k :: 0 <= k < |was| ==> (WithinUpTo(was + [now], capacity, k) <==> WithinUpTo(was, capacity, k))
    ensures WithinUpTo(was + [now], capacity, |was|) ==> WithinUpTo(was, capacity, |was| - 1) && now.usage <= capacity
    ensures forall j: nat, i: nat :: j < i <= |was| && Over(was + [now], capacity, j, i) ==>
              if i < |was| then Over(was, capacity, j, i)
              else now.usage > capacity && (j == |was| - 1 || Over(was, capacity, j, |was| - 1))
  {
    var all := was + [now];
    assert forall k :: 0 <= k < |was| ==> all[k] == was[k];
    assert all[|was|] == now;
  }

  /** The usage is within the capacity in the first accounts, up to number `i`. */
  predicate WithinUpTo(trace: seq<Account>, capacity: nat, i: nat)
    requires i < |trace|
  {
    forall k :: 0 <= k <= i ==> trace[k].usage <= capacity
  }

  lemma SumOf(x: nat, y: nat)
    ensures Sum([x]) == x && Sum([y]) == y && Sum([x, y]) == x + y
  {
    assert [x][1..] == [] && [y][1..] == [] && [x, y][1..] == [y];
  }

  lemma ChunksFit(n: nat)
    ensures WholeChunks(n) <= n < WholeChunks(n) + RESERVATION_CHUNK && WholeChunks(n) % RESERVATION_CHUNK == 0
  {
  }
}
