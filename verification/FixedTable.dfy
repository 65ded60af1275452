/**
 FixedHyperClockTable (cache/clock_cache.cc) used by one thread at a time: open addressing by
 double hashing, with a displacement count per slot that lets a search stop early.
 */
module FixedTable {
  import opened Bits
  import opened Probing
  import SlotProtocol

  datatype InsertResult = Inserted(at: nat) | AlreadyMatches(at: nat) | NoRoom

  /** What `Erase` does to a slot: a match becomes invisible, and goes if nobody refers to it. */
  function Erased(slot: Slot, key: HashedKey): Slot {
    if !slot.Shows(key) then slot
    else if slot.Refs() == 0 then Empty
    else slot.(visible := false)
  }

  /** What `Release` does to a slot. */
  function Released(slot: Slot, useful: bool, eraseIfLastRef: bool): Slot
    requires slot.Entry? && slot.Refs() > 0 && slot.acquire > 0
  {
    var s := if useful then slot.(release := slot.release + 1) else slot.(acquire := slot.acquire - 1);
    if (eraseIfLastRef || !slot.visible) && s.Refs() == 0 then Empty else s
  }

  /** What a visit of the clock hand does to a slot. */
  function Aged(slot: Slot): Slot {
    if slot.Empty? || slot.Refs() != 0 then slot
    else if slot.visible && slot.acquire > 0 then
      var count := if slot.acquire - 1 < SlotProtocol.MAX_COUNTDOWN - 1 then slot.acquire - 1
                else SlotProtocol.MAX_COUNTDOWN - 1;
      slot.(acquire := count, release := count)
    else Empty
  }

  /** Slot `p` is the first on the probe path of `key` that is empty or shows `key`. */
  ghost predicate FirstStop(bits: nat, slots: seq<Slot>, key: HashedKey, p: nat)
    requires |slots| == Pow2(bits)
  {
    exists i: nat :: i < Pow2(bits) && PathClear(bits, slots, key, i) && Probe(bits, key, i) == p
                     && (slots[p].Empty? || slots[p].Shows(key))
  }

  ghost predicate PathClear(bits: nat, slots: seq<Slot>, key: HashedKey, i: nat)
    requires |slots| == Pow2(bits)
  {
    forall j: nat :: j < i ==> slots[Probe(bits, key, j)].Entry? && !slots[Probe(bits, key, j)].Shows(key)
  }

  /** The slot holds a visible entry with the key. */
  predicate VisibleWith(slot: Slot, key: HashedKey) {
    match slot
    case Empty => false
    case Entry(k, _, visible, _, _) => visible && k == key
  }

  /** An entry, in its own terms: it is not referenced when the counters are equal. */
  predicate Unreferenced(slot: Slot) { slot.Entry? && slot.acquire == slot.release }

  class Table {
    const bits: nat
    const slots: array<Slot>
    const displacements: array<int>

    ghost predicate Valid()
      reads this, slots, displacements
    {
      && Exact(bits, slots[..], displacements[..])
      && forall p :: 0 <= p < slots.Length && slots[p].Entry? ==> slots[p].release <= slots[p].acquire
    }

    constructor (bits: nat)
      ensures Valid() && this.bits == bits
      ensures forall p :: 0 <= p < slots.Length ==> slots[p].Empty?
      ensures fresh(slots) && fresh(displacements)
    {
      this.bits := bits;
      slots := new Slot[Pow2(bits)](_ => Empty);
      displacements := new int[Pow2(bits)](_ => 0);
      new;
      forall q: nat | q < Pow2(bits)
        ensures DisplacedPast(bits, slots[..], q, |slots[..]|) == 0
      {
        NoneDisplaced(bits, slots[..], q, |slots[..]|);
      }
    }

    /** Take back the displacements made for `key` on the way to its `i`th probe, slot `p`. */
    method Rollback(key: HashedKey, p: nat, ghost i: nat)
      requires i < Pow2(bits) && Probe(bits, key, i) == p
      requires Ahead(bits, slots[..], displacements[..], key, 0, i)
      modifies displacements
      ensures Exact(bits, slots[..], displacements[..])
    {
      var current := key.high % Pow2(bits);
      var increment := key.Increment();
      ghost var j := 0;
      while current != p
        invariant 0 <= j <= i && current == Probe(bits, key, j)
        invariant Ahead(bits, slots[..], displacements[..], key, j, i)
        decreases i - j
      {
        Unbump(bits, slots[..], displacements[..], key, j, i);
        ghost var was := displacements[..];
        displacements[current] := displacements[current] - 1;
        assert displacements[..] == was[current := was[current] - 1];
        ProbeNext(bits, key, j);
        current := (current + increment) % Pow2(bits);
        j := j + 1;
      }
      if j < i {
        ProbeIsInjective(bits, key, j, i);
      }
      NothingPassed(bits, slots[..], displacements[..], key, i);
    }

    /** Put another state of the same entry, or the same key, into a slot. */
    method Restate(p: nat, slot: Slot)
      requires Valid() && p < slots.Length && slots[p].Entry? && slot.Entry? && slot.key == slots[p].key
      requires slot.release <= slot.acquire
      modifies slots
      ensures Valid() && slots[..] == old(slots[..])[p := slot]
    {
      SameKeys(bits, slots[..], displacements[..], p, slot);
      slots[p] := slot;
      assert slots[..] == old(slots[..])[p := slot];
    }

    /** Roll back the displacements of an entry and free its slot. */
    method FreeSlot(p: nat)
      requires Valid() && p < slots.Length && slots[p].Entry?
      modifies slots, displacements
      ensures Valid() && slots[..] == old(slots[..])[p := Empty]
    {
      ghost var i := ProbeReaches(bits, slots[p].key, p);
      TakenAway(bits, slots[..], displacements[..], p, i);
      var key := slots[p].key;
      slots[p] := Empty;
      assert slots[..] == old(slots[..])[p := Empty];
      Rollback(key, p, i);
    }

    method DoInsert(key: HashedKey, id: nat, countdown: nat, keepRef: bool) returns (r: InsertResult)
      requires Valid() && countdown > 0
      modifies slots, displacements
      ensures Valid()
      ensures match r
              case Inserted(p) =>
                && p < slots.Length && FirstStop(bits, old(slots[..]), key, p) && old(slots[p]).Empty?
                && slots[..] ==
                   old(slots[..])[p := Entry(key, id, true, countdown, if keepRef then countdown - 1 else countdown)]
              case AlreadyMatches(p) =>
                && p < slots.Length && FirstStop(bits, old(slots[..]), key, p) && old(slots[p]).Shows(key)
                && slots[..] ==
                   old(slots[..])[p := old(slots[p]).(acquire := old(slots[p]).acquire + countdown,
                                                      release := old(slots[p]).release + countdown)]
              case NoRoom =>
                && slots[..] == old(slots[..])
                && forall p :: 0 <= p < slots.Length ==> slots[p].Entry? && !slots[p].Shows(key)
    {
      var increment := key.Increment();
      var first := key.high % Pow2(bits);
      var current := first;
      ghost var i := 0;
      NothingPassed(bits, slots[..], displacements[..], key, 0);
      while true
        invariant 0 <= i < Pow2(bits) && current == Probe(bits, key, i)
        invariant Ahead(bits, slots[..], displacements[..], key, 0, i)
        invariant slots[..] == old(slots[..])
        invariant PathClear(bits, slots[..], key, i)
        decreases Pow2(bits) - i
      {
        if slots[current].Empty? {
          var slot := Entry(key, id, true, countdown, if keepRef then countdown - 1 else countdown);
          Placed(bits, slots[..], displacements[..], i, slot);
          slots[current] := slot;
          assert slots[..] == old(slots[..])[current := slot];
          return Inserted(current);
        }
        if slots[current].Shows(key) {
          Rollback(key, current, i);
          Restate(current, slots[current].(acquire := slots[current].acquire + countdown,
                    release := slots[current].release + countdown));
          return AlreadyMatches(current);
        }
        ProbeNext(bits, key, i);
        var next := (current + increment) % Pow2(bits);
        if next == first {
          if i + 1 < Pow2(bits) { ProbeIsInjective(bits, key, 0, i + 1); }
          Rollback(key, current, i);
          forall p | 0 <= p < slots.Length
            ensures slots[p].Entry? && !slots[p].Shows(key)
          {
            var m := ProbeReaches(bits, key, p);
          }
          return NoRoom;
        }
        if i + 1 == Pow2(bits) { ProbeComesBack(bits, key); }
        Bump(bits, slots[..], displacements[..], key, i);
        ghost var was := displacements[..];
        displacements[current] := displacements[current] + 1;
        assert displacements[..] == was[current := was[current] + 1];
        current := next;
        i := i + 1;
      }
    }

    /** An entry is found if and only if a visible one with the key is stored. */
    method Lookup(key: HashedKey) returns (found: bool, at: nat)
      requires Valid()
      modifies slots
      ensures Valid()
      ensures found <==> exists p :: 0 <= p < slots.Length && VisibleWith(old(slots[p]), key)
      ensures found ==> at < slots.Length && VisibleWith(old(slots[at]), key)
                        && slots[..] == old(slots[..])[at := old(slots[at]).(acquire := old(slots[at]).acquire + 1)]
      ensures !found ==> slots[..] == old(slots[..])
    {
      var increment := key.Increment();
      var first := key.high % Pow2(bits);
      at := first;
      ghost var i := 0;
      while true
        invariant 0 <= i < Pow2(bits) && at == Probe(bits, key, i)
        invariant Valid() && slots[..] == old(slots[..])
        invariant forall j: nat :: j < i ==> !slots[Probe(bits, key, j)].Shows(key)
        decreases Pow2(bits) - i
      {
        if slots[at].Shows(key) {
          Restate(at, slots[at].(acquire := slots[at].acquire + 1));
          return true, at;
        }
        ProbeNext(bits, key, i);
        var next := (at + increment) % Pow2(bits);
        if displacements[at] == 0 || next == first {
          if next == first && i + 1 < Pow2(bits) { ProbeIsInjective(bits, key, 0, i + 1); }
          forall p | 0 <= p < slots.Length
            ensures !slots[p].Shows(key)
          {
            var m := ProbeReaches(bits, key, p);
            if i < m { ZeroEndsSearch(bits, slots[..], displacements[..], key, i, m); }
          }
          return false, at;
        }
        if i + 1 == Pow2(bits) { ProbeComesBack(bits, key); }
        at := next;
        i := i + 1;
      }
    }

    method Release(p: nat, useful: bool, eraseIfLastRef: bool) returns (freed: bool)
      requires Valid() && p < slots.Length && slots[p].Entry? && slots[p].Refs() > 0
      modifies slots, displacements
      ensures Valid() && slots[..] == old(slots[..])[p := Released(old(slots[p]), useful, eraseIfLastRef)]
      ensures freed <==> slots[p].Empty?
      ensures freed <==>
                old(slots[p]).acquire == old(slots[p]).release + 1 && (eraseIfLastRef || !old(slots[p]).visible)
      ensures !freed ==>
                slots[p] == if useful then old(slots[p]).(release := old(slots[p]).release + 1)
                            else old(slots[p]).(acquire := old(slots[p]).acquire - 1)
    {
      var slot := slots[p];
      if useful {
        Restate(p, slot.(release := slot.release + 1));
      } else {
        Restate(p, slot.(acquire := slot.acquire - 1));
      }
      freed := (eraseIfLastRef || !slot.visible) && slots[p].Refs() == 0;
      if freed {
        FreeSlot(p);
      }
      assert slots[..] == old(slots[..])[p := Released(slot, useful, eraseIfLastRef)];
    }

    /** One visit of the clock hand. */
    method ClockUpdate(p: nat) returns (freed: bool)
      requires Valid() && p < slots.Length
      modifies slots, displacements
      ensures Valid() && slots[..] == old(slots[..])[p := Aged(old(slots[p]))]
      ensures freed <==> old(slots[p]).Entry? && slots[p].Empty?
      ensures freed <==> Unreferenced(old(slots[p])) && (!old(slots[p]).visible || old(slots[p]).acquire == 0)
      ensures !freed && !Unreferenced(old(slots[p])) ==> slots[p] == old(slots[p])
      ensures !freed && Unreferenced(old(slots[p])) ==>
                && Unreferenced(slots[p]) && slots[p].acquire < old(slots[p]).acquire && slots[p].acquire <= 2
                && (slots[p].acquire == 2 || slots[p].acquire == old(slots[p]).acquire - 1)
                && slots[p] == old(slots[p]).(acquire := slots[p].acquire, release := slots[p].acquire)
    {
      freed := false;
      var slot := slots[p];
      if slot.Empty? || slot.Refs() != 0 {
      } else if slot.visible && slot.acquire > 0 {
        var count := if slot.acquire - 1 < SlotProtocol.MAX_COUNTDOWN - 1 then slot.acquire - 1
                  else SlotProtocol.MAX_COUNTDOWN - 1;
        Restate(p, slot.(acquire := count, release := count));
      } else {
        FreeSlot(p);
        freed := true;
      }
      assert slots[..] == old(slots[..])[p := Aged(slot)];
    }

    method EraseUnRefEntries()
      requires Valid()
      modifies slots, displacements
      ensures Valid()
      ensures forall p :: 0 <= p < slots.Length ==>
                slots[p] == if Unreferenced(old(slots[p])) then Empty else old(slots[p])
    {
      for p := 0 to slots.Length
        invariant Valid()
        invariant forall q :: p <= q < slots.Length ==> slots[q] == old(slots[q])
        invariant forall q :: 0 <= q < p ==>
                    slots[q] == if old(slots[q]).Entry? && old(slots[q]).Refs() == 0 then Empty else old(slots[q])
      {
        if slots[p].Entry? && slots[p].Refs() == 0 {
          ghost var was := slots[..];
          FreeSlot(p);
          assert forall q :: 0 <= q < slots.Length ==>
                   slots[q] == slots[..][q] && was[q] == if q == p then was[p] else slots[q];
        }
      }
    }

    method EraseAt(p: nat, key: HashedKey)
      requires Valid() && p < slots.Length
      modifies slots, displacements
      ensures Valid() && slots[..] == old(slots[..])[p := Erased(old(slots[p]), key)]
    {
      var slot := slots[p];
      if slot.Shows(key) {
        if slot.Refs() == 0 {
          FreeSlot(p);
        } else {
          Restate(p, slot.(visible := false));
        }
      }
      assert slots[..] == old(slots[..])[p := Erased(slot, key)];
    }

    /** Every visible entry with the key goes, wherever it is, and nothing else changes. */
    method Erase(key: HashedKey)
      requires Valid()
      modifies slots, displacements
      ensures Valid()
      ensures forall p :: 0 <= p < slots.Length ==> slots[p] == Erased(old(slots[p]), key)
      ensures forall p :: 0 <= p < slots.Length ==>
                && !VisibleWith(slots[p], key)
                && (!VisibleWith(old(slots[p]), key) ==> slots[p] == old(slots[p]))
                && (VisibleWith(old(slots[p]), key) ==>
                      if Unreferenced(old(slots[p])) then slots[p].Empty?
                      else slots[p] == old(slots[p]).(visible := false))
    {
      var increment := key.Increment();
      var first := key.high % Pow2(bits);
      var current := first;
      ghost var i := 0;
      while true
        invariant 0 <= i < Pow2(bits) && current == Probe(bits, key, i)
        invariant Valid()
        invariant forall j: nat :: j < i ==> slots[Probe(bits, key, j)] == Erased(old(slots[Probe(bits, key, j)]), key)
        invariant forall j: nat :: i <= j < Pow2(bits) ==> slots[Probe(bits, key, j)] == old(slots[Probe(bits, key, j)])
        decreases Pow2(bits) - i
      {
        ghost var was := slots[..];
        EraseAt(current, key);
        forall j: nat | j < Pow2(bits) && j != i
          ensures slots[Probe(bits, key, j)] == was[Probe(bits, key, j)]
        {
          if j < i { ProbeIsInjective(bits, key, j, i); } else { ProbeIsInjective(bits, key, i, j); }
        }
        ProbeNext(bits, key, i);
        var next := (current + increment) % Pow2(bits);
        if displacements[current] == 0 || next == first {
          if next == first && i + 1 < Pow2(bits) { ProbeIsInjective(bits, key, 0, i + 1); }
          forall p | 0 <= p < slots.Length
            ensures slots[p] == Erased(old(slots[p]), key)
          {
            var m := ProbeReaches(bits, key, p);
            if i < m { ZeroEndsSearch(bits, slots[..], displacements[..], key, i, m); }
          }
          return;
        }
        if i + 1 == Pow2(bits) { ProbeComesBack(bits, key); }
        current := next;
        i := i + 1;
      }
    }
  }

  /** What was erased is not found. */
  method EraseThenLookup(table: Table, key: HashedKey) returns (found: bool)
    requires table.Valid()
    modifies table.slots, table.displacements
    ensures table.Valid() && !found
  {
    var at;
    table.Erase(key);
    found, at := table.Lookup(key);
  }

  /** What was inserted is found, as is what was there already. */
  method InsertThenLookup(table: Table, key: HashedKey, id: nat, countdown: nat) returns (found: bool)
    requires table.Valid() && countdown > 0
    requires exists p :: 0 <= p < table.slots.Length && table.slots[p].Empty?
    modifies table.slots, table.displacements
    ensures table.Valid() && found
  {
    var r := table.DoInsert(key, id, countdown, false);
    var at;
    assert !r.NoRoom?;
    assert VisibleWith(table.slots[r.at], key) by { assert table.slots[r.at] == table.slots[..][r.at]; }
    found, at := table.Lookup(key);
  }

  lemma {:induction false} NoneDisplaced(bits: nat, slots: seq<Slot>, q: nat, n: nat)
    requires n <= |slots| && forall p :: 0 <= p < |slots| ==> slots[p].Empty?
    ensures DisplacedPast(bits, slots, q, n) == 0
  {
    if n > 0 {
      NoneDisplaced(bits, slots, q, n - 1);
    }
  }
}
