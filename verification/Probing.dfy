/**
 Double hashing with displacement counts (cache/clock_cache.cc, FixedHyperClockTable): the probe
 sequence of a key, and how many stored entries were displaced past each slot.
 */
module Probing {
  import opened Bits

  /** The two 64-bit halves of a hashed key. */
  datatype HashedKey = HashedKey(low: nat, high: nat) {
    /** made odd, so that it has no factor in common with the table size */
    function Increment(): (r: nat)
      ensures r % 2 == 1
    {
      if low % 2 == 0 then low + 1 else low
    }
  }

  function Probe(bits: nat, key: HashedKey, i: nat): (r: nat)
    ensures r < Pow2(bits)
  {
    (key.high + i * key.Increment()) % Pow2(bits)
  }

  // ---------------------------------------------------------------- the probe sequence

  lemma {:induction false} OddCancels(bits: nat, m: nat, d: int, c: int) returns (f: int)
    requires m % 2 == 1 && m * d == Pow2(bits) * c
    ensures d == Pow2(bits) * f
  {
    if bits == 0 {
      f := d;
    } else {
      var a := m / 2;
      assert m == 2 * a + 1;
      assert m * d == 2 * (a * d) + d;
      var e := Pow2(bits - 1) * c - a * d;
      assert Pow2(bits) * c == 2 * (Pow2(bits - 1) * c);
      assert d == 2 * e;
      assert m * d == 2 * (m * e);
      f := OddCancels(bits - 1, m, e, c);
    }
  }

  /** Equal remainders differ by a multiple. */
  lemma SameRemainder(x: nat, y: nat, d: nat)
    requires d > 0 && x % d == y % d
    ensures y - x == d * (y / d - x / d)
  {
  }

  lemma ShiftedRemainder(x: nat, y: nat, d: nat)
    requires d > 0
    ensures (x % d + y) % d == (x + y) % d
  {
    var q := (x % d + y) / d;
    var r := (x % d + y) % d;
    assert x == d * (x / d) + x % d;
    assert x + y == d * (x / d) + (d * q + r);
    assert x + y == d * (x / d + q) + r;
    DivModUnique(x + y, d, x / d + q, r);
  }

  /** Stepping by the increment walks along the probe sequence. */
  lemma ProbeNext(bits: nat, key: HashedKey, i: nat)
    ensures (Probe(bits, key, i) + key.Increment()) % Pow2(bits) == Probe(bits, key, i + 1)
  {
    ShiftedRemainder(key.high + i * key.Increment(), key.Increment(), Pow2(bits));
    assert key.high + i * key.Increment() + key.Increment() == key.high + (i + 1) * key.Increment();
  }

  lemma ProbeIsInjective(bits: nat, key: HashedKey, i: nat, j: nat)
    requires i < j < Pow2(bits)
    ensures Probe(bits, key, i) != Probe(bits, key, j)
  {
    if Probe(bits, key, i) == Probe(bits, key, j) {
      var n, m := Pow2(bits), key.Increment();
      var x, y := key.high + i * m, key.high + j * m;
      SameRemainder(x, y, n);
      assert y - x == m * (j - i);
      var f := OddCancels(bits, m, j - i, y / n - x / n);
      MultipleIsFar(n, f);
      assert false;
    }
  }

  lemma ProbeComesBack(bits: nat, key: HashedKey)
    ensures Probe(bits, key, Pow2(bits)) == Probe(bits, key, 0)
  {
    var n, m := Pow2(bits), key.Increment();
    var q, r := key.high / n, key.high % n;
    assert key.high + n * m == n * (q + m) + r;
    DivModUnique(key.high + n * m, n, q + m, r);
  }

  function UpTo(n: nat): (r: set<nat>)
    ensures forall i: nat :: i in r <==> i < n
  {
    if n == 0 then {} else UpTo(n - 1) + {n - 1}
  }

  lemma {:induction false} UpToSize(n: nat)
    ensures |UpTo(n)| == n
  {
    if n > 0 {
      UpToSize(n - 1);
    }
  }

  function FirstProbes(bits: nat, key: HashedKey, n: nat): set<nat> {
    set i: nat | 0 <= i < n :: Probe(bits, key, i)
  }

  lemma {:induction false} FirstProbesSize(bits: nat, key: HashedKey, n: nat)
    requires n <= Pow2(bits)
    ensures |FirstProbes(bits, key, n)| == n
  {
    if n > 0 {
      FirstProbesSize(bits, key, n - 1);
      var last := Probe(bits, key, n - 1);
      assert last !in FirstProbes(bits, key, n - 1) by {
        if last in FirstProbes(bits, key, n - 1) {
          var i: nat :| i < n - 1 && Probe(bits, key, i) == last;
          ProbeIsInjective(bits, key, i, n - 1);
        }
      }
      assert FirstProbes(bits, key, n) == FirstProbes(bits, key, n - 1) + {last};
    }
  }

  /** The probe sequence reaches every slot; by injectivity it does so exactly once. */
  lemma ProbeReaches(bits: nat, key: HashedKey, p: nat) returns (i: nat)
    requires p < Pow2(bits)
    ensures i < Pow2(bits) && Probe(bits, key, i) == p
  {
    var n := Pow2(bits);
    FirstProbesSize(bits, key, n);
    UpToSize(n);
    SubsetOfSameSize(FirstProbes(bits, key, n), UpTo(n));
    assert p in FirstProbes(bits, key, n);
    i :| i < n && Probe(bits, key, i) == p;
  }

  lemma SubsetOfSameSize(a: set<nat>, b: set<nat>)
    requires a <= b && |a| == |b|
    ensures a == b
  {
    assert |b - a| == |b| - |a|;
  }

  // ---------------------------------------------------------------- displacements

  datatype Slot = Empty | Entry(key: HashedKey, id: nat, visible: bool, acquire: nat, release: nat) {
    function Refs(): int { if Empty? then 0 else acquire - release }
    predicate Shows(k: HashedKey) { Entry? && visible && key == k }
  }

  /** One of the probes of `key` from the one numbered `j` to before the one numbered `i` is the slot `q`. */
  ghost predicate Passed(bits: nat, key: HashedKey, j: nat, i: nat, q: nat) {
    exists h: nat :: j <= h < i && Probe(bits, key, h) == q
  }

  /** An entry with this key, stored in slot `p`, was displaced past slot `q`. */
  ghost predicate Displaced(bits: nat, key: HashedKey, p: nat, q: nat) {
    exists i: nat :: i < Pow2(bits) && Probe(bits, key, i) == p && Passed(bits, key, 0, i, q)
  }

  lemma DisplacedIs(bits: nat, key: HashedKey, i: nat, q: nat)
    requires i < Pow2(bits)
    ensures Displaced(bits, key, Probe(bits, key, i), q) <==> Passed(bits, key, 0, i, q)
  {
    if Displaced(bits, key, Probe(bits, key, i), q) {
      var h: nat :| h < Pow2(bits) && Probe(bits, key, h) == Probe(bits, key, i) && Passed(bits, key, 0, h, q);
      if h < i {
        ProbeIsInjective(bits, key, h, i);
      } else if i < h {
        ProbeIsInjective(bits, key, i, h);
      }
    }
  }

  ghost function Weight(bits: nat, slot: Slot, p: nat, q: nat): nat {
    if slot.Entry? && Displaced(bits, slot.key, p, q) then 1 else 0
  }

  /** How many of the first `n` slots hold an entry that was displaced past slot `q`. */
  ghost function DisplacedPast(bits: nat, slots: seq<Slot>, q: nat, n: nat): nat
    requires n <= |slots|
  {
    if n == 0 then 0 else DisplacedPast(bits, slots, q, n - 1) + Weight(bits, slots[n - 1], n - 1, q)
  }

  /** Changing one slot changes the count by that slot's share. */
  lemma {:induction false} DisplacedPastUpdate(bits: nat, slots: seq<Slot>, p: nat, slot: Slot, q: nat, n: nat)
    requires n <= |slots| && p < |slots|
    ensures DisplacedPast(bits, slots[p := slot], q, n) ==
            DisplacedPast(bits, slots, q, n)
            + if p < n then Weight(bits, slot, p, q) - Weight(bits, slots[p], p, q) else 0
  {
    if n > 0 {
      DisplacedPastUpdate(bits, slots, p, slot, q, n - 1);
    }
  }

  lemma {:induction false} DisplacedPastAtLeast(bits: nat, slots: seq<Slot>, q: nat, n: nat, p: nat)
    requires p < n <= |slots| && Weight(bits, slots[p], p, q) == 1
    ensures DisplacedPast(bits, slots, q, n) >= 1
  {
    if p < n - 1 {
      DisplacedPastAtLeast(bits, slots, q, n - 1, p);
    }
  }

  /** The counts are exact. */
  ghost predicate Exact(bits: nat, slots: seq<Slot>, displacements: seq<int>) {
    && |slots| == |displacements| == Pow2(bits)
    && forall q: nat :: q < Pow2(bits) ==> displacements[q] == DisplacedPast(bits, slots, q, |slots|)
  }

  /** The counts are exact but for the probes `j` to `i` of `key`, which are counted once more. */
  ghost predicate Ahead(bits: nat, slots: seq<Slot>, displacements: seq<int>, key: HashedKey, j: nat, i: nat) {
    && |slots| == |displacements| == Pow2(bits)
    && forall q: nat :: q < Pow2(bits) ==>
         displacements[q] == DisplacedPast(bits, slots, q, |slots|) + if Passed(bits, key, j, i, q) then 1 else 0
  }

  lemma NothingPassed(bits: nat, slots: seq<Slot>, displacements: seq<int>, key: HashedKey, i: nat)
    ensures Exact(bits, slots, displacements) <==> Ahead(bits, slots, displacements, key, i, i)
  {
    assert forall q :: !Passed(bits, key, i, i, q);
  }

  /** Counting one more probe at the far end. */
  lemma Bump(bits: nat, slots: seq<Slot>, displacements: seq<int>, key: HashedKey, i: nat)
    requires Ahead(bits, slots, displacements, key, 0, i) && i < Pow2(bits)
    ensures var c := Probe(bits, key, i);
            Ahead(bits, slots, displacements[c := displacements[c] + 1], key, 0, i + 1)
  {
    var c := Probe(bits, key, i);
    forall q: nat | q < Pow2(bits)
      ensures Passed(bits, key, 0, i + 1, q) <==> Passed(bits, key, 0, i, q) || q == c
    {
    }
    if Passed(bits, key, 0, i, c) {
      var h: nat :| h < i && Probe(bits, key, h) == c;
      ProbeIsInjective(bits, key, h, i);
    }
  }

  /** Counting one probe less at the near end. */
  lemma Unbump(bits: nat, slots: seq<Slot>, displacements: seq<int>, key: HashedKey, j: nat, i: nat)
    requires Ahead(bits, slots, displacements, key, j, i) && j < i < Pow2(bits)
    ensures var c := Probe(bits, key, j);
            Ahead(bits, slots, displacements[c := displacements[c] - 1], key, j + 1, i)
  {
    var c := Probe(bits, key, j);
    forall q: nat | q < Pow2(bits)
      ensures Passed(bits, key, j, i, q) <==> Passed(bits, key, j + 1, i, q) || q == c
    {
    }
    if Passed(bits, key, j + 1, i, c) {
      var h: nat :| j + 1 <= h < i && Probe(bits, key, h) == c;
      ProbeIsInjective(bits, key, j, h);
    }
  }

  /** An entry placed at the probe reached so far makes the counts exact. */
  lemma Placed(bits: nat, slots: seq<Slot>, displacements: seq<int>, i: nat, slot: Slot)
    requires i < Pow2(bits) && slot.Entry?
    requires Ahead(bits, slots, displacements, slot.key, 0, i)
    requires slots[Probe(bits, slot.key, i)].Empty?
    ensures Exact(bits, slots[Probe(bits, slot.key, i) := slot], displacements)
  {
    var p := Probe(bits, slot.key, i);
    forall q: nat | q < Pow2(bits)
      ensures displacements[q] == DisplacedPast(bits, slots[p := slot], q, |slots|)
    {
      DisplacedPastUpdate(bits, slots, p, slot, q, |slots|);
      DisplacedIs(bits, slot.key, i, q);
    }
  }

  /** Conversely, an entry taken away leaves its own path counted once too often. */
  lemma TakenAway(bits: nat, slots: seq<Slot>, displacements: seq<int>, p: nat, i: nat)
    requires Exact(bits, slots, displacements) && p < |slots| && slots[p].Entry?
    requires i < Pow2(bits) && Probe(bits, slots[p].key, i) == p
    ensures Ahead(bits, slots[p := Empty], displacements, slots[p].key, 0, i)
  {
    forall q: nat | q < Pow2(bits)
      ensures displacements[q] ==
              DisplacedPast(bits, slots[p := Empty], q, |slots|) + if Passed(bits, slots[p].key, 0, i, q) then 1 else 0
    {
      DisplacedPastUpdate(bits, slots, p, Empty, q, |slots|);
      DisplacedIs(bits, slots[p].key, i, q);
    }
  }

  /** Counts depend only on which keys are where. */
  lemma SameKeys(bits: nat, slots: seq<Slot>, displacements: seq<int>, p: nat, slot: Slot)
    requires Exact(bits, slots, displacements) && p < |slots| && slots[p].Entry? && slot.Entry?
    requires slot.key == slots[p].key
    ensures Exact(bits, slots[p := slot], displacements)
  {
    forall q: nat | q < Pow2(bits)
      ensures displacements[q] == DisplacedPast(bits, slots[p := slot], q, |slots|)
    {
      DisplacedPastUpdate(bits, slots, p, slot, q, |slots|);
    }
  }

  /** Past a slot with a zero count there is no entry with the key being probed for. */
  lemma ZeroEndsSearch(bits: nat, slots: seq<Slot>, displacements: seq<int>, key: HashedKey, i: nat, m: nat)
    requires Exact(bits, slots, displacements) && i < m < Pow2(bits)
    requires displacements[Probe(bits, key, i)] == 0
    ensures var s := slots[Probe(bits, key, m)]; s.Empty? || s.key != key
  {
    var p, q := Probe(bits, key, m), Probe(bits, key, i);
    if slots[p].Entry? && slots[p].key == key {
      assert Passed(bits, key, 0, m, q);
      DisplacedIs(bits, key, m, q);
      DisplacedPastAtLeast(bits, slots, q, |slots|, p);
    }
  }
}
