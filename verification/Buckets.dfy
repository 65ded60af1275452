/**
 The buckets of BucketLSM (db/column_family.h, db/column_family.cc): key ranges that cover the
 key space, each with statistics on the last few flushes.
 */
module Buckets {
  import opened KeyOrder

  const WINDOW_SIZE: nat := 10

  /** File, entry and byte counts, which are always handled together. */
  datatype Stats = Stats(files: nat, entries: nat, bytes: nat) {
    function Plus(other: Stats): Stats {
      Stats(files + other.files, entries + other.entries, bytes + other.bytes)
    }
    predicate Covers(other: Stats) {
      files >= other.files && entries >= other.entries && bytes >= other.bytes
    }
    function Minus(other: Stats): Stats
      requires Covers(other)
    {
      Stats(files - other.files, entries - other.entries, bytes - other.bytes)
    }
    function DividedBy(n: nat): Stats
      requires n > 0
    {
      Stats(files / n, entries / n, bytes / n)
    }
    function Times(n: nat): Stats { Stats(files * n, entries * n, bytes * n) }
  }

  const ZERO := Stats(0, 0, 0)

  lemma PlusAssociative(a: Stats, b: Stats, c: Stats)
    ensures a.Plus(b).Plus(c) == a.Plus(b.Plus(c))
  {
  }

  lemma PlusZero(a: Stats)
    ensures a.Plus(ZERO) == a && ZERO.Plus(a) == a
  {
  }

  lemma PlusRegroups(a: Stats, b: Stats, c: Stats, d: Stats)
    ensures a.Plus(b).Plus(c.Plus(d)) == a.Plus(c).Plus(b.Plus(d))
  {
  }

  datatype FlushEvent = FlushEvent(stats: Stats, median: Key)

  datatype Bucket = Bucket(min: Key, max: Key, events: map<nat, FlushEvent>, window: Stats) {
    predicate Holds(k: Key) { InRange(k, min, max) }
    /** what the bucket received in one flush */
    function At(id: nat): Stats { StatsAt(events, id) }
  }

  function StatsAt(events: map<nat, FlushEvent>, id: nat): Stats {
    if id in events then events[id].stats else ZERO
  }

  // ---------------------------------------------------------------- window statistics

  /** The sum over the events with numbers below `n`. */
  function SumTo(events: map<nat, FlushEvent>, n: nat): Stats {
    if n == 0 then ZERO else SumTo(events, n - 1).Plus(StatsAt(events, n - 1))
  }

  lemma {:induction false} SumWithout(events: map<nat, FlushEvent>, id: nat, n: nat)
    requires id < n
    ensures SumTo(events, n) == SumTo(events - {id}, n).Plus(StatsAt(events, id))
  {
    if id == n - 1 {
      SumSame(events, events - {id}, n - 1);
    } else {
      SumWithout(events, id, n - 1);
    }
  }

  lemma {:induction false} SumSame(a: map<nat, FlushEvent>, b: map<nat, FlushEvent>, n: nat)
    requires forall id :: 0 <= id < n ==> StatsAt(a, id) == StatsAt(b, id)
    ensures SumTo(a, n) == SumTo(b, n)
  {
    if n > 0 {
      SumSame(a, b, n - 1);
    }
  }

  /** Every event is among the last `WINDOW_SIZE` of `counter` flushes. */
  predicate InWindow(events: map<nat, FlushEvent>, counter: nat) {
    forall id :: id in events ==> 1 <= id <= counter < id + WINDOW_SIZE
  }

  /** The aggregates are the sums over the events, all of which are recent. */
  predicate Kept(b: Bucket, counter: nat) {
    InWindow(b.events, counter) && b.window == SumTo(b.events, counter + 1)
  }

  /** An old event removed, if it is there. */
  function Removed(b: Bucket, id: nat): Bucket {
    if id in b.events && b.window.Covers(b.events[id].stats)
    then b.(events := b.events - {id}, window := b.window.Minus(b.events[id].stats))
    else b
  }

  function Added(b: Bucket, id: nat, e: FlushEvent): Bucket {
    b.(events := b.events[id := e], window := b.window.Plus(e.stats))
  }

  /** One more flush: its event comes in, and the one that leaves the window goes out. */
  function Recorded(b: Bucket, id: nat, e: FlushEvent): Bucket {
    if id > WINDOW_SIZE then Removed(Added(b, id, e), id - WINDOW_SIZE) else Added(b, id, e)
  }

  /** No subtraction underflows, and the window slides by exactly one flush. */
  lemma RecordedIsKept(b: Bucket, counter: nat, e: FlushEvent)
    requires Kept(b, counter)
    ensures Kept(Recorded(b, counter + 1, e), counter + 1)
    ensures Recorded(b, counter + 1, e).events ==
            b.events[counter + 1 := e] - (if counter + 1 > WINDOW_SIZE then {counter + 1 - WINDOW_SIZE} else {})
  {
    var id := counter + 1;
    var added := Added(b, id, e);
    SumSame(b.events, added.events, id);
    assert added.window == SumTo(added.events, id + 1);
    if id > WINDOW_SIZE {
      SumWithout(added.events, id - WINDOW_SIZE, id + 1);
      if id - WINDOW_SIZE !in added.events {
        assert added.events - {id - WINDOW_SIZE} == added.events;
      }
    }
  }

  // ---------------------------------------------------------------- totals over all buckets

  function TotalAt(buckets: seq<Bucket>, id: nat): Stats {
    if buckets == [] then ZERO else buckets[0].At(id).Plus(TotalAt(buckets[1..], id))
  }

  lemma {:induction false} TotalConcat(a: seq<Bucket>, b: seq<Bucket>, id: nat)
    ensures TotalAt(a + b, id) == TotalAt(a, id).Plus(TotalAt(b, id))
  {
    if a == [] {
      assert a + b == b;
      PlusZero(TotalAt(b, id));
    } else {
      hide Stats.Plus, Bucket.At;
      assert (a + b)[1..] == a[1..] + b;
      TotalConcat(a[1..], b, id);
      PlusAssociative(a[0].At(id), TotalAt(a[1..], id), TotalAt(b, id));
    }
  }

  /** Replacing a stretch of buckets by others with the same total changes no total. */
  lemma TotalReplace(before: seq<Bucket>, a: seq<Bucket>, b: seq<Bucket>, after: seq<Bucket>, id: nat)
    requires TotalAt(a, id) == TotalAt(b, id)
    ensures TotalAt(before + a + after, id) == TotalAt(before + b + after, id)
  {
    TotalConcat(before + a, after, id);
    TotalConcat(before, a, id);
    TotalConcat(before + b, after, id);
    TotalConcat(before, b, id);
  }

  // ---------------------------------------------------------------- the partition

  /** Each bucket begins where the one before it ends; the ends are infinite. */
  predicate Contiguous(buckets: seq<Bucket>) {
    && |buckets| >= 1 && buckets[0].min == [] && buckets[|buckets| - 1].max == []
    && forall i :: 0 <= i < |buckets| - 1 ==> Meet(buckets, i)
  }

  predicate Meet(buckets: seq<Bucket>, i: nat)
    requires i + 1 < |buckets|
  {
    buckets[i].max == buckets[i + 1].min
  }

  /** Every bucket has a non-empty range, and only the last one is open above. */
  predicate Proper(buckets: seq<Bucket>) {
    && (forall i :: 0 <= i < |buckets| ==> ProperRange(buckets[i].min, buckets[i].max))
    && (forall i :: 0 <= i < |buckets| - 1 ==> buckets[i].max != [])
  }

  predicate ProperRange(min: Key, max: Key) { min == [] || max == [] || Less(min, max) }

  /** The largest index whose lower bound does not exceed the key. */
  function LastFrom(buckets: seq<Bucket>, k: Key, i: nat): (r: nat)
    requires i < |buckets|
    requires buckets[0].min == []
    ensures r <= i && (buckets[r].min == [] || AtMost(buckets[r].min, k))
    ensures forall j :: r < j <= i ==> !(buckets[j].min == [] || AtMost(buckets[j].min, k))
  {
    if buckets[i].min == [] || AtMost(buckets[i].min, k) then i else LastFrom(buckets, k, i - 1)
  }

  /** Contiguous buckets cover every key, even where some range is empty. */
  lemma EveryKeyHasBucket(buckets: seq<Bucket>, k: Key) returns (i: nat)
    requires Contiguous(buckets)
    ensures i < |buckets| && buckets[i].Holds(k)
  {
    i := LastFrom(buckets, k, |buckets| - 1);
    if i + 1 < |buckets| {
      assert Meet(buckets, i);
      LessTotal(buckets[i + 1].min, k);
    }
  }

  lemma {:induction false} BoundsAscend(buckets: seq<Bucket>, i: nat, j: nat)
    requires Contiguous(buckets) && Proper(buckets) && i < j < |buckets|
    ensures buckets[i].max != [] && buckets[j].min != [] && AtMost(buckets[i].max, buckets[j].min)
  {
    assert Meet(buckets, j - 1);
    if i < j - 1 {
      BoundsAscend(buckets, i, j - 1);
      assert ProperRange(buckets[j - 1].min, buckets[j - 1].max);
      if buckets[i].max != buckets[j - 1].min {
        LessTransitive(buckets[i].max, buckets[j - 1].min, buckets[j - 1].max);
      }
    }
  }

  /** With proper ranges, no key has two buckets. */
  lemma NoKeyHasTwoBuckets(buckets: seq<Bucket>, k: Key, i: nat, j: nat)
    requires Contiguous(buckets) && Proper(buckets) && i < j < |buckets| && buckets[i].Holds(k)
    ensures !buckets[j].Holds(k)
  {
    BoundsAscend(buckets, i, j);
    if buckets[j].Holds(k) {
      if buckets[i].max != buckets[j].min {
        LessTransitive(k, buckets[i].max, buckets[j].min);
      }
      if buckets[j].min != k {
        LessTransitive(k, buckets[j].min, k);
      }
      LessIrreflexive(k);
    }
  }

  function Ranges(buckets: seq<Bucket>): (r: seq<(Key, Key)>)
    ensures |r| == |buckets|
    ensures forall i :: 0 <= i < |r| ==> r[i] == (buckets[i].min, buckets[i].max)
  {
    if buckets == [] then [] else [(buckets[0].min, buckets[0].max)] + Ranges(buckets[1..])
  }

  // ---------------------------------------------------------------- splitting

  /** Events on either side of the split point, by their median keys. */
  function EventsBelow(events: map<nat, FlushEvent>, point: Key): map<nat, FlushEvent> {
    map id | id in events && Less(events[id].median, point) :: events[id]
  }

  function EventsFrom(events: map<nat, FlushEvent>, point: Key): map<nat, FlushEvent> {
    map id | id in events && !Less(events[id].median, point) :: events[id]
  }

  function LeftHalf(b: Bucket, point: Key, n: nat): Bucket {
    Bucket(b.min, point, EventsBelow(b.events, point), SumTo(EventsBelow(b.events, point), n))
  }

  function RightHalf(b: Bucket, point: Key, n: nat): Bucket {
    Bucket(point, b.max, EventsFrom(b.events, point), SumTo(EventsFrom(b.events, point), n))
  }

  /** The buckets with the one at `idx` split in two. */
  function SplitAt(buckets: seq<Bucket>, idx: nat, point: Key, n: nat): seq<Bucket>
    requires idx < |buckets|
  {
    buckets[..idx] + [LeftHalf(buckets[idx], point, n), RightHalf(buckets[idx], point, n)] + buckets[idx + 1..]
  }

  /** `l` and `r` divide the bucket and its events at a key: the left ones have their medians below it. */
  ghost predicate Divided(b: Bucket, l: Bucket, r: Bucket) {
    && l.min == b.min && l.max == r.min && r.max == b.max
    && (forall id :: id in b.events <==> id in l.events || id in r.events)
    && (forall id :: id in l.events ==> l.events[id] == b.events[id] && Less(l.events[id].median, l.max))
    && (forall id :: id in r.events ==> r.events[id] == b.events[id] && AtMost(r.min, r.events[id].median))
  }

  lemma HalvesDivide(b: Bucket, point: Key, n: nat)
    ensures Divided(b, LeftHalf(b, point, n), RightHalf(b, point, n))
  {
    hide SumTo;
    forall id | id in b.events
      ensures !Less(b.events[id].median, point) ==> AtMost(point, b.events[id].median)
    {
      LessTotal(b.events[id].median, point);
    }
  }

  lemma SplitIsContiguous(buckets: seq<Bucket>, idx: nat, point: Key, n: nat)
    requires Contiguous(buckets) && idx < |buckets| && point != []
    ensures Contiguous(SplitAt(buckets, idx, point, n))
  {
    hide EventsBelow, EventsFrom, SumTo;
    var z := SplitAt(buckets, idx, point, n);
    forall i | 0 <= i < |z| - 1
      ensures Meet(z, i)
    {
      if i < idx {
        assert Meet(buckets, i);
      } else if i > idx {
        assert Meet(buckets, i - 1);
      }
    }
  }

  /** All ranges stay non-empty exactly when the split point is strictly inside. */
  lemma SplitIsProper(buckets: seq<Bucket>, idx: nat, point: Key, n: nat)
    requires Proper(buckets) && idx < |buckets| && point != []
    ensures Proper(SplitAt(buckets, idx, point, n)) <==> Inside(point, buckets[idx].min, buckets[idx].max)
  {
    hide EventsBelow, EventsFrom, SumTo;
    var z := SplitAt(buckets, idx, point, n);
    assert z[idx] == LeftHalf(buckets[idx], point, n) && z[idx + 1] == RightHalf(buckets[idx], point, n);
    if Inside(point, buckets[idx].min, buckets[idx].max) {
      forall i | 0 <= i < |z|
        ensures ProperRange(z[i].min, z[i].max)
      {
        if i < idx {
          assert z[i] == buckets[i];
        } else if i > idx + 1 {
          assert z[i] == buckets[i - 1];
        }
      }
    }
  }

  lemma HalvesAddUp(b: Bucket, point: Key, n: nat, id: nat)
    ensures b.At(id) == LeftHalf(b, point, n).At(id).Plus(RightHalf(b, point, n).At(id))
  {
    hide SumTo, Stats.Plus;
    PlusZero(b.At(id));
    PlusZero(ZERO);
  }

  /** No flush gains or loses anything by a split. */
  lemma SplitConserves(buckets: seq<Bucket>, idx: nat, point: Key, n: nat, id: nat)
    requires idx < |buckets|
    ensures TotalAt(SplitAt(buckets, idx, point, n), id) == TotalAt(buckets, id)
  {
    hide LeftHalf, RightHalf, Bucket.At, Stats.Plus;
    var b := buckets[idx];
    var l, r := LeftHalf(b, point, n), RightHalf(b, point, n);
    HalvesAddUp(b, point, n, id);
    TotalOfOne(b, id);
    TotalOfTwo(l, r, id);
    assert buckets[..idx] + [b] + buckets[idx + 1..] == buckets;
    TotalReplace(buckets[..idx], [l, r], [b], buckets[idx + 1..], id);
  }

  lemma TotalOfOne(b: Bucket, id: nat)
    ensures TotalAt([b], id) == b.At(id)
  {
    hide Stats.Plus;
    PlusZero(b.At(id));
    assert [b][1..] == [];
  }

  lemma TotalOfTwo(l: Bucket, r: Bucket, id: nat)
    ensures TotalAt([l, r], id) == l.At(id).Plus(r.At(id))
  {
    hide Stats.Plus;
    TotalOfOne(r, id);
    assert [l, r][1..] == [r];
  }

  lemma HalvesAreKept(b: Bucket, point: Key, counter: nat)
    requires Kept(b, counter)
    ensures Kept(LeftHalf(b, point, counter + 1), counter) && Kept(RightHalf(b, point, counter + 1), counter)
  {
    hide SumTo;
  }

  // ---------------------------------------------------------------- merging

  function BothEvents(l: map<nat, FlushEvent>, r: map<nat, FlushEvent>): map<nat, FlushEvent> {
    map id | id in l.Keys + r.Keys ::
      if id in l && id in r then FlushEvent(l[id].stats.Plus(r[id].stats), l[id].median)
      else if id in l then l[id]
      else r[id]
  }

  function Both(l: Bucket, r: Bucket, n: nat): Bucket {
    Bucket(l.min, r.max, BothEvents(l.events, r.events), SumTo(BothEvents(l.events, r.events), n))
  }

  /** The buckets with those at `left` and after it merged. */
  function MergeAt(buckets: seq<Bucket>, left: nat, n: nat): seq<Bucket>
    requires left + 1 < |buckets|
  {
    buckets[..left] + [Both(buckets[left], buckets[left + 1], n)] + buckets[left + 2..]
  }

  /** Nothing but the totals of shared flushes changes; the left bucket's medians are the ones kept. */
  lemma MergedEvents(l: Bucket, r: Bucket, n: nat, id: nat)
    ensures id in l.events ==> id in Both(l, r, n).events && Both(l, r, n).events[id].median == l.events[id].median
    ensures id !in l.events && id in r.events ==> id in Both(l, r, n).events && Both(l, r, n).events[id] == r.events[id]
  {
    hide SumTo, Stats.Plus;
    var merged := BothEvents(l.events, r.events);
    assert id in merged <==> id in l.events || id in r.events;
  }

  lemma MergeIsContiguous(buckets: seq<Bucket>, left: nat, n: nat)
    requires Contiguous(buckets) && left + 1 < |buckets|
    ensures Contiguous(MergeAt(buckets, left, n))
  {
    hide BothEvents, SumTo;
    var z := MergeAt(buckets, left, n);
    forall i | 0 <= i < |z| - 1
      ensures Meet(z, i)
    {
      if i < left {
        assert Meet(buckets, i);
      } else {
        assert Meet(buckets, i + 1);
      }
    }
  }

  lemma MergeIsProper(buckets: seq<Bucket>, left: nat, n: nat)
    requires Contiguous(buckets) && Proper(buckets) && left + 1 < |buckets|
    ensures Proper(MergeAt(buckets, left, n))
  {
    hide BothEvents, SumTo;
    var z := MergeAt(buckets, left, n);
    var l, r := buckets[left], buckets[left + 1];
    assert Meet(buckets, left);
    assert ProperRange(l.min, l.max) && ProperRange(r.min, r.max);
    if l.min != [] && r.max != [] {
      LessTransitive(l.min, l.max, r.max);
    }
    forall i | 0 <= i < |z|
      ensures ProperRange(z[i].min, z[i].max)
    {
      if i < left {
        assert z[i] == buckets[i];
      } else if i > left {
        assert z[i] == buckets[i + 1];
      }
    }
  }

  lemma BothAddUp(l: Bucket, r: Bucket, n: nat, id: nat)
    ensures Both(l, r, n).At(id) == l.At(id).Plus(r.At(id))
  {
    hide SumTo, Stats.Plus;
    PlusZero(l.At(id));
    PlusZero(r.At(id));
  }

  /** No flush gains or loses anything by a merge. */
  lemma MergeConserves(buckets: seq<Bucket>, left: nat, n: nat, id: nat)
    requires left + 1 < |buckets|
    ensures TotalAt(MergeAt(buckets, left, n), id) == TotalAt(buckets, id)
  {
    hide Both, Bucket.At, Stats.Plus;
    var l, r := buckets[left], buckets[left + 1];
    var b := Both(l, r, n);
    BothAddUp(l, r, n, id);
    TotalOfOne(b, id);
    TotalOfTwo(l, r, id);
    assert buckets[..left] + [l, r] + buckets[left + 2..] == buckets;
    TotalReplace(buckets[..left], [b], [l, r], buckets[left + 2..], id);
  }

  lemma BothIsKept(l: Bucket, r: Bucket, counter: nat)
    requires Kept(l, counter) && Kept(r, counter)
    ensures Kept(Both(l, r, counter + 1), counter)
  {
    hide SumTo;
  }
}
