/**
 BucketManager (db/column_family.cc): buckets are split and merged while flushes that started on
 an older set of buckets are still reporting what they wrote.
 */
module BucketManager {
  import opened KeyOrder
  import opened Buckets
  import opened SplitPoint

  /** What one flush wrote for one bucket, with the range that the bucket had then. */
  datatype FlushResult = FlushResult(stats: Stats, median: Key, min: Key, max: Key)

  // ---------------------------------------------------------------- remapping to other buckets

  predicate Overlaps(b: Bucket, min: Key, max: Key) {
    && !(b.max != [] && min != [] && AtMost(b.max, min))
    && !(max != [] && b.min != [] && AtMost(max, b.min))
  }

  /** How many of the first `n` buckets overlap the range. */
  function OverlapCount(buckets: seq<Bucket>, min: Key, max: Key, n: nat): nat
    requires n <= |buckets|
  {
    if n == 0 then 0
    else OverlapCount(buckets, min, max, n - 1) + if Overlaps(buckets[n - 1], min, max) then 1 else 0
  }

  lemma {:induction false} OverlapCountAtLeast(buckets: seq<Bucket>, min: Key, max: Key, n: nat, i: nat)
    requires i < n <= |buckets| && Overlaps(buckets[i], min, max)
    ensures OverlapCount(buckets, min, max, n) >= 1
  {
    if i < n - 1 {
      OverlapCountAtLeast(buckets, min, max, n - 1, i);
    }
  }

  lemma InfiniteOverlaps(b: Bucket, min: Key, max: Key)
    requires (b.max == [] || min == []) && (b.min == [] || max == [])
    ensures Overlaps(b, min, max)
  {
  }

  lemma FiniteRangeHasBucket(buckets: seq<Bucket>, min: Key, max: Key)
    requires Contiguous(buckets) && min != [] && Less(min, max)
    ensures OverlapCount(buckets, min, max, |buckets|) >= 1
  {
    hide OverlapCount, Overlaps, Less, Contiguous;
    var i := EveryKeyHasBucket(buckets, min);
    BucketOfMinOverlaps(buckets[i], min, max);
    OverlapCountAtLeast(buckets, min, max, |buckets|, i);
  }

  lemma InfiniteRangeHasBucket(buckets: seq<Bucket>, min: Key, max: Key)
    requires Contiguous(buckets) && (min == [] || max == [])
    ensures OverlapCount(buckets, min, max, |buckets|) >= 1
  {
    hide OverlapCount, Overlaps, Meet;
    var i := if max == [] then |buckets| - 1 else 0;
    InfiniteOverlaps(buckets[i], min, max);
    OverlapCountAtLeast(buckets, min, max, |buckets|, i);
  }

  /** Two non-empty ranges overlap exactly when some key is in both. */
  lemma OverlapIsCommonKey(b: Bucket, min: Key, max: Key)
    requires ProperRange(b.min, b.max) && ProperRange(min, max)
    ensures Overlaps(b, min, max) <==> exists k :: b.Holds(k) && InRange(k, min, max)
  {
    if Overlaps(b, min, max) {
      var k := CommonKey(b, min, max);
    } else {
      forall k | b.Holds(k) && InRange(k, min, max)
        ensures false
      {
        if b.max != [] && min != [] && AtMost(b.max, min) {
          AtMostTransitive(b.max, min, k);
          Exclusive(k, b.max);
        } else {
          AtMostTransitive(max, b.min, k);
          Exclusive(k, max);
        }
      }
    }
  }

  /** The larger of the two lower ends. */
  lemma CommonKey(b: Bucket, min: Key, max: Key) returns (k: Key)
    requires ProperRange(b.min, b.max) && ProperRange(min, max) && Overlaps(b, min, max)
    ensures b.Holds(k) && InRange(k, min, max)
  {
    LessTotal(b.min, min);
    k := if b.min == [] || (min != [] && Less(b.min, min)) then min else b.min;
    LessTotal(k, b.max);
    LessTotal(k, max);
  }

  /** A non-empty range always overlaps some bucket. */
  lemma RangeHasBucket(buckets: seq<Bucket>, min: Key, max: Key)
    requires Contiguous(buckets) && ProperRange(min, max)
    ensures OverlapCount(buckets, min, max, |buckets|) >= 1
  {
    hide OverlapCount, Contiguous, Less;
    if min == [] || max == [] {
      InfiniteRangeHasBucket(buckets, min, max);
    } else {
      FiniteRangeHasBucket(buckets, min, max);
    }
  }

  lemma BucketOfMinOverlaps(b: Bucket, min: Key, max: Key)
    requires b.Holds(min) && min != [] && Less(min, max)
    ensures Overlaps(b, min, max)
  {
    Exclusive(min, b.max);
    Exclusive(min, max);
    if b.min != [] && AtMost(max, b.min) {
      AtMostTransitive(max, b.min, min);
    }
  }

  /** The part of a result that a bucket is credited with: an equal share, rounded down. */
  function Share(buckets: seq<Bucket>, r: FlushResult, i: nat): Stats
    requires i < |buckets|
  {
    var n := OverlapCount(buckets, r.min, r.max, |buckets|);
    if n > 0 && Overlaps(buckets[i], r.min, r.max) then r.stats.DividedBy(n) else ZERO
  }

  /** The part of the result's range that lies in the bucket, and its midpoint. */
  function SharedMin(b: Bucket, r: FlushResult): Key {
    if b.min != [] && (r.min == [] || Less(r.min, b.min)) then b.min else r.min
  }

  function SharedMax(b: Bucket, r: FlushResult): Key {
    if b.max != [] && (r.max == [] || Less(b.max, r.max)) then b.max else r.max
  }

  function ShareMedian(b: Bucket, r: FlushResult): Key { Midpoint(SharedMin(b, r), SharedMax(b, r)) }

  /** The shared range is the intersection of the two. */
  lemma SharedIsIntersection(b: Bucket, r: FlushResult, k: Key)
    ensures InRange(k, SharedMin(b, r), SharedMax(b, r)) <==> b.Holds(k) && InRange(k, r.min, r.max)
  {
    LessTotal(r.min, b.min);
    LessTotal(r.max, b.max);
    if AtMost(r.min, b.min) && AtMost(b.min, k) { AtMostTransitive(r.min, b.min, k); }
    if AtMost(b.min, r.min) && AtMost(r.min, k) { AtMostTransitive(b.min, r.min, k); }
    if Less(k, b.max) && Less(b.max, r.max) { LessTransitive(k, b.max, r.max); }
    if Less(k, r.max) && Less(r.max, b.max) { LessTransitive(k, r.max, b.max); }
  }

  /** A bucket is credited with a median of its own and of the result, unless the midpoint fails. */
  lemma ShareMedianIsShared(b: Bucket, r: FlushResult)
    requires ProperRange(b.min, b.max) && ProperRange(r.min, r.max) && Overlaps(b, r.min, r.max)
    requires !MidpointFails(SharedMin(b, r), SharedMax(b, r))
    ensures b.Holds(ShareMedian(b, r)) && InRange(ShareMedian(b, r), r.min, r.max)
  {
    hide SharedMin, SharedMax, MidpointFails, Overlaps, Midpoint;
    var k := CommonKey(b, r.min, r.max);
    SharedIsIntersection(b, r, k);
    var min, max := SharedMin(b, r), SharedMax(b, r);
    if AtMost(min, k) && Less(k, max) && min != k { LessTransitive(min, k, max); }
    MidpointIsInside(min, max);
    SharedIsIntersection(b, r, ShareMedian(b, r));
  }

  function Accumulated(buckets: seq<Bucket>, results: seq<FlushResult>, i: nat): Stats
    requires i < |buckets|
  {
    if results == [] then ZERO
    else Accumulated(buckets, results[..|results| - 1], i).Plus(Share(buckets, results[|results| - 1], i))
  }

  function ShareMedians(buckets: seq<Bucket>, results: seq<FlushResult>, i: nat): seq<Key>
    requires i < |buckets|
  {
    if results == [] then []
    else
      var last := results[|results| - 1];
      ShareMedians(buckets, results[..|results| - 1], i)
      + if Overlaps(buckets[i], last.min, last.max) then [ShareMedian(buckets[i], last)] else []
  }

  /** What a bucket records for a flush that reported on other buckets. */
  function Remapped(buckets: seq<Bucket>, results: seq<FlushResult>, i: nat): FlushEvent
    requires i < |buckets|
  {
    FlushEvent(Accumulated(buckets, results, i), Median(ShareMedians(buckets, results, i)))
  }

  method FindBucketsInRange(buckets: seq<Bucket>, min: Key, max: Key) returns (found: seq<nat>)
    ensures forall k :: 0 <= k < |found| ==> found[k] < |buckets| && Overlaps(buckets[found[k]], min, max)
    ensures forall k, l :: 0 <= k < l < |found| ==> found[k] < found[l]
    ensures forall i: nat :: i < |buckets| && Overlaps(buckets[i], min, max) ==> i in found
    ensures |found| == OverlapCount(buckets, min, max, |buckets|)
  {
    found := [];
    for i := 0 to |buckets|
      invariant forall k :: 0 <= k < |found| ==> found[k] < i && Overlaps(buckets[found[k]], min, max)
      invariant forall k, l :: 0 <= k < l < |found| ==> found[k] < found[l]
      invariant forall j: nat :: j < i && Overlaps(buckets[j], min, max) ==> j in found
      invariant |found| == OverlapCount(buckets, min, max, i)
    {
      if Overlaps(buckets[i], min, max) {
        found := found + [i];
      }
    }
  }

  method MedianOfShare(b: Bucket, r: FlushResult) returns (median: Key)
    ensures median == ShareMedian(b, r)
  {
    var min := r.min;
    if b.min != [] {
      if min == [] || Less(min, b.min) {
        min := b.min;
      }
    }
    var max := r.max;
    if b.max != [] {
      if max == [] || Less(b.max, max) {
        max := b.max;
      }
    }
    median := ComputeMidpointKey(min, max);
  }

  /** Credit one result to the buckets that it overlaps. */
  method Credit(buckets: seq<Bucket>, r: FlushResult, stats: seq<Stats>, medians: seq<seq<Key>>)
      returns (stats': seq<Stats>, medians': seq<seq<Key>>)
    requires |stats| == |medians| == |buckets|
    ensures |stats'| == |medians'| == |buckets|
    ensures forall i: nat :: i < |buckets| ==> stats'[i] == stats[i].Plus(Share(buckets, r, i))
    ensures forall i: nat :: i < |buckets| ==>
              medians'[i] ==
              medians[i] + if Overlaps(buckets[i], r.min, r.max) then [ShareMedian(buckets[i], r)] else []
  {
    hide Stats.Plus, Overlaps, Stats.DividedBy, ShareMedian;
    stats', medians' := stats, medians;
    var found := FindBucketsInRange(buckets, r.min, r.max);
    var n := |found|;
    for k := 0 to n
      invariant |stats'| == |medians'| == |buckets|
      invariant forall l :: k <= l < n ==>
                stats'[found[l]] == stats[found[l]] && medians'[found[l]] == medians[found[l]]
      invariant forall l :: 0 <= l < k ==> stats'[found[l]] == stats[found[l]].Plus(Share(buckets, r, found[l]))
      invariant forall l :: 0 <= l < k ==> medians'[found[l]] == medians[found[l]] + [ShareMedian(buckets[found[l]], r)]
      invariant forall i: nat :: i < |buckets| && !Overlaps(buckets[i], r.min, r.max) ==>
                stats'[i] == stats[i] && medians'[i] == medians[i]
    {
      var i := found[k];
      var median := MedianOfShare(buckets[i], r);
      stats' := stats'[i := stats'[i].Plus(r.stats.DividedBy(n))];
      medians' := medians'[i := medians'[i] + [median]];
    }
    forall i: nat | i < |buckets|
      ensures stats'[i] == stats[i].Plus(Share(buckets, r, i))
      ensures medians'[i] ==
      medians[i] + if Overlaps(buckets[i], r.min, r.max) then [ShareMedian(buckets[i], r)] else []
    {
      if Overlaps(buckets[i], r.min, r.max) {
        var k :| 0 <= k < n && found[k] == i;
      } else {
        PlusZero(stats[i]);
        assert medians[i] + [] == medians[i];
      }
    }
  }

  method Remap(buckets: seq<Bucket>, results: seq<FlushResult>) returns (events: seq<FlushEvent>)
    ensures |events| == |buckets|
    ensures forall i: nat :: i < |buckets| ==> events[i] == Remapped(buckets, results, i)
  {
    var stats := seq(|buckets|, _ => ZERO);
    var medians: seq<seq<Key>> := seq(|buckets|, _ => []);
    for j := 0 to |results|
      invariant |stats| == |medians| == |buckets|
      invariant forall i: nat :: i < |buckets| ==> stats[i] == Accumulated(buckets, results[..j], i)
      invariant forall i: nat :: i < |buckets| ==> medians[i] == ShareMedians(buckets, results[..j], i)
    {
      stats, medians := Credit(buckets, results[j], stats, medians);
      assert results[..j + 1][..j] == results[..j];
    }
    assert results[..|results|] == results;
    events := [];
    for i := 0 to |buckets|
      invariant |events| == i
      invariant forall k: nat :: k < i ==> events[k] == FlushEvent(stats[k], Median(medians[k]))
    {
      events := events + [FlushEvent(stats[i], Median(medians[i]))];
    }
  }

  // ---------------------------------------------------------------- what remapping loses

  function SumShares(buckets: seq<Bucket>, r: FlushResult, n: nat): Stats
    requires n <= |buckets|
  {
    if n == 0 then ZERO else SumShares(buckets, r, n - 1).Plus(Share(buckets, r, n - 1))
  }

  function SumAccumulated(buckets: seq<Bucket>, results: seq<FlushResult>, n: nat): Stats
    requires n <= |buckets|
  {
    if n == 0 then ZERO else SumAccumulated(buckets, results, n - 1).Plus(Accumulated(buckets, results, n - 1))
  }

  /** What all buckets together are credited with for one result: the largest multiple of their number. */
  function Spread(buckets: seq<Bucket>, r: FlushResult): Stats {
    var n := OverlapCount(buckets, r.min, r.max, |buckets|);
    if n == 0 then ZERO else r.stats.DividedBy(n).Times(n)
  }

  function SumSpread(buckets: seq<Bucket>, results: seq<FlushResult>): Stats {
    if results == [] then ZERO
    else SumSpread(buckets, results[..|results| - 1]).Plus(Spread(buckets, results[|results| - 1]))
  }

  lemma TimesStep(s: Stats, n: nat)
    ensures s.Times(n + 1) == s.Times(n).Plus(s) && s.Times(0) == ZERO
  {
  }

  lemma {:induction false} SharesAddUp(buckets: seq<Bucket>, r: FlushResult, n: nat)
    requires n <= |buckets|
    requires OverlapCount(buckets, r.min, r.max, |buckets|) > 0
    ensures SumShares(buckets, r, n) ==
            r.stats.DividedBy(OverlapCount(buckets, r.min, r.max, |buckets|))
              .Times(OverlapCount(buckets, r.min, r.max, n))
  {
    hide Stats.Plus, Stats.Times, Stats.DividedBy, Overlaps;
    var share := r.stats.DividedBy(OverlapCount(buckets, r.min, r.max, |buckets|));
    TimesStep(share, if n == 0 then 0 else OverlapCount(buckets, r.min, r.max, n - 1));
    if n > 0 {
      SharesAddUp(buckets, r, n - 1);
      PlusZero(SumShares(buckets, r, n - 1));
    }
  }

  lemma {:induction false} NoShares(buckets: seq<Bucket>, r: FlushResult, n: nat)
    requires n <= |buckets| && OverlapCount(buckets, r.min, r.max, |buckets|) == 0
    ensures SumShares(buckets, r, n) == ZERO
  {
    hide Stats.Plus, Overlaps;
    if n > 0 {
      NoShares(buckets, r, n - 1);
      PlusZero(ZERO);
    }
  }

  lemma SharesAreSpread(buckets: seq<Bucket>, r: FlushResult)
    ensures SumShares(buckets, r, |buckets|) == Spread(buckets, r)
  {
    hide SumShares, OverlapCount, Stats.Times, Stats.DividedBy;
    if OverlapCount(buckets, r.min, r.max, |buckets|) == 0 {
      NoShares(buckets, r, |buckets|);
    } else {
      SharesAddUp(buckets, r, |buckets|);
    }
  }

  lemma {:induction false} SumAccumulatedStep(buckets: seq<Bucket>, results: seq<FlushResult>, n: nat)
    requires n <= |buckets| && results != []
    ensures SumAccumulated(buckets, results, n) ==
            SumAccumulated(buckets, results[..|results| - 1], n).Plus(SumShares(buckets, results[|results| - 1], n))
  {
    hide Stats.Plus, Share;
    if n == 0 {
      PlusZero(ZERO);
    } else {
      SumAccumulatedStep(buckets, results, n - 1);
      var before, last := results[..|results| - 1], results[|results| - 1];
      PlusRegroups(SumAccumulated(buckets, before, n - 1), SumShares(buckets, last, n - 1),
                   Accumulated(buckets, before, n - 1), Share(buckets, last, n - 1));
    }
  }

  lemma {:induction false} NoResults(buckets: seq<Bucket>, results: seq<FlushResult>, n: nat)
    requires n <= |buckets| && results == []
    ensures SumAccumulated(buckets, results, n) == ZERO
  {
    hide Stats.Plus;
    if n > 0 {
      NoResults(buckets, results, n - 1);
      PlusZero(ZERO);
    }
  }

  /** All buckets together are credited with the spread of every result, however the buckets changed. */
  lemma {:induction false} RemapTotal(buckets: seq<Bucket>, results: seq<FlushResult>)
    ensures SumAccumulated(buckets, results, |buckets|) == SumSpread(buckets, results)
    decreases |results|
  {
    hide Stats.Plus, SumAccumulated, Spread, SumShares;
    if results == [] {
      NoResults(buckets, results, |buckets|);
    } else {
      RemapTotal(buckets, results[..|results| - 1]);
      SumAccumulatedStep(buckets, results, |buckets|);
      SharesAreSpread(buckets, results[|results| - 1]);
    }
  }

  /** A non-empty range loses less than one unit per bucket that it is spread over. */
  lemma SpreadLosesLittle(buckets: seq<Bucket>, r: FlushResult)
    requires Contiguous(buckets) && ProperRange(r.min, r.max)
    ensures var n := OverlapCount(buckets, r.min, r.max, |buckets|);
            var s := Spread(buckets, r);
            && n >= 1 && r.stats.Covers(s)
            && r.stats.files - s.files < n && r.stats.entries - s.entries < n && r.stats.bytes - s.bytes < n
  {
    hide Contiguous, OverlapCount;
    RangeHasBucket(buckets, r.min, r.max);
    var n := OverlapCount(buckets, r.min, r.max, |buckets|);
    DivisionLoses(r.stats.files, n);
    DivisionLoses(r.stats.entries, n);
    DivisionLoses(r.stats.bytes, n);
  }

  /** What the results of a flush add up to. */
  function SumStats(results: seq<FlushResult>): Stats {
    if results == [] then ZERO else SumStats(results[..|results| - 1]).Plus(results[|results| - 1].stats)
  }

  /** How many shares the results are divided into. */
  function ShareCount(buckets: seq<Bucket>, results: seq<FlushResult>): nat {
    if results == [] then 0
    else
      var last := results[|results| - 1];
      ShareCount(buckets, results[..|results| - 1]) + OverlapCount(buckets, last.min, last.max, |buckets|)
  }

  ghost predicate ProperResults(results: seq<FlushResult>) {
    forall j :: 0 <= j < |results| ==> ProperRange(results[j].min, results[j].max)
  }

  /** What of `total` is missing in `part` is at most `n`, for each of the three counts. */
  predicate Misses(total: Stats, part: Stats, n: int) {
    && total.Covers(part)
    && total.files - part.files <= n && total.entries - part.entries <= n && total.bytes - part.bytes <= n
  }

  /** A remapped flush gains nothing, and loses less than one unit per share: one less per result. */
  lemma {:induction false} FlushLosesLittle(buckets: seq<Bucket>, results: seq<FlushResult>)
    requires Contiguous(buckets) && ProperResults(results)
    ensures Misses(SumStats(results), SumSpread(buckets, results), ShareCount(buckets, results) - |results|)
    decreases |results|
  {
    hide Contiguous, ProperRange, OverlapCount, Spread;
    if results != [] {
      FlushLosesLittle(buckets, results[..|results| - 1]);
      SpreadLosesLittle(buckets, results[|results| - 1]);
    }
  }

  lemma DivisionLoses(x: nat, n: nat)
    requires n > 0
    ensures 0 <= x - x / n * n < n
  {
  }

  /** The total over buckets that each hold the remapped event. */
  lemma {:induction false} TotalOfRemapped(buckets: seq<Bucket>, after: seq<Bucket>, results: seq<FlushResult>,
                          id: nat, n: nat)
    requires n <= |buckets| == |after|
    requires forall i: nat :: i < |buckets| ==> after[i].At(id) == Accumulated(buckets, results, i)
    ensures TotalAt(after[..n], id) == SumAccumulated(buckets, results, n)
  {
    hide Stats.Plus, Bucket.At, Accumulated;
    if n > 0 {
      TotalOfRemapped(buckets, after, results, id, n - 1);
      assert after[..n] == after[..n - 1] + [after[n - 1]];
      TotalConcat(after[..n - 1], [after[n - 1]], id);
      TotalOfOne(after[n - 1], id);
    }
  }

  /** The total over buckets that each hold the event of their own result. */
  lemma {:induction false} TotalOfOwn(after: seq<Bucket>, results: seq<FlushResult>, id: nat, n: nat)
    requires n <= |results| == |after|
    requires forall i: nat :: i < |after| ==> after[i].At(id) == results[i].stats
    ensures TotalAt(after[..n], id) == SumStats(results[..n])
  {
    hide Stats.Plus, Bucket.At;
    if n > 0 {
      TotalOfOwn(after, results, id, n - 1);
      assert after[..n] == after[..n - 1] + [after[n - 1]];
      assert results[..n][..n - 1] == results[..n - 1];
      TotalConcat(after[..n - 1], [after[n - 1]], id);
      TotalOfOne(after[n - 1], id);
    }
  }

  // ---------------------------------------------------------------- loops over the events of a bucket

  lemma {:induction false} SumOfNone(events: map<nat, FlushEvent>, n: nat)
    requires events == map[]
    ensures SumTo(events, n) == ZERO
  {
    hide Stats.Plus;
    if n > 0 {
      SumOfNone(events, n - 1);
      PlusZero(ZERO);
    }
  }

  method RecalculateWindowStats(b: Bucket, ghost n: nat) returns (r: Bucket)
    requires forall id :: id in b.events ==> id < n
    ensures r == b.(window := SumTo(b.events, n))
  {
    hide Stats.Plus, SumTo;
    var window := ZERO;
    var left := b.events;
    PlusZero(SumTo(left, n));
    while left != map[]
      invariant forall id :: id in left ==> id in b.events && left[id] == b.events[id]
      invariant window.Plus(SumTo(left, n)) == SumTo(b.events, n)
      decreases |left|
    {
      var id :| id in left;
      SumWithout(left, id, n);
      PlusRotates(window, left[id].stats, SumTo(left - {id}, n));
      window := window.Plus(left[id].stats);
      left := left - {id};
    }
    SumOfNone(left, n);
    PlusZero(window);
    r := b.(window := window);
  }

  lemma PlusRotates(a: Stats, b: Stats, c: Stats)
    ensures a.Plus(c.Plus(b)) == a.Plus(b).Plus(c)
  {
  }

  /** Move the events whose median is not below the point. */
  method MoveEvents(events: map<nat, FlushEvent>, point: Key)
      returns (below: map<nat, FlushEvent>, from: map<nat, FlushEvent>)
    ensures below == EventsBelow(events, point) && from == EventsFrom(events, point)
  {
    hide Less;
    below, from := events, map[];
    var left := events.Keys;
    while left != {}
      invariant left <= events.Keys
      invariant below == map id | id in events && (id in left || Less(events[id].median, point)) :: events[id]
      invariant from == map id | id in events && id !in left && !Less(events[id].median, point) :: events[id]
      decreases |left|
    {
      var id :| id in left;
      left := left - {id};
      if !Less(events[id].median, point) {
        from := from[id := events[id]];
        below := below - {id};
      }
    }
  }

  /** Add the events of the right bucket to those of the left. */
  method CombineEvents(l: map<nat, FlushEvent>, r: map<nat, FlushEvent>) returns (both: map<nat, FlushEvent>)
    ensures both == BothEvents(l, r)
  {
    hide Stats.Plus;
    both := l;
    var left := r.Keys;
    while left != {}
      invariant left <= r.Keys
      invariant both.Keys == l.Keys + (r.Keys - left)
      invariant forall id :: id in both ==> both[id] == if id in left then l[id] else BothEvents(l, r)[id]
      decreases |left|
    {
      var id :| id in left;
      left := left - {id};
      if id in both {
        both := both[id := FlushEvent(both[id].stats.Plus(r[id].stats), both[id].median)];
      } else {
        both := both[id := r[id]];
      }
    }
  }

  // ---------------------------------------------------------------- the manager

  /** The ranges that a flush works with, and the number of the structure that they belong to. */
  datatype Snapshot = Snapshot(epoch: nat, ranges: seq<(Key, Key)>)

  ghost predicate AllKept(buckets: seq<Bucket>, counter: nat) {
    forall i :: 0 <= i < |buckets| ==> Kept(buckets[i], counter)
  }

  lemma SplitIsKept(buckets: seq<Bucket>, idx: nat, point: Key, counter: nat)
    requires AllKept(buckets, counter) && idx < |buckets|
    ensures AllKept(SplitAt(buckets, idx, point, counter + 1), counter)
  {
    hide Kept, LeftHalf, RightHalf;
    HalvesAreKept(buckets[idx], point, counter);
  }

  lemma MergeIsKept(buckets: seq<Bucket>, left: nat, counter: nat)
    requires AllKept(buckets, counter) && left + 1 < |buckets|
    ensures AllKept(MergeAt(buckets, left, counter + 1), counter)
  {
    hide Kept, Both;
    BothIsKept(buckets[left], buckets[left + 1], counter);
  }

  /** Split points that cut the key space into non-empty ranges. */
  predicate Ascending(points: seq<Key>) {
    forall i :: 0 <= i < |points| - 1 ==> Less(points[i], points[i + 1])
  }

  /** The buckets between the split points. */
  function Between(points: seq<Key>, i: nat): Bucket
    requires i <= |points|
  {
    Bucket(if i == 0 then [] else points[i - 1], if i == |points| then [] else points[i], map[], ZERO)
  }

  lemma FirstBucketsAreGood(points: seq<Key>, buckets: seq<Bucket>)
    requires |buckets| == |points| + 1 && forall i :: 0 <= i < |buckets| ==> buckets[i] == Between(points, i)
    ensures Contiguous(buckets) && AllKept(buckets, 0)
    ensures Proper(buckets) <==> Ascending(points) && (points != [] ==> points[0] != [])
  {
    hide Less, SumTo;
    forall i | 0 <= i < |buckets| - 1
      ensures Meet(buckets, i)
    {
    }
    SumOfNone(map[], 1);
    FirstBucketsAreProper(points, buckets);
  }

  /** Ranges are non-empty exactly when the points ascend from a key that is not empty. */
  lemma FirstBucketsAreProper(points: seq<Key>, buckets: seq<Bucket>)
    requires |buckets| == |points| + 1 && forall i :: 0 <= i < |buckets| ==> buckets[i] == Between(points, i)
    ensures Proper(buckets) <==> Ascending(points) && (points != [] ==> points[0] != [])
  {
    if Proper(buckets) {
      forall i | 0 <= i < |points| - 1
        ensures Less(points[i], points[i + 1])
      {
        assert buckets[i].max == points[i] && buckets[i + 1].max == points[i + 1];
        assert ProperRange(buckets[i + 1].min, buckets[i + 1].max);
      }
      assert points != [] ==> buckets[0].max == points[0];
    } else if Ascending(points) && (points != [] ==> points[0] != []) {
      forall i | 0 <= i < |buckets|
        ensures ProperRange(buckets[i].min, buckets[i].max) && (i < |buckets| - 1 ==> buckets[i].max != [])
      {
        if 0 < i < |points| {
          assert Less(points[i - 1], points[i - 1 + 1]);
        }
      }
      assert false;
    }
  }

  /** What may happen to the buckets while a flush is under way. */
  datatype Op =
    | Initialize(points: seq<Key>)
    | Split(idx: int)
    | Merge(idx: int)
    | Flush(snapshotEpoch: nat, results: seq<FlushResult>)

  class Manager {
    var buckets: seq<Bucket>
    var initialized: bool
    var epoch: nat
    var counter: nat

    ghost predicate Valid()
      reads this
    {
      if initialized
      then Contiguous(buckets) && AllKept(buckets, counter)
      else buckets == [] && epoch == 0 && counter == 0
    }

    constructor ()
      ensures Valid() && !initialized
    {
      buckets, initialized, epoch, counter := [], false, 0, 0;
    }

    /** Set up the buckets between the split points, unless that was done before. */
    method InitializeFromFirstFlush(points: seq<Key>)
      requires Valid()
      modifies this
      ensures Valid() && initialized && epoch == old(epoch) && counter == old(counter)
      ensures old(initialized) ==> buckets == old(buckets)
      ensures !old(initialized) ==>
                && |buckets| == |points| + 1
                && (forall i :: 0 <= i < |buckets| ==> buckets[i] == Between(points, i))
                && (Proper(buckets) <==> Ascending(points) && (points != [] ==> points[0] != []))
    {
      hide Contiguous, AllKept, Proper, Ascending;
      if initialized {
        return;
      }
      buckets := [];
      for i := 0 to |points| + 1
        invariant !initialized && epoch == 0 && counter == 0
        invariant |buckets| == i && forall k :: 0 <= k < i ==> buckets[k] == Between(points, k)
      {
        buckets := buckets + [Between(points, i)];
      }
      FirstBucketsAreGood(points, buckets);
      initialized := true;
    }

    /** The first bucket that holds the key; the fallback is for a manager that is not set up. */
    method FindBucket(k: Key) returns (r: int)
      requires Valid()
      ensures initialized ==> 0 <= r < |buckets| && buckets[r].Holds(k)
      ensures initialized && Proper(buckets) ==> forall i: nat :: i < |buckets| && buckets[i].Holds(k) ==> i == r
      ensures !initialized ==> r == -1
    {
      for i := 0 to |buckets|
        invariant forall j :: 0 <= j < i ==> !buckets[j].Holds(k)
      {
        if (buckets[i].min == [] || AtMost(buckets[i].min, k)) && (buckets[i].max == [] || Less(k, buckets[i].max)) {
          if initialized && Proper(buckets) {
            forall j: nat | i < j < |buckets|
              ensures !buckets[j].Holds(k)
            {
              NoKeyHasTwoBuckets(buckets, k, i, j);
            }
          }
          return i;
        }
      }
      if initialized {
        ghost var i := EveryKeyHasBucket(buckets, k);
      }
      r := |buckets| - 1;
    }

    method GetSnapshot() returns (snap: Snapshot)
      requires Valid()
      ensures snap == Snapshot(epoch, Ranges(buckets))
    {
      snap := Snapshot(epoch, Ranges(buckets));
    }

    /** Split one bucket in two. Every flush keeps its totals, and only the point chosen can spoil the order. */
    method SplitBucket(idx: int)
      requires Valid()
      modifies this
      ensures Valid() && initialized == old(initialized) && counter == old(counter)
      ensures !(0 <= idx < |old(buckets)|) ==> buckets == old(buckets) && epoch == old(epoch)
      ensures 0 <= idx < |old(buckets)| ==>
                && epoch == old(epoch) + 1
                && buckets == SplitAt(old(buckets), idx, Chosen(old(buckets)[idx], counter + 1), counter + 1)
      ensures 0 <= idx < |old(buckets)| ==>
                && |buckets| == |old(buckets)| + 1 && Divided(old(buckets)[idx], buckets[idx], buckets[idx + 1])
                && buckets[..idx] == old(buckets)[..idx] && buckets[idx + 2..] == old(buckets)[idx + 1..]
      ensures forall id: nat :: TotalAt(buckets, id) == TotalAt(old(buckets), id)
      ensures 0 <= idx < |old(buckets)| && Proper(old(buckets)) ==>
                (Proper(buckets) <==>
                 var b := old(buckets)[idx];
                 Inside(Candidate(b, counter + 1), b.min, b.max) || !MidpointFails(b.min, b.max))
    {
      hide Contiguous, AllKept, Proper, TotalAt, LeftHalf, RightHalf, Candidate, Chosen, Inside, MidpointFails, SumTo;
      hide Divided;
      if idx < 0 || idx >= |buckets| {
        return;
      }
      var b := buckets[idx];
      var point := ChooseSplitPoint(b, counter + 1);
      Splitting(buckets, idx, counter);
      HalvesDivide(b, point, counter + 1);
      var left, right := Halve(b, point, counter);
      buckets := buckets[..idx] + [left, right] + buckets[idx + 1..];
      epoch := epoch + 1;
    }

    /** The two buckets that a split makes. */
    method Halve(b: Bucket, point: Key, counter: nat) returns (left: Bucket, right: Bucket)
      requires Kept(b, counter)
      ensures left == LeftHalf(b, point, counter + 1) && right == RightHalf(b, point, counter + 1)
    {
      hide EventsBelow, EventsFrom, SumTo;
      var below, from := MoveEvents(b.events, point);
      HalvesAreKept(b, point, counter);
      left := RecalculateWindowStats(Bucket(b.min, point, below, ZERO), counter + 1);
      right := RecalculateWindowStats(Bucket(point, b.max, from, ZERO), counter + 1);
    }

    /** Merge a bucket with the neighbour that has less data. Nothing is lost, and the order is kept. */
    method MergeWithAdjacentBucket(idx: int)
      requires Valid()
      modifies this
      ensures Valid() && initialized == old(initialized) && counter == old(counter)
      ensures !(0 <= idx < |old(buckets)|) || |old(buckets)| <= 1 ==> buckets == old(buckets) && epoch == old(epoch)
      ensures 0 <= idx < |old(buckets)| && |old(buckets)| > 1 ==>
                epoch == old(epoch) + 1 && buckets == MergeAt(old(buckets), LeftOfMerge(old(buckets), idx), counter + 1)
      ensures 0 < idx < |old(buckets)| - 1 ==>
                var before, after := old(buckets)[idx - 1].window.bytes, old(buckets)[idx + 1].window.bytes;
                if before < after then |buckets| == |old(buckets)| - 1 && buckets[idx..] == old(buckets)[idx + 1..]
                else |buckets| == |old(buckets)| - 1 && buckets[..idx] == old(buckets)[..idx]
      ensures forall id: nat :: TotalAt(buckets, id) == TotalAt(old(buckets), id)
      ensures Proper(old(buckets)) ==> Proper(buckets)
    {
      hide Contiguous, AllKept, Proper, TotalAt, Both, SumTo;
      if idx < 0 || idx >= |buckets| || |buckets| <= 1 {
        return;
      }
      var target;
      if 0 < idx < |buckets| - 1 {
        if buckets[idx - 1].window.bytes < buckets[idx + 1].window.bytes {
          target := idx - 1;
        } else {
          target := idx + 1;
        }
      } else if idx > 0 {
        target := idx - 1;
      } else {
        target := idx + 1;
      }
      var left := if idx < target then idx else target;
      assert left == LeftOfMerge(buckets, idx);
      Merging(buckets, left, counter);
      var both := Combine(buckets[left], buckets[left + 1], counter);
      buckets := buckets[..left] + [both] + buckets[left + 2..];
      epoch := epoch + 1;
    }

    method Combine(l: Bucket, r: Bucket, counter: nat) returns (both: Bucket)
      requires Kept(l, counter) && Kept(r, counter)
      ensures both == Both(l, r, counter + 1)
    {
      hide SumTo, BothEvents;
      var events := CombineEvents(l.events, r.events);
      BothIsKept(l, r, counter);
      both := RecalculateWindowStats(Bucket(l.min, r.max, events, ZERO), counter + 1);
    }

    /** What the bucket at `i` records for the results: its own one, or its shares of all of them. */
    ghost function EventFor(fast: bool, results: seq<FlushResult>, i: nat): FlushEvent
      requires i < |buckets| && (fast ==> |results| == |buckets|)
      reads this
    {
      if fast then FlushEvent(results[i].stats, results[i].median) else Remapped(buckets, results, i)
    }

    /**
     Record a flush. If the structure is still the one that the flush worked with, each result
     goes to its own bucket; otherwise it is spread over the buckets that its range overlaps.
     Either way the totals of the other flushes in the window stay.
     */
    method OnFlushCompleted(snapshotEpoch: nat, results: seq<FlushResult>)
      requires Valid()
      modifies this
      ensures Valid() && initialized == old(initialized) && epoch == old(epoch)
      ensures !initialized ==> counter == old(counter)
      ensures initialized ==> counter == old(counter) + 1
      ensures |buckets| == |old(buckets)| && Ranges(buckets) == Ranges(old(buckets))
      ensures forall i: nat :: i < |buckets| ==>
                buckets[i] == Recorded(old(buckets)[i], counter,
                                       old(EventFor(snapshotEpoch == epoch && |results| == |buckets|, results, i)))
      ensures initialized ==>
                TotalAt(buckets, counter) ==
                if snapshotEpoch == epoch && |results| == |buckets|
                then SumStats(results) else SumSpread(old(buckets), results)
      ensures forall id: nat :: id != counter && id + WINDOW_SIZE != counter ==>
                TotalAt(buckets, id) == TotalAt(old(buckets), id)
    {
      hide Contiguous, AllKept, Recorded, Remapped, TotalAt, SumStats, SumSpread;
      if !initialized {
        return;
      }
      var id := counter + 1;
      var events: seq<FlushEvent>;
      if snapshotEpoch == epoch && |results| == |buckets| {
        events := OwnEvents(results);
      } else {
        events := Remap(buckets, results);
      }
      RecordAll(events, id);
      RecordingKeeps(old(buckets), buckets, events, counter);
      OtherTotals(old(buckets), buckets, events, counter);
      if snapshotEpoch == epoch && |results| == |buckets| {
        OwnFlushTotal(old(buckets), buckets, results, counter);
      } else {
        RemappedFlushTotal(old(buckets), buckets, results, counter);
      }
      counter := id;
    }

    method OwnEvents(results: seq<FlushResult>) returns (events: seq<FlushEvent>)
      ensures |events| == |results|
      ensures forall i :: 0 <= i < |results| ==> events[i] == FlushEvent(results[i].stats, results[i].median)
    {
      events := [];
      for i := 0 to |results|
        invariant |events| == i
        invariant forall k :: 0 <= k < i ==> events[k] == FlushEvent(results[k].stats, results[k].median)
      {
        events := events + [FlushEvent(results[i].stats, results[i].median)];
      }
    }

    /** Add one event to each bucket, and drop the events that leave the window. */
    method RecordAll(events: seq<FlushEvent>, id: nat)
      requires |events| == |buckets|
      modifies `buckets
      ensures |buckets| == |old(buckets)|
      ensures forall i :: 0 <= i < |buckets| ==> buckets[i] == Recorded(old(buckets)[i], id, events[i])
    {
      hide Removed, Added;
      for i := 0 to |buckets|
        invariant |buckets| == |old(buckets)|
        invariant forall k :: 0 <= k < i ==> buckets[k] == Added(old(buckets)[k], id, events[k])
        invariant forall k :: i <= k < |buckets| ==> buckets[k] == old(buckets)[k]
      {
        buckets := buckets[i := Added(buckets[i], id, events[i])];
      }
      if id > WINDOW_SIZE {
        for i := 0 to |buckets|
          invariant |buckets| == |old(buckets)|
          invariant forall k :: 0 <= k < i ==> buckets[k] == Recorded(old(buckets)[k], id, events[k])
          invariant forall k :: i <= k < |buckets| ==> buckets[k] == Added(old(buckets)[k], id, events[k])
        {
          buckets := buckets[i := Removed(buckets[i], id - WINDOW_SIZE)];
        }
      }
    }

    // -------------------------------------------------------------- whole runs

    method Perform(op: Op)
      requires Valid()
      modifies this
      ensures Valid() && old(epoch) <= epoch && (old(initialized) ==> initialized)
      ensures old(initialized) && epoch == old(epoch) ==> Ranges(buckets) == Ranges(old(buckets))
    {
      hide Contiguous, AllKept, Proper, TotalAt, SplitAt, MergeAt, Chosen, Recorded, Ranges;
      match op
      case Initialize(points) => InitializeFromFirstFlush(points);
      case Split(idx) => SplitBucket(idx);
      case Merge(idx) => MergeWithAdjacentBucket(idx);
      case Flush(snapshotEpoch, results) => OnFlushCompleted(snapshotEpoch, results);
    }

    /**
     Any sequence of operations. If the epoch is the same afterwards, the ranges are the same if
     and only if their number is, which is the test that `OnFlushCompleted` makes, and that fails
     only for a snapshot from before the buckets were set up.
     */
    method Run(ops: seq<Op>)
      requires Valid()
      modifies this
      ensures Valid() && old(epoch) <= epoch && (old(initialized) ==> initialized)
      ensures initialized && epoch == old(epoch) ==>
                && (Ranges(buckets) == Ranges(old(buckets)) <==> |buckets| == |old(buckets)|)
                && (Ranges(buckets) == Ranges(old(buckets)) <==> old(initialized))
    {
      hide AllKept, Ranges, Meet;
      for i := 0 to |ops|
        invariant Valid() && old(epoch) <= epoch && (old(initialized) ==> initialized)
        invariant old(initialized) && epoch == old(epoch) ==> Ranges(buckets) == Ranges(old(buckets))
      {
        Perform(ops[i]);
      }
    }

    /**
     A flush works with a snapshot of the buckets while they change in any way, and then reports.
     On the fast path every result is recorded by the bucket whose range it was written for, and
     the fast path is taken whenever the structure has not changed. On the slow path almost
     nothing is lost.
     */
    method FlushAcross(contents: seq<(Stats, Key)>, ops: seq<Op>)
        returns (results: seq<FlushResult>, ghost before: seq<Bucket>)
      requires Valid()
      modifies this
      ensures Valid() && |results| == |old(buckets)| && |before| == |buckets|
      ensures forall i :: 0 <= i < |results| ==> results[i] == ResultFor(Ranges(old(buckets)), contents, i)
      ensures initialized && epoch == old(epoch) && |results| == |buckets| ==>
                && TotalAt(buckets, counter) == SumStats(results)
                && forall i :: 0 <= i < |buckets| ==>
                     && buckets[i].min == results[i].min && buckets[i].max == results[i].max
                     && buckets[i] == Recorded(before[i], counter, FlushEvent(results[i].stats, results[i].median))
      ensures old(initialized) && epoch == old(epoch) ==> |results| == |buckets|
      ensures initialized && !(epoch == old(epoch) && |results| == |buckets|) && Proper(old(buckets)) ==>
                Misses(SumStats(results), TotalAt(buckets, counter), ShareCount(before, results) - |results|)
    {
      hide Contiguous, AllKept, Proper, TotalAt, Recorded, Ranges, SumStats, SumSpread, ShareCount, Misses, ResultFor;
      hide ProperResults, Remapped;
      ghost var was := buckets;
      var snap := GetSnapshot();
      results := Report(snap.ranges, contents);
      Run(ops);
      before := buckets;
      OnFlushCompleted(snap.epoch, results);
      ResultsAreFor(was, contents, results);
      if initialized && Ranges(buckets) == Ranges(was) {
        SameRanges(buckets, was);
      }
      if initialized && Proper(was) {
        FlushLosesLittle(before, results);
      }
    }

    /** One result for each range of the snapshot. */
    method Report(ranges: seq<(Key, Key)>, contents: seq<(Stats, Key)>) returns (results: seq<FlushResult>)
      ensures |results| == |ranges| && forall i :: 0 <= i < |results| ==> results[i] == ResultFor(ranges, contents, i)
    {
      results := [];
      for i := 0 to |ranges|
        invariant |results| == i && forall k :: 0 <= k < i ==> results[k] == ResultFor(ranges, contents, k)
      {
        results := results + [ResultFor(ranges, contents, i)];
      }
    }
  }

  lemma ResultsAreFor(buckets: seq<Bucket>, contents: seq<(Stats, Key)>, results: seq<FlushResult>)
    requires |results| == |buckets|
    requires forall i :: 0 <= i < |results| ==> results[i] == ResultFor(Ranges(buckets), contents, i)
    ensures forall i :: 0 <= i < |results| ==> results[i].min == buckets[i].min && results[i].max == buckets[i].max
    ensures Proper(buckets) ==> ProperResults(results)
  {
    hide Less;
  }

  lemma SameRanges(a: seq<Bucket>, b: seq<Bucket>)
    requires Ranges(a) == Ranges(b)
    ensures |a| == |b| && forall i :: 0 <= i < |a| ==> a[i].min == b[i].min && a[i].max == b[i].max
    ensures Proper(a) <==> Proper(b)
  {
    hide Less;
    assert |Ranges(a)| == |Ranges(b)|;
    forall i | 0 <= i < |a|
      ensures a[i].min == b[i].min && a[i].max == b[i].max
    {
      assert Ranges(a)[i] == Ranges(b)[i];
    }
  }

  /** The result for one range of a snapshot: what was written for it, or nothing. */
  function ResultFor(ranges: seq<(Key, Key)>, contents: seq<(Stats, Key)>, i: nat): FlushResult
    requires i < |ranges|
  {
    var (stats, median) := if i < |contents| then contents[i] else (ZERO, []);
    FlushResult(stats, median, ranges[i].0, ranges[i].1)
  }

  lemma RecordingKeeps(before: seq<Bucket>, after: seq<Bucket>, events: seq<FlushEvent>, counter: nat)
    requires Contiguous(before) && AllKept(before, counter) && |events| == |before| == |after|
    requires forall i :: 0 <= i < |after| ==> after[i] == Recorded(before[i], counter + 1, events[i])
    ensures Contiguous(after) && AllKept(after, counter + 1) && Ranges(after) == Ranges(before)
  {
    RecordingKeepsRanges(before, after, events, counter);
    hide Kept, Ranges, SumTo, Contiguous;
    forall i | 0 <= i < |after|
      ensures Kept(after[i], counter + 1)
    {
      RecordedIsKept(before[i], counter, events[i]);
    }
  }

  lemma RecordingKeepsRanges(before: seq<Bucket>, after: seq<Bucket>, events: seq<FlushEvent>, counter: nat)
    requires Contiguous(before) && |events| == |before| == |after|
    requires forall i :: 0 <= i < |after| ==> after[i] == Recorded(before[i], counter + 1, events[i])
    ensures Contiguous(after) && Ranges(after) == Ranges(before)
  {
    forall i | 0 <= i < |after| - 1
      ensures Meet(after, i)
    {
      assert Meet(before, i);
    }
  }

  /** A flush changes the record of its own number and of the one that leaves the window, and of no other. */
  lemma RecordedAt(b: Bucket, counter: nat, e: FlushEvent, id: nat)
    requires Kept(b, counter)
    ensures Recorded(b, counter + 1, e).At(id) ==
            if id == counter + 1 then e.stats
            else if id + WINDOW_SIZE == counter + 1 then ZERO
            else b.At(id)
  {
    hide SumTo;
    RecordedIsKept(b, counter, e);
  }

  /** The totals of flushes that neither come nor go are kept. */
  lemma OtherTotals(before: seq<Bucket>, after: seq<Bucket>, events: seq<FlushEvent>, counter: nat)
    requires AllKept(before, counter) && |events| == |before| == |after|
    requires forall i :: 0 <= i < |after| ==> after[i] == Recorded(before[i], counter + 1, events[i])
    ensures forall id: nat :: id != counter + 1 && id + WINDOW_SIZE != counter + 1 ==>
              TotalAt(after, id) == TotalAt(before, id)
  {
    hide Kept, Recorded, TotalAt;
    forall id: nat | id != counter + 1 && id + WINDOW_SIZE != counter + 1
      ensures TotalAt(after, id) == TotalAt(before, id)
    {
      forall i: nat | i < |after|
        ensures after[i].At(id) == before[i].At(id)
      {
        RecordedAt(before[i], counter, events[i], id);
      }
      SameTotals(before, after, id);
    }
  }

  lemma {:induction false} SameTotals(a: seq<Bucket>, b: seq<Bucket>, id: nat)
    requires |a| == |b| && forall i: nat :: i < |a| ==> b[i].At(id) == a[i].At(id)
    ensures TotalAt(b, id) == TotalAt(a, id)
  {
    hide Stats.Plus, Bucket.At;
    if a != [] {
      SameTotals(a[1..], b[1..], id);
    }
  }

  /** On the fast path the total of a flush is exactly what its results add up to. */
  lemma OwnFlushTotal(before: seq<Bucket>, after: seq<Bucket>, results: seq<FlushResult>, counter: nat)
    requires AllKept(before, counter) && |before| == |after| == |results|
    requires forall i: nat :: i < |after| ==>
               after[i] == Recorded(before[i], counter + 1, FlushEvent(results[i].stats, results[i].median))
    ensures TotalAt(after, counter + 1) == SumStats(results)
  {
    hide Kept, Recorded, SumStats;
    forall i: nat | i < |after|
      ensures after[i].At(counter + 1) == results[i].stats
    {
      RecordedAt(before[i], counter, FlushEvent(results[i].stats, results[i].median), counter + 1);
    }
    TotalOfOwn(after, results, counter + 1, |after|);
    assert after[..|after|] == after && results[..|after|] == results;
  }

  /** What a remapped flush adds over all buckets: every result, less what rounding down loses. */
  lemma RemappedFlushTotal(before: seq<Bucket>, after: seq<Bucket>, results: seq<FlushResult>, counter: nat)
    requires AllKept(before, counter) && |before| == |after|
    requires forall i: nat :: i < |after| ==> after[i] == Recorded(before[i], counter + 1, Remapped(before, results, i))
    ensures TotalAt(after, counter + 1) == SumSpread(before, results)
  {
    hide Kept, Recorded, Accumulated, Median, ShareMedians;
    forall i: nat | i < |before|
      ensures after[i].At(counter + 1) == Accumulated(before, results, i)
    {
      RecordedAt(before[i], counter, Remapped(before, results, i), counter + 1);
    }
    TotalOfRemapped(before, after, results, counter + 1, |before|);
    assert after[..|before|] == after;
    RemapTotal(before, results);
  }

  /**
   Setting the buckets up leaves the epoch at zero, so the epoch alone does not tell a snapshot
   taken before from one taken after; the number of ranges does.
   */
  method SnapshotBeforeSetup(points: seq<Key>) returns (m: Manager, snap: Snapshot)
    ensures m.Valid() && m.initialized && snap.epoch == m.epoch
    ensures snap.ranges != Ranges(m.buckets) && |snap.ranges| != |m.buckets|
  {
    m := new Manager();
    snap := m.GetSnapshot();
    m.InitializeFromFirstFlush(points);
  }

  /**
   A run that makes an empty bucket: the only median of the middle bucket is its lower end, and
   the midpoint of the range fails.
   */
  method SplitCanFallOutside() returns (m: Manager)
    ensures m.Valid() && m.initialized && !Proper(m.buckets)
  {
    hide Contiguous, AllKept, Proper, TotalAt, Recorded, Ranges, SumStats, Remapped, Chosen, SplitAt, Candidate;
    hide SumSpread;
    m := new Manager();
    AscendingPoints();
    m.InitializeFromFirstFlush([[97], [97, 0]]);
    ghost var first := m.buckets;
    assert first[1] == Between([[97], [97, 0]], 1);
    m.OnFlushCompleted(0, [FlushResult(ZERO, [], [], [97]), FlushResult(Stats(1, 1, 1), [97], [97], [97, 0]),
                           FlushResult(ZERO, [], [97, 0], [])]);
    SameRanges(m.buckets, first);
    NothingInside(m.buckets[1], m.counter + 1);
    m.SplitBucket(1);
  }

  lemma AscendingPoints()
    ensures Ascending([[97], [97, 0]])
  {
    assert [97, 0][1..] == [0] && [97][1..] == [];
  }

  /** No median and no midpoint is strictly between a key and the same key with a zero byte. */
  lemma NothingInside(b: Bucket, n: nat)
    requires b.min != [] && b.max == b.min + [0]
    ensures !Inside(Candidate(b, n), b.min, b.max) && MidpointFails(b.min, b.max)
  {
    LessPrefix(b.min, b.max);
    FiniteMidpoint(b.min, b.max);
  }

  /** The left one of the two buckets that are merged. */
  function LeftOfMerge(buckets: seq<Bucket>, idx: nat): nat
    requires idx < |buckets| && |buckets| > 1
  {
    if 0 < idx < |buckets| - 1 then
      if buckets[idx - 1].window.bytes < buckets[idx + 1].window.bytes then idx - 1 else idx
    else if idx > 0 then idx - 1
    else 0
  }

  lemma Merging(buckets: seq<Bucket>, left: nat, counter: nat)
    requires Contiguous(buckets) && AllKept(buckets, counter) && left + 1 < |buckets|
    ensures Kept(buckets[left], counter) && Kept(buckets[left + 1], counter)
    ensures var z := MergeAt(buckets, left, counter + 1);
            && Contiguous(z) && AllKept(z, counter)
            && (forall id: nat :: TotalAt(z, id) == TotalAt(buckets, id))
            && (Proper(buckets) ==> Proper(z))
  {
    hide Contiguous, Proper, TotalAt, MergeAt, Kept;
    MergeIsContiguous(buckets, left, counter + 1);
    MergeIsKept(buckets, left, counter);
    if Proper(buckets) {
      MergeIsProper(buckets, left, counter + 1);
    }
    forall id: nat
      ensures TotalAt(MergeAt(buckets, left, counter + 1), id) == TotalAt(buckets, id)
    {
      MergeConserves(buckets, left, counter + 1, id);
    }
  }

  lemma Splitting(buckets: seq<Bucket>, idx: nat, counter: nat)
    requires Contiguous(buckets) && AllKept(buckets, counter) && idx < |buckets|
    requires Chosen(buckets[idx], counter + 1) != []
    ensures Kept(buckets[idx], counter)
    ensures var b := buckets[idx];
            var z := SplitAt(buckets, idx, Chosen(b, counter + 1), counter + 1);
            && Contiguous(z) && AllKept(z, counter)
            && (forall id: nat :: TotalAt(z, id) == TotalAt(buckets, id))
            && (Proper(buckets) ==>
                  (Proper(z) <==> Inside(Candidate(b, counter + 1), b.min, b.max) || !MidpointFails(b.min, b.max)))
  {
    hide Contiguous, TotalAt, SplitAt, Inside, Kept, Chosen, MidpointFails, ProperRange, Candidate;
    var point := Chosen(buckets[idx], counter + 1);
    SplitIsContiguous(buckets, idx, point, counter + 1);
    SplitIsKept(buckets, idx, point, counter);
    if Proper(buckets) {
      SplitIsProper(buckets, idx, point, counter + 1);
      SplitIsInside(buckets[idx], counter + 1);
    }
    forall id: nat
      ensures TotalAt(SplitAt(buckets, idx, point, counter + 1), id) == TotalAt(buckets, id)
    {
      SplitConserves(buckets, idx, point, counter + 1, id);
    }
  }
}
