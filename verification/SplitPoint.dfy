/**
 Where a bucket is split (db/column_family.cc): the median of the median keys of recent flushes
 if that is usable, and otherwise the midpoint of the bucket's range.
 */
module SplitPoint {
  import opened KeyOrder
  import opened Buckets

  // ---------------------------------------------------------------- sorting

  ghost predicate Sorted(ks: seq<Key>) {
    forall i, j :: 0 <= i < j < |ks| ==> AtMost(ks[i], ks[j])
  }

  function Insert(k: Key, ks: seq<Key>): seq<Key> {
    if ks == [] || AtMost(k, ks[0]) then [k] + ks else [ks[0]] + Insert(k, ks[1..])
  }

  function Sort(ks: seq<Key>): seq<Key> {
    if ks == [] then [] else Insert(ks[0], Sort(ks[1..]))
  }

  lemma {:induction false} InsertElements(k: Key, ks: seq<Key>)
    ensures multiset(Insert(k, ks)) == multiset(ks) + multiset{k}
  {
    if ks != [] && !AtMost(k, ks[0]) {
      InsertElements(k, ks[1..]);
      assert ks == [ks[0]] + ks[1..];
    }
  }

  lemma {:induction false} InsertSorts(k: Key, ks: seq<Key>)
    requires Sorted(ks)
    ensures Sorted(Insert(k, ks))
  {
    var r := Insert(k, ks);
    if ks == [] {
    } else if AtMost(k, ks[0]) {
      forall i, j | 0 <= i < j < |r|
        ensures AtMost(r[i], r[j])
      {
        if i == 0 && j > 1 {
          AtMostTransitive(k, ks[0], ks[j - 1]);
        }
      }
    } else {
      InsertSorts(k, ks[1..]);
      InsertElements(k, ks[1..]);
      LessTotal(k, ks[0]);
      var rest := Insert(k, ks[1..]);
      forall j | 0 <= j < |rest|
        ensures AtMost(ks[0], rest[j])
      {
        assert rest[j] in multiset(rest);
        assert rest[j] == k || rest[j] in ks[1..];
      }
    }
  }

  lemma AtMostTransitive(a: Key, b: Key, c: Key)
    requires AtMost(a, b) && AtMost(b, c)
    ensures AtMost(a, c)
  {
    if a != b && b != c {
      LessTransitive(a, b, c);
    }
  }

  lemma {:induction false} SortIsCorrect(ks: seq<Key>)
    ensures Sorted(Sort(ks)) && multiset(Sort(ks)) == multiset(ks) && |Sort(ks)| == |ks|
  {
    if ks != [] {
      SortIsCorrect(ks[1..]);
      InsertSorts(ks[0], Sort(ks[1..]));
      InsertElements(ks[0], Sort(ks[1..]));
      assert ks == [ks[0]] + ks[1..];
      assert |multiset(Sort(ks))| == |multiset(ks)|;
    }
  }

  /** The middle one of the keys, or no key. */
  function Median(ks: seq<Key>): Key {
    if |Sort(ks)| == 0 then [] else Sort(ks)[|Sort(ks)| / 2]
  }

  /** How many of the keys are below, or above, the given one. */
  function CountBelow(ks: seq<Key>, m: Key): nat {
    if ks == [] then 0 else (if Less(ks[0], m) then 1 else 0) + CountBelow(ks[1..], m)
  }

  function CountAbove(ks: seq<Key>, m: Key): nat {
    if ks == [] then 0 else (if Less(m, ks[0]) then 1 else 0) + CountAbove(ks[1..], m)
  }

  lemma {:induction false} InsertCounts(k: Key, ks: seq<Key>, m: Key)
    ensures CountBelow(Insert(k, ks), m) == CountBelow(ks, m) + if Less(k, m) then 1 else 0
    ensures CountAbove(Insert(k, ks), m) == CountAbove(ks, m) + if Less(m, k) then 1 else 0
  {
    hide Less, AtMost;
    if ks == [] || AtMost(k, ks[0]) {
      assert ([k] + ks)[1..] == ks;
    } else {
      InsertCounts(k, ks[1..], m);
      assert ([ks[0]] + Insert(k, ks[1..]))[1..] == Insert(k, ks[1..]);
    }
  }

  lemma {:induction false} SortCounts(ks: seq<Key>, m: Key)
    ensures CountBelow(Sort(ks), m) == CountBelow(ks, m) && CountAbove(Sort(ks), m) == CountAbove(ks, m)
  {
    hide Less, Insert;
    if ks != [] {
      SortCounts(ks[1..], m);
      InsertCounts(ks[0], Sort(ks[1..]), m);
    }
  }

  lemma {:induction false} CountPart(ks: seq<Key>, h: nat, m: Key)
    requires h <= |ks|
    ensures (forall i :: h <= i < |ks| ==> !Less(ks[i], m)) ==> CountBelow(ks, m) <= h
    ensures (forall i :: 0 <= i < h ==> !Less(m, ks[i])) ==> CountAbove(ks, m) <= |ks| - h
    decreases |ks|
  {
    hide Less;
    if ks != [] {
      if h > 0 {
        CountPart(ks[1..], h - 1, m);
        assert forall i :: 0 <= i < |ks| - 1 ==> ks[1..][i] == ks[i + 1];
      } else {
        CountPart(ks[1..], 0, m);
        assert forall i :: 0 <= i < |ks| - 1 ==> ks[1..][i] == ks[i + 1];
      }
    }
  }

  lemma SortedAround(sorted: seq<Key>, h: nat)
    requires Sorted(sorted) && h < |sorted|
    ensures forall i :: h <= i < |sorted| ==> !Less(sorted[i], sorted[h])
    ensures forall i :: 0 <= i <= h ==> !Less(sorted[h], sorted[i])
  {
    forall i | 0 <= i < |sorted|
      ensures i >= h ==> !Less(sorted[i], sorted[h])
      ensures i <= h ==> !Less(sorted[h], sorted[i])
    {
      Exclusive(sorted[i], sorted[h]);
      Exclusive(sorted[h], sorted[i]);
    }
  }

  /** The median is one of the keys, with at most half of them below it and fewer than half above. */
  lemma MedianIsMiddle(ks: seq<Key>)
    requires ks != []
    ensures Median(ks) in ks
    ensures CountBelow(ks, Median(ks)) <= |ks| / 2 && CountAbove(ks, Median(ks)) <= |ks| - |ks| / 2 - 1
  {
    hide Less, Sorted, Sort, CountBelow, CountAbove;
    SortIsCorrect(ks);
    var sorted, h := Sort(ks), |ks| / 2;
    var m := sorted[h];
    assert m in multiset(sorted);
    assert m in multiset(ks);
    SortedAround(sorted, h);
    CountPart(sorted, h, m);
    CountPart(sorted, h + 1, m);
    SortCounts(ks, m);
  }

  // ---------------------------------------------------------------- the split point

  /** The usable median keys among the events below `n`. */
  function Medians(events: map<nat, FlushEvent>, n: nat): seq<Key> {
    if n == 0 then []
    else
      Medians(events, n - 1)
      + if n - 1 in events && events[n - 1].median != [] && events[n - 1].stats.files > 0
        then [events[n - 1].median] else []
  }

  function Candidate(b: Bucket, n: nat): Key { Median(Medians(b.events, n)) }

  /** The usable medians are those of the flushes that gave the bucket files. */
  lemma {:induction false} MediansAre(events: map<nat, FlushEvent>, n: nat, k: Key)
    ensures k in Medians(events, n) <==>
            k != [] && exists id: nat :: id < n && id in events && events[id].median == k && events[id].stats.files > 0
  {
    if n > 0 {
      MediansAre(events, n - 1, k);
    }
  }

  method ComputeSplitPoint(b: Bucket, n: nat) returns (point: Key)
    ensures point == Candidate(b, n)
  {
    var medians: seq<Key> := [];
    for id := 0 to n
      invariant medians == Medians(b.events, id)
    {
      if id in b.events && b.events[id].median != [] && b.events[id].stats.files > 0 {
        medians := medians + [b.events[id].median];
      }
    }
    SortIsCorrect(medians);
    if medians == [] {
      return [];
    }
    point := Sort(medians)[|medians| / 2];
  }

  /** The median of recent medians where it cuts the bucket, and the midpoint of the range elsewhere. */
  function Chosen(b: Bucket, n: nat): Key {
    if Inside(Candidate(b, n), b.min, b.max) then Candidate(b, n) else Midpoint(b.min, b.max)
  }

  method ChooseSplitPoint(b: Bucket, n: nat) returns (point: Key)
    ensures point != [] && point == Chosen(b, n)
  {
    MidpointIsFinite(b.min, b.max);
    point := ComputeSplitPoint(b, n);
    if point == [] {
      point := ComputeMidpointKey(b.min, b.max);
    }
    LessTotal(point, b.min);
    Exclusive(point, b.min);
    if b.min != [] && AtMost(point, b.min) {
      point := ComputeMidpointKey(b.min, b.max);
    }
    LessTotal(point, b.max);
    Exclusive(point, b.max);
    if b.max != [] && !Less(point, b.max) {
      point := ComputeMidpointKey(b.min, b.max);
    }
  }

  lemma Exclusive(a: Key, b: Key)
    ensures !(Less(a, b) && AtMost(b, a))
  {
    LessIrreflexive(a);
    if Less(a, b) && Less(b, a) {
      LessTransitive(a, b, a);
    }
  }

  /** The ranges whose midpoint is not inside them. */
  predicate MidpointFails(min: Key, max: Key) {
    max != [] && if min == [] then max[0] == 0 || max == [1] else max == min + [0]
  }

  lemma MidpointIsInside(min: Key, max: Key)
    requires ProperRange(min, max)
    ensures Inside(Midpoint(min, max), min, max) <==> !MidpointFails(min, max)
  {
    if min == [] || max == [] {
      InfiniteMidpoint(min, max);
    } else {
      FiniteMidpoint(min, max);
    }
  }

  /** A split is proper unless no recent median is inside and the midpoint fails too. */
  lemma SplitIsInside(b: Bucket, n: nat)
    requires ProperRange(b.min, b.max)
    ensures Inside(Chosen(b, n), b.min, b.max) <==>
            Inside(Candidate(b, n), b.min, b.max) || !MidpointFails(b.min, b.max)
  {
    if b.min == [] || b.max == [] {
      InfiniteMidpoint(b.min, b.max);
    } else {
      FiniteMidpoint(b.min, b.max);
    }
  }
}
