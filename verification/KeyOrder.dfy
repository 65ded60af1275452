/**
 Byte-string keys in the order of `std::string`, the midpoint that BucketManager
 (db/column_family.cc) computes between two of them, and sorting.
 */
module KeyOrder {

  type Byte = x: int | 0 <= x < 256
  type Key = seq<Byte>

  predicate Less(a: Key, b: Key) {
    b != [] && (a == [] || a[0] < b[0] || (a[0] == b[0] && Less(a[1..], b[1..])))
  }

  predicate AtMost(a: Key, b: Key) { a == b || Less(a, b) }

  lemma {:induction false} LessIrreflexive(a: Key)
    ensures !Less(a, a)
  {
    if a != [] {
      LessIrreflexive(a[1..]);
    }
  }

  lemma {:induction false} LessTransitive(a: Key, b: Key, c: Key)
    requires Less(a, b) && Less(b, c)
    ensures Less(a, c)
  {
    if a != [] && a[0] == b[0] == c[0] {
      LessTransitive(a[1..], b[1..], c[1..]);
    }
  }

  lemma {:induction false} LessTotal(a: Key, b: Key)
    ensures Less(a, b) || a == b || Less(b, a)
  {
    if a != [] && b != [] && a[0] == b[0] {
      LessTotal(a[1..], b[1..]);
      assert a == [a[0]] + a[1..] && b == [b[0]] + b[1..];
    }
  }

  /** The first difference decides. */
  lemma {:induction false} LessAt(a: Key, b: Key, i: nat)
    requires i < |a| && i < |b| && a[..i] == b[..i]
    ensures a[i] < b[i] ==> Less(a, b)
    ensures a[i] > b[i] ==> Less(b, a)
  {
    if i > 0 {
      assert a[0] == a[..i][0] && b[0] == b[..i][0];
      assert a[1..][..i - 1] == a[..i][1..] && b[1..][..i - 1] == b[..i][1..];
      LessAt(a[1..], b[1..], i - 1);
    }
  }

  /** A proper prefix comes first. */
  lemma {:induction false} LessPrefix(a: Key, b: Key)
    requires a < b
    ensures Less(a, b)
  {
    if a != [] {
      LessPrefix(a[1..], b[1..]);
    }
  }

  /** Where `a < b` first differ, or the length of `a` if it is a prefix of `b`. */
  function Divergence(a: Key, b: Key, i: nat): (d: nat)
    requires i <= |a| && i <= |b|
    ensures i <= d <= |a| && d <= |b|
    ensures d < |a| && d < |b| ==> a[d] != b[d]
    ensures forall k :: i <= k < d ==> a[k] == b[k]
    decreases |a| - i
  {
    if i < |a| && i < |b| && a[i] == b[i] then Divergence(a, b, i + 1) else i
  }

  // ---------------------------------------------------------------- ranges

  /** `k` lies strictly between the bounds; an empty lower (upper) bound is minus (plus) infinity. */
  predicate Inside(k: Key, min: Key, max: Key) {
    k != [] && (min == [] || Less(min, k)) && (max == [] || Less(k, max))
  }

  /** `k` belongs to the range that includes its lower bound and excludes its upper bound. */
  predicate InRange(k: Key, min: Key, max: Key) {
    (min == [] || AtMost(min, k)) && (max == [] || Less(k, max))
  }

  // ---------------------------------------------------------------- the midpoint

  /** A `char` is signed: bytes from 0x80 on compare below zero. */
  function Signed(x: Byte): int { if x < 0x80 then x else x - 256 }

  function Mean(x: Byte, y: Byte): Byte {
    var sum: int := x;
    (sum + y) / 2
  }

  method ComputeMidpointKey(a: Key, b: Key) returns (m: Key)
    ensures m == Midpoint(a, b)
  {
    if a == [] && b == [] {
      return [77];
    }
    if a == [] {
      if Signed(b[0]) > 1 {
        return [b[0] - 1];
      }
      return [1];
    }
    if b == [] {
      return a + [0x80];
    }
    var len := if |a| < |b| then |a| else |b|;
    var result: Key := [];
    for i := 0 to len
      invariant result == a[..i]
      invariant Midpoint(a, b) == MidpointFrom(a, b, i)
    {
      if a[i] < b[i] {
        result := a[..i] + [Mean(a[i], b[i])];
        if Less(a, result) && Less(result, b) {
          return result;
        }
        return a + [0x80];
      }
      result := result + [a[i]];
    }
    if |a| < |b| {
      result := a + [b[|a|] / 2];
      if Less(a, result) && Less(result, b) {
        return result;
      }
    }
    return a + [0x80];
  }

  function Midpoint(a: Key, b: Key): Key {
    if a == [] && b == [] then [77]
    else if a == [] then if Signed(b[0]) > 1 then [b[0] - 1] else [1]
    else if b == [] then a + [0x80]
    else MidpointFrom(a, b, 0)
  }

  function MidpointFrom(a: Key, b: Key, i: nat): Key
    requires i <= |a| && i <= |b|
    decreases |a| - i
  {
    if i < |a| && i < |b| then
      if a[i] < b[i] then
        var result := a[..i] + [Mean(a[i], b[i])];
        if Less(a, result) && Less(result, b) then result else a + [0x80]
      else MidpointFrom(a, b, i + 1)
    else if |a| < |b| then
      var result := a + [b[|a|] / 2];
      if Less(a, result) && Less(result, b) then result else a + [0x80]
    else a + [0x80]
  }

  lemma {:induction false} MidpointFromDivergence(a: Key, b: Key, i: nat)
    requires i <= |a| && i <= |b|
    ensures var d := Divergence(a, b, i);
            (d == |a| || d == |b| || a[d] < b[d]) ==> MidpointFrom(a, b, i) == MidpointFrom(a, b, d)
    decreases |a| - i
  {
    if i < |a| && i < |b| && a[i] == b[i] {
      MidpointFromDivergence(a, b, i + 1);
    }
  }

  /** Between finite bounds the midpoint is strictly inside, unless no key is. */
  lemma FiniteMidpoint(a: Key, b: Key)
    requires a != [] && Less(a, b)
    ensures Inside(Midpoint(a, b), a, b) <==> b != a + [0]
    ensures b == a + [0] ==> forall k :: !Inside(k, a, b)
  {
    var d := Divergence(a, b, 0);
    assert a[..d] == b[..d];
    MidpointFromDivergence(a, b, 0);
    LessPrefix(a, a + [0x80]);
    if d < |a| && d < |b| {
      LessAt(a, b, d);
      LessIrreflexive(a);
      if Less(b, a) { LessTransitive(a, b, a); }
      DivergentMidpoint(a, b, d);
    } else {
      PrefixFact(a, b, d);
      assert a + [b[|a|]] == b[..|a| + 1];
      PrefixMidpoint(a, b);
    }
  }

  lemma PrefixFact(a: Key, b: Key, d: nat)
    requires Less(a, b) && d <= |a| && d <= |b| && a[..d] == b[..d] && (d == |a| || d == |b|)
    ensures d == |a| < |b| && a < b
  {
    if d == |b| {
      if a == b {
        LessIrreflexive(a);
      } else {
        LessPrefix(b, a);
        LessTransitive(a, b, a);
        LessIrreflexive(a);
      }
    } else {
      assert a == a[..d];
    }
  }

  lemma DivergentMidpoint(a: Key, b: Key, d: nat)
    requires d < |a| && d < |b| && a[..d] == b[..d] && a[d] < b[d] && a != []
    ensures Inside(MidpointFrom(a, b, d), a, b) && b != a + [0]
  {
    var high := a + [0x80];
    assert high[..d] == a[..d];
    LessPrefix(a, high);
    LessAt(high, b, d);
    assert (a + [0])[d] == a[d];
  }

  lemma PrefixMidpoint(a: Key, b: Key)
    requires a < b && a != []
    ensures Inside(MidpointFrom(a, b, |a|), a, b) <==> b != a + [0]
    ensures b == a + [0] ==> forall k :: !Inside(k, a, b)
  {
    var n := |a|;
    var half := a + [b[n] / 2];
    LessPrefix(a, half);
    assert half[..n] == a && b[..n] == a;
    if b[n] > 0 {
      LessAt(half, b, n);
      assert (a + [0])[n] == 0;
    } else if |b| > n + 1 {
      assert half == b[..n + 1];
      LessPrefix(half, b);
    } else {
      assert b == a + [0];
      var high := a + [0x80];
      assert high[..n] == a && high[n] == 0x80;
      LessAt(b, high, n);
      LessIrreflexive(b);
      if Less(high, b) { LessTransitive(high, b, high); LessIrreflexive(high); }
      forall k
        ensures !Inside(k, a, b)
      {
        NothingBeforeZero(a, k);
      }
    }
  }

  lemma {:induction false} NothingBeforeZero(a: Key, k: Key)
    ensures !(Less(a, k) && Less(k, a + [0]))
  {
    var b := a + [0];
    if a != [] && k != [] {
      assert b[1..] == a[1..] + [0];
      NothingBeforeZero(a[1..], k[1..]);
    }
  }

  /** With one bound infinite the midpoint is strictly inside, but for a few smallest upper bounds. */
  lemma InfiniteMidpoint(a: Key, b: Key)
    requires a == [] || b == []
    ensures Inside(Midpoint(a, b), a, b) <==> !(a == [] && b != [] && (b[0] == 0 || b == [1]))
  {
    if b == [] {
      if a != [] { LessPrefix(a, a + [0x80]); }
    } else {
      var m := Midpoint(a, b);
      assert m[1..] == [];
      assert Less(m, b) <==> m[0] < b[0] || (m[0] == b[0] && b[1..] != []);
      assert b == [b[0]] + b[1..];
    }
  }

  /** The midpoint is never empty, so it is always a finite bound. */
  lemma {:induction false} MidpointIsFinite(a: Key, b: Key)
    ensures Midpoint(a, b) != []
  {
    if a != [] && b != [] {
      MidpointFromIsFinite(a, b, 0);
    }
  }

  lemma {:induction false} MidpointFromIsFinite(a: Key, b: Key, i: nat)
    requires i <= |a| && i <= |b|
    ensures MidpointFrom(a, b, i) != []
    decreases |a| - i
  {
    if i < |a| && i < |b| && a[i] >= b[i] {
      MidpointFromIsFinite(a, b, i + 1);
    }
  }
}
