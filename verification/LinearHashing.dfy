/**
 Addresses of the linear-hashing table (cache/clock_cache.cc, AutoHyperClockTable): the encoded
 length, the home of a hash at a given length, and which home a new one splits off from.
 */
module LinearHashing {
  import opened Bits

  // ---------------------------------------------------------------- the encoded length

  function MinShift(lengthInfo: nat): nat { lengthInfo % 256 }

  function Threshold(lengthInfo: nat): nat { lengthInfo / 256 }

  function UsedLength(lengthInfo: nat): nat { Pow2(MinShift(lengthInfo)) + Threshold(lengthInfo) }

  function LengthInfo(usedLength: nat): nat
    requires usedLength >= 1
  {
    BottomBits(usedLength, FloorLog2(usedLength)) * 256 + FloorLog2(usedLength)
  }

  /** The number of bits a length takes leaves room for the threshold beside it. */
  lemma LengthInfoRoundTrip(usedLength: nat)
    requires 2 <= usedLength < Pow2(64)
    ensures UsedLength(LengthInfo(usedLength)) == usedLength
    ensures 0 < MinShift(LengthInfo(usedLength)) <= 63
    ensures Threshold(LengthInfo(usedLength)) < Pow2(MinShift(LengthInfo(usedLength)))
  {
    var s := FloorLog2(usedLength);
    Pow2Monotone(64, s);
    Pow2Monotone(1, s);
    OldHomeIs(usedLength);
    DivModUnique(LengthInfo(usedLength), 256, BottomBits(usedLength, s), s);
  }

  /** Distinct lengths have distinct encodings, so comparing the encoded words compares the lengths. */
  lemma LengthInfoIsInjective(a: nat, b: nat)
    requires 2 <= a < Pow2(64) && 2 <= b < Pow2(64) && LengthInfo(a) == LengthInfo(b)
    ensures a == b
  {
    LengthInfoRoundTrip(a);
    LengthInfoRoundTrip(b);
  }

  // ---------------------------------------------------------------- splitting

  function OldShift(growHome: nat): nat
    requires growHome >= 1
  {
    FloorLog2(growHome)
  }

  /** The home that `growHome` splits off from. */
  function OldHome(growHome: nat): nat
    requires growHome >= 1
  {
    BottomBits(growHome, OldShift(growHome))
  }

  lemma OldHomeIs(g: nat)
    requires g >= 1
    ensures OldHome(g) + Pow2(OldShift(g)) == g && OldHome(g) < Pow2(OldShift(g))
  {
    DivModUnique(g, Pow2(OldShift(g)), 1, g - Pow2(OldShift(g)));
  }

  /** A home and a shift determine what splits off. */
  lemma SplitsOff(home: nat, shift: nat)
    requires home < Pow2(shift)
    ensures OldShift(home + Pow2(shift)) == shift && OldHome(home + Pow2(shift)) == home
  {
    hide Pow2, FloorLog2;
    FloorLog2Unique(home + Pow2(shift), shift);
    OldHomeIs(home + Pow2(shift));
  }

  /** What splits off from a home has a larger shift than the home itself had. */
  lemma LaterShift(g: nat)
    requires g >= 1 && OldHome(g) >= 1
    ensures OldShift(OldHome(g)) + 1 <= OldShift(g)
  {
    OldHomeIs(g);
    Pow2Monotone(OldShift(g), OldShift(OldHome(g)));
  }

  /** The home that `Grow` watches: where the old home came from, or the old home itself. */
  function OldOldHome(g: nat): nat
    requires g >= 2
  {
    BottomBits(g, if OldShift(g) == 0 then 0 else OldShift(g) - 1)
  }

  lemma OldOldHomeIs(g: nat)
    requires g >= 2
    ensures OldShift(g) >= 1
    ensures OldOldHome(g) == OldHome(g)
         || (OldHome(g) >= 1 && OldOldHome(g) == OldHome(OldHome(g)) && OldShift(OldHome(g)) == OldShift(g) - 1)
  {
    var s := OldShift(g);
    OldHomeIs(g);
    assert s >= 1;
    var half := Pow2(s - 1);
    var h := OldHome(g);
    if h < half {
      DivModUnique(g, half, 2, h);
    } else {
      DivModUnique(g, half, 3, h - half);
      SplitsOff(h - half, s - 1);
    }
  }

  // ---------------------------------------------------------------- homes

  /** `GetHomeIndexAndShift`, on the length that the encoded word stands for. */
  function HomeShift(length: nat, hash: nat): nat
    requires length >= 1
  {
    var minShift := FloorLog2(length);
    if BottomBits(hash, minShift) < length - Pow2(minShift) then minShift + 1 else minShift
  }

  function Home(length: nat, hash: nat): nat
    requires length >= 1
  {
    BottomBits(hash, HomeShift(length, hash))
  }

  lemma HomeIsUsed(length: nat, hash: nat)
    requires length >= 1
    ensures Home(length, hash) < length
  {
    OneMoreBit(hash, FloorLog2(length));
  }

  /** The split that gave a hash its home and shift: the home stayed in it, or is the new one of it. */
  function SplitOf(length: nat, hash: nat): nat
    requires length >= 2
  {
    var home, shift := Home(length, hash), HomeShift(length, hash);
    if shift >= 1 && home < Pow2(shift - 1) then home + Pow2(shift - 1) else home
  }

  lemma HomeComesFromSplit(length: nat, hash: nat)
    requires length >= 2
    ensures var g := SplitOf(length, hash);
            && 1 <= g < length && OldShift(g) + 1 == HomeShift(length, hash)
            && Home(length, hash) in {g, OldHome(g)}
  {
    var m := FloorLog2(length);
    var home, shift := Home(length, hash), HomeShift(length, hash);
    HomeIsUsed(length, hash);
    OldHomeIs(length);
    assert m >= 1;
    Pow2Step(shift - 1);
    Pow2Monotone(shift, m);
    OneMoreBit(hash, m);
    hide Pow2, FloorLog2;
    if home < Pow2(shift - 1) {
      SplitsOff(home, shift - 1);
    } else {
      FloorLog2Unique(home, shift - 1);
    }
  }

  /** Growing by one moves hashes of the old home only, and only to the new home. */
  lemma GrowthRehomes(length: nat, hash: nat)
    requires length >= 1
    ensures if Home(length, hash) == OldHome(length)
            then HomeShift(length + 1, hash) == OldShift(length) + 1 == HomeShift(length, hash) + 1
                 && Home(length + 1, hash) in {OldHome(length), length}
            else Home(length + 1, hash) == Home(length, hash) && HomeShift(length + 1, hash) == HomeShift(length, hash)
  {
    var s := FloorLog2(length);
    OldHomeIs(length);
    OneMoreBit(hash, s);
    OneMoreBit(hash, s + 1);
    if length + 1 < 2 * Pow2(s) {
      FloorLog2Unique(length + 1, s);
    } else {
      FloorLog2Unique(length + 1, s + 1);
    }
  }
}
