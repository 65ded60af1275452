/**
 Powers of two and the bottom bits of a hash, as used for home addresses, probe
 positions and length encodings.
 */
module Bits {

  function Pow2(n: nat): (p: nat)
    ensures p >= 1
  {
    if n == 0 then 1 else 2 * Pow2(n - 1)
  }

  lemma Pow2Step(n: nat)
    ensures Pow2(n + 1) == 2 * Pow2(n)
  {
  }

  function Quotient(x: nat, d: nat): nat
    requires d > 0
  {
    x / d
  }

  /** The bottom `shift` bits of `hash`. */
  function BottomBits(hash: nat, shift: nat): (r: nat)
    ensures r < Pow2(shift)
  {
    hash % Pow2(shift)
  }

  /** The position of the highest bit that is set. */
  function FloorLog2(n: nat): (s: nat)
    requires n >= 1
    ensures Pow2(s) <= n < 2 * Pow2(s)
  {
    if n == 1 then 0 else FloorLog2(n / 2) + 1
  }

  lemma Pow2Monotone(a: nat, b: nat)
    ensures a <= b ==> Pow2(a) <= Pow2(b)
    ensures a < b ==> 2 * Pow2(a) <= Pow2(b)
  {
    if a < b { Pow2Monotone(a, b - 1); }
  }

  lemma FloorLog2Unique(n: nat, s: nat)
    requires Pow2(s) <= n < 2 * Pow2(s)
    ensures FloorLog2(n) == s
  {
    Pow2Monotone(FloorLog2(n), s);
    Pow2Monotone(s, FloorLog2(n));
  }

  /** One more hash bit either keeps the address or adds the new bit to it. */
  lemma OneMoreBit(hash: nat, shift: nat)
    ensures BottomBits(hash, shift + 1) == BottomBits(hash, shift)
         || BottomBits(hash, shift + 1) == BottomBits(hash, shift) + Pow2(shift)
    ensures BottomBits(BottomBits(hash, shift + 1), shift) == BottomBits(hash, shift)
  {
    var p := Pow2(shift);
    var q := hash / (2 * p);
    var r := hash % (2 * p);
    assert hash == 2 * p * q + r;
    if r < p {
      DivModUnique(hash, p, 2 * q, r);
      DivModUnique(r, p, 0, r);
    } else {
      DivModUnique(hash, p, 2 * q + 1, r - p);
      DivModUnique(r, p, 1, r - p);
    }
  }

  lemma DivModUnique(x: nat, d: nat, q: nat, r: nat)
    requires d > 0 && r < d && x == d * q + r
    ensures x / d == q && x % d == r
  {
    var k := q - x / d;
    assert d * k == x % d - r;
    MultipleIsFar(d, k);
  }

  lemma MultipleIsFar(d: nat, k: int)
    ensures k >= 1 ==> d * k >= d
    ensures k <= -1 ==> d * k + d <= 0
  {
  }
}
