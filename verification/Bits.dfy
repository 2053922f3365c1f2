/** Shifts and masks of unsigned words, bit by bit, and what they compute. */
module Bits {

  function Pow2(k: nat): (p: nat)
    ensures p > 0
  {
    if k == 0 then 1 else 2 * Pow2(k - 1)
  }

  /** `x >> k`. */
  function Shr(x: nat, k: nat): nat {
    if k == 0 then x else Shr(x / 2, k - 1)
  }

  /** `x & y`. */
  function And(x: nat, y: nat): nat {
    if x == 0 || y == 0 then 0 else 2 * And(x / 2, y / 2) + (x % 2) * (y % 2)
  }

  lemma AndBelow(x: nat, y: nat)
    ensures And(x, y) <= y
  {
    if x != 0 && y != 0 {
      AndBelow(x / 2, y / 2);
      assert x % 2 == 0 || x % 2 == 1;
    }
  }

  /** Shift and mask are quotient and remainder by a power of two. */
  lemma {:induction false} ShiftAndMask(x: nat, k: nat)
    ensures x == Pow2(k) * Shr(x, k) + And(x, Pow2(k) - 1) && And(x, Pow2(k) - 1) < Pow2(k)
    decreases k
  {
    hide And;
    if k == 0 {
      AndBelow(x, 0);
    } else {
      ShiftAndMask(x / 2, k - 1);
      MaskLow(x, Pow2(k - 1));
      Doubled(x, Pow2(k - 1), Shr(x / 2, k - 1), And(x / 2, Pow2(k - 1) - 1));
    }
  }

  lemma Doubled(x: nat, p: nat, q: nat, r: nat)
    requires x / 2 == p * q + r && r < p
    ensures x == (2 * p) * q + (2 * r + x % 2) && 2 * r + x % 2 < 2 * p
  {
    assert (2 * p) * q == 2 * (p * q);
    assert x == 2 * (x / 2) + x % 2;
  }

  lemma MaskLow(x: nat, p: nat)
    requires p > 0
    ensures And(x, 2 * p - 1) == 2 * And(x / 2, p - 1) + x % 2
  {
    var y := 2 * p - 1;
    assert y / 2 == p - 1 && y % 2 == 1;
    assert x == 0 ==> And(x / 2, p - 1) == 0;
  }
}
