/** Exclusive-or and right shift on naturals, bit by bit. */
module Bitwise {

  function Xor(a: nat, b: nat): nat
    decreases a + b
  {
    if a == 0 && b == 0 then 0 else (a + b) % 2 + 2 * Xor(a / 2, b / 2)
  }

  lemma XorHalf(a: nat, b: nat)
    ensures Xor(a, b) / 2 == Xor(a / 2, b / 2) && Xor(a, b) % 2 == (a + b) % 2
  {
  }

  lemma {:induction false} XorZero(a: nat)
    ensures Xor(a, 0) == a && Xor(0, a) == a
  {
    if a == 0 {
    } else {
      XorZero(a / 2);
    }
  }

  lemma {:induction false} XorSelf(a: nat)
    ensures Xor(a, a) == 0
  {
    if a == 0 {
    } else {
      XorSelf(a / 2);
    }
  }

  lemma {:induction false} XorAssociates(a: nat, b: nat, c: nat)
    ensures Xor(Xor(a, b), c) == Xor(a, Xor(b, c))
    decreases a + b + c
  {
    if a + b + c == 0 {
    } else {
      hide Xor;
      XorAssociates(a / 2, b / 2, c / 2);
      XorHalf(a, b);
      XorHalf(b, c);
      XorHalf(Xor(a, b), c);
      XorHalf(a, Xor(b, c));
      Parity(a, b, c, Xor(a, b), Xor(b, c));
      HalfAndParity(Xor(Xor(a, b), c), Xor(a, Xor(b, c)));
    }
  }

  lemma Parity(a: nat, b: nat, c: nat, ab: nat, bc: nat)
    requires ab % 2 == (a + b) % 2 && bc % 2 == (b + c) % 2
    ensures (ab + c) % 2 == (a + bc) % 2
  {
  }

  lemma HalfAndParity(x: nat, y: nat)
    requires x / 2 == y / 2 && x % 2 == y % 2
    ensures x == y
  {
  }

  /** `x >> k`. */
  function Shift(x: nat, k: nat): nat {
    if k == 0 then x else Shift(x / 2, k - 1)
  }

  lemma {:induction false} ShiftShift(x: nat, j: nat, k: nat)
    ensures Shift(Shift(x, j), k) == Shift(x, j + k)
    decreases j
  {
    if j == 0 {
    } else {
      ShiftShift(x / 2, j - 1, k);
    }
  }

  lemma {:induction false} ShiftXor(a: nat, b: nat, k: nat)
    ensures Shift(Xor(a, b), k) == Xor(Shift(a, k), Shift(b, k))
    decreases k
  {
    if k == 0 {
    } else {
      XorHalf(a, b);
      ShiftXor(a / 2, b / 2, k - 1);
    }
  }

  function Pow2(k: nat): (p: nat)
    ensures p > 0
  {
    if k == 0 then 1 else 2 * Pow2(k - 1)
  }

  lemma {:induction false} ShiftIsZero(x: nat, k: nat)
    ensures Shift(x, k) == 0 <==> x < Pow2(k)
    decreases k
  {
    if k == 0 {
    } else {
      ShiftIsZero(x / 2, k - 1);
    }
  }

  lemma {:induction false} Pow2Add(j: nat, k: nat)
    ensures Pow2(j + k) == Pow2(j) * Pow2(k)
    decreases j
  {
    if j == 0 {
    } else {
      Pow2Add(j - 1, k);
    }
  }

  lemma {:induction false} ShiftZero(k: nat)
    ensures Shift(0, k) == 0
  {
    if k == 0 {
    } else {
      ShiftZero(k - 1);
    }
  }

  lemma {:induction false} ShiftShrinks(x: nat, k: nat)
    ensures Shift(x, k) <= x
    decreases k
  {
    if k == 0 {
    } else {
      ShiftShrinks(x / 2, k - 1);
    }
  }

  /** Exclusive-or with the same number twice gives the number back. */
  lemma XorTwice(a: nat, b: nat)
    ensures Xor(Xor(a, b), b) == a
  {
    XorAssociates(a, b, b);
    XorSelf(b);
    XorZero(a);
  }

  /** Exclusive-or stays within the bits of its operands. */
  lemma XorBound(a: nat, b: nat, k: nat)
    requires a < Pow2(k) && b < Pow2(k)
    ensures Xor(a, b) < Pow2(k)
  {
    ShiftXor(a, b, k);
    ShiftIsZero(a, k);
    ShiftIsZero(b, k);
    ShiftIsZero(Xor(a, b), k);
  }

  /** A shift is a division by a power of two, rounded down. */
  lemma {:induction false} ShiftDivides(x: nat, k: nat)
    ensures Shift(x, k) * Pow2(k) <= x < (Shift(x, k) + 1) * Pow2(k)
    decreases k
  {
    if k == 0 {
    } else {
      ShiftDivides(x / 2, k - 1);
      DoubleBounds(x, Shift(x / 2, k - 1), Pow2(k - 1));
    }
  }

  lemma DoubleBounds(x: nat, s: nat, p: nat)
    requires s * p <= x / 2 < (s + 1) * p
    ensures s * (2 * p) <= x < (s + 1) * (2 * p)
  {
    assert s * (2 * p) == 2 * (s * p);
    assert (s + 1) * (2 * p) == 2 * ((s + 1) * p);
  }
}
