/**
 The load generator's SplitMix64 random numbers. Words are integers below 2^64;
 addition and multiplication wrap explicitly, and exclusive-or is bitwise on
 naturals.
 */
module SplitMix {
  import opened Bytes
  import opened Bitwise

  type word = w: int | 0 <= w < 0x1_0000_0000_0000_0000

  lemma Pow2Of8()
    ensures Pow2(8) == 256
  {
  }

  lemma Pow2Of64()
    ensures Pow2(64) == TWO64
  {
    hide Pow2;
    Pow2Of8();
    Pow2Add(8, 8);
    Pow2Add(16, 16);
    Pow2Add(32, 32);
  }

  lemma WordShiftsOut(x: word, k: nat)
    requires k >= 64
    ensures Shift(x, k) == 0
  {
    Pow2Of64();
    ShiftIsZero(x, 64);
    ShiftShift(x, 64, k - 64);
    ShiftZero(k - 64);
  }

  lemma XorIsWord(a: word, b: word)
    ensures Xor(a, b) < TWO64
  {
    Pow2Of64();
    XorBound(a, b, 64);
  }

  // ------------------------------------------------------------- xor of shifts

  /** `z ^ (z >> k)`. */
  function XorShift(z: word, k: nat): word {
    XorShiftIsWord(z, k);
    Xor(z, Shift(z, k))
  }

  lemma XorShiftIsWord(z: word, k: nat)
    ensures Xor(z, Shift(z, k)) < TWO64
  {
    ShiftShrinks(z, k);
    XorIsWord(z, Shift(z, k));
  }

  /** The inverse of `XorShift`, for shifts of at least a third of a word. */
  function UnXorShift(z: word, k: nat): word {
    XorShiftIsWord(z, k);
    ShiftShrinks(z, 2 * k);
    XorIsWord(Xor(z, Shift(z, k)), Shift(z, 2 * k));
    Xor(Xor(z, Shift(z, k)), Shift(z, 2 * k))
  }

  /** Exclusive-or of three successive shifts, telescoped. */
  lemma Telescope(x: nat, a: nat, b: nat)
    ensures Xor(Xor(Xor(x, a), Xor(a, b)), b) == x
    ensures Xor(Xor(Xor(x, a), b), Xor(a, b)) == x
  {
    XorAssociates(x, a, Xor(a, b));
    XorAssociates(a, a, b);
    XorSelf(a);
    XorZero(b);
    XorAssociates(x, b, b);
    XorSelf(b);
    XorZero(x);
    XorAssociates(x, a, b);
    XorAssociates(x, Xor(a, b), Xor(a, b));
    XorSelf(Xor(a, b));
  }

  /** Shifting `z ^ (z >> k)`, where everything beyond three shifts is gone. */
  lemma ShiftsOf(z: word, k: nat)
    requires 3 * k >= 64
    ensures Shift(XorShift(z, k), k) == Xor(Shift(z, k), Shift(z, 2 * k))
    ensures Shift(XorShift(z, k), 2 * k) == Shift(z, 2 * k)
  {
    ShiftXor(z, Shift(z, k), k);
    ShiftShift(z, k, k);
    ShiftXor(z, Shift(z, k), 2 * k);
    ShiftShift(z, k, 2 * k);
    WordShiftsOut(z, 3 * k);
    XorZero(Shift(z, 2 * k));
  }

  lemma XorShiftBijective(z: word, k: nat)
    requires 3 * k >= 64
    ensures UnXorShift(XorShift(z, k), k) == z
    ensures XorShift(UnXorShift(z, k), k) == z
  {
    var a, b := Shift(z, k), Shift(z, 2 * k);
    ShiftsOf(z, k);
    Telescope(z, a, b);
    // the other direction: shift (z ^ a) ^ b by k
    ShiftXor(Xor(z, a), b, k);
    ShiftShift(z, 2 * k, k);
    WordShiftsOut(z, 3 * k);
    XorZero(Xor(a, b));
  }

  // ------------------------------------------------ multiplication and addition

  const GAMMA: word := 0x9e3779b97f4a7c15
  const MUL1: word := 0xbf58476d1ce4e5b9
  const MUL2: word := 0x94d049bb133111eb

  const GAMMA_INVERSE: word := 0xf1de83e19937733d
  const MUL1_INVERSE: word := 0x96de1b173f119089
  const MUL2_INVERSE: word := 0x319642b2d24d8ec3

  /** 64-bit multiplication. */
  function Mul(z: word, c: word): word { (z * c) % TWO64 }

  lemma ModOfMultiple(z: word, j: int)
    ensures (z + j * TWO64) % TWO64 == z
  {
  }

  /** Multiplying by `c` and then by its inverse modulo 2^64 changes nothing. */
  lemma MulInverse(z: word, c: word, d: word, q: nat)
    requires c * d == 1 + q * TWO64
    ensures Mul(Mul(z, c), d) == z
  {
    var t := (z * c) / TWO64;
    assert Mul(z, c) == z * c - t * TWO64;
    calc {
      Mul(z, c) * d;
      (z * c - t * TWO64) * d;
      z * (c * d) - t * TWO64 * d;
      z * (1 + q * TWO64) - t * TWO64 * d;
      z + (z * q - t * d) * TWO64;
    }
    ModOfMultiple(z, z * q - t * d);
  }

  lemma Inverses()
    ensures GAMMA * GAMMA_INVERSE == 1 + 10771413168148108919 * TWO64
    ensures MUL1 * MUL1_INVERSE == 1 + 8125545580553827436 * TWO64
    ensures MUL2 * MUL2_INVERSE == 1 + 2077064247507883091 * TWO64
  {
  }

  // -------------------------------------------------------------- the generator

  /** The output function of `next_rng`. */
  function Mix(z: word): word {
    XorShift(Mul(XorShift(Mul(XorShift(z, 30), MUL1), 27), MUL2), 31)
  }

  function Unmix(w: word): word {
    UnXorShift(Mul(UnXorShift(Mul(UnXorShift(w, 31), MUL2_INVERSE), 27), MUL1_INVERSE), 30)
  }

  /** The output function is a bijection on 64-bit words. */
  lemma MixBijective(z: word)
    ensures Unmix(Mix(z)) == z
    ensures Mix(Unmix(z)) == z
  {
    hide XorShift, UnXorShift, Mul;
    Inverses();
    var a := XorShift(z, 30);
    var b := Mul(a, MUL1);
    var c := XorShift(b, 27);
    var d := Mul(c, MUL2);
    XorShiftBijective(z, 30);
    MulInverse(a, MUL1, MUL1_INVERSE, 8125545580553827436);
    XorShiftBijective(b, 27);
    MulInverse(c, MUL2, MUL2_INVERSE, 2077064247507883091);
    XorShiftBijective(d, 31);
    var a' := UnXorShift(z, 31);
    var b' := Mul(a', MUL2_INVERSE);
    var c' := UnXorShift(b', 27);
    var d' := Mul(c', MUL1_INVERSE);
    XorShiftBijective(z, 31);
    MulInverse(a', MUL2_INVERSE, MUL2, 2077064247507883091);
    XorShiftBijective(b', 27);
    MulInverse(c', MUL1_INVERSE, MUL1, 8125545580553827436);
    XorShiftBijective(d', 30);
  }

  lemma SmallShiftsOut(x: word, k: nat)
    requires x < Pow2(k)
    ensures XorShift(x, k) == x
  {
    ShiftIsZero(x, k);
    XorZero(x);
  }

  /** An output written out: in the state that the first step takes to the inverse of the first
      multiplier, the second step starts from 1 and the third from the second multiplier. */
  lemma KnownOutput()
    ensures Mix(UnXorShift(0x96de1b173f119089, 30)) == XorShift(0x94d049bb133111eb, 31)
  {
    hide XorShift, UnXorShift, Mul;
    var z := UnXorShift(0x96de1b173f119089, 30);
    XorShiftBijective(0x96de1b173f119089, 30);
    assert XorShift(z, 30) == 0x96de1b173f119089;
    TwoProducts();
    Pow2Add(1, 26);
    SmallShiftsOut(1, 27);
  }

  lemma TwoProducts()
    ensures Mul(0x96de1b173f119089, MUL1) == 1 && Mul(1, MUL2) == 0x94d049bb133111eb
  {
  }

  /** The same as a call of the generator: the state before that one gives this output. */
  lemma KnownCall(state: word)
    requires (state + 0x9e3779b97f4a7c15) % TWO64 == UnXorShift(0x96de1b173f119089, 30)
    ensures Output(state, 0) == XorShift(0x94d049bb133111eb, 31)
  {
    hide XorShift, UnXorShift, Mix;
    KnownOutput();
    assert Advance(state, 0) == state;
  }

  /** `next_rng`. */
  method NextRng(state: word) returns (next: word, out: word)
    ensures next == Advance(state, 1) && out == Output(state, 0)
  {
    next := (state + GAMMA) % TWO64;
    var z := next;
    z := Mul(XorShift(z, 30), MUL1);
    z := Mul(XorShift(z, 27), MUL2);
    out := XorShift(z, 31);
    assert Advance(state, 0) == state;
  }

  /** The state after `k` calls. */
  function Advance(state: word, k: nat): word {
    if k == 0 then state else (Advance(state, k - 1) + GAMMA) % TWO64
  }

  /** What call number `k`, counted from 0, returns. */
  function Output(state: word, k: nat): word { Mix(Advance(state, k + 1)) }

  lemma {:induction false} AdvanceIs(state: word, k: nat)
    ensures Advance(state, k) == (state + k * GAMMA) % TWO64
  {
    if k == 0 {
    } else {
      AdvanceIs(state, k - 1);
      WrapAdd(state + (k - 1) * GAMMA, GAMMA);
    }
  }

  lemma AdvanceNone(state: word)
    ensures Advance(state, 0) == state
  {
  }

  /** The number of calls, modulo 2^64, that leads from `state` to `target`. */
  function Distance(state: word, target: word): word {
    Mul((target - state) % TWO64, GAMMA_INVERSE)
  }

  /** Every state is reached, and within one period only once. */
  lemma DistanceIsUnique(state: word, target: word, k: nat)
    requires k < TWO64
    ensures Advance(state, k) == target <==> k == Distance(state, target)
  {
    AdvanceIs(state, k);
    Inverses();
    var diff: word := (target - state) % TWO64;
    MulInverse(k, GAMMA, GAMMA_INVERSE, 10771413168148108919);
    MulInverse(diff, GAMMA_INVERSE, GAMMA, 10771413168148108919);
    StepsAdd(state, target, k * GAMMA);
  }

  lemma StepsAdd(state: word, target: word, sum: nat)
    ensures (state + sum) % TWO64 == target <==> sum % TWO64 == (target - state) % TWO64
  {
  }

  /** The period is exactly 2^64: the state returns after that many calls and not before. */
  lemma FullPeriod(state: word, k: nat)
    ensures Advance(state, TWO64) == state
    ensures 0 < k < TWO64 ==> Advance(state, k) != state
  {
    AdvanceIs(state, TWO64);
    ModOfMultiple(state, GAMMA);
    if 0 < k < TWO64 {
      DistanceIsUnique(state, state, 0);
      DistanceIsUnique(state, state, k);
    }
  }

  /** The call, counted from 0, that returns `w`. */
  function CallReturning(state: word, w: word): word {
    (Distance(state, Unmix(w)) - 1) % TWO64
  }

  /** In one period every 64-bit word is returned exactly once. */
  lemma EveryWordOnce(state: word, w: word, k: nat)
    requires k < TWO64
    ensures Output(state, k) == w <==> k == CallReturning(state, w)
  {
    hide Mix, Unmix, Distance, Advance;
    MixBijective(Advance(state, k + 1));
    MixBijective(w);
    if k + 1 < TWO64 {
      DistanceIsUnique(state, Unmix(w), k + 1);
    } else {
      FullPeriod(state, 0);
      DistanceIsUnique(state, Unmix(w), 0);
      AdvanceNone(state);
    }
  }
}
