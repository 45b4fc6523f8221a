/** Arithmetic in GF(2^6), the field the BCH decoder works in.

    An element is one of the integers 0..63; bit i of it is the coefficient of x^i of a
    polynomial over GF(2).  Addition (and subtraction) is bitwise exclusive or;
    multiplication is carry-less multiplication reduced modulo the primitive polynomial
    x^6 + x + 1 (the integer 67); the primitive element alpha is 2, the polynomial x.
    These are the operations the decoder takes from its finite-field library, written out
    here.  The field laws are proved, not assumed: exclusive or and the ring laws by
    induction over the bits, commutativity and associativity of multiplication through
    the fact that every nonzero element is a power of alpha (the exponent and logarithm
    tables below are checked against the definition of multiplication). */
module GF64 {
  import Bits

  /** The integers 0..63. */
  type Elem = x: int | 0 <= x < 64

  /** m: the field has 2^m elements. */
  const M: nat := 6
  /** Order of the multiplicative group, 2^m - 1. */
  const Order: nat := 63
  /** x^6 + x + 1. */
  const PrimitivePoly: nat := 67
  const Alpha: Elem := 2

  // ---------------------------------------------------------------------------
  // Bitwise exclusive or on naturals.
  // ---------------------------------------------------------------------------

  /** Bitwise exclusive or, from the least significant bit up. */
  function Xor(a: nat, b: nat): nat
    decreases a + b
  {
    if a == 0 && b == 0 then 0
    else 2 * Xor(a / 2, b / 2) + (if a % 2 == b % 2 then 0 else 1)
  }

  lemma {:induction false} XorZero(a: nat)
    ensures Xor(a, 0) == a && Xor(0, a) == a
  {
    if a != 0 {
      XorZero(a / 2);
    }
  }

  lemma {:induction false} XorComm(a: nat, b: nat)
    ensures Xor(a, b) == Xor(b, a)
    decreases a + b
  {
    if a != 0 || b != 0 {
      XorComm(a / 2, b / 2);
    }
  }

  lemma {:induction false} XorIsZero(a: nat, b: nat)
    ensures Xor(a, b) == 0 <==> a == b
    decreases a + b
  {
    if a != 0 || b != 0 {
      XorIsZero(a / 2, b / 2);
    }
  }

  lemma XorHalf(a: nat, b: nat)
    ensures Xor(a, b) / 2 == Xor(a / 2, b / 2)
    ensures Xor(a, b) % 2 == (if a % 2 == b % 2 then 0 else 1)
  {
  }

  lemma {:induction false} XorAssoc(a: nat, b: nat, c: nat)
    ensures Xor(Xor(a, b), c) == Xor(a, Xor(b, c))
    decreases a + b + c
  {
    if a != 0 || b != 0 || c != 0 {
      XorHalf(a, b);
      XorHalf(b, c);
      XorAssoc(a / 2, b / 2, c / 2);
    }
  }

  lemma XorShuffle(a: nat, b: nat, c: nat, d: nat)
    ensures Xor(Xor(a, b), Xor(c, d)) == Xor(Xor(a, c), Xor(b, d))
  {
    XorAssoc(a, b, Xor(c, d));
    XorAssoc(b, c, d);
    XorComm(b, c);
    XorAssoc(c, b, d);
    XorAssoc(a, c, Xor(b, d));
  }

  lemma XorDouble(a: nat, b: nat)
    ensures Xor(2 * a, 2 * b) == 2 * Xor(a, b)
  {
  }

  lemma HalveTwice(x: nat)
    ensures x / 2 / 2 == x / 4
  {
  }

  lemma HalveFive(x: nat)
    ensures x / 2 / 2 / 2 / 2 / 2 == x / 32
  {
    HalveTwice(x);
    HalveTwice(x / 4);
    assert x / 4 / 4 == x / 16;
  }

  /** The bits of a xor b from bit 5 up are the xor of the bits of a and b from bit 5 up. */
  lemma XorDiv32(a: nat, b: nat)
    ensures Xor(a, b) / 32 == Xor(a / 32, b / 32)
  {
    XorHalf(a, b);
    XorHalf(a / 2, b / 2);
    XorHalf(a / 2 / 2, b / 2 / 2);
    XorHalf(a / 2 / 2 / 2, b / 2 / 2 / 2);
    XorHalf(a / 2 / 2 / 2 / 2, b / 2 / 2 / 2 / 2);
    HalveFive(a);
    HalveFive(b);
    HalveFive(Xor(a, b));
  }

  lemma XorDiv64(a: nat, b: nat)
    ensures Xor(a, b) / 64 == Xor(a / 64, b / 64)
  {
    XorDiv32(a, b);
    XorHalf(a / 32, b / 32);
    assert a / 32 / 2 == a / 64 && b / 32 / 2 == b / 64 && Xor(a, b) / 32 / 2 == Xor(a, b) / 64;
  }

  // ---------------------------------------------------------------------------
  // The field operations.
  // ---------------------------------------------------------------------------

  /** Field addition (and subtraction): exclusive or. */
  function Add(a: Elem, b: Elem): Elem {
    XorDiv64(a, b);
    XorZero(0);
    Xor(a, b)
  }

  /** What is subtracted after the shift: 67 when a degree-6 term appears. */
  function Reduction(a: Elem): nat {
    if a < 32 then 0 else PrimitivePoly
  }

  lemma ReducedBelow(a: Elem)
    ensures Xor(2 * a, Reduction(a)) < 64
  {
    if a < 32 {
      XorZero(2 * a);
    } else {
      XorDiv64(2 * a, PrimitivePoly);
      XorIsZero(1, 1);
    }
  }

  /** Multiplication by x: shift left one place, then subtract (exclusive-or) the
      primitive polynomial when a degree-6 term has appeared. */
  function MulX(a: Elem): Elem {
    ReducedBelow(a);
    Xor(2 * a, Reduction(a))
  }

  /** b's low bit selects a or 0. */
  function Sel(b: Elem, a: Elem): Elem {
    if b % 2 == 0 then 0 else a
  }

  /** a times the polynomial formed by the low k bits of b, by Horner's scheme over those
      bits from the highest down, reducing after every shift. */
  function MulLow(a: Elem, b: Elem, k: nat): Elem {
    if k == 0 then 0 else Add(MulX(MulLow(a, b / 2, k - 1)), Sel(b, a))
  }

  /** Field multiplication: the carry-less product of a and b reduced modulo 67. */
  function Mul(a: Elem, b: Elem): Elem {
    MulLow(a, b, M)
  }

  /** x^e by repeated multiplication, x^0 = 1. */
  function Power(x: Elem, e: nat): Elem {
    if e == 0 then 1 else Mul(Power(x, e - 1), x)
  }

  /** alpha^e, computed by e multiplications by x (equal to Power(Alpha, e), see
      AlphaPowIsPower). */
  function AlphaPow(e: nat): Elem {
    if e == 0 then 1 else MulX(AlphaPow(e - 1))
  }

  /** alpha^(-j), written as alpha^((63 - j) mod 63). */
  function AlphaInvPow(j: nat): Elem {
    AlphaPow((Order - j % Order) % Order)
  }

  /** b * alpha^i, computed by i multiplications by x. */
  function TimesAlphaPow(b: Elem, i: nat): Elem {
    if i == 0 then b else MulX(TimesAlphaPow(b, i - 1))
  }

  // ---------------------------------------------------------------------------
  // One-step facts about Add, MulX and Sel.
  // ---------------------------------------------------------------------------

  lemma AddComm(a: Elem, b: Elem)
    ensures Add(a, b) == Add(b, a)
  {
    XorComm(a, b);
  }

  lemma AddAssoc(a: Elem, b: Elem, c: Elem)
    ensures Add(Add(a, b), c) == Add(a, Add(b, c))
  {
    XorAssoc(a, b, c);
  }

  lemma AddZero(a: Elem)
    ensures Add(a, 0) == a && Add(0, a) == a
  {
    XorZero(a);
  }

  /** Every element is its own negative. */
  lemma AddSelf(a: Elem, b: Elem)
    ensures Add(a, b) == 0 <==> a == b
  {
    XorIsZero(a, b);
  }

  lemma AddShuffle(a: Elem, b: Elem, c: Elem, d: Elem)
    ensures Add(Add(a, b), Add(c, d)) == Add(Add(a, c), Add(b, d))
  {
    XorShuffle(a, b, c, d);
  }

  /** The degree-5 bit of a sum is the sum of the degree-5 bits, so the reduction
      applied after a shift is additive too. */
  lemma ReductionAdd(a: Elem, b: Elem)
    ensures Reduction(Add(a, b)) == Xor(Reduction(a), Reduction(b))
  {
    XorDiv32(a, b);
    XorZero(0);
    XorZero(1);
    XorZero(PrimitivePoly);
    XorIsZero(1, 1);
    XorIsZero(PrimitivePoly, PrimitivePoly);
  }

  lemma MulXLinear(a: Elem, b: Elem)
    ensures MulX(Add(a, b)) == Add(MulX(a), MulX(b))
  {
    XorDouble(a, b);
    ReductionAdd(a, b);
    XorShuffle(2 * a, 2 * b, Reduction(a), Reduction(b));
  }

  lemma MulXZero()
    ensures MulX(0) == 0
  {
    XorZero(0);
  }

  lemma MulXNonzero(a: Elem)
    ensures MulX(a) == 0 <==> a == 0
  {
    XorIsZero(2 * a, Reduction(a));
  }

  lemma SelLinear(b: Elem, a: Elem, a': Elem)
    ensures Sel(b, Add(a, a')) == Add(Sel(b, a), Sel(b, a'))
  {
    AddZero(0);
  }

  lemma StepLinear(b: Elem, a: Elem, a': Elem, p: Elem, q: Elem)
    ensures Add(MulX(Add(p, q)), Sel(b, Add(a, a')))
         == Add(Add(MulX(p), Sel(b, a)), Add(MulX(q), Sel(b, a')))
  {
    MulXLinear(p, q);
    SelLinear(b, a, a');
    AddShuffle(MulX(p), MulX(q), Sel(b, a), Sel(b, a'));
  }

  lemma StepMulX(b: Elem, a: Elem, p: Elem)
    ensures MulX(Add(MulX(p), Sel(b, a))) == Add(MulX(MulX(p)), Sel(b, MulX(a)))
  {
    MulXLinear(MulX(p), Sel(b, a));
    MulXZero();
  }

  /** b is twice its upper bits plus its low bit. */
  lemma BitSplit(b: Elem)
    ensures Add(MulX(b / 2), Sel(b, 1)) == b
  {
    XorZero(2 * (b / 2));
    XorZero(b / 2);
  }

  // ---------------------------------------------------------------------------
  // Ring laws by induction over the bits of the multiplier.
  // ---------------------------------------------------------------------------

  lemma {:induction false} MulLowZeroLeft(b: Elem, k: nat)
    ensures MulLow(0, b, k) == 0
  {
    if k != 0 {
      MulLowZeroLeft(b / 2, k - 1);
      MulXZero();
      AddZero(0);
    }
  }

  lemma {:induction false} MulLowZeroRight(a: Elem, k: nat)
    ensures MulLow(a, 0, k) == 0
  {
    if k != 0 {
      MulLowZeroRight(a, k - 1);
      MulXZero();
      AddZero(0);
    }
  }

  lemma {:induction false} MulLowOneLeft(b: Elem, k: nat)
    requires b < Bits.Pow2(k)
    ensures MulLow(1, b, k) == b
  {
    if k != 0 {
      MulLowOneLeft(b / 2, k - 1);
      BitSplit(b);
    }
  }

  lemma {:induction false} MulLowDistribLeft(a: Elem, a': Elem, b: Elem, k: nat)
    ensures MulLow(Add(a, a'), b, k) == Add(MulLow(a, b, k), MulLow(a', b, k))
  {
    if k != 0 {
      MulLowDistribLeft(a, a', b / 2, k - 1);
      StepLinear(b, a, a', MulLow(a, b / 2, k - 1), MulLow(a', b / 2, k - 1));
    }
  }

  lemma {:induction false} MulLowMulXLeft(a: Elem, b: Elem, k: nat)
    ensures MulLow(MulX(a), b, k) == MulX(MulLow(a, b, k))
  {
    if k != 0 {
      MulLowMulXLeft(a, b / 2, k - 1);
      StepMulX(b, a, MulLow(a, b / 2, k - 1));
    } else {
      MulXZero();
    }
  }

  lemma MulZero(a: Elem)
    ensures Mul(a, 0) == 0 && Mul(0, a) == 0
  {
    MulLowZeroRight(a, M);
    MulLowZeroLeft(a, M);
  }

  lemma MulOne(a: Elem)
    ensures Mul(1, a) == a && Mul(a, 1) == a
  {
    MulLowOneLeft(a, M);
    MulLowZeroRight(a, M - 1);
    MulXZero();
    AddZero(a);
  }

  /** Multiplying by alpha is multiplying by x. */
  lemma MulByAlpha(a: Elem)
    ensures Mul(a, Alpha) == MulX(a)
  {
    MulLowZeroRight(a, M - 2);
    MulXZero();
    AddZero(a);
    AddZero(MulX(a));
    assert MulLow(a, 1, M - 1) == a;
  }

  lemma MulXLeft(a: Elem, b: Elem)
    ensures Mul(MulX(a), b) == MulX(Mul(a, b))
  {
    MulLowMulXLeft(a, b, M);
  }

  lemma DistribLeft(a: Elem, b: Elem, c: Elem)
    ensures Mul(Add(a, b), c) == Add(Mul(a, c), Mul(b, c))
  {
    MulLowDistribLeft(a, b, c, M);
  }

  // ---------------------------------------------------------------------------
  // Powers of alpha.
  // ---------------------------------------------------------------------------

  lemma {:induction false} AlphaPowIsPower(e: nat)
    ensures AlphaPow(e) == Power(Alpha, e)
  {
    if e != 0 {
      AlphaPowIsPower(e - 1);
      MulByAlpha(AlphaPow(e - 1));
    }
  }

  lemma {:induction false} MulAlphaPowLeft(i: nat, b: Elem)
    ensures Mul(AlphaPow(i), b) == TimesAlphaPow(b, i)
  {
    if i == 0 {
      MulOne(b);
    } else {
      MulAlphaPowLeft(i - 1, b);
      MulXLeft(AlphaPow(i - 1), b);
    }
  }

  lemma {:induction false} TimesAlphaPowOfAlphaPow(j: nat, i: nat)
    ensures TimesAlphaPow(AlphaPow(j), i) == AlphaPow(j + i)
  {
    if i != 0 {
      TimesAlphaPowOfAlphaPow(j, i - 1);
          }
  }

  lemma {:induction false} TimesAlphaPowMulLeft(b: Elem, c: Elem, i: nat)
    ensures Mul(TimesAlphaPow(b, i), c) == TimesAlphaPow(Mul(b, c), i)
  {
    if i != 0 {
      TimesAlphaPowMulLeft(b, c, i - 1);
      MulXLeft(TimesAlphaPow(b, i - 1), c);
    }
  }

  lemma AlphaPowAdd(m: nat, n: nat)
    ensures Mul(AlphaPow(m), AlphaPow(n)) == AlphaPow(m + n)
  {
    MulAlphaPowLeft(m, AlphaPow(n));
    TimesAlphaPowOfAlphaPow(n, m);
  }

  lemma {:induction false} AlphaPowNonzero(e: nat)
    ensures AlphaPow(e) != 0
  {
    if e != 0 {
      AlphaPowNonzero(e - 1);
      MulXNonzero(AlphaPow(e - 1));
    }
  }

  // ---------------------------------------------------------------------------
  // A 7-bit mirror of MulX, used only to check the concrete tables below: the
  // solver evaluates bit-vector operations on constants directly.
  // ---------------------------------------------------------------------------

  lemma HalfBits(a: nat)
    requires a < 128
    ensures ((a / 2) as bv7) == (a as bv7) >> 1
    ensures (a % 2 == 0) == ((a as bv7) & 1 == 0)
  {
    HalfShift(a);
    LowBit(a);
  }

  lemma HalfShift(a: nat)
    requires a < 128
    ensures ((a / 2) as bv7) == (a as bv7) >> 1
  {
  }

  lemma LowBit(a: nat)
    requires a < 128
    ensures (a % 2 == 0) == ((a as bv7) & 1 == 0)
  {
  }

  lemma CombineBits(x: bv7, y: bv7)
    ensures ((x ^ y) as int) == 2 * (((x >> 1) ^ (y >> 1)) as int) + (if x & 1 == y & 1 then 0 else 1)
  {
  }

  /** Xor is the exclusive or of bit-vectors. */
  lemma {:induction false} XorIsBits(a: nat, b: nat)
    requires a < 128 && b < 128
    ensures Xor(a, b) == ((a as bv7) ^ (b as bv7)) as int
    decreases a + b
  {
    if a != 0 || b != 0 {
      XorIsBits(a / 2, b / 2);
      HalfBits(a);
      HalfBits(b);
      CombineBits(a as bv7, b as bv7);
    }
  }

  function MulXBits(x: bv7): bv7 {
    if x & 32 == 0 then x << 1 else (x << 1) ^ 67
  }

  lemma ShiftBack(x: bv7)
    requires x & 1 == 0
    ensures (x >> 1) << 1 == x
  {
  }

  lemma ShiftBits(a: Elem)
    ensures ((2 * a) as bv7) == (a as bv7) << 1
  {
    HalfBits(2 * a);
    ShiftBack((2 * a) as bv7);
  }

  lemma TopBit(a: Elem)
    ensures (a < 32) == ((a as bv7) & 32 == 0)
  {
  }

  lemma MulXIsBits(a: Elem)
    ensures MulX(a) == MulXBits(a as bv7) as int
  {
    XorIsBits(2 * a, Reduction(a));
    ShiftBits(a);
    TopBit(a);
  }

  function ExpBits(e: nat): bv7 {
    if e == 0 then 1 else MulXBits(ExpBits(e - 1))
  }

  lemma {:induction false} AlphaPowIsExpBits(e: nat)
    ensures AlphaPow(e) == ExpBits(e) as int
  {
    if e != 0 {
      AlphaPowIsExpBits(e - 1);
      MulXIsBits(AlphaPow(e - 1));
    }
  }

  /** alpha^0 .. alpha^63 in the 7-bit mirror, each from the previous one by one
      multiplication by x. */
  lemma ExpTableLow()
    ensures ExpBits(0) == 1
    ensures ExpBits(1) == 2
    ensures ExpBits(2) == 4
    ensures ExpBits(3) == 8
    ensures ExpBits(4) == 16
    ensures ExpBits(5) == 32
    ensures ExpBits(6) == 3
    ensures ExpBits(7) == 6
    ensures ExpBits(8) == 12
    ensures ExpBits(9) == 24
    ensures ExpBits(10) == 48
    ensures ExpBits(11) == 35
    ensures ExpBits(12) == 5
    ensures ExpBits(13) == 10
    ensures ExpBits(14) == 20
    ensures ExpBits(15) == 40
  {
  }

  lemma ExpTableMid()
    ensures ExpBits(16) == 19
    ensures ExpBits(17) == 38
    ensures ExpBits(18) == 15
    ensures ExpBits(19) == 30
    ensures ExpBits(20) == 60
    ensures ExpBits(21) == 59
    ensures ExpBits(22) == 53
    ensures ExpBits(23) == 41
    ensures ExpBits(24) == 17
    ensures ExpBits(25) == 34
    ensures ExpBits(26) == 7
    ensures ExpBits(27) == 14
    ensures ExpBits(28) == 28
    ensures ExpBits(29) == 56
    ensures ExpBits(30) == 51
    ensures ExpBits(31) == 37
  {
    ExpTableLow();
  }

  lemma ExpTableHigh()
    ensures ExpBits(32) == 9
    ensures ExpBits(33) == 18
    ensures ExpBits(34) == 36
    ensures ExpBits(35) == 11
    ensures ExpBits(36) == 22
    ensures ExpBits(37) == 44
    ensures ExpBits(38) == 27
    ensures ExpBits(39) == 54
    ensures ExpBits(40) == 47
    ensures ExpBits(41) == 29
    ensures ExpBits(42) == 58
    ensures ExpBits(43) == 55
    ensures ExpBits(44) == 45
    ensures ExpBits(45) == 25
    ensures ExpBits(46) == 50
    ensures ExpBits(47) == 39
  {
    ExpTableMid();
  }

  lemma ExpTableTop()
    ensures ExpBits(48) == 13
    ensures ExpBits(49) == 26
    ensures ExpBits(50) == 52
    ensures ExpBits(51) == 43
    ensures ExpBits(52) == 21
    ensures ExpBits(53) == 42
    ensures ExpBits(54) == 23
    ensures ExpBits(55) == 46
    ensures ExpBits(56) == 31
    ensures ExpBits(57) == 62
    ensures ExpBits(58) == 63
    ensures ExpBits(59) == 61
    ensures ExpBits(60) == 57
    ensures ExpBits(61) == 49
    ensures ExpBits(62) == 33
    ensures ExpBits(63) == 1
  {
    ExpTableHigh();
  }

  lemma ExpTable()
    ensures ExpBits(0) == 1
         && ExpBits(1) == 2
         && ExpBits(2) == 4
         && ExpBits(3) == 8
         && ExpBits(4) == 16
         && ExpBits(5) == 32
         && ExpBits(6) == 3
         && ExpBits(7) == 6
         && ExpBits(8) == 12
         && ExpBits(9) == 24
         && ExpBits(10) == 48
         && ExpBits(11) == 35
         && ExpBits(12) == 5
         && ExpBits(13) == 10
         && ExpBits(14) == 20
         && ExpBits(15) == 40
         && ExpBits(16) == 19
         && ExpBits(17) == 38
         && ExpBits(18) == 15
         && ExpBits(19) == 30
         && ExpBits(20) == 60
         && ExpBits(21) == 59
         && ExpBits(22) == 53
         && ExpBits(23) == 41
         && ExpBits(24) == 17
         && ExpBits(25) == 34
         && ExpBits(26) == 7
         && ExpBits(27) == 14
         && ExpBits(28) == 28
         && ExpBits(29) == 56
         && ExpBits(30) == 51
         && ExpBits(31) == 37
         && ExpBits(32) == 9
         && ExpBits(33) == 18
         && ExpBits(34) == 36
         && ExpBits(35) == 11
         && ExpBits(36) == 22
         && ExpBits(37) == 44
         && ExpBits(38) == 27
         && ExpBits(39) == 54
         && ExpBits(40) == 47
         && ExpBits(41) == 29
         && ExpBits(42) == 58
         && ExpBits(43) == 55
         && ExpBits(44) == 45
         && ExpBits(45) == 25
         && ExpBits(46) == 50
         && ExpBits(47) == 39
         && ExpBits(48) == 13
         && ExpBits(49) == 26
         && ExpBits(50) == 52
         && ExpBits(51) == 43
         && ExpBits(52) == 21
         && ExpBits(53) == 42
         && ExpBits(54) == 23
         && ExpBits(55) == 46
         && ExpBits(56) == 31
         && ExpBits(57) == 62
         && ExpBits(58) == 63
         && ExpBits(59) == 61
         && ExpBits(60) == 57
         && ExpBits(61) == 49
         && ExpBits(62) == 33
         && ExpBits(63) == 1
  {
    ExpTableTop();
  }

  /** The discrete logarithm to base alpha of a nonzero element (0 for 0). */
  function Log(a: Elem): nat {
    match a
    case 1 => 0
    case 2 => 1
    case 3 => 6
    case 4 => 2
    case 5 => 12
    case 6 => 7
    case 7 => 26
    case 8 => 3
    case 9 => 32
    case 10 => 13
    case 11 => 35
    case 12 => 8
    case 13 => 48
    case 14 => 27
    case 15 => 18
    case 16 => 4
    case 17 => 24
    case 18 => 33
    case 19 => 16
    case 20 => 14
    case 21 => 52
    case 22 => 36
    case 23 => 54
    case 24 => 9
    case 25 => 45
    case 26 => 49
    case 27 => 38
    case 28 => 28
    case 29 => 41
    case 30 => 19
    case 31 => 56
    case 32 => 5
    case 33 => 62
    case 34 => 25
    case 35 => 11
    case 36 => 34
    case 37 => 31
    case 38 => 17
    case 39 => 47
    case 40 => 15
    case 41 => 23
    case 42 => 53
    case 43 => 51
    case 44 => 37
    case 45 => 44
    case 46 => 55
    case 47 => 40
    case 48 => 10
    case 49 => 61
    case 50 => 46
    case 51 => 30
    case 52 => 50
    case 53 => 22
    case 54 => 39
    case 55 => 43
    case 56 => 29
    case 57 => 60
    case 58 => 42
    case 59 => 21
    case 60 => 20
    case 61 => 59
    case 62 => 57
    case 63 => 58
    case _ => 0
  }

  lemma PowLogBits0(a: Elem)
    requires 1 <= a < 8
    ensures Log(a) < Order && ExpBits(Log(a)) as int == a
  {
    ExpTable();
    if a == 1 {
    } else if a == 2 {
    } else if a == 3 {
    } else if a == 4 {
    } else if a == 5 {
    } else if a == 6 {
    } else {
      assert a == 7;
    }
  }

  lemma PowLogBits1(a: Elem)
    requires 8 <= a < 16
    ensures Log(a) < Order && ExpBits(Log(a)) as int == a
  {
    ExpTable();
    if a == 8 {
    } else if a == 9 {
    } else if a == 10 {
    } else if a == 11 {
    } else if a == 12 {
    } else if a == 13 {
    } else if a == 14 {
    } else {
      assert a == 15;
    }
  }

  lemma PowLogBits2(a: Elem)
    requires 16 <= a < 24
    ensures Log(a) < Order && ExpBits(Log(a)) as int == a
  {
    ExpTable();
    if a == 16 {
    } else if a == 17 {
    } else if a == 18 {
    } else if a == 19 {
    } else if a == 20 {
    } else if a == 21 {
    } else if a == 22 {
    } else {
      assert a == 23;
    }
  }

  lemma PowLogBits3(a: Elem)
    requires 24 <= a < 32
    ensures Log(a) < Order && ExpBits(Log(a)) as int == a
  {
    ExpTable();
    if a == 24 {
    } else if a == 25 {
    } else if a == 26 {
    } else if a == 27 {
    } else if a == 28 {
    } else if a == 29 {
    } else if a == 30 {
    } else {
      assert a == 31;
    }
  }

  lemma PowLogBits4(a: Elem)
    requires 32 <= a < 40
    ensures Log(a) < Order && ExpBits(Log(a)) as int == a
  {
    ExpTable();
    if a == 32 {
    } else if a == 33 {
    } else if a == 34 {
    } else if a == 35 {
    } else if a == 36 {
    } else if a == 37 {
    } else if a == 38 {
    } else {
      assert a == 39;
    }
  }

  lemma PowLogBits5(a: Elem)
    requires 40 <= a < 48
    ensures Log(a) < Order && ExpBits(Log(a)) as int == a
  {
    ExpTable();
    if a == 40 {
    } else if a == 41 {
    } else if a == 42 {
    } else if a == 43 {
    } else if a == 44 {
    } else if a == 45 {
    } else if a == 46 {
    } else {
      assert a == 47;
    }
  }

  lemma PowLogBits6(a: Elem)
    requires 48 <= a < 56
    ensures Log(a) < Order && ExpBits(Log(a)) as int == a
  {
    ExpTable();
    if a == 48 {
    } else if a == 49 {
    } else if a == 50 {
    } else if a == 51 {
    } else if a == 52 {
    } else if a == 53 {
    } else if a == 54 {
    } else {
      assert a == 55;
    }
  }

  lemma PowLogBits7(a: Elem)
    requires 56 <= a < 64
    ensures Log(a) < Order && ExpBits(Log(a)) as int == a
  {
    ExpTable();
    if a == 56 {
    } else if a == 57 {
    } else if a == 58 {
    } else if a == 59 {
    } else if a == 60 {
    } else if a == 61 {
    } else if a == 62 {
    } else {
      assert a == 63;
    }
  }

  lemma OrderBits0(e: nat)
    requires 1 <= e < 16
    ensures ExpBits(e) != 1
  {
    ExpTableLow();
    if e == 1 {
    } else if e == 2 {
    } else if e == 3 {
    } else if e == 4 {
    } else if e == 5 {
    } else if e == 6 {
    } else if e == 7 {
    } else if e == 8 {
    } else if e == 9 {
    } else if e == 10 {
    } else if e == 11 {
    } else if e == 12 {
    } else if e == 13 {
    } else if e == 14 {
    } else {
      assert e == 15;
    }
  }

  lemma OrderBits1(e: nat)
    requires 16 <= e < 32
    ensures ExpBits(e) != 1
  {
    ExpTableMid();
    if e == 16 {
    } else if e == 17 {
    } else if e == 18 {
    } else if e == 19 {
    } else if e == 20 {
    } else if e == 21 {
    } else if e == 22 {
    } else if e == 23 {
    } else if e == 24 {
    } else if e == 25 {
    } else if e == 26 {
    } else if e == 27 {
    } else if e == 28 {
    } else if e == 29 {
    } else if e == 30 {
    } else {
      assert e == 31;
    }
  }

  lemma OrderBits2(e: nat)
    requires 32 <= e < 48
    ensures ExpBits(e) != 1
  {
    ExpTableHigh();
    if e == 32 {
    } else if e == 33 {
    } else if e == 34 {
    } else if e == 35 {
    } else if e == 36 {
    } else if e == 37 {
    } else if e == 38 {
    } else if e == 39 {
    } else if e == 40 {
    } else if e == 41 {
    } else if e == 42 {
    } else if e == 43 {
    } else if e == 44 {
    } else if e == 45 {
    } else if e == 46 {
    } else {
      assert e == 47;
    }
  }

  lemma OrderBits3(e: nat)
    requires 48 <= e < 63
    ensures ExpBits(e) != 1
  {
    ExpTableTop();
    if e == 48 {
    } else if e == 49 {
    } else if e == 50 {
    } else if e == 51 {
    } else if e == 52 {
    } else if e == 53 {
    } else if e == 54 {
    } else if e == 55 {
    } else if e == 56 {
    } else if e == 57 {
    } else if e == 58 {
    } else if e == 59 {
    } else if e == 60 {
    } else if e == 61 {
    } else {
      assert e == 62;
    }
  }

  /** Every nonzero element is a power of alpha: alpha is primitive. */
  lemma PowLog(a: Elem)
    requires a != 0
    ensures Log(a) < Order && AlphaPow(Log(a)) == a
  {
    if a < 8 {
      PowLogBits0(a);
    } else if a < 16 {
      PowLogBits1(a);
    } else if a < 24 {
      PowLogBits2(a);
    } else if a < 32 {
      PowLogBits3(a);
    } else if a < 40 {
      PowLogBits4(a);
    } else if a < 48 {
      PowLogBits5(a);
    } else if a < 56 {
      PowLogBits6(a);
    } else {
      PowLogBits7(a);
    }
    AlphaPowIsExpBits(Log(a));
  }

  // ---------------------------------------------------------------------------
  // Commutativity and associativity, through the powers of alpha.
  // ---------------------------------------------------------------------------

  lemma PowersCommute(a: Elem, b: Elem, i: nat, j: nat)
    requires AlphaPow(i) == a && AlphaPow(j) == b
    ensures Mul(a, b) == Mul(b, a)
  {
    AlphaPowAdd(i, j);
    AlphaPowAdd(j, i);
  }

  lemma MulComm(a: Elem, b: Elem)
    ensures Mul(a, b) == Mul(b, a)
  {
    MulZero(a);
    MulZero(b);
    if a != 0 && b != 0 {
      PowLog(a);
      PowLog(b);
      PowersCommute(a, b, Log(a), Log(b));
    }
  }

  lemma MulAssoc(a: Elem, b: Elem, c: Elem)
    ensures Mul(Mul(a, b), c) == Mul(a, Mul(b, c))
  {
    MulZero(c);
    MulZero(Mul(b, c));
    MulZero(b);
    if a != 0 {
      PowLog(a);
      MulAlphaPowLeft(Log(a), b);
      MulAlphaPowLeft(Log(a), Mul(b, c));
      TimesAlphaPowMulLeft(b, c, Log(a));
    }
  }

  lemma DistribRight(a: Elem, b: Elem, c: Elem)
    ensures Mul(a, Add(b, c)) == Add(Mul(a, b), Mul(a, c))
  {
    MulComm(a, Add(b, c));
    MulComm(a, b);
    MulComm(a, c);
    DistribLeft(b, c, a);
  }

  lemma PowersNonzero(a: Elem, b: Elem, i: nat, j: nat)
    requires AlphaPow(i) == a && AlphaPow(j) == b
    ensures Mul(a, b) != 0
  {
    AlphaPowAdd(i, j);
    AlphaPowNonzero(i + j);
  }

  /** GF(2^6) has no zero divisors. */
  lemma NoZeroDivisors(a: Elem, b: Elem)
    ensures Mul(a, b) == 0 <==> a == 0 || b == 0
  {
    MulZero(a);
    MulZero(b);
    if a != 0 && b != 0 {
      PowLog(a);
      PowLog(b);
      PowersNonzero(a, b, Log(a), Log(b));
    }
  }

  /** A nonzero factor can be cancelled. */
  lemma MulCancel(a: Elem, b: Elem, c: Elem)
    requires c != 0 && Mul(a, c) == Mul(b, c)
    ensures a == b
  {
    DistribLeft(a, b, c);
    AddSelf(Mul(a, c), Mul(b, c));
    NoZeroDivisors(Add(a, b), c);
    AddSelf(a, b);
  }

  // ---------------------------------------------------------------------------
  // The order of alpha is 63.
  // ---------------------------------------------------------------------------

  lemma AlphaPowOrder()
    ensures AlphaPow(Order) == 1
  {
    ExpTable();
    AlphaPowIsExpBits(Order);
  }

  lemma AlphaPowBelowOrder(e: nat)
    requires 0 < e < Order
    ensures AlphaPow(e) != 1
  {
    AlphaPowIsExpBits(e);
    if e < 16 {
      OrderBits0(e);
    } else if e < 32 {
      OrderBits1(e);
    } else if e < 48 {
      OrderBits2(e);
    } else {
      OrderBits3(e);
    }
  }

  /** Adding a period o (alpha^o = 1) to an exponent does not change the power. */
  lemma AlphaPowPeriod(e: nat, o: nat)
    requires AlphaPow(o) == 1
    ensures AlphaPow(e + o) == AlphaPow(e)
  {
    AlphaPowAdd(e, o);
    MulOne(AlphaPow(e));
  }

  lemma OrderPeriod(e: nat)
    ensures AlphaPow(e + Order) == AlphaPow(e)
  {
    AlphaPowOrder();
    AlphaPowPeriod(e, Order);
  }

  lemma ModStep(d: nat)
    ensures (d + Order) % Order == d % Order
  {
  }

  /** alpha^e depends only on e modulo 63. */
  lemma {:induction false} AlphaPowMod(e: nat)
    ensures AlphaPow(e) == AlphaPow(e % Order)
    decreases e
  {
    if e >= Order {
      var d := e - Order;
      AlphaPowMod(d);
      OrderPeriod(d);
      ModStep(d);
    } else {
      assert e % Order == e;
    }
  }

  /** alpha^e is 1 exactly when 63 divides e. */
  lemma AlphaPowIsOne(e: nat)
    ensures AlphaPow(e) == 1 <==> e % Order == 0
  {
    AlphaPowMod(e);
    if e % Order != 0 {
      AlphaPowBelowOrder(e % Order);
    }
  }

  /** If x y = x for a nonzero x, then y = 1. */
  lemma CancelToOne(x: Elem, y: Elem)
    requires x != 0
    ensures Mul(x, y) == x ==> y == 1
  {
    if Mul(x, y) == x {
      MulOne(x);
      MulComm(x, y);
      MulComm(x, 1);
      MulCancel(y, 1, x);
    }
  }

  /** A gap d with alpha^d != 1 separates alpha^i from alpha^(i+d). */
  lemma PowerGap(i: nat, d: nat)
    requires AlphaPow(d) != 1
    ensures AlphaPow(i + d) != AlphaPow(i)
  {
    AlphaPowAdd(i, d);
    AlphaPowNonzero(i);
    CancelToOne(AlphaPow(i), AlphaPow(d));
  }

  /** alpha^i differs from alpha^j whenever i < j < 63. */
  lemma AlphaPowDistinct(i: nat, j: nat)
    requires i < j < Order
    ensures AlphaPow(i) != AlphaPow(j)
  {
    var d: nat := j - i;
    AlphaPowBelowOrder(d);
    PowerGap(i, d);
  }

  /** alpha^0, ..., alpha^62 are distinct. */
  lemma AlphaPowInjective(i: nat, j: nat)
    requires i < Order && j < Order
    ensures AlphaPow(i) == AlphaPow(j) ==> i == j
  {
    if i < j {
      AlphaPowDistinct(i, j);
    } else if j < i {
      AlphaPowDistinct(j, i);
    }
  }

  lemma InvExponent(j: nat)
    ensures (j + (Order - j % Order) % Order) % Order == 0
  {
  }

  /** alpha^j alpha^e = 1 when 63 divides j + e. */
  lemma InverseExponents(j: nat, e: nat)
    requires (j + e) % Order == 0
    ensures Mul(AlphaPow(j), AlphaPow(e)) == 1
  {
    AlphaPowIsOne(j + e);
    assert AlphaPow(j + e) == 1;
    AlphaPowAdd(j, e);
    assert Mul(AlphaPow(j), AlphaPow(e)) == AlphaPow(j + e);
  }

  /** alpha^(-j) is the multiplicative inverse of alpha^j. */
  lemma AlphaInvPowInverse(j: nat)
    ensures Mul(AlphaPow(j), AlphaInvPow(j)) == 1
  {
    var e: nat := (Order - j % Order) % Order;
    InvExponent(j);
    InverseExponents(j, e);
  }

  // ---------------------------------------------------------------------------
  // Powers of arbitrary elements.
  // ---------------------------------------------------------------------------

  lemma {:induction false} PowerAdd(x: Elem, a: nat, b: nat)
    ensures Power(x, a + b) == Mul(Power(x, a), Power(x, b))
  {
    if b == 0 {
      MulOne(Power(x, a));
    } else {
      PowerAdd(x, a, b - 1);
      MulAssoc(Power(x, a), Power(x, b - 1), x);
    }
  }

  lemma {:induction false} PowerOfProduct(a: Elem, b: Elem, e: nat)
    ensures Power(Mul(a, b), e) == Mul(Power(a, e), Power(b, e))
  {
    if e == 0 {
      MulOne(1);
    } else {
      PowerOfProduct(a, b, e - 1);
      var pa, pb := Power(a, e - 1), Power(b, e - 1);
      MulAssoc(Mul(pa, pb), a, b);
      MulAssoc(pa, pb, a);
      MulComm(pb, a);
      MulAssoc(pa, a, pb);
      MulAssoc(Mul(pa, a), pb, b);
    }
  }

  lemma MulShuffle(a: Elem, b: Elem, c: Elem, d: Elem)
    ensures Mul(Mul(a, b), Mul(c, d)) == Mul(Mul(a, c), Mul(b, d))
  {
    MulAssoc(a, b, Mul(c, d));
    MulAssoc(b, c, d);
    MulComm(b, c);
    MulAssoc(c, b, d);
    MulAssoc(a, c, Mul(b, d));
  }

  /** A nonzero element has only one inverse. */
  lemma InverseUnique(x: Elem, u: Elem, v: Elem)
    requires x != 0 && Mul(x, u) == 1 && Mul(x, v) == 1
    ensures u == v
  {
    MulComm(x, u);
    MulComm(x, v);
    MulCancel(u, v, x);
  }

  /** alpha^(-a) alpha^(-b) = alpha^(-(a + b)). */
  lemma AlphaInvPowAdd(a: nat, b: nat)
    ensures Mul(AlphaInvPow(a), AlphaInvPow(b)) == AlphaInvPow(a + b)
  {
    ProductOfInverses(a, b);
    AlphaInvPowInverse(a + b);
    AlphaPowNonzero(a + b);
    InverseUnique(AlphaPow(a + b), Mul(AlphaInvPow(a), AlphaInvPow(b)), AlphaInvPow(a + b));
  }

  lemma ProductOfInverses(a: nat, b: nat)
    ensures Mul(AlphaPow(a + b), Mul(AlphaInvPow(a), AlphaInvPow(b))) == 1
  {
    AlphaPowAdd(a, b);
    MulShuffle(AlphaPow(a), AlphaPow(b), AlphaInvPow(a), AlphaInvPow(b));
    AlphaInvPowInverse(a);
    AlphaInvPowInverse(b);
    MulOne(1);
  }

  lemma {:induction false} PowerOfAlphaInv(j: nat)
    ensures Power(AlphaInvPow(1), j) == AlphaInvPow(j)
  {
    if j != 0 {
      PowerOfAlphaInv(j - 1);
      AlphaInvPowAdd(j - 1, 1);
    }
  }

  /** One Chien step: multiplying (alpha^(-i))^j by alpha^(-j) gives (alpha^(-(i+1)))^j. */
  lemma ChienStep(i: nat, j: nat)
    ensures Mul(Power(AlphaInvPow(i), j), AlphaInvPow(j)) == Power(AlphaInvPow(i + 1), j)
  {
    PowerOfAlphaInv(j);
    PowerOfProduct(AlphaInvPow(i), AlphaInvPow(1), j);
    AlphaInvPowAdd(i, 1);
  }

  lemma {:induction false} PowerOne(e: nat)
    ensures Power(1, e) == 1
  {
    if e != 0 {
      PowerOne(e - 1);
      MulOne(1);
    }
  }

  /** Every power of alpha^(-0) = 1 is 1. */
  lemma PowerOfAlphaInvZero(e: nat)
    ensures Power(AlphaInvPow(0), e) == 1
  {
    assert AlphaInvPow(0) == AlphaPow(0) == 1;
    PowerOne(e);
  }
}
