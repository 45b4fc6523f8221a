/** Non-negative integers as bit strings: powers of two, Python's bitwise | and << on
    non-negative ints, single bits, and binary numerals of '0' and '1' characters; and
    the smaller of two integers, which both the decoder and the LLR reader clamp with. */
module Bits {
  function Pow2(p: nat): (r: nat)
    ensures r >= 1
  {
    if p == 0 then 1 else 2 * Pow2(p - 1)
  }

  function Min(a: int, b: int): int {
    if a <= b then a else b
  }

  /** a | b on non-negative integers, bit by bit from the least significant. */
  function Or(a: nat, b: nat): nat
    decreases a + b
  {
    if a == 0 then b
    else if b == 0 then a
    else 2 * Or(a / 2, b / 2) + (if a % 2 == 1 || b % 2 == 1 then 1 else 0)
  }

  /** Bit p of x: (x >> p) & 1. */
  function Bit(x: nat, p: nat): nat {
    if p == 0 then x % 2 else Bit(x / 2, p - 1)
  }

  /** x | 0 = x. */
  lemma OrZero(x: nat)
    ensures Or(x, 0) == x
  {
  }

  /** x << p. */
  function Shl(x: nat, p: nat): nat {
    if p == 0 then x else 2 * Shl(x, p - 1)
  }

  /** 0 << p = 0. */
  lemma {:induction false} ShlZero(p: nat)
    ensures Shl(0, p) == 0
  {
    if p != 0 {
      ShlZero(p - 1);
    }
  }

  /** (2x) | (2y) = 2 (x | y): shifting both operands shifts the result. */
  lemma OrDouble(x: nat, y: nat)
    ensures Or(2 * x, 2 * y) == 2 * Or(x, y)
  {
    if x != 0 && y != 0 {
      assert (2 * x) / 2 == x && (2 * y) / 2 == y;
    }
  }

  /** (2x) | b = 2x + b for a single bit b. */
  lemma OrLowBit(x: nat, b: nat)
    requires b <= 1
    ensures Or(2 * x, b) == 2 * x + b
  {
    if x != 0 && b != 0 {
      assert (2 * x) / 2 == x && b / 2 == 0;
      OrZero(x);
    }
  }

  /** OR-ing b << p (b a single bit) into c << (p + 1), whose bits 0..p are clear,
      adds it: the two have no bit in common. */
  lemma {:induction false} OrDisjoint(c: nat, b: nat, p: nat)
    requires b <= 1
    ensures Or(Shl(c, p + 1), Shl(b, p)) == Shl(c, p + 1) + Shl(b, p)
    decreases p
  {
    if p == 0 {
      OrLowBit(c, b);
    } else {
      OrDisjoint(c, b, p - 1);
      OrDouble(Shl(c, p), Shl(b, p - 1));
    }
  }

  /** (x << p) + (y << p) = (x + y) << p. */
  lemma {:induction false} ShlAdd(x: nat, y: nat, p: nat)
    ensures Shl(x, p) + Shl(y, p) == Shl(x + y, p)
  {
    if p != 0 {
      ShlAdd(x, y, p - 1);
    }
  }

  /** x << (p + 1) = (2x) << p. */
  lemma {:induction false} ShlSucc(x: nat, p: nat)
    ensures Shl(x, p + 1) == Shl(2 * x, p)
  {
    if p != 0 {
      ShlSucc(x, p - 1);
    }
  }

  // ---------------------------------------------------------------------------
  // Binary numerals.
  // ---------------------------------------------------------------------------

  predicate IsBinary(s: string) {
    forall i :: 0 <= i < |s| ==> s[i] == '0' || s[i] == '1'
  }

  /** The value of a numeral of '0' and '1' characters, most significant first. */
  function BinaryValue(s: string): nat
    requires IsBinary(s)
  {
    if |s| == 0 then 0
    else 2 * BinaryValue(s[..|s| - 1]) + (if s[|s| - 1] == '1' then 1 else 0)
  }

  /** The k-character numeral of v mod 2^k, most significant first. */
  function Numeral(v: nat, k: nat): (s: string)
    ensures |s| == k && IsBinary(s)
  {
    if k == 0 then "" else Numeral(v / 2, k - 1) + [if v % 2 == 1 then '1' else '0']
  }

  /** A numeral of k characters has a value below 2^k. */
  lemma {:induction false} BinaryValueBound(s: string)
    requires IsBinary(s)
    ensures BinaryValue(s) < Pow2(|s|)
    decreases |s|
  {
    if |s| != 0 {
      BinaryValueBound(s[..|s| - 1]);
    }
  }

  /** Reading back the numeral of a value below 2^k gives the value. */
  lemma {:induction false} NumeralValue(v: nat, k: nat)
    requires v < Pow2(k)
    ensures BinaryValue(Numeral(v, k)) == v
    decreases k
  {
    if k != 0 {
      var s := Numeral(v, k);
      assert s[..k - 1] == Numeral(v / 2, k - 1);
      NumeralValue(v / 2, k - 1);
    }
  }

  /** The leading character of a k-character numeral is worth 2^(k-1). */
  lemma {:induction false} BinaryValueFront(s: string)
    requires IsBinary(s) && |s| != 0
    ensures BinaryValue(s) == (if s[0] == '1' then Pow2(|s| - 1) else 0) + BinaryValue(s[1..])
    decreases |s|
  {
    if |s| == 1 {
      assert s[..0] == s[1..];
    } else {
      var init := s[..|s| - 1];
      BinaryValueFront(init);
      assert init[1..] == s[1..][..|s| - 2];
    }
  }
}
