/** Identities of GF(2^6) used to follow the Berlekamp-Massey iteration and the Chien
    search symbolically: sums in characteristic 2, squares of sums, the sum of two cubes,
    and the factorisation of the two-error locator polynomial. */
module FieldIdentities {
  import opened GF64

  /** a + (a + u) = u: every element is its own negative. */
  lemma AddLeftCancel(a: Elem, u: Elem)
    ensures Add(a, Add(a, u)) == u
  {
    AddAssoc(a, a, u);
    AddSelf(a, a);
    AddZero(u);
  }

  /** (a + b) + ((a + u) + (v + b)) = u + v. */
  lemma CancelPairs(a: Elem, b: Elem, u: Elem, v: Elem)
    ensures Add(Add(a, b), Add(Add(a, u), Add(v, b))) == Add(u, v)
  {
    AddShuffle(a, b, Add(a, u), Add(v, b));
    AddLeftCancel(a, u);
    AddComm(v, b);
    AddLeftCancel(b, v);
  }

  /** (a + b)^2 = a^2 + b^2. */
  lemma SquareOfSum(a: Elem, b: Elem)
    ensures Mul(Add(a, b), Add(a, b)) == Add(Mul(a, a), Mul(b, b))
  {
    var s := Add(a, b);
    var ab := Mul(a, b);
    DistribLeft(a, b, s);
    DistribRight(a, a, b);
    DistribRight(b, a, b);
    MulComm(b, a);
    AddComm(ab, Mul(b, b));
    AddShuffle(Mul(a, a), ab, Mul(b, b), ab);
    AddSelf(ab, ab);
    AddZero(Add(Mul(a, a), Mul(b, b)));
  }

  /** (x^3 + y^3) + (x + y)^3 = x y (x + y), with the cube of the sum written as
      s (s s). */
  lemma SumOfCubes(x: Elem, y: Elem)
    ensures var s := Add(x, y);
      Add(Add(Mul(Mul(x, x), x), Mul(Mul(y, y), y)), Mul(s, Mul(s, s)))
        == Mul(Mul(x, y), s)
  {
    var s := Add(x, y);
    var xx, yy, xy := Mul(x, x), Mul(y, y), Mul(x, y);
    var x3, y3 := Mul(xx, x), Mul(yy, y);
    var q := Add(xx, yy);
    SquareOfSum(x, y);
    // s q = x xx + x yy + y xx + y yy
    DistribLeft(x, y, q);
    DistribRight(x, xx, yy);
    DistribRight(y, xx, yy);
    MulComm(x, xx);
    MulComm(y, yy);
    MulAssoc(x, y, y);
    MulAssoc(y, x, x);
    MulComm(y, x);
    assert Mul(s, q) == Add(Add(x3, Mul(xy, y)), Add(Mul(xy, x), y3));
    CancelPairs(x3, y3, Mul(xy, y), Mul(xy, x));
    DistribRight(xy, x, y);
    AddComm(Mul(xy, y), Mul(xy, x));
  }

  /** d a + (d b) y + (d c) y^2 = d (a + b y + c y^2). */
  lemma FactorQuadratic(d: Elem, a: Elem, b: Elem, c: Elem, y: Elem)
    ensures Add(Add(Mul(d, a), Mul(Mul(d, b), y)), Mul(Mul(d, c), Mul(y, y)))
         == Mul(d, Add(Add(a, Mul(b, y)), Mul(c, Mul(y, y))))
  {
    MulAssoc(d, b, y);
    MulAssoc(d, c, Mul(y, y));
    DistribRight(d, a, Mul(b, y));
    DistribRight(d, Add(a, Mul(b, y)), Mul(c, Mul(y, y)));
  }

  /** (1 + x y)(1 + z y) = 1 + (x + z) y + (x z) y^2. */
  lemma ProductOfLinears(x: Elem, z: Elem, y: Elem)
    ensures Mul(Add(1, Mul(x, y)), Add(1, Mul(z, y)))
         == Add(Add(1, Mul(Add(x, z), y)), Mul(Mul(x, z), Mul(y, y)))
  {
    var xy, zy := Mul(x, y), Mul(z, y);
    var b := Add(1, zy);
    var w := Mul(Mul(x, z), Mul(y, y));
    DistribLeft(1, xy, b);
    MulOne(b);
    DistribRight(xy, 1, zy);
    MulOne(xy);
    MulShuffle(x, y, z, y);
    assert Mul(Add(1, xy), b) == Add(Add(1, zy), Add(xy, w));
    AddShuffle(1, zy, xy, w);
    AddAssoc(Add(1, xy), zy, w);
    AddAssoc(1, xy, zy);
    DistribLeft(x, z, y);
  }

  /** a b = 0 exactly when a factor is zero, for three factors. */
  lemma ZeroProduct3(a: Elem, b: Elem, c: Elem)
    ensures Mul(a, Mul(b, c)) == 0 <==> a == 0 || b == 0 || c == 0
  {
    NoZeroDivisors(a, Mul(b, c));
    NoZeroDivisors(b, c);
  }

  /** a = a u for a nonzero a exactly when u = 1. */
  lemma FixedByOne(a: Elem, u: Elem)
    requires a != 0
    ensures a == Mul(a, u) <==> u == 1
  {
    MulOne(a);
    CancelToOne(a, u);
  }

  /** 1 + u = 0 exactly when u = 1. */
  lemma OnePlusIsZero(u: Elem)
    ensures Add(1, u) == 0 <==> u == 1
  {
    AddSelf(1, u);
  }
}
