/** What the decoder achieves for t = 2: on a word that differs from a codeword in one or
    two places, the error flags are exactly those places. The Berlekamp-Massey run and the
    Chien search are followed symbolically over GF(2^6). */
module BchCorrection {
  import opened Wrappers
  import opened GF64
  import opened Polynomials
  import opened BchSpec
  import opened FieldIdentities

  // ---------------------------------------------------------------------------
  // Three-entry arrays.
  // ---------------------------------------------------------------------------

  /** The dot product of two three-entry arrays, written out. */
  lemma Dot3(u: seq<Elem>, v: seq<Elem>)
    requires |u| == 3 && |v| == 3
    ensures Dot(u, v) == Add(Add(Mul(u[0], v[0]), Mul(u[1], v[1])), Mul(u[2], v[2]))
  {
    var u1, v1, u2, v2 := u[..1], v[..1], u[..2], v[..2];
    assert u2[..1] == u1 && v2[..1] == v1;
    assert Dot(u1, v1) == Add(0, Mul(u[0], v[0]));
    AddZero(Mul(u[0], v[0]));
    assert Dot(u2, v2) == Add(Dot(u1, v1), Mul(u[1], v[1]));
  }

  /** y^1 = y and y^2 = y y. */
  lemma LowPowers(y: Elem)
    ensures Power(y, 1) == y && Power(y, 2) == Mul(y, y)
  {
    assert Power(y, 1) == Mul(Power(y, 0), y);
    MulOne(y);
  }

  /** A three-coefficient polynomial c[0] + c[1] y + c[2] y^2, written out. */
  lemma Eval3(c: seq<Elem>, y: Elem)
    requires |c| == 3
    ensures Eval(c, y) == Add(Add(c[0], Mul(c[1], y)), Mul(c[2], Mul(y, y)))
  {
    var c1, c2 := c[..1], c[..2];
    assert c2[..1] == c1;
    LowPowers(y);
    assert Eval(c1, y) == Add(0, Mul(c[0], Power(y, 0)));
    MulOne(c[0]);
    AddZero(c[0]);
    assert Eval(c2, y) == Add(Eval(c1, y), Mul(c[1], Power(y, 1)));
  }

  /** lambda := g l - d b for three-entry arrays, written out. */
  lemma Update3(g: Elem, l: seq<Elem>, d: Elem, b: seq<Elem>)
    requires |l| == 3 && |b| == 3
    ensures Update(g, l, d, b)
         == [Add(Mul(g, l[0]), Mul(d, b[0])), Add(Mul(g, l[1]), Mul(d, b[1])),
             Add(Mul(g, l[2]), Mul(d, b[2]))]
  {
  }

  /** One step with a nonzero discrepancy while k >= 0: b takes the old lambda. */
  lemma StepSwaps(st: BmState, syn: seq<Elem>, r: nat, w: seq<Elem>, delta: Elem, lambda: seq<Elem>)
    requires WellShaped(st) && |syn| == 2 * T && 1 <= r <= 2 * T
    requires NextWindow(st.window, syn, r) == w && Dot(w, st.lambda) == delta
    requires Update(st.gamma, st.lambda, delta, st.b[..T + 1]) == lambda
    requires delta != 0 && st.k >= 0
    ensures BmStep(st, syn, r) == BmState(lambda, [st.b[0]] + st.lambda, delta, -st.k - 1, w)
  {
  }

  /** Any other step: b is shifted up one place and gamma is kept. */
  lemma StepShifts(st: BmState, syn: seq<Elem>, r: nat, w: seq<Elem>, delta: Elem, lambda: seq<Elem>)
    requires WellShaped(st) && |syn| == 2 * T && 1 <= r <= 2 * T
    requires NextWindow(st.window, syn, r) == w && Dot(w, st.lambda) == delta
    requires Update(st.gamma, st.lambda, delta, st.b[..T + 1]) == lambda
    requires delta == 0 || st.k < 0
    ensures BmStep(st, syn, r) == BmState(lambda, [st.b[0]] + st.b[..T + 1], st.gamma, st.k + 1, w)
  {
  }

  /** StepSwaps on a state given entry by entry. */
  lemma StepSwaps3(syn: seq<Elem>, r: nat, l0: Elem, l1: Elem, l2: Elem, b0: Elem, b1: Elem,
                   b2: Elem, b3: Elem, g: Elem, k: int, window: seq<Elem>, w: seq<Elem>,
                   delta: Elem, lambda: seq<Elem>)
    requires |syn| == 2 * T && 1 <= r <= 2 * T && |window| == T + 1
    requires NextWindow(window, syn, r) == w && Dot(w, [l0, l1, l2]) == delta
    requires Update(g, [l0, l1, l2], delta, [b0, b1, b2]) == lambda
    requires delta != 0 && k >= 0
    ensures BmStep(BmState([l0, l1, l2], [b0, b1, b2, b3], g, k, window), syn, r)
         == BmState(lambda, [b0, l0, l1, l2], delta, -k - 1, w)
  {
    var st := BmState([l0, l1, l2], [b0, b1, b2, b3], g, k, window);
    assert st.b[..T + 1] == [b0, b1, b2];
    assert [st.b[0]] + st.lambda == [b0, l0, l1, l2];
    StepSwaps(st, syn, r, w, delta, lambda);
  }

  /** StepShifts on a state given entry by entry. */
  lemma StepShifts3(syn: seq<Elem>, r: nat, l0: Elem, l1: Elem, l2: Elem, b0: Elem, b1: Elem,
                    b2: Elem, b3: Elem, g: Elem, k: int, window: seq<Elem>, w: seq<Elem>,
                    delta: Elem, lambda: seq<Elem>)
    requires |syn| == 2 * T && 1 <= r <= 2 * T && |window| == T + 1
    requires NextWindow(window, syn, r) == w && Dot(w, [l0, l1, l2]) == delta
    requires Update(g, [l0, l1, l2], delta, [b0, b1, b2]) == lambda
    requires delta == 0 || k < 0
    ensures BmStep(BmState([l0, l1, l2], [b0, b1, b2, b3], g, k, window), syn, r)
         == BmState(lambda, [b0, b0, b1, b2], g, k + 1, w)
  {
    var st := BmState([l0, l1, l2], [b0, b1, b2, b3], g, k, window);
    assert st.b[..T + 1] == [b0, b1, b2];
    assert [st.b[0]] + st.b[..T + 1] == [b0, b0, b1, b2];
    StepShifts(st, syn, r, w, delta, lambda);
  }

  /** The windows of the four steps: S_1; S_2 S_1; S_3 S_2 S_1; S_4 S_3 S_2. */
  lemma Windows(syn: seq<Elem>)
    requires |syn| == 2 * T
    ensures var s, q, c, f := syn[3], syn[2], syn[1], syn[0];
      && NextWindow([0, 0, 0], syn, 1) == [s, 0, 0]
      && NextWindow([s, 0, 0], syn, 2) == [q, s, 0]
      && NextWindow([q, s, 0], syn, 3) == [c, q, s]
      && NextWindow([c, q, s], syn, 4) == [f, c, q]
  {
  }

  // ---------------------------------------------------------------------------
  // The Berlekamp-Massey run on the syndromes of a binary word.
  // ---------------------------------------------------------------------------

  /** The syndromes of a word with 0/1 coefficients satisfy S_2 = S_1^2 and S_4 = S_2^2
      (entry i of the array is S_(4-i)). */
  predicate SquareSyndromes(syn: seq<Elem>) {
    |syn| == 2 * T && syn[2] == Mul(syn[3], syn[3]) && syn[0] == Mul(syn[2], syn[2])
  }

  /** The discrepancy of step 3: S_3 S_1 + S_2^2. */
  function ThirdDiscrepancy(syn: seq<Elem>): Elem
    requires |syn| == 2 * T
  {
    Add(Mul(syn[1], syn[3]), Mul(syn[2], syn[2]))
  }

  /** The locator polynomial the run ends with, in closed form: when the third
      discrepancy D vanishes, S_1 S_2 (1 + S_1 x); otherwise D (S_2 + S_1 S_2 x + D x^2). */
  function Locator(syn: seq<Elem>): seq<Elem>
    requires |syn| == 2 * T
  {
    var s, q, d := syn[3], syn[2], ThirdDiscrepancy(syn);
    if d == 0 then [Mul(s, q), Mul(s, Mul(s, q)), 0]
    else [Mul(d, q), Mul(d, Mul(s, q)), Mul(d, d)]
  }

  /** The initial state written out: lambda = 1, b = x (shifted), gamma = 1, k = 0. */
  lemma InitialWrittenOut()
    ensures InitialState() == BmState([1, 0, 0], [0, 1, 0, 0], 1, 0, [0, 0, 0])
  {
  }

  /** The arithmetic of step 1: discrepancy S_1, new lambda 1 + S_1 x. */
  lemma FirstArithmetic(s: Elem)
    ensures Dot([s, 0, 0], [1, 0, 0]) == s
    ensures Update(1, [1, 0, 0], s, [0, 1, 0]) == [1, s, 0]
  {
    Dot3([s, 0, 0], [1, 0, 0]);
    Update3(1, [1, 0, 0], s, [0, 1, 0]);
    MulOne(1);
    MulOne(s);
    MulZero(1);
    MulZero(s);
    MulZero(0);
    AddZero(1);
    AddZero(s);
    AddZero(0);
  }

  /** Step 1 with S_1 != 0: lambda = 1 + S_1 x, b = x^2 (shifted), gamma = S_1, k = -1. */
  lemma FirstStep(syn: seq<Elem>)
    requires |syn| == 2 * T && syn[3] != 0
    ensures BmRun(syn, 1) == BmState([1, syn[3], 0], [0, 1, 0, 0], syn[3], -1, [syn[3], 0, 0])
  {
    var s := syn[3];
    Windows(syn);
    FirstArithmetic(s);
    InitialWrittenOut();
    RunUnfold(syn, 1);
    StepSwaps3(syn, 1, 1, 0, 0, 0, 1, 0, 0, 1, 0, [0, 0, 0], [s, 0, 0], s, [1, s, 0]);
  }

  /** The arithmetic of step 2 when S_2 = S_1^2: discrepancy 0, new lambda S_1 + S_2 x. */
  lemma SecondArithmetic(s: Elem, q: Elem)
    requires q == Mul(s, s)
    ensures Dot([q, s, 0], [1, s, 0]) == 0
    ensures Update(s, [1, s, 0], 0, [0, 1, 0]) == [s, q, 0]
  {
    Dot3([q, s, 0], [1, s, 0]);
    Update3(s, [1, s, 0], 0, [0, 1, 0]);
    MulOne(q);
    MulOne(s);
    MulZero(s);
    MulZero(0);
    MulZero(1);
    AddZero(0);
    AddZero(s);
    AddZero(q);
    AddSelf(q, q);
  }

  /** Step 2 when S_2 = S_1^2: the discrepancy vanishes; lambda becomes S_1 + S_2 x. */
  lemma SecondStep(syn: seq<Elem>)
    requires |syn| == 2 * T && syn[3] != 0 && syn[2] == Mul(syn[3], syn[3])
    ensures BmRun(syn, 2)
         == BmState([syn[3], syn[2], 0], [0, 0, 1, 0], syn[3], 0, [syn[2], syn[3], 0])
  {
    var s, q := syn[3], syn[2];
    Windows(syn);
    SecondArithmetic(s, q);
    FirstStep(syn);
    RunUnfold(syn, 2);
    StepShifts3(syn, 2, 1, s, 0, 0, 1, 0, 0, s, -1, [s, 0, 0], [q, s, 0], 0, [s, q, 0]);
  }

  /** The arithmetic of step 3: discrepancy D = S_3 S_1 + S_2^2, new lambda
      S_2 + S_1 S_2 x + D x^2. */
  lemma ThirdArithmetic(s: Elem, q: Elem, c: Elem)
    requires q == Mul(s, s)
    ensures var d := Add(Mul(c, s), Mul(q, q));
      && Dot([c, q, s], [s, q, 0]) == d
      && Update(s, [s, q, 0], d, [0, 0, 1]) == [q, Mul(s, q), d]
  {
    var d := Add(Mul(c, s), Mul(q, q));
    Dot3([c, q, s], [s, q, 0]);
    Update3(s, [s, q, 0], d, [0, 0, 1]);
    MulZero(s);
    MulZero(d);
    MulOne(d);
    AddZero(d);
    AddZero(q);
    AddZero(Mul(s, q));
  }

  /** Step 3: with D the third discrepancy, lambda becomes S_2 + S_1 S_2 x + D x^2; when
      D != 0 the old lambda moves into b. */
  lemma ThirdStep(syn: seq<Elem>)
    requires |syn| == 2 * T && syn[3] != 0 && syn[2] == Mul(syn[3], syn[3])
    ensures var s, q, c, d := syn[3], syn[2], syn[1], ThirdDiscrepancy(syn);
      BmRun(syn, 3)
        == if d != 0 then BmState([q, Mul(s, q), d], [0, s, q, 0], d, -1, [c, q, s])
           else BmState([q, Mul(s, q), 0], [0, 0, 0, 1], s, 1, [c, q, s])
  {
    var s, q, c, d := syn[3], syn[2], syn[1], ThirdDiscrepancy(syn);
    Windows(syn);
    ThirdArithmetic(s, q, c);
    SecondStep(syn);
    RunUnfold(syn, 3);
    if d != 0 {
      StepSwaps3(syn, 3, s, q, 0, 0, 0, 1, 0, s, 0, [q, s, 0], [c, q, s], d, [q, Mul(s, q), d]);
    } else {
      StepShifts3(syn, 3, s, q, 0, 0, 0, 1, 0, s, 0, [q, s, 0], [c, q, s], d, [q, Mul(s, q), d]);
    }
  }

  /** The discrepancy of step 4 vanishes when S_2 = S_1^2 and S_4 = S_2^2. */
  lemma FourthDiscrepancy(s: Elem, q: Elem, c: Elem, f: Elem)
    requires q == Mul(s, s) && f == Mul(q, q)
    ensures Add(Add(Mul(f, q), Mul(c, Mul(s, q))), Mul(q, Add(Mul(c, s), Mul(q, q)))) == 0
  {
    var a, b := Mul(f, q), Mul(c, Mul(s, q));
    DistribRight(q, Mul(c, s), Mul(q, q));
    MulAssoc(c, s, q);
    MulComm(q, Mul(c, s));
    MulComm(Mul(q, q), q);
    AddComm(b, a);
    AddSelf(Add(a, b), Add(b, a));
  }

  /** The arithmetic of step 4 on square syndromes: the discrepancy vanishes and lambda
      is only scaled by gamma. */
  lemma FourthArithmetic(s: Elem, q: Elem, c: Elem, f: Elem, g: Elem, d: Elem, b1: Elem, b2: Elem)
    requires q == Mul(s, s) && f == Mul(q, q) && d == Add(Mul(c, s), Mul(q, q))
    ensures Dot([f, c, q], [q, Mul(s, q), d]) == 0
    ensures Update(g, [q, Mul(s, q), d], 0, [0, b1, b2]) == [Mul(g, q), Mul(g, Mul(s, q)), Mul(g, d)]
  {
    Dot3([f, c, q], [q, Mul(s, q), d]);
    FourthDiscrepancy(s, q, c, f);
    Update3(g, [q, Mul(s, q), d], 0, [0, b1, b2]);
    MulZero(0);
    MulZero(b1);
    MulZero(b2);
    AddZero(Mul(g, q));
    AddZero(Mul(g, Mul(s, q)));
    AddZero(Mul(g, d));
  }

  /** The four steps on square syndromes with S_1 != 0 end with lambda = Locator(syn). */
  lemma RunOnSquareSyndromes(syn: seq<Elem>)
    requires SquareSyndromes(syn) && syn[3] != 0
    ensures BmRun(syn, 2 * T).lambda == Locator(syn)
  {
    var s, q, c, f, d := syn[3], syn[2], syn[1], syn[0], ThirdDiscrepancy(syn);
    var w, l := [f, c, q], [q, Mul(s, q), d];
    Windows(syn);
    ThirdStep(syn);
    RunUnfold(syn, 4);
    MulComm(syn[1], s);
    if d != 0 {
      FourthArithmetic(s, q, c, f, d, d, s, q);
      StepShifts3(syn, 4, q, Mul(s, q), d, 0, s, q, 0, d, -1, [c, q, s], w, 0,
                [Mul(d, q), Mul(d, Mul(s, q)), Mul(d, d)]);
    } else {
      FourthArithmetic(s, q, c, f, s, d, 0, 0);
      MulZero(s);
      StepShifts3(syn, 4, q, Mul(s, q), 0, 0, 0, 0, 1, s, 1, [c, q, s], w, 0,
                [Mul(s, q), Mul(s, Mul(s, q)), 0]);
    }
  }

  // ---------------------------------------------------------------------------
  // Roots of the locator.
  // ---------------------------------------------------------------------------

  /** alpha^d alpha^(-i) = 1 exactly when i = d, for positions below n. */
  lemma InverseAt(d: nat, i: nat)
    requires d < N && i < N
    ensures Mul(AlphaPow(d), AlphaInvPow(i)) == 1 <==> i == d
  {
    AlphaInvPowInverse(i);
    if Mul(AlphaPow(d), AlphaInvPow(i)) == 1 {
      var u := AlphaInvPow(i);
      AlphaPowNonzero((Order - i % Order) % Order);
      MulComm(AlphaPow(d), u);
      MulComm(AlphaPow(i), u);
      InverseUnique(u, AlphaPow(d), AlphaPow(i));
      AlphaPowInjective(d, i);
    }
  }

  /** x^1, x^2, x^3 and x^4 as products. */
  lemma Powers(x: Elem)
    ensures Power(x, 1) == x && Power(x, 2) == Mul(x, x)
    ensures Power(x, 3) == Mul(Mul(x, x), x) && Power(x, 4) == Mul(Mul(x, x), Mul(x, x))
  {
    LowPowers(x);
    assert Power(x, 3) == Mul(Power(x, 2), x);
    assert Power(x, 4) == Mul(Power(x, 3), x);
    MulAssoc(Mul(x, x), x, x);
  }

  /** The one-error locator a (1 + x y), a = x x^2 != 0, vanishes at y = alpha^(-i)
      exactly for i = d when x = alpha^d. */
  lemma SingleErrorRoots(d: nat, i: nat)
    requires d < N && i < N
    ensures var x := AlphaPow(d);
      var a := Mul(x, Mul(x, x));
      Eval([a, Mul(x, a), 0], AlphaInvPow(i)) == 0 <==> i == d
  {
    var x, y := AlphaPow(d), AlphaInvPow(i);
    var a := Mul(x, Mul(x, x));
    var xy := Mul(x, y);
    Eval3([a, Mul(x, a), 0], y);
    MulZero(Mul(y, y));
    AddZero(Add(a, Mul(Mul(x, a), y)));
    MulComm(x, a);
    MulAssoc(a, x, y);
    AddSelf(a, Mul(a, xy));
    AlphaPowNonzero(d);
    ZeroProduct3(x, x, x);
    FixedByOne(a, xy);
    InverseAt(d, i);
  }

  /** The two-error locator e q (1 + x y)(1 + z y) in the form the run leaves it: with
      s = x + z, q = s^2 and e = q x z, lambda = e q + e s q y + e e y^2. */
  lemma DoubleLocatorFactors(x: Elem, z: Elem, y: Elem)
    ensures var s := Add(x, z);
      var q := Mul(s, s);
      var e := Mul(q, Mul(x, z));
      Eval([Mul(e, q), Mul(e, Mul(s, q)), Mul(e, e)], y)
        == Mul(e, Mul(q, Mul(Add(1, Mul(x, y)), Add(1, Mul(z, y)))))
  {
    var s := Add(x, z);
    var q := Mul(s, s);
    var xz := Mul(x, z);
    var e := Mul(q, xz);
    Eval3([Mul(e, q), Mul(e, Mul(s, q)), Mul(e, e)], y);
    FactorQuadratic(e, q, Mul(s, q), e, y);
    FactorQuadratic(q, 1, s, xz, y);
    MulOne(q);
    MulComm(q, s);
    ProductOfLinears(x, z, y);
  }

  /** The two-error locator vanishes at alpha^(-i) exactly for i = d1 and i = d2. */
  lemma DoubleErrorRoots(d1: nat, d2: nat, i: nat)
    requires d1 < N && d2 < N && d1 != d2 && i < N
    ensures var x, z := AlphaPow(d1), AlphaPow(d2);
      var s := Add(x, z);
      var q := Mul(s, s);
      var e := Mul(q, Mul(x, z));
      Eval([Mul(e, q), Mul(e, Mul(s, q)), Mul(e, e)], AlphaInvPow(i)) == 0 <==> i == d1 || i == d2
  {
    var x, z, y := AlphaPow(d1), AlphaPow(d2), AlphaInvPow(i);
    var s := Add(x, z);
    var q := Mul(s, s);
    var e := Mul(q, Mul(x, z));
    var u, v := Add(1, Mul(x, y)), Add(1, Mul(z, y));
    DoubleLocatorFactors(x, z, y);
    AlphaPowNonzero(d1);
    AlphaPowNonzero(d2);
    AlphaPowInjective(d1, d2);
    AddSelf(x, z);
    NoZeroDivisors(s, s);
    ZeroProduct3(q, x, z);
    ZeroProduct3(e, q, Mul(u, v));
    NoZeroDivisors(u, v);
    OnePlusIsZero(Mul(x, y));
    OnePlusIsZero(Mul(z, y));
    InverseAt(d1, i);
    InverseAt(d2, i);
  }

  // ---------------------------------------------------------------------------
  // Error patterns and their syndromes.
  // ---------------------------------------------------------------------------

  /** The word with coefficient 1 at x^d for every d in degrees and 0 elsewhere; entry j
      holds the coefficient of x^(n-1-j), as in a received word. */
  function ErrorPattern(degrees: set<nat>): (e: seq<Elem>)
    ensures |e| == N
  {
    seq(N, j requires 0 <= j < N => if N - 1 - j in degrees then 1 else 0)
  }

  /** The flags the decoder should raise: 1 at each index in degrees, 0 elsewhere. */
  function Indicator(degrees: set<nat>): (flags: seq<int>)
    ensures |flags| == N
  {
    seq(N, i requires 0 <= i < N => if i in degrees then 1 else 0)
  }

  /** The syndrome array of a word is S_4, S_3, S_2, S_1. */
  lemma SyndromesWrittenOut(w: seq<Elem>)
    ensures Syndromes(w) == [SyndromeAt(w, 4), SyndromeAt(w, 3), SyndromeAt(w, 2), SyndromeAt(w, 1)]
  {
  }

  /** Syndromes are linear: those of u + v are the sums of those of u and of v. */
  lemma SyndromesOfSum(u: seq<Elem>, v: seq<Elem>)
    requires |u| == |v|
    ensures Syndromes(AddEach(u, v)) == AddEach(Syndromes(u), Syndromes(v))
  {
    forall i | 0 <= i < 2 * T
      ensures Syndromes(AddEach(u, v))[i] == AddEach(Syndromes(u), Syndromes(v))[i]
    {
      SyndromeAtOfSum(u, v, 2 * T - i);
    }
  }

  lemma SyndromeAtOfSum(u: seq<Elem>, v: seq<Elem>, j: nat)
    requires |u| == |v|
    ensures SyndromeAt(AddEach(u, v), j) == Add(SyndromeAt(u, j), SyndromeAt(v, j))
  {
    ValueOfSum(u, v, AlphaPow(j));
  }

  /** Adding a word to a codeword (all syndromes zero) leaves that word's syndromes. */
  lemma CodewordPlusError(c: seq<Elem>, e: seq<Elem>)
    requires |c| == |e| && AllZero(Syndromes(c))
    ensures Syndromes(AddEach(c, e)) == Syndromes(e)
  {
    SyndromesOfSum(c, e);
    forall i | 0 <= i < 2 * T
      ensures AddEach(Syndromes(c), Syndromes(e))[i] == Syndromes(e)[i]
    {
      AddZero(Syndromes(e)[i]);
    }
  }

  /** a (e - 1) is a natural number and a (e - 1) + a = a e. */
  lemma MulPred(a: nat, e: nat)
    requires e >= 1
    ensures a * (e - 1) >= 0 && a * (e - 1) + a == a * e
  {
  }

  /** (alpha^a)^e = alpha^(a e). */
  lemma {:induction false} PowerOfAlphaPow(a: nat, e: nat)
    ensures Power(AlphaPow(a), e) == AlphaPow(a * e)
    decreases e
  {
    if e != 0 {
      MulPred(a, e);
      PowerOfAlphaPow(a, e - 1);
      AlphaPowAdd(a * (e - 1), a);
    }
  }

  /** S_j of the single error at x^d is X^j, X = alpha^d. */
  lemma UnitSyndrome(d: nat, j: nat)
    requires d < N
    ensures SyndromeAt(ErrorPattern({d}), j) == Power(AlphaPow(d), j)
  {
    var e := ErrorPattern({d});
    ValueOfUnit(e, N - 1 - d, AlphaPow(j));
    PowerOfAlphaPow(j, d);
    PowerOfAlphaPow(d, j);
    assert j * d == d * j;
  }

  /** The syndromes of one error at x^d: S_j = X^j. */
  lemma SingleErrorSyndromes(d: nat)
    requires d < N
    ensures var x := AlphaPow(d);
      Syndromes(ErrorPattern({d}))
        == [Mul(Mul(x, x), Mul(x, x)), Mul(Mul(x, x), x), Mul(x, x), x]
  {
    var x, e := AlphaPow(d), ErrorPattern({d});
    SyndromesWrittenOut(e);
    UnitSyndrome(d, 1);
    UnitSyndrome(d, 2);
    UnitSyndrome(d, 3);
    UnitSyndrome(d, 4);
    Powers(x);
  }

  /** Two errors are the sum of two single errors. */
  lemma PatternOfTwo(d1: nat, d2: nat)
    requires d1 != d2
    ensures ErrorPattern({d1, d2}) == AddEach(ErrorPattern({d1}), ErrorPattern({d2}))
  {
    AddZero(0);
    AddZero(1);
  }

  /** The syndromes of errors at x^d1 and x^d2: S_j = X^j + Z^j. */
  lemma DoubleErrorSyndromes(d1: nat, d2: nat)
    requires d1 < N && d2 < N && d1 != d2
    ensures var x, z := AlphaPow(d1), AlphaPow(d2);
      var s := Add(x, z);
      var q := Mul(s, s);
      Syndromes(ErrorPattern({d1, d2}))
        == [Mul(q, q), Add(Mul(Mul(x, x), x), Mul(Mul(z, z), z)), q, s]
  {
    var e1, e2 := ErrorPattern({d1}), ErrorPattern({d2});
    PatternOfTwo(d1, d2);
    SyndromesOfSum(e1, e2);
    SingleErrorSyndromes(d1);
    SingleErrorSyndromes(d2);
    SumOfPowerRows(AlphaPow(d1), AlphaPow(d2));
  }

  /** The power rows [X^4, X^3, X^2, X] and [Z^4, Z^3, Z^2, Z] add up to
      [s^4, X^3 + Z^3, s^2, s] with s = X + Z. */
  lemma SumOfPowerRows(x: Elem, z: Elem)
    ensures var xx, zz := Mul(x, x), Mul(z, z);
      var s := Add(x, z);
      var q := Mul(s, s);
      AddEach([Mul(xx, xx), Mul(xx, x), xx, x], [Mul(zz, zz), Mul(zz, z), zz, z])
        == [Mul(q, q), Add(Mul(xx, x), Mul(zz, z)), q, s]
  {
    var xx, zz := Mul(x, x), Mul(z, z);
    var s := Add(x, z);
    var q := Mul(s, s);
    SquareOfSum(x, z);
    SquareOfSum(xx, zz);
    var sum := AddEach([Mul(xx, xx), Mul(xx, x), xx, x], [Mul(zz, zz), Mul(zz, z), zz, z]);
    assert sum[0] == Mul(q, q);
    assert sum[2] == q;
  }

  /** The third discrepancy of two errors: S_3 S_1 + S_2^2 = S_2 X Z. */
  lemma DoubleThirdDiscrepancy(x: Elem, z: Elem)
    ensures var s := Add(x, z);
      var q := Mul(s, s);
      var c := Add(Mul(Mul(x, x), x), Mul(Mul(z, z), z));
      Add(Mul(c, s), Mul(q, q)) == Mul(q, Mul(x, z))
  {
    var s := Add(x, z);
    var q := Mul(s, s);
    var c := Add(Mul(Mul(x, x), x), Mul(Mul(z, z), z));
    var xz := Mul(x, z);
    SumOfCubes(x, z);
    MulAssoc(s, s, q);
    MulComm(s, Mul(s, q));
    DistribLeft(c, Mul(s, q), s);
    MulAssoc(xz, s, s);
    MulComm(xz, q);
  }

  // ---------------------------------------------------------------------------
  // From roots to flags and positions.
  // ---------------------------------------------------------------------------

  /** When the roots of lambda among the alpha^(-i) are exactly at the indices in D, the
      flags are the indicator of D. */
  lemma FlagsOfRoots(lambda: seq<Elem>, D: set<nat>)
    requires forall i :: 0 <= i < N ==> (Eval(lambda, AlphaInvPow(i)) == 0 <==> i in D)
    ensures ErrorFlags(lambda) == Indicator(D)
  {
    ErrorFlagsMeaning(lambda);
  }

  /** Zero entries from i up to j add nothing to the list of nonzero indices. */
  lemma {:induction false} SkipZeros(e: seq<int>, i: nat, j: nat)
    requires i <= j <= |e|
    requires forall x :: i <= x < j ==> e[x] == 0
    ensures NonzeroFrom(e, i) == NonzeroFrom(e, j)
    decreases j - i
  {
    if i < j {
      SkipZeros(e, i + 1, j);
    }
  }

  /** The flags of one position list that position alone. */
  lemma OnePosition(d: nat)
    requires d < N
    ensures NonzeroIndices(Indicator({d})) == [d]
  {
    OneFrom(d);
  }

  lemma OneFrom(d: nat)
    requires d < N
    ensures NonzeroFrom(Indicator({d}), 0) == [d]
  {
    var e := Indicator({d});
    SkipZeros(e, 0, d);
    SkipZeros(e, d + 1, N);
  }

  /** The flags of two positions list both, in increasing order. */
  lemma TwoPositions(d1: nat, d2: nat)
    requires d1 < d2 < N
    ensures NonzeroIndices(Indicator({d1, d2})) == [d1, d2]
  {
    TwoFrom(d1, d2);
  }

  lemma TwoFrom(d1: nat, d2: nat)
    requires d1 < d2 < N
    ensures NonzeroFrom(Indicator({d1, d2}), 0) == [d1, d2]
  {
    var e := Indicator({d1, d2});
    SkipZeros(e, d2 + 1, N);
    ListedHere(e, d2);
    SkipZeros(e, d1 + 1, d2);
    ListedHere(e, d1);
    SkipZeros(e, 0, d1);
  }

  /** A nonzero entry at i heads the list of nonzero entries from i on. */
  lemma ListedHere(e: seq<int>, i: nat)
    requires i < |e| && e[i] != 0
    ensures NonzeroFrom(e, i) == [i] + NonzeroFrom(e, i + 1)
  {
  }

  // ---------------------------------------------------------------------------
  // Correction of up to t = 2 errors.
  // ---------------------------------------------------------------------------

  /** The final locator of w vanishes at alpha^(-i), for i below n, exactly when i is in
      D. */
  predicate RootsExactly(w: seq<Elem>, D: set<nat>) {
    forall i :: 0 <= i < N ==>
      (Eval(BmRun(Syndromes(w), 2 * T).lambda, AlphaInvPow(i)) == 0 <==> i in D)
  }

  /** A word whose final locator has its roots among the alpha^(-i) exactly at the
      indices in D is decoded with the indicator of D as its flags. */
  lemma DecodeFromRoots(w: seq<Elem>, D: set<nat>)
    requires RootsExactly(w, D)
    ensures DecodeWord(w) == Decoded(NonzeroIndices(Indicator(D)), Indicator(D))
  {
    FlagsOfRoots(BmRun(Syndromes(w), 2 * T).lambda, D);
  }

  /** The locator left by the run for one error at x^d: X^3 (1 + X y), X = alpha^d. */
  lemma SingleErrorLocator(c: seq<Elem>, d: nat)
    requires |c| == N && AllZero(Syndromes(c)) && d < N
    ensures var x := AlphaPow(d);
      var a := Mul(x, Mul(x, x));
      BmRun(Syndromes(AddEach(c, ErrorPattern({d}))), 2 * T).lambda == [a, Mul(x, a), 0]
  {
    var e := ErrorPattern({d});
    var syn := Syndromes(AddEach(c, e));
    var x := AlphaPow(d);
    var xx := Mul(x, x);
    CodewordPlusError(c, e);
    SingleErrorSyndromes(d);
    AlphaPowNonzero(d);
    RunOnSquareSyndromes(syn);
    MulAssoc(xx, x, x);
    AddSelf(Mul(xx, xx), Mul(xx, xx));
  }

  /** The locator left by the run for errors at x^d1 and x^d2: with S = X + Z, q = S^2 and
      m = q X Z, it is m q + m S q y + m m y^2. */
  lemma DoubleErrorLocator(c: seq<Elem>, d1: nat, d2: nat)
    requires |c| == N && AllZero(Syndromes(c)) && d1 < N && d2 < N && d1 != d2
    ensures var x, z := AlphaPow(d1), AlphaPow(d2);
      var s := Add(x, z);
      var q := Mul(s, s);
      var m := Mul(q, Mul(x, z));
      BmRun(Syndromes(AddEach(c, ErrorPattern({d1, d2}))), 2 * T).lambda
        == [Mul(m, q), Mul(m, Mul(s, q)), Mul(m, m)]
  {
    var e := ErrorPattern({d1, d2});
    var syn := Syndromes(AddEach(c, e));
    var x, z := AlphaPow(d1), AlphaPow(d2);
    var s := Add(x, z);
    var q := Mul(s, s);
    CodewordPlusError(c, e);
    DoubleErrorSyndromes(d1, d2);
    AlphaPowInjective(d1, d2);
    AddSelf(x, z);
    RunOnSquareSyndromes(syn);
    DoubleThirdDiscrepancy(x, z);
    AlphaPowNonzero(d1);
    AlphaPowNonzero(d2);
    NoZeroDivisors(s, s);
    ZeroProduct3(q, x, z);
  }

  /** For one error at x^d the final locator vanishes at alpha^(-i) exactly for i = d. */
  lemma SingleErrorRootSet(c: seq<Elem>, d: nat)
    requires |c| == N && AllZero(Syndromes(c)) && d < N
    ensures RootsExactly(AddEach(c, ErrorPattern({d})), {d})
  {
    SingleErrorLocator(c, d);
    forall i | 0 <= i < N
      ensures var lambda := BmRun(Syndromes(AddEach(c, ErrorPattern({d}))), 2 * T).lambda;
        Eval(lambda, AlphaInvPow(i)) == 0 <==> i in {d}
    {
      SingleErrorRoots(d, i);
    }
  }

  /** For errors at x^d1 and x^d2 the final locator vanishes at alpha^(-i) exactly for
      i = d1 and i = d2. */
  lemma DoubleErrorRootSet(c: seq<Elem>, d1: nat, d2: nat)
    requires |c| == N && AllZero(Syndromes(c)) && d1 < N && d2 < N && d1 != d2
    ensures RootsExactly(AddEach(c, ErrorPattern({d1, d2})), {d1, d2})
  {
    DoubleErrorLocator(c, d1, d2);
    forall i | 0 <= i < N
      ensures var lambda := BmRun(Syndromes(AddEach(c, ErrorPattern({d1, d2}))), 2 * T).lambda;
        Eval(lambda, AlphaInvPow(i)) == 0 <==> i in {d1, d2}
    {
      DoubleErrorRoots(d1, d2, i);
    }
  }

  /** One error: a word that differs from a codeword c (all syndromes zero) only in the
      coefficient of x^d is decoded with index d, and only d, flagged and listed. */
  lemma CorrectsOneError(c: seq<Elem>, d: nat)
    requires |c| == N && AllZero(Syndromes(c)) && d < N
    ensures DecodeWord(AddEach(c, ErrorPattern({d}))) == Decoded([d], Indicator({d}))
  {
    SingleErrorRootSet(c, d);
    DecodeFromRoots(AddEach(c, ErrorPattern({d})), {d});
    OnePosition(d);
  }

  /** Two errors: a word that differs from a codeword c only in the coefficients of x^d1
      and x^d2 is decoded with exactly d1 and d2 flagged and listed. */
  lemma CorrectsTwoErrors(c: seq<Elem>, d1: nat, d2: nat)
    requires |c| == N && AllZero(Syndromes(c)) && d1 < d2 < N
    ensures DecodeWord(AddEach(c, ErrorPattern({d1, d2})))
         == Decoded([d1, d2], Indicator({d1, d2}))
  {
    DoubleErrorRootSet(c, d1, d2);
    DecodeFromRoots(AddEach(c, ErrorPattern({d1, d2})), {d1, d2});
    TwoPositions(d1, d2);
  }

  /** The whole decoder on a received string that spells a codeword with one error. */
  lemma DecodeCorrectsOneError(input: string, c: seq<Elem>, d: nat)
    requires |c| == N && AllZero(Syndromes(c)) && d < N
    requires ParseDigits(input) == Success(AddEach(c, ErrorPattern({d})))
    ensures Decode(input) == Success(Decoded([d], Indicator({d})))
  {
    CorrectsOneError(c, d);
  }

  /** The whole decoder on a received string that spells a codeword with two errors. */
  lemma DecodeCorrectsTwoErrors(input: string, c: seq<Elem>, d1: nat, d2: nat)
    requires |c| == N && AllZero(Syndromes(c)) && d1 < d2 < N
    requires ParseDigits(input) == Success(AddEach(c, ErrorPattern({d1, d2})))
    ensures Decode(input) == Success(Decoded([d1, d2], Indicator({d1, d2})))
  {
    CorrectsTwoErrors(c, d1, d2);
  }
}
