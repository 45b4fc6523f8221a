/** Polynomials over GF(2^6), as the decoder stores them: plain arrays of field
    elements.  Two orders occur.  The received word is stored most significant
    coefficient first (entry 0 is the coefficient of x^(n-1)); the error-locator
    polynomial is stored from the constant term up (entry j is the coefficient of y^j). */
module Polynomials {
  import opened GF64

  /** The sum of u[k] v[k] over the field (an inner product of two field arrays). */
  function Dot(u: seq<Elem>, v: seq<Elem>): Elem
    requires |u| == |v|
  {
    if |u| == 0 then 0
    else Add(Dot(u[..|u| - 1], v[..|v| - 1]), Mul(u[|u| - 1], v[|v| - 1]))
  }

  /** The entry-wise product of two field arrays of the same length. */
  function MulEach(u: seq<Elem>, v: seq<Elem>): (r: seq<Elem>)
    requires |u| == |v|
    ensures |r| == |u|
  {
    seq(|u|, j requires 0 <= j < |u| => Mul(u[j], v[j]))
  }

  /** u v + c entry by entry, for two field arrays of the same length and a field
      element c. */
  function MulEachAdd(u: seq<Elem>, v: seq<Elem>, c: Elem): (r: seq<Elem>)
    requires |u| == |v|
    ensures |r| == |u|
  {
    seq(|u|, j requires 0 <= j < |u| => Add(Mul(u[j], v[j]), c))
  }

  /** u + v entry by entry, for two words of the same length. */
  function AddEach(u: seq<Elem>, v: seq<Elem>): (r: seq<Elem>)
    requires |u| == |v|
    ensures |r| == |u|
  {
    seq(|u|, j requires 0 <= j < |u| => Add(u[j], v[j]))
  }

  /** g u - d v on the first |u| entries of v (subtraction is addition in
      characteristic 2). */
  function Update(g: Elem, u: seq<Elem>, d: Elem, v: seq<Elem>): (r: seq<Elem>)
    requires |u| <= |v|
    ensures |r| == |u|
  {
    seq(|u|, j requires 0 <= j < |u| => Add(Mul(g, u[j]), Mul(d, v[j])))
  }

  /** c[0] + c[1] y + c[2] y^2 + ...: entry j is the coefficient of y^j. */
  function Eval(c: seq<Elem>, y: Elem): Elem {
    if |c| == 0 then 0
    else Add(Eval(c[..|c| - 1], y), Mul(c[|c| - 1], Power(y, |c| - 1)))
  }

  /** r[0] x^(n-1) + r[1] x^(n-2) + ... + r[n-1], for n = |r|: the first entry is the
      most significant coefficient. */
  function ValueMsbFirst(r: seq<Elem>, x: Elem): Elem {
    if |r| == 0 then 0
    else Add(Mul(r[0], Power(x, |r| - 1)), ValueMsbFirst(r[1..], x))
  }

  /** The word r (most significant coefficient first) evaluated at every point of xs. */
  function ValuesAt(r: seq<Elem>, xs: seq<Elem>): (v: seq<Elem>)
    ensures |v| == |xs|
  {
    seq(|xs|, j requires 0 <= j < |xs| => ValueMsbFirst(r, xs[j]))
  }

  /** Horner's rule: appending a least significant coefficient c multiplies the value
      so far by x and adds c. */
  lemma {:induction false} HornerStep(r: seq<Elem>, c: Elem, x: Elem)
    ensures ValueMsbFirst(r + [c], x) == Add(Mul(ValueMsbFirst(r, x), x), c)
    decreases |r|
  {
    if |r| == 0 {
      assert (r + [c])[1..] == [];
      MulOne(c);
      AddZero(c);
      MulZero(x);
      AddZero(Mul(c, 1));
    } else {
      var a, rest := r[0], r[1..];
      assert (r + [c])[0] == a && (r + [c])[1..] == rest + [c];
      HornerStep(rest, c, x);
      var p, v := Power(x, |rest|), ValueMsbFirst(rest, x);
      DistribLeft(Mul(a, p), v, x);
      MulAssoc(a, p, x);
      AddAssoc(Mul(Mul(a, p), x), Mul(v, x), c);
    }
  }

  /** The empty word is zero at every point. */
  lemma ValuesOfEmpty(xs: seq<Elem>, zeros: seq<Elem>)
    requires |zeros| == |xs|
    requires forall j :: 0 <= j < |zeros| ==> zeros[j] == 0
    ensures zeros == ValuesAt([], xs)
  {
  }

  /** Horner's rule at all points at once: values * xs + c, entry by entry, are the
      values of the word with c appended. */
  lemma HornerEach(r: seq<Elem>, c: Elem, xs: seq<Elem>)
    ensures MulEachAdd(ValuesAt(r, xs), xs, c) == ValuesAt(r + [c], xs)
  {
    var next := MulEachAdd(ValuesAt(r, xs), xs, c);
    forall j | 0 <= j < |xs|
      ensures next[j] == ValuesAt(r + [c], xs)[j]
    {
      HornerStep(r, c, xs[j]);
    }
  }

  /** One Horner term of a sum: (a + b) p + (ru + rv) = (a p + ru) + (b p + rv). */
  lemma TermOfSum(a: Elem, b: Elem, p: Elem, ru: Elem, rv: Elem)
    ensures Add(Mul(Add(a, b), p), Add(ru, rv)) == Add(Add(Mul(a, p), ru), Add(Mul(b, p), rv))
  {
    DistribLeft(a, b, p);
    AddShuffle(Mul(a, p), Mul(b, p), ru, rv);
  }

  /** Evaluation is linear: the value of a sum of words is the sum of their values. */
  lemma {:induction false} ValueOfSum(u: seq<Elem>, v: seq<Elem>, x: Elem)
    requires |u| == |v|
    ensures ValueMsbFirst(AddEach(u, v), x) == Add(ValueMsbFirst(u, x), ValueMsbFirst(v, x))
    decreases |u|
  {
    if |u| != 0 {
      var w := AddEach(u, v);
      assert w[1..] == AddEach(u[1..], v[1..]);
      ValueOfSum(u[1..], v[1..], x);
      TermOfSum(u[0], v[0], Power(x, |u| - 1), ValueMsbFirst(u[1..], x), ValueMsbFirst(v[1..], x));
    }
  }

  /** The inner product of c with the powers 1, y, y^2, ... is c evaluated at y. */
  lemma {:induction false} DotWithPowers(c: seq<Elem>, powers: seq<Elem>, y: Elem)
    requires |powers| == |c|
    requires forall j :: 0 <= j < |c| ==> powers[j] == Power(y, j)
    ensures Dot(c, powers) == Eval(c, y)
    decreases |c|
  {
    if |c| != 0 {
      DotWithPowers(c[..|c| - 1], powers[..|c| - 1], y);
    }
  }

  /** The all-zero word has value zero everywhere. */
  lemma {:induction false} ValueOfZero(r: seq<Elem>, x: Elem)
    requires forall j :: 0 <= j < |r| ==> r[j] == 0
    ensures ValueMsbFirst(r, x) == 0
    decreases |r|
  {
    if |r| != 0 {
      ValueOfZero(r[1..], x);
      MulZero(Power(x, |r| - 1));
      AddZero(0);
    }
  }

  /** A word with a single 1, at index q, is the monomial x^(n-1-q). */
  lemma {:induction false} ValueOfUnit(r: seq<Elem>, q: nat, x: Elem)
    requires q < |r|
    requires forall j :: 0 <= j < |r| ==> r[j] == (if j == q then 1 else 0)
    ensures ValueMsbFirst(r, x) == Power(x, |r| - 1 - q)
    decreases |r|
  {
    var p := Power(x, |r| - 1);
    if q == 0 {
      ValueOfZero(r[1..], x);
      MulOne(p);
      AddZero(p);
    } else {
      ValueOfUnit(r[1..], q - 1, x);
      MulZero(p);
      AddZero(Power(x, |r| - 1 - q));
    }
  }

  /** The constant polynomial 1 has no roots. */
  lemma EvalOne(y: Elem)
    ensures Eval([1, 0, 0], y) == 1
  {
    var c := [1, 0, 0];
    assert c[..2][..1] == [1] && c[..2] == [1, 0] && c[..3] == c;
    assert Eval([1], y) == 1 by {
      assert [1][..0] == [];
      MulOne(1);
      AddZero(1);
    }
    MulZero(Power(y, 1));
    MulZero(Power(y, 2));
    AddZero(1);
  }
}
