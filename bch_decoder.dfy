/** The decoder of bch_decode, stage by stage, over arrays updated in place; every
    stage is proved to compute the corresponding function of module BchSpec. */
module InversionFreeBch {
  import opened Wrappers
  import opened GF64
  import opened Polynomials
  import opened BchSpec
  import opened Bits

  /** Each character of the input converted to its digit value, in order, stopping with
      an error at the first one that is not a digit. */
  method ToDigits(input: string) returns (r: Result<seq<Elem>, DecodeError>)
    ensures r == ParseDigits(input)
  {
    var v: seq<Elem> := [];
    for i := 0 to |input|
      invariant ParseDigits(input[..i]) == Success(v)
    {
      assert input[..i + 1][..i] == input[..i];
      match DigitValue(input[i])
      case None =>
        assert forall x :: 0 <= x < i ==> IsDigit(input[..i][x]);
        return Failure(NotADigit(i));
      case Some(d) =>
        v := v + [d];
    }
    assert input[..|input|] == input;
    r := Success(v);
  }

  /** The table of syndrome points: entry i is alpha^(2t - i), for i = 0..2t-1. */
  method BuildAlphaTable() returns (alphaTb: array<Elem>)
    ensures fresh(alphaTb)
    ensures alphaTb[..] == AlphaTable()
  {
    alphaTb := new Elem[2 * T];
    for i := 0 to 2 * T
      invariant forall j :: 0 <= j < i ==> alphaTb[j] == AlphaPow(2 * T - j)
    {
      alphaTb[i] := AlphaPow(2 * T - i);
    }
    AlphaTableFrom(alphaTb[..]);
  }

  /** The syndrome loop: for every received coefficient from the most significant down,
      syndrome := syndrome * alpha_tb + coefficient, entry by entry (Horner's rule at all
      2t points at once). */
  method ComputeSyndromes(reccode: seq<Elem>) returns (syndrome: seq<Elem>)
    requires |reccode| == N
    ensures syndrome == Syndromes(reccode)
  {
    var alphaTb := BuildAlphaTable();
    ghost var points := alphaTb[..];
    syndrome := seq(2 * T, _ => 0);
    ValuesOfEmpty(points, syndrome);
    assert reccode[..0] == [];
    for i := 0 to N
      invariant alphaTb[..] == points
      invariant syndrome == ValuesAt(reccode[..i], points)
    {
      HornerEach(reccode[..i], reccode[i], points);
      assert reccode[..i + 1] == reccode[..i] + [reccode[i]];
      syndrome := MulEachAdd(syndrome, alphaTb[..], reccode[i]);
    }
    assert reccode[..N] == reccode;
    SyndromesAsValues(reccode);
  }

  /** The first num entries of the window take the syndrome entries r1..r2 (1-based) of
      step r; the others keep their values. */
  method LoadWindow(window: array<Elem>, syndrome: seq<Elem>, r: nat)
    requires window.Length == T + 1 && |syndrome| == 2 * T && 1 <= r <= 2 * T
    modifies window
    ensures window[..] == NextWindow(old(window[..]), syndrome, r)
  {
    WindowBounds(r);
    var r1 := 2 * T - r + 1;
    var r2 := Min(r1 + T, 2 * T);
    var num := r2 - r1 + 1;
    forall j | 0 <= j < num {
      window[j] := syndrome[r1 - 1 + j];
    }
    assert window[..] == syndrome[r1 - 1..r2] + old(window[..])[num..];
  }

  /** Entries 1..t+1 of b take v; entry 0 is kept. */
  method ShiftInto(b: array<Elem>, v: seq<Elem>)
    requires b.Length == T + 2 && |v| == T + 1
    modifies b
    ensures b[..] == [old(b[0])] + v
  {
    forall j | 1 <= j < T + 2 {
      b[j] := v[j - 1];
    }
    assert b[..] == [old(b[0])] + v;
  }

  /** Buffers filled as the decoder fills them before its loop hold the state after no
      steps. */
  lemma StartState(syndrome: seq<Elem>, lambda: seq<Elem>, b: seq<Elem>, window: seq<Elem>)
    requires |syndrome| == 2 * T
    requires lambda == seq(T + 1, j => if j == 0 then 1 else 0)
    requires |b| == T + 2 && forall j :: 0 <= j < T + 2 ==> b[j] == (if j == 1 then 1 else 0)
    requires |window| == T + 1 && forall j :: 0 <= j < T + 1 ==> window[j] == 0
    ensures BmState(lambda, b, 1, 0, window) == BmRun(syndrome, 0)
  {
    var s := InitialState();
    assert b == s.b && window == s.window;
  }

  /** One pass of the Berlekamp-Massey loop, step r: load the window, compute the
      discrepancy delta, rebind lambda to gamma lambda - delta b[0..t], then update b,
      gamma and k by one of the two branches. */
  method BmIteration(syndrome: seq<Elem>, window: array<Elem>, b: array<Elem>,
                     lambda: seq<Elem>, gamma: Elem, k: int, r: nat)
    returns (lambda': seq<Elem>, gamma': Elem, k': int)
    requires |syndrome| == 2 * T && window.Length == T + 1 && b.Length == T + 2
    requires |lambda| == T + 1 && 1 <= r <= 2 * T
    requires b != window
    modifies window, b
    ensures BmState(lambda', b[..], gamma', k', window[..])
         == BmStep(BmState(lambda, old(b[..]), gamma, k, old(window[..])), syndrome, r)
  {
    LoadWindow(window, syndrome, r);
    var delta := Dot(window[..], lambda);
    lambda' := Update(gamma, lambda, delta, b[..T + 1]);
    if delta != 0 && k >= 0 {
      ShiftInto(b, lambda);
      gamma' := delta;
      k' := -k - 1;
    } else {
      ShiftInto(b, b[..T + 1]);
      gamma' := gamma;
      k' := k + 1;
    }
  }

  /** The inversion-free Berlekamp-Massey loop, r = 1..2t, from lambda = 1, b = x,
      gamma = 1, k = 0 and an all-zero window. */
  method BerlekampMassey(syndrome: seq<Elem>) returns (lambda: seq<Elem>)
    requires |syndrome| == 2 * T
    ensures lambda == BmRun(syndrome, 2 * T).lambda
  {
    lambda := seq(T + 1, j => if j == 0 then 1 else 0);
    var b := new Elem[T + 2](j => if j == 1 then 1 else 0);
    var k := 0;
    var gamma: Elem := 1;
    var syndromeArray := new Elem[T + 1](_ => 0);
    StartState(syndrome, lambda, b[..], syndromeArray[..]);
    for r := 1 to 2 * T + 1
      invariant BmState(lambda, b[..], gamma, k, syndromeArray[..]) == BmRun(syndrome, r - 1)
    {
      RunUnfold(syndrome, r);
      lambda, gamma, k := BmIteration(syndrome, syndromeArray, b, lambda, gamma, k, r);
    }
  }

  /** The table of inverse powers: entry j is alpha^(-j), for j = 0..t. */
  method BuildInverseTable() returns (inverseTb: array<Elem>)
    ensures fresh(inverseTb)
    ensures inverseTb[..] == InverseTable()
  {
    inverseTb := new Elem[T + 1];
    for i := 1 to T + 2
      invariant forall j :: 0 <= j < i - 1 ==> inverseTb[j] == InverseTable()[j]
    {
      inverseTb[i - 1] := AlphaInvPow(i - 1);
      assert inverseTb[i - 1] == InverseTable()[i - 1];
    }
  }

  /** The Chien search. Entry j of the inverse table is alpha^(-j); the running powers
      start at all ones and are multiplied entry-wise by that table after each of the n
      positions, so that at position i entry j holds (alpha^(-i))^j and their dot product
      with lambda is lambda evaluated at alpha^(-i). */
  method ChienSearch(lambda: seq<Elem>) returns (found: seq<nat>, error: array<int>)
    requires |lambda| == T + 1
    ensures error.Length == N
    ensures error[..] == ErrorFlags(lambda)
    ensures found == NonzeroIndices(error[..])
  {
    var inverseTb := BuildInverseTable();
    var accu: seq<Elem> := seq(T + 1, _ => 1);
    error := new int[N](_ => 0);
    ChienPowersStart(accu);
    assert error[..] == SearchState(lambda, 0);
    for i := 0 to N
      invariant inverseTb[..] == InverseTable()
      invariant accu == ChienPowers(i)
      invariant error[..] == SearchState(lambda, i)
    {
      var lambdaV := Dot(lambda, accu);
      if lambdaV == 0 {
        error[i] := 1;
      } else {
        error[i] := 0;
      }
      ChienValue(lambda, i);
      SearchStep(lambda, i);
      ChienPowersNext(i);
      accu := MulEach(accu, inverseTb[..]);
    }
    assert SearchState(lambda, N) == ErrorFlags(lambda);
    found := NonzeroIndices(error[..]);
  }

  /** bch_decode on a given received string: the length check, the conversion, then the
      three stages. */
  method BchDecode(input: string) returns (r: Result<Decoded, DecodeError>)
    ensures r == Decode(input)
    ensures |input| != N <==> r == Failure(LengthMismatch(|input|))
  {
    if |input| != N {
      return Failure(LengthMismatch(|input|));
    }
    var digits := ToDigits(input);
    if digits.Failure? {
      return Failure(digits.error);
    }
    var syndrome := ComputeSyndromes(digits.value);
    var lambda := BerlekampMassey(syndrome);
    var found, error := ChienSearch(lambda);
    r := Success(Decoded(found, error[..]));
  }
}
