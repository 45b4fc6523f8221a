/** What the inversion-free BCH decoder computes, stage by stage, as functions; the
    decoder's methods (module InversionFreeBch) are proved to compute exactly these.

    The code is the binary (63, 51) BCH code with t = 2 over GF(2^6).  A received word is
    a string of 63 characters, most significant coefficient first.  The decoder computes
    the 2t syndromes, runs the inversion-free Berlekamp-Massey iteration for 2t steps and
    then a Chien search over the 63 positions, reporting the positions i whose point
    alpha^(-i) is a root of the error-locator polynomial. */
module BchSpec {
  import opened Wrappers
  import opened GF64
  import opened Polynomials
  import opened Bits

  /** Code length 2^m - 1. */
  const N: nat := 63
  /** Number of correctable errors. */
  const T: nat := 2

  // ---------------------------------------------------------------------------
  // Reading the received word.
  // ---------------------------------------------------------------------------

  datatype DecodeError =
    | LengthMismatch(length: nat)   // the word does not have n characters
    | NotADigit(position: nat)      // a character is not a decimal digit

  /** The value of one character as a field element: a decimal digit denotes its value
      (0..9, all of them elements of GF(2^6)); anything else is an error. */
  function DigitValue(ch: char): Option<Elem> {
    if '0' <= ch <= '9' then Some((ch as int) - ('0' as int)) else None
  }

  predicate IsDigit(ch: char) {
    '0' <= ch <= '9'
  }

  /** Converts every character, failing at the first one that is not a digit. */
  function ParseDigits(s: string): (r: Result<seq<Elem>, DecodeError>)
    ensures r.Success? <==> forall i :: 0 <= i < |s| ==> IsDigit(s[i])
    ensures r.Success? ==>
              |r.value| == |s| && forall i :: 0 <= i < |s| ==> r.value[i] == (s[i] as int) - ('0' as int)
    ensures r.Failure? ==>
              && r.error.NotADigit?
              && r.error.position < |s|
              && !IsDigit(s[r.error.position])
              && forall i :: 0 <= i < r.error.position ==> IsDigit(s[i])
  {
    if |s| == 0 then Success([])
    else
      match ParseDigits(s[..|s| - 1])
      case Failure(e) => Failure(e)
      case Success(v) =>
        match DigitValue(s[|s| - 1])
        case None => Failure(NotADigit(|s| - 1))
        case Some(d) => Success(v + [d])
  }

  // ---------------------------------------------------------------------------
  // Syndromes.
  // ---------------------------------------------------------------------------

  /** S_j: the received polynomial evaluated at alpha^j. */
  function SyndromeAt(reccode: seq<Elem>, j: nat): Elem {
    ValueMsbFirst(reccode, AlphaPow(j))
  }

  /** Entry i is S_(2t - i): the syndromes S_2t, ..., S_1 in that order. */
  function Syndromes(reccode: seq<Elem>): seq<Elem> {
    seq(2 * T, i requires 0 <= i < 2 * T => SyndromeAt(reccode, 2 * T - i))
  }

  /** alpha_tb: entry i is alpha^(2t - i). */
  function AlphaTable(): seq<Elem> {
    seq(2 * T, i requires 0 <= i < 2 * T => AlphaPow(2 * T - i))
  }

  /** A vector of 2t entries whose entry i is alpha^(2t - i) is alpha_tb. */
  lemma AlphaTableFrom(s: seq<Elem>)
    requires |s| == 2 * T
    requires forall i :: 0 <= i < 2 * T ==> s[i] == AlphaPow(2 * T - i)
    ensures s == AlphaTable()
  {
    forall i | 0 <= i < 2 * T
      ensures s[i] == AlphaTable()[i]
    {
    }
  }

  /** The received word at the points of alpha_tb is the syndrome vector. */
  lemma SyndromesAsValues(reccode: seq<Elem>)
    ensures ValuesAt(reccode, AlphaTable()) == Syndromes(reccode)
  {
    var v := ValuesAt(reccode, AlphaTable());
    forall i | 0 <= i < 2 * T
      ensures v[i] == Syndromes(reccode)[i]
    {
      var x := AlphaTable()[i];
      assert x == AlphaPow(2 * T - i);
      assert v[i] == ValueMsbFirst(reccode, x);
      assert Syndromes(reccode)[i] == SyndromeAt(reccode, 2 * T - i);
    }
  }

  predicate AllZero(s: seq<Elem>) {
    forall j :: 0 <= j < |s| ==> s[j] == 0
  }

  /** The all-zero word has all syndromes zero. */
  lemma ZeroWordSyndromes(reccode: seq<Elem>)
    requires AllZero(reccode)
    ensures AllZero(Syndromes(reccode))
  {
    forall j | 1 <= j <= 2 * T
      ensures SyndromeAt(reccode, j) == 0
    {
      ValueOfZero(reccode, AlphaPow(j));
    }
  }

  // ---------------------------------------------------------------------------
  // The inversion-free Berlekamp-Massey iteration.
  // ---------------------------------------------------------------------------

  /** lambda: the error-locator polynomial, constant term first (t+1 entries);
      b: the correction polynomial shifted by one place (t+2 entries, b[0] unused);
      gamma: the previous nonzero discrepancy; k: the length bookkeeping;
      window: the syndromes lined up against lambda for the next discrepancy. */
  datatype BmState = BmState(lambda: seq<Elem>, b: seq<Elem>, gamma: Elem, k: int, window: seq<Elem>)

  predicate WellShaped(s: BmState) {
    |s.lambda| == T + 1 && |s.b| == T + 2 && |s.window| == T + 1
  }

  /** lambda = 1, b = x, gamma = 1, k = 0, window all zero. */
  function InitialState(): BmState {
    BmState(seq(T + 1, j => if j == 0 then 1 else 0), seq(T + 2, j => if j == 1 then 1 else 0),
            1, 0, seq(T + 1, _ => 0))
  }

  /** The 1-based range r1..r2 of syndrome entries lined up at step r. */
  function WindowFirst(r: nat): int {
    2 * T - r + 1
  }

  function WindowLast(r: nat): int {
    Min(WindowFirst(r) + T, 2 * T)
  }

  function WindowLength(r: nat): int {
    WindowLast(r) - WindowFirst(r) + 1
  }

  /** At step r the window holds min(r, t+1) syndromes, and its index range lies inside
      the syndrome array. */
  lemma WindowBounds(r: nat)
    requires 1 <= r <= 2 * T
    ensures WindowLength(r) == Min(r, T + 1)
    ensures 1 <= WindowFirst(r) <= WindowLast(r) <= 2 * T
  {
  }

  /** The window after step r: its first num entries are overwritten by syndrome entries
      r1..r2; the rest keep their previous values. */
  function NextWindow(window: seq<Elem>, syn: seq<Elem>, r: nat): seq<Elem>
    requires |window| == T + 1 && |syn| == 2 * T && 1 <= r <= 2 * T
  {
    WindowBounds(r);
    syn[WindowFirst(r) - 1..WindowLast(r)] + window[WindowLength(r)..]
  }

  /** The discrepancy delta of step r. */
  function Discrepancy(s: BmState, syn: seq<Elem>, r: nat): Elem
    requires WellShaped(s) && |syn| == 2 * T && 1 <= r <= 2 * T
  {
    Dot(NextWindow(s.window, syn, r), s.lambda)
  }

  /** One Berlekamp-Massey step: lambda := gamma lambda - delta b[0..t] (subtraction is
      exclusive or, like addition); then, if delta is nonzero and k >= 0, b[1..t+1] takes
      the old lambda, gamma takes delta and k becomes -k-1; otherwise b is shifted up one
      place and k grows by one. */
  function BmStep(s: BmState, syn: seq<Elem>, r: nat): (s': BmState)
    requires WellShaped(s) && |syn| == 2 * T && 1 <= r <= 2 * T
    ensures WellShaped(s')
  {
    var window := NextWindow(s.window, syn, r);
    var delta := Dot(window, s.lambda);
    var lambda := Update(s.gamma, s.lambda, delta, s.b[..T + 1]);
    if delta != 0 && s.k >= 0 then
      BmState(lambda, [s.b[0]] + s.lambda, delta, -s.k - 1, window)
    else
      BmState(lambda, [s.b[0]] + s.b[..T + 1], s.gamma, s.k + 1, window)
  }

  /** The state after steps 1..r. */
  function BmRun(syn: seq<Elem>, r: nat): (s: BmState)
    requires |syn| == 2 * T && r <= 2 * T
    ensures WellShaped(s)
    decreases r, 1
  {
    if r == 0 then InitialState() else BmRunStep(syn, r)
  }

  /** The state after step r >= 1: step r applied to the state after r - 1 steps. */
  function BmRunStep(syn: seq<Elem>, r: nat): (s: BmState)
    requires |syn| == 2 * T && 1 <= r <= 2 * T
    ensures WellShaped(s)
    decreases r, 0
  {
    BmStep(BmRun(syn, r - 1), syn, r)
  }

  /** The state after r >= 1 steps is step r applied to the state after r - 1. */
  lemma RunUnfold(syn: seq<Elem>, r: nat)
    requires |syn| == 2 * T && 1 <= r <= 2 * T
    ensures BmRun(syn, r) == BmStep(BmRun(syn, r - 1), syn, r)
  {
    assert BmRun(syn, r) == BmRunStep(syn, r);
  }

  /** What one step does to any well-shaped state, entry by entry. */
  lemma StepEntries(s: BmState, syn: seq<Elem>, r: nat)
    requires WellShaped(s) && |syn| == 2 * T && 1 <= r <= 2 * T
    ensures var s', d := BmStep(s, syn, r), Discrepancy(s, syn, r);
      && s'.b[0] == s.b[0]
      && (forall j :: 0 <= j <= T ==> s'.lambda[j] == Add(Mul(s.gamma, s.lambda[j]), Mul(d, s.b[j])))
      && s'.gamma == (if d != 0 && s.k >= 0 then d else s.gamma)
      && s'.window == NextWindow(s.window, syn, r)
  {
  }

  /** What step r changes, entry by entry. */
  lemma StepFacts(syn: seq<Elem>, r: nat)
    requires |syn| == 2 * T && 1 <= r <= 2 * T
    ensures var s, s', d := BmRun(syn, r - 1), BmRun(syn, r), Discrepancy(BmRun(syn, r - 1), syn, r);
      && s' == BmStep(s, syn, r)
      && s'.b[0] == s.b[0]
      && (forall j :: 0 <= j <= T ==> s'.lambda[j] == Add(Mul(s.gamma, s.lambda[j]), Mul(d, s.b[j])))
      && s'.gamma == (if d != 0 && s.k >= 0 then d else s.gamma)
      && s'.window == NextWindow(s.window, syn, r)
  {
    RunUnfold(syn, r);
    StepEntries(BmRun(syn, r - 1), syn, r);
  }

  /** The three facts the iteration keeps: b[0] is zero, gamma is nonzero, and the
      constant term of lambda is nonzero. */
  predicate BmInvariant(s: BmState)
    requires WellShaped(s)
  {
    s.b[0] == 0 && s.gamma != 0 && s.lambda[0] != 0
  }

  /** b[0] is never written; gamma only takes a nonzero discrepancy; and lambda[0] is
      only scaled by the nonzero gamma, since delta b[0] = 0. */
  lemma StepKeepsInvariant(syn: seq<Elem>, r: nat)
    requires |syn| == 2 * T && 1 <= r <= 2 * T
    requires BmInvariant(BmRun(syn, r - 1))
    ensures BmInvariant(BmRun(syn, r))
  {
    var s := BmRun(syn, r - 1);
    StepFacts(syn, r);
    NoZeroDivisors(s.gamma, s.lambda[0]);
    MulZero(Discrepancy(s, syn, r));
    AddZero(Mul(s.gamma, s.lambda[0]));
  }

  lemma {:induction false} InvariantHolds(syn: seq<Elem>, r: nat)
    requires |syn| == 2 * T && r <= 2 * T
    ensures BmInvariant(BmRun(syn, r))
  {
    if r != 0 {
      InvariantHolds(syn, r - 1);
      StepKeepsInvariant(syn, r);
    }
  }

  /** The window never shrinks, so its entries from min(r, t+1) on were never written. */
  lemma {:induction false} WindowTailZero(syn: seq<Elem>, r: nat)
    requires |syn| == 2 * T && r <= 2 * T
    ensures forall j :: Min(r, T + 1) <= j < T + 1 ==> BmRun(syn, r).window[j] == 0
  {
    if r != 0 {
      WindowTailZero(syn, r - 1);
      StepFacts(syn, r);
      WindowBounds(r);
    }
  }

  lemma {:induction false} DotZeroLeft(u: seq<Elem>, v: seq<Elem>)
    requires |u| == |v| && AllZero(u)
    ensures Dot(u, v) == 0
    decreases |u|
  {
    if |u| != 0 {
      DotZeroLeft(u[..|u| - 1], v[..|v| - 1]);
      MulZero(v[|v| - 1]);
      AddZero(0);
    }
  }

  /** The state while every syndrome seen is zero: lambda is the constant lambda[0],
      gamma equals it, it is idempotent and nonzero (so it is 1, see QuietLambda), b[0] is
      zero and the window is all zero. */
  predicate Quiet(s: BmState)
    requires WellShaped(s)
  {
    && s.lambda[1] == 0 && s.lambda[2] == 0 && s.lambda[0] != 0
    && s.gamma == s.lambda[0] && Mul(s.lambda[0], s.lambda[0]) == s.lambda[0]
    && s.b[0] == 0 && AllZero(s.window)
  }

  lemma InitialQuiet()
    ensures Quiet(InitialState())
  {
    MulOne(1);
  }

  /** With zero syndromes the discrepancy is zero, so lambda becomes gamma lambda = lambda. */
  lemma QuietStep(syn: seq<Elem>, r: nat)
    requires |syn| == 2 * T && 1 <= r <= 2 * T && AllZero(syn)
    requires Quiet(BmRun(syn, r - 1))
    ensures Quiet(BmRun(syn, r))
    ensures Discrepancy(BmRun(syn, r - 1), syn, r) == 0
  {
    var s := BmRun(syn, r - 1);
    var w := NextWindow(s.window, syn, r);
    WindowBounds(r);
    assert AllZero(w);
    DotZeroLeft(w, s.lambda);
    StepFacts(syn, r);
    MulZero(s.gamma);
    MulZero(s.b[0]);
    MulZero(s.b[1]);
    MulZero(s.b[2]);
    AddZero(Mul(s.gamma, s.lambda[0]));
    AddZero(0);
  }

  lemma {:induction false} QuietRun(syn: seq<Elem>, r: nat)
    requires |syn| == 2 * T && r <= 2 * T && AllZero(syn)
    ensures Quiet(BmRun(syn, r))
  {
    if r == 0 {
      InitialQuiet();
    } else {
      QuietRun(syn, r - 1);
      QuietStep(syn, r);
    }
  }

  /** A nonzero idempotent is 1. */
  lemma IdempotentIsOne(c: Elem)
    requires c != 0 && Mul(c, c) == c
    ensures c == 1
  {
    MulOne(c);
    MulCancel(c, 1, c);
  }

  /** In a quiet state lambda is the constant polynomial 1. */
  lemma QuietLambda(s: BmState)
    requires WellShaped(s) && Quiet(s)
    ensures s.lambda == [1, 0, 0]
  {
    IdempotentIsOne(s.lambda[0]);
  }

  /** If every syndrome is zero, the discrepancy of every step is zero ... */
  lemma ZeroSyndromesZeroDiscrepancy(syn: seq<Elem>, r: nat)
    requires |syn| == 2 * T && AllZero(syn) && 1 <= r <= 2 * T
    ensures Discrepancy(BmRun(syn, r - 1), syn, r) == 0
  {
    QuietRun(syn, r - 1);
    QuietStep(syn, r);
  }

  /** ... and lambda ends as the constant polynomial 1. */
  lemma ZeroSyndromesKeepLambda(syn: seq<Elem>)
    requires |syn| == 2 * T && AllZero(syn)
    ensures BmRun(syn, 2 * T).lambda == [1, 0, 0]
  {
    QuietRun(syn, 2 * T);
    QuietLambda(BmRun(syn, 2 * T));
  }

  // ---------------------------------------------------------------------------
  // Chien search.
  // ---------------------------------------------------------------------------

  /** error[i] is 1 exactly when lambda vanishes at alpha^(-i), for the n positions. */
  function ErrorFlags(lambda: seq<Elem>): seq<int> {
    FlagsUpTo(lambda, N)
  }

  /** 1 when alpha^(-i) is a root of lambda, else 0. */
  function ErrorFlag(lambda: seq<Elem>, i: nat): int {
    if Eval(lambda, AlphaInvPow(i)) == 0 then 1 else 0
  }

  /** The flags of positions 0..i-1, built up one position at a time as the search
      proceeds. */
  function FlagsUpTo(lambda: seq<Elem>, i: nat): (r: seq<int>)
    ensures |r| == i
  {
    if i == 0 then [] else FlagsUpTo(lambda, i - 1) + [ErrorFlag(lambda, i - 1)]
  }

  lemma {:induction false} FlagsUpToAt(lambda: seq<Elem>, i: nat, x: nat)
    requires x < i
    ensures FlagsUpTo(lambda, i)[x] == ErrorFlag(lambda, x)
  {
    if x < i - 1 {
      FlagsUpToAt(lambda, i - 1, x);
    }
  }

  /** The error vector is a 0/1 vector whose entry i is 1 exactly when alpha^(-i) is a
      root of lambda. */
  lemma ErrorFlagsMeaning(lambda: seq<Elem>)
    ensures |ErrorFlags(lambda)| == N
    ensures forall i :: 0 <= i < N ==> (ErrorFlags(lambda)[i] == 1 <==> Eval(lambda, AlphaInvPow(i)) == 0)
    ensures forall i :: 0 <= i < N ==> ErrorFlags(lambda)[i] == 0 || ErrorFlags(lambda)[i] == 1
  {
    forall i | 0 <= i < N
      ensures ErrorFlags(lambda)[i] == 1 <==> Eval(lambda, AlphaInvPow(i)) == 0
      ensures ErrorFlags(lambda)[i] == 0 || ErrorFlags(lambda)[i] == 1
    {
      ErrorFlagAt(lambda, i);
    }
  }

  /** The error vector after the first i positions of the search: their flags, then the
      zeros it was created with. */
  function SearchState(lambda: seq<Elem>, i: nat): seq<int>
    requires i <= N
  {
    FlagsUpTo(lambda, i) + seq(N - i, _ => 0)
  }

  /** Setting entry i to its flag advances the search by one position. */
  lemma SearchStep(lambda: seq<Elem>, i: nat)
    requires i < N
    ensures SearchState(lambda, i)[i := ErrorFlag(lambda, i)] == SearchState(lambda, i + 1)
  {
    var s, s' := SearchState(lambda, i), SearchState(lambda, i + 1);
    forall x | 0 <= x < N
      ensures s[i := ErrorFlag(lambda, i)][x] == s'[x]
    {
      if x < i {
        FlagsUpToAt(lambda, i, x);
        FlagsUpToAt(lambda, i + 1, x);
      } else if x == i {
        FlagsUpToAt(lambda, i + 1, x);
      }
    }
  }

  /** Entry i of the flags is 1 exactly at a root alpha^(-i). */
  lemma ErrorFlagAt(lambda: seq<Elem>, i: nat)
    requires i < N
    ensures ErrorFlags(lambda)[i] == (if Eval(lambda, AlphaInvPow(i)) == 0 then 1 else 0)
  {
    FlagsUpToAt(lambda, N, i);
  }

  /** inverse_tb: entry j is alpha^(-j), for j = 0..t. */
  function InverseTable(): seq<Elem> {
    seq(T + 1, j requires 0 <= j < T + 1 => AlphaInvPow(j))
  }

  /** accu_tb at position i: entry j is (alpha^(-i))^j, for j = 0..t. */
  function ChienPowers(i: nat): seq<Elem> {
    seq(T + 1, j requires 0 <= j < T + 1 => Power(AlphaInvPow(i), j))
  }

  /** All ones is the table of powers of alpha^(-0). */
  lemma ChienPowersStart(ones: seq<Elem>)
    requires |ones| == T + 1
    requires forall j :: 0 <= j < T + 1 ==> ones[j] == 1
    ensures ones == ChienPowers(0)
  {
    forall j | 0 <= j < T + 1
      ensures ones[j] == ChienPowers(0)[j]
    {
      PowerOfAlphaInvZero(j);
    }
  }

  /** Multiplying the powers at position i entry-wise by inverse_tb gives the powers at
      position i + 1. */
  lemma ChienPowersNext(i: nat)
    ensures MulEach(ChienPowers(i), InverseTable()) == ChienPowers(i + 1)
  {
    var next := MulEach(ChienPowers(i), InverseTable());
    forall j | 0 <= j < T + 1
      ensures next[j] == ChienPowers(i + 1)[j]
    {
      ChienStep(i, j);
    }
  }

  /** The inner product of lambda with the powers at position i is lambda at alpha^(-i),
      so comparing it with zero gives the flag of position i. */
  lemma ChienValue(lambda: seq<Elem>, i: nat)
    requires |lambda| == T + 1 && i < N
    ensures Dot(lambda, ChienPowers(i)) == Eval(lambda, AlphaInvPow(i))
    ensures ErrorFlag(lambda, i) == (if Dot(lambda, ChienPowers(i)) == 0 then 1 else 0)
  {
    DotWithPowers(lambda, ChienPowers(i), AlphaInvPow(i));
  }

  /** The indices x >= i of the nonzero entries of e, in increasing order. */
  function NonzeroFrom(e: seq<int>, i: nat): (r: seq<nat>)
    requires i <= |e|
    ensures forall p :: 0 <= p < |r| ==> i <= r[p] < |e| && e[r[p]] != 0
    ensures forall p, q :: 0 <= p < q < |r| ==> r[p] < r[q]
    decreases |e| - i
  {
    if i == |e| then []
    else (if e[i] != 0 then [i] else []) + NonzeroFrom(e, i + 1)
  }

  /** Every nonzero entry at an index x >= i is listed. */
  lemma {:induction false} NonzeroFromComplete(e: seq<int>, i: nat, x: nat)
    requires i <= x < |e| && e[x] != 0
    ensures x in NonzeroFrom(e, i)
    decreases x - i
  {
    if i < x {
      NonzeroFromComplete(e, i + 1, x);
    }
  }

  /** np.nonzero: exactly the indices of the nonzero entries of e, in increasing order. */
  function NonzeroIndices(e: seq<int>): (r: seq<nat>)
    ensures forall p :: 0 <= p < |r| ==> r[p] < |e| && e[r[p]] != 0
    ensures forall p, q :: 0 <= p < q < |r| ==> r[p] < r[q]
    ensures forall x :: 0 <= x < |e| && e[x] != 0 ==> x in r
  {
    AllNonzeroListed(e);
    NonzeroFrom(e, 0)
  }

  lemma AllNonzeroListed(e: seq<int>)
    ensures forall x :: 0 <= x < |e| && e[x] != 0 ==> x in NonzeroFrom(e, 0)
  {
    forall x | 0 <= x < |e| && e[x] != 0
      ensures x in NonzeroFrom(e, 0)
    {
      NonzeroFromComplete(e, 0, x);
    }
  }

  // ---------------------------------------------------------------------------
  // The whole decoder.
  // ---------------------------------------------------------------------------

  /** The positions found and the 0/1 error vector. */
  datatype Decoded = Decoded(found: seq<nat>, error: seq<int>)

  /** The three stages on a received word: syndromes, 2t Berlekamp-Massey steps, Chien
      search. */
  function DecodeWord(reccode: seq<Elem>): Decoded {
    var error := ErrorFlags(BmRun(Syndromes(reccode), 2 * T).lambda);
    Decoded(NonzeroIndices(error), error)
  }

  /** The decoder as one function of the received string: length check, conversion,
      then the three stages. */
  function Decode(input: string): (r: Result<Decoded, DecodeError>)
    ensures |input| != N ==> r == Failure(LengthMismatch(|input|))
    ensures |input| == N ==> (r.Success? <==> forall i :: 0 <= i < N ==> IsDigit(input[i]))
    ensures r.Success? ==>
              && |r.value.error| == N
              && (forall i :: 0 <= i < N ==> r.value.error[i] == 0 || r.value.error[i] == 1)
              && (forall p :: 0 <= p < |r.value.found| ==> r.value.found[p] < N && r.value.error[r.value.found[p]] == 1)
  {
    if |input| != N then Failure(LengthMismatch(|input|))
    else
      match ParseDigits(input)
      case Failure(e) => Failure(e)
      case Success(reccode) =>
        ErrorFlagsMeaning(BmRun(Syndromes(reccode), 2 * T).lambda);
        Success(DecodeWord(reccode))
  }

  /** An all-zero vector has no nonzero indices. */
  lemma {:induction false} NoFlagsNoIndices(e: seq<int>, i: nat)
    requires i <= |e|
    requires forall x :: 0 <= x < |e| ==> e[x] == 0
    ensures NonzeroFrom(e, i) == []
    decreases |e| - i
  {
    if i < |e| {
      NoFlagsNoIndices(e, i + 1);
    }
  }

  /** The constant polynomial 1 has no roots, so the Chien search flags nothing. */
  lemma NoRootsNoFlags(lambda: seq<Elem>)
    requires lambda == [1, 0, 0]
    ensures forall i :: 0 <= i < N ==> ErrorFlags(lambda)[i] == 0
    ensures NonzeroIndices(ErrorFlags(lambda)) == []
  {
    forall i | 0 <= i < N
      ensures ErrorFlags(lambda)[i] == 0
    {
      ErrorFlagAt(lambda, i);
      EvalOne(AlphaInvPow(i));
    }
    NoFlagsNoIndices(ErrorFlags(lambda), 0);
  }

  /** A received word whose syndromes are all zero (a codeword) is reported error-free. */
  lemma CodewordHasNoErrors(input: string)
    requires |input| == N && ParseDigits(input).Success?
    requires AllZero(Syndromes(ParseDigits(input).value))
    ensures Decode(input).Success?
    ensures Decode(input).value.found == []
    ensures forall i :: 0 <= i < N ==> Decode(input).value.error[i] == 0
  {
    ZeroSyndromesKeepLambda(Syndromes(ParseDigits(input).value));
    NoRootsNoFlags(BmRun(Syndromes(ParseDigits(input).value), 2 * T).lambda);
  }

  /** In particular the all-zero word decodes to no error positions. */
  lemma ZeroWordHasNoErrors(input: string)
    requires |input| == N && forall i :: 0 <= i < N ==> input[i] == '0'
    ensures Decode(input).Success? && Decode(input).value.found == []
  {
    var reccode := ParseDigits(input).value;
    ZeroWordSyndromes(reccode);
    CodewordHasNoErrors(input);
  }
}
