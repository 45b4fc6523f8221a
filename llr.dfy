/** The LLR input side of the BCH test flow: 8-bit two's-complement LLR values read
    from rows of '0'/'1' characters, hard decisions, the n-bit received codeword
    packed most significant bit first, the cutting of the row list into one block of
    rows per input, and the grouping of the answer lines into error positions. */
module LlrInputs {
  import opened Wrappers
  import opened Bits

  /** The ValueErrors raised on this path: a chunk or answer line that is not a binary
      numeral, and a row block that holds fewer LLR values than the code needs. */
  datatype LlrError = InvalidBinary(text: string) | NotEnoughLlrs(need: nat, got: nat)

  // ---------------------------------------------------------------------------
  // One LLR value.
  // ---------------------------------------------------------------------------

  /** The value of a base-2 numeral of '0' and '1' characters; anything else, the empty
      string included, is an error (the source raises ValueError). */
  function ParseBinary(s: string): (r: Result<nat, LlrError>)
    ensures r.Success? <==> |s| != 0 && IsBinary(s)
    ensures r.Success? ==> r.value < Pow2(|s|)
    ensures r.Failure? ==> r.error == InvalidBinary(s)
  {
    if |s| != 0 && IsBinary(s) then
      BinaryValueBound(s);
      Success(BinaryValue(s))
    else Failure(InvalidBinary(s))
  }

  /** The k-character numeral of any value below 2^k, k > 0, parses back to the value. */
  lemma ParseBinaryNumeral(v: nat, k: nat)
    requires 0 < k && v < Pow2(k)
    ensures ParseBinary(Numeral(v, k)) == Success(v)
  {
    NumeralValue(v, k);
  }

  /** The two's-complement reading of an integer: value - 256 when value & 0x80 is set,
      value otherwise (x // 128 % 2 is bit 7 of x, for negative x too). */
  function ToSigned8(value: int): int {
    if (value / 128) % 2 == 1 then value - 256 else value
  }

  /** parse_8bit_signed_llr on a string: it fails exactly where int(s, 2) does, and
      otherwise the value is the numeral's value modulo 256; an 8-character numeral
      reads as -128..127, negative exactly when its leading character is '1'. */
  function ParseSigned8(s: string): (r: Result<int, LlrError>)
    ensures r.Success? <==> |s| != 0 && IsBinary(s)
    ensures r.Success? ==> (r.value - BinaryValue(s)) % 256 == 0
    ensures |s| == 8 && IsBinary(s) ==> r.Success? && -128 <= r.value <= 127 && (r.value < 0 <==> s[0] == '1')
  {
    match ParseBinary(s)
    case Failure(e) => Failure(e)
    case Success(value) =>
      LeadingSign(s);
      Success(ToSigned8(value))
  }

  /** An 8-character numeral is a byte, at least 128 exactly when it starts with '1'. */
  lemma LeadingSign(s: string)
    requires IsBinary(s)
    ensures |s| == 8 ==> BinaryValue(s) < 256 && (BinaryValue(s) >= 128 <==> s[0] == '1')
  {
    if |s| == 8 {
      BinaryValueFront(s);
      BinaryValueBound(s);
      BinaryValueBound(s[1..]);
      assert Pow2(7) == 128 && Pow2(8) == 256;
    }
  }

  /** A byte value 0..255 reads as a signed value in -128..127 that is congruent to it
      modulo 256. */
  lemma SignedRange(value: int)
    requires 0 <= value < 256
    ensures -128 <= ToSigned8(value) <= 127
    ensures (ToSigned8(value) - value) % 256 == 0
    ensures ToSigned8(value) < 0 <==> value >= 128
  {
  }

  /** Every signed value -128..127 is the reading of its byte v mod 256. */
  lemma SignedRoundTrip(v: int)
    requires -128 <= v <= 127
    ensures ToSigned8(v % 256) == v
  {
    if v < 0 {
      assert v % 256 == v + 256;
    }
  }

  /** The 8-character numeral of a signed value, as the input rows carry it. */
  function Byte8(v: int): (s: string)
    requires -128 <= v <= 127
    ensures |s| == 8 && IsBinary(s)
  {
    Numeral(v % 256, 8)
  }

  /** The numeral of every value in -128..127 parses back to it. */
  lemma ParseByte8(v: int)
    requires -128 <= v <= 127
    ensures ParseSigned8(Byte8(v)) == Success(v)
  {
    assert Pow2(8) == 256;
    NumeralValue(v % 256, 8);
    SignedRoundTrip(v);
  }

  /** llr_to_hard_decision: bit 1 for a negative LLR, bit 0 otherwise (zero included). */
  function HardDecision(llr: int): (b: nat)
    ensures b <= 1
    ensures b == 1 <==> llr < 0
  {
    if llr < 0 then 1 else 0
  }

  // ---------------------------------------------------------------------------
  // A block of rows to an LLR list and a codeword.
  // ---------------------------------------------------------------------------

  /** The rows concatenated in order. */
  function Join(rows: seq<string>): string {
    if |rows| == 0 then "" else Join(rows[..|rows| - 1]) + rows[|rows| - 1]
  }

  /** The LLR values of the consecutive 8-character chunks of bits, left to right; a
      trailing chunk of fewer than 8 characters is ignored, and the first chunk that is
      not a numeral raises. */
  function ParseLlrs(bits: string): (r: Result<seq<int>, LlrError>)
    ensures r.Success? ==> |r.value| == |bits| / 8
    ensures r.Success? ==> forall i :: 0 <= i < |r.value| ==> -128 <= r.value[i] <= 127
    ensures IsBinary(bits) ==> r.Success?
    decreases |bits|
  {
    if |bits| < 8 then Success([])
    else
      assert IsBinary(bits) ==> IsBinary(bits[..8]) && IsBinary(bits[8..]);
      match ParseSigned8(bits[..8])
      case Failure(e) => Failure(e)
      case Success(v) => Prepend([v], ParseLlrs(bits[8..]))
  }

  /** values + the values of a successful result; a failure passes through. */
  function Prepend(values: seq<int>, r: Result<seq<int>, LlrError>): Result<seq<int>, LlrError> {
    match r
    case Failure(e) => Failure(e)
    case Success(rest) => Success(values + rest)
  }

  lemma PrependNil(r: Result<seq<int>, LlrError>)
    ensures Prepend([], r) == r
  {
    if r.Success? {
      assert [] + r.value == r.value;
    }
  }

  lemma PrependTwice(a: seq<int>, b: seq<int>, r: Result<seq<int>, LlrError>)
    ensures Prepend(a, Prepend(b, r)) == Prepend(a + b, r)
  {
    if r.Success? {
      assert a + (b + r.value) == (a + b) + r.value;
    }
  }

  /** Characters after the last full chunk change nothing. */
  lemma {:induction false} PartialChunkIgnored(bits: string, tail: string)
    requires |bits| % 8 == 0 && |tail| < 8
    ensures ParseLlrs(bits + tail) == ParseLlrs(bits)
    decreases |bits|
  {
    if |bits| >= 8 {
      assert (bits + tail)[..8] == bits[..8];
      assert (bits + tail)[8..] == bits[8..] + tail;
      PartialChunkIgnored(bits[8..], tail);
    }
  }

  /** The hard decisions of LLR1..LLRk: entry q is the bit of llr_values[q + 1]. */
  function HardBits(values: seq<int>, k: nat): (bits: seq<nat>)
    requires k < |values|
    ensures |bits| == k
    ensures forall q :: 0 <= q < k ==> bits[q] == HardDecision(values[q + 1]) && bits[q] <= 1
  {
    if k == 0 then [] else HardBits(values, k - 1) + [HardDecision(values[k])]
  }

  /** The integer of a bit list, first entry most significant. */
  function Pack(bits: seq<nat>): nat {
    if |bits| == 0 then 0 else 2 * Pack(bits[..|bits| - 1]) + bits[|bits| - 1]
  }

  /** The result of parse_llr_rows_to_codeword: the codeword and every parsed LLR. */
  datatype ParsedRows = ParsedRows(codeword: nat, llrs: seq<int>)

  /** parse_llr_rows_to_codeword as one function of the rows and n: when the chunks
      parse, it fails with NotEnoughLlrs exactly when the rows hold fewer than
      (n + 1) * 8 characters, and otherwise it keeps every parsed LLR. */
  function ParseRows(rows: seq<string>, n: nat): (r: Result<ParsedRows, LlrError>)
    ensures ParseLlrs(Join(rows)).Failure? ==> r == Failure(ParseLlrs(Join(rows)).error)
    ensures ParseLlrs(Join(rows)).Success? ==>
      (r.Success? <==> |Join(rows)| / 8 >= n + 1) &&
      (r.Failure? ==> r.error == NotEnoughLlrs(n + 1, |Join(rows)| / 8)) &&
      (r.Success? ==> r.value.llrs == ParseLlrs(Join(rows)).value)
  {
    match ParseLlrs(Join(rows))
    case Failure(e) => Failure(e)
    case Success(values) =>
      if |values| < n + 1 then Failure(NotEnoughLlrs(n + 1, |values|))
      else Success(ParsedRows(Pack(HardBits(values, n)), values))
  }

  lemma {:induction false} PackBound(bits: seq<nat>)
    requires forall q :: 0 <= q < |bits| ==> bits[q] <= 1
    ensures Pack(bits) < Pow2(|bits|)
    decreases |bits|
  {
    if |bits| != 0 {
      PackBound(bits[..|bits| - 1]);
    }
  }

  /** Bit p of the packed integer is entry |bits| - 1 - p of the list. */
  lemma {:induction false} PackBit(bits: seq<nat>, p: nat)
    requires forall q :: 0 <= q < |bits| ==> bits[q] <= 1
    requires p < |bits|
    ensures Bit(Pack(bits), p) == bits[|bits| - 1 - p]
    decreases p
  {
    var init := bits[..|bits| - 1];
    assert Pack(bits) / 2 == Pack(init) && Pack(bits) % 2 == bits[|bits| - 1];
    if p != 0 {
      PackBit(init, p - 1);
    }
  }

  /** Bit n - i of the packed hard decisions is set exactly when LLRi is negative. */
  lemma CodewordBit(values: seq<int>, n: nat, i: nat)
    requires n < |values| && 1 <= i <= n
    ensures Bit(Pack(HardBits(values, n)), n - i) == 1 <==> values[i] < 0
  {
    PackBit(HardBits(values, n), n - i);
  }

  /** The codeword of a successful parse is below 2^n, and for i = 1..n its bit n - i
      is set exactly when LLRi is negative. */
  lemma CodewordBits(rows: seq<string>, n: nat)
    requires ParseRows(rows, n).Success?
    ensures ParseRows(rows, n).value.codeword < Pow2(n)
    ensures forall i :: 1 <= i <= n ==>
      (Bit(ParseRows(rows, n).value.codeword, n - i) == 1 <==> ParseRows(rows, n).value.llrs[i] < 0)
  {
    var p := ParseRows(rows, n).value;
    assert p.codeword == Pack(HardBits(p.llrs, n));
    PackBound(HardBits(p.llrs, n));
    forall i | 1 <= i <= n
      ensures Bit(p.codeword, n - i) == 1 <==> p.llrs[i] < 0
    {
      CodewordBit(p.llrs, n, i);
    }
  }

  /** LLR0 is never read: two LLR lists that differ only there give the same codeword. */
  lemma Llr0Ignored(values: seq<int>, other: seq<int>, n: nat)
    requires n < |values| == |other|
    requires forall i :: 1 <= i < |values| ==> values[i] == other[i]
    ensures Pack(HardBits(values, n)) == Pack(HardBits(other, n))
  {
    assert HardBits(values, n) == HardBits(other, n);
  }

  /** The loop's invariant: the values read so far followed by the parse of the
      characters from i on give the parse of the whole string. */
  predicate Consumed(bits: string, i: nat, values: seq<int>) {
    ParseLlrs(bits) == Prepend(values, ParseLlrs(bits[Min(i, |bits|)..]))
  }

  lemma ConsumedNone(bits: string)
    ensures Consumed(bits, 0, [])
  {
    assert bits[0..] == bits;
    PrependNil(ParseLlrs(bits));
  }

  /** One pass of the chunk loop at i: a full chunk that does not parse is the error of
      the whole parse, one that parses moves its value to the front, and a partial
      chunk adds nothing. */
  lemma ChunkStep(bits: string, i: nat, values: seq<int>)
    requires i < |bits| && Consumed(bits, i, values)
    ensures var j := Min(i + 8, |bits|);
      var v := ParseSigned8(bits[i..j]);
      && (j - i == 8 && v.Failure? ==> ParseLlrs(bits) == Failure(v.error))
      && (j - i == 8 && v.Success? ==> Consumed(bits, i + 8, values + [v.value]))
      && (j - i < 8 ==> Consumed(bits, i + 8, values))
  {
    var j := Min(i + 8, |bits|);
    assert Min(i, |bits|) == i && Min(i + 8, |bits|) == j;
    if j - i == 8 {
      assert bits[i..][..8] == bits[i..j];
      assert bits[i..][8..] == bits[j..];
      var v := ParseSigned8(bits[i..j]);
      if v.Success? {
        PrependTwice(values, [v.value], ParseLlrs(bits[j..]));
      }
    } else {
      assert bits[j..] == [];
    }
  }

  /** Once every chunk is read, the values read are the parse. */
  lemma ConsumedAll(bits: string, i: nat, values: seq<int>)
    requires i >= |bits| && Consumed(bits, i, values)
    ensures ParseLlrs(bits) == Success(values)
  {
    assert bits[Min(i, |bits|)..] == [];
    assert values + [] == values;
  }

  method ParseLlrValues(allBits: string) returns (r: Result<seq<int>, LlrError>)
    ensures r == ParseLlrs(allBits)
  {
    var values: seq<int> := [];
    var i := 0;
    ConsumedNone(allBits);
    while i < |allBits|
      invariant Consumed(allBits, i, values)
      decreases |allBits| - i
    {
      var chunk := allBits[i..Min(i + 8, |allBits|)];
      ChunkStep(allBits, i, values);
      if |chunk| == 8 {
        var v := ParseSigned8(chunk);
        if v.Failure? {
          return Failure(v.error);
        }
        values := values + [v.value];
      }
      i := i + 8;
    }
    ConsumedAll(allBits, i, values);
    r := Success(values);
  }

  /** parse_llr_rows_to_codeword: join the rows, parse the LLR values, check that
      there are at least n + 1 of them, take the hard decisions of LLR1..LLRn, and OR
      each decision into the codeword at bit n - 1 - q. */
  method ParseLlrRowsToCodeword(rows: seq<string>, n: nat) returns (r: Result<ParsedRows, LlrError>)
    ensures r == ParseRows(rows, n)
  {
    var allBits := Join(rows);
    var parsed := ParseLlrValues(allBits);
    if parsed.Failure? {
      return Failure(parsed.error);
    }
    var values := parsed.value;
    if |values| < n + 1 {
      return Failure(NotEnoughLlrs(n + 1, |values|));
    }
    var hardDecisions: seq<nat> := [];
    for i := 1 to n + 1
      invariant hardDecisions == HardBits(values, i - 1)
    {
      hardDecisions := hardDecisions + [HardDecision(values[i])];
    }
    var codeword := PackInto(hardDecisions);
    r := Success(ParsedRows(codeword, values));
  }

  /** Every hard decision q = 0..n-1 is or-ed into the codeword at bit n-1-q, so the
      first decision ends up as the most significant bit. */
  method PackInto(bits: seq<nat>) returns (codeword: nat)
    requires forall q :: 0 <= q < |bits| ==> bits[q] <= 1
    ensures codeword == Pack(bits)
  {
    var n := |bits|;
    codeword := 0;
    ShlZero(n);
    assert bits[..0] == [];
    for q := 0 to n
      invariant codeword == Shl(Pack(bits[..q]), n - q)
    {
      PackStep(bits, q);
      codeword := Or(codeword, Shl(bits[q], n - 1 - q));
    }
    assert bits[..n] == bits;
  }

  /** After q decisions the codeword is the packed prefix shifted up by n - q places;
      OR-ing decision q in at bit n - 1 - q extends the prefix by one. */
  lemma PackStep(bits: seq<nat>, q: nat)
    requires q < |bits| && bits[q] <= 1
    ensures Or(Shl(Pack(bits[..q]), |bits| - q), Shl(bits[q], |bits| - 1 - q))
         == Shl(Pack(bits[..q + 1]), |bits| - 1 - q)
  {
    var p: nat := |bits| - 1 - q;
    var c := Pack(bits[..q]);
    assert bits[..q + 1][..q] == bits[..q];
    assert Pack(bits[..q + 1]) == 2 * c + bits[q];
    OrDisjoint(c, bits[q], p);
    ShlSucc(c, p);
    ShlAdd(2 * c, bits[q], p);
  }

  // ---------------------------------------------------------------------------
  // Cutting the row list into inputs (concatenate mode).
  // ---------------------------------------------------------------------------

  /** ceil((n + 1) / 8): the rows of 8 LLR values that hold LLR0..LLRn. */
  function RowsPerInput(n: nat): nat {
    (n + 8) / 8
  }

  /** R = ceil((n + 1) / 8) is the least number of rows whose 8 R values cover
      LLR0..LLRn. */
  lemma RowsPerInputCeiling(n: nat)
    ensures 8 * RowsPerInput(n) >= n + 1
    ensures 8 * (RowsPerInput(n) - 1) < n + 1
  {
  }

  lemma {:induction false} JoinRows(rows: seq<string>, w: nat)
    requires forall j :: 0 <= j < |rows| ==> |rows[j]| == w && IsBinary(rows[j])
    ensures |Join(rows)| == w * |rows| && IsBinary(Join(rows))
    decreases |rows|
  {
    if |rows| != 0 {
      JoinRows(rows[..|rows| - 1], w);
    }
  }

  /** R rows of 64 '0'/'1' characters each (8 LLR values per row) always give a
      codeword. */
  lemma FullBlockParses(rows: seq<string>, n: nat)
    requires |rows| == RowsPerInput(n)
    requires forall j :: 0 <= j < |rows| ==> |rows[j]| == 64 && IsBinary(rows[j])
    ensures ParseRows(rows, n).Success?
  {
    JoinRows(rows, 64);
    RowsPerInputCeiling(n);
  }

  /** The lines with index in a..b-1, both bounds clamped to the number of lines. */
  function Slice(lines: seq<string>, a: nat, b: nat): (s: seq<string>)
    requires a <= b
    ensures |s| <= b - a
  {
    lines[Min(a, |lines|)..Min(b, |lines|)]
  }

  /** The rows of input idx: rows idx R .. (idx + 1) R - 1. */
  function Block(lines: seq<string>, n: nat, idx: nat): seq<string> {
    Slice(lines, idx * RowsPerInput(n), idx * RowsPerInput(n) + RowsPerInput(n))
  }

  /** The outcome of parsing the rows of input idx. */
  function BlockResult(lines: seq<string>, n: nat, idx: nat): Result<ParsedRows, LlrError> {
    ParseRows(Block(lines, n, idx), n)
  }

  /** The values of the successful results, in order; failures are skipped. */
  function Successes<T, E>(results: seq<Result<T, E>>): (r: seq<T>)
    ensures |r| <= |results|
  {
    if |results| == 0 then []
    else
      Successes(results[..|results| - 1]) +
        (if results[|results| - 1].Success? then [results[|results| - 1].value] else [])
  }

  /** The outcomes of inputs 0..k-1, in order. */
  function BlockResults(lines: seq<string>, n: nat, k: nat): (rs: seq<Result<ParsedRows, LlrError>>)
    ensures |rs| == k
  {
    if k == 0 then [] else BlockResults(lines, n, k - 1) + [BlockResult(lines, n, k - 1)]
  }

  lemma {:induction false} BlockResultsAt(lines: seq<string>, n: nat, k: nat, idx: nat)
    requires idx < k
    ensures BlockResults(lines, n, k)[idx] == BlockResult(lines, n, idx)
  {
    if idx < k - 1 {
      BlockResultsAt(lines, n, k - 1, idx);
    }
  }

  /** The codewords of inputs 0..k-1 in order, an input whose rows raise being
      skipped. */
  function Extracted(lines: seq<string>, n: nat, k: nat): (r: seq<ParsedRows>)
    ensures |r| <= k
  {
    Successes(BlockResults(lines, n, k))
  }

  /** The rows of input idx, parsed. */
  method ParseInput(lines: seq<string>, n: nat, inputIdx: nat) returns (parsed: Result<ParsedRows, LlrError>)
    ensures parsed == BlockResult(lines, n, inputIdx)
  {
    var rowsPerInput := RowsPerInput(n);
    var startRow := inputIdx * rowsPerInput;
    var endRow := startRow + rowsPerInput;
    var rowsForInput := Slice(lines, startRow, endRow);
    parsed := ParseLlrRowsToCodeword(rowsForInput, n);
  }

  /** The concatenate mode of extract_codewords_from_llr. */
  method ExtractCodewords(lines: seq<string>, n: nat, numInputs: nat) returns (codewords: seq<ParsedRows>)
    ensures codewords == Extracted(lines, n, numInputs)
  {
    codewords := [];
    ghost var results: seq<Result<ParsedRows, LlrError>> := [];
    for inputIdx := 0 to numInputs
      invariant results == BlockResults(lines, n, inputIdx)
      invariant codewords == Successes(results)
    {
      var parsed := ParseInput(lines, n, inputIdx);
      assert (results + [parsed])[..inputIdx] == results;
      results := results + [parsed];
      if parsed.Success? {
        codewords := codewords + [parsed.value];
      }
    }
  }

  /** Every value kept is the value of one of the successful results. */
  lemma {:induction false} SuccessesFrom<T, E>(results: seq<Result<T, E>>, j: nat)
    requires j < |Successes(results)|
    ensures exists idx :: 0 <= idx < |results| && results[idx] == Success(Successes(results)[j])
  {
    var init := results[..|results| - 1];
    if j < |Successes(init)| {
      SuccessesFrom(init, j);
      var idx :| 0 <= idx < |init| && init[idx] == Success(Successes(init)[j]);
      assert results[idx] == init[idx];
    } else {
      assert results[|results| - 1] == Success(Successes(results)[j]);
    }
  }

  /** When no result is a failure, the values are kept one for one. */
  lemma {:induction false} SuccessesAll<T, E>(results: seq<Result<T, E>>)
    requires forall idx :: 0 <= idx < |results| ==> results[idx].Success?
    ensures |Successes(results)| == |results|
    ensures forall idx :: 0 <= idx < |results| ==> Successes(results)[idx] == results[idx].value
  {
    if |results| != 0 {
      SuccessesAll(results[..|results| - 1]);
    }
  }

  /** Every codeword returned is the parse of the rows idx R .. (idx + 1) R - 1 of one
      input idx < k. */
  lemma ExtractedFromBlocks(lines: seq<string>, n: nat, k: nat, j: nat)
    requires j < |Extracted(lines, n, k)|
    ensures exists idx :: 0 <= idx < k && ParseRows(Block(lines, n, idx), n) == Success(Extracted(lines, n, k)[j])
  {
    var results := BlockResults(lines, n, k);
    SuccessesFrom(results, j);
    var idx :| 0 <= idx < k && results[idx] == Success(Successes(results)[j]);
    BlockResultsAt(lines, n, k, idx);
  }

  /** When no input raises, the result holds one codeword per input, input idx at
      position idx. */
  lemma ExtractedAll(lines: seq<string>, n: nat, k: nat)
    requires forall idx :: 0 <= idx < k ==> ParseRows(Block(lines, n, idx), n).Success?
    ensures |Extracted(lines, n, k)| == k
    ensures forall idx :: 0 <= idx < k ==> Extracted(lines, n, k)[idx] == ParseRows(Block(lines, n, idx), n).value
  {
    var results := BlockResults(lines, n, k);
    forall idx | 0 <= idx < k
      ensures results[idx] == BlockResult(lines, n, idx)
    {
      BlockResultsAt(lines, n, k, idx);
    }
    SuccessesAll(results);
  }

  /** Keeping the successes commutes with concatenation. */
  lemma {:induction false} SuccessesAppend<T, E>(a: seq<Result<T, E>>, b: seq<Result<T, E>>)
    ensures Successes(a + b) == Successes(a) + Successes(b)
    decreases |b|
  {
    if |b| == 0 {
      assert a + b == a;
    } else {
      var b' := b[..|b| - 1];
      assert (a + b)[..|a + b| - 1] == a + b';
      SuccessesAppend(a, b');
    }
  }

  /** A lone result contributes its value when it succeeded and nothing when it failed. */
  lemma SuccessesSingle<T, E>(x: Result<T, E>)
    ensures Successes([x]) == if x.Success? then [x.value] else []
  {
    assert [x][..0] == [];
  }

  /** A successful result is kept whatever fails before or after it: the values are
      those of the results before it, then its own, then those of the results after it. */
  lemma SuccessKept<T, E>(results: seq<Result<T, E>>, idx: nat)
    requires idx < |results| && results[idx].Success?
    ensures Successes(results)
         == Successes(results[..idx]) + [results[idx].value] + Successes(results[idx + 1..])
    ensures results[idx].value in Successes(results)
  {
    var before, x, after := results[..idx], results[idx], results[idx + 1..];
    assert results == before + ([x] + after);
    SuccessesAppend(before, [x] + after);
    SuccessesAppend([x], after);
    SuccessesSingle(x);
    InMiddle(Successes(before), x.value, Successes(after));
  }

  /** v is an element of a + [v] + b, and that sum can be grouped either way. */
  lemma InMiddle<T>(a: seq<T>, v: T, b: seq<T>)
    ensures a + ([v] + b) == a + [v] + b
    ensures v in a + [v] + b
  {
    assert (a + [v] + b)[|a|] == v;
  }

  /** The outcomes of the first j inputs do not depend on how many inputs follow. */
  lemma BlockResultsPrefix(lines: seq<string>, n: nat, k: nat, j: nat)
    requires j <= k
    ensures BlockResults(lines, n, k)[..j] == BlockResults(lines, n, j)
  {
    forall idx | 0 <= idx < j
      ensures BlockResults(lines, n, k)[idx] == BlockResults(lines, n, j)[idx]
    {
      BlockResultsAt(lines, n, k, idx);
      BlockResultsAt(lines, n, j, idx);
    }
  }

  /** An input whose rows parse is returned even when earlier or later inputs raise:
      its codeword follows those of the inputs before it and precedes those of the
      inputs after it. */
  lemma ExtractedKeepsSuccess(lines: seq<string>, n: nat, k: nat, idx: nat)
    requires idx < k && BlockResult(lines, n, idx).Success?
    ensures Extracted(lines, n, k)
         == Extracted(lines, n, idx) + [BlockResult(lines, n, idx).value]
            + Successes(BlockResults(lines, n, k)[idx + 1..])
    ensures BlockResult(lines, n, idx).value in Extracted(lines, n, k)
  {
    var results := BlockResults(lines, n, k);
    BlockResultsAt(lines, n, k, idx);
    BlockResultsPrefix(lines, n, k, idx);
    SuccessKept(results, idx);
  }

  // ---------------------------------------------------------------------------
  // Grouping the answer lines.
  // ---------------------------------------------------------------------------

  /** The base-2 values of the lines that parse, in order; the others are dropped. */
  function ParsedLines(lines: seq<string>): seq<nat> {
    if |lines| == 0 then []
    else
      ParsedLines(lines[..|lines| - 1]) +
        match ParseBinary(lines[|lines| - 1])
        case Failure(_) => []
        case Success(v) => [v]
  }

  /** The lines from index i on cut into consecutive blocks of t (the last one possibly
      shorter), each block replaced by the values of its parsable lines, empty blocks
      dropped. */
  function GroupsFrom(lines: seq<string>, t: nat, i: nat): (r: seq<seq<nat>>)
    requires t > 0 && i <= |lines|
    ensures forall g :: g in r ==> 0 < |g| <= t
    decreases |lines| - i
  {
    if i == |lines| then []
    else
      var stop := Min(i + t, |lines|);
      var g := ParsedLines(lines[i..stop]);
      ParsedLinesAtMost(lines[i..stop]);
      (if g == [] then [] else [g]) + GroupsFrom(lines, t, stop)
  }

  /** read_answer_file's grouping: every group holds 1..t positions, and the groups
      together are the parsable lines in order. */
  function Groups(lines: seq<string>, t: nat): (r: seq<seq<nat>>)
    requires t > 0
    ensures forall g :: g in r ==> 0 < |g| <= t
    ensures Flatten(r) == ParsedLines(lines)
  {
    GroupsFlatten(lines, t, 0);
    assert lines[0..] == lines;
    GroupsFrom(lines, t, 0)
  }

  /** The inner loop of read_answer_file: the base-2 values of the lines of one block
      that parse. */
  method ParseBlock(block: seq<string>) returns (inputAnswers: seq<nat>)
    ensures inputAnswers == ParsedLines(block)
  {
    inputAnswers := [];
    for j := 0 to |block|
      invariant inputAnswers == ParsedLines(block[..j])
    {
      assert block[..j + 1][..j] == block[..j];
      var errorPos := ParseBinary(block[j]);
      if errorPos.Success? {
        inputAnswers := inputAnswers + [errorPos.value];
      }
    }
    assert block[..|block|] == block;
  }

  /** The grouping loop of read_answer_file, on the stripped non-empty lines: blocks of
      t lines from offset 0 in steps of t, a block with no parsable line left out. */
  method GroupAnswers(lines: seq<string>, t: nat) returns (answers: seq<seq<nat>>)
    requires t > 0
    ensures answers == Groups(lines, t)
  {
    answers := [];
    var i := 0;
    while i < |lines|
      invariant i <= |lines|
      invariant answers + GroupsFrom(lines, t, i) == Groups(lines, t)
      decreases |lines| - i
    {
      var stop := Min(i + t, |lines|);
      var inputAnswers := ParseBlock(lines[i..stop]);
      GroupsFromStep(lines, t, i);
      ghost var g: seq<seq<nat>> := if inputAnswers != [] then [inputAnswers] else [];
      ConcatAssoc(answers, g, GroupsFrom(lines, t, stop));
      if inputAnswers != [] {
        answers := answers + [inputAnswers];
      } else {
        assert answers + g == answers;
      }
      i := stop;
    }
    assert answers + [] == answers;
  }

  /** One block: the groups from line i on are the block's group, when not empty,
      followed by the groups from the next block on. */
  lemma GroupsFromStep(lines: seq<string>, t: nat, i: nat)
    requires t > 0 && i < |lines|
    ensures var stop := Min(i + t, |lines|);
      var g := ParsedLines(lines[i..stop]);
      GroupsFrom(lines, t, i) == (if g == [] then [] else [g]) + GroupsFrom(lines, t, stop)
  {
  }

  lemma ConcatAssoc(a: seq<seq<nat>>, b: seq<seq<nat>>, c: seq<seq<nat>>)
    ensures a + (b + c) == (a + b) + c
  {
  }

  lemma {:induction false} ParsedLinesAtMost(lines: seq<string>)
    ensures |ParsedLines(lines)| <= |lines|
  {
    if |lines| != 0 {
      ParsedLinesAtMost(lines[..|lines| - 1]);
    }
  }

  /** All groups together are the parsable lines, in order: grouping drops nothing else
      and reorders nothing. */
  lemma {:induction false} GroupsFlatten(lines: seq<string>, t: nat, i: nat)
    requires t > 0 && i <= |lines|
    ensures Flatten(GroupsFrom(lines, t, i)) == ParsedLines(lines[i..])
    decreases |lines| - i
  {
    if i != |lines| {
      var stop := Min(i + t, |lines|);
      GroupsFlatten(lines, t, stop);
      ParsedLinesSplit(lines[i..stop], lines[stop..]);
      assert lines[i..stop] + lines[stop..] == lines[i..];
      var g := ParsedLines(lines[i..stop]);
      FlattenAppend(if g == [] then [] else [g], GroupsFrom(lines, t, stop));
    } else {
      assert lines[i..] == [];
    }
  }

  function Flatten(groups: seq<seq<nat>>): seq<nat> {
    if |groups| == 0 then [] else groups[0] + Flatten(groups[1..])
  }

  lemma {:induction false} FlattenAppend(a: seq<seq<nat>>, b: seq<seq<nat>>)
    ensures Flatten(a + b) == Flatten(a) + Flatten(b)
    decreases |a|
  {
    if |a| != 0 {
      assert (a + b)[1..] == a[1..] + b;
      FlattenAppend(a[1..], b);
    } else {
      assert a + b == b;
    }
  }

  lemma {:induction false} ParsedLinesSplit(a: seq<string>, b: seq<string>)
    ensures ParsedLines(a + b) == ParsedLines(a) + ParsedLines(b)
    decreases |b|
  {
    if |b| == 0 {
      assert a + b == a;
    } else {
      var b0 := b[..|b| - 1];
      assert (a + b)[..|a + b| - 1] == a + b0;
      ParsedLinesSplit(a, b0);
    }
  }
}
