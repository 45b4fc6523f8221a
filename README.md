# Inversion-free BCH decoding and LLR inputs, in Dafny

This project models two Python files of a BCH-code test flow.

`inversio_free_bch.py` holds `bch_decode`, a decoder for the binary (63, 51) BCH
code with t = 2 over GF(2^6). The field uses the primitive polynomial x^6 + x + 1 (67)
and alpha = 2. The decoder takes a received word of 63 characters, most significant
coefficient first, and works in three stages:

- It computes the 2t syndromes with Horner's rule at the points alpha^4, ..., alpha^1.
- It runs the inversion-free Berlekamp–Massey iteration for 2t steps. This is the
  `simplified != 1` branch. The state is lambda, b, gamma and k, plus a window of
  syndromes that is reloaded at every step.
- It runs a Chien search over the 63 positions. Position i is flagged when the
  error-locator polynomial lambda vanishes at alpha^(-i).

`analyze_llr_inputs.py` reads the test inputs:

- rows of '0'/'1' characters holding 8-bit two's-complement LLR values;
- hard decisions (bit 1 for a negative LLR);
- the n-bit received codeword, built from LLR1..LLRn, most significant bit first;
- the concatenate mode, which cuts the row list into ceil((n+1)/8) rows per input;
- the grouping of answer-file lines into blocks of t error positions.

The project has these modules:

- `GF64` (`gf64.dfy`): the field, with its laws proved from the definition of
  multiplication.
- `Polynomials` (`poly.dfy`): inner products, evaluation and Horner's rule.
- `BchSpec` (`bch_spec.dfy`): every decoder stage as a function, and the properties
  proved about those functions.
- `InversionFreeBch` (`bch_decoder.dfy`): the decoder itself, as methods over arrays
  updated in place. Each method is proved equal to its `BchSpec` function.
- `Bits` (`bits.dfy`): powers of two, `|` and `<<` on naturals, binary numerals.
- `LlrInputs` (`llr.dfy`): the LLR side. Its loops are methods proved equal to
  recursive specification functions.
- `Wrappers` (`wrappers.dfy`): `Option` and `Result`. A `Result` failure stands for a
  raised `ValueError`.
- `FieldIdentities` (`identities.dfy`): identities of GF(2^6) used to follow the
  decoder symbolically, such as the square of a sum and the sum of two cubes.
- `BchCorrection` (`bch_correct.dfy`): the decoding theorem. A word within distance
  t = 2 of a codeword is decoded with exactly its error positions flagged and listed.

## Model

| member | source | states |
|---|---|---|
| InversionFreeBch.BchDecode | CVSD_final/BCH-codes/inversio_free_bch.py:26-138 | the method's result is `Decode(input)`; it fails with the length error exactly when the input does not have n = 63 characters |
| BchSpec.ParseDigits | CVSD_final/BCH-codes/inversio_free_bch.py:31-32 | succeeds iff every character is a digit, and then entry i is the digit's value; otherwise it names the first non-digit position, and every character before it is a digit |
| InversionFreeBch.ToDigits | CVSD_final/BCH-codes/inversio_free_bch.py:31 | the conversion loop computes `ParseDigits` |
| InversionFreeBch.BuildAlphaTable | CVSD_final/BCH-codes/inversio_free_bch.py:35-37 | returns a fresh array with alpha_tb[i] = alpha^(2t-i) |
| BchSpec.AlphaTableFrom | CVSD_final/BCH-codes/inversio_free_bch.py:34-37 | any vector whose entry i is alpha^(2t-i) is the table |
| InversionFreeBch.ComputeSyndromes | CVSD_final/BCH-codes/inversio_free_bch.py:40-42 | after the n Horner steps, syndrome[i] is the received polynomial at alpha^(2t-i), i.e. S_(2t-i) |
| Polynomials.HornerStep | CVSD_final/BCH-codes/inversio_free_bch.py:42 | appending a coefficient c to a word multiplies its value at x by x and adds c |
| Polynomials.HornerEach | CVSD_final/BCH-codes/inversio_free_bch.py:41-42 | the same, at every point of the table at once (the vector statement `syndrome * alpha_tb + r`) |
| BchSpec.SyndromesAsValues | CVSD_final/BCH-codes/inversio_free_bch.py:34-42 | the word's values at the points of alpha_tb are the syndromes S_4, S_3, S_2, S_1 |
| BchSpec.ZeroWordSyndromes | CVSD_final/BCH-codes/inversio_free_bch.py:40-42 | the all-zero word has all-zero syndromes |
| BchSpec.WindowBounds | CVSD_final/BCH-codes/inversio_free_bch.py:77-86 | at step r the window has num = min(r, t+1) entries, and 1 <= r1 <= r2 <= 2t |
| InversionFreeBch.LoadWindow | CVSD_final/BCH-codes/inversio_free_bch.py:85-86 | the first num window entries take the syndrome entries r1..r2 (1-based), and the other entries keep their values |
| BchSpec.WindowTailZero | CVSD_final/BCH-codes/inversio_free_bch.py:53-86 | after r steps, window entries from min(r, t+1) on are still zero |
| InversionFreeBch.ShiftInto | CVSD_final/BCH-codes/inversio_free_bch.py:101-105 | b keeps its entry 0, and entries 1..t+1 take the t+1 values of v |
| BchSpec.StepFacts | CVSD_final/BCH-codes/inversio_free_bch.py:85-107 | one step: lambda_j := gamma lambda_j + delta b_j; gamma becomes delta only when delta != 0 and k >= 0; b[0] and the window update as stated |
| InversionFreeBch.BmIteration | CVSD_final/BCH-codes/inversio_free_bch.py:77-107 | one pass of the loop body leaves the state (lambda, b, gamma, k, window) equal to `BmStep` of the old state |
| InversionFreeBch.BerlekampMassey | CVSD_final/BCH-codes/inversio_free_bch.py:46-107 | from the initial state [1,0,0], [0,1,0,0], gamma = 1, k = 0, the loop over r = 1..2t yields `BmRun(syndrome, 2t).lambda` |
| BchSpec.StepKeepsInvariant | CVSD_final/BCH-codes/inversio_free_bch.py:97-107 | each step keeps b[0] = 0, gamma != 0 and lambda[0] != 0 |
| BchSpec.InvariantHolds | CVSD_final/BCH-codes/inversio_free_bch.py:46-107 | those three facts hold after every number of steps |
| BchSpec.QuietRun | CVSD_final/BCH-codes/inversio_free_bch.py:46-107 | with all syndromes zero, every state is constant-lambda, gamma = lambda[0], b[0] = 0 and window zero |
| BchSpec.ZeroSyndromesZeroDiscrepancy | CVSD_final/BCH-codes/inversio_free_bch.py:87 | with all syndromes zero, every discrepancy delta is zero, so the `else` branch is always taken |
| BchSpec.ZeroSyndromesKeepLambda | CVSD_final/BCH-codes/inversio_free_bch.py:46-107 | with all syndromes zero, lambda ends as [1, 0, 0] |
| InversionFreeBch.BuildInverseTable | CVSD_final/BCH-codes/inversio_free_bch.py:117-120 | returns a fresh array with inverse_tb[j] = alpha^(-j), j = 0..t |
| BchSpec.ChienPowersStart | CVSD_final/BCH-codes/inversio_free_bch.py:123 | all-ones accu_tb is the table of powers of alpha^0 |
| BchSpec.ChienPowersNext | CVSD_final/BCH-codes/inversio_free_bch.py:133 | multiplying the powers of alpha^(-i) entry-wise by inverse_tb gives the powers of alpha^(-(i+1)) |
| BchSpec.ChienValue | CVSD_final/BCH-codes/inversio_free_bch.py:127-131 | lambda · accu_tb at position i is lambda(alpha^(-i)), so the zero test gives the flag |
| BchSpec.SearchStep | CVSD_final/BCH-codes/inversio_free_bch.py:128-131 | writing error[i] advances the vector from i to i+1 decided positions |
| BchSpec.ErrorFlagsMeaning | CVSD_final/BCH-codes/inversio_free_bch.py:124-133 | the error vector has n entries, each 0 or 1, and error[i] = 1 iff lambda(alpha^(-i)) = 0 |
| InversionFreeBch.ChienSearch | CVSD_final/BCH-codes/inversio_free_bch.py:117-135 | the search loop leaves error = `ErrorFlags(lambda)` and found = the indices of its nonzero entries |
| BchSpec.NonzeroFrom | CVSD_final/BCH-codes/inversio_free_bch.py:135 | every index listed is in range with a nonzero entry, and the list is strictly ascending |
| BchSpec.NonzeroFromComplete | CVSD_final/BCH-codes/inversio_free_bch.py:135 | every index of a nonzero entry is listed |
| BchSpec.NonzeroIndices | CVSD_final/BCH-codes/inversio_free_bch.py:135 | `np.nonzero` lists exactly the indices of the nonzero entries, both directions, in increasing order |
| BchSpec.NoRootsNoFlags | CVSD_final/BCH-codes/inversio_free_bch.py:126-135 | lambda = [1,0,0] flags no position and finds nothing |
| BchSpec.CodewordHasNoErrors | CVSD_final/BCH-codes/inversio_free_bch.py:27-135 | a well-formed word whose syndromes are all zero decodes successfully with an all-zero error vector and no positions |
| BchSpec.Decode | CVSD_final/BCH-codes/inversio_free_bch.py:26-138 | the length error occurs iff the input does not have 63 characters; a 63-character input decodes iff every character is a digit; a decoded error vector has 63 entries, each 0 or 1, and every listed position is below 63 and flagged |
| BchSpec.ZeroWordHasNoErrors | CVSD_final/BCH-codes/inversio_free_bch.py:27-135 | the all-zero word decodes to no error positions |
| Polynomials.DotWithPowers | CVSD_final/BCH-codes/inversio_free_bch.py:127 | the inner product of lambda with 1, y, y^2, ... is lambda evaluated at y |
| Polynomials.ValueOfZero | CVSD_final/BCH-codes/inversio_free_bch.py:40-42 | the all-zero word is zero at every point |
| Polynomials.EvalOne | CVSD_final/BCH-codes/inversio_free_bch.py:127-128 | the constant polynomial 1 has no root |
| GF64.MulComm | CVSD_final/BCH-codes/inversio_free_bch.py:14-16 | multiplication in GF(2^6) mod x^6+x+1 is commutative |
| GF64.MulAssoc | CVSD_final/BCH-codes/inversio_free_bch.py:14-16 | multiplication is associative |
| GF64.DistribLeft | CVSD_final/BCH-codes/inversio_free_bch.py:14-16 | multiplication distributes over addition (exclusive or) |
| GF64.NoZeroDivisors | CVSD_final/BCH-codes/inversio_free_bch.py:14-16 | a product is zero iff a factor is zero |
| GF64.MulByAlpha | CVSD_final/BCH-codes/inversio_free_bch.py:15-21 | multiplying by alpha = 2 is the shift by x reduced by the polynomial 67 |
| GF64.PowLog | CVSD_final/BCH-codes/inversio_free_bch.py:15-21 | every nonzero element is alpha^e for some e < 63 (alpha is primitive) |
| GF64.AlphaPowOrder | CVSD_final/BCH-codes/inversio_free_bch.py:15-21 | alpha^63 = 1 |
| GF64.AlphaPowInjective | CVSD_final/BCH-codes/inversio_free_bch.py:15-21 | alpha^0, ..., alpha^62 are distinct, so the 63 Chien points are distinct |
| GF64.AlphaInvPowInverse | CVSD_final/BCH-codes/inversio_free_bch.py:120 | alpha^(-j) as used in inverse_tb is the inverse of alpha^j |
| GF64.ChienStep | CVSD_final/BCH-codes/inversio_free_bch.py:133 | (alpha^(-i))^j alpha^(-j) = (alpha^(-(i+1)))^j |
| GF64.AddSelf | CVSD_final/BCH-codes/inversio_free_bch.py:98 | field subtraction is the same exclusive or as addition: a - b = a + b is zero iff a = b |
| GF64.AddComm | CVSD_final/BCH-codes/inversio_free_bch.py:42 | addition is commutative |
| GF64.AddAssoc | CVSD_final/BCH-codes/inversio_free_bch.py:87 | addition is associative, so the sum in `np.dot` does not depend on grouping |
| GF64.AddZero | CVSD_final/BCH-codes/inversio_free_bch.py:40-42 | zero is neutral for addition |
| GF64.MulOne | CVSD_final/BCH-codes/inversio_free_bch.py:47-51 | one is neutral for multiplication |
| GF64.AlphaPowIsPower | CVSD_final/BCH-codes/inversio_free_bch.py:37 | `AlphaPow(e)` is `alpha ** e`, alpha multiplied by itself e times |
| GF64.AlphaPowAdd | CVSD_final/BCH-codes/inversio_free_bch.py:37 | alpha^m alpha^n = alpha^(m+n) |
| GF64.AlphaPowNonzero | CVSD_final/BCH-codes/inversio_free_bch.py:37 | no power of alpha is zero |
| GF64.PowerOfProduct | CVSD_final/BCH-codes/inversio_free_bch.py:133 | (a b)^e = a^e b^e |
| LlrInputs.SignedRange | CVSD_final/BCH-codes/analyze_llr_inputs.py:57-61 | a byte 0..255 reads as a value in -128..127 that is congruent to it mod 256, and the value is negative iff the byte is >= 128 |
| LlrInputs.SignedRoundTrip | CVSD_final/BCH-codes/analyze_llr_inputs.py:57-61 | every value in -128..127 is the reading of its byte v mod 256 |
| LlrInputs.ParseBinary | CVSD_final/BCH-codes/analyze_llr_inputs.py:189-194 | `int(s, 2)` succeeds exactly on non-empty strings of '0' and '1', with a value below 2^len; otherwise it raises a ValueError naming the string |
| LlrInputs.ParseBinaryNumeral | CVSD_final/BCH-codes/analyze_llr_inputs.py:53 | the k-character numeral of any value below 2^k (k > 0) parses back to that value |
| LlrInputs.ParseSigned8 | CVSD_final/BCH-codes/analyze_llr_inputs.py:45-61 | parsing fails exactly where `int(s, 2)` fails; otherwise the value is congruent to the numeral's value mod 256; an 8-character numeral always parses, to a value in -128..127 that is negative iff its leading character is '1' |
| LlrInputs.LeadingSign | CVSD_final/BCH-codes/analyze_llr_inputs.py:58 | for an 8-character numeral, `value & 0x80` is set iff the leading character is '1', and the value is below 256 |
| LlrInputs.ParseByte8 | CVSD_final/BCH-codes/analyze_llr_inputs.py:45-61 | parsing the 8-bit numeral of any value in -128..127 gives back the value (round trip) |
| LlrInputs.HardDecision | CVSD_final/BCH-codes/analyze_llr_inputs.py:63-73 | the decision is a bit, and it is 1 iff the LLR is negative |
| LlrInputs.ParseLlrValues | CVSD_final/BCH-codes/analyze_llr_inputs.py:87-95 | the chunk loop computes `ParseLlrs` of the joined bits |
| LlrInputs.ParseLlrs | CVSD_final/BCH-codes/analyze_llr_inputs.py:89-95 | a successful parse gives floor(len/8) values, each in -128..127, and a string of '0' and '1' characters always parses |
| LlrInputs.PartialChunkIgnored | CVSD_final/BCH-codes/analyze_llr_inputs.py:91-95 | fewer than 8 characters after the last full chunk change nothing |
| LlrInputs.ParseRows | CVSD_final/BCH-codes/analyze_llr_inputs.py:75-114 | a chunk that is not a numeral makes the parse raise that error; otherwise it succeeds iff there are at least n+1 values and then keeps all of them, and it raises "need n+1, got len" when there are fewer |
| LlrInputs.HardBits | CVSD_final/BCH-codes/analyze_llr_inputs.py:104-107 | there are n decisions, and decision q is the hard decision (0 or 1) of LLR(q+1) |
| LlrInputs.PackBound | CVSD_final/BCH-codes/analyze_llr_inputs.py:109-112 | n bits pack into a value below 2^n |
| LlrInputs.PackBit | CVSD_final/BCH-codes/analyze_llr_inputs.py:109-112 | bit p of the packed value is decision n-1-p |
| LlrInputs.PackInto | CVSD_final/BCH-codes/analyze_llr_inputs.py:110-112 | the loop that ORs each bit in at position n-1-i computes the MSB-first value of the decisions |
| LlrInputs.PackStep | CVSD_final/BCH-codes/analyze_llr_inputs.py:112 | OR-ing decision q at bit n-1-q into the shifted prefix extends the prefix by one bit |
| Bits.OrDisjoint | CVSD_final/BCH-codes/analyze_llr_inputs.py:112 | OR of a bit into a position that is still clear is addition |
| LlrInputs.CodewordBit | CVSD_final/BCH-codes/analyze_llr_inputs.py:103-112 | bit n-i of the packed decisions is set iff LLRi < 0 |
| LlrInputs.CodewordBits | CVSD_final/BCH-codes/analyze_llr_inputs.py:75-114 | a parsed codeword is below 2^n, and for i = 1..n its bit n-i is set iff LLRi < 0 |
| LlrInputs.Llr0Ignored | CVSD_final/BCH-codes/analyze_llr_inputs.py:97-107 | LLR lists that differ only in LLR0 give the same codeword |
| LlrInputs.ParseLlrRowsToCodeword | CVSD_final/BCH-codes/analyze_llr_inputs.py:75-114 | the method computes `ParseRows(rows, n)`: the packed codeword and every LLR, or the ValueError |
| LlrInputs.RowsPerInputCeiling | CVSD_final/BCH-codes/analyze_llr_inputs.py:234 | R = ceil((n+1)/8) is the least row count whose 8R values cover LLR0..LLRn |
| LlrInputs.FullBlockParses | CVSD_final/BCH-codes/analyze_llr_inputs.py:234-264 | R rows of 64 binary characters always give a codeword |
| LlrInputs.Slice | CVSD_final/BCH-codes/analyze_llr_inputs.py:248 | a clamped slice has at most end - start rows |
| LlrInputs.ParseInput | CVSD_final/BCH-codes/analyze_llr_inputs.py:238-264 | input idx is the parse of rows idx·R .. idx·R + R - 1 |
| LlrInputs.ExtractCodewords | CVSD_final/BCH-codes/analyze_llr_inputs.py:230-290 | the loop over inputs returns `Extracted`: the successful parses in input order, skipping inputs that raise (see `ExtractedKeepsSuccess`) |
| LlrInputs.ExtractedKeepsSuccess | CVSD_final/BCH-codes/analyze_llr_inputs.py:237-288 | an input whose rows parse is returned even when other inputs raise: its codeword comes after those of the earlier inputs and before those of the later ones |
| LlrInputs.SuccessKept | CVSD_final/BCH-codes/analyze_llr_inputs.py:263-288 | a successful result is kept between the values of the results before it and those after it |
| LlrInputs.SuccessesAppend | CVSD_final/BCH-codes/analyze_llr_inputs.py:263-288 | the values kept from two runs of results, one after the other, are the values of each run in order |
| LlrInputs.Extracted | CVSD_final/BCH-codes/analyze_llr_inputs.py:237-288 | at most num_inputs codewords are returned |
| LlrInputs.Successes | CVSD_final/BCH-codes/analyze_llr_inputs.py:263-265 | the kept values are at most one per input |
| LlrInputs.ExtractedFromBlocks | CVSD_final/BCH-codes/analyze_llr_inputs.py:237-265 | every codeword returned is the parse of the row block of some input idx < num_inputs |
| LlrInputs.ExtractedAll | CVSD_final/BCH-codes/analyze_llr_inputs.py:237-265 | when no input raises, input idx's codeword is at position idx and there are num_inputs of them |
| LlrInputs.ParseBlock | CVSD_final/BCH-codes/analyze_llr_inputs.py:186-194 | the inner loop keeps the base-2 values of the lines that parse, in order |
| LlrInputs.ParsedLinesAtMost | CVSD_final/BCH-codes/analyze_llr_inputs.py:186-194 | a block yields at most as many values as it has lines |
| LlrInputs.GroupAnswers | CVSD_final/BCH-codes/analyze_llr_inputs.py:183-198 | the grouping loop computes `Groups(lines, t)` |
| LlrInputs.GroupsFromStep | CVSD_final/BCH-codes/analyze_llr_inputs.py:185-196 | one block of t lines contributes its values as one group when they are not empty, then the grouping continues at the next block |
| LlrInputs.GroupsFrom | CVSD_final/BCH-codes/analyze_llr_inputs.py:185-196 | every group from line i on is non-empty and has at most t positions |
| LlrInputs.Groups | CVSD_final/BCH-codes/analyze_llr_inputs.py:183-198 | every group has 1..t positions, and the groups concatenated are the parsable lines in order |
| LlrInputs.GroupsFlatten | CVSD_final/BCH-codes/analyze_llr_inputs.py:183-198 | the groups, concatenated, are exactly the parsable lines in order: nothing else is dropped or reordered |
| Polynomials.ValueOfSum | CVSD_final/BCH-codes/inversio_free_bch.py:40-42 | the value of the entry-wise sum of two words is the sum of their values |
| Polynomials.ValueOfUnit | CVSD_final/BCH-codes/inversio_free_bch.py:40-42 | a word that is 1 in entry q and 0 elsewhere has the value x^(len-1-q) |
| BchCorrection.Dot3 | CVSD_final/BCH-codes/inversio_free_bch.py:87 | `np.dot` of a three-entry window with lambda is s0 l0 + s1 l1 + s2 l2 |
| BchCorrection.Update3 | CVSD_final/BCH-codes/inversio_free_bch.py:98 | `gamma * lambda - delta * b[0:t+1]` entry by entry, for the three entries |
| BchCorrection.Eval3 | CVSD_final/BCH-codes/inversio_free_bch.py:127 | lambda at y, for three coefficients, is l0 + l1 y + l2 y^2 |
| BchCorrection.Windows | CVSD_final/BCH-codes/inversio_free_bch.py:77-86 | the windows of steps 1..4 are [S1,0,0], [S2,S1,0], [S3,S2,S1] and [S4,S3,S2] |
| BchCorrection.StepSwaps | CVSD_final/BCH-codes/inversio_free_bch.py:97-103 | when delta != 0 and k >= 0, a step sets lambda to gamma lambda - delta b, moves the old lambda into b[1..t+1], sets gamma to delta and k to -k-1 |
| BchCorrection.StepShifts | CVSD_final/BCH-codes/inversio_free_bch.py:97-107 | otherwise it sets lambda the same way, shifts b[0..t] into b[1..t+1], keeps gamma and increments k |
| BchCorrection.FirstStep | CVSD_final/BCH-codes/inversio_free_bch.py:73-107 | with S1 != 0, step 1 gives lambda = [1, S1, 0], b = [0,1,0,0], gamma = S1, k = -1 |
| BchCorrection.SecondStep | CVSD_final/BCH-codes/inversio_free_bch.py:73-107 | when also S2 = S1^2, step 2 has delta = 0 and gives lambda = [S1, S2, 0], b = [0,0,1,0], k = 0 |
| BchCorrection.ThirdStep | CVSD_final/BCH-codes/inversio_free_bch.py:73-107 | step 3 has delta D = S3 S1 + S2^2 and takes the swap branch iff D != 0 |
| BchCorrection.RunOnSquareSyndromes | CVSD_final/BCH-codes/inversio_free_bch.py:73-107 | when S2 = S1^2, S4 = S2^2 and S1 != 0, the fourth discrepancy is zero and the final lambda is the closed form `Locator` |
| BchCorrection.SyndromesOfSum | CVSD_final/BCH-codes/inversio_free_bch.py:40-42 | syndromes are linear: those of a sum of words are the sums of their syndromes |
| BchCorrection.CodewordPlusError | CVSD_final/BCH-codes/inversio_free_bch.py:40-42 | a codeword (all syndromes zero) plus an error pattern has the error pattern's syndromes |
| BchCorrection.UnitSyndrome | CVSD_final/BCH-codes/inversio_free_bch.py:40-42 | the word with a single 1, at the coefficient of x^d, has S_j = (alpha^d)^j |
| BchCorrection.SingleErrorSyndromes | CVSD_final/BCH-codes/inversio_free_bch.py:34-42 | one error at degree d, with X = alpha^d, gives S4, S3, S2, S1 = X^4, X^3, X^2, X |
| BchCorrection.DoubleErrorSyndromes | CVSD_final/BCH-codes/inversio_free_bch.py:34-42 | two errors at degrees d1 != d2 give S1 = X + Z, S2 = S1^2, S3 = X^3 + Z^3 and S4 = S2^2 |
| BchCorrection.SingleErrorLocator | CVSD_final/BCH-codes/inversio_free_bch.py:40-107 | one error on a codeword ends with lambda = [X^3, X^4, 0] |
| BchCorrection.DoubleErrorLocator | CVSD_final/BCH-codes/inversio_free_bch.py:40-107 | two errors end with lambda = m (S2 + S1 S2 y + m y^2), m = S2 X Z |
| BchCorrection.InverseAt | CVSD_final/BCH-codes/inversio_free_bch.py:117-131 | alpha^d alpha^(-i) = 1 iff i = d, for d, i < 63 |
| BchCorrection.SingleErrorRoots | CVSD_final/BCH-codes/inversio_free_bch.py:123-131 | the one-error locator vanishes at alpha^(-i), i < 63, iff i = d |
| BchCorrection.DoubleErrorRoots | CVSD_final/BCH-codes/inversio_free_bch.py:123-131 | the two-error locator vanishes at alpha^(-i), i < 63, iff i = d1 or i = d2 |
| BchCorrection.SingleErrorRootSet | CVSD_final/BCH-codes/inversio_free_bch.py:40-131 | for a codeword plus one error, the final lambda vanishes at alpha^(-i) exactly for i = d |
| BchCorrection.DoubleErrorRootSet | CVSD_final/BCH-codes/inversio_free_bch.py:40-131 | for a codeword plus two errors, exactly for i in {d1, d2} |
| BchCorrection.FlagsOfRoots | CVSD_final/BCH-codes/inversio_free_bch.py:123-133 | the error vector is the indicator of the set of roots of lambda among the alpha^(-i) |
| BchCorrection.OnePosition | CVSD_final/BCH-codes/inversio_free_bch.py:135 | the indicator of {d} lists exactly [d] |
| BchCorrection.TwoPositions | CVSD_final/BCH-codes/inversio_free_bch.py:135 | the indicator of {d1, d2}, d1 < d2, lists exactly [d1, d2] |
| BchCorrection.DecodeFromRoots | CVSD_final/BCH-codes/inversio_free_bch.py:40-135 | when the roots of the final lambda are exactly the indices in D, the decoder returns the indicator of D and its indices |
| BchCorrection.CorrectsOneError | CVSD_final/BCH-codes/inversio_free_bch.py:40-135 | a word whose syndromes are all zero, with 1 added to the coefficient of x^d (entry 62-d), is decoded with found = [d] and error 1 exactly at index d |
| BchCorrection.CorrectsTwoErrors | CVSD_final/BCH-codes/inversio_free_bch.py:40-135 | the same word with 1 added to the coefficients of x^d1 and x^d2, d1 < d2, is decoded with found = [d1, d2] and error 1 exactly at those indices |
| BchCorrection.DecodeCorrectsOneError | CVSD_final/BCH-codes/inversio_free_bch.py:26-138 | the same for the whole decoder on a 63-character digit string |
| BchCorrection.DecodeCorrectsTwoErrors | CVSD_final/BCH-codes/inversio_free_bch.py:26-138 | the same for two errors |

## Left out

- Printing is not modelled. This covers the debug prints of `bch_decode` and the "Error positions" line. It also covers the verbose output, the "Error:" line and the per_row warning of `extract_codewords_from_llr`.
- The `simplified == 1` branch of `bch_decode` is not modelled. `simplified` is the constant 2, and that branch only raises NotImplementedError.
- `input_string` is a constant in `bch_decode`. Here it is the parameter of `BchDecode`.
- The finite-field library is not modelled in general. `GF64` writes out only the one field the decoder builds: m = 6, polynomial 67, alpha = 2.
- BchSpec.ParseDigits: `int(ch)` also accepts non-ASCII decimal digits. The model accepts only '0'..'9'.
- LlrInputs.ParseBinary: `int(s, 2)` also accepts a sign, a `0b` prefix, underscores between digits, and surrounding whitespace. The model accepts only non-empty strings of '0' and '1'. This applies both to LLR chunks and to answer lines.
- `parse_8bit_signed_llr` also accepts an integer argument (line 55). No modelled caller uses it. `ToSigned8` is the conversion applied to such an integer.
- `extract_codewords_from_llr`: the per_row mode is not part of this model. Its own text says it is not suitable for n = 63.
- `extract_codewords_from_llr`: the verbose row printing (lines 249-260) is not modelled; the model follows verbose=False. With verbose=True every row of a block is cut into the eight chunks `row[j:j+8]`, j = 0, 8, ..., 56, and each is parsed outside the try. A row of 56 characters or fewer (its last chunk is empty), or a row with a chunk that `int(_, 2)` rejects, raises ValueError there and aborts the whole extraction. A row of 57 to 63 binary characters does not raise there.
- LlrInputs.RowsPerInput: `math.ceil((n + 1) / 8)` goes through a float. The model uses the integer ceiling (n + 8) / 8. The two agree for n + 1 <= 2^53, where n + 1 and its quotient by 8 are exact doubles. Above that they can differ: for n = 2^53, n + 1 rounds to 2^53 and Python gives 2^50 rows, while the integer ceiling is 2^50 + 1.
- Reading files is not modelled. `read_llr_file`, and the reading and stripping in `read_answer_file`, become a list of stripped, non-empty lines passed in as a parameter.
- LlrInputs.GroupAnswers requires t > 0. With t = 0, `range(0, len, 0)` raises; that case is not modelled.
- Not part of this model: `get_error_locations`, `main`, the BCH configuration table, the reference BCH library it calls, and the comparison with the answer file.
- The `delta = zero` initialisation is not modelled. `delta` is always assigned before it is read.
- The error vector is modelled as an array of unbounded integers, not numpy's int array. `found` is modelled as a sequence of indices.
- InversionFreeBch.BchDecode: its result is proved correct for words within distance t = 2 of a codeword: no error (`BchSpec.CodewordHasNoErrors`), one error (`BchCorrection.DecodeCorrectsOneError`) and two errors (`BchCorrection.DecodeCorrectsTwoErrors`). What it returns for more than two errors is not characterised.
