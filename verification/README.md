# Reed–Solomon coder over GF(2^m), modelled in Dafny

This project models the core of a Reed–Solomon error-correcting coder.
Symbols are elements of a Galois field GF(2^m). Each field is built from a
primitive polynomial and stored as an exponential table and a logarithm
table. Polynomials over the field are kept with their coefficients in
descending order of degree. The coder splits a byte message into blocks of
`blockSize` data symbols. To each block it appends `ecSize` check symbols:
the remainder of the shifted data polynomial after division by the
generator polynomial (x + a^b)(x + a^(b+1))… . Generators are built on demand
and cached. The decoder works through these steps:

1. It computes the syndromes.
2. A Euclidean key-equation solver finds the error locator sigma and the
   error evaluator omega.
3. Chien's search finds the error locations.
4. Forney's formula gives the error magnitudes.
5. The decoder corrects the block. If it cannot decode a block, it emits a
   fixed error block ("***ERROR***" padded with spaces).

How the model is built:

- Everything is a pure function over immutable data.
- Field elements and coefficients are `nat`. A polynomial is a
  `seq<nat>`, highest degree first.
- A coder is a datatype. Its generator cache is returned with every
  encoding call instead of being mutated.
- An exception in the original is a `Failure` value of `Result`, carrying
  the exception kind: ArgumentError, ArithmeticError, IndexOutOfRange,
  DivideByZero or Overflow (from allocating a negative-length array).
- A block decoder that answers `false` or `null` returns `None`.
- C#'s truncating integer division is written out (`ReedSolomon.Quot`,
  `ReedSolomon.Rem`).
- The bitwise operations (`^`, `&`, `|`) are defined bit by bit in `Bits`.

Modules, in dependency order:

- `Results`: the Result type.
- `Bits`: XOR, AND and OR on naturals.
- `GaloisField`: the constructor, the tables and the field operations.
- `FieldLaws`: the field axioms for primitive tables.
- `GaloisFieldPoly`: the polynomial class.
- `PolyLaws`: addition, degree and evaluation laws.
- `PolyRing`: the ring laws of the product.
- `Chains`: step-by-step sequence building, used for the generator cache.
- `ReedSolomon`: the coder, the constructor and the generators.
- `Encoding`: the block encoder.
- `Decoding`: the block decoder.
- `Blocks`: the message loops, generic in the block step.
- `Messages`: encode and decode of whole byte messages.

A field whose tables really form GF(2^m) satisfies `GaloisField.Primitive`:

- exp[0] = 1;
- every table entry is one doubling step from the one before it;
- log inverts exp;
- exp wraps to 1 after size − 1 steps.

The codec theorems assume it.

## Model

| member | source | states |
|---|---|---|
| GaloisField.NewField | GaloisField.cs:28-54 | Both tables have `size` entries and exp[0] = 1. For size ≥ 2 every exp entry lies in the field, because the mask brings a doubled value back below size. Every log entry is below size − 1. |
| GaloisField.AddOrSubtractLaws | GaloisField.cs:89-92 | Field addition (XOR) is commutative, undoes itself, has 0 as identity, and every element is its own negative. |
| GaloisField.Exp | GaloisField.cs:95-98 | Succeeds exactly for an index inside the table and then returns that entry; any other index is an out-of-range failure. |
| GaloisField.Log | GaloisField.cs:101-108 | log 0 throws ArgumentError. Otherwise log succeeds exactly for 0 < a < size and reads the log table. |
| GaloisField.Inverse | GaloisField.cs:111-118 | inverse 0 throws ArithmeticError. Every other field element has an inverse inside the field. |
| GaloisField.Multiply | GaloisField.cs:121-128 | The product of two field elements stays in the field and is 0 when either factor is 0. |
| FieldLaws.NewFieldPrimitive | GaloisField.cs:34-50 | For a power-of-two size, the constructor's tables form a field exactly when exp is one-to-one on [0, size − 1) and exp wraps to 1 at size − 1. |
| FieldLaws.InjectiveIffLogInverts | GaloisField.cs:47-50 | For the constructor's tables, log undoes exp exactly when exp never repeats a value before size − 1. |
| FieldLaws.ExpLog | GaloisField.cs:101-108 | In a primitive field, exp(log a) = a for every non-zero a, with log a below size − 1. |
| FieldLaws.LogExp | GaloisField.cs:47-50 | In a primitive field, log(exp i) = i for i below size − 1. |
| FieldLaws.ExpNonZero | GaloisField.cs:36-46 | In a primitive field no power of the generator is 0. |
| FieldLaws.MulExp | GaloisField.cs:121-128 | The product of non-zero elements is exp of the sum of their logs, taken modulo size − 1. |
| FieldLaws.MulNonZero | GaloisField.cs:121-128 | A primitive field has no zero divisors. |
| FieldLaws.MulComm | GaloisField.cs:121-128 | Multiplication is commutative. |
| FieldLaws.MulOne | GaloisField.cs:121-128 | 1 is the identity of multiplication in a primitive field. |
| FieldLaws.MulAssoc | GaloisField.cs:121-128 | Multiplication is associative in a primitive field. |
| FieldLaws.MulDistrib | GaloisField.cs:121-128 | Multiplication distributes over XOR. This holds because the table's doubling step is linear. |
| FieldLaws.StepLinear | GaloisField.cs:40-45 | One doubling-and-reduce step of the exponential table is XOR-linear. |
| FieldLaws.InverseLaw | GaloisField.cs:111-118 | a · inverse(a) = 1 for every non-zero a, and the inverse is non-zero. |
| GaloisFieldPoly.Normalize | GaloisFieldPoly.cs:26-52 | Leading zeros are stripped, and an all-zero array becomes [0]. The result is normalised, never longer than the input, and has the same coefficient at every power. |
| GaloisFieldPoly.NewPoly | GaloisFieldPoly.cs:19-53 | An empty coefficient array is rejected. Any other array yields a normalised polynomial with the same coefficient at every power. |
| GaloisFieldPoly.GetCoefficient | GaloisFieldPoly.cs:77-80 | Reads the coefficient of x^degree, which is the leading coefficient at the degree. |
| GaloisFieldPoly.EvaluateAt | GaloisFieldPoly.cs:83-107 | The value of a polynomial at a field element lies in the field. |
| GaloisFieldPoly.EvaluateAtHorner | GaloisFieldPoly.cs:83-107 | All three branches of evaluateAt compute Horner evaluation: the x = 0 shortcut, the x = 1 sum of coefficients, and the general loop. The x = 1 shortcut needs a primitive field. |
| GaloisFieldPoly.AddOrSubtract | GaloisFieldPoly.cs:110-143 | The sum is normalised, and each coefficient is the XOR of the two operands' coefficients at that power. |
| GaloisFieldPoly.Multiply | GaloisFieldPoly.cs:146-171 | The product is a normalised field polynomial whose coefficient at x^k is the convolution sum over i + j = k of p_i · q_j. |
| GaloisFieldPoly.MultiplyScalar | GaloisFieldPoly.cs:174-191 | Scaling by 1 returns the polynomial itself. Any other scalar multiplies every coefficient by it. |
| GaloisFieldPoly.MultiplyByMonomial | GaloisFieldPoly.cs:194-211 | A negative degree throws. Otherwise the coefficient at x^i is c · p_(i − degree) for i ≥ degree, and 0 below. |
| GaloisFieldPoly.BuildMonomial | GaloisField.cs:73-86 | A negative degree throws, and coefficient 0 gives the zero polynomial. Otherwise the result is c·x^degree, with degree `degree`, leading coefficient c, and no other term. |
| GaloisFieldPoly.DivStep | GaloisFieldPoly.cs:231-239 | One pass of the division loop leaves quotient · divisor + remainder unchanged and strictly lowers the remainder. |
| GaloisFieldPoly.DivLoop | GaloisFieldPoly.cs:231-239 | The loop ends with the same quotient · divisor + remainder it started from, and a remainder that is zero or of lower degree than the divisor. |
| GaloisFieldPoly.Divide | GaloisFieldPoly.cs:214-242 | Division fails exactly for a zero divisor. Otherwise p = quotient · d + remainder, with a remainder that is zero or of lower degree than d. |
| PolyLaws.AddComm | GaloisFieldPoly.cs:110-143 | Polynomial addition is commutative. |
| PolyLaws.AddZero | GaloisFieldPoly.cs:116-123 | The zero polynomial is the identity of addition on both sides. |
| PolyLaws.AddSelf | GaloisFieldPoly.cs:110-143 | Every polynomial is its own negative. |
| PolyLaws.AddAssoc | GaloisFieldPoly.cs:110-143 | Polynomial addition is associative. |
| PolyLaws.MultiplyDegree | GaloisFieldPoly.cs:146-171 | A zero factor gives Zero. Otherwise the product has degree deg p + deg q, and its leading coefficient is the product of the leading coefficients. |
| PolyLaws.ScalarLaws | GaloisFieldPoly.cs:174-191 | Scaling by 0 gives Zero and scaling by 1 is the identity. A non-zero scalar keeps a non-zero polynomial's degree. |
| PolyLaws.MonomialShift | GaloisFieldPoly.cs:194-211 | A negative degree fails and coefficient 0 gives Zero. Otherwise the degree grows by exactly `degree`. |
| PolyLaws.HornerAdd | GaloisFieldPoly.cs:110-143 | Evaluating a sum gives the XOR of the two evaluations. |
| PolyLaws.HornerScalar | GaloisFieldPoly.cs:174-191 | Evaluating a scaled polynomial gives the scaled evaluation. |
| PolyLaws.HornerMultiply | GaloisFieldPoly.cs:146-171 | Evaluation is multiplicative: (p · q)(a) = p(a) · q(a). |
| PolyLaws.ProductSplit | GaloisFieldPoly.cs:146-171 | Splitting p as p′·x + c0 splits the product the same way: p · q = x·(p′ · q) + c0 · q. |
| PolyRing.ConstantProduct | GaloisFieldPoly.cs:174-191 | The product with a constant polynomial [c] equals multiply(int) by c. |
| PolyRing.MultiplyUnits | GaloisFieldPoly.cs:146-171 | One is the identity of the polynomial product, and Zero absorbs it. |
| PolyRing.MulAddLeft | GaloisFieldPoly.cs:146-171 | The product distributes over addition in its first factor. |
| PolyRing.MulAddRight | GaloisFieldPoly.cs:146-171 | The product distributes over addition in its second factor. |
| PolyRing.ScalarLeft | GaloisFieldPoly.cs:174-191 | A scalar can be moved from a factor to the product: (c·p) · q = c·(p · q). |
| PolyRing.ShiftLeft | GaloisFieldPoly.cs:194-211 | Multiplying a factor by x multiplies the product by x. |
| PolyRing.MultiplyAssoc | GaloisFieldPoly.cs:146-171 | The polynomial product is associative. |
| ReedSolomon.NewCoder | ReedSolomonCoder.cs:28-41 | The constructor fails exactly when the block is shorter than the 11-byte marker. Otherwise the error block is the marker followed by spaces, and the cache holds only the generator 1. |
| ReedSolomon.NewCoderValid | ReedSolomonCoder.cs:28-41 | A coder built over a primitive 256-element field satisfies the coder invariant. |
| ReedSolomon.BlockCountStep | ReedSolomonCoder.cs:47 | The block count ⌈n / size⌉ is 0 exactly for an empty message. Taking one block off the front lowers it by one. |
| ReedSolomon.GeneratorsShape | ReedSolomonCoder.cs:83-96 | The chain of generators up to degree n − 1 exists exactly when every root exponent lies inside the exp table. Each generator in the chain is a field polynomial. |
| ReedSolomon.GeneratorsNext | ReedSolomonCoder.cs:88-93 | Extending the generator chain by one appends exactly the previous generator times (x + a^(d − 1 + b)). |
| ReedSolomon.GeneratorNext | ReedSolomonCoder.cs:88-93 | The generator of degree d is the one of degree d − 1 times (x + a^(d − 1 + b)). |
| ReedSolomon.GeneratorMonic | ReedSolomonCoder.cs:83-96 | The generator of degree d has degree d and leading coefficient 1. |
| ReedSolomon.GeneratorRoots | ReedSolomonCoder.cs:83-96 | x is a root of the generator of degree d exactly when x is one of a^b … a^(b + d − 1). |
| ReedSolomon.CacheEntry | ReedSolomonCoder.cs:95 | Every entry of a consistent cache is the generator of its degree. |
| ReedSolomon.BuildGenerator | ReedSolomonCoder.cs:83-96 | The cache only grows, and the old cache is a prefix of the new one. The result is the cache entry for the degree. From a consistent cache, buildGenerator succeeds exactly when the generator exists, returns it, and leaves the cache consistent. |
| Encoding.EncodeBlock | ReedSolomonCoder.cs:99-128 | The encoded block has the input's length. Only the generator cache of the coder changes, and it stays consistent. |
| Encoding.EncodeBlockFails | ReedSolomonCoder.cs:101-112 | Block encoding throws exactly when ecSize ≤ 0, when no data symbols are left, or when the generator of degree ecSize cannot be built. |
| Encoding.EncodeBlockParity | ReedSolomonCoder.cs:112-127 | The encoded block is the data followed by the remainder of data·x^e divided by the monic degree-e generator, left-padded with zeros to e symbols. |
| Encoding.ParityIsMultiple | ReedSolomonCoder.cs:116-127 | Data followed by the padded remainder has the coefficients of quotient · generator, so it is a multiple of the generator. |
| Encoding.EncodeBlockData | ReedSolomonCoder.cs:113-114 | The data part of the block is passed through unchanged. |
| Encoding.EncodeBlockRoots | ReedSolomonCoder.cs:99-128 | The encoded block vanishes at every root a^b … a^(b + e − 1) of the generator. |
| Encoding.EncodeBlockCodeword | ReedSolomonCoder.cs:99-128 | Every encoded block is a codeword. |
| Decoding.Syndromes | ReedSolomonCoder.cs:134-146 | Syndrome computation succeeds exactly when every exponent i + b lies inside the exp table. Syndrome i is the received polynomial evaluated at a^(i + b). |
| Decoding.SyndromesZeroIffCodeword | ReedSolomonCoder.cs:138-151 | All syndromes are zero exactly when the received block is a codeword. |
| Decoding.RunEuclid | ReedSolomonCoder.cs:183-240 | A solver result has sigma(0) = 1 and deg omega < R / 2. |
| Decoding.KeyStep | ReedSolomonCoder.cs:210-222 | One division step keeps r = s·a + t·b: the new remainder and the multiplier q·t + tLast satisfy it again. |
| Decoding.KeyIdentity | ReedSolomonCoder.cs:193-196 | The coefficient-wise key relation is the polynomial identity r = s·a + t·b. |
| Decoding.KeyPointwise | ReedSolomonCoder.cs:183-240 | The key equation also holds at every field element, as an equation between the evaluations. |
| Decoding.RunEuclidKeyEquation | ReedSolomonCoder.cs:183-240 | The solver's sigma and omega satisfy the key equation omega = s·a + sigma·b as polynomials, for some polynomial s, with a and b in the solver's order. Also sigma(0) = 1 and deg omega < R / 2. |
| Decoding.ChienScanRoots | ReedSolomonCoder.cs:250-259 | The Chien loop collects the inverses of the first roots of sigma, found in increasing order from 1, and stops once it has enough. |
| Decoding.FindErrorLocationsRoots | ReedSolomonCoder.cs:243-265 | A degree-1 locator gives its x coefficient. Otherwise the result is None when sigma has fewer roots than its degree, and else the inverses of its first deg sigma roots. |
| Decoding.LocationsDistinct | ReedSolomonCoder.cs:243-265 | The error locations found are non-zero field elements, pairwise distinct. |
| Decoding.TermPlusOneIsXor | ReedSolomonCoder.cs:282 | The bit trick `(t & 1) == 0 ? t \| 1 : t & ~1` is adding 1 in the field, i.e. t XOR 1. |
| Decoding.DenominatorNonZero | ReedSolomonCoder.cs:275-285 | For distinct non-zero locations, Forney's denominator is non-zero, so its inverse exists. |
| Decoding.MagnitudesSucceed | ReedSolomonCoder.cs:268-293 | For distinct non-zero locations, computing the error magnitudes never throws. |
| Decoding.FindErrorMagnitudes | ReedSolomonCoder.cs:268-293 | It gives one magnitude per location, each a field element. |
| Decoding.CorrectOutcome | ReedSolomonCoder.cs:168-177 | The correction loop never throws. It succeeds exactly when every position size − 1 − log(X_k) lies inside the block. The corrected block is then the received block XOR the magnitudes at those positions. |
| Decoding.CorrectionsSucceed | ReedSolomonCoder.cs:162-177 | Once the locations are found, neither the magnitudes nor the correction throws. |
| Decoding.LocateAndCorrectSucceeds | ReedSolomonCoder.cs:153-179 | After non-zero syndromes, the solver, the search and the correction never throw; they only accept or reject. |
| Decoding.DecodeBlock | ReedSolomonCoder.cs:132-180 | A corrected block has the received length and field symbols. |
| Decoding.DecodeBlockFails | ReedSolomonCoder.cs:132-180 | Block decoding throws exactly when the block is empty, when ecSize < 0, or when a syndrome exponent falls outside the exp table. |
| Decoding.DecodeCodeword | ReedSolomonCoder.cs:138-151 | A codeword is accepted and returned unchanged. |
| Blocks.NumBlocksCount | ReedSolomonCoder.cs:47 | The number of iterations of the block loop is the source's block count ⌈n / k⌉. |
| Blocks.NumBlocksCovers | ReedSolomonCoder.cs:47 | The blocks cover the message with less than one block to spare: n ≤ count·k < n + k. |
| Blocks.ChunkJoin | ReedSolomonCoder.cs:52-53 | The zero-padded first block followed by the chunks of the rest is the whole message zero-padded to count·k. |
| Blocks.EncodeLoopShape | ReedSolomonCoder.cs:44-58 | The encoding loop keeps the coder invariant and emits count·size bytes. |
| Blocks.EncodeLoopData | ReedSolomonCoder.cs:50-56 | If the block coder keeps each block's first k symbols, then the first k symbols of the emitted blocks, in order, are the message zero-padded to whole blocks of k. |
| Blocks.EncodeLoopFails | ReedSolomonCoder.cs:44-58 | The encoding loop fails exactly when the message is non-empty and either a block is longer than the coded block or the block step fails. A negative coded length is an allocation overflow. |
| Blocks.DecodeLoopFails | ReedSolomonCoder.cs:61-81 | The decoding loop fails exactly when the message is non-empty and the block step fails. Otherwise it emits count·k bytes. |
| Blocks.LoopRoundTrip | ReedSolomonCoder.cs:44-81 | If the block decoder inverts the block encoder, decoding the encoded message gives the message zero-padded to whole blocks. |
| Messages.ToBytes | ReedSolomonCoder.cs:57 | The (byte) cast keeps the length and yields bytes. |
| Messages.ToBytesKeepsBytes | ReedSolomonCoder.cs:80 | The cast is the identity on values that are already bytes. |
| Messages.Encode | ReedSolomonCoder.cs:44-58 | encode(byte[]) yields bytes. |
| Messages.EncodeShape | ReedSolomonCoder.cs:44-58 | The encoded message has ⌈n / blockSize⌉ · (blockSize + ecSize) bytes. With ecSize > 0, the first blockSize bytes of the coded blocks, taken in order, are the message zero-padded to whole blocks (the copy at lines 52-53, then the data left in place by the block encoder). With ecSize ≤ 0 only the empty message encodes, to nothing. Only the coder's cache changes, and the coder stays valid. |
| Messages.EncodeStepKeeps | ReedSolomonCoder.cs:113-114 | Every block the encoder codes from a coder the loop reaches starts with the block's first blockSize symbols. |
| Messages.EncodeFails | ReedSolomonCoder.cs:44-58 | Encoding throws exactly when the message is non-empty and the coder cannot encode a block. A negative coded block length is an allocation overflow. |
| Messages.Decode | ReedSolomonCoder.cs:61-81 | decode(byte[]) yields bytes. |
| Messages.DecodeFails | ReedSolomonCoder.cs:61-81 | A zero coded block length divides by zero, and a negative one fails exactly when the block count is non-zero. For a positive length, decoding fails exactly when the message is non-empty and the coder cannot decode a block. The output has count · blockSize bytes. |
| Messages.DecodeStepCodeword | ReedSolomonCoder.cs:71-73 | A coded block that is a codeword decodes to its first blockSize bytes. |
| Messages.EncodeBlockDecodes | ReedSolomonCoder.cs:54-73 | Every block the encoder emits is accepted by a decoder with the same field and sizes, and yields the original data. |
| Messages.EncodeStepInverts | ReedSolomonCoder.cs:44-81 | The block decoder inverts the block encoder on every padded data block and every coder the encoding loop reaches. |
| Messages.DecodeEncodeEmpty | ReedSolomonCoder.cs:44-81 | An empty message encodes to nothing. It decodes to nothing, except that a zero coded block length divides by zero. |
| Messages.BlocksRoundTrip | ReedSolomonCoder.cs:44-81 | The decoding loop inverts the encoding loop up to zero padding of the last block. |
| Messages.DecodeEncode | ReedSolomonCoder.cs:44-81 | Round trip: decoding an encoded message, with a coder of the same field and sizes, gives the message zero-padded to a whole number of blocks. The one exception is a zero coded block length, where decode divides by zero. |
| Messages.DecodeEncodeBlocks | ReedSolomonCoder.cs:44-81 | The round trip for a non-empty message and ecSize > 0, where every block passes through the block coder. |

## Left out

- The Windows Forms front end (Form1.cs), file and text I/O, and the UTF-8 conversion of the text: these are I/O. The error marker is modelled as its eleven UTF-8 bytes.
- The program's own field `GaloisField(0x011D, 256, 0)` (Form1.cs:16) is not proved to satisfy `GaloisField.Primitive`. Every codec theorem is stated for any coder whose field is primitive. `FieldLaws.NewFieldPrimitive` reduces that condition, for this field, to exp being one-to-one over 255 table entries with exp[255] = 1. Checking those entries means evaluating the table literally, and that is beyond what the verifier does within its resource limit.
- GaloisField.NewField: requires a non-negative primitive and 0 ≤ size ≤ 2^30. Two source behaviours are therefore not modelled. A negative `size` makes `new int[size]` throw. A negative `primitive` is XORed in two's complement before the mask, and the model's bitwise operations are defined on naturals only.
- GaloisField.Multiply: requires both operands to be field elements. With an operand at or beyond `size`, the source throws IndexOutOfRange in the table lookup. With `size` 1 and such an operand, `% (size - 1)` divides by zero. Neither case is modelled, and every caller in the model passes field elements.
- GaloisFieldPoly.Divide: requires a primitive field. In a field whose tables are not primitive, lead(d) · inverse(lead(d)) need not be 1. Then the leading term never cancels, and the source loop (GaloisFieldPoly.cs:231-239) does not terminate. The model does not describe that non-termination.
- Decoding.EuclidLoop: requires a primitive field, for the same reason: its inner loop is the same long division.
- Decoding.RunEuclid: requires a primitive field (see Decoding.EuclidLoop).
- ReedSolomon.CoderValid: requires a 256-element field. The constructor accepts any field, but encode and decode cast symbols to bytes, and only for size 256 is every symbol a byte. All coder theorems are stated under this invariant.
- Messages.Encode: the lengths `blocks_count * (blockSize + ecSize)`, `i * blockSize` and `i * (blockSize + ecSize)` are unbounded integers. In the source they are 32-bit `int` and wrap silently on overflow, which can make the allocation negative or too small.
- Messages.Decode: likewise, `blockSize + ecSize` and `blocks_count * blockSize` are not wrapped to 32 bits.
- The `field.Equals` checks of the polynomial operations (GaloisFieldPoly.cs:112, 148, 216): every polynomial in the model belongs to the one field passed alongside it, so the mismatched-field ArgumentException does not arise.
- The generator cache is threaded through the encoding calls as a value instead of being mutated in place. Decoding never touches it.
- Decoding.FindErrorMagnitudes: the contract gives the shape and the absence of exceptions, not that the magnitudes are the true error values. The full error-correction theorem (at most ecSize / 2 symbol errors are corrected) is not proved. What is proved: codewords pass unchanged, a correction is exactly the XOR of the computed magnitudes at the computed positions, and the decoder never throws on a well-formed block.
- logTable[0] is whatever the constructor leaves there (0). The source never reads it, and neither does the model.
