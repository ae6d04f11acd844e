# Reed–Solomon code over GF(2^8)

This project models the core of a small Reed–Solomon codec and proves properties of the model.
The codec works over the field GF(2^8), built with the reducing polynomial x^8 + x^4 + x^3 + x^2 + 1
(0x11D) and the generator alpha = 2.
- `ReedSolomonCodeService` is built with k parity symbols. Its generator polynomial is
  g(x) = (x + alpha^1) ... (x + alpha^k).
- It encodes systematically: the codeword holds the remainder of m(x) x^k modulo g, followed by the
  message bytes.
- It decodes in these steps:
  - it computes the syndromes at alpha^1 .. alpha^k;
  - it finds an error locator by a Berlekamp–Massey style loop;
  - it searches every power of alpha for the locator's roots;
  - it maps each root to a byte position;
  - it computes the error magnitudes with Forney's formula and xors them into the received word.
- Polynomials are byte arrays with the lowest degree first. The `Polynomial` constructor drops
  trailing zero coefficients.

How the Dafny files are organised:
- `results.dfy`: the `Result` type and the error kinds. Each error kind stands for an exception of
  the codec.
  - `DivisionByZero` stands for `DivideByZeroException`.
  - `NegativeArraySize` stands for the overflow raised by `new byte[n]` when n < 0.
  - `IndexOutOfRange` stands for a write outside an array.
  - `InvalidInput` and `InvalidConfiguration` stand for the `ArgumentException`s.
- `field_arithmetic.dfy`: byte addition (xor) and shift-and-xor multiplication, with their
  algebraic laws.
- `field_powers.dfy`: the table of the 255 powers of alpha. It proves that alpha has order 255 and
  generates every nonzero byte.
- `galois_field.dfy`: exponential, logarithm, inverse and division.
- `field_vectors.dfy`: the values the field unit tests expect.
- `polynomials.dfy`, `polynomial_division.dfy`, `polynomial_transforms.dfy`: the `Polynomial`
  operations on values. A polynomial is a trimmed `seq<byte>`.
- `polynomial_objects.dfy`: the `Polynomial` class itself. Its coefficients are an `array<byte>`
  that the indexer writes in place. Each of its methods is proved to compute the value function.
- `encoding.dfy`, `decoding.dfy`: encoder and decoder on values.
- `codec_service.dfy`: the service class, step by step over `Polynomial` objects and arrays.
  Each method is proved to compute the value function named in its row of the table below.
- `byte_facts.dfy`: one lemma per product or sum of two literal bytes that the vector lemmas
  use. A product is read off the table of powers of alpha, a sum is computed bit by bit.
- `polynomial_vectors.dfy`: the values the `Polynomial` unit tests and the generator test expect.
  Each product is proved coefficient by coefficient.
- `codec_vectors.dfy`: the encoding, decoding and one-error decoding of the "DON'T PANIC" test
  message with four parity bytes. The encoding is proved by exhibiting the quotient of the
  division.
- `single_error.dfy`: proves that the decoder as written corrects any single corrupted byte for
  k >= 2 and codewords of at most 255 bytes, provided the received word's last byte is nonzero.
  The untrimmed decoder (`DecodeUntrimmed`) corrects it with no condition on the last byte.
  - For k >= 2, it runs every stage of the decoder on such a word: syndromes, locator, roots,
    magnitude and correction.
  - It also covers the error-correction test vector.

The `GaloisField` helper class is not part of this model. Its operations are written from the
standard definition of GF(2^8) with 0x11D and generator 2:
- `Exp(e)` is alpha^(e mod 255).
- `Log` is the inverse of `Exp` on nonzero bytes.
- `Inverse(a)` is alpha^(255 - log a).
- `Divide(a, b)` is 0 for a == 0, and alpha^(log a + 255 - log b) otherwise.
- A zero divisor raises `DivisionByZero`.

The field's unit tests are proved against these definitions (`FieldVectors`).

Where the encoder as written loses information, the model keeps two versions. The encoder as
written stores the message in a trimming `Polynomial`, so trailing zero bytes of the message are
dropped.
- `Encoding.EncodeAsWritten` and `ReedSolomonCodeService.EncodeAsWritten` follow the code exactly.
- `Encoding.Encode` and `ReedSolomonCodeService.Encode` return a codeword of full length.

The service's `Decode` is modelled as written. `Decoding.DecodeUntrimmed` is the decoder without
the trim of the received word. See the findings below.

## Model

| member | source | states |
|---|---|---|
| FieldArithmetic.AddCommutes | ReedSolomonCode/Services/Polynomial.cs:47 | coefficient addition (xor) is commutative |
| FieldArithmetic.AddAssociates | ReedSolomonCode/Services/Polynomial.cs:47 | coefficient addition is associative |
| FieldArithmetic.AddSelf | ReedSolomonCode.Tests/GaloisFieldTests.cs:17 | every byte is its own additive inverse: a + a == 0 |
| FieldArithmetic.AddZero | ReedSolomonCode.Tests/GaloisFieldTests.cs:18 | 0 is the neutral element of addition on both sides |
| FieldArithmetic.AddDigits | ReedSolomonCode.Tests/GaloisFieldTests.cs:16 | addition is bitwise exclusive or, bit by bit over the eight bits |
| FieldArithmetic.XTimeAdd | ReedSolomonCode/Services/Polynomial.cs:63 | multiplication by x with the 0x11D reduction is additive |
| FieldArithmetic.MultiplyCommutes | ReedSolomonCode/Services/Polynomial.cs:63 | field multiplication is commutative |
| FieldArithmetic.MultiplyAssociates | ReedSolomonCode/Services/Polynomial.cs:63 | field multiplication is associative |
| FieldArithmetic.MultiplyAddRight | ReedSolomonCode/Services/Polynomial.cs:62-63 | multiplication distributes over addition |
| FieldArithmetic.MultiplyAddLeft | ReedSolomonCode/Services/Polynomial.cs:62-63 | multiplication distributes over addition from the left operand |
| FieldArithmetic.MultiplyOneRight | ReedSolomonCode/Services/Polynomial.cs:131-138 | 1 is the neutral element of multiplication (the initial power in Evaluate) |
| FieldArithmetic.MultiplyOneLeft | ReedSolomonCode/Services/Polynomial.cs:131-138 | 1 is neutral on the left as well |
| FieldArithmetic.MultiplyZeroRight | ReedSolomonCode/Services/Polynomial.cs:135 | multiplying by 0 gives 0 |
| FieldArithmetic.MultiplyZeroLeft | ReedSolomonCode/Services/Polynomial.cs:135 | 0 times any byte is 0 |
| FieldArithmetic.MultiplyByX | ReedSolomonCode/Services/Polynomial.cs:63 | multiplying by alpha == 2 is one shift with reduction by 0x11D |
| FieldArithmetic.PowerAdd | ReedSolomonCode/Services/Polynomial.cs:138 | the running power of Evaluate satisfies x^(m+n) == x^m * x^n |
| FieldPowers.PowerCycle | ReedSolomonCode/Services/ReedSolomonCodeService.cs:204 | alpha^255 == 1, so exponents wrap modulo 255 |
| FieldPowers.Order | ReedSolomonCode/Services/ReedSolomonCodeService.cs:159-166 | alpha^e != 1 for 0 < e < 255: alpha has order exactly 255 |
| FieldPowers.Primitive | ReedSolomonCode/Services/ReedSolomonCodeService.cs:159-166 | every nonzero byte is alpha^e for some e < 255 |
| GaloisField.ExpIsPower | ReedSolomonCode/Services/ReedSolomonCodeService.cs:29 | Exp(e) is the e-th power of alpha == 2 for every e, beyond 255 as well |
| GaloisField.ExpAdd | ReedSolomonCode/Services/ReedSolomonCodeService.cs:29 | alpha^i * alpha^j == alpha^(i+j) |
| GaloisField.ExpNonzero | ReedSolomonCode/Services/ReedSolomonCodeService.cs:204 | no power of alpha is zero |
| GaloisField.ExpOne | ReedSolomonCode/Services/ReedSolomonCodeService.cs:171-176 | for n < 510, alpha^n == 1 exactly when n is 0 or 255 |
| GaloisField.ExpInjective | ReedSolomonCode/Services/ReedSolomonCodeService.cs:159-166 | distinct exponents below 255 give distinct powers, so the root search visits every nonzero byte once |
| GaloisField.Log | ReedSolomonCode/Services/ReedSolomonCodeService.cs:139 | the logarithm of a nonzero byte is below 255 and Exp of it gives the byte back |
| GaloisField.LogExp | ReedSolomonCode/Services/ReedSolomonCodeService.cs:139 | Log(Exp(e)) == e for e < 255 |
| GaloisField.MultiplyByLogs | ReedSolomonCode/Services/Polynomial.cs:63 | a * b == alpha^(log a + log b) for nonzero a, b |
| GaloisField.NoZeroDivisors | ReedSolomonCode/Services/Polynomial.cs:63 | a product is zero if and only if one factor is zero |
| GaloisField.MultiplyCancel | ReedSolomonCode/Services/Polynomial.cs:82 | a nonzero factor can be cancelled |
| GaloisField.Inverse | ReedSolomonCode/Services/ReedSolomonCodeService.cs:139 | the inverse exists exactly for nonzero bytes and a * inverse == 1; zero gives DivisionByZero |
| GaloisField.InverseUnique | ReedSolomonCode/Services/ReedSolomonCodeService.cs:139 | Inverse(a) == c if and only if a * c == 1 |
| GaloisField.Divide | ReedSolomonCode/Services/Polynomial.cs:82 | division succeeds exactly for a nonzero divisor, with a quotient that times the divisor gives the dividend; a zero divisor gives DivisionByZero |
| GaloisField.DivideUnique | ReedSolomonCode/Services/ReedSolomonCodeService.cs:213 | Divide(a, b) == c if and only if b != 0 and c * b == a |
| GaloisField.DivideMultiply | ReedSolomonCode.Tests/GaloisFieldTests.cs:48-58 | (a * b) / b == a for every a and nonzero b |
| GaloisField.DivideByInverse | ReedSolomonCode/Services/ReedSolomonCodeService.cs:213 | a / b == a * inverse(b) |
| FieldVectors.AddVectors | ReedSolomonCode.Tests/GaloisFieldTests.cs:13-19 | 0x57 + 0x83 == 0xD4, 0xAA + 0xAA == 0, 0 + 0xFF == 0xFF |
| FieldVectors.MultiplyVectorA | ReedSolomonCode.Tests/GaloisFieldTests.cs:25 | 0x50 * 0x04 == 0x5D |
| FieldVectors.MultiplyVectorB | ReedSolomonCode.Tests/GaloisFieldTests.cs:26 | 0x74 * 0x47 == 0x1D |
| FieldVectors.MultiplyVectorC | ReedSolomonCode.Tests/GaloisFieldTests.cs:27 | 0x8E * 0x8E == 0x47 |
| FieldVectors.DivideVectorA | ReedSolomonCode.Tests/GaloisFieldTests.cs:34 | 0xAD / 0x8E == 0x47 |
| FieldVectors.DivideVectorB | ReedSolomonCode.Tests/GaloisFieldTests.cs:35 | 0x83 / 0xE9 == 0x04 |
| FieldVectors.InverseVector | ReedSolomonCode.Tests/GaloisFieldTests.cs:39-45 | the inverse of 0x08 is 0xAD |
| FieldVectors.MultiplyThenDivide | ReedSolomonCode.Tests/GaloisFieldTests.cs:48-58 | (0x57 * 0x83) / 0x83 == 0x57 |
| Polynomials.Trim | ReedSolomonCode/Services/Polynomial.cs:15-19 | the trimmed coefficients are a prefix of the input with no trailing zero, and only zeros were removed |
| Polynomials.TrimCoeff | ReedSolomonCode/Services/Polynomial.cs:18 | trimming changes no coefficient as the indexer reads them |
| Polynomials.TrimTrimmed | ReedSolomonCode/Services/Polynomial.cs:18 | trimming a trimmed sequence changes nothing |
| Polynomials.Extensionality | ReedSolomonCode/Services/Polynomial.cs:149-162 | two trimmed polynomials with the same coefficients are equal |
| Polynomials.SameCoefficients | ReedSolomonCode/Services/Polynomial.cs:149-162 | two trimmed polynomials are equal if and only if every coefficient agrees |
| Polynomials.Sum | ReedSolomonCode/Services/Polynomial.cs:40-51 | the sum is trimmed and no longer than the longer operand |
| Polynomials.SumCoeff | ReedSolomonCode/Services/Polynomial.cs:45-48 | each coefficient of the sum is the field sum of the two coefficients |
| Polynomials.SumCommutes | ReedSolomonCode/Services/Polynomial.cs:40-51 | p + q == q + p |
| Polynomials.SumAssociates | ReedSolomonCode/Services/Polynomial.cs:40-51 | (p + q) + s == p + (q + s) |
| Polynomials.SumSelf | ReedSolomonCode/Services/Polynomial.cs:40-51 | p + p is the zero polynomial |
| Polynomials.SumZero | ReedSolomonCode/Services/Polynomial.cs:40-51 | adding the zero polynomial trims |
| Polynomials.SumCancel | ReedSolomonCode/Services/Polynomial.cs:40-51 | q + (p + q) == p: adding the same polynomial twice undoes it |
| Polynomials.Mul | ReedSolomonCode/Services/Polynomial.cs:54-68 | the product is trimmed and no longer than the result array of degree deg p + deg q |
| Polynomials.MulCoeff | ReedSolomonCode/Services/Polynomial.cs:58-65 | coefficient t of the product is the convolution sum over i + j == t |
| Polynomials.MulDegree | ReedSolomonCode/Services/Polynomial.cs:56 | for nonzero trimmed operands, deg(p q) == deg p + deg q and the leading coefficient is the product of the leading ones |
| Polynomials.MulDistributes | ReedSolomonCode/Services/Polynomial.cs:54-68 | (p1 + p2) q == p1 q + p2 q |
| Polynomials.MulTrim | ReedSolomonCode/Services/Polynomial.cs:54-68 | the product does not depend on trailing zeros of either operand |
| Polynomials.MulZero | ReedSolomonCode/Services/Polynomial.cs:54-68 | the zero polynomial times anything is zero |
| Polynomials.MulMonomialLeft | ReedSolomonCode/Services/ReedSolomonCodeService.cs:47-49 | multiplying by c x^k shifts the coefficients up by k and scales them by c |
| Polynomials.MulMonomialRight | ReedSolomonCode/Services/ReedSolomonCodeService.cs:47-49 | the same with the monomial on the right |
| Polynomials.EvalTrim | ReedSolomonCode/Services/Polynomial.cs:128-142 | evaluation ignores trailing zero coefficients |
| Polynomials.EvalExtend | ReedSolomonCode/Services/Polynomial.cs:133-139 | summing terms past the length adds nothing |
| Polynomials.EvalSum | ReedSolomonCode/Services/Polynomial.cs:128-142 | (p + q)(x) == p(x) + q(x) |
| Polynomials.EvalMul | ReedSolomonCode/Services/Polynomial.cs:128-142 | (p q)(x) == p(x) q(x) |
| Polynomials.EvalMulMonomial | ReedSolomonCode/Services/Polynomial.cs:128-142 | (c x^k q)(x) == c x^k q(x) |
| Polynomials.EvalShifted | ReedSolomonCode/Services/ReedSolomonCodeService.cs:47-49 | a polynomial whose coefficients are r shifted up by k evaluates to x^k r(x) |
| PolynomialDivision.ScaledShiftCoeff | ReedSolomonCode/Services/Polynomial.cs:86-90 | the scaled divisor holds divisor[i] * scale at degree degreeDiff + i and zero below |
| PolynomialDivision.LeadingCancels | ReedSolomonCode/Services/Polynomial.cs:81-92 | adding the scaled divisor removes the remainder's leading term, so the remainder gets shorter |
| PolynomialDivision.Reduced | ReedSolomonCode/Services/Polynomial.cs:92 | the next remainder is trimmed and shorter than the current one |
| PolynomialDivision.DivLoopUnfold | ReedSolomonCode/Services/Polynomial.cs:79-93 | one step of the definition: one loop round writes the scale at degreeDiff and continues with the reduced remainder |
| PolynomialDivision.DivLoopFails | ReedSolomonCode/Services/Polynomial.cs:82 | if the divisor's top coefficient is zero, the loop fails with the error of that field division |
| PolynomialDivision.DivRound | ReedSolomonCode/Services/Polynomial.cs:79-93 | one round keeps quotient * divisor + remainder == dividend and shortens the remainder |
| PolynomialDivision.DivLoopCorrect | ReedSolomonCode/Services/Polynomial.cs:79-95 | the loop succeeds exactly when the divisor is trimmed or never used; then q b + r == a with deg r < deg b; otherwise DivisionByZero |
| PolynomialDivision.DivRemCorrect | ReedSolomonCode/Services/Polynomial.cs:71-96 | division fails with DivisionByZero for the zero divisor and NegativeArraySize when the quotient array has negative length; on success q b + r == a with deg r < deg b |
| PolynomialDivision.DivRemSucceeds | ReedSolomonCode/Services/Polynomial.cs:71-96 | for a trimmed nonzero divisor and a long enough dividend, division succeeds with q b + r == a |
| PolynomialDivision.DivisionUnique | ReedSolomonCode/Services/Polynomial.cs:71-96 | quotient and remainder with deg r < deg b are unique |
| PolynomialDivision.DivRemUnique | ReedSolomonCode/Services/Polynomial.cs:71-96 | Divide returns (q, r) if and only if q b + r == a and deg r < deg b |
| PolynomialTransforms.Derivative | ReedSolomonCode/Services/Polynomial.cs:98-114 | the derivative exists except for the zero polynomial, is trimmed and is shorter |
| PolynomialTransforms.DerivativeCoeff | ReedSolomonCode/Services/Polynomial.cs:105-111 | coefficient k of the derivative is coefficient k + 1 when k + 1 is odd and 0 otherwise (characteristic 2) |
| PolynomialTransforms.DerivativeSum | ReedSolomonCode/Services/Polynomial.cs:98-114 | the derivative of a sum is the sum of the derivatives |
| PolynomialTransforms.DerivativeTwice | ReedSolomonCode/Services/Polynomial.cs:98-114 | the second derivative is zero in characteristic 2 |
| PolynomialTransforms.DiscardHigherDegrees | ReedSolomonCode/Services/Polynomial.cs:116-125 | truncation succeeds exactly for maxDegree >= -1 and keeps trimmed input trimmed |
| PolynomialTransforms.DiscardCoeff | ReedSolomonCode/Services/Polynomial.cs:118-124 | the coefficients up to maxDegree are kept and the rest are zero |
| PolynomialTransforms.DiscardIdempotent | ReedSolomonCode/Services/Polynomial.cs:116-125 | truncating twice is truncating once |
| PolynomialTransforms.DiscardSum | ReedSolomonCode/Services/Polynomial.cs:116-125 | truncation distributes over addition |
| PolynomialObjects.Polynomial.constructor | ReedSolomonCode/Services/Polynomial.cs:15-19 | the new polynomial holds the trimmed coefficients in a fresh array |
| PolynomialObjects.Polynomial.Degree | ReedSolomonCode/Services/Polynomial.cs:22 | the degree is -1 exactly for the zero polynomial, every coefficient above it is zero, and for a trimmed polynomial the one at it is not |
| PolynomialObjects.Polynomial.Get | ReedSolomonCode/Services/Polynomial.cs:27 | the indexer reads the stored coefficient and 0 past the end |
| PolynomialObjects.Polynomial.Set | ReedSolomonCode/Services/Polynomial.cs:28-36 | writing the indexer changes exactly that coefficient, in place |
| PolynomialObjects.Polynomial.Plus | ReedSolomonCode/Services/Polynomial.cs:40-51 | operator + returns a fresh polynomial whose value is the sum |
| PolynomialObjects.Polynomial.Times | ReedSolomonCode/Services/Polynomial.cs:54-68 | operator * fails with NegativeArraySize exactly when both operands are zero, and otherwise returns the product |
| PolynomialObjects.Polynomial.AddRow | ReedSolomonCode/Services/Polynomial.cs:60-64 | one run of the inner loop adds the terms of p1[i] to every entry of the result array |
| PolynomialObjects.Polynomial.Divide | ReedSolomonCode/Services/Polynomial.cs:71-96 | returns the quotient and remainder of the value division, or its error |
| PolynomialObjects.Polynomial.DivideFrom | ReedSolomonCode/Services/Polynomial.cs:76-95 | after the quotient array is allocated, the loop gives the value division's result |
| PolynomialObjects.Polynomial.DivideLoop | ReedSolomonCode/Services/Polynomial.cs:79-95 | the while loop over the remainder and the quotient array computes the value loop |
| PolynomialObjects.Polynomial.CancelLeading | ReedSolomonCode/Services/Polynomial.cs:81-92 | one round writes the quotient array in place and returns a shorter remainder with the same loop result |
| PolynomialObjects.Polynomial.ScaledDivisor | ReedSolomonCode/Services/Polynomial.cs:86-90 | the scaled divisor array is the divisor times scale, shifted up by degreeDiff |
| PolynomialObjects.Polynomial.Derivative | ReedSolomonCode/Services/Polynomial.cs:98-114 | returns the value derivative; the zero polynomial fails with NegativeArraySize |
| PolynomialObjects.Polynomial.DerivativeCoefficients | ReedSolomonCode/Services/Polynomial.cs:103-111 | the result array has length Degree and keeps the odd-degree coefficients one place down |
| PolynomialObjects.Polynomial.DiscardHigherDegrees | ReedSolomonCode/Services/Polynomial.cs:116-125 | returns the same object when the degree is small enough and otherwise a fresh truncated copy; a maxDegree below -1 fails |
| PolynomialObjects.Polynomial.Evaluate | ReedSolomonCode/Services/Polynomial.cs:128-142 | the accumulating loop computes the sum of c_i x^i |
| PolynomialObjects.Polynomial.Equals | ReedSolomonCode/Services/Polynomial.cs:149-162 | true if and only if the other polynomial is not null and has the same coefficients |
| Encoding.Factor | ReedSolomonCode/Services/ReedSolomonCodeService.cs:29 | x + alpha^i is a trimmed polynomial of degree 1 |
| Encoding.Generator | ReedSolomonCode/Services/ReedSolomonCodeService.cs:22-33 | the generator polynomial is monic of degree k |
| Encoding.EvalFactor | ReedSolomonCode/Services/ReedSolomonCodeService.cs:29 | (x + alpha^i)(y) == alpha^i + y |
| Encoding.FactorRoot | ReedSolomonCode/Services/ReedSolomonCodeService.cs:29 | the only root of x + alpha^i is alpha^i |
| Encoding.GeneratorStep | ReedSolomonCode/Services/ReedSolomonCodeService.cs:26-30 | one step of the definition: each loop round multiplies the value of the generator by that of the next factor |
| Encoding.GeneratorRoots | ReedSolomonCode/Services/ReedSolomonCodeService.cs:22-33 | g(y) == 0 if and only if y == alpha^j for some 1 <= j <= k |
| Encoding.ShiftedCoeff | ReedSolomonCode/Services/ReedSolomonCodeService.cs:44-49 | the shifted message holds the trimmed message k places up and zeros below |
| Encoding.ShiftedLength | ReedSolomonCode/Services/ReedSolomonCodeService.cs:44-49 | the shifted message is zero if and only if the trimmed message is, and otherwise is k longer |
| Encoding.Parity | ReedSolomonCode/Services/ReedSolomonCodeService.cs:52 | the parity remainder has fewer than k + 1 coefficients |
| Encoding.ParityQuotient | ReedSolomonCode/Services/ReedSolomonCodeService.cs:52 | quotient * g + parity == m(x) x^k |
| Encoding.ParityCompletes | ReedSolomonCode/Services/ReedSolomonCodeService.cs:52-54 | parity + m(x) x^k is a multiple of g |
| Encoding.DivideShifted | ReedSolomonCode/Services/ReedSolomonCodeService.cs:52 | dividing m(x) x^k by g gives exactly the parity quotient and remainder |
| Encoding.Pad | ReedSolomonCode/Services/ReedSolomonCodeService.cs:54-56 | the parity padded to k bytes keeps its coefficients and adds zeros |
| Encoding.Encode | ReedSolomonCode/Services/ReedSolomonCodeService.cs:36-57 | an empty message gives InvalidInput; otherwise the codeword is k bytes followed by the message itself |
| Encoding.EncodeAsPolynomial | ReedSolomonCode/Services/ReedSolomonCodeService.cs:52-54 | as a polynomial the codeword is remainder + m(x) x^k |
| Encoding.EncodeIsMultiple | ReedSolomonCode/Services/ReedSolomonCodeService.cs:52-54 | every codeword is a multiple of g, and dividing it by g leaves remainder zero |
| Encoding.CodewordRoots | ReedSolomonCode/Services/ReedSolomonCodeService.cs:91-99 | every codeword vanishes at alpha^1 .. alpha^k |
| Encoding.EncodeAsWrittenFails | ReedSolomonCode/Services/ReedSolomonCodeService.cs:38-52 | the encoder as written fails if and only if the message is empty or all zeros: InvalidInput for empty, NegativeArraySize for all zeros |
| Encoding.EncodeAsWrittenTrims | ReedSolomonCode/Services/ReedSolomonCodeService.cs:44 | the encoder as written encodes the message without its trailing zeros |
| Encoding.EncodeAsWrittenSum | ReedSolomonCode/Services/ReedSolomonCodeService.cs:52-56 | the encoder as written returns remainder + m(x) x^k |
| Encoding.EncodeTrimmedSum | ReedSolomonCode/Services/ReedSolomonCodeService.cs:52-56 | for a message without trailing zeros the corrected encoder returns the same polynomial |
| Encoding.EncodeAsWrittenSystematic | ReedSolomonCode.Tests/ReedSolomonTests.cs:25-35 | for a message whose last byte is nonzero, the encoder as written returns k parity bytes followed by the message |
| CodecService.ReedSolomonCodeService.constructor | ReedSolomonCode/Services/ReedSolomonCodeService.cs:10-19 | keeps k and builds the generator for k |
| CodecService.ReedSolomonCodeService.Create | ReedSolomonCode/Services/ReedSolomonCodeService.cs:10-19 | construction fails with InvalidConfiguration if and only if k < 1 |
| CodecService.ReedSolomonCodeService.GenerateGeneratorPolynomial | ReedSolomonCode/Services/ReedSolomonCodeService.cs:22-33 | the loop of products builds (x + alpha^1) ... (x + alpha^degree) |
| CodecService.ReedSolomonCodeService.EncodeAsWritten | ReedSolomonCode/Services/ReedSolomonCodeService.cs:36-57 | the imperative encoder computes the encoder as written |
| CodecService.ReedSolomonCodeService.Encode | ReedSolomonCode/Services/ReedSolomonCodeService.cs:36-57 | the imperative encoder with the padded result computes the corrected encoder |
| CodecService.ReedSolomonCodeService.ShiftMessage | ReedSolomonCode/Services/ReedSolomonCodeService.cs:44-49 | the message polynomial times x^k, built with the array of k + 1 entries |
| CodecService.ReedSolomonCodeService.Decode | ReedSolomonCode/Services/ReedSolomonCodeService.cs:60-88 | the imperative decoder computes the value decoder |
| CodecService.ReedSolomonCodeService.ComputeSyndromes | ReedSolomonCode/Services/ReedSolomonCodeService.cs:91-99 | the syndrome array holds r(alpha^(i+1)) |
| CodecService.ReedSolomonCodeService.IsSyndromeZero | ReedSolomonCode/Services/ReedSolomonCodeService.cs:102-109 | true if and only if every syndrome is zero |
| CodecService.ReedSolomonCodeService.FindErrorLocator | ReedSolomonCode/Services/ReedSolomonCodeService.cs:112-149 | the loop over the syndromes computes the value locator |
| CodecService.ReedSolomonCodeService.Discrepancy | ReedSolomonCode/Services/ReedSolomonCodeService.cs:121-128 | the inner loop computes the discrepancy of round i |
| CodecService.ReedSolomonCodeService.UpdateLocator | ReedSolomonCode/Services/ReedSolomonCodeService.cs:130-145 | the shift, swap and update of one round compute the value round |
| CodecService.ReedSolomonCodeService.FindErrorPositions | ReedSolomonCode/Services/ReedSolomonCodeService.cs:154-180 | the root search and mapping give the value positions |
| CodecService.ReedSolomonCodeService.FindRoots | ReedSolomonCode/Services/ReedSolomonCodeService.cs:159-166 | the loop collects, in ascending order, the exponents whose power is a root |
| CodecService.ReedSolomonCodeService.IsRoot | ReedSolomonCode/Services/ReedSolomonCodeService.cs:162 | true if and only if the locator vanishes at alpha^i |
| CodecService.ReedSolomonCodeService.RootsToPositions | ReedSolomonCode/Services/ReedSolomonCodeService.cs:169-177 | exponent i becomes position 255 - i, with 255 mapped to 0 |
| CodecService.ReedSolomonCodeService.CorrectErrors | ReedSolomonCode/Services/ReedSolomonCodeService.cs:183-226 | corrects the received polynomial in place to the value correction, or reports its error with the polynomial unchanged |
| CodecService.ReedSolomonCodeService.ErrorEvaluatorAndDerivative | ReedSolomonCode/Services/ReedSolomonCodeService.cs:186-195 | builds the evaluator S(x) sigma(x) mod x^k and the formal derivative of the locator |
| CodecService.ReedSolomonCodeService.ComputeMagnitudes | ReedSolomonCode/Services/ReedSolomonCodeService.cs:198-217 | the array of magnitudes written position by position, or the first error |
| CodecService.ReedSolomonCodeService.Magnitude | ReedSolomonCode/Services/ReedSolomonCodeService.cs:204-213 | Forney's quotient at alpha^(255 - position) |
| CodecService.ReedSolomonCodeService.ApplyMagnitudes | ReedSolomonCode/Services/ReedSolomonCodeService.cs:220-223 | each coefficient is xored in place with its magnitude, and the length is kept |
| Decoding.Syndromes | ReedSolomonCode/Services/ReedSolomonCodeService.cs:91-99 | there are k syndromes |
| Decoding.SyndromeAt | ReedSolomonCode/Services/ReedSolomonCodeService.cs:96 | syndrome i is r(alpha^(i+1)) |
| Decoding.ExtractMessage | ReedSolomonCode/Services/ReedSolomonCodeService.cs:229-232 | the bytes after the first k; none if the word is no longer than k |
| Decoding.CodewordSyndromes | ReedSolomonCode/Services/ReedSolomonCodeService.cs:71-77 | an intact codeword has only zero syndromes |
| Decoding.RootsGiveZeroSyndromes | ReedSolomonCode/Services/ReedSolomonCodeService.cs:91-109 | a word vanishing at alpha^1 .. alpha^k has zero syndromes |
| Decoding.SyndromesOfError | ReedSolomonCode/Services/ReedSolomonCodeService.cs:91-99 | the syndromes of codeword + error are those of the error alone |
| Decoding.SyndromesTrim | ReedSolomonCode/Services/ReedSolomonCodeService.cs:68-71 | trimming the received word does not change its syndromes |
| Decoding.ConvDelta | ReedSolomonCode/Services/ReedSolomonCodeService.cs:122-128 | the partial discrepancy sums are the partial convolution sums of locator and syndromes |
| Decoding.DeltaIsCoefficient | ReedSolomonCode/Services/ReedSolomonCodeService.cs:122-128 | the discrepancy of round i is coefficient i of sigma(x) S(x) |
| Decoding.RoundLength | ReedSolomonCode/Services/ReedSolomonCodeService.cs:130-145 | one round grows the locator and the previous locator by at most one coefficient |
| Decoding.RoundConstant | ReedSolomonCode/Services/ReedSolomonCodeService.cs:130-145 | one round keeps the locator trimmed with constant term 1 |
| Decoding.LocatorFrom | ReedSolomonCode/Services/ReedSolomonCodeService.cs:119-146 | the locator has at most k + 1 coefficients |
| Decoding.LocatorFromStep | ReedSolomonCode/Services/ReedSolomonCodeService.cs:119-146 | one step of the definition: the remaining rounds from i are round i followed by the rounds from i + 1 |
| Decoding.LocatorFromConstant | ReedSolomonCode/Services/ReedSolomonCodeService.cs:119-146 | the rounds keep the constant term 1 |
| Decoding.LocatorShape | ReedSolomonCode/Services/ReedSolomonCodeService.cs:112-149 | the locator is a nonzero trimmed polynomial with constant term 1 and degree at most k |
| Decoding.RootsFrom | ReedSolomonCode/Services/ReedSolomonCodeService.cs:159-166 | the collected exponents lie between the start and 254 |
| Decoding.RootsFromMembers | ReedSolomonCode/Services/ReedSolomonCodeService.cs:159-166 | an exponent is collected if and only if it is in range and the locator vanishes at its power |
| Decoding.RootsFromExtend | ReedSolomonCode/Services/ReedSolomonCodeService.cs:159-166 | one step of the definition: one loop step appends the exponent exactly when it is a root |
| Decoding.RootsAscending | ReedSolomonCode/Services/ReedSolomonCodeService.cs:159-166 | the exponents are collected in strictly ascending order |
| Decoding.ExponentOf | ReedSolomonCode/Services/ReedSolomonCodeService.cs:171-176 | every position below 255 comes from exactly one exponent below 255 |
| Decoding.PositionsOf | ReedSolomonCode/Services/ReedSolomonCodeService.cs:169-177 | every mapped position lies in 0 .. 254 |
| Decoding.PositionsOfMembers | ReedSolomonCode/Services/ReedSolomonCodeService.cs:169-177 | a position is listed if and only if its exponent was a root, and no position is listed twice |
| Decoding.VanishesAtPosition | ReedSolomonCode/Services/ReedSolomonCodeService.cs:171-176 | mapping 255 to 0 does not change the evaluation point alpha^(255 - p) |
| Decoding.ErrorPositions | ReedSolomonCode/Services/ReedSolomonCodeService.cs:154-180 | every error position lies in 0 .. 254 |
| Decoding.ErrorPositionsMembers | ReedSolomonCode/Services/ReedSolomonCodeService.cs:154-180 | p is an error position if and only if sigma(alpha^(255 - p)) == 0, each listed once |
| Decoding.ErrorEvaluatorCoeff | ReedSolomonCode/Services/ReedSolomonCodeService.cs:189-192 | the evaluator keeps the coefficients of S(x) sigma(x) below degree k |
| Decoding.Magnitude | ReedSolomonCode/Services/ReedSolomonCodeService.cs:204-213 | the magnitude exists if and only if sigma' does not vanish at X^-1; then magnitude * sigma'(X^-1) == omega(X^-1), otherwise DivisionByZero |
| Decoding.MagnitudesFrom | ReedSolomonCode/Services/ReedSolomonCodeService.cs:198-217 | on success the magnitude array keeps its length |
| Decoding.MagnitudesFromStep | ReedSolomonCode/Services/ReedSolomonCodeService.cs:201-217 | one step of the definition: one foreach step writes the magnitude of the first position or stops with its error |
| Decoding.MagnitudesFromSucceeds | ReedSolomonCode/Services/ReedSolomonCodeService.cs:201-217 | the foreach succeeds if and only if every position is in range and has a magnitude |
| Decoding.MagnitudesFromKeeps | ReedSolomonCode/Services/ReedSolomonCodeService.cs:216 | entries at positions that are not listed stay as they were |
| Decoding.MagnitudesFromValues | ReedSolomonCode/Services/ReedSolomonCodeService.cs:216 | the entry at every listed position is its magnitude |
| Decoding.MagnitudesFromFails | ReedSolomonCode/Services/ReedSolomonCodeService.cs:201-217 | a failure is the error of the first position that cannot be corrected |
| Decoding.Correct | ReedSolomonCode/Services/ReedSolomonCodeService.cs:183-226 | the corrected word has the received length |
| Decoding.CorrectSucceeds | ReedSolomonCode/Services/ReedSolomonCodeService.cs:183-226 | correction succeeds if and only if every position is inside the word and has a magnitude |
| Decoding.CorrectFails | ReedSolomonCode/Services/ReedSolomonCodeService.cs:183-226 | a failed correction reports the error of the first bad position |
| Decoding.CorrectValues | ReedSolomonCode/Services/ReedSolomonCodeService.cs:201-223 | each listed byte changes by its magnitude, and every other byte is unchanged |
| Decoding.CorrectErrors | ReedSolomonCode/Services/ReedSolomonCodeService.cs:213-216 | correction can only fail with DivisionByZero or IndexOutOfRange |
| Decoding.Decode | ReedSolomonCode/Services/ReedSolomonCodeService.cs:60-88 | a decoded message is at most the received length minus k |
| Decoding.DecodeOutcomes | ReedSolomonCode/Services/ReedSolomonCodeService.cs:60-88 | InvalidInput if and only if the word is no longer than k; the only other errors are DivisionByZero and IndexOutOfRange; zero syndromes give the bytes after k; a corrected word gives its trimmed length minus k |
| Decoding.DecodeCorrects | ReedSolomonCode/Services/ReedSolomonCodeService.cs:68-87 | one step of the definition: with nonzero syndromes, decoding is the correction of the trimmed word at the located positions followed by extraction |
| Decoding.DecodeEncode | ReedSolomonCode.Tests/ReedSolomonTests.cs:37-48 | every nonempty message survives encoding and decoding intact |
| Decoding.DecodeEncodeAsWritten | ReedSolomonCode/Services/ReedSolomonCodeService.cs:36-88 | with the encoder as written, a message that is not all zeros decodes to itself without its trailing zeros |
| Decoding.TrailingZeroLost | ReedSolomonCode/Services/ReedSolomonCodeService.cs:44 | the message [1, 0] encoded as written decodes to [1] |
| Decoding.ZeroMessageRejected | ReedSolomonCode/Services/Polynomial.cs:76 | the message [0] makes the encoder as written fail with NegativeArraySize, while the corrected encoder round-trips it |
| Decoding.DecodeUntrimmed | ReedSolomonCode/Services/ReedSolomonCodeService.cs:60-88 | the decoder without the trim returns exactly the received length minus k |
| Decoding.DecodeUntrimmedAgrees | ReedSolomonCode/Services/ReedSolomonCodeService.cs:68 | when the last byte is nonzero, the two decoders agree |
| Decoding.DecodeUntrimmedEncode | ReedSolomonCode.Tests/ReedSolomonTests.cs:37-48 | the untrimmed decoder also round-trips every nonempty message |
| SingleError.PowerOfExp | ReedSolomonCode/Services/ReedSolomonCodeService.cs:96 | (alpha^j)^n == alpha^(j n) |
| SingleError.Corrupt | ReedSolomonCode.Tests/ReedSolomonTests.cs:57 | corrupting byte p adds v there and leaves every other byte |
| SingleError.CorruptTwice | ReedSolomonCode/Services/ReedSolomonCodeService.cs:222 | adding the same error twice restores the word |
| SingleError.ErrorSyndromes | ReedSolomonCode/Services/ReedSolomonCodeService.cs:91-99 | the syndromes of v x^p are v alpha^(p (i+1)) |
| SingleError.CorruptPolynomial | ReedSolomonCode/Services/ReedSolomonCodeService.cs:68 | a corrupted word is, as a polynomial, the word plus v x^p |
| SingleError.CorruptSyndromes | ReedSolomonCode/Services/ReedSolomonCodeService.cs:68-71 | a codeword with one corrupted byte has the syndromes of the error alone, trimmed or not |
| SingleError.SingleLocator | ReedSolomonCode/Services/ReedSolomonCodeService.cs:112-149 | for the syndromes of one error at p and k >= 2, the locator is 1 + alpha^p x |
| SingleError.LocatorRoot | ReedSolomonCode/Services/ReedSolomonCodeService.cs:159-166 | 1 + alpha^p x vanishes at alpha^e exactly for the exponent of position p |
| SingleError.LocatorRoots | ReedSolomonCode/Services/ReedSolomonCodeService.cs:159-166 | the root search on 1 + alpha^p x finds that exponent and nothing else |
| SingleError.SingleRoot | ReedSolomonCode/Services/ReedSolomonCodeService.cs:169-177 | that single root maps back to position p |
| SingleError.SingleEvaluator | ReedSolomonCode/Services/ReedSolomonCodeService.cs:189-192 | the evaluator of a single error is the constant v alpha^p |
| SingleError.SingleDerivative | ReedSolomonCode/Services/ReedSolomonCodeService.cs:195 | the derivative of 1 + x_p x is the constant x_p |
| SingleError.SingleMagnitude | ReedSolomonCode/Services/ReedSolomonCodeService.cs:204-216 | Forney's quotient gives back v; the position can be corrected exactly when it is inside the word, and otherwise fails with IndexOutOfRange |
| SingleError.SingleStages | ReedSolomonCode/Services/ReedSolomonCodeService.cs:80-84 | locator, positions, evaluator and derivative for a single error at p |
| SingleError.SingleCorrection | ReedSolomonCode/Services/ReedSolomonCodeService.cs:183-226 | the correction adds v at p when p is inside the word, and otherwise fails with IndexOutOfRange |
| SingleError.DecodeCorrupt | ReedSolomonCode/Services/ReedSolomonCodeService.cs:60-88 | the decoder as written corrects one error when the position survives the trim, and otherwise fails with IndexOutOfRange |
| SingleError.DecodeUntrimmedCorrupt | ReedSolomonCode/Services/ReedSolomonCodeService.cs:60-88 | the untrimmed decoder corrects any one nonzero error in a codeword |
| SingleError.SingleErrorCorrected | ReedSolomonCode.Tests/ReedSolomonTests.cs:50-63 | for k >= 2 and codewords of at most 255 bytes, any single corrupted byte is corrected, as long as the last byte of the received word is nonzero |
| SingleError.UntrimmedCorrectsSingleError | ReedSolomonCode/Services/ReedSolomonCodeService.cs:60-88 | the untrimmed decoder corrects any single corrupted byte, with no condition on the last byte |
| SingleError.DifferingIsCorrupt | ReedSolomonCode/Services/ReedSolomonCodeService.cs:222 | a word that differs from c only at p is c with the error c[p] + r[p] added at p |
| SingleError.DecodeDifferingBeyond | ReedSolomonCode/Services/ReedSolomonCodeService.cs:68 | a single error at a position the trim removes makes the decoder as written fail with IndexOutOfRange |
| SingleError.DecodeUntrimmedDiffering | ReedSolomonCode/Services/ReedSolomonCodeService.cs:60-88 | a word that differs from a codeword in one byte is decoded by the untrimmed decoder |
| SingleError.ZeroedLast | ReedSolomonCode/Services/ReedSolomonCodeService.cs:68 | zeroing the nonzero last byte of a codeword makes the decoder as written fail, while the untrimmed decoder recovers |
| SingleError.ZeroedLastByteFails | ReedSolomonCode/Services/ReedSolomonCodeService.cs:216 | for an encoded message whose last byte is nonzero, receiving that byte as 0 gives IndexOutOfRange; the untrimmed decoder returns the message |
| SingleError.DecodeWithErrorsVector | ReedSolomonCode.Tests/ReedSolomonTests.cs:50-63 | the "DON'T PANIC" codeword with four parity bytes and last byte 0x42 instead of 0x43 decodes to the message |
| PolynomialVectors.AddVector | ReedSolomonCode.Tests/PolynomialTests.cs:13-21 | (0x03, 0x08, 0x0b, 0x07) + (0x13, 0x00, 0x06, 0x00), both trimmed by the constructor, is (0x10, 0x08, 0x0d, 0x07) |
| PolynomialVectors.MultiplyVector | ReedSolomonCode.Tests/PolynomialTests.cs:24-32 | (0x08, 0x09, 0x02) * (0x06, 0x0b) is (0x30, 0x6e, 0x5f, 0x16) |
| PolynomialVectors.DivideVector | ReedSolomonCode.Tests/PolynomialTests.cs:35-44 | dividing (0x43, 0x56, 0x88, 0x44) by (0x06, 0x0b, 0x07) gives quotient (0xe8, 0x73) and remainder (0x09, 0x57) |
| PolynomialVectors.EvaluateVector | ReedSolomonCode.Tests/PolynomialTests.cs:47-54 | 0x01 + 0x57 x at x = 2 is 0xAF |
| PolynomialVectors.DerivativeVector | ReedSolomonCode.Tests/PolynomialTests.cs:57-64 | the derivative of (1, 45, 165, 198, 140, 223) is (45, 0, 198, 0, 223): the even-degree terms vanish |
| PolynomialVectors.EvaluateConstantVector | ReedSolomonCode.Tests/PolynomialTests.cs:67-72 | the test's polynomial (7, 12, 3) at x = 4 evaluates to 7, as the test asserts |
| PolynomialVectors.GeneratorTestVector | ReedSolomonCode.Tests/ReedSolomonTests.cs:12-22 | (x + 2)(x + 4)(x + 8)(x + 0x10) times x^4 is (0, 0, 0, 0, 116, 231, 216, 30, 1) |
| PolynomialVectors.GeneratorVector | ReedSolomonCode/Services/ReedSolomonCodeService.cs:22-33 | the generator for four parity symbols is 116 + 231 x + 216 x^2 + 30 x^3 + x^4 |
| CodecVectors.ShiftedDivisionVector | ReedSolomonCode/Services/ReedSolomonCodeService.cs:52 | dividing the shifted "DON'T PANIC" message by that generator leaves the remainder (0xdb, 0x22, 0x58, 0x5c) |
| CodecVectors.EncodeVector | ReedSolomonCode.Tests/ReedSolomonTests.cs:25-35 | both the corrected encoder and the encoder as written turn "DON'T PANIC" with four parity bytes into 0xdb 0x22 0x58 0x5c followed by the message |
| CodecVectors.DecodeVector | ReedSolomonCode.Tests/ReedSolomonTests.cs:37-48 | the decoder as written turns that codeword back into the message |
| CodecVectors.DecodeWithErrorsLiteralVector | ReedSolomonCode.Tests/ReedSolomonTests.cs:50-63 | the literal received word of the test, with its last byte 0x42, decodes to the message |

## Left out

- The console program and the WPF window are not part of this model. They only read and print text.
- `ToString`, `GetHashCode` and `Equals(object)` are not modelled. They format, hash or dispatch to `Equals(Polynomial)`, which is modelled.
- Null arguments are not modelled, except `Equals(null)`: Dafny sequences and non-null references cannot be null. The `message == null` and `received == null` checks therefore have no counterpart.
- Exceptions are modelled as `Result` errors. The `OverflowException` of `new byte[n]` with n < 0 is `NegativeArraySize`.
- A negative index to the `Polynomial` indexer is not modelled. `Get` and `Set` take a `nat`.
- PolynomialObjects.Polynomial.Set: requires the index to be inside the array, where the source throws `IndexOutOfRangeException`. The one write the codec can make out of range goes to the magnitude array (`ReedSolomonCodeService.cs:216`), and that write is modelled with its error.
- CodecService.ReedSolomonCodeService.constructor: requires k >= 1. `Create` models the `ArgumentException` for k < 1.
- CodecService.ReedSolomonCodeService.CorrectErrors: requires positions in 0 .. 254. The only caller passes the output of `FindErrorPositions`, which always lies in that range.
- CodecService.ReedSolomonCodeService.FindErrorLocator: requires the k syndromes that `ComputeSyndromes` returns, the only input the service gives it.
- The `GaloisField` helper class is not part of this model. Its operations are defined from the standard field described above.
- Decoding.Decode: the ⌊k/2⌋ error-correction capacity of the code is not proved. The model proves (`SingleError`) that the decoder as written corrects any single corrupted byte for k >= 2 and codewords of at most 255 bytes, provided the received word's last byte is nonzero, and that the untrimmed decoder (`DecodeUntrimmed`) corrects it with no condition on the last byte. It states every decoder outcome and error case for arbitrary input.
- The two-error test vectors (`ReedSolomonTests.cs:65-79` and `ReedSolomonTests.cs:82-97`) are not stated as lemmas. Each is a finite computation, but proving one as literal facts takes the syndromes, four locator rounds, the root search over 255 exponents and two magnitude divisions. Written in the style of the one-error vector, that is far more proof work than the other vector lemmas, and it is left out for verification cost.
- `byte[]` results and `List<int>` are modelled as `seq`. Arrays are kept wherever the source writes them in place: the coefficient array, the quotient, the syndromes and the magnitudes.
- `syndromeShift` is the constant 0 in the source, so it is left out.
- The nested loops are split into helper methods, one loop each.
- Codewords longer than 255 bytes are not modelled by the single-error lemmas. Positions repeat modulo 255 there, so the code cannot locate errors in them.

## Findings

| source | as written | input that shows it | evidently intended | confidence | as-written member | corrected member |
|---|---|---|---|---|---|---|
| ReedSolomonCode/Services/ReedSolomonCodeService.cs:44 | The message is stored in a `Polynomial`, whose constructor drops trailing zero bytes, so the codeword is shorter and decodes without them | message [1, 0] with any k | the codeword is k parity bytes followed by the whole message, and decoding gives the message back | not executed | Decoding.TrailingZeroLost | Encoding.Encode |
| ReedSolomonCode/Services/Polynomial.cs:76 | A message of zero bytes trims to the zero polynomial, so `Divide` allocates a quotient of length -k and throws | message [0] with k >= 1 | encode the all-zero message as the all-zero codeword | not executed | Decoding.ZeroMessageRejected | Encoding.Encode |
| ReedSolomonCode/Services/ReedSolomonCodeService.cs:68 | `Decode` trims the received word before correcting it. An error that turns the nonzero last byte into 0 then lies outside the trimmed array, and the magnitude write at line 216 throws | the encoding of message [1] with k = 2, with its last byte received as 0 | correct the error in the full-length received word | not executed | SingleError.ZeroedLastByteFails | Decoding.DecodeUntrimmed |
