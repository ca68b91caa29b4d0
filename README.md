# Round-3 CRYSTALS-Kyber in Dafny

A Dafny model of a Python reference implementation of round-3 CRYSTALS-Kyber, with proofs
about it. The model covers six layers:

- **NTT engine** (`ntt_helper.py` → `NttHelper`, `ntt_helper.dfy`):
  - Montgomery-style and Barrett reduction modulo q = 3329;
  - bit reversal and the 128-entry zeta table;
  - the in-place seven-layer forward and inverse NTT over 256 coefficients;
  - base multiplication in NTT form.
- **Polynomial ring** R_q = Z_q[X]/(X^n + 1) (`polynomials.py` → `Polynomials`,
  `polynomials.dfy`, with the ring laws behind `__pow__` in `PolynomialAlgebra`,
  `polynomial_algebra.dfy`):
  - rejection-sampling `parse`, centred-binomial `cbd`;
  - l-bit `decode`/`encode`, `compress`/`decompress`;
  - tag-checked arithmetic, negacyclic schoolbook multiplication and square-and-multiply powers.
- **Module layer** (`modules.py` → `Modules`, `modules.dfy`): matrices of polynomials with
  transposition, addition, subtraction, matrix products, row-major encoding, chunked decoding
  and element-wise conversions.
- **KEM** (`kyber.py` → `Kyber`, `kyber.dfy`): the three parameter sets, the noise and matrix
  generators with their PRF/XOF counters, CPAPKE key generation, encryption and decryption,
  and the CCA KEM with implicit rejection.
- **Keccak** (`CompactFIPS202.py` → `CompactFips202`, `fips202.dfy`, with lane bit operations
  in `Bits`, `bits.dfy`): the Keccak-f[1600] permutation, the absorb/pad/squeeze sponge loop
  and the SHA3/SHAKE wrappers.
- **Integer NTT library** (`ntt_nayuki.py` → `NttNayuki`, `ntt_nayuki.dfy`, with the proof
  that the radix-2 algorithm computes the transform in `Radix2Dft`, `radix2_dft.dfy`):
  `sqrt`, `is_prime`, `unique_prime_factors`, the modulus and primitive-root searches, the
  quadratic `transform` and the in-place `transform_radix_2`.

`Common` (`common.dfy`) holds the shared vocabulary: the error cases the Python code raises
as a `Result`, little-endian bit lists, `round_up`, and small arithmetic lemmas.

Code that updates state in place is modelled as methods over arrays or classes:
- the NTT layers, `to_montgomery` and the conversions of `Polynomial` and `Matrix` objects;
- the loops of `parse`, `decode`, schoolbook multiplication and `__pow__`;
- the Keccak round steps, the sponge loops, `transform_radix_2` and the number-theory loops.

Each such method is proved equal to a function of its inputs, and the properties are proved
about those functions. Expression-only code is modelled as functions. Failures the Python
code raises are `Err` values with the error named.

## Model

| member | source | states |
|---|---|---|
| NttHelper.ConstantsMeaning | ntt_helper.py:13-31 | the parameter constants mean what their comments say: mont_r = 2^16 mod q, mont_r2 = 2^32 mod q, mont_r_inv * 2^16 = 1 mod q, q * q_inv = -1 mod 2^16, and f * 128 = 2^32 mod q |
| NttHelper.BrInvolution | ntt_helper.py:48-55 | br(i, k) is below 2^k, and reversing twice gives back the low k bits of i |
| NttHelper.BrOfBitsReversed | ntt_helper.py:48-55 | br of the number whose k bits are given is the number with those bits in reverse order |
| NttHelper.MontgomeryReduce | ntt_helper.py:59-70 | the result is a residue in [0, q) with r * 2^16 = a mod q |
| NttHelper.ReduceModQ | ntt_helper.py:79-83 | the result is in [0, q) and differs from a by a multiple of q |
| NttHelper.BarrettReduceRange | ntt_helper.py:87-98 | barrett_reduce(a) is congruent to a mod q, and lies in the centred range [-(q-1)/2, (q-1)/2] whenever abs(a) <= 78230 |
| NttHelper.BarrettReduceBoundTight | ntt_helper.py:87-98 | the centred range is lost just past that bound: a = 78231 gives -1665 and a = -78231 gives 1665 |
| NttHelper.NttMul | ntt_helper.py:101-109 | the result is in [0, q) and r * 2^16 = a * b mod q (Ra * Rb -> Rab) |
| NttHelper.MontgomeryReduceCongruent | ntt_helper.py:59-70 | congruent inputs reduce to the same residue |
| NttHelper.MontgomeryReduceAdditive | ntt_helper.py:59-70 | reduction of a sum is the sum of the reductions, mod q |
| NttHelper.NttMulCongruent | ntt_helper.py:101-109 | ntt_mul(z, x) depends only on x mod q |
| NttHelper.NttMulAdditive | ntt_helper.py:101-109 | ntt_mul(z, x + y) is the sum of ntt_mul(z, x) and ntt_mul(z, y), mod q |
| NttHelper.ToMontgomeryCoefficient | ntt_helper.py:73-74 | multiplying by mont_r2 under Montgomery reduction puts c into Montgomery form c * 2^16 mod q |
| NttHelper.ToMontgomery | ntt_helper.py:73-76 | to_montgomery keeps the length and maps every coefficient c to c * 2^16 mod q |
| NttHelper.ToMontgomeryOf | ntt_helper.py:74 | one coefficient of to_montgomery is c * 2^16 mod q |
| NttHelper.BaseMulMeaning | ntt_helper.py:112-119 | both outputs are below 2q; r0 * R^2 = a1 b1 zeta + a0 b0 R and r1 * R = a0 b1 + a1 b0, mod q, i.e. (a0 + a1 X)(b0 + b1 X) mod X^2 - zeta with Montgomery factors |
| NttHelper.ProductPrefixAt | ntt_helper.py:123-133 | after count rounds, positions 4i..4i+3 of the list hold the four values of round i |
| NttHelper.NttCoefficientMultiplication | ntt_helper.py:122-135 | the loop builds exactly the 64 blocks of four base products |
| NttHelper.NttCoefficientProductMeaning | ntt_helper.py:122-135 | block i multiplies pairs 4i, 4i+1 with zetas[64+i] and pairs 4i+2, 4i+3 with -zetas[64+i], with the ranges and congruences of the base multiplication |
| NttHelper.FwdBlockInPlace | ntt_helper.py:162-166 | the j loop performs the Cooley-Tukey butterflies of one block in place, as FwdBlock states |
| NttHelper.LayerGeometry | ntt_helper.py:150-168 | for each layer length 128, 64, ..., 2, its first zeta index is positive, the zetas it uses fit in the table, and its blocks exactly cover the 256 coefficients |
| NttHelper.HalvedLayer | ntt_helper.py:161-168 | the zeta index at the start of the next layer (l >> 1) is twice the one at the start of this layer |
| NttHelper.FwdLayerInPlace | ntt_helper.py:154-167 | the start loop runs the blocks of one layer in place and advances k by the number of blocks |
| NttHelper.NttForwardInPlace | ntt_helper.py:150-168 | the layer loop transforms the array in place into NttForward of its old contents |
| NttHelper.ToNtt | ntt_helper.py:138-173 | a polynomial already in NTT form is refused and left alone; otherwise the coefficients become NttForward of the old ones |
| NttHelper.NttForwardCongruent | ntt_helper.py:150-168 | the forward transform of congruent inputs gives congruent outputs |
| NttHelper.NttForwardAdditive | ntt_helper.py:150-168 | the forward transform is additive modulo q |
| NttHelper.InvBlockInPlace | ntt_helper.py:202-206 | the j loop performs the Gentleman-Sande butterflies of one block in place, as InvBlock states |
| NttHelper.InvLayerGeometry | ntt_helper.py:194-208 | for each layer length 2, 4, ..., 128 the zeta index counts down from an odd index below 128, the blocks cover the 256 coefficients, and the next layer starts where this one stopped |
| NttHelper.InvLayerInPlace | ntt_helper.py:198-207 | the start loop runs the blocks of one layer in place and moves k down by the number of blocks |
| NttHelper.ScaleInPlace | ntt_helper.py:210-211 | the final loop multiplies every coefficient by f under Montgomery reduction |
| NttHelper.ScaleByF | ntt_helper.py:210-211 | the scaled coefficients are residues in [0, q) |
| NttHelper.NttInverse | ntt_helper.py:194-211 | the inverse transform leaves 256 residues in [0, q) |
| NttHelper.NttInverseInPlace | ntt_helper.py:194-211 | the layer loops and the scaling transform the array in place into NttInverse of its old contents |
| NttHelper.FromNtt | ntt_helper.py:176-215 | a polynomial not in NTT form is refused and left alone; otherwise the coefficients become NttInverse of the old ones |
| NttHelper.NttInverseCongruent | ntt_helper.py:194-211 | congruent inputs give the same inverse transform |
| NttHelper.NttInverseAdditive | ntt_helper.py:194-211 | the inverse transform of a sum is the sum of the inverse transforms, reduced mod q |
| NttHelper.ScaleLinear | ntt_helper.py:210-211 | the final scaling by f is additive modulo q |
| Polynomials.ParseCoefficients | polynomials.py:130-142 | more than n coefficients is an error; otherwise the list is kept and right-padded with zeros to exactly n |
| Polynomials.ConstantPoly | polynomials.py:97-99 | R(c) is the polynomial with constant term c and all other coefficients zero |
| Polynomials.MakePolyShape | polynomials.py:116-127 | padding with zeros changes neither is_zero nor is_constant |
| Polynomials.BelowAppend | polynomials.py:39-51 | keeping the candidates below q distributes over concatenation |
| Polynomials.ParseFromMeaning | polynomials.py:37-53 | parsing succeeds exactly when the bytes hold at least n candidates below q, and then returns the first n of them in order |
| Polynomials.Parse | polynomials.py:30-53 | the loop computes ParseSpec: the same coefficients, or an error where the loop would index past the input |
| Polynomials.ParseStep | polynomials.py:40-51 | one round of the loop (three bytes, candidates d1 and d2) keeps the loop invariant |
| Polynomials.KeepCandidates | polynomials.py:43-49 | d1 is stored when below q, d2 when below q and a slot is left, and j advances by the number stored |
| Polynomials.ParseMeaning | polynomials.py:30-53 | parse(B) is a polynomial of n canonical residues, the first n 12-bit candidates of B below q, tagged as asked |
| Polynomials.CbdCoefficient | polynomials.py:69-71 | a - b lies in [-eta, eta] |
| Polynomials.CbdCoefficients | polynomials.py:68-71 | the list has one entry per coefficient, each in [-eta, eta] |
| Polynomials.Cbd | polynomials.py:57-73 | the loop computes CbdSpec: the length assertion, then the coefficients |
| Polynomials.CbdMeaning | polynomials.py:57-73 | cbd succeeds exactly when the input has (n >> 2) * eta bytes, and then every coefficient lies in [-eta, eta] |
| Polynomials.DecodeWidth | polynomials.py:83-89 | the width l is inferred from the length when absent; the call fails exactly when n * l differs from 8 * len |
| Polynomials.DecodeCoeffs | polynomials.py:92-93 | each decoded coefficient is below 2^l |
| Polynomials.DecodeCoeffsAt | polynomials.py:92-93 | coefficient i is the little-endian value of bits i*l .. i*l+l-1 |
| Polynomials.Decode | polynomials.py:77-95 | the loop computes DecodeSpec |
| Polynomials.DecodeMeaning | polynomials.py:77-95 | decode fails exactly on the two length checks; otherwise it gives n coefficients that fit in the width |
| Polynomials.BitLengthBound | polynomials.py:159 | int.bit_length(c) is at most l exactly when c < 2^l |
| Polynomials.EncodeBitsExact | polynomials.py:161 | the bit string of coefficients that fit in l bits has n * l bits and decodes back to them |
| Polynomials.DecodeEncodeBits | polynomials.py:92-93 | re-encoding decoded coefficients gives back the bit string |
| Polynomials.EncodeDecodeRoundTrip | polynomials.py:154-163 | decode(encode(p, l), l) == p for every polynomial whose coefficients fit in l bits, and the encoding has n*l/8 bytes |
| Polynomials.DecodeEncodeRoundTrip | polynomials.py:154-163 | encode(decode(B, l), l) == B whenever the decode succeeds |
| Polynomials.ReduceCoefficients | polynomials.py:145-151 | every coefficient becomes the canonical residue of the old one; tag and length kept |
| Polynomials.ReduceFixesReduced | polynomials.py:145-151 | reducing an already reduced polynomial changes nothing |
| Polynomials.ReduceIdempotent | polynomials.py:145-151 | reducing twice is reducing once |
| Polynomials.CompressCoefficient | polynomials.py:171-173 | a compressed coefficient is below 2^d |
| Polynomials.DecompressCoefficient | polynomials.py:185-186 | decompressing a d-bit value gives a value in [0, q] |
| Polynomials.Compress | polynomials.py:166-175 | compress keeps length and tag and every coefficient fits in d bits |
| Polynomials.Decompress | polynomials.py:178-188 | decompress keeps length and tag, and maps d-bit coefficients into [0, q] |
| Polynomials.CompressDecompressError | polynomials.py:166-188 | decompress(compress(x)) is within about q / 2^(d+1) of x, modulo q |
| Polynomials.DecompressCompressRoundTrip | polynomials.py:166-188 | when 2^d < q, compress(decompress(y)) == y |
| Polynomials.PolyCompressDecompressError | polynomials.py:166-188 | every coefficient of a reduced polynomial comes back close after compress then decompress |
| Polynomials.PolyDecompressCompressRoundTrip | polynomials.py:166-188 | compress undoes decompress on polynomials whose coefficients fit in d bits |
| Polynomials.AddModQMeaning | polynomials.py:191-199 | on residues, add_mod_q is (x + y) mod q |
| Polynomials.SubModQMeaning | polynomials.py:202-210 | on residues, sub_mod_q is (x - y) mod q |
| Polynomials.Add | polynomials.py:292-303 | adding fails exactly when the NTT tags differ; the sum has n coefficients and the tag of self |
| Polynomials.Sub | polynomials.py:316-327 | subtracting fails exactly when the NTT tags differ; the difference has n coefficients and the tag of self |
| Polynomials.AddInt | polynomials.py:297-299 | adding an int changes only the constant coefficient |
| Polynomials.SubInt | polynomials.py:321-323 | subtracting an int changes only the constant coefficient |
| Polynomials.Neg | polynomials.py:283-289 | every coefficient of -f is the residue that cancels f's coefficient |
| Polynomials.AddSubMeaning | polynomials.py:292-327 | on reduced polynomials with the same tag, sum and difference are coefficient-wise mod q |
| Polynomials.AddCommutes | polynomials.py:292-303 | f + g == g + f, errors included |
| Polynomials.SubThenAdd | polynomials.py:292-327 | (f - g) + g == f on reduced polynomials |
| Polynomials.AddNegIsZero | polynomials.py:283-303 | f + (-f) is zero |
| Polynomials.AddIntIsAddConstant | polynomials.py:292-327 | adding or subtracting an int is adding or subtracting the constant polynomial |
| Polynomials.NegacyclicProduct | polynomials.py:214-232 | the product has n residues in [0, q) |
| Polynomials.SchoolbookMultiplication | polynomials.py:214-232 | the two double loops compute the negacyclic product: the sum of a[i] b[j] over i+j = k minus the sum over i+j = k+n, mod q |
| Polynomials.AccumulateRow | polynomials.py:225-226 | one pass of the first inner loop adds the products of row i to every position |
| Polynomials.SubtractColumn | polynomials.py:229-230 | one pass of the second inner loop subtracts the wrapped products of column j |
| Polynomials.ProductByConstant | polynomials.py:214-232 | multiplying by a constant polynomial c scales every coefficient by c mod q |
| Polynomials.ConstantTimesProduct | polynomials.py:214-232 | a constant polynomial c times f scales f by c mod q |
| Polynomials.ProductByX | polynomials.py:214-232 | multiplying by X shifts the coefficients up and wraps the top one to the constant term negated (X^n = -1) |
| Polynomials.NttMultiplication | polynomials.py:266-280 | NTT multiplication needs a helper and two NTT-form operands, and gives an NTT-form polynomial |
| Polynomials.MulInt | polynomials.py:348-349 | scaling by an int multiplies every coefficient by it, mod q |
| Polynomials.MulIntCompose | polynomials.py:348-349 | scaling by a then b is scaling by a * b |
| Polynomials.Product | polynomials.py:340-353 | mixed tags fail; two NTT operands use NTT multiplication; two plain operands give a reduced schoolbook product |
| Polynomials.Mul | polynomials.py:340-353 | the dispatch computes Product |
| Polynomials.MulIntIsProductByConstant | polynomials.py:340-353 | f * c is f times the constant polynomial c |
| Polynomials.OneTimesProduct | polynomials.py:340-353 | 1 * f is f reduced |
| Polynomials.Power | polynomials.py:365-381 | negative exponents fail; f^0 is the constant 1 with the tag of f |
| Polynomials.Pow | polynomials.py:365-381 | the square-and-multiply loop computes Power |
| Polynomials.PowerOne | polynomials.py:365-381 | f^1 is f reduced |
| Polynomials.PowerTwo | polynomials.py:365-381 | f^2 is f * f |
| Polynomials.PowerNeedsHelper | polynomials.py:365-381 | a positive power of an NTT-form polynomial fails in a ring without helper |
| Polynomials.EqualsIntMeaning | polynomials.py:384-391 | f == c exactly when f is the constant polynomial c mod q |
| Polynomials.RSubInt | polynomials.py:330-331 | as written: c - f computes f - c, only the constant coefficient changes |
| Polynomials.RSubIntNotReversed | polynomials.py:330-331 | the counterexample: 0 - 1 gives 1 instead of q - 1 |
| Polynomials.ReversedSubInt | polynomials.py:330-331 | corrected: c - f has constant term (c - f0) mod q and -fi mod q elsewhere |
| Polynomials.ReversedSubIntMeaning | polynomials.py:330-331 | corrected: (c - f) + f == c |
| Polynomials.PolyToNtt | polynomials.py:240-244 | to_ntt fails without a helper or on NTT form; otherwise the result is in NTT form |
| Polynomials.PolyFromNtt | polynomials.py:247-251 | from_ntt fails without a helper or on plain form; otherwise the result is plain and reduced |
| Polynomials.PolyToMontgomery | polynomials.py:254-263 | to_montgomery fails without a helper; otherwise every coefficient becomes c * 2^16 mod q |
| Polynomials.FromNttOfSum | polynomials.py:247-251 | from_ntt(f + g) == from_ntt(f) + from_ntt(g) |
| Polynomials.ToNttOfSum | polynomials.py:240-244 | to_ntt(f + g) is congruent to to_ntt(f) + to_ntt(g) |
| Polynomials.ApplyToNtt | polynomials.py:240-244 | the in-place forward transform on a fresh copy matches PolyToNtt |
| Polynomials.ApplyFromNtt | polynomials.py:247-251 | the in-place inverse transform on a fresh copy matches PolyFromNtt |
| Polynomials.Polynomial.ReduceInPlace | polynomials.py:145-151 | the object's coefficients become their residues |
| Polynomials.Polynomial.CompressInPlace | polynomials.py:166-175 | the object's coefficients are compressed |
| Polynomials.Polynomial.DecompressInPlace | polynomials.py:178-188 | the object's coefficients are decompressed |
| Polynomials.Polynomial.ToMontgomeryInPlace | polynomials.py:254-263 | the object is updated to PolyToMontgomery, or left alone on error |
| Polynomials.Polynomial.ToNttInPlace | polynomials.py:240-244 | the object is updated to PolyToNtt, or left alone on error |
| Polynomials.Polynomial.FromNttInPlace | polynomials.py:247-251 | the object is updated to PolyFromNtt, or left alone on error |
| Modules.BuildMeaning | modules.py:34-59 | Module(...) accepts a non-empty rectangular list of rows, or a non-empty flat list as one row, and reports a ragged or empty list otherwise |
| Modules.BuildRows | modules.py:53-59 | rebuilding a matrix from its own rows gives it back |
| Modules.TransposedTwice | modules.py:70-80 | entry (j, i) of zip(*rows) is entry (i, j), and transposing twice gives the rows back |
| Modules.TransposeMeaning | modules.py:70-73 | transpose fails exactly on a matrix without entries; otherwise it is an n x m matrix over the same ring with swapped entries, and transposing it again gives the matrix back |
| Modules.Matrix.TransposeSelf | modules.py:76-80 | transpose_self swaps m and n and replaces the rows by their transposition |
| Modules.MatEqMeaning | modules.py:143-144 | two matrices are equal exactly when they have the same shape and every entry has the same coefficients and tag |
| Modules.MatCombineOk | modules.py:148-192 | + and - succeed exactly when rings and dimensions agree, there is a row, and paired entries have the same NTT tag; each failure is reported with the error modules.py raises first |
| Modules.MatCombineMeaning | modules.py:148-192 | a successful + or - is a matrix of the same shape whose entry (i, j) is the polynomial sum or difference of the entries (i, j) |
| Modules.MatAddCommutes | modules.py:148-162 | A + B == B + A, failures included |
| Modules.MatSubThenAdd | modules.py:148-192 | (A - B) + B == A for reduced matrices of the same shape |
| Modules.SumMeaning | modules.py:219 | sum() over the products succeeds exactly when they all succeed with one tag; coefficient i of the result is the sum of the coefficient i of the terms, mod q |
| Modules.DotMeaning | modules.py:219 | one entry of A @ B is the sum of the products of a row and a column: it succeeds exactly when every product can be taken and added, and its coefficients are the column sums mod q |
| Modules.MatMulOk | modules.py:206-221 | A @ B succeeds exactly when the rings agree, the inner dimensions agree, B has entries, and every entry can be computed; otherwise the first failing check is reported |
| Modules.MatMulMeaning | modules.py:206-221 | a successful A @ B is an m x p matrix whose entry (i, j) is the dot product of row i of A and column j of B |
| Modules.MatMulEntry | modules.py:206-221 | coefficient t of entry (i, j) of A @ B is the sum over k of coefficient t of A[i][k] * B[k][j], mod q |
| Modules.SequencedMeaning | modules.py:83-136 | an element-wise pass over a list succeeds exactly when every element does, and then holds each element's result |
| Modules.ConvertedRowMeaning | modules.py:84-86 | converting a row succeeds exactly when every entry converts, and then holds the converted entries |
| Modules.ConvertedRowsMeaning | modules.py:83-136 | converting all rows succeeds exactly when every entry converts, and then entry (i, j) is the converted entry (i, j) |
| Modules.Converted | modules.py:83-136 | reduce_coefficents, to_montgomery, compress, decompress, to_ntt and from_ntt on a matrix succeed exactly when every entry does, keep the shape, and convert every entry |
| Modules.ConvertRow | modules.py:84-86 | the inner loop over a row computes ConvertedRow |
| Modules.ConvertAll | modules.py:83-87 | the nested loops over rows compute ConvertedRows |
| Modules.Matrix.Convert | modules.py:83-136 | a conversion updates the rows of the object to ConvertedRows and keeps its dimensions |
| Modules.EncodeRow | modules.py:101-102 | the inner loop concatenates the encodings of a row, or stops at the first entry that cannot be encoded |
| Modules.EncodeRows | modules.py:98-104 | the outer loop concatenates the row encodings, or stops at the first failure |
| Modules.Matrix.Encode | modules.py:98-104 | encode on a matrix object returns MatEncode of its value |
| Modules.MatEncodeOk | modules.py:98-104 | encoding a matrix succeeds exactly when every entry can be encoded, and a failure is the failure of some entry |
| Modules.MatEncodeLength | modules.py:98-104 | when every entry encodes to size bytes, the encoding has m * n * size bytes |
| Modules.MatEncodeParts | modules.py:98-104 | the encoding is the entry encodings concatenated row by row |
| Modules.ModuleWidth | modules.py:7-14 | a given width is kept; an inferred width satisfies n * m * cols * l == 8 * len |
| Modules.ChunkAt | modules.py:16-17 | chunk k of the byte_chunks list is bytes k*c .. k*c+c-1 of the input |
| Modules.DecodeRow | modules.py:20-22 | the inner loop decodes the chunks of row i in order, stopping at the first failure |
| Modules.ModuleDecode | modules.py:6-24 | the loops compute ModuleDecodeSpec |
| Modules.ModuleDecodeOk | modules.py:6-24 | with a width l given, decode succeeds exactly when there is a row and 256 * l * m * n bits fit in the input; too short an input is BadLength |
| Modules.ModuleDecodeShape | modules.py:6-24 | a decoded module element is an m x n matrix over the ring |
| Modules.ModuleDecodeEntry | modules.py:16-22 | entry (i, j) is the ring decode of chunk n*i + j of 32*l bytes |
| Modules.ModuleDecodeTrailing | modules.py:13-22 | bytes after the m*n chunks do not change the result when l is given |
| Modules.ModuleDecodeInferred | modules.py:7-11 | inferring l from the length gives the same result as passing it |
| Modules.MatEncodeDecode | modules.py:6-24 | decode(encode(A, l), m, n, l) == A, and with l inferred as well, for every matrix whose entries fit in l bits |
| Kyber.DefaultParameterSets | kyber.py:15-43 | the three parameter sets have n = 256, q = 3329 and k in 2..4, and each makes a standard instance |
| Kyber.ByteOf | kyber.py:164 | bytes([N]) is one byte holding N, and fails for N >= 256 |
| Kyber.Xof | kyber.py:88-104 | the XOF rejects any input other than 32 + 1 + 1 bytes, and otherwise gives length bytes |
| Kyber.Prf | kyber.py:109-118 | the PRF rejects any input other than 32 + 1 bytes, and otherwise gives length bytes |
| Kyber.H | kyber.py:123-128 | H gives 32 bytes |
| Kyber.G | kyber.py:133-140 | G splits the 64-byte SHA3-512 digest into two 32-byte halves |
| Kyber.Kdf | kyber.py:144-149 | the KDF gives key_length bytes |
| Kyber.SliceMeaning | kyber.py:264 | the model of Python slicing with negative indices picks the right bytes |
| Kyber.NoiseEntries | kyber.py:163-167 | entry i of the error vector is sampled with counter N + i |
| Kyber.GenerateErrorVector | kyber.py:157-178 | the loop computes ErrorVectorSpec |
| Kyber.ErrorVectorMeaning | kyber.py:157-178 | the error vector succeeds exactly when k >= 1, the counters stay below 256 and sigma has 32 bytes; it is then a k x 1 matrix whose entry i is cbd(PRF(sigma, N + i), eta), with coefficients in [-eta, eta], and the counter comes back as N + k |
| Kyber.SeedRowEntries | kyber.py:195-201 | entry j of row i is the sample for (i, j) |
| Kyber.SeedTable | kyber.py:193-202 | row i of the table is the row of samples for i |
| Kyber.GenerateRow | kyber.py:194-202 | the inner loop builds row i, or stops at the first failure |
| Kyber.GenerateMatrix | kyber.py:184-203 | the loops compute MatrixFromSeedSpec |
| Kyber.SeedEntrySwap | kyber.py:196-199 | the transposed flag swaps the two index bytes of the XOF input |
| Kyber.MatrixFromSeedTranspose | kyber.py:184-203 | the matrix built with transpose=True is the transposition of the one built without |
| Kyber.SeedEntryMeaning | kyber.py:199-200 | entry (i, j) is parse(XOF(rho, j, i)), a reduced polynomial with the requested tag |
| Kyber.MatrixFromSeedMeaning | kyber.py:184-203 | a generated matrix is k x k over the ring, and its entries are the parsed XOF outputs, reduced |
| Kyber.TransposedSeedShape | kyber.py:184-203 | the transposed matrix is k x k over the ring |
| Kyber.ReducedEncodable | kyber.py:240-245 | after reduce_coefficents every entry fits in 12 bits and encodes to 384 bytes |
| Kyber.CompressedEncodable | kyber.py:294-296 | after compress(d) every entry fits in d bits and encodes to 32 * d bytes |
| Kyber.PublicVector | kyber.py:237-240 | t = (A @ s).to_montgomery() + e, reduced, is a k x 1 matrix over the ring whose entries encode with l = 12 |
| Kyber.CpapkeKeygen | kyber.py:205-246 | the public key has 384k + 32 bytes and ends with rho, the first half of G(d); the secret key has 384k bytes |
| Kyber.InnerProduct | kyber.py:289 | (tt @ r)[0][0].from_ntt() is a reduced plain polynomial |
| Kyber.NoisyProduct | kyber.py:288 | (At @ r).from_ntt() + e1 has the shape of the product |
| Kyber.CiphertextBytes | kyber.py:294-298 | compressing and encoding u and v always succeeds, with du * 32 bytes per entry of u and dv * 32 bytes for v |
| Kyber.EncryptionNoise | kyber.py:276-285 | r, e1 and e2 are sampled from the 32-byte coins: r and e1 are k x 1 matrices, e2 a plain polynomial |
| Kyber.CpapkeEnc | kyber.py:248-298 | a ciphertext has k * 32 * du + 32 * dv bytes |
| Kyber.CpapkeDec | kyber.py:300-336 | a decrypted message has 32 bytes |
| Kyber.Keygen | kyber.py:338-357 | KEM keygen succeeds exactly when the CPA keygen does; pk has 384k + 32 bytes and sk has 768k + 64 + len(z) bytes |
| Kyber.Enc | kyber.py:359-375 | encapsulation gives a ciphertext of k * 32 * du + 32 * dv bytes and a key of key_length bytes |
| Kyber.Dec | kyber.py:377-407 | decapsulation gives key_length bytes |
| Kyber.SecretKeyLayout | kyber.py:352-357 | sk = sk' + pk + H(pk) + z, and the slices taken by dec pick out exactly these four parts |
| Kyber.DecapsulationRecoversKey | kyber.py:359-407 | when the CPA decryption of the ciphertext gives back H(m), decapsulation with the secret key returns the key encapsulation produced |
| Kyber.DecapsulationRejects | kyber.py:377-407 | when re-encryption does not reproduce the ciphertext, decapsulation returns KDF(z + H(c)), the implicit rejection |
| Kyber.DefaultSizes | kyber.py:15-43 | for the three parameter sets the keys and ciphertexts have the published sizes (800/1632/768, 1184/2400/1088, 1568/3168/1568 bytes) |
| NttHelper.ZetasMeaning | ntt_helper.py:22-30 | every entry of the zetas table is mont_r * 17^br(i, 7) mod q, as the formula beside the table says |
| NttHelper.BrIsReverseBits | ntt_helper.py:48-55 | br, computed through a binary string, reversed and re-parsed, is the reversal of the low k bits of i |
| NttHelper.NttRoundTrip | ntt_helper.py:176-215 | from_ntt(to_ntt(f)) is f times the Montgomery factor 2^16, mod q, fully reduced, for every coefficient list of length 256 |
| Modules.ModuleWidthInferred | modules.py:7-14 | the inferred width is the one that makes the input exactly m * n entries long, and that width passed explicitly is accepted too |
| Modules.ColumnEncodesAsRow | modules.py:70-104 | a k x 1 column and its transposition, a 1 x k row, encode to the same bytes |
| Modules.ColumnDecodesAsRow | modules.py:6-24 | the encoding of a k x 1 column decodes, as a 1 x k module element, to the transposition of the column |
| Kyber.ErrorVectorOk | kyber.py:157-178 | _generate_error_vector succeeds exactly when k >= 1, every counter N .. N + k - 1 fits in a byte and sigma has 32 bytes, and then returns N + k |
| Kyber.NoiseVector | kyber.py:157-178 | the error vector is a k x 1 matrix over the ring whose entry i is the plain-form CBD sample for counter N + i |
| Kyber.NttNoiseVector | kyber.py:157-178 | taking the error vector to NTT form always succeeds and gives the NTT form of the sample for counter N + i at entry i |
| Kyber.NttOfNoise | kyber.py:229-234 | to_ntt on a column of noise samples gives the column of their NTT forms |
| Kyber.KeygenNoise | kyber.py:228-234 | sampling s and e succeeds exactly when sigma has 32 bytes and the 2k counters fit in a byte; both are k x 1 matrices over the ring |
| Kyber.KeygenNoiseCounters | kyber.py:228-234 | entry i of s is the eta1 sample for counter i and entry i of e the eta1 sample for counter k + i, both in NTT form |
| Kyber.KeygenNoiseNtt | kyber.py:229-234 | every entry of s and of e is tagged as NTT form |
| Kyber.PublicVectorNtt | kyber.py:237 | with e in NTT form, every entry of (A @ s).to_montgomery() + e is in NTT form |
| Kyber.KeygenVectors | kyber.py:220-241 | keygen's t and s are k x 1 matrices over the ring, and t encodes with 12 bits per coefficient |
| Kyber.KeygenVectorsMeaning | kyber.py:220-241 | the matrix comes from rho = G(d)[0], the noise from sigma = G(d)[1], and t = A s + e with s the keygen secret |
| Kyber.KeygenVectorsNtt | kyber.py:226-241 | every entry of t and of s is in NTT form |
| Kyber.PublicKeyDecodes | kyber.py:244-267 | decoding the public key as a 1 x k module element with l = 12 gives back entry j of t at position j, ignoring the trailing rho |
| Kyber.SecretKeyDecodes | kyber.py:328 | decoding the secret key as a 1 x k module element with l = 12 gives back entry j of s reduced mod q |
| Kyber.ReducedColumnDecodes | kyber.py:241-245 | a reduced k x 1 NTT-form column encoded with 12 bits decodes as the 1 x k row of its reduced entries |
| Kyber.ColumnWithTrailerDecodes | kyber.py:267 | a k x 1 NTT-form column of 12-bit entries, encoded and followed by more bytes, decodes as the 1 x k row of the same entries |
| Kyber.SwappedRows | kyber.py:193-203 | the tables of the two index orders collect to matrices that are each other's transposition |
| Kyber.BuiltFromTable | kyber.py:203 | Module(A) on the collected k x k table is a k x k matrix whose entry (i, j) is the table's entry (i, j) |
| Kyber.CiphertextLayout | kyber.py:294-325 | the first du k n / 8 bytes of the ciphertext decode to u compressed to du bits, and the rest decodes to v compressed to dv bits |
| Kyber.EncryptionNoiseCounters | kyber.py:274-285 | entry i of r is the eta1 sample for counter i in NTT form, entry i of e1 the eta2 sample for counter k + i, and e2 the eta2 sample for counter 2k |
| Kyber.EncryptionNoiseParts | kyber.py:274-285 | r is the NTT form of the first error vector, e1 the second error vector and e2 the next single sample |
| CompactFips202.Rol64Meaning | CompactFIPS202.py:33-35 | ROL64(a, s) for a 64-bit lane moves the low 64 - s bits up by s places and wraps the top s bits round to the bottom |
| CompactFips202.Rol64Inverse | CompactFIPS202.py:33-35 | rotating by s and then by 64 - s restores a 64-bit lane |
| CompactFips202.ThetaColumnDifference | CompactFIPS202.py:43-45 | theta xors one value into all lanes of a column, so the xor of two lanes of one column is unchanged |
| CompactFips202.ThetaKernel | CompactFIPS202.py:43-45 | a state whose columns all have even parity is left unchanged by theta |
| CompactFips202.RhoPiWalk | CompactFIPS202.py:47-52 | the 24-step walk of rho and pi, each step moving the carried lane to (y, 2x + 3y) and rotating it by the triangular number (t + 1)(t + 2)/2, computes RhoPi: every lane but (0, 0) is moved by pi and rotated |
| CompactFips202.PiInverse | CompactFIPS202.py:51 | the step (x, y) -> (y, 2x + 3y) mod 5 can be undone: the lane arriving at (X, Y) came from (X + 3Y, X) |
| CompactFips202.ChiRows | CompactFIPS202.py:54-58 | the row-by-row loops with the copy T compute chi on the whole state |
| CompactFips202.ChiBit | CompactFIPS202.py:58 | bit i of lane (x, y) flips exactly when bit i of lane (x + 1, y) is clear and bit i of lane (x + 2, y) is set |
| CompactFips202.IotaSteps | CompactFIPS202.py:60-64 | the seven LFSR steps of round i xor the round constant into lane (0, 0) and leave the LFSR state for round i + 1 |
| CompactFips202.KeccakF1600OnLanes | CompactFIPS202.py:37-66 | the 24 rounds of theta, rho and pi, chi and iota compute Keccak-f[1600] on 64-bit lanes and keep every lane within 64 bits |
| CompactFips202.StoreLoad | CompactFIPS202.py:68-78 | store64(load64(b)) == b for eight bytes |
| CompactFips202.LoadStore | CompactFIPS202.py:68-78 | load64(store64(a)) == a for a 64-bit lane |
| CompactFips202.LanesBytesRoundTrip | CompactFIPS202.py:84-89 | storing 25 lanes at offset 8(x + 5y) and loading them back gives the same lanes |
| CompactFips202.BytesLanesRoundTrip | CompactFIPS202.py:84-89 | loading a 200-byte state into lanes and storing them back gives the same bytes |
| CompactFips202.KeccakF1600 | CompactFIPS202.py:80-101 | KeccakF1600 returns a new 200-byte state, the permutation of the lanes loaded from the input state |
| CompactFips202.Padded | CompactFIPS202.py:151-161 | the padded input is whole blocks, begins with the message, and is at least one byte and at most one block longer |
| CompactFips202.PadInto | CompactFIPS202.py:151-161 | xoring the suffix after the message bytes and 0x80 into the last byte of the block is xoring in the padding tail |
| CompactFips202.PaddingInjective | CompactFIPS202.py:151-161 | with a nonzero suffix, different messages pad to different block sequences |
| CompactFips202.LongerPadded | CompactFIPS202.py:151-161 | a message's padding cannot be read as the padding of a longer message with the same nonzero suffix |
| CompactFips202.XorBlock | CompactFIPS202.py:136-137 | the inner absorbing loop xors the next n input bytes into the first n bytes of the state and changes nothing else |
| CompactFips202.AbsorbBlocks | CompactFIPS202.py:131-145 | the absorbing loop leaves the last partial block xored into the state, and absorbing that with the padding is absorbing the whole padded input |
| CompactFips202.SqueezeBlock | CompactFIPS202.py:167-174 | a request of at most one block is the first bytes of the state; a longer one is a block followed by the rest squeezed from the permuted state |
| CompactFips202.SqueezeBlocks | CompactFIPS202.py:167-174 | the squeezing loop returns outputByteLen bytes, a block at a time, permuting between blocks |
| CompactFips202.SqueezePrefix | CompactFIPS202.py:167-174 | a shorter output is a prefix of a longer one from the same state |
| CompactFips202.Keccak | CompactFIPS202.py:103-196 | Keccak returns the sponge of the padded input at rate / 8 bytes per block, outputByteLen bytes long |
| CompactFips202.Shake128 | CompactFIPS202.py:199-200 | SHAKE128 is the sponge with 168-byte blocks and suffix 0x1F, outputByteLen bytes long |
| CompactFips202.Shake256 | CompactFIPS202.py:202-203 | SHAKE256 is the sponge with 136-byte blocks and suffix 0x1F, outputByteLen bytes long |
| CompactFips202.Sha3_224 | CompactFIPS202.py:205-206 | corrected: SHA3-224 is the 28-byte sponge output with 144-byte blocks and suffix 0x06 |
| CompactFips202.Sha3_256 | CompactFIPS202.py:208-209 | SHA3-256 is the 32-byte sponge output with 136-byte blocks and suffix 0x06 |
| CompactFips202.Sha3_384 | CompactFIPS202.py:211-212 | corrected: SHA3-384 is the 48-byte sponge output with 104-byte blocks and suffix 0x06 |
| CompactFips202.Sha3_512 | CompactFIPS202.py:214-215 | SHA3-512 is the 64-byte sponge output with 72-byte blocks and suffix 0x06 |
| CompactFips202.KeccakAsWritten | CompactFIPS202.py:103-196 | as written: Keccak returns the digest exactly for the rate and suffix pairs that set i_mode, and otherwise fails reading it |
| CompactFips202.Sha3AsWrittenFails | CompactFIPS202.py:107-192 | as written: SHA3-224 and SHA3-384 fail, because rates 1152 and 832 set no i_mode |
| CompactFips202.KyberHashesAsWritten | CompactFIPS202.py:107-118 | SHAKE128, SHAKE256, SHA3-256 and SHA3-512 run through as written and give the sponge output |
| NttNayuki.Transform | ntt_nayuki.py:25-40 | transform rejects a vector no shorter than mod, an entry outside [0, mod) and a root outside [1, mod), and otherwise returns entry i = sum of a[j] root^(ij) mod mod |
| NttNayuki.DftAdditive | ntt_nayuki.py:25-40 | the transform of a sum is the sum of the transforms, mod mod |
| NttNayuki.DftAtZero | ntt_nayuki.py:25-40 | entry 0 of the transform is the sum of the entries mod mod |
| NttNayuki.BitLength | ntt_nayuki.py:56 | bit_length is 0 exactly for 0, and otherwise the r with 2^(r-1) <= n < 2^r |
| NttNayuki.BitReverse | ntt_nayuki.py:60-65 | reverse(x, bits) is the number whose bits are the low bits of x in reverse order |
| NttNayuki.ReversedBitsIsReversal | ntt_nayuki.py:60-65 | reverse reads the low bits of x and writes them back in the opposite order |
| NttNayuki.BitReversePermute | ntt_nayuki.py:66-69 | the swap loop leaves the bit-reversal permutation of the vector |
| NttNayuki.BitReversedInvolution | ntt_nayuki.py:66-69 | the bit-reversal permutation undoes itself |
| NttNayuki.PowTable | ntt_nayuki.py:71-75 | the power table holds 1, root, root^2 mod mod, ..., n/2 entries |
| NttNayuki.ButterflyBlock | ntt_nayuki.py:82-89 | the innermost loop applies the butterflies of one block and no others |
| NttNayuki.BlockEffect | ntt_nayuki.py:82-89 | after the butterflies from j on, positions of the block from j are (left + right) and (left - right) mod mod, and every other position is unchanged |
| NttNayuki.ButterflyStage | ntt_nayuki.py:81-89 | the middle loop applies every block of one stage |
| NttNayuki.StageShape | ntt_nayuki.py:79-80 | for size = 2^s, halfsize is 2^(s-1) and tablestep is n / size, so halfsize * tablestep = n / 2 |
| NttNayuki.ButterflyStages | ntt_nayuki.py:77-90 | the outer loop applies the stages for block sizes 2, 4, ..., n |
| NttNayuki.TransformRadix2 | ntt_nayuki.py:54-90 | a length that is not a power of 2 is rejected with the vector untouched (length 0 by the negative shift); a zero modulus fails after the permutation; otherwise the vector becomes Radix2 of its old contents, and a length-1 vector is left as it is |
| NttNayuki.StagesInRange | ntt_nayuki.py:77-90 | after the stages every position holds a residue in [0, mod) |
| NttNayuki.Radix2InRange | ntt_nayuki.py:54-90 | a vector of length 2 or more ends in [0, mod); a vector of length 1 is left unreduced |
| Radix2Dft.StridedSplit | ntt_nayuki.py:77-90 | a transform of length 2m splits into the even-offset transform plus w^(dk) times the odd-offset one, the identity each butterfly stage implements |
| Radix2Dft.LevelsAll | ntt_nayuki.py:77-90 | the stages from s on take a vector holding the length-2^(s-1) sub-transforms to the full transform, mod mod |
| Radix2Dft.Radix2IsDft | ntt_nayuki.py:51-90 | when root^(n/2) is congruent to -1, transform_radix_2 computes exactly what transform computes |
| Radix2Dft.OrderHalfTurn | ntt_nayuki.py:51-53 | modulo a prime, a primitive n-th root of unity (n even) has root^(n/2) congruent to -1 |
| Radix2Dft.SquareRootOfOne | ntt_nayuki.py:51-53 | modulo a prime, a residue whose square is 1 is 1 or -1 |
| Radix2Dft.Radix2IsDftPrime | ntt_nayuki.py:51-90 | for a primitive n-th root of unity modulo a prime, transform_radix_2 computes exactly what transform computes |
| NttNayuki.FindModulus | ntt_nayuki.py:116-125 | a non-positive veclen or minimum is rejected; a result is the least prime i * veclen + 1 with i >= 1 that is at least minimum, so it exceeds veclen and veclen divides mod - 1 |
| NttNayuki.FindPrimitiveRoot | ntt_nayuki.py:130-138 | bad arguments and a totient not divisible by degree are rejected; otherwise, when a generator exists, the result is in [0, mod) and has order exactly degree |
| NttNayuki.PowerOrder | ntt_nayuki.py:135-136 | gen^(totient / degree) of an element of order totient has order degree |
| NttNayuki.FindGenerator | ntt_nayuki.py:143-149 | the result is the least i in [1, mod) of order totient, and the search fails exactly when there is none |
| NttNayuki.IsPrimitiveRoot | ntt_nayuki.py:161-168 | arguments outside their ranges are rejected; otherwise the answer is true exactly when val has order degree modulo mod |
| NttNayuki.PrimitiveRootIsOrder | ntt_nayuki.py:153-168 | the test through the prime factors of degree holds exactly when val^degree = 1 and no smaller positive power is 1 |
| NttNayuki.OrderDivides | ntt_nayuki.py:153 | the least exponent taking val to 1 divides every exponent taking val to 1 |
| NttNayuki.UniquePrimeFactors | ntt_nayuki.py:176-192 | n < 1 is rejected; otherwise the result is ascending and holds exactly the primes dividing n |
| NttNayuki.IsPrime | ntt_nayuki.py:196-199 | n <= 1 is rejected; otherwise the answer is whether n is prime |
| NttNayuki.NoSmallDivisorPrime | ntt_nayuki.py:196-199 | a number with no divisor in [2, floor(sqrt n)] is prime |
| NttNayuki.Sqrt | ntt_nayuki.py:203-214 | a negative n is rejected; otherwise the result r satisfies r^2 <= n < (r + 1)^2 |
| NttNayuki.FloorSqrt | ntt_nayuki.py:202-214 | r^2 <= n < (r + 1)^2 and r <= n |
| NttNayuki.FloorSqrtUnique | ntt_nayuki.py:202 | r^2 <= n < (r + 1)^2 determines r |
| PolynomialAlgebra.SchoolbookIsConv | polynomials.py:214-232 | the schoolbook sums, the products with i + j = k minus those with i + j = k + n, are coefficient k of the product in Z[X] / (X^n + 1) |
| PolynomialAlgebra.ProductIsConv | polynomials.py:214-232 | the reduced schoolbook product is the negacyclic convolution reduced mod q |
| PolynomialAlgebra.ConvAssoc | polynomials.py:214-232 | (a * b) * c = a * (b * c) in Z[X] / (X^n + 1) |
| PolynomialAlgebra.NegacyclicAssociative | polynomials.py:214-232 | the reduced schoolbook product is associative |
| PolynomialAlgebra.MulPowSquare | polynomials.py:365-381 | multiplying j times by f * f is multiplying 2j times by f |
| PolynomialAlgebra.PowLoopIsMulPow | polynomials.py:372-381 | the square-and-multiply loop from accumulator g and base f with e to go computes g * f^e |
| PolynomialAlgebra.PowerSucc | polynomials.py:365-381 | f^(e + 1) = f^e * f for a polynomial in coefficient form |
| Polynomials.Polynomial.constructor | polynomials.py:110-113 | a Polynomial object holds the given coefficients, tag and ring |
| Modules.Matrix.constructor | modules.py:53-59 | a Matrix object holds the given rows, dimensions and ring |
| Radix2Dft.Radix2IsTransform | ntt_nayuki.py:25-90 | on the arguments transform accepts, with a root of order exactly n modulo a prime, transform_radix_2 leaves what transform returns, for every power-of-two length including 1 |

## Left out

- Randomness: `os.urandom`, the AES-256 CTR DRBG and its seeding (kyber.py:7-12, 58-84), and `random_element` (polynomials.py:23-26). The random bytes d, z, m and the coins are parameters of the model.
- Kyber.Hashes: the `hashlib` calls of kyber.py are functions handed in as a `Hashes` value. The model assumes only their output lengths (`Lengths`): 32 and 64 bytes, and the requested length for SHAKE. They are not tied to the `CompactFips202` sponge, because kyber.py does not call CompactFIPS202.py.
- All `print` output, the test-only attribute stashing (kyber.py:97-101, 172-176), the unused integer conversions of the lanes and state, and `genvec`'s file writes (CompactFIPS202.py:25-31, 194) are I/O with no effect on results.
- Polynomials.CompressCoefficient: Python evaluates `compress` and `decompress` in floating point. The model rounds the exact rational half up (`round_up(x) = floor(x + 1/2)`) and does not model float error.
- The complex-number FFT half of ntt_nayuki.py (lines 244-338) is floating point.
- `find_params_and_transform`, `inverse_transform` and `circular_convolve` (ntt_nayuki.py:17-20, 45-48, 96-106) are not modelled. The later `transform` at ntt_nayuki.py:251 rebinds the name, so these call a two-argument complex transform with three arguments.
- Kyber.DecapsulationRecoversKey: KEM correctness is probabilistic. The model states the deterministic branch only: decapsulation returns the encapsulated key when the CPA decryption gives back the message, and implicit rejection otherwise.
- `__repr__`/`__str__` formatting and the `isinstance` dispatch are not modelled. Each operand type is a separate function (for example `Add` and `AddInt`).
- The commented-out bit-level Montgomery reduction (ntt_helper.py:221-234) and the commented padding branch (CompactFIPS202.py:153-157) are dead code.
- NttNayuki.FindModulus: Python's search runs until it finds a prime, which Dirichlet's theorem guarantees. The model tries `limit` multipliers and otherwise returns `NotFound`, proving that no candidate it tried was prime.
- Modules.Matrix.TransposeSelf: matrices hold polynomial values. The sharing of `Polynomial` objects between a matrix and its transposition (modules.py:70-74, kyber.py:168) is not modelled, so an in-place change through one alias is not seen through the other.
- `Matrix.__radd__`/`__rsub__` (modules.py:166-167, 196-197) are reached only when the left operand is not a matrix, and `__add__`/`__sub__` then raise `TypeError`. They are not modelled separately. The reversed order of `__rsub__` therefore never produces a value for matrices.
- NttNayuki.TransformRadix2: a negative modulus with a vector of length 2 or more is excluded by the requires. Python's floor `%` would leave entries in (mod, 0], which is not modelled. Length 0 and 1, and a zero modulus, are modelled.
- PolynomialAlgebra.PowerSucc: the e-fold product is proved for polynomials in coefficient form. In NTT form, `__pow__` goes through `ntt_multiplication`, for which only shapes and base-multiplication congruences are proved.
- Radix2Dft.Radix2IsDft: equality with the quadratic transform needs root^(n/2) congruent to -1. `Radix2IsDftPrime` derives this for a root of order exactly n modulo a prime. Other moduli are not covered.
- CompactFips202.Keccak: the capacity argument does not affect the computation. That each wrapper passes rate + capacity = 1600 is visible in the wrappers' literal arguments but is not a proved property.

## Findings

| source | as written | input that shows it | evidently intended | confidence | as-written member | corrected member |
|---|---|---|---|---|---|---|
| CompactFIPS202.py:107-192 | `i_mode` is assigned only for rates 1344 and 1088 and for rate 576, then read at line 192 | `SHA3_224(b"")` (rate 1152) or `SHA3_384(b"")` (rate 832): reading `i_mode` raises `UnboundLocalError` after the digest is computed | every wrapper returns its sponge digest | high, not executed | CompactFips202.KeccakAsWritten, CompactFips202.Sha3AsWrittenFails | CompactFips202.Sha3_224, CompactFips202.Sha3_384 |
| polynomials.py:330-331 | `__rsub__` returns `self - other`, so `c - f` computes `f - c` | `0 - R([1])` gives the constant 1 instead of q - 1 | `c - f`, so that `(c - f) + f == c` | high, not executed | Polynomials.RSubInt, Polynomials.RSubIntNotReversed | Polynomials.ReversedSubInt, Polynomials.ReversedSubIntMeaning |
