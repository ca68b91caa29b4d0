/** The NTT engine of Kyber (ntt_helper.py): arithmetic modulo q = 3329 with
    the Montgomery factor R = 2^16, the 128-entry zeta table, the in-place
    forward and inverse transforms over 256 coefficients, and the base
    multiplication in the NTT domain.

    Coefficients are unbounded integers: `to_ntt` never reduces, so each
    operation states its own range. */
module NttHelper {
  import opened Common

  const Q: int := 3329

  /** A canonical residue modulo q. */
  type Zq = x: int | 0 <= x < 3329
  /** R = 2^16, the Montgomery factor. */
  const R: int := 65536
  const MontR: int := 2285      // 2^16 mod q
  const MontR2: int := 1353     // 2^32 mod q
  const MontRInv: int := 169    // 2^-16 mod q
  const MontMask: int := 65535  // 2^16 - 1
  const QInv: int := 3327       // -q^-1 mod 2^16
  const RootOfUnity: int := 17
  /** f = 2^32 / 128 mod q, the final scaling factor of from_ntt. */
  const F: int := 1441

  /** The table of zetas, mont_r * 17^br(i,7) mod q for i in 0..127 (see
      ZetasMeaning), written as sixteen rows of eight entries joined pairwise. */
  const Zetas: seq<Zq> :=
    (((([2285, 2571, 2970, 1812, 1493, 1422, 287, 202] +
        [3158, 622, 1577, 182, 962, 2127, 1855, 1468]) +
       ([573, 2004, 264, 383, 2500, 1458, 1727, 3199] +
        [2648, 1017, 732, 608, 1787, 411, 3124, 1758])) +
      (([1223, 652, 2777, 1015, 2036, 1491, 3047, 1785] +
        [516, 3321, 3009, 2663, 1711, 2167, 126, 1469]) +
       ([2476, 3239, 3058, 830, 107, 1908, 3082, 2378] +
        [2931, 961, 1821, 2604, 448, 2264, 677, 2054]))) +
     ((([2226, 430, 555, 843, 2078, 871, 1550, 105] +
        [422, 587, 177, 3094, 3038, 2869, 1574, 1653]) +
       ([3083, 778, 1159, 3182, 2552, 1483, 2727, 1119] +
        [1739, 644, 2457, 349, 418, 329, 3173, 3254])) +
      (([817, 1097, 603, 610, 1322, 2044, 1864, 384] +
        [2114, 3193, 1218, 1994, 2455, 220, 2142, 1670]) +
       ([2144, 1799, 2051, 794, 1819, 2475, 2459, 478] +
        [3221, 3021, 996, 991, 958, 1869, 1522, 1628]))))

  /** What the constants mean: R = 2^16, mont_r and mont_r2 are R and R^2
      reduced, mont_r_inv inverts R, q_inv is -q^-1 modulo R, and
      f * 128 = R^2 modulo q. */
  lemma ConstantsMeaning()
    ensures R == Pow2(16) && MontMask == R - 1
    ensures MontR == R % Q && MontR2 == (R * R) % Q
    ensures (MontRInv * R) % Q == 1
    ensures (Q * QInv) % R == R - 1
    ensures (F * 128) % Q == MontR2
  {
    assert Pow2(16) == 65536 by {
      assert Pow2(4) == 16;
      assert Pow2(8) == 256 by { Pow2Add(4, 4); }
      Pow2Add(8, 8);
    }
  }

  /** br(i, k): the k low bits of i in reverse order. */
  function Br(i: int, k: nat): (r: nat)
  {
    FromBitsLE(Reverse(ToBitsLE(i % Pow2(k), k)))
  }

  /** br yields a k-bit number, and applying it twice gives back the k low bits. */
  lemma BrInvolution(i: int, k: nat)
    ensures Br(i, k) < Pow2(k)
    ensures Br(Br(i, k), k) == i % Pow2(k)
  {
    var x := i % Pow2(k);
    var low := ToBitsLE(x, k);
    BrBits(x, k, low);
    var b := FromBitsLE(Reverse(low));
    assert Br(i, k) == b;
    BrOfBitsReversed(b, k, Reverse(low));
    ReverseInvolution(low);
    assert Br(b, k) == FromBitsLE(low);
    DivModUnique(x, Pow2(k), 0, x);
  }

  lemma BrBits(x: nat, k: nat, low: seq<bit>)
    requires low == ToBitsLE(x, k)
    ensures FromBitsLE(low) == x % Pow2(k)
    ensures FromBitsLE(Reverse(low)) < Pow2(k)
  {
    FromToBitsLE(x, k);
    FromBitsLEBound(Reverse(low));
  }

  lemma BrOfBitsReversed(b: nat, k: nat, bits: seq<bit>)
    requires |bits| == k && b == FromBitsLE(bits)
    ensures b < Pow2(k) && Br(b, k) == FromBitsLE(Reverse(bits))
  {
    FromBitsLEBound(bits);
    DivModUnique(b, Pow2(k), 0, b);
    ToFromBitsLE(bits);
    assert ToBitsLE(b % Pow2(k), k) == bits;
  }

  /** montgomery_reduce: not the bit-level reduction, but a * 2^-16 mod q. */
  function MontgomeryReduce(a: int): (r: int)
    ensures 0 <= r < Q
    ensures (r * R) % Q == a % Q
  {
    var r := a * MontRInv % Q;
    MulModCongruent(a * MontRInv % Q, a * MontRInv, R, Q);
    assert (a * MontRInv) * R == a + Q * (QInv * a);
    ModAddMultiple(a, QInv * a, Q);
    r
  }

  /** reduce_mod_q: the canonical representative. */
  function ReduceModQ(a: int): (r: int)
    ensures 0 <= r < Q
    ensures (a - r) % Q == 0
  {
    a % Q
  }

  /** barrett_reduce: a minus a multiple of q near a. */
  function BarrettReduce(a: int): (r: int)
  {
    var v := (Pow2(26) + Q / 2) / Q;
    var t := (v * a + Pow2(25)) / Pow2(26);
    a - t * Q
  }

  lemma Pow2Values()
    ensures Pow2(25) == 33554432 && Pow2(26) == 67108864
  {
    assert Pow2(5) == 32;
    assert Pow2(10) == 1024 by { Pow2Add(5, 5); }
    assert Pow2(20) == 1048576 by { Pow2Add(10, 10); }
    assert Pow2(25) == 33554432 by { Pow2Add(20, 5); }
  }

  /** barrett_reduce keeps a modulo q, and for |a| <= 78230 it lands in the
      centred range [-(q-1)/2, (q-1)/2] that its comment promises. */
  lemma BarrettReduceRange(a: int)
    ensures (BarrettReduce(a) - a) % Q == 0
    ensures -78230 <= a <= 78230 ==> -(Q - 1) / 2 <= BarrettReduce(a) <= (Q - 1) / 2
  {
    Pow2Values();
    assert (67108864 + Q / 2) / Q == 20159;
    var t := (20159 * a + 33554432) / 67108864;
    assert BarrettReduce(a) == a - t * Q;
    ModAddMultiple(a, -t, Q);
    if -78230 <= a <= 78230 {
      BarrettArithmetic(a, t);
    }
  }

  lemma BarrettArithmetic(a: int, t: int)
    requires -78230 <= a <= 78230
    requires t == (20159 * a + 33554432) / 67108864
    ensures -1664 <= a - 3329 * t <= 1664
  {
    DivModBounds(20159 * a + 33554432, 67108864);
  }

  /** The range above is tight: a = 78231 falls outside it. */
  lemma BarrettReduceBoundTight()
    ensures BarrettReduce(78231) == -1665 && BarrettReduce(-78231) == 1665
  {
    Pow2Values();
    assert (67108864 + Q / 2) / Q == 20159;
    DivModUnique(1610613161, 67108864, 24, 425);
    DivModUnique(-1543504297, 67108864, -24, 67108439);
  }

  /** ntt_mul: a * b * 2^-16 mod q. */
  function NttMul(a: int, b: int): (r: int)
    ensures 0 <= r < Q
    ensures (r * R) % Q == (a * b) % Q
  {
    MontgomeryReduce(a * b)
  }

  /** Montgomery reduction only sees the residue of its input. */
  lemma MontgomeryReduceCongruent(a: int, b: int)
    requires a % Q == b % Q
    ensures MontgomeryReduce(a) == MontgomeryReduce(b)
  {
    MulModCongruent(a, b, MontRInv, Q);
  }

  /** Montgomery reduction is additive modulo q. */
  lemma MontgomeryReduceAdditive(a: int, b: int)
    ensures MontgomeryReduce(a + b) == (MontgomeryReduce(a) + MontgomeryReduce(b)) % Q
  {
    assert (a + b) * MontRInv == a * MontRInv + b * MontRInv;
    AddMod(a * MontRInv, b * MontRInv, Q);
  }

  /** ntt_mul only sees the residue of its second operand. */
  lemma NttMulCongruent(z: int, x: int, y: int)
    requires x % Q == y % Q
    ensures NttMul(z, x) == NttMul(z, y)
  {
    MulModCongruent(x, y, z, Q);
    assert x * z == z * x && y * z == z * y;
    MontgomeryReduceCongruent(z * x, z * y);
  }

  /** ntt_mul is additive in its second operand, modulo q. */
  lemma NttMulAdditive(z: int, x: int, y: int)
    ensures NttMul(z, x + y) == (NttMul(z, x) + NttMul(z, y)) % Q
  {
    assert z * (x + y) == z * x + z * y;
    MontgomeryReduceAdditive(z * x, z * y);
  }

  /** ntt_mul by mont_r2 puts a coefficient into Montgomery form: c * 2^16 mod q. */
  lemma ToMontgomeryCoefficient(c: int)
    ensures NttMul(MontR2, c) == (c * R) % Q
  {
    var x := MontR2 * c;
    MulModCongruent(x * MontRInv % Q, x * MontRInv, 1, Q);
    assert x * MontRInv == c * R + Q * (68 * c - 19 * c);
    ModAddMultiple(c * R, 68 * c - 19 * c, Q);
  }

  /** to_montgomery: every coefficient c replaced by ntt_mul(mont_r2, c), which
      is c * 2^16 reduced modulo q. */
  function ToMontgomery(c: seq<int>): (r: seq<int>)
    ensures |r| == |c|
    ensures forall i :: 0 <= i < |c| ==> r[i] == (c[i] * R) % Q
  {
    seq(|c|, i requires 0 <= i < |c| => ToMontgomeryOf(c[i]))
  }

  function ToMontgomeryOf(c: int): (r: int)
    ensures r == (c * R) % Q
  {
    ToMontgomeryCoefficient(c);
    NttMul(MontR2, c)
  }

  /** ntt_base_multiplication: a product of degree-one residues modulo X^2 - zeta,
      each output a sum of two reduced values. */
  function BaseMul(a0: int, a1: int, b0: int, b1: int, zeta: int): (r: (int, int))
  {
    var r0 := NttMul(NttMul(a1, b1), zeta) + NttMul(a0, b0);
    var r1 := NttMul(a0, b1) + NttMul(a1, b0);
    (r0, r1)
  }

  /** r0 * R^2 = a1 b1 zeta + a0 b0 R and r1 * R = a0 b1 + a1 b0 (mod q), both in [0, 2q). */
  lemma BaseMulMeaning(a0: int, a1: int, b0: int, b1: int, zeta: int)
    ensures var (r0, r1) := BaseMul(a0, a1, b0, b1, zeta);
      0 <= r0 < 2 * Q && 0 <= r1 < 2 * Q &&
      (r0 * R * R) % Q == (a1 * b1 * zeta + a0 * b0 * R) % Q &&
      (r1 * R) % Q == (a0 * b1 + a1 * b0) % Q
  {
    var m1 := NttMul(a1, b1);
    var m2 := NttMul(m1, zeta);
    var m3 := NttMul(a0, b0);
    TwiceReduced(m2, m1 * zeta, m1, a1 * b1, zeta);
    assert a1 * b1 * zeta == (a1 * b1) * zeta;
    OnceReduced(m3, a0 * b0);
    assert a0 * b0 * R == (a0 * b0) * R;
    SumCongruent(m2 * R * R, a1 * b1 * zeta, m3 * R * R, a0 * b0 * R);
    assert (m2 + m3) * R * R == m2 * R * R + m3 * R * R;
    var n1 := NttMul(a0, b1);
    var n2 := NttMul(a1, b0);
    SumCongruent(n1 * R, a0 * b1, n2 * R, a1 * b0);
    assert (n1 + n2) * R == n1 * R + n2 * R;
  }

  /** From m2 R = m1 zeta and m1 R = p: m2 R R = p zeta (mod q). */
  lemma TwiceReduced(m2: int, m1z: int, m1: int, p: int, zeta: int)
    requires m1z == m1 * zeta
    requires (m2 * R) % Q == m1z % Q && (m1 * R) % Q == p % Q
    ensures (m2 * R * R) % Q == (p * zeta) % Q
  {
    MulModCongruent(m2 * R, m1z, R, Q);
    assert m1z * R == (m1 * R) * zeta;
    MulModCongruent(m1 * R, p, zeta, Q);
  }

  /** From m R = p: m R R = p R (mod q). */
  lemma OnceReduced(m: int, p: int)
    requires (m * R) % Q == p % Q
    ensures (m * R * R) % Q == (p * R) % Q
  {
    MulModCongruent(m * R, p, R, Q);
  }

  lemma SumCongruent(x: int, x': int, y: int, y': int)
    requires x % Q == x' % Q && y % Q == y' % Q
    ensures (x + y) % Q == (x' + y') % Q
  {
    AddModCongruent(x, x', y, Q);
    AddModCongruent(y, y', x', Q);
  }

  /** The four results of block i of ntt_coefficient_multiplication: pair
      (4i, 4i+1) multiplied with zetas[64+i], pair (4i+2, 4i+3) with -zetas[64+i]. */
  function ProductBlock(zetas: seq<Zq>, f: seq<int>, g: seq<int>, i: int): (r: seq<int>)
    requires |zetas| == 128
    requires |f| == 256 && |g| == 256 && 0 <= i < 64
    ensures |r| == 4
  {
    var zeta: int := zetas[64 + i];
    var p := BaseMul(f[4 * i], f[4 * i + 1], g[4 * i], g[4 * i + 1], zeta);
    var n := BaseMul(f[4 * i + 2], f[4 * i + 3], g[4 * i + 2], g[4 * i + 3], -zeta);
    [p.0, p.1, n.0, n.1]
  }

  /** The results of the first `count` blocks, in order. */
  function ProductPrefix(zetas: seq<Zq>, f: seq<int>, g: seq<int>, count: int): (r: seq<int>)
    requires |zetas| == 128
    requires |f| == 256 && |g| == 256 && 0 <= count <= 64
    ensures |r| == 4 * count
  {
    if count == 0 then [] else ProductPrefix(zetas, f, g, count - 1) + ProductBlock(zetas, f, g, count - 1)
  }

  /** ntt_coefficient_multiplication: the product of two NTT-form coefficient lists. */
  function NttCoefficientProduct(zetas: seq<Zq>, f: seq<int>, g: seq<int>): (r: seq<int>)
    requires |zetas| == 128
    requires |f| == 256 && |g| == 256
    ensures |r| == 256
  {
    ProductPrefix(zetas, f, g, 64)
  }

  /** Block i of the product sits at positions 4i .. 4i+3. */
  lemma {:induction false} ProductPrefixAt(zetas: seq<Zq>, f: seq<int>, g: seq<int>, count: int, i: int)
    requires |zetas| == 128
    requires |f| == 256 && |g| == 256 && 0 <= i < count <= 64
    ensures ProductPrefix(zetas, f, g, count)[4 * i .. 4 * i + 4] == ProductBlock(zetas, f, g, i)
  {
    var prev := ProductPrefix(zetas, f, g, count - 1);
    assert ProductPrefix(zetas, f, g, count) == prev + ProductBlock(zetas, f, g, count - 1);
    if i < count - 1 {
      ProductPrefixAt(zetas, f, g, count - 1, i);
      assert ProductPrefix(zetas, f, g, count)[4 * i .. 4 * i + 4] == prev[4 * i .. 4 * i + 4];
    } else {
      assert ProductPrefix(zetas, f, g, count)[4 * i .. 4 * i + 4] == ProductBlock(zetas, f, g, count - 1);
    }
  }

  /** The loop of ntt_coefficient_multiplication, appending four results per block. */
  method NttCoefficientMultiplication(zetas: seq<Zq>, f: seq<int>, g: seq<int>) returns (r: seq<int>)
    requires |zetas| == 128
    requires |f| == 256 && |g| == 256
    ensures r == NttCoefficientProduct(zetas, f, g)
  {
    r := [];
    for i := 0 to 64
      invariant r == ProductPrefix(zetas, f, g, i)
    {
      var zeta: int := zetas[64 + i];
      var p := BaseMul(f[4 * i], f[4 * i + 1], g[4 * i], g[4 * i + 1], zeta);
      var n := BaseMul(f[4 * i + 2], f[4 * i + 3], g[4 * i + 2], g[4 * i + 3], -zeta);
      assert [p.0, p.1, n.0, n.1] == ProductBlock(zetas, f, g, i);
      r := r + [p.0, p.1, n.0, n.1];
    }
  }

  /** What block i of the product means: positions (4i, 4i+1) and (4i+2, 4i+3)
      are the products of the degree-one pairs modulo X^2 - zeta and X^2 + zeta
      (up to the Montgomery factors), and each lies in [0, 2q). */
  lemma NttCoefficientProductMeaning(zetas: seq<Zq>, f: seq<int>, g: seq<int>, i: int)
    requires |zetas| == 128
    requires |f| == 256 && |g| == 256 && 0 <= i < 64
    ensures var r := NttCoefficientProduct(zetas, f, g);
      var zeta: int := zetas[64 + i];
      0 <= r[4 * i] < 2 * Q && 0 <= r[4 * i + 1] < 2 * Q && 0 <= r[4 * i + 2] < 2 * Q && 0 <= r[4 * i + 3] < 2 * Q &&
      (r[4 * i] * R * R) % Q == (f[4 * i + 1] * g[4 * i + 1] * zeta + f[4 * i] * g[4 * i] * R) % Q &&
      (r[4 * i + 1] * R) % Q == (f[4 * i] * g[4 * i + 1] + f[4 * i + 1] * g[4 * i]) % Q &&
      (r[4 * i + 2] * R * R) % Q == (f[4 * i + 3] * g[4 * i + 3] * -zeta + f[4 * i + 2] * g[4 * i + 2] * R) % Q &&
      (r[4 * i + 3] * R) % Q == (f[4 * i + 2] * g[4 * i + 3] + f[4 * i + 3] * g[4 * i + 2]) % Q
  {
    ProductPrefixAt(zetas, f, g, 64, i);
    var r := NttCoefficientProduct(zetas, f, g);
    var blk := ProductBlock(zetas, f, g, i);
    assert r[4 * i .. 4 * i + 4] == blk;
    assert r[4 * i] == blk[0] && r[4 * i + 1] == blk[1] && r[4 * i + 2] == blk[2] && r[4 * i + 3] == blk[3];
    var zeta: int := zetas[64 + i];
    assert 0 <= r[4 * i] < 2 * Q && 0 <= r[4 * i + 1] < 2 * Q &&
      (r[4 * i] * R * R) % Q == (f[4 * i + 1] * g[4 * i + 1] * zeta + f[4 * i] * g[4 * i] * R) % Q &&
      (r[4 * i + 1] * R) % Q == (f[4 * i] * g[4 * i + 1] + f[4 * i + 1] * g[4 * i]) % Q by {
      BaseMulMeaning(f[4 * i], f[4 * i + 1], g[4 * i], g[4 * i + 1], zeta);
    }
    assert 0 <= r[4 * i + 2] < 2 * Q && 0 <= r[4 * i + 3] < 2 * Q &&
      (r[4 * i + 2] * R * R) % Q == (f[4 * i + 3] * g[4 * i + 3] * -zeta + f[4 * i + 2] * g[4 * i + 2] * R) % Q &&
      (r[4 * i + 3] * R) % Q == (f[4 * i + 2] * g[4 * i + 3] + f[4 * i + 3] * g[4 * i + 2]) % Q by {
      BaseMulMeaning(f[4 * i + 2], f[4 * i + 3], g[4 * i + 2], g[4 * i + 3], -zeta);
    }
  }

  // ---------------------------------------------------------------------------
  // Forward transform (to_ntt)
  // ---------------------------------------------------------------------------

  /** The half-lengths l of the seven layers. */
  predicate IsLayerLen(l: int)
  {
    l == 2 || l == 4 || l == 8 || l == 16 || l == 32 || l == 64 || l == 128
  }

  /** The zeta index the forward layer with half-length l starts at (128 / l);
      1 marks the end of the schedule. */
  function FirstZeta(l: int): (k: int)
  {
    if l == 128 then 1 else if l == 64 then 2 else if l == 32 then 4 else if l == 16 then 8
    else if l == 8 then 16 else if l == 4 then 32 else if l == 2 then 64 else 128
  }

  /** The zeta index the inverse layer with half-length l starts at (256 / l - 1);
      256 marks the end of the schedule. */
  function LastZeta(l: int): (k: int)
  {
    if l == 2 then 127 else if l == 4 then 63 else if l == 8 then 31 else if l == 16 then 15
    else if l == 32 then 7 else if l == 64 then 3 else if l == 128 then 1 else 0
  }

  /** One butterfly of to_ntt: (a, b) -> (a + t, a - t) with t = ntt_mul(zeta, b). */
  function FwdButterfly(c: seq<int>, j: int, l: int, zeta: int): (r: seq<int>)
    requires 0 <= j && 0 < l && j + l < |c|
    ensures |r| == |c|
  {
    var t := NttMul(zeta, c[j + l]);
    c[j + l := c[j] - t][j := c[j] + t]
  }

  /** The butterflies j, j+1, ..., end-1 of one block, in order. */
  function FwdBlock(c: seq<int>, j: int, end: int, l: int, zeta: int): (r: seq<int>)
    requires 0 <= j <= end && 0 < l && end + l <= |c|
    ensures |r| == |c|
    decreases end - j
  {
    if j == end then c else FwdBlock(FwdButterfly(c, j, l, zeta), j + 1, end, l, zeta)
  }

  /** The blocks of one layer from `start` on, each with the next zeta. */
  function FwdLayer(zetas: seq<Zq>, c: seq<int>, start: int, l: int, k: int): (r: seq<int>)
    requires |zetas| == 128
    requires |c| == 256 && 0 < l && 0 <= start
    ensures |r| == 256
    decreases 256 - start
  {
    if start >= 256 then c
    else if start + 2 * l > 256 || !(0 <= k < 128) then c  // off the schedule (see LayerGeometry)
    else FwdLayer(zetas, FwdBlock(c, start, start + l, l, zetas[k]), start + 2 * l, l, k + 1)
  }

  /** The layers l, l/2, ..., 2. */
  function FwdLayers(zetas: seq<Zq>, c: seq<int>, l: int): (r: seq<int>)
    requires |zetas| == 128
    requires |c| == 256 && (l == 1 || IsLayerLen(l))
    ensures |r| == 256
    decreases l
  {
    if l < 2 then c
    else FwdLayers(zetas, FwdLayer(zetas, c, 0, l, FirstZeta(l)), l / 2)
  }

  /** The forward NTT of to_ntt: seven layers with l = 128, 64, ..., 2. */
  function NttForward(zetas: seq<Zq>, c: seq<int>): (r: seq<int>)
    requires |zetas| == 128
    requires |c| == 256
    ensures |r| == 256
  {
    FwdLayers(zetas, c, 128)
  }

  /** The inner loop of to_ntt: the butterflies of one block, in place. */
  method FwdBlockInPlace(a: array<int>, start: int, l: int, zeta: int)
    requires 0 <= start && 0 < l && start + 2 * l <= a.Length
    modifies a
    ensures a[..] == FwdBlock(old(a[..]), start, start + l, l, zeta)
  {
    ghost var blockOut := FwdBlock(a[..], start, start + l, l, zeta);
    var j := start;
    while j < start + l
      invariant start <= j <= start + l
      invariant FwdBlock(a[..], j, start + l, l, zeta) == blockOut
    {
      ghost var before := a[..];
      var t := NttMul(zeta, a[j + l]);
      a[j + l] := a[j] - t;
      a[j] := a[j] + t;
      assert a[..] == FwdButterfly(before, j, l, zeta);
      j := j + 1;
    }
  }

  /** The offset of block b of a layer with half-length l: b blocks of 2l. */
  function BlockStart(l: int, b: nat): int
  {
    if b == 0 then 0 else BlockStart(l, b - 1) + 2 * l
  }

  lemma {:induction false} BlockStartIs(l: int, b: nat)
    ensures BlockStart(l, b) == 2 * l * b
  {
    if b > 0 {
      BlockStartIs(l, b - 1);
    }
  }

  lemma {:induction false} BlockStartMonotone(l: int, b: nat, c: nat)
    requires 0 < l && b < c
    ensures BlockStart(l, b) + 2 * l <= BlockStart(l, c)
  {
    if b + 1 < c {
      BlockStartMonotone(l, b, c - 1);
    }
  }

  /** Layer l has FirstZeta(l) = 128/l blocks, which together fill the 256
      coefficients. */
  lemma LayerGeometry(l: int)
    requires IsLayerLen(l)
    ensures 0 < l && 0 < FirstZeta(l) && 2 * FirstZeta(l) <= 128
    ensures BlockStart(l, FirstZeta(l)) == 256
  {
    BlockStartIs(l, FirstZeta(l));
    if l == 2 {} else if l == 4 {} else if l == 8 {} else if l == 16 {}
    else if l == 32 {} else if l == 64 {} else {}
  }

  /** The middle loop of to_ntt: the k0 blocks of a layer with half-length l,
      block b using zetas[k0 + b]; returns the advanced zeta counter. */
  method FwdLayerInPlace(zetas: seq<Zq>, a: array<int>, l: int, k0: int) returns (k: int)
    requires |zetas| == 128
    requires a.Length == 256 && 0 < l && 0 < k0 && 2 * k0 <= 128 && BlockStart(l, k0) == 256
    modifies a
    ensures a[..] == FwdLayer(zetas, old(a[..]), 0, l, k0)
    ensures k == 2 * k0
  {
    ghost var layerOut := FwdLayer(zetas, a[..], 0, l, k0);
    k := k0;
    var start := 0;
    while start < 256
      invariant k0 <= k <= 2 * k0 && 0 <= start == BlockStart(l, k - k0)
      invariant FwdLayer(zetas, a[..], start, l, k) == layerOut
      decreases 2 * k0 - k
    {
      if k == 2 * k0 {
        assert false;
      }
      BlockStartMonotone(l, k - k0, k0);
      var zeta := zetas[k];
      k := k + 1;
      FwdBlockInPlace(a, start, l, zeta);
      start := start + 2 * l;  // to_ntt's `l + (j + 1)` with j = start + l - 1
    }
    if k < 2 * k0 {
      BlockStartMonotone(l, k - k0, k0);
    }
  }

  lemma HalvedLayer(l: int)
    requires IsLayerLen(l)
    ensures FirstZeta(l / 2) == 2 * FirstZeta(l)
  {
  }

  /** The loops of to_ntt, updating the coefficient list in place. */
  method NttForwardInPlace(zetas: seq<Zq>, a: array<int>)
    requires |zetas| == 128
    requires a.Length == 256
    modifies a
    ensures a[..] == NttForward(zetas, old(a[..]))
  {
    ghost var target := NttForward(zetas, a[..]);
    var k, l := 1, 128;
    while l >= 2
      invariant l == 1 || IsLayerLen(l)
      invariant k == FirstZeta(l)
      invariant FwdLayers(zetas, a[..], l) == target
    {
      LayerGeometry(l);
      k := FwdLayerInPlace(zetas, a, l, k);
      HalvedLayer(l);
      l := l / 2;
    }
  }

  /** to_ntt: refuses an NTT-form input before touching it; otherwise transforms
      in place (the caller then sets the NTT tag). */
  method ToNtt(zetas: seq<Zq>, coeffs: array<int>, isNtt: bool) returns (o: Outcome)
    requires |zetas| == 128 && coeffs.Length == 256
    modifies coeffs
    ensures isNtt ==> o == Fail(AlreadyNtt) && coeffs[..] == old(coeffs[..])
    ensures !isNtt ==> o == Pass && coeffs[..] == NttForward(zetas, old(coeffs[..]))
  {
    if isNtt {
      return Fail(AlreadyNtt);
    }
    NttForwardInPlace(zetas, coeffs);
    o := Pass;
  }

  // ---------------------------------------------------------------------------
  // Inverse transform (from_ntt)
  // ---------------------------------------------------------------------------

  /** One butterfly of from_ntt: (a, b) -> ((a + b) mod q, ntt_mul(zeta, b - a)). */
  function InvButterfly(c: seq<int>, j: int, l: int, zeta: int): (r: seq<int>)
    requires 0 <= j && 0 < l && j + l < |c|
    ensures |r| == |c|
  {
    var t := c[j];
    c[j := ReduceModQ(t + c[j + l])][j + l := NttMul(zeta, c[j + l] - t)]
  }

  function InvBlock(c: seq<int>, j: int, end: int, l: int, zeta: int): (r: seq<int>)
    requires 0 <= j <= end && 0 < l && end + l <= |c|
    ensures |r| == |c|
    decreases end - j
  {
    if j == end then c else InvBlock(InvButterfly(c, j, l, zeta), j + 1, end, l, zeta)
  }

  function InvLayer(zetas: seq<Zq>, c: seq<int>, start: int, l: int, k: int): (r: seq<int>)
    requires |zetas| == 128
    requires |c| == 256 && 0 < l && 0 <= start
    ensures |r| == 256
    decreases 256 - start
  {
    if start >= 256 then c
    else if start + 2 * l > 256 || !(0 <= k < 128) then c  // off the schedule (see LayerGeometry)
    else InvLayer(zetas, InvBlock(c, start, start + l, l, zetas[k]), start + 2 * l, l, k - 1)
  }

  /** The layers l, 2l, ..., 128. */
  function InvLayers(zetas: seq<Zq>, c: seq<int>, l: int): (r: seq<int>)
    requires |zetas| == 128
    requires |c| == 256 && (l == 256 || IsLayerLen(l))
    ensures |r| == 256
    decreases 256 - l
  {
    if l > 128 then c
    else InvLayers(zetas, InvLayer(zetas, c, 0, l, LastZeta(l)), 2 * l)
  }

  /** Layer l of the inverse starts at zeta index 256/l - 1 and has 128/l blocks,
      which fill the 256 coefficients; the next layer starts where it stops. */
  lemma InvLayerGeometry(l: int)
    requires IsLayerLen(l)
    ensures 0 < l && 0 < LastZeta(l) < 128 && LastZeta(l) % 2 == 1
    ensures BlockStart(l, (LastZeta(l) + 1) / 2) == 256
    ensures LastZeta(2 * l) == (LastZeta(l) - 1) / 2
  {
    BlockStartIs(l, (LastZeta(l) + 1) / 2);
    if l == 2 {} else if l == 4 {} else if l == 8 {} else if l == 16 {}
    else if l == 32 {} else if l == 64 {} else {}
  }

  /** The final multiplication of every coefficient by f. */
  function ScaleByF(c: seq<int>): (r: seq<int>)
    ensures |r| == |c|
    ensures forall i :: 0 <= i < |c| ==> 0 <= r[i] < Q
  {
    seq(|c|, i requires 0 <= i < |c| => NttMul(c[i], F))
  }

  /** The inverse NTT of from_ntt: layers l = 2, 4, ..., 128, then scaling by f;
      every output coefficient lies in [0, q). */
  function NttInverse(zetas: seq<Zq>, c: seq<int>): (r: seq<int>)
    requires |zetas| == 128
    requires |c| == 256
    ensures |r| == 256
    ensures forall i :: 0 <= i < 256 ==> 0 <= r[i] < Q
  {
    ScaleByF(InvLayers(zetas, c, 2))
  }

  /** The inner loop of from_ntt: the butterflies of one block, in place. */
  method InvBlockInPlace(a: array<int>, start: int, l: int, zeta: int)
    requires 0 <= start && 0 < l && start + 2 * l <= a.Length
    modifies a
    ensures a[..] == InvBlock(old(a[..]), start, start + l, l, zeta)
  {
    ghost var blockOut := InvBlock(a[..], start, start + l, l, zeta);
    var j := start;
    while j < start + l
      invariant start <= j <= start + l
      invariant InvBlock(a[..], j, start + l, l, zeta) == blockOut
    {
      ghost var before := a[..];
      var t := a[j];
      a[j] := ReduceModQ(t + a[j + l]);
      a[j + l] := a[j + l] - t;
      a[j + l] := NttMul(zeta, a[j + l]);
      assert a[..] == InvButterfly(before, j, l, zeta);
      j := j + 1;
    }
  }

  /** The middle loop of from_ntt: the (k0 + 1) / 2 blocks of a layer with
      half-length l, block b using zetas[k0 - b]; returns the zeta counter left
      for the next layer. */
  method InvLayerInPlace(zetas: seq<Zq>, a: array<int>, l: int, k0: int) returns (k: int)
    requires |zetas| == 128
    requires a.Length == 256 && 0 < l && 0 < k0 < 128 && k0 % 2 == 1 && BlockStart(l, (k0 + 1) / 2) == 256
    modifies a
    ensures a[..] == InvLayer(zetas, old(a[..]), 0, l, k0)
    ensures k == (k0 - 1) / 2
  {
    ghost var n := (k0 + 1) / 2;
    ghost var layerOut := InvLayer(zetas, a[..], 0, l, k0);
    k := k0;
    var start := 0;
    while start < 256
      invariant k0 - n <= k <= k0 && 0 <= start == BlockStart(l, k0 - k)
      invariant InvLayer(zetas, a[..], start, l, k) == layerOut
      decreases k
    {
      if k == k0 - n {
        assert false;
      }
      BlockStartMonotone(l, k0 - k, n);
      var zeta := zetas[k];
      k := k - 1;
      InvBlockInPlace(a, start, l, zeta);
      start := start + 2 * l;  // from_ntt's `j + l + 1` with j = start + l - 1
    }
    if k > k0 - n {
      BlockStartMonotone(l, k0 - k, n);
    }
  }

  /** The loops of from_ntt, updating the coefficient list in place. */
  method NttInverseInPlace(zetas: seq<Zq>, a: array<int>)
    requires |zetas| == 128
    requires a.Length == 256
    modifies a
    ensures a[..] == NttInverse(zetas, old(a[..]))
  {
    ghost var layered := InvLayers(zetas, a[..], 2);
    var l := 2;
    var k := 127;
    while l <= 128
      invariant l == 256 || IsLayerLen(l)
      invariant k == LastZeta(l)
      invariant InvLayers(zetas, a[..], l) == layered
    {
      InvLayerGeometry(l);
      k := InvLayerInPlace(zetas, a, l, k);
      l := 2 * l;
    }
    ScaleInPlace(a);
  }

  /** The last loop of from_ntt: every coefficient multiplied by f. */
  method ScaleInPlace(a: array<int>)
    modifies a
    ensures a[..] == ScaleByF(old(a[..]))
  {
    for j := 0 to a.Length
      invariant a[..j] == ScaleByF(old(a[..]))[..j]
      invariant a[j..] == old(a[..])[j..]
    {
      a[j] := NttMul(a[j], F);
    }
  }

  /** from_ntt: refuses a standard-form input before touching it; otherwise
      transforms in place (the caller then clears the NTT tag). */
  method FromNtt(zetas: seq<Zq>, coeffs: array<int>, isNtt: bool) returns (o: Outcome)
    requires |zetas| == 128 && coeffs.Length == 256
    modifies coeffs
    ensures !isNtt ==> o == Fail(NotNtt) && coeffs[..] == old(coeffs[..])
    ensures isNtt ==> o == Pass && coeffs[..] == NttInverse(zetas, old(coeffs[..]))
  {
    if !isNtt {
      return Fail(NotNtt);
    }
    NttInverseInPlace(zetas, coeffs);
    o := Pass;
  }

  // ---------------------------------------------------------------------------
  // Algebraic properties of the transforms
  // ---------------------------------------------------------------------------

  /** Pointwise congruence modulo q. */
  predicate Congruent(c: seq<int>, d: seq<int>)
  {
    |c| == |d| && forall i :: 0 <= i < |c| ==> c[i] % Q == d[i] % Q
  }

  /** Pointwise sum of two coefficient lists. */
  function Plus(c: seq<int>, d: seq<int>): (r: seq<int>)
    requires |c| == |d|
    ensures |r| == |c| && forall i :: 0 <= i < |c| ==> r[i] == c[i] + d[i]
  {
    seq(|c|, i requires 0 <= i < |c| => c[i] + d[i])
  }

  /** Reducing a residue again changes nothing. */
  lemma ModOfResidue(a: int)
    ensures (a % Q) % Q == a % Q
  {
  }

  lemma CongruentTrans(a: seq<int>, b: seq<int>, c: seq<int>)
    requires Congruent(a, b) && Congruent(b, c)
    ensures Congruent(a, c)
  {
  }

  // Forward butterflies, blocks, layers

  lemma FwdButterflyCongruent(c: seq<int>, d: seq<int>, j: int, l: int, z: int)
    requires Congruent(c, d) && 0 <= j && 0 < l && j + l < |c|
    ensures Congruent(FwdButterfly(c, j, l, z), FwdButterfly(d, j, l, z))
  {
    NttMulCongruent(z, c[j + l], d[j + l]);
    var t := NttMul(z, c[j + l]);
    AddModCongruent(c[j], d[j], t, Q);
    AddModCongruent(c[j], d[j], -t, Q);
  }

  lemma FwdButterflyLinear(c: seq<int>, d: seq<int>, j: int, l: int, z: int)
    requires |c| == |d| && 0 <= j && 0 < l && j + l < |c|
    ensures Congruent(FwdButterfly(Plus(c, d), j, l, z), Plus(FwdButterfly(c, j, l, z), FwdButterfly(d, j, l, z)))
  {
    var a := c[j] + d[j];
    var tc, td := NttMul(z, c[j + l]), NttMul(z, d[j + l]);
    var t := NttMul(z, c[j + l] + d[j + l]);
    NttMulAdditive(z, c[j + l], d[j + l]);
    ModOfResidue(tc + td);
    AddModCongruent(t, tc + td, a, Q);
    SubModCongruent(a, a, t, tc + td, Q);
    var x, p := FwdButterfly(Plus(c, d), j, l, z), Plus(FwdButterfly(c, j, l, z), FwdButterfly(d, j, l, z));
    assert x[j] == a + t && p[j] == a + (tc + td);
    assert x[j + l] == a - t && p[j + l] == a - (tc + td);
    forall i | 0 <= i < |x|
      ensures x[i] % Q == p[i] % Q
    {
      if i != j && i != j + l {
        assert x[i] == p[i];
      }
    }
  }

  lemma {:induction false} FwdBlockCongruent(c: seq<int>, d: seq<int>, j: int, end: int, l: int, z: int)
    requires Congruent(c, d) && 0 <= j <= end && 0 < l && end + l <= |c|
    ensures Congruent(FwdBlock(c, j, end, l, z), FwdBlock(d, j, end, l, z))
    decreases end - j
  {
    if j < end {
      FwdButterflyCongruent(c, d, j, l, z);
      FwdBlockCongruent(FwdButterfly(c, j, l, z), FwdButterfly(d, j, l, z), j + 1, end, l, z);
    }
  }

  lemma {:induction false} FwdBlockLinear(x: seq<int>, c: seq<int>, d: seq<int>, j: int, end: int, l: int, z: int)
    requires |c| == |d| && Congruent(x, Plus(c, d)) && 0 <= j <= end && 0 < l && end + l <= |c|
    ensures Congruent(FwdBlock(x, j, end, l, z), Plus(FwdBlock(c, j, end, l, z), FwdBlock(d, j, end, l, z)))
    decreases end - j
  {
    if j < end {
      var x', c', d' := FwdButterfly(x, j, l, z), FwdButterfly(c, j, l, z), FwdButterfly(d, j, l, z);
      FwdButterflyCongruent(x, Plus(c, d), j, l, z);
      FwdButterflyLinear(c, d, j, l, z);
      CongruentTrans(x', FwdButterfly(Plus(c, d), j, l, z), Plus(c', d'));
      FwdBlockLinear(x', c', d', j + 1, end, l, z);
    }
  }

  lemma {:induction false} FwdLayerCongruent(zetas: seq<Zq>, c: seq<int>, d: seq<int>, start: int, l: int, k: int)
    requires |zetas| == 128 && |c| == 256 && Congruent(c, d) && 0 < l && 0 <= start
    ensures Congruent(FwdLayer(zetas, c, start, l, k), FwdLayer(zetas, d, start, l, k))
    decreases 256 - start
  {
    if start < 256 && start + 2 * l <= 256 && 0 <= k < 128 {
      FwdBlockCongruent(c, d, start, start + l, l, zetas[k]);
      FwdLayerCongruent(zetas, FwdBlock(c, start, start + l, l, zetas[k]), FwdBlock(d, start, start + l, l, zetas[k]),
        start + 2 * l, l, k + 1);
    }
  }

  lemma {:induction false} FwdLayerLinear(zetas: seq<Zq>, x: seq<int>, c: seq<int>, d: seq<int>, start: int, l: int, k: int)
    requires |zetas| == 128 && |c| == 256 && |d| == 256 && Congruent(x, Plus(c, d)) && 0 < l && 0 <= start
    ensures Congruent(FwdLayer(zetas, x, start, l, k), Plus(FwdLayer(zetas, c, start, l, k), FwdLayer(zetas, d, start, l, k)))
    decreases 256 - start
  {
    if start < 256 && start + 2 * l <= 256 && 0 <= k < 128 {
      var z := zetas[k];
      FwdBlockLinear(x, c, d, start, start + l, l, z);
      FwdLayerLinear(zetas, FwdBlock(x, start, start + l, l, z), FwdBlock(c, start, start + l, l, z),
        FwdBlock(d, start, start + l, l, z), start + 2 * l, l, k + 1);
    }
  }

  lemma {:induction false} FwdLayersCongruent(zetas: seq<Zq>, c: seq<int>, d: seq<int>, l: int)
    requires |zetas| == 128 && |c| == 256 && Congruent(c, d) && (l == 1 || IsLayerLen(l))
    ensures Congruent(FwdLayers(zetas, c, l), FwdLayers(zetas, d, l))
    decreases l
  {
    if l >= 2 {
      FwdLayerCongruent(zetas, c, d, 0, l, FirstZeta(l));
      FwdLayersCongruent(zetas, FwdLayer(zetas, c, 0, l, FirstZeta(l)), FwdLayer(zetas, d, 0, l, FirstZeta(l)), l / 2);
    }
  }

  lemma {:induction false} FwdLayersLinear(zetas: seq<Zq>, x: seq<int>, c: seq<int>, d: seq<int>, l: int)
    requires |zetas| == 128 && |c| == 256 && |d| == 256 && Congruent(x, Plus(c, d)) && (l == 1 || IsLayerLen(l))
    ensures Congruent(FwdLayers(zetas, x, l), Plus(FwdLayers(zetas, c, l), FwdLayers(zetas, d, l)))
    decreases l
  {
    if l >= 2 {
      var k := FirstZeta(l);
      FwdLayerLinear(zetas, x, c, d, 0, l, k);
      FwdLayersLinear(zetas, FwdLayer(zetas, x, 0, l, k), FwdLayer(zetas, c, 0, l, k), FwdLayer(zetas, d, 0, l, k), l / 2);
    }
  }

  /** to_ntt only sees residues: congruent inputs give congruent outputs, so
      reducing before or after the transform makes no difference modulo q. */
  lemma NttForwardCongruent(zetas: seq<Zq>, c: seq<int>, d: seq<int>)
    requires |zetas| == 128 && |c| == 256 && Congruent(c, d)
    ensures Congruent(NttForward(zetas, c), NttForward(zetas, d))
  {
    FwdLayersCongruent(zetas, c, d, 128);
  }

  /** to_ntt is additive modulo q: the transform of a sum is congruent to the
      sum of the transforms. */
  lemma NttForwardAdditive(zetas: seq<Zq>, c: seq<int>, d: seq<int>)
    requires |zetas| == 128 && |c| == 256 && |d| == 256
    ensures Congruent(NttForward(zetas, Plus(c, d)), Plus(NttForward(zetas, c), NttForward(zetas, d)))
  {
    FwdLayersLinear(zetas, Plus(c, d), c, d, 128);
  }

  // Inverse butterflies, blocks, layers

  lemma InvButterflyCongruent(c: seq<int>, d: seq<int>, j: int, l: int, z: int)
    requires Congruent(c, d) && 0 <= j && 0 < l && j + l < |c|
    ensures Congruent(InvButterfly(c, j, l, z), InvButterfly(d, j, l, z))
  {
    AddModCongruent(c[j], d[j], c[j + l], Q);
    AddModCongruent(c[j + l], d[j + l], d[j], Q);
    SubModCongruent(c[j + l], d[j + l], c[j], d[j], Q);
    NttMulCongruent(z, c[j + l] - c[j], d[j + l] - d[j]);
  }

  lemma InvButterflyLinear(c: seq<int>, d: seq<int>, j: int, l: int, z: int)
    requires |c| == |d| && 0 <= j && 0 < l && j + l < |c|
    ensures Congruent(InvButterfly(Plus(c, d), j, l, z), Plus(InvButterfly(c, j, l, z), InvButterfly(d, j, l, z)))
  {
    var x, p := InvButterfly(Plus(c, d), j, l, z), Plus(InvButterfly(c, j, l, z), InvButterfly(d, j, l, z));
    forall i | 0 <= i < |x|
      ensures x[i] % Q == p[i] % Q
    {
      InvButterflyLinearAt(c, d, j, l, z, i);
    }
  }

  /** InvButterflyLinear at one index i. */
  lemma InvButterflyLinearAt(c: seq<int>, d: seq<int>, j: int, l: int, z: int, i: int)
    requires |c| == |d| && 0 <= j && 0 < l && j + l < |c| && 0 <= i < |c|
    ensures InvButterfly(Plus(c, d), j, l, z)[i] % Q ==
      Plus(InvButterfly(c, j, l, z), InvButterfly(d, j, l, z))[i] % Q
  {
    var x, y, w := InvButterfly(Plus(c, d), j, l, z), InvButterfly(c, j, l, z), InvButterfly(d, j, l, z);
    assert Plus(y, w)[i] == y[i] + w[i];
    if i == j {
      var sc, sd := c[j] + c[j + l], d[j] + d[j + l];
      SumOfReduced(sc, sd);
      assert x[j] == ReduceModQ(sc + sd) && y[j] == ReduceModQ(sc) && w[j] == ReduceModQ(sd);
    } else if i == j + l {
      var u, v := c[j + l] - c[j], d[j + l] - d[j];
      SumOfProducts(z, u, v);
      assert x[j + l] == NttMul(z, u + v) && y[j + l] == NttMul(z, u) && w[j + l] == NttMul(z, v);
    } else {
      assert x[i] == y[i] + w[i];
    }
  }

  lemma SumOfReduced(a: int, b: int)
    ensures ReduceModQ(a + b) % Q == (ReduceModQ(a) + ReduceModQ(b)) % Q
  {
    AddMod(a, b, Q);
    ModOfResidue(a + b);
  }

  lemma SumOfProducts(z: int, u: int, v: int)
    ensures NttMul(z, u + v) % Q == (NttMul(z, u) + NttMul(z, v)) % Q
  {
    NttMulAdditive(z, u, v);
    ModOfResidue(NttMul(z, u) + NttMul(z, v));
  }

  lemma {:induction false} InvBlockCongruent(c: seq<int>, d: seq<int>, j: int, end: int, l: int, z: int)
    requires Congruent(c, d) && 0 <= j <= end && 0 < l && end + l <= |c|
    ensures Congruent(InvBlock(c, j, end, l, z), InvBlock(d, j, end, l, z))
    decreases end - j
  {
    if j < end {
      InvButterflyCongruent(c, d, j, l, z);
      InvBlockCongruent(InvButterfly(c, j, l, z), InvButterfly(d, j, l, z), j + 1, end, l, z);
    }
  }

  lemma {:induction false} InvBlockLinear(x: seq<int>, c: seq<int>, d: seq<int>, j: int, end: int, l: int, z: int)
    requires |c| == |d| && Congruent(x, Plus(c, d)) && 0 <= j <= end && 0 < l && end + l <= |c|
    ensures Congruent(InvBlock(x, j, end, l, z), Plus(InvBlock(c, j, end, l, z), InvBlock(d, j, end, l, z)))
    decreases end - j
  {
    if j < end {
      var x', c', d' := InvButterfly(x, j, l, z), InvButterfly(c, j, l, z), InvButterfly(d, j, l, z);
      InvButterflyCongruent(x, Plus(c, d), j, l, z);
      InvButterflyLinear(c, d, j, l, z);
      CongruentTrans(x', InvButterfly(Plus(c, d), j, l, z), Plus(c', d'));
      InvBlockLinear(x', c', d', j + 1, end, l, z);
    }
  }

  lemma {:induction false} InvLayerCongruent(zetas: seq<Zq>, c: seq<int>, d: seq<int>, start: int, l: int, k: int)
    requires |zetas| == 128 && |c| == 256 && Congruent(c, d) && 0 < l && 0 <= start
    ensures Congruent(InvLayer(zetas, c, start, l, k), InvLayer(zetas, d, start, l, k))
    decreases 256 - start
  {
    if start < 256 && start + 2 * l <= 256 && 0 <= k < 128 {
      InvBlockCongruent(c, d, start, start + l, l, zetas[k]);
      InvLayerCongruent(zetas, InvBlock(c, start, start + l, l, zetas[k]), InvBlock(d, start, start + l, l, zetas[k]),
        start + 2 * l, l, k - 1);
    }
  }

  lemma {:induction false} InvLayerLinear(zetas: seq<Zq>, x: seq<int>, c: seq<int>, d: seq<int>, start: int, l: int, k: int)
    requires |zetas| == 128 && |c| == 256 && |d| == 256 && Congruent(x, Plus(c, d)) && 0 < l && 0 <= start
    ensures Congruent(InvLayer(zetas, x, start, l, k), Plus(InvLayer(zetas, c, start, l, k), InvLayer(zetas, d, start, l, k)))
    decreases 256 - start
  {
    if start < 256 && start + 2 * l <= 256 && 0 <= k < 128 {
      var z := zetas[k];
      InvBlockLinear(x, c, d, start, start + l, l, z);
      InvLayerLinear(zetas, InvBlock(x, start, start + l, l, z), InvBlock(c, start, start + l, l, z),
        InvBlock(d, start, start + l, l, z), start + 2 * l, l, k - 1);
    }
  }

  lemma {:induction false} InvLayersCongruent(zetas: seq<Zq>, c: seq<int>, d: seq<int>, l: int)
    requires |zetas| == 128 && |c| == 256 && Congruent(c, d) && (l == 256 || IsLayerLen(l))
    ensures Congruent(InvLayers(zetas, c, l), InvLayers(zetas, d, l))
    decreases 256 - l
  {
    if l <= 128 {
      InvLayerCongruent(zetas, c, d, 0, l, LastZeta(l));
      InvLayersCongruent(zetas, InvLayer(zetas, c, 0, l, LastZeta(l)), InvLayer(zetas, d, 0, l, LastZeta(l)), 2 * l);
    }
  }

  lemma {:induction false} InvLayersLinear(zetas: seq<Zq>, x: seq<int>, c: seq<int>, d: seq<int>, l: int)
    requires |zetas| == 128 && |c| == 256 && |d| == 256 && Congruent(x, Plus(c, d)) && (l == 256 || IsLayerLen(l))
    ensures Congruent(InvLayers(zetas, x, l), Plus(InvLayers(zetas, c, l), InvLayers(zetas, d, l)))
    decreases 256 - l
  {
    if l <= 128 {
      var k := LastZeta(l);
      InvLayerLinear(zetas, x, c, d, 0, l, k);
      InvLayersLinear(zetas, InvLayer(zetas, x, 0, l, k), InvLayer(zetas, c, 0, l, k), InvLayer(zetas, d, 0, l, k), 2 * l);
    }
  }

  lemma ScaleCongruent(x: seq<int>, y: seq<int>)
    requires Congruent(x, y)
    ensures ScaleByF(x) == ScaleByF(y)
  {
    forall i | 0 <= i < |x|
      ensures ScaleByF(x)[i] == ScaleByF(y)[i]
    {
      MulModCongruent(x[i], y[i], F, Q);
      MontgomeryReduceCongruent(x[i] * F, y[i] * F);
    }
  }

  /** Every entry reduced modulo q. */
  function ModQ(c: seq<int>): (r: seq<int>)
    ensures |r| == |c| && forall i :: 0 <= i < |c| ==> r[i] == c[i] % Q
  {
    seq(|c|, i requires 0 <= i < |c| => c[i] % Q)
  }

  lemma ScaleLinear(x: seq<int>, u: seq<int>, v: seq<int>)
    requires |u| == |v| && Congruent(x, Plus(u, v))
    ensures ScaleByF(x) == ModQ(Plus(ScaleByF(u), ScaleByF(v)))
  {
    forall i | 0 <= i < |x|
      ensures ScaleByF(x)[i] == ModQ(Plus(ScaleByF(u), ScaleByF(v)))[i]
    {
      assert x[i] % Q == (u[i] + v[i]) % Q;
      ScaleAdditive(x[i], u[i], v[i]);
    }
  }

  /** from_ntt only sees residues: congruent inputs give the same output. */
  lemma NttInverseCongruent(zetas: seq<Zq>, c: seq<int>, d: seq<int>)
    requires |zetas| == 128 && |c| == 256 && Congruent(c, d)
    ensures NttInverse(zetas, c) == NttInverse(zetas, d)
  {
    InvLayersCongruent(zetas, c, d, 2);
    ScaleCongruent(InvLayers(zetas, c, 2), InvLayers(zetas, d, 2));
  }

  /** from_ntt is additive: the transform of a sum is the sum of the transforms,
      reduced modulo q. */
  lemma NttInverseAdditive(zetas: seq<Zq>, c: seq<int>, d: seq<int>)
    requires |zetas| == 128 && |c| == 256 && |d| == 256
    ensures NttInverse(zetas, Plus(c, d)) == ModQ(Plus(NttInverse(zetas, c), NttInverse(zetas, d)))
  {
    InvLayersLinear(zetas, Plus(c, d), c, d, 2);
    ScaleLinear(InvLayers(zetas, Plus(c, d), 2), InvLayers(zetas, c, 2), InvLayers(zetas, d, 2));
  }

  lemma ScaleAdditive(x: int, u: int, v: int)
    requires x % Q == (u + v) % Q
    ensures NttMul(x, F) == (NttMul(u, F) + NttMul(v, F)) % Q
  {
    MulModCongruent(x, u + v, F, Q);
    MontgomeryReduceCongruent(x * F, (u + v) * F);
    assert (u + v) * F == u * F + v * F;
    MontgomeryReduceAdditive(u * F, v * F);
  }

  // ---------------------------------------------------------------------------
  // What the zeta table holds
  // ---------------------------------------------------------------------------

  /** b^e mod q. */
  function PowQ(b: int, e: nat): (r: int)
    ensures 0 <= r < Q
  {
    if e == 0 then 1 else (b * PowQ(b, e - 1)) % Q
  }

  /** Multiplication modulo q may regroup its factors. */
  lemma MulModSwap(a: int, u: int, v: int)
    ensures (a * ((u * v) % Q)) % Q == (u * ((a * v) % Q)) % Q
  {
    var p := (u * v) % Q;
    var s := (a * v) % Q;
    MulModCongruent(p, u * v, a, Q);
    MulModCongruent(s, a * v, u, Q);
    assert (u * v) * a == (a * v) * u;
    assert a * p == p * a && u * s == s * u;
  }

  /** Powers add exponents modulo q. */
  lemma {:induction false} PowQAdd(b: int, x: nat, y: nat)
    ensures PowQ(b, x + y) == (PowQ(b, x) * PowQ(b, y)) % Q
    decreases y
  {
    if y > 0 {
      PowQAdd(b, x, y - 1);
      MulModSwap(b, PowQ(b, x), PowQ(b, y - 1));
    }
  }

  /** 17^(2^j) mod q for j = 0 .. 7; the last one is -1, so 17 has order 256. */
  const RootSquares: seq<int> := [17, 289, 296, 1062, 2642, 2580, 1729, Q - 1]

  lemma RootSquaresStep(j: nat)
    requires 1 <= j < 8
    ensures RootSquares[j] == (RootSquares[j - 1] * RootSquares[j - 1]) % Q
  {
    if j == 1 {
    } else if j == 2 {
    } else if j == 3 {
    } else if j == 4 {
    } else if j == 5 {
    } else if j == 6 {
    } else {
    }
  }

  lemma {:induction false} RootPower(j: nat)
    requires j < 8
    ensures PowQ(RootOfUnity, Pow2(j)) == RootSquares[j]
  {
    if j > 0 {
      RootPower(j - 1);
      var e := Pow2(j - 1);
      PowQAdd(RootOfUnity, e, e);
      RootSquaresStep(j);
    }
  }

  /** 2^t for t = 0 .. 7. */
  lemma {:induction false} Pow2Small(t: nat)
    requires t < 8
    ensures Pow2(t) == [1, 2, 4, 8, 16, 32, 64, 128][t]
  {
    if t > 0 {
      Pow2Small(t - 1);
    }
  }

  /** Appending a top bit adds it with weight 2^|bs|. */
  lemma {:induction false} FromBitsLESnoc(bs: seq<bit>, b: bit)
    ensures FromBitsLE(bs + [b]) == FromBitsLE(bs) + b * Pow2(|bs|)
  {
    if bs == [] {
      assert [b][1..] == [];
    } else {
      assert (bs + [b])[1..] == bs[1..] + [b];
      FromBitsLESnoc(bs[1..], b);
    }
  }

  /** br moves the lowest bit of i to the top and reverses the rest. */
  lemma BrStep(i: nat, k: nat)
    requires k >= 1
    ensures Br(i, k) == Br(i / 2, k - 1) + (if i % 2 == 1 then Pow2(k - 1) else 0)
  {
    var p := Pow2(k - 1);
    var h := i / 2;
    DivModIdentity(i, 2);
    DivModIdentity(h, p);
    MulAssoc(2, p, h / p);
    assert i == (2 * p) * (h / p) + (2 * (h % p) + i % 2);
    DivModUnique(i, 2 * p, h / p, 2 * (h % p) + i % 2);
    var x := i % Pow2(k);
    DivModUnique(x, 2, h % p, i % 2);
    var rest := ToBitsLE(h % p, k - 1);
    assert ToBitsLE(x, k)[1..] == rest;
    assert Reverse(ToBitsLE(x, k)) == Reverse(rest) + [i % 2];
    FromBitsLESnoc(Reverse(rest), i % 2);
  }

  /** Bit reversal written arithmetically: the low bit of i becomes bit k-1. */
  function ReverseBits(i: nat, k: nat): nat
  {
    if k == 0 then 0 else ReverseBits(i / 2, k - 1) + (if i % 2 == 1 then Pow2(k - 1) else 0)
  }

  /** br as ntt_helper.py computes it, through bit strings, is ReverseBits. */
  lemma {:induction false} BrIsReverseBits(i: nat, k: nat)
    ensures Br(i, k) == ReverseBits(i, k)
  {
    if k == 0 {
      assert ToBitsLE(i % Pow2(0), 0) == [];
    } else {
      BrStep(i, k);
      BrIsReverseBits(i / 2, k - 1);
    }
  }

  lemma {:induction false} ReverseBitsZero(k: nat)
    ensures ReverseBits(0, k) == 0
  {
    if k > 0 {
      ReverseBitsZero(k - 1);
    }
  }

  /** One step of ReverseBits on a number written as 2h + b. */
  lemma ReverseBitsCons(h: nat, b: nat, k: nat)
    requires b < 2 && k >= 1
    ensures ReverseBits(2 * h + b, k) == ReverseBits(h, k - 1) + (if b == 1 then Pow2(k - 1) else 0)
  {
    DivModUnique(2 * h + b, 2, h, b);
  }

  /** Setting bit t of a number below 2^t adds 2^(k-1-t) to its reversal. */
  lemma {:induction false} ReverseBitsHighBit(x: nat, t: nat, k: nat)
    requires t < k && x < Pow2(t)
    ensures ReverseBits(x + Pow2(t), k) == ReverseBits(x, k) + Pow2(k - 1 - t)
    decreases t
  {
    if t == 0 {
      assert x == 0;
      ReverseBitsCons(0, 1, k);
      ReverseBitsZero(k);
      ReverseBitsZero(k - 1);
    } else {
      var p := Pow2(t - 1);
      var h, b := x / 2, x % 2;
      DivModIdentity(x, 2);
      assert x + Pow2(t) == 2 * (h + p) + b;
      ReverseBitsCons(h, b, k);
      ReverseBitsCons(h + p, b, k);
      ReverseBitsHighBit(h, t - 1, k - 1);
      assert k - 1 - 1 - (t - 1) == k - 1 - t;
    }
  }

  /** The reversals of x and of its m-bit complement add up to the k-bit
      number whose top m bits are set. */
  lemma {:induction false} ReverseBitsComplement(x: nat, m: nat, k: nat)
    requires m <= k && x < Pow2(m)
    ensures ReverseBits(x, k) + ReverseBits(Pow2(m) - 1 - x, k) == Pow2(k) - Pow2(k - m)
    decreases m
  {
    if m == 0 {
      ReverseBitsZero(k);
    } else {
      var p := Pow2(m - 1);
      var h, b := x / 2, x % 2;
      var y := Pow2(m) - 1 - x;
      DivModIdentity(x, 2);
      assert y == 2 * (p - 1 - h) + (1 - b);
      var half := ReverseBits(h, k - 1) + ReverseBits(p - 1 - h, k - 1);
      assert ReverseBits(x, k) + ReverseBits(y, k) == half + Pow2(k - 1) by {
        ReverseBitsCons(h, b, k);
        ReverseBitsCons(p - 1 - h, 1 - b, k);
      }
      assert half == Pow2(k - 1) - Pow2(k - m) by {
        ReverseBitsComplement(h, m - 1, k - 1);
        assert k - 1 - (m - 1) == k - m;
      }
      assert Pow2(k) == 2 * Pow2(k - 1);
    }
  }

  /** The reversals of 2^s + b and of 2^(s+1) - 1 - b add up to 2^k; for k = 7 these
      are the exponents of a forward block's zeta and of its inverse block's. */
  lemma ReverseBitsPair(s: nat, b: nat, k: nat)
    requires s < k && b < Pow2(s)
    ensures ReverseBits(Pow2(s) + b, k) + ReverseBits(2 * Pow2(s) - 1 - b, k) == Pow2(k)
  {
    var f := Pow2(s);
    var c := f - 1 - b;
    var h := Pow2(k - 1 - s);
    assert ReverseBits(f + b, k) == ReverseBits(b, k) + h by {
      ReverseBitsHighBit(b, s, k);
    }
    assert ReverseBits(2 * f - 1 - b, k) == ReverseBits(c, k) + h by {
      ReverseBitsHighBit(c, s, k);
      assert c + f == 2 * f - 1 - b;
    }
    assert ReverseBits(b, k) + ReverseBits(c, k) == Pow2(k) - 2 * h by {
      ReverseBitsComplement(b, s, k);
      assert Pow2(k - s) == 2 * h;
    }
  }

  /** Entries 2^t .. 2^(t+1)-1 of the table are entries 0 .. 2^t-1 times
      17^(2^(6-t)); ZetasDoubles0 .. ZetasDoubles6 check this one t at a time,
      and the lemmas after them check the table eight entries at a time. */
  lemma ZetasTop(t: nat, x: nat)
    requires t <= 6 && x < Pow2(t) <= 64
    ensures DoublesAt(Zetas, t, x)
  {
    Pow2Small(t);
    if t == 0 {
      ZetasDoubles0(x);
    } else if t == 1 {
      ZetasDoubles1(x);
    } else if t == 2 {
      ZetasDoubles2(x);
    } else if t == 3 {
      ZetasDoubles3(x);
    } else if t == 4 {
      ZetasDoubles4(x);
    } else if t == 5 {
      ZetasDoubles5(x);
    } else {
      ZetasDoubles6(x);
    }
  }

  lemma ZetasDoubles0(x: nat)
    requires x < 1
    ensures DoublesAt(Zetas, 0, x)
  {
    assert Pow2(0) == 1;
    RootPower(6);
    ZetasTop0(x);
  }

  lemma ZetasDoubles1(x: nat)
    requires x < 2
    ensures DoublesAt(Zetas, 1, x)
  {
    assert Pow2(1) == 2;
    RootPower(5);
    ZetasTop1(x);
  }

  lemma ZetasDoubles2(x: nat)
    requires x < 4
    ensures DoublesAt(Zetas, 2, x)
  {
    assert Pow2(2) == 4;
    RootPower(4);
    ZetasTop2(x);
  }

  lemma ZetasDoubles3(x: nat)
    requires x < 8
    ensures DoublesAt(Zetas, 3, x)
  {
    assert Pow2(3) == 8;
    RootPower(3);
    ZetasTop3(x);
  }

  lemma ZetasDoubles4(x: nat)
    requires x < 16
    ensures DoublesAt(Zetas, 4, x)
  {
    assert Pow2(4) == 16;
    RootPower(2);
    if x < 8 {
      ZetasTop4a(x);
    } else {
      ZetasTop4b(x);
    }
  }

  lemma ZetasDoubles5(x: nat)
    requires x < 32
    ensures DoublesAt(Zetas, 5, x)
  {
    assert Pow2(5) == 32;
    RootPower(1);
    if x < 8 {
      ZetasTop5a(x);
    } else if x < 16 {
      ZetasTop5b(x);
    } else if x < 24 {
      ZetasTop5c(x);
    } else {
      ZetasTop5d(x);
    }
  }

  lemma ZetasDoubles6(x: nat)
    requires x < 64
    ensures DoublesAt(Zetas, 6, x)
  {
    assert Pow2(6) == 64;
    RootPower(0);
    if x < 8 {
      ZetasTop6a(x);
    } else if x < 16 {
      ZetasTop6b(x);
    } else if x < 24 {
      ZetasTop6c(x);
    } else if x < 32 {
      ZetasTop6d(x);
    } else if x < 40 {
      ZetasTop6e(x);
    } else if x < 48 {
      ZetasTop6f(x);
    } else if x < 56 {
      ZetasTop6g(x);
    } else {
      ZetasTop6h(x);
    }
  }

  lemma ZetasTop0(x: nat)
    requires x < 1
    ensures Zetas[1 + x] == (Zetas[x] * 1729) % Q
  {
  }

  lemma ZetasTop1(x: nat)
    requires x < 2
    ensures Zetas[2 + x] == (Zetas[x] * 2580) % Q
  {
  }

  lemma ZetasTop2(x: nat)
    requires x < 4
    ensures Zetas[4 + x] == (Zetas[x] * 2642) % Q
  {
  }

  lemma ZetasTop3(x: nat)
    requires x < 8
    ensures Zetas[8 + x] == (Zetas[x] * 1062) % Q
  {
  }

  lemma ZetasTop4a(x: nat)
    requires x < 8
    ensures Zetas[16 + x] == (Zetas[x] * 296) % Q
  {
  }

  lemma ZetasTop4b(x: nat)
    requires 8 <= x < 16
    ensures Zetas[16 + x] == (Zetas[x] * 296) % Q
  {
  }

  lemma ZetasTop5a(x: nat)
    requires x < 8
    ensures Zetas[32 + x] == (Zetas[x] * 289) % Q
  {
  }

  lemma ZetasTop5b(x: nat)
    requires 8 <= x < 16
    ensures Zetas[32 + x] == (Zetas[x] * 289) % Q
  {
  }

  lemma ZetasTop5c(x: nat)
    requires 16 <= x < 24
    ensures Zetas[32 + x] == (Zetas[x] * 289) % Q
  {
  }

  lemma ZetasTop5d(x: nat)
    requires 24 <= x < 32
    ensures Zetas[32 + x] == (Zetas[x] * 289) % Q
  {
  }

  lemma ZetasTop6a(x: nat)
    requires x < 8
    ensures Zetas[64 + x] == (Zetas[x] * 17) % Q
  {
  }

  lemma ZetasTop6b(x: nat)
    requires 8 <= x < 16
    ensures Zetas[64 + x] == (Zetas[x] * 17) % Q
  {
  }

  lemma ZetasTop6c(x: nat)
    requires 16 <= x < 24
    ensures Zetas[64 + x] == (Zetas[x] * 17) % Q
  {
  }

  lemma ZetasTop6d(x: nat)
    requires 24 <= x < 32
    ensures Zetas[64 + x] == (Zetas[x] * 17) % Q
  {
  }

  lemma ZetasTop6e(x: nat)
    requires 32 <= x < 40
    ensures Zetas[64 + x] == (Zetas[x] * 17) % Q
  {
  }

  lemma ZetasTop6f(x: nat)
    requires 40 <= x < 48
    ensures Zetas[64 + x] == (Zetas[x] * 17) % Q
  {
  }

  lemma ZetasTop6g(x: nat)
    requires 48 <= x < 56
    ensures Zetas[64 + x] == (Zetas[x] * 17) % Q
  {
  }

  lemma ZetasTop6h(x: nat)
    requires 56 <= x < 64
    ensures Zetas[64 + x] == (Zetas[x] * 17) % Q
  {
  }

  /** The top bit of a nonzero 7-bit index. */
  lemma TopBit(i: nat) returns (t: nat)
    requires 0 < i < 128
    ensures t <= 6 && Pow2(t) <= i < 2 * Pow2(t) && Pow2(t) <= 64
  {
    assert Pow2(0) == 1 && Pow2(1) == 2 && Pow2(2) == 4 && Pow2(3) == 8;
    assert Pow2(4) == 16 && Pow2(5) == 32 && Pow2(6) == 64;
    t := if i < 2 then 0 else if i < 4 then 1 else if i < 8 then 2 else if i < 16 then 3
      else if i < 32 then 4 else if i < 64 then 5 else 6;
  }

  /** Entry 2^t + x of a 128-entry table is entry x times 17^(2^(6-t)). */
  predicate DoublesAt(z: seq<int>, t: nat, x: nat)
    requires |z| == 128 && t <= 6 && x < Pow2(t) <= 64
  {
    z[Pow2(t) + x] == (z[x] * PowQ(RootOfUnity, Pow2(6 - t))) % Q
  }

  /** A table that starts at mont_r and doubles as Zetas does holds
      mont_r * 17^br(i,7) mod q at every index i, by induction on the top bit of i.
      The bit width k is a parameter (always 7) so that the verifier does not
      unfold ReverseBits on a literal width. */
  lemma {:induction false} ZetaAt(z: seq<int>, i: nat, k: nat)
    requires |z| == 128 && z[0] == MontR
    requires forall t: nat, x: nat :: t <= 6 && x < Pow2(t) <= 64 ==> DoublesAt(z, t, x)
    requires i < 128 && k == 7
    ensures z[i] == (MontR * PowQ(RootOfUnity, ReverseBits(i, k))) % Q
    decreases i
  {
    if i == 0 {
      ReverseBitsZero(k);
    } else {
      var t := TopBit(i);
      var x := i - Pow2(t);
      var e := ReverseBits(x, k);
      var g := Pow2(6 - t);
      assert z[x] == (MontR * PowQ(RootOfUnity, e)) % Q by {
        ZetaAt(z, x, k);
      }
      assert z[i] == (z[x] * PowQ(RootOfUnity, g)) % Q by {
        assert DoublesAt(z, t, x);
      }
      assert ReverseBits(i, k) == e + g by {
        assert k - 1 - t == 6 - t;
        ReverseBitsHighBit(x, t, k);
        assert x + Pow2(t) == i;
      }
      ZetaStep(z[x], z[i], e, g);
    }
  }

  /** Multiplying mont_r * 17^e by 17^g gives mont_r * 17^(e+g), modulo q. */
  lemma ZetaStep(zx: int, zi: int, e: nat, g: nat)
    requires zx == (MontR * PowQ(RootOfUnity, e)) % Q
    requires zi == (zx * PowQ(RootOfUnity, g)) % Q
    ensures zi == (MontR * PowQ(RootOfUnity, e + g)) % Q
  {
    PowQAdd(RootOfUnity, e, g);
    MulModAssoc(MontR, PowQ(RootOfUnity, e), PowQ(RootOfUnity, g));
  }

  /** Multiplication modulo q is associative. */
  lemma MulModAssoc(a: int, b: int, c: int)
    ensures ((a * b) % Q * c) % Q == (a * ((b * c) % Q)) % Q
  {
    MulModSwap(c, a, b);
    assert (a * b) % Q * c == c * ((a * b) % Q);
    assert c * b == b * c;
  }

  lemma ZetasDouble()
    ensures forall t: nat, x: nat :: t <= 6 && x < Pow2(t) <= 64 ==> DoublesAt(Zetas, t, x)
  {
    forall t: nat, x: nat | t <= 6 && x < Pow2(t) <= 64
      ensures DoublesAt(Zetas, t, x)
    {
      ZetasTop(t, x);
    }
  }

  /** The table is the one its comment describes: zetas[i] = mont_r * 17^br(i,7) mod q. */
  lemma ZetasMeaning()
    ensures forall i :: 0 <= i < 128 ==> Zetas[i] == (MontR * PowQ(RootOfUnity, Br(i, 7))) % Q
  {
    ZetasDouble();
    forall i | 0 <= i < 128
      ensures Zetas[i] == (MontR * PowQ(RootOfUnity, Br(i, 7))) % Q
    {
      ZetaAt(Zetas, i, 7);
      BrIsReverseBits(i, 7);
    }
  }

  // ---------------------------------------------------------------------------
  // from_ntt undoes to_ntt
  // ---------------------------------------------------------------------------

  /** Every coefficient multiplied by s. */
  function Scaled(c: seq<int>, s: int): (r: seq<int>)
    ensures |r| == |c| && forall i :: 0 <= i < |c| ==> r[i] == s * c[i]
  {
    seq(|c|, i requires 0 <= i < |c| => s * c[i])
  }

  lemma ScaledCongruent(c: seq<int>, d: seq<int>, s: int)
    requires Congruent(c, d)
    ensures Congruent(Scaled(c, s), Scaled(d, s))
  {
    forall i | 0 <= i < |c|
      ensures (s * c[i]) % Q == (s * d[i]) % Q
    {
      MulModCongruent(c[i], d[i], s, Q);
      assert c[i] * s == s * c[i] && d[i] * s == s * d[i];
    }
  }

  lemma PlusCongruent(a: seq<int>, a': seq<int>, b: seq<int>, b': seq<int>)
    requires Congruent(a, a') && Congruent(b, b') && |a| == |b|
    ensures Congruent(Plus(a, b), Plus(a', b'))
  {
    forall i | 0 <= i < |a|
      ensures (a[i] + b[i]) % Q == (a'[i] + b'[i]) % Q
    {
      AddMod(a[i], b[i], Q);
      AddMod(a'[i], b'[i], Q);
    }
  }

  /** x R = y R modulo q implies x = y modulo q, because R is invertible. */
  lemma CancelR(x: int, y: int)
    requires (x * R) % Q == (y * R) % Q
    ensures x % Q == y % Q
  {
    MulModCongruent(x * R, y * R, MontRInv, Q);
    assert x * R * MontRInv == x + Q * (3327 * x);
    assert y * R * MontRInv == y + Q * (3327 * y);
    ModAddMultiple(x, 3327 * x, Q);
    ModAddMultiple(y, 3327 * y, Q);
  }

  /** A forward butterfly followed by an inverse one whose zeta times the forward
      zeta is -R^2 doubles the second input, modulo q. */
  lemma ButterflyInverse(b: int, zf: int, zi: int)
    requires (zf * zi + R * R) % Q == 0
    ensures NttMul(zi, -2 * NttMul(zf, b)) % Q == (2 * b) % Q
  {
    var t := NttMul(zf, b);
    var u := NttMul(zi, -2 * t);
    var v := -2 * zi * t;
    assert (u * R) % Q == v % Q by {
      assert zi * (-2 * t) == v;
    }
    assert (v * R) % Q == (2 * b * R * R) % Q by {
      MulModCongruent(t * R, zf * b, -2 * zi, Q);
      assert v * R == (t * R) * (-2 * zi);
      assert (zf * b) * (-2 * zi) == (zf * zi) * (-2 * b);
      assert (zf * zi) % Q == (-R * R) % Q by {
        ModAddMultiple(-R * R, (zf * zi + R * R) / Q, Q);
        DivModIdentity(zf * zi + R * R, Q);
      }
      MulModCongruent(zf * zi, -R * R, -2 * b, Q);
      assert (-R * R) * (-2 * b) == 2 * b * R * R;
    }
    CancelR(v, 2 * b * R);
    assert (u * R) % Q == (2 * b * R) % Q;
    CancelR(u, 2 * b);
  }

  /** Products of congruent factors are congruent. */
  lemma MulModBoth(x: int, x': int, y: int, y': int)
    requires x % Q == x' % Q && y % Q == y' % Q
    ensures (x * y) % Q == (x' * y') % Q
  {
    MulModCongruent(x, x', y, Q);
    MulModCongruent(y, y', x', Q);
    assert x' * y == y * x' && x' * y' == y' * x';
  }

  /** mont_r times itself is R^2 modulo q, so (mont_r a)(mont_r b) = -R^2 when
      a b = -1 modulo q. */
  lemma ZetaPairArith(u: int, v: int)
    requires (u * v) % Q == Q - 1
    ensures ((MontR * u) % Q * ((MontR * v) % Q) + R * R) % Q == 0
  {
    var a, b := (MontR * u) % Q, (MontR * v) % Q;
    assert (a * b) % Q == (MontR * MontR * (u * v)) % Q by {
      MulModBoth(a, MontR * u, b, MontR * v);
      assert (MontR * u) * (MontR * v) == MontR * MontR * (u * v);
    }
    assert (MontR * MontR * (u * v)) % Q == (MontR * MontR * (Q - 1)) % Q by {
      MulModBoth(MontR * MontR, MontR * MontR, u * v, Q - 1);
    }
    assert MontR * MontR * (Q - 1) == 17376236800 && 17376236800 % Q == 1976;
    assert R * R == 4294967296 && 4294967296 % Q == 1353;
    AddMod(a * b, R * R, Q);
  }

  /** The zeta of block b of the forward layer with half-length l and the zeta
      of block b of the inverse layer multiply to -R^2 modulo q. */
  predicate ZetaPairOk(zetas: seq<Zq>, l: int, b: int)
    requires |zetas| == 128 && IsLayerLen(l) && 0 <= b < FirstZeta(l)
  {
    (zetas[FirstZeta(l) + b] * zetas[LastZeta(l) - b] + R * R) % Q == 0
  }

  /** Every such pair of a table is inverse in this sense. */
  ghost predicate PairsInverse(zetas: seq<Zq>)
    requires |zetas| == 128
  {
    forall l, b :: IsLayerLen(l) && 0 <= b < FirstZeta(l) ==> ZetaPairOk(zetas, l, b)
  }

  /** The zetas of to_ntt and from_ntt pair up: block b of the forward layer with
      half-length l and block b of the inverse layer use zetas whose product is
      -R^2 modulo q, because their exponents br(128/l + b, 7) and br(256/l - 1 - b, 7)
      add up to 128 and 17^128 = -1. */
  lemma ZetasPaired()
    ensures PairsInverse(Zetas)
  {
    ZetasDouble();
    forall l, b | IsLayerLen(l) && 0 <= b < FirstZeta(l)
      ensures ZetaPairOk(Zetas, l, b)
    {
      ZetaPair(Zetas, l, b);
    }
  }

  lemma ZetaPair(z: seq<Zq>, l: int, b: nat)
    requires |z| == 128 && z[0] == MontR
    requires forall t: nat, x: nat :: t <= 6 && x < Pow2(t) <= 64 ==> DoublesAt(z, t, x)
    requires IsLayerLen(l) && b < FirstZeta(l)
    ensures ZetaPairOk(z, l, b)
  {
    var f := FirstZeta(l);
    var s: nat := if l == 128 then 0 else if l == 64 then 1 else if l == 32 then 2 else if l == 16 then 3
      else if l == 8 then 4 else if l == 4 then 5 else 6;
    assert Pow2(s) == f && f <= 64 && LastZeta(l) == 2 * f - 1 by {
      Pow2Small(s);
    }
    ZetaPairAt(z, s, b, f + b, LastZeta(l) - b, 7);
  }

  /** ZetaPair for the entries 2^s + b and 2^(s+1) - 1 - b of any table that
      starts at mont_r and doubles as Zetas does; k is the bit width of an
      index (always 7), a parameter for the reason given at ZetaAt. */
  lemma ZetaPairAt(z: seq<int>, s: nat, b: nat, i: nat, j: nat, k: nat)
    requires |z| == 128 && z[0] == MontR
    requires forall t: nat, x: nat :: t <= 6 && x < Pow2(t) <= 64 ==> DoublesAt(z, t, x)
    requires s <= 6 && b < Pow2(s) <= 64 && k == 7
    requires i == Pow2(s) + b && j == 2 * Pow2(s) - 1 - b
    ensures i < 128 && j < 128 && (z[i] * z[j] + R * R) % Q == 0
  {
    var e1, e2 := ReverseBits(i, k), ReverseBits(j, k);
    assert e1 + e2 == Pow2(k) by {
      ReverseBitsPair(s, b, k);
    }
    assert z[i] == (MontR * PowQ(RootOfUnity, e1)) % Q by {
      ZetaAt(z, i, k);
    }
    assert z[j] == (MontR * PowQ(RootOfUnity, e2)) % Q by {
      ZetaAt(z, j, k);
    }
    ZetaPairFinal(z[i], z[j], e1, e2, k);
  }

  lemma ZetaPairFinal(zi: int, zj: int, e1: nat, e2: nat, k: nat)
    requires k == 7 && e1 + e2 == Pow2(k)
    requires zi == (MontR * PowQ(RootOfUnity, e1)) % Q && zj == (MontR * PowQ(RootOfUnity, e2)) % Q
    ensures (zi * zj + R * R) % Q == 0
  {
    var u, v := PowQ(RootOfUnity, e1), PowQ(RootOfUnity, e2);
    RootPowerSum(e1, e2, k);
    ZetaPairArith(u, v);
  }

  /** Two powers of the root whose exponents add up to 2^7 multiply to -1. */
  lemma RootPowerSum(e1: nat, e2: nat, k: nat)
    requires k == 7 && e1 + e2 == Pow2(k)
    ensures (PowQ(RootOfUnity, e1) * PowQ(RootOfUnity, e2)) % Q == Q - 1
  {
    PowQAdd(RootOfUnity, e1, e2);
    RootPower(k);
    assert RootSquares[k] == Q - 1;
  }

  // Where each butterfly of a block, and each block of a layer, leaves its values

  lemma {:induction false} FwdBlockAt(c: seq<int>, j: int, end: int, l: int, z: int, i: int)
    requires 0 < l && 0 <= j <= end <= j + l && end + l <= |c| && 0 <= i < |c|
    ensures FwdBlock(c, j, end, l, z)[i] ==
      if j <= i < end then c[i] + NttMul(z, c[i + l])
      else if j + l <= i < end + l then c[i - l] - NttMul(z, c[i])
      else c[i]
    decreases end - j
  {
    if j < end {
      var c' := FwdButterfly(c, j, l, z);
      FwdBlockAt(c', j + 1, end, l, z, i);
      if j + 1 <= i < end {
        assert c'[i] == c[i] && c'[i + l] == c[i + l];
      } else if j + 1 + l <= i < end + l {
        assert c'[i - l] == c[i - l] && c'[i] == c[i];
      }
    }
  }

  lemma {:induction false} InvBlockAt(c: seq<int>, j: int, end: int, l: int, z: int, i: int)
    requires 0 < l && 0 <= j <= end <= j + l && end + l <= |c| && 0 <= i < |c|
    ensures InvBlock(c, j, end, l, z)[i] ==
      if j <= i < end then ReduceModQ(c[i] + c[i + l])
      else if j + l <= i < end + l then NttMul(z, c[i] - c[i - l])
      else c[i]
    decreases end - j
  {
    if j < end {
      var c' := InvButterfly(c, j, l, z);
      InvBlockAt(c', j + 1, end, l, z, i);
      if j + 1 <= i < end {
        assert c'[i] == c[i] && c'[i + l] == c[i + l];
      } else if j + 1 + l <= i < end + l {
        assert c'[i - l] == c[i - l] && c'[i] == c[i];
      }
    }
  }

  /** A layer leaves the coefficients before its first block alone. */
  lemma {:induction false} FwdLayerBelow(zetas: seq<Zq>, c: seq<int>, start: int, l: int, k: int, p: int)
    requires |zetas| == 128 && |c| == 256 && 0 < l && 0 <= p < start && p < 256
    ensures FwdLayer(zetas, c, start, l, k)[p] == c[p]
    decreases 256 - start
  {
    if start < 256 && start + 2 * l <= 256 && 0 <= k < 128 {
      FwdBlockAt(c, start, start + l, l, zetas[k], p);
      FwdLayerBelow(zetas, FwdBlock(c, start, start + l, l, zetas[k]), start + 2 * l, l, k + 1, p);
    }
  }

  lemma {:induction false} InvLayerBelow(zetas: seq<Zq>, c: seq<int>, start: int, l: int, k: int, p: int)
    requires |zetas| == 128 && |c| == 256 && 0 < l && 0 <= p < start && p < 256
    ensures InvLayer(zetas, c, start, l, k)[p] == c[p]
    decreases 256 - start
  {
    if start < 256 && start + 2 * l <= 256 && 0 <= k < 128 {
      InvBlockAt(c, start, start + l, l, zetas[k], p);
      InvLayerBelow(zetas, InvBlock(c, start, start + l, l, zetas[k]), start + 2 * l, l, k - 1, p);
    }
  }

  /** Offset o of block m of a forward layer holds the butterfly of that block,
      made with zeta number k + m. */
  lemma {:induction false} FwdLayerAt(zetas: seq<Zq>, c: seq<int>, start: int, l: int, k: int, m: nat, o: int)
    requires |zetas| == 128 && |c| == 256 && 0 < l && 0 <= start && 0 <= k && k + m < 128
    requires 0 <= o < 2 * l && 0 <= BlockStart(l, m) && start + BlockStart(l, m) + 2 * l <= 256
    ensures var p := start + BlockStart(l, m) + o;
      FwdLayer(zetas, c, start, l, k)[p] ==
        if o < l then c[p] + NttMul(zetas[k + m], c[p + l]) else c[p - l] - NttMul(zetas[k + m], c[p])
    decreases m, 1
  {
    if m == 0 {
      FwdLayerAtFirst(zetas, c, start, l, k, o);
    } else {
      if o < l {
        FwdLayerAtLaterLo(zetas, c, start, l, k, m, o);
      } else {
        FwdLayerAtLaterHi(zetas, c, start, l, k, m, o);
      }
    }
  }

  lemma FwdLayerAtFirst(zetas: seq<Zq>, c: seq<int>, start: int, l: int, k: int, o: int)
    requires |zetas| == 128 && |c| == 256 && 0 < l && 0 <= start && 0 <= k < 128
    requires 0 <= o < 2 * l && start + 2 * l <= 256
    ensures var p := start + o;
      FwdLayer(zetas, c, start, l, k)[p] ==
        if o < l then c[p] + NttMul(zetas[k], c[p + l]) else c[p - l] - NttMul(zetas[k], c[p])
  {
    var z := zetas[k];
    var c1 := FwdBlock(c, start, start + l, l, z);
    var p := start + o;
    assert FwdLayer(zetas, c, start, l, k)[p] == c1[p] by {
      FwdLayerBelow(zetas, c1, start + 2 * l, l, k + 1, p);
    }
    FwdBlockAt(c, start, start + l, l, z, p);
  }

  lemma {:induction false} FwdLayerAtLaterLo(zetas: seq<Zq>, c: seq<int>, start: int, l: int, k: int, m: nat, o: int)
    requires |zetas| == 128 && |c| == 256 && 0 < l && 0 <= start && 0 <= k && k + m < 128
    requires 0 <= BlockStart(l, m) && start + BlockStart(l, m) + 2 * l <= 256 && m > 0
    requires 0 <= o < l
    ensures var p := start + BlockStart(l, m) + o; FwdLayer(zetas, c, start, l, k)[p] == c[p] + NttMul(zetas[k + m], c[p + l])
    decreases m, 0
  {
    var z := zetas[k];
    var c1 := FwdBlock(c, start, start + l, l, z);
    var p := start + BlockStart(l, m) + o;
    var rest := FwdLayer(zetas, c1, start + 2 * l, l, k + 1);
    assert FwdLayer(zetas, c, start, l, k) == rest;
    assert start + 2 * l + BlockStart(l, m - 1) + o == p && 0 <= BlockStart(l, m - 1) by {
      BlockStartMonotone(l, 0, m);
    }
    assert rest[p] == c1[p] + NttMul(zetas[k + m], c1[p + l]) by {
      FwdLayerAt(zetas, c1, start + 2 * l, l, k + 1, m - 1, o);
    }
    assert c1[p] == c[p] && c1[p + l] == c[p + l] by {
      FwdBlockAt(c, start, start + l, l, z, p);
      FwdBlockAt(c, start, start + l, l, z, p + l);
    }
  }

  lemma {:induction false} FwdLayerAtLaterHi(zetas: seq<Zq>, c: seq<int>, start: int, l: int, k: int, m: nat, o: int)
    requires |zetas| == 128 && |c| == 256 && 0 < l && 0 <= start && 0 <= k && k + m < 128
    requires 0 <= BlockStart(l, m) && start + BlockStart(l, m) + 2 * l <= 256 && m > 0
    requires l <= o < 2 * l
    ensures var p := start + BlockStart(l, m) + o; FwdLayer(zetas, c, start, l, k)[p] == c[p - l] - NttMul(zetas[k + m], c[p])
    decreases m, 0
  {
    var z := zetas[k];
    var c1 := FwdBlock(c, start, start + l, l, z);
    var p := start + BlockStart(l, m) + o;
    var rest := FwdLayer(zetas, c1, start + 2 * l, l, k + 1);
    assert FwdLayer(zetas, c, start, l, k) == rest;
    assert start + 2 * l + BlockStart(l, m - 1) + o == p && 0 <= BlockStart(l, m - 1) by {
      BlockStartMonotone(l, 0, m);
    }
    assert rest[p] == c1[p - l] - NttMul(zetas[k + m], c1[p]) by {
      FwdLayerAt(zetas, c1, start + 2 * l, l, k + 1, m - 1, o);
    }
    assert c1[p] == c[p] && c1[p - l] == c[p - l] by {
      FwdBlockAt(c, start, start + l, l, z, p);
      FwdBlockAt(c, start, start + l, l, z, p - l);
    }
  }

  /** Offset o of block m of an inverse layer holds the butterfly of that block,
      made with zeta number k - m. */
  lemma {:induction false} InvLayerAt(zetas: seq<Zq>, c: seq<int>, start: int, l: int, k: int, m: nat, o: int)
    requires |zetas| == 128 && |c| == 256 && 0 < l && 0 <= start && 0 <= k - m && k < 128
    requires 0 <= o < 2 * l && 0 <= BlockStart(l, m) && start + BlockStart(l, m) + 2 * l <= 256
    ensures var p := start + BlockStart(l, m) + o;
      InvLayer(zetas, c, start, l, k)[p] ==
        if o < l then ReduceModQ(c[p] + c[p + l]) else NttMul(zetas[k - m], c[p] - c[p - l])
    decreases m, 1
  {
    if m == 0 {
      InvLayerAtFirst(zetas, c, start, l, k, o);
    } else {
      if o < l {
        InvLayerAtLaterLo(zetas, c, start, l, k, m, o);
      } else {
        InvLayerAtLaterHi(zetas, c, start, l, k, m, o);
      }
    }
  }

  lemma InvLayerAtFirst(zetas: seq<Zq>, c: seq<int>, start: int, l: int, k: int, o: int)
    requires |zetas| == 128 && |c| == 256 && 0 < l && 0 <= start && 0 <= k < 128
    requires 0 <= o < 2 * l && start + 2 * l <= 256
    ensures var p := start + o;
      InvLayer(zetas, c, start, l, k)[p] ==
        if o < l then ReduceModQ(c[p] + c[p + l]) else NttMul(zetas[k], c[p] - c[p - l])
  {
    var z := zetas[k];
    var c1 := InvBlock(c, start, start + l, l, z);
    var p := start + o;
    assert InvLayer(zetas, c, start, l, k)[p] == c1[p] by {
      InvLayerBelow(zetas, c1, start + 2 * l, l, k - 1, p);
    }
    InvBlockAt(c, start, start + l, l, z, p);
  }

  lemma {:induction false} InvLayerAtLaterLo(zetas: seq<Zq>, c: seq<int>, start: int, l: int, k: int, m: nat, o: int)
    requires |zetas| == 128 && |c| == 256 && 0 < l && 0 <= start && 0 <= k - m && k < 128
    requires 0 <= BlockStart(l, m) && start + BlockStart(l, m) + 2 * l <= 256 && m > 0
    requires 0 <= o < l
    ensures var p := start + BlockStart(l, m) + o; InvLayer(zetas, c, start, l, k)[p] == ReduceModQ(c[p] + c[p + l])
    decreases m, 0
  {
    var z := zetas[k];
    var c1 := InvBlock(c, start, start + l, l, z);
    var p := start + BlockStart(l, m) + o;
    var rest := InvLayer(zetas, c1, start + 2 * l, l, k - 1);
    assert InvLayer(zetas, c, start, l, k) == rest;
    assert start + 2 * l + BlockStart(l, m - 1) + o == p && 0 <= BlockStart(l, m - 1) by {
      BlockStartMonotone(l, 0, m);
    }
    assert rest[p] == ReduceModQ(c1[p] + c1[p + l]) by {
      InvLayerAt(zetas, c1, start + 2 * l, l, k - 1, m - 1, o);
    }
    assert c1[p] == c[p] && c1[p + l] == c[p + l] by {
      InvBlockAt(c, start, start + l, l, z, p);
      InvBlockAt(c, start, start + l, l, z, p + l);
    }
  }

  lemma {:induction false} InvLayerAtLaterHi(zetas: seq<Zq>, c: seq<int>, start: int, l: int, k: int, m: nat, o: int)
    requires |zetas| == 128 && |c| == 256 && 0 < l && 0 <= start && 0 <= k - m && k < 128
    requires 0 <= BlockStart(l, m) && start + BlockStart(l, m) + 2 * l <= 256 && m > 0
    requires l <= o < 2 * l
    ensures var p := start + BlockStart(l, m) + o; InvLayer(zetas, c, start, l, k)[p] == NttMul(zetas[k - m], c[p] - c[p - l])
    decreases m, 0
  {
    var z := zetas[k];
    var c1 := InvBlock(c, start, start + l, l, z);
    var p := start + BlockStart(l, m) + o;
    var rest := InvLayer(zetas, c1, start + 2 * l, l, k - 1);
    assert InvLayer(zetas, c, start, l, k) == rest;
    assert start + 2 * l + BlockStart(l, m - 1) + o == p && 0 <= BlockStart(l, m - 1) by {
      BlockStartMonotone(l, 0, m);
    }
    assert rest[p] == NttMul(zetas[k - m], c1[p] - c1[p - l]) by {
      InvLayerAt(zetas, c1, start + 2 * l, l, k - 1, m - 1, o);
    }
    assert c1[p] == c[p] && c1[p - l] == c[p - l] by {
      InvBlockAt(c, start, start + l, l, z, p);
      InvBlockAt(c, start, start + l, l, z, p - l);
    }
  }

  // One layer, then many

  /** The inverse layer with half-length l undoes the forward layer with the
      same l, up to a factor 2, at coefficient p. */
  lemma LayerRoundTripAt(zetas: seq<Zq>, l: int, x: seq<int>, p: int)
    requires |zetas| == 128 && PairsInverse(zetas)
    requires IsLayerLen(l) && |x| == 256 && 0 <= p < 256
    ensures InvLayer(zetas, FwdLayer(zetas, x, 0, l, FirstZeta(l)), 0, l, LastZeta(l))[p] % Q == (2 * x[p]) % Q
  {
    var m, o := BlockOf(l, p);
    var f, last := FirstZeta(l), LastZeta(l);
    assert 0 < l && m < f && 2 * f <= 128 && last == 2 * f - 1 by {
      ZetaRange(l);
    }
    if o < l {
      LayerRoundTripLo(zetas, l, f, last, x, m, o);
    } else {
      PairOf(zetas, l, m);
      LayerRoundTripHi(zetas, l, f, last, x, m, o);
    }
  }

  lemma PairOf(zetas: seq<Zq>, l: int, m: nat)
    requires |zetas| == 128 && PairsInverse(zetas) && IsLayerLen(l) && m < FirstZeta(l)
    ensures 0 <= FirstZeta(l) + m < 128 && 0 <= LastZeta(l) - m < 128
    ensures (zetas[FirstZeta(l) + m] * zetas[LastZeta(l) - m] + R * R) % Q == 0
  {
    assert ZetaPairOk(zetas, l, m);
  }

  /** Coefficient p lies at offset o of block m of the layer with half-length l. */
  lemma BlockOf(l: int, p: int) returns (m: nat, o: int)
    requires IsLayerLen(l) && 0 <= p < 256
    ensures 0 <= o < 2 * l && p == BlockStart(l, m) + o && m < FirstZeta(l)
    ensures 0 <= BlockStart(l, m) && BlockStart(l, m) + 2 * l <= 256
  {
    var f := FirstZeta(l);
    LayerGeometry(l);
    m, o := p / (2 * l), p % (2 * l);
    assert p == BlockStart(l, m) + o && m < f by {
      DivModIdentity(p, 2 * l);
      BlockStartIs(l, m);
      BlockStartIs(l, f);
      MulCancelLess(2 * l, m, f);
    }
    assert 0 <= BlockStart(l, m) by {
      BlockStartIs(l, m);
    }
    assert BlockStart(l, m) + 2 * l <= 256 by {
      BlockStartMonotone(l, m, f);
    }
  }

  /** The zeta indices of matching forward and inverse layers. */
  lemma ZetaRange(l: int)
    requires IsLayerLen(l)
    ensures 0 < l && 0 < FirstZeta(l) && 2 * FirstZeta(l) <= 128 && LastZeta(l) == 2 * FirstZeta(l) - 1
  {
    LayerGeometry(l);
  }

  /** LayerRoundTripAt in the lower half of block m, for the layers starting
      at zeta f (forward) and 2f - 1 (inverse). */
  lemma LayerRoundTripLo(zetas: seq<Zq>, l: int, f: int, last: int, x: seq<int>, m: nat, o: int)
    requires |zetas| == 128 && |x| == 256 && 0 < l && m < f && 2 * f <= 128 && last == 2 * f - 1 && 0 <= o < l
    requires 0 <= BlockStart(l, m) && BlockStart(l, m) + 2 * l <= 256
    ensures var p := BlockStart(l, m) + o;
      InvLayer(zetas, FwdLayer(zetas, x, 0, l, f), 0, l, last)[p] % Q == (2 * x[p]) % Q
  {
    var p := BlockStart(l, m) + o;
    var y := FwdLayer(zetas, x, 0, l, f);
    var t := NttMul(zetas[f + m], x[p + l]);
    assert InvLayer(zetas, y, 0, l, last)[p] == ReduceModQ(y[p] + y[p + l]) by {
      InvLayerAt(zetas, y, 0, l, last, m, o);
    }
    assert y[p] == x[p] + t by {
      FwdLayerAt(zetas, x, 0, l, f, m, o);
    }
    assert y[p + l] == x[p] - t by {
      FwdLayerAt(zetas, x, 0, l, f, m, o + l);
    }
    ReduceModQMod(2 * x[p]);
  }

  /** LayerRoundTripAt in the upper half of block m, where the zetas of the
      two layers must pair up. */
  lemma LayerRoundTripHi(zetas: seq<Zq>, l: int, f: int, last: int, x: seq<int>, m: nat, o: int)
    requires |zetas| == 128 && |x| == 256 && 0 < l && m < f && 2 * f <= 128 && last == 2 * f - 1 && l <= o < 2 * l
    requires 0 <= BlockStart(l, m) && BlockStart(l, m) + 2 * l <= 256
    requires (zetas[f + m] * zetas[last - m] + R * R) % Q == 0
    ensures var p := BlockStart(l, m) + o;
      InvLayer(zetas, FwdLayer(zetas, x, 0, l, f), 0, l, last)[p] % Q == (2 * x[p]) % Q
  {
    var p := BlockStart(l, m) + o;
    var y := FwdLayer(zetas, x, 0, l, f);
    var zf, zi := zetas[f + m], zetas[last - m];
    var t := NttMul(zf, x[p]);
    assert InvLayer(zetas, y, 0, l, last)[p] == NttMul(zi, y[p] - y[p - l]) by {
      InvLayerAt(zetas, y, 0, l, last, m, o);
    }
    assert y[p] == x[p - l] - t by {
      FwdLayerAt(zetas, x, 0, l, f, m, o);
    }
    assert y[p - l] == x[p - l] + t by {
      FwdLayerAt(zetas, x, 0, l, f, m, o - l);
    }
    assert y[p] - y[p - l] == -2 * t;
    ButterflyInverse(x[p], zf, zi);
  }

  lemma ReduceModQMod(a: int)
    ensures ReduceModQ(a) % Q == a % Q
  {
  }

  lemma LayerRoundTrip(zetas: seq<Zq>, l: int, x: seq<int>)
    requires |zetas| == 128 && PairsInverse(zetas)
    requires IsLayerLen(l) && |x| == 256
    ensures Congruent(InvLayer(zetas, FwdLayer(zetas, x, 0, l, FirstZeta(l)), 0, l, LastZeta(l)), Scaled(x, 2))
  {
    forall p | 0 <= p < 256
      ensures InvLayer(zetas, FwdLayer(zetas, x, 0, l, FirstZeta(l)), 0, l, LastZeta(l))[p] % Q == (2 * x[p]) % Q
    {
      LayerRoundTripAt(zetas, l, x, p);
    }
  }

  /** An inverse layer commutes with multiplying by s, modulo q (it is additive). */
  lemma {:induction false} InvLayerScaled(zetas: seq<Zq>, y: seq<int>, start: int, l: int, k: int, s: nat)
    requires |zetas| == 128 && |y| == 256 && 0 < l && 0 <= start && s >= 1
    ensures Congruent(InvLayer(zetas, Scaled(y, s), start, l, k), Scaled(InvLayer(zetas, y, start, l, k), s))
    decreases s
  {
    var w := InvLayer(zetas, y, start, l, k);
    if s == 1 {
      InvLayerCongruent(zetas, Scaled(y, 1), y, start, l, k);
    } else {
      InvLayerScaled(zetas, y, start, l, k, s - 1);
      var a := InvLayer(zetas, Scaled(y, s - 1), start, l, k);
      assert Scaled(y, s) == Plus(Scaled(y, s - 1), y);
      InvLayerLinear(zetas, Scaled(y, s), Scaled(y, s - 1), y, start, l, k);
      PlusCongruent(a, Scaled(w, s - 1), w, w);
      assert Plus(Scaled(w, s - 1), w) == Scaled(w, s);
      CongruentTrans(InvLayer(zetas, Scaled(y, s), start, l, k), Plus(a, w), Scaled(w, s));
    }
  }

  /** The inverse layers 2 .. 128 after the forward layers l .. 2 act like the
      inverse layers 2l .. 128 alone on the input times l. */
  lemma {:induction false} LayersRoundTrip(zetas: seq<Zq>, l: int, y: seq<int>)
    requires |zetas| == 128 && PairsInverse(zetas)
    requires |y| == 256 && (l == 1 || IsLayerLen(l))
    ensures Congruent(InvLayers(zetas, FwdLayers(zetas, y, l), 2), InvLayers(zetas, Scaled(y, l), 2 * l))
    decreases l
  {
    if l == 1 {
      InvLayersCongruent(zetas, y, Scaled(y, 1), 2);
    } else {
      var h, f, last := l / 2, FirstZeta(l), LastZeta(l);
      var y1 := FwdLayer(zetas, y, 0, l, f);
      var a := InvLayer(zetas, Scaled(y1, h), 0, l, last);
      var lhs := InvLayers(zetas, FwdLayers(zetas, y, l), 2);
      assert Congruent(lhs, InvLayers(zetas, a, 2 * l)) by {
        assert FwdLayers(zetas, y, l) == FwdLayers(zetas, y1, h);
        HalfLayer(l);
        LayersRoundTrip(zetas, h, y1);
      }
      assert Congruent(InvLayers(zetas, a, 2 * l), InvLayers(zetas, Scaled(y, l), 2 * l)) by {
        LayerScaledRoundTrip(zetas, l, y);
        InvLayersCongruent(zetas, a, Scaled(y, l), 2 * l);
      }
      CongruentTrans(lhs, InvLayers(zetas, a, 2 * l), InvLayers(zetas, Scaled(y, l), 2 * l));
    }
  }

  lemma ScaledTwice(y: seq<int>, h: int, l: int)
    requires l == h * 2
    ensures Scaled(Scaled(y, 2), h) == Scaled(y, l)
  {
    forall i | 0 <= i < |y|
      ensures h * (2 * y[i]) == l * y[i]
    {
      MulAssoc(h, 2, y[i]);
    }
  }

  /** Halving a layer length gives the next layer length (or 1). */
  lemma HalfLayer(l: int)
    requires IsLayerLen(l)
    ensures l / 2 >= 1 && l == 2 * (l / 2) && (l / 2) * 2 == l && (l / 2 == 1 || IsLayerLen(l / 2))
  {
  }

  /** The inverse layer l undoes the forward layer l on an input scaled by l/2,
      giving the input times l. */
  lemma LayerScaledRoundTrip(zetas: seq<Zq>, l: int, y: seq<int>)
    requires |zetas| == 128 && PairsInverse(zetas)
    requires |y| == 256 && IsLayerLen(l)
    ensures Congruent(InvLayer(zetas, Scaled(FwdLayer(zetas, y, 0, l, FirstZeta(l)), l / 2), 0, l, LastZeta(l)), Scaled(y, l))
  {
    var h, f, last := l / 2, FirstZeta(l), LastZeta(l);
    var y1 := FwdLayer(zetas, y, 0, l, f);
    var a := InvLayer(zetas, Scaled(y1, h), 0, l, last);
    var w := InvLayer(zetas, y1, 0, l, last);
    HalfLayer(l);
    assert Congruent(a, Scaled(w, h)) by {
      InvLayerScaled(zetas, y1, 0, l, last, h);
    }
    assert Congruent(Scaled(w, h), Scaled(y, l)) by {
      LayerRoundTrip(zetas, l, y);
      ScaledCongruent(w, Scaled(y, 2), h);
      ScaledTwice(y, h, l);
    }
    CongruentTrans(a, Scaled(w, h), Scaled(y, l));
  }

  /** f times 128 is R^2 modulo q, so scaling 128 v by f gives v R. */
  lemma ScaleOf128(v: int)
    ensures NttMul(128 * v, F) == (v * R) % Q
  {
    var r := NttMul(128 * v, F);
    assert (r * R) % Q == ((v * R) * R) % Q by {
      assert 128 * v * F == (F * 128) * v;
      MulModCongruent(F * 128, R * R, v, Q);
      assert (R * R) * v == (v * R) * R;
    }
    CancelR(r, v * R);
  }

  /** from_ntt(to_ntt(c)) = c R modulo q: the inverse transform undoes the forward
      one, leaving every coefficient in the Montgomery domain and fully reduced. */
  lemma NttRoundTrip(c: seq<int>)
    requires |c| == 256
    ensures forall i :: 0 <= i < 256 ==> NttInverse(Zetas, NttForward(Zetas, c))[i] == (c[i] * R) % Q
  {
    ZetasPaired();
    LayersRoundTrip(Zetas, 128, c);
    ScaleCongruent(InvLayers(Zetas, NttForward(Zetas, c), 2), Scaled(c, 128));
    forall i | 0 <= i < 256
      ensures NttInverse(Zetas, NttForward(Zetas, c))[i] == (c[i] * R) % Q
    {
      ScaleOf128(c[i]);
    }
  }
}
