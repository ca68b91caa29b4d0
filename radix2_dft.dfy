/** transform_radix_2 computes the number-theoretic transform: the butterfly stages
    applied to the bit-reversed vector give, entry by entry, the same residues as the
    quadratic transform, for every root whose half-length power is -1 modulo mod
    (which a root of order exactly n has when mod is prime). */
module Radix2Dft {
  import opened Common
  import opened NttNayuki

  // ---- Strided sums ----

  /** Entry i of a, or 0 past its end. */
  function EntryOr0(a: seq<int>, i: nat): int
  {
    if i < |a| then a[i] else 0
  }

  /** Entry k of the transform of length m of the entries a[c], a[c + d], ..., a[c + d (m - 1)]
      with the root w^d: the sum of a[c + d u] * w^(d u k) for u < m. */
  function Strided(a: seq<int>, c: nat, d: nat, m: nat, w: int, k: nat): int
  {
    if m == 0 then 0 else Strided(a, c, d, m - 1, w, k) + EntryOr0(a, c + d * (m - 1)) * Pow(w, d * (m - 1) * k)
  }

  /** The exponents and offsets of the two new terms when the even/odd split grows by one. */
  lemma SplitIndices(c: nat, d: nat, m: nat, k: nat)
    requires m >= 1
    ensures c + d * (2 * m - 2) == c + 2 * d * (m - 1)
    ensures d * (2 * m - 2) * k == 2 * d * (m - 1) * k
    ensures c + d * (2 * m - 1) == (c + d) + 2 * d * (m - 1)
    ensures d * (2 * m - 1) * k == d * k + 2 * d * (m - 1) * k
  {
    assert d * (2 * m - 2) == 2 * d * (m - 1);
    assert d * (2 * m - 1) == d + 2 * d * (m - 1);
    assert (d + 2 * d * (m - 1)) * k == d * k + 2 * d * (m - 1) * k;
  }

  /** One more term of a strided sum. */
  lemma StridedStep(a: seq<int>, c: nat, d: nat, m: nat, w: int, k: nat)
    ensures Strided(a, c, d, m + 1, w, k) == Strided(a, c, d, m, w, k) + EntryOr0(a, c + d * m) * Pow(w, d * m * k)
  {
  }

  /** The ring identity behind one step of the split. */
  lemma SplitAlgebra(whole: int, before: int, even: int, odd: int, x0: int, x1: int, p: int, q: int)
    requires before == even + p * odd
    requires whole == before + x0 * q + x1 * (p * q)
    ensures whole == (even + x0 * q) + p * (odd + x1 * q)
  {
    assert x1 * (p * q) == p * (x1 * q);
    assert p * (odd + x1 * q) == p * odd + p * (x1 * q);
  }

  /** The transform of length 2 m splits into the transform of the even-offset entries plus
      w^(d k) times the transform of the odd-offset entries. */
  lemma {:induction false} StridedSplit(a: seq<int>, c: nat, d: nat, m: nat, w: int, k: nat)
    ensures Strided(a, c, d, 2 * m, w, k) == Strided(a, c, 2 * d, m, w, k) + Pow(w, d * k) * Strided(a, c + d, 2 * d, m, w, k)
  {
    if m > 0 {
      StridedSplit(a, c, d, m - 1, w, k);
      SplitIndices(c, d, m, k);
      var e := 2 * d * (m - 1) * k;
      var x0, x1 := EntryOr0(a, c + 2 * d * (m - 1)), EntryOr0(a, (c + d) + 2 * d * (m - 1));
      PowAdd(w, d * k, e);
      StridedStep(a, c, d, 2 * m - 2, w, k);
      StridedStep(a, c, d, 2 * m - 1, w, k);
      StridedStep(a, c, 2 * d, m - 1, w, k);
      StridedStep(a, c + d, 2 * d, m - 1, w, k);
      assert 2 * (m - 1) == 2 * m - 2;
      SplitAlgebra(Strided(a, c, d, 2 * m, w, k), Strided(a, c, d, 2 * m - 2, w, k),
                   Strided(a, c, 2 * d, m - 1, w, k), Strided(a, c + d, 2 * d, m - 1, w, k),
                   x0, x1, Pow(w, d * k), Pow(w, e));
    }
  }

  // ---- Residues ----

  /** Congruent summands give congruent sums. */
  lemma SumCongruent(s1: int, s2: int, t1: int, t2: int, mod: int)
    requires mod > 0 && s1 % mod == s2 % mod && t1 % mod == t2 % mod
    ensures (s1 + t1) % mod == (s2 + t2) % mod
  {
    AddModCongruent(s1, s2, t1, mod);
    AddModCongruent(t1, t2, s2, mod);
    assert t1 + s2 == s2 + t1 && t2 + s2 == s2 + t2;
  }

  /** A factor congruent to 1 can be dropped from a term. */
  lemma DropUnitFactor(x: int, p: int, u: int, mod: int)
    requires mod > 0 && u % mod == 1 % mod
    ensures (x * (p * u)) % mod == (x * p) % mod
  {
    MulModCongruent(u, 1, x * p, mod);
    assert x * (p * u) == u * (x * p);
  }

  /** Entry k + P of a strided sum has the residue of entry k when (w^d)^P = 1. */
  lemma {:induction false} StridedPeriodic(a: seq<int>, c: nat, d: nat, j: nat, w: int, k: nat, P: nat, mod: int)
    requires mod > 0 && PowMod(w, d * P, mod) == 1 % mod
    ensures Strided(a, c, d, j, w, k + P) % mod == Strided(a, c, d, j, w, k) % mod
  {
    if j > 0 {
      StridedPeriodic(a, c, d, j - 1, w, k, P, mod);
      StridedStep(a, c, d, j - 1, w, k);
      StridedStep(a, c, d, j - 1, w, k + P);
      var x := EntryOr0(a, c + d * (j - 1));
      var e, f := d * (j - 1) * k, (d * P) * (j - 1);
      PeriodExponent(d, j - 1, k, P);
      PowAdd(w, e, f);
      PowersOfOne(w, d * P, j - 1, mod);
      DropUnitFactor(x, Pow(w, e), Pow(w, f), mod);
      SumCongruent(Strided(a, c, d, j - 1, w, k + P), Strided(a, c, d, j - 1, w, k),
                   x * Pow(w, d * (j - 1) * (k + P)), x * Pow(w, e), mod);
    }
  }

  /** u (k + P) = u k + u P. */
  lemma ShiftedExponent(u: nat, k: nat, P: nat)
    ensures u * (k + P) == u * k + u * P
  {
  }

  /** d j (k + P) = d j k + (d P) j. */
  lemma PeriodExponent(d: nat, j: nat, k: nat, P: nat)
    ensures d * j * (k + P) == d * j * k + (d * P) * j
  {
    ShiftedExponent(d * j, k, P);
    assert d * j * P == (d * P) * j;
  }

  /** If w^o is congruent to 1 then so is every power of it. */
  lemma {:induction false} PowersOfOne(w: int, o: nat, q: nat, mod: int)
    requires mod > 0 && PowMod(w, o, mod) == 1 % mod
    ensures PowMod(w, o * q, mod) == 1 % mod
  {
    PowMul(w, o, q);
    PowModBase(Pow(w, o), q, mod);
    PowModBase(1, q, mod);
    PowOne(q);
  }

  /** w^h is congruent to -1 modulo mod. */
  predicate HalfTurn(w: int, h: nat, mod: int)
    requires mod > 0
  {
    (Pow(w, h) + 1) % mod == 0
  }

  /** A half turn twice is a full turn: w^(2 h) is congruent to 1. */
  lemma FullTurn(w: int, h: nat, mod: int)
    requires mod > 0 && HalfTurn(w, h, mod)
    ensures PowMod(w, 2 * h, mod) == 1 % mod
  {
    var x := Pow(w, h);
    PowAdd(w, h, h);
    assert h + h == 2 * h;
    var t := (x + 1) / mod;
    DivModIdentity(x + 1, mod);
    assert x == mod * t - 1;
    assert x * x == 1 + mod * (t * (mod * t - 2));
    ModAddMultiple(1, t * (mod * t - 2), mod);
  }

  /** Half a turn further on, a power of w changes sign: w^(e (k + m)) + w^(e k) is
      congruent to 0 when e m = h. */
  lemma TwiddleFlip(w: int, e: nat, k: nat, m: nat, h: nat, mod: int)
    requires mod > 0 && HalfTurn(w, h, mod) && e * m == h
    ensures (Pow(w, e * (k + m)) + Pow(w, e * k)) % mod == 0
  {
    var p, q := Pow(w, e * k), Pow(w, h);
    ShiftedExponent(e, k, m);
    PowAdd(w, e * k, h);
    var t := (q + 1) / mod;
    DivModIdentity(q + 1, mod);
    FlipAlgebra(p, q, t, mod);
    ModAddMultiple(0, p * t, mod);
  }

  lemma FlipAlgebra(p: int, q: int, t: int, mod: int)
    requires q + 1 == mod * t
    ensures p * q + p == 0 + mod * (p * t)
  {
    assert p * q + p == p * (q + 1);
  }

  /** The upper output of a butterfly: x + y t is congruent to E + W O. */
  lemma ButterflyPlus(x: int, y: int, t: int, E: int, O: int, W: int, mod: int)
    requires mod > 0 && x % mod == E % mod && y % mod == O % mod && t % mod == W % mod
    ensures (x + y * t) % mod == (E + W * O) % mod
  {
    MulModCongruent(y, O, t, mod);
    MulModCongruent(t, W, O, mod);
    assert O * t == t * O && W * O == O * W;
    SumCongruent(x, E, y * t, W * O, mod);
  }

  /** The lower output of a butterfly: x - y t is congruent to E + W' O when W' is
      congruent to -W. */
  lemma ButterflyMinus(x: int, y: int, t: int, E: int, O: int, W: int, W': int, mod: int)
    requires mod > 0 && x % mod == E % mod && y % mod == O % mod && t % mod == W % mod
    requires (W' + W) % mod == 0
    ensures (x - y * t) % mod == (E + W' * O) % mod
  {
    MulModCongruent(y, O, t, mod);
    MulModCongruent(t, W, O, mod);
    assert O * t == t * O;
    SubModCongruent(x, E, y * t, W * O, mod);
    var K := (W' + W) / mod;
    DivModIdentity(W' + W, mod);
    assert W' * O == -(W * O) + mod * (K * O) by {
      assert W' == -W + mod * K;
    }
    ModAddMultiple(E - W * O, K * O, mod);
  }

  // ---- One stage, position by position ----

  /** The start of the block of 2 * half positions that holds p, counting blocks from start. */
  function BlockOf(start: nat, half: nat, blocks: nat, p: nat): (b: nat)
    requires half > 0 && start <= p < start + blocks * (2 * half)
    ensures start <= b <= p < b + 2 * half <= start + blocks * (2 * half)
  {
    var q := (p - start) / (2 * half);
    BlockOfBounds(p - start, 2 * half, q, blocks);
    start + q * (2 * half)
  }

  lemma BlockOfBounds(x: nat, size: nat, q: nat, blocks: nat)
    requires size > 0 && q == x / size && x < blocks * size
    ensures q * size <= x < q * size + size <= blocks * size
  {
    DivModIdentity(x, size);
    assert x == size * q + x % size;
    if q >= blocks {
      MulMonotone(size, blocks, q);
    }
    MulSucc(q, size);
    MulMonotone(size, q + 1, blocks);
  }

  /** Positions in the first block belong to it. */
  lemma BlockOfFirst(start: nat, half: nat, blocks: nat, p: nat)
    requires half > 0 && blocks > 0 && start <= p < start + 2 * half
    requires p < start + blocks * (2 * half)
    ensures BlockOf(start, half, blocks, p) == start
  {
    DivModUnique(p - start, 2 * half, 0, p - start);
  }

  /** Positions past the first block belong to the same block counted from the second. */
  lemma BlockOfLater(start: nat, half: nat, blocks: nat, p: nat)
    requires half > 0 && blocks > 0 && start + 2 * half <= p < start + blocks * (2 * half)
    requires start + 2 * half + (blocks - 1) * (2 * half) == start + blocks * (2 * half)
    ensures BlockOf(start + 2 * half, half, blocks - 1, p) == BlockOf(start, half, blocks, p)
  {
    var size := 2 * half;
    var q := (p - start - size) / size;
    DivModIdentity(p - start - size, size);
    DivModUnique(p - start, size, q + 1, (p - start - size) % size);
    MulSucc(q, size);
  }

  /** A butterfly value reads only its own block. */
  lemma ButterflyValueLocal(a: seq<int>, b: seq<int>, table: seq<int>, start: nat, p: nat, half: nat, step: nat, mod: int)
    requires BlockShape(a, table, start, half, step, mod) && |b| == |a| && start <= p < start + 2 * half
    requires forall q :: start <= q < start + 2 * half ==> b[q] == a[q]
    ensures ButterflyValue(b, table, start, p, half, step, mod) == ButterflyValue(a, table, start, p, half, step, mod)
  {
    if p < start + half {
      assert b[p] == a[p] && b[p + half] == a[p + half];
    } else {
      assert b[p] == a[p] && b[p - half] == a[p - half];
    }
  }

  /** Every position from start on ends up holding the butterfly value of its block. */
  lemma {:induction false} StageFromValues(a: seq<int>, table: seq<int>, start: nat, half: nat, step: nat, mod: int, blocks: nat)
    requires 0 < half && 0 < step && half * step <= |table| && mod > 0
    requires |a| == start + blocks * (2 * half)
    ensures forall p :: start <= p < |a| ==>
      StageFrom(a, table, start, half, step, mod)[p] == ButterflyValue(a, table, BlockOf(start, half, blocks, p), p, half, step, mod)
    decreases blocks
  {
    if blocks > 0 {
      MulSucc(blocks - 1, 2 * half);
      var bb := Block(a, table, start, start, half, step, mod);
      BlockEffect(a, table, start, start, half, step, mod);
      StageFromValues(bb, table, start + 2 * half, half, step, mod, blocks - 1);
      StageInRange(bb, table, start + 2 * half, half, step, mod, blocks - 1);
      var r := StageFrom(a, table, start, half, step, mod);
      assert r == StageFrom(bb, table, start + 2 * half, half, step, mod);
      forall p | start <= p < |a|
        ensures r[p] == ButterflyValue(a, table, BlockOf(start, half, blocks, p), p, half, step, mod)
      {
        if p < start + 2 * half {
          BlockOfFirst(start, half, blocks, p);
        } else {
          BlockOfLater(start, half, blocks, p);
          var B := BlockOf(start, half, blocks, p);
          ButterflyValueLocal(a, bb, table, B, p, half, step, mod);
        }
      }
    }
  }

  // ---- The stages ----

  /** Before stage s the vector v holds, in each block b of 2^(s-1) positions, the transform
      of length 2^(s-1) of the entries of a at offsets ReversedBits(b) + u 2^(L+1-s), taken
      modulo mod. */
  ghost predicate Level(v: seq<int>, a: seq<int>, w: int, L: nat, s: nat, mod: int)
    requires mod > 0 && 1 <= s <= L + 1
  {
    |v| == Pow2(L) && |a| == Pow2(L) && forall b: nat, k: nat :: LevelAt(v, a, w, L, s, mod, b, k)
  }

  /** Entry k of block b before stage s. */
  ghost predicate LevelAt(v: seq<int>, a: seq<int>, w: int, L: nat, s: nat, mod: int, b: nat, k: nat)
    requires mod > 0 && 1 <= s <= L + 1
  {
    b < Pow2(L + 1 - s) && k < Pow2(s - 1) && b * Pow2(s - 1) + k < |v| ==>
      v[b * Pow2(s - 1) + k] % mod == Strided(a, ReversedBits(b, L + 1 - s), Pow2(L + 1 - s), Pow2(s - 1), w, k) % mod
  }

  /** The twiddle factor at index i is w^i, up to residue. */
  lemma TwiddleAt(w: int, mod: int, count: nat, i: nat)
    requires mod > 0 && i < count
    ensures TwiddleTable(w, mod, count)[i] % mod == Pow(w, i) % mod
  {
    var x := Pow(w, i) % mod;
    DivModUnique(x, mod, 0, x);
    if i == 0 {
      assert TwiddleTable(w, mod, count)[0] == 1 && Pow(w, 0) == 1;
    } else {
      assert TwiddleTable(w, mod, count)[i] == PowMod(w, i, mod) == x;
    }
  }

  /** The block of 2 m positions that holds B (2 m) + k, for k < 2 m, starts at B (2 m). */
  lemma BlockOfEntry(m: nat, e: nat, B: nat, k: nat)
    requires m > 0 && B < e && k < 2 * m
    ensures B * (2 * m) + k < e * (2 * m)
    ensures BlockOf(0, m, e, B * (2 * m) + k) == B * (2 * m)
  {
    MulSucc(B, 2 * m);
    MulMonotone(2 * m, B + 1, e);
    assert e * (2 * m) == (2 * m) * e;
    DivModUnique(B * (2 * m) + k, 2 * m, B, k);
  }

  /** The offsets of the two halves of block B at the next level. */
  lemma ReversedHalves(B: nat, bits: nat)
    requires bits >= 1
    ensures ReversedBits(2 * B, bits) == ReversedBits(B, bits - 1)
    ensures ReversedBits(2 * B + 1, bits) == Pow2(bits - 1) + ReversedBits(B, bits - 1)
  {
    DivModUnique(2 * B, 2, B, 0);
    DivModUnique(2 * B + 1, 2, B, 1);
  }

  /** The positions of the two sub-blocks of block B. */
  lemma SubBlockPositions(B: nat, m: nat, k: nat)
    ensures (2 * B) * m + k == B * (2 * m) + k
    ensures (2 * B + 1) * m + k == B * (2 * m) + m + k
  {
    assert (2 * B + 1) * m == (2 * B) * m + m;
  }

  /** The shape of stage s of a vector of length 2^L: blocks of 2 m = 2^s positions, twiddle
      step e = 2^(L-s), m e = 2^(L-1). */
  predicate StageSizes(L: nat, s: nat, m: nat, e: nat)
  {
    1 <= s <= L && m == Pow2(s - 1) && e == Pow2(L - s) && m * e == Pow2(L - 1) && 2 * m == Pow2(s) &&
    Pow2(L + 1 - s) == 2 * e
  }

  /** Entry k of block B after stage s, for k below the middle of the block: the upper output
      of the butterfly on the two sub-blocks. */
  lemma UpperStepAt(v: seq<int>, r: seq<int>, a: seq<int>, w: int, L: nat, s: nat, mod: int, m: nat, e: nat, B: nat, p0: nat, k: nat)
    requires mod > 0 && StageSizes(L, s, m, e) && |v| == Pow2(L) && |r| == |v|
    requires B < e && k < m && p0 == B * (2 * m) && p0 + 2 * m <= |v|
    requires LevelAt(v, a, w, L, s, mod, 2 * B, k) && LevelAt(v, a, w, L, s, mod, 2 * B + 1, k)
    requires r[p0 + k] == ButterflyValue(v, TwiddleTable(w, mod, Pow2(L - 1)), p0, p0 + k, m, e, mod)
    ensures r[p0 + k] % mod == Strided(a, ReversedBits(B, L - s), e, 2 * m, w, k) % mod
  {
    var c := ReversedBits(B, L - s);
    HalvesAt(v, a, w, L, s, mod, m, e, B, p0, k);
    var E, O := Strided(a, c, 2 * e, m, w, k), Strided(a, c + e, 2 * e, m, w, k);
    UpperAt(v, r, w, mod, m, e, Pow2(L - 1), p0, k, E, O);
    StridedSplit(a, c, e, m, w, k);
  }

  /** The two sub-blocks of block B before stage s hold the transforms of the even-offset and
      the odd-offset entries of its offsets. */
  lemma HalvesAt(v: seq<int>, a: seq<int>, w: int, L: nat, s: nat, mod: int, m: nat, e: nat, B: nat, p0: nat, k: nat)
    requires mod > 0 && StageSizes(L, s, m, e) && |v| == Pow2(L)
    requires B < e && k < m && p0 == B * (2 * m) && p0 + 2 * m <= |v|
    requires LevelAt(v, a, w, L, s, mod, 2 * B, k) && LevelAt(v, a, w, L, s, mod, 2 * B + 1, k)
    ensures v[p0 + k] % mod == Strided(a, ReversedBits(B, L - s), 2 * e, m, w, k) % mod
    ensures v[p0 + m + k] % mod == Strided(a, ReversedBits(B, L - s) + e, 2 * e, m, w, k) % mod
  {
    ReversedHalves(B, L + 1 - s);
    SubBlockPositions(B, m, k);
  }

  /** The upper output of butterfly k of the block at p0 is congruent to E + w^(e k) O when
      its inputs are congruent to E and O. */
  lemma UpperAt(v: seq<int>, r: seq<int>, w: int, mod: int, m: nat, e: nat, h: nat, p0: nat, k: nat, E: int, O: int)
    requires mod > 0 && 0 < e && k < m && m * e == h && p0 + 2 * m <= |v| && |r| == |v|
    requires v[p0 + k] % mod == E % mod && v[p0 + m + k] % mod == O % mod
    requires r[p0 + k] == ButterflyValue(v, TwiddleTable(w, mod, h), p0, p0 + k, m, e, mod)
    ensures e * k >= 0
    ensures r[p0 + k] % mod == (E + Pow(w, e * k) * O) % mod
  {
    var T := TwiddleTable(w, mod, h);
    SlotBelow(k, m, e);
    MulComm(k, e);
    TwiddleAt(w, mod, h, k * e);
    ButterflyPlus(v[p0 + k], v[p0 + k + m], T[k * e], E, O, Pow(w, e * k), mod);
    DivModUnique(r[p0 + k], mod, 0, r[p0 + k]);
  }

  /** Entry m + k of block B after stage s: the lower output of the butterfly, where the
      twiddle factor changes sign and the two half-length transforms repeat. */
  lemma LowerStepAt(v: seq<int>, r: seq<int>, a: seq<int>, w: int, L: nat, s: nat, mod: int, m: nat, e: nat, B: nat, p0: nat, k: nat)
    requires mod > 0 && StageSizes(L, s, m, e) && |v| == Pow2(L) && |r| == |v|
    requires HalfTurn(w, Pow2(L - 1), mod)
    requires B < e && k < m && p0 == B * (2 * m) && p0 + 2 * m <= |v|
    requires LevelAt(v, a, w, L, s, mod, 2 * B, k) && LevelAt(v, a, w, L, s, mod, 2 * B + 1, k)
    requires r[p0 + m + k] == ButterflyValue(v, TwiddleTable(w, mod, Pow2(L - 1)), p0, p0 + m + k, m, e, mod)
    ensures r[p0 + m + k] % mod == Strided(a, ReversedBits(B, L - s), e, 2 * m, w, m + k) % mod
  {
    var c := ReversedBits(B, L - s);
    HalvesAt(v, a, w, L, s, mod, m, e, B, p0, k);
    var E, O := Strided(a, c, 2 * e, m, w, k), Strided(a, c + e, 2 * e, m, w, k);
    LowerAt(v, r, w, mod, m, e, Pow2(L - 1), p0, k, E, O);
    LowerSum(a, c, e, m, w, k, mod, Pow2(L - 1));
  }

  /** The lower output of butterfly k of the block at p0 is congruent to E + w^(e (k + m)) O
      when its inputs are congruent to E and O and w^h is congruent to -1. */
  lemma LowerAt(v: seq<int>, r: seq<int>, w: int, mod: int, m: nat, e: nat, h: nat, p0: nat, k: nat, E: int, O: int)
    requires mod > 0 && 0 < e && k < m && m * e == h && p0 + 2 * m <= |v| && |r| == |v| && HalfTurn(w, h, mod)
    requires v[p0 + k] % mod == E % mod && v[p0 + m + k] % mod == O % mod
    requires r[p0 + m + k] == ButterflyValue(v, TwiddleTable(w, mod, h), p0, p0 + m + k, m, e, mod)
    ensures e * (k + m) >= 0
    ensures r[p0 + m + k] % mod == (E + Pow(w, e * (k + m)) * O) % mod
  {
    var T := TwiddleTable(w, mod, h);
    NonNegative(e, k);
    NonNegative(e, k + m);
    SlotBelow(k, m, e);
    MulComm(k, e);
    TwiddleAt(w, mod, h, k * e);
    MulComm(e, m);
    TwiddleFlip(w, e, k, m, h, mod);
    ButterflyMinus(v[p0 + k], v[p0 + m + k], T[k * e], E, O, Pow(w, e * k), Pow(w, e * (k + m)), mod);
    DivModUnique(r[p0 + m + k], mod, 0, r[p0 + m + k]);
  }

  /** The even half plus the odd half turned by w^(e (k + m)) is entry m + k of the
      transform of length 2 m: both halves repeat after m entries. */
  lemma LowerSum(a: seq<int>, c: nat, e: nat, m: nat, w: int, k: nat, mod: int, h: nat)
    requires mod > 0 && HalfTurn(w, h, mod) && m * e == h && 0 < e && k < m
    ensures e * (k + m) >= 0
    ensures (Strided(a, c, 2 * e, m, w, k) + Pow(w, e * (k + m)) * Strided(a, c + e, 2 * e, m, w, k)) % mod ==
      Strided(a, c, e, 2 * m, w, m + k) % mod
  {
    NonNegative(e, k + m);
    StridedSplit(a, c, e, m, w, k + m);
    FullTurn(w, h, mod);
    DoubleProduct(e, m, h);
    StridedPeriodic(a, c, 2 * e, m, w, k, m, mod);
    StridedPeriodic(a, c + e, 2 * e, m, w, k, m, mod);
    RepeatedHalves(Strided(a, c, 2 * e, m, w, k + m), Strided(a, c, 2 * e, m, w, k),
      Strided(a, c + e, 2 * e, m, w, k + m), Strided(a, c + e, 2 * e, m, w, k), Pow(w, e * (k + m)), mod);
    assert m + k == k + m;
  }

  /** Entry k of block b after stage s, from the butterfly value the stage leaves there. */
  lemma StepEntry(v: seq<int>, r: seq<int>, a: seq<int>, w: int, L: nat, s: nat, mod: int, m: nat, e: nat, b: nat, p0: nat, k: nat)
    requires mod > 0 && StageSizes(L, s, m, e) && HalfTurn(w, Pow2(L - 1), mod)
    requires |v| == Pow2(L) && |r| == |v|
    requires b < e && k < 2 * m && p0 == b * (2 * m) && p0 + 2 * m <= |v|
    requires r[p0 + k] == ButterflyValue(v, TwiddleTable(w, mod, Pow2(L - 1)), p0, p0 + k, m, e, mod)
    requires var k' := if k < m then k else k - m;
      LevelAt(v, a, w, L, s, mod, 2 * b, k') && LevelAt(v, a, w, L, s, mod, 2 * b + 1, k')
    ensures r[p0 + k] % mod == Strided(a, ReversedBits(b, L - s), e, 2 * m, w, k) % mod
  {
    if k < m {
      UpperStepAt(v, r, a, w, L, s, mod, m, e, b, p0, k);
    } else {
      assert p0 + k == p0 + m + (k - m);
      LowerStepAt(v, r, a, w, L, s, mod, m, e, b, p0, k - m);
    }
  }

  /** One stage takes the vector from level s to level s + 1. */
  lemma LevelStep(v: seq<int>, a: seq<int>, w: int, L: nat, s: nat, mod: int)
    requires mod > 0 && 1 <= s <= L && HalfTurn(w, Pow2(L - 1), mod) && Level(v, a, w, L, s, mod)
    ensures Pow2(s - 1) * Pow2(L - s) <= Pow2(L - 1)
    ensures Level(StageFrom(v, TwiddleTable(w, mod, Pow2(L - 1)), 0, Pow2(s - 1), Pow2(L - s), mod), a, w, L, s + 1, mod)
  {
    var m, e := Pow2(s - 1), Pow2(L - s);
    StageGeometry(L, s);
    assert StageSizes(L, s, m, e);
    var T := TwiddleTable(w, mod, Pow2(L - 1));
    MulComm(2 * m, e);
    var r := StageFrom(v, T, 0, m, e, mod);
    StageFromValues(v, T, 0, m, e, mod, e);
    var next := s + 1;
    forall b: nat, k: nat
      ensures LevelAt(r, a, w, L, next, mod, b, k)
    {
      NextLevelAt(v, r, a, w, L, s, mod, m, e, b, k);
    }
  }

  /** Entry k of block b of the vector r that a stage leaves, at the next level. */
  lemma NextLevelAt(v: seq<int>, r: seq<int>, a: seq<int>, w: int, L: nat, s: nat, mod: int, m: nat, e: nat, b: nat, k: nat)
    requires mod > 0 && StageSizes(L, s, m, e) && HalfTurn(w, Pow2(L - 1), mod) && Level(v, a, w, L, s, mod)
    requires |r| == |v| == e * (2 * m)
    requires forall p :: 0 <= p < |v| ==>
      r[p] == ButterflyValue(v, TwiddleTable(w, mod, Pow2(L - 1)), BlockOf(0, m, e, p), p, m, e, mod)
    ensures LevelAt(r, a, w, L, s + 1, mod, b, k)
  {
    if b < e && k < 2 * m {
      BlockOfEntry(m, e, b, k);
      NonNegative(b, 2 * m);
      var p0: nat := b * (2 * m);
      assert r[p0 + k] == ButterflyValue(v, TwiddleTable(w, mod, Pow2(L - 1)), p0, p0 + k, m, e, mod);
      var k' := if k < m then k else k - m;
      assert LevelAt(v, a, w, L, s, mod, 2 * b, k') && LevelAt(v, a, w, L, s, mod, 2 * b + 1, k');
      StepEntry(v, r, a, w, L, s, mod, m, e, b, p0, k);
    }
  }

  /** The stages from s on take a vector at level s to level L + 1. */
  lemma {:induction false} LevelsAll(v: seq<int>, a: seq<int>, w: int, L: nat, s: nat, mod: int)
    requires mod > 0 && 1 <= L && 1 <= s <= L + 1 && HalfTurn(w, Pow2(L - 1), mod) && Level(v, a, w, L, s, mod)
    ensures Level(Stages(v, TwiddleTable(w, mod, Pow2(L - 1)), L, s, mod), a, w, L, L + 1, mod)
    decreases L + 1 - s
  {
    var T := TwiddleTable(w, mod, Pow2(L - 1));
    if s <= L {
      StagesStep(v, T, L, s, mod);
      LevelStep(v, a, w, L, s, mod);
      LevelsAll(StageFrom(v, T, 0, Pow2(s - 1), Pow2(L - s), mod), a, w, L, s + 1, mod);
    } else {
      assert Stages(v, T, L, s, mod) == v;
    }
  }

  /** Before the first stage each block holds one entry: the bit reversal of the input. */
  lemma InitialLevel(a: seq<int>, w: int, L: nat, mod: int)
    requires mod > 0 && |a| == Pow2(L)
    ensures Level(BitReversed(a, L), a, w, L, 1, mod)
  {
    var v := BitReversed(a, L);
    forall b: nat, k: nat
      ensures LevelAt(v, a, w, L, 1, mod, b, k)
    {
      InitialAt(v, a, w, L, mod, b, k);
    }
  }

  lemma InitialAt(v: seq<int>, a: seq<int>, w: int, L: nat, mod: int, b: nat, k: nat)
    requires mod > 0 && |a| == Pow2(L) && v == BitReversed(a, L)
    ensures LevelAt(v, a, w, L, 1, mod, b, k)
  {
    if b < Pow2(L) && k < 1 {
      var c := ReversedBits(b, L);
      assert Pow2(L) * 0 * 0 == 0;
      assert Strided(a, c, Pow2(L), 1, w, 0) == a[c];
    }
  }

  /** The transform of length m with stride 1 from offset 0 is the first m terms of the
      quadratic transform. */
  lemma {:induction false} StridedIsDftSum(a: seq<int>, w: int, k: nat, m: nat)
    requires m <= |a|
    ensures Strided(a, 0, 1, m, w, k) == DftSum(a, w, k, m)
  {
    if m > 0 {
      StridedIsDftSum(a, w, k, m - 1);
      MulComm(m - 1, k);
      assert 0 + 1 * (m - 1) == m - 1;
    }
  }

  /** After the last stage, entry k holds entry k of the transform, up to residue. */
  lemma FinalAt(v: seq<int>, a: seq<int>, w: int, L: nat, mod: int, k: nat)
    requires mod > 0 && Level(v, a, w, L, L + 1, mod) && k < |a|
    ensures v[k] % mod == DftSum(a, w, k, |a|) % mod
  {
    assert LevelAt(v, a, w, L, L + 1, mod, 0, k);
    assert ReversedBits(0, 0) == 0 && L + 1 - (L + 1) == 0;
    StridedIsDftSum(a, w, k, |a|);
  }

  /** transform_radix_2 computes the quadratic transform when root^(n/2) is congruent to -1. */
  lemma Radix2IsDft(a: seq<int>, root: int, mod: int)
    requires IsPowerOfTwo(|a|) && |a| >= 2 && mod > 0 && HalfTurn(root, |a| / 2, mod)
    ensures Radix2(a, root, mod) == Dft(a, root, mod)
  {
    PowerOfTwoBitLength(|a|);
    var L: nat := BitLength(|a|) - 1;
    assert L >= 1 && Pow2(L) == 2 * Pow2(L - 1);
    InitialLevel(a, root, L, mod);
    LevelsAll(BitReversed(a, L), a, root, L, 1, mod);
    Radix2InRange(a, root, mod);
    FinalLevel(Radix2(a, root, mod), a, root, L, mod);
  }

  /** A vector of residues at level L + 1 is the quadratic transform. */
  lemma FinalLevel(v: seq<int>, a: seq<int>, w: int, L: nat, mod: int)
    requires mod > 0 && Level(v, a, w, L, L + 1, mod)
    requires forall p :: 0 <= p < |v| ==> 0 <= v[p] < mod
    ensures v == Dft(a, w, mod)
  {
    forall k | 0 <= k < |a|
      ensures v[k] == Dft(a, w, mod)[k]
    {
      FinalAt(v, a, w, L, mod, k);
      DivModUnique(v[k], mod, 0, v[k]);
    }
  }

  /** Modulo a prime, a root of order exactly n (n even) has root^(n/2) congruent to -1: its
      square is 1, so it is 1 or -1, and 1 would make the order n/2. */
  lemma OrderHalfTurn(w: int, n: nat, mod: int)
    requires Prime(mod) && n % 2 == 0 && OrderIs(w, n, mod)
    ensures HalfTurn(w, n / 2, mod)
  {
    var h := n / 2;
    var x := PowMod(w, h, mod);
    SquareOfHalf(w, h, mod);
    assert h + h == n;
    SquareRootOfOne(x, mod);
    if x == 1 {
      assert false;
    }
    var P := Pow(w, h);
    DivModIdentity(P, mod);
    ModAddMultiple(x + 1, P / mod, mod);
  }

  /** The square of w^h is w^(h + h), up to residue. */
  lemma SquareOfHalf(w: int, h: nat, mod: int)
    requires mod > 0
    ensures (PowMod(w, h, mod) * PowMod(w, h, mod)) % mod == PowMod(w, h + h, mod)
  {
    var P := Pow(w, h);
    var x := P % mod;
    PowAdd(w, h, h);
    DivModUnique(x, mod, 0, x);
    MulModCongruent(x, P, x, mod);
    MulModCongruent(x, P, P, mod);
    assert x * P == P * x;
  }

  /** Modulo a prime, a residue whose square is 1 is 1 or -1. */
  lemma SquareRootOfOne(x: int, mod: int)
    requires Prime(mod) && 0 <= x < mod && (x * x) % mod == 1
    ensures x == 1 || (x + 1) % mod == 0
  {
    var q := (x * x) / mod;
    DivModIdentity(x * x, mod);
    if x == 0 {
      assert false;
    }
    SquareLessOne(x, mod, q);
    ModAddMultiple(0, q, mod);
    assert Divides(mod, (x - 1) * (x + 1));
    Euclid(mod, x - 1, x + 1);
    if Divides(mod, x - 1) {
      DivModUnique(x - 1, mod, 0, x - 1);
    }
  }

  lemma SquareLessOne(x: int, mod: int, q: int)
    requires x * x == mod * q + 1
    ensures (x - 1) * (x + 1) == 0 + mod * q
  {
  }

  /** transform_radix_2 computes the quadratic transform for a root of order exactly n modulo
      a prime. */
  lemma Radix2IsDftPrime(a: seq<int>, root: int, mod: int)
    requires IsPowerOfTwo(|a|) && |a| >= 2 && Prime(mod) && OrderIs(root, |a|, mod)
    ensures Radix2(a, root, mod) == Dft(a, root, mod)
  {
    PowerOfTwoBitLength(|a|);
    assert |a| == 2 * Pow2(BitLength(|a|) - 2);
    OrderHalfTurn(root, |a|, mod);
    Radix2IsDft(a, root, mod);
  }

  /** On the inputs transform accepts, with a root of order exactly n modulo a prime,
      transform_radix_2 computes what transform computes, for every power-of-two length: a
      vector of length 1, left as it is, already holds its transform. */
  lemma Radix2IsTransform(a: seq<int>, root: int, mod: int)
    requires IsPowerOfTwo(|a|) && Prime(mod) && OrderIs(root, |a|, mod) && TransformArguments(a, root, mod)
    ensures Radix2(a, root, mod) == Dft(a, root, mod)
  {
    if |a| == 1 {
      Radix2InRange(a, root, mod);
      assert a[0] in a;
      assert DftSum(a, root, 0, 1) == a[0] * Pow(root, 0);
      DivModUnique(a[0], mod, 0, a[0]);
    } else {
      Radix2IsDftPrime(a, root, mod);
    }
  }

  /** The twiddle index k e of butterfly k lies in the table of m e factors. */
  lemma SlotBelow(k: nat, m: nat, e: nat)
    requires k < m && e > 0
    ensures 0 <= k * e < m * e
  {
    TwiddleIndex(k, m, e);
  }

  lemma DoubleProduct(e: int, m: int, h: int)
    requires m * e == h
    ensures (2 * e) * m == 2 * h
  {
  }

  lemma NonNegative(x: nat, y: nat)
    ensures x * y >= 0
  {
  }

  lemma MulComm(x: int, y: int)
    ensures x * y == y * x
  {
  }

  /** Congruent halves give congruent combinations. */
  lemma RepeatedHalves(E2: int, E: int, O2: int, O: int, W: int, mod: int)
    requires mod > 0 && E2 % mod == E % mod && O2 % mod == O % mod
    ensures (E2 + W * O2) % mod == (E + W * O) % mod
  {
    MulModCongruent(O2, O, W, mod);
    assert O2 * W == W * O2 && O * W == W * O;
    SumCongruent(E2, E, W * O2, W * O, mod);
  }
}
