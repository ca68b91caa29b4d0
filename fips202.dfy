/** CompactFIPS202.py: the Keccak-f[1600] permutation on a 5 x 5 array of 64-bit
    lanes (indexed lanes[x][y], as the Python code does), its byte interface, the
    sponge construction, and the SHAKE / SHA-3 wrappers of FIPS 202. Lanes are
    Python integers, kept below 2^64 by every step. */
module CompactFips202 {
  import opened Common
  import opened Bits

  type Lanes = seq<seq<nat>>

  /** 2^64, the modulus of ROL64. */
  const LaneModulus: nat := 0x1_0000_0000_0000_0000

  lemma Pow2Of64()
    ensures Pow2(64) == LaneModulus
  {
    Pow2Of32();
    Pow2Add(32, 32);
  }

  lemma Pow2Of32()
    ensures Pow2(32) == 0x1_0000_0000
  {
    Pow2Of8();
    Pow2Add(8, 8);
    Pow2Add(16, 16);
  }

  lemma Pow2Of8()
    ensures Pow2(8) == 0x100
  {
  }

  predicate Shaped(a: Lanes)
  {
    |a| == 5 && forall x :: 0 <= x < 5 ==> |a[x]| == 5
  }

  /** Every lane is a 64-bit value. */
  predicate Bounded(a: Lanes)
  {
    Shaped(a) && forall x, y :: 0 <= x < 5 && 0 <= y < 5 ==> a[x][y] < LaneModulus
  }

  /** lanes[x][y] = v. */
  function SetLane(a: Lanes, x: nat, y: nat, v: nat): (r: Lanes)
    requires Shaped(a) && x < 5 && y < 5
    ensures Shaped(r)
  {
    var row: seq<nat> := a[x][y := v];
    a[x := row]
  }

  lemma SameLanes(a: Lanes, b: Lanes)
    requires Shaped(a) && Shaped(b)
    requires forall x, y :: 0 <= x < 5 && 0 <= y < 5 ==> a[x][y] == b[x][y]
    ensures a == b
  {
    assert forall x :: 0 <= x < 5 ==> a[x] == b[x];
  }

  // ---------------------------------------------------------------------------
  // ROL64
  // ---------------------------------------------------------------------------

  /** ROL64: the 64-bit rotation of a to the left by n mod 64 places. */
  function Rol64(a: nat, n: nat): (r: nat)
    ensures r < LaneModulus
  {
    (a / Pow2(64 - n % 64) + a * Pow2(n % 64)) % LaneModulus
  }

  /** For a < p q: adding the top part a / p to a q, modulo p q, moves the low part a % p up
      by the factor q and brings the top part down to the bottom. */
  lemma RotateSplit(a: nat, p: nat, q: nat)
    requires p > 0 && q > 0 && a < p * q
    ensures (a / p + a * q) % (p * q) == (a % p) * q + a / p
  {
    var hi, lo := a / p, a % p;
    var pq, rest := p * q, lo * q + hi;
    SplitParts(a, p, q);
    assert hi + a * q == pq * hi + rest;
    DivModUnique(hi + a * q, pq, hi, rest);
  }

  /** The parts of a = p hi + lo, with a < p q, as RotateSplit uses them. */
  lemma SplitParts(a: nat, p: nat, q: nat)
    requires p > 0 && q > 0 && a < p * q
    ensures a / p < q
    ensures a * q == (p * q) * (a / p) + (a % p) * q
    ensures (a % p) * q + a / p < p * q
  {
    var hi, lo := a / p, a % p;
    assert a == p * hi + lo;
    assert hi < q by {
      if hi >= q {
        MulMonotone(p, q, hi);
      }
    }
    assert a * q == (p * q) * hi + lo * q by {
      assert a * q == (p * hi) * q + lo * q;
      MulAssoc(p, hi, q);
      MulAssoc(p, q, hi);
    }
    assert lo * q <= (p - 1) * q by {
      MulMonotone(q, lo, p - 1);
    }
    assert (p - 1) * q == p * q - q;
  }

  /** For a 64-bit lane and s < 64, the low 64 - s bits move up by s places and the top s bits
      wrap around to the bottom. */
  lemma Rol64Meaning(a: nat, s: nat)
    requires a < LaneModulus && s < 64
    ensures Rol64(a, s) == (a % Pow2(64 - s)) * Pow2(s) + a / Pow2(64 - s)
  {
    var p, q := Pow2(64 - s), Pow2(s);
    Pow2Of64();
    Pow2Add(64 - s, s);
    assert p * q == LaneModulus;
    RotateSplit(a, p, q);
    assert s % 64 == s;
    assert Rol64(a, s) == (a / p + a * q) % LaneModulus;
  }

  /** Rotating a 64-bit lane by 0 leaves it unchanged. */
  lemma Rol64Zero(a: nat)
    requires a < LaneModulus
    ensures Rol64(a, 0) == a
  {
    Rol64Meaning(a, 0);
    Pow2Of64();
    DivModUnique(a, LaneModulus, 0, a);
  }

  lemma Rol64OfZero(n: nat)
    ensures Rol64(0, n) == 0
  {
  }

  /** A rotated value lo q + hi (hi < q) splits back into lo and hi, and moving them back
      restores the original. */
  lemma RotateBack(a: nat, p: nat, q: nat)
    requires p > 0 && q > 0 && a < p * q
    ensures var b := (a % p) * q + a / p; (b % q) * p + b / q == a
  {
    var hi, lo := a / p, a % p;
    assert a == p * hi + lo;
    assert hi < q by {
      if hi >= q {
        MulMonotone(p, q, hi);
      }
    }
    DivModUnique(lo * q + hi, q, lo, hi);
  }

  /** Rotating left by s and then by 64 - s restores a 64-bit lane. */
  lemma Rol64Inverse(a: nat, s: nat)
    requires a < LaneModulus && 0 < s < 64
    ensures Rol64(Rol64(a, s), 64 - s) == a
  {
    var p, q := Pow2(64 - s), Pow2(s);
    Pow2Of64();
    Pow2Add(64 - s, s);
    Rol64Meaning(a, s);
    Rol64Meaning(Rol64(a, s), 64 - s);
    RotateBack(a, p, q);
  }

  // ---------------------------------------------------------------------------
  // theta
  // ---------------------------------------------------------------------------

  /** C[x]: the parity of column x, the xor of its five lanes. */
  function Parity(a: Lanes, x: nat): nat
    requires Shaped(a) && x < 5
  {
    Xor(Xor(Xor(Xor(a[x][0], a[x][1]), a[x][2]), a[x][3]), a[x][4])
  }

  /** D[x]: the value xored into every lane of column x. */
  function ThetaEffect(a: Lanes, x: nat): nat
    requires Shaped(a) && x < 5
  {
    Xor(Parity(a, (x + 4) % 5), Rol64(Parity(a, (x + 1) % 5), 1))
  }

  function Theta(a: Lanes): (r: Lanes)
    requires Shaped(a)
    ensures Shaped(r)
  {
    seq(5, x requires 0 <= x < 5 => seq(5, y requires 0 <= y < 5 => ThetaLane(a, x, y)))
  }

  function ThetaLane(a: Lanes, x: nat, y: nat): nat
    requires Shaped(a) && x < 5 && y < 5
  {
    Xor(a[x][y], ThetaEffect(a, x))
  }

  /** A state whose columns all have even parity is a fixed point of theta. */
  lemma ThetaKernel(a: Lanes)
    requires Shaped(a) && forall x :: 0 <= x < 5 ==> Parity(a, x) == 0
    ensures Theta(a) == a
  {
    Rol64OfZero(1);
    forall x, y | 0 <= x < 5 && 0 <= y < 5
      ensures Theta(a)[x][y] == a[x][y]
    {
      assert ThetaEffect(a, x) == 0;
      XorZero(a[x][y]);
    }
    SameLanes(Theta(a), a);
  }

  /** theta xors the same value into all lanes of a column: the xor of two lanes of one column
      is unchanged. */
  lemma ThetaColumnDifference(a: Lanes, x: nat, y: nat, y': nat)
    requires Shaped(a) && x < 5 && y < 5 && y' < 5
    ensures Xor(Theta(a)[x][y], Theta(a)[x][y']) == Xor(a[x][y], a[x][y'])
  {
    var d := ThetaEffect(a, x);
    var u, v := a[x][y], a[x][y'];
    calc {
      Xor(Xor(u, d), Xor(v, d));
      { XorAssoc(u, d, Xor(v, d)); }
      Xor(u, Xor(d, Xor(v, d)));
      { XorComm(v, d); XorAssoc(d, d, v); XorSelf(d); XorZero(v); }
      Xor(u, v);
    }
  }

  lemma XorLane(a: nat, b: nat)
    requires a < LaneModulus && b < LaneModulus
    ensures Xor(a, b) < LaneModulus
  {
    Pow2Of64();
    XorBound(a, b, 64);
  }

  lemma ParityBounded(a: Lanes, x: nat)
    requires Bounded(a) && x < 5
    ensures Parity(a, x) < LaneModulus
  {
    XorLane(a[x][0], a[x][1]);
    XorLane(Xor(a[x][0], a[x][1]), a[x][2]);
    XorLane(Xor(Xor(a[x][0], a[x][1]), a[x][2]), a[x][3]);
    XorLane(Xor(Xor(Xor(a[x][0], a[x][1]), a[x][2]), a[x][3]), a[x][4]);
  }

  lemma ThetaBounded(a: Lanes)
    requires Bounded(a)
    ensures Bounded(Theta(a))
  {
    forall x, y | 0 <= x < 5 && 0 <= y < 5
      ensures Theta(a)[x][y] < LaneModulus
    {
      ParityBounded(a, (x + 4) % 5);
      XorLane(Parity(a, (x + 4) % 5), Rol64(Parity(a, (x + 1) % 5), 1));
      XorLane(a[x][y], ThetaEffect(a, x));
    }
  }

  // ---------------------------------------------------------------------------
  // rho and pi
  // ---------------------------------------------------------------------------

  /** The rotation offsets of rho (Table 2 of FIPS 202), indexed [x][y]. */
  const RhoOffsets: seq<seq<nat>> :=
    [[0, 36, 3, 41, 18], [1, 44, 10, 45, 2], [62, 6, 43, 15, 61], [28, 55, 25, 21, 56], [27, 20, 39, 8, 14]]

  /** Lane (x, y) after rho and pi: pi moves lane (x', y') to (y', 2x' + 3y'), so (x, y) receives
      lane (x + 3y, x), rotated by its rho offset. */
  function RhoPiLane(a: Lanes, x: nat, y: nat): nat
    requires Shaped(a) && x < 5 && y < 5
  {
    var sx := (x + 3 * y) % 5;
    Rol64(a[sx][x], RhoOffsets[sx][x])
  }

  function RhoPi(a: Lanes): (r: Lanes)
    requires Shaped(a)
    ensures Bounded(r)
  {
    seq(5, x requires 0 <= x < 5 => seq(5, y requires 0 <= y < 5 => RhoPiLane(a, x, y)))
  }

  /** The step of the walk at which lane (x, y) is written; (0, 0) is never written (24). */
  const StepOf: seq<seq<nat>> :=
    [[24, 6, 0, 12, 18], [23, 22, 2, 7, 9], [17, 1, 16, 3, 20], [5, 8, 15, 4, 13], [11, 21, 19, 14, 10]]

  /** The lane written at each step of the walk (step 24: lane (0, 0)). */
  const WrittenX: seq<nat> := [0, 2, 1, 2, 3, 3, 0, 1, 3, 1, 4, 4, 0, 3, 4, 3, 2, 2, 0, 4, 2, 4, 1, 1, 0]
  const WrittenY: seq<nat> := [2, 1, 2, 3, 3, 0, 1, 3, 1, 4, 4, 0, 3, 4, 3, 2, 2, 0, 4, 2, 4, 1, 1, 0, 0]

  /** The rotation used at step t of the walk. */
  function Tri(t: nat): nat
  {
    (t + 1) * (t + 2) / 2
  }

  /** The walk stands on (1, 0) at the start and afterwards on the lane written at step t - 1. */
  predicate WalkAt(x: nat, y: nat, t: nat)
    requires x < 5 && y < 5
  {
    if t == 0 then x == 1 && y == 0 else StepOf[x][y] == t - 1
  }

  /** From the walk position at step t, the next position (y, 2x + 3y) is the lane written at t. */
  lemma WalkNext(x: nat, y: nat, t: nat)
    requires x < 5 && y < 5 && t < 24 && WalkAt(x, y, t)
    ensures StepOf[y][(2 * x + 3 * y) % 5] == t
  {
    match (x, y)
    case (0, 0) =>
    case (0, 1) =>
    case (0, 2) =>
    case (0, 3) =>
    case (0, 4) =>
    case (1, 0) =>
    case (1, 1) =>
    case (1, 2) =>
    case (1, 3) =>
    case (1, 4) =>
    case (2, 0) =>
    case (2, 1) =>
    case (2, 2) =>
    case (2, 3) =>
    case (2, 4) =>
    case (3, 0) =>
    case (3, 1) =>
    case (3, 2) =>
    case (3, 3) =>
    case (3, 4) =>
    case (4, 0) =>
    case (4, 1) =>
    case (4, 2) =>
    case (4, 3) =>
    case (4, 4) =>
  }

  /** The lane carried at step t has the rho offset (t + 1)(t + 2) / 2 mod 64. */
  lemma WalkOffset(x: nat, y: nat, t: nat)
    requires x < 5 && y < 5 && t < 24 && WalkAt(x, y, t)
    ensures RhoOffsets[x][y] == Tri(t) % 64
  {
    match (x, y)
    case (0, 0) =>
    case (0, 1) =>
    case (0, 2) =>
    case (0, 3) =>
    case (0, 4) =>
    case (1, 0) =>
    case (1, 1) =>
    case (1, 2) =>
    case (1, 3) =>
    case (1, 4) =>
    case (2, 0) =>
    case (2, 1) =>
    case (2, 2) =>
    case (2, 3) =>
    case (2, 4) =>
    case (3, 0) =>
    case (3, 1) =>
    case (3, 2) =>
    case (3, 3) =>
    case (3, 4) =>
    case (4, 0) =>
    case (4, 1) =>
    case (4, 2) =>
    case (4, 3) =>
    case (4, 4) =>
  }

  /** Each lane is written at one step only. */
  lemma StepOfInverse(x: nat, y: nat)
    requires x < 5 && y < 5
    ensures StepOf[x][y] < 25 && WrittenX[StepOf[x][y]] == x && WrittenY[StepOf[x][y]] == y
  {
    match (x, y)
    case (0, 0) =>
    case (0, 1) =>
    case (0, 2) =>
    case (0, 3) =>
    case (0, 4) =>
    case (1, 0) =>
    case (1, 1) =>
    case (1, 2) =>
    case (1, 3) =>
    case (1, 4) =>
    case (2, 0) =>
    case (2, 1) =>
    case (2, 2) =>
    case (2, 3) =>
    case (2, 4) =>
    case (3, 0) =>
    case (3, 1) =>
    case (3, 2) =>
    case (3, 3) =>
    case (3, 4) =>
    case (4, 0) =>
    case (4, 1) =>
    case (4, 2) =>
    case (4, 3) =>
    case (4, 4) =>
  }

  /** pi moves lane (x, y) to (y, 2x + 3y); the lane landing on (X, Y) comes from (X + 3Y, X). */
  lemma PiInverse(x: nat, y: nat)
    requires x < 5
    ensures (y + 3 * ((2 * x + 3 * y) % 5)) % 5 == x
  {
    var q := (2 * x + 3 * y) / 5;
    var m := (2 * x + 3 * y) % 5;
    assert y + 3 * m == x + 5 * (x + 2 * y - 3 * q);
  }

  /** The lanes written before step t of the walk hold their rho-pi value; the others are the
      original ones. */
  ghost predicate WalkedTo(a: Lanes, lanes: Lanes, t: nat)
    requires Shaped(a) && Shaped(lanes)
  {
    forall x, y {:trigger lanes[x][y]} :: 0 <= x < 5 && 0 <= y < 5 ==>
      lanes[x][y] == if StepOf[x][y] < t then RhoPiLane(a, x, y) else a[x][y]
  }

  lemma Rol64Mod(a: nat, n: nat)
    ensures Rol64(a, n) == Rol64(a, n % 64)
  {
    assert (n % 64) % 64 == n % 64;
  }

  /** One step of the walk from (x0, y0) to (x1, y1): the lane at (x1, y1) is still the original
      one, and writing the rotated current lane there extends the walked part by one step. */
  lemma WalkStepLanes(a: Lanes, lanes: Lanes, t: nat, x0: nat, y0: nat, x1: nat, y1: nat, current: nat)
    requires Shaped(a) && Shaped(lanes) && t < 24 && x0 < 5 && y0 < 5 && x1 < 5 && y1 < 5
    requires x1 == y0 && (x1 + 3 * y1) % 5 == x0
    requires StepOf[x1][y1] == t && RhoOffsets[x0][y0] == Tri(t) % 64
    requires WalkedTo(a, lanes, t) && current == a[x0][y0]
    ensures lanes[x1][y1] == a[x1][y1]
    ensures WalkedTo(a, SetLane(lanes, x1, y1, Rol64(current, Tri(t))), t + 1)
  {
    Rol64Mod(current, Tri(t));
    assert RhoPiLane(a, x1, y1) == Rol64(current, Tri(t));
    StepOfInverse(x1, y1);
    var next := SetLane(lanes, x1, y1, Rol64(current, Tri(t)));
    forall x, y | 0 <= x < 5 && 0 <= y < 5
      ensures next[x][y] == if StepOf[x][y] < t + 1 then RhoPiLane(a, x, y) else a[x][y]
    {
      if x == x1 && y == y1 {
      } else {
        assert next[x][y] == lanes[x][y];
        StepOfInverse(x, y);
        assert StepOf[x][y] != t;
      }
    }
  }

  /** After all 24 steps every lane but (0, 0) is written, and (0, 0) has offset 0. */
  lemma WalkedAll(a: Lanes, lanes: Lanes)
    requires Bounded(a) && Shaped(lanes) && WalkedTo(a, lanes, 24)
    ensures lanes == RhoPi(a)
  {
    Rol64Zero(a[0][0]);
    forall x, y | 0 <= x < 5 && 0 <= y < 5
      ensures lanes[x][y] == RhoPi(a)[x][y]
    {
      StepOfInverse(x, y);
      if (x, y) != (0, 0) {
        assert StepOf[x][y] != 24;
      }
    }
    SameLanes(lanes, RhoPi(a));
  }

  /** The rho-pi walk of KeccakF1600onLanes: starting at (1, 0), each step moves to
      (y, 2x + 3y), stores the carried lane there rotated by (t + 1)(t + 2) / 2, and picks up
      the lane it overwrote. */
  method RhoPiWalk(a: Lanes) returns (lanes: Lanes)
    requires Bounded(a)
    ensures lanes == RhoPi(a)
  {
    lanes := a;
    var x, y := 1, 0;
    var current := lanes[x][y];
    for t := 0 to 24
      invariant Shaped(lanes) && x < 5 && y < 5 && WalkAt(x, y, t)
      invariant current == a[x][y]
      invariant WalkedTo(a, lanes, t)
    {
      WalkNext(x, y, t);
      WalkOffset(x, y, t);
      PiInverse(x, y);
      WalkStepLanes(a, lanes, t, x, y, y, (2 * x + 3 * y) % 5, current);
      x, y := y, (2 * x + 3 * y) % 5;
      current, lanes := lanes[x][y], SetLane(lanes, x, y, Rol64(current, (t + 1) * (t + 2) / 2));
    }
    WalkedAll(a, lanes);
  }

  // ---------------------------------------------------------------------------
  // chi
  // ---------------------------------------------------------------------------

  /** chi: each lane is xored with the lane two columns on, masked by the complement of the
      lane one column on, all in the same row. */
  function Chi(a: Lanes): (r: Lanes)
    requires Shaped(a)
    ensures Shaped(r)
  {
    seq(5, x requires 0 <= x < 5 => seq(5, y requires 0 <= y < 5 => ChiLane(a, x, y)))
  }

  function ChiLane(a: Lanes, x: nat, y: nat): nat
    requires Shaped(a) && x < 5 && y < 5
  {
    Xor(a[x][y], AndNot(a[(x + 2) % 5][y], a[(x + 1) % 5][y]))
  }

  /** chi bit by bit: bit i of lane (x, y) flips exactly when bit i of lane (x + 1, y) is clear and
      bit i of lane (x + 2, y) is set. */
  lemma ChiBit(a: Lanes, x: nat, y: nat, i: nat)
    requires Shaped(a) && x < 5 && y < 5
    ensures Bit(Chi(a)[x][y], i) ==
      if Bit(a[(x + 1) % 5][y], i) == 0 && Bit(a[(x + 2) % 5][y], i) == 1
      then 1 - Bit(a[x][y], i) else Bit(a[x][y], i)
  {
    var u, v, w := a[x][y], a[(x + 1) % 5][y], a[(x + 2) % 5][y];
    assert Chi(a)[x][y] == ChiLane(a, x, y) == Xor(u, AndNot(w, v));
    XorBit(u, AndNot(w, v), i);
    AndNotBit(w, v, i);
    var bu, bv, bw := Bit(u, i), Bit(v, i), Bit(w, i);
    assert Bit(AndNot(w, v), i) == if bw == 1 && bv == 0 then 1 else 0;
  }

  lemma ChiBounded(a: Lanes)
    requires Bounded(a)
    ensures Bounded(Chi(a))
  {
    forall x, y | 0 <= x < 5 && 0 <= y < 5
      ensures Chi(a)[x][y] < LaneModulus
    {
      AndNotBound(a[(x + 2) % 5][y], a[(x + 1) % 5][y]);
      XorLane(a[x][y], AndNot(a[(x + 2) % 5][y], a[(x + 1) % 5][y]));
    }
  }

  /** The rows before y, and the lanes of row y before column x, hold their chi value. */
  ghost predicate ChiDoneTo(a: Lanes, lanes: Lanes, y: nat, x: nat)
    requires Shaped(a) && Shaped(lanes)
  {
    forall x', y' {:trigger lanes[x'][y']} :: 0 <= x' < 5 && 0 <= y' < 5 ==>
      lanes[x'][y'] == if y' < y || (y' == y && x' < x) then Chi(a)[x'][y'] else a[x'][y']
  }

  /** The chi loops of KeccakF1600onLanes: row by row, copy the row to T and rewrite its lanes
      from T. */
  method ChiRows(a: Lanes) returns (lanes: Lanes)
    requires Shaped(a)
    ensures lanes == Chi(a)
  {
    lanes := a;
    for y := 0 to 5
      invariant Shaped(lanes) && ChiDoneTo(a, lanes, y, 0)
    {
      var t := seq(5, x requires 0 <= x < 5 => lanes[x][y]);
      assert forall x :: 0 <= x < 5 ==> t[x] == a[x][y];
      for x := 0 to 5
        invariant Shaped(lanes) && ChiDoneTo(a, lanes, y, x)
      {
        lanes := SetLane(lanes, x, y, Xor(t[x], AndNot(t[(x + 2) % 5], t[(x + 1) % 5])));
      }
    }
    SameLanes(lanes, Chi(a));
  }

  // ---------------------------------------------------------------------------
  // iota
  // ---------------------------------------------------------------------------

  /** One step of the LFSR of FIPS 202 Algorithm 5, with R[i] kept in bit i: shift up, and fold
      the bit that falls out back into bits 0, 4, 5 and 6. */
  function NextR(r: nat): (r': nat)
    ensures r' < 256
  {
    Xor(2 * r, (r / 128) * 0x71) % 256
  }

  /** The LFSR state after t steps from 1. */
  function Lfsr(t: nat): (r: nat)
    ensures r < 256
  {
    if t == 0 then 1 else NextR(Lfsr(t - 1))
  }

  /** rc(t) of FIPS 202 Algorithm 5: bit 0 of the LFSR after t steps. */
  predicate Rc(t: nat)
  {
    Lfsr(t) % 2 == 1
  }

  /** 1 << ((1 << j) - 1): bit 2^j - 1 of a lane, the only bits a round constant can set. */
  function IotaBit(j: nat): nat
    requires j < 7
  {
    Pow2(Pow2(j) - 1)
  }

  /** The first j bits of the round constant of round i (FIPS 202 Algorithm 6). */
  function RoundConstantBits(i: nat, j: nat): nat
    requires j <= 7
  {
    if j == 0 then 0
    else if Rc(7 * i + (j - 1)) then Xor(RoundConstantBits(i, j - 1), IotaBit(j - 1))
    else RoundConstantBits(i, j - 1)
  }

  function RoundConstant(i: nat): nat
  {
    RoundConstantBits(i, 7)
  }

  /** The state with lane (0, 0) replaced by v. */
  function WithLane00(a: Lanes, v: nat): (r: Lanes)
    requires Shaped(a)
    ensures Shaped(r)
  {
    SetLane(a, 0, 0, v)
  }

  function Iota(a: Lanes, i: nat): (r: Lanes)
    requires Shaped(a)
    ensures Shaped(r)
  {
    WithLane00(a, Xor(a[0][0], RoundConstant(i)))
  }

  lemma ModDivBit(v: nat)
    ensures ((v % 256) / 2) % 2 == (v / 2) % 2
  {
    var q, m := v / 256, v % 256;
    DivModUnique(v, 2, 128 * q + m / 2, m % 2);
    DivModUnique(128 * q + m / 2, 2, 64 * q + (m / 2) / 2, (m / 2) % 2);
  }

  /** Bit 1 of the next LFSR state is bit 0 of the current one. */
  lemma NextRBit(r: nat)
    requires r < 256
    ensures (NextR(r) / 2) % 2 == r % 2
  {
    var c := (r / 128) * 0x71;
    assert c / 2 == (r / 128) * 0x38 && (c / 2) % 2 == 0;
    XorSplit(2 * r, c);
    assert (2 * r) / 2 == r;
    XorSplit(r, c / 2);
    ModDivBit(Xor(2 * r, c));
  }

  /** The state after the first j iota bits of round i have been applied. */
  function IotaPartial(a: Lanes, i: nat, j: nat): (r: Lanes)
    requires Shaped(a) && j <= 7
    ensures Shaped(r)
  {
    WithLane00(a, Xor(a[0][0], RoundConstantBits(i, j)))
  }

  /** One step of the iota loop, on the lanes: when rc(7i + j) holds, bit 2^j - 1 of lane (0, 0)
      flips; the state then carries the first j + 1 constant bits. */
  lemma IotaStepLanes(a: Lanes, i: nat, j: nat)
    requires Shaped(a) && j < 7
    ensures var b := IotaPartial(a, i, j);
      (if Rc(7 * i + j) then WithLane00(b, Xor(b[0][0], IotaBit(j))) else b) == IotaPartial(a, i, j + 1)
  {
    var c := RoundConstantBits(i, j);
    if Rc(7 * i + j) {
      assert RoundConstantBits(i, j + 1) == Xor(c, IotaBit(j));
      XorAssoc(a[0][0], c, IotaBit(j));
      var u := Xor(a[0][0], c);
      assert WithLane00(a, u)[0][0 := Xor(u, IotaBit(j))] == a[0][0 := Xor(u, IotaBit(j))];
    } else {
      assert RoundConstantBits(i, j + 1) == c;
    }
  }

  /** The iota loop of KeccakF1600onLanes for round i: seven LFSR steps, each flipping bit 2^j - 1
      of lane (0, 0) when bit 1 of the new LFSR state is set. */
  method IotaSteps(a: Lanes, r0: nat, ghost i: nat) returns (lanes: Lanes, r: nat)
    requires Shaped(a) && r0 == Lfsr(7 * i)
    ensures lanes == Iota(a, i) && r == Lfsr(7 * (i + 1))
  {
    lanes := a;
    r := r0;
    XorZero(a[0][0]);
    assert a[0][0 := a[0][0]] == a[0];
    ghost var t := 7 * i;
    assert r == Lfsr(t + 0);
    for j := 0 to 7
      invariant r == Lfsr(t + j)
      invariant lanes == IotaPartial(a, i, j)
    {
      IotaStep(a, i, j, t, r, lanes);
      r := NextR(r);
      if (r / 2) % 2 == 1 {
        lanes := SetLane(lanes, 0, 0, Xor(lanes[0][0], IotaBit(j)));
      }
    }
    assert t + 7 == 7 * (i + 1);
  }

  /** The iota loop's body keeps its invariant. */
  lemma IotaStep(a: Lanes, i: nat, j: nat, t: nat, r: nat, lanes: Lanes)
    requires Shaped(a) && j < 7 && t == 7 * i && r == Lfsr(t + j) && lanes == IotaPartial(a, i, j)
    ensures NextR(r) == Lfsr(t + (j + 1))
    ensures (if (NextR(r) / 2) % 2 == 1 then SetLane(lanes, 0, 0, Xor(lanes[0][0], IotaBit(j))) else lanes)
         == IotaPartial(a, i, j + 1)
  {
    NextRBit(r);
    assert t + j == 7 * i + j;
    assert Rc(7 * i + j) == ((NextR(r) / 2) % 2 == 1);
    IotaStepLanes(a, i, j);
    LfsrStep(t, j);
  }

  lemma LfsrStep(t: nat, j: nat)
    ensures Lfsr(t + (j + 1)) == NextR(Lfsr(t + j))
  {
    assert t + (j + 1) == (t + j) + 1;
  }

  lemma {:induction false} RoundConstantBounded(i: nat, j: nat)
    requires j <= 7
    ensures RoundConstantBits(i, j) < LaneModulus
  {
    if j > 0 {
      RoundConstantBounded(i, j - 1);
      IotaBitBound(j - 1);
      XorLane(RoundConstantBits(i, j - 1), IotaBit(j - 1));
    }
  }

  lemma IotaBitBound(j: nat)
    requires j < 7
    ensures IotaBit(j) < LaneModulus
  {
    Pow2Monotone(j, 6);
    assert Pow2(6) == 64;
    Pow2Monotone(Pow2(j) - 1, 63);
    Pow2Of64();
    assert Pow2(64) == 2 * Pow2(63);
  }

  lemma IotaBounded(a: Lanes, i: nat)
    requires Bounded(a)
    ensures Bounded(Iota(a, i))
  {
    RoundConstantBounded(i, 7);
    XorLane(a[0][0], RoundConstant(i));
  }

  // ---------------------------------------------------------------------------
  // Rounds
  // ---------------------------------------------------------------------------

  /** Round i of Keccak-f[1600]: theta, rho and pi, chi, iota. */
  function Round(a: Lanes, i: nat): (r: Lanes)
    requires Shaped(a)
    ensures Shaped(r)
  {
    Iota(Chi(RhoPi(Theta(a))), i)
  }

  /** The first n rounds. */
  function Rounds(a: Lanes, n: nat): (r: Lanes)
    requires Shaped(a)
    ensures Shaped(r)
  {
    if n == 0 then a else Round(Rounds(a, n - 1), n - 1)
  }

  /** Keccak-f[1600]: all 24 rounds. */
  function KeccakP(a: Lanes): (r: Lanes)
    requires Shaped(a)
    ensures Shaped(r)
  {
    Rounds(a, 24)
  }

  /** KeccakF1600onLanes: 24 rounds, with the LFSR state R carried from round to round. */
  method KeccakF1600OnLanes(a: Lanes) returns (lanes: Lanes)
    requires Bounded(a)
    ensures lanes == KeccakP(a) && Bounded(lanes)
  {
    lanes := a;
    var r := 1;
    for round := 0 to 24
      invariant Bounded(lanes) && lanes == Rounds(a, round) && r == Lfsr(7 * round)
    {
      ghost var before := lanes;
      ThetaBounded(lanes);
      lanes := Theta(lanes);
      lanes := RhoPiWalk(lanes);
      ChiBounded(lanes);
      lanes := ChiRows(lanes);
      IotaBounded(lanes, round);
      lanes, r := IotaSteps(lanes, r, round);
      assert lanes == Round(before, round);
    }
  }

  // ---------------------------------------------------------------------------
  // load64, store64 and the byte state
  // ---------------------------------------------------------------------------

  /** load64: the first eight bytes of b as a little-endian integer. */
  function Load64(b: seq<byte>): (r: nat)
    requires |b| >= 8
    ensures r < LaneModulus
  {
    var b0, b1, b2, b3, b4, b5, b6, b7: nat := b[0], b[1], b[2], b[3], b[4], b[5], b[6], b[7];
    b0 + 0x100 * b1 + 0x1_0000 * b2 + 0x100_0000 * b3 + 0x1_0000_0000 * b4 +
    0x100_0000_0000 * b5 + 0x1_0000_0000_0000 * b6 + 0x100_0000_0000_0000 * b7
  }

  /** store64: the eight little-endian bytes of the low 64 bits of a. */
  function Store64(a: nat): (r: seq<byte>)
    ensures |r| == 8
  {
    [a % 0x100, (a / 0x100) % 0x100, (a / 0x1_0000) % 0x100, (a / 0x100_0000) % 0x100,
     (a / 0x1_0000_0000) % 0x100, (a / 0x100_0000_0000) % 0x100, (a / 0x1_0000_0000_0000) % 0x100,
     (a / 0x100_0000_0000_0000) % 0x100]
  }

  /** store64 undoes load64. */
  lemma StoreLoad(b: seq<byte>)
    requires |b| == 8
    ensures Store64(Load64(b)) == b
  {
    var b0, b1, b2, b3, b4, b5, b6, b7: nat := b[0], b[1], b[2], b[3], b[4], b[5], b[6], b[7];
    var p7 := b7;
    var p6 := b6 + 0x100 * p7;
    var p5 := b5 + 0x100 * p6;
    var p4 := b4 + 0x100 * p5;
    var p3 := b3 + 0x100 * p4;
    var p2 := b2 + 0x100 * p3;
    var p1 := b1 + 0x100 * p2;
    var l := Load64(b);
    assert l == b0 + 0x100 * p1;
    DivModUnique(l, 0x100, p1, b0);
    DivModUnique(p1, 0x100, p2, b1);
    DivModUnique(p2, 0x100, p3, b2);
    DivModUnique(p3, 0x100, p4, b3);
    DivModUnique(p4, 0x100, p5, b4);
    DivModUnique(p5, 0x100, p6, b5);
    DivModUnique(p6, 0x100, p7, b6);
    DivModUnique(p7, 0x100, 0, b7);
    DivDiv(l, 0x100, 0x100);
    DivDiv(l, 0x1_0000, 0x100);
    DivDiv(l, 0x100_0000, 0x100);
    DivDiv(l, 0x1_0000_0000, 0x100);
    DivDiv(l, 0x100_0000_0000, 0x100);
    DivDiv(l, 0x1_0000_0000_0000, 0x100);
    assert Store64(l) == [b0, b1, b2, b3, b4, b5, b6, b7];
  }

  /** load64 undoes store64 on a 64-bit lane. */
  lemma LoadStore(a: nat)
    requires a < LaneModulus
    ensures Load64(Store64(a)) == a
  {
    var q1 := a / 0x100;
    var q2 := q1 / 0x100;
    var q3 := q2 / 0x100;
    var q4 := q3 / 0x100;
    var q5 := q4 / 0x100;
    var q6 := q5 / 0x100;
    var q7 := q6 / 0x100;
    DivDiv(a, 0x100, 0x100);
    DivDiv(a, 0x1_0000, 0x100);
    DivDiv(a, 0x100_0000, 0x100);
    DivDiv(a, 0x1_0000_0000, 0x100);
    DivDiv(a, 0x100_0000_0000, 0x100);
    DivDiv(a, 0x1_0000_0000_0000, 0x100);
    assert q7 == a / 0x100_0000_0000_0000 < 0x100;
    assert q6 == q6 % 0x100 + 0x100 * q7;
    assert q5 == q5 % 0x100 + 0x100 * q6;
    assert q4 == q4 % 0x100 + 0x100 * q5;
    assert q3 == q3 % 0x100 + 0x100 * q4;
    assert q2 == q2 % 0x100 + 0x100 * q3;
    assert q1 == q1 % 0x100 + 0x100 * q2;
    assert a == a % 0x100 + 0x100 * q1;
    var r0, r1, r2, r3 := a % 0x100, q1 % 0x100, q2 % 0x100, q3 % 0x100;
    var r4, r5, r6, r7 := q4 % 0x100, q5 % 0x100, q6 % 0x100, q7 % 0x100;
    assert q7 == r7;
    assert Store64(a) == [r0, r1, r2, r3, r4, r5, r6, r7];
    assert a == r0 + 0x100 * (r1 + 0x100 * (r2 + 0x100 * (r3 + 0x100 * (r4 + 0x100 * (r5 + 0x100 * (r6 + 0x100 * r7))))));
  }

  /** The byte offset of lane (x, y) in the 200-byte state, and its inverse. */
  lemma ByteIndexOf(x: nat, y: nat, k: nat)
    requires x < 5 && y < 5 && k < 8
    ensures var i := 8 * (x + 5 * y) + k; i < 200 && (i / 8) % 5 == x && i / 40 == y && i % 8 == k
  {
    var i := 8 * (x + 5 * y) + k;
    DivModUnique(i, 8, x + 5 * y, k);
    DivModUnique(x + 5 * y, 5, y, x);
    DivModUnique(i, 40, y, 8 * x + k);
  }

  lemma ByteIndex(i: nat)
    requires i < 200
    ensures (i / 8) % 5 < 5 && i / 40 < 5 && 8 * ((i / 8) % 5 + 5 * (i / 40)) + i % 8 == i
  {
    DivDiv(i, 8, 5);
  }

  /** Lane (x, y) of a byte state: load64 of bytes 8(x + 5y) to 8(x + 5y) + 8. */
  function LaneOf(s: seq<byte>, x: nat, y: nat): nat
    requires |s| >= 200 && x < 5 && y < 5
  {
    Load64(s[8 * (x + 5 * y)..8 * (x + 5 * y) + 8])
  }

  function BytesToLanes(s: seq<byte>): (r: Lanes)
    requires |s| >= 200
    ensures Bounded(r)
  {
    seq(5, x requires 0 <= x < 5 => seq(5, y requires 0 <= y < 5 => LaneOf(s, x, y)))
  }

  /** Byte i of the state that stores the lanes: byte i % 8 of lane (i / 8 % 5, i / 40). */
  function ByteOf(lanes: Lanes, i: nat): byte
    requires Shaped(lanes) && i < 200
  {
    Store64(lanes[(i / 8) % 5][i / 40])[i % 8]
  }

  function LanesToBytes(lanes: Lanes): (r: seq<byte>)
    requires Shaped(lanes)
    ensures |r| == 200
  {
    seq(200, i requires 0 <= i < 200 => ByteOf(lanes, i))
  }

  /** Storing 64-bit lanes and loading them back gives the same lanes. */
  lemma LanesBytesRoundTrip(lanes: Lanes)
    requires Bounded(lanes)
    ensures BytesToLanes(LanesToBytes(lanes)) == lanes
  {
    forall x, y | 0 <= x < 5 && 0 <= y < 5
      ensures BytesToLanes(LanesToBytes(lanes))[x][y] == lanes[x][y]
    {
      LaneRoundTrip(lanes, x, y);
    }
    SameLanes(BytesToLanes(LanesToBytes(lanes)), lanes);
  }

  lemma LaneRoundTrip(lanes: Lanes, x: nat, y: nat)
    requires Bounded(lanes) && x < 5 && y < 5
    ensures LaneOf(LanesToBytes(lanes), x, y) == lanes[x][y]
  {
    var s := LanesToBytes(lanes);
    var o := 8 * (x + 5 * y);
    forall k | 0 <= k < 8
      ensures s[o..o + 8][k] == Store64(lanes[x][y])[k]
    {
      ByteIndexOf(x, y, k);
    }
    assert s[o..o + 8] == Store64(lanes[x][y]);
    LoadStore(lanes[x][y]);
  }

  /** Loading a 200-byte state into lanes and storing them back gives the same bytes. */
  lemma BytesLanesRoundTrip(s: seq<byte>)
    requires |s| == 200
    ensures LanesToBytes(BytesToLanes(s)) == s
  {
    forall i | 0 <= i < 200
      ensures LanesToBytes(BytesToLanes(s))[i] == s[i]
    {
      ByteRoundTrip(s, i);
    }
  }

  lemma ByteRoundTrip(s: seq<byte>, i: nat)
    requires |s| == 200 && i < 200
    ensures ByteOf(BytesToLanes(s), i) == s[i]
  {
    ByteIndex(i);
    var x, y, k := (i / 8) % 5, i / 40, i % 8;
    var lanes := BytesToLanes(s);
    assert ByteOf(lanes, i) == Store64(lanes[x][y])[k];
    assert lanes[x][y] == LaneOf(s, x, y);
    LoadedByte(s, x, y, k);
  }

  lemma LoadedByte(s: seq<byte>, x: nat, y: nat, k: nat)
    requires |s| == 200 && x < 5 && y < 5 && k < 8
    ensures Store64(LaneOf(s, x, y))[k] == s[8 * (x + 5 * y) + k]
  {
    var o := 8 * (x + 5 * y);
    var b := s[o..o + 8];
    assert LaneOf(s, x, y) == Load64(b);
    StoreLoad(b);
    assert b[k] == s[o + k];
  }

  /** Keccak-f[1600] on a 200-byte state. */
  function Permute(s: seq<byte>): (r: seq<byte>)
    requires |s| >= 200
    ensures |r| == 200
  {
    LanesToBytes(KeccakP(BytesToLanes(s)))
  }

  /** The lanes before lane (x, y), in the order of the store loops, are stored. */
  ghost predicate StoredTo(out: seq<byte>, lanes: Lanes, x: nat, y: nat)
    requires |out| == 200 && Shaped(lanes)
  {
    forall x', y', k {:trigger Store64(lanes[x'][y'])[k]} ::
      0 <= x' < 5 && 0 <= y' < 5 && 0 <= k < 8 && (x' < x || (x' == x && y' < y)) ==>
        out[8 * (x' + 5 * y') + k] == Store64(lanes[x'][y'])[k]
  }

  /** The bytes of another lane lie outside the eight bytes of lane (x, y). */
  lemma OtherLaneOutside(x: nat, y: nat, x': nat, y': nat, k: nat)
    requires x < 5 && y < 5 && x' < 5 && y' < 5 && k < 8 && (x' != x || y' != y)
    ensures 8 * (x' + 5 * y') + k < 8 * (x + 5 * y) || 8 * (x + 5 * y) + 8 <= 8 * (x' + 5 * y') + k
  {
    assert x' + 5 * y' != x + 5 * y;
  }

  /** Writing lane (x, y) at its offset extends the stored part by one lane. */
  lemma StoreStep(out: seq<byte>, out': seq<byte>, lanes: Lanes, x: nat, y: nat)
    requires |out| == 200 && |out'| == 200 && Shaped(lanes) && x < 5 && y < 5
    requires StoredTo(out, lanes, x, y)
    requires forall k :: 0 <= k < 8 ==> out'[8 * (x + 5 * y) + k] == Store64(lanes[x][y])[k]
    requires forall i :: 0 <= i < 200 && !(8 * (x + 5 * y) <= i < 8 * (x + 5 * y) + 8) ==> out'[i] == out[i]
    ensures StoredTo(out', lanes, x, y + 1)
  {
    forall x', y', k | 0 <= x' < 5 && 0 <= y' < 5 && 0 <= k < 8 && (x' < x || (x' == x && y' < y + 1))
      ensures out'[8 * (x' + 5 * y') + k] == Store64(lanes[x'][y'])[k]
    {
      if x' != x || y' != y {
        OtherLaneOutside(x, y, x', y', k);
      }
    }
  }

  /** When all lanes are stored, the bytes are those of LanesToBytes. */
  lemma StoredAll(out: seq<byte>, lanes: Lanes)
    requires |out| == 200 && Shaped(lanes) && StoredTo(out, lanes, 5, 0)
    ensures out == LanesToBytes(lanes)
  {
    forall i | 0 <= i < 200
      ensures out[i] == LanesToBytes(lanes)[i]
    {
      ByteIndex(i);
      var x, y, k := (i / 8) % 5, i / 40, i % 8;
      assert out[8 * (x + 5 * y) + k] == Store64(lanes[x][y])[k];
    }
  }

  /** KeccakF1600: load the lanes, permute them, and store them into a new 200-byte state. */
  method KeccakF1600(state: array<byte>) returns (result: array<byte>)
    requires state.Length >= 200
    ensures fresh(result) && result.Length == 200 && result[..] == Permute(old(state[..]))
  {
    var lanes := BytesToLanes(state[..]);
    lanes := KeccakF1600OnLanes(lanes);
    result := new byte[200](i => 0);
    for x := 0 to 5
      invariant StoredTo(result[..], lanes, x, 0)
    {
      for y := 0 to 5
        invariant StoredTo(result[..], lanes, x, y)
      {
        ghost var before := result[..];
        var o := 8 * (x + 5 * y);
        var bytes := Store64(lanes[x][y]);
        forall k | 0 <= k < 8 {
          result[o + k] := bytes[k];
        }
        StoreStep(before, result[..], lanes, x, y);
      }
      assert StoredTo(result[..], lanes, x, 5);
    }
    StoredAll(result[..], lanes);
  }

  // ---------------------------------------------------------------------------
  // The sponge
  // ---------------------------------------------------------------------------

  /** Python's ^ on two bytes. */
  function XorByte(a: byte, b: byte): (r: byte)
  {
    Pow2Of8();
    XorBound(a, b, 8);
    Xor(a, b)
  }

  /** The state with the first |block| bytes xored with block. */
  function XorInto(s: seq<byte>, block: seq<byte>): (r: seq<byte>)
    requires |block| <= |s|
    ensures |r| == |s|
  {
    seq(|s|, i requires 0 <= i < |s| => if i < |block| then XorByte(s[i], block[i]) else s[i])
  }

  /** The all-zero initial state. */
  function ZeroState(): (r: seq<byte>)
    ensures |r| == 200
  {
    seq(200, i => 0)
  }

  /** Byte i of the padding that fills a block holding k message bytes: the suffix first, 0x80
      xored into the last byte of the block, zeros between. */
  function PadByte(k: nat, rate: nat, suffix: byte, i: nat): byte
  {
    var first: byte := if i == 0 then suffix else 0;
    if k + i == rate - 1 then XorByte(first, 0x80) else first
  }

  function PadTail(k: nat, rate: nat, suffix: byte): (r: seq<byte>)
    requires k < rate
    ensures |r| == rate - k
  {
    seq(rate - k, i requires 0 <= i < rate - k => PadByte(k, rate, suffix, i))
  }

  /** The message followed by its padding: a whole number of blocks, at least one byte longer
      than the message and at most one block longer. */
  function Padded(input: seq<byte>, rate: nat, suffix: byte): (r: seq<byte>)
    requires rate > 0
    ensures |r| % rate == 0 && |input| < |r| <= |input| + rate && r[..|input|] == input
  {
    var k := |input| % rate;
    DivModIdentity(|input|, rate);
    assert |input| + (rate - k) == rate * (|input| / rate + 1);
    ModAddMultiple(0, |input| / rate + 1, rate);
    input + PadTail(k, rate, suffix)
  }

  /** A function on states that keeps a 200-byte state 200 bytes long, as the sponge's
      permutation must. */
  ghost predicate KeepsStateLength(f: seq<byte> -> seq<byte>)
  {
    forall s: seq<byte> :: |s| == 200 ==> |f(s)| == 200
  }

  /** Keccak-f[1600] as the sponge's permutation: Permute on 200-byte states, which are the only
      ones the sponge hands it. */
  function KeccakF(s: seq<byte>): (r: seq<byte>)
  {
    if |s| == 200 then Permute(s) else s
  }

  lemma KeccakFKeepsStateLength()
    ensures KeepsStateLength(KeccakF)
  {
  }

  /** Absorbing: each whole block of p is xored into the state, which is then permuted by f (a
      padded input is whole blocks only). */
  function Absorb(f: seq<byte> -> seq<byte>, s: seq<byte>, p: seq<byte>, rate: nat): (r: seq<byte>)
    requires KeepsStateLength(f) && |s| == 200 && 0 < rate <= 200
    ensures |r| == 200
    decreases |p|
  {
    if |p| < rate then s else Absorb(f, f(XorInto(s, p[..rate])), p[rate..], rate)
  }

  /** Squeezing: the first n bytes of the rate parts of the state, permuting by f between blocks. */
  function Squeeze(f: seq<byte> -> seq<byte>, s: seq<byte>, n: nat, rate: nat): (r: seq<byte>)
    requires KeepsStateLength(f) && |s| == 200 && 0 < rate <= 200
    ensures |r| == n
    decreases n
  {
    if n <= rate then s[..n] else s[..rate] + Squeeze(f, f(s), n - rate, rate)
  }

  /** The Keccak sponge with a rate of rate bytes: n bytes squeezed after absorbing the padded
      input. */
  function Sponge(rate: nat, input: seq<byte>, suffix: byte, n: nat): (r: seq<byte>)
    requires 0 < rate <= 200
  {
    KeccakFKeepsStateLength();
    Squeeze(KeccakF, Absorb(KeccakF, ZeroState(), Padded(input, rate, suffix), rate), n, rate)
  }

  /** Absorbing a full block, from start to offset, of the remaining input. */
  lemma AbsorbBlock(f: seq<byte> -> seq<byte>, clean: seq<byte>, input: seq<byte>, start: nat, offset: nat,
                    tail: seq<byte>, rate: nat)
    requires KeepsStateLength(f) && |clean| == 200 && 0 < rate <= 200 && offset == start + rate <= |input|
    ensures Absorb(f, clean, input[start..] + tail, rate)
         == Absorb(f, f(XorInto(clean, input[start..offset])), input[offset..] + tail, rate)
  {
    assert (input[start..] + tail)[..rate] == input[start..offset];
    assert (input[start..] + tail)[rate..] == input[offset..] + tail;
  }

  /** The absorbing loop's permutation keeps its invariant: the permuted state absorbs the rest of
      the input to the same state, and nothing of the rest has been xored into it yet. */
  lemma AbsorbStep(clean: seq<byte>, xored: seq<byte>, input: seq<byte>, start: nat, offset: nat,
                   tail: seq<byte>, rate: nat, absorbed: seq<byte>)
    requires |clean| == 200 && 0 < rate <= 200 && offset == start + rate <= |input|
    requires xored == XorInto(clean, input[start..offset])
    requires KeepsStateLength(KeccakF) && Absorb(KeccakF, clean, input[start..] + tail, rate) == absorbed
    ensures Absorb(KeccakF, Permute(xored), input[offset..] + tail, rate) == absorbed
    ensures XorInto(Permute(xored), input[offset..offset]) == Permute(xored)
  {
    AbsorbBlock(KeccakF, clean, input, start, offset, tail, rate);
    assert KeccakF(xored) == Permute(xored);
    XorIntoNothing(Permute(xored));
    assert input[offset..offset] == [];
  }

  /** The input bytes left after the last whole block are the input length modulo the rate. */
  lemma LastBlock(n: nat, rate: nat, blocks: nat, k: nat)
    requires 0 < rate && k < rate && n == blocks * rate + k
    ensures n % rate == k
  {
    DivModUnique(n, rate, blocks, k);
  }

  /** Absorbing the last block: one xor and one permutation. */
  lemma AbsorbLast(f: seq<byte> -> seq<byte>, clean: seq<byte>, block: seq<byte>, rate: nat)
    requires KeepsStateLength(f) && |clean| == 200 && 0 < rate <= 200 && |block| == rate
    ensures Absorb(f, clean, block, rate) == f(XorInto(clean, block))
  {
    assert block[..rate] == block && block[rate..] == [];
  }

  /** One squeezed block: the first bytes of the state, then the rest squeezed from the permuted
      state when more than a block is wanted. */
  lemma SqueezeBlock(f: seq<byte> -> seq<byte>, s: seq<byte>, n: nat, rate: nat)
    requires KeepsStateLength(f) && |s| == 200 && 0 < rate <= 200 && n > 0
    ensures n <= rate ==> Squeeze(f, s, n, rate) == s[..n] && Squeeze(f, s, 0, rate) == []
    ensures n > rate ==> Squeeze(f, s, n, rate) == s[..rate] + Squeeze(f, f(s), n - rate, rate)
  {
  }

  /** The squeezing loop's body keeps its invariant: the block taken from the state, then the
      rest squeezed from the permuted state, or nothing when the output is complete. */
  lemma SqueezeStep(f: seq<byte> -> seq<byte>, s: seq<byte>, out: seq<byte>, n: nat, rate: nat, blockSize: nat,
                    target: seq<byte>)
    requires KeepsStateLength(f) && |s| == 200 && 0 < rate <= 200 && n > 0
    requires blockSize == if n < rate then n else rate
    requires out + Squeeze(f, s, n, rate) == target
    ensures n - blockSize > 0 ==> (out + s[0..blockSize]) + Squeeze(f, f(s), n - blockSize, rate) == target
    ensures n - blockSize == 0 ==> (out + s[0..blockSize]) + Squeeze(f, s, 0, rate) == target
  {
    SqueezeBlock(f, s, n, rate);
  }

  /** Xoring an empty block leaves the state as it is. */
  lemma XorIntoNothing(s: seq<byte>)
    ensures XorInto(s, []) == s
  {
  }

  /** Xoring one more byte into the state extends the xored block by that byte. */
  lemma XorIntoStep(clean: seq<byte>, block: seq<byte>, c: byte)
    requires |block| < |clean|
    ensures XorInto(clean, block)[|block| := XorByte(clean[|block|], c)] == XorInto(clean, block + [c])
  {
  }

  /** The padding loop's two xors put the padding tail after the message bytes. */
  lemma PadInto(clean: seq<byte>, rem: seq<byte>, rate: nat, suffix: byte)
    requires |clean| == 200 && |rem| < rate <= 200
    ensures var s1 := XorInto(clean, rem);
      var s2 := s1[|rem| := XorByte(s1[|rem|], suffix)];
      s2[rate - 1 := XorByte(s2[rate - 1], 0x80)] == XorInto(clean, rem + PadTail(|rem|, rate, suffix))
  {
    var k := |rem|;
    var s1 := XorInto(clean, rem);
    var s2 := s1[k := XorByte(s1[k], suffix)];
    var s3 := s2[rate - 1 := XorByte(s2[rate - 1], 0x80)];
    var goal := XorInto(clean, rem + PadTail(k, rate, suffix));
    forall j | 0 <= j < 200
      ensures s3[j] == goal[j]
    {
      if j < k {
      } else if j == k && k == rate - 1 {
        XorAssoc(clean[j], suffix, 0x80);
      } else if j == k {
      } else if j == rate - 1 {
        XorZero(0x80);
      } else if j < rate {
        XorZero(clean[j]);
      }
    }
  }

  /** The absorbing loop's inner loop: the next n input bytes from offset on are xored into the
      first n bytes of the state. */
  method XorBlock(state: array<byte>, inputBytes: seq<byte>, offset: nat, n: nat)
    requires n <= state.Length && offset + n <= |inputBytes|
    modifies state
    ensures state[..] == XorInto(old(state[..]), inputBytes[offset..offset + n])
  {
    ghost var clean := state[..];
    for i := 0 to n
      invariant state[..] == XorInto(clean, inputBytes[offset..offset + i])
    {
      XorIntoStep(clean, inputBytes[offset..offset + i], inputBytes[i + offset]);
      assert inputBytes[offset..offset + i + 1] == inputBytes[offset..offset + i] + [inputBytes[i + offset]];
      state[i] := XorByte(state[i], inputBytes[i + offset]);
    }
  }

  /** The absorbing loop's invariant: blocks whole blocks (start bytes) have been absorbed into
      clean, the bytes from start to offset (blockSize of them, fewer than a block) are xored into
      state, and absorbing the rest of the input and the padding tail from clean gives absorbed. */
  ghost predicate Absorbing(state: seq<byte>, clean: seq<byte>, input: seq<byte>, tail: seq<byte>, rate: nat,
                            start: nat, offset: nat, blockSize: nat, blocks: nat, absorbed: seq<byte>)
  {
    |clean| == 200 && 0 < rate <= 200 && KeepsStateLength(KeccakF)
    && start <= offset <= |input| && start == blocks * rate
    && blockSize == offset - start < rate
    && (blockSize > 0 ==> offset == |input|)
    && state == XorInto(clean, input[start..offset])
    && Absorb(KeccakF, clean, input[start..] + tail, rate) == absorbed
  }

  /** The absorbing loop's body keeps its invariant: the next blockSize bytes are xored in (from
      offset to next), and a full block is then permuted (into permuted, the new clean state, after
      blocks' blocks). */
  lemma AbsorbingStep(state: seq<byte>, xored: seq<byte>, permuted: seq<byte>, clean: seq<byte>, input: seq<byte>,
                      tail: seq<byte>, rate: nat, start: nat, offset: nat, next: nat, previousSize: nat,
                      blockSize: nat, blocks: nat, blocks': nat, absorbed: seq<byte>)
    requires Absorbing(state, clean, input, tail, rate, start, offset, previousSize, blocks, absorbed)
    requires offset < |input| && blockSize == if |input| - offset < rate then |input| - offset else rate
    requires next == offset + blockSize && (blockSize == rate ==> blocks' == blocks + 1)
    requires |state| == 200 && xored == XorInto(state, input[offset..offset + blockSize])
    requires blockSize == rate ==> permuted == Permute(xored)
    ensures blockSize < rate ==> Absorbing(xored, clean, input, tail, rate, start, next, blockSize, blocks, absorbed)
    ensures blockSize == rate ==> Absorbing(permuted, permuted, input, tail, rate, next, next, 0, blocks', absorbed)
  {
    assert start == offset && input[start..offset] == [];
    XorIntoNothing(clean);
    assert input[offset..offset + blockSize] == input[start..next];
    if blockSize == rate {
      AbsorbStep(clean, xored, input, start, next, tail, rate, absorbed);
      MulSucc(blocks, rate);
    }
  }

  /** When the absorbing loop ends, the bytes after the last whole block are xored into the state. */
  lemma AbsorbingDone(state: seq<byte>, clean: seq<byte>, input: seq<byte>, tail: seq<byte>, rate: nat,
                      start: nat, offset: nat, blockSize: nat, blocks: nat, absorbed: seq<byte>)
    requires Absorbing(state, clean, input, tail, rate, start, offset, blockSize, blocks, absorbed)
    requires offset >= |input|
    ensures blockSize <= |input| && |input| % rate == blockSize
    ensures state == XorInto(clean, input[|input| - blockSize..])
    ensures Absorb(KeccakF, clean, input[|input| - blockSize..] + tail, rate) == absorbed
  {
    LastBlock(|input|, rate, blocks, blockSize);
    assert start == |input| - blockSize;
    assert input[start..offset] == input[start..] == input[|input| - blockSize..];
  }

  /** One pass of the absorbing loop: the next block (or what is left of the input, if shorter) is
      xored into the state at inputOffset, and a whole block is then permuted. */
  method AbsorbChunk(state: array<byte>, inputBytes: seq<byte>, inputOffset: nat, rateInBytes: nat,
                     ghost tail: seq<byte>, ghost clean: seq<byte>, ghost start: nat, ghost previousSize: nat,
                     ghost blocks: nat, ghost absorbed: seq<byte>)
    returns (next: array<byte>, blockSize: nat, nextOffset: nat, ghost nextClean: seq<byte>, ghost nextStart: nat,
             ghost nextBlocks: nat)
    requires state.Length == 200 && inputOffset < |inputBytes|
    requires Absorbing(state[..], clean, inputBytes, tail, rateInBytes, start, inputOffset, previousSize, blocks, absorbed)
    modifies state
    ensures next.Length == 200 && (next == state || fresh(next)) && inputOffset < nextOffset <= |inputBytes|
    ensures Absorbing(next[..], nextClean, inputBytes, tail, rateInBytes, nextStart, nextOffset, blockSize, nextBlocks,
                      absorbed)
  {
    ghost var before := state[..];
    blockSize := if |inputBytes| - inputOffset < rateInBytes then |inputBytes| - inputOffset else rateInBytes;
    XorBlock(state, inputBytes, inputOffset, blockSize);
    ghost var xored := state[..];
    ghost var size := blockSize;
    nextOffset := inputOffset + blockSize;
    next, nextClean, nextStart, nextBlocks := state, clean, start, blocks;
    if blockSize == rateInBytes {
      next := KeccakF1600(state);
      blockSize := 0;
      nextClean := next[..];
      nextStart := nextOffset;
      nextBlocks := blocks + 1;
    }
    AbsorbingStep(before, xored, next[..], clean, inputBytes, tail, rateInBytes, start, inputOffset, nextOffset,
                  previousSize, size, blocks, nextBlocks, absorbed);
  }

  /** The absorbing loop of Keccak: every whole block of the input is xored into the state, which
      is then permuted; the bytes after the last whole block are xored into the returned state
      (blockSize of them). clean is the state those bytes were xored into. */
  method AbsorbBlocks(state0: array<byte>, inputBytes: seq<byte>, rateInBytes: nat, ghost tail: seq<byte>)
    returns (state: array<byte>, blockSize: nat, ghost clean: seq<byte>)
    requires state0.Length == 200 && 0 < rateInBytes <= 200
    modifies state0
    ensures state.Length == 200 && |clean| == 200 && (state == state0 || fresh(state))
    ensures blockSize < rateInBytes && blockSize <= |inputBytes| && |inputBytes| % rateInBytes == blockSize
    ensures state[..] == XorInto(clean, inputBytes[|inputBytes| - blockSize..])
    ensures Absorb(KeccakF, clean, inputBytes[|inputBytes| - blockSize..] + tail, rateInBytes)
         == Absorb(KeccakF, old(state0[..]), inputBytes + tail, rateInBytes)
  {
    KeccakFKeepsStateLength();
    state := state0;
    blockSize := 0;
    var inputOffset: nat := 0;
    clean := state[..];
    ghost var start: nat := 0;
    ghost var blocks: nat := 0;
    ghost var absorbed := Absorb(KeccakF, clean, inputBytes + tail, rateInBytes);
    assert inputBytes[start..] == inputBytes;
    XorIntoNothing(clean);
    while inputOffset < |inputBytes|
      invariant state.Length == 200 && (state == state0 || fresh(state))
      invariant Absorbing(state[..], clean, inputBytes, tail, rateInBytes, start, inputOffset, blockSize, blocks, absorbed)
      decreases |inputBytes| - inputOffset
    {
      state, blockSize, inputOffset, clean, start, blocks :=
        AbsorbChunk(state, inputBytes, inputOffset, rateInBytes, tail, clean, start, blockSize, blocks, absorbed);
    }
    AbsorbingDone(state[..], clean, inputBytes, tail, rateInBytes, start, inputOffset, blockSize, blocks, absorbed);
  }

  /** The squeezing loop of Keccak: outputByteLen bytes, a block at a time, permuting between
      blocks. */
  method SqueezeBlocks(state0: array<byte>, outputByteLen: nat, rateInBytes: nat) returns (outputBytes: seq<byte>)
    requires state0.Length == 200 && 0 < rateInBytes <= 200
    ensures outputBytes == Squeeze(KeccakF, state0[..], outputByteLen, rateInBytes)
  {
    outputBytes := [];
    var state := state0;
    var remaining: nat := outputByteLen;
    ghost var current := state[..];
    while remaining > 0
      invariant state.Length == 200 && current == state[..]
      invariant outputBytes + Squeeze(KeccakF, current, remaining, rateInBytes) == Squeeze(KeccakF, state0[..], outputByteLen, rateInBytes)
      decreases remaining
    {
      var blockSize := if remaining < rateInBytes then remaining else rateInBytes;
      SqueezeStep(KeccakF, current, outputBytes, remaining, rateInBytes, blockSize, Squeeze(KeccakF, state0[..], outputByteLen, rateInBytes));
      assert state[0..blockSize] == current[0..blockSize];
      outputBytes := outputBytes + state[0..blockSize];
      remaining := remaining - blockSize;
      if remaining > 0 {
        ghost var previous := current;
        state := KeccakF1600(state);
        current := state[..];
        assert current == KeccakF(previous);
      }
    }
  }

  /** Keccak: absorb the input, pad it, and squeeze outputByteLen bytes. The capacity is not used
      by the computation. */
  method Keccak(rate: nat, capacity: nat, inputBytes: seq<byte>, delimitedSuffix: byte, outputByteLen: nat)
    returns (outputBytes: seq<byte>)
    requires 8 <= rate <= 1600
    ensures outputBytes == Sponge(rate / 8, inputBytes, delimitedSuffix, outputByteLen)
  {
    var state := new byte[200](i => 0);
    var rateInBytes: nat := rate / 8;
    assert state[..] == ZeroState();
    ghost var tail := PadTail(|inputBytes| % rateInBytes, rateInBytes, delimitedSuffix);
    var blockSize;
    ghost var clean;
    state, blockSize, clean := AbsorbBlocks(state, inputBytes, rateInBytes, tail);

    ghost var rem := inputBytes[|inputBytes| - blockSize..];
    PadInto(clean, rem, rateInBytes, delimitedSuffix);
    state[blockSize] := XorByte(state[blockSize], delimitedSuffix);
    state[rateInBytes - 1] := XorByte(state[rateInBytes - 1], 0x80);
    ghost var padded := state[..];
    assert padded == XorInto(clean, rem + tail);
    AbsorbLast(KeccakF, clean, rem + tail, rateInBytes);
    state := KeccakF1600(state);
    assert state[..] == KeccakF(padded);
    outputBytes := SqueezeBlocks(state, outputByteLen, rateInBytes);
  }

  /** Squeezing fewer bytes gives a prefix of squeezing more: an extendable-output function's
      shorter outputs are prefixes of its longer ones. */
  lemma {:induction false} SqueezePrefix(f: seq<byte> -> seq<byte>, s: seq<byte>, n: nat, m: nat, rate: nat)
    requires KeepsStateLength(f) && |s| == 200 && 0 < rate <= 200 && n <= m
    ensures Squeeze(f, s, n, rate) == Squeeze(f, s, m, rate)[..n]
    decreases n
  {
    if n > rate {
      SqueezePrefix(f, f(s), n - rate, m - rate, rate);
      SqueezeLongPrefix(f, s, n, m, rate);
    } else {
      SqueezeShortPrefix(f, s, n, m, rate);
    }
  }

  /** The step of SqueezePrefix: a prefix of the rest after the first block. */
  lemma SqueezeLongPrefix(f: seq<byte> -> seq<byte>, s: seq<byte>, n: nat, m: nat, rate: nat)
    requires KeepsStateLength(f) && |s| == 200 && 0 < rate <= 200 && rate < n <= m
    requires Squeeze(f, f(s), n - rate, rate) == Squeeze(f, f(s), m - rate, rate)[..n - rate]
    ensures Squeeze(f, s, n, rate) == Squeeze(f, s, m, rate)[..n]
  {
    var rest := Squeeze(f, f(s), m - rate, rate);
    assert Squeeze(f, s, m, rate) == s[..rate] + rest;
    TakeAppend(s[..rate], rest, n);
  }

  /** A prefix of a concatenation. */
  lemma TakeAppend<T>(a: seq<T>, b: seq<T>, n: nat)
    requires n <= |a| + |b|
    ensures n <= |a| ==> (a + b)[..n] == a[..n]
    ensures n >= |a| ==> (a + b)[..n] == a + b[..n - |a|]
  {
  }

  /** The base of SqueezePrefix: at most one block is a prefix of the first block. */
  lemma SqueezeShortPrefix(f: seq<byte> -> seq<byte>, s: seq<byte>, n: nat, m: nat, rate: nat)
    requires KeepsStateLength(f) && |s| == 200 && 0 < rate <= 200 && n <= rate && n <= m
    ensures Squeeze(f, s, n, rate) == Squeeze(f, s, m, rate)[..n]
  {
    if m > rate {
      var rest := Squeeze(f, f(s), m - rate, rate);
      assert Squeeze(f, s, m, rate) == s[..rate] + rest;
      TakeAppend(s[..rate], rest, n);
      assert s[..rate][..n] == s[..n];
    } else {
      assert Squeeze(f, s, m, rate) == s[..m];
    }
  }

  /** The bytes of a padded message after the message: the suffix at the message's end, 0x80
      xored into the last byte, zeros between. */
  lemma PaddedByte(m: seq<byte>, rate: nat, suffix: byte, j: nat)
    requires rate > 0 && |m| <= j < |Padded(m, rate, suffix)|
    ensures var first: byte := if j == |m| then suffix else 0;
      Padded(m, rate, suffix)[j] == if j == |Padded(m, rate, suffix)| - 1 then XorByte(first, 0x80) else first
  {
    var k := |m| % rate;
    assert Padded(m, rate, suffix) == m + PadTail(k, rate, suffix);
    assert Padded(m, rate, suffix)[j] == PadTail(k, rate, suffix)[j - |m|];
  }

  /** A message's padding cannot be read as the padding of a longer message with the same
      nonzero suffix. */
  lemma LongerPadded(m1: seq<byte>, m2: seq<byte>, rate: nat, suffix: byte)
    requires rate > 0 && suffix != 0 && |m1| < |m2|
    ensures Padded(m1, rate, suffix) != Padded(m2, rate, suffix)
  {
    var p1, p2 := Padded(m1, rate, suffix), Padded(m2, rate, suffix);
    if |p1| == |p2| {
      var j := |m2|;
      PaddedByte(m1, rate, suffix, j);
      PaddedByte(m2, rate, suffix, j);
      if j == |p1| - 1 {
        XorCancel(suffix, 0x80);
        XorCancel(0, 0x80);
        assert Xor(p2[j], 0x80) == suffix;
        assert Xor(p1[j], 0x80) == 0;
      }
      assert p1[j] != p2[j];
    }
  }

  /** Padding with a nonzero suffix is injective: the padded block sequence determines the
      message. */
  lemma PaddingInjective(m1: seq<byte>, m2: seq<byte>, rate: nat, suffix: byte)
    requires rate > 0 && suffix != 0
    ensures Padded(m1, rate, suffix) == Padded(m2, rate, suffix) ==> m1 == m2
  {
    if |m1| < |m2| {
      LongerPadded(m1, m2, rate, suffix);
    } else if |m2| < |m1| {
      LongerPadded(m2, m1, rate, suffix);
    }
  }

  /** SHAKE128: rate 1344 bits, capacity 256, suffix 0x1F. */
  method Shake128(inputBytes: seq<byte>, outputByteLen: nat) returns (outputBytes: seq<byte>)
    ensures outputBytes == Sponge(168, inputBytes, 0x1F, outputByteLen) && |outputBytes| == outputByteLen
  {
    outputBytes := Keccak(1344, 256, inputBytes, 0x1F, outputByteLen);
  }

  /** SHAKE256: rate 1088 bits, capacity 512, suffix 0x1F. */
  method Shake256(inputBytes: seq<byte>, outputByteLen: nat) returns (outputBytes: seq<byte>)
    ensures outputBytes == Sponge(136, inputBytes, 0x1F, outputByteLen) && |outputBytes| == outputByteLen
  {
    outputBytes := Keccak(1088, 512, inputBytes, 0x1F, outputByteLen);
  }

  /** SHA3-224: rate 1152 bits, capacity 448, suffix 0x06, 28-byte digest. */
  method Sha3_224(inputBytes: seq<byte>) returns (digest: seq<byte>)
    ensures digest == Sponge(144, inputBytes, 0x06, 28) && |digest| == 28
  {
    digest := Keccak(1152, 448, inputBytes, 0x06, 224 / 8);
  }

  /** SHA3-256: rate 1088 bits, capacity 512, suffix 0x06, 32-byte digest. */
  method Sha3_256(inputBytes: seq<byte>) returns (digest: seq<byte>)
    ensures digest == Sponge(136, inputBytes, 0x06, 32) && |digest| == 32
  {
    digest := Keccak(1088, 512, inputBytes, 0x06, 256 / 8);
  }

  /** SHA3-384: rate 832 bits, capacity 768, suffix 0x06, 48-byte digest. */
  method Sha3_384(inputBytes: seq<byte>) returns (digest: seq<byte>)
    ensures digest == Sponge(104, inputBytes, 0x06, 48) && |digest| == 48
  {
    digest := Keccak(832, 768, inputBytes, 0x06, 384 / 8);
  }

  /** SHA3-512: rate 576 bits, capacity 1024, suffix 0x06, 64-byte digest. */
  method Sha3_512(inputBytes: seq<byte>) returns (digest: seq<byte>)
    ensures digest == Sponge(72, inputBytes, 0x06, 64) && |digest| == 64
  {
    digest := Keccak(576, 1024, inputBytes, 0x06, 512 / 8);
  }

  /** The test-vector mode Keccak assigns before absorbing: only SHAKE128, SHAKE256, SHA3-256
      and SHA3-512 set one. */
  function ModeOf(rate: nat, delimitedSuffix: byte): (r: Option<nat>)
  {
    if rate == 576 then Some(3)
    else if rate == 1088 && delimitedSuffix == 0x06 then Some(2)
    else if rate == 1088 && delimitedSuffix == 0x1F then Some(1)
    else if rate == 1344 then Some(0)
    else None
  }

  /** Keccak as written: the digest is computed, then the test-vector code reads the mode, which
      is unset for every rate and suffix but the four above. */
  function KeccakAsWritten(rate: nat, inputBytes: seq<byte>, delimitedSuffix: byte, outputByteLen: nat): (r: Result<seq<byte>>)
    requires 8 <= rate <= 1600
    ensures r.Ok? <==> ModeOf(rate, delimitedSuffix).Some?
    ensures r.Ok? ==> r.value == Sponge(rate / 8, inputBytes, delimitedSuffix, outputByteLen)
  {
    var outputBytes := Sponge(rate / 8, inputBytes, delimitedSuffix, outputByteLen);
    match ModeOf(rate, delimitedSuffix)
    case None => Err(UnsetVariable)
    case Some(_) => Ok(outputBytes)
  }

  /** SHA3-224 and SHA3-384 as written fail: their rates set no mode. */
  lemma Sha3AsWrittenFails(inputBytes: seq<byte>)
    ensures KeccakAsWritten(1152, inputBytes, 0x06, 28) == Err(UnsetVariable)
    ensures KeccakAsWritten(832, inputBytes, 0x06, 48) == Err(UnsetVariable)
  {
  }

  /** The four functions Kyber uses run through as written, with the same output as Keccak. */
  lemma KyberHashesAsWritten(inputBytes: seq<byte>, n: nat)
    ensures KeccakAsWritten(1344, inputBytes, 0x1F, n) == Ok(Sponge(168, inputBytes, 0x1F, n))
    ensures KeccakAsWritten(1088, inputBytes, 0x1F, n) == Ok(Sponge(136, inputBytes, 0x1F, n))
    ensures KeccakAsWritten(1088, inputBytes, 0x06, 32) == Ok(Sponge(136, inputBytes, 0x06, 32))
    ensures KeccakAsWritten(576, inputBytes, 0x06, 64) == Ok(Sponge(72, inputBytes, 0x06, 64))
  {
  }
}
