/** Shared vocabulary of the Kyber model: the error cases the Python code raises,
    a failure-compatible Result, bytes and bits, and the helpers of the `utils`
    module (bytes_to_bits, bitstring_to_bytes, round_up) that the polynomial code
    imports. Bits are least-significant first inside every byte and every
    coefficient field. */
module Common {

  type byte = x: int | 0 <= x < 256
  type bit = x: int | 0 <= x < 2

  /** The exceptions raised by the modelled code, one constructor per cause. */
  datatype Error =
    | AlreadyNtt            // to_ntt on an NTT-form polynomial
    | NotNtt                // from_ntt / ntt_multiplication on a standard-form polynomial
    | NoNttHelper           // NTT operation on a ring without an NTT helper
    | TagMismatch           // one operand in NTT form, the other not
    | TooManyCoefficients   // more than n coefficients given to the constructor
    | BadLength             // a byte string of the wrong length
    | NegativeCoefficient   // encode of a negative coefficient (format gives '-')
    | NegativeExponent      // __pow__ with n < 0
    | RaggedRows            // matrix rows of unequal length
    | EmptyMatrix           // matrix built from an empty list
    | DimensionMismatch     // add/sub/matmul on incompatible shapes
    | RingMismatch          // matrices over different rings
    | OutOfRange            // argument outside the accepted range
    | NotPowerOfTwo         // transform_radix_2 on a length that is not 2^k
    | NegativeShift         // a shift by a negative count (1 << -1)
    | NotFound              // a bounded search found nothing
    | DivisionByZero        // divmod by a zero divisor
    | UnsetVariable         // a local variable read before any assignment to it

  datatype Result<T> = Ok(value: T) | Err(error: Error) {
    predicate IsFailure() { Err? }
    function PropagateFailure<U>(): Result<U>
      requires Err?
    {
      Err(error)
    }
    function Extract(): T
      requires Ok?
    {
      value
    }
  }

  datatype Option<T> = None | Some(value: T)

  /** The outcome of an operation that changes state and returns nothing useful. */
  datatype Outcome = Pass | Fail(error: Error)

  function Pow2(k: nat): (r: nat)
    ensures r >= 1
  {
    if k == 0 then 1 else 2 * Pow2(k - 1)
  }

  lemma {:induction false} Pow2Add(a: nat, b: nat)
    ensures Pow2(a + b) == Pow2(a) * Pow2(b)
  {
    if a > 0 {
      Pow2Add(a - 1, b);
    }
  }

  lemma {:induction false} Pow2Monotone(a: nat, b: nat)
    requires a <= b
    ensures Pow2(a) <= Pow2(b)
  {
    if a < b {
      Pow2Monotone(a, b - 1);
    }
  }

  /** The k lowest bits of x, least significant first. */
  function ToBitsLE(x: nat, k: nat): (bs: seq<bit>)
    ensures |bs| == k
  {
    if k == 0 then [] else [x % 2] + ToBitsLE(x / 2, k - 1)
  }

  /** The number whose bits, least significant first, are bs. */
  function FromBitsLE(bs: seq<bit>): nat
  {
    if bs == [] then 0 else bs[0] + 2 * FromBitsLE(bs[1..])
  }

  lemma {:induction false} FromBitsLEBound(bs: seq<bit>)
    ensures FromBitsLE(bs) < Pow2(|bs|)
  {
    if bs != [] {
      FromBitsLEBound(bs[1..]);
    }
  }

  /** Reading back the k written bits gives x modulo 2^k. */
  lemma {:induction false} FromToBitsLE(x: nat, k: nat)
    ensures FromBitsLE(ToBitsLE(x, k)) == x % Pow2(k)
  {
    if k > 0 {
      FromToBitsLE(x / 2, k - 1);
      var p := Pow2(k - 1);
      assert ToBitsLE(x, k)[1..] == ToBitsLE(x / 2, k - 1);
      assert FromBitsLE(ToBitsLE(x, k)) == x % 2 + 2 * ((x / 2) % p);
      // x = 2 (x/2) + x%2, and (x/2) % p gives the upper bits
      var h, d, m := x / 2, (x / 2) / p, (x / 2) % p;
      assert x == 2 * h + x % 2;
      DivModIdentity(h, p);
      MulAssoc(2, p, d);
      assert x == (2 * p) * d + (2 * m + x % 2);
      DivModUnique(x, 2 * p, d, 2 * m + x % 2);
    }
  }

  /** Writing the bits of the number that bs denotes gives bs back. */
  lemma {:induction false} ToFromBitsLE(bs: seq<bit>)
    ensures ToBitsLE(FromBitsLE(bs), |bs|) == bs
  {
    if bs != [] {
      ToFromBitsLE(bs[1..]);
      var v := FromBitsLE(bs);
      assert v % 2 == bs[0] && v / 2 == FromBitsLE(bs[1..]);
    }
  }

  /** The (i)th bit written is bit i of x. */
  lemma {:induction false} ToBitsLEAt(x: nat, k: nat, i: nat)
    requires i < k
    ensures ToBitsLE(x, k)[i] == (x / Pow2(i)) % 2
  {
    if i > 0 {
      ToBitsLEAt(x / 2, k - 1, i - 1);
      DivDiv(x, 2, Pow2(i - 1));
    }
  }

  /** Appending a bit: the first k+1 bits are the first k followed by bit k. */
  lemma {:induction false} ToBitsLESnoc(x: nat, k: nat)
    ensures ToBitsLE(x, k + 1) == ToBitsLE(x, k) + [(x / Pow2(k)) % 2]
  {
    if k > 0 {
      ToBitsLESnoc(x / 2, k - 1);
      DivDiv(x, 2, Pow2(k - 1));
    }
  }

  lemma DivModUnique(a: int, d: int, q: int, r: int)
    requires d > 0 && 0 <= r < d && a == d * q + r
    ensures a / d == q && a % d == r
  {
    var q0, r0 := a / d, a % d;
    assert d * (q0 - q) == r - r0;
    if q0 > q {
      MulAtLeast(d, q0 - q);
    } else if q0 < q {
      MulAtLeast(d, q - q0);
    }
  }

  lemma MulAtLeast(d: int, k: int)
    requires d > 0 && k >= 1
    ensures d * k >= d
  {
  }

  lemma DivDiv(x: nat, a: nat, b: nat)
    requires a > 0 && b > 0
    ensures x / a / b == x / (a * b)
  {
    var q1, r1 := x / a, x % a;
    var q2, r2 := q1 / b, q1 % b;
    assert x == a * q1 + r1;
    assert q1 == b * q2 + r2;
    assert a * q1 == (a * b) * q2 + a * r2 by {
      assert a * q1 == a * (b * q2) + a * r2;
    }
    assert a * r2 <= a * b - a by {
      MulMonotone(a, r2, b - 1);
    }
    DivModUnique(x, a * b, q2, a * r2 + r1);
  }

  lemma DivModIdentity(a: int, d: int)
    requires d > 0
    ensures a == d * (a / d) + a % d && 0 <= a % d < d
  {
  }

  lemma MulAssoc(a: int, b: int, c: int)
    ensures a * (b * c) == (a * b) * c
  {
  }

  lemma MulSucc(k: int, l: int)
    ensures (k + 1) * l == k * l + l
  {
  }

  lemma MulMonotone(a: nat, u: int, v: int)
    requires u <= v
    ensures a * u <= a * v
  {
    assert a * v - a * u == a * (v - u);
  }

  /** Adding a multiple of the modulus does not change the residue. */
  /** Multiplication by a positive factor can be cancelled from a strict bound. */
  lemma MulCancelLess(a: int, u: int, v: int)
    requires a > 0 && a * u < a * v
    ensures u < v
  {
    if u >= v {
      MulMonotone(a, v, u);
    }
  }

  lemma ModAddMultiple(x: int, k: int, m: int)
    requires m > 0
    ensures (x + m * k) % m == x % m
  {
    assert x == m * (x / m) + x % m;
    assert x + m * k == m * (x / m + k) + x % m;
    DivModUnique(x + m * k, m, x / m + k, x % m);
  }

  /** Congruent factors give congruent products. */
  lemma MulModCongruent(x: int, y: int, z: int, m: int)
    requires m > 0 && x % m == y % m
    ensures (x * z) % m == (y * z) % m
  {
    var d := x / m - y / m;
    assert x == m * (x / m) + x % m;
    assert y == m * (y / m) + y % m;
    assert x == y + m * d;
    assert x * z == y * z + m * (d * z);
    ModAddMultiple(y * z, d * z, m);
  }

  /** Congruent summands give congruent sums. */
  lemma AddModCongruent(x: int, y: int, z: int, m: int)
    requires m > 0 && x % m == y % m
    ensures (x + z) % m == (y + z) % m
  {
    var d := x / m - y / m;
    assert x == m * (x / m) + x % m;
    assert y == m * (y / m) + y % m;
    assert x + z == (y + z) + m * d;
    ModAddMultiple(y + z, d, m);
  }

  /** The residue of a sum is the residue of the sum of residues. */
  lemma AddMod(a: int, b: int, m: int)
    requires m > 0
    ensures (a + b) % m == (a % m + b % m) % m
  {
    DivModIdentity(a, m);
    DivModIdentity(b, m);
    assert a + b == (a % m + b % m) + m * (a / m + b / m);
    ModAddMultiple(a % m + b % m, a / m + b / m, m);
  }

  /** Congruent operands give congruent differences. */
  lemma SubModCongruent(a: int, a': int, b: int, b': int, m: int)
    requires m > 0 && a % m == a' % m && b % m == b' % m
    ensures (a - b) % m == (a' - b') % m
  {
    DivModIdentity(a, m);
    DivModIdentity(a', m);
    DivModIdentity(b, m);
    DivModIdentity(b', m);
    var k := (a / m - a' / m) - (b / m - b' / m);
    assert a - b == (a' - b') + m * k;
    ModAddMultiple(a' - b', k, m);
  }

  function Reverse<T>(s: seq<T>): (r: seq<T>)
    ensures |r| == |s|
    ensures forall i :: 0 <= i < |s| ==> r[i] == s[|s| - 1 - i]
  {
    if s == [] then [] else Reverse(s[1..]) + [s[0]]
  }

  lemma ReverseInvolution<T>(s: seq<T>)
    ensures Reverse(Reverse(s)) == s
  {
  }

  /** utils.bytes_to_bits: every byte becomes its 8 bits, least significant first. */
  function BytesToBits(bs: seq<byte>): (r: seq<bit>)
    ensures |r| == 8 * |bs|
  {
    if bs == [] then [] else ToBitsLE(bs[0], 8) + BytesToBits(bs[1..])
  }

  /** utils.bitstring_to_bytes: every 8 bits become one byte, least significant
      bit first; a shorter last group is read as if padded with zero bits. */
  function BitsToBytes(bits: seq<bit>): (r: seq<byte>)
    ensures |r| == (|bits| + 7) / 8
    decreases |bits|
  {
    if bits == [] then []
    else if |bits| <= 8 then
      FromBitsLEBound(bits);
      Pow2Monotone(|bits|, 8);
      [FromBitsLE(bits)]
    else
      FromBitsLEBound(bits[..8]);
      [FromBitsLE(bits[..8])] + BitsToBytes(bits[8..])
  }

  lemma {:induction false} BytesBitsRoundTrip(bits: seq<bit>)
    requires |bits| % 8 == 0
    ensures BytesToBits(BitsToBytes(bits)) == bits
  {
    if bits != [] {
      var head := bits[..8];
      ToFromBitsLE(head);
      FromBitsLEBound(head);
      assert Pow2(8) == 256;
      var r := BitsToBytes(bits);
      if |bits| == 8 {
        assert head == bits;
        assert r == [FromBitsLE(head)];
      } else {
        BytesBitsRoundTrip(bits[8..]);
        assert r == [FromBitsLE(head)] + BitsToBytes(bits[8..]);
        assert r[1..] == BitsToBytes(bits[8..]);
        assert bits == head + bits[8..];
      }
    }
  }

  lemma {:induction false} BitsBytesRoundTrip(bs: seq<byte>)
    ensures BitsToBytes(BytesToBits(bs)) == bs
  {
    if bs != [] {
      var bits := BytesToBits(bs);
      assert bits == ToBitsLE(bs[0], 8) + BytesToBits(bs[1..]);
      assert bits[..8] == ToBitsLE(bs[0], 8);
      FromToBitsLE(bs[0], 8);
      assert Pow2(8) == 256;
      assert FromBitsLE(bits[..8]) == bs[0];
      if |bs| == 1 {
        assert bits == bits[..8];
        assert BitsToBytes(bits) == [bs[0]];
      } else {
        assert bits[8..] == BytesToBits(bs[1..]);
        BitsBytesRoundTrip(bs[1..]);
        assert BitsToBytes(bits) == [bs[0]] + bs[1..];
      }
    }
  }

  /** round_up(num/den) = floor(num/den + 1/2), computed exactly on rationals. */
  function RoundUp(num: int, den: int): (r: int)
    requires den > 0
    ensures 2 * den * r <= 2 * num + den < 2 * den * (r + 1)
  {
    var r := (2 * num + den) / (2 * den);
    DivModBounds(2 * num + den, 2 * den);
    r
  }

  lemma DivModBounds(a: int, d: int)
    requires d > 0
    ensures d * (a / d) <= a < d * (a / d + 1)
  {
  }
}
