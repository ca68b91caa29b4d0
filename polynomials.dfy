/** The polynomial ring R_q = Z_q[X] / (X^n + 1) of polynomials.py: its elements
    as values (coefficient list plus NTT tag), the samplers parse and cbd, the
    l-bit decode/encode pair, lossy compression, tag-checked arithmetic and the
    negacyclic schoolbook product. */
module Polynomials {
  import opened Common
  import opened NttHelper

  /** PolynomialRing(q, n, ntt_helper): the modulus, the number of coefficients,
      and the zeta table of the attached NTT helper, if any. */
  datatype Ring = Ring(q: int, n: nat, nttZetas: Option<seq<Zq>>)

  /** The rings the code can work with: a modulus of at least 2, at least one
      coefficient, and a helper (written for 256 coefficients and 128 zetas)
      only when n = 256. */
  predicate ValidRing(ring: Ring)
  {
    ring.q >= 2 && ring.n >= 1 &&
    (ring.nttZetas.Some? ==> ring.n == 256 && |ring.nttZetas.value| == 128)
  }

  /** A Polynomial: its coefficient list and its is_ntt tag. */
  datatype Poly = Poly(coeffs: seq<int>, isNtt: bool)

  /** Every element of the ring carries exactly n coefficients (the constructor pads). */
  predicate Fits(ring: Ring, p: Poly)
  {
    |p.coeffs| == ring.n
  }

  /** Every coefficient is a canonical residue in [0, q). */
  predicate Reduced(q: int, p: Poly)
  {
    forall i :: 0 <= i < |p.coeffs| ==> 0 <= p.coeffs[i] < q
  }

  // ---------------------------------------------------------------------------
  // Construction
  // ---------------------------------------------------------------------------

  function Zeros(k: nat): (r: seq<int>)
    ensures |r| == k && forall i :: 0 <= i < k ==> r[i] == 0
  {
    seq(k, i => 0)
  }

  /** parse_coefficients: a list longer than n is refused, a shorter one is
      right-padded with zeros. */
  function ParseCoefficients(ring: Ring, cs: seq<int>): (r: Result<seq<int>>)
    ensures r.Ok? <==> |cs| <= ring.n
    ensures r.Err? ==> r.error == TooManyCoefficients
    ensures r.Ok? ==> |r.value| == ring.n && r.value[..|cs|] == cs &&
                      forall i :: |cs| <= i < ring.n ==> r.value[i] == 0
  {
    if |cs| > ring.n then Err(TooManyCoefficients)
    else Ok(cs + Zeros(ring.n - |cs|))
  }

  /** PolynomialRing.__call__ with a list: build an element of the ring. */
  function MakePoly(ring: Ring, cs: seq<int>, isNtt: bool): (r: Result<Poly>)
  {
    var padded :- ParseCoefficients(ring, cs);
    Ok(Poly(padded, isNtt))
  }

  /** PolynomialRing.__call__ with an int: the constant polynomial c. */
  function ConstantPoly(ring: Ring, c: int, isNtt: bool): (r: Poly)
    requires ring.n >= 1
    ensures Fits(ring, r) && r.isNtt == isNtt
    ensures r.coeffs[0] == c && forall i :: 1 <= i < ring.n ==> r.coeffs[i] == 0
  {
    MakePoly(ring, [c], isNtt).value
  }

  /** is_zero: every coefficient is 0. */
  predicate IsZero(p: Poly)
  {
    forall i :: 0 <= i < |p.coeffs| ==> p.coeffs[i] == 0
  }

  /** is_constant: every coefficient but the first is 0. */
  predicate IsConstant(p: Poly)
  {
    forall i :: 1 <= i < |p.coeffs| ==> p.coeffs[i] == 0
  }

  /** A padded list is zero, or constant, exactly when the given list is. */
  lemma MakePolyShape(ring: Ring, cs: seq<int>, isNtt: bool)
    requires |cs| <= ring.n
    ensures MakePoly(ring, cs, isNtt).Ok?
    ensures IsZero(MakePoly(ring, cs, isNtt).value) <==> IsZero(Poly(cs, isNtt))
    ensures IsConstant(MakePoly(ring, cs, isNtt).value) <==> IsConstant(Poly(cs, isNtt))
  {
    var p := MakePoly(ring, cs, isNtt).value;
    assert forall i :: 0 <= i < |cs| ==> p.coeffs[i] == cs[i];
  }

  // ---------------------------------------------------------------------------
  // parse (Algorithm 1): rejection sampling of 12-bit candidates
  // ---------------------------------------------------------------------------

  /** The two 12-bit candidates packed in the bytes b0, b1, b2. */
  function FirstCandidate(b0: byte, b1: byte): int
  {
    b0 + 256 * (b1 % 16)
  }

  function SecondCandidate(b1: byte, b2: byte): int
  {
    b1 / 16 + 16 * b2
  }

  /** All candidates of the complete 3-byte groups of b, in order. */
  function Candidates(b: seq<byte>): seq<int>
    decreases |b|
  {
    if |b| < 3 then []
    else [FirstCandidate(b[0], b[1]), SecondCandidate(b[1], b[2])] + Candidates(b[3..])
  }

  /** The entries of s below q, in order. */
  function Below(q: int, s: seq<int>): (r: seq<int>)
    ensures |r| <= |s| && forall i :: 0 <= i < |r| ==> r[i] < q
  {
    if s == [] then []
    else (if s[0] < q then [s[0]] else []) + Below(q, s[1..])
  }

  lemma {:induction false} BelowAppend(q: int, s: seq<int>, t: seq<int>)
    ensures Below(q, s + t) == Below(q, s) + Below(q, t)
  {
    if s == [] {
      assert s + t == t;
    } else {
      assert (s + t)[0] == s[0] && (s + t)[1..] == s[1..] + t;
      BelowAppend(q, s[1..], t);
      var h := if s[0] < q then [s[0]] else [];
      assert Below(q, s + t) == h + Below(q, s[1..] + t);
      assert Below(q, s) == h + Below(q, s[1..]);
      assert h + (Below(q, s[1..]) + Below(q, t)) == (h + Below(q, s[1..])) + Below(q, t);
    }
  }

  /** The parse loop on the bytes b, still needing count coefficients: it reads
      one 3-byte group per round and runs out of input when fewer than 3 bytes
      are left (the code then fails on an out-of-range index). */
  function ParseFrom(q: int, count: nat, b: seq<byte>): (r: Result<seq<int>>)
    ensures r.Ok? ==> |r.value| == count && forall i :: 0 <= i < count ==> 0 <= r.value[i] < q
    ensures r.Err? ==> r.error == BadLength
    decreases |b|
  {
    if count == 0 then Ok([])
    else if |b| < 3 then Err(BadLength)
    else
      var t := Kept(q, count, FirstCandidate(b[0], b[1]), SecondCandidate(b[1], b[2]));
      var rest := ParseFrom(q, count - |t|, b[3..]);
      if rest.Err? then rest else Ok(t + rest.value)
  }

  /** The candidates one 3-byte group contributes while count more are needed:
      d1 if below q, then d2 if below q and still needed. */
  function Kept(q: int, count: nat, d1: int, d2: int): (t: seq<int>)
    requires count > 0
    ensures |t| <= count && |t| <= 2
  {
    var t1 := if d1 < q then [d1] else [];
    t1 + (if d2 < q && |t1| < count then [d2] else [])
  }

  /** parse succeeds exactly when the input holds at least count candidates
      below q, and then returns the first count of them. */
  lemma {:induction false} ParseFromMeaning(q: int, count: nat, b: seq<byte>)
    ensures ParseFrom(q, count, b).Ok? <==> count <= |Below(q, Candidates(b))|
    ensures ParseFrom(q, count, b).Ok? ==>
      ParseFrom(q, count, b).value == Below(q, Candidates(b))[..count]
    decreases |b|
  {
    if count > 0 && |b| >= 3 {
      var d1, d2 := FirstCandidate(b[0], b[1]), SecondCandidate(b[1], b[2]);
      var t := Kept(q, count, d1, d2);
      var tail := Below(q, Candidates(b[3..]));
      var r := ParseFrom(q, count - |t|, b[3..]);
      ParseFromMeaning(q, count - |t|, b[3..]);
      KeptPrefix(q, count, d1, d2, t, tail, r);
      BelowPair(q, d1, d2, Candidates(b[3..]));
      assert Candidates(b) == [d1, d2] + Candidates(b[3..]);
      ParseFromUnfold(q, count, b, d1, d2);
    }
  }

  /** The list step of ParseFromMeaning: if the rest of the input yields the
      first count - |t| of tail, the whole yields the first count of u + tail. */
  lemma KeptPrefix(q: int, count: nat, d1: int, d2: int, t: seq<int>, tail: seq<int>, r: Result<seq<int>>)
    requires count > 0 && t == Kept(q, count, d1, d2)
    requires (r.Ok? <==> count - |t| <= |tail|) && (r.Ok? ==> r.value == tail[..count - |t|])
    ensures var all := (if d1 < q then [d1] else []) + (if d2 < q then [d2] else []) + tail;
      (Prepend(t, r).Ok? <==> count <= |all|) &&
      (Prepend(t, r).Ok? ==> Prepend(t, r).value == all[..count])
  {
    var u := (if d1 < q then [d1] else []) + (if d2 < q then [d2] else []);
    if d1 < q && count == 1 {
      assert t == [d1] && (u + tail)[..1] == [d1];
    } else {
      assert t == u;
      if r.Ok? {
        assert (u + tail)[..count] == u + tail[..count - |u|];
      }
    }
  }

  lemma BelowPair(q: int, d1: int, d2: int, s: seq<int>)
    ensures Below(q, [d1, d2] + s) ==
      (if d1 < q then [d1] else []) + (if d2 < q then [d2] else []) + Below(q, s)
  {
    BelowAppend(q, [d1, d2], s);
    assert [d1, d2][1..] == [d2];
    assert [d2][1..] == [];
  }

  /** One round of the parse loop: what the first group keeps, followed by what
      the rest of the input yields. */
  lemma ParseFromUnfold(q: int, count: nat, b: seq<byte>, d1: int, d2: int)
    requires count > 0 && |b| >= 3
    requires d1 == FirstCandidate(b[0], b[1]) && d2 == SecondCandidate(b[1], b[2])
    ensures ParseFrom(q, count, b) ==
      Prepend(Kept(q, count, d1, d2), ParseFrom(q, count - |Kept(q, count, d1, d2)|, b[3..]))
  {
  }

  function Prepend(xs: seq<int>, r: Result<seq<int>>): Result<seq<int>>
  {
    if r.Err? then r else Ok(xs + r.value)
  }

  lemma PrependTwice(xs: seq<int>, ys: seq<int>, r: Result<seq<int>>)
    ensures Prepend(xs, Prepend(ys, r)) == Prepend(xs + ys, r)
  {
    if r.Ok? {
      assert xs + (ys + r.value) == (xs + ys) + r.value;
    }
  }

  /** PolynomialRing.parse as a value. */
  function ParseSpec(ring: Ring, input: seq<byte>, isNtt: bool): (r: Result<Poly>)
  {
    var cs :- ParseFrom(ring.q, ring.n, input);
    Ok(Poly(cs, isNtt))
  }

  /** PolynomialRing.parse: fills the n coefficients from successive 3-byte groups. */
  method Parse(ring: Ring, input: seq<byte>, isNtt: bool) returns (r: Result<Poly>)
    ensures r == ParseSpec(ring, input, isNtt)
  {
    var q, n := ring.q, ring.n;
    var coefficients := new int[n](_ => 0);
    var i, j := 0, 0;
    assert input[0..] == input && coefficients[..0] == [];
    PrependTwice([], [], ParseFrom(q, n, input));
    assert ParseFrom(q, n, input).Ok? ==> [] + ParseFrom(q, n, input).value == ParseFrom(q, n, input).value;
    while j < n
      invariant 0 <= j <= n && 0 <= i <= |input|
      invariant j == |coefficients[..j]| && ParseSoFar(q, n, input, coefficients[..j], i)
      decreases |input| - i
    {
      if i + 3 > |input| {
        assert ParseFrom(q, n - j, input[i..]) == Err(BadLength);
        return Err(BadLength);
      }
      ghost var kept := coefficients[..j];
      var d1 := FirstCandidate(input[i], input[i + 1]);
      var d2 := SecondCandidate(input[i + 1], input[i + 2]);
      j := KeepCandidates(coefficients, j, q, d1, d2);
      ParseStep(q, n, input, i, kept, coefficients[..j], d1, d2);
      i := i + 3;
    }
    assert coefficients[..] == coefficients[..j];
    assert ParseFrom(q, n - j, input[i..]) == Ok([]);
    assert coefficients[..j] + [] == coefficients[..];
    r := Ok(Poly(coefficients[..], isNtt));
  }

  /** The parse loop's invariant: the coefficients stored so far, followed by
      what the input from i on yields, are the whole result. */
  predicate ParseSoFar(q: int, n: nat, input: seq<byte>, done: seq<int>, i: nat)
    requires |done| <= n && i <= |input|
  {
    ParseFrom(q, n, input) == Prepend(done, ParseFrom(q, n - |done|, input[i..]))
  }

  /** One round of the parse loop keeps its invariant: the coefficients stored
      so far, followed by what the rest of the input yields, are the result. */
  lemma ParseStep(q: int, n: nat, input: seq<byte>, i: nat, before: seq<int>, after: seq<int>,
                  d1: int, d2: int)
    requires |before| < n && i + 3 <= |input|
    requires d1 == FirstCandidate(input[i], input[i + 1]) && d2 == SecondCandidate(input[i + 1], input[i + 2])
    requires ParseSoFar(q, n, input, before, i)
    requires after == before + Kept(q, n - |before|, d1, d2)
    ensures ParseSoFar(q, n, input, after, i + 3)
  {
    var b := input[i..];
    assert b[3..] == input[i + 3..];
    assert b[0] == input[i] && b[1] == input[i + 1] && b[2] == input[i + 2];
    ParseFromUnfold(q, n - |before|, b, d1, d2);
    PrependTwice(before, Kept(q, n - |before|, d1, d2), ParseFrom(q, n - |after|, input[i + 3..]));
  }

  /** The body of one parse round: store d1 if below q, then d2 if below q and
      room is left. */
  method KeepCandidates(a: array<int>, j: int, q: int, d1: int, d2: int) returns (j': int)
    requires 0 <= j < a.Length
    modifies a
    ensures j' == j + |Kept(q, a.Length - j, d1, d2)| <= a.Length
    ensures a[..j'] == old(a[..j]) + Kept(q, a.Length - j, d1, d2)
  {
    j' := j;
    if d1 < q {
      a[j'] := d1;
      j' := j' + 1;
    }
    if d2 < q && j' < a.Length {
      a[j'] := d2;
      j' := j' + 1;
    }
  }

  /** parse returns n coefficients below q: the first n candidates below q. */
  lemma ParseMeaning(ring: Ring, input: seq<byte>, isNtt: bool)
    ensures ParseSpec(ring, input, isNtt).Ok? <==> ring.n <= |Below(ring.q, Candidates(input))|
    ensures ParseSpec(ring, input, isNtt).Ok? ==>
      var p := ParseSpec(ring, input, isNtt).value;
      Fits(ring, p) && Reduced(ring.q, p) && p.isNtt == isNtt &&
      p.coeffs == Below(ring.q, Candidates(input))[..ring.n]
  {
    ParseFromMeaning(ring.q, ring.n, input);
  }

  // ---------------------------------------------------------------------------
  // cbd (Algorithm 2): centered binomial sampling
  // ---------------------------------------------------------------------------

  /** The number of ones among the count bits from position start. */
  function SumBits(bits: seq<bit>, start: nat, count: nat): (r: nat)
    requires start + count <= |bits|
    ensures r <= count
  {
    if count == 0 then 0 else SumBits(bits, start, count - 1) + bits[start + count - 1]
  }

  /** A cbd coefficient: the ones among eta bits at start, minus the ones
      among the eta bits after them; so within [-eta, eta]. */
  function CbdCoefficient(bits: seq<bit>, eta: nat, start: nat): (r: int)
    requires start + 2 * eta <= |bits|
    ensures -(eta as int) <= r <= eta
  {
    SumBits(bits, start, eta) - SumBits(bits, start + eta, eta)
  }

  /** Coefficient i reads the 2 eta bits from 2 i eta. */
  function CbdCoefficients(bits: seq<bit>, eta: nat, count: nat): (r: seq<int>)
    requires 2 * count * eta <= |bits|
    ensures |r| == count
    ensures forall i :: 0 <= i < count ==> -(eta as int) <= r[i] <= eta
  {
    if count == 0 then []
    else CbdCoefficients(bits, eta, count - 1) + [CbdCoefficient(bits, eta, 2 * (count - 1) * eta)]
  }

  /** cbd as a value: the input must be (n >> 2) * eta bytes (an assert), and the
      bit positions read must exist, which fails when 4 does not divide n. */
  function CbdSpec(ring: Ring, input: seq<byte>, eta: nat, isNtt: bool): (r: Result<Poly>)
  {
    if (ring.n / 4) * eta != |input| then Err(BadLength)
    else if eta > 0 && ring.n % 4 != 0 then Err(BadLength)
    else
      CbdFits(ring.n, eta);
      Ok(Poly(CbdCoefficients(BytesToBits(input), eta, ring.n), isNtt))
  }

  lemma CbdFits(n: nat, eta: nat)
    requires eta == 0 || n % 4 == 0
    ensures 2 * n * eta <= 8 * ((n / 4) * eta)
  {
    if eta > 0 {
      assert n == 4 * (n / 4);
      MulAssoc(8, n / 4, eta);
      MulAssoc(2, n, eta);
    }
  }

  /** The bits of coefficient i lie inside the input exactly when 4 divides n
      or no coefficient would reach past it. */
  lemma CbdIndexBound(n: nat, eta: nat, i: nat)
    requires i < n && eta > 0
    ensures 2 * i * eta + 2 * eta <= 8 * ((n / 4) * eta) <==> i + 1 <= 4 * (n / 4)
  {
    assert 2 * i * eta + 2 * eta == (2 * eta) * (i + 1);
    assert 8 * ((n / 4) * eta) == (2 * eta) * (4 * (n / 4));
    if i + 1 <= 4 * (n / 4) {
      MulMonotone(2 * eta, i + 1, 4 * (n / 4));
    } else {
      MulMonotone(2 * eta, 4 * (n / 4) + 1, i + 1);
    }
  }

  lemma CbdNextStart(i: nat, eta: nat)
    ensures 2 * (i + 1) * eta == 2 * i * eta + 2 * eta
  {
  }

  /** PolynomialRing.cbd: fills coefficient i from its 2 eta bits. */
  method Cbd(ring: Ring, input: seq<byte>, eta: nat, isNtt: bool) returns (r: Result<Poly>)
    requires ValidRing(ring)
    ensures r == CbdSpec(ring, input, eta, isNtt)
  {
    var n := ring.n;
    if (n / 4) * eta != |input| {
      return Err(BadLength);
    }
    var bits := BytesToBits(input);
    var coefficients := new int[n](_ => 0);
    var start: nat := 0;
    for i := 0 to n
      invariant start == 2 * i * eta <= |bits|
      invariant eta > 0 ==> i <= 4 * (n / 4)
      invariant coefficients[..i] == CbdCoefficients(bits, eta, i)
    {
      if start + 2 * eta > |bits| {
        if eta == 0 {
          assert false;
        }
        CbdIndexBound(n, eta, i);
        return Err(BadLength);
      }
      if eta > 0 {
        CbdIndexBound(n, eta, i);
      }
      coefficients[i] := CbdCoefficient(bits, eta, start);
      assert coefficients[..i + 1] == coefficients[..i] + [coefficients[i]];
      CbdNextStart(i, eta);
      start := start + 2 * eta;
    }
    assert coefficients[..] == coefficients[..n];
    r := Ok(Poly(coefficients[..], isNtt));
  }

  /** cbd yields n coefficients in [-eta, eta], not reduced modulo q. */
  lemma CbdMeaning(ring: Ring, input: seq<byte>, eta: nat, isNtt: bool)
    requires ValidRing(ring) && ring.n % 4 == 0
    ensures CbdSpec(ring, input, eta, isNtt).Ok? <==> |input| == (ring.n / 4) * eta
    ensures CbdSpec(ring, input, eta, isNtt).Ok? ==>
      var p := CbdSpec(ring, input, eta, isNtt).value;
      Fits(ring, p) && p.isNtt == isNtt &&
      forall i :: 0 <= i < ring.n ==> -(eta as int) <= p.coeffs[i] <= eta
  {
  }

  // ---------------------------------------------------------------------------
  // decode (Algorithm 3) and encode
  // ---------------------------------------------------------------------------

  /** The field width decode uses: the given l, or 8 len / n when omitted;
      refused unless n l = 8 len. */
  function DecodeWidth(n: nat, len: nat, l: Option<int>): (r: Result<nat>)
    requires n >= 1
    ensures r.Ok? ==> n * r.value == 8 * len
    ensures r.Ok? <==> if l.None? then (8 * len) % n == 0 else n * l.value == 8 * len
  {
    match l
    case None =>
      if (8 * len) % n != 0 then Err(BadLength) else Ok(8 * len / n)
    case Some(w) =>
      if n * w != 8 * len then Err(BadLength)
      else
        NonNegativeFactor(n, w);
        Ok(w)
  }

  lemma NonNegativeFactor(n: nat, w: int)
    requires n >= 1 && n * w >= 0
    ensures w >= 0
  {
    if w < 0 {
      MulMonotone(n, w, -1);
    }
  }

  /** Coefficient i is the l bits from position i l, least significant first. */
  function DecodeCoeffs(bits: seq<bit>, l: nat, count: nat): (r: seq<int>)
    requires count * l <= |bits|
    ensures |r| == count && forall i :: 0 <= i < count ==> 0 <= r[i] < Pow2(l)
  {
    if count == 0 then []
    else
      FromBitsLEBound(bits[..l]);
      [FromBitsLE(bits[..l])] + DecodeCoeffs(bits[l..], l, count - 1)
  }

  lemma {:induction false} DecodeCoeffsAt(bits: seq<bit>, l: nat, count: nat, i: nat)
    requires count * l <= |bits| && i < count
    ensures i * l + l <= |bits|
    ensures DecodeCoeffs(bits, l, count)[i] == FromBitsLE(bits[i * l .. i * l + l])
  {
    MulMonotone(l, i + 1, count);
    if i > 0 {
      var s := (i - 1) * l;
      assert s + l == i * l;
      assert (count - 1) * l == count * l - l;
      DecodeCoeffsAt(bits[l..], l, count - 1, i - 1);
      assert bits[l..][s .. s + l] == bits[i * l .. i * l + l];
    }
  }

  /** PolynomialRing.decode as a value. */
  function DecodeSpec(ring: Ring, input: seq<byte>, l: Option<int>, isNtt: bool): (r: Result<Poly>)
    requires ValidRing(ring)
  {
    var w :- DecodeWidth(ring.n, |input|, l);
    Ok(Poly(DecodeCoeffs(BytesToBits(input), w, ring.n), isNtt))
  }

  /** PolynomialRing.decode: coefficient i is the sum of bit (i l + j) shifted by j. */
  method Decode(ring: Ring, input: seq<byte>, l: Option<int>, isNtt: bool) returns (r: Result<Poly>)
    requires ValidRing(ring)
    ensures r == DecodeSpec(ring, input, l, isNtt)
  {
    var n := ring.n;
    var width := DecodeWidth(n, |input|, l);
    if width.Err? {
      return Err(width.error);
    }
    var w := width.value;
    var bits := BytesToBits(input);
    ghost var spec := DecodeCoeffs(bits, w, n);
    var coefficients := new int[n](_ => 0);
    for i := 0 to n
      invariant coefficients[..i] == spec[..i]
    {
      DecodeCoeffsAt(bits, w, n, i);
      coefficients[i] := FromBitsLE(bits[i * w .. i * w + w]);
      assert coefficients[..i + 1] == coefficients[..i] + [spec[i]];
    }
    assert coefficients[..] == spec;
    r := Ok(Poly(coefficients[..], isNtt));
  }

  /** int.bit_length of a non-negative number. */
  function BitLength(c: nat): nat
  {
    if c == 0 then 0 else 1 + BitLength(c / 2)
  }

  /** c fits in l bits exactly when its bit length is at most l. */
  lemma {:induction false} BitLengthBound(c: nat, l: nat)
    ensures BitLength(c) <= l <==> c < Pow2(l)
  {
    if c > 0 && l > 0 {
      BitLengthBound(c / 2, l - 1);
    }
  }

  /** The number of binary digits format(c, 'b') prints: at least one. */
  function Digits(c: nat): nat
  {
    if c == 0 then 1 else BitLength(c)
  }

  /** One field of encode: format(c, '0lb') reversed, i.e. the digits of c
      zero-padded to l, least significant first; wider when c needs more digits. */
  function Field(c: nat, l: nat): seq<bit>
  {
    ToBitsLE(c, if Digits(c) > l then Digits(c) else l)
  }

  function EncodeBits(cs: seq<nat>, l: nat): seq<bit>
  {
    if cs == [] then [] else Field(cs[0], l) + EncodeBits(cs[1..], l)
  }

  function MaxBitLength(cs: seq<nat>): nat
    requires |cs| >= 1
  {
    if |cs| == 1 then BitLength(cs[0])
    else
      var m := MaxBitLength(cs[1..]);
      if BitLength(cs[0]) > m then BitLength(cs[0]) else m
  }

  function Naturals(cs: seq<int>): (r: seq<nat>)
    requires forall i :: 0 <= i < |cs| ==> cs[i] >= 0
    ensures r == cs
  {
    seq(|cs|, i requires 0 <= i < |cs| => cs[i] as nat)
  }

  /** Polynomial.encode: every coefficient as a field of l bits (l defaults to
      the largest bit length), concatenated and packed into bytes. A negative
      coefficient, or a negative l, makes format fail. */
  function Encode(p: Poly, l: Option<int>): (r: Result<seq<byte>>)
    requires |p.coeffs| >= 1
  {
    if exists i :: 0 <= i < |p.coeffs| && p.coeffs[i] < 0 then Err(NegativeCoefficient)
    else
      var cs := Naturals(p.coeffs);
      var w := if l.None? then MaxBitLength(cs) else l.value;
      if w < 0 then Err(OutOfRange)
      else Ok(BitsToBytes(EncodeBits(cs, w)))
  }

  predicate FitsWidth(cs: seq<int>, l: nat)
  {
    forall i :: 0 <= i < |cs| ==> 0 <= cs[i] < Pow2(l)
  }

  /** With every coefficient below 2^l (l >= 1), each field is exactly l bits. */
  lemma {:induction false} EncodeBitsLength(cs: seq<nat>, l: nat)
    requires l >= 1 && FitsWidth(cs, l)
    ensures |EncodeBits(cs, l)| == |cs| * l
  {
    if cs != [] {
      BitLengthBound(cs[0], l);
      EncodeBitsLength(cs[1..], l);
      MulSucc(|cs| - 1, l);
    }
  }

  /** Decoding fields written l bits wide gives the coefficients back. */
  lemma {:induction false} EncodeBitsExact(cs: seq<nat>, l: nat)
    requires l >= 1 && FitsWidth(cs, l)
    ensures |EncodeBits(cs, l)| == |cs| * l
    ensures DecodeCoeffs(EncodeBits(cs, l), l, |cs|) == cs
  {
    EncodeBitsLength(cs, l);
    if cs != [] {
      var c, rest := cs[0], cs[1..];
      var head, tail := Field(c, l), EncodeBits(rest, l);
      FieldOfCoefficient(c, l);
      EncodeBitsExact(rest, l);
      var bits := EncodeBits(cs, l);
      assert bits == head + tail;
      assert bits[..l] == head && bits[l..] == tail;
      MulSucc(|rest|, l);
      assert DecodeCoeffs(bits, l, |cs|) == [c] + DecodeCoeffs(tail, l, |rest|);
      assert cs == [c] + rest;
    }
  }

  /** A coefficient below 2^l is written as exactly l bits that read back as it. */
  lemma FieldOfCoefficient(c: nat, l: nat)
    requires l >= 1 && c < Pow2(l)
    ensures |Field(c, l)| == l && FromBitsLE(Field(c, l)) == c
  {
    BitLengthBound(c, l);
    assert Field(c, l) == ToBitsLE(c, l);
    FromToBitsLE(c, l);
    DivModUnique(c, Pow2(l), 0, c);
  }

  /** Re-encoding decoded fields gives the bits back. */
  lemma {:induction false} DecodeEncodeBits(bits: seq<bit>, l: nat, count: nat)
    requires l >= 1 && |bits| == count * l
    ensures FitsWidth(DecodeCoeffs(bits, l, count), l)
    ensures EncodeBits(Naturals(DecodeCoeffs(bits, l, count)), l) == bits
  {
    if count > 0 {
      var head, tail := bits[..l], bits[l..];
      MulSucc(count - 1, l);
      DecodeEncodeBits(tail, l, count - 1);
      var rest := DecodeCoeffs(tail, l, count - 1);
      var c := FromBitsLE(head);
      FieldOfDecoded(head, l);
      var cs := DecodeCoeffs(bits, l, count);
      assert cs == [c] + rest;
      assert Naturals(cs) == [c] + Naturals(rest);
      assert EncodeBits(Naturals(cs), l) == Field(c, l) + EncodeBits(Naturals(rest), l);
      assert bits == head + tail;
    }
  }

  /** The l bits of one decoded coefficient are what encode writes for it. */
  lemma FieldOfDecoded(head: seq<bit>, l: nat)
    requires |head| == l >= 1
    ensures FromBitsLE(head) < Pow2(l) && Field(FromBitsLE(head), l) == head
  {
    FromBitsLEBound(head);
    BitLengthBound(FromBitsLE(head), l);
    ToFromBitsLE(head);
  }


  /** encode then decode with the same l >= 1 gives the polynomial back, when
      every coefficient fits in l bits and n l is a whole number of bytes; the
      encoding is n l / 8 bytes long. */
  lemma EncodeDecodeRoundTrip(ring: Ring, p: Poly, l: nat)
    requires ValidRing(ring) && Fits(ring, p) && l >= 1 && FitsWidth(p.coeffs, l)
    requires (ring.n * l) % 8 == 0
    ensures Encode(p, Some(l)).Ok?
    ensures |Encode(p, Some(l)).value| == ring.n * l / 8
    ensures DecodeSpec(ring, Encode(p, Some(l)).value, Some(l), p.isNtt) == Ok(p)
  {
    var cs := Naturals(p.coeffs);
    var bits := EncodeBits(cs, l);
    EncodeBitsExact(cs, l);
    assert |bits| == ring.n * l;
    BytesBitsRoundTrip(bits);
    assert BytesToBits(Encode(p, Some(l)).value) == bits;
  }

  /** decode then encode with the same l >= 1 gives the bytes back. */
  lemma DecodeEncodeRoundTrip(ring: Ring, input: seq<byte>, l: nat, isNtt: bool)
    requires ValidRing(ring) && l >= 1 && DecodeSpec(ring, input, Some(l), isNtt).Ok?
    ensures Encode(DecodeSpec(ring, input, Some(l), isNtt).value, Some(l)) == Ok(input)
  {
    var bits := BytesToBits(input);
    DecodeEncodeBits(bits, l, ring.n);
    BitsBytesRoundTrip(input);
  }

  /** decode yields n coefficients below 2^l. */
  lemma DecodeMeaning(ring: Ring, input: seq<byte>, l: Option<int>, isNtt: bool)
    requires ValidRing(ring)
    ensures DecodeSpec(ring, input, l, isNtt).Ok? <==>
      if l.None? then (8 * |input|) % ring.n == 0 else ring.n * l.value == 8 * |input|
    ensures DecodeSpec(ring, input, l, isNtt).Ok? ==>
      var p := DecodeSpec(ring, input, l, isNtt).value;
      var w := DecodeWidth(ring.n, |input|, l).value;
      Fits(ring, p) && p.isNtt == isNtt && FitsWidth(p.coeffs, w)
  {
  }

  // ---------------------------------------------------------------------------
  // Reduction and lossy compression
  // ---------------------------------------------------------------------------

  /** reduce_coefficents: every coefficient replaced by its canonical residue. */
  function ReduceCoefficients(q: int, p: Poly): (r: Poly)
    requires q >= 1
    ensures |r.coeffs| == |p.coeffs| && r.isNtt == p.isNtt && Reduced(q, r)
    ensures forall i :: 0 <= i < |p.coeffs| ==> r.coeffs[i] % q == p.coeffs[i] % q
  {
    Poly(seq(|p.coeffs|, i requires 0 <= i < |p.coeffs| => Residue(q, p.coeffs[i])), p.isNtt)
  }

  function Residue(q: int, x: int): (r: int)
    requires q >= 1
    ensures 0 <= r < q && r % q == x % q
  {
    DivModUnique(x % q, q, 0, x % q);
    x % q
  }

  /** Reducing leaves an already reduced polynomial alone, so reducing twice is
      reducing once. */
  lemma ReduceFixesReduced(q: int, p: Poly)
    requires q >= 1 && Reduced(q, p)
    ensures ReduceCoefficients(q, p) == p
  {
    var r := ReduceCoefficients(q, p);
    forall i | 0 <= i < |p.coeffs|
      ensures r.coeffs[i] == p.coeffs[i]
    {
      DivModUnique(p.coeffs[i], q, 0, p.coeffs[i]);
    }
  }

  lemma ReduceIdempotent(q: int, p: Poly)
    requires q >= 1
    ensures ReduceCoefficients(q, ReduceCoefficients(q, p)) == ReduceCoefficients(q, p)
  {
    ReduceFixesReduced(q, ReduceCoefficients(q, p));
  }

  /** compress of one coefficient: round_up(2^d / q * c) mod 2^d, with the
      rounding (half up) done on the exact rational. */
  function CompressCoefficient(q: int, d: nat, c: int): (r: int)
    requires q >= 1
    ensures 0 <= r < Pow2(d)
  {
    RoundUp(Pow2(d) * c, q) % Pow2(d)
  }

  /** decompress of one coefficient: round_up(q / 2^d * c). */
  function DecompressCoefficient(q: int, d: nat, c: int): (r: int)
    requires q >= 1
    ensures 0 <= c < Pow2(d) ==> 0 <= r <= q
  {
    var z := RoundUp(q * c, Pow2(d));
    if 0 <= c < Pow2(d) then RoundUpScaled(q * c, Pow2(d), z); DecompressBounds(q, Pow2(d), c, z); z else z
  }

  lemma DecompressBounds(q: int, D: int, c: int, z: int)
    requires q >= 1 && D >= 1 && 0 <= c < D
    requires 2 * (D * z) <= 2 * (q * c) + D < 2 * (D * z) + 2 * D
    ensures 0 <= z <= q
  {
    ScaledResidueBounds(q, D, c);
    assert D * (q + 1) == D * q + D && D * (z + 1) == D * z + D;
    MulCancelLess(D, -1, z + 1);
    MulCancelLess(D, z, q + 1);
  }

  /** q c for a d-bit value c lies in [0, q (2^d - 1)]. */
  lemma ScaledResidueBounds(q: int, D: int, c: int)
    requires q >= 1 && 0 <= c < D
    ensures 0 <= q * c && q * c + q <= D * q
  {
    MulMonotone(q, 0, c);
    MulMonotone(q, c + 1, D);
    assert q * (c + 1) == q * c + q && q * D == D * q;
  }

  /** compress: each coefficient to d bits; the result fits in d bits. */
  function Compress(q: int, p: Poly, d: nat): (r: Poly)
    requires q >= 1
    ensures |r.coeffs| == |p.coeffs| && r.isNtt == p.isNtt && FitsWidth(r.coeffs, d)
  {
    Poly(seq(|p.coeffs|, i requires 0 <= i < |p.coeffs| => CompressCoefficient(q, d, p.coeffs[i])), p.isNtt)
  }

  /** decompress: each d-bit coefficient back to [0, q]. */
  function Decompress(q: int, p: Poly, d: nat): (r: Poly)
    requires q >= 1
    ensures |r.coeffs| == |p.coeffs| && r.isNtt == p.isNtt
    ensures FitsWidth(p.coeffs, d) ==> forall i :: 0 <= i < |r.coeffs| ==> 0 <= r.coeffs[i] <= q
  {
    Poly(seq(|p.coeffs|, i requires 0 <= i < |p.coeffs| => DecompressCoefficient(q, d, p.coeffs[i])), p.isNtt)
  }

  /** Decompressing a residue's compression lands within q / 2^(d+1) (plus half
      a step) of it, measured cyclically modulo q:
      |z - x| <= (q + 2^d) / 2^(d+1), directly or across the wrap at q. */
  predicate Close(q: int, D: int, x: int, z: int)
  {
    (-(q + D) <= 2 * D * (z - x) <= q + D) || (-(q + D) <= 2 * D * (z + q - x) <= q + D)
  }

  lemma CompressDecompressError(q: int, d: nat, x: int)
    requires q >= 1 && 0 <= x < q
    ensures Close(q, Pow2(d), x, DecompressCoefficient(q, d, CompressCoefficient(q, d, x)))
  {
    var D := Pow2(d);
    var y := RoundUp(D * x, q);
    RoundUpScaled(D * x, q, y);
    CompressedRange(q, D, x, y);
    var c := CompressCoefficient(q, d, x);
    var z := DecompressCoefficient(q, d, c);
    RoundUpScaled(q * c, D, z);
    if y < D {
      DivModUnique(y, D, 0, y);
      CloseDirect(q, D, x, y, z);
    } else {
      DivModUnique(y, D, 1, 0);
      assert q * c == q * 0 == 0;
      CloseAcrossWrap(q, D, x, z);
    }
  }

  /** RoundUp's bracket with the products split off. */
  lemma RoundUpScaled(num: int, den: int, r: int)
    requires den > 0 && 2 * den * r <= 2 * num + den < 2 * den * (r + 1)
    ensures 2 * (den * r) <= 2 * num + den < 2 * (den * r) + 2 * den
  {
    assert 2 * den * r == 2 * (den * r);
    assert 2 * den * (r + 1) == 2 * (den * r) + 2 * den;
  }

  /** The rounded scaled value of a residue lies in [0, 2^d]. */
  lemma CompressedRange(q: int, D: int, x: int, y: int)
    requires q >= 1 && D >= 1 && 0 <= x < q
    requires 2 * (q * y) <= 2 * (D * x) + q < 2 * (q * y) + 2 * q
    ensures 0 <= y <= D
  {
    MulMonotone(D, 0, x);
    MulMonotone(D, x, q - 1);
    MulSucc(q - 1, D);
    assert D * (q - 1) == (q - 1) * D && q * D == D * q;
    MulCancelLess(q, -1, y + 1);
    MulCancelLess(q, y, D + 1);
  }

  lemma CloseDirect(q: int, D: int, x: int, y: int, z: int)
    requires q >= 1 && D >= 1
    requires 2 * (q * y) <= 2 * (D * x) + q < 2 * (q * y) + 2 * q
    requires 2 * (D * z) <= 2 * (q * y) + D < 2 * (D * z) + 2 * D
    ensures -(q + D) <= 2 * D * (z - x) <= q + D
  {
    assert 2 * D * (z - x) == 2 * (D * z) - 2 * (D * x);
  }

  /** Rounding D * 0 / D: the only z with 2Dz <= D < 2Dz + 2D is 0. */
  lemma RoundsToZero(D: int, z: int)
    requires D >= 1 && 2 * (D * z) <= D < 2 * (D * z) + 2 * D
    ensures z == 0
  {
    assert D * (2 * z + 1) == 2 * (D * z) + D && D * (2 * z) == 2 * (D * z);
    MulCancelLess(D, -1, 2 * z + 1);
    MulCancelLess(D, 2 * z, 2);
  }

  lemma CloseAcrossWrap(q: int, D: int, x: int, z: int)
    requires q >= 1 && D >= 1 && 0 <= x < q
    requires 2 * (q * D) <= 2 * (D * x) + q
    requires 2 * (D * z) <= D < 2 * (D * z) + 2 * D
    ensures -(q + D) <= 2 * D * (z + q - x) <= q + D
  {
    RoundsToZero(D, z);
    MulMonotone(D, x, q);
    assert 2 * D * (z + q - x) == 2 * (q * D) - 2 * (D * x);
  }

  /** With fewer than q compressed values (2^d < q), compressing a decompressed
      value gives it back exactly. */
  lemma DecompressCompressRoundTrip(q: int, d: nat, y: int)
    requires q >= 1 && Pow2(d) < q && 0 <= y < Pow2(d)
    ensures CompressCoefficient(q, d, DecompressCoefficient(q, d, y)) == y
  {
    var D := Pow2(d);
    var z := DecompressCoefficient(q, d, y);
    RoundUpScaled(q * y, D, z);
    var y' := RoundUp(D * z, q);
    RoundUpScaled(D * z, q, y');
    RecompressExact(q, D, y, z, y');
    DivModUnique(y, D, 0, y);
  }

  lemma RecompressExact(q: int, D: int, y: int, z: int, y': int)
    requires 1 <= D < q
    requires 2 * (D * z) <= 2 * (q * y) + D < 2 * (D * z) + 2 * D
    requires 2 * (q * y') <= 2 * (D * z) + q < 2 * (q * y') + 2 * q
    ensures y' == y
  {
    assert q * (y + 1) == q * y + q;
    MulCancelLess(q, y', y + 1);
    assert q * (y' + 1) == q * y' + q;
    MulCancelLess(q, y - 1, y' + 1);
  }

  /** The compress/decompress error bound for every coefficient of a reduced
      polynomial. */
  lemma PolyCompressDecompressError(q: int, p: Poly, d: nat)
    requires q >= 1 && Reduced(q, p)
    ensures var z := Decompress(q, Compress(q, p, d), d);
      |z.coeffs| == |p.coeffs| && z.isNtt == p.isNtt &&
      forall i :: 0 <= i < |p.coeffs| ==> Close(q, Pow2(d), p.coeffs[i], z.coeffs[i])
  {
    forall i | 0 <= i < |p.coeffs|
      ensures Close(q, Pow2(d), p.coeffs[i], Decompress(q, Compress(q, p, d), d).coeffs[i])
    {
      CompressDecompressError(q, d, p.coeffs[i]);
    }
  }

  /** Compressing the decompression of d-bit coefficients gives them back. */
  lemma PolyDecompressCompressRoundTrip(q: int, p: Poly, d: nat)
    requires q >= 1 && Pow2(d) < q && FitsWidth(p.coeffs, d)
    ensures Compress(q, Decompress(q, p, d), d) == p
  {
    forall i | 0 <= i < |p.coeffs|
      ensures Compress(q, Decompress(q, p, d), d).coeffs[i] == p.coeffs[i]
    {
      DecompressCompressRoundTrip(q, d, p.coeffs[i]);
    }
  }

  // ---------------------------------------------------------------------------
  // Addition, subtraction, negation
  // ---------------------------------------------------------------------------

  /** add_mod_q: one conditional subtraction of q. */
  function AddModQ(q: int, x: int, y: int): int
  {
    var t := x + y;
    if t >= q then t - q else t
  }

  /** sub_mod_q: one conditional addition of q. */
  function SubModQ(q: int, x: int, y: int): int
  {
    var t := x - y;
    if t < 0 then t + q else t
  }

  /** On residues the single correction is enough: the results are the
      canonical residues of x + y and x - y. */
  lemma AddModQMeaning(q: int, x: int, y: int)
    requires 0 <= x < q && 0 <= y < q
    ensures AddModQ(q, x, y) == (x + y) % q
  {
    if x + y >= q {
      DivModUnique(x + y, q, 1, x + y - q);
    } else {
      DivModUnique(x + y, q, 0, x + y);
    }
  }

  lemma SubModQMeaning(q: int, x: int, y: int)
    requires 0 <= x < q && 0 <= y < q
    ensures SubModQ(q, x, y) == (x - y) % q
  {
    if x - y < 0 {
      DivModUnique(x - y, q, -1, x - y + q);
    } else {
      DivModUnique(x - y, q, 0, x - y);
    }
  }

  function Min(a: int, b: int): int
  {
    if a <= b then a else b
  }

  /** __add__ with a polynomial: refused when exactly one operand is in NTT form;
      otherwise add_mod_q over the zipped coefficient lists (zip stops at the
      shorter one), then the constructor pads back to n. */
  function Add(ring: Ring, p: Poly, o: Poly): (r: Result<Poly>)
    requires Fits(ring, p)
    ensures r.Err? <==> p.isNtt != o.isNtt
    ensures r.Err? ==> r.error == TagMismatch
    ensures r.Ok? ==> Fits(ring, r.value) && r.value.isNtt == p.isNtt
  {
    if p.isNtt != o.isNtt then Err(TagMismatch)
    else
      var k := Min(|p.coeffs|, |o.coeffs|);
      MakePoly(ring, seq(k, i requires 0 <= i < k => AddModQ(ring.q, p.coeffs[i], o.coeffs[i])), p.isNtt)
  }

  /** __sub__ with a polynomial, as Add with sub_mod_q. */
  function Sub(ring: Ring, p: Poly, o: Poly): (r: Result<Poly>)
    requires Fits(ring, p)
    ensures r.Err? <==> p.isNtt != o.isNtt
    ensures r.Err? ==> r.error == TagMismatch
    ensures r.Ok? ==> Fits(ring, r.value) && r.value.isNtt == p.isNtt
  {
    if p.isNtt != o.isNtt then Err(TagMismatch)
    else
      var k := Min(|p.coeffs|, |o.coeffs|);
      MakePoly(ring, seq(k, i requires 0 <= i < k => SubModQ(ring.q, p.coeffs[i], o.coeffs[i])), p.isNtt)
  }

  /** __add__ with an int: only the constant coefficient changes. */
  function AddInt(ring: Ring, p: Poly, c: int): (r: Poly)
    requires ValidRing(ring) && Fits(ring, p)
    ensures Fits(ring, r) && r.isNtt == p.isNtt
    ensures forall i :: 1 <= i < ring.n ==> r.coeffs[i] == p.coeffs[i]
  {
    Poly(p.coeffs[0 := AddModQ(ring.q, p.coeffs[0], c)], p.isNtt)
  }

  /** __sub__ with an int: only the constant coefficient changes. */
  function SubInt(ring: Ring, p: Poly, c: int): (r: Poly)
    requires ValidRing(ring) && Fits(ring, p)
    ensures Fits(ring, r) && r.isNtt == p.isNtt
    ensures forall i :: 1 <= i < ring.n ==> r.coeffs[i] == p.coeffs[i]
  {
    Poly(p.coeffs[0 := SubModQ(ring.q, p.coeffs[0], c)], p.isNtt)
  }

  /** __neg__: every coefficient replaced by the residue of its negation. */
  function Neg(ring: Ring, p: Poly): (r: Poly)
    requires ValidRing(ring)
    ensures |r.coeffs| == |p.coeffs| && r.isNtt == p.isNtt && Reduced(ring.q, r)
    ensures forall i :: 0 <= i < |p.coeffs| ==> (r.coeffs[i] + p.coeffs[i]) % ring.q == 0
  {
    Poly(seq(|p.coeffs|, i requires 0 <= i < |p.coeffs| => NegCoefficient(ring.q, p.coeffs[i])), p.isNtt)
  }

  /** (-x) mod q: the residue that adds to x to give a multiple of q. */
  function NegCoefficient(q: int, x: int): (r: int)
    requires q >= 1
    ensures 0 <= r < q && (r + x) % q == 0
  {
    var r := (-x) % q;
    DivModUnique(r + x, q, -((-x) / q), 0);
    r
  }

  /** For reduced operands of one ring and one form, p + o and p - o are the
      coefficient-wise sums and differences reduced modulo q. */
  lemma AddSubMeaning(ring: Ring, p: Poly, o: Poly)
    requires ValidRing(ring) && Fits(ring, p) && Fits(ring, o) && p.isNtt == o.isNtt
    requires Reduced(ring.q, p) && Reduced(ring.q, o)
    ensures Add(ring, p, o).Ok? && Sub(ring, p, o).Ok?
    ensures forall i :: 0 <= i < ring.n ==>
      Add(ring, p, o).value.coeffs[i] == (p.coeffs[i] + o.coeffs[i]) % ring.q &&
      Sub(ring, p, o).value.coeffs[i] == (p.coeffs[i] - o.coeffs[i]) % ring.q
  {
    forall i | 0 <= i < ring.n
      ensures Add(ring, p, o).value.coeffs[i] == (p.coeffs[i] + o.coeffs[i]) % ring.q
      ensures Sub(ring, p, o).value.coeffs[i] == (p.coeffs[i] - o.coeffs[i]) % ring.q
    {
      AddModQMeaning(ring.q, p.coeffs[i], o.coeffs[i]);
      SubModQMeaning(ring.q, p.coeffs[i], o.coeffs[i]);
    }
  }

  /** Addition commutes, refusals included. */
  lemma AddCommutes(ring: Ring, p: Poly, o: Poly)
    requires Fits(ring, p) && Fits(ring, o)
    ensures Add(ring, p, o) == Add(ring, o, p)
  {
    if p.isNtt == o.isNtt {
      var n := ring.n;
      var u := seq(n, i requires 0 <= i < n => AddModQ(ring.q, p.coeffs[i], o.coeffs[i]));
      var v := seq(n, i requires 0 <= i < n => AddModQ(ring.q, o.coeffs[i], p.coeffs[i]));
      assert u == v;
    }
  }

  /** Subtraction undoes addition: (p - o) + o = p for reduced operands. */
  lemma SubThenAdd(ring: Ring, p: Poly, o: Poly)
    requires ValidRing(ring) && Fits(ring, p) && Fits(ring, o) && p.isNtt == o.isNtt
    requires Reduced(ring.q, p) && Reduced(ring.q, o)
    ensures Sub(ring, p, o).Ok? && Add(ring, Sub(ring, p, o).value, o) == Ok(p)
  {
    var d := Sub(ring, p, o).value;
    assert Reduced(ring.q, d) by {
      AddSubMeaning(ring, p, o);
    }
    var s := Add(ring, d, o).value;
    forall i | 0 <= i < ring.n
      ensures s.coeffs[i] == p.coeffs[i]
    {
      AddModQMeaning(ring.q, d.coeffs[i], o.coeffs[i]);
    }
    assert s.coeffs == p.coeffs;
  }

  /** p + (-p) is the zero polynomial. */
  lemma AddNegIsZero(ring: Ring, p: Poly)
    requires ValidRing(ring) && Fits(ring, p) && Reduced(ring.q, p)
    ensures Add(ring, p, Neg(ring, p)).Ok? && IsZero(Add(ring, p, Neg(ring, p)).value)
  {
    var m := Neg(ring, p);
    forall i | 0 <= i < ring.n
      ensures Add(ring, p, m).value.coeffs[i] == 0
    {
      AddModQMeaning(ring.q, p.coeffs[i], m.coeffs[i]);
    }
  }

  /** Adding an int is adding the constant polynomial of that int. */
  lemma AddIntIsAddConstant(ring: Ring, p: Poly, c: int)
    requires ValidRing(ring) && Fits(ring, p) && Reduced(ring.q, p)
    ensures Add(ring, p, ConstantPoly(ring, c, p.isNtt)) == Ok(AddInt(ring, p, c))
    ensures Sub(ring, p, ConstantPoly(ring, c, p.isNtt)) == Ok(SubInt(ring, p, c))
  {
    var k := ConstantPoly(ring, c, p.isNtt);
    var a, s := Add(ring, p, k).value, Sub(ring, p, k).value;
    forall i | 0 <= i < ring.n
      ensures a.coeffs[i] == AddInt(ring, p, c).coeffs[i]
      ensures s.coeffs[i] == SubInt(ring, p, c).coeffs[i]
    {
    }
    assert a.coeffs == AddInt(ring, p, c).coeffs;
    assert s.coeffs == SubInt(ring, p, c).coeffs;
  }

  // ---------------------------------------------------------------------------
  // Negacyclic schoolbook multiplication
  // ---------------------------------------------------------------------------

  /** The sum over i' < i, i' <= k, of a[i'] * b[k - i']: the products a_i' b_j'
      with i' + j' = k, which land on X^k directly. */
  function PosSum(a: seq<int>, b: seq<int>, k: int, i: nat): int
    requires i <= |a| && 0 <= k < |b|
  {
    if i == 0 then 0
    else PosSum(a, b, k, i - 1) + (if i - 1 <= k then a[i - 1] * b[k - (i - 1)] else 0)
  }

  /** The sum over j' < j, j' > k, of a[k + n - j'] * b[j']: the products with
      i' + j' = k + n, which wrap onto X^k with a minus sign since X^n = -1. */
  function NegSum(a: seq<int>, b: seq<int>, k: int, j: nat): int
    requires |a| == |b| && j <= |b| && 0 <= k < |a|
  {
    if j == 0 then 0
    else NegSum(a, b, k, j - 1) + (if j - 1 > k then a[k + |a| - (j - 1)] * b[j - 1] else 0)
  }

  /** The product of a and b in Z_q[X] / (X^n + 1), coefficient by coefficient. */
  function NegacyclicProduct(q: int, a: seq<int>, b: seq<int>): (r: seq<int>)
    requires q >= 1 && |a| == |b|
    ensures |r| == |a| && forall k :: 0 <= k < |r| ==> 0 <= r[k] < q
  {
    seq(|a|, k requires 0 <= k < |a| => (PosSum(a, b, k, |a|) - NegSum(a, b, k, |a|)) % q)
  }

  /** schoolbook_multiplication: accumulate the direct products, subtract the
      wrapped ones, reduce. */
  method SchoolbookMultiplication(q: int, a: seq<int>, b: seq<int>) returns (r: seq<int>)
    requires q >= 1 && |a| == |b| >= 1
    ensures r == NegacyclicProduct(q, a, b)
  {
    var n := |a|;
    var acc := new int[n](_ => 0);
    for i := 0 to n
      invariant forall k :: 0 <= k < n ==> acc[k] == PosSum(a, b, k, i)
    {
      AccumulateRow(acc, a, b, i);
    }
    for j := 1 to n
      invariant forall k :: 0 <= k < n ==> acc[k] == PosSum(a, b, k, n) - NegSum(a, b, k, j)
    {
      SubtractColumn(acc, a, b, j);
    }
    r := seq(n, k requires 0 <= k < n reads acc => acc[k] % q);
  }

  /** The inner loop of the first nest: a[i] * b[j] added to position i + j. */
  method AccumulateRow(acc: array<int>, a: seq<int>, b: seq<int>, i: int)
    requires acc.Length == |a| == |b| && 0 <= i < |a|
    requires forall k :: 0 <= k < acc.Length ==> acc[k] == PosSum(a, b, k, i)
    modifies acc
    ensures forall k :: 0 <= k < acc.Length ==> acc[k] == PosSum(a, b, k, i + 1)
  {
    var n := |a|;
    for j := 0 to n - i
      invariant forall k :: 0 <= k < n ==>
        acc[k] == PosSum(a, b, k, i) + (if i <= k < i + j then a[i] * b[k - i] else 0)
    {
      acc[i + j] := acc[i + j] + a[i] * b[j];
    }
  }

  /** The inner loop of the second nest: a[i] * b[j] subtracted from position
      i + j - n. */
  method SubtractColumn(acc: array<int>, a: seq<int>, b: seq<int>, j: int)
    requires acc.Length == |a| == |b| && 1 <= j < |a|
    requires forall k :: 0 <= k < acc.Length ==> acc[k] == PosSum(a, b, k, |a|) - NegSum(a, b, k, j)
    modifies acc
    ensures forall k :: 0 <= k < acc.Length ==> acc[k] == PosSum(a, b, k, |a|) - NegSum(a, b, k, j + 1)
  {
    var n := |a|;
    for i := n - j to n
      invariant forall k :: 0 <= k < n ==>
        acc[k] == PosSum(a, b, k, n) - NegSum(a, b, k, j) - (if k < i + j - n then a[k + n - j] * b[j] else 0)
    {
      acc[i + j - n] := acc[i + j - n] - a[i] * b[j];
    }
  }

  /** b is the constant polynomial c. */
  predicate IsConstantSeq(b: seq<int>, c: int)
  {
    |b| >= 1 && b[0] == c && forall t :: 1 <= t < |b| ==> b[t] == 0
  }

  /** b is the monomial X. */
  predicate IsX(b: seq<int>)
  {
    |b| >= 2 && b[1] == 1 && b[0] == 0 && forall t :: 2 <= t < |b| ==> b[t] == 0
  }

  lemma {:induction false} PosSumByConstant(a: seq<int>, b: seq<int>, k: int, i: nat, c: int)
    requires |a| == |b| && i <= |a| && 0 <= k < |b| && IsConstantSeq(b, c)
    ensures PosSum(a, b, k, i) == if i > k then a[k] * c else 0
  {
    if i > 0 {
      PosSumByConstant(a, b, k, i - 1, c);
    }
  }

  lemma {:induction false} NegSumByConstant(a: seq<int>, b: seq<int>, k: int, j: nat, c: int)
    requires |a| == |b| && j <= |b| && 0 <= k < |a| && IsConstantSeq(b, c)
    ensures NegSum(a, b, k, j) == 0
  {
    if j > 0 {
      NegSumByConstant(a, b, k, j - 1, c);
    }
  }

  /** Multiplying by the constant polynomial c scales every coefficient by c. */
  lemma ProductByConstant(q: int, a: seq<int>, b: seq<int>, c: int)
    requires q >= 1 && |a| == |b| && IsConstantSeq(b, c)
    ensures forall k :: 0 <= k < |a| ==> NegacyclicProduct(q, a, b)[k] == (a[k] * c) % q
  {
    forall k | 0 <= k < |a|
      ensures NegacyclicProduct(q, a, b)[k] == (a[k] * c) % q
    {
      PosSumByConstant(a, b, k, |a|, c);
      NegSumByConstant(a, b, k, |a|, c);
    }
  }

  lemma {:induction false} PosSumOfConstant(a: seq<int>, b: seq<int>, k: int, i: nat, c: int)
    requires |a| == |b| && i <= |a| && 0 <= k < |b| && IsConstantSeq(a, c)
    ensures PosSum(a, b, k, i) == if i > 0 then c * b[k] else 0
  {
    if i > 0 {
      PosSumOfConstant(a, b, k, i - 1, c);
    }
  }

  lemma {:induction false} NegSumOfConstant(a: seq<int>, b: seq<int>, k: int, j: nat, c: int)
    requires |a| == |b| && j <= |b| && 0 <= k < |a| && IsConstantSeq(a, c)
    ensures NegSum(a, b, k, j) == 0
  {
    if j > 0 {
      NegSumOfConstant(a, b, k, j - 1, c);
    }
  }

  /** The constant polynomial c times b scales every coefficient of b by c. */
  lemma ConstantTimesProduct(q: int, a: seq<int>, b: seq<int>, c: int)
    requires q >= 1 && |a| == |b| && IsConstantSeq(a, c)
    ensures forall k :: 0 <= k < |b| ==> NegacyclicProduct(q, a, b)[k] == (c * b[k]) % q
  {
    forall k | 0 <= k < |b|
      ensures NegacyclicProduct(q, a, b)[k] == (c * b[k]) % q
    {
      PosSumOfConstant(a, b, k, |a|, c);
      NegSumOfConstant(a, b, k, |a|, c);
    }
  }

  lemma {:induction false} PosSumByX(a: seq<int>, b: seq<int>, k: int, i: nat)
    requires |a| == |b| && i <= |a| && 0 <= k < |b| && IsX(b)
    ensures PosSum(a, b, k, i) == if 1 <= k <= i then a[k - 1] else 0
  {
    if i > 0 {
      PosSumByX(a, b, k, i - 1);
    }
  }

  lemma {:induction false} NegSumByX(a: seq<int>, b: seq<int>, k: int, j: nat)
    requires |a| == |b| && j <= |b| && 0 <= k < |a| && IsX(b)
    ensures NegSum(a, b, k, j) == if k == 0 && j >= 2 then a[|a| - 1] else 0
  {
    if j > 0 {
      NegSumByX(a, b, k, j - 1);
    }
  }

  /** Multiplying by X shifts the coefficients up by one and wraps the top one
      round to the constant term with its sign flipped: X^n = -1. */
  lemma ProductByX(q: int, a: seq<int>, b: seq<int>)
    requires q >= 1 && |a| == |b| && IsX(b)
    ensures NegacyclicProduct(q, a, b)[0] == (-a[|a| - 1]) % q
    ensures forall k :: 1 <= k < |a| ==> NegacyclicProduct(q, a, b)[k] == a[k - 1] % q
  {
    PosSumByX(a, b, 0, |a|);
    NegSumByX(a, b, 0, |a|);
    forall k | 1 <= k < |a|
      ensures NegacyclicProduct(q, a, b)[k] == a[k - 1] % q
    {
      PosSumByX(a, b, k, |a|);
      NegSumByX(a, b, k, |a|);
    }
  }

  // ---------------------------------------------------------------------------
  // Multiplication and powers
  // ---------------------------------------------------------------------------

  /** ntt_multiplication: needs the ring's NTT helper and two NTT-form operands;
      the result is in NTT form. */
  function NttMultiplication(ring: Ring, p: Poly, o: Poly): (r: Result<Poly>)
    requires ValidRing(ring) && Fits(ring, p) && Fits(ring, o)
    ensures r.Ok? <==> ring.nttZetas.Some? && p.isNtt && o.isNtt
    ensures r.Err? ==> r.error == (if ring.nttZetas.None? then NoNttHelper else NotNtt)
    ensures r.Ok? ==> Fits(ring, r.value) && r.value.isNtt
  {
    if ring.nttZetas.None? then Err(NoNttHelper)
    else if !(p.isNtt && o.isNtt) then Err(NotNtt)
    else Ok(Poly(NttCoefficientProduct(ring.nttZetas.value, p.coeffs, o.coeffs), true))
  }

  /** __mul__ with an int: every coefficient scaled and reduced. */
  function MulInt(ring: Ring, p: Poly, c: int): (r: Poly)
    requires ValidRing(ring)
    ensures |r.coeffs| == |p.coeffs| && r.isNtt == p.isNtt && Reduced(ring.q, r)
    ensures forall i :: 0 <= i < |p.coeffs| ==> r.coeffs[i] % ring.q == (p.coeffs[i] * c) % ring.q
  {
    Poly(seq(|p.coeffs|, i requires 0 <= i < |p.coeffs| => Residue(ring.q, p.coeffs[i] * c)), p.isNtt)
  }

  /** Scaling by a and then by b is scaling by a * b. */
  lemma MulIntCompose(ring: Ring, p: Poly, a: int, b: int)
    requires ValidRing(ring)
    ensures MulInt(ring, MulInt(ring, p, a), b) == MulInt(ring, p, a * b)
  {
    var q := ring.q;
    forall i | 0 <= i < |p.coeffs|
      ensures MulInt(ring, MulInt(ring, p, a), b).coeffs[i] == MulInt(ring, p, a * b).coeffs[i]
    {
      ScaleTwice(q, p.coeffs[i], a, b);
    }
  }

  lemma ScaleTwice(q: int, x: int, a: int, b: int)
    requires q >= 1
    ensures (((x * a) % q) * b) % q == (x * (a * b)) % q
  {
    MulModCongruent((x * a) % q, x * a, b, q);
    MulAssoc(x, a, b);
  }

  /** __mul__ with a polynomial: NTT-form operands go to ntt_multiplication,
      mixed forms are refused, standard-form operands use the schoolbook
      product. */
  function Product(ring: Ring, p: Poly, o: Poly): (r: Result<Poly>)
    requires ValidRing(ring) && Fits(ring, p) && Fits(ring, o)
    ensures r.Ok? ==> Fits(ring, r.value) && r.value.isNtt == p.isNtt
    ensures p.isNtt != o.isNtt ==> r == Err(TagMismatch)
    ensures p.isNtt && o.isNtt ==> r == NttMultiplication(ring, p, o)
    ensures !p.isNtt && !o.isNtt ==> r.Ok? && Reduced(ring.q, r.value)
  {
    if p.isNtt && o.isNtt then NttMultiplication(ring, p, o)
    else if p.isNtt != o.isNtt then Err(TagMismatch)
    else Ok(Poly(NegacyclicProduct(ring.q, p.coeffs, o.coeffs), p.isNtt))
  }

  /** __mul__ with a polynomial, running the loops of the schoolbook and NTT
      products. */
  method Mul(ring: Ring, p: Poly, o: Poly) returns (r: Result<Poly>)
    requires ValidRing(ring) && Fits(ring, p) && Fits(ring, o)
    ensures r == Product(ring, p, o)
  {
    if p.isNtt && o.isNtt {
      if ring.nttZetas.None? {
        return Err(NoNttHelper);
      }
      var cs := NttCoefficientMultiplication(ring.nttZetas.value, p.coeffs, o.coeffs);
      return Ok(Poly(cs, true));
    } else if p.isNtt != o.isNtt {
      return Err(TagMismatch);
    }
    var cs := SchoolbookMultiplication(ring.q, p.coeffs, o.coeffs);
    r := Ok(Poly(cs, p.isNtt));
  }

  /** Multiplying by an int is multiplying by its constant polynomial. */
  lemma MulIntIsProductByConstant(ring: Ring, p: Poly, c: int)
    requires ValidRing(ring) && Fits(ring, p) && !p.isNtt
    ensures Product(ring, p, ConstantPoly(ring, c, false)) == Ok(MulInt(ring, p, c))
  {
    var k := ConstantPoly(ring, c, false);
    ProductByConstant(ring.q, p.coeffs, k.coeffs, c);
    assert NegacyclicProduct(ring.q, p.coeffs, k.coeffs) == MulInt(ring, p, c).coeffs;
  }

  /** The constant 1 is a left identity up to reduction: 1 * p is p reduced. */
  lemma OneTimesProduct(ring: Ring, p: Poly)
    requires ValidRing(ring) && Fits(ring, p) && !p.isNtt
    ensures Product(ring, ConstantPoly(ring, 1, false), p) == Ok(ReduceCoefficients(ring.q, p))
  {
    var one := ConstantPoly(ring, 1, false);
    ConstantTimesProduct(ring.q, one.coeffs, p.coeffs, 1);
    assert NegacyclicProduct(ring.q, one.coeffs, p.coeffs) == ReduceCoefficients(ring.q, p).coeffs;
  }

  /** The square-and-multiply loop of __pow__ from accumulator g, base f and
      remaining exponent e; the base is squared in every round, the last one
      included. */
  function PowLoop(ring: Ring, g: Poly, f: Poly, e: nat): (r: Result<Poly>)
    requires ValidRing(ring) && Fits(ring, g) && Fits(ring, f)
    ensures r.Ok? ==> Fits(ring, r.value)
    decreases e
  {
    if e == 0 then Ok(g)
    else
      var g' :- if e % 2 == 1 then Product(ring, g, f) else Ok(g);
      var f' :- Product(ring, f, f);
      PowLoop(ring, g', f', e / 2)
  }

  /** __pow__: a negative exponent is refused; otherwise the loop starts from
      the constant 1 carrying p's tag. */
  function Power(ring: Ring, p: Poly, e: int): (r: Result<Poly>)
    requires ValidRing(ring) && Fits(ring, p)
    ensures e < 0 ==> r == Err(NegativeExponent)
    ensures e == 0 ==> r == Ok(ConstantPoly(ring, 1, p.isNtt))
    ensures r.Ok? ==> Fits(ring, r.value)
  {
    if e < 0 then Err(NegativeExponent) else PowLoop(ring, ConstantPoly(ring, 1, p.isNtt), p, e)
  }

  /** __pow__ running its loop. */
  method Pow(ring: Ring, p: Poly, e: int) returns (r: Result<Poly>)
    requires ValidRing(ring) && Fits(ring, p)
    ensures r == Power(ring, p, e)
  {
    if e < 0 {
      return Err(NegativeExponent);
    }
    var f := p;
    var g := ConstantPoly(ring, 1, p.isNtt);
    var n := e;
    while n > 0
      invariant 0 <= n && Fits(ring, f) && Fits(ring, g)
      invariant PowLoop(ring, g, f, n) == Power(ring, p, e)
    {
      if n % 2 == 1 {
        var h := Mul(ring, g, f);
        if h.Err? {
          return h;
        }
        g := h.value;
      }
      var ff := Mul(ring, f, f);
      if ff.Err? {
        return ff;
      }
      f := ff.value;
      n := n / 2;
    }
    r := Ok(g);
  }

  /** p^1 is p reduced modulo q. */
  lemma PowerOne(ring: Ring, p: Poly)
    requires ValidRing(ring) && Fits(ring, p) && !p.isNtt
    ensures Power(ring, p, 1) == Ok(ReduceCoefficients(ring.q, p))
  {
    OneTimesProduct(ring, p);
  }

  /** p^2 is p * p. */
  lemma PowerTwo(ring: Ring, p: Poly)
    requires ValidRing(ring) && Fits(ring, p) && !p.isNtt
    ensures Power(ring, p, 2) == Product(ring, p, p)
  {
    var one := ConstantPoly(ring, 1, false);
    var sq := Product(ring, p, p).value;
    assert PowLoop(ring, one, p, 2) == PowLoop(ring, one, sq, 1);
    OneTimesProduct(ring, sq);
    ReduceFixesReduced(ring.q, sq);
  }

  /** Without an NTT helper every positive power of an NTT-form polynomial is
      refused. */
  lemma PowerNeedsHelper(ring: Ring, p: Poly, e: int)
    requires ValidRing(ring) && Fits(ring, p) && p.isNtt && ring.nttZetas.None? && e >= 1
    ensures Power(ring, p, e) == Err(NoNttHelper)
  {
  }

  // ---------------------------------------------------------------------------
  // Comparison with an int; the reversed subtraction
  // ---------------------------------------------------------------------------

  /** __eq__ with an int: p is constant and its constant term is the residue
      of the int. */
  predicate EqualsInt(ring: Ring, p: Poly, c: int)
    requires ValidRing(ring) && Fits(ring, p)
  {
    IsConstant(p) && c % ring.q == p.coeffs[0]
  }

  /** p == c holds exactly when p is the constant polynomial c mod q. */
  lemma EqualsIntMeaning(ring: Ring, p: Poly, c: int)
    requires ValidRing(ring) && Fits(ring, p)
    ensures EqualsInt(ring, p, c) <==> p == ConstantPoly(ring, c % ring.q, p.isNtt)
  {
    var k := ConstantPoly(ring, c % ring.q, p.isNtt);
    if EqualsInt(ring, p, c) {
      assert p.coeffs == k.coeffs;
    }
  }

  /** __rsub__ as written: c - p is computed as p - c. */
  function RSubInt(ring: Ring, p: Poly, c: int): (r: Poly)
    requires ValidRing(ring) && Fits(ring, p)
    ensures Fits(ring, r) && r.isNtt == p.isNtt
    ensures r.coeffs[0] == SubModQ(ring.q, p.coeffs[0], c)
    ensures forall i :: 1 <= i < ring.n ==> r.coeffs[i] == p.coeffs[i]
  {
    SubInt(ring, p, c)
  }

  /** c - p as evidently intended: -p with c added to the constant term. */
  function ReversedSubInt(ring: Ring, p: Poly, c: int): (r: Poly)
    requires ValidRing(ring) && Fits(ring, p)
    ensures Fits(ring, r) && r.isNtt == p.isNtt
  {
    AddInt(ring, Neg(ring, p), c)
  }

  /** The reversed subtraction yields c - p modulo q, and adding p back gives
      the constant c. */
  lemma ReversedSubIntMeaning(ring: Ring, p: Poly, c: int)
    requires ValidRing(ring) && Fits(ring, p) && 0 <= c < ring.q
    ensures ReversedSubInt(ring, p, c).coeffs[0] == (c - p.coeffs[0]) % ring.q
    ensures forall i :: 1 <= i < ring.n ==> ReversedSubInt(ring, p, c).coeffs[i] == (-p.coeffs[i]) % ring.q
    ensures Reduced(ring.q, p) ==>
      Add(ring, ReversedSubInt(ring, p, c), p) == Ok(ConstantPoly(ring, c, p.isNtt))
  {
    var q := ring.q;
    var d := ReversedSubInt(ring, p, c);
    NegThenAdd(q, p.coeffs[0], c);
    if Reduced(q, p) {
      var s := Add(ring, d, p).value;
      var k := ConstantPoly(ring, c, p.isNtt);
      forall i | 0 <= i < ring.n
        ensures s.coeffs[i] == k.coeffs[i]
      {
        if i == 0 {
          DifferenceThenAdd(q, p.coeffs[0], c);
        } else {
          NegThenAdd(q, p.coeffs[i], 0);
          DifferenceThenAdd(q, p.coeffs[i], 0);
        }
      }
      assert s.coeffs == k.coeffs;
    }
  }

  /** add_mod_q(-x mod q, v) is (v - x) mod q. */
  lemma NegThenAdd(q: int, x: int, v: int)
    requires 0 <= v < q
    ensures AddModQ(q, NegCoefficient(q, x), v) == (v - x) % q
  {
    var m := NegCoefficient(q, x);
    AddModQMeaning(q, m, v);
    DivModUnique(m, q, 0, m);
    AddModCongruent(m, -x, v, q);
  }

  /** Adding x back to (v - x) mod q gives v. */
  lemma DifferenceThenAdd(q: int, x: int, v: int)
    requires 0 <= x < q && 0 <= v < q
    ensures AddModQ(q, (v - x) % q, x) == v
  {
    var d := (v - x) % q;
    AddModQMeaning(q, d, x);
    DivModUnique(d, q, 0, d);
    AddModCongruent(d, v - x, x, q);
    DivModUnique(v, q, 0, v);
  }

  /** The discrepancy: for the constant polynomial 1, 0 - 1 should be q - 1,
      but __rsub__ gives 1. */
  lemma RSubIntNotReversed(ring: Ring)
    requires ValidRing(ring) && ring.q >= 3
    ensures var p := ConstantPoly(ring, 1, false);
      RSubInt(ring, p, 0).coeffs[0] == 1 && ReversedSubInt(ring, p, 0).coeffs[0] == ring.q - 1
  {
    var p := ConstantPoly(ring, 1, false);
    ReversedSubIntMeaning(ring, p, 0);
    DivModUnique(-1, ring.q, -1, ring.q - 1);
  }

  // ---------------------------------------------------------------------------
  // Conversions through the ring's NTT helper
  // ---------------------------------------------------------------------------

  /** to_ntt: needs the helper, refuses an NTT-form input. */
  function PolyToNtt(ring: Ring, p: Poly): (r: Result<Poly>)
    requires ValidRing(ring) && Fits(ring, p)
    ensures r.Err? <==> ring.nttZetas.None? || p.isNtt
    ensures r.Err? ==> r.error == (if ring.nttZetas.None? then NoNttHelper else AlreadyNtt)
    ensures r.Ok? ==> Fits(ring, r.value) && r.value.isNtt
  {
    if ring.nttZetas.None? then Err(NoNttHelper)
    else if p.isNtt then Err(AlreadyNtt)
    else Ok(Poly(NttForward(ring.nttZetas.value, p.coeffs), true))
  }

  /** from_ntt: needs the helper, refuses a standard-form input; the result is
      reduced. */
  function PolyFromNtt(ring: Ring, p: Poly): (r: Result<Poly>)
    requires ValidRing(ring) && Fits(ring, p)
    ensures r.Err? <==> ring.nttZetas.None? || !p.isNtt
    ensures r.Err? ==> r.error == (if ring.nttZetas.None? then NoNttHelper else NotNtt)
    ensures r.Ok? ==> Fits(ring, r.value) && !r.value.isNtt && Reduced(Q, r.value)
  {
    if ring.nttZetas.None? then Err(NoNttHelper)
    else if !p.isNtt then Err(NotNtt)
    else Ok(Poly(NttInverse(ring.nttZetas.value, p.coeffs), false))
  }

  /** to_montgomery: needs the helper; each coefficient becomes c * 2^16 mod q
      and the tag is kept. */
  function PolyToMontgomery(ring: Ring, p: Poly): (r: Result<Poly>)
    requires ValidRing(ring) && Fits(ring, p)
    ensures r.Err? <==> ring.nttZetas.None?
    ensures r.Err? ==> r.error == NoNttHelper
    ensures r.Ok? ==> (Fits(ring, r.value) && r.value.isNtt == p.isNtt &&
      forall i :: 0 <= i < ring.n ==> r.value.coeffs[i] == (p.coeffs[i] * R) % Q)
  {
    if ring.nttZetas.None? then Err(NoNttHelper)
    else Ok(Poly(ToMontgomery(p.coeffs), p.isNtt))
  }

  /** Add's coefficients are congruent to the plain sums. */
  lemma AddCongruentToPlus(ring: Ring, p: Poly, o: Poly)
    requires ValidRing(ring) && ring.q == Q && Fits(ring, p) && Fits(ring, o) && p.isNtt == o.isNtt
    ensures Congruent(Add(ring, p, o).value.coeffs, Plus(p.coeffs, o.coeffs))
  {
    var a := Add(ring, p, o).value;
    forall i | 0 <= i < ring.n
      ensures a.coeffs[i] % Q == (p.coeffs[i] + o.coeffs[i]) % Q
    {
      var t := p.coeffs[i] + o.coeffs[i];
      if t >= Q {
        ModAddMultiple(t - Q, 1, Q);
      }
    }
  }

  /** from_ntt turns __add__ of NTT-form polynomials into __add__ of standard
      ones. */
  lemma FromNttOfSum(ring: Ring, p: Poly, o: Poly)
    requires ValidRing(ring) && ring.q == Q && ring.nttZetas.Some?
    requires Fits(ring, p) && Fits(ring, o) && p.isNtt && o.isNtt
    ensures PolyFromNtt(ring, Add(ring, p, o).value) ==
      Add(ring, PolyFromNtt(ring, p).value, PolyFromNtt(ring, o).value)
  {
    var z := ring.nttZetas.value;
    var sum := Add(ring, p, o).value;
    AddCongruentToPlus(ring, p, o);
    NttInverseCongruent(z, sum.coeffs, Plus(p.coeffs, o.coeffs));
    NttInverseAdditive(z, p.coeffs, o.coeffs);
    AddOfResidues(ring, PolyFromNtt(ring, p).value, PolyFromNtt(ring, o).value);
  }

  /** On reduced operands Add is the plain sum reduced modulo q. */
  lemma AddOfResidues(ring: Ring, u: Poly, v: Poly)
    requires ValidRing(ring) && ring.q == Q && Fits(ring, u) && Fits(ring, v) && u.isNtt == v.isNtt
    requires Reduced(Q, u) && Reduced(Q, v)
    ensures Add(ring, u, v).value.coeffs == ModQ(Plus(u.coeffs, v.coeffs))
  {
    AddSubMeaning(ring, u, v);
  }

  /** to_ntt turns __add__ of standard polynomials into __add__ of NTT-form
      ones, up to congruence modulo q (the forward transform does not reduce). */
  lemma ToNttOfSum(ring: Ring, p: Poly, o: Poly)
    requires ValidRing(ring) && ring.q == Q && ring.nttZetas.Some?
    requires Fits(ring, p) && Fits(ring, o) && !p.isNtt && !o.isNtt
    ensures Congruent(PolyToNtt(ring, Add(ring, p, o).value).value.coeffs,
      Add(ring, PolyToNtt(ring, p).value, PolyToNtt(ring, o).value).value.coeffs)
  {
    var z := ring.nttZetas.value;
    var sum := Add(ring, p, o).value;
    AddCongruentToPlus(ring, p, o);
    NttForwardCongruent(z, sum.coeffs, Plus(p.coeffs, o.coeffs));
    NttForwardAdditive(z, p.coeffs, o.coeffs);
    var u, v := PolyToNtt(ring, p).value, PolyToNtt(ring, o).value;
    AddCongruentToPlus(ring, u, v);
    var f := PolyToNtt(ring, sum).value.coeffs;
    CongruentTrans(f, NttForward(z, Plus(p.coeffs, o.coeffs)), Plus(u.coeffs, v.coeffs));
    CongruentSymmetric(Add(ring, u, v).value.coeffs, Plus(u.coeffs, v.coeffs));
    CongruentTrans(f, Plus(u.coeffs, v.coeffs), Add(ring, u, v).value.coeffs);
  }

  lemma CongruentSymmetric(c: seq<int>, d: seq<int>)
    requires Congruent(c, d)
    ensures Congruent(d, c)
  {
  }

  // ---------------------------------------------------------------------------
  // The mutable Polynomial object
  // ---------------------------------------------------------------------------

  /** The outcome and new value of an in-place conversion whose result as a
      value is r: on success the object holds r's value, on failure it is
      unchanged and the error is reported. */
  predicate Applied(o: Outcome, before: Poly, after: Poly, r: Result<Poly>)
  {
    if r.Ok? then o == Pass && after == r.value else o == Fail(r.error) && after == before
  }

  /** to_ntt through the ring's helper, run on a copy of the coefficient list. */
  method ApplyToNtt(ring: Ring, p: Poly) returns (o: Outcome, r: Poly)
    requires ValidRing(ring) && Fits(ring, p)
    ensures Applied(o, p, r, PolyToNtt(ring, p))
  {
    if ring.nttZetas.None? {
      return Fail(NoNttHelper), p;
    }
    var a := new int[|p.coeffs|](i requires 0 <= i < |p.coeffs| => p.coeffs[i]);
    assert a[..] == p.coeffs;
    o := ToNtt(ring.nttZetas.value, a, p.isNtt);
    r := if o == Pass then Poly(a[..], true) else p;
  }

  /** from_ntt through the ring's helper, run on a copy of the coefficient list. */
  method ApplyFromNtt(ring: Ring, p: Poly) returns (o: Outcome, r: Poly)
    requires ValidRing(ring) && Fits(ring, p)
    ensures Applied(o, p, r, PolyFromNtt(ring, p))
  {
    if ring.nttZetas.None? {
      return Fail(NoNttHelper), p;
    }
    var a := new int[|p.coeffs|](i requires 0 <= i < |p.coeffs| => p.coeffs[i]);
    assert a[..] == p.coeffs;
    o := FromNtt(ring.nttZetas.value, a, p.isNtt);
    r := if o == Pass then Poly(a[..], false) else p;
  }

  /** A Polynomial object: the parent ring is fixed; the coefficient list and
      the NTT tag are what the in-place conversions update. */
  class Polynomial {
    const ring: Ring
    var coeffs: seq<int>
    var isNtt: bool

    predicate Valid()
      reads this
    {
      ValidRing(ring) && |coeffs| == ring.n
    }

    /** The value the object currently holds. */
    function Value(): Poly
      reads this
    {
      Poly(coeffs, isNtt)
    }

    constructor (ring: Ring, p: Poly)
      requires ValidRing(ring) && Fits(ring, p)
      ensures this.ring == ring && Value() == p && Valid()
    {
      this.ring := ring;
      coeffs := p.coeffs;
      isNtt := p.isNtt;
    }

    /** reduce_coefficents. */
    method ReduceInPlace()
      requires Valid()
      modifies this
      ensures Valid() && Value() == ReduceCoefficients(ring.q, old(Value()))
    {
      coeffs := ReduceCoefficients(ring.q, Value()).coeffs;
    }

    /** compress(d). */
    method CompressInPlace(d: nat)
      requires Valid()
      modifies this
      ensures Valid() && Value() == Compress(ring.q, old(Value()), d)
    {
      coeffs := Compress(ring.q, Value(), d).coeffs;
    }

    /** decompress(d). */
    method DecompressInPlace(d: nat)
      requires Valid()
      modifies this
      ensures Valid() && Value() == Decompress(ring.q, old(Value()), d)
    {
      coeffs := Decompress(ring.q, Value(), d).coeffs;
    }

    /** to_montgomery through the ring's helper. */
    method ToMontgomeryInPlace() returns (o: Outcome)
      requires Valid()
      modifies this
      ensures Valid()
      ensures Applied(o, old(Value()), Value(), PolyToMontgomery(ring, old(Value())))
    {
      if ring.nttZetas.None? {
        return Fail(NoNttHelper);
      }
      coeffs := ToMontgomery(coeffs);
      o := Pass;
    }

    /** to_ntt: the helper runs the butterflies on the coefficient list and the
        tag is set. */
    method ToNttInPlace() returns (o: Outcome)
      requires Valid()
      modifies this
      ensures Valid()
      ensures Applied(o, old(Value()), Value(), PolyToNtt(ring, old(Value())))
    {
      var r;
      o, r := ApplyToNtt(ring, Value());
      coeffs, isNtt := r.coeffs, r.isNtt;
    }

    /** from_ntt: the helper runs the inverse butterflies and the scaling by f
        on the coefficient list and the tag is cleared. */
    method FromNttInPlace() returns (o: Outcome)
      requires Valid()
      modifies this
      ensures Valid()
      ensures Applied(o, old(Value()), Value(), PolyFromNtt(ring, old(Value())))
    {
      var r;
      o, r := ApplyFromNtt(ring, Value());
      coeffs, isNtt := r.coeffs, r.isNtt;
    }
  }
}
