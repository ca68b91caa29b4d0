/** The round-3 Kyber scheme (kyber.py): the parameter sets, the hash-based
    primitives, the noise and matrix generators, the CPA-secure public-key
    encryption (Algorithms 4-6 of the round-3 specification) and the
    CCA-secure KEM with implicit rejection built on it (Algorithms 7-9).

    SHA3-256, SHA3-512, SHAKE-128 and SHAKE-256 are hashlib calls in kyber.py;
    here they are functions handed in as a `Hashes` value whose only assumed
    property is the length of what they return. The random bytes kyber.py
    draws with os.urandom (d, z, m) are parameters. */
module Kyber {
  import opened Common
  import opened NttHelper
  import opened Polynomials
  import opened Modules

  // ---------------------------------------------------------------------------
  // DEFAULT_PARAMETERS and Kyber.__init__
  // ---------------------------------------------------------------------------

  /** One entry of DEFAULT_PARAMETERS. */
  datatype ParameterSet = ParameterSet(n: nat, k: nat, q: int, eta1: nat, eta2: nat, du: nat, dv: nat)

  const Kyber512: ParameterSet := ParameterSet(256, 2, 3329, 3, 2, 10, 4)
  const Kyber768: ParameterSet := ParameterSet(256, 3, 3329, 2, 2, 10, 4)
  const Kyber1024: ParameterSet := ParameterSet(256, 4, 3329, 2, 2, 11, 5)

  /** A Kyber object: its parameters and the ring R = PolynomialRing(q, n)
      with the Kyber NTT helper attached. */
  datatype Instance = Instance(ps: ParameterSet, ring: Ring)

  /** Kyber.__init__. */
  function NewInstance(ps: ParameterSet): Instance
  {
    Instance(ps, Ring(ps.q, ps.n, Some(Zetas)))
  }

  /** The ring belongs to the parameters and carries an NTT helper (which is
      written for n = 256). */
  predicate ValidInstance(kb: Instance)
  {
    ValidRing(kb.ring) && kb.ring.nttZetas.Some? && kb.ring.q == kb.ps.q && kb.ring.n == kb.ps.n
  }

  /** The shape shared by the three default sets, for which the byte layouts
      below are stated: n = 256 and q = 3329, at least one polynomial per
      vector, and compression widths between 1 and 12 bits. */
  predicate Standard(kb: Instance)
  {
    ValidInstance(kb) && kb.ps.n == 256 && kb.ps.q == Q && kb.ps.k >= 1 &&
    1 <= kb.ps.du <= 12 && 1 <= kb.ps.dv <= 12
  }

  /** The three default parameter sets all have n = 256 and q = 3329, and an
      object built from any of them has that shape. */
  lemma DefaultParameterSets(ps: ParameterSet)
    requires ps == Kyber512 || ps == Kyber768 || ps == Kyber1024
    ensures ps.n == 256 && ps.q == 3329 && 2 <= ps.k <= 4
    ensures Standard(NewInstance(ps))
  {
  }

  // ---------------------------------------------------------------------------
  // _xof, _prf, _h, _g, _kdf
  // ---------------------------------------------------------------------------

  /** The hashlib functions: sha3_256, sha3_512, and shake_128 / shake_256
      with the requested digest length. */
  datatype Hashes = Hashes(
    sha3_256: seq<byte> -> seq<byte>,
    sha3_512: seq<byte> -> seq<byte>,
    shake128: (seq<byte>, nat) -> seq<byte>,
    shake256: (seq<byte>, nat) -> seq<byte>)

  /** What the model assumes of hashlib: digest lengths of 32 and 64 bytes,
      and exactly the requested length from the extendable-output functions. */
  ghost predicate Lengths(hs: Hashes)
  {
    (forall x :: |hs.sha3_256(x)| == 32) && (forall x :: |hs.sha3_512(x)| == 64) &&
    (forall x, len :: |hs.shake128(x, len)| == len) && (forall x, len :: |hs.shake256(x, len)| == len)
  }

  /** bytes([x]): a one-byte string, refused for values outside 0..255. */
  function ByteOf(x: nat): (r: Result<seq<byte>>)
    ensures r.Ok? <==> x < 256
    ensures r.Ok? ==> |r.value| == 1 && r.value[0] == x
  {
    if x < 256 then Ok([x]) else Err(OutOfRange)
  }

  /** _xof: SHAKE-128 of bytes32 || a || b, refused unless that input is 34
      bytes long. */
  function Xof(hs: Hashes, bytes32: seq<byte>, a: seq<byte>, b: seq<byte>, length: nat): (r: Result<seq<byte>>)
    ensures r.Ok? <==> |bytes32| + |a| + |b| == 34
    ensures Lengths(hs) && r.Ok? ==> |r.value| == length
  {
    var input := bytes32 + a + b;
    if |input| != 34 then Err(BadLength) else Ok(hs.shake128(input, length))
  }

  /** _prf: SHAKE-256 of s || b, refused unless that input is 33 bytes long. */
  function Prf(hs: Hashes, s: seq<byte>, b: seq<byte>, length: nat): (r: Result<seq<byte>>)
    ensures r.Ok? <==> |s| + |b| == 33
    ensures Lengths(hs) && r.Ok? ==> |r.value| == length
  {
    var input := s + b;
    if |input| != 33 then Err(BadLength) else Ok(hs.shake256(input, length))
  }

  /** _h: SHA3-256. */
  function H(hs: Hashes, input: seq<byte>): (r: seq<byte>)
    requires Lengths(hs)
    ensures |r| == 32
  {
    hs.sha3_256(input)
  }

  /** _g: the two 32-byte halves of the SHA3-512 digest. */
  function G(hs: Hashes, input: seq<byte>): (r: (seq<byte>, seq<byte>))
    requires Lengths(hs)
    ensures |r.0| == 32 && |r.1| == 32 && r.0 + r.1 == hs.sha3_512(input)
  {
    var output := hs.sha3_512(input);
    (output[..32], output[32..])
  }

  /** _kdf: SHAKE-256 with the requested length. */
  function Kdf(hs: Hashes, input: seq<byte>, length: nat): (r: seq<byte>)
    requires Lengths(hs)
    ensures |r| == length
  {
    hs.shake256(input, length)
  }

  // ---------------------------------------------------------------------------
  // Python slices
  // ---------------------------------------------------------------------------

  /** A slice bound as Python resolves it: negative bounds count from the
      end, and every bound is clamped to the sequence. */
  function Bound(i: int, len: nat): (b: nat)
    ensures b <= len
  {
    if i < 0 then (if i + len < 0 then 0 else i + len) else if i > len then len else i
  }

  /** s[start:end] with Python's rules; an empty slice when the resolved
      start is past the resolved end. */
  function Slice<T>(s: seq<T>, start: int, end: int): (r: seq<T>)
  {
    var a, b := Bound(start, |s|), Bound(end, |s|);
    if a <= b then s[a..b] else []
  }

  /** Within bounds a slice is Dafny's subsequence, and a negative bound -k
      stands for |s| - k. */
  lemma SliceMeaning<T>(s: seq<T>, start: int, end: int)
    requires -|s| <= start <= |s| && -|s| <= end <= |s|
    ensures var a := if start < 0 then start + |s| else start;
      var b := if end < 0 then end + |s| else end;
      Slice(s, start, end) == (if a <= b then s[a..b] else [])
  {
  }

  // ---------------------------------------------------------------------------
  // _generate_error_vector
  // ---------------------------------------------------------------------------

  /** The noise polynomial for PRF counter N: CBD_eta of PRF(sigma, N) with
      64 eta bytes requested. */
  function NoiseEntry(hs: Hashes, ring: Ring, sigma: seq<byte>, eta: nat, N: nat, isNtt: bool): Result<Poly>
    requires ValidRing(ring)
  {
    var b :- ByteOf(N);
    var input :- Prf(hs, sigma, b, 64 * eta);
    CbdSpec(ring, input, eta, isNtt)
  }

  /** The k noise polynomials for counters N, N + 1, ..., N + k - 1. */
  function NoiseEntries(hs: Hashes, ring: Ring, k: nat, sigma: seq<byte>, eta: nat, N: nat, isNtt: bool)
    : (es: seq<Result<Poly>>)
    requires ValidRing(ring)
    ensures |es| == k && forall i :: 0 <= i < k ==> es[i] == NoiseEntry(hs, ring, sigma, eta, N + i, isNtt)
  {
    seq(k, i requires 0 <= i < k => NoiseEntry(hs, ring, sigma, eta, N + i, isNtt))
  }

  /** _generate_error_vector as a value: the polynomials collected, made a
      1 x k matrix and transposed to a column, with the advanced counter. */
  function ErrorVectorSpec(hs: Hashes, ring: Ring, k: nat, sigma: seq<byte>, eta: nat, N: nat, isNtt: bool)
    : Result<(Mat, nat)>
    requires ValidRing(ring)
  {
    var elements :- Collect(NoiseEntries(hs, ring, k, sigma, eta, N, isNtt));
    ColumnVector(ring, elements, N + k)
  }

  /** self.M(elements).transpose(): the polynomials as a 1 x k matrix turned
      into a k x 1 column, returned with the counter. */
  function ColumnVector(ring: Ring, elements: seq<Poly>, next: nat): Result<(Mat, nat)>
  {
    var row :- Build(ring, Flat(elements));
    var v :- Transpose(row);
    Ok((v, next))
  }

  /** _generate_error_vector: k rounds, each calling the PRF with the current
      counter and sampling a polynomial, the counter advancing by one. */
  method GenerateErrorVector(hs: Hashes, ring: Ring, k: nat, sigma: seq<byte>, eta: nat, N: nat, isNtt: bool)
    returns (r: Result<(Mat, nat)>)
    requires ValidRing(ring)
    ensures r == ErrorVectorSpec(hs, ring, k, sigma, eta, N, isNtt)
  {
    ghost var entries := NoiseEntries(hs, ring, k, sigma, eta, N, isNtt);
    var elements: seq<Poly> := [];
    var counter := N;
    var i := 0;
    while i < k
      invariant 0 <= i <= k && counter == N + i
      invariant Collect(entries[..i]) == Ok(elements)
    {
      CollectStep(entries, i, elements);
      var b := ByteOf(counter);
      if b.Err? {
        return Err(b.error);
      }
      var input := Prf(hs, sigma, b.value, 64 * eta);
      if input.Err? {
        return Err(input.error);
      }
      var poly := Cbd(ring, input.value, eta, isNtt);
      if poly.Err? {
        return Err(poly.error);
      }
      elements := elements + [poly.value];
      counter := counter + 1;
      i := i + 1;
    }
    assert entries[..k] == entries;
    r := ColumnVector(ring, elements, counter);
  }

  /** The error vector exists exactly when k >= 1, sigma is 32 bytes and
      the counters stay below 256; it is then a k x 1 column whose entry i is
      CBD_eta of SHAKE-256(sigma || [N + i]) with 64 eta bytes, every
      coefficient in [-eta, eta], and the counter returned is N + k. */
  lemma ErrorVectorMeaning(hs: Hashes, ring: Ring, k: nat, sigma: seq<byte>, eta: nat, N: nat, isNtt: bool)
    requires ValidRing(ring) && ring.n == 256 && Lengths(hs)
    ensures ErrorVectorSpec(hs, ring, k, sigma, eta, N, isNtt).Ok? <==> k >= 1 && N + k <= 256 && |sigma| == 32
    ensures ErrorVectorSpec(hs, ring, k, sigma, eta, N, isNtt).Ok? ==>
      var (v, next) := ErrorVectorSpec(hs, ring, k, sigma, eta, N, isNtt).value;
      next == N + k && WellFormed(v) && v.ring == ring && v.m == k && v.n == 1 &&
      forall i :: 0 <= i < k ==>
        Ok(v.rows[i][0]) == CbdSpec(ring, hs.shake256(sigma + [N + i], 64 * eta), eta, isNtt) &&
        v.rows[i][0].isNtt == isNtt &&
        forall c :: 0 <= c < 256 ==> -(eta as int) <= v.rows[i][0].coeffs[c] <= eta
  {
    var es := NoiseEntries(hs, ring, k, sigma, eta, N, isNtt);
    if k >= 1 && |sigma| != 32 {
      assert es[0].Err?;
    }
    forall i | 0 <= i < k && N + i < 256 && |sigma| == 32
      ensures es[i] == CbdSpec(ring, hs.shake256(sigma + [N + i], 64 * eta), eta, isNtt)
      ensures es[i].Ok? && Fits(ring, es[i].value) && es[i].value.isNtt == isNtt
      ensures forall c :: 0 <= c < 256 ==> -(eta as int) <= es[i].value.coeffs[c] <= eta
    {
      CbdMeaning(ring, hs.shake256(sigma + [N + i], 64 * eta), eta, isNtt);
    }
    if k >= 1 && N + k > 256 {
      var t := if N <= 256 then 256 - N else 0;
      assert es[t].Err?;
    }
    var c := Collect(es);
    if c.Ok? && k >= 1 {
      var row := Mat(ring, [c.value], 1, k);
      TransposeMeaning(row);
    }
  }

  // ---------------------------------------------------------------------------
  // _generate_matrix_from_seed
  // ---------------------------------------------------------------------------

  /** Entry (i, j): parse of XOF(rho, j, i), or of XOF(rho, i, j) when the
      transpose is built, 3 n bytes being requested. */
  function SeedEntry(hs: Hashes, ring: Ring, rho: seq<byte>, i: nat, j: nat, transpose: bool, isNtt: bool)
    : Result<Poly>
  {
    var x, y := if transpose then i else j, if transpose then j else i;
    var b1 :- ByteOf(x);
    var b2 :- ByteOf(y);
    var input :- Xof(hs, rho, b1, b2, 3 * ring.n);
    ParseSpec(ring, input, isNtt)
  }

  /** Row i of the generated entries. */
  function SeedRowEntries(hs: Hashes, ring: Ring, k: nat, rho: seq<byte>, i: nat, transpose: bool, isNtt: bool)
    : (es: seq<Result<Poly>>)
    ensures |es| == k && forall j :: 0 <= j < k ==> es[j] == SeedEntry(hs, ring, rho, i, j, transpose, isNtt)
  {
    seq(k, j requires 0 <= j < k => SeedEntry(hs, ring, rho, i, j, transpose, isNtt))
  }

  /** All k x k generated entries. */
  function SeedTable(hs: Hashes, ring: Ring, k: nat, rho: seq<byte>, transpose: bool, isNtt: bool)
    : (t: seq<seq<Result<Poly>>>)
    ensures |t| == k && forall i :: 0 <= i < k ==> t[i] == SeedRowEntries(hs, ring, k, rho, i, transpose, isNtt)
  {
    seq(k, i requires 0 <= i < k => SeedRowEntries(hs, ring, k, rho, i, transpose, isNtt))
  }

  /** _generate_matrix_from_seed as a value. */
  function MatrixFromSeedSpec(hs: Hashes, ring: Ring, k: nat, rho: seq<byte>, transpose: bool, isNtt: bool)
    : Result<Mat>
  {
    var rows :- CollectRows(SeedTable(hs, ring, k, rho, transpose, isNtt));
    Build(ring, Nested(rows))
  }

  /** The inner loop: row i, entry by entry; the first failure raises. */
  method GenerateRow(hs: Hashes, ring: Ring, k: nat, rho: seq<byte>, i: nat, transpose: bool, isNtt: bool)
    returns (r: Result<seq<Poly>>)
    ensures r == Collect(SeedRowEntries(hs, ring, k, rho, i, transpose, isNtt))
  {
    ghost var es := SeedRowEntries(hs, ring, k, rho, i, transpose, isNtt);
    var row: seq<Poly> := [];
    var j := 0;
    while j < k
      invariant 0 <= j <= k
      invariant Collect(es[..j]) == Ok(row)
    {
      CollectStep(es, j, row);
      var b1, b2;
      if transpose {
        b1, b2 := ByteOf(i), ByteOf(j);
      } else {
        b1, b2 := ByteOf(j), ByteOf(i);
      }
      if b1.Err? {
        return Err(b1.error);
      }
      if b2.Err? {
        return Err(b2.error);
      }
      var input := Xof(hs, rho, b1.value, b2.value, 3 * ring.n);
      if input.Err? {
        return Err(input.error);
      }
      var aij := Parse(ring, input.value, isNtt);
      if aij.Err? {
        return Err(aij.error);
      }
      row := row + [aij.value];
      j := j + 1;
    }
    assert es[..k] == es;
    r := Ok(row);
  }

  /** _generate_matrix_from_seed: the rows generated in order and handed to
      the Module. */
  method GenerateMatrix(hs: Hashes, ring: Ring, k: nat, rho: seq<byte>, transpose: bool, isNtt: bool)
    returns (r: Result<Mat>)
    ensures r == MatrixFromSeedSpec(hs, ring, k, rho, transpose, isNtt)
  {
    ghost var table := SeedTable(hs, ring, k, rho, transpose, isNtt);
    ghost var outs := Collected(table);
    var a: Rows := [];
    var i := 0;
    while i < k
      invariant 0 <= i <= k
      invariant Collect(outs[..i]) == Ok(a)
    {
      var row := GenerateRow(hs, ring, k, rho, i, transpose, isNtt);
      CollectStep(outs, i, a);
      if row.Err? {
        return Err(row.error);
      }
      a := a + [row.value];
      i := i + 1;
    }
    assert outs[..k] == outs;
    r := Build(ring, Nested(a));
  }

  /** Building the transpose swaps the two XOF index bytes. */
  lemma SeedEntrySwap(hs: Hashes, ring: Ring, rho: seq<byte>, i: nat, j: nat, isNtt: bool)
    ensures SeedEntry(hs, ring, rho, i, j, true, isNtt) == SeedEntry(hs, ring, rho, j, i, false, isNtt)
  {
  }

  /** With transpose set, the generator succeeds exactly when the plain one
      does, and then builds the transpose of the plain matrix. */
  lemma MatrixFromSeedTranspose(hs: Hashes, ring: Ring, k: nat, rho: seq<byte>, isNtt: bool)
    requires ValidRing(ring)
    ensures MatrixFromSeedSpec(hs, ring, k, rho, true, isNtt).Ok? <==>
      MatrixFromSeedSpec(hs, ring, k, rho, false, isNtt).Ok?
    ensures MatrixFromSeedSpec(hs, ring, k, rho, false, isNtt).Ok? ==>
      var a := MatrixFromSeedSpec(hs, ring, k, rho, false, isNtt).value;
      Shaped(a.rows, a.m, a.n) &&
      Transpose(a) == MatrixFromSeedSpec(hs, ring, k, rho, true, isNtt)
  {
    var plain: seq<seq<Result<Poly>>> := SeedTable(hs, ring, k, rho, false, isNtt);
    var swapped: seq<seq<Result<Poly>>> := SeedTable(hs, ring, k, rho, true, isNtt);
    forall i, j | 0 <= i < k && 0 <= j < k
      ensures swapped[i][j] == plain[j][i]
    {
      SeedEntrySwap(hs, ring, rho, i, j, isNtt);
    }
    CollectSwapped(plain, swapped, k);
    var p := CollectRows(plain);
    if p.Ok? && k >= 1 {
      BuildMeaning(ring, Nested(p.value));
      BuildMeaning(ring, Nested(Transposed(p.value, k, k)));
    }
  }

  /** Collecting a square table whose entry (i, j) is entry (j, i) of
      another: both succeed or neither, and the rows are transposed. */
  lemma CollectSwapped(t: seq<seq<Result<Poly>>>, u: seq<seq<Result<Poly>>>, k: nat)
    requires |t| == k && |u| == k && forall i :: 0 <= i < k ==> |t[i]| == k && |u[i]| == k
    requires forall i, j :: 0 <= i < k && 0 <= j < k ==> u[i][j] == t[j][i]
    ensures CollectRows(u).Ok? <==> CollectRows(t).Ok?
    ensures CollectRows(t).Ok? ==>
      Shaped(CollectRows(t).value, k, k) &&
      CollectRows(u).value == Transposed(CollectRows(t).value, k, k)
  {
    if CollectRows(t).Ok? {
      SwappedOk(t, u, k);
      SwappedRows(t, u, k);
    } else {
      SwappedErr(t, u, k);
    }
  }

  lemma SwappedOk(t: seq<seq<Result<Poly>>>, u: seq<seq<Result<Poly>>>, k: nat)
    requires |t| == k && |u| == k && forall i :: 0 <= i < k ==> |t[i]| == k && |u[i]| == k
    requires forall i, j :: 0 <= i < k && 0 <= j < k ==> u[i][j] == t[j][i]
    requires CollectRows(t).Ok?
    ensures CollectRows(u).Ok?
  {
    var p := CollectRows(t);
    forall i, j | 0 <= i < |u| && 0 <= j < |u[i]|
      ensures u[i][j].Ok?
    {
      assert t[j][i] == Ok(p.value[j][i]);
    }
  }

  lemma SwappedErr(t: seq<seq<Result<Poly>>>, u: seq<seq<Result<Poly>>>, k: nat)
    requires |t| == k && |u| == k && forall i :: 0 <= i < k ==> |t[i]| == k && |u[i]| == k
    requires forall i, j :: 0 <= i < k && 0 <= j < k ==> u[i][j] == t[j][i]
    requires CollectRows(t).Err?
    ensures CollectRows(u).Err?
  {
    var i, j :| 0 <= i < k && 0 <= j < |t[i]| && t[i][j] == Err(CollectRows(t).error);
    assert u[j][i].Err?;
  }

  lemma SwappedRows(t: seq<seq<Result<Poly>>>, u: seq<seq<Result<Poly>>>, k: nat)
    requires |t| == k && |u| == k && forall i :: 0 <= i < k ==> |t[i]| == k && |u[i]| == k
    requires forall i, j :: 0 <= i < k && 0 <= j < k ==> u[i][j] == t[j][i]
    requires CollectRows(t).Ok? && CollectRows(u).Ok?
    ensures Shaped(CollectRows(t).value, k, k)
    ensures CollectRows(u).value == Transposed(CollectRows(t).value, k, k)
  {
    var p := CollectRows(t).value;
    var s := CollectRows(u).value;
    var tr := Transposed(p, k, k);
    forall i | 0 <= i < k
      ensures s[i] == tr[i]
    {
      forall j | 0 <= j < k
        ensures s[i][j] == tr[i][j]
      {
        assert u[i][j] == Ok(s[i][j]);
        assert t[j][i] == Ok(p[j][i]);
      }
    }
  }

  /** One entry of the plain build: it needs a 32-byte seed and indices
      below 256, and is the parse of SHAKE-128(rho || [j] || [i]) with 3 n
      bytes, reduced and in the requested form. */
  lemma SeedEntryMeaning(hs: Hashes, ring: Ring, rho: seq<byte>, i: nat, j: nat, isNtt: bool)
    requires ValidRing(ring) && Lengths(hs) && SeedEntry(hs, ring, rho, i, j, false, isNtt).Ok?
    ensures |rho| == 32 && i < 256 && j < 256
    ensures SeedEntry(hs, ring, rho, i, j, false, isNtt) ==
      ParseSpec(ring, hs.shake128(rho + [j] + [i], 3 * ring.n), isNtt)
    ensures var p := SeedEntry(hs, ring, rho, i, j, false, isNtt).value;
      Fits(ring, p) && Reduced(ring.q, p) && p.isNtt == isNtt
  {
    ParseMeaning(ring, hs.shake128(rho + [j] + [i], 3 * ring.n), isNtt);
  }

  /** The generated matrix, when parsing finds enough candidates, is k x k
      over the ring with k <= 256 and a 32-byte seed; entry (i, j) is the
      generated entry of SeedEntryMeaning, reduced and in the requested
      form. */
  lemma MatrixFromSeedMeaning(hs: Hashes, ring: Ring, k: nat, rho: seq<byte>, isNtt: bool)
    requires ValidRing(ring) && Lengths(hs)
    requires MatrixFromSeedSpec(hs, ring, k, rho, false, isNtt).Ok?
    ensures k >= 1 && k <= 256 && |rho| == 32
    ensures var a := MatrixFromSeedSpec(hs, ring, k, rho, false, isNtt).value;
      WellFormed(a) && a.ring == ring && a.m == k && a.n == k &&
      forall i, j :: 0 <= i < k && 0 <= j < k ==>
        Ok(a.rows[i][j]) == SeedEntry(hs, ring, rho, i, j, false, isNtt) &&
        Reduced(ring.q, a.rows[i][j]) && a.rows[i][j].isNtt == isNtt
  {
    var table: seq<seq<Result<Poly>>> := SeedTable(hs, ring, k, rho, false, isNtt);
    var a := MatrixFromSeedSpec(hs, ring, k, rho, false, isNtt).value;
    BuiltFromTable(ring, table, k, a);
    assert table[k - 1][0] == SeedEntry(hs, ring, rho, k - 1, 0, false, isNtt);
    SeedEntryMeaning(hs, ring, rho, k - 1, 0, isNtt);
    forall i, j | 0 <= i < k && 0 <= j < k
      ensures Fits(ring, a.rows[i][j]) && Reduced(ring.q, a.rows[i][j]) && a.rows[i][j].isNtt == isNtt
    {
      SeedEntryMeaning(hs, ring, rho, i, j, isNtt);
    }
  }

  /** A square table collected and handed to the Module: at least one row,
      k x k over the ring, entry (i, j) the value of table entry (i, j). */
  lemma BuiltFromTable(ring: Ring, table: seq<seq<Result<Poly>>>, k: nat, a: Mat)
    requires ValidRing(ring) && |table| == k && forall i :: 0 <= i < k ==> |table[i]| == k
    requires CollectRows(table).Ok? && Build(ring, Nested(CollectRows(table).value)) == Ok(a)
    ensures k >= 1 && a.ring == ring && a.m == k && a.n == k && Shaped(a.rows, k, k)
    ensures forall i, j :: 0 <= i < k && 0 <= j < k ==> table[i][j] == Ok(a.rows[i][j])
  {
    BuildMeaning(ring, Nested(CollectRows(table).value));
  }

  /** With transpose set the generated matrix is k x k over the ring as
      well. */
  lemma TransposedSeedShape(hs: Hashes, ring: Ring, k: nat, rho: seq<byte>, isNtt: bool)
    requires ValidRing(ring) && Lengths(hs)
    requires MatrixFromSeedSpec(hs, ring, k, rho, true, isNtt).Ok?
    ensures var a := MatrixFromSeedSpec(hs, ring, k, rho, true, isNtt).value;
      WellFormed(a) && a.ring == ring && a.m == k && a.n == k
  {
    MatrixFromSeedTranspose(hs, ring, k, rho, isNtt);
    MatrixFromSeedMeaning(hs, ring, k, rho, isNtt);
    TransposeMeaning(MatrixFromSeedSpec(hs, ring, k, rho, false, isNtt).value);
  }

  // ---------------------------------------------------------------------------
  // Byte widths of the encodings
  // ---------------------------------------------------------------------------

  /** Reduced coefficients are below 3329 < 2^12, so a reduced matrix over
      the Kyber ring encodes with 12-bit fields, 384 bytes per entry. */
  lemma ReducedEncodable(a: Mat)
    requires WellFormed(a) && a.ring.n == 256 && a.ring.q == Q
    ensures Converted(a, Reduction).Ok?
    ensures Encodable(Converted(a, Reduction).value, 12, 384)
  {
    var b := Converted(a, Reduction).value;
    assert Pow2(12) == 4096;
    forall i, j | 0 <= i < b.m && 0 <= j < b.n
      ensures FitsWidth(b.rows[i][j].coeffs, 12)
    {
      assert Apply(a.ring, Reduction, a.rows[i][j]) == Ok(b.rows[i][j]);
    }
  }

  /** A matrix compressed to d >= 1 bits encodes with d-bit fields, 32 d
      bytes per entry of 256 coefficients. */
  lemma CompressedEncodable(a: Mat, d: nat)
    requires WellFormed(a) && a.ring.n == 256 && d >= 1
    ensures Converted(a, Compression(d)).Ok?
    ensures Encodable(Converted(a, Compression(d)).value, d, 32 * d)
  {
    var b := Converted(a, Compression(d)).value;
    forall i, j | 0 <= i < b.m && 0 <= j < b.n
      ensures FitsWidth(b.rows[i][j].coeffs, d)
    {
      assert Apply(a.ring, Compression(d), a.rows[i][j]) == Ok(b.rows[i][j]);
    }
  }

  // ---------------------------------------------------------------------------
  // The noise of keygen and encryption
  // ---------------------------------------------------------------------------

  /** The CBD_eta sample for PRF counter N: CBD_eta of SHAKE-256(sigma || [N])
      with 64 eta bytes, in standard form. */
  function Noise(hs: Hashes, ring: Ring, sigma: seq<byte>, eta: nat, N: nat): Result<Poly>
    requires N < 256
  {
    CbdSpec(ring, hs.shake256(sigma + [N], 64 * eta), eta, false)
  }

  /** The sample for counter N taken to NTT form. */
  function NttNoise(hs: Hashes, ring: Ring, sigma: seq<byte>, eta: nat, N: nat): Result<Poly>
    requires ValidRing(ring) && ring.n == 256 && N < 256
  {
    var p :- Noise(hs, ring, sigma, eta, N);
    CbdMeaning(ring, hs.shake256(sigma + [N], 64 * eta), eta, false);
    PolyToNtt(ring, p)
  }

  /** s and e of _cpapke_keygen: both sampled with eta1 from sigma and taken
      to NTT form, k x 1 each. They exist exactly when sigma is 32 bytes and
      the 2 k counters fit in a byte. */
  function KeygenNoise(kb: Instance, hs: Hashes, sigma: seq<byte>): (r: Result<(Mat, Mat)>)
    requires Standard(kb) && Lengths(hs)
    ensures r.Ok? <==> |sigma| == 32 && 2 * kb.ps.k <= 256
    ensures r.Ok? ==> var s, e := r.value.0, r.value.1;
      WellFormed(s) && s.ring == kb.ring && s.m == kb.ps.k && s.n == 1 &&
      WellFormed(e) && e.ring == kb.ring && e.m == kb.ps.k && e.n == 1
  {
    var ring, k, eta := kb.ring, kb.ps.k, kb.ps.eta1;
    ErrorVectorOk(hs, ring, k, sigma, eta, 0);
    var sv :- ErrorVectorSpec(hs, ring, k, sigma, eta, 0, false);
    NttNoiseVector(hs, ring, k, sigma, eta, 0);
    var s := Converted(sv.0, IntoNtt).value;
    ErrorVectorOk(hs, ring, k, sigma, eta, sv.1);
    var ev :- ErrorVectorSpec(hs, ring, k, sigma, eta, sv.1, false);
    NttNoiseVector(hs, ring, k, sigma, eta, sv.1);
    var e := Converted(ev.0, IntoNtt).value;
    Ok((s, e))
  }

  /** The PRF counters of keygen: entry i of s is the sample for counter i
      and entry i of e the sample for counter k + i, both in NTT form. */
  lemma KeygenNoiseCounters(kb: Instance, hs: Hashes, sigma: seq<byte>)
    requires Standard(kb) && Lengths(hs) && KeygenNoise(kb, hs, sigma).Ok?
    ensures 2 * kb.ps.k <= 256
    ensures var s, e := KeygenNoise(kb, hs, sigma).value.0, KeygenNoise(kb, hs, sigma).value.1;
      forall i :: 0 <= i < kb.ps.k ==>
        NttNoise(hs, kb.ring, sigma, kb.ps.eta1, i) == Ok(s.rows[i][0]) &&
        NttNoise(hs, kb.ring, sigma, kb.ps.eta1, kb.ps.k + i) == Ok(e.rows[i][0])
  {
    var ring, k, eta := kb.ring, kb.ps.k, kb.ps.eta1;
    ErrorVectorOk(hs, ring, k, sigma, eta, 0);
    ErrorVectorOk(hs, ring, k, sigma, eta, k);
    NttNoiseVector(hs, ring, k, sigma, eta, 0);
    NttNoiseVector(hs, ring, k, sigma, eta, k);
    var sv := ErrorVectorSpec(hs, ring, k, sigma, eta, 0, false).value;
    assert sv.1 == k;
    var s := Converted(sv.0, IntoNtt).value;
    var e := Converted(ErrorVectorSpec(hs, ring, k, sigma, eta, k, false).value.0, IntoNtt).value;
    assert KeygenNoise(kb, hs, sigma).value == (s, e);
    forall i | 0 <= i < k
      ensures NttNoise(hs, ring, sigma, eta, i) == Ok(s.rows[i][0])
      ensures NttNoise(hs, ring, sigma, eta, k + i) == Ok(e.rows[i][0])
    {
      NttNoiseEntry(hs, ring, k, sigma, eta, 0, i, i);
      NttNoiseEntry(hs, ring, k, sigma, eta, k, i, k + i);
    }
  }

  /** When _generate_error_vector succeeds. */
  lemma ErrorVectorOk(hs: Hashes, ring: Ring, k: nat, sigma: seq<byte>, eta: nat, N: nat)
    requires ValidRing(ring) && ring.n == 256 && Lengths(hs)
    ensures ErrorVectorSpec(hs, ring, k, sigma, eta, N, false).Ok? <==> k >= 1 && N + k <= 256 && |sigma| == 32
    ensures ErrorVectorSpec(hs, ring, k, sigma, eta, N, false).Ok? ==>
      ErrorVectorSpec(hs, ring, k, sigma, eta, N, false).value.1 == N + k
  {
    ErrorVectorMeaning(hs, ring, k, sigma, eta, N, false);
  }

  /** Entry i of the error vector is the sample for counter N + i. */
  lemma NoiseVector(hs: Hashes, ring: Ring, k: nat, sigma: seq<byte>, eta: nat, N: nat)
    requires ValidRing(ring) && ring.n == 256 && Lengths(hs)
    requires ErrorVectorSpec(hs, ring, k, sigma, eta, N, false).Ok?
    ensures N + k <= 256
    ensures var v := ErrorVectorSpec(hs, ring, k, sigma, eta, N, false).value.0;
      WellFormed(v) && v.ring == ring && v.m == k && v.n == 1 &&
      forall i :: 0 <= i < k ==> Noise(hs, ring, sigma, eta, N + i) == Ok(v.rows[i][0]) && !v.rows[i][0].isNtt
  {
    ErrorVectorMeaning(hs, ring, k, sigma, eta, N, false);
  }

  /** ... and taking the vector to NTT form always succeeds, entry i then
      being the sample for counter N + i in NTT form. */
  lemma NttNoiseVector(hs: Hashes, ring: Ring, k: nat, sigma: seq<byte>, eta: nat, N: nat)
    requires ValidRing(ring) && ring.n == 256 && ring.nttZetas.Some? && Lengths(hs)
    requires ErrorVectorSpec(hs, ring, k, sigma, eta, N, false).Ok?
    ensures N + k <= 256
    ensures var v := ErrorVectorSpec(hs, ring, k, sigma, eta, N, false).value.0;
      WellFormed(v) && Converted(v, IntoNtt).Ok? &&
      var s := Converted(v, IntoNtt).value;
      WellFormed(s) && s.ring == ring && s.m == k && s.n == 1 &&
      forall i :: 0 <= i < k ==> NttNoise(hs, ring, sigma, eta, N + i) == Ok(s.rows[i][0])
  {
    NoiseVector(hs, ring, k, sigma, eta, N);
    NttOfNoise(hs, ring, k, sigma, eta, N, ErrorVectorSpec(hs, ring, k, sigma, eta, N, false).value.0);
  }

  /** Entry i of the vector in NTT form, one counter at a time. */
  lemma NttNoiseEntry(hs: Hashes, ring: Ring, k: nat, sigma: seq<byte>, eta: nat, N: nat, i: nat, c: nat)
    requires ValidRing(ring) && ring.n == 256 && ring.nttZetas.Some? && Lengths(hs)
    requires ErrorVectorSpec(hs, ring, k, sigma, eta, N, false).Ok? && i < k && c == N + i
    ensures c < 256
    ensures var v := ErrorVectorSpec(hs, ring, k, sigma, eta, N, false).value.0;
      WellFormed(v) && Converted(v, IntoNtt).Ok? && i < |Converted(v, IntoNtt).value.rows| &&
      |Converted(v, IntoNtt).value.rows[i]| == 1 &&
      NttNoise(hs, ring, sigma, eta, c) == Ok(Converted(v, IntoNtt).value.rows[i][0])
  {
    NttNoiseVector(hs, ring, k, sigma, eta, N);
  }

  lemma NttOfNoise(hs: Hashes, ring: Ring, k: nat, sigma: seq<byte>, eta: nat, N: nat, v: Mat)
    requires ValidRing(ring) && ring.n == 256 && ring.nttZetas.Some? && N + k <= 256
    requires WellFormed(v) && v.ring == ring && v.m == k && v.n == 1
    requires forall i :: 0 <= i < k ==> Noise(hs, ring, sigma, eta, N + i) == Ok(v.rows[i][0]) && !v.rows[i][0].isNtt
    ensures Converted(v, IntoNtt).Ok?
    ensures var s := Converted(v, IntoNtt).value;
      WellFormed(s) && s.ring == ring && s.m == k && s.n == 1 &&
      forall i :: 0 <= i < k ==> NttNoise(hs, ring, sigma, eta, N + i) == Ok(s.rows[i][0])
  {
    forall i, j | 0 <= i < v.m && 0 <= j < v.n
      ensures Apply(v.ring, IntoNtt, v.rows[i][j]).Ok?
      ensures Apply(v.ring, IntoNtt, v.rows[i][j]) == NttNoise(hs, ring, sigma, eta, N + i)
    {
      assert j == 0;
      assert Noise(hs, ring, sigma, eta, N + i) == Ok(v.rows[i][0]);
    }
  }

  // ---------------------------------------------------------------------------
  // _cpapke_keygen
  // ---------------------------------------------------------------------------

  /** t = (A @ s).to_montgomery() + e, then reduce_coefficents: a matrix of
      the shape of A s whose coefficients, over the Kyber ring, fit the 12-bit
      fields of the public key. */
  function PublicVector(a: Mat, s: Mat, e: Mat): (r: Result<Mat>)
    requires WellFormed(a) && WellFormed(s) && WellFormed(e)
    ensures r.Ok? ==> WellFormed(r.value) && r.value.ring == a.ring && r.value.m == a.m && r.value.n == s.n
    ensures r.Ok? && a.ring.n == 256 && a.ring.q == Q ==> Encodable(r.value, 12, 384)
  {
    var p :- MatMul(a, s);
    MatMulMeaning(a, s);
    var pm :- Converted(p, Montgomery);
    var t :- MatCombine(Plus, pm, e);
    MatCombineMeaning(Plus, pm, e);
    if t.ring.n == 256 && t.ring.q == Q then
      ReducedEncodable(t);
      Converted(t, Reduction)
    else
      Converted(t, Reduction)
  }

  /** The vectors of _cpapke_keygen, from the 32 random bytes d: rho and
      sigma from G(d), A from rho in NTT form, s and e from sigma with
      counters 0 .. k - 1 and k .. 2 k - 1, both taken to NTT form, and
      t = A s + e; the result is (t, s), both k x 1, t reduced. */
  function KeygenVectors(kb: Instance, hs: Hashes, d: seq<byte>): (r: Result<(Mat, Mat)>)
    requires Standard(kb) && Lengths(hs)
    ensures r.Ok? ==> var t, s := r.value.0, r.value.1;
      WellFormed(t) && t.ring == kb.ring && t.m == kb.ps.k && t.n == 1 && Encodable(t, 12, 384) &&
      WellFormed(s) && s.ring == kb.ring && s.m == kb.ps.k && s.n == 1
  {
    var (rho, sigma) := G(hs, d);
    var a :- MatrixFromSeedSpec(hs, kb.ring, kb.ps.k, rho, false, true);
    MatrixFromSeedMeaning(hs, kb.ring, kb.ps.k, rho, true);
    var (s, e) :- KeygenNoise(kb, hs, sigma);
    var t :- PublicVector(a, s, e);
    Ok((t, s))
  }

  /** _cpapke_keygen: the public key is t encoded with 12-bit fields followed
      by rho, the secret key s reduced and encoded likewise: 12 k n / 8 + 32
      and 12 k n / 8 bytes. */
  function CpapkeKeygen(kb: Instance, hs: Hashes, d: seq<byte>): (r: Result<(seq<byte>, seq<byte>)>)
    requires Standard(kb) && Lengths(hs)
    ensures r.Ok? <==> KeygenVectors(kb, hs, d).Ok?
    ensures r.Ok? ==> |r.value.0| == 384 * kb.ps.k + 32 && |r.value.1| == 384 * kb.ps.k
    ensures r.Ok? ==> r.value.0[384 * kb.ps.k..] == G(hs, d).0
  {
    var (t, s) :- KeygenVectors(kb, hs, d);
    ReducedEncodable(s);
    var sr := Converted(s, Reduction).value;
    MatEncodeLength(t, 12, 384);
    MatEncodeLength(sr, 12, 384);
    var tb := MatEncode(t, Some(12)).value;
    var sb := MatEncode(sr, Some(12)).value;
    Ok((tb + G(hs, d).0, sb))
  }

  /** The vectors come from the noise of sigma = G(d)[1] and the matrix of
      rho = G(d)[0]: s is the keygen secret and t = A s + e. */
  lemma KeygenVectorsMeaning(kb: Instance, hs: Hashes, d: seq<byte>)
    requires Standard(kb) && Lengths(hs) && KeygenVectors(kb, hs, d).Ok?
    ensures MatrixFromSeedSpec(hs, kb.ring, kb.ps.k, G(hs, d).0, false, true).Ok?
    ensures KeygenNoise(kb, hs, G(hs, d).1).Ok?
    ensures var a := MatrixFromSeedSpec(hs, kb.ring, kb.ps.k, G(hs, d).0, false, true).value;
      var s, e := KeygenNoise(kb, hs, G(hs, d).1).value.0, KeygenNoise(kb, hs, G(hs, d).1).value.1;
      WellFormed(a) && KeygenVectors(kb, hs, d).value == (PublicVector(a, s, e).value, s)
  {
    MatrixFromSeedMeaning(hs, kb.ring, kb.ps.k, G(hs, d).0, true);
  }

  /** Both vectors of keygen are in NTT form. */
  lemma KeygenVectorsNtt(kb: Instance, hs: Hashes, d: seq<byte>)
    requires Standard(kb) && Lengths(hs) && KeygenVectors(kb, hs, d).Ok?
    ensures var t, s := KeygenVectors(kb, hs, d).value.0, KeygenVectors(kb, hs, d).value.1;
      forall i :: 0 <= i < kb.ps.k ==> t.rows[i][0].isNtt && s.rows[i][0].isNtt
  {
    var sigma := G(hs, d).1;
    KeygenVectorsMeaning(kb, hs, d);
    var a := MatrixFromSeedSpec(hs, kb.ring, kb.ps.k, G(hs, d).0, false, true).value;
    var s, e := KeygenNoise(kb, hs, sigma).value.0, KeygenNoise(kb, hs, sigma).value.1;
    KeygenNoiseNtt(kb, hs, sigma);
    PublicVectorNtt(a, s, e);
  }

  /** Every entry of the keygen secret s and of the error e is in NTT form. */
  lemma KeygenNoiseNtt(kb: Instance, hs: Hashes, sigma: seq<byte>)
    requires Standard(kb) && Lengths(hs) && KeygenNoise(kb, hs, sigma).Ok?
    ensures var s := KeygenNoise(kb, hs, sigma).value.0;
      forall i :: 0 <= i < s.m ==> s.rows[i][0].isNtt
    ensures var e := KeygenNoise(kb, hs, sigma).value.1;
      forall i :: 0 <= i < e.m ==> e.rows[i][0].isNtt
  {
    var s, e := KeygenNoise(kb, hs, sigma).value.0, KeygenNoise(kb, hs, sigma).value.1;
    KeygenNoiseCounters(kb, hs, sigma);
    forall i | 0 <= i < s.m
      ensures s.rows[i][0].isNtt && e.rows[i][0].isNtt
    {
      assert NttNoise(hs, kb.ring, sigma, kb.ps.eta1, i) == Ok(s.rows[i][0]);
      assert NttNoise(hs, kb.ring, sigma, kb.ps.eta1, kb.ps.k + i) == Ok(e.rows[i][0]);
    }
  }

  /** With e in NTT form, every entry of A s + e is in NTT form. */
  lemma PublicVectorNtt(a: Mat, s: Mat, e: Mat)
    requires WellFormed(a) && WellFormed(s) && WellFormed(e) && PublicVector(a, s, e).Ok?
    requires s.n == 1 && forall i :: 0 <= i < e.m ==> e.rows[i][0].isNtt
    ensures var t := PublicVector(a, s, e).value;
      t.n == 1 && forall i :: 0 <= i < t.m ==> t.rows[i][0].isNtt
  {
    MatMulMeaning(a, s);
    var pm := Converted(MatMul(a, s).value, Montgomery).value;
    MatCombineMeaning(Plus, pm, e);
    var t0 := MatCombine(Plus, pm, e).value;
    var t := PublicVector(a, s, e).value;
    assert Converted(t0, Reduction) == Ok(t);
    forall i | 0 <= i < t.m
      ensures t.rows[i][0].isNtt
    {
      assert Combine(Plus, a.ring, pm.rows[i][0], e.rows[i][0]) == Ok(t0.rows[i][0]);
      assert Apply(a.ring, Reduction, t0.rows[i][0]) == Ok(t.rows[i][0]);
    }
  }

  /** The public key decodes, as _cpapke_enc reads it (1 x k, 12-bit fields,
      NTT form, the trailing rho ignored), to the row of the keygen vector t:
      entry j is entry j of t. */
  lemma PublicKeyDecodes(kb: Instance, hs: Hashes, d: seq<byte>)
    requires Standard(kb) && Lengths(hs) && CpapkeKeygen(kb, hs, d).Ok?
    ensures var t := KeygenVectors(kb, hs, d).value.0;
      var tt := ModuleDecodeSpec(kb.ring, CpapkeKeygen(kb, hs, d).value.0, 1, kb.ps.k, Some(12), true);
      tt.Ok? && WellFormed(tt.value) && tt.value.m == 1 && tt.value.n == kb.ps.k &&
      forall j :: 0 <= j < kb.ps.k ==> tt.value.rows[0][j] == t.rows[j][0]
  {
    var t := KeygenVectors(kb, hs, d).value.0;
    KeygenVectorsNtt(kb, hs, d);
    MatEncodeLength(t, 12, 384);
    assert CpapkeKeygen(kb, hs, d).value.0 == MatEncode(t, Some(12)).value + G(hs, d).0;
    ColumnWithTrailerDecodes(t, G(hs, d).0);
  }

  /** The secret key decodes, as _cpapke_dec reads it (1 x k, 12-bit fields,
      NTT form), to the row of the keygen secret s with its coefficients
      reduced: entry j is s[j] reduced mod q. */
  lemma SecretKeyDecodes(kb: Instance, hs: Hashes, d: seq<byte>)
    requires Standard(kb) && Lengths(hs) && CpapkeKeygen(kb, hs, d).Ok?
    ensures var s := KeygenVectors(kb, hs, d).value.1;
      var st := ModuleDecodeSpec(kb.ring, CpapkeKeygen(kb, hs, d).value.1, 1, kb.ps.k, Some(12), true);
      st.Ok? && WellFormed(st.value) && st.value.m == 1 && st.value.n == kb.ps.k &&
      forall j :: 0 <= j < kb.ps.k ==> st.value.rows[0][j] == ReduceCoefficients(Q, s.rows[j][0])
  {
    var s := KeygenVectors(kb, hs, d).value.1;
    KeygenVectorsNtt(kb, hs, d);
    ReducedEncodable(s);
    MatEncodeLength(Converted(s, Reduction).value, 12, 384);
    ReducedColumnDecodes(s, CpapkeKeygen(kb, hs, d).value.1);
  }

  /** A k x 1 column in NTT form, reduced and encoded with 12-bit fields,
      decodes as a 1 x k row whose entry j is entry j of the column reduced. */
  lemma ReducedColumnDecodes(s: Mat, sk: seq<byte>)
    requires WellFormed(s) && s.ring.n == 256 && s.ring.q == Q && s.m >= 1 && s.n == 1
    requires forall i :: 0 <= i < s.m ==> s.rows[i][0].isNtt
    requires Converted(s, Reduction).Ok? && MatEncode(Converted(s, Reduction).value, Some(12)).Ok?
    requires sk == MatEncode(Converted(s, Reduction).value, Some(12)).value
    ensures var st := ModuleDecodeSpec(s.ring, sk, 1, s.m, Some(12), true);
      st.Ok? && WellFormed(st.value) && st.value.m == 1 && st.value.n == s.m &&
      forall j :: 0 <= j < s.m ==> st.value.rows[0][j] == ReduceCoefficients(Q, s.rows[j][0])
  {
    ReducedEncodable(s);
    var sr := Converted(s, Reduction).value;
    forall i | 0 <= i < sr.m
      ensures sr.rows[i][0] == ReduceCoefficients(Q, s.rows[i][0])
      ensures FitsWidth(sr.rows[i][0].coeffs, 12) && sr.rows[i][0].isNtt
    {
      assert Apply(s.ring, Reduction, s.rows[i][0]) == Ok(sr.rows[i][0]);
    }
    ColumnDecodesAsRow(sr, 12, true);
    ColumnEncodesAsRow(sr, 12);
  }

  /** A k x 1 column in NTT form with 12-bit coefficients, encoded and
      followed by more bytes, decodes as a 1 x k row of the same entries. */
  lemma ColumnWithTrailerDecodes(t: Mat, extra: seq<byte>)
    requires WellFormed(t) && t.ring.n == 256 && t.m >= 1 && t.n == 1
    requires forall i :: 0 <= i < t.m ==> FitsWidth(t.rows[i][0].coeffs, 12) && t.rows[i][0].isNtt
    ensures MatEncode(t, Some(12)).Ok?
    ensures var tt := ModuleDecodeSpec(t.ring, MatEncode(t, Some(12)).value + extra, 1, t.m, Some(12), true);
      tt.Ok? && WellFormed(tt.value) && tt.value.m == 1 && tt.value.n == t.m &&
      forall j :: 0 <= j < t.m ==> tt.value.rows[0][j] == t.rows[j][0]
  {
    ColumnDecodesAsRow(t, 12, true);
    ColumnEncodesAsRow(t, 12);
    ModuleDecodeTrailing(t.ring, MatEncode(t, Some(12)).value, extra, 1, t.m, 12, true);
  }

  // ---------------------------------------------------------------------------
  // _cpapke_enc
  // ---------------------------------------------------------------------------

  /** (a @ b)[0][0].from_ntt(): the first entry of the product back in
      standard form, reduced. */
  function InnerProduct(a: Mat, b: Mat): (r: Result<Poly>)
    requires WellFormed(a) && WellFormed(b)
    ensures r.Ok? ==> Fits(a.ring, r.value) && !r.value.isNtt && Reduced(Q, r.value)
  {
    var p :- MatMul(a, b);
    MatMulMeaning(a, b);
    PolyFromNtt(a.ring, p.rows[0][0])
  }

  /** u = (A^T @ r).from_ntt() + e1: the shape of A^T r. */
  function NoisyProduct(a: Mat, s: Mat, e: Mat): (r: Result<Mat>)
    requires WellFormed(a) && WellFormed(s) && WellFormed(e)
    ensures r.Ok? ==> WellFormed(r.value) && r.value.ring == a.ring && r.value.m == a.m && r.value.n == s.n
  {
    var p :- MatMul(a, s);
    MatMulMeaning(a, s);
    var q :- Converted(p, OutOfNtt);
    var u :- MatCombine(Plus, q, e);
    MatCombineMeaning(Plus, q, e);
    Ok(u)
  }

  /** c1 || c2: u compressed to du bits and encoded with that width, then v
      compressed to dv bits and encoded likewise; it always succeeds, with
      32 du bytes per entry of u and 32 dv bytes for v. */
  function CiphertextBytes(kb: Instance, u: Mat, v: Poly): (r: Result<seq<byte>>)
    requires Standard(kb) && WellFormed(u) && u.ring == kb.ring && u.n == 1 && Fits(kb.ring, v)
    ensures r.Ok? && |r.value| == u.m * (32 * kb.ps.du) + 32 * kb.ps.dv
  {
    var du, dv := kb.ps.du, kb.ps.dv;
    CompressedEncodable(u, du);
    var uc := Converted(u, Compression(du)).value;
    MatEncodeLength(uc, du, 32 * du);
    assert uc.m * uc.n == u.m;
    var c1 := MatEncode(uc, Some(du)).value;
    var vc := Compress(kb.ring.q, v, dv);
    DivModUnique(256 * dv, 8, 32 * dv, 0);
    EncodeDecodeRoundTrip(kb.ring, vc, dv);
    var c2 := Encode(vc, Some(dv)).value;
    Ok(c1 + c2)
  }

  /** The ciphertext splits where _cpapke_dec cuts it: decoding the first
      k entries with du-bit fields gives back u compressed to du bits, and
      the bytes from du k n / 8 on decode with dv-bit fields to v compressed
      to dv bits. */
  lemma CiphertextLayout(kb: Instance, u: Mat, v: Poly)
    requires Standard(kb) && WellFormed(u) && u.ring == kb.ring && u.m == kb.ps.k && u.n == 1
    requires forall i :: 0 <= i < u.m ==> !u.rows[i][0].isNtt
    requires Fits(kb.ring, v) && !v.isNtt
    ensures var c := CiphertextBytes(kb, u, v).value;
      ModuleDecodeSpec(kb.ring, c, kb.ps.k, 1, Some(kb.ps.du), false) == Converted(u, Compression(kb.ps.du))
    ensures var c := CiphertextBytes(kb, u, v).value;
      var index := kb.ps.du * kb.ps.k * kb.ring.n / 8;
      DecodeSpec(kb.ring, Slice(c, index, |c|), Some(kb.ps.dv), false) == Ok(Compress(kb.ring.q, v, kb.ps.dv))
  {
    var ring, k, du, dv := kb.ring, kb.ps.k, kb.ps.du, kb.ps.dv;
    CompressedEncodable(u, du);
    var uc := Converted(u, Compression(du)).value;
    assert forall i, j :: 0 <= i < uc.m && 0 <= j < uc.n ==> uc.rows[i][j].isNtt == false by {
      forall i, j | 0 <= i < uc.m && 0 <= j < uc.n
        ensures uc.rows[i][j].isNtt == false
      {
        assert j == 0;
        assert Apply(ring, Compression(du), u.rows[i][0]) == Ok(uc.rows[i][0]);
      }
    }
    MatEncodeDecode(uc, du, false);
    MatEncodeLength(uc, du, 32 * du);
    var c1 := MatEncode(uc, Some(du)).value;
    var vc := Compress(ring.q, v, dv);
    DivModUnique(256 * dv, 8, 32 * dv, 0);
    EncodeDecodeRoundTrip(ring, vc, dv);
    var c2 := Encode(vc, Some(dv)).value;
    assert CiphertextBytes(kb, u, v).value == c1 + c2;
    ModuleDecodeTrailing(ring, c1, c2, k, 1, du, false);
    CiphertextIndex(du, k);
    SliceAfter(c1, c2);
  }

  /** du k n / 8 = k (32 du) for n = 256. */
  lemma CiphertextIndex(du: nat, k: nat)
    ensures du * k * 256 / 8 == k * (32 * du)
  {
    assert du * k * 256 == 8 * (k * (32 * du));
    DivModUnique(du * k * 256, 8, k * (32 * du), 0);
  }

  /** Slicing a + b from |a| to the end gives b. */
  lemma SliceAfter<T>(a: seq<T>, b: seq<T>)
    ensures Slice(a + b, |a|, |a + b|) == b
  {
    assert (a + b)[|a|..] == b;
  }

  /** The noise of an encryption: r (eta1, taken to NTT form) from the coins
      with PRF counters 0 .. k - 1, e1 (eta2) with k .. 2 k - 1, and e2 (eta2)
      with counter 2 k; r and e1 are k x 1 over the ring, e2 a standard-form
      ring element. */
  function EncryptionNoise(kb: Instance, hs: Hashes, coins: seq<byte>): (r: Result<(Mat, Mat, Poly)>)
    requires Standard(kb) && Lengths(hs)
    ensures r.Ok? ==> |coins| == 32 && 2 * kb.ps.k < 256
    ensures r.Ok? ==> var (rn, e1, e2) := r.value;
      WellFormed(rn) && rn.ring == kb.ring && rn.m == kb.ps.k && rn.n == 1 &&
      WellFormed(e1) && e1.ring == kb.ring && e1.m == kb.ps.k && e1.n == 1 &&
      Fits(kb.ring, e2) && !e2.isNtt
  {
    var ring, k := kb.ring, kb.ps.k;
    var rv :- ErrorVectorSpec(hs, ring, k, coins, kb.ps.eta1, 0, false);
    ErrorVectorMeaning(hs, ring, k, coins, kb.ps.eta1, 0, false);
    var rn :- Converted(rv.0, IntoNtt);
    var ev :- ErrorVectorSpec(hs, ring, k, coins, kb.ps.eta2, rv.1, false);
    ErrorVectorMeaning(hs, ring, k, coins, kb.ps.eta2, rv.1, false);
    var b :- ByteOf(ev.1);
    var input :- Prf(hs, coins, b, 64 * kb.ps.eta2);
    var e2 :- CbdSpec(ring, input, kb.ps.eta2, false);
    CbdMeaning(ring, input, kb.ps.eta2, false);
    Ok((rn, ev.0, e2))
  }

  /** The PRF counters of an encryption: entry i of r is the eta1 sample for
      counter i in NTT form, entry i of e1 the eta2 sample for counter k + i,
      and e2 the eta2 sample for counter 2 k. */
  lemma EncryptionNoiseCounters(kb: Instance, hs: Hashes, coins: seq<byte>)
    requires Standard(kb) && Lengths(hs) && EncryptionNoise(kb, hs, coins).Ok?
    ensures 2 * kb.ps.k < 256
    ensures var rn := EncryptionNoise(kb, hs, coins).value.0;
      forall i :: 0 <= i < kb.ps.k ==> NttNoise(hs, kb.ring, coins, kb.ps.eta1, i) == Ok(rn.rows[i][0])
    ensures var e1 := EncryptionNoise(kb, hs, coins).value.1;
      forall i :: 0 <= i < kb.ps.k ==> Noise(hs, kb.ring, coins, kb.ps.eta2, kb.ps.k + i) == Ok(e1.rows[i][0])
    ensures Noise(hs, kb.ring, coins, kb.ps.eta2, 2 * kb.ps.k) == Ok(EncryptionNoise(kb, hs, coins).value.2)
  {
    EncryptionNoiseParts(kb, hs, coins);
    EncryptionNoiseR(kb, hs, coins);
    EncryptionNoiseE1(kb, hs, coins);
  }

  lemma EncryptionNoiseR(kb: Instance, hs: Hashes, coins: seq<byte>)
    requires Standard(kb) && Lengths(hs) && EncryptionNoise(kb, hs, coins).Ok?
    ensures var rn := EncryptionNoise(kb, hs, coins).value.0;
      forall i :: 0 <= i < kb.ps.k ==> NttNoise(hs, kb.ring, coins, kb.ps.eta1, i) == Ok(rn.rows[i][0])
  {
    EncryptionNoiseParts(kb, hs, coins);
    var rn := EncryptionNoise(kb, hs, coins).value.0;
    forall i | 0 <= i < kb.ps.k
      ensures NttNoise(hs, kb.ring, coins, kb.ps.eta1, i) == Ok(rn.rows[i][0])
    {
      NttNoiseEntry(hs, kb.ring, kb.ps.k, coins, kb.ps.eta1, 0, i, i);
    }
  }

  lemma EncryptionNoiseE1(kb: Instance, hs: Hashes, coins: seq<byte>)
    requires Standard(kb) && Lengths(hs) && EncryptionNoise(kb, hs, coins).Ok?
    ensures var e1 := EncryptionNoise(kb, hs, coins).value.1;
      forall i :: 0 <= i < kb.ps.k ==> Noise(hs, kb.ring, coins, kb.ps.eta2, kb.ps.k + i) == Ok(e1.rows[i][0])
  {
    EncryptionNoiseParts(kb, hs, coins);
    NoiseVector(hs, kb.ring, kb.ps.k, coins, kb.ps.eta2, kb.ps.k);
  }

  /** The three parts of the encryption noise, by the vectors they come from. */
  lemma EncryptionNoiseParts(kb: Instance, hs: Hashes, coins: seq<byte>)
    requires Standard(kb) && Lengths(hs) && EncryptionNoise(kb, hs, coins).Ok?
    ensures 2 * kb.ps.k < 256
    ensures ErrorVectorSpec(hs, kb.ring, kb.ps.k, coins, kb.ps.eta1, 0, false).Ok?
    ensures ErrorVectorSpec(hs, kb.ring, kb.ps.k, coins, kb.ps.eta2, kb.ps.k, false).Ok?
    ensures var v := ErrorVectorSpec(hs, kb.ring, kb.ps.k, coins, kb.ps.eta1, 0, false).value.0;
      WellFormed(v) && Converted(v, IntoNtt).Ok? &&
      EncryptionNoise(kb, hs, coins).value.0 == Converted(v, IntoNtt).value
    ensures EncryptionNoise(kb, hs, coins).value.1 ==
      ErrorVectorSpec(hs, kb.ring, kb.ps.k, coins, kb.ps.eta2, kb.ps.k, false).value.0
    ensures Noise(hs, kb.ring, coins, kb.ps.eta2, 2 * kb.ps.k) == Ok(EncryptionNoise(kb, hs, coins).value.2)
  {
    var ring, k, eta1, eta2 := kb.ring, kb.ps.k, kb.ps.eta1, kb.ps.eta2;
    ErrorVectorOk(hs, ring, k, coins, eta1, 0);
    ErrorVectorOk(hs, ring, k, coins, eta2, k);
    NttNoiseVector(hs, ring, k, coins, eta1, 0);
    var rv := ErrorVectorSpec(hs, ring, k, coins, eta1, 0, false).value;
    assert rv.1 == k;
    var ev := ErrorVectorSpec(hs, ring, k, coins, eta2, k, false).value;
    assert ev.1 == 2 * k;
    var last := 2 * k;
    var input := hs.shake256(coins + [last], 64 * eta2);
    assert Prf(hs, coins, [last], 64 * eta2) == Ok(input);
  }

  /** _cpapke_enc with explicit coins: rho is the last 32 bytes of pk, t the
      1 x k decode of pk with 12-bit fields in NTT form, the message decoded
      bit by bit and decompressed; A^T from rho, r (to NTT form) and e1 from
      the coins with counters from 0, e2 from the next counter; u = A^T r + e1
      and v = t r + e2 + m. The ciphertext is k 32 du + 32 dv bytes. */
  function CpapkeEnc(kb: Instance, hs: Hashes, pk: seq<byte>, m: seq<byte>, coins: seq<byte>)
    : (r: Result<seq<byte>>)
    requires Standard(kb) && Lengths(hs)
    ensures r.Ok? ==> |r.value| == kb.ps.k * (32 * kb.ps.du) + 32 * kb.ps.dv
  {
    var ring, k := kb.ring, kb.ps.k;
    var rho := Slice(pk, -32, |pk|);
    var tt :- ModuleDecodeSpec(ring, pk, 1, k, Some(12), true);
    ModuleDecodeShape(ring, pk, 1, k, 12, true);
    var mp :- DecodeSpec(ring, m, Some(1), false);
    DecodeMeaning(ring, m, Some(1), false);
    var mPoly := Decompress(ring.q, mp, 1);
    var at :- MatrixFromSeedSpec(hs, ring, k, rho, true, true);
    TransposedSeedShape(hs, ring, k, rho, true);
    var noise :- EncryptionNoise(kb, hs, coins);
    var (rn, e1, e2) := noise;
    var u :- NoisyProduct(at, rn, e1);
    var w :- InnerProduct(tt, rn);
    var v := Add(ring, Add(ring, w, e2).value, mPoly).value;
    CiphertextBytes(kb, u, v)
  }

  // ---------------------------------------------------------------------------
  // _cpapke_dec
  // ---------------------------------------------------------------------------

  /** _cpapke_dec: u is the k x 1 decode of c with du-bit fields,
      decompressed and taken to NTT form; v the decode of c from byte
      du k n / 8 on with dv-bit fields, decompressed; s the 1 x k decode of
      sk with 12-bit fields in NTT form; the message v - s u is compressed to
      one bit per coefficient and encoded: 32 bytes. */
  function CpapkeDec(kb: Instance, sk: seq<byte>, c: seq<byte>): (r: Result<seq<byte>>)
    requires Standard(kb)
    ensures r.Ok? ==> |r.value| == 32
  {
    var ring, k, du, dv := kb.ring, kb.ps.k, kb.ps.du, kb.ps.dv;
    var index := du * k * ring.n / 8;
    var c2 := Slice(c, index, |c|);
    var u0 :- ModuleDecodeSpec(ring, c, k, 1, Some(du), false);
    ModuleDecodeShape(ring, c, k, 1, du, false);
    var u1 := Converted(u0, Decompression(du)).value;
    var u :- Converted(u1, IntoNtt);
    var v0 :- DecodeSpec(ring, c2, Some(dv), false);
    DecodeMeaning(ring, c2, Some(dv), false);
    var v := Decompress(ring.q, v0, dv);
    var st :- ModuleDecodeSpec(ring, sk, 1, k, Some(12), true);
    ModuleDecodeShape(ring, sk, 1, k, 12, true);
    var w :- InnerProduct(st, u);
    var msg := Sub(ring, v, w).value;
    var mc := Compress(ring.q, msg, 1);
    DivModUnique(ring.n * 1, 8, 32, 0);
    EncodeDecodeRoundTrip(ring, mc, 1);
    Encode(mc, Some(1))
  }

  // ---------------------------------------------------------------------------
  // keygen, enc, dec
  // ---------------------------------------------------------------------------

  /** keygen with the random bytes d (for the CPA key pair) and z as
      parameters: the secret key is sk' || pk || H(pk) || z. */
  function Keygen(kb: Instance, hs: Hashes, d: seq<byte>, z: seq<byte>): (r: Result<(seq<byte>, seq<byte>)>)
    requires Standard(kb) && Lengths(hs)
    ensures r.Ok? <==> CpapkeKeygen(kb, hs, d).Ok?
    ensures r.Ok? ==> |r.value.0| == 384 * kb.ps.k + 32 && |r.value.1| == 768 * kb.ps.k + 64 + |z|
  {
    var kp :- CpapkeKeygen(kb, hs, d);
    var pk := kp.0;
    Ok((pk, kp.1 + pk + H(hs, pk) + z))
  }

  /** enc with the random bytes m as a parameter: the message is H(m),
      (Kbar, r) = G(H(m) || H(pk)), c encrypts H(m) under pk with coins r,
      and the key is KDF(Kbar || H(c)) of the requested length. */
  function Enc(kb: Instance, hs: Hashes, pk: seq<byte>, m: seq<byte>, keyLength: nat)
    : (r: Result<(seq<byte>, seq<byte>)>)
    requires Standard(kb) && Lengths(hs)
    ensures r.Ok? ==>
      |r.value.0| == kb.ps.k * (32 * kb.ps.du) + 32 * kb.ps.dv && |r.value.1| == keyLength
  {
    var mHash := H(hs, m);
    var (kbar, coins) := G(hs, mHash + H(hs, pk));
    var c :- CpapkeEnc(kb, hs, pk, mHash, coins);
    Ok((c, Kdf(hs, kbar + H(hs, c), keyLength)))
  }

  /** dec: the secret key cut at 12 k n / 8 and 64 and 32 bytes from the
      end into sk', pk, H(pk) and z; the ciphertext decrypted and encrypted
      again with the coins of G(m' || H(pk)); the key is KDF(Kbar || H(c))
      when that gives c back, and KDF(z || H(c)) otherwise. */
  function Dec(kb: Instance, hs: Hashes, c: seq<byte>, sk: seq<byte>, keyLength: nat): (r: Result<seq<byte>>)
    requires Standard(kb) && Lengths(hs)
    ensures r.Ok? ==> |r.value| == keyLength
  {
    var index := 12 * kb.ps.k * kb.ring.n / 8;
    var skp := Slice(sk, 0, index);
    var pk := Slice(sk, index, -64);
    var hpk := Slice(sk, -64, -32);
    var z := Slice(sk, -32, |sk|);
    var m :- CpapkeDec(kb, skp, c);
    var (kbar, coins) := G(hs, m + hpk);
    var reencrypted :- CpapkeEnc(kb, hs, pk, m, coins);
    if c == reencrypted then Ok(Kdf(hs, kbar + H(hs, c), keyLength))
    else Ok(Kdf(hs, z + H(hs, c), keyLength))
  }

  /** The cuts dec makes in a secret key from keygen (with a 32-byte z)
      give back sk', pk, H(pk) and z. */
  lemma SecretKeyLayout(kb: Instance, hs: Hashes, d: seq<byte>, z: seq<byte>)
    requires Standard(kb) && Lengths(hs) && |z| == 32 && Keygen(kb, hs, d, z).Ok?
    ensures var (pk, sk) := Keygen(kb, hs, d, z).value;
      var index := 12 * kb.ps.k * kb.ring.n / 8;
      Slice(sk, 0, index) == CpapkeKeygen(kb, hs, d).value.1 && Slice(sk, index, -64) == pk &&
      Slice(sk, -64, -32) == H(hs, pk) && Slice(sk, -32, |sk|) == z
  {
    var kp := CpapkeKeygen(kb, hs, d).value;
    var pk := kp.0;
    DivModUnique(12 * kb.ps.k * kb.ring.n, 8, 384 * kb.ps.k, 0);
    Cuts(kp.1, pk, H(hs, pk), z);
  }

  /** The four cuts of a || b || c || e where c and e are 32 bytes long. */
  lemma Cuts<T>(a: seq<T>, b: seq<T>, c: seq<T>, e: seq<T>)
    requires |c| == 32 && |e| == 32
    ensures var s := a + b + c + e;
      Slice(s, 0, |a|) == a && Slice(s, |a|, -64) == b && Slice(s, -64, -32) == c && Slice(s, -32, |s|) == e
  {
    var s := a + b + c + e;
    assert s[..|a|] == a;
    assert s[|a| .. |s| - 64] == b;
    assert s[|s| - 64 .. |s| - 32] == c;
    assert s[|s| - 32..] == e;
  }

  /** Implicit rejection, the accepting side: when decryption of an
      encapsulation under a generated key pair returns the encrypted message
      H(m), dec re-encrypts to the same ciphertext and returns the shared
      key enc produced. */
  lemma DecapsulationRecoversKey(kb: Instance, hs: Hashes, d: seq<byte>, z: seq<byte>, m: seq<byte>,
                                 keyLength: nat, pk: seq<byte>, sk: seq<byte>, c: seq<byte>, key: seq<byte>)
    requires Standard(kb) && Lengths(hs) && |z| == 32
    requires Keygen(kb, hs, d, z) == Ok((pk, sk))
    requires Enc(kb, hs, pk, m, keyLength) == Ok((c, key))
    requires CpapkeDec(kb, CpapkeKeygen(kb, hs, d).value.1, c) == Ok(H(hs, m))
    ensures Dec(kb, hs, c, sk, keyLength) == Ok(key)
  {
    SecretKeyLayout(kb, hs, d, z);
  }

  /** Implicit rejection, the rejecting side: when re-encrypting the
      decrypted message does not give the ciphertext back, dec returns
      KDF(z || H(c)) with the z of keygen. */
  lemma DecapsulationRejects(kb: Instance, hs: Hashes, d: seq<byte>, z: seq<byte>, keyLength: nat,
                             pk: seq<byte>, sk: seq<byte>, c: seq<byte>)
    requires Standard(kb) && Lengths(hs) && |z| == 32
    requires Keygen(kb, hs, d, z) == Ok((pk, sk))
    requires CpapkeDec(kb, CpapkeKeygen(kb, hs, d).value.1, c).Ok?
    requires var m := CpapkeDec(kb, CpapkeKeygen(kb, hs, d).value.1, c).value;
      var reencrypted := CpapkeEnc(kb, hs, pk, m, G(hs, m + H(hs, pk)).1);
      reencrypted.Ok? && reencrypted.value != c
    ensures Dec(kb, hs, c, sk, keyLength) == Ok(Kdf(hs, z + H(hs, c), keyLength))
  {
    SecretKeyLayout(kb, hs, d, z);
  }

  /** Public key, secret key and ciphertext sizes in bytes of the three
      sets, as the round-3 specification tabulates them. */
  function PublishedSizes(ps: ParameterSet): (nat, nat, nat)
  {
    if ps == Kyber512 then (800, 1632, 768)
    else if ps == Kyber768 then (1184, 2400, 1088)
    else (1568, 3168, 1568)
  }

  /** The keys and ciphertexts of the default sets have the published
      sizes (with the 32-byte z that keygen draws). */
  lemma DefaultSizes(ps: ParameterSet, hs: Hashes, d: seq<byte>, z: seq<byte>, pk: seq<byte>, m: seq<byte>,
                     keyLength: nat)
    requires ps == Kyber512 || ps == Kyber768 || ps == Kyber1024
    requires Lengths(hs) && |z| == 32
    ensures Standard(NewInstance(ps))
    ensures Keygen(NewInstance(ps), hs, d, z).Ok? ==>
      |Keygen(NewInstance(ps), hs, d, z).value.0| == PublishedSizes(ps).0 &&
      |Keygen(NewInstance(ps), hs, d, z).value.1| == PublishedSizes(ps).1
    ensures Enc(NewInstance(ps), hs, pk, m, keyLength).Ok? ==>
      |Enc(NewInstance(ps), hs, pk, m, keyLength).value.0| == PublishedSizes(ps).2
  {
    DefaultParameterSets(ps);
    var kb := NewInstance(ps);
    assert kb.ps == ps;
    var (pkSize, skSize, ctSize) := PublishedSizes(ps);
    if ps == Kyber512 {
      assert ps.k == 2 && ps.du == 10 && ps.dv == 4;
    } else if ps == Kyber768 {
      assert ps.k == 3 && ps.du == 10 && ps.dv == 4;
    } else {
      assert ps.k == 4 && ps.du == 11 && ps.dv == 5;
    }
    assert pkSize == 384 * ps.k + 32 && skSize == 768 * ps.k + 96;
    assert ctSize == ps.k * (32 * ps.du) + 32 * ps.dv;
  }
}
