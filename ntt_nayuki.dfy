/** The integer half of Project Nayuki's number-theoretic transform library: the
    number theory that picks a modulus and a root of unity (floor square root,
    trial-division primality, distinct prime factors, primitive roots, the modulus
    search) and the two integer transforms, the quadratic one and the in-place
    radix-2 one. Python's ValueError becomes an Err result. */
module NttNayuki {
  import opened Common

  // ---- Divisibility and primes ----

  /** d divides n. */
  predicate Divides(d: int, n: int)
  {
    d > 0 && n % d == 0
  }

  /** n is prime: at least 2 and without a divisor strictly between 1 and n. */
  predicate Prime(n: int)
  {
    n >= 2 && forall d :: 2 <= d < n ==> !Divides(d, n)
  }

  /** Strictly increasing. */
  predicate Ascending(s: seq<nat>)
  {
    forall i, j :: 0 <= i < j < |s| ==> s[i] < s[j]
  }

  /** Appending an element above all others keeps a sequence ascending. */
  lemma AscendingAppend(s: seq<nat>, x: nat)
    requires Ascending(s) && forall y :: y in s ==> y < x
    ensures Ascending(s + [x])
  {
    forall i, j | 0 <= i < j < |s| + 1
      ensures (s + [x])[i] < (s + [x])[j]
    {
      if j == |s| {
        assert s[i] in s;
      }
    }
  }

  lemma MultipleDivides(d: int, k: int)
    requires d > 0
    ensures Divides(d, d * k)
  {
    ModAddMultiple(0, k, d);
  }

  /** A divisor of a positive number is at most that number. */
  lemma DivisorAtMost(d: int, n: int)
    requires Divides(d, n) && n >= 1
    ensures d <= n
  {
    DivModIdentity(n, d);
    var q := n / d;
    if q <= 0 {
      MulMonotone(d, q, 0);
    } else {
      MulAtLeast(d, q);
    }
  }

  lemma DividesTransitive(a: int, b: int, c: int)
    requires Divides(a, b) && Divides(b, c)
    ensures Divides(a, c)
  {
    DivModIdentity(b, a);
    DivModIdentity(c, b);
    var s, t := b / a, c / b;
    assert c == a * (s * t) by {
      MulAssoc(a, s, t);
    }
    MultipleDivides(a, s * t);
  }

  /** The cofactor of a divisor divides too. */
  lemma CofactorDivides(d: int, n: int)
    requires Divides(d, n)
    ensures n == d * (n / d) && (n / d > 0 ==> Divides(n / d, n))
  {
    DivModIdentity(n, d);
    if n / d > 0 {
      assert n == (n / d) * d;
      MultipleDivides(n / d, d);
    }
  }

  /** Two primes, one dividing the other, are equal. */
  lemma PrimeDividesPrime(p: int, q: int)
    requires Prime(p) && Prime(q) && Divides(p, q)
    ensures p == q
  {
    DivisorAtMost(p, q);
  }

  /** Euclid's lemma: a prime dividing a product divides one of the factors. */
  lemma {:induction false} Euclid(p: int, a: nat, b: nat)
    requires Prime(p) && Divides(p, a * b)
    ensures Divides(p, a) || Divides(p, b)
    decreases a
  {
    if a == 0 {
    } else if a >= p {
      var k: int := b;
      assert (a - p) * b == a * b + p * (-k);
      ModAddMultiple(a * b, -k, p);
      Euclid(p, a - p, b);
      ModAddMultiple(a - p, 1, p);
    } else if a == 1 {
    } else {
      var q, r := p / a, p % a;
      DivModIdentity(p, a);
      assert r != 0 by {
        assert !Divides(a, p);
      }
      var t := (a * b) / p;
      DivModIdentity(a * b, p);
      assert r * b == p * (b - q * t) by {
        assert p * b == (a * q) * b + r * b;
        assert (a * q) * b == q * (a * b) by {
          MulAssoc(a, q, b);
        }
      }
      MultipleDivides(p, b - q * t);
      Euclid(p, r, b);
      if Divides(p, r) {
        DivisorAtMost(p, r);
      }
    }
  }

  // ---- sqrt ----

  /** The floor of the square root of n, defined by counting up from 0. */
  function FloorSqrt(n: nat): (r: nat)
    ensures r * r <= n < (r + 1) * (r + 1)
    ensures r <= n
  {
    if n == 0 then 0
    else
      var s := FloorSqrt(n - 1);
      if (s + 1) * (s + 1) <= n then
        assert (s + 2) * (s + 2) == (s + 1) * (s + 1) + 2 * s + 3;
        s + 1
      else s
  }

  lemma SquareMonotone(a: nat, b: nat)
    requires a <= b
    ensures a * a <= b * b
  {
    MulMonotone(a, a, b);
    MulMonotone(b, a, b);
  }

  /** r*r <= n < (r+1)*(r+1) determines r. */
  lemma FloorSqrtUnique(n: nat, r: nat)
    requires r * r <= n < (r + 1) * (r + 1)
    ensures r == FloorSqrt(n)
  {
    var s := FloorSqrt(n);
    if r < s {
      SquareMonotone(r + 1, s);
    } else if s < r {
      SquareMonotone(s + 1, r);
    }
  }

  /** sqrt: the floor of the square root of n, by doubling i past it and then building the
      result one bit at a time from the top; a negative n is an error. */
  method Sqrt(n: int) returns (r: Result<nat>)
    ensures r.Err? <==> n < 0
    ensures r.Ok? ==> r.value == FloorSqrt(n)
  {
    if n < 0 {
      return Err(OutOfRange);
    }
    var i: nat := 1;
    ghost var k: nat := 0;
    while i * i <= n
      invariant i == Pow2(k)
      decreases n - i
    {
      MulMonotone(i, 1, i);
      i := i * 2;
      k := k + 1;
    }
    var result: nat := 0;
    assert (2 * i) * (2 * i) == 4 * (i * i);
    while i > 0
      invariant i == 0 || i == Pow2(k)
      invariant result * result <= n
      invariant i > 0 ==> n < (result + 2 * i) * (result + 2 * i)
      invariant i == 0 ==> n < (result + 1) * (result + 1)
      decreases i
    {
      SqrtStep(n, result, i, k);
      if (result + i) * (result + i) <= n {
        result := result + i;
      }
      i := i / 2;
      if k > 0 {
        k := k - 1;
      }
    }
    FloorSqrtUnique(n, result);
    return Ok(result);
  }

  /** One step of the bit-by-bit square root keeps its bounds. */
  lemma SqrtStep(n: nat, result: nat, i: nat, k: nat)
    requires i == Pow2(k) && result * result <= n && n < (result + 2 * i) * (result + 2 * i)
    ensures var next := if (result + i) * (result + i) <= n then result + i else result;
            (i / 2 > 0 ==> n < (next + 2 * (i / 2)) * (next + 2 * (i / 2)))
            && (i / 2 == 0 ==> n < (next + 1) * (next + 1))
            && (i / 2 == 0 || i / 2 == Pow2(k - 1))
  {
    if k > 0 {
      assert 2 * (i / 2) == i;
    }
  }

  lemma FloorSqrtBelow(n: nat)
    requires n >= 2
    ensures FloorSqrt(n) < n
  {
    if FloorSqrt(n) == n {
      MulMonotone(n, 2, n);
    }
  }

  // ---- is_prime ----

  /** A number with no divisor in [2, FloorSqrt(n)] is prime: a divisor d above the square root
      has a cofactor below it. */
  lemma {:induction false} NoSmallDivisorPrime(n: nat)
    requires n >= 2 && forall d :: 2 <= d <= FloorSqrt(n) ==> !Divides(d, n)
    ensures Prime(n)
  {
    var s := FloorSqrt(n);
    forall d | 2 <= d < n
      ensures !Divides(d, n)
    {
      if Divides(d, n) {
        CofactorDivides(d, n);
        var e := n / d;
        if e <= 1 {
          MulMonotone(d, e, 1);
        } else {
          assert Divides(e, n);
          if s < d && s < e {
            MulMonotone(d, s + 1, e);
            MulMonotone(s + 1, s + 1, d);
          }
        }
      }
    }
  }

  /** is_prime: trial division by 2 .. sqrt(n); n <= 1 is an error. The answer is primality. */
  function IsPrime(n: int): (r: Result<bool>)
    ensures r.Err? <==> n <= 1
    ensures r.Ok? ==> (r.value <==> Prime(n))
  {
    if n <= 1 then Err(OutOfRange)
    else
      var trial := forall i :: 2 <= i <= FloorSqrt(n) ==> n % i != 0;
      if trial then
        NoSmallDivisorPrime(n);
        Ok(true)
      else
        assert !Prime(n) by {
          var i :| 2 <= i <= FloorSqrt(n) && n % i == 0;
          FloorSqrtBelow(n);
          assert Divides(i, n);
        }
        Ok(false)
  }

  // ---- unique_prime_factors ----

  /** p and q have the same prime divisors, except perhaps i. */
  ghost predicate SameFactorsExcept(p: int, q: int, i: int)
  {
    forall f :: Prime(f) && f != i ==> (Divides(f, p) <==> Divides(f, q))
  }

  /** The invariant of the trial-division loop: m is what is left of n, every prime below i
      that divides n was recorded (in order), m has no divisor in [2, i), and the primes from
      i on that divide n are those that divide m. */
  ghost predicate FactorsSoFar(n: nat, m: nat, i: nat, end: nat, result: seq<nat>)
  {
    2 <= i && 1 <= m && Divides(m, n) && end == FloorSqrt(m)
    && Ascending(result) && (forall x :: x in result ==> x < i)
    && (forall p :: p in result <==> Prime(p) && p < i && Divides(p, n))
    && (forall p :: Prime(p) && p >= i ==> (Divides(p, n) <==> Divides(p, m)))
    && (forall d :: 2 <= d < i ==> !Divides(d, m))
  }

  /** The first i dividing m is prime, and divides n. */
  lemma FoundFactor(n: nat, m: nat, i: nat, end: nat, result: seq<nat>)
    requires FactorsSoFar(n, m, i, end, result) && Divides(i, m)
    ensures Prime(i) && Divides(i, n)
  {
    forall d | 2 <= d < i
      ensures !Divides(d, i)
    {
      if Divides(d, i) {
        DividesTransitive(d, i, m);
      }
    }
    DividesTransitive(i, m, n);
  }

  /** Dividing a prime factor i out of m keeps every other prime factor. */
  lemma DivideOut(mOuter: nat, m: nat, i: nat)
    requires Prime(i) && 1 <= m && Divides(m, mOuter) && Divides(i, m) && SameFactorsExcept(mOuter, m, i)
    ensures 1 <= m / i < m && Divides(m / i, mOuter) && SameFactorsExcept(mOuter, m / i, i)
  {
    var q := m / i;
    CofactorBounds(m, i);
    CofactorDivides(i, m);
    DividesTransitive(q, m, mOuter);
    SameFactorsCofactor(m, q, i);
    SameFactorsChain(mOuter, m, q, i);
  }

  /** Dividing m >= 1 by a divisor i >= 2 leaves a cofactor in [1, m). */
  lemma CofactorBounds(m: nat, i: nat)
    requires m >= 1 && i >= 2 && Divides(i, m)
    ensures m == i * (m / i) && 1 <= m / i < m
  {
    DivModIdentity(m, i);
    var q := m / i;
    if q <= 0 {
      MulMonotone(i, q, 0);
    } else {
      MulMonotone(q, 2, i);
    }
  }

  /** m = i * q with i prime: m and q have the same prime divisors other than i. */
  lemma SameFactorsCofactor(m: nat, q: nat, i: nat)
    requires Prime(i) && q >= 1 && m == i * q
    ensures SameFactorsExcept(m, q, i)
  {
    forall f | Prime(f) && f != i
      ensures Divides(f, m) <==> Divides(f, q)
    {
      if Divides(f, m) {
        Euclid(f, i, q);
        if Divides(f, i) {
          PrimeDividesPrime(f, i);
        }
      }
      if Divides(f, q) {
        MultipleDivides(q, i);
        DividesTransitive(f, q, m);
      }
    }
  }

  lemma SameFactorsChain(a: nat, b: nat, c: nat, i: nat)
    requires SameFactorsExcept(a, b, i) && SameFactorsExcept(b, c, i)
    ensures SameFactorsExcept(a, c, i)
  {
  }

  /** After dividing the prime i out of m completely, the invariant holds for i + 1 with i
      recorded. */
  lemma FactorTaken(n: nat, m: nat, mNew: nat, i: nat, end: nat, end': nat, result: seq<nat>)
    requires FactorsSoFar(n, m, i, end, result) && Divides(i, m)
    requires 1 <= mNew && Divides(mNew, m) && SameFactorsExcept(m, mNew, i) && !Divides(i, mNew)
    requires end' == FloorSqrt(mNew)
    ensures FactorsSoFar(n, mNew, i + 1, end', result + [i])
  {
    FoundFactor(n, m, i, end, result);
    DividesTransitive(mNew, m, n);
    AscendingAppend(result, i);
    forall d | 2 <= d < i + 1
      ensures !Divides(d, mNew)
    {
      if d < i && Divides(d, mNew) {
        DividesTransitive(d, mNew, m);
      }
    }
    forall p | Prime(p) && p >= i + 1
      ensures Divides(p, n) <==> Divides(p, mNew)
    {
    }
    var result' := result + [i];
    forall p
      ensures p in result' <==> Prime(p) && p < i + 1 && Divides(p, n)
    {
      assert p in result' <==> p in result || p == i;
    }
  }

  /** When i does not divide m, the invariant holds for i + 1 as it is. */
  lemma FactorSkipped(n: nat, m: nat, i: nat, end: nat, result: seq<nat>)
    requires FactorsSoFar(n, m, i, end, result) && !Divides(i, m)
    ensures FactorsSoFar(n, m, i + 1, end, result)
  {
  }

  /** Once i passes the square root of m, m is 1 or the last prime factor. */
  lemma FactorsDone(n: nat, m: nat, i: nat, end: nat, result: seq<nat>)
    requires FactorsSoFar(n, m, i, end, result) && i > end
    ensures m > 1 ==> Prime(m) && m >= i
    ensures var factors := if m > 1 then result + [m] else result;
            Ascending(factors) && forall p :: p in factors <==> Prime(p) && Divides(p, n)
  {
    if m > 1 {
      NoSmallDivisorPrime(m);
      MultipleDivides(m, 1);
      AscendingAppend(result, m);
      var factors := result + [m];
      forall p
        ensures p in factors <==> Prime(p) && Divides(p, n)
      {
        assert p in factors <==> p in result || p == m;
        if Prime(p) && p >= i && Divides(p, m) {
          PrimeDividesPrime(p, m);
        }
      }
    } else {
      forall p | Prime(p) && p >= i
        ensures !Divides(p, n)
      {
      }
    }
  }

  /** unique_prime_factors: the distinct prime factors of n in ascending order, found by trial
      division; n < 1 is an error. */
  method UniquePrimeFactors(n: int) returns (r: Result<seq<nat>>)
    ensures r.Err? <==> n < 1
    ensures r.Ok? ==> Ascending(r.value) && forall p :: p in r.value <==> Prime(p) && Divides(p, n)
  {
    if n < 1 {
      return Err(OutOfRange);
    }
    var result: seq<nat> := [];
    var m: nat := n;
    var i: nat := 2;
    var root := Sqrt(m);
    var end := root.value;
    MultipleDivides(m, 1);
    while i <= end
      invariant FactorsSoFar(n, m, i, end, result)
      decreases n + 1 - i
    {
      DivisorAtMost(m, n);
      if m % i == 0 {
        FoundFactor(n, m, i, end, result);
        ghost var mOuter := m;
        ghost var before := result;
        DivideOut(mOuter, m, i);
        m := m / i;
        result := result + [i];
        while m % i == 0
          invariant 1 <= m && Divides(m, mOuter) && SameFactorsExcept(mOuter, m, i)
          decreases m
        {
          DivideOut(mOuter, m, i);
          m := m / i;
        }
        ghost var previousEnd := end;
        root := Sqrt(m);
        end := root.value;
        FactorTaken(n, mOuter, m, i, previousEnd, end, before);
      } else {
        FactorSkipped(n, m, i, end, result);
      }
      i := i + 1;
    }
    FactorsDone(n, m, i, end, result);
    if m > 1 {
      result := result + [m];
    }
    return Ok(result);
  }

  // ---- Powers modulo mod ----

  function Pow(b: int, e: nat): int
  {
    if e == 0 then 1 else b * Pow(b, e - 1)
  }

  /** Python's three-argument pow(b, e, mod), for a positive modulus. */
  function PowMod(b: int, e: nat, mod: int): (r: int)
    requires mod > 0
    ensures 0 <= r < mod
  {
    Pow(b, e) % mod
  }

  lemma {:induction false} PowAdd(b: int, x: nat, y: nat)
    ensures Pow(b, x + y) == Pow(b, x) * Pow(b, y)
  {
    if x > 0 {
      PowAdd(b, x - 1, y);
      MulAssoc(b, Pow(b, x - 1), Pow(b, y));
    }
  }

  lemma {:induction false} PowMul(b: int, x: nat, y: nat)
    ensures Pow(b, x * y) == Pow(Pow(b, x), y)
  {
    if y > 0 {
      PowMul(b, x, y - 1);
      assert x * y == x * (y - 1) + x;
      PowAdd(b, x * (y - 1), x);
    }
  }

  lemma {:induction false} PowOne(e: nat)
    ensures Pow(1, e) == 1
  {
    if e > 0 {
      PowOne(e - 1);
    }
  }

  /** The residue of a power depends only on the residue of the base. */
  lemma {:induction false} PowModBase(b: int, e: nat, mod: int)
    requires mod > 0
    ensures Pow(b % mod, e) % mod == Pow(b, e) % mod
  {
    if e > 0 {
      var x, y, z := b % mod, Pow(b % mod, e - 1), Pow(b, e - 1);
      PowModBase(b, e - 1, mod);
      DivModUnique(x, mod, 0, x);
      MulModCongruent(y, z, x, mod);
      MulModCongruent(x, b, z, mod);
      assert Pow(b % mod, e) == x * y && Pow(b, e) == b * z;
      assert x * y == y * x && z * x == x * z;
    }
  }

  /** If b^o = 1 then b^(o*q) = 1. */
  lemma PowMultipleOfOne(b: int, o: nat, q: nat, mod: int)
    requires mod > 0 && PowMod(b, o, mod) == 1
    ensures PowMod(b, o * q, mod) == 1
  {
    var c := Pow(b, o);
    PowMul(b, o, q);
    PowModBase(c, q, mod);
    assert c % mod == 1;
    PowOne(q);
    DivModUnique(1, mod, 0, 1);
  }

  /** If b^x = 1 then b^(x+y) = b^y. */
  lemma PowShift(b: int, x: nat, y: nat, mod: int)
    requires mod > 0 && PowMod(b, x, mod) == 1
    ensures PowMod(b, x + y, mod) == PowMod(b, y, mod)
  {
    PowAdd(b, x, y);
    DivModUnique(1, mod, 0, 1);
    MulModCongruent(Pow(b, x), 1, Pow(b, y), mod);
  }

  // ---- is_primitive_root ----

  /** val has multiplicative order exactly degree modulo mod: val^degree = 1 and no smaller
      positive power of val is 1. */
  ghost predicate OrderIs(val: int, degree: nat, mod: int)
    requires mod > 0
  {
    degree >= 1 && PowMod(val, degree, mod) == 1
    && forall k: nat :: 1 <= k < degree ==> PowMod(val, k, mod) != 1
  }

  /** The test that is_primitive_root performs: val^degree = 1 and val^(degree/p) != 1 for
      every prime p dividing degree. */
  ghost predicate PrimitiveRoot(val: int, degree: nat, mod: int)
    requires mod > 0
  {
    PowMod(val, degree, mod) == 1
    && forall p :: Prime(p) && Divides(p, degree) ==> PowMod(val, degree / p, mod) != 1
  }

  /** Every n >= 2 has a prime factor. */
  lemma {:induction false} PrimeFactorOf(n: int) returns (p: int)
    requires n >= 2
    ensures Prime(p) && Divides(p, n)
    decreases n
  {
    if Prime(n) {
      p := n;
      MultipleDivides(n, 1);
    } else {
      var d :| 2 <= d < n && Divides(d, n);
      p := PrimeFactorOf(d);
      DividesTransitive(p, d, n);
    }
  }

  /** The least positive exponent at most k that takes val to 1. */
  lemma {:induction false} LeastExponent(val: int, k: nat, mod: int) returns (o: nat)
    requires mod > 0 && k >= 1 && PowMod(val, k, mod) == 1
    ensures 1 <= o <= k && PowMod(val, o, mod) == 1
    ensures forall j: nat :: 1 <= j < o ==> PowMod(val, j, mod) != 1
    decreases k
  {
    if exists j: nat :: 1 <= j < k && PowMod(val, j, mod) == 1 {
      var j: nat :| 1 <= j < k && PowMod(val, j, mod) == 1;
      o := LeastExponent(val, j, mod);
    } else {
      o := k;
    }
  }

  /** The least exponent o taking val to 1 divides every exponent taking val to 1. */
  lemma OrderDivides(val: int, o: nat, e: nat, mod: int)
    requires mod > 0 && o >= 1 && PowMod(val, o, mod) == 1
    requires forall j: nat :: 1 <= j < o ==> PowMod(val, j, mod) != 1
    requires PowMod(val, e, mod) == 1
    ensures Divides(o, e)
  {
    var q, r := e / o, e % o;
    DivModIdentity(e, o);
    assert e == o * q + r;
    PowMultipleOfOne(val, o, q, mod);
    PowShift(val, o * q, r, mod);
  }

  /** The test of is_primitive_root holds exactly when val has order degree. */
  lemma PrimitiveRootIsOrder(val: int, degree: nat, mod: int)
    requires mod > 0 && degree >= 1
    ensures PrimitiveRoot(val, degree, mod) <==> OrderIs(val, degree, mod)
  {
    if OrderIs(val, degree, mod) {
      forall p | Prime(p) && Divides(p, degree)
        ensures PowMod(val, degree / p, mod) != 1
      {
        CofactorDivides(p, degree);
        CofactorBounds(degree, p);
      }
    }
    if PrimitiveRoot(val, degree, mod) && !OrderIs(val, degree, mod) {
      var k: nat :| 1 <= k < degree && PowMod(val, k, mod) == 1;
      var o := LeastExponent(val, k, mod);
      OrderDivides(val, o, degree, mod);
      CofactorDivides(o, degree);
      var q := degree / o;
      assert q >= 2 by {
        if q <= 1 {
          MulMonotone(o, q, 1);
        }
      }
      var p := PrimeFactorOf(q);
      CofactorDivides(p, q);
      var c := q / p;
      assert degree == p * (o * c) by {
        MulAssoc(o, p, c);
        MulAssoc(p, o, c);
      }
      DivModUnique(degree, p, o * c, 0);
      MultipleDivides(o, q);
      DividesTransitive(p, q, degree);
      PowMultipleOfOne(val, o, c, mod);
      assert false;
    }
  }

  /** is_primitive_root: val must lie in [0, mod) and degree in [1, mod). The answer is the
      test on the distinct prime factors of degree, which holds exactly when val has order
      degree modulo mod. */
  method IsPrimitiveRoot(val: int, degree: int, mod: int) returns (r: Result<bool>)
    ensures r.Err? <==> !(0 <= val < mod) || !(1 <= degree < mod)
    ensures r.Ok? ==> (r.value <==> PrimitiveRoot(val, degree, mod))
    ensures r.Ok? ==> (r.value <==> OrderIs(val, degree, mod))
  {
    if !(0 <= val < mod) {
      return Err(OutOfRange);
    }
    if !(1 <= degree < mod) {
      return Err(OutOfRange);
    }
    var factors := UniquePrimeFactors(degree);
    var pf := factors.value;
    var result := PowMod(val, degree, mod) == 1 && forall p :: p in pf ==> PowMod(val, degree / p, mod) != 1;
    PrimitiveRootIsOrder(val, degree, mod);
    return Ok(result);
  }

  /** find_generator: the least i in [1, mod) that has order totient modulo mod. */
  method FindGenerator(totient: int, mod: int) returns (r: Result<int>)
    ensures r.Err? <==> !(1 <= totient < mod) || forall g :: 1 <= g < mod ==> !PrimitiveRoot(g, totient, mod)
    ensures r.Ok? ==> 1 <= r.value < mod && OrderIs(r.value, totient, mod)
    ensures r.Ok? ==> forall g :: 1 <= g < r.value ==> !PrimitiveRoot(g, totient, mod)
  {
    if !(1 <= totient < mod) {
      return Err(OutOfRange);
    }
    for i := 1 to mod
      invariant forall g :: 1 <= g < i ==> !PrimitiveRoot(g, totient, mod)
    {
      var test := IsPrimitiveRoot(i, totient, mod);
      if test.value {
        return Ok(i);
      }
    }
    return Err(NotFound);
  }

  /** A power gen^e of an element of order degree * e has order degree. */
  lemma PowerOrder(gen: int, e: nat, degree: nat, totient: nat, mod: int)
    requires mod > 0 && degree >= 1 && totient == degree * e && OrderIs(gen, totient, mod)
    ensures OrderIs(PowMod(gen, e, mod), degree, mod)
  {
    var root := PowMod(gen, e, mod);
    forall k: nat | 1 <= k <= degree
      ensures PowMod(root, k, mod) == PowMod(gen, e * k, mod)
    {
      PowModBase(Pow(gen, e), k, mod);
      PowMul(gen, e, k);
    }
    assert e * degree == totient;
    forall k: nat | 1 <= k < degree
      ensures PowMod(root, k, mod) != 1
    {
      assert e >= 1;
      MulMonotone(e, k, degree - 1);
      MulMonotone(e, 1, k);
      assert 1 <= e * k < totient;
    }
  }

  /** find_primitive_root: 1 <= degree <= totient < mod and degree | totient are required; the
      answer is generator^(totient/degree) for the least generator, a primitive degree-th root
      of unity. */
  method FindPrimitiveRoot(degree: int, totient: int, mod: int) returns (r: Result<int>)
    ensures r.Err? <==> !(1 <= degree <= totient < mod) || totient % degree != 0
                        || forall g :: 1 <= g < mod ==> !PrimitiveRoot(g, totient, mod)
    ensures r.Ok? ==> 0 <= r.value < mod && OrderIs(r.value, degree, mod) && PrimitiveRoot(r.value, degree, mod)
  {
    if !(1 <= degree <= totient < mod) {
      return Err(OutOfRange);
    }
    if totient % degree != 0 {
      return Err(OutOfRange);
    }
    var generator := FindGenerator(totient, mod);
    if generator.Err? {
      return Err(generator.error);
    }
    var gen := generator.value;
    var root := PowMod(gen, totient / degree, mod);
    DivModIdentity(totient, degree);
    PowerOrder(gen, totient / degree, degree, totient, mod);
    PrimitiveRootIsOrder(root, degree, mod);
    return Ok(root);
  }

  // ---- find_modulus ----

  /** The i-th candidate modulus for vectors of length veclen. */
  function Candidate(veclen: nat, i: nat): nat
  {
    i * veclen + 1
  }

  lemma CandidateMonotone(veclen: nat, i: nat, j: nat)
    requires veclen >= 1
    ensures i < j <==> Candidate(veclen, i) < Candidate(veclen, j)
  {
    if i < j {
      MulMonotone(veclen, i + 1, j);
    } else {
      MulMonotone(veclen, j, i);
    }
  }

  /** The first multiplier find_modulus tries. */
  function FirstMultiplier(veclen: nat, minimum: nat): nat
    requires veclen >= 1 && minimum >= 1
  {
    var start := (minimum - 1 + veclen - 1) / veclen;
    if start > 1 then start else 1
  }

  /** The first multiplier tried: ceil((minimum - 1) / veclen), at least 1. Its candidate is at
      least minimum and the candidate before it is below minimum. */
  lemma StartBounds(veclen: nat, minimum: nat, start: nat, first: nat)
    requires veclen >= 1 && minimum >= 1 && start == (minimum - 1 + veclen - 1) / veclen
    requires first == if start > 1 then start else 1
    ensures Candidate(veclen, first) >= minimum
    ensures forall j: nat :: 1 <= j < first ==> Candidate(veclen, j) < minimum
  {
    DivModIdentity(minimum - 1 + veclen - 1, veclen);
    assert veclen * start >= minimum - 1;
    MulMonotone(veclen, start, first);
    assert first * veclen == veclen * first;
    forall j: nat | 1 <= j < first
      ensures Candidate(veclen, j) < minimum
    {
      MulMonotone(veclen, j, start - 1);
      MulSucc(start - 1, veclen);
      assert j * veclen == veclen * j && (start - 1) * veclen == veclen * (start - 1);
    }
  }

  /** find_modulus: the least prime of the form i * veclen + 1 with i >= 1 that is at least
      minimum; veclen < 1 or minimum < 1 is an error. The search tries limit multipliers. */
  method FindModulus(veclen: int, minimum: int, limit: nat) returns (r: Result<int>)
    ensures (veclen < 1 || minimum < 1) <==> r == Err(OutOfRange)
    ensures r == Err(NotFound) ==>
              (veclen >= 1 && minimum >= 1
               && forall j: nat :: 1 <= j < FirstMultiplier(veclen, minimum) + limit && minimum <= Candidate(veclen, j)
                                   ==> !Prime(Candidate(veclen, j)))
    ensures r.Err? ==> r.error in {OutOfRange, NotFound}
    ensures r.Ok? ==> Prime(r.value) && r.value >= minimum && r.value > veclen >= 1 && Divides(veclen, r.value - 1)
    ensures r.Ok? ==> forall j: nat :: 1 <= j && minimum <= Candidate(veclen, j) < r.value ==> !Prime(Candidate(veclen, j))
  {
    if veclen < 1 || minimum < 1 {
      return Err(OutOfRange);
    }
    var start := (minimum - 1 + veclen - 1) / veclen;
    var first: nat := if start > 1 then start else 1;
    StartBounds(veclen, minimum, start, first);
    assert first == FirstMultiplier(veclen, minimum);
    for i := first to first + limit
      invariant forall j: nat :: 1 <= j < i && minimum <= Candidate(veclen, j) ==> !Prime(Candidate(veclen, j))
    {
      var n := i * veclen + 1;
      CandidateMonotone(veclen, first, i);
      assert n >= minimum;
      if IsPrime(n).value {
        MulMonotone(veclen, 1, i);
        MultipleDivides(veclen, i);
        forall j: nat | 1 <= j && minimum <= Candidate(veclen, j) < n
          ensures !Prime(Candidate(veclen, j))
        {
          CandidateMonotone(veclen, j, i);
        }
        return Ok(n);
      }
    }
    return Err(NotFound);
  }

  // ---- transform (the quadratic integer transform) ----

  /** The first k terms of entry i of the transform: the sum of a[j] * root^(i*j) for j < k. */
  function DftSum(a: seq<int>, root: int, i: nat, k: nat): int
    requires k <= |a|
  {
    if k == 0 then 0 else DftSum(a, root, i, k - 1) + a[k - 1] * Pow(root, i * (k - 1))
  }

  /** The number-theoretic transform of a: entry i is the sum of a[j] * root^(i*j), mod mod. */
  function Dft(a: seq<int>, root: int, mod: int): (r: seq<int>)
    requires mod > 0
    ensures |r| == |a| && forall i :: 0 <= i < |r| ==> 0 <= r[i] < mod
  {
    seq(|a|, i requires 0 <= i < |a| => DftSum(a, root, i, |a|) % mod)
  }

  /** The accepted inputs of transform: fewer values than mod, each in [0, mod), and a root in
      [1, mod). */
  predicate TransformArguments(invec: seq<int>, root: int, mod: int)
  {
    |invec| < mod && (forall v :: v in invec ==> 0 <= v < mod) && 1 <= root < mod
  }

  /** Adding one term with the power reduced mod mod keeps the running residue. */
  lemma DftStep(a: seq<int>, root: int, i: nat, j: nat, temp: int, mod: int)
    requires j < |a| && mod > 0 && temp == DftSum(a, root, i, j) % mod
    ensures (temp + a[j] * PowMod(root, i * j, mod)) % mod == DftSum(a, root, i, j + 1) % mod
  {
    var x, p, sum := a[j], Pow(root, i * j), DftSum(a, root, i, j);
    assert DftSum(a, root, i, j + 1) == sum + x * p by {
      assert (j + 1) - 1 == j;
    }
    ResidueFactor(x, p, mod);
    ResidueSum(temp, sum, x * (p % mod), x * p, mod);
  }

  /** Reducing a factor first does not change the residue of a product. */
  lemma ResidueFactor(x: int, p: int, mod: int)
    requires mod > 0
    ensures (x * (p % mod)) % mod == (x * p) % mod
  {
    DivModUnique(p % mod, mod, 0, p % mod);
    MulModCongruent(p % mod, p, x, mod);
    assert x * (p % mod) == (p % mod) * x && x * p == p * x;
  }

  /** Congruent summands give congruent sums. */
  lemma ResidueSum(temp: int, sum: int, u: int, v: int, mod: int)
    requires mod > 0 && temp == sum % mod && u % mod == v % mod
    ensures (temp + u) % mod == (sum + v) % mod
  {
    DivModUnique(sum % mod, mod, 0, sum % mod);
    AddModCongruent(temp, sum, u, mod);
    AddModCongruent(u, v, sum, mod);
    assert u + sum == sum + u && v + sum == sum + v;
  }

  /** transform: entry i is accumulated term by term, reducing after each term; the arguments
      are checked first. */
  method Transform(invec: seq<int>, root: int, mod: int) returns (r: Result<seq<int>>)
    ensures r.Err? <==> !TransformArguments(invec, root, mod)
    ensures r.Ok? ==> r.value == Dft(invec, root, mod)
  {
    if |invec| >= mod {
      return Err(OutOfRange);
    }
    if !(forall v :: v in invec ==> 0 <= v < mod) {
      return Err(OutOfRange);
    }
    if !(1 <= root < mod) {
      return Err(OutOfRange);
    }
    var outvec: seq<int> := [];
    for i := 0 to |invec|
      invariant outvec == Dft(invec, root, mod)[..i]
    {
      var temp := 0;
      for j := 0 to |invec|
        invariant temp == DftSum(invec, root, i, j) % mod
      {
        DftStep(invec, root, i, j, temp, mod);
        temp := temp + invec[j] * PowMod(root, i * j, mod);
        temp := temp % mod;
      }
      outvec := outvec + [temp];
    }
    return Ok(outvec);
  }

  /** The transform is additive: transforming a sum gives the sum of the transforms. */
  lemma {:induction false} DftSumAdditive(a: seq<int>, b: seq<int>, c: seq<int>, root: int, i: nat, k: nat)
    requires |a| == |b| == |c| && k <= |a| && forall j :: 0 <= j < |c| ==> c[j] == a[j] + b[j]
    ensures DftSum(c, root, i, k) == DftSum(a, root, i, k) + DftSum(b, root, i, k)
  {
    if k > 0 {
      DftSumAdditive(a, b, c, root, i, k - 1);
      var p := Pow(root, i * (k - 1));
      assert c[k - 1] * p == a[k - 1] * p + b[k - 1] * p;
    }
  }

  lemma DftAdditive(a: seq<int>, b: seq<int>, c: seq<int>, root: int, mod: int)
    requires mod > 0 && |a| == |b| == |c| && forall j :: 0 <= j < |c| ==> c[j] == a[j] + b[j]
    ensures forall i :: 0 <= i < |c| ==> Dft(c, root, mod)[i] == (Dft(a, root, mod)[i] + Dft(b, root, mod)[i]) % mod
  {
    forall i | 0 <= i < |c|
      ensures Dft(c, root, mod)[i] == (Dft(a, root, mod)[i] + Dft(b, root, mod)[i]) % mod
    {
      DftSumAdditive(a, b, c, root, i, |c|);
      AddMod(DftSum(a, root, i, |c|), DftSum(b, root, i, |c|), mod);
    }
  }

  /** Entry 0 of the transform is the sum of the vector. */
  lemma {:induction false} DftSumAtZero(a: seq<int>, root: int, k: nat)
    requires k <= |a|
    ensures DftSum(a, root, 0, k) == Sum(a[..k])
  {
    if k > 0 {
      DftSumAtZero(a, root, k - 1);
      assert a[..k] == a[..k - 1] + [a[k - 1]];
      SumSnoc(a[..k - 1], a[k - 1]);
    }
  }

  function Sum(s: seq<int>): int
  {
    if s == [] then 0 else s[0] + Sum(s[1..])
  }

  lemma {:induction false} SumSnoc(s: seq<int>, x: int)
    ensures Sum(s + [x]) == Sum(s) + x
  {
    if s != [] {
      assert (s + [x])[1..] == s[1..] + [x];
      SumSnoc(s[1..], x);
    }
  }

  lemma DftAtZero(a: seq<int>, root: int, mod: int)
    requires mod > 0 && |a| > 0
    ensures Dft(a, root, mod)[0] == Sum(a) % mod
  {
    DftSumAtZero(a, root, |a|);
    assert a[..|a|] == a;
  }

  // ---- transform_radix_2 ----

  /** Python's int.bit_length, for n >= 0. */
  function BitLength(n: nat): (r: nat)
    ensures n == 0 <==> r == 0
    ensures n > 0 ==> Pow2(r - 1) <= n < Pow2(r)
  {
    if n == 0 then 0 else 1 + BitLength(n / 2)
  }

  ghost predicate IsPowerOfTwo(n: nat)
  {
    exists k: nat :: Pow2(k) == n
  }

  /** transform_radix_2's test 1 << (bit_length(n) - 1) == n holds exactly for powers of two. */
  lemma PowerOfTwoBitLength(n: nat)
    ensures IsPowerOfTwo(n) <==> n > 0 && Pow2(BitLength(n) - 1) == n
  {
    if IsPowerOfTwo(n) {
      var k: nat :| Pow2(k) == n;
      var r := BitLength(n);
      if k >= r {
        Pow2Monotone(r, k);
      } else if k + 1 < r {
        Pow2Monotone(k + 1, r - 1);
      }
    }
  }

  /** The low `bits` bits of x in reverse order. */
  function ReversedBits(x: nat, bits: nat): (r: nat)
    ensures r < Pow2(bits)
  {
    if bits == 0 then 0 else (x % 2) * Pow2(bits - 1) + ReversedBits(x / 2, bits - 1)
  }

  lemma ReverseStep(y: nat, v: nat, b: nat)
    ensures (2 * y + v % 2) * Pow2(b) + ReversedBits(v / 2, b) == y * Pow2(b + 1) + ReversedBits(v, b + 1)
  {
    var c, q := v % 2, Pow2(b);
    assert (2 * y + c) * q == y * (2 * q) + c * q by {
      Distribute(2 * y, c, q);
      MulAssoc(y, 2, q);
    }
  }

  lemma Distribute(x: int, y: int, z: int)
    ensures (x + y) * z == x * z + y * z
  {
  }

  /** The nested reverse of transform_radix_2: shifts the low bit of x into y, bits times. */
  method BitReverse(x: nat, bits: nat) returns (y: nat)
    ensures y == ReversedBits(x, bits)
  {
    y := 0;
    var v := x;
    for i := 0 to bits
      invariant y * Pow2(bits - i) + ReversedBits(v, bits - i) == ReversedBits(x, bits)
    {
      ReverseStep(y, v, bits - (i + 1));
      y := 2 * y + v % 2;
      v := v / 2;
    }
  }

  /** Appending a bit at the top. */
  lemma {:induction false} FromBitsLESnoc(bs: seq<bit>, b: bit)
    ensures FromBitsLE(bs + [b]) == FromBitsLE(bs) + b * Pow2(|bs|)
  {
    if bs != [] {
      assert (bs + [b])[1..] == bs[1..] + [b];
      FromBitsLESnoc(bs[1..], b);
    }
  }

  /** ReversedBits reads the low bits of x and writes them back in the opposite order. */
  lemma {:induction false} ReversedBitsIsReversal(x: nat, bits: nat)
    ensures ReversedBits(x, bits) == FromBitsLE(Reverse(ToBitsLE(x, bits)))
  {
    if bits > 0 {
      ReversedBitsIsReversal(x / 2, bits - 1);
      var rest := ToBitsLE(x / 2, bits - 1);
      assert ToBitsLE(x, bits) == [x % 2] + rest;
      assert Reverse([x % 2] + rest) == Reverse(rest) + [x % 2] by {
        assert ([x % 2] + rest)[1..] == rest;
      }
      FromBitsLESnoc(Reverse(rest), x % 2);
    }
  }

  /** Reversing the bits twice gives back any x below 2^bits. */
  lemma ReversedBitsInvolution(x: nat, bits: nat)
    requires x < Pow2(bits)
    ensures ReversedBits(ReversedBits(x, bits), bits) == x
  {
    var bs := ToBitsLE(x, bits);
    ReversedBitsIsReversal(x, bits);
    ReversedBitsIsReversal(ReversedBits(x, bits), bits);
    ToFromBitsLE(Reverse(bs));
    ReverseInvolution(bs);
    FromToBitsLE(x, bits);
    DivModUnique(x, Pow2(bits), 0, x);
  }

  /** The vector with each position k taking the value at the bit reversal of k. */
  function BitReversed(a: seq<int>, levels: nat): (r: seq<int>)
    requires |a| == Pow2(levels)
    ensures |r| == |a|
  {
    seq(|a|, k requires 0 <= k < |a| => a[ReversedBits(k, levels)])
  }

  /** The bit-reversal permutation undoes itself. */
  lemma BitReversedInvolution(a: seq<int>, levels: nat)
    requires |a| == Pow2(levels)
    ensures BitReversed(BitReversed(a, levels), levels) == a
  {
    forall k | 0 <= k < |a|
      ensures BitReversed(BitReversed(a, levels), levels)[k] == a[k]
    {
      ReversedBitsInvolution(k, levels);
    }
  }

  /** Where the value at position k comes from once positions below i have been processed by
      the swapping loop. */
  function SwapSource(i: nat, k: nat, levels: nat): nat
  {
    var j := ReversedBits(k, levels);
    if k < i || j < i then j else k
  }

  /** The first loop of transform_radix_2: each i is swapped with its bit reversal j when j > i. */
  method BitReversePermute(vector: array<int>, levels: nat)
    requires vector.Length == Pow2(levels)
    modifies vector
    ensures vector[..] == BitReversed(old(vector[..]), levels)
  {
    ghost var original := vector[..];
    for i := 0 to vector.Length
      invariant forall k :: 0 <= k < vector.Length ==> vector[k] == original[SwapSource(i, k, levels)]
    {
      var j := BitReverse(i, levels);
      ReversedBitsInvolution(i, levels);
      if j > i {
        vector[i], vector[j] := vector[j], vector[i];
      }
      forall k | 0 <= k < vector.Length && k != i && k != j
        ensures SwapSource(i + 1, k, levels) == SwapSource(i, k, levels)
      {
        if ReversedBits(k, levels) == i {
          ReversedBitsInvolution(k, levels);
        }
      }
    }
  }

  /** The table of powers of root that transform_radix_2 builds: 1, then root^k mod mod. */
  function TwiddleTable(root: int, mod: int, count: nat): (r: seq<int>)
    requires mod > 0
    ensures |r| == count
  {
    seq(count, k requires 0 <= k < count => if k == 0 then 1 else PowMod(root, k, mod))
  }

  lemma PowModStep(root: int, i: nat, mod: int)
    requires mod > 0
    ensures (PowMod(root, i, mod) * root) % mod == PowMod(root, i + 1, mod)
  {
    var p := Pow(root, i);
    DivModUnique(p % mod, mod, 0, p % mod);
    MulModCongruent(p % mod, p, root, mod);
    assert Pow(root, i + 1) == p * root;
  }

  /** The power table loop: temp runs through root^k mod mod. */
  method PowTable(root: int, mod: int, count: nat) returns (table: seq<int>)
    requires mod > 0
    ensures table == TwiddleTable(root, mod, count)
  {
    table := [];
    var temp := 1;
    for i := 0 to count
      invariant table == TwiddleTable(root, mod, i)
      invariant temp == if i == 0 then 1 else PowMod(root, i, mod)
    {
      table := table + [temp];
      if i == 0 {
        assert Pow(root, 1) == root;
      } else {
        PowModStep(root, i, mod);
      }
      temp := temp * root % mod;
    }
  }

  /** The butterfly on positions j and j + half with twiddle factor w. */
  function Butterfly(a: seq<int>, j: nat, half: nat, w: int, mod: int): (r: seq<int>)
    requires 0 < half && j + half < |a| && mod > 0
    ensures |r| == |a|
  {
    var left, right := a[j], a[j + half] * w;
    a[j := (left + right) % mod][j + half := (left - right) % mod]
  }

  lemma TwiddleIndex(t: nat, half: nat, step: nat)
    requires t < half && step > 0
    ensures t * step + step <= half * step
  {
    MulMonotone(step, t + 1, half);
  }

  /** The twiddle factors a block reads exist. */
  predicate BlockShape(a: seq<int>, table: seq<int>, start: nat, half: nat, step: nat, mod: int)
  {
    0 < half && 0 < step && start + 2 * half <= |a| && half * step <= |table| && mod > 0
  }

  /** Butterflies j, j + 1, ..., start + half - 1 of the block at start; butterfly j uses the
      twiddle factor table[(j - start) * step]. */
  function Block(a: seq<int>, table: seq<int>, start: nat, j: nat, half: nat, step: nat, mod: int): (r: seq<int>)
    requires BlockShape(a, table, start, half, step, mod) && start <= j <= start + half
    ensures |r| == |a|
    decreases start + half - j
  {
    if j == start + half then a
    else
      TwiddleIndex(j - start, half, step);
      Block(Butterfly(a, j, half, table[(j - start) * step], mod), table, start, j + 1, half, step, mod)
  }

  /** The value a stage leaves at position p of the block [start, start + 2 * half). */
  function ButterflyValue(a: seq<int>, table: seq<int>, start: nat, p: nat, half: nat, step: nat, mod: int): (r: int)
    requires BlockShape(a, table, start, half, step, mod) && start <= p < start + 2 * half
    ensures 0 <= r < mod
  {
    if p < start + half then
      TwiddleIndex(p - start, half, step);
      (a[p] + a[p + half] * table[(p - start) * step]) % mod
    else
      TwiddleIndex(p - half - start, half, step);
      (a[p - half] - a[p] * table[(p - half - start) * step]) % mod
  }

  /** Butterflies j .. start + half - 1 set the positions they reach, j .. start + half - 1 and
      j + half .. start + 2 * half - 1, to their butterfly values and leave every other position
      alone. */
  lemma {:induction false} BlockEffect(a: seq<int>, table: seq<int>, start: nat, j: nat, half: nat, step: nat, mod: int)
    requires BlockShape(a, table, start, half, step, mod) && start <= j <= start + half
    ensures var r := Block(a, table, start, j, half, step, mod);
            forall p :: 0 <= p < |a| ==>
              r[p] == if j <= p < start + half || j + half <= p < start + 2 * half
                      then ButterflyValue(a, table, start, p, half, step, mod) else a[p]
    decreases start + half - j
  {
    if j < start + half {
      TwiddleIndex(j - start, half, step);
      var b := Butterfly(a, j, half, table[(j - start) * step], mod);
      BlockEffect(b, table, start, j + 1, half, step, mod);
      forall p | j + 1 <= p < start + half || j + 1 + half <= p < start + 2 * half
        ensures ButterflyValue(b, table, start, p, half, step, mod) == ButterflyValue(a, table, start, p, half, step, mod)
      {
      }
    }
  }

  /** The blocks of one stage from position start on: blocks of 2 * half positions whose
      butterflies step through the twiddle table by step. */
  function StageFrom(a: seq<int>, table: seq<int>, start: nat, half: nat, step: nat, mod: int): (r: seq<int>)
    requires 0 < half && 0 < step && half * step <= |table| && mod > 0
    ensures |r| == |a|
    decreases |a| - start
  {
    if start + 2 * half > |a| then a
    else StageFrom(Block(a, table, start, start, half, step, mod), table, start + 2 * half, half, step, mod)
  }

  /** Stage s works on blocks of 2^s positions, with twiddle step 2^(levels - s). */
  lemma StageGeometry(levels: nat, s: nat)
    requires 1 <= s <= levels
    ensures Pow2(s) == 2 * Pow2(s - 1)
    ensures Pow2(s - 1) * Pow2(levels - s) == Pow2(levels - 1)
    ensures Pow2(s) * Pow2(levels - s) == Pow2(levels)
  {
    Pow2Add(s - 1, levels - s);
    Pow2Add(s, levels - s);
  }

  /** The stages s, s + 1, ..., levels of a vector of length 2^levels. */
  function Stages(a: seq<int>, table: seq<int>, levels: nat, s: nat, mod: int): (r: seq<int>)
    requires 1 <= s && |a| == Pow2(levels) && mod > 0 && (levels >= 1 ==> |table| == Pow2(levels - 1))
    ensures |r| == |a|
    decreases levels + 1 - s
  {
    if s > levels then a
    else
      StageGeometry(levels, s);
      Stages(StageFrom(a, table, 0, Pow2(s - 1), Pow2(levels - s), mod), table, levels, s + 1, mod)
  }

  /** What transform_radix_2 leaves in a vector of length 2^levels: the bit-reversal
      permutation followed by the stages of butterflies with the powers of root. */
  function Radix2(a: seq<int>, root: int, mod: int): (r: seq<int>)
    requires IsPowerOfTwo(|a|) && mod > 0
    ensures |r| == |a|
  {
    PowerOfTwoBitLength(|a|);
    var levels: nat := BitLength(|a|) - 1;
    Stages(BitReversed(a, levels), TwiddleTable(root, mod, |a| / 2), levels, 1, mod)
  }

  /** The blocks of a stage from start on leave the positions before start alone and put a
      residue in [0, mod) at every position from start on. */
  lemma {:induction false} StageInRange(a: seq<int>, table: seq<int>, start: nat, half: nat, step: nat, mod: int,
                                        blocks: nat)
    requires 0 < half && 0 < step && half * step <= |table| && mod > 0
    requires |a| == start + blocks * (2 * half)
    ensures var r := StageFrom(a, table, start, half, step, mod);
            (forall p :: 0 <= p < start ==> r[p] == a[p]) && forall p :: start <= p < |a| ==> 0 <= r[p] < mod
    decreases blocks
  {
    if blocks > 0 {
      MulSucc(blocks - 1, 2 * half);
      var b := Block(a, table, start, start, half, step, mod);
      BlockEffect(a, table, start, start, half, step, mod);
      StageInRange(b, table, start + 2 * half, half, step, mod, blocks - 1);
    }
  }

  /** From stage s on, every position ends up holding a residue in [0, mod). */
  lemma {:induction false} StagesInRange(a: seq<int>, table: seq<int>, levels: nat, s: nat, mod: int)
    requires 1 <= s <= levels && |a| == Pow2(levels) && mod > 0 && |table| == Pow2(levels - 1)
    ensures forall p :: 0 <= p < |a| ==> 0 <= Stages(a, table, levels, s, mod)[p] < mod
    decreases levels + 1 - s
  {
    var half, step := Pow2(s - 1), Pow2(levels - s);
    StageGeometry(levels, s);
    assert |a| == step * (2 * half);
    var b := StageFrom(a, table, 0, half, step, mod);
    StagesStep(a, table, levels, s, mod);
    StageInRange(a, table, 0, half, step, mod, step);
    if s < levels {
      StagesInRange(b, table, levels, s + 1, mod);
    } else {
      assert Stages(b, table, levels, s + 1, mod) == b;
    }
  }

  /** Running stage s and then the stages after it is running the stages from s. */
  lemma StagesStep(a: seq<int>, table: seq<int>, levels: nat, s: nat, mod: int)
    requires 1 <= s <= levels && |a| == Pow2(levels) && mod > 0 && |table| == Pow2(levels - 1)
    ensures Pow2(s - 1) * Pow2(levels - s) == |table|
    ensures Stages(a, table, levels, s, mod)
            == Stages(StageFrom(a, table, 0, Pow2(s - 1), Pow2(levels - s), mod), table, levels, s + 1, mod)
  {
    StageGeometry(levels, s);
  }

  /** transform_radix_2 leaves every entry of a vector of length 2 or more in [0, mod); a
      vector of length 1 is left as it is. */
  lemma Radix2InRange(a: seq<int>, root: int, mod: int)
    requires IsPowerOfTwo(|a|) && mod > 0
    ensures |a| >= 2 ==> forall p :: 0 <= p < |a| ==> 0 <= Radix2(a, root, mod)[p] < mod
    ensures |a| == 1 ==> Radix2(a, root, mod) == a
  {
    PowerOfTwoBitLength(|a|);
    var levels: nat := BitLength(|a|) - 1;
    if levels >= 1 {
      StagesInRange(BitReversed(a, levels), TwiddleTable(root, mod, |a| / 2), levels, 1, mod);
    } else {
      assert BitReversed(a, levels) == a;
    }
  }

  /** The innermost loop of transform_radix_2: the butterflies of the block at start. */
  method ButterflyBlock(vector: array<int>, table: seq<int>, start: nat, halfsize: nat, tablestep: nat, mod: int)
    requires BlockShape(vector[..], table, start, halfsize, tablestep, mod)
    modifies vector
    ensures vector[..] == Block(old(vector[..]), table, start, start, halfsize, tablestep, mod)
  {
    ghost var out := Block(vector[..], table, start, start, halfsize, tablestep, mod);
    var k := 0;
    for j := start to start + halfsize
      invariant k == (j - start) * tablestep
      invariant Block(vector[..], table, start, j, halfsize, tablestep, mod) == out
    {
      TwiddleIndex(j - start, halfsize, tablestep);
      ghost var before := vector[..];
      var l := j + halfsize;
      var left := vector[j];
      var right := vector[l] * table[k];
      vector[j] := (left + right) % mod;
      vector[l] := (left - right) % mod;
      assert vector[..] == Butterfly(before, j, halfsize, table[k], mod);
      MulSucc(j - start, tablestep);
      k := k + tablestep;
    }
  }

  /** The middle loop of transform_radix_2: the blocks of size positions of one stage. */
  method ButterflyStage(vector: array<int>, table: seq<int>, size: nat, halfsize: nat, tablestep: nat, mod: int)
    requires 0 < halfsize && size == 2 * halfsize && 0 < tablestep && halfsize * tablestep <= |table| && mod > 0
    requires vector.Length == tablestep * size
    modifies vector
    ensures vector[..] == StageFrom(old(vector[..]), table, 0, halfsize, tablestep, mod)
  {
    ghost var out := StageFrom(vector[..], table, 0, halfsize, tablestep, mod);
    var i := 0;
    ghost var b: nat := 0;
    while i < vector.Length
      invariant i == b * size && b <= tablestep
      invariant StageFrom(vector[..], table, i, halfsize, tablestep, mod) == out
      decreases vector.Length - i
    {
      if b >= tablestep {
        MulMonotone(size, tablestep, b);
      }
      MulSucc(b, size);
      MulMonotone(size, b + 1, tablestep);
      ButterflyBlock(vector, table, i, halfsize, tablestep, mod);
      i := i + size;
      b := b + 1;
    }
  }

  /** The outer loop of transform_radix_2: the stages for block sizes 2, 4, ..., n = 2^levels,
      with twiddle step n / size into the table of the first n / 2 powers of the root. */
  method ButterflyStages(vector: array<int>, table: seq<int>, levels: nat, mod: int)
    requires vector.Length == Pow2(levels) && mod > 0 && (levels >= 1 ==> |table| == Pow2(levels - 1))
    modifies vector
    ensures vector[..] == Stages(old(vector[..]), table, levels, 1, mod)
  {
    ghost var out := Stages(vector[..], table, levels, 1, mod);
    var n := vector.Length;
    var size := 2;
    ghost var s: nat := 1;
    while size <= n
      invariant 1 <= s <= levels + 1 && size == Pow2(s)
      invariant Stages(vector[..], table, levels, s, mod) == out
      decreases levels + 1 - s
    {
      var halfsize, tablestep := StageShape(n, size, levels, s);
      ghost var before := vector[..];
      ButterflyStage(vector, table, size, halfsize, tablestep, mod);
      StagesStep(before, table, levels, s, mod);
      size := size * 2;
      s := s + 1;
    }
    if s <= levels {
      Pow2Monotone(s, levels);
    }
  }

  /** The half size and the twiddle step of the stage for blocks of size positions. */
  method StageShape(n: nat, size: nat, ghost levels: nat, ghost s: nat) returns (halfsize: nat, tablestep: nat)
    requires 1 <= s && n == Pow2(levels) && size == Pow2(s) && size <= n
    ensures s <= levels && halfsize == Pow2(s - 1) && tablestep == Pow2(levels - s)
    ensures size == 2 * halfsize && halfsize * tablestep == Pow2(levels - 1) && n == tablestep * size
  {
    if s > levels {
      Pow2Monotone(levels + 1, s);
    }
    StageGeometry(levels, s);
    halfsize := size / 2;
    tablestep := n / size;
    DivModUnique(size, 2, Pow2(s - 1), 0);
    DivModUnique(n, size, Pow2(levels - s), 0);
  }


  /** transform_radix_2: the length must be a power of two (a zero length fails earlier, on
      the negative shift 1 << -1). The vector is then permuted by bit reversal and run through
      the butterfly stages in place. A vector of length 1 never reaches a use of mod and is
      left as it is; with two or more entries and mod = 0 the first step of the power table
      divides by zero, after the permutation has already been made. */
  method TransformRadix2(vector: array<int>, root: int, mod: int) returns (r: Outcome)
    requires mod >= 0 || vector.Length <= 1
    modifies vector
    ensures r.Fail? <==> !IsPowerOfTwo(vector.Length) || (vector.Length >= 2 && mod == 0)
    ensures r.Fail? && !IsPowerOfTwo(vector.Length) ==>
      vector[..] == old(vector[..]) && r.error == if vector.Length == 0 then NegativeShift else NotPowerOfTwo
    ensures r.Fail? && IsPowerOfTwo(vector.Length) ==>
      r.error == DivisionByZero && vector.Length > 0 && Pow2(BitLength(vector.Length) - 1) == vector.Length &&
      vector[..] == BitReversed(old(vector[..]), BitLength(vector.Length) - 1)
    ensures r.Pass? && vector.Length == 1 ==> vector[..] == old(vector[..])
    ensures r.Pass? && vector.Length >= 2 ==> mod > 0 && vector[..] == Radix2(old(vector[..]), root, mod)
  {
    var n := vector.Length;
    var levels: int := BitLength(n) - 1;
    PowerOfTwoBitLength(n);
    if levels < 0 {
      return Fail(NegativeShift);
    }
    if Pow2(levels) != n {
      return Fail(NotPowerOfTwo);
    }
    ghost var original := vector[..];
    BitReversePermute(vector, levels);
    if n == 1 {
      assert vector[..] == original by {
        assert vector[0] == original[ReversedBits(0, 0)];
      }
      return Pass;
    }
    if mod == 0 {
      return Fail(DivisionByZero);
    }
    var powtable := PowTable(root, mod, n / 2);
    ButterflyStages(vector, powtable, levels, mod);
    return Pass;
  }
}
