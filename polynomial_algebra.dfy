/** The ring law behind __pow__ in polynomials.py: the negacyclic schoolbook
    product is associative (in Z_q it is exactly associative, since every
    product is reduced), so the square-and-multiply loop multiplies the
    accumulator by the base one factor at a time, and p^(e+1) = p^e * p. */
module PolynomialAlgebra {
  import opened Common
  import opened Polynomials

  // ---------------------------------------------------------------------------
  // Finite sums
  // ---------------------------------------------------------------------------

  /** f(lo) + f(lo + 1) + ... + f(hi - 1). */
  function Sum(f: int -> int, lo: int, hi: int): int
    decreases hi - lo
  {
    if lo >= hi then 0 else Sum(f, lo, hi - 1) + f(hi - 1)
  }

  lemma {:induction false} SumSplit(f: int -> int, lo: int, mid: int, hi: int)
    requires lo <= mid <= hi
    ensures Sum(f, lo, hi) == Sum(f, lo, mid) + Sum(f, mid, hi)
    decreases hi - mid
  {
    if mid < hi {
      SumSplit(f, lo, mid, hi - 1);
    }
  }

  /** Sums of functions that agree on the range are equal. */
  lemma {:induction false} SumExt(f: int -> int, g: int -> int, lo: int, hi: int)
    requires forall x :: lo <= x < hi ==> f(x) == g(x)
    ensures Sum(f, lo, hi) == Sum(g, lo, hi)
    decreases hi - lo
  {
    if lo < hi {
      SumExt(f, g, lo, hi - 1);
    }
  }

  lemma {:induction false} SumZero(f: int -> int, lo: int, hi: int)
    requires forall x :: lo <= x < hi ==> f(x) == 0
    ensures Sum(f, lo, hi) == 0
    decreases hi - lo
  {
    if lo < hi {
      SumZero(f, lo, hi - 1);
    }
  }

  // Named combinators, so that the same function term appears in every lemma
  // that mentions it.

  function FnShift(f: int -> int, d: int): int -> int
  {
    x => f(x + d)
  }

  function FnFlip(f: int -> int, c: int): int -> int
  {
    x => f(c - x)
  }

  function FnPlus(f: int -> int, g: int -> int): int -> int
  {
    x => f(x) + g(x)
  }

  function FnTimes(c: int, f: int -> int): int -> int
  {
    x => c * f(x)
  }

  function FnNeg(f: int -> int): int -> int
  {
    x => -f(x)
  }

  /** Renaming the index x to x + d. */
  lemma {:induction false} SumShift(f: int -> int, lo: int, hi: int, d: int)
    ensures Sum(f, lo, hi) == Sum(FnShift(f, d), lo - d, hi - d)
    decreases hi - lo
  {
    if lo < hi {
      SumShift(f, lo, hi - 1, d);
    }
  }

  /** Renaming the index x to c - x runs the range backwards. */
  lemma {:induction false} SumReverse(f: int -> int, lo: int, hi: int, c: int)
    ensures Sum(f, lo, hi) == Sum(FnFlip(f, c), c - hi + 1, c - lo + 1)
    decreases hi - lo
  {
    if lo < hi {
      SumReverse(f, lo, hi - 1, c);
      SumSplit(FnFlip(f, c), c - hi + 1, c - hi + 2, c - lo + 1);
    }
  }

  lemma {:induction false} SumAdd(f: int -> int, g: int -> int, lo: int, hi: int)
    ensures Sum(f, lo, hi) + Sum(g, lo, hi) == Sum(FnPlus(f, g), lo, hi)
    decreases hi - lo
  {
    if lo < hi {
      SumAdd(f, g, lo, hi - 1);
    }
  }

  lemma {:induction false} SumScale(f: int -> int, c: int, lo: int, hi: int)
    ensures c * Sum(f, lo, hi) == Sum(FnTimes(c, f), lo, hi)
    decreases hi - lo
  {
    if lo < hi {
      SumScale(f, c, lo, hi - 1);
    }
  }

  lemma SumNeg(f: int -> int, lo: int, hi: int)
    ensures -Sum(f, lo, hi) == Sum(FnNeg(f), lo, hi)
  {
    SumScale(f, -1, lo, hi);
    SumExt(FnTimes(-1, f), FnNeg(f), lo, hi);
  }

  /** Row i and column j of a function of two indices, and their sums. */
  function RowOf(F: (int, int) -> int, i: int): int -> int
  {
    j => F(i, j)
  }

  function ColumnOf(F: (int, int) -> int, j: int): int -> int
  {
    i => F(i, j)
  }

  function RowSums(F: (int, int) -> int, n: int): int -> int
  {
    i => Sum(RowOf(F, i), 0, n)
  }

  function ColumnSums(F: (int, int) -> int, m: int): int -> int
  {
    j => Sum(ColumnOf(F, j), 0, m)
  }

  /** Exchanging the order of a double sum over a rectangle. */
  lemma {:induction false} SumSwap(F: (int, int) -> int, m: int, n: int)
    requires 0 <= m && 0 <= n
    ensures Sum(RowSums(F, n), 0, m) == Sum(ColumnSums(F, m), 0, n)
    decreases m
  {
    if m > 0 {
      SumSwap(F, m - 1, n);
      assert Sum(RowSums(F, n), 0, m) == Sum(RowSums(F, n), 0, m - 1) + Sum(RowOf(F, m - 1), 0, n);
      SumAdd(ColumnSums(F, m - 1), RowOf(F, m - 1), 0, n);
      forall x | 0 <= x < n
        ensures FnPlus(ColumnSums(F, m - 1), RowOf(F, m - 1))(x) == ColumnSums(F, m)(x)
      {
        assert Sum(ColumnOf(F, x), 0, m) == Sum(ColumnOf(F, x), 0, m - 1) + F(m - 1, x);
      }
      SumExt(FnPlus(ColumnSums(F, m - 1), RowOf(F, m - 1)), ColumnSums(F, m), 0, n);
    } else {
      SumZero(ColumnSums(F, 0), 0, n);
    }
  }

  /** Sums of functions that agree modulo q on the range agree modulo q. */
  lemma {:induction false} SumCongruent(f: int -> int, g: int -> int, lo: int, hi: int, q: int)
    requires q >= 1 && forall x :: lo <= x < hi ==> f(x) % q == g(x) % q
    ensures Sum(f, lo, hi) % q == Sum(g, lo, hi) % q
    decreases hi - lo
  {
    if lo < hi {
      SumCongruent(f, g, lo, hi - 1, q);
      AddModCongruent(Sum(f, lo, hi - 1), Sum(g, lo, hi - 1), f(hi - 1), q);
      AddModCongruent(f(hi - 1), g(hi - 1), Sum(g, lo, hi - 1), q);
    }
  }

  /** A window of n consecutive values of an n-periodic function sums to the
      same as the window starting at 0. */
  lemma SumPeriodicWindow(f: int -> int, n: int, i: int)
    requires 0 <= i <= n
    requires forall x :: -i <= x < 0 ==> f(x) == f(x + n)
    ensures Sum(f, -i, n - i) == Sum(f, 0, n)
  {
    SumSplit(f, -i, 0, n - i);
    SumShift(f, -i, 0, -n);
    SumExt(FnShift(f, -n), f, n - i, n);
    SumSplit(f, 0, n - i, n);
  }

  // ---------------------------------------------------------------------------
  // The negacyclic product as a single sum
  // ---------------------------------------------------------------------------

  /** a[t] inside the list, 0 outside it. */
  function At(a: seq<int>, t: int): int
  {
    if 0 <= t < |a| then a[t] else 0
  }

  /** The coefficient b lends to X^m once X^n = -1 is applied: b[m] inside
      [0, n), and minus the value one period nearer to it outside. */
  function Wrapped(b: seq<int>, m: int): int
    requires |b| >= 1
    decreases if m >= 0 then m else |b| - m
  {
    if 0 <= m < |b| then b[m]
    else if m >= |b| then -Wrapped(b, m - |b|)
    else -Wrapped(b, m + |b|)
  }

  lemma WrappedShift(b: seq<int>, m: int)
    requires |b| >= 1
    ensures Wrapped(b, m + |b|) == -Wrapped(b, m)
  {
  }

  lemma WrappedInside(b: seq<int>, m: int)
    requires |b| >= 1 && -|b| <= m < |b|
    ensures 0 <= m ==> Wrapped(b, m) == b[m]
    ensures m < 0 ==> Wrapped(b, m) == -b[m + |b|]
  {
  }

  /** t |-> a[t] * b wrapped at k - t: the terms of coefficient k of a * b. */
  function ConvTerm(a: seq<int>, b: seq<int>, k: int): int -> int
    requires |b| >= 1
  {
    t => At(a, t) * Wrapped(b, k - t)
  }

  /** Coefficient k of a * b in Z[X] / (X^n + 1), before any reduction. */
  function Conv(a: seq<int>, b: seq<int>, k: int): int
    requires |b| >= 1
  {
    Sum(ConvTerm(a, b, k), 0, |a|)
  }

  /** a * b in Z[X] / (X^n + 1), before any reduction. */
  function ConvSeq(a: seq<int>, b: seq<int>): (r: seq<int>)
    requires |a| == |b| >= 1
    ensures |r| == |a| && forall k :: 0 <= k < |a| ==> r[k] == Conv(a, b, k)
  {
    seq(|a|, k requires 0 <= k < |a| => Conv(a, b, k))
  }

  function PosTerm(a: seq<int>, b: seq<int>, k: int): int -> int
  {
    t => if t <= k then At(a, t) * At(b, k - t) else 0
  }

  function NegTerm(a: seq<int>, b: seq<int>, k: int): int -> int
  {
    j => if j > k then At(a, k + |a| - j) * At(b, j) else 0
  }

  lemma {:induction false} PosSumIsSum(a: seq<int>, b: seq<int>, k: int, i: nat)
    requires i <= |a| && 0 <= k < |b|
    ensures PosSum(a, b, k, i) == Sum(PosTerm(a, b, k), 0, i)
  {
    if i > 0 {
      PosSumIsSum(a, b, k, i - 1);
    }
  }

  lemma {:induction false} NegSumIsSum(a: seq<int>, b: seq<int>, k: int, j: nat)
    requires |a| == |b| && j <= |b| && 0 <= k < |a|
    ensures NegSum(a, b, k, j) == Sum(NegTerm(a, b, k), 0, j)
  {
    if j > 0 {
      NegSumIsSum(a, b, k, j - 1);
      if j - 1 > k {
        assert NegTerm(a, b, k)(j - 1) == a[k + |a| - (j - 1)] * b[j - 1];
      }
    }
  }

  /** The schoolbook sums, direct products minus wrapped ones, are Conv. */
  lemma SchoolbookIsConv(a: seq<int>, b: seq<int>, k: int)
    requires |a| == |b| >= 1 && 0 <= k < |a|
    ensures PosSum(a, b, k, |a|) - NegSum(a, b, k, |a|) == Conv(a, b, k)
  {
    ConvLowPart(a, b, k);
    ConvHighPart(a, b, k);
    SumSplit(ConvTerm(a, b, k), 0, k + 1, |a|);
  }

  /** The terms with t <= k land on X^k directly. */
  lemma ConvLowPart(a: seq<int>, b: seq<int>, k: int)
    requires |a| == |b| >= 1 && 0 <= k < |a|
    ensures Sum(ConvTerm(a, b, k), 0, k + 1) == PosSum(a, b, k, |a|)
  {
    var ct := ConvTerm(a, b, k);
    PosSumIsSum(a, b, k, |a|);
    forall t | 0 <= t < k + 1
      ensures ct(t) == PosTerm(a, b, k)(t)
    {
      WrappedInside(b, k - t);
      assert ct(t) == a[t] * b[k - t];
      assert At(b, k - t) == b[k - t];
    }
    SumExt(ct, PosTerm(a, b, k), 0, k + 1);
    SumSplit(PosTerm(a, b, k), 0, k + 1, |a|);
    SumZero(PosTerm(a, b, k), k + 1, |a|);
  }

  /** The terms with t > k wrap round to X^k with a minus sign. */
  lemma ConvHighPart(a: seq<int>, b: seq<int>, k: int)
    requires |a| == |b| >= 1 && 0 <= k < |a|
    ensures Sum(ConvTerm(a, b, k), k + 1, |a|) == -NegSum(a, b, k, |a|)
  {
    var n := |a|;
    var ct := ConvTerm(a, b, k);
    var flipped := FnFlip(NegTerm(a, b, k), k + n);
    NegSumFlipped(a, b, k);
    forall t | k + 1 <= t < n
      ensures ct(t) == FnNeg(flipped)(t)
    {
      ConvHighTerm(a, b, k, t);
    }
    SumExt(ct, FnNeg(flipped), k + 1, n);
    SumNeg(flipped, k + 1, n);
  }

  lemma NegSumFlipped(a: seq<int>, b: seq<int>, k: int)
    requires |a| == |b| >= 1 && 0 <= k < |a|
    ensures NegSum(a, b, k, |a|) == Sum(FnFlip(NegTerm(a, b, k), k + |a|), k + 1, |a|)
  {
    var n := |a|;
    NegSumIsSum(a, b, k, n);
    SumSplit(NegTerm(a, b, k), 0, k + 1, n);
    SumZero(NegTerm(a, b, k), 0, k + 1);
    SumReverse(NegTerm(a, b, k), k + 1, n, k + n);
  }

  lemma ConvHighTerm(a: seq<int>, b: seq<int>, k: int, t: int)
    requires |a| == |b| >= 1 && 0 <= k < t < |a|
    ensures ConvTerm(a, b, k)(t) == FnNeg(FnFlip(NegTerm(a, b, k), k + |a|))(t)
  {
    var x, y := At(a, t), b[k - t + |a|];
    WrappedInside(b, k - t);
    assert ConvTerm(a, b, k)(t) == x * -y;
    assert FnNeg(FnFlip(NegTerm(a, b, k), k + |a|))(t) == -(x * y);
  }

  /** NegacyclicProduct is Conv reduced modulo q. */
  lemma ProductIsConv(q: int, a: seq<int>, b: seq<int>)
    requires q >= 1 && |a| == |b| >= 1
    ensures forall k :: 0 <= k < |a| ==> NegacyclicProduct(q, a, b)[k] == Conv(a, b, k) % q
  {
    forall k | 0 <= k < |a|
      ensures NegacyclicProduct(q, a, b)[k] == Conv(a, b, k) % q
    {
      SchoolbookIsConv(a, b, k);
    }
  }

  // ---------------------------------------------------------------------------
  // Associativity
  // ---------------------------------------------------------------------------

  /** s |-> b wrapped at s times c wrapped at m - s. */
  function Pair(b: seq<int>, c: seq<int>, m: int): int -> int
    requires |b| >= 1 && |c| >= 1
  {
    s => Wrapped(b, s) * Wrapped(c, m - s)
  }

  /** The wrapped coefficients of b * c are the Pair sums, at every m in (-n, n). */
  lemma WrappedConv(b: seq<int>, c: seq<int>, m: int)
    requires |b| == |c| >= 1 && -|b| <= m < |b|
    ensures Wrapped(ConvSeq(b, c), m) == Sum(Pair(b, c, m), 0, |b|)
  {
    var n := |b|;
    var bc := ConvSeq(b, c);
    WrappedInside(bc, m);
    if m >= 0 {
      forall s | 0 <= s < n
        ensures ConvTerm(b, c, m)(s) == Pair(b, c, m)(s)
      {
        WrappedInside(b, s);
      }
      SumExt(ConvTerm(b, c, m), Pair(b, c, m), 0, n);
    } else {
      var t := ConvTerm(b, c, m + n);
      SumNeg(t, 0, n);
      forall s | 0 <= s < n
        ensures FnNeg(t)(s) == Pair(b, c, m)(s)
      {
        WrappedInside(b, s);
        WrappedShift(c, m - s);
        assert m - s + n == m + n - s;
      }
      SumExt(FnNeg(t), Pair(b, c, m), 0, n);
    }
  }

  /** j |-> b wrapped at j - i times c wrapped at k - j. */
  function Inner(b: seq<int>, c: seq<int>, k: int, i: int): int -> int
    requires |b| >= 1 && |c| >= 1
  {
    j => Wrapped(b, j - i) * Wrapped(c, k - j)
  }

  /** Summing the inner products over a full period gives (b * c) wrapped at k - i. */
  lemma InnerIsWrapped(b: seq<int>, c: seq<int>, k: int, i: int)
    requires |b| == |c| >= 1 && 0 <= i < |b| && 0 <= k < |b|
    ensures Sum(Inner(b, c, k, i), 0, |b|) == Wrapped(ConvSeq(b, c), k - i)
  {
    var n := |b|;
    var pr := Pair(b, c, k - i);
    InnerShifted(b, c, k, i);
    forall s | -i <= s < 0
      ensures pr(s) == pr(s + n)
    {
      PairPeriodic(b, c, k - i, s);
    }
    SumPeriodicWindow(pr, n, i);
    WrappedConv(b, c, k - i);
  }

  /** Renaming j to s + i turns the inner sum into a window of Pair sums. */
  lemma InnerShifted(b: seq<int>, c: seq<int>, k: int, i: int)
    requires |b| == |c| >= 1
    ensures Sum(Inner(b, c, k, i), 0, |b|) == Sum(Pair(b, c, k - i), -i, |b| - i)
  {
    var n := |b|;
    SumShift(Inner(b, c, k, i), 0, n, i);
    forall s | -i <= s < n - i
      ensures FnShift(Inner(b, c, k, i), i)(s) == Pair(b, c, k - i)(s)
    {
      assert s + i - i == s && k - (s + i) == k - i - s;
    }
    SumExt(FnShift(Inner(b, c, k, i), i), Pair(b, c, k - i), -i, n - i);
  }

  /** Both factors of a Pair term change sign over one period, so the term
      does not change. */
  lemma PairPeriodic(b: seq<int>, c: seq<int>, m: int, s: int)
    requires |b| == |c| >= 1
    ensures Pair(b, c, m)(s + |b|) == Pair(b, c, m)(s)
  {
    var n := |b|;
    WrappedShift(b, s);
    WrappedShift(c, m - s - n);
    assert m - s - n + n == m - s && m - (s + n) == m - s - n;
  }

  /** The double sum behind both groupings of a * b * c at coefficient k. */
  function Triple(a: seq<int>, b: seq<int>, c: seq<int>, k: int): (int, int) -> int
    requires |b| >= 1 && |c| >= 1
  {
    (i, j) => At(a, i) * (Wrapped(b, j - i) * Wrapped(c, k - j))
  }

  /** Coefficient k of (a * b) * c sums Triple column by column. */
  lemma ConvAssocLeft(a: seq<int>, b: seq<int>, c: seq<int>, k: int)
    requires |a| == |b| == |c| >= 1 && 0 <= k < |a|
    ensures Conv(ConvSeq(a, b), c, k) == Sum(ColumnSums(Triple(a, b, c, k), |a|), 0, |a|)
  {
    var n := |a|;
    forall j | 0 <= j < n
      ensures ConvTerm(ConvSeq(a, b), c, k)(j) == ColumnSums(Triple(a, b, c, k), n)(j)
    {
      ColumnOfTriple(a, b, c, k, j);
    }
    SumExt(ConvTerm(ConvSeq(a, b), c, k), ColumnSums(Triple(a, b, c, k), n), 0, n);
  }

  lemma ColumnOfTriple(a: seq<int>, b: seq<int>, c: seq<int>, k: int, j: int)
    requires |a| == |b| == |c| >= 1 && 0 <= j < |a|
    ensures ConvTerm(ConvSeq(a, b), c, k)(j) == Sum(ColumnOf(Triple(a, b, c, k), j), 0, |a|)
  {
    var n := |a|;
    var w := Wrapped(c, k - j);
    var col := ColumnOf(Triple(a, b, c, k), j);
    var ab := ConvSeq(a, b);
    ConvTermAt(ab, c, k, j);
    assert At(ab, j) == Conv(a, b, j);
    Commute(At(ab, j), w);
    SumScale(ConvTerm(a, b, j), w, 0, n);
    forall i | 0 <= i < n
      ensures FnTimes(w, ConvTerm(a, b, j))(i) == col(i)
    {
      ColumnTerm(ConvTerm(a, b, j), w, a, b, c, k, j, i);
    }
    SumExt(FnTimes(w, ConvTerm(a, b, j)), col, 0, n);
  }

  lemma ColumnTerm(t: int -> int, w: int, a: seq<int>, b: seq<int>, c: seq<int>, k: int, j: int, i: int)
    requires |b| >= 1 && |c| >= 1 && t == ConvTerm(a, b, j) && w == Wrapped(c, k - j)
    ensures FnTimes(w, t)(i) == ColumnOf(Triple(a, b, c, k), j)(i)
  {
    Rotate(w, At(a, i), Wrapped(b, j - i), FnTimes(w, t)(i), ColumnOf(Triple(a, b, c, k), j)(i));
  }

  lemma ConvTermAt(a: seq<int>, b: seq<int>, k: int, t: int)
    requires |b| >= 1
    ensures ConvTerm(a, b, k)(t) == At(a, t) * Wrapped(b, k - t)
  {
  }

  lemma Commute(x: int, y: int)
    ensures x * y == y * x
  {
  }

  lemma Rotate(w: int, x: int, y: int, u: int, v: int)
    requires u == w * (x * y) && v == x * (y * w)
    ensures u == v
  {
  }

  /** Coefficient k of a * (b * c) sums Triple row by row. */
  lemma ConvAssocRight(a: seq<int>, b: seq<int>, c: seq<int>, k: int)
    requires |a| == |b| == |c| >= 1 && 0 <= k < |a|
    ensures Sum(RowSums(Triple(a, b, c, k), |a|), 0, |a|) == Conv(a, ConvSeq(b, c), k)
  {
    var n := |a|;
    forall i | 0 <= i < n
      ensures RowSums(Triple(a, b, c, k), n)(i) == ConvTerm(a, ConvSeq(b, c), k)(i)
    {
      RowOfTriple(a, b, c, k, i);
    }
    SumExt(RowSums(Triple(a, b, c, k), n), ConvTerm(a, ConvSeq(b, c), k), 0, n);
  }

  lemma RowOfTriple(a: seq<int>, b: seq<int>, c: seq<int>, k: int, i: int)
    requires |a| == |b| == |c| >= 1 && 0 <= i < |a| && 0 <= k < |a|
    ensures Sum(RowOf(Triple(a, b, c, k), i), 0, |a|) == At(a, i) * Wrapped(ConvSeq(b, c), k - i)
  {
    var n := |a|;
    var row := RowOf(Triple(a, b, c, k), i);
    forall j | 0 <= j < n
      ensures row(j) == FnTimes(At(a, i), Inner(b, c, k, i))(j)
    {
    }
    SumExt(row, FnTimes(At(a, i), Inner(b, c, k, i)), 0, n);
    SumScale(Inner(b, c, k, i), At(a, i), 0, n);
    InnerIsWrapped(b, c, k, i);
  }

  /** (a * b) * c = a * (b * c) in Z[X] / (X^n + 1), coefficient by coefficient. */
  lemma ConvAssoc(a: seq<int>, b: seq<int>, c: seq<int>, k: int)
    requires |a| == |b| == |c| >= 1 && 0 <= k < |a|
    ensures Conv(ConvSeq(a, b), c, k) == Conv(a, ConvSeq(b, c), k)
  {
    ConvAssocLeft(a, b, c, k);
    SumSwap(Triple(a, b, c, k), |a|, |a|);
    ConvAssocRight(a, b, c, k);
  }

  // ---------------------------------------------------------------------------
  // Reduction modulo q
  // ---------------------------------------------------------------------------

  /** Pointwise congruent sequences. */
  ghost predicate Congruent(q: int, a: seq<int>, a': seq<int>)
    requires q >= 1
  {
    |a| == |a'| && forall t :: 0 <= t < |a| ==> a[t] % q == a'[t] % q
  }

  lemma {:induction false} WrappedCongruent(q: int, b: seq<int>, b': seq<int>, m: int)
    requires q >= 1 && |b| >= 1 && Congruent(q, b, b')
    ensures Wrapped(b, m) % q == Wrapped(b', m) % q
    decreases if m >= 0 then m else |b| - m
  {
    if 0 <= m < |b| {
    } else if m >= |b| {
      WrappedCongruent(q, b, b', m - |b|);
      SubModCongruent(0, 0, Wrapped(b, m - |b|), Wrapped(b', m - |b|), q);
    } else {
      WrappedCongruent(q, b, b', m + |b|);
      SubModCongruent(0, 0, Wrapped(b, m + |b|), Wrapped(b', m + |b|), q);
    }
  }

  /** Replacing the left factor by a congruent one keeps Conv's residue. */
  lemma ConvCongruentLeft(q: int, a: seq<int>, a': seq<int>, c: seq<int>, k: int)
    requires q >= 1 && |c| >= 1 && Congruent(q, a, a')
    ensures Conv(a, c, k) % q == Conv(a', c, k) % q
  {
    forall t | 0 <= t < |a|
      ensures ConvTerm(a, c, k)(t) % q == ConvTerm(a', c, k)(t) % q
    {
      ConvTermAt(a, c, k, t);
      ConvTermAt(a', c, k, t);
      MulModCongruent(At(a, t), At(a', t), Wrapped(c, k - t), q);
    }
    SumCongruent(ConvTerm(a, c, k), ConvTerm(a', c, k), 0, |a|, q);
  }

  /** Replacing the right factor by a congruent one keeps Conv's residue. */
  lemma ConvCongruentRight(q: int, a: seq<int>, b: seq<int>, b': seq<int>, k: int)
    requires q >= 1 && |b| >= 1 && Congruent(q, b, b')
    ensures Conv(a, b, k) % q == Conv(a, b', k) % q
  {
    forall t | 0 <= t < |a|
      ensures ConvTerm(a, b, k)(t) % q == ConvTerm(a, b', k)(t) % q
    {
      ConvTermAt(a, b, k, t);
      ConvTermAt(a, b', k, t);
      WrappedCongruent(q, b, b', k - t);
      MulModCongruent(Wrapped(b, k - t), Wrapped(b', k - t), At(a, t), q);
      Commute(At(a, t), Wrapped(b, k - t));
      Commute(At(a, t), Wrapped(b', k - t));
    }
    SumCongruent(ConvTerm(a, b, k), ConvTerm(a, b', k), 0, |a|, q);
  }

  /** The reduced product is congruent to the unreduced one. */
  lemma ProductCongruent(q: int, a: seq<int>, b: seq<int>)
    requires q >= 1 && |a| == |b| >= 1
    ensures Congruent(q, NegacyclicProduct(q, a, b), ConvSeq(a, b))
  {
    ProductIsConv(q, a, b);
    forall t | 0 <= t < |a|
      ensures NegacyclicProduct(q, a, b)[t] % q == ConvSeq(a, b)[t] % q
    {
      var x := Conv(a, b, t);
      DivModUnique(x % q, q, 0, x % q);
    }
  }

  /** Multiplication in Z_q[X] / (X^n + 1) is associative: (a * b) * c and
      a * (b * c) agree coefficient by coefficient. */
  lemma NegacyclicAssociative(q: int, a: seq<int>, b: seq<int>, c: seq<int>)
    requires q >= 1 && |a| == |b| == |c| >= 1
    ensures NegacyclicProduct(q, NegacyclicProduct(q, a, b), c) == NegacyclicProduct(q, a, NegacyclicProduct(q, b, c))
  {
    var ab, bc := NegacyclicProduct(q, a, b), NegacyclicProduct(q, b, c);
    ProductIsConv(q, ab, c);
    ProductIsConv(q, a, bc);
    ProductCongruent(q, a, b);
    ProductCongruent(q, b, c);
    forall k | 0 <= k < |a|
      ensures NegacyclicProduct(q, ab, c)[k] == NegacyclicProduct(q, a, bc)[k]
    {
      ConvCongruentLeft(q, ab, ConvSeq(a, b), c, k);
      ConvAssoc(a, b, c, k);
      ConvCongruentRight(q, a, ConvSeq(b, c), bc, k);
    }
  }

  // ---------------------------------------------------------------------------
  // Powers
  // ---------------------------------------------------------------------------

  /** g * f * f * ... * f with e factors f, multiplied in one at a time on the right. */
  function MulPow(q: int, g: seq<int>, f: seq<int>, e: nat): (r: seq<int>)
    requires q >= 1 && |g| == |f|
    ensures |r| == |g|
    decreases e
  {
    if e == 0 then g else MulPow(q, NegacyclicProduct(q, g, f), f, e - 1)
  }

  /** One more factor f is one more product on the right. */
  lemma {:induction false} MulPowLast(q: int, g: seq<int>, f: seq<int>, e: nat)
    requires q >= 1 && |g| == |f|
    ensures MulPow(q, g, f, e + 1) == NegacyclicProduct(q, MulPow(q, g, f, e), f)
    decreases e
  {
    if e > 0 {
      MulPowLast(q, NegacyclicProduct(q, g, f), f, e - 1);
    }
  }

  /** Multiplying j times by f * f is multiplying 2j times by f. */
  lemma {:induction false} MulPowSquare(q: int, h: seq<int>, f: seq<int>, j: nat)
    requires q >= 1 && |h| == |f| >= 1
    ensures MulPow(q, h, NegacyclicProduct(q, f, f), j) == MulPow(q, h, f, 2 * j)
    decreases j
  {
    if j > 0 {
      var ff := NegacyclicProduct(q, f, f);
      var hf := NegacyclicProduct(q, h, f);
      NegacyclicAssociative(q, h, f, f);
      MulPowSquare(q, NegacyclicProduct(q, h, ff), f, j - 1);
      assert MulPow(q, h, f, 2 * j) == MulPow(q, hf, f, 2 * j - 1);
      assert MulPow(q, hf, f, 2 * j - 1) == MulPow(q, NegacyclicProduct(q, hf, f), f, 2 * j - 2);
    }
  }

  /** __pow__'s loop on coefficient-form polynomials, from accumulator g and
      base f with e still to go, computes g * f^e. */
  lemma {:induction false} PowLoopIsMulPow(ring: Ring, g: seq<int>, f: seq<int>, e: nat)
    requires ValidRing(ring) && |g| == |f| == ring.n
    ensures PowLoop(ring, Poly(g, false), Poly(f, false), e) == Ok(Poly(MulPow(ring.q, g, f, e), false))
    decreases e
  {
    if e > 0 {
      var q := ring.q;
      var ff := NegacyclicProduct(q, f, f);
      if e % 2 == 1 {
        var gf := NegacyclicProduct(q, g, f);
        PowLoopIsMulPow(ring, gf, ff, e / 2);
        MulPowSquare(q, gf, f, e / 2);
        assert MulPow(q, g, f, e) == MulPow(q, gf, f, e - 1);
      } else {
        PowLoopIsMulPow(ring, g, ff, e / 2);
        MulPowSquare(q, g, f, e / 2);
      }
    }
  }

  /** p^(e+1) = p^e * p for a polynomial in coefficient form: the
      square-and-multiply loop of __pow__ agrees with repeated multiplication. */
  lemma PowerSucc(ring: Ring, p: Poly, e: int)
    requires ValidRing(ring) && Fits(ring, p) && !p.isNtt && e >= 0
    ensures Power(ring, p, e).Ok?
    ensures Power(ring, p, e + 1) == Product(ring, Power(ring, p, e).value, p)
  {
    var one := ConstantPoly(ring, 1, false);
    PowLoopIsMulPow(ring, one.coeffs, p.coeffs, e);
    PowLoopIsMulPow(ring, one.coeffs, p.coeffs, e + 1);
    MulPowLast(ring.q, one.coeffs, p.coeffs, e);
  }
}
