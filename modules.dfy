/** The module layer of modules.py: matrices whose entries are elements of a
    polynomial ring, built and decoded by a Module, transposed, converted
    entry by entry in place, encoded, added, subtracted and multiplied. */
module Modules {
  import opened Common
  import opened Polynomials

  /** The entries of a matrix, row by row. */
  type Rows = seq<seq<Poly>>

  /** m rows of n entries each. */
  predicate Shaped(rows: Rows, m: nat, n: nat)
  {
    |rows| == m && forall i :: 0 <= i < m ==> |rows[i]| == n
  }

  /** Every entry is an element of the ring, so it has n coefficients. */
  predicate InRing(ring: Ring, rows: Rows)
  {
    forall i, j :: 0 <= i < |rows| && 0 <= j < |rows[i]| ==> Fits(ring, rows[i][j])
  }

  /** A Module.Matrix as a value: the ring of its parent Module, its rows and
      its dimensions m (rows) and n (columns). */
  datatype Mat = Mat(ring: Ring, rows: Rows, m: nat, n: nat)

  predicate WellFormed(a: Mat)
  {
    ValidRing(a.ring) && Shaped(a.rows, a.m, a.n) && InRing(a.ring, a.rows)
  }

  // ---------------------------------------------------------------------------
  // Module.__call__ and Matrix.__init__
  // ---------------------------------------------------------------------------

  /** What Module.__call__ is given: a flat list of ring elements, or a list of
      rows. */
  datatype Entries = Flat(ps: seq<Poly>) | Nested(rs: Rows)

  /** Module.__call__: a flat list becomes a single row; an empty list has no
      first element to inspect; rows of different lengths are refused by
      check_dimensions, n being the length of the first row. */
  function Build(ring: Ring, e: Entries): (r: Result<Mat>)
  {
    match e
    case Flat(ps) =>
      if ps == [] then Err(EmptyMatrix) else Ok(Mat(ring, [ps], 1, |ps|))
    case Nested(rs) =>
      if rs == [] then Err(EmptyMatrix)
      else if exists i :: 0 <= i < |rs| && |rs[i]| != |rs[0]| then Err(RaggedRows)
      else Ok(Mat(ring, rs, |rs|, |rs[0]|))
  }

  /** A list of rows is accepted exactly when it is non-empty and rectangular,
      and the matrix then holds those rows; a flat list is accepted exactly
      when non-empty and becomes a 1 x len matrix. */
  lemma BuildMeaning(ring: Ring, e: Entries)
    requires ValidRing(ring)
    ensures e.Nested? ==>
      (Build(ring, e).Ok? <==> |e.rs| >= 1 && Shaped(e.rs, |e.rs|, |e.rs[0]|))
    ensures e.Flat? ==> (Build(ring, e).Ok? <==> |e.ps| >= 1)
    ensures Build(ring, e).Err? ==>
      Build(ring, e).error == (if e.Nested? && |e.rs| >= 1 then RaggedRows else EmptyMatrix)
    ensures Build(ring, e).Ok? ==>
      var a := Build(ring, e).value;
      a.ring == ring && a.m >= 1 && Shaped(a.rows, a.m, a.n) &&
      a.rows == (if e.Flat? then [e.ps] else e.rs)
  {
    if e.Nested? && |e.rs| >= 1 && !Shaped(e.rs, |e.rs|, |e.rs[0]|) {
      var i :| 0 <= i < |e.rs| && |e.rs[i]| != |e.rs[0]|;
    }
  }

  /** Building from the rows of a matrix with at least one row gives it back. */
  lemma BuildRows(a: Mat)
    requires WellFormed(a) && a.m >= 1
    ensures Build(a.ring, Nested(a.rows)) == Ok(a)
  {
  }

  // ---------------------------------------------------------------------------
  // transpose and transpose_self
  // ---------------------------------------------------------------------------

  /** zip(*rows) on m rows of n entries: n rows of m entries. */
  function Transposed(rows: Rows, m: nat, n: nat): (r: Rows)
    requires Shaped(rows, m, n)
    ensures Shaped(r, n, m)
  {
    seq(n, j requires 0 <= j < n => seq(m, i requires 0 <= i < m => rows[i][j]))
  }

  /** Entry (j, i) of the transposition is entry (i, j) of the matrix, and
      transposing twice gives the rows back. */
  lemma TransposedTwice(rows: Rows, m: nat, n: nat)
    requires Shaped(rows, m, n)
    ensures forall i, j :: 0 <= i < m && 0 <= j < n ==> Transposed(rows, m, n)[j][i] == rows[i][j]
    ensures Transposed(Transposed(rows, m, n), n, m) == rows
  {
    var t := Transposed(Transposed(rows, m, n), n, m);
    forall i | 0 <= i < m
      ensures t[i] == rows[i]
    {
    }
  }

  /** Matrix.transpose: a new n x m matrix through the parent Module, which
      has no first row to inspect when the matrix has no rows or no columns. */
  function Transpose(a: Mat): (r: Result<Mat>)
    requires Shaped(a.rows, a.m, a.n)
  {
    if a.m == 0 || a.n == 0 then Err(EmptyMatrix)
    else Ok(Mat(a.ring, Transposed(a.rows, a.m, a.n), a.n, a.m))
  }

  /** transpose refuses exactly the matrices without entries; otherwise it
      swaps the dimensions, keeps the entries in place across the diagonal,
      and transposing the result gives the matrix back. */
  lemma TransposeMeaning(a: Mat)
    requires WellFormed(a)
    ensures Transpose(a).Ok? <==> a.m >= 1 && a.n >= 1
    ensures Transpose(a).Err? ==> Transpose(a).error == EmptyMatrix
    ensures Transpose(a).Ok? ==>
      var t := Transpose(a).value;
      WellFormed(t) && t.m == a.n && t.n == a.m && t.ring == a.ring &&
      (forall i, j :: 0 <= i < a.m && 0 <= j < a.n ==> t.rows[j][i] == a.rows[i][j]) &&
      Transpose(t) == Ok(a)
  {
    if a.m >= 1 && a.n >= 1 {
      TransposedTwice(a.rows, a.m, a.n);
    }
  }

  /** Matrix.__eq__: two matrices are equal when their rows are; the rings
      and the recorded dimensions are not compared. */
  predicate MatEq(a: Mat, b: Mat)
  {
    a.rows == b.rows
  }

  /** Between well-formed matrices, equality holds exactly when the row
      counts agree, the column counts agree unless there are no rows, and
      every pair of entries has the same coefficients and representation. */
  lemma MatEqMeaning(a: Mat, b: Mat)
    requires WellFormed(a) && WellFormed(b)
    ensures MatEq(a, b) <==>
      a.m == b.m && (a.m == 0 || a.n == b.n) &&
      forall i, j :: 0 <= i < a.m && 0 <= j < a.n ==>
        a.rows[i][j].coeffs == b.rows[i][j].coeffs && a.rows[i][j].isNtt == b.rows[i][j].isNtt
  {
    if a.m == b.m && (a.m == 0 || a.n == b.n) &&
       forall i, j :: 0 <= i < a.m && 0 <= j < a.n ==>
         a.rows[i][j].coeffs == b.rows[i][j].coeffs && a.rows[i][j].isNtt == b.rows[i][j].isNtt
    {
      forall i | 0 <= i < a.m
        ensures a.rows[i] == b.rows[i]
      {
        assert |a.rows[i]| == |b.rows[i]|;
        forall j | 0 <= j < a.n
          ensures a.rows[i][j] == b.rows[i][j]
        {
        }
      }
    }
    if MatEq(a, b) && a.m > 0 {
      assert |a.rows[0]| == |b.rows[0]|;
    }
  }

  // ---------------------------------------------------------------------------
  // Comprehensions whose elements may raise
  // ---------------------------------------------------------------------------

  /** A list built element by element where building an element may raise:
      the first error in order, or every value. */
  function Collect<T>(rs: seq<Result<T>>): (r: Result<seq<T>>)
    ensures r.Ok? <==> forall k :: 0 <= k < |rs| ==> rs[k].Ok?
    ensures r.Ok? ==> |r.value| == |rs| && forall k :: 0 <= k < |rs| ==> rs[k] == Ok(r.value[k])
    ensures r.Err? ==> exists k :: 0 <= k < |rs| && rs[k] == Err(r.error) && forall t :: 0 <= t < k ==> rs[t].Ok?
  {
    if rs == [] then Ok([])
    else if rs[0].Err? then Err(rs[0].error)
    else
      match Collect(rs[1..])
      case Err(e) =>
        ghost var k :| 0 <= k < |rs| - 1 && rs[1..][k] == Err(e) && forall t :: 0 <= t < k ==> rs[1..][t].Ok?;
        assert rs[k + 1] == Err(e) && forall t :: 0 <= t < k + 1 ==> rs[t].Ok?;
        Err(e)
      case Ok(vs) => Ok([rs[0].value] + vs)
  }

  /** Collecting one more element: its error if it raises, its value
      appended otherwise. */
  lemma CollectSnoc<T>(rs: seq<Result<T>>, x: Result<T>)
    requires Collect(rs).Ok?
    ensures Collect(rs + [x]) == if x.Ok? then Ok(Collect(rs).value + [x.value]) else Err(x.error)
  {
    var s := rs + [x];
    if x.Ok? {
      var vs := Collect(rs).value + [x.value];
      assert forall k :: 0 <= k < |s| ==> s[k] == Ok(vs[k]);
      assert Collect(s).value == vs;
    } else {
      assert s[|rs|].Err?;
      var k :| 0 <= k < |s| && s[k] == Err(Collect(s).error) && forall t :: 0 <= t < k ==> s[t].Ok?;
      assert k == |rs|;
    }
  }

  /** A matrix comprehension: row i, column j built by f, row by row. */
  function CollectRows<T>(rs: seq<seq<Result<T>>>): (r: Result<seq<seq<T>>>)
    ensures r.Ok? <==> forall i, j :: 0 <= i < |rs| && 0 <= j < |rs[i]| ==> rs[i][j].Ok?
    ensures r.Ok? ==> |r.value| == |rs|
    ensures r.Ok? ==> forall i :: 0 <= i < |rs| ==> |r.value[i]| == |rs[i]|
    ensures r.Ok? ==> forall i, j :: 0 <= i < |rs| && 0 <= j < |rs[i]| ==> rs[i][j] == Ok(r.value[i][j])
    ensures r.Err? ==> exists i, j :: 0 <= i < |rs| && 0 <= j < |rs[i]| && rs[i][j] == Err(r.error)
  {
    CollectNested(rs, Collected(rs));
    Collect(Collected(rs))
  }

  /** Each row collected on its own. */
  function Collected<T>(rs: seq<seq<Result<T>>>): (outs: seq<Result<seq<T>>>)
    ensures |outs| == |rs| && forall i :: 0 <= i < |rs| ==> outs[i] == Collect(rs[i])
  {
    seq(|rs|, i requires 0 <= i < |rs| => Collect(rs[i]))
  }

  /** One more element of a collection whose prefix succeeded: its value is
      appended, or the whole collection fails with its error. */
  lemma CollectStep<T>(rs: seq<Result<T>>, k: nat, acc: seq<T>)
    requires k < |rs| && Collect(rs[..k]) == Ok(acc)
    ensures rs[k].Ok? ==> Collect(rs[..k + 1]) == Ok(acc + [rs[k].value])
    ensures rs[k].Err? ==> Collect(rs) == Err(rs[k].error)
  {
    if rs[k].Ok? {
      CollectExtend(rs, k, acc);
    } else {
      forall t | 0 <= t < k
        ensures rs[t].Ok?
      {
        assert rs[..k][t] == rs[t];
      }
      CollectFirstErr(rs, k);
    }
  }

  lemma CollectExtend<T>(rs: seq<Result<T>>, k: nat, acc: seq<T>)
    requires k < |rs| && Collect(rs[..k]) == Ok(acc) && rs[k].Ok?
    ensures Collect(rs[..k + 1]) == Ok(acc + [rs[k].value])
  {
    assert rs[..k + 1] == rs[..k] + [rs[k]];
    CollectSnoc(rs[..k], rs[k]);
  }

  /** Collect reports the first failure. */
  lemma {:induction false} CollectFirstErr<T>(rs: seq<Result<T>>, k: nat)
    requires k < |rs| && rs[k].Err? && forall t :: 0 <= t < k ==> rs[t].Ok?
    ensures Collect(rs) == Err(rs[k].error)
  {
    if k > 0 {
      assert forall t :: 0 <= t < k - 1 ==> rs[1..][t] == rs[t + 1];
      CollectFirstErr(rs[1..], k - 1);
    }
  }

  lemma CollectNested<T>(rs: seq<seq<Result<T>>>, outs: seq<Result<seq<T>>>)
    requires |outs| == |rs| && forall i :: 0 <= i < |rs| ==> outs[i] == Collect(rs[i])
    ensures Collect(outs).Ok? <==> forall i, j :: 0 <= i < |rs| && 0 <= j < |rs[i]| ==> rs[i][j].Ok?
    ensures Collect(outs).Ok? ==> |Collect(outs).value| == |rs|
    ensures Collect(outs).Ok? ==> forall i :: 0 <= i < |rs| ==> |Collect(outs).value[i]| == |rs[i]|
    ensures Collect(outs).Ok? ==> forall i, j :: 0 <= i < |rs| && 0 <= j < |rs[i]| ==>
      rs[i][j] == Ok(Collect(outs).value[i][j])
    ensures Collect(outs).Err? ==>
      exists i, j :: 0 <= i < |rs| && 0 <= j < |rs[i]| && rs[i][j] == Err(Collect(outs).error)
  {
    var r := Collect(outs);
    if r.Ok? {
      assert forall i :: 0 <= i < |rs| ==> outs[i] == Ok(r.value[i]);
    } else {
      var i :| 0 <= i < |rs| && outs[i] == Err(r.error);
      var j :| 0 <= j < |rs[i]| && rs[i][j] == Err(r.error);
    }
  }

  // ---------------------------------------------------------------------------
  // __add__ and __sub__
  // ---------------------------------------------------------------------------

  /** The two element-wise matrix operations. */
  datatype Op = Plus | Minus

  /** One entry: the polynomial __add__ or __sub__. */
  function Combine(op: Op, ring: Ring, p: Poly, o: Poly): (r: Result<Poly>)
    requires Fits(ring, p)
  {
    if op.Plus? then Add(ring, p, o) else Sub(ring, p, o)
  }

  /** The rows of a + b or a - b: each pair of rows zipped entry by entry. */
  function CombinedRows(op: Op, ring: Ring, xs: Rows, ys: Rows): (r: Result<Rows>)
    requires InRing(ring, xs) && |ys| == |xs|
    requires forall i :: 0 <= i < |xs| ==> |ys[i]| == |xs[i]|
  {
    CollectRows(CombineTable(op, ring, xs, ys))
  }

  /** Matrix.__add__ / __sub__: refused across rings, then across shapes; the
      entries are combined in row-major order; the parent Module then has no
      first row to inspect when the matrix has no rows. */
  function MatCombine(op: Op, a: Mat, b: Mat): (r: Result<Mat>)
    requires WellFormed(a) && WellFormed(b)
  {
    if a.ring != b.ring then Err(RingMismatch)
    else if a.m != b.m || a.n != b.n then Err(DimensionMismatch)
    else
      var rows :- CombinedRows(op, a.ring, a.rows, b.rows);
      Build(a.ring, Nested(rows))
  }

  /** Both tags agree at every entry. */
  predicate SameForms(a: Mat, b: Mat)
    requires Shaped(a.rows, a.m, a.n) && Shaped(b.rows, a.m, a.n)
  {
    forall i, j :: 0 <= i < a.m && 0 <= j < a.n ==> a.rows[i][j].isNtt == b.rows[i][j].isNtt
  }

  /** The entries of a + b (or a - b), one pair at a time. */
  function CombineTable(op: Op, ring: Ring, xs: Rows, ys: Rows): (es: seq<seq<Result<Poly>>>)
    requires InRing(ring, xs) && |ys| == |xs|
    requires forall i :: 0 <= i < |xs| ==> |ys[i]| == |xs[i]|
    ensures |es| == |xs| && forall i :: 0 <= i < |xs| ==> |es[i]| == |xs[i]|
  {
    seq(|xs|, i requires 0 <= i < |xs| =>
      seq(|xs[i]|, j requires 0 <= j < |xs[i]| => Combine(op, ring, xs[i][j], ys[i][j])))
  }

  /** Each entry of the table is the polynomial operation on the pair: it
      raises exactly on mismatched forms, and then with TagMismatch. */
  lemma CombineTableMeaning(op: Op, ring: Ring, xs: Rows, ys: Rows, m: nat, n: nat)
    requires InRing(ring, xs) && Shaped(xs, m, n) && Shaped(ys, m, n)
    ensures forall i, j :: 0 <= i < m && 0 <= j < n ==>
      CombineTable(op, ring, xs, ys)[i][j] == Combine(op, ring, xs[i][j], ys[i][j])
    ensures forall i, j :: 0 <= i < m && 0 <= j < n ==>
      (Combine(op, ring, xs[i][j], ys[i][j]).Ok? <==> xs[i][j].isNtt == ys[i][j].isNtt)
    ensures forall i, j :: 0 <= i < m && 0 <= j < n && Combine(op, ring, xs[i][j], ys[i][j]).Ok? ==>
      Fits(ring, Combine(op, ring, xs[i][j], ys[i][j]).value)
    ensures forall i, j :: 0 <= i < m && 0 <= j < n ==>
      Combine(op, ring, xs[i][j], ys[i][j]).Err? ==> Combine(op, ring, xs[i][j], ys[i][j]).error == TagMismatch
  {
  }

  /** The combined rows exist exactly when the forms agree entry by entry;
      otherwise the first mismatch raises. */
  lemma CombinedRowsMeaning(op: Op, ring: Ring, xs: Rows, ys: Rows, m: nat, n: nat)
    requires InRing(ring, xs) && Shaped(xs, m, n) && Shaped(ys, m, n)
    ensures CombinedRows(op, ring, xs, ys).Ok? <==>
      forall i, j :: 0 <= i < m && 0 <= j < n ==> xs[i][j].isNtt == ys[i][j].isNtt
    ensures CombinedRows(op, ring, xs, ys).Err? ==> CombinedRows(op, ring, xs, ys).error == TagMismatch
    ensures CombinedRows(op, ring, xs, ys).Ok? ==>
      var rows := CombinedRows(op, ring, xs, ys).value;
      Shaped(rows, m, n) && InRing(ring, rows) &&
      forall i, j :: 0 <= i < m && 0 <= j < n ==> Combine(op, ring, xs[i][j], ys[i][j]) == Ok(rows[i][j])
  {
    CombineTableMeaning(op, ring, xs, ys, m, n);
  }

  /** a + b and a - b succeed exactly for one ring, one shape with at least
      one row, and matching forms entry by entry; the error is the first
      check that fails. */
  lemma MatCombineOk(op: Op, a: Mat, b: Mat)
    requires WellFormed(a) && WellFormed(b)
    ensures MatCombine(op, a, b).Ok? <==>
      a.ring == b.ring && a.m == b.m && a.n == b.n && a.m >= 1 && SameForms(a, b)
    ensures MatCombine(op, a, b).Err? ==>
      MatCombine(op, a, b).error == (
        if a.ring != b.ring then RingMismatch
        else if a.m != b.m || a.n != b.n then DimensionMismatch
        else if a.m == 0 then EmptyMatrix
        else TagMismatch)
  {
    if a.ring == b.ring && a.m == b.m && a.n == b.n {
      CombinedRowsMeaning(op, a.ring, a.rows, b.rows, a.m, a.n);
      var cr := CombinedRows(op, a.ring, a.rows, b.rows);
      if cr.Ok? && a.m >= 1 {
        BuildRows(Mat(a.ring, cr.value, a.m, a.n));
      }
    }
  }

  /** The result of a + b (or a - b) has the shape and ring of a, entry
      (i, j) being a_ij + b_ij (or a_ij - b_ij). */
  lemma MatCombineMeaning(op: Op, a: Mat, b: Mat)
    requires WellFormed(a) && WellFormed(b) && MatCombine(op, a, b).Ok?
    ensures a.ring == b.ring && a.m == b.m && a.n == b.n && a.m >= 1 && SameForms(a, b)
    ensures var c := MatCombine(op, a, b).value;
      WellFormed(c) && c.ring == a.ring && c.m == a.m && c.n == a.n &&
      forall i, j :: 0 <= i < a.m && 0 <= j < a.n ==>
        Combine(op, a.ring, a.rows[i][j], b.rows[i][j]) == Ok(c.rows[i][j])
  {
    MatCombineOk(op, a, b);
    CombinedRowsMeaning(op, a.ring, a.rows, b.rows, a.m, a.n);
    BuildRows(Mat(a.ring, CombinedRows(op, a.ring, a.rows, b.rows).value, a.m, a.n));
  }

  /** Matrix addition commutes. */
  lemma MatAddCommutes(a: Mat, b: Mat)
    requires WellFormed(a) && WellFormed(b)
    ensures MatCombine(Plus, a, b) == MatCombine(Plus, b, a)
  {
    MatCombineOk(Plus, a, b);
    MatCombineOk(Plus, b, a);
    if MatCombine(Plus, a, b).Ok? {
      MatCombineMeaning(Plus, a, b);
      MatCombineMeaning(Plus, b, a);
      var u := MatCombine(Plus, a, b).value;
      var v := MatCombine(Plus, b, a).value;
      forall i, j | 0 <= i < a.m && 0 <= j < a.n
        ensures u.rows[i][j] == v.rows[i][j]
      {
        AddCommutes(a.ring, a.rows[i][j], b.rows[i][j]);
      }
      SameEntries(u, v);
    }
  }

  /** Two matrices of one ring and shape with the same entries are equal. */
  lemma SameEntries(u: Mat, v: Mat)
    requires Shaped(u.rows, u.m, u.n) && Shaped(v.rows, u.m, u.n)
    requires u.ring == v.ring && u.m == v.m && u.n == v.n
    requires forall i, j :: 0 <= i < u.m && 0 <= j < u.n ==> u.rows[i][j] == v.rows[i][j]
    ensures u == v
  {
    assert forall i :: 0 <= i < u.m ==> u.rows[i] == v.rows[i];
  }

  /** Every coefficient of every entry is a residue modulo q. */
  predicate MatReduced(a: Mat)
  {
    forall i, j :: 0 <= i < |a.rows| && 0 <= j < |a.rows[i]| ==> Reduced(a.ring.q, a.rows[i][j])
  }

  /** Subtraction undoes addition on reduced matrices of one ring, shape and
      form: (a - b) + b = a. */
  lemma MatSubThenAdd(a: Mat, b: Mat)
    requires WellFormed(a) && WellFormed(b) && a.ring == b.ring && a.m == b.m && a.n == b.n && a.m >= 1
    requires SameForms(a, b) && MatReduced(a) && MatReduced(b)
    ensures MatCombine(Minus, a, b).Ok?
    ensures MatCombine(Plus, MatCombine(Minus, a, b).value, b) == Ok(a)
  {
    MatCombineOk(Minus, a, b);
    MatCombineMeaning(Minus, a, b);
    var d := MatCombine(Minus, a, b).value;
    forall i, j | 0 <= i < a.m && 0 <= j < a.n
      ensures d.rows[i][j].isNtt == b.rows[i][j].isNtt
      ensures Add(a.ring, d.rows[i][j], b.rows[i][j]) == Ok(a.rows[i][j])
    {
      SubThenAdd(a.ring, a.rows[i][j], b.rows[i][j]);
    }
    MatCombineOk(Plus, d, b);
    MatCombineMeaning(Plus, d, b);
    var s := MatCombine(Plus, d, b).value;
    SameEntries(s, a);
  }

  // ---------------------------------------------------------------------------
  // __matmul__
  // ---------------------------------------------------------------------------

  /** Python's sum over a generator of polynomials whose items may raise: sum
      starts from the int 0, so the first item is added to 0 (the
      polynomial's __radd__, which adds to the constant coefficient) and the
      rest are added in order; an item or a sum that raises stops it. */
  function Sum(ring: Ring, rs: seq<Result<Poly>>): (r: Result<Poly>)
    requires ValidRing(ring) && |rs| >= 1 && OkFit(ring, rs)
    ensures r.Ok? ==> Fits(ring, r.value)
  {
    var p :- rs[0];
    SumFrom(ring, AddInt(ring, p, 0), rs, 1)
  }

  /** Every item that is a polynomial is an element of the ring. */
  predicate OkFit(ring: Ring, rs: seq<Result<Poly>>)
  {
    forall k :: 0 <= k < |rs| && rs[k].Ok? ==> Fits(ring, rs[k].value)
  }

  /** The rest of the sum from item k on, acc holding the sum so far. */
  function SumFrom(ring: Ring, acc: Poly, rs: seq<Result<Poly>>, k: nat): (r: Result<Poly>)
    requires ValidRing(ring) && Fits(ring, acc) && k <= |rs| && OkFit(ring, rs)
    ensures r.Ok? ==> Fits(ring, r.value)
    decreases |rs| - k
  {
    if k == |rs| then Ok(acc)
    else
      var p :- rs[k];
      var s :- Add(ring, acc, p);
      SumFrom(ring, s, rs, k + 1)
  }

  /** Coefficient i summed over the first k polynomials. */
  function ColumnSum(ps: seq<Poly>, i: nat, k: nat): int
    requires k <= |ps| && forall t :: 0 <= t < k ==> i < |ps[t].coeffs|
  {
    if k == 0 then 0 else ColumnSum(ps, i, k - 1) + ps[k - 1].coeffs[i]
  }

  /** The polynomials of a list of items that all succeeded. */
  function Values(rs: seq<Result<Poly>>): (ps: seq<Poly>)
    requires forall t :: 0 <= t < |rs| ==> rs[t].Ok?
    ensures |ps| == |rs| && forall t :: 0 <= t < |rs| ==> rs[t] == Ok(ps[t])
  {
    seq(|rs|, t requires 0 <= t < |rs| => rs[t].value)
  }

  /** Every item from k on is a polynomial in the given form. */
  predicate OkFrom(rs: seq<Result<Poly>>, k: nat, isNtt: bool)
  {
    forall t :: k <= t < |rs| ==> rs[t].Ok? && rs[t].value.isNtt == isNtt
  }

  /** The sum from k on succeeds exactly when every remaining item is a
      polynomial in the form of the sum so far, and keeps that form. */
  lemma {:induction false} SumFromOk(ring: Ring, acc: Poly, rs: seq<Result<Poly>>, k: nat)
    requires ValidRing(ring) && Fits(ring, acc) && k <= |rs| && OkFit(ring, rs)
    ensures SumFrom(ring, acc, rs, k).Ok? <==> OkFrom(rs, k, acc.isNtt)
    ensures SumFrom(ring, acc, rs, k).Ok? ==> SumFrom(ring, acc, rs, k).value.isNtt == acc.isNtt
    decreases |rs| - k
  {
    if k < |rs| && rs[k].Ok? && rs[k].value.isNtt == acc.isNtt {
      var s := Add(ring, acc, rs[k].value).value;
      SumFromOk(ring, s, rs, k + 1);
    }
  }

  /** Each coefficient of the sum from k on is congruent modulo q to the
      plain sum of all items, when the sum so far is congruent to the plain
      sum of the first k. */
  lemma {:induction false} SumFromCongruent(ring: Ring, acc: Poly, rs: seq<Result<Poly>>, ps: seq<Poly>, k: nat)
    requires ValidRing(ring) && Fits(ring, acc) && k <= |rs| == |ps| && AllFit(ring, ps)
    requires forall t :: 0 <= t < |rs| ==> rs[t] == Ok(ps[t])
    requires OkFrom(rs, k, acc.isNtt)
    requires forall i :: 0 <= i < ring.n ==> acc.coeffs[i] % ring.q == ColumnSum(ps, i, k) % ring.q
    ensures SumFrom(ring, acc, rs, k).Ok?
    ensures forall i :: 0 <= i < ring.n ==>
      SumFrom(ring, acc, rs, k).value.coeffs[i] % ring.q == ColumnSum(ps, i, |ps|) % ring.q
    decreases |rs| - k
  {
    SumFromOk(ring, acc, rs, k);
    if k < |rs| {
      var s := Add(ring, acc, ps[k]).value;
      forall i | 0 <= i < ring.n
        ensures s.coeffs[i] % ring.q == ColumnSum(ps, i, k + 1) % ring.q
      {
        assert s.coeffs[i] == AddModQ(ring.q, acc.coeffs[i], ps[k].coeffs[i]);
        AddModQCongruent(ring.q, acc.coeffs[i], ps[k].coeffs[i]);
        AddModCongruent(acc.coeffs[i], ColumnSum(ps, i, k), ps[k].coeffs[i], ring.q);
      }
      SumFromCongruent(ring, s, rs, ps, k + 1);
    }
  }

  /** With reduced items and a reduced sum so far equal to the residue of the
      first k, the sum from k on is the residue of the plain sum. */
  lemma {:induction false} SumFromReduced(ring: Ring, acc: Poly, rs: seq<Result<Poly>>, ps: seq<Poly>, k: nat)
    requires ValidRing(ring) && Fits(ring, acc) && k <= |rs| == |ps| && AllFit(ring, ps)
    requires forall t :: 0 <= t < |rs| ==> rs[t] == Ok(ps[t]) && Reduced(ring.q, ps[t])
    requires OkFrom(rs, k, acc.isNtt)
    requires forall i :: 0 <= i < ring.n ==> acc.coeffs[i] == ColumnSum(ps, i, k) % ring.q
    ensures SumFrom(ring, acc, rs, k).Ok?
    ensures forall i :: 0 <= i < ring.n ==>
      SumFrom(ring, acc, rs, k).value.coeffs[i] == ColumnSum(ps, i, |ps|) % ring.q
    decreases |rs| - k
  {
    SumFromOk(ring, acc, rs, k);
    if k < |rs| {
      var s := Add(ring, acc, ps[k]).value;
      forall i | 0 <= i < ring.n
        ensures s.coeffs[i] == ColumnSum(ps, i, k + 1) % ring.q
      {
        var c := ColumnSum(ps, i, k);
        var x := ps[k].coeffs[i];
        assert s.coeffs[i] == AddModQ(ring.q, acc.coeffs[i], x);
        DivModBounds(c, ring.q);
        AddModQMeaning(ring.q, acc.coeffs[i], x);
        AddMod(c, x, ring.q);
        DivModUnique(x, ring.q, 0, x);
      }
      SumFromReduced(ring, s, rs, ps, k + 1);
    }
  }

  /** AddModQ is congruent to the plain sum. */
  lemma AddModQCongruent(q: int, x: int, y: int)
    requires q >= 1
    ensures AddModQ(q, x, y) % q == (x + y) % q
  {
    if x + y >= q {
      ModAddMultiple(x + y - q, 1, q);
    }
  }

  /** The first item of a sum, added to the int 0: congruent to the item, and
      the item itself when it is reduced. */
  lemma FirstTerm(ring: Ring, p: Poly)
    requires ValidRing(ring) && Fits(ring, p)
    ensures forall i :: 0 <= i < ring.n ==> AddInt(ring, p, 0).coeffs[i] % ring.q == p.coeffs[i] % ring.q
    ensures Reduced(ring.q, p) ==> AddInt(ring, p, 0) == p
  {
    AddModQCongruent(ring.q, p.coeffs[0], 0);
    if Reduced(ring.q, p) {
      assert AddInt(ring, p, 0).coeffs == p.coeffs;
    }
  }

  /** The sum succeeds exactly when every item is a polynomial in the form of
      the first; each coefficient is then congruent modulo q to the plain sum
      of the items, and equal to its residue when every item is reduced. */
  lemma SumMeaning(ring: Ring, rs: seq<Result<Poly>>)
    requires ValidRing(ring) && |rs| >= 1 && OkFit(ring, rs)
    ensures Sum(ring, rs).Ok? <==> rs[0].Ok? && OkFrom(rs, 0, rs[0].value.isNtt)
    ensures Sum(ring, rs).Ok? ==> forall t :: 0 <= t < |rs| ==> rs[t].Ok?
    ensures Sum(ring, rs).Ok? ==>
      var ps := Values(rs);
      var s := Sum(ring, rs).value;
      s.isNtt == rs[0].value.isNtt &&
      (forall i :: 0 <= i < ring.n ==> s.coeffs[i] % ring.q == ColumnSum(ps, i, |rs|) % ring.q) &&
      ((forall t :: 0 <= t < |rs| ==> Reduced(ring.q, ps[t])) ==>
        forall i :: 0 <= i < ring.n ==> s.coeffs[i] == ColumnSum(ps, i, |rs|) % ring.q)
  {
    if rs[0].Ok? {
      var p := rs[0].value;
      var acc := AddInt(ring, p, 0);
      SumFromOk(ring, acc, rs, 1);
      if Sum(ring, rs).Ok? {
        var ps := Values(rs);
        FirstTerm(ring, p);
        assert forall i :: 0 <= i < ring.n ==> ColumnSum(ps, i, 1) == p.coeffs[i];
        SumFromCongruent(ring, acc, rs, ps, 1);
        if forall t :: 0 <= t < |rs| ==> Reduced(ring.q, ps[t]) {
          forall i | 0 <= i < ring.n
            ensures acc.coeffs[i] == ColumnSum(ps, i, 1) % ring.q
          {
            DivModUnique(p.coeffs[i], ring.q, 0, p.coeffs[i]);
          }
          SumFromReduced(ring, acc, rs, ps, 1);
        }
      }
    }
  }

  /** sum(a * b for a, b in zip(row, col)). */
  function Dot(ring: Ring, xs: seq<Poly>, ys: seq<Poly>): (r: Result<Poly>)
    requires ValidRing(ring) && |xs| == |ys| >= 1 && AllFit(ring, xs) && AllFit(ring, ys)
    ensures r.Ok? ==> Fits(ring, r.value)
  {
    Sum(ring, Terms(ring, xs, ys))
  }

  /** The products a * b of the sum, in order. */
  function Terms(ring: Ring, xs: seq<Poly>, ys: seq<Poly>): (rs: seq<Result<Poly>>)
    requires ValidRing(ring) && |xs| == |ys| && AllFit(ring, xs) && AllFit(ring, ys)
    ensures |rs| == |xs| && OkFit(ring, rs)
  {
    seq(|xs|, k requires 0 <= k < |xs| => Product(ring, xs[k], ys[k]))
  }

  /** Every product succeeds and they all share one form. */
  predicate Summable(ring: Ring, xs: seq<Poly>, ys: seq<Poly>)
    requires ValidRing(ring) && |xs| == |ys| >= 1 && AllFit(ring, xs) && AllFit(ring, ys)
  {
    (forall k :: 0 <= k < |xs| ==> Product(ring, xs[k], ys[k]).Ok?) &&
    (forall k :: 0 <= k < |xs| ==> xs[k].isNtt == xs[0].isNtt)
  }

  /** A row times a column succeeds exactly when every product does and the
      products share one form; each coefficient is then congruent modulo q
      to the plain sum over k of the products' coefficients, and equal to its
      residue when every product is reduced (always so for standard-form
      operands). */
  lemma DotMeaning(ring: Ring, xs: seq<Poly>, ys: seq<Poly>)
    requires ValidRing(ring) && |xs| == |ys| >= 1 && AllFit(ring, xs) && AllFit(ring, ys)
    ensures Dot(ring, xs, ys).Ok? <==> Summable(ring, xs, ys)
    ensures Dot(ring, xs, ys).Ok? ==> forall k :: 0 <= k < |xs| ==> Product(ring, xs[k], ys[k]).Ok?
    ensures Dot(ring, xs, ys).Ok? ==>
      var ps := Values(Terms(ring, xs, ys));
      var s := Dot(ring, xs, ys).value;
      s.isNtt == xs[0].isNtt &&
      (forall i :: 0 <= i < ring.n ==> s.coeffs[i] % ring.q == ColumnSum(ps, i, |xs|) % ring.q) &&
      (!xs[0].isNtt ==> forall i :: 0 <= i < ring.n ==> s.coeffs[i] == ColumnSum(ps, i, |xs|) % ring.q)
  {
    SumMeaning(ring, Terms(ring, xs, ys));
    TermsMeaning(ring, xs, ys);
  }

  /** The products of a row and a column: each is a * b, in the form of its
      operands when it succeeds, and reduced for standard-form operands. */
  lemma TermsMeaning(ring: Ring, xs: seq<Poly>, ys: seq<Poly>)
    requires ValidRing(ring) && |xs| == |ys| && AllFit(ring, xs) && AllFit(ring, ys)
    ensures forall k :: 0 <= k < |xs| ==> Terms(ring, xs, ys)[k] == Product(ring, xs[k], ys[k])
    ensures forall k :: 0 <= k < |xs| && Terms(ring, xs, ys)[k].Ok? ==>
      Terms(ring, xs, ys)[k].value.isNtt == xs[k].isNtt == ys[k].isNtt
    ensures forall k :: 0 <= k < |xs| && !xs[k].isNtt && !ys[k].isNtt ==>
      Terms(ring, xs, ys)[k].Ok? && Reduced(ring.q, Terms(ring, xs, ys)[k].value)
  {
  }

  /** Column j of a matrix's rows. */
  function Column(a: Mat, j: nat): (c: seq<Poly>)
    requires Shaped(a.rows, a.m, a.n) && j < a.n
    ensures |c| == a.m
  {
    seq(a.m, k requires 0 <= k < a.m => a.rows[k][j])
  }

  /** The rows of a @ b: row i of a times each row of the transposition of
      b (each column of b), row by row. */
  function ProductRows(ring: Ring, xs: Rows, cols: Rows, n: nat): (r: Result<Rows>)
    requires ValidRing(ring) && n >= 1 && InRing(ring, xs) && InRing(ring, cols)
    requires (forall i :: 0 <= i < |xs| ==> |xs[i]| == n) && (forall j :: 0 <= j < |cols| ==> |cols[j]| == n)
  {
    CollectRows(ProductTable(ring, xs, cols, n))
  }

  /** Row i of a times each column j. */
  function ProductTable(ring: Ring, xs: Rows, cols: Rows, n: nat): (es: seq<seq<Result<Poly>>>)
    requires ValidRing(ring) && n >= 1 && InRing(ring, xs) && InRing(ring, cols)
    requires (forall i :: 0 <= i < |xs| ==> |xs[i]| == n) && (forall j :: 0 <= j < |cols| ==> |cols[j]| == n)
    ensures |es| == |xs| && forall i :: 0 <= i < |xs| ==> |es[i]| == |cols|
    ensures forall i, j :: 0 <= i < |xs| && 0 <= j < |cols| ==> es[i][j] == Dot(ring, xs[i], cols[j])
  {
    seq(|xs|, i requires 0 <= i < |xs| =>
      seq(|cols|, j requires 0 <= j < |cols| => Dot(ring, xs[i], cols[j])))
  }

  /** Matrix.__matmul__: refused across rings, then unless the columns of a
      match the rows of b; the entries are the row-by-column sums in
      row-major order; the transposition of b inside the comprehension is
      only reached when a has a row, and refuses a b without entries. */
  function MatMul(a: Mat, b: Mat): (r: Result<Mat>)
    requires WellFormed(a) && WellFormed(b)
  {
    if a.ring != b.ring then Err(RingMismatch)
    else if a.n != b.m then Err(DimensionMismatch)
    else if a.m == 0 then Err(EmptyMatrix)
    else
      var bt :- Transpose(b);
      var rows :- ProductRows(a.ring, a.rows, bt.rows, a.n);
      Build(a.ring, Nested(rows))
  }

  /** The product rows exist exactly when every row-by-column sum succeeds,
      and then hold those sums. */
  lemma ProductRowsMeaning(ring: Ring, xs: Rows, cols: Rows, m: nat, p: nat, n: nat)
    requires ValidRing(ring) && n >= 1 && InRing(ring, xs) && InRing(ring, cols)
    requires Shaped(xs, m, n) && Shaped(cols, p, n)
    ensures ProductRows(ring, xs, cols, n).Ok? <==>
      forall i, j :: 0 <= i < m && 0 <= j < p ==> Dot(ring, xs[i], cols[j]).Ok?
    ensures ProductRows(ring, xs, cols, n).Ok? ==>
      var rows := ProductRows(ring, xs, cols, n).value;
      Shaped(rows, m, p) && InRing(ring, rows) &&
      forall i, j :: 0 <= i < m && 0 <= j < p ==> Dot(ring, xs[i], cols[j]) == Ok(rows[i][j])
  {
  }

  /** The shapes a @ b can multiply: one ring, a.n == b.m, both non-empty. */
  predicate Multipliable(a: Mat, b: Mat)
  {
    WellFormed(a) && WellFormed(b) && a.ring == b.ring && a.n == b.m && a.m >= 1 && b.m >= 1 && b.n >= 1
  }

  /** Row i of a times column j of b. */
  function Entry(a: Mat, b: Mat, i: nat, j: nat): Result<Poly>
    requires Multipliable(a, b) && i < a.m && j < b.n
  {
    Dot(a.ring, a.rows[i], Column(b, j))
  }

  /** The row-by-column sums of a @ b, row by row. */
  function EntryTable(a: Mat, b: Mat): (t: seq<seq<Result<Poly>>>)
    requires Multipliable(a, b)
    ensures |t| == a.m && forall i :: 0 <= i < a.m ==> |t[i]| == b.n
    ensures forall i, j :: 0 <= i < a.m && 0 <= j < b.n ==> t[i][j] == Entry(a, b, i, j)
  {
    seq(a.m, i requires 0 <= i < a.m => seq(b.n, j requires 0 <= j < b.n => Entry(a, b, i, j)))
  }

  /** With the transposition of b taken, a @ b is the collected table of
      row-by-column sums. */
  lemma MatMulRows(a: Mat, b: Mat)
    requires Multipliable(a, b)
    ensures MatMul(a, b) == (match CollectRows(EntryTable(a, b))
                             case Err(e) => Err(e)
                             case Ok(rows) => Build(a.ring, Nested(rows)))
  {
    TransposeMeaning(b);
    var bt := Transpose(b).value;
    ColumnsOfTransposed(b, bt);
    EntriesAreDots(a, b, bt.rows);
    var pt := ProductTable(a.ring, a.rows, bt.rows, a.n);
    var et := EntryTable(a, b);
    forall i | 0 <= i < a.m
      ensures pt[i] == et[i]
    {
    }
    assert pt == et;
  }

  /** a @ b succeeds exactly for one ring, matching inner dimensions, entries
      on both sides and every row-by-column sum succeeding; a failed check on
      rings, dimensions or emptiness gives its own error. */
  lemma MatMulOk(a: Mat, b: Mat)
    requires WellFormed(a) && WellFormed(b)
    ensures MatMul(a, b).Ok? <==>
      Multipliable(a, b) && forall i, j :: 0 <= i < a.m && 0 <= j < b.n ==> Entry(a, b, i, j).Ok?
    ensures !Multipliable(a, b) ==>
      MatMul(a, b) == Err(if a.ring != b.ring then RingMismatch
                          else if a.n != b.m then DimensionMismatch
                          else EmptyMatrix)
  {
    if Multipliable(a, b) {
      MatMulRows(a, b);
      var c := CollectRows(EntryTable(a, b));
      if c.Ok? {
        BuildRows(Mat(a.ring, c.value, a.m, b.n));
      }
    } else if a.ring == b.ring && a.n == b.m && a.m >= 1 {
      TransposeMeaning(b);
    }
  }

  /** The product a @ b is a.m x b.n over the ring of a, and entry (i, j)
      is row i of a times column j of b. */
  lemma MatMulMeaning(a: Mat, b: Mat)
    requires WellFormed(a) && WellFormed(b) && MatMul(a, b).Ok?
    ensures Multipliable(a, b)
    ensures var c := MatMul(a, b).value;
      WellFormed(c) && c.ring == a.ring && c.m == a.m && c.n == b.n &&
      forall i, j :: 0 <= i < a.m && 0 <= j < b.n ==> Entry(a, b, i, j) == Ok(c.rows[i][j])
  {
    MatMulOk(a, b);
    MatMulRows(a, b);
    BuildRows(Mat(a.ring, CollectRows(EntryTable(a, b)).value, a.m, b.n));
  }

  /** The rows of the transposition are the columns. */
  lemma ColumnsOfTransposed(b: Mat, bt: Mat)
    requires WellFormed(b) && Shaped(bt.rows, b.n, b.m)
    requires forall i, j :: 0 <= i < b.m && 0 <= j < b.n ==> bt.rows[j][i] == b.rows[i][j]
    ensures forall j :: 0 <= j < b.n ==> bt.rows[j] == Column(b, j)
  {
    forall j | 0 <= j < b.n
      ensures bt.rows[j] == Column(b, j)
    {
      assert forall i :: 0 <= i < b.m ==> bt.rows[j][i] == Column(b, j)[i];
    }
  }

  /** Entry (i, j) is row i of a times row j of the transposition of b. */
  lemma EntriesAreDots(a: Mat, b: Mat, cols: Rows)
    requires Multipliable(a, b) && Shaped(cols, b.n, a.n)
    requires forall j :: 0 <= j < b.n ==> cols[j] == Column(b, j)
    ensures InRing(a.ring, cols)
    ensures forall i, j :: 0 <= i < a.m && 0 <= j < b.n ==> Entry(a, b, i, j) == Dot(a.ring, a.rows[i], cols[j])
  {
  }

  /** The products a_ik * b_kj of an entry (i, j) that succeeded. */
  function EntryTerms(a: Mat, b: Mat, i: nat, j: nat): (ps: seq<Poly>)
    requires Multipliable(a, b) && i < a.m && j < b.n && Entry(a, b, i, j).Ok?
    ensures |ps| == a.n && AllFit(a.ring, ps)
    ensures forall k :: 0 <= k < a.n ==> Product(a.ring, a.rows[i][k], b.rows[k][j]) == Ok(ps[k])
  {
    DotMeaning(a.ring, a.rows[i], Column(b, j));
    TermsMeaning(a.ring, a.rows[i], Column(b, j));
    Values(Terms(a.ring, a.rows[i], Column(b, j)))
  }

  /** Entry (i, j) of a @ b is congruent modulo q, coefficient by
      coefficient, to the plain sum over k of the coefficients of
      a_ik * b_kj, and equal to its residue for standard-form entries. */
  lemma MatMulEntry(a: Mat, b: Mat, c: Mat, i: nat, j: nat)
    requires WellFormed(a) && WellFormed(b) && MatMul(a, b) == Ok(c) && i < a.m && j < b.n
    ensures Multipliable(a, b) && Entry(a, b, i, j).Ok?
    ensures WellFormed(c) && c.ring == a.ring && c.m == a.m && c.n == b.n
    ensures forall t :: 0 <= t < a.ring.n ==>
      c.rows[i][j].coeffs[t] % a.ring.q == ColumnSum(EntryTerms(a, b, i, j), t, a.n) % a.ring.q
    ensures !a.rows[i][0].isNtt ==> forall t :: 0 <= t < a.ring.n ==>
      c.rows[i][j].coeffs[t] == ColumnSum(EntryTerms(a, b, i, j), t, a.n) % a.ring.q
  {
    MatMulMeaning(a, b);
    DotMeaning(a.ring, a.rows[i], Column(b, j));
  }

  // ---------------------------------------------------------------------------
  // The element-wise in-place conversions
  // ---------------------------------------------------------------------------

  /** The Polynomial method a matrix conversion applies to every entry. */
  datatype Conversion =
    | Reduction                 // reduce_coefficents
    | Montgomery                // to_montgomery
    | IntoNtt                   // to_ntt
    | OutOfNtt                  // from_ntt
    | Compression(d: nat)       // compress(d)
    | Decompression(d: nat)     // decompress(d)

  /** The new value of one entry, or the error its conversion raises. */
  function Apply(ring: Ring, c: Conversion, p: Poly): (r: Result<Poly>)
    requires ValidRing(ring) && Fits(ring, p)
    ensures r.Ok? ==> Fits(ring, r.value)
    ensures (c.Reduction? || c.Compression? || c.Decompression?) ==> r.Ok?
  {
    match c
    case Reduction => Ok(ReduceCoefficients(ring.q, p))
    case Montgomery => PolyToMontgomery(ring, p)
    case IntoNtt => PolyToNtt(ring, p)
    case OutOfNtt => PolyFromNtt(ring, p)
    case Compression(d) => Ok(Compress(ring.q, p, d))
    case Decompression(d) => Ok(Decompress(ring.q, p, d))
  }

  predicate AllFit(ring: Ring, ps: seq<Poly>)
  {
    forall k :: 0 <= k < |ps| ==> Fits(ring, ps[k])
  }

  /** One entry's conversion as an outcome and the entry's new value (the old
      one when it raises). */
  function Step(ring: Ring, c: Conversion, p: Poly): (r: (Outcome, Poly))
    requires ValidRing(ring) && Fits(ring, p)
    ensures Fits(ring, r.1)
  {
    var a := Apply(ring, c, p);
    if a.Ok? then (Pass, a.value) else (Fail(a.error), p)
  }

  /** The position of the first failed outcome from i on, or |outs|. */
  function FirstFail<T>(outs: seq<(Outcome, T)>, i: nat): (f: nat)
    requires i <= |outs|
    ensures i <= f <= |outs|
    ensures forall t :: i <= t < f ==> outs[t].0 == Pass
    ensures f < |outs| ==> outs[f].0.Fail?
    decreases |outs| - i
  {
    if i == |outs| then i
    else if outs[i].0.Fail? then i
    else FirstFail(outs, i + 1)
  }

  /** A loop over xs that replaces each element by its new value, in order,
      and stops at the first failure: the elements up to the failure hold
      their new values (a failing element's is whatever it became before it
      raised), the later ones are untouched. */
  function Sequenced<T>(xs: seq<T>, outs: seq<(Outcome, T)>): (r: (Outcome, seq<T>))
    requires |outs| == |xs|
    ensures |r.1| == |xs|
  {
    var f := FirstFail(outs, 0);
    (if f == |xs| then Pass else outs[f].0,
     seq(|xs|, i requires 0 <= i < |xs| => if i <= f then outs[i].1 else xs[i]))
  }

  /** FirstFail finds the first failure: position i when every step before
      it passed and step i failed or is past the end. */
  lemma {:induction false} FirstFailAt<T>(outs: seq<(Outcome, T)>, j: nat, i: nat)
    requires j <= i <= |outs|
    requires forall t :: j <= t < i ==> outs[t].0 == Pass
    requires i < |outs| ==> outs[i].0.Fail?
    ensures FirstFail(outs, j) == i
    decreases i - j
  {
    if j < i {
      FirstFailAt(outs, j + 1, i);
    }
  }

  /** The state of a sequenced loop over xs after i steps that all passed:
      the first i elements hold their new values, the rest are untouched. */
  ghost predicate Progress<T>(xs: seq<T>, outs: seq<(Outcome, T)>, r: seq<T>, i: nat)
  {
    |outs| == |xs| == |r| && i <= |xs| &&
    (forall t :: 0 <= t < i ==> outs[t].0 == Pass && r[t] == outs[t].1) &&
    (forall t :: i <= t < |xs| ==> r[t] == xs[t])
  }

  lemma ProgressStart<T>(xs: seq<T>, outs: seq<(Outcome, T)>)
    requires |outs| == |xs|
    ensures Progress(xs, outs, xs, 0)
  {
  }

  /** A step that passes stores its new value and moves on. */
  lemma ProgressPass<T>(xs: seq<T>, outs: seq<(Outcome, T)>, r: seq<T>, i: nat)
    requires Progress(xs, outs, r, i) && i < |xs| && outs[i].0 == Pass
    ensures Progress(xs, outs, r[i := outs[i].1], i + 1)
  {
  }

  /** A step that fails stores its new value and ends the loop with its
      outcome. */
  lemma ProgressFail<T>(xs: seq<T>, outs: seq<(Outcome, T)>, r: seq<T>, i: nat)
    requires Progress(xs, outs, r, i) && i < |xs| && outs[i].0.Fail?
    ensures Sequenced(xs, outs) == (outs[i].0, r[i := outs[i].1])
  {
    FirstFailAt(outs, 0, i);
    var s := Sequenced(xs, outs).1;
    assert s == r[i := outs[i].1];
  }

  /** Every step passed: the loop ends with Pass and the new values. */
  lemma ProgressDone<T>(xs: seq<T>, outs: seq<(Outcome, T)>, r: seq<T>)
    requires Progress(xs, outs, r, |xs|)
    ensures Sequenced(xs, outs) == (Pass, r)
  {
    FirstFailAt(outs, 0, |xs|);
    assert Sequenced(xs, outs).1 == r;
  }

  /** The sequenced loop passes exactly when every step passes, and then
      every element holds its new value. */
  lemma SequencedMeaning<T>(xs: seq<T>, outs: seq<(Outcome, T)>)
    requires |outs| == |xs|
    ensures Sequenced(xs, outs).0 == Pass <==> forall i :: 0 <= i < |xs| ==> outs[i].0 == Pass
    ensures Sequenced(xs, outs).0 == Pass ==> forall i :: 0 <= i < |xs| ==> Sequenced(xs, outs).1[i] == outs[i].1
  {
    var f := FirstFail(outs, 0);
    if f < |xs| {
      assert outs[f].0.Fail?;
    }
  }

  /** The entries of a row converted in order until one raises. */
  function ConvertedRow(ring: Ring, c: Conversion, row: seq<Poly>): (r: (Outcome, seq<Poly>))
    requires ValidRing(ring) && AllFit(ring, row)
    ensures |r.1| == |row| && AllFit(ring, r.1)
  {
    var outs := seq(|row|, k requires 0 <= k < |row| => Step(ring, c, row[k]));
    var r := Sequenced(row, outs);
    assert forall k :: 0 <= k < |row| ==> r.1[k] == row[k] || r.1[k] == outs[k].1;
    r
  }

  /** The rows converted in order until an entry raises: the rows before it
      converted, its row converted up to it, the later rows untouched. */
  function ConvertedRows(ring: Ring, c: Conversion, rows: Rows): (r: (Outcome, Rows))
    requires ValidRing(ring) && InRing(ring, rows)
    ensures |r.1| == |rows| && InRing(ring, r.1)
    ensures forall i :: 0 <= i < |rows| ==> |r.1[i]| == |rows[i]|
  {
    var outs := seq(|rows|, i requires 0 <= i < |rows| => ConvertedRow(ring, c, rows[i]));
    var r := Sequenced(rows, outs);
    assert forall i :: 0 <= i < |rows| ==> r.1[i] == rows[i] || r.1[i] == outs[i].1;
    r
  }

  /** A conversion passes exactly when no entry raises, and then every entry
      holds its converted value; the conversions that cannot raise (reduce,
      compress, decompress) always pass. */
  lemma ConvertedRowsMeaning(ring: Ring, c: Conversion, rows: Rows)
    requires ValidRing(ring) && InRing(ring, rows)
    ensures var (o, r) := ConvertedRows(ring, c, rows);
      (o == Pass <==> forall i, j :: 0 <= i < |rows| && 0 <= j < |rows[i]| ==> Apply(ring, c, rows[i][j]).Ok?) &&
      (o == Pass ==> forall i, j :: 0 <= i < |rows| && 0 <= j < |rows[i]| ==>
        r[i][j] == Apply(ring, c, rows[i][j]).value)
  {
    var outs := seq(|rows|, i requires 0 <= i < |rows| => ConvertedRow(ring, c, rows[i]));
    SequencedMeaning(rows, outs);
    forall i | 0 <= i < |rows|
      ensures outs[i].0 == Pass <==> forall j :: 0 <= j < |rows[i]| ==> Apply(ring, c, rows[i][j]).Ok?
      ensures outs[i].0 == Pass ==> forall j :: 0 <= j < |rows[i]| ==> outs[i].1[j] == Apply(ring, c, rows[i][j]).value
    {
      ConvertedRowMeaning(ring, c, rows[i]);
    }
  }

  /** ConvertedRowsMeaning for one row. */
  lemma ConvertedRowMeaning(ring: Ring, c: Conversion, row: seq<Poly>)
    requires ValidRing(ring) && AllFit(ring, row)
    ensures var (o, r) := ConvertedRow(ring, c, row);
      (o == Pass <==> forall j :: 0 <= j < |row| ==> Apply(ring, c, row[j]).Ok?) &&
      (o == Pass ==> forall j :: 0 <= j < |row| ==> r[j] == Apply(ring, c, row[j]).value)
  {
    var outs := seq(|row|, k requires 0 <= k < |row| => Step(ring, c, row[k]));
    SequencedMeaning(row, outs);
    assert forall j :: 0 <= j < |row| ==> (outs[j].0 == Pass <==> Apply(ring, c, row[j]).Ok?);
    assert forall j :: 0 <= j < |row| && outs[j].0 == Pass ==> outs[j].1 == Apply(ring, c, row[j]).value;
  }

  /** A conversion as its callers use it: the methods return the matrix
      itself, so the result is the converted matrix, or the error of the
      first entry that raises. */
  function Converted(a: Mat, c: Conversion): (r: Result<Mat>)
    requires WellFormed(a)
    ensures r.Ok? <==> forall i, j :: 0 <= i < a.m && 0 <= j < a.n ==> Apply(a.ring, c, a.rows[i][j]).Ok?
    ensures r.Ok? ==>
      WellFormed(r.value) && r.value.ring == a.ring && r.value.m == a.m && r.value.n == a.n &&
      forall i, j :: 0 <= i < a.m && 0 <= j < a.n ==> Apply(a.ring, c, a.rows[i][j]) == Ok(r.value.rows[i][j])
  {
    ConvertedRowsMeaning(a.ring, c, a.rows);
    var (o, rows) := ConvertedRows(a.ring, c, a.rows);
    if o.Fail? then Err(o.error) else Ok(Mat(a.ring, rows, a.m, a.n))
  }

  // ---------------------------------------------------------------------------
  // Matrix.encode
  // ---------------------------------------------------------------------------

  /** The position of entry (i, j) in the row-major order of rows of n. */
  function Position(n: nat, i: nat, j: nat): nat
  {
    n * i + j
  }

  /** Entry (i, j) of m rows of n comes before position m n. */
  lemma PositionBound(m: nat, n: nat, i: nat, j: nat)
    requires i < m && j < n
    ensures Position(n, i, j) + 1 <= m * n
  {
    MulSucc(i, n);
    MulMonotone(n, i + 1, m);
  }

  /** Slot n i + j of size bytes begins after i whole rows of n slots and
      j slots of row i. */
  lemma SlotOffset(n: nat, size: nat, i: nat, j: nat)
    requires j < n
    ensures Start(Position(n, i, j), size) == i * (n * size) + Start(j, size)
    ensures Start(j, size) + size <= n * size
  {
    assert (n * i + j) * size == n * i * size + j * size;
    MulAssoc(i, n, size);
    MulSucc(j, size);
    MulMonotone(size, j + 1, n);
  }

  /** Where slot k of a sequence of len-byte slots begins. */
  function Start(k: nat, len: nat): nat
  {
    k * len
  }

  /** Byte strings concatenated in order, as by repeated +=. */
  function Join(parts: seq<seq<byte>>): seq<byte>
  {
    if parts == [] then [] else Join(parts[..|parts| - 1]) + parts[|parts| - 1]
  }

  /** Concatenating N strings of L bytes gives N L bytes. */
  lemma {:induction false} JoinLength(parts: seq<seq<byte>>, len: nat)
    requires forall k :: 0 <= k < |parts| ==> |parts[k]| == len
    ensures |Join(parts)| == |parts| * len
  {
    if parts != [] {
      JoinLength(parts[..|parts| - 1], len);
      MulSucc(|parts| - 1, len);
    }
  }

  /** ... and string k fills bytes k L up to k L + L. */
  lemma {:induction false} JoinAt(parts: seq<seq<byte>>, len: nat, k: nat)
    requires forall t :: 0 <= t < |parts| ==> |parts[t]| == len
    requires k < |parts|
    ensures Start(k, len) + len <= |Join(parts)| && Join(parts)[Start(k, len) .. Start(k, len) + len] == parts[k]
  {
    var init := parts[..|parts| - 1];
    JoinLength(init, len);
    JoinLength(parts, len);
    MulSucc(k, len);
    assert Join(parts) == Join(init) + parts[|parts| - 1];
    if k < |init| {
      JoinAt(init, len, k);
      MulMonotone(len, k + 1, |init|);
    }
  }

  /** The strings of the rows, each row joined, concatenated in order. */
  function Concat(rows: seq<seq<seq<byte>>>): seq<byte>
  {
    if rows == [] then [] else Concat(rows[..|rows| - 1]) + Join(rows[|rows| - 1])
  }

  /** Every row holds n strings of size bytes each. */
  predicate Uniform(parts: seq<seq<seq<byte>>>, n: nat, size: nat)
  {
    (forall i :: 0 <= i < |parts| ==> |parts[i]| == n) &&
    forall i, j :: 0 <= i < |parts| && 0 <= j < n ==> |parts[i][j]| == size
  }

  /** Rows of n strings of size bytes concatenate to |rows| (n size) bytes. */
  lemma {:induction false} ConcatLength(rows: seq<seq<seq<byte>>>, n: nat, size: nat)
    requires Uniform(rows, n, size)
    ensures |Concat(rows)| == |rows| * (n * size)
  {
    if rows != [] {
      ConcatLength(rows[..|rows| - 1], n, size);
      JoinLength(rows[|rows| - 1], size);
      MulSucc(|rows| - 1, n * size);
    }
  }

  /** ... and string j of row i fills slot n i + j. */
  lemma {:induction false} ConcatAt(rows: seq<seq<seq<byte>>>, n: nat, size: nat, i: nat, j: nat)
    requires Uniform(rows, n, size) && i < |rows| && j < n
    ensures Start(Position(n, i, j), size) + size <= |Concat(rows)|
    ensures Concat(rows)[Start(Position(n, i, j), size) .. Start(Position(n, i, j), size) + size] == rows[i][j]
  {
    var init := rows[..|rows| - 1];
    ConcatLength(init, n, size);
    SlotOffset(n, size, i, j);
    assert Concat(rows) == Concat(init) + Join(rows[|rows| - 1]);
    if i < |init| {
      ConcatAt(init, n, size, i, j);
    } else {
      JoinLength(rows[i], size);
      JoinAt(rows[i], size, j);
    }
  }

  /** The encodings of the entries of one row. */
  function RowEncodings(row: seq<Poly>, l: Option<int>): (es: seq<Result<seq<byte>>>)
    requires forall j :: 0 <= j < |row| ==> |row[j].coeffs| >= 1
    ensures |es| == |row| && forall j :: 0 <= j < |row| ==> es[j] == Encode(row[j], l)
  {
    seq(|row|, j requires 0 <= j < |row| => Encode(row[j], l))
  }

  /** The encodings of the entries, row by row. */
  function EncodeTable(a: Mat, l: Option<int>): (t: seq<seq<Result<seq<byte>>>>)
    requires WellFormed(a)
    ensures |t| == a.m && forall i :: 0 <= i < a.m ==> |t[i]| == a.n
    ensures forall i, j :: 0 <= i < a.m && 0 <= j < a.n ==> t[i][j] == Encode(a.rows[i][j], l)
  {
    seq(a.m, i requires 0 <= i < a.m => RowEncodings(a.rows[i], l))
  }

  /** The encodings of one row joined, or the first error among them. */
  function JoinedRow(es: seq<Result<seq<byte>>>): (r: Result<seq<byte>>)
  {
    var parts :- Collect(es);
    Ok(Join(parts))
  }

  /** The inner loop of Matrix.encode: the entries of one row encoded and
      appended in order; the first that cannot be encoded raises. */
  method EncodeRow(row: seq<Poly>, l: Option<int>) returns (r: Result<seq<byte>>)
    requires forall j :: 0 <= j < |row| ==> |row[j].coeffs| >= 1
    ensures r == JoinedRow(RowEncodings(row, l))
  {
    ghost var es := RowEncodings(row, l);
    ghost var parts: seq<seq<byte>> := [];
    var output: seq<byte> := [];
    var j := 0;
    while j < |row|
      invariant 0 <= j <= |row|
      invariant Collect(es[..j]) == Ok(parts) && output == Join(parts)
    {
      var e := Polynomials.Encode(row[j], l);
      CollectStep(es, j, parts);
      if e.Err? {
        return Err(e.error);
      }
      assert (parts + [e.value])[..|parts|] == parts;
      output := output + e.value;
      parts := parts + [e.value];
      j := j + 1;
    }
    assert es[..j] == es;
    r := Ok(output);
  }


  /** Matrix.encode: the encodings of the entries appended row after row;
      the first entry that cannot be encoded raises. */
  function MatEncode(a: Mat, l: Option<int>): (r: Result<seq<byte>>)
    requires WellFormed(a)
  {
    var parts :- CollectRows(EncodeTable(a, l));
    Ok(Concat(parts))
  }

  /** encode succeeds exactly when every entry can be encoded, and otherwise
      raises the error of an entry. */
  lemma MatEncodeOk(a: Mat, l: Option<int>)
    requires WellFormed(a)
    ensures MatEncode(a, l).Ok? <==>
      forall i, j :: 0 <= i < a.m && 0 <= j < a.n ==> Encode(a.rows[i][j], l).Ok?
    ensures MatEncode(a, l).Err? ==>
      exists i, j :: 0 <= i < a.m && 0 <= j < a.n && Encode(a.rows[i][j], l) == Err(MatEncode(a, l).error)
  {
    var t := EncodeTable(a, l);
    if CollectRows(t).Err? {
      var i, j :| 0 <= i < |t| && 0 <= j < |t[i]| && t[i][j] == Err(CollectRows(t).error);
      assert Encode(a.rows[i][j], l) == Err(MatEncode(a, l).error);
    }
  }

  /** Every coefficient fits in l >= 1 bits, and an entry's l-bit fields fill
      exactly size bytes. */
  predicate Encodable(a: Mat, l: nat, size: nat)
  {
    WellFormed(a) && l >= 1 && a.ring.n * l == 8 * size &&
    forall i, j :: 0 <= i < a.m && 0 <= j < a.n ==> FitsWidth(a.rows[i][j].coeffs, l)
  }

  /** With a width l >= 1 that every coefficient fits and that makes whole
      bytes (size = ring.n l / 8 of them), every entry encodes to size bytes. */
  lemma EncodeTableUniform(a: Mat, l: nat, size: nat)
    requires Encodable(a, l, size)
    ensures CollectRows(EncodeTable(a, Some(l))).Ok?
    ensures var parts := CollectRows(EncodeTable(a, Some(l))).value;
      |parts| == a.m && Uniform(parts, a.n, size) &&
      forall i, j :: 0 <= i < a.m && 0 <= j < a.n ==> Encode(a.rows[i][j], Some(l)) == Ok(parts[i][j])
  {
    DivModUnique(a.ring.n * l, 8, size, 0);
    forall i, j | 0 <= i < a.m && 0 <= j < a.n
      ensures Encode(a.rows[i][j], Some(l)).Ok? && |Encode(a.rows[i][j], Some(l)).value| == size
    {
      EncodeDecodeRoundTrip(a.ring, a.rows[i][j], l);
    }
  }

  /** ... so encode succeeds with m n size bytes ... */
  lemma MatEncodeLength(a: Mat, l: nat, size: nat)
    requires Encodable(a, l, size)
    ensures MatEncode(a, Some(l)).Ok?
    ensures |MatEncode(a, Some(l)).value| == a.m * a.n * size
  {
    EncodeTableUniform(a, l, size);
    ConcatLength(CollectRows(EncodeTable(a, Some(l))).value, a.n, size);
    MulAssoc(a.m, a.n, size);
  }

  /** A successful encode is the concatenation of the collected table. */
  lemma MatEncodeParts(a: Mat, l: Option<int>)
    requires WellFormed(a) && CollectRows(EncodeTable(a, l)).Ok?
    ensures MatEncode(a, l) == Ok(Concat(CollectRows(EncodeTable(a, l)).value))
  {
  }

  // ---------------------------------------------------------------------------
  // Module.decode
  // ---------------------------------------------------------------------------

  /** The width decode works with: a given width is refused only when the
      input is too short for m n entries of it; an omitted one is inferred
      by divmod, which raises on a zero divisor and is refused unless
      exact. */
  function ModuleWidth(ringN: nat, len: nat, m: nat, n: nat, l: Option<int>): (r: Result<int>)
    ensures l.Some? && r.Ok? ==> r.value == l.value
    ensures l.None? && r.Ok? ==> ringN * m * n * r.value == 8 * len
  {
    match l
    case None =>
      var d := ringN * m * n;
      if d == 0 then Err(DivisionByZero)
      else if (8 * len) % d != 0 then Err(BadLength)
      else
        DivModIdentity(8 * len, d);
        Ok(8 * len / d)
    case Some(w) =>
      if ringN * w * m * n > 8 * len then Err(BadLength) else Ok(w)
  }

  /** The number of slices range(0, len, c) yields. */
  function NumChunks(len: nat, c: nat): nat
    requires c >= 1
  {
    (len + c - 1) / c
  }

  /** Slice t exists exactly when it starts inside the input. */
  lemma ChunkIndex(len: nat, c: nat, t: nat)
    requires c >= 1
    ensures t < NumChunks(len, c) <==> t * c < len
  {
    var q := NumChunks(len, c);
    DivModBounds(len + c - 1, c);
    if t < q {
      MulMonotone(c, t + 1, q);
      MulSucc(t, c);
    } else {
      MulMonotone(c, q, t);
    }
  }

  /** The byte chunks of decode: slices of c bytes from the start, the last
      one possibly shorter; a negative step gives no slices. */
  function Chunks(input: seq<byte>, c: int): (r: seq<seq<byte>>)
    requires c != 0
  {
    if c < 0 then []
    else seq(NumChunks(|input|, c), t requires 0 <= t < NumChunks(|input|, c) => Chunk(input, c, t))
  }

  function Chunk(input: seq<byte>, c: nat, t: nat): seq<byte>
    requires c >= 1 && t < NumChunks(|input|, c)
  {
    ChunkIndex(|input|, c, t);
    input[t * c .. Min(t * c + c, |input|)]
  }

  /** A chunk that fits wholly in the input is there, with its c bytes. */
  lemma ChunkAt(input: seq<byte>, c: nat, k: nat)
    requires c >= 1 && k * c + c <= |input|
    ensures k < |Chunks(input, c)| && Chunks(input, c)[k] == input[k * c .. k * c + c]
  {
    ChunkIndex(|input|, c, k);
  }

  /** Entry number k of decode: the ring decode of chunk k with width w; an
      index past the last chunk raises. */
  function DecodeEntry(ring: Ring, chunks: seq<seq<byte>>, k: nat, w: int, isNtt: bool): Result<Poly>
    requires ValidRing(ring)
  {
    if k < |chunks| then DecodeSpec(ring, chunks[k], Some(w), isNtt) else Err(OutOfRange)
  }

  /** Row i of the decoded matrix: entries n i up to n i + n. */
  function DecodeRowEntries(ring: Ring, chunks: seq<seq<byte>>, w: int, n: nat, i: nat, isNtt: bool)
    : (es: seq<Result<Poly>>)
    requires ValidRing(ring)
    ensures |es| == n && forall j :: 0 <= j < n ==> es[j] == DecodeEntry(ring, chunks, Position(n, i, j), w, isNtt)
  {
    seq(n, j requires 0 <= j < n => DecodeEntry(ring, chunks, Position(n, i, j), w, isNtt))
  }

  /** Entry (i, j) of the decoded matrix is entry number n i + j. */
  function DecodeTable(ring: Ring, chunks: seq<seq<byte>>, w: int, m: nat, n: nat, isNtt: bool)
    : (t: seq<seq<Result<Poly>>>)
    requires ValidRing(ring)
    ensures |t| == m && forall i :: 0 <= i < m ==> t[i] == DecodeRowEntries(ring, chunks, w, n, i, isNtt)
  {
    seq(m, i requires 0 <= i < m => DecodeRowEntries(ring, chunks, w, n, i, isNtt))
  }

  /** Module.decode: the width checked or inferred, the input cut into chunks
      of 32 w bytes (a zero step is refused by range), the matrix filled in
      row-major order, then built by the Module. */
  function ModuleDecodeSpec(ring: Ring, input: seq<byte>, m: nat, n: nat, l: Option<int>, isNtt: bool)
    : Result<Mat>
    requires ValidRing(ring)
  {
    var w :- ModuleWidth(ring.n, |input|, m, n, l);
    if 32 * w == 0 then Err(BadLength)
    else
      var rows :- CollectRows(DecodeTable(ring, Chunks(input, 32 * w), w, m, n, isNtt));
      Build(ring, Nested(rows))
  }

  /** Module.decode: the width checked or inferred, the chunks cut, then the
      outer loop over the rows; the first entry that fails raises. */
  method ModuleDecode(ring: Ring, input: seq<byte>, m: nat, n: nat, l: Option<int>, isNtt: bool)
    returns (r: Result<Mat>)
    requires ValidRing(ring)
    ensures r == ModuleDecodeSpec(ring, input, m, n, l, isNtt)
  {
    var width := ModuleWidth(ring.n, |input|, m, n, l);
    if width.Err? {
      return Err(width.error);
    }
    var w := width.value;
    var chunkLength := 32 * w;
    if chunkLength == 0 {
      return Err(BadLength);
    }
    var byteChunks := Chunks(input, chunkLength);
    ghost var table := DecodeTable(ring, byteChunks, w, m, n, isNtt);
    ghost var outs := Collected(table);
    var matrix: Rows := [];
    for i := 0 to m
      invariant Collect(outs[..i]) == Ok(matrix)
    {
      var row := DecodeRow(ring, byteChunks, w, n, i, isNtt);
      CollectStep(outs, i, matrix);
      if row.Err? {
        return Err(row.error);
      }
      matrix := matrix + [row.value];
    }
    assert outs[..m] == outs;
    return Build(ring, Nested(matrix));
  }

  /** The inner loop of Module.decode: entry (i, j) is the ring decode of
      chunk n i + j, an index past the last chunk raising. */
  method DecodeRow(ring: Ring, byteChunks: seq<seq<byte>>, w: int, n: nat, i: nat, isNtt: bool)
    returns (r: Result<seq<Poly>>)
    requires ValidRing(ring)
    ensures r == Collect(DecodeRowEntries(ring, byteChunks, w, n, i, isNtt))
  {
    ghost var entries := DecodeRowEntries(ring, byteChunks, w, n, i, isNtt);
    var row: seq<Poly> := [];
    for j := 0 to n
      invariant Collect(entries[..j]) == Ok(row)
    {
      var k := Position(n, i, j);
      var mij: Result<Poly>;
      if k < |byteChunks| {
        mij := Decode(ring, byteChunks[k], Some(w), isNtt);
      } else {
        mij := Err(OutOfRange);
      }
      CollectStep(entries, j, row);
      if mij.Err? {
        return Err(mij.error);
      }
      row := row + [mij.value];
    }
    assert entries[..n] == entries;
    return Ok(row);
  }

  /** With 256 coefficients per entry and a width w >= 1, entry (i, j)
      decodes the 32 w bytes at slot n i + j, when the input holds m n
      slots. */
  lemma DecodeSlot(ring: Ring, input: seq<byte>, m: nat, n: nat, w: nat, isNtt: bool, i: nat, j: nat)
    requires ValidRing(ring) && ring.n == 256 && w >= 1 && 256 * w * m * n <= 8 * |input|
    requires i < m && j < n
    ensures Start(Position(n, i, j), 32 * w) + 32 * w <= |input|
    ensures var s := Start(Position(n, i, j), 32 * w);
      DecodeTable(ring, Chunks(input, 32 * w), w, m, n, isNtt)[i][j] ==
        DecodeSpec(ring, input[s .. s + 32 * w], Some(w), isNtt)
    ensures var s := Start(Position(n, i, j), 32 * w);
      DecodeSpec(ring, input[s .. s + 32 * w], Some(w), isNtt).Ok?
  {
    var c := 32 * w;
    var k := Position(n, i, j);
    PositionBound(m, n, i, j);
    MulMonotone(c, k + 1, m * n);
    MulSucc(k, c);
    assert c * (m * n) * 8 == 256 * w * m * n;
    ChunkAt(input, c, k);
  }

  /** With 256 coefficients per entry and a width w >= 1, decode succeeds
      exactly when there is at least one row and the input holds m n
      entries of 32 w bytes. */
  lemma ModuleDecodeOk(ring: Ring, input: seq<byte>, m: nat, n: nat, w: nat, isNtt: bool)
    requires ValidRing(ring) && ring.n == 256 && w >= 1
    ensures ModuleDecodeSpec(ring, input, m, n, Some(w), isNtt).Ok? <==>
      m >= 1 && 256 * w * m * n <= 8 * |input|
    ensures 256 * w * m * n > 8 * |input| ==> ModuleDecodeSpec(ring, input, m, n, Some(w), isNtt) == Err(BadLength)
  {
    if 256 * w * m * n <= 8 * |input| {
      DecodeTableOk(ring, input, m, n, w, isNtt);
    }
  }

  /** When the input is long enough, every slot of the table decodes. */
  lemma DecodeTableOk(ring: Ring, input: seq<byte>, m: nat, n: nat, w: nat, isNtt: bool)
    requires ValidRing(ring) && ring.n == 256 && w >= 1 && 256 * w * m * n <= 8 * |input|
    ensures var t := DecodeTable(ring, Chunks(input, 32 * w), w, m, n, isNtt);
      forall i, j :: 0 <= i < m && 0 <= j < n ==> t[i][j].Ok?
  {
    var table: seq<seq<Result<Poly>>> := DecodeTable(ring, Chunks(input, 32 * w), w, m, n, isNtt);
    forall i, j | 0 <= i < m && 0 <= j < n
      ensures table[i][j].Ok?
    {
      DecodeSlot(ring, input, m, n, w, isNtt, i, j);
    }
  }

  /** ... and then the matrix is m x n over the ring ... */
  lemma ModuleDecodeShape(ring: Ring, input: seq<byte>, m: nat, n: nat, w: nat, isNtt: bool)
    requires ValidRing(ring) && ring.n == 256 && w >= 1
    requires ModuleDecodeSpec(ring, input, m, n, Some(w), isNtt).Ok?
    ensures m >= 1 && 256 * w * m * n <= 8 * |input|
    ensures var a := ModuleDecodeSpec(ring, input, m, n, Some(w), isNtt).value;
      WellFormed(a) && a.ring == ring && a.m == m && a.n == n
  {
    ModuleDecodeOk(ring, input, m, n, w, isNtt);
    var rows := CollectRows(DecodeTable(ring, Chunks(input, 32 * w), w, m, n, isNtt)).value;
    forall i, j | 0 <= i < m && 0 <= j < n
      ensures Fits(ring, rows[i][j])
    {
      DecodeSlot(ring, input, m, n, w, isNtt, i, j);
      var s := Start(Position(n, i, j), 32 * w);
      DecodeMeaning(ring, input[s .. s + 32 * w], Some(w), isNtt);
    }
    BuildRows(Mat(ring, rows, m, n));
  }

  /** ... entry (i, j) being the ring decode of the 32 w bytes at slot
      n i + j. */
  lemma ModuleDecodeEntry(ring: Ring, input: seq<byte>, m: nat, n: nat, w: nat, isNtt: bool, a: Mat, i: nat, j: nat)
    requires ValidRing(ring) && ring.n == 256 && w >= 1
    requires ModuleDecodeSpec(ring, input, m, n, Some(w), isNtt) == Ok(a) && i < m && j < n
    ensures i < |a.rows| && j < |a.rows[i]|
    ensures var s := Start(Position(n, i, j), 32 * w);
      s + 32 * w <= |input| && DecodeSpec(ring, input[s .. s + 32 * w], Some(w), isNtt) == Ok(a.rows[i][j])
  {
    ModuleDecodeOk(ring, input, m, n, w, isNtt);
    var table: seq<seq<Result<Poly>>> := DecodeTable(ring, Chunks(input, 32 * w), w, m, n, isNtt);
    var rows := CollectRows(table).value;
    assert a.rows == rows;
    DecodeSlot(ring, input, m, n, w, isNtt, i, j);
  }

  /** Bytes after the m n entries are ignored. */
  lemma ModuleDecodeTrailing(ring: Ring, input: seq<byte>, extra: seq<byte>, m: nat, n: nat, w: nat, isNtt: bool)
    requires ValidRing(ring) && ring.n == 256 && w >= 1
    requires ModuleDecodeSpec(ring, input, m, n, Some(w), isNtt).Ok?
    ensures ModuleDecodeSpec(ring, input + extra, m, n, Some(w), isNtt) ==
      ModuleDecodeSpec(ring, input, m, n, Some(w), isNtt)
  {
    ModuleDecodeOk(ring, input, m, n, w, isNtt);
    TableTrailing(ring, input, extra, m, n, w, isNtt);
  }

  /** The decode table of a longer input agrees on its first m n slots. */
  lemma TableTrailing(ring: Ring, input: seq<byte>, extra: seq<byte>, m: nat, n: nat, w: nat, isNtt: bool)
    requires ValidRing(ring) && ring.n == 256 && w >= 1 && 256 * w * m * n <= 8 * |input|
    ensures DecodeTable(ring, Chunks(input + extra, 32 * w), w, m, n, isNtt) ==
      DecodeTable(ring, Chunks(input, 32 * w), w, m, n, isNtt)
  {
    var t1 := DecodeTable(ring, Chunks(input + extra, 32 * w), w, m, n, isNtt);
    var t2 := DecodeTable(ring, Chunks(input, 32 * w), w, m, n, isNtt);
    forall i | 0 <= i < m
      ensures t1[i] == t2[i]
    {
      forall j | 0 <= j < n
        ensures t1[i][j] == t2[i][j]
      {
        DecodeSlot(ring, input, m, n, w, isNtt, i, j);
        DecodeSlot(ring, input + extra, m, n, w, isNtt, i, j);
        var s := Start(Position(n, i, j), 32 * w);
        assert (input + extra)[s .. s + 32 * w] == input[s .. s + 32 * w];
      }
    }
  }

  /** Omitting the width infers the one that makes the input exactly m n
      entries long. */
  lemma ModuleDecodeInferred(ring: Ring, input: seq<byte>, m: nat, n: nat, w: int, isNtt: bool)
    requires ValidRing(ring) && ring.n * m * n >= 1 && 8 * |input| == ring.n * m * n * w
    ensures ModuleDecodeSpec(ring, input, m, n, None, isNtt) == ModuleDecodeSpec(ring, input, m, n, Some(w), isNtt)
  {
    ModuleWidthInferred(ring.n, |input|, m, n, w);
  }

  /** The inferred width is the one that makes the input exactly m n
      entries long, and that width given explicitly is accepted. */
  lemma ModuleWidthInferred(ringN: nat, len: nat, m: nat, n: nat, w: int)
    requires ringN * m * n >= 1 && 8 * len == ringN * m * n * w
    ensures ModuleWidth(ringN, len, m, n, None) == Ok(w)
    ensures ModuleWidth(ringN, len, m, n, Some(w)) == Ok(w)
  {
    DivModUnique(8 * len, ringN * m * n, w, 0);
    assert ringN * w * m * n == ringN * m * n * w;
  }

  /** Decoding the encoding of a matrix whose entries fit in l >= 1 bits and
      share one form gives the matrix back, with l given or inferred. */
  lemma MatEncodeDecode(a: Mat, l: nat, isNtt: bool)
    requires WellFormed(a) && a.ring.n == 256 && l >= 1 && a.m >= 1
    requires forall i, j :: 0 <= i < a.m && 0 <= j < a.n ==> FitsWidth(a.rows[i][j].coeffs, l)
    requires forall i, j :: 0 <= i < a.m && 0 <= j < a.n ==> a.rows[i][j].isNtt == isNtt
    ensures MatEncode(a, Some(l)).Ok?
    ensures ModuleDecodeSpec(a.ring, MatEncode(a, Some(l)).value, a.m, a.n, Some(l), isNtt) == Ok(a)
    ensures a.n >= 1 ==>
      ModuleDecodeSpec(a.ring, MatEncode(a, Some(l)).value, a.m, a.n, None, isNtt) == Ok(a)
  {
    MatEncodeLength(a, l, 32 * l);
    var bytes := MatEncode(a, Some(l)).value;
    DivModUnique(256 * l, 8, 32 * l, 0);
    EncodedSize(a.m, a.n, l, |bytes|);
    DecodeOfEncoding(a, l, isNtt);
    if a.n >= 1 {
      ModuleDecodeInferred(a.ring, bytes, a.m, a.n, l, isNtt);
    }
  }

  /** A k x 1 column and its 1 x k transpose encode to the same bytes, so
      decoding a column's encoding as one row gives the transpose: what
      decryption does with the secret key keygen encodes. */
  lemma ColumnDecodesAsRow(a: Mat, l: nat, isNtt: bool)
    requires WellFormed(a) && a.ring.n == 256 && l >= 1 && a.m >= 1 && a.n == 1
    requires forall i :: 0 <= i < a.m ==> FitsWidth(a.rows[i][0].coeffs, l) && a.rows[i][0].isNtt == isNtt
    ensures MatEncode(a, Some(l)).Ok?
    ensures ModuleDecodeSpec(a.ring, MatEncode(a, Some(l)).value, 1, a.m, Some(l), isNtt) == Transpose(a)
  {
    ColumnEncodesAsRow(a, l);
    var t := Transpose(a).value;
    assert forall i, j :: 0 <= i < t.m && 0 <= j < t.n ==>
      FitsWidth(t.rows[i][j].coeffs, l) && t.rows[i][j].isNtt == isNtt by {
      forall i, j | 0 <= i < t.m && 0 <= j < t.n
        ensures FitsWidth(t.rows[i][j].coeffs, l) && t.rows[i][j].isNtt == isNtt
      {
        assert t.rows[i][j] == a.rows[j][0];
      }
    }
    DecodeOfEncoding(t, l, isNtt);
  }

  /** The column and its transpose encode to the same bytes. */
  lemma ColumnEncodesAsRow(a: Mat, l: nat)
    requires WellFormed(a) && a.ring.n == 256 && l >= 1 && a.m >= 1 && a.n == 1
    requires forall i :: 0 <= i < a.m ==> FitsWidth(a.rows[i][0].coeffs, l)
    ensures Transpose(a).Ok?
    ensures var t := Transpose(a).value;
      WellFormed(t) && t.ring == a.ring && t.m == 1 && t.n == a.m &&
      forall j :: 0 <= j < a.m ==> t.rows[0][j] == a.rows[j][0]
    ensures MatEncode(a, Some(l)).Ok? && MatEncode(a, Some(l)) == MatEncode(Transpose(a).value, Some(l))
  {
    TransposeMeaning(a);
    var t := Transpose(a).value;
    assert Encodable(a, l, 32 * l);
    assert Encodable(t, l, 32 * l);
    EncodeTableUniform(a, l, 32 * l);
    EncodeTableUniform(t, l, 32 * l);
    var pa := CollectRows(EncodeTable(a, Some(l))).value;
    var pt := CollectRows(EncodeTable(t, Some(l))).value;
    var entries := pt[0];
    assert pa == Singletons(entries) by {
      forall i | 0 <= i < a.m
        ensures pa[i] == [entries[i]]
      {
        assert Ok(pa[i][0]) == Encode(a.rows[i][0], Some(l)) == Ok(entries[i]);
      }
    }
    ConcatSingletons(entries);
    assert |pt| == 1 && pt[..0] == [];
    assert Concat(pt) == Join(entries);
    MatEncodeParts(a, Some(l));
    MatEncodeParts(t, Some(l));
  }

  /** Each string made a row of its own. */
  function Singletons(parts: seq<seq<byte>>): (rows: seq<seq<seq<byte>>>)
    ensures |rows| == |parts| && forall i :: 0 <= i < |parts| ==> rows[i] == [parts[i]]
  {
    seq(|parts|, i requires 0 <= i < |parts| => [parts[i]])
  }

  /** Rows of one string each concatenate to the strings joined. */
  lemma {:induction false} ConcatSingletons(parts: seq<seq<byte>>)
    ensures Concat(Singletons(parts)) == Join(parts)
  {
    if parts != [] {
      var init := parts[..|parts| - 1];
      ConcatSingletons(init);
      assert Singletons(parts)[..|parts| - 1] == Singletons(init);
      assert Join([parts[|parts| - 1]]) == Join([]) + parts[|parts| - 1];
    }
  }

  /** The round trip with the width given. */
  lemma DecodeOfEncoding(a: Mat, l: nat, isNtt: bool)
    requires WellFormed(a) && a.ring.n == 256 && l >= 1 && a.m >= 1
    requires forall i, j :: 0 <= i < a.m && 0 <= j < a.n ==> FitsWidth(a.rows[i][j].coeffs, l)
    requires forall i, j :: 0 <= i < a.m && 0 <= j < a.n ==> a.rows[i][j].isNtt == isNtt
    ensures MatEncode(a, Some(l)).Ok?
    ensures ModuleDecodeSpec(a.ring, MatEncode(a, Some(l)).value, a.m, a.n, Some(l), isNtt) == Ok(a)
  {
    MatEncodeLength(a, l, 32 * l);
    var bytes := MatEncode(a, Some(l)).value;
    DivModUnique(256 * l, 8, 32 * l, 0);
    EncodedSize(a.m, a.n, l, |bytes|);
    TableOfEncoding(a, l, isNtt, bytes);
    var table := DecodeTable(a.ring, Chunks(bytes, 32 * l), l, a.m, a.n, isNtt);
    CollectRowsOfOk(table, a.rows);
    BuildRows(a);
  }

  /** A table whose entries all succeed collects to their values. */
  lemma CollectRowsOfOk<T>(t: seq<seq<Result<T>>>, rows: seq<seq<T>>)
    requires |t| == |rows| && forall i :: 0 <= i < |t| ==> |t[i]| == |rows[i]|
    requires forall i, j :: 0 <= i < |t| && 0 <= j < |t[i]| ==> t[i][j] == Ok(rows[i][j])
    ensures CollectRows(t) == Ok(rows)
  {
    assert CollectRows(t).Ok?;
    var r := CollectRows(t).value;
    forall i | 0 <= i < |t|
      ensures r[i] == rows[i]
    {
      assert |r[i]| == |rows[i]|;
      assert forall j :: 0 <= j < |t[i]| ==> r[i][j] == rows[i][j];
    }
    assert r == rows;
  }

  /** Slot n i + j of the encoding decodes to entry (i, j). */
  lemma TableOfEncoding(a: Mat, l: nat, isNtt: bool, bytes: seq<byte>)
    requires WellFormed(a) && a.ring.n == 256 && l >= 1
    requires forall r, c :: 0 <= r < a.m && 0 <= c < a.n ==> FitsWidth(a.rows[r][c].coeffs, l)
    requires forall r, c :: 0 <= r < a.m && 0 <= c < a.n ==> a.rows[r][c].isNtt == isNtt
    requires MatEncode(a, Some(l)) == Ok(bytes)
    ensures forall i, j :: 0 <= i < a.m && 0 <= j < a.n ==>
      DecodeTable(a.ring, Chunks(bytes, 32 * l), l, a.m, a.n, isNtt)[i][j] == Ok(a.rows[i][j])
  {
    EncodeTableUniform(a, l, 32 * l);
    var parts := CollectRows(EncodeTable(a, Some(l))).value;
    MatEncodeParts(a, Some(l));
    PartsDecode(a, l, isNtt, parts);
    ConcatDecodes(a.ring, parts, a.rows, l, a.m, a.n, isNtt);
  }

  /** Each entry's encoding decodes back to the entry. */
  lemma PartsDecode(a: Mat, l: nat, isNtt: bool, parts: seq<seq<seq<byte>>>)
    requires WellFormed(a) && a.ring.n == 256 && l >= 1
    requires forall r, c :: 0 <= r < a.m && 0 <= c < a.n ==> FitsWidth(a.rows[r][c].coeffs, l)
    requires forall r, c :: 0 <= r < a.m && 0 <= c < a.n ==> a.rows[r][c].isNtt == isNtt
    requires |parts| == a.m && Uniform(parts, a.n, 32 * l)
    requires forall r, c :: 0 <= r < a.m && 0 <= c < a.n ==> Encode(a.rows[r][c], Some(l)) == Ok(parts[r][c])
    ensures forall i, j :: 0 <= i < a.m && 0 <= j < a.n ==>
      DecodeSpec(a.ring, parts[i][j], Some(l), isNtt) == Ok(a.rows[i][j])
  {
    DivModUnique(a.ring.n * l, 8, 32 * l, 0);
    forall i, j | 0 <= i < a.m && 0 <= j < a.n
      ensures DecodeSpec(a.ring, parts[i][j], Some(l), isNtt) == Ok(a.rows[i][j])
    {
      EncodeDecodeRoundTrip(a.ring, a.rows[i][j], l);
    }
  }

  /** When string j of row i decodes to rows[i][j], the table of slot
      decodings of the concatenation holds rows[i][j] at (i, j). */
  lemma ConcatDecodes(ring: Ring, parts: seq<seq<seq<byte>>>, rows: Rows, l: nat, m: nat, n: nat, isNtt: bool)
    requires ValidRing(ring) && ring.n == 256 && l >= 1
    requires |parts| == m && Uniform(parts, n, 32 * l) && Shaped(rows, m, n)
    requires forall i, j :: 0 <= i < m && 0 <= j < n ==> DecodeSpec(ring, parts[i][j], Some(l), isNtt) == Ok(rows[i][j])
    ensures forall i, j :: 0 <= i < m && 0 <= j < n ==>
      DecodeTable(ring, Chunks(Concat(parts), 32 * l), l, m, n, isNtt)[i][j] == Ok(rows[i][j])
  {
    ConcatLength(parts, n, 32 * l);
    MulAssoc(m, n, 32 * l);
    EncodedSize(m, n, l, |Concat(parts)|);
    forall i, j | 0 <= i < m && 0 <= j < n
      ensures DecodeTable(ring, Chunks(Concat(parts), 32 * l), l, m, n, isNtt)[i][j] == Ok(rows[i][j])
    {
      ConcatSlotDecodes(ring, parts, l, m, n, isNtt, i, j);
    }
  }

  lemma ConcatSlotDecodes(ring: Ring, parts: seq<seq<seq<byte>>>, l: nat, m: nat, n: nat, isNtt: bool, i: nat, j: nat)
    requires ValidRing(ring) && ring.n == 256 && l >= 1 && 256 * l * m * n <= 8 * |Concat(parts)|
    requires |parts| == m && Uniform(parts, n, 32 * l) && i < m && j < n
    ensures DecodeTable(ring, Chunks(Concat(parts), 32 * l), l, m, n, isNtt)[i][j] ==
      DecodeSpec(ring, parts[i][j], Some(l), isNtt)
  {
    ConcatAt(parts, n, 32 * l, i, j);
    DecodeSlot(ring, Concat(parts), m, n, l, isNtt, i, j);
  }

  /** m n entries of 32 l bytes are exactly m n entries of 256 l bits. */
  lemma EncodedSize(m: nat, n: nat, l: nat, len: nat)
    requires len == m * n * (32 * l)
    ensures 256 * l * m * n == 8 * len && 8 * len == 256 * m * n * l
    ensures m >= 1 && n >= 1 ==> 256 * m * n >= 1
  {
    if m >= 1 && n >= 1 {
      MulAtLeast(m, n);
    }
  }

  // ---------------------------------------------------------------------------
  // The mutable Matrix object
  // ---------------------------------------------------------------------------

  /** The outer loop of Matrix.encode: the joined rows appended in order;
      the first row holding an entry that cannot be encoded raises. */
  method EncodeRows(rows: Rows, ghost outs: seq<Result<seq<seq<byte>>>>, l: Option<int>)
    returns (r: Result<seq<byte>>)
    requires forall i, j :: 0 <= i < |rows| && 0 <= j < |rows[i]| ==> |rows[i][j].coeffs| >= 1
    requires |outs| == |rows|
    requires forall i :: 0 <= i < |rows| ==> outs[i] == Collect(RowEncodings(rows[i], l))
    ensures r == (var parts :- Collect(outs); Ok(Concat(parts)))
  {
    ghost var acc: seq<seq<seq<byte>>> := [];
    var output: seq<byte> := [];
    var i := 0;
    while i < |rows|
      invariant 0 <= i <= |rows|
      invariant Collect(outs[..i]) == Ok(acc) && output == Concat(acc)
    {
      var row := EncodeRow(rows[i], l);
      CollectStep(outs, i, acc);
      if row.Err? {
        return Err(row.error);
      }
      ghost var parts := outs[i].value;
      assert (acc + [parts])[..|acc|] == acc;
      output := output + row.value;
      acc := acc + [parts];
      i := i + 1;
    }
    assert outs[..i] == outs;
    r := Ok(output);
  }

  /** A Module.Matrix object: the parent Module (its ring) is fixed; the rows
      and the dimensions are what transpose_self and the conversions update. */
  class Matrix {
    const ring: Ring
    var rows: Rows
    var m: nat
    var n: nat

    predicate Valid()
      reads this
    {
      WellFormed(Value())
    }

    /** The value the object currently holds. */
    function Value(): Mat
      reads this
    {
      Mat(ring, rows, m, n)
    }

    constructor (a: Mat)
      requires WellFormed(a)
      ensures Value() == a && Valid()
    {
      ring := a.ring;
      rows := a.rows;
      m := a.m;
      n := a.n;
    }

    /** transpose_self: swaps the dimensions and stores zip(*rows), which has
        no rows when the matrix has no columns. */
    method TransposeSelf()
      requires Valid()
      modifies this
      ensures Valid()
      ensures m == old(n) && n == old(m) && rows == Transposed(old(rows), old(m), old(n))
    {
      rows := Transposed(rows, m, n);
      m, n := n, m;
    }

    /** encode: the encodings of the entries appended to the output row after
        row; an entry that cannot be encoded raises. */
    method Encode(l: Option<int>) returns (r: Result<seq<byte>>)
      requires Valid()
      ensures r == MatEncode(Value(), l)
    {
      ghost var table := EncodeTable(Value(), l);
      ghost var outs := Collected(table);
      forall i | 0 <= i < m
        ensures outs[i] == Collect(RowEncodings(rows[i], l))
      {
        assert table[i] == RowEncodings(rows[i], l);
      }
      r := EncodeRows(rows, outs, l);
    }

    /** The element-wise conversions (reduce_coefficents, to_montgomery,
        compress, decompress, to_ntt, from_ntt): each entry in row-major order
        is converted in place; an entry that raises stops the loops, leaving
        the entries before it converted. */
    method Convert(c: Conversion) returns (o: Outcome)
      requires Valid()
      modifies this
      ensures Valid() && m == old(m) && n == old(n)
      ensures (o, rows) == ConvertedRows(ring, c, old(rows))
    {
      o, rows := ConvertAll(ring, c, rows);
    }
  }

  /** The outer loop: the rows converted in order until an entry raises. */
  method ConvertAll(ring: Ring, c: Conversion, rows: Rows) returns (o: Outcome, r: Rows)
    requires ValidRing(ring) && InRing(ring, rows)
    ensures (o, r) == ConvertedRows(ring, c, rows)
  {
    ghost var outs := seq(|rows|, i requires 0 <= i < |rows| => ConvertedRow(ring, c, rows[i]));
    ProgressStart(rows, outs);
    r := rows;
    var i := 0;
    while i < |rows|
      invariant Progress(rows, outs, r, i)
    {
      var ro, row := ConvertRow(ring, c, r[i]);
      assert r[i] == rows[i] && outs[i] == (ro, row);
      if ro.Fail? {
        ProgressFail(rows, outs, r, i);
        return ro, r[i := row];
      }
      ProgressPass(rows, outs, r, i);
      r := r[i := row];
      i := i + 1;
    }
    ProgressDone(rows, outs, r);
    o := Pass;
  }

  /** The inner loop: the entries of one row converted in place, in order,
      until one raises. */
  method ConvertRow(ring: Ring, c: Conversion, row: seq<Poly>) returns (o: Outcome, r: seq<Poly>)
    requires ValidRing(ring) && AllFit(ring, row)
    ensures (o, r) == ConvertedRow(ring, c, row)
  {
    ghost var outs := seq(|row|, k requires 0 <= k < |row| => Step(ring, c, row[k]));
    ProgressStart(row, outs);
    r := row;
    var k := 0;
    while k < |row|
      invariant Progress(row, outs, r, k)
    {
      var p := Apply(ring, c, r[k]);
      assert r[k] == row[k];
      if p.Err? {
        assert outs[k] == (Fail(p.error), row[k]);
        ProgressFail(row, outs, r, k);
        assert r[k := row[k]] == r;
        return Fail(p.error), r;
      }
      assert outs[k] == (Pass, p.value);
      ProgressPass(row, outs, r, k);
      r := r[k := p.value];
      k := k + 1;
    }
    ProgressDone(row, outs, r);
    o := Pass;
  }
}
