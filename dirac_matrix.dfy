/**
 * The matrix operations (dirac_matrix.c): transpose, sum and difference. Each
 * asks the cache for its result object through an allocating helper and then
 * fills the result's row-major body element by element in nested loops over
 * rows and columns. The operands are only read.
 */
module DiracMatrix {
  import opened DiracObject
  import opened SizeIndex
  import opened DiracCache
  import opened DiracHelpers

  /*****************************************************************************
   * Specifications of the result bodies
   ****************************************************************************/

  /**
   * The body of the transpose of a rows x columns matrix with body `a`: a
   * columns x rows matrix (`rows` columns wide) whose element (c, r) is
   * element (r, c) of `a`.
   */
  function Transposed(rows: nat, columns: nat, a: seq<Complex>): (t: seq<Complex>)
    requires |a| == rows * columns
    ensures |t| == rows * columns
  {
    seq(rows * columns, i requires 0 <= i < rows * columns =>
      TransposeSource(rows, columns, i);
      a[Offset(columns, i % rows, i / rows)])
  }

  /**
   * Position i of the transpose's body is (i / rows, i % rows), so it takes
   * operand element (i % rows, i / rows), which lies inside the operand.
   */
  lemma TransposeSource(rows: nat, columns: nat, i: nat)
    requires i < rows * columns
    ensures rows > 0 && i % rows < rows && i / rows < columns
    ensures Offset(columns, i % rows, i / rows) < rows * columns
  {
    assert columns * rows == rows * columns;
    OffsetSurjective(columns, rows, i);
    OffsetInRange(rows, columns, i % rows, i / rows);
  }

  /** Element (c, r) of the transpose is element (r, c) of the operand. */
  lemma TransposedAt(rows: nat, columns: nat, a: seq<Complex>, r: nat, c: nat)
    requires |a| == rows * columns && r < rows && c < columns
    ensures Offset(rows, c, r) < rows * columns && Offset(columns, r, c) < rows * columns
    ensures Transposed(rows, columns, a)[Offset(rows, c, r)] == a[Offset(columns, r, c)]
  {
    OffsetInRange(columns, rows, c, r);
    OffsetInRange(rows, columns, r, c);
    OffsetInverse(rows, c, r);
  }

  /** Transposing twice gives the original body back. */
  lemma TransposeInvolution(rows: nat, columns: nat, a: seq<Complex>)
    requires |a| == rows * columns
    ensures |Transposed(rows, columns, a)| == columns * rows
    ensures Transposed(columns, rows, Transposed(rows, columns, a)) == a
  {
    var t := Transposed(rows, columns, a);
    var u := Transposed(columns, rows, t);
    forall i | 0 <= i < |a|
      ensures u[i] == a[i]
    {
      OffsetSurjective(rows, columns, i);
      var r, c := i / columns, i % columns;
      TransposedAt(columns, rows, t, c, r);
      TransposedAt(rows, columns, a, r, c);
    }
  }

  /** The elementwise sum of two bodies of the same length. */
  function SumBody(a: seq<Complex>, b: seq<Complex>): (s: seq<Complex>)
    requires |a| == |b|
    ensures |s| == |a|
  {
    seq(|a|, i requires 0 <= i < |a| => Add(a[i], b[i]))
  }

  /** The elementwise difference of two bodies of the same length. */
  function DiffBody(a: seq<Complex>, b: seq<Complex>): (d: seq<Complex>)
    requires |a| == |b|
    ensures |d| == |a|
  {
    seq(|a|, i requires 0 <= i < |a| => Sub(a[i], b[i]))
  }

  /** Subtracting what was added gives the first operand back. */
  lemma DiffAfterSum(a: seq<Complex>, b: seq<Complex>)
    requires |a| == |b|
    ensures DiffBody(SumBody(a, b), b) == a
  {
    var d := DiffBody(SumBody(a, b), b);
    forall i | 0 <= i < |a|
      ensures d[i] == a[i]
    {
      assert SumBody(a, b)[i] == Add(a[i], b[i]);
    }
  }

  /** The sum does not depend on the order of the operands. */
  lemma SumCommutes(a: seq<Complex>, b: seq<Complex>)
    requires |a| == |b|
    ensures SumBody(a, b) == SumBody(b, a)
  {
    forall i | 0 <= i < |a|
      ensures SumBody(a, b)[i] == SumBody(b, a)[i]
    {
    }
  }

  /** A body minus itself is all zeros. */
  lemma DiffSelf(a: seq<Complex>)
    ensures DiffBody(a, a) == Zeros(|a|)
  {
    forall i | 0 <= i < |a|
      ensures DiffBody(a, a)[i] == Zeros(|a|)[i]
    {
    }
  }

  /*****************************************************************************
   * The operations
   ****************************************************************************/

  /**
   * Row-major positions of the transpose's body already written when the
   * loops stand at (rr, cc) of the operand: every operand row before rr, and
   * the columns before cc of row rr. Position i of the transpose holds
   * operand element (i % rows, i / rows).
   */
  ghost predicate TransposeWritten(rows: nat, rr: nat, cc: nat, i: nat) {
    rows > 0 && (i % rows < rr || (i % rows == rr && i / rows < cc))
  }

  /** `t` agrees with the transpose of `aa` at every position written so far. */
  ghost predicate TransposedUpTo(rows: nat, cols: nat, aa: seq<Complex>, t: seq<Complex>, rr: nat, cc: nat) {
    |aa| == rows * cols && |t| == rows * cols
    && forall i :: 0 <= i < |t| && TransposeWritten(rows, rr, cc, i) ==> t[i] == Transposed(rows, cols, aa)[i]
  }

  /** Writing operand element (rr, cc) at (cc, rr) extends the written positions by one. */
  lemma TransposeStep(rows: nat, cols: nat, aa: seq<Complex>, t: seq<Complex>, rr: nat, cc: nat)
    requires rr < rows && cc < cols && TransposedUpTo(rows, cols, aa, t, rr, cc)
    ensures Offset(rows, cc, rr) < |t| && Offset(cols, rr, cc) < |aa|
    ensures TransposedUpTo(rows, cols, aa, t[Offset(rows, cc, rr) := aa[Offset(cols, rr, cc)]], rr, cc + 1)
  {
    var jj := Offset(rows, cc, rr);
    TransposedAt(rows, cols, aa, rr, cc);
    OffsetInverse(rows, cc, rr);
    var u := t[jj := aa[Offset(cols, rr, cc)]];
    forall i | 0 <= i < |u| && TransposeWritten(rows, rr, cc + 1, i)
      ensures u[i] == Transposed(rows, cols, aa)[i]
    {
      if i != jj {
        assert i % rows != rr || i / rows != cc;
      }
    }
  }

  /** Finishing operand row rr writes exactly the positions of rows up to rr. */
  lemma TransposeRowDone(rows: nat, cols: nat, aa: seq<Complex>, t: seq<Complex>, rr: nat)
    requires rr < rows && TransposedUpTo(rows, cols, aa, t, rr, cols)
    ensures TransposedUpTo(rows, cols, aa, t, rr + 1, 0)
  {
    forall i | 0 <= i < |t| && TransposeWritten(rows, rr + 1, 0, i)
      ensures TransposeWritten(rows, rr, cols, i)
    {
      TransposeSource(rows, cols, i);
    }
  }

  /** Once every operand row is done, the whole transpose is written. */
  lemma TransposeAllDone(rows: nat, cols: nat, aa: seq<Complex>, t: seq<Complex>)
    requires TransposedUpTo(rows, cols, aa, t, rows, 0)
    ensures t == Transposed(rows, cols, aa)
  {
    forall i | 0 <= i < |t|
      ensures t[i] == Transposed(rows, cols, aa)[i]
    {
      TransposeSource(rows, cols, i);
      assert TransposeWritten(rows, rows, 0, i);
    }
  }

  /**
   * The loops of dirac_matrix_trn: for each operand element (rr, cc), in
   * row-major order, write it at (cc, rr) of the result, whose rows are the
   * operand's columns.
   */
  method FillTransposed(that: Dirac, rows: nat, cols: nat, aa: seq<Complex>)
    requires that.Valid() && that.rows == cols && that.columns == rows && |aa| == rows * cols
    modifies that
    ensures that.Valid() && that.rows == cols && that.columns == rows
    ensures that.body == Transposed(rows, cols, aa)
  {
    var rr := 0;
    while rr < rows
      invariant 0 <= rr <= rows
      invariant that.Valid() && that.rows == cols && that.columns == rows
      invariant TransposedUpTo(rows, cols, aa, that.body, rr, 0)
    {
      var cc := 0;
      while cc < cols
        invariant 0 <= cc <= cols
        invariant that.Valid() && that.rows == cols && that.columns == rows
        invariant TransposedUpTo(rows, cols, aa, that.body, rr, cc)
      {
        var ii := Offset(cols, rr, cc);
        var jj := that.Index(cc, rr);
        TransposeStep(rows, cols, aa, that.body, rr, cc);
        that.body := that.body[jj := aa[ii]];
        cc := cc + 1;
      }
      TransposeRowDone(rows, cols, aa, that.body, rr);
      rr := rr + 1;
    }
    TransposeAllDone(rows, cols, aa, that.body);
  }

  /**
   * dirac_matrix_trn: a new columns(a) x rows(a) object holding the transpose
   * of `a`, or null when the cache cannot supply one.
   */
  method MatrixTrn(cache: Cache, a: Dirac, outOfMemory: bool) returns (that: Dirac?)
    requires cache.Valid() && a.Valid() && a !in cache.Blocks()
    modifies cache, cache.Blocks()
    ensures cache.Valid() && cache.Blocks() <= old(cache.Blocks()) && unchanged(a)
    ensures cache.tree == IndexAfterNew(old(cache.tree), Footprint(a.columns, a.rows))
    ensures Footprint(a.columns, a.rows) in old(cache.tree) ==>
              that == Withdraw(old(cache.tree), Footprint(a.columns, a.rows)).0
    ensures Footprint(a.columns, a.rows) !in old(cache.tree) && that != null ==>
              fresh(that)
    ensures that == null <==> Footprint(a.columns, a.rows) !in old(cache.tree) && outOfMemory
    ensures that == null ==> unchanged(old(cache.Blocks()))
    ensures that != null ==> unchanged(old(cache.Blocks()) - {that})
    ensures that != null ==>
              that.Valid() && ShapeOf(that) == TrnShape(ShapeOf(a)) && that !in cache.Blocks()
              && that.body == Transposed(a.rows, a.columns, a.body)
  {
    that := NewTrn(cache, a, outOfMemory);
    if that != null {
      assert that != a;
      label vended:
      FillTransposed(that, a.Rows(), a.Columns(), a.body);
      FiledUntouched@vended(cache.tree);
    }
  }

  /**
   * The loops of dirac_matrix_add and dirac_matrix_sub: for each element
   * (rr, cc), in row-major order, write `op` of the operands' elements at the
   * same position. `sub` chooses subtraction over addition.
   */
  method FillElementwise(that: Dirac, aa: seq<Complex>, bb: seq<Complex>, sub: bool)
    requires that.Valid() && |aa| == |that.body| && |bb| == |that.body|
    modifies that
    ensures that.Valid() && that.rows == old(that.rows) && that.columns == old(that.columns)
    ensures that.body == if sub then DiffBody(aa, bb) else SumBody(aa, bb)
  {
    var rows := that.Rows();
    var cols := that.Columns();
    ghost var want := if sub then DiffBody(aa, bb) else SumBody(aa, bb);
    var rr := 0;
    while rr < rows
      invariant 0 <= rr <= rows
      invariant that.Valid() && that.rows == rows && that.columns == cols
      invariant Offset(cols, rr, 0) <= |that.body|
      invariant forall i :: 0 <= i < Offset(cols, rr, 0) ==> that.body[i] == want[i]
    {
      RowEnd(rows, cols, rr);
      var cc := 0;
      while cc < cols
        invariant 0 <= cc <= cols
        invariant that.Valid() && that.rows == rows && that.columns == cols
        invariant Offset(cols, rr, cc) <= Offset(cols, rr + 1, 0) <= |that.body|
        invariant forall i :: 0 <= i < Offset(cols, rr, cc) ==> that.body[i] == want[i]
      {
        var ii := that.Index(rr, cc);
        assert ii == Offset(cols, rr, cc);
        if sub {
          that.body := that.body[ii := Sub(aa[ii], bb[ii])];
        } else {
          that.body := that.body[ii := Add(aa[ii], bb[ii])];
        }
        cc := cc + 1;
      }
      rr := rr + 1;
    }
  }

  /** Row rr ends where row rr + 1 begins, inside a rows x cols body. */
  lemma RowEnd(rows: nat, cols: nat, rr: nat)
    requires rr < rows
    ensures Offset(cols, rr, cols) == Offset(cols, rr + 1, 0) <= rows * cols
  {
    MulMonotonic(rr + 1, rows, cols);
  }

  /**
   * dirac_matrix_add: a new object holding the elementwise sum of `a` and
   * `b`; null with EINVAL when their shapes differ, null when the cache
   * cannot supply an object.
   */
  method MatrixAdd(cache: Cache, a: Dirac, b: Dirac, outOfMemory: bool) returns (that: Dirac?, einval: bool)
    requires cache.Valid() && a.Valid() && b.Valid() && a !in cache.Blocks() && b !in cache.Blocks()
    modifies cache, cache.Blocks()
    ensures cache.Valid() && cache.Blocks() <= old(cache.Blocks()) && unchanged(a) && unchanged(b)
    ensures einval <==> ShapeOf(a) != ShapeOf(b)
    ensures einval ==> that == null && cache.tree == old(cache.tree)
    ensures !einval ==> cache.tree == IndexAfterNew(old(cache.tree), Footprint(a.rows, a.columns))
    ensures !einval && Footprint(a.rows, a.columns) in old(cache.tree) ==>
              that == Withdraw(old(cache.tree), Footprint(a.rows, a.columns)).0
    ensures !einval && Footprint(a.rows, a.columns) !in old(cache.tree) && that != null ==>
              fresh(that)
    ensures !einval ==> (that == null <==> Footprint(a.rows, a.columns) !in old(cache.tree) && outOfMemory)
    ensures that == null ==> unchanged(old(cache.Blocks()))
    ensures that != null ==> unchanged(old(cache.Blocks()) - {that})
    ensures that != null ==>
              that.Valid() && ShapeOf(that) == ShapeOf(a) && that !in cache.Blocks()
              && that.body == SumBody(a.body, b.body)
  {
    that, einval := NewSum(cache, a, b, outOfMemory);
    if that != null {
      assert that != a && that != b;
      label vended:
      FillElementwise(that, a.body, b.body, false);
      FiledUntouched@vended(cache.tree);
    }
  }

  /**
   * dirac_matrix_sub: a new object holding the elementwise difference of `a`
   * and `b`; null with EINVAL when their shapes differ, null when the cache
   * cannot supply an object.
   */
  method MatrixSub(cache: Cache, a: Dirac, b: Dirac, outOfMemory: bool) returns (that: Dirac?, einval: bool)
    requires cache.Valid() && a.Valid() && b.Valid() && a !in cache.Blocks() && b !in cache.Blocks()
    modifies cache, cache.Blocks()
    ensures cache.Valid() && cache.Blocks() <= old(cache.Blocks()) && unchanged(a) && unchanged(b)
    ensures einval <==> ShapeOf(a) != ShapeOf(b)
    ensures einval ==> that == null && cache.tree == old(cache.tree)
    ensures !einval ==> cache.tree == IndexAfterNew(old(cache.tree), Footprint(a.rows, a.columns))
    ensures !einval && Footprint(a.rows, a.columns) in old(cache.tree) ==>
              that == Withdraw(old(cache.tree), Footprint(a.rows, a.columns)).0
    ensures !einval && Footprint(a.rows, a.columns) !in old(cache.tree) && that != null ==>
              fresh(that)
    ensures !einval ==> (that == null <==> Footprint(a.rows, a.columns) !in old(cache.tree) && outOfMemory)
    ensures that == null ==> unchanged(old(cache.Blocks()))
    ensures that != null ==> unchanged(old(cache.Blocks()) - {that})
    ensures that != null ==>
              that.Valid() && ShapeOf(that) == ShapeOf(a) && that !in cache.Blocks()
              && that.body == DiffBody(a.body, b.body)
  {
    that, einval := NewSum(cache, a, b, outOfMemory);
    if that != null {
      assert that != a && that != b;
      label vended:
      FillElementwise(that, a.body, b.body, true);
      FiledUntouched@vended(cache.tree);
    }
  }
}
