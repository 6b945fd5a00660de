/**
 * The Dirac object model (dirac.h): a complex matrix stored as one
 * allocation, a header holding the row and column counts followed by a flat
 * row-major body of elements, together with the indexing rules and the
 * result-shape rules of the allocating helpers.
 */
module DiracObject {

  datatype Option<T> = None | Some(value: T)

  /** A complex number. The components are exact reals; the source uses `complex double`. */
  datatype Complex = Complex(re: real, im: real)

  /** 0+0i, the value every body element holds after the cache vends an object. */
  const Zero: Complex := Complex(0.0, 0.0)

  /** Complex addition; subtracting the second operand again gives the first back. */
  function Add(x: Complex, y: Complex): (r: Complex)
    ensures Sub(r, y) == x
  {
    Complex(x.re + y.re, x.im + y.im)
  }

  /** Complex subtraction; a number minus itself is zero. */
  function Sub(x: Complex, y: Complex): (r: Complex)
    ensures x == y ==> r == Zero
  {
    Complex(x.re - y.re, x.im - y.im)
  }

  /** A body of `n` zero elements: what `memset(..., 0, ...)` leaves behind. */
  function Zeros(n: nat): (z: seq<Complex>)
    ensures |z| == n
    ensures forall i :: 0 <= i < |z| ==> z[i] == Zero
  {
    seq(n, _ => Zero)
  }

  /*****************************************************************************
   * Row-major offsets
   ****************************************************************************/

  /** The offset of element (row, column) in a row-major body with `columns` columns. */
  function Offset(columns: nat, row: nat, column: nat): nat {
    row * columns + column
  }

  lemma MulMonotonic(a: nat, b: nat, c: nat)
    requires a <= b
    ensures a * c <= b * c
  {
  }

  /** An in-range (row, column) pair lands inside the body of a rows x columns matrix. */
  lemma OffsetInRange(rows: nat, columns: nat, row: nat, column: nat)
    requires row < rows && column < columns
    ensures Offset(columns, row, column) < rows * columns
  {
    MulMonotonic(row + 1, rows, columns);
    assert (row + 1) * columns == row * columns + columns;
  }

  /** The offset determines the pair: division and remainder by `columns` recover it. */
  lemma OffsetInverse(columns: nat, row: nat, column: nat)
    requires column < columns
    ensures Offset(columns, row, column) / columns == row
    ensures Offset(columns, row, column) % columns == column
  {
    var i := Offset(columns, row, column);
    var q, m := i / columns, i % columns;
    assert i == q * columns + m;
    assert 0 <= m < columns;
    if q < row {
      MulMonotonic(q + 1, row, columns);
      assert false;
    } else if q > row {
      MulMonotonic(row + 1, q, columns);
      assert false;
    }
  }

  /** Distinct in-range pairs have distinct offsets. */
  lemma OffsetInjective(columns: nat, r1: nat, c1: nat, r2: nat, c2: nat)
    requires c1 < columns && c2 < columns
    requires Offset(columns, r1, c1) == Offset(columns, r2, c2)
    ensures r1 == r2 && c1 == c2
  {
    OffsetInverse(columns, r1, c1);
    OffsetInverse(columns, r2, c2);
  }

  /** Every offset below rows * columns is the offset of an in-range pair. */
  lemma OffsetSurjective(rows: nat, columns: nat, i: nat)
    requires i < rows * columns
    ensures columns > 0 && i / columns < rows && i % columns < columns
    ensures Offset(columns, i / columns, i % columns) == i
  {
    var q := i / columns;
    if q >= rows {
      MulMonotonic(rows, q, columns);
      assert false;
    }
  }

  /*****************************************************************************
   * The object
   ****************************************************************************/

  /**
   * One matrix object (`dirac_t`). The body is part of the same allocation as
   * the header, so it is a field of the object.
   */
  class Dirac {
    var rows: nat
    var columns: nat
    var body: seq<Complex>

    /** The body holds exactly rows * columns elements. */
    ghost predicate Valid()
      reads this
    {
      |body| == rows * columns
    }

    /**
     * `malloc` of an object with room for `count` elements. The header of
     * fresh memory means nothing until the cache stamps a shape on it, so the
     * contract promises only the room.
     */
    constructor Malloc(count: nat)
      ensures |body| == count
    {
      rows, columns, body := count, 1, Zeros(count);
    }

    /** dirac_rows_get: the stored row count. */
    function Rows(): (n: nat)
      reads this
      ensures n == rows
    {
      rows
    }

    /** dirac_columns_get: the stored column count. */
    function Columns(): (n: nat)
      reads this
      ensures n == columns
    {
      columns
    }

    /** dirac_index: the row-major offset of (row, column) for this object's width. */
    function Index(row: nat, column: nat): (i: nat)
      reads this
      ensures column < columns ==> i / columns == row && i % columns == column
      ensures Valid() && row < rows && column < columns ==> i < |body|
    {
      if column < columns then
        OffsetInverse(columns, row, column);
        if row < rows then
          OffsetInRange(rows, columns, row, column);
          Offset(columns, row, column)
        else Offset(columns, row, column)
      else Offset(columns, row, column)
    }

    /**
     * dirac_point_fast: the position of element (row, column) in the body,
     * computed without a bounds check; the caller must stay in range.
     */
    function PointFast(row: nat, column: nat): (i: nat)
      reads this
      requires Valid() && row < rows && column < columns
      ensures i < |body| && i == Index(row, column)
    {
      Index(row, column)
    }
  }

  /*****************************************************************************
   * Result-shape rules of the allocating helpers
   ****************************************************************************/

  datatype Shape = Shape(rows: nat, columns: nat) {
    function Count(): nat { rows * columns }
  }

  function ShapeOf(that: Dirac): Shape
    reads that
  {
    Shape(that.rows, that.columns)
  }

  /** dirac_new_dup: the same shape as the operand. */
  function DupShape(a: Shape): (s: Shape)
    ensures s == a
  {
    Shape(a.rows, a.columns)
  }

  /** dirac_new_trn: rows and columns swapped, so the element count is kept. */
  function TrnShape(a: Shape): (s: Shape)
    ensures s.rows == a.columns && s.columns == a.rows
    ensures s.Count() == a.Count()
  {
    Shape(a.columns, a.rows)
  }

  /** dirac_new_sum: fails unless both dimensions agree; then the operands' shape. */
  function SumShape(a: Shape, b: Shape): (r: Option<Shape>)
    ensures r.Some? <==> a == b
    ensures r.Some? ==> r.value == a && r.value == b
  {
    if a.rows != b.rows then None
    else if a.columns != b.columns then None
    else Some(Shape(a.rows, b.columns))
  }

  /**
   * dirac_new_pro: fails unless columns(a) == rows(b); then, as written,
   * columns(a) x rows(b), which is always square.
   */
  function ProShape(a: Shape, b: Shape): (r: Option<Shape>)
    ensures r.Some? <==> a.columns == b.rows
    ensures r.Some? ==> r.value.rows == a.columns && r.value.columns == a.columns
  {
    if a.columns != b.rows then None
    else Some(Shape(a.columns, b.rows))
  }

  /** dirac_new_kro: never fails on shape; the dimensions multiply. */
  function KroShape(a: Shape, b: Shape): (s: Shape)
    ensures s.rows == a.rows * b.rows && s.columns == a.columns * b.columns
  {
    Shape(a.rows * b.rows, a.columns * b.columns)
  }

  /** dirac_new_had: the same rule as dirac_new_sum. */
  function HadShape(a: Shape, b: Shape): (r: Option<Shape>)
    ensures r == SumShape(a, b)
    ensures r.Some? <==> a == b
  {
    if a.rows != b.rows then None
    else if a.columns != b.columns then None
    else Some(Shape(a.rows, b.columns))
  }

  /** Transposing a shape twice gives it back. */
  lemma TrnShapeInvolution(a: Shape)
    ensures TrnShape(TrnShape(a)) == a
  {
  }

  /** The Kronecker shape holds the product of the operands' element counts. */
  lemma KroShapeCount(a: Shape, b: Shape)
    ensures KroShape(a, b).Count() == a.Count() * b.Count()
  {
    var s := KroShape(a, b);
    calc {
      s.Count();
      (a.rows * b.rows) * (a.columns * b.columns);
      { MulRearrange(a.rows, b.rows, a.columns, b.columns); }
      (a.rows * a.columns) * (b.rows * b.columns);
    }
  }

  lemma MulRearrange(w: nat, x: nat, y: nat, z: nat)
    ensures (w * x) * (y * z) == (w * y) * (x * z)
  {
  }

  /** A product shape that succeeds holds columns(a)^2 elements, whatever rows(a) and columns(b) are. */
  lemma ProShapeCount(a: Shape, b: Shape)
    requires ProShape(a, b).Some?
    ensures ProShape(a, b).value.Count() == a.columns * a.columns
  {
  }
}
