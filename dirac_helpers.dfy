/**
 * The allocating helpers of the public header (dirac.h): each asks the cache
 * for an object whose shape follows from its operands' shapes, and the ones
 * with a shape rule that can fail answer null with errno EINVAL instead of
 * allocating. errno is the `einval` out-parameter here.
 */
module DiracHelpers {
  import opened DiracObject
  import opened SizeIndex
  import opened DiracCache

  /** A zeroed, well-formed object of shape `s`: what the cache hands out. */
  ghost predicate Vended(that: Dirac, s: Shape)
    reads that
  {
    that.Valid() && ShapeOf(that) == s && that.body == Zeros(s.Count())
  }

  /** dirac_new_dup: a zeroed object of the operand's shape. */
  method NewDup(cache: Cache, a: Dirac, outOfMemory: bool) returns (that: Dirac?)
    requires cache.Valid()
    modifies cache, cache.Blocks()
    ensures cache.Valid() && cache.Blocks() <= old(cache.Blocks())
    ensures that == null <==> Footprint(old(a.rows), old(a.columns)) !in old(cache.tree) && outOfMemory
    ensures that != null ==> Vended(that, DupShape(old(ShapeOf(a)))) && that !in cache.Blocks()
    ensures that != null ==> fresh(that) || that in old(cache.Blocks())
    ensures cache.tree == IndexAfterNew(old(cache.tree), Footprint(old(a.rows), old(a.columns)))
    ensures Footprint(old(a.rows), old(a.columns)) in old(cache.tree) ==>
              that == Withdraw(old(cache.tree), Footprint(old(a.rows), old(a.columns))).0
    ensures Footprint(old(a.rows), old(a.columns)) !in old(cache.tree) && that != null ==>
              fresh(that)
    ensures that == null ==> unchanged(old(cache.Blocks()))
    ensures that != null ==> unchanged(old(cache.Blocks()) - {that})
  {
    that := cache.New(a.Rows(), a.Columns(), outOfMemory);
  }

  /** dirac_new_trn: a zeroed object with the operand's rows and columns swapped. */
  method NewTrn(cache: Cache, a: Dirac, outOfMemory: bool) returns (that: Dirac?)
    requires cache.Valid()
    modifies cache, cache.Blocks()
    ensures cache.Valid() && cache.Blocks() <= old(cache.Blocks())
    ensures that == null <==> Footprint(old(a.columns), old(a.rows)) !in old(cache.tree) && outOfMemory
    ensures that != null ==> Vended(that, TrnShape(old(ShapeOf(a)))) && that !in cache.Blocks()
    ensures that != null ==> fresh(that) || that in old(cache.Blocks())
    ensures cache.tree == IndexAfterNew(old(cache.tree), Footprint(old(a.columns), old(a.rows)))
    ensures Footprint(old(a.columns), old(a.rows)) in old(cache.tree) ==>
              that == Withdraw(old(cache.tree), Footprint(old(a.columns), old(a.rows))).0
    ensures Footprint(old(a.columns), old(a.rows)) !in old(cache.tree) && that != null ==>
              fresh(that)
    ensures that == null ==> unchanged(old(cache.Blocks()))
    ensures that != null ==> unchanged(old(cache.Blocks()) - {that})
  {
    that := cache.New(a.Columns(), a.Rows(), outOfMemory);
  }

  /**
   * dirac_new_sum: EINVAL unless both dimensions agree, without touching the
   * cache; otherwise a zeroed object of the operands' shape.
   */
  method NewSum(cache: Cache, a: Dirac, b: Dirac, outOfMemory: bool) returns (that: Dirac?, einval: bool)
    requires cache.Valid()
    modifies cache, cache.Blocks()
    ensures cache.Valid() && cache.Blocks() <= old(cache.Blocks())
    ensures einval <==> SumShape(old(ShapeOf(a)), old(ShapeOf(b))).None?
    ensures einval ==> that == null && cache.tree == old(cache.tree)
    ensures !einval ==>
              (that == null <==> Footprint(old(a.rows), old(a.columns)) !in old(cache.tree) && outOfMemory)
    ensures that != null ==>
              Vended(that, SumShape(old(ShapeOf(a)), old(ShapeOf(b))).value) && that !in cache.Blocks()
    ensures that != null ==> fresh(that) || that in old(cache.Blocks())
    ensures !einval ==> cache.tree == IndexAfterNew(old(cache.tree), Footprint(old(a.rows), old(a.columns)))
    ensures !einval && Footprint(old(a.rows), old(a.columns)) in old(cache.tree) ==>
              that == Withdraw(old(cache.tree), Footprint(old(a.rows), old(a.columns))).0
    ensures !einval && Footprint(old(a.rows), old(a.columns)) !in old(cache.tree) && that != null ==>
              fresh(that)
    ensures that == null ==> unchanged(old(cache.Blocks()))
    ensures that != null ==> unchanged(old(cache.Blocks()) - {that})
  {
    if a.Rows() != b.Rows() {
      that, einval := null, true;
    } else if a.Columns() != b.Columns() {
      that, einval := null, true;
    } else {
      that := cache.New(a.Rows(), b.Columns(), outOfMemory);
      einval := false;
    }
  }

  /**
   * dirac_new_pro: EINVAL unless columns(a) == rows(b), without touching the
   * cache; otherwise a zeroed columns(a) x rows(b) object.
   */
  method NewPro(cache: Cache, a: Dirac, b: Dirac, outOfMemory: bool) returns (that: Dirac?, einval: bool)
    requires cache.Valid()
    modifies cache, cache.Blocks()
    ensures cache.Valid() && cache.Blocks() <= old(cache.Blocks())
    ensures einval <==> ProShape(old(ShapeOf(a)), old(ShapeOf(b))).None?
    ensures einval ==> that == null && cache.tree == old(cache.tree)
    ensures !einval ==>
              (that == null <==> Footprint(old(a.columns), old(b.rows)) !in old(cache.tree) && outOfMemory)
    ensures that != null ==>
              Vended(that, ProShape(old(ShapeOf(a)), old(ShapeOf(b))).value) && that !in cache.Blocks()
    ensures that != null ==> fresh(that) || that in old(cache.Blocks())
    ensures !einval ==> cache.tree == IndexAfterNew(old(cache.tree), Footprint(old(a.columns), old(b.rows)))
    ensures !einval && Footprint(old(a.columns), old(b.rows)) in old(cache.tree) ==>
              that == Withdraw(old(cache.tree), Footprint(old(a.columns), old(b.rows))).0
    ensures !einval && Footprint(old(a.columns), old(b.rows)) !in old(cache.tree) && that != null ==>
              fresh(that)
    ensures that == null ==> unchanged(old(cache.Blocks()))
    ensures that != null ==> unchanged(old(cache.Blocks()) - {that})
  {
    if a.Columns() != b.Rows() {
      that, einval := null, true;
    } else {
      that := cache.New(a.Columns(), b.Rows(), outOfMemory);
      einval := false;
    }
  }

  /** dirac_new_kro: a zeroed object for the Kronecker product; the dimensions multiply. */
  method NewKro(cache: Cache, a: Dirac, b: Dirac, outOfMemory: bool) returns (that: Dirac?)
    requires cache.Valid()
    modifies cache, cache.Blocks()
    ensures cache.Valid() && cache.Blocks() <= old(cache.Blocks())
    ensures that == null <==>
              Footprint(KroShape(old(ShapeOf(a)), old(ShapeOf(b))).rows,
                        KroShape(old(ShapeOf(a)), old(ShapeOf(b))).columns) !in old(cache.tree)
              && outOfMemory
    ensures that != null ==> Vended(that, KroShape(old(ShapeOf(a)), old(ShapeOf(b)))) && that !in cache.Blocks()
    ensures that != null ==> fresh(that) || that in old(cache.Blocks())
    ensures cache.tree == IndexAfterNew(old(cache.tree),
                                        Footprint(KroShape(old(ShapeOf(a)), old(ShapeOf(b))).rows,
                                                  KroShape(old(ShapeOf(a)), old(ShapeOf(b))).columns))
    ensures Footprint(KroShape(old(ShapeOf(a)), old(ShapeOf(b))).rows,
                      KroShape(old(ShapeOf(a)), old(ShapeOf(b))).columns) in old(cache.tree) ==>
              that == Withdraw(old(cache.tree),
                               Footprint(KroShape(old(ShapeOf(a)), old(ShapeOf(b))).rows,
                                         KroShape(old(ShapeOf(a)), old(ShapeOf(b))).columns)).0
    ensures that != null
            && Footprint(KroShape(old(ShapeOf(a)), old(ShapeOf(b))).rows,
                         KroShape(old(ShapeOf(a)), old(ShapeOf(b))).columns) !in old(cache.tree)
            ==> fresh(that)
    ensures that == null ==> unchanged(old(cache.Blocks()))
    ensures that != null ==> unchanged(old(cache.Blocks()) - {that})
  {
    that := cache.New(a.Rows() * b.Rows(), a.Columns() * b.Columns(), outOfMemory);
  }

  /** dirac_new_had: the Hadamard product's object, under the same rule as dirac_new_sum. */
  method NewHad(cache: Cache, a: Dirac, b: Dirac, outOfMemory: bool) returns (that: Dirac?, einval: bool)
    requires cache.Valid()
    modifies cache, cache.Blocks()
    ensures cache.Valid() && cache.Blocks() <= old(cache.Blocks())
    ensures einval <==> HadShape(old(ShapeOf(a)), old(ShapeOf(b))).None?
    ensures einval ==> that == null && cache.tree == old(cache.tree)
    ensures !einval ==>
              (that == null <==> Footprint(old(a.rows), old(a.columns)) !in old(cache.tree) && outOfMemory)
    ensures that != null ==>
              Vended(that, HadShape(old(ShapeOf(a)), old(ShapeOf(b))).value) && that !in cache.Blocks()
    ensures that != null ==> fresh(that) || that in old(cache.Blocks())
    ensures !einval ==> cache.tree == IndexAfterNew(old(cache.tree), Footprint(old(a.rows), old(a.columns)))
    ensures !einval && Footprint(old(a.rows), old(a.columns)) in old(cache.tree) ==>
              that == Withdraw(old(cache.tree), Footprint(old(a.rows), old(a.columns))).0
    ensures !einval && Footprint(old(a.rows), old(a.columns)) !in old(cache.tree) && that != null ==>
              fresh(that)
    ensures that == null ==> unchanged(old(cache.Blocks()))
    ensures that != null ==> unchanged(old(cache.Blocks()) - {that})
  {
    if a.Rows() != b.Rows() {
      that, einval := null, true;
    } else if a.Columns() != b.Columns() {
      that, einval := null, true;
    } else {
      that := cache.New(a.Rows(), b.Columns(), outOfMemory);
      einval := false;
    }
  }
}
