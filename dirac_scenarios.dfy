/**
 * Cache scenarios. Two come from the unit test of the cache
 * (unittest-dirac-cache.c): the reuse order of released objects, including a
 * 2 x 3 object serving a 3 x 2 request, and the bounds-checked access to a
 * freshly vended 3 x 4 object. The third runs dirac_matrix_trn on a cache
 * holding one released object and shows that object handed out again. `malloc`
 * never fails in any of them.
 */
module DiracScenarios {
  import opened DiracObject
  import opened SizeIndex
  import opened DiracCache
  import opened DiracMatrix

  /** The index the test builds by releasing its 3 x 2, 0 x 0, 4 x 4 and 2 x 3 objects in turn. */
  function Released(n1: Dirac, n2: Dirac, n3: Dirac, n4: Dirac): map<nat, Entry> {
    Deposit(Deposit(Deposit(Deposit(map[], Footprint(3, 2), n3), Footprint(0, 0), n1), Footprint(4, 4), n4), Footprint(2, 3), n2)
  }

  /**
   * After those releases the 0 x 0 and 4 x 4 footprints each hold one object,
   * and the shared footprint of 2 x 3 and 3 x 2 holds the 2 x 3 object as its
   * tree node with the 3 x 2 object chained behind it.
   */
  lemma ReleasedIndex(n1: Dirac, n2: Dirac, n3: Dirac, n4: Dirac)
    ensures Footprint(0, 0) == 56 && Footprint(2, 3) == 152 && Footprint(3, 2) == 152 && Footprint(4, 4) == 312
    ensures Released(n1, n2, n3, n4) == map[56 := Entry(n1, []), 152 := Entry(n2, [n3]), 312 := Entry(n4, [])]
  {
    TestFootprints();
    ReleasedAt(n1, n2, n3, n4);
  }

  /** The same releases, by footprint in bytes. */
  lemma ReleasedAt(n1: Dirac, n2: Dirac, n3: Dirac, n4: Dirac)
    ensures Deposit(Deposit(Deposit(Deposit(map[], 152, n3), 56, n1), 312, n4), 152, n2)
            == map[56 := Entry(n1, []), 152 := Entry(n2, [n3]), 312 := Entry(n4, [])]
  {
    var d1 := map[152 := Entry(n3, [])];
    assert Deposit(map[], 152, n3) == d1;
    var d2 := d1[56 := Entry(n1, [])];
    assert Deposit(d1, 56, n1) == d2;
    var d3 := d2[312 := Entry(n4, [])];
    assert Deposit(d2, 312, n4) == d3;
    ReleasedLast(n1, n2, n3, n4, d3);
  }

  /** The last release, of the 2 x 3 object onto the cached 3 x 2 one. */
  lemma ReleasedLast(n1: Dirac, n2: Dirac, n3: Dirac, n4: Dirac, d3: map<nat, Entry>)
    requires d3 == map[152 := Entry(n3, []), 56 := Entry(n1, []), 312 := Entry(n4, [])]
    ensures Deposit(d3, 152, n2) == map[56 := Entry(n1, []), 152 := Entry(n2, [n3]), 312 := Entry(n4, [])]
  {
    assert [d3[152].node] + d3[152].peers == [n3];
    assert Deposit(d3, 152, n2) == d3[152 := Entry(n2, [n3])];
  }

  /** The footprints of the test's shapes: 56 bytes of overlay plus 16 per element. */
  lemma TestFootprints()
    ensures Footprint(0, 0) == 56 && Footprint(2, 3) == 152 && Footprint(3, 2) == 152 && Footprint(4, 4) == 312
  {
    assert Count(2, 3) == 6 && Count(3, 2) == 6 && Count(4, 4) == 16;
  }

  /**
   * Allocation of a run of footprints served entirely from the index: the
   * objects handed out, in order, and the index left behind; None when one of
   * the footprints is not cached when its turn comes.
   */
  function ServeAll(tree: map<nat, Entry>, fps: seq<nat>): Option<(seq<Dirac>, map<nat, Entry>)> {
    if fps == [] then Some(([], tree))
    else if fps[0] !in tree then None
    else
      var (b, rest) := Withdraw(tree, fps[0]);
      match ServeAll(rest, fps[1..])
      case None => None
      case Some((bs, last)) => Some(([b] + bs, last))
  }

  /**
   * The reuse order of the test: after those releases, allocating 0 x 0,
   * 2 x 3, 3 x 2 and 4 x 4 is served entirely from the cache, handing back
   * the 0 x 0 object, then the 3 x 2 object for the 2 x 3 request, the 2 x 3
   * object for the 3 x 2 request, and the 4 x 4 object, leaving it empty.
   */
  lemma ReuseOrder(n1: Dirac, n2: Dirac, n3: Dirac, n4: Dirac)
    ensures ServeAll(Released(n1, n2, n3, n4), [Footprint(0, 0), Footprint(2, 3), Footprint(3, 2), Footprint(4, 4)])
            == Some(([n1, n3, n2, n4], map[]))
  {
    ReleasedIndex(n1, n2, n3, n4);
    ServeReleased(n1, n2, n3, n4);
  }

  /** Serving 56, 152, 152 and 312 bytes from the index of ReleasedIndex, step by step. */
  lemma ServeReleased(n1: Dirac, n2: Dirac, n3: Dirac, n4: Dirac)
    ensures ServeAll(map[56 := Entry(n1, []), 152 := Entry(n2, [n3]), 312 := Entry(n4, [])], [56, 152, 152, 312])
            == Some(([n1, n3, n2, n4], map[]))
  {
    var t0 := map[56 := Entry(n1, []), 152 := Entry(n2, [n3]), 312 := Entry(n4, [])];
    var t1 := map[152 := Entry(n2, [n3]), 312 := Entry(n4, [])];
    assert t0 - {56} == t1 by { assert (t0 - {56}).Keys == t1.Keys; }
    var t2 := t1[152 := Entry(n2, [])];
    assert Withdraw(t1, 152) == (n3, t2);
    var t3 := map[312 := Entry(n4, [])];
    assert t2 - {152} == t3 by { assert (t2 - {152}).Keys == t3.Keys; }
    assert t3 - {312} == map[] by { assert (t3 - {312}).Keys == {}; }
    assert Withdraw(t3, 312) == (n4, map[]);
    assert ServeAll(map[], []) == Some(([], map[]));
    assert ServeAll(t3, [312]) == Some(([n4], map[])) by {
      assert [312][1..] == [] && [n4] + [] == [n4];
    }
    assert Withdraw(t2, 152) == (n2, t3);
    assert ServeAll(t2, [152, 312]) == Some(([n2, n4], map[])) by {
      assert [152, 312][1..] == [312] && [n2] + [n4] == [n2, n4];
    }
    assert ServeAll(t1, [152, 152, 312]) == Some(([n3, n2, n4], map[])) by {
      assert [152, 152, 312][1..] == [152, 312] && [n3] + [n2, n4] == [n3, n2, n4];
    }
    assert Withdraw(t0, 56) == (n1, t1);
    assert [56, 152, 152, 312][1..] == [152, 152, 312] && [n1] + [n3, n2, n4] == [n1, n3, n2, n4];
  }

  /**
   * The first half of the test's reuse scenario: an empty cache vends 0 x 0,
   * 2 x 3, 3 x 2 and 4 x 4 objects from `malloc`, four distinct fresh objects
   * of the requested shapes, and stays empty.
   */
  method VendFresh(cache: Cache) returns (n1: Dirac, n2: Dirac, n3: Dirac, n4: Dirac)
    requires cache.Valid() && cache.tree == map[]
    modifies cache
    ensures cache.Valid() && cache.tree == map[]
    ensures fresh(n1) && fresh(n2) && fresh(n3) && fresh(n4)
    ensures n1 != n2 && n1 != n3 && n1 != n4 && n2 != n3 && n2 != n4 && n3 != n4
    ensures n1.Valid() && n2.Valid() && n3.Valid() && n4.Valid()
    ensures ShapeOf(n1) == Shape(0, 0) && ShapeOf(n2) == Shape(2, 3)
    ensures ShapeOf(n3) == Shape(3, 2) && ShapeOf(n4) == Shape(4, 4)
  {
    assert cache.Blocks() == {};
    var t1 := cache.New(0, 0, false);
    var t2 := cache.New(2, 3, false);
    var t3 := cache.New(3, 2, false);
    var t4 := cache.New(4, 4, false);
    n1, n2, n3, n4 := t1, t2, t3, t4;
  }

  /**
   * Reuse through a matrix operation: a 2 x 3 object released into an empty
   * cache is the very object dirac_matrix_trn then hands out for the 3 x 2
   * transpose of another 2 x 3 object, and the cache is empty again.
   */
  method TransposeReuse(cache: Cache) returns (a: Dirac, released: Dirac, t: Dirac)
    requires cache.Valid() && cache.tree == map[]
    modifies cache
    ensures cache.Valid() && cache.tree == map[]
    ensures t == released && a != released
    ensures a.Valid() && ShapeOf(a) == Shape(2, 3) && ShapeOf(t) == Shape(3, 2)
    ensures t.body == Transposed(2, 3, a.body)
  {
    assert cache.Blocks() == {};
    var t1 := cache.New(2, 3, false);
    var t2 := cache.New(2, 3, false);
    a, released := t1, t2;
    var r := cache.Delete(released, false);
    TestFootprints();
    DepositThenWithdraw(map[], 152, released);
    var t3 := MatrixTrn(cache, a, false);
    t := t3;
  }

  /**
   * In a 3 x 4 object (0, 0) and (2, 3) are in range, at the first and the
   * last element of the body.
   */
  lemma PointSafeCorners(that: Dirac)
    requires that.Valid() && that.rows == 3 && that.columns == 4
    ensures PointSafe(that, 0, 0) == Some(0) && PointSafe(that, 2, 3) == Some(11)
  {
  }

  /** In a 3 x 4 object any row 3 or column 4 is out of range. */
  lemma PointSafeBeyond(that: Dirac)
    requires that.Valid() && that.rows == 3 && that.columns == 4
    ensures PointSafe(that, 3, 3).None? && PointSafe(that, 2, 4).None? && PointSafe(that, 3, 4).None?
  {
  }

  /**
   * The 3 x 4 object of the test, vended by the cache: the shape the two
   * lemmas above need, and every element zero.
   */
  method PointScenario(cache: Cache) returns (that: Dirac)
    requires cache.Valid()
    modifies cache, cache.Blocks()
    ensures that.Valid() && that.rows == 3 && that.columns == 4 && that.body == Zeros(12)
  {
    var t := cache.New(3, 4, false);
    assert t != null;
    that := t;
  }
}
