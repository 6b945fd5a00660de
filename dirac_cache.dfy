/**
 * The object cache (dirac_cache.c): allocation and release of matrix objects
 * through a size index of free objects, falling back to the general allocator
 * on a miss, and bulk reclaim of everything cached.
 *
 * The single process-wide cache of the source is one Cache object here; its
 * mutex is left out (the model is single-threaded). `malloc` failure and a
 * refused tree insertion are decided by the environment, so they are boolean
 * parameters of the operations that can meet them.
 */
module DiracCache {
  import opened DiracObject
  import opened SizeIndex

  /** sizeof(dirac_complex_t): one `complex double`. */
  const ComplexBytes: nat := 16

  /**
   * sizeof(dirac_t), which equals sizeof(dirac_node_t): the tree linkage and
   * the size field that overlay a free object (LP64 layout).
   */
  const ObjectBytes: nat := 56

  /** count: the number of elements of a rows x columns body, the element count of its Shape. */
  function Count(rows: nat, columns: nat): (c: nat)
    ensures rows == 0 || columns == 0 ==> c == 0
  {
    Shape(rows, columns).Count()
  }

  /** length: the bytes of a rows x columns body. */
  function Length(rows: nat, columns: nat): (l: nat)
    ensures l == 0 <==> Count(rows, columns) == 0
  {
    Count(rows, columns) * ComplexBytes
  }

  /**
   * size: the byte footprint of a rows x columns object, the key of the size
   * index. It is never smaller than the free-node overlay, so the tree linkage
   * always fits, even in a 0 x 0 object.
   */
  function Footprint(rows: nat, columns: nat): (f: nat)
    ensures f >= ObjectBytes
  {
    Length(rows, columns) + ObjectBytes
  }

  /** Only an object without elements has the bare overlay as its footprint. */
  lemma FootprintMinimum(rows: nat, columns: nat)
    ensures Footprint(rows, columns) >= ObjectBytes
    ensures Footprint(rows, columns) == ObjectBytes <==> rows * columns == 0
  {
  }

  /** The footprint depends only on rows * columns: a transposed shape has the same one. */
  lemma FootprintTranspose(rows: nat, columns: nat)
    ensures Footprint(rows, columns) == Footprint(columns, rows)
  {
  }

  /** Two shapes share a footprint exactly when they hold the same number of elements. */
  lemma FootprintCount(r1: nat, c1: nat, r2: nat, c2: nat)
    ensures Footprint(r1, c1) == Footprint(r2, c2) <==> r1 * c1 == r2 * c2
  {
  }

  /**
   * construct: zero the body and stamp the shape on an object, passing a null
   * object through unchanged. The body must already have room for the shape.
   */
  method Construct(that: Dirac?, rows: nat, columns: nat) returns (r: Dirac?)
    requires that != null ==> |that.body| == Count(rows, columns)
    modifies that
    ensures r == that
    ensures r != null ==> r.Valid() && r.rows == rows && r.columns == columns && r.body == Zeros(Count(rows, columns))
  {
    if that != null {
      that.body := Zeros(Count(rows, columns));
      that.rows := rows;
      that.columns := columns;
    }
    r := that;
  }

  /** allocate: `malloc` of an object of exactly the footprint of rows x columns. */
  method Allocate(rows: nat, columns: nat, outOfMemory: bool) returns (that: Dirac?)
    ensures that == null <==> outOfMemory
    ensures that != null ==> fresh(that) && |that.body| == Count(rows, columns)
  {
    if outOfMemory {
      that := null;
    } else {
      that := new Dirac.Malloc(Count(rows, columns));
    }
  }

  /**
   * dirac_point_safe: the position of element (row, column) in the body, or
   * None (the null pointer) when the row or the column is out of range.
   */
  function PointSafe(that: Dirac, row: nat, column: nat): (p: Option<nat>)
    reads that
    requires that.Valid()
    ensures p.None? <==> row >= that.rows || column >= that.columns
    ensures p.Some? ==> p.value < |that.body| && p.value / that.columns == row && p.value % that.columns == column
  {
    if row >= that.rows then None
    else if column >= that.columns then None
    else Some(that.PointFast(row, column))
  }

  /** Every object of the index is well formed and filed under its own footprint. */
  ghost predicate Filed(tree: map<nat, Entry>)
    reads Members(tree)
  {
    forall fp, b :: fp in tree && b in VendOrder(tree[fp]) ==> b.Valid() && Footprint(b.rows, b.columns) == fp
  }

  /** Allocation hands out an object that fits the footprint, and what stays cached stays filed. */
  lemma FiledWithdraw(tree: map<nat, Entry>, fp: nat)
    requires fp in tree && Filed(tree)
    ensures Filed(Withdraw(tree, fp).1)
    ensures Withdraw(tree, fp).0.Valid() && Footprint(Withdraw(tree, fp).0.rows, Withdraw(tree, fp).0.columns) == fp
  {
    var (b, rest) := Withdraw(tree, fp);
    assert b in VendOrder(tree[fp]);
    forall k, x | k in rest && x in VendOrder(rest[k])
      ensures x.Valid() && Footprint(x.rows, x.columns) == k
    {
      SubEntry(tree, rest, fp, k, x);
    }
  }

  /** Releasing a well-formed object under its own footprint keeps the index filed. */
  lemma FiledDeposit(tree: map<nat, Entry>, fp: nat, b: Dirac)
    requires Filed(tree) && b.Valid() && Footprint(b.rows, b.columns) == fp
    ensures Filed(Deposit(tree, fp, b))
  {
    var r := Deposit(tree, fp, b);
    forall k, x | k in r && x in VendOrder(r[k])
      ensures x.Valid() && Footprint(x.rows, x.columns) == k
    {
      DepositEntry(tree, fp, b, k, x);
    }
  }

  /** The index stays filed while none of its objects changes. */
  twostate lemma FiledUntouched(tree: map<nat, Entry>)
    requires old(Filed(tree)) && unchanged(Members(tree))
    ensures Filed(tree)
  {
  }

  /**
   * The index dirac_new leaves behind for footprint fp: Withdraw's on a hit,
   * the same index on a miss.
   */
  function IndexAfterNew(tree: map<nat, Entry>, fp: nat): map<nat, Entry> {
    if fp in tree then Withdraw(tree, fp).1 else tree
  }

  /** The cache: the size index of free objects. */
  class Cache {
    var tree: map<nat, Entry>

    /** Every object the cache holds. */
    ghost function Blocks(): set<Dirac>
      reads this
    {
      Members(tree)
    }

    /**
     * Each cached object is held once, is a well-formed object, and is filed
     * under its own footprint.
     */
    ghost predicate Valid()
      reads this, Blocks()
    {
      Disjoint(tree) && Filed(tree)
    }

    /** The empty cache (DIMINUTO_TREE_EMPTY). */
    constructor ()
      ensures Valid() && tree == map[] && Blocks() == {}
    {
      tree := map[];
    }

    /**
     * The lookup half of dirac_new: an object with room for rows x columns
     * elements, taken from the cache when an object of that footprint is free
     * (the chain head first, the tree node last) and obtained from `malloc`
     * otherwise; null when `malloc` fails. The object is no longer cached.
     */
    method Obtain(rows: nat, columns: nat, outOfMemory: bool) returns (that: Dirac?)
      requires Valid()
      modifies this
      ensures Valid()
      ensures Footprint(rows, columns) in old(tree) ==>
                that != null && that == Withdraw(old(tree), Footprint(rows, columns)).0
                && tree == Withdraw(old(tree), Footprint(rows, columns)).1
                && Blocks() == old(Blocks()) - {that}
      ensures Footprint(rows, columns) !in old(tree) ==>
                tree == old(tree) && (that == null <==> outOfMemory) && (that != null ==> fresh(that))
      ensures that != null ==> |that.body| == Count(rows, columns) && that !in Blocks()
      ensures that != null ==> fresh(that) || that in old(Blocks())
    {
      var fp := Footprint(rows, columns);
      var probe := Search(tree, fp);
      if probe == NoNode {
        that := Allocate(rows, columns, outOfMemory);
      } else if probe == Unequal {
        that := Allocate(rows, columns, outOfMemory);
      } else {
        WithdrawMembers(tree, fp);
        FiledWithdraw(tree, fp);
        var e := tree[fp];
        if e.peers == [] {
          that := e.node;
          tree := tree - {fp};
        } else {
          that := e.peers[0];
          tree := tree[fp := Entry(e.node, e.peers[1..])];
        }
        FootprintCount(rows, columns, that.rows, that.columns);
      }
    }

    /**
     * dirac_new: a zeroed rows x columns object, taken from the cache when an
     * object of that footprint is free and obtained from `malloc` otherwise;
     * null when `malloc` fails. The object handed out is no longer cached, and
     * the objects still cached are untouched.
     */
    method New(rows: nat, columns: nat, outOfMemory: bool) returns (that: Dirac?)
      requires Valid()
      modifies this, Blocks()
      ensures Valid()
      ensures Footprint(rows, columns) in old(tree) ==>
                that != null && that == Withdraw(old(tree), Footprint(rows, columns)).0
                && tree == Withdraw(old(tree), Footprint(rows, columns)).1
                && Blocks() == old(Blocks()) - {that}
      ensures Footprint(rows, columns) !in old(tree) ==>
                tree == old(tree) && (that == null <==> outOfMemory) && (that != null ==> fresh(that))
      ensures that != null ==>
                that.Valid() && that.rows == rows && that.columns == columns
                && that.body == Zeros(Count(rows, columns)) && that !in Blocks()
      ensures that != null ==> fresh(that) || that in old(Blocks())
      ensures that == null ==> unchanged(old(Blocks()))
      ensures that != null ==> unchanged(old(Blocks()) - {that})
    {
      that := Obtain(rows, columns, outOfMemory);
      label obtained:
      ghost var cached := tree;
      that := Construct(that, rows, columns);
      assert tree == cached;
      FiledUntouched@obtained(tree);
    }

    /**
     * dirac_delete: return an object to the cache and answer null. A new
     * footprint gets a tree node of its own; an existing one gets this object
     * as its tree node, with the displaced node chained behind it. When the
     * tree refuses the insertion the object is answered back unchanged.
     * Releasing an object the cache already holds is not allowed.
     */
    method Delete(that: Dirac, refused: bool) returns (r: Dirac?)
      requires Valid() && that.Valid() && that !in Blocks()
      modifies this
      ensures Valid()
      ensures refused ==> r == that && tree == old(tree)
      ensures !refused ==>
                r == null && tree == Deposit(old(tree), Footprint(that.rows, that.columns), that)
                && Blocks() == old(Blocks()) + {that}
    {
      var bytes := Footprint(that.rows, that.columns);
      if refused {
        r := that;
      } else {
        DepositMembers(tree, bytes, that);
        DepositDisjoint(tree, bytes, that);
        FiledDeposit(tree, bytes, that);
        if bytes !in tree {
          tree := tree[bytes := Entry(that, [])];
        } else {
          tree := tree[bytes := Entry(that, [tree[bytes].node] + tree[bytes].peers)];
        }
        r := null;
      }
    }

    /**
     * dirac_free: empty the cache, handing every tree node and every chain
     * member to `free` exactly once. The objects freed are answered, in the
     * order they are freed.
     */
    method Free() returns (released: seq<Dirac>)
      requires Valid()
      modifies this
      ensures Valid() && tree == map[] && Blocks() == {}
      ensures Distinct(released)
      ensures forall b :: b in released <==> b in old(Blocks())
    {
      released := [];
      ghost var start := Members(tree);
      while tree != map[]
        invariant Disjoint(tree)
        invariant Distinct(released)
        invariant forall b :: b in released <==> b in start && b !in Members(tree)
        invariant Members(tree) <= start
        decreases tree.Keys
      {
        var fp :| fp in tree;
        var e := tree[fp];
        ghost var whole := tree;
        ghost var before := released;
        tree := tree - {fp};
        var chain := FreeChain(e.peers);
        released := released + (chain + [e.node]);
        FreeStep(start, whole, fp, before, released);
      }
    }
  }

  /**
   * The inner loop of dirac_free: walk a peer chain from its head, freeing
   * each member in chain order; the members freed are answered in that order.
   */
  method FreeChain(peers: seq<Dirac>) returns (freed: seq<Dirac>)
    ensures freed == peers
  {
    freed := [];
    var i := 0;
    while i < |peers|
      invariant 0 <= i <= |peers|
      invariant freed == peers[..i]
    {
      freed := freed + [peers[i]];
      i := i + 1;
    }
  }

  /**
   * One round of dirac_free: freeing the chain and then the node of one
   * footprint keeps the freed list free of repeats and equal to what the
   * cache held at the start minus what it still holds.
   */
  lemma FreeStep(start: set<Dirac>, whole: map<nat, Entry>, fp: nat, before: seq<Dirac>, released: seq<Dirac>)
    requires fp in whole && Disjoint(whole) && Members(whole) <= start
    requires Distinct(before) && forall b :: b in before <==> b in start && b !in Members(whole)
    requires released == before + VendOrder(whole[fp])
    ensures Disjoint(whole - {fp}) && Members(whole - {fp}) <= start
    ensures Distinct(released) && forall b :: b in released <==> b in start && b !in Members(whole - {fp})
  {
    var v := VendOrder(whole[fp]);
    RemoveEntryMembers(whole, fp);
    forall x | x in v
      ensures x in Members(whole)
    {
      MemberOf(whole, fp, x);
    }
    ReleaseStep(before, v, Members(whole));
  }

  /** Appending one entry's objects, all still held, to the freed list keeps it free of repeats. */
  lemma ReleaseStep(before: seq<Dirac>, v: seq<Dirac>, held: set<Dirac>)
    requires Distinct(before) && Distinct(v)
    requires forall x :: x in v ==> x in held
    requires forall x :: x in before ==> x !in held
    ensures Distinct(before + v)
  {
    var s := before + v;
    forall i, j | 0 <= i < j < |s|
      ensures s[i] != s[j]
    {
      if j >= |before| && i < |before| {
        assert s[j] == v[j - |before|] && s[j] in held;
        assert s[i] == before[i] && s[i] !in held;
      } else if i >= |before| {
        assert s[i] == v[i - |before|] && s[j] == v[j - |before|];
      }
    }
  }
}
