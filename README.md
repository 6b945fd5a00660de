# Dirac: the object cache, the shape rules and the elementwise matrix operations

Dirac stores a complex matrix as one allocation: a header holding the row and
column counts, followed by a flat row-major body of `complex double`
elements. Objects come from a process-wide cache. The cache keeps free objects
in a search tree keyed by their byte footprint,
`rows * columns * sizeof(complex) + sizeof(dirac_t)`. Each tree node carries a
peer chain of further free objects of the same footprint. So a released
2 x 3 object can serve a 3 x 2 request.

This project models that core in Dafny:

- `DiracObject` (`dirac_object.dfy`): the object as a class (`rows`,
  `columns`, `body`), the header getters, row-major indexing and
  `dirac_point_fast`, and the result-shape rules of the allocating helpers as
  pure functions on `Shape`.
- `SizeIndex` (`size_index.dfy`): the size index as a value. It is a map from
  footprint to `Entry(node, peers)`, that is, the tree node and its peer
  chain. `Withdraw` is the pop that allocation performs on an exact hit.
  `Deposit` is the insert-or-replace that release performs. Objects of one
  footprint are handed out in the order `VendOrder(e) = peers + [node]`.
- `DiracCache` (`dirac_cache.dfy`): the footprint arithmetic, `construct`,
  `compare`, `allocate`, and `dirac_point_safe`. The cache itself is a class
  whose `tree` field the operations `New` (`dirac_new`), `Delete`
  (`dirac_delete`) and `Free` (`dirac_free`) update in place. Its invariant
  `Valid()` says:
  - every cached object is held exactly once;
  - every cached object is well formed;
  - every cached object is filed under its own footprint.
- `DiracHelpers` (`dirac_helpers.dfy`): `dirac_new_dup/trn/sum/pro/kro/had`.
  Each checks its shape rule (errno `EINVAL` is the `einval` result) and then
  allocates through the cache.
- `DiracMatrix` (`dirac_matrix.dfy`): `dirac_matrix_trn`, `dirac_matrix_add`
  and `dirac_matrix_sub`. Their nested row and column loops are proved to
  leave the transpose, the elementwise sum or the elementwise difference of
  the operands' bodies.
- `DiracScenarios` (`dirac_scenarios.dfy`): two scenarios from the cache's
  unit test and one built on `dirac_matrix_trn`:
  - the exact reuse order of four released objects;
  - bounds-checked access to a vended 3 x 4 object;
  - a released 2 x 3 object handed out again as the 3 x 2 result of a
    transpose.

Some behaviour belongs to the environment rather than to this code: a failing
`malloc` (`outOfMemory`) and a refused tree insertion (`refused`). These are
boolean parameters of the operations that can meet them.

Constants follow the LP64 layout:

- `sizeof(dirac_complex_t)` = 16;
- `sizeof(dirac_t)` = 56, the tree linkage and size field that overlay a free
  object.

So the test's shapes have footprints 56 (0 x 0), 152 (2 x 3 and 3 x 2) and
312 (4 x 4).

`dirac_new_pro` is modelled as written. Its result is columns(a) x rows(b),
and since its guard demands columns(a) == rows(b), the result is always square.
The header's own test expects this: a 3 x 5 by 5 x 7 request gives 5 x 5. It is
not the mathematical shape of a matrix product, which would be rows(a) x
columns(b). `ProShapeCount` states the consequence.

## Model

| member | source | states |
|---|---|---|
| DiracObject.Add | Dirac/src/dirac_matrix.c:104 | complex addition, which subtraction of the second operand undoes |
| DiracObject.Sub | Dirac/src/dirac_matrix.c:128 | complex subtraction, under which a number minus itself is 0+0i |
| DiracObject.Zeros | Dirac/src/dirac_cache.c:53 | the body `memset` leaves has the given length and every element is 0+0i |
| DiracObject.OffsetInRange | Dirac/inc/com/diag/dirac/dirac.h:122-124 | an in-range (row, column) has a row-major index below rows * columns |
| DiracObject.OffsetInverse | Dirac/inc/com/diag/dirac/dirac.h:122-124 | dividing the index by the width gives the row back, and the remainder gives the column |
| DiracObject.OffsetInjective | Dirac/inc/com/diag/dirac/dirac.h:122-124 | distinct in-range pairs have distinct indices |
| DiracObject.OffsetSurjective | Dirac/inc/com/diag/dirac/dirac.h:122-124 | every position below rows * columns is the index of exactly the in-range pair (i / columns, i % columns) |
| DiracObject.Dirac.Malloc | Dirac/src/dirac_cache.c:74-77 | fresh memory has room for the requested number of elements |
| DiracObject.Dirac.Rows | Dirac/inc/com/diag/dirac/dirac.h:92-94 | the getter answers the stored row count |
| DiracObject.Dirac.Columns | Dirac/inc/com/diag/dirac/dirac.h:96-98 | the getter answers the stored column count |
| DiracObject.Dirac.Index | Dirac/inc/com/diag/dirac/dirac.h:122-124 | the index divides back to (row, column), and in range it falls inside the body |
| DiracObject.Dirac.PointFast | Dirac/inc/com/diag/dirac/dirac.h:126-128 | with no bounds check the caller must keep row and column in range, and the position is then inside the body at the row-major index |
| DiracObject.DupShape | Dirac/inc/com/diag/dirac/dirac.h:152-154 | the duplicate has the operand's shape |
| DiracObject.TrnShape | Dirac/inc/com/diag/dirac/dirac.h:156-158 | rows and columns swap and the element count is kept |
| DiracObject.SumShape | Dirac/inc/com/diag/dirac/dirac.h:160-170 | fails exactly when the shapes differ, and otherwise gives the shared shape |
| DiracObject.ProShape | Dirac/inc/com/diag/dirac/dirac.h:172-180 | fails exactly when columns(a) != rows(b), and otherwise gives columns(a) x columns(a) |
| DiracObject.KroShape | Dirac/inc/com/diag/dirac/dirac.h:182-185 | never fails, and the row and column counts multiply |
| DiracObject.HadShape | Dirac/inc/com/diag/dirac/dirac.h:187-198 | the same rule as the sum: fails exactly when the shapes differ |
| DiracObject.TrnShapeInvolution | Dirac/inc/com/diag/dirac/dirac.h:156-158 | swapping twice gives the shape back |
| DiracObject.KroShapeCount | Dirac/inc/com/diag/dirac/dirac.h:182-185 | the Kronecker shape holds the product of the operands' element counts |
| DiracObject.ProShapeCount | Dirac/inc/com/diag/dirac/dirac.h:172-180 | a product shape that succeeds holds columns(a)^2 elements whatever rows(a) and columns(b) are |
| SizeIndex.VendOrder | Dirac/src/dirac_cache.c:95-100 | an entry hands out its chain head first and its tree node last, one object per element |
| SizeIndex.Compare | Dirac/src/dirac_cache.c:60-72 | answers exactly -1, 0 or 1, with the sign of the footprint comparison |
| SizeIndex.CompareTotalOrder | Dirac/src/dirac_cache.c:60-72 | the comparison is antisymmetric and transitive |
| SizeIndex.Search | Dirac/src/dirac_cache.c:90-95 | no node exactly when the tree is empty, and an equal node exactly when the footprint is cached |
| SizeIndex.Withdraw | Dirac/src/dirac_cache.c:95-100 | a hit hands out the first object in vend order, and the entry keeps the rest; with an empty chain the node leaves the tree; other footprints are untouched |
| SizeIndex.Deposit | Dirac/src/dirac_cache.c:111-120 | the released object becomes the tree node; a new footprint gets an empty chain, and an existing one gets the displaced node at the head of its chain; other footprints are untouched |
| SizeIndex.WithdrawMembers | Dirac/src/dirac_cache.c:95-100 | the object handed out was cached and no longer is, every other object stays cached, and each object is still held once |
| SizeIndex.DepositMembers | Dirac/src/dirac_cache.c:111-120 | releasing an object the cache does not hold adds exactly that object |
| SizeIndex.DepositDisjoint | Dirac/src/dirac_cache.c:111-120 | releasing an object the cache does not hold keeps every object held once |
| SizeIndex.RemoveEntryMembers | Dirac/src/dirac_cache.c:134-142 | removing a tree node with its chain leaves exactly the objects of the other footprints |
| SizeIndex.DepositThenWithdraw | Dirac/src/dirac_cache.c:95-120 | release then allocation of one footprint restores the index and returns the released object when that footprint was not cached, and returns the displaced node otherwise |
| SizeIndex.DepositAllShape | Dirac/src/dirac_cache.c:111-120 | releasing several objects into an uncached footprint makes the last one the node and chains the others newest first |
| SizeIndex.WithdrawAllOrder | Dirac/src/dirac_cache.c:95-100 | allocating as many objects as an entry holds hands them out in vend order and removes the entry |
| SizeIndex.PeerChainExhaustion | Dirac/src/dirac_cache.c:95-120 | releasing k objects of one footprint and then allocating k returns them in the order bs[k-2], ..., bs[0], bs[k-1], which is a permutation, and restores the index |
| DiracCache.Count | Dirac/src/dirac_cache.c:38-40 | the element count rows * columns, zero whenever either dimension is |
| DiracCache.Length | Dirac/src/dirac_cache.c:42-44 | the body's bytes, 16 per element, zero exactly when the object has no elements |
| DiracCache.Footprint | Dirac/src/dirac_cache.c:46-48 | the object's bytes, body plus sizeof(dirac_t), never below sizeof(dirac_t); FootprintCount and FootprintTranspose relate footprints of different shapes |
| DiracCache.FootprintMinimum | Dirac/src/dirac_cache.c:38-48 | the footprint is at least sizeof(dirac_t), and equals it exactly when the object has no elements |
| DiracCache.FootprintTranspose | Dirac/src/dirac_cache.c:38-48 | size(rows, columns) == size(columns, rows) |
| DiracCache.FootprintCount | Dirac/src/dirac_cache.c:38-48 | two shapes share a footprint exactly when they hold the same number of elements |
| DiracCache.Construct | Dirac/src/dirac_cache.c:50-58 | a non-null object gets the requested shape and an all-zero body, and null passes through |
| DiracCache.Allocate | Dirac/src/dirac_cache.c:74-77 | null exactly when `malloc` fails, and otherwise a fresh object with room for rows * columns elements |
| DiracCache.PointSafe | Dirac/src/dirac_cache.c:152-162 | null exactly when row >= rows or column >= columns, and otherwise the in-body position of (row, column) |
| DiracCache.FiledWithdraw | Dirac/src/dirac_cache.c:95-100 | a hit hands out a well-formed object whose footprint is the one requested, and the rest stays filed under its own footprint |
| DiracCache.FiledDeposit | Dirac/src/dirac_cache.c:107-120 | releasing a well-formed object under its own footprint keeps the cache filed |
| DiracCache.FiledUntouched | Dirac/src/dirac_cache.c:102 | writing an object the cache does not hold leaves the cache filed |
| DiracCache.Cache.constructor | Dirac/src/dirac_cache.c:32 | the cache starts empty and valid |
| DiracCache.Cache.Obtain | Dirac/src/dirac_cache.c:83-101 | on a hit, the first object in vend order, taken out of the cache; on a miss (empty tree or unequal node), a fresh object or null when `malloc` fails, with the cache unchanged |
| DiracCache.Cache.New | Dirac/src/dirac_cache.c:83-103 | keeps the cache valid; a hit returns the Withdraw result and the cache becomes Withdraw's index; a miss returns a fresh object, or null exactly when `malloc` fails; a non-null result has the requested shape, an all-zero body, and is no longer cached; the objects still cached are untouched |
| DiracCache.Cache.Delete | Dirac/src/dirac_cache.c:105-123 | keeps the cache valid; a refused insertion answers the object back with the cache unchanged; otherwise it answers null, the index becomes Deposit's, and the cache holds exactly one object more |
| DiracCache.Cache.Free | Dirac/src/dirac_cache.c:125-146 | leaves the cache empty, and frees every object it held exactly once and nothing else |
| DiracCache.FreeChain | Dirac/src/dirac_cache.c:136-141 | walking a chain frees its members in chain order |
| DiracCache.FreeStep | Dirac/src/dirac_cache.c:133-144 | one round of the outer loop keeps the freed list free of repeats and equal to what was cached minus what still is |
| DiracHelpers.NewDup | Dirac/inc/com/diag/dirac/dirac.h:152-154 | a zeroed object of the operand's shape, or null exactly when its footprint is not cached and `malloc` fails; on a hit the object handed out is Withdraw's and the index becomes Withdraw's, and on a miss the index stays as it was and any object handed out is fresh, the cache holds no new object, and every other cached object is untouched |
| DiracHelpers.NewTrn | Dirac/inc/com/diag/dirac/dirac.h:156-158 | a zeroed object of the swapped shape, or null exactly when that footprint is not cached and `malloc` fails; on a hit the object handed out is Withdraw's and the index becomes Withdraw's, and on a miss the index stays as it was and any object handed out is fresh, the cache holds no new object, and every other cached object is untouched |
| DiracHelpers.NewSum | Dirac/inc/com/diag/dirac/dirac.h:160-170 | EINVAL, null and an untouched cache exactly when the shapes differ; otherwise a zeroed object of the shared shape, or null exactly when `malloc` is needed and fails; when it allocates, on a hit the object handed out is Withdraw's and the index becomes Withdraw's, and on a miss the index stays as it was and any object handed out is fresh, the cache holds no new object, and every other cached object is untouched |
| DiracHelpers.NewPro | Dirac/inc/com/diag/dirac/dirac.h:172-180 | EINVAL, null and an untouched cache exactly when columns(a) != rows(b); otherwise a zeroed columns(a) x rows(b) object, or null exactly when `malloc` is needed and fails; when it allocates, on a hit the object handed out is Withdraw's and the index becomes Withdraw's, and on a miss the index stays as it was and any object handed out is fresh, the cache holds no new object, and every other cached object is untouched |
| DiracHelpers.NewKro | Dirac/inc/com/diag/dirac/dirac.h:182-185 | a zeroed object of the multiplied shape, or null exactly when that footprint is not cached and `malloc` fails; on a hit the object handed out is Withdraw's and the index becomes Withdraw's, and on a miss the index stays as it was and any object handed out is fresh, the cache holds no new object, and every other cached object is untouched |
| DiracHelpers.NewHad | Dirac/inc/com/diag/dirac/dirac.h:187-198 | the sum's rule: EINVAL exactly when the shapes differ, otherwise a zeroed object of the shared shape; when it allocates, on a hit the object handed out is Withdraw's and the index becomes Withdraw's, and on a miss the index stays as it was and any object handed out is fresh, the cache holds no new object, and every other cached object is untouched |
| DiracMatrix.Transposed | Dirac/src/dirac_matrix.c:76-82 | the transpose body has the operand's element count |
| DiracMatrix.TransposedAt | Dirac/src/dirac_matrix.c:76-82 | result[c * rows + r] == a[r * columns + c] for every in-range (r, c) |
| DiracMatrix.TransposeInvolution | Dirac/src/dirac_matrix.c:62-85 | transposing twice reproduces the original body |
| DiracMatrix.SumBody | Dirac/src/dirac_matrix.c:101-106 | the sum body has the operands' length |
| DiracMatrix.DiffBody | Dirac/src/dirac_matrix.c:125-130 | the difference body has the operands' length |
| DiracMatrix.DiffAfterSum | Dirac/src/dirac_matrix.c:87-133 | subtracting b from a + b gives a back, so the difference undoes the sum |
| DiracMatrix.SumCommutes | Dirac/src/dirac_matrix.c:101-106 | the sum does not depend on the order of the operands |
| DiracMatrix.DiffSelf | Dirac/src/dirac_matrix.c:125-130 | a body minus itself is all zeros |
| DiracMatrix.FillTransposed | Dirac/src/dirac_matrix.c:76-82 | the nested loops leave exactly the transpose of the operand's body in the result |
| DiracMatrix.MatrixTrn | Dirac/src/dirac_matrix.c:62-85 | leaves the cache valid and the operand unchanged; null exactly when the cache misses and `malloc` fails; otherwise a columns(a) x rows(a) object holding the transpose; on a hit the object handed out is Withdraw's and the index becomes Withdraw's, and on a miss the index stays as it was and any object handed out is fresh, the cache holds no new object, and every other cached object is untouched |
| DiracMatrix.FillElementwise | Dirac/src/dirac_matrix.c:101-106 | the nested loops leave exactly the elementwise sum, or for subtraction the difference, in the result |
| DiracMatrix.MatrixAdd | Dirac/src/dirac_matrix.c:87-109 | leaves the cache valid and the operands unchanged; EINVAL exactly when the shapes differ; otherwise null exactly when `malloc` is needed and fails, or an object of the operands' shape with result[i] == a[i] + b[i]; when it allocates, on a hit the object handed out is Withdraw's and the index becomes Withdraw's, and on a miss the index stays as it was and any object handed out is fresh, the cache holds no new object, and every other cached object is untouched |
| DiracMatrix.MatrixSub | Dirac/src/dirac_matrix.c:111-133 | the same as the sum, with result[i] == a[i] - b[i]; when it allocates, on a hit the object handed out is Withdraw's and the index becomes Withdraw's, and on a miss the index stays as it was and any object handed out is fresh, the cache holds no new object, and every other cached object is untouched |
| DiracScenarios.TestFootprints | Dirac/src/dirac_cache.c:46-48 | the test's shapes have footprints 56, 152, 152 and 312 |
| DiracScenarios.ReleasedIndex | Dirac/tst/unittest-dirac-cache.c:87-101 | releasing 3 x 2, 0 x 0, 4 x 4, 2 x 3 in turn files the 2 x 3 object as the node of the shared footprint, with the 3 x 2 object chained behind it |
| DiracScenarios.ReuseOrder | Dirac/tst/unittest-dirac-cache.c:103-122 | allocating 0 x 0, 2 x 3, 3 x 2, 4 x 4 then returns the old 0 x 0, 3 x 2, 2 x 3 and 4 x 4 objects in that order, and empties the index |
| DiracScenarios.VendFresh | Dirac/tst/unittest-dirac-cache.c:62-85 | an empty cache vends four distinct fresh objects of the requested shapes and stays empty |
| DiracScenarios.TransposeReuse | Dirac/src/dirac_matrix.c:62-85 | a 2 x 3 object released into an empty cache is the very object `dirac_matrix_trn` hands out for the 3 x 2 transpose of another 2 x 3 object, with the transposed body, and the cache ends empty |
| DiracScenarios.PointSafeCorners | Dirac/tst/unittest-dirac-cache.c:169-170 | in a 3 x 4 object, (0, 0) and (2, 3) are in range, at positions 0 and 11 |
| DiracScenarios.PointSafeBeyond | Dirac/tst/unittest-dirac-cache.c:171-173 | in a 3 x 4 object, row 3 or column 4 gives null |
| DiracScenarios.PointScenario | Dirac/tst/unittest-dirac-cache.c:158-161 | the cache vends a 3 x 4 object whose every element is zero |

## Left out

- The mutex and critical sections of the cache: the model is single-threaded.
- The internals of the foreign tree library (balancing, search, insert-or-replace, first/next/remove, audit). The tree is a map keyed by footprint. Search reports whether the tree is empty and whether the footprint is present. Insert-or-replace either succeeds (a new node or a replaced node) or is refused (the `refused` parameter). When it replaces a node it is assumed to hand back the displaced node with its own `data` link, and so its peer chain, intact, since `dirac_delete` then chains that node, with its chain behind it, after the released object; Deposit rests on this. Remove is likewise assumed to leave a removed node's `data` link intact, since `dirac_free` reads that link after removing the node to walk its chain; DiracCache.Cache.Free's claim that every chain member is freed rests on this. Ascending key order is not modelled.
- `dirac_audit` and `dirac_dump`: a wrapper over the foreign audit, and formatted output.
- `dirac_matrix_print`, and the `diminuto_perror` diagnostic that `dirac_matrix_trn`, `dirac_matrix_add` and `dirac_matrix_sub` print when they answer null: formatting and I/O only.
- `dirac_point`: a build-time switch between `dirac_point_safe` (with DEBUG) and `dirac_point_fast`, both of which are modelled.
- `dirac_matrix_mul`: its middle loop increments `rr` instead of `mm` and stores instead of accumulating, so it has no coherent behaviour to state.
- Complex doubles: elements are pairs of exact reals, so there is no rounding, no NaN and no `CMPLX`/`creal`/`cimag`.
- The byte-level union overlay of header, body and free-node linkage. In the source, a refused insertion in `dirac_delete` leaves the tree linkage written over the object's header. The model answers the object back unchanged.
- DiracCache.Footprint: `size_t` and `unsigned int` are unbounded here, so `size`, `dirac_index` and the Kronecker dimensions do not wrap around. Likewise the `int` loop counters and indices of the matrix operations, and the narrowing of `dirac_index`'s `size_t` into an `int`, are not modelled: every counter and index is an unbounded natural.
- DiracCache.Cache.Obtain: the search key is assumed to be exactly the requested footprint. The source builds the key in a local `diminuto_tree_t me`, writes the footprint through `((dirac_t *)&me)->node.size` (Dirac/src/dirac_cache.c:85-87), and `compare` reads it back from the same place (Dirac/src/dirac_cache.c:65-67). Because `dirac_node_t` puts `size` after the whole `diminuto_tree_t` (Dirac/inc/com/diag/dirac/dirac.h:76-79), that write and read fall outside `me`, which is undefined behaviour in C. The model does not capture what such an out-of-bounds key would do.
- DiracCache.Cache.Free: it takes the footprints in an arbitrary order, while the source walks them in ascending order. The order in which objects are freed is not observable through the cache. Within one footprint the chain is freed first and then the node, as in the source.
- DiracCache.Cache.Delete: releasing an object the cache already holds is excluded by its precondition. The source does not check for this, and it would corrupt the tree.
- Zeroing fills the whole body of the vended object. The source zeroes only the first rows * columns elements of a pooled object, and that is the whole body, because footprints are equal exactly when element counts are.
- DiracScenarios.ReuseOrder: the second half of the reuse test is stated on the index functions (Deposit, then Withdraw for each request), not as a run of the Cache methods. Cache.New and Cache.Delete are proved to move the index exactly as those functions do. The final releases and `dirac_free` of the test (lines 124-141) are covered by Cache.Delete and Cache.Free in general, not as a scenario.
- DiracScenarios.PointScenario: the test's element loops (lines 175-200) are stated as "the body is all zeros" together with PointFast's and Index's contracts, not as loops.
- `Dirac/src/dirac.c` (a superseded draft of the cache), `Dirac/src/dirac_core.c` (an unfinished stub) and the empty private header `Dirac/src/dirac.h` are not part of this model.
