# Signed-hash sketching on CombBLAS containers, its unit test, and the prox operators of the ML losses

This project models three parts of the sketching library in Dafny and proves
what each computes.

**The signed-hash (CountSketch) transform.** The transform is given by two
sequences. `row_idx[0..N)` holds one bucket below S per index, and
`row_value[0..N)` holds one signed weight per index. Together they stand for
the S x N matrix PI, which has one nonzero per column. The model covers the
three CombBLAS apply paths:

- **Dense distributed (multi-)vectors, columnwise.**
  - Every process scatters the entries it owns into a zeroed length-S buffer.
  - The buffers are summed across processes (an all-reduce).
  - Multi-vectors are guarded by the three shape checks.
- **Distributed sparse matrices, columnwise.**
  - Every nonzero is keyed by `col + ncols * row_idx[row]`.
  - Each process sums equal keys into its own ordered map.
  - The maps are all-gathered and merged, with equal keys summed.
  - Every key is decoded into the triple `(key / ncols, key % ncols, value)`.
- **Distributed sparse matrices, rowwise.**
  - Every process adds into a dense row-major buffer of `nrows * ncols` cells.
  - The buffers are summed across processes.
  - One triple is emitted per cell.

Each process holds a block of the matrix with block-local ids. It shifts them
by offsets: the rounded block size times its grid coordinate. The sparse paths
are proved correct for blocks that the container places at exactly those
offsets.

The proofs show:

- The dense path yields PI x for any split of the indices among the processes.
- The columnwise sparse path yields exactly PI * A: one triple per merged key,
  with no cell twice.
- The rowwise path yields A * PI^T: one triple per output cell.

**The sparse sketch-apply unit test.**

- `compute_sketch_matrix` builds PI explicitly.
- The n x m test matrix holds `r*m + c + 1` in cell (r, c).
- A hand-written loop computes the expected local product.
- `test_main` runs the three applications with n = 200, m = 100, n_s = 120
  and m_s = 60.

These reference computations are the specifications the apply paths are
proved against. The hand-written loop is proved to equal PI * A for the test
matrix.

**The loss and regularizer operators of the ML module.** The model covers:

- `squaredloss::evaluate` and its prox;
- `hingeloss::evaluate` and its prox, for one output and for several (multi-class);
- `l2::proxoperator`.

All of them work on flat column-major buffers. Each prox operator is proved to
write the minimiser of `0.5 ||Y - X||^2 + lambda * loss(Y)`, entry by entry
and over the whole buffer. This holds for lambda > -1 for the squared loss and
the l2 prox. It holds for lambda >= 0 and targets of +1/-1 for the hinge loss.

A comment above the hinge prox describes a squared penalty on Y - T. The model
follows the code, which implements the hinge penalty.

Values are `real`, an exact ring standing in for `double`. The MPI collectives
are folds over the per-process results, taken in process order.

Files:

- `sums.dfy`: the sum fold over sequences and its algebra. It also holds
  `Range`.
- `coordinates.dfy`:
  - index arithmetic, with `Mul` as multiplication by repeated addition;
  - coordinate-list matrices, with `CellSum`, `Product` and `Transpose`.
- `hash_data.dfy`: the transform data, PI, and the meaning of a columnwise or
  rowwise sketch.
- `hash_dense.dfy`: the dense vector paths.
- `hash_sparse.dfy`: the distributed sparse paths.
- `sketch_apply_test.dfy`: the unit test.
- `function_prox.dfy`: the losses and prox operators.

## Model

| member | source | states |
|---|---|---|
| HashTransformData.PiMatrix | tests/unit/SparseSketchApplyCombBLASTest.cpp:59-72 | PI has one triple per column i < N, in column i, with no cell listed twice |
| HashTransformData.PiColumn | tests/unit/SparseSketchApplyCombBLASTest.cpp:68-75 | cell (r, i) of PI is row_value[i] exactly when i < N and r == row_idx[i], and zero otherwise |
| HashTransformData.PiMeetsNonzero | sketch/hash_transform_CombBLAS.hpp:184-188 | for one nonzero of A, the sum over PI in the product PI * A collapses to the single weighted term the apply adds under its key |
| HashTransformData.ColumnwiseIsPiTimes | sketch/hash_transform_CombBLAS.hpp:184-193 | summing row_value[i] * A[i][c] over the nonzeros with row_idx[i] == r is cell (r, c) of PI * A |
| HashTransformData.NonzeroMeetsPiTransposed | sketch/hash_transform_CombBLAS.hpp:295-299 | for one nonzero of A, the sum over PI^T in A * PI^T collapses to the single term the rowwise apply adds at its buffer position |
| HashTransformData.RowwiseIsTimesPiTransposed | sketch/hash_transform_CombBLAS.hpp:288-302 | summing row_value[j] * A[r][j] over the nonzeros with row_idx[j] == c is cell (r, c) of A * PI^T |
| HashTransformData.SketchIsPiTimesVector | sketch/hash_transform_CombBLAS.hpp:58-70 | bucket k of the dense sketch is entry k of the matrix-vector product PI * x |
| HashDenseCombBLAS.LocalSketchTerm | sketch/hash_transform_CombBLAS.hpp:58-70 | the zero-initialised buffer ends with length S, and bucket k holds the sum of x[g] * row_value[g] over the owned indices g with row_idx[g] == k |
| HashDenseCombBLAS.AllreduceOfPartials | sketch/hash_transform_CombBLAS.hpp:72-79 | adding the per-process partial sketches entry by entry gives the sketch of everything the processes own together |
| HashDenseCombBLAS.PartitionIndependent | sketch/hash_transform_CombBLAS.hpp:62-79 | for any split of [0, N) among the processes, the distributed sketch equals the sketch one process holding every index computes |
| HashDenseCombBLAS.ApplySingle | sketch/hash_transform_CombBLAS.hpp:55-85 | the output is the sum across processes of their partial sketches, and it equals PI x whenever the processes split the indices |
| HashDenseCombBLAS.Apply | sketch/hash_transform_CombBLAS.hpp:87-99 | on any of the three shape mismatches the output is left untouched; otherwise output vector i is the sketch of input vector i alone |
| HashSparseCombBLAS.RoundedBlockIsIntegerDiv | sketch/hash_transform_CombBLAS.hpp:167-175 | the truncation of 0.5 + total / gridDim equals the integer (2 total + gridDim) / (2 gridDim) |
| HashSparseCombBLAS.RoundedBlockAboveFloor | sketch/hash_transform_CombBLAS.hpp:167-170 | the offset formula gives 67-row blocks for 200 rows on 3 grid rows, where integer division gives 66 |
| HashSparseCombBLAS.RoundedBlockNearest | sketch/hash_transform_CombBLAS.hpp:167-175 | the offset block size is total / gridDim rounded to the nearest integer, with halves rounded up, and it is exact when gridDim divides total |
| HashSparseCombBLAS.CellKeyRoundTrip | sketch/hash_transform_CombBLAS.hpp:184-185 | for a column below ncols, the key col + ncols * row decodes back to col by % and to row by / |
| HashSparseCombBLAS.KeyDecodeRoundTrip | sketch/hash_transform_CombBLAS.hpp:236-238 | re-encoding the decoded (key / ncols, key % ncols) gives the key back |
| HashSparseCombBLAS.Accumulate | sketch/hash_transform_CombBLAS.hpp:190-193 | the key's value grows by the contribution, the key is inserted when absent, and no other key changes |
| HashSparseCombBLAS.LocalColumnwiseMap | sketch/hash_transform_CombBLAS.hpp:177-195 | a process's map holds one entry per produced key, the sum of its shifted nonzeros' weighted values under that key |
| HashSparseCombBLAS.LocalMapStep | sketch/hash_transform_CombBLAS.hpp:184-193 | adding the next nonzero under its key turns the map of the first j nonzeros into the map of the first j + 1 |
| HashSparseCombBLAS.KeySumsSnoc | sketch/hash_transform_CombBLAS.hpp:190-193 | one more nonzero adds its value under its own key, inserting the key when new, and leaves every other key alone |
| HashSparseCombBLAS.KeySumsSnocAt | sketch/hash_transform_CombBLAS.hpp:190-193 | after one more nonzero, each key holds the sum of the contributions of all nonzeros so far |
| HashSparseCombBLAS.KeysOfSnoc | sketch/hash_transform_CombBLAS.hpp:190-193 | one more nonzero adds exactly its own key to the map's key set |
| HashSparseCombBLAS.KeyTermsAbsent | sketch/hash_transform_CombBLAS.hpp:190-193 | a key no nonzero produces receives nothing |
| HashSparseCombBLAS.KeyUnionMember | sketch/hash_transform_CombBLAS.hpp:215-228 | a key is in the merged key set exactly when some gathered map holds it |
| HashSparseCombBLAS.MergeMaps | sketch/hash_transform_CombBLAS.hpp:215-228 | the merged map has the union of the gathered keys, each holding the sum of its values over the maps that hold it |
| HashSparseCombBLAS.MergeInto | sketch/hash_transform_CombBLAS.hpp:219-227 | adding one map in gives the union of both key sets, each key holding the sum of its two values |
| HashSparseCombBLAS.MergeLeast | sketch/hash_transform_CombBLAS.hpp:219-227 | visiting the least unvisited key keeps the merge invariant and shrinks the set of keys left |
| HashSparseCombBLAS.MergeStep | sketch/hash_transform_CombBLAS.hpp:222-226 | adding the value of one unvisited key keeps the merge invariant with that key visited |
| HashSparseCombBLAS.MergeSumSnoc | sketch/hash_transform_CombBLAS.hpp:217-228 | the merge of one more map is the merge so far with that map added in, key by key |
| HashSparseCombBLAS.MergeAbsent | sketch/hash_transform_CombBLAS.hpp:215-228 | a key held by no gathered map merges to zero |
| HashSparseCombBLAS.LeastKey | sketch/hash_transform_CombBLAS.hpp:219-220 | the next key of an in-order walk is the least key not yet visited |
| HashSparseCombBLAS.MergeOrderIndependent | sketch/hash_transform_CombBLAS.hpp:212-228 | gathering the same maps in any other order gives the same merged map |
| HashSparseCombBLAS.MergeOfLocalMaps | sketch/hash_transform_CombBLAS.hpp:177-228 | merging the per-process maps gives the map of all nonzeros of A taken together |
| HashSparseCombBLAS.KeyTermIsColumnwiseTerm | sketch/hash_transform_CombBLAS.hpp:184-188 | what a nonzero adds under the key of cell (r, c) is what it contributes to cell (r, c) of PI * A |
| HashSparseCombBLAS.KeySumIsColumnwise | sketch/hash_transform_CombBLAS.hpp:184-193 | the value under the key of cell (r, c) is cell (r, c) of PI * A, and zero when the key is absent |
| HashSparseCombBLAS.EmitTriples | sketch/hash_transform_CombBLAS.hpp:230-240 | exactly one triple per key comes out, in strictly increasing key order; each is (key / ncols, key % ncols, value) and every key is covered |
| HashSparseCombBLAS.EmitLeast | sketch/hash_transform_CombBLAS.hpp:236-240 | emitting the least unvisited key keeps the decoding invariant and shrinks the set of keys left |
| HashSparseCombBLAS.EmitStep | sketch/hash_transform_CombBLAS.hpp:236-240 | appending the decoded triple of the least remaining key keeps entries, order and coverage of the decoding invariant |
| HashSparseCombBLAS.EmittedCells | sketch/hash_transform_CombBLAS.hpp:230-246 | the emitted triples denote the merged map cell by cell: cell (r, c) holds the value under the key of (r, c), or zero |
| HashSparseCombBLAS.EmittedDistinct | sketch/hash_transform_CombBLAS.hpp:236-246 | strictly increasing keys put no two emitted triples on the same cell |
| HashSparseCombBLAS.GatherLocalMaps | sketch/hash_transform_CombBLAS.hpp:155-213 | the all-gather hands over, in process order, the map each process built from its own shifted nonzeros |
| HashSparseCombBLAS.EmittedIsProduct | sketch/hash_transform_CombBLAS.hpp:230-248 | triples decoded from the merged map of all nonzeros of A denote PI * A cell by cell |
| HashSparseCombBLAS.ApplyColumnwise | sketch/hash_transform_CombBLAS.hpp:151-249 | the output's contents are replaced by PI * A, with exactly one triple per merged key, no cell twice, and every triple inside the S x ncol shape the keys encode |
| HashSparseCombBLAS.EmittedRows | sketch/hash_transform_CombBLAS.hpp:184-185 | every decoded triple lies in a row below S and a column below ncols, because its key is the key of some nonzero, whose bucket row_idx is below S |
| HashSparseCombBLAS.RowwisePosition | sketch/hash_transform_CombBLAS.hpp:295-299 | the buffer write row * ncols + row_idx[col] stays inside the nrows * ncols buffer when row < nrows and S <= ncols |
| HashSparseCombBLAS.BufferUpdate | sketch/hash_transform_CombBLAS.hpp:298-299 | adding the next nonzero's signed value at its position turns the buffer of the first j nonzeros into that of the first j + 1 |
| HashSparseCombBLAS.LocalRowwiseBuffer | sketch/hash_transform_CombBLAS.hpp:271-302 | a process's zeroed buffer of nrows * ncols cells ends with every position holding the sum of its shifted nonzeros' contributions there |
| HashSparseCombBLAS.AllreduceOfBuffers | sketch/hash_transform_CombBLAS.hpp:304-306 | summing the per-process buffers position by position gives the buffer of all nonzeros together |
| HashSparseCombBLAS.PosTermIsRowwiseTerm | sketch/hash_transform_CombBLAS.hpp:295-299 | what a nonzero adds at the position of cell (r, c) is its contribution to cell (r, c) of A * PI^T |
| HashSparseCombBLAS.PosSumIsRowwise | sketch/hash_transform_CombBLAS.hpp:288-302 | buffer position r * ncols + c holds cell (r, c) of A * PI^T |
| HashSparseCombBLAS.RowwiseIndices | sketch/hash_transform_CombBLAS.hpp:273-276 | entry i of the index vectors is the cell (i / ncols, i % ncols) whose row-major position is i |
| HashSparseCombBLAS.RowwiseCells | sketch/hash_transform_CombBLAS.hpp:308-317 | the rowwise output lists every cell of the nrows x ncols shape once, with the buffer value at its position, and nothing outside the shape |
| HashSparseCombBLAS.ApplyRowwise | sketch/hash_transform_CombBLAS.hpp:255-318 | the output's contents are replaced by A * PI^T. There is one triple per cell of the nrows x ncols output, no cell twice, and triple i sits at cell (i / ncols, i % ncols) in row-major order |
| SparseSketchApplyTest.ComputeSketchMatrix | tests/unit/SparseSketchApplyCombBLASTest.cpp:55-76 | the assembled matrix is PI: triple i is (row_idx[i], i, row_value[i]) |
| SparseSketchApplyTest.TestMatrixCell | tests/unit/SparseSketchApplyCombBLASTest.cpp:99-113 | the test matrix holds r*m + c + 1 in every cell (r, c) of the n x m shape, once, and nothing outside it |
| SparseSketchApplyTest.TestMatrixEntry | tests/unit/SparseSketchApplyCombBLASTest.cpp:106-110 | the triple filled at step r*m + c is (r, c, r*m + c + 1) |
| SparseSketchApplyTest.BuildTestMatrix | tests/unit/SparseSketchApplyCombBLASTest.cpp:99-113 | the fill loop with its running count starting at one produces the test matrix |
| SparseSketchApplyTest.LocalReference | tests/unit/SparseSketchApplyCombBLASTest.cpp:158-174 | the triple loop pushes, column by column of PI and of A, the reference list of n * m triples |
| SparseSketchApplyTest.ReferencePush | tests/unit/SparseSketchApplyCombBLASTest.cpp:168-172 | pushing the triple for (col, ccol) extends the reference prefix by exactly one entry |
| SparseSketchApplyTest.ReferenceRowFits | tests/unit/SparseSketchApplyCombBLASTest.cpp:166-168 | the m triples of column col of PI follow those of the earlier columns and fit in the list |
| SparseSketchApplyTest.ReferenceEntry | tests/unit/SparseSketchApplyCombBLASTest.cpp:169-171 | the triple pushed for (col, ccol) is (row_idx[col], ccol, row_value[col] * (ccol + col*m + 1)) |
| SparseSketchApplyTest.ReferenceTermAt | tests/unit/SparseSketchApplyCombBLASTest.cpp:169-171 | the reference triple at position col*m + ccol adds to cell (r, c) what entry (col, ccol) of A adds to cell (r, c) of PI * A |
| SparseSketchApplyTest.ReferenceTermAgrees | tests/unit/SparseSketchApplyCombBLASTest.cpp:163-171 | the pushed value row_value[col] * (ccol + col*m + 1) is the weighted test-matrix entry, at the same output cell |
| SparseSketchApplyTest.ReferenceIsPiTimesTestMatrix | tests/unit/SparseSketchApplyCombBLASTest.cpp:163-177 | the hand-built reference, with duplicate coordinates summed, is PI * A for the test matrix |
| SparseSketchApplyTest.HoldsTestMatrixWithin | tests/unit/SparseSketchApplyCombBLASTest.cpp:101-113 | processes holding exactly the test matrix's triples, in any split, keep every nonzero inside the n x m shape |
| SparseSketchApplyTest.TestMain | tests/unit/SparseSketchApplyCombBLASTest.cpp:79-206 | with n = 200, m = 100, n_s = 120 and m_s = 60, the outputs have shapes n_s x m, n_s x m and n x m_s; the columnwise outputs equal PI * A and the reference; the rowwise output equals A * PI^T |
| FunctionProx.Entry | ml/FunctionProx.hpp:132-141 | entry (i, j) of a column-major m x n buffer sits at a position below m*n that decodes back to i and j |
| FunctionProx.SquaredLossEvaluate | ml/FunctionProx.hpp:73-89 | the loop returns 0.5 times the sum of the squared differences over all height * width entries |
| FunctionProx.SquaredLossNonNegative | ml/FunctionProx.hpp:73-89 | the squared loss is never negative and is zero when O equals T |
| FunctionProx.SquaredProxOptimal | ml/FunctionProx.hpp:91-105 | for lambda > -1, (x + lambda t) / (1 + lambda) minimises 0.5 (y - x)^2 + 0.5 lambda (y - t)^2 |
| FunctionProx.SquaredLossProx | ml/FunctionProx.hpp:92-105 | every entry of Y becomes (X + lambda T) / (1 + lambda), and Y is all that changes |
| FunctionProx.SeparableSquared | ml/FunctionProx.hpp:91-105 | the whole-buffer objective 0.5 ||Y - X||^2 + lambda * 0.5 ||Y - T||^2 is the sum of the entry objectives |
| FunctionProx.SquaredProxMinimizes | ml/FunctionProx.hpp:91-105 | the buffer the squared-loss prox writes minimises 0.5 ||Y - X||^2 + lambda * 0.5 ||Y - T||^2 over all buffers, for lambda > -1 |
| FunctionProx.HingeLossEvaluate | ml/FunctionProx.hpp:108-143 | the loops return the hinge loss: with one output the sum of max(0, 1 - O[i] T[i]); with several, the signed margins against the truncated label; with none, zero |
| FunctionProx.AccumulateRow | ml/FunctionProx.hpp:133-140 | the inner loop adds the hinge terms of row i, column by column, to the running objective |
| FunctionProx.HingeLossSingleZero | ml/FunctionProx.hpp:123-129 | the single-output hinge loss is never negative, and it is zero exactly when every margin O[i] T[i] is at least one |
| FunctionProx.HingeRowZero | ml/FunctionProx.hpp:132-141 | a row's multi-output hinge terms are never negative, and they are zero exactly when every signed margin of the row is at least one |
| FunctionProx.HingeLossMultiZero | ml/FunctionProx.hpp:132-141 | the multi-output hinge loss is never negative, and it is zero exactly when every signed margin is at least one |
| FunctionProx.MarginAbove | ml/FunctionProx.hpp:163-164 | above the margin, keeping the point is optimal |
| FunctionProx.MarginBelow | ml/FunctionProx.hpp:167-168 | below 1 - lambda, moving the point by lambda is optimal |
| FunctionProx.MarginBetween | ml/FunctionProx.hpp:170-171 | between 1 - lambda and 1, landing on the margin is optimal |
| FunctionProx.HingeProxOptimal | ml/FunctionProx.hpp:159-175 | for a sign of +1 or -1 and lambda >= 0, the three-way closed form minimises 0.5 (y - x)^2 + lambda max(0, 1 - t y) |
| FunctionProx.HingeLossProx | ml/FunctionProx.hpp:146-200 | with one output, Y[i] is the three-way closed form against T[i]; with several, entry (i, j) is the closed form against +1 on the label column and -1 off it; with none, Y is unchanged |
| FunctionProx.ProxRow | ml/FunctionProx.hpp:178-196 | row i gets the closed form against the column's sign, and entries of the other rows keep their values |
| FunctionProx.SeparableHinge | ml/FunctionProx.hpp:159-175 | the whole-buffer hinge prox objective is the sum of the entry objectives |
| FunctionProx.HingeProxMinimizes | ml/FunctionProx.hpp:159-175 | the buffer the single-output hinge prox writes minimises 0.5 ||Y - X||^2 + lambda * hinge(Y, T) over all buffers, for targets of +1/-1 and lambda >= 0 |
| FunctionProx.L2Prox | ml/FunctionProx.hpp:299-308 | every entry of P becomes (W - mu) / (1 + lambda), and P is all that changes |
| FunctionProx.L2ProxMinimizes | ml/FunctionProx.hpp:299-308 | the l2 prox is the squared-loss prox of W - mu against zero, so for lambda > -1 it minimises 0.5 ||P - (W - mu)||^2 + lambda * 0.5 ||P||^2 |

## Left out

- MPI and boost::mpi collectives (`MPI_Allreduce`, `all_gather`, communicator duplication) are not modelled as communication. Each is a fold over the per-process results, taken in process order. `MergeOrderIndependent` and `PartitionIndependent` show that the order and the split do not matter.
- The CombBLAS containers are not modelled. This covers `SpParMat`, `SpDCCols` iterators, `FullyDistVec::SetElement` and `DenseVectorLocalIterator`.
  - A distributed sparse matrix is one list of local triples per process, with its grid coordinates and the global offsets of its block.
  - The nested column and nonzero loops walk that list in order.
  - A dense distributed vector is its global contents plus the list of global indices each process iterates over.
  - The triple constructor of the output matrix is `Assemble`, with duplicate coordinates summed by `CellSum`.
- `std::map` iteration is modelled as repeated choice of the least key not yet visited. The maps are Dafny maps.
- Floating point: every value is `real`, so rounding is not modelled.
  - The columnwise key is computed through `1.0 * ncols * row_idx[...]` in double. It is taken as the exact integer.
  - The offsets `static_cast<int>(0.5 + nrow / gridRows)` are modelled exactly; see `RoundedBlockNearest`.
- Integer widths are not modelled: `int`, `size_t` and `index_t` are unbounded. The `static_cast<int>(matrix_size)` of the rowwise all-reduce therefore cannot overflow in the model.
- ApplyColumnwise: requires every shifted nonzero to lie in a row below N and a column below the output's ncol. The columnwise `hash_transform_t::apply_impl` checks neither.
  - A row at or beyond N makes it read `row_idx` out of bounds.
  - A column at or beyond ncol reads nothing out of bounds. Its key `col + ncols * row_idx[row]` then equals the key of a cell in the next output row, so the contribution lands in the wrong cell. For example, with ncols = 2, cell (0, 2) has the same key as cell (1, 0).
- ApplyRowwise: requires every shifted nonzero to lie in a row below the output's nrow and a column below N. The rowwise `hash_transform_t::apply_impl` checks neither. A column at or beyond N makes it read `row_idx` out of bounds. A row at or beyond nrow makes it write `my_vals` out of bounds.
- ApplyColumnwise: does not require S <= nrow of the output, and neither does the columnwise `hash_transform_t::apply_impl`. The method promises that every emitted triple lies in a row below S and a column below ncol. When S > nrow, rows at or beyond nrow can reach the SpParMat triple constructor. What CombBLAS does with them is not part of this model. The test's shapes meet S <= nrow: n_s = 120 rows.
- ApplyColumnwise, ApplyRowwise: require `AtRoundedOffsets`. Each process's block carries the global row and column at which the distributed container places it. The apply instead shifts local ids by its own offsets, `static_cast<int>(0.5 + nrow / gridRows) * gridRow` and its column counterpart. Both paths are proved equal to PI * A and A * PI^T only when the two agree.
  - How CombBLAS actually lays out an SpParMat is not part of this model, so whether the two agree is not decided here.
  - The formula rounds to nearest. `RoundedBlockAboveFloor` shows that it differs from floor division when the grid dimension does not divide the size: 200 rows on 3 grid rows give 67 rather than 66.
  - `TestMain` carries the same requirement.
- ApplyRowwise: requires S <= ncols of the output, so that the buffer write `row * ncols + row_idx[col]` stays inside its row. This matches the test's shapes.
- How `row_idx` and `row_value` are drawn (`hash_transform_data_t` and the random context) is not part of this model. They are given sequences with every bucket below S.
- The constructors and the copy constructor of `hash_transform_t`, and the `apply` dispatchers, only forward their arguments and are not modelled separately.
- The test's expected products (`Mult_AnXBn_Synch`, `PSpGEMM`) and the sparse matrix equality `==` are taken as exact matrix products and cell-by-cell equality: `Product` and `CellSum`.
- The test's second run applies the transform to a local sparse output. That specialization is not part of this model. `TestMain` models it with the columnwise SpParMat apply and proves that its result equals the hand-built reference.
- The row-0-only guard of the local reference (`rank == 0`) and `BOOST_FAIL` are not modelled. The comparisons become postconditions of `TestMain`.
- The test's loop over `indptr` and `indices` of the local PI is modelled as a walk over the single entry of each column of PI. That entry is what the compressed-column form of PI holds.
- The prox operators may be called with Y aliasing X. The model passes inputs by value, so aliasing is not captured.
- Height * width is the buffer length and the leading dimension equals the height: `Get` and `Set` are modelled through `Entry`.
- The closed forms of the squared-loss and l2 prox divide by 1 + lambda. lambda = -1 is excluded by a precondition, because `squaredloss::proxoperator` and `l2::proxoperator` divide by zero there.
- The optimality lemmas need lambda > -1 (squared loss, l2) or lambda >= 0 (hinge). Outside these ranges the closed forms are not minimisers.
- HingeProxMinimizes: the whole-buffer minimisation is stated for the single-output case. The multi-output prox is covered per entry by `HingeProxOptimal`, applied to the sign of each column.
- SquaredLossNonNegative: states that O == T gives a zero loss. It does not state the converse (zero loss forces O == T).
- `logisticloss` (exp and log, an iterative Newton method, malloc and free) and `l2::evaluate` (which calls `elem::Norm`) are not part of this model.
- sketch/RFT_Elemental.hpp, sketch/RLT_Elemental.hpp, sketch/FUT.hpp, ml/krr.hpp and capi/cnla.cpp are not part of this model. They are floating-point wrappers, FFTW calls, solver orchestration and C-API glue.
- Products of indices are written with `IndexArith.Mul`, multiplication by repeated addition. `MulIsProduct` proves it equal to `*`.
