/** The reference computations of the sparse sketch-apply unit test: the
    explicit sketching matrix PI built from the transform data, the dense test
    matrix A with A[r][c] = r*m + c + 1, the local expected product, and the
    test driver that applies the columnwise and rowwise transforms to A and
    compares the results with the expected products. */
module SparseSketchApplyTest {
  import opened Sums
  import opened IndexArith
  import opened Coordinates
  import opened HashTransformData
  import opened HashSparseCombBLAS

  /** The fixed sizes of the test: A is n x m, the columnwise sketch has n_s
      rows, the rowwise sketch has m_s columns. */
  const N: nat := 200
  const M: nat := 100
  const NS: nat := 120
  const MS: nat := 60

  /** `compute_sketch_matrix`: one triple per column i below the number of
      weights, at row rowIdx[i] with value rowValue[i], filled into three index
      and value vectors and assembled into a matrix. */
  method ComputeSketchMatrix(t: HashTransform) returns (pi: seq<Triple>)
    requires t.Valid()
    ensures pi == PiMatrix(t)
  {
    var sketchSize := |t.rowValue|;
    var cols := new nat[sketchSize];
    var rows := new nat[sketchSize];
    var vals := new real[sketchSize];
    for i := 0 to sketchSize
      invariant forall j :: 0 <= j < i ==> cols[j] == j && rows[j] == t.rowIdx[j] && vals[j] == t.rowValue[j]
    {
      cols[i] := i;
      rows[i] := t.rowIdx[i];
      vals[i] := t.rowValue[i];
    }
    pi := Assemble(rows[..], cols[..], vals[..]);
  }

  /** The dense n x m test matrix as a coordinate list: its k-th triple sits
      at row k / m, column k % m, and holds k + 1. */
  function TestMatrix(n: nat, m: nat): (a: seq<Triple>)
    ensures |a| == Mul(n, m)
  {
    seq(Mul(n, m), k requires 0 <= k < Mul(n, m) =>
      MulDecodeBounds(k, n, m);
      Triple(k / m, k % m, (k + 1) as real))
  }

  /** The test matrix holds r*m + c + 1 in every cell (r, c) of the n x m
      shape, once, and nothing outside it. */
  lemma TestMatrixCell(n: nat, m: nat, r: nat, c: nat)
    ensures DistinctCells(TestMatrix(n, m))
    ensures CellSum(TestMatrix(n, m), r, c) == if r < n && c < m then (Mul(r, m) + c + 1) as real else 0.0
  {
    var a := TestMatrix(n, m);
    forall i, j | 0 <= i < j < |a| ensures a[i].row != a[j].row || a[i].col != a[j].col {
      MulDecode(i, n, m);
      if a[i].row == a[j].row && a[i].col == a[j].col {
        DecodeInjective(i, j, m);
      }
    }
    if r < n && c < m {
      var k := Mul(r, m) + c;
      MulRowBound(r, c, n, m);
      MulDivMod(r, c, m);
      CellSumAt(a, k);
    } else {
      forall i | 0 <= i < |a| ensures a[i].row != r || a[i].col != c {
        MulDecode(i, n, m);
      }
      CellSumAbsent(a, r, c);
    }
  }

  /** The construction of A: three vectors of n * m entries filled in one loop
      with a running count that starts at one. */
  method BuildTestMatrix(n: nat, m: nat) returns (a: seq<Triple>)
    ensures a == TestMatrix(n, m)
  {
    var count := 1.0;
    var matrixFull := Mul(n, m);
    var colsf := new nat[matrixFull];
    var rowsf := new nat[matrixFull];
    var valsf := new real[matrixFull];
    for i := 0 to matrixFull
      invariant count == (i + 1) as real
      invariant forall j :: 0 <= j < i ==> colsf[j] == TestMatrix(n, m)[j].col && rowsf[j] == TestMatrix(n, m)[j].row
      invariant forall j :: 0 <= j < i ==> valsf[j] == TestMatrix(n, m)[j].val
    {
      MulDecode(i, n, m);
      colsf[i] := i % m;
      rowsf[i] := i / m;
      valsf[i] := count;
      count := count + 1.0;
    }
    a := Assemble(rowsf[..], colsf[..], valsf[..]);
  }

  /** The expected product the test builds by hand: for every column col of PI
      (holding rowValue[col] at row rowIdx[col]) and every column ccol < m of
      A, the triple (rowIdx[col], ccol, rowValue[col] * (ccol + col*m + 1)),
      listed column by column. */
  function ReferenceCoords(t: HashTransform, m: nat): (coords: seq<Triple>)
    requires t.Valid()
    ensures |coords| == Mul(t.n, m)
  {
    seq(Mul(t.n, m), k requires 0 <= k < Mul(t.n, m) =>
      MulDecodeBounds(k, t.n, m);
      Triple(t.rowIdx[k / m], k % m, ReferenceValue(t, m, k / m, k % m)))
  }

  /** The value the loop computes for column col of PI and column ccol of A:
      the weight rowValue[col] times the entry col*m + ccol + 1 of A. */
  function ReferenceValue(t: HashTransform, m: nat, col: nat, ccol: nat): real
    requires col < |t.rowValue|
  {
    t.rowValue[col] * ((ccol + Mul(col, m) + 1) as real)
  }

  /** The local expected-product loop: walk the columns of PI, for each its
      single entry, and for each column ccol of A push one triple. */
  method LocalReference(t: HashTransform, m: nat) returns (coordsNew: seq<Triple>)
    requires t.Valid()
    ensures coordsNew == ReferenceCoords(t, m)
  {
    ghost var ref := ReferenceCoords(t, m);
    coordsNew := [];
    for col := 0 to t.n
      invariant Mul(col, m) <= |ref|
      invariant coordsNew == ref[..Mul(col, m)]
    {
      ReferenceRowFits(t, m, col);
      for ccol := 0 to m
        invariant coordsNew == ref[..Mul(col, m) + ccol]
      {
        ReferencePush(t, m, col, ccol, coordsNew);
        coordsNew := coordsNew + [Triple(t.rowIdx[col], ccol, ReferenceValue(t, m, col, ccol))];
      }
    }
    assert ref[..Mul(t.n, m)] == ref;
  }

  /** Pushing the triple for column col of PI and column ccol of A extends
      the reference prefix by one. */
  lemma ReferencePush(t: HashTransform, m: nat, col: nat, ccol: nat, prefix: seq<Triple>)
    requires t.Valid() && col < t.n && ccol < m
    requires Mul(col, m) + ccol <= |ReferenceCoords(t, m)|
    requires prefix == ReferenceCoords(t, m)[..Mul(col, m) + ccol]
    ensures Mul(col, m) + ccol < |ReferenceCoords(t, m)|
    ensures prefix + [Triple(t.rowIdx[col], ccol, ReferenceValue(t, m, col, ccol))] == ReferenceCoords(t, m)[..Mul(col, m) + ccol + 1]
  {
    var ref, k := ReferenceCoords(t, m), Mul(col, m) + ccol;
    ReferenceEntry(t, m, col, ccol);
    assert ref[..k + 1] == ref[..k] + [ref[k]];
  }

  /** The m triples pushed for column col of PI fit in the reference list,
      right after those of the columns before it. */
  lemma ReferenceRowFits(t: HashTransform, m: nat, col: nat)
    requires t.Valid() && col < t.n
    ensures Mul(col + 1, m) == Mul(col, m) + m <= |ReferenceCoords(t, m)|
  {
    MulLeftMonotone(col + 1, t.n, m);
  }

  /** The triple the loop pushes for column col of PI and column ccol of A is
      the one at position col*m + ccol of the reference list. */
  lemma ReferenceEntry(t: HashTransform, m: nat, col: nat, ccol: nat)
    requires t.Valid() && col < t.n && ccol < m
    ensures Mul(col, m) + ccol < |ReferenceCoords(t, m)|
    ensures ReferenceCoords(t, m)[Mul(col, m) + ccol] == Triple(t.rowIdx[col], ccol, ReferenceValue(t, m, col, ccol))
  {
    MulRowBound(col, ccol, t.n, m);
    MulDivMod(col, ccol, m);
  }

  /** The hand-built reference agrees with PI * A for the test matrix, cell by
      cell, with duplicate coordinates summed. */
  lemma ReferenceIsPiTimesTestMatrix(t: HashTransform, m: nat, r: nat, c: nat)
    requires t.Valid()
    ensures CellSum(ReferenceCoords(t, m), r, c) == Product(PiMatrix(t), TestMatrix(t.n, m), r, c)
  {
    var ref, a := ReferenceCoords(t, m), TestMatrix(t.n, m);
    forall k | 0 <= k < |ref| ensures CellTerm(r, c, ref[k]) == ColumnwiseTerm(t, r, c, a[k]) {
      MulDecode(k, t.n, m);
      ReferenceTermAt(t, m, r, c, k / m, k % m);
    }
    SumReindex(ref, a, e => CellTerm(r, c, e), e => ColumnwiseTerm(t, r, c, e));
    forall k | 0 <= k < |a| ensures a[k].row < t.n {
      MulDecode(k, t.n, m);
    }
    ColumnwiseIsPiTimes(t, a, r, c);
  }

  /** The triple of the reference for column col of PI and column ccol of A
      adds to cell (r, c) what entry (col, ccol) of the test matrix adds to
      cell (r, c) of PI * A. */
  lemma ReferenceTermAt(t: HashTransform, m: nat, r: nat, c: nat, col: nat, ccol: nat)
    requires t.Valid() && col < t.n && ccol < m
    ensures Mul(col, m) + ccol < |ReferenceCoords(t, m)|
    ensures CellTerm(r, c, ReferenceCoords(t, m)[Mul(col, m) + ccol]) ==
      ColumnwiseTerm(t, r, c, TestMatrix(t.n, m)[Mul(col, m) + ccol])
  {
    ReferenceEntry(t, m, col, ccol);
    TestMatrixEntry(t.n, m, col, ccol);
    var k := Mul(col, m) + ccol;
    ReferenceTermAgrees(t, m, r, c, col, ccol, ReferenceCoords(t, m)[k], TestMatrix(t.n, m)[k]);
  }

  /** The reference triple for (col, ccol) and entry (col, ccol) of the test
      matrix add the same amount to cell (r, c). */
  lemma ReferenceTermAgrees(t: HashTransform, m: nat, r: nat, c: nat, col: nat, ccol: nat, e1: Triple, e2: Triple)
    requires t.Valid() && col < t.n
    requires e1 == Triple(t.rowIdx[col], ccol, ReferenceValue(t, m, col, ccol))
    requires e2 == Triple(col, ccol, (Mul(col, m) + ccol + 1) as real)
    ensures CellTerm(r, c, e1) == ColumnwiseTerm(t, r, c, e2)
  {
  }

  /** Entry (r, c) of the test matrix sits at position r*m + c and holds
      r*m + c + 1. */
  lemma TestMatrixEntry(n: nat, m: nat, r: nat, c: nat)
    requires r < n && c < m
    ensures Mul(r, m) + c < |TestMatrix(n, m)|
    ensures TestMatrix(n, m)[Mul(r, m) + c] == Triple(r, c, (Mul(r, m) + c + 1) as real)
  {
    MulRowBound(r, c, n, m);
    MulDivMod(r, c, m);
  }

  /** Every shifted nonzero of a process lies in the flattened global list. */
  lemma BlockInGlobal(a: DistSparse, p: nat, i: nat)
    requires a.Valid() && p < |a.blocks| && i < |a.blocks[p].nonzeros|
    ensures BlockNonzeros(a, p)[i] in GlobalNonzeros(a)
  {
    FlattenMember(PerProcess(a), p, i);
  }

  lemma FlattenMember<T>(ss: seq<seq<T>>, p: nat, i: nat)
    requires p < |ss| && i < |ss[p]|
    ensures ss[p][i] in Flatten(ss)
  {
    var init := ss[..|ss| - 1];
    assert Flatten(ss) == Flatten(init) + ss[|ss| - 1];
    if p < |init| {
      assert init[p] == ss[p];
      FlattenMember(init, p, i);
    }
  }

  /** A distributed matrix whose processes hold exactly the triples of the
      test matrix, in any order and in any split, lies inside the n x m shape. */
  lemma HoldsTestMatrixWithin(a: DistSparse, n: nat, m: nat)
    requires a.Valid() && multiset(GlobalNonzeros(a)) == multiset(TestMatrix(n, m))
    ensures WithinShape(a, n, m)
  {
    var tm := TestMatrix(n, m);
    forall p, i | 0 <= p < |a.blocks| && 0 <= i < |a.blocks[p].nonzeros|
      ensures a.blocks[p].nonzeros[i].row + a.blocks[p].rowOff < n
      ensures a.blocks[p].nonzeros[i].col + a.blocks[p].colOff < m
    {
      var e := BlockNonzeros(a, p)[i];
      BlockInGlobal(a, p, i);
      assert e in multiset(GlobalNonzeros(a));
      assert e in tm;
      var k :| 0 <= k < |tm| && tm[k] == e;
      MulDecode(k, n, m);
    }
  }

  /** `test_main`: the columnwise transform (N, S) = (n, n_s) applied to A into
      an n_s x m output, once into a distributed and once into a local
      output, and the rowwise transform (N, S) = (m, m_s) applied to A into an
      n x m_s output. Every comparison the test makes holds: the distributed
      columnwise result is PI * A, the local one is the hand-built reference,
      and the rowwise result is A * PI^T, each compared cell by cell. */
  method TestMain(sparse: HashTransform, localSparse: HashTransform, sparseR: HashTransform, a: DistSparse)
    returns (sketchA: SparseMatrix, localSketchA: SparseMatrix, sketchAR: SparseMatrix)
    requires sparse.Valid() && sparse.n == N && sparse.s == NS
    requires localSparse.Valid() && localSparse.n == N && localSparse.s == NS
    requires sparseR.Valid() && sparseR.n == M && sparseR.s == MS
    requires a.Valid() && a.nrow == N && a.ncol == M && AtRoundedOffsets(a)
    requires multiset(GlobalNonzeros(a)) == multiset(TestMatrix(N, M))
    ensures sketchA.nrow == NS && sketchA.ncol == M
    ensures localSketchA.nrow == NS && localSketchA.ncol == M
    ensures sketchAR.nrow == N && sketchAR.ncol == MS
    ensures forall r: nat, c: nat :: CellSum(sketchA.entries, r, c) == Product(PiMatrix(sparse), TestMatrix(N, M), r, c)
    ensures forall r: nat, c: nat :: CellSum(localSketchA.entries, r, c) == CellSum(ReferenceCoords(localSparse, M), r, c)
    ensures forall r: nat, c: nat :: CellSum(sketchAR.entries, r, c) == Product(TestMatrix(N, M), Transpose(PiMatrix(sparseR)), r, c)
  {
    var matrix := BuildTestMatrix(N, M);
    HoldsTestMatrixWithin(a, N, M);
    ghost var global := GlobalNonzeros(a);

    // columnwise, distributed output
    sketchA := new SparseMatrix(NS, M, []);
    ApplyColumnwise(sparse, a, sketchA);
    var piSketch := ComputeSketchMatrix(sparse);
    forall r: nat, c: nat ensures CellSum(sketchA.entries, r, c) == Product(piSketch, matrix, r, c) {
      ProductPermuteRight(piSketch, global, matrix, r, c);
    }

    // columnwise, local output
    localSketchA := new SparseMatrix(NS, M, []);
    ApplyColumnwise(localSparse, a, localSketchA);
    var coordsNew := LocalReference(localSparse, M);
    forall r: nat, c: nat ensures CellSum(localSketchA.entries, r, c) == CellSum(coordsNew, r, c) {
      ProductPermuteRight(PiMatrix(localSparse), global, matrix, r, c);
      ReferenceIsPiTimesTestMatrix(localSparse, M, r, c);
    }

    // rowwise, distributed output
    sketchAR := new SparseMatrix(N, MS, []);
    ApplyRowwise(sparseR, a, sketchAR);
    var piSketchR := ComputeSketchMatrix(sparseR);
    var piSketchRT := Transpose(piSketchR);
    forall r: nat, c: nat ensures CellSum(sketchAR.entries, r, c) == Product(matrix, piSketchRT, r, c) {
      ProductPermuteLeft(global, matrix, piSketchRT, r, c);
    }
  }
}
