/** The data of a signed-hash (CountSketch) transform and the matrices it
    stands for: every input index i in [0, N) is sent to the bucket rowIdx[i]
    in [0, S) with the signed weight rowValue[i], so the transform is the S x N
    matrix PI with exactly one nonzero per column. */
module HashTransformData {
  import opened Sums
  import opened Coordinates

  datatype HashTransform = HashTransform(n: nat, s: nat, rowIdx: seq<nat>, rowValue: seq<real>)
  {
    /** One bucket and one weight per input index, every bucket below S. */
    predicate Valid()
    {
      |rowIdx| == n && |rowValue| == n && forall i :: 0 <= i < n ==> rowIdx[i] < s
    }
  }

  /** The implicit S x N matrix PI as a coordinate list: column i holds the
      single entry rowValue[i], in row rowIdx[i]. */
  function PiMatrix(t: HashTransform): (pi: seq<Triple>)
    requires t.Valid()
    ensures |pi| == t.n && DistinctCells(pi)
    ensures forall i :: 0 <= i < t.n ==> pi[i].col == i
  {
    seq(t.n, i requires 0 <= i < t.n => Triple(t.rowIdx[i], i, t.rowValue[i]))
  }

  /** PI has exactly one nonzero per column i < N, at row rowIdx[i] with value
      rowValue[i], and nothing in any other cell. */
  lemma PiColumn(t: HashTransform, r: nat, i: nat)
    requires t.Valid()
    ensures CellSum(PiMatrix(t), r, i) == if i < t.n && r == t.rowIdx[i] then t.rowValue[i] else 0.0
  {
    var pi := PiMatrix(t);
    if i < t.n && r == t.rowIdx[i] {
      CellSumAt(pi, i);
    } else {
      CellSumAbsent(pi, r, i);
    }
  }

  /** What the nonzero e of A adds to cell (r, c) of PI * A. */
  function ColumnwiseTerm(t: HashTransform, r: nat, c: nat, e: Triple): real
  {
    if e.col == c && e.row < |t.rowIdx| && e.row < |t.rowValue| && t.rowIdx[e.row] == r
    then e.val * t.rowValue[e.row] else 0.0
  }

  /** Cell (r, c) of the columnwise sketch PI * A: the sum, over the nonzeros
      (i, c) of A whose row is hashed to bucket r, of rowValue[i] * A[i][c]. */
  function ColumnwiseAt(t: HashTransform, a: seq<Triple>, r: nat, c: nat): real
  {
    Sum(a, e => ColumnwiseTerm(t, r, c, e))
  }

  /** What the nonzero e of A adds to cell (r, c) of A * PI^T. */
  function RowwiseTerm(t: HashTransform, r: nat, c: nat, e: Triple): real
  {
    if e.row == r && e.col < |t.rowIdx| && e.col < |t.rowValue| && t.rowIdx[e.col] == c
    then e.val * t.rowValue[e.col] else 0.0
  }

  /** Cell (r, c) of the rowwise sketch A * PI^T: the sum, over the nonzeros
      (r, j) of A whose column is hashed to bucket c, of rowValue[j] * A[r][j]. */
  function RowwiseAt(t: HashTransform, a: seq<Triple>, r: nat, c: nat): real
  {
    Sum(a, e => RowwiseTerm(t, r, c, e))
  }

  /** For one nonzero q of A, the row of PI that meets it is column q.row of
      PI, so the inner sum of the product collapses to a single term. */
  lemma PiMeetsNonzero(t: HashTransform, q: Triple, r: nat, c: nat)
    requires t.Valid() && q.row < t.n
    ensures Sum(PiMatrix(t), l => PairTerm(r, c, l, q)) == ColumnwiseTerm(t, r, c, q)
  {
    var pi := PiMatrix(t);
    var rest := pi[..q.row] + pi[q.row + 1..];
    SumRemove(pi, q.row, l => PairTerm(r, c, l, q));
    forall i | 0 <= i < |rest| ensures PairTerm(r, c, rest[i], q) == 0.0 {
      if i < q.row { assert rest[i] == pi[i]; } else { assert rest[i] == pi[i + 1]; }
    }
    SumZero(rest, l => PairTerm(r, c, l, q));
  }

  /** The columnwise sketch is the matrix product PI * A, whenever every
      nonzero of A lies in a row below N. */
  lemma ColumnwiseIsPiTimes(t: HashTransform, a: seq<Triple>, r: nat, c: nat)
    requires t.Valid()
    requires forall i :: 0 <= i < |a| ==> a[i].row < t.n
    ensures ColumnwiseAt(t, a, r, c) == Product(PiMatrix(t), a, r, c)
  {
    ProductByRight(PiMatrix(t), a, r, c);
    forall j | 0 <= j < |a|
      ensures Sum(PiMatrix(t), l => PairTerm(r, c, l, a[j])) == ColumnwiseTerm(t, r, c, a[j])
    {
      PiMeetsNonzero(t, a[j], r, c);
    }
    SumCongruent(a, q => Sum(PiMatrix(t), l => PairTerm(r, c, l, q)), e => ColumnwiseTerm(t, r, c, e));
  }

  /** For one nonzero l of A, the column of PI^T that meets it is row l.col of
      PI^T, so the inner sum of the product collapses to a single term. */
  lemma NonzeroMeetsPiTransposed(t: HashTransform, l: Triple, r: nat, c: nat)
    requires t.Valid() && l.col < t.n
    ensures Sum(Transpose(PiMatrix(t)), q => PairTerm(r, c, l, q)) == RowwiseTerm(t, r, c, l)
  {
    var pt := Transpose(PiMatrix(t));
    var rest := pt[..l.col] + pt[l.col + 1..];
    SumRemove(pt, l.col, q => PairTerm(r, c, l, q));
    forall i | 0 <= i < |rest| ensures PairTerm(r, c, l, rest[i]) == 0.0 {
      if i < l.col { assert rest[i] == pt[i]; } else { assert rest[i] == pt[i + 1]; }
    }
    SumZero(rest, q => PairTerm(r, c, l, q));
  }

  /** The rowwise sketch is the matrix product A * PI^T, whenever every nonzero
      of A lies in a column below N. */
  lemma RowwiseIsTimesPiTransposed(t: HashTransform, a: seq<Triple>, r: nat, c: nat)
    requires t.Valid()
    requires forall i :: 0 <= i < |a| ==> a[i].col < t.n
    ensures RowwiseAt(t, a, r, c) == Product(a, Transpose(PiMatrix(t)), r, c)
  {
    forall j | 0 <= j < |a|
      ensures Sum(Transpose(PiMatrix(t)), q => PairTerm(r, c, a[j], q)) == RowwiseTerm(t, r, c, a[j])
    {
      NonzeroMeetsPiTransposed(t, a[j], r, c);
    }
    SumCongruent(a, l => Sum(Transpose(PiMatrix(t)), q => PairTerm(r, c, l, q)), e => RowwiseTerm(t, r, c, e));
  }

  /** What input index g adds to bucket k of the sketch of the vector x. */
  function BucketTerm(t: HashTransform, x: seq<real>, k: nat, g: nat): real
  {
    if g < |t.rowIdx| && g < |t.rowValue| && g < |x| && t.rowIdx[g] == k
    then x[g] * t.rowValue[g] else 0.0
  }

  /** The sketch PI * x of a dense vector of length N: bucket k holds the sum of
      rowValue[i] * x[i] over the indices i hashed to k. */
  function Sketch(t: HashTransform, x: seq<real>): (y: seq<real>)
    requires t.Valid() && |x| == t.n
    ensures |y| == t.s
  {
    seq(t.s, k requires 0 <= k < t.s => Sum(Range(t.n), g => BucketTerm(t, x, k, g)))
  }

  /** A dense vector as an N x 1 coordinate list. */
  function ColumnVector(x: seq<real>): seq<Triple>
  {
    seq(|x|, i requires 0 <= i < |x| => Triple(i, 0, x[i]))
  }

  /** The dense sketch is the matrix-vector product PI * x. */
  lemma SketchIsPiTimesVector(t: HashTransform, x: seq<real>, k: nat)
    requires t.Valid() && |x| == t.n && k < t.s
    ensures Sketch(t, x)[k] == Product(PiMatrix(t), ColumnVector(x), k, 0)
  {
    var v := ColumnVector(x);
    ColumnwiseIsPiTimes(t, v, k, 0);
    SumReindex(Range(t.n), v, g => BucketTerm(t, x, k, g), e => ColumnwiseTerm(t, k, 0, e));
  }
}
