/** Index arithmetic shared by the linear keys of the sparse apply paths and by
    the row-major numbering of the test matrix. */
module IndexArith {

  /** Division by a positive modulus is determined by the quotient/remainder
      decomposition: if k = q*m + r with 0 <= r < m then k / m = q and k % m = r. */
  lemma DivModUnique(k: int, m: int, q: int, r: int)
    requires m > 0 && 0 <= r < m && k == q * m + r
    ensures k / m == q && k % m == r
  {
    var q', r' := k / m, k % m;
    assert k == q' * m + r' && 0 <= r' < m;
    if q' > q {
      assert q' * m >= (q + 1) * m by { MulMonotone(q + 1, q', m); }
      assert false;
    } else if q' < q {
      assert q * m >= (q' + 1) * m by { MulMonotone(q' + 1, q, m); }
      assert false;
    }
  }

  lemma MulMonotone(a: int, b: int, m: int)
    requires a <= b && m >= 0
    ensures a * m <= b * m
  {
    assert b * m - a * m == (b - a) * m;
  }

  /** A number is recovered from its quotient and remainder. */
  lemma DecodeInjective(k1: nat, k2: nat, m: nat)
    requires m > 0 && k1 / m == k2 / m && k1 % m == k2 % m
    ensures k1 == k2
  {
    assert k1 == (k1 / m) * m + k1 % m;
    assert k2 == (k2 / m) * m + k2 % m;
  }

  /** A row-major position below R*C decodes to a row below R and a column
      below C. */
  lemma RowMajorDecode(i: nat, rows: nat, cols: nat)
    requires i < rows * cols
    ensures cols > 0 && i / cols < rows && i % cols < cols
  {
    if cols == 0 {
      assert false;
    }
    var q := i / cols;
    if q >= rows {
      MulMonotone(rows, q, cols);
      assert false;
    }
  }

  /** The product a * b of two indices, defined by repeated addition. Index
      arithmetic inside loops is written with it so that the verifier treats
      the product as a plain term; MulIsProduct equates it with `*`. */
  function Mul(a: nat, b: nat): nat
  {
    if a == 0 then 0 else b + Mul(a - 1, b)
  }

  /** Mul is multiplication. */
  lemma {:induction false} MulIsProduct(a: nat, b: nat)
    ensures Mul(a, b) == a * b
  {
    if a > 0 {
      MulIsProduct(a - 1, b);
    }
  }

  /** A row-major position r*C + c of a cell inside an R x C grid stays below R*C. */
  lemma RowMajorBound(r: nat, c: nat, rows: nat, cols: nat)
    requires r < rows && c < cols
    ensures r * cols + c < rows * cols
  {
    MulMonotone(r + 1, rows, cols);
  }

  /** Mul grows with its first factor. */
  lemma {:induction false} MulLeftMonotone(a: nat, b: nat, m: nat)
    requires a <= b
    ensures Mul(a, m) <= Mul(b, m)
  {
    if a < b {
      MulLeftMonotone(a, b - 1, m);
    }
  }

  /** RowMajorBound written with Mul. */
  lemma MulRowBound(r: nat, c: nat, rows: nat, cols: nat)
    requires r < rows && c < cols
    ensures Mul(r, cols) + c < Mul(rows, cols)
  {
    MulLeftMonotone(r + 1, rows, cols);
  }

  /** The row-major position Mul(q, m) + r of a cell with column r < m decodes
      to row q and column r. */
  lemma MulDivMod(q: nat, r: nat, m: nat)
    requires r < m
    ensures (Mul(q, m) + r) / m == q && (Mul(q, m) + r) % m == r
  {
    MulIsProduct(q, m);
    DivModUnique(Mul(q, m) + r, m, q, r);
  }

  /** A row-major position below Mul(R, C) decodes to a row below R and a
      column below C. */
  lemma MulDecodeBounds(k: nat, rows: nat, cols: nat)
    requires k < Mul(rows, cols)
    ensures cols > 0 && k / cols < rows && k % cols < cols
  {
    MulIsProduct(rows, cols);
    RowMajorDecode(k, rows, cols);
  }

  /** A row-major position below Mul(R, C) decodes to a row below R and a
      column below C, and encodes back to itself. */
  lemma MulDecode(k: nat, rows: nat, cols: nat)
    requires k < Mul(rows, cols)
    ensures cols > 0 && k / cols < rows && k % cols < cols
    ensures Mul(k / cols, cols) + k % cols == k
  {
    MulDecodeBounds(k, rows, cols);
    MulIsProduct(k / cols, cols);
  }
}

/** Sparse matrices as coordinate lists: a list of (row, col, value) triples
    denotes the matrix whose cell (r, c) is the sum of the values of the
    triples at (r, c), so that duplicate coordinates are summed. */
module Coordinates {
  import opened Sums

  datatype Triple = Triple(row: nat, col: nat, val: real)

  /** The contribution of one triple to cell (r, c). */
  function CellTerm(r: nat, c: nat, e: Triple): real
  {
    if e.row == r && e.col == c then e.val else 0.0
  }

  /** Cell (r, c) of the matrix a coordinate list denotes. */
  function CellSum(ts: seq<Triple>, r: nat, c: nat): real
  {
    Sum(ts, e => CellTerm(r, c, e))
  }

  /** No two triples of the list share a cell. */
  predicate DistinctCells(ts: seq<Triple>)
  {
    forall i, j :: 0 <= i < j < |ts| ==> ts[i].row != ts[j].row || ts[i].col != ts[j].col
  }

  /** A cell no triple sits on holds zero. */
  lemma CellSumAbsent(ts: seq<Triple>, r: nat, c: nat)
    requires forall i :: 0 <= i < |ts| ==> ts[i].row != r || ts[i].col != c
    ensures CellSum(ts, r, c) == 0.0
  {
    SumZero(ts, e => CellTerm(r, c, e));
  }

  /** In a list without repeated cells, the cell a triple sits on holds exactly
      that triple's value. */
  lemma CellSumAt(ts: seq<Triple>, j: nat)
    requires DistinctCells(ts) && j < |ts|
    ensures CellSum(ts, ts[j].row, ts[j].col) == ts[j].val
  {
    var r, c := ts[j].row, ts[j].col;
    var rest := ts[..j] + ts[j + 1..];
    SumRemove(ts, j, e => CellTerm(r, c, e));
    forall i | 0 <= i < |rest| ensures rest[i].row != r || rest[i].col != c {
      if i < j { assert rest[i] == ts[i]; } else { assert rest[i] == ts[i + 1]; }
    }
    CellSumAbsent(rest, r, c);
  }

  /** The term of the product L*R at cell (r, c) coming from the pair (l, q). */
  function PairTerm(r: nat, c: nat, l: Triple, q: Triple): real
  {
    if l.row == r && q.col == c && l.col == q.row then l.val * q.val else 0.0
  }

  /** Cell (r, c) of the product of the matrices two coordinate lists denote:
      the sum, over every pair of triples whose inner indices meet, of the
      product of their values. */
  function Product(left: seq<Triple>, right: seq<Triple>, r: nat, c: nat): real
  {
    Sum(left, l => Sum(right, q => PairTerm(r, c, l, q)))
  }

  /** The same product, summed with the right factor's triples outermost. */
  lemma ProductByRight(left: seq<Triple>, right: seq<Triple>, r: nat, c: nat)
    ensures Product(left, right, r, c) == Sum(right, q => Sum(left, l => PairTerm(r, c, l, q)))
  {
    SumSwap(left, right,
            l => Sum(right, q => PairTerm(r, c, l, q)), q => Sum(left, l => PairTerm(r, c, l, q)),
            l => q => PairTerm(r, c, l, q), q => l => PairTerm(r, c, l, q));
  }

  /** The transposed matrix: every triple with its row and column exchanged. */
  function Transpose(ts: seq<Triple>): (t': seq<Triple>)
    ensures |t'| == |ts|
    ensures forall r: nat, c: nat :: CellSum(t', c, r) == CellSum(ts, r, c)
  {
    var t' := seq(|ts|, i requires 0 <= i < |ts| => Triple(ts[i].col, ts[i].row, ts[i].val));
    assert forall r: nat, c: nat :: CellSum(t', c, r) == CellSum(ts, r, c) by {
      forall r: nat, c: nat ensures CellSum(t', c, r) == CellSum(ts, r, c) {
        TransposeCell(ts, t', r, c);
      }
    }
    t'
  }

  lemma {:induction false} TransposeCell(ts: seq<Triple>, t': seq<Triple>, r: nat, c: nat)
    requires |t'| == |ts|
    requires forall i :: 0 <= i < |ts| ==> t'[i] == Triple(ts[i].col, ts[i].row, ts[i].val)
    ensures CellSum(t', c, r) == CellSum(ts, r, c)
    decreases |ts|
  {
    if ts != [] {
      TransposeCell(ts[..|ts| - 1], t'[..|t'| - 1], r, c);
    }
  }

  /** A product does not depend on the order in which the right factor lists
      its triples. */
  lemma ProductPermuteRight(left: seq<Triple>, right: seq<Triple>, right': seq<Triple>, r: nat, c: nat)
    requires multiset(right) == multiset(right')
    ensures Product(left, right, r, c) == Product(left, right', r, c)
  {
    forall i | 0 <= i < |left|
      ensures Sum(right, q => PairTerm(r, c, left[i], q)) == Sum(right', q => PairTerm(r, c, left[i], q))
    {
      SumPermutation(right, right', q => PairTerm(r, c, left[i], q));
    }
    SumCongruent(left, l => Sum(right, q => PairTerm(r, c, l, q)), l => Sum(right', q => PairTerm(r, c, l, q)));
  }

  /** A product does not depend on the order in which the left factor lists
      its triples. */
  lemma ProductPermuteLeft(left: seq<Triple>, left': seq<Triple>, right: seq<Triple>, r: nat, c: nat)
    requires multiset(left) == multiset(left')
    ensures Product(left, right, r, c) == Product(left', right, r, c)
  {
    SumPermutation(left, left', l => Sum(right, q => PairTerm(r, c, l, q)));
  }
}
