/** Signed-hash sketching of a distributed sparse matrix A, stored as one block
    of nonzeros per process of a 2-D process grid, each with block-local row
    and column ids.

    Columnwise, each process keys every nonzero (i, j) by the linear position
    j + ncols * rowIdx[i] of the output cell it feeds, sums equal keys into its
    own map, all maps are gathered and merged by summing equal keys, and every
    key is decoded back into an output triple (key / ncols, key % ncols).
    Rowwise, each process adds into a dense row-major buffer of nrows * ncols
    cells, the buffers are summed across processes, and one triple per cell is
    emitted. The collectives (all-gather, all-reduce) are modelled as folds over
    the per-process results, taken in process order. */
module HashSparseCombBLAS {
  import opened Sums
  import opened IndexArith
  import opened Coordinates
  import opened HashTransformData
  import opened HashDenseCombBLAS

  /** The nonzeros one process holds, with ids local to its block, the
      process's coordinates in the grid, and the global row and column at
      which the distributed container places the block. */
  datatype LocalBlock = LocalBlock(gridRow: nat, gridCol: nat, rowOff: nat, colOff: nat, nonzeros: seq<Triple>)

  /** A distributed sparse matrix of nrow x ncol on a gridRows x gridCols grid. */
  datatype DistSparse = DistSparse(nrow: nat, ncol: nat, gridRows: nat, gridCols: nat, blocks: seq<LocalBlock>)
  {
    predicate Valid()
    {
      gridRows > 0 && gridCols > 0
    }
  }

  /** The block size each grid coordinate is multiplied by: total / gridDim
      computed in floating point, plus one half, truncated to an integer. */
  function RoundedBlock(total: nat, gridDim: nat): nat
    requires gridDim > 0
  {
    var q := (total as real) / (gridDim as real) + 0.5;
    assert q >= 0.0;
    q.Floor
  }

  /** The rounded block size in integer arithmetic: (2 total + gridDim) / (2 gridDim). */
  lemma RoundedBlockIsIntegerDiv(total: nat, gridDim: nat)
    requires gridDim > 0
    ensures RoundedBlock(total, gridDim) == (2 * total + gridDim) / (2 * gridDim)
  {
    var d := 2 * gridDim;
    var b, r := (2 * total + gridDim) / d, (2 * total + gridDim) % d;
    var x := (total as real) / (gridDim as real) + 0.5;
    assert x * (d as real) == (2 * total + gridDim) as real;
    assert (b as real) * (d as real) + (r as real) == (2 * total + gridDim) as real;
    FloorByScaling(x, d as real, b, r as real);
  }

  /** If x * d == b * d + r with 0 <= r < d, then b is the floor of x. */
  lemma FloorByScaling(x: real, d: real, b: int, r: real)
    requires d > 0.0 && 0.0 <= r < d && x * d == (b as real) * d + r
    ensures x.Floor == b
  {
    var y := x - (b as real);
    assert y * d == r;
    assert (1.0 - y) * d == d - r;
    assert 0.0 <= y < 1.0;
  }

  /** The rounded block size is total / gridDim rounded to the nearest integer
      (halves rounded up): it is at most half a grid dimension away from the
      exact quotient, and it is the exact quotient when gridDim divides total. */
  lemma RoundedBlockNearest(total: nat, gridDim: nat)
    requires gridDim > 0
    ensures 2 * (RoundedBlock(total, gridDim) * gridDim) <= 2 * total + gridDim
    ensures 2 * total < 2 * (RoundedBlock(total, gridDim) * gridDim) + gridDim
    ensures total % gridDim == 0 ==> RoundedBlock(total, gridDim) == total / gridDim
  {
    RoundedBlockIsIntegerDiv(total, gridDim);
    var b := RoundedBlock(total, gridDim);
    var d := 2 * gridDim;
    var r := (2 * total + gridDim) % d;
    assert 2 * total + gridDim == b * d + r;
    if total % gridDim == 0 {
      var m := total / gridDim;
      assert 2 * total + gridDim == m * d + gridDim;
      DivModUnique(2 * total + gridDim, d, m, gridDim);
    }
  }

  /** The offsets the apply computes for a process: the rounded block size
      times the process's grid coordinate, for rows and for columns. The apply
      is right only when every block sits where these offsets say. */
  predicate AtRoundedOffsets(a: DistSparse)
    requires a.Valid()
  {
    forall p :: 0 <= p < |a.blocks| ==>
      a.blocks[p].rowOff == RoundedBlock(a.nrow, a.gridRows) * a.blocks[p].gridRow &&
      a.blocks[p].colOff == RoundedBlock(a.ncol, a.gridCols) * a.blocks[p].gridCol
  }

  /** The rounded block size is not the floor of the quotient: 200 rows on 3
      grid rows give blocks of 67 by the offset formula, against 66 by
      integer division. */
  lemma RoundedBlockAboveFloor()
    ensures RoundedBlock(200, 3) == 67 && 200 / 3 == 66
  {
    RoundedBlockIsIntegerDiv(200, 3);
  }

  /** Local nonzeros shifted to global (row, column) ids. */
  function Globalize(nz: seq<Triple>, rowOff: nat, colOff: nat): (g: seq<Triple>)
    ensures |g| == |nz|
    ensures forall i :: 0 <= i < |nz| ==> g[i] == Triple(nz[i].row + rowOff, nz[i].col + colOff, nz[i].val)
  {
    seq(|nz|, i requires 0 <= i < |nz| => Triple(nz[i].row + rowOff, nz[i].col + colOff, nz[i].val))
  }

  /** The nonzeros of one process in global ids. */
  function BlockNonzeros(a: DistSparse, p: nat): seq<Triple>
    requires a.Valid() && p < |a.blocks|
  {
    Globalize(a.blocks[p].nonzeros, a.blocks[p].rowOff, a.blocks[p].colOff)
  }

  /** The per-process nonzeros in global ids, in process order. */
  function PerProcess(a: DistSparse): (ps: seq<seq<Triple>>)
    requires a.Valid()
    ensures |ps| == |a.blocks|
  {
    seq(|a.blocks|, p requires 0 <= p < |a.blocks| => BlockNonzeros(a, p))
  }

  /** The global matrix: every process's nonzeros in global ids, together. */
  function GlobalNonzeros(a: DistSparse): seq<Triple>
    requires a.Valid()
  {
    Flatten(PerProcess(a))
  }

  /** Every global nonzero lies inside a rows x cols matrix. */
  predicate WithinShape(a: DistSparse, rows: nat, cols: nat)
    requires a.Valid()
  {
    forall p, i :: 0 <= p < |a.blocks| && 0 <= i < |a.blocks[p].nonzeros| ==>
      a.blocks[p].nonzeros[i].row + a.blocks[p].rowOff < rows &&
      a.blocks[p].nonzeros[i].col + a.blocks[p].colOff < cols
  }

  // ---------------------------------------------------------------------------
  // Columnwise: linear keys, per-process maps, merge, decode

  /** The linear key of output cell (r, c) of an output with ncols columns. */
  function CellKey(ncols: nat, r: nat, c: nat): nat
  {
    c + Mul(r, ncols)
  }

  /** Key round trip: decoding the key of a cell whose column is below ncols
      gives back its column (key % ncols) and its row (key / ncols). */
  lemma CellKeyRoundTrip(ncols: nat, r: nat, c: nat)
    requires c < ncols
    ensures CellKey(ncols, r, c) % ncols == c && CellKey(ncols, r, c) / ncols == r
  {
    MulIsProduct(r, ncols);
    DivModUnique(CellKey(ncols, r, c), ncols, r, c);
  }

  /** Key round trip the other way: encoding a decoded key gives the key. */
  lemma KeyDecodeRoundTrip(ncols: nat, k: nat)
    requires ncols > 0
    ensures CellKey(ncols, k / ncols, k % ncols) == k
  {
    MulIsProduct(k / ncols, ncols);
  }

  /** The key of the output cell a global nonzero e of A feeds:
      column e.col of the output, row rowIdx[e.row]. */
  function NonzeroKey(t: HashTransform, ncols: nat, e: Triple): nat
  {
    CellKey(ncols, if e.row < |t.rowIdx| then t.rowIdx[e.row] else 0, e.col)
  }

  /** What the global nonzero e adds under key k. */
  function KeyTerm(t: HashTransform, ncols: nat, k: nat, e: Triple): real
  {
    if e.row < |t.rowValue| && NonzeroKey(t, ncols, e) == k then e.val * t.rowValue[e.row] else 0.0
  }

  /** The keys a list of global nonzeros produces. */
  function KeysOf(t: HashTransform, ncols: nat, es: seq<Triple>): set<nat>
  {
    set i | 0 <= i < |es| :: NonzeroKey(t, ncols, es[i])
  }

  /** The map a process builds from its nonzeros: one key per produced key,
      holding the sum of the contributions under that key. */
  function KeySums(t: HashTransform, ncols: nat, es: seq<Triple>): map<nat, real>
  {
    map k | k in KeysOf(t, ncols, es) :: Sum(es, e => KeyTerm(t, ncols, k, e))
  }

  /** Under a key no nonzero produces, nothing is added. */
  lemma KeyTermsAbsent(t: HashTransform, ncols: nat, es: seq<Triple>, k: nat)
    requires k !in KeysOf(t, ncols, es)
    ensures Sum(es, e => KeyTerm(t, ncols, k, e)) == 0.0
  {
    forall i | 0 <= i < |es| ensures KeyTerm(t, ncols, k, es[i]) == 0.0 {
      assert NonzeroKey(t, ncols, es[i]) in KeysOf(t, ncols, es);
    }
    SumZero(es, e => KeyTerm(t, ncols, k, e));
  }

  /** The value stored under key k, zero when k is absent. */
  function MapValue(m: map<nat, real>, k: nat): real
  {
    if k in m then m[k] else 0.0
  }

  /** The update both columnwise loops perform on an ordered map: add to the
      value under pos when the key is present, insert the key otherwise. Either
      way the key ends up holding its old value, zero when absent, plus value,
      and no other key changes. */
  method Accumulate(m: map<nat, real>, pos: nat, value: real) returns (m': map<nat, real>)
    ensures m' == m[pos := MapValue(m, pos) + value]
  {
    if pos in m {
      m' := m[pos := m[pos] + value];
    } else {
      m' := m[pos := value];
    }
  }

  /** The local accumulation of `my_vals_map`: for every local nonzero, shift it
      to global ids, compute its key and its signed value, and add the value
      to the entry under the key, inserting the key when it is new. */
  method LocalColumnwiseMap(t: HashTransform, ncols: nat, nz: seq<Triple>, rowOff: nat, colOff: nat)
    returns (myVals: map<nat, real>)
    requires t.Valid()
    requires forall i :: 0 <= i < |nz| ==> nz[i].row + rowOff < t.n
    ensures myVals == KeySums(t, ncols, Globalize(nz, rowOff, colOff))
  {
    ghost var g := Globalize(nz, rowOff, colOff);
    myVals := map[];
    for j := 0 to |nz|
      invariant myVals == KeySums(t, ncols, g[..j])
    {
      var rowid, colid := nz[j].row, nz[j].col;
      var pos := CellKey(ncols, t.rowIdx[rowid + rowOff], colid + colOff);
      var value := nz[j].val * t.rowValue[rowid + rowOff];
      ghost var before := myVals;
      myVals := Accumulate(myVals, pos, value);
      LocalMapStep(t, ncols, g, j, pos, value, before, myVals);
    }
    assert g[..|nz|] == g;
  }

  /** Adding the next nonzero under its key turns the map of the first j
      nonzeros into the map of the first j + 1. */
  lemma LocalMapStep(t: HashTransform, ncols: nat, g: seq<Triple>, j: nat, pos: nat, value: real,
                     before: map<nat, real>, after: map<nat, real>)
    requires j < |g| && g[j].row < |t.rowValue|
    requires pos == NonzeroKey(t, ncols, g[j]) && value == g[j].val * t.rowValue[g[j].row]
    requires before == KeySums(t, ncols, g[..j])
    requires after == before[pos := MapValue(before, pos) + value]
    ensures after == KeySums(t, ncols, g[..j + 1])
  {
    assert g[..j + 1] == g[..j] + [g[j]];
    KeySumsSnoc(t, ncols, g[..j], g[j], pos, value, before, after);
  }

  /** One more nonzero adds its value under its own key, inserting the key when
      it is new, and leaves every other key alone. */
  lemma KeySumsSnoc(t: HashTransform, ncols: nat, es: seq<Triple>, e: Triple, pos: nat, value: real,
                    before: map<nat, real>, after: map<nat, real>)
    requires e.row < |t.rowValue|
    requires pos == NonzeroKey(t, ncols, e) && value == e.val * t.rowValue[e.row]
    requires before == KeySums(t, ncols, es)
    requires after == before[pos := MapValue(before, pos) + value]
    ensures after == KeySums(t, ncols, es + [e])
  {
    var es' := es + [e];
    var want := KeySums(t, ncols, es');
    KeysOfSnoc(t, ncols, es, e);
    assert before.Keys == KeysOf(t, ncols, es);
    assert after.Keys == want.Keys;
    forall k | k in want
      ensures after[k] == want[k]
    {
      KeySumsSnocAt(t, ncols, es, e, pos, value, before, after, k);
    }
  }

  /** The value under one key after one more nonzero. */
  lemma KeySumsSnocAt(t: HashTransform, ncols: nat, es: seq<Triple>, e: Triple, pos: nat, value: real,
                      before: map<nat, real>, after: map<nat, real>, k: nat)
    requires e.row < |t.rowValue|
    requires pos == NonzeroKey(t, ncols, e) && value == e.val * t.rowValue[e.row]
    requires before == KeySums(t, ncols, es)
    requires after == before[pos := MapValue(before, pos) + value]
    requires k in after
    ensures after[k] == Sum(es + [e], x => KeyTerm(t, ncols, k, x))
  {
    SumSnoc(es, e, x => KeyTerm(t, ncols, k, x));
    if k == pos {
      if pos !in before {
        KeyTermsAbsent(t, ncols, es, k);
      }
    } else {
      assert after[k] == before[k];
    }
  }

  /** One more nonzero adds its own key to the produced keys. */
  lemma KeysOfSnoc(t: HashTransform, ncols: nat, es: seq<Triple>, e: Triple)
    ensures KeysOf(t, ncols, es + [e]) == KeysOf(t, ncols, es) + {NonzeroKey(t, ncols, e)}
  {
    var es' := es + [e];
    forall k | k in KeysOf(t, ncols, es') ensures k in KeysOf(t, ncols, es) + {NonzeroKey(t, ncols, e)} {
      var i :| 0 <= i < |es'| && NonzeroKey(t, ncols, es'[i]) == k;
      if i < |es| { assert es'[i] == es[i]; }
    }
    forall k | k in KeysOf(t, ncols, es) ensures k in KeysOf(t, ncols, es') {
      var i :| 0 <= i < |es| && NonzeroKey(t, ncols, es[i]) == k;
      assert es'[i] == es[i];
    }
    assert es'[|es|] == e;
  }

  /** The keys present in any of the gathered maps. */
  function KeyUnion(ms: seq<map<nat, real>>): set<nat>
    decreases |ms|
  {
    if ms == [] then {} else KeyUnion(ms[..|ms| - 1]) + ms[|ms| - 1].Keys
  }

  lemma KeyUnionMember(ms: seq<map<nat, real>>, k: nat)
    ensures k in KeyUnion(ms) <==> exists i :: 0 <= i < |ms| && k in ms[i]
  {
    if ms != [] {
      KeyUnionMember(ms[..|ms| - 1], k);
      if k in KeyUnion(ms[..|ms| - 1]) {
        var i :| 0 <= i < |ms| - 1 && k in ms[..|ms| - 1][i];
        assert k in ms[i];
      }
    }
  }

  /** The merged map: the union of the keys, each holding the sum of its values
      over the maps that hold it. */
  function MergeSum(ms: seq<map<nat, real>>): map<nat, real>
  {
    map k | k in KeyUnion(ms) :: Sum(ms, m => MapValue(m, k))
  }

  /** The merge of the gathered maps into `vals_map`: walk the maps in order,
      adding each one into the running result. */
  method MergeMaps(maps: seq<map<nat, real>>) returns (vals: map<nat, real>)
    ensures vals == MergeSum(maps)
  {
    vals := map[];
    for i := 0 to |maps|
      invariant vals == MergeSum(maps[..i])
    {
      ghost var before := vals;
      vals := MergeInto(vals, maps[i]);
      MergeSumSnoc(maps[..i], maps[i], before, vals);
      assert maps[..i + 1] == maps[..i] + [maps[i]];
    }
    assert maps[..|maps|] == maps;
  }

  /** Adding one gathered map into the running result: walk its keys in
      increasing order, adding each value to the entry under its key and
      inserting the key when it is new. */
  method MergeInto(vals: map<nat, real>, m: map<nat, real>) returns (out: map<nat, real>)
    ensures out.Keys == vals.Keys + m.Keys
    ensures forall k :: k in out ==> out[k] == MapValue(vals, k) + MapValue(m, k)
  {
    out := vals;
    var rest := m.Keys;
    MergeStart(vals, m);
    while rest != {}
      invariant MergedSoFar(vals, m, out, rest)
      decreases |rest|
    {
      out, rest := MergeLeast(vals, m, out, rest);
    }
    MergeDone(vals, m, out);
  }

  /** Before the walk, no key of m has been visited. */
  lemma MergeStart(vals: map<nat, real>, m: map<nat, real>)
    ensures MergedSoFar(vals, m, vals, m.Keys)
  {
    assert vals.Keys + (m.Keys - m.Keys) == vals.Keys;
  }

  /** After the walk, every key of m has been added in. */
  lemma MergeDone(vals: map<nat, real>, m: map<nat, real>, out: map<nat, real>)
    requires MergedSoFar(vals, m, out, {})
    ensures out.Keys == vals.Keys + m.Keys
    ensures forall k :: k in out ==> out[k] == MapValue(vals, k) + MapValue(m, k)
  {
    assert m.Keys - {} == m.Keys;
  }

  /** The state of the merge loop: `rest` are the keys of m not yet visited,
      and `out` is vals with every visited key of m added in. */
  ghost predicate MergedSoFar(vals: map<nat, real>, m: map<nat, real>, out: map<nat, real>, rest: set<nat>)
  {
    && rest <= m.Keys
    && out.Keys == vals.Keys + (m.Keys - rest)
    && forall k :: k in out ==> out[k] == MapValue(vals, k) + (if k in m && k !in rest then m[k] else 0.0)
  }

  /** One step of the merge loop: take the least key of m not yet visited and
      add its value under that key, inserting the key when it is new. */
  method MergeLeast(vals: map<nat, real>, m: map<nat, real>, out: map<nat, real>, rest: set<nat>)
    returns (out': map<nat, real>, rest': set<nat>)
    requires MergedSoFar(vals, m, out, rest) && rest != {}
    ensures MergedSoFar(vals, m, out', rest') && |rest'| < |rest|
  {
    var k := LeastKey(rest);
    out' := Accumulate(out, k, m[k]);
    rest' := rest - {k};
    MergeStep(vals, m, out, rest, k, out');
  }

  /** Adding the value of one unvisited key of m keeps the merge state. */
  lemma MergeStep(vals: map<nat, real>, m: map<nat, real>, out: map<nat, real>, rest: set<nat>, k: nat, out': map<nat, real>)
    requires MergedSoFar(vals, m, out, rest) && k in rest
    requires out' == out[k := MapValue(out, k) + m[k]]
    ensures MergedSoFar(vals, m, out', rest - {k})
  {
    var rest' := rest - {k};
    assert out'.Keys == vals.Keys + (m.Keys - rest') by {
      assert m.Keys - rest' == (m.Keys - rest) + {k};
    }
    forall k' | k' in out'
      ensures out'[k'] == MapValue(vals, k') + (if k' in m && k' !in rest' then m[k'] else 0.0)
    {
      MergeStepAt(vals, m, out, rest, k, out', k');
    }
  }

  /** The entry under one key after one merge step. */
  lemma MergeStepAt(vals: map<nat, real>, m: map<nat, real>, out: map<nat, real>, rest: set<nat>, k: nat, out': map<nat, real>, k': nat)
    requires MergedSoFar(vals, m, out, rest) && k in rest
    requires out' == out[k := MapValue(out, k) + m[k]]
    requires k' in out'
    ensures out'[k'] == MapValue(vals, k') + (if k' in m && k' !in rest - {k} then m[k'] else 0.0)
  {
    if k' != k {
      assert out'[k'] == out[k'];
    } else if k in out {
      assert out[k] == MapValue(vals, k);
    } else {
      assert k !in vals;
    }
  }

  /** The merged map of one more map is the merged map so far with that map
      added in, key by key. */
  lemma MergeSumSnoc(ms: seq<map<nat, real>>, m: map<nat, real>, before: map<nat, real>, after: map<nat, real>)
    requires before == MergeSum(ms)
    requires after.Keys == before.Keys + m.Keys
    requires forall k :: k in after ==> after[k] == MapValue(before, k) + MapValue(m, k)
    ensures after == MergeSum(ms + [m])
  {
    var ms' := ms + [m];
    assert ms'[..|ms'| - 1] == ms;
    assert KeyUnion(ms') == KeyUnion(ms) + m.Keys;
    forall k | k in KeyUnion(ms')
      ensures after[k] == Sum(ms', x => MapValue(x, k))
    {
      SumSnoc(ms, m, x => MapValue(x, k));
      if k !in KeyUnion(ms) {
        MergeAbsent(ms, k);
      }
    }
  }

  /** A key present in none of the maps has merged value zero. */
  lemma MergeAbsent(ms: seq<map<nat, real>>, k: nat)
    requires k !in KeyUnion(ms)
    ensures Sum(ms, m => MapValue(m, k)) == 0.0
  {
    KeyUnionMember(ms, k);
    SumZero(ms, m => MapValue(m, k));
  }

  /** k is the least element of s. */
  predicate IsLeast(k: nat, s: set<nat>)
  {
    k in s && forall k' :: k' in s ==> k <= k'
  }

  /** The least key of a non-empty key set: the next key an in-order walk of
      an ordered map visits. */
  method LeastKey(s: set<nat>) returns (k: nat)
    requires s != {}
    ensures k in s && IsLeast(k, s)
  {
    MinExists(s);
    k :| IsLeast(k, s);
  }

  /** Every finite non-empty set of naturals has a least element. */
  lemma MinExists(s: set<nat>)
    requires s != {}
    ensures exists m :: IsLeast(m, s)
  {
    var x :| x in s;
    if s == {x} {
      assert IsLeast(x, s);
    } else {
      MinExists(s - {x});
      var m :| IsLeast(m, s - {x});
      forall y | y in s && y != x ensures m <= y {
        assert y in s - {x};
      }
      if x < m {
        assert IsLeast(x, s);
      } else {
        assert IsLeast(m, s);
      }
    }
  }

  /** Order independence: gathering the same maps in any other order gives the
      same merged map. */
  lemma MergeOrderIndependent(ms1: seq<map<nat, real>>, ms2: seq<map<nat, real>>)
    requires multiset(ms1) == multiset(ms2)
    ensures MergeSum(ms1) == MergeSum(ms2)
  {
    forall k ensures k in KeyUnion(ms1) <==> k in KeyUnion(ms2) {
      KeyUnionMember(ms1, k);
      KeyUnionMember(ms2, k);
      if exists i :: 0 <= i < |ms1| && k in ms1[i] {
        var i :| 0 <= i < |ms1| && k in ms1[i];
        assert ms1[i] in multiset(ms1);
        assert ms1[i] in ms2;
        var j :| 0 <= j < |ms2| && ms2[j] == ms1[i];
        assert k in ms2[j];
      }
      if exists j :: 0 <= j < |ms2| && k in ms2[j] {
        var j :| 0 <= j < |ms2| && k in ms2[j];
        assert ms2[j] in multiset(ms2);
        assert ms2[j] in ms1;
        var i :| 0 <= i < |ms1| && ms1[i] == ms2[j];
        assert k in ms1[i];
      }
    }
    forall k | k in KeyUnion(ms1)
      ensures MergeSum(ms1)[k] == MergeSum(ms2)[k]
    {
      SumPermutation(ms1, ms2, m => MapValue(m, k));
    }
  }

  /** Merging the per-process maps gives the map of all nonzeros together: its
      keys are the keys any nonzero produces and each value is the sum of the
      contributions under that key across all processes. */
  lemma MergeOfLocalMaps(t: HashTransform, ncols: nat, parts: seq<seq<Triple>>, maps: seq<map<nat, real>>)
    requires |maps| == |parts|
    requires forall p :: 0 <= p < |parts| ==> maps[p] == KeySums(t, ncols, parts[p])
    ensures MergeSum(maps) == KeySums(t, ncols, Flatten(parts))
  {
    var all := Flatten(parts);
    forall k ensures k in KeyUnion(maps) <==> k in KeysOf(t, ncols, all) {
      KeyUnionMember(maps, k);
      FlattenKeys(t, ncols, parts, k);
    }
    forall k | k in KeyUnion(maps)
      ensures Sum(maps, m => MapValue(m, k)) == Sum(all, e => KeyTerm(t, ncols, k, e))
    {
      forall p | 0 <= p < |parts|
        ensures MapValue(maps[p], k) == Sum(parts[p], e => KeyTerm(t, ncols, k, e))
      {
        if k !in maps[p] {
          KeyTermsAbsent(t, ncols, parts[p], k);
        }
      }
      SumReindex(maps, parts, m => MapValue(m, k), es => Sum(es, e => KeyTerm(t, ncols, k, e)));
      SumFlatten(parts, e => KeyTerm(t, ncols, k, e), es => Sum(es, e => KeyTerm(t, ncols, k, e)));
    }
  }

  /** The keys of a concatenation are the keys of its two halves. */
  lemma KeysAppend(t: HashTransform, ncols: nat, a: seq<Triple>, b: seq<Triple>)
    ensures KeysOf(t, ncols, a + b) == KeysOf(t, ncols, a) + KeysOf(t, ncols, b)
  {
    var ab := a + b;
    forall k | k in KeysOf(t, ncols, ab) ensures k in KeysOf(t, ncols, a) + KeysOf(t, ncols, b) {
      var i :| 0 <= i < |ab| && NonzeroKey(t, ncols, ab[i]) == k;
      if i < |a| {
        assert ab[i] == a[i];
      } else {
        assert ab[i] == b[i - |a|];
      }
    }
    forall k | k in KeysOf(t, ncols, a) + KeysOf(t, ncols, b) ensures k in KeysOf(t, ncols, ab) {
      if k in KeysOf(t, ncols, a) {
        var i :| 0 <= i < |a| && NonzeroKey(t, ncols, a[i]) == k;
        assert ab[i] == a[i];
      } else {
        var i :| 0 <= i < |b| && NonzeroKey(t, ncols, b[i]) == k;
        assert ab[|a| + i] == b[i];
      }
    }
  }

  /** A key is produced by the nonzeros of all processes together exactly when
      it is produced by those of some process. */
  lemma {:induction false} FlattenKeys(t: HashTransform, ncols: nat, parts: seq<seq<Triple>>, k: nat)
    ensures k in KeysOf(t, ncols, Flatten(parts)) <==>
      exists p :: 0 <= p < |parts| && k in KeysOf(t, ncols, parts[p])
    decreases |parts|
  {
    if parts != [] {
      var init, last := parts[..|parts| - 1], parts[|parts| - 1];
      FlattenKeys(t, ncols, init, k);
      KeysAppend(t, ncols, Flatten(init), last);
      if exists p :: 0 <= p < |parts| && k in KeysOf(t, ncols, parts[p]) {
        var p :| 0 <= p < |parts| && k in KeysOf(t, ncols, parts[p]);
        if p < |init| {
          assert init[p] == parts[p];
        }
      }
      if exists p :: 0 <= p < |init| && k in KeysOf(t, ncols, init[p]) {
        var p :| 0 <= p < |init| && k in KeysOf(t, ncols, init[p]);
        assert init[p] == parts[p];
      }
    }
  }

  /** The key of an output cell collects exactly the contributions to that
      cell of PI * A: the nonzeros in column c whose row is hashed to r. */
  lemma KeyTermIsColumnwiseTerm(t: HashTransform, ncols: nat, r: nat, c: nat, e: Triple)
    requires t.Valid() && e.row < t.n && e.col < ncols && c < ncols
    ensures KeyTerm(t, ncols, CellKey(ncols, r, c), e) == ColumnwiseTerm(t, r, c, e)
  {
    CellKeyRoundTrip(ncols, r, c);
    CellKeyRoundTrip(ncols, t.rowIdx[e.row], e.col);
  }

  /** The key of an output cell sums to cell (r, c) of PI * A. */
  lemma KeySumIsColumnwise(t: HashTransform, ncols: nat, es: seq<Triple>, r: nat, c: nat)
    requires t.Valid() && c < ncols
    requires forall i :: 0 <= i < |es| ==> es[i].row < t.n && es[i].col < ncols
    ensures MapValue(KeySums(t, ncols, es), CellKey(ncols, r, c)) == ColumnwiseAt(t, es, r, c)
  {
    var k := CellKey(ncols, r, c);
    forall i | 0 <= i < |es| ensures KeyTerm(t, ncols, k, es[i]) == ColumnwiseTerm(t, r, c, es[i]) {
      KeyTermIsColumnwiseTerm(t, ncols, r, c, es[i]);
    }
    SumCongruent(es, e => KeyTerm(t, ncols, k, e), e => ColumnwiseTerm(t, r, c, e));
    if k !in KeysOf(t, ncols, es) {
      KeyTermsAbsent(t, ncols, es, k);
    }
  }

  /** The linear key of an output triple. */
  function TripleKey(ncols: nat, e: Triple): nat
  {
    CellKey(ncols, e.row, e.col)
  }

  /** The decoding loop: walk `vals_map` in increasing key order and emit, for
      key k, the triple (k / ncols, k % ncols, vals_map[k]). Exactly one triple
      per key comes out, in strictly increasing key order. */
  method EmitTriples(vals: map<nat, real>, ncols: nat) returns (out: seq<Triple>)
    requires ncols > 0 || vals == map[]
    ensures |out| == |vals|
    ensures forall j :: 0 <= j < |out| ==>
      out[j].col < ncols && TripleKey(ncols, out[j]) in vals && out[j].val == vals[TripleKey(ncols, out[j])]
    ensures forall i, j :: 0 <= i < j < |out| ==> TripleKey(ncols, out[i]) < TripleKey(ncols, out[j])
    ensures forall k :: k in vals ==> exists j :: 0 <= j < |out| && TripleKey(ncols, out[j]) == k
  {
    out := [];
    var rest := vals.Keys;
    EmitStart(vals, ncols);
    while rest != {}
      invariant EmittedSoFar(vals, ncols, out, rest)
      decreases |rest|
    {
      out, rest := EmitLeast(vals, ncols, out, rest);
    }
    EmitDone(vals, ncols, out);
  }

  /** One step of the decoding loop: take the least key not yet visited and
      emit its triple. */
  method EmitLeast(vals: map<nat, real>, ncols: nat, out: seq<Triple>, rest: set<nat>)
    returns (out': seq<Triple>, rest': set<nat>)
    requires ncols > 0 || vals == map[]
    requires EmittedSoFar(vals, ncols, out, rest) && rest != {}
    ensures EmittedSoFar(vals, ncols, out', rest') && |rest'| < |rest|
  {
    var k := LeastKey(rest);
    assert k in vals;
    KeyDecodeRoundTrip(ncols, k);
    var e := Triple(k / ncols, k % ncols, vals[k]);
    EmitStep(vals, ncols, out, rest, k, e);
    out' := out + [e];
    rest' := rest - {k};
  }

  /** Before the first key is visited nothing has been emitted. */
  lemma EmitStart(vals: map<nat, real>, ncols: nat)
    ensures EmittedSoFar(vals, ncols, [], vals.Keys)
  {
    assert |vals.Keys| == |vals|;
  }

  /** With no key left to visit, every key has been emitted exactly once. */
  lemma EmitDone(vals: map<nat, real>, ncols: nat, out: seq<Triple>)
    requires EmittedSoFar(vals, ncols, out, {})
    ensures |out| == |vals|
    ensures forall j :: 0 <= j < |out| ==>
      out[j].col < ncols && TripleKey(ncols, out[j]) in vals && out[j].val == vals[TripleKey(ncols, out[j])]
    ensures forall i, j :: 0 <= i < j < |out| ==> TripleKey(ncols, out[i]) < TripleKey(ncols, out[j])
    ensures forall k :: k in vals ==> exists j :: 0 <= j < |out| && TripleKey(ncols, out[j]) == k
  {
  }

  /** The state of the decoding loop: the keys not yet visited are `rest`, and
      `out` holds one triple per visited key, in increasing key order, every
      one below every key still to come. */
  ghost predicate EmittedSoFar(vals: map<nat, real>, ncols: nat, out: seq<Triple>, rest: set<nat>)
  {
    && rest <= vals.Keys
    && |out| + |rest| == |vals|
    && (forall j :: 0 <= j < |out| ==>
          out[j].col < ncols && TripleKey(ncols, out[j]) in vals && TripleKey(ncols, out[j]) !in rest &&
          out[j].val == vals[TripleKey(ncols, out[j])])
    && (forall i, j :: 0 <= i < j < |out| ==> TripleKey(ncols, out[i]) < TripleKey(ncols, out[j]))
    && (forall j, k :: 0 <= j < |out| && k in rest ==> TripleKey(ncols, out[j]) < k)
    && (forall k :: k in vals && k !in rest ==> exists j :: 0 <= j < |out| && TripleKey(ncols, out[j]) == k)
  }

  /** Visiting the least remaining key keeps the state of the decoding loop. */
  lemma EmitStep(vals: map<nat, real>, ncols: nat, out: seq<Triple>, rest: set<nat>, k: nat, e: Triple)
    requires EmittedSoFar(vals, ncols, out, rest)
    requires k in rest && IsLeast(k, rest)
    requires e.col < ncols && TripleKey(ncols, e) == k && e.val == vals[k]
    ensures EmittedSoFar(vals, ncols, out + [e], rest - {k})
  {
    EmitStepEntries(vals, ncols, out, rest, k, e);
    EmitStepOrder(vals, ncols, out, rest, k, e);
    EmitStepBelowRest(vals, ncols, out, rest, k, e);
    EmitStepCovers(vals, ncols, out, rest, k, e);
  }

  /** After the step every emitted triple still carries a visited key and its value. */
  lemma EmitStepEntries(vals: map<nat, real>, ncols: nat, out: seq<Triple>, rest: set<nat>, k: nat, e: Triple)
    requires EmittedSoFar(vals, ncols, out, rest)
    requires k in rest && e.col < ncols && TripleKey(ncols, e) == k && e.val == vals[k]
    ensures forall j :: 0 <= j < |out + [e]| ==>
      (out + [e])[j].col < ncols && TripleKey(ncols, (out + [e])[j]) in vals && TripleKey(ncols, (out + [e])[j]) !in rest - {k} &&
      (out + [e])[j].val == vals[TripleKey(ncols, (out + [e])[j])]
  {
    var out' := out + [e];
    forall j | 0 <= j < |out'|
      ensures out'[j].col < ncols && TripleKey(ncols, out'[j]) in vals && TripleKey(ncols, out'[j]) !in rest - {k}
      ensures out'[j].val == vals[TripleKey(ncols, out'[j])]
    {
      if j < |out| { assert out'[j] == out[j]; }
    }
  }

  /** After the step the emitted keys are still strictly increasing. */
  lemma EmitStepOrder(vals: map<nat, real>, ncols: nat, out: seq<Triple>, rest: set<nat>, k: nat, e: Triple)
    requires EmittedSoFar(vals, ncols, out, rest)
    requires k in rest && TripleKey(ncols, e) == k
    ensures forall i, j :: 0 <= i < j < |out + [e]| ==> TripleKey(ncols, (out + [e])[i]) < TripleKey(ncols, (out + [e])[j])
  {
    var out' := out + [e];
    forall i, j | 0 <= i < j < |out'| ensures TripleKey(ncols, out'[i]) < TripleKey(ncols, out'[j]) {
      assert out'[i] == out[i];
      if j < |out| { assert out'[j] == out[j]; }
    }
  }

  /** After the step every emitted key is below every key still to visit. */
  lemma EmitStepBelowRest(vals: map<nat, real>, ncols: nat, out: seq<Triple>, rest: set<nat>, k: nat, e: Triple)
    requires EmittedSoFar(vals, ncols, out, rest)
    requires IsLeast(k, rest) && TripleKey(ncols, e) == k
    ensures forall j, k' :: 0 <= j < |out + [e]| && k' in rest - {k} ==> TripleKey(ncols, (out + [e])[j]) < k'
  {
    var out' := out + [e];
    forall j, k' | 0 <= j < |out'| && k' in rest - {k} ensures TripleKey(ncols, out'[j]) < k' {
      if j < |out| { assert out'[j] == out[j]; }
    }
  }

  /** After the step every visited key has its triple. */
  lemma EmitStepCovers(vals: map<nat, real>, ncols: nat, out: seq<Triple>, rest: set<nat>, k: nat, e: Triple)
    requires EmittedSoFar(vals, ncols, out, rest)
    requires TripleKey(ncols, e) == k
    ensures forall k' :: k' in vals && k' !in rest - {k} ==> exists j :: 0 <= j < |out + [e]| && TripleKey(ncols, (out + [e])[j]) == k'
  {
    var out' := out + [e];
    forall k' | k' in vals && k' !in rest - {k} ensures exists j :: 0 <= j < |out'| && TripleKey(ncols, out'[j]) == k' {
      if k' == k {
        assert TripleKey(ncols, out'[|out|]) == k';
      } else {
        var j :| 0 <= j < |out| && TripleKey(ncols, out[j]) == k';
        assert out'[j] == out[j];
      }
    }
  }

  /** The emitted triples denote the merged map cell by cell: cell (r, c) of
      the output holds the value under the key of (r, c), or zero. */
  lemma EmittedCells(vals: map<nat, real>, ncols: nat, out: seq<Triple>, r: nat, c: nat)
    requires ncols > 0 && c < ncols
    requires forall j :: 0 <= j < |out| ==>
      out[j].col < ncols && TripleKey(ncols, out[j]) in vals && out[j].val == vals[TripleKey(ncols, out[j])]
    requires forall i, j :: 0 <= i < j < |out| ==> TripleKey(ncols, out[i]) < TripleKey(ncols, out[j])
    requires forall k :: k in vals ==> exists j :: 0 <= j < |out| && TripleKey(ncols, out[j]) == k
    ensures CellSum(out, r, c) == MapValue(vals, CellKey(ncols, r, c))
  {
    var k := CellKey(ncols, r, c);
    EmittedDistinct(ncols, out);
    if k in vals {
      var j :| 0 <= j < |out| && TripleKey(ncols, out[j]) == k;
      CellKeyRoundTrip(ncols, r, c);
      CellKeyRoundTrip(ncols, out[j].row, out[j].col);
      CellSumAt(out, j);
    } else {
      CellSumAbsent(out, r, c);
    }
  }

  /** Strictly increasing keys put no two triples on the same cell. */
  lemma EmittedDistinct(ncols: nat, out: seq<Triple>)
    requires forall i, j :: 0 <= i < j < |out| ==> TripleKey(ncols, out[i]) < TripleKey(ncols, out[j])
    ensures DistinctCells(out)
  {
  }

  /** A cell in a column at or beyond ncols holds nothing in the output. */
  lemma EmittedCellsOutside(ncols: nat, out: seq<Triple>, r: nat, c: nat)
    requires c >= ncols
    requires forall j :: 0 <= j < |out| ==> out[j].col < ncols
    ensures CellSum(out, r, c) == 0.0
  {
    CellSumAbsent(out, r, c);
  }

  /** The output matrix of an apply: its shape is fixed, its nonzeros are
      replaced wholesale by the apply. */
  class SparseMatrix {
    const nrow: nat
    const ncol: nat
    var entries: seq<Triple>

    constructor (nrow: nat, ncol: nat, entries: seq<Triple>)
      ensures this.nrow == nrow && this.ncol == ncol && this.entries == entries
    {
      this.nrow := nrow;
      this.ncol := ncol;
      this.entries := entries;
    }
  }

  /** Columnwise `apply_impl` for distributed sparse matrices: the output is
      replaced by PI * A, one triple per merged key, with no cell twice. */
  method ApplyColumnwise(t: HashTransform, a: DistSparse, sketchOfA: SparseMatrix)
    requires t.Valid() && a.Valid() && AtRoundedOffsets(a)
    requires WithinShape(a, t.n, sketchOfA.ncol)
    modifies sketchOfA
    ensures DistinctCells(sketchOfA.entries)
    ensures forall j :: 0 <= j < |sketchOfA.entries| ==>
      sketchOfA.entries[j].row < t.s && sketchOfA.entries[j].col < sketchOfA.ncol
    ensures |sketchOfA.entries| == |KeySums(t, sketchOfA.ncol, GlobalNonzeros(a))|
    ensures forall r: nat, c: nat :: CellSum(sketchOfA.entries, r, c) == Product(PiMatrix(t), GlobalNonzeros(a), r, c)
  {
    var ncols := sketchOfA.ncol;
    var gathered := GatherLocalMaps(t, a, ncols);

    // the gathered maps are merged, then decoded into triples
    var vals := MergeMaps(gathered);
    MergeOfLocalMaps(t, ncols, PerProcess(a), gathered);
    ghost var all := GlobalNonzeros(a);
    GlobalWithinShape(a, t.n, ncols);
    KeysNeedColumns(t, ncols, all);
    var out := EmitTriples(vals, ncols);
    sketchOfA.entries := out;
    EmittedIsProduct(t, ncols, all, vals, out);
    EmittedDistinct(ncols, out);
    EmittedRows(t, ncols, all, out);
  }

  /** Every process builds its map of keyed contributions; the `all_gather`
      hands the maps, in process order, to every process. */
  method GatherLocalMaps(t: HashTransform, a: DistSparse, ncols: nat) returns (gathered: seq<map<nat, real>>)
    requires t.Valid() && a.Valid() && AtRoundedOffsets(a) && WithinShape(a, t.n, ncols)
    ensures |gathered| == |a.blocks|
    ensures forall q :: 0 <= q < |gathered| ==> gathered[q] == KeySums(t, ncols, BlockNonzeros(a, q))
  {
    gathered := [];
    for p := 0 to |a.blocks|
      invariant |gathered| == p
      invariant forall q :: 0 <= q < p ==> gathered[q] == KeySums(t, ncols, BlockNonzeros(a, q))
    {
      var b := a.blocks[p];
      var myRowOffset := RoundedBlock(a.nrow, a.gridRows) * b.gridRow;
      var myColOffset := RoundedBlock(a.ncol, a.gridCols) * b.gridCol;
      var myVals := LocalColumnwiseMap(t, ncols, b.nonzeros, myRowOffset, myColOffset);
      gathered := gathered + [myVals];
    }
  }

  /** A key exists only when some nonzero produced it, inside some column, so
      an output without columns has no keys. */
  lemma KeysNeedColumns(t: HashTransform, ncols: nat, es: seq<Triple>)
    requires forall i :: 0 <= i < |es| ==> es[i].col < ncols
    ensures ncols > 0 || KeySums(t, ncols, es) == map[]
  {
    if |es| > 0 {
      assert es[0].col < ncols;
    } else {
      assert KeysOf(t, ncols, es) == {};
    }
  }

  /** Triples emitted from the merged map of all nonzeros of A denote PI * A
      cell by cell. */
  lemma EmittedIsProduct(t: HashTransform, ncols: nat, all: seq<Triple>, vals: map<nat, real>, out: seq<Triple>)
    requires t.Valid()
    requires forall i :: 0 <= i < |all| ==> all[i].row < t.n && all[i].col < ncols
    requires vals == KeySums(t, ncols, all)
    requires forall j :: 0 <= j < |out| ==>
      out[j].col < ncols && TripleKey(ncols, out[j]) in vals && out[j].val == vals[TripleKey(ncols, out[j])]
    requires forall i, j :: 0 <= i < j < |out| ==> TripleKey(ncols, out[i]) < TripleKey(ncols, out[j])
    requires forall k :: k in vals ==> exists j :: 0 <= j < |out| && TripleKey(ncols, out[j]) == k
    ensures forall r: nat, c: nat :: CellSum(out, r, c) == Product(PiMatrix(t), all, r, c)
  {
    forall r: nat, c: nat ensures CellSum(out, r, c) == Product(PiMatrix(t), all, r, c) {
      ColumnwiseIsPiTimes(t, all, r, c);
      if c < ncols {
        EmittedCells(vals, ncols, out, r, c);
        KeySumIsColumnwise(t, ncols, all, r, c);
      } else {
        EmittedCellsOutside(ncols, out, r, c);
        SumZero(all, e => ColumnwiseTerm(t, r, c, e));
      }
    }
  }

  /** Every emitted triple sits in a row of PI, below S, and in a column of
      the output: its key is the key of some nonzero, whose bucket is below S. */
  lemma EmittedRows(t: HashTransform, ncols: nat, all: seq<Triple>, out: seq<Triple>)
    requires t.Valid()
    requires forall i :: 0 <= i < |all| ==> all[i].row < t.n && all[i].col < ncols
    requires forall j :: 0 <= j < |out| ==>
      out[j].col < ncols && TripleKey(ncols, out[j]) in KeySums(t, ncols, all)
    ensures forall j :: 0 <= j < |out| ==> out[j].row < t.s && out[j].col < ncols
  {
    forall j | 0 <= j < |out| ensures out[j].row < t.s {
      var k := TripleKey(ncols, out[j]);
      assert k in KeysOf(t, ncols, all);
      var i :| 0 <= i < |all| && NonzeroKey(t, ncols, all[i]) == k;
      CellKeyRoundTrip(ncols, out[j].row, out[j].col);
      CellKeyRoundTrip(ncols, t.rowIdx[all[i].row], all[i].col);
    }
  }

  /** The per-block shape condition carries over to the global nonzeros. */
  lemma GlobalWithinShape(a: DistSparse, rows: nat, cols: nat)
    requires a.Valid() && WithinShape(a, rows, cols)
    ensures forall i :: 0 <= i < |GlobalNonzeros(a)| ==>
      GlobalNonzeros(a)[i].row < rows && GlobalNonzeros(a)[i].col < cols
  {
    var ps: seq<seq<Triple>> := PerProcess(a);
    forall p: int, i: int | 0 <= p < |ps| && 0 <= i < |ps[p]| ensures ps[p][i].row < rows && ps[p][i].col < cols {
    }
    FlattenBounds(ps, rows, cols);
  }

  lemma FlattenBounds(ps: seq<seq<Triple>>, rows: nat, cols: nat)
    requires forall p: int, i: int :: 0 <= p < |ps| && 0 <= i < |ps[p]| ==> ps[p][i].row < rows && ps[p][i].col < cols
    ensures forall i :: 0 <= i < |Flatten(ps)| ==> Flatten(ps)[i].row < rows && Flatten(ps)[i].col < cols
  {
    if ps != [] {
      var init := ps[..|ps| - 1];
      FlattenBounds(init, rows, cols);
      assert Flatten(ps) == Flatten(init) + ps[|ps| - 1];
    }
  }

  // ---------------------------------------------------------------------------
  // Rowwise: dense row-major buffers, all-reduce, one triple per cell

  /** The row-major buffer position a global nonzero e of A feeds: row e.row
      of the output, column rowIdx[e.col]. */
  function BufferPos(t: HashTransform, ncols: nat, e: Triple): nat
  {
    CellKey(ncols, e.row, if e.col < |t.rowIdx| then t.rowIdx[e.col] else 0)
  }

  /** What the global nonzero e adds at buffer position i. */
  function PosTerm(t: HashTransform, ncols: nat, i: nat, e: Triple): real
  {
    if e.col < |t.rowValue| && BufferPos(t, ncols, e) == i then e.val * t.rowValue[e.col] else 0.0
  }

  /** Buffer position i after adding in every nonzero of es. */
  function PosSum(t: HashTransform, ncols: nat, es: seq<Triple>, i: nat): real
  {
    Sum(es, e => PosTerm(t, ncols, i, e))
  }

  /** The buffer position of a nonzero inside the shape, row * ncols +
      rowIdx[col], lies inside the buffer. */
  lemma RowwisePosition(t: HashTransform, nrows: nat, ncols: nat, row: nat, col: nat)
    requires t.Valid() && t.s <= ncols && row < nrows && col < t.n
    ensures Mul(row, ncols) + t.rowIdx[col] < Mul(ncols, nrows)
  {
    MulIsProduct(row, ncols);
    MulIsProduct(ncols, nrows);
    RowMajorBound(row, t.rowIdx[col], nrows, ncols);
  }

  /** Adding the signed value of the next nonzero of g at its position turns
      a buffer of the first j nonzeros into a buffer of the first j + 1. */
  lemma BufferUpdate(t: HashTransform, ncols: nat, g: seq<Triple>, j: nat, pos: nat, value: real, prev: seq<real>, cur: seq<real>)
    requires j < |g| && g[j].col < |t.rowValue| && pos == BufferPos(t, ncols, g[j]) && pos < |prev|
    requires value == g[j].val * t.rowValue[g[j].col]
    requires forall i :: 0 <= i < |prev| ==> prev[i] == PosSum(t, ncols, g[..j], i)
    requires cur == prev[pos := prev[pos] + value]
    ensures forall i :: 0 <= i < |cur| ==> cur[i] == PosSum(t, ncols, g[..j + 1], i)
  {
    assert g[..j + 1] == g[..j] + [g[j]];
    forall i | 0 <= i < |cur|
      ensures cur[i] == PosSum(t, ncols, g[..j + 1], i)
    {
      SumSnoc(g[..j], g[j], x => PosTerm(t, ncols, i, x));
    }
  }

  /** One process's accumulation into `my_vals`: a zeroed buffer of
      nrows * ncols entries, where every local nonzero, shifted to global ids,
      adds its signed value at position row * ncols + rowIdx[col]. */
  method LocalRowwiseBuffer(t: HashTransform, nrows: nat, ncols: nat, nz: seq<Triple>, rowOff: nat, colOff: nat)
    returns (buf: seq<real>)
    requires t.Valid() && t.s <= ncols
    requires forall i :: 0 <= i < |nz| ==> nz[i].row + rowOff < nrows && nz[i].col + colOff < t.n
    ensures |buf| == Mul(ncols, nrows)
    ensures forall i :: 0 <= i < |buf| ==> buf[i] == PosSum(t, ncols, Globalize(nz, rowOff, colOff), i)
  {
    ghost var g := Globalize(nz, rowOff, colOff);
    var matrixSize := Mul(ncols, nrows);
    var myVals := new real[matrixSize](_ => 0.0);
    ghost var acc := myVals[..];
    for j := 0 to |nz|
      invariant myVals[..] == acc
      invariant forall i :: 0 <= i < |acc| ==> acc[i] == PosSum(t, ncols, g[..j], i)
    {
      var row, col := nz[j].row + rowOff, nz[j].col + colOff;
      var pos := Mul(row, ncols) + t.rowIdx[col];
      var value := nz[j].val * t.rowValue[col];
      RowwisePosition(t, nrows, ncols, row, col);
      myVals[pos] := myVals[pos] + value;
      ghost var prev := acc;
      acc := acc[pos := acc[pos] + value];
      BufferUpdate(t, ncols, g, j, pos, value, prev, acc);
    }
    assert g[..|nz|] == g;
    buf := myVals[..];
  }

  /** Summing the per-process buffers position by position gives the buffer of
      all nonzeros together. */
  lemma AllreduceOfBuffers(t: HashTransform, ncols: nat, size: nat, parts: seq<seq<Triple>>, bufs: seq<seq<real>>)
    requires |bufs| == |parts|
    requires forall p :: 0 <= p < |bufs| ==> |bufs[p]| == size
    requires forall p, i :: 0 <= p < |bufs| && 0 <= i < size ==> bufs[p][i] == PosSum(t, ncols, parts[p], i)
    ensures forall i :: 0 <= i < size ==> AllreduceSum(bufs, size)[i] == PosSum(t, ncols, Flatten(parts), i)
  {
    forall i | 0 <= i < size
      ensures AllreduceSum(bufs, size)[i] == PosSum(t, ncols, Flatten(parts), i)
    {
      SumReindex(bufs, parts, v => EntryOrZero(v, i), es => PosSum(t, ncols, es, i));
      SumFlatten(parts, e => PosTerm(t, ncols, i, e), es => PosSum(t, ncols, es, i));
    }
  }

  /** The buffer position of an output cell collects exactly the contributions
      to that cell of A * PI^T: the nonzeros in row r whose column is hashed
      to c. */
  lemma PosTermIsRowwiseTerm(t: HashTransform, ncols: nat, r: nat, c: nat, e: Triple)
    requires t.Valid() && t.s <= ncols && e.col < t.n && c < ncols
    ensures PosTerm(t, ncols, CellKey(ncols, r, c), e) == RowwiseTerm(t, r, c, e)
  {
    CellKeyRoundTrip(ncols, r, c);
    CellKeyRoundTrip(ncols, e.row, t.rowIdx[e.col]);
  }

  /** Buffer position r * ncols + c sums to cell (r, c) of A * PI^T. */
  lemma PosSumIsRowwise(t: HashTransform, ncols: nat, es: seq<Triple>, r: nat, c: nat)
    requires t.Valid() && t.s <= ncols && c < ncols
    requires forall i :: 0 <= i < |es| ==> es[i].col < t.n
    ensures PosSum(t, ncols, es, CellKey(ncols, r, c)) == RowwiseAt(t, es, r, c)
  {
    forall i | 0 <= i < |es| ensures PosTerm(t, ncols, CellKey(ncols, r, c), es[i]) == RowwiseTerm(t, r, c, es[i]) {
      PosTermIsRowwiseTerm(t, ncols, r, c, es[i]);
    }
    SumCongruent(es, e => PosTerm(t, ncols, CellKey(ncols, r, c), e), e => RowwiseTerm(t, r, c, e));
  }

  /** The index vectors of the rowwise output: entry i of the buffer is cell
      (i / ncols, i % ncols). */
  method RowwiseIndices(matrixSize: nat, ncols: nat) returns (rows: seq<nat>, cols: seq<nat>)
    requires ncols > 0 || matrixSize == 0
    ensures |rows| == matrixSize && |cols| == matrixSize
    ensures forall i :: 0 <= i < matrixSize ==> CellKey(ncols, rows[i], cols[i]) == i && cols[i] < ncols
  {
    var rowArr := new nat[matrixSize];
    var colArr := new nat[matrixSize];
    for i := 0 to matrixSize
      invariant forall j :: 0 <= j < i ==> CellKey(ncols, rowArr[j], colArr[j]) == j && colArr[j] < ncols
    {
      rowArr[i] := i / ncols;
      colArr[i] := i % ncols;
      KeyDecodeRoundTrip(ncols, i);
    }
    rows, cols := rowArr[..], colArr[..];
  }

  /** The output matrix assembled from its index and value vectors. */
  function Assemble(rows: seq<nat>, cols: seq<nat>, vals: seq<real>): (out: seq<Triple>)
    requires |rows| == |vals| && |cols| == |vals|
    ensures |out| == |vals|
  {
    seq(|vals|, i requires 0 <= i < |vals| => Triple(rows[i], cols[i], vals[i]))
  }

  /** The rowwise output has one triple per cell of the nrows x ncols output,
      each at a different cell, holding buffer entry row * ncols + col; every
      cell outside the output holds zero. */
  lemma RowwiseCells(vals: seq<real>, nrows: nat, ncols: nat, out: seq<Triple>, r: nat, c: nat)
    requires |vals| == nrows * ncols && |out| == |vals|
    requires forall i :: 0 <= i < |out| ==> CellKey(ncols, out[i].row, out[i].col) == i && out[i].col < ncols && out[i].val == vals[i]
    ensures DistinctCells(out)
    ensures r < nrows && c < ncols ==> CellKey(ncols, r, c) < |vals| && CellSum(out, r, c) == vals[CellKey(ncols, r, c)]
    ensures !(r < nrows && c < ncols) ==> CellSum(out, r, c) == 0.0
  {
    if r < nrows && c < ncols {
      var k := CellKey(ncols, r, c);
      MulIsProduct(r, ncols);
      RowMajorBound(r, c, nrows, ncols);
      CellKeyRoundTrip(ncols, r, c);
      CellKeyRoundTrip(ncols, out[k].row, out[k].col);
      CellSumAt(out, k);
    } else {
      forall i | 0 <= i < |out| ensures out[i].row != r || out[i].col != c {
        RowMajorDecode(i, nrows, ncols);
        CellKeyRoundTrip(ncols, out[i].row, out[i].col);
      }
      CellSumAbsent(out, r, c);
    }
  }

  /** Rowwise `apply_impl` for distributed sparse matrices: the output is
      replaced by A * PI^T, with one triple for every one of its
      nrows * ncols cells. */
  method ApplyRowwise(t: HashTransform, a: DistSparse, sketchOfA: SparseMatrix)
    requires t.Valid() && a.Valid() && AtRoundedOffsets(a) && t.s <= sketchOfA.ncol
    requires WithinShape(a, sketchOfA.nrow, t.n)
    modifies sketchOfA
    ensures DistinctCells(sketchOfA.entries)
    ensures |sketchOfA.entries| == sketchOfA.nrow * sketchOfA.ncol
    ensures forall i :: 0 <= i < |sketchOfA.entries| ==>
      CellKey(sketchOfA.ncol, sketchOfA.entries[i].row, sketchOfA.entries[i].col) == i &&
      sketchOfA.entries[i].row < sketchOfA.nrow && sketchOfA.entries[i].col < sketchOfA.ncol
    ensures forall r: nat, c: nat :: CellSum(sketchOfA.entries, r, c) == Product(GlobalNonzeros(a), Transpose(PiMatrix(t)), r, c)
  {
    var ncols := sketchOfA.ncol;
    var nrows := sketchOfA.nrow;
    var matrixSize := Mul(ncols, nrows);
    MulIsProduct(ncols, nrows);
    var rows, cols := RowwiseIndices(matrixSize, ncols);

    // every process fills its own buffer
    var buffers: seq<seq<real>> := [];
    for p := 0 to |a.blocks|
      invariant |buffers| == p
      invariant forall q :: 0 <= q < p ==> |buffers[q]| == matrixSize
      invariant forall q, i :: 0 <= q < p && 0 <= i < matrixSize ==> buffers[q][i] == PosSum(t, ncols, BlockNonzeros(a, q), i)
    {
      var b := a.blocks[p];
      var myRowOffset := RoundedBlock(a.nrow, a.gridRows) * b.gridRow;
      var myColOffset := RoundedBlock(a.ncol, a.gridCols) * b.gridCol;
      var myVals := LocalRowwiseBuffer(t, nrows, ncols, b.nonzeros, myRowOffset, myColOffset);
      buffers := buffers + [myVals];
    }

    // the buffers are summed across processes and become the values
    var vals := AllreduceSum(buffers, matrixSize);
    ghost var all := GlobalNonzeros(a);
    AllreduceOfBuffers(t, ncols, matrixSize, PerProcess(a), buffers);
    GlobalWithinShape(a, nrows, t.n);
    var out := Assemble(rows, cols, vals);
    sketchOfA.entries := out;

    forall r: nat, c: nat ensures CellSum(out, r, c) == Product(all, Transpose(PiMatrix(t)), r, c) {
      RowwiseIsTimesPiTransposed(t, all, r, c);
      RowwiseCells(vals, nrows, ncols, out, r, c);
      if r < nrows && c < ncols {
        PosSumIsRowwise(t, ncols, all, r, c);
      } else {
        forall i | 0 <= i < |all| ensures RowwiseTerm(t, r, c, all[i]) == 0.0 {
        }
        SumZero(all, e => RowwiseTerm(t, r, c, e));
      }
    }
    RowwiseCells(vals, nrows, ncols, out, 0, 0);
    forall i | 0 <= i < |out| ensures out[i].row < nrows {
      RowMajorDecode(i, nrows, ncols);
      CellKeyRoundTrip(ncols, out[i].row, out[i].col);
    }
  }
}
