/** Columnwise signed-hash sketching of distributed dense (multi-)vectors.
    Every process walks the entries of the vector it owns, scatters them into a
    length-S partial sketch, and the partial sketches are added up across all
    processes (an all-reduce with SUM); the sum is then written into the output
    vector. The all-reduce is modelled as the sum of the per-process partial
    results; which global indices a process owns is an arbitrary split
    `owners`, one list of global indices per process. */
module HashDenseCombBLAS {
  import opened Sums
  import opened HashTransformData

  /** Every index a process iterates over is a valid input index. */
  predicate OwnersInRange(owners: seq<seq<nat>>, n: nat)
  {
    forall p, j :: 0 <= p < |owners| && 0 <= j < |owners[p]| ==> owners[p][j] < n
  }

  /** The processes together own every index in [0, n) exactly once. */
  predicate IsSplit(owners: seq<seq<nat>>, n: nat)
  {
    multiset(Flatten(owners)) == multiset(Range(n))
  }

  /** Bucket k of the partial sketch of the entries whose global indices are
      listed in `owned`. */
  function PartialBucket(t: HashTransform, x: seq<real>, owned: seq<nat>, k: nat): real
  {
    Sum(owned, g => BucketTerm(t, x, k, g))
  }

  /** One process's scatter-accumulate: `sketch_term` starts at zero and, for
      every owned global index g, bucket rowIdx[g] gains x[g] * rowValue[g]. */
  method LocalSketchTerm(t: HashTransform, x: seq<real>, owned: seq<nat>) returns (term: seq<real>)
    requires t.Valid() && |x| == t.n
    requires forall j :: 0 <= j < |owned| ==> owned[j] < t.n
    ensures |term| == t.s
    ensures forall k :: 0 <= k < t.s ==> term[k] == PartialBucket(t, x, owned, k)
  {
    var sketchTerm := new real[t.s](_ => 0.0);
    var j := 0;
    while j < |owned|
      invariant 0 <= j <= |owned|
      invariant forall k :: 0 <= k < t.s ==> sketchTerm[k] == PartialBucket(t, x, owned[..j], k)
    {
      var globalIdx := owned[j];
      var globalSketchIdx := t.rowIdx[globalIdx];
      sketchTerm[globalSketchIdx] := sketchTerm[globalSketchIdx] + x[globalIdx] * t.rowValue[globalIdx];
      assert owned[..j + 1] == owned[..j] + [globalIdx];
      forall k | 0 <= k < t.s
        ensures PartialBucket(t, x, owned[..j + 1], k)
             == PartialBucket(t, x, owned[..j], k) + BucketTerm(t, x, k, globalIdx)
      {
        SumSnoc(owned[..j], globalIdx, g => BucketTerm(t, x, k, g));
      }
      j := j + 1;
    }
    assert owned[..|owned|] == owned;
    term := sketchTerm[..];
  }

  /** Entry k of a partial result, zero beyond its end. */
  function EntryOrZero(v: seq<real>, k: nat): real
  {
    if k < |v| then v[k] else 0.0
  }

  /** The all-reduce with SUM over per-process vectors of length len. */
  function AllreduceSum(parts: seq<seq<real>>, len: nat): (r: seq<real>)
    ensures |r| == len
  {
    seq(len, k requires 0 <= k < len => Sum(parts, v => EntryOrZero(v, k)))
  }

  /** The sketch the processes compute together: bucket k sums the terms of
      every index any process iterates over. */
  function DistributedSketch(t: HashTransform, x: seq<real>, owners: seq<seq<nat>>): (y: seq<real>)
    ensures |y| == t.s
  {
    seq(t.s, k requires 0 <= k < t.s => PartialBucket(t, x, Flatten(owners), k))
  }

  /** Adding up the per-process partial sketches gives the partial sketch of
      everything the processes own together. */
  lemma AllreduceOfPartials(t: HashTransform, x: seq<real>, owners: seq<seq<nat>>, terms: seq<seq<real>>)
    requires |terms| == |owners|
    requires forall p :: 0 <= p < |terms| ==> |terms[p]| == t.s
    requires forall p, k :: 0 <= p < |terms| && 0 <= k < t.s ==> terms[p][k] == PartialBucket(t, x, owners[p], k)
    ensures AllreduceSum(terms, t.s) == DistributedSketch(t, x, owners)
  {
    forall k | 0 <= k < t.s
      ensures AllreduceSum(terms, t.s)[k] == DistributedSketch(t, x, owners)[k]
    {
      SumReindex(terms, owners, v => EntryOrZero(v, k), o => PartialBucket(t, x, o, k));
      SumFlatten(owners, g => BucketTerm(t, x, k, g), o => PartialBucket(t, x, o, k));
    }
  }

  /** Partition independence: whenever the processes split [0, N) among
      themselves, in any way, the distributed sketch is the sketch one process
      holding every index would compute. */
  lemma {:induction false} PartitionIndependent(t: HashTransform, x: seq<real>, owners: seq<seq<nat>>)
    requires t.Valid() && |x| == t.n
    requires IsSplit(owners, t.n)
    ensures DistributedSketch(t, x, owners) == Sketch(t, x)
  {
    forall k | 0 <= k < t.s
      ensures DistributedSketch(t, x, owners)[k] == Sketch(t, x)[k]
    {
      SumPermutation(Flatten(owners), Range(t.n), g => BucketTerm(t, x, k, g));
    }
  }

  /** `apply_impl_single`: every process computes its partial sketch, the
      partial sketches are summed across processes, and the output vector
      receives every one of the S summed entries. */
  method ApplySingle(t: HashTransform, x: seq<real>, owners: seq<seq<nat>>) returns (sketch: seq<real>)
    requires t.Valid() && |x| == t.n
    requires OwnersInRange(owners, t.n)
    ensures sketch == DistributedSketch(t, x, owners)
    ensures IsSplit(owners, t.n) ==> sketch == Sketch(t, x)
  {
    var terms: seq<seq<real>> := [];
    for p := 0 to |owners|
      invariant |terms| == p
      invariant forall q :: 0 <= q < p ==> |terms[q]| == t.s
      invariant forall q, k :: 0 <= q < p && 0 <= k < t.s ==> terms[q][k] == PartialBucket(t, x, owners[q], k)
    {
      var term := LocalSketchTerm(t, x, owners[p]);
      terms := terms + [term];
    }
    sketch := AllreduceSum(terms, t.s);
    AllreduceOfPartials(t, x, owners, terms);
    if IsSplit(owners, t.n) {
      PartitionIndependent(t, x, owners);
    }
  }

  /** A distributed multi-vector: `size` vectors of dimension `dim`, given by
      their global contents. */
  class DistMultiVec {
    const size: nat
    const dim: nat
    var vecs: seq<seq<real>>

    ghost predicate Valid()
      reads this
    {
      |vecs| == size && forall i :: 0 <= i < size ==> |vecs[i]| == dim
    }

    constructor (size: nat, dim: nat)
      ensures Valid() && this.size == size && this.dim == dim
      ensures forall i, k :: 0 <= i < size && 0 <= k < dim ==> vecs[i][k] == 0.0
    {
      this.size := size;
      this.dim := dim;
      vecs := seq(size, _ => seq(dim, _ => 0.0));
    }
  }

  /** The guard of the multi-vector `apply_impl`: as many output vectors as
      input vectors, inputs of dimension N, outputs of dimension S. */
  predicate ShapesAgree(t: HashTransform, inSize: nat, inDim: nat, outSize: nat, outDim: nat)
  {
    outSize == inSize && inDim == t.n && outDim == t.s
  }

  /** `apply_impl` for multi-vectors, columnwise: on any shape mismatch the call
      returns and leaves the output untouched; otherwise output vector i becomes
      the sketch of input vector i, each vector on its own. */
  method Apply(t: HashTransform, a: DistMultiVec, sketchOfA: DistMultiVec, owners: seq<seq<nat>>)
    requires t.Valid() && a.Valid() && sketchOfA.Valid()
    requires OwnersInRange(owners, t.n)
    modifies sketchOfA
    ensures sketchOfA.Valid()
    ensures !ShapesAgree(t, a.size, a.dim, sketchOfA.size, sketchOfA.dim) ==> sketchOfA.vecs == old(sketchOfA.vecs)
    ensures ShapesAgree(t, a.size, a.dim, sketchOfA.size, sketchOfA.dim) ==>
      forall i :: 0 <= i < a.size ==> sketchOfA.vecs[i] == DistributedSketch(t, old(a.vecs[i]), owners)
    ensures ShapesAgree(t, a.size, a.dim, sketchOfA.size, sketchOfA.dim) && IsSplit(owners, t.n) ==>
      forall i :: 0 <= i < a.size ==> sketchOfA.vecs[i] == Sketch(t, old(a.vecs[i]))
  {
    var numRhs := a.size;
    if sketchOfA.size != numRhs { return; }
    if a.dim != t.n { return; }
    if sketchOfA.dim != t.s { return; }

    for i := 0 to numRhs
      invariant sketchOfA.Valid() && a.Valid()
      invariant forall j :: i <= j < numRhs ==> a.vecs[j] == old(a.vecs[j])
      invariant forall j :: 0 <= j < i ==> sketchOfA.vecs[j] == DistributedSketch(t, old(a.vecs[j]), owners)
      invariant IsSplit(owners, t.n) ==> forall j :: 0 <= j < i ==> sketchOfA.vecs[j] == Sketch(t, old(a.vecs[j]))
    {
      var y := ApplySingle(t, a.vecs[i], owners);
      sketchOfA.vecs := sketchOfA.vecs[i := y];
    }
  }
}
