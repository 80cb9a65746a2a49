/** Finite sums over sequences: the one notion of accumulation every apply path,
    every collective reduction and every loss in this model is built from. */
module Sums {

  /** Sum of f over the elements of s, folded from the front of s to its back. */
  function Sum<T>(s: seq<T>, f: T -> real): real
    decreases |s|
  {
    if s == [] then 0.0 else Sum(s[..|s| - 1], f) + f(s[|s| - 1])
  }

  /** Adding one element at the back adds its term. */
  lemma SumSnoc<T>(s: seq<T>, x: T, f: T -> real)
    ensures Sum(s + [x], f) == Sum(s, f) + f(x)
  {
    assert (s + [x])[..|s|] == s;
  }

  /** The sum over a concatenation is the sum of the two sums. */
  lemma {:induction false} SumAppend<T>(a: seq<T>, b: seq<T>, f: T -> real)
    ensures Sum(a + b, f) == Sum(a, f) + Sum(b, f)
    decreases |b|
  {
    if b == [] {
      assert a + b == a;
    } else {
      var b' := b[..|b| - 1];
      assert (a + b)[..|a + b| - 1] == a + b';
      SumAppend(a, b', f);
    }
  }

  /** Adding one element at the front adds its term. */
  lemma SumCons<T>(x: T, s: seq<T>, f: T -> real)
    ensures Sum([x] + s, f) == f(x) + Sum(s, f)
  {
    SumAppend([x], s, f);
    assert [x][..0] == [];
  }

  /** Terms that are all zero sum to zero. */
  lemma {:induction false} SumZero<T>(s: seq<T>, f: T -> real)
    requires forall i :: 0 <= i < |s| ==> f(s[i]) == 0.0
    ensures Sum(s, f) == 0.0
    decreases |s|
  {
    if s != [] {
      SumZero(s[..|s| - 1], f);
    }
  }

  /** Two term functions that agree on every element give the same sum. */
  lemma {:induction false} SumCongruent<T>(s: seq<T>, f: T -> real, g: T -> real)
    requires forall i :: 0 <= i < |s| ==> f(s[i]) == g(s[i])
    ensures Sum(s, f) == Sum(s, g)
    decreases |s|
  {
    if s != [] {
      SumCongruent(s[..|s| - 1], f, g);
    }
  }

  /** Terms that are pointwise no larger give a sum that is no larger. */
  lemma {:induction false} SumMonotone<T>(s: seq<T>, f: T -> real, g: T -> real)
    requires forall i :: 0 <= i < |s| ==> f(s[i]) <= g(s[i])
    ensures Sum(s, f) <= Sum(s, g)
    decreases |s|
  {
    if s != [] {
      SumMonotone(s[..|s| - 1], f, g);
    }
  }

  /** Non-negative terms have a non-negative sum, and the sum is zero only when
      every term is. */
  lemma {:induction false} SumNonNegative<T>(s: seq<T>, f: T -> real)
    requires forall i :: 0 <= i < |s| ==> f(s[i]) >= 0.0
    ensures Sum(s, f) >= 0.0
    ensures Sum(s, f) == 0.0 <==> forall i :: 0 <= i < |s| ==> f(s[i]) == 0.0
    decreases |s|
  {
    if s != [] {
      var s' := s[..|s| - 1];
      SumNonNegative(s', f);
      if Sum(s, f) == 0.0 {
        forall i | 0 <= i < |s| ensures f(s[i]) == 0.0 {
          if i < |s'| { assert s[i] == s'[i]; }
        }
      } else if forall i :: 0 <= i < |s| ==> f(s[i]) == 0.0 {
        SumZero(s, f);
      }
    }
  }

  /** Removing the element at position j removes exactly its term. */
  lemma SumRemove<T>(s: seq<T>, j: nat, f: T -> real)
    requires j < |s|
    ensures Sum(s, f) == Sum(s[..j] + s[j + 1..], f) + f(s[j])
  {
    assert s == s[..j] + ([s[j]] + s[j + 1..]);
    SumAppend(s[..j], [s[j]] + s[j + 1..], f);
    SumCons(s[j], s[j + 1..], f);
    SumAppend(s[..j], s[j + 1..], f);
  }

  /** Taking out the element at position j takes exactly that element out of
      the multiset. */
  lemma MultisetRemove<T>(b: seq<T>, j: nat)
    requires j < |b|
    ensures multiset(b[..j] + b[j + 1..]) == multiset(b) - multiset{b[j]}
  {
    assert b == b[..j] + [b[j]] + b[j + 1..];
    assert multiset(b) == multiset(b[..j]) + multiset{b[j]} + multiset(b[j + 1..]);
  }

  /** The sum does not depend on the order of the elements: any rearrangement
      of the same multiset of elements has the same sum. */
  lemma {:induction false} SumPermutation<T>(a: seq<T>, b: seq<T>, f: T -> real)
    requires multiset(a) == multiset(b)
    ensures Sum(a, f) == Sum(b, f)
    decreases |a|
  {
    if a == [] {
      assert |b| == |multiset(b)| == 0;
    } else {
      var x := a[|a| - 1];
      var a' := a[..|a| - 1];
      assert x in multiset(b);
      var j :| 0 <= j < |b| && b[j] == x;
      var b' := b[..j] + b[j + 1..];
      MultisetRemove(a, |a| - 1);
      assert a[..|a| - 1] + a[|a|..] == a';
      MultisetRemove(b, j);
      SumPermutation(a', b', f);
      SumRemove(b, j, f);
    }
  }

  /** A term function that is pointwise the sum of two others has the sum of
      their sums. */
  lemma {:induction false} SumAdd<T>(s: seq<T>, f: T -> real, g: T -> real, h: T -> real)
    requires forall i :: 0 <= i < |s| ==> h(s[i]) == f(s[i]) + g(s[i])
    ensures Sum(s, h) == Sum(s, f) + Sum(s, g)
    decreases |s|
  {
    if s != [] {
      SumAdd(s[..|s| - 1], f, g, h);
    }
  }

  /** A constant factor can be taken out of a sum. */
  lemma {:induction false} SumScale<T>(s: seq<T>, c: real, f: T -> real, h: T -> real)
    requires forall i :: 0 <= i < |s| ==> h(s[i]) == c * f(s[i])
    ensures Sum(s, h) == c * Sum(s, f)
    decreases |s|
  {
    if s != [] {
      SumScale(s[..|s| - 1], c, f, h);
    }
  }

  /** A double sum may be taken in either order: summing over a the inner sums
      rows(x) = sum over b of F(x)(y) gives the same as summing over b the inner
      sums cols(y) = sum over a of G(y)(x), when F(x)(y) == G(y)(x). */
  lemma {:induction false} SumSwap<A, B>(a: seq<A>, b: seq<B>, rows: A -> real, cols: B -> real,
                                         F: A -> B -> real, G: B -> A -> real)
    requires forall i :: 0 <= i < |a| ==> rows(a[i]) == Sum(b, F(a[i]))
    requires forall j :: 0 <= j < |b| ==> cols(b[j]) == Sum(a, G(b[j]))
    requires forall i, j :: 0 <= i < |a| && 0 <= j < |b| ==> F(a[i])(b[j]) == G(b[j])(a[i])
    ensures Sum(a, rows) == Sum(b, cols)
    decreases |a|
  {
    if a == [] {
      SumZero(b, cols);
    } else {
      var a', z := a[..|a| - 1], a[|a| - 1];
      var cols' := y => Sum(a', G(y));
      forall j | 0 <= j < |b| ensures cols(b[j]) == cols'(b[j]) + F(z)(b[j]) {
        assert a[..|a| - 1] == a';
      }
      SumSwap(a', b, rows, cols', F, G);
      SumAdd(b, cols', F(z), cols);
    }
  }

  /** Sums over two sequences of the same length agree when their terms agree
      position by position. */
  lemma {:induction false} SumReindex<T, U>(s: seq<T>, t: seq<U>, f: T -> real, g: U -> real)
    requires |s| == |t|
    requires forall i :: 0 <= i < |s| ==> f(s[i]) == g(t[i])
    ensures Sum(s, f) == Sum(t, g)
    decreases |s|
  {
    if s != [] {
      SumReindex(s[..|s| - 1], t[..|t| - 1], f, g);
    }
  }

  /** The concatenation of a sequence of sequences, in order. */
  function Flatten<T>(ss: seq<seq<T>>): seq<T>
    decreases |ss|
  {
    if ss == [] then [] else Flatten(ss[..|ss| - 1]) + ss[|ss| - 1]
  }

  /** Summing part by part and then adding the partial sums gives the sum over
      the whole concatenation. */
  lemma {:induction false} SumFlatten<T>(ss: seq<seq<T>>, f: T -> real, g: seq<T> -> real)
    requires forall i :: 0 <= i < |ss| ==> g(ss[i]) == Sum(ss[i], f)
    ensures Sum(Flatten(ss), f) == Sum(ss, g)
    decreases |ss|
  {
    if ss != [] {
      SumFlatten(ss[..|ss| - 1], f, g);
      SumAppend(Flatten(ss[..|ss| - 1]), ss[|ss| - 1], f);
    }
  }

  /** The indices 0, 1, ..., n - 1 in increasing order. */
  function Range(n: nat): (r: seq<nat>)
    ensures |r| == n && forall i :: 0 <= i < n ==> r[i] == i
  {
    seq(n, i => i)
  }
}
