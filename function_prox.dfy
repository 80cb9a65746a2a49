/** Loss functions, a regularizer and their proximal operators on local dense
    matrices. A matrix of height m and width n is its column-major buffer of
    m * n entries, entry (i, j) at position i + j * m. Inputs are passed as
    the contents of their buffers; outputs are written into an array.

    Each prox operator writes the minimiser of
      0.5 * ||Y - X||^2 + lambda * loss(Y)
    entry by entry, which the lemmas below prove of the closed forms the
    operators use. */
module FunctionProx {
  import opened Sums
  import opened IndexArith

  // ---------------------------------------------------------------------------
  // Buffers and sums over index ranges

  /** The position of entry (i, j) in the column-major buffer of an m x n
      matrix; it decodes back to row i and column j. */
  function Entry(m: nat, n: nat, i: nat, j: nat): (k: nat)
    requires i < m && j < n
    ensures k < m * n && k % m == i && k / m == j
  {
    RowMajorBound(j, i, n, m);
    DivModUnique(i + j * m, m, j, i);
    i + j * m
  }

  function Square(x: real): real
  {
    x * x
  }

  /** A weighted sum of two sums over the same sequence is the sum of the
      weighted terms. */
  lemma SumCombine<T>(s: seq<T>, a: real, f: T -> real, c: real, g: T -> real, h: T -> real)
    requires forall i :: 0 <= i < |s| ==> h(s[i]) == a * f(s[i]) + c * g(s[i])
    ensures Sum(s, h) == a * Sum(s, f) + c * Sum(s, g)
  {
    var af: T -> real := e => a * f(e);
    var cg: T -> real := e => c * g(e);
    SumScale(s, a, f, af);
    SumScale(s, c, g, cg);
    SumAdd(s, af, cg, h);
  }

  lemma SquareNonNegative(x: real)
    ensures Square(x) >= 0.0
  {
  }

  lemma NegatedSquare(x: real)
    ensures Square(-x) == Square(x)
  {
  }

  lemma MulNonNegative(a: real, b: real)
    requires a >= 0.0 && b >= 0.0
    ensures a * b >= 0.0
  {
  }

  // ---------------------------------------------------------------------------
  // Squared loss: 0.5 * ||O - T||^2

  /** The squared difference of entry k of two buffers. */
  function SqTerm(a: seq<real>, b: seq<real>, k: int): real
  {
    if 0 <= k < |a| && k < |b| then Square(a[k] - b[k]) else 0.0
  }

  /** 0.5 * ||O - T||^2 over the entries of O. */
  function SquaredLoss(o: seq<real>, t: seq<real>): real
  {
    0.5 * Sum(Range(|o|), k => SqTerm(o, t, k))
  }

  /** `squaredloss::evaluate`: accumulate the squared differences of all
      height * width entries and halve the sum. */
  method SquaredLossEvaluate(o: seq<real>, t: seq<real>, height: nat, width: nat) returns (loss: real)
    requires |o| == height * width && |t| == |o|
    ensures loss == SquaredLoss(o, t)
  {
    var acc := 0.0;
    var mn := height * width;
    for i := 0 to mn
      invariant acc == Sum(Range(i), k => SqTerm(o, t, k))
    {
      var x := o[i] - t[i];
      acc := acc + x * x;
      assert SqTerm(o, t, i) == x * x;
      assert Range(i + 1) == Range(i) + [i];
      SumSnoc(Range(i), i, k => SqTerm(o, t, k));
    }
    loss := 0.5 * acc;
  }

  /** The squared loss is never negative, and it is zero when the two buffers
      agree. */
  lemma SquaredLossNonNegative(o: seq<real>, t: seq<real>)
    requires |o| == |t|
    ensures SquaredLoss(o, t) >= 0.0
    ensures o == t ==> SquaredLoss(o, t) == 0.0
  {
    var r := Range(|o|);
    forall i | 0 <= i < |r| ensures SqTerm(o, t, r[i]) >= 0.0 {
      SquareNonNegative(o[i] - t[i]);
    }
    SumNonNegative(r, k => SqTerm(o, t, k));
    if o == t {
      forall i | 0 <= i < |r| ensures SqTerm(o, t, r[i]) == 0.0 {
        assert Square(o[i] - t[i]) == 0.0 * 0.0;
      }
    }
  }

  /** The closed form of the squared-loss prox at one entry. */
  function SquaredProxValue(x: real, t: real, lam: real): real
    requires lam != -1.0
  {
    (x + lam * t) / (1.0 + lam)
  }

  /** The squared-loss prox of a whole buffer. */
  function SquaredProxVec(x: seq<real>, t: seq<real>, lam: real): (y: seq<real>)
    requires |t| == |x| && lam != -1.0
    ensures |y| == |x| && forall i :: 0 <= i < |x| ==> y[i] == SquaredProxValue(x[i], t[i], lam)
  {
    seq(|x|, i requires 0 <= i < |x| => SquaredProxValue(x[i], t[i], lam))
  }

  /** The prox objective 0.5 (y - x)^2 + 0.5 lambda (y - t)^2 at one entry. */
  function SquaredProxObjective(x: real, t: real, lam: real, y: real): real
  {
    0.5 * Square(y - x) + 0.5 * lam * Square(y - t)
  }

  /** For lambda > -1 the closed form minimises the entry's prox objective:
      every other value is worse by 0.5 (1 + lambda) (y - p)^2. */
  lemma SquaredProxOptimal(x: real, t: real, lam: real, y: real)
    requires lam > -1.0
    ensures SquaredProxObjective(x, t, lam, SquaredProxValue(x, t, lam)) <= SquaredProxObjective(x, t, lam, y)
  {
    var p := SquaredProxValue(x, t, lam);
    var a := 1.0 + lam;
    assert p * a == x + lam * t;
    var c := 0.5 * (x * x) + 0.5 * lam * (t * t);
    assert SquaredProxObjective(x, t, lam, y) == 0.5 * a * (y * y) - (x + lam * t) * y + c;
    assert SquaredProxObjective(x, t, lam, p) == 0.5 * a * (p * p) - (x + lam * t) * p + c;
    assert SquaredProxObjective(x, t, lam, y) - SquaredProxObjective(x, t, lam, p)
        == 0.5 * a * Square(y - p);
    SquareNonNegative(y - p);
    MulNonNegative(0.5 * a, Square(y - p));
  }

  /** `squaredloss::proxoperator`: every entry of Y becomes
      (X + lambda * T) / (1 + lambda). */
  method SquaredLossProx(x: seq<real>, lam: real, t: seq<real>, y: array<real>, height: nat, width: nat)
    requires |x| == height * width && |t| == |x| && y.Length == |x|
    requires lam != -1.0
    modifies y
    ensures y[..] == SquaredProxVec(x, t, lam)
  {
    var mn := height * width;
    var ilambda := 1.0 / (1.0 + lam);
    for i := 0 to mn
      invariant forall k :: 0 <= k < i ==> y[k] == SquaredProxValue(x[k], t[k], lam)
    {
      y[i] := ilambda * (x[i] + lam * t[i]);
    }
  }

  /** The squared prox objective of entry k of buffer y. */
  function SquaredProxTerm(x: seq<real>, t: seq<real>, lam: real, y: seq<real>, k: int): real
  {
    if 0 <= k < |x| && k < |t| && k < |y| then SquaredProxObjective(x[k], t[k], lam, y[k]) else 0.0
  }

  /** The whole-buffer squared prox objective is the sum of the entry
      objectives. */
  lemma SeparableSquared(x: seq<real>, t: seq<real>, lam: real, y: seq<real>)
    requires |t| == |x| && |y| == |x|
    ensures SquaredLoss(y, x) + lam * SquaredLoss(y, t) == Sum(Range(|x|), k => SquaredProxTerm(x, t, lam, y, k))
  {
    var r := Range(|x|);
    SquaredProxSums(x, t, lam, y);
    HalfSquaredLoss(y, t);
    CombineWeighted(SquaredLoss(y, x), SquaredLoss(y, t), lam, Sum(r, k => SqTerm(y, x, k)),
      Sum(r, k => HalfSqTerm(y, t, k)), Sum(r, k => SquaredProxTerm(x, t, lam, y, k)));
  }

  /** Half the squared difference of entry k of two buffers. */
  function HalfSqTerm(a: seq<real>, b: seq<real>, k: int): real
  {
    0.5 * SqTerm(a, b, k)
  }

  /** The squared loss sums the halved squared differences. */
  lemma HalfSquaredLoss(o: seq<real>, t: seq<real>)
    ensures SquaredLoss(o, t) == Sum(Range(|o|), k => HalfSqTerm(o, t, k))
  {
    SumScale(Range(|o|), 0.5, k => SqTerm(o, t, k), k => HalfSqTerm(o, t, k));
  }

  /** The sum of the entry objectives splits into the two sums of squared
      terms. */
  lemma SquaredProxSums(x: seq<real>, t: seq<real>, lam: real, y: seq<real>)
    requires |t| == |x| && |y| == |x|
    ensures Sum(Range(|x|), k => SquaredProxTerm(x, t, lam, y, k))
         == 0.5 * Sum(Range(|x|), k => SqTerm(y, x, k)) + lam * Sum(Range(|x|), k => HalfSqTerm(y, t, k))
  {
    var r := Range(|x|);
    forall i | 0 <= i < |r|
      ensures SquaredProxTerm(x, t, lam, y, r[i]) == 0.5 * SqTerm(y, x, r[i]) + lam * HalfSqTerm(y, t, r[i])
    {
      assert r[i] == i;
    }
    SumCombine(r, 0.5, k => SqTerm(y, x, k), lam, k => HalfSqTerm(y, t, k), k => SquaredProxTerm(x, t, lam, y, k));
  }

  lemma CombineWeighted(lx: real, lt: real, lam: real, sx: real, ht: real, total: real)
    requires lx == 0.5 * sx && lt == ht && total == 0.5 * sx + lam * ht
    ensures lx + lam * lt == total
  {
  }

  /** The squared-loss prox of a buffer minimises
      0.5 ||Y - X||^2 + lambda * 0.5 ||Y - T||^2 over all buffers Y. */
  lemma SquaredProxMinimizes(x: seq<real>, t: seq<real>, lam: real, z: seq<real>)
    requires |t| == |x| && |z| == |x| && lam > -1.0
    ensures SquaredLoss(SquaredProxVec(x, t, lam), x) + lam * SquaredLoss(SquaredProxVec(x, t, lam), t)
         <= SquaredLoss(z, x) + lam * SquaredLoss(z, t)
  {
    var p := SquaredProxVec(x, t, lam);
    var r := Range(|x|);
    SeparableSquared(x, t, lam, p);
    SeparableSquared(x, t, lam, z);
    forall i | 0 <= i < |r|
      ensures SquaredProxTerm(x, t, lam, p, r[i]) <= SquaredProxTerm(x, t, lam, z, r[i])
    {
      SquaredProxOptimal(x[i], t[i], lam, z[i]);
    }
    SumMonotone(r, k => SquaredProxTerm(x, t, lam, p, k), k => SquaredProxTerm(x, t, lam, z, k));
  }

  // ---------------------------------------------------------------------------
  // Hinge loss

  /** max(0, 1 - o * t): the hinge term of output o against sign t. */
  function HingeTerm(o: real, t: real): real
  {
    if o * t < 1.0 then 1.0 - o * t else 0.0
  }

  /** C's conversion of a double to int: truncation toward zero. */
  function TruncateToInt(x: real): int
  {
    if x >= 0.0 then x.Floor else -((-x).Floor)
  }

  /** The sign of column j against a label: +1 on the label column, -1 off it. */
  function LabelSign(j: int, lbl: int): real
  {
    if j == lbl then 1.0 else -1.0
  }

  /** The hinge term of entry k of a single-output buffer. */
  function SingleTerm(o: seq<real>, t: seq<real>, k: int): real
  {
    if 0 <= k < |o| && k < |t| then HingeTerm(o[k], t[k]) else 0.0
  }

  /** The hinge term of entry (i, j) of an m x n multi-output buffer, against
      the sign of column j for the label of row i. */
  function MultiTerm(o: seq<real>, t: seq<real>, m: nat, n: nat, i: int, j: int): real
  {
    if 0 <= i < m && 0 <= j < n && |o| == m * n && |t| == m
    then HingeTerm(o[Entry(m, n, i, j)], LabelSign(j, TruncateToInt(t[i])))
    else 0.0
  }

  /** The hinge terms of row i of a multi-output buffer. */
  function MultiRow(o: seq<real>, t: seq<real>, m: nat, n: nat, i: int): real
  {
    Sum(Range(n), j => MultiTerm(o, t, m, n, i, j))
  }

  /** The hinge loss of m x n outputs O against the targets T: with one output
      the sum of max(0, 1 - O[i] T[i]); with several, row i against the label
      T[i] truncated to an integer, column j with sign +1 on the label column
      and -1 elsewhere; with none, zero. */
  function HingeLoss(o: seq<real>, t: seq<real>, m: nat, n: nat): real
  {
    if n == 1 then Sum(Range(m), k => SingleTerm(o, t, k))
    else if n > 1 then Sum(Range(m), i => MultiRow(o, t, m, n, i))
    else 0.0
  }

  /** `hingeloss::evaluate`: one loop over the rows for a single output, two
      nested loops over rows and columns for several. */
  method HingeLossEvaluate(o: seq<real>, t: seq<real>, m: nat, n: nat) returns (obj: real)
    requires |o| == m * n && |t| == m
    ensures obj == HingeLoss(o, t, m, n)
  {
    obj := 0.0;
    var noutputs := n;
    if noutputs == 1 {
      for i := 0 to m
        invariant obj == Sum(Range(i), k => SingleTerm(o, t, k))
      {
        var yx := o[i] * t[i];
        if yx < 1.0 {
          obj := obj + (1.0 - yx);
        }
        assert Range(i + 1) == Range(i) + [i];
        SumSnoc(Range(i), i, k => SingleTerm(o, t, k));
      }
    }
    if noutputs > 1 {
      for i := 0 to m
        invariant obj == Sum(Range(i), k => MultiRow(o, t, m, n, k))
      {
        obj := AccumulateRow(o, t, m, n, i, obj);
        assert Range(i + 1) == Range(i) + [i];
        SumSnoc(Range(i), i, k => MultiRow(o, t, m, n, k));
      }
    }
  }

  /** The inner loop of the multi-output `hingeloss::evaluate`: add the hinge
      terms of row i, column by column, to the running objective. */
  method AccumulateRow(o: seq<real>, t: seq<real>, m: nat, n: nat, i: nat, start: real) returns (obj: real)
    requires i < m && |o| == m * n && |t| == m
    ensures obj == start + MultiRow(o, t, m, n, i)
  {
    var lbl := TruncateToInt(t[i]);
    obj := start;
    for j := 0 to n
      invariant obj == start + Sum(Range(j), l => MultiTerm(o, t, m, n, i, l))
    {
      var yx := o[Entry(m, n, i, j)] * (if j == lbl then 1.0 else -1.0);
      if yx < 1.0 {
        obj := obj + (1.0 - yx);
      }
      assert Range(j + 1) == Range(j) + [j];
      SumSnoc(Range(j), j, l => MultiTerm(o, t, m, n, i, l));
    }
  }

  /** The hinge loss is never negative; with one output it is zero exactly
      when every margin O[i] T[i] is at least one. */
  lemma HingeLossSingleZero(o: seq<real>, t: seq<real>, m: nat)
    requires |o| == m && |t| == m
    ensures HingeLoss(o, t, m, 1) >= 0.0
    ensures HingeLoss(o, t, m, 1) == 0.0 <==> forall i :: 0 <= i < m ==> o[i] * t[i] >= 1.0
  {
    var r := Range(m);
    SumNonNegative(r, k => SingleTerm(o, t, k));
    if forall i :: 0 <= i < m ==> o[i] * t[i] >= 1.0 {
      forall i | 0 <= i < |r| ensures SingleTerm(o, t, r[i]) == 0.0 {
      }
    }
    if HingeLoss(o, t, m, 1) == 0.0 {
      forall i | 0 <= i < m ensures o[i] * t[i] >= 1.0 {
        assert SingleTerm(o, t, r[i]) == 0.0;
      }
    }
  }

  /** One row of the multi-output hinge loss is never negative, and it is zero
      exactly when every signed margin of the row is at least one. */
  lemma HingeRowZero(o: seq<real>, t: seq<real>, m: nat, n: nat, i: nat)
    requires i < m && |o| == m * n && |t| == m
    ensures MultiRow(o, t, m, n, i) >= 0.0
    ensures MultiRow(o, t, m, n, i) == 0.0 <==>
      forall j :: 0 <= j < n ==> o[Entry(m, n, i, j)] * LabelSign(j, TruncateToInt(t[i])) >= 1.0
  {
    var cols := Range(n);
    SumNonNegative(cols, l => MultiTerm(o, t, m, n, i, l));
    if MultiRow(o, t, m, n, i) == 0.0 {
      forall j | 0 <= j < n ensures o[Entry(m, n, i, j)] * LabelSign(j, TruncateToInt(t[i])) >= 1.0 {
        assert MultiTerm(o, t, m, n, i, cols[j]) == 0.0;
      }
    }
    if forall j :: 0 <= j < n ==> o[Entry(m, n, i, j)] * LabelSign(j, TruncateToInt(t[i])) >= 1.0 {
      forall j | 0 <= j < |cols| ensures MultiTerm(o, t, m, n, i, cols[j]) == 0.0 {
      }
    }
  }

  /** With several outputs the hinge loss is never negative, and it is zero
      exactly when every signed margin O[i, j] * sign(j, label of row i) is at
      least one. */
  lemma HingeLossMultiZero(o: seq<real>, t: seq<real>, m: nat, n: nat)
    requires n > 1 && |o| == m * n && |t| == m
    ensures HingeLoss(o, t, m, n) >= 0.0
    ensures HingeLoss(o, t, m, n) == 0.0 <==>
      forall i, j :: 0 <= i < m && 0 <= j < n ==> o[Entry(m, n, i, j)] * LabelSign(j, TruncateToInt(t[i])) >= 1.0
  {
    var rows := Range(m);
    forall i | 0 <= i < |rows| ensures MultiRow(o, t, m, n, rows[i]) >= 0.0 {
      HingeRowZero(o, t, m, n, i);
    }
    SumNonNegative(rows, k => MultiRow(o, t, m, n, k));
    if HingeLoss(o, t, m, n) == 0.0 {
      forall i, j | 0 <= i < m && 0 <= j < n
        ensures o[Entry(m, n, i, j)] * LabelSign(j, TruncateToInt(t[i])) >= 1.0
      {
        assert MultiRow(o, t, m, n, rows[i]) == 0.0;
        HingeRowZero(o, t, m, n, i);
      }
    }
    if forall i, j :: 0 <= i < m && 0 <= j < n ==> o[Entry(m, n, i, j)] * LabelSign(j, TruncateToInt(t[i])) >= 1.0 {
      forall i | 0 <= i < |rows| ensures MultiRow(o, t, m, n, rows[i]) == 0.0 {
        HingeRowZero(o, t, m, n, i);
      }
    }
  }

  /** The closed form of the hinge prox at one entry with sign t: with
      yv = t * x, keep x when yv > 1, move by lambda * t when yv < 1 - lambda,
      and land on t otherwise. */
  function HingeProxValue(x: real, t: real, lam: real): real
  {
    var yv := t * x;
    if yv > 1.0 then x
    else if yv < 1.0 - lam then x + lam * t
    else t
  }

  /** The hinge prox objective 0.5 (y - x)^2 + lambda * max(0, 1 - t y). */
  function HingeProxObjective(x: real, t: real, lam: real, y: real): real
  {
    0.5 * Square(y - x) + lam * HingeTerm(y, t)
  }

  /** The margin form of the hinge prox objective:
      0.5 (u - v)^2 + lambda * max(0, 1 - u). */
  function MarginObjective(v: real, lam: real, u: real): real
  {
    0.5 * Square(u - v) + lam * HingeTerm(u, 1.0)
  }

  /** Above the margin (v > 1) the unmoved point has objective zero. */
  lemma MarginAbove(v: real, lam: real, u: real)
    requires lam >= 0.0 && v > 1.0
    ensures MarginObjective(v, lam, v) <= MarginObjective(v, lam, u)
  {
    SquareNonNegative(u - v);
    MulNonNegative(lam, HingeTerm(u, 1.0));
  }

  /** Far below the margin (v < 1 - lambda) the point v + lambda is best. */
  lemma MarginBelow(v: real, lam: real, u: real)
    requires lam >= 0.0 && v < 1.0 - lam
    ensures MarginObjective(v, lam, v + lam) <= MarginObjective(v, lam, u)
  {
    var d := u - v - lam;
    SquareNonNegative(d);
    assert MarginObjective(v, lam, v + lam) == 0.5 * (lam * lam) + lam * (1.0 - v - lam);
    assert 0.5 * Square(u - v) == 0.5 * Square(d) + lam * (u - v) - 0.5 * (lam * lam);
    if u >= 1.0 {
      MulNonNegative(lam, u - 1.0);
    }
  }

  /** Near the margin (1 - lambda <= v <= 1) the point 1 is best. */
  lemma MarginBetween(v: real, lam: real, u: real)
    requires lam >= 0.0 && 1.0 - lam <= v <= 1.0
    ensures MarginObjective(v, lam, 1.0) <= MarginObjective(v, lam, u)
  {
    assert MarginObjective(v, lam, 1.0) == 0.5 * Square(1.0 - v);
    if u < 1.0 {
      var b := (lam - (1.0 - v)) + 0.5 * (1.0 - u);
      assert MarginObjective(v, lam, u) - MarginObjective(v, lam, 1.0) == (1.0 - u) * b;
      MulNonNegative(1.0 - u, b);
    } else {
      assert MarginObjective(v, lam, u) - MarginObjective(v, lam, 1.0) == 0.5 * ((u - 1.0) * (u + 1.0 - 2.0 * v));
      MulNonNegative(u - 1.0, u + 1.0 - 2.0 * v);
    }
  }

  /** For a sign t of +1 or -1 and lambda >= 0 the closed form minimises the
      entry's hinge prox objective. */
  lemma HingeProxOptimal(x: real, t: real, lam: real, y: real)
    requires t == 1.0 || t == -1.0
    requires lam >= 0.0
    ensures HingeProxObjective(x, t, lam, HingeProxValue(x, t, lam)) <= HingeProxObjective(x, t, lam, y)
  {
    var p := HingeProxValue(x, t, lam);
    var v, u, w := t * x, t * y, t * p;
    assert t * t == 1.0;
    if t == -1.0 {
      assert u - v == -(y - x) && w - v == -(p - x);
      NegatedSquare(y - x);
      NegatedSquare(p - x);
    }
    assert HingeProxObjective(x, t, lam, y) == MarginObjective(v, lam, u);
    assert HingeProxObjective(x, t, lam, p) == MarginObjective(v, lam, w);
    if v > 1.0 {
      assert w == v;
      MarginAbove(v, lam, u);
    } else if v < 1.0 - lam {
      assert w == v + lam by {
        assert t * (x + lam * t) == t * x + lam * (t * t);
      }
      MarginBelow(v, lam, u);
    } else {
      assert w == 1.0;
      MarginBetween(v, lam, u);
    }
  }

  /** The single-output hinge prox of a buffer. */
  function HingeProxVec(x: seq<real>, t: seq<real>, lam: real): (y: seq<real>)
    requires |t| == |x|
    ensures |y| == |x| && forall i :: 0 <= i < |x| ==> y[i] == HingeProxValue(x[i], t[i], lam)
  {
    seq(|x|, i requires 0 <= i < |x| => HingeProxValue(x[i], t[i], lam))
  }

  /** `hingeloss::proxoperator`: with one output, entry i gets the hinge prox
      against T[i]; with several, entry (i, j) gets the hinge prox against +1
      on the label column of row i and -1 elsewhere; with none, nothing is
      written. */
  method HingeLossProx(x: seq<real>, lam: real, t: seq<real>, y: array<real>, m: nat, n: nat)
    requires |x| == m * n && |t| == m && y.Length == m * n
    modifies y
    ensures n == 1 ==> y[..] == HingeProxVec(x, t, lam)
    ensures n > 1 ==> forall i, j :: 0 <= i < m && 0 <= j < n ==>
      y[Entry(m, n, i, j)] == HingeProxValue(x[Entry(m, n, i, j)], LabelSign(j, TruncateToInt(t[i])), lam)
    ensures n == 0 ==> y[..] == old(y[..])
  {
    var noutputs := n;
    if noutputs == 1 {
      for i := 0 to m
        invariant forall k :: 0 <= k < i ==> y[k] == HingeProxValue(x[k], t[k], lam)
      {
        var yv := t[i] * x[i];
        if yv > 1.0 {
          y[i] := x[i];
        } else {
          if yv < 1.0 - lam {
            y[i] := x[i] + lam * t[i];
          } else {
            y[i] := t[i];
          }
        }
      }
    }
    if noutputs > 1 {
      for i := 0 to m
        invariant forall i', j :: 0 <= i' < i && 0 <= j < n ==>
          y[Entry(m, n, i', j)] == HingeProxValue(x[Entry(m, n, i', j)], LabelSign(j, TruncateToInt(t[i'])), lam)
      {
        ProxRow(x, lam, t, y, m, n, i);
      }
    }
  }

  /** Row i of the multi-output `hingeloss::proxoperator`: each column j of the
      row gets the hinge prox with margin X[i, j] on the label column and
      -X[i, j] off it; entries of the other rows keep their values. */
  method ProxRow(x: seq<real>, lam: real, t: seq<real>, y: array<real>, m: nat, n: nat, i: nat)
    requires i < m && |x| == m * n && |t| == m && y.Length == m * n
    modifies y
    ensures forall j :: 0 <= j < n ==>
      y[Entry(m, n, i, j)] == HingeProxValue(x[Entry(m, n, i, j)], LabelSign(j, TruncateToInt(t[i])), lam)
    ensures forall k :: 0 <= k < y.Length && k % m != i ==> y[k] == old(y[k])
  {
    var lbl := TruncateToInt(t[i]);
    for j := 0 to n
      invariant forall j' :: 0 <= j' < j ==>
        y[Entry(m, n, i, j')] == HingeProxValue(x[Entry(m, n, i, j')], LabelSign(j', lbl), lam)
      invariant forall k :: 0 <= k < y.Length && k % m != i ==> y[k] == old(y[k])
    {
      var pos := Entry(m, n, i, j);
      var yv := x[pos];
      var yy := 1.0;
      if j != lbl {
        yv := -yv;
        yy := -1.0;
      }
      if yv > 1.0 {
        y[pos] := x[pos];
      } else {
        if yv < 1.0 - lam {
          y[pos] := x[pos] + lam * yy;
        } else {
          y[pos] := yy;
        }
      }
    }
  }

  /** The single-output hinge prox objective of entry k of buffer y. */
  function HingeProxTerm(x: seq<real>, t: seq<real>, lam: real, y: seq<real>, k: int): real
  {
    if 0 <= k < |x| && k < |t| && k < |y| then HingeProxObjective(x[k], t[k], lam, y[k]) else 0.0
  }

  /** The whole-buffer single-output hinge prox objective is the sum of the
      entry objectives. */
  lemma SeparableHinge(x: seq<real>, t: seq<real>, lam: real, y: seq<real>)
    requires |t| == |x| && |y| == |x|
    ensures SquaredLoss(y, x) + lam * HingeLoss(y, t, |x|, 1) == Sum(Range(|x|), k => HingeProxTerm(x, t, lam, y, k))
  {
    var r := Range(|x|);
    forall i | 0 <= i < |r|
      ensures HingeProxTerm(x, t, lam, y, r[i]) == 0.5 * SqTerm(y, x, r[i]) + lam * SingleTerm(y, t, r[i])
    {
      assert r[i] == i;
    }
    SumCombine(r, 0.5, k => SqTerm(y, x, k), lam, k => SingleTerm(y, t, k), k => HingeProxTerm(x, t, lam, y, k));
  }

  /** The single-output hinge prox of a buffer minimises
      0.5 ||Y - X||^2 + lambda * hinge(Y, T) over all buffers Y, for targets
      of +1 and -1 and lambda >= 0. */
  lemma HingeProxMinimizes(x: seq<real>, t: seq<real>, lam: real, z: seq<real>)
    requires |t| == |x| && |z| == |x| && lam >= 0.0
    requires forall i :: 0 <= i < |t| ==> t[i] == 1.0 || t[i] == -1.0
    ensures SquaredLoss(HingeProxVec(x, t, lam), x) + lam * HingeLoss(HingeProxVec(x, t, lam), t, |x|, 1)
         <= SquaredLoss(z, x) + lam * HingeLoss(z, t, |x|, 1)
  {
    var p := HingeProxVec(x, t, lam);
    var r := Range(|x|);
    SeparableHinge(x, t, lam, p);
    SeparableHinge(x, t, lam, z);
    forall i | 0 <= i < |r|
      ensures HingeProxTerm(x, t, lam, p, r[i]) <= HingeProxTerm(x, t, lam, z, r[i])
    {
      HingeProxOptimal(x[i], t[i], lam, z[i]);
    }
    SumMonotone(r, k => HingeProxTerm(x, t, lam, p, k), k => HingeProxTerm(x, t, lam, z, k));
  }

  // ---------------------------------------------------------------------------
  // l2 regularizer: 0.5 * ||W||^2

  /** The closed form of the l2 prox at one entry. */
  function L2ProxValue(w: real, mu: real, lam: real): real
    requires lam != -1.0
  {
    (w - mu) / (1.0 + lam)
  }

  /** The l2 prox of a whole buffer. */
  function L2ProxVec(w: seq<real>, mu: seq<real>, lam: real): (p: seq<real>)
    requires |mu| == |w| && lam != -1.0
    ensures |p| == |w| && forall i :: 0 <= i < |w| ==> p[i] == L2ProxValue(w[i], mu[i], lam)
  {
    seq(|w|, i requires 0 <= i < |w| => L2ProxValue(w[i], mu[i], lam))
  }

  /** `l2::proxoperator`: every entry of P becomes (W - mu) / (1 + lambda). */
  method L2Prox(w: seq<real>, lam: real, mu: seq<real>, p: array<real>, height: nat, width: nat)
    requires |w| == height * width && |mu| == |w| && p.Length == |w|
    requires lam != -1.0
    modifies p
    ensures p[..] == L2ProxVec(w, mu, lam)
  {
    var mn := height * width;
    var ilambda := 1.0 / (1.0 + lam);
    for i := 0 to mn
      invariant forall k :: 0 <= k < i ==> p[k] == L2ProxValue(w[k], mu[k], lam)
    {
      p[i] := (w[i] - mu[i]) * ilambda;
    }
  }

  /** The entrywise difference W - mu. */
  function Shifted(w: seq<real>, mu: seq<real>): (d: seq<real>)
    requires |mu| == |w|
    ensures |d| == |w| && forall i :: 0 <= i < |w| ==> d[i] == w[i] - mu[i]
  {
    seq(|w|, i requires 0 <= i < |w| => w[i] - mu[i])
  }

  /** The all-zero buffer of n entries. */
  function Zeros(n: nat): (z: seq<real>)
    ensures |z| == n && forall i :: 0 <= i < n ==> z[i] == 0.0
  {
    seq(n, _ => 0.0)
  }

  /** The l2 prox is the squared-loss prox of W - mu against zero, and so for
      lambda > -1 it minimises 0.5 ||P - (W - mu)||^2 + lambda * 0.5 ||P||^2
      over all buffers P. */
  lemma L2ProxMinimizes(w: seq<real>, mu: seq<real>, lam: real, z: seq<real>)
    requires |mu| == |w| && |z| == |w| && lam > -1.0
    ensures L2ProxVec(w, mu, lam) == SquaredProxVec(Shifted(w, mu), Zeros(|w|), lam)
    ensures SquaredLoss(L2ProxVec(w, mu, lam), Shifted(w, mu)) + lam * SquaredLoss(L2ProxVec(w, mu, lam), Zeros(|w|))
         <= SquaredLoss(z, Shifted(w, mu)) + lam * SquaredLoss(z, Zeros(|w|))
  {
    var d, o := Shifted(w, mu), Zeros(|w|);
    assert L2ProxVec(w, mu, lam) == SquaredProxVec(d, o, lam);
    SquaredProxMinimizes(d, o, lam, z);
  }
}
