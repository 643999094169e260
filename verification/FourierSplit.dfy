/** Splitting a cyclic convolution of length `n1 n2` into `n1` convolutions of length `n2`: transforms of the columns,
    twisted so that every row becomes cyclic again. */
module FourierSplit {
  import opened Arith
  import opened Powers
  import opened Modular
  import opened Fourier
  import opened Ntt

  // ---------- polynomials by columns ----------

  /** The columns of a matrix of `n1` rows of width `n2`, as polynomials, at `z`. */
  ghost function ColumnValues(v: seq<int>, n1: nat, n2: nat, z: int): (r: seq<int>)
    requires |v| == n2 * n1
    ensures |r| == n2
  {
    seq(n2, j requires 0 <= j < n2 => Eval(Column(v, n2, n1, j), z))
  }

  /** A polynomial is read by columns: at `x` it is the polynomial of the column values at `x^n2`. */
  lemma {:induction false} EvalByColumns(v: seq<int>, n1: nat, n2: nat, x: int)
    requires |v| == n2 * n1
    ensures Eval(v, x) == Eval(ColumnValues(v, n1, n2, Power(x, n2)), x)
    decreases n1
  {
    hide Eval, Power, ColumnValues;
    var z := Power(x, n2);
    if n1 == 0 {
      NoRows(v, n2, z);
      EvalZeros(n2, x);
      EmptyEval(x);
    } else {
      MulDist(n2, n1 - 1, 1);
      var row, rest := v[..n2], v[n2..];
      assert v == row + rest && |rest| == n2 * (n1 - 1);
      EvalByColumns(rest, n1 - 1, n2, x);
      EvalConcat(row, rest, x);
      var d := ColumnValues(rest, n1 - 1, n2, z);
      FirstRowValues(v, n1, n2, z);
      EvalPlus(row, Scale(d, z), x);
      EvalScale(d, z, x);
    }
  }

  lemma {:induction false} EmptyEval(x: int)
    ensures Eval([], x) == 0
  {
  }

  lemma {:induction false} NoRows(v: seq<int>, n2: nat, z: int)
    requires |v| == n2 * 0
    ensures v == [] && ColumnValues(v, 0, n2, z) == Zeros(n2)
  {
    assert n2 * 0 == 0;
    forall j | 0 <= j < n2 ensures ColumnValues(v, 0, n2, z)[j] == 0 { assert Column(v, n2, 0, j) == []; }
  }

  lemma {:induction false} FirstRowValues(v: seq<int>, n1: nat, n2: nat, z: int)
    requires n1 >= 1 && |v| == n2 * n1 && n2 <= |v| && |v[n2..]| == n2 * (n1 - 1)
    ensures ColumnValues(v, n1, n2, z) == Plus(v[..n2], Scale(ColumnValues(v[n2..], n1 - 1, n2, z), z))
  {
    hide Eval, Column;
    var c, d := ColumnValues(v, n1, n2, z), ColumnValues(v[n2..], n1 - 1, n2, z);
    forall j | 0 <= j < n2 ensures c[j] == v[..n2][j] + d[j] * z { ColumnHead(v, n1, n2, j, z); }
  }

  lemma {:induction false} ColumnHead(v: seq<int>, n1: nat, n2: nat, j: nat, z: int)
    requires n1 >= 1 && |v| == n2 * n1 && j < n2 && n2 <= |v| && |v[n2..]| == n2 * (n1 - 1)
    ensures Eval(Column(v, n2, n1, j), z) == v[j] + z * Eval(Column(v[n2..], n2, n1 - 1, j), z)
  {
    var c, d := Column(v, n2, n1, j), Column(v[n2..], n2, n1 - 1, j);
    ColumnAt(v, n2, n1, j, 0);
    assert At(n2, 0, j) == j;
    forall i | 0 <= i < n1 - 1
      ensures c[1..][i] == d[i]
    {
      ColumnAt(v, n2, n1, j, i + 1);
      ColumnAt(v[n2..], n2, n1 - 1, j, i);
      assert At(n2, i + 1, j) == n2 + At(n2, i, j);
    }
    assert c[1..] == d;
  }

  /** Row `i` of the split: the column values at `w^(n2 i)`, twisted by `w^i`. */
  ghost function RowPoly(v: seq<int>, n1: nat, n2: nat, w: int, i: nat): (r: seq<int>)
    requires |v| == n2 * n1
    ensures |r| == n2
  {
    Twist(ColumnValues(v, n1, n2, Power(w, n2 * i)), Power(w, i))
  }

  lemma {:induction false} RowPolyAt(v: seq<int>, n1: nat, n2: nat, w: int, i: nat, j: nat)
    requires |v| == n2 * n1 && j < n2
    ensures RowPoly(v, n1, n2, w, i)[j] == Eval(Column(v, n2, n1, j), Power(w, n2 * i)) * Power(Power(w, i), j)
  {
  }

  /** The rows hold the values of the polynomial at all powers of the root. */
  lemma {:induction false} RowEval(v: seq<int>, k1: nat, k2: nat, w: int, i: nat, s: nat, m: int)
    requires m > 0 && |v| == Pow2(k2) * Pow2(k1) && RootAt(w, k1 + k2, m)
    ensures var n1, n2 := Pow2(k1), Pow2(k2);
            Cong(Eval(RowPoly(v, n1, n2, w, i), Power(w, n1 * s)), Eval(v, Power(w, i + n1 * s)), m)
  {
    hide Pow2, Cong, RootAt, Eval, Power;
    var n1, n2 := Pow2(k1), Pow2(k2);
    var x, y, z := Power(w, i + n1 * s), Power(w, n1 * s), Power(w, n2 * i);
    EvalByColumns(v, n1, n2, x);
    PowerAdd(w, i, n1 * s);
    var c, d := ColumnValues(v, n1, n2, Power(x, n2)), ColumnValues(v, n1, n2, z);
    EvalTwist(d, Power(w, i), y);
    FullTurns(w, k1, k2, i, s, m);
    ColumnValuesCong(v, n1, n2, Power(x, n2), z, m);
    CongRefl(x, m);
    EvalCong(c, d, x, x, m);
    CongSym(Eval(v, x), Eval(d, x), m);
  }

  lemma {:induction false} ColumnValuesCong(v: seq<int>, n1: nat, n2: nat, y: int, z: int, m: int)
    requires m > 0 && |v| == n2 * n1 && Cong(y, z, m)
    ensures CongSeq(ColumnValues(v, n1, n2, y), ColumnValues(v, n1, n2, z), m)
  {
    hide Cong, Eval;
    forall j | 0 <= j < n2
      ensures Cong(ColumnValues(v, n1, n2, y)[j], ColumnValues(v, n1, n2, z)[j], m)
    {
      CongSeqRefl(Column(v, n2, n1, j), m);
      EvalCong(Column(v, n2, n1, j), Column(v, n2, n1, j), y, z, m);
    }
  }

  lemma {:induction false} FullTurns(w: int, k1: nat, k2: nat, i: nat, s: nat, m: int)
    requires m > 0 && RootAt(w, k1 + k2, m)
    ensures Cong(Power(Power(w, i + Pow2(k1) * s), Pow2(k2)), Power(w, Pow2(k2) * i), m)
  {
    hide Pow2, Cong, RootAt, Power;
    var n1, n2 := Pow2(k1), Pow2(k2);
    Pow2Add(k1, k2);
    PowerPower(w, i + n1 * s, n2);
    var a, b := n2 * i, (n1 * n2) * s;
    assert (i + n1 * s) * n2 == a + b;
    PowerAdd(w, a, b);
    PowerPower(w, n1 * n2, s);
    RootFull(w, k1 + k2, m);
    CongPower(Power(w, n1 * n2), 1, s, m);
    PowerOne(s);
    CongRefl(Power(w, a), m);
    CongMul(Power(w, a), Power(w, a), Power(w, b), 1, m);
  }

  // ---------- convolving the rows ----------

  /** At points whose `n`-th power is one, the cyclic convolution is the product. */
  lemma {:induction false} CyclicEval(a: seq<int>, b: seq<int>, x: int, m: int)
    requires m > 0 && |a| == |b| && Cong(Power(x, |a|), 1, m)
    ensures Cong(Eval(Cyclic(a, b), x), Eval(a, x) * Eval(b, x), m)
  {
    EvalProduct(a, b, x);
    FoldHalf(Product(a, b), |a|, x, 1, m);
    CongSym(Eval(a, x) * Eval(b, x), Eval(Cyclic(a, b), x), m);
  }

  /** Polynomials with the same values at all powers of the root have the same coefficients. */
  lemma {:induction false} SameValues(a: seq<int>, b: seq<int>, w: int, v: int, k: nat, norm: int, m: int)
    requires m > 0 && |a| == |b| == Pow2(k) && RootAt(w, k, m) && Cong(w * v, 1, m) && Cong(norm * Pow2(k), 1, m)
    requires forall s :: 0 <= s < Pow2(k) ==> Cong(Eval(a, Power(w, s)), Eval(b, Power(w, s)), m)
    ensures CongSeq(a, b, m)
  {
    hide Pow2, Cong, RootAt, Eval, Power;
    var xs := seq(|a|, s requires 0 <= s < |a| => Eval(a, Power(w, s)));
    forall s | 0 <= s < |a| ensures Cong(xs[s], Eval(a, Power(w, s)), m) { CongRefl(xs[s], m); }
    forall j | 0 <= j < |a|
      ensures Cong(a[j], b[j], m)
    {
      Inversion(xs, a, w, v, k, j, m);
      Inversion(xs, b, w, v, k, j, m);
      SameMultiple(a[j], b[j], Eval(xs, Power(v, j)), Pow2(k), norm, m);
    }
  }

  lemma {:induction false} SameMultiple(a: int, b: int, e: int, n: int, norm: int, m: int)
    requires m > 0 && Cong(e, n * a, m) && Cong(e, n * b, m) && Cong(norm * n, 1, m)
    ensures Cong(a, b, m)
  {
    hide Cong;
    Cancelled(a, e, n, norm, m);
    Cancelled(b, e, n, norm, m);
    CongSym(norm * e, a, m);
    CongTrans(a, norm * e, b, m);
  }

  lemma {:induction false} Cancelled(a: int, e: int, n: int, norm: int, m: int)
    requires m > 0 && Cong(e, n * a, m) && Cong(norm * n, 1, m)
    ensures Cong(norm * e, a, m)
  {
    hide Cong;
    CongRefl(norm, m);
    CongMul(norm, norm, e, n * a, m);
    CongRefl(a, m);
    CongMul(norm * n, 1, a, a, m);
    MulAssoc(norm, n, a);
    CongTrans(norm * e, norm * (n * a), a, m);
  }

  /** The convolutions of the rows are the rows of the convolution. */
  lemma {:induction false} RowsConvolve(a: seq<int>, b: seq<int>, k1: nat, k2: nat, w: int, v: int, norm: int, i: nat,
                                        m: int)
    requires m > 0 && |a| == |b| == Pow2(k2) * Pow2(k1) && RootAt(w, k1 + k2, m) && i < Pow2(k1)
    requires RootAt(Power(w, Pow2(k1)), k2, m) && Cong(Power(w, Pow2(k1)) * v, 1, m) && Cong(norm * Pow2(k2), 1, m)
    ensures var n1, n2 := Pow2(k1), Pow2(k2);
            CongSeq(Cyclic(RowPoly(a, n1, n2, w, i), RowPoly(b, n1, n2, w, i)), RowPoly(Cyclic(a, b), n1, n2, w, i), m)
  {
    hide Pow2, Cong, RootAt, Eval, Power, Cyclic, RowPoly;
    var n1, n2 := Pow2(k1), Pow2(k2);
    var x, y, z := RowPoly(a, n1, n2, w, i), RowPoly(b, n1, n2, w, i), RowPoly(Cyclic(a, b), n1, n2, w, i);
    var w2 := Power(w, n1);
    forall s | 0 <= s < n2
      ensures Cong(Eval(Cyclic(x, y), Power(w2, s)), Eval(z, Power(w2, s)), m)
    {
      RowValue(a, b, k1, k2, w, i, s, m);
    }
    SameValues(Cyclic(x, y), z, w2, v, k2, norm, m);
  }

  lemma {:induction false} RowValue(a: seq<int>, b: seq<int>, k1: nat, k2: nat, w: int, i: nat, s: nat, m: int)
    requires m > 0 && |a| == |b| == Pow2(k2) * Pow2(k1) && RootAt(w, k1 + k2, m) && RootAt(Power(w, Pow2(k1)), k2, m)
    ensures var n1, n2 := Pow2(k1), Pow2(k2); var t := Power(Power(w, n1), s);
            Cong(Eval(Cyclic(RowPoly(a, n1, n2, w, i), RowPoly(b, n1, n2, w, i)), t),
                 Eval(RowPoly(Cyclic(a, b), n1, n2, w, i), t), m)
  {
    hide Pow2, Cong, RootAt, Eval, Power, Cyclic, RowPoly;
    var n1, n2 := Pow2(k1), Pow2(k2);
    var c, t, p := Cyclic(a, b), Power(Power(w, n1), s), Power(w, i + n1 * s);
    var x, y, z := RowPoly(a, n1, n2, w, i), RowPoly(b, n1, n2, w, i), RowPoly(c, n1, n2, w, i);
    PowerPower(w, n1, s);
    RowEval(a, k1, k2, w, i, s, m);
    RowEval(b, k1, k2, w, i, s, m);
    RowEval(c, k1, k2, w, i, s, m);
    UnitPower(Power(w, n1), k2, s, m);
    CyclicEval(x, y, t, m);
    UnitPower(w, k1 + k2, i + n1 * s, m);
    Pow2Add(k2, k1);
    assert k2 + k1 == k1 + k2;
    CyclicEval(a, b, p, m);
    CongMul(Eval(x, t), Eval(a, p), Eval(y, t), Eval(b, p), m);
    CongTrans(Eval(Cyclic(x, y), t), Eval(x, t) * Eval(y, t), Eval(a, p) * Eval(b, p), m);
    CongSym(Eval(c, p), Eval(a, p) * Eval(b, p), m);
    CongTrans(Eval(Cyclic(x, y), t), Eval(a, p) * Eval(b, p), Eval(c, p), m);
    CongSym(Eval(z, t), Eval(c, p), m);
    CongTrans(Eval(Cyclic(x, y), t), Eval(c, p), Eval(z, t), m);
  }
}
