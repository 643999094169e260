/** Long convolutions: transforms of columns, shorter convolutions of rows, transforms of columns back. */
module NttSplit {
  import opened Arith
  import opened Limbs
  import opened Powers
  import opened Modular
  import opened Fourier
  import opened NttWords
  import opened Ntt
  import opened NttTables
  import opened FourierSplit

  // ---------- twisting ----------

  /** Multiplies element `i` by `c^i`. */
  method MulTrig(buf: array<Limb>, c: Limb, m: Limb, mInv: Limb)
    requires IsModInverse(m, mInv) && c < m && Lazy(buf[..], m)
    modifies buf
    ensures Lazy(buf[..], m) && CongSeq(buf[..], Twist(old(buf[..]), c), m)
  {
    hide Cong, MulModFast, MulModFast2, IsFactor, InitMulModFast2;
    ghost var x := buf[..];
    var c0: Limb, cInv := 1, InitMulModFast2(c, m);
    StartPower(c, m);
    for i := 0 to buf.Length
      invariant c0 < m && Cong(c0, Power(c, i), m)
      invariant forall q :: i <= q < buf.Length ==> buf[q] == x[q]
      invariant forall q :: 0 <= q < i ==> buf[q] < 2 * m && Cong(buf[q], x[q] * Power(c, q), m)
    {
      ProductFits(c0, buf[i], m);
      assert c0 as nat * buf[i] == buf[i] as nat * c0;
      var y := MulModFast(buf[i], c0, m, mInv);
      TwistedWord(y, x[i], c0, Power(c, i), m);
      buf[i] := y;
      var c1 := MulModFast2(c0, c, m, cInv);
      NextTwist(c1, c0, c, i, m);
      c0 := c1;
    }
  }

  lemma {:induction false} TwistedWord(y: int, x: int, c: int, p: int, m: int)
    requires m > 0 && Cong(y, x * c, m) && Cong(c, p, m)
    ensures Cong(y, x * p, m)
  {
    hide Cong;
    CongRefl(x, m);
    CongMul(x, x, c, p, m);
    CongTrans(y, x * c, x * p, m);
  }

  lemma {:induction false} NextTwist(c1: int, c0: int, c: int, i: nat, m: int)
    requires m > 0 && Cong(c1, c0 * c, m) && Cong(c0, Power(c, i), m)
    ensures Cong(c1, Power(c, i + 1), m)
  {
    hide Cong;
    CongRefl(c, m);
    CongMul(c0, Power(c, i), c, c, m);
    CongTrans(c1, c0 * c, Power(c, i) * c, m);
    assert Power(c, i + 1) == c * Power(c, i);
    assert c * Power(c, i) == Power(c, i) * c;
  }

  // ---------- columns ----------

  lemma {:induction false} AtInjective(f: nat, i: nat, j: nat, i': nat, j': nat)
    requires j < f && j' < f && At(f, i, j) == At(f, i', j')
    ensures i == i' && j == j'
  {
    if i < i' { MulMono(f, i + 1, i'); MulDist(f, i, 1); }
    if i' < i { MulMono(f, i' + 1, i); MulDist(f, i', 1); }
  }

  method ReadColumn(buf: array<Limb>, n1: nat, n2: nat, j: nat) returns (col: array<Limb>)
    requires buf.Length == n2 * n1 && j < n2
    ensures fresh(col) && col[..] == Column(buf[..], n2, n1, j)
  {
    hide At;
    col := new Limb[n1];
    for i := 0 to n1
      invariant forall q :: 0 <= q < i ==> col[q] == Column(buf[..], n2, n1, j)[q]
    {
      ColumnAt(buf[..], n2, n1, j, i);
      col[i] := buf[At(n2, i, j)];
    }
  }

  /** Everything is as before but the first `r` elements of column `j`. */
  ghost predicate ColumnWritten(s: seq<int>, t: seq<int>, n1: nat, n2: nat, j: nat, col: seq<int>, r: nat)
    requires |s| == |t| == n2 * n1 && |col| == n1
  {
    forall i, q :: 0 <= i < n1 && 0 <= q < n2 ==> WrittenAt(s, t, n1, n2, j, col, r, i, q)
  }

  ghost predicate WrittenAt(s: seq<int>, t: seq<int>, n1: nat, n2: nat, j: nat, col: seq<int>, r: nat, i: nat, q: nat)
    requires |s| == |t| == n2 * n1 && |col| == n1 && i < n1 && q < n2
  {
    AtBounds(n2, n1, i, q);
    t[At(n2, i, q)] == if q == j && i < r then col[i] else s[At(n2, i, q)]
  }

  lemma {:induction false} WriteNext(s: seq<int>, t: seq<int>, t': seq<int>, n1: nat, n2: nat, j: nat, col: seq<int>,
                                     r: nat)
    requires |s| == |t| == n2 * n1 && |col| == n1 && r < n1 && j < n2 && ColumnWritten(s, t, n1, n2, j, col, r)
    requires At(n2, r, j) < |t| && t' == t[At(n2, r, j) := col[r]]
    ensures ColumnWritten(s, t', n1, n2, j, col, r + 1)
  {
    hide At;
    var r' := r + 1;
    forall i, q | 0 <= i < n1 && 0 <= q < n2
      ensures WrittenAt(s, t', n1, n2, j, col, r', i, q)
    {
      assert WrittenAt(s, t, n1, n2, j, col, r, i, q);
      AtBounds(n2, n1, i, q);
      if At(n2, i, q) == At(n2, r, j) { AtInjective(n2, i, q, r, j); }
    }
  }

  lemma {:induction false} NothingWritten(s: seq<int>, n1: nat, n2: nat, j: nat, col: seq<int>)
    requires |s| == n2 * n1 && |col| == n1
    ensures ColumnWritten(s, s, n1, n2, j, col, 0)
  {
    forall i, q | 0 <= i < n1 && 0 <= q < n2 ensures WrittenAt(s, s, n1, n2, j, col, 0, i, q) { }
  }

  lemma {:induction false} AllWritten(s: seq<int>, t: seq<int>, n1: nat, n2: nat, j: nat, col: seq<int>)
    requires |s| == |t| == n2 * n1 && |col| == n1 && j < n2 && ColumnWritten(s, t, n1, n2, j, col, n1)
    ensures Column(t, n2, n1, j) == col && forall q :: 0 <= q < n2 && q != j
                                                       ==> Column(t, n2, n1, q) == Column(s, n2, n1, q)
  {
    hide At;
    forall i | 0 <= i < n1
      ensures Column(t, n2, n1, j)[i] == col[i]
    {
      ColumnAt(t, n2, n1, j, i);
      assert WrittenAt(s, t, n1, n2, j, col, n1, i, j);
    }
    forall q | 0 <= q < n2 && q != j
      ensures Column(t, n2, n1, q) == Column(s, n2, n1, q)
    {
      forall i | 0 <= i < n1
        ensures Column(t, n2, n1, q)[i] == Column(s, n2, n1, q)[i]
      {
        ColumnAt(t, n2, n1, q, i);
        ColumnAt(s, n2, n1, q, i);
        assert WrittenAt(s, t, n1, n2, j, col, n1, i, q);
      }
    }
  }

  method WriteColumn(buf: array<Limb>, n1: nat, n2: nat, j: nat, col: array<Limb>, ghost m: nat)
    requires buf.Length == n2 * n1 && j < n2 && col.Length == n1 && col != buf && Lazy(buf[..], m) && Lazy(col[..], m)
    modifies buf
    ensures Lazy(buf[..], m) && Column(buf[..], n2, n1, j) == col[..]
    ensures forall q :: 0 <= q < n2 && q != j ==> Column(buf[..], n2, n1, q) == Column(old(buf[..]), n2, n1, q)
  {
    hide At, ColumnWritten, Column;
    ghost var s, c := buf[..], col[..];
    NothingWritten(s, n1, n2, j, c);
    for i := 0 to n1
      invariant Lazy(buf[..], m) && ColumnWritten(s, buf[..], n1, n2, j, c, i)
    {
      AtBounds(n2, n1, i, j);
      ghost var t := buf[..];
      buf[At(n2, i, j)] := col[i];
      WriteNext(s, t, buf[..], n1, n2, j, c, i);
    }
    AllWritten(s, buf[..], n1, n2, j, c);
  }

  // ---------- transforming the columns ----------

  /** What a transform of columns makes of one: transformed and twisted, or, on the way back, twisted and
      transformed. */
  ghost predicate IsTurned(x: seq<int>, y: seq<int>, root: int, c: int, inverse: bool, m: int)
    requires m > 0
  {
    && |x| == |y|
    && forall i :: 0 <= i < |x|
                   ==> if inverse then Cong(y[i], Eval(Twist(x, c), Power(root, i)), m)
                       else Cong(y[i], Eval(x, Power(root, i)) * Power(c, i), m)
  }

  method TurnColumn(col: array<Limb>, k1: nat, roots: seq<Limb>, rootsInv: seq<Limb>, c: Limb, inverse: bool, m: Limb,
                    mInv: Limb)
    requires IsModInverse(m, mInv) && col.Length == Pow2(k1) && IsRootTable(roots, rootsInv, k1, m) && c < m
             && Lazy(col[..], m)
    modifies col
    ensures Lazy(col[..], m) && IsTurned(old(col[..]), col[..], roots[k1], c, inverse, m)
  {
    hide Cong, Lazy, IsTransform, IsFactor, RootAt, Pow2;
    ghost var x := col[..];
    var tmp := new Limb[col.Length];
    if inverse { MulTrig(col, c, m, mInv); }
    ghost var y := col[..];
    NttFft(col, tmp, k1, roots, rootsInv, m);
    ghost var z := col[..];
    if !inverse { MulTrig(col, c, m, mInv); }
    Turned(x, y, z, col[..], roots[k1], c, inverse, m);
  }

  lemma {:induction false} Turned(x: seq<int>, y: seq<int>, z: seq<int>, r: seq<int>, root: int, c: int, inverse: bool,
                                  m: int)
    requires m > 0 && (if inverse then CongSeq(y, Twist(x, c), m) && r == z else y == x && CongSeq(r, Twist(z, c), m))
    requires IsTransform(z, y, root, m)
    ensures IsTurned(x, r, root, c, inverse, m)
  {
    hide Cong, Eval, Power;
    forall i | 0 <= i < |x|
      ensures if inverse then Cong(r[i], Eval(Twist(x, c), Power(root, i)), m)
              else Cong(r[i], Eval(x, Power(root, i)) * Power(c, i), m)
    {
      var t := Power(root, i);
      CongRefl(t, m);
      if inverse {
        EvalCong(y, Twist(x, c), t, t, m);
        CongTrans(r[i], Eval(y, t), Eval(Twist(x, c), t), m);
      } else {
        CongRefl(Power(c, i), m);
        CongMul(z[i], Eval(x, t), Power(c, i), Power(c, i), m);
        CongTrans(r[i], z[i] * Power(c, i), Eval(x, t) * Power(c, i), m);
      }
    }
  }

  /** A factor known up to congruence. */
  lemma {:induction false} TurnedBy(x: seq<int>, y: seq<int>, root: int, c: int, d: int, inverse: bool, m: int)
    requires m > 0 && IsTurned(x, y, root, c, inverse, m) && Cong(c, d, m)
    ensures IsTurned(x, y, root, d, inverse, m)
  {
    hide Cong, Eval, Power;
    forall i | 0 <= i < |x|
      ensures if inverse then Cong(y[i], Eval(Twist(x, d), Power(root, i)), m)
              else Cong(y[i], Eval(x, Power(root, i)) * Power(d, i), m)
    {
      var t := Power(root, i);
      if inverse {
        TwistCong(x, c, d, m);
        CongRefl(t, m);
        EvalCong(Twist(x, c), Twist(x, d), t, t, m);
        CongTrans(y[i], Eval(Twist(x, c), t), Eval(Twist(x, d), t), m);
      } else {
        CongPower(c, d, i, m);
        CongRefl(Eval(x, t), m);
        CongMul(Eval(x, t), Eval(x, t), Power(c, i), Power(d, i), m);
        CongTrans(y[i], Eval(x, t) * Power(c, i), Eval(x, t) * Power(d, i), m);
      }
    }
  }

  lemma {:induction false} TwistCong(x: seq<int>, c: int, d: int, m: int)
    requires m > 0 && Cong(c, d, m)
    ensures CongSeq(Twist(x, c), Twist(x, d), m)
  {
    hide Cong, Power;
    forall i | 0 <= i < |x|
      ensures Cong(Twist(x, c)[i], Twist(x, d)[i], m)
    {
      CongPower(c, d, i, m);
      CongRefl(x[i], m);
      CongMul(x[i], x[i], Power(c, i), Power(d, i), m);
    }
  }

  /** Column `j` is turned by `c^j`. */
  ghost predicate ColumnTurned(s: seq<int>, t: seq<int>, n1: nat, n2: nat, root: int, c: int, inverse: bool, m: int,
                               j: nat)
    requires m > 0 && |s| == |t| == n2 * n1 && j < n2
  {
    IsTurned(Column(s, n2, n1, j), Column(t, n2, n1, j), root, Power(c, j), inverse, m)
  }

  ghost predicate AllTurned(s: seq<int>, t: seq<int>, k1: nat, k2: nat, root: int, c: int, inverse: bool, m: int) {
    && m > 0 && |s| == |t| == Pow2(k2) * Pow2(k1)
    && forall j :: 0 <= j < Pow2(k2) ==> ColumnTurned(s, t, Pow2(k1), Pow2(k2), root, c, inverse, m, j)
  }

  /** Transforms all columns of the matrix; `c` is the root of the whole length. */
  method PartialFft(buf: array<Limb>, k1: nat, k2: nat, roots: seq<Limb>, rootsInv: seq<Limb>, c: Limb, inverse: bool,
                    m: Limb, mInv: Limb)
    requires IsModInverse(m, mInv) && buf.Length == Pow2(k2) * Pow2(k1) && IsRootTable(roots, rootsInv, k1, m) && c < m
             && Lazy(buf[..], m)
    modifies buf
    ensures Lazy(buf[..], m)
    ensures AllTurned(old(buf[..]), buf[..], k1, k2, roots[k1], c, inverse, m)
  {
    hide Cong, Lazy, IsFactor, RootAt, Pow2, Column, IsTurned, Power, MulModFast, IsRootTable;
    var n1, n2 := Pow2(k1), Pow2(k2);
    ghost var s := buf[..];
    var cMul: Limb := 1;
    StartPower(c, m);
    TableReaches(roots, rootsInv, k1, m);
    for j := 0 to n2
      invariant Lazy(buf[..], m) && cMul < m && Cong(cMul, Power(c, j), m)
      invariant forall q :: 0 <= q < j ==> ColumnTurned(s, buf[..], n1, n2, roots[k1], c, inverse, m, q)
      invariant forall q :: j <= q < n2 ==> Column(buf[..], n2, n1, q) == Column(s, n2, n1, q)
    {
      var col := ReadColumn(buf, n1, n2, j);
      ghost var x, t := col[..], buf[..];
      ColumnLazy(t, x, n1, n2, j, m);
      TurnColumn(col, k1, roots, rootsInv, cMul, inverse, m, mInv);
      TurnedBy(x, col[..], roots[k1], cMul, Power(c, j), inverse, m);
      WriteColumn(buf, n1, n2, j, col, m);
      forall q | 0 <= q < j
        ensures ColumnTurned(s, buf[..], n1, n2, roots[k1], c, inverse, m, q)
      {
        assert ColumnTurned(s, t, n1, n2, roots[k1], c, inverse, m, q);
      }
      ProductFits(cMul, c, m);
      var c' := MulModFast(cMul, c, m, mInv);
      NextTwist(c', cMul, c, j, m);
      cMul := c';
    }
  }

  lemma {:induction false} TableReaches(roots: seq<Limb>, rootsInv: seq<Limb>, k: nat, m: nat)
    requires m > 0 && IsRootTable(roots, rootsInv, k, m)
    ensures k < |roots|
  {
  }

  lemma {:induction false} ColumnLazy(s: seq<Limb>, col: seq<Limb>, n1: nat, n2: nat, j: nat, m: nat)
    requires |s| == n2 * n1 && j < n2 && col == Column(s, n2, n1, j) && Lazy(s, m)
    ensures Lazy(col, m)
  {
    forall i | 0 <= i < n1 ensures col[i] < 2 * m { ColumnAt(s, n2, n1, j, i); }
  }

  // ---------- rows ----------

  ghost function Row(s: seq<int>, n1: nat, n2: nat, i: nat): (r: seq<int>)
    requires |s| == n2 * n1 && i < n1
    ensures |r| == n2
  {
    RowInside(n1, n2, i);
    s[n2 * i..n2 * i + n2]
  }

  lemma {:induction false} RowInside(n1: nat, n2: nat, i: nat)
    requires i < n1
    ensures 0 <= n2 * i && n2 * i + n2 <= n2 * n1
  {
    MulMono(n2, i + 1, n1);
    MulDist(n2, i, 1);
    MulMono(n2, 0, i);
  }

  lemma {:induction false} RowColumn(s: seq<int>, n1: nat, n2: nat, i: nat, j: nat)
    requires |s| == n2 * n1 && i < n1 && j < n2
    ensures Row(s, n1, n2, i)[j] == Column(s, n2, n1, j)[i] && At(n2, i, j) < |s|
            && s[At(n2, i, j)] == Row(s, n1, n2, i)[j]
  {
    RowInside(n1, n2, i);
    ColumnAt(s, n2, n1, j, i);
  }

  /** After the transforms of the columns, the rows are those of the split. */
  lemma {:induction false} RowsForward(v: seq<int>, x: seq<int>, k1: nat, k2: nat, w: int, w1: int, i: nat, m: int)
    requires m > 0 && |v| == |x| == Pow2(k2) * Pow2(k1) && i < Pow2(k1) && Cong(w1, Power(w, Pow2(k2)), m)
    requires AllTurned(v, x, k1, k2, w1, w, false, m)
    ensures CongSeq(Row(x, Pow2(k1), Pow2(k2), i), RowPoly(v, Pow2(k1), Pow2(k2), w, i), m)
  {
    hide Cong, Pow2, Eval, Power, RowPoly, Row, Column;
    var n1, n2 := Pow2(k1), Pow2(k2);
    forall j | 0 <= j < n2
      ensures Cong(Row(x, n1, n2, i)[j], RowPoly(v, n1, n2, w, i)[j], m)
    {
      assert ColumnTurned(v, x, n1, n2, w1, w, false, m, j);
      RowColumn(x, n1, n2, i, j);
      RowPolyAt(v, n1, n2, w, i, j);
      var c := Column(v, n2, n1, j);
      PointMoved(c, w, w1, n2, i, m);
      TwoPowers(w, i, j);
      CongRefl(Power(Power(w, j), i), m);
      CongMul(Eval(c, Power(w1, i)), Eval(c, Power(w, n2 * i)), Power(Power(w, j), i), Power(Power(w, j), i), m);
      CongTrans(Row(x, n1, n2, i)[j], Eval(c, Power(w1, i)) * Power(Power(w, j), i),
                Eval(c, Power(w, n2 * i)) * Power(Power(w, j), i), m);
    }
  }

  lemma {:induction false} PointMoved(c: seq<int>, w: int, w1: int, n2: nat, i: nat, m: int)
    requires m > 0 && Cong(w1, Power(w, n2), m)
    ensures Cong(Eval(c, Power(w1, i)), Eval(c, Power(w, n2 * i)), m)
  {
    hide Cong, Eval, Power;
    CongPower(w1, Power(w, n2), i, m);
    PowerPower(w, n2, i);
    CongSeqRefl(c, m);
    EvalCong(c, c, Power(w1, i), Power(w, n2 * i), m);
  }

  lemma {:induction false} TwoPowers(w: int, i: nat, j: nat)
    ensures Power(Power(w, j), i) == Power(Power(w, i), j)
  {
    hide Power;
    PowerPower(w, j, i);
    PowerPower(w, i, j);
    assert j * i == i * j;
  }

  /** Transforming back the columns of scaled rows of the split gives the polynomial, scaled and times the number of
      rows. */
  lemma {:induction false} RowsBackward(c: seq<int>, y: seq<int>, z: seq<int>, k1: nat, k2: nat, w: int, v: int,
                                        w1: int, v1: int, f: int, m: int)
    requires m > 0 && |c| == |y| == |z| == Pow2(k2) * Pow2(k1) && RootAt(w1, k1, m)
    requires Cong(w1, Power(w, Pow2(k2)), m) && Cong(w * v, 1, m) && Cong(w1 * v1, 1, m)
    requires forall i :: 0 <= i < Pow2(k1)
                         ==> CongSeq(Row(y, Pow2(k1), Pow2(k2), i), Scale(RowPoly(c, Pow2(k1), Pow2(k2), w, i), f), m)
    requires AllTurned(y, z, k1, k2, v1, v, true, m)
    ensures CongSeq(z, Scale(c, f * Pow2(k1)), m)
  {
    hide Cong, Pow2, Eval, Power, RowPoly, Row, Column, RootAt, At;
    var n1, n2 := Pow2(k1), Pow2(k2);
    forall q | 0 <= q < |z|
      ensures Cong(z[q], c[q] * (f * n1), m)
    {
      var t, j := q / n2, q % n2;
      Position(q, n1, n2);
      ColumnBack(c, y, z, k1, k2, w, v, w1, v1, f, t, j, m);
    }
  }

  lemma {:induction false} Position(q: nat, n1: nat, n2: nat)
    requires n2 > 0 && q < n2 * n1
    ensures 0 <= q / n2 < n1 && 0 <= q % n2 < n2 && At(n2, q / n2, q % n2) == q
  {
    var t := q / n2;
    assert q == n2 * t + q % n2;
    if t >= n1 { MulMono(n2, n1, t); }
  }

  lemma {:induction false} ColumnBack(c: seq<int>, y: seq<int>, z: seq<int>, k1: nat, k2: nat, w: int, v: int, w1: int,
                                      v1: int, f: int, t: nat, j: nat, m: int)
    requires m > 0 && |c| == |y| == |z| == Pow2(k2) * Pow2(k1) && RootAt(w1, k1, m) && t < Pow2(k1) && j < Pow2(k2)
    requires Cong(w1, Power(w, Pow2(k2)), m) && Cong(w * v, 1, m) && Cong(w1 * v1, 1, m)
    requires forall i :: 0 <= i < Pow2(k1)
                         ==> CongSeq(Row(y, Pow2(k1), Pow2(k2), i), Scale(RowPoly(c, Pow2(k1), Pow2(k2), w, i), f), m)
    requires ColumnTurned(y, z, Pow2(k1), Pow2(k2), v1, v, true, m, j)
    ensures At(Pow2(k2), t, j) < |z| && Cong(z[At(Pow2(k2), t, j)], c[At(Pow2(k2), t, j)] * (f * Pow2(k1)), m)
  {
    hide Cong, Pow2, Eval, Power, RowPoly, Row, Column, RootAt, At;
    var n1, n2 := Pow2(k1), Pow2(k2);
    var d, u := Column(c, n2, n1, j), Twist(Column(y, n2, n1, j), Power(v, j));
    var xs := seq(n1, i requires 0 <= i < n1 => Eval(d, Power(w1, i)));
    forall i | 0 <= i < n1 ensures Cong(xs[i], Eval(d, Power(w1, i)), m) { CongRefl(xs[i], m); }
    forall i | 0 <= i < n1
      ensures Cong(u[i], Scale(xs, f)[i], m)
    {
      Untwisted(c, y, k1, k2, w, v, w1, f, i, j, m);
    }
    Inversion(xs, d, w1, v1, k1, t, m);
    var p := Power(v1, t);
    CongRefl(p, m);
    EvalCong(u, Scale(xs, f), p, p, m);
    EvalScale(xs, f, p);
    RowColumn(z, n1, n2, t, j);
    RowColumn(c, n1, n2, t, j);
    BackValue(z[At(n2, t, j)], Eval(u, p), Eval(xs, p), d[t], f, n1, m);
  }

  lemma {:induction false} BackValue(z: int, e: int, x: int, d: int, f: int, n1: int, m: int)
    requires m > 0 && Cong(z, e, m) && Cong(e, f * x, m) && Cong(x, n1 * d, m)
    ensures Cong(z, d * (f * n1), m)
  {
    hide Cong;
    CongTrans(z, e, f * x, m);
    CongRefl(f, m);
    CongMul(f, f, x, n1 * d, m);
    CongTrans(z, f * x, f * (n1 * d), m);
    MulAssoc(f, n1, d);
  }

  /** On the way back the twist of a column undoes that of the rows. */
  lemma {:induction false} Untwisted(c: seq<int>, y: seq<int>, k1: nat, k2: nat, w: int, v: int, w1: int, f: int,
                                     i: nat, j: nat, m: int)
    requires m > 0 && |c| == |y| == Pow2(k2) * Pow2(k1) && i < Pow2(k1) && j < Pow2(k2)
    requires Cong(w1, Power(w, Pow2(k2)), m) && Cong(w * v, 1, m)
    requires CongSeq(Row(y, Pow2(k1), Pow2(k2), i), Scale(RowPoly(c, Pow2(k1), Pow2(k2), w, i), f), m)
    ensures var n1, n2 := Pow2(k1), Pow2(k2);
            Cong(Twist(Column(y, n2, n1, j), Power(v, j))[i], Eval(Column(c, n2, n1, j), Power(w1, i)) * f, m)
  {
    hide Cong, Pow2, Eval, Power, RowPoly, Row, Column;
    var n1, n2 := Pow2(k1), Pow2(k2);
    var d := Column(c, n2, n1, j);
    RowColumn(y, n1, n2, i, j);
    RowPolyAt(c, n1, n2, w, i, j);
    PointMoved(d, w, w1, n2, i, m);
    TwoPowers(w, i, j);
    TwoPowers(v, i, j);
    OppositeTwists(w, v, i, j, m);
    UntwistedValue(Row(y, n1, n2, i)[j], Eval(d, Power(w, n2 * i)), Eval(d, Power(w1, i)), Power(Power(w, i), j),
                   Power(Power(v, j), i), f, m);
  }

  lemma {:induction false} OppositeTwists(w: int, v: int, i: nat, j: nat, m: int)
    requires m > 0 && Cong(w * v, 1, m)
    ensures Cong(Power(Power(w, i), j) * Power(Power(v, j), i), 1, m)
  {
    hide Cong, Power;
    TwoPowers(v, i, j);
    PowerMul(Power(w, i), Power(v, i), j);
    PowerMul(w, v, i);
    CongPower(w * v, 1, i, m);
    PowerOne(i);
    CongPower(Power(w * v, i), 1, j, m);
    PowerOne(j);
  }

  lemma {:induction false} UntwistedValue(y: int, e: int, e1: int, a: int, b: int, f: int, m: int)
    requires m > 0 && Cong(y, (e * a) * f, m) && Cong(e1, e, m) && Cong(a * b, 1, m)
    ensures Cong(y * b, e1 * f, m)
  {
    hide Cong;
    CongRefl(b, m);
    CongMul(y, (e * a) * f, b, b, m);
    assert ((e * a) * f) * b == (a * b) * (e * f);
    CongRefl(e * f, m);
    CongMul(a * b, 1, e * f, e * f, m);
    CongTrans(y * b, (a * b) * (e * f), e * f, m);
    CongSym(e1, e, m);
    CongRefl(f, m);
    CongMul(e, e1, f, f, m);
    CongTrans(y * b, e * f, e1 * f, m);
  }

  // ---------- the convolution ----------

  /** The tables serve all lengths up to `2^total`. */
  ghost predicate ValidUpTo(p: Plan, total: nat) { forall l :: 1 <= l <= total ==> ValidPlan(p, l) }

  /** The root of a level is a power of the root of a higher one. */
  lemma {:induction false} RootDown(roots: seq<Limb>, rootsInv: seq<Limb>, k: nat, l: nat, m: nat)
    requires m > 0 && 1 <= l <= k && IsRootTable(roots, rootsInv, k, m)
    ensures Cong(roots[l], Power(roots[k], Pow2(k - l)), m)
    decreases k - l
  {
    hide Cong, IsFactor, RootAt;
    if l == k {
      assert Power(roots[k], 1) == roots[k] as int * Power(roots[k], 0);
      CongRefl(roots[k], m);
    } else {
      RootDown(roots, rootsInv, k, l + 1, m);
      var h := Pow2(k - l - 1);
      var x := Power(roots[k], h);
      PowerAdd(roots[k], h, h);
      CongMul(roots[l + 1], x, roots[l + 1], x, m);
      assert Cong(roots[l + 1 - 1], roots[l + 1] as int * roots[l + 1], m);
      CongTrans(roots[l], roots[l + 1] as int * roots[l + 1], x * x, m);
    }
  }

  method CopyRow(buf: array<Limb>, n1: nat, n2: nat, i: nat, ghost m: nat) returns (row: array<Limb>)
    requires buf.Length == n2 * n1 && i < n1 && Lazy(buf[..], m)
    ensures fresh(row) && row[..] == Row(buf[..], n1, n2, i) && Lazy(row[..], m)
  {
    RowInside(n1, n2, i);
    row := new Limb[n2];
    for j := 0 to n2
      invariant forall q :: 0 <= q < j ==> row[q] == buf[n2 * i + q]
    {
      row[j] := buf[n2 * i + j];
    }
  }

  method StoreRow(buf: array<Limb>, n1: nat, n2: nat, i: nat, row: array<Limb>, ghost m: nat)
    requires buf.Length == n2 * n1 && i < n1 && row.Length == n2 && row != buf && Lazy(buf[..], m) && Lazy(row[..], m)
    modifies buf
    ensures Lazy(buf[..], m) && Row(buf[..], n1, n2, i) == row[..]
    ensures forall q :: 0 <= q < n1 && q != i ==> Row(buf[..], n1, n2, q) == Row(old(buf[..]), n1, n2, q)
  {
    RowInside(n1, n2, i);
    ghost var s := buf[..];
    for j := 0 to n2
      invariant forall q :: 0 <= q < buf.Length ==> buf[q] == if n2 * i <= q < n2 * i + j then row[q - n2 * i] else s[q]
    {
      buf[n2 * i + j] := row[j];
    }
    forall q | 0 <= q < n1 && q != i
      ensures Row(buf[..], n1, n2, q) == Row(s, n1, n2, q)
    {
      RowInside(n1, n2, q);
      RowsApart(n2, i, q);
    }
  }

  lemma {:induction false} RowsApart(n2: nat, i: nat, q: nat)
    requires i != q
    ensures n2 * q + n2 <= n2 * i || n2 * i + n2 <= n2 * q
  {
    if q < i { MulMono(n2, q + 1, i); MulDist(n2, q, 1); } else { MulMono(n2, i + 1, q); MulDist(n2, i, 1); }
  }

  /** The cyclic convolution, for every length that the tables serve, times the length and the scaling factor of the
      whole. */
  method NttConv(buf1: array<Limb>, buf2: array<Limb>, k: nat, total: nat, p: Plan)
    requires 1 <= k <= total && ValidUpTo(p, total)
    requires buf1 != buf2 && buf1.Length == buf2.Length == Pow2(k) && Lazy(buf1[..], p.m) && Lazy(buf2[..], p.m)
    modifies buf1, buf2
    ensures total < |p.norms| && Lazy(buf1[..], p.m)
    ensures CongSeq(buf1[..], Scale(Cyclic(old(buf1[..]), old(buf2[..])), p.norms[total] * Pow2(k)), p.m)
    decreases k, 0
  {
    hide Cong, Lazy, ValidPlan, Cyclic, Pow2, AllTurned, AllConvolved, IsRootTable, RootAt, ValidUpTo;
    PlanFacts(p, k, total);
    if k <= NTT_TRIG_K_MAX {
      var tmp := new Limb[buf1.Length];
      NttConvLeaf(buf1, buf2, tmp, k, total, p);
    } else {
      var k1 := if k / 2 <= NTT_TRIG_K_MAX then k / 2 else NTT_TRIG_K_MAX;
      var k2 := k - k1;
      PlanFacts(p, k1, total);
      Pow2Add(k2, k1);
      ghost var a, b := buf1[..], buf2[..];
      PartialFft(buf1, k1, k2, p.roots, p.rootsInv, p.roots[k], false, p.m, p.mInv);
      PartialFft(buf2, k1, k2, p.roots, p.rootsInv, p.roots[k], false, p.m, p.mInv);
      ghost var x, y := buf1[..], buf2[..];
      ConvolveRows(buf1, buf2, k1, k2, total, p);
      ghost var u := buf1[..];
      PartialFft(buf1, k1, k2, p.backRoots, p.backRootsInv, p.backRoots[k], true, p.m, p.mInv);
      Split(a, b, x, y, u, buf1[..], k1, k2, total, p);
    }
  }

  /** Convolves the rows one by one. */
  method ConvolveRows(buf1: array<Limb>, buf2: array<Limb>, k1: nat, k2: nat, total: nat, p: Plan)
    requires 1 <= k1 && 1 <= k2 && k1 + k2 <= total && ValidUpTo(p, total)
    requires buf1 != buf2 && buf1.Length == buf2.Length == Pow2(k2) * Pow2(k1) && Lazy(buf1[..], p.m)
             && Lazy(buf2[..], p.m)
    modifies buf1
    ensures total < |p.norms| && Lazy(buf1[..], p.m)
    ensures AllConvolved(old(buf1[..]), buf2[..], buf1[..], k1, k2, p.norms[total] * Pow2(k2), p.m)
    decreases k2, 1
  {
    hide Cong, Lazy, ValidPlan, Cyclic, Pow2, Row;
    PlanFacts(p, k2, total);
    var n1, n2 := Pow2(k1), Pow2(k2);
    ghost var x, y, f := buf1[..], buf2[..], p.norms[total] * Pow2(k2);
    for i := 0 to n1
      invariant Lazy(buf1[..], p.m)
      invariant forall q :: 0 <= q < i ==> RowConvolved(x, y, buf1[..], k1, k2, f, p.m, q)
      invariant forall q :: i <= q < n1 ==> Row(buf1[..], n1, n2, q) == Row(x, n1, n2, q)
    {
      var row1 := CopyRow(buf1, n1, n2, i, p.m);
      var row2 := CopyRow(buf2, n1, n2, i, p.m);
      NttConv(row1, row2, k2, total, p);
      ghost var t := buf1[..];
      StoreRow(buf1, n1, n2, i, row1, p.m);
      forall q | 0 <= q < i
        ensures RowConvolved(x, y, buf1[..], k1, k2, f, p.m, q)
      {
        assert RowConvolved(x, y, t, k1, k2, f, p.m, q);
      }
    }
  }

  ghost predicate RowConvolved(x: seq<int>, y: seq<int>, u: seq<int>, k1: nat, k2: nat, f: int, m: int, i: nat)
    requires m > 0 && |x| == |y| == |u| == Pow2(k2) * Pow2(k1) && i < Pow2(k1)
  {
    var n1, n2 := Pow2(k1), Pow2(k2);
    CongSeq(Row(u, n1, n2, i), Scale(Cyclic(Row(x, n1, n2, i), Row(y, n1, n2, i)), f), m)
  }

  ghost predicate AllConvolved(x: seq<int>, y: seq<int>, u: seq<int>, k1: nat, k2: nat, f: int, m: int) {
    && m > 0 && |x| == |y| == |u| == Pow2(k2) * Pow2(k1)
    && forall i :: 0 <= i < Pow2(k1) ==> RowConvolved(x, y, u, k1, k2, f, m, i)
  }

  lemma {:induction false} PlanFacts(p: Plan, k: nat, total: nat)
    requires 1 <= k <= total && ValidUpTo(p, total)
    ensures ValidPlan(p, k) && ValidPlan(p, total) && IsModInverse(p.m, p.mInv) && p.m > 0
    ensures k < |p.roots| && k < |p.backRoots| && k < |p.norms| && total < |p.norms| && p.roots[k] < p.m
            && p.backRoots[k] < p.m
    ensures IsRootTable(p.roots, p.rootsInv, k, p.m) && IsRootTable(p.backRoots, p.backRootsInv, k, p.m)
    ensures RootAt(p.roots[k], k, p.m) && Cong(p.roots[k] as int * p.backRoots[k], 1, p.m)
            && Cong(p.norms[k] as int * Pow2(k), 1, p.m)
  {
    hide Cong, RootAt;
    assert ValidPlan(p, k) && ValidPlan(p, total);
  }

  /** Columns forward, rows convolved, columns back. */
  lemma {:induction false} Split(a: seq<int>, b: seq<int>, x: seq<int>, y: seq<int>, u: seq<int>, z: seq<int>, k1: nat,
                                 k2: nat, total: nat, p: Plan)
    requires 1 <= k1 && 1 <= k2 && k1 + k2 <= total && ValidUpTo(p, total) && total < |p.norms| && p.m > 0
    requires k1 < |p.roots| && k1 < |p.backRoots| && k1 + k2 < |p.roots| && k1 + k2 < |p.backRoots|
    requires |a| == |b| == |x| == |y| == |u| == |z| == Pow2(k2) * Pow2(k1) == Pow2(k1 + k2)
    requires AllTurned(a, x, k1, k2, p.roots[k1], p.roots[k1 + k2], false, p.m)
             && AllTurned(b, y, k1, k2, p.roots[k1], p.roots[k1 + k2], false, p.m)
    requires AllConvolved(x, y, u, k1, k2, p.norms[total] * Pow2(k2), p.m)
    requires AllTurned(u, z, k1, k2, p.backRoots[k1], p.backRoots[k1 + k2], true, p.m)
    ensures CongSeq(z, Scale(Cyclic(a, b), p.norms[total] * Pow2(k1 + k2)), p.m)
  {
    hide Cong, Pow2, RowPoly, Row, RootAt, Cyclic, ColumnTurned, ValidPlan, Power, IsRootTable;
    var k, m, n1, n2 := k1 + k2, p.m, Pow2(k1), Pow2(k2);
    PlanFacts(p, k, total);
    PlanFacts(p, k1, total);
    PlanFacts(p, k2, total);
    var w, f := p.roots[k], p.norms[total] * Pow2(k2);
    RootDown(p.roots, p.rootsInv, k, k1, m);
    RootDown(p.roots, p.rootsInv, k, k2, m);
    SecondRoot(p.roots[k2], Power(w, n1), p.backRoots[k2], k2, m);
    var c := Cyclic(a, b);
    forall i | 0 <= i < n1
      ensures CongSeq(Row(u, n1, n2, i), Scale(RowPoly(c, n1, n2, w, i), f), m)
    {
      RowsForward(a, x, k1, k2, w, p.roots[k1], i, m);
      RowsForward(b, y, k1, k2, w, p.roots[k1], i, m);
      assert RowConvolved(x, y, u, k1, k2, f, m, i);
      RowsConvolve(a, b, k1, k2, w, p.backRoots[k2], p.norms[k2], i, m);
      CyclicCong(Row(x, n1, n2, i), RowPoly(a, n1, n2, w, i), Row(y, n1, n2, i), RowPoly(b, n1, n2, w, i), m);
      var r := Cyclic(RowPoly(a, n1, n2, w, i), RowPoly(b, n1, n2, w, i));
      CongSeqTrans(Cyclic(Row(x, n1, n2, i), Row(y, n1, n2, i)), r, RowPoly(c, n1, n2, w, i), m);
      ScaleCong(Cyclic(Row(x, n1, n2, i), Row(y, n1, n2, i)), RowPoly(c, n1, n2, w, i), f, m);
      CongSeqTrans(Row(u, n1, n2, i), Scale(Cyclic(Row(x, n1, n2, i), Row(y, n1, n2, i)), f),
                   Scale(RowPoly(c, n1, n2, w, i), f), m);
    }
    RowsBackward(c, u, z, k1, k2, w, p.backRoots[k], p.roots[k1], p.backRoots[k1], f, m);
    assert f * n1 == p.norms[total] * Pow2(k) by { MulAssoc(p.norms[total], n2, n1); }
  }

  lemma {:induction false} SecondRoot(w2: int, x: int, v: int, k2: nat, m: int)
    requires m > 0 && k2 >= 1 && RootAt(w2, k2, m) && Cong(w2, x, m) && Cong(w2 * v, 1, m)
    ensures RootAt(x, k2, m) && Cong(x * v, 1, m)
  {
    hide Cong, RootAt;
    CongSym(w2, x, m);
    RootCong(w2, x, k2, m);
    CongRefl(v, m);
    CongMul(x, w2, v, v, m);
    CongTrans(x * v, w2 * v, 1, m);
  }

  lemma {:induction false} ScaleCong(a: seq<int>, b: seq<int>, f: int, m: int)
    requires m > 0 && CongSeq(a, b, m)
    ensures CongSeq(Scale(a, f), Scale(b, f), m)
  {
    hide Cong;
    forall i | 0 <= i < |a|
      ensures Cong(Scale(a, f)[i], Scale(b, f)[i], m)
    {
      CongRefl(f, m);
      CongMul(a[i], b[i], f, f, m);
    }
  }

  /** At the top the scaling factor cancels the length. */
  lemma {:induction false} Unscaled(r: seq<int>, c: seq<int>, f: int, m: int)
    requires m > 0 && CongSeq(r, Scale(c, f), m) && Cong(f, 1, m)
    ensures CongSeq(r, c, m)
  {
    hide Cong;
    forall i | 0 <= i < |r|
      ensures Cong(r[i], c[i], m)
    {
      CongRefl(c[i], m);
      CongMul(c[i], c[i], f, 1, m);
      CongTrans(r[i], c[i] * f, c[i], m);
    }
  }
}
