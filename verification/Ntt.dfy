/** The number theoretic transform as libbf computes it: a self-sorting transform over two buffers
    whose words are only reduced below `2 m`. */
module Ntt {
  import opened Arith
  import opened Limbs
  import opened Powers
  import opened Modular
  import opened Fourier
  import opened NttWords

  // ---------- the buffer as a matrix ----------

  /** Position of row `i`, column `j` in rows of width `f`. */
  function At(f: nat, i: nat, j: nat): (p: nat) { f * i + j }

  lemma {:induction false} AtBounds(f: nat, n: nat, i: nat, j: nat)
    requires i < n && j < f
    ensures At(f, i, j) < f * n
  {
    MulMono(f, i + 1, n);
    MulDist(f, i, 1);
  }

  /** Column `j` of a buffer of `n` rows of width `f`. */
  ghost function Column(s: seq<int>, f: nat, n: nat, j: nat): (c: seq<int>)
    requires |s| == f * n && j < f
    ensures |c| == n
  {
    seq(n, i requires 0 <= i < n => AtBounds(f, n, i, j); s[At(f, i, j)])
  }

  lemma {:induction false} ColumnAt(s: seq<int>, f: nat, n: nat, j: nat, i: nat)
    requires |s| == f * n && j < f && i < n
    ensures At(f, i, j) < |s| && Column(s, f, n, j)[i] == s[At(f, i, j)]
  {
    AtBounds(f, n, i, j);
  }

  /** Words of a lazily reduced buffer. */
  ghost predicate Lazy(s: seq<Limb>, m: nat) {
    forall i :: 0 <= i < |s| ==> s[i] < 2 * m
  }

  // ---------- one butterfly ----------

  function Butterfly(a0: Limb, a1: Limb, m: Limb, c: Limb, cInv: Limb): (r: (Limb, Limb))
    requires IsModulus(m) && a0 < 2 * m && a1 < 2 * m && IsFactor(c, m, cInv)
    ensures r.0 < 2 * m && r.1 < 2 * m
    ensures Cong(r.0, a0 as int + a1, m) && Cong(r.1, (a0 as int - a1) * c, m)
  {
    hide Cong, MulModFast3;
    var b0 := AddMod(a0, a1, 2 * m);
    var d: Limb := (a0 as int - a1 + 2 * m) % B;
    var b1 := MulModFast3(d, c, m, cInv);
    CongIntro(b0, a0 as int + a1, m, if b0 as int == a0 as int + a1 then 0 else -2);
    DifferenceCong(a0 as int - a1, c, m, b1);
    (b0, b1)
  }

  lemma {:induction false} DifferenceCong(d: int, c: int, m: int, b: int)
    requires m > 0 && Cong(b, (d + 2 * m) * c, m)
    ensures Cong(b, d * c, m)
  {
    assert (d + 2 * m) * c - d * c == (2 * c) * m;
    CongIntro((d + 2 * m) * c, d * c, m, 2 * c);
    CongTrans(b, (d + 2 * m) * c, d * c, m);
  }

  // ---------- one stage ----------

  /** What a stage leaves at row `i`, column `j`: sums on the left, twisted differences on the right. */
  ghost predicate ButterflyAt(x: seq<int>, y: seq<int>, f: nat, h: nat, root: int, m: int, i: nat, j: nat)
    requires m > 0 && |x| == f * (2 * h) && |y| == (2 * f) * h && i < h && j < f
  {
    AtBounds(f, 2 * h, i, j); AtBounds(f, 2 * h, i + h, j); AtBounds(2 * f, h, i, j); AtBounds(2 * f, h, i, f + j);
    && Cong(y[At(2 * f, i, j)], x[At(f, i, j)] + x[At(f, i + h, j)], m)
    && Cong(y[At(2 * f, i, f + j)], (x[At(f, i, j)] - x[At(f, i + h, j)]) * Power(root, i), m)
  }

  ghost predicate IsStage(x: seq<int>, y: seq<int>, f: nat, h: nat, root: int, m: int)
    requires m > 0
  {
    && |x| == f * (2 * h) && |y| == (2 * f) * h
    && forall i, j :: 0 <= i < h && 0 <= j < f ==> ButterflyAt(x, y, f, h, root, m, i, j)
  }

  /** A stage folds every column in two. */
  lemma {:induction false} StageColumns(x: seq<int>, y: seq<int>, f: nat, h: nat, root: int, m: int, j: nat)
    requires m > 0 && IsStage(x, y, f, h, root, m) && j < f
    ensures var c := Column(x, f, 2 * h, j);
            && CongSeq(Column(y, 2 * f, h, j), Plus(c[..h], c[h..]), m)
            && CongSeq(Column(y, 2 * f, h, f + j), Twist(Minus(c[..h], c[h..]), root), m)
  {
    hide Cong, At;
    var c := Column(x, f, 2 * h, j);
    forall i | 0 <= i < h
      ensures Cong(Column(y, 2 * f, h, j)[i], Plus(c[..h], c[h..])[i], m)
      ensures Cong(Column(y, 2 * f, h, f + j)[i], Twist(Minus(c[..h], c[h..]), root)[i], m)
    {
      assert ButterflyAt(x, y, f, h, root, m, i, j);
      ColumnAt(x, f, 2 * h, j, i);
      ColumnAt(x, f, 2 * h, j, i + h);
      ColumnAt(y, 2 * f, h, j, i);
      ColumnAt(y, 2 * f, h, f + j, i);
    }
  }

  /** Every column's transform, taken with the current root, lies where the final transform of `x0` will. */
  ghost predicate Columns(s: seq<int>, f: nat, n: nat, root: int, x0: seq<int>, w: int, m: int)
    requires m > 0
  {
    && |s| == f * n
    && forall j, t :: 0 <= j < f && 0 <= t < n ==> ColumnPoint(s, f, n, root, x0, w, m, j, t)
  }

  ghost predicate ColumnPoint(s: seq<int>, f: nat, n: nat, root: int, x0: seq<int>, w: int, m: int, j: nat, t: nat)
    requires m > 0 && |s| == f * n && j < f
  {
    Cong(Eval(Column(s, f, n, j), Power(root, t)), Eval(x0, Power(w, At(f, t, j))), m)
  }

  lemma {:induction false} ColumnsStart(s: seq<int>, x0: seq<int>, w: int, m: int)
    requires m > 0 && CongSeq(s, x0, m)
    ensures Columns(s, 1, |s|, w, x0, w, m)
  {
    forall j, t | 0 <= j < 1 && 0 <= t < |s|
      ensures ColumnPoint(s, 1, |s|, w, x0, w, m, j, t)
    {
      assert Column(s, 1, |s|, 0) == s;
      CongRefl(Power(w, t), m);
      EvalCong(s, x0, Power(w, t), Power(w, t), m);
    }
  }

  /** One stage doubles the width and squares the root. */
  lemma {:induction false} ColumnsStage(x: seq<int>, y: seq<int>, f: nat, k: nat, root: int, root': int, x0: seq<int>,
                                        w: int, m: int)
    requires m > 0 && k >= 1 && RootAt(root, k, m) && Cong(root', root * root, m)
    requires Columns(x, f, Pow2(k), root, x0, w, m) && IsStage(x, y, f, Pow2(k - 1), root, m)
    ensures Columns(y, 2 * f, Pow2(k - 1), root', x0, w, m)
  {
    hide Cong, At;
    var h := Pow2(k - 1);
    forall j', t | 0 <= j' < 2 * f && 0 <= t < h
      ensures ColumnPoint(y, 2 * f, h, root', x0, w, m, j', t)
    {
      if j' < f {
        LeftColumn(x, y, f, k, root, root', x0, w, m, j', t);
      } else {
        RightColumn(x, y, f, k, root, root', x0, w, m, j' - f, t);
      }
    }
  }

  lemma {:induction false} LeftColumn(x: seq<int>, y: seq<int>, f: nat, k: nat, root: int, root': int, x0: seq<int>,
                                      w: int, m: int, j: nat, t: nat)
    requires m > 0 && k >= 1 && RootAt(root, k, m) && Cong(root', root * root, m)
    requires Columns(x, f, Pow2(k), root, x0, w, m) && IsStage(x, y, f, Pow2(k - 1), root, m)
    requires j < f && t < Pow2(k - 1)
    ensures ColumnPoint(y, 2 * f, Pow2(k - 1), root', x0, w, m, j, t)
  {
    hide Cong;
    var h := Pow2(k - 1);
    var c, d := Column(x, f, 2 * h, j), Column(y, 2 * f, h, j);
    var p := Power(root * root, t);
    StageColumns(x, y, f, h, root, m, j);
    CongPower(root', root * root, t, m);
    EvalCong(d, Plus(c[..h], c[h..]), Power(root', t), p, m);
    EvenPoint(c, root, k, t, m);
    CongSym(Eval(c, Power(root, 2 * t)), Eval(Plus(c[..h], c[h..]), p), m);
    CongTrans(Eval(d, Power(root', t)), Eval(Plus(c[..h], c[h..]), p), Eval(c, Power(root, 2 * t)), m);
    assert ColumnPoint(x, f, 2 * h, root, x0, w, m, j, 2 * t);
    EvenPosition(f, t, j);
    CongTrans(Eval(d, Power(root', t)), Eval(c, Power(root, 2 * t)), Eval(x0, Power(w, At(2 * f, t, j))), m);
  }

  lemma {:induction false} RightColumn(x: seq<int>, y: seq<int>, f: nat, k: nat, root: int, root': int, x0: seq<int>,
                                       w: int, m: int, j: nat, t: nat)
    requires m > 0 && k >= 1 && RootAt(root, k, m) && Cong(root', root * root, m)
    requires Columns(x, f, Pow2(k), root, x0, w, m) && IsStage(x, y, f, Pow2(k - 1), root, m)
    requires j < f && t < Pow2(k - 1)
    ensures ColumnPoint(y, 2 * f, Pow2(k - 1), root', x0, w, m, f + j, t)
  {
    hide Cong;
    var h := Pow2(k - 1);
    var c, d := Column(x, f, 2 * h, j), Column(y, 2 * f, h, f + j);
    var p, o := Power(root * root, t), Twist(Minus(c[..h], c[h..]), root);
    StageColumns(x, y, f, h, root, m, j);
    CongPower(root', root * root, t, m);
    EvalCong(d, o, Power(root', t), p, m);
    OddPoint(c, root, k, t, m);
    CongSym(Eval(c, Power(root, 2 * t + 1)), Eval(o, p), m);
    CongTrans(Eval(d, Power(root', t)), Eval(o, p), Eval(c, Power(root, 2 * t + 1)), m);
    assert ColumnPoint(x, f, 2 * h, root, x0, w, m, j, 2 * t + 1);
    EvenPosition(f, t, j);
    CongTrans(Eval(d, Power(root', t)), Eval(c, Power(root, 2 * t + 1)), Eval(x0, Power(w, At(2 * f, t, f + j))), m);
  }

  /** The output position of a point is the same whichever row width it is counted in. */
  lemma {:induction false} EvenPosition(f: nat, t: nat, j: nat)
    ensures At(f, 2 * t, j) == At(2 * f, t, j) && At(f, 2 * t + 1, j) == At(2 * f, t, f + j)
  {
    assert f * (2 * t) == (2 * f) * t;
    assert f * (2 * t + 1) == (2 * f) * t + f;
  }

  /** When the columns have become single entries, the buffer is the transform, in natural order. */
  lemma {:induction false} ColumnsEnd(s: seq<int>, n: nat, root: int, x0: seq<int>, w: int, m: int)
    requires m > 0 && |x0| == n && Columns(s, n, 1, root, x0, w, m)
    ensures IsTransform(s, x0, w, m)
  {
    hide Cong;
    forall t | 0 <= t < n
      ensures Cong(s[t], Eval(x0, Power(w, t)), m)
    {
      assert ColumnPoint(s, n, 1, root, x0, w, m, t, 0);
      var c := Column(s, n, 1, t);
      ColumnAt(s, n, 1, t, 0);
      assert c[1..] == [] && At(n, 0, t) == t;
      assert Eval(c, Power(root, 0)) == c[0] + Power(root, 0) * Eval(c[1..], Power(root, 0));
      assert Eval([], Power(root, 0)) == 0;
    }
  }

  // ---------- twiddle tables ----------

  /** Entry `i` of a twiddle table: a factor congruent to `root^i`. */
  ghost predicate TrigAt(tab: seq<Limb>, root: int, m: nat, i: nat)
    requires m > 0
  {
    2 * i + 1 < |tab| && IsFactor(tab[2 * i], m, tab[2 * i + 1]) && Cong(tab[2 * i], Power(root, i), m)
  }

  ghost predicate IsTrig(tab: seq<Limb>, root: int, m: nat, n: nat)
    requires m > 0
  {
    |tab| == 2 * n && forall i :: 0 <= i < n ==> TrigAt(tab, root, m, i)
  }

  /** The table for one level, each power computed from the one before. */
  method GetTrig(n: nat, cMul: Limb, cMulInv: Limb, m: Limb) returns (tab: array<Limb>)
    requires IsModulus(m) && IsFactor(cMul, m, cMulInv)
    ensures fresh(tab) && IsTrig(tab[..], cMul, m, n)
  {
    hide Cong, Power, IsFactor, MulModFast2;
    tab := new Limb[2 * n];
    var c: Limb := 1;
    StartPower(cMul, m);
    for i := 0 to n
      invariant c < m && Cong(c, Power(cMul, i), m)
      invariant forall k :: 0 <= k < i ==> TrigAt(tab[..], cMul, m, k)
    {
      ghost var before := tab[..];
      var cInv := InitMulModFast2(c, m);
      tab[2 * i], tab[2 * i + 1] := c, cInv;
      forall k | 0 <= k <= i
        ensures TrigAt(tab[..], cMul, m, k)
      {
        if k < i { assert TrigAt(before, cMul, m, k); }
      }
      var c' := MulModFast2(c, cMul, m, cMulInv);
      NextPower(c, c', cMul, i, m);
      c := c';
    }
  }

  lemma {:induction false} StartPower(w: int, m: int)
    requires m > 0
    ensures Cong(1, Power(w, 0), m)
  {
    CongRefl(1, m);
  }

  lemma {:induction false} NextPower(c: int, c': int, w: int, i: nat, m: int)
    requires m > 0 && Cong(c, Power(w, i), m) && Cong(c', c * w, m)
    ensures Cong(c', Power(w, i + 1), m)
  {
    CongRefl(w, m);
    CongMul(c, Power(w, i), w, w, m);
    CongTrans(c', c * w, Power(w, i) * w, m);
  }

  // ---------- the transform ----------

  /** The inner loop: `f` butterflies between two stretches of the input and two of the output. */
  method BlockLoop(tabIn: array<Limb>, tabOut: array<Limb>, f: nat, stride: nat, k: nat, p: nat, c: Limb, cInv: Limb,
                   m: Limb)
    requires IsModulus(m) && tabIn != tabOut && k + f + stride <= tabIn.Length && p + 2 * f <= tabOut.Length
    requires Lazy(tabIn[..], m) && IsFactor(c, m, cInv)
    modifies tabOut
    ensures forall q :: 0 <= q < tabOut.Length && !(p <= q < p + 2 * f) ==> tabOut[q] == old(tabOut[q])
    ensures forall q :: p <= q < p + 2 * f ==> tabOut[q] < 2 * m
    ensures forall j :: 0 <= j < f ==> HalvesAt(tabIn[..], tabOut[..], k, p, f, stride, c, m, j)
  {
    hide Cong, Butterfly, IsFactor;
    for j := 0 to f
      invariant forall q :: 0 <= q < tabOut.Length && !(p <= q < p + 2 * f) ==> tabOut[q] == old(tabOut[q])
      invariant forall q :: p <= q < p + j ==> tabOut[q] < 2 * m
      invariant forall q :: p + f <= q < p + f + j ==> tabOut[q] < 2 * m
      invariant forall j' :: 0 <= j' < j ==> HalvesAt(tabIn[..], tabOut[..], k, p, f, stride, c, m, j')
    {
      var b := Butterfly(tabIn[k + j], tabIn[k + j + stride], m, c, cInv);
      ghost var before := tabOut[..];
      tabOut[p + j], tabOut[p + j + f] := b.0, b.1;
      HalvesKept(tabIn[..], before, tabOut[..], k, p, f, stride, c, m, j);
    }
  }

  /** One block of a stage: row `i` of the output. */
  lemma {:induction false} BlockDone(x: seq<int>, y: seq<int>, f: nat, h: nat, i: nat, k: nat, p: nat, stride: nat,
                                     c: int, m: int, root: int)
    requires m > 0 && i < h && |x| == f * (2 * h) && |y| == (2 * f) * h && stride == f * h
    requires k == At(f, i, 0) && p == At(2 * f, i, 0) && Cong(c, Power(root, i), m)
    requires forall j :: 0 <= j < f ==> HalvesAt(x, y, k, p, f, stride, c, m, j)
    ensures forall j :: 0 <= j < f ==> ButterflyAt(x, y, f, h, root, m, i, j)
  {
    hide Cong, Power;
    forall j | 0 <= j < f
      ensures ButterflyAt(x, y, f, h, root, m, i, j)
    {
      assert HalvesAt(x, y, k, p, f, stride, c, m, j);
      BlockPositions(f, h, i, j, k, p);
      HalvesButterfly(x[k + j], x[k + j + stride], y[p + j], y[p + f + j], c, root, i, m);
    }
  }

  ghost predicate HalvesAt(x: seq<int>, y: seq<int>, k: nat, p: nat, f: nat, stride: nat, c: int, m: int, j: nat)
    requires m > 0
  {
    k + j + stride < |x| && p + f + j < |y| && Halves(x[k + j], x[k + j + stride], y[p + j], y[p + f + j], c, m)
  }

  lemma {:induction false} HalvesKept(x: seq<int>, y: seq<int>, y': seq<int>, k: nat, p: nat, f: nat, stride: nat,
                                      c: int, m: int, j: nat)
    requires m > 0 && j < f && |y'| == |y| && p + f + j < |y| && k + j + stride < |x|
    requires forall j' :: 0 <= j' < j ==> HalvesAt(x, y, k, p, f, stride, c, m, j')
    requires forall q :: 0 <= q < |y| && q != p + j && q != p + f + j ==> y'[q] == y[q]
    requires Halves(x[k + j], x[k + j + stride], y'[p + j], y'[p + f + j], c, m)
    ensures forall j' :: 0 <= j' < j + 1 ==> HalvesAt(x, y', k, p, f, stride, c, m, j')
  {
    hide Halves;
    forall j' | 0 <= j' < j + 1
      ensures HalvesAt(x, y', k, p, f, stride, c, m, j')
    {
      if j' < j { assert HalvesAt(x, y, k, p, f, stride, c, m, j'); }
    }
  }

  ghost predicate Halves(a0: int, a1: int, b0: int, b1: int, c: int, m: int)
    requires m > 0
  {
    Cong(b0, a0 + a1, m) && Cong(b1, (a0 - a1) * c, m)
  }

  lemma {:induction false} HalvesButterfly(a0: int, a1: int, b0: int, b1: int, c: int, root: int, i: nat, m: int)
    requires m > 0 && Halves(a0, a1, b0, b1, c, m) && Cong(c, Power(root, i), m)
    ensures Cong(b0, a0 + a1, m) && Cong(b1, (a0 - a1) * Power(root, i), m)
  {
    CongRefl(a0 - a1, m);
    CongMul(a0 - a1, a0 - a1, c, Power(root, i), m);
    CongTrans(b1, (a0 - a1) * c, (a0 - a1) * Power(root, i), m);
  }

  lemma {:induction false} BlockPositions(f: nat, h: nat, i: nat, j: nat, k: nat, p: nat)
    requires k == At(f, i, 0) && p == At(2 * f, i, 0)
    ensures At(f, i, j) == k + j && At(f, i + h, j) == k + j + f * h
    ensures At(2 * f, i, j) == p + j && At(2 * f, i, f + j) == p + f + j
  {
    MulDist(f, i, h);
  }

  /** A block is not disturbed by what is written above it. */
  lemma {:induction false} ButterflyKept(x: seq<int>, y: seq<int>, y': seq<int>, f: nat, h: nat, root: int, m: int,
                                         i: nat, i': nat, j: nat)
    requires m > 0 && |x| == f * (2 * h) && |y| == |y'| == (2 * f) * h && i' < i < h && j < f
    requires ButterflyAt(x, y, f, h, root, m, i', j)
    requires forall q :: 0 <= q < At(2 * f, i, 0) && q < |y| ==> y'[q] == y[q]
    ensures ButterflyAt(x, y', f, h, root, m, i', j)
  {
    hide Cong;
    AtBounds(2 * f, i, i', j);
    AtBounds(2 * f, i, i', f + j);
    AtBounds(2 * f, h, i', j);
    AtBounds(2 * f, h, i', f + j);
  }

  method Stage(tabIn: array<Limb>, tabOut: array<Limb>, f: nat, h: nat, trig: array<Limb>, m: Limb, ghost root: int)
    requires IsModulus(m) && tabIn != tabOut && trig != tabOut && h >= 1
    requires tabIn.Length == f * (2 * h) && tabOut.Length == (2 * f) * h
    requires Lazy(tabIn[..], m) && IsTrig(trig[..], root, m, h)
    modifies tabOut
    ensures IsStage(tabIn[..], tabOut[..], f, h, root, m) && Lazy(tabOut[..], m)
  {
    hide Cong, ButterflyAt, Power, IsFactor;
    var p, k, stride := 0, 0, f * h;
    assert f * (2 * h) == 2 * stride;
    for i := 0 to h
      invariant k == At(f, i, 0) && p == At(2 * f, i, 0)
      invariant forall q :: 0 <= q < p && q < tabOut.Length ==> tabOut[q] < 2 * m
      invariant forall i', j :: 0 <= i' < i && 0 <= j < f ==> ButterflyAt(tabIn[..], tabOut[..], f, h, root, m, i', j)
    {
      ghost var before := tabOut[..];
      assert TrigAt(trig[..], root, m, i);
      RowFits(f, h, i);
      BlockLoop(tabIn, tabOut, f, stride, k, p, trig[2 * i], trig[2 * i + 1], m);
      BlockDone(tabIn[..], tabOut[..], f, h, i, k, p, stride, trig[2 * i], m, root);
      forall i', j | 0 <= i' <= i && 0 <= j < f
        ensures ButterflyAt(tabIn[..], tabOut[..], f, h, root, m, i', j)
      {
        if i' < i { ButterflyKept(tabIn[..], before, tabOut[..], f, h, root, m, i, i', j); }
      }
      k, p := k + f, p + 2 * f;
    }
  }

  lemma {:induction false} RowFits(f: nat, h: nat, i: nat)
    requires i < h
    ensures At(f, i, 0) + f <= f * h && At(2 * f, i, 0) + 2 * f <= (2 * f) * h
    ensures At(f, i, 0) + f == At(f, i + 1, 0) && At(2 * f, i, 0) + 2 * f == At(2 * f, i + 1, 0)
  {
    MulDist(f, i, 1);
    MulDist(2 * f, i, 1);
    MulMono(f, i + 1, h);
    MulMono(2 * f, i + 1, h);
  }

  /** The last stage has no twiddle; it may write over its input. */
  method LastStage(tabIn: array<Limb>, tabOut: array<Limb>, stride: nat, m: Limb, ghost root: int)
    requires IsModulus(m) && tabIn.Length == tabOut.Length == 2 * stride
    requires Lazy(tabIn[..], m)
    modifies tabOut
    ensures IsStage(old(tabIn[..]), tabOut[..], stride, 1, root, m) && Lazy(tabOut[..], m)
  {
    hide Cong, AddMod, SubMod;
    ghost var x := tabIn[..];
    for k := 0 to stride
      invariant forall q :: k <= q < stride ==> tabIn[q] == x[q]
      invariant forall q :: k + stride <= q < 2 * stride ==> tabIn[q] == x[q]
      invariant forall q :: 0 <= q < k ==> LastAt(x, tabOut[..], stride, m, q)
    {
      var a0, a1 := tabIn[k], tabIn[k + stride];
      var b0, b1 := AddMod(a0, a1, 2 * m), SubMod(a0, a1, 2 * m);
      ghost var before := tabOut[..];
      tabOut[k], tabOut[k + stride] := b0, b1;
      LastCong(a0, a1, b0, b1, m);
      LastKept(x, before, tabOut[..], stride, m, k);
    }
    LastIsStage(x, tabOut[..], stride, root, m);
  }

  ghost predicate LastAt(x: seq<Limb>, y: seq<Limb>, stride: nat, m: nat, q: nat)
    requires m > 0
  {
    && q + stride < |x| && q + stride < |y| && y[q] < 2 * m && y[q + stride] < 2 * m
    && Cong(y[q], x[q] as int + x[q + stride], m) && Cong(y[q + stride], x[q] as int - x[q + stride], m)
  }

  lemma {:induction false} LastKept(x: seq<Limb>, y: seq<Limb>, y': seq<Limb>, stride: nat, m: nat, k: nat)
    requires m > 0 && k < stride && |x| == |y| == |y'| == 2 * stride
    requires forall q :: 0 <= q < k ==> LastAt(x, y, stride, m, q)
    requires forall q :: 0 <= q < |y| && q != k && q != k + stride ==> y'[q] == y[q]
    requires y'[k] < 2 * m && y'[k + stride] < 2 * m
    requires Cong(y'[k], x[k] as int + x[k + stride], m) && Cong(y'[k + stride], x[k] as int - x[k + stride], m)
    ensures forall q :: 0 <= q < k + 1 ==> LastAt(x, y', stride, m, q)
  {
    hide Cong;
    forall q | 0 <= q < k + 1
      ensures LastAt(x, y', stride, m, q)
    {
      if q < k { assert LastAt(x, y, stride, m, q); }
    }
  }

  lemma {:induction false} LastCong(a0: int, a1: int, b0: int, b1: int, m: int)
    requires m > 0 && (b0 == a0 + a1 || b0 == a0 + a1 - 2 * m) && (b1 == a0 - a1 || b1 == a0 - a1 + 2 * m)
    ensures Cong(b0, a0 + a1, m) && Cong(b1, a0 - a1, m)
  {
    CongIntro(b0, a0 + a1, m, if b0 == a0 + a1 then 0 else -2);
    CongIntro(b1, a0 - a1, m, if b1 == a0 - a1 then 0 else 2);
  }

  lemma {:induction false} LastIsStage(x: seq<Limb>, y: seq<Limb>, stride: nat, root: int, m: nat)
    requires m > 0 && |x| == |y| == 2 * stride
    requires forall q :: 0 <= q < stride ==> LastAt(x, y, stride, m, q)
    ensures IsStage(x, y, stride, 1, root, m) && Lazy(y, m)
  {
    hide Cong;
    forall i, j | 0 <= i < 1 && 0 <= j < stride
      ensures ButterflyAt(x, y, stride, 1, root, m, i, j)
    {
      assert LastAt(x, y, stride, m, j);
      assert Power(root, 0) == 1;
    }
    forall q | 0 <= q < |y|
      ensures y[q] < 2 * m
    {
      if q < stride { assert LastAt(x, y, stride, m, q); } else { assert LastAt(x, y, stride, m, q - stride); }
    }
  }

  /** Roots for the levels `1 .. k`, each the square of the next, with their precomputed quotients. */
  ghost predicate IsRootTable(roots: seq<Limb>, rootsInv: seq<Limb>, k: nat, m: nat)
    requires m > 0
  {
    && k < |roots| && k < |rootsInv| && 1 <= k && RootAt(roots[k], k, m)
    && (forall l :: 1 <= l <= k ==> IsFactor(roots[l], m, rootsInv[l]))
    && (forall l :: 1 < l <= k ==> Cong(roots[l - 1], roots[l] as int * roots[l], m))
  }

  lemma {:induction false} RootBelow(roots: seq<Limb>, rootsInv: seq<Limb>, k: nat, m: nat)
    requires m > 0 && k >= 2 && IsRootTable(roots, rootsInv, k, m)
    ensures IsRootTable(roots, rootsInv, k - 1, m)
  {
    hide Cong, IsFactor, Power;
    var w: int := roots[k];
    RootSquare(w, k, m);
    RootCong(w * w, roots[k - 1], k - 1, m);
  }

  lemma {:induction false} RootCong(x: int, y: int, k: nat, m: int)
    requires m > 0 && k >= 1 && RootAt(x, k, m) && Cong(y, x, m)
    ensures RootAt(y, k, m)
  {
    CongPower(y, x, Pow2(k - 1), m);
    CongTrans(Power(y, Pow2(k - 1)), Power(x, Pow2(k - 1)), -1, m);
  }

  /** The transform of `buf`, in place, `tmp` serving as the second buffer. */
  method NttFft(buf: array<Limb>, tmp: array<Limb>, k: nat, roots: seq<Limb>, rootsInv: seq<Limb>, m: Limb)
    requires IsModulus(m) && buf != tmp && buf.Length == tmp.Length == Pow2(k)
    requires IsRootTable(roots, rootsInv, k, m) && Lazy(buf[..], m)
    modifies buf, tmp
    ensures Lazy(buf[..], m) && IsTransform(buf[..], old(buf[..]), roots[k], m)
  {
    hide Cong, Columns, IsTransform, RootAt, Lazy, IsFactor, Pow2;
    ghost var x0, w := buf[..], roots[k] as int;
    CongSeqRefl(x0, m);
    ColumnsStart(x0, x0, w, m);
    var tabIn, tabOut, f, l := buf, tmp, 1, k;
    while l != 1
      invariant 1 <= l <= k && f * Pow2(l) == Pow2(k)
      invariant (tabIn == buf && tabOut == tmp) || (tabIn == tmp && tabOut == buf)
      invariant IsRootTable(roots, rootsInv, l, m) && Lazy(tabIn[..], m)
      invariant Columns(tabIn[..], f, Pow2(l), roots[l], x0, w, m)
      decreases l
    {
      HalfLength(f, l);
      var h := Pow2(l - 1);
      var trig := GetTrig(h, roots[l], rootsInv[l], m);
      Stage(tabIn, tabOut, f, h, trig, m, roots[l]);
      RootBelow(roots, rootsInv, l, m);
      ColumnsStage(tabIn[..], tabOut[..], f, l, roots[l], roots[l - 1], x0, w, m);
      f, l := 2 * f, l - 1;
      tabIn, tabOut := tabOut, tabIn;
    }
    HalfLength(f, 1);
    ghost var x := tabIn[..];
    LastStage(tabIn, buf, f, m, roots[1]);
    CongRefl(roots[1] as int * roots[1], m);
    ColumnsStage(x, buf[..], f, 1, roots[1], roots[1] as int * roots[1], x0, w, m);
    ColumnsEnd(buf[..], 2 * f, roots[1] as int * roots[1], x0, w, m);
  }

  lemma {:induction false} HalfLength(f: nat, l: nat)
    requires l >= 1
    ensures Pow2(l) == 2 * Pow2(l - 1) && f * Pow2(l) == f * (2 * Pow2(l - 1)) == (2 * f) * Pow2(l - 1)
    ensures l == 1 ==> Pow2(l - 1) == 1 && f * Pow2(l) == 2 * f
  {
    var h := Pow2(l - 1);
    assert f * (2 * h) == (2 * f) * h;
  }

  // ---------- convolution ----------

  /** Multiplies the transforms pointwise and scales by `norm`; the left operand is reduced first so
      that the product stays below `2^125`. */
  method VecMul(tab1: array<Limb>, tab2: array<Limb>, norm: Limb, normInv: Limb, m: Limb, mInv: Limb)
    requires tab1 != tab2 && tab1.Length == tab2.Length
    requires IsModInverse(m, mInv) && IsFactor(norm, m, normInv) && Lazy(tab1[..], m) && Lazy(tab2[..], m)
    modifies tab1
    ensures Lazy(tab1[..], m)
    ensures forall i :: 0 <= i < tab1.Length ==> Cong(tab1[i], (old(tab1[i]) as int * tab2[i]) * norm, m)
  {
    hide Cong, MulModFast, MulModFast3, IsFactor;
    ghost var x := tab1[..];
    for i := 0 to tab1.Length
      invariant forall q :: i <= q < tab1.Length ==> tab1[q] == x[q]
      invariant forall q :: 0 <= q < i ==> tab1[q] < 2 * m && Cong(tab1[q], (x[q] as int * tab2[q]) * norm, m)
    {
      tab1[i] := ScaledProduct(tab1[i], tab2[i], norm, normInv, m, mInv);
    }
  }

  function ScaledProduct(a: Limb, b: Limb, norm: Limb, normInv: Limb, m: Limb, mInv: Limb): (r: Limb)
    requires IsModInverse(m, mInv) && IsFactor(norm, m, normInv) && a < 2 * m && b < 2 * m
    ensures r < 2 * m && Cong(r, (a as int * b) * norm, m)
  {
    hide Cong, MulModFast, MulModFast3, IsFactor;
    var a' := if a >= m then a - m else a;
    ProductFits(a', b, m);
    var p := MulModFast(a', b, m, mInv);
    var r := MulModFast3(p, norm, m, normInv);
    ScaledCong(a, a', b, p, norm, r, m);
    r
  }

  lemma {:induction false} ProductFits(a: nat, b: nat, m: nat)
    requires IsModulus(m) && a < m && b < 2 * m
    ensures a * b < MOD_FAST_MAX
  {
    MulMono(a, b, 2 * MOD_MAX - 1);
    MulMono(2 * MOD_MAX - 1, a, MOD_MAX - 1);
  }

  lemma {:induction false} ScaledCong(a: int, a': int, b: int, p: int, norm: int, r: int, m: int)
    requires m > 0 && (a' == a || a' == a - m) && Cong(p, a' * b, m) && Cong(r, p * norm, m)
    ensures Cong(r, (a * b) * norm, m)
  {
    CongIntro(a', a, m, if a' == a then 0 else -1);
    CongRefl(b, m);
    CongMul(a', a, b, b, m);
    CongTrans(p, a' * b, a * b, m);
    CongRefl(norm, m);
    CongMul(p, a * b, norm, norm, m);
    CongTrans(r, p * norm, (a * b) * norm, m);
  }

  /** The tables of one modulus: by level, roots for both directions and inverses of the length,
      with the precomputed quotients of all of them. */
  datatype Plan = Plan(m: Limb, mInv: Limb, roots: seq<Limb>, rootsInv: seq<Limb>,
                       backRoots: seq<Limb>, backRootsInv: seq<Limb>, norms: seq<Limb>, normsInv: seq<Limb>)

  /** The tables serve transforms of length `2^k`. */
  ghost predicate ValidPlan(p: Plan, k: nat) {
    && IsModInverse(p.m, p.mInv)
    && IsRootTable(p.roots, p.rootsInv, k, p.m) && IsRootTable(p.backRoots, p.backRootsInv, k, p.m)
    && Cong(p.roots[k] as int * p.backRoots[k], 1, p.m)
    && IsNormAt(p.norms, p.normsInv, k, p.m)
  }

  ghost predicate IsNormAt(norms: seq<Limb>, normsInv: seq<Limb>, k: nat, m: nat)
    requires m > 0
  {
    k < |norms| && k < |normsInv| && IsFactor(norms[k], m, normsInv[k]) && Cong(norms[k] as int * Pow2(k), 1, m)
  }

  /** The cyclic convolution of two lazily reduced buffers, written over the first, times the length and the scaling
      factor of the whole convolution that this one is a part of. */
  method NttConvLeaf(buf1: array<Limb>, buf2: array<Limb>, tmp: array<Limb>, k: nat, total: nat, p: Plan)
    requires ValidPlan(p, k) && ValidPlan(p, total)
    requires buf1 != buf2 && buf1 != tmp && buf2 != tmp && buf1.Length == buf2.Length == tmp.Length == Pow2(k)
    requires Lazy(buf1[..], p.m) && Lazy(buf2[..], p.m)
    modifies buf1, buf2, tmp
    ensures Lazy(buf1[..], p.m)
    ensures CongSeq(buf1[..], Scale(Cyclic(old(buf1[..]), old(buf2[..])), p.norms[total] * Pow2(k)), p.m)
  {
    hide Cong, IsTransform, RootAt, IsFactor, Lazy, Cyclic, Pow2;
    ghost var a, b := buf1[..], buf2[..];
    NttFft(buf1, tmp, k, p.roots, p.rootsInv, p.m);
    NttFft(buf2, tmp, k, p.roots, p.rootsInv, p.m);
    ghost var xs, ys := buf1[..], buf2[..];
    VecMul(buf1, buf2, p.norms[total], p.normsInv[total], p.m, p.mInv);
    ghost var us := buf1[..];
    NttFft(buf1, tmp, k, p.backRoots, p.backRootsInv, p.m);
    Convolved(a, b, xs, ys, us, buf1[..], p, k, p.norms[total]);
  }

  /** Two transforms, their scaled products, and the transform back. */
  lemma {:induction false} Convolved(a: seq<int>, b: seq<int>, xs: seq<int>, ys: seq<int>, us: seq<int>, rs: seq<int>,
                                     p: Plan, k: nat, norm: int)
    requires ValidPlan(p, k) && |a| == |b| == |xs| == |ys| == |us| == |rs| == Pow2(k)
    requires IsTransform(xs, a, p.roots[k], p.m) && IsTransform(ys, b, p.roots[k], p.m)
    requires forall i :: 0 <= i < |us| ==> Cong(us[i], (xs[i] * ys[i]) * norm, p.m)
    requires IsTransform(rs, us, p.backRoots[k], p.m)
    ensures CongSeq(rs, Scale(Cyclic(a, b), norm * Pow2(k)), p.m)
  {
    hide Cong, RootAt, IsFactor, Cyclic, Pow2, Eval;
    var m := p.m;
    var zs: seq<int> := seq(|xs|, i requires 0 <= i < |xs| => xs[i] * ys[i]);
    forall i | 0 <= i < |zs| ensures Cong(zs[i], xs[i] * ys[i], m) { CongRefl(zs[i], m); }
    ConvolutionTheorem(xs, ys, zs, a, b, p.roots[k], k, m);
    var c := Scale(zs, norm);
    assert CongSeq(us, c, m);
    forall t | 0 <= t < |rs|
      ensures Cong(rs[t], Eval(c, Power(p.backRoots[k], t)), m)
    {
      var x := Power(p.backRoots[k], t);
      CongRefl(x, m);
      EvalCong(us, c, x, x, m);
      CongTrans(rs[t], Eval(us, x), Eval(c, x), m);
    }
    InverseOfProducts(zs, rs, Cyclic(a, b), p.roots[k], p.backRoots[k], norm, k, m);
  }
}
