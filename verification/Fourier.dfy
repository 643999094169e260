/** Fourier transforms over integers modulo `m`: decimation, inversion and the convolution theorem.
    Only a root `w` with `w^(n/2) = -1` is needed; the modulus need not be prime. */
module Fourier {
  import opened Arith
  import opened Modular
  import opened Powers

  /** `w` is a root of unity of order exactly `2^k`: its `2^(k-1)`-th power is -1. */
  ghost predicate RootAt(w: int, k: nat, m: int)
    requires m > 0
  {
    if k == 0 then Cong(w, 1, m) else Cong(Power(w, Pow2(k - 1)), -1, m)
  }

  lemma {:induction false} MinusOneSquared(x: int, m: int)
    requires m > 0 && Cong(x, -1, m)
    ensures Cong(x * x, 1, m)
  {
    CongMul(x, -1, x, -1, m);
  }

  lemma {:induction false} RootFull(w: int, k: nat, m: int)
    requires m > 0 && RootAt(w, k, m)
    ensures Cong(Power(w, Pow2(k)), 1, m)
  {
    if k == 0 {
      assert Power(w, 1) == w * Power(w, 0);
    } else {
      var h := Pow2(k - 1);
      PowerAdd(w, h, h);
      MinusOneSquared(Power(w, h), m);
    }
  }

  lemma {:induction false} RootSquare(w: int, k: nat, m: int)
    requires m > 0 && k >= 1 && RootAt(w, k, m)
    ensures RootAt(w * w, k - 1, m)
  {
    if k == 1 {
      assert Power(w, 1) == w * Power(w, 0);
      MinusOneSquared(w, m);
    } else {
      var h := Pow2(k - 2);
      PowerMul(w, w, h);
      PowerAdd(w, h, h);
    }
  }

  lemma {:induction false} PowerSquare(w: int, t: nat)
    ensures Power(w * w, t) == Power(w, 2 * t)
    ensures Power(w, 2 * t + 1) == w * Power(w * w, t)
  {
    PowerMul(w, w, t);
    PowerAdd(w, t, t);
  }

  // ---------- decimation in frequency ----------

  /** At a point whose half power is `sign`, a polynomial folds onto its low half. */
  lemma {:induction false} FoldHalf(s: seq<int>, h: nat, x: int, sign: int, m: int)
    requires m > 0 && |s| == 2 * h && (sign == 1 || sign == -1) && Cong(Power(x, h), sign, m)
    ensures sign == 1 ==> Cong(Eval(s, x), Eval(Plus(s[..h], s[h..]), x), m)
    ensures sign == -1 ==> Cong(Eval(s, x), Eval(Minus(s[..h], s[h..]), x), m)
  {
    var lo, hi := s[..h], s[h..];
    assert s == lo + hi;
    EvalConcat(lo, hi, x);
    EvalPlus(lo, hi, x);
    EvalMinus(lo, hi, x);
    CongRefl(Eval(hi, x), m);
    CongMul(Power(x, h), sign, Eval(hi, x), Eval(hi, x), m);
    CongRefl(Eval(lo, x), m);
    CongAdd(Eval(lo, x), Eval(lo, x), Power(x, h) * Eval(hi, x), sign * Eval(hi, x), m);
  }

  /** Even points of the transform: the transform of the folded sums. */
  lemma {:induction false} EvenPoint(s: seq<int>, w: int, k: nat, t: nat, m: int)
    requires m > 0 && k >= 1 && |s| == Pow2(k) && RootAt(w, k, m)
    ensures |s| == 2 * Pow2(k - 1)
    ensures var h := Pow2(k - 1); Cong(Eval(s, Power(w, 2 * t)), Eval(Plus(s[..h], s[h..]), Power(w * w, t)), m)
  {
    var h := Pow2(k - 1);
    var x := Power(w, 2 * t);
    PowerSquare(w, t);
    assert Cong(Power(x, h), 1, m) by {
      PowerPower(w, 2 * t, h);
      assert (2 * t) * h == (2 * h) * t;
      PowerPower(w, 2 * h, t);
      RootFull(w, k, m);
      CongPower(Power(w, 2 * h), 1, t, m);
      PowerOne(t);
    }
    FoldHalf(s, h, x, 1, m);
  }

  /** Odd points: the transform of the twisted differences. */
  lemma {:induction false} OddPoint(s: seq<int>, w: int, k: nat, t: nat, m: int)
    requires m > 0 && k >= 1 && |s| == Pow2(k) && RootAt(w, k, m)
    ensures |s| == 2 * Pow2(k - 1)
    ensures var h := Pow2(k - 1);
            Cong(Eval(s, Power(w, 2 * t + 1)), Eval(Twist(Minus(s[..h], s[h..]), w), Power(w * w, t)), m)
  {
    var h := Pow2(k - 1);
    var x := Power(w, 2 * t + 1);
    PowerSquare(w, t);
    assert Cong(Power(x, h), -1, m) by {
      PowerPower(w, 2 * t + 1, h);
      assert (2 * t + 1) * h == (2 * h) * t + h;
      PowerAdd(w, (2 * h) * t, h);
      PowerPower(w, 2 * h, t);
      RootFull(w, k, m);
      CongPower(Power(w, 2 * h), 1, t, m);
      PowerOne(t);
      CongMul(Power(w, (2 * h) * t), 1, Power(w, h), -1, m);
    }
    FoldHalf(s, h, x, -1, m);
    EvalTwist(Minus(s[..h], s[h..]), w, Power(w * w, t));
  }

  // ---------- inversion ----------

  ghost function Evens(s: seq<int>): (r: seq<int>)
    requires |s| % 2 == 0
    ensures |r| == |s| / 2 && forall i :: 0 <= i < |r| ==> r[i] == s[2 * i]
  {
    seq(|s| / 2, i requires 0 <= i < |s| / 2 => s[2 * i])
  }

  ghost function Odds(s: seq<int>): (r: seq<int>)
    requires |s| % 2 == 0
    ensures |r| == |s| / 2 && forall i :: 0 <= i < |r| ==> r[i] == s[2 * i + 1]
  {
    seq(|s| / 2, i requires 0 <= i < |s| / 2 => s[2 * i + 1])
  }

  lemma {:induction false} EvalEvenOdd(s: seq<int>, z: int)
    requires |s| % 2 == 0
    ensures Eval(s, z) == Eval(Evens(s), z * z) + z * Eval(Odds(s), z * z)
  {
    if s != [] {
      var t := s[2..];
      EvalEvenOdd(t, z);
      assert Evens(s)[1..] == Evens(t) && Odds(s)[1..] == Odds(t);
      assert s[1..][1..] == t;
      assert Eval(s, z) == s[0] + z * Eval(s[1..], z) && Eval(s[1..], z) == s[1] + z * Eval(t, z);
      TwoSteps(s[0], s[1], z, Eval(Evens(t), z * z), Eval(Odds(t), z * z), Eval(s[1..], z), Eval(t, z));
    }
  }

  lemma {:induction false} TwoSteps(a: int, b: int, z: int, e: int, o: int, v1: int, v2: int)
    requires v1 == b + z * v2 && v2 == e + z * o
    ensures a + z * v1 == (a + (z * z) * e) + z * (b + (z * z) * o)
  {
    MulDist(z, e, z * o);
    MulDist(z, b, z * v2);
    MulDist(z, b, (z * z) * o);
    MulDist(z, z * e, z * (z * o));
    MulAssoc(z, z, e);
    MulAssoc(z, z, o);
  }

  /** `xs` is the transform of `c` with root `w`. */
  ghost predicate IsTransform(xs: seq<int>, c: seq<int>, w: int, m: int)
    requires m > 0
  {
    |xs| == |c| && forall t :: 0 <= t < |xs| ==> Cong(xs[t], Eval(c, Power(w, t)), m)
  }

  /** Half transforms of a transform. */
  lemma {:induction false} HalfTransforms(xs: seq<int>, c: seq<int>, w: int, k: nat, m: int)
    requires m > 0 && k >= 1 && |c| == Pow2(k) && RootAt(w, k, m) && IsTransform(xs, c, w, m)
    ensures |c| == 2 * Pow2(k - 1)
    ensures var h := Pow2(k - 1); IsTransform(Evens(xs), Plus(c[..h], c[h..]), w * w, m)
    ensures var h := Pow2(k - 1); IsTransform(Odds(xs), Twist(Minus(c[..h], c[h..]), w), w * w, m)
  {
    var h := Pow2(k - 1);
    var e, o := Plus(c[..h], c[h..]), Twist(Minus(c[..h], c[h..]), w);
    forall t | 0 <= t < h
      ensures Cong(Evens(xs)[t], Eval(e, Power(w * w, t)), m)
      ensures Cong(Odds(xs)[t], Eval(o, Power(w * w, t)), m)
    {
      EvenPoint(c, w, k, t, m);
      CongTrans(xs[2 * t], Eval(c, Power(w, 2 * t)), Eval(e, Power(w * w, t)), m);
      OddPoint(c, w, k, t, m);
      CongTrans(xs[2 * t + 1], Eval(c, Power(w, 2 * t + 1)), Eval(o, Power(w * w, t)), m);
    }
  }

  /** The inverse of a root of order `2^k` has the same order. */
  lemma {:induction false} InverseRoot(w: int, v: int, k: nat, m: int)
    requires m > 0 && RootAt(w, k, m) && Cong(w * v, 1, m)
    ensures RootAt(v, k, m)
  {
    CongRefl(v, m);
    if k == 0 {
      CongMul(w, 1, v, v, m);
      CongSym(w * v, v, m);
      CongTrans(v, w * v, 1, m);
    } else {
      var h := Pow2(k - 1);
      CongPower(w * v, 1, h, m);
      PowerOne(h);
      PowerMul(w, v, h);
      NegatedInverse(Power(w, h), Power(v, h), m);
    }
  }

  lemma {:induction false} NegatedInverse(x: int, y: int, m: int)
    requires m > 0 && Cong(x, -1, m) && Cong(x * y, 1, m)
    ensures Cong(y, -1, m)
  {
    CongRefl(y, m);
    CongMul(x, -1, y, y, m);
    CongSym(x * y, -1 * y, m);
    CongTrans(-1 * y, x * y, 1, m);
    CongRefl(0, m);
    CongAdd(0, 0, -1 * y, 1, m);
  }

  /** Exponents of a root may be reduced by its order. */
  lemma {:induction false} PowerWraps(v: int, k: nat, j: nat, m: int)
    requires m > 0 && RootAt(v, k, m)
    ensures Cong(Power(v, Pow2(k) + j), Power(v, j), m)
  {
    RootFull(v, k, m);
    PowerAdd(v, Pow2(k), j);
    CongRefl(Power(v, j), m);
    CongMul(Power(v, Pow2(k)), 1, Power(v, j), Power(v, j), m);
  }

  /** Transforming back with the inverse root gives the coefficients times the length. */
  lemma {:induction false} Inversion(xs: seq<int>, c: seq<int>, w: int, v: int, k: nat, j: nat, m: int)
    requires m > 0 && |c| == Pow2(k) && j < Pow2(k)
    requires RootAt(w, k, m) && Cong(w * v, 1, m) && IsTransform(xs, c, w, m)
    ensures Cong(Eval(xs, Power(v, j)), Pow2(k) * c[j], m)
    decreases k
  {
    if k == 0 {
      SinglePoint(xs, c, w, v, m);
    } else {
      var h := Pow2(k - 1);
      var j' := if j < h then j else j - h;
      HalfTransforms(xs, c, w, k, m);
      var e, o := Plus(c[..h], c[h..]), Twist(Minus(c[..h], c[h..]), w);
      RootSquare(w, k, m);
      InverseSquare(w, v, m);
      Inversion(Evens(xs), e, w * w, v * v, k - 1, j', m);
      Inversion(Odds(xs), o, w * w, v * v, k - 1, j', m);
      InverseRoot(w, v, k, m);
      Recombined(xs, c, w, v, k, j, m);
    }
  }

  lemma {:induction false} SinglePoint(xs: seq<int>, c: seq<int>, w: int, v: int, m: int)
    requires m > 0 && |c| == 1 && IsTransform(xs, c, w, m)
    ensures Cong(Eval(xs, Power(v, 0)), Pow2(0) * c[0], m)
  {
    assert xs[1..] == [] && c[1..] == [];
    assert Eval(xs, 1) == xs[0] && Eval(c, 1) == c[0];
  }

  lemma {:induction false} InverseSquare(w: int, v: int, m: int)
    requires m > 0 && Cong(w * v, 1, m)
    ensures Cong((w * w) * (v * v), 1, m)
  {
    CongMul(w * v, 1, w * v, 1, m);
    Regroup(w, w, v, v);
  }

  /** Putting the halves together at the point `v^j`. */
  lemma {:induction false} Recombined(xs: seq<int>, c: seq<int>, w: int, v: int, k: nat, j: nat, m: int)
    requires m > 0 && k >= 1 && |xs| == |c| == Pow2(k) && j < Pow2(k)
    requires RootAt(v, k, m) && RootAt(w, k, m) && Cong(w * v, 1, m)
    requires var h := Pow2(k - 1); var j' := if j < h then j else j - h;
             && Cong(Eval(Evens(xs), Power(v * v, j')), h * Plus(c[..h], c[h..])[j'], m)
             && Cong(Eval(Odds(xs), Power(v * v, j')), h * Twist(Minus(c[..h], c[h..]), w)[j'], m)
    ensures Cong(Eval(xs, Power(v, j)), Pow2(k) * c[j], m)
  {
    hide Cong, Power, Eval, RootAt, Plus, Minus, Twist, Evens, Odds, Pow2;
    var h := Pow2(k - 1);
    DoublePow(k);
    var j' := if j < h then j else j - h;
    var z, y := Power(v, j), Power(v * v, j');
    var a, b, pw := c[j'], c[h + j'], Power(w, j');
    HalfCoefficients(c, w, h, j');
    EvalEvenOdd(xs, z);
    SquaredPoint(v, k, j, m);
    MovedPoint(Evens(xs), z * z, y, h * (a + b), m);
    MovedPoint(Odds(xs), z * z, y, h * ((a - b) * pw), m);
    TwistCancels(w, v, k, j, m);
    JoinedHalves(Eval(Evens(xs), z * z), Eval(Odds(xs), z * z), z, pw, h, a, b, if j < h then 1 else -1, m);
  }

  lemma {:induction false} DoublePow(k: nat)
    requires k >= 1
    ensures Pow2(k) == 2 * Pow2(k - 1)
  {
  }

  lemma {:induction false} HalfCoefficients(c: seq<int>, w: int, h: nat, j: nat)
    requires |c| == 2 * h && j < h
    ensures Plus(c[..h], c[h..])[j] == c[j] + c[h + j]
            && Twist(Minus(c[..h], c[h..]), w)[j] == (c[j] - c[h + j]) * Power(w, j)
  {
    hide Power;
  }

  lemma {:induction false} JoinedHalves(e: int, o: int, z: int, p: int, h: int, a: int, b: int, sign: int, m: int)
    requires m > 0 && Cong(e, h * (a + b), m) && Cong(o, h * ((a - b) * p), m) && Cong(z * p, sign, m)
             && (sign == 1 || sign == -1)
    ensures Cong(e + z * o, (2 * h) * (if sign == 1 then a else b), m)
  {
    hide Cong;
    CancelTwist(e, o, z, p, h, a + b, a - b, sign, m);
    SumOrDifference(h, a, b, sign);
  }

  /** A value at a congruent point. */
  lemma {:induction false} MovedPoint(s: seq<int>, x: int, y: int, r: int, m: int)
    requires m > 0 && Cong(x, y, m) && Cong(Eval(s, y), r, m)
    ensures Cong(Eval(s, x), r, m)
  {
    hide Cong, Eval;
    CongSeqRefl(s, m);
    EvalCong(s, s, x, y, m);
    CongTrans(Eval(s, x), Eval(s, y), r, m);
  }

  lemma {:induction false} SumOrDifference(h: int, a: int, b: int, sign: int)
    ensures sign == 1 ==> h * (a + b) + sign * (h * (a - b)) == (2 * h) * a
    ensures sign == -1 ==> h * (a + b) + sign * (h * (a - b)) == (2 * h) * b
  {
  }

  lemma {:induction false} CancelTwist(e: int, o: int, z: int, p: int, h: int, s: int, d: int, sign: int, m: int)
    requires m > 0 && Cong(e, h * s, m) && Cong(o, h * (d * p), m) && Cong(z * p, sign, m)
    ensures Cong(e + z * o, h * s + sign * (h * d), m)
  {
    CongRefl(z, m);
    CongMul(z, z, o, h * (d * p), m);
    assert z * (h * (d * p)) == (z * p) * (h * d);
    CongRefl(h * d, m);
    CongMul(z * p, sign, h * d, h * d, m);
    CongTrans(z * o, (z * p) * (h * d), sign * (h * d), m);
    CongAdd(e, h * s, z * o, sign * (h * d), m);
  }

  lemma {:induction false} CongSeqRefl(s: seq<int>, m: int)
    requires m > 0
    ensures CongSeq(s, s, m)
  {
    forall i | 0 <= i < |s| ensures Cong(s[i], s[i], m) { CongRefl(s[i], m); }
  }

  lemma {:induction false} SquaredPoint(v: int, k: nat, j: nat, m: int)
    requires m > 0 && k >= 1 && RootAt(v, k, m)
    ensures var h := Pow2(k - 1); var j' := if j < h then j else j - h;
            Cong(Power(v, j) * Power(v, j), Power(v * v, j'), m)
  {
    var h := Pow2(k - 1);
    PowerMul(v, v, j);
    if j < h {
      CongRefl(Power(v * v, j), m);
    } else {
      RootSquare(v, k, m);
      PowerWraps(v * v, k - 1, j - h, m);
    }
  }

  lemma {:induction false} TwistCancels(w: int, v: int, k: nat, j: nat, m: int)
    requires m > 0 && k >= 1 && RootAt(v, k, m) && Cong(w * v, 1, m)
    ensures var h := Pow2(k - 1); Cong(Power(v, j) * Power(w, if j < h then j else j - h), if j < h then 1 else -1, m)
  {
    hide Cong, Power;
    var h := Pow2(k - 1);
    var j' := if j < h then j else j - h;
    PowerMul(w, v, j');
    CongPower(w * v, 1, j', m);
    PowerOne(j');
    if j >= h {
      PowerAdd(v, h, j');
      var p, a, b := Power(v, h), Power(v, j'), Power(w, j');
      CongMul(p, -1, b * a, 1, m);
      assert p * (b * a) == (p * a) * b;
    }
  }

  // ---------- the convolution theorem ----------

  ghost function Zeros(n: nat): (r: seq<int>)
    ensures |r| == n
  {
    seq(n, _ => 0)
  }

  lemma {:induction false} EvalZeros(n: nat, x: int)
    ensures Eval(Zeros(n), x) == 0
  {
    if n > 0 {
      EvalZeros(n - 1, x);
      assert Zeros(n)[1..] == Zeros(n - 1);
    }
  }

  /** The product polynomial, padded to the sum of the lengths. */
  ghost function Product(a: seq<int>, b: seq<int>): (r: seq<int>)
    ensures |r| == |a| + |b|
  {
    if a == [] then Zeros(|b|)
    else Plus(Scale(b, a[0]) + Zeros(|a|), [0] + Product(a[1..], b))
  }

  lemma {:induction false} EvalProduct(a: seq<int>, b: seq<int>, x: int)
    ensures Eval(Product(a, b), x) == Eval(a, x) * Eval(b, x)
  {
    if a == [] {
      EvalZeros(|b|, x);
    } else {
      var t := Product(a[1..], b);
      EvalProduct(a[1..], b, x);
      EvalPlus(Scale(b, a[0]) + Zeros(|a|), [0] + t, x);
      EvalConcat(Scale(b, a[0]), Zeros(|a|), x);
      EvalScale(b, a[0], x);
      EvalZeros(|a|, x);
      assert ([0] + t)[1..] == t;
      ProductStep(a[0], Eval(a[1..], x), Eval(b, x), x);
    }
  }

  lemma {:induction false} ProductStep(a: int, r: int, b: int, x: int)
    ensures (a + x * r) * b == a * b + x * (r * b)
  {
    MulAssoc(x, r, b);
  }

  /** Cyclic convolution: the product modulo `x^n - 1`. */
  ghost function Cyclic(a: seq<int>, b: seq<int>): (r: seq<int>)
    requires |a| == |b|
    ensures |r| == |a|
  {
    var p := Product(a, b);
    Plus(p[..|a|], p[|a|..])
  }

  /** Pointwise products of transforms are the transform of the cyclic convolution. */
  lemma {:induction false} ConvolutionTheorem(xs: seq<int>, ys: seq<int>, zs: seq<int>, a: seq<int>, b: seq<int>,
                                              w: int, k: nat, m: int)
    requires m > 0 && |a| == |b| == |zs| == Pow2(k) && RootAt(w, k, m)
    requires IsTransform(xs, a, w, m) && IsTransform(ys, b, w, m)
    requires forall t :: 0 <= t < |zs| ==> Cong(zs[t], xs[t] * ys[t], m)
    ensures IsTransform(zs, Cyclic(a, b), w, m)
  {
    forall t | 0 <= t < |zs|
      ensures Cong(zs[t], Eval(Cyclic(a, b), Power(w, t)), m)
    {
      var x := Power(w, t);
      CongMul(xs[t], Eval(a, x), ys[t], Eval(b, x), m);
      CongTrans(zs[t], xs[t] * ys[t], Eval(a, x) * Eval(b, x), m);
      EvalProduct(a, b, x);
      UnitPower(w, k, t, m);
      FoldHalf(Product(a, b), |a|, x, 1, m);
      CongTrans(zs[t], Eval(a, x) * Eval(b, x), Eval(Cyclic(a, b), x), m);
    }
  }

  lemma {:induction false} UnitPower(w: int, k: nat, t: nat, m: int)
    requires m > 0 && RootAt(w, k, m)
    ensures Cong(Power(Power(w, t), Pow2(k)), 1, m)
  {
    var n := Pow2(k);
    RootFull(w, k, m);
    PowerPower(w, t, n);
    PowerPower(w, n, t);
    assert t * n == n * t;
    CongPower(Power(w, n), 1, t, m);
    PowerOne(t);
  }

  /** Transforming the products back, scaled, is the cyclic convolution times the scale and the length. */
  lemma {:induction false} InverseOfProducts(zs: seq<int>, rs: seq<int>, c: seq<int>, w: int, v: int, norm: int, k: nat,
                                             m: int)
    requires m > 0 && |c| == |zs| == |rs| == Pow2(k) && RootAt(w, k, m) && Cong(w * v, 1, m)
    requires IsTransform(zs, c, w, m) && IsTransform(rs, Scale(zs, norm), v, m)
    ensures CongSeq(rs, Scale(c, norm * Pow2(k)), m)
  {
    forall j | 0 <= j < |rs|
      ensures Cong(rs[j], c[j] * (norm * Pow2(k)), m)
    {
      var x := Power(v, j);
      Inversion(zs, c, w, v, k, j, m);
      EvalScale(zs, norm, x);
      CongRefl(norm, m);
      CongMul(norm, norm, Eval(zs, x), Pow2(k) * c[j], m);
      MulAssoc(norm, Pow2(k), c[j]);
      CongTrans(rs[j], norm * Eval(zs, x), norm * (Pow2(k) * c[j]), m);
    }
  }

  // ---------- congruent operands ----------

  lemma {:induction false} ProductCong(a: seq<int>, a': seq<int>, b: seq<int>, b': seq<int>, m: int)
    requires m > 0 && CongSeq(a, a', m) && CongSeq(b, b', m)
    ensures CongSeq(Product(a, b), Product(a', b'), m)
  {
    hide Cong;
    if a == [] {
      CongSeqRefl(Zeros(|b|), m);
    } else {
      var t, t' := Product(a[1..], b), Product(a'[1..], b');
      ProductCong(a[1..], a'[1..], b, b', m);
      var p, p' := Scale(b, a[0]) + Zeros(|a|), Scale(b', a'[0]) + Zeros(|a|);
      forall i | 0 <= i < |p|
        ensures Cong(Plus(p, [0] + t)[i], Plus(p', [0] + t')[i], m)
      {
        CongRefl(0, m);
        if i < |b| { CongMul(b[i], b'[i], a[0], a'[0], m); }
        if i > 0 { assert Cong(t[i - 1], t'[i - 1], m); }
        CongAdd(p[i], p'[i], ([0] + t)[i], ([0] + t')[i], m);
      }
    }
  }

  lemma {:induction false} CyclicCong(a: seq<int>, a': seq<int>, b: seq<int>, b': seq<int>, m: int)
    requires m > 0 && |a| == |b| && CongSeq(a, a', m) && CongSeq(b, b', m)
    ensures CongSeq(Cyclic(a, b), Cyclic(a', b'), m)
  {
    hide Cong, Product;
    ProductCong(a, a', b, b', m);
    var p, p', n := Product(a, b), Product(a', b'), |a|;
    forall i | 0 <= i < n
      ensures Cong(Cyclic(a, b)[i], Cyclic(a', b')[i], m)
    {
      CongAdd(p[i], p'[i], p[n + i], p'[n + i], m);
    }
  }

  lemma {:induction false} CongSeqTrans(a: seq<int>, b: seq<int>, c: seq<int>, m: int)
    requires m > 0 && CongSeq(a, b, m) && CongSeq(b, c, m)
    ensures CongSeq(a, c, m)
  {
    hide Cong;
    forall i | 0 <= i < |a| ensures Cong(a[i], c[i], m) { CongTrans(a[i], b[i], c[i], m); }
  }
}
