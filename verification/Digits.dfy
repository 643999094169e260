/** Numbers as digit sequences in any base, and products of numbers as products of polynomials. */
module Digits {
  import opened Arith
  import opened Powers
  import opened Bits
  import opened Modular
  import opened Fourier

  /** The `n` low digits of `v` in base `d`, lowest first. */
  ghost function DigitsOf(v: nat, d: nat, n: nat): (r: seq<int>)
    requires d > 0
    ensures |r| == n
    decreases n
  {
    if n == 0 then [] else [v % d] + DigitsOf(v / d, d, n - 1)
  }

  lemma {:induction false} PowerPositive(d: nat, n: nat)
    requires d > 0
    ensures Power(d, n) >= 1
  {
    if n > 0 { PowerPositive(d, n - 1); MulMono(d, 1, Power(d, n - 1)); }
  }

  lemma {:induction false} QuotientBelow(v: nat, d: nat, p: int)
    requires d > 0 && v < d * p
    ensures v / d < p
  {
    var q := v / d;
    if q >= p { MulMono(d, p, q); }
  }

  lemma {:induction false} DigitsEval(v: nat, d: nat, n: nat)
    requires d > 0 && v < Power(d, n)
    ensures Eval(DigitsOf(v, d, n), d) == v
    decreases n
  {
    if n > 0 {
      var q, r, p := v / d, v % d, Power(d, n - 1);
      QuotientBelow(v, d, p);
      DigitsEval(q, d, n - 1);
      var s := DigitsOf(v, d, n);
      assert s[1..] == DigitsOf(q, d, n - 1) && s[0] == r;
      assert Eval(s, d) == r + d * q;
    }
  }

  lemma {:induction false} DigitsAt(v: nat, d: nat, n: nat, i: nat)
    requires d > 0 && i < n
    ensures Power(d, i) > 0 && DigitsOf(v, d, n)[i] == (v / Power(d, i)) % d
    decreases i
  {
    PowerPositive(d, i);
    if i > 0 {
      DigitsAt(v / d, d, n - 1, i - 1);
      DivDiv(v, d, Power(d, i - 1));
    } else {
      assert Power(d, 0) == 1;
    }
  }

  lemma {:induction false} DigitsRange(v: nat, d: nat, n: nat)
    requires d > 0
    ensures forall i :: 0 <= i < n ==> 0 <= DigitsOf(v, d, n)[i] <= d - 1
    decreases n
  {
    if n == 0 {
      assert DigitsOf(v, d, 0) == [];
    } else {
      DigitsRange(v / d, d, n - 1);
    }
  }

  lemma {:induction false} PowerOfPow2(w: nat, i: nat)
    ensures Power(Pow2(w), i) == Pow2(w * i)
  {
    if i == 0 {
      assert w * i == 0;
    } else {
      PowerOfPow2(w, i - 1);
      Pow2Add(w, w * (i - 1));
      assert w * i == w + w * (i - 1);
    }
  }

  // ---------- coefficients of a product ----------

  ghost predicate InRange(s: seq<int>, x: int) {
    forall i :: 0 <= i < |s| ==> 0 <= s[i] <= x
  }

  /** Each coefficient of the product is a sum of at most `|a|` products. */
  lemma {:induction false} ProductRange(a: seq<int>, b: seq<int>, x: nat, y: nat)
    requires InRange(a, x) && InRange(b, x) && y == x * x
    ensures InRange(Product(a, b), |a| * y)
  {
    if a != [] {
      var t := a[1..];
      ProductRange(t, b, x, y);
      var p, q := Scale(b, a[0]) + Zeros(|a|), [0] + Product(t, b);
      assert |a| * y == y + |t| * y;
      assert InRange(p, y) by { ScaledRange(b, a[0], x, y, |a|); }
      assert |t| * y >= 0;
      assert Product(a, b) == Plus(p, q);
    }
  }

  lemma {:induction false} ScaledRange(b: seq<int>, c: int, x: nat, y: nat, n: nat)
    requires InRange(b, x) && 0 <= c <= x && y == x * x
    ensures InRange(Scale(b, c) + Zeros(n), y)
  {
    forall i | 0 <= i < |b|
      ensures 0 <= Scale(b, c)[i] <= y
    {
      ProductBound(b[i], c, x);
    }
  }

  lemma {:induction false} EvalAtLeast(s: seq<int>, d: nat, i: nat, x: int)
    requires d > 0 && InRange(s, x) && i < |s|
    ensures 0 <= Eval(s[1..], d) && s[i] * Power(d, i) <= Eval(s, d)
  {
    EvalNonNegative(s[1..], d, x);
    var e: int := Eval(s[1..], d);
    assert Eval(s, d) == s[0] + d * e;
    if i == 0 {
      MulMono(d, 0, e);
      assert Power(d, 0) == 1;
    } else {
      EvalAtLeast(s[1..], d, i - 1, x);
      var c, p := s[i], Power(d, i - 1);
      MulMono(d, c * p, e);
      Rotate(d, c, p);
      assert Power(d, i) == d * p;
    }
  }

  lemma {:induction false} Rotate(d: int, c: int, p: int)
    ensures d * (c * p) == c * (d * p)
  {
  }

  lemma {:induction false} EvalNonNegative(s: seq<int>, d: nat, x: int)
    requires InRange(s, x)
    ensures 0 <= Eval(s, d)
  {
    if s != [] {
      EvalNonNegative(s[1..], d, x);
      MulMono(d, 0, Eval(s[1..], d));
    }
  }

  /** A coefficient at or above position `n` of a number below `d^n` is zero. */
  lemma {:induction false} NoHighCoefficient(s: seq<int>, d: nat, n: nat, i: nat, x: int)
    requires d > 0 && InRange(s, x) && n <= i < |s| && Eval(s, d) < Power(d, n)
    ensures s[i] == 0
  {
    hide Power, Eval;
    EvalAtLeast(s, d, i, x);
    PowerAdd(d, n, i - n);
    PowerPositive(d, i - n);
    PowerPositive(d, n);
    var c, p, q := s[i], Power(d, n), Power(d, i - n);
    if c > 0 { LargeTerm(c, p, q); }
  }

  lemma {:induction false} LargeTerm(c: int, p: int, q: int)
    requires c >= 1 && p >= 1 && q >= 1
    ensures c * (p * q) >= p
  {
    MulMono(p, 1, q);
    MulMono(p * q, 1, c);
  }

  /** With enough digits the cyclic convolution of the digits does not wrap, so it evaluates to the product. */
  lemma {:induction false} CyclicIsProduct(x: nat, y: nat, d: nat, n: nat, e: nat)
    requires d > 0 && x * y < Power(d, n) && x < Power(d, n) && y < Power(d, n) && e == (d - 1) * (d - 1)
    ensures var c := Cyclic(DigitsOf(x, d, n), DigitsOf(y, d, n));
            Eval(c, d) == x * y && InRange(c, n * e)
  {
    hide Power, Eval, Product, DigitsOf;
    var a, b := DigitsOf(x, d, n), DigitsOf(y, d, n);
    var p := Product(a, b);
    DigitsEval(x, d, n);
    DigitsEval(y, d, n);
    EvalProduct(a, b, d);
    DigitsRange(x, d, n);
    DigitsRange(y, d, n);
    ProductRange(a, b, d - 1, e);
    FoldedHigh(p, d, n, n * e);
  }

  lemma {:induction false} FoldedHigh(p: seq<int>, d: nat, n: nat, x: int)
    requires d > 0 && |p| == 2 * n && InRange(p, x) && Eval(p, d) < Power(d, n)
    ensures Plus(p[..n], p[n..]) == p[..n] && Eval(p[..n], d) == Eval(p, d)
  {
    hide Power, Eval;
    forall i | n <= i < |p|
      ensures p[i] == 0
    {
      NoHighCoefficient(p, d, n, i, x);
    }
    assert p[n..] == Zeros(n);
    assert p == p[..n] + p[n..];
    EvalConcat(p[..n], p[n..], d);
    EvalZeros(n, d);
  }
}
