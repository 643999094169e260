/** Congruences modulo a positive number, and polynomials over the integers read modulo it. */
module Modular {
  import opened Arith

  ghost predicate Cong(a: int, b: int, m: int)
    requires m > 0
  {
    (a - b) % m == 0
  }

  lemma {:induction false} CongIntro(a: int, b: int, m: int, k: int)
    requires m > 0 && a - b == k * m
    ensures Cong(a, b, m)
  {
    MultipleModulo(k, m);
  }

  lemma {:induction false} MultipleModulo(k: int, m: int)
    requires m > 0
    ensures (k * m) % m == 0
  {
    var q, r := (k * m) / m, (k * m) % m;
    assert k * m == q * m + r;
    assert (k - q) * m == r;
    if k - q >= 1 { MulMono(m, 1, k - q); }
    if k - q <= -1 { MulMono(m, k - q, -1); }
  }

  lemma {:induction false} CongElim(a: int, b: int, m: int) returns (k: int)
    requires m > 0 && Cong(a, b, m)
    ensures a - b == k * m
  {
    k := (a - b) / m;
  }

  lemma {:induction false} CongRefl(a: int, m: int)
    requires m > 0
    ensures Cong(a, a, m)
  {
    CongIntro(a, a, m, 0);
  }

  lemma {:induction false} CongSym(a: int, b: int, m: int)
    requires m > 0 && Cong(a, b, m)
    ensures Cong(b, a, m)
  {
    var k := CongElim(a, b, m);
    CongIntro(b, a, m, -k);
  }

  lemma {:induction false} CongTrans(a: int, b: int, c: int, m: int)
    requires m > 0 && Cong(a, b, m) && Cong(b, c, m)
    ensures Cong(a, c, m)
  {
    var k := CongElim(a, b, m);
    var l := CongElim(b, c, m);
    CongIntro(a, c, m, k + l);
  }

  lemma {:induction false} CongAdd(a: int, b: int, c: int, d: int, m: int)
    requires m > 0 && Cong(a, b, m) && Cong(c, d, m)
    ensures Cong(a + c, b + d, m) && Cong(a - c, b - d, m)
  {
    var k := CongElim(a, b, m);
    var l := CongElim(c, d, m);
    CongIntro(a + c, b + d, m, k + l);
    CongIntro(a - c, b - d, m, k - l);
  }

  lemma {:induction false} CongMul(a: int, b: int, c: int, d: int, m: int)
    requires m > 0 && Cong(a, b, m) && Cong(c, d, m)
    ensures Cong(a * c, b * d, m)
  {
    var k := CongElim(a, b, m);
    var l := CongElim(c, d, m);
    assert a * c - b * d == a * (c - d) + (a - b) * d;
    assert a * (l * m) == (a * l) * m && (k * m) * d == (k * d) * m;
    CongIntro(a * c, b * d, m, a * l + k * d);
  }

  /** Congruent numbers below the modulus are equal. */
  lemma {:induction false} CongEqual(a: int, b: int, m: int)
    requires m > 0 && 0 <= a < m && 0 <= b < m && Cong(a, b, m)
    ensures a == b
  {
    var k := CongElim(a, b, m);
    if k >= 1 { MulMono(m, 1, k); }
    if k <= -1 { MulMono(m, k, -1); }
  }

  // ---------- powers ----------

  ghost function Power(x: int, n: nat): int {
    if n == 0 then 1 else x * Power(x, n - 1)
  }

  lemma {:induction false} PowerAdd(x: int, a: nat, b: nat)
    ensures Power(x, a + b) == Power(x, a) * Power(x, b)
  {
    if a > 0 {
      PowerAdd(x, a - 1, b);
      MulAssoc(x, Power(x, a - 1), Power(x, b));
    }
  }

  lemma {:induction false} PowerMul(x: int, y: int, n: nat)
    ensures Power(x * y, n) == Power(x, n) * Power(y, n)
  {
    if n > 0 {
      PowerMul(x, y, n - 1);
      Regroup(x, y, Power(x, n - 1), Power(y, n - 1));
    }
  }

  lemma {:induction false} Regroup(x: int, y: int, p: int, q: int)
    ensures (x * y) * (p * q) == (x * p) * (y * q)
  {
  }

  lemma {:induction false} PowerPower(x: int, a: nat, b: nat)
    ensures Power(Power(x, a), b) == Power(x, a * b)
    decreases b
  {
    if b > 0 {
      PowerPower(x, a, b - 1);
      PowerAdd(x, a, a * (b - 1));
      assert a * b == a + a * (b - 1);
    } else {
      assert a * b == 0;
    }
  }

  lemma {:induction false} PowerOne(n: nat)
    ensures Power(1, n) == 1
  {
    if n > 0 { PowerOne(n - 1); }
  }

  lemma {:induction false} CongPower(x: int, y: int, n: nat, m: int)
    requires m > 0 && Cong(x, y, m)
    ensures Cong(Power(x, n), Power(y, n), m)
  {
    if n == 0 {
      CongRefl(1, m);
    } else {
      CongPower(x, y, n - 1, m);
      CongMul(x, y, Power(x, n - 1), Power(y, n - 1), m);
    }
  }

  // ---------- polynomials ----------

  /** The polynomial with coefficients `s`, lowest first, at `x`. */
  ghost function Eval(s: seq<int>, x: int): int {
    if s == [] then 0 else s[0] + x * Eval(s[1..], x)
  }

  /** Coefficients congruent one by one. */
  ghost predicate CongSeq(s: seq<int>, t: seq<int>, m: int)
    requires m > 0
  {
    |s| == |t| && forall i :: 0 <= i < |s| ==> Cong(s[i], t[i], m)
  }

  lemma {:induction false} EvalConcat(s: seq<int>, t: seq<int>, x: int)
    ensures Eval(s + t, x) == Eval(s, x) + Power(x, |s|) * Eval(t, x)
  {
    if s == [] {
      assert s + t == t;
    } else {
      EvalConcat(s[1..], t, x);
      assert (s + t)[1..] == s[1..] + t;
      MulDist(x, Eval(s[1..], x), Power(x, |s| - 1) * Eval(t, x));
      MulAssoc(x, Power(x, |s| - 1), Eval(t, x));
    }
  }

  lemma {:induction false} EvalCong(s: seq<int>, t: seq<int>, x: int, y: int, m: int)
    requires m > 0 && CongSeq(s, t, m) && Cong(x, y, m)
    ensures Cong(Eval(s, x), Eval(t, y), m)
  {
    if s == [] {
      CongRefl(0, m);
    } else {
      EvalCong(s[1..], t[1..], x, y, m);
      CongMul(x, y, Eval(s[1..], x), Eval(t[1..], y), m);
      CongAdd(s[0], t[0], x * Eval(s[1..], x), y * Eval(t[1..], y), m);
    }
  }

  ghost function Plus(s: seq<int>, t: seq<int>): (r: seq<int>)
    requires |s| == |t|
    ensures |r| == |s|
  {
    seq(|s|, i requires 0 <= i < |s| => s[i] + t[i])
  }

  ghost function Minus(s: seq<int>, t: seq<int>): (r: seq<int>)
    requires |s| == |t|
    ensures |r| == |s|
  {
    seq(|s|, i requires 0 <= i < |s| => s[i] - t[i])
  }

  /** Coefficient `i` multiplied by `c^i`. */
  ghost function Twist(s: seq<int>, c: int): (r: seq<int>)
    ensures |r| == |s|
  {
    seq(|s|, i requires 0 <= i < |s| => s[i] * Power(c, i))
  }

  ghost function Scale(s: seq<int>, c: int): (r: seq<int>)
    ensures |r| == |s|
  {
    seq(|s|, i requires 0 <= i < |s| => s[i] * c)
  }

  lemma {:induction false} EvalPlus(s: seq<int>, t: seq<int>, x: int)
    requires |s| == |t|
    ensures Eval(Plus(s, t), x) == Eval(s, x) + Eval(t, x)
  {
    if s != [] {
      EvalPlus(s[1..], t[1..], x);
      assert Plus(s, t)[1..] == Plus(s[1..], t[1..]);
      MulDist(x, Eval(s[1..], x), Eval(t[1..], x));
    }
  }

  lemma {:induction false} EvalMinus(s: seq<int>, t: seq<int>, x: int)
    requires |s| == |t|
    ensures Eval(Minus(s, t), x) == Eval(s, x) - Eval(t, x)
  {
    if s != [] {
      EvalMinus(s[1..], t[1..], x);
      assert Minus(s, t)[1..] == Minus(s[1..], t[1..]);
      MulDist(x, Eval(s[1..], x), -Eval(t[1..], x));
    }
  }

  lemma {:induction false} EvalScale(s: seq<int>, c: int, x: int)
    ensures Eval(Scale(s, c), x) == c * Eval(s, x)
  {
    if s != [] {
      EvalScale(s[1..], c, x);
      assert Scale(s, c)[1..] == Scale(s[1..], c);
      MulDist(c, s[0], x * Eval(s[1..], x));
      assert x * (c * Eval(s[1..], x)) == c * (x * Eval(s[1..], x));
    }
  }

  /** Twisting the coefficients moves the point. */
  lemma {:induction false} EvalTwist(s: seq<int>, c: int, x: int)
    ensures Eval(Twist(s, c), x) == Eval(s, c * x)
  {
    if s != [] {
      var t := s[1..];
      EvalTwist(t, c, x);
      assert Twist(s, c)[1..] == Scale(Twist(t, c), c) by { TwistTail(s, c); }
      EvalScale(Twist(t, c), c, x);
      assert x * (c * Eval(t, c * x)) == (c * x) * Eval(t, c * x);
      assert Twist(s, c)[0] == s[0];
    }
  }

  lemma {:induction false} TwistTail(s: seq<int>, c: int)
    requires s != []
    ensures Twist(s, c)[1..] == Scale(Twist(s[1..], c), c)
  {
    var l, r := Twist(s, c)[1..], Scale(Twist(s[1..], c), c);
    forall i | 0 <= i < |l|
      ensures l[i] == r[i]
    {
      assert l[i] == s[i + 1] * (c * Power(c, i));
      assert r[i] == (s[i + 1] * Power(c, i)) * c;
      assert s[i + 1] * (c * Power(c, i)) == (s[i + 1] * Power(c, i)) * c;
    }
  }
}
