/** Division of a double word by a normalized word through a precomputed reciprocal. */
module WordDivision {
  import opened Arith
  import opened Limbs

  /** The reciprocal that `Udiv1Norm` expects: `floor((B^2 - 1) / d) - B`. */
  function Udiv1NormInit(d: Limb): (v: Limb)
    requires 2 * d >= B
    ensures IsReciprocal(d, v)
  {
    var a: nat := (-(d as int) - 1) % B * B + (B - 1);
    DivisionBracket(a, d);
    assert a == B * B - d * B - 1;
    ReciprocalFits(a, d);
    a / d
  }

  lemma {:induction false} DivisionBracket(a: nat, d: nat)
    requires d > 0
    ensures (a / d) * d <= a < (a / d + 1) * d
    ensures a == (a / d) * d + a % d
  {
  }

  lemma {:induction false} ReciprocalFits(a: nat, d: nat)
    requires d > 0 && a < B * d
    ensures a / d < B
  {
    var q := a / d;
    DivisionBracket(a, d);
    if q >= B { MulMono(d, B, q); }
  }

  /** With a small low word, the estimate `q` is the quotient or one less. */
  lemma {:induction false} EstimateLow(b: nat, d: nat, v: nat, a1: nat, a0: nat, q: nat)
    requires d < b <= 2 * d && a1 < d && 2 * a0 < b
    requires v * d <= b * b - d * b - 1 < (v + 1) * d
    requires q * b <= v * a1 + a0 + a1 * b < (q + 1) * b
    ensures q * d <= a1 * b + a0 < (q + 2) * d
  {
    // v * d == b^2 - d b - 1 - e with 0 <= e < d
    var e := b * b - d * b - 1 - v * d;
    assert 0 <= e < d;
    LowLower(b, d, v, e, a1, a0, q);
    LowUpper(b, d, v, e, a1, a0, q);
  }

  lemma {:induction false} LowIdentity(b: nat, d: nat, v: nat, e: int, a1: nat, a0: nat)
    requires v * d == b * b - d * b - 1 - e
    ensures d * (v * a1 + a0 + a1 * b) == b * (a1 * b + a0) - a0 * (b - d) - (1 + e) * a1
  {
    assert d * (v * a1) == (v * d) * a1 == (b * b - d * b - 1 - e) * a1;
  }

  lemma {:induction false} LowLower(b: nat, d: nat, v: nat, e: int, a1: nat, a0: nat, q: nat)
    requires 0 < d < b && 0 <= e && v * d == b * b - d * b - 1 - e
    requires q * b <= v * a1 + a0 + a1 * b
    ensures q * d <= a1 * b + a0
  {
    LowIdentity(b, d, v, e, a1, a0);
    Scale(q, b, d, v * a1 + a0 + a1 * b);
    MulMono(a0, 0, b - d);
    MulMono(a1, 0, 1 + e);
    CancelAtMost(b, q * d, a1 * b + a0);
  }

  /** Multiplying an estimate by the divisor. */
  lemma {:induction false} Scale(q: int, b: int, d: int, t: int)
    requires 0 <= d
    ensures q * b <= t ==> b * (q * d) <= d * t
    ensures t < q * b && 0 < d ==> d * t < b * (q * d)
  {
    assert d * (q * b) == b * (q * d);
    if q * b <= t { MulMono(d, q * b, t); }
    if t < q * b && 0 < d { MulStrict(d, t, q * b); }
  }

  lemma {:induction false} LowUpper(b: nat, d: nat, v: nat, e: int, a1: nat, a0: nat, q: nat)
    requires 0 < d < b <= 2 * d && 0 <= e < d && v * d == b * b - d * b - 1 - e
    requires a1 < d && 2 * a0 < b
    requires v * a1 + a0 + a1 * b < (q + 1) * b
    ensures a1 * b + a0 < (q + 2) * d
  {
    var t, n := v * a1 + a0 + a1 * b, a1 * b + a0;
    LowIdentity(b, d, v, e, a1, a0);
    Scale(q + 1, b, d, t);
    LowSlack(b, d, e, a1, a0);
    LastStep(b, q, d, n);
  }

  lemma {:induction false} LowSlack(b: nat, d: nat, e: int, a1: nat, a0: nat)
    requires d < b <= 2 * d && 0 <= e < d && a1 < d && 2 * a0 < b
    ensures a0 * (b - d) + (1 + e) * a1 <= b * d
  {
    LowSlackCore(b - d, d, 1 + e, a1, a0);
  }

  lemma {:induction false} LowSlackCore(g: nat, d: nat, e: nat, a1: nat, a0: nat)
    requires e <= d && a1 <= d && a0 <= d
    ensures a0 * g + e * a1 <= (g + d) * d
  {
    MulMono(g, a0, d);
    ProductBound(e, a1, d);
  }

  lemma {:induction false} LastStep(b: int, q: int, d: int, n: int)
    requires 0 < b && b * n < b * ((q + 1) * d) + b * d
    ensures n < (q + 2) * d
  {
    assert (q + 1) * d + d == (q + 2) * d;
    MulDist(b, (q + 1) * d, d);
    CancelLess(b, n, (q + 2) * d);
  }

  /** The same with a large low word, for which the code adds `d` and bumps the high word. */
  lemma {:induction false} EstimateHigh(b: nat, d: nat, v: nat, a1: nat, a0: nat, q: nat)
    requires d < b <= 2 * d && a1 < d && b <= 2 * a0 && a0 < b
    requires v * d <= b * b - d * b - 1 < (v + 1) * d
    requires q * b <= v * (a1 + 1) + (a0 + d - b) + a1 * b < (q + 1) * b
    ensures q * d <= a1 * b + a0 < (q + 2) * d
  {
    var e := b * b - d * b - 1 - v * d;
    assert 0 <= e < d;
    HighLower(b, d, v, e, a1, a0, q);
    HighUpper(b, d, v, e, a1, a0, q);
  }

  lemma {:induction false} HighIdentity(b: nat, d: nat, v: nat, e: int, a1: nat, a0: nat)
    requires v * d == b * b - d * b - 1 - e
    ensures d * (v * (a1 + 1) + (a0 + d - b) + a1 * b)
         == b * (a1 * b + a0) + (b - d) * (b - d) - a0 * (b - d) - (1 + e) * (a1 + 1)
  {
    calc {
      d * (v * (a1 + 1) + (a0 + d - b) + a1 * b);
      (v * d) * (a1 + 1) + d * (a0 + d - b) + a1 * b * d;
      (b * b - d * b - 1 - e) * (a1 + 1) + d * (a0 + d - b) + a1 * b * d;
      (b * b) * a1 + b * b - d * b * a1 - d * b - (1 + e) * (a1 + 1) + d * a0 + d * d - d * b + a1 * b * d;
      b * (a1 * b + a0) + (b - d) * (b - d) - a0 * (b - d) - (1 + e) * (a1 + 1);
    }
  }

  lemma {:induction false} HighLower(b: nat, d: nat, v: nat, e: int, a1: nat, a0: nat, q: nat)
    requires 0 < d < b <= 2 * d && 0 <= e && v * d == b * b - d * b - 1 - e
    requires b <= 2 * a0
    requires q * b <= v * (a1 + 1) + (a0 + d - b) + a1 * b
    ensures q * d <= a1 * b + a0
  {
    HighIdentity(b, d, v, e, a1, a0);
    Scale(q, b, d, v * (a1 + 1) + (a0 + d - b) + a1 * b);
    MulMono(b - d, b - d, a0);
    MulMono(1 + e, 0, a1 + 1);
    CancelAtMost(b, q * d, a1 * b + a0);
  }

  lemma {:induction false} HighUpper(b: nat, d: nat, v: nat, e: int, a1: nat, a0: nat, q: nat)
    requires 0 < d < b && 0 <= e < d && v * d == b * b - d * b - 1 - e
    requires a1 < d && a0 < b
    requires v * (a1 + 1) + (a0 + d - b) + a1 * b < (q + 1) * b
    ensures a1 * b + a0 < (q + 2) * d
  {
    var t, n := v * (a1 + 1) + (a0 + d - b) + a1 * b, a1 * b + a0;
    HighIdentity(b, d, v, e, a1, a0);
    Scale(q + 1, b, d, t);
    HighSlack(b, d, e, a1, a0);
    LastStep(b, q, d, n);
  }

  lemma {:induction false} HighSlack(b: nat, d: nat, e: int, a1: nat, a0: nat)
    requires d < b && 0 <= e < d && a1 < d && a0 < b
    ensures a0 * (b - d) + (1 + e) * (a1 + 1) - (b - d) * (b - d) <= b * d
  {
    MulMono(1 + e, a1 + 1, d);
    MulMono(d, 1 + e, d);
    MulMono(b - d, a0, b);
    assert b * (b - d) + d * d - (b - d) * (b - d) == d * b;
  }

  /** Bitwise and with a word that is all zeros or all ones. */
  function MaskAnd(mask: Limb, x: Limb): (r: Limb)
    requires mask == 0 || mask == B - 1
    ensures r == if mask == 0 then 0 else x
  {
    if mask == 0 then 0 else x
  }

  ghost predicate IsReciprocal(d: Limb, v: Limb) {
    2 * d >= B && v as int * d <= B * B - d * B - 1 < (v as int + 1) * d
  }

  /** The sign bit of the low word, spread over a word. */
  function SignMask(a0: Limb): (m: Limb)
    ensures m == 0 || m == B - 1
    ensures m == 0 <==> a0 < B / 2
  {
    if a0 >= B / 2 then B - 1 else 0
  }

  function AdjustedLow(a0: Limb, d: Limb): (r: Limb)
    requires 2 * d >= B
    ensures r as int == if a0 >= B / 2 then a0 as int + d - B else a0
  {
    (a0 + MaskAnd(SignMask(a0), d)) % B
  }

  function BumpedHigh(a1: Limb, a0: Limb): (r: Limb)
    requires a1 < B - 1
    ensures r as int == if a0 >= B / 2 then a1 as int + 1 else a1
  {
    (a1 - SignMask(a0)) % B
  }

  /** The quotient estimate: exact or one too small. */
  function Estimate(a1: Limb, a0: Limb, d: Limb, v: Limb): (q: Limb)
    requires IsReciprocal(d, v) && a1 < d
    ensures q as int * d <= a1 * B + a0 < (q as int + 2) * d
  {
    var t: nat := v as nat * BumpedHigh(a1, a0) + AdjustedLow(a0, d);
    EstimateCorrect(a1, a0, d, v, t);
    HighWordPlus(t, a1)
  }

  function HighWordPlus(t: nat, a1: Limb): (q: Limb)
    requires t / B + a1 < B
    ensures q == t / B + a1
  {
    (t / B + a1) % B
  }

  lemma {:induction false} EstimateCorrect(a1: Limb, a0: Limb, d: Limb, v: Limb, t: nat)
    requires IsReciprocal(d, v) && a1 < d
    requires a0 < B / 2 ==> t == v as nat * a1 + a0
    requires a0 >= B / 2 ==> t == v as nat * (a1 as int + 1) + (a0 + d - B)
    ensures t / B + a1 < B
    ensures var q: int := t / B + a1; q * d <= a1 * B + a0 < (q + 2) * d
  {
    var q: int := t / B + a1;
    assert q * B <= t + a1 * B < (q + 1) * B;
    if a0 < B / 2 {
      EstimateLow(B, d, v, a1, a0, q);
    } else {
      EstimateHigh(B, d, v, a1, a0, q);
    }
    if q >= B {
      MulMono(d, B, q);
      MulMono(B, a1 as int + 1, d);
    }
  }

  /** Quotient and remainder of `a1 * B + a0` by `d`, as the code computes them. */
  function Udiv1Norm(a1: Limb, a0: Limb, d: Limb, v: Limb): (r: (Limb, Limb))
    requires IsReciprocal(d, v) && a1 < d
    ensures r.0 as int * d + r.1 == a1 * B + a0 && r.1 < d
  {
    var q: nat := Estimate(a1, a0, d, v);
    var n: nat := a1 as nat * B + a0;
    assert (q + 2) * d == q * d + 2 * d;
    FixQuotient(n, q, d, n - q * d - d);
    Correct(q, d, n - q * d - d)
  }

  /** The final correction by the sign of the wrapped remainder. */
  function Correct(q: nat, d: Limb, rest: int): (r: (Limb, Limb))
    requires q < B && -(d as int) <= rest < d as int && (rest >= 0 ==> q + 1 < B)
    ensures rest < 0 ==> r.0 as int == q && r.1 as int == rest + d
    ensures rest >= 0 ==> r.0 as int == q + 1 && r.1 as int == rest
  {
    var a: nat := rest % (B * B);
    var ah: Limb := a / B;
    ((q + 1 + ah) % B, (a % B + MaskAnd(ah, d)) % B)
  }

  lemma {:induction false} FixQuotient(n: nat, q: nat, d: Limb, rest: int)
    requires rest == n - q * d - d && -(d as int) <= rest < d as int && n < d * B && q < B
    ensures rest < 0 ==> q * d + (rest + d) == n
    ensures rest >= 0 ==> (q + 1) * d + rest == n && q + 1 < B
  {
    assert (q + 1) * d == q * d + d;
    if rest >= 0 && q + 1 >= B { MulMono(d, B, q + 1); }
  }
}
