/** Why a quotient computed with an approximate inverse is never too large, and how far it may be off. */
module LargeQuotient {
  import opened Arith

  /** `f`, `e`, `g`, `nn`, `m` stand for powers of the limb base with `f * e == g`. */
  lemma {:induction false} QuotientBracket(a: nat, b: nat, inv: nat, ah: nat, q: nat, f: nat, e: nat, g: nat, nn: nat)
    requires 0 < f && f * e == g
    requires b * inv <= g < b * inv + 6 * nn
    requires q * f <= inv * ah < (q + 1) * f
    requires ah * e <= a < (ah + 1) * e
    requires ah < f && e <= nn && b < nn
    ensures q * b <= a < q * b + 8 * nn
  {
    NeverTooLarge(b, inv, ah, q, f, e, g);
    NotFarOff(b, inv, ah, q, f, e, g, nn);
    assert (ah + 1) * e == ah * e + e;
    assert (q + 1) * b == q * b + b;
  }

  lemma {:induction false} NeverTooLarge(b: nat, inv: nat, ah: nat, q: nat, f: nat, e: nat, g: nat)
    requires 0 < f && f * e == g && b * inv <= g && q * f <= inv * ah
    ensures q * b <= ah * e
  {
    MulMono(b, q * f, inv * ah);
    assert b * (q * f) == f * (q * b);
    assert b * (inv * ah) == ah * (b * inv);
    MulMono(ah, b * inv, g);
    assert ah * (f * e) == f * (ah * e);
    CancelAtMost(f, q * b, ah * e);
  }

  lemma {:induction false} NotFarOff(b: nat, inv: nat, ah: nat, q: nat, f: nat, e: nat, g: nat, nn: nat)
    requires 0 < f && f * e == g && g < b * inv + 6 * nn && inv * ah < (q + 1) * f && ah < f
    ensures ah * e <= (q + 1) * b + 6 * nn
  {
    MulMono(ah, g, b * inv + 6 * nn);
    assert ah * (f * e) == f * (ah * e);
    assert ah * (b * inv + 6 * nn) == b * (inv * ah) + 6 * (ah * nn);
    MulMono(b, inv * ah, (q + 1) * f);
    assert b * ((q + 1) * f) == f * ((q + 1) * b);
    MulMono(nn, ah, f);
    assert f * ((q + 1) * b) + 6 * (nn * f) == f * ((q + 1) * b + 6 * nn);
    CancelAtMost(f, ah * e, (q + 1) * b + 6 * nn);
  }

  /** The divisor padded with low zero limbs: `t == b * d`. */
  lemma {:induction false} PaddedInverse(b: nat, t: nat, inv: nat, d: nat, g: nat, nn: nat)
    requires 0 < d && t == b * d && b < nn
    requires t * inv <= g * d < t * (inv + 2)
    ensures b * inv <= g < b * inv + 6 * nn
  {
    assert t * inv == d * (b * inv);
    assert t * (inv + 2) == d * (b * (inv + 2));
    assert g * d == d * g;
    CancelAtMost(d, b * inv, g);
    CancelLess(d, g, b * (inv + 2));
    MulDist(b, inv, 2);
  }

  /** The divisor truncated to its top limbs and incremented: `(t - 1) * d <= b <= t * d`. */
  lemma {:induction false} TruncatedInverse(b: nat, t: nat, inv: nat, d: nat, p: nat, g: nat, nn: nat)
    requires 0 < d <= nn && p * d == nn && b < nn && g == (p * p) * d
    requires (t - 1) * d <= b <= t * d && inv <= 2 * p
    requires t * inv <= p * p < t * (inv + 2)
    ensures b * inv <= g < b * inv + 6 * nn
  {
    TruncatedUpper(b, t, inv, d, p * p);
    TruncatedLower(b, t, inv, d, p * p);
    Slack(inv, d, p);
  }

  lemma {:induction false} Slack(inv: nat, d: nat, p: nat)
    requires inv <= 2 * p
    ensures d * (inv + 2) <= 2 * (p * d) + 2 * d
  {
    MulMono(d, inv + 2, 2 * p + 2);
  }

  lemma {:induction false} TruncatedUpper(b: nat, t: nat, inv: nat, d: nat, pp: nat)
    requires b <= t * d && t * inv <= pp
    ensures b * inv <= pp * d
  {
    MulMono(inv, b, t * d);
    assert inv * (t * d) == d * (t * inv);
    MulMono(d, t * inv, pp);
  }

  lemma {:induction false} TruncatedLower(b: nat, t: nat, inv: nat, d: nat, pp: nat)
    requires 0 < d && (t - 1) * d <= b && pp < t * (inv + 2)
    ensures pp * d < b * inv + 2 * b + d * (inv + 2)
  {
    MulMono(inv + 2, (t - 1) * d, b);
    assert (inv + 2) * ((t - 1) * d) == d * (t * (inv + 2)) - d * (inv + 2);
    MulStrict(d, pp, t * (inv + 2));
    MulDist(b, inv, 2);
  }
}
