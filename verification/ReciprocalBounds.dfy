/** The arithmetic of the Newton step for reciprocals, over plain integers.
    `l` and `h` stand for B^(low limbs) and B^(high limbs), so the full table is below `l * h`. */
module ReciprocalBounds {
  import opened Arith

  /** `x` approximates `p^2 / a` from below, by less than two units. */
  ghost predicate IsReciprocalOf(a: nat, x: nat, p: nat) {
    a * x < p * p < a * (x + 2)
  }

  /** An approximation of the reciprocal of a normalized number starts with a one. */
  lemma {:induction false} ReciprocalRange(a: nat, x: nat, p: nat)
    requires IsReciprocalOf(a, x, p) && a < p <= 2 * a
    ensures p <= x < 2 * p
  {
    MulMono(p + 1, a, p - 1);
    assert (p + 1) * (p - 1) == p * p - 1;
    MulMono(p, p, 2 * a);
    assert a * (2 * p) == (2 * a) * p;
    if x < p { MulMono(a, x + 2, p + 1); }
    if x >= 2 * p { MulMono(a, 2 * p, x); }
  }

  /** The recursive call's result, seen against the full operand. */
  lemma {:induction false} LiftedReciprocal(ah: nat, al: nat, a: nat, l: nat, h: nat, x: nat)
    requires IsReciprocalOf(ah, x, h) && l > 0 && a == al + l * ah
    ensures l * (h * h) < a * (x + 2)
  {
    MulStrict(l, h * h, ah * (x + 2));
    MulAssoc(l, ah, x + 2);
    MulMono(x + 2, l * ah, a);
  }

  /** One turn of the loop that lowers `x` until `a * x` is below `l * h^2`. */
  lemma {:induction false} LowerOnce(a: nat, x: nat, l: nat, h: nat)
    requires 0 < a < l * h && l * (h * h) <= a * x
    ensures x >= h + 1
    ensures l * (h * h) < a * ((x - 1) + 2)
    ensures a * (x - 1) == a * x - a
  {
    assert h > 0;
    MulStrict(h, a, l * h);
    assert h * (l * h) == l * (h * h);
    if x <= h { MulMono(a, x, h); }
    MulDist(a, x - 1, 1);
    assert a * (x + 1) == a * x + a;
  }

  /** Upper half of the Newton step: the new value stays below the true reciprocal. */
  lemma {:induction false} NewtonUpper(a: nat, x: nat, t: nat, tm: nat, u: nat, r: nat, l: nat, h: nat, k: nat)
    requires k * l == h * h && 0 < t && a * x + t == l * (h * h) && h > 0
    requires tm * l <= t && u == tm * x && r * k <= u
    ensures a * r < t * l
    ensures a * (x * l + r) < (l * h) * (l * h)
  {
    // r h^2 = r k l <= tm x l <= t x
    assert r * (h * h) <= t * x by {
      MulMono(l, r * k, tm * x);
      assert l * (r * k) == r * (h * h);
      MulMono(x, tm * l, t);
      assert l * (tm * x) == x * (tm * l);
    }
    // a r h^2 <= t (a x) < t l h^2
    assert (h * h) * (a * r) < (h * h) * (t * l) by {
      MulMono(a, r * (h * h), t * x);
      assert a * (r * (h * h)) == (h * h) * (a * r);
      MulStrict(t, a * x, l * (h * h));
      assert a * (t * x) == t * (a * x);
      assert t * (l * (h * h)) == (h * h) * (t * l);
    }
    CancelLess(h * h, a * r, t * l);
    Recombine(a, x, r, t, l, h);
  }

  lemma {:induction false} Recombine(a: nat, x: nat, r: nat, t: nat, l: nat, h: nat)
    requires a * x + t == l * (h * h)
    ensures a * (x * l + r) == (l * h) * (l * h) - t * l + a * r
  {
    MulDist(a, x * l, r);
    assert a * (x * l) == l * (a * x);
    MulDist(l, a * x, t);
    assert l * (l * (h * h)) == (l * h) * (l * h);
  }

  /** Lower half: the truncations cost less than two units. */
  lemma {:induction false} NewtonLower(a: nat, x: nat, t: nat, tm: nat, u: nat, r: nat, l: nat, h: nat, k: nat)
    requires k * l == h * h && a * x + t == l * (h * h) && t < 2 * a
    requires 0 < l && 8 * l <= h && a < l * h <= 2 * a
    requires t < (tm + 1) * l && u == tm * x && u < (r + 1) * k
    ensures (l * h) * (l * h) < a * (x * l + r + 2)
  {
    TruncationLoss(a, x, t, tm, r, l, h, k);
    NewtonSlack(a, t, l, h);
    MulStrict(h, 0, h);
    DropScale(h * h, t * l, a, r, t * t + (l * l) * (h * h));
    Recombine(a, x, r + 2, t, l, h);
  }

  lemma {:induction false} DropScale(hh: int, tl: int, a: int, r: int, loss: int)
    requires 0 < hh && hh * tl < hh * (a * (r + 1)) + loss && loss <= hh * a
    ensures tl < a * (r + 2)
  {
    MulDist(hh, a * (r + 1), a);
    MulDist(a, r + 1, 1);
    CancelLess(hh, tl, a * (r + 1) + a);
  }

  /** What the two truncations can take away, scaled by `h^2`. */
  lemma {:induction false} TruncationLoss(a: nat, x: nat, t: nat, tm: nat, r: nat, l: nat, h: nat, k: nat)
    requires k * l == h * h && a * x + t == l * (h * h) && 0 < a && 0 < l
    requires t < (tm + 1) * l && tm * x < (r + 1) * k
    ensures (h * h) * (t * l) < (h * h) * (a * (r + 1)) + t * t + (l * l) * (h * h)
  {
    LossProduct(a, x, tm, r, l, k);
    assert (tm + 1) * l == tm * l + l;
    MulMono(a * x, t - l, tm * l);
    LossIdentity(a * x, t, l, h * h);
    MulMono(l, 0, t);
  }

  lemma {:induction false} LossProduct(a: nat, x: nat, tm: nat, r: nat, l: nat, k: nat)
    requires 0 < a && 0 < l && tm * x < (r + 1) * k
    ensures (a * x) * (tm * l) < (k * l) * (a * (r + 1))
  {
    MulStrict(a * l, tm * x, (r + 1) * k);
    assert (a * l) * ((r + 1) * k) == (k * l) * (a * (r + 1));
    assert (a * l) * (tm * x) == (a * x) * (tm * l);
  }

  lemma {:induction false} LossIdentity(ax: int, t: int, l: int, hh: int)
    requires ax == l * hh - t
    ensures ax * (t - l) == hh * (t * l) - t * t - (l * l) * hh + l * t
  {
    assert (l * hh - t) * (t - l) == (l * hh) * t - (l * hh) * l - t * t + t * l;
    assert (l * hh) * t == hh * (t * l) && (l * hh) * l == (l * l) * hh;
  }

  lemma {:induction false} NewtonSlack(a: nat, t: nat, l: nat, h: nat)
    requires t < 2 * a && 8 * l <= h && a < l * h <= 2 * a
    ensures t * t + (l * l) * (h * h) <= (h * h) * a
  {
    // t^2 <= 4 a^2 <= 4 a l h, and l^2 h^2 = (l h)(l h) <= 2 a l h
    ProductBound(t, t, 2 * a);
    assert (2 * a) * (2 * a) == 4 * (a * a);
    MulMono(a, a, l * h);
    MulMono(l * h, l * h, 2 * a);
    assert (l * h) * (l * h) == (l * l) * (h * h);
    assert (l * h) * (2 * a) == 2 * (a * (l * h));
    // 6 a l h <= a h^2
    MulMono(a * h, 8 * l, h);
    assert (a * h) * (8 * l) == 8 * (a * (l * h));
    assert (a * h) * h == (h * h) * a;
  }
}
