/** Facts about products that the solver is given one at a time. */
module Arith {

  /** `lo + p * hi`, as a name: relations stated with it can be passed on without looking at the product. */
  ghost function MulAdd(lo: int, p: int, hi: int): int { lo + p * hi }

  lemma {:induction false} MulAssoc(a: int, b: int, c: int)
    ensures a * (b * c) == (a * b) * c
  {
  }

  lemma {:induction false} MulDist(a: int, b: int, c: int)
    ensures a * (b + c) == a * b + a * c
  {
  }

  lemma {:induction false} MulMono(a: int, x: int, y: int)
    requires 0 <= a && x <= y
    ensures a * x <= a * y
  {
  }

  lemma {:induction false} MulStrict(a: int, x: int, y: int)
    requires 0 < a && x < y
    ensures a * x < a * y
  {
  }

  lemma {:induction false} BitTimes(b: int, x: int)
    requires 0 <= b <= 1
    ensures b * x == x * b == if b == 1 then x else 0
  {
  }

  /** A common positive factor can be dropped from an inequality. */
  lemma {:induction false} CancelLess(a: int, x: int, y: int)
    requires 0 < a && a * x < a * y
    ensures x < y
  {
    if x >= y { MulMono(a, y, x); }
  }

  lemma {:induction false} CancelAtMost(a: int, x: int, y: int)
    requires 0 < a && a * x <= a * y
    ensures x <= y
  {
    if x > y { MulStrict(a, y, x); }
  }

  lemma {:induction false} ProductBound(y: nat, b: nat, m: nat)
    requires y <= m && b <= m
    ensures y * b <= m * m
  {
    MulMono(y, b, m);
    MulMono(m, y, m);
  }

  /** A number below `p` added to a multiple of `p` does not reach the next multiple. */
  lemma {:induction false} ScaledLess(low: int, p: int, x: int, y: int)
    requires 0 <= low < p && x < y
    ensures low + p * x < p * y
  {
    MulMono(p, x + 1, y);
    MulDist(p, x, 1);
  }

  lemma {:induction false} Factor(v: int, y: int, p: int, b: int)
    ensures (v + y * p) * b == v * b + (y * b) * p
  {
    MulAssoc(y, p, b);
    MulAssoc(y, b, p);
  }

  /** Floor division, known by its bracket. */
  function Quotient(a: nat, d: nat): (q: nat)
    requires d > 0
    ensures q * d <= a < (q + 1) * d
  {
    a / d
  }
}
