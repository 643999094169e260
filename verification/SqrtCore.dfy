/** The Karatsuba square root step over plain integers: from the root of the high digits to the
    root of the whole number, in any base `l`. */
module SqrtCore {
  import opened Arith

  /** `s` is the floor of the square root of `a` and `r` what it leaves. */
  ghost predicate IsRoot(a: int, s: int, r: int) {
    a == MulAdd(r, s, s) && 0 <= r <= 2 * s
  }

  lemma {:induction false} RootOrder(a: int, s: int, r: int, s': int, r': int)
    requires IsRoot(a, s, r) && IsRoot(a, s', r')
    ensures s >= s'
  {
    assert (s + 1) * (s + 1) == s * s + 2 * s + 1;
    if s < s' {
      MulMono(s', s + 1, s');
      MulMono(s + 1, s + 1, s');
    }
  }

  /** The candidate root before the sign of its remainder is known. */
  lemma {:induction false} CandidateIdentity(hi: int, m: int, a: int, s1: int, r1: int, q: int, u: int, c1: int,
                                             c0: int, l: int, s: int, r: int)
    requires hi == s1 * s1 + r1 && r1 * l + c1 == q * (2 * s1) + u
    requires m == hi * l + c1 && a == m * l + c0
    requires s == s1 * l + q && r == u * l + c0 - q * q
    ensures a == s * s + r
  {
    assert hi * l == (s1 * s1) * l + r1 * l;
    var x, y := (s1 * s1) * l, 2 * (s1 * q);
    assert m == x + y + u;
    assert m * l == x * l + y * l + u * l;
    SquareOfSum(s1 * l, q);
    assert (s1 * l) * (s1 * l) == x * l;
    assert 2 * ((s1 * l) * q) == y * l;
  }

  lemma {:induction false} SquareOfSum(x: int, y: int)
    ensures (x + y) * (x + y) == x * x + 2 * (x * y) + y * y
  {
  }

  /** The quotient never exceeds the base; with a normalized high root, `q^2` fits under `2 s1 l`. */
  lemma {:induction false} QuotientAtMostBase(s1: int, r1: int, q: int, u: int, c1: int, l: int)
    requires 0 < l <= 2 * s1 && 0 <= r1 <= 2 * s1 && 0 <= c1 < l && 0 <= u
    requires r1 * l + c1 == q * (2 * s1) + u
    ensures q <= l
  {
    MulMono(l, r1, 2 * s1);
    assert (2 * s1) * (l + 1) == l * (2 * s1) + 2 * s1;
    if q > l { MulMono(2 * s1, l + 1, q); }
  }

  lemma {:induction false} CandidateRange(s1: int, q: int, u: int, c0: int, l: int)
    requires 0 < l <= 2 * s1 && 0 <= q <= l && 0 <= u < 2 * s1 && 0 <= c0 < l
    ensures u * l + c0 - q * q < 2 * (s1 * l + q)
    ensures u * l + c0 - q * q < 0 ==> 0 <= u * l + c0 - q * q + 2 * (s1 * l + q) - 1
  {
    CandidateProducts(s1, q, u, l);
    var ul, sl, qq := u * l, s1 * l, q * q;
    assert 0 <= ul && ul + l <= 2 * sl && 0 <= qq <= 2 * sl;
  }

  lemma {:induction false} CandidateProducts(s1: int, q: int, u: int, l: int)
    requires 0 < l <= 2 * s1 && 0 <= q <= l && 0 <= u < 2 * s1
    ensures 0 <= u * l && u * l + l <= 2 * (s1 * l) && 0 <= q * q <= 2 * (s1 * l)
  {
    RemainderProduct(s1, u, l);
    SquareProduct(s1, q, l);
  }

  lemma {:induction false} RemainderProduct(s1: int, u: int, l: int)
    requires 0 < l && 0 <= u < 2 * s1
    ensures 0 <= u * l && u * l + l <= 2 * (s1 * l)
  {
    MulMono(l, 0, u);
    MulMono(l, u + 1, 2 * s1);
    MulDist(l, u, 1);
  }

  lemma {:induction false} SquareProduct(s1: int, q: int, l: int)
    requires 0 < l <= 2 * s1 && 0 <= q <= l
    ensures 0 <= q * q <= 2 * (s1 * l)
  {
    ProductBound(q, q, l);
    MulMono(l, l, 2 * s1);
    MulMono(q, 0, q);
  }

  /** The step: take the candidate `s`, or one less when its remainder `r` is negative. `m` and `a`
      are the high part extended by one digit and by two. */
  lemma {:induction false} SqrtStep(hi: int, m: int, a: int, s1: int, r1: int, q: int, u: int, c1: int, c0: int, l: int,
                                    s: int, r: int)
    requires IsRoot(hi, s1, r1) && 0 < l <= 2 * s1
    requires MulAdd(c1, r1, l) == MulAdd(u, q, 2 * s1) && 0 <= q && 0 <= u < 2 * s1
    requires 0 <= c1 < l && 0 <= c0 < l
    requires m == MulAdd(c1, hi, l) && a == MulAdd(c0, m, l)
    requires s == MulAdd(q, s1, l) && r == MulAdd(c0, u, l) - q * q
    ensures q <= l
    ensures r >= 0 ==> IsRoot(a, s, r)
    ensures r < 0 ==> IsRoot(a, s - 1, r + 2 * (s - 1) + 1)
  {
    QuotientAtMostBase(s1, r1, q, u, c1, l);
    CandidateIdentity(hi, m, a, s1, r1, q, u, c1, c0, l, s, r);
    CandidateRange(s1, q, u, c0, l);
    OneLower(a, s, r);
  }

  lemma {:induction false} OneLower(a: int, s: int, r: int)
    requires a == s * s + r
    ensures a == MulAdd(r, s, s) && a == MulAdd(r + 2 * (s - 1) + 1, s - 1, s - 1)
  {
  }

  /** The root of a number with two leading bits to spare is itself normalized. */
  lemma {:induction false} RootNormalized(a: int, s: int, r: int, p: int)
    requires IsRoot(a, s, r) && 0 < p && p * p <= a
    ensures p <= s
  {
    assert (s + 1) * (s + 1) == s * s + 2 * s + 1;
    if s < p {
      MulMono(s + 1, s + 1, p);
      MulMono(p, s + 1, p);
    }
  }

  lemma {:induction false} RootBelow(a: int, s: int, r: int, p: int)
    requires IsRoot(a, s, r) && 0 < p && a < p * p
    ensures s < p
  {
    if s >= p {
      MulMono(s, p, s);
      MulMono(p, p, s);
    }
  }
}
