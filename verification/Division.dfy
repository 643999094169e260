/** Reciprocals by Newton's method, and the division built on them. */
module Division {
  import opened Arith
  import opened Limbs
  import opened Kernels
  import opened SchoolbookDivision
  import opened ReciprocalBounds
  import opened LargeQuotient

  const DIVNORM_LARGE_THRESHOLD := 50

  function Min(a: nat, b: nat): (m: nat)
    ensures m <= a && m <= b && (m == a || m == b)
  {
    if a < b then a else b
  }

  lemma {:induction false} NormalizedRange(s: seq<Limb>)
    requires IsDivisor(s)
    ensures Val(s) < Pow(|s|) <= 2 * Val(s)
  {
    var k := |s| - 1;
    TopLimb(s, k);
    ValBound(s);
    MulMono(Pow(k), B, 2 * (s[k] as int));
  }

  // ---------- one and two limb reciprocals ----------

  /** `tabu` set to the single limb one at position `k`. */
  method PowerTable(k: nat) returns (tabu: array<Limb>)
    ensures fresh(tabu) && tabu.Length == k + 1
    ensures Val(tabu[..]) == Pow(k)
  {
    tabu := new Limb[k + 1](i => 0);
    tabu[k] := 1;
    assert tabu[..] == seq(k, _ => 0) + [1];
    ValZeros(k);
    ValAppend(seq(k, _ => 0), 1);
  }

  /** Exact division of `B^(2n)`, lowered by one when it leaves no remainder. */
  lemma {:induction false} BaseReciprocal(q: nat, a: nat, r: nat, p: nat)
    requires p * p == q * a + r && r < a && 0 < p
    ensures r != 0 ==> IsReciprocalOf(a, q, p)
    ensures r == 0 ==> q >= 1 && IsReciprocalOf(a, q - 1, p)
  {
    MulStrict(p, 0, p);
    assert a * (q + 1) == q * a + a;
    assert a * (q + 2) == q * a + 2 * a;
    assert a * (q - 1) == q * a - a;
  }

  method CopyLimbs(dst: array<Limb>, d: nat, src: array<Limb>, o: nat, n: nat)
    requires d + n <= dst.Length && o + n <= src.Length && dst != src
    modifies dst
    ensures OnlyChanged(dst, d, n)
    ensures dst[d..d + n] == src[o..o + n]
  {
    for i := 0 to n
      invariant OnlyChanged(dst, d, i)
      invariant dst[d..d + i] == src[o..o + i]
    {
      dst[d + i] := src[o + i];
    }
  }

  // ---------- the Newton step ----------

  /** A top limb is non-zero exactly when the number reaches its weight. */
  lemma {:induction false} TopNonZero(s: seq<Limb>, k: nat)
    requires |s| == k + 1
    ensures s[k] != 0 <==> Val(s) >= Pow(k)
  {
    hide Val, Pow;
    TopLimb(s, k);
    var top: int := s[k];
    MulMono(Pow(k), 0, top);
    if top != 0 { MulMono(Pow(k), 1, top); }
  }

  /** Subtracts a shorter number: low limbs first, then the borrow from the rest. */
  method SubtractShorter(tabt: array<Limb>, taba: array<Limb>, ao: nat, n: nat, k: nat)
    requires n + k <= tabt.Length && ao + n <= taba.Length && taba != tabt && k > 0
    requires Val(taba[ao..ao + n]) <= Val(tabt[..n + k])
    modifies tabt
    ensures OnlyChanged(tabt, 0, n + k)
    ensures Val(tabt[..n + k]) == old(Val(tabt[..n + k])) - Val(taba[ao..ao + n])
  {
    ghost var xs, a := tabt[..n + k], Val(taba[ao..ao + n]);
    var c := MpSub(tabt, 0, taba, ao, n, 0);
    ghost var lo := tabt[0..n];
    assert tabt[n..n + k] == xs[n..] && xs[..n] == old(tabt[0..n]);
    var c' := MpSubUi(tabt, n, c, k);
    assert tabt[..n + k] == lo + tabt[n..n + k];
    ShorterDifference(xs, lo, tabt[n..n + k], c, c', a);
  }

  lemma {:induction false} ShorterDifference(xs: seq<Limb>, lo: seq<Limb>, hi: seq<Limb>, c: nat, c': nat, a: nat)
    requires |xs| == |lo| + |hi| && a <= Val(xs)
    requires Val(lo) + a == Val(xs[..|lo|]) + c * Pow(|lo|)
    requires IsDecrement(hi, c', xs[|lo|..], c)
    ensures Val(lo + hi) == Val(xs) - a
  {
    var n, k := |lo|, |hi|;
    ValSplit(xs, n);
    ValConcat(lo, hi);
    ValBound(lo);
    ValBound(hi);
    ScaledLess(Val(lo), Pow(n), Val(hi), Pow(k));
    ShorterArithmetic(Val(lo), Val(hi), Val(xs[..n]), Val(xs[n..]), Pow(n), Pow(k), c, c', a);
  }

  lemma {:induction false} ShorterArithmetic(lo: int, hi: int, x0: int, x1: int, p: int, q: int, c: int, c': nat,
                                             a: int)
    requires lo + a == x0 + c * p && hi + c == x1 + c' * q
    requires 0 <= lo + p * hi < p * q && a <= x0 + p * x1
    ensures lo + p * hi == x0 + p * x1 - a
  {
    MulDist(p, hi, c);
    MulDist(p, x1, c' * q);
    assert p * (c' * q) == c' * (p * q);
    NoBorrow(lo + p * hi, p * q, c', x0 + p * x1 - a);
  }

  /** One turn of the correction: `x` loses one, `t` loses `a`. */
  method LowerByOne(tabt: array<Limb>, tabr: array<Limb>, xo: nat, taba: array<Limb>, ao: nat, n: nat, h: nat)
    requires n + h + 1 <= tabt.Length && xo + h + 1 <= tabr.Length && ao + n <= taba.Length
    requires taba != tabt && taba != tabr && tabt != tabr
    requires 1 <= Val(tabr[xo..xo + h + 1]) && Val(taba[ao..ao + n]) <= Val(tabt[..n + h + 1])
    modifies tabt, tabr
    ensures OnlyChanged(tabt, 0, n + h + 1) && OnlyChanged(tabr, xo, h + 1)
    ensures Val(tabr[xo..xo + h + 1]) == old(Val(tabr[xo..xo + h + 1])) - 1
    ensures Val(tabt[..n + h + 1]) == old(Val(tabt[..n + h + 1])) - Val(taba[ao..ao + n])
  {
    ghost var x := Val(tabr[xo..xo + h + 1]);
    var k := MpSubUi(tabr, xo, 1, h + 1);
    ValBound(tabr[xo..xo + h + 1]);
    NoBorrow(Val(tabr[xo..xo + h + 1]), Pow(h + 1), k, x - 1);
    assert tabt[..n + (h + 1)] == tabt[..n + h + 1];
    SubtractShorter(tabt, taba, ao, n, h + 1);
    assert tabt[..n + (h + 1)] == tabt[..n + h + 1];
  }

  /** Lowers the estimate `x` until `a * x` no longer reaches `B^(n + h)`; `tabt` follows as `a * x`. */
  method LowerEstimate(tabt: array<Limb>, tabr: array<Limb>, xo: nat, taba: array<Limb>, ao: nat, n: nat, h: nat)
    requires 1 <= h <= n && n + h + 1 <= tabt.Length && xo + h + 1 <= tabr.Length && ao + n <= taba.Length
    requires taba != tabt && taba != tabr && tabt != tabr
    requires 0 < Val(taba[ao..ao + n])
    requires Val(tabt[..n + h + 1]) == Val(taba[ao..ao + n]) * Val(tabr[xo..xo + h + 1])
    requires Pow(n + h) < Val(taba[ao..ao + n]) * (Val(tabr[xo..xo + h + 1]) + 2)
    requires Pow(h) <= Val(tabr[xo..xo + h + 1])
    modifies tabt, tabr
    ensures OnlyChanged(tabt, 0, n + h + 1) && OnlyChanged(tabr, xo, h + 1)
    ensures Val(tabt[..n + h + 1]) == Val(taba[ao..ao + n]) * Val(tabr[xo..xo + h + 1])
    ensures Val(tabt[..n + h + 1]) < Pow(n + h) < Val(taba[ao..ao + n]) * (Val(tabr[xo..xo + h + 1]) + 2)
    ensures Pow(h) <= Val(tabr[xo..xo + h + 1])
  {
    ghost var a: int := Val(taba[ao..ao + n]);
    ghost var x: int, t: int := Val(tabr[xo..xo + h + 1]), Val(tabt[..n + h + 1]);
    TopNonZero(tabt[..n + h + 1], n + h);
    while tabt[n + h] != 0
      invariant OnlyChanged(tabt, 0, n + h + 1) && OnlyChanged(tabr, xo, h + 1)
      invariant x == Val(tabr[xo..xo + h + 1]) && t == Val(tabt[..n + h + 1])
      invariant t == a * x && Pow(n + h) < a * (x + 2) && Pow(h) <= x
      invariant tabt[n + h] != 0 <==> t >= Pow(n + h)
      decreases x
    {
      EstimateTooLarge(taba[ao..ao + n], x, n, h);
      LowerByOne(tabt, tabr, xo, taba, ao, n, h);
      x, t := x - 1, t - a;
      TopNonZero(tabt[..n + h + 1], n + h);
    }
  }

  lemma {:induction false} EstimateTooLarge(s: seq<Limb>, x: nat, n: nat, h: nat)
    requires |s| == n && h <= n && 0 < Val(s) && Pow(n + h) <= Val(s) * x
    ensures x >= 1 && Pow(h) <= x - 1
    ensures Pow(n + h) < Val(s) * ((x - 1) + 2)
    ensures Val(s) * (x - 1) == Val(s) * x - Val(s) && Val(s) <= Val(s) * x
  {
    var l := n - h;
    PowAdd(l, h);
    PowAdd(n, h);
    MulAssoc(Pow(l), Pow(h), Pow(h));
    ValBound(s);
    LowerOnce(Val(s), x, Pow(l), Pow(h));
    MulMono(Val(s), 1, x);
  }

  /** Replaces `t` by `B^k - t`, the increment of the top limb being left to wrap. */
  method Complement(tabt: array<Limb>, k: nat)
    requires k + 1 <= tabt.Length && 0 < Val(tabt[..k + 1]) < Pow(k)
    modifies tabt
    ensures OnlyChanged(tabt, 0, k + 1)
    ensures Val(tabt[..k + 1]) == Pow(k) - old(Val(tabt[..k + 1]))
  {
    ghost var t := Val(tabt[..k + 1]);
    var c := MpNeg(tabt, k + 1, 0);
    ghost var lo := tabt[..k];
    assert tabt[..k + 1] == lo + [tabt[k]];
    ValAppend(lo, tabt[k]);
    ValBound(lo);
    ghost var top: int := tabt[k];
    TopIsFull(Val(lo), top, Pow(k), t);
    tabt[k] := (tabt[k] + 1) % B;
    assert tabt[..k + 1] == lo + [tabt[k]];
    ValAppend(lo, tabt[k]);
  }

  /** In `B * p - t` with `t` below `p`, the top limb is all ones. */
  lemma {:induction false} TopIsFull(lo: nat, top: int, p: nat, t: nat)
    requires lo + top * p + t == B * p && lo < p && 0 < t < p && 0 <= top < B
    ensures top == B - 1 && lo == p - t
  {
    if top < B - 1 { MulMono(p, top, B - 2); }
  }

  /** Adds the truncated correction `u` to the shifted estimate. Neither the carry out of the addition
      nor the limbs of `u` above it are kept: both are zero. */
  method Assemble(tabr: array<Limb>, ro: nat, tabu: array<Limb>, uo: nat, l: nat, h: nat)
    requires ro + l + h + 1 <= tabr.Length && uo + l + h <= tabu.Length && tabr != tabu
    requires Pow(h) <= Val(tabr[ro + l..ro + l + h + 1])
    requires Val(tabr[ro + l..ro + l + h + 1]) * Pow(l) + Val(tabu[uo..tabu.Length]) < 2 * (Pow(l) * Pow(h))
    modifies tabr
    ensures OnlyChanged(tabr, ro, l + h + 1)
    ensures Val(tabr[ro..ro + l + h + 1]) == old(Val(tabr[ro + l..ro + l + h + 1])) * Pow(l)
            + Val(tabu[uo..tabu.Length])
    ensures tabr[ro + l + h] == 1
  {
    hide Val, Pow, IsSum;
    ghost var x, u := Val(tabr[ro + l..ro + l + h + 1]), Val(tabu[uo..tabu.Length]);
    ghost var xs, top := tabr[ro + l..ro + l + h], tabr[ro + l + h];
    SliceLast(tabr, ro + l, ro + l + h);
    CopyLimbs(tabr, ro, tabu, uo, l);
    ghost var lo, mid, hi := tabu[uo..uo + l], tabu[uo + l..uo + l + h], tabu[uo + l + h..tabu.Length];
    assert xs == tabr[ro + l..ro + l + h];
    var c := MpAdd(tabr, ro + l, tabu, uo + l, h, 0);
    ghost var rs := tabr[ro + l..ro + l + h];
    assert tabr[ro..ro + l] == lo;
    SliceLast(tabr, ro + l, ro + l + h);
    SliceJoin(tabr, ro, ro + l, ro + l + h + 1);
    SliceJoin(tabu, uo, uo + l, tabu.Length);
    SliceJoin(tabu, uo + l, uo + l + h, tabu.Length);
    Assembled(lo, mid, hi, xs, top, rs, c, x, u);
  }

  lemma {:induction false} Assembled(lo: seq<Limb>, mid: seq<Limb>, hi: seq<Limb>, xs: seq<Limb>, top: Limb,
                                     rs: seq<Limb>, c: Limb,
                                     x: nat, u: nat)
    requires IsSum(rs, c, xs, mid, 0)
    requires x == Val(xs + [top]) && u == Val(lo + (mid + hi))
    requires Pow(|xs|) <= x && x * Pow(|lo|) + u < 2 * (Pow(|lo|) * Pow(|xs|))
    ensures top == 1
    ensures Val(lo + (rs + [top])) == x * Pow(|lo|) + u
  {
    ValAppend(xs, top);
    ValAppend(rs, top);
    ValConcat(mid, hi);
    ValConcat(lo, mid + hi);
    ValConcat(lo, rs + [top]);
    ValBound(xs);
    AssembledArithmetic(Val(lo), Val(mid), Val(hi), Val(mid + hi), Val(xs), top, x,
                        Val(rs), Val(rs + [top]), c, Pow(|lo|), Pow(|xs|));
  }

  lemma {:induction false} AssembledArithmetic(lo: nat, mid: nat, hi: nat, m: nat, xs: nat, top: nat, x: nat,
                            rs: nat, r: nat, c: nat, l: nat, h: nat)
    requires rs + c * h == xs + mid && xs < h <= x
    requires m == mid + h * hi && x == xs + top * h && r == rs + top * h
    requires x * l + (lo + l * m) < 2 * (l * h)
    ensures top == 1 && lo + l * r == x * l + (lo + l * m)
  {
    var extra := c + hi;
    assert x + m == r + h * extra by { MulDist(h, c, hi); }
    MulDist(l, x, m);
    MulDist(l, r, h * extra);
    MulAssoc(l, h, extra);
    MulDist(l, rs, top * h);
    assert l * (top * h) == (l * h) * top;
    SmallMultiple(l * h, top, extra, l * rs + lo, xs, h);
  }

  lemma {:induction false} SmallMultiple(p: nat, top: nat, extra: nat, rest: nat, xs: nat, h: nat)
    requires xs < h <= xs + top * h
    requires rest + p * top + p * extra < 2 * p
    ensures top == 1 && extra == 0
  {
    if top >= 2 { MulMono(p, 2, top); MulMono(p, 0, extra); }
    if extra >= 1 { MulMono(p, 1, extra); MulMono(p, 1, top); }
  }

  /** Powers of the base as they occur in the Newton step. */
  lemma {:induction false} NewtonPowers(n: nat, l: nat, h: nat)
    requires l < h && n == l + h
    ensures Pow(n) == Pow(l) * Pow(h)
    ensures Pow(n + h) == Pow(l) * (Pow(h) * Pow(h))
    ensures Pow(2 * h - l) * Pow(l) == Pow(h) * Pow(h)
    ensures 8 * Pow(l) <= Pow(h)
  {
    PowAdd(l, h);
    PowAdd(n, h);
    MulAssoc(Pow(l), Pow(h), Pow(h));
    PowAdd(2 * h - l, l);
    PowAdd(h, h);
    PowMono(l, h);
  }

  /** The Newton step: what the truncated products add up to is again a reciprocal. */
  lemma {:induction false} NewtonStep(a: nat, x: nat, t: nat, tm: nat, u: nat, r: nat, n: nat, l: nat, h: nat)
    requires l < h && n == l + h && a < Pow(n) <= 2 * a
    requires a * x + t == Pow(n + h) && 0 < t < 2 * a
    requires tm * Pow(l) <= t < (tm + 1) * Pow(l) && u == tm * x
    requires r * Pow(2 * h - l) <= u < (r + 1) * Pow(2 * h - l)
    ensures IsReciprocalOf(a, x * Pow(l) + r, Pow(n))
    ensures x * Pow(l) + r < 2 * (Pow(l) * Pow(h))
  {
    NewtonPowers(n, l, h);
    NewtonUpper(a, x, t, tm, u, r, Pow(l), Pow(h), Pow(2 * h - l));
    NewtonLower(a, x, t, tm, u, r, Pow(l), Pow(h), Pow(2 * h - l));
    ReciprocalRange(a, x * Pow(l) + r, Pow(n));
  }

  /** Dropping the low limbs of a table divides by their weight. */
  lemma {:induction false} DropLow(s: seq<Limb>, k: nat)
    requires k <= |s|
    ensures Val(s[k..]) * Pow(k) <= Val(s) < (Val(s[k..]) + 1) * Pow(k)
  {
    ValSplit(s, k);
    ValBound(s[..k]);
    hide Val, Pow;
    Bracket(Val(s), Val(s[..k]), Pow(k), Val(s[k..]));
  }

  lemma {:induction false} Bracket(v: int, lo: int, p: int, w: int)
    requires v == lo + p * w && 0 <= lo < p
    ensures w * p <= v < (w + 1) * p
  {
  }

  /** The residual `B^(n+h) - a * x` of an estimate, after lowering `x` where needed. */
  ghost predicate IsResidual(a: nat, x: nat, t: nat, n: nat, h: nat) {
    a * x + t == Pow(n + h) && 0 < t < 2 * a && Pow(h) <= x
  }

  lemma {:induction false} LiftToFull(s: seq<Limb>, x: nat, l: nat, h: nat)
    requires l < h && |s| == l + h && IsDivisor(s) && IsReciprocalOf(Val(s[l..]), x, Pow(h))
    ensures Pow(|s| + h) < Val(s) * (x + 2)
    ensures Pow(h) <= x && 0 < Val(s)
  {
    NewtonPowers(|s|, l, h);
    ValSplit(s, l);
    LiftedReciprocal(Val(s[l..]), Val(s[..l]), Val(s), Pow(l), Pow(h), x);
    assert IsDivisor(s[l..]);
    NormalizedRange(s[l..]);
    NormalizedRange(s);
    ReciprocalRange(Val(s[l..]), x, Pow(h));
  }

  lemma {:induction false} ResidualBounds(a: nat, x: nat, y: nat, n: nat, h: nat)
    requires y == a * x && y < Pow(n + h) < a * (x + 2) && Pow(h) <= x && 0 < a
    ensures 0 < y && IsResidual(a, x, Pow(n + h) - y, n, h)
  {
    MulMono(a, 1, x);
    MulDist(a, x, 2);
  }

  method NewtonResidual(tabr: array<Limb>, xo: nat, taba: array<Limb>, ao: nat, n: nat, l: nat, h: nat)
    returns (tabt: array<Limb>)
    requires 1 <= l < h && n == l + h && xo + h + 1 <= tabr.Length && ao + n <= taba.Length && tabr != taba
    requires IsDivisor(taba[ao..ao + n])
    requires IsReciprocalOf(Val(taba[ao + l..ao + n]), Val(tabr[xo..xo + h + 1]), Pow(h))
    modifies tabr
    ensures OnlyChanged(tabr, xo, h + 1)
    ensures fresh(tabt) && tabt.Length == n + h + 1
    ensures IsResidual(Val(taba[ao..ao + n]), Val(tabr[xo..xo + h + 1]), Val(tabt[..]), n, h)
  {
    hide Val, Pow, IsReciprocalOf, IsResidual;
    assert taba[ao..ao + n][l..] == taba[ao + l..ao + n];
    LiftToFull(taba[ao..ao + n], Val(tabr[xo..xo + h + 1]), l, h);
    tabt := new Limb[n + h + 1];
    MpMul(tabt, 0, taba, ao, n, tabr, xo, h + 1);
    assert tabt[..n + h + 1] == tabt[0..0 + n + (h + 1)];
    LowerEstimate(tabt, tabr, xo, taba, ao, n, h);
    ResidualBounds(Val(taba[ao..ao + n]), Val(tabr[xo..xo + h + 1]), Val(tabt[..n + h + 1]), n, h);
    Complement(tabt, n + h);
    assert tabt[..n + h + 1] == tabt[..];
  }

  /** Adds the correction `floor(t / B^l) * x`, scaled back, to the shifted estimate. */
  method NewtonCorrect(tabr: array<Limb>, ro: nat, tabt: array<Limb>, n: nat, l: nat, h: nat, ghost a: nat)
    requires 1 <= l < h && n == l + h && ro + n + 1 <= tabr.Length && tabt.Length == n + h + 1 && tabr != tabt
    requires a < Pow(n) <= 2 * a
    requires IsResidual(a, Val(tabr[ro + l..ro + l + h + 1]), Val(tabt[..]), n, h)
    modifies tabr
    ensures OnlyChanged(tabr, ro, n + 1)
    ensures tabr[ro + n] == 1
    ensures IsReciprocalOf(a, Val(tabr[ro..ro + n + 1]), Pow(n))
  {
    hide Val, Pow, IsReciprocalOf;
    var m := n + h + 1 - l;
    var tabu := new Limb[n + 2 * h - l + 2];
    MpMul(tabu, 0, tabt, l, m, tabr, ro + l, h + 1);
    var k := 2 * h - l;
    assert tabu[..] == tabu[0..0 + m + (h + 1)] && tabt[l..l + m] == tabt[..][l..]
           && tabu[..][k..] == tabu[k..tabu.Length];
    DropLow(tabt[..], l);
    DropLow(tabu[..], k);
    NewtonStep(a, Val(tabr[ro + l..ro + l + h + 1]), Val(tabt[..]), Val(tabt[..][l..]), Val(tabu[..]),
               Val(tabu[k..tabu.Length]), n, l, h);
    Assemble(tabr, ro, tabu, k, l, h);
  }

  // ---------- division through the inverse ----------

  /** The operand whose reciprocal is taken: the divisor padded with zero limbs, or its top
      limbs incremented so that the inverse stays too small. `full` reports that the increment
      carried out of the table. */
  method InverseOperand(tabb: array<Limb>, bo: nat, nb: nat, n: nat) returns (tabt: array<Limb>, full: bool)
    requires 1 <= nb && 1 <= n && bo + nb <= tabb.Length && IsDivisor(tabb[bo..bo + nb])
    ensures fresh(tabt) && tabt.Length == n
    ensures full ==> n < nb && Pow(n) * Pow(nb - n) - Pow(nb - n) <= Val(tabb[bo..bo + nb])
    ensures !full ==> IsDivisor(tabt[..])
    ensures !full && n >= nb ==> Val(tabt[..]) == Val(tabb[bo..bo + nb]) * Pow(n - nb)
    ensures !full && n < nb ==>
              (Val(tabt[..]) - 1) * Pow(nb - n) <= Val(tabb[bo..bo + nb]) <= Val(tabt[..]) * Pow(nb - n)
  {
    hide Val, Pow;
    tabt := new Limb[n](i => 0);
    ghost var vs := tabb[bo..bo + nb];
    full := false;
    if n >= nb {
      CopyLimbs(tabt, n - nb, tabb, bo, nb);
      assert tabt[..] == seq(n - nb, _ => 0) + vs;
      ValZeros(n - nb);
      ValConcat(seq(n - nb, _ => 0), vs);
    } else {
      CopyLimbs(tabt, 0, tabb, bo + nb - n, n);
      assert tabt[..] == vs[nb - n..];
      DropLow(vs, nb - n);
      var k := MpAddUi(tabt, 0, 1, n);
      assert tabt[0..0 + n] == tabt[..];
      full := k != 0;
      TopAfterIncrement(vs[nb - n..], tabt[..], k);
      Increments(Val(vs[nb - n..]), Val(tabt[..]), k, Pow(n), Pow(nb - n), Val(vs));
    }
  }

  lemma {:induction false} TopAfterIncrement(xs: seq<Limb>, rs: seq<Limb>, k: Limb)
    requires IsDivisor(xs) && IsIncrement(rs, k, xs, 1) && k <= 1
    ensures k == 0 ==> IsDivisor(rs)
    ensures k == 1 ==> Val(rs) == 0
  {
    var n := |xs| - 1;
    ValBound(xs);
    if k == 0 {
      TopLimb(xs, n);
      TopLimb(rs, n);
      TopMonotone(xs[n], Val(xs[..n]), rs[n], Val(rs[..n]), Pow(n));
    }
  }

  lemma {:induction false} TopMonotone(x: int, x0: nat, r: int, r0: nat, p: nat)
    requires r * p + r0 == x * p + x0 + 1 && r0 < p
    ensures r >= x
  {
    if r < x { ScaledLess(r0, p, r, x); }
  }

  lemma {:induction false} Increments(x: nat, r: nat, k: nat, p: nat, d: nat, v: nat)
    requires k <= 1 && r + k * p == x + 1 && (k == 1 ==> r == 0) && x * d <= v < (x + 1) * d
    ensures k == 1 ==> p * d - d <= v
    ensures k == 0 ==> (r - 1) * d <= v <= r * d
  {
  }

  /** `inv` is close enough to `B^(n + nb) / b`, from below. */
  ghost predicate IsInverse(b: nat, inv: nat, n: nat, nb: nat) {
    b * inv <= Pow(n + nb) < b * inv + 6 * Pow(nb)
  }

  lemma {:induction false} InverseOfPadded(vs: seq<Limb>, t: nat, inv: nat, n: nat)
    requires |vs| <= n && t == Val(vs) * Pow(n - |vs|) && IsReciprocalOf(t, inv, Pow(n))
    ensures IsInverse(Val(vs), inv, n, |vs|)
  {
    var nb := |vs|;
    ValBound(vs);
    PowAdd(n, n);
    PowAdd(n + nb, n - nb);
    PaddedInverse(Val(vs), t, inv, Pow(n - nb), Pow(n + nb), Pow(nb));
  }

  lemma {:induction false} InverseOfTruncated(vs: seq<Limb>, t: nat, inv: nat, n: nat)
    requires 1 <= n < |vs| && (t - 1) * Pow(|vs| - n) <= Val(vs) <= t * Pow(|vs| - n)
    requires t * inv <= Pow(n) * Pow(n) < t * (inv + 2) && inv <= 2 * Pow(n)
    ensures IsInverse(Val(vs), inv, n, |vs|)
  {
    var nb := |vs|;
    ValBound(vs);
    PowAdd(n, nb - n);
    PowAdd(n, n);
    PowAdd(n + n, nb - n);
    PowMono(nb - n, nb);
    TruncatedInverse(Val(vs), t, inv, Pow(nb - n), Pow(n), Pow(n + nb), Pow(nb));
  }

  lemma {:induction false} FullInverse(vs: seq<Limb>, n: nat)
    requires 1 <= n < |vs| && Pow(n) * Pow(|vs| - n) - Pow(|vs| - n) <= Val(vs)
    ensures IsInverse(Val(vs), Pow(n), n, |vs|)
  {
    ValBound(vs);
    PowAdd(n, |vs| - n);
    var p := Pow(n);
    MulDist(p, p, 2);
    assert (p - 1) * Pow(|vs| - n) == p * Pow(|vs| - n) - Pow(|vs| - n);
    InverseOfTruncated(vs, p, p, n);
  }

  /** Reading the top limbs of `inv * ah` as the quotient brackets the true one. */
  lemma {:induction false} EstimatedQuotient(xs: seq<Limb>, b: nat, inv: nat, ah: nat, q: nat, n: nat, nb: nat, nq: nat)
    requires |xs| == nq + nb && 1 <= nq <= n <= nq + 1 && n + 1 <= nq + nb && b < Pow(nb)
    requires IsInverse(b, inv, n, nb)
    requires ah == Val(xs[nq + nb - n - 1..])
    requires q * Pow(2 * n + 1 - nq) <= inv * ah < (q + 1) * Pow(2 * n + 1 - nq)
    ensures q * b <= Val(xs) < q * b + Pow(nb + 1)
  {
    var s, e := 2 * n + 1 - nq, nq + nb - n - 1;
    DropLow(xs, e);
    ValBound(xs[e..]);
    PowMono(n + 1, s);
    PowMono(e, nb);
    PowAdd(s, e);
    QuotientBracket(Val(xs), b, inv, ah, q, Pow(s), Pow(e), Pow(n + nb), Pow(nb));
  }

  /** Subtracting only the low limbs is enough when the difference fits into them. */
  lemma {:induction false} LowDifference(xs: seq<Limb>, ys: seq<Limb>, rs: seq<Limb>, k: nat, m: nat)
    requires m <= |xs| && m <= |ys| && |rs| == m && k <= 1
    requires IsDifference(rs, k, xs[..m], ys[..m], 0)
    requires Val(ys) <= Val(xs) < Val(ys) + Pow(m)
    ensures Val(rs) + Val(ys) == Val(xs)
  {
    ValSplit(xs, m);
    ValSplit(ys, m);
    ValBound(rs);
    LowDifferenceArithmetic(Val(rs), Val(xs[..m]), Val(ys[..m]), Val(xs[m..]), Val(ys[m..]), k, Pow(m));
  }

  lemma {:induction false} LowDifferenceArithmetic(r: int, x0: int, y0: int, x1: int, y1: int, k: int, p: int)
    requires r + y0 == x0 + k * p && 0 <= r < p
    requires y0 + p * y1 <= x0 + p * x1 < y0 + p * y1 + p
    ensures r + (y0 + p * y1) == x0 + p * x1
  {
    var c := x1 - y1 - k;
    assert p * c == p * x1 - p * y1 - k * p;
    CongruentInRange(r, x0 + p * x1 - (y0 + p * y1), p, c);
  }

  lemma {:induction false} CongruentInRange(r: int, d: int, p: int, c: int)
    requires 0 <= r < p && 0 <= d < p && d == r + p * c
    ensures r == d
  {
    if c >= 1 { MulMono(p, 1, c); }
    if c <= -1 { MulMono(p, c, -1); }
  }

  /** Replaces the low limbs of the dividend by what the estimated quotient leaves. */
  method SubtractEstimate(tabq: array<Limb>, taba: array<Limb>, ao: nat, na: nat, tabb: array<Limb>, bo: nat, nb: nat)
    requires 1 <= nb < na && ao + na <= taba.Length && bo + nb <= tabb.Length && na - nb + 1 <= tabq.Length
    requires taba != tabb && tabq != taba && tabq != tabb
    requires Val(tabq[..na - nb + 1]) * Val(tabb[bo..bo + nb]) <= Val(taba[ao..ao + na])
    requires Val(taba[ao..ao + na]) < Val(tabq[..na - nb + 1]) * Val(tabb[bo..bo + nb]) + Pow(nb + 1)
    modifies taba
    ensures OnlyChanged(taba, ao, nb + 1)
    ensures Val(taba[ao..ao + nb + 1])
            + Val(tabq[..na - nb + 1]) * Val(tabb[bo..bo + nb]) == old(Val(taba[ao..ao + na]))
  {
    hide Pow, Val, IsDifference;
    ghost var xs := taba[ao..ao + na];
    var tabt := new Limb[na + 1];
    MpMul(tabt, 0, tabq, 0, na - nb + 1, tabb, bo, nb);
    assert tabt[..] == tabt[0..0 + (na - nb + 1) + nb] && tabq[0..0 + (na - nb + 1)] == tabq[..na - nb + 1];
    var k := MpSub(taba, ao, tabt, 0, nb + 1, 0);
    assert xs[..nb + 1] == old(taba[ao..ao + (nb + 1)]) && tabt[..][..nb + 1] == tabt[0..0 + (nb + 1)];
    assert taba[ao..ao + (nb + 1)] == taba[ao..ao + nb + 1];
    LowDifference(xs, tabt[..], taba[ao..ao + nb + 1], k, nb + 1);
  }

  /** A table with one limb above the divisor is smaller than it iff that limb is zero and the rest compares less. */
  lemma {:induction false} BelowDivisor(rs: seq<Limb>, vs: seq<Limb>)
    requires |rs| == |vs| + 1
    ensures Val(rs) < Val(vs) <==> rs[|vs|] == 0 && Val(rs[..|vs|]) < Val(vs)
    ensures rs[|vs|] == 0 ==> Val(rs) == Val(rs[..|vs|])
  {
    TopLimb(rs, |vs|);
    TopNonZero(rs, |vs|);
    ValBound(vs);
    if rs[|vs|] == 0 { assert rs[|vs|] as int * Pow(|vs|) == 0; }
  }

  /** Counts the quotient up while the remainder still contains the divisor. */
  method RaiseQuotient(tabq: array<Limb>, taba: array<Limb>, ao: nat, nq: nat, tabb: array<Limb>, bo: nat, nb: nat,
                       ghost a: nat)
    requires 1 <= nb && ao + nb + 1 <= taba.Length && bo + nb <= tabb.Length && nq + 1 <= tabq.Length
    requires taba != tabb && tabq != taba && tabq != tabb
    requires IsDivisor(tabb[bo..bo + nb]) && a < Pow(nq + nb)
    requires Val(taba[ao..ao + nb + 1]) + Val(tabq[..nq + 1]) * Val(tabb[bo..bo + nb]) == a
    modifies taba, tabq
    ensures OnlyChanged(taba, ao, nb + 1) && OnlyChanged(tabq, 0, nq + 1)
    ensures Val(taba[ao..ao + nb]) + Val(tabq[..nq + 1]) * Val(tabb[bo..bo + nb]) == a
    ensures Val(taba[ao..ao + nb]) < Val(tabb[bo..bo + nb])
  {
    ghost var vs := tabb[bo..bo + nb];
    ghost var r: int, q: int := Val(taba[ao..ao + nb + 1]), Val(tabq[..nq + 1]);
    while true
      invariant OnlyChanged(taba, ao, nb + 1) && OnlyChanged(tabq, 0, nq + 1)
      invariant tabb[bo..bo + nb] == vs
      invariant r == Val(taba[ao..ao + nb + 1]) && q == Val(tabq[..nq + 1])
      invariant r + q * Val(vs) == a
      decreases r
    {
      BelowDivisor(taba[ao..ao + nb + 1], vs);
      assert taba[ao..ao + nb + 1][..nb] == taba[ao..ao + nb];
      var c := MpCmp(taba, ao, tabb, bo, nb);
      if taba[ao + nb] == 0 && c < 0 {
        return;
      }
      QuotientRoom(vs, r, q, a, nq);
      RaiseOnce(tabq, taba, ao, nq, tabb, bo, nb);
      r, q := r - Val(vs), q + 1;
    }
  }

  lemma {:induction false} QuotientRoom(vs: seq<Limb>, r: int, q: int, a: nat, nq: nat)
    requires IsDivisor(vs) && Val(vs) <= r && 0 <= q && r + q * Val(vs) == a && a < Pow(nq + |vs|)
    ensures q + 1 < Pow(nq + 1)
    ensures (r - Val(vs)) + (q + 1) * Val(vs) == a && 0 < Val(vs)
  {
    var v: int := Val(vs);
    NormalizedRange(vs);
    PowAdd(nq, |vs|);
    assert (q + 1) * v == q * v + v;
    QuotientBelow(q + 1, v, Pow(nq), Pow(|vs|));
  }

  /** A quotient by a normalized divisor is below twice the quotient of the weights. */
  lemma {:induction false} QuotientBelow(q: int, v: int, pq: int, p: int)
    requires 0 < p <= 2 * v && 0 <= pq && q * v < pq * p
    ensures q < 2 * pq
  {
    if q >= 2 * pq {
      MulMono(q, p, 2 * v);
      MulMono(p, 2 * pq, q);
    }
  }

  method RaiseOnce(tabq: array<Limb>, taba: array<Limb>, ao: nat, nq: nat, tabb: array<Limb>, bo: nat, nb: nat)
    requires 1 <= nb && ao + nb + 1 <= taba.Length && bo + nb <= tabb.Length && nq + 1 <= tabq.Length
    requires taba != tabb && tabq != taba && tabq != tabb
    requires Val(tabb[bo..bo + nb]) <= Val(taba[ao..ao + nb + 1])
    requires Val(tabq[..nq + 1]) + 1 < Pow(nq + 1)
    modifies taba, tabq
    ensures OnlyChanged(taba, ao, nb + 1) && OnlyChanged(tabq, 0, nq + 1)
    ensures Val(taba[ao..ao + nb + 1]) == old(Val(taba[ao..ao + nb + 1])) - Val(tabb[bo..bo + nb])
    ensures Val(tabq[..nq + 1]) == old(Val(tabq[..nq + 1])) + 1
  {
    ghost var xs := taba[ao..ao + nb + 1];
    var k := MpSub(taba, ao, tabb, bo, nb, 0);
    ghost var rs := taba[ao..ao + nb];
    var v := taba[ao + nb];
    var a, c := SubtractBorrow(v, k);
    taba[ao + nb] := a;
    assert taba[ao..ao + nb + 1] == rs + [a] && xs[..nb] == old(taba[ao..ao + nb]);
    SubtractTop(xs, rs, a, v, k, c, Val(tabb[bo..bo + nb]));
    ValBound(rs + [a]);
    assert tabq[0..0 + (nq + 1)] == tabq[..nq + 1];
    var k' := MpAddUi(tabq, 0, 1, nq + 1);
    assert tabq[0..0 + (nq + 1)] == tabq[..nq + 1];
    ValBound(tabq[..nq + 1]);
    ghost var p := Pow(nq + 1);
    if k' > 0 { MulMono(p, 1, k'); }
  }

  // ---------- the mutually recursive entry points ----------

  /** Division by a normalized divisor: `tabq` receives the quotient, whose top limb is at most
      one, and the low limbs of `taba` the remainder. */
  method MpDivNorm(tabq: array<Limb>, taba: array<Limb>, ao: nat, na: nat, tabb: array<Limb>, bo: nat, nb: nat)
    requires 1 <= nb <= na && ao + na <= taba.Length && bo + nb <= tabb.Length && na - nb + 1 <= tabq.Length
    requires taba != tabb && tabq != taba && tabq != tabb
    requires IsDivisor(tabb[bo..bo + nb])
    modifies taba, tabq
    ensures OnlyChanged(taba, ao, na) && OnlyChanged(tabq, 0, na - nb + 1)
    ensures tabq[na - nb] <= 1
    ensures IsDivision(old(taba[ao..ao + na]), tabb[bo..bo + nb], tabq[..na - nb + 1], taba[ao..ao + nb])
    decreases if Min(na - nb, nb) >= DIVNORM_LARGE_THRESHOLD then 3 else 0, 0
  {
    if nb == 1 {
      DivideByLimb(tabq, taba, ao, na, tabb, bo);
    } else if Min(na - nb, nb) >= DIVNORM_LARGE_THRESHOLD {
      MpDivNormLarge(tabq, taba, ao, na, tabb, bo, nb);
    } else {
      MpDivNormBase(tabq, taba, ao, na, tabb, bo, nb);
    }
  }

  method DivideByLimb(tabq: array<Limb>, taba: array<Limb>, ao: nat, na: nat, tabb: array<Limb>, bo: nat)
    requires 1 <= na && ao + na <= taba.Length && bo + 1 <= tabb.Length && na <= tabq.Length
    requires taba != tabb && tabq != taba && tabq != tabb
    requires IsDivisor(tabb[bo..bo + 1])
    modifies taba, tabq
    ensures OnlyChanged(taba, ao, na) && OnlyChanged(tabq, 0, na)
    ensures tabq[na - 1] <= 1
    ensures IsDivision(old(taba[ao..ao + na]), tabb[bo..bo + 1], tabq[..na], taba[ao..ao + 1])
  {
    ghost var xs := taba[ao..ao + na];
    var r := MpDiv1Norm(tabq, taba, ao, na, tabb[bo], 0);
    taba[ao] := r;
    assert tabb[bo..bo + 1] == [tabb[bo]] && taba[ao..ao + 1] == [r];
    OneLimb(tabb[bo]);
    OneLimb(r);
    TopQuotient(xs, tabb[bo..bo + 1], tabq[..na], na - 1);
  }

  /** The quotient by a normalized divisor exceeds the difference of lengths by one bit at most. */
  lemma {:induction false} TopQuotient(xs: seq<Limb>, vs: seq<Limb>, qs: seq<Limb>, nq: nat)
    requires IsDivisor(vs) && |xs| == nq + |vs| && |qs| == nq + 1
    requires Val(qs) * Val(vs) <= Val(xs)
    ensures qs[nq] <= 1
  {
    NormalizedRange(vs);
    ValBound(xs);
    PowAdd(nq, |vs|);
    QuotientBelow(Val(qs), Val(vs), Pow(nq), Pow(|vs|));
    TopLimb(qs, nq);
    var top: int := qs[nq];
    if top >= 2 { MulMono(Pow(nq), 2, top); }
  }

  /** A reciprocal of `taba`: `n + 1` limbs starting with a one. */
  method MpRecip(tabr: array<Limb>, ro: nat, taba: array<Limb>, ao: nat, n: nat)
    requires 1 <= n && ro + n + 1 <= tabr.Length && ao + n <= taba.Length && tabr != taba
    requires IsDivisor(taba[ao..ao + n])
    modifies tabr
    ensures OnlyChanged(tabr, ro, n + 1)
    ensures tabr[ro + n] == 1
    ensures IsReciprocalOf(Val(taba[ao..ao + n]), Val(tabr[ro..ro + n + 1]), Pow(n))
    decreases 1, n
  {
    hide Val, Pow, IsReciprocalOf, IsResidual;
    NormalizedRange(taba[ao..ao + n]);
    if n <= 2 {
      RecipByDivision(tabr, ro, taba, ao, n);
    } else {
      var l := (n - 1) / 2;
      var h := n - l;
      assert taba[ao + l..ao + l + h] == taba[ao..ao + n][l..];
      MpRecip(tabr, ro + l, taba, ao + l, h);
      var tabt := NewtonResidual(tabr, ro + l, taba, ao, n, l, h);
      NewtonCorrect(tabr, ro, tabt, n, l, h, Val(taba[ao..ao + n]));
    }
  }

  /** For one or two limbs: `ceil(B^(2n) / a) - 1` by the quadratic division. */
  method RecipByDivision(tabr: array<Limb>, ro: nat, taba: array<Limb>, ao: nat, n: nat)
    requires 1 <= n <= 2 && ro + n + 1 <= tabr.Length && ao + n <= taba.Length && tabr != taba
    requires IsDivisor(taba[ao..ao + n])
    modifies tabr
    ensures OnlyChanged(tabr, ro, n + 1)
    ensures tabr[ro + n] == 1
    ensures IsReciprocalOf(Val(taba[ao..ao + n]), Val(tabr[ro..ro + n + 1]), Pow(n))
    decreases 0, 1
  {
    var tabu := PowerTable(2 * n);
    var tabt := new Limb[n + 2];
    assert tabu[0..0 + (2 * n + 1)] == tabu[..];
    MpDivNorm(tabt, tabu, 0, 2 * n + 1, taba, ao, n);
    assert tabt[..2 * n + 1 - n + 1] == tabt[..] && tabu[0..0 + n] == tabu[..n];
    ShortReciprocal(tabr, ro, tabt, tabu, n, taba[ao..ao + n]);
  }

  /** Copies the quotient of `B^(2n)` and lowers it by one if the division was exact. */
  method ShortReciprocal(tabr: array<Limb>, ro: nat, tabt: array<Limb>, tabu: array<Limb>, n: nat, ghost vs: seq<Limb>)
    requires 1 <= n && ro + n + 1 <= tabr.Length && tabt.Length == n + 2 && n <= tabu.Length
    requires tabr != tabt && tabr != tabu && |vs| == n && IsDivisor(vs)
    requires Pow(2 * n) == Val(tabt[..]) * Val(vs) + Val(tabu[..n]) && Val(tabu[..n]) < Val(vs)
    modifies tabr
    ensures OnlyChanged(tabr, ro, n + 1)
    ensures tabr[ro + n] == 1
    ensures IsReciprocalOf(Val(vs), Val(tabr[ro..ro + n + 1]), Pow(n))
  {
    hide Pow, Val;
    PowAdd(n, n);
    NormalizedRange(vs);
    BaseReciprocal(Val(tabt[..]), Val(vs), Val(tabu[..n]), Pow(n));
    QuotientAtMost(Val(tabt[..]), Val(vs), Pow(n));
    PowMono(n, n + 1);
    TopZero(tabt[..], n + 1);
    CopyLimbs(tabr, ro, tabt, 0, n + 1);
    assert tabr[ro..ro + (n + 1)] == tabt[..][..n + 1];
    var nz := MpScanNz(tabu, n);
    ghost var q := Val(tabt[..]);
    if !nz {
      var k := MpSubUi(tabr, ro, 1, n + 1);
      ValBound(tabr[ro..ro + (n + 1)]);
      NoBorrow(Val(tabr[ro..ro + (n + 1)]), Pow(n + 1), k, q - 1);
    }
    assert tabr[ro..ro + (n + 1)] == tabr[ro..ro + n + 1];
    LeadingOne(tabr[ro..ro + n + 1], Val(vs), n);
  }

  lemma {:induction false} LeadingOne(rs: seq<Limb>, a: nat, n: nat)
    requires |rs| == n + 1 && a < Pow(n) <= 2 * a && IsReciprocalOf(a, Val(rs), Pow(n))
    ensures rs[n] == 1
  {
    ReciprocalRange(a, Val(rs), Pow(n));
    TopLimb(rs, n);
    var top: int := rs[n];
    if top >= 2 { MulMono(Pow(n), 2, top); }
  }

  /** Division through an approximate inverse; the quotient is raised until it is exact. */
  method MpDivNormLarge(tabq: array<Limb>, taba: array<Limb>, ao: nat, na: nat, tabb: array<Limb>, bo: nat, nb: nat)
    requires 2 <= nb < na && ao + na <= taba.Length && bo + nb <= tabb.Length && na - nb + 1 <= tabq.Length
    requires taba != tabb && tabq != taba && tabq != tabb
    requires IsDivisor(tabb[bo..bo + nb])
    modifies taba, tabq
    ensures OnlyChanged(taba, ao, na) && OnlyChanged(tabq, 0, na - nb + 1)
    ensures tabq[na - nb] <= 1
    ensures IsDivision(old(taba[ao..ao + na]), tabb[bo..bo + nb], tabq[..na - nb + 1], taba[ao..ao + nb])
    decreases 2, 0
  {
    hide Pow, Val, IsInverse;
    ghost var xs, vs := taba[ao..ao + na], tabb[bo..bo + nb];
    var nq := na - nb;
    var n := if nq < nb then nq + 1 else nq;
    var inv := ApproximateInverse(tabb, bo, nb, n);
    EstimateQuotient(tabq, taba, ao, na, inv, n, nq, nb, vs);
    SubtractEstimate(tabq, taba, ao, na, tabb, bo, nb);
    ValBound(xs);
    RaiseQuotient(tabq, taba, ao, nq, tabb, bo, nb, Val(xs));
    TopQuotient(xs, vs, tabq[..nq + 1], nq);
  }

  method ApproximateInverse(tabb: array<Limb>, bo: nat, nb: nat, n: nat) returns (inv: array<Limb>)
    requires 1 <= nb && 1 <= n && bo + nb <= tabb.Length && IsDivisor(tabb[bo..bo + nb])
    ensures fresh(inv) && inv.Length == n + 1
    ensures IsInverse(Val(tabb[bo..bo + nb]), Val(inv[..]), n, nb)
    decreases 2, -1
  {
    var tabt, full := InverseOperand(tabb, bo, nb, n);
    ghost var vs := tabb[bo..bo + nb];
    if full {
      inv := PowerTable(n);
      FullInverse(vs, n);
    } else {
      inv := new Limb[n + 1];
      assert tabt[0..0 + n] == tabt[..];
      MpRecip(inv, 0, tabt, 0, n);
      assert inv[0..0 + n + 1] == inv[..] && tabt[0..0 + n] == tabt[..] && tabb[bo..bo + nb] == vs;
      if n >= nb {
        InverseOfPadded(vs, Val(tabt[..]), Val(inv[..]), n);
      } else {
        NormalizedRange(tabt[..]);
        ReciprocalRange(Val(tabt[..]), Val(inv[..]), Pow(n));
        InverseOfTruncated(vs, Val(tabt[..]), Val(inv[..]), n);
      }
    }
  }

  method EstimateQuotient(tabq: array<Limb>, taba: array<Limb>, ao: nat, na: nat, inv: array<Limb>, n: nat, nq: nat,
                          nb: nat,
                          ghost vs: seq<Limb>)
    requires 2 <= nb && 1 <= nq <= n <= nq + 1 && na == nq + nb && n + 1 <= na
    requires ao + na <= taba.Length && nq + 1 <= tabq.Length && inv.Length == n + 1
    requires tabq != taba && tabq != inv && |vs| == nb
    requires IsInverse(Val(vs), Val(inv[..]), n, nb)
    modifies tabq
    ensures OnlyChanged(tabq, 0, nq + 1)
    ensures Val(tabq[..nq + 1]) * Val(vs) <= Val(taba[ao..ao + na]) < Val(tabq[..nq + 1]) * Val(vs) + Pow(nb + 1)
  {
    hide Val, Pow, IsInverse;
    ghost var xs := taba[ao..ao + na];
    var tabt := new Limb[2 * (n + 1)];
    var e := na - (n + 1);
    MpMul(tabt, 0, inv, 0, n + 1, taba, ao + e, n + 1);
    assert tabt[0..0 + (n + 1) + (n + 1)] == tabt[..] && inv[0..0 + (n + 1)] == inv[..];
    assert taba[ao + e..ao + e + (n + 1)] == xs[e..];
    var s := 2 * (n + 1) - (nq + 1);
    CopyLimbs(tabq, 0, tabt, s, nq + 1);
    assert tabq[0..0 + (nq + 1)] == tabq[..nq + 1] == tabt[..][s..];
    DropLow(tabt[..], s);
    ValBound(vs);
    EstimatedQuotient(xs, Val(vs), Val(inv[..]), Val(xs[e..]), Val(tabt[..][s..]), n, nb, nq);
  }

  lemma {:induction false} QuotientAtMost(q: nat, v: nat, p: nat)
    requires 0 < p <= 2 * v && q * v <= p * p
    ensures q <= 2 * p
  {
    if q > 2 * p {
      MulMono(q, p, 2 * v);
      MulStrict(p, 2 * p, q);
    }
  }
}
