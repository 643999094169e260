/** Arithmetic on tables of decimal limbs, in base 10^19. */
module DecimalKernels {
  import opened Arith
  import opened Powers
  import opened Limbs
  import opened Kernels
  import opened WordDivision
  import opened SchoolbookDivision
  import opened Modular
  import opened FastDivision
  import opened BigFloatBits
  import RadixConversion
  import Digits

  // ---------- values ----------

  const D: nat := BF_DEC_BASE

  /** Limbs below the base. */
  ghost predicate AllDec(s: seq<Limb>) { forall i :: 0 <= i < |s| ==> s[i] < D }

  /** The number a decimal table stands for. */
  ghost function DVal(s: seq<Limb>): int { Eval(s, D) }

  ghost function DPow(n: nat): int { Power(D, n) }

  lemma {:induction false} DNext(n: nat)
    ensures DPow(n + 1) == D * DPow(n) && DPow(n) >= 1 && DPow(0) == 1
  {
    Digits.PowerPositive(D, n);
  }

  lemma {:induction false} DConcat(s: seq<Limb>, t: seq<Limb>)
    ensures DVal(s + t) == DVal(s) + DPow(|s|) * DVal(t)
  {
    EvalConcat(s, t, D);
  }

  lemma {:induction false} DOne(x: Limb)
    ensures DVal([x]) == x && DVal([]) == 0
  {
    RadixConversion.OneDigit([x], D);
  }

  lemma {:induction false} DAppend(s: seq<Limb>, x: Limb)
    ensures DVal(s + [x]) == DVal(s) + x as int * DPow(|s|)
  {
    hide DVal, DPow;
    DConcat(s, [x]);
    DOne(x);
  }

  lemma {:induction false} DBound(s: seq<Limb>)
    requires AllDec(s)
    ensures 0 <= DVal(s) < DPow(|s|)
  {
    RadixConversion.DigitsOfEval(s, D);
  }

  // ---------- words ----------

  /** One limb of a sum and its carry, without a wider word. */
  function AddDec(v: Limb, y: Limb, k: Limb): (r: (Limb, Limb))
    requires v < D && y < D && k <= 1
    ensures r.0 < D && r.1 <= 1 && r.0 as int + r.1 as int * D == v as int + y + k
  {
    var a := (v as int + y + k - D) % B;
    if a <= v then (a, 1) else ((a + D) % B, 0)
  }

  function SubDec(v: Limb, y: Limb, k: Limb): (r: (Limb, Limb))
    requires v < D && y < D && k <= 1
    ensures r.0 < D && r.1 <= 1 && v as int + r.1 as int * D == r.0 as int + y + k
  {
    var a := (v as int - y - k) % B;
    if a > v then ((a + D) % B, 1) else (a, 0)
  }

  /** A product and an addend, split at the base. */
  function MulDec(x: Limb, b: Limb, l: Limb): (r: (Limb, Limb))
    requires x < D && b < D && l < D
    ensures r.0 < D && r.1 < D && r.0 as int * D + r.1 == x as int * b + l
    ensures r.0 == D - 1 ==> r.1 == 0
  {
    ProductDec(x, b, l);
    var t := x as nat * b + l;
    var r := DivdqBase(t / B, t % B);
    QuotientDec(x as int * b + l, r.0, r.1);
    r
  }

  lemma {:induction false} ProductDec(x: nat, b: nat, l: nat)
    requires x < D && b < D && l < D
    ensures 0 <= x * b + l <= D * (D - 1) && 0 <= (x * b + l) / B < HALF
  {
    MulMono(x, b, D - 1);
    MulMono(D - 1, x, D - 1);
    MulMono(x, 0, b);
  }

  lemma {:induction false} QuotientDec(t: int, q: int, r: int)
    requires 0 <= t <= D * (D - 1) && q * D + r == t && 0 <= r < D
    ensures q < D && (q == D - 1 ==> r == 0)
  {
    if q >= D { MulMono(D, D, q); }
  }

  // ---------- tables ----------

  /** `rs` with carry `k` is `xs + ys`. */
  ghost predicate IsDecSum(rs: seq<Limb>, k: nat, xs: seq<Limb>, ys: seq<Limb>) {
    |xs| == |ys| == |rs| && AllDec(rs) && DVal(rs) + k * DPow(|rs|) == DVal(xs) + DVal(ys)
  }

  lemma {:induction false} DecSumStep(rs: seq<Limb>, a: Limb, k: Limb, k': Limb, xs: seq<Limb>, ys: seq<Limb>, x: Limb,
                                      y: Limb)
    requires IsDecSum(rs, k, xs, ys) && a < D && a as int + k' as int * D == x as int + y + k
    ensures IsDecSum(rs + [a], k', xs + [x], ys + [y])
  {
    hide DVal, DPow;
    DAppend(rs, a);
    DAppend(xs, x);
    DAppend(ys, y);
    DNext(|rs|);
    Carried(a, k', x, y, k, DPow(|rs|));
  }

  lemma {:induction false} Carried(a: int, k': int, x: int, y: int, k: int, p: int)
    requires a + k' * D == x + y + k
    ensures a * p + k' * (D * p) == x * p + y * p + k * p
  {
    assert (a + k' * D) * p == a * p + k' * (D * p);
    assert (x + y + k) * p == x * p + y * p + k * p;
  }

  /** Adds a table to a window. */
  method MpAddDec(res: array<Limb>, ro: nat, op2: array<Limb>, n: nat) returns (k: Limb)
    requires ro + n <= res.Length && n <= op2.Length && res != op2 && AllDec(res[ro..ro + n]) && AllDec(op2[..n])
    modifies res
    ensures OnlyChanged(res, ro, n) && k <= 1 && IsDecSum(res[ro..ro + n], k, old(res[ro..ro + n]), op2[..n])
  {
    hide DVal, DPow, AddDec;
    ghost var xs, ys := res[ro..ro + n], op2[..n];
    k := 0;
    DOne(0);
    assert xs[..0] == [] && ys[..0] == [] && res[ro..ro + 0] == [];
    for i := 0 to n
      invariant OnlyChanged(res, ro, i) && k <= 1 && IsDecSum(res[ro..ro + i], k, xs[..i], ys[..i])
    {
      ghost var rs := res[ro..ro + i];
      assert res[ro + i] == xs[i] && op2[i] == ys[i];
      var r := AddDec(res[ro + i], op2[i], k);
      DecSumStep(rs, r.0, k, r.1, xs[..i], ys[..i], xs[i], ys[i]);
      assert xs[..i] + [xs[i]] == xs[..i + 1] && ys[..i] + [ys[i]] == ys[..i + 1];
      res[ro + i] := r.0;
      assert res[ro..ro + i + 1] == rs + [r.0];
      k := r.1;
    }
    assert xs[..n] == xs && ys[..n] == ys;
  }

  /** Subtracts a table from a window: `xs` with the borrow is the result and `ys`. */
  method MpSubDec(res: array<Limb>, ro: nat, op2: array<Limb>, n: nat) returns (k: Limb)
    requires ro + n <= res.Length && n <= op2.Length && res != op2 && AllDec(res[ro..ro + n]) && AllDec(op2[..n])
    modifies res
    ensures OnlyChanged(res, ro, n) && k <= 1 && AllDec(res[ro..ro + n])
    ensures old(DVal(res[ro..ro + n])) + k as int * DPow(n) == DVal(res[ro..ro + n]) + DVal(op2[..n])
  {
    hide DVal, DPow, SubDec;
    ghost var xs, ys := res[ro..ro + n], op2[..n];
    k := 0;
    DOne(0);
    assert xs[..0] == [] && ys[..0] == [] && res[ro..ro + 0] == [];
    for i := 0 to n
      invariant OnlyChanged(res, ro, i) && k <= 1 && AllDec(res[ro..ro + i])
      invariant DVal(xs[..i]) + k as int * DPow(i) == DVal(res[ro..ro + i]) + DVal(ys[..i])
    {
      ghost var rs := res[ro..ro + i];
      assert res[ro + i] == xs[i] && op2[i] == ys[i];
      var r := SubDec(res[ro + i], op2[i], k);
      DAppend(rs, r.0);
      DAppend(xs[..i], xs[i]);
      DAppend(ys[..i], ys[i]);
      DNext(i);
      Carried(xs[i], r.1, r.0, ys[i], k, DPow(i));
      assert xs[..i] + [xs[i]] == xs[..i + 1] && ys[..i] + [ys[i]] == ys[..i + 1];
      res[ro + i] := r.0;
      assert res[ro..ro + i + 1] == rs + [r.0];
      k := r.1;
    }
    assert xs[..n] == xs && ys[..n] == ys;
  }

  /** Multiplies a window by a limb. */
  method MpMul1Dec(tab: array<Limb>, n: nat, b: Limb) returns (l: Limb)
    requires n <= tab.Length && b < D && AllDec(tab[..n])
    modifies tab
    ensures OnlyChanged(tab, 0, n) && l < D && AllDec(tab[..n])
    ensures DVal(tab[..n]) + l as int * DPow(n) == old(DVal(tab[..n])) * b as int
  {
    hide DVal, DPow, MulDec;
    ghost var xs := tab[..n];
    l := 0;
    DOne(0);
    assert xs[..0] == [] && tab[..0] == [];
    for i := 0 to n
      invariant OnlyChanged(tab, 0, i) && l < D && AllDec(tab[..i])
      invariant DVal(tab[..i]) + l as int * DPow(i) == DVal(xs[..i]) * b as int
    {
      ghost var rs := tab[..i];
      assert tab[i] == xs[i];
      var r := MulDec(tab[i], b, l);
      DAppend(rs, r.1);
      DAppend(xs[..i], xs[i]);
      DNext(i);
      MulCarried(r.1, r.0, xs[i], b, l, DPow(i), DVal(xs[..i]));
      assert xs[..i] + [xs[i]] == xs[..i + 1];
      tab[i] := r.1;
      assert tab[..i + 1] == rs + [r.1];
      l := r.0;
    }
    assert xs[..n] == xs;
  }

  lemma {:induction false} MulCarried(r: int, h: int, x: int, b: int, l: int, p: int, v: int)
    requires h * D + r == x * b + l
    ensures r * p + h * (D * p) == x * p * b + l * p && (v + x * p) * b == v * b + x * p * b
  {
    assert (h * D + r) * p == r * p + h * (D * p);
    assert (x * b + l) * p == x * p * b + l * p;
  }

  /** Subtracts a multiple of a table from a window; what must still be taken from above is returned. */
  method MpSubMul1Dec(tabr: array<Limb>, ro: nat, taba: array<Limb>, n: nat, b: Limb) returns (l: Limb)
    requires ro + n <= tabr.Length && n <= taba.Length && tabr != taba && b < D && AllDec(tabr[ro..ro + n])
             && AllDec(taba[..n])
    modifies tabr
    ensures OnlyChanged(tabr, ro, n) && l < D && AllDec(tabr[ro..ro + n])
    ensures DVal(tabr[ro..ro + n]) + DVal(taba[..n]) * b as int == old(DVal(tabr[ro..ro + n])) + l as int * DPow(n)
  {
    hide DVal, DPow, MulDec, SubDec;
    ghost var xs, ys := tabr[ro..ro + n], taba[..n];
    l := 0;
    DOne(0);
    assert xs[..0] == [] && ys[..0] == [] && tabr[ro..ro + 0] == [];
    for i := 0 to n
      invariant OnlyChanged(tabr, ro, i) && l < D && AllDec(tabr[ro..ro + i])
      invariant DVal(tabr[ro..ro + i]) + DVal(ys[..i]) * b as int == DVal(xs[..i]) + l as int * DPow(i)
    {
      ghost var rs := tabr[ro..ro + i];
      assert tabr[ro + i] == xs[i] && taba[i] == ys[i];
      var t := MulDec(taba[i], b, l);
      var a := SubDec(tabr[ro + i], t.1, 0);
      DAppend(rs, a.0);
      DAppend(xs[..i], xs[i]);
      DAppend(ys[..i], ys[i]);
      DNext(i);
      SubMulCarried(a.0, a.1, t.0, t.1, xs[i], ys[i], b, l, DPow(i), DVal(ys[..i]));
      assert xs[..i] + [xs[i]] == xs[..i + 1] && ys[..i] + [ys[i]] == ys[..i + 1];
      tabr[ro + i] := a.0;
      assert tabr[ro..ro + i + 1] == rs + [a.0];
      // the borrow never lifts the carry to the base: its low limb is zero when it is one below
      l := t.0 + a.1;
    }
    assert xs[..n] == xs && ys[..n] == ys;
  }

  lemma {:induction false} SubMulCarried(a: int, c: int, h: int, r: int, x: int, y: int, b: int, l: int, p: int, v: int)
    requires h * D + r == y * b + l && x + c * D == a + r
    ensures a * p + (v + y * p) * b == v * b + x * p + (h + c) * (D * p) - l * p
  {
    assert (x + c * D) * p == x * p + c * (D * p);
    assert (a + r) * p == a * p + r * p;
    assert (h * D + r) * p == h * (D * p) + r * p;
    assert (y * b + l) * p == y * p * b + l * p;
    assert (v + y * p) * b == v * b + y * p * b;
    assert (h + c) * (D * p) == h * (D * p) + c * (D * p);
  }

  // ---------- dividing by a limb ----------

  /** `qs` are the digits of the quotient of `r0` and the digits `xs` below it, and `r` is left. */
  ghost predicate DecDividedTo(qs: seq<Limb>, xs: seq<Limb>, b: int, r: int, r0: int) {
    |qs| == |xs| && AllDec(qs) && DVal(qs) * b + r == DVal(xs) + r0 * DPow(|xs|)
  }

  lemma {:induction false} DecQuotientStep(q: Limb, qs: seq<Limb>, x: Limb, xs: seq<Limb>, b: int, r: int, r': int,
                                           r0: int)
    requires DecDividedTo(qs, xs, b, r, r0) && q < D && q as int * b + r' == r * D + x as int
    ensures DecDividedTo([q] + qs, [x] + xs, b, r', r0)
  {
    hide DVal, DPow;
    DConcat([q], qs);
    DConcat([x], xs);
    DOne(q);
    DOne(x);
    DNext(0);
    DNext(|xs|);
    assert DPow(1) == D;
    QuotientStepValue(q, DVal(qs), x, DVal(xs), b, r, r', r0, DPow(|xs|));
  }

  lemma {:induction false} QuotientStepValue(q: int, vq: int, x: int, vx: int, b: int, r: int, r': int, r0: int, p: int)
    requires vq * b + r == vx + r0 * p && q * b + r' == r * D + x
    ensures (q + D * vq) * b + r' == x + D * vx + r0 * (D * p)
  {
    assert (q + D * vq) * b == q * b + D * (vq * b);
    assert D * (vx + r0 * p) == D * vx + r0 * (D * p);
  }

  /** A limb of the quotient: by the machine, or by a reciprocal of the divisor shifted to the top of the word. */
  method DivDecWord(r: Limb, x: Limb, b: Limb, useInv: bool, shift: nat, bs: Limb, inv: Limb)
    returns (q: Limb, r': Limb)
    requires r < b && x < D && b <= D
    requires useInv ==> shift < 64 && bs as int == b as int * Pow2(shift) && IsReciprocal(bs, inv)
    ensures q < D && r' < b && q as int * b + r' == r as int * D + x
  {
    hide Pow2;
    var t := r as nat * D + x;
    DecDividend(r, x, b, t);
    if useInv {
      ShiftedDividend(t, b, Pow2(shift), bs);
      var ts := t * Pow2(shift);
      var p := Udiv1Norm(ts / B, ts % B, bs, inv);
      ShiftedBack(t, b, Pow2(shift), bs, p.0, p.1);
      q, r' := p.0, p.1 / Pow2(shift);
    } else {
      var p := DivRem(t, b);
      q, r' := p.0, p.1;
    }
    BelowBase(q, r', r, x, b);
  }

  lemma {:induction false} DecDividend(r: nat, x: nat, b: nat, t: int)
    requires r < b && x < D && b <= D && t == r * D + x
    ensures 0 <= t < b * D && t < B * b
  {
    MulMono(D, r + 1, b);
    MulMono(D, 0, r);
    MulMono(b, D, B);
  }

  lemma {:induction false} ShiftedDividend(t: nat, b: nat, p: nat, bs: nat)
    requires t < B * b && p > 0 && bs == b * p && bs < B
    ensures 0 <= t * p && 0 <= (t * p) / B < bs && (t * p) / B < B
  {
    MulStrict(p, t, B * b);
    MulMono(p, 0, t);
    assert p * (B * b) == B * (b * p);
    var h := (t * p) / B;
    if h >= bs { MulMono(B, bs, h); }
  }

  lemma {:induction false} ShiftedBack(t: nat, b: nat, p: nat, bs: nat, q: nat, r: nat)
    requires p > 0 && b > 0 && bs == b * p && q * bs + r == ((t * p) / B) * B + (t * p) % B && r < bs
    ensures 0 <= r / p < b && q * b + r / p == t
  {
    assert q * bs + r == t * p;
    assert q * bs == (q * b) * p;
    var d := t - q * b;
    assert r == d * p by { assert t * p - (q * b) * p == d * p; }
    if d < 0 { MulMono(p, d, -1); }
    if d >= b { MulMono(p, b, d); }
    Exactly(r, p, d);
  }

  lemma {:induction false} Exactly(r: int, p: int, d: int)
    requires p > 0 && r == d * p
    ensures r / p == d
  {
    assert r % p == 0 by { Modular.MultipleModulo(d, p); }
    var e := r / p;
    assert r == e * p + r % p;
    if e < d { MulMono(p, e + 1, d); MulDist(p, e, 1); }
    if e > d { MulMono(p, d + 1, e); MulDist(p, d, 1); }
  }

  lemma {:induction false} BelowBase(q: nat, r': nat, r: nat, x: nat, b: nat)
    requires r < b && x < D && q * b + r' == r * D + x
    ensures q < D
  {
    MulMono(D, r + 1, b);
    if q >= D { MulMono(b, D, q); }
  }

  /** Divides a table in place, with a remainder carried in. */
  method MpDiv1Dec(tab: array<Limb>, n: nat, b: Limb, r0: Limb) returns (r: Limb)
    requires n <= tab.Length && 0 < b <= D && r0 < b && AllDec(tab[..n])
    modifies tab
    ensures OnlyChanged(tab, 0, n) && r < b && DecDividedTo(tab[..n], old(tab[..n]), b, r, r0)
  {
    hide DVal, DPow, Pow2, DecDividedTo, Clz, IsReciprocal;
    ghost var xs := tab[..n];
    if b == 2 {
      r := HalveDec(tab, n, r0);
      return;
    }
    var useInv, shift := n >= UDIV1NORM_THRESHOLD, Clz(b);
    NormalizedLimb(b, shift);
    var bs: Limb := b as nat * Pow2(shift);
    var inv := if useInv then Udiv1NormInit(bs) else 0;
    r := r0;
    var i := n;
    ghost var qs: seq<Limb> := [];
    assert xs[n..] == [];
    NothingDivided(b, r0);
    while i > 0
      invariant 0 <= i <= n && r < b && |qs| == n - i && OnlyChanged(tab, i, n - i)
      invariant forall j :: i <= j < n ==> tab[j] == qs[j - i]
      invariant DecDividedTo(qs, xs[i..], b, r, r0)
    {
      i := i - 1;
      assert tab[i] == xs[i];
      var q, r' := DivDecWord(r, tab[i], b, useInv, shift, bs, inv);
      DecQuotientStep(q, qs, xs[i], xs[i + 1..], b, r, r', r0);
      assert [xs[i]] + xs[i + 1..] == xs[i..];
      tab[i] := q;
      qs := [q] + qs;
      r := r';
    }
    assert tab[..n] == qs && xs[0..] == xs;
  }

  lemma {:induction false} NothingDivided(b: int, r: int)
    ensures DecDividedTo([], [], b, r, r)
  {
    DOne(0);
  }

  lemma {:induction false} NormalizedLimb(b: Limb, shift: nat)
    requires b > 0 && shift == Clz(b)
    ensures shift < 64 && b as nat * Pow2(shift) < B && 2 * (b as nat * Pow2(shift)) >= B
  {
    hide Pow2, Clz;
    Pow2Add(63 - shift, shift);
    Pow2Add(64 - shift, shift);
    Pow2Add(63, 1);
    OneShift();
    Pow2Limb();
    MulMono(Pow2(shift), Pow2(63 - shift), b);
    MulStrict(Pow2(shift), b, Pow2(64 - shift));
  }

  /** Halving: half the base carries down from an odd limb. */
  method HalveDec(tab: array<Limb>, n: nat, r0: Limb) returns (r: Limb)
    requires n <= tab.Length && r0 < 2 && AllDec(tab[..n])
    modifies tab
    ensures OnlyChanged(tab, 0, n) && r < 2 && DecDividedTo(tab[..n], old(tab[..n]), 2, r, r0)
  {
    hide DVal, DPow, DecDividedTo;
    ghost var xs := tab[..n];
    var half: Limb := if r0 == 0 then 0 else D / 2;
    var i := n;
    ghost var qs: seq<Limb> := [];
    assert xs[n..] == [];
    NothingDivided(2, r0);
    while i > 0
      invariant 0 <= i <= n && (half == 0 || half == D / 2) && |qs| == n - i && OnlyChanged(tab, i, n - i)
      invariant forall j :: i <= j < n ==> tab[j] == qs[j - i]
      invariant DecDividedTo(qs, xs[i..], 2, if half == 0 then 0 else 1, r0)
    {
      i := i - 1;
      assert tab[i] == xs[i];
      var t := tab[i];
      var q: Limb := t / 2 + half;
      DecQuotientStep(q, qs, xs[i], xs[i + 1..], 2, if half == 0 then 0 else 1, t as int % 2, r0);
      assert [xs[i]] + xs[i + 1..] == xs[i..];
      tab[i] := q;
      qs := [q] + qs;
      half := if t % 2 == 1 then D / 2 else 0;
    }
    assert tab[..n] == qs && xs[0..] == xs;
    return if half == 0 then 0 else 1;
  }
}
