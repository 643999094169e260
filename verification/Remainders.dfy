/** Chinese remaindering: from residues modulo the NTT primes to mixed radix digits, to limbs, to bits. */
module Remainders {
  import opened Arith
  import opened Limbs
  import opened Kernels
  import opened Bits
  import opened Modular
  import opened NttWords
  import opened NttTables

  // ---------- mixed radix ----------

  /** Digits `ys` in the mixed radix of the moduli from number `f` on. */
  ghost function Mixed(ys: seq<Limb>, f: nat): nat
    requires f + |ys| <= NB_MODS
  {
    if ys == [] then 0 else ys[0] + NTT_MODS[f] * Mixed(ys[1..], f + 1)
  }

  /** What is left of `c` after dividing by the moduli `f .. f + j`. */
  ghost function Peel(c: nat, f: nat, j: nat): nat
    requires f + j <= NB_MODS
  {
    if j == 0 then c else Peel(c, f, j - 1) / NTT_MODS[f + j - 1]
  }

  /** The product of the moduli from number `f` on. */
  ghost function ModuliFrom(f: nat): (p: nat)
    requires f <= NB_MODS
    ensures p >= 1
    decreases NB_MODS - f
  {
    if f == NB_MODS then 1 else NTT_MODS[f] * ModuliFrom(f + 1)
  }

  lemma {:induction false} PeelBound(c: nat, f: nat, j: nat)
    requires f + j <= NB_MODS && c < ModuliFrom(f)
    ensures Peel(c, f, j) < ModuliFrom(f + j)
  {
    hide Peel, ModuliFrom;
    if j == 0 {
      FirstPeel(c, f);
    } else {
      PeelBound(c, f, j - 1);
      PeelStep(c, f, j - 1);
    }
  }

  lemma {:induction false} PeelStep(c: nat, f: nat, j: nat)
    requires f + j < NB_MODS
    ensures Peel(c, f, j + 1) == Peel(c, f, j) / NTT_MODS[f + j]
    ensures Peel(c, f, j) < ModuliFrom(f + j) ==> Peel(c, f, j + 1) < ModuliFrom(f + j + 1)
  {
    var x, m, p := Peel(c, f, j), NTT_MODS[f + j], ModuliFrom(f + j + 1);
    assert ModuliFrom(f + j) == m * p;
    if x < m * p {
      var q := x / m;
      if q >= p { MulMono(m, p, q); }
    }
  }

  /** Residue `k` at the start of round `j`. */
  ghost predicate IsResidue(y: Limb, x: nat, k: nat)
    requires k < NB_MODS
  {
    y < NTT_MODS[k] && Cong(y, x, NTT_MODS[k])
  }

  /** One step of the elimination: the residue of the number divided by modulus `j`. */
  function Eliminate(yk: Limb, yj: Limb, j: nat, k: nat, cr: Limb, crInv: Limb, ghost x: nat): (r: Limb)
    requires j < k < NB_MODS && IsPairInverse(cr, crInv, j, k)
    requires yj as nat == x % NTT_MODS[j] && IsResidue(yk, x, k)
    ensures IsResidue(r, x / NTT_MODS[j], k)
  {
    hide Cong, MulModFast2, IsFactor, Difference;
    ModuliOrdered(j, k);
    var m := NTT_MODS[k];
    var d := Difference(yk, yj, m);
    var r := MulModFast2(d, cr, m, crInv);
    EliminatedCong(yk, yj, x, NTT_MODS[j], m, d, cr, r);
    r
  }

  /** The moduli increase and leave two spare bits. */
  lemma {:induction false} ModuliOrdered(j: nat, k: nat)
    requires j < k < NB_MODS
    ensures 0 < NTT_MODS[j] < NTT_MODS[k] && 2 * NTT_MODS[k] as int <= B
  {
  }

  /** `yk - yj + m`, which the word holds without wrapping. */
  function Difference(yk: Limb, yj: Limb, m: Limb): (d: Limb)
    requires yk < m && yj < m && 2 * m as int <= B
    ensures d as int == yk as int - yj + m
  {
    (yk as int - yj + m) % B
  }

  lemma {:induction false} EliminatedCong(yk: int, yj: int, x: nat, mj: int, m: int, d: int, cr: int, r: int)
    requires m > 0 && mj > 0 && yj == x % mj && Cong(yk, x, m) && d == yk - yj + m && Cong(mj * cr, 1, m)
             && Cong(r, d * cr, m)
    ensures Cong(r, x / mj, m)
  {
    hide Cong;
    var q := x / mj;
    CongRefl(yj, m);
    CongAdd(yk, x, yj, yj, m);
    assert x - yj == q * mj;
    CongIntro(d, yk - yj, m, 1);
    CongTrans(d, yk - yj, q * mj, m);
    CongRefl(cr, m);
    CongMul(d, q * mj, cr, cr, m);
    CongTrans(r, d * cr, (q * mj) * cr, m);
    MulAssoc(q, mj, cr);
    CongRefl(q, m);
    CongMul(q, q, mj * cr, 1, m);
    CongTrans(r, q * (mj * cr), q, m);
  }

  /** Digit `j` of the mixed radix form of `c`. */
  ghost predicate IsMixedDigit(y: Limb, c: nat, f: nat, j: nat)
    requires f + j < NB_MODS
  {
    y as nat == Peel(c, f, j) % NTT_MODS[f + j]
  }

  /** From residues to mixed radix digits, in place. */
  method ToMixedRadix(y0: seq<Limb>, f: nat, pairInverses: seq<Limb>, ghost c: nat) returns (y: seq<Limb>)
    requires f + |y0| == NB_MODS && |y0| >= 1 && |pairInverses| == 10
    requires forall j, k :: 0 <= j < k < NB_MODS
                            ==> IsPairInverse(NTT_MODS_CR[PairIndex(j, k)], pairInverses[PairIndex(j, k)], j, k)
    requires c < ModuliFrom(f) && forall k :: 0 <= k < |y0| ==> IsResidue(y0[k], c, f + k)
    ensures |y| == |y0| && Mixed(y, f) == c
  {
    hide IsPairInverse, IsResidue, IsMixedDigit, Peel, ModuliFrom, Eliminate, Mixed;
    y := y0;
    var nb := |y0|;
    var l := if f == NB_MODS - 1 then 0 else PairIndex(f, f + 1);
    FirstPeel(c, f);
    for j := 0 to nb - 1
      invariant |y| == nb
      invariant j < nb - 1 ==> l == PairIndex(f + j, f + j + 1)
      invariant forall i :: 0 <= i < j ==> IsMixedDigit(y[i], c, f, i)
      invariant forall k :: j <= k < nb ==> IsResidue(y[k], Peel(c, f, j), f + k)
    {
      DigitFromResidue(y[j], c, f, j);
      PeelStep(c, f, j);
      for k := j + 1 to nb
        invariant |y| == nb
        invariant k < nb ==> l == PairIndex(f + j, f + k)
        invariant k == nb && j + 1 < nb - 1 ==> l == PairIndex(f + j + 1, f + j + 2)
        invariant forall i :: 0 <= i <= j ==> IsMixedDigit(y[i], c, f, i)
        invariant forall k' :: j + 1 <= k' < k ==> IsResidue(y[k'], Peel(c, f, j + 1), f + k')
        invariant forall k' :: k <= k' < nb ==> IsResidue(y[k'], Peel(c, f, j), f + k')
      {
        DigitValue(y[j], c, f, j);
        y := y[k := Eliminate(y[k], y[j], f + j, f + k, NTT_MODS_CR[l], pairInverses[l], Peel(c, f, j))];
        l := l + 1;
      }
    }
    DigitFromResidue(y[nb - 1], c, f, nb - 1);
    MixedFromDigits(y, c, f);
  }

  lemma {:induction false} FirstPeel(c: nat, f: nat)
    requires f <= NB_MODS
    ensures Peel(c, f, 0) == c
  {
  }

  lemma {:induction false} DigitValue(y: Limb, c: nat, f: nat, j: nat)
    requires f + j < NB_MODS && IsMixedDigit(y, c, f, j)
    ensures y as nat == Peel(c, f, j) % NTT_MODS[f + j]
  {
  }

  lemma {:induction false} DigitFromResidue(y: Limb, c: nat, f: nat, j: nat)
    requires f + j < NB_MODS && IsResidue(y, Peel(c, f, j), f + j)
    ensures IsMixedDigit(y, c, f, j)
  {
    var x, m: int := Peel(c, f, j), NTT_MODS[f + j];
    CongIntro(x, x % m, m, x / m);
    CongTrans(y, x, x % m, m);
    CongEqual(y, x % m, m);
  }

  lemma {:induction false} MixedFromDigits(y: seq<Limb>, c: nat, f: nat)
    requires f + |y| == NB_MODS && |y| >= 1 && c < ModuliFrom(f)
    requires forall i :: 0 <= i < |y| ==> IsMixedDigit(y[i], c, f, i)
    ensures Mixed(y, f) == c
  {
    MixedFrom(y, c, f, 0);
    assert y[0..] == y;
  }

  lemma {:induction false} MixedFrom(y: seq<Limb>, c: nat, f: nat, i: nat)
    requires f + |y| == NB_MODS && i <= |y| && c < ModuliFrom(f)
    requires forall i :: 0 <= i < |y| ==> IsMixedDigit(y[i], c, f, i)
    ensures Mixed(y[i..], f + i) == Peel(c, f, i)
    decreases |y| - i
  {
    hide ModuliFrom;
    if i == |y| {
      PeelBound(c, f, i);
      NoModuli();
    } else {
      MixedFrom(y, c, f, i + 1);
      assert IsMixedDigit(y[i], c, f, i);
      PeelStep(c, f, i);
      assert y[i..][1..] == y[i + 1..];
    }
  }

  lemma {:induction false} NoModuli()
    ensures ModuliFrom(NB_MODS) == 1
  {
  }

  // ---------- back to limbs ----------

  /** `v` with `r` above it is `us * m + s`. */
  ghost predicate IsScaled(v: seq<Limb>, r: nat, us: seq<Limb>, m: nat, s: int) {
    |v| == |us| && Val(v) as int + r * Pow(|v|) == Val(us) * m + s
  }

  lemma {:induction false} StartScaled(r: nat, m: nat)
    ensures IsScaled([], r, [], m, r)
  {
    EmptyTable();
  }

  /** `u * m + r`, one limb longer. */
  method ScaleAdd(u: seq<Limb>, m: Limb, r0: Limb) returns (v: seq<Limb>)
    ensures |v| == |u| + 1 && Val(v) == Val(u) * m + r0
  {
    hide Val, Pow;
    var r: Limb := r0;
    v := [];
    StartScaled(r0, m);
    for k := 0 to |u|
      invariant IsScaled(v, r, u[..k], m, r0)
    {
      hide IsScaled;
      var (lo, hi) := MulWord(0, u[k], m, r);
      ScaleStep(v, lo, u[..k], u[k], m, r, hi, 0, r0);
      assert u[..k] + [u[k]] == u[..k + 1];
      v, r := v + [lo], hi;
    }
    assert u[..|u|] == u;
    ValAppend(v, r);
    v := v + [r];
  }

  lemma {:induction false} ScaleStep(v: seq<Limb>, lo: Limb, us: seq<Limb>, u: Limb, m: Limb, r: Limb, hi: Limb,
                                     x: Limb, s: int)
    requires IsScaled(v, r, us, m, s)
    requires lo as int + hi * B == x as int + u as int * m + r
    ensures IsScaled(v + [lo], hi, us + [u], m, s + x * Pow(|v|))
  {
    hide Val, Pow;
    ValAppend(v, lo);
    ValAppend(us, u);
    assert Pow(|v| + 1) == B * Pow(|v|) by { PowAdd(1, |v|); OnePow(); }
    ScaleArithmetic(Val(v), Val(us), Pow(|v|), lo, hi, u, m, r, x, s);
  }

  lemma {:induction false} ScaleArithmetic(v: int, us: int, p: int, lo: int, hi: int, u: int, m: int, r: int, x: int,
                                           s: int)
    requires v + r * p == us * m + s && lo + hi * B == x + u * m + r
    ensures v + lo * p + hi * (B * p) == (us + u * p) * m + s + x * p
  {
    assert (lo + hi * B) * p == lo * p + hi * (B * p);
    assert (x + u * m + r) * p == x * p + (u * p) * m + r * p;
    assert (us + u * p) * m == us * m + (u * p) * m;
  }

  /** The last step adds the carry of the digits below. */
  method ScaleAddCarry(u: seq<Limb>, m: Limb, r0: Limb, carry: seq<Limb>) returns (v: seq<Limb>)
    requires |carry| == |u| + 1 && Val(u) * m + r0 + Val(carry) < Pow(|u| + 1)
    ensures |v| == |u| + 1 && Val(v) == Val(u) * m + r0 + Val(carry)
  {
    hide Val, Pow, IsScaled;
    var r: Limb := r0;
    v := [];
    StartScaled(r0, m);
    NoLimbs(carry);
    for k := 0 to |u|
      invariant |v| == k && IsScaled(v, r, u[..k], m, r0 as int + Val(carry[..k]))
    {
      var (lo, hi) := MulWord(carry[k], u[k], m, r);
      ScaleStep(v, lo, u[..k], u[k], m, r, hi, carry[k], r0 as int + Val(carry[..k]));
      ValAppend(carry[..k], carry[k]);
      assert carry[..k] + [carry[k]] == carry[..k + 1];
      assert u[..k] + [u[k]] == u[..k + 1];
      v, r := v + [lo], hi;
    }
    assert u[..|u|] == u;
    TopCarry(v, r, u, m, r0, carry);
    v := v + [(r as nat + carry[|u|]) % B];
  }

  lemma {:induction false} TopCarry(v: seq<Limb>, r: Limb, u: seq<Limb>, m: Limb, r0: Limb, carry: seq<Limb>)
    requires |carry| == |u| + 1 && Val(u) * m + r0 + Val(carry) < Pow(|u| + 1)
    requires IsScaled(v, r, u, m, r0 as int + Val(carry[..|u|]))
    ensures r as nat + carry[|u|] < B && Val(v + [r as nat + carry[|u|]]) == Val(u) * m + r0 + Val(carry)
  {
    hide Val, Pow;
    var l := |u|;
    assert carry == carry[..l] + [carry[l]];
    ValAppend(carry[..l], carry[l]);
    var top: nat := r as nat + carry[l];
    assert Pow(l + 1) == B * Pow(l) by { PowAdd(1, l); OnePow(); }
    TopFits(Val(v), r, carry[l], top, Pow(l), Val(u) * m + r0 + Val(carry));
    ValAppend(v, top);
  }

  lemma {:induction false} TopFits(v: nat, r: nat, c: nat, top: nat, p: nat, total: int)
    requires top == r + c && total < B * p && total == v + r * p + c * p
    ensures top < B && top * p == r * p + c * p
  {
    assert top * p == r * p + c * p;
    if top >= B { MulMono(p, B, top); }
  }

  /** Mixed radix digits as a number in limbs, plus a carry. */
  method FromMixedRadix(y: seq<Limb>, f: nat, carry: seq<Limb>) returns (u: seq<Limb>)
    requires f + |y| == NB_MODS && |y| >= 2 && |carry| == |y|
    requires Mixed(y, f) + Val(carry) < Pow(|y|)
    ensures |u| == |y| && Val(u) == Mixed(y, f) + Val(carry)
  {
    hide Val, Pow, Mixed;
    var nb := |y|;
    u := [y[nb - 1]];
    SingleDigit(y[nb - 1], f + nb - 1);
    assert y[nb - 1..] == [y[nb - 1]];
    for j := nb - 1 downto 1
      invariant |u| == nb - j && Val(u) == Mixed(y[j..], f + j)
    {
      MixedStep(y, f, j);
      u := ScaleAdd(u, NTT_MODS[f + j], y[j]);
    }
    MixedStep(y, f, 0);
    assert y[0..] == y;
    u := ScaleAddCarry(u, NTT_MODS[f], y[0], carry);
  }

  lemma {:induction false} SingleDigit(y: Limb, f: nat)
    requires f < NB_MODS
    ensures Mixed([y], f) == y && Val([y]) == y
  {
    assert Mixed([], f + 1) == 0;
  }

  lemma {:induction false} MixedStep(y: seq<Limb>, f: nat, j: nat)
    requires j < |y| && f + |y| <= NB_MODS
    ensures Mixed(y[j..], f + j) == Mixed(y[j + 1..], f + j + 1) * NTT_MODS[f + j] + y[j]
  {
    assert y[j..][1..] == y[j + 1..];
  }
}
