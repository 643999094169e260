/** Multiplication through number theoretic transforms: digits, convolutions modulo several primes,
    reconstruction with carry. */
module FftMul {
  import opened Arith
  import opened Powers
  import opened Limbs
  import opened Kernels
  import opened Bits
  import opened Digits
  import opened Modular
  import opened Fourier
  import opened NttWords
  import opened Ntt
  import opened NttSplit
  import opened NttTables
  import opened FftDigits
  import opened FftSize
  import opened Remainders

  // ---------- writing digits ----------

  /** Writes the low `w` bits of `u` at bit position `pos`, above the number `v` already there. */
  method WriteDigit(tabr: array<Limb>, pos: nat, u: seq<Limb>, w: nat, ghost v: nat)
    requires 1 <= w <= 64 * |u| && Holds(tabr[..], v) && v < Pow2(pos)
    modifies tabr
    ensures Holds(tabr[..], v + (Val(u) % Pow2(w)) * Pow2(pos))
  {
    hide Holds, Val, Pow, Pow2, Masked;
    var top := (w - 1) / 64;
    NoLimbs(u);
    for j := 0 to top
      invariant Holds(tabr[..], v + Val(u[..j]) * Pow2(pos))
    {
      BelowPosition(u, j, v, pos);
      PutBits(tabr, pos + 64 * j, u[j], v + Val(u[..j]) * Pow2(pos));
      NextWord(u, j, v, pos);
    }
    BelowPosition(u, top, v, pos);
    PutBits(tabr, pos + 64 * top, Masked(u[top], w % 64), v + Val(u[..top]) * Pow2(pos));
    LastWord(u, w, v, pos);
  }

  lemma {:induction false} BelowPosition(u: seq<Limb>, j: nat, v: nat, pos: nat)
    requires j <= |u| && v < Pow2(pos)
    ensures v + Val(u[..j]) * Pow2(pos) < Pow2(pos + 64 * j)
  {
    hide Val, Pow, Pow2;
    ValBound(u[..j]);
    Pow2Add(pos, 64 * j);
    Pow2Limbs(j);
    ScaledLess(v, Pow2(pos), Val(u[..j]), Pow(j));
  }

  lemma {:induction false} WordWeight(x: nat, j: nat, pos: nat)
    ensures x * Pow2(pos + 64 * j) == (x * Pow(j)) * Pow2(pos)
  {
    hide Pow, Pow2;
    Pow2Add(pos, 64 * j);
    Pow2Limbs(j);
    Reorder(x, Pow2(pos), Pow(j));
  }

  lemma {:induction false} Reorder(x: int, p: int, q: int)
    ensures x * (p * q) == (x * q) * p
  {
  }

  lemma {:induction false} NextWord(u: seq<Limb>, j: nat, v: nat, pos: nat)
    requires j < |u|
    ensures v + Val(u[..j]) * Pow2(pos) + u[j] as nat * Pow2(pos + 64 * j) == v + Val(u[..j + 1]) * Pow2(pos)
  {
    hide Val, Pow, Pow2;
    WordWeight(u[j], j, pos);
    ValAppend(u[..j], u[j]);
    assert u[..j] + [u[j]] == u[..j + 1];
    var a, b, p := Val(u[..j]), u[j] as nat * Pow(j), Pow2(pos);
    assert (a + b) * p == a * p + b * p;
  }

  lemma {:induction false} LastWord(u: seq<Limb>, w: nat, v: nat, pos: nat)
    requires 1 <= w <= 64 * |u|
    ensures var top := (w - 1) / 64;
            v + Val(u[..top]) * Pow2(pos) + Masked(u[top],
                                                   w % 64) as nat * Pow2(pos + 64 * top) == v
               + (Val(u) % Pow2(w)) * Pow2(pos)
  {
    hide Val, Pow, Pow2, Masked;
    var top := (w - 1) / 64;
    var n, x := w - 64 * top, Masked(u[top], w % 64);
    LowPart(u, w, top);
    WordWeight(x, top, pos);
    var a, b, p := Val(u[..top]), x as nat * Pow(top), Pow2(pos);
    assert (a + b) * p == a * p + b * p;
  }

  /** The part of `u` above its low `w` bits. */
  method ShiftCarry(u: seq<Limb>, w: nat) returns (carry: seq<Limb>)
    ensures |carry| == |u| && Val(carry) == Val(u) / Pow2(w)
  {
    hide Val, Pow2, Pow, GetBits, ShiftTo;
    carry := [];
    for t := 0 to |u|
      invariant |carry| == t
      invariant forall i :: 0 <= i < t ==> carry[i] as nat == ((Val(u) / Pow2(w)) / Pow(i)) % B
    {
      CarryWord(u, w, t);
      carry := carry + [GetBits(u, w + 64 * t)];
    }
    QuotientShrinks(u, w);
    WordsValue(carry, Val(u) / Pow2(w));
  }

  lemma {:induction false} CarryWord(u: seq<Limb>, w: nat, t: nat)
    ensures ShiftTo(Val(u), w + 64 * t) == (Val(u) / Pow2(w)) / Pow(t)
  {
    hide Val, Pow, Pow2;
    Pow2Add(w, 64 * t);
    Pow2Limbs(t);
    DivDiv(Val(u), Pow2(w), Pow(t));
  }

  lemma {:induction false} QuotientShrinks(u: seq<Limb>, w: nat)
    ensures 0 <= Val(u) / Pow2(w) < Pow(|u|)
    ensures w >= 1 ==> 2 * (Val(u) / Pow2(w)) <= Val(u)
  {
    hide Val, Pow, Pow2;
    ValBound(u);
    QuotientAtMost(Val(u), Pow2(w));
    if w >= 1 { AtLeastTwo(w); HalfQuotient(Val(u), Pow2(w)); }
  }

  lemma {:induction false} QuotientAtMost(v: nat, d: nat)
    requires d >= 1
    ensures 0 <= v / d <= v
  {
    MulMono(v / d, 1, d);
  }

  lemma {:induction false} HalfQuotient(v: nat, d: nat)
    requires d >= 2
    ensures 2 * (v / d) <= v
  {
    MulMono(v / d, 2, d);
  }

  /** A table is known by its words. */
  lemma {:induction false} WordsValue(s: seq<Limb>, x: nat)
    requires x < Pow(|s|) && forall i :: 0 <= i < |s| ==> s[i] as nat == (x / Pow(i)) % B
    ensures Val(s) == x
    decreases |s|
  {
    if s == [] {
      assert Pow(0) == 1;
    } else {
      hide Val, Pow;
      var t, y := s[1..], x / B;
      NextPow(|s| - 1);
      QuotientLess(x, B, Pow(|s| - 1));
      forall i | 0 <= i < |t|
        ensures t[i] as nat == (y / Pow(i)) % B
      {
        NextPow(i);
        DivDiv(x, B, Pow(i));
        assert t[i] == s[i + 1];
      }
      WordsValue(t, y);
      FirstWord(s, t, x, y);
    }
  }

  lemma {:induction false} FirstWord(s: seq<Limb>, t: seq<Limb>, x: nat, y: nat)
    requires s != [] && t == s[1..] && s[0] as nat == (x / Pow(0)) % B && Val(t) == y == x / B
    ensures Val(s) == x
  {
    assert Pow(0) == 1 && x / 1 == x;
  }

  lemma {:induction false} QuotientLess(x: nat, d: nat, p: nat)
    requires d > 0 && x < d * p
    ensures 0 <= x / d < p
  {
    var q := x / d;
    if q >= p { MulMono(d, p, q); }
  }

  // ---------- reconstruction ----------

  /** Word `i` of each convolution is a residue of the coefficient `x`. */
  ghost predicate AreResidues(ys: seq<seq<Limb>>, f: nat, i: nat, x: int) {
    && f + |ys| == NB_MODS
    && forall j :: 0 <= j < |ys| ==> i < |ys[j]| && ys[j][i] < 2 * NTT_MODS[f + j] && Cong(ys[j][i], x, NTT_MODS[f + j])
  }

  method Residues(ys: seq<seq<Limb>>, f: nat, i: nat, ghost x: nat) returns (y: seq<Limb>)
    requires AreResidues(ys, f, i, x)
    ensures |y| == |ys| && forall j :: 0 <= j < |y| ==> IsResidue(y[j], x, f + j)
  {
    hide Cong;
    y := [];
    for j := 0 to |ys|
      invariant |y| == j && forall j' :: 0 <= j' < j ==> IsResidue(y[j'], x, f + j')
    {
      var m := NTT_MODS[f + j];
      var a := ys[j][i];
      ReducedResidue(a, x, m);
      y := y + [if a >= m then a - m else a];
    }
  }

  lemma {:induction false} ReducedResidue(a: int, x: int, m: int)
    requires m > 0 && Cong(a, x, m)
    ensures Cong(a - m, x, m)
  {
    CongIntro(a - m, a, m, -1);
    CongTrans(a - m, a, x, m);
  }

  /** The digits written so far, with the carry above them, are the coefficients read so far. */
  ghost predicate Progress(v: int, carry: int, c: seq<int>, w: nat, i: nat)
    requires i <= |c|
  {
    0 <= v < Pow2(w * i) && 0 <= carry && MulAdd(v, Pow2(w * i), carry) == Eval(c[..i], Pow2(w))
  }

  lemma {:induction false} ProgressStep(v: int, carry: int, c: seq<int>, w: nat, i: nat, lo: nat, hi: nat)
    requires i < |c| && Progress(v, carry, c, w, i) && lo < Pow2(w) && MulAdd(lo, Pow2(w), hi) == c[i] + carry
    ensures w * (i + 1) == w * i + w && lo * Pow2(w * i) >= 0
    ensures Progress(v + lo * Pow2(w * i), hi, c, w, i + 1)
  {
    hide Pow2, Eval, MulAdd;
    MulDist(w, i, 1);
    Pow2Add(w * i, w);
    var d, p := Pow2(w), Pow2(w * i);
    assert c[..i + 1] == c[..i] + [c[i]];
    EvalConcat(c[..i], [c[i]], d);
    EvalOne(c[i], d);
    PowerOfPow2(w, i);
    ProgressArithmetic(v, lo, hi, p, d, carry, c[i], Eval(c[..i], d));
  }

  lemma {:induction false} EvalOne(x: int, d: int)
    ensures Eval([x], d) == x
  {
    assert Eval([], d) == 0;
  }

  lemma {:induction false} ProgressArithmetic(v: int, lo: int, hi: int, p: int, d: int, carry: int, c: int, e: int)
    requires MulAdd(lo, d, hi) == c + carry && 0 <= lo < d && 0 <= v < p && MulAdd(v, p, carry) == e
    ensures 0 <= lo * p && 0 <= v + lo * p < p * d && MulAdd(v + lo * p, p * d, hi) == e + p * c
  {
    ScaledLess(v, p, lo, d);
    MulMono(p, 0, lo);
    MulDist(p, c, carry);
    MulDist(p, lo, d * hi);
    MulAssoc(p, d, hi);
  }

  lemma {:induction false} QuotientRemainder(u: nat, d: nat)
    requires d > 0
    ensures 0 <= u % d < d && 0 <= u / d && MulAdd(u % d, d, u / d) == u
  {
  }

  lemma {:induction false} ProgressStart(c: seq<int>, w: nat)
    ensures Progress(0, 0, c, w, 0)
  {
    assert w * 0 == 0;
    assert c[..0] == [];
  }

  /** When the digits cover the result, what was written is the whole number. */
  lemma {:induction false} ProgressEnd(v: nat, carry: nat, c: seq<int>, w: nat, i: nat, total: nat, x: int)
    requires i <= |c| && Progress(v, carry, c, w, i) && InRange(c, x)
    requires Eval(c, Pow2(w)) == total < Pow2(w * i)
    ensures v == total
  {
    hide Pow2, Eval;
    var d, p := Pow2(w), Pow2(w * i);
    assert c == c[..i] + c[i..];
    EvalConcat(c[..i], c[i..], d);
    PowerOfPow2(w, i);
    EvalNonNegative(c[i..], d, x);
    var h: int := Eval(c[i..], d);
    NothingAbove(v, p, carry, h, total);
  }

  lemma {:induction false} NothingAbove(v: int, p: int, carry: int, h: int, total: int)
    requires 0 <= v && 0 < p && 0 <= carry && 0 <= h && total == v + p * carry + p * h && total < p
    ensures v == total
  {
    MulMono(p, 0, carry);
    MulMono(p, 0, h);
    if carry >= 1 { MulMono(p, 1, carry); }
    if h >= 1 { MulMono(p, 1, h); }
  }

  lemma {:induction false} ModuliFit(f: nat)
    requires 0 <= f <= 3
    ensures 2 * ModuliFrom(f) <= Pow(NB_MODS - f)
  {
    FewModuli();
    FewLimbs();
  }

  lemma {:induction false} FewModuli()
    ensures ModuliFrom(3) == NTT_MODS[3] * NTT_MODS[4] as int && ModuliFrom(2) == NTT_MODS[2] * ModuliFrom(3)
    ensures ModuliFrom(1) == NTT_MODS[1] * ModuliFrom(2) && ModuliFrom(0) == NTT_MODS[0] * ModuliFrom(1)
  {
    assert ModuliFrom(5) == 1;
    assert ModuliFrom(4) == NTT_MODS[4] * ModuliFrom(5);
  }

  lemma {:induction false} FewLimbs()
    ensures Pow(2) == B * B && Pow(3) == B * B * B && Pow(4) == B * B * B * B && Pow(5) == B * B * B * B * B
  {
    assert Pow(0) == 1 && Pow(1) == B;
  }

  /** From convolutions modulo the primes to the limbs of the number they stand for. */
  method NttToLimb(tabr: array<Limb>, ys: seq<seq<Limb>>, len: nat, w: nat, s: NttState, ghost c: seq<int>)
    requires ValidState(s) && 2 <= |ys| <= NB_MODS && 1 <= w <= 64 * |ys|
    requires |c| == len && InRange(c, ModuliFrom(NB_MODS - |ys|) - 1)
    requires forall i :: 0 <= i < len ==> AreResidues(ys, NB_MODS - |ys|, i, c[i])
    requires 64 * tabr.Length <= w * len && 0 <= Eval(c, Pow2(w)) < Pow(tabr.Length)
    modifies tabr
    ensures Val(tabr[..]) == Eval(c, Pow2(w))
  {
    hide MulAdd, Val, Pow, Pow2, Eval, AreResidues, Progress, IsResidue, ValidModulus, IsPairInverse, ModuliFrom, Mixed,
         Holds;
    var nb := |ys|;
    var f := NB_MODS - nb;
    for i := 0 to tabr.Length
      invariant forall k :: 0 <= k < i ==> tabr[k] == 0
    {
      tabr[i] := 0;
    }
    ZeroTable(tabr[..]);
    var carry: seq<Limb> := seq(nb, _ => 0);
    ValZeros(nb);
    var n := (64 * tabr.Length + w - 1) / w;
    CeilLeast(64 * tabr.Length, w, n);
    assert n <= len;
    ghost var v: nat := 0;
    ProgressStart(c, w);
    ModuliFit(f);
    for i := 0 to n
      invariant |carry| == nb && Val(carry) <= ModuliFrom(f)
      invariant Holds(tabr[..], v) && Progress(v, Val(carry), c, w, i)
    {
      var y := Residues(ys, f, i, c[i]);
      y := ToMixedRadix(y, f, s.pairInverses, c[i]);
      var u := FromMixedRadix(y, f, carry);
      ghost var lo, hi := Val(u) % Pow2(w), Val(u) / Pow2(w);
      QuotientRemainder(Val(u), Pow2(w));
      ProgressStep(v, Val(carry), c, w, i, lo, hi);
      ProgressBelow(v, Val(carry), c, w, i);
      WriteDigit(tabr, w * i, u, w, v);
      v := v + lo * Pow2(w * i);
      QuotientShrinks(u, w);
      carry := ShiftCarry(u, w);
    }
    Covered(tabr.Length, w, n);
    ProgressEnd(v, Val(carry), c, w, n, Eval(c, Pow2(w)), ModuliFrom(f) - 1);
    HeldWhole(tabr[..], v);
  }

  lemma {:induction false} ProgressBelow(v: nat, carry: nat, c: seq<int>, w: nat, i: nat)
    requires i <= |c| && Progress(v, carry, c, w, i)
    ensures v < Pow2(w * i)
  {
  }

  lemma {:induction false} ZeroTable(s: seq<Limb>)
    requires forall k :: 0 <= k < |s| ==> s[k] == 0
    ensures Holds(s, 0)
  {
    hide Pow;
    assert s == seq(|s|, _ => 0);
    ValZeros(|s|);
    BelowDivisor(0, Pow(|s|));
  }

  lemma {:induction false} HeldWhole(s: seq<Limb>, v: nat)
    requires Holds(s, v) && v < Pow(|s|)
    ensures Val(s) == v
  {
    hide Pow, Val;
    BelowDivisor(v, Pow(|s|));
  }

  lemma {:induction false} Covered(r: nat, w: nat, n: nat)
    requires 64 * r <= w * n
    ensures Pow(r) <= Pow2(w * n)
  {
    hide Pow, Pow2;
    Pow2Limbs(r);
    Pow2Mono(64 * r, w * n);
  }

  // ---------- the product ----------

  lemma {:induction false} IntBitsValues()
    ensures Pow2(185) == B * B * 0x200_0000_0000_0000
    ensures Pow2(246) == B * B * B * 0x40_0000_0000_0000
    ensures Pow2(307) == B * B * B * B * 0x8_0000_0000_0000
  {
    hide Pow2;
    Levels();
    Pow2Three();
    OneShift();
    Pow2Limb();
    Pow2Add(51, 3);
    Pow2Add(54, 3);
    Pow2Add(64, 64);
    Pow2Add(128, 64);
    Pow2Add(192, 64);
    Pow2Add(128, 57);
    Pow2Add(192, 54);
    Pow2Add(256, 51);
  }

  lemma {:induction false} CoefficientsFit(nb: nat)
    requires 3 <= nb <= NB_MODS
    ensures Pow2(IntBits(nb)) <= ModuliFrom(NB_MODS - nb)
  {
    hide Pow2;
    IntBitsValues();
    FewModuli();
  }

  /** Coefficients of digits of a valid shape stay below the product of the moduli. */
  lemma {:induction false} ShapeFits(s: Shape, len: nat, e: nat)
    requires ValidShape(s, len) && e == (Pow2(s.dpl) - 1) * (Pow2(s.dpl) - 1)
    ensures Pow2(s.k) * e < ModuliFrom(NB_MODS - s.nb)
  {
    hide Pow2;
    CoefficientsFit(s.nb);
    Pow2Mono(s.k + 2 * s.dpl, IntBits(s.nb));
    Pow2Add(s.k, 2 * s.dpl);
    Pow2Add(s.dpl, s.dpl);
    var d := Pow2(s.dpl);
    assert e < d * d by { SquareBelow(d, e); }
    MulStrict(Pow2(s.k), e, d * d);
  }

  lemma {:induction false} SquareBelow(d: nat, e: nat)
    requires d >= 1 && e == (d - 1) * (d - 1)
    ensures e < d * d
  {
    assert d * d == e + 2 * (d - 1) + 1;
  }

  /** Convolution `j` of the digits of the two operands. */
  method ConvolveModulo(xs: seq<Limb>, ys: seq<Limb>, k: nat, w: nat, p: Plan) returns (r: seq<Limb>)
    requires 1 <= k && ValidUpTo(p, k) && p.m > 0 && 1 <= w <= DPL_MAX
    ensures |r| == Pow2(k) && Lazy(r, p.m)
    ensures CongSeq(r, Cyclic(DigitsOf(Val(xs), Pow2(w), Pow2(k)), DigitsOf(Val(ys), Pow2(w), Pow2(k))), p.m)
  {
    hide Cong, Pow2, Val, DigitsOf, Cyclic, RootAt, IsFactor, IsRootTable, IsNormAt;
    var n := Pow2(k);
    PlanFacts(p, k, k);
    var buf1, buf2 := new Limb[n], new Limb[n];
    LimbToNtt(buf1, xs, w, p.m, p.mInv);
    LimbToNtt(buf2, ys, w, p.m, p.mInv);
    ghost var a, b := buf1[..], buf2[..];
    ghost var da, db := DigitsOf(Val(xs), Pow2(w), n), DigitsOf(Val(ys), Pow2(w), n);
    NttConv(buf1, buf2, k, k, p);
    Unscaled(buf1[..], Cyclic(a, b), p.norms[k] * n, p.m);
    CyclicCong(a, da, b, db, p.m);
    r := buf1[..];
    CongSeqTrans(r, Cyclic(a, b), Cyclic(da, db), p.m);
  }

  const FFT_MUL_THRESHOLD: nat := 100

  /** The product of two numbers of at least a hundred limbs, for all totals that the library can multiply. */
  method Multiply(tabr: array<Limb>, xs: seq<Limb>, ys: seq<Limb>)
    requires |xs| >= FFT_MUL_THRESHOLD && |ys| >= FFT_MUL_THRESHOLD && |xs| + |ys| <= MAX_LIMBS
    requires tabr.Length == |xs| + |ys|
    modifies tabr
    ensures Val(tabr[..]) == Val(xs) * Val(ys)
  {
    hide Val, Pow, Pow2, Eval, DigitsOf, Cyclic, Cong, ValidPlan, AreResidues, IsPairInverse, Lazy, ModuliFrom;
    var s := StaticInit();
    var len := |xs| + |ys|;
    var shape := GetFftSize(len);
    var k, w, nb := shape.k, shape.dpl, shape.nb;
    var f := NB_MODS - nb;
    var n := Pow2(k);
    ghost var d := Pow2(w);
    ghost var c := Cyclic(DigitsOf(Val(xs), d, n), DigitsOf(Val(ys), d, n));
    Operands(xs, ys, shape, c);
    var convs: seq<seq<Limb>> := [];
    for j := 0 to nb
      invariant |convs| == j
      invariant forall i :: 0 <= i < j ==> IsConvolution(convs[i], c, f + i)
    {
      assert ValidModulus(s.plans[f + j], f + j);
      var r := ConvolveModulo(xs, ys, k, w, s.plans[f + j]);
      convs := convs + [r];
    }
    forall i | 0 <= i < n
      ensures AreResidues(convs, f, i, c[i])
    {
      ConvolutionResidues(convs, c, f, i);
    }
    NttToLimb(tabr, convs, n, w, s, c);
  }

  /** A convolution of `c` modulo modulus `j`. */
  ghost predicate IsConvolution(r: seq<Limb>, c: seq<int>, j: nat) {
    j < NB_MODS && Lazy(r, NTT_MODS[j]) && CongSeq(r, c, NTT_MODS[j])
  }

  lemma {:induction false} ConvolutionResidues(convs: seq<seq<Limb>>, c: seq<int>, f: nat, i: nat)
    requires f + |convs| == NB_MODS && i < |c| && forall j :: 0 <= j < |convs| ==> IsConvolution(convs[j], c, f + j)
    ensures AreResidues(convs, f, i, c[i])
  {
    hide Cong;
    forall j | 0 <= j < |convs|
      ensures i < |convs[j]| && convs[j][i] < 2 * NTT_MODS[f + j] && Cong(convs[j][i], c[i], NTT_MODS[f + j])
    {
      assert IsConvolution(convs[j], c, f + j);
    }
  }

  /** The digits' convolution is the product, and every coefficient can be reconstructed. */
  lemma {:induction false} Operands(xs: seq<Limb>, ys: seq<Limb>, s: Shape, c: seq<int>)
    requires ValidShape(s, |xs| + |ys|)
    requires c == Cyclic(DigitsOf(Val(xs), Pow2(s.dpl), Pow2(s.k)), DigitsOf(Val(ys), Pow2(s.dpl), Pow2(s.k)))
    ensures Eval(c, Pow2(s.dpl)) == Val(xs) * Val(ys) < Pow(|xs| + |ys|)
    ensures InRange(c, ModuliFrom(NB_MODS - s.nb) - 1)
  {
    hide Val, Pow, Pow2, Eval, DigitsOf, Cyclic, ModuliFrom, Power;
    var d, n, len := Pow2(s.dpl), Pow2(s.k), |xs| + |ys|;
    var e: nat := (d - 1) * (d - 1);
    ProductSize(xs, ys);
    Covered(len, s.dpl, n);
    PowerOfPow2(s.dpl, n);
    CyclicIsProduct(Val(xs), Val(ys), d, n, e);
    ShapeFits(s, len, e);
  }

  lemma {:induction false} ProductSize(xs: seq<Limb>, ys: seq<Limb>)
    ensures Val(xs) * Val(ys) < Pow(|xs| + |ys|) && Val(xs) < Pow(|xs| + |ys|) && Val(ys) < Pow(|xs| + |ys|)
  {
    hide Val, Pow;
    ValBound(xs);
    ValBound(ys);
    PowMono(|xs|, |xs| + |ys|);
    PowMono(|ys|, |xs| + |ys|);
    PowAdd(|xs|, |ys|);
    StrictProduct(Val(xs), Pow(|xs|), Val(ys), Pow(|ys|));
  }

  lemma {:induction false} StrictProduct(a: nat, p: nat, b: nat, q: nat)
    requires a < p && b < q
    ensures a * b < p * q
  {
    MulMono(a, b, q);
    MulStrict(q, a, p);
  }
}
