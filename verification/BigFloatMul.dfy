/** Multiplication of floating point numbers: one rounding of the exact product. Faithful rounding cuts the operands
    first. */
module BigFloatMul {
  import opened Arith
  import opened Powers
  import opened Limbs
  import opened Kernels
  import opened Bits
  import opened Rounding
  import opened BigFloatBits
  import opened BigFloat
  import opened FftSize
  import FftMul
  import BigFloatAdd

  // ---------- products of tables ----------

  /** The product of the numbers that two tables stand for. */
  ghost function ProductVal(xs: seq<Limb>, ys: seq<Limb>): nat { Val(xs) * Val(ys) }

  method ArrayOf(s: seq<Limb>) returns (a: array<Limb>)
    ensures fresh(a) && a[..] == s
  {
    a := new Limb[|s|](i requires 0 <= i < |s| => s[i]);
  }

  /** The product of two tables: schoolbook, or by the transform when both are long. */
  method ProductTable(xs: seq<Limb>, ys: seq<Limb>) returns (tab: seq<Limb>)
    requires xs != [] && ys != []
    ensures |tab| == |xs| + |ys| && Val(tab) == Val(xs) * Val(ys)
  {
    hide Val, Pow;
    var r := new Limb[|xs| + |ys|];
    if |xs| >= FftMul.FFT_MUL_THRESHOLD && |ys| >= FftMul.FFT_MUL_THRESHOLD && |xs| + |ys| <= MAX_LIMBS {
      FftMul.Multiply(r, xs, ys);
    } else {
      var a := ArrayOf(xs);
      var b := ArrayOf(ys);
      MpMul(r, 0, a, 0, |xs|, b, 0, |ys|);
      assert a[0..0 + |xs|] == xs && b[0..0 + |ys|] == ys;
      assert r[0..0 + |xs| + |ys|] == r[..];
    }
    tab := r[..];
  }

  // ---------- cutting the operands ----------

  /** The leading `k` limbs of a table, or all of it. */
  function Leading(tab: seq<Limb>, k: nat): (t: seq<Limb>) { if |tab| <= k then tab else tab[|tab| - k..] }

  /** `x` units of `p` are the most that `v` holds. */
  ghost predicate Brackets(x: int, p: int, v: int) { x * p <= v < (x + 1) * p }

  /** What is cut off is less than one unit of what is kept, and nothing if the table is short. */
  lemma {:induction false} LeadingValue(tab: seq<Limb>, k: nat)
    ensures var t := Leading(tab, k); var c := |tab| - |t|;
            && c >= 0 && Brackets(Val(t), Pow(c), Val(tab))
            && (|tab| <= k ==> c == 0 && t == tab) && (|tab| > k ==> |t| == k)
  {
    hide Val, Pow;
    var t := Leading(tab, k);
    var c := |tab| - |t|;
    if |tab| > k {
      ValSplit(tab, c);
      ValBound(tab[..c]);
      assert (Val(t) + 1) * Pow(c) == Val(t) * Pow(c) + Pow(c);
      assert Pow(c) * Val(t) == Val(t) * Pow(c);
    } else {
      EmptyTable();
    }
  }

  /** The product of cut operands: what is missing from the exact product, in units of the cut one. */
  lemma {:induction false} CutProduct(a: nat, a': nat, p: nat, b: nat, b': nat, q: nat, r: nat)
    requires p > 0 && q > 0 && r == p * q && Brackets(a', p, a) && Brackets(b', q, b)
    ensures (a' * b') * r <= a * b <= (a' * b') * r + (a' + b' + 1) * r
  {
    assert (a' * b') * r == (a' * p) * (b' * q);
    assert (a' * b') * r + (a' + b' + 1) * r == ((a' + 1) * p) * ((b' + 1) * q) by {
      assert (a' + 1) * (b' + 1) == a' * b' + (a' + b' + 1);
      assert ((a' + 1) * p) * ((b' + 1) * q) == ((a' + 1) * (b' + 1)) * (p * q);
    }
    MulMono(a' * p, b' * q, b);
    MulMono(b, a' * p, a);
    MulMono(a, b, (b' + 1) * q);
    MulMono((b' + 1) * q, a, (a' + 1) * p);
    assert a * b == b * a;
  }

  lemma {:induction false} CutOne(a: nat, b: nat, b': nat, q: nat)
    requires q > 0 && Brackets(b', q, b)
    ensures (a * b') * q <= a * b <= (a * b') * q + a * q
  {
    assert (a * b') * q == a * (b' * q);
    assert (a * b') * q + a * q == a * ((b' + 1) * q) by { assert (b' + 1) * q == b' * q + q; }
    MulMono(a, b' * q, b);
    MulMono(a, b, (b' + 1) * q);
  }

  // ---------- faithful rounding ----------

  /** Rounding to nearest a number that is short by at most half a unit is faithful. */
  lemma {:induction false} FaithfulFromNearest(n: nat, u: int, n': nat, s: nat, w: int, q: int, sign: bool, lim: int)
    requires w >= u + s && IsRoundedTo(n', u + s, w, q, RNDNA, sign)
    requires Missing(n, n', Pow2(s), lim) && lim * Pow2(s) <= Pow2(w - u)
    ensures IsRoundedTo(n, u, w, q, RNDF, sign)
  {
    hide Pow2;
    Pow2Add(w - u - s, s);
    var p, c := Pow2(w - u - s), Pow2(s);
    NearestScaled(n, n', p, c, q, p * c);
  }

  lemma {:induction false} NearestScaled(n: int, n': int, p: int, c: int, q: int, pc: int)
    requires c > 0 && p > 0 && pc == p * c && -p <= 2 * (n' - q * p) < p && n' * c <= n && 2 * (n - n' * c) <= pc
    ensures q * pc - pc < n < q * pc + pc
  {
    MulAssoc(q, p, c);
    MulMono(c, -p, 2 * (n' - q * p));
    MulStrict(c, 2 * (n' - q * p), p);
    assert c * (2 * (n' - q * p)) == 2 * (n' * c) - 2 * (q * pc);
    MulMono(c, 1, p);
  }

  lemma {:induction false} MissingIsSmall(x: nat, m: nat, n: nat, r: nat, lim: nat)
    requires m * r <= n <= m * r + x * r && 2 * x <= lim
    ensures Missing(n, m, r, lim)
  {
    MulMono(r, 2 * x, lim);
    assert r * (2 * x) == 2 * (x * r);
  }

  lemma {:induction false} BothSmall(a': nat, b': nat, l: nat, prec: nat, bits: nat)
    requires a' < Pow2(64 * l) && b' < Pow2(64 * l) && prec <= bits && 128 * l - 1 <= bits && prec + 3 <= 64 * l
    ensures 2 * (a' + b' + 1) <= Pow2(bits - prec)
  {
    hide Pow2;
    Pow2Mono(64 * l + 2, bits - prec);
    Pow2Add(64 * l, 2);
    TwoShift();
  }

  lemma {:induction false} OneSmall(a: nat, la: nat, lb: nat, prec: nat, bits: nat)
    requires a < Pow2(64 * la) && prec <= bits && 64 * la + 64 * lb - 1 <= bits && prec + 2 <= 64 * lb
    ensures 2 * a <= Pow2(bits - prec)
  {
    hide Pow2;
    Pow2Mono(64 * la + 1, bits - prec);
    Pow2Add(64 * la, 1);
    OneShift();
  }

  /** The limbs that faithful rounding keeps of an operand: two bits more than the precision, rounded up to limbs. */
  function KeptLimbs(prec1: nat): (k: nat)
    ensures 64 * k >= prec1 + 2 && (prec1 % 64 != 62 ==> 64 * k >= prec1 + 3)
  {
    (prec1 + 2 + 63) / 64
  }

  function Operand(tab: seq<Limb>, prec1: nat, mode: Mode): (t: seq<Limb>) {
    if mode == RNDF then Leading(tab, KeptLimbs(prec1)) else tab
  }

  /** Only operands that are both cut to exactly two bits more than the precision can spoil faithful rounding. */
  predicate Reliable(la: nat, lb: nat, prec1: nat) {
    prec1 % 64 != 62 || la <= KeptLimbs(prec1) || lb <= KeptLimbs(prec1)
  }

  /** The product of finite numbers in units of `2^u`: rounded once from the exact product, or, for faithful rounding,
      from the product of the cut operands, which is then next to the exact one. */
  ghost predicate IsRoundedProduct(ta: seq<Limb>, tb: seq<Limb>, u: int, e: int, q: int, r: Bf, st: Status, prec1: nat,
                                   flags: Flags, sign: bool)
    reads r
  {
    var xa, xb := Operand(ta, prec1, flags.mode), Operand(tb, prec1, flags.mode);
    var s := 64 * (|ta| - |xa| + |tb| - |xb|);
    && CorrectlyRounded(ProductVal(xa, xb), u + s, e, q, r.kind, r.expn, r.tab, st, prec1, flags, sign)
    && (flags.mode == RNDF ==> IsRoundedTo(ProductVal(xa, xb), u + s, e - EffectivePrec(e, prec1, flags), q, RNDNA,
                                           sign))
    && (flags.mode == RNDF && Reliable(|ta|, |tb|, prec1)
        ==> IsRoundedTo(ProductVal(ta, tb), u, e - EffectivePrec(e, prec1, flags), q, RNDF, sign))
  }

  method MulFinite(r: Bf, a: Bf, b: Bf, prec1: nat, flags: Flags) returns (st: Status, ghost e: int, ghost q: int)
    requires r != a && r != b && a.kind == Finite && b.kind == Finite && a.WellFormed() && b.WellFormed() && prec1 > 0
             && !flags.radixPoint
    modifies r
    ensures r.WellFormed() && r.sign == (a.sign != b.sign)
    ensures IsRoundedProduct(a.tab, b.tab, BigFloatAdd.Unit(a) + BigFloatAdd.Unit(b), e, q, r, st, prec1, flags, r.sign)
  {
    hide Val, Pow, Pow2, CorrectlyRounded, IsRoundedTo, Leading;
    var xa, xb := Operand(a.tab, prec1, flags.mode), Operand(b.tab, prec1, flags.mode);
    OperandNormal(a.tab, prec1, flags.mode);
    OperandNormal(b.tab, prec1, flags.mode);
    PositiveMantissa(xa);
    PositiveMantissa(xb);
    MulMono(Val(xb), 1, Val(xa));
    var tab := ProductTable(xa, xb);
    r.kind, r.sign, r.expn, r.tab := Finite, a.sign != b.sign, a.expn + b.expn, tab;
    st, e, q := r.NormalizeAndRound(prec1, flags);
    ghost var u := BigFloatAdd.Unit(a) + BigFloatAdd.Unit(b);
    if flags.mode == RNDF && Reliable(|a.tab|, |b.tab|, prec1) {
      FaithfulProduct(a.tab, b.tab, u, e, q, prec1, flags, r.sign, r.kind, r.expn, r.tab, st);
    }
  }

  /** A cut operand is still normalized. */
  lemma {:induction false} OperandNormal(tab: seq<Limb>, prec1: nat, mode: Mode)
    requires tab != [] && tab[|tab| - 1] >= TOP_BIT
    ensures var t := Operand(tab, prec1, mode); t != [] && |t| <= |tab| && t[|t| - 1] >= TOP_BIT
  {
  }

  /** Next to the exact product. */
  lemma {:induction false} FaithfulProduct(ta: seq<Limb>, tb: seq<Limb>, u: int, e: int, q: int, prec1: nat,
                                           flags: Flags, sign: bool,
                                           kind: Kind, expn: int, tab: seq<Limb>, st: Status)
    requires ta != [] && tb != [] && ta[|ta| - 1] >= TOP_BIT && tb[|tb| - 1] >= TOP_BIT && prec1 > 0
    requires flags.mode == RNDF && !flags.radixPoint && Reliable(|ta|, |tb|, prec1)
    requires var xa, xb := Leading(ta, KeptLimbs(prec1)), Leading(tb, KeptLimbs(prec1));
             var s := 64 * (|ta| - |xa| + |tb| - |xb|);
             && CorrectlyRounded(ProductVal(xa, xb), u + s, e, q, kind, expn, tab, st, prec1, flags, sign)
             && IsRoundedTo(ProductVal(xa, xb), u + s, e - EffectivePrec(e, prec1, flags), q, RNDNA, sign)
    ensures IsRoundedTo(ProductVal(ta, tb), u, e - EffectivePrec(e, prec1, flags), q, RNDF, sign)
  {
    hide Val, Pow, Pow2, IsRoundedTo, RoundsTo, LosesBits, Leading, Missing;
    var k := KeptLimbs(prec1);
    var xa, xb := Leading(ta, k), Leading(tb, k);
    LeadingValue(ta, k);
    LeadingValue(tb, k);
    var ca, cb := |ta| - |xa|, |tb| - |xb|;
    if ca == 0 && cb == 0 {
      return;
    }
    OperandNormal(ta, prec1, RNDF);
    OperandNormal(tb, prec1, RNDF);
    var s, w := 64 * (ca + cb), e - EffectivePrec(e, prec1, flags);
    var bits := e - (u + s);
    ProductBits(xa, xb, bits);
    MissingFromProduct(ta, xa, tb, xb, k, bits, prec1);
    Pow2Limbs(ca + cb);
    Pow2Add(bits - prec1, s);
    Pow2Mono(bits - prec1 + s, w - u);
    FaithfulFromNearest(ProductVal(ta, tb), u, ProductVal(xa, xb), s, w, q, sign, Pow2(bits - prec1));
  }

  lemma {:induction false} ProductBits(xa: seq<Limb>, xb: seq<Limb>, bits: int)
    requires xa != [] && xb != [] && xa[|xa| - 1] >= TOP_BIT && xb[|xb| - 1] >= TOP_BIT
    requires bits > 0 && Val(xa) * Val(xb) < Pow2(bits)
    ensures bits >= 64 * |xa| + 64 * |xb| - 1
  {
    hide Val, Pow, Pow2;
    var x, y := 64 * |xa| - 1, 64 * |xb| - 1;
    TopHalf(xa);
    TopHalf(xb);
    Pow2Add(x, y);
    MulMono(Pow2(x), Pow2(y), Val(xb));
    MulMono(Val(xb), Pow2(x), Val(xa));
    assert Val(xa) * Val(xb) == Val(xb) * Val(xa);
    if bits <= x + y { Pow2Mono(bits, x + y); }
  }

  lemma {:induction false} MissingFromProduct(ta: seq<Limb>, xa: seq<Limb>, tb: seq<Limb>, xb: seq<Limb>, k: nat,
                                              bits: nat, prec1: nat)
    requires xa == Leading(ta, k) && xb == Leading(tb, k) && k == KeptLimbs(prec1) && Reliable(|ta|, |tb|, prec1)
    requires |xa| >= 1 && |xb| >= 1 && (|ta| > k || |tb| > k) && bits >= 64 * |xa| + 64 * |xb| - 1
    ensures bits >= prec1 && Missing(Val(ta) * Val(tb), Val(xa) * Val(xb), Pow(|ta| - |xa| + |tb| - |xb|),
                                     Pow2(bits - prec1))
  {
    hide Val, Pow, Pow2, Leading, Missing, Brackets;
    LeadingValue(ta, k);
    LeadingValue(tb, k);
    TableBelow(xa);
    TableBelow(xb);
    var ca, cb := |ta| - |xa|, |tb| - |xb|;
    PowAdd(ca, cb);
    EmptyTable();
    if ca == 0 {
      OneIsCut(Val(ta), Val(tb), Val(xb), Pow(cb), |xa|, |xb|, prec1, bits);
    } else if cb == 0 {
      OneIsCut(Val(tb), Val(ta), Val(xa), Pow(ca), |xb|, |xa|, prec1, bits);
      Commutes(Val(ta), Val(tb));
      Commutes(Val(xa), Val(xb));
    } else {
      BothAreCut(Val(ta), Val(xa), Pow(ca), Val(tb), Val(xb), Pow(cb), Pow(ca + cb), |xa|, prec1, bits);
    }
  }

  /** `m` units of `r` fall short of `n` by at most half of `lim` units. */
  ghost predicate Missing(n: int, m: int, r: int, lim: int) { m * r <= n && 2 * (n - m * r) <= lim * r }

  lemma {:induction false} OneIsCut(a: nat, b: nat, b': nat, q: nat, la: nat, lb: nat, prec1: nat, bits: nat)
    requires q > 0 && Brackets(b', q, b) && a < Pow2(64 * la) && prec1 <= bits && bits >= 64 * la + 64 * lb - 1
             && 64 * lb >= prec1 + 2
    ensures Missing(a * b, a * b', q, Pow2(bits - prec1))
  {
    hide Pow2, Brackets;
    CutOne(a, b, b', q);
    OneSmall(a, la, lb, prec1, bits);
    MissingIsSmall(a, a * b', a * b, q, Pow2(bits - prec1));
  }

  lemma {:induction false} BothAreCut(a: nat, a': nat, p: nat, b: nat, b': nat, q: nat, r: nat, l: nat, prec1: nat,
                                      bits: nat)
    requires p > 0 && q > 0 && r == p * q && Brackets(a', p, a) && Brackets(b', q, b)
    requires a' < Pow2(64 * l) && b' < Pow2(64 * l) && prec1 <= bits && bits >= 128 * l - 1 && 64 * l >= prec1 + 3
    ensures Missing(a * b, a' * b', r, Pow2(bits - prec1))
  {
    hide Pow2, Missing, Brackets;
    var x, m, n := a' + b' + 1, a' * b', a * b;
    CutProduct(a, a', p, b, b', q, r);
    BothSmall(a', b', l, prec1, bits);
    MissingIsSmall(x, m, n, r, Pow2(bits - prec1));
  }

  lemma {:induction false} Commutes(x: int, y: int)
    ensures x * y == y * x
  {
  }

  /** `r` is the product: NaN, infinities and zeros as IEEE 754 has them, otherwise the rounded product. */
  ghost predicate IsProduct(r: Bf, a: Bf, b: Bf, st: Status, e: int, q: int, prec1: nat, flags: Flags)
    reads r, a, b
  {
    var none := Status(false, false, false);
    if a.kind == NotANumber || b.kind == NotANumber then r.kind == NotANumber && st == none
    else if (a.kind == Infinite && b.kind == Zero) || (a.kind == Zero && b.kind == Infinite) then r.kind == NotANumber
       && st == none.(invalidOp := true)
    else if a.kind == Infinite || b.kind == Infinite then r.kind == Infinite && r.sign == (a.sign != b.sign)
       && st == none
    else if a.kind == Zero || b.kind == Zero then r.kind == Zero && r.sign == (a.sign != b.sign) && st == none
    else
      && r.sign == (a.sign != b.sign)
      && IsRoundedProduct(a.tab, b.tab, BigFloatAdd.Unit(a) + BigFloatAdd.Unit(b), e, q, r, st, prec1, flags, r.sign)
  }

  method Mul(r: Bf, a: Bf, b: Bf, prec1: nat, flags: Flags) returns (st: Status, ghost e: int, ghost q: int)
    requires r != a && r != b && a.WellFormed() && b.WellFormed() && prec1 > 0 && !flags.radixPoint
    modifies r
    ensures r.WellFormed() && IsProduct(r, a, b, st, e, q, prec1, flags)
  {
    hide Val, Pow2, IsRoundedProduct;
    if a.kind == Finite && b.kind == Finite {
      st, e, q := MulFinite(r, a, b, prec1, flags);
      return;
    }
    var sign := a.sign != b.sign;
    e, q := 0, 0;
    st := Status(false, false, false);
    if a.kind == NotANumber || b.kind == NotANumber {
      r.kind, r.tab := NotANumber, [];
    } else if a.kind == Infinite || b.kind == Infinite {
      if a.kind == Zero || b.kind == Zero {
        r.kind, r.tab := NotANumber, [];
        st := st.(invalidOp := true);
      } else {
        r.kind, r.sign, r.tab := Infinite, sign, [];
      }
    } else {
      r.kind, r.sign, r.tab := Zero, sign, [];
    }
  }

  // ---------- where faithful rounding fails ----------

  /** All ones. */
  function Ones(n: nat): (s: seq<Limb>)
    ensures |s| == n
  {
    if n == 0 then [] else [B - 1] + Ones(n - 1)
  }

  lemma {:induction false} OnesValue(n: nat)
    ensures Val(Ones(n)) == Pow(n) - 1
  {
    if n == 0 {
      EmptyTable();
    } else {
      OnesValue(n - 1);
      assert Ones(n)[1..] == Ones(n - 1);
    }
  }

  function Zeros(n: nat): (s: seq<Limb>)
    ensures |s| == n
  {
    seq(n, _ => 0)
  }

  /** The leading `k` limbs of the operands: just below one, and just above one half. */
  function HighOne(k: nat): (s: seq<Limb>)
    requires k >= 1
  {
    [B - 4] + Ones(k - 1)
  }

  function HighHalf(k: nat): (s: seq<Limb>)
    requires k >= 1
  {
    if k == 1 then [TOP_BIT + 1] else [1] + Zeros(k - 2) + [TOP_BIT]
  }

  /** Operands of `k + i` limbs, the lower ones all ones. */
  function NearOne(k: nat, i: nat): (s: seq<Limb>)
    requires k >= 1
  {
    Ones(i) + HighOne(k)
  }

  function NearHalf(k: nat, i: nat): (s: seq<Limb>)
    requires k >= 1
  {
    Ones(i) + HighHalf(k)
  }

  lemma {:induction false} HighOneValue(k: nat)
    requires k >= 1
    ensures var s := HighOne(k); |s| == k && s[k - 1] >= TOP_BIT && Val(s) == Pow(k) - 4
  {
    hide Pow;
    var s, o := HighOne(k), Ones(k - 1);
    OnesValue(k - 1);
    assert s[1..] == o;
    ValFirst(s);
    NextPow(k - 1);
    LastOne(k - 1);
  }

  lemma {:induction false} LastOne(n: nat)
    ensures n > 0 ==> Ones(n)[n - 1] == B - 1
  {
    if n > 1 { LastOne(n - 1); }
  }

  lemma {:induction false} HighHalfValue(k: nat)
    requires k >= 1
    ensures var s := HighHalf(k); |s| == k && s[k - 1] >= TOP_BIT && 2 * Val(s) == Pow(k) + 2
  {
    hide Pow, Val;
    if k == 1 {
      SingleLimb(TOP_BIT + 1);
      OnePow();
    } else {
      var z := Zeros(k - 2);
      ValAppend([1] + z, TOP_BIT);
      ValFirst([1] + z);
      assert ([1] + z)[1..] == z;
      ValZeros(k - 2);
      NextPow(k - 1);
      HalfOfLimb(Pow(k - 1));
    }
  }

  /** Ones below a normalized table: they are what is cut off again. */
  lemma {:induction false} OnesBelow(hi: seq<Limb>, i: nat)
    requires i >= 1 && hi != [] && hi[|hi| - 1] >= TOP_BIT
    ensures var s := Ones(i) + hi;
            Canonical(s) && Leading(s, |hi|) == hi && Val(s) == Pow(i) - 1 + Pow(i) * Val(hi)
  {
    hide Pow, Val;
    var s := Ones(i) + hi;
    OnesValue(i);
    ValConcat(Ones(i), hi);
    assert s[|s| - |hi|..] == hi && s[0] == Ones(i)[0] == B - 1;
  }

  lemma {:induction false} HalfOfLimb(p: int)
    ensures 2 * (TOP_BIT * p) == B * p
  {
  }

  /** For every precision that is two short of whole limbs, and for all lengths above it: these operands, rounded
      faithfully, give a number below a power of two that the exact product exceeds. It is neither of the two neighbours
      of the exact product. So `Reliable` excludes no precision and no lengths without need. */
  lemma {:induction false} FaithfulFails(k: nat, i: nat, j: nat, u: int, e: int, q: int, r: Bf, st: Status,
                                         flags: Flags, sign: bool)
    requires k >= 1 && i >= 1 && j >= 1 && flags.mode == RNDF && !flags.radixPoint
             && (flags.subnormal ==> e >= MinExp(flags))
    requires IsRoundedProduct(NearOne(k, i), NearHalf(k, j), u, e, q, r, st, 64 * k - 2, flags, sign)
    ensures !Reliable(|NearOne(k, i)|, |NearHalf(k, j)|, 64 * k - 2) && e == u + 64 * (i + j) + 128 * k - 1
    ensures !IsRoundedTo(ProductVal(NearOne(k, i), NearHalf(k, j)), u, e - (64 * k - 2), q, RNDF, sign)
  {
    hide Val, Pow, Pow2, RoundsTo, LosesBits, HighOne, HighHalf, Leading, IsRounding;
    var xs, ys := HighOne(k), HighHalf(k);
    HighOneValue(k);
    HighHalfValue(k);
    OnesBelow(xs, i);
    OnesBelow(ys, j);
    var x, y, h := Val(xs), Val(ys), Pow2(64 * k - 1);
    var m := 64 * (i + j);
    assert KeptLimbs(64 * k - 2) == k;
    TopHalf(xs);
    CutValues(h, x, y);
    PowersOfHalf(k, h, m);
    ProductExponent(k, i, j, u, e, q, r, st, flags, sign);
    NearestIs(x * y, h, q, sign);
    PowAdd(i, j);
    Pow2Limbs(i + j);
    AtLeastLimb(i);
    AtLeastLimb(j);
    ExactExceeds(h, x, y, Pow(i), Pow(j), Pow2(m));
    NotFaithful(Val(NearOne(k, i)) * Val(NearHalf(k, j)), 4 * h, Pow2(m), q, sign);
  }

  lemma {:induction false} ProductExponent(k: nat, i: nat, j: nat, u: int, e: int, q: int, r: Bf, st: Status,
                                           flags: Flags, sign: bool)
    requires k >= 1 && i >= 1 && j >= 1 && flags.mode == RNDF
    requires IsRoundedProduct(NearOne(k, i), NearHalf(k, j), u, e, q, r, st, 64 * k - 2, flags, sign)
    ensures e == u + 64 * (i + j) + 128 * k - 1
  {
    hide Val, Pow, Pow2, RoundsTo, LosesBits, HighOne, HighHalf, Leading, IsRoundedTo;
    var xs, ys := HighOne(k), HighHalf(k);
    HighOneValue(k);
    HighHalfValue(k);
    OnesBelow(xs, i);
    OnesBelow(ys, j);
    var x, y, h := Val(xs), Val(ys), Pow2(64 * k - 1);
    assert KeptLimbs(64 * k - 2) == k;
    TopHalf(xs);
    CutValues(h, x, y);
    PowersOfHalf(k, h, 64 * (i + j));
    CutBetween(h, x * y);
    ExponentOf(x * y, u + 64 * (i + j), e, 128 * k - 1);
  }

  lemma {:induction false} AtLeastLimb(i: nat)
    requires i >= 1
    ensures Pow(i) >= B
  {
    hide Pow;
    NextPow(i - 1);
    MulMono(B, 1, Pow(i - 1));
  }

  /** `Mul` called on such operands, at any exponents that do not make the product subnormal. */
  method MulUnfaithful(k: nat, i: nat, j: nat, expA: int, expB: int, flags: Flags)
    returns (a: Bf, b: Bf, r: Bf, st: Status, ghost e: int, ghost q: int)
    requires k >= 1 && i >= 1 && j >= 1 && flags.mode == RNDF && !flags.radixPoint
             && (flags.subnormal ==> expA + expB - 1 >= MinExp(flags))
    ensures a.WellFormed() && b.WellFormed() && r.WellFormed() && a.kind == Finite && b.kind == Finite
    ensures |a.tab| == k + i && |b.tab| == k + j && a.expn == expA && b.expn == expB
    ensures IsProduct(r, a, b, st, e, q, 64 * k - 2, flags)
    ensures !IsRoundedTo(ProductVal(a.tab, b.tab), BigFloatAdd.Unit(a) + BigFloatAdd.Unit(b), e - (64 * k - 2), q, RNDF,
                         r.sign)
  {
    hide Val, Pow, Pow2, IsRoundedProduct, HighOne, HighHalf, Leading, IsRoundedTo;
    HighOneValue(k);
    HighHalfValue(k);
    OnesBelow(HighOne(k), i);
    OnesBelow(HighHalf(k), j);
    a := new Bf(Finite, false, expA, NearOne(k, i));
    b := new Bf(Finite, false, expB, NearHalf(k, j));
    r := new Bf(Zero, false, 0, []);
    st, e, q := Mul(r, a, b, 64 * k - 2, flags);
    ghost var u := BigFloatAdd.Unit(a) + BigFloatAdd.Unit(b);
    ProductExponent(k, i, j, u, e, q, r, st, flags, r.sign);
    FaithfulFails(k, i, j, u, e, q, r, st, flags, r.sign);
  }

  lemma {:induction false} CutBetween(h: int, t: int)
    requires h >= 8 && t == 2 * (h * h) - 2 * h - 4
    ensures h * h <= t < 2 * (h * h)
  {
    MulMono(h, 8, h);
  }

  lemma {:induction false} CutValues(h: int, x: int, y: int)
    requires x == 2 * h - 4 && y == h + 1
    ensures x * y == 2 * (h * h) - 2 * h - 4
  {
  }

  lemma {:induction false} PowersOfHalf(k: nat, h: nat, m: nat)
    requires k >= 1 && h == Pow2(64 * k - 1)
    ensures Pow2(64 * k + 1) == 4 * h && Pow2(128 * k - 2) == h * h && Pow2(128 * k - 1) == 2 * (h * h) && h % 2 == 0
            && h >= 8
    ensures Pow2(64 * k + 1 + m) == (4 * h) * Pow2(m)
  {
    hide Pow2;
    Pow2Add(64 * k - 1, 2);
    TwoShift();
    Pow2Add(64 * k - 1, 64 * k - 1);
    Pow2Add(128 * k - 2, 1);
    OneShift();
    EvenPow(64 * k - 1);
    Pow2Mono(3, 64 * k - 1);
    Pow2Add(1, 2);
    Pow2Add(64 * k + 1, m);
  }

  lemma {:induction false} ExponentOf(t: nat, u: int, e: int, bits: nat)
    requires IsExponent(t, u, e) && bits >= 1 && Pow2(bits - 1) <= t < Pow2(bits)
    ensures e == u + bits
  {
    hide Pow2;
    if e - u < bits { Pow2Mono(e - u, bits - 1); }
    if e - u > bits { Pow2Mono(bits, e - u - 1); }
  }

  lemma {:induction false} NearestIs(t: int, h: int, q: int, sign: bool)
    requires h >= 8 && h % 2 == 0 && t == 2 * (h * h) - 2 * h - 4 && IsRounding(t, 4 * h, q, RNDNA, sign)
    ensures q * (4 * h) == 2 * (h * h) - 4 * h
  {
    var q0 := h / 2 - 1;
    assert q0 * (4 * h) == 2 * (h * h) - 4 * h by { assert h == 2 * (q0 + 1); }
    RoundingUnique(t, 4 * h, q, q0, RNDNA, sign);
  }

  lemma {:induction false} ExactExceeds(h: int, x: int, y: int, p: int, p': int, c: int)
    requires h >= 8 && x == 2 * h - 4 && y == h + 1 && p >= B && p' >= B && c == p * p'
    ensures (p - 1 + p * x) * (p' - 1 + p' * y) > (2 * (h * h)) * c
  {
    ExpandProduct(x, y, p, p');
    CutValues(h, x, y);
    assert ((x + 1) * (y + 1)) * c == (2 * (h * h) + h - 6) * c by { assert (x + 1) * (y + 1) == x * y + x + y + 1; }
    assert (2 * (h * h) + h - 6) * c == (2 * (h * h)) * c + (h - 6) * c;
    MulMono(p, B, p');
    MulMono(p', B, p);
    assert p' * p == c;
    Outweighs(h, p, p', c);
  }

  lemma {:induction false} Outweighs(h: int, p: int, p': int, c: int)
    requires h >= 8 && p >= 1 && p' >= 1 && p * B <= c && p' * B <= c
    ensures (h - 6) * c + 1 > (2 * h - 3) * p + (h + 2) * p'
  {
    MulMono(2 * h - 3, p * B, c);
    MulMono(h + 2, p' * B, c);
    assert (2 * h - 3) * (p * B) == B * ((2 * h - 3) * p);
    assert (h + 2) * (p' * B) == B * ((h + 2) * p');
    MulMono(c, 3 * h - 1, B * (h - 6));
    assert c * (B * (h - 6)) == B * ((h - 6) * c);
    assert (2 * h - 3) * c + (h + 2) * c == c * (3 * h - 1);
  }

  lemma {:induction false} ExpandProduct(x: int, y: int, p: int, p': int)
    ensures (p - 1 + p * x) * (p' - 1 + p' * y) == ((x + 1) * (y + 1)) * (p * p') - (x + 1) * p - (y + 1) * p' + 1
  {
    var a, b := (x + 1) * p, (y + 1) * p';
    assert p - 1 + p * x == a - 1 && p' - 1 + p' * y == b - 1;
    assert (a - 1) * (b - 1) == a * b - a - b + 1;
    assert a * b == ((x + 1) * (y + 1)) * (p * p');
  }

  lemma {:induction false} NotFaithful(n: int, p: int, c: int, q: int, sign: bool)
    requires n > (q * p + p) * c
    ensures !IsRounding(n, p * c, q, RNDF, sign)
  {
    MulAssoc(q, p, c);
    assert (q * p + p) * c == (q * p) * c + p * c;
  }
}
