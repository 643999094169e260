/** Arbitrary precision floating point numbers: a sign, an exponent and a mantissa below one whose top bit is set. */
module BigFloat {
  import opened Arith
  import opened Powers
  import opened Limbs
  import opened Kernels
  import opened Bits
  import opened Rounding
  import opened BigFloatBits

  datatype Kind = Zero | Finite | Infinite | NotANumber

  datatype Flags = Flags(mode: Mode, expRange: nat, subnormal: bool, radixPoint: bool)

  datatype Status = Status(inexact: bool, underflow: bool, overflow: bool,
                           nameonly invalidOp: bool := false, nameonly divideByZero: bool := false)

  const PREC_INF: nat := 0x3fff_ffff_ffff_ffff

  const TOP_BIT: nat := 0x8000_0000_0000_0000

  // ---------- values ----------

  /** The mantissa `tab` with exponent `expn` is the number `m` in units of `2^u`. */
  ghost predicate Denotes(tab: seq<Limb>, expn: int, m: int, u: int) {
    SameNumber(Val(tab), expn - 64 * |tab|, m, u)
  }

  /** `n 2^x == m 2^y`. */
  ghost predicate SameNumber(n: int, x: int, m: int, y: int) {
    if x >= y then n * Pow2(x - y) == m else n == m * Pow2(y - x)
  }

  /** `q` is the number `m` in units of `2^u` rounded to a multiple of `2^w`, in units of `2^w`. */
  ghost predicate IsRoundedTo(m: int, u: int, w: int, q: int, mode: Mode, sign: bool) {
    if w >= u then IsRounding(m, Pow2(w - u), q, mode, sign) else q == m * Pow2(u - w)
  }

  /** Bits are lost when the number is cut to multiples of `2^w`. */
  ghost predicate LosesBits(m: int, u: int, w: int) { w > u && m % Pow2(w - u) != 0 }

  /** The top bit of the mantissa is set and its lowest limb is not zero. */
  ghost predicate Canonical(tab: seq<Limb>) { tab != [] && tab[|tab| - 1] >= TOP_BIT && tab[0] != 0 }

  // ---------- rounding a mantissa ----------

  /** The mantissa `n` of `len` bits, cut at `2^k` with `add` added, before it is renormalized. */
  lemma {:induction false} Truncated(n: nat, k: nat, add: nat)
    ensures (n + add * Pow2(k)) / Pow2(k) == n / Pow2(k) + add
  {
    hide Pow2;
    var p := Pow2(k);
    assert n == (n / p) * p + n % p;
    assert (n / p + add) * p == (n / p) * p + add * p;
    DivUnique(n + add * p, p, n / p + add, n % p);
  }

  /** The top bit of a table is the top half of its range. */
  lemma {:induction false} TopHalf(tab: seq<Limb>)
    requires tab != []
    ensures tab[|tab| - 1] >= TOP_BIT <==> Val(tab) >= Pow2(64 * |tab| - 1)
    ensures Pow(|tab|) == 2 * Pow2(64 * |tab| - 1)
  {
    hide Val, Pow, Pow2;
    var k := |tab| - 1;
    var top: int, low := tab[k], Val(tab[..k]);
    assert tab == tab[..k] + [tab[k]];
    ValAppend(tab[..k], tab[k]);
    ValBound(tab[..k]);
    NextPow(k);
    Pow2Limbs(k);
    Pow2Add(64 * k, 63);
    Pow2Add(63, 1);
    OneShift();
    Pow2Limb();
    if top >= TOP_BIT {
      MulMono(Pow(k), TOP_BIT, top);
    } else {
      MulMono(Pow(k), top + 1, TOP_BIT);
      MulDist(Pow(k), top, 1);
    }
  }

  /** A carry out of the top leaves only bits below `k`; with the one shifted in, the mantissa is the power of two. */
  lemma {:induction false} CarriedOut(tab: seq<Limb>, s: seq<Limb>, k: nat, pos: nat, h: seq<Limb>)
    requires tab != [] && |s| == |tab| && k < 64 * |tab| && pos == k / 64 && |h| == |tab| - pos
    requires Val(s) + Pow(|tab|) == Val(tab) + Pow2(k) && 2 * Val(h) <= Val(s[pos..]) + Pow(|h|) <= 2 * Val(h) + 1
    ensures var t := s[..pos] + h;
            |t| == |tab| && t[|t| - 1] >= TOP_BIT && (Val(t) / Pow2(k)) * Pow2(k) == Pow2(64 * |tab| - 1)
    ensures (Val(tab) / Pow2(k) + 1) * Pow2(k) == 2 * Pow2(64 * |tab| - 1)
  {
    hide Val, Pow, Pow2;
    var l, t := |tab|, s[..pos] + h;
    var p, r, w := Pow2(k), Pow2(k % 64), Pow(pos);
    var half, hh := Pow2(64 * l - 1), Pow2(64 * |h| - 1);
    TopHalf(tab);
    TopHalf(h);
    TopHalf(t);
    ValBound(tab);
    Pow2Position(k);
    Pow2Add(k, 64 * l - 1 - k);
    var f := Pow2(64 * l - 1 - k);
    PowAdd(pos, |h|);
    AllOnes(Val(tab), p, f, half);
    // what is left of the sum lies below bit `k`
    ValSplit(s, pos);
    UpperPart(Val(s), Val(s[..pos]), w, Val(s[pos..]), r, p);
    ValConcat(s[..pos], h);
    ValBound(s[..pos]);
    assert w * hh == half by { HalfPower(w, hh, half); }
    NearHalf(Val(t), Val(s[..pos]), w, Val(h), hh, r, half, p);
    DivUnique(Val(t), p, f, Val(t) - half);
    assert f * p == p * f;
  }

  lemma {:induction false} HalfPower(w: int, hh: int, half: int)
    requires w * (2 * hh) == 2 * half
    ensures w * hh == half
  {
  }

  /** A mantissa that overflows when `p` is added, cut to multiples of `p`, is one short of the power of two. */
  lemma {:induction false} AllOnes(n: nat, p: nat, f: nat, half: nat)
    requires p > 0 && p * f == half && 2 * half - p <= n < 2 * half
    ensures (n / p + 1) * p == 2 * half
  {
    assert p * (2 * f) == 2 * half;
    assert (2 * f - 1) * p == 2 * half - p;
    DivUnique(n, p, 2 * f - 1, n - (2 * half - p));
  }

  lemma {:induction false} UpperPart(v: nat, low: nat, w: nat, h: nat, r: nat, p: nat)
    requires v == low + w * h && v < p && p == w * r && w > 0
    ensures h < r
  {
    if h >= r { MulMono(w, r, h); }
  }

  lemma {:induction false} NearHalf(v: nat, low: nat, w: nat, h: nat, hh: nat, r: nat, half: nat, p: nat)
    requires v == low + w * h && low < w && w * hh == half && p == w * r && r >= 1
    requires 2 * h <= 2 * hh + (r - 1) && 2 * hh <= 2 * h + 1
    ensures half <= v < half + p
  {
    MulMono(w, hh, h);
    var e := h - hh;
    assert w * h == w * hh + w * e;
    MulMono(w, e + 1, r);
    MulDist(w, e, 1);
  }

  lemma {:induction false} TopKept(s: seq<Limb>, k: nat)
    requires s != [] && s[|s| - 1] >= TOP_BIT
    ensures TopAfter(s, k) >= TOP_BIT
  {
    hide Pow2;
    var x, m := s[|s| - 1], k % 64;
    BitInLimb(m);
    Pow2Add(m, 63 - m);
    Pow2Add(63, 1);
    OneShift();
    Pow2Limb();
    KeepsHalf(x, Pow2(m), Pow2(63 - m), TOP_BIT);
  }

  lemma {:induction false} KeepsHalf(x: nat, p: nat, f: nat, half: nat)
    requires p > 0 && p * f == half && x >= half
    ensures x - x % p >= half
  {
    var q := x / p;
    assert x == p * q + x % p;
    if q < f { MulMono(p, q + 1, f); MulDist(p, q, 1); }
    MulMono(p, f, q);
  }

  /** Rounds the mantissa to the bits from `k` on: the result is `q 2^k` in units of its last bit, and `up` tells
      that it reached the next power of two, so that the exponent grows. */
  method RoundMantissa(tab: seq<Limb>, k: nat, add: nat) returns (t: seq<Limb>, up: bool)
    requires tab != [] && tab[|tab| - 1] >= TOP_BIT && k < 64 * |tab| && add <= 1
    ensures Canonical(t) && |t| <= |tab|
    ensures (Val(t) * Pow(|tab| - |t|)) * (if up then 2 else 1) == (Val(tab) / Pow2(k) + add) * Pow2(k)
  {
    hide Pow2, Val, Pow, TopAfter;
    var s := tab;
    up := false;
    ghost var n, p, l := Val(tab), Pow2(k), |tab|;
    TopHalf(tab);
    Pow2Mono(k, 64 * l - 1);
    Truncated(n, k, add);
    if add == 1 {
      s, up := AddBit(tab, k);
      if up {
        var pos := k / 64;
        var h := HalveWithOne(s[pos..]);
        CarriedOut(tab, s, k, pos, h);
        s := s[..pos] + h;
      }
    }
    TopHalf(s);
    var t0 := TrimTo(s, k);
    TopKept(s, k);
    return t0, up;
  }

  // ---------- rounding a number ----------

  /** The number of mantissa bits to keep; it can be zero or negative. */
  function EffectivePrec(expn: int, prec1: nat, flags: Flags): (prec: int) {
    if flags.radixPoint then (if prec1 != PREC_INF then expn + prec1 else prec1)
    else if expn < MinExp(flags) && flags.subnormal then prec1 - (MinExp(flags) - expn)
    else prec1
  }

  function MinExp(flags: Flags): (e: int) { 3 - flags.expRange }

  /** The exponent of `q` units of the last of `prec` bits below `2^expn`. */
  ghost function ExpAfter(q: int, prec: int, expn: int): int {
    if prec > 0 && q >= Pow2(prec) then expn + 1 else expn
  }

  /** Overflow gives infinity or the largest finite number, by direction. */
  predicate OverflowsToInfinity(prec1: nat, mode: Mode, sign: bool) {
    prec1 == PREC_INF || mode == RNDN || mode == RNDNA || mode == RNDA || (mode == RNDD && sign)
       || (mode == RNDU && !sign)
  }

  /** The largest mantissa of `prec` bits. */
  ghost predicate IsLargest(tab: seq<Limb>, prec: nat) {
    64 * |tab| >= prec && Val(tab) == Pow2(64 * |tab|) - Pow2(64 * |tab| - prec)
  }

  /** What rounding makes of a number whose mantissa, at `prec` bits below `2^expn`, becomes `q`. */
  ghost predicate RoundsTo(kind: Kind, expn': int, tab: seq<Limb>, st: Status, q: int, prec: int, expn: int,
                           inexact: bool, prec1: nat, flags: Flags, sign: bool) {
    var e := ExpAfter(q, prec, expn);
    if prec <= 0 then
      && st == Status(true, true, false) && 0 <= q <= 1
      && (if q == 0 then kind == Zero else kind == Finite && Canonical(tab) && Denotes(tab, expn', q, expn - prec))
    else if e < MinExp(flags) && !flags.subnormal then kind == Zero && st == Status(true, true, false)
    else if e > flags.expRange then
      && st == Status(true, false, true)
      && (if OverflowsToInfinity(prec1, flags.mode, sign) then kind == Infinite
          else kind == Finite && expn' == flags.expRange && IsLargest(tab, prec1))
    else
      && kind == Finite && Canonical(tab) && expn' == e && Denotes(tab, expn', q, expn - prec)
      && st == Status(inexact, inexact && e < MinExp(flags), false)
  }

  class Bf {
    var kind: Kind
    var sign: bool
    var expn: int
    var tab: seq<Limb>

    /** A number as every operation leaves it. */
    ghost predicate WellFormed()
      reads this
    {
      if kind == Finite then Canonical(tab) else tab == []
    }

    constructor (kind: Kind, sign: bool, expn: int, tab: seq<Limb>)
      ensures this.kind == kind && this.sign == sign && this.expn == expn && this.tab == tab
    {
      this.kind, this.sign, this.expn, this.tab := kind, sign, expn, tab;
    }

    method SetZero()
      modifies this
      ensures kind == Zero && sign == old(sign) && WellFormed()
    {
      kind, tab := Zero, [];
    }

    method SetOverflow(prec1: nat, flags: Flags) returns (st: Status)
      requires prec1 > 0
      modifies this
      ensures st == Status(true, false, true) && sign == old(sign) && WellFormed()
      ensures if OverflowsToInfinity(prec1, flags.mode, sign) then kind == Infinite
              else kind == Finite && expn == flags.expRange && IsLargest(tab, prec1)
    {
      hide IsLargest;
      if OverflowsToInfinity(prec1, flags.mode, sign) {
        kind, tab := Infinite, [];
      } else {
        kind, expn := Finite, flags.expRange;
        tab := LargestMantissa(prec1);
      }
      return Status(true, false, true);
    }

    /** Rounds a finite number. The ghost result `q` is the rounded mantissa in units of the last bit kept. */
    method Round(prec1: nat, flags: Flags, inexact0: bool) returns (st: Status, ghost q: int)
      requires kind == Finite && tab != [] && tab[|tab| - 1] >= TOP_BIT
      requires prec1 > 0 || (flags.radixPoint && expn < flags.expRange)
      modifies this
      ensures sign == old(sign) && WellFormed()
      ensures var n, u := Val(old(tab)), old(expn) - 64 * |old(tab)|;
              var prec := EffectivePrec(old(expn), prec1, flags);
              && IsRoundedTo(n, u, old(expn) - prec, q, flags.mode, sign)
              && RoundsTo(kind, expn, tab, st, q, prec, old(expn),
                          inexact0 || flags.mode == RNDF || LosesBits(n, u, old(expn) - prec), prec1, flags, sign)
              && (flags.mode == RNDF ==> IsRoundedTo(n, u, old(expn) - prec, q, RNDNA, sign))
    {
      hide Pow2, Val, Pow, Denotes, IsRounding, Canonical, IsLargest, OverflowsToInfinity, IsRoundedTo, LosesBits,
           EffectivePrec, RoundedMantissa;
      var prec := EffectivePrec(expn, prec1, flags);
      ghost var l, n, e0 := |tab|, Val(tab), expn;
      PositiveMantissa(tab);
      var add, lost := GetRndAdd(tab, prec, flags.mode, sign);
      var inexact := inexact0 || lost;
      var k: int := 64 * |tab| - prec;
      q := RoundedMantissa(n, k, add);
      RoundedUnits(n, l, k, prec, e0, add, q, flags.mode, sign);
      if flags.mode == RNDF { RoundedUnits(n, l, k, prec, e0, add, q, RNDNA, sign); }
      if prec <= 0 {
        TinyMantissa(tab, prec, k, add, q);
        if add == 1 {
          tab, expn := [TOP_BIT], expn + 1 - prec;
          OneUnit(expn, prec, e0);
          return Status(true, true, false), q;
        } else {
          SetZero();
          return Status(true, true, false), q;
        }
      }
      st := RoundKept(prec, prec1, flags, inexact, add, q);
    }

    /** At least one bit is kept: the rounded mantissa, or what underflow and overflow make of it. */
    method RoundKept(prec: nat, prec1: nat, flags: Flags, inexact: bool, add: nat, ghost q: int) returns (st: Status)
      requires kind == Finite && tab != [] && tab[|tab| - 1] >= TOP_BIT && prec > 0 && add <= 1
      requires prec1 > 0 || expn < flags.expRange
      requires var k := 64 * |tab| - prec; q == RoundedMantissa(Val(tab), k, add) && (k < 0 ==> add == 0)
      modifies this
      ensures sign == old(sign) && WellFormed()
      ensures RoundsTo(kind, expn, tab, st, q, prec, old(expn), inexact, prec1, flags, sign)
    {
      hide Pow2, Val, Pow, Denotes, Canonical, IsLargest, OverflowsToInfinity, RoundedMantissa;
      ghost var tab0, e0 := tab, expn;
      var k: int := 64 * |tab| - prec;
      var t, up := RoundMantissa(tab, if k > 0 then k else 0, add);
      RoundedExponent(tab0, t, up, k, prec, e0, add, q);
      tab := t;
      if up { expn := expn + 1; }
      if expn < MinExp(flags) && !flags.subnormal {
        SetZero();
        return Status(true, true, false);
      }
      if expn > flags.expRange {
        st := SetOverflow(prec1, flags);
        return;
      }
      return Status(inexact, inexact && expn < MinExp(flags), false);
    }

    /** Brings the top bit to the top of the table, then rounds. The ghost results are the exponent and the rounded
        mantissa. */
    method NormalizeAndRound(prec1: nat, flags: Flags) returns (st: Status, ghost e: int, ghost q: int)
      requires kind == Finite || (kind == Zero && tab == [])
      requires prec1 > 0
      modifies this
      ensures sign == old(sign) && WellFormed()
      ensures var n, u := Val(old(tab)), old(expn) - 64 * |old(tab)|;
              if n == 0 then kind == Zero && st == Status(false, false, false)
              else
                && CorrectlyRounded(n, u, e, q, kind, expn, tab, st, prec1, flags, sign)
                && (flags.mode == RNDF ==> IsRoundedTo(n, u, e - EffectivePrec(e, prec1, flags), q, RNDNA, sign))
    {
      hide Pow2, Val, Pow, IsRoundedTo, RoundsTo, LosesBits, Clz, IsExponent;
      ghost var tab0, expn0, u := tab, expn, expn - 64 * |tab|;
      EmptyTable();
      var l: nat := |tab|;
      assert tab[..l] == tab;
      while l > 0 && tab[l - 1] == 0
        invariant 0 <= l <= |tab| && tab == tab0 && Val(tab[..l]) == Val(tab)
        invariant kind == old(kind) && sign == old(sign) && expn == old(expn)
      {
        l := l - 1;
        assert tab[..l + 1] == tab[..l] + [tab[l]];
        ValAppend(tab[..l], tab[l]);
      }
      if l == 0 {
        assert tab[..0] == [];
        SetZero();
        return Status(false, false, false), 0, 0;
      }
      expn := expn - 64 * (|tab| - l);
      var shift := Clz(tab[l - 1]);
      tab := tab[..l];
      if shift != 0 {
        tab := ShiftLeft(tab, shift);
        expn := expn - shift;
      }
      ghost var n := Val(tab0);
      Normalized(tab0[..l], shift, tab, u, expn);
      e := expn;
      st, q := Round(prec1, flags, false);
      CoarserUnits(n, u, shift, e, q, kind, expn, tab, st, prec1, flags, sign);
      if flags.mode == RNDF { FinerUnits(n, u, shift, e - EffectivePrec(e, prec1, flags), q, RNDNA, sign); }
    }
  }

  /** The number `n` in units of `2^u`, not zero, with its exponent `e`, rounded once to the precision that this
      exponent gets. */
  ghost predicate CorrectlyRounded(n: nat, u: int, e: int, q: int, kind: Kind, expn: int, tab: seq<Limb>, st: Status,
                                   prec1: nat, flags: Flags, sign: bool) {
    var prec := EffectivePrec(e, prec1, flags);
    && IsExponent(n, u, e) && IsRoundedTo(n, u, e - prec, q, flags.mode, sign)
    && RoundsTo(kind, expn, tab, st, q, prec, e, flags.mode == RNDF || LosesBits(n, u, e - prec), prec1, flags, sign)
  }

  /** The shifted table has its top bit set and holds the same number, in units `2^shift` times finer. */
  lemma {:induction false} Normalized(s: seq<Limb>, shift: nat, t: seq<Limb>, u: int, expn: int)
    requires s != [] && s[|s| - 1] > 0 && shift == Clz(s[|s| - 1]) && |t| == |s|
    requires if shift == 0 then t == s else Val(t) == Val(s) * Pow2(shift)
    requires expn == u + 64 * |s| - shift
    ensures t[|t| - 1] >= TOP_BIT && Val(t) == Val(s) * Pow2(shift) && Val(s) > 0
    ensures IsExponent(Val(s) * Pow2(shift), u - shift, expn) && expn - 64 * |t| == u - shift
  {
    hide Pow2, Val, Pow;
    var k := |s| - 1;
    ZeroShift();
    assert s == s[..k] + [s[k]];
    ValAppend(s[..k], s[k]);
    Pow2Limbs(k);
    Pow2Add(63 - shift, shift);
    Pow2Add(63 - shift, 64 * k);
    Pow2Add(64 * |s| - 1 - shift, shift);
    assert 63 - shift + 64 * k == 64 * |s| - 1 - shift;
    MulMono(Pow(k), Pow2(63 - shift), s[k]);
    MulMono(Pow2(shift), Pow2(64 * |s| - 1 - shift), Val(s));
    TopHalf(t);
    ValBound(t);
    Pow2Limbs(|t|);
  }

  /** The exponent of a number does not depend on its units. */
  lemma {:induction false} SameExponent(n: int, u: int, s: nat, e: int)
    requires IsExponent(n * Pow2(s), u - s, e) && n > 0
    ensures IsExponent(n, u, e)
  {
    hide Pow2;
    var p := Pow2(s);
    MulMono(p, 1, n);
    if e - u <= 0 {
      Pow2Mono(e - u + s, s);
    } else {
      Pow2Add(e - u - 1, s);
      Pow2Add(e - u, s);
      CancelAtMost(p, Pow2(e - u - 1), n);
      CancelLess(p, n, Pow2(e - u));
    }
  }

  lemma {:induction false} CoarserUnits(n: nat, u: int, s: nat, e: int, q: int, kind: Kind, expn: int, tab: seq<Limb>,
                                        st: Status, prec1: nat, flags: Flags, sign: bool)
    requires CorrectlyRounded(n * Pow2(s), u - s, e, q, kind, expn, tab, st, prec1, flags, sign) && n > 0
    ensures CorrectlyRounded(n, u, e, q, kind, expn, tab, st, prec1, flags, sign)
  {
    hide Pow2, IsRoundedTo, RoundsTo, LosesBits, IsExponent;
    SameExponent(n, u, s, e);
    FinerUnits(n, u, s, e - EffectivePrec(e, prec1, flags), q, flags.mode, sign);
  }

  // ---------- normalizing ----------

  /** `e` is the exponent of the number `n` in units of `2^u`: its top bit lies just below `2^e`. */
  ghost predicate IsExponent(n: int, u: int, e: int) { e > u && Pow2(e - u - 1) <= n < Pow2(e - u) }

  /** Shifts a table left by fewer bits than its top limb has leading zeros. */
  method ShiftLeft(tab: seq<Limb>, shift: nat) returns (t: seq<Limb>)
    requires tab != [] && 1 <= shift < 64 && tab[|tab| - 1] < Pow2(64 - shift)
    ensures |t| == |tab| && Val(t) == Val(tab) * Pow2(shift)
  {
    hide Pow2, Val, Pow;
    t := [];
    var v: Limb := 0;
    assert tab[..0] == [];
    EmptyTable();
    Pow2Add(shift, 64 - shift);
    Pow2Limb();
    ghost var p, q := Pow2(shift), Pow2(64 - shift);
    BelowDivisor(0, q);
    for i := 0 to |tab|
      invariant |t| == i && Val(t) + (v as nat / q) * Pow(i) == Val(tab[..i]) * p
      invariant i == 0 ==> v == 0
      invariant i > 0 ==> v == tab[i - 1]
    {
      var a := tab[i];
      var w := ShiftWord2(a, v, shift);
      ValAppend(t, w);
      ValAppend(tab[..i], a);
      NextPow(i);
      assert tab[..i + 1] == tab[..i] + [a];
      ShiftedSum(Val(t), v as nat / q, Pow(i), Val(tab[..i]), p, w, a, a as nat / q);
      t, v := t + [w], a;
    }
    assert tab[..|tab|] == tab;
    BelowDivisor(v, q);
  }

  /** The low bits of `a` moved up, the high bits of `v` filling in below. */
  function ShiftWord2(a: Limb, v: Limb, shift: nat): (w: Limb)
    requires 1 <= shift < 64
    ensures w as nat + (a as nat / Pow2(64 - shift)) * B == a as nat * Pow2(shift) + v as nat / Pow2(64 - shift)
  {
    hide Pow2;
    Pow2Add(shift, 64 - shift);
    Pow2Limb();
    ShiftedWord(a, Pow2(shift), Pow2(64 - shift));
    ShiftedParts(a, v, Pow2(shift), Pow2(64 - shift));
    (a as nat * Pow2(shift)) % B + v as nat / Pow2(64 - shift)
  }

  lemma {:induction false} ShiftedParts(a: nat, v: nat, p: nat, q: nat)
    requires p > 0 && q > 0 && p * q == B && v < B && (a * p) % B == (a % q) * p && (a * p) / B == a / q
    ensures 0 <= (a * p) % B + v / q < B && (a * p) % B + v / q + (a / q) * B == a * p + v / q
  {
    var c := v / q;
    if c >= p { MulMono(q, p, c); }
    ScaledLess(c, p, a % q, q);
  }

  lemma {:induction false} ShiftedSum(t: int, c: int, pw: int, s: int, p: int, w: int, a: int, c': int)
    requires t + c * pw == s * p && w + c' * B == a * p + c
    ensures t + w * pw + c' * (B * pw) == (s + a * pw) * p
  {
    assert (w + c' * B) * pw == w * pw + c' * (B * pw);
    assert (a * p + c) * pw == (a * pw) * p + c * pw;
    assert (s + a * pw) * p == s * p + (a * pw) * p;
  }

  /** Rounding does not depend on the unit the number is given in. */
  lemma {:induction false} FinerUnits(m: nat, u: int, s: nat, w: int, q: int, mode: Mode, sign: bool)
    requires IsRoundedTo(m * Pow2(s), u - s, w, q, mode, sign)
    ensures IsRoundedTo(m, u, w, q, mode, sign)
    ensures LosesBits(m, u, w) <==> LosesBits(m * Pow2(s), u - s, w)
  {
    hide Pow2, IsRounding;
    var c := Pow2(s);
    if w >= u {
      Pow2Add(w - u, s);
      ScaleRounding(m, Pow2(w - u), c, q, mode, sign);
      ScaleRemainder(m, Pow2(w - u), c);
      if w == u { ZeroShift(); assert m % 1 == 0; assert m * c == m * c + 0; DivUnique(m * c, 1 * c, m, 0); }
    } else if w >= u - s {
      Pow2Add(u - w, w - (u - s));
      var y, p := m * Pow2(u - w), Pow2(w - (u - s));
      MulAssoc(m, Pow2(u - w), p);
      ExactRoundingOf(y, p, q, mode, sign);
      DivUnique(m * c, p, y, 0);
    } else {
      Pow2Add(s, u - s - w);
      MulAssoc(m, c, Pow2(u - s - w));
    }
  }

  lemma {:induction false} ScaleRemainder(m: nat, p: nat, c: nat)
    requires p > 0 && c > 0
    ensures p * c > 0 && (m % p == 0 <==> (m * c) % (p * c) == 0)
  {
    MulMono(c, 1, p);
    var q, r := m / p, m % p;
    assert m == q * p + r;
    assert m * c == q * (p * c) + r * c;
    MulStrict(c, r, p);
    assert r * c == c * r && 0 <= r * c;
    DivUnique(m * c, p * c, q, r * c);
    if r > 0 { MulMono(c, 1, r); }
  }

  lemma {:induction false} ExactRoundingOf(y: int, p: int, q: int, mode: Mode, sign: bool)
    requires p > 0 && IsRounding(y * p, p, q, mode, sign)
    ensures q == y
  {
    if q > y { MulMono(p, y + 1, q); MulDist(p, y, 1); }
    if q < y { MulMono(p, q + 1, y); MulDist(p, q, 1); }
  }

  lemma {:induction false} ScaleRounding(m: int, p: int, c: int, q: int, mode: Mode, sign: bool)
    requires c > 0 && IsRounding(m * c, p * c, q, mode, sign)
    ensures IsRounding(m, p, q, mode, sign)
  {
    hide Demands;
    MulAssoc(q, p, c);
    ScaleDemands(m, p, q * p, c, q % 2 == 0, mode, sign);
  }

  lemma {:induction false} ScaleDemands(n: int, p: int, x: int, c: int, even: bool, mode: Mode, sign: bool)
    requires c > 0 && Demands(n * c, p * c, x * c, even, mode, sign)
    ensures Demands(n, p, x, even, mode, sign)
  {
    hide Demands, Alike;
    Doubled(n, p, x, even, mode, sign);
    Doubled(n * c, p * c, x * c, even, mode, sign);
    var nc, pc, xc := n * c, p * c, x * c;
    ScaleAlike(2 * n, 2 * x, c, 2 * nc, 2 * xc);
    ScaleAlike(2 * n, 2 * x + 2 * p, c, 2 * nc, 2 * xc + 2 * pc);
    ScaleAlike(2 * n, 2 * x - 2 * p, c, 2 * nc, 2 * xc - 2 * pc);
    ScaleAlike(2 * n, 2 * x + p, c, 2 * nc, 2 * xc + pc);
    ScaleAlike(2 * n, 2 * x - p, c, 2 * nc, 2 * xc - pc);
    SameDemands(2 * nc, 2 * xc, pc, 2 * n, 2 * x, p, even, mode, sign);
  }

  lemma {:induction false} Doubled(n: int, p: int, x: int, even: bool, mode: Mode, sign: bool)
    ensures Demands(n, p, x, even, mode, sign) <==> Demands(2 * n, 2 * p, 2 * x, even, mode, sign)
  {
  }

  lemma {:induction false} ScaleAlike(n: int, x: int, c: int, nc: int, xc: int)
    requires c > 0 && nc == n * c && xc == x * c
    ensures Alike(nc, xc, n, x)
  {
    if n < x { MulStrict(c, n, x); }
    if x < n { MulStrict(c, x, n); }
  }

  method LargestMantissa(prec: nat) returns (tab: seq<Limb>)
    requires prec > 0
    ensures IsLargest(tab, prec) && Canonical(tab)
  {
    hide Pow2, Val, Pow;
    var l := (prec + 63) / 64;
    var low: nat := -(prec as int) % 64;
    BitInLimb(low);
    Pow2Limb();
    var first: Limb := B - Pow2(low);
    Pow2Mono(low, 63);
    Pow2Add(63, 1);
    OneShift();
    tab := [first];
    SingleLimb(first);
    ghost var c := Pow2(low);
    OnePow();
    for i := 1 to l
      invariant |tab| == i && Val(tab) + c == Pow(i) && tab[0] == first && (i > 1 ==> tab[i - 1] == B - 1)
    {
      ValAppend(tab, B - 1);
      NextPow(i);
      TopOnes(Pow(i));
      tab := tab + [B - 1];
    }
    Pow2Limbs(l);
  }

  lemma {:induction false} TopOnes(p: int)
    ensures (B - 1) * p + p == B * p
  {
  }

  lemma {:induction false} PositiveMantissa(tab: seq<Limb>)
    requires tab != [] && tab[|tab| - 1] >= TOP_BIT
    ensures Val(tab) > 0
  {
    hide Pow2, Val, Pow;
    TopHalf(tab);
  }

  /** The rounded mantissa in units of the last bit kept, `k` bits above the last bit there is. */
  ghost function RoundedMantissa(n: nat, k: int, add: nat): int {
    if k >= 0 then n / Pow2(k) + add else n * Pow2(-k)
  }

  lemma {:induction false} RoundedUnits(n: nat, l: nat, k: int, prec: int, e0: int, add: nat, q: int, mode: Mode,
                                        sign: bool)
    requires k == 64 * l - prec && q == RoundedMantissa(n, k, add)
    requires k >= 0 ==> IsRounding(n, Pow2(k), n / Pow2(k) + add, mode, sign)
    ensures IsRoundedTo(n, e0 - 64 * l, e0 - prec, q, mode, sign)
    ensures LosesBits(n, e0 - 64 * l, e0 - prec) <==> k >= 0 && n % Pow2(k) != 0
  {
    hide IsRounding;
    assert (e0 - prec) - (e0 - 64 * l) == k;
    if k == 0 { ZeroShift(); assert n % 1 == 0; }
  }

  /** A number wholly below the last bit kept becomes zero or one unit. */
  lemma {:induction false} TinyMantissa(tab: seq<Limb>, prec: int, k: int, add: nat, q: int)
    requires prec <= 0 && k == 64 * |tab| - prec && q == RoundedMantissa(Val(tab), k, add)
    ensures q == add
  {
    hide Pow2, Val;
    TableBelow(tab);
    Pow2Mono(64 * |tab|, k);
    BelowDivisor(Val(tab), Pow2(k));
  }

  lemma {:induction false} OneUnit(expn: int, prec: int, e0: int)
    requires expn == e0 + 1 - prec
    ensures Canonical([TOP_BIT]) && Denotes([TOP_BIT], expn, 1, e0 - prec)
  {
    hide Pow2, Val;
    SingleLimb(TOP_BIT);
    Pow2Add(63, 1);
    OneShift();
    Pow2Limb();
  }

  lemma {:induction false} SameFrom(n: int, a: nat, q: int, k: nat)
    requires n * Pow2(a) == q * Pow2(k)
    ensures SameNumber(n, a, q, k)
  {
    hide Pow2;
    if a >= k {
      Pow2Add(k, a - k);
      CancelFactor(n * Pow2(a - k), q, Pow2(k), n, Pow2(a - k));
    } else {
      Pow2Add(a, k - a);
      CancelFactor(q * Pow2(k - a), n, Pow2(a), q, Pow2(k - a));
    }
  }

  lemma {:induction false} CancelFactor(x: int, y: int, p: int, n: int, r: int)
    requires p > 0 && x == n * r && n * (p * r) == y * p
    ensures x == y
  {
    assert n * (p * r) == (n * r) * p;
    if x < y { MulStrict(p, x, y); }
    if y < x { MulStrict(p, y, x); }
  }

  /** The rounded mantissa denotes `q` units of the last bit kept, and its exponent grows exactly when `q` reaches
      `2^prec`. */
  lemma {:induction false} RoundedExponent(tab: seq<Limb>, t: seq<Limb>, up: bool, k: int, prec: int, e0: int, add: nat,
                                           q: int)
    requires tab != [] && prec > 0 && k == 64 * |tab| - prec && q == RoundedMantissa(Val(tab), k, add) && add <= 1
             && (k < 0 ==> add == 0)
    requires Canonical(t) && |t| <= |tab|
    requires var m := if k > 0 then k else 0;
             (Val(t) * Pow(|tab| - |t|)) * (if up then 2 else 1) == (Val(tab) / Pow2(m) + add) * Pow2(m)
    ensures up <==> q >= Pow2(prec)
    ensures Denotes(t, if up then e0 + 1 else e0, q, e0 - prec)
  {
    hide Pow2, Val, Pow, SameNumber, Canonical;
    var x := Val(t) * Pow(|tab| - |t|);
    ScaledRange(t, |tab|, |tab| - |t|, x);
    if k >= 0 {
      CutExponent(|tab|, t, x, up, k, prec, e0, q);
    } else {
      ZeroShift();
      assert Val(tab) / 1 == Val(tab);
      WholeExponent(tab, t, x, up, -k, prec, e0, q);
    }
  }

  lemma {:induction false} CutExponent(l: nat, t: seq<Limb>, x: int, up: bool, k: nat, prec: nat, e0: int, q: int)
    requires l >= 1 && |t| <= l && prec > 0 && k == 64 * l - prec && x == Val(t) * Pow(l - |t|)
             && x * (if up then 2 else 1) == q * Pow2(k)
    requires Pow2(64 * l - 1) <= x < 2 * Pow2(64 * l - 1)
    ensures up <==> q >= Pow2(prec)
    ensures Denotes(t, if up then e0 + 1 else e0, q, e0 - prec)
  {
    hide Pow2, Val, Pow, SameNumber;
    var d, v := l - |t|, Val(t);
    Pow2Add(k, prec);
    Pow2Add(64 * l - 1, 1);
    OneShift();
    ReachesTop(x, up, q, Pow2(k), Pow2(prec), Pow2(64 * l - 1));
    Pow2Limbs(d);
    Pow2Add(64 * d, 1);
    MulAssoc(v, Pow(d), 2);
    var a := 64 * d + (if up then 1 else 0);
    SameFrom(v, a, q, k);
    SameShifted(v, a, q, k, (if up then e0 + 1 else e0) - 64 * |t|, e0 - prec);
  }

  lemma {:induction false} WholeExponent(tab: seq<Limb>, t: seq<Limb>, x: int, up: bool, k: nat, prec: nat, e0: int,
                                         q: int)
    requires tab != [] && |t| <= |tab| && prec == 64 * |tab| + k && q == Val(tab) * Pow2(k)
    requires x == Val(t) * Pow(|tab| - |t|) && x * (if up then 2 else 1) == Val(tab) * 1 && Pow2(64 * |tab| - 1) <= x
    ensures !up && q < Pow2(prec)
    ensures Denotes(t, e0, q, e0 - prec)
  {
    hide Pow2, Val, Pow, SameNumber;
    var l, d, v := |tab|, |tab| - |t|, Val(t);
    TopHalf(tab);
    ValBound(tab);
    NotUp(x, up, Val(tab), Pow2(64 * l - 1));
    Pow2Limbs(d);
    Pow2Limbs(l);
    Pow2Add(64 * l, k);
    MulStrict(Pow2(k), Val(tab), Pow(l));
    ZeroShift();
    SameFrom(v, 64 * d, Val(tab), 0);
    WiderUnits(v, 64 * d, Val(tab), k, q);
    SameShifted(v, 64 * d + k, q, 0, e0 - 64 * |t|, e0 - prec);
  }

  lemma {:induction false} ScaledRange(t: seq<Limb>, l: nat, d: nat, x: nat)
    requires Canonical(t) && d == l - |t| >= 0 && x == Val(t) * Pow(d)
    ensures Pow2(64 * l - 1) <= x < 2 * Pow2(64 * l - 1)
  {
    hide Pow2, Val, Pow;
    TopHalf(t);
    ValBound(t);
    PowAdd(|t|, d);
    Pow2Limbs(d);
    Pow2Add(64 * |t| - 1, 64 * d);
    MulMono(Pow(d), Pow2(64 * |t| - 1), Val(t));
    MulStrict(Pow(d), Val(t), Pow(|t|));
    assert Pow(d) * (2 * Pow2(64 * |t| - 1)) == 2 * (Pow(d) * Pow2(64 * |t| - 1));
  }

  lemma {:induction false} ReachesTop(x: int, up: bool, q: int, p: int, top: int, half: int)
    requires p > 0 && p * top == 2 * half && half <= x < 2 * half && x * (if up then 2 else 1) == q * p
    ensures up <==> q >= top
  {
    if q >= top { MulMono(p, top, q); } else { MulMono(p, q + 1, top); MulDist(p, q, 1); }
  }

  lemma {:induction false} NotUp(x: int, up: bool, n: int, half: int)
    requires half <= x && n < 2 * half && x * (if up then 2 else 1) == n * 1
    ensures !up
  {
  }

  lemma {:induction false} SameShifted(n: int, x: int, m: int, y: int, x': int, y': int)
    requires SameNumber(n, x, m, y) && x - y == x' - y'
    ensures SameNumber(n, x', m, y')
  {
    hide Pow2;
  }

  lemma {:induction false} WiderUnits(v: int, a: nat, n: int, k: nat, q: int)
    requires SameNumber(v, a, n, 0) && q == n * Pow2(k)
    ensures SameNumber(v, a + k, q, 0)
  {
    hide Pow2;
    Pow2Add(a, k);
    MulAssoc(v, Pow2(a), Pow2(k));
  }
}
