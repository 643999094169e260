/** What rounding comes to in numbers: the unit it keeps, the limits it observes, and results that need no rounding. */
module BigFloatExact {
  import opened Arith
  import opened Powers
  import opened Limbs
  import opened Kernels
  import opened Bits
  import opened Rounding
  import opened BigFloat
  import BigFloatAdd
  import BigFloatMul
  import BigFloatDiv
  import BigFloatSqrt

  // ---------- numbers in units ----------

  /** Equal numbers, in a unit below both of theirs. */
  lemma {:induction false} SameAt(n: int, x: int, m: int, y: int, l: int)
    requires l <= x && l <= y
    ensures SameNumber(n, x, m, y) <==> n * Pow2(x - l) == m * Pow2(y - l)
  {
    hide Pow2;
    if x >= y {
      Pow2Add(x - y, y - l);
      assert x - y + (y - l) == x - l;
      SameScaled(n * Pow2(x - y), m, Pow2(y - l));
      MulAssoc(n, Pow2(x - y), Pow2(y - l));
    } else {
      Pow2Add(y - x, x - l);
      assert y - x + (x - l) == y - l;
      SameScaled(n, m * Pow2(y - x), Pow2(x - l));
      MulAssoc(m, Pow2(y - x), Pow2(x - l));
    }
  }

  lemma {:induction false} SameScaled(a: int, b: int, p: int)
    requires p > 0
    ensures a == b <==> a * p == b * p
  {
    if a < b { MulStrict(p, a, b); }
    if b < a { MulStrict(p, b, a); }
  }

  lemma {:induction false} SameTrans(n: int, x: int, m: int, y: int, k: int, z: int)
    requires SameNumber(n, x, m, y) && SameNumber(m, y, k, z)
    ensures SameNumber(n, x, k, z)
  {
    hide Pow2, SameNumber;
    var l := if x <= y && x <= z then x else if y <= z then y else z;
    SameAt(n, x, m, y, l);
    SameAt(m, y, k, z, l);
    SameAt(n, x, k, z, l);
  }

  lemma {:induction false} SameScaledUp(m: int, j: int, w: int)
    requires j >= w
    ensures SameNumber(m * Pow2(j - w), w, m, j)
  {
    hide Pow2;
    ZeroShift();
    SameAt(m * Pow2(j - w), w, m, j, w);
  }

  /** Equal numbers have the same exponent. */
  lemma {:induction false} SameExponents(n: nat, u: int, m: nat, j: int, e: int)
    requires IsExponent(n, u, e) && SameNumber(n, u, m, j)
    ensures IsExponent(m, j, e)
  {
    hide Pow2, SameNumber;
    var l := if u <= j then u else j;
    SameAt(n, u, m, j, l);
    Pow2Add(e - u - 1, u - l);
    Pow2Add(e - u, u - l);
    assert e - u - 1 + (u - l) == e - l - 1 && e - u + (u - l) == e - l;
    MulMono(Pow2(u - l), Pow2(e - u - 1), n);
    MulStrict(Pow2(u - l), n, Pow2(e - u));
    assert j - (j - l) == l;
    PositiveFactor(m, Pow2(j - l));
    SameExponent(m, j, j - l, e);
  }

  lemma {:induction false} PositiveFactor(m: nat, p: nat)
    requires m * p > 0
    ensures m > 0
  {
  }

  /** A mantissa of at most `prec1` bits is a multiple of the last of `prec1` bits. */
  lemma {:induction false} FitsUnit(m: nat, j: int, e: int, prec1: nat)
    requires IsExponent(m, j, e) && m < Pow2(prec1)
    ensures j >= e - prec1 && m * Pow2(j - (e - prec1)) < Pow2(prec1)
  {
    hide Pow2;
    if e - j - 1 >= prec1 { Pow2Mono(prec1, e - j - 1); }
    var s := j - (e - prec1);
    Pow2Add(e - j, s);
    MulStrict(Pow2(s), m, Pow2(e - j));
  }

  // ---------- the unit that rounding keeps ----------

  /** The last bit kept of a number with exponent `e` has weight `2^w`: `prec1` bits below the exponent, but not below
      the smallest normal number when subnormal numbers are asked for, and `prec1` bits behind the radix point when that
      is asked for. */
  ghost predicate IsLastBit(w: int, e: int, prec1: nat, flags: Flags) {
    && (flags.radixPoint && prec1 != 0x3fff_ffff_ffff_ffff ==> w == -(prec1 as int))
    && (flags.radixPoint && prec1 == 0x3fff_ffff_ffff_ffff ==> w == e - prec1)
    && (!flags.radixPoint && e < 3 - flags.expRange && flags.subnormal ==> w == 3 - flags.expRange - prec1)
    && (!flags.radixPoint && (e >= 3 - flags.expRange || !flags.subnormal) ==> w == e - prec1)
  }

  /** Overflow: infinity for the directions that lead there, otherwise the largest number of `prec1` bits. */
  ghost predicate Overflowed(kind: Kind, expn: int, tab: seq<Limb>, prec1: nat, flags: Flags, sign: bool) {
    var away := match flags.mode
      case RNDN => true
      case RNDNA => true
      case RNDA => true
      case RNDZ => false
      case RNDF => false
      case RNDD => sign
      case RNDU => !sign;
    if away || prec1 == 0x3fff_ffff_ffff_ffff then kind == Infinite
    else IsLargestNumber(kind, expn, tab, prec1, flags)
  }

  /** All `prec1` bits below `2^expRange` are set. */
  ghost predicate IsLargestNumber(kind: Kind, expn: int, tab: seq<Limb>, prec1: nat, flags: Flags) {
    kind == Finite && Denotes(tab, expn, Pow2(prec1) - 1, flags.expRange - prec1)
  }

  /** What becomes of a number whose rounded value is `q` units of `2^w`, not zero: it is that value, unless its
      exponent leaves the range from `3 - expRange` to `expRange`. */
  ghost predicate Outcome(kind: Kind, expn: int, tab: seq<Limb>, st: Status, q: int, w: int, e: int, inexact: bool,
                          prec1: nat, flags: Flags, sign: bool) {
    if w >= e then
      && st == Status(true, true, false) && (q == 0 || q == 1)
      && (if q == 0 then kind == Zero else kind == Finite && Denotes(tab, expn, 1, w))
    else
      exists e' :: IsExponent(q, w, e') && OutcomeAt(kind, expn, tab, st, q, w, e', inexact, prec1, flags, sign)
  }

  ghost predicate OutcomeAt(kind: Kind, expn: int, tab: seq<Limb>, st: Status, q: int, w: int, e': int, inexact: bool,
                            prec1: nat, flags: Flags, sign: bool) {
    if e' < 3 - flags.expRange && !flags.subnormal then kind == Zero && st == Status(true, true, false)
    else if e' > flags.expRange then
      st == Status(true, false, true) && Overflowed(kind, expn, tab, prec1, flags, sign)
    else
      && kind == Finite && expn == e' && Denotes(tab, expn, q, w)
      && st == Status(inexact, inexact && e' < 3 - flags.expRange, false)
  }

  lemma {:induction false} LargestValue(expn: int, tab: seq<Limb>, prec: nat)
    requires IsLargest(tab, prec)
    ensures Denotes(tab, expn, Pow2(prec) - 1, expn - prec)
  {
    hide Pow2, Val;
    var l := expn - 64 * |tab|;
    Pow2Add(64 * |tab| - prec, prec);
    ZeroShift();
    assert (Pow2(prec) - 1) * Pow2(64 * |tab| - prec) == Pow2(64 * |tab|) - Pow2(64 * |tab| - prec) by {
      ProductLessOne(Pow2(prec), Pow2(64 * |tab| - prec));
    }
    SameAt(Val(tab), l, Pow2(prec) - 1, expn - prec, l);
    assert expn - prec - l == 64 * |tab| - prec;
  }

  lemma {:induction false} ProductLessOne(a: int, p: int)
    ensures (a - 1) * p == p * a - p
  {
  }

  lemma {:induction false} LastBitIs(w: int, e: int, prec1: nat, flags: Flags)
    requires IsLastBit(w, e, prec1, flags)
    ensures w == e - EffectivePrec(e, prec1, flags)
  {
  }

  /** Overflow, in numbers. */
  lemma {:induction false} OverflowIs(kind: Kind, expn: int, tab: seq<Limb>, prec1: nat, flags: Flags, sign: bool)
    requires if OverflowsToInfinity(prec1, flags.mode, sign) then kind == Infinite
             else kind == Finite && expn == flags.expRange && IsLargest(tab, prec1)
    ensures Overflowed(kind, expn, tab, prec1, flags, sign)
  {
    hide Denotes, IsLargest;
    if !OverflowsToInfinity(prec1, flags.mode, sign) { LargestValue(expn, tab, prec1); }
  }

  /** What a rounding makes of a number, in numbers. */
  lemma {:induction false} OutcomeIs(kind: Kind, expn: int, tab: seq<Limb>, st: Status, q: int, w: int, e: int,
                                     inexact: bool, prec1: nat, flags: Flags, sign: bool)
    requires RoundsTo(kind, expn, tab, st, q, e - w, e, inexact, prec1, flags, sign)
    requires w < e ==> Pow2(e - w - 1) <= q <= Pow2(e - w)
    ensures Outcome(kind, expn, tab, st, q, w, e, inexact, prec1, flags, sign)
  {
    hide Pow2, Denotes, Canonical, OverflowsToInfinity, IsLargest, Overflowed;
    var prec := e - w;
    if prec > 0 {
      var e' := ExpAfter(q, prec, e);
      Pow2Add(1, prec - 1);
      OneShift();
      Pow2Add(1, prec);
      assert e' - w == if q >= Pow2(prec) then prec + 1 else prec;
      assert IsExponent(q, w, e');
      if e' > flags.expRange && !(e' < MinExp(flags) && !flags.subnormal) {
        OverflowIs(kind, expn, tab, prec1, flags, sign);
      }
      assert OutcomeAt(kind, expn, tab, st, q, w, e', inexact, prec1, flags, sign);
    }
  }

  /** Rounding does not leave the powers of two around a number. */
  lemma {:induction false} StaysBetween(n: int, p: int, q: int, low: int, mode: Mode, sign: bool)
    requires p > 0 && IsRounding(n, p, q, mode, sign) && low * p <= n < 2 * low * p
    ensures low <= q <= 2 * low
  {
    if q < low { MulMono(p, q + 1, low); MulDist(p, q, 1); }
    if q > 2 * low { MulMono(p, 2 * low + 1, q); MulDist(p, 2 * low, 1); }
  }

  lemma {:induction false} RoundedBetween(n: nat, u: int, w: int, e: int, q: int, mode: Mode, sign: bool)
    requires IsExponent(n, u, e) && IsRoundedTo(n, u, w, q, mode, sign) && w < e
    ensures Pow2(e - w - 1) <= q <= Pow2(e - w)
  {
    hide Pow2, IsRounding;
    Pow2Add(1, e - w - 1);
    OneShift();
    if w >= u {
      Pow2Add(e - w - 1, w - u);
      Pow2Add(e - w, w - u);
      StaysBetween(n, Pow2(w - u), q, Pow2(e - w - 1), mode, sign);
    } else {
      Pow2Add(e - u - 1, u - w);
      Pow2Add(e - u, u - w);
      MulMono(Pow2(u - w), Pow2(e - u - 1), n);
      MulMono(Pow2(u - w), n, Pow2(e - u));
    }
  }

  /** A correctly rounded number is the exact one rounded to multiples of `2^w`, and what the limits make of that. */
  lemma {:induction false} RoundedAtUnit(n: nat, u: int, w: int, e: int, q: int, kind: Kind, expn: int, tab: seq<Limb>,
                                         st: Status, prec1: nat, flags: Flags, sign: bool)
    requires CorrectlyRounded(n, u, e, q, kind, expn, tab, st, prec1, flags, sign) && IsLastBit(w, e, prec1, flags)
    ensures IsRoundedTo(n, u, w, q, flags.mode, sign)
    ensures Outcome(kind, expn, tab, st, q, w, e, flags.mode == RNDF || LosesBits(n, u, w), prec1, flags, sign)
  {
    hide Pow2, RoundsTo, Outcome, EffectivePrec, IsLastBit, IsRounding, IsRoundedTo, LosesBits, IsExponent;
    LastBitIs(w, e, prec1, flags);
    if w < e { RoundedBetween(n, u, w, e, q, flags.mode, sign); }
    OutcomeIs(kind, expn, tab, st, q, w, e, flags.mode == RNDF || LosesBits(n, u, w), prec1, flags, sign);
  }

  /** The same for quotients. */
  lemma {:induction false} QuotientAtUnit(n: nat, d: nat, u: int, w: int, e: int, q: int, kind: Kind, expn: int,
                                          tab: seq<Limb>, st: Status, prec1: nat, flags: Flags, sign: bool)
    requires BigFloatDiv.RoundedQuotient(n, d, u, e, q, kind, expn, tab, st, prec1, flags, sign)
    requires IsLastBit(w, e, prec1, flags)
    ensures w >= u && Pow2(w - u) * d > 0 && IsRounding(n, Pow2(w - u) * d, q, flags.mode, sign)
    ensures Outcome(kind, expn, tab, st, q, w, e, flags.mode == RNDF || n % (Pow2(w - u) * d) != 0, prec1, flags, sign)
  {
    hide Pow2, RoundsTo, Outcome, EffectivePrec, IsLastBit, IsRounding;
    LastBitIs(w, e, prec1, flags);
    var p := Pow2(w - u) * d;
    if w < e {
      Pow2Add(1, e - w - 1);
      OneShift();
      Pow2Add(e - w - 1, w - u);
      Pow2Add(e - w, w - u);
      MulAssoc(Pow2(e - w - 1), Pow2(w - u), d);
      MulAssoc(Pow2(e - w), Pow2(w - u), d);
      StaysBetween(n, p, q, Pow2(e - w - 1), flags.mode, sign);
    }
    OutcomeIs(kind, expn, tab, st, q, w, e, flags.mode == RNDF || n % p != 0, prec1, flags, sign);
  }

  /** And for roots. */
  lemma {:induction false} RootAtUnit(num: nat, den: nat, u: int, w: int, e: int, q: int, kind: Kind, expn: int,
                                      tab: seq<Limb>, st: Status, prec1: nat, flags: Flags, sign: bool)
    requires BigFloatSqrt.RoundedRoot(num, den, u, e, q, kind, expn, tab, st, prec1, flags, sign)
    requires IsLastBit(w, e, prec1, flags)
    ensures w > u && BigFloatSqrt.RootDemands(num, den, Pow2(w - u - 1), q * Pow2(w - u), q % 2 == 0, flags.mode, sign)
    ensures Outcome(kind, expn, tab, st, q, w, e,
                    flags.mode == RNDF || !BigFloatSqrt.RootIs(num, den, q * Pow2(w - u)), prec1, flags, sign)
  {
    hide Pow2, RoundsTo, Outcome, EffectivePrec, IsLastBit, BigFloatSqrt.RootDemands, BigFloatSqrt.RootIs,
         BigFloatSqrt.RootBelow;
    LastBitIs(w, e, prec1, flags);
    if w < e { RootBetween(num, den, u, w, e, q, flags.mode, sign); }
    OutcomeIs(kind, expn, tab, st, q, w, e, flags.mode == RNDF || !BigFloatSqrt.RootIs(num, den, q * Pow2(w - u)),
              prec1, flags, sign);
  }

  lemma {:induction false} RootBetween(num: nat, den: nat, u: int, w: int, e: int, q: int, mode: Mode, sign: bool)
    requires den > 0 && u < w < e
    requires !BigFloatSqrt.RootBelow(num, den, Pow2(e - u - 1)) && BigFloatSqrt.RootBelow(num, den, Pow2(e - u))
    requires BigFloatSqrt.RootDemands(num, den, Pow2(w - u - 1), q * Pow2(w - u), q % 2 == 0, mode, sign)
    ensures Pow2(e - w - 1) <= q <= Pow2(e - w)
  {
    hide Pow2, BigFloatSqrt.RootDemands, BigFloatSqrt.RootBelow;
    var f, p, low := Pow2(w - u - 1), Pow2(w - u), Pow2(e - w - 1);
    Pow2Add(1, w - u - 1);
    Pow2Add(1, e - w - 1);
    OneShift();
    Pow2Add(e - w - 1, w - u);
    Pow2Add(e - w, w - u);
    RootNear(num, den, f, q * p, q % 2 == 0, mode, sign);
    if q < low {
      MulMono(p, q + 1, low);
      MulDist(p, q, 1);
      NotBelowMore(num, den, q * p + p, low * p);
    }
    if q > 2 * low {
      MulMono(p, 2 * low + 1, q);
      MulDist(p, 2 * low, 1);
      NotBelowMore(num, den, 2 * low * p, q * p - p);
    }
  }

  /** The root lies within one unit of what it is rounded to. */
  lemma {:induction false} RootNear(num: nat, den: nat, f: int, x: int, even: bool, mode: Mode, sign: bool)
    requires den > 0 && f > 0 && BigFloatSqrt.RootDemands(num, den, f, x, even, mode, sign)
    ensures BigFloatSqrt.RootBelow(num, den, x + 2 * f) && !BigFloatSqrt.RootBelow(num, den, x - 2 * f)
  {
    hide BigFloatSqrt.RootBelow, BigFloatSqrt.RootIs;
    NotBelowMore(num, den, x, x + 2 * f);
    NotBelowMore(num, den, x + f, x + 2 * f);
    NotBelowMore(num, den, x - 2 * f, x);
    NotBelowMore(num, den, x - 2 * f, x - f);
    IsBelowMore(num, den, x, x + 2 * f);
    IsBelowMore(num, den, x + f, x + 2 * f);
  }

  /** What a root is below, it is below anything larger. */
  lemma {:induction false} NotBelowMore(num: nat, den: nat, x: int, y: int)
    requires x <= y
    ensures BigFloatSqrt.RootBelow(num, den, x) ==> BigFloatSqrt.RootBelow(num, den, y)
  {
    if x > 0 {
      BigFloatSqrt.SquareMono(x, y);
      MulMono(den, x * x, y * y);
    }
  }

  lemma {:induction false} IsBelowMore(num: nat, den: nat, x: int, y: int)
    requires x < y && den > 0
    ensures BigFloatSqrt.RootIs(num, den, x) ==> BigFloatSqrt.RootBelow(num, den, y)
  {
    if x >= 0 {
      BigFloatSqrt.SquareMono(x + 1, y);
      assert (x + 1) * (x + 1) > x * x;
      MulStrict(den, x * x, y * y);
    }
  }

  // ---------- results that need no rounding ----------

  /** The exponent is in the range of normal numbers. */
  ghost predicate IsNormal(e: int, flags: Flags) { 3 - flags.expRange <= e <= flags.expRange }

  /** The result is `m` times `2^j`, and nothing is flagged; faithful rounding flags INEXACT always. */
  ghost predicate IsExactly(kind: Kind, expn: int, tab: seq<Limb>, st: Status, m: int, j: int, flags: Flags) {
    kind == Finite && Denotes(tab, expn, m, j) && st == Status(flags.mode == RNDF, false, false)
  }

  lemma {:induction false} OutcomeExact(kind: Kind, expn: int, tab: seq<Limb>, st: Status, q: int, w: int, e: int,
                                        inexact: bool, m: int, j: int, prec1: nat, flags: Flags, sign: bool)
    requires Outcome(kind, expn, tab, st, q, w, e, inexact, prec1, flags, sign) && inexact == (flags.mode == RNDF)
    requires w < e && j >= w && q == m * Pow2(j - w) && IsNormal(e, flags) && IsExponent(m, j, e)
    ensures IsExactly(kind, expn, tab, st, m, j, flags)
  {
    hide Pow2, Overflowed, SameNumber;
    var e' :| IsExponent(q, w, e') && OutcomeAt(kind, expn, tab, st, q, w, e', inexact, prec1, flags, sign);
    SameScaledUp(m, j, w);
    SameExponents(q, w, m, j, e');
    ExponentUnique(m, j, e, e');
    SameTrans(Val(tab), expn - 64 * |tab|, q, w, m, j);
  }

  lemma {:induction false} ExponentUnique(m: int, j: int, e: int, e': int)
    requires IsExponent(m, j, e) && IsExponent(m, j, e')
    ensures e == e'
  {
    hide Pow2;
    if e < e' { Pow2Mono(e - j, e' - j - 1); }
    if e' < e { Pow2Mono(e' - j, e - j - 1); }
  }

  lemma {:induction false} NormalLastBit(e: int, prec1: nat, flags: Flags)
    requires IsNormal(e, flags) && !flags.radixPoint
    ensures IsLastBit(e - prec1, e, prec1, flags)
  {
  }

  /** A number whose mantissa has at most the bits asked for is not changed by rounding. */
  lemma {:induction false} NotRounded(n: nat, u: int, e: int, q: int, kind: Kind, expn: int, tab: seq<Limb>, st: Status,
                                      m: nat, j: int, prec1: nat, flags: Flags, sign: bool)
    requires CorrectlyRounded(n, u, e, q, kind, expn, tab, st, prec1, flags, sign)
    requires SameNumber(n, u, m, j) && m < Pow2(prec1) && prec1 > 0 && !flags.radixPoint && IsNormal(e, flags)
    ensures IsExactly(kind, expn, tab, st, m, j, flags)
  {
    hide Pow2, RoundsTo, Outcome, SameNumber, IsNormal, IsRounding, IsRoundedTo, LosesBits, IsExactly;
    var w := e - prec1;
    NormalLastBit(e, prec1, flags);
    RoundedAtUnit(n, u, w, e, q, kind, expn, tab, st, prec1, flags, sign);
    SameExponents(n, u, m, j, e);
    FitsUnit(m, j, e, prec1);
    ExactRounded(n, u, w, q, m, j, flags.mode, sign);
    OutcomeExact(kind, expn, tab, st, q, w, e, flags.mode == RNDF || LosesBits(n, u, w), m, j, prec1, flags, sign);
  }

  lemma {:induction false} ExactRounded(n: nat, u: int, w: int, q: int, m: nat, j: int, mode: Mode, sign: bool)
    requires SameNumber(n, u, m, j) && j >= w && IsRoundedTo(n, u, w, q, mode, sign)
    ensures q == m * Pow2(j - w) && !LosesBits(n, u, w)
  {
    hide Pow2, IsRounding, SameNumber;
    if w >= u {
      SameAt(n, u, m, j, u);
      ZeroShift();
      Pow2Add(j - w, w - u);
      MulAssoc(m, Pow2(j - w), Pow2(w - u));
      var y, p := m * Pow2(j - w), Pow2(w - u);
      assert n == y * p;
      ExactRoundingOf(y, p, q, mode, sign);
      DivUnique(n, p, y, 0);
    } else {
      SameAt(n, u, m, j, w);
    }
  }

  /** A quotient whose mantissa has at most the bits asked for. */
  lemma {:induction false} QuotientNotRounded(n: nat, d: nat, u: int, e: int, q: int, kind: Kind, expn: int,
                                              tab: seq<Limb>, st: Status, m: nat, j: int, prec1: nat, flags: Flags,
                                              sign: bool)
    requires BigFloatDiv.RoundedQuotient(n, d, u, e, q, kind, expn, tab, st, prec1, flags, sign)
    requires SameNumber(n, u, m * d, j) && m < Pow2(prec1) && prec1 > 0 && !flags.radixPoint && IsNormal(e, flags)
    ensures IsExactly(kind, expn, tab, st, m, j, flags)
  {
    hide Pow2, RoundsTo, Outcome, SameNumber, IsNormal, IsRounding, IsExactly, IsExponent, IsLastBit;
    var w := e - prec1;
    NormalLastBit(e, prec1, flags);
    QuotientAtUnit(n, d, u, w, e, q, kind, expn, tab, st, prec1, flags, sign);
    QuotientExponent(n, d, u, m, j, e);
    FitsUnit(m, j, e, prec1);
    QuotientHit(n, d, u, w, q, m, j, flags.mode, sign);
    ExponentAbove(e, w, prec1);
    OutcomeExact(kind, expn, tab, st, q, w, e, flags.mode == RNDF || n % (Pow2(w - u) * d) != 0, m, j, prec1, flags,
                 sign);
  }

  lemma {:induction false} ExponentAbove(e: int, w: int, prec1: nat)
    requires w == e - prec1 && prec1 > 0
    ensures w < e
  {
  }

  lemma {:induction false} QuotientHit(n: nat, d: nat, u: int, w: int, q: int, m: nat, j: int, mode: Mode, sign: bool)
    requires SameNumber(n, u, m * d, j) && j >= w >= u && Pow2(w - u) * d > 0
    requires IsRounding(n, Pow2(w - u) * d, q, mode, sign)
    ensures q == m * Pow2(j - w) && n % (Pow2(w - u) * d) == 0
  {
    hide Pow2, SameNumber, IsRounding;
    var a, b := Pow2(j - w), Pow2(w - u);
    SameAt(n, u, m * d, j, u);
    ZeroShift();
    Pow2Add(j - w, w - u);
    assert j - w + (w - u) == j - u;
    Exchanged(m, d, a, b);
    WholeMultiple(n, m * a, b * d, q, mode, sign);
  }

  lemma {:induction false} WholeMultiple(n: int, y: int, p: int, q: int, mode: Mode, sign: bool)
    requires p > 0 && n == y * p && IsRounding(n, p, q, mode, sign)
    ensures q == y && n % p == 0
  {
    ExactRoundingOf(y, p, q, mode, sign);
    DivUnique(n, p, y, 0);
  }

  lemma {:induction false} Exchanged(m: int, d: int, a: int, b: int)
    ensures (m * d) * (a * b) == (m * a) * (b * d)
  {
  }

  lemma {:induction false} QuotientExponent(n: nat, d: nat, u: int, m: nat, j: int, e: int)
    requires d > 0 && e > u && Pow2(e - u - 1) * d <= n < Pow2(e - u) * d && SameNumber(n, u, m * d, j)
    ensures IsExponent(m, j, e)
  {
    hide Pow2, SameNumber;
    var l := if u <= j then u else j;
    SameAt(n, u, m * d, j, l);
    var p, s := Pow2(u - l), Pow2(j - l);
    Pow2Add(e - u - 1, u - l);
    Pow2Add(e - u, u - l);
    assert e - u - 1 + (u - l) == e - l - 1 && e - u + (u - l) == e - l;
    MulMono(p, Pow2(e - u - 1) * d, n);
    MulStrict(p, n, Pow2(e - u) * d);
    Rotated(Pow2(e - u - 1), d, p);
    Rotated(Pow2(e - u), d, p);
    Rotated(m, d, s);
    CancelAtMost(d, Pow2(e - l - 1), m * s);
    CancelLess(d, m * s, Pow2(e - l));
    PositiveFactor(m, s);
    assert j - (j - l) == l;
    SameExponent(m, j, j - l, e);
  }

  lemma {:induction false} Rotated(a: int, d: int, p: int)
    ensures (a * d) * p == d * (a * p)
  {
  }

  /** A root whose mantissa has at most the bits asked for. */
  lemma {:induction false} RootNotRounded(num: nat, den: nat, u: int, e: int, q: int, kind: Kind, expn: int,
                                          tab: seq<Limb>, st: Status, m: nat, j: int, prec1: nat, flags: Flags,
                                          sign: bool)
    requires BigFloatSqrt.RoundedRoot(num, den, u, e, q, kind, expn, tab, st, prec1, flags, sign)
    requires SameNumber(num, 2 * u, den * (m * m), 2 * j) && m < Pow2(prec1) && prec1 > 0 && !flags.radixPoint
    requires IsNormal(e, flags)
    ensures IsExactly(kind, expn, tab, st, m, j, flags)
  {
    hide Pow2, RoundsTo, Outcome, SameNumber, IsNormal, IsExactly, BigFloatSqrt.RootDemands, BigFloatSqrt.RootIs,
         BigFloatSqrt.RootBelow;
    var w := e - prec1;
    NormalLastBit(e, prec1, flags);
    RootAtUnit(num, den, u, w, e, q, kind, expn, tab, st, prec1, flags, sign);
    RootIsWhole(num, den, u, e, m, j, prec1);
    var t := m * Pow2(j - u);
    RootExact(num, den, u, m, j, t);
    RootExponent(num, den, t, u, e);
    ZeroShift();
    SameScaledUp(m, j, u);
    SameExponents(t, u, m, j, e);
    FitsUnit(m, j, e, prec1);
    Pow2Add(j - w, w - u);
    var y, p, f := m * Pow2(j - w), Pow2(w - u), Pow2(w - u - 1);
    MulAssoc(m, Pow2(j - w), p);
    Pow2Add(1, w - u - 1);
    OneShift();
    RootNear(num, den, f, q * p, q % 2 == 0, flags.mode, sign);
    RootHit(num, den, t, p, y, q, f, flags.mode, sign);
    OutcomeExact(kind, expn, tab, st, q, w, e, flags.mode == RNDF || !BigFloatSqrt.RootIs(num, den, q * p), m, j, prec1,
                 flags, sign);
  }

  /** So few bits that the root is a whole number of the units at hand. */
  lemma {:induction false} RootIsWhole(num: nat, den: nat, u: int, e: int, m: nat, j: int, prec1: nat)
    requires den > 0 && e - u > prec1 && !BigFloatSqrt.RootBelow(num, den, Pow2(e - u - 1)) && m < Pow2(prec1)
    requires SameNumber(num, 2 * u, den * (m * m), 2 * j)
    ensures j >= u
  {
    hide Pow2, SameNumber;
    if j < u {
      var p, t := Pow2(u - j), Pow2(e - u - 1);
      SameAt(num, 2 * u, den * (m * m), 2 * j, 2 * j);
      ZeroShift();
      Pow2Add(u - j, u - j);
      assert 2 * u - 2 * j == u - j + (u - j);
      Pow2Mono(prec1, e - u - 1);
      MulMono(p, 1, p);
      MulMono(num, 1, p * p);
      BigFloatSqrt.SquareMono(m + 1, t);
      assert (m + 1) * (m + 1) > m * m;
      MulStrict(den, m * m, t * t);
    }
  }

  lemma {:induction false} RootExact(num: nat, den: nat, u: int, m: nat, j: int, t: nat)
    requires j >= u && t == m * Pow2(j - u) && SameNumber(num, 2 * u, den * (m * m), 2 * j)
    ensures BigFloatSqrt.RootIs(num, den, t)
  {
    hide Pow2, SameNumber;
    SameAt(num, 2 * u, den * (m * m), 2 * j, 2 * u);
    ZeroShift();
    Pow2Add(j - u, j - u);
    assert 2 * j - 2 * u == j - u + (j - u);
    SquareOfProduct(den, m, Pow2(j - u));
  }

  lemma {:induction false} SquareOfProduct(d: int, m: int, p: int)
    ensures (d * (m * m)) * (p * p) == d * ((m * p) * (m * p))
  {
    assert (m * p) * (m * p) == (m * m) * (p * p);
  }

  lemma {:induction false} RootExponent(num: nat, den: nat, t: nat, u: int, e: int)
    requires den > 0 && e > u && BigFloatSqrt.RootIs(num, den, t)
    requires !BigFloatSqrt.RootBelow(num, den, Pow2(e - u - 1)) && BigFloatSqrt.RootBelow(num, den, Pow2(e - u))
    ensures IsExponent(t, u, e)
  {
    hide Pow2, BigFloatSqrt.RootBelow, BigFloatSqrt.RootIs;
    RootCompares(num, den, t, Pow2(e - u - 1));
    RootCompares(num, den, t, Pow2(e - u));
  }

  lemma {:induction false} RootCompares(num: nat, den: nat, t: nat, x: int)
    requires den > 0 && BigFloatSqrt.RootIs(num, den, t)
    ensures BigFloatSqrt.RootBelow(num, den, x) <==> t < x
  {
    hide BigFloatSqrt.RootBelow, BigFloatSqrt.RootIs;
    if t < x { IsBelowMore(num, den, t, x); } else { NotBelowMore(num, den, x, t); NotBelowItself(num, den, t); }
  }

  lemma {:induction false} NotBelowItself(num: nat, den: nat, t: nat)
    requires BigFloatSqrt.RootIs(num, den, t)
    ensures !BigFloatSqrt.RootBelow(num, den, t)
  {
  }

  /** A root that is a multiple of the unit is what it is rounded to. */
  lemma {:induction false} RootHit(num: nat, den: nat, t: nat, p: nat, y: int, q: int, f: int, mode: Mode, sign: bool)
    requires den > 0 && BigFloatSqrt.RootIs(num, den, t) && p == 2 * f && f > 0 && t == y * p
    requires BigFloatSqrt.RootBelow(num, den, q * p + 2 * f) && !BigFloatSqrt.RootBelow(num, den, q * p - 2 * f)
    requires BigFloatSqrt.RootDemands(num, den, f, q * p, q % 2 == 0, mode, sign)
    ensures q == y && BigFloatSqrt.RootIs(num, den, q * p)
  {
    hide BigFloatSqrt.RootBelow, BigFloatSqrt.RootIs;
    RootCompares(num, den, t, q * p + p);
    RootCompares(num, den, t, q * p - p);
    RootCompares(num, den, t, q * p);
    RootCompares(num, den, t, q * p - f);
    RootEquals(num, den, t, q * p - p);
    MulDist(p, q, 1);
    MulDist(p, q, -1);
    if y > q { MulMono(p, q + 1, y); }
    if y < q - 1 { MulMono(p, y + 1, q - 1); MulDist(p, y, 1); }
  }

  lemma {:induction false} RootEquals(num: nat, den: nat, t: nat, x: int)
    requires den > 0 && BigFloatSqrt.RootIs(num, den, t)
    ensures BigFloatSqrt.RootIs(num, den, x) <==> t == x
  {
    if t < x {
      BigFloatSqrt.SquareMono(t + 1, x);
      assert (t + 1) * (t + 1) > t * t;
      MulStrict(den, t * t, x * x);
    }
    if 0 <= x < t {
      BigFloatSqrt.SquareMono(x + 1, t);
      assert (x + 1) * (x + 1) > x * x;
      MulStrict(den, x * x, t * t);
    }
  }

  // ---------- exact results of the operations ----------

  /** A sum that has at most `prec1` bits is returned as it is. */
  lemma {:induction false} ExactSumReturned(r: Bf, a: Bf, b: Bf, bSign: bool, st: Status, e: int, q: int, m: nat,
                                            j: int,
                                            prec1: nat, flags: Flags)
    requires BigFloatAdd.IsSum(r, a, b, bSign, st, e, q, prec1, flags) && prec1 > 0 && !flags.radixPoint
    requires (a.kind == Finite || a.kind == Zero) && (b.kind == Finite || b.kind == Zero)
    requires var sum := BigFloatAdd.ExactSum(a, b, bSign);
             sum != 0 && SameNumber(BigFloatAdd.Abs(sum), BigFloatAdd.CommonUnit(a, b), m, j)
    requires m < Pow2(prec1) && IsNormal(e, flags)
    ensures r.sign == (BigFloatAdd.ExactSum(a, b, bSign) < 0) && IsExactly(r.kind, r.expn, r.tab, st, m, j, flags)
  {
    hide Pow2, CorrectlyRounded, SameNumber, IsNormal, IsExactly, BigFloatAdd.ExactSum, BigFloatAdd.CommonUnit;
    var sum := BigFloatAdd.ExactSum(a, b, bSign);
    NotRounded(BigFloatAdd.Abs(sum), BigFloatAdd.CommonUnit(a, b), e, q, r.kind, r.expn, r.tab, st, m, j, prec1, flags,
               r.sign);
  }

  /** So is a product. */
  lemma {:induction false} ExactProductReturned(r: Bf, a: Bf, b: Bf, st: Status, e: int, q: int, m: nat, j: int,
                                                prec1: nat, flags: Flags)
    requires BigFloatMul.IsProduct(r, a, b, st, e, q, prec1, flags) && prec1 > 0 && !flags.radixPoint
    requires a.kind == Finite && b.kind == Finite && flags.mode != RNDF
    requires SameNumber(Val(a.tab) * Val(b.tab), BigFloatAdd.Unit(a) + BigFloatAdd.Unit(b), m, j)
    requires m < Pow2(prec1) && IsNormal(e, flags)
    ensures r.sign == (a.sign != b.sign) && IsExactly(r.kind, r.expn, r.tab, st, m, j, flags)
  {
    hide Pow2, Val, CorrectlyRounded, SameNumber, IsNormal, IsExactly, IsRoundedTo;
    NotRounded(BigFloatMul.ProductVal(a.tab, b.tab), BigFloatAdd.Unit(a) + BigFloatAdd.Unit(b), e, q, r.kind, r.expn,
               r.tab, st, m, j, prec1, flags, r.sign);
  }

  /** And a quotient: `a` is `b` times `m 2^j`. */
  lemma {:induction false} ExactQuotientReturned(r: Bf, a: Bf, b: Bf, st: Status, s: nat, e: int, q: int, m: nat,
                                                 j: int,
                                                 prec1: nat, flags: Flags)
    requires BigFloatDiv.IsQuotient(r, a, b, st, s, e, q, prec1, flags) && prec1 > 0 && !flags.radixPoint
    requires a.kind == Finite && b.kind == Finite
    requires SameNumber(Val(a.tab), BigFloatAdd.Unit(a), m * Val(b.tab), BigFloatAdd.Unit(b) + j)
    requires m < Pow2(prec1) && IsNormal(e, flags)
    ensures r.sign == (a.sign != b.sign) && IsExactly(r.kind, r.expn, r.tab, st, m, j, flags)
  {
    hide Pow2, Val, BigFloatDiv.RoundedQuotient, SameNumber, IsNormal, IsExactly;
    var ua, ub := BigFloatAdd.Unit(a), BigFloatAdd.Unit(b);
    SameScaledUp(Val(a.tab), ua, ua - s);
    SameTrans(Val(a.tab) * Pow2(s), ua - s, Val(a.tab), ua, m * Val(b.tab), ub + j);
    SameMoved(Val(a.tab) * Pow2(s), ua - s, m * Val(b.tab), ub + j, ub);
    QuotientNotRounded(Val(a.tab) * Pow2(s), Val(b.tab), ua - ub - s, e, q, r.kind, r.expn, r.tab, st, m, j, prec1,
                       flags, r.sign);
  }

  lemma {:induction false} SameMoved(n: int, x: int, m: int, y: int, k: int)
    requires SameNumber(n, x, m, y)
    ensures SameNumber(n, x - k, m, y - k)
  {
    hide Pow2;
  }

  /** And a root: `a` is the square of `m 2^j`. */
  lemma {:induction false} ExactRootReturned(r: Bf, a: Bf, st: Status, e: int, q: int, m: nat, j: int, prec1: nat,
                                             flags: Flags)
    requires BigFloatSqrt.IsRootOf(r, a, st, e, q, prec1, flags) && prec1 > 0 && !flags.radixPoint
    requires a.kind == Finite && !a.sign && a.WellFormed()
    requires SameNumber(Val(a.tab), BigFloatAdd.Unit(a), m * m, 2 * j) && m < Pow2(prec1) && IsNormal(e, flags)
    ensures !r.sign && IsExactly(r.kind, r.expn, r.tab, st, m, j, flags)
  {
    hide Pow2, Val, BigFloatSqrt.RoundedRoot, SameNumber, IsNormal, IsExactly, BigFloatSqrt.RootLimbs,
         BigFloatSqrt.Scaled, BigFloatSqrt.Divisor;
    var n, odd := BigFloatSqrt.RootLimbs(prec1), a.expn % 2 != 0;
    var u := (a.expn + 1) / 2 - 64 * n;
    RadicandSame(a, prec1, m, j);
    RootNotRounded(BigFloatSqrt.Scaled(a.tab, n), BigFloatSqrt.Divisor(a.tab, n, odd), u, e, q, r.kind, r.expn, r.tab,
                   st, m, j, prec1, flags, r.sign);
  }

  /** The fraction whose root is taken is the same square. */
  lemma {:induction false} RadicandSame(a: Bf, prec1: nat, m: nat, j: int)
    requires a.kind == Finite && a.WellFormed() && SameNumber(Val(a.tab), BigFloatAdd.Unit(a), m * m, 2 * j)
    ensures var n, odd := BigFloatSqrt.RootLimbs(prec1), a.expn % 2 != 0;
            SameNumber(BigFloatSqrt.Scaled(a.tab, n), 2 * ((a.expn + 1) / 2 - 64 * n),
                       BigFloatSqrt.Divisor(a.tab, n, odd) * (m * m), 2 * j)
  {
    hide Pow2, Val, SameNumber, BigFloatSqrt.RootLimbs, BigFloatSqrt.Scaled;
    var n, odd := BigFloatSqrt.RootLimbs(prec1), a.expn % 2 != 0;
    var u := 2 * ((a.expn + 1) / 2 - 64 * n);
    var d, x := BigFloatSqrt.Divisor(a.tab, n, odd), BigFloatSqrt.Scaled(a.tab, n);
    BigFloatSqrt.RadicandIsOperand(a, prec1);
    if |a.tab| <= 2 * n {
      var v := u + (if odd then -1 else 0);
      SameSym(Val(a.tab), BigFloatAdd.Unit(a), x, v);
      SameTrans(x, v, Val(a.tab), BigFloatAdd.Unit(a), m * m, 2 * j);
      EmptyTable();
      if odd {
        OneShift();
        TimesUnit(x, u - 1, m * m, 2 * j, 1);
      } else {
        assert d == 1;
        assert d * (m * m) == m * m;
      }
    } else {
      TimesUnit(x, BigFloatAdd.Unit(a), m * m, 2 * j, u - BigFloatAdd.Unit(a));
    }
  }

  lemma {:induction false} SameSym(n: int, x: int, m: int, y: int)
    requires SameNumber(n, x, m, y)
    ensures SameNumber(m, y, n, x)
  {
    hide Pow2;
    ZeroShift();
  }

  lemma {:induction false} TimesUnit(n: int, x: int, m: int, y: int, k: nat)
    requires SameNumber(n, x, m, y)
    ensures SameNumber(n, x + k, Pow2(k) * m, y)
  {
    hide Pow2, SameNumber;
    var l := if x <= y then x else y;
    SameAt(n, x, m, y, l);
    SameAt(n, x + k, Pow2(k) * m, y, l);
    Pow2Add(x - l, k);
    assert x + k - l == x - l + k;
    MulAssoc(n, Pow2(x - l), Pow2(k));
    Rotated(m, Pow2(k), Pow2(y - l));
    assert (m * Pow2(k)) * Pow2(y - l) == (Pow2(k) * m) * Pow2(y - l);
    Commuted(m * Pow2(y - l), Pow2(k));
  }

  lemma {:induction false} Commuted(a: int, b: int)
    ensures a * b == b * a
  {
  }

  /** 1 + 2^-52 at 53 bits, with a double's range: nothing is lost. */
  method OnePlusLast(flags: Flags) returns (r: Bf, st: Status)
    requires flags == Flags(RNDN, 1024, false, false)
    ensures r.kind == Finite && !r.sign && Denotes(r.tab, r.expn, Pow2(52) + 1, -52)
            && st == Status(false, false, false)
  {
    hide Pow2, Val, CorrectlyRounded, Denotes, SameNumber, BigFloatAdd.ExactSum, BigFloatAdd.CommonUnit;
    OneMantissa();
    var a := new Bf(Finite, false, 1, [TOP_BIT]);
    var b := new Bf(Finite, false, -51, [TOP_BIT]);
    r := new Bf(Zero, false, 0, []);
    ghost var e, q;
    st, e, q := BigFloatAdd.AddInternal(r, a, b, 53, flags, false);
    OnePlusSum(a, b);
    Pow2Add(52, 1);
    OneShift();
    Pow2Mono(1, 52);
    OnePlusExponent(BigFloatAdd.Abs(BigFloatAdd.ExactSum(a, b, false)), BigFloatAdd.CommonUnit(a, b), e, q, r, st,
                    flags);
    ExactSumReturned(r, a, b, false, st, e, q, Pow2(52) + 1, -52, 53, flags);
  }

  lemma {:induction false} OneMantissa()
    ensures Canonical([TOP_BIT]) && Val([TOP_BIT]) == Pow2(63) && TOP_BIT as nat == Pow2(63)
  {
    SingleLimb(TOP_BIT);
    Pow2Limb();
    hide Pow2;
    Pow2Add(63, 1);
    OneShift();
  }

  lemma {:induction false} OnePlusSum(a: Bf, b: Bf)
    requires a.kind == Finite && !a.sign && a.expn == 1 && a.tab == [TOP_BIT]
    requires b.kind == Finite && !b.sign && b.expn == -51 && b.tab == [TOP_BIT]
    ensures var sum := BigFloatAdd.ExactSum(a, b, false);
            sum > 0 && SameNumber(BigFloatAdd.Abs(sum), BigFloatAdd.CommonUnit(a, b), Pow2(52) + 1, -52)
  {
    hide Pow2, Val;
    OneMantissa();
    ZeroShift();
    Pow2Add(63, 52);
    MulDist(Pow2(63), Pow2(52), 1);
    Commuted(Pow2(63), Pow2(52) + 1);
  }

  lemma {:induction false} OnePlusExponent(n: nat, u: int, e: int, q: int, r: Bf, st: Status, flags: Flags)
    requires CorrectlyRounded(n, u, e, q, r.kind, r.expn, r.tab, st, 53, flags, r.sign)
    requires SameNumber(n, u, Pow2(52) + 1, -52) && flags.expRange == 1024
    ensures IsNormal(e, flags)
  {
    hide Pow2, SameNumber, RoundsTo, IsRoundedTo, LosesBits;
    SameExponents(n, u, Pow2(52) + 1, -52, e);
    Pow2Add(52, 1);
    OneShift();
    Pow2Mono(1, 52);
    ExponentUnique(Pow2(52) + 1, -52, e, 1);
  }
}
