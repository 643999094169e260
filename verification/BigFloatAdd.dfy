/** Addition and subtraction of floating point numbers: one rounding of the exact result. */
module BigFloatAdd {
  import opened Arith
  import opened Powers
  import opened Limbs
  import opened Bits
  import opened Rounding
  import opened BigFloatBits
  import opened BigFloat
  import opened BigFloatCancel
  import opened BigFloatSum

  // ---------- values in a common unit ----------

  /** The unit of the last limb's last bit, as an exponent of two. */
  ghost function Unit(x: Bf): int
    reads x
  {
    x.expn - 64 * |x.tab|
  }

  /** A unit in which both of two finite numbers are integers. */
  ghost function CommonUnit(a: Bf, b: Bf): int
    reads a, b
  {
    if a.kind == Zero then Unit(b) else if b.kind == Zero then Unit(a) else if Unit(a) <= Unit(b) then Unit(a)
                                                                            else Unit(b)
  }

  /** The absolute value of a finite number in units of `2^u`. */
  ghost function Magnitude(x: Bf, u: int): nat
    reads x
  {
    if x.kind == Zero || Unit(x) < u then 0 else Val(x.tab) * Pow2(Unit(x) - u)
  }

  ghost function Signed(m: nat, sign: bool): int { if sign then -(m as int) else m }

  ghost function Abs(x: int): nat { if x < 0 then -x else x }

  /** The exact sum, the second operand taken with the sign `bSign`. */
  ghost function ExactSum(a: Bf, b: Bf, bSign: bool): int
    reads a, b
  {
    var u := CommonUnit(a, b);
    Signed(Magnitude(a, u), a.sign) + Signed(Magnitude(b, u), bSign)
  }

  // ---------- comparing ----------

  /** Zeros, then finite numbers, infinities and NaN, as the reserved exponents order them. */
  function Rank(kind: Kind): nat {
    match kind
    case Zero => 0
    case Finite => 1
    case Infinite => 2
    case NotANumber => 3
  }

  /** Compares mantissas of the same exponent from the top. */
  method CompareMantissas(ta: seq<Limb>, tb: seq<Limb>) returns (c: int)
    ensures var t := if |ta| >= |tb| then |ta| else |tb|;
            (c < 0 <==> First(ta, t) < Second(tb, 0, t)) && (c == 0 <==> First(ta, t) == Second(tb, 0, t))
  {
    hide Val, Pow, Pow2, LimbAt, Lead, GetBits;
    var len := if |ta| >= |tb| then |ta| else |tb|;
    ghost var a, b, pa, pb := Val(ta), Val(tb), 64 * |ta|, 64 * |tb| + 0;
    NoLead(ta, 0);
    NoLead(tb, 0);
    var i := len;
    while i > 0
      invariant 0 <= i <= len && Lead(a, pa, len - i) == Lead(b, pb, len - i)
    {
      i := i - 1;
      var v1, v2 := LimbAt(ta, |ta| - len + i), LimbAt(tb, |tb| - len + i);
      ghost var k := len - i - 1;
      ReadLimbs(ta, tb, 0, k);
      AlignedBits(tb, |tb| - 1 - k);
      if v1 != v2 {
        LeadOrder(a, pa, b, pb, k + 1, len);
        LeadOrder(b, pb, a, pa, k + 1, len);
        return if v1 < v2 then -1 else 1;
      }
    }
    return 0;
  }

  lemma {:induction false} AlignedBits(tab: seq<Limb>, i: int)
    ensures GetBits(tab, 64 * i) == LimbAt(tab, i)
  {
    assert (64 * i) / 64 == i && (64 * i) % 64 == 0;
  }

  /** Over enough limbs, the leading limbs are the whole number in the unit of the last limb. */
  lemma {:induction false} LeadWhole(x: Bf, e: int, t: nat)
    requires x.kind == Finite && e - 64 * t <= Unit(x)
    ensures Lead(Val(x.tab), 64 * |x.tab| + (e - x.expn), t) == Magnitude(x, e - 64 * t)
  {
    hide Pow2, Val;
    ZeroShift();
    if e - 64 * t == Unit(x) { assert Val(x.tab) / 1 == Val(x.tab) * 1; }
  }

  /** Compares absolute values. */
  method CmpU(a: Bf, b: Bf) returns (c: int)
    requires a.WellFormed() && b.WellFormed()
    ensures a.kind != b.kind ==> c != 0
    ensures a.kind != b.kind ==>
              (c < 0 <==> a.kind == Zero || b.kind == NotANumber || (a.kind == Finite && b.kind == Infinite))
    ensures a.kind == b.kind && a.kind != Finite ==> c == 0
    ensures a.kind == Finite && b.kind == Finite ==> var u := CommonUnit(a, b);
            (c < 0 <==> Magnitude(a, u) < Magnitude(b, u)) && (c == 0 <==> Magnitude(a, u) == Magnitude(b, u))
               && (c < 0 ==> a.expn <= b.expn) && (c >= 0 ==> b.expn <= a.expn)
  {
    hide Val, Pow, Pow2, Lead, Magnitude;
    if a.kind != b.kind {
      return if Rank(a.kind) < Rank(b.kind) then -1 else 1;
    }
    if a.kind != Finite { return 0; }
    ghost var u := CommonUnit(a, b);
    if a.expn != b.expn {
      if a.expn < b.expn {
        LowerExponent(a, b, u);
        return -1;
      } else {
        LowerExponent(b, a, u);
        return 1;
      }
    }
    c := CompareMantissas(a.tab, b.tab);
    ghost var t := if |a.tab| >= |b.tab| then |a.tab| else |b.tab|;
    LeadWhole(a, a.expn, t);
    LeadWhole(b, a.expn, t);
  }

  lemma {:induction false} MagnitudeRange(x: Bf, u: int)
    requires x.kind == Finite && x.WellFormed() && u <= Unit(x)
    ensures x.expn - 1 - u >= 0 && Pow2(x.expn - 1 - u) <= Magnitude(x, u) < Pow2(x.expn - u)
  {
    hide Pow2, Val, Pow;
    var l, s := |x.tab|, Unit(x) - u;
    TopHalf(x.tab);
    TableBelow(x.tab);
    Pow2Add(64 * l - 1, s);
    Pow2Add(64 * l, s);
    MulMono(Pow2(s), Pow2(64 * l - 1), Val(x.tab));
    MulStrict(Pow2(s), Val(x.tab), Pow2(64 * l));
  }

  lemma {:induction false} LowerExponent(a: Bf, b: Bf, u: int)
    requires a.kind == Finite && b.kind == Finite && a.WellFormed() && b.WellFormed() && u <= Unit(a) && u <= Unit(b)
             && a.expn < b.expn
    ensures Magnitude(a, u) < Magnitude(b, u)
  {
    hide Pow2, Magnitude;
    MagnitudeRange(a, u);
    MagnitudeRange(b, u);
    Pow2Mono(a.expn - u, b.expn - 1 - u);
  }

  // ---------- from the kept limbs to the exact result ----------

  /** Rounding the kept limbs with their sticky bit rounds the exact number, if two more bits are kept than the
      precision. */
  lemma {:induction false} RoundedFromSticky(n: nat, s: nat, u: int, e: int, q: int, kind: Kind, expn: int,
                                             tab: seq<Limb>, st: Status, prec1: nat, flags: Flags, sign: bool)
    requires CorrectlyRounded(Sticky(n, s), u + s, e, q, kind, expn, tab, st, prec1, flags, sign)
    requires !flags.radixPoint && prec1 > 0 && e - (u + s) >= prec1 + 2
    ensures CorrectlyRounded(n, u, e, q, kind, expn, tab, st, prec1, flags, sign)
  {
    hide Pow2, IsRounding, RoundsTo, Sticky;
    var w := e - EffectivePrec(e, prec1, flags);
    var k := w - (u + s);
    StickyRounds(n, s, k, q, flags.mode, sign);
    StickyExact(n, s, k);
    StickyExponent(n, s, u, e);
  }

  lemma {:induction false} StickyExponent(n: nat, s: nat, u: int, e: int)
    requires IsExponent(Sticky(n, s), u + s, e) && e - (u + s) >= 2
    ensures IsExponent(n, u, e)
  {
    hide Pow2;
    var b := e - (u + s);
    Pow2Add(b, s);
    Pow2Add(b - 1, s);
    EvenPow(b - 1);
    var c, r := n / Pow2(s), Pow2(s);
    assert n == c * r + n % r;
    MulMono(r, Pow2(b - 1), c);
    MulMono(r, c + 1, Pow2(b));
    MulDist(r, c, 1);
  }

  /** The kept limbs hold at least two more bits than the precision. */
  lemma {:induction false} EnoughBits(n: nat, s: nat, u: int, e: int, t: nat, kept: nat, cancelled: nat, prec1: nat)
    requires IsExponent(Sticky(n, s), u + s, e) && s == 64 * (t - kept) && kept <= t
             && cancelled + prec1 + 2 <= 64 * kept
    requires n >= Pow2(64 * t - cancelled - 1)
    ensures e - (u + s) >= prec1 + 2
  {
    hide Pow2;
    var m := 64 * kept - cancelled - 1;
    Pow2Add(m, s);
    var c, r := n / Pow2(s), Pow2(s);
    assert n == c * r + n % r;
    if c < Pow2(m) { MulMono(r, c + 1, Pow2(m)); MulDist(r, c, 1); }
    if e - (u + s) <= m { Pow2Mono(e - (u + s), m); }
  }

  /** The same absolute value in a finer unit. */
  lemma {:induction false} Rescale(x: Bf, u: int, v: int)
    requires x.kind == Finite && v <= u <= Unit(x)
    ensures Magnitude(x, v) == Magnitude(x, u) * Pow2(u - v)
  {
    hide Pow2, Val;
    Pow2Add(Unit(x) - u, u - v);
    MulAssoc(Val(x.tab), Pow2(Unit(x) - u), Pow2(u - v));
  }

  /** The absolute value of the result. */
  ghost function Combined(m: int, n: int, sub: bool): int { if sub then m - n else m + n }

  // ---------- adding ----------

  /** The leading bits that the operation can lose; `t` limbs hold both operands. */
  method CancelledBits(a: Bf, b: Bf, sub: bool, t: nat) returns (n: nat)
    requires a.kind == Finite && b.kind == Finite && a.WellFormed() && b.WellFormed() && b.expn <= a.expn
    requires a.expn - 64 * t <= Unit(a) && a.expn - 64 * t <= Unit(b)
    requires sub ==> Magnitude(b, a.expn - 64 * t) < Magnitude(a, a.expn - 64 * t)
    ensures var u := a.expn - 64 * t;
            n < 64 * t ==> Combined(Magnitude(a, u), Magnitude(b, u), sub) >= Pow2(64 * t - n - 1)
  {
    hide Val, Pow, Pow2, Lead, Magnitude;
    ghost var u := a.expn - 64 * t;
    var d := a.expn - b.expn;
    MagnitudeRange(a, u);
    MagnitudeRange(b, u);
    if sub {
      if d <= 1 {
        LeadWhole(a, a.expn, t);
        LeadWhole(b, a.expn, t);
        n := CountCancelledBits(a.tab, b.tab, d, t);
      } else {
        n := 1;
        FarBelow(64 * t, b.expn - u);
      }
    } else {
      n := 0;
    }
  }

  lemma {:induction false} FarBelow(m: nat, k: int)
    requires 0 <= k <= m - 2
    ensures Pow2(m - 1) - Pow2(k) >= Pow2(m - 2)
  {
    hide Pow2;
    Pow2Mono(k, m - 2);
    Pow2Add(m - 2, 1);
    OneShift();
  }

  /** Adds or subtracts the absolute values of finite numbers, the first not smaller. */
  method AddFinite(r: Bf, a: Bf, b: Bf, sub: bool, sign: bool, prec1: nat, flags: Flags)
    returns (st: Status, ghost e: int, ghost q: int)
    requires r != a && r != b && prec1 > 0 && !flags.radixPoint
    requires a.kind == Finite && b.kind == Finite && a.WellFormed() && b.WellFormed() && b.expn <= a.expn
    requires sub ==> Magnitude(b, CommonUnit(a, b)) < Magnitude(a, CommonUnit(a, b))
    modifies r
    ensures r.WellFormed() && r.sign == sign
    ensures var u := CommonUnit(a, b); var n := Combined(Magnitude(a, u), Magnitude(b, u), sub);
            n > 0 && CorrectlyRounded(n, u, e, q, r.kind, r.expn, r.tab, st, prec1, flags, sign)
  {
    hide Val, Pow, Pow2, Magnitude, CorrectlyRounded, Sticky, Canonical, RoundsTo, IsRoundedTo, LosesBits, IsExponent,
         Bf.WellFormed, Combined, EffectivePrec;
    var d := a.expn - b.expn;
    var t := |b.tab| + (d + 63) / 64;
    if t < |a.tab| { t := |a.tab|; }
    ghost var u, ut := CommonUnit(a, b), a.expn - 64 * t;
    ghost var total, exact := Combined(Magnitude(a, ut), Magnitude(b, ut), sub),
        Combined(Magnitude(a, u), Magnitude(b, u), sub);
    NotEmpty(a);
    SumRescaled(a, b, sub, u, ut);
    var cancelled := CancelledBits(a, b, sub, t);
    var kept := (cancelled + prec1 + 2 + 63) / 64;
    if t < kept { kept := t; }
    var tab, carried := SumTable(a, b, sub, t, kept);
    r.kind, r.sign, r.expn, r.tab := Finite, sign, a.expn + (if carried then 64 else 0), tab;
    st, e, q := r.NormalizeAndRound(prec1, flags);
    FinishSum(total, t, kept, cancelled, ut, e, q, r.kind, r.expn, r.tab, st, prec1, flags, sign, exact, u);
  }

  lemma {:induction false} NotEmpty(x: Bf)
    requires x.WellFormed() && x.kind == Finite
    ensures x.tab != []
  {
  }

  /** The leading `kept` of the `t` limbs of the result, with a sticky bit, and one limb more if there is a carry. */
  method SumTable(a: Bf, b: Bf, sub: bool, t: nat, kept: nat) returns (tab: seq<Limb>, carried: bool)
    requires a.kind == Finite && b.kind == Finite && b.expn <= a.expn && 1 <= kept <= t
    requires a.expn - 64 * t <= Unit(a) && a.expn - 64 * t <= Unit(b)
    requires sub ==> Magnitude(b, a.expn - 64 * t) < Magnitude(a, a.expn - 64 * t)
    ensures var u := a.expn - 64 * t; var n := Combined(Magnitude(a, u), Magnitude(b, u), sub);
            |tab| == kept + (if carried then 1 else 0) && n >= 0 && Val(tab) == Sticky(n, 64 * (t - kept))
  {
    hide Val, Pow, Pow2, Lead, Magnitude, SumTo, Sticky;
    var d := a.expn - b.expn;
    ghost var u := a.expn - 64 * t;
    ghost var n := Combined(Magnitude(a, u), Magnitude(b, u), sub);
    var carry, z, low0 := SumLow(a.tab, b.tab, d, sub, t, kept);
    var high, carry', low := SumHigh(a.tab, b.tab, d, sub, t, kept, carry, low0);
    carried := !sub && carry' == 1;
    SumIsTotal(a, b, d, t, sub, low, carry', n);
    LowFits(a.tab, b.tab, d, t, sub, t - kept, low0, carry);
    var top := if carried then 1 else 0;
    CollectedSticky(high, z, top, low0, t - kept, n);
    tab := Collected(high, z, top);
  }

  lemma {:induction false} SumRescaled(a: Bf, b: Bf, sub: bool, u: int, v: int)
    requires a.kind == Finite && b.kind == Finite && a.WellFormed() && b.WellFormed() && v <= u <= Unit(a)
             && u <= Unit(b)
    requires sub ==> Magnitude(b, u) < Magnitude(a, u)
    ensures Combined(Magnitude(a, v), Magnitude(b, v), sub) == Combined(Magnitude(a, u), Magnitude(b, u),
                                                                        sub) * Pow2(u - v)
    ensures sub ==> Magnitude(b, v) < Magnitude(a, v)
    ensures Combined(Magnitude(a, u), Magnitude(b, u), sub) > 0 && Combined(Magnitude(a, v), Magnitude(b, v), sub) > 0
  {
    hide Pow2, Magnitude;
    Rescale(a, u, v);
    Rescale(b, u, v);
    MagnitudeRange(a, u);
    MagnitudeRange(a, v);
    var p: int, m: int, n: int := Pow2(u - v), Magnitude(a, u), Magnitude(b, u);
    assert (m - n) * p == m * p - n * p && (m + n) * p == m * p + n * p;
    if sub { MulStrict(p, n, m); }
  }

  lemma {:induction false} SumIsTotal(a: Bf, b: Bf, d: nat, t: nat, sub: bool, low: int, c: nat, total: int)
    requires a.kind == Finite && b.kind == Finite && d == a.expn - b.expn && a.expn - 64 * t <= Unit(a)
             && a.expn - 64 * t <= Unit(b)
    requires SumTo(a.tab, b.tab, d, t, sub, t, low, c)
             && total == Combined(Magnitude(a, a.expn - 64 * t), Magnitude(b, a.expn - 64 * t), sub)
    requires sub ==> total > 0
    ensures total == low + (if sub then 0 else c) * Pow(t)
  {
    hide Val, Pow, Pow2, Lead, Magnitude, SumTo;
    LeadWhole(a, a.expn, t);
    LeadWhole(b, a.expn, t);
    WholeSum(a.tab, b.tab, d, t, sub, low, c);
  }

  lemma {:induction false} LowFits(ta: seq<Limb>, tb: seq<Limb>, d: nat, t: nat, sub: bool, j: nat, low: int, c: nat)
    requires SumTo(ta, tb, d, t, sub, j, low, c)
    ensures low < Pow(j)
  {
    hide Pow, Lead;
  }

  /** Whether limbs were left out or not, the exact result was rounded. */
  lemma {:induction false} FinishSum(n: nat, t: nat, kept: nat, cancelled: nat, u: int, e: int, q: int, kind: Kind,
                                     expn: int, tab: seq<Limb>, st: Status, prec1: nat, flags: Flags, sign: bool,
                                     exact: nat, u': int)
    requires exact > 0 && u <= u' && n == exact * Pow2(u' - u)
    requires kept <= t && (kept < t ==> cancelled + prec1 + 2 <= 64 * kept) && n > 0 && !flags.radixPoint && prec1 > 0
    requires cancelled < 64 * t ==> n >= Pow2(64 * t - cancelled - 1)
    requires var s := 64 * (t - kept);
             Sticky(n, s) > 0 ==> CorrectlyRounded(Sticky(n, s), u + s, e, q, kind, expn, tab, st, prec1, flags, sign)
    ensures CorrectlyRounded(exact, u', e, q, kind, expn, tab, st, prec1, flags, sign)
  {
    hide Pow2, IsRoundedTo, RoundsTo, LosesBits, Sticky, IsExponent;
    var s := 64 * (t - kept);
    StickyPositive(n, s);
    if kept == t {
      NoSticky(n);
    } else {
      EnoughBits(n, s, u, e, t, kept, cancelled, prec1);
      RoundedFromSticky(n, s, u, e, q, kind, expn, tab, st, prec1, flags, sign);
    }
    CoarserUnits(exact, u', u' - u, e, q, kind, expn, tab, st, prec1, flags, sign);
  }

  lemma {:induction false} StickyPositive(n: nat, s: nat)
    requires n > 0
    ensures Sticky(n, s) > 0
  {
    hide Pow2;
    if n / Pow2(s) == 0 { assert n == (n / Pow2(s)) * Pow2(s) + n % Pow2(s); }
  }

  lemma {:induction false} NoSticky(n: nat)
    ensures Sticky(n, 0) == n
  {
    ZeroShift();
    assert n / 1 == n && n % 1 == 0;
  }

  /** The result of an addition, or with `bNeg` of a subtraction. */
  method AddInternal(r: Bf, a: Bf, b: Bf, prec1: nat, flags: Flags, bNeg: bool)
    returns (st: Status, ghost e: int, ghost q: int)
    requires r != a && r != b && a.WellFormed() && b.WellFormed() && prec1 > 0 && !flags.radixPoint
    modifies r
    ensures r.WellFormed() && IsSum(r, a, b, b.sign != bNeg, st, e, q, prec1, flags)
  {
    hide Val, Pow, Pow2, Magnitude, CorrectlyRounded, Canonical, RoundsTo, IsRoundedTo, LosesBits, IsExponent, Combined,
         ExactSum, CommonUnit;
    var bSign := b.sign != bNeg;
    var sub := a.sign != bSign;
    var c := CmpU(a, b);
    SumOfFinite(a, b, bSign, c);
    var x, y, sign := a, b, a.sign;
    if c < 0 { x, y, sign := b, a, bSign; }
    if c == 0 && sub && x.kind != Infinite && x.kind != NotANumber {
      r.SetZero();
      r.sign := flags.mode == RNDD;
      return Status(false, false, false), 0, 0;
    }
    if x.kind == Finite && y.kind == Finite {
      st, e, q := AddFinite(r, x, y, sub, sign, prec1, flags);
      return;
    }
    if x.kind == Infinite || x.kind == NotANumber {
      st := AddSpecial(r, x, y, sub, sign);
      return st, 0, 0;
    }
    r.kind, r.sign, r.expn, r.tab := x.kind, sign, x.expn, x.tab;
    st, e, q := r.NormalizeAndRound(prec1, flags);
    EmptyTable();
  }

  /** The first operand is infinite or NaN, the second not above it. */
  method AddSpecial(r: Bf, a: Bf, b: Bf, sub: bool, sign: bool) returns (st: Status)
    requires r != a && r != b && (a.kind == Infinite || a.kind == NotANumber)
    modifies r
    ensures r.WellFormed()
    ensures st == Status(false, false, false, invalidOp := a.kind == Infinite && b.kind == Infinite && sub)
    ensures if a.kind == NotANumber || (b.kind == Infinite && sub) then r.kind == NotANumber
            else r.kind == Infinite && r.sign == sign
  {
    if a.kind == NotANumber {
      r.kind, r.tab := NotANumber, [];
      return Status(false, false, false);
    } else if b.kind == Infinite && sub {
      r.kind, r.tab := NotANumber, [];
      return Status(false, false, false, invalidOp := true);
    } else {
      r.kind, r.sign, r.tab := Infinite, sign, [];
      return Status(false, false, false);
    }
  }

  /** The exact sum of finite numbers, from the comparison of their absolute values. */
  lemma {:induction false} SumOfFinite(a: Bf, b: Bf, bSign: bool, c: int)
    requires a.WellFormed() && b.WellFormed()
    requires a.kind == Finite && b.kind == Finite ==>
               var u := CommonUnit(a, b);
               && (c < 0 <==> Magnitude(a, u) < Magnitude(b, u))
               && (c == 0 <==> Magnitude(a, u) == Magnitude(b, u))
    ensures var u, sub, sum := CommonUnit(a, b), a.sign != bSign, ExactSum(a, b, bSign);
            && (a.kind == Finite && b.kind == Finite ==> u <= Unit(a) && u <= Unit(b) && CommonUnit(b, a) == u)
            && (a.kind == Finite && b.kind == Finite ==>
                  if c == 0 && sub then sum == 0
                  else if c < 0 then sum == Signed(Combined(Magnitude(b, u), Magnitude(a, u), sub), bSign) != 0
                  else sum == Signed(Combined(Magnitude(a, u), Magnitude(b, u), sub), a.sign) != 0)
            && (a.kind == Zero && b.kind == Zero ==> sum == 0)
            && (a.kind == Finite && b.kind == Zero ==> u == Unit(a) && Val(a.tab) > 0
                                                       && sum == Signed(Val(a.tab), a.sign))
            && (a.kind == Zero && b.kind == Finite ==> u == Unit(b) && Val(b.tab) > 0
                                                       && sum == Signed(Val(b.tab), bSign))
  {
    hide Val, Magnitude, Canonical, Pow2;
    var u := CommonUnit(a, b);
    Alone(a, u);
    Alone(b, u);
  }

  lemma {:induction false} Alone(x: Bf, u: int)
    requires x.WellFormed()
    ensures x.kind == Zero ==> Magnitude(x, u) == 0
    ensures x.kind == Finite && u <= Unit(x) ==> Magnitude(x, u) > 0
    ensures x.kind == Finite ==> Magnitude(x, Unit(x)) == Val(x.tab) && Val(x.tab) > 0
  {
    hide Val, Pow2;
    if x.kind == Finite {
      ZeroShift();
      PositiveMantissa(x.tab);
      if u <= Unit(x) { MulMono(Pow2(Unit(x) - u), 1, Val(x.tab)); }
    }
  }

  /** `r` is the sum of `a` and of `b` taken with the sign `bSign`: NaN and infinities as IEEE 754 has them, otherwise
      the exact sum rounded once, with its sign; an exact zero from opposite signs is negative only when rounding
      down. */
  ghost predicate IsSum(r: Bf, a: Bf, b: Bf, bSign: bool, st: Status, e: int, q: int, prec1: nat, flags: Flags)
    reads r, a, b
  {
    var none := Status(false, false, false);
    if a.kind == NotANumber || b.kind == NotANumber then r.kind == NotANumber && st == none
    else if a.kind == Infinite && b.kind == Infinite && a.sign != bSign then r.kind == NotANumber
       && st == none.(invalidOp := true)
    else if a.kind == Infinite then r.kind == Infinite && r.sign == a.sign && st == none
    else if b.kind == Infinite then r.kind == Infinite && r.sign == bSign && st == none
    else
      var sum := ExactSum(a, b, bSign);
      if sum == 0 then r.kind == Zero && r.sign == (if a.sign == bSign then a.sign else flags.mode == RNDD)
         && st == none
      else r.sign == (sum < 0) && CorrectlyRounded(Abs(sum), CommonUnit(a, b), e, q, r.kind, r.expn, r.tab, st, prec1,
                                                   flags, r.sign)
  }
}
