/** Square roots of floating point numbers: one rounding of the exact root. */
module BigFloatSqrt {
  import opened Arith
  import opened Powers
  import opened Limbs
  import opened Kernels
  import opened Bits
  import opened Rounding
  import opened SqrtCore
  import opened BigFloatBits
  import opened BigFloat
  import SquareRoot
  import BigFloatAdd
  import BigFloatMul
  import BigFloatDiv
  import BigFloatSum

  // ---------- comparing with a root ----------

  /** The root of `num / den` is below `t`, is `t`. */
  ghost predicate RootBelow(num: nat, den: nat, t: int) { t > 0 && num < den * (t * t) }
  ghost predicate RootIs(num: nat, den: nat, t: int) { t >= 0 && num == den * (t * t) }

  /** What the rounding direction demands of a multiple `x` of `2 f` for the root of `num / den`. */
  ghost predicate RootDemands(num: nat, den: nat, f: int, x: int, even: bool, mode: Mode, sign: bool) {
    var down := !RootBelow(num, den, x) && RootBelow(num, den, x + 2 * f);
    var up := !RootBelow(num, den, x - 2 * f) && !RootIs(num, den, x - 2 * f)
        && (RootBelow(num, den, x) || RootIs(num, den, x));
    match mode
    case RNDZ => down
    case RNDA => up
    case RNDD => if sign then up else down
    case RNDU => if sign then down else up
    case RNDN =>
      && !RootBelow(num, den, x - f) && (RootBelow(num, den, x + f) || RootIs(num, den, x + f))
      && (RootIs(num, den, x - f) || RootIs(num, den, x + f) ==> even)
    case RNDNA => !RootBelow(num, den, x - f) && RootBelow(num, den, x + f)
    case RNDF => !RootBelow(num, den, x - 2 * f) && !RootIs(num, den, x - 2 * f) && RootBelow(num, den, x + 2 * f)
  }

  /** `m` compares with `t` as the root does. */
  ghost predicate LikeRoot(num: nat, den: nat, m: int, t: int) {
    (m < t <==> RootBelow(num, den, t)) && (m == t <==> RootIs(num, den, t))
  }

  lemma {:induction false} SameRootDemands(num: nat, den: nat, m: int, x: int, f: int, even: bool, mode: Mode,
                                           sign: bool)
    requires LikeRoot(num, den, m, x) && LikeRoot(num, den, m, x + 2 * f) && LikeRoot(num, den, m, x - 2 * f)
    requires LikeRoot(num, den, m, x + f) && LikeRoot(num, den, m, x - f)
    ensures Demands(m, 2 * f, x, even, mode, sign) <==> RootDemands(num, den, f, x, even, mode, sign)
  {
    hide RootBelow, RootIs;
  }

  /** `m` is the integer part `s` of the root, made odd if it is not the root. */
  ghost predicate IsStickyRoot(num: nat, den: nat, s: nat, rest: bool, m: nat) {
    && s >= 1 && den > 0 && den * (s * s) <= num < den * ((s + 1) * (s + 1)) && (rest <==> num != den * (s * s))
    && m == (if rest && s % 2 == 0 then s + 1 else s)
  }

  /** It compares with even numbers as the root does. */
  lemma {:induction false} CompareRoot(num: nat, den: nat, s: nat, rest: bool, m: nat, t: int)
    requires IsStickyRoot(num, den, s, rest, m) && t % 2 == 0
    ensures LikeRoot(num, den, m, t)
  {
    if t <= 0 {
      MulMono(s, 1, s);
      MulMono(den, 1, s * s);
      assert t == 0 ==> den * (t * t) == 0;
    } else if t <= s {
      SquareMono(t, s);
      MulMono(den, t * t, s * s);
      if t < s {
        SquareMono(t + 1, s);
        assert (t + 1) * (t + 1) > t * t;
        MulStrict(den, t * t, s * s);
      }
    } else {
      SquareMono(s + 1, t);
      MulMono(den, (s + 1) * (s + 1), t * t);
    }
  }

  lemma {:induction false} SquareMono(x: int, y: int)
    requires 0 <= x <= y
    ensures x * x <= y * y
  {
    MulMono(x, x, y);
    MulMono(y, x, y);
    assert x * y == y * x;
  }

  // ---------- rounding a root ----------

  /** The root of `num / den` in units of `2^u`, with its exponent `e`, rounded once to the precision that this exponent
      gets. */
  ghost predicate RoundedRoot(num: nat, den: nat, u: int, e: int, q: int, kind: Kind, expn: int, tab: seq<Limb>,
                              st: Status, prec1: nat, flags: Flags, sign: bool) {
    var prec := EffectivePrec(e, prec1, flags);
    var w := e - prec;
    && den > 0 && e > u && !RootBelow(num, den, Pow2(e - u - 1)) && RootBelow(num, den, Pow2(e - u))
    && w > u && RootDemands(num, den, Pow2(w - u - 1), q * Pow2(w - u), q % 2 == 0, flags.mode, sign)
    && RoundsTo(kind, expn, tab, st, q, prec, e, flags.mode == RNDF || !RootIs(num, den, q * Pow2(w - u)), prec1, flags,
                sign)
  }

  lemma {:induction false} RootFromSticky(num: nat, den: nat, s: nat, rest: bool, m: nat, u: int, e: int, q: int,
                                          kind: Kind, expn: int, tab: seq<Limb>, st: Status,
                                          prec1: nat, flags: Flags, sign: bool)
    requires IsStickyRoot(num, den, s, rest, m) && e - u >= prec1 + 2 && prec1 > 0 && !flags.radixPoint
    requires CorrectlyRounded(m, u, e, q, kind, expn, tab, st, prec1, flags, sign)
    ensures RoundedRoot(num, den, u, e, q, kind, expn, tab, st, prec1, flags, sign)
  {
    hide Pow2, RoundsTo, Demands, RootDemands, RootBelow, RootIs, IsStickyRoot;
    var w := e - EffectivePrec(e, prec1, flags);
    var k := w - u;
    Pow2Add(1, k - 1);
    OneShift();
    EvenPow(k - 1);
    RootDirection(num, den, s, rest, m, Pow2(k - 1), q, flags.mode, sign);
    RootExponent(num, den, s, rest, m, e - u);
    ExactMultiple(m, Pow2(k), q, flags.mode, sign);
    DenPositive(num, den, s, rest, m);
  }

  lemma {:induction false} DenPositive(num: nat, den: nat, s: nat, rest: bool, m: nat)
    requires IsStickyRoot(num, den, s, rest, m)
    ensures den > 0
  {
  }

  lemma {:induction false} RootExponent(num: nat, den: nat, s: nat, rest: bool, m: nat, b: nat)
    requires IsStickyRoot(num, den, s, rest, m) && b >= 2 && Pow2(b - 1) <= m < Pow2(b)
    ensures !RootBelow(num, den, Pow2(b - 1)) && RootBelow(num, den, Pow2(b))
  {
    hide Pow2, RootBelow, RootIs, IsStickyRoot;
    EvenPow(b - 1);
    EvenPow(b);
    CompareRoot(num, den, s, rest, m, Pow2(b - 1));
    CompareRoot(num, den, s, rest, m, Pow2(b));
  }

  lemma {:induction false} RootDirection(num: nat, den: nat, s: nat, rest: bool, m: nat, f: nat, q: int, mode: Mode,
                                         sign: bool)
    requires IsStickyRoot(num, den, s, rest, m) && f % 2 == 0 && IsRounding(m, 2 * f, q, mode, sign)
    ensures RootDemands(num, den, f, q * (2 * f), q % 2 == 0, mode, sign)
            && (m == q * (2 * f) <==> RootIs(num, den, q * (2 * f)))
  {
    hide Demands, RootDemands, RootBelow, RootIs, IsStickyRoot;
    EvenProduct(q, f);
    RootAt(num, den, s, rest, m, q * (2 * f), f, q % 2 == 0, mode, sign);
  }

  lemma {:induction false} RootAt(num: nat, den: nat, s: nat, rest: bool, m: nat, x: int, f: int, even: bool,
                                  mode: Mode, sign: bool)
    requires IsStickyRoot(num, den, s, rest, m) && x % 2 == 0 && f % 2 == 0
    ensures Demands(m, 2 * f, x, even, mode, sign) <==> RootDemands(num, den, f, x, even, mode, sign)
    ensures m == x <==> RootIs(num, den, x)
  {
    hide Demands, RootDemands, RootBelow, RootIs, IsStickyRoot, LikeRoot;
    RootsAround(num, den, s, rest, m, x / 2, f / 2);
    SameRootDemands(num, den, m, x, f, even, mode, sign);
    IsLike(num, den, m, x);
  }

  lemma {:induction false} RootsAround(num: nat, den: nat, s: nat, rest: bool, m: nat, y: int, g: int)
    requires IsStickyRoot(num, den, s, rest, m)
    ensures var x, f := 2 * y, 2 * g;
            && LikeRoot(num, den, m, x) && LikeRoot(num, den, m, x + 2 * f) && LikeRoot(num, den, m, x - 2 * f)
            && LikeRoot(num, den, m, x + f) && LikeRoot(num, den, m, x - f)
  {
    hide IsStickyRoot, LikeRoot;
    CompareTwice(num, den, s, rest, m, y);
    CompareTwice(num, den, s, rest, m, y + 2 * g);
    CompareTwice(num, den, s, rest, m, y - 2 * g);
    CompareTwice(num, den, s, rest, m, y + g);
    CompareTwice(num, den, s, rest, m, y - g);
    assert 2 * (y + 2 * g) == 2 * y + 2 * (2 * g) && 2 * (y - 2 * g) == 2 * y - 2 * (2 * g);
  }

  lemma {:induction false} CompareTwice(num: nat, den: nat, s: nat, rest: bool, m: nat, y: int)
    requires IsStickyRoot(num, den, s, rest, m)
    ensures LikeRoot(num, den, m, 2 * y)
  {
    hide IsStickyRoot, LikeRoot;
    CompareRoot(num, den, s, rest, m, 2 * y);
  }

  lemma {:induction false} IsLike(num: nat, den: nat, m: int, t: int)
    requires LikeRoot(num, den, m, t)
    ensures m == t <==> RootIs(num, den, t)
  {
    hide RootIs, RootBelow;
  }

  /** A rounded number loses nothing exactly if it is what it is rounded to. */
  lemma {:induction false} ExactMultiple(m: nat, p: nat, q: int, mode: Mode, sign: bool)
    requires p > 0 && IsRounding(m, p, q, mode, sign)
    ensures m % p == 0 <==> m == q * p
  {
    if m % p == 0 {
      var y := m / p;
      assert m == y * p;
      ExactRoundingOf(y, p, q, mode, sign);
    }
    if m == q * p { DivUnique(m, p, q, 0); }
  }

  // ---------- taking the root ----------

  /** The limbs of the root: at least two bits more than the precision. */
  function RootLimbs(prec1: nat): (n: nat)
    ensures n >= 1 && 64 * n >= prec1 + 2
  {
    (2 * (prec1 + 2) + 127) / 128
  }

  /** The radicand: the leading limbs of the table, with zeros below if it is short, halved for odd exponents. `low`
      tells whether a bit was lost in halving. */
  method Radicand(ta: seq<Limb>, n: nat, odd: bool) returns (x: array<Limb>, low: bool)
    requires ta != [] && ta[|ta| - 1] >= TOP_BIT && n >= 1
    ensures fresh(x) && x.Length == 2 * n && 4 * x[2 * n - 1] as int >= B
    ensures var t := BigFloatMul.Leading(ta, 2 * n); var v := Val(t) * Pow(2 * n - |t|);
            v == (if odd then 2 * Val(x[..]) + (if low then 1 else 0) else Val(x[..])) && (!odd ==> !low)
  {
    hide Val, Pow;
    var t := BigFloatMul.Leading(ta, 2 * n);
    x := BigFloatMul.ArrayOf(BigFloatMul.Zeros(2 * n - |t|) + t);
    BigFloatDiv.Padded(t, 2 * n - |t|);
    ghost var xs := x[..];
    low := false;
    if odd {
      assert x[0..0 + 2 * n] == xs;
      var bit := MpShr(x, 0, 2 * n, 1, 0);
      low := bit != 0;
      assert x[0..0 + 2 * n] == x[..];
      ShiftedByOne(x[..], bit, xs);
    }
  }

  lemma {:induction false} ShiftedByOne(rs: seq<Limb>, low: nat, xs: seq<Limb>)
    requires IsShifted(rs, low, xs, 1, 0) && xs != [] && xs[|xs| - 1] >= TOP_BIT
    ensures low <= 1 && Val(xs) == 2 * Val(rs) + low && 4 * rs[|rs| - 1] as int >= B
  {
    hide Val, Pow;
    OneShift();
    assert LowBits(0, 1) == 0;
    var k := |xs| - 1;
    TopHalf(xs);
    assert rs == rs[..k] + [rs[k]];
    ValAppend(rs[..k], rs[k]);
    ValBound(rs[..k]);
    Pow2Add(64 * k, 63);
    Pow2Limbs(k);
    Pow2Add(63, 1);
    Pow2Limb();
    QuarterTop(rs[k], Pow(k), Val(rs[..k]), Val(rs), Val(xs), low);
  }

  lemma {:induction false} QuarterTop(top: int, p: int, lowv: int, v: int, x: int, bit: int)
    requires p > 0 && v == lowv + top * p && 0 <= lowv < p && x == 2 * v + bit && 0 <= bit <= 1 && x >= TOP_BIT * p
    ensures 4 * top >= B
  {
    assert p * (2 * top + 2) == 2 * (top * p) + 2 * p;
    if 4 * top < B { MulMono(p, 2 * top + 2, TOP_BIT); }
  }

  /** The root table with its sticky bit. */
  method RootTable(ta: seq<Limb>, n: nat, odd: bool) returns (tab: seq<Limb>, ghost s: nat, ghost rest: bool)
    requires ta != [] && ta[|ta| - 1] >= TOP_BIT && n >= 1
    ensures |tab| == n && tab[n - 1] >= TOP_BIT
    ensures IsStickyRoot(Scaled(ta, n), Divisor(ta, n, odd), s, rest, Val(tab))
  {
    hide Val, Pow, Pow2, IsStickyRoot;
    var x, low := Radicand(ta, n, odd);
    ghost var xs := x[..];
    var tabs := new Limb[n];
    SquareRoot.MpSqrtRem(tabs, x, n);
    assert tabs[..n] == tabs[..];
    tab := tabs[..];
    s := Val(tab);
    ghost var rem := Val(x[..n + 1]);
    SquareRoot.RootIsDivisor(xs, tab, rem);
    PositiveMantissa(tab);
    var res := low;
    if !res { res := MpScanNz(x, n + 1); }
    var kept := if |ta| <= 2 * n then |ta| else 2 * n;
    if !res { res := ScanBitNz(ta, 64 * (|ta| - kept) - 1); }
    RootOfTable(ta, n, odd, Val(xs), low, s, rem, res);
    rest := res;
    BigFloatDiv.StickyTable(tab, res);
    tab := tab[0 := BigFloatSum.StickyLimb(tab[0], if res then 1 else 0)];
  }

  /** The radicand as a fraction: the table with zeros below it if it is short, over what is cut off if it is long. */
  ghost function Scaled(ta: seq<Limb>, n: nat): nat { Val(ta) * Pow(if |ta| <= 2 * n then 2 * n - |ta| else 0) }
  ghost function Divisor(ta: seq<Limb>, n: nat, odd: bool): nat {
    (if odd then 2 else 1) * Pow(if |ta| <= 2 * n then 0 else |ta| - 2 * n)
  }

  lemma {:induction false} RootOfTable(ta: seq<Limb>, n: nat, odd: bool, x: nat, low: bool, s: nat, rem: nat, res: bool)
    requires n >= 1 && s >= 1 && IsRoot(x, s, rem) && (!odd ==> !low)
    requires var t := BigFloatMul.Leading(ta, 2 * n);
             Val(t) * Pow(2 * n - |t|) == (if odd then 2 * x + (if low then 1 else 0) else x)
    requires var cut := if |ta| <= 2 * n then 0 else |ta| - 2 * n;
             res <==> low || rem != 0 || (cut > 0 && Val(ta) % Pow2(64 * cut) != 0)
    ensures IsStickyRoot(Scaled(ta, n), Divisor(ta, n, odd), s, res, if res && s % 2 == 0 then s + 1 else s)
  {
    hide Val, Pow, Pow2;
    var o, b := if odd then 2 else 1, if low then 1 else 0;
    EmptyTable();
    if |ta| <= 2 * n {
      FractionRoot(Scaled(ta, n), o, x, b, s, rem, res);
    } else {
      var cut := |ta| - 2 * n;
      DropLimbs(ta, cut);
      ValSplit(ta, cut);
      ValBound(ta[..cut]);
      Pow2Limbs(cut);
      var lw := Val(ta[..cut]);
      LongFraction(Val(ta), lw, Pow(cut), o, x, b);
      FractionRoot(Val(ta), o * Pow(cut), x, b * Pow(cut) + lw, s, rem, res);
    }
  }

  /** A long table over what is cut off and, for odd exponents, two. */
  lemma {:induction false} LongFraction(v: nat, lw: nat, p: nat, o: nat, x: nat, b: nat)
    requires p > 0 && lw < p && 1 <= o <= 2 && b < o && v == lw + p * (o * x + b)
    ensures v == x * (o * p) + (b * p + lw) && b * p + lw < o * p && (b * p + lw == 0 <==> b == 0 && lw == 0)
  {
    assert p * (o * x + b) == x * (o * p) + b * p;
    MulMono(p, b + 1, o);
    MulMono(p, 0, b);
    if b > 0 { MulMono(p, 1, b); }
  }

  lemma {:induction false} FractionRoot(num: nat, den: nat, x: nat, rest: nat, s: nat, rem: nat, res: bool)
    requires den > 0 && num == x * den + rest && rest < den && IsRoot(x, s, rem) && s >= 1
             && (res <==> rest != 0 || rem != 0)
    ensures IsStickyRoot(num, den, s, res, if res && s % 2 == 0 then s + 1 else s)
  {
    var sq := s * s;
    assert x == sq + rem;
    assert (s + 1) * (s + 1) == sq + 2 * s + 1;
    assert x * den == den * sq + den * rem;
    MulMono(den, x + 1, (s + 1) * (s + 1));
    MulDist(den, x, 1);
    MulMono(den, 0, rem);
    if rem > 0 { MulMono(den, 1, rem); }
  }

  /** `r` is the root of `a`: NaN for what is negative, zeros and infinity unchanged, otherwise the root rounded
      once. */
  ghost predicate IsRootOf(r: Bf, a: Bf, st: Status, e: int, q: int, prec1: nat, flags: Flags)
    reads r, a
  {
    var none := Status(false, false, false);
    if a.kind == NotANumber then r.kind == NotANumber && st == none
    else if a.kind == Zero || (a.kind == Infinite && !a.sign) then r.kind == a.kind && r.sign == a.sign && st == none
    else if a.sign then r.kind == NotANumber && st == none.(invalidOp := true)
    else
      var n, odd := RootLimbs(prec1), a.expn % 2 != 0;
      && !r.sign
      && RoundedRoot(Scaled(a.tab, n), Divisor(a.tab, n, odd), (a.expn + 1) / 2 - 64 * n, e, q, r.kind, r.expn, r.tab,
                     st, prec1, flags, false)
  }

  method Sqrt(r: Bf, a: Bf, prec1: nat, flags: Flags) returns (st: Status, ghost e: int, ghost q: int)
    requires r != a && a.WellFormed() && prec1 > 0 && !flags.radixPoint
    modifies r
    ensures r.WellFormed() && IsRootOf(r, a, st, e, q, prec1, flags)
  {
    hide Val, Pow, Pow2, RoundedRoot, IsStickyRoot, RoundsTo, IsRoundedTo, LosesBits, Scaled, Divisor;
    e, q := 0, 0;
    st := Status(false, false, false);
    if a.kind != Finite {
      if a.kind == NotANumber {
        r.kind, r.tab := NotANumber, [];
      } else if a.kind == Infinite && a.sign {
        r.kind, r.tab := NotANumber, [];
        st := st.(invalidOp := true);
      } else {
        r.kind, r.sign, r.expn, r.tab := a.kind, a.sign, a.expn, a.tab;
      }
    } else if a.sign {
      r.kind, r.tab := NotANumber, [];
      st := st.(invalidOp := true);
    } else {
      var n, odd := RootLimbs(prec1), a.expn % 2 != 0;
      var tab, s, rest := RootTable(a.tab, n, odd);
      r.kind, r.sign, r.expn, r.tab := Finite, false, (a.expn + 1) / 2, tab;
      e := r.expn;
      st, q := r.Round(prec1, flags, false);
      FullExponent(tab, e);
      RootFromSticky(Scaled(a.tab, n), Divisor(a.tab, n, odd), s, rest, Val(tab), e - 64 * n, e, q, r.kind, r.expn,
                     r.tab, st, prec1, flags, false);
    }
  }

  lemma {:induction false} FullExponent(tab: seq<Limb>, e: int)
    requires tab != [] && tab[|tab| - 1] >= TOP_BIT
    ensures IsExponent(Val(tab), e - 64 * |tab|, e)
  {
    hide Val, Pow, Pow2;
    TopHalf(tab);
    TableBelow(tab);
  }

  /** The fraction is the operand, in units of the square of the root's unit. */
  lemma {:induction false} RadicandIsOperand(a: Bf, prec1: nat)
    requires a.kind == Finite && a.WellFormed()
    ensures var n, odd := RootLimbs(prec1), a.expn % 2 != 0;
            var u := 2 * ((a.expn + 1) / 2 - 64 * n);
            if |a.tab| <= 2 * n then SameNumber(Val(a.tab), BigFloatAdd.Unit(a), Scaled(a.tab, n),
                                                u + (if odd then -1 else 0))
            else
              && Scaled(a.tab, n) == Val(a.tab) && u >= BigFloatAdd.Unit(a)
              && Divisor(a.tab, n, odd) == Pow2(u - BigFloatAdd.Unit(a))
  {
    hide Val, Pow, Pow2, RootLimbs, Canonical;
    var n, odd := RootLimbs(prec1), a.expn % 2 != 0;
    EvenExponent(a.expn);
    EmptyTable();
    if |a.tab| <= 2 * n {
      Pow2Limbs(2 * n - |a.tab|);
    } else {
      var c := |a.tab| - 2 * n;
      Pow2Limbs(c);
      OneShift();
      Pow2Add(1, 64 * c);
    }
  }

  lemma {:induction false} EvenExponent(e: int)
    ensures 2 * ((e + 1) / 2) == if e % 2 != 0 then e + 1 else e
  {
  }
}
