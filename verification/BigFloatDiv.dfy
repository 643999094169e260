/** Division of floating point numbers: one rounding of the exact quotient. */
module BigFloatDiv {
  import opened Arith
  import opened Powers
  import opened Limbs
  import opened Kernels
  import opened Bits
  import opened Rounding
  import opened BigFloatBits
  import opened BigFloat
  import Division
  import BigFloatAdd
  import BigFloatMul
  import BigFloatSum

  // ---------- rounding a quotient ----------

  /** The quotient `n / d` in units of `2^u`, with its exponent `e`, rounded once to the precision that this exponent
      gets. */
  ghost predicate RoundedQuotient(n: nat, d: nat, u: int, e: int, q: int, kind: Kind, expn: int, tab: seq<Limb>,
                                  st: Status, prec1: nat, flags: Flags, sign: bool) {
    var prec := EffectivePrec(e, prec1, flags);
    var w := e - prec;
    && d > 0 && e > u && Pow2(e - u - 1) * d <= n < Pow2(e - u) * d
    && w >= u && Pow2(w - u) * d > 0 && IsRounding(n, Pow2(w - u) * d, q, flags.mode, sign)
    && RoundsTo(kind, expn, tab, st, q, prec, e, flags.mode == RNDF || n % (Pow2(w - u) * d) != 0, prec1, flags, sign)
  }

  /** The integer quotient, made odd if there is a remainder. */
  function StickyQuotient(c: nat, rest: nat): (m: nat) { if rest != 0 && c % 2 == 0 then c + 1 else c }

  /** Rounding it rounds the exact quotient, if two bits more than the precision are there. */
  lemma {:induction false} QuotientFromSticky(n: nat, d: nat, c: nat, rest: nat, u: int, e: int, q: int, kind: Kind,
                                              expn: int, tab: seq<Limb>, st: Status, prec1: nat, flags: Flags,
                                              sign: bool)
    requires d > 0 && n == c * d + rest && rest < d && !flags.radixPoint && prec1 > 0 && e - u >= prec1 + 2
    requires CorrectlyRounded(StickyQuotient(c, rest), u, e, q, kind, expn, tab, st, prec1, flags, sign)
    ensures RoundedQuotient(n, d, u, e, q, kind, expn, tab, st, prec1, flags, sign)
  {
    hide Pow2, IsRounding, RoundsTo;
    var m, w := StickyQuotient(c, rest), e - EffectivePrec(e, prec1, flags);
    var k := w - u;
    Pow2Add(2, k - 2);
    TwoShift();
    var h := Pow2(k - 2);
    var f := 2 * h;
    assert Pow2(k) == 2 * f;
    StickyScaled(n, d, c, rest, m, q, f, flags.mode, sign);
    MulAssoc(2, f, d);
    StickyMultiple(n, d, c, rest, m, f);
    QuotientExponent(n, d, c, rest, m, e - u);
  }

  lemma {:induction false} QuotientExponent(n: nat, d: nat, c: nat, rest: nat, m: nat, b: nat)
    requires d > 0 && n == c * d + rest && rest < d && m == StickyQuotient(c, rest) && b >= 2
             && Pow2(b - 1) <= m < Pow2(b)
    ensures Pow2(b - 1) * d <= n < Pow2(b) * d
  {
    hide Pow2;
    EvenPow(b - 1);
    MulMono(d, Pow2(b - 1), c);
    MulMono(d, c + 1, Pow2(b));
    MulDist(d, c, 1);
  }

  // ---------- dividing ----------

  /** The quotient table with its sticky bit: the dividend with `z` zero limbs below it, divided by a normalized
      table. */
  method QuotientTable(ta: seq<Limb>, z: nat, tb: seq<Limb>) returns (tab: seq<Limb>, ghost c: nat, ghost rest: nat)
    requires ta != [] && tb != [] && |ta| + z >= |tb| && tb[|tb| - 1] >= TOP_BIT
    ensures |tab| == |ta| + z - |tb| + 1 && Val(ta) * Pow(z) == c * Val(tb) + rest && rest < Val(tb)
            && Val(tab) == StickyQuotient(c, rest)
  {
    hide Val, Pow;
    var na, nb := |ta| + z, |tb|;
    var x := BigFloatMul.ArrayOf(BigFloatMul.Zeros(z) + ta);
    var d := BigFloatMul.ArrayOf(tb);
    var qs := new Limb[na - nb + 1];
    ghost var xs := x[..];
    Padded(ta, z);
    assert x[0..0 + na] == xs && d[0..0 + nb] == tb;
    Division.MpDivNorm(qs, x, 0, na, d, 0, nb);
    assert qs[..na - nb + 1] == qs[..];
    ghost var rs := x[0..0 + nb];
    c, rest := Val(qs[..]), Val(rs);
    var nz := MpScanNz(x, nb);
    assert x[..nb] == rs;
    tab := qs[..];
    StickyTable(tab, nz);
    tab := tab[0 := BigFloatSum.StickyLimb(tab[0], if nz then 1 else 0)];
  }

  lemma {:induction false} Padded(ta: seq<Limb>, z: nat)
    ensures Val(BigFloatMul.Zeros(z) + ta) == Val(ta) * Pow(z)
  {
    hide Val, Pow;
    ValZeros(z);
    ValConcat(BigFloatMul.Zeros(z), ta);
  }

  lemma {:induction false} StickyTable(tab: seq<Limb>, nz: bool)
    requires tab != []
    ensures var t := tab[0 := BigFloatSum.StickyLimb(tab[0], if nz then 1 else 0)];
            Val(t) == if nz && Val(tab) % 2 == 0 then Val(tab) + 1 else Val(tab)
  {
    hide Val, Pow;
    ValUpdate(tab, 0, BigFloatSum.StickyLimb(tab[0], if nz then 1 else 0));
    EmptyTable();
    BigFloatSum.LowestBit(tab);
  }

  /** The quotient of finite numbers, rounded once; `s` bits were put below the dividend. */
  method DivFinite(r: Bf, a: Bf, b: Bf, prec1: nat, flags: Flags)
    returns (st: Status, ghost s: nat, ghost e: int, ghost q: int)
    requires r != a && r != b && a.kind == Finite && b.kind == Finite && a.WellFormed() && b.WellFormed() && prec1 > 0
             && !flags.radixPoint
    modifies r
    ensures r.WellFormed() && r.sign == (a.sign != b.sign)
    ensures RoundedQuotient(Val(a.tab) * Pow2(s), Val(b.tab), BigFloatAdd.Unit(a) - BigFloatAdd.Unit(b) - s, e, q,
                            r.kind, r.expn, r.tab, st, prec1, flags, r.sign)
  {
    hide Val, Pow, Pow2, CorrectlyRounded, RoundedQuotient, StickyQuotient;
    var n := BigFloatMul.KeptLimbs(prec1);
    if n < |a.tab| { n := |a.tab|; }
    var z := n + |b.tab| - |a.tab|;
    s := 64 * z;
    Pow2Limbs(z);
    var tab, c, rest := QuotientTable(a.tab, z, b.tab);
    r.kind, r.sign, r.expn, r.tab := Finite, a.sign != b.sign, a.expn - b.expn + 64, tab;
    st, e, q := r.NormalizeAndRound(prec1, flags);
    ghost var u := BigFloatAdd.Unit(a) - BigFloatAdd.Unit(b) - s;
    ghost var v := Val(a.tab) * Pow2(s);
    QuotientLarge(a.tab, z, b.tab, n, v, c, rest);
    EnoughQuotient(c, rest, u, e, n, q, r.kind, r.expn, r.tab, st, prec1, flags, r.sign);
    QuotientFromSticky(v, Val(b.tab), c, rest, u, e, q, r.kind, r.expn, r.tab, st, prec1, flags, r.sign);
  }

  lemma {:induction false} QuotientLarge(ta: seq<Limb>, z: nat, tb: seq<Limb>, n: nat, v: nat, c: nat, rest: nat)
    requires ta != [] && tb != [] && ta[|ta| - 1] >= TOP_BIT && z == n + |tb| - |ta| && n >= 1
    requires v == Val(ta) * Pow2(64 * z) && v == c * Val(tb) + rest && rest < Val(tb)
    ensures c >= Pow2(64 * n - 1) && StickyQuotient(c, rest) > 0
  {
    hide Val, Pow, Pow2;
    TopHalf(ta);
    TableBelow(tb);
    var p, t := Pow2(64 * n - 1), Pow2(64 * |tb|);
    Pow2Add(64 * |ta| - 1, 64 * z);
    Pow2Add(64 * n - 1, 64 * |tb|);
    MulMono(Pow2(64 * z), Pow2(64 * |ta| - 1), Val(ta));
    if c < p {
      MulMono(Val(tb), c + 1, p);
      MulDist(Val(tb), c, 1);
      MulMono(p, Val(tb), t);
    }
  }

  lemma {:induction false} EnoughQuotient(c: nat, rest: nat, u: int, e: int, n: nat, q: int, kind: Kind, expn: int,
                                          tab: seq<Limb>, st: Status, prec1: nat, flags: Flags, sign: bool)
    requires n >= 1 && c >= Pow2(64 * n - 1) && 64 * n >= prec1 + 2
    requires CorrectlyRounded(StickyQuotient(c, rest), u, e, q, kind, expn, tab, st, prec1, flags, sign)
    ensures e - u >= prec1 + 2
  {
    hide Pow2, IsRoundedTo, RoundsTo, LosesBits;
    if e - u < 64 * n { Pow2Mono(e - u, 64 * n - 1); }
  }

  /** `r` is the quotient: NaN, infinities and zeros as IEEE 754 has them, otherwise the quotient rounded once. */
  ghost predicate IsQuotient(r: Bf, a: Bf, b: Bf, st: Status, s: nat, e: int, q: int, prec1: nat, flags: Flags)
    reads r, a, b
  {
    var none, sign := Status(false, false, false), a.sign != b.sign;
    if a.kind == NotANumber || b.kind == NotANumber then r.kind == NotANumber && st == none
    else if (a.kind == Infinite && b.kind == Infinite) || (a.kind == Zero && b.kind == Zero) then r.kind == NotANumber
       && st == none.(invalidOp := true)
    else if a.kind == Infinite then r.kind == Infinite && r.sign == sign && st == none
    else if a.kind == Zero || b.kind == Infinite then r.kind == Zero && r.sign == sign && st == none
    else if b.kind == Zero then r.kind == Infinite && r.sign == sign && st == none.(divideByZero := true)
    else
      && r.sign == sign
      && RoundedQuotient(Val(a.tab) * Pow2(s), Val(b.tab), BigFloatAdd.Unit(a) - BigFloatAdd.Unit(b) - s, e, q, r.kind,
                         r.expn, r.tab, st, prec1, flags, sign)
  }

  method Div(r: Bf, a: Bf, b: Bf, prec1: nat, flags: Flags)
    returns (st: Status, ghost s: nat, ghost e: int, ghost q: int)
    requires r != a && r != b && a.WellFormed() && b.WellFormed() && prec1 > 0 && !flags.radixPoint
    modifies r
    ensures r.WellFormed() && IsQuotient(r, a, b, st, s, e, q, prec1, flags)
  {
    hide Val, Pow2, RoundedQuotient;
    var sign := a.sign != b.sign;
    s, e, q := 0, 0, 0;
    st := Status(false, false, false);
    if a.kind == NotANumber || b.kind == NotANumber {
      r.kind, r.tab := NotANumber, [];
    } else if a.kind == Infinite && b.kind == Infinite {
      r.kind, r.tab := NotANumber, [];
      st := st.(invalidOp := true);
    } else if a.kind == Infinite {
      r.kind, r.sign, r.tab := Infinite, sign, [];
    } else if b.kind == Infinite {
      r.kind, r.sign, r.tab := Zero, sign, [];
    } else if a.kind == Zero {
      if b.kind == Zero {
        r.kind, r.tab := NotANumber, [];
        st := st.(invalidOp := true);
      } else {
        r.kind, r.sign, r.tab := Zero, sign, [];
      }
    } else if b.kind == Zero {
      r.kind, r.sign, r.tab := Infinite, sign, [];
      st := st.(divideByZero := true);
    } else {
      st, s, e, q := DivFinite(r, a, b, prec1, flags);
    }
  }
}
