/** Rounding an integer mantissa to fewer bits: what each direction demands, and the bit tests that decide it. */
module Rounding {
  import opened Arith
  import opened Powers
  import opened Bits

  datatype Mode = RNDN | RNDZ | RNDD | RNDU | RNDNA | RNDA | RNDF

  /** Towards zero, away from zero: `x` is a multiple of `p`. */
  ghost predicate Down(n: int, p: int, x: int) { x <= n < x + p }
  ghost predicate Up(n: int, p: int, x: int) { x - p < n <= x }

  /** What the rounding direction demands of a multiple `x` of `p`, even or odd. */
  ghost predicate Demands(n: int, p: int, x: int, even: bool, mode: Mode, sign: bool) {
    match mode
    case RNDZ => Down(n, p, x)
    case RNDA => Up(n, p, x)
    case RNDD => if sign then Up(n, p, x) else Down(n, p, x)
    case RNDU => if sign then Down(n, p, x) else Up(n, p, x)
    case RNDN => -p <= 2 * (n - x) <= p && (2 * (n - x) == p || 2 * (n - x) == -p ==> even)
    case RNDNA => -p <= 2 * (n - x) < p
    case RNDF => x - p < n < x + p
  }

  /** `q` is the mantissa `n` in units of `p`, rounded as the direction demands. */
  ghost predicate IsRounding(n: int, p: int, q: int, mode: Mode, sign: bool) {
    Demands(n, p, q * p, q % 2 == 0, mode, sign)
  }

  /** Every direction but the faithful one leaves no choice. */
  lemma {:induction false} RoundingUnique(n: int, p: int, q: int, q': int, mode: Mode, sign: bool)
    requires p > 0 && mode != RNDF && IsRounding(n, p, q, mode, sign) && IsRounding(n, p, q', mode, sign)
    ensures q == q'
  {
    hide Demands;
    var a, b := if q <= q' then q else q', if q <= q' then q' else q;
    MulDist(p, a, 1);
    MulDist(p, a, 2);
    if a + 2 <= b { MulMono(p, a + 2, b); }
    if a < b {
      MulMono(p, a + 1, b);
      OneChoice(n, p, a * p, b * p, a % 2 == 0, b % 2 == 0, mode, sign);
    }
  }

  /** The rounded mantissa, direction by direction: the quotient, or the next number. */
  lemma {:induction false} RoundingIs(n: nat, p: nat, q: int, mode: Mode, sign: bool)
    requires p > 0
    ensures var f, r := n / p, n % p; var c := if r == 0 then f else f + 1;
            IsRounding(n, p, q, mode, sign)
            <==> match mode
                 case RNDZ => q == f
                 case RNDA => q == c
                 case RNDD => q == if sign then c else f
                 case RNDU => q == if sign then f else c
                 case RNDN => q == if 2 * r < p || (2 * r == p && f % 2 == 0) then f else f + 1
                 case RNDNA => q == if 2 * r < p then f else f + 1
                 case RNDF => q == f || q == c
  {
    var f, r := n / p, n % p;
    assert n == f * p + r;
    assert q * p == f * p + (q - f) * p;
    var d := q - f;
    if d >= 2 { MulMono(p, 2, d); }
    if d <= -1 { MulMono(p, d, -1); }
    assert d == 0 ==> d * p == 0;
    assert d == 1 ==> d * p == p;
  }

  lemma {:induction false} OneChoice(n: int, p: int, x: int, y: int, evenX: bool, evenY: bool, mode: Mode, sign: bool)
    requires p > 0 && mode != RNDF && x + p <= y && (y < x + 2 * p ==> evenX != evenY)
    ensures !(Demands(n, p, x, evenX, mode, sign) && Demands(n, p, y, evenY, mode, sign))
  {
  }

  // ---------- deciding ----------

  /** What is added to the truncated mantissa: `half` is the first bit dropped, `rest` whether any other is set,
      `odd` the last bit kept. */
  function RndAdd(mode: Mode, sign: bool, half: bool, rest: bool, odd: bool): (add: nat)
    ensures add <= 1
  {
    var inexact := half || rest;
    var b := match mode
      case RNDZ => false
      case RNDN => half && (rest || odd)
      case RNDD => sign && inexact
      case RNDU => !sign && inexact
      case RNDA => inexact
      case RNDNA => half
      case RNDF => half;
    if b then 1 else 0
  }

  /** The bit tests implement the directions, when `k` bits are dropped. */
  lemma {:induction false} RndAddCorrect(n: nat, k: nat, mode: Mode, sign: bool, half: bool, rest: bool, odd: bool)
    requires odd == ((n / Pow2(k)) % 2 == 1)
    requires k == 0 ==> !half && !rest
    requires k > 0 ==> half == ((n / Pow2(k - 1)) % 2 == 1) && rest == (n % Pow2(k - 1) != 0)
    ensures IsRounding(n, Pow2(k), n / Pow2(k) + RndAdd(mode, sign, half, rest, odd), mode, sign)
    ensures (half || rest) <==> n % Pow2(k) != 0
  {
    hide Pow2, IsRounding, RndAdd;
    if k == 0 {
      ZeroShift();
      ExactRounding(n, mode, sign, odd);
    } else {
      Pow2Add(k - 1, 1);
      OneShift();
      var p, h := Pow2(k), Pow2(k - 1);
      HalvedDivision(n, h, p);
      Decide(n, h, n / h, n % h, n / p, mode, sign, half, rest, odd);
      DroppedBits(n % h, h, (n / h) % 2, n % p);
    }
  }

  lemma {:induction false} HalvedDivision(n: nat, h: nat, p: nat)
    requires h > 0 && p == h * 2
    ensures n / p == (n / h) / 2 && n % p == n % h + h * ((n / h) % 2) && n == (n / h) * h + n % h && 0 <= n % h < h
            && n / h >= 0 && n / p >= 0
  {
    DivDiv(n, h, 2);
  }

  lemma {:induction false} DroppedBits(v: nat, h: nat, b: nat, d: nat)
    requires b <= 1 && h > 0 && d == v + h * b
    ensures d != 0 <==> b == 1 || v != 0
  {
  }

  lemma {:induction false} ExactRounding(n: nat, mode: Mode, sign: bool, odd: bool)
    ensures IsRounding(n, 1, n / 1 + RndAdd(mode, sign, false, false, odd), mode, sign) && n % 1 == 0
  {
    assert n / 1 == n;
  }

  lemma {:induction false} Decide(n: nat, h: nat, u: nat, v: nat, q: nat, mode: Mode, sign: bool, half: bool,
                                  rest: bool, odd: bool)
    requires h > 0 && n == u * h + v && v < h && half == (u % 2 == 1) && rest == (v != 0) && q == u / 2
             && odd == (q % 2 == 1)
    ensures IsRounding(n, h * 2, q + RndAdd(mode, sign, half, rest, odd), mode, sign)
  {
    hide RndAdd, Demands;
    var add := RndAdd(mode, sign, half, rest, odd);
    var b, p := if half then 1 else 0, h * 2;
    assert u == 2 * q + b;
    Halves(q, b, h);
    BitTimes(b, h);
    BitTimes(add, p);
    MulDist(p, q, add);
    DecideAt(n, h, q * p, v, half, odd, mode, sign);
  }

  lemma {:induction false} DecideAt(n: int, h: int, x: int, v: int, half: bool, odd: bool, mode: Mode, sign: bool)
    requires 0 <= v < h && n == x + (if half then h else 0) + v
    ensures var add := RndAdd(mode, sign, half, v != 0, odd);
            Demands(n, h * 2, x + (if add == 1 then h * 2 else 0), odd == (add == 1), mode, sign)
  {
  }

  lemma {:induction false} Halves(q: int, b: int, h: int)
    ensures (2 * q + b) * h == q * (h * 2) + b * h
  {
  }

  // ---------- sticky bits ----------

  /** Cutting off `s` bits and recording in the last bit whether any of them was set. */
  function Sticky(n: nat, s: nat): (m: nat) {
    var c, d := n / Pow2(s), n % Pow2(s);
    if d != 0 && c % 2 == 0 then c + 1 else c
  }

  /** `m` is the quotient of `n` by `r`, made odd if the remainder is not zero. */
  ghost predicate Cut(n: int, r: int, c: int, d: int, m: int) {
    r > 0 && n == c * r + d && 0 <= d < r && m == (if d != 0 && c % 2 == 0 then c + 1 else c)
  }

  ghost predicate Times(tr: int, t: int, r: int) { tr == t * r }

  /** Two comparisons come out alike. */
  ghost predicate Alike(n: int, x: int, m: int, y: int) { (n < x <==> m < y) && (n == x <==> m == y) }

  /** Against even numbers of units, the cut mantissa compares as the exact one. */
  lemma {:induction false} CompareEven(n: int, r: int, c: int, d: int, m: int, t: int, tr: int)
    requires Cut(n, r, c, d, m) && t % 2 == 0 && Times(tr, t, r)
    ensures Alike(n, tr, m, t)
  {
    if t <= c {
      MulMono(r, t, c);
      if t < c { MulMono(r, t + 1, c); MulDist(r, t, 1); }
    } else {
      MulMono(r, c + 1, t);
      MulDist(r, c, 1);
      if t > c + 1 { MulStrict(r, c + 1, t); }
    }
  }

  /** With at least two bits still to drop, rounding the cut mantissa rounds the exact one. */
  lemma {:induction false} StickyRounds(n: nat, s: nat, k: nat, q: int, mode: Mode, sign: bool)
    requires k >= 2
    ensures IsRounding(n, Pow2(k + s), q, mode, sign) <==> IsRounding(Sticky(n, s), Pow2(k), q, mode, sign)
  {
    hide Pow2, IsRounding;
    Pow2Add(k, s);
    Pow2Add(2, k - 2);
    TwoShift();
    var r, e := Pow2(s), Pow2(k - 2);
    assert Pow2(k) == 2 * (2 * e);
    MulAssoc(2, 2 * e, r);
    StickyScaled(n, r, n / r, n % r, Sticky(n, s), q, 2 * e, mode, sign);
  }

  lemma {:induction false} StickyScaled(n: int, r: int, c: int, d: int, m: int, q: int, f: int, mode: Mode, sign: bool)
    requires Cut(n, r, c, d, m) && f % 2 == 0
    ensures IsRounding(n, 2 * (f * r), q, mode, sign) <==> IsRounding(m, 2 * f, q, mode, sign)
  {
    hide Demands;
    var x := q * (2 * f);
    EvenProduct(q, f);
    ScaledMultiple(q, f, r);
    StickyAt(n, r, c, d, m, x, f, q % 2 == 0, mode, sign);
  }

  lemma {:induction false} EvenProduct(q: int, f: int)
    ensures (q * (2 * f)) % 2 == 0
  {
    assert q * (2 * f) == 2 * (q * f);
  }

  lemma {:induction false} ScaledMultiple(q: int, f: int, r: int)
    ensures q * (2 * (f * r)) == (q * (2 * f)) * r
  {
    assert (2 * f) * r == 2 * (f * r);
    MulAssoc(q, 2 * f, r);
  }

  lemma {:induction false} StickyAt(n: int, r: int, c: int, d: int, m: int, x: int, f: int, even: bool, mode: Mode,
                                    sign: bool)
    requires Cut(n, r, c, d, m) && x % 2 == 0 && f % 2 == 0
    ensures Demands(n, 2 * (f * r), x * r, even, mode, sign) <==> Demands(m, 2 * f, x, even, mode, sign)
  {
    hide Demands, Alike, Cut, Times;
    var xr, fr := x * r, f * r;
    Distributed(x, f, r, xr, fr);
    CompareEven(n, r, c, d, m, x, xr);
    CompareEven(n, r, c, d, m, x + 2 * f, xr + 2 * fr);
    CompareEven(n, r, c, d, m, x - 2 * f, xr - 2 * fr);
    CompareEven(n, r, c, d, m, x + f, xr + fr);
    CompareEven(n, r, c, d, m, x - f, xr - fr);
    SameDemands(n, xr, fr, m, x, f, even, mode, sign);
  }

  lemma {:induction false} Distributed(x: int, f: int, r: int, xr: int, fr: int)
    requires xr == x * r && fr == f * r
    ensures Times(xr, x, r) && Times(xr + 2 * fr, x + 2 * f, r) && Times(xr - 2 * fr, x - 2 * f, r)
    ensures Times(xr + fr, x + f, r) && Times(xr - fr, x - f, r)
  {
  }

  /** Directions only compare with a multiple, its neighbours and the midpoints. */
  lemma {:induction false} SameDemands(n: int, x: int, f: int, n': int, x': int, f': int, even: bool, mode: Mode,
                                       sign: bool)
    requires Alike(n, x, n', x') && Alike(n, x + 2 * f, n', x' + 2 * f') && Alike(n, x - 2 * f, n', x' - 2 * f')
    requires Alike(n, x + f, n', x' + f') && Alike(n, x - f, n', x' - f')
    ensures Demands(n, 2 * f, x, even, mode, sign) <==> Demands(n', 2 * f', x', even, mode, sign)
  {
  }

  /** And the cut mantissa is exact at that precision exactly if the whole one is. */
  lemma {:induction false} StickyExact(n: nat, s: nat, k: nat)
    requires k >= 1
    ensures n % Pow2(k + s) == 0 <==> Sticky(n, s) % Pow2(k) == 0
  {
    hide Pow2;
    Pow2Add(k, s);
    Pow2Add(1, k - 1);
    OneShift();
    var r, h := Pow2(s), Pow2(k - 1);
    StickyMultiple(n, r, n / r, n % r, Sticky(n, s), h);
  }

  lemma {:induction false} StickyMultiple(n: nat, r: nat, c: nat, d: nat, m: nat, h: nat)
    requires r > 0 && h > 0 && n == c * r + d && d < r && m == (if d != 0 && c % 2 == 0 then c + 1 else c)
    ensures (2 * h) * r > 0 && (n % ((2 * h) * r) == 0 <==> m % (2 * h) == 0)
  {
    MulMono(r, 1, 2 * h);
    if m % (2 * h) == 0 { MultipleUp(n, r, c, d, m, 2 * h, m / (2 * h)); }
    if n % ((2 * h) * r) == 0 { MultipleDown(n, r, c, d, m, 2 * h, n / ((2 * h) * r)); }
  }

  lemma {:induction false} MultipleUp(n: nat, r: nat, c: nat, d: nat, m: nat, p: nat, u: nat)
    requires r > 0 && p > 0 && p % 2 == 0 && n == c * r + d && d < r && m == (if d != 0 && c % 2 == 0 then c + 1 else c)
             && m == u * p
    ensures p * r > 0 && n % (p * r) == 0
  {
    EvenProduct(u, p / 2);
    CompareEven(n, r, c, d, m, m, m * r);
    MulAssoc(u, p, r);
    MulMono(r, 1, p);
    DivUnique(n, p * r, u, 0);
  }

  lemma {:induction false} MultipleDown(n: nat, r: nat, c: nat, d: nat, m: nat, p: nat, u: nat)
    requires r > 0 && p > 0 && p % 2 == 0 && n == c * r + d && d < r && m == (if d != 0 && c % 2 == 0 then c + 1 else c)
             && n == u * (p * r)
    ensures m % p == 0
  {
    EvenProduct(u, p / 2);
    MulAssoc(u, p, r);
    CompareEven(n, r, c, d, m, u * p, n);
    DivUnique(m, p, u, 0);
  }
}
