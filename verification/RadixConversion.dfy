/** Conversion of integers between a radix and binary, by splitting the digits in halves. The numbers are values here:
    at infinite precision the floating point operations on them are exact. */
module RadixConversion {
  import opened Arith
  import opened Powers
  import opened Bits
  import opened Modular
  import opened Digits
  import opened FftSize
  import opened BigFloatCancel

  // ---------- splitting ----------

  /** The number of digits in the lower part at a level of the recursion: it does not depend on the path taken. */
  function SplitSize(n0: nat, level: nat): (n2: nat) {
    ((2 * n0) / Pow2(level + 1) + 1) / 2
  }

  /** `n` is `n0 / 2^level`, rounded down or up. */
  ghost predicate Near(n: nat, n0: nat, level: nat) { (n - 1) * Pow2(level) < n0 < (n + 1) * Pow2(level) }

  /** Both parts are again near the half, none is empty, and the upper one is at most one digit longer. */
  lemma {:induction false} SplitNear(n: nat, n0: nat, level: nat)
    requires Near(n, n0, level) && n >= 2
    ensures var n2 := SplitSize(n0, level);
            1 <= n2 < n && Near(n2, n0, level + 1) && Near(n - n2, n0, level + 1) && n - n2 <= n2 + 1
    ensures level < CeilLog2(n0)
  {
    hide Pow2, CeilLog2;
    var p := Pow2(level);
    Pow2Add(1, level);
    OneShift();
    var k := n0 / p;
    DivDiv(2 * n0, 2, p);
    assert (2 * n0) / 2 == n0;
    Quotient(n0, p);
    SplitCases(n, n0, p, k, (k + 1) / 2);
    DeepEnough(n, n0, level);
  }

  lemma {:induction false} Quotient(n0: nat, p: nat)
    requires p > 0
    ensures var k := n0 / p; 0 <= k && k * p <= n0 < (k + 1) * p
  {
    var k := n0 / p;
    assert n0 == k * p + n0 % p;
    assert (k + 1) * p == k * p + p;
  }

  lemma {:induction false} SplitCases(n: nat, n0: nat, p: nat, k: nat, n2: nat)
    requires p > 0 && n >= 2 && k * p <= n0 < (k + 1) * p && n2 == (k + 1) / 2 && (n - 1) * p < n0 < (n + 1) * p
    ensures 1 <= n2 < n && n - n2 <= n2 + 1
    ensures (n2 - 1) * (2 * p) < n0 < (n2 + 1) * (2 * p) && (n - n2 - 1) * (2 * p) < n0 < (n - n2 + 1) * (2 * p)
  {
    NextTo(n, n0, p, k);
    var n1 := n - n2;
    HalfOf(n2, k, n0, p);
    if n == k { HalfOf(n1, k, n0, p); } else { HalfAbove(n1, k, n0, p); }
  }

  lemma {:induction false} NextTo(n: int, n0: int, p: int, k: int)
    requires p > 0 && k * p <= n0 < (k + 1) * p && (n - 1) * p < n0 < (n + 1) * p
    ensures n == k || (n == k + 1 && k * p < n0)
  {
    if n > k + 1 { MulMono(p, k + 1, n - 1); }
    if n < k { MulMono(p, n + 1, k); }
  }

  lemma {:induction false} HalfOf(m: int, k: int, n0: int, p: int)
    requires p > 0 && k * p <= n0 < (k + 1) * p && k - 1 <= 2 * m <= k + 1
    ensures (m - 1) * (2 * p) < n0 < (m + 1) * (2 * p)
  {
    MulMono(p, 2 * m - 2, k - 1);
    MulMono(p, k + 1, 2 * m + 2);
    assert p * (2 * m - 2) == (m - 1) * (2 * p) && p * (2 * m + 2) == (m + 1) * (2 * p);
    assert p * (k - 1) == k * p - p;
  }

  lemma {:induction false} HalfAbove(m: int, k: int, n0: int, p: int)
    requires p > 0 && k * p < n0 < (k + 1) * p && k <= 2 * m <= k + 2
    ensures (m - 1) * (2 * p) < n0 < (m + 1) * (2 * p)
  {
    MulMono(p, 2 * m - 2, k);
    MulMono(p, k + 1, 2 * m + 2);
    assert p * (2 * m - 2) == (m - 1) * (2 * p) && p * (2 * m + 2) == (m + 1) * (2 * p);
  }

  /** A level with two digits left lies inside the table of powers. */
  lemma {:induction false} DeepEnough(n: nat, n0: nat, level: nat)
    requires Near(n, n0, level) && n >= 2
    ensures level < CeilLog2(n0)
  {
    hide Pow2, CeilLog2;
    MulMono(Pow2(level), 1, n - 1);
    if CeilLog2(n0) <= level { Pow2Mono(CeilLog2(n0), level); }
  }

  // ---------- powers ----------

  /** `a^b` by squaring, from the top bit of `b` down. */
  method PowUi(a: nat, b: nat) returns (r: nat)
    ensures r as int == Power(a, b)
  {
    hide Pow2, Power, Halved, CeilLog2;
    FirstPowers(a);
    if b == 0 { return 1; }
    var i: int := CeilLog2(b + 1) - 2;
    TopBit(b);
    r := a;
    while i >= 0
      invariant i >= -1 && r as int == Power(a, Halved(b, i + 1))
    {
      NextBit(b, i);
      ghost var h := Halved(b, i + 1);
      PowerAdd(a, h, h);
      PowerAdd(a, h + h, 1);
      SquareNonNegative(r, a);
      r := r * r;
      if Halved(b, i) % 2 == 1 { r := r * a; }
      i := i - 1;
    }
    ZeroShift();
    assert Halved(b, 0) == b / 1;
  }

  lemma {:induction false} FirstPowers(a: int)
    ensures Power(a, 0) == 1 && Power(a, 1) == a
  {
    assert Power(a, 1) == a * Power(a, 0);
  }

  lemma {:induction false} SquareNonNegative(r: nat, a: nat)
    ensures r * r >= 0 && (r * r) * a >= 0
  {
    MulMono(r, 0, r);
    MulMono(r * r, 0, a);
  }

  lemma {:induction false} TopBit(b: nat)
    requires b >= 1
    ensures CeilLog2(b + 1) >= 1 && Halved(b, CeilLog2(b + 1) - 1) == 1
  {
    hide Pow2, Halved, CeilLog2;
    var k := CeilLog2(b + 1);
    ZeroShift();
    Pow2Add(1, k - 1);
    OneShift();
    DivUnique(b, Pow2(k - 1), 1, b - Pow2(k - 1));
  }

  lemma {:induction false} NextBit(b: nat, i: nat)
    ensures Halved(b, i) == 2 * Halved(b, i + 1) + Halved(b, i) % 2
  {
    hide Pow2, Halved;
    Pow2Add(i, 1);
    OneShift();
    DivDiv(b, Pow2(i), 2);
  }

  // ---------- from a radix ----------

  /** The table of powers holds, per level, nothing yet or the power that the level splits by. */
  ghost predicate ValidPows(pows: seq<nat>, radix: nat, n0: nat) {
    |pows| == CeilLog2(n0) + 2 && forall l :: 0 <= l < |pows| ==> pows[l] == 0
                                                                  || pows[l] as int == Power(radix, SplitSize(n0, l))
  }

  /** The power of a level, computed when it is first needed. */
  method LevelPower(pows: array<nat>, level: nat, n0: nat, radix: nat) returns (b: nat)
    requires radix >= 2 && ValidPows(pows[..], radix, n0) && level < CeilLog2(n0)
    modifies pows
    ensures ValidPows(pows[..], radix, n0) && b as int == Power(radix, SplitSize(n0, level))
  {
    hide SplitSize, Power, CeilLog2;
    if pows[level] == 0 {
      var p := PowUi(radix, SplitSize(n0, level));
      pows[level] := p;
    }
    assert pows[..][level] == pows[level];
    b := pows[level];
    PowerPositive(radix, SplitSize(n0, level));
  }

  /** The number with the given digits. */
  method FromRadixRec(tab: seq<nat>, level: nat, n0: nat, radix: nat, pows: array<nat>) returns (r: nat)
    requires radix >= 2 && tab != [] && Near(|tab|, n0, level) && ValidPows(pows[..], radix, n0)
    modifies pows
    ensures ValidPows(pows[..], radix, n0) && r as int == Eval(tab, radix)
    decreases |tab|
  {
    hide Pow2, Power, CeilLog2, SplitSize, Near, ValidPows, Eval;
    if |tab| == 1 {
      OneDigit(tab, radix);
      return tab[0];
    }
    SplitNear(|tab|, n0, level);
    var n2 := SplitSize(n0, level);
    var b := LevelPower(pows, level, n0, radix);
    var high := FromRadixRec(tab[n2..], level + 1, n0, radix, pows);
    r := high * b;
    var low := FromRadixRec(tab[..n2], level + 1, n0, radix, pows);
    r := r + low;
    assert tab == tab[..n2] + tab[n2..];
    EvalConcat(tab[..n2], tab[n2..], radix);
  }

  lemma {:induction false} OneDigit(tab: seq<nat>, radix: int)
    requires |tab| == 1
    ensures Eval(tab, radix) == tab[0]
  {
    assert tab[1..] == [];
    assert Eval(tab[1..], radix) == 0;
  }

  method FromRadix(tab: seq<nat>, radix: nat) returns (r: nat)
    requires radix >= 2 && tab != []
    ensures r as int == Eval(tab, radix)
  {
    hide Power, CeilLog2, SplitSize, Eval;
    var pows := new nat[CeilLog2(|tab|) + 2](_ => 0);
    Whole(|tab|);
    r := FromRadixRec(tab, 0, |tab|, radix, pows);
  }

  lemma {:induction false} Whole(n: nat)
    requires n >= 1
    ensures Near(n, n, 0)
  {
    ZeroShift();
  }

  // ---------- estimating a quotient ----------

  /** The nearest quotient, ties to even. */
  function NearestEven(n: nat, d: nat): (q: nat)
    requires d > 0
    ensures -(d as int) <= 2 * (n - q * d) <= d
  {
    var q, r := n / d, n % d;
    QuotientParts(n, d);
    if 2 * r < d || (2 * r == d && q % 2 == 0) then q else q + 1
  }

  lemma {:induction false} QuotientParts(n: nat, d: nat)
    requires d > 0
    ensures var q, r := n / d, n % d; q >= 0 && 0 <= r < d && n == q * d + r && n == (q + 1) * d + r - d
  {
    var q := n / d;
    assert (q + 1) * d == q * d + d;
  }

  /** `v` rounded to `prec` bits. */
  function RoundBits(v: nat, prec: nat): (m: nat) {
    var e := CeilLog2(v + 1);
    if e <= prec then v
    else
      RoundedNonNegative(v, e - prec);
      NearestEven(v, Pow2(e - prec)) * Pow2(e - prec)
  }

  lemma {:induction false} RoundedNonNegative(v: nat, w: nat)
    ensures NearestEven(v, Pow2(w)) * Pow2(w) >= 0
  {
    hide NearestEven, Pow2;
    MulMono(Pow2(w), 0, NearestEven(v, Pow2(w)));
  }

  /** `c / 2^t` is `1 / b`, rounded to `p` bits. */
  datatype Inverse = Inverse(c: nat, t: nat)

  ghost predicate IsInverse(v: Inverse, b: nat, p: nat) {
    p >= 1 && b >= 1 && -(b as int) <= 2 * (v.c * b - Pow2(v.t)) <= b && Pow2(p - 1) * b <= Pow2(v.t)
  }

  function InverseOf(b: nat, p: nat): (v: Inverse)
    requires b >= 1 && p >= 1
    ensures IsInverse(v, b, p)
  {
    hide Pow2, CeilLog2, NearestEven;
    var l := CeilLog2(b);
    Pow2Add(p - 1, l);
    MulMono(Pow2(p - 1), b, Pow2(l));
    Inverse(NearestEven(Pow2(p - 1 + l), b), p - 1 + l)
  }

  /** The quotient by multiplying with the inverse, rounded to `q` bits and cut to an integer. */
  function EstimateBy(a: nat, v: Inverse, q: nat): (x: nat) {
    ProductNonNegative(a, v.c);
    QuotientParts(RoundBits(a * v.c, q), Pow2(v.t));
    RoundBits(a * v.c, q) / Pow2(v.t)
  }

  lemma {:induction false} ProductNonNegative(a: nat, c: nat)
    ensures a * c >= 0
  {
    MulMono(a, 0, c);
  }

  /** It is off by at most one. */
  lemma {:induction false} EstimateNear(a: nat, b: nat, v: Inverse, q: nat, p: nat)
    requires IsInverse(v, b, p) && q >= 1 && p >= q + 2 && a < Pow2(q) * b
    ensures -1 <= EstimateBy(a, v, q) - a / b <= 1
  {
    hide Pow2, CeilLog2, RoundBits;
    var t := Pow2(v.t);
    Pow2Add(1, q);
    OneShift();
    Pow2Mono(q + 1, p - 1);
    MulMono(b, Pow2(q + 1), Pow2(p - 1));
    assert 2 * a < t;
    ProductNonNegative(a, v.c);
    var x := a * v.c;
    InverseError(a, b, v.c, t, x);
    RoundedClose(x, a, b, t, v.t, q);
    var m := RoundBits(x, q);
    CloseQuotient(a, b, t, x, m);
    QuotientParts(m, t);
    QuotientParts(a, b);
    OffByOne(a, b, t, m, m / t, a / b);
  }

  lemma {:induction false} InverseError(a: int, b: int, c: int, t: int, x: int)
    requires a >= 0 && b >= 1 && 2 * a < t && -b <= 2 * (c * b - t) <= b && x == a * c
    ensures -(t * b) <= 4 * (x * b - a * t) <= t * b
  {
    var g := c * b - t;
    MulAssoc(a, c, b);
    MulDist(a, c * b, -t);
    ErrorTimes(a, b, g, t);
  }

  lemma {:induction false} ErrorTimes(a: int, b: int, g: int, t: int)
    requires a >= 0 && b >= 1 && 2 * a < t && -b <= 2 * g <= b
    ensures -(t * b) <= 4 * (a * g) <= t * b
  {
    MulMono(2 * a, -b, 2 * g);
    MulMono(2 * a, 2 * g, b);
    assert (2 * a) * (2 * g) == 4 * (a * g);
    MulMono(b, 2 * a, t);
    assert (2 * a) * b == b * (2 * a) && (2 * a) * (-b) == -((2 * a) * b);
  }

  /** Rounding to `q` bits moves the product by at most half of `t`. */
  lemma {:induction false} RoundedClose(x: nat, a: nat, b: nat, t: nat, e: nat, q: nat)
    requires t == Pow2(e) && b >= 1 && q >= 1 && a < Pow2(q) * b && 4 * (x * b - a * t) <= t * b
    ensures -(t as int) <= 2 * (RoundBits(x, q) - x) <= t
  {
    hide Pow2, CeilLog2, NearestEven;
    var l := CeilLog2(x + 1);
    if l > q {
      var w := l - q;
      var p := Pow2(w);
      if w <= e {
        Pow2Mono(w, e);
      } else {
        Pow2Add(e, q);
        Pow2Add(1, e);
        Pow2Add(1, q - 1);
        OneShift();
        ProductBound2(x, a, b, t, Pow2(q));
        JustAbove(x, t, e, q, l);
        NearestIsMultiple(x, t, Pow2(q - 1));
      }
    }
  }

  lemma {:induction false} ProductBound2(x: nat, a: nat, b: nat, t: nat, p: nat)
    requires b >= 1 && a < p * b && 4 * (x * b - a * t) <= t * b
    ensures 4 * x < 4 * (p * t) + t + 1
  {
    // 4 x b <= 4 a t + t b < (4 p t + t) b
    MulMono(t, a, p * b);
    assert t * (p * b) == (p * t) * b;
    assert (4 * (p * t) + t) * b == 4 * ((p * t) * b) + t * b;
    if 4 * x >= 4 * (p * t) + t + 1 { MulMono(b, 4 * (p * t) + t + 1, 4 * x); }
    assert b * (4 * x) == 4 * (x * b);
  }

  /** A product with more bits than expected lies just above the power of two. */
  lemma {:induction false} JustAbove(x: nat, t: nat, e: nat, q: nat, l: nat)
    requires t == Pow2(e) && l == CeilLog2(x + 1) && l - q > e && 4 * x < 4 * (Pow2(q) * t) + t + 1
    ensures l == q + e + 1 && Pow2(q) * t <= x && 4 * (x - Pow2(q) * t) <= t
  {
    hide Pow2, CeilLog2;
    Pow2Add(q, e);
    Pow2Mono(q + e, l - 1);
    if l > q + e + 1 {
      Pow2Mono(q + e + 1, l - 1);
      Pow2Add(1, q + e);
      OneShift();
      MulMono(t, 1, Pow2(q));
    }
  }

  lemma {:induction false} NearestIsMultiple(x: nat, t: nat, k: nat)
    requires t > 0 && (2 * k) * t <= x && 4 * (x - (2 * k) * t) <= t
    ensures NearestEven(x, 2 * t) * (2 * t) == (2 * k) * t
  {
    var d := x - (2 * k) * t;
    assert (2 * k) * t == k * (2 * t);
    DivUnique(x, 2 * t, k, d);
  }

  lemma {:induction false} CloseQuotient(a: int, b: int, t: int, x: int, m: int)
    requires b >= 1 && -(t * b) <= 4 * (x * b - a * t) <= t * b && -t <= 2 * (m - x) <= t
    ensures -3 * (t * b) <= 4 * (m * b - a * t) <= 3 * (t * b)
  {
    MulMono(b, -t, 2 * (m - x));
    MulMono(b, 2 * (m - x), t);
    assert b * (2 * (m - x)) == 2 * (m * b) - 2 * (x * b);
    assert b * (-t) == -(t * b) && b * t == t * b;
  }

  lemma {:induction false} OffByOne(a: int, b: int, t: int, m: int, y: int, z: int)
    requires b >= 1 && t >= 1 && -3 * (t * b) <= 4 * (m * b - a * t) <= 3 * (t * b) && y * t <= m < y * t + t
             && z * b <= a < z * b + b
    ensures -1 <= y - z <= 1
  {
    MulMono(t, 1, b);
    Multiplied(y, t, b, m);
    Multiplied(z, b, t, a);
    Commuted(t, b);
    WithinTwo(y * (t * b), m * b, z * (t * b), a * t, y, z, t * b);
  }

  lemma {:induction false} Multiplied(y: int, t: int, b: int, m: int)
    requires b >= 1 && y * t <= m < y * t + t
    ensures y * (t * b) <= m * b < y * (t * b) + t * b
  {
    MulMono(b, y * t, m);
    MulStrict(b, m, y * t + t);
    MulAssoc(y, t, b);
  }

  lemma {:induction false} Commuted(t: int, b: int)
    ensures t * b == b * t
  {
  }

  lemma {:induction false} WithinTwo(yt: int, mb: int, zt: int, at: int, y: int, z: int, tb: int)
    requires tb > 0 && yt == y * tb && zt == z * tb && yt <= mb < yt + tb && zt <= at < zt + tb
             && -3 * tb <= 4 * (mb - at) <= 3 * tb
    ensures -1 <= y - z <= 1
  {
    assert tb * (y - z) == yt - zt;
    if y - z >= 2 { MulMono(tb, 2, y - z); }
    if y - z <= -2 { MulMono(tb, y - z, -2); }
  }

  // ---------- to a radix ----------

  /** Cutting digits in two. */
  lemma {:induction false} DigitsSplit(a: nat, d: nat, m: nat, n: nat)
    requires d > 0
    ensures Power(d, m) > 0 && a / Power(d, m) >= 0 && a % Power(d, m) >= 0
    ensures DigitsOf(a, d, m + n) == DigitsOf(a % Power(d, m), d, m) + DigitsOf(a / Power(d, m), d, n)
    decreases m
  {
    PowerPositive(d, m);
    var p := Power(d, m);
    QuotientParts(a, p);
    if m == 0 {
      assert p == 1 && a / 1 == a && a % 1 == 0;
    } else {
      var p' := Power(d, m - 1);
      PowerPositive(d, m - 1);
      QuotientParts(a, d);
      QuotientParts(a / d, p');
      DigitsSplit(a / d, d, m - 1, n);
      DivDiv(a, d, p');
      LowDigits(a, d, p');
      assert m + n - 1 == m - 1 + n;
    }
  }

  lemma {:induction false} LowDigits(a: nat, d: nat, p: nat)
    requires d > 0 && p > 0
    ensures d * p > 0 && (a % (d * p)) % d == a % d && (a % (d * p)) / d == (a / d) % p
  {
    DivDiv(a, d, p);
    var x, y := (a / d) % p, a % d;
    QuotientParts(a, d);
    QuotientParts(a / d, p);
    DivUnique(y + d * x, d, x, y);
  }

  /** The estimate, corrected: the exact quotient and remainder, after at most one step either way. */
  method DivideCorrected(a: nat, b: nat, v: Inverse, q: nat, ghost p: nat) returns (x: nat, r: nat, ghost steps: int)
    requires IsInverse(v, b, p) && q >= 1 && p >= q + 2 && a < Pow2(q) * b
    ensures b >= 1 && x == a / b && r == a % b && x == EstimateBy(a, v, q) + steps && -1 <= steps <= 1
  {
    hide Pow2, IsInverse, EstimateBy;
    EstimateNear(a, b, v, q, p);
    InversePositive(v, b, p);
    var x0 := EstimateBy(a, v, q);
    var rest: int := a - x0 * b;
    var add: int := 0;
    ghost var z := a / b;
    QuotientParts(a, b);
    RestOf(a, b, x0, z);
    while rest < 0
      invariant -1 <= add <= 0 && rest == a - (x0 + add) * b && (add < 0 ==> x0 + add == z) && rest < b * 2
                && (rest < 0 ==> x0 + add == z + 1)
      decreases -rest
    {
      Shift(x0 + add, b);
      rest, add := rest + b, add - 1;
      RestOf(a, b, x0 + add, z);
    }
    while rest >= b
      invariant -1 <= add <= 1 && rest == a - (x0 + add) * b && rest >= 0
                && (rest >= b ==> x0 + add == z - 1 && add <= 0)
      decreases rest
    {
      Shift(x0 + add, b);
      rest, add := rest - b, add + 1;
      RestOf(a, b, x0 + add, z);
    }
    DivUnique(a, b, x0 + add, rest);
    x, r, steps := x0 + add, rest, add;
  }

  lemma {:induction false} InversePositive(v: Inverse, b: nat, p: nat)
    requires IsInverse(v, b, p)
    ensures b >= 1
  {
  }

  lemma {:induction false} Shift(x: int, b: int)
    ensures (x - 1) * b == x * b - b && (x + 1) * b == x * b + b
  {
  }

  /** What is left for a quotient near the true one. */
  lemma {:induction false} RestOf(a: int, b: int, x: int, z: int)
    requires b >= 1 && z * b <= a < z * b + b && -1 <= x - z <= 1
    ensures var rest := a - x * b; (rest < 0 <==> x == z + 1) && (rest >= b <==> x == z - 1) && rest < 2 * b
  {
    if x == z + 1 { Shift(z, b); } else if x == z - 1 { Shift(z, b); }
  }

  /** Enough bits in the inverse for the longest possible upper part. */
  function InversePrec(n0: nat, level: nat, bits: nat): (p: nat)
    ensures p as int == (SplitSize(n0, level) + 1) * bits + 2 && p >= 2
  {
    hide SplitSize;
    MulMono(bits, 0, SplitSize(n0, level) + 1);
    (SplitSize(n0, level) + 1) * bits + 2
  }

  /** The powers and inverses by level. */
  ghost predicate ValidInverses(pows: seq<nat>, invs: seq<Inverse>, radix: nat, n0: nat, bits: nat) {
    && ValidPows(pows, radix, n0) && |invs| == |pows|
    && forall l :: 0 <= l < |pows| && pows[l] != 0 ==> IsInverse(invs[l], pows[l], InversePrec(n0, l, bits))
  }

  method LevelInverse(pows: array<nat>, invs: array<Inverse>, level: nat, n0: nat, radix: nat, bits: nat)
    returns (b: nat, v: Inverse)
    requires radix >= 2 && ValidInverses(pows[..], invs[..], radix, n0, bits) && level < CeilLog2(n0)
    modifies pows, invs
    ensures ValidInverses(pows[..], invs[..], radix, n0, bits)
    ensures b as int == Power(radix, SplitSize(n0, level)) && IsInverse(v, b, InversePrec(n0, level, bits))
  {
    hide SplitSize, Power, CeilLog2, IsInverse, InverseOf, InversePrec;
    if pows[level] == 0 {
      var p := PowUi(radix, SplitSize(n0, level));
      PowerPositive(radix, SplitSize(n0, level));
      pows[level], invs[level] := p, InverseOf(p, InversePrec(n0, level, bits));
    }
    assert pows[..][level] == pows[level] && invs[..][level] == invs[level];
    PowerPositive(radix, SplitSize(n0, level));
    b, v := pows[level], invs[level];
  }

  /** The bits of a quotient of `n` digits. */
  function QuotientPrec(n: nat, bits: nat): (p: nat)
    ensures p as int == n * bits
  {
    MulMono(bits, 0, n);
    n * bits
  }

  /** Writes the `n` digits of `a` at `o`. */
  method ToRadixRec(out: array<nat>, o: nat, a: nat, n: nat, level: nat, n0: nat, radix: nat, bits: nat,
                    pows: array<nat>, invs: array<Inverse>)
    requires radix >= 2 && radix <= Pow2(bits) && n >= 1 && o + n <= out.Length && a < Power(radix, n)
             && Near(n, n0, level)
    requires out != pows && ValidInverses(pows[..], invs[..], radix, n0, bits)
    modifies out, pows, invs
    ensures ValidInverses(pows[..], invs[..], radix, n0, bits)
    ensures out[o..o + n] == DigitsOf(a, radix, n)
    ensures forall i :: 0 <= i < out.Length && !(o <= i < o + n) ==> out[i] == old(out[i])
    decreases n
  {
    hide Pow2, Power, CeilLog2, SplitSize, Near, ValidInverses, DigitsOf, IsInverse, QuotientPrec, InversePrec,
         EstimateBy;
    if n == 1 {
      OneDigitOf(a, radix);
      out[o] := a;
      assert out[o..o + 1] == [a];
    } else if n == 2 {
      TwoDigitsOf(a, radix);
      out[o], out[o + 1] := a % radix, a / radix;
      assert out[o..o + 2] == [out[o], out[o + 1]];
    } else {
      SplitNear(n, n0, level);
      var n2 := SplitSize(n0, level);
      var n1 := n - n2;
      var b, v := LevelInverse(pows, invs, level, n0, radix, bits);
      DigitsSplit(a, radix, n2, n1);
      var prec := QuotientPrec(n1, bits);
      UpperPart(a, b, radix, n1, n2, bits, prec, InversePrec(n0, level, bits));
      var x, r, _ := DivideCorrected(a, b, v, prec, InversePrec(n0, level, bits));
      ToRadixRec(out, o + n2, x, n1, level + 1, n0, radix, bits, pows, invs);
      ghost var upper := out[o + n2..o + n2 + n1];
      ToRadixRec(out, o, r, n2, level + 1, n0, radix, bits, pows, invs);
      assert out[o + n2..o + n2 + n1] == upper;
      assert out[o..o + n] == out[o..o + n2] + out[o + n2..o + n2 + n1];
      assert n2 + n1 == n;
    }
  }

  lemma {:induction false} OneDigitOf(a: nat, radix: nat)
    requires radix >= 2 && a < Power(radix, 1)
    ensures DigitsOf(a, radix, 1) == [a]
  {
    FirstPowers(radix);
    BelowDivisor(a, radix);
    assert DigitsOf(a / radix, radix, 0) == [];
  }

  lemma {:induction false} TwoDigitsOf(a: nat, radix: nat)
    requires radix >= 2 && a < Power(radix, 2)
    ensures a / radix >= 0 && a % radix >= 0 && DigitsOf(a, radix, 2) == [a % radix, a / radix]
  {
    FirstPowers(radix);
    assert Power(radix, 2) == radix * Power(radix, 1);
    QuotientParts(a, radix);
    QuotientBelow(a, radix, radix);
    OneDigitOf(a / radix, radix);
    assert DigitsOf(a, radix, 2) == [a % radix] + DigitsOf(a / radix, radix, 1);
  }

  /** The upper part has its digits, and the precisions suffice. */
  lemma {:induction false} UpperPart(a: nat, b: nat, radix: nat, n1: nat, n2: nat, bits: nat, q: nat, p: nat)
    requires q as int == n1 * bits && p as int == (n2 + 1) * bits + 2
    requires radix >= 2 && radix <= Pow2(bits) && b as int == Power(radix, n2) && b > 0 && a < Power(radix, n1 + n2)
             && 1 <= n1 <= n2 + 1
    ensures 0 <= a / b && a as int / b < Power(radix, n1) && 0 <= a % b && a as int % b < Power(radix, n2)
    ensures q >= 1 && p >= q + 2 && a as int < Pow2(q) * b
  {
    hide Pow2, Power;
    PowerAdd(radix, n2, n1);
    assert n2 + n1 == n1 + n2;
    QuotientParts(a, b);
    QuotientBelow(a, b, Power(radix, n1));
    BitsPositive(radix, bits);
    MulMono(bits, n1, n2 + 1);
    MulMono(n1, 1, bits);
    PowerBelow(radix, bits, n1);
    MulMono(b, Power(radix, n1), Pow2(n1 * bits));
  }

  lemma {:induction false} BitsPositive(radix: nat, bits: nat)
    requires 2 <= radix <= Pow2(bits)
    ensures bits >= 1
  {
    ZeroShift();
  }

  lemma {:induction false} PowerBelow(radix: nat, bits: nat, n: nat)
    requires radix <= Pow2(bits)
    ensures 0 <= Power(radix, n) <= Pow2(n * bits)
  {
    if n == 0 {
      assert n * bits == 0;
      ZeroShift();
    } else {
      PowerBelow(radix, bits, n - 1);
      assert n * bits == bits + (n - 1) * bits;
      Pow2Add(bits, (n - 1) * bits);
      MulMono(radix, 0, Power(radix, n - 1));
      MulMono(radix, Power(radix, n - 1), Pow2((n - 1) * bits));
      MulMono(Pow2((n - 1) * bits), radix, Pow2(bits));
    }
  }

  method ToRadix(a: nat, n: nat, radix: nat) returns (tab: seq<nat>)
    requires radix >= 2 && n >= 1 && a < Power(radix, n)
    ensures tab == DigitsOf(a, radix, n)
  {
    hide Power, SplitSize, DigitsOf, IsInverse;
    var out := new nat[n](_ => 0);
    var len := CeilLog2(n) + 2;
    var pows := new nat[len](_ => 0);
    var invs := new Inverse[len](_ => Inverse(0, 0));
    Whole(n);
    ToRadixRec(out, 0, a, n, 0, n, radix, CeilLog2(radix), pows, invs);
    assert out[0..0 + n] == out[..];
    tab := out[..];
  }

  // ---------- there and back ----------

  /** Every integer comes back. */
  method ThereAndBack(a: nat, n: nat, radix: nat) returns (r: nat)
    requires radix >= 2 && n >= 1 && a < Power(radix, n)
    ensures r == a
  {
    hide Power, DigitsOf, Eval;
    var tab := ToRadix(a, n, radix);
    DigitsEval(a, radix, n);
    r := FromRadix(tab, radix);
  }

  /** Every sequence of digits comes back. */
  method BackAndThere(tab: seq<nat>, radix: nat) returns (t: seq<nat>)
    requires radix >= 2 && tab != [] && forall i :: 0 <= i < |tab| ==> tab[i] < radix
    ensures t == tab
  {
    hide Power, DigitsOf, Eval;
    var r := FromRadix(tab, radix);
    DigitsOfEval(tab, radix);
    t := ToRadix(r, |tab|, radix);
  }

  lemma {:induction false} DigitsOfEval(tab: seq<nat>, radix: nat)
    requires radix >= 2 && forall i :: 0 <= i < |tab| ==> tab[i] < radix
    ensures 0 <= Eval(tab, radix) < Power(radix, |tab|) && DigitsOf(Eval(tab, radix), radix, |tab|) == tab
    decreases tab
  {
    if tab == [] {
      assert Eval(tab, radix) == 0 && Power(radix, 0) == 1 && DigitsOf(0, radix, 0) == tab;
    } else {
      var rest := tab[1..];
      DigitsOfEval(rest, radix);
      var v := Eval(rest, radix);
      ScaledLess(tab[0], radix, v, Power(radix, |rest|));
      MulMono(radix, 0, v);
      DivUnique(tab[0] + radix * v, radix, v, tab[0]);
      assert tab == [tab[0]] + rest;
    }
  }
}
