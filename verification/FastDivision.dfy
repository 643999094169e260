/** Division of words without dividing: by a fixed divisor through multiplication and shifts, and of two words by
    10^19. */
module FastDivision {
  import opened Arith
  import opened Powers
  import opened Limbs
  import opened WordDivision
  import opened Bits
  import opened BigFloatBits

  // ---------- a fixed divisor ----------

  /** A multiplier and two shifts. */
  datatype FastDiv = FastDiv(m1: Limb, shift1: nat, shift2: nat)

  /** The largest word that leaves the remainder `d - 1`: where a multiplier that is too large first goes wrong. */
  ghost function Worst(d: nat): (a: int)
    requires 0 < d < B
    ensures d - 1 <= a < B
  {
    WorstRange(d, B / d);
    (B / d) * d - 1
  }

  lemma {:induction false} WorstRange(d: nat, q: nat)
    requires 0 < d < B && q == B / d
    ensures d <= q * d <= B < q * d + d
  {
    assert B == q * d + B % d;
    if q >= 1 { MulMono(d, 1, q); } else { MulMono(d, q, 0); }
  }

  /** `m / (p B)` is close enough to `1 / d` for all words. */
  ghost predicate Divides(m: int, d: nat, p: nat) {
    0 < d < B && 0 <= m * d - p * B && (m * d - p * B) * Worst(d) < p * B
  }

  /** Multiplying by `m` and dropping the bits below `p B` divides every word by `d` exactly if `Divides` holds. */
  lemma {:induction false} MultiplierExact(m: nat, d: nat, p: nat)
    requires 0 < d < B && p > 0
    ensures p * B > 0 && (Divides(m, d, p) <==> forall a: Limb :: IsQuotient(m, d, p * B, a))
  {
    hide Divides, IsQuotient;
    MulMono(p, 1, B);
    if Divides(m, d, p) {
      forall a: Limb ensures IsQuotient(m, d, p * B, a) { MultiplierQuotient(a, d, m, p, m * d - p * B); }
    }
    if forall a: Limb :: IsQuotient(m, d, p * B, a) {
      assert IsQuotient(m, d, p * B, d);
      var w: Limb := Worst(d);
      assert IsQuotient(m, d, p * B, w);
      ExactNeeds(m, d, p, p * B, w);
    }
  }

  ghost predicate IsQuotient(m: nat, d: nat, pb: nat, a: nat) { pb > 0 && d > 0 && (m * a) / pb == a / d }

  lemma {:induction false} ExactNeeds(m: nat, d: nat, p: nat, pb: nat, w: nat)
    requires 0 < d < B && pb == p * B > 0 && w == Worst(d) && IsQuotient(m, d, pb, d) && IsQuotient(m, d, pb, w)
    ensures Divides(m, d, p)
  {
    var e := m * d - pb;
    assert d / d == 1 by { DivUnique(d, d, 1, 0); }
    assert m * d == 1 * pb + (m * d) % pb;
    var q := B / d;
    WorstRange(d, q);
    DivUnique(w, d, q - 1, d - 1);
    assert (q - 1) * d == q * d - d;
    assert m * w == (q - 1) * pb + (m * w) % pb;
    NotReached(m, d, pb, w, q, e);
  }

  lemma {:induction false} NotReached(m: nat, d: nat, pb: int, w: nat, q: int, e: int)
    requires d > 0 && w == q * d - 1 && m * d == pb + e && m * w < (q - 1) * pb + pb
    ensures e * w < pb
  {
    // d m w == (pb + e) w, and d q pb == (w + 1) pb
    MulStrict(d, m * w, (q - 1) * pb + pb);
    assert d * (m * w) == (m * d) * w;
    assert (pb + e) * w == pb * w + e * w;
    assert (q - 1) * pb + pb == q * pb;
    assert d * (q * pb) == (q * d) * pb;
    assert (w + 1) * pb == pb * w + pb;
  }

  lemma {:induction false} MultiplierQuotient(a: Limb, d: nat, m: nat, p: nat, e: int)
    requires p > 0 && Divides(m, d, p) && e == m * d - p * B
    ensures IsQuotient(m, d, p * B, a)
  {
    var q, r, pb := a as nat / d, a as nat % d, p * B;
    MulMono(p, 1, B);
    RemainderOf(a, d);
    ErrorBelow(a, d, pb, e, q, r);
    Unfolded(a, d, m, pb, e);
    QuotientBetween(a, d, m, pb, e, q, r);
  }

  lemma {:induction false} RemainderOf(a: nat, d: nat)
    requires d > 0
    ensures a == (a / d) * d + a % d && 0 <= a % d < d && a / d >= 0
  {
  }

  lemma {:induction false} QuotientBetween(a: nat, d: nat, m: nat, pb: nat, e: int, q: nat, r: nat)
    requires 0 < d && pb > 0 && a == q * d + r && q == a / d && e >= 0 && d * (m * a) == pb * a + e * a
             && e * a < pb * (d - r)
    ensures IsQuotient(m, d, pb, a)
  {
    QuotientAbove(a, d, m, pb, e, q, r);
    QuotientBelow(a, d, m, pb, e, q, r);
    assert q * pb == pb * q;
    DivUnique(m * a, pb, q, m * a - q * pb);
  }

  lemma {:induction false} Unfolded(a: nat, d: nat, m: nat, pb: nat, e: int)
    requires e == m * d - pb
    ensures d * (m * a) == pb * a + e * a
  {
    MulAssoc(d, m, a);
    assert (m * d) * a == (pb + e) * a == pb * a + e * a;
  }

  lemma {:induction false} QuotientAbove(a: nat, d: nat, m: nat, pb: nat, e: int, q: nat, r: nat)
    requires 0 < d && a == q * d + r && e >= 0 && d * (m * a) == pb * a + e * a
    ensures pb * q <= m * a
  {
    assert pb * a == d * (pb * q) + pb * r;
    MulMono(a, 0, e);
    assert e * a == a * e;
    MulMono(pb, 0, r);
    CancelAtMost(d, pb * q, m * a);
  }

  /** The error that has built up at `a` does not reach the next multiple. */
  lemma {:induction false} ErrorBelow(a: Limb, d: nat, pb: int, e: int, q: nat, r: nat)
    requires 0 < d < B && a as nat == q * d + r && r < d && e >= 0 && pb > 0 && e * Worst(d) < pb
    ensures e * a < pb * (d - r)
  {
    var w := Worst(d);
    WorstRange(d, B / d);
    if a as int <= w {
      MulMono(e, a, w);
      MulMono(pb, 1, d - r);
    } else {
      // beyond the last full period the remainder is small
      LastPeriod(a, d, q, r, B / d);
      MulMono(e, a, w + (r + 1));
      MulDist(e, w, r + 1);
      MulMono(e, r + 1, w);
      MulMono(pb, 2, d - r);
    }
  }

  lemma {:induction false} LastPeriod(a: nat, d: nat, q: nat, r: nat, k: nat)
    requires 0 < d < B && a < B && a == q * d + r && r < d && k * d <= B < k * d + d && a >= k * d
    ensures a <= (k * d - 1) + (r + 1) && r + 2 <= d && r + 1 <= k * d - 1
  {
    DivUnique(a, d, q, r);
    DivUnique(a, d, k, a - k * d);
    if k == 0 { MulMono(d, k, 0); } else { MulMono(d, 1, k); }
  }

  lemma {:induction false} QuotientBelow(a: nat, d: nat, m: nat, pb: nat, e: int, q: nat, r: nat)
    requires 0 < d && a == q * d + r && d * (m * a) == pb * a + e * a && e * a < pb * (d - r)
    ensures m * a < pb * q + pb
  {
    assert pb * a == d * (pb * q) + pb * r;
    assert pb * (d - r) == pb * d - pb * r;
    assert d * (pb * q + pb) == d * (pb * q) + pb * d;
    CancelLess(d, m * a, pb * q + pb);
  }

  /** The multiplier and shifts of `s` divide by `d`, which has `l` bits. */
  ghost predicate Serves(s: FastDiv, d: nat, l: nat) {
    && s.shift1 == (if l > 1 then 1 else l) && s.shift2 == (if l > 0 then l - 1 else 0)
    && Divides(s.m1 as int + B, d, Pow2(l))
  }

  /** The quotient of any word. */
  function FastUdiv(a: Limb, s: FastDiv, ghost d: nat, ghost l: nat): (r: Limb)
    requires Serves(s, d, l)
    ensures r as nat == a as nat / d
  {
    hide Pow2, Divides;
    var t1 := HighWord(s.m1, a);
    ShiftedQuotient(a, s, d, l, t1);
    var t0 := ShiftRight(WrappedDifference(a, t1), s.shift1);
    ShiftRight(WrappedSum(t1, t0), s.shift2)
  }

  function WrappedDifference(x: Limb, y: Limb): (r: Limb)
    ensures y <= x ==> r as int == x as int - y
  {
    (x - y) % B
  }

  function WrappedSum(x: Limb, y: Limb): (r: Limb)
    ensures x as int + y < B ==> r as int == x as int + y
  {
    (x + y) % B
  }

  function ShiftRight(x: Limb, n: nat): (r: Limb)
    ensures r as nat == x as nat / Pow2(n)
  {
    QuotientAtMost(x, Pow2(n));
    x / Pow2(n)
  }

  lemma {:induction false} QuotientAtMost(x: nat, p: nat)
    requires p > 0
    ensures 0 <= x / p <= x
  {
    RemainderOf(x, p);
    if x / p > x { MulMono(x / p, 1, p); }
  }

  /** The high word of a product. */
  function HighWord(x: Limb, y: Limb): (h: Limb)
    ensures h as nat == (x as nat * y) / B && h <= y
  {
    ProductWord(x, y);
    (x as nat * y) / B
  }

  lemma {:induction false} ProductWord(x: nat, y: nat)
    requires x < B
    ensures 0 <= (x * y) / B <= y
  {
    MulMono(y, x, B);
    var h := (x * y) / B;
    if h > y { MulMono(B, y + 1, h); }
  }

  lemma {:induction false} ShiftedQuotient(a: Limb, s: FastDiv, d: nat, l: nat, t1: Limb)
    requires Serves(s, d, l) && t1 as nat == (s.m1 as nat * a) / B && t1 <= a
    ensures var t0 := (a as nat - t1) / Pow2(s.shift1);
            0 <= t0 && t1 + t0 < B && (t1 + t0) / Pow2(s.shift2) == a as nat / d
  {
    hide Pow2, Divides;
    var m: nat, p := s.m1 as nat + B, Pow2(l);
    MultiplierQuotient(a, d, m, p, m * d - p * B);
    QuotientAtMost(a, d);
    MultiplierSum(s.m1, a, d, p, t1);
    TwoShifts(a, t1, l, s.shift1, s.shift2, a as nat / d);
  }

  lemma {:induction false} TwoShifts(a: nat, t1: nat, l: nat, n1: nat, n2: nat, q: int)
    requires t1 <= a < B && n1 == (if l > 1 then 1 else l) && n2 == (if l > 0 then l - 1 else 0)
             && (t1 + a) / Pow2(l) == q <= a
    ensures var t0 := (a - t1) / Pow2(n1); 0 <= t0 && t1 + t0 < B && (t1 + t0) / Pow2(n2) == q
  {
    hide Pow2;
    ZeroShift();
    OneShift();
    if l == 0 {
      ShiftByNone(a - t1, t1 + (a - t1));
      ShiftByNone(t1 + a, 0);
    } else {
      Pow2Add(1, l - 1);
      HalvedThenShifted(a, t1, Pow2(l - 1), Pow2(l));
    }
  }

  lemma {:induction false} HalvedThenShifted(a: nat, t: nat, p: nat, p2: nat)
    requires t <= a && p > 0 && p2 == 2 * p
    ensures 0 <= (a - t) / 2 && t + (a - t) / 2 <= a && (t + (a - t) / 2) / p == (t + a) / p2
  {
    DivDiv(t + a, 2, p);
    HalvedSum(a, t);
  }

  lemma {:induction false} ShiftByNone(x: int, y: int)
    ensures x / 1 == x && y / 1 == y
  {
  }

  /** The quotient is what is left of the high word plus the number itself. */
  lemma {:induction false} MultiplierSum(m1: nat, a: nat, d: nat, p: nat, t1: nat)
    requires p > 0 && IsQuotient(m1 + B, d, p * B, a) && t1 == (m1 * a) / B
    ensures (t1 + a) / p == a / d
  {
    assert (m1 + B) * a == m1 * a + B * a;
    WithMultiple(m1 * a, a);
    DivDiv((m1 + B) * a, B, p);
    assert B * p == p * B;
  }

  lemma {:induction false} WithMultiple(x: nat, a: nat)
    ensures (x + B * a) / B == x / B + a
  {
    DivUnique(x + B * a, B, x / B + a, x % B);
  }

  lemma {:induction false} HalvedSum(a: nat, t: nat)
    requires t <= a
    ensures t + (a - t) / 2 == (t + a) / 2 <= a
  {
  }

  /** The multiplier and shifts for a divisor. */
  function FastUdivInit(d: Limb): (s: FastDiv)
    requires 0 < d <= 0x8000_0000_0000_0000
    ensures Serves(s, d, DivisorBits(d))
  {
    var l := DivisorBits(d);
    var high: nat := Pow2(l) - d;
    FirstMultiplier(d, l, high);
    SmallError((high * B) / d + 1 + B, d, Pow2(l));
    FastDiv((high * B) / d + 1, if l > 1 then 1 else l, if l > 0 then l - 1 else 0)
  }

  /** The bits needed for `d - 1`. */
  function DivisorBits(d: Limb): (l: nat)
    requires d != 0
    ensures l <= 64 && d <= Pow2(l) < 2 * d as nat
  {
    if d == 1 then 0
    else
      EnoughBits(d - 1);
      64 - Clz(d - 1)
  }

  lemma {:induction false} EnoughBits(x: Limb)
    requires x > 0
    ensures x as nat + 1 <= Pow2(64 - Clz(x)) < 2 * (x as nat + 1)
  {
    hide Pow2, Clz;
    Pow2Add(1, 63 - Clz(x));
    OneShift();
  }

  lemma {:induction false} FirstMultiplier(d: nat, l: nat, high: nat)
    requires 0 < d < B && high == Pow2(l) - d && high < d
    ensures 0 <= (high * B) / d && (high * B) / d + 1 < B
    ensures Pow2(l) * B < ((high * B) / d + 1 + B) * d <= Pow2(l) * B + d
  {
    hide Pow2;
    RemainderOf(high * B, d);
    MultiplierBounds(d, high, (high * B) / d, (high * B) % d, Pow2(l));
  }

  lemma {:induction false} MultiplierBounds(d: nat, high: nat, q: nat, r: nat, p: int)
    requires high < d < B && high * B == q * d + r && r < d && p == high + d
    ensures q + 1 < B && p * B < (q + 1 + B) * d <= p * B + d
  {
    assert (q + 1 + B) * d == q * d + d + B * d;
    assert p * B == high * B + B * d;
    assert d * (B - 1) == B * d - d;
    MulMono(B, high + 1, d);
    if q >= B - 1 { MulMono(d, B - 1, q); }
  }

  /** A multiplier that is rounded up serves. */
  lemma {:induction false} SmallError(m: nat, d: nat, p: nat)
    requires 0 < d < B && d <= p && p * B < m * d <= p * B + d
    ensures Divides(m, d, p)
  {
    var e, w := m * d - p * B, Worst(d);
    MulMono(w, e, p);
    MulStrict(p, w, B);
    assert e * w == w * e && w * p == p * w;
  }

  // ---------- powers of ten ----------

  function Pow10(i: nat): (p: nat)
    ensures p >= 1
  {
    if i == 0 then 1 else 10 * Pow10(i - 1)
  }

  /** The table for the powers of ten up to the base of decimal numbers. */
  const MP_POW_DIV: seq<FastDiv> := [
    FastDiv(0x0000000000000001, 0, 0), FastDiv(0x999999999999999a, 1, 3), FastDiv(0x47ae147ae147ae15, 1, 6),
    FastDiv(0x0624dd2f1a9fbe77, 1, 9), FastDiv(0xa36e2eb1c432ca58, 1, 13), FastDiv(0x4f8b588e368f0847, 1, 16),
    FastDiv(0x0c6f7a0b5ed8d36c, 1, 19), FastDiv(0xad7f29abcaf48579, 1, 23), FastDiv(0x5798ee2308c39dfa, 1, 26),
    FastDiv(0x12e0be826d694b2f, 1, 29), FastDiv(0xb7cdfd9d7bdbab7e, 1, 33), FastDiv(0x5fd7fe17964955fe, 1, 36),
    FastDiv(0x19799812dea11198, 1, 39), FastDiv(0xc25c268497681c27, 1, 43), FastDiv(0x6849b86a12b9b01f, 1, 46),
    FastDiv(0x203af9ee756159b3, 1, 49), FastDiv(0xcd2b297d889bc2b7, 1, 53), FastDiv(0x70ef54646d496893, 1, 56),
    FastDiv(0x2725dd1d243aba0f, 1, 59), FastDiv(0xd83c94fb6d2ac34d, 1, 63)]

  /** The bits of the divisor of an entry. */
  function EntryBits(i: nat): (l: nat)
    requires i < 20
  {
    if i == 0 then 0 else MP_POW_DIV[i].shift2 + 1
  }

  /** Powers of ten and of two, as numbers. */
  const TENS: seq<nat> := [
    1, 10, 100, 1000,
    10000, 100000, 1000000, 10000000,
    100000000, 1000000000, 10000000000, 100000000000,
    1000000000000, 10000000000000, 100000000000000, 1000000000000000,
    10000000000000000, 100000000000000000, 1000000000000000000, 10000000000000000000]

  const TWOS: seq<nat> := [1, 0x400, 0x10_0000, 0x4000_0000, 0x100_0000_0000, 0x4_0000_0000_0000, 0x1000_0000_0000_0000]

  lemma {:induction false} TenTo(i: nat)
    requires i < 20
    ensures Pow10(i) == TENS[i]
  {
    if i > 0 { TenTo(i - 1); }
  }

  lemma {:induction false} TwoTo(k: nat)
    requires k <= 6
    ensures Pow2(10 * k) == TWOS[k]
  {
    hide Pow2;
    Thousand();
    if k == 0 {
      ZeroShift();
    } else {
      TwoTo(k - 1);
      Pow2Add(10, 10 * (k - 1));
    }
  }

  lemma {:induction false} Thousand()
    ensures Pow2(10) == 0x400 && Pow2(4) == 16 && Pow2(7) == 128
  {
    assert Pow2(4) == 16;
    Pow2Add(4, 3);
    Pow2Add(7, 3);
    assert Pow2(3) == 8;
  }

  /** An entry `3 k + j` has `10 k`, `10 k + 4` or `10 k + 7` bits. */
  function Extra(j: nat): (p: nat)
    requires j < 3
  {
    if j == 0 then 1 else if j == 1 then 16 else 128
  }

  lemma {:induction false} EntryPower(i: nat)
    requires i < 20
    ensures Pow2(EntryBits(i)) == TWOS[i / 3] * Extra(i % 3)
  {
    hide Pow2;
    var k, j := i / 3, i % 3;
    TwoTo(k);
    Thousand();
    ZeroShift();
    var n := if j == 0 then 0 else if j == 1 then 4 else 7;
    Pow2Add(10 * k, n);
    EntryLength(i);
  }

  lemma {:induction false} EntryLength(i: nat)
    requires i < 20
    ensures EntryBits(i) == 10 * (i / 3) + (if i % 3 == 0 then 0 else if i % 3 == 1 then 4 else 7)
    ensures MP_POW_DIV[i].shift1 == if i == 0 then 0 else 1
  {
  }

  /** The entries below the last are the multipliers rounded up. */
  lemma {:induction false} RoundedUp(i: nat)
    requires i < 19
    ensures var p, m, d := TWOS[i / 3] * Extra(i % 3), MP_POW_DIV[i].m1 as nat + B, TENS[i];
            d <= p && p * B < m * d <= p * B + d
  {
  }

  /** The last entry is not: it is the multiplier for a divisor length computed with a shift by the whole word. It is
      two too large, and still close enough. */
  lemma {:induction false} LastEntry()
    ensures var p, m, d := TWOS[6] * 16, MP_POW_DIV[19].m1 as nat + B, TENS[19];
            p * B < (m - 2) * d <= p * B + d < m * d && Divides(m, d, p)
  {
    var d: nat := TENS[19];
    assert B / d == 1;
    assert Worst(d) == d - 1;
  }

  /** Every entry divides by its power of ten. */
  lemma {:induction false} TableEntry(i: nat)
    requires i < 20
    ensures Serves(MP_POW_DIV[i], Pow10(i), EntryBits(i))
  {
    hide Pow2, Pow10, Divides;
    TenTo(i);
    EntryPower(i);
    EntryLength(i);
    if i == 19 {
      LastEntry();
    } else {
      RoundedUp(i);
      TenFits(i);
      SmallError(MP_POW_DIV[i].m1 as nat + B, TENS[i], TWOS[i / 3] * Extra(i % 3));
    }
  }

  lemma {:induction false} TenFits(i: nat)
    requires i < 20
    ensures 0 < TENS[i] < B
  {
  }

  /** Division by a power of ten, for every word. */
  function FastShrDec(a: Limb, shift: nat): (r: Limb)
    requires shift < 20
    ensures r as nat == a as nat / Pow10(shift)
  {
    hide Divides;
    TableEntry(shift);
    FastUdiv(a, MP_POW_DIV[shift], Pow10(shift), EntryBits(shift))
  }

  // ---------- two words by 10^19 ----------

  const BF_DEC_BASE: Limb := 10000000000000000000

  /** `2^127 / 10^19`, rounded down. */
  const DEC_INVERSE: Limb := 17014118346046923173

  const HALF: nat := 0x8000_0000_0000_0000

  /** The estimate by the rounded reciprocal is at most two too small. */
  lemma {:induction false} EstimateBounds(a: nat, t: nat, s: nat, q: nat, f: nat)
    requires a == t * HALF + s && s < HALF && t < B && t * DEC_INVERSE == q * B + f && f < B
    ensures 0 <= a - q * BF_DEC_BASE < 3 * BF_DEC_BASE as int
  {
    var d: nat, m: nat := BF_DEC_BASE, DEC_INVERSE;
    var g := HALF * B - m * d;
    assert 0 < g < d;
    EstimateIdentity(a, t, s, q, f, m, d, g);
    MulMono(d, f, B);
    MulMono(g, t, B);
    MulMono(B, g, d);
    assert t * g == g * t && f * d == d * f;
    MulMono(g, 0, t);
    MulMono(d, 0, f);
    if a - q * d >= 3 * d { MulMono(B, 3 * d, a - q * d); }
    if a - q * d < 0 { MulMono(B, a - q * d, -1); }
  }

  lemma {:induction false} EstimateIdentity(a: int, t: int, s: int, q: int, f: int, m: int, d: int, g: int)
    requires a == t * HALF + s && t * m == q * B + f && m * d == HALF * B - g
    ensures B * (a - q * d) == f * d + t * g + s * B
  {
    assert (t * m) * d == t * (m * d) == t * (HALF * B) - t * g;
    assert (q * B + f) * d == B * (q * d) + f * d;
    assert B * (t * HALF) == t * (HALF * B);
  }

  /** A signed right shift by one bit. */
  function SignedHalf(x: Limb): (r: Limb) {
    if x >= HALF then HALF + x / 2 else x / 2
  }

  /** Quotient and remainder of two words, with the corrections made by masks from the signs of the remainder. */
  function DivdqBase(a1: Limb, a0: Limb): (r: (Limb, Limb))
    requires a1 < HALF
    ensures r.0 as int * BF_DEC_BASE + r.1 == a1 as int * B + a0 && r.1 < BF_DEC_BASE
  {
    var d: nat := BF_DEC_BASE;
    var a: nat := a1 as nat * B + a0;
    var t0: Limb := (2 * a1 as nat) % B + a0 / HALF;
    var q := HighWord(t0, DEC_INVERSE);
    Estimated(a1, a0, t0, q);
    CorrectTwice(q, (a - q as nat * d - 2 * d) % (B * B), a - q as nat * d - 2 * d)
  }

  lemma {:induction false} Estimated(a1: Limb, a0: Limb, t0: Limb, q: Limb)
    requires a1 < HALF && t0 as nat == (2 * a1 as nat) % B + a0 as nat / HALF
             && q as nat == (t0 as nat * DEC_INVERSE) / B
    ensures var rest := a1 as int * B + a0 - q as int * BF_DEC_BASE;
            0 <= rest < 3 * BF_DEC_BASE as int && q as int + 2 < B
  {
    var a: nat, t: nat := a1 as nat * B + a0, t0;
    RemainderOf(t * DEC_INVERSE, B);
    EstimateBounds(a, t, a0 as nat % HALF, q, (t * DEC_INVERSE) % B);
    Fits(a, q, a - q as int * BF_DEC_BASE);
  }

  lemma {:induction false} Fits(a: nat, q: nat, rest: int)
    requires a < HALF * B && rest == a - q * BF_DEC_BASE && rest >= 0
    ensures q + 2 < B
  {
    if q + 2 >= B { MulMono(BF_DEC_BASE, B - 2, q); }
  }

  /** From `rest`, held modulo the double word: adds the base back once or twice if it is negative. */
  function CorrectTwice(q: Limb, a: nat, ghost rest: int): (r: (Limb, Limb))
    requires -2 * BF_DEC_BASE as int <= rest < BF_DEC_BASE && a == rest % (B * B) && q as int + 2 < B
    ensures 0 <= rest + 2 * BF_DEC_BASE - r.1 == (r.0 as int - q) * BF_DEC_BASE && r.1 < BF_DEC_BASE
  {
    Wrapped(rest, a);
    var t := SignedHalf(a / B);
    var q1 := (q + 2 + t) % B;
    var a' := (a + MaskAnd(t, BF_DEC_BASE)) % (B * B);
    Wrapped(if rest < 0 then rest + BF_DEC_BASE else rest, a');
    ((q1 + a' / B) % B, (a' % B + MaskAnd(a' / B, BF_DEC_BASE)) % B)
  }

  /** The high word of a wrapped remainder shows its sign. */
  lemma {:induction false} Wrapped(rest: int, a: nat)
    requires -2 * BF_DEC_BASE as int <= rest < BF_DEC_BASE && a == rest % (B * B)
    ensures a == if rest < 0 then rest + B * B else rest
    ensures a / B == if rest >= 0 then 0 else if rest >= -(B as int) then B - 1 else B - 2
    ensures a % B == if rest >= 0 then rest else if rest >= -(B as int) then rest + B else rest + 2 * B
  {
  }
}
