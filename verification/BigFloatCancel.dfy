/** How many leading bits a subtraction cancels, found by comparing two mantissas from the top. */
module BigFloatCancel {
  import opened Arith
  import opened Powers
  import opened Limbs
  import opened Kernels
  import opened Bits
  import opened BigFloatBits

  // ---------- leading limbs ----------

  /** The number made of the first `k` limbs of `v`, when the first of them ends at bit `pos`; below bit 0 there are
      zeros. */
  ghost function Lead(v: nat, pos: int, k: nat): int { ShiftTo(v, pos - 64 * k) }

  lemma {:induction false} ScaledQuotient(v: nat, p: nat, c: nat)
    requires p > 0 && c > 0
    ensures p * c > 0 && (v * c) / (p * c) == v / p
  {
    MulMono(c, 1, p);
    var q, r := v / p, v % p;
    assert v * c == q * (p * c) + r * c by { assert v == q * p + r; Factored(q, p, r, c); }
    MulStrict(c, r, p);
    MulMono(c, 0, r);
    DivUnique(v * c, p * c, q, r * c);
  }

  lemma {:induction false} Factored(q: int, p: int, r: int, c: int)
    ensures (q * p + r) * c == q * (p * c) + r * c
  {
    MulAssoc(q, p, c);
  }

  lemma {:induction false} ShiftLimb(v: nat, pos: int)
    ensures ShiftTo(v, pos - 64) / B == ShiftTo(v, pos) && ShiftTo(v, pos) >= 0
  {
    hide Pow2;
    if pos >= 64 {
      ShiftForward(v, pos - 64);
    } else if pos >= 0 {
      ShiftAcross(v, pos);
    } else {
      Pow2Limb();
      Pow2Add(-pos, 64);
      TakeLimb(v, Pow2(-pos));
    }
  }

  lemma {:induction false} ShiftForward(v: nat, pos: nat)
    ensures ShiftTo(v, pos) / B == ShiftTo(v, pos + 64) && ShiftTo(v, pos + 64) >= 0
  {
    hide Pow2;
    Pow2Limb();
    Pow2Add(pos, 64);
    DivDiv(v, Pow2(pos), B);
    NonNegative(v, Pow2(pos + 64));
  }

  lemma {:induction false} ShiftAcross(v: nat, pos: nat)
    requires pos < 64
    ensures ShiftTo(v, pos - 64) / B == ShiftTo(v, pos) && ShiftTo(v, pos) >= 0
  {
    hide Pow2;
    Pow2Limb();
    Pow2Add(pos, 64 - pos);
    ScaledQuotient(v, Pow2(pos), Pow2(64 - pos));
    NonNegative(v, Pow2(pos));
  }

  lemma {:induction false} NonNegative(v: nat, p: nat)
    requires p > 0
    ensures v / p >= 0
  {
  }

  lemma {:induction false} TakeLimb(v: nat, p: nat)
    ensures (v * (p * B)) / B == v * p && v * p >= 0 && (v * (p * B)) % B == 0
  {
    MulAssoc(v, p, B);
    MulMono(p, 0, v);
    DivUnique((v * p) * B, B, v * p, 0);
  }

  /** One more limb. */
  lemma {:induction false} LeadNext(v: nat, pos: int, k: nat)
    ensures 0 <= Lead(v, pos, k) && Lead(v, pos, k + 1) == Lead(v, pos, k) * B + Lead(v, pos, k + 1) % B
  {
    hide ShiftTo;
    ShiftLimb(v, pos - 64 * k);
  }

  /** The limbs after the first `j` add less than one unit of the last of those. */
  lemma {:induction false} LeadSpread(v: nat, pos: int, j: nat, k: nat)
    requires j <= k
    ensures Lead(v, pos, j) * Pow(k - j) <= Lead(v, pos, k) < (Lead(v, pos, j) + 1) * Pow(k - j)
    decreases k - j
  {
    hide Lead;
    if j < k {
      LeadSpread(v, pos, j + 1, k);
      LeadNext(v, pos, j);
      NextPow(k - j - 1);
      SpreadStep(Lead(v, pos, j), Lead(v, pos, j + 1), Pow(k - j - 1), Lead(v, pos, k));
    } else {
      EmptyTable();
    }
  }

  lemma {:induction false} SpreadStep(x: int, y: int, p: int, z: int)
    requires x * B <= y < x * B + B && p > 0 && y * p <= z < (y + 1) * p
    ensures x * (B * p) <= z < (x + 1) * (B * p)
  {
    MulAssoc(x, B, p);
    MulAssoc(x + 1, B, p);
    MulMono(p, x * B, y);
    MulMono(p, y + 1, (x + 1) * B);
  }

  /** Numbers that agree in more limbs agree in fewer, and the order of fewer limbs is kept. */
  lemma {:induction false} LeadOrder(v: nat, pos: int, w: nat, pos': int, j: nat, k: nat)
    requires j <= k
    ensures Lead(v, pos, k) == Lead(w, pos', k) ==> Lead(v, pos, j) == Lead(w, pos', j)
    ensures Lead(v, pos, k) > Lead(w, pos', k) ==> Lead(v, pos, j) >= Lead(w, pos', j)
  {
    hide Lead, Pow;
    LeadSpread(v, pos, j, k);
    LeadSpread(w, pos', j, k);
    var x, y, p := Lead(v, pos, j), Lead(w, pos', j), Pow(k - j);
    if x < y { MulMono(p, x + 1, y); }
    if y < x { MulMono(p, y + 1, x); }
  }

  /** The limbs that the comparison reads are the next ones of both numbers. */
  lemma {:induction false} ReadLimbs(ta: seq<Limb>, tb: seq<Limb>, d: nat, k: nat)
    ensures var a, b, x, y := Val(ta), Val(tb), LimbAt(ta, |ta| - 1 - k), GetBits(tb, 64 * (|tb| - 1 - k) + d);
            Lead(a, 64 * |ta|, k + 1) == Lead(a, 64 * |ta|, k) * B + x as int
               && Lead(b, 64 * |tb| + d, k + 1) == Lead(b, 64 * |tb| + d, k) * B + y as int
  {
    hide Val, Pow, Pow2, LimbAt, ShiftTo, FieldOf, Above;
    LeadNext(Val(ta), 64 * |ta|, k);
    LeadNext(Val(tb), 64 * |tb| + d, k);
    ReadField(ta, 64 * (|ta| - 1 - k));
    assert 64 * (|ta| - 1 - k) == 64 * |ta| - 64 * (k + 1);
    assert 64 * (|tb| - 1 - k) + d == 64 * |tb| + d - 64 * (k + 1);
  }

  // ---------- the first different bit ----------

  function BitXor(a: nat, b: nat): (r: nat)
    decreases a + b
  {
    if a == 0 && b == 0 then 0
    else (if a % 2 != b % 2 then 1 else 0) + 2 * BitXor(a / 2, b / 2)
  }

  /** Shifting right by `i` bits. */
  function Halved(a: nat, i: nat): (r: nat)
    ensures r == a / Pow2(i)
  {
    if i == 0 then a
    else
      HalvedOnce(a, i);
      Halved(a / 2, i - 1)
  }

  lemma {:induction false} HalvedOnce(a: nat, i: nat)
    requires i > 0
    ensures a / Pow2(i) == (a / 2) / Pow2(i - 1)
  {
    DivDiv(a, 2, Pow2(i - 1));
  }

  lemma {:induction false} XorShift(a: nat, b: nat, i: nat)
    ensures Halved(BitXor(a, b), i) == BitXor(Halved(a, i), Halved(b, i))
  {
    hide Pow2;
    if i > 0 {
      XorShift(a / 2, b / 2, i - 1);
      assert BitXor(a, b) / 2 == BitXor(a / 2, b / 2);
    }
  }

  lemma {:induction false} XorZero(a: nat, b: nat)
    ensures BitXor(a, b) == 0 <==> a == b
    decreases a + b
  {
    if a != 0 || b != 0 { XorZero(a / 2, b / 2); }
  }

  lemma {:induction false} XorLimb(a: nat, b: nat, n: nat)
    requires a < Pow2(n) && b < Pow2(n)
    ensures BitXor(a, b) < Pow2(n)
  {
    hide Pow2;
    XorShift(a, b, n);
    BelowDivisor(a, Pow2(n));
    BelowDivisor(b, Pow2(n));
    if BitXor(a, b) >= Pow2(n) { PositiveGoal(BitXor(a, b), Pow2(n)); }
  }

  function Xor(a: Limb, b: Limb): (r: Limb)
    ensures r as nat == BitXor(a, b)
  {
    Pow2Limb();
    XorLimb(a, b, 64);
    BitXor(a, b)
  }

  /** Above the bits after the first different one, the larger limb is ahead by one. */
  lemma {:induction false} FirstDifference(a: Limb, b: Limb, z: nat)
    requires a > b && z == Clz(Xor(a, b))
    ensures z < 64 && a as nat / Pow2(63 - z) == b as nat / Pow2(63 - z) + 1
  {
    hide Pow2, BitXor, Clz, Halved;
    XorZero(a, b);
    var i := 63 - z;
    Pow2Add(i, 1);
    OneShift();
    XorShift(a, b, i);
    XorShift(a, b, i + 1);
    OneLeft(BitXor(a, b), Pow2(i));
    XorZero(Halved(a, i), Halved(b, i));
    XorZero(Halved(a, i + 1), Halved(b, i + 1));
    AheadByOne(a, b, Pow2(i));
  }

  lemma {:induction false} OneLeft(x: nat, p: nat)
    requires 0 < p <= x < p * 2
    ensures x / p == 1 && x / (p * 2) == 0
  {
    BelowDivisor(x, p * 2);
    DivUnique(x, p, 1, x - p);
  }

  lemma {:induction false} AheadByOne(a: nat, b: nat, p: nat)
    requires a >= b && p > 0 && a / p != b / p && a / (p * 2) == b / (p * 2)
    ensures a / p == b / p + 1
  {
    DivDiv(a, p, 2);
    DivDiv(b, p, 2);
    MonotoneDivision(a, b, p);
  }

  lemma {:induction false} MonotoneDivision(a: nat, b: nat, p: nat)
    requires a >= b && p > 0
    ensures a / p >= b / p
  {
    var x, y := a / p, b / p;
    assert a == p * x + a % p && b == p * y + b % p;
    if x < y { MulMono(p, x + 1, y); MulDist(p, x, 1); }
  }

  // ---------- counting ----------

  /** A difference of the form `x + y + 1`, by the leading zeros of `x` and `y`. */
  ghost predicate Between(diff: int, c: nat) { c <= 63 && Pow2(63 - c) < diff < Pow2(65 - c) }

  lemma {:induction false} Pattern(x: Limb, y: Limb, c: nat)
    requires c == if Clz(x) <= Clz(y) then Clz(x) else Clz(y)
    ensures c <= 64 && (c == 64 <==> x == 0 && y == 0)
    ensures c < 64 ==> Between(x as int + y as int + 1, c)
  {
    hide Pow2, Clz;
    if c < 64 {
      Pow2Add(1, 64 - c);
      OneShift();
      Pow2Mono(64 - Clz(x), 64 - c);
      Pow2Mono(64 - Clz(y), 64 - c);
    }
  }

  /** The bits after the first difference, of the larger limb as they are and of the smaller one inverted. */
  lemma {:induction false} SplitDifference(a: Limb, b: Limb, p: nat)
    requires 0 < p && B % p == 0 && a as nat / p == b as nat / p + 1
    ensures a as int - b as int == a as nat % p + (B - 1 - b) % p + 1
  {
    var q := b as nat / p;
    assert b as nat == q * p + b as nat % p;
    assert a as nat == (q + 1) * p + a as nat % p;
    assert (q + 1) * p == q * p + p;
    var m := B / p;
    assert B == m * p;
    Inverted(b, p, m);
  }

  lemma {:induction false} DividesLimb(r: nat)
    requires r <= 64
    ensures B % Pow2(r) == 0
  {
    hide Pow2;
    Pow2Limb();
    Pow2Add(64 - r, r);
    DivUnique(B, Pow2(r), Pow2(64 - r), 0);
  }

  // ---------- ahead by one ----------

  /** Without its last `r` bits, `x` is one more than `y`. */
  ghost predicate Ahead(x: int, y: int, r: nat) { x / Pow2(r) == y / Pow2(r) + 1 }

  /** What decides whether a difference reaches a unit, when the wholes differ by one. */
  lemma {:induction false} AheadExact(x: int, y: int, r: nat)
    requires Ahead(x, y, r)
    ensures x - y < Pow2(r) <==> x % Pow2(r) < y % Pow2(r)
  {
    hide Pow2;
    var p := Pow2(r);
    UnitAhead(x, y, p, x / p, y / p, x % p, y % p);
  }

  lemma {:induction false} UnitAhead(x: int, y: int, p: int, q: int, q': int, low: int, low': int)
    requires x == p * q + low && y == p * q' + low' && q == q' + 1
    ensures x - y < p <==> low < low'
  {
    MulDist(p, q', 1);
  }

  /** Being ahead by one is kept over zeros that stand against ones. */
  lemma {:induction false} AheadStill(x: nat, y: nat, p: nat, h: nat, g: nat)
    requires h > 0 && g > 0 && p == g * h && x / p == y / p + 1 && x % p < h && p - 1 - y % p < h
    ensures x / h == y / h + 1
  {
    var q := y / p;
    MulAssoc(q, g, h);
    MulAssoc(q + 1, g, h);
    DivUnique(x, h, (q + 1) * g, x % p);
    assert (q * g + g - 1) * h == q * p + p - h by { ScaledSum(q * g, g, h); }
    DivUnique(y, h, q * g + g - 1, y % p - (p - h));
  }

  lemma {:induction false} ScaledSum(a: int, g: int, h: int)
    ensures (a + g - 1) * h == a * h + g * h - h
  {
  }

  /** In the limb where the numbers first differ. */
  lemma {:induction false} AheadInLimb(x: int, y: int, top: nat, a: Limb, b: Limb, p: nat, c: nat)
    requires c <= p < 64 && x == top * B + a as int && y == top * B + b as int
    requires a as nat / Pow2(p) == b as nat / Pow2(p) + 1
    requires a as nat % Pow2(p) < Pow2(p - c) && (B - 1 - b) % Pow2(p) < Pow2(p - c)
    ensures Ahead(x, y, p - c)
  {
    hide Pow2;
    Pow2Add(64 - p, p);
    Pow2Limb();
    Pow2Add(c, p - c);
    BelowTop(top, Pow2(64 - p), Pow2(p), a);
    BelowTop(top, Pow2(64 - p), Pow2(p), b);
    Inverted(b, Pow2(p), Pow2(64 - p));
    AheadStill(x, y, Pow2(p), Pow2(p - c), Pow2(c));
  }

  lemma {:induction false} BelowTop(top: nat, m: nat, p: nat, a: nat)
    requires p > 0 && m * p == B
    ensures (top * B + a) / p == top * m + a / p && (top * B + a) % p == a % p
  {
    MulAssoc(top, m, p);
    assert a == (a / p) * p + a % p;
    assert (top * m + a / p) * p == top * m * p + (a / p) * p;
    DivUnique(top * B + a, p, top * m + a / p, a % p);
  }

  lemma {:induction false} Inverted(b: Limb, p: nat, m: nat)
    requires p > 0 && m * p == B
    ensures (B - 1 - b) % p == p - 1 - b as nat % p
  {
    var q := b as nat / p;
    assert b as nat == q * p + b as nat % p;
    assert (m - q - 1) * p == m * p - q * p - p;
    DivUnique(B - 1 - b, p, m - q - 1, p - 1 - b as nat % p);
  }

  /** The limb where the numbers first differ: they differ by one, or the count ends in it. */
  lemma {:induction false} FirstLimb(x: int, y: int, top: int, a: Limb, b: Limb, z: nat)
    requires a > b && z == Clz(Xor(a, b)) && top >= 0 && x == top * B + a as int && y == top * B + b as int
    ensures z < 64
    ensures var p := 63 - z; var c := LowZeros(LowLimb(a, p), LowLimb(B - 1 - b, p), p);
            && (c == p ==> a as int == b as int + 1)
            && (c < p ==> Between(x - y, z + 1 + c) && Ahead(x, y, 64 - (z + 1 + c)))
  {
    hide Pow2, Clz, Xor, Between, Ahead, LowZeros, LowLimb;
    FirstDifference(a, b, z);
    var p := 63 - z;
    DividesLimb(p);
    SplitDifference(a, b, Pow2(p));
    var c := LowZeros(LowLimb(a, p), LowLimb(B - 1 - b, p), p);
    AheadInLimb(x, y, top, a, b, p, c);
  }

  /** In a limb behind which the numbers are ahead by one. */
  lemma {:induction false} AheadBehindLimb(x: int, y: int, top: nat, a: Limb, b: Limb, c: nat)
    requires c <= 64 && x == (top + 1) * B + a as int && y == top * B + b as int
    requires a < Pow2(64 - c) && B - 1 - b < Pow2(64 - c)
    ensures Ahead(x, y, 64 - c)
  {
    hide Pow2;
    Pow2Limb();
    Pow2Add(c, 64 - c);
    DivUnique(x, B, top + 1, a as int);
    DivUnique(y, B, top, b as int);
    AheadStill(x, y, B, Pow2(64 - c), Pow2(c));
  }

  /** Further limbs do not change what stands before them. */
  lemma {:induction false} AheadLonger(a: nat, pa: int, b: nat, pb: int, k: nat, c: nat, t: nat)
    requires k < t && c <= 64 && Ahead(Lead(a, pa, k + 1), Lead(b, pb, k + 1), 64 - c)
    ensures Ahead(Lead(a, pa, t), Lead(b, pb, t), 64 * t - (64 * k + c))
  {
    hide Pow2, Pow, Lead;
    var w := t - k - 1;
    Pow2Limbs(w);
    Pow2Add(64 * w, 64 - c);
    assert 64 * w + (64 - c) == 64 * t - (64 * k + c);
    LeadCut(a, pa, k + 1, t);
    LeadCut(b, pb, k + 1, t);
    DivDiv(Lead(a, pa, t), Pow(w), Pow2(64 - c));
    DivDiv(Lead(b, pb, t), Pow(w), Pow2(64 - c));
  }

  lemma {:induction false} LeadCut(v: nat, pos: int, j: nat, k: nat)
    requires j <= k
    ensures Lead(v, pos, k) >= 0 && Lead(v, pos, k) / Pow(k - j) == Lead(v, pos, j)
  {
    hide Pow, Lead;
    LeadSpread(v, pos, j, k);
    LeadNext(v, pos, k);
    var x, p := Lead(v, pos, j), Pow(k - j);
    assert (x + 1) * p == x * p + p;
    DivUnique(Lead(v, pos, k), p, x, Lead(v, pos, k) - x * p);
  }

  // ---------- the whole numbers ----------

  /** The size of the difference of the whole numbers, from that of their first limbs. */
  lemma {:induction false} WholeDifference(a: nat, pa: int, b: nat, pb: int, k: nat, c: nat, t: nat)
    requires Between(Lead(a, pa, k + 1) - Lead(b, pb, k + 1), c)
             && Ahead(Lead(a, pa, k + 1), Lead(b, pb, k + 1), 64 - c)
    ensures 64 * k + c < 64 * t ==> Cancels(Lead(a, pa, t), Lead(b, pb, t), 64 * t, 64 * k + c)
  {
    hide Pow2, Pow, Lead, Ahead;
    if 64 * k + c < 64 * t {
      AheadLonger(a, pa, b, pb, k, c, t);
      var w := t - k - 1;
      LeadSpread(a, pa, k + 1, t);
      LeadSpread(b, pb, k + 1, t);
      Pow2Limbs(w);
      Pow2Add(63 - c, 64 * w);
      Pow2Add(65 - c, 64 * w);
      assert 63 - c + 64 * w == 64 * t - (64 * k + c) - 1;
      assert 65 - c + 64 * w == 64 * t - (64 * k + c) + 1;
      SpreadDifference(Lead(a, pa, k + 1), Lead(b, pb, k + 1), Lead(a, pa, t), Lead(b, pb, t), Pow(w), Pow2(63 - c),
                       Pow2(65 - c));
    }
  }

  lemma {:induction false} SpreadDifference(x: int, y: int, x': int, y': int, p: int, low: int, high: int)
    requires p > 0 && x * p <= x' < (x + 1) * p && y * p <= y' < (y + 1) * p && low < x - y < high
    ensures low * p <= x' - y' < high * p
  {
    MulMono(p, low, x - y - 1);
    MulMono(p, x - y + 1, high);
    assert (x + 1) * p - y * p == (x - y + 1) * p;
    assert x * p - (y + 1) * p == (x - y - 1) * p;
  }

  /** In the difference of numbers of `bits` bits `n` bits cancel, or one fewer: after `n` bits `x` is ahead by one, and
      the difference begins with `n` or with `n - 1` zeros. */
  ghost predicate Cancels(x: int, y: int, bits: nat, n: nat) {
    n < bits && Ahead(x, y, bits - n) && Pow2(bits - n - 1) <= x - y < Pow2(bits - n + 1)
  }

  /** Past the end of a table there are only zeros. */
  lemma {:induction false} NothingBelow(tab: seq<Limb>, pos: int)
    requires pos <= -64
    ensures GetBits(tab, pos) == 0
  {
    hide Pow2, Val, GetBits;
    Pow2Add(-pos - 64, 64);
    Pow2Limb();
    TakeLimb(Val(tab), Pow2(-pos - 64));
  }

  /** Counts the bits that cancel in the difference of two mantissas, the second `d` places further down.
      `t` limbs from the top hold both of them. */
  method CountCancelledBits(ta: seq<Limb>, tb: seq<Limb>, d: nat, ghost t: nat) returns (n: nat)
    requires d <= 1 && Lead(Val(ta), 64 * |ta|, t) > Lead(Val(tb), 64 * |tb| + d, t)
    ensures n < 64 * t ==> Cancels(Lead(Val(ta), 64 * |ta|, t), Lead(Val(tb), 64 * |tb| + d, t), 64 * t, n)
    ensures n < 64 * t ==>
              var x, y, unit := Lead(Val(ta), 64 * |ta|, t), Lead(Val(tb), 64 * |tb| + d, t), Pow2(64 * t - n);
              x - y < unit <==> x % unit < y % unit
    ensures t > |tb| + 2 && Lead(Val(ta), 64 * |ta|, t - 1) > Lead(Val(tb), 64 * |tb| + d, t - 1) ==> n < 64 * t
  {
    hide Val, Pow, Pow2, LimbAt, Lead, GetBits, Clz, Xor, Between, Cancels, Ahead, LowZeros, LowLimb;
    ghost var a, b, pa, pb := Val(ta), Val(tb), 64 * |ta|, 64 * |tb| + d;
    ghost var k: nat := 0;
    NoLead(ta, 0);
    NoLead(tb, d);
    n := 0;
    var offset, shift := 64 * |ta| - 1, 64 * (|tb| - |ta|) - 63 + d;
    var v1, v2 := LimbAt(ta, offset / 64), GetBits(tb, offset + shift);
    ReadTail(ta, tb, d, 0, offset, shift);
    // the limbs that are equal
    while v1 == v2
      invariant n == 64 * k && offset == 64 * (|ta| - k) - 1 && k < t && Lead(a, pa, k) == Lead(b, pb, k)
      invariant Lead(a, pa, k + 1) == Lead(a, pa, k) * B + v1 as int
                && Lead(b, pb, k + 1) == Lead(b, pb, k) * B + v2 as int
      decreases t - k
    {
      n, k, offset := n + 64, k + 1, offset - 64;
      v1, v2 := LimbAt(ta, offset / 64), GetBits(tb, offset + shift);
      ReadTail(ta, tb, d, k, offset, shift);
    }
    LeadOrder(a, pa, b, pb, k + 1, t);
    LeadNext(a, pa, k);
    // the first different bit
    var z := Clz(Xor(v1, v2));
    FirstLimb(Lead(a, pa, k + 1), Lead(b, pb, k + 1), Lead(a, pa, k), v1, v2, z);
    n := n + z + 1;
    var p := 63 - z;
    if p > 0 {
      var c := LowZeros(LowLimb(v1, p), LowLimb(B - 1 - v2, p), p);
      n := n + c;
      if c != p {
        WholeDifference(a, pa, b, pb, k, z + 1 + c, t);
        CancelsExactly(Lead(a, pa, t), Lead(b, pb, t), 64 * t, n);
        return;
      }
    }
    var rest := CountTail(ta, tb, d, offset - 64, k + 1, t);
    n := n + rest;
    CancelsExactly(Lead(a, pa, t), Lead(b, pb, t), 64 * t, n);
  }

  lemma {:induction false} CancelsExactly(x: int, y: int, bits: nat, n: nat)
    requires n < bits ==> Cancels(x, y, bits, n)
    ensures n < bits ==> (x - y < Pow2(bits - n) <==> x % Pow2(bits - n) < y % Pow2(bits - n))
  {
    hide Pow2, Ahead;
    if n < bits { AheadExact(x, y, bits - n); }
  }

  /** 3/4 less 1/4, both normalized: one bit is counted, and the difference 1/2 begins with no zero. */
  method OneBitFewer() returns (ta: seq<Limb>, tb: seq<Limb>, n: nat)
    ensures ta == [0xc000_0000_0000_0000] && tb == [0x8000_0000_0000_0000] && n == 1
    ensures Lead(Val(ta), 64, 1) - Lead(Val(tb), 65, 1) == Pow2(63)
  {
    hide Lead, Pow2, Cancels;
    ta, tb := [0xc000_0000_0000_0000], [0x8000_0000_0000_0000];
    ThreeQuarters(ta, tb, 0);
    ThreeQuarters(ta, tb, 2);
    ThreeQuarters(ta, tb, 3);
    n := CountCancelledBits(ta, tb, 1, 4);
    OneCancels(Lead(Val(ta), 64, 4), Lead(Val(tb), 65, 4), n);
  }

  lemma {:induction false} ThreeQuarters(ta: seq<Limb>, tb: seq<Limb>, m: nat)
    requires ta == [0xc000_0000_0000_0000] && tb == [0x8000_0000_0000_0000]
    ensures var x, y := Lead(Val(ta), 64, m + 1), Lead(Val(tb), 65, m + 1);
            0 <= y < x < Pow2(64 * m + 64) && x - y == Pow2(64 * m + 63)
  {
    hide Pow2;
    SingleLimb(ta[0]);
    SingleLimb(tb[0]);
    Pow2Limb();
    Pow2Add(64 * m, 63);
    Pow2Add(64 * m, 64);
    Pow2Add(63, 1);
    OneShift();
    if m == 0 {
      ZeroShift();
    } else {
      Pow2Add(64 * m - 1, 1);
    }
  }

  lemma {:induction false} OneCancels(x: nat, y: nat, n: nat)
    requires Cancels(x, y, 256, n) && x < Pow2(256) && x - y == Pow2(255)
    ensures n == 1
  {
    hide Pow2;
    if n == 0 {
      BelowDivisor(x, Pow2(256));
      BelowDivisor(y, Pow2(256));
    } else if n > 1 {
      Pow2Mono(256 - n + 1, 255);
    }
  }

  /** Goes on where the first number is ahead by one: counts zeros in it that stand against ones in the second. */
  method CountTail(ta: seq<Limb>, tb: seq<Limb>, d: nat, offset0: int, ghost k0: nat, ghost t: nat) returns (n: nat)
    requires d <= 1 && offset0 == 64 * (|ta| - k0) - 1
    requires Lead(Val(ta), 64 * |ta|, k0) == Lead(Val(tb), 64 * |tb| + d, k0) + 1
    ensures 64 * k0 + n < 64 * t
            ==> Cancels(Lead(Val(ta), 64 * |ta|, t), Lead(Val(tb), 64 * |tb| + d, t), 64 * t, 64 * k0 + n)
    ensures t > |tb| + 2 && t > k0 ==> 64 * k0 + n < 64 * t
  {
    hide Val, Pow, Pow2, LimbAt, Lead, GetBits, Clz, Between, Cancels, Ahead;
    ghost var a, b, pa, pb := Val(ta), Val(tb), 64 * |ta|, 64 * |tb| + d;
    ghost var k := k0;
    n := 0;
    var offset, shift := offset0, 64 * (|tb| - |ta|) - 63 + d;
    var v1, v2 := LimbAt(ta, offset / 64), GetBits(tb, offset + shift);
    ReadTail(ta, tb, d, k, offset, shift);
    while v1 == 0 && v2 == B - 1
      invariant n == 64 * (k - k0) && k >= k0 && offset == 64 * (|ta| - k) - 1 && Lead(a, pa, k) == Lead(b, pb, k) + 1
      invariant Lead(a, pa, k + 1) == Lead(a, pa, k) * B + v1 as int
                && Lead(b, pb, k + 1) == Lead(b, pb, k) * B + v2 as int
      invariant (k > |tb| + 1 ==> v2 == 0) && (k > k0 ==> k <= |tb| + 2)
      decreases |tb| + 2 - k
    {
      n, k, offset := n + 64, k + 1, offset - 64;
      v1, v2 := LimbAt(ta, offset / 64), GetBits(tb, offset + shift);
      ReadTail(ta, tb, d, k, offset, shift);
    }
    Pow2Limb();
    var c := LowZeros(v1, B - 1 - v2, 64);
    n := n + c;
    LeadNext(b, pb, k);
    AheadBehindLimb(Lead(a, pa, k + 1), Lead(b, pb, k + 1), Lead(b, pb, k), v1, v2, c);
    WholeDifference(a, pa, b, pb, k, c, t);
  }

  /** A step of the tail: the next limbs, and zeros once the second table is used up. */
  lemma {:induction false} ReadTail(ta: seq<Limb>, tb: seq<Limb>, d: nat, k: nat, offset: int, shift: int)
    requires d <= 1 && offset == 64 * (|ta| - k) - 1 && shift == 64 * (|tb| - |ta|) - 63 + d
    ensures var a, b, pa, pb := Val(ta), Val(tb), 64 * |ta|, 64 * |tb| + d;
            var v1, v2 := LimbAt(ta, offset / 64), GetBits(tb, offset + shift);
            && Lead(a, pa, k + 1) == Lead(a, pa, k) * B + v1 as int
            && Lead(b, pb, k + 1) == Lead(b, pb, k) * B + v2 as int
            && (k > |tb| + 1 ==> v2 == 0)
  {
    hide Val, LimbAt, Lead, GetBits;
    assert offset / 64 == |ta| - 1 - k && offset + shift == 64 * (|tb| - 1 - k) + d;
    ReadLimbs(ta, tb, d, k);
    if k > |tb| + 1 { NothingBelow(tb, offset + shift); }
  }

  lemma {:induction false} NoLead(tab: seq<Limb>, d: nat)
    ensures Lead(Val(tab), 64 * |tab| + d, 0) == 0
  {
    hide Pow2, Val;
    TableBelow(tab);
    Pow2Mono(64 * |tab|, 64 * |tab| + d);
    BelowDivisor(Val(tab), Pow2(64 * |tab| + d));
  }

  function LowLimb(x: Limb, p: nat): (r: Limb)
    requires p < 64
    ensures r as nat == x as nat % Pow2(p) && r < Pow2(p)
  {
    BitInLimb(p);
    x as nat % Pow2(p)
  }

  /** The leading zeros that two `p`-bit numbers have in common. */
  function LowZeros(x: Limb, y: Limb, p: nat): (c: nat)
    requires p <= 64 && x < Pow2(p) && y < Pow2(p)
    ensures c <= p && (c == p <==> x == 0 && y == 0)
    ensures c < p ==> Between(x as int + y as int + 1, 64 - p + c)
    ensures x < Pow2(p - c) && y < Pow2(p - c)
  {
    hide Pow2, Clz, Between;
    var c := if Clz(x) <= Clz(y) then Clz(x) else Clz(y);
    CommonZeros(x, y, p, c);
    c - (64 - p)
  }

  lemma {:induction false} CommonZeros(x: Limb, y: Limb, p: nat, c: nat)
    requires p <= 64 && x < Pow2(p) && y < Pow2(p) && c == if Clz(x) <= Clz(y) then Clz(x) else Clz(y)
    ensures 64 - p <= c <= 64 && (c == 64 <==> x == 0 && y == 0) && x < Pow2(64 - c) && y < Pow2(64 - c)
    ensures c < 64 ==> Between(x as int + y as int + 1, c)
  {
    hide Pow2, Clz, Between;
    Pattern(x, y, c);
    AtLeastZeros(x, p);
    AtLeastZeros(y, p);
    Pow2Mono(64 - Clz(x), 64 - c);
    Pow2Mono(64 - Clz(y), 64 - c);
  }

  lemma {:induction false} AtLeastZeros(x: Limb, p: nat)
    requires p <= 64 && x < Pow2(p)
    ensures Clz(x) >= 64 - p
  {
    hide Pow2, Clz;
    if Clz(x) < 64 - p { Pow2Mono(p, 63 - Clz(x)); }
  }
}
