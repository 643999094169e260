/** Word arithmetic modulo an NTT prime: lazily reduced additions and products with precomputed quotients. */
module NttWords {
  import opened Arith
  import opened Limbs
  import opened Modular
  import opened WordDivision

  /** `2^61`, the least modulus, and `2^62`, above the greatest. */
  const MOD_MIN: nat := 0x2000_0000_0000_0000
  const MOD_MAX: nat := 0x4000_0000_0000_0000

  /** The precomputed quotient of `2^61` itself would not fit a word (see `LeastModulusOverflows`). */
  ghost predicate IsModulus(m: nat) { MOD_MIN < m < MOD_MAX }

  // ---------- additions ----------

  /** Sum modulo `m`, for operands below it; with `2 m` for `m` it keeps lazy words below `2 m`. */
  function AddMod(a: Limb, b: Limb, m: Limb): (r: Limb)
    requires a < m && b < m && 2 * m <= B
    ensures r < m && (r as int == a as int + b || r as int == a as int + b - m)
  {
    var r: Limb := (a + b) % B;
    if r >= m then r - m else r
  }

  function SubMod(a: Limb, b: Limb, m: Limb): (r: Limb)
    requires a < m && b < m
    ensures r < m && (r as int == a as int - b || r as int == a as int - b + m)
  {
    var r: Limb := (a - b) % B;
    if r > a then (r + m) % B else r
  }

  // ---------- products with a constant factor ----------

  /** The precomputed quotient of a factor: `floor(b * 2^64 / m)`. */
  ghost predicate IsFactor(b: nat, m: nat, bInv: nat) {
    b < m && bInv * m <= b * B < (bInv + 1) * m
  }

  function InitMulModFast2(b: Limb, m: Limb): (bInv: Limb)
    requires b < m
    ensures IsFactor(b, m, bInv)
  {
    hide Quotient;
    var q := Quotient(b as nat * B, m);
    FitsWord(b, m, q);
    q
  }

  lemma {:induction false} FitsWord(b: nat, m: nat, q: nat)
    requires b < m && q * m <= b * B
    ensures q < B
  {
    if q >= B { MulMono(m, B, q); }
  }

  /** The estimated quotient leaves a remainder below `2 m`. */
  lemma {:induction false} FactorRemainder(a: nat, b: nat, m: nat, bInv: nat, q: nat)
    requires IsFactor(b, m, bInv) && a < B && 0 < m
    requires q * B <= a * bInv < (q + 1) * B
    ensures 0 <= a * b - q * m < 2 * m
  {
    FactorLower(a, b, m, bInv, q);
    FactorUpper(a, b, m, bInv, q);
  }

  lemma {:induction false} FactorLower(a: nat, b: nat, m: nat, bInv: nat, q: nat)
    requires bInv * m <= b * B && q * B <= a * bInv
    ensures q * m <= a * b
  {
    MulMono(m, q * B, a * bInv);
    MulMono(a, bInv * m, b * B);
    assert m * (q * B) == B * (q * m);
    assert m * (a * bInv) == a * (bInv * m);
    assert a * (b * B) == B * (a * b);
    CancelAtMost(B, q * m, a * b);
  }

  lemma {:induction false} FactorUpper(a: nat, b: nat, m: nat, bInv: nat, q: nat)
    requires b * B < (bInv + 1) * m && a * bInv < (q + 1) * B && a < B && 0 < m
    ensures a * b < q * m + 2 * m
  {
    // a b B <= a (bInv + 1) m <= ((q + 1) B + a) m < (q + 2) B m
    MulMono(a, b * B, (bInv + 1) * m);
    assert a * (b * B) == B * (a * b);
    assert a * ((bInv + 1) * m) == m * (a * bInv + a);
    MulStrict(m, a * bInv + a, (q + 1) * B + B);
    assert m * ((q + 1) * B + B) == B * (q * m + 2 * m);
    CancelLess(B, a * b, q * m + 2 * m);
  }

  /** `a * b` modulo `m`, up to one extra `m`: all words wrap. */
  function MulModFast3(a: Limb, b: Limb, m: Limb, bInv: Limb): (r: Limb)
    requires IsFactor(b, m, bInv) && 2 * m <= B
    ensures r < 2 * m && Cong(r, a as int * b, m)
  {
    hide Quotient, Cong;
    var q := Quotient(a as nat * bInv, B);
    FactorRemainder(a, b, m, bInv, q);
    CongIntro(a as int * b - q * m, a as int * b, m, -(q as int));
    WrappedDifference(a as nat * b, q * m)
  }

  /** The difference of two wrapped products, when the true difference is a word. */
  function WrappedDifference(x: nat, y: nat): (r: Limb)
    requires 0 <= x - y < B
    ensures r as int == x - y
  {
    (x % B - y % B) % B
  }

  /** The same, fully reduced. */
  function MulModFast2(a: Limb, b: Limb, m: Limb, bInv: Limb): (r: Limb)
    requires IsFactor(b, m, bInv) && 2 * m <= B
    ensures r < m && Cong(r, a as int * b, m)
  {
    hide Cong, MulModFast3;
    var r := MulModFast3(a, b, m, bInv);
    if r >= m then
      CongIntro(r as int - m, r, m, -1);
      CongTrans(r as int - m, r, a as int * b, m);
      r - m
    else r
  }

  // ---------- general products ----------

  const MOD_FAST_MAX: nat := 0x2000_0000_0000_0000_0000_0000_0000_0000

  /** The precomputed quotient of a modulus: `floor(2^125 / m)`. */
  ghost predicate IsModInverse(m: nat, mInv: nat) {
    IsModulus(m) && mInv * m <= MOD_FAST_MAX < (mInv + 1) * m
  }

  function InitMulModFast(m: Limb): (mInv: Limb)
    requires IsModulus(m)
    ensures IsModInverse(m, mInv)
  {
    hide Quotient;
    var q := Quotient(MOD_FAST_MAX, m);
    ModInverseFits(m, q);
    q
  }

  lemma {:induction false} ModInverseFits(m: nat, q: nat)
    requires IsModulus(m) && q * m <= MOD_FAST_MAX
    ensures q < B
  {
    if q >= B { MulMono(q, MOD_MIN + 1, m); }
  }

  /** The code admits `m == 2^61`, and for that modulus alone the quotient is one more than a word can hold. */
  lemma {:induction false} LeastModulusOverflows(m: nat)
    requires MOD_MIN <= m < MOD_MAX
    ensures Quotient(MOD_FAST_MAX, m) < B <==> m > MOD_MIN
    ensures Quotient(MOD_FAST_MAX, MOD_MIN) == B
  {
    hide Quotient;
    var q := Quotient(MOD_FAST_MAX, m);
    if m > MOD_MIN { ModInverseFits(m, q); }
  }

  /** The estimate from the top bits leaves a remainder below `3 m`. */
  lemma {:induction false} ModFastRemainder(r: nat, m: nat, mInv: nat, a1: nat, q: nat)
    requires IsModInverse(m, mInv)
    requires a1 * MOD_MIN <= r < (a1 + 1) * MOD_MIN && a1 < B
    requires q * B <= a1 * mInv < (q + 1) * B
    ensures 0 <= r - q * m < 3 * m
  {
    ModFastLower(r, m, mInv, a1, q);
    ModFastUpper(r, m, mInv, a1, q);
  }

  lemma {:induction false} ModFastLower(r: nat, m: nat, mInv: nat, a1: nat, q: nat)
    requires mInv * m <= MOD_FAST_MAX && a1 * MOD_MIN <= r && q * B <= a1 * mInv
    ensures q * m <= r
  {
    MulMono(m, q * B, a1 * mInv);
    MulMono(a1, mInv * m, MOD_FAST_MAX);
    assert m * (q * B) == B * (q * m);
    assert m * (a1 * mInv) == a1 * (mInv * m);
    assert a1 * MOD_FAST_MAX == B * (a1 * MOD_MIN);
    CancelAtMost(B, q * m, a1 * MOD_MIN);
  }

  lemma {:induction false} ModFastUpper(r: nat, m: nat, mInv: nat, a1: nat, q: nat)
    requires IsModulus(m) && MOD_FAST_MAX < (mInv + 1) * m && r < (a1 + 1) * MOD_MIN && a1 < B
             && a1 * mInv < (q + 1) * B
    ensures r < q * m + 3 * m
  {
    // a1 2^125 <= a1 (mInv + 1) m < ((q + 1) B + B) m
    MulMono(a1, MOD_FAST_MAX, (mInv + 1) * m);
    assert a1 * MOD_FAST_MAX == B * (a1 * MOD_MIN);
    assert a1 * ((mInv + 1) * m) == m * (a1 * mInv + a1);
    MulStrict(m, a1 * mInv + a1, (q + 1) * B + B);
    assert m * ((q + 1) * B + B) == B * (q * m + 2 * m);
    CancelLess(B, a1 * MOD_MIN, q * m + 2 * m);
    assert (a1 + 1) * MOD_MIN == a1 * MOD_MIN + MOD_MIN;
  }

  /** An arithmetic right shift by one of a word. */
  function SignShift1(x: Limb): (r: Limb)
    ensures x == 0 ==> r == 0
    ensures x == B - 1 ==> r == B - 1
  {
    if x >= B / 2 then (x as int + B) / 2 else x / 2
  }

  /** The two masked corrections that bring a value in `[-2 m, m)` into `[0, m)`. */
  function MaskedReduce(e: int, m: Limb): (r: Limb)
    requires IsModulus(m) && -2 * (m as int) <= e < m as int
    ensures r as int == if e < -(m as int) then e + 2 * m else if e < 0 then e + m else e
  {
    hide WrapTwo, Corrected;
    var w := Corrected(e, m);
    (w % B + MaskAnd(w / B, m)) % B
  }

  /** The first correction: `m` is added to a negative number. */
  function Corrected(e: int, m: Limb): (w: nat)
    requires IsModulus(m) && -2 * (m as int) <= e < m as int
    ensures var x := if e < 0 then e + m else e; w % B == x % B && w / B == if x < 0 then B - 1 else 0
  {
    hide WrapTwo;
    var w := WrapTwo(e);
    var t0 := SignShift1(w / B);
    WrapTwo(w + MaskAnd(t0, m))
  }

  /** Two words of a number that may be negative: the high word is then all ones. */
  function WrapTwo(e: int): (w: nat)
    requires -(B as int) <= e < B || B * B - B <= e < B * B + B
    ensures w < B * B && w % B == e % B && (-(B as int) <= e < 0 ==> w == e + B * B)
    ensures w / B == if -(B as int) <= e < 0 || B * B - B <= e < B * B then B - 1 else 0
  {
    e % (B * B)
  }

  /** `r` modulo `m`, for every `r` below `2^125`. */
  function ModFast(r: nat, m: Limb, mInv: Limb): (x: Limb)
    requires IsModInverse(m, mInv) && r < MOD_FAST_MAX
    ensures x < m && Cong(x, r, m)
  {
    hide Quotient, Cong;
    var a1 := Quotient(r, MOD_MIN);
    assert a1 < B by { if a1 >= B { MulMono(MOD_MIN, B, a1); } }
    var q := Quotient(a1 * mInv, B);
    ModFastRemainder(r, m, mInv, a1, q);
    var e := r - q * m - 2 * m;
    var x := MaskedReduce(e, m);
    ReducedCong(r, q, m, e, x);
    x
  }

  lemma {:induction false} ReducedCong(r: int, q: int, m: int, e: int, x: int)
    requires m > 0 && e == r - q * m - 2 * m
    requires x == if e < -m then e + 2 * m else if e < 0 then e + m else e
    ensures Cong(x, r, m)
  {
    var c := if e < -m then 0 else if e < 0 then 1 else 2;
    assert (-q - c) * m == -(q * m) - c * m;
    CongIntro(x, r, m, -q - c);
  }

  function MulModFast(a: Limb, b: Limb, m: Limb, mInv: Limb): (x: Limb)
    requires IsModInverse(m, mInv) && a as nat * b < MOD_FAST_MAX
    ensures x < m && Cong(x, a as int * b, m)
  {
    ModFast(a as nat * b, m, mInv)
  }
}
