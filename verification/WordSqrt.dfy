/** Square roots of one and two limbs: a table for eight bits, then the Karatsuba step twice or three times. */
module WordSqrt {
  import opened Arith
  import opened Limbs
  import opened SqrtCore

  /** The 192 entry table of roots, in rows of sixteen. */
  function SqrtRow(j: nat): (row: seq<nat>)
    requires j < 12
  {
    match j
    case 0 => [128, 128, 129, 130, 131, 132, 133, 134, 135, 136, 137, 138, 139, 140, 141, 142]
    case 1 => [143, 144, 144, 145, 146, 147, 148, 149, 150, 150, 151, 152, 153, 154, 155, 155]
    case 2 => [156, 157, 158, 159, 160, 160, 161, 162, 163, 163, 164, 165, 166, 167, 167, 168]
    case 3 => [169, 170, 170, 171, 172, 173, 173, 174, 175, 176, 176, 177, 178, 178, 179, 180]
    case 4 => [181, 181, 182, 183, 183, 184, 185, 185, 186, 187, 187, 188, 189, 189, 190, 191]
    case 5 => [192, 192, 193, 193, 194, 195, 195, 196, 197, 197, 198, 199, 199, 200, 201, 201]
    case 6 => [202, 203, 203, 204, 204, 205, 206, 206, 207, 208, 208, 209, 209, 210, 211, 211]
    case 7 => [212, 212, 213, 214, 214, 215, 215, 216, 217, 217, 218, 218, 219, 219, 220, 221]
    case 8 => [221, 222, 222, 223, 224, 224, 225, 225, 226, 226, 227, 227, 228, 229, 229, 230]
    case 9 => [230, 231, 231, 232, 232, 233, 234, 234, 235, 235, 236, 236, 237, 237, 238, 238]
    case 10 => [239, 240, 240, 241, 241, 242, 242, 243, 243, 244, 244, 245, 245, 246, 246, 247]
    case _ => [247, 248, 248, 249, 249, 250, 250, 251, 251, 252, 252, 253, 253, 254, 254, 255]
  }

  /** A table entry is at most one below the root of every 16-bit number with the given top byte. */
  predicate GoodEntry(top: nat, s: nat) {
    s * s <= 256 * top && 256 * top + 255 < (s + 2) * (s + 2)
  }

  ghost predicate GoodRow(j: nat, k: nat)
    requires j < 12 && k < 16
  {
    |SqrtRow(j)| == 16 && GoodEntry(64 + 16 * j + k, SqrtRow(j)[k]) && 128 <= SqrtRow(j)[k] < 256
  }

  lemma {:induction false} RowsFrom0(j: nat, k: nat)
    requires j < 2 && k < 16
    ensures GoodRow(j, k)
  {
  }

  lemma {:induction false} RowsFrom2(j: nat, k: nat)
    requires 2 <= j < 4 && k < 16
    ensures GoodRow(j, k)
  {
  }

  lemma {:induction false} RowsFrom4(j: nat, k: nat)
    requires 4 <= j < 6 && k < 16
    ensures GoodRow(j, k)
  {
  }

  lemma {:induction false} RowsFrom6(j: nat, k: nat)
    requires 6 <= j < 8 && k < 16
    ensures GoodRow(j, k)
  {
  }

  lemma {:induction false} RowsFrom8(j: nat, k: nat)
    requires 8 <= j < 10 && k < 16
    ensures GoodRow(j, k)
  {
  }

  lemma {:induction false} RowsFrom10(j: nat, k: nat)
    requires 10 <= j < 12 && k < 16
    ensures GoodRow(j, k)
  {
  }

  /** The whole table keeps what the code relies on. */
  lemma {:induction false} TableGood(j: nat, k: nat)
    requires j < 12 && k < 16
    ensures GoodRow(j, k)
  {
    hide GoodRow;
    if j < 2 { RowsFrom0(j, k); }
    else if j < 4 { RowsFrom2(j, k); }
    else if j < 6 { RowsFrom4(j, k); }
    else if j < 8 { RowsFrom6(j, k); }
    else if j < 10 { RowsFrom8(j, k); }
    else { RowsFrom10(j, k); }
  }

  function TableEntry(i: nat): (s: nat)
    requires i < 192
    ensures GoodEntry(64 + i, s) && 128 <= s < 256
  {
    TableGood(i / 16, i % 16);
    SqrtRow(i / 16)[i % 16]
  }

  /** The 16 to 8 bit root: a table look-up and one correction. */
  function TableRoot(v: nat): (p: (nat, nat))
    requires 0x4000 <= v < 0x1_0000
    ensures IsRoot(v, p.0, p.1) && 128 <= p.0 <= 256
  {
    hide TableEntry;
    CorrectEntry(v, TableEntry(v / 256 - 64))
  }

  function CorrectEntry(v: nat, s1: nat): (p: (nat, nat))
    requires GoodEntry(v / 256, s1) && 128 <= s1 < 256
    ensures IsRoot(v, p.0, p.1) && 128 <= p.0 <= 256
  {
    var r1 := v - s1 * s1;
    assert (s1 + 1) * (s1 + 1) == s1 * s1 + 2 * s1 + 1 && (s1 + 2) * (s1 + 2) == s1 * s1 + 4 * s1 + 4;
    if r1 > 2 * s1 then (s1 + 1, r1 - (2 * s1 + 1)) else (s1, r1)
  }

  /** One doubling step in words: `l` is the new digits' base, `c1` and `c0` the digits; the
      remainder is kept as a wrapped word and its sign bit decides the correction. */
  function RootStep(hi: nat, s1: nat, r1: nat, c1: nat, c0: nat, l: nat): (p: (nat, nat))
    requires IsRoot(hi, s1, r1) && 0 < l <= 2 * s1 && s1 <= l <= 0x1_0000 && c1 < l && c0 < l
    ensures IsRoot((hi * l + c1) * l + c0, p.0, p.1)
  {
    var num := r1 * l + c1;
    var q, u := num / (2 * s1), num % (2 * s1);
    assert num == q * (2 * s1) + u;
    MulMono(l, 0, r1);
    QuotientNonNegative(num, 2 * s1);
    var s, r := s1 * l + q, u * l + c0 - q * q;
    SqrtStep(hi, hi * l + c1, (hi * l + c1) * l + c0, s1, r1, q, u, c1, c0, l, s, r);
    StepFitsWord(u, l, c0, q, s1);
    FixRoot(s, r)
  }

  lemma {:induction false} QuotientNonNegative(num: int, d: int)
    requires 0 <= num && 0 < d
    ensures 0 <= num / d
  {
  }

  lemma {:induction false} StepFitsWord(u: nat, l: nat, c0: nat, q: nat, s1: nat)
    requires u < 2 * s1 && s1 <= l <= 0x1_0000 && c0 < l && q <= l && 0 < s1
    ensures -0x1_0000_0000 <= u * l + c0 - q * q < 0x3_0000_0000
    ensures 0 < s1 * l + q < 0x2_0000_0000
  {
    ProductBound(q, q, 0x1_0000);
    MulMono(u, l, 0x1_0000);
    MulMono(0x1_0000, u, 0x2_0000);
    MulMono(u, 0, l);
    MulMono(q, 0, q);
    ProductBound(s1, l, 0x1_0000);
    MulMono(s1, 1, l);
  }

  /** `r` held as a word: negative exactly when the top bit is set. */
  function FixRoot(s: nat, r: int): (p: (nat, nat))
    requires 0 < s < 0x2_0000_0000 && -0x1_0000_0000 <= r < 0x3_0000_0000
    requires r < 0 ==> 0 <= r + 2 * (s - 1) + 1
    ensures p == if r < 0 then (s - 1, r + 2 * (s - 1) + 1) else (s, r)
  {
    var w := r % B;
    if w >= B / 2 then (s - 1, (w + 2 * (s - 1) + 1) % B) else (s, w)
  }

  /** The digits of a limb, as the shifts and masks extract them. */
  lemma {:induction false} LimbDigits(a: Limb)
    ensures a == ((a / 0x1_0000_0000) * 0x1_0000 + a / 0x1_0000 % 0x1_0000) * 0x1_0000 + a % 0x1_0000
    ensures a / 0x1_0000_0000 == (a / 0x1_0000_0000_0000 * 0x100 + a / 0x100_0000_0000 % 0x100) * 0x100
            + a / 0x1_0000_0000 % 0x100
  {
    var m := a / 0x1_0000;
    assert m / 0x1_0000 == a / 0x1_0000_0000;
    var h, g := a / 0x1_0000_0000, a / 0x100_0000_0000;
    assert h / 0x100 == g && g / 0x100 == a / 0x1_0000_0000_0000;
  }

  /** Root and remainder of one normalized limb. */
  function MpSqrtRem1(a: Limb): (p: (nat, nat))
    requires a >= B / 4
    ensures IsRoot(a, p.0, p.1)
  {
    hide IsRoot, TableRoot, RootStep;
    LimbDigits(a);
    var top: nat, mid: nat := a / 0x1_0000_0000_0000, a / 0x1_0000_0000;
    var p1 := TableRoot(top);
    var p2 := RootStep(top, p1.0, p1.1, a / 0x100_0000_0000 % 0x100, a / 0x1_0000_0000 % 0x100, 0x100);
    RootRange(mid, p2.0, p2.1, 0x1_0000);
    RootStep(mid, p2.0, p2.1, a / 0x1_0000 % 0x1_0000, a % 0x1_0000, 0x1_0000)
  }

  lemma {:induction false} RootRange(a: nat, s: nat, r: nat, p: nat)
    requires IsRoot(a, s, r) && p > 0 && a < p * p <= 4 * a
    ensures s < p <= 2 * s + 1
    ensures p % 2 == 0 ==> p <= 2 * s
  {
    RootBelow(a, s, r, p);
    assert (2 * s + 2) * (2 * s + 2) == 4 * (s * s) + 8 * s + 4;
    if p >= 2 * s + 2 { ProductBound(2 * s + 2, 2 * s + 2, p); }
  }

  const HALF: nat := 0x1_0000_0000

  /** The digit quotient of the two limb step: at most `2^32`. */
  function RootQuotient(s1: nat, r1: nat, c1: nat): (p: (nat, nat))
    requires s1 > 0
    ensures MulAdd(c1, r1, HALF) == MulAdd(p.1, p.0, 2 * s1) && p.1 < 2 * s1
  {
    var num := r1 * HALF + c1;
    QuotientNonNegative(num, 2 * s1);
    (num / (2 * s1), num % (2 * s1))
  }

  /** The quotient's square; `q == 2^32` is caught, because its square is no longer a limb. */
  function QuotientSquare(q: nat): nat {
    if q / HALF != 0 then B else q * q
  }

  /** The last correction in words: the root is a wrapped limb, the remainder a wrapped double limb. */
  function FixRoot2(cand: nat, r: int): (p: (Limb, Limb, Limb))
    requires 0 < cand <= B && -(B as int) <= r < 2 * B && (cand == B ==> r < 0)
    requires r < 0 ==> 0 <= r + 2 * (cand - 1) + 1
    ensures p.2 <= 1
    ensures r < 0 ==> p.0 as int == cand - 1 && p.1 + p.2 * B == r + 2 * (cand - 1) + 1
    ensures r >= 0 ==> p.0 as int == cand && p.1 + p.2 * B == r
  {
    var s: Limb := cand % B;
    var w: nat := r % (B * B);
    WrappedSign(r, w);
    if w / B >= B / 2 then
      var s': Limb := (s - 1) % B;
      var w': nat := (w + 2 * s' + 1) % (B * B);
      assert w' == r + 2 * s' + 1 by { WrapOnce(r + 2 * s' + 1, w + 2 * s' + 1); }
      (s', w' % B, w' / B)
    else
      (s, w % B, w / B)
  }

  /** The sign bit of a wrapped double limb. */
  lemma {:induction false} WrappedSign(r: int, w: nat)
    requires -(B as int) <= r < 2 * B && w == r % (B * B)
    ensures w == if r < 0 then r + B * B else r
    ensures w / B >= B / 2 <==> r < 0
  {
  }

  lemma {:induction false} WrapOnce(r: int, w: nat)
    requires 0 <= r < B * B && w == r + B * B
    ensures w % (B * B) == r
  {
  }

  /** Root of two limbs: the root limb, the low remainder limb and the high one. */
  function MpSqrtRem2(a1: Limb, a0: Limb): (p: (Limb, Limb, Limb))
    requires a1 >= B / 4
    ensures p.2 <= 1
    ensures IsRoot(a1 as int * B + a0, p.0, p.1 as int + p.2 * B)
  {
    hide MulAdd, MpSqrtRem1, RootQuotient, FixRoot2, QuotientSquare, IsRoot;
    var h := MpSqrtRem1(a1);
    RootRange(a1, h.0, h.1, HALF);
    var c1: nat, c0: nat := a0 / HALF, a0 % HALF;
    var qu := RootQuotient(h.0, h.1, c1);
    var square := QuotientSquare(qu.0);
    var s, r := h.0 * HALF + qu.0, qu.1 * HALF + c0 - square;
    TwoLimbStep(a1, a0, h.0, h.1, qu.0, qu.1, square, s, r);
    FixRoot2(s, r)
  }

  lemma {:induction false} TwoLimbStep(a1: Limb, a0: Limb, s1: nat, r1: nat, q: nat, u: nat, square: nat, s: int,
                                       r: int)
    requires IsRoot(a1, s1, r1) && s1 < HALF <= 2 * s1
    requires MulAdd(a0 / HALF, r1, HALF) == MulAdd(u, q, 2 * s1) && u < 2 * s1
    requires square == QuotientSquare(q)
    requires s == s1 * HALF + q && r == u * HALF + a0 % HALF - square
    ensures 0 < s <= B && -(B as int) <= r < 2 * B && (s == B ==> r < 0)
    ensures r < 0 ==> 0 <= r + 2 * (s - 1) + 1 && IsRoot(a1 as int * B + a0, s - 1, r + 2 * (s - 1) + 1)
    ensures r >= 0 ==> IsRoot(a1 as int * B + a0, s, r)
  {
    var c1: int, c0: int := a0 / HALF, a0 % HALF;
    var m: int, a: int := a1 as int * HALF + c1, a1 as int * B + a0;
    LimbHalves(a1, a0);
    TwoLimbQuotient(s1, r1, q, u, c1);
    SqrtStep(a1, m, a, s1, r1, q, u, c1, c0, HALF, s, r);
    if r >= 0 {
      hide MulAdd;
      RootBelow(a, s, r, B);
    }
  }

  lemma {:induction false} LimbHalves(a1: Limb, a0: Limb)
    ensures (a1 as int * HALF + a0 / HALF) * HALF + a0 % HALF == a1 as int * B + a0
  {
  }

  /** The special case for `q == 2^32` stands for the square it cannot hold. */
  lemma {:induction false} TwoLimbQuotient(s1: nat, r1: nat, q: nat, u: nat, c1: int)
    requires s1 < HALF <= 2 * s1 && r1 <= 2 * s1 && 0 <= c1 < HALF
    requires r1 * HALF + c1 == q * (2 * s1) + u
    ensures q <= HALF && q * q <= B && (q / HALF != 0 ==> q * q == B)
  {
    QuotientAtMostBase(s1, r1, q, u, c1, HALF);
    ProductBound(q, q, HALF);
  }
}
