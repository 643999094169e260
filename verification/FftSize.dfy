/** Choosing how many moduli a product uses, how many bits a digit has and how long the transform is. */
module FftSize {
  import opened Arith
  import opened Powers
  import opened NttTables
  import opened FftDigits

  /** Transform length `2^k`, digits of `dpl` bits, `nb` moduli. */
  datatype Shape = Shape(k: nat, dpl: nat, nb: nat) | NoShape

  /** Bits that a coefficient may have with `nb` moduli. */
  function IntBits(nb: nat): (b: nat)
    requires 3 <= nb <= NB_MODS
  {
    if nb == 3 then 185 else if nb == 4 then 246 else 307
  }

  /** Every digit fits, the digits of a number of `len` limbs fit the transform, and so do the coefficients. */
  ghost predicate ValidShape(s: Shape, len: nat) {
    && s.Shape? && 3 <= s.nb <= NB_MODS && 67 <= s.dpl <= DPL_MAX && s.k <= NTT_PROOT_2EXP
    && s.k + 2 * s.dpl <= IntBits(s.nb) && 64 * len <= s.dpl * Pow2(s.k)
  }

  /** The least `k` with `a <= 2^k`. */
  function CeilLog2(a: nat): (k: nat)
    ensures a <= Pow2(k) && (k > 0 ==> Pow2(k - 1) < a)
  {
    if a <= 1 then 0 else 1 + CeilLog2((a + 1) / 2)
  }

  lemma {:induction false} CeilLog2AtMost(a: nat, e: nat)
    requires a <= Pow2(e)
    ensures CeilLog2(a) <= e
  {
    if a > 1 { CeilLog2AtMost((a + 1) / 2, e - 1); }
  }

  /** Largest total size the library can multiply at all. */
  const MAX_LIMBS: nat := 0x10_0000_0000_0000

  lemma {:induction false} Levels()
    ensures Pow2(19) == 0x8_0000 && Pow2(51) == 0x8_0000_0000_0000
  {
    hide Pow2;
    Pow2Three();
    Pow2Add(3, 3);
    Pow2Add(6, 6);
    Pow2Add(12, 6);
    OneShift();
    Pow2Add(18, 1);
    Pow2Add(19, 19);
    Pow2Add(38, 12);
    Pow2Add(50, 1);
  }

  function DigitCount(len: nat, dpl: nat): (n: nat)
    requires dpl > 0
    ensures 64 * len <= dpl * n
    ensures forall c: nat :: 64 * len <= dpl * c ==> n <= c
  {
    var n := (64 * len + dpl - 1) / dpl;
    CeilLeast(64 * len, dpl, n);
    n
  }

  lemma {:induction false} CeilLeast(a: nat, d: nat, n: nat)
    requires d > 0 && n == (a + d - 1) / d
    ensures a <= d * n
    ensures forall c: nat :: a <= d * c ==> n <= c
  {
    var r := (a + d - 1) % d;
    assert a + d - 1 == d * n + r;
    forall c: nat | a <= d * c
      ensures n <= c
    {
      if c < n { MulMono(d, c + 1, n); MulDist(d, c, 1); }
    }
  }

  /** What the sizes of interest say about the transform length at digit width `dpl`. */
  lemma {:induction false} LevelFits(len: nat, dpl: nat, n: nat, k: nat)
    requires 67 <= dpl && n == DigitCount(len, dpl) && k == CeilLog2(n)
    ensures 64 * len <= dpl * Pow2(k)
    ensures 64 * len > dpl ==> k >= 1
    ensures dpl >= 128 && len <= MAX_LIMBS ==> k <= NTT_PROOT_2EXP
  {
    hide Pow2, CeilLog2;
    Levels();
    MulMono(dpl, n, Pow2(k));
    if 64 * len > dpl && k == 0 { NoLevel(); }
    if dpl >= 128 && len <= MAX_LIMBS { LevelAtMost(len, dpl, 128, 51); }
  }

  lemma {:induction false} LevelAtMost(len: nat, dpl: nat, d: nat, e: nat)
    requires 0 < d <= dpl && 64 * len <= d * Pow2(e)
    ensures CeilLog2(DigitCount(len, dpl)) <= e
  {
    hide Pow2, CeilLog2, DigitCount;
    MulMono(Pow2(e), d, dpl);
    CeilLog2AtMost(DigitCount(len, dpl), e);
  }

  lemma {:induction false} NoLevel()
    ensures Pow2(0) == 1
  {
  }

  /** The widest digit for `nb` moduli whose coefficients still fit. The width never gets below 67 bits. */
  method WidestDigit(nb: nat, len: nat) returns (s: Shape)
    requires 3 <= nb <= NB_MODS
    ensures s.Shape? ==> ValidShape(s, len) && s.nb == nb && s.dpl <= 151
    ensures s.Shape? && 64 * len > 151 ==> s.k >= 1
    ensures nb == NB_MODS && len <= MAX_LIMBS ==> s.Shape?
  {
    hide Pow2, CeilLog2;
    var bits := IntBits(nb);
    var dpl := if (bits - 4) / 2 < DPL_MAX then (bits - 4) / 2 else DPL_MAX;
    while true
      invariant 67 <= dpl <= (bits - 4) / 2
      invariant nb == NB_MODS && len <= MAX_LIMBS ==> dpl >= 128
      decreases dpl
    {
      var n := DigitCount(len, dpl);
      var k := CeilLog2(n);
      LevelFits(len, dpl, n, k);
      if k > NTT_PROOT_2EXP {
        return NoShape;
      }
      if k + 2 * dpl <= bits {
        return Shape(k, dpl, nb);
      }
      dpl := dpl - 1;
    }
  }

  /** Relative cost of a transform. */
  function Cost(k: nat, nb: nat): nat { (k + 1) * Pow2(k) * nb }

  /** The cheapest shape. The library gives up exactly above `2^52` limbs. */
  method GetFftSize(len: nat) returns (s: Shape)
    ensures s.Shape? <==> len <= 0x10_0000_0000_0000
    ensures s.Shape? ==> ValidShape(s, len)
    ensures s.Shape? && 64 * len > 151 ==> s.k >= 1
  {
    hide Pow2;
    var minCost: nat := 0xffff_ffff_ffff_ffff;
    s := NoShape;
    for nb := 3 to NB_MODS + 1
      invariant s.Shape? ==> ValidShape(s, len) && s.dpl <= 151
      invariant s.Shape? && 64 * len > 151 ==> s.k >= 1
      invariant s.NoShape? ==> minCost == 0xffff_ffff_ffff_ffff
      invariant nb == NB_MODS + 1 && len <= MAX_LIMBS ==> s.Shape?
    {
      var t := WidestDigit(nb, len);
      if t.Shape? {
        CostFits(t.k, nb);
        var cost := Cost(t.k, nb);
        if cost < minCost {
          minCost, s := cost, t;
        }
      }
    }
    if s.Shape? {
      TooLong(s, len);
      // narrower digits are cheaper to convert when the transform length allows them
      if s.dpl > 125 && 125 * Pow2(s.k) >= 64 * len {
        s := s.(dpl := 125);
      }
    }
  }

  lemma {:induction false} CostFits(k: nat, nb: nat)
    requires k <= NTT_PROOT_2EXP && nb <= NB_MODS
    ensures Cost(k, nb) < 0xffff_ffff_ffff_ffff
  {
    hide Pow2;
    Levels();
    Pow2Mono(k, 51);
    ProductUpper(k + 1, 52, Pow2(k), Pow2(51));
    ProductUpper((k + 1) * Pow2(k), 52 * Pow2(51), nb, 5);
  }

  lemma {:induction false} ProductUpper(a: nat, a': nat, b: nat, b': nat)
    requires a <= a' && b <= b'
    ensures a * b <= a' * b'
  {
    MulMono(a, b, b');
    MulMono(b', a, a');
  }

  lemma {:induction false} TooLong(s: Shape, len: nat)
    requires ValidShape(s, len) && s.dpl <= 151
    ensures len <= MAX_LIMBS
  {
    hide Pow2;
    Levels();
    assert Pow2(51) == 4 * Pow2(49) by { Pow2Add(49, 2); TwoShift(); }
    if s.dpl <= 128 {
      Pow2Mono(s.k, 51);
      ProductUpper(s.dpl, 128, Pow2(s.k), Pow2(51));
    } else {
      Pow2Mono(s.k, 49);
      ProductUpper(s.dpl, 151, Pow2(s.k), Pow2(49));
    }
  }
}
