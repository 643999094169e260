/** Splitting a limb table into digits of any width up to 188 bits, reduced modulo an NTT prime. */
module FftDigits {
  import opened Arith
  import opened Powers
  import opened Limbs
  import opened Kernels
  import opened Bits
  import opened Digits
  import opened Modular
  import opened NttWords

  /** Widest digit: the two-step reduction of `LimbToNtt` covers 63 + 125 bits. */
  const DPL_MAX: nat := 188

  const LOW63: nat := 0x8000_0000_0000_0000

  /** The remainder of a wide shift, one word at a time. */
  lemma {:induction false} WideRemainder(x: nat, n: nat)
    requires n >= 64
    ensures x % Pow2(n) == x % B + B * ((x / B) % Pow2(n - 64))
  {
    hide Pow2;
    Pow2Add(64, n - 64);
    Pow2Limb();
    DivDiv(x, B, Pow2(n - 64));
  }

  /** The word `n` words above bit `pos`. */
  lemma {:induction false} WordAbove(v: nat, pos: nat)
    ensures ShiftTo(v, pos + 64) == ShiftTo(v, pos) / B && ShiftTo(v, pos) >= 0
  {
    hide Pow2;
    Pow2Add(pos, 64);
    Pow2Limb();
    DivDiv(v, Pow2(pos), B);
  }

  /** The digit of width `w` at bit `pos`: whole when it fits `mod_fast`, otherwise in two parts. */
  function ReadDigit(tab: seq<Limb>, pos: nat, w: nat): (r: (nat, Limb))
    requires 1 <= w <= DPL_MAX
    ensures w <= 125 ==> r.0 == ShiftTo(Val(tab), pos) % Pow2(w)
    ensures w > 125 ==> r.1 < LOW63 && r.0 * LOW63 + r.1 == ShiftTo(Val(tab), pos) % Pow2(w)
    ensures r.0 < MOD_FAST_MAX
  {
    hide Pow2, Val, ShiftTo, Masked, GetBits;
    WordAbove(Val(tab), pos);
    WordAbove(Val(tab), pos + 64);
    var a0 := GetBits(tab, pos);
    if w <= 64 then
      OneWord(ShiftTo(Val(tab), pos), w);
      (Masked(a0, w % 64) as nat, 0 as Limb)
    else
      var a1 := GetBits(tab, pos + 64);
      if w <= 125 then
        TwoWords(ShiftTo(Val(tab), pos), w);
        (a0 as nat + B * Masked(a1, w % 64), 0 as Limb)
      else
        var a1' := if w > 128 then a1 else Masked(a1, w % 64);
        var a2 := if w > 128 then Masked(GetBits(tab, pos + 128), w % 64) else 0;
        ThreeWords(ShiftTo(Val(tab), pos), w, a0, a1', a2);
        (a0 as nat / LOW63 + 2 * a1' as nat + 2 * B * a2, a0 % LOW63)
  }

  lemma {:induction false} OneWord(x: nat, w: nat)
    requires 1 <= w <= 64
    ensures Masked(x % B, w % 64) as nat == x % Pow2(w)
  {
    hide Pow2, Masked;
    MaskedLow(x, w);
  }

  lemma {:induction false} TwoWords(x: nat, w: nat)
    requires 64 < w <= 125
    ensures x % B + B * Masked((x / B) % B, w % 64) == x % Pow2(w) < MOD_FAST_MAX
  {
    hide Pow2, Masked;
    MaskedLow(x / B, w - 64);
    WideRemainder(x, w);
    Pow2Upper(w - 64, 61);
  }

  lemma {:induction false} Pow2Upper(m: nat, n: nat)
    requires m <= n && n <= 61
    ensures Pow2(m) <= MOD_MIN
  {
    hide Pow2;
    Pow2Mono(m, 61);
    Pow2Add(61, 3);
    Pow2Limb();
    Pow2Three();
  }

  lemma {:induction false} Pow2Three()
    ensures Pow2(3) == 8
  {
  }

  lemma {:induction false} ThreeWords(x: nat, w: nat, a0: Limb, a1: Limb, a2: Limb)
    requires 125 < w <= DPL_MAX && a0 as nat == x % B
    requires w <= 128 ==> a1 == Masked((x / B) % B, w % 64) && a2 == 0
    requires w > 128 ==> a1 as nat == (x / B) % B && a2 == Masked(((x / B) / B) % B, w % 64)
    ensures a0 as nat + B * a1 + B * B * a2 == x % Pow2(w)
    ensures (a0 as nat / LOW63 + 2 * a1 as nat + 2 * B * a2) * LOW63 + a0 as nat % LOW63 == x % Pow2(w)
    ensures a0 as nat / LOW63 + 2 * a1 as nat + 2 * B * a2 < MOD_FAST_MAX
  {
    hide Pow2, Masked;
    WideRemainder(x, w);
    if w <= 128 {
      MaskedLow(x / B, w - 64);
    } else {
      WideRemainder(x / B, w - 64);
      MaskedLow((x / B) / B, w - 128);
      Pow2Upper60(w - 128);
      assert a2 as nat < Pow2(w - 128);
    }
  }

  lemma {:induction false} Pow2Upper60(m: nat)
    requires m <= 60
    ensures Pow2(m) <= MOD_MIN / 2
  {
    Pow2Upper(m + 1, 61);
  }

  // ---------- reduction ----------

  /** A digit modulo `m`, in one or two steps. */
  function DigitMod(hi: nat, lo: Limb, w: nat, m: Limb, mInv: Limb): (r: Limb)
    requires IsModInverse(m, mInv) && hi < MOD_FAST_MAX && (w > 125 ==> lo < LOW63)
    ensures r < m && Cong(r, if w > 125 then hi * LOW63 + lo else hi, m)
  {
    hide Cong, ModFast;
    var r := ModFast(hi, m, mInv);
    if w > 125 then
      var b: nat := r as nat * LOW63 + lo;
      var s := ModFast(b, m, mInv);
      TwoStepCong(hi, lo, r, s, m);
      s
    else r
  }

  lemma {:induction false} TwoStepCong(hi: int, lo: int, r: int, s: int, m: int)
    requires m > 0 && Cong(r, hi, m) && Cong(s, r * LOW63 + lo, m)
    ensures Cong(s, hi * LOW63 + lo, m)
  {
    hide Cong;
    CongRefl(LOW63, m);
    CongRefl(lo, m);
    CongMul(r, hi, LOW63, LOW63, m);
    CongAdd(r * LOW63, hi * LOW63, lo, lo, m);
    CongTrans(s, r * LOW63 + lo, hi * LOW63 + lo, m);
  }

  /** The digits of a table, reduced modulo `m`; positions past the table's end are zero. */
  method LimbToNtt(tabr: array<Limb>, taba: seq<Limb>, w: nat, m: Limb, mInv: Limb)
    requires IsModInverse(m, mInv) && 1 <= w <= DPL_MAX
    modifies tabr
    ensures forall i :: 0 <= i < tabr.Length ==> tabr[i] < m
    ensures CongSeq(tabr[..], DigitsOf(Val(taba), Pow2(w), tabr.Length), m)
  {
    hide Cong, Pow2, Val, DigitsOf, ReadDigit, DigitMod;
    var len := tabr.Length;
    for i := 0 to len
      invariant forall k :: 0 <= k < i ==> tabr[k] == 0
    {
      tabr[i] := 0;
    }
    var n := (|taba| * 64 + w - 1) / w;
    n := if len < n then len else n;
    ghost var ds := DigitsOf(Val(taba), Pow2(w), len);
    for i := 0 to n
      invariant forall k :: i <= k < len ==> tabr[k] == 0
      invariant forall k :: 0 <= k < i ==> tabr[k] < m && Cong(tabr[k], ds[k], m)
    {
      DigitPosition(taba, w, len, i);
      var (hi, lo) := ReadDigit(taba, i * w, w);
      tabr[i] := DigitMod(hi, lo, w, m, mInv);
    }
    forall i | n <= i < len
      ensures Cong(tabr[i], ds[i], m)
    {
      DigitPast(taba, w, len, i);
      CongRefl(0, m);
    }
  }

  lemma {:induction false} DigitPosition(taba: seq<Limb>, w: nat, n: nat, i: nat)
    requires i < n
    ensures i * w >= 0 && DigitsOf(Val(taba), Pow2(w), n)[i] == ShiftTo(Val(taba), i * w) % Pow2(w)
  {
    hide Pow2, Val, DigitsOf;
    DigitsAt(Val(taba), Pow2(w), n, i);
    PowerOfPow2(w, i);
    assert w * i == i * w;
  }

  lemma {:induction false} DigitPast(taba: seq<Limb>, w: nat, n: nat, i: nat)
    requires i < n && w > 0 && i >= (|taba| * 64 + w - 1) / w
    ensures DigitsOf(Val(taba), Pow2(w), n)[i] == 0
  {
    hide Pow2, Val, DigitsOf, Pow;
    DigitPosition(taba, w, n, i);
    CeilCovers(|taba| * 64, w, i);
    ValBound(taba);
    Pow2Limbs(|taba|);
    Pow2Mono(64 * |taba|, i * w);
    BelowDivisor(Val(taba), Pow2(i * w));
    BelowDivisor(0, Pow2(w));
  }

  lemma {:induction false} CeilCovers(a: nat, w: nat, i: nat)
    requires w > 0 && i >= (a + w - 1) / w
    ensures i * w >= a
  {
    var q := (a + w - 1) / w;
    assert w * q > a - 1;
    MulMono(w, q, i);
  }
}
