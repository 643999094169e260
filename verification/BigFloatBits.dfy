/** Bit-level work on mantissas: single bits, bits below a position, adding one at a position, halving, trimming. */
module BigFloatBits {
  import opened Arith
  import opened Powers
  import opened Limbs
  import opened Kernels
  import opened Bits
  import opened Rounding

  // ---------- reading bits ----------

  /** The bit at `pos`; outside the table there are zeros. */
  function GetBit(tab: seq<Limb>, pos: int): (b: bool)
    ensures pos < 0 ==> !b
    ensures pos >= 0 ==> b == ((Val(tab) / Pow2(pos)) % 2 == 1)
  {
    hide Pow2, Val;
    if pos < 0 then false
    else
      BitOfLimb(tab, pos);
      (LimbAt(tab, pos / 64) / Pow2(pos % 64)) % 2 == 1
  }

  lemma {:induction false} BitOfLimb(tab: seq<Limb>, pos: nat)
    ensures (Val(tab) / Pow2(pos)) % 2 == (LimbAt(tab, pos / 64) as nat / Pow2(pos % 64)) % 2
  {
    hide Pow2, Val, Pow, LimbAt;
    var i, p := pos / 64, pos % 64;
    Pow2Position(pos);
    DivDiv(Val(tab), Pow(i), Pow2(p));
    LimbsFrom(tab, i);
    var a: nat, z := LimbAt(tab, i), Val(tab) / Pow(i + 1);
    ShiftField(a, z, Pow2(p), Pow2(64 - p));
    EvenPow(64 - p);
    EvenTerm(a / Pow2(p), Pow2(64 - p), z);
  }

  lemma {:induction false} EvenPow(n: nat)
    requires n >= 1
    ensures Pow2(n) % 2 == 0
  {
  }

  lemma {:induction false} EvenTerm(x: int, q: int, z: int)
    requires q % 2 == 0
    ensures (x + q * z) % 2 == x % 2
  {
    var h := q / 2;
    assert q * z == 2 * (h * z);
  }

  /** Whether any of the bits `0 .. pos` is set. */
  method ScanBitNz(tab: seq<Limb>, pos: int) returns (nz: bool)
    requires pos < 64 * |tab|
    ensures nz <==> pos >= 0 && Val(tab) % Pow2(pos + 1) != 0
  {
    hide Pow2, Val, Pow, Masked;
    if pos < 0 { return false; }
    var i: nat := pos / 64;
    LowPart(tab, pos + 1, i);
    var v := Masked(tab[i], (pos + 1) % 64);
    NonZeroTop(Val(tab[..i]), v, Pow(i));
    if v != 0 { return true; }
    while i > 0
      invariant i <= pos / 64 && (Val(tab[..pos / 64]) != 0 <==> Val(tab[..i]) != 0)
    {
      i := i - 1;
      assert tab[..i + 1] == tab[..i] + [tab[i]];
      ValAppend(tab[..i], tab[i]);
      NonZeroTop(Val(tab[..i]), tab[i], Pow(i));
      if tab[i] != 0 { return true; }
    }
    NoLimbs(tab);
    return false;
  }

  lemma {:induction false} NonZeroTop(low: nat, v: nat, p: nat)
    requires p >= 1
    ensures low + v * p != 0 <==> low != 0 || v != 0
  {
    if v > 0 { MulMono(p, 1, v); }
  }

  // ---------- the rounding decision ----------

  /** Whether to add one to the mantissa cut at precision `prec`, and whether bits are lost. */
  method GetRndAdd(tab: seq<Limb>, prec: int, mode: Mode, sign: bool) returns (add: nat, inexact: bool)
    requires tab != [] && Val(tab) > 0
    ensures add <= 1
    ensures var k := 64 * |tab| - prec;
            if k < 0 then add == 0 && (mode != RNDF ==> !inexact)
            else
              && IsRounding(Val(tab), Pow2(k), Val(tab) / Pow2(k) + add, mode, sign)
              && (mode != RNDF ==> (inexact <==> Val(tab) % Pow2(k) != 0))
    ensures mode == RNDF ==> inexact
    ensures mode == RNDF && 64 * |tab| >= prec ==> var k := 64 * |tab| - prec;
                                                   IsRounding(Val(tab), Pow2(k), Val(tab) / Pow2(k) + add, RNDNA, sign)
  {
    hide Pow2, Val, GetBit, IsRounding;
    var len := 64 * |tab|;
    var k := len - prec;
    var rest := true;
    var scan := len - 1 - (if prec + 1 > 0 then prec + 1 else 0);
    if mode != RNDF {
      rest := ScanBitNz(tab, scan);
    }
    var half := GetBit(tab, len - 1 - prec);
    inexact := half || rest;
    var odd := GetBit(tab, len - 1 - (prec - 1));
    add := RndAdd(mode, sign, half, rest, odd);
    if k >= 0 {
      ScannedRest(tab, k, scan);
      ghost var low := k > 0 && Val(tab) % Pow2(k - 1) != 0;
      RndAddCorrect(Val(tab), k, mode, sign, half, low, odd);
      RndAddCorrect(Val(tab), k, RNDNA, sign, half, low, odd);
    }
  }

  /** The scan covers all bits below the half bit. */
  lemma {:induction false} ScannedRest(tab: seq<Limb>, k: nat, scan: int)
    requires tab != [] && scan == (if 64 * |tab| - k + 1 > 0 then k - 2 else 64 * |tab| - 1)
    ensures (scan >= 0 && Val(tab) % Pow2(scan + 1) != 0) <==> (k > 0 && Val(tab) % Pow2(k - 1) != 0)
  {
    hide Pow2, Val;
    if k > 64 * |tab| {
      TableBelow(tab);
      Pow2Mono(64 * |tab|, k - 1);
      BelowDivisor(Val(tab), Pow2(64 * |tab|));
      BelowDivisor(Val(tab), Pow2(k - 1));
    } else if k == 1 {
      ZeroShift();
    }
  }

  lemma {:induction false} TableBelow(tab: seq<Limb>)
    ensures Val(tab) < Pow2(64 * |tab|)
  {
    Pow2Limbs(|tab|);
    ValBound(tab);
  }

  // ---------- adding one ----------

  /** Adds `2^k`; a carry out of the top is returned. */
  method AddBit(tab: seq<Limb>, k: nat) returns (t: seq<Limb>, carry: bool)
    requires k < 64 * |tab|
    ensures |t| == |tab| && Val(t) + (if carry then Pow(|tab|) else 0) == Val(tab) + Pow2(k)
  {
    hide Pow2, Val, Pow;
    t := tab;
    var i := k / 64;
    Pow2Position(k);
    BitInLimb(k % 64);
    var c: Limb := Pow2(k % 64);
    assert c as nat * Pow(i) == Pow2(k);
    while i < |tab|
      invariant i <= |tab| == |t| && Val(t) + c as nat * Pow(i) == Val(tab) + Pow2(k) && 0 < c
      invariant i > k / 64 ==> c == 1
    {
      var v: Limb := (t[i] as nat + c) % B;
      ghost var c' := if v < c then 1 else 0;
      ValUpdate(t, i, v);
      NextPow(i);
      Carried(Val(t), t[i], c, v, c', Pow(i), Pow(i + 1));
      t := t[i := v];
      if v >= c { return t, false; }
      c := 1;
      i := i + 1;
    }
    return t, true;
  }

  lemma {:induction false} BitInLimb(p: nat)
    requires p < 64
    ensures 0 < Pow2(p) < B
  {
    Pow2Add(p, 64 - p);
    Pow2Limb();
    AtLeastTwo(64 - p);
    MulMono(Pow2(p), 2, Pow2(64 - p));
  }

  lemma {:induction false} Carried(val: int, x: nat, c: nat, v: nat, c': nat, p: nat, p': nat)
    requires x < B && 0 < c < B && v == (x + c) % B && c' == (if v < c then 1 else 0) && p' == B * p
    ensures val + (v - x) * p + c' * p' == val + c * p
  {
    assert x + c == v + c' * B;
    assert (v - x) * p == (c - c' * B) * p == c * p - (c' * B) * p;
    MulAssoc(c', B, p);
  }

  // ---------- halving ----------

  /** The table with a one above it, shifted right by one bit. */
  method HalveWithOne(s: seq<Limb>) returns (r: seq<Limb>)
    ensures |r| == |s| && 2 * Val(r) <= Val(s) + Pow(|s|) <= 2 * Val(r) + 1
  {
    hide Val, Pow;
    r := [];
    var v: Limb := 1;
    var i := |s|;
    assert s[i..] == [];
    EmptyTable();
    while i > 0
      invariant i <= |s| && |r| == |s| - i && 2 * Val(r) + v as nat % 2 == Val(s[i..]) + Pow(|s| - i)
    {
      i := i - 1;
      var a := s[i];
      var w: Limb := a / 2 + (v % 2) * 0x8000_0000_0000_0000;
      assert s[i..] == [a] + s[i + 1..];
      NextPow(|s| - i - 1);
      ValFirst([a] + s[i + 1..]);
      ValFirst([w] + r);
      assert ([a] + s[i + 1..])[1..] == s[i + 1..] && ([w] + r)[1..] == r;
      r := [w] + r;
      v := a;
    }
    assert s[0..] == s;
  }

  lemma {:induction false} ValFirst(s: seq<Limb>)
    requires s != []
    ensures Val(s) == s[0] + B * Val(s[1..])
  {
  }

  // ---------- trimming ----------

  /** Clears the bits below `k` and drops the limbs that are then zero at the low end. */
  method TrimTo(tab: seq<Limb>, k: nat) returns (t: seq<Limb>)
    requires k < 64 * |tab| && Val(tab) >= Pow2(k)
    ensures 1 <= |t| <= |tab| && t[0] != 0 && Val(t) * Pow(|tab| - |t|) == (Val(tab) / Pow2(k)) * Pow2(k)
            && t[|t| - 1] == TopAfter(tab, k)
  {
    hide Val, Pow, Pow2;
    var i := k / 64;
    Pow2Position(k);
    BitInLimb(k % 64);
    DropLimbs(tab, i);
    t := tab[i..];
    var low := t[0] as nat % Pow2(k % 64);
    t := t[0 := t[0] - low];
    assert tab[i..][0] == tab[i];
    Cleared(tab, k, i, t);
    ghost var goal := (Val(tab) / Pow2(k)) * Pow2(k);
    PositiveGoal(Val(tab), Pow2(k));
    while t[0] == 0
      invariant 1 <= |t| <= |tab| && Val(t) * Pow(|tab| - |t|) == goal && goal > 0 && t[|t| - 1] == TopAfter(tab, k)
      decreases |t|
    {
      ValFirst(t);
      NextPow(|tab| - |t|);
      ZeroLow(Val(t), Val(t[1..]), Pow(|tab| - |t|), goal);
      if |t| == 1 { assert t[1..] == []; EmptyTable(); }
      t := t[1..];
    }
  }

  /** The top limb with the bits below `k` cleared. */
  ghost function TopAfter(tab: seq<Limb>, k: nat): int
    requires tab != []
  {
    hide Pow2;
    var x: int := tab[|tab| - 1];
    if k / 64 == |tab| - 1 then x - x % Pow2(k % 64) else x
  }

  lemma {:induction false} PositiveGoal(v: nat, p: nat)
    requires v >= p > 0
    ensures (v / p) * p > 0
  {
    var q := v / p;
    assert v == q * p + v % p;
    if q >= 1 { MulMono(p, 1, q); } else { MulMono(p, q, 0); }
  }

  lemma {:induction false} ZeroLow(v: nat, h: nat, p: nat, goal: nat)
    requires v == B * h && v * p == goal && goal > 0
    ensures h * (B * p) == goal && h > 0
  {
    assert (B * h) * p == h * (B * p);
    assert h == 0 ==> v == 0;
  }

  lemma {:induction false} Cleared(tab: seq<Limb>, k: nat, i: nat, t: seq<Limb>)
    requires k < 64 * |tab| && i == k / 64 && t == tab[i..][0 := tab[i] - tab[i] % Pow2(k % 64)]
    ensures Val(t) * Pow(i) == (Val(tab) / Pow2(k)) * Pow2(k)
  {
    hide Val, Pow, Pow2;
    var p, q := Pow2(k % 64), Pow2(64 - k % 64);
    Pow2Position(k);
    DropLimbs(tab, i);
    var x := Val(tab[i..]);
    DivDiv(Val(tab), Pow(i), p);
    ValUpdate(tab[i..], 0, t[0]);
    EmptyTable();
    ValFirst(tab[i..]);
    LowOfSum(tab[i], Val(tab[i..][1..]), p, q, x);
    // Val(t) == (x / p) * p
    assert Val(t) == x - x % p;
    assert x - x % p == (x / p) * p;
    assert ((x / p) * p) * Pow(i) == (x / p) * (Pow(i) * p);
  }

  /** The low bits of a number are those of its low limb. */
  lemma {:induction false} LowOfSum(a: nat, h: nat, p: nat, q: nat, x: nat)
    requires p > 0 && p * q == B && x == a + B * h
    ensures x % p == a % p
  {
    MulAssoc(p, q, h);
    AddMultiple(a, q * h, p);
    assert p * (q * h) == (q * h) * p;
  }

  // ---------- leading bits ----------

  /** The number of leading zero bits of a limb. */
  function Clz(x: Limb): (n: nat)
    ensures n <= 64 && x < Pow2(64 - n) && (n < 64 ==> x >= Pow2(63 - n)) && (n == 64 <==> x == 0)
  {
    Pow2Limb();
    CountZeros(x, 64)
  }

  function CountZeros(x: nat, n: nat): (z: nat)
    requires x < Pow2(n)
    ensures z <= n && x < Pow2(n - z) && (z < n ==> x >= Pow2(n - 1 - z)) && (z == n <==> x == 0)
  {
    if n == 0 || x >= Pow2(n - 1) then 0 else 1 + CountZeros(x, n - 1)
  }
}
