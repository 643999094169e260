/** Bit fields of limb tables: reading and writing 64 bits at any bit position. */
module Bits {
  import opened Arith
  import opened Powers
  import opened Limbs
  import opened Kernels

  // ---------- floor division ----------

  /** A quotient is known by its remainder. */
  lemma {:induction false} DivUnique(a: int, d: int, q: int, r: int)
    requires d > 0 && 0 <= r < d && a == q * d + r
    ensures a / d == q && a % d == r
  {
    var q', r' := a / d, a % d;
    assert (q - q') * d == r' - r;
    if q > q' { MulMono(d, 1, q - q'); }
    if q < q' { MulMono(d, q - q', -1); }
  }

  lemma {:induction false} DivDiv(v: nat, a: nat, b: nat)
    requires a > 0 && b > 0
    ensures a * b > 0 && v / (a * b) == (v / a) / b
    ensures v % (a * b) == v % a + a * ((v / a) % b)
  {
    var x, r := v / a, v % a;
    NestedDivision(v, a, b, x, r, x / b, x % b, a * b);
  }

  lemma {:induction false} NestedDivision(v: nat, a: nat, b: nat, x: nat, r: nat, q: nat, s: nat, ab: int)
    requires r < a && s < b && v == x * a + r && x == q * b + s && ab == a * b
    ensures ab > 0 && v / ab == q && v % ab == r + a * s
  {
    NestedQuotient(q, b, s, a, r);
    DivUnique(v, ab, q, s * a + r);
  }

  lemma {:induction false} NestedQuotient(q: nat, b: nat, s: nat, a: nat, r: nat)
    requires s < b && r < a
    ensures (q * b + s) * a + r == q * (a * b) + (s * a + r)
    ensures 0 <= s * a + r < a * b
  {
    assert (q * b) * a == q * (a * b);
    MulMono(a, s + 1, b);
  }

  // ---------- powers of two and limbs ----------

  lemma {:induction false} Pow2Limbs(i: nat)
    ensures Pow2(64 * i) == Pow(i)
  {
    if i > 0 {
      Pow2Limbs(i - 1);
      Pow2Add(64, 64 * (i - 1));
      Pow2Limb();
    }
  }

  lemma {:induction false} Pow2Position(pos: nat)
    ensures Pow2(pos) == Pow(pos / 64) * Pow2(pos % 64)
    ensures Pow2(pos % 64) * Pow2(64 - pos % 64) == B
  {
    Pow2Limbs(pos / 64);
    Pow2Add(64 * (pos / 64), pos % 64);
    Pow2Add(pos % 64, 64 - pos % 64);
    Pow2Limb();
  }

  /** Limb `i`, with zeros past the end. */
  function LimbAt(s: seq<Limb>, i: int): (x: Limb) {
    if 0 <= i < |s| then s[i] else 0
  }

  lemma {:induction false} DropLimbs(s: seq<Limb>, i: nat)
    ensures Val(s) / Pow(i) == if i < |s| then Val(s[i..]) else 0
    ensures i <= |s| ==> Val(s) % Pow(i) == Val(s[..i])
  {
    hide Val, Pow;
    if i < |s| {
      ValSplit(s, i);
      ValBound(s[..i]);
      DivUnique(Val(s), Pow(i), Val(s[i..]), Val(s[..i]));
    } else {
      ValBound(s);
      PowMono(|s|, i);
      DivUnique(Val(s), Pow(i), 0, Val(s));
      if i == |s| { assert s[..i] == s; }
    }
  }

  /** A number shifted down to limb `i` starts with that limb. */
  lemma {:induction false} LimbsFrom(s: seq<Limb>, i: nat)
    ensures Val(s) / Pow(i) == LimbAt(s, i) as int + B * (Val(s) / Pow(i + 1))
  {
    DropLimbs(s, i);
    DropLimbs(s, i + 1);
    if i < |s| {
      assert s[i..][1..] == s[i + 1..];
      if i + 1 == |s| { assert s[i + 1..] == []; }
    }
  }

  // ---------- reading ----------

  /** The word made of the upper bits of `a0` and the lower bits of `a1`. */
  function JoinWords(a0: Limb, a1: Limb, p: nat, q: nat): (r: Limb)
    requires p > 0 && p * q == B
    ensures forall y: int :: y >= 0 ==> r as int == FieldOf(a0, a1, y, p)
  {
    JoinedBits(a0, a1, p, q);
    a0 / p + (a1 as nat * q) % B
  }

  /** The low word of `a0 + B a1 + B^2 y`, shifted down by `p`. */
  ghost function FieldOf(a0: int, a1: int, y: int, p: int): int
    requires p > 0
  {
    ((a0 + B * (a1 + B * y)) / p) % B
  }

  lemma {:induction false} JoinedBits(a0: nat, a1: nat, p: nat, q: nat)
    requires a0 < B && a1 < B && p > 0 && p * q == B
    ensures a0 / p + (a1 * q) % B < B
    ensures forall y: int :: y >= 0 ==> FieldOf(a0, a1, y, p) == a0 / p + (a1 * q) % B
  {
    hide FieldOf;
    ShiftedWord(a1, q, p);
    var h, l := a1 / p, a1 % p;
    var d := a0 / p;
    assert d < q by { if d >= q { MulMono(p, q, d); } }
    ScaledLess(d, q, l, p);
    forall y: int | y >= 0
      ensures FieldOf(a0, a1, y, p) == d + l * q
    {
      FieldValue(a0, a1, y, p, q, h, l, d);
    }
  }

  lemma {:induction false} FieldValue(a0: nat, a1: nat, y: nat, p: nat, q: nat, h: nat, l: nat, d: nat)
    requires p > 0 && p * q == B && h == a1 / p && l == a1 % p && d == a0 / p && d + l * q < B
    ensures FieldOf(a0, a1, y, p) == d + l * q
  {
    var z := a1 + B * y;
    ShiftField(a0, z, p, q);
    assert q * a1 == h * B + l * q by { assert a1 == h * p + l; Unfold(q, h, p, l); }
    FieldHigh(q, a1, y);
    assert B * (q * y) == (q * y) * B && B * h == h * B;
    LowWord(d + q * z, h, q * y, d + l * q);
  }

  lemma {:induction false} LowWord(x: int, h: int, k: int, r: int)
    requires 0 <= r < B && x == h * B + k * B + r
    ensures x % B == r
  {
    DivUnique(x, B, h + k, r);
  }

  lemma {:induction false} Unfold(q: int, h: int, p: int, l: int)
    ensures q * (h * p + l) == h * (p * q) + l * q
  {
    assert q * (h * p) == h * (p * q);
  }

  lemma {:induction false} ShiftField(a0: nat, z: nat, p: nat, q: nat)
    requires p > 0 && p * q == B
    ensures (a0 + B * z) / p == a0 / p + q * z
  {
    var d, e := a0 / p, a0 % p;
    assert B * z == p * (q * z) by { MulAssoc(p, q, z); }
    var w := q * z;
    assert p * (d + w) == p * d + p * w by { MulDist(p, d, w); }
    DivUnique(a0 + B * z, p, d + w, e);
  }

  lemma {:induction false} FieldHigh(q: int, a1: int, y: int)
    ensures q * (a1 + B * y) == q * a1 + B * (q * y)
  {
  }

  /** The bits of a number from position `pos` on; before position 0 there are zeros. */
  ghost function ShiftTo(v: nat, pos: int): int {
    hide Pow2;
    if pos >= 0 then v / Pow2(pos) else v * Pow2(-pos)
  }

  /** What lies above the two limbs that a read at `pos` joins. */
  ghost function Above(v: nat, pos: int): nat {
    if pos >= 0 then v / Pow(pos / 64 + 2) else if pos > -64 then v / B else 0
  }

  lemma {:induction false} ReadForward(tab: seq<Limb>, pos: nat)
    ensures var i := pos / 64;
            FieldOf(LimbAt(tab, i), LimbAt(tab, i + 1), Above(Val(tab), pos), Pow2(pos % 64)) == ShiftTo(Val(tab),
                 pos) % B
  {
    hide Pow2, Val, Pow, LimbAt;
    var i := pos / 64;
    LimbsFrom(tab, i);
    LimbsFrom(tab, i + 1);
    Pow2Position(pos);
    DivDiv(Val(tab), Pow(i), Pow2(pos % 64));
  }

  lemma {:induction false} ReadBackward(tab: seq<Limb>, s: nat)
    requires s > 0
    ensures var i := -(s as int) / 64;
            FieldOf(LimbAt(tab, i), LimbAt(tab, i + 1), Above(Val(tab), -(s as int)),
                    Pow2(-(s as int) % 64)) == ShiftTo(Val(tab), -(s as int)) % B
  {
    hide Pow2, Val, FieldOf, Pow;
    var v, p := Val(tab), -(s as int) % 64;
    assert LimbAt(tab, -(s as int) / 64) == 0;
    if s < 64 {
      assert p == 64 - s;
      LimbsFrom(tab, 0);
      OnePow();
      Pow2Position(64 - s);
      FieldOfLow(v, LimbAt(tab, 0), v / B, Pow2(p), Pow2(s));
    } else {
      Pow2Add(64, s - 64);
      Pow2Limb();
      var a := LimbAt(tab, -(s as int) / 64 + 1);
      ZeroShift();
      assert p == 0 || a == 0;
      NoLowBits(v, Pow2(s - 64), a, Pow2(p));
    }
  }

  lemma {:induction false} FieldOfLow(v: nat, a: nat, y: nat, p: nat, q: nat)
    requires v == a + B * y && p > 0 && p * q == B
    ensures FieldOf(0, a, y, p) == (v * q) % B
  {
    assert B * v == (v * q) * p;
    DivUnique(B * v, p, v * q, 0);
  }

  lemma {:induction false} ZeroShift()
    ensures Pow2(0) == 1
  {
  }

  lemma {:induction false} NoLowBits(v: nat, c: nat, a: nat, p: nat)
    requires p > 0 && (p == 1 || a == 0)
    ensures FieldOf(0, a, 0, p) == 0 == (v * (B * c)) % B
  {
    DivUnique(0, p, 0, 0);
    DivUnique(B * a, B, a, 0);
    assert v * (B * c) == (v * c) * B;
    DivUnique(v * (B * c), B, v * c, 0);
  }

  /** 64 bits of a table from bit position `pos` on. */
  function GetBits(tab: seq<Limb>, pos: int): (r: Limb)
    ensures r as int == ShiftTo(Val(tab), pos) % B
  {
    hide Pow2, Val, Pow, FieldOf, LimbAt, ShiftTo, Above;
    var i, p := pos / 64, pos % 64;
    var a0, a1 := LimbAt(tab, i), LimbAt(tab, i + 1);
    ReadField(tab, pos);
    if p == 0 then a0 else JoinWords(a0, a1, Pow2(p), Pow2(64 - p))
  }

  lemma {:induction false} ReadField(tab: seq<Limb>, pos: int)
    ensures var i, p := pos / 64, pos % 64;
            && FieldOf(LimbAt(tab, i), LimbAt(tab, i + 1), Above(Val(tab), pos), Pow2(p)) == ShiftTo(Val(tab), pos) % B
            && Pow2(p) * Pow2(64 - p) == B
            && (p == 0 ==> LimbAt(tab, i) as int == ShiftTo(Val(tab), pos) % B)
  {
    hide Pow2, Val, Pow, LimbAt, ShiftTo, Above, FieldOf;
    var i, p := pos / 64, pos % 64;
    if pos >= 0 { ReadForward(tab, pos); } else { ReadBackward(tab, -pos); }
    Pow2Position(p);
    if p == 0 {
      AlignedField(LimbAt(tab, i), LimbAt(tab, i + 1), Above(Val(tab), pos));
    }
  }

  lemma {:induction false} AlignedField(a0: nat, a1: nat, y: nat)
    requires a0 < B
    ensures FieldOf(a0, a1, y, Pow2(0)) == a0
  {
    var z := a1 + B * y;
    DivUnique(a0 + B * z, B, z, a0);
  }

  // ---------- writing ----------

  /** Bitwise or. */
  function BitOr(a: nat, b: nat): (r: nat)
    decreases a + b
  {
    if a == 0 && b == 0 then 0
    else (if a % 2 == 1 || b % 2 == 1 then 1 else 0) + 2 * BitOr(a / 2, b / 2)
  }

  /** Or-ing fields that do not meet adds them. */
  lemma {:induction false} OrDisjoint(a: nat, b: nat, p: nat)
    requires a < Pow2(p)
    ensures BitOr(a, b * Pow2(p)) == a + b * Pow2(p)
    decreases p, b
  {
    if p > 0 {
      var c := b * Pow2(p - 1);
      assert b * Pow2(p) == 2 * c;
      assert (2 * c) / 2 == c;
      OrDisjoint(a / 2, b, p - 1);
    } else if b > 0 {
      OrDisjoint(0, b / 2, 0);
    }
  }

  lemma {:induction false} ValUpdate(s: seq<Limb>, i: nat, x: Limb)
    requires i < |s|
    ensures Val(s[i := x]) == Val(s) + (x as int - s[i]) * Pow(i)
  {
    hide Val, Pow;
    var t := s[i := x];
    ValAt(s, i);
    ValAt(t, i);
    assert t[..i] == s[..i] && t[i + 1..] == s[i + 1..];
    var a: int, b: int := Val(t[i..]), Val(s[i..]);
    assert a - b == x as int - s[i];
    MulDist(Pow(i), a, -b);
  }

  /** `tab` holds the low limbs of `v`. */
  ghost predicate Holds(s: seq<Limb>, v: nat) { Val(s) == v % Pow(|s|) }

  lemma {:induction false} BelowDivisor(v: nat, d: nat)
    requires v < d
    ensures v / d == 0 && v % d == v
  {
    DivUnique(v, d, 0, v);
  }

  /** Limb `i` of a held number. */
  lemma {:induction false} HeldLimb(s: seq<Limb>, v: nat, i: nat, p: nat)
    requires Holds(s, v) && i < |s| && v < Pow(i) * p && 0 < p < B
    ensures Val(s) == v && s[i] < p
    ensures i + 1 < |s| ==> s[i + 1] == 0
  {
    hide Val, Pow;
    PowMono(i + 1, |s|);
    assert Pow(i + 1) == B * Pow(i) by { PowAdd(1, i); OnePow(); }
    MulMono(Pow(i), p, B);
    DivUnique(v, Pow(|s|), 0, v);
    LimbsFrom(s, i);
    LimbsFrom(s, i + 1);
    var q := v / Pow(i);
    assert q < p by { if q >= p { MulMono(Pow(i), p, q); } }
    BelowDivisor(v, Pow(i + 1));
  }

  lemma {:induction false} ShiftedWord(val: nat, p: nat, q: nat)
    requires p > 0 && p * q == B
    ensures (val * p) % B == (val % q) * p && (val * p) / B == val / q
  {
    var h, l := val / q, val % q;
    assert (h * q) * p == h * B;
    MulMono(p, l + 1, q);
    assert val * p == h * B + l * p;
    DivUnique(val * p, B, h, l * p);
  }

  /** The low part of a word or-ed above `p` bits already there. */
  function OrLow(x: Limb, val: Limb, p: nat): (r: Limb)
    requires p < 64 && x < Pow2(p)
    ensures r as int == x as int + (val as nat * Pow2(p)) % B
  {
    hide Pow2, BitOr;
    Pow2Position(p);
    ShiftedWord(val, Pow2(p), Pow2(64 - p));
    OrDisjoint(x, val as nat % Pow2(64 - p), p);
    OrFits(x, val as nat % Pow2(64 - p), Pow2(p), Pow2(64 - p));
    BitOr(x, (val as nat * Pow2(p)) % B)
  }

  lemma {:induction false} OrFits(x: nat, y: nat, p: nat, q: nat)
    requires x < p && y < q && p * q == B
    ensures x + y * p < B
  {
    ScaledLess(x, p, y, q);
  }

  function OrHigh(x: Limb, val: Limb, p: nat): (r: Limb)
    requires 0 < p < 64 && x == 0
    ensures r as int == (val as nat * Pow2(p)) / B
  {
    hide Pow2, BitOr;
    Pow2Position(p);
    ShiftedWord(val, Pow2(p), Pow2(64 - p));
    OrZero(val as nat / Pow2(64 - p));
    BitOr(x, val as nat / Pow2(64 - p))
  }

  lemma {:induction false} OrZero(y: nat)
    ensures BitOr(0, y) == y
  {
    OrDisjoint(0, y, 0);
  }

  /** Ors a word into the table at bit position `pos`; bits past the end are dropped. */
  method PutBits(tab: array<Limb>, pos: nat, val: Limb, ghost v: nat)
    requires Holds(tab[..], v) && v < Pow2(pos)
    modifies tab
    ensures Holds(tab[..], v + val as nat * Pow2(pos))
  {
    hide Pow2, Val, Pow, Holds, BitOr, OrLow, OrHigh;
    var i, p := pos / 64, pos % 64;
    ghost var s := tab[..];
    PositionFree(s, v, pos);
    if i < tab.Length {
      tab[i] := OrLow(tab[i], val, p);
    }
    if p != 0 {
      if i + 1 < tab.Length {
        tab[i + 1] := OrHigh(tab[i + 1], val, p);
      }
    }
    ghost var w := val as nat * Pow2(p);
    assert p == 0 ==> w / B == 0 by { if p == 0 { WordAtZero(val); } }
    assert tab[..] == Added(s, i, w % B, w / B);
    AddedHolds(s, tab[..], v, val, pos, w);
  }

  lemma {:induction false} WordAtZero(val: Limb)
    ensures (val as nat * Pow2(0)) / B == 0
  {
    assert Pow2(0) == 1;
  }

  lemma {:induction false} PositionFree(s: seq<Limb>, v: nat, pos: nat)
    requires Holds(s, v) && v < Pow2(pos)
    ensures pos / 64 < |s| ==> Val(s) == v && s[pos / 64] < Pow2(pos % 64)
    ensures pos / 64 + 1 < |s| ==> s[pos / 64 + 1] == 0
  {
    hide Holds, Pow2, Pow;
    Pow2Position(pos);
    var p, q := Pow2(pos % 64), Pow2(64 - pos % 64);
    assert q >= 2 by { assert 64 - pos % 64 >= 1; AtLeastTwo(64 - pos % 64); }
    MulMono(p, 2, q);
    if pos / 64 < |s| { HeldLimb(s, v, pos / 64, p); }
  }

  lemma {:induction false} AtLeastTwo(n: nat)
    requires n >= 1
    ensures Pow2(n) >= 2
  {
  }

  /** Two words added at limbs `i` and `i + 1`, as far as the table reaches. */
  ghost function Added(s: seq<Limb>, i: nat, lo: int, hi: int): (t: seq<int>)
    ensures |t| == |s|
  {
    seq(|s|, k requires 0 <= k < |s| => if k == i then s[k] as int + lo else if k == i + 1 then s[k] as int + hi
        else s[k] as int)
  }

  lemma {:induction false} AddedHolds(s: seq<Limb>, t: seq<Limb>, v: nat, val: Limb, pos: nat, w: nat)
    requires Holds(s, v) && v < Pow2(pos) && w == val as nat * Pow2(pos % 64)
    requires t == Added(s, pos / 64, w % B, w / B)
    ensures Holds(t, v + val as nat * Pow2(pos))
  {
    hide Pow2, Val, Pow, Holds;
    var i, p := pos / 64, Pow2(pos % 64);
    Pow2Position(pos);
    MoveFactor(val, Pow(i), p, Pow2(pos));
    if i >= |s| {
      assert t == s;
      AddedBeyond(s, v, w, i);
    } else {
      PositionFree(s, v, pos);
      AddedWithin(s, t, v, w, i);
    }
  }

  lemma {:induction false} MoveFactor(x: nat, a: nat, p: nat, ap: nat)
    requires ap == a * p
    ensures x * ap == (x * p) * a
  {
  }

  /** Nothing of a word beyond the end is seen. */
  lemma {:induction false} AddedBeyond(s: seq<Limb>, v: nat, w: nat, i: nat)
    requires Holds(s, v) && i >= |s|
    ensures Holds(s, v + w * Pow(i))
  {
    hide Val, Pow;
    var n := |s|;
    PowAdd(n, i - n);
    MoveFactor(w, Pow(n), Pow(i - n), Pow(i));
    AddMultiple(v, w * Pow(i - n), Pow(n));
  }

  lemma {:induction false} AddedWithin(s: seq<Limb>, t: seq<Limb>, v: nat, w: nat, i: nat)
    requires i < |s| && Val(s) == v && t == Added(s, i, w % B, w / B)
    ensures Holds(t, v + w * Pow(i))
  {
    hide Val, Pow;
    var n, lo, hi := |s|, w % B, w / B;
    ValUpdate(s, i, t[i]);
    var u := s[i := t[i]];
    assert Val(u) == v + lo * Pow(i);
    ValBound(t);
    NextPow(i);
    SplitWord(w, lo, hi, Pow(i), Pow(i + 1));
    if i + 1 < n {
      ValUpdate(u, i + 1, t[i + 1]);
      assert t == u[i + 1 := t[i + 1]];
      BelowDivisor(Val(t), Pow(n));
    } else {
      assert t == u;
      DivUnique(v + w * Pow(i), Pow(n), hi, Val(t));
    }
  }

  lemma {:induction false} NextPow(i: nat)
    ensures Pow(i + 1) == B * Pow(i)
  {
  }

  lemma {:induction false} OnePow()
    ensures Pow(1) == B
  {
    assert Pow(1) == B * Pow(0);
  }

  lemma {:induction false} SplitWord(w: nat, lo: nat, hi: nat, p: nat, p': nat)
    requires w == hi * B + lo && p' == B * p
    ensures w * p == lo * p + hi * p'
  {
  }

  lemma {:induction false} AddMultiple(v: nat, k: nat, d: nat)
    requires d > 0
    ensures (v + k * d) % d == v % d
  {
    DivUnique(v + k * d, d, v / d + k, v % d);
  }

  // ---------- low bits ----------

  /** The bits of the topmost word of a digit. A shift of zero keeps the whole word. */
  function Masked(x: Limb, shift: nat): (r: Limb)
    requires shift < 64
    ensures r as int == x as int % Pow2(if shift == 0 then 64 else shift)
  {
    Pow2Limb();
    if shift == 0 then x else LowBits(x, shift)
  }

  /** Masking the low word of a number masks the number. */
  lemma {:induction false} MaskedLow(x: nat, n: nat)
    requires 1 <= n <= 64
    ensures (x % B) % Pow2(n) == x % Pow2(n)
  {
    hide Pow2;
    Pow2Add(n, 64 - n);
    Pow2Limb();
    var p, q := Pow2(n), Pow2(64 - n);
    DivDiv(x, p, q);
    var r, t := x % p, (x / p) % q;
    assert x % B == r + p * t;
    assert p * t == t * p;
    DivUnique(r + p * t, p, t, r);
  }

  lemma {:induction false} NoLimbs(s: seq<Limb>)
    ensures Val(s[..0]) == 0
  {
  }

  lemma {:induction false} LowPart(u: seq<Limb>, w: nat, top: nat)
    requires 1 <= w <= 64 * |u| && top == (w - 1) / 64
    ensures Val(u) % Pow2(w) == Val(u[..top]) + Masked(u[top], w % 64) as nat * Pow(top)
  {
    hide Val, Pow, Pow2, Masked;
    TopBits(u, w, top);
    LowSplit(u, top, w - 64 * top, w, Masked(u[top], w % 64));
  }

  lemma {:induction false} LowSplit(u: seq<Limb>, top: nat, n: nat, w: nat, x: nat)
    requires top <= |u| && w == 64 * top + n && Val(u[top..]) % Pow2(n) == x
    ensures Val(u) % Pow2(w) == Val(u[..top]) + x * Pow(top)
  {
    hide Val, Pow, Pow2;
    Pow2Add(64 * top, n);
    Pow2Limbs(top);
    DropLimbs(u, top);
    assert Val(u) / Pow(top) == Val(u[top..]) by { if top == |u| { NoLimbs(u[top..]); assert u[top..] == u[top..][..0];
                                                                  } }
    SplitRemainder(Val(u), Pow(top), Pow2(n), Pow2(w), Val(u[..top]), Val(u[top..]), x);
  }

  lemma {:induction false} SplitRemainder(v: nat, p: nat, q: nat, pq: nat, lo: nat, h: nat, x: nat)
    requires p > 0 && q > 0 && pq == p * q && pq > 0 && v % p == lo && v / p == h && h % q == x
    ensures v % pq == lo + x * p
  {
    DivDiv(v, p, q);
  }

  lemma {:induction false} TopBits(u: seq<Limb>, w: nat, top: nat)
    requires 1 <= w <= 64 * |u| && top == (w - 1) / 64
    ensures Val(u[top..]) % Pow2(w - 64 * top) == Masked(u[top], w % 64) as int
  {
    hide Val, Pow, Pow2, Masked;
    var n := w - 64 * top;
    ValAt(u, top);
    LowLimb(u[top], Val(u[top + 1..]));
    MaskedLow(Val(u[top..]), n);
    assert n == if w % 64 == 0 then 64 else w % 64;
  }

  lemma {:induction false} LowLimb(x: Limb, h: nat)
    ensures (x as int + B * h) % B == x
  {
    DivUnique(x as int + B * h, B, h, x);
  }
}
