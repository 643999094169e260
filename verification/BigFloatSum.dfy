/** Adding and subtracting aligned mantissas limb by limb, keeping only the leading limbs and whether anything was below
    them. */
module BigFloatSum {
  import opened Arith
  import opened Powers
  import opened Limbs
  import opened Kernels
  import opened Bits
  import opened Rounding
  import opened BigFloatBits
  import opened BigFloatCancel

  // ---------- carries ----------

  /** `low` and the carry `c` are the sum, or the difference plus `p`, of two numbers below `p`. */
  ghost predicate Carries(low: int, c: nat, p: int, x: int, y: int, sub: bool) {
    0 <= low < p && c <= 1 && low + c * p == x + (if sub then p - y else y)
  }

  /** What is added to a limb of the first operand. */
  function Addend(y: Limb, sub: bool): (w: Limb) { if sub then B - 1 - y else y }

  lemma {:induction false} CarriesNext(low: int, c: nat, p: int, al: int, bl: int, sub: bool, x: Limb, y: Limb, u: Limb,
                                       c': Limb)
    requires Carries(low, c, p, al, bl, sub) && u as int + c' as int * B == x as int + Addend(y, sub) as int + c
             && c' <= 1
    ensures Carries(low + u as int * p, c', B * p, al + p * x as int, bl + p * y as int, sub)
  {
    var ui: int, xi: int, yi: int, ci: int, wi: int := u, x, y, c', Addend(y, sub);
    assert (ui + ci * B) * p == ui * p + ci * (B * p);
    assert (xi + wi + c) * p == p * xi + p * wi + c * p;
    assert sub ==> p * wi == B * p - p - p * yi by { if sub { assert p * (B - 1 - yi) == B * p - p - p * yi; } }
    MulMono(p, ui, B - 1);
    MulMono(p, 0, ui);
  }

  lemma {:induction false} NonNegativeLow(low: int, c: nat, p: int, x: int, y: int, sub: bool)
    requires Carries(low, c, p, x, y, sub)
    ensures low >= 0
  {
  }

  /** Over limbs that are zero in both operands the carry stays as it is after the first of them. */
  ghost function GapLow(low: int, c: nat, p: int, p': int, sub: bool): int {
    if sub then (if c == 1 then low else low - p + p') else low + c * p
  }

  lemma {:induction false} CarriesAcross(low: int, c: nat, p: int, p': int, al: int, bl: int, sub: bool, u: Limb,
                                         c': Limb)
    requires Carries(low, c, p, al, bl, sub) && u as int + c' as int * B == Addend(0, sub) as int + c && c' <= 1
             && B * p <= p'
    ensures Carries(GapLow(low, c, p, p', sub), c', p', al, bl, sub)
    ensures GapLow(low, c, p, p', sub) >= 0
    ensures GapLow(low, c, p, p', sub) == 0 <==> low == 0 && u == 0
  {
    if sub {
      assert c == 1 ==> u == 0 && c' == 1;
      assert c == 0 ==> u == B - 1 && c' == 0;
    } else {
      assert u == c && c' == 0;
    }
  }

  lemma {:induction false} OrNonZero(a: nat, b: nat)
    ensures BitOr(a, b) != 0 <==> a != 0 || b != 0
    decreases a + b
  {
    if a != 0 || b != 0 { OrNonZero(a / 2, b / 2); }
  }

  // ---------- the limbs of the aligned operands ----------

  /** All limbs of a number but the last `j` are its leading ones. */
  lemma {:induction false} DropLow(v: nat, pos: int, t: nat, j: nat)
    requires j <= t
    ensures Lead(v, pos, t) / Pow(j) == Lead(v, pos, t - j) && Lead(v, pos, t) >= 0 && Lead(v, pos, t - j) >= 0
  {
    hide Pow, Lead;
    LeadNext(v, pos, t);
    LeadNext(v, pos, t - j);
    LeadSpread(v, pos, t - j, t);
    var x, z := Lead(v, pos, t - j), Lead(v, pos, t);
    assert (x + 1) * Pow(j) == x * Pow(j) + Pow(j);
    DivUnique(z, Pow(j), x, z - x * Pow(j));
  }

  /** The low part of a number with one more limb. */
  lemma {:induction false} LowNext(v: nat, pos: int, t: nat, j: nat)
    requires j < t
    ensures Lead(v, pos, t) % Pow(j + 1) == Lead(v, pos, t) % Pow(j) + Pow(j) * (ShiftTo(v, pos - 64 * (t - j)) % B)
  {
    hide Pow, ShiftTo;
    DropLow(v, pos, t, j);
    NextPow(j);
    DivDiv(Lead(v, pos, t), Pow(j), B);
    assert B * Pow(j) == Pow(j) * B;
  }

  /** A number that ends above its last `j` limbs is zero there. */
  lemma {:induction false} LowZero(v: nat, pos: int, t: nat, j: nat)
    requires pos + 64 * j <= 64 * t
    ensures Lead(v, pos, t) % Pow(j) == 0
  {
    hide Pow, Pow2;
    Pow2Limbs(j);
    var s := 64 * t - pos - 64 * j;
    Pow2Add(s, 64 * j);
    ZeroShift();
    var x := v * Pow2(s);
    MulAssoc(v, Pow2(s), Pow(j));
    DivUnique(x * Pow(j), Pow(j), x, 0);
    if s == 0 && j == 0 { assert v / 1 == v; }
  }

  /** A number that lies in its last `j` limbs is all there. */
  lemma {:induction false} LowWhole(v: nat, pos: int, t: nat, j: nat, j': nat)
    requires j <= j' <= t && Lead(v, pos, t - j) == 0
    ensures Lead(v, pos, t) % Pow(j) == Lead(v, pos, t) % Pow(j')
  {
    hide Pow, Lead;
    LeadSpread(v, pos, t - j, t);
    LeadNext(v, pos, t);
    PowMono(j, j');
    BelowDivisor(Lead(v, pos, t), Pow(j));
    BelowDivisor(Lead(v, pos, t), Pow(j'));
  }

  lemma {:induction false} AboveTable(tab: seq<Limb>, pos: int)
    requires pos >= 64 * |tab|
    ensures ShiftTo(Val(tab), pos) == 0 && GetBits(tab, pos) == 0
  {
    hide Pow2, Val, GetBits;
    TableBelow(tab);
    Pow2Mono(64 * |tab|, pos);
    BelowDivisor(Val(tab), Pow2(pos));
  }

  // ---------- below the kept limbs ----------

  /** The operands of a sum: mantissas, the second `d` bits further down, spread over `t` limbs. */
  ghost function First(ta: seq<Limb>, t: nat): int { Lead(Val(ta), 64 * |ta|, t) }
  ghost function Second(tb: seq<Limb>, d: nat, t: nat): int { Lead(Val(tb), 64 * |tb| + d, t) }

  ghost predicate SumTo(ta: seq<Limb>, tb: seq<Limb>, d: nat, t: nat, sub: bool, j: nat, low: int, c: nat) {
    Carries(low, c, Pow(j), First(ta, t) % Pow(j), Second(tb, d, t) % Pow(j), sub)
  }

  lemma {:induction false} SumNext(ta: seq<Limb>, tb: seq<Limb>, d: nat, t: nat, sub: bool, j: nat, low: int, c: Limb,
                                   x: Limb, y: Limb, u: Limb, c': Limb)
    requires SumTo(ta, tb, d, t, sub, j, low, c) && j < t
    requires x == LimbAt(ta, |ta| - t + j) && y == GetBits(tb, 64 * |tb| + d - 64 * (t - j))
    requires u as int + c' as int * B == x as int + Addend(y, sub) as int + c as int && c' <= 1
    ensures SumTo(ta, tb, d, t, sub, j + 1, low + u as int * Pow(j), c') && low + u as int * Pow(j) >= low >= 0
  {
    hide Pow, First, Second, Carries, LimbAt, GetBits;
    FirstNext(ta, t, j, x);
    SecondNext(tb, d, t, j, y);
    NextPow(j);
    NonNegativeLow(low, c, Pow(j), First(ta, t) % Pow(j), Second(tb, d, t) % Pow(j), sub);
    MulMono(Pow(j), 0, u);
    CarriesNext(low, c, Pow(j), First(ta, t) % Pow(j), Second(tb, d, t) % Pow(j), sub, x, y, u, c');
  }

  lemma {:induction false} FirstNext(ta: seq<Limb>, t: nat, j: nat, x: Limb)
    requires j < t && x == LimbAt(ta, |ta| - t + j)
    ensures First(ta, t) % Pow(j + 1) == First(ta, t) % Pow(j) + Pow(j) * x as int
  {
    hide Pow, Pow2, Val, LimbAt, Lead, ShiftTo, FieldOf, Above;
    LowNext(Val(ta), 64 * |ta|, t, j);
    ReadField(ta, 64 * (|ta| - t + j));
    assert 64 * (|ta| - t + j) == 64 * |ta| - 64 * (t - j);
  }

  lemma {:induction false} SecondNext(tb: seq<Limb>, d: nat, t: nat, j: nat, y: Limb)
    requires j < t && y == GetBits(tb, 64 * |tb| + d - 64 * (t - j))
    ensures Second(tb, d, t) % Pow(j + 1) == Second(tb, d, t) % Pow(j) + Pow(j) * y as int
  {
    hide Pow, Pow2, Val, GetBits, Lead, ShiftTo;
    LowNext(Val(tb), 64 * |tb| + d, t, j);
  }

  lemma {:induction false} SumAcross(ta: seq<Limb>, tb: seq<Limb>, d: nat, t: nat, sub: bool, j: nat, j': nat, low: int,
                                     c: Limb, u: Limb, c': Limb)
    requires SumTo(ta, tb, d, t, sub, j, low, c) && j < j' <= t && |ta| + j' <= t
    requires 64 * |tb| + d - 64 * (t - j) >= 64 * |tb| || 64 * |tb| + d + 64 * j' <= 64 * t
    requires u as int + c' as int * B == Addend(0, sub) as int + c as int && c' <= 1
    ensures var low' := GapLow(low, c, Pow(j), Pow(j'), sub);
            SumTo(ta, tb, d, t, sub, j', low', c') && low' >= 0 && (low' == 0 <==> low == 0 && u == 0)
  {
    hide Pow, Pow2, Val, GetBits, Lead, Carries;
    PowMono(j, j');
    LowZero(Val(ta), 64 * |ta|, t, j);
    LowZero(Val(ta), 64 * |ta|, t, j');
    if 64 * |tb| + d - 64 * (t - j) >= 64 * |tb| {
      NoLimbsAbove(tb, d, t, j);
      LowWhole(Val(tb), 64 * |tb| + d, t, j, j');
    } else {
      LowZero(Val(tb), 64 * |tb| + d, t, j);
      LowZero(Val(tb), 64 * |tb| + d, t, j');
    }
    CarriesAcross(low, c, Pow(j), Pow(j'), First(ta, t) % Pow(j), Second(tb, d, t) % Pow(j), sub, u, c');
  }

  lemma {:induction false} NoLimbsAbove(tb: seq<Limb>, d: nat, t: nat, j: nat)
    requires j <= t && 64 * |tb| + d - 64 * (t - j) >= 64 * |tb|
    ensures Lead(Val(tb), 64 * |tb| + d, t - j) == 0
  {
    hide ShiftTo;
    AboveTable(tb, 64 * |tb| + d - 64 * (t - j));
  }

  /** Sums the limbs below the ones that are kept, for their carry and for whether any is not zero. Limbs outside both
      operands are passed over, so that the time does not depend on the difference of the exponents. */
  method SumLow(ta: seq<Limb>, tb: seq<Limb>, d: nat, sub: bool, t: nat, kept: nat)
    returns (carry: Limb, z: nat, ghost low: nat)
    requires |ta| <= t && kept <= t
    ensures carry <= 1 && SumTo(ta, tb, d, t, sub, t - kept, low, carry) && (z == 0 <==> low == 0)
  {
    hide Pow, Pow2, Val, LimbAt, GetBits, Carries, SumTo, BitOr, GapLow, AddWord, Addend, ShiftTo, NextInside;
    var aOffset: int, bOffset: int := |ta| - kept, 64 * (|tb| - kept) + d;
    carry, z, low := if sub then 1 else 0, 0, 0;
    SumStart(ta, tb, d, t, sub);
    var i: int := kept - t;
    while i < 0
      invariant kept - t <= i <= 0 && carry <= 1 && (z == 0 <==> low == 0)
      invariant SumTo(ta, tb, d, t, sub, i + t - kept, low, carry)
    {
      var ap, bp := aOffset + i, bOffset + 64 * i;
      ghost var j: nat := i + t - kept;
      assert ap == |ta| - t + j && bp == 64 * |tb| + d - 64 * (t - j);
      var inA, inB := 0 <= ap < |ta|, 0 < bp + 64 && bp < 64 * |tb|;
      var v1 := if inA then ta[ap] else 0;
      var v2 := if inB then GetBits(tb, bp) else 0;
      ReadOutside(ta, tb, ap, bp);
      var w := AddWord(v1, Addend(v2, sub), carry);
      if inA || inB {
        SumNext(ta, tb, d, t, sub, j, low, carry, v1, v2, w.0, w.1);
        NonZeroTop(low, w.0, Pow(j));
        low := low + w.0 as int * Pow(j);
        i := i + 1;
      } else {
        i := NextInside(i, aOffset, bOffset, |ta|, |tb|);
        SumAcross(ta, tb, d, t, sub, j, i + t - kept, low, carry, w.0, w.1);
        low := GapLow(low, carry, Pow(j), Pow(i + t - kept), sub);
      }
      OrNonZero(z, w.0);
      carry, z := w.1, BitOr(z, w.0);
    }
  }

  /** The next place inside an operand, or 0. */
  function NextInside(i: int, aOffset: int, bOffset: int, la: nat, lb: nat): (i': int)
    requires i < 0 && aOffset + i < la && !(0 <= aOffset + i < la)
             && !(0 < bOffset + 64 * i + 64 && bOffset + 64 * i < 64 * lb)
    ensures i < i' <= 0 && aOffset + i' <= 0
    ensures bOffset + 64 * i >= 64 * lb || bOffset + 64 * i' <= 0
  {
    var ia := if aOffset + i < 0 && -aOffset < 0 then -aOffset else 0;
    if bOffset + 64 * i + 64 <= 0 && -bOffset / 64 < ia then -bOffset / 64 else ia
  }

  lemma {:induction false} SumStart(ta: seq<Limb>, tb: seq<Limb>, d: nat, t: nat, sub: bool)
    ensures SumTo(ta, tb, d, t, sub, 0, 0, if sub then 1 else 0)
  {
    hide Val, Lead;
    EmptyTable();
    var x, y := First(ta, t), Second(tb, d, t);
    assert x % 1 == 0 && y % 1 == 0;
  }

  lemma {:induction false} ReadOutside(ta: seq<Limb>, tb: seq<Limb>, ap: int, bp: int)
    ensures LimbAt(ta, ap) == if 0 <= ap < |ta| then ta[ap] else 0
    ensures !(0 < bp + 64 && bp < 64 * |tb|) ==> GetBits(tb, bp) == 0
  {
    hide GetBits;
    if bp + 64 <= 0 { NothingBelow(tb, bp); } else if bp >= 64 * |tb| { AboveTable(tb, bp); }
  }

  // ---------- the kept limbs ----------

  /** Sums the leading limbs. */
  method SumHigh(ta: seq<Limb>, tb: seq<Limb>, d: nat, sub: bool, t: nat, kept: nat, carry0: Limb, ghost low0: nat)
    returns (r: seq<Limb>, carry: Limb, ghost low: nat)
    requires kept <= t && carry0 <= 1 && SumTo(ta, tb, d, t, sub, t - kept, low0, carry0)
    ensures |r| == kept && carry <= 1 && low == low0 + Val(r) * Pow(t - kept) && SumTo(ta, tb, d, t, sub, t, low, carry)
  {
    hide Pow, Pow2, Val, LimbAt, GetBits, Carries, SumTo, AddWord, Addend, ShiftTo;
    var aOffset: int, bOffset: int := |ta| - kept, 64 * (|tb| - kept) + d;
    r, carry, low := [], carry0, low0;
    EmptyTable();
    ghost var s := t - kept;
    for i := 0 to kept
      invariant |r| == i && carry <= 1 && low == low0 + Val(r) * Pow(s) && SumTo(ta, tb, d, t, sub, s + i, low, carry)
    {
      assert aOffset + i == |ta| - t + (s + i) && bOffset + 64 * i == 64 * |tb| + d - 64 * (t - (s + i));
      var v1, v2 := LimbAt(ta, aOffset + i), GetBits(tb, bOffset + 64 * i);
      var w := AddWord(v1, Addend(v2, sub), carry);
      SumNext(ta, tb, d, t, sub, s + i, low, carry, v1, v2, w.0, w.1);
      ValAppend(r, w.0);
      PowAdd(s, i);
      KeptLimb(low0, Val(r), w.0, Pow(i), Pow(s), Pow(s + i));
      r, carry, low := r + [w.0], w.1, low + w.0 as int * Pow(s + i);
    }
  }

  lemma {:induction false} KeptLimb(low: int, v: int, u: int, p: int, q: int, qp: int)
    requires qp == q * p
    ensures low + (v + u * p) * q == low + v * q + u * qp
  {
  }

  /** With all limbs summed, the exact sum or difference. */
  lemma {:induction false} WholeSum(ta: seq<Limb>, tb: seq<Limb>, d: nat, t: nat, sub: bool, low: int, c: nat)
    requires SumTo(ta, tb, d, t, sub, t, low, c)
    ensures !sub ==> low + c * Pow(t) == First(ta, t) + Second(tb, d, t)
    ensures sub && First(ta, t) >= Second(tb, d, t) ==> c == 1 && low == First(ta, t) - Second(tb, d, t)
  {
    hide Pow, Val, Lead;
    NoLead(ta, 0);
    NoLead(tb, d);
    InTable(Val(ta), 64 * |ta|, t);
    InTable(Val(tb), 64 * |tb| + d, t);
  }

  lemma {:induction false} InTable(v: nat, pos: int, t: nat)
    requires Lead(v, pos, 0) == 0
    ensures 0 <= Lead(v, pos, t) < Pow(t) && Lead(v, pos, t) % Pow(t) == Lead(v, pos, t)
  {
    hide Pow, Lead;
    LeadNext(v, pos, t);
    LeadSpread(v, pos, 0, t);
    BelowDivisor(Lead(v, pos, t), Pow(t));
  }

  /** The lowest kept limb with the bit that stands for everything below. */
  function StickyLimb(x: Limb, z: nat): (r: Limb)
    ensures r as nat == if z != 0 && x % 2 == 0 then x + 1 else x
  {
    OrOne(x);
    OrZero(x);
    OrCommutes(x, 0);
    BitOr(x, if z != 0 then 1 else 0)
  }

  lemma {:induction false} OrOne(x: nat)
    ensures BitOr(x, 1) == if x % 2 == 0 then x + 1 else x
  {
    OrCommutes(x / 2, 0);
    OrZero(x / 2);
  }

  lemma {:induction false} OrCommutes(a: nat, b: nat)
    ensures BitOr(a, b) == BitOr(b, a)
    decreases a + b
  {
    if a != 0 || b != 0 { OrCommutes(a / 2, b / 2); }
  }

  /** The table that goes to the rounding: the kept limbs with the sticky bit, and a limb for the carry. */
  function Collected(r: seq<Limb>, z: nat, carry: Limb): (tab: seq<Limb>)
    requires r != [] && carry <= 1
  {
    r[0 := StickyLimb(r[0], z)] + (if carry == 1 then [1] else [])
  }

  lemma {:induction false} CollectedSticky(r: seq<Limb>, z: nat, carry: Limb, low: nat, s: nat, sum: nat)
    requires r != [] && carry <= 1 && (z == 0 <==> low == 0) && low < Pow(s)
    requires sum == low + Val(r) * Pow(s) + carry as nat * Pow(s + |r|)
    ensures Val(Collected(r, z, carry)) == Sticky(sum, 64 * s)
  {
    hide Pow, Pow2, Val, StickyLimb, Sticky;
    var r' := r[0 := StickyLimb(r[0], z)];
    ValUpdate(r, 0, StickyLimb(r[0], z));
    EmptyTable();
    if carry == 1 { ValAppend(r', 1); } else { assert r' + [] == r'; }
    PowAdd(s, |r|);
    var c := Val(r) + carry as nat * Pow(|r|);
    CarryAbove(low, Val(r), carry, Pow(s), Pow(|r|), Pow(s + |r|));
    LowestBit(r);
    EvenLimbs(|r|);
    EvenTerm(Val(r), Pow(|r|), carry);
    StickyOf(sum, s, c, low);
  }

  lemma {:induction false} CarryAbove(low: int, v: int, carry: int, p: int, q: int, pq: int)
    requires pq == p * q
    ensures low + v * p + carry * pq == (v + carry * q) * p + low
  {
  }

  lemma {:induction false} LowestBit(r: seq<Limb>)
    requires r != []
    ensures Val(r) % 2 == r[0] % 2
  {
    hide Val;
    ValFirst(r);
  }

  lemma {:induction false} EvenLimbs(n: nat)
    requires n > 0
    ensures Pow(n) % 2 == 0
  {
    assert Pow(n) == 2 * (0x8000_0000_0000_0000 * Pow(n - 1));
  }

  lemma {:induction false} StickyOf(n: nat, s: nat, c: nat, low: nat)
    requires n == c * Pow(s) + low && low < Pow(s)
    ensures Sticky(n, 64 * s) == if low != 0 && c % 2 == 0 then c + 1 else c
  {
    hide Pow, Pow2;
    Pow2Limbs(s);
    DivUnique(n, Pow(s), c, low);
  }
}
