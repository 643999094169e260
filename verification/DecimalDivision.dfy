/** Long division in base 10^19: the divisor scaled to a large top limb, digits estimated from one limb of it and
    corrected. */
module DecimalDivision {
  import opened Arith
  import opened Limbs
  import opened Kernels
  import opened SchoolbookDivision
  import opened DecimalKernels

  // ---------- scaling ----------

  /** The multiplier lifts the top limb to at least half the base, and the divisor still fits. */
  lemma {:induction false} ScaledTop(r: nat, mult: nat)
    requires 0 < r < D / 2 && mult == D / (r + 1)
    ensures 2 <= mult < D && D / 2 <= r * mult && (r + 1) * mult <= D
  {
    var s := r + 1;
    assert D == mult * s + D % s;
    assert D < (mult + 1) * s by { assert (mult + 1) * s == mult * s + s; }
    if mult < 2 { MulMono(s, mult, 1); }
    if mult >= D { MulMono(s, D, mult); MulMono(D, 2, s); }
    assert r * mult == mult * s - mult;
    if r <= 4 {
      SmallTop(r, mult);
    } else if mult <= D / 6 {
      // two thirds of the base, less the multiplier
      ManyUnits(mult, s);
    } else {
      MulMono(mult, 6, s);
    }
  }

  lemma {:induction false} SmallTop(r: nat, mult: nat)
    requires 0 < r <= 4 && mult == D / (r + 1)
    ensures D / 2 <= r * mult
  {
    if r == 1 { } else if r == 2 { } else if r == 3 { } else { }
  }

  lemma {:induction false} ManyUnits(mult: nat, s: nat)
    requires 2 <= mult <= D / 6 && D < (mult + 1) * s && mult * s <= D
    ensures D / 2 <= mult * s - mult
  {
    // 3 mult >= 2 (mult + 1)
    MulMono(s, 2 * (mult + 1), 3 * mult);
    assert s * (2 * (mult + 1)) == 2 * ((mult + 1) * s) && s * (3 * mult) == 3 * (mult * s);
  }

  // ---------- one digit ----------

  /** A divisor whose top limb is at least half the base. */
  ghost predicate IsDecDivisor(vs: seq<Limb>) { |vs| >= 1 && AllDec(vs) && 2 * vs[|vs| - 1] as int >= D }

  lemma {:induction false} TopOf(s: seq<Limb>, k: nat)
    requires |s| == k + 1 && AllDec(s)
    ensures DVal(s) == s[k] as int * DPow(k) + DVal(s[..k]) && 0 <= DVal(s[..k]) < DPow(k)
  {
    hide DVal, DPow;
    assert s == s[..k] + [s[k]];
    DAppend(s[..k], s[k]);
    DBound(s[..k]);
  }

  /** The estimate is at least the true digit and at most two too large. */
  lemma {:induction false} DecEstimate(u: nat, w: nat, b1: nat, p: nat, low: nat, vlow: nat, q: int, win: int, vb: int)
    requires 2 * b1 >= D && b1 < D && u < D && w < D && low < p && vlow < p
    requires win == (u * D + w) * p + low && vb == b1 * p + vlow && win < vb * D
    requires if u >= b1 then q == D - 1 else q * b1 <= u * D + w < q * b1 + b1
    ensures 0 <= q < D && (q - 2) * vb <= win < (q + 1) * vb
  {
    var t := u * D + w;
    if u >= b1 {
      LargeTop(u, w, b1, p, low, vlow, win, vb);
    } else {
      DigitRange(u, w, b1, q);
      DigitAbove(t, b1, p, low, vlow, q, win, vb);
      DigitBelow(t, b1, p, low, vlow, q, win, vb);
    }
  }

  lemma {:induction false} DigitRange(u: nat, w: nat, b1: nat, q: int)
    requires 0 < b1 && u < b1 && w < D && q * b1 <= u * D + w < q * b1 + b1
    ensures 0 <= q < D
  {
    MulMono(D, u + 1, b1);
    MulMono(D, 0, u);
    if q >= D { MulMono(b1, D, q); }
    if q < 0 { MulMono(b1, q, -1); }
  }

  lemma {:induction false} DigitAbove(t: int, b1: int, p: int, low: int, vlow: int, q: int, win: int, vb: int)
    requires p > 0 && 0 <= low < p && 0 <= vlow && win == t * p + low && vb == b1 * p + vlow && t < q * b1 + b1
             && q >= 0
    ensures win < (q + 1) * vb
  {
    assert (q + 1) * vb == (q * b1 + b1) * p + (q + 1) * vlow;
    MulMono(q + 1, 0, vlow);
    MulMono(p, t + 1, q * b1 + b1);
    MulDist(p, t, 1);
  }

  lemma {:induction false} DigitBelow(t: int, b1: int, p: int, low: int, vlow: int, q: int, win: int, vb: int)
    requires p > 0 && 0 <= low && 0 <= vlow < p && win == t * p + low && vb == b1 * p + vlow && q * b1 <= t
             && 0 <= q < D && 2 * b1 >= D && t >= 0
    ensures (q - 2) * vb <= win
  {
    MulMono(p, 0, t);
    if q >= 2 {
      MulMono(q - 2, vlow, p);
      assert (q - 2) * vb == (q * b1 - 2 * b1) * p + (q - 2) * vlow;
      assert (q * b1 - 2 * b1) * p + (q - 2) * p == (q * b1 - 2 * b1 + q - 2) * p;
      MulMono(p, q * b1 - 2 * b1 + q - 2, t);
    } else {
      MulMono(p, 0, b1);
      MulMono(vb, q - 2, 0);
    }
  }

  lemma {:induction false} LargeTop(u: nat, w: nat, b1: nat, p: nat, low: nat, vlow: nat, win: int, vb: int)
    requires 2 * b1 >= D && u >= b1 && vlow < p && win == (u * D + w) * p + low && vb == b1 * p + vlow && win < vb * D
    ensures (D - 3) * vb <= win
  {
    MulMono(D, b1, u);
    MulMono(p, b1 * D, u * D + w);
    MulMono(D - 3, vlow, p);
    assert (D - 3) * vb == (D * b1 - 3 * b1) * p + (D - 3) * vlow;
    assert (D * b1 - 3 * b1) * p + (D - 3) * p == (D * b1 - 3 * b1 + D - 3) * p;
    MulMono(p, D * b1 - 3 * b1 + D - 3, b1 * D);
  }

  lemma {:induction false} EstimateFits(u: nat, w: nat, b1: nat)
    requires u < b1 < D && w < D
    ensures 0 <= u * D + w < B * b1
  {
    MulMono(D, u + 1, b1);
    MulMono(D, 0, u);
    MulMono(b1, D, B);
  }

  /** The two top limbs of a window, and what is below them. */
  lemma {:induction false} WindowParts(win: seq<Limb>, nb: nat)
    requires nb >= 1 && |win| == nb + 1 && AllDec(win)
    ensures DVal(win) == (win[nb] as int * D + win[nb - 1] as int) * DPow(nb - 1) + DVal(win[..nb - 1])
    ensures 0 <= DVal(win[..nb - 1]) < DPow(nb - 1) && DPow(nb - 1) >= 1 && DVal(win) >= 0
  {
    hide DVal, DPow;
    TopOf(win, nb);
    TopOf(win[..nb], nb - 1);
    DBound(win);
    assert win[..nb][..nb - 1] == win[..nb - 1] && win[..nb][nb - 1] == win[nb - 1];
    DNext(nb - 1);
    Joined(win[nb], win[nb - 1], DPow(nb - 1));
  }

  lemma {:induction false} Joined(u: int, w: int, p: int)
    ensures u * (D * p) + w * p == (u * D + w) * p
  {
    MulAssoc(u, D, p);
  }

  /** What is left after the multiple is taken away, the top limb not yet adjusted. */
  lemma {:induction false} Subtracted(low: int, low0: int, u: int, r: int, p: int, v: int, q: int, vb: int)
    requires low + vb * q == low0 + r * p && v == u * p + low0
    ensures low + (u - r) * p == v - q * vb
  {
    assert (u - r) * p == u * p - r * p;
  }

  lemma {:induction false} NoTop(low: int, d: int, p: int, vb: int)
    requires 0 <= low && d >= 0 && low + d * p < vb < p && p > 0
    ensures d == 0
  {
    if d >= 1 { MulMono(p, 1, d); }
  }

  /** A top limb below the base stands for a negative number. */
  lemma {:induction false} StillNegative(low: int, top: int, p: int)
    requires 0 <= low < p && top < D
    ensures low + (top - D) * p < 0
  {
    MulMono(p, top - D, -1);
  }

  /** Adds the divisor back until the remainder is not negative. */
  method RepairDec(taba: array<Limb>, i: nat, tabb: array<Limb>, nb: nat, q0: Limb, ghost v: int)
    returns (q: Limb, ghost corrections: nat)
    requires nb <= tabb.Length && i + nb + 1 <= taba.Length && taba != tabb && q0 < D && v >= 0
    requires AllDec(taba[i..i + nb]) && AllDec(tabb[..nb]) && taba[i + nb] < D
    requires DVal(taba[i..i + nb]) + (taba[i + nb] as int - D) * DPow(nb) == v - q0 as int * DVal(tabb[..nb])
             && (q0 as int - 2) * DVal(tabb[..nb]) <= v
    modifies taba
    ensures OnlyChanged(taba, i, nb + 1) && q < D && AllDec(taba[i..i + nb]) && corrections <= 2
    ensures DVal(taba[i..i + nb]) + q as int * DVal(tabb[..nb]) == v && 0 <= DVal(taba[i..i + nb]) < DVal(tabb[..nb])
  {
    hide DVal, DPow;
    ghost var vb, p := DVal(tabb[..nb]), DPow(nb);
    DBound(tabb[..nb]);
    q, corrections := q0, 0;
    ghost var rest := v - q0 as int * vb;
    var done := false;
    while !done
      invariant OnlyChanged(taba, i, nb + 1) && AllDec(taba[i..i + nb]) && taba[i + nb] <= D
                && (done <==> taba[i + nb] == D)
      invariant q as int == q0 as int - corrections && q < D && rest == v - q as int * vb
      invariant DVal(taba[i..i + nb]) + (taba[i + nb] as int - D) * p == rest
                && (done ==> rest < vb && corrections <= 2)
      decreases q, !done
    {
      ghost var low := DVal(taba[i..i + nb]);
      DBound(taba[i..i + nb]);
      StillNegative(low, taba[i + nb], p);
      DigitTooLarge(v, vb, q, q0);
      var c := MpAddDec(taba, i, tabb, nb);
      ghost var ls := taba[i..i + nb];
      ghost var top: int := taba[i + nb];
      if c != 0 {
        taba[i + nb] := taba[i + nb] + 1;
        done := taba[i + nb] == D;
      }
      assert taba[i..i + nb] == ls;
      AddedBack(low, vb, DVal(ls), c, top, p);
      OneLess(q, vb);
      q, rest, corrections := q - 1, rest + vb, corrections + 1;
    }
    DBound(taba[i..i + nb]);
  }

  lemma {:induction false} AddedBack(low: int, vb: int, low': int, c: int, top: int, p: int)
    requires low' + c * p == low + vb
    ensures low' + (top + c - D) * p == low + (top - D) * p + vb
  {
    assert (top + c - D) * p == (top - D) * p + c * p;
  }

  /** One digit: the window keeps the remainder in its low limbs. Its top limb is not looked at again. */
  method DivDigitDec(taba: array<Limb>, i: nat, tabb: array<Limb>, nb: nat) returns (q: Limb, ghost corrections: nat)
    requires 1 <= nb <= tabb.Length && i + nb + 1 <= taba.Length && taba != tabb
    requires AllDec(taba[i..i + nb + 1]) && IsDecDivisor(tabb[..nb]) && DVal(taba[i..i + nb + 1]) < DVal(tabb[..nb]) * D
    modifies taba
    ensures OnlyChanged(taba, i, nb + 1) && q < D && AllDec(taba[i..i + nb]) && corrections <= 2
    ensures DVal(taba[i..i + nb]) + q as int * DVal(tabb[..nb]) == old(DVal(taba[i..i + nb + 1]))
    ensures 0 <= DVal(taba[i..i + nb]) < DVal(tabb[..nb])
  {
    hide DVal, DPow;
    ghost var win, vs := taba[i..i + nb + 1], tabb[..nb];
    ghost var vb, v, p := DVal(vs), DVal(win), DPow(nb);
    var u: Limb := taba[i + nb];
    assert win[nb] == u && taba[i..i + nb] == win[..nb];
    q := EstimateDec(u, taba[i + nb - 1], tabb[nb - 1], win, vs);
    TopOf(win, nb);
    DBound(win);
    DBound(vs);
    var r := MpSubMul1Dec(taba, i, tabb, nb, q);
    ghost var low := taba[i..i + nb];
    DBound(low);
    Subtracted(DVal(low), DVal(win[..nb]), u, r, p, v, q, vb);
    corrections := 0;
    if u >= r {
      OneMore(q, vb);
      NoTop(DVal(low), u as int - r, p, vb);
      taba[i + nb] := u - r;
      assert taba[i..i + nb] == low;
    } else {
      taba[i + nb] := u as int - r + D;
      assert taba[i..i + nb] == low;
      q, corrections := RepairDec(taba, i, tabb, nb, q, v);
    }
  }

  lemma {:induction false} OneMore(q: int, vb: int)
    ensures (q + 1) * vb == q * vb + vb
  {
  }

  method EstimateDec(u: Limb, w: Limb, b1: Limb, ghost win: seq<Limb>, ghost vs: seq<Limb>) returns (q: Limb)
    requires |vs| >= 1 && |win| == |vs| + 1 && AllDec(win) && IsDecDivisor(vs) && DVal(win) < DVal(vs) * D
    requires u == win[|vs|] && w == win[|vs| - 1] && b1 == vs[|vs| - 1]
    ensures q < D && (q as int - 2) * DVal(vs) <= DVal(win) < (q as int + 1) * DVal(vs)
  {
    hide DVal, DPow;
    if u >= b1 {
      q := D - 1;
    } else {
      EstimateFits(u, w, b1);
      var t := DivRem(u as nat * D + w, b1);
      q := t.0;
    }
    ghost var nb := |vs|;
    WindowParts(win, nb);
    TopOf(vs, nb - 1);
    DecEstimate(u, w, b1, DPow(nb - 1), DVal(win[..nb - 1]), DVal(vs[..nb - 1]), q, DVal(win), DVal(vs));
  }

  // ---------- the whole division ----------

  /** With the digits `qs` from position `i` on taken out, `low` is left. */
  ghost predicate PartDone(a: int, low: seq<Limb>, i: nat, qs: seq<Limb>, vb: int) {
    a == DVal(low) + DPow(i) * (DVal(qs) * vb)
  }

  lemma {:induction false} PartNext(a: int, lo: seq<Limb>, win: seq<Limb>, low: seq<Limb>, q: Limb, qs: seq<Limb>,
                                    vb: int)
    requires PartDone(a, lo + win, |lo| + 1, qs, vb) && DVal(low) + q as int * vb == DVal(win)
    ensures PartDone(a, lo + low, |lo|, [q] + qs, vb)
  {
    hide DVal, DPow;
    DConcat(lo, win);
    DConcat(lo, low);
    DConcat([q], qs);
    DOne(q);
    DNext(0);
    DNext(|lo|);
    assert DPow(1) == D;
    PartValue(DPow(|lo|), DVal(win), DVal(low), q, DVal(qs), vb);
  }

  lemma {:induction false} PartValue(p: int, w: int, w': int, q: int, v: int, vb: int)
    requires w' + q * vb == w
    ensures p * w + (D * p) * (v * vb) == p * w' + p * ((q + D * v) * vb)
  {
    assert (q + D * v) * vb == q * vb + D * (v * vb);
    assert p * (D * (v * vb)) == (D * p) * (v * vb);
    MulDist(p, w', q * vb);
    MulDist(p, q * vb, D * (v * vb));
  }

  /** A remainder with one more limb below it is less than the divisor times the base. */
  lemma {:induction false} NextWindow(x: Limb, rs: seq<Limb>, vb: int)
    requires x < D && DVal(rs) < vb
    ensures DVal([x] + rs) < vb * D
  {
    hide DVal, DPow;
    DConcat([x], rs);
    DOne(x);
    DNext(0);
    assert DPow(1) == D;
    MulMono(D, DVal(rs) + 1, vb);
  }

  method LowerDigitsDec(tabq: array<Limb>, taba: array<Limb>, n: nat, tabb: array<Limb>, nb: nat, ghost a: int,
                        ghost qs0: seq<Limb>)
    requires tabq != taba && tabq != tabb && taba != tabb && 1 <= nb <= tabb.Length && n + nb <= taba.Length
             && n + |qs0| <= tabq.Length
    requires tabq[n..n + |qs0|] == qs0 && AllDec(qs0) && AllDec(taba[..n + nb]) && IsDecDivisor(tabb[..nb])
    requires 0 <= DVal(taba[n..n + nb]) < DVal(tabb[..nb]) && PartDone(a, taba[..n + nb], n, qs0, DVal(tabb[..nb]))
    modifies tabq, taba
    ensures AllDec(tabq[..n + |qs0|]) && AllDec(taba[..nb])
    ensures PartDone(a, taba[..nb], 0, tabq[..n + |qs0|], DVal(tabb[..nb])) && 0 <= DVal(taba[..nb]) < DVal(tabb[..nb])
  {
    hide DVal, DPow, PartDone, IsDecDivisor;
    ghost var qs, m, vb := qs0, n + |qs0|, DVal(tabb[..nb]);
    var i := n;
    while i > 0
      invariant 0 <= i <= n && |qs| == m - i && tabq[i..m] == qs && AllDec(qs) && AllDec(taba[..i + nb])
      invariant 0 <= DVal(taba[i..i + nb]) < vb && PartDone(a, taba[..i + nb], i, qs, vb)
    {
      i := i - 1;
      ghost var lo, win := taba[..i], taba[i..i + nb + 1];
      assert win == [taba[i]] + taba[i + 1..i + 1 + nb];
      assert taba[..i + 1 + nb] == lo + win;
      NextWindow(taba[i], taba[i + 1..i + 1 + nb], vb);
      var q, _ := DivDigitDec(taba, i, tabb, nb);
      assert taba[..i] == lo;
      ghost var low := taba[i..i + nb];
      PartNext(a, lo, win, low, q, qs, vb);
      assert taba[..i + nb] == lo + low;
      tabq[i] := q;
      assert tabq[i..m] == [q] + qs;
      qs := [q] + qs;
    }
    assert tabq[0..m] == tabq[..m] && taba[0..0 + nb] == taba[..nb];
  }

  /** The first digit for a divisor that is large as it is: one or zero. */
  method FirstDigit(taba: array<Limb>, i: nat, tabb: array<Limb>, nb: nat) returns (q: Limb)
    requires 1 <= nb <= tabb.Length && i + nb <= taba.Length && taba != tabb && AllDec(taba[i..i + nb])
             && IsDecDivisor(tabb[..nb])
    modifies taba
    ensures OnlyChanged(taba, i, nb) && q <= 1 && AllDec(taba[i..i + nb])
    ensures DVal(taba[i..i + nb]) + q as int * DVal(tabb[..nb]) == old(DVal(taba[i..i + nb]))
            && 0 <= DVal(taba[i..i + nb]) < DVal(tabb[..nb])
  {
    hide DVal, DPow;
    ghost var xs, vs := taba[i..i + nb], tabb[..nb];
    q := 1;
    var j := nb;
    DBound(xs);
    DBound(vs);
    TopOf(vs, nb - 1);
    HalfBase(vs, nb);
    assert xs[nb..] == vs[nb..];
    while j > 0
      invariant 0 <= j <= nb && q == 1 && taba[i..i + nb] == xs && xs[j..] == vs[j..]
    {
      j := j - 1;
      assert taba[i + j] == xs[j] && tabb[j] == vs[j];
      if taba[i + j] != tabb[j] {
        Deciding(xs, vs, j);
        if taba[i + j] < tabb[j] { q := 0; }
        break;
      }
      assert xs[j..] == [xs[j]] + xs[j + 1..] && vs[j..] == [vs[j]] + vs[j + 1..];
    }
    if j == 0 && xs[0..] == vs[0..] { assert xs == xs[0..] && vs == vs[0..]; }
    assert q == 1 <==> DVal(xs) >= DVal(vs);
    if q == 1 {
      var k := MpSubDec(taba, i, tabb, nb);
      DBound(taba[i..i + nb]);
      NoBorrowDec(DVal(xs), k, DPow(nb), DVal(taba[i..i + nb]), DVal(vs));
    }
  }

  lemma {:induction false} NoBorrowDec(x: int, k: int, p: int, r: int, v: int)
    requires x + k * p == r + v && x >= v && 0 <= k <= 1 && r < p
    ensures k == 0
  {
  }

  /** The first limb from the top that differs decides. */
  lemma {:induction false} Deciding(xs: seq<Limb>, ys: seq<Limb>, j: nat)
    requires |xs| == |ys| && j < |xs| && AllDec(xs) && AllDec(ys) && xs[j] != ys[j] && xs[j + 1..] == ys[j + 1..]
    ensures xs[j] < ys[j] <==> DVal(xs) < DVal(ys)
  {
    hide DVal, DPow;
    DecidingParts(xs, j);
    DecidingParts(ys, j);
    var p := DPow(j);
    DBound(xs[..j]);
    DBound(ys[..j]);
    var x: int, y: int := xs[j], ys[j];
    if x < y { MulMono(p, x + 1, y); MulDist(p, x, 1); } else { MulMono(p, y + 1, x); MulDist(p, y, 1); }
  }

  lemma {:induction false} DecidingParts(xs: seq<Limb>, j: nat)
    requires j < |xs|
    ensures DVal(xs) == DVal(xs[..j]) + DPow(j) * xs[j] as int + DPow(j + 1) * DVal(xs[j + 1..])
  {
    hide DVal, DPow;
    assert xs == xs[..j + 1] + xs[j + 1..] && xs[..j + 1] == xs[..j] + [xs[j]];
    DConcat(xs[..j + 1], xs[j + 1..]);
    DAppend(xs[..j], xs[j]);
  }

  /** A window of as many limbs is less than twice the divisor. */
  lemma {:induction false} HalfBase(vs: seq<Limb>, nb: nat)
    requires nb >= 1 && |vs| == nb && IsDecDivisor(vs)
    ensures DPow(nb) <= 2 * DVal(vs)
  {
    hide DVal, DPow;
    TopOf(vs, nb - 1);
    DNext(nb - 1);
    MulMono(DPow(nb - 1), D, 2 * vs[nb - 1] as int);
  }

  /** `qs` and `rs` are quotient and remainder of `a` by `vb`. */
  ghost predicate IsDecDivision(a: int, vb: int, qs: seq<Limb>, rs: seq<Limb>) {
    AllDec(qs) && AllDec(rs) && DVal(qs) * vb + DVal(rs) == a && 0 <= DVal(rs) < vb
  }

  /** Quotient and remainder of decimal tables; the remainder replaces the low limbs of the dividend. */
  method MpDivDec(tabq: array<Limb>, taba: array<Limb>, na: nat, tabb1: array<Limb>, nb: nat)
    requires 1 <= nb <= na && na + 1 <= taba.Length && nb <= tabb1.Length && na - nb + 1 <= tabq.Length
    requires tabq != taba && tabq != tabb1 && taba != tabb1 && AllDec(taba[..na]) && AllDec(tabb1[..nb])
             && tabb1[nb - 1] != 0
    modifies tabq, taba
    ensures IsDecDivision(old(DVal(taba[..na])), DVal(tabb1[..nb]), tabq[..na - nb + 1], taba[..nb])
  {
    hide DVal, DPow, IsDecDivision;
    if tabb1[nb - 1] >= D / 2 {
      DivideUnscaled(tabq, taba, na, tabb1, nb);
    } else {
      DivideScaled(tabq, taba, na, tabb1, nb);
    }
  }

  method DivideUnscaled(tabq: array<Limb>, taba: array<Limb>, na: nat, tabb: array<Limb>, nb: nat)
    requires 1 <= nb <= na && na <= taba.Length && nb <= tabb.Length && na - nb + 1 <= tabq.Length
    requires tabq != taba && tabq != tabb && taba != tabb && AllDec(taba[..na]) && AllDec(tabb[..nb])
             && tabb[nb - 1] >= D / 2
    modifies tabq, taba
    ensures IsDecDivision(old(DVal(taba[..na])), DVal(tabb[..nb]), tabq[..na - nb + 1], taba[..nb])
  {
    hide DVal, DPow, PartDone, IsDecDivisor;
    ghost var a, vs := DVal(taba[..na]), tabb[..nb];
    LargeDivisor(vs);
    var i := na - nb;
    ghost var lo, win := taba[..i], taba[i..i + nb];
    assert taba[..na] == lo + win;
    var q := FirstDigit(taba, i, tabb, nb);
    assert taba[..i] == lo;
    tabq[i] := q;
    assert tabq[i..i + 1] == [q];
    FirstPart(a, lo, win, taba[i..i + nb], q, DVal(vs));
    assert taba[..i + nb] == lo + taba[i..i + nb];
    LowerDigitsDec(tabq, taba, i, tabb, nb, a, [q]);
    LastPart(a, taba[..nb], tabq[..na - nb + 1], DVal(vs));
  }

  method DivideScaled(tabq: array<Limb>, taba: array<Limb>, na: nat, tabb1: array<Limb>, nb: nat)
    requires 1 <= nb <= na && na + 1 <= taba.Length && nb <= tabb1.Length && na - nb + 1 <= tabq.Length
    requires tabq != taba && tabq != tabb1 && taba != tabb1 && AllDec(taba[..na]) && AllDec(tabb1[..nb])
             && 0 < tabb1[nb - 1] < D / 2
    modifies tabq, taba
    ensures IsDecDivision(old(DVal(taba[..na])), DVal(tabb1[..nb]), tabq[..na - nb + 1], taba[..nb])
  {
    hide DVal, DPow, PartDone, IsDecDivisor;
    var r: Limb := tabb1[nb - 1];
    ghost var a, vs := DVal(taba[..na]), tabb1[..nb];
    var mult: Limb := D / (r as nat + 1);
    ScaledTop(r, mult);
    var tabb := new Limb[nb](j requires 0 <= j < nb reads tabb1 => tabb1[j]);
    assert tabb[..nb] == vs;
    var over := MpMul1Dec(tabb, nb, mult);
    ScaledDivisor(vs, r, mult, tabb[..nb], over);
    ghost var n := na - nb + 1;
    ScaleDividend(taba, na, mult, nb, vs);
    ghost var am, vb := a * mult as int, DVal(tabb[..nb]);
    assert n + nb == na + 1;
    NoDigits(am, taba[..n + nb], n, vb);
    assert tabq[n..n + 0] == [];
    LowerDigitsDec(tabq, taba, na - nb + 1, tabb, nb, am, []);
    assert n + 0 == n;
    LastPart(am, taba[..nb], tabq[..n], vb);
    Unscale(taba, nb, mult, a, DVal(tabq[..n]), DVal(vs));
  }

  /** The dividend times the multiplier, with its carry above it; its leading limbs are below the scaled divisor. */
  method ScaleDividend(taba: array<Limb>, na: nat, mult: Limb, nb: nat, ghost vs: seq<Limb>)
    requires 1 <= nb <= na && na + 1 <= taba.Length && 0 < mult < D && AllDec(taba[..na])
    requires |vs| == nb && AllDec(vs) && vs[nb - 1] > 0
    modifies taba
    ensures AllDec(taba[..na + 1]) && DVal(taba[..na + 1]) == old(DVal(taba[..na])) * mult as int
    ensures var n := na - nb + 1; 0 <= DVal(taba[n..n + nb]) < DVal(vs) * mult as int
  {
    hide DVal, DPow;
    ghost var a := DVal(taba[..na]);
    DBound(taba[..na]);
    var top := MpMul1Dec(taba, na, mult);
    ghost var xs := taba[..na];
    taba[na] := top;
    assert taba[..na + 1] == xs + [top];
    DAppend(xs, top);
    ghost var n := na - nb + 1;
    assert taba[n..n + nb] == (xs + [top])[n..];
    ScaledWindow(xs + [top], n, nb, a, mult, vs, DVal(vs) * mult as int);
  }

  lemma {:induction false} LargeDivisor(vs: seq<Limb>)
    requires |vs| >= 1 && AllDec(vs) && vs[|vs| - 1] >= D / 2
    ensures IsDecDivisor(vs)
  {
  }

  lemma {:induction false} FirstPart(a: int, lo: seq<Limb>, win: seq<Limb>, low: seq<Limb>, q: Limb, vb: int)
    requires a == DVal(lo + win) && DVal(low) + q as int * vb == DVal(win)
    ensures PartDone(a, lo + low, |lo|, [q], vb)
  {
    hide DVal, DPow;
    DConcat(lo, win);
    DConcat(lo, low);
    DOne(q);
    MulDist(DPow(|lo|), DVal(low), q as int * vb);
  }

  lemma {:induction false} LastPart(a: int, low: seq<Limb>, qs: seq<Limb>, vb: int)
    requires PartDone(a, low, 0, qs, vb)
    ensures a == DVal(qs) * vb + DVal(low)
  {
    hide DVal, DPow;
    DNext(0);
  }

  lemma {:induction false} NoDigits(a: int, low: seq<Limb>, n: nat, vb: int)
    requires a == DVal(low)
    ensures PartDone(a, low, n, [], vb) && AllDec([])
  {
    hide DVal, DPow;
    DOne(0);
    assert DPow(n) * (0 * vb) == 0;
  }

  /** The scaled divisor fits its limbs and has a large top limb. */
  lemma {:induction false} ScaledDivisor(vs: seq<Limb>, r: Limb, mult: Limb, ws: seq<Limb>, over: Limb)
    requires |vs| >= 1 && |ws| == |vs| && AllDec(vs) && AllDec(ws) && r == vs[|vs| - 1]
             && D / 2 <= r as int * mult as int && (r as int + 1) * mult as int <= D
    requires DVal(ws) + over as int * DPow(|ws|) == DVal(vs) * mult as int
    ensures over == 0 && IsDecDivisor(ws) && DVal(ws) == DVal(vs) * mult as int
  {
    hide DVal, DPow;
    var k := |vs| - 1;
    TopOf(vs, k);
    TopOf(ws, k);
    DNext(k);
    DBound(ws);
    FitsScaled(DVal(vs), r, mult, DPow(k), DVal(vs[..k]), DVal(ws), over);
    LargeScaled(DVal(vs), r, mult, DPow(k), DVal(vs[..k]), DVal(ws), ws[k], DVal(ws[..k]));
  }

  lemma {:induction false} FitsScaled(v: int, r: int, mult: int, p: int, low: int, w: int, over: int)
    requires p > 0 && v == r * p + low && 0 <= low < p && mult > 0 && (r + 1) * mult <= D
             && w + over * (D * p) == v * mult && w >= 0 && over >= 0
    ensures over == 0
  {
    MulStrict(mult, v, (r + 1) * p);
    MulMono(p, (r + 1) * mult, D);
    assert mult * ((r + 1) * p) == p * ((r + 1) * mult);
    if over >= 1 { MulMono(D * p, 1, over); }
  }

  lemma {:induction false} LargeScaled(v: int, r: int, mult: int, p: int, low: int, w: int, t: int, wl: int)
    requires p > 0 && v == r * p + low && 0 <= low && mult > 0 && D / 2 <= r * mult && w == v * mult && w == t * p + wl
             && 0 <= wl < p
    ensures 2 * t >= D
  {
    MulMono(mult, r * p, v);
    assert mult * (r * p) == p * (r * mult);
    MulMono(p, D / 2, r * mult);
    if t < D / 2 { MulMono(p, t + 1, D / 2); MulDist(p, t, 1); }
  }

  /** The leading limbs of the scaled dividend are below the scaled divisor. */
  lemma {:induction false} ScaledWindow(xs: seq<Limb>, n: nat, nb: nat, a: int, mult: Limb, vs: seq<Limb>, vb: int)
    requires nb >= 1 && n >= 1 && |xs| == n + nb && |vs| == nb && AllDec(xs) && AllDec(vs) && vs[nb - 1] > 0 && mult > 0
    requires DVal(xs) == a * mult as int && 0 <= a < DPow(n + nb - 1) && vb == DVal(vs) * mult as int
    ensures 0 <= DVal(xs[n..]) < vb
  {
    hide DVal, DPow;
    assert xs == xs[..n] + xs[n..];
    DConcat(xs[..n], xs[n..]);
    DBound(xs[..n]);
    DBound(xs[n..]);
    TopOf(vs, nb - 1);
    DPowAdd(n, nb - 1);
    WindowBelowDivisor(DVal(xs), DVal(xs[..n]), DPow(n), DVal(xs[n..]), a, mult, DPow(nb - 1), vs[nb - 1],
                       DVal(vs[..nb - 1]), DVal(vs), vb);
  }

  lemma {:induction false} DPowAdd(m: nat, n: nat)
    ensures DPow(m + n) == DPow(m) * DPow(n) && DPow(m) >= 1 && DPow(n) >= 1
  {
    Modular.PowerAdd(D, m, n);
    DNext(m);
    DNext(n);
  }

  lemma {:induction false} WindowBelowDivisor(x: int, lo: int, p: int, hi: int, a: int, mult: int, s: int, top: int,
                                              vl: int, v: int, vb: int)
    requires p >= 1 && s >= 1 && mult > 0 && x == lo + p * hi && lo >= 0 && x == a * mult && 0 <= a < p * s
             && v == top * s + vl && top >= 1 && vl >= 0 && vb == v * mult
    ensures hi < vb
  {
    // p hi <= a mult < p s mult
    MulStrict(mult, a, p * s);
    assert mult * (p * s) == p * (s * mult);
    if hi >= s * mult { MulMono(p, s * mult, hi); }
    MulMono(s, 1, top);
    MulMono(mult, s, v);
  }

  /** Takes the scaling out of the remainder again. */
  method Unscale(taba: array<Limb>, nb: nat, mult: Limb, ghost a: int, ghost q: int, ghost vb: int)
    requires nb <= taba.Length && 0 < mult < D && AllDec(taba[..nb])
             && a * mult as int == q * (vb * mult as int) + DVal(taba[..nb])
    requires 0 <= DVal(taba[..nb]) < vb * mult as int
    modifies taba
    ensures AllDec(taba[..nb]) && q * vb + DVal(taba[..nb]) == a && 0 <= DVal(taba[..nb]) < vb
  {
    hide DVal, DPow, DecDividedTo;
    ghost var xs := taba[..nb];
    var r := MpDiv1Dec(taba, nb, mult, 0);
    Divided(taba[..nb], xs, mult, r);
    ExactRemainder(DVal(taba[..nb]), mult, r, a, q, vb, DVal(xs));
  }

  lemma {:induction false} Divided(qs: seq<Limb>, xs: seq<Limb>, b: int, r: int)
    requires DecDividedTo(qs, xs, b, r, 0)
    ensures DVal(qs) * b + r == DVal(xs) && AllDec(qs)
  {
    hide DVal, DPow;
    assert 0 * DPow(|xs|) == 0;
  }

  lemma {:induction false} ExactRemainder(d: int, mult: int, r: int, a: int, q: int, vb: int, x: int)
    requires mult > 0 && 0 <= r < mult && d * mult + r == x && a * mult == q * (vb * mult) + x && 0 <= x < vb * mult
    ensures q * vb + d == a && 0 <= d < vb
  {
    var e := a - q * vb;
    assert e * mult == x by { assert q * (vb * mult) == (q * vb) * mult;
                             assert (a - q * vb) * mult == a * mult - (q * vb) * mult; }
    if e < d { MulMono(mult, e + 1, d); MulDist(mult, e, 1); }
    if e > d { MulMono(mult, d + 1, e); MulDist(mult, d, 1); }
    if d < 0 { MulMono(mult, d, -1); }
    if d >= vb { MulMono(mult, vb, d); }
  }
}
