/** Schoolbook division of limb tables by a normalized divisor. */
module SchoolbookDivision {
  import opened Arith
  import opened Limbs
  import opened Kernels
  import opened WordDivision

  const UDIV1NORM_THRESHOLD := 3

  // ---------- division by one limb ----------

  /** The limbs `xs`, below a remainder `r0` of higher limbs, have been divided by `b`. */
  ghost predicate DividedDownTo(qs: seq<Limb>, xs: seq<Limb>, b: nat, r: nat, r0: nat) {
    |xs| == |qs| && MulAdd(r, Val(qs), b) == MulAdd(Val(xs), r0, Pow(|xs|))
  }

  /** Extends a quotient table by one lower limb. */
  lemma {:induction false} QuotientLimb(q: Limb, qs: seq<Limb>, a: Limb, xs: seq<Limb>, b: nat, r: nat, r': nat,
                                        r0: nat)
    requires DividedDownTo(qs, xs, b, r, r0)
    requires q as int * b + r' == r * B + a
    ensures DividedDownTo([q] + qs, [a] + xs, b, r', r0)
  {
    assert ([q] + qs)[1..] == qs && ([a] + xs)[1..] == xs;
    QuotientLimbArithmetic(Val(qs), Val([q] + qs), Val(xs), Pow(|xs|), q, a, b, r, r', r0);
  }

  lemma {:induction false} QuotientLimbArithmetic(v: int, v': int, w: int, p: int, q: int, a: int, b: int, r: int,
                                                  r': int, r0: int)
    requires v * b + r == w + r0 * p && v' == q + B * v
    requires q * b + r' == r * B + a
    ensures v' * b + r' == a + B * w + r0 * (B * p)
  {
    assert v' * b == q * b + B * (v * b);
    assert r0 * (B * p) == B * (r0 * p);
  }

  /** Divides by one normalized limb, given the remainder `r0` of the limbs above. */
  method MpDiv1Norm(tabr: array<Limb>, taba: array<Limb>, ao: nat, n: nat, b: Limb, r0: Limb) returns (r: Limb)
    requires n <= tabr.Length && ao + n <= taba.Length && tabr != taba
    requires 2 * b >= B && r0 < b
    modifies tabr
    ensures OnlyChanged(tabr, 0, n)
    ensures r < b && DividedDownTo(tabr[..n], taba[ao..ao + n], b, r, r0)
  {
    EmptyTable();
    ghost var xs := taba[ao..ao + n];
    ghost var qs: seq<Limb> := [];
    assert xs[n..] == [] && DividedDownTo(qs, xs[n..], b, r0, r0);
    hide DividedDownTo, Val, Pow;
    var bInv := if n >= UDIV1NORM_THRESHOLD then Udiv1NormInit(b) else 0;
    r := r0;
    var i := n;
    while i > 0
      invariant 0 <= i <= n && r < b && |qs| == n - i
      invariant OnlyChanged(tabr, i, n - i)
      invariant forall j :: i <= j < n ==> tabr[j] == qs[j - i]
      invariant DividedDownTo(qs, xs[i..], b, r, r0)
    {
      i := i - 1;
      var q, r' := DivWord(r, taba[ao + i], b, n >= UDIV1NORM_THRESHOLD, bInv);
      QuotientLimb(q, qs, xs[i], xs[i + 1..], b, r, r', r0);
      assert [xs[i]] + xs[i + 1..] == xs[i..];
      tabr[i] := q;
      qs := [q] + qs;
      r := r';
    }
    assert tabr[..n] == qs && xs[0..] == xs;
  }

  /** A double word by a word: through the reciprocal, or by the machine's division. */
  method DivWord(a1: Limb, a0: Limb, d: Limb, useInv: bool, v: Limb) returns (q: Limb, r: Limb)
    requires 2 * d >= B && a1 < d
    requires useInv ==> IsReciprocal(d, v)
    ensures q as int * d + r == a1 * B + a0 && r < d
  {
    if useInv {
      var p := Udiv1Norm(a1, a0, d, v);
      return p.0, p.1;
    }
    var p := DivRem(a1 as nat * B + a0, d);
    return p.0, p.1;
  }

  /** The machine's division of a double word. */
  function DivRem(al: nat, d: Limb): (r: (Limb, Limb))
    requires 0 < d && al < B * d
    ensures r.0 as int * d + r.1 == al && r.1 < d
  {
    DivisionBracket(al, d);
    ReciprocalFits(al, d);
    (al / d, al % d)
  }

  // ---------- one quotient digit ----------

  /** The estimated digit is at least the true one and at most two too large. */
  lemma {:induction false} DigitEstimate(u: nat, w: nat, b1: nat, p: nat, low: nat, vlow: nat, q: nat, win: nat,
                                         vb: nat)
    requires b1 < B <= 2 * b1 && w < B && low < p && vlow < p && q < B
    requires win == (u * B + w) * p + low && vb == b1 * p + vlow
    requires u < b1 ==> q * b1 <= u * B + w < (q + 1) * b1
    requires u >= b1 ==> q == B - 1 && win < vb * B
    ensures win < (q + 1) * vb
    ensures (q - 2) * vb <= win
  {
    var t := u * B + w;
    if u < b1 {
      DigitUpper(t, b1, p, low, vlow, q);
    } else {
      assert (q + 1) * vb == vb * B;
    }
    if q >= 2 {
      assert (q - 2) * (b1 + 1) <= t by {
        assert (q - 2) * (b1 + 1) == q * b1 + q - 2 * b1 - 2;
        if u >= b1 { assert q * b1 == B * b1 - b1; }
      }
      DigitLower(t, b1, p, low, vlow, q);
    } else {
      MulMono(vb, q - 2, 0);
    }
  }

  lemma {:induction false} DigitLower(t: nat, b1: nat, p: nat, low: nat, vlow: nat, q: nat)
    requires vlow < p && q >= 2 && (q - 2) * (b1 + 1) <= t
    ensures (q - 2) * (b1 * p + vlow) <= t * p + low
  {
    MulMono(q - 2, b1 * p + vlow, (b1 + 1) * p);
    MulAssoc(q - 2, b1 + 1, p);
    MulMono(p, (q - 2) * (b1 + 1), t);
  }

  lemma {:induction false} DigitUpper(t: nat, b1: nat, p: nat, low: nat, vlow: nat, q: nat)
    requires low < p && t < (q + 1) * b1
    ensures t * p + low < (q + 1) * (b1 * p + vlow)
  {
    ScaledLess(low, p, t, (q + 1) * b1);
    assert p * ((q + 1) * b1) == (q + 1) * (b1 * p);
    MulDist(q + 1, b1 * p, vlow);
    MulMono(q + 1, 0, vlow);
  }

  lemma {:induction false} TopLimb(s: seq<Limb>, k: nat)
    requires |s| == k + 1
    ensures Val(s) == s[k] as int * Pow(k) + Val(s[..k]) && Val(s[..k]) < Pow(k)
  {
    assert s == s[..k] + [s[k]];
    ValAppend(s[..k], s[k]);
    ValBound(s[..k]);
  }

  lemma {:induction false} TopTwoLimbs(s: seq<Limb>, k: nat)
    requires |s| == k + 2
    ensures Val(s) == (s[k + 1] as int * B + s[k]) * Pow(k) + Val(s[..k]) && Val(s[..k]) < Pow(k)
  {
    TopLimb(s, k + 1);
    TopLimb(s[..k + 1], k);
    assert s[..k + 1][..k] == s[..k];
    MulAssoc(s[k + 1], B, Pow(k));
  }

  ghost predicate IsDivisor(vs: seq<Limb>) {
    |vs| >= 1 && 2 * vs[|vs| - 1] >= B
  }

  /** Estimates the quotient digit of a window one limb longer than the divisor. */
  method EstimateDigit(u: Limb, w: Limb, b1: Limb, useInv: bool, b1Inv: Limb, ghost win: seq<Limb>, ghost vs: seq<Limb>)
    returns (q: Limb)
    requires IsDivisor(vs) && |vs| >= 2 && |win| == |vs| + 1
    requires u == win[|vs|] && w == win[|vs| - 1] && b1 == vs[|vs| - 1]
    requires useInv ==> IsReciprocal(b1, b1Inv)
    requires Val(win) < Val(vs) * B
    ensures Val(win) < (q as int + 1) * Val(vs)
    ensures (q as int - 2) * Val(vs) <= Val(win)
  {
    if u >= b1 {
      q := B - 1;
    } else {
      var r;
      q, r := DivWord(u, w, b1, useInv, b1Inv);
      assert (q as int + 1) * b1 == q as int * b1 + b1;
    }
    ghost var k := |vs| - 1;
    TopTwoLimbs(win, k);
    TopLimb(vs, k);
    DigitEstimate(u, w, b1, Pow(k), Val(win[..k]), Val(vs[..k]), q, Val(win), Val(vs));
  }

  /** Subtracts `q` times the divisor from the window; a borrow leaves the window wrapped. */
  method SubtractMultiple(taba: array<Limb>, i: nat, tabb: array<Limb>, bo: nat, nb: nat, q: Limb)
    returns (negative: bool)
    requires i + nb + 1 <= taba.Length && bo + nb <= tabb.Length && taba != tabb
    modifies taba
    ensures OnlyChanged(taba, i, nb + 1)
    ensures Val(taba[i..i + nb + 1]) + q as int * Val(tabb[bo..bo + nb])
         == old(Val(taba[i..i + nb + 1])) + (if negative then Pow(nb + 1) else 0)
  {
    hide Val, Pow;
    ghost var xs := taba[i..i + nb + 1];
    ghost var vs := tabb[bo..bo + nb];
    ghost var m: nat := q as nat * Val(vs);
    var r := MpSubMul1(taba, i, tabb, bo, nb, q);
    assert tabb[bo..bo + nb] == vs;
    var v := taba[i + nb];
    ghost var rs := taba[i..i + nb];
    var a;
    a, negative := SubtractBorrow(v, r);
    taba[i + nb] := a;
    assert taba[i..i + nb + 1] == rs + [a];
    assert xs[..nb] == old(taba[i..i + nb]);
    SubtractTop(xs, rs, a, v, r, negative, m);
  }

  method SubtractBorrow(v: Limb, r: Limb) returns (a: Limb, c: bool)
    ensures a as int == v as int - r + (if c then B else 0)
  {
    a := (v - r) % B;
    c := a > v;
  }

  lemma {:induction false} SubtractTop(xs: seq<Limb>, rs: seq<Limb>, a: Limb, v: Limb, r: Limb, negative: bool, m: nat)
    requires |xs| == |rs| + 1 && xs[|rs|] == v
    requires Val(rs) + m == Val(xs[..|rs|]) + r as int * Pow(|rs|)
    requires a as int == v as int - r + (if negative then B else 0)
    ensures Val(rs + [a]) + m == Val(xs) + (if negative then Pow(|rs| + 1) else 0)
  {
    ValAppend(rs, a);
    TopLimb(xs, |rs|);
    Distribute(Pow(|rs|), v, if negative then 1 else 0, a, r, 0);
  }

  /** Adds the divisor back once; the result wraps exactly when it becomes non-negative. */
  method AddBack(taba: array<Limb>, i: nat, tabb: array<Limb>, bo: nat, nb: nat) returns (wrapped: bool)
    requires i + nb + 1 <= taba.Length && bo + nb <= tabb.Length && taba != tabb
    modifies taba
    ensures OnlyChanged(taba, i, nb + 1)
    ensures Val(taba[i..i + nb + 1]) + (if wrapped then Pow(nb + 1) else 0)
         == old(Val(taba[i..i + nb + 1])) + Val(tabb[bo..bo + nb])
  {
    ghost var xs := taba[i..i + nb + 1];
    var c := MpAdd(taba, i, tabb, bo, nb, 0);
    ghost var rs := taba[i..i + nb];
    var v := taba[i + nb];
    wrapped := false;
    if c != 0 {
      taba[i + nb] := (v + 1) % B;
      wrapped := taba[i + nb] == 0;
    }
    assert taba[i..i + nb + 1] == rs + [taba[i + nb]];
    assert xs[..nb] == old(taba[i..i + nb]) && tabb[bo..bo + nb] == tabb[bo..bo + nb];
    AddTop(xs, rs, taba[i + nb], v, c, wrapped, Val(tabb[bo..bo + nb]));
  }

  lemma {:induction false} AddTop(xs: seq<Limb>, rs: seq<Limb>, a: Limb, v: Limb, c: Limb, wrapped: bool, m: nat)
    requires |xs| == |rs| + 1 && xs[|rs|] == v
    requires Val(rs) + c as int * Pow(|rs|) == Val(xs[..|rs|]) + m
    requires a as int + (if wrapped then B else 0) == v as int + c
    ensures Val(rs + [a]) + (if wrapped then Pow(|rs| + 1) else 0) == Val(xs) + m
  {
    ValAppend(rs, a);
    TopLimb(xs, |rs|);
    Distribute(Pow(|rs|), a, if wrapped then 1 else 0, v, c, 0);
  }

  /** One quotient digit: estimate, subtract, and at most two corrections. */
  method DivDigit(taba: array<Limb>, i: nat, tabb: array<Limb>, bo: nat, nb: nat, b1: Limb, useInv: bool, b1Inv: Limb)
    returns (q: Limb, ghost corrections: nat)
    requires nb >= 2 && i + nb + 1 <= taba.Length && bo + nb <= tabb.Length && taba != tabb
    requires IsDivisor(tabb[bo..bo + nb])
    requires b1 == tabb[bo + nb - 1] && (useInv ==> IsReciprocal(b1, b1Inv))
    requires Val(taba[i..i + nb + 1]) < Val(tabb[bo..bo + nb]) * B
    modifies taba
    ensures OnlyChanged(taba, i, nb + 1)
    ensures Val(taba[i..i + nb + 1]) + q as int * Val(tabb[bo..bo + nb]) == old(Val(taba[i..i + nb + 1]))
    ensures Val(taba[i..i + nb + 1]) < Val(tabb[bo..bo + nb])
    ensures corrections <= 2
  {
    ghost var w, vb := Val(taba[i..i + nb + 1]), Val(tabb[bo..bo + nb]);
    q := EstimateDigit(taba[i + nb], taba[i + nb - 1], b1, useInv, b1Inv, taba[i..i + nb + 1], tabb[bo..bo + nb]);
    corrections := 0;
    ghost var prod := q as int * vb;
    assert w < prod + vb by { MulDist(vb, q, 1); }
    var negative := SubtractMultiple(taba, i, tabb, bo, nb, q);
    if negative {
      q, corrections := Repair(taba, i, tabb, bo, nb, q, w);
    }
  }

  /** The add-back loop: turns a wrapped window into the remainder. */
  method Repair(taba: array<Limb>, i: nat, tabb: array<Limb>, bo: nat, nb: nat, q0: Limb, ghost w: nat)
    returns (q: Limb, ghost corrections: nat)
    requires i + nb + 1 <= taba.Length && bo + nb <= tabb.Length && taba != tabb
    requires (q0 as int - 2) * Val(tabb[bo..bo + nb]) <= w
    requires Val(taba[i..i + nb + 1]) + q0 as int * Val(tabb[bo..bo + nb]) == w + Pow(nb + 1)
    modifies taba
    ensures OnlyChanged(taba, i, nb + 1)
    ensures Val(taba[i..i + nb + 1]) + q as int * Val(tabb[bo..bo + nb]) == w
    ensures Val(taba[i..i + nb + 1]) < Val(tabb[bo..bo + nb])
    ensures corrections <= 2
  {
    ghost var vb, p := Val(tabb[bo..bo + nb]), Pow(nb + 1);
    ghost var prod := q0 as int * vb;
    q, corrections := q0, 0;
    var wrapped := false;
    while !wrapped
      invariant q as int == q0 as int - corrections && prod == q as int * vb
      invariant OnlyChanged(taba, i, nb + 1)
      invariant Val(taba[i..i + nb + 1]) + prod == w + (if wrapped then 0 else p)
      invariant wrapped ==> corrections <= 2 && w < prod + vb
      decreases q, !wrapped
    {
      ValBound(taba[i..i + nb + 1]);
      DigitTooLarge(w, vb, q, q0);
      OneLess(q, vb);
      q, prod := q - 1, prod - vb;
      corrections := corrections + 1;
      wrapped := AddBack(taba, i, tabb, bo, nb);
    }
  }

  lemma {:induction false} OneLess(q: int, vb: int)
    ensures (q - 1) * vb == q * vb - vb
  {
  }

  lemma {:induction false} DigitTooLarge(w: nat, vb: nat, q: int, q0: int)
    requires w < q * vb && (q0 - 2) * vb <= w
    ensures 1 <= q && q0 - 2 < q
  {
    if q <= 0 { MulMono(vb, q, 0); }
    if q <= q0 - 2 { MulMono(vb, q, q0 - 2); }
  }

  // ---------- the whole division ----------

  /** `qs` and `rs` are quotient and remainder of `xs` by `vs`. */
  ghost predicate IsDivision(xs: seq<Limb>, vs: seq<Limb>, qs: seq<Limb>, rs: seq<Limb>) {
    Val(xs) == MulAdd(Val(rs), Val(qs), Val(vs)) && Val(rs) < Val(vs)
  }

  lemma {:induction false} TopZero(s: seq<Limb>, k: nat)
    requires |s| == k + 1 && Val(s) < Pow(k)
    ensures s[k] == 0 && Val(s) == Val(s[..k])
  {
    TopLimb(s, k);
    ZeroCoefficient(Val(s), s[k], Pow(k), Val(s[..k]));
  }

  lemma {:induction false} ZeroCoefficient(v: int, top: nat, p: nat, low: nat)
    requires v == top * p + low && v < p
    ensures top == 0 && v == low
  {
    if top != 0 { MulMono(p, 1, top); }
  }

  /** What the loop keeps: the limbs below `i + nb` and the digits found so far make up the dividend. */
  ghost predicate Partial(xs: seq<Limb>, low: seq<Limb>, i: nat, qs: seq<Limb>, vb: nat) {
    i <= |low| && MulAdd(Val(low), Pow(i), Val(qs) * vb) == Val(xs) && Val(low[i..]) < vb
  }

  /** One more digit: `win` is the window above `lo`, `ws + [top]` the same limbs afterwards. */
  lemma {:induction false} PartialStep(xs: seq<Limb>, lo: seq<Limb>, win: seq<Limb>, ws: seq<Limb>, top: Limb, q: Limb,
                                       qs: seq<Limb>, vb: nat)
    requires |win| == |ws| + 1
    requires Partial(xs, lo + win, |lo| + 1, qs, vb)
    requires Val(win) == Val(ws + [top]) + q as int * vb && Val(ws + [top]) < vb <= Pow(|ws|)
    ensures Partial(xs, lo + ws, |lo|, [q] + qs, vb)
  {
    ValConcat(lo, win);
    ValConcat(lo, ws);
    TopZero(ws + [top], |ws|);
    assert (ws + [top])[..|ws|] == ws && (lo + ws)[|lo|..] == ws && ([q] + qs)[1..] == qs;
    PartialArithmetic(Pow(|lo|), Val(win), Val(ws), q, Val(qs), Val([q] + qs), vb);
  }

  lemma {:induction false} PartialArithmetic(p: int, w: int, w': int, q: int, v: int, v': int, vb: int)
    requires w == w' + q * vb && v' == q + B * v
    ensures p * w + (B * p) * (v * vb) == p * w' + p * (v' * vb)
  {
    MulDist(p, w', q * vb);
    assert v' * vb == q * vb + B * (v * vb);
    MulDist(p, q * vb, B * (v * vb));
    assert (B * p) * (v * vb) == p * (B * (v * vb));
  }

  /** The window one limb longer than a partial remainder is below the divisor times B. */
  lemma {:induction false} WindowBelow(xs: seq<Limb>, lo: seq<Limb>, win: seq<Limb>, qs: seq<Limb>, vb: nat)
    requires win != [] && Partial(xs, lo + win, |lo| + 1, qs, vb)
    ensures Val(win) < vb * B
  {
    assert (lo + win)[|lo| + 1..] == win[1..];
  }

  /** First digit: the divisor fits at most once into the top limbs. */
  method TopDigit(taba: array<Limb>, ao: nat, na: nat, tabb: array<Limb>, bo: nat, nb: nat) returns (q: Limb)
    requires 1 <= nb <= na && ao + na <= taba.Length && bo + nb <= tabb.Length && taba != tabb
    requires IsDivisor(tabb[bo..bo + nb])
    modifies taba
    ensures OnlyChanged(taba, ao + na - nb, nb)
    ensures q <= 1
    ensures Partial(old(taba[ao..ao + na]), taba[ao..ao + na], na - nb, [q], Val(tabb[bo..bo + nb]))
  {
    hide Partial, Pow;
    ghost var n, vs, xs := na - nb, tabb[bo..bo + nb], taba[ao..ao + na];
    SliceJoin(taba, ao, ao + n, ao + na);
    ghost var lo, ws := taba[ao..ao + n], taba[ao + n..ao + na];
    var c := MpCmp(taba, ao + na - nb, tabb, bo, nb);
    q := if c >= 0 then 1 else 0;
    if q != 0 {
      var k := MpSub(taba, ao + na - nb, tabb, bo, nb, 0);
    }
    assert taba[ao..ao + n] == lo;
    SliceJoin(taba, ao, ao + n, ao + na);
    TopDigitPartial(lo, ws, taba[ao + n..ao + na], q, vs);
  }

  lemma {:induction false} TopDigitPartial(lo: seq<Limb>, ws: seq<Limb>, rs: seq<Limb>, q: Limb, vs: seq<Limb>)
    requires |ws| == |rs| == |vs| && IsDivisor(vs) && q <= 1
    requires q == 0 ==> rs == ws && Val(ws) < Val(vs)
    requires q == 1 ==> Val(ws) >= Val(vs) && exists k: nat :: IsDifference(rs, k, ws, vs, 0)
    ensures Partial(lo + ws, lo + rs, |lo|, [q], Val(vs))
  {
    TopDigitFits(ws, vs);
    if q == 1 {
      var k: nat :| IsDifference(rs, k, ws, vs, 0);
      ValBound(rs);
      NoBorrow(Val(rs), Pow(|rs|), k, Val(ws) - Val(vs));
    }
    ValConcat(lo, ws);
    ValConcat(lo, rs);
    assert (lo + rs)[|lo|..] == rs;
    OneLimb(q);
    TopDigitSum(Pow(|lo|), Val(ws), Val(rs), Val([q]), Val(vs));
  }

  lemma {:induction false} OneLimb(x: Limb)
    ensures Val([x]) == x
  {
  }

  /** A value in range that equals a non-negative number plus borrowed multiples borrowed nothing. */
  lemma {:induction false} NoBorrow(v: nat, p: nat, c: nat, d: nat)
    requires v < p && v == d + c * p
    ensures v == d
  {
    if c > 0 { MulMono(p, 1, c); }
  }

  lemma {:induction false} TopDigitFits(ws: seq<Limb>, vs: seq<Limb>)
    requires |ws| == |vs| && IsDivisor(vs)
    ensures Val(ws) < 2 * Val(vs)
  {
    hide Val, Pow;
    var k := |vs| - 1;
    TopLimb(vs, k);
    ValBound(ws);
    TopPow(k);
    MulMono(Pow(k), B, 2 * (vs[k] as int));
  }

  lemma {:induction false} TopPow(k: nat)
    ensures Pow(k + 1) == Pow(k) * B
  {
  }

  lemma {:induction false} TopDigitSum(p: int, w: int, w': int, q: nat, vb: nat)
    requires q <= 1 && w == w' + (if q == 0 then 0 else vb)
    ensures p * w == p * w' + p * (q * vb)
  {
    MulDist(p, w', q * vb);
  }

  /** One pass of the division loop. */
  method NextDigit(taba: array<Limb>, ao: nat, i: nat, tabb: array<Limb>, bo: nat, nb: nat, b1: Limb, useInv: bool,
                   b1Inv: Limb,
                   ghost xs: seq<Limb>, ghost qs: seq<Limb>) returns (q: Limb)
    requires nb >= 2 && ao + i + 1 + nb <= taba.Length && bo + nb <= tabb.Length && taba != tabb
    requires IsDivisor(tabb[bo..bo + nb])
    requires b1 == tabb[bo + nb - 1] && (useInv ==> IsReciprocal(b1, b1Inv))
    requires Partial(xs, taba[ao..ao + i + 1 + nb], i + 1, qs, Val(tabb[bo..bo + nb]))
    modifies taba
    ensures OnlyChanged(taba, ao + i, nb + 1)
    ensures Partial(xs, taba[ao..ao + i + nb], i, [q] + qs, Val(tabb[bo..bo + nb]))
  {
    hide Partial, Pow;
    ghost var lo, win, vs := taba[ao..ao + i], taba[ao + i..ao + i + nb + 1], tabb[bo..bo + nb];
    SliceJoin(taba, ao, ao + i, ao + i + 1 + nb);
    ValBound(vs);
    WindowBelow(xs, lo, win, qs, Val(vs));
    ghost var corrections;
    q, corrections := DivDigit(taba, ao + i, tabb, bo, nb, b1, useInv, b1Inv);
    assert taba[ao..ao + i] == lo;
    SliceJoin(taba, ao, ao + i, ao + i + nb);
    SliceLast(taba, ao + i, ao + i + nb);
    PartialStep(xs, lo, win, taba[ao + i..ao + i + nb], taba[ao + i + nb], q, qs, Val(vs));
  }

  /** The digits below the first. */
  method LowerDigits(tabq: array<Limb>, taba: array<Limb>, ao: nat, n: nat, tabb: array<Limb>, bo: nat, nb: nat,
                     ghost xs: seq<Limb>)
    requires nb >= 2 && ao + n + nb <= taba.Length && bo + nb <= tabb.Length && n + 1 <= tabq.Length
    requires taba != tabb && tabq != taba && tabq != tabb
    requires IsDivisor(tabb[bo..bo + nb])
    requires Partial(xs, taba[ao..ao + n + nb], n, tabq[n..n + 1], Val(tabb[bo..bo + nb]))
    modifies taba, tabq
    ensures OnlyChanged(taba, ao, n + nb) && OnlyChanged(tabq, 0, n)
    ensures IsDivision(xs, tabb[bo..bo + nb], tabq[..n + 1], taba[ao..ao + nb])
  {
    hide Partial, IsDivision, Val, Pow;
    ghost var vs := tabb[bo..bo + nb];
    var useInv := n >= UDIV1NORM_THRESHOLD;
    var b1 := tabb[bo + nb - 1];
    var b1Inv := if useInv then Udiv1NormInit(b1) else 0;
    var i := n;
    ghost var low, qs := taba[ao..ao + n + nb], tabq[n..n + 1];
    while i > 0
      invariant 0 <= i <= n
      invariant OnlyChanged(taba, ao, n + nb) && OnlyChanged(tabq, i, n - i)
      invariant tabb[bo..bo + nb] == vs
      invariant low == taba[ao..ao + i + nb] && qs == tabq[i..n + 1]
      invariant Partial(xs, low, i, qs, Val(vs))
    {
      i := i - 1;
      assert low == taba[ao..ao + i + 1 + nb];
      var q := NextDigit(taba, ao, i, tabb, bo, nb, b1, useInv, b1Inv, xs, qs);
      low := taba[ao..ao + i + nb];
      tabq[i] := q;
      qs := [q] + qs;
    }
    PartialDone(xs, low, qs, vs);
    assert low == taba[ao..ao + nb] && qs == tabq[..n + 1];
  }

  /** The quadratic division: `taba` receives the remainder, `tabq` the quotient. */
  method MpDivNormBase(tabq: array<Limb>, taba: array<Limb>, ao: nat, na: nat, tabb: array<Limb>, bo: nat, nb: nat)
    requires 2 <= nb <= na && ao + na <= taba.Length && bo + nb <= tabb.Length && na - nb + 1 <= tabq.Length
    requires taba != tabb && tabq != taba && tabq != tabb
    requires IsDivisor(tabb[bo..bo + nb])
    modifies taba, tabq
    ensures OnlyChanged(taba, ao, na) && OnlyChanged(tabq, 0, na - nb + 1)
    ensures tabq[na - nb] <= 1
    ensures IsDivision(old(taba[ao..ao + na]), tabb[bo..bo + nb], tabq[..na - nb + 1], taba[ao..ao + nb])
  {
    ghost var xs := taba[ao..ao + na];
    var n := na - nb;
    var q := TopDigit(taba, ao, na, tabb, bo, nb);
    tabq[n] := q;
    assert tabq[n..n + 1] == [q] && ao + n + nb == ao + na;
    LowerDigits(tabq, taba, ao, n, tabb, bo, nb, xs);
  }

  lemma {:induction false} PartialDone(xs: seq<Limb>, rs: seq<Limb>, qs: seq<Limb>, vs: seq<Limb>)
    requires Partial(xs, rs, 0, qs, Val(vs))
    ensures IsDivision(xs, vs, qs, rs)
  {
    assert rs[0..] == rs;
  }
}
