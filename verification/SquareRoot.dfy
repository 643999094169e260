/** The Karatsuba square root of limb tables. */
module SquareRoot {
  import opened Arith
  import opened Limbs
  import opened Powers
  import opened Kernels
  import opened SchoolbookDivision
  import opened Division
  import opened SqrtCore
  import opened WordSqrt

  // ---------- dividing by twice the high root ----------

  /** With its high bit set, the remainder of the high part still is at most twice the root,
      so one subtraction brings it below the root's weight. */
  lemma {:induction false} ReducedRemainder(rs: seq<Limb>, xs: seq<Limb>, k: nat, vs: seq<Limb>)
    requires IsDifference(rs, k, xs, vs, 0) && k <= 1
    requires Val(xs) + Pow(|xs|) <= 2 * Val(vs)
    ensures Val(rs) + Val(vs) == Val(xs) + Pow(|xs|)
  {
    ValBound(vs);
    BorrowsOnce(Val(rs), Val(xs), Val(vs), k, Pow(|xs|));
  }

  lemma {:induction false} BorrowsOnce(r: nat, x: nat, v: nat, k: nat, p: nat)
    requires r + v == x + k * p && x + p <= 2 * v && v < p && k <= 1
    ensures r + v == x + p
  {
  }

  method ReduceRemainder(taba: array<Limb>, ro: nat, tabs: array<Limb>, vo: nat, h: nat, qh: Limb)
    requires ro + h <= taba.Length && vo + h <= tabs.Length && taba != tabs && qh <= 1
    requires Val(taba[ro..ro + h]) + (if qh == 1 then Pow(h) else 0) <= 2 * Val(tabs[vo..vo + h])
    modifies taba
    ensures OnlyChanged(taba, ro, h)
    ensures Val(taba[ro..ro + h]) + (if qh == 1 then Val(tabs[vo..vo + h]) else 0)
         == old(Val(taba[ro..ro + h])) + (if qh == 1 then Pow(h) else 0)
  {
    hide Val, Pow, IsDifference;
    if qh != 0 {
      ghost var xs := taba[ro..ro + h];
      var k := MpSub(taba, ro, tabs, vo, h, 0);
      ReducedRemainder(taba[ro..ro + h], xs, k, tabs[vo..vo + h]);
    }
  }

  /** Halving the quotient by `s1` gives the quotient by `2 s1`; `e` is the parity bit shifted in. */
  lemma {:induction false} HalvedQuotient(r1: int, rr: int, qh0: int, s1: int, l: int, a1: int, qq: int, u0: int,
                                          qt: int, t: int,
                                          e: int, qh: int, v: int, ql: int)
    requires rr + qh0 * s1 == r1 && a1 + l * rr == qq * s1 + u0 && qq == t + qt * l
    requires qh0 + qt == 2 * qh + e && v * 2 + ql == t + e * l
    ensures r1 * l + a1 == (qh * l + v) * (2 * s1) + (u0 + ql * s1)
  {
    var q := qh * l + v;
    assert r1 * l == l * rr + (qh0 * l) * s1;
    assert qh0 * l + qq == 2 * q + ql by {
      assert (qh0 + qt) * l == (2 * qh + e) * l;
    }
    assert (qh0 * l) * s1 + qq * s1 == (2 * q + ql) * s1;
    assert (2 * q + ql) * s1 == q * (2 * s1) + ql * s1;
  }

  /** What the division leaves: quotient `q` (with high bit `qh`) and remainder `u` (with high bit `rh`). */
  ghost predicate IsRootDivision(r1: int, a1: int, s1: int, q: int, u: int, l: int) {
    MulAdd(a1, r1, l) == MulAdd(u, q, 2 * s1) && 0 <= q && 0 <= u < 2 * s1
  }

  /** `qs` and the bit `ql` are half of `ts` with the bit `e` above it. */
  ghost predicate IsHalf(qs: seq<Limb>, ql: nat, ts: seq<Limb>, e: nat) {
    |qs| == |ts| && Val(qs) * 2 + ql == Val(ts) + (if e == 1 then Pow(|ts|) else 0)
  }

  method HalveQuotient(tabs: array<Limb>, so: nat, tmp: array<Limb>, l: nat, qh0: Limb)
    returns (qh: Limb, ql: Limb, ghost e: nat)
    requires so + l <= tabs.Length && l + 1 <= tmp.Length && tabs != tmp && qh0 <= 1 && tmp[l] <= 1
    modifies tabs
    ensures OnlyChanged(tabs, so, l)
    ensures qh <= 1 && ql <= 1 && e <= 1
    ensures qh0 as int + tmp[l] == 2 * qh + e
    ensures IsHalf(tabs[so..so + l], ql, tmp[..l], e)
  {
    hide Val, Pow;
    qh := qh0 + tmp[l];
    e := qh % 2;
    CopyLimbs(tabs, so, tmp, 0, l);
    assert tmp[0..0 + l] == tmp[..l];
    OneBit(qh % 2);
    ql := MpShr(tabs, so, l, 1, qh % 2);
    qh := qh / 2;
  }

  lemma {:induction false} OneBit(x: nat)
    requires x < 2
    ensures Pow2(1) == 2 && LowBits(x, 1) == x
  {
    assert Pow2(0) == 1;
  }

  /** Takes the root from the remainder if it overflowed, then divides by the root. */
  method ReduceAndDivide(tabs: array<Limb>, so: nat, taba: array<Limb>, ao: nat, n: nat, l: nat, h: nat,
                         tmp: array<Limb>, qh0: Limb)
    returns (ghost rr: nat)
    requires 1 <= l <= h && n == l + h && so + n <= tabs.Length && ao + l + n <= taba.Length && l + 1 <= tmp.Length
    requires tabs != taba && tmp != tabs && tmp != taba && qh0 <= 1
    requires IsDivisor(tabs[so + l..so + l + h])
    requires Val(taba[ao + 2 * l..ao + 2 * l + h]) + (if qh0 == 1 then Pow(h)
                                                      else 0) <= 2 * Val(tabs[so + l..so + l + h])
    modifies taba, tmp
    ensures OnlyChanged(taba, ao + l, n) && OnlyChanged(tmp, 0, l + 1) && tmp[l] <= 1
    ensures rr + (if qh0 == 1 then Val(tabs[so + l..so + l + h])
                  else 0) == old(Val(taba[ao + 2 * l..ao + 2 * l + h])) + (if qh0 == 1 then Pow(h) else 0)
    ensures Val(taba[ao + l..ao + l + h]) < Val(tabs[so + l..so + l + h])
    ensures MulAdd(old(Val(taba[ao + l..ao + 2 * l])), Pow(l), rr)
            == MulAdd(Val(taba[ao + l..ao + l + h]), MulAdd(Val(tmp[..l]), Pow(l), tmp[l]),
                      Val(tabs[so + l..so + l + h]))
  {
    hide Val, Pow, MulAdd;
    ghost var as1 := taba[ao + l..ao + 2 * l];
    ReduceRemainder(taba, ao + 2 * l, tabs, so + l, h, qh0);
    rr := Val(taba[ao + 2 * l..ao + 2 * l + h]);
    assert taba[ao + l..ao + 2 * l] == as1;
    JoinedSlices(taba, ao + l, ao + 2 * l, ao + l + n);
    MpDivNorm(tmp, taba, ao + l, n, tabs, so + l, h);
    JoinedTop(tmp, l);
  }

  method DivideByRoot(tabs: array<Limb>, so: nat, taba: array<Limb>, ao: nat, n: nat, l: nat, h: nat, tmp: array<Limb>,
                      qh0: Limb)
    returns (qh: Limb, rh: Limb)
    requires 1 <= l <= h && n == l + h && so + n <= tabs.Length && ao + l + n <= taba.Length && l + 1 <= tmp.Length
    requires tabs != taba && tmp != tabs && tmp != taba && qh0 <= 1
    requires IsDivisor(tabs[so + l..so + l + h])
    requires Val(taba[ao + 2 * l..ao + 2 * l + h]) + (if qh0 == 1 then Pow(h)
                                                      else 0) <= 2 * Val(tabs[so + l..so + l + h])
    modifies taba, tabs, tmp
    ensures OnlyChanged(taba, ao + l, n) && OnlyChanged(tabs, so, l) && OnlyChanged(tmp, 0, l + 1)
    ensures qh <= 1 && rh <= 1
    ensures IsRootDivision(old(Val(taba[ao + 2 * l..ao + 2 * l + h])) + (if qh0 == 1 then Pow(h) else 0),
                           old(Val(taba[ao + l..ao + 2 * l])), Val(tabs[so + l..so + l + h]),
                           MulAdd(Val(tabs[so..so + l]), qh, Pow(l)), MulAdd(Val(taba[ao + l..ao + l + h]), rh, Pow(h)),
                              Pow(l))
  {
    hide Val, Pow, MulAdd, IsRootDivision, IsDivisor;
    ghost var vs, a1 := tabs[so + l..so + l + h], Val(taba[ao + l..ao + 2 * l]);
    ghost var s1, r1 := Val(vs), Val(taba[ao + 2 * l..ao + 2 * l + h]) + (if qh0 == 1 then Pow(h) else 0);
    ghost var rr := ReduceAndDivide(tabs, so, taba, ao, n, l, h, tmp, qh0);
    ghost var u0, t, qt := Val(taba[ao + l..ao + l + h]), Val(tmp[..l]), tmp[l];
    var ql; ghost var e;
    qh, ql, e := HalveQuotient(tabs, so, tmp, l, qh0);
    ghost var v := Val(tabs[so..so + l]);
    assert tabs[so + l..so + l + h] == vs;
    rh := RestoreRemainder(tabs, so + l, taba, ao + l, h, ql);
    ghost var w := MulAdd(Val(taba[ao + l..ao + l + h]), rh, Pow(h));
    RootDividedValues(r1, MulAdd(a1, Pow(l), rr), rr, qh0, s1, Pow(l), a1, MulAdd(t, Pow(l), qt), u0, qt, t, e, qh, v,
                      ql, w);
  }

  /** Adds the root back when the halved quotient dropped a bit. */
  method RestoreRemainder(tabs: array<Limb>, vo: nat, taba: array<Limb>, uo: nat, h: nat, ql: Limb) returns (rh: Limb)
    requires uo + h <= taba.Length && vo + h <= tabs.Length && taba != tabs && ql <= 1
    modifies taba
    ensures OnlyChanged(taba, uo, h) && rh <= 1
    ensures MulAdd(Val(taba[uo..uo + h]), rh,
                   Pow(h)) == old(Val(taba[uo..uo + h])) + (if ql == 1 then Val(tabs[vo..vo + h]) else 0)
  {
    hide Val, Pow;
    rh := 0;
    if ql != 0 {
      rh := MpAdd(taba, uo, tabs, vo, h, 0);
    }
  }

  lemma {:induction false} JoinedSlices(t: array<Limb>, a: nat, b: nat, c: nat)
    requires a <= b <= c <= t.Length
    ensures Val(t[a..c]) == MulAdd(Val(t[a..b]), Pow(b - a), Val(t[b..c]))
  {
    hide Pow;
    SliceJoin(t, a, b, c);
    ValConcat(t[a..b], t[b..c]);
  }

  lemma {:induction false} JoinedTop(t: array<Limb>, k: nat)
    requires k < t.Length
    ensures Val(t[..k + 1]) == MulAdd(Val(t[..k]), Pow(k), t[k]) == MulAdd(Val(t[..k]), t[k], Pow(k))
  {
    hide Pow;
    assert t[..k + 1] == t[..k] + [t[k]];
    ValAppend(t[..k], t[k]);
  }

  lemma {:induction false} RootDividedValues(r1: nat, x: int, rr: nat, qh0: nat, s1: nat, l: nat, a1: nat, qq: int,
                                             u0: nat, qt: nat, t: nat,
                                             e: nat, qh: nat, v: nat, ql: nat, w: int)
    requires rr + (if qh0 == 1 then s1 else 0) == r1 && qh0 <= 1 && e <= 1 && ql <= 1
    requires x == MulAdd(a1, l, rr) && x == MulAdd(u0, qq, s1) && u0 < s1 && qq == MulAdd(t, l, qt)
    requires qh0 + qt == 2 * qh + e && v * 2 + ql == t + (if e == 1 then l else 0)
    requires w == u0 + (if ql == 1 then s1 else 0)
    ensures IsRootDivision(r1, a1, s1, MulAdd(v, qh, l), w, l)
  {
    BitTimes(qh0, s1);
    BitTimes(ql, s1);
    BitTimes(e, l);
    HalvedQuotient(r1, rr, qh0, s1, l, a1, qq, u0, qt, t, e, qh, v, ql);
    MulMono(l, 0, qh);
  }

  // ---------- subtracting the square of the quotient ----------

  /** A limb read as a signed word. */
  function Signed(x: Limb): (v: int)
    ensures -(B as int) / 2 <= v < B / 2
  {
    if x >= B / 2 then x as int - B else x
  }

  function SignedDifference(x: Limb, k: Limb): (r: Limb)
    requires x <= 1 && k <= 1
    ensures Signed(r) == x as int - k
  {
    (x - k) % B
  }

  /** The square of the quotient taken from the low `2 l` limbs, `c` being the borrow it causes. When
      the quotient is `B^l` its square is exactly that borrow. The product is formed above limb `n`. */
  method SubtractLowSquare(tabs: array<Limb>, so: nat, taba: array<Limb>, ao: nat, n: nat, l: nat, qh: Limb)
    returns (c: Limb)
    requires 1 <= l && 2 * l <= n && so + l <= tabs.Length && ao + n + 2 * l <= taba.Length && tabs != taba && qh <= 1
    requires qh == 1 ==> Val(tabs[so..so + l]) == 0
    modifies taba
    ensures c <= 1
    ensures forall j :: 0 <= j < taba.Length && !(ao <= j < ao + 2 * l) && !(ao + n <= j < ao + n + 2 * l)
                        ==> taba[j] == old(taba[j])
    ensures var q := MulAdd(Val(tabs[so..so + l]), qh, Pow(l));
            Val(taba[ao..ao + 2 * l]) + q * q == MulAdd(old(Val(taba[ao..ao + 2 * l])), c, Pow(2 * l))
  {
    hide Val, Pow;
    if qh != 0 {
      c := qh;
      PowAdd(l, l);
      assert MulAdd(0, 1, Pow(l)) == Pow(l);
    } else {
      ghost var xs := taba[ao..ao + 2 * l];
      MpMul(taba, ao + n, tabs, so, l, tabs, so, l);
      assert taba[ao..ao + 2 * l] == xs;
      ghost var ys := taba[ao + n..ao + n + l + l];
      assert taba[ao + n..ao + n + 2 * l] == ys;
      c := MpSub(taba, ao, taba, ao + n, 2 * l, 0);
      assert MulAdd(Val(tabs[so..so + l]), 0, Pow(l)) == Val(tabs[so..so + l]);
    }
  }

  method SubtractSquare(tabs: array<Limb>, so: nat, taba: array<Limb>, ao: nat, n: nat, l: nat, qh: Limb, rh0: Limb)
    returns (rh: Limb)
    requires 1 <= l && 2 * l <= n && so + l <= tabs.Length && ao + n + 2 * l <= taba.Length && tabs != taba && qh <= 1
             && rh0 <= 1
    requires qh == 1 ==> Val(tabs[so..so + l]) == 0
    modifies taba
    ensures forall j :: 0 <= j < taba.Length && !(ao <= j < ao + n + 2 * l) ==> taba[j] == old(taba[j])
    ensures -1 <= Signed(rh) <= 1
    ensures var q := MulAdd(Val(tabs[so..so + l]), qh, Pow(l));
            MulAdd(Val(taba[ao..ao + n]), Signed(rh), Pow(n)) == MulAdd(old(Val(taba[ao..ao + n])), rh0, Pow(n)) - q * q
  {
    hide Val, Pow, MulAdd;
    ghost var q := MulAdd(Val(tabs[so..so + l]), qh, Pow(l));
    ghost var lo, hs, v := Val(taba[ao..ao + 2 * l]), taba[ao + 2 * l..ao + n], Val(taba[ao..ao + n]);
    JoinedSlices(taba, ao, ao + 2 * l, ao + n);
    var c := SubtractLowSquare(tabs, so, taba, ao, n, l, qh);
    assert taba[ao + 2 * l..ao + n] == hs;
    ghost var ls := taba[ao..ao + 2 * l];
    assert ao + 2 * l + (n - 2 * l) == ao + n;
    var k := MpSubUi(taba, ao + 2 * l, c, n - 2 * l);
    assert taba[ao..ao + 2 * l] == ls;
    JoinedSlices(taba, ao, ao + 2 * l, ao + n);
    PowAdd(2 * l, n - 2 * l);
    rh := SignedDifference(rh0, k);
    SquareTaken(lo, Val(ls), q * q, c, Pow(2 * l), Val(hs), Val(taba[ao + 2 * l..ao + n]), k, Pow(n - 2 * l), v,
                Val(taba[ao..ao + n]), rh0, Pow(n));
  }

  lemma {:induction false} SquareTaken(lo: nat, lo': nat, sq: int, c: nat, p: nat, hi: nat, hi': nat, k: nat, d: nat,
                                       v: nat, v': nat, rh0: nat, pn: nat)
    requires lo' + sq == MulAdd(lo, c, p) && hi' + c == MulAdd(hi, k, d)
    requires v == MulAdd(lo, p, hi) && v' == MulAdd(lo', p, hi') && pn == p * d
    ensures MulAdd(v', rh0 - k, pn) == MulAdd(v, rh0, pn) - sq
  {
    assert p * (hi' + c) == p * hi' + c * p;
    assert p * (hi + k * d) == p * hi + k * pn;
    assert (rh0 - k) * pn == rh0 * pn - k * pn;
  }

  // ---------- the final correction ----------

  /** The candidate root `cand` with signed remainder `rem`: right as it is, or one too large. */
  ghost predicate IsCandidate(a: int, cand: int, rem: int) {
    if rem >= 0 then IsRoot(a, cand, rem) else IsRoot(a, cand - 1, rem + 2 * (cand - 1) + 1)
  }

  /** A candidate whose remainder is not negative did not wrap. */
  lemma {:induction false} CandidateFits(a: int, cand: int, rem: int, p: int)
    requires IsCandidate(a, cand, rem) && a < p * p && 0 < p
    ensures if rem >= 0 then cand < p else 0 <= cand - 1 < p
  {
    if rem >= 0 {
      RootBelow(a, cand, rem, p);
    } else {
      RootBelow(a, cand - 1, rem + 2 * (cand - 1) + 1, p);
    }
  }

  /** The stored root differs from the candidate by what fell off the table. */
  lemma {:induction false} StoredRoot(stored: nat, k: nat, cand: int, p: nat)
    requires MulAdd(stored, k, p) == cand && 0 <= cand < p
    ensures stored == cand
  {
    if k >= 1 { MulMono(p, 1, k); }
  }

  lemma {:induction false} DecrementedRoot(stored: nat, stored': nat, k: int, b: int, cand: int, p: nat)
    requires MulAdd(stored, k, p) == cand && stored' + 1 == MulAdd(stored, b, p)
    requires 0 <= cand - 1 < p && stored' < p
    ensures stored' == cand - 1
  {
    MulDist(p, b, -k);
    CongruentInRange(cand - 1, stored', p, b - k);
  }

  /** The remainder after adding `2 s + 1`: its high limb is what the two carries leave. */
  lemma {:induction false} RepairedRemainder(v: nat, v1: nat, v2: nat, m: nat, c: nat, s: nat, p: nat, rem: int)
    requires MulAdd(v1, m, p) == MulAdd(v, s, 2) && MulAdd(v2, c, p) == v1 + 1 && v2 < p
    requires rem == v - p && 0 <= rem + 2 * s + 1 <= 2 * s && s < p
    ensures 0 <= m + c - 1 <= 1
    ensures MulAdd(v2, m + c - 1, p) == rem + 2 * s + 1
  {
    var t := m + c - 1;
    assert t * p == m * p + c * p - p;
    HighLimb(v2, t, p, rem + 2 * s + 1);
  }

  lemma {:induction false} HighLimb(v: int, t: int, p: int, r: int)
    requires v + t * p == r && 0 <= v < p && 0 <= r < 2 * p
    ensures 0 <= t <= 1
  {
    if t < 0 { MulMono(p, t, -1); }
    if t >= 2 { MulMono(p, 2, t); }
  }

  method RepairRoot(tabs: array<Limb>, so: nat, taba: array<Limb>, ao: nat, n: nat, rh0: Limb, ghost a: int,
                    ghost cand: int, ghost k: nat)
    returns (rh: Limb)
    requires 1 <= n && so + n <= tabs.Length && ao + n <= taba.Length && tabs != taba && -1 <= Signed(rh0) <= 1
    requires MulAdd(Val(tabs[so..so + n]), k, Pow(n)) == cand && a < Pow(n) * Pow(n)
    requires IsCandidate(a, cand, MulAdd(Val(taba[ao..ao + n]), Signed(rh0), Pow(n)))
    modifies tabs, taba
    ensures OnlyChanged(tabs, so, n) && OnlyChanged(taba, ao, n)
    ensures rh <= 1
    ensures IsRoot(a, Val(tabs[so..so + n]), MulAdd(Val(taba[ao..ao + n]), rh, Pow(n)))
  {
    hide Val, Pow, MulAdd;
    ghost var p, v := Pow(n), Val(taba[ao..ao + n]);
    ghost var rem := MulAdd(v, Signed(rh0), p);
    ValBound(taba[ao..ao + n]);
    SignOfRemainder(v, Signed(rh0), p);
    CandidateFits(a, cand, rem, p);
    rh := rh0;
    if rh0 >= B / 2 {
      ghost var s0 := Val(tabs[so..so + n]);
      var b := MpSubUi(tabs, so, 1, n);
      ValBound(tabs[so..so + n]);
      DecrementedRoot(s0, Val(tabs[so..so + n]), k, b, cand, p);
      CandidateRemainder(a, cand, rem);
      rh := AddTwiceRoot(tabs, so, taba, ao, n, rh0, rem, cand - 1);
    } else {
      StoredRoot(Val(tabs[so..so + n]), k, cand, p);
    }
  }

  lemma {:induction false} CandidateRemainder(a: int, cand: int, rem: int)
    requires IsCandidate(a, cand, rem) && rem < 0
    ensures 0 <= rem + 2 * (cand - 1) + 1 <= 2 * (cand - 1)
  {
  }

  lemma {:induction false} SignOfRemainder(v: nat, s: int, p: nat)
    requires v < p && -1 <= s <= 1
    ensures MulAdd(v, s, p) < 0 <==> s < 0
    ensures s < 0 ==> MulAdd(v, s, p) == v - p
  {
  }

  method AddTwiceRoot(tabs: array<Limb>, so: nat, taba: array<Limb>, ao: nat, n: nat, rh0: Limb, ghost rem: int,
                      ghost s: int)
    returns (rh: Limb)
    requires 1 <= n && so + n <= tabs.Length && ao + n <= taba.Length && tabs != taba && rh0 == B - 1
    requires s == Val(tabs[so..so + n]) && rem == Val(taba[ao..ao + n]) - Pow(n)
    requires 0 <= rem + 2 * s + 1 <= 2 * s
    modifies taba
    ensures OnlyChanged(taba, ao, n) && rh <= 1
    ensures MulAdd(Val(taba[ao..ao + n]), rh, Pow(n)) == rem + 2 * s + 1
  {
    hide Val, Pow, MulAdd;
    ghost var v := Val(taba[ao..ao + n]);
    ValBound(tabs[so..so + n]);
    var m := MpAddMul1(taba, ao, tabs, so, n, 2);
    ghost var v1 := Val(taba[ao..ao + n]);
    var c := MpAddUi(taba, ao, 1, n);
    ValBound(taba[ao..ao + n]);
    RepairedRemainder(v, v1, Val(taba[ao..ao + n]), m, c, s, Pow(n), rem);
    rh := AddCarries(rh0, m, c);
  }

  /** The high limb, all ones before, after both carries have been added. */
  function AddCarries(rh: Limb, m: Limb, c: Limb): (r: Limb)
    requires rh == B - 1 && 0 <= m as int + c - 1 <= 1
    ensures r as int == m as int + c - 1
  {
    ((rh + m) % B + c) % B
  }

  // ---------- the recursion ----------

  /** The remainder's high limb as an addend. */
  lemma {:induction false} HighBit(v: nat, q: nat, p: nat)
    requires q <= 1
    ensures MulAdd(v, q, p) == v + (if q == 1 then p else 0)
  {
  }

  /** The candidate root after the division: it satisfies the Karatsuba step. */
  lemma {:induction false} CandidateFound(a: int, ahi: int, s1: int, r1: int, a1: int, a0: int, q: int, u: int, l: int,
                                          cand: int, rem: int)
    requires IsRoot(ahi, s1, r1) && IsRootDivision(r1, a1, s1, q, u, l) && 0 < l <= 2 * s1 && 0 <= a1 < l && 0 <= a0 < l
    requires a == MulAdd(a0, l, MulAdd(a1, l, ahi))
    requires cand == MulAdd(q, s1, l) && rem == MulAdd(a0, l, u) - q * q
    ensures q <= l && IsCandidate(a, cand, rem)
  {
    hide MulAdd;
    var m := MulAdd(a1, l, ahi);
    Commute(a1, l, ahi);
    Commute(a0, l, m);
    Commute(a0, l, u);
    SqrtStep(ahi, m, a, s1, r1, q, u, a1, a0, l, cand, rem);
  }

  lemma {:induction false} Commute(lo: int, p: int, hi: int)
    ensures MulAdd(lo, p, hi) == MulAdd(lo, hi, p)
  {
  }

  lemma {:induction false} ZeroDigits(v: nat, q: nat, p: nat)
    requires MulAdd(v, q, p) <= p && q == 1
    ensures v == 0
  {
  }

  /** Carrying the quotient's high bit into the high root may overflow the table by exactly one. */
  lemma {:induction false} RootCarry(v: int, s1: int, s1': int, qh: int, k: int, l: int, h: int, q: int, stored: int,
                                     cand: int)
    requires MulAdd(s1', k, h) == s1 + qh && q == MulAdd(v, qh, l)
    requires stored == MulAdd(v, l, s1') && cand == MulAdd(q, s1, l)
    ensures MulAdd(stored, k, l * h) == cand
  {
    assert l * (s1' + k * h) == l * s1' + k * (l * h);
    assert l * (s1 + qh) == s1 * l + qh * l;
  }

  lemma {:induction false} LowJoin(a0: int, l: int, w: int, rh: int, h: int, v: int, u: int)
    requires v == MulAdd(a0, l, w) && u == MulAdd(w, rh, h)
    ensures MulAdd(v, rh, l * h) == MulAdd(a0, l, u)
  {
    assert l * (w + rh * h) == l * w + rh * (l * h);
  }

  /** From the root of the high limbs to the root of all. */
  method CombineRoots(tabs: array<Limb>, so: nat, taba: array<Limb>, ao: nat, n: nat, l: nat, h: nat, tmp: array<Limb>,
                      qh0: Limb,
                      ghost ahi: int, ghost a: int) returns (rh: Limb)
    requires 1 <= l <= h && n == l + h && so + n <= tabs.Length && ao + 2 * n <= taba.Length && l + 1 <= tmp.Length
    requires tabs != taba && tmp != tabs && tmp != taba && qh0 <= 1
    requires IsDivisor(tabs[so + l..so + l + h])
    requires IsRoot(ahi, Val(tabs[so + l..so + l + h]), MulAdd(Val(taba[ao + 2 * l..ao + 2 * l + h]), qh0, Pow(h)))
    requires a == MulAdd(Val(taba[ao..ao + l]), Pow(l), MulAdd(Val(taba[ao + l..ao + 2 * l]), Pow(l), ahi))
    requires a < Pow(n) * Pow(n)
    modifies tabs, taba, tmp
    ensures OnlyChanged(tabs, so, n) && OnlyChanged(taba, ao, 2 * n) && OnlyChanged(tmp, 0, l + 1)
    ensures rh <= 1
    ensures IsRoot(a, Val(tabs[so..so + n]), MulAdd(Val(taba[ao..ao + n]), rh, Pow(n)))
  {
    hide Val, Pow, MulAdd, IsRootDivision, IsCandidate, IsRoot;
    ghost var vs, as0, as1 := tabs[so + l..so + l + h], taba[ao..ao + l], taba[ao + l..ao + 2 * l];
    ghost var s1, r1 := Val(vs), MulAdd(Val(taba[ao + 2 * l..ao + 2 * l + h]), qh0, Pow(h));
    HighBit(Val(taba[ao + 2 * l..ao + 2 * l + h]), qh0, Pow(h));
    RemainderBound(ahi, s1, r1);
    var qh, rh1 := DivideByRoot(tabs, so, taba, ao, n, l, h, tmp, qh0);
    assert tabs[so + l..so + l + h] == vs && taba[ao..ao + l] == as0;
    ghost var v, w := Val(tabs[so..so + l]), Val(taba[ao + l..ao + l + h]);
    ghost var q, u := MulAdd(v, qh, Pow(l)), MulAdd(w, rh1, Pow(h));
    ghost var cand, rem := MulAdd(q, s1, Pow(l)), MulAdd(Val(as0), Pow(l), u) - q * q;
    BaseFits(vs, l);
    ValBound(as0);
    ValBound(as1);
    CandidateFound(a, ahi, s1, r1, Val(as1), Val(as0), q, u, Pow(l), cand, rem);
    if qh == 1 { ZeroDigits(v, qh, Pow(l)); }
    PowAdd(l, h);
    JoinedSlices(taba, ao, ao + l, ao + n);
    LowJoin(Val(as0), Pow(l), w, rh1, Pow(h), Val(taba[ao..ao + n]), u);
    rh := FinishRoot(tabs, so, taba, ao, n, l, h, qh, rh1, a, cand, rem);
  }

  /** Stores the quotient's high bit, takes its square from the remainder, and corrects. */
  method FinishRoot(tabs: array<Limb>, so: nat, taba: array<Limb>, ao: nat, n: nat, l: nat, h: nat, qh: Limb, rh1: Limb,
                    ghost a: int, ghost cand: int, ghost rem: int) returns (rh: Limb)
    requires 1 <= l <= h && n == l + h && so + n <= tabs.Length && ao + 2 * n <= taba.Length
    requires tabs != taba && qh <= 1 && rh1 <= 1
    requires qh == 1 ==> Val(tabs[so..so + l]) == 0
    requires cand == MulAdd(MulAdd(Val(tabs[so..so + l]), qh, Pow(l)), Val(tabs[so + l..so + l + h]), Pow(l))
    requires rem == MulAdd(Val(taba[ao..ao + n]), rh1, Pow(n))
                    - MulAdd(Val(tabs[so..so + l]), qh, Pow(l)) * MulAdd(Val(tabs[so..so + l]), qh, Pow(l))
    requires IsCandidate(a, cand, rem) && a < Pow(n) * Pow(n)
    modifies tabs, taba
    ensures OnlyChanged(tabs, so, n) && OnlyChanged(taba, ao, 2 * n)
    ensures rh <= 1
    ensures IsRoot(a, Val(tabs[so..so + n]), MulAdd(Val(taba[ao..ao + n]), rh, Pow(n)))
  {
    hide Val, Pow, MulAdd, IsCandidate, IsRoot, Signed;
    ghost var qs, s1 := tabs[so..so + l], Val(tabs[so + l..so + l + h]);
    ghost var q := MulAdd(Val(qs), qh, Pow(l));
    var k := MpAddUi(tabs, so + l, qh, h);
    assert tabs[so..so + l] == qs;
    JoinedSlices(tabs, so, so + l, so + n);
    PowAdd(l, h);
    RootCarry(Val(qs), s1, Val(tabs[so + l..so + l + h]), qh, k, Pow(l), Pow(h), q, Val(tabs[so..so + n]), cand);
    rh := SubtractSquare(tabs, so, taba, ao, n, l, qh, rh1);
    rh := RepairRoot(tabs, so, taba, ao, n, rh, a, cand, k);
  }

  lemma {:induction false} RemainderBound(a: int, s: int, r: int)
    requires IsRoot(a, s, r)
    ensures 0 <= r <= 2 * s
  {
  }

  lemma {:induction false} BaseFits(vs: seq<Limb>, l: nat)
    requires IsDivisor(vs) && l <= |vs|
    ensures 0 < Pow(l) <= 2 * Val(vs)
  {
    NormalizedRange(vs);
    PowMono(l, |vs|);
  }

  /** Two spare bits in the operand make the root's top bit set. */
  lemma {:induction false} RootIsDivisor(as_: seq<Limb>, ss: seq<Limb>, r: int)
    requires |as_| == 2 * |ss| && |ss| >= 1 && 4 * as_[|as_| - 1] as int >= B
    requires IsRoot(Val(as_), Val(ss), r)
    ensures IsDivisor(ss)
  {
    var n := |ss|;
    TopLimb(as_, 2 * n - 1);
    TopLimb(ss, n - 1);
    PowAdd(n, n);
    HalfWeight(n);
    HalfWeight(2 * n);
    hide Val, Pow, IsRoot;
    QuarterSquare(as_[2 * n - 1], Pow(2 * n - 1), Val(as_[..2 * n - 1]), Val(as_), Pow(n), Pow(n) / 2);
    RootNormalized(Val(as_), Val(ss), r, Pow(n) / 2);
    TopHalf(ss[n - 1], Pow(n - 1), Val(ss[..n - 1]), Val(ss));
  }

  lemma {:induction false} QuarterSquare(top: nat, w: nat, low: nat, a: int, p: nat, half: nat)
    requires a == top * w + low && 4 * top >= B && p == 2 * half && p * p == B * w
    ensures half * half <= a
  {
    MulMono(w, B, 4 * top);
    assert (2 * half) * (2 * half) == 4 * (half * half);
  }

  lemma {:induction false} HalfWeight(n: nat)
    requires n >= 1
    ensures 2 * (Pow(n) / 2) == Pow(n) && Pow(n) == B * Pow(n - 1) && Pow(n) / 2 > 0
  {
  }

  lemma {:induction false} TopHalf(top: nat, w: nat, low: nat, v: nat)
    requires v == top * w + low && low < w && 2 * v >= B * w
    ensures 2 * top >= B
  {
    if 2 * top < B {
      MulMono(w, 2 * top + 2, B);
      MulDist(w, 2 * top, 2);
    }
  }

  /** Root and remainder of `2 n` limbs. `tabs` receives the root, the low `n` limbs of `taba` the
      remainder, whose high limb is returned. */
  method MpSqrtRemRec(tabs: array<Limb>, so: nat, taba: array<Limb>, ao: nat, n: nat, tmp: array<Limb>)
    returns (rh: Limb)
    requires 1 <= n && so + n <= tabs.Length && ao + 2 * n <= taba.Length && n / 2 + 1 <= tmp.Length
    requires tabs != taba && tmp != tabs && tmp != taba
    requires 4 * taba[ao + 2 * n - 1] as int >= B
    modifies tabs, taba, tmp
    ensures OnlyChanged(tabs, so, n) && OnlyChanged(taba, ao, 2 * n) && OnlyChanged(tmp, 0, n / 2 + 1)
    ensures rh <= 1
    ensures IsRoot(old(Val(taba[ao..ao + 2 * n])), Val(tabs[so..so + n]), MulAdd(Val(taba[ao..ao + n]), rh, Pow(n)))
    decreases n
  {
    hide Val, Pow, MulAdd, IsRoot;
    if n == 1 {
      rh := SqrtOfTwoLimbs(tabs, so, taba, ao);
      return;
    }
    var l := n / 2;
    var h := n - l;
    ghost var as0, as1, as2 := taba[ao..ao + l], taba[ao + l..ao + 2 * l], taba[ao + 2 * l..ao + 2 * n];
    ghost var a := Val(taba[ao..ao + 2 * n]);
    OperandParts(taba, ao, n, l);
    assert as2 == taba[ao + 2 * l..ao + 2 * l + 2 * h];
    var qh := MpSqrtRemRec(tabs, so + l, taba, ao + 2 * l, h, tmp);
    RootIsDivisor(as2, tabs[so + l..so + l + h], MulAdd(Val(taba[ao + 2 * l..ao + 2 * l + h]), qh, Pow(h)));
    assert taba[ao..ao + l] == as0;
    assert taba[ao + l..ao + 2 * l] == as1;
    rh := CombineRoots(tabs, so, taba, ao, n, l, h, tmp, qh, Val(as2), a);
  }

  /** The operand as two low digits of `l` limbs below its high part. */
  lemma {:induction false} OperandParts(t: array<Limb>, ao: nat, n: nat, l: nat)
    requires l <= n && ao + 2 * n <= t.Length
    ensures Val(t[ao..ao + 2 * n]) == MulAdd(Val(t[ao..ao + l]), Pow(l),
                                             MulAdd(Val(t[ao + l..ao + 2 * l]), Pow(l), Val(t[ao + 2 * l..ao + 2 * n])))
    ensures Val(t[ao..ao + 2 * n]) < Pow(n) * Pow(n)
  {
    hide Val, Pow, MulAdd;
    JoinedSlices(t, ao, ao + l, ao + 2 * n);
    JoinedSlices(t, ao + l, ao + 2 * l, ao + 2 * n);
    SquareBound(t[ao..ao + 2 * n], n);
  }

  lemma {:induction false} SquareBound(s: seq<Limb>, n: nat)
    requires |s| == 2 * n
    ensures Val(s) < Pow(n) * Pow(n)
  {
    ValBound(s);
    PowAdd(n, n);
  }

  method SqrtOfTwoLimbs(tabs: array<Limb>, so: nat, taba: array<Limb>, ao: nat) returns (rh: Limb)
    requires so + 1 <= tabs.Length && ao + 2 <= taba.Length && tabs != taba && 4 * taba[ao + 1] as int >= B
    modifies tabs, taba
    ensures OnlyChanged(tabs, so, 1) && OnlyChanged(taba, ao, 1) && rh <= 1
    ensures IsRoot(old(Val(taba[ao..ao + 2])), Val(tabs[so..so + 1]), MulAdd(Val(taba[ao..ao + 1]), rh, Pow(1)))
  {
    hide MpSqrtRem2;
    var p := MpSqrtRem2(taba[ao + 1], taba[ao]);
    TwoLimbs(taba[ao], taba[ao + 1]);
    assert taba[ao..ao + 2] == [taba[ao], taba[ao + 1]];
    tabs[so], taba[ao], rh := p.0, p.1, p.2;
    assert tabs[so..so + 1] == [p.0] && taba[ao..ao + 1] == [p.1];
    OneLimb(p.0);
    OneLimb(p.1);
    assert Pow(0) == 1;
  }

  lemma {:induction false} TwoLimbs(x: Limb, y: Limb)
    ensures Val([x, y]) == y as int * B + x
  {
    assert [x, y][1..] == [y];
    OneLimb(y);
  }

  /** Floor of the square root, with remainder, of every normalized table. */
  method MpSqrtRem(tabs: array<Limb>, taba: array<Limb>, n: nat)
    requires 1 <= n <= tabs.Length && taba.Length == 2 * n && tabs != taba
    requires 4 * taba[2 * n - 1] as int >= B
    modifies tabs, taba
    ensures OnlyChanged(tabs, 0, n)
    ensures IsRoot(old(Val(taba[..])), Val(tabs[..n]), Val(taba[..n + 1]))
  {
    hide Val, Pow, MulAdd, IsRoot;
    var tmp := new Limb[n / 2 + 1];
    assert taba[0..0 + 2 * n] == taba[..];
    var rh := MpSqrtRemRec(tabs, 0, taba, 0, n, tmp);
    assert tabs[0..0 + n] == tabs[..n] && taba[0..0 + n] == taba[..n];
    ghost var rs := taba[..n];
    taba[n] := rh;
    assert taba[..n] == rs;
    JoinedTop(taba, n);
  }

  /** What `MpSqrtRem` returns is all there is: no other root and remainder qualify. */
  lemma {:induction false} RootUnique(a: int, s: int, r: int, s': int, r': int)
    requires IsRoot(a, s, r) && IsRoot(a, s', r')
    ensures s == s' && r == r'
  {
    RootOrder(a, s, r, s', r');
    RootOrder(a, s', r', s, r);
  }
}
