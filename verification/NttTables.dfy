/** The five moduli of the transform and the tables computed from them once. */
module NttTables {
  import opened Arith
  import opened Powers
  import opened Limbs
  import opened Modular
  import opened Fourier
  import opened NttWords
  import opened NttRoots
  import opened Ntt

  const NB_MODS: nat := 5
  const NTT_PROOT_2EXP: nat := 51
  const NTT_TRIG_K_MAX: nat := 19

  const NTT_MODS: seq<Limb> := [
    0x28d8000000000001, 0x2a88000000000001, 0x2ed8000000000001, 0x3508000000000001, 0x3aa8000000000001
  ]
  const NTT_PROOT: seq<Limb> := [
    0x1b8ea61034a2bea7, 0x21a9762de58206fb, 0x02ca782f0756a8ea, 0x278384537a3e50a1, 0x106e13fee74ce0ab
  ]
  const NTT_PROOT_INV: seq<Limb> := [
    0x233513af133e13b8, 0x1d13140d1c6f75f1, 0x12cde57f97e3eeda, 0x0d6149e23cbe654f, 0x36cd204f522a1379
  ]

  /** The constants of modulus `j` are what the transform needs. */
  lemma {:induction false} ModulusConstants(j: nat)
    requires j < NB_MODS
    ensures var m, w, v := NTT_MODS[j], NTT_PROOT[j], NTT_PROOT_INV[j];
            && IsModulus(m) && m % 2 == 1 && w < m && v < m
            && RootAt(w, NTT_PROOT_2EXP, m) && RootAt(v, NTT_PROOT_2EXP, m) && Cong(w as int * v, 1, m)
  {
    hide RootAt, Cong;
    if j == 0 { Root0(); }
    else if j == 1 { Root1(); }
    else if j == 2 { Root2(); }
    else if j == 3 { Root3(); }
    else { Root4(); }
  }

  // ---------- the inverses of the lengths ----------

  /** Powers of one half, with their quotients. */
  method InitNorms(m: Limb, mInv: Limb) returns (norms: seq<Limb>, normsInv: seq<Limb>)
    requires IsModInverse(m, mInv) && m % 2 == 1
    ensures |norms| == |normsInv| == NTT_PROOT_2EXP + 1
    ensures forall k :: 0 <= k <= NTT_PROOT_2EXP ==> IsNormAt(norms, normsInv, k, m)
  {
    hide Cong, MulModFast, IsFactor, Pow2;
    var half := (m + 1) / 2;
    var c: Limb := 1;
    norms, normsInv := [], [];
    FirstNorm(m);
    for i := 0 to NTT_PROOT_2EXP + 1
      invariant |norms| == |normsInv| == i
      invariant c < m && Cong(c as int * Pow2(i), 1, m)
      invariant forall k :: 0 <= k < i ==> IsNormAt(norms, normsInv, k, m)
    {
      ghost var n0, i0 := norms, normsInv;
      norms, normsInv := norms + [c], normsInv + [InitMulModFast2(c, m)];
      forall k | 0 <= k <= i
        ensures IsNormAt(norms, normsInv, k, m)
      {
        if k < i { assert IsNormAt(n0, i0, k, m); }
      }
      HalfFits(c, m);
      var c' := MulModFast(c, half, m, mInv);
      NextNorm(c, c', half, i, m);
      c := c';
    }
  }

  lemma {:induction false} FirstNorm(m: int)
    requires m > 0
    ensures Cong(1 * Pow2(0), 1, m)
  {
    CongRefl(1, m);
  }

  lemma {:induction false} HalfFits(c: nat, m: nat)
    requires IsModulus(m) && c < m
    ensures c * ((m + 1) / 2) < MOD_FAST_MAX
  {
    MulMono(c, (m + 1) / 2, MOD_MAX);
    MulMono(MOD_MAX, c, MOD_MAX - 1);
  }

  lemma {:induction false} NextNorm(c: int, c': int, half: int, i: nat, m: int)
    requires m > 0 && 2 * half == m + 1 && Cong(c * Pow2(i), 1, m) && Cong(c', c * half, m)
    ensures Cong(c' * Pow2(i + 1), 1, m)
  {
    hide Cong;
    var p := Pow2(i);
    CongRefl(2 * p, m);
    CongMul(c', c * half, 2 * p, 2 * p, m);
    assert (c * half) * (2 * p) == (c * p) * (2 * half);
    CongIntro(2 * half, 1, m, 1);
    CongMul(c * p, 1, 2 * half, 1, m);
    CongTrans(c' * (2 * p), (c * p) * (2 * half), 1, m);
  }

  // ---------- the roots ----------

  /** Squares of a root, filed by level, with their quotients. */
  method InitRoots(w: Limb, m: Limb, mInv: Limb) returns (roots: seq<Limb>, rootsInv: seq<Limb>)
    requires IsModInverse(m, mInv) && w < m && RootAt(w, NTT_PROOT_2EXP, m)
    ensures roots != [] && roots[|roots| - 1] == w && |roots| == NTT_PROOT_2EXP + 1
    ensures IsRootTable(roots, rootsInv, NTT_PROOT_2EXP, m)
  {
    hide Cong, MulModFast, IsFactor, RootAt;
    var c: Limb := w;
    roots, rootsInv := seq(NTT_PROOT_2EXP + 1, _ => 0), seq(NTT_PROOT_2EXP + 1, _ => 0);
    for i := 0 to NTT_PROOT_2EXP
      invariant |roots| == |rootsInv| == NTT_PROOT_2EXP + 1
      invariant c < m && (i == 0 ==> c == w) && (i > 0 ==> roots[NTT_PROOT_2EXP] == w)
      invariant i > 0 ==> Cong(c, roots[NTT_PROOT_2EXP - i + 1] as int * roots[NTT_PROOT_2EXP - i + 1], m)
      invariant forall l :: NTT_PROOT_2EXP - i < l <= NTT_PROOT_2EXP ==> IsFactor(roots[l], m, rootsInv[l])
      invariant forall l :: NTT_PROOT_2EXP - i < l < NTT_PROOT_2EXP
                            ==> Cong(roots[l], roots[l + 1] as int * roots[l + 1], m)
    {
      var e := NTT_PROOT_2EXP - i;
      roots, rootsInv := roots[e := c], rootsInv[e := InitMulModFast2(c, m)];
      ProductFits(c, c, m);
      c := MulModFast(c, c, m, mInv);
    }
    assert forall l :: 1 < l <= NTT_PROOT_2EXP ==> Cong(roots[l - 1], roots[(l - 1) + 1] as int * roots[l], m);
  }

  /** All tables of one modulus. */
  method InitPlan(m: Limb, w: Limb, v: Limb) returns (p: Plan)
    requires IsModulus(m) && m % 2 == 1 && w < m && v < m
    requires RootAt(w, NTT_PROOT_2EXP, m) && RootAt(v, NTT_PROOT_2EXP, m) && Cong(w as int * v, 1, m)
    ensures p.m == m && forall k :: 1 <= k <= NTT_PROOT_2EXP ==> ValidPlan(p, k)
  {
    hide Cong, RootAt, IsRootTable;
    var mInv := InitMulModFast(m);
    var norms, normsInv := InitNorms(m, mInv);
    var roots, rootsInv := InitRoots(w, m, mInv);
    var backRoots, backRootsInv := InitRoots(v, m, mInv);
    p := Plan(m, mInv, roots, rootsInv, backRoots, backRootsInv, norms, normsInv);
    forall k | 1 <= k <= NTT_PROOT_2EXP
      ensures ValidPlan(p, k)
    {
      RootsAtLevel(roots, rootsInv, backRoots, backRootsInv, NTT_PROOT_2EXP, k, m);
    }
  }

  lemma {:induction false} RootsAtLevel(r: seq<Limb>, ri: seq<Limb>, b: seq<Limb>, bi: seq<Limb>, e: nat, k: nat,
                                        m: nat)
    requires m > 0 && 1 <= k <= e && IsRootTable(r, ri, e, m) && IsRootTable(b, bi, e, m)
             && Cong(r[e] as int * b[e], 1, m)
    ensures IsRootTable(r, ri, k, m) && IsRootTable(b, bi, k, m) && Cong(r[k] as int * b[k], 1, m)
    decreases e - k
  {
    hide Cong, RootAt, IsFactor;
    if k < e {
      RootsAtLevel(r, ri, b, bi, e, k + 1, m);
      RootBelow(r, ri, k + 1, m);
      RootBelow(b, bi, k + 1, m);
      SquaredInverse(r[k + 1], b[k + 1], r[k], b[k], m);
    }
  }

  lemma {:induction false} SquaredInverse(w: int, v: int, w': int, v': int, m: int)
    requires m > 0 && Cong(w * v, 1, m) && Cong(w', w * w, m) && Cong(v', v * v, m)
    ensures Cong(w' * v', 1, m)
  {
    hide Cong;
    CongMul(w', w * w, v', v * v, m);
    CongMul(w * v, 1, w * v, 1, m);
    Regroup(w, w, v, v);
    CongTrans(w' * v', (w * w) * (v * v), 1, m);
  }

  // ---------- the remainders' inverses ----------

  /** For each pair `j < k`, row by row, the inverse of modulus `j` modulo modulus `k`. */
  const NTT_MODS_CR: seq<Limb> := [
    0x08a9ed097b425eea, 0x18a44aaaaaaaaab3, 0x2493f57f57f57f5d, 0x126b8d0649a7f8d4,
    0x09d80ed7303b5ccc, 0x25b8bcf3cf3cf3d5, 0x2ce6ce63398ce638,
    0x0e31fad40a57eb59, 0x02a3529fd4a7f52f,
    0x3a5493e93e93e94a
  ]

  /** Where the pair `j < k` is filed. */
  function PairIndex(j: nat, k: nat): (l: nat)
    requires j < k < NB_MODS
    ensures l < 10
  {
    (if j == 0 then 0 else if j == 1 then 4 else if j == 2 then 7 else 9) + (k - j - 1)
  }

  /** `c` with quotient `cInv` undoes multiplication by modulus `j`, modulo modulus `k`. */
  ghost predicate IsPairInverse(c: Limb, cInv: Limb, j: nat, k: nat)
    requires j < k < NB_MODS
  {
    IsFactor(c, NTT_MODS[k], cInv) && Cong(NTT_MODS[j] as int * c, 1, NTT_MODS[k])
  }

  lemma {:induction false} PairConstants(j: nat, k: nat)
    requires j < k < NB_MODS
    ensures var c := NTT_MODS_CR[PairIndex(j, k)];
            c < NTT_MODS[k] && Cong(NTT_MODS[j] as int * c, 1, NTT_MODS[k])
  {
    hide Cong;
    var m: int, n: int, c: int := NTT_MODS[j], NTT_MODS[k], NTT_MODS_CR[PairIndex(j, k)];
    var q := (m * c - 1) / n;
    assert m * c - 1 == q * n;
    CongIntro(m * c, 1, n, q);
  }

  method InitPairInverses() returns (invs: seq<Limb>)
    ensures |invs| == 10
    ensures forall j, k :: 0 <= j < k < NB_MODS
                           ==> IsPairInverse(NTT_MODS_CR[PairIndex(j, k)], invs[PairIndex(j, k)], j, k)
  {
    hide Cong, IsFactor;
    invs := [];
    for j := 0 to NB_MODS - 1
      invariant |invs| == if j < NB_MODS - 1 then PairIndex(j, j + 1) else 10
      invariant forall j', k' :: 0 <= j' < j && j' < k' < NB_MODS ==> PairIndex(j', k') < |invs|
                                                                      && IsPairInverse(NTT_MODS_CR[PairIndex(j', k')],
                  invs[PairIndex(j', k')], j', k')
    {
      for k := j + 1 to NB_MODS
        invariant |invs| == PairIndex(j, j + 1) + (k - j - 1)
        invariant forall j', k' :: 0 <= j' < j && j' < k' < NB_MODS ==>
                    PairIndex(j', k') < |invs|
                    && IsPairInverse(NTT_MODS_CR[PairIndex(j', k')], invs[PairIndex(j', k')], j', k')
        invariant forall k' :: j < k' < k ==> PairIndex(j, k') < |invs|
                                              && IsPairInverse(NTT_MODS_CR[PairIndex(j, k')], invs[PairIndex(j, k')], j,
                                                               k')
      {
        PairConstants(j, k);
        invs := invs + [InitMulModFast2(NTT_MODS_CR[PairIndex(j, k)], NTT_MODS[k])];
      }
    }
  }

  // ---------- all tables ----------

  datatype NttState = NttState(plans: seq<Plan>, pairInverses: seq<Limb>)

  /** The tables of modulus `j` serve every length up to `2^51`. */
  ghost predicate ValidModulus(p: Plan, j: nat)
    requires j < NB_MODS
  {
    p.m == NTT_MODS[j] && forall k :: 1 <= k <= NTT_PROOT_2EXP ==> ValidPlan(p, k)
  }

  ghost predicate ValidState(s: NttState) {
    && |s.plans| == NB_MODS && |s.pairInverses| == 10
    && (forall j :: 0 <= j < NB_MODS ==> ValidModulus(s.plans[j], j))
    && (forall j, k :: 0 <= j < k < NB_MODS
                       ==> IsPairInverse(NTT_MODS_CR[PairIndex(j, k)], s.pairInverses[PairIndex(j, k)], j, k))
  }

  method StaticInit() returns (s: NttState)
    ensures ValidState(s)
  {
    hide IsPairInverse, ValidPlan, RootAt, Cong;
    var plans: seq<Plan> := [];
    for j := 0 to NB_MODS
      invariant |plans| == j
      invariant forall i :: 0 <= i < j ==> ValidModulus(plans[i], i)
    {
      ModulusConstants(j);
      var p := InitPlan(NTT_MODS[j], NTT_PROOT[j], NTT_PROOT_INV[j]);
      plans := plans + [p];
    }
    var invs := InitPairInverses();
    s := NttState(plans, invs);
  }
}
