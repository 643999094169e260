/** Limb arithmetic: numbers stored least significant limb first, in base 2^64. */
module Limbs {
  import opened Arith

  const B: nat := 0x1_0000_0000_0000_0000

  /** One machine word of a number's table. */
  type Limb = x: nat | x < B

  ghost function Pow(n: nat): (p: nat)
    ensures p >= 1
  {
    if n == 0 then 1 else B * Pow(n - 1)
  }

  /** The number a table of limbs stands for. */
  ghost function Val(s: seq<Limb>): nat
  {
    if s == [] then 0 else s[0] + B * Val(s[1..])
  }

  lemma {:induction false} EmptyTable()
    ensures Val([]) == 0 && Pow(0) == 1
  {
  }

  lemma {:induction false} PowAdd(m: nat, n: nat)
    ensures Pow(m + n) == Pow(m) * Pow(n)
  {
    if m > 0 {
      PowAdd(m - 1, n);
      assert Pow(m + n) == B * Pow((m - 1) + n);
      MulAssoc(B, Pow(m - 1), Pow(n));
    }
  }

  lemma {:induction false} PowMono(m: nat, n: nat)
    requires m <= n
    ensures Pow(m) <= Pow(n)
    ensures m < n ==> B * Pow(m) <= Pow(n)
  {
    if m < n {
      PowMono(m, n - 1);
      if m == n - 1 { } else { assert Pow(n) >= B * Pow(n - 1); }
    }
  }

  lemma {:induction false} ValConcat(s: seq<Limb>, t: seq<Limb>)
    ensures Val(s + t) == Val(s) + Pow(|s|) * Val(t)
  {
    if s == [] {
      assert s + t == t;
    } else {
      assert (s + t)[1..] == s[1..] + t;
      ValConcat(s[1..], t);
      MulAssoc(B, Pow(|s| - 1), Val(t));
    }
  }

  lemma {:induction false} ValAppend(s: seq<Limb>, x: Limb)
    ensures Val(s + [x]) == Val(s) + x * Pow(|s|)
  {
    ValConcat(s, [x]);
    assert Val([x]) == x;
  }

  /** Splitting a table at `k`. */
  lemma {:induction false} ValSplit(s: seq<Limb>, k: nat)
    requires k <= |s|
    ensures Val(s) == Val(s[..k]) + Pow(k) * Val(s[k..])
  {
    assert s == s[..k] + s[k..];
    ValConcat(s[..k], s[k..]);
  }

  lemma {:induction false} ValBound(s: seq<Limb>)
    ensures Val(s) < Pow(|s|)
  {
    if s != [] {
      ValBound(s[1..]);
    }
  }

  lemma {:induction false} SingleLimb(x: Limb)
    ensures Val([x]) == x
  {
    assert Val([]) == 0;
  }
}
