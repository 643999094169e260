/** The limb kernels of libbf: single passes over limb tables with wrapping words. A pointer
    into a table is an array together with an offset; every kernel that the division, reciprocal
    and square-root routines call with `res == op1` updates its first table in place. */
module Kernels {
  import opened Arith
  import opened Limbs
  import opened Powers

  /** Only `n` limbs from `o` on may have changed. */
  twostate predicate OnlyChanged(t: array<Limb>, o: nat, n: nat)
    reads t
  {
    forall j :: 0 <= j < t.Length && !(o <= j < o + n) ==> t[j] == old(t[j])
  }

  /** Adjacent slices join. */
  lemma {:induction false} SliceJoin(t: array<Limb>, a: nat, b: nat, c: nat)
    requires a <= b <= c <= t.Length
    ensures t[a..c] == t[a..b] + t[b..c]
  {
  }

  lemma {:induction false} SliceLast(t: array<Limb>, a: nat, b: nat)
    requires a <= b < t.Length
    ensures t[a..b + 1] == t[a..b] + [t[b]]
  {
  }

  lemma {:induction false} Distribute(p: nat, r: int, k: int, x: int, y: int, z: int)
    requires r + k * B == x + y + z
    ensures r * p + k * (B * p) == x * p + y * p + z * p
  {
    assert (r + k * B) * p == r * p + k * (B * p);
    assert (x + y + z) * p == x * p + y * p + z * p;
  }

  // ---------- addition ----------

  /** `rs` with carry `k` out of its top limb is `xs + ys + c`. */
  ghost predicate IsSum(rs: seq<Limb>, k: nat, xs: seq<Limb>, ys: seq<Limb>, c: nat) {
    |xs| == |ys| == |rs| && MulAdd(Val(rs), k, Pow(|rs|)) == Val(xs) + Val(ys) + c
  }

  lemma {:induction false} SumStep(rs: seq<Limb>, a: Limb, k: nat, k': nat, xs: seq<Limb>, ys: seq<Limb>, c: nat,
                                   x: Limb, y: Limb)
    requires IsSum(rs, k, xs, ys, c)
    requires a as int + k' * B == x as int + y + k
    ensures IsSum(rs + [a], k', xs + [x], ys + [y], c)
  {
    ValAppend(rs, a);
    ValAppend(xs, x);
    ValAppend(ys, y);
    Distribute(Pow(|rs|), a, k', x, y, k);
  }

  /** One wrapped word of an addition and its carry. */
  function AddWord(v: Limb, y: Limb, k: Limb): (r: (Limb, Limb))
    requires k <= 1
    ensures r.1 <= 1
    ensures r.0 as int + r.1 * B == v as int + y + k
  {
    var a := (v + y) % B;
    var k1 := if a < v then 1 else 0;
    var a' := (a + k) % B;
    (a', if a' < k || k1 != 0 then 1 else 0)
  }

  method MpAdd(res: array<Limb>, ro: nat, op2: array<Limb>, o2: nat, n: nat, carry: Limb) returns (k: Limb)
    requires ro + n <= res.Length && o2 + n <= op2.Length
    requires res != op2 || ro + n <= o2 || o2 + n <= ro
    requires carry <= 1
    modifies res
    ensures OnlyChanged(res, ro, n)
    ensures k <= 1
    ensures IsSum(res[ro..ro + n], k, old(res[ro..ro + n]), old(op2[o2..o2 + n]), carry)
  {
    ghost var xs, ys := res[ro..ro + n], op2[o2..o2 + n];
    ghost var rs: seq<Limb> := [];
    k := carry;
    for i := 0 to n
      invariant k <= 1 && |rs| == i
      invariant OnlyChanged(res, ro, i)
      invariant forall j :: 0 <= j < i ==> res[ro + j] == rs[j]
      invariant IsSum(rs, k, xs[..i], ys[..i], carry)
    {
      var (a, k') := AddWord(res[ro + i], op2[o2 + i], k);
      SumStep(rs, a, k, k', xs[..i], ys[..i], carry, xs[i], ys[i]);
      assert xs[..i] + [xs[i]] == xs[..i + 1];
      assert ys[..i] + [ys[i]] == ys[..i + 1];
      res[ro + i] := a;
      k := k';
      rs := rs + [a];
    }
    assert xs[..n] == xs && ys[..n] == ys && res[ro..ro + n] == rs;
  }

  // ---------- subtraction ----------

  /** `rs` is `xs - ys - c`, having borrowed `k` from above its top limb. */
  ghost predicate IsDifference(rs: seq<Limb>, k: nat, xs: seq<Limb>, ys: seq<Limb>, c: nat) {
    |xs| == |ys| == |rs| && Val(rs) + Val(ys) + c == MulAdd(Val(xs), k, Pow(|rs|))
  }

  lemma {:induction false} DifferenceStep(rs: seq<Limb>, a: Limb, k: nat, k': nat, xs: seq<Limb>, ys: seq<Limb>, c: nat,
                                          x: Limb, y: Limb)
    requires IsDifference(rs, k, xs, ys, c)
    requires x as int + k' * B == a as int + y + k
    ensures IsDifference(rs + [a], k', xs + [x], ys + [y], c)
  {
    ValAppend(rs, a);
    ValAppend(xs, x);
    ValAppend(ys, y);
    Distribute(Pow(|rs|), x, k', a, y, k);
  }

  /** One wrapped word of a subtraction and its borrow. */
  function SubWord(v: Limb, y: Limb, k: Limb): (r: (Limb, Limb))
    requires k <= 1
    ensures r.1 <= 1
    ensures v as int + r.1 * B == r.0 as int + y + k
  {
    var a := (v - y) % B;
    var k1 := if a > v then 1 else 0;
    var v' := (a - k) % B;
    (v', if v' > a || k1 != 0 then 1 else 0)
  }

  method MpSub(res: array<Limb>, ro: nat, op2: array<Limb>, o2: nat, n: nat, carry: Limb) returns (k: Limb)
    requires ro + n <= res.Length && o2 + n <= op2.Length
    requires res != op2 || ro + n <= o2 || o2 + n <= ro
    requires carry <= 1
    modifies res
    ensures OnlyChanged(res, ro, n)
    ensures k <= 1
    ensures IsDifference(res[ro..ro + n], k, old(res[ro..ro + n]), old(op2[o2..o2 + n]), carry)
  {
    ghost var xs, ys := res[ro..ro + n], op2[o2..o2 + n];
    ghost var rs: seq<Limb> := [];
    k := carry;
    for i := 0 to n
      invariant k <= 1 && |rs| == i
      invariant OnlyChanged(res, ro, i)
      invariant forall j :: 0 <= j < i ==> res[ro + j] == rs[j]
      invariant IsDifference(rs, k, xs[..i], ys[..i], carry)
    {
      var (a, k') := SubWord(res[ro + i], op2[o2 + i], k);
      DifferenceStep(rs, a, k, k', xs[..i], ys[..i], carry, xs[i], ys[i]);
      assert xs[..i] + [xs[i]] == xs[..i + 1];
      assert ys[..i] + [ys[i]] == ys[..i + 1];
      res[ro + i] := a;
      k := k';
      rs := rs + [a];
    }
    assert xs[..n] == xs && ys[..n] == ys && res[ro..ro + n] == rs;
  }

  /** Two's complement negation of a table. */
  method MpNeg(res: array<Limb>, n: nat, carry: Limb) returns (k: Limb)
    requires n <= res.Length
    requires carry <= 1
    modifies res
    ensures OnlyChanged(res, 0, n)
    ensures k <= 1
    ensures Val(res[..n]) + old(Val(res[..n])) + carry == if k == 0 then 0 else Pow(n)
  {
    ghost var ys := res[..n];
    ghost var rs: seq<Limb> := [];
    k := carry;
    for i := 0 to n
      invariant k <= 1 && |rs| == i
      invariant OnlyChanged(res, 0, i)
      invariant forall j :: 0 <= j < i ==> res[j] == rs[j]
      invariant IsDifference(rs, k, seq(i, _ => 0), ys[..i], carry)
    {
      var (a, k') := SubWord(0, res[i], k);
      DifferenceStep(rs, a, k, k', seq(i, _ => 0), ys[..i], carry, 0, ys[i]);
      assert seq(i, _ => 0) + [0] == seq(i + 1, _ => 0 as Limb);
      assert ys[..i] + [ys[i]] == ys[..i + 1];
      res[i] := a;
      k := k';
      rs := rs + [a];
    }
    assert ys[..n] == ys && res[..n] == rs;
    ValZeros(n);
  }

  lemma {:induction false} ValZeros(n: nat)
    ensures Val(seq(n, _ => 0)) == 0
  {
    if n > 0 {
      ValZeros(n - 1);
      assert seq(n, _ => 0 as Limb)[1..] == seq(n - 1, _ => 0 as Limb);
    }
  }

  // ---------- adding and subtracting one word ----------

  /** `rs` with carry `k` is `xs + b`. */
  ghost predicate IsIncrement(rs: seq<Limb>, k: nat, xs: seq<Limb>, b: nat) {
    |xs| == |rs| && MulAdd(Val(rs), k, Pow(|rs|)) == Val(xs) + b
  }

  /** Once the carry is gone the remaining limbs need not be visited. */
  lemma {:induction false} UntouchedTail(rs: seq<Limb>, xs: seq<Limb>, i: nat)
    requires |rs| == |xs| && i <= |xs| && rs[i..] == xs[i..]
    ensures Val(rs) - Val(xs) == Val(rs[..i]) - Val(xs[..i])
  {
    ValSplit(rs, i);
    ValSplit(xs, i);
  }

  lemma {:induction false} IncrementStep(rs: seq<Limb>, a: Limb, k: nat, k': nat, xs: seq<Limb>, b: nat, x: Limb)
    requires IsIncrement(rs, k, xs, b)
    requires a as int + k' * B == x as int + k
    ensures IsIncrement(rs + [a], k', xs + [x], b)
  {
    ValAppend(rs, a);
    ValAppend(xs, x);
    Distribute(Pow(|rs|), a, k', x, k, 0);
  }

  method MpAddUi(tab: array<Limb>, o: nat, b: Limb, n: nat) returns (k: Limb)
    requires o + n <= tab.Length
    modifies tab
    ensures OnlyChanged(tab, o, n)
    ensures n > 0 ==> k <= 1
    ensures IsIncrement(tab[o..o + n], k, old(tab[o..o + n]), b)
  {
    hide Pow, Val;
    ghost var xs := tab[o..o + n];
    ghost var rs: seq<Limb> := [];
    EmptyTable();
    k := b;
    var i := 0;
    while i < n && k != 0
      invariant i <= n && |rs| == i && (i > 0 ==> k <= 1)
      invariant OnlyChanged(tab, o, i)
      invariant forall j :: 0 <= j < i ==> tab[o + j] == rs[j]
      invariant IsIncrement(rs, k, xs[..i], b)
    {
      ghost var k0 := k;
      var a := (tab[o + i] + k) % B;
      k := if a < k then 1 else 0;
      IncrementStep(rs, a, k0, k, xs[..i], b, xs[i]);
      assert xs[..i] + [xs[i]] == xs[..i + 1];
      tab[o + i] := a;
      rs := rs + [a];
      i := i + 1;
    }
    if i < n {
      assert tab[o..o + n] == rs + xs[i..];
      UntouchedTail(rs + xs[i..], xs, i);
    } else {
      assert xs[..n] == xs && tab[o..o + n] == rs;
    }
  }

  /** `rs` is `xs - b`, having borrowed `k` from above its top limb. */
  ghost predicate IsDecrement(rs: seq<Limb>, k: nat, xs: seq<Limb>, b: nat) {
    |xs| == |rs| && Val(rs) + b == MulAdd(Val(xs), k, Pow(|rs|))
  }

  lemma {:induction false} DecrementStep(rs: seq<Limb>, a: Limb, k: nat, k': nat, xs: seq<Limb>, b: nat, x: Limb)
    requires IsDecrement(rs, k, xs, b)
    requires x as int + k' * B == a as int + k
    ensures IsDecrement(rs + [a], k', xs + [x], b)
  {
    ValAppend(rs, a);
    ValAppend(xs, x);
    Distribute(Pow(|rs|), x, k', a, k, 0);
  }

  method MpSubUi(tab: array<Limb>, o: nat, b: Limb, n: nat) returns (k: Limb)
    requires o + n <= tab.Length
    modifies tab
    ensures OnlyChanged(tab, o, n)
    ensures if n > 0 then k <= 1 else k == b
    ensures IsDecrement(tab[o..o + n], k, old(tab[o..o + n]), b)
  {
    hide Pow, Val;
    ghost var xs := tab[o..o + n];
    ghost var rs: seq<Limb> := [];
    EmptyTable();
    k := b;
    var i := 0;
    var running := true;
    while i < n && running
      invariant i <= n && |rs| == i && (i > 0 ==> k <= 1) && (!running ==> k == 0)
      invariant OnlyChanged(tab, o, i)
      invariant forall j :: 0 <= j < i ==> tab[o + j] == rs[j]
      invariant IsDecrement(rs, k, xs[..i], b)
      decreases n - i
    {
      ghost var k0 := k;
      var v := tab[o + i];
      var a := (v - k) % B;
      k := if a > v then 1 else 0;
      DecrementStep(rs, a, k0, k, xs[..i], b, xs[i]);
      assert xs[..i] + [xs[i]] == xs[..i + 1];
      tab[o + i] := a;
      rs := rs + [a];
      running := k != 0;
      i := i + 1;
    }
    if i < n {
      assert tab[o..o + n] == rs + xs[i..];
      UntouchedTail(rs + xs[i..], xs, i);
    } else {
      assert xs[..n] == xs && tab[o..o + n] == rs;
    }
  }

  // ---------- multiplication by one word ----------

  /** `rs` with high word `k` is `xs + ys * b + c`. */
  ghost predicate IsMulAdd(rs: seq<Limb>, k: nat, xs: seq<Limb>, ys: seq<Limb>, b: nat, c: nat) {
    |xs| == |ys| == |rs| && MulAdd(Val(rs), k, Pow(|rs|)) == MulAdd(Val(xs), Val(ys), b) + c
  }

  lemma {:induction false} MulAddStep(rs: seq<Limb>, a: Limb, k: nat, k': nat, xs: seq<Limb>, ys: seq<Limb>, b: nat,
                                      c: nat, x: Limb, y: Limb)
    requires IsMulAdd(rs, k, xs, ys, b, c)
    requires a as int + k' * B == x as int + (y as int * b) + k
    ensures IsMulAdd(rs + [a], k', xs + [x], ys + [y], b, c)
  {
    ValAppend(rs, a);
    ValAppend(xs, x);
    ValAppend(ys, y);
    var p := Pow(|rs|);
    Distribute(p, a, k', x, y as int * b, k);
    Factor(Val(ys), y, p, b);
  }

  /** High and low word of a double word. */
  function Words(t: nat): (r: (Limb, Limb))
    requires t < B * B
    ensures r.0 as int + r.1 * B == t
  {
    (t % B, t / B)
  }

  /** One word of a multiply-accumulate: the double word never overflows. */
  function MulWord(x: Limb, y: Limb, b: Limb, l: Limb): (r: (Limb, Limb))
    ensures r.0 as int + r.1 * B == x as int + (y as int * b) + l
  {
    ProductBound(y, b, B - 1);
    Words(y as nat * b + l + x)
  }

  /** Writes `taba * b + l` over `tabr`. */
  method MpMul1(tabr: array<Limb>, ro: nat, taba: array<Limb>, ao: nat, n: nat, b: Limb, l: Limb) returns (k: Limb)
    requires ro + n <= tabr.Length && ao + n <= taba.Length && tabr != taba
    modifies tabr
    ensures OnlyChanged(tabr, ro, n)
    ensures IsMulAdd(tabr[ro..ro + n], k, seq(n, _ => 0), taba[ao..ao + n], b, l)
  {
    ghost var ys := taba[ao..ao + n];
    k := l;
    for i := 0 to n
      invariant OnlyChanged(tabr, ro, i)
      invariant IsMulAdd(tabr[ro..ro + i], k, seq(i, _ => 0), ys[..i], b, l)
    {
      ghost var rs := tabr[ro..ro + i];
      var (a, k') := MulWord(0, taba[ao + i], b, k);
      MulAddStep(rs, a, k, k', seq(i, _ => 0), ys[..i], b, l, 0, ys[i]);
      assert seq(i, _ => 0) + [0] == seq(i + 1, _ => 0 as Limb);
      assert ys[..i] + [ys[i]] == ys[..i + 1];
      tabr[ro + i] := a;
      assert tabr[ro..ro + i + 1] == rs + [a];
      k := k';
    }
    assert ys[..n] == ys;
  }

  /** Adds `taba * b` to `tabr` and returns the high word. */
  method MpAddMul1(tabr: array<Limb>, ro: nat, taba: array<Limb>, ao: nat, n: nat, b: Limb) returns (k: Limb)
    requires ro + n <= tabr.Length && ao + n <= taba.Length && tabr != taba
    modifies tabr
    ensures OnlyChanged(tabr, ro, n)
    ensures IsMulAdd(tabr[ro..ro + n], k, old(tabr[ro..ro + n]), taba[ao..ao + n], b, 0)
  {
    ghost var xs, ys := tabr[ro..ro + n], taba[ao..ao + n];
    k := 0;
    for i := 0 to n
      invariant OnlyChanged(tabr, ro, i)
      invariant IsMulAdd(tabr[ro..ro + i], k, xs[..i], ys[..i], b, 0)
    {
      ghost var rs := tabr[ro..ro + i];
      var (a, k') := MulWord(tabr[ro + i], taba[ao + i], b, k);
      MulAddStep(rs, a, k, k', xs[..i], ys[..i], b, 0, xs[i], ys[i]);
      assert xs[..i] + [xs[i]] == xs[..i + 1];
      assert ys[..i] + [ys[i]] == ys[..i + 1];
      tabr[ro + i] := a;
      assert tabr[ro..ro + i + 1] == rs + [a];
      k := k';
    }
    assert xs[..n] == xs && ys[..n] == ys;
  }

  /** `rs` is `xs - ys * b`, to be completed by subtracting `k` from the limb above. */
  ghost predicate IsMulSub(rs: seq<Limb>, k: nat, xs: seq<Limb>, ys: seq<Limb>, b: nat) {
    |xs| == |ys| == |rs| && MulAdd(Val(rs), Val(ys), b) == MulAdd(Val(xs), k, Pow(|rs|))
  }

  lemma {:induction false} MulSubStep(rs: seq<Limb>, a: Limb, k: nat, k': nat, xs: seq<Limb>, ys: seq<Limb>, b: nat,
                                      x: Limb, y: Limb)
    requires IsMulSub(rs, k, xs, ys, b)
    requires x as int + k' * B == a as int + (y as int * b) + k
    ensures IsMulSub(rs + [a], k', xs + [x], ys + [y], b)
  {
    ValAppend(rs, a);
    ValAppend(xs, x);
    ValAppend(ys, y);
    var p := Pow(|rs|);
    Distribute(p, x, k', a, y as int * b, k);
    Factor(Val(ys), y, p, b);
  }

  /** The low word and the negated high word of a wrapped, negative double word. */
  function NegWords(t: int): (r: (Limb, Limb))
    requires 0 <= t + B * (B - 1) && t < B
    ensures r.0 as int == t + r.1 * B
  {
    var w := t % (B * B);
    (w % B, (-(w / B)) % B)
  }

  /** One word of a multiply-subtract in double-word arithmetic: the borrow is the negated
      high word of the wrapped difference. */
  function MulSubWord(x: Limb, y: Limb, b: Limb, l: Limb): (r: (Limb, Limb))
    ensures x as int + r.1 * B == r.0 as int + (y as int * b) + l
  {
    ProductBound(y, b, B - 1);
    NegWords(x as int - y as nat * b - l)
  }

  method MpSubMul1(tabr: array<Limb>, ro: nat, taba: array<Limb>, ao: nat, n: nat, b: Limb) returns (k: Limb)
    requires ro + n <= tabr.Length && ao + n <= taba.Length && tabr != taba
    modifies tabr
    ensures OnlyChanged(tabr, ro, n)
    ensures IsMulSub(tabr[ro..ro + n], k, old(tabr[ro..ro + n]), taba[ao..ao + n], b)
  {
    ghost var xs, ys := tabr[ro..ro + n], taba[ao..ao + n];
    k := 0;
    for i := 0 to n
      invariant OnlyChanged(tabr, ro, i)
      invariant IsMulSub(tabr[ro..ro + i], k, xs[..i], ys[..i], b)
    {
      ghost var rs := tabr[ro..ro + i];
      var (a, k') := MulSubWord(tabr[ro + i], taba[ao + i], b, k);
      MulSubStep(rs, a, k, k', xs[..i], ys[..i], b, xs[i], ys[i]);
      assert xs[..i] + [xs[i]] == xs[..i + 1];
      assert ys[..i] + [ys[i]] == ys[..i + 1];
      tabr[ro + i] := a;
      assert tabr[ro..ro + i + 1] == rs + [a];
      k := k';
    }
    assert xs[..n] == xs && ys[..n] == ys;
  }

  // ---------- schoolbook product ----------

  /** Adding one row of the product: `low` limbs are final, `mid` is the row's window. */
  lemma {:induction false} RowStep(low: seq<Limb>, mid: seq<Limb>, mid': seq<Limb>, k: Limb, xs: seq<Limb>,
                                   ys: seq<Limb>, y: Limb)
    requires |low| == |ys| && IsMulAdd(mid', k, mid, xs, y, 0)
    requires Val(low + mid) == Val(xs) * Val(ys)
    ensures Val(low + mid' + [k]) == Val(xs) * Val(ys + [y])
  {
    ValConcat(low, mid);
    ValConcat(low, mid' + [k]);
    assert low + mid' + [k] == low + (mid' + [k]);
    ValAppend(mid', k);
    ValAppend(ys, y);
    RowArithmetic(Val(low), Pow(|low|), Val(mid), Val(mid' + [k]), Val(xs), Val(ys), Val(ys + [y]), y);
  }

  lemma {:induction false} RowArithmetic(l: int, p: int, m: int, m': int, x: int, ys: int, ys': int, y: int)
    requires m' == m + x * y && ys' == ys + y * p
    requires l + p * m == x * ys
    ensures l + p * m' == x * ys'
  {
    MulDist(p, m, x * y);
    MulDist(x, ys, y * p);
    assert p * (x * y) == x * (y * p);
  }

  /** One row: adds `op1 * y` at limb `i` of a partial product. */
  method MulRow(result: array<Limb>, ro: nat, op1: array<Limb>, o1: nat, n1: nat, i: nat, y: Limb, ghost ys: seq<Limb>)
    requires ro + n1 + i + 1 <= result.Length && o1 + n1 <= op1.Length && result != op1 && |ys| == i
    requires Val(result[ro..ro + n1 + i]) == Val(op1[o1..o1 + n1]) * Val(ys)
    modifies result
    ensures OnlyChanged(result, ro, n1 + i + 1)
    ensures Val(result[ro..ro + n1 + (i + 1)]) == Val(op1[o1..o1 + n1]) * Val(ys + [y])
  {
    hide Pow, Val, IsMulAdd;
    ghost var low, mid := result[ro..ro + i], result[ro + i..ro + i + n1];
    assert result[ro..ro + n1 + i] == low + mid;
    var r := MpAddMul1(result, ro + i, op1, o1, n1, y);
    ghost var mid' := result[ro + i..ro + i + n1];
    RowStep(low, mid, mid', r, op1[o1..o1 + n1], ys, y);
    result[ro + i + n1] := r;
    assert result[ro..ro + n1 + (i + 1)] == low + mid' + [r];
  }

  /** The product of two tables; the result has room for all limbs of both. */
  method MpMul(result: array<Limb>, ro: nat, op1: array<Limb>, o1: nat, n1: nat, op2: array<Limb>, o2: nat, n2: nat)
    requires n2 >= 1 && ro + n1 + n2 <= result.Length && o1 + n1 <= op1.Length && o2 + n2 <= op2.Length
    requires result != op1 && result != op2
    modifies result
    ensures OnlyChanged(result, ro, n1 + n2)
    ensures Val(result[ro..ro + n1 + n2]) == Val(op1[o1..o1 + n1]) * Val(op2[o2..o2 + n2])
  {
    hide Pow, Val, IsMulAdd;
    ghost var xs, ys := op1[o1..o1 + n1], op2[o2..o2 + n2];
    var r := MpMul1(result, ro, op1, o1, n1, op2[o2], 0);
    FirstRow(result[ro..ro + n1], r, xs, ys[0]);
    ghost var row := result[ro..ro + n1];
    result[ro + n1] := r;
    assert result[ro..ro + n1 + 1] == row + [r];
    assert [ys[0]] == ys[..1];
    for i := 1 to n2
      invariant OnlyChanged(result, ro, n1 + i)
      invariant Val(result[ro..ro + n1 + i]) == Val(xs) * Val(ys[..i])
    {
      MulRow(result, ro, op1, o1, n1, i, op2[o2 + i], ys[..i]);
      assert ys[..i] + [ys[i]] == ys[..i + 1];
    }
    assert ys[..n2] == ys;
  }

  lemma {:induction false} FirstRow(row: seq<Limb>, k: Limb, xs: seq<Limb>, y: Limb)
    requires IsMulAdd(row, k, seq(|row|, _ => 0), xs, y, 0)
    ensures Val(row + [k]) == Val(xs) * Val([y])
  {
    ValZeros(|row|);
    ValAppend(row, k);
    assert Val([y]) == y;
  }

  // ---------- comparison ----------

  /** The highest differing limb decides. */
  lemma {:induction false} DecidingLimb(xs: seq<Limb>, ys: seq<Limb>, i: nat)
    requires i < |xs| == |ys| && xs[i] < ys[i] && xs[i + 1..] == ys[i + 1..]
    ensures Val(xs) < Val(ys)
  {
    ValAt(xs, i);
    ValAt(ys, i);
    ValBound(xs[..i]);
    ScaledLess(Val(xs[..i]), Pow(i), Val(xs[i..]), Val(ys[i..]));
  }

  lemma {:induction false} ValAt(s: seq<Limb>, i: nat)
    requires i < |s|
    ensures Val(s) == Val(s[..i]) + Pow(i) * Val(s[i..])
    ensures Val(s[i..]) == s[i] + B * Val(s[i + 1..])
  {
    ValSplit(s, i);
    assert s[i..][1..] == s[i + 1..];
  }

  method MpCmp(taba: array<Limb>, ao: nat, tabb: array<Limb>, bo: nat, n: nat) returns (c: int)
    requires ao + n <= taba.Length && bo + n <= tabb.Length
    ensures c == -1 <==> Val(taba[ao..ao + n]) < Val(tabb[bo..bo + n])
    ensures c == 0 <==> Val(taba[ao..ao + n]) == Val(tabb[bo..bo + n])
    ensures c == 1 <==> Val(taba[ao..ao + n]) > Val(tabb[bo..bo + n])
  {
    ghost var xs, ys := taba[ao..ao + n], tabb[bo..bo + n];
    var i := n;
    while i > 0
      invariant 0 <= i <= n
      invariant xs[i..] == ys[i..]
    {
      i := i - 1;
      if taba[ao + i] != tabb[bo + i] {
        if taba[ao + i] < tabb[bo + i] {
          DecidingLimb(xs, ys, i);
          return -1;
        } else {
          DecidingLimb(ys, xs, i);
          return 1;
        }
      }
    }
    assert xs == xs[0..] && ys == ys[0..];
    return 0;
  }

  method MpScanNz(tab: array<Limb>, n: nat) returns (nz: bool)
    requires n <= tab.Length
    ensures nz <==> Val(tab[..n]) != 0
  {
    ghost var xs := tab[..n];
    for i := 0 to n
      invariant forall j :: 0 <= j < i ==> xs[j] == 0
    {
      if tab[i] != 0 {
        NonZeroLimb(xs, i);
        return true;
      }
    }
    assert xs == seq(n, _ => 0);
    ValZeros(n);
    return false;
  }

  lemma {:induction false} NonZeroLimb(xs: seq<Limb>, i: nat)
    requires i < |xs| && xs[i] != 0
    ensures Val(xs) != 0
  {
    ValAt(xs, i);
    assert Pow(i) * Val(xs[i..]) >= 1;
  }

  // ---------- right shift ----------

  lemma {:induction false} Pow2Limb()
    ensures Pow2(64) == B
  {
    assert Pow2(4) == 16;
    Pow2Add(4, 4);
    Pow2Add(8, 8);
    Pow2Add(16, 16);
    Pow2Add(32, 32);
  }

  /** `rs` is `xs`, with `high` above it, shifted right by `shift` bits; `low` are the bits shifted out. */
  ghost predicate IsShifted(rs: seq<Limb>, low: nat, xs: seq<Limb>, shift: nat, high: nat) {
    |rs| == |xs| && low < Pow2(shift)
    && MulAdd(low, Val(rs), Pow2(shift)) == MulAdd(Val(xs), LowBits(high, shift), Pow(|xs|))
  }

  /** The bits of `x` that a right shift drops. */
  function LowBits(x: nat, shift: nat): (r: nat)
    ensures r < Pow2(shift) && r <= x
  {
    hide Pow2;
    x % Pow2(shift)
  }

  /** One shifted word: the bits of `a` moved down, those of `l` filling the top. */
  function ShiftWord(a: Limb, l: Limb, shift: nat): (r: Limb)
    requires 1 <= shift < 64
    ensures r as int * Pow2(shift) + LowBits(a, shift) == a as int + LowBits(l, shift) * B
  {
    Pow2Add(shift, 64 - shift);
    Pow2Limb();
    ShiftWordBy(a, LowBits(l, shift), Pow2(shift), Pow2(64 - shift))
  }

  function ShiftWordBy(a: Limb, m: nat, p: nat, q: nat): (r: Limb)
    requires p * q == B && m < p
    ensures r as int * p + a as int % p == a as int + m * B
  {
    ShiftArithmetic(a, m, p, q);
    a as int / p + m * q
  }

  lemma {:induction false} ShiftArithmetic(a: nat, m: nat, p: nat, q: nat)
    requires p * q == B && a < B && m < p
    ensures a / p + m * q < B
    ensures (a / p + m * q) * p + a % p == a + m * B
  {
    var d, e := a / p, a % p;
    assert a == d * p + e;
    assert (d + m * q) * p == d * p + m * (p * q);
    assert d < q by { if d >= q { MulMono(p, q, d); } }
    MulMono(q, m + 1, p);
    MulDist(q, m, 1);
  }

  lemma {:induction false} ShiftStep(rs: seq<Limb>, r: Limb, l: nat, a: Limb, xs: seq<Limb>, shift: nat, high: nat)
    requires IsShifted(rs, LowBits(l, shift), xs, shift, high)
    requires r as int * Pow2(shift) + LowBits(a, shift) == a as int + LowBits(l, shift) * B
    ensures IsShifted([r] + rs, LowBits(a, shift), [a] + xs, shift, high)
  {
    hide LowBits, Pow2;
    assert ([r] + rs)[1..] == rs && ([a] + xs)[1..] == xs;
    ShiftStepArithmetic(Val(rs), Val([r] + rs), r, Pow2(shift), LowBits(l, shift), Val(xs), a,
                        LowBits(a, shift), LowBits(high, shift), Pow(|xs|));
  }

  lemma {:induction false} ShiftStepArithmetic(v: int, v': int, r: int, p: int, m: int, x: int, a: int, e: int, h: int,
                                               w: int)
    requires v' == r + B * v && v * p + m == x + h * w && r * p + e == a + m * B
    ensures v' * p + e == (a + B * x) + h * (B * w)
  {
    assert v' * p == r * p + B * (v * p);
    assert h * (B * w) == B * (h * w);
  }

  /** Shifts a table right in place, `high` entering at the top; returns the bits that fell out. */
  method MpShr(tab: array<Limb>, o: nat, n: nat, shift: nat, high: Limb) returns (low: Limb)
    requires 1 <= shift < 64 && o + n <= tab.Length
    modifies tab
    ensures OnlyChanged(tab, o, n)
    ensures IsShifted(tab[o..o + n], low, old(tab[o..o + n]), shift, high)
  {
    ghost var xs := tab[o..o + n];
    ghost var rs: seq<Limb> := [];
    EmptyTable();
    var l := high;
    assert xs[n..] == [] && IsShifted(rs, LowBits(l, shift), xs[n..], shift, high);
    hide Val, Pow, Pow2, IsShifted, LowBits, ShiftWord;
    var i := n;
    while i > 0
      invariant 0 <= i <= n && |rs| == n - i
      invariant OnlyChanged(tab, o + i, n - i)
      invariant tab[o + i..o + n] == rs
      invariant IsShifted(rs, LowBits(l, shift), xs[i..], shift, high)
    {
      i := i - 1;
      var a := tab[o + i];
      var r := ShiftWord(a, l, shift);
      ShiftStep(rs, r, l, a, xs[i + 1..], shift, high);
      assert [a] + xs[i + 1..] == xs[i..];
      tab[o + i] := r;
      rs := [r] + rs;
      l := a;
    }
    assert xs[0..] == xs;
    low := LowBits(l, shift);
  }
}
