/** Unicode normalization, over abstract combining classes and pair compositions: canonical ordering in place, and the
    composition loop. */
module Normalize {

  // ---------- canonical ordering ----------

  /** Inserts `x` behind all elements whose class is not above its own. */
  function Insert(cc: int -> nat, r: seq<int>, x: int): (t: seq<int>)
    ensures |t| == |r| + 1
  {
    if r == [] || cc(r[|r| - 1]) <= cc(x) then r + [x] else Insert(cc, r[..|r| - 1], x) + [r[|r| - 1]]
  }

  function SortRun(cc: int -> nat, s: seq<int>): (t: seq<int>)
    ensures |t| == |s|
  {
    if s == [] then [] else Insert(cc, SortRun(cc, s[..|s| - 1]), s[|s| - 1])
  }

  /** The length of the run of non-starters at the front. */
  function RunLength(cc: int -> nat, s: seq<int>): (n: nat)
    ensures n <= |s| && (n < |s| ==> cc(s[n]) == 0) && forall k :: 0 <= k < n ==> cc(s[k]) != 0
  {
    if s == [] || cc(s[0]) == 0 then 0 else 1 + RunLength(cc, s[1..])
  }

  /** Canonical ordering: every maximal run of non-starters is sorted, starters stay. */
  function Reorder(cc: int -> nat, s: seq<int>): (t: seq<int>)
    ensures |t| == |s|
  {
    if s == [] then []
    else if cc(s[0]) == 0 then [s[0]] + Reorder(cc, s[1..])
    else var n := RunLength(cc, s); SortRun(cc, s[..n]) + Reorder(cc, s[n..])
  }

  /** Classes do not decrease. */
  ghost predicate Ascending(cc: int -> nat, s: seq<int>) {
    forall i, j :: 0 <= i <= j < |s| ==> cc(s[i]) <= cc(s[j])
  }

  /** The elements of class `k`, in order. */
  function OfClass(cc: int -> nat, s: seq<int>, k: nat): (t: seq<int>) {
    if s == [] then []
    else OfClass(cc, s[..|s| - 1], k) + (if cc(s[|s| - 1]) == k then [s[|s| - 1]] else [])
  }

  lemma {:induction false} OfClassConcat(cc: int -> nat, a: seq<int>, b: seq<int>, k: nat)
    ensures OfClass(cc, a + b, k) == OfClass(cc, a, k) + OfClass(cc, b, k)
    decreases b
  {
    if b == [] {
      assert a + b == a;
    } else {
      var b' := b[..|b| - 1];
      assert (a + b)[..|a + b| - 1] == a + b';
      OfClassConcat(cc, a, b', k);
    }
  }

  lemma {:induction false} OfClassOne(cc: int -> nat, x: int, k: nat)
    ensures OfClass(cc, [x], k) == if cc(x) == k then [x] else []
  {
    assert [x][..0] == [] && OfClass(cc, [], k) == [];
  }

  lemma {:induction false} InsertAscending(cc: int -> nat, r: seq<int>, x: int)
    requires Ascending(cc, r)
    ensures Ascending(cc, Insert(cc, r, x))
    ensures forall y :: y in Insert(cc, r, x) ==> y == x || y in r
    decreases r
  {
    if r != [] && cc(r[|r| - 1]) > cc(x) {
      var init, last := r[..|r| - 1], r[|r| - 1];
      InsertAscending(cc, init, x);
      var t := Insert(cc, init, x);
      forall i, j | 0 <= i <= j < |t + [last]|
        ensures cc((t + [last])[i]) <= cc((t + [last])[j])
      {
        if i < |t| && j == |t| {
          assert t[i] in t;
          if t[i] != x {
            assert t[i] in init;
            var m :| 0 <= m < |init| && init[m] == t[i];
            assert cc(r[m]) <= cc(r[|r| - 1]);
          }
        }
      }
    }
  }

  /** Insertion is stable: in every class, `x` comes last. */
  lemma {:induction false} InsertStable(cc: int -> nat, r: seq<int>, x: int, k: nat)
    ensures OfClass(cc, Insert(cc, r, x), k) == OfClass(cc, r, k) + OfClass(cc, [x], k)
    requires Ascending(cc, r)
    decreases r
  {
    hide OfClass;
    if r == [] || cc(r[|r| - 1]) <= cc(x) {
      OfClassConcat(cc, r, [x], k);
    } else {
      var init, last := r[..|r| - 1], r[|r| - 1];
      InsertStable(cc, init, x, k);
      assert Insert(cc, r, x) == Insert(cc, init, x) + [last];
      hide Insert;
      OfClassConcat(cc, Insert(cc, init, x), [last], k);
      OfClassConcat(cc, init, [last], k);
      assert r == init + [last];
      OfClassOne(cc, x, k);
      OfClassOne(cc, last, k);
      var a := OfClass(cc, init, k);
      if cc(x) == k {
        assert a + [x] + [] == a + [] + [x];
      } else {
        assert a + [] + OfClass(cc, [last], k) == a + OfClass(cc, [last], k) + [];
      }
    }
  }

  /** Sorting a run orders the classes and keeps the order within each class. */
  lemma {:induction false} SortRunStable(cc: int -> nat, s: seq<int>)
    ensures Ascending(cc, SortRun(cc, s)) && SameClasses(cc, SortRun(cc, s), s)
    decreases s
  {
    if s != [] {
      var init, last := s[..|s| - 1], s[|s| - 1];
      SortRunStable(cc, init);
      InsertAscending(cc, SortRun(cc, init), last);
      forall k
        ensures OfClass(cc, SortRun(cc, s), k) == OfClass(cc, s, k)
      {
        InsertStable(cc, SortRun(cc, init), last, k);
        OfClassConcat(cc, init, [last], k);
        assert s == init + [last];
      }
    }
  }

  /** In every class the same elements in the same order. */
  ghost predicate SameClasses(cc: int -> nat, s: seq<int>, t: seq<int>) {
    forall k :: OfClass(cc, s, k) == OfClass(cc, t, k)
  }

  lemma {:induction false} TopClass(cc: int -> nat, s: seq<int>, t: seq<int>)
    requires Ascending(cc, s) && SameClasses(cc, s, t) && t != []
    ensures s != [] && cc(t[|t| - 1]) <= cc(s[|s| - 1])
  {
    var k := cc(t[|t| - 1]);
    LastOfClass(cc, t);
    assert OfClass(cc, s, k) == OfClass(cc, t, k);
    NonEmptyClass(cc, s, k);
    var m :| 0 <= m < |s| && cc(s[m]) == k;
    assert cc(s[m]) <= cc(s[|s| - 1]);
  }

  lemma {:induction false} CancelLast(a: seq<int>, x: int, b: seq<int>, y: int)
    requires a + [x] == b + [y]
    ensures a == b && x == y
  {
    assert a == (a + [x])[..|a|] && b == (b + [y])[..|b|];
    assert (a + [x])[|a|] == x && (b + [y])[|b|] == y;
  }

  lemma {:induction false} ClassStep(cc: int -> nat, s: seq<int>, k: nat)
    requires s != []
    ensures OfClass(cc, s, k) == OfClass(cc, s[..|s| - 1], k) + (if cc(s[|s| - 1]) == k then [s[|s| - 1]] else [])
  {
  }

  lemma {:induction false} SameLast(cc: int -> nat, s: seq<int>, t: seq<int>)
    requires SameClasses(cc, s, t) && s != [] && t != [] && cc(s[|s| - 1]) == cc(t[|t| - 1])
    ensures s[|s| - 1] == t[|t| - 1] && SameClasses(cc, s[..|s| - 1], t[..|t| - 1])
  {
    hide OfClass;
    var x, y, s', t' := s[|s| - 1], t[|t| - 1], s[..|s| - 1], t[..|t| - 1];
    ClassStep(cc, s, cc(x));
    ClassStep(cc, t, cc(x));
    assert OfClass(cc, s, cc(x)) == OfClass(cc, t, cc(x));
    CancelLast(OfClass(cc, s', cc(x)), x, OfClass(cc, t', cc(x)), y);
    forall k
      ensures OfClass(cc, s', k) == OfClass(cc, t', k)
    {
      ClassStep(cc, s, k);
      ClassStep(cc, t, k);
      assert OfClass(cc, s, k) == OfClass(cc, t, k);
      var a, b := OfClass(cc, s', k), OfClass(cc, t', k);
      assert a + [] == a && b + [] == b;
      if k == cc(x) { CancelLast(a, x, b, y); }
    }
  }

  /** Ascending classes and the same elements in every class leave no choice: the stable order is unique. */
  lemma {:induction false} StableUnique(cc: int -> nat, s: seq<int>, t: seq<int>)
    requires Ascending(cc, s) && Ascending(cc, t) && SameClasses(cc, s, t)
    ensures s == t
    decreases |s|
  {
    hide SameClasses;
    if s != [] || t != [] {
      if t != [] { TopClass(cc, s, t); }
      if s != [] { ClassesSym(cc, s, t); TopClass(cc, t, s); }
      SameLast(cc, s, t);
      StableUnique(cc, s[..|s| - 1], t[..|t| - 1]);
      assert s == s[..|s| - 1] + [s[|s| - 1]] && t == t[..|t| - 1] + [t[|t| - 1]];
    }
  }

  lemma {:induction false} ClassesSym(cc: int -> nat, s: seq<int>, t: seq<int>)
    requires SameClasses(cc, s, t)
    ensures SameClasses(cc, t, s)
  {
    forall k ensures OfClass(cc, t, k) == OfClass(cc, s, k) { assert OfClass(cc, s, k) == OfClass(cc, t, k); }
  }

  lemma {:induction false} LastOfClass(cc: int -> nat, s: seq<int>)
    requires s != []
    ensures OfClass(cc, s, cc(s[|s| - 1])) != []
  {
  }

  lemma {:induction false} NonEmptyClass(cc: int -> nat, s: seq<int>, k: nat)
    requires OfClass(cc, s, k) != []
    ensures s != [] && exists m :: 0 <= m < |s| && cc(s[m]) == k
    decreases s
  {
    if cc(s[|s| - 1]) != k {
      NonEmptyClass(cc, s[..|s| - 1], k);
      var m :| 0 <= m < |s[..|s| - 1]| && cc(s[..|s| - 1][m]) == k;
      assert cc(s[m]) == k;
    }
  }

  // ---------- what canonical ordering does ----------

  /** Positions of starters, and the starters themselves, stay. */
  lemma {:induction false} ReorderStarters(cc: int -> nat, s: seq<int>, i: nat)
    requires i < |s|
    ensures cc(Reorder(cc, s)[i]) == 0 <==> cc(s[i]) == 0
    ensures cc(s[i]) == 0 ==> Reorder(cc, s)[i] == s[i]
    decreases |s|
  {
    if cc(s[0]) == 0 {
      if i > 0 { ReorderStarters(cc, s[1..], i - 1); }
    } else {
      var n := RunLength(cc, s);
      if i < n {
        SortRunElements(cc, s[..n], i);
      } else {
        ReorderStarters(cc, s[n..], i - n);
      }
    }
  }

  lemma {:induction false} InsertElements(cc: int -> nat, r: seq<int>, x: int, i: nat)
    requires i <= |r|
    ensures Insert(cc, r, x)[i] == x || Insert(cc, r, x)[i] in r
    decreases r
  {
    if r != [] && cc(r[|r| - 1]) > cc(x) && i < |r| { InsertElements(cc, r[..|r| - 1], x, i); }
  }

  lemma {:induction false} SortRunElements(cc: int -> nat, s: seq<int>, i: nat)
    requires i < |s|
    ensures SortRun(cc, s)[i] in s
    decreases s
  {
    var init := s[..|s| - 1];
    InsertElements(cc, SortRun(cc, init), s[|s| - 1], i);
    if SortRun(cc, s)[i] in SortRun(cc, init) {
      var m :| 0 <= m < |init| && SortRun(cc, init)[m] == SortRun(cc, s)[i];
      SortRunElements(cc, init, m);
    }
  }

  /** Canonical order: no non-starter is followed directly by a non-starter of a lower class. */
  ghost predicate Canonical(cc: int -> nat, s: seq<int>) {
    forall i :: 0 < i < |s| && cc(s[i]) != 0 ==> cc(s[i - 1]) <= cc(s[i])
  }

  lemma {:induction false} ReorderCanonical(cc: int -> nat, s: seq<int>)
    ensures Canonical(cc, Reorder(cc, s))
    decreases |s|
  {
    var t := Reorder(cc, s);
    if s != [] {
      if cc(s[0]) == 0 {
        var t' := Reorder(cc, s[1..]);
        ReorderCanonical(cc, s[1..]);
        forall i | 0 < i < |t| && cc(t[i]) != 0
          ensures cc(t[i - 1]) <= cc(t[i])
        {
          if i > 1 { assert t[i] == t'[i - 1] && t[i - 1] == t'[i - 2]; }
        }
      } else {
        var n := RunLength(cc, s);
        var r, t' := SortRun(cc, s[..n]), Reorder(cc, s[n..]);
        SortRunStable(cc, s[..n]);
        ReorderCanonical(cc, s[n..]);
        if n < |s| { ReorderStarters(cc, s[n..], 0); assert t[n] == t'[0]; }
        forall i | 0 < i < |t| && cc(t[i]) != 0
          ensures cc(t[i - 1]) <= cc(t[i])
        {
          if i < n { assert cc(r[i - 1]) <= cc(r[i]); }
          else if i > n { assert t[i] == t'[i - n] && t[i - 1] == t'[i - 1 - n]; }
        }
      }
    }
  }

  // ---------- sorting in place ----------

  lemma {:induction false} InsertShifts(cc: int -> nat, r: seq<int>, x: int, m: nat)
    requires m <= |r| && forall k :: m <= k < |r| ==> cc(r[k]) > cc(x)
    ensures Insert(cc, r, x) == Insert(cc, r[..m], x) + r[m..]
    decreases |r|
  {
    if m < |r| {
      var init, last := r[..|r| - 1], r[|r| - 1];
      InsertShifts(cc, init, x, m);
      assert init[..m] == r[..m] && init[m..] + [last] == r[m..];
    } else {
      assert r[..m] == r && r[m..] == [];
    }
  }

  /** Inserts the element at `j` into the sorted stretch before it. */
  method InsertAt(buf: array<int>, cc: int -> nat, start: nat, j: nat)
    requires start <= j < buf.Length
    modifies buf
    ensures buf[start..j + 1] == Insert(cc, old(buf[start..j]), old(buf[j]))
    ensures buf[..start] == old(buf[..start]) && buf[j + 1..] == old(buf[j + 1..])
  {
    hide Insert;
    ghost var r, before := buf[start..j], buf[..];
    var x := buf[j];
    var k: int := j - 1;
    while k >= start && cc(buf[k]) > cc(x)
      invariant start - 1 <= k < j
      invariant forall m :: 0 <= m <= k + 1 ==> buf[m] == before[m]
      invariant forall m :: k + 1 < m <= j ==> buf[m] == r[m - 1 - start]
      invariant forall m :: j < m < buf.Length ==> buf[m] == before[m]
      invariant forall m :: k + 1 - start <= m < |r| ==> cc(r[m]) > cc(x)
    {
      buf[k + 1] := buf[k];
      k := k - 1;
    }
    ghost var m: nat := k + 1 - start;
    assert k >= start ==> r[m - 1] == buf[k];
    buf[k + 1] := x;
    Placed(cc, before, buf[..], start, j, m, x);
  }

  /** An element moved down over those of higher class is inserted. */
  lemma {:induction false} Placed(cc: int -> nat, s: seq<int>, t: seq<int>, start: nat, j: nat, m: nat, x: int)
    requires |s| == |t| && start + m <= j < |s| && t[start + m] == x
    requires forall k :: 0 <= k < start + m ==> t[k] == s[k]
    requires forall k :: start + m < k <= j ==> t[k] == s[start..j][k - 1 - start]
    requires forall k :: j < k < |s| ==> t[k] == s[k]
    requires (m > 0 ==> cc(s[start..j][m - 1]) <= cc(x)) && forall k ::
               m <= k < j - start ==> cc(s[start..j][k]) > cc(x)
    ensures t[start..j + 1] == Insert(cc, s[start..j], x) && t[..start] == s[..start] && t[j + 1..] == s[j + 1..]
  {
    hide Insert;
    var r := s[start..j];
    InsertShifts(cc, r, x, m);
    InsertLast(cc, r[..m], x);
    Shifted(s, t, start, j, m, x);
  }

  /** An element moved down over others, as slices. */
  lemma {:induction false} Shifted(s: seq<int>, t: seq<int>, start: nat, j: nat, m: nat, x: int)
    requires |s| == |t| && start + m <= j < |s| && t[start + m] == x
    requires forall k :: 0 <= k < start + m ==> t[k] == s[k]
    requires forall k :: start + m < k <= j ==> t[k] == s[k - 1]
    requires forall k :: j < k < |s| ==> t[k] == s[k]
    ensures t[start..j + 1] == s[start..j][..m] + [x] + s[start..j][m..] && t[..start] == s[..start]
            && t[j + 1..] == s[j + 1..]
  {
    var l, r := t[start..j + 1], s[start..j];
    var u := r[..m] + [x] + r[m..];
    forall k | 0 <= k < |l|
      ensures l[k] == u[k]
    {
      assert l[k] == t[start + k];
      if k > m { assert u[k] == r[m..][k - m - 1] == s[start + k - 1]; }
    }
  }

  lemma {:induction false} InsertLast(cc: int -> nat, r: seq<int>, x: int)
    requires r == [] || cc(r[|r| - 1]) <= cc(x)
    ensures Insert(cc, r, x) == r + [x]
  {
  }

  /** Canonical ordering of the whole buffer, in place. */
  method SortCC(buf: array<int>, cc: int -> nat)
    modifies buf
    ensures buf[..] == Reorder(cc, old(buf[..]))
  {
    hide Insert, SortRun, Reorder, RunLength;
    ghost var s0 := buf[..];
    var len, i := buf.Length, 0;
    assert s0[..0] == [] && s0[0..] == s0;
    NothingToReorder(cc, s0);
    while i < len
      invariant i <= len && buf[i..] == s0[i..] && Reorder(cc, s0) == buf[..i] + Reorder(cc, s0[i..])
      decreases len - i
    {
      assert buf[i] == s0[i] by { assert buf[i..][0] == s0[i..][0]; }
      if cc(buf[i]) != 0 {
        i := SortRunAt(buf, cc, i, s0);
      } else {
        StarterStep(cc, s0, i, buf[..i]);
        assert buf[..i + 1] == buf[..i] + [buf[i]];
        assert buf[i + 1..] == buf[i..][1..] && s0[i + 1..] == s0[i..][1..];
        i := i + 1;
      }
    }
    assert s0[i..] == [] && buf[..i] == buf[..];
    NoneReordered(cc);
  }

  lemma {:induction false} NoneReordered(cc: int -> nat)
    ensures Reorder(cc, []) == []
  {
  }

  lemma {:induction false} NothingToReorder(cc: int -> nat, s: seq<int>)
    ensures Reorder(cc, s) == s[..0] + Reorder(cc, s[0..])
  {
    assert s[0..] == s;
  }

  lemma {:induction false} StarterStep(cc: int -> nat, s: seq<int>, i: nat, done: seq<int>)
    requires i < |s| && cc(s[i]) == 0 && Reorder(cc, s) == done + Reorder(cc, s[i..])
    ensures Reorder(cc, s) == done + [s[i]] + Reorder(cc, s[i + 1..])
  {
    assert s[i..][1..] == s[i + 1..];
  }

  lemma {:induction false} RunStep(cc: int -> nat, s: seq<int>, i: nat, j: nat, done: seq<int>)
    requires i < j <= |s| && Reorder(cc, s) == done + Reorder(cc, s[i..]) && (j < |s| ==> cc(s[j]) == 0)
    requires forall k :: i <= k < j ==> cc(s[k]) != 0
    ensures Reorder(cc, s) == done + SortRun(cc, s[i..j]) + Reorder(cc, s[j..])
  {
    hide SortRun, RunLength;
    var t, n := s[i..], j - i;
    RunLengthIs(cc, t, n);
    assert t[0] == s[i] && t[..n] == s[i..j] && t[n..] == s[j..];
    assert Reorder(cc, t) == SortRun(cc, t[..n]) + Reorder(cc, t[n..]);
    hide Reorder;
  }

  lemma {:induction false} RunLengthIs(cc: int -> nat, s: seq<int>, n: nat)
    requires n <= |s| && (n < |s| ==> cc(s[n]) == 0) && forall k :: 0 <= k < n ==> cc(s[k]) != 0
    ensures RunLength(cc, s) == n
  {
  }

  /** Sorts the run that starts at `i` and returns its end. */
  method SortRunAt(buf: array<int>, cc: int -> nat, i: nat, ghost s0: seq<int>) returns (j: nat)
    requires i < buf.Length == |s0| && buf[i..] == s0[i..] && cc(buf[i]) != 0
             && Reorder(cc, s0) == buf[..i] + Reorder(cc, s0[i..])
    modifies buf
    ensures i < j <= buf.Length && buf[j..] == s0[j..] && Reorder(cc, s0) == buf[..j] + Reorder(cc, s0[j..])
  {
    hide Insert, SortRun, Reorder, RunLength;
    ghost var done := buf[..i];
    j := i + 1;
    assert buf[i..][0] == s0[i..][0];
    assert buf[i..j] == [s0[i]] == s0[i..j];
    OneSorted(cc, s0[i]);
    assert buf[j..] == buf[i..][1..] && s0[j..] == s0[i..][1..];
    while j < buf.Length && cc(buf[j]) != 0
      invariant i < j <= buf.Length && buf[..i] == done && buf[j..] == s0[j..] && buf[i..j] == SortRun(cc, s0[i..j])
      invariant forall k :: i <= k < j ==> cc(s0[k]) != 0
    {
      assert buf[j] == s0[j] by { assert buf[j..][0] == s0[j..][0]; }
      ghost var tail := buf[j + 1..];
      assert tail == buf[j..][1..] && s0[j + 1..] == s0[j..][1..];
      SortRunStep(cc, s0, i, j);
      InsertAt(buf, cc, i, j);
      j := j + 1;
    }
    assert j < buf.Length ==> buf[j] == s0[j] by { if j < buf.Length { assert buf[j..][0] == s0[j..][0]; } }
    RunStep(cc, s0, i, j, done);
    assert buf[..j] == buf[..i] + buf[i..j];
  }

  lemma {:induction false} OneSorted(cc: int -> nat, x: int)
    ensures SortRun(cc, [x]) == [x]
  {
    assert [x][..0] == [] && SortRun(cc, []) == [];
  }

  lemma {:induction false} SortRunStep(cc: int -> nat, s: seq<int>, i: nat, j: nat)
    requires i <= j < |s|
    ensures SortRun(cc, s[i..j + 1]) == Insert(cc, SortRun(cc, s[i..j]), s[j])
  {
    hide Insert;
    var t := s[i..j + 1];
    assert t[..|t| - 1] == s[i..j] && t[|t| - 1] == s[j];
  }

  // ---------- composition ----------

  /** The position of the last starter, or -1. */
  function LastStarter(cc: int -> nat, s: seq<int>): (p: int)
    ensures -1 <= p < |s| && (p >= 0 ==> cc(s[p]) == 0) && forall k :: p < k < |s| ==> cc(s[k]) != 0
  {
    if s == [] then -1 else if cc(s[|s| - 1]) == 0 then |s| - 1 else LastStarter(cc, s[..|s| - 1])
  }

  /** A character of class `d` is blocked from position `p`: something between is a starter or of no lower class. */
  ghost predicate Blocked(cc: int -> nat, s: seq<int>, p: nat, d: nat) {
    exists k :: p < k < |s| && (cc(s[k]) == 0 || cc(s[k]) >= d)
  }

  /** One step of the Canonical Composition Algorithm: `c` is joined to the last starter unless it is blocked from
      it. */
  ghost function ComposeStep(cc: int -> nat, pair: (int, int) -> int, out: seq<int>, c: int): seq<int> {
    var p := LastStarter(cc, out);
    if p >= 0 && !Blocked(cc, out, p, cc(c)) && pair(out[p], c) != 0 then out[p := pair(out[p], c)] else out + [c]
  }

  ghost function Compose(cc: int -> nat, pair: (int, int) -> int, s: seq<int>): seq<int> {
    if |s| <= 1 then s else ComposeStep(cc, pair, Compose(cc, pair, s[..|s| - 1]), s[|s| - 1])
  }

  /** Compositions are starters. */
  ghost predicate ComposesToStarters(cc: int -> nat, pair: (int, int) -> int) {
    forall x, y :: StarterPair(cc, pair, x, y)
  }

  ghost predicate StarterPair(cc: int -> nat, pair: (int, int) -> int, x: int, y: int) {
    pair(x, y) != 0 ==> cc(pair(x, y)) == 0
  }

  /** Behind the last starter the classes ascend, up to the class of what comes next. */
  ghost predicate TailOrdered(cc: int -> nat, out: seq<int>, next: nat) {
    var p := LastStarter(cc, out);
    && (forall i, j :: p < i <= j < |out| ==> cc(out[i]) <= cc(out[j]))
    && (next != 0 ==> forall i :: p < i < |out| ==> cc(out[i]) <= next)
  }

  lemma {:induction false} LastStarterIs(cc: int -> nat, s: seq<int>, p: int)
    requires -1 <= p < |s| && (p >= 0 ==> cc(s[p]) == 0) && forall k :: p < k < |s| ==> cc(s[k]) != 0
    ensures LastStarter(cc, s) == p
  {
  }

  /** Composing keeps the tail ordered. */
  lemma {:induction false} TailKept(cc: int -> nat, pair: (int, int) -> int, out: seq<int>, c: int, next: nat)
    requires ComposesToStarters(cc, pair) && TailOrdered(cc, out, cc(c)) && (next != 0 ==> cc(c) <= next)
    ensures TailOrdered(cc, ComposeStep(cc, pair, out, c), next)
  {
    hide Blocked;
    var p := LastStarter(cc, out);
    var r := ComposeStep(cc, pair, out, c);
    if p >= 0 && !Blocked(cc, out, p, cc(c)) && pair(out[p], c) != 0 {
      assert StarterPair(cc, pair, out[p], c);
      assert r == out[p := pair(out[p], c)];
      LastStarterIs(cc, r, p);
      if next != 0 && cc(c) == 0 { NotBlockedTail(cc, out, p); }
    } else {
      assert r == out + [c];
      LastStarterIs(cc, r, if cc(c) == 0 then |out| else p);
    }
  }

  /** Nothing stands between a starter and a starter that is not blocked from it. */
  lemma {:induction false} NotBlockedTail(cc: int -> nat, out: seq<int>, p: nat)
    requires p < |out| && !Blocked(cc, out, p, 0)
    ensures p == |out| - 1
  {
    var last := out[|out| - 1];
    assert cc(last) >= 0;
  }

  datatype Site = Nowhere | Site(pos: nat)

  /** The backward search of the composition loop: only the last character's class is compared. */
  method FindStarter(buf: array<int>, outLen: nat, cc: int -> nat, c: int) returns (r: Site)
    requires outLen <= buf.Length && TailOrdered(cc, buf[..outLen], cc(c))
    requires forall x :: cc(x) < 256
    ensures var out := buf[..outLen]; var p := LastStarter(cc, out);
            if p >= 0 && !Blocked(cc, out, p, cc(c)) then r == Site(p) else r == Nowhere
  {
    ghost var out := buf[..outLen];
    ghost var p := LastStarter(cc, out);
    var lastCc := cc(c);
    var pos: int := outLen - 1;
    while pos >= 0
      invariant -1 <= pos < outLen && p <= pos
      invariant lastCc == if pos == outLen - 1 then cc(c) else 256
      invariant pos < outLen - 1 ==> forall k :: pos < k < outLen ==> cc(out[k]) < cc(c)
    {
      var d := cc(buf[pos]);
      assert out[pos] == buf[pos];
      if d == 0 { break; }
      if d >= lastCc {
        assert pos == outLen - 1;
        assert p < pos < |out| && cc(out[pos]) >= cc(c);
        return Nowhere;
      }
      assert forall k :: pos <= k < outLen ==> cc(out[k]) <= cc(out[outLen - 1]);
      lastCc := 256;
      pos := pos - 1;
    }
    if pos < 0 { return Nowhere; }
    LastStarterIs(cc, out, pos);
    return Site(pos);
  }

  /** The composition loop, in place. */
  method ComposeBuffer(buf: array<int>, cc: int -> nat, pair: (int, int) -> int) returns (outLen: nat)
    requires Canonical(cc, buf[..]) && ComposesToStarters(cc, pair) && buf.Length > 0 && forall x :: cc(x) < 256
    modifies buf
    ensures outLen <= buf.Length && buf[..outLen] == Compose(cc, pair, old(buf[..]))
  {
    hide ComposeStep, TailOrdered, LastStarter, Blocked, ComposesToStarters, Compose, Canonical;
    ghost var s := buf[..];
    var i := 1;
    outLen := 1;
    assert buf[..1] == s[..1];
    FirstTail(cc, pair, s);
    while i < buf.Length
      invariant 1 <= outLen <= i <= buf.Length && buf[i..] == s[i..]
      invariant buf[..outLen] == Compose(cc, pair, s[..i])
      invariant TailOrdered(cc, buf[..outLen], if i < |s| then cc(s[i]) else 0)
    {
      ghost var out := buf[..outLen];
      var c := buf[i];
      assert c == s[i] by { assert buf[i..][0] == s[i..][0]; }
      ComposeNext(cc, pair, s, i);
      TailKept(cc, pair, out, c, if i + 1 < |s| then cc(s[i + 1]) else 0);
      var site := FindStarter(buf, outLen, cc, c);
      StepCases(cc, pair, out, c);
      assert buf[i + 1..] == s[i + 1..] by { assert buf[i + 1..] == buf[i..][1..] && s[i + 1..] == s[i..][1..]; }
      ghost var tail := buf[i + 1..];
      if site.Site? && pair(buf[site.pos], c) != 0 {
        buf[site.pos] := pair(buf[site.pos], c);
        assert buf[..outLen] == out[site.pos := pair(out[site.pos], c)];
      } else {
        buf[outLen] := c;
        outLen := outLen + 1;
        assert buf[..outLen] == out + [c];
      }
      assert buf[i + 1..] == tail;
      i := i + 1;
    }
    assert s[..i] == s;
  }

  lemma {:induction false} FirstTail(cc: int -> nat, pair: (int, int) -> int, s: seq<int>)
    requires |s| >= 1 && Canonical(cc, s)
    ensures Compose(cc, pair, s[..1]) == s[..1] && TailOrdered(cc, s[..1], if 1 < |s| then cc(s[1]) else 0)
  {
    var out := s[..1];
    LastStarterIs(cc, out, if cc(s[0]) == 0 then 0 else -1);
  }

  lemma {:induction false} ComposeNext(cc: int -> nat, pair: (int, int) -> int, s: seq<int>, i: nat)
    requires 1 <= i < |s| && Canonical(cc, s)
    ensures Compose(cc, pair, s[..i + 1]) == ComposeStep(cc, pair, Compose(cc, pair, s[..i]), s[i])
    ensures i + 1 < |s| && cc(s[i + 1]) != 0 ==> cc(s[i]) <= cc(s[i + 1])
  {
    hide ComposeStep;
    var t := s[..i + 1];
    assert t[..|t| - 1] == s[..i] && t[|t| - 1] == s[i];
    if i + 1 < |s| && cc(s[i + 1]) != 0 { assert cc(s[(i + 1) - 1]) <= cc(s[i + 1]); }
  }

  lemma {:induction false} StepCases(cc: int -> nat, pair: (int, int) -> int, out: seq<int>, c: int)
    ensures var p := LastStarter(cc, out);
            ComposeStep(cc, pair, out, c) == if p >= 0 && !Blocked(cc, out, p, cc(c))
               && pair(out[p], c) != 0 then out[p := pair(out[p], c)] else out + [c]
  {
  }

  /** Ordering and then composing, as the composed normalization forms do to decomposed text. */
  method OrderAndCompose(buf: array<int>, cc: int -> nat, pair: (int, int) -> int) returns (outLen: nat)
    requires ComposesToStarters(cc, pair) && buf.Length > 0 && forall x :: cc(x) < 256
    modifies buf
    ensures outLen <= buf.Length && buf[..outLen] == Compose(cc, pair, Reorder(cc, old(buf[..])))
  {
    hide Reorder, Compose, ComposesToStarters;
    ghost var s := buf[..];
    SortCC(buf, cc);
    ReorderCanonical(cc, s);
    outLen := ComposeBuffer(buf, cc, pair);
  }
}
