/** Sets of code points, stored as the sorted points where membership changes. */
module CharRange {

  const UINT32_MAX: nat := 0xffff_ffff

  // ---------- meaning ----------

  /** How many of the points are at or below `c`. */
  ghost function Count(pts: seq<nat>, c: nat): nat {
    if pts == [] then 0 else Count(pts[..|pts| - 1], c) + (if pts[|pts| - 1] <= c then 1 else 0)
  }

  /** Membership: an odd number of changes so far. */
  ghost predicate In(pts: seq<nat>, c: nat) { Count(pts, c) % 2 == 1 }

  ghost predicate NonDecreasing(pts: seq<nat>) {
    forall i, j :: 0 <= i <= j < |pts| ==> pts[i] <= pts[j]
  }

  ghost predicate Increasing(pts: seq<nat>) {
    forall i, j :: 0 <= i < j < |pts| ==> pts[i] < pts[j]
  }

  /** What every finished operation leaves: whole intervals, none empty and none adjacent. */
  ghost predicate Canonical(pts: seq<nat>) {
    Increasing(pts) && |pts| % 2 == 0 && Bounded(pts)
  }

  lemma {:induction false} CountConcat(a: seq<nat>, b: seq<nat>, c: nat)
    ensures Count(a + b, c) == Count(a, c) + Count(b, c)
    decreases b
  {
    if b == [] {
      assert a + b == a;
    } else {
      var b' := b[..|b| - 1];
      assert (a + b)[..|a + b| - 1] == a + b';
      CountConcat(a, b', c);
    }
  }

  lemma {:induction false} CountOne(v: nat, c: nat)
    ensures Count([v], c) == if v <= c then 1 else 0
  {
    assert [v][..0] == [] && Count([], c) == 0;
  }

  lemma {:induction false} CountPush(a: seq<nat>, v: nat, c: nat)
    ensures Count(a + [v], c) == Count(a, c) + (if v <= c then 1 else 0)
  {
    CountConcat(a, [v], c);
    CountOne(v, c);
  }

  /** All points at or below `c` are counted. */
  lemma {:induction false} CountAll(pts: seq<nat>, c: nat)
    requires forall i :: 0 <= i < |pts| ==> pts[i] <= c
    ensures Count(pts, c) == |pts|
    decreases pts
  {
    if pts != [] { CountAll(pts[..|pts| - 1], c); }
  }

  // ---------- merging ----------

  datatype Op = Union | Inter | Xor

  predicate Apply(op: Op, x: bool, y: bool) {
    match op
    case Union => x || y
    case Inter => x && y
    case Xor => x != y
  }

  predicate Odd(n: nat) { n % 2 == 1 }

  /** `r` combines the first `i` points of `a` and the first `j` of `b`. */
  ghost predicate Combines(op: Op, a: seq<nat>, i: nat, b: seq<nat>, j: nat, r: seq<nat>)
    requires i <= |a| && j <= |b|
  {
    && Odd(|r|) == Apply(op, Odd(i), Odd(j)) && NonDecreasing(r)
    && (forall k :: 0 <= k < |r| ==> (i < |a| ==> r[k] <= a[i]) && (j < |b| ==> r[k] <= b[j]))
    && (forall k :: 0 <= k < i && j < |b| ==> a[k] <= b[j]) && (forall k :: 0 <= k < j && i < |a| ==> b[k] <= a[i])
    && (forall k :: 0 <= k < |r| ==> r[k] <= UINT32_MAX)
    && forall c: nat :: In(r, c) == Apply(op, In(a[..i], c), In(b[..j], c))
  }

  /** Taking the next point `v` from one list or from both. */
  lemma {:induction false} CombineStep(op: Op, a: seq<nat>, i: nat, i': nat, b: seq<nat>, j: nat, j': nat, r: seq<nat>,
                                       r': seq<nat>, v: nat)
    requires NonDecreasing(a) && NonDecreasing(b) && i <= i' <= |a| && j <= j' <= |b| && Combines(op, a, i, b, j, r)
    requires (i' == i || (i' == i + 1 && a[i] == v)) && (j' == j || (j' == j + 1 && b[j] == v)) && (i' > i || j' > j)
             && v <= UINT32_MAX
    requires (i < |a| ==> v <= a[i]) && (j < |b| ==> v <= b[j])
    requires r' == if Apply(op, Odd(i'), Odd(j')) != Odd(|r|) then r + [v] else r
    ensures Combines(op, a, i', b, j', r')
  {
    hide Count;
    forall c: nat
      ensures In(r', c) == Apply(op, In(a[..i'], c), In(b[..j'], c))
    {
      CombinePoint(op, a, i, i', b, j, j', r, r', v, c);
    }
  }

  lemma {:induction false} CombinePoint(op: Op, a: seq<nat>, i: nat, i': nat, b: seq<nat>, j: nat, j': nat, r: seq<nat>,
                                        r': seq<nat>, v: nat, c: nat)
    requires NonDecreasing(a) && NonDecreasing(b) && i <= i' <= |a| && j <= j' <= |b| && Combines(op, a, i, b, j, r)
    requires (i' == i || (i' == i + 1 && a[i] == v)) && (j' == j || (j' == j + 1 && b[j] == v)) && (i' > i || j' > j)
    requires (i < |a| ==> v <= a[i]) && (j < |b| ==> v <= b[j])
    requires r' == if Apply(op, Odd(i'), Odd(j')) != Odd(|r|) then r + [v] else r
    ensures In(r', c) == Apply(op, In(a[..i'], c), In(b[..j'], c))
  {
    hide Count;
    if v <= c {
      CountAll(a[..i'], c);
      CountAll(b[..j'], c);
      CountAll(r', c);
    } else {
      CountPush(r, v, c);
      if i' > i { assert a[..i'] == a[..i] + [v]; CountPush(a[..i], v, c); }
      if j' > j { assert b[..j'] == b[..j] + [v]; CountPush(b[..j], v, c); }
      assert In(r, c) == Apply(op, In(a[..i], c), In(b[..j], c));
    }
  }

  lemma {:induction false} CombineStart(op: Op, a: seq<nat>, b: seq<nat>)
    ensures Combines(op, a, 0, b, 0, [])
  {
    assert a[..0] == [] && b[..0] == [];
  }

  // ---------- compressing ----------

  /** The same changes, as far as membership goes. */
  ghost predicate Same(p: seq<nat>, q: seq<nat>) { forall c: nat :: Odd(Count(p, c)) == Odd(Count(q, c)) }

  lemma {:induction false} SameConcat(p: seq<nat>, p': seq<nat>, q: seq<nat>, q': seq<nat>)
    requires Same(p, q) && Same(p', q')
    ensures Same(p + p', q + q')
  {
    hide Count;
    forall c: nat
      ensures Odd(Count(p + p', c)) == Odd(Count(q + q', c))
    {
      CountConcat(p, p', c);
      CountConcat(q, q', c);
      assert Odd(Count(p, c)) == Odd(Count(q, c)) && Odd(Count(p', c)) == Odd(Count(q', c));
    }
  }

  lemma {:induction false} SameRefl(p: seq<nat>)
    ensures Same(p, p)
  {
  }

  /** Two equal points cancel. */
  lemma {:induction false} SameCancel(x: nat)
    ensures Same([x, x], [])
  {
    forall c: nat
      ensures Odd(Count([x, x], c)) == Odd(Count([], c))
    {
      assert [x, x] == [x] + [x];
      CountConcat([x], [x], c);
    }
  }

  /** An interval followed by an adjacent one is one interval. */
  lemma {:induction false} SameMerge(x: nat, y: nat, z: nat, w: nat)
    requires y == z
    ensures Same([x, y] + [z, w], [x, w])
  {
    SameCancel(y);
    SameRefl([x]);
    SameRefl([w]);
    SameConcat([x], [y, y], [x], []);
    SameConcat([x] + [y, y], [w], [x] + [], [w]);
    assert [x] + [y, y] + [w] == [x, y] + [z, w] && [x] + [] + [w] == [x, w];
  }

  lemma {:induction false} SameTrans(p: seq<nat>, q: seq<nat>, r: seq<nat>)
    requires Same(p, q) && Same(q, r)
    ensures Same(p, r)
  {
    hide Count;
    forall c: nat
      ensures Odd(Count(p, c)) == Odd(Count(r, c))
    {
      assert Odd(Count(p, c)) == Odd(Count(q, c));
      assert Odd(Count(q, c)) == Odd(Count(r, c));
    }
  }

  lemma {:induction false} RunGrows(pt: seq<nat>, i: nat, j: nat)
    requires i <= j && j + 3 < |pt| && pt[j + 1] == pt[j + 2] && Same(pt[i..j + 2], [pt[i], pt[j + 1]])
    ensures Same(pt[i..j + 4], [pt[i], pt[j + 3]])
  {
    hide Same;
    var a, b := pt[i..j + 2], pt[j + 2..j + 4];
    SameRefl(b);
    SameConcat(a, b, [pt[i], pt[j + 1]], b);
    assert a + b == pt[i..j + 4] && b == [pt[j + 2], pt[j + 3]];
    SameMerge(pt[i], pt[j + 1], pt[j + 2], pt[j + 3]);
    SameTrans(pt[i..j + 4], [pt[i], pt[j + 1]] + b, [pt[i], pt[j + 3]]);
  }

  /** The end `j` of the run of adjacent intervals that starts at `i`. */
  method RunEnd(pt: seq<nat>, i: nat) returns (j: nat)
    requires NonDecreasing(pt) && |pt| % 2 == 0 && i % 2 == 0 && i + 1 < |pt|
    ensures i <= j && j % 2 == 0 && j + 1 < |pt| && Same(pt[i..j + 2], [pt[i], pt[j + 1]])
    ensures j + 2 < |pt| ==> pt[j + 1] < pt[j + 2]
  {
    hide Same;
    j := i;
    assert pt[i..i + 2] == [pt[i], pt[i + 1]];
    SameRefl(pt[i..i + 2]);
    while j + 3 < |pt| && pt[j + 1] == pt[j + 2]
      invariant i <= j && j % 2 == 0 && j + 1 < |pt| && Same(pt[i..j + 2], [pt[i], pt[j + 1]])
    {
      RunGrows(pt, i, j);
      j := j + 2;
    }
  }

  class Range {
    var points: seq<nat>

    constructor ()
      ensures points == []
    {
      points := [];
    }

    /** Merges two lists of points: the result denotes the union, intersection or symmetric difference. */
    method Combine(a: seq<nat>, b: seq<nat>, op: Op)
      requires points == [] && NonDecreasing(a) && NonDecreasing(b) && |a| % 2 == 0 && |b| % 2 == 0 && Bounded(a)
               && Bounded(b)
      modifies this
      ensures Canonical(points)
      ensures op == Union ==> forall c: nat :: In(points, c) <==> In(a, c) || In(b, c)
      ensures op == Inter ==> forall c: nat :: In(points, c) <==> In(a, c) && In(b, c)
      ensures op == Xor ==> forall c: nat :: In(points, c) <==> In(a, c) != In(b, c)
    {
      hide NonDecreasing, Combines, In;
      var i, j := 0, 0;
      CombineStart(op, a, b);
      while i < |a| || j < |b|
        invariant 0 <= i <= |a| && 0 <= j <= |b| && Combines(op, a, i, b, j, points)
        decreases |a| - i + |b| - j
      {
        ghost var i0, j0, r := i, j, points;
        var v;
        if i < |a| && j < |b| {
          if a[i] < b[j] {
            v, i := a[i], i + 1;
          } else if a[i] == b[j] {
            v, i, j := a[i], i + 1, j + 1;
          } else {
            v, j := b[j], j + 1;
          }
        } else if i < |a| {
          v, i := a[i], i + 1;
        } else {
          v, j := b[j], j + 1;
        }
        var isIn := Apply(op, Odd(i), Odd(j));
        if isIn != Odd(|points|) {
          points := points + [v];
        }
        CombineStep(op, a, i0, i, b, j0, j, r, points, v);
      }
      ghost var r := points;
      CombineEnd(op, a, b, r);
      Compress();
      SameMembers(r, points);
    }

    /** Adds the set that `b` denotes. */
    method Union1(b: seq<nat>)
      requires Canonical(points) && NonDecreasing(b) && |b| % 2 == 0 && Bounded(b)
      modifies this
      ensures Canonical(points) && forall c: nat :: In(points, c) <==> In(old(points), c) || In(b, c)
    {
      hide In;
      var a := points;
      IncreasingNonDecreasing(a);
      points := [];
      Combine(a, b, Union);
    }

    /** Adds the code points from `c1` to `c2`. */
    method UnionInterval(c1: nat, c2: nat)
      requires Canonical(points) && c1 <= c2 < 0xffff_ffff
      modifies this
      ensures Canonical(points) && forall c: nat :: In(points, c) <==> In(old(points), c) || c1 <= c <= c2
    {
      hide Canonical;
      var b := [c1, c2 + 1];
      forall c: nat ensures In(b, c) <==> c1 <= c <= c2 { IntervalMembers(c1, c2 + 1, c); }
      hide In;
      Union1(b);
    }

    /** The complement, among all code points. */
    method Invert()
      requires Canonical(points)
      modifies this
      ensures Canonical(points) && forall c: nat :: c < 0xffff_ffff ==> (In(points, c) <==> !In(old(points), c))
    {
      hide In;
      ghost var before := points;
      points := [0] + points + [UINT32_MAX];
      ghost var r := points;
      Compress();
      SameMembers(r, points);
      forall c: nat | c < UINT32_MAX ensures In(r, c) <==> !In(before, c) { Inverted(before, c); }
    }

    /** Merges consecutive intervals and removes empty ones, in place. */
    method Compress()
      requires NonDecreasing(points) && |points| % 2 == 0 && Bounded(points)
      modifies this
      ensures Canonical(points) && Same(old(points), points)
    {
      hide Same, Squeezed, NonDecreasing, Bounded;
      ghost var orig := points;
      var len := |points|;
      var i: nat, k: nat := 0, 0;
      SqueezeStart(orig);
      while i + 1 < len
        invariant k <= i <= len == |points| && Squeezed(orig, points, i, k)
        decreases len - i
      {
        SqueezeTail(orig, points, i, k);
        if points[i] == points[i + 1] {
          SqueezeDrop(orig, points, i, k);
          i := i + 2;
        } else {
          ghost var pt := points;
          var j := RunEnd(points[i..], 0);
          points := points[k := points[i]][k + 1 := points[i + j + 1]];
          SqueezeKeep(orig, pt, points, i, k, j);
          k := k + 2;
          i := i + j + 2;
        }
      }
      SqueezeEnd(orig, points, i, k);
      points := points[..k];
    }
  }

  lemma {:induction false} CombineEnd(op: Op, a: seq<nat>, b: seq<nat>, r: seq<nat>)
    requires Combines(op, a, |a|, b, |b|, r) && |a| % 2 == 0 && |b| % 2 == 0
    ensures NonDecreasing(r) && |r| % 2 == 0 && Bounded(r) && forall c: nat :: In(r, c) == Apply(op, In(a, c), In(b, c))
  {
    hide In;
    assert a[..|a|] == a && b[..|b|] == b;
  }

  lemma {:induction false} SameMembers(p: seq<nat>, q: seq<nat>)
    requires Same(p, q)
    ensures forall c: nat :: In(p, c) <==> In(q, c)
  {
    hide Count;
    forall c: nat
      ensures In(p, c) <==> In(q, c)
    {
      assert Odd(Count(p, c)) == Odd(Count(q, c));
    }
  }

  lemma {:induction false} IncreasingNonDecreasing(p: seq<nat>)
    requires Increasing(p)
    ensures NonDecreasing(p)
  {
    forall i, j | 0 <= i <= j < |p| ensures p[i] <= p[j] { if i < j { assert p[i] < p[j]; } }
  }

  lemma {:induction false} IntervalMembers(x: nat, y: nat, c: nat)
    requires x <= y
    ensures In([x, y], c) <==> x <= c < y
  {
    assert [x, y] == [x] + [y];
    CountConcat([x], [y], c);
    CountOne(x, c);
    CountOne(y, c);
  }

  lemma {:induction false} Inverted(pts: seq<nat>, c: nat)
    requires c < UINT32_MAX
    ensures In([0] + pts + [UINT32_MAX], c) <==> !In(pts, c)
  {
    CountPush([0] + pts, UINT32_MAX, c);
    CountConcat([0], pts, c);
    CountOne(0, c);
  }

  ghost predicate Bounded(pts: seq<nat>) { forall i :: 0 <= i < |pts| ==> pts[i] <= UINT32_MAX }

  /** The first `i` points of `orig` have been squeezed into the first `k` of `pt`; the others are untouched. */
  ghost predicate Squeezed(orig: seq<nat>, pt: seq<nat>, i: nat, k: nat) {
    && k <= i <= |orig| == |pt| && |orig| % 2 == 0 && k % 2 == 0 && i % 2 == 0 && NonDecreasing(orig) && Bounded(orig)
    && pt[i..] == orig[i..] && Same(orig[..i], pt[..k]) && Increasing(pt[..k]) && Bounded(pt[..k])
    && (k > 0 && i < |orig| ==> pt[k - 1] < orig[i])
  }

  lemma {:induction false} SqueezeStart(orig: seq<nat>)
    requires NonDecreasing(orig) && |orig| % 2 == 0 && Bounded(orig)
    ensures Squeezed(orig, orig, 0, 0)
  {
    hide Same;
    assert orig[..0] == [];
    SameRefl([]);
  }

  lemma {:induction false} SqueezeTail(orig: seq<nat>, pt: seq<nat>, i: nat, k: nat)
    requires Squeezed(orig, pt, i, k) && i + 1 < |pt|
    ensures NonDecreasing(pt[i..]) && |pt[i..]| % 2 == 0 && pt[i] == orig[i] && pt[i + 1] == orig[i + 1]
  {
    hide Same;
    TailNonDecreasing(orig, i, pt);
    assert pt[i..][0] == orig[i..][0] && pt[i..][1] == orig[i..][1];
  }

  lemma {:induction false} SqueezeDrop(orig: seq<nat>, pt: seq<nat>, i: nat, k: nat)
    requires Squeezed(orig, pt, i, k) && i + 1 < |pt| && orig[i] == orig[i + 1]
    ensures Squeezed(orig, pt, i + 2, k)
  {
    hide Same;
    Dropped(orig, i, pt[..k]);
    assert pt[i + 2..] == pt[i..][2..] && orig[i + 2..] == orig[i..][2..];
  }

  lemma {:induction false} SqueezeKeep(orig: seq<nat>, pt: seq<nat>, pt': seq<nat>, i: nat, k: nat, j: nat)
    requires Squeezed(orig, pt, i, k) && i + j + 1 < |pt| && j % 2 == 0 && pt[i] != pt[i + 1]
             && pt' == pt[k := pt[i]][k + 1 := pt[i + j + 1]]
    requires Same(pt[i..][0..j + 2], [pt[i..][0], pt[i..][j + 1]])
             && (i + j + 2 < |pt| ==> pt[i..][j + 1] < pt[i..][j + 2])
    ensures Squeezed(orig, pt', i + j + 2, k + 2)
  {
    hide Same;
    var tail := orig[i..];
    assert forall x :: 0 <= x < |tail| ==> tail[x] == orig[i + x] && pt[i..][x] == pt[i + x];
    var first, last := orig[i], orig[i + j + 1];
    assert pt[i] == first && pt[i + 1] == orig[i + 1] && pt[i + j + 1] == last;
    assert first < orig[i + 1] <= last;
    Kept(orig, i, j, pt[..k], tail);
    assert pt'[..k + 2] == pt[..k] + [first, last];
    assert pt'[i + j + 2..] == pt[i..][j + 2..] == tail[j + 2..] == orig[i + j + 2..];
  }

  lemma {:induction false} SqueezeEnd(orig: seq<nat>, pt: seq<nat>, i: nat, k: nat)
    requires Squeezed(orig, pt, i, k) && i + 1 >= |pt|
    ensures Canonical(pt[..k]) && Same(orig, pt[..k])
  {
    hide Same;
    assert orig[..i] == orig;
  }

  lemma {:induction false} Dropped(orig: seq<nat>, i: nat, done: seq<nat>)
    requires i + 1 < |orig| && orig[i] == orig[i + 1] && Same(orig[..i], done)
    ensures Same(orig[..i + 2], done)
  {
    hide Same;
    SameCancel(orig[i]);
    SameConcat(orig[..i], [orig[i], orig[i]], done, []);
    assert orig[..i] + [orig[i], orig[i]] == orig[..i + 2] && done + [] == done;
  }

  lemma {:induction false} TailNonDecreasing(orig: seq<nat>, i: nat, pt: seq<nat>)
    requires NonDecreasing(orig) && i <= |orig| == |pt| && pt[i..] == orig[i..]
    ensures NonDecreasing(pt[i..])
  {
    assert forall x :: 0 <= x < |orig| - i ==> orig[i..][x] == orig[i + x];
  }

  lemma {:induction false} Kept(orig: seq<nat>, i: nat, j: nat, done: seq<nat>, tail: seq<nat>)
    requires i + j + 1 < |orig| && tail == orig[i..] && Same(orig[..i], done)
             && Same(tail[0..j + 2], [tail[0], tail[j + 1]])
    ensures Same(orig[..i + j + 2], done + [orig[i], orig[i + j + 1]])
  {
    hide Same;
    SameConcat(orig[..i], tail[0..j + 2], done, [tail[0], tail[j + 1]]);
    assert orig[..i] + tail[0..j + 2] == orig[..i + j + 2];
  }

  // ---------- members and intervals ----------

  /** A code point belongs to a set exactly if it lies in one of its intervals. */
  lemma {:induction false} InInterval(pts: seq<nat>, c: nat)
    requires Increasing(pts) && |pts| % 2 == 0
    ensures In(pts, c) <==> exists k :: 0 <= k < |pts| / 2 && Inside(pts, k, c)
    decreases |pts|
  {
    hide In, Count;
    if pts == [] {
      EmptySet(c);
    } else {
      var n, h := |pts|, |pts| / 2;
      var init, x, y := pts[..n - 2], pts[n - 2], pts[n - 1];
      assert |init| / 2 == h - 1 && 2 * (h - 1) == n - 2;
      assert forall k :: 0 <= k < h - 1 ==> (Inside(init, k, c) <==> Inside(pts, k, c));
      assert Inside(pts, h - 1, c) <==> x <= c < y;
      InInterval(init, c);
      LastInterval(pts, init, x, y, c);
    }
  }

  lemma {:induction false} EmptySet(c: nat)
    ensures !In([], c)
  {
  }

  lemma {:induction false} LastInterval(pts: seq<nat>, init: seq<nat>, x: nat, y: nat, c: nat)
    requires Increasing(pts) && |pts| % 2 == 0 && pts == init + [x, y]
    ensures In(pts, c) <==> In(init, c) || x <= c < y
  {
    hide Count;
    assert [x, y] == [x] + [y];
    CountConcat(init, [x, y], c);
    CountConcat([x], [y], c);
    CountOne(x, c);
    CountOne(y, c);
    assert pts[|init|] == x && pts[|init| + 1] == y;
    assert forall i :: 0 <= i < |init| ==> init[i] == pts[i] < x;
    if x <= c { CountAll(init, c); }
  }

  /** `c` lies in interval `k`. */
  ghost predicate Inside(pts: seq<nat>, k: nat, c: nat)
    requires k < |pts| / 2
  {
    pts[2 * k] <= c < pts[2 * k + 1]
  }
}
