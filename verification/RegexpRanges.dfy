/** Character classes in the machine: emitting a set of code points as pairs of bounds, and searching among them. */
module RegexpRanges {
  import opened CharRange
  import opened RegexpCode
  import opened RegexpText

  // ---------- emission ----------

  datatype Emitted = TooManyRanges | Emitted(p: Prim)

  /** Interval `k` as inclusive bounds. */
  function Bounds(pts: seq<nat>, k: nat, wide: bool): (b: (nat, nat))
    requires k < |pts| / 2 && pts[2 * k + 1] > 0
  {
    var high := pts[2 * k + 1] - 1;
    (pts[2 * k], if !wide && high == UINT32_MAX - 1 then 0xffff else high)
  }

  /** The bounds are those of the intervals; in 16-bit form an unlimited last interval ends at 0xffff. */
  ghost predicate IsBounds(pairs: seq<(nat, nat)>, pts: seq<nat>, wide: bool) {
    && |pairs| == |pts| / 2
    && forall k :: 0 <= k < |pairs| ==> pts[2 * k + 1] > 0 && pairs[k] == Bounds(pts, k, wide)
  }

  method EmitPairs(pts: seq<nat>, wide: bool) returns (pairs: seq<(nat, nat)>)
    requires Canonical(pts)
    ensures IsBounds(pairs, pts, wide)
  {
    pairs := [];
    for i := 0 to |pts| / 2
      invariant |pairs| == i && forall k :: 0 <= k < i ==> pts[2 * k + 1] > 0 && pairs[k] == Bounds(pts, k, wide)
    {
      assert pts[2 * i] < pts[2 * i + 1];
      pairs := pairs + [Bounds(pts, i, wide)];
    }
  }

  /** The instruction that tests membership in a set. */
  method EmitRange(pts: seq<nat>) returns (r: Emitted)
    requires Canonical(pts)
    ensures r.TooManyRanges? <==> |pts| / 2 >= 65535
    ensures r.Emitted? ==> Consumes(r.p) && ValidPrim(r.p)
    ensures r.Emitted? && (r.p.Range? || r.p.Range32?) ==> Ascending(r.p.pairs)
    ensures r.Emitted? ==> forall t: Text, c: nat :: Fold(t, c) < 0xffff_ffff
                                                     ==> (Accepts(t, r.p, c) <==> In(pts, Fold(t, c)))
  {
    hide In, InPairs16, InPairs32;
    var len := |pts| / 2;
    if len >= 65535 { return TooManyRanges; }
    if len == 0 {
      NoMembers(pts);
      return Emitted(Char32(UINT32_MAX));
    }
    var high := pts[|pts| - 1];
    if high == UINT32_MAX { high := pts[|pts| - 2]; }
    if high <= 0xffff {
      var pairs := EmitPairs(pts, false);
      NarrowBounds(pairs, pts);
      BoundsAscend(pairs, pts, false);
      forall c: nat | c < UINT32_MAX ensures InPairs16(pairs, c) <==> In(pts, c) { NarrowMembers(pairs, pts, c); }
      return Emitted(Range(pairs));
    } else {
      var pairs := EmitPairs(pts, true);
      WideBounds(pairs, pts);
      BoundsAscend(pairs, pts, true);
      forall c: nat | c < UINT32_MAX ensures InPairs32(pairs, c) <==> In(pts, c) { WideMembers(pairs, pts, c); }
      return Emitted(Range32(pairs));
    }
  }

  lemma {:induction false} NoMembers(pts: seq<nat>)
    requires Canonical(pts) && |pts| / 2 == 0
    ensures forall c: nat :: !In(pts, c)
  {
    forall c: nat ensures !In(pts, c) { InInterval(pts, c); }
  }

  lemma {:induction false} NarrowBounds(pairs: seq<(nat, nat)>, pts: seq<nat>)
    requires Canonical(pts) && IsBounds(pairs, pts, false) && pts != []
    requires (if pts[|pts| - 1] == UINT32_MAX then pts[|pts| - 2] else pts[|pts| - 1]) <= 0xffff
    ensures PairsBelow(pairs, U16)
  {
    forall k | 0 <= k < |pairs|
      ensures pairs[k].0 < U16 && pairs[k].1 < U16
    {
      assert pts[2 * k] < pts[2 * k + 1];
      if 2 * k + 1 < |pts| - 1 {
        assert pts[2 * k + 1] <= pts[|pts| - 2] by {
          if 2 * k + 1 < |pts| - 2 { assert pts[2 * k + 1] < pts[|pts| - 2]; }
        }
      }
    }
  }

  lemma {:induction false} WideBounds(pairs: seq<(nat, nat)>, pts: seq<nat>)
    requires Canonical(pts) && IsBounds(pairs, pts, true)
    ensures PairsBelow(pairs, U32)
  {
    forall k | 0 <= k < |pairs|
      ensures pairs[k].0 < U32 && pairs[k].1 < U32
    {
      assert pts[2 * k] < pts[2 * k + 1];
    }
  }

  // ---------- searching ----------

  /** Bounds in increasing order. */
  ghost predicate Ascending(pairs: seq<(nat, nat)>) {
    && (forall i :: 0 <= i < |pairs| ==> pairs[i].0 <= pairs[i].1)
    && (forall i, j :: 0 <= i < j < |pairs| ==> pairs[i].1 < pairs[j].0)
  }

  ghost predicate Between(pairs: seq<(nat, nat)>, k: nat, c: nat)
    requires k < |pairs|
  {
    pairs[k].0 <= c <= pairs[k].1
  }

  /** The binary search finds the pair that holds `c`, if there is one. */
  lemma {:induction false} FindsPair(pairs: seq<(nat, nat)>, c: nat, lo: nat, hi: int)
    requires Ascending(pairs) && hi < |pairs|
    ensures FindPair(pairs, c, lo, hi) <==> exists k :: lo <= k <= hi && Between(pairs, k, c)
    decreases hi - lo
  {
    hide Ascending, Between;
    if lo <= hi {
      var idx := (lo + hi) / 2;
      if c < pairs[idx].0 {
        FindsPair(pairs, c, lo, idx - 1);
        NoneFrom(pairs, c, idx);
      } else if c > pairs[idx].1 {
        FindsPair(pairs, c, idx + 1, hi);
        NoneUpTo(pairs, c, idx);
      } else {
        IsBetween(pairs, c, idx);
      }
    }
  }

  lemma {:induction false} IsBetween(pairs: seq<(nat, nat)>, c: nat, idx: nat)
    requires idx < |pairs| && pairs[idx].0 <= c <= pairs[idx].1
    ensures Between(pairs, idx, c)
  {
  }

  /** A character below a pair is in none from there on. */
  lemma {:induction false} NoneFrom(pairs: seq<(nat, nat)>, c: nat, idx: nat)
    requires Ascending(pairs) && idx < |pairs| && c < pairs[idx].0
    ensures forall k :: idx <= k < |pairs| ==> !Between(pairs, k, c)
  {
    forall k | idx <= k < |pairs| ensures !Between(pairs, k, c) { if k > idx { assert pairs[idx].1 < pairs[k].0; } }
  }

  lemma {:induction false} NoneUpTo(pairs: seq<(nat, nat)>, c: nat, idx: nat)
    requires Ascending(pairs) && idx < |pairs| && c > pairs[idx].1
    ensures forall k :: 0 <= k <= idx ==> !Between(pairs, k, c)
  {
    forall k | 0 <= k <= idx ensures !Between(pairs, k, c) { if k < idx { assert pairs[k].1 < pairs[idx].0; } }
  }

  lemma {:induction false} InPairsMeans(pairs: seq<(nat, nat)>, c: nat)
    requires Ascending(pairs)
    ensures InPairs32(pairs, c) <==> exists k :: 0 <= k < |pairs| && Between(pairs, k, c)
  {
    hide FindPair;
    if pairs != [] {
      var last := |pairs| - 1;
      FindsPair(pairs, c, 0, last);
      if exists k :: 0 <= k < |pairs| && Between(pairs, k, c) {
        var k :| 0 <= k < |pairs| && Between(pairs, k, c);
        if k > 0 { assert pairs[0].1 < pairs[k].0; }
        if k < last { assert pairs[k].1 < pairs[last].0; }
      }
    }
  }

  /** The character is between the bounds of a pair, or, with 16-bit bounds, above a last bound of 0xffff. */
  ghost predicate InSet(p: Prim, c: nat)
    requires p.Range? || p.Range32?
  {
    || (p.Range? && p.pairs != [] && p.pairs[|p.pairs| - 1].1 == 0xffff <= c)
    || exists k :: 0 <= k < |p.pairs| && Between(p.pairs, k, c)
  }

  /** The tests of the bounds and the binary search decide exactly that. */
  lemma {:induction false} AcceptsSet(t: Text, p: Prim, c: nat)
    requires (p.Range? || p.Range32?) && Ascending(p.pairs)
    ensures Accepts(t, p, c) <==> InSet(p, Fold(t, c))
  {
    hide InPairs32;
    InPairsMeans(p.pairs, Fold(t, c));
    if p.pairs != [] { FirstBelow(p.pairs, Fold(t, c)); }
  }

  lemma {:induction false} FirstBelow(pairs: seq<(nat, nat)>, c: nat)
    requires Ascending(pairs) && pairs != []
    ensures pairs[|pairs| - 1].1 <= c ==> pairs[0].0 <= c
    ensures (exists k :: 0 <= k < |pairs| && Between(pairs, k, c)) ==> pairs[0].0 <= c
  {
    var last := |pairs| - 1;
    if last > 0 { assert pairs[0].1 < pairs[last].0; }
    if exists k :: 0 <= k < |pairs| && Between(pairs, k, c) {
      var k :| 0 <= k < |pairs| && Between(pairs, k, c);
      if k > 0 { assert pairs[0].1 < pairs[k].0; }
    }
  }

  lemma {:induction false} WideMembers(pairs: seq<(nat, nat)>, pts: seq<nat>, c: nat)
    requires Canonical(pts) && IsBounds(pairs, pts, true)
    ensures InPairs32(pairs, c) <==> In(pts, c)
  {
    hide InPairs32, In;
    BoundsAscend(pairs, pts, true);
    InPairsMeans(pairs, c);
    InInterval(pts, c);
    if exists k :: 0 <= k < |pairs| && Between(pairs, k, c) {
      var k :| 0 <= k < |pairs| && Between(pairs, k, c);
      assert Inside(pts, k, c);
    }
    if exists k :: 0 <= k < |pts| / 2 && Inside(pts, k, c) {
      var k :| 0 <= k < |pts| / 2 && Inside(pts, k, c);
      assert Between(pairs, k, c);
    }
  }

  lemma {:induction false} BoundsAscend(pairs: seq<(nat, nat)>, pts: seq<nat>, wide: bool)
    requires Canonical(pts) && IsBounds(pairs, pts, wide)
    requires !wide && pts != [] ==> (if pts[|pts| - 1] == UINT32_MAX then pts[|pts| - 2] else pts[|pts| - 1]) <= 0xffff
    ensures Ascending(pairs)
  {
    forall i | 0 <= i < |pairs|
      ensures pairs[i].0 <= pairs[i].1
    {
      assert pts[2 * i] < pts[2 * i + 1];
    }
    forall i, j | 0 <= i < j < |pairs|
      ensures pairs[i].1 < pairs[j].0
    {
      assert pts[2 * i + 1] < pts[2 * j];
    }
  }

  lemma {:induction false} NarrowMembers(pairs: seq<(nat, nat)>, pts: seq<nat>, c: nat)
    requires Canonical(pts) && IsBounds(pairs, pts, false) && pts != [] && c < UINT32_MAX
    requires (if pts[|pts| - 1] == UINT32_MAX then pts[|pts| - 2] else pts[|pts| - 1]) <= 0xffff
    ensures InPairs16(pairs, c) <==> In(pts, c)
  {
    hide InPairs32, In;
    BoundsAscend(pairs, pts, false);
    InPairsMeans(pairs, c);
    InInterval(pts, c);
    var last := |pairs| - 1;
    assert pts[2 * last] < pts[2 * last + 1];
    if c >= 0xffff && pairs[last].1 == 0xffff {
      assert pts[2 * last + 1] == UINT32_MAX;
      assert Inside(pts, last, c);
      if last > 0 { assert pairs[0].1 < pairs[last].0; }
    } else {
      NarrowSame(pairs, pts, c);
    }
  }

  lemma {:induction false} NarrowSame(pairs: seq<(nat, nat)>, pts: seq<nat>, c: nat)
    requires Canonical(pts) && IsBounds(pairs, pts, false) && pts != [] && c < UINT32_MAX && Ascending(pairs)
    requires (if pts[|pts| - 1] == UINT32_MAX then pts[|pts| - 2] else pts[|pts| - 1]) <= 0xffff
    requires !(c >= 0xffff && pairs[|pairs| - 1].1 == 0xffff)
    ensures (exists k :: 0 <= k < |pairs| && Between(pairs, k, c))
            <==> (exists k :: 0 <= k < |pts| / 2 && Inside(pts, k, c))
    ensures (exists k :: 0 <= k < |pairs| && Between(pairs, k, c)) ==> pairs[0].0 <= c
  {
    if exists k :: 0 <= k < |pairs| && Between(pairs, k, c) {
      var k :| 0 <= k < |pairs| && Between(pairs, k, c);
      assert Inside(pts, k, c);
      if k > 0 { assert pairs[0].1 < pairs[k].0; }
    }
    if exists k :: 0 <= k < |pts| / 2 && Inside(pts, k, c) {
      var k :| 0 <= k < |pts| / 2 && Inside(pts, k, c);
      if k < |pairs| - 1 { assert pts[2 * k + 1] < pts[|pts| - 1]; }
      assert Between(pairs, k, c);
    }
  }
}
