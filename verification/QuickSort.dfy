/** The introsort of cutils: three-way partition around a median, an explicit stack of pending stretches, heapsort
    below a depth limit, insertion sort for short stretches. */
module QuickSort {
  import opened SortBase
  import opened HeapSort

  // ---------- partition ----------

  /** All of `s[lo..hi]` compare to the pivot `v` as `sign` says: 1 below it, 0 equal, -1 above. */
  ghost predicate AllBeside<T(!new)>(cmp: (T, T) -> int, v: T, s: seq<T>, lo: int, hi: int, sign: int) {
    0 <= lo <= hi <= |s| && forall k :: lo <= k < hi ==> Beside(cmp(v, s[k]), sign)
  }

  predicate Beside(c: int, sign: int) { if sign == 0 then c == 0 else if sign > 0 then c > 0 else c < 0 }

  /** The four regions of the partition loop: equal, below, unknown, above, equal. */
  ghost predicate Regions<T(!new)>(cmp: (T, T) -> int, v: T, s: seq<T>, p: int, l: int, i: int, j: int, g: int,
                                   top: int) {
    && 0 <= p < l <= i && j <= g <= top <= |s| && i <= |s| && s[p] == v
    && AllBeside(cmp, v, s, p, l, 0) && AllBeside(cmp, v, s, l, i, 1)
    && AllBeside(cmp, v, s, j, g, -1) && AllBeside(cmp, v, s, g, top, 0)
  }

  /** A smaller element, or an equal one exchanged to the left end, extends the left regions. */
  lemma {:induction false} ExtendLeft<T(!new)>(cmp: (T, T) -> int, v: T, s: seq<T>, t: seq<T>, p: int, l: int, i: int,
                                               j: int, g: int, top: int)
    requires Regions(cmp, v, s, p, l, i, j, g, top) && i < j
    requires if cmp(v, s[i]) == 0 then t == Exchanged(s, l, i) else cmp(v, s[i]) > 0 && t == s
    ensures Regions(cmp, v, t, p, if cmp(v, s[i]) == 0 then l + 1 else l, i + 1, j, g, top)
  {
  }

  /** A larger element, or an equal one exchanged to the right end, extends the right regions. */
  lemma {:induction false} ExtendRight<T(!new)>(cmp: (T, T) -> int, v: T, s: seq<T>, t: seq<T>, p: int, l: int, i: int,
                                                j: int, g: int, top: int)
    requires Regions(cmp, v, s, p, l, i, j + 1, g, top) && i <= j
    requires if cmp(v, s[j]) == 0 then t == Exchanged(s, g - 1, j) else cmp(v, s[j]) < 0 && t == s
    ensures Regions(cmp, v, t, p, l, i, j, if cmp(v, s[j]) == 0 then g - 1 else g, top) && (i < j ==> t[i] == s[i])
  {
  }

  lemma {:induction false} ExchangePair<T(!new)>(cmp: (T, T) -> int, v: T, s: seq<T>, t: seq<T>, p: int, l: int, i: int,
                                                 j: int, g: int, top: int)
    requires Regions(cmp, v, s, p, l, i, j + 1, g, top) && i < j && cmp(v, s[i]) < 0 && cmp(v, s[j]) > 0
    requires t == Exchanged(s, i, j)
    ensures Regions(cmp, v, t, p, l, i + 1, j, g, top)
  {
  }

  /** Moves right over elements that are not above the pivot. */
  method ScanLeft<T(!new)>(a: array<T>, cmp: (T, T) -> int, p: nat, l0: nat, i0: nat, j: nat, g: nat, top: nat)
    returns (l: nat, i: nat)
    requires i0 <= j <= a.Length && p < a.Length && Regions(cmp, a[p], a[..], p, l0, i0, j, g, top)
    modifies a
    ensures i0 <= i <= j && Regions(cmp, old(a[p]), a[..], p, l, i, j, g, top) && Shuffle(old(a[..]), a[..], p, top)
    ensures i < j ==> cmp(old(a[p]), a[i]) < 0
  {
    hide Shuffle, Exchanged, AllBeside;
    ghost var s0, v := a[..], a[p];
    ShuffleRefl(s0, p, top);
    l, i := l0, i0;
    while i < j && cmp(a[p], a[i]) >= 0
      invariant i0 <= i <= j && Regions(cmp, v, a[..], p, l, i, j, g, top) && Shuffle(s0, a[..], p, top)
      decreases j - i
    {
      ghost var s, l' := a[..], l;
      if cmp(a[p], a[i]) == 0 {
        Swap(a, l, i);
        ExchangeShuffles(s, l, i, p, top);
        ShuffleTrans(s0, s, a[..], p, top);
        l := l + 1;
      }
      ExtendLeft(cmp, v, s, a[..], p, l', i, j, g, top);
      i := i + 1;
    }
  }

  /** Moves left over elements that are not below the pivot, down to the one at `i`, which is above it. */
  method ScanRight<T(!new)>(a: array<T>, cmp: (T, T) -> int, p: nat, l: nat, i: nat, j0: nat, g0: nat, top: nat)
    returns (j: nat, g: nat)
    requires i < j0 <= a.Length && p < a.Length && Regions(cmp, a[p], a[..], p, l, i, j0, g0, top)
             && cmp(a[p], a[i]) < 0
    modifies a
    ensures i <= j < j0 && Regions(cmp, old(a[p]), a[..], p, l, i, j + 1, g, top) && Shuffle(old(a[..]), a[..], p, top)
    ensures cmp(old(a[p]), a[i]) < 0 && (i < j ==> cmp(old(a[p]), a[j]) > 0)
  {
    hide Shuffle, Exchanged, AllBeside;
    ghost var s0, v := a[..], a[p];
    ShuffleRefl(s0, p, top);
    j, g := j0 - 1, g0;
    while i < j && cmp(a[p], a[j]) <= 0
      invariant i <= j < j0 && Regions(cmp, v, a[..], p, l, i, j + 1, g, top) && Shuffle(s0, a[..], p, top)
      invariant cmp(v, a[i]) < 0
      decreases j
    {
      ghost var s, g' := a[..], g;
      if cmp(a[p], a[j]) == 0 {
        g := g - 1;
        Swap(a, g, j);
        ExchangeShuffles(s, g, j, p, top);
        ShuffleTrans(s0, s, a[..], p, top);
      }
      ExtendRight(cmp, v, s, a[..], p, l, i, j, g', top);
      j := j - 1;
    }
  }

  /** Partitions the stretch from `p` to `top` around its first element. */
  method Partition<T(!new)>(a: array<T>, cmp: (T, T) -> int, p: nat, top: nat) returns (l: nat, i: nat, g: nat)
    requires IsOrder(cmp) && p < top <= a.Length
    modifies a
    ensures Regions(cmp, old(a[p]), a[..], p, l, i, i, g, top) && Shuffle(old(a[..]), a[..], p, top)
  {
    hide IsOrder, Shuffle, Exchanged, AllBeside;
    ghost var s0, v := a[..], a[p];
    StartRegions(cmp, v, s0, p, top);
    ShuffleRefl(s0, p, top);
    l, i, g := p + 1, p + 1, top;
    var j: nat := top;
    while true
      invariant Regions(cmp, v, a[..], p, l, i, j, g, top) && i <= j <= a.Length && Shuffle(s0, a[..], p, top)
      decreases j - i
    {
      ghost var s, n := a[..], j - i;
      l, i := ScanLeft(a, cmp, p, l, i, j, g, top);
      ShuffleTrans(s0, s, a[..], p, top);
      if i == j { break; }
      s := a[..];
      j, g := ScanRight(a, cmp, p, l, i, j, g, top);
      ShuffleTrans(s0, s, a[..], p, top);
      s := a[..];
      if i >= j {
        ExtendRight(cmp, v, s, s, p, l, i, j, g, top);
        break;
      }
      Swap(a, i, j);
      ExchangePair(cmp, v, s, a[..], p, l, i, j, g, top);
      ExchangeShuffles(s, i, j, p, top);
      ShuffleTrans(s0, s, a[..], p, top);
      i := i + 1;
    }
  }

  lemma {:induction false} StartRegions<T(!new)>(cmp: (T, T) -> int, v: T, s: seq<T>, p: int, top: int)
    requires IsOrder(cmp) && 0 <= p < top <= |s| && v == s[p]
    ensures Regions(cmp, v, s, p, p + 1, p + 1, top, top, top)
  {
    hide IsOrder;
    Reflexive(cmp, v);
  }

  // ---------- equal elements to the middle ----------

  /** The stretches of `n` elements at `x` and at `y` exchanged. */
  ghost predicate BlocksSwapped<T>(s: seq<T>, t: seq<T>, x: nat, y: nat, n: nat) {
    && |s| == |t| && x + n <= y && y + n <= |s|
    && forall k :: 0 <= k < |s| ==> t[k] == s[BlockSource(x, y, n, k)]
  }

  function BlockSource(x: nat, y: nat, n: nat, k: nat): (j: nat)
    requires x + n <= y
    ensures j == k || x <= j < x + n || y <= j < y + n
  {
    if x <= k < x + n then k - x + y else if y <= k < y + n then k - y + x else k
  }

  lemma {:induction false} BlockStart<T>(s: seq<T>, x: nat, y: nat)
    requires x <= y <= |s|
    ensures BlocksSwapped(s, s, x, y, 0)
  {
  }

  lemma {:induction false} BlockStep<T>(s0: seq<T>, s: seq<T>, t: seq<T>, x: nat, y: nat, m: nat)
    requires x + m < y && y + m < |s| && BlocksSwapped(s0, s, x, y, m) && t == Exchanged(s, x + m, y + m)
    ensures BlocksSwapped(s0, t, x, y, m + 1)
  {
    forall k | 0 <= k < |t|
      ensures t[k] == s0[BlockSource(x, y, m + 1, k)]
    {
      var j := if k == x + m then y + m else if k == y + m then x + m else k;
      assert t[k] == s[j];
      assert s[j] == s0[BlockSource(x, y, m, j)];
    }
  }

  method SwapBlocks<T(!new)>(a: array<T>, x: nat, y: nat, n: nat, ghost lo: nat, ghost hi: nat)
    requires lo <= x && x + n <= y && y + n <= hi <= a.Length
    modifies a
    ensures BlocksSwapped(old(a[..]), a[..], x, y, n) && Shuffle(old(a[..]), a[..], lo, hi)
  {
    hide Shuffle, Exchanged, BlocksSwapped;
    ghost var s0 := a[..];
    ShuffleRefl(s0, lo, hi);
    BlockStart(s0, x, y);
    for m := 0 to n
      invariant BlocksSwapped(s0, a[..], x, y, m) && Shuffle(s0, a[..], lo, hi)
    {
      ghost var s := a[..];
      Swap(a, x + m, y + m);
      BlockStep(s0, s, a[..], x, y, m);
      ExchangeShuffles(s, x + m, y + m, lo, hi);
      ShuffleTrans(s0, s, a[..], lo, hi);
    }
  }

  /** Exchanging the shorter of two neighbouring regions with the far end of the other exchanges the regions. */
  lemma {:induction false} RegionsSwapped<T(!new)>(cmp: (T, T) -> int, v: T, s: seq<T>, t: seq<T>, x: nat, m: nat,
                                                   y: nat, n: nat, c: int, d: int)
    requires x <= m <= y && AllBeside(cmp, v, s, x, m, c) && AllBeside(cmp, v, s, m, y, d)
    requires n == (if m - x <= y - m then m - x else y - m) && BlocksSwapped(s, t, x, y - n, n)
    ensures AllBeside(cmp, v, t, x, x + (y - m), d) && AllBeside(cmp, v, t, x + (y - m), y, c)
  {
    forall k | x <= k < y
      ensures Beside(cmp(v, t[k]), if k < x + (y - m) then d else c)
    {
      var j := BlockSource(x, y - n, n, k);
      assert t[k] == s[j];
    }
  }

  lemma {:induction false} RegionKept<T(!new)>(cmp: (T, T) -> int, v: T, s: seq<T>, t: seq<T>, x: nat, y: nat, n: nat,
                                               lo: int, hi: int, c: int)
    requires BlocksSwapped(s, t, x, y, n) && AllBeside(cmp, v, s, lo, hi, c) && (hi <= x || y + n <= lo)
    ensures AllBeside(cmp, v, t, lo, hi, c)
  {
    forall k | lo <= k < hi
      ensures Beside(cmp(v, t[k]), c)
    {
      assert t[k] == s[BlockSource(x, y, n, k)];
    }
  }

  /** Below, equal, above. */
  ghost predicate ThreeWay<T(!new)>(cmp: (T, T) -> int, v: T, s: seq<T>, p: int, x: int, y: int, top: int) {
    AllBeside(cmp, v, s, p, x, 1) && AllBeside(cmp, v, s, x, y, 0) && AllBeside(cmp, v, s, y, top, -1)
  }

  /** Partitions into three parts around the first element. */
  method ThreeWayPartition<T(!new)>(a: array<T>, cmp: (T, T) -> int, p: nat, top: nat, ghost v: T)
    returns (x: nat, y: nat)
    requires IsOrder(cmp) && p < top <= a.Length && v == a[p]
    modifies a
    ensures p <= x < y <= top && ThreeWay(cmp, v, a[..], p, x, y, top) && Shuffle(old(a[..]), a[..], p, top)
  {
    hide IsOrder, Shuffle, AllBeside, BlocksSwapped;
    ghost var s0 := a[..];
    var l, i, g := Partition(a, cmp, p, top);
    ghost var s1 := a[..];
    assert p < l <= i <= g <= top;
    var left, below := l - p, i - l;
    var span := if left > below then below else left;
    SwapBlocks(a, p, i - span, span, p, top);
    ghost var s2 := a[..];
    ShuffleTrans(s0, s1, s2, p, top);
    RegionsSwapped(cmp, v, s1, s2, p, l, i, span, 0, 1);
    RegionKept(cmp, v, s1, s2, p, i - span, span, i, g, -1);
    RegionKept(cmp, v, s1, s2, p, i - span, span, g, top, 0);
    var right, above := top - g, g - i;
    span := if right > above then above else right;
    SwapBlocks(a, i, top - span, span, p, top);
    ghost var s3 := a[..];
    ShuffleTrans(s0, s2, s3, p, top);
    RegionsSwapped(cmp, v, s2, s3, i, g, top, span, -1, 0);
    x, y := p + below, top - above;
    RegionKept(cmp, v, s2, s3, i, top - span, span, p, x, 1);
    RegionKept(cmp, v, s2, s3, i, top - span, span, x, i, 0);
    JoinBeside(cmp, v, s3, x, i, y, 0);
  }

  lemma {:induction false} JoinBeside<T(!new)>(cmp: (T, T) -> int, v: T, s: seq<T>, x: int, m: int, y: int, c: int)
    requires AllBeside(cmp, v, s, x, m, c) && AllBeside(cmp, v, s, m, y, c)
    ensures AllBeside(cmp, v, s, x, y, c)
  {
  }

  // ---------- short stretches ----------

  /** Sorted but for the element at `j`, which has still to move down. */
  ghost predicate SortedExcept<T(!new)>(cmp: (T, T) -> int, s: seq<T>, lo: nat, j: nat, hi: nat)
    requires lo <= j <= hi <= |s|
  {
    forall x, y :: lo <= x < y < hi && !(y == j) ==> cmp(s[x], s[y]) <= 0
  }

  lemma {:induction false} MoveDown<T(!new)>(cmp: (T, T) -> int, s: seq<T>, t: seq<T>, lo: nat, j: nat, hi: nat)
    requires IsOrder(cmp) && lo < j < hi <= |s| && SortedExcept(cmp, s, lo, j, hi) && cmp(s[j - 1], s[j]) > 0
             && t == Exchanged(s, j, j - 1)
    ensures SortedExcept(cmp, t, lo, j - 1, hi)
  {
    hide IsOrder;
    assert t[j] == s[j - 1] && t[j - 1] == s[j];
    Flip(cmp, s[j - 1], s[j]);
    forall x, y | lo <= x < y < hi && !(y == j - 1)
      ensures cmp(t[x], t[y]) <= 0
    {
      if y == j {
        if x < j - 1 { assert cmp(s[x], s[j - 1]) <= 0; }
      } else {
        assert t[y] == s[y];
        var x' := if x == j then j - 1 else if x == j - 1 then j else x;
        assert t[x] == s[x'];
      }
    }
  }

  lemma {:induction false} InPlace<T(!new)>(cmp: (T, T) -> int, s: seq<T>, lo: nat, j: nat, hi: nat)
    requires IsOrder(cmp) && lo <= j < hi <= |s| && SortedExcept(cmp, s, lo, j, hi)
             && (j > lo ==> cmp(s[j - 1], s[j]) <= 0)
    ensures Sorted(cmp, s, lo, hi)
  {
    hide IsOrder;
    forall x, y | lo <= x < y < hi
      ensures cmp(s[x], s[y]) <= 0
    {
      if y == j && x < j - 1 { Trans(cmp, s[x], s[j - 1], s[j]); }
    }
  }

  method InsertionSort<T(!new)>(a: array<T>, cmp: (T, T) -> int, lo: nat, hi: nat)
    requires IsOrder(cmp) && lo <= hi <= a.Length
    modifies a
    ensures Sorted(cmp, a[..], lo, hi) && Shuffle(old(a[..]), a[..], lo, hi)
  {
    hide IsOrder, Shuffle, Exchanged;
    ghost var s0 := a[..];
    ShuffleRefl(s0, lo, hi);
    var i := lo + 1;
    while i < hi
      invariant lo < i && (i <= hi || i == lo + 1) && Shuffle(s0, a[..], lo, hi)
                && (i <= hi ==> Sorted(cmp, a[..], lo, i))
      decreases hi - i
    {
      var j := i;
      while j > lo && cmp(a[j - 1], a[j]) > 0
        invariant lo <= j <= i && SortedExcept(cmp, a[..], lo, j, i + 1) && Shuffle(s0, a[..], lo, hi)
      {
        hide SortedExcept;
        ghost var s := a[..];
        Swap(a, j, j - 1);
        MoveDown(cmp, s, a[..], lo, j, i + 1);
        ExchangeShuffles(s, j, j - 1, lo, hi);
        ShuffleTrans(s0, s, a[..], lo, hi);
        j := j - 1;
      }
      InPlace(cmp, a[..], lo, j, i + 1);
      i := i + 1;
    }
  }

  /** The index of the median of three elements. */
  function Median<T>(s: seq<T>, cmp: (T, T) -> int, a: nat, b: nat, c: nat): (m: nat)
    requires a < |s| && b < |s| && c < |s|
    ensures m == a || m == b || m == c
  {
    if cmp(s[a], s[b]) < 0 then
      (if cmp(s[b], s[c]) < 0 then b else if cmp(s[a], s[c]) < 0 then c else a)
    else
      (if cmp(s[b], s[c]) > 0 then b else if cmp(s[a], s[c]) < 0 then a else c)
  }

  /** It lies between two of the three. */
  lemma {:induction false} MedianBetween<T(!new)>(s: seq<T>, cmp: (T, T) -> int, a: nat, b: nat, c: nat)
    requires IsOrder(cmp) && a < |s| && b < |s| && c < |s| && a != b && b != c && a != c
    ensures var m := Median(s, cmp, a, b, c);
            var x, y := if m == a then b else a, if m == c then b else c;
            (cmp(s[x], s[m]) <= 0 && cmp(s[m], s[y]) <= 0) || (cmp(s[y], s[m]) <= 0 && cmp(s[m], s[x]) <= 0)
  {
    hide IsOrder;
    Flip(cmp, s[a], s[b]);
    Flip(cmp, s[b], s[c]);
    Flip(cmp, s[a], s[c]);
  }

  // ---------- pending stretches ----------

  /** A stretch still to be sorted, and how often it has been split. */
  datatype Pending = Pending(lo: nat, hi: nat, depth: nat)

  ghost predicate Disjoint(ps: seq<Pending>, n: nat) {
    && (forall k :: 0 <= k < |ps| ==> ps[k].lo <= ps[k].hi <= n)
    && (forall k, m :: 0 <= k < m < |ps| ==> ps[k].hi <= ps[m].lo || ps[m].hi <= ps[k].lo)
  }

  /** Some pending stretch holds both positions. */
  ghost predicate Covered(ps: seq<Pending>, i: nat, j: nat) {
    exists k :: 0 <= k < |ps| && Holds(ps[k], i, j)
  }

  ghost predicate Holds(p: Pending, i: nat, j: nat) { p.lo <= i && j < p.hi }

  /** Only positions in the same pending stretch can be out of order. */
  ghost predicate Ordered<T(!new)>(cmp: (T, T) -> int, s: seq<T>, ps: seq<Pending>) {
    forall i, j :: 0 <= i < j < |s| ==> Covered(ps, i, j) || cmp(s[i], s[j]) <= 0
  }

  /** Rearranging the last pending stretch keeps what does not lie in it in order. */
  lemma {:induction false} OutsideKept<T(!new)>(cmp: (T, T) -> int, s: seq<T>, t: seq<T>, ps: seq<Pending>,
                                                cur: Pending, i: nat, j: nat)
    requires Ordered(cmp, s, ps + [cur]) && Disjoint(ps + [cur], |s|) && Shuffle(s, t, cur.lo, cur.hi)
    requires i < j < |s| && !Holds(cur, i, j)
    ensures Covered(ps, i, j) || cmp(t[i], t[j]) <= 0
  {
    hide Shuffle;
    ShuffleLength(s, t, cur.lo, cur.hi);
    var i', j' := i, j;
    if cur.lo <= i < cur.hi {
      i' := ShuffleSource(s, t, cur.lo, cur.hi, i);
    } else {
      ShuffleOutside(s, t, cur.lo, cur.hi, i);
    }
    if cur.lo <= j < cur.hi {
      j' := ShuffleSource(s, t, cur.lo, cur.hi, j);
    } else {
      ShuffleOutside(s, t, cur.lo, cur.hi, j);
    }
    assert i' < j' && t[i] == s[i'] && t[j] == s[j'];
    if Covered(ps + [cur], i', j') {
      var k :| 0 <= k < |ps + [cur]| && Holds((ps + [cur])[k], i', j');
      assert (ps + [cur])[|ps|] == cur;
      assert k < |ps|;
      assert ps[k] == (ps + [cur])[k];
      assert i' == i && j' == j;
      assert Holds(ps[k], i, j);
    }
  }

  /** Sorting the last pending stretch finishes it. */
  lemma {:induction false} StretchSorted<T(!new)>(cmp: (T, T) -> int, s: seq<T>, t: seq<T>, ps: seq<Pending>,
                                                  cur: Pending)
    requires Ordered(cmp, s, ps + [cur]) && Disjoint(ps + [cur], |s|) && Shuffle(s, t, cur.lo, cur.hi)
    requires cur.lo <= cur.hi <= |t| && Sorted(cmp, t, cur.lo, cur.hi)
    ensures Ordered(cmp, t, ps)
  {
    hide Shuffle;
    ShuffleLength(s, t, cur.lo, cur.hi);
    forall i, j | 0 <= i < j < |t|
      ensures Covered(ps, i, j) || cmp(t[i], t[j]) <= 0
    {
      if !Holds(cur, i, j) { OutsideKept(cmp, s, t, ps, cur, i, j); }
    }
  }

  /** Splitting the last pending stretch around a pivot leaves the parts below and above it. */
  lemma {:induction false} StretchSplit<T(!new)>(cmp: (T, T) -> int, s: seq<T>, t: seq<T>, ps: seq<Pending>,
                                                 cur: Pending, v: T, x: nat, y: nat, a: Pending, b: Pending)
    requires IsOrder(cmp) && Ordered(cmp, s, ps + [cur]) && Disjoint(ps + [cur], |s|) && Shuffle(s, t, cur.lo, cur.hi)
    requires cur.lo <= x <= y <= cur.hi && ThreeWay(cmp, v, t, cur.lo, x, y, cur.hi)
    requires {(a.lo, a.hi), (b.lo, b.hi)} == {(cur.lo, x), (y, cur.hi)}
    ensures Ordered(cmp, t, ps + [a] + [b])
  {
    hide Shuffle, IsOrder, ThreeWay;
    ShuffleLength(s, t, cur.lo, cur.hi);
    var qs := ps + [a] + [b];
    assert qs[|ps|] == a && qs[|ps| + 1] == b;
    forall i, j | 0 <= i < j < |t|
      ensures Covered(qs, i, j) || cmp(t[i], t[j]) <= 0
    {
      if Holds(cur, i, j) {
        SplitPair(cmp, v, t, cur.lo, x, y, cur.hi, i, j);
        if j < x || y <= i {
          assert Holds(a, i, j) || Holds(b, i, j);
          assert Holds(qs[|ps|], i, j) || Holds(qs[|ps| + 1], i, j);
        }
      } else {
        OutsideKept(cmp, s, t, ps, cur, i, j);
        if Covered(ps, i, j) {
          var k :| 0 <= k < |ps| && Holds(ps[k], i, j);
          assert qs[k] == ps[k];
        }
      }
    }
  }

  /** Positions in different parts of a split are in order. */
  lemma {:induction false} SplitPair<T(!new)>(cmp: (T, T) -> int, v: T, t: seq<T>, lo: nat, x: nat, y: nat, hi: nat,
                                              i: nat, j: nat)
    requires IsOrder(cmp) && lo <= x <= y <= hi <= |t| && ThreeWay(cmp, v, t, lo, x, y, hi) && lo <= i < j < hi
    ensures j < x || y <= i || cmp(t[i], t[j]) <= 0
  {
    hide IsOrder;
    if !(j < x || y <= i) {
      Flip(cmp, v, t[i]);
      Flip(cmp, v, t[j]);
      Trans(cmp, t[i], v, t[j]);
    }
  }

  lemma {:induction false} DisjointSplit(ps: seq<Pending>, cur: Pending, x: nat, y: nat, a: Pending, b: Pending, n: nat)
    requires Disjoint(ps + [cur], n) && cur.lo <= x <= y <= cur.hi
             && {(a.lo, a.hi), (b.lo, b.hi)} == {(cur.lo, x), (y, cur.hi)}
    ensures Disjoint(ps + [a] + [b], n)
  {
    var qs := ps + [a] + [b];
    assert (ps + [cur])[|ps|] == cur;
    forall k | 0 <= k < |ps| ensures (ps + [cur])[k] == ps[k] && qs[k] == ps[k] { }
    assert qs[|ps|] == a && qs[|ps| + 1] == b;
  }

  // ---------- the sort ----------

  const MAX_DEPTH: nat := 50

  /** Depths grow strictly along the stack, from 1 on, and stay below `limit`. */
  ghost predicate Deepening(ps: seq<Pending>, limit: nat) {
    && (forall k :: 0 <= k < |ps| ==> k < ps[k].depth < limit)
    && (forall k, m :: 0 <= k < m < |ps| ==> ps[k].depth < ps[m].depth)
  }

  /** So the number of pending stretches is bounded by the depth. */
  lemma {:induction false} DeepeningBound(ps: seq<Pending>, limit: nat)
    requires Deepening(ps, limit)
    ensures ps == [] || |ps| < limit
  {
    if ps != [] { assert ps[|ps| - 1].depth < limit; }
  }

  lemma {:induction false} DeepeningPush(ps: seq<Pending>, p: Pending)
    requires Deepening(ps, p.depth) && p.depth > 0
    ensures Deepening(ps + [p], p.depth + 1)
  {
    DeepeningBound(ps, p.depth);
  }

  lemma {:induction false} DeepeningPop(ps: seq<Pending>, limit: nat)
    requires ps != [] && Deepening(ps, limit)
    ensures Deepening(ps[..|ps| - 1], ps[|ps| - 1].depth)
  {
  }

  /** Work left: every split and every finished stretch lowers it. */
  ghost function Weight(ps: seq<Pending>): nat {
    if ps == [] then 0 else Weight(ps[..|ps| - 1]) + Length(ps[|ps| - 1])
  }

  ghost function Length(p: Pending): nat { if p.lo <= p.hi then 2 * (p.hi - p.lo) + 1 else 1 }

  lemma {:induction false} WeightPush(ps: seq<Pending>, p: Pending)
    ensures Weight(ps + [p]) == Weight(ps) + Length(p)
  {
    assert (ps + [p])[..|ps|] == ps;
  }

  /** Moves the median of three to the front and partitions around it. */
  method SplitStretch<T(!new)>(a: array<T>, cmp: (T, T) -> int, lo: nat, hi: nat) returns (x: nat, y: nat, ghost v: T)
    requires IsOrder(cmp) && lo + 6 < hi <= a.Length
    modifies a
    ensures lo <= x < y <= hi && ThreeWay(cmp, v, a[..], lo, x, y, hi) && Shuffle(old(a[..]), a[..], lo, hi)
  {
    hide IsOrder, Shuffle, Exchanged, ThreeWay;
    ghost var s0 := a[..];
    var m4 := (hi - lo) / 4;
    var m := Median(a[..], cmp, lo + m4, lo + 2 * m4, lo + 3 * m4);
    Swap(a, lo, m);
    ghost var s1 := a[..];
    ExchangeShuffles(s0, lo, m, lo, hi);
    v := a[lo];
    x, y := ThreeWayPartition(a, cmp, lo, hi, v);
    ShuffleTrans(s0, s1, a[..], lo, hi);
  }

  /** What holds between two steps: the pending stretches are disjoint and contain all that may be out of order. */
  ghost predicate Progress<T(!new)>(cmp: (T, T) -> int, s0: seq<T>, s: seq<T>, ps: seq<Pending>) {
    Ordered(cmp, s, ps) && Disjoint(ps, |s|) && Shuffle(s0, s, 0, |s0|)
  }

  lemma {:induction false} ProgressSplit<T(!new)>(cmp: (T, T) -> int, s0: seq<T>, s: seq<T>, t: seq<T>,
                                                  ps: seq<Pending>, cur: Pending, v: T, x: nat, y: nat, a: Pending,
                                                  b: Pending)
    requires IsOrder(cmp) && Progress(cmp, s0, s, ps + [cur]) && Shuffle(s, t, cur.lo, cur.hi)
    requires cur.lo <= x <= y <= cur.hi && ThreeWay(cmp, v, t, cur.lo, x, y, cur.hi)
    requires {(a.lo, a.hi), (b.lo, b.hi)} == {(cur.lo, x), (y, cur.hi)}
    ensures Progress(cmp, s0, t, ps + [a] + [b])
  {
    hide IsOrder, Shuffle, ThreeWay, Ordered, Disjoint;
    ShuffleLength(s0, s, 0, |s0|);
    ShuffleLength(s, t, cur.lo, cur.hi);
    StretchSplit(cmp, s, t, ps, cur, v, x, y, a, b);
    DisjointSplit(ps, cur, x, y, a, b, |s|);
    ShuffleWiden(s, t, cur.lo, cur.hi, 0, |s0|);
    ShuffleTrans(s0, s, t, 0, |s0|);
  }

  lemma {:induction false} ProgressSorted<T(!new)>(cmp: (T, T) -> int, s0: seq<T>, s: seq<T>, t: seq<T>,
                                                   ps: seq<Pending>, cur: Pending)
    requires Progress(cmp, s0, s, ps + [cur]) && Shuffle(s, t, cur.lo, cur.hi) && cur.lo <= cur.hi <= |t|
             && Sorted(cmp, t, cur.lo, cur.hi)
    ensures Progress(cmp, s0, t, ps)
  {
    hide Shuffle, Ordered, Sorted;
    ShuffleLength(s0, s, 0, |s0|);
    ShuffleLength(s, t, cur.lo, cur.hi);
    StretchSorted(cmp, s, t, ps, cur);
    ShuffleWiden(s, t, cur.lo, cur.hi, 0, |s0|);
    ShuffleTrans(s0, s, t, 0, |s0|);
    forall k | 0 <= k < |ps| ensures (ps + [cur])[k] == ps[k] { }
  }

  /** Sorts by splitting the stretch that was put aside last, while the stack of fifty entries holds the others. */
  method Rqsort<T(!new)>(a: array<T>, cmp: (T, T) -> int)
    requires IsOrder(cmp)
    modifies a
    ensures Sorted(cmp, a[..], 0, a.Length) && multiset(a[..]) == multiset(old(a[..]))
  {
    hide IsOrder, Progress, Deepening, Weight;
    if a.Length < 2 { return; }
    ghost var s0 := a[..];
    var stack := new Pending[50](_ => Pending(0, 0, 0));
    stack[0] := Pending(0, a.Length, 0);
    var sp: nat := 1;
    assert stack[..1] == [Pending(0, a.Length, 0)];
    StartProgress(cmp, s0, stack[..1]);
    while sp > 0
      invariant sp <= 50 && stack.Length == 50 && fresh(stack)
      invariant Progress(cmp, s0, a[..], stack[..sp])
                && (Deepening(stack[..sp], MAX_DEPTH + 1) || (sp == 1 && stack[0].depth == 0))
      decreases Weight(stack[..sp])
    {
      ghost var ps := stack[..sp];
      sp := sp - 1;
      var cur := stack[sp];
      assert ps == stack[..sp] + [cur];
      WeightPush(stack[..sp], cur);
      PopDepth(ps, cur);
      sp := SortStretch(a, cmp, stack, sp, cur, s0);
    }
    assert stack[..0] == [];
    AllSorted(cmp, s0, a[..]);
  }

  lemma {:induction false} StartProgress<T(!new)>(cmp: (T, T) -> int, s: seq<T>, ps: seq<Pending>)
    requires ps == [Pending(0, |s|, 0)]
    ensures Progress(cmp, s, s, ps)
  {
    ShuffleRefl(s, 0, |s|);
    forall i, j | 0 <= i < j < |s|
      ensures Covered(ps, i, j)
    {
      assert Holds(ps[0], i, j);
    }
  }

  lemma {:induction false} AllSorted<T(!new)>(cmp: (T, T) -> int, s0: seq<T>, s: seq<T>)
    requires Progress(cmp, s0, s, [])
    ensures Sorted(cmp, s, 0, |s|) && multiset(s) == multiset(s0)
  {
    assert s[0..|s0|] == s && s0[0..|s0|] == s0;
    forall i, j | 0 <= i < j < |s|
      ensures cmp(s[i], s[j]) <= 0
    {
      assert !Covered([], i, j);
    }
  }

  lemma {:induction false} PopDepth(ps: seq<Pending>, cur: Pending)
    requires ps != [] && cur == ps[|ps| - 1]
    requires Deepening(ps, MAX_DEPTH + 1) || (|ps| == 1 && ps[0].depth == 0)
    ensures Deepening(ps[..|ps| - 1], cur.depth + 1) && cur.depth <= MAX_DEPTH
  {
    if Deepening(ps, MAX_DEPTH + 1) { DeepeningPop(ps, MAX_DEPTH + 1); }
  }

  /** Splits a stretch until it is short, putting the longer parts aside, and sorts what is left. */
  method SortStretch<T(!new)>(a: array<T>, cmp: (T, T) -> int, stack: array<Pending>, sp0: nat, cur0: Pending,
                              ghost s0: seq<T>)
    returns (sp: nat)
    requires IsOrder(cmp) && (a as object) != stack && stack.Length == 50 && sp0 < 50
    requires Progress(cmp, s0, a[..], stack[..sp0] + [cur0]) && Deepening(stack[..sp0], cur0.depth + 1)
             && cur0.depth <= MAX_DEPTH
    modifies a, stack
    ensures sp <= 50 && Progress(cmp, s0, a[..], stack[..sp]) && Deepening(stack[..sp], MAX_DEPTH + 1)
    ensures Weight(stack[..sp]) < old(Weight(stack[..sp0])) + Length(cur0)
  {
    hide IsOrder, Progress, Deepening, Weight, ThreeWay, Sorted, Shuffle;
    var lo: nat, hi: nat, depth: nat := cur0.lo, cur0.hi, cur0.depth;
    sp := sp0;
    ghost var cur, w := cur0, Weight(stack[..sp0]) + Length(cur0);
    CurrentInside(cmp, s0, a[..], stack[..sp], cur);
    while hi - lo > 6
      invariant sp <= 50 && lo <= hi <= a.Length && cur == Pending(lo, hi, cur.depth) && depth <= MAX_DEPTH
      invariant Progress(cmp, s0, a[..], stack[..sp] + [cur]) && Deepening(stack[..sp], depth + 1)
      invariant Weight(stack[..sp]) + Length(cur) <= w
      decreases hi - lo
    {
      ghost var s, ps := a[..], stack[..sp];
      depth := depth + 1;
      if depth > 50 {
        HeapSortX(a, cmp, lo, hi - lo);
        ProgressSorted(cmp, s0, s, a[..], ps, cur);
        MoreDepth(ps, depth);
        return;
      }
      var x, y;
      ghost var v;
      x, y, v := SplitStretch(a, cmp, lo, hi);
      var below, above := Pending(lo, x, depth), Pending(y, hi, depth);
      var aside, next := if x - lo > hi - y then below else above, if x - lo > hi - y then above else below;
      ProgressSplit(cmp, s0, s, a[..], ps, cur, v, x, y, aside, next);
      DeepeningBound(ps, depth);
      DeepeningPush(ps, aside);
      WeightPush(ps, aside);
      stack[sp] := aside;
      assert stack[..sp + 1] == ps + [aside];
      sp := sp + 1;
      lo, hi, cur := next.lo, next.hi, next;
    }
    ghost var s := a[..];
    InsertionSort(a, cmp, lo, hi);
    ProgressSorted(cmp, s0, s, a[..], stack[..sp], cur);
    MoreDepth(stack[..sp], depth + 1);
  }

  lemma {:induction false} CurrentInside<T(!new)>(cmp: (T, T) -> int, s0: seq<T>, s: seq<T>, ps: seq<Pending>,
                                                  cur: Pending)
    requires Progress(cmp, s0, s, ps + [cur])
    ensures cur.lo <= cur.hi <= |s|
  {
    assert (ps + [cur])[|ps|] == cur;
  }

  lemma {:induction false} MoreDepth(ps: seq<Pending>, limit: nat)
    requires Deepening(ps, limit) && limit <= MAX_DEPTH + 1
    ensures Deepening(ps, MAX_DEPTH + 1)
  {
  }
}
