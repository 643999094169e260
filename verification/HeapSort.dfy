/** The heapsort that takes over when a quicksort recursion gets too deep. */
module HeapSort {
  import opened SortBase

  function Parent(c: nat): (p: nat)
    requires c >= 1
    ensures p < c && (c == 2 * p + 1 || c == 2 * p + 2)
  {
    (c - 1) / 2
  }

  /** Entry `c` of the heap at `b` is not above its parent. */
  ghost predicate PairOk<T(!new)>(cmp: (T, T) -> int, s: seq<T>, b: nat, c: nat)
    requires 1 <= c && b + c < |s|
  {
    cmp(s[b + Parent(c)], s[b + c]) >= 0
  }

  /** The heap property below the entries from `i` on. */
  ghost predicate HeapFrom<T(!new)>(cmp: (T, T) -> int, s: seq<T>, b: nat, n: nat, i: nat)
    requires b + n <= |s|
  {
    forall c :: 1 <= c < n && Parent(c) >= i ==> PairOk(cmp, s, b, c)
  }

  /** The same with a hole at `r`, whose children are not above its parent. */
  ghost predicate HeapExcept<T(!new)>(cmp: (T, T) -> int, s: seq<T>, b: nat, n: nat, i: nat, r: nat)
    requires b + n <= |s|
  {
    && (forall c :: 1 <= c < n && Parent(c) >= i && Parent(c) != r ==> PairOk(cmp, s, b, c))
    && (r > i ==> forall c :: 1 <= c < n && Parent(c) == r ==> GrandOk(cmp, s, b, c))
  }

  ghost predicate GrandOk<T(!new)>(cmp: (T, T) -> int, s: seq<T>, b: nat, c: nat)
    requires 1 <= c && b + c < |s|
  {
    Parent(c) >= 1 && cmp(s[b + Parent(Parent(c))], s[b + c]) >= 0
  }

  /** The child of `r` that is not below the other. */
  ghost predicate LargerChild<T(!new)>(cmp: (T, T) -> int, s: seq<T>, b: nat, n: nat, r: nat, c: nat)
    requires b + n <= |s|
  {
    && 1 <= c < n && Parent(c) == r
    && forall d :: 1 <= d < n && Parent(d) == r ==> NotBelow(cmp, s, b, c, d)
  }

  ghost predicate NotBelow<T(!new)>(cmp: (T, T) -> int, s: seq<T>, b: nat, c: nat, d: nat)
    requires b + c < |s| && b + d < |s|
  {
    cmp(s[b + c], s[b + d]) >= 0
  }

  lemma {:induction false} ChooseChild<T(!new)>(cmp: (T, T) -> int, s: seq<T>, b: nat, n: nat, r: nat, c: nat)
    requires IsOrder(cmp) && b + n <= |s| && 2 * r + 1 < n
    requires c == if 2 * r + 1 < n - 1 && cmp(s[b + 2 * r + 1], s[b + 2 * r + 2]) <= 0 then 2 * r + 2 else 2 * r + 1
    ensures LargerChild(cmp, s, b, n, r, c)
  {
    hide IsOrder;
    forall d | 1 <= d < n && Parent(d) == r
      ensures NotBelow(cmp, s, b, c, d)
    {
      Flip(cmp, s[b + c], s[b + d]);
      Reflexive(cmp, s[b + c]);
    }
  }

  /** The hole is filled: its entry is above both children. */
  lemma {:induction false} HoleFilled<T(!new)>(cmp: (T, T) -> int, s: seq<T>, b: nat, n: nat, i: nat, r: nat, c: nat)
    requires IsOrder(cmp) && b + n <= |s| && HeapExcept(cmp, s, b, n, i, r) && LargerChild(cmp, s, b, n, r, c)
             && cmp(s[b + r], s[b + c]) > 0
    ensures HeapFrom(cmp, s, b, n, i)
  {
    hide IsOrder;
    forall d | 1 <= d < n && Parent(d) >= i
      ensures PairOk(cmp, s, b, d)
    {
      if Parent(d) == r {
        assert NotBelow(cmp, s, b, c, d);
        Flip(cmp, s[b + r], s[b + c]);
        Flip(cmp, s[b + c], s[b + d]);
        Trans(cmp, s[b + d], s[b + c], s[b + r]);
        Flip(cmp, s[b + d], s[b + r]);
      }
    }
  }

  /** The larger child moves up and leaves the hole where it was. */
  lemma {:induction false} HoleMoves<T(!new)>(cmp: (T, T) -> int, s: seq<T>, t: seq<T>, b: nat, n: nat, i: nat, r: nat,
                                              c: nat)
    requires IsOrder(cmp) && b + n <= |s| && i <= r && HeapExcept(cmp, s, b, n, i, r) && LargerChild(cmp, s, b, n, r, c)
    requires cmp(s[b + r], s[b + c]) <= 0 && t == Exchanged(s, b + r, b + c)
    ensures HeapExcept(cmp, t, b, n, i, c)
  {
    hide IsOrder;
    assert t[b + r] == s[b + c] && t[b + c] == s[b + r];
    Flip(cmp, s[b + r], s[b + c]);
    forall d | 1 <= d < n && Parent(d) >= i && Parent(d) != c
      ensures PairOk(cmp, t, b, d)
    {
      if Parent(d) == r {
        assert NotBelow(cmp, s, b, c, d);
      } else if d == r {
        assert GrandOk(cmp, s, b, c);
      } else {
        assert PairOk(cmp, s, b, d);
      }
    }
    forall d | 1 <= d < n && Parent(d) == c
      ensures GrandOk(cmp, t, b, d)
    {
      assert PairOk(cmp, s, b, d);
    }
  }

  method PickChild<T(!new)>(a: array<T>, cmp: (T, T) -> int, b: nat, n: nat, r: nat) returns (c: nat)
    requires IsOrder(cmp) && b + n <= a.Length && 2 * r + 1 < n
    ensures r < c < n && LargerChild(cmp, a[..], b, n, r, c)
  {
    hide IsOrder, LargerChild;
    c := 2 * r + 1;
    if c < n - 1 && cmp(a[b + c], a[b + c + 1]) <= 0 { c := c + 1; }
    ChooseChild(cmp, a[..], b, n, r, c);
  }

  /** Lets the entry at `i` sink to its place in the heap of `n` entries at `b`. */
  method SiftDown<T(!new)>(a: array<T>, cmp: (T, T) -> int, b: nat, n: nat, i: nat)
    requires IsOrder(cmp) && b + n <= a.Length && i < n && HeapFrom(cmp, a[..], b, n, i + 1)
    modifies a
    ensures HeapFrom(cmp, a[..], b, n, i) && Shuffle(old(a[..]), a[..], b, b + n)
  {
    hide IsOrder, Shuffle, Exchanged;
    var r := i;
    ghost var s0 := a[..];
    ShuffleRefl(s0, b, b + n);
    while 2 * r + 1 < n
      invariant i <= r < n && HeapExcept(cmp, a[..], b, n, i, r) && Shuffle(s0, a[..], b, b + n)
      decreases n - r
    {
      hide HeapExcept, HeapFrom, LargerChild, GrandOk, PairOk;
      var c := PickChild(a, cmp, b, n, r);
      ghost var s := a[..];
      if cmp(a[b + r], a[b + c]) > 0 {
        HoleFilled(cmp, s, b, n, i, r, c);
        return;
      }
      Swap(a, b + r, b + c);
      HoleMoves(cmp, s, a[..], b, n, i, r, c);
      ExchangeShuffles(s, b + r, b + c, b, b + n);
      ShuffleTrans(s0, s, a[..], b, b + n);
      r := c;
    }
  }

  /** The root is not below any entry. */
  lemma {:induction false} HeapRoot<T(!new)>(cmp: (T, T) -> int, s: seq<T>, b: nat, n: nat, k: nat)
    requires IsOrder(cmp) && b + n <= |s| && HeapFrom(cmp, s, b, n, 0) && k < n
    ensures cmp(s[b + k], s[b]) <= 0
    decreases k
  {
    hide IsOrder;
    if k == 0 {
      Reflexive(cmp, s[b]);
    } else {
      HeapRoot(cmp, s, b, n, Parent(k));
      assert PairOk(cmp, s, b, k);
      Flip(cmp, s[b + k], s[b + Parent(k)]);
      Trans(cmp, s[b + k], s[b + Parent(k)], s[b]);
    }
  }

  /** The entries from `i` on are sorted, and none below is above them. */
  ghost predicate TailDone<T(!new)>(cmp: (T, T) -> int, s: seq<T>, b: nat, i: nat, n: nat)
    requires b + n <= |s|
  {
    forall j, k :: 0 <= j < k && i <= k < n ==> NotBelow(cmp, s, b, k, j)
  }

  /** Moving the root behind the heap. */
  lemma {:induction false} RootOut<T(!new)>(cmp: (T, T) -> int, s: seq<T>, t: seq<T>, b: nat, i: nat, n: nat)
    requires IsOrder(cmp) && 1 <= i < n && b + n <= |s| && HeapFrom(cmp, s, b, i + 1, 0)
             && TailDone(cmp, s, b, i + 1, n)
    requires t == Exchanged(s, b, b + i)
    ensures HeapFrom(cmp, t, b, i, 1) && TailDone(cmp, t, b, i, n)
  {
    hide IsOrder;
    forall c | 1 <= c < i && Parent(c) >= 1
      ensures PairOk(cmp, t, b, c)
    {
      assert PairOk(cmp, s, b, c);
    }
    forall j, k | 0 <= j < k && i <= k < n
      ensures NotBelow(cmp, t, b, k, j)
    {
      var j' := if j == 0 then i else if j == i then 0 else j;
      assert t[b + j] == s[b + j'];
      if k == i {
        HeapRoot(cmp, s, b, i + 1, j');
        Flip(cmp, s[b + j'], s[b]);
      } else {
        assert NotBelow(cmp, s, b, k, j');
      }
    }
  }

  /** Rearranging the heap keeps the tail. */
  lemma {:induction false} TailKept<T(!new)>(cmp: (T, T) -> int, s: seq<T>, t: seq<T>, b: nat, i: nat, n: nat)
    requires i <= n && b + n <= |s| && TailDone(cmp, s, b, i, n) && Shuffle(s, t, b, b + i)
    ensures TailDone(cmp, t, b, i, n)
  {
    hide Shuffle;
    ShuffleLength(s, t, b, b + i);
    forall j, k | 0 <= j < k && i <= k < n
      ensures NotBelow(cmp, t, b, k, j)
    {
      ShuffleOutside(s, t, b, b + i, b + k);
      if j < i {
        var j' := ShuffleSource(s, t, b, b + i, b + j);
        assert NotBelow(cmp, s, b, k, j' - b);
      } else {
        ShuffleOutside(s, t, b, b + i, b + j);
        assert NotBelow(cmp, s, b, k, j);
      }
    }
  }

  lemma {:induction false} ShuffleLength<T>(s: seq<T>, t: seq<T>, lo: nat, hi: nat)
    requires Shuffle(s, t, lo, hi)
    ensures |s| == |t| && lo <= hi <= |s|
  {
  }

  method BuildHeap<T(!new)>(a: array<T>, cmp: (T, T) -> int, b: nat, n: nat)
    requires IsOrder(cmp) && b + n <= a.Length
    modifies a
    ensures HeapFrom(cmp, a[..], b, n, 0) && Shuffle(old(a[..]), a[..], b, b + n)
  {
    hide IsOrder, Shuffle, Exchanged;
    ghost var s0 := a[..];
    ShuffleRefl(s0, b, b + n);
    var i: nat := n / 2;
    while i > 0
      invariant i <= n / 2 && HeapFrom(cmp, a[..], b, n, i) && Shuffle(s0, a[..], b, b + n)
    {
      hide HeapFrom;
      i := i - 1;
      ghost var s := a[..];
      SiftDown(a, cmp, b, n, i);
      ShuffleTrans(s0, s, a[..], b, b + n);
    }
  }

  /** Moves the root behind the heap and restores the heap. */
  method ExtractRoot<T(!new)>(a: array<T>, cmp: (T, T) -> int, b: nat, i: nat, n: nat)
    requires IsOrder(cmp) && 1 <= i < n && b + n <= a.Length && HeapFrom(cmp, a[..], b, i + 1, 0)
             && TailDone(cmp, a[..], b, i + 1, n)
    modifies a
    ensures HeapFrom(cmp, a[..], b, i, 0) && TailDone(cmp, a[..], b, i, n) && Shuffle(old(a[..]), a[..], b, b + n)
  {
    hide IsOrder, Shuffle, Exchanged, HeapFrom, TailDone;
    ghost var s := a[..];
    Swap(a, b, b + i);
    ghost var s1 := a[..];
    RootOut(cmp, s, s1, b, i, n);
    ExchangeShuffles(s, b, b + i, b, b + n);
    SiftDown(a, cmp, b, i, 0);
    TailKept(cmp, s1, a[..], b, i, n);
    ShuffleWiden(s1, a[..], b, b + i, b, b + n);
    ShuffleTrans(s, s1, a[..], b, b + n);
  }

  /** Sorts the `n` entries at `b`. */
  method HeapSortX<T(!new)>(a: array<T>, cmp: (T, T) -> int, b: nat, n: nat)
    requires IsOrder(cmp) && b + n <= a.Length
    modifies a
    ensures Sorted(cmp, a[..], b, b + n) && Shuffle(old(a[..]), a[..], b, b + n)
  {
    hide IsOrder, Shuffle, HeapFrom;
    ghost var s0 := a[..];
    ShuffleRefl(s0, b, b + n);
    if n > 1 {
      BuildHeap(a, cmp, b, n);
      var i: nat := n - 1;
      while i > 0
        invariant i < n && HeapFrom(cmp, a[..], b, i + 1, 0) && TailDone(cmp, a[..], b, i + 1, n)
                  && Shuffle(s0, a[..], b, b + n)
      {
        hide TailDone;
        ghost var s := a[..];
        ExtractRoot(a, cmp, b, i, n);
        ShuffleTrans(s0, s, a[..], b, b + n);
        i := i - 1;
      }
      TailSorted(cmp, a[..], b, n);
    }
  }

  lemma {:induction false} TailSorted<T(!new)>(cmp: (T, T) -> int, s: seq<T>, b: nat, n: nat)
    requires IsOrder(cmp) && b + n <= |s| && TailDone(cmp, s, b, 1, n)
    ensures Sorted(cmp, s, b, b + n)
  {
    hide IsOrder;
    forall i, j | b <= i < j < b + n
      ensures cmp(s[i], s[j]) <= 0
    {
      assert NotBelow(cmp, s, b, j - b, i - b);
      Flip(cmp, s[i], s[j]);
    }
  }
}
