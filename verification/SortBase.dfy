/** Sorting in place: total preorders, rearrangements of a stretch of an array, exchanges. */
module SortBase {

  // ---------- the order ----------

  /** A comparison function that orders all elements, with ties. */
  ghost predicate IsOrder<T(!new)>(cmp: (T, T) -> int) {
    && (forall x, y :: cmp(x, y) < 0 <==> cmp(y, x) > 0)
    && (forall x, y, z :: cmp(x, y) <= 0 && cmp(y, z) <= 0 ==> cmp(x, z) <= 0)
  }

  lemma {:induction false} Flip<T(!new)>(cmp: (T, T) -> int, x: T, y: T)
    requires IsOrder(cmp)
    ensures cmp(x, y) < 0 <==> cmp(y, x) > 0
    ensures cmp(x, y) == 0 <==> cmp(y, x) == 0
    ensures cmp(x, y) <= 0 <==> cmp(y, x) >= 0
  {
  }

  lemma {:induction false} Trans<T(!new)>(cmp: (T, T) -> int, x: T, y: T, z: T)
    requires IsOrder(cmp) && cmp(x, y) <= 0 && cmp(y, z) <= 0
    ensures cmp(x, z) <= 0
  {
  }

  lemma {:induction false} Reflexive<T(!new)>(cmp: (T, T) -> int, x: T)
    requires IsOrder(cmp)
    ensures cmp(x, x) == 0
  {
  }

  ghost predicate Sorted<T(!new)>(cmp: (T, T) -> int, s: seq<T>, lo: nat, hi: nat)
    requires lo <= hi <= |s|
  {
    forall i, j :: lo <= i < j < hi ==> cmp(s[i], s[j]) <= 0
  }

  // ---------- rearrangements ----------

  /** `t` is `s` with the elements between `lo` and `hi` rearranged. */
  ghost predicate Shuffle<T>(s: seq<T>, t: seq<T>, lo: nat, hi: nat) {
    && |s| == |t| && lo <= hi <= |s|
    && s[..lo] == t[..lo] && s[hi..] == t[hi..] && multiset(s[lo..hi]) == multiset(t[lo..hi])
  }

  lemma {:induction false} ShuffleRefl<T>(s: seq<T>, lo: nat, hi: nat)
    requires lo <= hi <= |s|
    ensures Shuffle(s, s, lo, hi)
  {
  }

  lemma {:induction false} ShuffleTrans<T>(s: seq<T>, t: seq<T>, u: seq<T>, lo: nat, hi: nat)
    requires Shuffle(s, t, lo, hi) && Shuffle(t, u, lo, hi)
    ensures Shuffle(s, u, lo, hi)
  {
  }

  /** Elements outside stay. */
  lemma {:induction false} ShuffleOutside<T>(s: seq<T>, t: seq<T>, lo: nat, hi: nat, k: nat)
    requires Shuffle(s, t, lo, hi) && k < |s| && (k < lo || hi <= k)
    ensures t[k] == s[k]
  {
    if k < lo {
      assert s[..lo][k] == t[..lo][k];
    } else {
      assert s[hi..][k - hi] == t[hi..][k - hi];
    }
  }

  /** An element inside comes from inside. */
  lemma {:induction false} ShuffleSource<T>(s: seq<T>, t: seq<T>, lo: nat, hi: nat, k: nat) returns (j: nat)
    requires Shuffle(s, t, lo, hi) && lo <= k < hi
    ensures lo <= j < hi && t[k] == s[j]
  {
    assert t[lo..hi][k - lo] == t[k];
    assert t[k] in multiset(s[lo..hi]);
    var i :| 0 <= i < |s[lo..hi]| && s[lo..hi][i] == t[k];
    j := lo + i;
  }

  /** A rearrangement of a part is a rearrangement of the whole. */
  lemma {:induction false} ShuffleWiden<T>(s: seq<T>, t: seq<T>, lo: nat, hi: nat, lo': nat, hi': nat)
    requires Shuffle(s, t, lo, hi) && lo' <= lo && hi <= hi' <= |s|
    ensures Shuffle(s, t, lo', hi')
  {
    assert s[..lo'] == s[..lo][..lo'] && t[..lo'] == t[..lo][..lo'];
    assert s[hi'..] == s[hi..][hi' - hi..] && t[hi'..] == t[hi..][hi' - hi..];
    var a, c := s[lo'..lo], s[hi..hi'];
    assert a == s[..lo][lo'..] == t[..lo][lo'..] == t[lo'..lo];
    assert c == s[hi..][..hi' - hi] == t[hi..][..hi' - hi] == t[hi..hi'];
    assert s[lo'..hi'] == a + s[lo..hi] + c;
    assert t[lo'..hi'] == a + t[lo..hi] + c;
  }

  ghost function Exchanged<T>(s: seq<T>, i: nat, j: nat): (t: seq<T>)
    requires i < |s| && j < |s|
    ensures |t| == |s|
  {
    s[i := s[j]][j := s[i]]
  }

  lemma {:induction false} ExchangeShuffles<T>(s: seq<T>, i: nat, j: nat, lo: nat, hi: nat)
    requires lo <= i < hi <= |s| && lo <= j < hi
    ensures Shuffle(s, Exchanged(s, i, j), lo, hi)
  {
    var t := Exchanged(s, i, j);
    var u, v := s[lo..hi], t[lo..hi];
    assert v == u[i - lo := u[j - lo]][j - lo := u[i - lo]];
    assert multiset(v) == multiset(u) by { MultisetExchange(u, i - lo, j - lo); }
  }

  lemma {:induction false} MultisetExchange<T>(u: seq<T>, i: nat, j: nat)
    requires i < |u| && j < |u|
    ensures multiset(u[i := u[j]][j := u[i]]) == multiset(u)
  {
  }

  method Swap<T>(a: array<T>, i: nat, j: nat)
    requires i < a.Length && j < a.Length
    modifies a
    ensures a[..] == Exchanged(old(a[..]), i, j)
  {
    a[i], a[j] := a[j], a[i];
  }
}
