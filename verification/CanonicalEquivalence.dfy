/** Canonical equivalence: what ordering and composition leave unchanged, and which text composition leaves alone. */
module CanonicalEquivalence {
  import opened Normalize

  // ---------- equivalent orders ----------

  /** The starters and the elements of class `k`, in order: among these no element may pass another. */
  function Line(cc: int -> nat, s: seq<int>, k: nat): (t: seq<int>) {
    if s == [] then [] else (if cc(s[0]) == 0 || cc(s[0]) == k then [s[0]] else []) + Line(cc, s[1..], k)
  }

  /** Only elements of different classes, with no starter between them, have changed places. */
  ghost predicate Similar(cc: int -> nat, s: seq<int>, t: seq<int>) { forall k :: Line(cc, s, k) == Line(cc, t, k) }

  lemma {:induction false} LineConcat(cc: int -> nat, a: seq<int>, b: seq<int>, k: nat)
    ensures Line(cc, a + b, k) == Line(cc, a, k) + Line(cc, b, k)
    decreases a
  {
    hide Line;
    if a == [] {
      assert a + b == b;
      NoLine(cc, k);
    } else {
      LineConcat(cc, a[1..], b, k);
      assert (a + b)[1..] == a[1..] + b;
      LineStep(cc, a, k);
      LineStep(cc, a + b, k);
    }
  }

  lemma {:induction false} LineOne(cc: int -> nat, x: int, k: nat)
    ensures Line(cc, [x], k) == if cc(x) == 0 || cc(x) == k then [x] else []
  {
    assert [x][1..] == [] && Line(cc, [], k) == [];
  }

  lemma {:induction false} SimilarConcat(cc: int -> nat, a: seq<int>, a': seq<int>, b: seq<int>, b': seq<int>)
    requires Similar(cc, a, a') && Similar(cc, b, b')
    ensures Similar(cc, a + b, a' + b')
  {
    hide Line;
    forall k
      ensures Line(cc, a + b, k) == Line(cc, a' + b', k)
    {
      LineConcat(cc, a, b, k);
      LineConcat(cc, a', b', k);
      assert Line(cc, a, k) == Line(cc, a', k) && Line(cc, b, k) == Line(cc, b', k);
    }
  }

  lemma {:induction false} SimilarTrans(cc: int -> nat, a: seq<int>, b: seq<int>, c: seq<int>)
    requires Similar(cc, a, b) && Similar(cc, b, c)
    ensures Similar(cc, a, c)
  {
    hide Line;
    forall k
      ensures Line(cc, a, k) == Line(cc, c, k)
    {
      assert Line(cc, a, k) == Line(cc, b, k) && Line(cc, b, k) == Line(cc, c, k);
    }
  }

  lemma {:induction false} SimilarSym(cc: int -> nat, a: seq<int>, b: seq<int>)
    requires Similar(cc, a, b)
    ensures Similar(cc, b, a)
  {
    hide Line;
    forall k ensures Line(cc, b, k) == Line(cc, a, k) { assert Line(cc, a, k) == Line(cc, b, k); }
  }

  /** Without starters, a line is a class. */
  lemma {:induction false} LineOfRun(cc: int -> nat, s: seq<int>, k: nat)
    requires forall i :: 0 <= i < |s| ==> cc(s[i]) != 0
    ensures Line(cc, s, k) == OfClass(cc, s, k)
    decreases s
  {
    if s != [] {
      LineOfRun(cc, s[1..], k);
      LineOne(cc, s[0], k);
      OfClassOne(cc, s[0], k);
      OfClassConcat(cc, [s[0]], s[1..], k);
      assert s == [s[0]] + s[1..];
    }
  }

  lemma {:induction false} RunSimilar(cc: int -> nat, s: seq<int>)
    requires forall i :: 0 <= i < |s| ==> cc(s[i]) != 0
    ensures Similar(cc, SortRun(cc, s), s)
  {
    hide Line, OfClass, SortRun;
    var t := SortRun(cc, s);
    SortRunStable(cc, s);
    forall i | 0 <= i < |t|
      ensures cc(t[i]) != 0
    {
      SortRunElements(cc, s, i);
    }
    forall k
      ensures Line(cc, t, k) == Line(cc, s, k)
    {
      LineOfRun(cc, s, k);
      LineOfRun(cc, t, k);
      assert OfClass(cc, t, k) == OfClass(cc, s, k);
    }
  }

  /** Canonical ordering only exchanges what may be exchanged. */
  lemma {:induction false} ReorderSimilar(cc: int -> nat, s: seq<int>)
    ensures Similar(cc, Reorder(cc, s), s)
    decreases |s|
  {
    hide Line, SortRun, RunLength;
    if s == [] {
      assert Reorder(cc, s) == s;
    } else if cc(s[0]) == 0 {
      ReorderSimilar(cc, s[1..]);
      SimilarConcat(cc, [s[0]], [s[0]], Reorder(cc, s[1..]), s[1..]);
      assert s == [s[0]] + s[1..];
    } else {
      var n := RunLength(cc, s);
      SomeRun(cc, s);
      RunSimilar(cc, s[..n]);
      ReorderSimilar(cc, s[n..]);
      SimilarConcat(cc, SortRun(cc, s[..n]), s[..n], Reorder(cc, s[n..]), s[n..]);
      assert s == s[..n] + s[n..];
    }
  }

  lemma {:induction false} SomeRun(cc: int -> nat, s: seq<int>)
    requires s != [] && cc(s[0]) != 0
    ensures RunLength(cc, s) > 0
  {
  }

  /** In canonical order, what stands first in its line without a starter before it bounds the first class. */
  lemma {:induction false} FirstLowest(cc: int -> nat, s: seq<int>, k: nat)
    requires Canonical(cc, s) && s != [] && cc(s[0]) != 0 && Line(cc, s, k) != [] && cc(Line(cc, s, k)[0]) != 0
    ensures cc(s[0]) <= k
    decreases s
  {
    hide Line, Canonical;
    LineStep(cc, s, k);
    if cc(s[0]) != k {
      var rest := s[1..];
      NoLine(cc, k);
      LineStep(cc, rest, k);
      CanonicalRest(cc, s);
      FirstLowest(cc, rest, k);
    }
  }

  lemma {:induction false} LineStep(cc: int -> nat, s: seq<int>, k: nat)
    requires s != []
    ensures Line(cc, s, k) == (if cc(s[0]) == 0 || cc(s[0]) == k then [s[0]] else []) + Line(cc, s[1..], k)
  {
  }

  lemma {:induction false} CanonicalRest(cc: int -> nat, s: seq<int>)
    requires Canonical(cc, s) && s != []
    ensures Canonical(cc, s[1..]) && (|s| > 1 && cc(s[1]) != 0 ==> cc(s[0]) <= cc(s[1]))
  {
    forall i | 0 < i < |s[1..]| && cc(s[1..][i]) != 0
      ensures cc(s[1..][i - 1]) <= cc(s[1..][i])
    {
      assert s[1..][i] == s[i + 1] && s[1..][i - 1] == s[(i + 1) - 1];
    }
    if |s| > 1 && cc(s[1]) != 0 { assert cc(s[1 - 1]) <= cc(s[1]); }
  }

  lemma {:induction false} LineHead(cc: int -> nat, s: seq<int>, k: nat)
    requires s != [] && (cc(s[0]) == 0 || cc(s[0]) == k)
    ensures Line(cc, s, k) != [] && Line(cc, s, k)[0] == s[0]
  {
  }

  /** Equivalent sequences in canonical order begin alike. */
  lemma {:induction false} SameFirst(cc: int -> nat, s: seq<int>, t: seq<int>)
    requires Canonical(cc, s) && Canonical(cc, t) && Similar(cc, s, t) && s != []
    ensures t != [] && s[0] == t[0]
  {
    hide Line, Canonical;
    var a := cc(s[0]);
    LineHead(cc, s, a);
    assert Line(cc, s, a) == Line(cc, t, a);
    NoLine(cc, a);
    var b := cc(t[0]);
    LineHead(cc, t, b);
    assert Line(cc, s, b) == Line(cc, t, b);
    if a == 0 {
      LineHead(cc, s, b);
    } else if b == 0 {
      LineHead(cc, t, a);
    } else {
      FirstLowest(cc, s, b);
      FirstLowest(cc, t, a);
    }
  }

  lemma {:induction false} NoLine(cc: int -> nat, k: nat)
    ensures Line(cc, [], k) == []
  {
  }

  /** There is one canonical order among equivalent sequences. */
  lemma {:induction false} CanonicalUnique(cc: int -> nat, s: seq<int>, t: seq<int>)
    requires Canonical(cc, s) && Canonical(cc, t) && Similar(cc, s, t)
    ensures s == t
    decreases |s|
  {
    hide Line, Canonical;
    if s == [] {
      if t != [] {
        SimilarSym(cc, s, t);
        SameFirst(cc, t, s);
      }
    } else {
      SameFirst(cc, s, t);
      var x, s', t' := s[0], s[1..], t[1..];
      assert s == [x] + s' && t == [x] + t';
      forall k
        ensures Line(cc, s', k) == Line(cc, t', k)
      {
        LineConcat(cc, [x], s', k);
        LineConcat(cc, [x], t', k);
        LineOne(cc, x, k);
        assert Line(cc, s, k) == Line(cc, t, k);
        SameRest(Line(cc, [x], k), Line(cc, s', k), Line(cc, t', k));
      }
      CanonicalRest(cc, s);
      CanonicalRest(cc, t);
      CanonicalUnique(cc, s', t');
    }
  }

  lemma {:induction false} SameRest(a: seq<int>, b: seq<int>, c: seq<int>)
    requires a + b == a + c
    ensures b == c
  {
    assert b == (a + b)[|a|..] && c == (a + c)[|a|..];
  }

  /** Two sequences have the same canonical order if and only if they are equivalent. */
  lemma {:induction false} ReorderExact(cc: int -> nat, s: seq<int>, t: seq<int>)
    ensures Reorder(cc, s) == Reorder(cc, t) <==> Similar(cc, s, t)
  {
    hide Line, Reorder, Canonical;
    ReorderSimilar(cc, s);
    ReorderSimilar(cc, t);
    SimilarSym(cc, Reorder(cc, s), s);
    SimilarSym(cc, Reorder(cc, t), t);
    if Reorder(cc, s) == Reorder(cc, t) {
      SimilarTrans(cc, s, Reorder(cc, s), t);
    }
    if Similar(cc, s, t) {
      ReorderCanonical(cc, s);
      ReorderCanonical(cc, t);
      SimilarTrans(cc, Reorder(cc, s), s, t);
      SimilarTrans(cc, Reorder(cc, s), t, Reorder(cc, t));
      CanonicalUnique(cc, Reorder(cc, s), Reorder(cc, t));
    }
  }

  /** What is in canonical order stays as it is. */
  lemma {:induction false} ReorderIdle(cc: int -> nat, s: seq<int>)
    requires Canonical(cc, s)
    ensures Reorder(cc, s) == s
  {
    hide Line, Reorder, Canonical;
    ReorderSimilar(cc, s);
    ReorderCanonical(cc, s);
    CanonicalUnique(cc, Reorder(cc, s), s);
  }

  // ---------- what composition leaves alone ----------

  /** A starter at `p` and a later character at `j` that compose, with only marks of lower class between them. */
  ghost predicate Composable(cc: int -> nat, pair: (int, int) -> int, s: seq<int>, p: nat, j: nat)
    requires p < j < |s|
  {
    && cc(s[p]) == 0 && pair(s[p], s[j]) != 0
    && forall k :: p < k < j ==> 0 < cc(s[k]) < cc(s[j])
  }

  lemma {:induction false} StepGrows(cc: int -> nat, pair: (int, int) -> int, out: seq<int>, c: int)
    ensures var r := ComposeStep(cc, pair, out, c);
            |out| <= |r| <= |out| + 1 && (|r| == |out| + 1 ==> r == out + [c])
  {
    hide Blocked;
  }

  lemma {:induction false} ComposeShrinks(cc: int -> nat, pair: (int, int) -> int, s: seq<int>)
    ensures |Compose(cc, pair, s)| <= |s|
    ensures |Compose(cc, pair, s)| == |s| ==> Compose(cc, pair, s) == s
    decreases s
  {
    hide ComposeStep;
    if |s| > 1 {
      var init, c := s[..|s| - 1], s[|s| - 1];
      ComposeShrinks(cc, pair, init);
      StepGrows(cc, pair, Compose(cc, pair, init), c);
      assert s == init + [c];
    }
  }

  ghost predicate ComposesWithEarlier(cc: int -> nat, pair: (int, int) -> int, s: seq<int>, j: nat)
    requires j < |s|
  {
    exists p :: 0 <= p < j && Composable(cc, pair, s, p, j)
  }

  /** A starter that the last character composes with is the last starter before it, and not blocked. */
  lemma {:induction false} StarterIsLast(cc: int -> nat, pair: (int, int) -> int, out: seq<int>, c: int, p: nat)
    requires p < |out| && Composable(cc, pair, out + [c], p, |out|)
    ensures LastStarter(cc, out) == p && !Blocked(cc, out, p, cc(c)) && pair(out[p], c) != 0
  {
    var s := out + [c];
    forall k | p < k < |out|
      ensures 0 < cc(out[k]) < cc(c)
    {
      assert out[k] == s[k];
    }
    assert out[p] == s[p];
    LastStarterIs(cc, out, p);
  }

  lemma {:induction false} LastComposes(cc: int -> nat, pair: (int, int) -> int, out: seq<int>, c: int, p: nat)
    requires p < |out| && LastStarter(cc, out) == p && !Blocked(cc, out, p, cc(c)) && pair(out[p], c) != 0
    ensures Composable(cc, pair, out + [c], p, |out|)
  {
    var s := out + [c];
    forall k | p < k < |out|
      ensures 0 < cc(s[k]) < cc(s[|out|])
    {
      assert out[k] == s[k];
    }
  }

  /** The next character is joined exactly if it is composable with a starter before it. */
  lemma {:induction false} StepJoins(cc: int -> nat, pair: (int, int) -> int, out: seq<int>, c: int)
    ensures ComposeStep(cc, pair, out, c) == out + [c] <==> !ComposesWithEarlier(cc, pair, out + [c], |out|)
  {
    hide Blocked, Composable, LastStarter;
    var p := LastStarter(cc, out);
    if p >= 0 && !Blocked(cc, out, p, cc(c)) && pair(out[p], c) != 0 { LastComposes(cc, pair, out, c, p); }
    if ComposesWithEarlier(cc, pair, out + [c], |out|) {
      var q :| 0 <= q < |out| && Composable(cc, pair, out + [c], q, |out|);
      StarterIsLast(cc, pair, out, c, q);
    }
  }

  lemma {:induction false} ComposableIn(cc: int -> nat, pair: (int, int) -> int, s: seq<int>, n: nat, p: nat, j: nat)
    requires p < j < n <= |s|
    ensures Composable(cc, pair, s[..n], p, j) <==> Composable(cc, pair, s, p, j)
  {
    var t := s[..n];
    assert t[p] == s[p] && t[j] == s[j] && forall k :: p < k < j ==> t[k] == s[k];
  }

  /** Composition changes nothing if and only if no starter has a later character that it composes with and that is not
      blocked from it by a starter or a mark of the same or a higher class. */
  lemma {:induction false} ComposeFixed(cc: int -> nat, pair: (int, int) -> int, s: seq<int>)
    ensures Compose(cc, pair, s) == s
            <==> forall p, j :: 0 <= p < j < |s| ==> !Composable(cc, pair, s, p, j)
    decreases s
  {
    hide ComposeStep, Composable;
    if |s| > 1 {
      var init, c := s[..|s| - 1], s[|s| - 1];
      ComposeFixed(cc, pair, init);
      ComposeShrinks(cc, pair, init);
      StepGrows(cc, pair, Compose(cc, pair, init), c);
      StepJoins(cc, pair, init, c);
      assert s == init + [c];
      forall p, j | 0 <= p < j < |init|
        ensures Composable(cc, pair, init, p, j) <==> Composable(cc, pair, s, p, j)
      {
        ComposableIn(cc, pair, s, |s| - 1, p, j);
      }
      if Compose(cc, pair, s) == s { assert Compose(cc, pair, init) == init; }
    }
  }

  // ---------- decomposition ----------

  /** A character is whole, or stands for two others. */
  datatype Decomposition = Whole | Two(first: int, second: int)

  /** Decomposing ends: the parts are simpler. */
  ghost predicate Falls(dec: int -> Decomposition, rank: int -> nat) { forall c :: FallsAt(dec, rank, c) }

  ghost predicate FallsAt(dec: int -> Decomposition, rank: int -> nat, c: int) {
    dec(c).Two? ==> rank(dec(c).first) < rank(c) && rank(dec(c).second) < rank(c)
  }

  /** What composing makes of two characters decomposes into them. */
  ghost predicate Inverts(dec: int -> Decomposition, pair: (int, int) -> int) {
    forall x, y :: InvertsAt(dec, pair, x, y)
  }

  ghost predicate InvertsAt(dec: int -> Decomposition, pair: (int, int) -> int, x: int, y: int) {
    pair(x, y) != 0 ==> dec(pair(x, y)) == Two(x, y)
  }

  /** The full decomposition of a character. */
  ghost function Parts(dec: int -> Decomposition, rank: int -> nat, c: int): (t: seq<int>)
    requires Falls(dec, rank)
    decreases rank(c)
  {
    assert FallsAt(dec, rank, c);
    match dec(c)
    case Whole => [c]
    case Two(x, y) => Parts(dec, rank, x) + Parts(dec, rank, y)
  }

  /** Fully decomposed text, not yet in canonical order. */
  ghost function Decompose(dec: int -> Decomposition, rank: int -> nat, s: seq<int>): (t: seq<int>)
    requires Falls(dec, rank)
  {
    if s == [] then [] else Parts(dec, rank, s[0]) + Decompose(dec, rank, s[1..])
  }

  ghost predicate AllWhole(dec: int -> Decomposition, s: seq<int>) { forall i :: 0 <= i < |s| ==> dec(s[i]).Whole? }

  lemma {:induction false} DecomposeConcat(dec: int -> Decomposition, rank: int -> nat, a: seq<int>, b: seq<int>)
    requires Falls(dec, rank)
    ensures Decompose(dec, rank, a + b) == Decompose(dec, rank, a) + Decompose(dec, rank, b)
    decreases a
  {
    hide Parts, Falls;
    if a == [] {
      assert a + b == b;
    } else {
      DecomposeConcat(dec, rank, a[1..], b);
      assert (a + b)[1..] == a[1..] + b;
    }
  }

  lemma {:induction false} DecomposeWhole(dec: int -> Decomposition, rank: int -> nat, s: seq<int>)
    requires Falls(dec, rank) && AllWhole(dec, s)
    ensures Decompose(dec, rank, s) == s
    decreases s
  {
    hide Falls;
    if s != [] {
      DecomposeWhole(dec, rank, s[1..]);
      assert s == [s[0]] + s[1..];
    }
  }

  lemma {:induction false} DecomposeOne(dec: int -> Decomposition, rank: int -> nat, c: int)
    requires Falls(dec, rank)
    ensures Decompose(dec, rank, [c]) == Parts(dec, rank, c)
  {
    hide Parts, Falls;
    assert [c][1..] == [] && Decompose(dec, rank, []) == [];
  }

  // ---------- composition keeps equivalence ----------

  /** A mark moves past marks of lower class. */
  lemma {:induction false} MarkPasses(cc: int -> nat, m: seq<int>, c: int)
    requires forall i :: 0 <= i < |m| ==> 0 < cc(m[i]) < cc(c)
    ensures Similar(cc, [c] + m, m + [c])
  {
    hide Line;
    forall k
      ensures Line(cc, [c] + m, k) == Line(cc, m + [c], k)
    {
      LineConcat(cc, [c], m, k);
      LineConcat(cc, m, [c], k);
      LineOne(cc, c, k);
      if m == [] {
        NoLine(cc, k);
      } else if k == cc(c) {
        NoneInLine(cc, m, k);
      } else {
        assert 0 < cc(m[0]) < cc(c);
        assert Line(cc, [c], k) == [];
      }
    }
  }

  lemma {:induction false} NoneInLine(cc: int -> nat, m: seq<int>, k: nat)
    requires forall i :: 0 <= i < |m| ==> 0 < cc(m[i]) < k
    ensures Line(cc, m, k) == []
    decreases m
  {
    if m != [] { NoneInLine(cc, m[1..], k); }
  }

  /** Marks in the output are as they came in. */
  ghost predicate MarksWhole(cc: int -> nat, dec: int -> Decomposition, out: seq<int>) {
    forall i :: 0 <= i < |out| ==> cc(out[i]) != 0 ==> dec(out[i]).Whole?
  }

  lemma {:induction false} StepEquivalent(cc: int -> nat, pair: (int, int) -> int, dec: int -> Decomposition,
                                          rank: int -> nat, out: seq<int>, c: int)
    requires Falls(dec, rank) && Inverts(dec, pair) && ComposesToStarters(cc, pair)
    requires MarksWhole(cc, dec, out) && dec(c).Whole?
    ensures var r := ComposeStep(cc, pair, out, c);
            MarksWhole(cc, dec, r) && Similar(cc, Decompose(dec, rank, r), Decompose(dec, rank, out) + [c])
  {
    hide Line, Falls, Inverts, ComposesToStarters, Decompose, Parts;
    var p := LastStarter(cc, out);
    DecomposeOne(dec, rank, c);
    WholeParts(dec, rank, c);
    if p >= 0 && !Blocked(cc, out, p, cc(c)) && pair(out[p], c) != 0 {
      var a, x, m, z := out[..p], out[p], out[p + 1..], pair(out[p], c);
      assert out == a + [x] + m && out[p := z] == a + [z] + m;
      assert StarterPair(cc, pair, x, c) by { AsStarter(cc, pair, x, c); }
      forall i | 0 <= i < |m|
        ensures 0 < cc(m[i]) < cc(c) && dec(m[i]).Whole?
      {
        assert m[i] == out[p + 1 + i];
      }
      MarkPasses(cc, m, c);
      JoinedParts(dec, rank, pair, x, c);
      DecomposeWhole(dec, rank, m);
      Joined(cc, dec, rank, a, x, m, z, c);
    } else {
      DecomposeConcat(dec, rank, out, [c]);
      SimilarRefl(cc, Decompose(dec, rank, out + [c]));
    }
  }

  lemma {:induction false} AsStarter(cc: int -> nat, pair: (int, int) -> int, x: int, y: int)
    requires ComposesToStarters(cc, pair)
    ensures StarterPair(cc, pair, x, y)
  {
  }

  lemma {:induction false} SimilarRefl(cc: int -> nat, s: seq<int>)
    ensures Similar(cc, s, s)
  {
  }

  lemma {:induction false} WholeParts(dec: int -> Decomposition, rank: int -> nat, c: int)
    requires Falls(dec, rank) && dec(c).Whole?
    ensures Parts(dec, rank, c) == [c]
  {
  }

  lemma {:induction false} JoinedParts(dec: int -> Decomposition, rank: int -> nat, pair: (int, int) -> int, x: int,
                                       y: int)
    requires Falls(dec, rank) && Inverts(dec, pair) && pair(x, y) != 0 && dec(y).Whole?
    ensures Parts(dec, rank, pair(x, y)) == Parts(dec, rank, x) + [y]
  {
    assert InvertsAt(dec, pair, x, y);
    WholeParts(dec, rank, y);
  }

  /** The starter joined with the mark, taken apart again: the mark goes back behind the marks between. */
  lemma {:induction false} Joined(cc: int -> nat, dec: int -> Decomposition, rank: int -> nat, a: seq<int>, x: int,
                                  m: seq<int>, z: int, c: int)
    requires Falls(dec, rank) && Parts(dec, rank, z) == Parts(dec, rank, x) + [c] && Decompose(dec, rank, m) == m
    requires Similar(cc, [c] + m, m + [c])
    ensures Similar(cc, Decompose(dec, rank, a + [z] + m), Decompose(dec, rank, a + [x] + m) + [c])
  {
    hide Line, Falls, Decompose, Parts, Similar;
    DecomposeConcat(dec, rank, a + [z], m);
    DecomposeConcat(dec, rank, a, [z]);
    DecomposeConcat(dec, rank, a + [x], m);
    DecomposeConcat(dec, rank, a, [x]);
    DecomposeOne(dec, rank, z);
    DecomposeOne(dec, rank, x);
    var front := Decompose(dec, rank, a) + Parts(dec, rank, x);
    assert Decompose(dec, rank, a + [z] + m) == front + ([c] + m);
    assert Decompose(dec, rank, a + [x] + m) + [c] == front + (m + [c]);
    SimilarRefl(cc, front);
    SimilarConcat(cc, front, front, [c] + m, m + [c]);
  }

  lemma {:induction false} ComposeSimilar(cc: int -> nat, pair: (int, int) -> int, dec: int -> Decomposition,
                                          rank: int -> nat, s: seq<int>)
    requires Falls(dec, rank) && Inverts(dec, pair) && ComposesToStarters(cc, pair) && AllWhole(dec, s)
    ensures MarksWhole(cc, dec, Compose(cc, pair, s)) && Similar(cc, Decompose(dec, rank, Compose(cc, pair, s)), s)
    decreases s
  {
    hide Line, Falls, Inverts, ComposesToStarters, Decompose, ComposeStep, Similar;
    if |s| <= 1 {
      DecomposeWhole(dec, rank, s);
      SimilarRefl(cc, s);
    } else {
      var init, c := s[..|s| - 1], s[|s| - 1];
      assert s == init + [c];
      ComposeSimilar(cc, pair, dec, rank, init);
      var out := Compose(cc, pair, init);
      StepEquivalent(cc, pair, dec, rank, out, c);
      SimilarRefl(cc, [c]);
      SimilarConcat(cc, Decompose(dec, rank, out), init, [c], [c]);
      SimilarTrans(cc, Decompose(dec, rank, Compose(cc, pair, s)), Decompose(dec, rank, out) + [c], s);
    }
  }

  /** Composing keeps canonical equivalence: decomposing the result fully and ordering it again gives back the
      decomposed and ordered text. */
  lemma {:induction false} ComposeEquivalent(cc: int -> nat, pair: (int, int) -> int, dec: int -> Decomposition,
                                             rank: int -> nat, s: seq<int>)
    requires Falls(dec, rank) && Inverts(dec, pair) && ComposesToStarters(cc, pair)
    requires AllWhole(dec, s) && Canonical(cc, s)
    ensures Reorder(cc, Decompose(dec, rank, Compose(cc, pair, s))) == s
  {
    hide Line, Falls, Inverts, ComposesToStarters, Decompose, Compose, Similar, Reorder, Canonical;
    ComposeSimilar(cc, pair, dec, rank, s);
    ReorderExact(cc, Decompose(dec, rank, Compose(cc, pair, s)), s);
    ReorderIdle(cc, s);
  }

  /** The same for text that is decomposed but not yet ordered: the two normal forms of a text determine each other. */
  lemma {:induction false} NormalFormsAgree(cc: int -> nat, pair: (int, int) -> int, dec: int -> Decomposition,
                                            rank: int -> nat, s: seq<int>)
    requires Falls(dec, rank) && Inverts(dec, pair) && ComposesToStarters(cc, pair) && AllWhole(dec, s)
    ensures Reorder(cc, Decompose(dec, rank, Compose(cc, pair, Reorder(cc, s)))) == Reorder(cc, s)
  {
    hide Line, Falls, Inverts, ComposesToStarters, Decompose, Compose, Similar, Reorder, Canonical;
    ReorderCanonical(cc, s);
    forall i | 0 <= i < |s|
      ensures dec(Reorder(cc, s)[i]).Whole?
    {
      ReorderElements(cc, s, i);
    }
    ComposeEquivalent(cc, pair, dec, rank, Reorder(cc, s));
  }

  lemma {:induction false} ReorderElements(cc: int -> nat, s: seq<int>, i: nat)
    requires i < |s|
    ensures Reorder(cc, s)[i] in s
    decreases |s|
  {
    hide SortRun;
    if cc(s[0]) == 0 {
      if i > 0 { ReorderElements(cc, s[1..], i - 1); }
    } else {
      var n := RunLength(cc, s);
      if i < n { SortRunElements(cc, s[..n], i); } else { ReorderElements(cc, s[n..], i - n); }
    }
  }
}
