/** What single instructions mean, in terms of the text's code units and of the captures: characters, assertions, back
    references and resets. */
module RegexpMeaning {
  import opened RegexpCode
  import opened RegexpText
  import opened RegexpSyntax

  // ---------- characters ----------

  /** A high and a low surrogate, as the code point they encode. */
  function Joined(high: nat, low: nat): (c: int) { 0x1_0000 + (high - 0xd800) * 0x400 + (low - 0xdc00) }

  predicate Paired(t: Text, pos: nat) {
    t.utf16 && pos + 1 < |t.units| && 0xd800 <= t.units[pos] <= 0xdbff && 0xdc00 <= t.units[pos + 1] <= 0xdfff
  }

  /** The character at a position, inside a stretch that ends at `limit`, and the one before, inside one that begins at
      `start`. */
  lemma {:induction false} CharAt(t: Text, pos: nat, start: nat, limit: nat)
    requires limit <= |t.units|
    ensures pos < limit ==>
              GetChar(t, pos, limit)
              == if pos + 1 < limit && Paired(t, pos) then (Joined(t.units[pos], t.units[pos + 1]), pos + 2)
                 else (t.units[pos], pos + 1)
    ensures start < pos <= |t.units| ==>
              GetPrevChar(t, pos, start)
              == if start + 1 < pos && Paired(t, pos - 2) then (Joined(t.units[pos - 2], t.units[pos - 1]), pos - 2)
                 else (t.units[pos - 1], pos - 1)
  {
  }

  /** What an instruction for a single character takes. */
  predicate Takes(t: Text, p: Prim, c: nat) {
    match p
    case Char(d) => (if t.ignoreCase then t.canon(c) else c) == d
    case Char32(d) => (if t.ignoreCase then t.canon(c) else c) == d
    case Dot => c != 0x0a && c != 0x0d && c != 0x2028 && c != 0x2029
    case Any => true
    case _ => false
  }

  /** Reading forward: the next character, if it is taken. */
  lemma {:induction false} OneForward(t: Text, p: Prim, base: nat, s: Place)
    requires p.Char? || p.Char32? || p.Dot? || p.Any?
    ensures Results(t, One(p), false, base, s)
            == if s.pos < |t.units| && Takes(t, p, GetChar(t, s.pos, |t.units|).0)
               then [s.(pos := GetChar(t, s.pos, |t.units|).1)] else []
  {
    hide GetChar;
    OneThrough(t, p, s);
  }

  /** Reading backward: the character before, if it is taken. */
  lemma {:induction false} OneBackward(t: Text, p: Prim, base: nat, s: Place)
    requires (p.Char? || p.Char32? || p.Dot? || p.Any?) && Boundary(t, s.pos)
    ensures Results(t, One(p), true, base, s)
            == if s.pos > 0 && Takes(t, p, GetPrevChar(t, s.pos, 0).0)
               then [s.(pos := GetPrevChar(t, s.pos, 0).1)] else []
  {
    ThroughSplit(t, Prev, [p, Prev], s);
    if s.pos > 0 {
      PrevMoves(t, s.pos);
      var s1 := s.(pos := PrevPos(t, s.pos));
      ReadAgain(t, s.pos);
      ThroughSplit(t, p, [Prev], s1);
      GetCharMoves(t, s1.pos);
      if Accepts(t, p, GetPrevChar(t, s.pos, 0).0) { OneThrough(t, Prev, s); }
    }
  }

  /** Between characters, the character before is the one that is read from where it starts. */
  lemma {:induction false} ReadAgain(t: Text, pos: nat)
    requires 0 < pos && Boundary(t, pos)
    ensures GetChar(t, PrevPos(t, pos), |t.units|) == (GetPrevChar(t, pos, 0).0, pos)
  {
  }

  // ---------- repetitions ----------

  /** How many characters a loop over any character can take at most. */
  function MostTimes(t: Text, max: nat, pos: nat): (m: nat)
    requires pos <= |t.units|
  {
    if max == 0x7fff_ffff || |t.units| - pos < max then |t.units| - pos else max
  }

  /** The places reached by taking from `min` to `most` units, the most first or the fewest first. */
  function Reached(s: Place, min: nat, most: nat, greedy: bool): (r: seq<Place>) {
    if most < min then []
    else seq(most - min + 1, i requires 0 <= i <= most - min => s.(pos := s.pos + if greedy then most - i else min + i))
  }

  lemma {:induction false} RepEnds(t: Text, n: Node, base: nat, min: nat, max: nat, greedy: bool, s: Place)
    requires max == 0 || Results(t, n, false, base, s) == []
    ensures Rep(t, n, false, base, min, max, greedy, s) == if max > 0 && min > 0 then [] else [s]
  {
    hide Results;
  }

  lemma {:induction false} RepGoesOn(t: Text, n: Node, base: nat, min: nat, max: nat, greedy: bool, s: Place, s': Place)
    requires max > 0 && Results(t, n, false, base, s) == [s'] && s.pos < s'.pos <= |t.units|
    ensures var r := Rep(t, n, false, base, if min > 0 then min - 1 else 0, Less(max), greedy, s');
            Rep(t, n, false, base, min, max, greedy, s)
            == if min > 0 then r else if greedy then r + [s] else [s] + r
  {
    hide Results;
    assert [s'][1..] == [];
    if min > 0 {
      assert RepAll(t, n, false, base, min - 1, Less(max), greedy, []) == [];
    } else {
      assert Again(t, n, false, base, max, greedy, s.pos, []) == [];
    }
  }

  lemma {:induction false} ReachedStep(s: Place, min: nat, most: nat, greedy: bool)
    requires most > 0
    ensures var r := Reached(s.(pos := s.pos + 1), if min > 0 then min - 1 else 0, most - 1, greedy);
            Reached(s, min, most, greedy) == if min > 0 then r else if greedy then r + [s] else [s] + r
  {
  }

  /** `[^]{min,max}`, greedy or lazy, without pairs: a greedy loop prefers more characters, a lazy one fewer. */
  lemma {:induction false} AnyTimes(t: Text, base: nat, min: nat, max: nat, greedy: bool, s: Place)
    requires !t.utf16 && s.pos <= |t.units| && min <= max <= 0x7fff_ffff
    ensures Rep(t, One(Any), false, base, min, max, greedy, s) == Reached(s, min, MostTimes(t, max, s.pos), greedy)
    decreases |t.units| - s.pos
  {
    hide Results, Rep;
    OneForward(t, Any, base, s);
    CharAt(t, s.pos, 0, |t.units|);
    if max == 0 || s.pos == |t.units| {
      RepEnds(t, One(Any), base, min, max, greedy, s);
      assert min == 0 ==> Reached(s, 0, 0, greedy) == [s];
    } else {
      var s' := s.(pos := s.pos + 1);
      AnyTimes(t, base, if min > 0 then min - 1 else 0, Less(max), greedy, s');
      RepGoesOn(t, One(Any), base, min, max, greedy, s, s');
      hide Reached;
      ReachedStep(s, min, MostTimes(t, max, s.pos), greedy);
    }
  }

  // ---------- assertions ----------

  /** Letters, digits and the underscore. */
  predicate IsWord(c: nat) {
    || '0' as int <= c <= '9' as int || 'A' as int <= c <= 'Z' as int || 'a' as int <= c <= 'z' as int
    || c == '_' as int
  }

  /** Line feed, carriage return, line separator, paragraph separator. */
  predicate EndsLine(c: nat) { c == 10 || c == 13 || c == 0x2028 || c == 0x2029 }

  /** `^`: at the start, or in multi-line mode behind a line end. */
  lemma {:induction false} LineStartMeans(t: Text, back: bool, base: nat, s: Place)
    requires s.pos <= |t.units|
    ensures Results(t, Assertion(LineStart), back, base, s)
            == if s.pos == 0 || (t.multiLine && EndsLine(t.units[s.pos - 1])) then [s] else []
  {
    OneThrough(t, LineStart, s);
  }

  /** `$`: at the end, or in multi-line mode before a line end. */
  lemma {:induction false} LineEndMeans(t: Text, back: bool, base: nat, s: Place)
    requires s.pos <= |t.units|
    ensures Results(t, Assertion(LineEnd), back, base, s)
            == if s.pos == |t.units| || (t.multiLine && EndsLine(t.units[s.pos])) then [s] else []
  {
    OneThrough(t, LineEnd, s);
  }

  /** Whether the units on either side of a position are word characters. */
  predicate AtWordEdge(t: Text, pos: nat)
    requires pos <= |t.units|
  {
    (pos > 0 && IsWord(t.units[pos - 1])) != (pos < |t.units| && IsWord(t.units[pos]))
  }

  /** `\b` and `\B`. */
  lemma {:induction false} WordBoundaryMeans(t: Text, back: bool, base: nat, s: Place)
    requires s.pos <= |t.units|
    ensures Results(t, Assertion(WordBoundary), back, base, s) == if AtWordEdge(t, s.pos) then [s] else []
    ensures Results(t, Assertion(NotWordBoundary), back, base, s) == if AtWordEdge(t, s.pos) then [] else [s]
  {
    OneThrough(t, WordBoundary, s);
    OneThrough(t, NotWordBoundary, s);
  }

  // ---------- back references ----------

  /** The characters of a stretch of text. */
  function CharsOf(t: Text, start: nat, end: nat): (cs: seq<nat>)
    decreases if start <= end then end - start else 0
  {
    if start >= end then [] else [GetChar(t, start, end).0] + CharsOf(t, GetChar(t, start, end).1, end)
  }

  /** Up to `n` characters from a position on, and where they end. */
  function CharsFrom(t: Text, pos: nat, n: nat): (cs: seq<nat>)
    ensures |cs| <= n
    decreases n
  {
    if n == 0 || pos >= |t.units| then []
    else [GetChar(t, pos, |t.units|).0] + CharsFrom(t, GetChar(t, pos, |t.units|).1, n - 1)
  }

  function PosAfter(t: Text, pos: nat, n: nat): (p: nat)
    decreases n
  {
    if n == 0 || pos >= |t.units| then pos else PosAfter(t, GetChar(t, pos, |t.units|).1, n - 1)
  }

  /** The same, reading backward from the end of a stretch and from a position. */
  function CharsOfBack(t: Text, start: nat, end: nat): (cs: seq<nat>)
    decreases end
  {
    if start >= end then [] else [GetPrevChar(t, end, start).0] + CharsOfBack(t, start, GetPrevChar(t, end, start).1)
  }

  function CharsBefore(t: Text, pos: nat, n: nat): (cs: seq<nat>)
    ensures |cs| <= n
  {
    if n == 0 || pos == 0 then [] else [GetPrevChar(t, pos, 0).0] + CharsBefore(t, GetPrevChar(t, pos, 0).1, n - 1)
  }

  function PosBefore(t: Text, pos: nat, n: nat): (p: nat) {
    if n == 0 || pos == 0 then pos else PosBefore(t, GetPrevChar(t, pos, 0).1, n - 1)
  }

  /** The same characters one by one, up to case if case is ignored. */
  predicate SameChars(t: Text, cs: seq<nat>, ds: seq<nat>) {
    && |cs| == |ds|
    && forall k :: 0 <= k < |cs| ==>
                     (if t.ignoreCase then t.canon(cs[k]) else cs[k])
                     == (if t.ignoreCase then t.canon(ds[k]) else ds[k])
  }

  lemma {:induction false} SameStep(t: Text, c: nat, cs: seq<nat>, d: nat, ds: seq<nat>)
    ensures SameChars(t, [c] + cs, [d] + ds) <==> Fold(t, c) == Fold(t, d) && SameChars(t, cs, ds)
  {
    var a, b := [c] + cs, [d] + ds;
    assert a[1..] == cs && b[1..] == ds;
    if SameChars(t, a, b) {
      assert a[0] == c && b[0] == d;
      forall k | 0 <= k < |cs|
        ensures Fold(t, cs[k]) == Fold(t, ds[k])
      {
        assert a[k + 1] == cs[k] && b[k + 1] == ds[k];
      }
    }
  }

  /** A captured text is matched again exactly if the same characters follow, and the match ends behind them. */
  lemma {:induction false} RepeatMeans(t: Text, start: nat, end: nat, pos: nat)
    ensures var cs := CharsOf(t, start, end); var ds := CharsFrom(t, pos, |cs|);
            Repeat(t, start, end, pos) == if SameChars(t, cs, ds) then MarkAt(PosAfter(t, pos, |cs|)) else NoMark
    decreases if start <= end then end - start else 0
  {
    hide GetChar, Fold;
    if start < end {
      var (c, start') := GetChar(t, start, end);
      var cs := CharsOf(t, start', end);
      assert CharsOf(t, start, end) == [c] + cs;
      if pos < |t.units| {
        var (d, pos') := GetChar(t, pos, |t.units|);
        RepeatMeans(t, start', end, pos');
        SameStep(t, c, cs, d, CharsFrom(t, pos', |cs|));
      }
    }
  }

  /** Backward likewise. */
  lemma {:induction false} RepeatBackwardMeans(t: Text, start: nat, end: nat, pos: nat)
    ensures var cs := CharsOfBack(t, start, end); var ds := CharsBefore(t, pos, |cs|);
            RepeatBackward(t, start, end, pos)
            == if SameChars(t, cs, ds) then MarkAt(PosBefore(t, pos, |cs|)) else NoMark
    decreases end
  {
    hide GetPrevChar, Fold;
    if start < end {
      var (c, end') := GetPrevChar(t, end, start);
      var cs := CharsOfBack(t, start, end');
      assert CharsOfBack(t, start, end) == [c] + cs;
      if pos > 0 {
        var (d, pos') := GetPrevChar(t, pos, 0);
        RepeatBackwardMeans(t, start, end', pos');
        SameStep(t, c, cs, d, CharsBefore(t, pos', |cs|));
      }
    }
  }

  lemma {:induction false} SameLast(t: Text, cs: seq<nat>, c: nat, ds: seq<nat>, d: nat)
    requires |cs| == |ds|
    ensures SameChars(t, cs + [c], ds + [d]) <==> Fold(t, c) == Fold(t, d) && SameChars(t, cs, ds)
  {
    var a, b := cs + [c], ds + [d];
    if SameChars(t, a, b) {
      assert a[|cs|] == c && b[|cs|] == d;
      forall k | 0 <= k < |cs|
        ensures Fold(t, cs[k]) == Fold(t, ds[k])
      {
        assert a[k] == cs[k] && b[k] == ds[k];
      }
    }
  }

  /** What stands at `pos` is what stands at `start`, for `n` units. */
  predicate SameUnits(t: Text, start: nat, pos: nat, n: nat)
    requires start + n <= |t.units| && pos + n <= |t.units|
  {
    SameChars(t, t.units[start..start + n], t.units[pos..pos + n])
  }

  lemma {:induction false} SameUnitsSplit(t: Text, start: nat, pos: nat, n: nat)
    requires start + n <= |t.units| && pos + n <= |t.units| && n > 0
    ensures SameUnits(t, start, pos, n)
            <==> Fold(t, t.units[start]) == Fold(t, t.units[pos]) && SameUnits(t, start + 1, pos + 1, n - 1)
    ensures SameUnits(t, start, pos, n)
            <==> Fold(t, t.units[start + n - 1]) == Fold(t, t.units[pos + n - 1]) && SameUnits(t, start, pos, n - 1)
  {
    hide SameChars, Fold;
    var u, x, y := t.units, start + n, pos + n;
    assert u[start..x] == [u[start]] + u[start + 1..x] && u[pos..y] == [u[pos]] + u[pos + 1..y];
    assert u[start..x] == u[start..x - 1] + [u[x - 1]] && u[pos..y] == u[pos..y - 1] + [u[y - 1]];
    SameStep(t, u[start], u[start + 1..x], u[pos], u[pos + 1..y]);
    SameLast(t, u[start..x - 1], u[x - 1], u[pos..y - 1], u[y - 1]);
  }

  /** Without pairs: unit by unit. */
  lemma {:induction false} RepeatUnits(t: Text, start: nat, end: nat, pos: nat)
    requires !t.utf16 && start <= end <= |t.units| && pos <= |t.units|
    ensures Repeat(t, start, end, pos)
            == if pos + (end - start) <= |t.units| && SameUnits(t, start, pos, end - start)
               then MarkAt(pos + (end - start)) else NoMark
    decreases end - start
  {
    hide SameUnits, Fold;
    if start < end {
      CharAt(t, start, 0, end);
      if pos < |t.units| {
        CharAt(t, pos, 0, |t.units|);
        RepeatUnits(t, start + 1, end, pos + 1);
        if pos + (end - start) <= |t.units| { SameUnitsSplit(t, start, pos, end - start); }
      }
    } else {
      NoUnits(t, start, pos);
    }
  }

  lemma {:induction false} NoUnits(t: Text, start: nat, pos: nat)
    requires start <= |t.units| && pos <= |t.units|
    ensures SameUnits(t, start, pos, 0)
  {
  }

  lemma {:induction false} RepeatBackwardUnits(t: Text, start: nat, end: nat, pos: nat)
    requires !t.utf16 && start <= end <= |t.units| && pos <= |t.units|
    ensures RepeatBackward(t, start, end, pos)
            == if end - start <= pos && SameUnits(t, start, pos - (end - start), end - start)
               then MarkAt(pos - (end - start)) else NoMark
    decreases end
  {
    hide SameUnits, Fold;
    if start < end {
      CharAt(t, end, start, end);
      if pos > 0 {
        CharAt(t, pos, 0, 0);
        RepeatBackwardUnits(t, start, end - 1, pos - 1);
        if end - start <= pos { SameUnitsSplit(t, start, pos - (end - start), end - start); }
      }
    } else {
      NoUnits(t, start, pos);
    }
  }

  /** A back reference: an unset capture matches nothing at all; otherwise the captured characters follow, or, when
      reading backward, stand before. */
  lemma {:induction false} ReferenceMeans(t: Text, k: nat, back: bool, base: nat, s: Place)
    requires 2 * k + 1 < |s.caps|
    ensures var r, a, b := Results(t, Reference(k), back, base, s), s.caps[2 * k], s.caps[2 * k + 1];
            if a.NoMark? || b.NoMark? then r == [s]
            else if back then
              var cs := CharsOfBack(t, a.pos, b.pos);
              r == if SameChars(t, cs, CharsBefore(t, s.pos, |cs|)) then [s.(pos := PosBefore(t, s.pos, |cs|))] else []
            else
              var cs := CharsOf(t, a.pos, b.pos);
              r == if SameChars(t, cs, CharsFrom(t, s.pos, |cs|)) then [s.(pos := PosAfter(t, s.pos, |cs|))] else []
  {
    hide SameChars, CharsOf, CharsOfBack, CharsFrom, CharsBefore, PosAfter, PosBefore, Repeat, RepeatBackward;
    OneThrough(t, ReferencePrim(k, back), s);
    var a, b := s.caps[2 * k], s.caps[2 * k + 1];
    if a.MarkAt? && b.MarkAt? {
      RepeatMeans(t, a.pos, b.pos, s.pos);
      RepeatBackwardMeans(t, a.pos, b.pos, s.pos);
    }
  }

  /** Without pairs: the captured units follow, or stand before. */
  lemma {:induction false} ReferenceUnits(t: Text, k: nat, back: bool, base: nat, s: Place)
    requires 2 * k + 1 < |s.caps| && s.caps[2 * k].MarkAt? && s.caps[2 * k + 1].MarkAt? && !t.utf16
    requires s.caps[2 * k].pos <= s.caps[2 * k + 1].pos <= |t.units| && s.pos <= |t.units|
    ensures var r, a, n := Results(t, Reference(k), back, base, s), s.caps[2 * k].pos,
                s.caps[2 * k + 1].pos - s.caps[2 * k].pos;
            if back then r == if n <= s.pos && SameUnits(t, a, s.pos - n, n) then [s.(pos := s.pos - n)] else []
            else r == if s.pos + n <= |t.units| && SameUnits(t, a, s.pos, n) then [s.(pos := s.pos + n)] else []
  {
    hide SameUnits, Repeat, RepeatBackward;
    OneThrough(t, ReferencePrim(k, back), s);
    RepeatUnits(t, s.caps[2 * k].pos, s.caps[2 * k + 1].pos, s.pos);
    RepeatBackwardUnits(t, s.caps[2 * k].pos, s.caps[2 * k + 1].pos, s.pos);
  }

  // ---------- resets ----------

  /** The captures of groups `base`, ..., `base + count - 1` unset, and all others kept. */
  function Cleared(caps: seq<Mark>, base: nat, count: nat): (r: seq<Mark>) {
    seq(|caps|, i requires 0 <= i < |caps| => if 2 * base <= i < 2 * (base + count) then NoMark else caps[i])
  }

  /** A loop that may run zero times forgets the captures in it, once; any other loop keeps them. */
  lemma {:induction false} LoopForgets(t: Text, a: Node, back: bool, base: nat, min: nat, max: nat, greedy: bool,
                                       s: Place)
    requires 2 * (base + Groups(a)) <= |s.caps|
    ensures Results(t, Quantified(a, min, max, greedy), back, base, s)
            == RepAll(t, a, back, base, min, max, greedy,
                      [if min == 0 then Place(s.pos, Cleared(s.caps, base, Groups(a))) else s])
  {
    hide RepAll;
    var ps := ResetPrims(a, min, base);
    assert Cleared(s.caps, base, 0) == s.caps;
    if ps != [] {
      OneThrough(t, ps[0], s);
      assert ResetCaptures(s.caps, base, base + Groups(a) - 1) == Cleared(s.caps, base, Groups(a));
    }
  }
}
