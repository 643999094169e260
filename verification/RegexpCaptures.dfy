/** What groups capture: the stretch they matched, and nothing else is touched. */
module RegexpCaptures {
  import opened RegexpCode
  import opened RegexpText
  import opened RegexpSyntax
  import opened RegexpProgram

  /** The captures of a place, the groups `lo`, ..., `lo + count - 1` that may change, and whether these are in
      order. */
  datatype Region = Region(caps: seq<Mark>, lo: nat, count: nat, ordered: bool)

  /** Both ends of a group are unset, or they are set and enclose a stretch of the text. */
  predicate IsStretch(t: Text, a: Mark, b: Mark) {
    (a == NoMark && b == NoMark) || (a.MarkAt? && b.MarkAt? && a.pos <= b.pos <= |t.units|)
  }

  ghost predicate Untouched(g: Region, caps: seq<Mark>) {
    && |caps| == |g.caps|
    && forall i :: 0 <= i < |caps| && (i < 2 * g.lo || i >= 2 * (g.lo + g.count)) ==> caps[i] == g.caps[i]
  }

  ghost predicate InOrder(t: Text, caps: seq<Mark>, lo: nat, count: nat) {
    forall k :: lo <= k < lo + count && 2 * k + 1 < |caps| ==> IsStretch(t, caps[2 * k], caps[2 * k + 1])
  }

  /** A place in the text whose captures differ only in the region, where they are in order if they were. */
  ghost predicate Tidy(t: Text, g: Region, s: Place) {
    s.pos <= |t.units| && Untouched(g, s.caps) && (g.ordered ==> InOrder(t, s.caps, g.lo, g.count))
  }

  ghost predicate AllTidy(t: Text, g: Region, ss: seq<Place>) { forall i :: 0 <= i < |ss| ==> Tidy(t, g, ss[i]) }

  /** The groups of a pattern lie in the region. */
  predicate Covers(g: Region, base: nat, count: nat) { g.lo <= base && base + count <= g.lo + g.count }

  lemma {:induction false} TidyJoin(t: Text, g: Region, a: seq<Place>, b: seq<Place>)
    requires AllTidy(t, g, a) && AllTidy(t, g, b)
    ensures AllTidy(t, g, a + b)
  {
    hide Tidy;
  }

  lemma {:induction false} TidyOne(t: Text, g: Region, s: Place)
    requires Tidy(t, g, s)
    ensures AllTidy(t, g, [s])
  {
    hide Tidy;
  }

  lemma {:induction false} TidyHead(t: Text, g: Region, ss: seq<Place>)
    requires AllTidy(t, g, ss) && ss != []
    ensures Tidy(t, g, ss[0]) && AllTidy(t, g, ss[1..])
  {
    hide Tidy;
  }

  /** Instructions that only move. */
  lemma {:induction false} MovedTidy(t: Text, g: Region, s: Place, back: bool, ss: seq<Place>, strictly: bool)
    requires Tidy(t, g, s) && AllMoved(t, back, s.pos, ss, Frame(|s.caps|, true), strictly)
    requires forall i :: 0 <= i < |ss| ==> ss[i].caps == s.caps
    ensures AllTidy(t, g, ss)
  {
    hide Untouched, InOrder;
    forall i | 0 <= i < |ss|
      ensures Tidy(t, g, ss[i])
    {
      assert Moved(t, back, s.pos, ss[i], Frame(|s.caps|, true), strictly);
    }
  }

  predicate Moves(p: Prim) { Consumes(p) || p.Prev? }

  lemma {:induction false} ThroughKeeps(t: Text, ps: seq<Prim>, s: Place)
    requires forall i :: 0 <= i < |ps| ==> Moves(ps[i])
    ensures forall i :: 0 <= i < |Through(t, ps, s)| ==> Through(t, ps, s)[i].caps == s.caps
    decreases ps
  {
    if ps != [] && CapturesFit(ps[0], |s.caps|) {
      var m := Perform(t, ps[0], s);
      if m.Go? { ThroughKeeps(t, ps[1..], m.s); }
    }
  }

  lemma {:induction false} LeafTidy(t: Text, n: Node, back: bool, base: nat, s: Place, g: Region)
    requires WellFormed(n) && Tidy(t, g, s) && (n.Empty? || n.One? || n.Assertion? || n.Reference?)
    ensures AllTidy(t, g, Results(t, n, back, base, s))
  {
    hide Tidy, AllMoved, Perform, Through;
    InText(t, g, s);
    var f := Frame(|s.caps|, true);
    match n
    case Empty => TidyOne(t, g, s);
    case One(p) =>
      OneMoves(t, p, back, s, f);
      ThroughKeeps(t, OnePrims(p, back), s);
      MovedTidy(t, g, s, back, Through(t, OnePrims(p, back), s), true);
    case Assertion(p) =>
      AssertionMoves(t, p, back, s, f);
      AssertionStays(t, p, s);
      MovedTidy(t, g, s, back, Through(t, [p], s), false);
    case Reference(k) =>
      ReferenceTidy(t, k, back, s, g);
  }

  lemma {:induction false} InText(t: Text, g: Region, s: Place)
    requires Tidy(t, g, s)
    ensures Sane(t, s, Frame(|s.caps|, true)) && |s.caps| == |g.caps|
  {
  }

  lemma {:induction false} AssertionStays(t: Text, p: Prim, s: Place)
    requires WellFormed(Assertion(p))
    ensures forall i :: 0 <= i < |Through(t, [p], s)| ==> Through(t, [p], s)[i].caps == s.caps
  {
    OneThrough(t, p, s);
  }

  lemma {:induction false} ReferenceTidy(t: Text, k: nat, back: bool, s: Place, g: Region)
    requires Tidy(t, g, s)
    ensures AllTidy(t, g, Through(t, [ReferencePrim(k, back)], s))
  {
    hide Tidy, AllMoved, Through, Repeat, RepeatBackward;
    InText(t, g, s);
    BackRefMoves(t, k, back, s, Frame(|s.caps|, true));
    OneThrough(t, ReferencePrim(k, back), s);
    MovedTidy(t, g, s, back, Through(t, [ReferencePrim(k, back)], s), false);
  }

  /** What a pattern leads to differs from where it started only in its own groups, and they stay in order. */
  lemma {:induction false} ResultsTidy(t: Text, n: Node, back: bool, base: nat, s: Place, g: Region)
    requires WellFormed(n) && Tidy(t, g, s) && Covers(g, base, Groups(n))
    ensures AllTidy(t, g, Results(t, n, back, base, s))
    decreases n, 1
  {
    hide Tidy, AllTidy, Perform, Through, ThroughAll, ResultsAll, RepAll, LookResults, WellFormed, ResetPrims, Groups;
    WellFormedParts(n);
    match n
    case Sequence(a, b) =>
      if back {
        ThenTidy(t, n, b, a, back, base + Groups(a), base, s, g);
      } else {
        ThenTidy(t, n, a, b, back, base, base + Groups(a), s, g);
      }
    case Choice(a, b) =>
      ResultsTidy(t, a, back, base, s, g);
      ResultsTidy(t, b, back, base + Groups(a), s, g);
      TidyJoin(t, g, Results(t, a, back, base, s), Results(t, b, back, base + Groups(a), s));
    case Group(a) => GroupTidy(t, a, back, base, s, g);
    case Look(a, behind, negative) =>
      ResultsTidy(t, a, behind, base, s, g);
      LookTidy(t, Results(t, a, behind, base, s), negative, s, g);
    case Quantified(a, min, max, greedy) => LoopTidy(t, a, back, base, min, max, greedy, s, g);
    case _ => LeafTidy(t, n, back, base, s, g);
  }

  lemma {:induction false} ThenTidy(t: Text, n: Node, a: Node, b: Node, back: bool, base1: nat, base2: nat, s: Place,
                                    g: Region)
    requires n.Sequence? && (n == Sequence(a, b) || n == Sequence(b, a)) && WellFormed(a) && WellFormed(b)
    requires Tidy(t, g, s) && Covers(g, base1, Groups(a)) && Covers(g, base2, Groups(b))
    ensures AllTidy(t, g, ResultsAll(t, b, back, base2, Results(t, a, back, base1, s)))
    decreases n, 0
  {
    hide Tidy, AllTidy, Results, ResultsAll, WellFormed, Covers, Groups;
    ResultsTidy(t, a, back, base1, s, g);
    ResultsAllTidy(t, b, back, base2, Results(t, a, back, base1, s), g);
  }

  lemma {:induction false} LoopTidy(t: Text, a: Node, back: bool, base: nat, min: nat, max: nat, greedy: bool, s: Place,
                                    g: Region)
    requires WellFormed(a) && min <= max && Tidy(t, g, s) && Covers(g, base, Groups(a))
    ensures AllTidy(t, g, RepAll(t, a, back, base, min, max, greedy, Through(t, ResetPrims(a, min, base), s)))
    decreases a, 3
  {
    hide Tidy, AllTidy, RepAll, Through, ResetPrims, WellFormed, Covers, Groups;
    ResetTidy(t, a, min, base, s, g);
    RepAllTidy(t, a, back, base, min, max, greedy, Through(t, ResetPrims(a, min, base), s), g);
  }

  lemma {:induction false} WellFormedParts(n: Node)
    requires WellFormed(n)
    ensures match n
            case Sequence(a, b) => WellFormed(a) && WellFormed(b) && Groups(n) == Groups(a) + Groups(b)
            case Choice(a, b) => WellFormed(a) && WellFormed(b) && Groups(n) == Groups(a) + Groups(b)
            case Group(a) => WellFormed(a) && Groups(n) == 1 + Groups(a)
            case Look(a, _, _) => WellFormed(a) && Groups(n) == Groups(a)
            case Quantified(a, min, max, _) => WellFormed(a) && Groups(n) == Groups(a) && min <= max
            case _ => true
  {
  }

  lemma {:induction false} LookTidy(t: Text, inner: seq<Place>, negative: bool, s: Place, g: Region)
    requires Tidy(t, g, s) && AllTidy(t, g, inner)
    ensures AllTidy(t, g, LookResults(inner, negative, s))
  {
    hide Untouched, InOrder;
    if inner != [] { assert Tidy(t, g, inner[0]); }
  }

  lemma {:induction false} ResetTidy(t: Text, a: Node, min: nat, base: nat, s: Place, g: Region)
    requires Tidy(t, g, s) && Covers(g, base, Groups(a))
    ensures AllTidy(t, g, Through(t, ResetPrims(a, min, base), s))
  {
    var ps := ResetPrims(a, min, base);
    if ps != [] && CapturesFit(ps[0], |s.caps|) {
      OneThrough(t, ps[0], s);
      var caps := ResetCaptures(s.caps, ps[0].first, ps[0].last);
      ResetInOrder(t, s.caps, ps[0].first, ps[0].last, g);
      assert Tidy(t, g, s.(caps := caps));
    }
  }

  lemma {:induction false} ResetInOrder(t: Text, caps: seq<Mark>, first: nat, last: nat, g: Region)
    requires g.lo <= first && last < g.lo + g.count && Untouched(g, caps)
    ensures var r := ResetCaptures(caps, first, last);
            Untouched(g, r) && (InOrder(t, caps, g.lo, g.count) ==> InOrder(t, r, g.lo, g.count))
  {
    var r := ResetCaptures(caps, first, last);
    if InOrder(t, caps, g.lo, g.count) {
      forall k | g.lo <= k < g.lo + g.count && 2 * k + 1 < |r|
        ensures IsStretch(t, r[2 * k], r[2 * k + 1])
      {
        assert IsStretch(t, caps[2 * k], caps[2 * k + 1]);
      }
    }
  }

  lemma {:induction false} ResultsAllTidy(t: Text, n: Node, back: bool, base: nat, ss: seq<Place>, g: Region)
    requires WellFormed(n) && AllTidy(t, g, ss) && Covers(g, base, Groups(n))
    ensures AllTidy(t, g, ResultsAll(t, n, back, base, ss))
    decreases n, 2, |ss|
  {
    hide Tidy;
    if ss != [] {
      TidyHead(t, g, ss);
      ResultsTidy(t, n, back, base, ss[0], g);
      ResultsAllTidy(t, n, back, base, ss[1..], g);
    }
  }

  lemma {:induction false} RepTidy(t: Text, n: Node, back: bool, base: nat, min: nat, max: nat, greedy: bool, s: Place,
                                   g: Region)
    requires WellFormed(n) && Tidy(t, g, s) && min <= max && Covers(g, base, Groups(n))
    ensures AllTidy(t, g, Rep(t, n, back, base, min, max, greedy, s))
    decreases n, 2, min, RepRoom(t, back, max, s.pos), 1, 0
  {
    hide Tidy;
    if max > 0 {
      ResultsTidy(t, n, back, base, s, g);
      if min > 0 {
        RepAllTidy(t, n, back, base, min - 1, Less(max), greedy, Results(t, n, back, base, s), g);
      } else {
        AgainTidy(t, n, back, base, max, greedy, s.pos, Results(t, n, back, base, s), g);
      }
    }
  }

  lemma {:induction false} RepAllTidy(t: Text, n: Node, back: bool, base: nat, min: nat, max: nat, greedy: bool,
                                      ss: seq<Place>, g: Region)
    requires WellFormed(n) && min <= max && AllTidy(t, g, ss) && Covers(g, base, Groups(n))
    ensures AllTidy(t, g, RepAll(t, n, back, base, min, max, greedy, ss))
    decreases n, 2, min + 1, 0, 0, |ss|
  {
    hide Tidy, Rep;
    if ss != [] {
      TidyHead(t, g, ss);
      RepTidy(t, n, back, base, min, max, greedy, ss[0], g);
      RepAllTidy(t, n, back, base, min, max, greedy, ss[1..], g);
    }
  }

  lemma {:induction false} AgainTidy(t: Text, n: Node, back: bool, base: nat, max: nat, greedy: bool, pos: nat,
                                     ss: seq<Place>, g: Region)
    requires WellFormed(n) && max > 0 && AllTidy(t, g, ss) && Covers(g, base, Groups(n))
    ensures AllTidy(t, g, Again(t, n, back, base, max, greedy, pos, ss))
    decreases n, 2, 0, RepRoom(t, back, max, pos), 0, |ss|
  {
    hide Tidy, Rep;
    if ss != [] {
      TidyHead(t, g, ss);
      if !(Unlimited(max) && Room(t, back, ss[0].pos) >= Room(t, back, pos)) {
        RepTidy(t, n, back, base, 0, Less(max), greedy, ss[0], g);
      }
      AgainTidy(t, n, back, base, max, greedy, pos, ss[1..], g);
    }
  }

  // ---------- groups ----------

  /** A group opened at a place, and closed at another; backwards, it is opened at its end. */
  function Opened(s: Place, base: nat, back: bool): (r: Place)
    requires 2 * base + 1 < |s.caps|
  {
    s.(caps := if back then s.caps[2 * base + 1 := MarkAt(s.pos)] else s.caps[2 * base := MarkAt(s.pos)])
  }

  function ClosedAt(s: Place, base: nat, back: bool): (r: Place)
    requires 2 * base + 1 < |s.caps|
  {
    s.(caps := if back then s.caps[2 * base := MarkAt(s.pos)] else s.caps[2 * base + 1 := MarkAt(s.pos)])
  }

  lemma {:induction false} CloseEach(t: Text, base: nat, back: bool, ss: seq<Place>)
    requires forall i :: 0 <= i < |ss| ==> 2 * base + 1 < |ss[i].caps|
    ensures var r := ThroughAll(t, [ClosePrim(base, back)], ss);
            |r| == |ss| && forall i :: 0 <= i < |r| ==> r[i] == ClosedAt(ss[i], base, back)
    decreases ss
  {
    if ss != [] {
      OneThrough(t, ClosePrim(base, back), ss[0]);
      CloseEach(t, base, back, ss[1..]);
    }
  }

  lemma {:induction false} GroupShape(t: Text, a: Node, back: bool, base: nat, s: Place)
    ensures Results(t, Group(a), back, base, s)
            == if 2 * base + 1 < |s.caps|
               then ThroughAll(t, [ClosePrim(base, back)], Results(t, a, back, base + 1, Opened(s, base, back)))
               else []
  {
    hide ThroughAll, ClosePrim;
    var open := OpenPrim(base, back);
    if 2 * base + 1 < |s.caps| {
      OneThrough(t, open, s);
      AllOne(t, a, back, base + 1, Opened(s, base, back));
    } else {
      NoneClosed(t, [ClosePrim(base, back)]);
    }
  }

  lemma {:induction false} AllOne(t: Text, n: Node, back: bool, base: nat, s: Place)
    ensures ResultsAll(t, n, back, base, [s]) == Results(t, n, back, base, s)
  {
    hide Results;
    assert [s][1..] == [] && ResultsAll(t, n, back, base, []) == [];
  }

  lemma {:induction false} NoneClosed(t: Text, ps: seq<Prim>)
    ensures ThroughAll(t, ps, []) == []
  {
  }

  /** The region inside a group. */
  ghost function Inner(s: Place, a: Node, base: nat, back: bool, ordered: bool): (g: Region)
    requires 2 * base + 1 < |s.caps|
  {
    Region(Opened(s, base, back).caps, base + 1, Groups(a), ordered)
  }

  lemma {:induction false} InnerTidy(t: Text, a: Node, back: bool, base: nat, s: Place, g: Region)
    requires Tidy(t, g, s) && Covers(g, base, 1 + Groups(a)) && 2 * base + 1 < |s.caps|
    ensures Tidy(t, Inner(s, a, base, back, g.ordered), Opened(s, base, back))
  {
    var caps := Opened(s, base, back).caps;
    if g.ordered {
      forall k | base + 1 <= k < base + 1 + Groups(a) && 2 * k + 1 < |caps|
        ensures IsStretch(t, caps[2 * k], caps[2 * k + 1])
      {
        assert IsStretch(t, s.caps[2 * k], s.caps[2 * k + 1]);
      }
    }
  }

  /** Behind a group: its own marks enclose what it matched, those inside are in order, the others are untouched. */
  lemma {:induction false} GroupPlace(t: Text, a: Node, back: bool, base: nat, s: Place, g: Region, x: Place)
    requires Tidy(t, g, s) && Covers(g, base, 1 + Groups(a)) && 2 * base + 1 < |s.caps|
    requires Tidy(t, Inner(s, a, base, back, g.ordered), x) && Room(t, back, x.pos) <= Room(t, back, s.pos)
    ensures 2 * base + 1 < |x.caps| && Tidy(t, g, ClosedAt(x, base, back))
    ensures var caps := ClosedAt(x, base, back).caps;
            && caps[2 * base] == MarkAt(if back then x.pos else s.pos)
            && caps[2 * base + 1] == MarkAt(if back then s.pos else x.pos)
  {
    var o, caps := Opened(s, base, back).caps, ClosedAt(x, base, back).caps;
    assert x.caps[2 * base] == o[2 * base] && x.caps[2 * base + 1] == o[2 * base + 1];
    if g.ordered {
      forall k | g.lo <= k < g.lo + g.count && 2 * k + 1 < |caps|
        ensures IsStretch(t, caps[2 * k], caps[2 * k + 1])
      {
        if base + 1 <= k < base + 1 + Groups(a) {
          assert IsStretch(t, x.caps[2 * k], x.caps[2 * k + 1]);
        } else if k != base {
          assert IsStretch(t, s.caps[2 * k], s.caps[2 * k + 1]);
        }
      }
    }
  }

  lemma {:induction false} GroupTidy(t: Text, a: Node, back: bool, base: nat, s: Place, g: Region)
    requires WellFormed(a) && Tidy(t, g, s) && Covers(g, base, 1 + Groups(a))
    ensures AllTidy(t, g, Results(t, Group(a), back, base, s))
    ensures 2 * base + 1 < |s.caps| ==>
              forall i :: 0 <= i < |Results(t, Group(a), back, base, s)| ==>
                            IsCaptured(Results(t, Group(a), back, base, s)[i], base, back, s.pos)
    decreases a, 3
  {
    hide Tidy, Results, ThroughAll, Opened, ClosedAt, Inner, ClosePrim;
    GroupShape(t, a, back, base, s);
    if 2 * base + 1 < |s.caps| {
      InText(t, g, s);
      InnerTidy(t, a, back, base, s, g);
      var g', o := Inner(s, a, base, back, g.ordered), Opened(s, base, back);
      InnerCovers(s, a, base, back, g.ordered);
      ResultsTidy(t, a, back, base + 1, o, g');
      OpenedPlace(s, base, back);
      ResultsMove(t, a, back, base + 1, o, Frame(|s.caps|, true));
      var inner := Results(t, a, back, base + 1, o);
      forall i | 0 <= i < |inner|
        ensures 2 * base + 1 < |inner[i].caps| && Tidy(t, g, ClosedAt(inner[i], base, back))
                && IsCaptured(ClosedAt(inner[i], base, back), base, back, s.pos)
      {
        InnerPlace(t, a, back, base, s, g, inner[i]);
      }
      CloseEach(t, base, back, inner);
    }
  }

  lemma {:induction false} InnerPlace(t: Text, a: Node, back: bool, base: nat, s: Place, g: Region, x: Place)
    requires Tidy(t, g, s) && Covers(g, base, 1 + Groups(a)) && 2 * base + 1 < |s.caps|
    requires Tidy(t, Inner(s, a, base, back, g.ordered), x)
    requires exists strictly :: Moved(t, back, s.pos, x, Frame(|s.caps|, true), strictly)
    ensures 2 * base + 1 < |x.caps| && Tidy(t, g, ClosedAt(x, base, back))
    ensures IsCaptured(ClosedAt(x, base, back), base, back, s.pos)
  {
    hide Tidy, Inner;
    GroupPlace(t, a, back, base, s, g, x);
  }

  lemma {:induction false} OpenedPlace(s: Place, base: nat, back: bool)
    requires 2 * base + 1 < |s.caps|
    ensures Opened(s, base, back).pos == s.pos && |Opened(s, base, back).caps| == |s.caps|
  {
  }

  lemma {:induction false} InnerCovers(s: Place, a: Node, base: nat, back: bool, ordered: bool)
    requires 2 * base + 1 < |s.caps|
    ensures Covers(Inner(s, a, base, back, ordered), base + 1, Groups(a))
  {
  }

  /** The marks of group `base` enclose the stretch between `origin` and the place. */
  predicate IsCaptured(s: Place, base: nat, back: bool, origin: nat) {
    && 2 * base + 1 < |s.caps|
    && s.caps[2 * base] == MarkAt(if back then s.pos else origin)
    && s.caps[2 * base + 1] == MarkAt(if back then origin else s.pos)
  }

  /** A group captures exactly the stretch it has matched, whether it was read forward or backward. */
  lemma {:induction false} GroupCaptures(t: Text, a: Node, back: bool, base: nat, s: Place, i: nat)
    requires WellFormed(a) && s.pos <= |t.units| && 2 * base + 1 < |s.caps|
    requires i < |Results(t, Group(a), back, base, s)|
    ensures var s' := Results(t, Group(a), back, base, s)[i];
            && |s'.caps| == |s.caps|
            && s'.caps[2 * base] == MarkAt(if back then s'.pos else s.pos)
            && s'.caps[2 * base + 1] == MarkAt(if back then s.pos else s'.pos)
  {
    hide Results;
    var g := Region(s.caps, base, 1 + Groups(a), false);
    GroupTidy(t, a, back, base, s, g);
    assert IsCaptured(Results(t, Group(a), back, base, s)[i], base, back, s.pos);
    assert Tidy(t, g, Results(t, Group(a), back, base, s)[i]);
  }

  /** A pattern changes no captures but those of its own groups. */
  lemma {:induction false} OthersKept(t: Text, n: Node, back: bool, base: nat, s: Place, i: nat, k: nat)
    requires WellFormed(n) && s.pos <= |t.units| && i < |Results(t, n, back, base, s)|
    requires k < |s.caps| && (k < 2 * base || k >= 2 * (base + Groups(n)))
    ensures var s' := Results(t, n, back, base, s)[i]; |s'.caps| == |s.caps| && s'.caps[k] == s.caps[k]
  {
    hide Results;
    var g := Region(s.caps, base, Groups(n), false);
    ResultsTidy(t, n, back, base, s, g);
    assert Tidy(t, g, Results(t, n, back, base, s)[i]);
  }

  // ---------- whole matches ----------

  /** Every group of a match is unset or encloses a stretch of the text; group 0 is the match itself. */
  ghost predicate IsMatch(t: Text, count: nat, s: Place) {
    && s.pos <= |t.units| && |s.caps| == 2 * count && count >= 1
    && s.caps[0].MarkAt? && s.caps[0].pos <= s.pos && s.caps[1] == MarkAt(s.pos)
    && forall k :: 0 <= k < count ==> IsStretch(t, s.caps[2 * k], s.caps[2 * k + 1])
  }

  predicate BeginsAt(s: Place, origin: nat) { s.caps != [] && s.caps[0] == MarkAt(origin) }

  lemma {:induction false} MatchShape(t: Text, n: Node, s: Place)
    requires |s.caps| >= 2
    ensures MatchesAt(t, n, s) == Results(t, Group(n), false, 0, s)
  {
    hide ThroughAll;
  }

  lemma {:induction false} MatchesAtOrder(t: Text, n: Node, s: Place)
    requires WellFormed(n) && s.pos <= |t.units| && |s.caps| == 2 * (1 + Groups(n))
    requires forall i :: 0 <= i < |s.caps| ==> s.caps[i] == NoMark
    ensures var r := MatchesAt(t, n, s);
            forall i :: 0 <= i < |r| ==> IsMatch(t, 1 + Groups(n), r[i]) && BeginsAt(r[i], s.pos)
  {
    hide MatchesAt, Results, Tidy, IsCaptured, IsMatch, Untouched, InOrder, WellFormed;
    MatchShape(t, n, s);
    AllUnset(t, s, 1 + Groups(n));
    var g := Region(s.caps, 0, 1 + Groups(n), true);
    GroupTidy(t, n, false, 0, s, g);
    var r := MatchesAt(t, n, s);
    forall i | 0 <= i < |r|
      ensures IsMatch(t, 1 + Groups(n), r[i]) && BeginsAt(r[i], s.pos)
    {
      assert IsCaptured(r[i], 0, false, s.pos) && Tidy(t, g, r[i]);
      MatchPlace(t, g, r[i], s.pos);
    }
  }

  lemma {:induction false} AllUnset(t: Text, s: Place, count: nat)
    requires s.pos <= |t.units| && |s.caps| == 2 * count && forall i :: 0 <= i < |s.caps| ==> s.caps[i] == NoMark
    ensures Tidy(t, Region(s.caps, 0, count, true), s)
  {
  }

  lemma {:induction false} MatchPlace(t: Text, g: Region, x: Place, origin: nat)
    requires Tidy(t, g, x) && g.ordered && g.lo == 0 && |g.caps| == 2 * g.count && IsCaptured(x, 0, false, origin)
    ensures IsMatch(t, g.count, x) && BeginsAt(x, origin)
  {
    assert IsStretch(t, x.caps[2 * 0], x.caps[2 * 0 + 1]);
  }

  lemma {:induction false} MatchesFromOrder(t: Text, n: Node, s: Place)
    requires WellFormed(n) && s.pos <= |t.units| && |s.caps| == 2 * (1 + Groups(n))
    requires forall i :: 0 <= i < |s.caps| ==> s.caps[i] == NoMark
    ensures forall i :: 0 <= i < |MatchesFrom(t, n, s)| ==> IsMatch(t, 1 + Groups(n), MatchesFrom(t, n, s)[i])
    decreases Room(t, false, s.pos)
  {
    hide MatchesAt, IsMatch;
    MatchesAtOrder(t, n, s);
    if s.pos < |t.units| { MatchesFromOrder(t, n, s.(pos := GetChar(t, s.pos, |t.units|).1)); }
  }

  /** In every match each group is unset or encloses a stretch of the text, and group 0 ends where the match ends. */
  lemma {:induction false} MatchesOrder(t: Text, n: Node, sticky: bool, s: Place)
    requires WellFormed(n) && s.pos <= |t.units| && |s.caps| == 2 * (1 + Groups(n))
    requires forall i :: 0 <= i < |s.caps| ==> s.caps[i] == NoMark
    ensures var r := Matches(t, n, sticky, s); forall i :: 0 <= i < |r| ==> IsMatch(t, 1 + Groups(n), r[i])
  {
    hide MatchesAt, MatchesFrom, IsMatch;
    MatchesAtOrder(t, n, s);
    MatchesFromOrder(t, n, s);
  }
}
