/** Patterns and their meaning: for a pattern and a place, the list of places it can lead to, in order of priority.
    Loops follow this library: an iteration that consumes nothing leaves the loop, and captures are
    forgotten once, before a loop that may run zero times. */
module RegexpSyntax {
  import opened RegexpCode
  import opened RegexpText

  datatype Node =
    | Empty
    | One(p: Prim)
    | Assertion(p: Prim)
    | Reference(k: nat)
    | Sequence(first: Node, second: Node)
    | Choice(left: Node, right: Node)
    | Group(body: Node)
    | Look(body: Node, behind: bool, negative: bool)
    | Quantified(body: Node, min: nat, max: nat, greedy: bool)

  /** The number of capture groups in a pattern; they are numbered from left to right. */
  function Groups(n: Node): (c: nat) {
    match n
    case Sequence(a, b) => Groups(a) + Groups(b)
    case Choice(a, b) => Groups(a) + Groups(b)
    case Group(a) => 1 + Groups(a)
    case Look(a, _, _) => Groups(a)
    case Quantified(a, _, _, _) => Groups(a)
    case _ => 0
  }

  /** What the parser can produce. A `max` of `INT32_MAX` stands for no limit. */
  predicate WellFormed(n: Node) {
    match n
    case Empty => true
    case One(p) => Consumes(p) && ValidPrim(p)
    case Assertion(p) => p.LineStart? || p.LineEnd? || p.WordBoundary? || p.NotWordBoundary?
    case Reference(k) => k < 256
    case Sequence(a, b) => WellFormed(a) && WellFormed(b)
    case Choice(a, b) => WellFormed(a) && WellFormed(b)
    case Group(a) => WellFormed(a)
    case Look(a, _, _) => WellFormed(a)
    case Quantified(a, min, max, _) => WellFormed(a) && min <= max <= INT32_MAX
  }

  // ---------- meaning ----------

  /** Room left in the reading direction. */
  function Room(t: Text, back: bool, pos: nat): (n: nat) {
    if back then pos else if pos <= |t.units| then |t.units| - pos else 0
  }

  /** Runs single instructions one after the other: no result, or one. */
  function Through(t: Text, ps: seq<Prim>, s: Place): (r: seq<Place>)
    ensures |r| <= 1
  {
    if ps == [] then [s]
    else if !CapturesFit(ps[0], |s.caps|) then []
    else match Perform(t, ps[0], s)
      case Stop => []
      case Go(s') => Through(t, ps[1..], s')
  }

  function ThroughAll(t: Text, ps: seq<Prim>, ss: seq<Place>): (r: seq<Place>) {
    if ss == [] then [] else Through(t, ps, ss[0]) + ThroughAll(t, ps, ss[1..])
  }

  /** A single character; backwards, it is read between two steps back. */
  function OnePrims(p: Prim, back: bool): (ps: seq<Prim>) { if back then [Prev, p, Prev] else [p] }

  function ReferencePrim(k: nat, back: bool): (p: Prim) { if back then BackwardBackReference(k) else BackReference(k) }

  function OpenPrim(k: nat, back: bool): (p: Prim) { if back then SaveEnd(k) else SaveStart(k) }
  function ClosePrim(k: nat, back: bool): (p: Prim) { if back then SaveStart(k) else SaveEnd(k) }

  /** The instruction that forgets the captures of a loop that may run zero times. */
  function ResetPrims(n: Node, min: nat, base: nat): (ps: seq<Prim>) {
    if min == 0 && Groups(n) > 0 then [SaveReset(base, base + Groups(n) - 1)] else []
  }

  /** The places `n` leads to from `s`; its groups are numbered from `base`. */
  function Results(t: Text, n: Node, back: bool, base: nat, s: Place): (r: seq<Place>)
    decreases n, 0
  {
    match n
    case Empty => [s]
    case One(p) => Through(t, OnePrims(p, back), s)
    case Assertion(p) => Through(t, [p], s)
    case Reference(k) => Through(t, [ReferencePrim(k, back)], s)
    case Sequence(a, b) =>
      if back then ResultsAll(t, a, back, base, Results(t, b, back, base + Groups(a), s))
      else ResultsAll(t, b, back, base + Groups(a), Results(t, a, back, base, s))
    case Choice(a, b) => Results(t, a, back, base, s) + Results(t, b, back, base + Groups(a), s)
    case Group(a) => ThroughAll(t, [ClosePrim(base, back)],
                                ResultsAll(t, a, back, base + 1, Through(t, [OpenPrim(base, back)], s)))
    case Look(a, behind, negative) => LookResults(Results(t, a, behind, base, s), negative, s)
    case Quantified(a, min, max, greedy) => RepAll(t, a, back, base, min, max, greedy,
                                                   Through(t, ResetPrims(a, min, base), s))
  }

  function ResultsAll(t: Text, n: Node, back: bool, base: nat, ss: seq<Place>): (r: seq<Place>)
    decreases n, 1, |ss|
  {
    if ss == [] then [] else Results(t, n, back, base, ss[0]) + ResultsAll(t, n, back, base, ss[1..])
  }

  /** A lookaround moves nowhere; a positive one keeps the captures of its first result. */
  function LookResults(inner: seq<Place>, negative: bool, s: Place): (r: seq<Place>) {
    if negative then (if inner == [] then [s] else [])
    else if inner == [] then [] else [Place(s.pos, inner[0].caps)]
  }

  predicate Unlimited(max: nat) { max >= INT32_MAX }

  function Less(max: nat): (r: nat)
    requires max > 0
  {
    if Unlimited(max) then max else max - 1
  }

  /** What bounds the optional iterations still to come. */
  function RepRoom(t: Text, back: bool, max: nat, pos: nat): (n: nat) {
    if Unlimited(max) then Room(t, back, pos) else max
  }

  /** Between `min` and `max` iterations of `n`. */
  function Rep(t: Text, n: Node, back: bool, base: nat, min: nat, max: nat, greedy: bool, s: Place): (r: seq<Place>)
    decreases n, 1, min, RepRoom(t, back, max, s.pos), 1, 0
  {
    if max == 0 then [s]
    else if min > 0 then RepAll(t, n, back, base, min - 1, Less(max), greedy, Results(t, n, back, base, s))
    else
      var more := Again(t, n, back, base, max, greedy, s.pos, Results(t, n, back, base, s));
      if greedy then more + [s] else [s] + more
  }

  function RepAll(t: Text, n: Node, back: bool, base: nat, min: nat, max: nat, greedy: bool,
                  ss: seq<Place>): (r: seq<Place>)
    decreases n, 1, min + 1, 0, 0, |ss|
  {
    if ss == [] then []
    else Rep(t, n, back, base, min, max, greedy, ss[0]) + RepAll(t, n, back, base, min, max, greedy, ss[1..])
  }

  /** After one optional iteration from position `origin`: in an unlimited loop, one that has not moved leaves. */
  function Again(t: Text, n: Node, back: bool, base: nat, max: nat, greedy: bool, origin: nat,
                 ss: seq<Place>): (r: seq<Place>)
    requires max > 0
    decreases n, 1, 0, RepRoom(t, back, max, origin), 0, |ss|
  {
    if ss == [] then []
    else
      var first := if Unlimited(max) && Room(t, back, ss[0].pos) >= Room(t, back, origin) then [ss[0]]
                   else Rep(t, n, back, base, 0, Less(max), greedy, ss[0]);
      first + Again(t, n, back, base, max, greedy, origin, ss[1..])
  }

  // ---------- movement ----------

  /** Not inside a surrogate pair. */
  predicate Boundary(t: Text, pos: nat) { pos <= |t.units| && !PairAt(t, pos - 1) }

  /** How many marks a machine has for its captures, and whether a run may stand inside a surrogate pair. */
  datatype Frame = Frame(marks: nat, loose: bool)

  /** A place with all its marks, standing between two characters unless any place is allowed. */
  predicate Sane(t: Text, s: Place, frame: Frame) {
    s.pos <= |t.units| && |s.caps| == frame.marks && (frame.loose || Boundary(t, s.pos))
  }

  /** `s` came from `pos` reading in the given direction. */
  predicate Moved(t: Text, back: bool, pos: nat, s: Place, frame: Frame, strictly: bool) {
    && Sane(t, s, frame) && Room(t, back, s.pos) <= Room(t, back, pos)
    && (strictly ==> Room(t, back, s.pos) < Room(t, back, pos))
  }

  predicate AllMoved(t: Text, back: bool, pos: nat, ss: seq<Place>, frame: Frame, strictly: bool) {
    forall i :: 0 <= i < |ss| ==> Moved(t, back, pos, ss[i], frame, strictly)
  }

  /** Patterns that cannot match without consuming something. */
  predicate MustAdvance(n: Node) {
    match n
    case One(_) => true
    case Sequence(a, b) => MustAdvance(a) || MustAdvance(b)
    case Choice(a, b) => MustAdvance(a) && MustAdvance(b)
    case Group(a) => MustAdvance(a)
    case Quantified(a, min, _, _) => min > 0 && MustAdvance(a)
    case _ => false
  }

  lemma {:induction false} GetCharMoves(t: Text, pos: nat)
    requires Boundary(t, pos) && pos < |t.units|
    ensures var next := GetChar(t, pos, |t.units|).1; Boundary(t, next) && PrevPos(t, next) == pos
  {
  }

  /** Stepping back always leads between two characters, and over a character just read to its start or before it. */
  lemma {:induction false} PrevMoves(t: Text, pos: nat)
    requires pos <= |t.units|
    ensures pos > 0 ==> Boundary(t, PrevPos(t, pos))
    ensures pos < |t.units| ==> PrevPos(t, GetChar(t, pos, |t.units|).1) <= pos
  {
  }

  lemma {:induction false} RepeatMoves(t: Text, start: nat, end: nat, pos: nat)
    requires Boundary(t, pos)
    ensures var r := Repeat(t, start, end, pos); r.MarkAt? ==> Boundary(t, r.pos)
    decreases if start <= end then end - start else 0
  {
    if start < end && pos < |t.units| {
      GetCharMoves(t, pos);
      RepeatMoves(t, GetChar(t, start, end).1, end, GetChar(t, pos, |t.units|).1);
    }
  }

  lemma {:induction false} RepeatBackwardMoves(t: Text, start: nat, end: nat, pos: nat)
    requires Boundary(t, pos)
    ensures var r := RepeatBackward(t, start, end, pos); r.MarkAt? ==> Boundary(t, r.pos)
    decreases end
  {
    if start < end && pos > 0 {
      PrevMoves(t, pos);
      RepeatBackwardMoves(t, start, GetPrevChar(t, end, start).1, GetPrevChar(t, pos, 0).1);
    }
  }

  lemma {:induction false} BackRefMoves(t: Text, k: nat, back: bool, s: Place, frame: Frame)
    requires Sane(t, s, frame)
    ensures AllMoved(t, back, s.pos, Through(t, [ReferencePrim(k, back)], s), frame, false)
  {
    if 2 * k + 1 < |s.caps| {
      var a, b := s.caps[2 * k], s.caps[2 * k + 1];
      if a.MarkAt? && b.MarkAt? && !frame.loose {
        RepeatMoves(t, a.pos, b.pos, s.pos);
        RepeatBackwardMoves(t, a.pos, b.pos, s.pos);
      }
    }
    OneThrough(t, ReferencePrim(k, back), s);
  }

  /** A single instruction, spelled out. */
  lemma {:induction false} OneThrough(t: Text, p: Prim, s: Place)
    requires CapturesFit(p, |s.caps|)
    ensures var m := Perform(t, p, s); Through(t, [p], s) == if m.Go? then [m.s] else []
  {
    hide Perform;
    var m := Perform(t, p, s);
    if m.Go? { assert Through(t, [], m.s) == [m.s]; assert [p][1..] == []; }
  }

  lemma {:induction false} ThroughSplit(t: Text, p: Prim, ps: seq<Prim>, s: Place)
    requires CapturesFit(p, |s.caps|)
    ensures var m := Perform(t, p, s); Through(t, [p] + ps, s) == if m.Go? then Through(t, ps, m.s) else []
  {
    hide Perform;
    assert ([p] + ps)[1..] == ps;
  }

  lemma {:induction false} OneMoves(t: Text, p: Prim, back: bool, s: Place, frame: Frame)
    requires Consumes(p) && Sane(t, s, frame)
    ensures AllMoved(t, back, s.pos, Through(t, OnePrims(p, back), s), frame, true)
  {
    if back {
      OneBackMoves(t, p, s, frame);
    } else {
      OneThrough(t, p, s);
      if s.pos < |t.units| && !frame.loose { GetCharMoves(t, s.pos); }
    }
  }

  lemma {:induction false} OneBackMoves(t: Text, p: Prim, s: Place, frame: Frame)
    requires Consumes(p) && Sane(t, s, frame)
    ensures AllMoved(t, true, s.pos, Through(t, [Prev, p, Prev], s), frame, true)
  {
    hide Boundary, Through, Accepts, GetChar, PairAt;
    ThroughSplit(t, Prev, [p, Prev], s);
    assert [Prev] + [p, Prev] == [Prev, p, Prev] && [p] + [Prev] == [p, Prev];
    if s.pos > 0 {
      PrevMoves(t, s.pos);
      var s1 := s.(pos := PrevPos(t, s.pos));
      ThroughSplit(t, p, [Prev], s1);
      var m := Perform(t, p, s1);
      if m.Go? {
        PrevMoves(t, s1.pos);
        PrevMoves(t, m.s.pos);
        OneThrough(t, Prev, m.s);
      }
    }
  }

  lemma {:induction false} ThroughAllMoves(t: Text, p: Prim, back: bool, pos: nat, ss: seq<Place>, frame: Frame,
                                           strictly: bool)
    requires (p.SaveStart? || p.SaveEnd?) && AllMoved(t, back, pos, ss, frame, strictly)
    ensures AllMoved(t, back, pos, ThroughAll(t, [p], ss), frame, strictly)
    decreases ss
  {
    if ss != [] {
      if CapturesFit(p, |ss[0].caps|) { OneThrough(t, p, ss[0]); }
      ThroughAllMoves(t, p, back, pos, ss[1..], frame, strictly);
    }
  }

  lemma {:induction false} SaveMoves(t: Text, p: Prim, back: bool, s: Place, frame: Frame)
    requires (p.SaveStart? || p.SaveEnd?) && Sane(t, s, frame)
    ensures AllMoved(t, back, s.pos, Through(t, [p], s), frame, false)
  {
    if CapturesFit(p, |s.caps|) { OneThrough(t, p, s); }
  }

  /** Every result lies further on in the reading direction, strictly so for patterns that must advance. */
  lemma {:induction false} ResultsMove(t: Text, n: Node, back: bool, base: nat, s: Place, frame: Frame)
    requires WellFormed(n) && Sane(t, s, frame)
    ensures AllMoved(t, back, s.pos, Results(t, n, back, base, s), frame, MustAdvance(n))
    decreases n, 1
  {
    hide Perform, AllMoved, Sane, Through, ThroughAll, ResultsAll, RepAll, LookResults;
    match n
    case Empty => StaysMoved(t, back, s, frame);
    case One(p) => OneMoves(t, p, back, s, frame);
    case Assertion(p) => AssertionMoves(t, p, back, s, frame);
    case Reference(k) => BackRefMoves(t, k, back, s, frame);
    case Sequence(a, b) =>
      var first, second := if back then b else a, if back then a else b;
      var base1, base2 := if back then base + Groups(a) else base, if back then base else base + Groups(a);
      ThenMoves(t, n, first, second, back, base1, base2, s, frame);
    case Choice(a, b) =>
      ResultsMove(t, a, back, base, s, frame);
      ResultsMove(t, b, back, base + Groups(a), s, frame);
      EitherMoved(t, back, s.pos, Results(t, a, back, base, s), Results(t, b, back, base + Groups(a), s), frame,
                  MustAdvance(a), MustAdvance(b));
    case Group(a) => GroupMoves(t, a, back, base, s, frame);
    case Look(a, behind, negative) =>
      ResultsMove(t, a, behind, base, s, frame);
      LookMoves(t, behind, back, Results(t, a, behind, base, s), negative, s, frame, MustAdvance(a));
    case Quantified(a, min, max, greedy) =>
      ResetMoves(t, a, min, base, back, s, frame);
      RepAllMove(t, a, back, base, min, max, greedy, s.pos, Through(t, ResetPrims(a, min, base), s), frame, false);
  }

  lemma {:induction false} ThenMoves(t: Text, n: Node, a: Node, b: Node, back: bool, base1: nat, base2: nat, s: Place,
                                     frame: Frame)
    requires n.Sequence? && (n == Sequence(a, b) || n == Sequence(b, a)) && WellFormed(n) && Sane(t, s, frame)
    ensures AllMoved(t, back, s.pos, ResultsAll(t, b, back, base2, Results(t, a, back, base1, s)), frame, MustAdvance(a)
                     || MustAdvance(b))
    decreases n, 0
  {
    hide Perform, Boundary, Room, ResultsAll, Results;
    ResultsMove(t, a, back, base1, s, frame);
    ResultsAllMove(t, b, back, base2, s.pos, Results(t, a, back, base1, s), frame, MustAdvance(a));
  }

  lemma {:induction false} GroupMoves(t: Text, a: Node, back: bool, base: nat, s: Place, frame: Frame)
    requires WellFormed(a) && Sane(t, s, frame)
    ensures AllMoved(t, back, s.pos, Results(t, Group(a), back, base, s), frame, MustAdvance(a))
    decreases a, 3
  {
    hide Perform, Boundary, Room, Through, ThroughAll, ResultsAll;
    SaveMoves(t, OpenPrim(base, back), back, s, frame);
    var ss := Through(t, [OpenPrim(base, back)], s);
    ResultsAllMove(t, a, back, base + 1, s.pos, ss, frame, false);
    ThroughAllMoves(t, ClosePrim(base, back), back, s.pos, ResultsAll(t, a, back, base + 1, ss), frame, MustAdvance(a));
  }

  lemma {:induction false} StaysMoved(t: Text, back: bool, s: Place, frame: Frame)
    requires Sane(t, s, frame)
    ensures AllMoved(t, back, s.pos, [s], frame, false)
  {
  }

  lemma {:induction false} PlaceMoved(t: Text, back: bool, s: Place, caps: seq<Mark>, frame: Frame)
    requires Sane(t, s, frame) && |caps| == frame.marks
    ensures AllMoved(t, back, s.pos, [s.(caps := caps)], frame, false)
  {
  }

  lemma {:induction false} EitherMoved(t: Text, back: bool, pos: nat, a: seq<Place>, b: seq<Place>, frame: Frame,
                                       x: bool, y: bool)
    requires AllMoved(t, back, pos, a, frame, x) && AllMoved(t, back, pos, b, frame, y)
    ensures AllMoved(t, back, pos, a + b, frame, x && y)
  {
    hide Sane, Room;
  }

  lemma {:induction false} LookMoves(t: Text, behind: bool, back: bool, inner: seq<Place>, negative: bool, s: Place,
                                     frame: Frame, x: bool)
    requires Sane(t, s, frame) && AllMoved(t, behind, s.pos, inner, frame, x)
    ensures AllMoved(t, back, s.pos, LookResults(inner, negative, s), frame, false)
  {
    if negative {
      StaysMoved(t, back, s, frame);
    } else if inner != [] {
      assert Moved(t, behind, s.pos, inner[0], frame, x);
      PlaceMoved(t, back, s, inner[0].caps, frame);
    }
  }

  lemma {:induction false} AssertionMoves(t: Text, p: Prim, back: bool, s: Place, frame: Frame)
    requires WellFormed(Assertion(p)) && Sane(t, s, frame)
    ensures AllMoved(t, back, s.pos, Through(t, [p], s), frame, false)
  {
    OneThrough(t, p, s);
    StaysMoved(t, back, s, frame);
  }

  /** Forgetting captures moves nowhere. */
  lemma {:induction false} ResetMoves(t: Text, n: Node, min: nat, base: nat, back: bool, s: Place, frame: Frame)
    requires Sane(t, s, frame)
    ensures AllMoved(t, back, s.pos, Through(t, ResetPrims(n, min, base), s), frame, false)
  {
    var ps := ResetPrims(n, min, base);
    StaysMoved(t, back, s, frame);
    if ps != [] && CapturesFit(ps[0], |s.caps|) {
      OneThrough(t, ps[0], s);
      PlaceMoved(t, back, s, ResetCaptures(s.caps, ps[0].first, ps[0].last), frame);
    }
  }

  lemma {:induction false} ResultsAllMove(t: Text, n: Node, back: bool, base: nat, pos: nat, ss: seq<Place>,
                                          frame: Frame, strictly: bool)
    requires WellFormed(n) && AllMoved(t, back, pos, ss, frame, strictly)
    ensures AllMoved(t, back, pos, ResultsAll(t, n, back, base, ss), frame, strictly || MustAdvance(n))
    decreases n, 2, |ss|
  {
    hide Boundary;
    if ss != [] {
      ResultsMove(t, n, back, base, ss[0], frame);
      ResultsAllMove(t, n, back, base, pos, ss[1..], frame, strictly);
    }
  }

  lemma {:induction false} RepMove(t: Text, n: Node, back: bool, base: nat, min: nat, max: nat, greedy: bool, s: Place,
                                   frame: Frame)
    requires WellFormed(n) && Sane(t, s, frame) && min <= max
    ensures AllMoved(t, back, s.pos, Rep(t, n, back, base, min, max, greedy, s), frame, min > 0 && MustAdvance(n))
    decreases n, 2, min, RepRoom(t, back, max, s.pos), 1, 0
  {
    hide Boundary;
    if max > 0 {
      ResultsMove(t, n, back, base, s, frame);
      if min > 0 {
        RepAllMove(t, n, back, base, min - 1, Less(max), greedy, s.pos, Results(t, n, back, base, s), frame,
                   MustAdvance(n));
      } else {
        AgainMove(t, n, back, base, max, greedy, s.pos, Results(t, n, back, base, s), frame);
      }
    }
  }

  lemma {:induction false} RepAllMove(t: Text, n: Node, back: bool, base: nat, min: nat, max: nat, greedy: bool,
                                      pos: nat, ss: seq<Place>, frame: Frame, strictly: bool)
    requires WellFormed(n) && min <= max && AllMoved(t, back, pos, ss, frame, strictly)
    ensures AllMoved(t, back, pos, RepAll(t, n, back, base, min, max, greedy, ss), frame, strictly
                     || (min > 0 && MustAdvance(n)))
    decreases n, 2, min + 1, 0, 0, |ss|
  {
    hide Boundary, Rep;
    if ss != [] {
      RepMove(t, n, back, base, min, max, greedy, ss[0], frame);
      RepAllMove(t, n, back, base, min, max, greedy, pos, ss[1..], frame, strictly);
    }
  }

  lemma {:induction false} AgainMove(t: Text, n: Node, back: bool, base: nat, max: nat, greedy: bool, pos: nat,
                                     ss: seq<Place>, frame: Frame)
    requires WellFormed(n) && max > 0 && AllMoved(t, back, pos, ss, frame, false)
    ensures AllMoved(t, back, pos, Again(t, n, back, base, max, greedy, pos, ss), frame, false)
    decreases n, 2, 0, RepRoom(t, back, max, pos), 0, |ss|
  {
    hide Boundary, Rep;
    if ss != [] {
      if !(Unlimited(max) && Room(t, back, ss[0].pos) >= Room(t, back, pos)) {
        RepMove(t, n, back, base, 0, Less(max), greedy, ss[0], frame);
      }
      AgainMove(t, n, back, base, max, greedy, pos, ss[1..], frame);
    }
  }
}
