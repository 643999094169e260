/** The one-instruction loop for straight-line bodies visits the same places, in the same order, as the
    general greedy loop. */
module RegexpSimple {
  import opened RegexpCode
  import opened RegexpText
  import opened RegexpSearch
  import opened RegexpSyntax
  import opened RegexpCompile
  import opened RegexpRules

  // ---------- straight-line patterns ----------

  function Prims(prog: seq<Instr>): (ps: seq<Prim>)
    requires SimpleCount(prog) >= 0
  {
    if prog == [] then [] else [prog[0].p] + Prims(prog[1..])
  }

  function CharCount(ps: seq<Prim>): (n: nat) {
    if ps == [] then 0 else (if Consumes(ps[0]) then 1 else 0) + CharCount(ps[1..])
  }

  predicate AllSimple(ps: seq<Prim>) { forall i :: 0 <= i < |ps| ==> IsSimple(ps[i]) }

  lemma {:induction false} PrimsSimple(prog: seq<Instr>)
    requires SimpleCount(prog) >= 0
    ensures AllSimple(Prims(prog)) && CharCount(Prims(prog)) == SimpleCount(prog)
  {
    if prog != [] { PrimsSimple(prog[1..]); }
  }

  lemma {:induction false} SimpleConcat(a: seq<Instr>, b: seq<Instr>)
    requires SimpleCount(a + b) >= 0
    ensures SimpleCount(a) >= 0 && SimpleCount(b) >= 0 && Prims(a + b) == Prims(a) + Prims(b)
  {
    hide IsSimple, Consumes;
    if a == [] {
      assert a + b == b;
    } else {
      var t, i := a[1..], a[0];
      assert (a + b)[1..] == t + b && (a + b)[0] == i;
      assert SimpleCount(t + b) >= 0;
      SimpleConcat(t, b);
      assert Prims(a + b) == [i.p] + Prims(t + b);
      assert Prims(a) == [i.p] + Prims(t);
    }
  }

  lemma {:induction false} NotSimple(i: Instr, rest: seq<Instr>, prog: seq<Instr>)
    requires !(i.Do? && IsSimple(i.p)) && prog == [i] + rest
    ensures SimpleCount(prog) == -1
  {
  }

  lemma {:induction false} ThroughConcat(t: Text, a: seq<Prim>, b: seq<Prim>, s: Place)
    ensures Through(t, a + b, s) == ThroughAll(t, b, Through(t, a, s))
    decreases a
  {
    hide Perform;
    if a == [] {
      assert a + b == b && [s][1..] == [];
      assert ThroughAll(t, b, [s]) == Through(t, b, s) + ThroughAll(t, b, []);
    } else {
      assert (a + b)[0] == a[0] && (a + b)[1..] == a[1..] + b;
      if CapturesFit(a[0], |s.caps|) {
        var m := Perform(t, a[0], s);
        if m.Go? { ThroughConcat(t, a[1..], b, m.s); }
      }
    }
  }

  /** `n` leads where its straight-line code leads. */
  ghost predicate RunsStraight(t: Text, n: Node, back: bool, base: nat, s: Place)
    requires WellFormed(n)
  {
    var prog := Compile(n, back, base);
    SimpleCount(prog) >= 0 ==> Results(t, n, back, base, s) == Through(t, Prims(prog), s)
  }

  /** Straight-line code comes from a pattern with at most one result, found by running the code. */
  lemma {:induction false} SimpleResults(t: Text, n: Node, back: bool, base: nat, s: Place)
    requires WellFormed(n)
    ensures RunsStraight(t, n, back, base, s)
    decreases n, 1
  {
    hide Through, SimpleCount, Prims, Compile, Results;
    if n.Sequence? {
      var a, b := n.first, n.second;
      if back {
        SimpleThen(t, n, b, a, back, base + Groups(a), base, s);
      } else {
        SimpleThen(t, n, a, b, back, base, base + Groups(a), s);
      }
      SequenceListed(t, n, back, base, s);
    } else if n.Quantified? {
      SimpleQuantified(t, n, back, base, s);
    } else if n.Empty? || n.One? || n.Assertion? {
      SimpleLeaf(t, n, back, base, s);
    } else {
      NeverSimple(n, back, base);
    }
  }

  lemma {:induction false} SequenceListed(t: Text, n: Node, back: bool, base: nat, s: Place)
    requires n.Sequence? && WellFormed(n)
    ensures var a, b, base2 := n.first, n.second, base + Groups(n.first);
            && Compile(n, back, base) == (if back then Compile(b, back, base2) + Compile(a, back, base)
                                          else Compile(a, back, base) + Compile(b, back, base2))
            && Results(t, n, back, base, s) == (if back then ResultsAll(t, a, back, base, Results(t, b, back, base2, s))
                                                else ResultsAll(t, b, back, base2, Results(t, a, back, base, s)))
  {
    hide Through, ThroughAll, ResultsAll, RepAll, LookResults, LoopCode, LookCode, ChoiceCode, DoAll;
  }

  lemma {:induction false} SimpleLeaf(t: Text, n: Node, back: bool, base: nat, s: Place)
    requires WellFormed(n) && (n.Empty? || n.One? || n.Assertion?)
    ensures RunsStraight(t, n, back, base, s)
  {
    hide Through, SimpleCount, Prims, DoAll;
    match n
    case Empty => NoPrims();
    case One(p) => OneIsSimple(p, back);
    case Assertion(p) => PrimIsSimple(p);
  }

  lemma {:induction false} NeverSimple(n: Node, back: bool, base: nat)
    requires WellFormed(n) && (n.Reference? || n.Choice? || n.Group? || n.Look?)
    ensures SimpleCount(Compile(n, back, base)) == -1
  {
    hide SimpleCount, ChoiceCode, LookCode, LoopCode, DoAll;
    match n
    case Reference(k) => NotSimple(Do(ReferencePrim(k, back)), [], Compile(n, back, base));
    case Choice(a, b) => ChoiceNotSimple(Compile(a, back, base), Compile(b, back, base + Groups(a)));
    case Group(a) => GroupNotSimple(OpenPrim(base, back), Compile(a, back, base + 1), ClosePrim(base, back));
    case Look(a, behind, negative) => LookNotSimple(Compile(a, behind, base), negative);
  }

  lemma {:induction false} ChoiceNotSimple(a: seq<Instr>, b: seq<Instr>)
    ensures SimpleCount(ChoiceCode(a, b)) == -1
  {
    NotSimple(SplitNextFirst(SizeAll(a) + 5), a + [Goto(SizeAll(b))] + b, ChoiceCode(a, b));
  }

  lemma {:induction false} GroupNotSimple(open: Prim, a: seq<Instr>, close: Prim)
    requires !IsSimple(open)
    ensures SimpleCount([Do(open)] + a + [Do(close)]) == -1
  {
    NotSimple(Do(open), a + [Do(close)], [Do(open)] + a + [Do(close)]);
  }

  lemma {:induction false} LookNotSimple(a: seq<Instr>, negative: bool)
    ensures SimpleCount(LookCode(a, negative)) == -1
  {
    NotSimple(LookCode(a, negative)[0], a + [Match], LookCode(a, negative));
  }

  lemma {:induction false} NoPrims()
    ensures SimpleCount([]) == 0 && Prims([]) == []
    ensures forall t, s :: Through(t, [], s) == [s]
  {
  }

  lemma {:induction false} PrimIsSimple(p: Prim)
    requires IsSimple(p)
    ensures SimpleCount([Do(p)]) >= 0 && Prims([Do(p)]) == [p]
  {
    NoPrims();
    assert [Do(p)][1..] == [];
  }

  lemma {:induction false} OneIsSimple(p: Prim, back: bool)
    requires Consumes(p)
    ensures var prog := DoAll(OnePrims(p, back));
            if back then SimpleCount(prog) == -1 else SimpleCount(prog) >= 0 && Prims(prog) == [p]
  {
    hide SimpleCount;
    if back {
      NotSimple(Do(Prev), DoAll([p, Prev]), DoAll([Prev, p, Prev]));
    } else {
      assert [p][1..] == [] && DoAll([]) == [];
      assert DoAll([p]) == [Do(p)];
      PrimIsSimple(p);
    }
  }

  lemma {:induction false} SimpleThen(t: Text, n: Node, a: Node, b: Node, back: bool, base1: nat, base2: nat, s: Place)
    requires (n == Sequence(a, b) || n == Sequence(b, a)) && WellFormed(n)
    ensures var prog := Compile(a, back, base1) + Compile(b, back, base2);
            SimpleCount(prog) >= 0 ==> ResultsAll(t, b, back, base2, Results(t, a, back, base1, s)) == Through(t,
                 Prims(prog), s)
    decreases n, 0
  {
    hide Through, ThroughAll, SimpleCount, Compile, Results, Prims;
    var ca, cb := Compile(a, back, base1), Compile(b, back, base2);
    if SimpleCount(ca + cb) >= 0 {
      SimpleConcat(ca, cb);
      SimpleResults(t, a, back, base1, s);
      ThroughConcat(t, Prims(ca), Prims(cb), s);
      var ss := Through(t, Prims(ca), s);
      if ss == [] {
        ThroughNone(t, Prims(cb));
      } else {
        assert ss == [ss[0]] && ss[1..] == [];
        SimpleResults(t, b, back, base2, ss[0]);
        ThroughLone(t, Prims(cb), ss[0]);
        assert ResultsAll(t, b, back, base2, ss)
               == Results(t, b, back, base2, ss[0]) + ResultsAll(t, b, back, base2, []);
      }
    }
  }

  lemma {:induction false} ThroughNone(t: Text, ps: seq<Prim>)
    ensures ThroughAll(t, ps, []) == []
  {
  }

  lemma {:induction false} ThroughLone(t: Text, ps: seq<Prim>, s: Place)
    ensures ThroughAll(t, ps, [s]) == Through(t, ps, s)
  {
    ThroughNone(t, ps);
    assert [s][1..] == [];
  }

  lemma {:induction false} SuffixNotSimple(a: seq<Instr>, b: seq<Instr>)
    requires SimpleCount(b) == -1
    ensures SimpleCount(a + b) == -1
  {
    hide SimpleCount;
    if SimpleCount(a + b) >= 0 { SimpleConcat(a, b); }
  }

  /** Loops whose code is their body's, or none. */
  predicate IsPlain(a: seq<Instr>, resets: seq<Prim>, min: nat, max: nat, greedy: bool) {
    !UsesSimpleLoop(a, max, greedy) && ((max == 0 && resets == []) || (min == 1 && max == 1))
  }

  lemma {:induction false} StarNotSimple(a: seq<Instr>, greedy: bool, check: bool)
    ensures SimpleCount(StarCode(a, greedy, check)) == -1
  {
    var prog := StarCode(a, greedy, check);
    NotSimple(prog[0], prog[1..], prog);
  }

  lemma {:induction false} UpToNotSimple(a: seq<Instr>, greedy: bool, m: nat)
    ensures SimpleCount(UpToCode(a, greedy, m)) == -1
  {
    var prog := UpToCode(a, greedy, m);
    NotSimple(prog[0], prog[1..], prog);
  }

  /** Optional iterations are a loop, or none. */
  lemma {:induction false} RestNotSimple(a: seq<Instr>, greedy: bool, check: bool, min: nat, max: nat)
    requires min <= max
    ensures RestCode(a, greedy, check, min, max) == [] || SimpleCount(RestCode(a, greedy, check, min, max)) == -1
    ensures max == INT32_MAX || max > min ==> SimpleCount(RestCode(a, greedy, check, min, max)) == -1
  {
    hide SimpleCount, StarCode, UpToCode;
    if max == INT32_MAX { StarNotSimple(a, greedy, check); }
    else if max > min { UpToNotSimple(a, greedy, max - min); }
  }

  lemma {:induction false} FirstNotSimple(prog: seq<Instr>, rest: seq<Instr>)
    requires prog != [] && !(prog[0].Do? && IsSimple(prog[0].p))
    ensures SimpleCount(prog + rest) == -1
  {
    NotSimple(prog[0], prog[1..] + rest, prog + rest);
  }

  lemma {:induction false} OptionalNotSimple(a: seq<Instr>, resets: seq<Prim>, max: nat, greedy: bool)
    requires !UsesSimpleLoop(a, max, greedy) && (forall i :: 0 <= i < |resets| ==> resets[i].SaveReset?)
             && !(max == 0 && resets == [])
    ensures SimpleCount(LoopCode(a, resets, 0, max, greedy)) == -1
  {
    hide SimpleCount, CheckAdvance, StarCode, UpToCode;
    var check := UsesCheck(a, greedy);
    var body := if max == 0 then [] else if max == 1 then [Split(greedy, SizeAll(a))] + a
                else if max == INT32_MAX then StarCode(a, greedy, check) else UpToCode(a, greedy, max);
    if resets == [] {
      assert DoAll(resets) + body == body;
      if max == 1 { NotSimple(body[0], a, body); }
      else if max == INT32_MAX { StarNotSimple(a, greedy, check); }
      else { UpToNotSimple(a, greedy, max); }
    } else {
      FirstNotSimple(DoAll(resets), body);
    }
  }

  lemma {:induction false} LoopNotSimple(a: seq<Instr>, resets: seq<Prim>, min: nat, max: nat, greedy: bool)
    requires min <= max && (forall i :: 0 <= i < |resets| ==> resets[i].SaveReset?)
    ensures if IsPlain(a, resets, min, max, greedy) then LoopCode(a, resets, min, max,
                                                                  greedy) == (if max == 0 then [] else a)
            else SimpleCount(LoopCode(a, resets, min, max, greedy)) == -1
  {
    hide SimpleCount, CheckAdvance, RestCode;
    var check, prog := UsesCheck(a, greedy), LoopCode(a, resets, min, max, greedy);
    if UsesSimpleLoop(a, max, greedy) {
      NotSimple(prog[0], prog[1..], prog);
    } else if min == 0 {
      if max == 0 && resets == [] { assert DoAll(resets) == []; } else { OptionalNotSimple(a, resets, max, greedy); }
    } else if min == 1 && max == INT32_MAX && !check {
      var i := Split(!greedy, -(SizeAll(a) as int) - 5);
      NotSimple(i, [], [i]);
      SuffixNotSimple(a, [i]);
    } else {
      var rest := RestCode(a, greedy, check, min, max);
      RestNotSimple(a, greedy, check, min, max);
      if min > 1 { FirstNotSimple(TimesCode(a, min), rest); }
      else if max > 1 { SuffixNotSimple(a, rest); }
      else { NoRest(a, greedy, check); }
    }
  }

  lemma {:induction false} NoRest(a: seq<Instr>, greedy: bool, check: bool)
    ensures RestCode(a, greedy, check, 1, 1) == []
  {
  }

  lemma {:induction false} RepNothing(t: Text, n: Node, back: bool, base: nat, greedy: bool, ss: seq<Place>)
    ensures RepAll(t, n, back, base, 0, 0, greedy, ss) == ss
    decreases ss
  {
    hide Results;
    if ss != [] { RepNothing(t, n, back, base, greedy, ss[1..]); }
  }

  lemma {:induction false} PlainResults(t: Text, n: Node, back: bool, base: nat, min: nat, max: nat, greedy: bool,
                                        s: Place)
    requires max == 0 == min || (min == 1 && max == 1)
    ensures RepAll(t, n, back, base, min, max, greedy, [s]) == if max == 0 then [s] else Results(t, n, back, base, s)
  {
    hide Results;
    assert [s][1..] == [];
    RepNothing(t, n, back, base, greedy, Results(t, n, back, base, s));
    assert RepAll(t, n, back, base, min, max, greedy, []) == [];
  }

  /** The only quantified patterns with straight-line code are `{0}` without captures and `{1}`. */
  lemma {:induction false} SimpleQuantified(t: Text, n: Node, back: bool, base: nat, s: Place)
    requires n.Quantified? && WellFormed(n)
    ensures RunsStraight(t, n, back, base, s)
    decreases n, 0
  {
    hide Through, SimpleCount, Prims, CheckAdvance, LoopCode, RepAll;
    var a, min, max, greedy := n.body, n.min, n.max, n.greedy;
    var ca, resets := Compile(a, back, base), ResetPrims(a, min, base);
    LoopNotSimple(ca, resets, min, max, greedy);
    if IsPlain(ca, resets, min, max, greedy) {
      NoPrims();
      if max == 1 { SimpleResults(t, a, back, base, s); }
      PlainResults(t, a, back, base, min, max, greedy, s);
    }
  }

  // ---------- running the body ----------

  lemma {:induction false} SimpleFits(p: Prim, marks: nat)
    requires IsSimple(p)
    ensures CapturesFit(p, marks)
  {
  }

  lemma {:induction false} SimplePerform(t: Text, p: Prim, s: Place)
    requires IsSimple(p) && Boundary(t, s.pos)
    ensures CapturesFit(p, |s.caps|)
    ensures var m := Perform(t, p, s);
            m.Go? ==> m.s.caps == s.caps && Boundary(t, m.s.pos)
                      && if Consumes(p) then m.s.pos > s.pos && PrevPos(t, m.s.pos) == s.pos else m.s == s
  {
    if Consumes(p) && s.pos < |t.units| { GetCharMoves(t, s.pos); }
  }

  lemma {:induction false} StepBackOne(t: Text, pos: nat, n: nat)
    ensures var q := StepBack(t, pos, n); StepBack(t, pos, n + 1) == if q == 0 then 0 else PrevPos(t, q)
    decreases n
  {
    if n > 0 && pos > 0 { StepBackOne(t, PrevPos(t, pos), n - 1); }
    else if pos > 0 { assert StepBack(t, PrevPos(t, pos), 0) == PrevPos(t, pos); }
  }

  /** Stepping back over the characters of the body undoes running it. */
  lemma {:induction false} StraightBack(t: Text, ps: seq<Prim>, s: Place)
    requires AllSimple(ps) && Boundary(t, s.pos)
    ensures var r := Through(t, ps, s);
            r != [] ==> r[0].caps == s.caps && Boundary(t, r[0].pos) && r[0].pos >= s.pos
                        && StepBack(t, r[0].pos, CharCount(ps)) == s.pos && (CharCount(ps) > 0 ==> r[0].pos > s.pos)
    decreases ps
  {
    hide Perform, Boundary;
    if ps != [] {
      SimplePerform(t, ps[0], s);
      var m := Perform(t, ps[0], s);
      if m.Go? {
        StraightBack(t, ps[1..], m.s);
        var r := Through(t, ps[1..], m.s);
        if r != [] { StepBackOne(t, r[0].pos, CharCount(ps[1..])); }
      }
    }
  }

  lemma {:induction false} PrimsStep(a: seq<Instr>)
    requires a != [] && SimpleCount(a) >= 0
    ensures a[0].Do? && IsSimple(a[0].p) && SimpleCount(a[1..]) >= 0 && Prims(a) == [a[0].p] + Prims(a[1..])
  {
  }

  lemma {:induction false} RunsBody(e: Env, pc: int, a: seq<Instr>, s: Place)
    requires SimpleCount(a) >= 0 && Loaded(e, pc, a + [Match])
    ensures var r := Through(e.t, Prims(a), s);
            RunStraight(e.t, e.code, pc, s) == if r == [] then Miss else Hit(r[0].pos)
    decreases a
  {
    hide Perform, Fetch, Loaded, Size, Consumes, Through, SimpleCount, Prims;
    NoPrims();
    PcNonNegative(e, pc, a + [Match]);
    if a == [] {
      assert a + [Match] == [Match];
      LoadedOne(e, pc, Match);
    } else {
      PrimsStep(a);
      var p, rest := a[0].p, a[1..];
      assert a + [Match] == [Do(p)] + (rest + [Match]);
      LoadedFirst(e, pc, Do(p), rest + [Match]);
      SimpleFits(p, |s.caps|);
      ThroughSplit(e.t, p, Prims(rest), s);
      var m := Perform(e.t, p, s);
      if m.Go? { RunsBody(e, pc + Size(Do(p)), rest, m.s); }
    }
  }

  // ---------- the chain of repetitions ----------

  /** The places after 0, 1, 2, ... repetitions of a body that advances. */
  function Chain(t: Text, ps: seq<Prim>, back: bool, s: Place, max: nat): (c: seq<Place>)
    ensures |c| >= 1 && c[0] == s
    decreases RepRoom(t, back, max, s.pos)
  {
    var r := Through(t, ps, s);
    if max == 0 || r == [] || (Unlimited(max) && Room(t, back, r[0].pos) >= Room(t, back, s.pos)) then [s]
    else [s] + Chain(t, ps, back, r[0], Less(max))
  }

  function Backwards(c: seq<Place>): (r: seq<Place>) {
    if c == [] then [] else [c[|c| - 1]] + Backwards(c[..|c| - 1])
  }

  lemma {:induction false} BackwardsFirst(s: Place, c: seq<Place>)
    ensures Backwards([s] + c) == Backwards(c) + [s]
    decreases |c|
  {
    var d := [s] + c;
    if c == [] {
      assert d[..|d| - 1] == [];
    } else {
      assert d[..|d| - 1] == [s] + c[..|c| - 1];
      BackwardsFirst(s, c[..|c| - 1]);
    }
  }

  /** The body of a simple loop. */
  ghost predicate IsBody(e: Env, n: Node, back: bool, base: nat, pc: int) {
    && WellFormed(n) && SimpleCount(Compile(n, back, base)) > 0 && Loaded(e, pc, Compile(n, back, base) + [Match])
  }

  ghost function BodyPrims(n: Node, back: bool, base: nat): seq<Prim>
    requires WellFormed(n) && SimpleCount(Compile(n, back, base)) > 0
  {
    Prims(Compile(n, back, base))
  }

  /** One repetition of the body, in all its descriptions. */
  lemma {:induction false} BodyOnce(e: Env, n: Node, back: bool, base: nat, pc: int, s: Place)
    requires IsBody(e, n, back, base, pc) && Boundary(e.t, s.pos)
    ensures var r := Through(e.t, BodyPrims(n, back, base), s);
            && Results(e.t, n, back, base, s) == r
            && RunStraight(e.t, e.code, pc, s) == (if r == [] then Miss else Hit(r[0].pos))
            && (r != [] ==> r == [Place(r[0].pos, s.caps)] && Boundary(e.t, r[0].pos)
                            && Room(e.t, back, r[0].pos) < Room(e.t, back, s.pos)
                            && StepBack(e.t, r[0].pos, SimpleCount(Compile(n, back, base))) == s.pos)
  {
    hide Through, Results, RunStraight, Loaded, Compile, StepBack, SimpleCount, Prims;
    var a := Compile(n, back, base);
    SimpleResults(e.t, n, back, base, s);
    RunsBody(e, pc, a, s);
    PrimsSimple(a);
    StraightBack(e.t, Prims(a), s);
    ResultsMove(e.t, n, back, base, s, Frame(|s.caps|, false));
    var r := Through(e.t, Prims(a), s);
    if r != [] { assert Moved(e.t, back, s.pos, r[0], Frame(|s.caps|, false), MustAdvance(n)); }
  }

  /** The general greedy loop visits the chain backwards, down to the minimum. */
  lemma {:induction false} RepChain(e: Env, n: Node, back: bool, base: nat, pc: int, min: nat, max: nat, s: Place)
    requires IsBody(e, n, back, base, pc) && Boundary(e.t, s.pos) && min <= max
    ensures var c := Chain(e.t, BodyPrims(n, back, base), back, s, max);
            Rep(e.t, n, back, base, min, max, true, s) == if min < |c| then Backwards(c[min..]) else []
    decreases min, RepRoom(e.t, back, max, s.pos)
  {
    hide Through, Results, RunStraight, Loaded, Compile, StepBack, SimpleCount, Prims, Boundary, Rep, Backwards, Chain;
    var ps := BodyPrims(n, back, base);
    var c := Chain(e.t, ps, back, s, max);
    BodyOnce(e, n, back, base, pc, s);
    var r := Through(e.t, ps, s);
    ChainStep(e.t, ps, back, s, max);
    LoneBackwards(s);
    if max == 0 {
      NoIteration(e, n, back, base, s);
      assert c[0..] == [s];
    } else if r == [] {
      NoRepetition(e, n, back, base, min, max, s);
      if min == 0 { assert c[0..] == [s]; }
    } else {
      var d := Chain(e.t, ps, back, r[0], Less(max));
      OneRepetition(e, n, back, base, min, max, s, r[0]);
      if min > 0 {
        RepChain(e, n, back, base, pc, min - 1, Less(max), r[0]);
        if min < |c| { assert c[min..] == d[min - 1..]; }
      } else {
        RepChain(e, n, back, base, pc, 0, Less(max), r[0]);
        assert d[0..] == d && c[0..] == c;
        BackwardsFirst(s, d);
      }
    }
  }

  lemma {:induction false} ChainStep(t: Text, ps: seq<Prim>, back: bool, s: Place, max: nat)
    requires var r := Through(t, ps, s); r == [] || Room(t, back, r[0].pos) < Room(t, back, s.pos)
    ensures var r := Through(t, ps, s);
            Chain(t, ps, back, s, max) == if max == 0 || r == [] then [s] else [s] + Chain(t, ps, back, r[0], Less(max))
  {
    hide Through;
  }

  lemma {:induction false} NoIteration(e: Env, n: Node, back: bool, base: nat, s: Place)
    ensures Rep(e.t, n, back, base, 0, 0, true, s) == [s]
  {
    hide Results;
  }

  lemma {:induction false} LoneBackwards(s: Place)
    ensures Backwards([s]) == [s]
  {
    assert [s][..0] == [];
    assert Backwards([]) == [];
  }

  lemma {:induction false} NoRepetition(e: Env, n: Node, back: bool, base: nat, min: nat, max: nat, s: Place)
    requires max > 0 && Results(e.t, n, back, base, s) == []
    ensures Rep(e.t, n, back, base, min, max, true, s) == if min > 0 then [] else [s]
  {
    hide Results;
  }

  lemma {:induction false} OneRepetition(e: Env, n: Node, back: bool, base: nat, min: nat, max: nat, s: Place,
                                         s': Place)
    requires max > 0 && Results(e.t, n, back, base, s) == [s'] && Room(e.t, back, s'.pos) < Room(e.t, back, s.pos)
    ensures Rep(e.t, n, back, base, min, max, true, s)
            == if min > 0 then Rep(e.t, n, back, base, min - 1, Less(max), true, s')
               else Rep(e.t, n, back, base, 0, Less(max), true, s') + [s]
  {
    hide Results;
    assert [s'][1..] == [];
    if min > 0 {
      assert RepAll(e.t, n, back, base, min - 1, Less(max), true, []) == [];
    } else {
      assert Again(e.t, n, back, base, max, true, s.pos, []) == [];
    }
  }

  /** The machine's counting loop runs along the chain to its end. */
  lemma {:induction false} CountChain(e: Env, n: Node, back: bool, base: nat, pc: int, s: Place, q: nat, max: nat,
                                      fuel: nat)
    requires IsBody(e, n, back, base, pc) && Boundary(e.t, s.pos) && (max == INT32_MAX || q < max < INT32_MAX)
    requires fuel >= |Chain(e.t, BodyPrims(n, back, base), back, s, if max == INT32_MAX then max else max - q)|
    ensures var c := Chain(e.t, BodyPrims(n, back, base), back, s, if max == INT32_MAX then max else max - q);
            CountMatches(e.t, e.code, pc, s, q, max, fuel) == Counted(q + |c| - 1, c[|c| - 1].pos)
    decreases RepRoom(e.t, back, if max == INT32_MAX then max else max - q, s.pos)
  {
    hide Through, Results, RunStraight, Loaded, Compile, StepBack, SimpleCount, Prims, Boundary;
    BodyOnce(e, n, back, base, pc, s);
    var ps := BodyPrims(n, back, base);
    var rem := if max == INT32_MAX then max else max - q;
    var r := Through(e.t, ps, s);
    if r != [] {
      assert s.(pos := r[0].pos) == r[0];
      if !(q + 1 >= max && max != INT32_MAX) { CountChain(e, n, back, base, pc, r[0], q + 1, max, fuel - 1); }
    }
  }

  /** Stepping back over one repetition moves one down the chain. */
  ghost predicate Linked(t: Text, c: seq<Place>, count: nat, caps: seq<Mark>) {
    && (forall i :: 0 <= i < |c| ==> c[i].caps == caps)
    && (forall i :: 0 < i < |c| ==> StepBack(t, c[i].pos, count) == c[i - 1].pos)
  }

  lemma {:induction false} ChainLinked(e: Env, n: Node, back: bool, base: nat, pc: int, s: Place, max: nat)
    requires IsBody(e, n, back, base, pc) && Boundary(e.t, s.pos)
    ensures Linked(e.t, Chain(e.t, BodyPrims(n, back, base), back, s, max), SimpleCount(Compile(n, back, base)), s.caps)
    decreases RepRoom(e.t, back, max, s.pos)
  {
    hide Through, Results, RunStraight, Loaded, Compile, StepBack, SimpleCount, Prims, Boundary;
    BodyOnce(e, n, back, base, pc, s);
    var ps := BodyPrims(n, back, base);
    var r := Through(e.t, ps, s);
    var c := Chain(e.t, ps, back, s, max);
    if |c| > 1 {
      ChainLinked(e, n, back, base, pc, r[0], Less(max));
      var d := Chain(e.t, ps, back, r[0], Less(max));
      assert c == [s] + d;
      forall i | 0 < i < |c|
        ensures StepBack(e.t, c[i].pos, SimpleCount(Compile(n, back, base))) == c[i - 1].pos
      {
        assert c[i] == d[i - 1];
        if i > 1 { assert c[i - 1] == d[i - 2]; }
      }
    }
  }

  /** Giving back repetitions tries the chain backwards. */
  lemma {:induction false} GiveBackRule(e: Env, pc: int, c: seq<Place>, s: Place, stack: seq<int>, count: nat,
                                        r: Outcome)
    returns (fuel: nat)
    requires c != [] && Linked(e.t, c, count, s.caps) && TryYields(e, pc, Backwards(c), stack, r) && r != Undefined
    ensures GiveBack(e.t, e.code, Thread(pc, s, stack), c[|c| - 1].pos, |c| - 1, count, fuel) == r
    decreases |c|
  {
    hide Search, StepBack, Yields;
    var k := |c| - 1;
    var last, rest := c[k], c[..k];
    var b := Backwards(c);
    assert b[0] == last && b[1..] == Backwards(rest);
    assert s.(pos := last.pos) == last;
    if r != Fail && Yields(e, Thread(pc, last, stack), r) {
      fuel := FuelOf(e, Thread(pc, last, stack), r);
    } else {
      var f := FuelOf(e, Thread(pc, last, stack), Fail);
      fuel := f;
      if k > 0 {
        var g := GiveBackRule(e, pc, rest, s, stack, count, r);
        fuel := f + g;
        SearchMore(e.t, e.code, Thread(pc, last, stack), f, fuel);
        GiveBackMore(e.t, e.code, Thread(pc, s, stack), rest[k - 1].pos, k - 1, count, g, fuel);
        assert StepBack(e.t, c[k].pos, count) == c[k - 1].pos;
      }
    }
  }

  lemma {:induction false} GiveBackUndefined(e: Env, pc: int, c: seq<Place>, s: Place, stack: seq<int>, count: nat,
                                             fuel: nat)
    requires c != [] && Linked(e.t, c, count, s.caps) && TryYields(e, pc, Backwards(c), stack, Undefined)
             && fuel <= e.bound
    ensures GiveBack(e.t, e.code, Thread(pc, s, stack), c[|c| - 1].pos, |c| - 1, count, fuel) == Undefined
    decreases |c|
  {
    hide Search, StepBack, Yields;
    var k := |c| - 1;
    var last, rest := c[k], c[..k];
    var b := Backwards(c);
    assert b[0] == last && b[1..] == Backwards(rest);
    assert s.(pos := last.pos) == last;
    if Yields(e, Thread(pc, last, stack), Undefined) {
      Within(e, Thread(pc, last, stack), Undefined, fuel);
    } else {
      Within(e, Thread(pc, last, stack), Fail, fuel);
      if k > 0 {
        GiveBackUndefined(e, pc, rest, s, stack, count, fuel);
        assert StepBack(e.t, c[k].pos, count) == c[k - 1].pos;
      }
    }
  }

  /** A simple loop unfolded: what has been counted is given back. */
  lemma {:induction false} CountedSearch(e: Env, th: Thread, next: int, min: nat, max: nat, count: nat, fuel: nat)
    ensures SearchFrom(e.t, e.code, SimpleGreedyQuant(next, min, max, count), th, fuel)
            == match CountMatches(e.t, e.code, th.pc, th.s, 0, max, fuel)
               case Unending => Undefined
               case Counted(q, pos) =>
                 if q < min then Fail else GiveBack(e.t, e.code, th.(pc := th.pc + next), pos, q - min, count, fuel)
  {
    hide Search, GiveBack, CountMatches;
  }

  /** The chain, counted and given back, tries the results of the general loop. */
  lemma {:induction false} ChainRule(e: Env, n: Node, back: bool, base: nat, pc: int, min: nat, max: nat, s: Place,
                                     stack: seq<int>, after: int, r: Outcome)
    returns (fuel: nat)
    requires IsBody(e, n, back, base, pc) && min <= max && 0 < max <= INT32_MAX && Boundary(e.t, s.pos)
    requires TryYields(e, after, Rep(e.t, n, back, base, min, max, true, s), stack, r) && r != Undefined
    ensures SearchFrom(e.t, e.code, SimpleGreedyQuant(after - pc, min, max, SimpleCount(Compile(n, back, base))),
                       Thread(pc, s, stack), fuel) == r
  {
    hide Through, Loaded, Compile, StepBack, SimpleCount, Prims, Boundary, Search, SearchFrom, TryYields, CountMatches,
         GiveBack, Rep, Linked, Chain, Backwards;
    var count: nat := SimpleCount(Compile(n, back, base));
    var c := Chain(e.t, BodyPrims(n, back, base), back, s, max);
    fuel := |c|;
    CountedSearch(e, Thread(pc, s, stack), after - pc, min, max, count, fuel);
    CountChain(e, n, back, base, pc, s, 0, max, fuel);
    RepChain(e, n, back, base, pc, min, max, s);
    if |c| - 1 < min {
      TryNone(e, after, stack, r);
    } else {
      ChainLinked(e, n, back, base, pc, s, max);
      LinkedTail(e.t, c, count, s.caps, min);
      var g := GiveBackRule(e, after, c[min..], s, stack, count, r);
      fuel := |c| + g;
      GiveBackMore(e.t, e.code, Thread(after, s, stack), c[|c| - 1].pos, |c| - 1 - min, count, g, fuel);
      CountMore(e.t, e.code, pc, s, 0, max, |c|, fuel);
      CountedSearch(e, Thread(pc, s, stack), after - pc, min, max, count, fuel);
    }
  }

  lemma {:induction false} ChainUndefined(e: Env, n: Node, back: bool, base: nat, pc: int, min: nat, max: nat, s: Place,
                                          stack: seq<int>, after: int, fuel: nat)
    requires IsBody(e, n, back, base, pc) && min <= max && 0 < max <= INT32_MAX && Boundary(e.t, s.pos)
             && fuel <= e.bound
    requires TryYields(e, after, Rep(e.t, n, back, base, min, max, true, s), stack, Undefined)
    ensures SearchFrom(e.t, e.code, SimpleGreedyQuant(after - pc, min, max, SimpleCount(Compile(n, back, base))),
                       Thread(pc, s, stack), fuel) == Undefined
  {
    hide Through, Loaded, Compile, StepBack, SimpleCount, Prims, Boundary, Search, TryYields, CountMatches, GiveBack,
         Rep, Linked;
    var count: nat := SimpleCount(Compile(n, back, base));
    var c := Chain(e.t, BodyPrims(n, back, base), back, s, max);
    RepChain(e, n, back, base, pc, min, max, s);
    if |c| - 1 < min {
      TryNone(e, after, stack, Undefined);
    } else if CountMatches(e.t, e.code, pc, s, 0, max, fuel).Counted? {
      CountChain(e, n, back, base, pc, s, 0, max, |c|);
      CountMore(e.t, e.code, pc, s, 0, max, fuel, fuel + |c|);
      CountMore(e.t, e.code, pc, s, 0, max, |c|, fuel + |c|);
      ChainLinked(e, n, back, base, pc, s, max);
      LinkedTail(e.t, c, count, s.caps, min);
      GiveBackUndefined(e, after, c[min..], s, stack, count, fuel);
    }
  }

  /** The simple loop does what the general loop would do. */
  lemma {:induction false} SimpleLoopRule(e: Env, n: Node, back: bool, base: nat, pc: int, min: nat, max: nat, s: Place,
                                          stack: seq<int>, r: Outcome)
    requires WellFormed(n) && SimpleCount(Compile(n, back, base)) > 0 && min <= max && 0 < max <= INT32_MAX
             && Boundary(e.t, s.pos)
    requires Loaded(e, pc, SimpleLoop(Compile(n, back, base), min, max))
    requires TryYields(e, pc + SizeAll(SimpleLoop(Compile(n, back, base), min, max)),
                       Rep(e.t, n, back, base, min, max, true, s), stack, r)
    ensures Yields(e, Thread(pc, s, stack), r)
  {
    hide Loaded, Compile, SimpleCount, Boundary, TryYields, SearchFrom, Fetch, Rep, SizeAll, EncodeAll, IsBody, Yields;
    var a := Compile(n, back, base);
    var i := SimpleGreedyQuant(SizeAll(a) + 1, min, max, SimpleCount(a));
    SimpleLayout(e, pc, a, i, min, max);
    BodyLoaded(e, n, back, base, pc + 17);
    if r == Undefined {
      if e.bound > 0 {
        ChainUndefined(e, n, back, base, pc + 17, min, max, s, stack, pc + 17 + SizeAll(a) + 1, e.bound - 1);
      }
      StillUndefined(e, pc, i, Thread(pc + 17, s, stack));
      return;
    }
    var fuel := ChainRule(e, n, back, base, pc + 17, min, max, s, stack, pc + 17 + SizeAll(a) + 1, r);
    SearchStep(e, pc, i, Thread(pc + 17, s, stack), fuel);
  }

  lemma {:induction false} SimpleLayout(e: Env, pc: int, a: seq<Instr>, i: Instr, min: nat, max: nat)
    requires SimpleCount(a) >= 0 && i == SimpleGreedyQuant(SizeAll(a) + 1, min, max, SimpleCount(a))
             && Loaded(e, pc, SimpleLoop(a, min, max))
    ensures pc >= 0 && Fetch(e.code, pc) == Got(i, pc + 17) && Loaded(e, pc + 17, a + [Match])
    ensures SizeAll(SimpleLoop(a, min, max)) == 17 + SizeAll(a) + 1
  {
    hide Loaded, SimpleCount, Fetch, SizeAll, EncodeAll;
    PcNonNegative(e, pc, SimpleLoop(a, min, max));
    assert SimpleLoop(a, min, max) == [i] + (a + [Match]);
    LoadedFirst(e, pc, i, a + [Match]);
    LoadedSplit(e, pc + 17, a, [Match]);
    LoadedOne(e, pc + 17 + SizeAll(a), Match);
  }

  lemma {:induction false} StillUndefined(e: Env, pc: int, i: Instr, th: Thread)
    requires pc >= 0 && th.pc >= 0 && Fetch(e.code, pc) == Got(i, th.pc)
    requires e.bound > 0 ==> SearchFrom(e.t, e.code, i, th, e.bound - 1) == Undefined
    ensures Yields(e, th.(pc := pc), Undefined)
  {
    hide SearchFrom, Fetch, Search;
    Unfolded(e, th.(pc := pc), i, th.pc, e.bound);
  }

  lemma {:induction false} SearchStep(e: Env, pc: int, i: Instr, th: Thread, fuel: nat)
    requires pc >= 0 && th.pc >= 0 && Fetch(e.code, pc) == Got(i, th.pc)
             && SearchFrom(e.t, e.code, i, th, fuel) != Undefined
    ensures Yields(e, th.(pc := pc), SearchFrom(e.t, e.code, i, th, fuel))
  {
    hide SearchFrom, Fetch;
    assert Search(e.t, e.code, th.(pc := pc), fuel + 1) == SearchFrom(e.t, e.code, i, th, fuel);
  }

  lemma {:induction false} BodyLoaded(e: Env, n: Node, back: bool, base: nat, pc: int)
    requires WellFormed(n) && SimpleCount(Compile(n, back, base)) > 0 && Loaded(e, pc, Compile(n, back, base) + [Match])
    ensures IsBody(e, n, back, base, pc)
  {
  }

  lemma {:induction false} LinkedTail(t: Text, c: seq<Place>, count: nat, caps: seq<Mark>, min: nat)
    requires Linked(t, c, count, caps) && min <= |c|
    ensures Linked(t, c[min..], count, caps)
  {
    hide StepBack;
    var d := c[min..];
    forall i | 0 < i < |d|
      ensures StepBack(t, d[i].pos, count) == d[i - 1].pos
    {
      assert d[i] == c[min + i] && d[i - 1] == c[min + i - 1];
    }
  }
}
