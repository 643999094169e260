/** Compiled code never aborts: every instruction it reaches can be executed. */
module RegexpSteady {
  import opened RegexpCode
  import opened RegexpText
  import opened RegexpSearch
  import opened RegexpMachine
  import opened RegexpSyntax
  import opened RegexpCompile
  import opened RegexpRules
  import opened RegexpEmit
  import opened RegexpProgram
  import opened RegexpStack

  // ---------- code that asks for nothing that is missing ----------

  /** From instruction `k` on there are only simple instructions up to a `match`: the body of a simple loop. */
  ghost predicate StraightFrom(prog: seq<Instr>, k: nat)
    decreases |prog| - k
  {
    k < |prog| && (prog[k] == Match || (prog[k].Do? && IsSimple(prog[k].p) && StraightFrom(prog, k + 1)))
  }

  /** Instruction `k` names only captures that exist, and a simple loop has a body that can be counted. */
  ghost predicate SteadyAt(prog: seq<Instr>, k: nat, marks: nat)
    requires k < |prog|
  {
    && (prog[k].Do? ==> CapturesFit(prog[k].p, marks))
    && (prog[k].SimpleGreedyQuant? ==> StraightFrom(prog, k + 1))
  }

  ghost predicate Steady(prog: seq<Instr>, marks: nat) { forall k :: 0 <= k < |prog| ==> SteadyAt(prog, k, marks) }

  lemma {:induction false} StraightBefore(a: seq<Instr>, b: seq<Instr>, k: nat)
    requires StraightFrom(a, k)
    ensures StraightFrom(a + b, k)
    decreases |a| - k
  {
    assert (a + b)[k] == a[k];
    if a[k] != Match { StraightBefore(a, b, k + 1); }
  }

  lemma {:induction false} StraightBehind(a: seq<Instr>, b: seq<Instr>, k: nat)
    requires StraightFrom(b, k)
    ensures StraightFrom(a + b, |a| + k)
    decreases |b| - k
  {
    assert (a + b)[|a| + k] == b[k];
    if b[k] != Match { StraightBehind(a, b, k + 1); }
  }

  lemma {:induction false} SteadyConcat(a: seq<Instr>, b: seq<Instr>, marks: nat)
    requires Steady(a, marks) && Steady(b, marks)
    ensures Steady(a + b, marks)
  {
    hide StraightFrom, CapturesFit;
    forall k | 0 <= k < |a + b|
      ensures SteadyAt(a + b, k, marks)
    {
      if k < |a| {
        assert SteadyAt(a, k, marks);
        if a[k].SimpleGreedyQuant? { StraightBefore(a, b, k + 1); }
      } else {
        var j := k - |a|;
        assert SteadyAt(b, j, marks);
        if b[j].SimpleGreedyQuant? { StraightBehind(a, b, j + 1); }
      }
    }
  }

  lemma {:induction false} SteadyFrame(pre: seq<Instr>, a: seq<Instr>, post: seq<Instr>, marks: nat)
    requires Steady(pre, marks) && Steady(a, marks) && Steady(post, marks)
    ensures Steady(pre + a + post, marks)
  {
    hide Steady;
    SteadyConcat(pre, a, marks);
    SteadyConcat(pre + a, post, marks);
  }

  /** Single instructions other than simple loops. */
  lemma {:induction false} SteadyOne(i: Instr, marks: nat)
    requires !i.SimpleGreedyQuant? && (i.Do? ==> CapturesFit(i.p, marks))
    ensures Steady([i], marks)
  {
  }

  lemma {:induction false} SteadyTwo(i: Instr, j: Instr, marks: nat)
    requires !i.SimpleGreedyQuant? && !i.Do? && !j.SimpleGreedyQuant? && !j.Do?
    ensures Steady([i, j], marks)
  {
  }

  lemma {:induction false} SteadyNone(marks: nat)
    ensures Steady([], marks)
  {
  }

  lemma {:induction false} SteadyAll(ps: seq<Prim>, marks: nat)
    requires AllFit(ps, marks)
    ensures Steady(DoAll(ps), marks)
    decreases ps
  {
    hide Steady;
    if ps == [] {
      SteadyNone(marks);
    } else {
      SteadyOne(Do(ps[0]), marks);
      SteadyAll(ps[1..], marks);
      SteadyConcat([Do(ps[0])], DoAll(ps[1..]), marks);
    }
  }

  /** Code that the compiler can count is straight. */
  lemma {:induction false} CountedStraight(a: seq<Instr>)
    requires SimpleCount(a) >= 0
    ensures StraightFrom(a + [Match], 0)
    decreases a
  {
    if a == [] {
      assert (a + [Match])[0] == Match;
    } else {
      CountedStraight(a[1..]);
      assert a + [Match] == [a[0]] + (a[1..] + [Match]);
      StraightBehind([a[0]], a[1..] + [Match], 0);
    }
  }

  lemma {:induction false} SteadySimple(a: seq<Instr>, min: nat, max: nat, marks: nat)
    requires SimpleCount(a) >= 0 && Steady(a, marks)
    ensures Steady(SimpleLoop(a, min, max), marks)
  {
    hide StraightFrom, CapturesFit, SimpleCount, SizeAll;
    var i, rest := SimpleGreedyQuant(SizeAll(a) + 1, min, max, SimpleCount(a)), a + [Match];
    SteadyOne(Match, marks);
    SteadyConcat(a, [Match], marks);
    CountedStraight(a);
    StraightBehind([i], rest, 0);
    var prog := [i] + rest;
    assert SimpleLoop(a, min, max) == prog;
    forall k | 0 <= k < |prog|
      ensures SteadyAt(prog, k, marks)
    {
      if k > 0 {
        assert SteadyAt(rest, k - 1, marks);
        if rest[k - 1].SimpleGreedyQuant? { StraightBehind([i], rest, k); }
      }
    }
  }

  // ---------- compiled code ----------

  lemma {:induction false} SteadyStar(a: seq<Instr>, greedy: bool, check: bool, marks: nat)
    requires Steady(a, marks)
    ensures Steady(StarCode(a, greedy, check), marks)
  {
    hide Steady, SizeAll;
    var len: int := SizeAll(a);
    if check {
      SteadyTwo(Split(greedy, len + 6), PushCharPos, marks);
      SteadyOne(BneCharPos(-len - 11), marks);
      SteadyFrame([Split(greedy, len + 6), PushCharPos], a, [BneCharPos(-len - 11)], marks);
    } else {
      SteadyOne(Split(greedy, len + 5), marks);
      SteadyOne(Goto(-len - 10), marks);
      SteadyFrame([Split(greedy, len + 5)], a, [Goto(-len - 10)], marks);
    }
  }

  lemma {:induction false} SteadyUpTo(a: seq<Instr>, greedy: bool, m: nat, marks: nat)
    requires Steady(a, marks)
    ensures Steady(UpToCode(a, greedy, m), marks)
  {
    hide Steady, SizeAll;
    var len: int := SizeAll(a);
    SteadyTwo(PushI32(m), Split(greedy, len + 5), marks);
    SteadyTwo(Loop(-len - 10), Drop, marks);
    SteadyFrame([PushI32(m), Split(greedy, len + 5)], a, [Loop(-len - 10), Drop], marks);
  }

  lemma {:induction false} SteadyTimes(a: seq<Instr>, m: nat, marks: nat)
    requires Steady(a, marks)
    ensures Steady(TimesCode(a, m), marks)
  {
    hide Steady, SizeAll;
    var len: int := SizeAll(a);
    SteadyOne(PushI32(m), marks);
    SteadyTwo(Loop(-len - 5), Drop, marks);
    SteadyFrame([PushI32(m)], a, [Loop(-len - 5), Drop], marks);
  }

  lemma {:induction false} SteadyChoice(a: seq<Instr>, b: seq<Instr>, marks: nat)
    requires Steady(a, marks) && Steady(b, marks)
    ensures Steady(ChoiceCode(a, b), marks)
  {
    hide Steady, SizeAll;
    SteadyOne(SplitNextFirst(SizeAll(a) + 5), marks);
    SteadyOne(Goto(SizeAll(b)), marks);
    SteadyFrame([SplitNextFirst(SizeAll(a) + 5)], a, [Goto(SizeAll(b))], marks);
    SteadyConcat([SplitNextFirst(SizeAll(a) + 5)] + a + [Goto(SizeAll(b))], b, marks);
  }

  lemma {:induction false} SteadyLook(a: seq<Instr>, negative: bool, marks: nat)
    requires Steady(a, marks)
    ensures Steady(LookCode(a, negative), marks)
  {
    hide Steady, SizeAll;
    var i := LookCode(a, negative)[0];
    SteadyOne(i, marks);
    SteadyOne(Match, marks);
    SteadyFrame([i], a, [Match], marks);
  }

  lemma {:induction false} SteadyLoop(a: seq<Instr>, resets: seq<Prim>, min: nat, max: nat, greedy: bool, marks: nat)
    requires Steady(a, marks) && min <= max && AllFit(resets, marks)
    ensures Steady(LoopCode(a, resets, min, max, greedy), marks)
  {
    hide Steady, AllFit, StarCode, UpToCode, TimesCode, CheckAdvance, SimpleCount, DoAll, SizeAll;
    var check, len := UsesCheck(a, greedy), SizeAll(a);
    SteadyNone(marks);
    if UsesSimpleLoop(a, max, greedy) {
      SteadySimple(a, min, max, marks);
    } else if min == 0 {
      var body := if max == 0 then [] else if max == 1 then [Split(greedy, len)] + a
                  else if max == INT32_MAX then StarCode(a, greedy, check) else UpToCode(a, greedy, max);
      SteadyAll(resets, marks);
      SteadyOne(Split(greedy, len), marks);
      SteadyConcat([Split(greedy, len)], a, marks);
      SteadyStar(a, greedy, check, marks);
      SteadyUpTo(a, greedy, max, marks);
      SteadyConcat(DoAll(resets), body, marks);
    } else if min == 1 && max == INT32_MAX && !check {
      SteadyOne(Split(!greedy, -(len as int) - 5), marks);
      SteadyConcat(a, [Split(!greedy, -(len as int) - 5)], marks);
    } else {
      SteadyTimes(a, min, marks);
      SteadyStar(a, greedy, check, marks);
      if max >= min { SteadyUpTo(a, greedy, max - min, marks); }
      SteadyConcat(TimesCode(a, min), RestCode(a, greedy, check, min, max), marks);
    }
  }

  /** The code of every pattern, sound or not. */
  lemma {:induction false} CompiledSteady(n: Node, back: bool, base: nat, marks: nat)
    requires WellFormed(n) && 2 * (base + Groups(n)) <= marks
    ensures Steady(Compile(n, back, base), marks)
    decreases n
  {
    hide Steady, Compile, ChoiceCode, LoopCode, LookCode;
    CompileParts(n, back, base);
    match n
    case Sequence(a, b) =>
      CompiledSteady(a, back, base, marks);
      CompiledSteady(b, back, base + Groups(a), marks);
      SteadyConcat(Compile(a, back, base), Compile(b, back, base + Groups(a)), marks);
      SteadyConcat(Compile(b, back, base + Groups(a)), Compile(a, back, base), marks);
    case Choice(a, b) =>
      CompiledSteady(a, back, base, marks);
      CompiledSteady(b, back, base + Groups(a), marks);
      SteadyChoice(Compile(a, back, base), Compile(b, back, base + Groups(a)), marks);
    case Group(a) =>
      CompiledSteady(a, back, base + 1, marks);
      SteadyOne(Do(OpenPrim(base, back)), marks);
      SteadyOne(Do(ClosePrim(base, back)), marks);
      SteadyFrame([Do(OpenPrim(base, back))], Compile(a, back, base + 1), [Do(ClosePrim(base, back))], marks);
    case Look(a, behind, negative) =>
      CompiledSteady(a, behind, base, marks);
      SteadyLook(Compile(a, behind, base), negative, marks);
    case Quantified(a, min, max, greedy) =>
      CompiledSteady(a, back, base, marks);
      SteadyLoop(Compile(a, back, base), ResetPrims(a, min, base), min, max, greedy, marks);
    case _ => SteadyLeaf(n, back, base, marks);
  }

  lemma {:induction false} SteadyLeaf(n: Node, back: bool, base: nat, marks: nat)
    requires WellFormed(n) && (n.Empty? || n.One? || n.Assertion? || n.Reference?)
    ensures Steady(Compile(n, back, base), marks)
  {
    hide Steady, DoAll;
    match n
    case Empty => SteadyNone(marks);
    case One(p) => SteadyAll(OnePrims(p, back), marks);
    case Assertion(p) => SteadyOne(Do(p), marks);
    case Reference(k) => SteadyOne(Do(ReferencePrim(k, back)), marks);
  }

  lemma {:induction false} ProgramSteady(n: Node, sticky: bool, marks: nat)
    requires WellFormed(n) && 2 * (1 + Groups(n)) <= marks
    ensures Steady(Program(n, sticky), marks)
  {
    hide Steady, Compile;
    CompiledSteady(n, false, 1, marks);
    SteadyOne(Do(SaveStart(0)), marks);
    SteadyOne(Do(SaveEnd(0)), marks);
    SteadyOne(Match, marks);
    SteadyConcat([Do(SaveEnd(0))], [Match], marks);
    assert [Do(SaveEnd(0))] + [Match] == [Do(SaveEnd(0)), Match];
    SteadyFrame([Do(SaveStart(0))], Compile(n, false, 1), [Do(SaveEnd(0)), Match], marks);
    if sticky {
      SteadyNone(marks);
    } else {
      SteadyOne(SplitGotoFirst(6), marks);
      SteadyOne(Do(Any), marks);
      SteadyOne(Goto(-11), marks);
      SteadyFrame([SplitGotoFirst(6)], [Do(Any)], [Goto(-11)], marks);
      assert [SplitGotoFirst(6)] + [Do(Any)] + [Goto(-11)] == Prefix(false);
    }
    SteadyConcat(Prefix(sticky), CoreCode(Compile(n, false, 1)), marks);
  }

  // ---------- runs ----------

  ghost predicate SavedFirm(s: Saved, marks: nat) {
    |s.s.caps| == marks && (s.kind == GreedyQuantState ==> s.count > 0)
  }

  ghost predicate StatesFirm(states: seq<Saved>, marks: nat) {
    forall i :: 0 <= i < |states| ==> SavedFirm(states[i], marks)
  }

  /** The machine has not aborted, all its capture tables are complete, and saved loops have something to give back. */
  ghost predicate Firm(c: Config, marks: nat) {
    match c
    case Running(th, states) => |th.s.caps| == marks && StatesFirm(states, marks)
    case Counting(th, _, _, states) => |th.s.caps| == marks && StatesFirm(states, marks)
    case Unwinding(_, caps, states) => |caps| == marks && StatesFirm(states, marks)
    case Done(_, caps) => |caps| == marks
    case Crashed => false
  }

  lemma {:induction false} ExecuteFirm(t: Text, prog: seq<Instr>, k: nat, th: Thread, states: seq<Saved>, marks: nat)
    requires Closed(prog) && At(prog, k, th.pc, th.stack) && SteadyAt(prog, k, marks) && |th.s.caps| == marks
             && StatesFirm(states, marks)
    ensures Firm(Execute(t, prog[k], th.(pc := PosOf(prog, k + 1)), states), marks)
  {
    hide Perform, CapturesFit, StraightFrom, Closed, PosOf, DepthAt;
    if prog[k] != Match { TrackOn(prog, k); }
  }

  /** The straight body of a loop runs to its `match` or to a character that does not fit. */
  lemma {:induction false} StraightRuns(t: Text, prog: seq<Instr>, k: nat, s: Place)
    requires AllValid(prog) && StraightFrom(prog, k)
    ensures k < |prog| && RunStraight(t, EncodeAll(prog), PosOf(prog, k), s) != Broken
    decreases |prog| - k
  {
    hide EncodeAll, SizeAll, Fetch, AllValid, Perform, Size;
    FetchNth(prog, k);
    SizeStep(prog, k);
    SomeBytes(prog[k]);
    if prog[k] != Match {
      var m := Perform(t, prog[k].p, s);
      if m.Go? { StraightRuns(t, prog, k + 1, m.s); }
    }
  }

  lemma {:induction false} SomeBytes(i: Instr)
    ensures Size(i) > 0
  {
  }

  lemma {:induction false} CountingFirm(t: Text, prog: seq<Instr>, k: nat, c: Config, marks: nat)
    requires Closed(prog) && k < |prog| && SteadyAt(prog, k, marks) && c.Counting? && Firm(c, marks)
    requires LoopAt(prog, k, c.th.pc - 16, c.th.stack) && prog[k] == c.i
    ensures Firm(Step(t, EncodeAll(prog), c), marks)
  {
    hide EncodeAll, SizeAll, AllValid, Safe, RunStraight, StraightFrom, Size;
    SeventeenBytes(c.i);
    SizeStep(prog, k);
    StraightRuns(t, prog, k + 1, c.th.s);
  }

  lemma {:induction false} UnwindingFirm(t: Text, prog: seq<Instr>, c: Config, marks: nat)
    requires Closed(prog) && c.Unwinding? && c.states != [] && ConfigOk(prog, c) && Firm(c, marks)
    ensures Firm(Step(t, EncodeAll(prog), c), marks)
  {
    hide EncodeAll, PosOf, DepthAt, Closed, Fetch, StepBack, OnTrack;
    var top := c.states[|c.states| - 1];
    assert SavedOk(prog, top) && SavedFirm(top, marks);
    if top.kind == GreedyQuantState {
      var k: nat :| LoopAt(prog, k, top.pc, top.stack);
      assert At(prog, k, top.pc - 1, top.stack);
      TrackFetch(prog, k, top.pc - 1, top.stack);
    }
  }

  lemma {:induction false} StepFirm(t: Text, prog: seq<Instr>, c: Config, marks: nat)
    requires Closed(prog) && Steady(prog, marks) && ConfigOk(prog, c) && Firm(c, marks)
    ensures Firm(Step(t, EncodeAll(prog), c), marks)
  {
    hide EncodeAll, Fetch, PosOf, DepthAt, Closed, Execute, Unwind, SteadyAt;
    match c
    case Running(th, states) =>
      var k: nat :| At(prog, k, th.pc, th.stack);
      TrackFetch(prog, k, th.pc, th.stack);
      ExecuteFirm(t, prog, k, th, states, marks);
    case Counting(th, i, q, states) =>
      var k: nat :| LoopAt(prog, k, th.pc - 16, th.stack) && prog[k] == i;
      CountingFirm(t, prog, k, c, marks);
    case Unwinding(ret, caps, states) =>
      if states != [] { UnwindingFirm(t, prog, c, marks); }
    case _ =>
  }

  lemma {:induction false} StepsFirm(t: Text, prog: seq<Instr>, c: Config, n: nat, marks: nat)
    requires Closed(prog) && Steady(prog, marks) && ConfigOk(prog, c) && Firm(c, marks)
    ensures Firm(Steps(t, EncodeAll(prog), c, n), marks)
    decreases n
  {
    hide Step, EncodeAll, ConfigOk, Closed, Steady, Firm;
    if n == 0 {
      assert Steps(t, EncodeAll(prog), c, 0) == c;
    } else {
      StepKeeps(t, prog, c);
      StepFirm(t, prog, c, marks);
      StepsFirm(t, prog, Step(t, EncodeAll(prog), c), n - 1, marks);
    }
  }

  /** No run of a compiled program aborts: not on any text, from any place, after any number of steps. */
  lemma {:induction false} NeverCrashes(t: Text, n: Node, sticky: bool, s: Place, steps: nat)
    requires WellFormed(n) && AllValid(Program(n, sticky)) && 2 * (1 + Groups(n)) <= |s.caps|
    ensures !Steps(t, EncodeAll(Program(n, sticky)), Running(Thread(0, s, []), []), steps).Crashed?
  {
    hide EncodeAll, Program, Steps, Safe, AllValid, Steady, PosOf, DepthAt;
    var prog, c := Program(n, sticky), Running(Thread(0, s, []), []);
    ProgramSafe(n, sticky);
    ProgramSteady(n, sticky, |s.caps|);
    StartPlace(prog);
    assert At(prog, 0, 0, []);
    StepsFirm(t, prog, c, steps, |s.caps|);
  }
}
