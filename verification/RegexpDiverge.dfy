/** Unlimited loops that the compiler leaves without the check for progress, and when they never end. */
module RegexpDiverge {
  import opened RegexpCode
  import opened RegexpText
  import opened RegexpSearch
  import opened RegexpMachine
  import opened RegexpSyntax
  import opened RegexpCompile
  import opened RegexpRules
  import opened RegexpCorrect
  import opened RegexpProgram
  import opened RegexpSteady

  // ---------- going round ----------

  /** The body's first result from place `k` is place `k + 1`. */
  ghost predicate GoesOn(t: Text, l: Iter, orbit: nat -> Place, k: nat) {
    var ss := Results(t, l.n, l.back, l.base, orbit(k));
    ss != [] && ss[0] == orbit(k + 1)
  }

  /** The body never fails along its own first results. */
  ghost predicate Circles(t: Text, l: Iter, orbit: nat -> Place) { forall k: nat :: GoesOn(t, l, orbit, k) }

  lemma {:induction false} OrbitSane(e: Env, l: Iter, orbit: nat -> Place, k: nat)
    requires IsIter(e, l) && Circles(e.t, l, orbit) && Sane(e.t, orbit(0), e.frame)
    ensures Sane(e.t, orbit(k), e.frame)
  {
    hide Results, Sound, Boundary;
    if k > 0 {
      OrbitSane(e, l, orbit, k - 1);
      assert GoesOn(e.t, l, orbit, k - 1);
      ResultsMove(e.t, l.n, l.back, l.base, orbit(k - 1), e.frame);
    }
  }

  /** An unlimited loop without the check: a fork between the body and the exit, and a way from the end of the body
      back. */
  ghost predicate IsUnchecked(e: Env, l: Iter, head: int, atom: int, exit: int) {
    && Ready(e, l.n, l.back, l.base, atom)
    && (if l.greedy then Forks(e.code, head, atom, exit) else Forks(e.code, head, exit, atom))
    && ReturnsTo(e.code, End(l.n, l.back, l.base, atom), false, head, exit)
  }

  /** A lazy loop is left at once if what follows does not fail. */
  ghost predicate StaysIn(e: Env, l: Iter, exit: int, orbit: nat -> Place, stack: seq<int>) {
    !l.greedy ==> forall k: nat :: Yields(e, Thread(exit, orbit(k), stack), Fail)
  }

  lemma {:induction false} Rebound(e: Env, l: Iter, head: int, atom: int, exit: int, orbit: nat -> Place,
                                   stack: seq<int>, bound: nat)
    requires IsUnchecked(e, l, head, atom, exit) && StaysIn(e, l, exit, orbit, stack)
    ensures IsUnchecked(e.(bound := bound), l, head, atom, exit) && StaysIn(e.(bound := bound), l, exit, orbit, stack)
  {
    hide Search, Sound, Compile, Forks, ReturnsTo, SizeAll, EncodeAll, Has;
    if !l.greedy {
      forall k: nat
        ensures Yields(e.(bound := bound), Thread(exit, orbit(k), stack), Fail)
      {
        assert Yields(e, Thread(exit, orbit(k), stack), Fail);
      }
    }
  }

  /** The search from the head of such a loop has no outcome at any fuel. */
  lemma {:induction false} LoopUndefined(e: Env, l: Iter, head: int, atom: int, exit: int, orbit: nat -> Place, k: nat,
                                         stack: seq<int>, fuel: nat)
    requires IsUnchecked(e, l, head, atom, exit) && Circles(e.t, l, orbit) && Sane(e.t, orbit(0), e.frame)
             && StaysIn(e, l, exit, orbit, stack)
    ensures Search(e.t, e.code, Thread(head, orbit(k), stack), fuel) == Undefined
    decreases fuel
  {
    hide Search, Results, Ready, Forks, ReturnsTo, Sane, TryYields;
    if fuel == 0 {
      NoFuel(e, Thread(head, orbit(k), stack));
    } else {
      var b := e.(bound := fuel - 1);
      Rebound(e, l, head, atom, exit, orbit, stack, fuel - 1);
      LoopUndefined(e, l, head, atom, exit, orbit, k + 1, stack, fuel - 1);
      OnceRound(b, l, head, atom, exit, orbit, k, stack);
      if !l.greedy {
        assert Yields(b, Thread(exit, orbit(k), stack), Fail);
        Within(b, Thread(exit, orbit(k), stack), Fail, fuel - 1);
      }
      ForkUndefined(e, head, atom, exit, orbit(k), stack, l.greedy, fuel);
    }
  }

  lemma {:induction false} NoFuel(e: Env, th: Thread)
    ensures Search(e.t, e.code, th, 0) == Undefined
  {
  }

  /** Through the body and back to the head. */
  lemma {:induction false} OnceRound(e: Env, l: Iter, head: int, atom: int, exit: int, orbit: nat -> Place, k: nat,
                                     stack: seq<int>)
    requires IsUnchecked(e, l, head, atom, exit) && Circles(e.t, l, orbit) && Sane(e.t, orbit(0), e.frame)
    requires Yields(e, Thread(head, orbit(k + 1), stack), Undefined)
    ensures Yields(e, Thread(atom, orbit(k), stack), Undefined)
  {
    hide Yields, Results, Loaded, Sound, Compile, Forks, ReturnsTo, Sane;
    OrbitSane(e, l, orbit, k);
    assert GoesOn(e.t, l, orbit, k);
    BackToHead(e, End(l.n, l.back, l.base, atom), false, head, exit, orbit(k + 1), stack, 0, Undefined);
    Correct(e, l.n, l.back, l.base, atom, orbit(k), stack, Undefined);
  }

  lemma {:induction false} ForkUndefined(e: Env, head: int, atom: int, exit: int, s: Place, stack: seq<int>,
                                         greedy: bool, fuel: nat)
    requires fuel > 0 && (if greedy then Forks(e.code, head, atom, exit) else Forks(e.code, head, exit, atom))
    requires Search(e.t, e.code, Thread(atom, s, stack), fuel - 1) == Undefined
    requires !greedy ==> var r := Search(e.t, e.code, Thread(exit, s, stack), fuel - 1); r == Undefined || r == Fail
    ensures Search(e.t, e.code, Thread(head, s, stack), fuel) == Undefined
  {
    hide Search, Fetch;
    var f := Fetch(e.code, head);
    Unfolded(e, Thread(head, s, stack), f.i, f.next, fuel);
  }

  // ---------- the code of such loops ----------

  lemma {:induction false} StarUnchecked(e: Env, l: Iter, pc: int)
    requires IsIter(e, l) && Loaded(e, pc, StarCode(Code(l), l.greedy, false))
    ensures IsUnchecked(e, l, pc, pc + 5, pc + SizeAll(StarCode(Code(l), l.greedy, false)))
  {
    hide Loaded, Sound, Compile, SizeAll, EncodeAll, Holds, WellFormed, Forks, StarCode, Groups;
    StarFrame(e, Code(l), l.greedy, false, pc);
    ForksFrom(e.code, pc, l.greedy, SizeAll(StarCode(Code(l), l.greedy, false)) - 5);
  }

  lemma {:induction false} PlusUnchecked(e: Env, l: Iter, pc: int)
    requires IsIter(e, l) && Loaded(e, pc, Code(l) + [Split(!l.greedy, -(SizeAll(Code(l)) as int) - 5)])
    ensures var head := pc + SizeAll(Code(l));
            && IsUnchecked(e, l, head, pc, head + 5)
            && pc + SizeAll(Code(l) + [Split(!l.greedy, -(SizeAll(Code(l)) as int) - 5)]) == head + 5
  {
    hide Loaded, Sound, Compile, SizeAll, EncodeAll, Holds, WellFormed, Forks, Groups;
    var a := Code(l);
    var fork := Split(!l.greedy, -(SizeAll(a) as int) - 5);
    FiveBytes(fork);
    LoadedSplit(e, pc, a, [fork]);
    LoadedLone(e, pc + SizeAll(a), fork);
    ForksFrom(e.code, pc + SizeAll(a), !l.greedy, -(SizeAll(a) as int) - 5);
  }

  /** Mandatory iterations before the loop at `rest`, `k` on top of the stack. */
  lemma {:induction false} TimesUndefined(e: Env, l: Iter, atom: int, drop: int, rest: int, exit: int,
                                          orbit: nat -> Place, j: nat, stack: seq<int>, k: nat)
    requires IsCounted(e, l, atom, atom, drop, rest) && IsUnchecked(e, l, rest, rest + 5, exit) && 1 <= k < WORD
    requires Circles(e.t, l, orbit) && Sane(e.t, orbit(0), e.frame) && StaysIn(e, l, exit, orbit, stack)
    ensures Yields(e, Thread(atom, orbit(j), stack + [k]), Undefined)
    decreases k
  {
    hide Search, Results, Loaded, Sound, Compile, Forks, ReturnsTo, Sane, Holds;
    var tail := End(l.n, l.back, l.base, atom);
    if k == 1 {
      LoopUndefined(e, l, rest, rest + 5, exit, orbit, j + 1, stack, e.bound);
      LastCount(e, tail, atom, drop, rest, orbit(j + 1), stack, Undefined);
    } else {
      TimesUndefined(e, l, atom, drop, rest, exit, orbit, j + 1, stack, k - 1);
      NextCount(e, tail, atom, drop, orbit(j + 1), stack, k, Undefined);
    }
    OrbitSane(e, l, orbit, j);
    assert GoesOn(e.t, l, orbit, j);
    Correct(e, l.n, l.back, l.base, atom, orbit(j), stack + [k], Undefined);
  }

  /** Captures that an instruction of the code writes, or reads, are seen by the check. */
  lemma {:induction false} WrittenHas(prog: seq<Instr>, i: nat, k: nat)
    requires i < |prog| && k in WrittenBy(prog[i])
    ensures k in Written(prog)
  {
    if i > 0 { WrittenHas(prog[1..], i - 1, k); }
  }

  lemma {:induction false} ReadHas(prog: seq<Instr>, i: nat, k: nat)
    requires i < |prog| && k in ReadBy(prog[i])
    ensures k in Read(prog)
  {
    if i > 0 { ReadHas(prog[1..], i - 1, k); }
  }

  /** A body that does not leave its place: the orbit of one point. */
  lemma {:induction false} FixedCircles(t: Text, l: Iter, s: Place)
    requires var ss := Results(t, l.n, l.back, l.base, s); ss != [] && ss[0] == s
    ensures Circles(t, l, (k: nat) => s)
  {
    hide Results;
    var orbit := (k: nat) => s;
    assert forall k: nat :: orbit(k) == s;
  }

  /** The code of an unlimited quantifier has no check. */
  predicate Unguarded(a: seq<Instr>, greedy: bool) { !UsesCheck(a, greedy) && !UsesSimpleLoop(a, INT32_MAX, greedy) }

  /** The whole loop, with its resets and its mandatory iterations: it never ends. */
  lemma {:induction false} QuantifiedUndefined(e: Env, l: Iter, min: nat, pc: int, s: Place, orbit: nat -> Place,
                                               stack: seq<int>)
    requires IsIter(e, l) && min < INT32_MAX && Unguarded(Code(l), l.greedy) && Sane(e.t, s, e.frame)
    requires Circles(e.t, l, orbit) && Through(e.t, ResetPrims(l.n, min, l.base), s) == [orbit(0)]
             && Sane(e.t, orbit(0), e.frame)
    requires var code := LoopCode(Code(l), ResetPrims(l.n, min, l.base), min, INT32_MAX, l.greedy);
             Loaded(e, pc, code) && StaysIn(e, l, pc + SizeAll(code), orbit, stack)
    ensures Yields(e, Thread(pc, s, stack), Undefined)
  {
    hide Search, Results, Loaded, Sound, Compile, Forks, ReturnsTo, Boundary, SimpleCount, CheckAdvance, SizeAll,
         EncodeAll, StarCode, TimesCode, Through, Circles, IsUnchecked, StaysIn, TryYields;
    var a, resets := Code(l), ResetPrims(l.n, min, l.base);
    var exit := pc + SizeAll(LoopCode(a, resets, min, INT32_MAX, l.greedy));
    if min == 0 {
      OneReset(e.t, l.n, l.back, l.base, min, INT32_MAX, l.greedy, s, e.frame.marks);
      LoadedSplit(e, pc, DoAll(resets), StarCode(a, l.greedy, false));
      var head := pc + SizeAll(DoAll(resets));
      StarUnchecked(e, l, head);
      LoopUndefined(e, l, head, head + 5, exit, orbit, 0, stack, e.bound);
      TryOne(e, head, orbit(0), stack, Undefined);
      ThroughRule(e, resets, pc, s, stack, Undefined);
    } else {
      NothingThrough(e.t, s);
      MandatoryUndefined(e, l, min, pc, orbit, stack, exit);
    }
  }

  lemma {:induction false} MandatoryUndefined(e: Env, l: Iter, min: nat, pc: int, orbit: nat -> Place, stack: seq<int>,
                                              exit: int)
    requires IsIter(e, l) && 1 <= min < INT32_MAX && Unguarded(Code(l), l.greedy) && Sane(e.t, orbit(0), e.frame)
    requires Circles(e.t, l, orbit) && StaysIn(e, l, exit, orbit, stack)
    requires var code := LoopCode(Code(l), [], min, INT32_MAX, l.greedy);
             Loaded(e, pc, code) && exit == pc + SizeAll(code)
    ensures Yields(e, Thread(pc, orbit(0), stack), Undefined)
  {
    hide Search, Results, Loaded, Sound, Compile, Forks, ReturnsTo, Boundary, SimpleCount, CheckAdvance, SizeAll,
         EncodeAll, StarCode, TimesCode, Circles, IsUnchecked, StaysIn, IsCounted, Fetch;
    var a := Code(l);
    if min == 1 {
      PlusUnchecked(e, l, pc);
      LoopUndefined(e, l, exit - 5, pc, exit, orbit, 1, stack, e.bound);
      OnceRound(e, l, exit - 5, pc, exit, orbit, 0, stack);
    } else {
      var times, star := TimesCode(a, min), StarCode(a, l.greedy, false);
      LoadedSplit(e, pc, times, star);
      var rest := pc + SizeAll(times);
      StarUnchecked(e, l, rest);
      TimesLayout(e, l, min, pc);
      TimesUndefined(e, l, pc + 5, rest - 1, rest, exit, orbit, 0, stack, min);
      StepRule(e, pc, PushI32(min), pc + 5, orbit(0), stack, Thread(pc + 5, orbit(0), stack + [min]), Undefined);
    }
  }

  // ---------- whole programs ----------

  /** An unlimited loop over `a`, and then `b`. */
  function LoopThen(a: Node, min: nat, greedy: bool, b: Node): (n: Node) {
    Sequence(Quantified(a, min, INT32_MAX, greedy), b)
  }

  /** The loop and what follows, loaded as a program. */
  ghost predicate LoopProgram(e: Env, a: Node, min: nat, greedy: bool, b: Node, sticky: bool) {
    && min < INT32_MAX && WellFormed(a) && WellFormed(b) && WellFormed(LoopThen(a, min, greedy, b))
    && Sound(a, false, 1, e.frame.loose) && Sound(b, false, 1 + Groups(a), e.frame.loose)
    && 2 * (1 + Groups(a) + Groups(b)) <= e.frame.marks
    && Loaded(e, 0, Program(LoopThen(a, min, greedy, b), sticky))
  }

  /** A place where the loop goes round for ever: with capture 0 opened and the captures of the loop reset, the body
      never fails along its own first results, and if the loop is lazy, what follows matches at none of them. */
  ghost predicate Trapped(t: Text, a: Node, min: nat, greedy: bool, b: Node, s: Place, orbit: nat -> Place) {
    && Through(t, [SaveStart(0)] + ResetPrims(a, min, 1), s) == [orbit(0)]
    && Circles(t, Iter(a, false, 1, greedy), orbit)
    && (!greedy ==> forall k: nat :: Results(t, b, false, 1 + Groups(a), orbit(k)) == [])
  }

  /** Then no search of the program ends. */
  lemma {:induction false} ProgramUndefined(e: Env, a: Node, min: nat, greedy: bool, b: Node, sticky: bool, s: Place,
                                            orbit: nat -> Place)
    requires LoopProgram(e, a, min, greedy, b, sticky) && Unguarded(Compile(a, false, 1), greedy)
    requires Sane(e.t, s, e.frame) && Trapped(e.t, a, min, greedy, b, s, orbit)
    ensures Yields(e, Thread(0, s, []), Undefined)
  {
    hide Search, Results, Loaded, Sound, Compile, Forks, Boundary, SimpleCount, CheckAdvance, SizeAll, EncodeAll,
         LoopCode, Through, Circles, StaysIn, TryYields, Yields, Groups, Perform, Program, WellFormed;
    var l, resets := Iter(a, false, 1, greedy), ResetPrims(a, min, 1);
    LoopFrame(e, a, min, greedy, b, sticky);
    var start := if sticky then 0 else 11;
    var pc := start + SizeAll([Do(SaveStart(0))]);
    var exit := pc + SizeAll(LoopCode(Code(l), resets, min, INT32_MAX, greedy));
    OpenZero(e.t, s, e.frame);
    var s' := Perform(e.t, SaveStart(0), s).s;
    ThroughSplit(e.t, SaveStart(0), resets, s);
    ResetMoves(e.t, a, min, 1, false, s', e.frame);
    assert Through(e.t, resets, s')[0] == orbit(0);
    FollowFails(e, l, b, exit, orbit);
    QuantifiedUndefined(e, l, min, pc, s', orbit, []);
    TryOne(e, pc, s', [], Undefined);
    PrimRule(e, SaveStart(0), start, s, [], Undefined);
    if !sticky { ForkRule(e, 0, 11, 5, s, [], Undefined); }
  }

  lemma {:induction false} SaneMarks(t: Text, s: Place, frame: Frame)
    requires Sane(t, s, frame)
    ensures |s.caps| == frame.marks
  {
  }

  lemma {:induction false} OpenZero(t: Text, s: Place, frame: Frame)
    requires Sane(t, s, frame) && frame.marks >= 2
    ensures var m := Perform(t, SaveStart(0), s); m.Go? && Sane(t, m.s, frame) && Through(t, [SaveStart(0)], s) == [m.s]
  {
    OneThrough(t, SaveStart(0), s);
  }

  lemma {:induction false} FollowFails(e: Env, l: Iter, b: Node, exit: int, orbit: nat -> Place)
    requires IsIter(e, l) && Circles(e.t, l, orbit) && Sane(e.t, orbit(0), e.frame)
             && Ready(e, b, false, l.base + Groups(l.n), exit)
    requires !l.greedy ==> forall k: nat :: Results(e.t, b, false, l.base + Groups(l.n), orbit(k)) == []
    ensures StaysIn(e, l, exit, orbit, [])
  {
    hide Yields, Results, Ready, Sane, Circles, Groups, IsIter;
    if !l.greedy {
      forall k: nat
        ensures Yields(e, Thread(exit, orbit(k), []), Fail)
      {
        OrbitSane(e, l, orbit, k);
        Correct(e, b, false, l.base + Groups(l.n), exit, orbit(k), [], Fail);
      }
    }
  }

  lemma {:induction false} LoopFrame(e: Env, a: Node, min: nat, greedy: bool, b: Node, sticky: bool)
    requires LoopProgram(e, a, min, greedy, b, sticky)
    ensures var start := if sticky then 0 else 11;
            var pc := start + SizeAll([Do(SaveStart(0))]);
            var code := LoopCode(Compile(a, false, 1), ResetPrims(a, min, 1), min, INT32_MAX, greedy);
            && Loaded(e, start, [Do(SaveStart(0))]) && Loaded(e, pc, code)
            && Ready(e, b, false, 1 + Groups(a), pc + SizeAll(code))
            && (!sticky ==> Forks(e.code, 0, 11, 5)) && IsIter(e, Iter(a, false, 1, greedy))
  {
    hide Loaded, SizeAll, EncodeAll, LoopCode, Sound, Holds, Forks, Compile;
    var n := LoopThen(a, min, greedy, b);
    var start := if sticky then 0 else 11;
    LoadedSplit(e, 0, Prefix(sticky), CoreCode(Compile(n, false, 1)));
    PrefixSize(sticky);
    CoreFrame(e, Compile(n, false, 1), start);
    if !sticky { PrefixLayout(e); }
    CompiledLoop(a, min, greedy, b);
    var code := LoopCode(Compile(a, false, 1), ResetPrims(a, min, 1), min, INT32_MAX, greedy);
    LoadedSplit(e, start + SizeAll([Do(SaveStart(0))]), code, Compile(b, false, 1 + Groups(a)));
  }

  lemma {:induction false} CompiledLoop(a: Node, min: nat, greedy: bool, b: Node)
    requires min < INT32_MAX && WellFormed(a) && WellFormed(b) && WellFormed(LoopThen(a, min, greedy, b))
    ensures Compile(LoopThen(a, min, greedy, b), false, 1)
            == LoopCode(Compile(a, false, 1), ResetPrims(a, min, 1), min, INT32_MAX, greedy) + Compile(b, false,
                 1 + Groups(a))
    ensures Groups(LoopThen(a, min, greedy, b)) == Groups(a) + Groups(b)
  {
    hide LoopCode, Compile, WellFormed, Groups;
    var q := Quantified(a, min, INT32_MAX, greedy);
    QuantifiedCode(a, min, greedy);
    SequenceCode(q, b);
  }

  lemma {:induction false} QuantifiedCode(a: Node, min: nat, greedy: bool)
    requires WellFormed(a) && min < INT32_MAX
    ensures var q := Quantified(a, min, INT32_MAX, greedy);
            && WellFormed(q) && Groups(q) == Groups(a)
            && Compile(q, false, 1) == LoopCode(Compile(a, false, 1), ResetPrims(a, min, 1), min, INT32_MAX, greedy)
  {
    hide LoopCode, DoAll, ChoiceCode, LookCode, ResetPrims;
  }

  lemma {:induction false} SequenceCode(a: Node, b: Node)
    requires WellFormed(a) && WellFormed(b)
    ensures var n := Sequence(a, b);
            WellFormed(n) && Groups(n) == Groups(a) + Groups(b)
               && Compile(n, false, 1) == Compile(a, false, 1) + Compile(b, false, 1 + Groups(a))
  {
    hide LoopCode, DoAll, ChoiceCode, LookCode, ResetPrims;
  }

  /** And the machine never stops: after any number of steps it has not reported anything, and it has not aborted. */
  lemma {:induction false} MachineNeverEnds(e: Env, a: Node, min: nat, greedy: bool, b: Node, sticky: bool, s: Place,
                                            orbit: nat -> Place, steps: nat)
    requires LoopProgram(e, a, min, greedy, b, sticky) && Unguarded(Compile(a, false, 1), greedy)
    requires Sane(e.t, s, e.frame) && Trapped(e.t, a, min, greedy, b, s, orbit)
    ensures var c := Steps(e.t, e.code, Running(Thread(0, s, []), []), steps);
            !c.Done? && (e.code == EncodeAll(Program(LoopThen(a, min, greedy, b), sticky)) ==> !c.Crashed?)
  {
    hide Search, Steps, Has, AllValid, Unguarded, Sane, Trapped, Sound, Program, Compile, EncodeAll;
    if e.code == EncodeAll(Program(LoopThen(a, min, greedy, b), sticky)) {
      SaneMarks(e.t, s, e.frame);
      NeverCrashes(e.t, LoopThen(a, min, greedy, b), sticky, s, steps);
    }
    if Steps(e.t, e.code, Running(Thread(0, s, []), []), steps).Done? {
      var fuel := MachineRefinesSearch(e.t, e.code, Thread(0, s, []), steps);
      ProgramUndefined(e.(bound := fuel), a, min, greedy, b, sticky, s, orbit);
    }
  }
}
