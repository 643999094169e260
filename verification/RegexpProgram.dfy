/** Whole programs: compiling a pattern and running it finds the first match of the pattern. */
module RegexpProgram {
  import opened RegexpCode
  import opened RegexpText
  import opened RegexpSearch
  import opened RegexpMachine
  import opened RegexpSyntax
  import opened RegexpCompile
  import opened RegexpRules
  import opened RegexpCorrect

  /** Without the sticky flag, the program tries the pattern at every position from the start on. */
  function Prefix(sticky: bool): (prog: seq<Instr>) { if sticky then [] else [SplitGotoFirst(6), Do(Any), Goto(-11)] }

  function Program(n: Node, sticky: bool): (prog: seq<Instr>)
    requires WellFormed(n)
  {
    Prefix(sticky) + CoreCode(Compile(n, false, 1))
  }

  function CoreCode(a: seq<Instr>): (prog: seq<Instr>) { [Do(SaveStart(0))] + a + [Do(SaveEnd(0)), Match] }

  // ---------- meaning ----------

  /** The matches that start at `s`: the whole match is capture 0. */
  function MatchesAt(t: Text, n: Node, s: Place): (r: seq<Place>) {
    ThroughAll(t, [SaveEnd(0)], ResultsAll(t, n, false, 1, Through(t, [SaveStart(0)], s)))
  }

  /** The matches that start at `s` or, failing that, at a later character. */
  function MatchesFrom(t: Text, n: Node, s: Place): (r: seq<Place>)
    decreases Room(t, false, s.pos)
  {
    if s.pos >= |t.units| then MatchesAt(t, n, s)
    else MatchesAt(t, n, s) + MatchesFrom(t, n, s.(pos := GetChar(t, s.pos, |t.units|).1))
  }

  function Matches(t: Text, n: Node, sticky: bool, s: Place): (r: seq<Place>) {
    if sticky then MatchesAt(t, n, s) else MatchesFrom(t, n, s)
  }

  /** The outcome a matcher should report: the first match, or failure. */
  function FirstOf(ss: seq<Place>): (r: Outcome) { if ss == [] then Fail else Found(ss[0]) }

  // ---------- correctness ----------

  ghost predicate CanRun(e: Env, n: Node, sticky: bool) {
    WellFormed(n) && Sound(n, false, 1, e.frame.loose) && 2 * (1 + Groups(n)) <= e.frame.marks
       && Loaded(e, 0, Program(n, sticky))
  }

  lemma {:induction false} CoreLayout(e: Env, n: Node, sticky: bool)
    requires CanRun(e, n, sticky)
    ensures var start := if sticky then 0 else 11;
            var pc := start + SizeAll([Do(SaveStart(0))]);
            var close := End(n, false, 1, pc);
            && (!sticky ==> Forks(e.code, 0, 11, 5) && Holds(e.code, 5, Do(Any), 6) && Holds(e.code, 6, Goto(-11), 11))
            && Loaded(e, start, [Do(SaveStart(0))]) && Ready(e, n, false, 1, pc) && Loaded(e, close, [Do(SaveEnd(0))])
            && Holds(e.code, close + SizeAll([Do(SaveEnd(0))]), Match, close + SizeAll([Do(SaveEnd(0))]) + 1)
  {
    hide Loaded, SizeAll, EncodeAll, Compile, Sound, WellFormed, Holds, Forks, Groups;
    var core := CoreCode(Compile(n, false, 1));
    LoadedSplit(e, 0, Prefix(sticky), core);
    PrefixSize(sticky);
    CoreFrame(e, Compile(n, false, 1), if sticky then 0 else 11);
    if !sticky { PrefixLayout(e); }
  }

  lemma {:induction false} CoreFrame(e: Env, a: seq<Instr>, start: int)
    requires Loaded(e, start, CoreCode(a))
    ensures var pc := start + SizeAll([Do(SaveStart(0))]);
            var close := pc + SizeAll(a);
            && Loaded(e, start, [Do(SaveStart(0))]) && Loaded(e, pc, a) && Loaded(e, close, [Do(SaveEnd(0))])
            && Holds(e.code, close + SizeAll([Do(SaveEnd(0))]), Match, close + SizeAll([Do(SaveEnd(0))]) + 1)
  {
    hide Loaded, SizeAll, EncodeAll, Size, Holds;
    Framed(e, start, [Do(SaveStart(0))], a, [Do(SaveEnd(0)), Match]);
    var close := start + SizeAll([Do(SaveStart(0))]) + SizeAll(a);
    assert [Do(SaveEnd(0)), Match] == [Do(SaveEnd(0))] + [Match];
    LoadedSplit(e, close, [Do(SaveEnd(0))], [Match]);
    OneByte(Match);
    LoadedLone(e, close + SizeAll([Do(SaveEnd(0))]), Match);
  }

  lemma {:induction false} PrefixSize(sticky: bool)
    ensures SizeAll(Prefix(sticky)) == if sticky then 0 else 11
  {
    if sticky {
      EmptySize();
    } else {
      EncodeConcat([SplitGotoFirst(6)], [Do(Any), Goto(-11)]);
      EncodeConcat([Do(Any)], [Goto(-11)]);
      assert [SplitGotoFirst(6)] + [Do(Any), Goto(-11)] == Prefix(false)
             && [Do(Any)] + [Goto(-11)] == [Do(Any), Goto(-11)];
      EncodeOne(SplitGotoFirst(6));
      EncodeOne(Do(Any));
      EncodeOne(Goto(-11));
    }
  }

  lemma {:induction false} PrefixLayout(e: Env)
    requires Loaded(e, 0, Prefix(false))
    ensures Forks(e.code, 0, 11, 5) && Holds(e.code, 5, Do(Any), 6) && Holds(e.code, 6, Goto(-11), 11)
  {
    hide Loaded, SizeAll, EncodeAll, Fetch;
    assert Prefix(false) == [SplitGotoFirst(6)] + [Do(Any), Goto(-11)];
    LoadedFirst(e, 0, SplitGotoFirst(6), [Do(Any), Goto(-11)]);
    LoadedTwo(e, 5, Do(Any), Goto(-11));
  }

  /** At one starting position. */
  lemma {:induction false} CoreRule(e: Env, n: Node, sticky: bool, s: Place)
    requires CanRun(e, n, sticky) && Sane(e.t, s, e.frame)
    ensures Yields(e, Thread(if sticky then 0 else 11, s, []), FirstOf(MatchesAt(e.t, n, s)))
  {
    hide Yields, TryYields, Loaded, SizeAll, EncodeAll, Compile, Sound, Through, ThroughAll, ResultsAll, Holds,
         Boundary, Groups, Program, Forks, WellFormed;
    var start := if sticky then 0 else 11;
    CoreLayout(e, n, sticky);
    var pc := start + SizeAll([Do(SaveStart(0))]);
    var close := End(n, false, 1, pc);
    var ss := Through(e.t, [SaveStart(0)], s);
    var inner := ResultsAll(e.t, n, false, 1, ss);
    var r := FirstOf(MatchesAt(e.t, n, s));
    SaveMoves(e.t, SaveStart(0), false, s, e.frame);
    ResultsAllMove(e.t, n, false, 1, s.pos, ss, e.frame, false);
    FirstMatch(e, close + SizeAll([Do(SaveEnd(0))]), MatchesAt(e.t, n, s), []);
    PrimAllRule(e, SaveEnd(0), close, inner, [], r);
    CorrectAll(e, n, false, 1, pc, ss, [], r);
    PrimRule(e, SaveStart(0), start, s, [], r);
  }

  lemma {:induction false} ScanRule(e: Env, n: Node, s: Place)
    requires CanRun(e, n, false) && Sane(e.t, s, e.frame)
    ensures Yields(e, Thread(0, s, []), FirstOf(MatchesFrom(e.t, n, s)))
    decreases Room(e.t, false, s.pos)
  {
    hide Yields, MatchesAt, Loaded, Compile, Sound, WellFormed, Fetch;
    CoreRule(e, n, false, s);
    CoreLayout(e, n, false);
    var here := MatchesAt(e.t, n, s);
    if here == [] {
      if s.pos < |e.t.units| {
        var s' := s.(pos := GetChar(e.t, s.pos, |e.t.units|).1);
        if !e.frame.loose { GetCharMoves(e.t, s.pos); }
        ScanRule(e, n, s');
        var r := FirstOf(MatchesFrom(e.t, n, s'));
        StepRule(e, 6, Goto(-11), 11, s', [], Thread(0, s', []), r);
        StepRule(e, 5, Do(Any), 6, s, [], Thread(6, s', []), r);
        ForkRule(e, 0, 11, 5, s, [], r);
      } else {
        StopRule(e, 5, Any, 6, s, []);
        ForkRule(e, 0, 11, 5, s, [], Fail);
      }
    } else {
      ForkRule(e, 0, 11, 5, s, [], Found(here[0]));
    }
  }

  /** The search of the whole program ends with the first match of the pattern. */
  lemma {:induction false} ProgramSearch(e: Env, n: Node, sticky: bool, s: Place)
    requires CanRun(e, n, sticky) && Sane(e.t, s, e.frame)
    ensures Yields(e, Thread(0, s, []), FirstOf(Matches(e.t, n, sticky, s)))
  {
    hide Yields, MatchesAt, MatchesFrom, CanRun;
    if sticky { CoreRule(e, n, sticky, s); } else { ScanRule(e, n, s); }
  }

  /** Every run of the machine on a compiled program ends, and reports the first match of the pattern. */
  lemma {:induction false} ProgramRuns(e: Env, n: Node, sticky: bool, s: Place) returns (steps: nat)
    requires CanRun(e, n, sticky) && Sane(e.t, s, e.frame)
    ensures var d, r := Steps(e.t, e.code, Running(Thread(0, s, []), []), steps), Matches(e.t, n, sticky, s);
            d.Done? && d.ret == (r != []) && (d.ret ==> d.caps == r[0].caps)
  {
    hide Search, Steps, Matches, CanRun;
    ProgramSearch(e, n, sticky, s);
    var fuel := FuelOf(e, Thread(0, s, []), FirstOf(Matches(e.t, n, sticky, s)));
    steps := SearchRunsMachine(e.t, e.code, Thread(0, s, []), fuel);
  }
}
