/** Runs that start inside a surrogate pair: stepping back in a simple loop leaves the start behind, and verdicts go
    wrong. */
module RegexpPair {
  import opened RegexpCode
  import opened RegexpText
  import opened RegexpSearch
  import opened RegexpMachine
  import opened RegexpSyntax
  import opened RegexpCompile
  import opened RegexpRules
  import opened RegexpSimple
  import opened RegexpCorrect
  import opened RegexpEmit
  import opened RegexpProgram
  import opened RegexpMain

  /** Stepping back over a character undoes reading it exactly outside of surrogate pairs. This is what the
      one-instruction loop relies on: started inside a pair, it steps back too far. */
  lemma {:induction false} StepBackExact(t: Text, pos: nat)
    requires pos < |t.units|
    ensures StepBack(t, GetChar(t, pos, |t.units|).1, 1) == pos <==> Boundary(t, pos)
  {
    var next := GetChar(t, pos, |t.units|).1;
    assert StepBack(t, PrevPos(t, next), 0) == PrevPos(t, next);
    if Boundary(t, pos) { GetCharMoves(t, pos); }
  }

  // ---------- a simple loop started inside a pair ----------

  /** Up to `max` characters, as many as possible, and then `b`. */
  function CharsThen(p: Prim, max: nat, b: Node): (n: Node) { Sequence(Quantified(One(p), 0, max, true), b) }

  /** Characters of every kind, or all but line ends. */
  predicate TakesSurrogates(p: Prim) { p.Dot? || p.Any? }

  lemma {:induction false} LoopAlone(p: Prim, max: nat)
    requires TakesSurrogates(p) && 0 < max <= INT32_MAX
    ensures SimpleCount([Do(p)]) == 1
    ensures var q := Quantified(One(p), 0, max, true);
            WellFormed(q) && Groups(q) == 0 && Compile(q, false, 1) == SimpleLoop([Do(p)], 0, max)
  {
    hide Compile, SizeAll;
    OneCode(p);
    assert [Do(p)][1..] == [] && SimpleCount([]) == 0;
    CompileParts(Quantified(One(p), 0, max, true), false, 1);
  }

  lemma {:induction false} CharsCode(p: Prim, max: nat, b: Node)
    requires TakesSurrogates(p) && 0 < max <= INT32_MAX && WellFormed(b)
    ensures var n := CharsThen(p, max, b);
            && WellFormed(n) && Groups(n) == Groups(b) && SimpleCount([Do(p)]) == 1 && Prims([Do(p)]) == [p]
            && Compile(n, false, 1) == SimpleLoop([Do(p)], 0, max) + Compile(b, false, 1)
  {
    hide SizeAll, Compile, SimpleCount;
    LoopAlone(p, max);
    NoPrims();
    PrimsStep([Do(p)]);
    assert [Do(p)][1..] == [];
    CompileParts(CharsThen(p, max, b), false, 1);
  }

  lemma {:induction false} OneCode(p: Prim)
    requires TakesSurrogates(p)
    ensures WellFormed(One(p)) && Compile(One(p), false, 1) == [Do(p)]
  {
    DoOne(p);
  }

  /** Where the pieces of the program stand: the loop, what follows it, and the end. */
  lemma {:induction false} CharsLayout(e: Env, p: Prim, max: nat, b: Node, open: int, body: int, after: int)
    requires TakesSurrogates(p) && 0 < max <= INT32_MAX && WellFormed(b) && WellFormed(CharsThen(p, max, b))
    requires Loaded(e, 0, Program(CharsThen(p, max, b), true))
    requires open == SizeAll([Do(SaveStart(0))]) && body == open + 17 && after == body + SizeAll([Do(p)]) + 1
    ensures Loaded(e, 0, [Do(SaveStart(0))]) && Loaded(e, body, [Do(p)] + [Match])
            && Loaded(e, after, Compile(b, false, 1))
    ensures open >= 0 && Fetch(e.code, open) == Got(SimpleGreedyQuant(after - body, 0, max, 1), body)
    ensures var close := End(b, false, 1, after);
            Loaded(e, close, [Do(SaveEnd(0))])
               && Holds(e.code, close + SizeAll([Do(SaveEnd(0))]), Match, close + SizeAll([Do(SaveEnd(0))]) + 1)
  {
    hide Loaded, SizeAll, EncodeAll, Compile, Fetch, WellFormed, Groups, SimpleLoop, SimpleCount, Prims;
    var n := CharsThen(p, max, b);
    CharsCode(p, max, b);
    assert Prefix(true) + CoreCode(Compile(n, false, 1)) == CoreCode(Compile(n, false, 1));
    CoreFrame(e, Compile(n, false, 1), 0);
    LoadedSplit(e, open, SimpleLoop([Do(p)], 0, max), Compile(b, false, 1));
    SimpleLayout(e, open, [Do(p)], SimpleGreedyQuant(SizeAll([Do(p)]) + 1, 0, max, 1), 0, max);
  }

  /** One unit is read inside a pair, and then the loop ends: at its limit, or at the end of the text. */
  predicate ReadsOne(t: Text, pos: nat, max: nat) {
    PairAt(t, pos - 1) && (max == 1 || pos + 1 == |t.units|)
  }

  /** Reading at and behind the second half of a pair. */
  lemma {:induction false} InsidePair(t: Text, p: Prim, s: Place)
    requires TakesSurrogates(p) && PairAt(t, s.pos - 1)
    ensures 1 <= s.pos < |t.units| && Boundary(t, s.pos - 1) && Boundary(t, s.pos + 1) && !Boundary(t, s.pos)
    ensures Through(t, [p], s) == [s.(pos := s.pos + 1)] && StepBack(t, s.pos + 1, 1) == s.pos - 1
    ensures s.pos + 1 == |t.units| ==> Through(t, [p], s.(pos := s.pos + 1)) == []
  {
    OneThrough(t, p, s);
    OneThrough(t, p, s.(pos := s.pos + 1));
    assert StepBack(t, s.pos - 1, 0) == s.pos - 1;
  }

  /** The machine counts that one unit. */
  lemma {:induction false} CountsOne(e: Env, p: Prim, max: nat, body: int, s: Place, fuel: nat)
    requires TakesSurrogates(p) && 0 < max <= INT32_MAX && ReadsOne(e.t, s.pos, max) && fuel >= 2
    requires Loaded(e, body, [Do(p)] + [Match]) && SimpleCount([Do(p)]) == 1 && Prims([Do(p)]) == [p]
    ensures CountMatches(e.t, e.code, body, s, 0, max, fuel) == Counted(1, s.pos + 1)
  {
    hide Loaded, RunStraight, Through, SimpleCount, Prims, PairAt;
    InsidePair(e.t, p, s);
    RunsBody(e, body, [Do(p)], s);
    var s' := s.(pos := s.pos + 1);
    RunsBody(e, body, [Do(p)], s');
    if max > 1 { assert CountMatches(e.t, e.code, body, s', 1, max, fuel - 1) == Counted(1, s'.pos); }
  }

  /** If what follows fails behind the pair, the search goes on from before it: left of where it started. */
  lemma {:induction false} LoopSteps(e: Env, p: Prim, max: nat, open: int, body: int, after: int, s: Place, r: Outcome)
    requires TakesSurrogates(p) && 0 < max <= INT32_MAX && ReadsOne(e.t, s.pos, max) && open >= 0 && body >= 0
             && r != Undefined
    requires Fetch(e.code, open) == Got(SimpleGreedyQuant(after - body, 0, max, 1), body)
    requires Loaded(e, body, [Do(p)] + [Match]) && SimpleCount([Do(p)]) == 1 && Prims([Do(p)]) == [p]
    requires Yields(e, Thread(after, s.(pos := s.pos + 1), []), Fail)
             && Yields(e, Thread(after, s.(pos := s.pos - 1), []), r)
    ensures Yields(e, Thread(open, s, []), r)
  {
    hide Loaded, Search, Fetch, SimpleCount, Prims, CountMatches, SearchFrom, PairAt, GiveBack, StepBack;
    InsidePair(e.t, p, s);
    var th, next, back := Thread(body, s, []), Thread(after, s.(pos := s.pos + 1), []),
        Thread(after, s.(pos := s.pos - 1), []);
    var f := FuelOf(e, next, Fail);
    var g := FuelOf(e, back, r);
    var fuel := f + g + 2;
    SearchMore(e.t, e.code, next, f, fuel);
    SearchMore(e.t, e.code, back, g, fuel);
    CountsOne(e, p, max, body, s, fuel);
    CountedSearch(e, th, after - body, 0, max, 1, fuel);
    GivesBackOne(e, Thread(after, s, []), s.pos + 1, fuel);
    SearchStep(e, open, SimpleGreedyQuant(after - body, 0, max, 1), th, fuel);
  }

  lemma {:induction false} GivesBackOne(e: Env, th: Thread, pos: nat, fuel: nat)
    requires Search(e.t, e.code, th.(s := th.s.(pos := pos)), fuel) == Fail
    ensures GiveBack(e.t, e.code, th, pos, 1, 1, fuel) == Search(e.t, e.code,
                                                                 th.(s := th.s.(pos := StepBack(e.t, pos, 1))), fuel)
  {
    hide Search, StepBack;
  }

  /** The search of the whole program. */
  lemma {:induction false} PairSearch(e: Env, p: Prim, max: nat, b: Node, s: Place)
    requires TakesSurrogates(p) && 0 < max <= INT32_MAX && ReadsOne(e.t, s.pos, max) && WellFormed(b)
             && WellFormed(CharsThen(p, max, b))
    requires Sound(b, false, 1, false) && 2 * (1 + Groups(b)) <= e.frame.marks == |s.caps| && !e.frame.loose
    requires Loaded(e, 0, Program(CharsThen(p, max, b), true))
    requires Results(e.t, b, false, 1, Place(s.pos + 1, s.caps[0 := MarkAt(s.pos)])) == []
    ensures Yields(e, Thread(0, s, []),
                   FirstOf(ThroughAll(e.t, [SaveEnd(0)],
                                      Results(e.t, b, false, 1, Place(s.pos - 1, s.caps[0 := MarkAt(s.pos)])))))
  {
    hide Loaded, Yields, TryYields, SizeAll, EncodeAll, Compile, Sound, ThroughAll, Results, Fetch, PairAt, Boundary,
         WellFormed, Groups, Program, SimpleCount, Prims, Holds;
    var open := SizeAll([Do(SaveStart(0))]);
    var body := open + 17;
    var after := body + SizeAll([Do(p)]) + 1;
    CharsLayout(e, p, max, b, open, body, after);
    CharsCode(p, max, b);
    InsidePair(e.t, p, s);
    OneThrough(e.t, SaveStart(0), s);
    var s' := s.(caps := s.caps[0 := MarkAt(s.pos)]);
    EndsAt(e, b, after, s'.(pos := s.pos + 1));
    EndsAt(e, b, after, s'.(pos := s.pos - 1));
    NothingClosed(e.t);
    var r := FirstOf(ThroughAll(e.t, [SaveEnd(0)], Results(e.t, b, false, 1, s'.(pos := s.pos - 1))));
    LoopSteps(e, p, max, open, body, after, s', r);
    TryOne(e, open, s', [], r);
    PrimRule(e, SaveStart(0), 0, s, [], r);
  }

  lemma {:induction false} NothingClosed(t: Text)
    ensures ThroughAll(t, [SaveEnd(0)], []) == []
  {
  }

  /** The rest of the program, between two characters. */
  lemma {:induction false} EndsAt(e: Env, b: Node, after: int, s: Place)
    requires WellFormed(b) && Sound(b, false, 1, false) && 2 * (1 + Groups(b)) <= e.frame.marks && !e.frame.loose
    requires Loaded(e, after, Compile(b, false, 1)) && Boundary(e.t, s.pos) && |s.caps| == e.frame.marks
    requires var close := End(b, false, 1, after);
             Loaded(e, close, [Do(SaveEnd(0))])
                && Holds(e.code, close + SizeAll([Do(SaveEnd(0))]), Match, close + SizeAll([Do(SaveEnd(0))]) + 1)
    ensures Yields(e, Thread(after, s, []), FirstOf(ThroughAll(e.t, [SaveEnd(0)], Results(e.t, b, false, 1, s))))
  {
    hide Loaded, Yields, TryYields, SizeAll, EncodeAll, Compile, Sound, ThroughAll, Results, Holds, WellFormed, Groups;
    var close, ss := End(b, false, 1, after), Results(e.t, b, false, 1, s);
    var r := FirstOf(ThroughAll(e.t, [SaveEnd(0)], ss));
    ResultsMove(e.t, b, false, 1, s, e.frame);
    FirstMatch(e, close + SizeAll([Do(SaveEnd(0))]), ThroughAll(e.t, [SaveEnd(0)], ss), []);
    PrimAllRule(e, SaveEnd(0), close, ss, [], r);
    Correct(e, b, false, 1, after, s, [], r);
  }

  // ---------- what the pattern means there ----------

  /** One unit more, or none. */
  lemma {:induction false} PairResults(t: Text, p: Prim, max: nat, s: Place)
    requires TakesSurrogates(p) && 0 < max <= INT32_MAX && ReadsOne(t, s.pos, max)
    ensures Results(t, Quantified(One(p), 0, max, true), false, 1, s) == [s.(pos := s.pos + 1), s]
  {
    hide PairAt, Through, Rep, Boundary;
    InsidePair(t, p, s);
    var e, s' := Env(t, [], Frame(0, true), 0), s.(pos := s.pos + 1);
    NothingThrough(t, s);
    OneRepetition(e, One(p), false, 1, 0, max, s, s');
    if max == 1 {
      NoIteration(e, One(p), false, 1, s');
    } else {
      NoRepetition(e, One(p), false, 1, 0, Less(max), s');
    }
    assert [s][1..] == [] && RepAll(t, One(p), false, 1, 0, max, true, []) == [];
  }

  lemma {:induction false} PairMatches(t: Text, p: Prim, max: nat, b: Node, s: Place)
    requires TakesSurrogates(p) && 0 < max <= INT32_MAX && ReadsOne(t, s.pos, max) && |s.caps| >= 2
    requires Results(t, b, false, 1, Place(s.pos + 1, s.caps[0 := MarkAt(s.pos)])) == []
    ensures Matches(t, CharsThen(p, max, b), true, s)
            == ThroughAll(t, [SaveEnd(0)], Results(t, b, false, 1, Place(s.pos, s.caps[0 := MarkAt(s.pos)])))
  {
    hide PairAt, Through, ThroughAll, Rep, RepAll, Results, ResultsAll, ReadsOne;
    OneThrough(t, SaveStart(0), s);
    var n, q, s' := CharsThen(p, max, b), Quantified(One(p), 0, max, true), s.(caps := s.caps[0 := MarkAt(s.pos)]);
    PairResults(t, p, max, s');
    AllOfOne(t, n, s');
    SequenceResults(t, q, b, s');
    AllOfTwo(t, b, s'.(pos := s.pos + 1), s');
    assert s'.(pos := s.pos + 1) == Place(s.pos + 1, s.caps[0 := MarkAt(s.pos)]);
    assert Results(t, n, false, 1, s') == Results(t, b, false, 1, s');
  }

  lemma {:induction false} SequenceResults(t: Text, a: Node, b: Node, s: Place)
    ensures Results(t, Sequence(a, b), false, 1, s) == ResultsAll(t, b, false, 1 + Groups(a),
                                                                  Results(t, a, false, 1, s))
  {
    hide ResultsAll;
  }

  lemma {:induction false} AllOfOne(t: Text, n: Node, s: Place)
    ensures ResultsAll(t, n, false, 1, [s]) == Results(t, n, false, 1, s)
  {
    hide Results;
    assert [s][1..] == [] && ResultsAll(t, n, false, 1, []) == [];
  }

  lemma {:induction false} AllOfTwo(t: Text, n: Node, s: Place, s': Place)
    ensures ResultsAll(t, n, false, 1, [s, s']) == Results(t, n, false, 1, s) + Results(t, n, false, 1, s')
  {
    hide Results;
    assert [s, s'][1..] == [s'];
    AllOfOne(t, n, s');
  }

  /** A start inside a pair, with a loop that reads its second half and something that then fails: the pattern goes on
      from the start, the machine from the place before the pair. */
  lemma {:induction false} PairRuns(t: Text, p: Prim, max: nat, b: Node, s: Place) returns (steps: nat)
    requires TakesSurrogates(p) && 0 < max <= INT32_MAX && ReadsOne(t, s.pos, max) && WellFormed(b)
             && WellFormed(CharsThen(p, max, b))
    requires Sound(b, false, 1, false) && AllValid(Program(CharsThen(p, max, b), true))
             && 2 * (1 + Groups(b)) <= |s.caps|
    requires Results(t, b, false, 1, Place(s.pos + 1, s.caps[0 := MarkAt(s.pos)])) == []
    ensures Matches(t, CharsThen(p, max, b), true, s)
            == ThroughAll(t, [SaveEnd(0)], Results(t, b, false, 1, Place(s.pos, s.caps[0 := MarkAt(s.pos)])))
    ensures var d := Steps(t, EncodeAll(Program(CharsThen(p, max, b), true)), Running(Thread(0, s, []), []), steps);
            var r := ThroughAll(t, [SaveEnd(0)], Results(t, b, false, 1, Place(s.pos - 1, s.caps[0 := MarkAt(s.pos)])));
            d.Done? && d.ret == (r != []) && (d.ret ==> d.caps == r[0].caps)
  {
    hide Search, Steps, Matches, Results, ThroughAll, EncodeAll, Program, AllValid, Sound, Groups, WellFormed, PairAt,
         Loaded;
    var n := CharsThen(p, max, b);
    var e := Env(t, EncodeAll(Program(n, true)), Frame(|s.caps|, false), 0);
    InsidePair(t, p, s);
    PairMatches(t, p, max, b, s);
    WholeLoaded(e, Program(n, true));
    PairSearch(e, p, max, b, s);
    var r := FirstOf(ThroughAll(t, [SaveEnd(0)],
                                Results(t, b, false, 1, Place(s.pos - 1, s.caps[0 := MarkAt(s.pos)]))));
    var fuel := FuelOf(e, Thread(0, s, []), r);
    steps := SearchRunsMachine(t, e.code, Thread(0, s, []), fuel);
  }

  // ---------- instances ----------

  /** `.*^` on a text that is one pair, from between its halves, sticky: there is no match, and one is reported, which
      ends before it begins. */
  lemma {:induction false} DotStarExample(re: Regexp, t: Text) returns (steps: nat)
    requires WellFormed(CharsThen(Dot, INT32_MAX, Assertion(LineStart)))
    requires re.Compiled? && re.code == EncodeAll(Program(CharsThen(Dot, INT32_MAX, Assertion(LineStart)), true))
             && re.captureCount == 1
    requires t.units == [0xd800, 0xdc00] && t.utf16 && !t.multiLine
    ensures Matches(t, CharsThen(Dot, INT32_MAX, Assertion(LineStart)), true, Place(1, NoCaptures(1))) == []
    ensures Steps(t, re.code, Running(Thread(0, Place(1, NoCaptures(1)), []), []), steps) == Done(true,
              [MarkAt(1), MarkAt(0)])
  {
    hide Steps, EncodeAll, Program, Matches, Compile, SizeAll, Fits, AllValid;
    var b, s := Assertion(LineStart), Place(1, NoCaptures(1));
    var caps := s.caps[0 := MarkAt(1)];
    StartFits();
    CharsFit(Dot, INT32_MAX, b);
    ProgramValid(CharsThen(Dot, INT32_MAX, b), true);
    StartAt(t, Place(2, caps));
    StartAt(t, Place(1, caps));
    StartAt(t, Place(0, caps));
    NothingClosed(t);
    steps := PairRuns(t, Dot, INT32_MAX, b, s);
    CloseOne(t, Place(0, caps));
    assert caps[1 := MarkAt(0)] == [MarkAt(1), MarkAt(0)];
  }

  lemma {:induction false} StartAt(t: Text, s: Place)
    requires !t.multiLine
    ensures Results(t, Assertion(LineStart), false, 1, s) == if s.pos == 0 then [s] else []
  {
    OneThrough(t, LineStart, s);
  }

  lemma {:induction false} CloseOne(t: Text, s: Place)
    requires |s.caps| >= 2
    ensures ThroughAll(t, [SaveEnd(0)], [s]) == [s.(caps := s.caps[1 := MarkAt(s.pos)])]
  {
    OneThrough(t, SaveEnd(0), s);
    assert [s][1..] == [] && ThroughAll(t, [SaveEnd(0)], []) == [];
  }

  /** A few instructions of a fixed length. */
  predicate Short(prog: seq<Instr>, len: nat) { |prog| <= len && forall i :: 0 <= i < |prog| ==> Plain(prog[i]) }

  lemma {:induction false} ShortFits(prog: seq<Instr>, len: nat)
    requires Short(prog, len) && len <= 100
    ensures SizeAll(prog) <= CODE_MAX
  {
    hide SizeAll, EncodeAll;
    PlainSize(prog);
  }

  lemma {:induction false} StartFits()
    ensures var b := Assertion(LineStart); WellFormed(b) && Short(Compile(b, false, 1), 50) && Fits(b, false, 1)
  {
    hide SizeAll, EncodeAll;
    ShortFits(Compile(Assertion(LineStart), false, 1), 50);
  }

  lemma {:induction false} CharsFit(p: Prim, max: nat, b: Node)
    requires TakesSurrogates(p) && 0 < max <= INT32_MAX && WellFormed(b) && Groups(b) == 0
    requires Short(Compile(b, false, 1), 50) && Fits(b, false, 1)
    ensures var n := CharsThen(p, max, b); WellFormed(n) && Groups(n) == 0 && Fits(n, false, 1)
  {
    hide Compile, SizeAll, EncodeAll, SimpleCount, Prims;
    CharsCode(p, max, b);
    OneCode(p);
    var q, i := Quantified(One(p), 0, max, true), SimpleGreedyQuant(SizeAll([Do(p)]) + 1, 0, max, 1);
    var loop := SimpleLoop([Do(p)], 0, max);
    assert loop == [i, Do(p), Match];
    LoopAlone(p, max);
    ShortFits([Do(p)], 3);
    ShortFits(loop, 3);
    ShortFits(loop + Compile(b, false, 1), 60);
    assert Fits(One(p), false, 1);
    assert Fits(q, false, 1);
  }

  // ---------- every start inside a pair ----------

  /** The number of characters before `pos`. */
  function CharsBefore(t: Text, pos: nat): (n: nat)
    ensures n <= pos
  {
    if pos == 0 then 0 else 1 + CharsBefore(t, PrevPos(t, pos))
  }

  /** Backwards, any character is found before every place but the first. */
  lemma {:induction false} AnyBehind(t: Text, s: Place)
    requires s.pos <= |t.units|
    ensures Results(t, One(Any), true, 1, s) == if s.pos == 0 then [] else [s.(pos := PrevPos(t, s.pos))]
  {
    ThroughSplit(t, Prev, [Any, Prev], s);
    if s.pos > 0 {
      PrevMoves(t, s.pos);
      var s1 := s.(pos := PrevPos(t, s.pos));
      ThroughSplit(t, Any, [Prev], s1);
      GetCharMoves(t, s1.pos);
      OneThrough(t, Prev, Perform(t, Any, s1).s);
    }
  }

  /** `m` characters are found backwards if there are that many. */
  lemma {:induction false} CharsBehind(t: Text, m: nat, s: Place)
    requires s.pos <= |t.units| && m < INT32_MAX
    ensures Rep(t, One(Any), true, 1, m, m, true, s) == [] <==> CharsBefore(t, s.pos) < m
    decreases m
  {
    hide Results;
    if m > 0 {
      AnyBehind(t, s);
      if s.pos > 0 {
        var s' := s.(pos := PrevPos(t, s.pos));
        CharsBehind(t, m - 1, s');
        assert [s'][1..] == [] && RepAll(t, One(Any), true, 1, m - 1, m - 1, true, []) == [];
      }
    }
  }

  /** `(?<![^]{m})`: fewer than `m` characters before. */
  function FewerBehind(m: nat): (b: Node) { Look(Quantified(One(Any), m, m, true), true, true) }

  lemma {:induction false} FewerResults(t: Text, m: nat, s: Place)
    requires s.pos <= |t.units| && 0 < m < INT32_MAX
    ensures Results(t, FewerBehind(m), false, 1, s) == if CharsBefore(t, s.pos) < m then [s] else []
  {
    hide Rep;
    CharsBehind(t, m, s);
    NothingThrough(t, s);
    assert [s][1..] == [] && RepAll(t, One(Any), true, 1, m, m, true, []) == [];
    assert Results(t, Quantified(One(Any), m, m, true), true, 1, s) == Rep(t, One(Any), true, 1, m, m, true, s);
  }

  lemma {:induction false} FewerFits(m: nat)
    requires 0 < m < INT32_MAX
    ensures var b := FewerBehind(m);
            WellFormed(b) && Groups(b) == 0 && Short(Compile(b, false, 1), 50) && Fits(b, false, 1)
            && Sound(b, false, 1, false)
  {
    hide SizeAll, EncodeAll, Compile, SimpleCount, CheckAdvance;
    var one, q, b := One(Any), Quantified(One(Any), m, m, true), FewerBehind(m);
    assert WellFormed(one) && Groups(one) == 0 && Sound(one, true, 1, false);
    BehindCode();
    var a := [Do(Prev), Do(Any), Do(Prev)];
    assert WellFormed(q) && Groups(q) == 0 && Sound(q, true, 1, false);
    CompileParts(q, true, 1);
    var loop := TimesCode(a, m);
    assert Compile(q, true, 1) == LoopCode(a, [], m, m, true) == loop + [] == loop;
    assert Short(loop, 10);
    CompileParts(b, false, 1);
    assert Compile(b, false, 1) == LookCode(loop, true);
    ShortFits(a, 3);
    ShortFits(loop, 10);
    ShortFits(LookCode(loop, true), 12);
    assert Fits(one, true, 1);
    assert Fits(q, true, 1);
  }

  lemma {:induction false} BehindCode()
    ensures Compile(One(Any), true, 1) == [Do(Prev), Do(Any), Do(Prev)]
            && SimpleCount([Do(Prev), Do(Any), Do(Prev)]) == -1
  {
    DoOne(Prev);
    assert [Prev, Any, Prev][1..] == [Any, Prev] && [Any, Prev][1..] == [Prev];
    assert DoAll([Any, Prev]) == [Do(Any)] + DoAll([Prev]);
    assert DoAll([Prev, Any, Prev]) == [Do(Prev)] + DoAll([Any, Prev]);
  }

  /** In every text, and for every start inside a pair, there is a pattern that does not match and is reported to. */
  lemma {:induction false} WrongInsidePair(t: Text, pos: nat) returns (n: Node, steps: nat)
    requires pos <= |t.units| < INT32_MAX && !Boundary(t, pos)
    ensures WellFormed(n) && Sound(n, false, 1, false) && Fits(n, false, 1) && Groups(n) == 0
    ensures Matches(t, n, true, Place(pos, NoCaptures(1))) == []
    ensures var d := Steps(t, EncodeAll(Program(n, true)), Running(Thread(0, Place(pos, NoCaptures(1)), []), []),
                           steps);
            d.Done? && d.ret
  {
    hide Steps, EncodeAll, Program, Matches, Compile, SizeAll, Fits, AllValid, Sound, Results, PairAt;
    var s, m := Place(pos, NoCaptures(1)), CharsBefore(t, pos);
    var caps := s.caps[0 := MarkAt(pos)];
    NotBoundary(t, pos);
    InsidePair(t, Any, s);
    CountsInsidePair(t, pos);
    var b := FewerBehind(m);
    n := CharsThen(Any, 1, b);
    FewerFits(m);
    CharsFit(Any, 1, b);
    CharsSound(Any, 1, b);
    ProgramValid(n, true);
    FewerResults(t, m, Place(pos + 1, caps));
    FewerResults(t, m, Place(pos, caps));
    FewerResults(t, m, Place(pos - 1, caps));
    NothingClosed(t);
    CloseOne(t, Place(pos - 1, caps));
    steps := PairRuns(t, Any, 1, b, s);
  }

  lemma {:induction false} NotBoundary(t: Text, pos: nat)
    requires pos <= |t.units| && !Boundary(t, pos)
    ensures PairAt(t, pos - 1)
  {
  }

  /** As many characters stand before the second half of a pair as before the place behind it, and one fewer before
      it. */
  lemma {:induction false} CountsInsidePair(t: Text, pos: nat)
    requires PairAt(t, pos - 1)
    ensures 0 < pos < |t.units|
    ensures CharsBefore(t, pos) == CharsBefore(t, pos + 1) == CharsBefore(t, pos - 1) + 1
  {
  }

  lemma {:induction false} CharsSound(p: Prim, max: nat, b: Node)
    requires TakesSurrogates(p) && 0 < max <= INT32_MAX && WellFormed(b) && WellFormed(CharsThen(p, max, b))
             && Sound(b, false, 1, false)
    ensures Sound(CharsThen(p, max, b), false, 1, false)
  {
    hide Compile, CheckAdvance, UsesSimpleLoop;
    var q := Quantified(One(p), 0, max, true);
    assert WellFormed(One(p)) && MustAdvance(One(p)) && Sound(One(p), false, 1, false);
    assert WellFormed(q) && Groups(One(p)) == 0 && Groups(q) == 0 && Sound(q, false, 1, false);
  }

  // ---------- where verdicts are right ----------

  /** After these steps the run has ended with the first match. */
  ghost predicate Reports(t: Text, n: Node, sticky: bool, s: Place, steps: nat)
    requires WellFormed(n)
  {
    var d, r := Steps(t, EncodeAll(Program(n, sticky)), Running(Thread(0, s, []), []), steps), Matches(t, n, sticky, s);
    d.Done? && d.ret == (r != []) && (d.ret ==> d.caps == r[0].caps)
  }

  /** The patterns that compile and whose unlimited loops end. */
  ghost predicate Usable(n: Node) {
    WellFormed(n) && Sound(n, false, 1, false) && Fits(n, false, 1) && 1 + Groups(n) <= CAPTURE_COUNT_MAX
  }

  ghost predicate RightOn(t: Text, n: Node, sticky: bool, pos: nat) {
    Usable(n) ==> var s := Place(pos, NoCaptures(1 + Groups(n))); exists steps: nat :: Reports(t, n, sticky, s, steps)
  }

  /** Every usable pattern is matched rightly from `pos`. */
  ghost predicate RightFrom(t: Text, pos: nat) { forall n, sticky :: RightOn(t, n, sticky, pos) }

  /** The verdicts on a text from a place are right for all patterns if and only if the place is not inside a pair. */
  lemma {:induction false} RightExact(t: Text, pos: nat)
    requires pos <= |t.units| < INT32_MAX
    ensures RightFrom(t, pos) <==> Boundary(t, pos)
  {
    hide Steps, EncodeAll, Program, Matches, Fits, Sound, Boundary, Groups, WellFormed;
    if Boundary(t, pos) {
      forall n, sticky
        ensures RightOn(t, n, sticky, pos)
      {
        if Usable(n) { RunsRight(t, n, sticky, pos); }
      }
    } else {
      var n, k := WrongInsidePair(t, pos);
      var s, code := Place(pos, NoCaptures(1)), EncodeAll(Program(n, true));
      if RightOn(t, n, true, pos) {
        var steps: nat :| Reports(t, n, true, s, steps);
        OneVerdict(t, code, Running(Thread(0, s, []), []), k, steps);
      }
      assert !RightOn(t, n, true, pos);
    }
  }

  lemma {:induction false} RunsRight(t: Text, n: Node, sticky: bool, pos: nat)
    requires Usable(n) && pos <= |t.units| && Boundary(t, pos)
    ensures RightOn(t, n, sticky, pos)
  {
    hide Steps, EncodeAll, Program, Matches, Fits, Sound, Boundary, Groups, WellFormed, AllValid;
    var s := Place(pos, NoCaptures(1 + Groups(n)));
    var e := Env(t, EncodeAll(Program(n, sticky)), Frame(|s.caps|, false), 0);
    ProgramValid(n, sticky);
    ProgramLoaded(e, n, sticky);
    SaneStart(t, s, e.frame);
    var steps := ProgramRuns(e, n, sticky, s);
    assert Reports(t, n, sticky, s, steps);
  }

  /** A machine reports once. */
  lemma {:induction false} OneVerdict(t: Text, code: seq<Byte>, c: Config, k: nat, n: nat)
    requires Steps(t, code, c, k).Done? && Steps(t, code, c, n).Done?
    ensures Steps(t, code, c, k) == Steps(t, code, c, n)
  {
    hide Steps;
    if k <= n {
      StepsAdd(t, code, c, k, n - k);
      FinalStays(t, code, Steps(t, code, c, k), n - k);
    } else {
      StepsAdd(t, code, c, n, k - n);
      FinalStays(t, code, Steps(t, code, c, n), k - n);
    }
  }
}
