/** Compiled patterns whose runs never end: the general condition, and one pattern for each way to meet it. */
module RegexpEndless {
  import opened RegexpCode
  import opened RegexpText
  import opened RegexpSearch
  import opened RegexpMachine
  import opened RegexpSyntax
  import opened RegexpCompile
  import opened RegexpRules
  import opened RegexpCorrect
  import opened RegexpEmit
  import opened RegexpProgram
  import opened RegexpDiverge
  import opened RegexpMain

  /** A compiled pattern with an unlimited loop that has no check, run where the loop goes round for ever, never
      stops. */
  lemma {:induction false} ExecNeverEnds(re: Regexp, t: Text, index: nat, a: Node, min: nat, greedy: bool, b: Node,
                                         sticky: bool, orbit: nat -> Place, steps: nat)
    requires min < INT32_MAX && WellFormed(a) && WellFormed(b) && WellFormed(LoopThen(a, min, greedy, b))
             && Fits(LoopThen(a, min, greedy, b), false, 1)
    requires Sound(a, false, 1, !Boundary(t, index)) && Sound(b, false, 1 + Groups(a), !Boundary(t, index))
             && 1 + Groups(a) + Groups(b) <= CAPTURE_COUNT_MAX
    requires Unguarded(Compile(a, false, 1), greedy)
    requires re.Compiled? && re.code == EncodeAll(Program(LoopThen(a, min, greedy, b), sticky))
             && re.captureCount == 1 + Groups(a) + Groups(b)
    requires index <= |t.units| && Trapped(t, a, min, greedy, b, Place(index, NoCaptures(re.captureCount)), orbit)
    ensures var c := Steps(t, re.code, Running(Thread(0, Place(index, NoCaptures(re.captureCount)), []), []), steps);
            !c.Done? && !c.Crashed?
  {
    hide EncodeAll, Compile, Fits, Sound, Steps, Boundary, Program, Trapped, Unguarded, AllValid, Has;
    var n := LoopThen(a, min, greedy, b);
    var start := Place(index, NoCaptures(re.captureCount));
    var e := Env(t, re.code, Frame(2 * re.captureCount, !Boundary(t, index)), 0);
    CompiledLoop(a, min, greedy, b);
    ProgramValid(n, sticky);
    WholeLoaded(e, Program(n, sticky));
    SaneStart(t, start, e.frame);
    MachineNeverEnds(e, a, min, greedy, b, sticky, start, orbit, steps);
  }

  /** `(?:)*?a` on "b": the lazy loop is tried again and again, since nothing checks that it moves. */
  lemma {:induction false} LazyExample(re: Regexp, t: Text, sticky: bool, steps: nat)
    requires var n := LoopThen(Empty, 0, false, One(Char(0x61)));
             re.Compiled? && re.code == EncodeAll(Program(n, sticky)) && re.captureCount == 1
    requires t.units == [0x62] && !t.ignoreCase
    ensures var c := Steps(t, re.code, Running(Thread(0, Place(0, NoCaptures(1)), []), []), steps);
            !c.Done? && !c.Crashed?
  {
    hide Steps, EncodeAll, Program;
    var s := Place(0, NoCaptures(1));
    var s' := Place(0, s.caps[0 := MarkAt(0)]);
    LazyFits();
    OneThrough(t, SaveStart(0), s);
    OneThrough(t, Char(0x61), s');
    FixedCircles(t, Iter(Empty, false, 1, false), s');
    assert [SaveStart(0)] + [] == [SaveStart(0)];
    ExecNeverEnds(re, t, 0, Empty, 0, false, One(Char(0x61)), sticky, (k: nat) => s', steps);
  }

  lemma {:induction false} LoopFits(a: Node, greedy: bool, b: Node)
    requires WellFormed(a) && WellFormed(b) && WellFormed(LoopThen(a, 0, greedy, b))
             && Unguarded(Compile(a, false, 1), greedy)
    requires Fits(a, false, 1) && Fits(b, false, 1 + Groups(a))
             && SizeAll(Compile(a, false, 1)) + SizeAll(Compile(b, false, 1 + Groups(a))) + 100 <= CODE_MAX
    ensures Fits(LoopThen(a, 0, greedy, b), false, 1)
  {
    hide EncodeAll, SizeAll, Compile, WellFormed, UsesCheck, UsesSimpleLoop, LoopCode, Fits, Groups;
    var ca, cb, q := Compile(a, false, 1), Compile(b, false, 1 + Groups(a)), Quantified(a, 0, INT32_MAX, greedy);
    LoopSize(ca, ResetPrims(a, 0, 1), greedy);
    CompiledLoop(a, 0, greedy, b);
    QuantifiedCode(a, 0, greedy);
    EncodeConcat(Compile(q, false, 1), cb);
    WholeFits(q, 1);
    WholeFits(LoopThen(a, 0, greedy, b), 1);
  }

  /** A pattern fits if its code does and its parts do. */
  lemma {:induction false} WholeFits(n: Node, base: nat)
    requires WellFormed(n) && SizeAll(Compile(n, false, base)) <= CODE_MAX
    requires match n
             case Sequence(a, b) => WellFormed(a) && WellFormed(b) && Fits(a, false, base)
                && Fits(b, false, base + Groups(a))
             case Choice(a, b) => WellFormed(a) && WellFormed(b) && Fits(a, false, base)
                && Fits(b, false, base + Groups(a))
             case Group(a) => WellFormed(a) && Fits(a, false, base + 1)
             case Quantified(a, _, _, _) => WellFormed(a) && Fits(a, false, base)
             case Reference(_) => true
             case _ => false
    ensures Fits(n, false, base)
  {
    hide Compile, SizeAll, EncodeAll, WellFormed, Groups;
  }

  lemma {:induction false} LoopSize(a: seq<Instr>, resets: seq<Prim>, greedy: bool)
    requires Unguarded(a, greedy) && |resets| <= 1 && forall i :: 0 <= i < |resets| ==> resets[i].SaveReset?
    ensures SizeAll(LoopCode(a, resets, 0, INT32_MAX, greedy)) <= SizeAll(a) + 60
  {
    hide EncodeAll, SizeAll;
    var fork, jump := Split(greedy, SizeAll(a) + 5), Goto(-(SizeAll(a) as int) - 10);
    if resets != [] { DoOne(resets[0]); assert resets == [resets[0]]; }
    PlainSize(DoAll(resets));
    EncodeConcat(DoAll(resets), [fork] + a + [jump]);
    EncodeConcat([fork] + a, [jump]);
    EncodeConcat([fork], a);
    PlainSize([fork]);
    PlainSize([jump]);
  }

  lemma {:induction false} LetterFits(c: nat, base: nat)
    requires c < U16
    ensures var b := One(Char(c)); WellFormed(b) && Groups(b) == 0 && Compile(b, false, base) == [Do(Char(c))]
    ensures var b := One(Char(c));
            Sound(b, false, base, false) && Fits(b, false, base) && SizeAll(Compile(b, false, base)) <= 17
  {
    hide EncodeAll, SizeAll;
    DoOne(Char(c));
    PlainSize([Do(Char(c))]);
  }

  lemma {:induction false} LazyFits()
    ensures var b := One(Char(0x61)); var n := LoopThen(Empty, 0, false, b);
            WellFormed(b) && WellFormed(n) && Fits(n, false, 1) && Groups(b) == 0
  {
    hide EncodeAll, SizeAll;
    LetterFits(0x61, 1);
    PlainSize([]);
    LoopFits(Empty, false, One(Char(0x61)));
  }

  /** The body of `(?:(a)|\1)*b`: it reads the capture that it writes, so that the compiler cannot tell whether it
      advances. */
  function SelfReading(): (n: Node) { Choice(Group(One(Char(0x61))), Reference(1)) }

  /** `(?:(a)|\1)*b` on "c": the group is unset, and the reference to it matches nothing for ever. */
  lemma {:induction false} GreedyExample(re: Regexp, t: Text, sticky: bool, steps: nat)
    requires WellFormed(LoopThen(SelfReading(), 0, true, One(Char(0x62))))
    requires re.Compiled? && re.code == EncodeAll(Program(LoopThen(SelfReading(), 0, true, One(Char(0x62))), sticky))
             && re.captureCount == 2
    requires t.units == [0x63] && !t.ignoreCase
    ensures var c := Steps(t, re.code, Running(Thread(0, Place(0, NoCaptures(2)), []), []), steps);
            !c.Done? && !c.Crashed?
  {
    hide Steps, EncodeAll, Program, Compile, Sound, Fits, Unguarded, Results, Circles, WellFormed, Groups, Through,
         SizeAll, ResetPrims;
    var a, b, s := SelfReading(), One(Char(0x62)), Place(0, NoCaptures(2));
    var s' := Place(0, s.caps[0 := MarkAt(0)]);
    LetterFits(0x62, 2);
    SelfReadingShape();
    SelfReadingCode();
    LoopFits(a, true, b);
    SelfReadingStays(t, s');
    SelfReadingOpens(t, s);
    FixedCircles(t, Iter(a, false, 1, true), s');
    ExecNeverEnds(re, t, 0, a, 0, true, b, sticky, (k: nat) => s', steps);
  }

  lemma {:induction false} SelfReadingShape()
    ensures var a := SelfReading(); WellFormed(a) && Groups(a) == 1 && Sound(a, false, 1, false)
    ensures var g := Group(One(Char(0x61)));
            WellFormed(g) && Groups(g) == 1
               && Compile(g, false, 1) == [Do(SaveStart(1))] + [Do(Char(0x61))] + [Do(SaveEnd(1))]
  {
    hide Fits;
    var g, r := Group(One(Char(0x61))), Reference(1);
    LetterFits(0x61, 2);
    assert WellFormed(g) && Groups(g) == 1 && Sound(g, false, 1, false);
    assert WellFormed(r) && Sound(r, false, 2, false);
  }

  lemma {:induction false} SelfReadingCode()
    ensures var a := SelfReading();
            WellFormed(a) && Fits(a, false, 1) && SizeAll(Compile(a, false, 1)) <= 200
            && Unguarded(Compile(a, false, 1), true)
  {
    hide EncodeAll, SizeAll, Groups, WellFormed, Sound, Fits, Compile, Unguarded;
    SelfReadingShape();
    LetterFits(0x61, 2);
    ReferenceShape();
    var a, g, r := SelfReading(), Group(One(Char(0x61))), Reference(1);
    var cg, cr := Compile(g, false, 1), Compile(r, false, 2);
    ChoiceShape(g, r, 1);
    var ca := Compile(a, false, 1);
    PlainSize(ca);
    PlainSize(cg);
    PlainSize(cr);
    WholeFits(g, 1);
    WholeFits(r, 2);
    WholeFits(a, 1);
    assert ca[0].SplitNextFirst? && ca[1] == Do(SaveStart(1)) && ca[5] == Do(BackReference(1));
    ReadsOwnWrites(ca, 1, 5, 1);
  }

  lemma {:induction false} ChoiceShape(a: Node, b: Node, base: nat)
    requires WellFormed(a) && WellFormed(b) && WellFormed(Choice(a, b))
    ensures var ca, cb := Compile(a, false, base), Compile(b, false, base + Groups(a));
            Compile(Choice(a, b), false, base) == [SplitNextFirst(SizeAll(ca) + 5)] + ca + [Goto(SizeAll(cb))] + cb
  {
    hide SizeAll, LoopCode, DoAll, LookCode, ResetPrims, Groups, WellFormed;
    assert Compile(Choice(a, b), false, base) == ChoiceCode(Compile(a, false, base),
                                                            Compile(b, false, base + Groups(a)));
  }

  /** Code that begins with a fork and reads a capture that it writes gets no check. */
  lemma {:induction false} ReadsOwnWrites(prog: seq<Instr>, i: nat, j: nat, k: nat)
    requires i < |prog| && j < |prog| && prog[0].SplitNextFirst? && k in WrittenBy(prog[i]) && k in ReadBy(prog[j])
    ensures Unguarded(prog, true)
  {
    hide Written, Read;
    WrittenHas(prog, i, k);
    ReadHas(prog, j, k);
    assert k in Written(prog) * Read(prog);
  }

  lemma {:induction false} ReferenceShape()
    ensures var r := Reference(1); WellFormed(r) && Groups(r) == 0 && Compile(r, false, 2) == [Do(BackReference(1))]
  {
  }

  lemma {:induction false} SelfReadingStays(t: Text, s: Place)
    requires t.units == [0x63] && !t.ignoreCase && s.pos == 0 && |s.caps| == 4 && s.caps[2] == NoMark
    ensures Results(t, SelfReading(), false, 1, s) == [s]
  {
    var g, r := Group(One(Char(0x61))), Reference(1);
    OneThrough(t, SaveStart(1), s);
    var s1 := Perform(t, SaveStart(1), s).s;
    OneThrough(t, Char(0x61), s1);
    assert Results(t, One(Char(0x61)), false, 2, s1) == [];
    assert ResultsAll(t, One(Char(0x61)), false, 2, [s1]) == [];
    assert Results(t, g, false, 1, s) == [];
    OneThrough(t, BackReference(1), s);
  }

  lemma {:induction false} SelfReadingOpens(t: Text, s: Place)
    requires s == Place(0, NoCaptures(2))
    ensures Through(t, [SaveStart(0)] + ResetPrims(SelfReading(), 0, 1), s) == [Place(0, s.caps[0 := MarkAt(0)])]
  {
    SelfReadingShape();
    ThroughSplit(t, SaveStart(0), [SaveReset(1, 1)], s);
    var s1 := Place(0, s.caps[0 := MarkAt(0)]);
    OneThrough(t, SaveReset(1, 1), s1);
    assert ResetCaptures(s1.caps, 1, 1) == s1.caps;
  }
}
