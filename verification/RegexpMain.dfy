/** From a pattern to a verdict: compiling to bytes and running them. */
module RegexpMain {
  import opened RegexpCode
  import opened RegexpText
  import opened RegexpSearch
  import opened RegexpMachine
  import opened RegexpExec
  import opened RegexpSyntax
  import opened RegexpCompile
  import opened RegexpRules
  import opened RegexpEmit
  import opened RegexpProgram
  import opened RegexpStack
  import opened RegexpCaptures

  datatype Regexp =
    | Compiled(code: seq<Byte>, captureCount: nat, stackSize: nat)
    | TooManyCaptures
    | TooManyQuantifiers

  lemma {:induction false} ProgramValid(n: Node, sticky: bool)
    requires WellFormed(n) && Fits(n, false, 1) && 1 + Groups(n) <= CAPTURE_COUNT_MAX
    ensures AllValid(Program(n, sticky))
  {
    hide SizeAll, EncodeAll, Compile;
    var a := Compile(n, false, 1);
    CompiledValid(n, false, 1);
    ValidFrame([Do(SaveStart(0))], a, [Do(SaveEnd(0)), Match]);
    ValidConcat(Prefix(sticky), CoreCode(a));
  }

  /** Compiles a pattern. It fails for too many captures or too deeply nested loops, and only then. */
  method LreCompile(n: Node, sticky: bool) returns (r: Regexp)
    requires WellFormed(n) && Fits(n, false, 1)
    ensures r.TooManyCaptures? <==> 1 + Groups(n) > 255
    ensures r.TooManyQuantifiers? <==> 1 + Groups(n) <= 255
                                       && MaxDepth(Program(n, sticky)) > 255
    ensures r.Compiled? ==> r.code == EncodeAll(Program(n, sticky)) && r.captureCount == 1 + Groups(n)
                            && r.stackSize == MaxDepth(Program(n, sticky))
  {
    hide EncodeAll, Encode, Compile, MaxDepth, AllValid, Fits;
    var c := new Compiler();
    if !sticky {
      c.Emit(SplitGotoFirst(6));
      c.Emit(Do(Any));
      c.Emit(Goto(-11));
    }
    PrefixBytes(sticky);
    assert c.buf == EncodeAll(Prefix(sticky));
    c.Emit(Do(SaveStart(0)));
    var ok := c.EmitNode(n, false);
    if !ok { return TooManyCaptures; }
    c.Emit(Do(SaveEnd(0)));
    c.Emit(Match);
    ghost var prog := Program(n, sticky);
    ProgramBytes(n, sticky);
    assert c.buf == EncodeAll(prog);
    ProgramValid(n, sticky);
    var size := ComputeStackSize(c.buf, prog);
    if size < 0 { return TooManyQuantifiers; }
    return Compiled(c.buf, c.captureCount, size);
  }

  lemma {:induction false} PrefixBytes(sticky: bool)
    ensures EncodeAll(Prefix(sticky))
            == if sticky then [] else Encode(SplitGotoFirst(6)) + Encode(Do(Any)) + Encode(Goto(-11))
  {
    hide EncodeAll, Encode;
    if sticky {
      NoBytes();
    } else {
      assert Prefix(false) == [SplitGotoFirst(6)] + [Do(Any)] + [Goto(-11)];
      EncodeFrame([SplitGotoFirst(6)], [Do(Any)], [Goto(-11)]);
      EncodeOne(SplitGotoFirst(6));
      EncodeOne(Do(Any));
      EncodeOne(Goto(-11));
    }
  }

  lemma {:induction false} ProgramBytes(n: Node, sticky: bool)
    requires WellFormed(n)
    ensures EncodeAll(Program(n, sticky))
            == EncodeAll(Prefix(sticky)) + Encode(Do(SaveStart(0))) + EncodeAll(Compile(n, false, 1))
               + Encode(Do(SaveEnd(0))) + Encode(Match)
  {
    hide EncodeAll, Encode, Compile;
    var a := Compile(n, false, 1);
    EncodeConcat(Prefix(sticky), CoreCode(a));
    EncodeFrame([Do(SaveStart(0))], a, [Do(SaveEnd(0)), Match]);
    EncodeOne(Do(SaveStart(0)));
    EncodeTwo(Do(SaveEnd(0)), Match);
  }

  /** No captures yet. */
  function NoCaptures(count: nat): (caps: seq<Mark>)
    ensures |caps| == 2 * count && forall i :: 0 <= i < |caps| ==> caps[i] == NoMark
  {
    seq(2 * count, _ => NoMark)
  }

  /** Runs a compiled pattern from `index`: the machine ends and reports the pattern's first match, with its
      captures. */
  method LreExec(re: Regexp, t: Text, index: nat, ghost n: Node, ghost sticky: bool)
    returns (ret: bool, capture: seq<Mark>)
    requires WellFormed(n) && Sound(n, false, 1, !Boundary(t, index)) && Fits(n, false, 1)
             && 1 + Groups(n) <= CAPTURE_COUNT_MAX
    requires re.Compiled? && re.code == EncodeAll(Program(n, sticky)) && re.captureCount == 1 + Groups(n)
    requires index <= |t.units|
    ensures var r := Matches(t, n, sticky, Place(index, NoCaptures(re.captureCount)));
            ret == (r != []) && (ret ==> capture == r[0].caps)
    ensures ret ==> |capture| == 2 * re.captureCount && capture[0].MarkAt? && capture[1].MarkAt?
    ensures ret ==> forall k :: 0 <= k < re.captureCount ==>
                                  var a, b := capture[2 * k], capture[2 * k + 1];
                                  (a == NoMark && b == NoMark)
                                  || (a.MarkAt? && b.MarkAt? && a.pos <= b.pos <= |t.units|)
  {
    hide EncodeAll, Compile, Fits, Sound, Matches, Steps, Boundary, WellFormed;
    MatchesOrder(t, n, sticky, Place(index, NoCaptures(re.captureCount)));
    var start := Place(index, NoCaptures(re.captureCount));
    ghost var e := Env(t, re.code, Frame(2 * re.captureCount, !Boundary(t, index)), 0);
    ProgramValid(n, sticky);
    ProgramLoaded(e, n, sticky);
    SaneStart(t, start, e.frame);
    ghost var steps := ProgramRuns(e, n, sticky, start);
    var ctx := new ExecContext();
    ret, capture := ExecBacktrack(ctx, t, re.code, start.caps, 0, index, steps);
  }

  lemma {:induction false} ProgramLoaded(e: Env, n: Node, sticky: bool)
    requires WellFormed(n) && Sound(n, false, 1, e.frame.loose) && 2 * (1 + Groups(n)) <= e.frame.marks
    requires e.code == EncodeAll(Program(n, sticky)) && AllValid(Program(n, sticky))
    ensures CanRun(e, n, sticky)
  {
    hide EncodeAll, AllValid, Sound, Program;
    WholeLoaded(e, Program(n, sticky));
  }

  lemma {:induction false} SaneStart(t: Text, s: Place, frame: Frame)
    requires s.pos <= |t.units| && |s.caps| == frame.marks && (frame.loose || Boundary(t, s.pos))
    ensures Sane(t, s, frame)
  {
  }

  /** During such a run the stack never exceeds the computed size. */
  lemma {:induction false} ExecStack(re: Regexp, t: Text, n: Node, sticky: bool, s: Place, steps: nat)
    requires WellFormed(n) && Fits(n, false, 1) && 1 + Groups(n) <= CAPTURE_COUNT_MAX
    requires re.Compiled? && re.code == EncodeAll(Program(n, sticky)) && re.stackSize == MaxDepth(Program(n, sticky))
    ensures var c := Steps(t, re.code, Running(Thread(0, s, []), []), steps);
            c.Running? ==> |c.th.stack| <= re.stackSize
  {
    hide EncodeAll, Program, MaxDepth, Steps, Safe, AllValid, Fits;
    ProgramValid(n, sticky);
    ProgramSafe(n, sticky);
    StackNeverOverflows(t, Program(n, sticky), s, steps);
  }
}
