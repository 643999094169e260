/** The compiler's byte buffer: code is appended, inserted in front of what is already there, copied and patched. */
module RegexpEmit {
  import opened RegexpCode
  import opened RegexpText
  import opened RegexpSearch
  import opened RegexpSyntax
  import opened RegexpCompile
  import opened RegexpRules

  // ---------- code that fits ----------

  /** Largest code size that is modelled: all jump distances fit their operands. */
  const CODE_MAX: nat := 0x7fff_0000

  const CAPTURE_COUNT_MAX: nat := 255

  /** The code of the pattern and of each of its parts fits. */
  predicate Fits(n: Node, back: bool, base: nat)
    requires WellFormed(n)
  {
    && SizeAll(Compile(n, back, base)) <= CODE_MAX
    && match n
       case Sequence(a, b) => Fits(a, back, base) && Fits(b, back, base + Groups(a))
       case Choice(a, b) => Fits(a, back, base) && Fits(b, back, base + Groups(a))
       case Group(a) => Fits(a, back, base + 1)
       case Look(a, behind, _) => Fits(a, behind, base)
       case Quantified(a, _, _, _) => Fits(a, back, base)
       case _ => true
  }

  /** Instructions of a fixed length. */
  predicate Plain(i: Instr) { i.Do? ==> !i.p.Range? && !i.p.Range32? }

  lemma {:induction false} PlainSize(prog: seq<Instr>)
    requires forall i :: 0 <= i < |prog| ==> Plain(prog[i])
    ensures SizeAll(prog) <= 17 * |prog|
  {
    hide EncodeAll, SizeAll;
    if prog == [] {
      EmptySize();
    } else {
      assert prog == [prog[0]] + prog[1..];
      EncodeConcat([prog[0]], prog[1..]);
      EncodeOne(prog[0]);
      assert Size(prog[0]) <= 17;
      PlainSize(prog[1..]);
    }
  }

  lemma {:induction false} ValidConcat(a: seq<Instr>, b: seq<Instr>)
    requires AllValid(a) && AllValid(b)
    ensures AllValid(a + b)
  {
    hide ValidInstr;
  }

  lemma {:induction false} ValidFrame(pre: seq<Instr>, a: seq<Instr>, post: seq<Instr>)
    requires AllValid(pre) && AllValid(a) && AllValid(post)
    ensures AllValid(pre + a + post)
  {
    hide AllValid;
    ValidConcat(pre, a);
    ValidConcat(pre + a, post);
  }

  lemma {:induction false} SimpleCountBound(a: seq<Instr>)
    ensures SimpleCount(a) <= SizeAll(a)
  {
    if a != [] {
      SimpleCountBound(a[1..]);
      assert a == [a[0]] + a[1..];
      EncodeConcat([a[0]], a[1..]);
      EncodeOne(a[0]);
    }
  }

  lemma {:induction false} ValidStar(a: seq<Instr>, greedy: bool, check: bool)
    requires AllValid(a) && SizeAll(a) <= CODE_MAX
    ensures AllValid(StarCode(a, greedy, check))
  {
    hide SizeAll;
    var len := SizeAll(a);
    if check { ValidFrame([Split(greedy, len + 6), PushCharPos], a, [BneCharPos(-(len as int) - 11)]); }
    else { ValidFrame([Split(greedy, len + 5)], a, [Goto(-(len as int) - 10)]); }
  }

  lemma {:induction false} ValidUpTo(a: seq<Instr>, greedy: bool, m: nat)
    requires AllValid(a) && SizeAll(a) <= CODE_MAX && m <= INT32_MAX
    ensures AllValid(UpToCode(a, greedy, m))
  {
    hide SizeAll;
    var len := SizeAll(a);
    ValidFrame([PushI32(m), Split(greedy, len + 5)], a, [Loop(-(len as int) - 10), Drop]);
  }

  lemma {:induction false} ValidTimes(a: seq<Instr>, m: nat)
    requires AllValid(a) && SizeAll(a) <= CODE_MAX && m <= INT32_MAX
    ensures AllValid(TimesCode(a, m))
  {
    hide SizeAll;
    if m != 1 { ValidFrame([PushI32(m)], a, [Loop(-(SizeAll(a) as int) - 5), Drop]); }
  }

  lemma {:induction false} ValidRest(a: seq<Instr>, greedy: bool, check: bool, min: nat, max: nat)
    requires AllValid(a) && SizeAll(a) <= CODE_MAX && min <= max <= INT32_MAX
    ensures AllValid(RestCode(a, greedy, check, min, max))
  {
    hide SizeAll, StarCode, UpToCode;
    if max == INT32_MAX { ValidStar(a, greedy, check); }
    else if max > min { ValidUpTo(a, greedy, max - min); }
  }

  lemma {:induction false} ValidSimpleLoop(a: seq<Instr>, min: nat, max: nat)
    requires AllValid(a) && SizeAll(a) <= CODE_MAX && min <= max <= INT32_MAX && SimpleCount(a) >= 0
    ensures AllValid(SimpleLoop(a, min, max))
  {
    hide SizeAll, SimpleCount;
    SimpleCountBound(a);
    ValidFrame([SimpleGreedyQuant(SizeAll(a) + 1, min, max, SimpleCount(a))], a, [Match]);
  }

  lemma {:induction false} ValidLoop(a: seq<Instr>, resets: seq<Prim>, min: nat, max: nat, greedy: bool)
    requires min <= max <= INT32_MAX && AllValid(a) && SizeAll(a) <= CODE_MAX
    requires forall i :: 0 <= i < |resets| ==> ValidPrim(resets[i])
    ensures AllValid(LoopCode(a, resets, min, max, greedy))
  {
    hide CheckAdvance, SimpleCount, SizeAll, ValidPrim, StarCode, UpToCode, TimesCode, RestCode, SimpleLoop, DoAll;
    var check, len := UsesCheck(a, greedy), SizeAll(a);
    if UsesSimpleLoop(a, max, greedy) {
      ValidSimpleLoop(a, min, max);
    } else if min == 0 {
      var body := if max == 0 then [] else if max == 1 then [Split(greedy, len)] + a
                  else if max == INT32_MAX then StarCode(a, greedy, check) else UpToCode(a, greedy, max);
      ValidResets(resets);
      if max == 1 { ValidConcat([Split(greedy, len)], a); }
      else if max == INT32_MAX { ValidStar(a, greedy, check); }
      else if max > 1 { ValidUpTo(a, greedy, max); }
      ValidConcat(DoAll(resets), body);
    } else if min == 1 && max == INT32_MAX && !check {
      ValidConcat(a, [Split(!greedy, -(len as int) - 5)]);
    } else {
      ValidTimes(a, min);
      ValidRest(a, greedy, check, min, max);
      ValidConcat(TimesCode(a, min), RestCode(a, greedy, check, min, max));
    }
  }

  lemma {:induction false} ValidResets(resets: seq<Prim>)
    requires forall i :: 0 <= i < |resets| ==> ValidPrim(resets[i])
    ensures AllValid(DoAll(resets))
    decreases resets
  {
    hide ValidPrim;
    if resets != [] { ValidResets(resets[1..]); }
  }

  lemma {:induction false} CompiledValid(n: Node, back: bool, base: nat)
    requires WellFormed(n) && Fits(n, back, base) && base + Groups(n) <= CAPTURE_COUNT_MAX
    ensures AllValid(Compile(n, back, base))
    decreases n
  {
    hide SizeAll, AllValid, Compile, Fits, ValidPrim;
    FitsParts(n, back, base);
    CompileParts(n, back, base);
    match n
    case Sequence(a, b) =>
      CompiledValid(a, back, base);
      CompiledValid(b, back, base + Groups(a));
      ValidConcat(Compile(a, back, base), Compile(b, back, base + Groups(a)));
      ValidConcat(Compile(b, back, base + Groups(a)), Compile(a, back, base));
    case Choice(a, b) =>
      CompiledValid(a, back, base);
      CompiledValid(b, back, base + Groups(a));
      ValidChoice(Compile(a, back, base), Compile(b, back, base + Groups(a)));
    case Group(a) =>
      CompiledValid(a, back, base + 1);
      ValidGroup(base, back, Compile(a, back, base + 1));
    case Look(a, behind, negative) =>
      CompiledValid(a, behind, base);
      ValidLook(Compile(a, behind, base), negative);
    case Quantified(a, min, max, greedy) =>
      CompiledValid(a, back, base);
      ResetsValid(a, min, base);
      ValidLoop(Compile(a, back, base), ResetPrims(a, min, base), min, max, greedy);
    case _ => ValidLeaf(n, back, base);
  }

  lemma {:induction false} ResetsValid(n: Node, min: nat, base: nat)
    requires base + Groups(n) <= CAPTURE_COUNT_MAX
    ensures forall i :: 0 <= i < |ResetPrims(n, min, base)| ==> ValidPrim(ResetPrims(n, min, base)[i])
  {
  }

  /** The parts of a pattern that fits also fit. */
  lemma {:induction false} FitsParts(n: Node, back: bool, base: nat)
    requires WellFormed(n) && Fits(n, back, base)
    ensures match n
            case Sequence(a, b) => Fits(a, back, base) && Fits(b, back, base + Groups(a))
            case Choice(a, b) => && Fits(a, back, base) && Fits(b, back, base + Groups(a))
                                 && SizeAll(Compile(a, back, base)) <= CODE_MAX
                                 && SizeAll(Compile(b, back, base + Groups(a))) <= CODE_MAX
            case Group(a) => Fits(a, back, base + 1)
            case Look(a, behind, _) => Fits(a, behind, base) && SizeAll(Compile(a, behind, base)) <= CODE_MAX
            case Quantified(a, _, _, _) => Fits(a, back, base) && SizeAll(Compile(a, back, base)) <= CODE_MAX
            case _ => true
  {
    hide SizeAll, Compile;
  }

  lemma {:induction false} CompileParts(n: Node, back: bool, base: nat)
    requires WellFormed(n)
    ensures match n
            case Sequence(a, b) => Compile(n, back, base)
               == if back then Compile(b, back, base + Groups(a)) + Compile(a, back, base)
                  else Compile(a, back, base) + Compile(b, back, base + Groups(a))
            case Choice(a, b) => Compile(n, back, base) == ChoiceCode(Compile(a, back, base),
                                                                      Compile(b, back, base + Groups(a)))
            case Group(a) => Compile(n, back, base) == [Do(OpenPrim(base, back))] + Compile(a, back,
                 base + 1) + [Do(ClosePrim(base, back))]
            case Look(a, behind, negative) => Compile(n, back, base) == LookCode(Compile(a, behind, base), negative)
            case Quantified(a, min, max, greedy) => Compile(n, back, base) == LoopCode(Compile(a, back, base),
                 ResetPrims(a, min, base), min, max, greedy)
            case _ => true
  {
    hide LoopCode, LookCode, ChoiceCode, DoAll;
  }

  lemma {:induction false} ValidLeaf(n: Node, back: bool, base: nat)
    requires WellFormed(n) && (n.Empty? || n.One? || n.Assertion? || n.Reference?)
    ensures AllValid(Compile(n, back, base))
  {
    hide DoAll, ValidPrim;
    if n.One? { assert ValidPrim(Prev) by { PrevValid(); } ValidResets(OnePrims(n.p, back)); }
    else if !n.Empty? { LeafPrimValid(n, back); }
  }

  lemma {:induction false} PrevValid()
    ensures ValidPrim(Prev)
  {
  }

  lemma {:induction false} LeafPrimValid(n: Node, back: bool)
    requires WellFormed(n) && (n.Assertion? || n.Reference?)
    ensures if n.Assertion? then ValidPrim(n.p) else ValidPrim(ReferencePrim(n.k, back))
  {
  }

  lemma {:induction false} ValidChoice(a: seq<Instr>, b: seq<Instr>)
    requires AllValid(a) && AllValid(b) && SizeAll(a) <= CODE_MAX && SizeAll(b) <= CODE_MAX
    ensures AllValid(ChoiceCode(a, b))
  {
    hide SizeAll;
    ValidFrame([SplitNextFirst(SizeAll(a) + 5)], a, [Goto(SizeAll(b))]);
    ValidConcat([SplitNextFirst(SizeAll(a) + 5)] + a + [Goto(SizeAll(b))], b);
  }

  lemma {:induction false} ValidGroup(k: nat, back: bool, a: seq<Instr>)
    requires AllValid(a) && k < CAPTURE_COUNT_MAX
    ensures AllValid([Do(OpenPrim(k, back))] + a + [Do(ClosePrim(k, back))])
  {
    ValidFrame([Do(OpenPrim(k, back))], a, [Do(ClosePrim(k, back))]);
  }

  lemma {:induction false} ValidLook(a: seq<Instr>, negative: bool)
    requires AllValid(a) && SizeAll(a) <= CODE_MAX
    ensures AllValid(LookCode(a, negative))
  {
    hide SizeAll;
    ValidFrame([LookCode(a, negative)[0]], a, [Match]);
  }

  // ---------- scanning emitted code ----------

  /** Instruction `k` of encoded code. */
  lemma {:induction false} FetchNth(prog: seq<Instr>, k: nat)
    requires k < |prog| && AllValid(prog)
    ensures Fetch(EncodeAll(prog), SizeAll(prog[..k])) == Got(prog[k], SizeAll(prog[..k + 1]))
            && SizeAll(prog[..k]) < SizeAll(prog)
  {
    hide EncodeAll, SizeAll, Fetch, Size, ValidInstr;
    var e := Env(Text([], false, false, false, x => 0), EncodeAll(prog), Frame(0, false), 0);
    var a, b := prog[..k], prog[k + 1..];
    assert prog == a + ([prog[k]] + b);
    WholeLoaded(e, prog);
    LoadedSplit(e, 0, a, [prog[k]] + b);
    LoadedFirst(e, SizeAll(a), prog[k], b);
    assert prog[..k + 1] == a + [prog[k]];
    EncodeConcat(a, [prog[k]]);
    EncodeOne(prog[k]);
  }

  lemma {:induction false} WholeLoaded(e: Env, prog: seq<Instr>)
    requires e.code == EncodeAll(prog) && AllValid(prog)
    ensures Loaded(e, 0, prog)
  {
    hide EncodeAll, ValidInstr;
    assert e.code[0..|e.code|] == e.code;
  }

  lemma {:induction false} SimplePrefix(a: seq<Instr>, b: seq<Instr>)
    ensures SimpleCount(a + b) == if SimpleCount(a) < 0
            || SimpleCount(b) < 0 then -1 else SimpleCount(a) + SimpleCount(b)
  {
    hide IsSimple, Consumes;
    if a == [] {
      assert a + b == b;
    } else {
      assert (a + b)[0] == a[0] && (a + b)[1..] == a[1..] + b;
      SimplePrefix(a[1..], b);
    }
  }

  lemma {:induction false} SimpleOne(i: Instr)
    ensures SimpleCount([i]) == if i.Do? && IsSimple(i.p) then (if Consumes(i.p) then 1 else 0) else -1
  {
    assert [i][1..] == [] && SimpleCount([]) == 0;
  }

  /** The number of characters of straight-line code, or -1. */
  method IsSimpleQuantifier(bc: seq<Byte>, ghost prog: seq<Instr>) returns (count: int)
    requires bc == EncodeAll(prog) && AllValid(prog)
    ensures count == SimpleCount(prog)
  {
    hide EncodeAll, SizeAll, Fetch, SimpleCount, IsSimple, Consumes, AllValid;
    var pos := 0;
    ghost var k := 0;
    count := 0;
    NothingScanned(prog);
    while pos < |bc|
      invariant k <= |prog| && pos == SizeAll(prog[..k]) && count == SimpleCount(prog[..k]) >= 0
      decreases |prog| - k
    {
      ScanStep(prog, k);
      var f := Fetch(bc, pos);
      SimplePrefix(prog[..k], [prog[k]]);
      SimpleOne(prog[k]);
      SimplePrefix(prog[..k + 1], prog[k + 1..]);
      assert prog == prog[..k + 1] + prog[k + 1..];
      if !(f.i.Do? && IsSimple(f.i.p)) {
        return -1;
      }
      if Consumes(f.i.p) { count := count + 1; }
      pos, k := f.next, k + 1;
    }
    ScanEnd(prog, k);
  }

  lemma {:induction false} NothingScanned(prog: seq<Instr>)
    ensures SizeAll(prog[..0]) == 0 && SimpleCount(prog[..0]) == 0 && FirstDecisive(prog[..0]).Unknown?
    ensures Written(prog[..0]) == {} && Read(prog[..0]) == {}
  {
    assert prog[..0] == [];
  }

  lemma {:induction false} ScanStep(prog: seq<Instr>, k: nat)
    requires k <= |prog| && AllValid(prog) && SizeAll(prog[..k]) < SizeAll(prog)
    ensures k < |prog| && Fetch(EncodeAll(prog), SizeAll(prog[..k])) == Got(prog[k], SizeAll(prog[..k + 1]))
            && prog[..k + 1] == prog[..k] + [prog[k]]
  {
    hide EncodeAll, Fetch, SizeAll, AllValid;
    assert prog[..|prog|] == prog;
    if k < |prog| { FetchNth(prog, k); }
  }

  lemma {:induction false} ScanEnd(prog: seq<Instr>, k: nat)
    requires k <= |prog| && AllValid(prog) && SizeAll(prog[..k]) >= SizeAll(prog)
    ensures prog[..k] == prog
  {
    hide EncodeAll, Fetch, SizeAll;
    if k < |prog| { FetchNth(prog, k); }
  }

  lemma {:induction false} WrittenConcat(a: seq<Instr>, b: seq<Instr>)
    ensures Written(a + b) == Written(a) + Written(b) && Read(a + b) == Read(a) + Read(b)
  {
    hide WrittenBy, ReadBy;
    if a == [] {
      assert a + b == b;
    } else {
      assert (a + b)[0] == a[0] && (a + b)[1..] == a[1..] + b;
      WrittenConcat(a[1..], b);
    }
  }

  lemma {:induction false} ScannedOne(i: Instr)
    ensures Written([i]) == WrittenBy(i) && Read([i]) == ReadBy(i)
    ensures FirstDecisive([i]) == match i
                                  case Do(p) => if Consumes(p) then Always else Unknown
                                  case PushI32(_) => Unknown
                                  case PushCharPos => Unknown
                                  case Drop => Unknown
                                  case _ => Maybe
  {
    hide WrittenBy, ReadBy;
    assert [i][1..] == [];
  }

  /** Whether the code always advances: a single pass that notes the first decisive instruction and the captures. */
  method CheckAdvanceOf(bc: seq<Byte>, ghost prog: seq<Instr>) returns (ret: int)
    requires bc == EncodeAll(prog) && AllValid(prog)
    ensures ret == CheckAdvance(prog)
  {
    hide EncodeAll, SizeAll, Fetch, Consumes, AllValid, WrittenBy, ReadBy, FirstDecisive;
    var pos, decisive := 0, Unknown;
    var written: set<nat>, read: set<nat> := {}, {};
    ghost var k := 0;
    NothingScanned(prog);
    while pos < |bc|
      invariant k <= |prog| && pos == SizeAll(prog[..k])
      invariant decisive == FirstDecisive(prog[..k]) && written == Written(prog[..k]) && read == Read(prog[..k])
      decreases |prog| - k
    {
      ScanStep(prog, k);
      var f := Fetch(bc, pos);
      DecisiveConcat(prog[..k], [prog[k]]);
      WrittenConcat(prog[..k], [prog[k]]);
      ScannedOne(prog[k]);
      if decisive == Unknown {
        if f.i.Do? && Consumes(f.i.p) { decisive := Always; }
        else if !f.i.Do? && !f.i.PushI32? && !f.i.PushCharPos? && !f.i.Drop? { decisive := Maybe; }
      }
      written, read := written + WrittenBy(f.i), read + ReadBy(f.i);
      pos, k := f.next, k + 1;
    }
    ScanEnd(prog, k);
    return if written * read != {} then -1 else if decisive == Always then 1 else 0;
  }

  // ---------- the buffer ----------

  class Compiler {
    var buf: seq<Byte>
    var captureCount: nat

    constructor ()
      ensures buf == [] && captureCount == 1
    {
      buf, captureCount := [], 1;
    }

    method Emit(i: Instr)
      modifies this`buf
      ensures buf == old(buf) + Encode(i)
    {
      buf := buf + Encode(i);
    }

    /** Makes room for `len` bytes at `pos`. */
    method Insert(pos: nat, len: nat)
      requires pos <= |buf|
      modifies this`buf
      ensures buf == old(buf[..pos]) + seq(len, _ => 0) + old(buf[pos..])
    {
      buf := buf[..pos] + seq(len, _ => 0) + buf[pos..];
    }

    /** Overwrites bytes from `pos` on. */
    method Put(pos: nat, bytes: seq<Byte>)
      requires pos + |bytes| <= |buf|
      modifies this`buf
      ensures buf == old(buf[..pos]) + bytes + old(buf[pos + |bytes|..])
    {
      buf := buf[..pos] + bytes + buf[pos + |bytes|..];
    }

    method InsertInstr(pos: nat, i: Instr)
      requires pos <= |buf|
      modifies this`buf
      ensures buf == old(buf[..pos]) + Encode(i) + old(buf[pos..])
    {
      hide Encode;
      ghost var a, b := buf[..pos], buf[pos..];
      var e := Encode(i);
      Insert(pos, |e|);
      Put(pos, e);
      Overwritten(a, seq(|e|, _ => 0), e, b);
    }

    /** Copies `len` bytes from `start` to the end. */
    method PutSelf(start: nat, len: nat)
      requires start + len <= |buf|
      modifies this`buf
      ensures buf == old(buf) + old(buf[start..start + len])
    {
      buf := buf + buf[start..start + len];
    }

    /** Patches the distance of the jump whose operand is at `pos`. */
    method Patch(pos: nat, i: Instr, j: Instr, ghost a: seq<Byte>, ghost b: seq<Byte>)
      requires buf == a + Encode(i) + b && pos == |a| + 1
      requires (i.Goto? && j.Goto?) || (i.Lookahead? && j.Lookahead?) || (i.NegativeLookahead? && j.NegativeLookahead?)
      modifies this`buf
      ensures buf == a + Encode(j) + b
    {
      hide PutI32, Encode;
      JumpBytes(i);
      JumpBytes(j);
      ghost var op := [Encode(j)[0]];
      SameOpcode(i, j);
      assert buf == (a + op) + PutI32(i.off) + b;
      Put(pos, PutI32(j.off));
      Overwritten(a + op, PutI32(i.off), PutI32(j.off), b);
      assert (a + op) + PutI32(j.off) + b == a + Encode(j) + b;
    }

    // ---------- patterns ----------

    /** Appends the code of a pattern. It fails when there would be too many captures. */
    method EmitNode(n: Node, back: bool) returns (ok: bool)
      requires WellFormed(n) && 1 <= captureCount <= CAPTURE_COUNT_MAX && Fits(n, back, captureCount)
      modifies this
      ensures ok <==> old(captureCount) + Groups(n) <= CAPTURE_COUNT_MAX
      ensures ok ==> captureCount == old(captureCount) + Groups(n)
      ensures ok ==> buf == old(buf) + EncodeAll(Compile(n, back, old(captureCount)))
      decreases n, 1
    {
      hide EncodeAll, SizeAll, DoAll, ChoiceCode, LookCode, LoopCode, Encode;
      match n {
        case Empty =>
          NoBytes();
          ok := true;
        case One(p) =>
          EmitOne(p, back);
          ok := true;
        case Assertion(p) =>
          Emit(Do(p));
          EncodeOne(Do(p));
          ok := true;
        case Reference(k) =>
          Emit(Do(ReferencePrim(k, back)));
          EncodeOne(Do(ReferencePrim(k, back)));
          ok := true;
        case Sequence(a, b) => ok := EmitSequence(n, back);
        case Choice(a, b) => ok := EmitChoice(n, back);
        case Group(a) => ok := EmitGroup(n, back);
        case Look(a, behind, negative) => ok := EmitLook(n, back);
        case Quantified(a, min, max, greedy) =>
          ghost var pre, base := buf, captureCount;
          var start, lastCaptureCount := |buf|, captureCount;
          ok := EmitNode(a, back);
          if !ok { return; }
          CompiledValid(a, back, base);
          EmitLoop(start, lastCaptureCount, min, max, greedy, pre, Compile(a, back, base));
      }
    }

    method EmitOne(p: Prim, back: bool)
      modifies this`buf
      ensures buf == old(buf) + EncodeAll(DoAll(OnePrims(p, back)))
    {
      hide EncodeAll, Encode;
      if back { Emit(Do(Prev)); }
      Emit(Do(p));
      if back { Emit(Do(Prev)); }
      OneBytes(p, back);
    }

    /** Terms in order; read backwards, a later term's code is moved before that of the earlier ones. */
    method EmitSequence(n: Node, back: bool) returns (ok: bool)
      requires n.Sequence? && WellFormed(n) && 1 <= captureCount <= CAPTURE_COUNT_MAX && Fits(n, back, captureCount)
      modifies this
      ensures ok <==> old(captureCount) + Groups(n) <= CAPTURE_COUNT_MAX
      ensures ok ==> captureCount == old(captureCount) + Groups(n)
      ensures ok ==> buf == old(buf) + EncodeAll(Compile(n, back, old(captureCount)))
      decreases n, 0
    {
      hide EncodeAll, SizeAll, DoAll, ChoiceCode, LookCode, LoopCode;
      ghost var pre, base := buf, captureCount;
      var start := |buf|;
      ok := EmitNode(n.first, back);
      if !ok { return; }
      var termStart := |buf|;
      ok := EmitNode(n.second, back);
      if !ok { return; }
      ghost var x, y := EncodeAll(Compile(n.first, back, base)),
          EncodeAll(Compile(n.second, back, base + Groups(n.first)));
      assert buf == pre + x + y;
      if back {
        buf := buf[..start] + buf[termStart..] + buf[start..termStart];
        assert buf == pre + y + x;
        EncodeConcat(Compile(n.second, back, base + Groups(n.first)), Compile(n.first, back, base));
      } else {
        EncodeConcat(Compile(n.first, back, base), Compile(n.second, back, base + Groups(n.first)));
      }
    }

    /** Alternatives: a split goes in front of the first, and the jump behind it is patched when the second is there. */
    method EmitChoice(n: Node, back: bool) returns (ok: bool)
      requires n.Choice? && WellFormed(n) && 1 <= captureCount <= CAPTURE_COUNT_MAX && Fits(n, back, captureCount)
      modifies this
      ensures ok <==> old(captureCount) + Groups(n) <= CAPTURE_COUNT_MAX
      ensures ok ==> captureCount == old(captureCount) + Groups(n)
      ensures ok ==> buf == old(buf) + EncodeAll(Compile(n, back, old(captureCount)))
      decreases n, 0
    {
      hide EncodeAll, DoAll, LookCode, LoopCode, ChoiceCode, Encode;
      ghost var pre, base := buf, captureCount;
      var start := |buf|;
      ok := EmitNode(n.left, back);
      if !ok { return; }
      ghost var a := Compile(n.left, back, base);
      var len := |buf| - start;
      var fork := SplitNextFirst(len + 5);
      InsertInstr(start, fork);
      assert buf == pre + Encode(fork) + EncodeAll(a);
      Emit(Goto(0));
      FiveBytes(Goto(0));
      var pos := |buf| - 4;
      ghost var front := pre + Encode(fork) + EncodeAll(a);
      ok := EmitNode(n.right, back);
      if !ok { return; }
      ghost var b := Compile(n.right, back, base + Groups(n.left));
      var jump := Goto(|buf| - (pos + 4));
      assert buf == front + Encode(Goto(0)) + EncodeAll(b);
      Patch(pos, Goto(0), jump, front, EncodeAll(b));
      ChoiceBytes(a, b);
      assert buf == pre + EncodeAll(ChoiceCode(a, b));
    }

    method EmitGroup(n: Node, back: bool) returns (ok: bool)
      requires n.Group? && WellFormed(n) && 1 <= captureCount <= CAPTURE_COUNT_MAX && Fits(n, back, captureCount)
      modifies this
      ensures ok <==> old(captureCount) + Groups(n) <= CAPTURE_COUNT_MAX
      ensures ok ==> captureCount == old(captureCount) + Groups(n)
      ensures ok ==> buf == old(buf) + EncodeAll(Compile(n, back, old(captureCount)))
      decreases n, 0
    {
      hide EncodeAll, DoAll, ChoiceCode, LookCode, LoopCode, Encode, SizeAll;
      ghost var pre := buf;
      if captureCount >= CAPTURE_COUNT_MAX { return false; }
      var k := captureCount;
      captureCount := captureCount + 1;
      Emit(Do(OpenPrim(k, back)));
      ok := EmitNode(n.body, back);
      if !ok { return; }
      Emit(Do(ClosePrim(k, back)));
      ghost var a := Compile(n.body, back, k + 1);
      assert buf == pre + (Encode(Do(OpenPrim(k, back))) + EncodeAll(a) + Encode(Do(ClosePrim(k, back))));
      EncodeFrame([Do(OpenPrim(k, back))], a, [Do(ClosePrim(k, back))]);
      EncodeOne(Do(OpenPrim(k, back)));
      EncodeOne(Do(ClosePrim(k, back)));
    }

    method EmitLook(n: Node, back: bool) returns (ok: bool)
      requires n.Look? && WellFormed(n) && 1 <= captureCount <= CAPTURE_COUNT_MAX && Fits(n, back, captureCount)
      modifies this
      ensures ok <==> old(captureCount) + Groups(n) <= CAPTURE_COUNT_MAX
      ensures ok ==> captureCount == old(captureCount) + Groups(n)
      ensures ok ==> buf == old(buf) + EncodeAll(Compile(n, back, old(captureCount)))
      decreases n, 0
    {
      hide EncodeAll, DoAll, ChoiceCode, LoopCode, Encode;
      ghost var pre, base := buf, captureCount;
      var open := if n.negative then NegativeLookahead(0) else Lookahead(0);
      Emit(open);
      FiveBytes(open);
      var pos := |buf| - 4;
      ok := EmitNode(n.body, n.behind);
      if !ok { return; }
      Emit(Match);
      OneByte(Match);
      ghost var a := Compile(n.body, n.behind, base);
      var off := |buf| - (pos + 4);
      var patched := if n.negative then NegativeLookahead(off) else Lookahead(off);
      assert buf == pre + Encode(open) + (EncodeAll(a) + Encode(Match));
      Patch(pos, open, patched, pre, EncodeAll(a) + Encode(Match));
      assert buf == pre + (Encode(patched) + EncodeAll(a) + Encode(Match));
      EncodeFrame([patched], a, [Match]);
      EncodeOne(patched);
      EncodeOne(Match);
    }

    // ---------- loops ----------

    method EmitSimpleLoop(start: nat, min: nat, max: nat, count: nat, ghost pre: seq<Byte>, ghost a: seq<Instr>)
      requires buf == pre + EncodeAll(a) && |pre| == start && count == SimpleCount(a)
      modifies this`buf
      ensures buf == pre + EncodeAll(SimpleLoop(a, min, max))
    {
      hide EncodeAll, Encode, SimpleCount;
      Emit(Match);
      var i := SimpleGreedyQuant(|buf| - start, min, max, count);
      OneByte(Match);
      InsertInstr(start, i);
      assert buf == pre + Encode(i) + EncodeAll(a) + Encode(Match);
      EncodeFrame([i], a, [Match]);
      EncodeOne(i);
      EncodeOne(Match);
    }

    /** An unlimited loop around the atom. */
    method EmitStar(start: nat, greedy: bool, check: bool, ghost pre: seq<Byte>, ghost a: seq<Instr>)
      requires buf == pre + EncodeAll(a) && |pre| == start
      modifies this`buf
      ensures buf == pre + EncodeAll(StarCode(a, greedy, check))
    {
      hide EncodeAll, Encode;
      var len: int := |buf| - start;
      ghost var body := EncodeAll(a);
      if check {
        var fork := Split(greedy, len + 6);
        FiveBytes(fork);
        InsertInstr(start, fork);
        assert buf == pre + Encode(fork) + body;
        InsertInstr(start + 5, PushCharPos);
        OneByte(PushCharPos);
        assert buf == pre + Encode(fork) + Encode(PushCharPos) + body;
        var tail := BneCharPos(start as int - (|buf| + 5));
        Emit(tail);
        assert buf == pre + (Encode(fork) + Encode(PushCharPos) + body + Encode(tail));
        EncodeFrame([fork, PushCharPos], a, [tail]);
        EncodeTwo(fork, PushCharPos);
        EncodeOne(tail);
      } else {
        var fork := Split(greedy, len + 5);
        FiveBytes(fork);
        InsertInstr(start, fork);
        var tail := Goto(start as int - (|buf| + 5));
        Emit(tail);
        assert buf == pre + (Encode(fork) + body + Encode(tail));
        EncodeFrame([fork], a, [tail]);
        EncodeOne(fork);
        EncodeOne(tail);
      }
    }

    /** A loop that may run zero times. */
    method EmitOptional(start: nat, max: nat, greedy: bool, check: bool, ghost pre: seq<Byte>, ghost a: seq<Instr>)
      requires buf == pre + EncodeAll(a) && |pre| == start
      modifies this`buf
      ensures buf == pre + EncodeAll(OptionalCode(a, greedy, check, max))
    {
      hide EncodeAll, Encode;
      var len: int := |buf| - start;
      ghost var body := EncodeAll(a);
      if max == 0 {
        buf := buf[..start];
        NoBytes();
      } else if max == 1 {
        var fork := Split(greedy, len);
        InsertInstr(start, fork);
        assert buf == pre + Encode(fork) + body;
        EncodeConcat([fork], a);
        EncodeOne(fork);
      } else if max == INT32_MAX {
        EmitStar(start, greedy, check, pre, a);
      } else {
        var push, fork := PushI32(max), Split(greedy, len + 5);
        FiveBytes(push);
        FiveBytes(fork);
        InsertInstr(start, push);
        assert buf == pre + Encode(push) + body;
        InsertInstr(start + 5, fork);
        assert buf == pre + Encode(push) + Encode(fork) + body;
        var loop := Loop(start as int + 5 - (|buf| + 5));
        Emit(loop);
        Emit(Drop);
        assert buf == pre + (Encode(push) + Encode(fork) + body + (Encode(loop) + Encode(Drop)));
        EncodeFrame([push, fork], a, [loop, Drop]);
        EncodeTwo(push, fork);
        EncodeTwo(loop, Drop);
      }
    }

    /** The mandatory iterations; the atom's code is at the returned position. */
    method EmitTimes(start: nat, min: nat, ghost pre: seq<Byte>, ghost a: seq<Instr>) returns (atom: nat)
      requires buf == pre + EncodeAll(a) && |pre| == start && min >= 1
      modifies this`buf
      ensures buf == pre + EncodeAll(TimesCode(a, min))
      ensures start <= atom && atom + SizeAll(a) <= |buf| && buf[atom..atom + SizeAll(a)] == EncodeAll(a)
    {
      hide EncodeAll, Encode;
      ghost var body := EncodeAll(a);
      atom := start;
      if min != 1 {
        var push := PushI32(min);
        FiveBytes(push);
        InsertInstr(start, push);
        atom := start + 5;
        var loop := Loop(atom as int - (|buf| + 5));
        Emit(loop);
        Emit(Drop);
        assert buf == pre + (Encode(push) + body + (Encode(loop) + Encode(Drop)));
        EncodeFrame([push], a, [loop, Drop]);
        EncodeOne(push);
        EncodeTwo(loop, Drop);
      }
    }

    /** A loop that runs at least once: the optional iterations use a copy of the atom. */
    method EmitMandatory(start: nat, min: nat, max: nat, greedy: bool, check: bool, ghost pre: seq<Byte>,
                         ghost a: seq<Instr>)
      requires buf == pre + EncodeAll(a) && |pre| == start && 1 <= min <= max
      modifies this`buf
      ensures buf == pre + EncodeAll(TimesCode(a, min) + RestCode(a, greedy, check, min, max))
    {
      hide EncodeAll, Encode, TimesCode, StarCode, UpToCode;
      var len: int := |buf| - start;
      var atom := EmitTimes(start, min, pre, a);
      ghost var front, body, rest := buf, EncodeAll(a), RestCode(a, greedy, check, min, max);
      EncodeConcat(TimesCode(a, min), rest);
      if max == INT32_MAX {
        CopyStar(atom, len, greedy, check, a);
      } else if max > min {
        CopyUpTo(atom, len, greedy, max - min, a);
      } else {
        NoBytes();
      }
      assert buf == front + EncodeAll(rest);
    }

    /** An unlimited loop around a copy of the atom. */
    method CopyStar(atom: nat, len: nat, greedy: bool, check: bool, ghost a: seq<Instr>)
      requires len == SizeAll(a) && atom + len <= |buf| && buf[atom..atom + len] == EncodeAll(a)
      modifies this`buf
      ensures buf == old(buf) + EncodeAll(StarCode(a, greedy, check))
    {
      hide EncodeAll, Encode;
      ghost var front, body := buf, EncodeAll(a);
      var pos := |buf|;
      var fork := Split(greedy, len + (if check then 6 else 5));
      FiveBytes(fork);
      Emit(fork);
      if check {
        Emit(PushCharPos);
        OneByte(PushCharPos);
        assert buf == front + (Encode(fork) + Encode(PushCharPos));
        PutSelf(atom, len);
        assert buf == front + (Encode(fork) + Encode(PushCharPos) + body);
        var tail := BneCharPos(pos as int - (|buf| + 5));
        Emit(tail);
        EncodeFrame([fork, PushCharPos], a, [tail]);
        EncodeTwo(fork, PushCharPos);
        EncodeOne(tail);
      } else {
        PutSelf(atom, len);
        assert buf == front + (Encode(fork) + body);
        var tail := Goto(pos as int - (|buf| + 5));
        Emit(tail);
        EncodeFrame([fork], a, [tail]);
        EncodeOne(fork);
        EncodeOne(tail);
      }
    }

    /** At most `m` iterations of a copy of the atom. */
    method CopyUpTo(atom: nat, len: nat, greedy: bool, m: nat, ghost a: seq<Instr>)
      requires len == SizeAll(a) && atom + len <= |buf| && buf[atom..atom + len] == EncodeAll(a)
      modifies this`buf
      ensures buf == old(buf) + EncodeAll(UpToCode(a, greedy, m))
    {
      hide EncodeAll, Encode;
      ghost var front, body := buf, EncodeAll(a);
      var push, fork := PushI32(m), Split(greedy, len + 5);
      FiveBytes(push);
      FiveBytes(fork);
      Emit(push);
      var pos := |buf|;
      Emit(fork);
      assert buf == front + (Encode(push) + Encode(fork));
      PutSelf(atom, len);
      assert buf == front + (Encode(push) + Encode(fork) + body);
      var loop := Loop(pos as int - (|buf| + 5));
      Emit(loop);
      Emit(Drop);
      EncodeFrame([push, fork], a, [loop, Drop]);
      EncodeTwo(push, fork);
      EncodeTwo(loop, Drop);
    }

    /** Turns the atom at the end of the buffer, from `start` on, into a loop. */
    method EmitLoop(start0: nat, lastCaptureCount: nat, min: nat, max: nat, greedy: bool, ghost pre: seq<Byte>,
                    ghost a: seq<Instr>)
      requires buf == pre + EncodeAll(a) && |pre| == start0 && AllValid(a)
      requires min <= max <= INT32_MAX && 1 <= lastCaptureCount <= captureCount
      modifies this`buf
      ensures buf == pre + EncodeAll(LoopCode(a, ResetsFor(lastCaptureCount, captureCount, min), min, max, greedy))
    {
      hide EncodeAll, Encode, CheckAdvance, SimpleCount, SimpleLoop, StarCode, UpToCode, TimesCode, RestCode, Split,
           DoAll;
      var start, check := start0, false;
      assert buf[start..] == EncodeAll(a);
      if greedy {
        if max > 0 {
          var count := IsSimpleQuantifier(buf[start..], a);
          if count > 0 {
            EmitSimpleLoop(start, min, max, count, pre, a);
            return;
          }
        }
        var ret := CheckAdvanceOf(buf[start..], a);
        check := ret == 0;
      }
      ghost var resets := ResetsFor(lastCaptureCount, captureCount, min);
      if min == 0 {
        ghost var pre' := pre;
        if lastCaptureCount != captureCount {
          InsertInstr(start, Do(SaveReset(lastCaptureCount, captureCount - 1)));
          pre' := pre + Encode(Do(SaveReset(lastCaptureCount, captureCount - 1)));
          ThreeBytes(lastCaptureCount, captureCount - 1);
          assert buf == pre' + EncodeAll(a);
          start := start + 3;
        }
        EmitOptional(start, max, greedy, check, pre', a);
        OptionalBytes(pre, resets, OptionalCode(a, greedy, check, max));
      } else if min == 1 && max == INT32_MAX && !check {
        var i := Split(!greedy, start as int - (|buf| + 5));
        Emit(i);
        EncodeConcat(a, [i]);
        EncodeOne(i);
      } else {
        EmitMandatory(start, min, max, greedy, check, pre, a);
      }
    }
  }

  lemma {:induction false} JumpBytes(i: Instr)
    requires i.Goto? || i.Lookahead? || i.NegativeLookahead?
    ensures Encode(i) == [Encode(i)[0]] + PutI32(i.off)
  {
    hide PutI32;
  }

  lemma {:induction false} SameOpcode(i: Instr, j: Instr)
    requires (i.Goto? && j.Goto?) || (i.Lookahead? && j.Lookahead?) || (i.NegativeLookahead? && j.NegativeLookahead?)
    ensures Encode(i)[0] == Encode(j)[0]
  {
  }

  lemma {:induction false} Overwritten(a: seq<Byte>, z: seq<Byte>, e: seq<Byte>, b: seq<Byte>)
    requires |z| == |e|
    ensures (a + z + b)[..|a|] + e + (a + z + b)[|a| + |e|..] == a + e + b
  {
    var s := a + z + b;
    assert s[..|a|] == a && s[|a| + |e|..] == b;
  }

  lemma {:induction false} OneBytes(p: Prim, back: bool)
    ensures EncodeAll(DoAll(OnePrims(p, back)))
            == if back then Encode(Do(Prev)) + Encode(Do(p)) + Encode(Do(Prev)) else Encode(Do(p))
  {
    hide EncodeAll, Encode;
    assert [p][1..] == [] && DoAll([]) == [];
    assert DoAll([p]) == [Do(p)];
    if back {
      assert [Prev, p, Prev][1..] == [p, Prev] && [p, Prev][1..] == [Prev] && [Prev][1..] == [];
      assert DoAll([Prev]) == [Do(Prev)];
      assert DoAll([p, Prev]) == [Do(p)] + [Do(Prev)];
      assert DoAll([Prev, p, Prev]) == [Do(Prev)] + [Do(p)] + [Do(Prev)];
      EncodeFrame([Do(Prev)], [Do(p)], [Do(Prev)]);
      EncodeOne(Do(Prev));
    }
    EncodeOne(Do(p));
  }

  lemma {:induction false} ChoiceBytes(a: seq<Instr>, b: seq<Instr>)
    ensures EncodeAll(ChoiceCode(a, b)) == Encode(SplitNextFirst(SizeAll(a) + 5)) + EncodeAll(a)
            + Encode(Goto(SizeAll(b))) + EncodeAll(b)
  {
    hide EncodeAll, Encode, SizeAll;
    EncodeConcat([SplitNextFirst(SizeAll(a) + 5)] + a + [Goto(SizeAll(b))], b);
    EncodeFrame([SplitNextFirst(SizeAll(a) + 5)], a, [Goto(SizeAll(b))]);
    EncodeOne(SplitNextFirst(SizeAll(a) + 5));
    EncodeOne(Goto(SizeAll(b)));
  }

  lemma {:induction false} ThreeBytes(first: nat, last: nat)
    ensures |Encode(Do(SaveReset(first, last)))| == 3
  {
  }

  lemma {:induction false} NoBytes()
    ensures EncodeAll([]) == []
  {
  }

  lemma {:induction false} EncodeTwo(i: Instr, j: Instr)
    ensures EncodeAll([i, j]) == Encode(i) + Encode(j)
  {
    hide Encode, EncodeAll;
    assert [i, j] == [i] + [j];
    EncodeConcat([i], [j]);
    EncodeOne(i);
    EncodeOne(j);
  }

  lemma {:induction false} EncodeFrame(pre: seq<Instr>, a: seq<Instr>, post: seq<Instr>)
    ensures EncodeAll(pre + a + post) == EncodeAll(pre) + EncodeAll(a) + EncodeAll(post)
  {
    hide EncodeAll;
    EncodeConcat(pre + a, post);
    EncodeConcat(pre, a);
  }

  /** Forgetting the captures made since `last`, before a loop that may run zero times. */
  function ResetsFor(last: nat, count: nat, min: nat): (ps: seq<Prim>)
    requires last <= count
  {
    if min == 0 && last != count then [SaveReset(last, count - 1)] else []
  }

  /** The code of a loop that may run zero times, without the reset. */
  function OptionalCode(a: seq<Instr>, greedy: bool, check: bool, max: nat): (prog: seq<Instr>) {
    if max == 0 then []
    else if max == 1 then [Split(greedy, SizeAll(a))] + a
    else if max == INT32_MAX then StarCode(a, greedy, check)
    else UpToCode(a, greedy, max)
  }

  lemma {:induction false} OptionalBytes(pre: seq<Byte>, resets: seq<Prim>, body: seq<Instr>)
    requires |resets| <= 1
    ensures pre + EncodeAll(DoAll(resets) + body)
            == (if resets == [] then pre else pre + Encode(Do(resets[0]))) + EncodeAll(body)
  {
    hide Encode;
    if resets == [] {
      assert DoAll(resets) + body == body;
    } else {
      assert resets[1..] == [] && DoAll([]) == [];
      assert DoAll(resets) == [Do(resets[0])];
      EncodeConcat([Do(resets[0])], body);
      EncodeOne(Do(resets[0]));
    }
  }
}
