/** The code the compiler emits for a pattern. */
module RegexpCompile {
  import opened RegexpCode
  import opened RegexpText
  import opened RegexpSearch
  import opened RegexpSyntax

  // ---------- what the compiler finds out about emitted code ----------

  datatype Advance = Unknown | Always | Maybe

  /** The first instruction that decides whether the code advances. */
  function FirstDecisive(prog: seq<Instr>): (a: Advance) {
    if prog == [] then Unknown
    else match prog[0]
      case Do(p) => if Consumes(p) then Always else FirstDecisive(prog[1..])
      case PushI32(_) => FirstDecisive(prog[1..])
      case PushCharPos => FirstDecisive(prog[1..])
      case Drop => FirstDecisive(prog[1..])
      case _ => Maybe
  }

  function Between(first: nat, last: nat): (s: set<nat>)
    decreases last - first
  {
    if first >= last then {} else {first} + Between(first + 1, last)
  }

  /** The captures an instruction writes, as the check counts them: a reset does not count its last one. */
  function WrittenBy(i: Instr): (s: set<nat>) {
    match i
    case Do(SaveStart(k)) => {k}
    case Do(SaveEnd(k)) => {k}
    case Do(SaveReset(first, last)) => Between(first, last)
    case _ => {}
  }

  function ReadBy(i: Instr): (s: set<nat>) {
    match i
    case Do(BackReference(k)) => {k}
    case Do(BackwardBackReference(k)) => {k}
    case _ => {}
  }

  function Written(prog: seq<Instr>): (s: set<nat>) {
    if prog == [] then {} else WrittenBy(prog[0]) + Written(prog[1..])
  }

  function Read(prog: seq<Instr>): (s: set<nat>) { if prog == [] then {} else ReadBy(prog[0]) + Read(prog[1..]) }

  /** 1: the code always advances; 0: it may not; -1: it reads captures that it also writes. */
  function CheckAdvance(prog: seq<Instr>): (r: int) {
    if Written(prog) * Read(prog) != {} then -1 else if FirstDecisive(prog).Always? then 1 else 0
  }

  /** The number of characters in straight-line code, or -1 for other code. */
  function SimpleCount(prog: seq<Instr>): (r: int)
    ensures r >= -1
  {
    if prog == [] then 0
    else if !(prog[0].Do? && IsSimple(prog[0].p)) then -1
    else
      var r := SimpleCount(prog[1..]);
      if r < 0 then -1 else if Consumes(prog[0].p) then r + 1 else r
  }

  // ---------- code ----------

  function DoAll(ps: seq<Prim>): (prog: seq<Instr>) { if ps == [] then [] else [Do(ps[0])] + DoAll(ps[1..]) }

  function Split(nextFirst: bool, off: int): (i: Instr) {
    if nextFirst then SplitNextFirst(off) else SplitGotoFirst(off)
  }

  /** Any number of iterations. With `check`, an iteration that has not moved leaves the loop. */
  function StarCode(a: seq<Instr>, greedy: bool, check: bool): (prog: seq<Instr>) {
    var len := SizeAll(a);
    if check then [Split(greedy, len + 6), PushCharPos] + a + [BneCharPos(-(len as int) - 11)]
    else [Split(greedy, len + 5)] + a + [Goto(-(len as int) - 10)]
  }

  /** At most `m` iterations. */
  function UpToCode(a: seq<Instr>, greedy: bool, m: nat): (prog: seq<Instr>) {
    var len := SizeAll(a);
    [PushI32(m), Split(greedy, len + 5)] + a + [Loop(-(len as int) - 10), Drop]
  }

  /** Exactly `m` iterations. */
  function TimesCode(a: seq<Instr>, m: nat): (prog: seq<Instr>) {
    if m == 1 then a else [PushI32(m)] + a + [Loop(-(SizeAll(a) as int) - 5), Drop]
  }

  /** The optional iterations after the mandatory ones. */
  function RestCode(a: seq<Instr>, greedy: bool, check: bool, min: nat, max: nat): (prog: seq<Instr>)
    requires min <= max
  {
    if max == INT32_MAX then StarCode(a, greedy, check)
    else if max > min then UpToCode(a, greedy, max - min)
    else []
  }

  function SimpleLoop(a: seq<Instr>, min: nat, max: nat): (prog: seq<Instr>)
    requires SimpleCount(a) >= 0
  {
    [SimpleGreedyQuant(SizeAll(a) + 1, min, max, SimpleCount(a))] + a + [Match]
  }

  predicate UsesSimpleLoop(a: seq<Instr>, max: nat, greedy: bool) { greedy && max > 0 && SimpleCount(a) > 0 }

  predicate UsesCheck(a: seq<Instr>, greedy: bool) { greedy && CheckAdvance(a) == 0 }

  /** A quantified atom; `resets` forgets its captures. */
  function LoopCode(a: seq<Instr>, resets: seq<Prim>, min: nat, max: nat, greedy: bool): (prog: seq<Instr>)
    requires min <= max
  {
    var check, len := UsesCheck(a, greedy), SizeAll(a);
    if UsesSimpleLoop(a, max, greedy) then SimpleLoop(a, min, max)
    else if min == 0 then
      DoAll(resets)
      + (if max == 0 then []
         else if max == 1 then [Split(greedy, len)] + a
         else if max == INT32_MAX then StarCode(a, greedy, check)
         else UpToCode(a, greedy, max))
    else if min == 1 && max == INT32_MAX && !check then a + [Split(!greedy, -(len as int) - 5)]
    else TimesCode(a, min) + RestCode(a, greedy, check, min, max)
  }

  function LookCode(a: seq<Instr>, negative: bool): (prog: seq<Instr>) {
    var off := SizeAll(a) + 1;
    [if negative then NegativeLookahead(off) else Lookahead(off)] + a + [Match]
  }

  function ChoiceCode(a: seq<Instr>, b: seq<Instr>): (prog: seq<Instr>) {
    [SplitNextFirst(SizeAll(a) + 5)] + a + [Goto(SizeAll(b))] + b
  }

  /** The code of a pattern whose groups are numbered from `base`. */
  function Compile(n: Node, back: bool, base: nat): (prog: seq<Instr>)
    requires WellFormed(n)
  {
    match n
    case Empty => []
    case One(p) => DoAll(OnePrims(p, back))
    case Assertion(p) => [Do(p)]
    case Reference(k) => [Do(ReferencePrim(k, back))]
    case Sequence(a, b) =>
      if back then Compile(b, back, base + Groups(a)) + Compile(a, back, base)
      else Compile(a, back, base) + Compile(b, back, base + Groups(a))
    case Choice(a, b) => ChoiceCode(Compile(a, back, base), Compile(b, back, base + Groups(a)))
    case Group(a) => [Do(OpenPrim(base, back))] + Compile(a, back, base + 1) + [Do(ClosePrim(base, back))]
    case Look(a, behind, negative) => LookCode(Compile(a, behind, base), negative)
    case Quantified(a, min, max, greedy) => LoopCode(Compile(a, back, base), ResetPrims(a, min, base), min, max, greedy)
  }

  /** Loops without a limit either have the check, or a body that must advance. If runs may stand inside a surrogate
      pair, there is no simple loop. */
  predicate Sound(n: Node, back: bool, base: nat, loose: bool)
    requires WellFormed(n)
  {
    match n
    case Sequence(a, b) => Sound(a, back, base, loose) && Sound(b, back, base + Groups(a), loose)
    case Choice(a, b) => Sound(a, back, base, loose) && Sound(b, back, base + Groups(a), loose)
    case Group(a) => Sound(a, back, base + 1, loose)
    case Look(a, behind, _) => Sound(a, behind, base, loose)
    case Quantified(a, min, max, greedy) =>
      && Sound(a, back, base, loose)
      && (max == INT32_MAX ==> MustAdvance(a) || (greedy && CheckAdvance(Compile(a, back, base)) >= 0))
      && (loose ==> !UsesSimpleLoop(Compile(a, back, base), max, greedy))
    case _ => true
  }

  // ---------- the advance check is right ----------

  lemma {:induction false} DecisiveConcat(a: seq<Instr>, b: seq<Instr>)
    ensures FirstDecisive(a + b) == if FirstDecisive(a).Unknown? then FirstDecisive(b) else FirstDecisive(a)
  {
    if a == [] {
      assert a + b == b;
    } else {
      DecisiveConcat(a[1..], b);
      assert (a + b)[1..] == a[1..] + b;
    }
  }

  lemma {:induction false} DecisiveFirst(i: Instr, b: seq<Instr>)
    ensures FirstDecisive([i] + b) == match i
                                      case Do(p) => if Consumes(p) then Always else FirstDecisive(b)
                                      case PushI32(_) => FirstDecisive(b)
                                      case PushCharPos => FirstDecisive(b)
                                      case Drop => FirstDecisive(b)
                                      case _ => Maybe
  {
    assert ([i] + b)[1..] == b;
  }

  lemma {:induction false} OneDecisive(i: Instr)
    requires i.Do?
    ensures FirstDecisive([i]) == if Consumes(i.p) then Always else Unknown
  {
    assert [i][1..] == [];
  }

  lemma {:induction false} ChoiceDecisive(a: seq<Instr>, b: seq<Instr>)
    ensures FirstDecisive(ChoiceCode(a, b)).Maybe?
  {
    hide FirstDecisive;
    var rest := a + [Goto(SizeAll(b))] + b;
    DecisiveFirst(SplitNextFirst(SizeAll(a) + 5), rest);
    assert ChoiceCode(a, b) == [SplitNextFirst(SizeAll(a) + 5)] + rest;
  }

  lemma {:induction false} GroupDecisive(open: Prim, a: seq<Instr>, close: Prim)
    requires !Consumes(open) && !Consumes(close)
    ensures FirstDecisive([Do(open)] + a + [Do(close)]) == FirstDecisive(a)
  {
    hide FirstDecisive;
    DecisiveFirst(Do(open), a + [Do(close)]);
    assert [Do(open)] + a + [Do(close)] == [Do(open)] + (a + [Do(close)]);
    DecisiveConcat(a, [Do(close)]);
    OneDecisive(Do(close));
  }

  lemma {:induction false} LookDecisive(a: seq<Instr>, negative: bool)
    ensures FirstDecisive(LookCode(a, negative)).Maybe?
  {
    hide FirstDecisive;
    var i := if negative then NegativeLookahead(SizeAll(a) + 1) else Lookahead(SizeAll(a) + 1);
    DecisiveFirst(i, a + [Match]);
    assert LookCode(a, negative) == [i] + (a + [Match]);
  }

  /** Code whose first decisive instruction consumes comes from a pattern that must advance. */
  lemma {:induction false} AlwaysMeansMust(n: Node, back: bool, base: nat)
    requires WellFormed(n)
    ensures FirstDecisive(Compile(n, back, base)).Always? ==> MustAdvance(n)
    decreases n
  {
    hide FirstDecisive, ChoiceCode, LookCode, LoopCode, DoAll;
    match n
    case Sequence(a, b) =>
      var ca, cb := Compile(a, back, base), Compile(b, back, base + Groups(a));
      DecisiveConcat(ca, cb);
      DecisiveConcat(cb, ca);
      AlwaysMeansMust(a, back, base);
      AlwaysMeansMust(b, back, base + Groups(a));
    case Choice(a, b) => ChoiceDecisive(Compile(a, back, base), Compile(b, back, base + Groups(a)));
    case Group(a) =>
      GroupDecisive(OpenPrim(base, back), Compile(a, back, base + 1), ClosePrim(base, back));
      AlwaysMeansMust(a, back, base + 1);
    case Look(a, behind, negative) => LookDecisive(Compile(a, behind, base), negative);
    case Quantified(a, min, max, greedy) =>
      LoopDecisive(Compile(a, back, base), ResetPrims(a, min, base), min, max, greedy);
      AlwaysMeansMust(a, back, base);
    case Empty => NothingDecisive();
    case One(p) =>
    case Assertion(p) => OneDecisive(Do(p));
    case Reference(k) => OneDecisive(Do(ReferencePrim(k, back)));
  }

  lemma {:induction false} NothingDecisive()
    ensures FirstDecisive([]).Unknown?
  {
  }

  /** A loop's first decisive instruction consumes only if the body runs at least once and begins so. */
  lemma {:induction false} LoopDecisive(a: seq<Instr>, resets: seq<Prim>, min: nat, max: nat, greedy: bool)
    requires min <= max && forall i :: 0 <= i < |resets| ==> resets[i].SaveReset?
    ensures FirstDecisive(LoopCode(a, resets, min, max, greedy)).Always? ==> min > 0 && FirstDecisive(a).Always?
  {
    hide FirstDecisive, CheckAdvance, SimpleCount;
    var check, len := UsesCheck(a, greedy), SizeAll(a);
    NothingDecisive();
    if UsesSimpleLoop(a, max, greedy) {
      var i := SimpleGreedyQuant(len + 1, min, max, SimpleCount(a));
      DecisiveFirst(i, a + [Match]);
      assert SimpleLoop(a, min, max) == [i] + (a + [Match]);
    } else if min == 0 {
      var body := if max == 0 then [] else if max == 1 then [Split(greedy, len)] + a
                  else if max == INT32_MAX then StarCode(a, greedy, check) else UpToCode(a, greedy, max);
      ResetsUndecided(resets, body);
      if max == 1 { DecisiveFirst(Split(greedy, len), a); }
      else if max == INT32_MAX { StarUndecided(a, greedy, check); }
      else if max > 1 { UpToUndecided(a, greedy, max); }
    } else if min == 1 && max == INT32_MAX && !check {
      var i := Split(!greedy, -(len as int) - 5);
      DecisiveConcat(a, [i]);
      DecisiveFirst(i, []);
      assert [i] + [] == [i];
    } else {
      DecisiveConcat(TimesCode(a, min), RestCode(a, greedy, check, min, max));
      TimesUndecided(a, min);
      if max == INT32_MAX { StarUndecided(a, greedy, check); }
      else if max > min { UpToUndecided(a, greedy, max - min); }
    }
  }

  lemma {:induction false} ResetsUndecided(resets: seq<Prim>, b: seq<Instr>)
    requires forall i :: 0 <= i < |resets| ==> resets[i].SaveReset?
    ensures FirstDecisive(DoAll(resets) + b) == FirstDecisive(b)
    decreases resets
  {
    hide FirstDecisive;
    if resets == [] {
      assert DoAll(resets) + b == b;
    } else {
      var rest := DoAll(resets[1..]);
      assert DoAll(resets) + b == [Do(resets[0])] + (rest + b);
      DecisiveFirst(Do(resets[0]), rest + b);
      ResetsUndecided(resets[1..], b);
    }
  }

  lemma {:induction false} StarUndecided(a: seq<Instr>, greedy: bool, check: bool)
    ensures FirstDecisive(StarCode(a, greedy, check)).Maybe?
  {
    hide FirstDecisive;
    var prog := StarCode(a, greedy, check);
    DecisiveFirst(prog[0], prog[1..]);
    assert prog == [prog[0]] + prog[1..];
  }

  lemma {:induction false} UpToUndecided(a: seq<Instr>, greedy: bool, m: nat)
    ensures FirstDecisive(UpToCode(a, greedy, m)).Maybe?
  {
    hide FirstDecisive;
    var prog := UpToCode(a, greedy, m);
    var tail := prog[1..];
    DecisiveFirst(prog[0], tail);
    assert prog == [prog[0]] + tail;
    DecisiveFirst(tail[0], tail[1..]);
    assert tail == [tail[0]] + tail[1..];
  }

  lemma {:induction false} TimesUndecided(a: seq<Instr>, m: nat)
    ensures var d := FirstDecisive(TimesCode(a, m)); d.Always? ==> FirstDecisive(a).Always?
    ensures m == 1 ==> FirstDecisive(TimesCode(a, m)) == FirstDecisive(a)
    ensures FirstDecisive(TimesCode(a, m)).Unknown? ==> m == 1
  {
    hide FirstDecisive;
    if m != 1 {
      var tail := [Loop(-(SizeAll(a) as int) - 5), Drop];
      DecisiveFirst(PushI32(m), a + tail);
      assert TimesCode(a, m) == [PushI32(m)] + (a + tail);
      DecisiveConcat(a, tail);
      DecisiveFirst(tail[0], [Drop]);
      assert tail == [tail[0]] + [Drop];
    }
  }
}
