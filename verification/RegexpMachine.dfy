/** The backtracking machine: one thread of execution and a stack of saved states to go back to. */
module RegexpMachine {
  import opened RegexpCode
  import opened RegexpText
  import opened RegexpSearch

  datatype Kind = SplitState | LookaheadState | NegativeLookaheadState | GreedyQuantState

  /** A choice point with everything needed to take it up again. For a greedy loop, `pc` is the position
      of its operands and `count` the number of repetitions it may still give back. */
  datatype Saved = Saved(kind: Kind, pc: int, s: Place, stack: seq<int>, count: nat)

  datatype Config =
    | Running(th: Thread, states: seq<Saved>)
    | Counting(th: Thread, i: Instr, q: nat, states: seq<Saved>)
    | Unwinding(ret: bool, caps: seq<Mark>, states: seq<Saved>)
    | Done(ret: bool, caps: seq<Mark>)
    | Crashed

  // ---------- one step ----------

  function Step(t: Text, code: seq<Byte>, c: Config): (r: Config) {
    match c
    case Running(th, states) =>
      if th.pc < 0 then Crashed
      else (match Fetch(code, th.pc)
            case Bad => Crashed
            case Got(i, next) => Execute(t, i, th.(pc := next), states))
    case Counting(th, i, q, states) =>
      if !i.SimpleGreedyQuant? then Crashed
      else (match RunStraight(t, code, th.pc, th.s)
       case Broken => Crashed
       case Miss => EndCount(th, i, q, states)
       case Hit(pos) =>
         var th' := th.(s := th.s.(pos := pos));
         if q + 1 >= i.max && i.max != INT32_MAX then EndCount(th', i, q + 1, states)
         else Counting(th', i, q + 1, states))
    case Unwinding(ret, caps, states) =>
      if states == [] then Done(ret, caps)
      else Unwind(t, code, ret, caps, states[|states| - 1], states[..|states| - 1])
    case Done(_, _) => c
    case Crashed => c
  }

  /** Executes `i`; the thread stands behind it. */
  function Execute(t: Text, i: Instr, th: Thread, states: seq<Saved>): (r: Config) {
    match i
    case Do(p) =>
      if !CapturesFit(p, |th.s.caps|) then Crashed
      else (match Perform(t, p, th.s)
            case Stop => Unwinding(false, th.s.caps, states)
            case Go(s) => Running(th.(s := s), states))
    case Match => Unwinding(true, th.s.caps, states)
    case Goto(off) => Running(th.(pc := th.pc + off), states)
    case SplitGotoFirst(off) => Running(th.(pc := th.pc + off), states + [Saved(SplitState, th.pc, th.s, th.stack, 0)])
    case SplitNextFirst(off) => Running(th, states + [Saved(SplitState, th.pc + off, th.s, th.stack, 0)])
    case Lookahead(off) => Running(th, states + [Saved(LookaheadState, th.pc + off, th.s, th.stack, 0)])
    case NegativeLookahead(off) => Running(th, states + [Saved(NegativeLookaheadState, th.pc + off, th.s, th.stack, 0)])
    case PushI32(v) => Running(th.(stack := th.stack + [v]), states)
    case PushCharPos => Running(th.(stack := th.stack + [th.s.pos]), states)
    case Drop => if th.stack == [] then Crashed else Running(th.(stack := Popped(th.stack)), states)
    case Loop(off) =>
      if th.stack == [] then Crashed
      else
        var v := (Top(th.stack) - 1) % WORD;
        Running(Thread(if v != 0 then th.pc + off else th.pc, th.s, Popped(th.stack) + [v]), states)
    case BneCharPos(off) =>
      if th.stack == [] then Crashed
      else Running(Thread(if Top(th.stack) != th.s.pos then th.pc + off else th.pc, th.s, Popped(th.stack)), states)
    case SimpleGreedyQuant(_, _, _, _) => Counting(th, i, 0, states)
  }

  /** The repetitions have been counted; what exceeds the minimum may be given back later. */
  function EndCount(th: Thread, i: Instr, q: nat, states: seq<Saved>): (r: Config)
    requires i.SimpleGreedyQuant?
  {
    if q < i.min then Unwinding(false, th.s.caps, states)
    else
      Running(th.(pc := th.pc + i.next),
              if q > i.min then states + [Saved(GreedyQuantState, th.pc - 16, th.s, th.stack, q - i.min)] else states)
  }

  /** Takes up the last saved state, or drops it. */
  function Unwind(t: Text, code: seq<Byte>, ret: bool, caps: seq<Mark>, top: Saved, rest: seq<Saved>): (r: Config) {
    match top.kind
    case SplitState => if ret then Unwinding(ret, caps, rest) else Running(Thread(top.pc, top.s, top.stack), rest)
    case LookaheadState =>
      if ret then Running(Thread(top.pc, Place(top.s.pos, caps), top.stack), rest) else Unwinding(false, caps, rest)
    case NegativeLookaheadState =>
      if ret then Unwinding(false, caps, rest) else Running(Thread(top.pc, top.s, top.stack), rest)
    case GreedyQuantState =>
      if ret then Unwinding(ret, caps, rest)
      else if top.pc < 1 || top.count == 0 then Crashed
      else (match Fetch(code, top.pc - 1)
            case Got(SimpleGreedyQuant(next, _, _, count), after) =>
              var s := top.s.(pos := StepBack(t, top.s.pos, count));
              Running(Thread(after + next, s, top.stack),
                      if top.count == 1 then rest else rest + [top.(s := s, count := top.count - 1)])
            case _ => Crashed)
  }

  function Steps(t: Text, code: seq<Byte>, c: Config, n: nat): (r: Config)
    decreases n
  {
    if n == 0 then c else Steps(t, code, Step(t, code, c), n - 1)
  }

  lemma {:induction false} StepsAdd(t: Text, code: seq<Byte>, c: Config, a: nat, b: nat)
    ensures Steps(t, code, c, a + b) == Steps(t, code, Steps(t, code, c, a), b)
    decreases a
  {
    hide Step;
    if a == 0 {
      assert Steps(t, code, c, 0) == c;
    } else {
      StepsAdd(t, code, Step(t, code, c), a - 1, b);
    }
  }

  /** One step and then `n` more. */
  lemma {:induction false} StepThen(t: Text, code: seq<Byte>, c: Config, n: nat)
    ensures Steps(t, code, c, n + 1) == Steps(t, code, Step(t, code, c), n)
  {
  }

  /** `n` steps and then one more. */
  lemma {:induction false} ThenStep(t: Text, code: seq<Byte>, c: Config, n: nat)
    ensures Steps(t, code, c, n + 1) == Step(t, code, Steps(t, code, c, n))
  {
    hide Step;
    StepsAdd(t, code, c, n, 1);
    assert Steps(t, code, Steps(t, code, c, n), 1) == Steps(t, code, Step(t, code, Steps(t, code, c, n)), 0);
  }

  // ---------- the machine carries out the search ----------

  /** After `n` steps the machine reports the outcome `r`, with the saved states it started from. */
  ghost predicate Reports(t: Text, code: seq<Byte>, c: Config, n: nat, r: Outcome, caps: seq<Mark>,
                          states: seq<Saved>) {
    Steps(t, code, c, n) == Unwinding(r.Found?, caps, states) && (r.Found? ==> caps == r.s.caps)
  }

  /** Whatever is on the stack of saved states, the machine finds what the search finds and leaves that stack as it
      was. */
  lemma {:induction false} MachineSearches(t: Text, code: seq<Byte>, th: Thread, fuel: nat, states: seq<Saved>)
    returns (n: nat, caps: seq<Mark>)
    requires Search(t, code, th, fuel) != Undefined
    ensures Reports(t, code, Running(th, states), n, Search(t, code, th, fuel), caps, states)
    decreases fuel, 0
  {
    hide Perform, CapturesFit, Steps, SearchFrom, Execute;
    match Fetch(code, th.pc)
    case Got(i, next) =>
      assert i.SimpleGreedyQuant? ==> next == th.pc + 17;
      n, caps := MachineExecutes(t, code, i, th.(pc := next), fuel - 1, states);
      StepThen(t, code, Running(th, states), n);
      n := n + 1;
  }

  lemma {:induction false} MachineExecutes(t: Text, code: seq<Byte>, i: Instr, th: Thread, fuel: nat,
                                           states: seq<Saved>)
    returns (n: nat, caps: seq<Mark>)
    requires SearchFrom(t, code, i, th, fuel) != Undefined
    requires i.SimpleGreedyQuant? ==> th.pc >= 17 && Fetch(code, th.pc - 17) == Got(i, th.pc)
    ensures Reports(t, code, Execute(t, i, th, states), n, SearchFrom(t, code, i, th, fuel), caps, states)
    decreases fuel, 3
  {
    hide Perform, CapturesFit, Search, Steps, Fetch;
    match i
    case Do(p) =>
      var m := Perform(t, p, th.s);
      if m.Go? { n, caps := MachineSearches(t, code, th.(s := m.s), fuel, states); }
      else { n, caps := 0, th.s.caps; NoStep(t, code, Execute(t, i, th, states)); }
    case Match => n, caps := 0, th.s.caps; NoStep(t, code, Execute(t, i, th, states));
    case Goto(off) => n, caps := MachineSearches(t, code, th.(pc := th.pc + off), fuel, states);
    case SplitGotoFirst(off) => n, caps := MachineSplits(t, code, th.(pc := th.pc + off), th, fuel, states);
    case SplitNextFirst(off) => n, caps := MachineSplits(t, code, th, th.(pc := th.pc + off), fuel, states);
    case Lookahead(off) => n, caps := MachineLooks(t, code, th, off, false, fuel, states);
    case NegativeLookahead(off) => n, caps := MachineLooks(t, code, th, off, true, fuel, states);
    case PushI32(v) => n, caps := MachineSearches(t, code, th.(stack := th.stack + [v]), fuel, states);
    case PushCharPos => n, caps := MachineSearches(t, code, th.(stack := th.stack + [th.s.pos]), fuel, states);
    case Drop => n, caps := MachineSearches(t, code, th.(stack := Popped(th.stack)), fuel, states);
    case Loop(off) =>
      var v := (Top(th.stack) - 1) % WORD;
      n, caps := MachineSearches(t, code, Thread(if v != 0 then th.pc + off else th.pc, th.s, Popped(th.stack) + [v]),
                                 fuel, states);
    case BneCharPos(off) =>
      n, caps := MachineSearches(t, code,
                                 Thread(if Top(th.stack) != th.s.pos then th.pc + off else th.pc, th.s,
                                        Popped(th.stack)), fuel, states);
    case SimpleGreedyQuant(next, min, max, count) =>
      n, caps := MachineRepeats(t, code, i, th, fuel, states);
  }

  lemma {:induction false} NoStep(t: Text, code: seq<Byte>, c: Config)
    ensures Steps(t, code, c, 0) == c
  {
  }

  lemma {:induction false} MachineSplits(t: Text, code: seq<Byte>, a: Thread, b: Thread, fuel: nat, states: seq<Saved>)
    returns (n: nat, caps: seq<Mark>)
    requires OrElse(Search(t, code, a, fuel), Search(t, code, b, fuel)) != Undefined
    ensures Reports(t, code, Running(a, states + [Saved(SplitState, b.pc, b.s, b.stack, 0)]), n,
                    OrElse(Search(t, code, a, fuel), Search(t, code, b, fuel)), caps, states)
    decreases fuel, 1
  {
    hide Search, Steps;
    var saved := Saved(SplitState, b.pc, b.s, b.stack, 0);
    var c := Running(a, states + [saved]);
    n, caps := MachineSearches(t, code, a, fuel, states + [saved]);
    PopStep(t, code, c, n, Search(t, code, a, fuel).Found?, caps, states, saved);
    n := n + 1;
    if Search(t, code, a, fuel).Fail? {
      var k;
      k, caps := MachineSearches(t, code, b, fuel, states);
      StepsAdd(t, code, c, n, k);
      n := n + k;
    }
  }

  /** Reaching a saved state takes it up. */
  lemma {:induction false} PopStep(t: Text, code: seq<Byte>, c: Config, n: nat, ret: bool, caps: seq<Mark>,
                                   rest: seq<Saved>, top: Saved)
    requires Steps(t, code, c, n) == Unwinding(ret, caps, rest + [top])
    ensures Steps(t, code, c, n + 1) == Unwind(t, code, ret, caps, top, rest)
  {
    hide Steps, Unwind;
    ThenStep(t, code, c, n);
    assert (rest + [top])[..|rest|] == rest;
  }

  lemma {:induction false} MachineLooks(t: Text, code: seq<Byte>, th: Thread, off: int, neg: bool, fuel: nat,
                                        states: seq<Saved>)
    returns (n: nat, caps: seq<Mark>)
    requires SearchFrom(t, code, if neg then NegativeLookahead(off) else Lookahead(off), th, fuel) != Undefined
    ensures Reports(t, code, Execute(t, if neg then NegativeLookahead(off) else Lookahead(off), th, states), n,
                    SearchFrom(t, code, if neg then NegativeLookahead(off) else Lookahead(off), th, fuel), caps, states)
    decreases fuel, 1
  {
    hide Search, Steps;
    var saved := Saved(if neg then NegativeLookaheadState else LookaheadState, th.pc + off, th.s, th.stack, 0);
    var c := Running(th, states + [saved]);
    var r := Search(t, code, th, fuel);
    n, caps := MachineSearches(t, code, th, fuel, states + [saved]);
    PopStep(t, code, c, n, r.Found?, caps, states, saved);
    n := n + 1;
    if r.Found? != neg {
      var k;
      k, caps := MachineSearches(t, code,
                                 Thread(th.pc + off, if neg then th.s else Place(th.s.pos, r.s.caps), th.stack), fuel,
                                 states);
      StepsAdd(t, code, c, n, k);
      n := n + k;
    }
  }

  /** The counting loop ends where the specification says. */
  lemma {:induction false} MachineCounts(t: Text, code: seq<Byte>, i: Instr, th: Thread, q: nat, fuel: nat,
                                         states: seq<Saved>)
    returns (n: nat)
    requires i.SimpleGreedyQuant? && CountMatches(t, code, th.pc, th.s, q, i.max, fuel).Counted?
    ensures var r := CountMatches(t, code, th.pc, th.s, q, i.max, fuel);
            Steps(t, code, Counting(th, i, q, states), n) == EndCount(th.(s := th.s.(pos := r.pos)), i, r.q, states)
    decreases fuel
  {
    hide RunStraight, EndCount;
    var c := Counting(th, i, q, states);
    match RunStraight(t, code, th.pc, th.s)
    case Miss => n := 1; StepThen(t, code, c, 0);
    case Hit(pos) =>
      if q + 1 >= i.max && i.max != INT32_MAX {
        n := 1;
        StepThen(t, code, c, 0);
      } else {
        n := MachineCounts(t, code, i, th.(s := th.s.(pos := pos)), q + 1, fuel - 1, states);
        StepThen(t, code, c, n);
        n := n + 1;
      }
  }

  lemma {:induction false} MachineRepeats(t: Text, code: seq<Byte>, i: Instr, th: Thread, fuel: nat, states: seq<Saved>)
    returns (n: nat, caps: seq<Mark>)
    requires i.SimpleGreedyQuant? && SearchFrom(t, code, i, th, fuel) != Undefined
    requires th.pc >= 17 && Fetch(code, th.pc - 17) == Got(i, th.pc)
    ensures Reports(t, code, Execute(t, i, th, states), n, SearchFrom(t, code, i, th, fuel), caps, states)
    decreases fuel, 2
  {
    hide CountMatches, GiveBack, Steps;
    var r := CountMatches(t, code, th.pc, th.s, 0, i.max, fuel);
    var c := Counting(th, i, 0, states);
    n := MachineCounts(t, code, i, th, 0, fuel, states);
    caps := th.s.caps;
    if r.q >= i.min {
      var k;
      k, caps := MachineGivesBack(t, code, i, th, r.pos, r.q - i.min, fuel, states);
      StepsAdd(t, code, c, n, k);
      n := n + k;
    }
  }

  /** Where the machine goes on after counting, or after giving back a repetition. */
  function AfterCount(i: Instr, th: Thread, pos: nat, left: nat, states: seq<Saved>): (c: Config)
    requires i.SimpleGreedyQuant?
  {
    var s := th.s.(pos := pos);
    Running(Thread(th.pc + i.next, s, th.stack),
            if left > 0 then states + [Saved(GreedyQuantState, th.pc - 16, s, th.stack, left)] else states)
  }

  lemma {:induction false} MachineGivesBack(t: Text, code: seq<Byte>, i: Instr, th: Thread, pos: nat, left: nat,
                                            fuel: nat, states: seq<Saved>)
    returns (n: nat, caps: seq<Mark>)
    requires i.SimpleGreedyQuant? && GiveBack(t, code, th.(pc := th.pc + i.next), pos, left, i.count, fuel) != Undefined
    requires th.pc >= 17 && Fetch(code, th.pc - 17) == Got(i, th.pc)
    ensures Reports(t, code, AfterCount(i, th, pos, left, states), n,
                    GiveBack(t, code, th.(pc := th.pc + i.next), pos, left, i.count, fuel), caps, states)
    decreases fuel, 1, left
  {
    hide Search, Steps, Fetch, StepBack;
    var th' := Thread(th.pc + i.next, th.s.(pos := pos), th.stack);
    if left == 0 {
      n, caps := MachineSearches(t, code, th', fuel, states);
    } else {
      var saved := Saved(GreedyQuantState, th.pc - 16, th'.s, th.stack, left);
      var c := Running(th', states + [saved]);
      n, caps := MachineSearches(t, code, th', fuel, states + [saved]);
      PopStep(t, code, c, n, Search(t, code, th', fuel).Found?, caps, states, saved);
      n := n + 1;
      if Search(t, code, th', fuel).Fail? {
        var k;
        k, caps := MachineGivesBack(t, code, i, th, StepBack(t, pos, i.count), left - 1, fuel, states);
        StepsAdd(t, code, c, n, k);
        n := n + k;
      }
    }
  }

  // ---------- every run that ends is a search that ends ----------

  lemma {:induction false} FinalStays(t: Text, code: seq<Byte>, c: Config, n: nat)
    requires c.Done? || c.Crashed?
    ensures Steps(t, code, c, n) == c
    decreases n
  {
    if n == 0 {
      assert Steps(t, code, c, 0) == c;
    } else {
      FinalStays(t, code, c, n - 1);
    }
  }

  /** A run that ends after `n` steps and passes through another configuration after `k` still has to end from there. */
  lemma {:induction false} Remaining(t: Text, code: seq<Byte>, c: Config, n: nat, k: nat)
    requires Steps(t, code, c, n).Done? && !Steps(t, code, c, k).Done?
    ensures k < n && Steps(t, code, Steps(t, code, c, k), n - k).Done?
  {
    hide Steps;
    if k < n {
      StepsAdd(t, code, c, k, n - k);
    } else {
      StepsAdd(t, code, c, n, k - n);
      FinalStays(t, code, Steps(t, code, c, n), k - n);
    }
  }

  /** The run from `c` ends within `n` steps. */
  ghost predicate Ends(t: Text, code: seq<Byte>, c: Config, n: nat) { Steps(t, code, c, n).Done? }

  lemma {:induction false} EndsAfterStep(t: Text, code: seq<Byte>, c: Config, n: nat)
    requires Ends(t, code, c, n) && !c.Done?
    ensures n > 0 && Ends(t, code, Step(t, code, c), n - 1)
  {
  }

  lemma {:induction false} SearchEnds(t: Text, code: seq<Byte>, th: Thread, states: seq<Saved>, n: nat)
    returns (fuel: nat)
    requires Ends(t, code, Running(th, states), n)
    ensures Search(t, code, th, fuel) != Undefined
    decreases n, 0
  {
    hide Steps, Execute, SearchFrom, Ends;
    EndsAfterStep(t, code, Running(th, states), n);
    NotCrashed(t, code, Step(t, code, Running(th, states)), n - 1);
    var f := Fetch(code, th.pc);
    fuel := ExecuteEnds(t, code, f.i, th.(pc := f.next), states, n - 1);
    fuel := fuel + 1;
  }

  lemma {:induction false} NotCrashed(t: Text, code: seq<Byte>, c: Config, n: nat)
    requires Ends(t, code, c, n)
    ensures !c.Crashed?
  {
    if c.Crashed? { FinalStays(t, code, c, n); }
  }

  lemma {:induction false} ExecuteEnds(t: Text, code: seq<Byte>, i: Instr, th: Thread, states: seq<Saved>, n: nat)
    returns (fuel: nat)
    requires Ends(t, code, Execute(t, i, th, states), n)
    requires i.SimpleGreedyQuant? ==> th.pc >= 17 && Fetch(code, th.pc - 17) == Got(i, th.pc)
    ensures SearchFrom(t, code, i, th, fuel) != Undefined
    decreases n, 3
  {
    hide Perform, CapturesFit, Search, Ends, Fetch;
    NotCrashed(t, code, Execute(t, i, th, states), n);
    fuel := 0;
    match i
    case Do(p) =>
      var m := Perform(t, p, th.s);
      if m.Go? { fuel := SearchEnds(t, code, th.(s := m.s), states, n); }
    case Match =>
    case Goto(off) => fuel := SearchEnds(t, code, th.(pc := th.pc + off), states, n);
    case SplitGotoFirst(off) => fuel := SplitEnds(t, code, th.(pc := th.pc + off), th, states, n);
    case SplitNextFirst(off) => fuel := SplitEnds(t, code, th, th.(pc := th.pc + off), states, n);
    case Lookahead(off) => fuel := LookEnds(t, code, th, off, false, states, n);
    case NegativeLookahead(off) => fuel := LookEnds(t, code, th, off, true, states, n);
    case PushI32(v) => fuel := SearchEnds(t, code, th.(stack := th.stack + [v]), states, n);
    case PushCharPos => fuel := SearchEnds(t, code, th.(stack := th.stack + [th.s.pos]), states, n);
    case Drop => fuel := SearchEnds(t, code, th.(stack := Popped(th.stack)), states, n);
    case Loop(off) =>
      var v := (Top(th.stack) - 1) % WORD;
      fuel := SearchEnds(t, code, Thread(if v != 0 then th.pc + off else th.pc, th.s, Popped(th.stack) + [v]), states,
                         n);
    case BneCharPos(off) =>
      fuel := SearchEnds(t, code,
                         Thread(if Top(th.stack) != th.s.pos then th.pc + off else th.pc, th.s, Popped(th.stack)),
                         states, n);
    case SimpleGreedyQuant(next, min, max, count) => fuel := RepeatEnds(t, code, i, th, states, n);
  }

  /** After a sub-search that ends, the run goes on from the state saved before it. */
  lemma {:induction false} AfterSearch(t: Text, code: seq<Byte>, th: Thread, saved: Saved, states: seq<Saved>, n: nat,
                                       fuel: nat)
    returns (k: nat, caps: seq<Mark>)
    requires Ends(t, code, Running(th, states + [saved]), n) && Search(t, code, th, fuel) != Undefined
    ensures var r := Search(t, code, th, fuel);
            && k < n && Ends(t, code, Unwind(t, code, r.Found?, caps, saved, states), n - k - 1)
            && (r.Found? ==> caps == r.s.caps)
  {
    hide Steps, Search, Unwind;
    var c := Running(th, states + [saved]);
    k, caps := MachineSearches(t, code, th, fuel, states + [saved]);
    Remaining(t, code, c, n, k);
    var u := Steps(t, code, c, k);
    EndsAfterStep(t, code, u, n - k);
    assert (states + [saved])[..|states|] == states;
  }

  lemma {:induction false} SplitEnds(t: Text, code: seq<Byte>, a: Thread, b: Thread, states: seq<Saved>, n: nat)
    returns (fuel: nat)
    requires Ends(t, code, Running(a, states + [Saved(SplitState, b.pc, b.s, b.stack, 0)]), n)
    ensures OrElse(Search(t, code, a, fuel), Search(t, code, b, fuel)) != Undefined
    decreases n, 1
  {
    hide Search, Ends;
    var saved := Saved(SplitState, b.pc, b.s, b.stack, 0);
    fuel := SearchEnds(t, code, a, states + [saved], n);
    if Search(t, code, a, fuel).Fail? {
      var k, _ := AfterSearch(t, code, a, saved, states, n, fuel);
      var f := SearchEnds(t, code, b, states, n - k - 1);
      SearchMore(t, code, a, fuel, fuel + f);
      SearchMore(t, code, b, f, fuel + f);
      fuel := fuel + f;
    }
  }

  lemma {:induction false} LookEnds(t: Text, code: seq<Byte>, th: Thread, off: int, neg: bool, states: seq<Saved>,
                                    n: nat)
    returns (fuel: nat)
    requires Ends(t, code, Execute(t, if neg then NegativeLookahead(off) else Lookahead(off), th, states), n)
    ensures SearchFrom(t, code, if neg then NegativeLookahead(off) else Lookahead(off), th, fuel) != Undefined
    decreases n, 1
  {
    hide Search, Ends;
    var saved := Saved(if neg then NegativeLookaheadState else LookaheadState, th.pc + off, th.s, th.stack, 0);
    fuel := SearchEnds(t, code, th, states + [saved], n);
    var r := Search(t, code, th, fuel);
    if r.Found? != neg {
      var k, caps := AfterSearch(t, code, th, saved, states, n, fuel);
      var b := Thread(th.pc + off, if neg then th.s else Place(th.s.pos, r.s.caps), th.stack);
      var f := SearchEnds(t, code, b, states, n - k - 1);
      SearchMore(t, code, th, fuel, fuel + f);
      SearchMore(t, code, b, f, fuel + f);
      fuel := fuel + f;
    }
  }

  lemma {:induction false} CountEnds(t: Text, code: seq<Byte>, i: Instr, th: Thread, q: nat, states: seq<Saved>, n: nat)
    returns (fuel: nat)
    requires i.SimpleGreedyQuant? && Ends(t, code, Counting(th, i, q, states), n)
    ensures CountMatches(t, code, th.pc, th.s, q, i.max, fuel).Counted?
    decreases n
  {
    hide RunStraight, EndCount, Ends;
    var c := Counting(th, i, q, states);
    EndsAfterStep(t, code, c, n);
    NotCrashed(t, code, Step(t, code, c), n - 1);
    fuel := 1;
    match RunStraight(t, code, th.pc, th.s)
    case Miss =>
    case Hit(pos) =>
      if !(q + 1 >= i.max && i.max != INT32_MAX) {
        fuel := CountEnds(t, code, i, th.(s := th.s.(pos := pos)), q + 1, states, n - 1);
        fuel := fuel + 1;
      }
  }

  lemma {:induction false} RepeatEnds(t: Text, code: seq<Byte>, i: Instr, th: Thread, states: seq<Saved>, n: nat)
    returns (fuel: nat)
    requires i.SimpleGreedyQuant? && Ends(t, code, Counting(th, i, 0, states), n)
    requires th.pc >= 17 && Fetch(code, th.pc - 17) == Got(i, th.pc)
    ensures SearchFrom(t, code, i, th, fuel) != Undefined
    decreases n, 2
  {
    hide CountMatches, GiveBack, Steps, Fetch;
    fuel := CountEnds(t, code, i, th, 0, states, n);
    var r := CountMatches(t, code, th.pc, th.s, 0, i.max, fuel);
    if r.q >= i.min {
      var k := MachineCounts(t, code, i, th, 0, fuel, states);
      var c := Counting(th, i, 0, states);
      Remaining(t, code, c, n, k);
      var f := GiveBackEnds(t, code, i, th, r.pos, r.q - i.min, states, n - k);
      CountMore(t, code, th.pc, th.s, 0, i.max, fuel, fuel + f);
      GiveBackMore(t, code, th.(pc := th.pc + i.next), r.pos, r.q - i.min, i.count, f, fuel + f);
      fuel := fuel + f;
    }
  }

  lemma {:induction false} GiveBackEnds(t: Text, code: seq<Byte>, i: Instr, th: Thread, pos: nat, left: nat,
                                        states: seq<Saved>, n: nat)
    returns (fuel: nat)
    requires i.SimpleGreedyQuant? && Ends(t, code, AfterCount(i, th, pos, left, states), n)
    requires th.pc >= 17 && Fetch(code, th.pc - 17) == Got(i, th.pc)
    ensures GiveBack(t, code, th.(pc := th.pc + i.next), pos, left, i.count, fuel) != Undefined
    decreases n, 1, left
  {
    hide Search, Ends, Fetch, StepBack;
    var th' := Thread(th.pc + i.next, th.s.(pos := pos), th.stack);
    if left == 0 {
      fuel := SearchEnds(t, code, th', states, n);
    } else {
      var saved := Saved(GreedyQuantState, th.pc - 16, th'.s, th.stack, left);
      fuel := SearchEnds(t, code, th', states + [saved], n);
      if Search(t, code, th', fuel).Fail? {
        var k, _ := AfterSearch(t, code, th', saved, states, n, fuel);
        var f := GiveBackEnds(t, code, i, th, StepBack(t, pos, i.count), left - 1, states, n - k - 1);
        SearchMore(t, code, th', fuel, fuel + f);
        GiveBackMore(t, code, th.(pc := th.pc + i.next), StepBack(t, pos, i.count), left - 1, i.count, f, fuel + f);
        fuel := fuel + f;
      }
    }
  }

  /** A run that ends returns what the recursive search returns: the same verdict, and on success the same captures. */
  lemma {:induction false} MachineRefinesSearch(t: Text, code: seq<Byte>, th: Thread, n: nat) returns (fuel: nat)
    requires Steps(t, code, Running(th, []), n).Done?
    ensures var r, d := Search(t, code, th, fuel), Steps(t, code, Running(th, []), n);
            r != Undefined && d.ret == r.Found? && (r.Found? ==> d.caps == r.s.caps)
  {
    hide Steps, Search;
    var c := Running(th, []);
    fuel := SearchEnds(t, code, th, [], n);
    var k, caps := MachineSearches(t, code, th, fuel, []);
    Remaining(t, code, c, n, k);
    StepsAdd(t, code, c, k, n - k);
    var u := Steps(t, code, c, k);
    assert Step(t, code, u) == Done(u.ret, u.caps);
    StepThen(t, code, u, n - k - 1);
    FinalStays(t, code, Step(t, code, u), n - k - 1);
  }

  /** And a search that ends is a run that ends. */
  lemma {:induction false} SearchRunsMachine(t: Text, code: seq<Byte>, th: Thread, fuel: nat) returns (n: nat)
    requires Search(t, code, th, fuel) != Undefined
    ensures var r, d := Search(t, code, th, fuel), Steps(t, code, Running(th, []), n);
            d.Done? && d.ret == r.Found? && (r.Found? ==> d.caps == r.s.caps)
  {
    hide Steps, Search;
    var caps;
    n, caps := MachineSearches(t, code, th, fuel, []);
    ThenStep(t, code, Running(th, []), n);
    n := n + 1;
  }
}
