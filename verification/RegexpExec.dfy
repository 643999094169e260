/** The machine as a loop over mutable registers and a growable stack of saved states. */
module RegexpExec {
  import opened RegexpCode
  import opened RegexpText
  import opened RegexpSearch
  import opened RegexpMachine
  import RegexpRanges

  class ExecContext {
    var states: seq<Saved>

    constructor ()
      ensures states == []
    {
      states := [];
    }

    method PushState(kind: Kind, pc: int, capture: seq<Mark>, stack: seq<int>, cptr: nat, count: nat)
      modifies this
      ensures states == old(states) + [Saved(kind, pc, Place(cptr, capture), stack, count)]
    {
      states := states + [Saved(kind, pc, Place(cptr, capture), stack, count)];
    }
  }

  /** A run that ends: what is left to do from `c` leads to `goal`. */
  ghost predicate LeadsTo(t: Text, code: seq<Byte>, c: Config, n: nat, goal: Config) {
    goal.Done? && Steps(t, code, c, n) == goal
  }

  lemma {:induction false} NextStep(t: Text, code: seq<Byte>, c: Config, n: nat, goal: Config)
    requires LeadsTo(t, code, c, n, goal) && !c.Done?
    ensures n > 0 && LeadsTo(t, code, Step(t, code, c), n - 1, goal) && !Step(t, code, c).Crashed?
  {
    EndsAfterStep(t, code, c, n);
    NotCrashed(t, code, Step(t, code, c), n - 1);
  }

  lemma {:induction false} Finished(t: Text, code: seq<Byte>, c: Config, n: nat, goal: Config)
    requires LeadsTo(t, code, c, n, goal) && c.Done?
    ensures c == goal
  {
    FinalStays(t, code, c, n);
  }

  datatype Status = Continue | Matched | NoMatch

  /** Runs the code from `pc0`. The ghost bound `n` says that this run ends. */
  method ExecBacktrack(ctx: ExecContext, t: Text, code: seq<Byte>, caps0: seq<Mark>, pc0: int, pos0: nat, ghost n: nat)
    returns (ret: bool, capture: seq<Mark>)
    requires ctx.states == [] && Steps(t, code, Running(Thread(pc0, Place(pos0, caps0), []), []), n).Done?
    modifies ctx
    ensures Done(ret, capture) == Steps(t, code, Running(Thread(pc0, Place(pos0, caps0), []), []), n)
  {
    hide Step, Steps, Fetch, Perform, LeadsTo;
    var pc, cptr, stack: seq<int> := pc0, pos0, [];
    capture := caps0;
    ghost var goal, left := Steps(t, code, Running(Thread(pc0, Place(pos0, caps0), []), []), n), n;
    StartRun(t, code, Running(Thread(pc0, Place(pos0, caps0), []), []), n);
    while true
      invariant LeadsTo(t, code, Running(Thread(pc, Place(cptr, capture), stack), ctx.states), left, goal)
      decreases left
    {
      ghost var c := Running(Thread(pc, Place(cptr, capture), stack), ctx.states);
      NextStep(t, code, c, left, goal);
      left := left - 1;
      Fetches(t, code, c);
      var f := Fetch(code, pc);
      ghost var c' := Execute(t, f.i, Thread(f.next, Place(cptr, capture), stack), ctx.states);
      pc := f.next;
      var status := Continue;
      match f.i {
        case Do(p) =>
          var m;
          if p.Range? || p.Range32? {
            m := PerformRange(t, p, Place(cptr, capture));
          } else if p.BackReference? || p.BackwardBackReference? {
            m := PerformReference(t, p, Place(cptr, capture));
          } else {
            m := Perform(t, p, Place(cptr, capture));
          }
          match m {
            case Stop => status := NoMatch;
            case Go(s) => cptr, capture := s.pos, s.caps;
          }
        case Match => status := Matched;
        case Goto(off) => pc := pc + off;
        case SplitGotoFirst(off) =>
          ctx.PushState(SplitState, pc, capture, stack, cptr, 0);
          pc := pc + off;
        case SplitNextFirst(off) => ctx.PushState(SplitState, pc + off, capture, stack, cptr, 0);
        case Lookahead(off) => ctx.PushState(LookaheadState, pc + off, capture, stack, cptr, 0);
        case NegativeLookahead(off) => ctx.PushState(NegativeLookaheadState, pc + off, capture, stack, cptr, 0);
        case PushI32(v) => stack := stack + [v];
        case PushCharPos => stack := stack + [cptr];
        case Drop => stack := stack[..|stack| - 1];
        case Loop(off) =>
          var v := (stack[|stack| - 1] - 1) % WORD;
          stack := stack[..|stack| - 1] + [v];
          if v != 0 { pc := pc + off; }
        case BneCharPos(off) =>
          var v := stack[|stack| - 1];
          stack := stack[..|stack| - 1];
          if v != cptr { pc := pc + off; }
        case SimpleGreedyQuant(next, min, max, count) =>
          var q;
          q, cptr, left := CountLoop(t, code, f.i, pc, cptr, capture, stack, ctx.states, left, goal);
          if q < min {
            status := NoMatch;
          } else {
            if q > min { ctx.PushState(GreedyQuantState, pc - 16, capture, stack, cptr, q - min); }
            pc := pc + next;
          }
      }
      if status != Continue {
        var resumed;
        ret := status == Matched;
        assert LeadsTo(t, code, Unwinding(ret, capture, ctx.states), left, goal);
        resumed, ret, pc, cptr, capture, stack, left := Backtrack(ctx, t, code, ret, capture, left, goal);
        if !resumed { return; }
      }
    }
  }

  /** A character set: the bounds of the first and the last pair, then a binary search. The pairs of an emitted set
      ascend; among those, this is membership of the character at hand. */
  method PerformRange(t: Text, p: Prim, s: Place) returns (m: Motion)
    requires p.Range? || p.Range32?
    ensures m == Perform(t, p, s)
    ensures RegexpRanges.Ascending(p.pairs) ==>
              (m.Go? <==> s.pos < |t.units| && RegexpRanges.InSet(p, Fold(t, GetChar(t, s.pos, |t.units|).0)))
  {
    hide RegexpRanges.InSet, RegexpRanges.Ascending;
    if RegexpRanges.Ascending(p.pairs) { RegexpRanges.AcceptsSet(t, p, GetChar(t, s.pos, |t.units|).0); }
    if s.pos >= |t.units| || p.pairs == [] { return Stop; }
    var (c0, next) := GetChar(t, s.pos, |t.units|);
    var c, high := Fold(t, c0), p.pairs[|p.pairs| - 1].1;
    if c < p.pairs[0].0 { return Stop; }
    if p.Range? && c >= 0xffff && high == 0xffff { return Go(s.(pos := next)); }
    if c > high { return Stop; }
    var found := SearchPairs(p.pairs, c);
    return if found then Go(s.(pos := next)) else Stop;
  }

  /** A back reference: the captured characters are read alongside those at hand, and compared one by one. */
  method PerformReference(t: Text, p: Prim, s: Place) returns (m: Motion)
    requires p.BackReference? || p.BackwardBackReference?
    ensures m == Perform(t, p, s)
  {
    if 2 * p.k + 1 >= |s.caps| { return Stop; }
    var start, end := s.caps[2 * p.k], s.caps[2 * p.k + 1];
    if start.NoMark? || end.NoMark? { return Go(s); }
    var cptr: nat := s.pos;
    if p.BackReference? {
      var cptr1: nat := start.pos;
      while cptr1 < end.pos
        invariant Repeat(t, start.pos, end.pos, s.pos) == Repeat(t, cptr1, end.pos, cptr)
        decreases end.pos - cptr1
      {
        if cptr >= |t.units| { return Stop; }
        var (c1, next1) := GetChar(t, cptr1, end.pos);
        var (c2, next) := GetChar(t, cptr, |t.units|);
        if Fold(t, c1) != Fold(t, c2) { return Stop; }
        cptr1, cptr := next1, next;
      }
    } else {
      var cptr1: nat := end.pos;
      while cptr1 > start.pos
        invariant RepeatBackward(t, start.pos, end.pos, s.pos) == RepeatBackward(t, start.pos, cptr1, cptr)
      {
        if cptr == 0 { return Stop; }
        var (c1, next1) := GetPrevChar(t, cptr1, start.pos);
        var (c2, next) := GetPrevChar(t, cptr, 0);
        if Fold(t, c1) != Fold(t, c2) { return Stop; }
        cptr1, cptr := next1, next;
      }
    }
    return Go(s.(pos := cptr));
  }

  /** The machine's search loop. The upper index never falls below zero, so its unsigned counter does not wrap. */
  method SearchPairs(pairs: seq<(nat, nat)>, c: nat) returns (found: bool)
    requires pairs != [] && pairs[0].0 <= c
    ensures found == FindPair(pairs, c, 0, |pairs| - 1)
  {
    var lo: nat, hi: nat := 0, |pairs| - 1;
    while lo <= hi
      invariant hi < |pairs| && FindPair(pairs, c, 0, |pairs| - 1) == FindPair(pairs, c, lo, hi)
      decreases hi as int - lo
    {
      var idx := (lo + hi) / 2;
      if c < pairs[idx].0 {
        assert idx > 0;
        hi := idx - 1;
      } else if c > pairs[idx].1 {
        lo := idx + 1;
      } else {
        return true;
      }
    }
    return false;
  }

  lemma {:induction false} StartRun(t: Text, code: seq<Byte>, c: Config, n: nat)
    requires Steps(t, code, c, n).Done?
    ensures LeadsTo(t, code, c, n, Steps(t, code, c, n))
  {
  }

  /** A running configuration that does not crash fetches an instruction. */
  lemma {:induction false} Fetches(t: Text, code: seq<Byte>, c: Config)
    requires c.Running? && !Step(t, code, c).Crashed?
    ensures c.th.pc >= 0
    ensures var f := Fetch(code, c.th.pc); f.Got? && Step(t, code, c) == Execute(t, f.i, c.th.(pc := f.next), c.states)
  {
  }

  /** The loop of a simple quantifier. */
  method CountLoop(t: Text, code: seq<Byte>, i: Instr, pc: int, cptr0: nat, capture: seq<Mark>, stack: seq<int>,
                   ghost states: seq<Saved>, ghost n: nat, ghost goal: Config)
    returns (q: nat, cptr: nat, ghost left: nat)
    requires i.SimpleGreedyQuant?
             && LeadsTo(t, code, Counting(Thread(pc, Place(cptr0, capture), stack), i, 0, states), n, goal)
    ensures left <= n && LeadsTo(t, code, EndCount(Thread(pc, Place(cptr, capture), stack), i, q, states), left, goal)
  {
    hide Steps, RunStraight, LeadsTo, EndCount;
    q, cptr, left := 0, cptr0, n;
    while true
      invariant left <= n && LeadsTo(t, code, Counting(Thread(pc, Place(cptr, capture), stack), i, q, states), left,
                                     goal)
      decreases left
    {
      NextStep(t, code, Counting(Thread(pc, Place(cptr, capture), stack), i, q, states), left, goal);
      left := left - 1;
      var res := RunStraight(t, code, pc, Place(cptr, capture));
      if res.Miss? { return; }
      cptr := res.pos;
      q := q + 1;
      if q >= i.max && i.max != INT32_MAX { return; }
    }
  }

  /** Goes back through the saved states until one can be taken up. */
  method Backtrack(ctx: ExecContext, t: Text, code: seq<Byte>, ret0: bool, capture0: seq<Mark>, ghost n: nat,
                   ghost goal: Config)
    returns (resumed: bool, ret: bool, pc: int, cptr: nat, capture: seq<Mark>, stack: seq<int>, ghost left: nat)
    requires LeadsTo(t, code, Unwinding(ret0, capture0, ctx.states), n, goal)
    modifies ctx
    ensures left <= n
    ensures resumed ==> LeadsTo(t, code, Running(Thread(pc, Place(cptr, capture), stack), ctx.states), left, goal)
    ensures !resumed ==> goal == Done(ret, capture)
  {
    hide Steps, Fetch, LeadsTo, StepBack;
    ret, capture, left := ret0, capture0, n;
    pc, cptr, stack := 0, 0, [];
    while true
      invariant left <= n && LeadsTo(t, code, Unwinding(ret, capture, ctx.states), left, goal)
      decreases left
    {
      NextStep(t, code, Unwinding(ret, capture, ctx.states), left, goal);
      left := left - 1;
      if ctx.states == [] {
        Finished(t, code, Done(ret, capture), left, goal);
        return false, ret, pc, cptr, capture, stack, left;
      }
      var rs := ctx.states[|ctx.states| - 1];
      var rest := ctx.states[..|ctx.states| - 1];
      ctx.states := rest;
      if rs.kind == SplitState {
        if !ret {
          return true, ret, rs.pc, rs.s.pos, rs.s.caps, rs.stack, left;
        }
      } else if rs.kind == GreedyQuantState {
        if !ret {
          var f := Fetch(code, rs.pc - 1);
          var back := StepBack(t, rs.s.pos, f.i.count);
          if rs.count != 1 {
            ctx.PushState(GreedyQuantState, rs.pc, rs.s.caps, rs.stack, back, rs.count - 1);
          }
          return true, ret, f.next + f.i.next, back, rs.s.caps, rs.stack, left;
        }
      } else {
        ret := (rs.kind == LookaheadState && ret) || (rs.kind == NegativeLookaheadState && !ret);
        if ret {
          // a positive lookahead keeps its captures
          return true, ret, rs.pc, rs.s.pos, if rs.kind == LookaheadState then capture else rs.s.caps, rs.stack, left;
        }
      }
    }
  }
}
