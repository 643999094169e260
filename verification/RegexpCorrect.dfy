/** The emitted code of a pattern yields the pattern's results, in order. */
module RegexpCorrect {
  import opened RegexpCode
  import opened RegexpText
  import opened RegexpSearch
  import opened RegexpSyntax
  import opened RegexpCompile
  import opened RegexpRules
  import opened RegexpSimple

  /** The code of `n` stands at `pc`, and the machine has room for its captures. */
  ghost predicate Ready(e: Env, n: Node, back: bool, base: nat, pc: int) {
    WellFormed(n) && Sound(n, back, base, e.frame.loose) && 2 * (base + Groups(n)) <= e.frame.marks
       && Loaded(e, pc, Compile(n, back, base))
  }

  ghost function End(n: Node, back: bool, base: nat, pc: int): int
    requires WellFormed(n)
  {
    pc + SizeAll(Compile(n, back, base))
  }

  // ---------- forks ----------

  /** A split at `pc` that tries `x` first and then `y`. */
  predicate Forks(code: seq<Byte>, pc: int, x: int, y: int) {
    && pc >= 0
    && match Fetch(code, pc)
       case Got(SplitNextFirst(off), next) => x == next && y == next + off
       case Got(SplitGotoFirst(off), next) => x == next + off && y == next
       case _ => false
  }

  lemma {:induction false} ForkRule(e: Env, pc: int, x: int, y: int, s: Place, stack: seq<int>, r: Outcome)
    requires Forks(e.code, pc, x, y)
    requires (r != Fail && Yields(e, Thread(x, s, stack), r))
             || (Yields(e, Thread(x, s, stack), Fail) && Yields(e, Thread(y, s, stack), r))
    ensures Yields(e, Thread(pc, s, stack), r)
  {
    hide Yields, Fetch;
    match Fetch(e.code, pc)
    case Got(SplitNextFirst(off), next) => SplitRule(e, pc, true, off, next, s, stack, r);
    case Got(SplitGotoFirst(off), next) => SplitRule(e, pc, false, off, next, s, stack, r);
  }

  // ---------- unlimited loops ----------

  /** The loop over `n`, in its direction and with its priorities. */
  datatype Iter = Iter(n: Node, back: bool, base: nat, greedy: bool)

  /** An unlimited loop: its head forks between the body and the exit, and the end of the body leads back to the head,
      with `check` only if the body has moved. */
  ghost predicate IsStar(e: Env, l: Iter, check: bool, head: int, body: int, atom: int, exit: int) {
    && Ready(e, l.n, l.back, l.base, atom)
    && (if l.greedy then Forks(e.code, head, body, exit) else Forks(e.code, head, exit, body))
    && (if check then Holds(e.code, body, PushCharPos, atom) else body == atom && MustAdvance(l.n))
    && ReturnsTo(e.code, End(l.n, l.back, l.base, atom), check, head, exit)
  }

  predicate ReturnsTo(code: seq<Byte>, tail: int, check: bool, head: int, exit: int) {
    if check then Holds(code, tail, BneCharPos(head - exit), exit)
    else tail == head || Holds(code, tail, Goto(head - tail - 5), tail + 5)
  }

  function Mark0(check: bool, stack: seq<int>, origin: nat): (r: seq<int>) { if check then stack + [origin] else stack }

  /** From the end of the body back to the head. */
  lemma {:induction false} BackToHead(e: Env, tail: int, check: bool, head: int, exit: int, s: Place, stack: seq<int>,
                                      origin: nat, r: Outcome)
    requires ReturnsTo(e.code, tail, check, head, exit) && (check ==> s.pos != origin)
             && Yields(e, Thread(head, s, stack), r)
    ensures Yields(e, Thread(tail, s, Mark0(check, stack, origin)), r)
  {
    hide Yields, Fetch;
    if check {
      StepRule(e, tail, BneCharPos(head - exit), exit, s, stack + [origin], Thread(head, s, stack), r);
    } else if tail != head {
      StepRule(e, tail, Goto(head - tail - 5), tail + 5, s, stack, Thread(head, s, stack), r);
    }
  }

  lemma {:induction false} LeaveLoop(e: Env, tail: int, head: int, exit: int, s: Place, stack: seq<int>, r: Outcome)
    requires ReturnsTo(e.code, tail, true, head, exit) && Yields(e, Thread(exit, s, stack), r)
    ensures Yields(e, Thread(tail, s, stack + [s.pos]), r)
  {
    hide Yields, Fetch;
    StepRule(e, tail, BneCharPos(head - exit), exit, s, stack + [s.pos], Thread(exit, s, stack), r);
  }

  lemma {:induction false} StarRule(e: Env, l: Iter, check: bool, head: int, body: int, atom: int, exit: int, s: Place,
                                    stack: seq<int>, r: Outcome)
    requires IsStar(e, l, check, head, body, atom, exit) && Sane(e.t, s, e.frame)
    requires TryYields(e, exit, Rep(e.t, l.n, l.back, l.base, 0, INT32_MAX, l.greedy, s), stack, r)
    ensures Yields(e, Thread(head, s, stack), r)
    decreases l.n, 2, 0, Room(e.t, l.back, s.pos), 1, 0
  {
    hide Yields, TryYields, Forks, Ready, Results, Again, Sane, ReturnsTo, Holds;
    var ss := Results(e.t, l.n, l.back, l.base, s);
    var more := Again(e.t, l.n, l.back, l.base, INT32_MAX, l.greedy, s.pos, ss);
    if l.greedy {
      TryConcat(e, exit, more, [s], stack, r);
      if r != Fail && TryYields(e, exit, more, stack, r) {
        StarBody(e, l, check, head, body, atom, exit, s, stack, r);
      } else {
        StarBody(e, l, check, head, body, atom, exit, s, stack, Fail);
        TryOne(e, exit, s, stack, r);
      }
      ForkRule(e, head, body, exit, s, stack, r);
    } else {
      TryConcat(e, exit, [s], more, stack, r);
      TryOne(e, exit, s, stack, r);
      TryOne(e, exit, s, stack, Fail);
      if !(r != Fail && TryYields(e, exit, [s], stack, r)) {
        StarBody(e, l, check, head, body, atom, exit, s, stack, r);
      }
      ForkRule(e, head, exit, body, s, stack, r);
    }
  }

  /** One more iteration. */
  lemma {:induction false} StarBody(e: Env, l: Iter, check: bool, head: int, body: int, atom: int, exit: int, s: Place,
                                    stack: seq<int>, r: Outcome)
    requires IsStar(e, l, check, head, body, atom, exit) && Sane(e.t, s, e.frame)
    requires TryYields(e, exit,
                       Again(e.t, l.n, l.back, l.base, INT32_MAX, l.greedy, s.pos,
                             Results(e.t, l.n, l.back, l.base, s)), stack, r)
    ensures Yields(e, Thread(body, s, stack), r)
    decreases l.n, 2, 0, Room(e.t, l.back, s.pos), 0, 1 + |Results(e.t, l.n, l.back, l.base, s)|
  {
    hide Yields, TryYields, Forks, Results, Again, ReturnsTo, Fetch, Loaded, Compile, Sound;
    var ss := Results(e.t, l.n, l.back, l.base, s);
    ResultsMove(e.t, l.n, l.back, l.base, s, e.frame);
    StarTail(e, l, check, head, body, atom, exit, s.pos, ss, stack, r);
    Correct(e, l.n, l.back, l.base, atom, s, Mark0(check, stack, s.pos), r);
    if check { StepRule(e, body, PushCharPos, atom, s, stack, Thread(atom, s, stack + [s.pos]), r); }
  }

  /** After an iteration from `origin`: back to the head, or out of the loop if nothing was consumed. */
  lemma {:induction false} StarTail(e: Env, l: Iter, check: bool, head: int, body: int, atom: int, exit: int,
                                    origin: nat, ss: seq<Place>, stack: seq<int>, r: Outcome)
    requires IsStar(e, l, check, head, body, atom, exit) && AllMoved(e.t, l.back, origin, ss, e.frame, MustAdvance(l.n))
             && origin <= |e.t.units|
    requires TryYields(e, exit, Again(e.t, l.n, l.back, l.base, INT32_MAX, l.greedy, origin, ss), stack, r)
    ensures TryYields(e, End(l.n, l.back, l.base, atom), ss, Mark0(check, stack, origin), r)
    decreases l.n, 2, 0, Room(e.t, l.back, origin), 0, |ss|
  {
    hide Yields, Forks, Results, Rep, Ready, ReturnsTo, Holds, Boundary;
    if ss != [] {
      var s', rest := ss[0], ss[1..];
      var first := if Room(e.t, l.back, s'.pos) >= Room(e.t, l.back, origin) then [s']
                   else Rep(e.t, l.n, l.back, l.base, 0, INT32_MAX, l.greedy, s');
      var others := Again(e.t, l.n, l.back, l.base, INT32_MAX, l.greedy, origin, rest);
      TryConcat(e, exit, first, others, stack, r);
      if r != Fail && TryYields(e, exit, first, stack, r) {
        StarOnce(e, l, check, head, body, atom, exit, origin, s', stack, r);
      } else {
        StarOnce(e, l, check, head, body, atom, exit, origin, s', stack, Fail);
        StarTail(e, l, check, head, body, atom, exit, origin, rest, stack, r);
      }
    }
  }

  lemma {:induction false} StarOnce(e: Env, l: Iter, check: bool, head: int, body: int, atom: int, exit: int,
                                    origin: nat, s: Place, stack: seq<int>, r: Outcome)
    requires IsStar(e, l, check, head, body, atom, exit) && Moved(e.t, l.back, origin, s, e.frame, MustAdvance(l.n))
             && origin <= |e.t.units|
    requires TryYields(e, exit,
                       if Room(e.t, l.back, s.pos) >= Room(e.t, l.back, origin) then [s]
                       else Rep(e.t, l.n, l.back, l.base, 0, INT32_MAX, l.greedy, s), stack, r)
    ensures Yields(e, Thread(End(l.n, l.back, l.base, atom), s, Mark0(check, stack, origin)), r)
    decreases l.n, 2, 0, Room(e.t, l.back, origin), 0, 0
  {
    hide Yields, TryYields, Forks, Results, Rep, Loaded, Sound, ReturnsTo, Holds;
    var tail := End(l.n, l.back, l.base, atom);
    if Room(e.t, l.back, s.pos) >= Room(e.t, l.back, origin) {
      TryOne(e, exit, s, stack, r);
      LeaveLoop(e, tail, head, exit, s, stack, r);
    } else {
      StarRule(e, l, check, head, body, atom, exit, s, stack, r);
      BackToHead(e, tail, check, head, exit, s, stack, origin, r);
    }
  }

  // ---------- counted loops ----------

  /** A loop counted down on the stack: behind the body, the counter decides between `again` and the drop before
      `exit`. */
  ghost predicate IsCounted(e: Env, l: Iter, atom: int, again: int, drop: int, exit: int) {
    && Ready(e, l.n, l.back, l.base, atom)
    && Holds(e.code, End(l.n, l.back, l.base, atom), Loop(again - drop), drop)
    && Holds(e.code, drop, Drop, exit)
  }

  /** The counter reaches zero. */
  lemma {:induction false} LastCount(e: Env, tail: int, again: int, drop: int, exit: int, s: Place, stack: seq<int>,
                                     r: Outcome)
    requires Holds(e.code, tail, Loop(again - drop), drop) && Holds(e.code, drop, Drop, exit)
    requires Yields(e, Thread(exit, s, stack), r)
    ensures Yields(e, Thread(tail, s, stack + [1]), r) && forall k :: Yields(e, Thread(drop, s, stack + [k]), r)
  {
    hide Yields, Fetch;
    forall k
      ensures Yields(e, Thread(drop, s, stack + [k]), r)
    {
      assert Popped(stack + [k]) == stack;
      StepRule(e, drop, Drop, exit, s, stack + [k], Thread(exit, s, stack), r);
    }
    assert Popped(stack + [1]) == stack;
    StepRule(e, tail, Loop(again - drop), drop, s, stack + [1], Thread(drop, s, stack + [0]), r);
  }

  lemma {:induction false} NextCount(e: Env, tail: int, again: int, drop: int, s: Place, stack: seq<int>, k: nat,
                                     r: Outcome)
    requires Holds(e.code, tail, Loop(again - drop), drop) && 1 < k < WORD
    requires Yields(e, Thread(again, s, stack + [k - 1]), r)
    ensures Yields(e, Thread(tail, s, stack + [k]), r)
  {
    hide Yields, Fetch;
    assert Popped(stack + [k]) == stack && Top(stack + [k]) == k;
    StepRule(e, tail, Loop(again - drop), drop, s, stack + [k], Thread(again, s, stack + [k - 1]), r);
  }

  ghost predicate IsUpTo(e: Env, l: Iter, head: int, atom: int, drop: int, exit: int) {
    && IsCounted(e, l, atom, head, drop, exit)
    && (if l.greedy then Forks(e.code, head, atom, drop) else Forks(e.code, head, drop, atom))
  }

  /** At most `k` more iterations, `k` on top of the stack. */
  lemma {:induction false} UpToRule(e: Env, l: Iter, head: int, atom: int, drop: int, exit: int, s: Place,
                                    stack: seq<int>, k: nat, r: Outcome)
    requires IsUpTo(e, l, head, atom, drop, exit) && Sane(e.t, s, e.frame) && 1 <= k < INT32_MAX
    requires TryYields(e, exit, Rep(e.t, l.n, l.back, l.base, 0, k, l.greedy, s), stack, r)
    ensures Yields(e, Thread(head, s, stack + [k]), r)
    decreases l.n, 2, 0, k, 1, 0
  {
    hide Yields, TryYields, Forks, Loaded, Sound, Results, Again, Sane, Holds;
    var ss := Results(e.t, l.n, l.back, l.base, s);
    var more := Again(e.t, l.n, l.back, l.base, k, l.greedy, s.pos, ss);
    var tail := End(l.n, l.back, l.base, atom);
    if l.greedy {
      TryConcat(e, exit, more, [s], stack, r);
      if r != Fail && TryYields(e, exit, more, stack, r) {
        UpToBody(e, l, head, atom, drop, exit, s, stack, k, r);
      } else {
        UpToBody(e, l, head, atom, drop, exit, s, stack, k, Fail);
        TryOne(e, exit, s, stack, r);
        LastCount(e, tail, head, drop, exit, s, stack, r);
      }
      ForkRule(e, head, atom, drop, s, stack + [k], r);
    } else {
      TryConcat(e, exit, [s], more, stack, r);
      TryOne(e, exit, s, stack, r);
      TryOne(e, exit, s, stack, Fail);
      if r != Fail && TryYields(e, exit, [s], stack, r) {
        LastCount(e, tail, head, drop, exit, s, stack, r);
      } else {
        LastCount(e, tail, head, drop, exit, s, stack, Fail);
        UpToBody(e, l, head, atom, drop, exit, s, stack, k, r);
      }
      ForkRule(e, head, drop, atom, s, stack + [k], r);
    }
  }

  lemma {:induction false} UpToBody(e: Env, l: Iter, head: int, atom: int, drop: int, exit: int, s: Place,
                                    stack: seq<int>, k: nat, r: Outcome)
    requires IsUpTo(e, l, head, atom, drop, exit) && Sane(e.t, s, e.frame) && 1 <= k < INT32_MAX
    requires TryYields(e, exit,
                       Again(e.t, l.n, l.back, l.base, k, l.greedy, s.pos, Results(e.t, l.n, l.back, l.base, s)), stack,
                       r)
    ensures Yields(e, Thread(atom, s, stack + [k]), r)
    decreases l.n, 2, 0, k, 0, 1 + |Results(e.t, l.n, l.back, l.base, s)|
  {
    hide Yields, TryYields, Forks, Results, Again, Fetch, Loaded, Compile, Sound, Holds;
    var ss := Results(e.t, l.n, l.back, l.base, s);
    ResultsMove(e.t, l.n, l.back, l.base, s, e.frame);
    UpToTail(e, l, head, atom, drop, exit, s.pos, ss, stack, k, r);
    Correct(e, l.n, l.back, l.base, atom, s, stack + [k], r);
  }

  lemma {:induction false} UpToTail(e: Env, l: Iter, head: int, atom: int, drop: int, exit: int, origin: nat,
                                    ss: seq<Place>, stack: seq<int>, k: nat, r: Outcome)
    requires IsUpTo(e, l, head, atom, drop, exit) && AllMoved(e.t, l.back, origin, ss, e.frame, MustAdvance(l.n))
             && 1 <= k < INT32_MAX
    requires TryYields(e, exit, Again(e.t, l.n, l.back, l.base, k, l.greedy, origin, ss), stack, r)
    ensures TryYields(e, End(l.n, l.back, l.base, atom), ss, stack + [k], r)
    decreases l.n, 2, 0, k, 0, |ss|
  {
    hide Yields, Forks, Results, Rep, Loaded, Sound, Holds, Boundary, Compile;
    if ss != [] {
      var s', rest := ss[0], ss[1..];
      var first := Rep(e.t, l.n, l.back, l.base, 0, k - 1, l.greedy, s');
      TryConcat(e, exit, first, Again(e.t, l.n, l.back, l.base, k, l.greedy, origin, rest), stack, r);
      if r != Fail && TryYields(e, exit, first, stack, r) {
        UpToOnce(e, l, head, atom, drop, exit, s', stack, k, r);
      } else {
        UpToOnce(e, l, head, atom, drop, exit, s', stack, k, Fail);
        UpToTail(e, l, head, atom, drop, exit, origin, rest, stack, k, r);
      }
    }
  }

  lemma {:induction false} UpToOnce(e: Env, l: Iter, head: int, atom: int, drop: int, exit: int, s: Place,
                                    stack: seq<int>, k: nat, r: Outcome)
    requires IsUpTo(e, l, head, atom, drop, exit) && Sane(e.t, s, e.frame) && 1 <= k < INT32_MAX
    requires TryYields(e, exit, Rep(e.t, l.n, l.back, l.base, 0, k - 1, l.greedy, s), stack, r)
    ensures Yields(e, Thread(End(l.n, l.back, l.base, atom), s, stack + [k]), r)
    decreases l.n, 2, 0, k, 0, 0
  {
    hide Yields, TryYields, Forks, Results, Again, Loaded, Sound, Holds, Compile;
    var tail := End(l.n, l.back, l.base, atom);
    if k == 1 {
      TryOne(e, exit, s, stack, r);
      LastCount(e, tail, head, drop, exit, s, stack, r);
    } else {
      UpToRule(e, l, head, atom, drop, exit, s, stack, k - 1, r);
      NextCount(e, tail, head, drop, s, stack, k, r);
    }
  }

  // ---------- layouts ----------

  /** What the code of a loop needs to know about its body. */
  ghost predicate IsIter(e: Env, l: Iter) {
    WellFormed(l.n) && Sound(l.n, l.back, l.base, e.frame.loose) && 2 * (l.base + Groups(l.n)) <= e.frame.marks
  }

  function Code(l: Iter): (a: seq<Instr>)
    requires WellFormed(l.n)
  {
    Compile(l.n, l.back, l.base)
  }

  lemma {:induction false} ForksFrom(code: seq<Byte>, pc: int, nextFirst: bool, off: int)
    requires Holds(code, pc, Split(nextFirst, off), pc + 5)
    ensures if nextFirst then Forks(code, pc, pc + 5, pc + 5 + off) else Forks(code, pc, pc + 5 + off, pc + 5)
  {
    hide Fetch;
  }

  /** The instructions around the body of an unlimited loop. */
  lemma {:induction false} StarFrame(e: Env, a: seq<Instr>, greedy: bool, check: bool, pc: int)
    requires Loaded(e, pc, StarCode(a, greedy, check))
    ensures var atom, exit := if check then pc + 6 else pc + 5, pc + SizeAll(StarCode(a, greedy, check));
            && Holds(e.code, pc, Split(greedy, exit - pc - 5), pc + 5)
            && (check ==> Holds(e.code, pc + 5, PushCharPos, atom))
            && Loaded(e, atom, a) && exit == atom + SizeAll(a) + 5
            && Holds(e.code, exit - 5, if check then BneCharPos(pc - exit) else Goto(pc - exit), exit)
  {
    hide Loaded, SizeAll, EncodeAll, Size, Holds;
    var len := SizeAll(a);
    if check {
      var fork, tail := Split(greedy, len + 6), BneCharPos(-(len as int) - 11);
      FiveBytes(fork);
      FiveBytes(tail);
      OneByte(PushCharPos);
      Framed(e, pc, [fork, PushCharPos], a, [tail]);
      LoadedTwo(e, pc, fork, PushCharPos);
      LoadedLone(e, pc + 6 + len, tail);
    } else {
      var fork, tail := Split(greedy, len + 5), Goto(-(len as int) - 10);
      FiveBytes(fork);
      FiveBytes(tail);
      Framed(e, pc, [fork], a, [tail]);
      LoadedLone(e, pc, fork);
      LoadedLone(e, pc + 5 + len, tail);
    }
  }

  lemma {:induction false} StarLayout(e: Env, l: Iter, check: bool, pc: int)
    requires IsIter(e, l) && Loaded(e, pc, StarCode(Code(l), l.greedy, check)) && (!check ==> MustAdvance(l.n))
    ensures var atom := if check then pc + 6 else pc + 5;
            IsStar(e, l, check, pc, pc + 5, atom, pc + SizeAll(StarCode(Code(l), l.greedy, check)))
  {
    hide Loaded, Sound, Compile, SizeAll, EncodeAll, Holds, WellFormed, MustAdvance, Forks, StarCode, Groups;
    var exit := pc + SizeAll(StarCode(Code(l), l.greedy, check));
    StarFrame(e, Code(l), l.greedy, check, pc);
    ForksFrom(e.code, pc, l.greedy, exit - pc - 5);
  }

  lemma {:induction false} UpToFrame(e: Env, a: seq<Instr>, greedy: bool, m: nat, pc: int)
    requires Loaded(e, pc, UpToCode(a, greedy, m))
    ensures var len := SizeAll(a);
            && Holds(e.code, pc, PushI32(m), pc + 5) && Holds(e.code, pc + 5, Split(greedy, len + 5), pc + 10)
            && Loaded(e, pc + 10, a)
            && Holds(e.code, pc + 10 + len, Loop(-(len as int) - 10), pc + 15 + len)
            && Holds(e.code, pc + 15 + len, Drop, pc + 16 + len)
            && SizeAll(UpToCode(a, greedy, m)) == 16 + len
  {
    hide Loaded, SizeAll, EncodeAll, Size, Holds;
    var len := SizeAll(a);
    var loop, fork := Loop(-(len as int) - 10), Split(greedy, len + 5);
    FiveBytes(PushI32(m));
    FiveBytes(loop);
    FiveBytes(fork);
    OneByte(Drop);
    Framed(e, pc, [PushI32(m), fork], a, [loop, Drop]);
    LoadedTwo(e, pc, PushI32(m), fork);
    LoadedTwo(e, pc + 10 + len, loop, Drop);
  }

  lemma {:induction false} UpToLayout(e: Env, l: Iter, m: nat, pc: int)
    requires IsIter(e, l) && Loaded(e, pc, UpToCode(Code(l), l.greedy, m))
    ensures Holds(e.code, pc, PushI32(m), pc + 5)
    ensures var exit := pc + SizeAll(UpToCode(Code(l), l.greedy, m)); IsUpTo(e, l, pc + 5, pc + 10, exit - 1, exit)
  {
    hide Loaded, Sound, Compile, SizeAll, EncodeAll, Holds, WellFormed, Forks, UpToCode, Groups;
    UpToFrame(e, Code(l), l.greedy, m, pc);
    ForksFrom(e.code, pc + 5, l.greedy, SizeAll(Code(l)) + 5);
  }

  lemma {:induction false} TimesFrame(e: Env, a: seq<Instr>, m: nat, pc: int)
    requires m != 1 && Loaded(e, pc, TimesCode(a, m))
    ensures var len := SizeAll(a);
            && Holds(e.code, pc, PushI32(m), pc + 5) && Loaded(e, pc + 5, a)
            && Holds(e.code, pc + 5 + len, Loop(-(len as int) - 5), pc + 10 + len)
            && Holds(e.code, pc + 10 + len, Drop, pc + 11 + len)
            && SizeAll(TimesCode(a, m)) == 11 + len
  {
    hide Loaded, SizeAll, EncodeAll, Size, Holds;
    var len := SizeAll(a);
    var loop := Loop(-(len as int) - 5);
    FiveBytes(PushI32(m));
    FiveBytes(loop);
    OneByte(Drop);
    Framed(e, pc, [PushI32(m)], a, [loop, Drop]);
    LoadedLone(e, pc, PushI32(m));
    LoadedTwo(e, pc + 5 + len, loop, Drop);
  }

  lemma {:induction false} TimesLayout(e: Env, l: Iter, m: nat, pc: int)
    requires IsIter(e, l) && m != 1 && Loaded(e, pc, TimesCode(Code(l), m))
    ensures Holds(e.code, pc, PushI32(m), pc + 5)
    ensures var exit := pc + SizeAll(TimesCode(Code(l), m)); IsCounted(e, l, pc + 5, pc + 5, exit - 1, exit)
  {
    hide Loaded, Sound, Compile, SizeAll, EncodeAll, Holds, WellFormed, TimesCode, Groups;
    TimesFrame(e, Code(l), m, pc);
  }

  // ---------- mandatory iterations ----------

  /** The code of the optional iterations stands at `pc`. */
  ghost predicate IsRest(e: Env, l: Iter, check: bool, min: nat, max: nat, pc: int) {
    && IsIter(e, l) && min <= max <= INT32_MAX && Loaded(e, pc, RestCode(Code(l), l.greedy, check, min, max))
    && (max == INT32_MAX && !check ==> MustAdvance(l.n))
  }

  ghost function RestEnd(l: Iter, check: bool, min: nat, max: nat, pc: int): int
    requires WellFormed(l.n) && min <= max
  {
    pc + SizeAll(RestCode(Code(l), l.greedy, check, min, max))
  }

  /** How many optional iterations remain after the mandatory ones. */
  function Optional(min: nat, max: nat): (m: nat)
    requires min <= max
  {
    if max == INT32_MAX then max else max - min
  }

  lemma {:induction false} RestRule(e: Env, l: Iter, check: bool, min: nat, max: nat, pc: int, s: Place,
                                    stack: seq<int>, r: Outcome)
    requires IsRest(e, l, check, min, max, pc) && Sane(e.t, s, e.frame)
    requires TryYields(e, RestEnd(l, check, min, max, pc),
                       Rep(e.t, l.n, l.back, l.base, 0, Optional(min, max), l.greedy, s), stack, r)
    ensures Yields(e, Thread(pc, s, stack), r)
    decreases l.n, 2, 1
  {
    hide Yields, TryYields, Results, Again, Sane, StarCode, UpToCode, IsStar, IsUpTo, Loaded, Sound, Compile, Fetch;
    if max == INT32_MAX {
      StarLayout(e, l, check, pc);
      StarRule(e, l, check, pc, pc + 5, if check then pc + 6 else pc + 5, RestEnd(l, check, min, max, pc), s, stack, r);
    } else if max > min {
      var m, exit := max - min, RestEnd(l, check, min, max, pc);
      UpToLayout(e, l, m, pc);
      UpToRule(e, l, pc + 5, pc + 10, exit - 1, exit, s, stack, m, r);
      StepRule(e, pc, PushI32(m), pc + 5, s, stack, Thread(pc + 5, s, stack + [m]), r);
    } else {
      TryOne(e, pc, s, stack, r);
      EmptySize();
    }
  }

  lemma {:induction false} RestAllRule(e: Env, l: Iter, check: bool, min: nat, max: nat, pc: int, ss: seq<Place>,
                                       stack: seq<int>, r: Outcome)
    requires IsRest(e, l, check, min, max, pc) && (forall i :: 0 <= i < |ss| ==> Sane(e.t, ss[i], e.frame))
    requires TryYields(e, RestEnd(l, check, min, max, pc),
                       RepAll(e.t, l.n, l.back, l.base, 0, Optional(min, max), l.greedy, ss), stack, r)
    ensures TryYields(e, pc, ss, stack, r)
    decreases l.n, 2, 2, |ss|
  {
    hide Yields, Rep, Sane, Loaded, Sound, Compile, RestCode;
    if ss != [] {
      var exit, first := RestEnd(l, check, min, max, pc),
          Rep(e.t, l.n, l.back, l.base, 0, Optional(min, max), l.greedy, ss[0]);
      TryConcat(e, exit, first, RepAll(e.t, l.n, l.back, l.base, 0, Optional(min, max), l.greedy, ss[1..]), stack, r);
      if r != Fail && TryYields(e, exit, first, stack, r) {
        RestRule(e, l, check, min, max, pc, ss[0], stack, r);
      } else {
        RestRule(e, l, check, min, max, pc, ss[0], stack, Fail);
        RestAllRule(e, l, check, min, max, pc, ss[1..], stack, r);
      }
    }
  }

  /** `k` mandatory iterations, `k` on top of the stack, and then the optional ones at `rest`. */
  lemma {:induction false} TimesRule(e: Env, l: Iter, check: bool, min: nat, max: nat, atom: int, drop: int, rest: int,
                                     s: Place, stack: seq<int>, k: nat, r: Outcome)
    requires IsRest(e, l, check, min, max, rest) && IsCounted(e, l, atom, atom, drop, rest) && Sane(e.t, s, e.frame)
             && 1 <= k <= min < WORD
    requires TryYields(e, RestEnd(l, check, min, max, rest),
                       Rep(e.t, l.n, l.back, l.base, k, After(min, max, k), l.greedy, s), stack, r)
    ensures Yields(e, Thread(atom, s, stack + [k]), r)
    decreases l.n, 3, k, 1, 0
  {
    hide Yields, TryYields, Results, RepAll, Sane, Loaded, Sound, Compile, RestCode, Holds;
    var ss := Results(e.t, l.n, l.back, l.base, s);
    ResultsMove(e.t, l.n, l.back, l.base, s, e.frame);
    TimesTail(e, l, check, min, max, atom, drop, rest, ss, stack, k, r);
    Correct(e, l.n, l.back, l.base, atom, s, stack + [k], r);
  }

  /** The limit that is left when `k` mandatory iterations remain. */
  function After(min: nat, max: nat, k: nat): (m: nat)
    requires k <= min <= max
  {
    if max == INT32_MAX then max else max - min + k
  }

  lemma {:induction false} TimesTail(e: Env, l: Iter, check: bool, min: nat, max: nat, atom: int, drop: int, rest: int,
                                     ss: seq<Place>, stack: seq<int>, k: nat, r: Outcome)
    requires IsRest(e, l, check, min, max, rest) && IsCounted(e, l, atom, atom, drop, rest) && 1 <= k <= min < WORD
    requires forall i :: 0 <= i < |ss| ==> Sane(e.t, ss[i], e.frame)
    requires TryYields(e, RestEnd(l, check, min, max, rest),
                       RepAll(e.t, l.n, l.back, l.base, k - 1, After(min, max, k - 1), l.greedy, ss), stack, r)
    ensures TryYields(e, End(l.n, l.back, l.base, atom), ss, stack + [k], r)
    decreases l.n, 3, k, 0, |ss|
  {
    hide Yields, Rep, Sane, Loaded, Sound, Compile, RestCode, Holds;
    if ss != [] {
      var exit, first := RestEnd(l, check, min, max, rest),
          Rep(e.t, l.n, l.back, l.base, k - 1, After(min, max, k - 1), l.greedy, ss[0]);
      TryConcat(e, exit, first, RepAll(e.t, l.n, l.back, l.base, k - 1, After(min, max, k - 1), l.greedy, ss[1..]),
                stack, r);
      if r != Fail && TryYields(e, exit, first, stack, r) {
        TimesOnce(e, l, check, min, max, atom, drop, rest, ss[0], stack, k, r);
      } else {
        TimesOnce(e, l, check, min, max, atom, drop, rest, ss[0], stack, k, Fail);
        TimesTail(e, l, check, min, max, atom, drop, rest, ss[1..], stack, k, r);
      }
    }
  }

  lemma {:induction false} TimesOnce(e: Env, l: Iter, check: bool, min: nat, max: nat, atom: int, drop: int, rest: int,
                                     s: Place, stack: seq<int>, k: nat, r: Outcome)
    requires IsRest(e, l, check, min, max, rest) && IsCounted(e, l, atom, atom, drop, rest) && Sane(e.t, s, e.frame)
             && 1 <= k <= min < WORD
    requires TryYields(e, RestEnd(l, check, min, max, rest),
                       Rep(e.t, l.n, l.back, l.base, k - 1, After(min, max, k - 1), l.greedy, s), stack, r)
    ensures Yields(e, Thread(End(l.n, l.back, l.base, atom), s, stack + [k]), r)
    decreases l.n, 3, k, 0, 0
  {
    hide Yields, TryYields, Rep, Sane, Loaded, Sound, Compile, RestCode, Holds;
    var tail := End(l.n, l.back, l.base, atom);
    if k == 1 {
      RestRule(e, l, check, min, max, rest, s, stack, r);
      LastCount(e, tail, atom, drop, rest, s, stack, r);
    } else {
      TimesRule(e, l, check, min, max, atom, drop, rest, s, stack, k - 1, r);
      NextCount(e, tail, atom, drop, s, stack, k, r);
    }
  }

  // ---------- quantified patterns ----------

  lemma {:induction false} OneReset(t: Text, n: Node, back: bool, base: nat, min: nat, max: nat, greedy: bool, s: Place,
                                    marks: nat)
    requires |s.caps| == marks && 2 * (base + Groups(n)) <= marks
    ensures AllFit(ResetPrims(n, min, base), marks)
    ensures var ss := Through(t, ResetPrims(n, min, base), s);
            |ss| == 1 && RepAll(t, n, back, base, min, max, greedy, ss) == Rep(t, n, back, base, min, max, greedy,
              ss[0])
  {
    hide Rep;
    var ps := ResetPrims(n, min, base);
    if ps != [] { OneThrough(t, ps[0], s); }
    var ss := Through(t, ps, s);
    assert ss[1..] == [];
    assert RepAll(t, n, back, base, min, max, greedy, []) == [];
  }

  lemma {:induction false} SimpleNoGroups(n: Node, back: bool, base: nat)
    requires WellFormed(n)
    ensures SimpleCount(Compile(n, back, base)) >= 0 ==> Groups(n) == 0
    decreases n
  {
    hide SimpleCount, ChoiceCode, LookCode, LoopCode, DoAll, CheckAdvance;
    match n
    case Sequence(a, b) =>
      var ca, cb := Compile(a, back, base), Compile(b, back, base + Groups(a));
      SimpleNoGroups(a, back, base);
      SimpleNoGroups(b, back, base + Groups(a));
      if SimpleCount(ca + cb) >= 0 { SimpleConcat(ca, cb); }
      if SimpleCount(cb + ca) >= 0 { SimpleConcat(cb, ca); }
    case Quantified(a, min, max, greedy) =>
      LoopNotSimple(Compile(a, back, base), ResetPrims(a, min, base), min, max, greedy);
      SimpleNoGroups(a, back, base);
    case Empty =>
    case One(_) =>
    case Assertion(_) =>
    case _ => NeverSimple(n, back, base);
  }

  /** Without the check, an unlimited loop has a body that must advance. */
  lemma {:induction false} UncheckedAdvances(n: Node, back: bool, base: nat, greedy: bool)
    requires WellFormed(n) && (MustAdvance(n) || (greedy && CheckAdvance(Compile(n, back, base)) >= 0))
    requires !UsesCheck(Compile(n, back, base), greedy)
    ensures MustAdvance(n)
  {
    AlwaysMeansMust(n, back, base);
  }

  lemma {:induction false} QuantifiedRule(e: Env, n: Node, back: bool, base: nat, pc: int, s: Place, stack: seq<int>,
                                          r: Outcome)
    requires n.Quantified? && Ready(e, n, back, base, pc) && Sane(e.t, s, e.frame)
    requires TryYields(e, End(n, back, base, pc), Results(e.t, n, back, base, s), stack, r)
    ensures Yields(e, Thread(pc, s, stack), r)
    decreases n.body, 4, 1
  {
    hide Yields, TryYields, Loaded, Rep, RepAll, SimpleCount, Through, Perform, CheckAdvance, LoopCode, SizeAll,
         EncodeAll;
    var a, min, max := n.body, n.min, n.max;
    var l := Iter(a, back, base, n.greedy);
    var ca, resets := Code(l), ResetPrims(a, min, base);
    OneReset(e.t, a, back, base, min, max, n.greedy, s, e.frame.marks);
    ResetMoves(e.t, a, min, base, back, s, e.frame);
    var s' := Through(e.t, resets, s)[0];
    if UsesSimpleLoop(ca, max, n.greedy) {
      SimpleNoGroups(a, back, base);
      NothingThrough(e.t, s);
      SimpleCase(e, l, resets, min, max, pc, s, stack, r);
    } else if min == 0 {
      OptionalCase(e, l, resets, max, pc, s, s', stack, r);
    } else {
      NothingThrough(e.t, s);
      MandatoryCase(e, l, resets, min, max, pc, s, stack, r);
    }
  }

  lemma {:induction false} NothingThrough(t: Text, s: Place)
    ensures Through(t, [], s) == [s]
  {
  }

  lemma {:induction false} SimpleCase(e: Env, l: Iter, resets: seq<Prim>, min: nat, max: nat, pc: int, s: Place,
                                      stack: seq<int>, r: Outcome)
    requires IsIter(e, l) && min <= max <= INT32_MAX && UsesSimpleLoop(Code(l), max, l.greedy) && Sane(e.t, s, e.frame)
             && !e.frame.loose
    requires Loaded(e, pc, LoopCode(Code(l), resets, min, max, l.greedy))
    requires TryYields(e, pc + SizeAll(LoopCode(Code(l), resets, min, max, l.greedy)),
                       Rep(e.t, l.n, l.back, l.base, min, max, l.greedy, s), stack, r)
    ensures Yields(e, Thread(pc, s, stack), r)
  {
    hide Yields, TryYields, Loaded, Rep, SimpleCount, CheckAdvance, SizeAll, EncodeAll, SimpleLoop, Sound;
    SimpleLoopRule(e, l.n, l.back, l.base, pc, min, max, s, stack, r);
  }

  /** A loop that may run zero times, behind the reset of its captures. */
  lemma {:induction false} OptionalCase(e: Env, l: Iter, resets: seq<Prim>, max: nat, pc: int, s: Place, s': Place,
                                        stack: seq<int>, r: Outcome)
    requires IsIter(e, l) && max <= INT32_MAX && !UsesSimpleLoop(Code(l), max, l.greedy)
    requires Sane(e.t, s, e.frame) && Sane(e.t, s', e.frame) && AllFit(resets, e.frame.marks)
             && Through(e.t, resets, s) == [s']
    requires max == INT32_MAX ==> MustAdvance(l.n) || (l.greedy && CheckAdvance(Code(l)) >= 0)
    requires Loaded(e, pc, LoopCode(Code(l), resets, 0, max, l.greedy))
    requires TryYields(e, pc + SizeAll(LoopCode(Code(l), resets, 0, max, l.greedy)),
                       Rep(e.t, l.n, l.back, l.base, 0, max, l.greedy, s'), stack, r)
    ensures Yields(e, Thread(pc, s, stack), r)
    decreases l.n, 4, 0
  {
    hide Yields, TryYields, Loaded, Rep, SimpleCount, CheckAdvance, SizeAll, EncodeAll, StarCode, UpToCode, Sound,
         Through, Compile, UsesCheck;
    var a, check := Code(l), UsesCheck(Code(l), l.greedy);
    var body := if max == 0 then [] else if max == 1 then [Split(l.greedy, SizeAll(a))] + a
                else if max == INT32_MAX then StarCode(a, l.greedy, check) else UpToCode(a, l.greedy, max);
    LoadedSplit(e, pc, DoAll(resets), body);
    var pc' := pc + SizeAll(DoAll(resets));
    if max == 1 {
      AtMostOnce(e, l, pc', s', stack, r);
    } else {
      if max == INT32_MAX && !check { UncheckedAdvances(l.n, l.back, l.base, l.greedy); }
      assert body == RestCode(a, l.greedy, check, 0, max);
      RestRule(e, l, check, 0, max, pc', s', stack, r);
    }
    TryOne(e, pc', s', stack, r);
    ThroughRule(e, resets, pc, s, stack, r);
  }

  /** `?`: the body or nothing. */
  lemma {:induction false} AtMostOnce(e: Env, l: Iter, pc: int, s: Place, stack: seq<int>, r: Outcome)
    requires IsIter(e, l) && Sane(e.t, s, e.frame) && Loaded(e, pc, [Split(l.greedy, SizeAll(Code(l)))] + Code(l))
    requires TryYields(e, pc + SizeAll([Split(l.greedy, SizeAll(Code(l)))] + Code(l)),
                       Rep(e.t, l.n, l.back, l.base, 0, 1, l.greedy, s), stack, r)
    ensures Yields(e, Thread(pc, s, stack), r)
    decreases l.n, 3
  {
    hide Yields, TryYields, Loaded, SizeAll, EncodeAll, Sound, Compile, Fetch, Results, Sane;
    var a := Code(l);
    var fork := Split(l.greedy, SizeAll(a));
    PcNonNegative(e, pc, [fork] + a);
    LoadedFirst(e, pc, fork, a);
    var atom, exit := pc + 5, pc + 5 + SizeAll(a);
    var ss := Results(e.t, l.n, l.back, l.base, s);
    OnceEach(e.t, l, s.pos, ss);
    if l.greedy {
      TryConcat(e, exit, ss, [s], stack, r);
      if r != Fail && TryYields(e, exit, ss, stack, r) {
        Correct(e, l.n, l.back, l.base, atom, s, stack, r);
      } else {
        Correct(e, l.n, l.back, l.base, atom, s, stack, Fail);
        TryOne(e, exit, s, stack, r);
      }
      ForkRule(e, pc, atom, exit, s, stack, r);
    } else {
      TryConcat(e, exit, [s], ss, stack, r);
      TryOne(e, exit, s, stack, r);
      TryOne(e, exit, s, stack, Fail);
      if !(r != Fail && TryYields(e, exit, [s], stack, r)) { Correct(e, l.n, l.back, l.base, atom, s, stack, r); }
      ForkRule(e, pc, exit, atom, s, stack, r);
    }
  }

  lemma {:induction false} OnceEach(t: Text, l: Iter, origin: nat, ss: seq<Place>)
    ensures Again(t, l.n, l.back, l.base, 1, l.greedy, origin, ss) == ss
    decreases ss
  {
    hide Results;
    if ss != [] {
      OnceEach(t, l, origin, ss[1..]);
      assert Rep(t, l.n, l.back, l.base, 0, 0, l.greedy, ss[0]) == [ss[0]];
    }
  }

  /** A loop that runs at least once. */
  lemma {:induction false} MandatoryCase(e: Env, l: Iter, resets: seq<Prim>, min: nat, max: nat, pc: int, s: Place,
                                         stack: seq<int>, r: Outcome)
    requires IsIter(e, l) && 1 <= min <= max <= INT32_MAX && !UsesSimpleLoop(Code(l), max, l.greedy)
             && Sane(e.t, s, e.frame)
    requires max == INT32_MAX ==> MustAdvance(l.n) || (l.greedy && CheckAdvance(Code(l)) >= 0)
    requires Loaded(e, pc, LoopCode(Code(l), resets, min, max, l.greedy))
    requires TryYields(e, pc + SizeAll(LoopCode(Code(l), resets, min, max, l.greedy)),
                       Rep(e.t, l.n, l.back, l.base, min, max, l.greedy, s), stack, r)
    ensures Yields(e, Thread(pc, s, stack), r)
    decreases l.n, 4, 0
  {
    hide Yields, TryYields, Loaded, Rep, SimpleCount, CheckAdvance, SizeAll, EncodeAll, Sound, Compile, UsesCheck,
         TimesCode, RestCode, RepAll;
    var a, check := Code(l), UsesCheck(Code(l), l.greedy);
    if max == INT32_MAX && !check { UncheckedAdvances(l.n, l.back, l.base, l.greedy); }
    if min == 1 && max == INT32_MAX && !check {
      PlusRule(e, l, pc, s, stack, r);
    } else {
      var times, rest := TimesCode(a, min), RestCode(a, l.greedy, check, min, max);
      LoadedSplit(e, pc, times, rest);
      MandatoryThenRest(e, l, check, min, max, pc, s, stack, r);
    }
  }

  /** `+` without the check: the fork behind the body leads back to it. */
  lemma {:induction false} PlusRule(e: Env, l: Iter, pc: int, s: Place, stack: seq<int>, r: Outcome)
    requires IsIter(e, l) && MustAdvance(l.n) && Sane(e.t, s, e.frame)
    requires Loaded(e, pc, Code(l) + [Split(!l.greedy, -(SizeAll(Code(l)) as int) - 5)])
    requires TryYields(e, pc + SizeAll(Code(l) + [Split(!l.greedy, -(SizeAll(Code(l)) as int) - 5)]),
                       Rep(e.t, l.n, l.back, l.base, 1, INT32_MAX, l.greedy, s), stack, r)
    ensures Yields(e, Thread(pc, s, stack), r)
    decreases l.n, 3, 0
  {
    hide Yields, TryYields, Loaded, SizeAll, EncodeAll, Sound, Compile, Fetch, Results, RepAll, Boundary;
    var a := Code(l);
    var fork := Split(!l.greedy, -(SizeAll(a) as int) - 5);
    LoadedSplit(e, pc, a, [fork]);
    PcNonNegative(e, pc, a);
    var head, exit := pc + SizeAll(a), pc + SizeAll(a) + 5;
    LoadedOne(e, head, fork);
    assert IsStar(e, l, false, head, pc, pc, exit);
    var ss := Results(e.t, l.n, l.back, l.base, s);
    ResultsMove(e.t, l.n, l.back, l.base, s, e.frame);
    PlusTail(e, l, head, pc, exit, ss, stack, r);
    Correct(e, l.n, l.back, l.base, pc, s, stack, r);
  }

  lemma {:induction false} PlusTail(e: Env, l: Iter, head: int, atom: int, exit: int, ss: seq<Place>, stack: seq<int>,
                                    r: Outcome)
    requires IsStar(e, l, false, head, atom, atom, exit) && forall i :: 0 <= i < |ss| ==> Sane(e.t, ss[i], e.frame)
    requires TryYields(e, exit, RepAll(e.t, l.n, l.back, l.base, 0, INT32_MAX, l.greedy, ss), stack, r)
    ensures TryYields(e, head, ss, stack, r)
    decreases l.n, 2, 1, |ss|
  {
    hide Yields, Rep, Sane, IsStar;
    if ss != [] {
      var first := Rep(e.t, l.n, l.back, l.base, 0, INT32_MAX, l.greedy, ss[0]);
      TryConcat(e, exit, first, RepAll(e.t, l.n, l.back, l.base, 0, INT32_MAX, l.greedy, ss[1..]), stack, r);
      if r != Fail && TryYields(e, exit, first, stack, r) {
        StarRule(e, l, false, head, atom, atom, exit, ss[0], stack, r);
      } else {
        StarRule(e, l, false, head, atom, atom, exit, ss[0], stack, Fail);
        PlusTail(e, l, head, atom, exit, ss[1..], stack, r);
      }
    }
  }

  lemma {:induction false} MandatoryThenRest(e: Env, l: Iter, check: bool, min: nat, max: nat, pc: int, s: Place,
                                             stack: seq<int>, r: Outcome)
    requires 1 <= min && WellFormed(l.n) && IsRest(e, l, check, min, max, pc + SizeAll(TimesCode(Code(l), min)))
             && Sane(e.t, s, e.frame)
    requires Loaded(e, pc, TimesCode(Code(l), min))
    requires TryYields(e, RestEnd(l, check, min, max, pc + SizeAll(TimesCode(Code(l), min))),
                       Rep(e.t, l.n, l.back, l.base, min, max, l.greedy, s), stack, r)
    ensures Yields(e, Thread(pc, s, stack), r)
    decreases l.n, 3, min, 2
  {
    hide Yields, TryYields, Loaded, SizeAll, EncodeAll, Sound, Compile, Fetch, Results, RepAll, Boundary, RestCode,
         IsCounted;
    var rest := pc + SizeAll(TimesCode(Code(l), min));
    if min == 1 {
      var ss := Results(e.t, l.n, l.back, l.base, s);
      ResultsMove(e.t, l.n, l.back, l.base, s, e.frame);
      RestAllRule(e, l, check, min, max, rest, ss, stack, r);
      Correct(e, l.n, l.back, l.base, pc, s, stack, r);
    } else {
      TimesLayout(e, l, min, pc);
      TimesRule(e, l, check, min, max, pc + 5, rest - 1, rest, s, stack, min, r);
      StepRule(e, pc, PushI32(min), pc + 5, s, stack, Thread(pc + 5, s, stack + [min]), r);
    }
  }

  // ---------- the theorem ----------

  lemma {:induction false} DoOne(p: Prim)
    ensures DoAll([p]) == [Do(p)]
  {
    assert [p][1..] == [] && DoAll([]) == [];
  }

  lemma {:induction false} PrimRule(e: Env, p: Prim, pc: int, s: Place, stack: seq<int>, r: Outcome)
    requires Loaded(e, pc, [Do(p)]) && |s.caps| == e.frame.marks && CapturesFit(p, e.frame.marks)
    requires TryYields(e, pc + SizeAll([Do(p)]), Through(e.t, [p], s), stack, r)
    ensures Yields(e, Thread(pc, s, stack), r)
  {
    hide Yields, TryYields, Loaded, Through, SizeAll, EncodeAll;
    DoOne(p);
    ThroughRule(e, [p], pc, s, stack, r);
  }

  lemma {:induction false} PrimAllRule(e: Env, p: Prim, pc: int, ss: seq<Place>, stack: seq<int>, r: Outcome)
    requires Loaded(e, pc, [Do(p)]) && CapturesFit(p, e.frame.marks) && forall i ::
               0 <= i < |ss| ==> |ss[i].caps| == e.frame.marks
    requires TryYields(e, pc + SizeAll([Do(p)]), ThroughAll(e.t, [p], ss), stack, r)
    ensures TryYields(e, pc, ss, stack, r)
    decreases ss
  {
    hide Yields, Loaded, Through, SizeAll, EncodeAll;
    if ss != [] {
      var exit, first := pc + SizeAll([Do(p)]), Through(e.t, [p], ss[0]);
      TryConcat(e, exit, first, ThroughAll(e.t, [p], ss[1..]), stack, r);
      if r != Fail && TryYields(e, exit, first, stack, r) {
        PrimRule(e, p, pc, ss[0], stack, r);
      } else {
        PrimRule(e, p, pc, ss[0], stack, Fail);
        PrimAllRule(e, p, pc, ss[1..], stack, r);
      }
    }
  }

  /** Going on at the end from the results of `n` is going on at its code. */
  lemma {:induction false} CorrectAll(e: Env, n: Node, back: bool, base: nat, pc: int, ss: seq<Place>, stack: seq<int>,
                                      r: Outcome)
    requires Ready(e, n, back, base, pc) && forall i :: 0 <= i < |ss| ==> Sane(e.t, ss[i], e.frame)
    requires TryYields(e, End(n, back, base, pc), ResultsAll(e.t, n, back, base, ss), stack, r)
    ensures TryYields(e, pc, ss, stack, r)
    decreases n, 2, |ss|
  {
    hide Yields, Loaded, Results, Sane, Sound, Compile;
    if ss != [] {
      var exit, first := End(n, back, base, pc), Results(e.t, n, back, base, ss[0]);
      TryConcat(e, exit, first, ResultsAll(e.t, n, back, base, ss[1..]), stack, r);
      if r != Fail && TryYields(e, exit, first, stack, r) {
        Correct(e, n, back, base, pc, ss[0], stack, r);
      } else {
        Correct(e, n, back, base, pc, ss[0], stack, Fail);
        CorrectAll(e, n, back, base, pc, ss[1..], stack, r);
      }
    }
  }

  lemma {:induction false} ThenRule(e: Env, n: Node, a: Node, b: Node, back: bool, base1: nat, base2: nat, pc: int,
                                    s: Place, stack: seq<int>, r: Outcome)
    requires n.Sequence? && (n == Sequence(a, b) || n == Sequence(b, a)) && WellFormed(n) && Sane(e.t, s, e.frame)
    requires Sound(a, back, base1, e.frame.loose) && Sound(b, back, base2, e.frame.loose)
             && 2 * (base1 + Groups(a)) <= e.frame.marks && 2 * (base2 + Groups(b)) <= e.frame.marks
    requires Loaded(e, pc, Compile(a, back, base1) + Compile(b, back, base2))
    requires TryYields(e, pc + SizeAll(Compile(a, back, base1) + Compile(b, back, base2)),
                       ResultsAll(e.t, b, back, base2, Results(e.t, a, back, base1, s)), stack, r)
    ensures Yields(e, Thread(pc, s, stack), r)
    decreases n, 0
  {
    hide Yields, TryYields, Loaded, Results, ResultsAll, Sound, Compile, SizeAll, EncodeAll, Boundary;
    LoadedSplit(e, pc, Compile(a, back, base1), Compile(b, back, base2));
    ResultsMove(e.t, a, back, base1, s, e.frame);
    CorrectAll(e, b, back, base2, End(a, back, base1, pc), Results(e.t, a, back, base1, s), stack, r);
    Correct(e, a, back, base1, pc, s, stack, r);
  }

  /** Going on behind a jump is going on at the jump. */
  lemma {:induction false} GotoAllRule(e: Env, pc: int, off: int, ss: seq<Place>, stack: seq<int>, r: Outcome)
    requires Holds(e.code, pc, Goto(off), pc + 5) && TryYields(e, pc + 5 + off, ss, stack, r)
    ensures TryYields(e, pc, ss, stack, r)
    decreases ss
  {
    hide Yields, Fetch;
    if ss != [] {
      var s := ss[0];
      if r != Fail && Yields(e, Thread(pc + 5 + off, s, stack), r) {
        StepRule(e, pc, Goto(off), pc + 5, s, stack, Thread(pc + 5 + off, s, stack), r);
      } else {
        StepRule(e, pc, Goto(off), pc + 5, s, stack, Thread(pc + 5 + off, s, stack), Fail);
        GotoAllRule(e, pc, off, ss[1..], stack, r);
      }
    }
  }

  lemma {:induction false} ChoiceLayout(e: Env, a: seq<Instr>, b: seq<Instr>, pc: int)
    requires Loaded(e, pc, ChoiceCode(a, b))
    ensures var mid := pc + 5 + SizeAll(a);
            && Forks(e.code, pc, pc + 5, mid + 5) && Loaded(e, pc + 5, a)
            && Holds(e.code, mid, Goto(SizeAll(b)), mid + 5) && Loaded(e, mid + 5, b)
            && pc + SizeAll(ChoiceCode(a, b)) == mid + 5 + SizeAll(b)
  {
    hide Loaded, SizeAll, EncodeAll, Size, Holds, Forks;
    var fork, jump := SplitNextFirst(SizeAll(a) + 5), Goto(SizeAll(b));
    FiveBytes(fork);
    FiveBytes(jump);
    LoadedSplit(e, pc, [fork] + a + [jump], b);
    Framed(e, pc, [fork], a, [jump]);
    LoadedLone(e, pc, fork);
    LoadedLone(e, pc + 5 + SizeAll(a), jump);
    ForksFrom(e.code, pc, true, SizeAll(a) + 5);
  }

  lemma {:induction false} ChoiceRule(e: Env, n: Node, back: bool, base: nat, pc: int, s: Place, stack: seq<int>,
                                      r: Outcome)
    requires n.Choice? && Ready(e, n, back, base, pc) && Sane(e.t, s, e.frame)
    requires TryYields(e, End(n, back, base, pc), Results(e.t, n, back, base, s), stack, r)
    ensures Yields(e, Thread(pc, s, stack), r)
    decreases n, 0
  {
    hide Yields, TryYields, Loaded, SizeAll, EncodeAll, Sane, Holds, Forks, ChoiceCode, Sound, Compile, Results;
    var a, b, base2 := n.left, n.right, base + Groups(n.left);
    ReadyChoice(e, n, back, base, pc);
    var mid, exit := End(a, back, base, pc + 5), End(n, back, base, pc);
    var off := exit - mid - 5;
    var x, y := Results(e.t, a, back, base, s), Results(e.t, b, back, base2, s);
    ChoiceResults(e.t, n, back, base, s);
    TryConcat(e, exit, x, y, stack, r);
    if r != Fail && TryYields(e, exit, x, stack, r) {
      GotoAllRule(e, mid, off, x, stack, r);
      Correct(e, a, back, base, pc + 5, s, stack, r);
    } else {
      GotoAllRule(e, mid, off, x, stack, Fail);
      Correct(e, a, back, base, pc + 5, s, stack, Fail);
      Correct(e, b, back, base2, mid + 5, s, stack, r);
    }
    ForkRule(e, pc, pc + 5, mid + 5, s, stack, r);
  }

  lemma {:induction false} ChoiceResults(t: Text, n: Node, back: bool, base: nat, s: Place)
    requires n.Choice?
    ensures Results(t, n, back, base, s) == Results(t, n.left, back, base, s) + Results(t, n.right, back,
              base + Groups(n.left), s)
  {
    hide Through, ThroughAll, ResultsAll, RepAll, LookResults;
  }

  lemma {:induction false} ReadyChoice(e: Env, n: Node, back: bool, base: nat, pc: int)
    requires n.Choice? && Ready(e, n, back, base, pc)
    ensures Ready(e, n.left, back, base, pc + 5)
    ensures var mid, exit := End(n.left, back, base, pc + 5), End(n, back, base, pc);
            && Ready(e, n.right, back, base + Groups(n.left), mid + 5)
            && End(n.right, back, base + Groups(n.left), mid + 5) == exit
            && Forks(e.code, pc, pc + 5, mid + 5) && Holds(e.code, mid, Goto(exit - mid - 5), mid + 5)
  {
    hide Loaded, SizeAll, EncodeAll, Forks, Holds, ChoiceCode;
    ChoiceLayout(e, Compile(n.left, back, base), Compile(n.right, back, base + Groups(n.left)), pc);
  }

  lemma {:induction false} GroupRule(e: Env, n: Node, back: bool, base: nat, pc: int, s: Place, stack: seq<int>,
                                     r: Outcome)
    requires n.Group? && Ready(e, n, back, base, pc) && Sane(e.t, s, e.frame)
    requires TryYields(e, End(n, back, base, pc), Results(e.t, n, back, base, s), stack, r)
    ensures Yields(e, Thread(pc, s, stack), r)
    decreases n, 0
  {
    hide Yields, TryYields, Loaded, SizeAll, EncodeAll, Through, ThroughAll, ResultsAll, Results, Compile, Boundary,
         Sound;
    var a, open, close := n.body, OpenPrim(base, back), ClosePrim(base, back);
    ReadyGroup(e, n, back, base, pc);
    GroupListed(e.t, n, back, base, s);
    var pc1 := pc + SizeAll([Do(open)]);
    var ss := Through(e.t, [open], s);
    SaveMoves(e.t, open, back, s, e.frame);
    var inner := ResultsAll(e.t, a, back, base + 1, ss);
    ResultsAllMove(e.t, a, back, base + 1, s.pos, ss, e.frame, false);
    PrimAllRule(e, close, End(a, back, base + 1, pc1), inner, stack, r);
    CorrectAll(e, a, back, base + 1, pc1, ss, stack, r);
    PrimRule(e, open, pc, s, stack, r);
  }

  lemma {:induction false} GroupListed(t: Text, n: Node, back: bool, base: nat, s: Place)
    requires n.Group?
    ensures Results(t, n, back, base, s)
            == ThroughAll(t, [ClosePrim(base, back)],
                          ResultsAll(t, n.body, back, base + 1, Through(t, [OpenPrim(base, back)], s)))
  {
    hide Through, ThroughAll, ResultsAll, RepAll, LookResults;
  }

  lemma {:induction false} ReadyGroup(e: Env, n: Node, back: bool, base: nat, pc: int)
    requires n.Group? && Ready(e, n, back, base, pc)
    ensures var open, close := Do(OpenPrim(base, back)), Do(ClosePrim(base, back));
            var pc1 := pc + SizeAll([open]);
            && Loaded(e, pc, [open]) && Ready(e, n.body, back, base + 1, pc1)
            && Loaded(e, End(n.body, back, base + 1, pc1), [close])
            && End(n, back, base, pc) == End(n.body, back, base + 1, pc1) + SizeAll([close])
            && 2 * base + 1 < e.frame.marks
  {
    hide Loaded, SizeAll, EncodeAll;
    Framed(e, pc, [Do(OpenPrim(base, back))], Compile(n.body, back, base + 1), [Do(ClosePrim(base, back))]);
  }

  lemma {:induction false} LookaroundRule(e: Env, n: Node, back: bool, base: nat, pc: int, s: Place, stack: seq<int>,
                                          r: Outcome)
    requires n.Look? && Ready(e, n, back, base, pc) && Sane(e.t, s, e.frame)
    requires TryYields(e, End(n, back, base, pc), Results(e.t, n, back, base, s), stack, r)
    ensures Yields(e, Thread(pc, s, stack), r)
    decreases n, 0
  {
    hide Yields, TryYields, Fetch, Sane, Loaded, Sound, Compile, Results;
    var a, behind, negative := n.body, n.behind, n.negative;
    ReadyLook(e, n, back, base, pc);
    var stop := End(a, behind, base, pc + 5);
    var inner := Results(e.t, a, behind, base, s);
    var found := if inner == [] then Fail else Found(inner[0]);
    FirstMatch(e, stop, inner, stack);
    Correct(e, a, behind, base, pc + 5, s, stack, found);
    LookListed(e.t, n, back, base, s);
    if found.Found? == negative {
      TryNone(e, stop + 1, stack, r);
    } else {
      TryOne(e, stop + 1, if negative then s else Place(s.pos, inner[0].caps), stack, r);
    }
    LookRule(e, pc, negative, stop - pc - 4, pc + 5, s, stack, found, r);
  }

  lemma {:induction false} LookListed(t: Text, n: Node, back: bool, base: nat, s: Place)
    requires n.Look?
    ensures Results(t, n, back, base, s) == LookResults(Results(t, n.body, n.behind, base, s), n.negative, s)
  {
    hide Through, ThroughAll, ResultsAll, RepAll;
  }

  lemma {:induction false} ReadyLook(e: Env, n: Node, back: bool, base: nat, pc: int)
    requires n.Look? && Ready(e, n, back, base, pc)
    ensures Ready(e, n.body, n.behind, base, pc + 5)
    ensures var stop := End(n.body, n.behind, base, pc + 5);
            && Holds(e.code, stop, Match, stop + 1) && End(n, back, base, pc) == stop + 1
            && Holds(e.code, pc, if n.negative then NegativeLookahead(stop - pc - 4) else Lookahead(stop - pc - 4),
                     pc + 5)
  {
    hide Loaded, SizeAll, EncodeAll, LookCode, Holds;
    LookFrame(e, Compile(n.body, n.behind, base), n.negative, pc);
  }

  lemma {:induction false} LookFrame(e: Env, a: seq<Instr>, negative: bool, pc: int)
    requires Loaded(e, pc, LookCode(a, negative))
    ensures var len := SizeAll(a);
            && Holds(e.code, pc, if negative then NegativeLookahead(len + 1) else Lookahead(len + 1), pc + 5)
            && Loaded(e, pc + 5, a)
            && Holds(e.code, pc + 5 + len, Match, pc + 6 + len) && SizeAll(LookCode(a, negative)) == len + 6
  {
    hide Loaded, SizeAll, EncodeAll, Size, Holds;
    var i := if negative then NegativeLookahead(SizeAll(a) + 1) else Lookahead(SizeAll(a) + 1);
    FiveBytes(i);
    OneByte(Match);
    Framed(e, pc, [i], a, [Match]);
    LoadedLone(e, pc, i);
    LoadedLone(e, pc + 5 + SizeAll(a), Match);
  }

  /** At a `match`, the first place wins. */
  lemma {:induction false} FirstMatch(e: Env, pc: int, ss: seq<Place>, stack: seq<int>)
    requires Holds(e.code, pc, Match, pc + 1)
    ensures TryYields(e, pc, ss, stack, if ss == [] then Fail else Found(ss[0]))
  {
    hide Yields, Fetch;
    if ss != [] { MatchRule(e, pc, pc + 1, ss[0], stack); }
  }

  /** The code of a pattern, run from `s`, goes on at its end from the pattern's results, in order: whatever that
      yields, the code yields. */
  lemma {:induction false} Correct(e: Env, n: Node, back: bool, base: nat, pc: int, s: Place, stack: seq<int>,
                                   r: Outcome)
    requires Ready(e, n, back, base, pc) && Sane(e.t, s, e.frame)
    requires TryYields(e, End(n, back, base, pc), Results(e.t, n, back, base, s), stack, r)
    ensures Yields(e, Thread(pc, s, stack), r)
    decreases n, 1
  {
    hide Yields, TryYields, Loaded, SizeAll, EncodeAll, Through, ResultsAll, ThroughAll, RepAll, LoopCode, LookCode,
         ChoiceCode, Boundary;
    match n
    case Empty => EmptySize(); TryOne(e, pc, s, stack, r);
    case One(p) => ThroughRule(e, OnePrims(p, back), pc, s, stack, r);
    case Assertion(p) => PrimRule(e, p, pc, s, stack, r);
    case Reference(k) => PrimRule(e, ReferencePrim(k, back), pc, s, stack, r);
    case Sequence(a, b) =>
      if back { ThenRule(e, n, b, a, back, base + Groups(a), base, pc, s, stack, r); }
      else { ThenRule(e, n, a, b, back, base, base + Groups(a), pc, s, stack, r); }
    case Choice(_, _) => ChoiceRule(e, n, back, base, pc, s, stack, r);
    case Group(_) => GroupRule(e, n, back, base, pc, s, stack, r);
    case Look(_, _, _) => LookaroundRule(e, n, back, base, pc, s, stack, r);
    case Quantified(_, _, _, _) => QuantifiedRule(e, n, back, base, pc, s, stack, r);
  }
}
