/** Proof rules for searches: what a search yields, instruction by instruction, without counting fuel. */
module RegexpRules {
  import opened RegexpCode
  import opened RegexpText
  import opened RegexpSearch
  import opened RegexpSyntax
  import opened RegexpCompile

  /** A text, a piece of code, the frame of its runs, and a bound for searches that do not end. */
  datatype Env = Env(t: Text, code: seq<Byte>, frame: Frame, bound: nat)

  /** The search from `th` ends with `r`, or, for `Undefined`, has not ended within the bound. */
  ghost predicate Yields(e: Env, th: Thread, r: Outcome) {
    if r == Undefined then Search(e.t, e.code, th, e.bound) == Undefined
    else exists fuel: nat :: Search(e.t, e.code, th, fuel) == r
  }

  lemma {:induction false} FuelOf(e: Env, th: Thread, r: Outcome) returns (fuel: nat)
    requires Yields(e, th, r) && r != Undefined
    ensures Search(e.t, e.code, th, fuel) == r
  {
    fuel :| Search(e.t, e.code, th, fuel) == r;
  }

  /** Up to the bound a search has either not ended, or ended with what it yields. */
  lemma {:induction false} Within(e: Env, th: Thread, r: Outcome, fuel: nat)
    requires Yields(e, th, r) && fuel <= e.bound
    ensures Search(e.t, e.code, th, fuel) == Undefined || (r != Undefined && Search(e.t, e.code, th, fuel) == r)
  {
    hide Search;
    if Search(e.t, e.code, th, fuel) != Undefined {
      SearchMore(e.t, e.code, th, fuel, e.bound);
      if r != Undefined {
        var f := FuelOf(e, th, r);
        SearchMore(e.t, e.code, th, fuel, fuel + f);
        SearchMore(e.t, e.code, th, f, fuel + f);
      }
    }
  }

  /** A search unfolded by one instruction. */
  lemma {:induction false} Unfolded(e: Env, th: Thread, i: Instr, next: nat, fuel: nat)
    requires th.pc >= 0 && Fetch(e.code, th.pc) == Got(i, next)
    ensures Search(e.t, e.code, th, fuel)
            == if fuel == 0 then Undefined else SearchFrom(e.t, e.code, i, th.(pc := next), fuel - 1)
  {
    hide Fetch, SearchFrom;
  }

  /** Going on at `pc` from each of the places in turn, until one does not fail, ends with `r`. */
  ghost predicate TryYields(e: Env, pc: int, ss: seq<Place>, stack: seq<int>, r: Outcome) {
    if ss == [] then r == Fail
    else (r != Fail && Yields(e, Thread(pc, ss[0], stack), r))
         || (Yields(e, Thread(pc, ss[0], stack), Fail) && TryYields(e, pc, ss[1..], stack, r))
  }

  lemma {:induction false} TryConcat(e: Env, pc: int, a: seq<Place>, b: seq<Place>, stack: seq<int>, r: Outcome)
    requires TryYields(e, pc, a + b, stack, r)
    ensures (r != Fail && TryYields(e, pc, a, stack, r))
            || (TryYields(e, pc, a, stack, Fail) && TryYields(e, pc, b, stack, r))
  {
    hide Yields;
    if a == [] {
      assert a + b == b;
    } else {
      assert (a + b)[0] == a[0] && (a + b)[1..] == a[1..] + b;
      if !(r != Fail && Yields(e, Thread(pc, a[0], stack), r)) { TryConcat(e, pc, a[1..], b, stack, r); }
    }
  }

  lemma {:induction false} TryOne(e: Env, pc: int, s: Place, stack: seq<int>, r: Outcome)
    ensures TryYields(e, pc, [s], stack, r) <==> Yields(e, Thread(pc, s, stack), r)
  {
    hide Yields;
    assert [s][1..] == [];
    if Yields(e, Thread(pc, s, stack), r) { assert r == Fail || TryYields(e, pc, [s], stack, r); }
  }

  // ---------- one instruction ----------

  /** `i` leads from `th`, standing behind it, to the single thread `th'`. */
  predicate LeadsOn(t: Text, i: Instr, th: Thread, th': Thread) {
    match i
    case Do(p) => CapturesFit(p, |th.s.caps|) && Perform(t, p, th.s).Go? && th' == th.(s := Perform(t, p, th.s).s)
    case Goto(off) => th' == th.(pc := th.pc + off)
    case PushI32(v) => th' == th.(stack := th.stack + [v])
    case PushCharPos => th' == th.(stack := th.stack + [th.s.pos])
    case Drop => th.stack != [] && th' == th.(stack := Popped(th.stack))
    case Loop(off) =>
      && th.stack != []
      && var v := (Top(th.stack) - 1) % WORD;
         th' == Thread(if v != 0 then th.pc + off else th.pc, th.s, Popped(th.stack) + [v])
    case BneCharPos(off) =>
      th.stack != [] && th' == Thread(if Top(th.stack) != th.s.pos then th.pc + off else th.pc, th.s, Popped(th.stack))
    case _ => false
  }

  lemma {:induction false} StepRule(e: Env, pc: int, i: Instr, next: nat, s: Place, stack: seq<int>, th': Thread,
                                    r: Outcome)
    requires pc >= 0 && Fetch(e.code, pc) == Got(i, next)
    requires LeadsOn(e.t, i, Thread(next, s, stack), th') && Yields(e, th', r)
    ensures Yields(e, Thread(pc, s, stack), r)
  {
    hide Perform, Fetch;
    if r == Undefined {
      Unfolded(e, Thread(pc, s, stack), i, next, e.bound);
      if e.bound > 0 { Within(e, th', r, e.bound - 1); }
      return;
    }
    var fuel := FuelOf(e, th', r);
    assert SearchFrom(e.t, e.code, i, Thread(next, s, stack), fuel) == Search(e.t, e.code, th', fuel);
    assert Search(e.t, e.code, Thread(pc, s, stack), fuel + 1) == r;
  }

  lemma {:induction false} StopRule(e: Env, pc: int, p: Prim, next: nat, s: Place, stack: seq<int>)
    requires pc >= 0 && Fetch(e.code, pc) == Got(Do(p), next)
    requires CapturesFit(p, |s.caps|) && Perform(e.t, p, s).Stop?
    ensures Yields(e, Thread(pc, s, stack), Fail)
  {
    hide Perform, Fetch;
    assert Search(e.t, e.code, Thread(pc, s, stack), 1) == Fail;
  }

  lemma {:induction false} MatchRule(e: Env, pc: int, next: nat, s: Place, stack: seq<int>)
    requires pc >= 0 && Fetch(e.code, pc) == Got(Match, next)
    ensures Yields(e, Thread(pc, s, stack), Found(s))
  {
    hide Fetch;
    assert Search(e.t, e.code, Thread(pc, s, stack), 1) == Found(s);
  }

  /** The two branches of a split: `nextFirst` goes on behind the instruction first. */
  lemma {:induction false} SplitRule(e: Env, pc: int, nextFirst: bool, off: int, next: nat, s: Place, stack: seq<int>,
                                     r: Outcome)
    requires pc >= 0 && Fetch(e.code, pc) == Got(Split(nextFirst, off), next)
    requires var a, b := Thread(next, s, stack), Thread(next + off, s, stack);
             var x, y := if nextFirst then a else b, if nextFirst then b else a;
             (r != Fail && Yields(e, x, r)) || (Yields(e, x, Fail) && Yields(e, y, r))
    ensures Yields(e, Thread(pc, s, stack), r)
  {
    hide Perform, Fetch;
    var a, b := Thread(next, s, stack), Thread(next + off, s, stack);
    var x, y := if nextFirst then a else b, if nextFirst then b else a;
    if r == Undefined {
      SplitUndefined(e, pc, nextFirst, off, next, s, stack);
      return;
    }
    var f: nat, g: nat := 0, 0;
    if r != Fail && Yields(e, x, r) {
      f := FuelOf(e, x, r);
    } else {
      f := FuelOf(e, x, Fail);
      g := FuelOf(e, y, r);
      SearchMore(e.t, e.code, y, g, f + g);
    }
    SearchMore(e.t, e.code, x, f, f + g);
    assert SearchFrom(e.t, e.code, Split(nextFirst, off), a, f + g) == r;
    assert Search(e.t, e.code, Thread(pc, s, stack), f + g + 1) == r;
  }

  lemma {:induction false} SplitUndefined(e: Env, pc: int, nextFirst: bool, off: int, next: nat, s: Place,
                                          stack: seq<int>)
    requires pc >= 0 && Fetch(e.code, pc) == Got(Split(nextFirst, off), next)
    requires var a, b := Thread(next, s, stack), Thread(next + off, s, stack);
             var x, y := if nextFirst then a else b, if nextFirst then b else a;
             Yields(e, x, Undefined) || (Yields(e, x, Fail) && Yields(e, y, Undefined))
    ensures Yields(e, Thread(pc, s, stack), Undefined)
  {
    hide Search, Fetch;
    var a, b := Thread(next, s, stack), Thread(next + off, s, stack);
    var x, y := if nextFirst then a else b, if nextFirst then b else a;
    Unfolded(e, Thread(pc, s, stack), Split(nextFirst, off), next, e.bound);
    if e.bound > 0 {
      if Yields(e, x, Undefined) {
        Within(e, x, Undefined, e.bound - 1);
      } else {
        Within(e, x, Fail, e.bound - 1);
        Within(e, y, Undefined, e.bound - 1);
      }
    }
  }

  /** A lookahead: the sub-search yields `inner`, and the search goes on behind it if that is what was asked for. */
  lemma {:induction false} LookRule(e: Env, pc: int, negative: bool, off: int, next: nat, s: Place, stack: seq<int>,
                                    inner: Outcome, r: Outcome)
    requires pc >= 0 && Fetch(e.code, pc) == Got(if negative then NegativeLookahead(off) else Lookahead(off), next)
    requires Yields(e, Thread(next, s, stack), inner) && inner != Undefined
    requires if inner.Found? == negative then r == Fail
             else Yields(e, Thread(next + off, if negative then s else Place(s.pos, inner.s.caps), stack), r)
    ensures Yields(e, Thread(pc, s, stack), r)
  {
    hide Perform, Fetch;
    var i := if negative then NegativeLookahead(off) else Lookahead(off);
    var a := Thread(next, s, stack);
    if r == Undefined {
      var b := Thread(next + off, if negative then s else Place(s.pos, inner.s.caps), stack);
      Unfolded(e, Thread(pc, s, stack), i, next, e.bound);
      if e.bound > 0 {
        Within(e, a, inner, e.bound - 1);
        Within(e, b, r, e.bound - 1);
      }
      return;
    }
    var f: nat, g: nat := 0, 0;
    f := FuelOf(e, a, inner);
    if inner.Found? != negative {
      var b := Thread(next + off, if negative then s else Place(s.pos, inner.s.caps), stack);
      g := FuelOf(e, b, r);
      SearchMore(e.t, e.code, b, g, f + g);
    }
    SearchMore(e.t, e.code, a, f, f + g);
    assert SearchFrom(e.t, e.code, i, a, f + g) == r;
    assert Search(e.t, e.code, Thread(pc, s, stack), f + g + 1) == r;
  }

  // ---------- straight-line code ----------

  predicate AllValid(prog: seq<Instr>) { forall i :: 0 <= i < |prog| ==> ValidInstr(prog[i]) }

  /** `prog` stands at `pc` and can be fetched. */
  predicate Loaded(e: Env, pc: int, prog: seq<Instr>) { pc >= 0 && Has(e.code, pc, prog) && AllValid(prog) }

  lemma {:induction false} LoadedSplit(e: Env, pc: int, a: seq<Instr>, b: seq<Instr>)
    requires Loaded(e, pc, a + b)
    ensures Loaded(e, pc, a) && Loaded(e, pc + SizeAll(a), b) && SizeAll(a + b) == SizeAll(a) + SizeAll(b)
  {
    hide Has, ValidInstr, SizeAll, EncodeAll;
    HasSplit(e.code, pc, a, b);
    assert forall i :: 0 <= i < |a| ==> (a + b)[i] == a[i];
    forall i | 0 <= i < |b| ensures ValidInstr(b[i]) { assert (a + b)[|a| + i] == b[i]; }
  }

  lemma {:induction false} LoadedFirst(e: Env, pc: int, i: Instr, rest: seq<Instr>)
    requires Loaded(e, pc, [i] + rest)
    ensures Fetch(e.code, pc) == Got(i, pc + Size(i)) && Loaded(e, pc + Size(i), rest)
    ensures SizeAll([i] + rest) == Size(i) + SizeAll(rest)
  {
    hide Has, ValidInstr, SizeAll, EncodeAll, Size, Fetch;
    LoadedSplit(e, pc, [i], rest);
    assert ([i] + rest)[0] == i;
    HasFirst(e.code, pc, i, rest);
    EncodeOne(i);
  }

  lemma {:induction false} LoadedOne(e: Env, pc: int, i: Instr)
    requires Loaded(e, pc, [i])
    ensures Fetch(e.code, pc) == Got(i, pc + Size(i)) && SizeAll([i]) == Size(i)
  {
    hide Has, ValidInstr, SizeAll, EncodeAll, Size, Fetch;
    assert [i] + [] == [i];
    LoadedFirst(e, pc, i, []);
    EncodeOne(i);
  }

  /** The next instruction, when the current one is known by its bytes. */
  predicate Holds(code: seq<Byte>, pc: int, i: Instr, next: int) {
    pc >= 0 && next >= 0 && Fetch(code, pc) == Got(i, next)
  }

  lemma {:induction false} LoadedTwo(e: Env, pc: int, i: Instr, j: Instr)
    requires Loaded(e, pc, [i, j])
    ensures Holds(e.code, pc, i, pc + Size(i)) && Holds(e.code, pc + Size(i), j, pc + Size(i) + Size(j))
            && SizeAll([i, j]) == Size(i) + Size(j)
  {
    hide Loaded, SizeAll, EncodeAll, Size, Fetch;
    assert [i, j] == [i] + [j];
    PcNonNegative(e, pc, [i, j]);
    LoadedFirst(e, pc, i, [j]);
    LoadedOne(e, pc + Size(i), j);
  }

  lemma {:induction false} LoadedLone(e: Env, pc: int, i: Instr)
    requires Loaded(e, pc, [i])
    ensures Holds(e.code, pc, i, pc + Size(i)) && SizeAll([i]) == Size(i)
  {
    hide Loaded, SizeAll, EncodeAll, Size, Fetch;
    PcNonNegative(e, pc, [i]);
    LoadedOne(e, pc, i);
  }

  /** Code between a prefix and a suffix. */
  lemma {:induction false} Framed(e: Env, pc: int, pre: seq<Instr>, a: seq<Instr>, post: seq<Instr>)
    requires Loaded(e, pc, pre + a + post)
    ensures Loaded(e, pc, pre) && Loaded(e, pc + SizeAll(pre), a) && Loaded(e, pc + SizeAll(pre) + SizeAll(a), post)
    ensures SizeAll(pre + a + post) == SizeAll(pre) + SizeAll(a) + SizeAll(post)
  {
    hide Loaded, SizeAll, EncodeAll;
    LoadedSplit(e, pc, pre + a, post);
    LoadedSplit(e, pc, pre, a);
  }

  /** The captures named in `ps` exist. */
  predicate AllFit(ps: seq<Prim>, marks: nat) { forall i :: 0 <= i < |ps| ==> CapturesFit(ps[i], marks) }

  lemma {:induction false} ThroughRule(e: Env, ps: seq<Prim>, pc: int, s: Place, stack: seq<int>, r: Outcome)
    requires Loaded(e, pc, DoAll(ps)) && |s.caps| == e.frame.marks && AllFit(ps, e.frame.marks)
    requires TryYields(e, pc + SizeAll(DoAll(ps)), Through(e.t, ps, s), stack, r)
    ensures Yields(e, Thread(pc, s, stack), r)
    decreases ps, 0
  {
    hide Perform, Fetch, Yields, TryYields, Loaded, SizeAll, EncodeAll, Size, CapturesFit, Through, DoAll;
    if ps == [] {
      NoneThrough(e.t, s);
      TryOne(e, pc, s, stack, r);
    } else {
      var p, rest := ps[0], ps[1..];
      assert CapturesFit(ps[0], e.frame.marks) && AllFit(rest, e.frame.marks);
      assert ps == [p] + rest;
      PcNonNegative(e, pc, DoAll(ps));
      DoAllStep(ps);
      LoadedFirst(e, pc, Do(p), DoAll(rest));
      ThroughSplit(e.t, p, rest, s);
      ThroughFirst(e, p, rest, pc, pc + Size(Do(p)), s, stack, r);
    }
  }

  lemma {:induction false} ThroughFirst(e: Env, p: Prim, rest: seq<Prim>, pc: int, next: int, s: Place, stack: seq<int>,
                                        r: Outcome)
    requires Holds(e.code, pc, Do(p), next) && Loaded(e, next, DoAll(rest)) && |s.caps| == e.frame.marks
             && CapturesFit(p, e.frame.marks) && AllFit(rest, e.frame.marks)
    requires var m := Perform(e.t, p, s);
             TryYields(e, next + SizeAll(DoAll(rest)), if m.Go? then Through(e.t, rest, m.s) else [], stack, r)
    ensures Yields(e, Thread(pc, s, stack), r)
    decreases rest, 1
  {
    hide Perform, Fetch, Yields, TryYields, Loaded, SizeAll, EncodeAll, CapturesFit, Through, DoAll, AllFit;
    var m := Perform(e.t, p, s);
    if m.Go? {
      ThroughRule(e, rest, next, m.s, stack, r);
      StepRule(e, pc, Do(p), next, s, stack, Thread(next, m.s, stack), r);
    } else {
      TryNone(e, next + SizeAll(DoAll(rest)), stack, r);
      StopRule(e, pc, p, next, s, stack);
    }
  }

  lemma {:induction false} DoAllStep(ps: seq<Prim>)
    requires ps != []
    ensures DoAll(ps) == [Do(ps[0])] + DoAll(ps[1..])
  {
  }

  lemma {:induction false} NoneThrough(t: Text, s: Place)
    ensures Through(t, [], s) == [s] && SizeAll(DoAll([])) == 0
  {
  }

  lemma {:induction false} EmptySize()
    ensures SizeAll([]) == 0
  {
  }

  lemma {:induction false} TryNone(e: Env, pc: int, stack: seq<int>, r: Outcome)
    requires TryYields(e, pc, [], stack, r)
    ensures r == Fail
  {
  }

  lemma {:induction false} PcNonNegative(e: Env, pc: int, prog: seq<Instr>)
    requires Loaded(e, pc, prog)
    ensures pc >= 0
  {
  }
}
