/** The machine's meaning as a recursive search: depth first, with lookaheads as atomic sub-searches.
    A run that does not end within its fuel, or that aborts, is undefined. */
module RegexpSearch {
  import opened RegexpCode
  import opened RegexpText

  /** A point of execution: position in the code, place in the text, and the stack of counters and positions. */
  datatype Thread = Thread(pc: int, s: Place, stack: seq<int>)

  datatype Outcome = Undefined | Fail | Found(s: Place)

  const WORD: nat := 0x1_0000_0000_0000_0000

  // ---------- the bodies of simple loops ----------

  datatype Straight = Broken | Miss | Hit(pos: nat)

  /** Instructions allowed in the body of a simple loop. */
  predicate IsSimple(p: Prim) {
    Consumes(p) || p.LineStart? || p.LineEnd? || p.WordBoundary? || p.NotWordBoundary?
  }

  /** Runs straight-line code up to its `match`. */
  function RunStraight(t: Text, code: seq<Byte>, pc: int, s: Place): (r: Straight)
    decreases if pc < |code| then |code| - pc else 0
  {
    if pc < 0 then Broken
    else match Fetch(code, pc)
      case Got(Match, _) => Hit(s.pos)
      case Got(Do(p), next) =>
        if !IsSimple(p) || next <= pc then Broken
        else (match Perform(t, p, s)
              case Stop => Miss
              case Go(s') => RunStraight(t, code, next, s'))
      case _ => Broken
  }

  datatype Counted = Unending | Counted(q: nat, pos: nat)

  /** Repeats the body until it fails or has matched `max` times. */
  function CountMatches(t: Text, code: seq<Byte>, pc: int, s: Place, q: nat, max: nat, fuel: nat): (r: Counted)
    decreases fuel
  {
    if fuel == 0 then Unending
    else match RunStraight(t, code, pc, s)
      case Broken => Unending
      case Miss => Counted(q, s.pos)
      case Hit(pos) =>
        if q + 1 >= max && max != INT32_MAX then Counted(q + 1, pos)
        else CountMatches(t, code, pc, s.(pos := pos), q + 1, max, fuel - 1)
  }

  /** `n` characters back. */
  function StepBack(t: Text, pos: nat, n: nat): (r: nat)
    decreases n
  {
    if n == 0 || pos == 0 then pos else StepBack(t, PrevPos(t, pos), n - 1)
  }

  // ---------- the search ----------

  function Search(t: Text, code: seq<Byte>, th: Thread, fuel: nat): (r: Outcome)
    decreases fuel, 0
  {
    if fuel == 0 || th.pc < 0 then Undefined
    else match Fetch(code, th.pc)
      case Bad => Undefined
      case Got(i, next) => SearchFrom(t, code, i, th.(pc := next), fuel - 1)
  }

  /** After fetching `i`; the thread stands behind it. */
  function SearchFrom(t: Text, code: seq<Byte>, i: Instr, th: Thread, fuel: nat): (r: Outcome)
    decreases fuel, 2
  {
    match i
    case Do(p) =>
      if !CapturesFit(p, |th.s.caps|) then Undefined
      else (match Perform(t, p, th.s)
            case Stop => Fail
            case Go(s) => Search(t, code, th.(s := s), fuel))
    case Match => Found(th.s)
    case Goto(off) => Search(t, code, th.(pc := th.pc + off), fuel)
    case SplitGotoFirst(off) => OrElse(Search(t, code, th.(pc := th.pc + off), fuel), Search(t, code, th, fuel))
    case SplitNextFirst(off) => OrElse(Search(t, code, th, fuel), Search(t, code, th.(pc := th.pc + off), fuel))
    case Lookahead(off) =>
      (match Search(t, code, th, fuel)
       case Undefined => Undefined
       case Fail => Fail
       case Found(s) => Search(t, code, Thread(th.pc + off, Place(th.s.pos, s.caps), th.stack), fuel))
    case NegativeLookahead(off) =>
      (match Search(t, code, th, fuel)
       case Undefined => Undefined
       case Found(_) => Fail
       case Fail => Search(t, code, th.(pc := th.pc + off), fuel))
    case PushI32(v) => Search(t, code, th.(stack := th.stack + [v]), fuel)
    case PushCharPos => Search(t, code, th.(stack := th.stack + [th.s.pos]), fuel)
    case Drop => if th.stack == [] then Undefined else Search(t, code, th.(stack := Popped(th.stack)), fuel)
    case Loop(off) =>
      if th.stack == [] then Undefined
      else
        var v := (Top(th.stack) - 1) % WORD;
        Search(t, code, Thread(if v != 0 then th.pc + off else th.pc, th.s, Popped(th.stack) + [v]), fuel)
    case BneCharPos(off) =>
      if th.stack == [] then Undefined
      else Search(t, code, Thread(if Top(th.stack) != th.s.pos then th.pc + off else th.pc, th.s, Popped(th.stack)),
                  fuel)
    case SimpleGreedyQuant(next, min, max, count) =>
      (match CountMatches(t, code, th.pc, th.s, 0, max, fuel)
       case Unending => Undefined
       case Counted(q, pos) =>
         if q < min then Fail
         else GiveBack(t, code, th.(pc := th.pc + next), pos, q - min, count, fuel))
  }

  /** Tries to go on from `pos`, then from one repetition less, down to the minimum. */
  function GiveBack(t: Text, code: seq<Byte>, th: Thread, pos: nat, left: nat, count: nat, fuel: nat): (r: Outcome)
    decreases fuel, 1, left
  {
    var r := Search(t, code, th.(s := th.s.(pos := pos)), fuel);
    if left == 0 then r
    else if r.Fail? then GiveBack(t, code, th, StepBack(t, pos, count), left - 1, count, fuel)
    else r
  }

  function OrElse(a: Outcome, b: Outcome): (r: Outcome) { if a.Fail? then b else a }

  function Top(stack: seq<int>): (v: int)
    requires stack != []
  {
    stack[|stack| - 1]
  }

  function Popped(stack: seq<int>): (r: seq<int>)
    requires stack != []
  {
    stack[..|stack| - 1]
  }

  // ---------- fuel ----------

  lemma {:induction false} CountMore(t: Text, code: seq<Byte>, pc: int, s: Place, q: nat, max: nat, fuel: nat,
                                     more: nat)
    requires fuel <= more && CountMatches(t, code, pc, s, q, max, fuel).Counted?
    ensures CountMatches(t, code, pc, s, q, max, more) == CountMatches(t, code, pc, s, q, max, fuel)
    decreases fuel
  {
    match RunStraight(t, code, pc, s)
    case Broken =>
    case Miss =>
    case Hit(pos) =>
      if q + 1 >= max && max != INT32_MAX {
        // the last repetition allowed
      } else {
        CountMore(t, code, pc, s.(pos := pos), q + 1, max, fuel - 1, more - 1);
      }
  }

  /** A search that ends keeps its outcome with more fuel. */
  lemma {:induction false} SearchMore(t: Text, code: seq<Byte>, th: Thread, fuel: nat, more: nat)
    requires fuel <= more && Search(t, code, th, fuel) != Undefined
    ensures Search(t, code, th, more) == Search(t, code, th, fuel)
    decreases fuel, 0
  {
    match Fetch(code, th.pc)
    case Got(i, next) => SearchFromMore(t, code, i, th.(pc := next), fuel - 1, more - 1);
  }

  lemma {:induction false} SearchFromMore(t: Text, code: seq<Byte>, i: Instr, th: Thread, fuel: nat, more: nat)
    requires fuel <= more && SearchFrom(t, code, i, th, fuel) != Undefined
    ensures SearchFrom(t, code, i, th, more) == SearchFrom(t, code, i, th, fuel)
    decreases fuel, 2
  {
    hide Search, Perform, CapturesFit, CountMatches, GiveBack;
    match i
    case Do(p) =>
      var m := Perform(t, p, th.s);
      if m.Go? { SearchMore(t, code, th.(s := m.s), fuel, more); }
    case Match =>
    case Goto(off) => SearchMore(t, code, th.(pc := th.pc + off), fuel, more);
    case SplitGotoFirst(off) => SplitMore(t, code, th.(pc := th.pc + off), th, fuel, more);
    case SplitNextFirst(off) => SplitMore(t, code, th, th.(pc := th.pc + off), fuel, more);
    case Lookahead(off) =>
      SearchMore(t, code, th, fuel, more);
      var r := Search(t, code, th, fuel);
      if r.Found? { SearchMore(t, code, Thread(th.pc + off, Place(th.s.pos, r.s.caps), th.stack), fuel, more); }
    case NegativeLookahead(off) =>
      SearchMore(t, code, th, fuel, more);
      if Search(t, code, th, fuel).Fail? { SearchMore(t, code, th.(pc := th.pc + off), fuel, more); }
    case PushI32(v) => SearchMore(t, code, th.(stack := th.stack + [v]), fuel, more);
    case PushCharPos => SearchMore(t, code, th.(stack := th.stack + [th.s.pos]), fuel, more);
    case Drop => SearchMore(t, code, th.(stack := Popped(th.stack)), fuel, more);
    case Loop(off) =>
      var v := (Top(th.stack) - 1) % WORD;
      SearchMore(t, code, Thread(if v != 0 then th.pc + off else th.pc, th.s, Popped(th.stack) + [v]), fuel, more);
    case BneCharPos(off) =>
      SearchMore(t, code, Thread(if Top(th.stack) != th.s.pos then th.pc + off else th.pc, th.s, Popped(th.stack)),
                 fuel, more);
    case SimpleGreedyQuant(next, min, max, count) =>
      var c := CountMatches(t, code, th.pc, th.s, 0, max, fuel);
      CountMore(t, code, th.pc, th.s, 0, max, fuel, more);
      if c.q >= min { GiveBackMore(t, code, th.(pc := th.pc + next), c.pos, c.q - min, count, fuel, more); }
  }

  lemma {:induction false} SplitMore(t: Text, code: seq<Byte>, a: Thread, b: Thread, fuel: nat, more: nat)
    requires fuel <= more && OrElse(Search(t, code, a, fuel), Search(t, code, b, fuel)) != Undefined
    ensures OrElse(Search(t, code, a, more), Search(t, code, b, more)) == OrElse(Search(t, code, a, fuel),
              Search(t, code, b, fuel))
    decreases fuel, 1
  {
    hide Search;
    SearchMore(t, code, a, fuel, more);
    if Search(t, code, a, fuel).Fail? { SearchMore(t, code, b, fuel, more); }
  }

  lemma {:induction false} GiveBackMore(t: Text, code: seq<Byte>, th: Thread, pos: nat, left: nat, count: nat,
                                        fuel: nat, more: nat)
    requires fuel <= more && GiveBack(t, code, th, pos, left, count, fuel) != Undefined
    ensures GiveBack(t, code, th, pos, left, count, more) == GiveBack(t, code, th, pos, left, count, fuel)
    decreases fuel, 1, left
  {
    hide Search;
    var th' := th.(s := th.s.(pos := pos));
    SearchMore(t, code, th', fuel, more);
    if left > 0 && Search(t, code, th', fuel).Fail? {
      GiveBackMore(t, code, th, StepBack(t, pos, count), left - 1, count, fuel, more);
    }
  }
}
