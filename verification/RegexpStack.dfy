/** Stack depth: the linear scan of the compiler assigns every instruction the depth that every run has there. */
module RegexpStack {
  import opened RegexpCode
  import opened RegexpText
  import opened RegexpSearch
  import opened RegexpMachine
  import opened RegexpSyntax
  import opened RegexpCompile
  import opened RegexpRules
  import opened RegexpEmit
  import opened RegexpProgram

  const STACK_SIZE_MAX: nat := 255

  function Delta(i: Instr): (d: int) {
    match i
    case PushI32(_) => 1
    case PushCharPos => 1
    case Drop => -1
    case BneCharPos(_) => -1
    case _ => 0
  }

  /** The stack depth behind `prog`. */
  function Depth(prog: seq<Instr>): (d: int) {
    if prog == [] then 0 else Depth(prog[..|prog| - 1]) + Delta(prog[|prog| - 1])
  }

  lemma {:induction false} DepthConcat(a: seq<Instr>, b: seq<Instr>)
    ensures Depth(a + b) == Depth(a) + Depth(b)
    decreases b
  {
    hide Delta;
    if b == [] {
      assert a + b == a;
    } else {
      var b' := b[..|b| - 1];
      assert (a + b)[..|a + b| - 1] == a + b';
      DepthConcat(a, b');
    }
  }

  lemma {:induction false} SizeConcat(a: seq<Instr>, b: seq<Instr>)
    ensures SizeAll(a + b) == SizeAll(a) + SizeAll(b)
  {
    hide EncodeAll;
    EncodeConcat(a, b);
  }

  /** The largest depth the scan meets. */
  function MaxDepth(prog: seq<Instr>): (m: nat)
    ensures m >= Depth(prog)
  {
    if prog == [] then 0
    else
      var m, d := MaxDepth(prog[..|prog| - 1]), Depth(prog);
      if d > m then d else m
  }

  lemma {:induction false} DepthWithin(prog: seq<Instr>, k: nat)
    requires k <= |prog|
    ensures Depth(prog[..k]) <= MaxDepth(prog)
    decreases |prog|
  {
    hide Delta, Depth;
    if k == |prog| {
      assert prog[..k] == prog;
    } else {
      DepthWithin(prog[..|prog| - 1], k);
      assert prog[..|prog| - 1][..k] == prog[..k];
    }
  }

  lemma {:induction false} NoMaxDepth(prog: seq<Instr>)
    ensures Depth(prog[..0]) == 0 && MaxDepth(prog[..0]) == 0
  {
  }

  lemma {:induction false} DepthStep(prog: seq<Instr>, k: nat)
    requires k < |prog|
    ensures Depth(prog[..k + 1]) == Depth(prog[..k]) + Delta(prog[k])
    ensures MaxDepth(prog[..k + 1])
            == if Depth(prog[..k + 1]) > MaxDepth(prog[..k]) then Depth(prog[..k + 1]) else MaxDepth(prog[..k])
  {
    assert prog[..k + 1][..k] == prog[..k];
  }

  /** The scan over the bytes. It gives up above 255. */
  method ComputeStackSize(bc: seq<Byte>, ghost prog: seq<Instr>) returns (size: int)
    requires bc == EncodeAll(prog) && AllValid(prog)
    ensures size == if MaxDepth(prog) > 255 then -1 else MaxDepth(prog)
  {
    hide EncodeAll, SizeAll, Fetch, AllValid, Depth, MaxDepth;
    var pos, stack, max := 0, 0, 0;
    ghost var k := 0;
    NothingScanned(prog);
    NoMaxDepth(prog);
    while pos < |bc|
      invariant k <= |prog| && pos == SizeAll(prog[..k]) && stack == Depth(prog[..k])
                && max == MaxDepth(prog[..k]) <= STACK_SIZE_MAX
      decreases |prog| - k
    {
      ScanStep(prog, k);
      var f := Fetch(bc, pos);
      DepthStep(prog, k);
      if f.i.PushI32? || f.i.PushCharPos? {
        stack := stack + 1;
        if stack > max {
          if stack > STACK_SIZE_MAX {
            DepthWithin(prog, k + 1);
            return -1;
          }
          max := stack;
        }
      } else if f.i.Drop? || f.i.BneCharPos? {
        stack := stack - 1;
      }
      pos, k := f.next, k + 1;
    }
    ScanEnd(prog, k);
    return max;
  }

  // ---------- jumps ----------

  predicate IsJump(i: Instr) {
    i.Goto? || i.SplitGotoFirst? || i.SplitNextFirst? || i.Loop? || i.Lookahead? || i.NegativeLookahead?
       || i.BneCharPos? || i.SimpleGreedyQuant?
  }

  function Distance(i: Instr): (d: int)
    requires IsJump(i)
  {
    if i.SimpleGreedyQuant? then i.next else i.off
  }

  predicate Pops(i: Instr) { i.Drop? || i.Loop? || i.BneCharPos? }

  /** Where instruction `k` stands, and how deep the scan is there. */
  ghost function PosOf(prog: seq<Instr>, k: nat): (p: nat)
    requires k <= |prog|
  {
    SizeAll(prog[..k])
  }

  ghost function DepthAt(prog: seq<Instr>, k: nat): (d: int)
    requires k <= |prog|
  {
    Depth(prog[..k])
  }

  /** The jump of instruction `k` leads to instruction `j`, which has the right depth. */
  ghost predicate Lands(prog: seq<Instr>, k: nat, j: nat)
    requires k < |prog| && IsJump(prog[k])
  {
    j <= |prog| && PosOf(prog, j) == PosOf(prog, k + 1) + Distance(prog[k]) && DepthAt(prog, j) == DepthAt(prog, k + 1)
  }

  /** Instruction `k` pops only what is there and jumps only to instructions of the right depth. */
  ghost predicate SafeAt(prog: seq<Instr>, k: nat)
    requires k < |prog|
  {
    && DepthAt(prog, k) >= 0 && (Pops(prog[k]) ==> DepthAt(prog, k) >= 1)
    && (IsJump(prog[k]) ==> exists j :: Lands(prog, k, j))
  }

  /** Code that leaves the stack as deep as it was, and does not jump out. */
  ghost predicate Safe(prog: seq<Instr>) {
    Depth(prog) == 0 && forall k :: 0 <= k < |prog| ==> SafeAt(prog, k)
  }

  // ---------- safe code inside other code ----------

  lemma {:induction false} PrefixIn(pre: seq<Instr>, a: seq<Instr>, post: seq<Instr>, k: nat)
    requires k <= |a|
    ensures (pre + a + post)[..|pre| + k] == pre + a[..k]
  {
  }

  lemma {:induction false} PlaceIn(pre: seq<Instr>, a: seq<Instr>, post: seq<Instr>, k: nat)
    requires k <= |a|
    ensures PosOf(pre + a + post, |pre| + k) == SizeAll(pre) + PosOf(a, k)
    ensures DepthAt(pre + a + post, |pre| + k) == Depth(pre) + DepthAt(a, k)
  {
    hide SizeAll, EncodeAll, Depth;
    PrefixIn(pre, a, post, k);
    SizeConcat(pre, a[..k]);
    DepthConcat(pre, a[..k]);
  }

  /** Safe code stays safe inside other code. */
  lemma {:induction false} SafeIn(pre: seq<Instr>, a: seq<Instr>, post: seq<Instr>, k: nat)
    requires Safe(a) && k < |a| && Depth(pre) >= 0
    ensures SafeAt(pre + a + post, |pre| + k)
  {
    hide SizeAll, EncodeAll, Depth, PosOf, DepthAt, IsJump, Pops;
    var prog := pre + a + post;
    assert prog[|pre| + k] == a[k];
    assert SafeAt(a, k);
    PlaceIn(pre, a, post, k);
    PlaceIn(pre, a, post, k + 1);
    if IsJump(a[k]) {
      var j :| Lands(a, k, j);
      PlaceIn(pre, a, post, j);
      assert Lands(prog, |pre| + k, |pre| + j);
    }
  }

  /** Two pieces of safe code. */
  lemma {:induction false} SafeConcat(a: seq<Instr>, b: seq<Instr>)
    requires Safe(a) && Safe(b)
    ensures Safe(a + b)
  {
    hide SizeAll, EncodeAll, Depth, SafeAt;
    DepthConcat(a, b);
    NoDepth();
    forall k | 0 <= k < |a + b|
      ensures SafeAt(a + b, k)
    {
      if k < |a| {
        SafeIn([], a, b, k);
        assert [] + a + b == a + b;
      } else {
        SafeIn(a, b, [], k - |a|);
        assert a + b + [] == a + b;
      }
    }
  }

  lemma {:induction false} NoDepth()
    ensures Depth([]) == 0 && SizeAll([]) == 0
  {
  }

  lemma {:induction false} SafeIntro(prog: seq<Instr>)
    requires Depth(prog) == 0 && forall k :: 0 <= k < |prog| ==> SafeAt(prog, k)
    ensures Safe(prog)
  {
  }

  /** Safe code with instructions around it: those have to be looked at, and the depth inside is that behind the
      prefix. */
  lemma {:induction false} SafeFrame(pre: seq<Instr>, a: seq<Instr>, post: seq<Instr>)
    requires Safe(a) && Depth(pre) >= 0 && Depth(pre) + Depth(post) == 0
    requires forall k :: 0 <= k < |pre| ==> SafeAt(pre + a + post, k)
    requires forall k :: |pre| + |a| <= k < |pre + a + post| ==> SafeAt(pre + a + post, k)
    ensures Safe(pre + a + post)
  {
    hide SizeAll, EncodeAll, Depth, SafeAt, Safe;
    SafeDepth(a);
    DepthConcat(pre, a);
    DepthConcat(pre + a, post);
    var prog := pre + a + post;
    forall k | 0 <= k < |prog|
      ensures SafeAt(prog, k)
    {
      if |pre| <= k < |pre| + |a| { SafeIn(pre, a, post, k - |pre|); }
    }
    SafeIntro(prog);
  }

  lemma {:induction false} OneSafe(p: Prim)
    ensures Safe([Do(p)])
  {
    assert [Do(p)][..0] == [];
    assert [Do(p)][..1] == [Do(p)];
  }

  lemma {:induction false} NoneSafe()
    ensures Safe([])
  {
  }

  lemma {:induction false} DoAllSafe(ps: seq<Prim>)
    ensures Safe(DoAll(ps))
    decreases ps
  {
    hide Safe;
    if ps == [] { NoneSafe(); } else { OneSafe(ps[0]); DoAllSafe(ps[1..]); SafeConcat([Do(ps[0])], DoAll(ps[1..])); }
  }

  // ---------- the code of loops, alternatives and lookarounds ----------

  /** Instruction `k` stands at byte `pos`, at depth `d`. */
  ghost predicate Stands(prog: seq<Instr>, k: nat, pos: int, d: int) {
    k <= |prog| && PosOf(prog, k) == pos && DepthAt(prog, k) == d
  }

  lemma {:induction false} OneHeads(i: Instr)
    ensures |[i]| == 1 && [i][..0] == [] && [i][..1] == [i]
  {
  }

  lemma {:induction false} TwoHeads(i: Instr, j: Instr)
    ensures |[i, j]| == 2 && [i, j][..0] == [] && [i, j][..1] == [i] && [i, j][..2] == [i, j]
  {
  }

  lemma {:induction false} StandsBefore(pre: seq<Instr>, a: seq<Instr>, post: seq<Instr>, k: nat, head: seq<Instr>,
                                        pos: int, d: int)
    requires k <= |pre| && pre[..k] == head && pos == SizeAll(head) && d == Depth(head)
    ensures Stands(pre + a + post, k, pos, d)
  {
    hide SizeAll, EncodeAll, Depth, Stands;
    assert (pre + a + post)[..k] == pre[..k];
    StandsHead(pre + a + post, k, head);
  }

  lemma {:induction false} BehindSlice(a: seq<Instr>, b: seq<Instr>, k: nat)
    requires k <= |b|
    ensures (a + b)[..|a| + k] == a + b[..k]
  {
  }

  lemma {:induction false} StandsAfter(a: seq<Instr>, b: seq<Instr>, k: nat, h: seq<Instr>, idx: nat, pos: int, d: int)
    requires k <= |b| && b[..k] == h && idx == |a| + k && pos == SizeAll(a) + SizeAll(h) && d == Depth(a) + Depth(h)
    ensures Stands(a + b, idx, pos, d)
  {
    hide SizeAll, EncodeAll, Depth, Stands;
    BehindSlice(a, b, k);
    StandsHead(a + b, |a| + k, a + h);
    SizeConcat(a, h);
    DepthConcat(a, h);
  }

  lemma {:induction false} StandsHead(prog: seq<Instr>, k: nat, head: seq<Instr>)
    requires k <= |prog| && prog[..k] == head
    ensures Stands(prog, k, SizeAll(head), Depth(head))
  {
    hide SizeAll, EncodeAll, Depth;
  }

  lemma {:induction false} StandsBehind(pre: seq<Instr>, a: seq<Instr>, post: seq<Instr>, k: nat, head: seq<Instr>,
                                        pos: int, d: int)
    requires k <= |post| && post[..k] == head && Depth(a) == 0
    requires pos == SizeAll(pre) + SizeAll(a) + SizeAll(head) && d == Depth(pre) + Depth(head)
    ensures Stands(pre + a + post, |pre| + |a| + k, pos, d)
  {
    hide SizeAll, EncodeAll, Depth, Stands;
    SizeConcat(pre, a);
    DepthConcat(pre, a);
    StandsAfter(pre + a, post, k, head, |pre| + |a| + k, pos, d);
  }

  lemma {:induction false} OneDepth(i: Instr)
    ensures Depth([i]) == Delta(i) && SizeAll([i]) == Size(i)
  {
    assert [i][..0] == [];
    NoDepth();
    EncodeOne(i);
  }

  lemma {:induction false} TwoDepth(i: Instr, j: Instr)
    ensures Depth([i, j]) == Delta(i) + Delta(j) && SizeAll([i, j]) == Size(i) + Size(j)
  {
    hide SizeAll, EncodeAll, Depth, Delta, Size;
    assert [i, j] == [i] + [j];
    DepthConcat([i], [j]);
    SizeConcat([i], [j]);
    OneDepth(i);
    OneDepth(j);
  }

  lemma {:induction false} SafeDepth(a: seq<Instr>)
    requires Safe(a)
    ensures Depth(a) == 0
  {
  }

  /** A jump from one known place to another. */
  lemma {:induction false} JumpSafe(prog: seq<Instr>, k: nat, from: int, d: int, pos: int, j: nat, target: int, d': int)
    requires k < |prog| && IsJump(prog[k]) && d >= (if Pops(prog[k]) then 1 else 0) && target == pos + Distance(prog[k])
    requires Stands(prog, k, from, d) && Stands(prog, k + 1, pos, d') && Stands(prog, j, target, d')
    ensures SafeAt(prog, k)
  {
    hide PosOf, DepthAt, IsJump, Pops, Distance;
    assert Lands(prog, k, j);
  }

  lemma {:induction false} PlainSafe(prog: seq<Instr>, k: nat, pos: int, d: int)
    requires k < |prog| && !IsJump(prog[k]) && Stands(prog, k, pos, d) && d >= (if Pops(prog[k]) then 1 else 0)
    ensures SafeAt(prog, k)
  {
    hide DepthAt, PosOf;
  }

  lemma {:induction false} SafeStarPlain(a: seq<Instr>, greedy: bool)
    requires Safe(a)
    ensures Safe(StarCode(a, greedy, false))
  {
    hide SizeAll, EncodeAll, Depth, Size, Stands, SafeAt, Safe;
    var len: int := SizeAll(a);
    var i, j := Split(greedy, len + 5), Goto(-len - 10);
    var pre, post, prog := [i], [j], [i] + a + [j];
    SafeDepth(a);
    FiveBytes(i); FiveBytes(j); OneDepth(i); OneDepth(j); NoDepth();
    OneHeads(i); OneHeads(j);
    StandsBefore(pre, a, post, 0, [], 0, 0);
    StandsBefore(pre, a, post, 1, [i], 5, 0);
    StandsBehind(pre, a, post, 0, [], len + 5, 0);
    StandsBehind(pre, a, post, 1, [j], len + 10, 0);
    JumpSafe(prog, 0, 0, 0, 5, |a| + 2, len + 10, 0);
    JumpSafe(prog, |a| + 1, len + 5, 0, len + 10, 0, 0, 0);
    SafeFrame(pre, a, post);
  }

  lemma {:induction false} SafeStarChecked(a: seq<Instr>, greedy: bool)
    requires Safe(a)
    ensures Safe(StarCode(a, greedy, true))
  {
    hide SizeAll, EncodeAll, Depth, Size, Stands, SafeAt, Safe;
    var len: int := SizeAll(a);
    var i, j := Split(greedy, len + 6), BneCharPos(-len - 11);
    var pre, post, prog := [i, PushCharPos], [j], [i, PushCharPos] + a + [j];
    SafeDepth(a);
    FiveBytes(i); FiveBytes(j); OneByte(PushCharPos); OneDepth(i); OneDepth(j); TwoDepth(i, PushCharPos); NoDepth();
    TwoHeads(i, PushCharPos); OneHeads(j);
    StandsBefore(pre, a, post, 0, [], 0, 0);
    StandsBefore(pre, a, post, 1, [i], 5, 0);
    StandsBehind(pre, a, post, 0, [], len + 6, 1);
    StandsBehind(pre, a, post, 1, [j], len + 11, 0);
    JumpSafe(prog, 0, 0, 0, 5, |a| + 3, len + 11, 0);
    PlainSafe(prog, 1, 5, 0);
    JumpSafe(prog, |a| + 2, len + 6, 1, len + 11, 0, 0, 0);
    SafeFrame(pre, a, post);
  }

  lemma {:induction false} SafeUpTo(a: seq<Instr>, greedy: bool, m: nat)
    requires Safe(a)
    ensures Safe(UpToCode(a, greedy, m))
  {
    hide SizeAll, EncodeAll, Depth, Size, Stands, SafeAt, Safe;
    var len: int := SizeAll(a);
    var push, i, j := PushI32(m), Split(greedy, len + 5), Loop(-len - 10);
    var pre, post, prog := [push, i], [j, Drop], [push, i] + a + [j, Drop];
    assert prog[0] == push && prog[1] == i && prog[|a| + 2] == j && prog[|a| + 3] == Drop && |prog| == |a| + 4;
    SafeDepth(a);
    FiveBytes(push); FiveBytes(i); FiveBytes(j); OneByte(Drop);
    OneDepth(push); OneDepth(j); TwoDepth(push, i); TwoDepth(j, Drop); NoDepth();
    TwoHeads(push, i); TwoHeads(j, Drop);
    StandsBefore(pre, a, post, 0, [], 0, 0);
    StandsBefore(pre, a, post, 1, [push], 5, 1);
    StandsBefore(pre, a, post, 2, pre, 10, 1);
    StandsBehind(pre, a, post, 0, [], len + 10, 1);
    StandsBehind(pre, a, post, 1, [j], len + 15, 1);
    PlainSafe(prog, 0, 0, 0);
    JumpSafe(prog, 1, 5, 1, 10, |a| + 3, len + 15, 1);
    JumpSafe(prog, |a| + 2, len + 10, 1, len + 15, 1, 5, 1);
    PlainSafe(prog, |a| + 3, len + 15, 1);
    forall k | |pre| + |a| <= k < |prog|
      ensures SafeAt(prog, k)
    {
      assert k == |a| + 2 || k == |a| + 3;
    }
    SafeFrame(pre, a, post);
  }

  lemma {:induction false} SafeTimes(a: seq<Instr>, m: nat)
    requires Safe(a)
    ensures Safe(TimesCode(a, m))
  {
    hide Safe;
    if m != 1 { SafeCounted(a, m, SizeAll(a)); }
  }

  lemma {:induction false} SafeCounted(a: seq<Instr>, m: nat, len: int)
    requires Safe(a) && len == SizeAll(a)
    ensures Safe([PushI32(m)] + a + [Loop(-len - 5), Drop])
  {
    hide SizeAll, EncodeAll, Depth, Size, Stands, SafeAt, Safe;
    var push, j := PushI32(m), Loop(-len - 5);
    var pre, post := [push], [j, Drop];
    var prog := pre + a + post;
    assert prog[0] == push && prog[|a| + 1] == j && prog[|a| + 2] == Drop && |prog| == |a| + 3;
    SafeDepth(a);
    FiveBytes(push); FiveBytes(j); OneByte(Drop);
    OneDepth(push); OneDepth(j); TwoDepth(j, Drop); NoDepth();
    OneHeads(push); TwoHeads(j, Drop);
    StandsBefore(pre, a, post, 0, [], 0, 0);
    StandsBefore(pre, a, post, 1, [push], 5, 1);
    StandsBehind(pre, a, post, 0, [], len + 5, 1);
    StandsBehind(pre, a, post, 1, [j], len + 10, 1);
    PlainSafe(prog, 0, 0, 0);
    JumpSafe(prog, |a| + 1, len + 5, 1, len + 10, 1, 5, 1);
    PlainSafe(prog, |a| + 2, len + 10, 1);
    forall k | |pre| + |a| <= k < |prog|
      ensures SafeAt(prog, k)
    {
      assert k == |a| + 1 || k == |a| + 2;
    }
    SafeFrame(pre, a, post);
  }

  /** A jump over the code to the end behind it, where a `match` may stand. */
  lemma {:induction false} SafeSkip(i: Instr, a: seq<Instr>, post: seq<Instr>)
    requires Safe(a) && (post == [] || post == [Match]) && IsJump(i) && !Pops(i) && Delta(i) == 0
    requires Distance(i) == SizeAll(a) + |post|
    ensures Safe([i] + a + post)
  {
    hide SizeAll, EncodeAll, Depth, Size, Stands, SafeAt, Safe;
    var prog, len, n := [i] + a + post, SizeAll(a), Size(i);
    SafeDepth(a);
    OneByte(Match); OneDepth(Match); OneDepth(i); NoDepth();
    OneHeads(i);
    StandsBefore([i], a, post, 0, [], 0, 0);
    StandsBefore([i], a, post, 1, [i], n, 0);
    StandsBehind([i], a, post, 0, [], n + len, 0);
    StandsBehind([i], a, post, |post|, post, n + len + |post|, 0);
    JumpSafe(prog, 0, 0, 0, n, |prog|, n + len + |post|, 0);
    if post != [] { PlainSafe(prog, |a| + 1, n + len, 0); }
    SafeFrame([i], a, post);
  }

  lemma {:induction false} SafePlus(a: seq<Instr>, greedy: bool)
    requires Safe(a)
    ensures Safe(a + [Split(!greedy, -(SizeAll(a) as int) - 5)])
  {
    hide SizeAll, EncodeAll, Depth, Size, Stands, SafeAt, Safe;
    var len: int := SizeAll(a);
    var i := Split(!greedy, -len - 5);
    var prog := [] + a + [i];
    SafeDepth(a);
    FiveBytes(i); OneDepth(i); NoDepth();
    OneHeads(i);
    StandsBefore([], a, [i], 0, [], 0, 0);
    StandsBehind([], a, [i], 0, [], len, 0);
    StandsBehind([], a, [i], 1, [i], len + 5, 0);
    JumpSafe(prog, |a|, len, 0, len + 5, 0, 0, 0);
    SafeFrame([], a, [i]);
    assert prog == a + [i];
  }

  lemma {:induction false} SafeChoice(a: seq<Instr>, b: seq<Instr>)
    requires Safe(a) && Safe(b)
    ensures Safe(ChoiceCode(a, b))
  {
    hide SizeAll, EncodeAll, Depth, Size, PosOf, DepthAt, SafeAt, Safe;
    var i, j := SplitNextFirst(SizeAll(a) + 5), Goto(SizeAll(b));
    var pre, post := [i], [j] + b;
    var prog := pre + a + post;
    assert ChoiceCode(a, b) == prog;
    ChoiceJumps(a, b);
    OneDepth(i); OneDepth(j);
    DepthConcat([j], b);
    SafeDepth(a);
    SafeDepth(b);
    var front := [i] + a + [j];
    assert prog == front + b + [];
    DepthConcat([i] + a, [j]);
    DepthConcat([i], a);
    forall k | |pre| + |a| <= k < |prog|
      ensures SafeAt(prog, k)
    {
      if k > |a| + 1 { SafeIn(front, b, [], k - |front|); }
    }
    SafeFrame(pre, a, post);
  }

  lemma {:induction false} ChoiceJumps(a: seq<Instr>, b: seq<Instr>)
    requires Safe(a) && Safe(b)
    ensures var prog := [SplitNextFirst(SizeAll(a) + 5)] + a + ([Goto(SizeAll(b))] + b);
            SafeAt(prog, 0) && SafeAt(prog, |a| + 1)
  {
    hide SizeAll, EncodeAll, Depth, Size, Stands, SafeAt, Safe;
    var la: int, lb: int := SizeAll(a), SizeAll(b);
    var i, j := SplitNextFirst(la + 5), Goto(lb);
    var pre, post := [i], [j] + b;
    var prog := pre + a + post;
    SafeDepth(a);
    SafeDepth(b);
    FiveBytes(i); FiveBytes(j); OneDepth(i); OneDepth(j); NoDepth();
    SizeConcat([j], b); DepthConcat([j], b);
    OneHeads(i);
    StandsBefore(pre, a, post, 0, [], 0, 0);
    StandsBefore(pre, a, post, 1, [i], 5, 0);
    StandsBehind(pre, a, post, 0, [], la + 5, 0);
    StandsBehind(pre, a, post, 1, [j], la + 10, 0);
    StandsBehind(pre, a, post, |post|, post, la + lb + 10, 0);
    JumpSafe(prog, 0, 0, 0, 5, |a| + 2, la + 10, 0);
    JumpSafe(prog, |a| + 1, la + 5, 0, la + 10, |prog|, la + lb + 10, 0);
  }

  // ---------- compiled code is safe ----------

  lemma {:induction false} SafeStar(a: seq<Instr>, greedy: bool, check: bool)
    requires Safe(a)
    ensures Safe(StarCode(a, greedy, check))
  {
    hide Safe, StarCode;
    if check { SafeStarChecked(a, greedy); } else { SafeStarPlain(a, greedy); }
  }

  lemma {:induction false} SafeLoop(a: seq<Instr>, resets: seq<Prim>, min: nat, max: nat, greedy: bool)
    requires Safe(a) && min <= max
    ensures Safe(LoopCode(a, resets, min, max, greedy))
  {
    hide Safe, StarCode, UpToCode, TimesCode, CheckAdvance, SimpleCount, DoAll, SizeAll;
    var check, len := UsesCheck(a, greedy), SizeAll(a);
    NoneSafe();
    if UsesSimpleLoop(a, max, greedy) {
      SafeSkip(SimpleGreedyQuant(len + 1, min, max, SimpleCount(a)), a, [Match]);
    } else if min == 0 {
      var body := if max == 0 then [] else if max == 1 then [Split(greedy, len)] + a
                  else if max == INT32_MAX then StarCode(a, greedy, check) else UpToCode(a, greedy, max);
      DoAllSafe(resets);
      if max == 1 {
        SafeSkip(Split(greedy, len), a, []);
        assert [Split(greedy, len)] + a + [] == body;
      } else if max == INT32_MAX { SafeStar(a, greedy, check); }
      else if max > 1 { SafeUpTo(a, greedy, max); }
      SafeConcat(DoAll(resets), body);
    } else if min == 1 && max == INT32_MAX && !check {
      SafePlus(a, greedy);
    } else {
      SafeTimes(a, min);
      if max == INT32_MAX { SafeStar(a, greedy, check); }
      else if max > min { SafeUpTo(a, greedy, max - min); }
      SafeConcat(TimesCode(a, min), RestCode(a, greedy, check, min, max));
    }
  }

  lemma {:induction false} CompiledSafe(n: Node, back: bool, base: nat)
    requires WellFormed(n)
    ensures Safe(Compile(n, back, base))
    decreases n
  {
    hide Safe, Compile, ChoiceCode, LoopCode, LookCode;
    CompileParts(n, back, base);
    match n
    case Sequence(a, b) =>
      CompiledSafe(a, back, base);
      CompiledSafe(b, back, base + Groups(a));
      SafeConcat(Compile(a, back, base), Compile(b, back, base + Groups(a)));
      SafeConcat(Compile(b, back, base + Groups(a)), Compile(a, back, base));
    case Choice(a, b) =>
      CompiledSafe(a, back, base);
      CompiledSafe(b, back, base + Groups(a));
      SafeChoice(Compile(a, back, base), Compile(b, back, base + Groups(a)));
    case Group(a) =>
      CompiledSafe(a, back, base + 1);
      SafeBetween(OpenPrim(base, back), Compile(a, back, base + 1), ClosePrim(base, back));
    case Look(a, behind, negative) =>
      CompiledSafe(a, behind, base);
      SafeLook(Compile(a, behind, base), negative);
    case Quantified(a, min, max, greedy) =>
      CompiledSafe(a, back, base);
      SafeLoop(Compile(a, back, base), ResetPrims(a, min, base), min, max, greedy);
    case _ => LeafSafe(n, back, base);
  }

  lemma {:induction false} SafeBetween(open: Prim, a: seq<Instr>, close: Prim)
    requires Safe(a)
    ensures Safe([Do(open)] + a + [Do(close)])
  {
    hide Safe;
    OneSafe(open);
    OneSafe(close);
    SafeConcat([Do(open)], a);
    SafeConcat([Do(open)] + a, [Do(close)]);
  }

  lemma {:induction false} SafeLook(a: seq<Instr>, negative: bool)
    requires Safe(a)
    ensures Safe(LookCode(a, negative))
  {
    hide Safe, SizeAll, EncodeAll;
    SafeSkip(LookCode(a, negative)[0], a, [Match]);
  }

  lemma {:induction false} LeafSafe(n: Node, back: bool, base: nat)
    requires WellFormed(n) && (n.Empty? || n.One? || n.Assertion? || n.Reference?)
    ensures Safe(Compile(n, back, base))
  {
    hide Safe, DoAll;
    match n
    case Empty => NoneSafe();
    case One(p) => DoAllSafe(OnePrims(p, back));
    case Assertion(p) => OneSafe(p);
    case Reference(k) => OneSafe(ReferencePrim(k, back));
  }

  // ---------- runs ----------

  /** Safe code closed by a `match`: the whole program. */
  ghost predicate Closed(prog: seq<Instr>) {
    && prog != [] && prog[|prog| - 1] == Match && Safe(prog[..|prog| - 1]) && AllValid(prog)
  }

  lemma {:induction false} ProgramSafe(n: Node, sticky: bool)
    requires WellFormed(n)
    ensures var prog := Program(n, sticky); prog != [] && prog[|prog| - 1] == Match && Safe(prog[..|prog| - 1])
  {
    hide Safe, Compile;
    var prog, a := Program(n, sticky), Compile(n, false, 1);
    CompiledSafe(n, false, 1);
    SafeBetween(SaveStart(0), a, SaveEnd(0));
    var core := [Do(SaveStart(0))] + a + [Do(SaveEnd(0))];
    if sticky { NoneSafe(); } else { PrefixSafe(); }
    SafeConcat(Prefix(sticky), core);
    assert prog[..|prog| - 1] == Prefix(sticky) + core;
  }

  lemma {:induction false} PrefixSafe()
    ensures Safe(Prefix(false))
  {
    hide SizeAll, EncodeAll, Depth, Size, Stands, SafeAt, Safe;
    var i, any, j := SplitGotoFirst(6), Do(Any), Goto(-11);
    var prog := [i] + [any] + [j];
    OneSafe(Any);
    SafeDepth([any]);
    FiveBytes(i); FiveBytes(j); OneDepth(i); OneDepth(j); OneDepth(any); AnySize(); NoDepth();
    OneHeads(i); OneHeads(j);
    StandsBefore([i], [any], [j], 0, [], 0, 0);
    StandsBefore([i], [any], [j], 1, [i], 5, 0);
    StandsBehind([i], [any], [j], 0, [], 6, 0);
    StandsBehind([i], [any], [j], 1, [j], 11, 0);
    JumpSafe(prog, 0, 0, 0, 5, 3, 11, 0);
    JumpSafe(prog, 2, 6, 0, 11, 0, 0, 0);
    SafeFrame([i], [any], [j]);
    assert prog == Prefix(false);
  }

  lemma {:induction false} AnySize()
    ensures Size(Do(Any)) == 1
  {
  }

  /** Byte `pc` is where instruction `k` stands, and the stack has the depth of the scan there. */
  ghost predicate At(prog: seq<Instr>, k: nat, pc: int, stack: seq<int>) {
    k < |prog| && pc == PosOf(prog, k) && |stack| == DepthAt(prog, k)
  }

  ghost predicate OnTrack(prog: seq<Instr>, pc: int, stack: seq<int>) { exists k: nat :: At(prog, k, pc, stack) }

  /** Instruction `k` is the simple loop whose operands are at `pc`. */
  ghost predicate LoopAt(prog: seq<Instr>, k: nat, pc: int, stack: seq<int>) {
    k < |prog| && prog[k].SimpleGreedyQuant? && pc == PosOf(prog, k) + 1 && |stack| == DepthAt(prog, k)
  }

  ghost predicate SavedOk(prog: seq<Instr>, s: Saved) {
    if s.kind == GreedyQuantState then exists k: nat :: LoopAt(prog, k, s.pc, s.stack) else OnTrack(prog, s.pc, s.stack)
  }

  ghost predicate StatesOk(prog: seq<Instr>, states: seq<Saved>) {
    forall i :: 0 <= i < |states| ==> SavedOk(prog, states[i])
  }

  ghost predicate ConfigOk(prog: seq<Instr>, c: Config) {
    match c
    case Running(th, states) => OnTrack(prog, th.pc, th.stack) && StatesOk(prog, states)
    case Counting(th, i, _, states) => StatesOk(prog, states) && exists k: nat ::
         LoopAt(prog, k, th.pc - 16, th.stack) && prog[k] == i
    case Unwinding(_, _, states) => StatesOk(prog, states)
    case _ => true
  }

  /** The instruction at a place on the track, and its successor. */
  lemma {:induction false} TrackFetch(prog: seq<Instr>, k: nat, pc: int, stack: seq<int>)
    requires Closed(prog) && At(prog, k, pc, stack)
    ensures pc >= 0 && Fetch(EncodeAll(prog), pc) == Got(prog[k], PosOf(prog, k + 1))
            && PosOf(prog, k + 1) == pc + Size(prog[k])
    ensures DepthAt(prog, k + 1) == |stack| + Delta(prog[k])
  {
    hide SizeAll, EncodeAll, Depth, Fetch, AllValid, Delta, Size, Safe;
    FetchNth(prog, k);
    DepthStep(prog, k);
    SizeStep(prog, k);
  }

  /** The jump of instruction `k` leads to instruction `j`. */
  ghost predicate Target(prog: seq<Instr>, k: nat, j: nat)
    requires k < |prog| && IsJump(prog[k])
  {
    j < |prog| && PosOf(prog, j) == PosOf(prog, k + 1) + Distance(prog[k]) && DepthAt(prog, j) == DepthAt(prog, k + 1)
  }

  /** Nothing but the last `match` ends the program, pops find what they pop, and jumps stay inside. */
  lemma {:induction false} TrackOn(prog: seq<Instr>, k: nat)
    requires Closed(prog) && k < |prog| && prog[k] != Match
    ensures k + 1 < |prog| && (Pops(prog[k]) ==> DepthAt(prog, k) >= 1)
            && (IsJump(prog[k]) ==> exists j: nat :: Target(prog, k, j))
  {
    hide SizeAll, EncodeAll, Depth, AllValid, Delta, IsJump, Pops;
    var front := prog[..|prog| - 1];
    assert front[k] == prog[k];
    assert SafeAt(front, k);
    FrontPlace(prog, k);
    FrontPlace(prog, k + 1);
    if IsJump(prog[k]) {
      var j: nat :| Lands(front, k, j);
      FrontPlace(prog, j);
      assert Target(prog, k, j);
    }
  }

  lemma {:induction false} FrontPlace(prog: seq<Instr>, k: nat)
    requires k < |prog|
    ensures PosOf(prog[..|prog| - 1], k) == PosOf(prog, k) && DepthAt(prog[..|prog| - 1], k) == DepthAt(prog, k)
  {
    hide SizeAll, EncodeAll, Depth;
    assert prog[..|prog| - 1][..k] == prog[..k];
  }

  lemma {:induction false} SizeStep(prog: seq<Instr>, k: nat)
    requires k < |prog|
    ensures SizeAll(prog[..k + 1]) == SizeAll(prog[..k]) + Size(prog[k])
  {
    hide EncodeAll, Encode;
    assert prog[..k + 1] == prog[..k] + [prog[k]];
    SizeConcat(prog[..k], [prog[k]]);
    EncodeOne(prog[k]);
  }

  lemma {:induction false} Pushed(prog: seq<Instr>, states: seq<Saved>, s: Saved)
    requires StatesOk(prog, states) && SavedOk(prog, s)
    ensures StatesOk(prog, states + [s])
  {
    hide SavedOk;
  }

  /** Executing the instruction at a place on the track stays on the track. */
  lemma {:induction false} ExecuteKeeps(t: Text, prog: seq<Instr>, k: nat, th: Thread, states: seq<Saved>)
    requires Closed(prog) && At(prog, k, th.pc, th.stack) && StatesOk(prog, states)
    ensures ConfigOk(prog, Execute(t, prog[k], th.(pc := PosOf(prog, k + 1)), states))
  {
    hide SizeAll, EncodeAll, Fetch, AllValid, Perform, CapturesFit, StatesOk, PosOf, DepthAt, Closed, Size, OnTrack,
         LoopAt;
    TrackFetch(prog, k, th.pc, th.stack);
    var i, next, depth := prog[k], PosOf(prog, k + 1), DepthAt(prog, k + 1);
    if i != Match {
      TrackOn(prog, k);
      JumpOnTrack(prog, k + 1, next, depth);
      if i.SimpleGreedyQuant? {
        SeventeenBytes(i);
        LoopIntro(prog, k, next - 16, th.stack);
      } else if IsJump(i) {
        var j: nat :| Target(prog, k, j);
        var target := next + Distance(i);
        JumpOnTrack(prog, j, target, depth);
        JumpKeeps(t, prog, i, th.(pc := next), states, depth, target);
      }
    }
  }

  lemma {:induction false} JumpKeeps(t: Text, prog: seq<Instr>, i: Instr, th: Thread, states: seq<Saved>, depth: int,
                                     target: int)
    requires IsJump(i) && target == th.pc + Distance(i) && !i.SimpleGreedyQuant? && StatesOk(prog, states)
             && depth == |th.stack| + Delta(i) && (Pops(i) ==> th.stack != [])
    requires forall stack: seq<int> :: |stack| == depth ==> OnTrack(prog, th.pc, stack)
    requires forall stack: seq<int> :: |stack| == depth ==> OnTrack(prog, target, stack)
    ensures ConfigOk(prog, Execute(t, i, th, states))
  {
    hide StatesOk, OnTrack;
    if i.Loop? {
      var stack := Popped(th.stack) + [(Top(th.stack) - 1) % WORD];
      assert OnTrack(prog, th.pc, stack) && OnTrack(prog, target, stack);
    }
    if i.BneCharPos? {
      var stack := Popped(th.stack);
      assert OnTrack(prog, th.pc, stack) && OnTrack(prog, target, stack);
    }
    if i.SplitGotoFirst? { Pushed(prog, states, Saved(SplitState, th.pc, th.s, th.stack, 0)); }
    if i.SplitNextFirst? { Pushed(prog, states, Saved(SplitState, th.pc + i.off, th.s, th.stack, 0)); }
    if i.Lookahead? { Pushed(prog, states, Saved(LookaheadState, th.pc + i.off, th.s, th.stack, 0)); }
    if i.NegativeLookahead? { Pushed(prog, states, Saved(NegativeLookaheadState, th.pc + i.off, th.s, th.stack, 0)); }
  }

  lemma {:induction false} LoopIntro(prog: seq<Instr>, k: nat, pc: int, stack: seq<int>)
    requires k < |prog| && prog[k].SimpleGreedyQuant? && pc == PosOf(prog, k) + 1 && |stack| == DepthAt(prog, k)
    ensures LoopAt(prog, k, pc, stack)
  {
    hide PosOf, DepthAt;
  }

  lemma {:induction false} SeventeenBytes(i: Instr)
    requires i.SimpleGreedyQuant?
    ensures Size(i) == 17
  {
  }

  lemma {:induction false} JumpOnTrack(prog: seq<Instr>, j: nat, pos: int, depth: int)
    requires j < |prog| && PosOf(prog, j) == pos && DepthAt(prog, j) == depth
    ensures forall stack: seq<int> :: |stack| == depth ==> OnTrack(prog, pos, stack)
  {
    hide PosOf, DepthAt;
    forall stack: seq<int> | |stack| == depth
      ensures OnTrack(prog, pos, stack)
    {
      assert At(prog, j, pos, stack);
    }
  }

  /** The end of a simple loop's counting leads behind the loop, with the loop saved if it can give back. */
  lemma {:induction false} CountedKeeps(prog: seq<Instr>, k: nat, th: Thread, i: Instr, q: nat, states: seq<Saved>)
    requires Closed(prog) && LoopAt(prog, k, th.pc - 16, th.stack) && prog[k] == i && StatesOk(prog, states)
    ensures ConfigOk(prog, EndCount(th, i, q, states))
  {
    hide SizeAll, EncodeAll, Fetch, AllValid, StatesOk, PosOf, DepthAt, Closed, Size, OnTrack;
    assert At(prog, k, th.pc - 17, th.stack);
    TrackFetch(prog, k, th.pc - 17, th.stack);
    SeventeenBytes(i);
    TrackOn(prog, k);
    var j: nat :| Target(prog, k, j);
    JumpOnTrack(prog, j, th.pc + i.next, |th.stack|);
    if q > i.min {
      var saved := Saved(GreedyQuantState, th.pc - 16, th.s, th.stack, q - i.min);
      assert LoopAt(prog, k, saved.pc, saved.stack);
      Pushed(prog, states, saved);
    }
  }

  /** Taking up a saved state stays on the track. */
  lemma {:induction false} UnwindKeeps(t: Text, prog: seq<Instr>, ret: bool, caps: seq<Mark>, top: Saved,
                                       rest: seq<Saved>)
    requires Closed(prog) && StatesOk(prog, rest) && SavedOk(prog, top)
    ensures ConfigOk(prog, Unwind(t, EncodeAll(prog), ret, caps, top, rest))
  {
    hide SizeAll, EncodeAll, Fetch, AllValid, StatesOk, PosOf, DepthAt, Closed, Size, OnTrack, StepBack;
    if top.kind == GreedyQuantState {
      var k: nat :| LoopAt(prog, k, top.pc, top.stack);
      assert At(prog, k, top.pc - 1, top.stack);
      TrackFetch(prog, k, top.pc - 1, top.stack);
      TrackOn(prog, k);
      var j: nat :| Target(prog, k, j);
      JumpOnTrack(prog, j, PosOf(prog, k + 1) + prog[k].next, |top.stack|);
      if !ret && top.count > 1 {
        var s := top.s.(pos := StepBack(t, top.s.pos, prog[k].count));
        var again := top.(s := s, count := top.count - 1);
        assert LoopAt(prog, k, again.pc, again.stack);
        Pushed(prog, rest, again);
      }
    }
  }

  lemma {:induction false} StepKeeps(t: Text, prog: seq<Instr>, c: Config)
    requires Closed(prog) && ConfigOk(prog, c)
    ensures ConfigOk(prog, Step(t, EncodeAll(prog), c))
  {
    hide SizeAll, EncodeAll, Fetch, PosOf, DepthAt, Closed, Execute, Unwind, EndCount, RunStraight;
    match c
    case Running(th, states) =>
      var k: nat :| At(prog, k, th.pc, th.stack);
      TrackFetch(prog, k, th.pc, th.stack);
      ExecuteKeeps(t, prog, k, th, states);
    case Counting(th, i, q, states) =>
      var k: nat :| LoopAt(prog, k, th.pc - 16, th.stack) && prog[k] == i;
      CountedKeeps(prog, k, th, i, q, states);
      match RunStraight(t, EncodeAll(prog), th.pc, th.s) {
        case Hit(pos) =>
          var th' := th.(s := th.s.(pos := pos));
          assert LoopAt(prog, k, th'.pc - 16, th'.stack);
          CountedKeeps(prog, k, th', i, q + 1, states);
        case _ =>
      }
    case Unwinding(ret, caps, states) =>
      if states != [] { UnwindKeeps(t, prog, ret, caps, states[|states| - 1], states[..|states| - 1]); }
    case _ =>
  }

  lemma {:induction false} StepsKeep(t: Text, prog: seq<Instr>, c: Config, n: nat)
    requires Closed(prog) && ConfigOk(prog, c)
    ensures ConfigOk(prog, Steps(t, EncodeAll(prog), c, n))
    decreases n
  {
    hide Step, EncodeAll, ConfigOk, Closed;
    if n == 0 {
      assert Steps(t, EncodeAll(prog), c, 0) == c;
    } else {
      StepKeeps(t, prog, c);
      StepsKeep(t, prog, Step(t, EncodeAll(prog), c), n - 1);
    }
  }

  /** In every configuration a run of compiled code reaches, the thread stands at an instruction, the stack is as deep
      as the scan found it there, never deeper than the computed size, and no pop finds it empty. */
  lemma {:induction false} StackNeverOverflows(t: Text, prog: seq<Instr>, s: Place, n: nat)
    requires Closed(prog)
    ensures var c := Steps(t, EncodeAll(prog), Running(Thread(0, s, []), []), n);
            c.Running? ==>
              && |c.th.stack| <= MaxDepth(prog)
              && exists k: nat :: At(prog, k, c.th.pc, c.th.stack) && (Pops(prog[k]) ==> c.th.stack != [])
  {
    hide EncodeAll, Step, Steps, PosOf, DepthAt, MaxDepth;
    var c0 := Running(Thread(0, s, []), []);
    StartPlace(prog);
    assert At(prog, 0, 0, []);
    StepsKeep(t, prog, c0, n);
    var c := Steps(t, EncodeAll(prog), c0, n);
    if c.Running? {
      var k: nat :| At(prog, k, c.th.pc, c.th.stack);
      if prog[k] != Match { TrackOn(prog, k); }
      DepthBound(prog, k);
    }
  }

  lemma {:induction false} StartPlace(prog: seq<Instr>)
    ensures PosOf(prog, 0) == 0 && DepthAt(prog, 0) == 0
  {
    NoDepth();
    assert prog[..0] == [];
  }

  lemma {:induction false} DepthBound(prog: seq<Instr>, k: nat)
    requires k <= |prog|
    ensures DepthAt(prog, k) <= MaxDepth(prog)
  {
    DepthWithin(prog, k);
  }
}
