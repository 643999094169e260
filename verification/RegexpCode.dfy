/** The instructions of the regular expression machine and their byte encoding. */
module RegexpCode {

  type Byte = x: nat | x < 256

  const U16: nat := 0x1_0000
  const U32: nat := 0x1_0000_0000
  const INT32_MAX: nat := 0x7fff_ffff

  /** Instructions that look at the text or at the captures and then go on to the next instruction. */
  datatype Prim =
    | Char(c: nat)
    | Char32(c: nat)
    | Dot
    | Any
    | LineStart
    | LineEnd
    | SaveStart(k: nat)
    | SaveEnd(k: nat)
    | SaveReset(first: nat, last: nat)
    | WordBoundary
    | NotWordBoundary
    | BackReference(k: nat)
    | BackwardBackReference(k: nat)
    | Range(pairs: seq<(nat, nat)>)
    | Range32(pairs: seq<(nat, nat)>)
    | Prev

  /** Jump distances are in bytes, from the end of the jumping instruction. */
  datatype Instr =
    | Do(p: Prim)
    | Goto(off: int)
    | SplitGotoFirst(off: int)
    | SplitNextFirst(off: int)
    | Match
    | Loop(off: int)
    | PushI32(v: nat)
    | Drop
    | Lookahead(off: int)
    | NegativeLookahead(off: int)
    | PushCharPos
    | BneCharPos(off: int)
    | SimpleGreedyQuant(next: int, min: nat, max: nat, count: nat)

  // ---------- operands ----------

  function PutU16(v: nat): (s: seq<Byte>)
    ensures |s| == 2
  {
    [v % 256, v / 256 % 256]
  }

  function PutU32(v: nat): (s: seq<Byte>)
    ensures |s| == 4
  {
    [v % 256, v / 0x100 % 256, v / 0x1_0000 % 256, v / 0x100_0000 % 256]
  }

  /** A jump distance in two's complement. */
  function PutI32(v: int): (s: seq<Byte>)
    ensures |s| == 4
  {
    PutU32(v % U32)
  }

  function GetU16(code: seq<Byte>, pos: nat): (v: nat)
    requires pos + 2 <= |code|
    ensures v < U16
  {
    code[pos] as nat + 0x100 * code[pos + 1] as nat
  }

  function GetU32(code: seq<Byte>, pos: nat): (v: nat)
    requires pos + 4 <= |code|
    ensures v < U32
  {
    code[pos] as nat + 0x100 * code[pos + 1] as nat
    + 0x1_0000 * code[pos + 2] as nat + 0x100_0000 * code[pos + 3] as nat
  }

  function GetI32(code: seq<Byte>, pos: nat): (v: int)
    requires pos + 4 <= |code|
  {
    var u := GetU32(code, pos);
    if u <= INT32_MAX then u else u - U32
  }

  lemma {:induction false} U16RoundTrip(code: seq<Byte>, pos: nat, v: nat)
    requires v < U16 && pos + 2 <= |code| && code[pos..pos + 2] == PutU16(v)
    ensures GetU16(code, pos) == v
  {
    var s := code[pos..pos + 2];
    assert s[0] == code[pos] && s[1] == code[pos + 1];
  }

  lemma {:induction false} U32RoundTrip(code: seq<Byte>, pos: nat, v: nat)
    requires v < U32 && pos + 4 <= |code| && code[pos..pos + 4] == PutU32(v)
    ensures GetU32(code, pos) == v
  {
    var s := code[pos..pos + 4];
    assert s[0] == code[pos] && s[1] == code[pos + 1] && s[2] == code[pos + 2] && s[3] == code[pos + 3];
    BytesOf(v);
  }

  lemma {:induction false} BytesOf(v: nat)
    requires v < U32
    ensures v % 256 + 0x100 * (v / 0x100 % 256) + 0x1_0000 * (v / 0x1_0000 % 256)
            + 0x100_0000 * (v / 0x100_0000 % 256) == v
  {
    assert v / 0x100 / 0x100 == v / 0x1_0000;
    assert v / 0x1_0000 / 0x100 == v / 0x100_0000;
  }

  /** Distances that fit the operand of a jump. */
  predicate IsI32(v: int) { -0x8000_0000 <= v <= 0x7fff_ffff }

  lemma {:induction false} I32RoundTrip(code: seq<Byte>, pos: nat, v: int)
    requires IsI32(v) && pos + 4 <= |code| && code[pos..pos + 4] == PutI32(v)
    ensures GetI32(code, pos) == v
  {
    U32RoundTrip(code, pos, v % U32);
  }

  // ---------- ranges ----------

  function PutPairs16(pairs: seq<(nat, nat)>): (s: seq<Byte>)
    ensures |s| == 4 * |pairs|
  {
    if pairs == [] then [] else PutU16(pairs[0].0) + PutU16(pairs[0].1) + PutPairs16(pairs[1..])
  }

  function PutPairs32(pairs: seq<(nat, nat)>): (s: seq<Byte>)
    ensures |s| == 8 * |pairs|
  {
    if pairs == [] then [] else PutU32(pairs[0].0) + PutU32(pairs[0].1) + PutPairs32(pairs[1..])
  }

  function GetPairs16(code: seq<Byte>, pos: nat, n: nat): (pairs: seq<(nat, nat)>)
    requires pos + 4 * n <= |code|
    decreases n
  {
    if n == 0 then [] else [(GetU16(code, pos), GetU16(code, pos + 2))] + GetPairs16(code, pos + 4, n - 1)
  }

  function GetPairs32(code: seq<Byte>, pos: nat, n: nat): (pairs: seq<(nat, nat)>)
    requires pos + 8 * n <= |code|
    decreases n
  {
    if n == 0 then [] else [(GetU32(code, pos), GetU32(code, pos + 4))] + GetPairs32(code, pos + 8, n - 1)
  }

  predicate PairsBelow(pairs: seq<(nat, nat)>, bound: nat) {
    forall i :: 0 <= i < |pairs| ==> pairs[i].0 < bound && pairs[i].1 < bound
  }

  lemma {:induction false} Pairs16RoundTrip(code: seq<Byte>, pos: nat, pairs: seq<(nat, nat)>)
    requires PairsBelow(pairs, U16) && pos + 4 * |pairs| <= |code| && code[pos..pos + 4 * |pairs|] == PutPairs16(pairs)
    ensures GetPairs16(code, pos, |pairs|) == pairs
    decreases pairs
  {
    hide PutU16, GetU16;
    if pairs != [] {
      var s, a, b, t := PutPairs16(pairs), PutU16(pairs[0].0), PutU16(pairs[0].1), PutPairs16(pairs[1..]);
      assert s == a + b + t;
      SliceOfSlice(code, pos, s, 0, 2);
      SliceOfSlice(code, pos, s, 2, 4);
      SliceOfSlice(code, pos, s, 4, |s|);
      assert s[0..2] == a && s[2..4] == b && s[4..|s|] == t;
      U16RoundTrip(code, pos, pairs[0].0);
      U16RoundTrip(code, pos + 2, pairs[0].1);
      Pairs16RoundTrip(code, pos + 4, pairs[1..]);
    }
  }

  lemma {:induction false} Pairs32RoundTrip(code: seq<Byte>, pos: nat, pairs: seq<(nat, nat)>)
    requires PairsBelow(pairs, U32) && pos + 8 * |pairs| <= |code| && code[pos..pos + 8 * |pairs|] == PutPairs32(pairs)
    ensures GetPairs32(code, pos, |pairs|) == pairs
    decreases pairs
  {
    hide PutU32, GetU32;
    if pairs != [] {
      var s, a, b, t := PutPairs32(pairs), PutU32(pairs[0].0), PutU32(pairs[0].1), PutPairs32(pairs[1..]);
      assert s == a + b + t;
      SliceOfSlice(code, pos, s, 0, 4);
      SliceOfSlice(code, pos, s, 4, 8);
      SliceOfSlice(code, pos, s, 8, |s|);
      assert s[0..4] == a && s[4..8] == b && s[8..|s|] == t;
      U32RoundTrip(code, pos, pairs[0].0);
      U32RoundTrip(code, pos + 4, pairs[0].1);
      Pairs32RoundTrip(code, pos + 8, pairs[1..]);
    }
  }

  // ---------- instructions ----------

  function PrimOpcode(p: Prim): (op: Byte) {
    match p
    case Char(_) => 1
    case Char32(_) => 2
    case Dot => 3
    case Any => 4
    case LineStart => 5
    case LineEnd => 6
    case SaveStart(_) => 11
    case SaveEnd(_) => 12
    case SaveReset(_, _) => 13
    case WordBoundary => 17
    case NotWordBoundary => 18
    case BackReference(_) => 19
    case BackwardBackReference(_) => 20
    case Range(_) => 21
    case Range32(_) => 22
    case Prev => 27
  }

  function PrimOperands(p: Prim): (s: seq<Byte>) {
    match p
    case Char(c) => PutU16(c)
    case Char32(c) => PutU32(c)
    case SaveStart(k) => [k % 256]
    case SaveEnd(k) => [k % 256]
    case SaveReset(first, last) => [first % 256, last % 256]
    case BackReference(k) => [k % 256]
    case BackwardBackReference(k) => [k % 256]
    case Range(pairs) => PutU16(|pairs|) + PutPairs16(pairs)
    case Range32(pairs) => PutU16(|pairs|) + PutPairs32(pairs)
    case _ => []
  }

  /** Operands that their field can hold. */
  predicate ValidPrim(p: Prim) {
    match p
    case Char(c) => c < U16
    case Char32(c) => c < U32
    case SaveStart(k) => k < 256
    case SaveEnd(k) => k < 256
    case SaveReset(first, last) => first < 256 && last < 256
    case BackReference(k) => k < 256
    case BackwardBackReference(k) => k < 256
    case Range(pairs) => 1 <= |pairs| < U16 && PairsBelow(pairs, U16)
    case Range32(pairs) => 1 <= |pairs| < U16 && PairsBelow(pairs, U32)
    case _ => true
  }

  function Encode(i: Instr): (s: seq<Byte>)
    ensures |s| >= 1
  {
    match i
    case Do(p) => [PrimOpcode(p)] + PrimOperands(p)
    case Goto(off) => [7] + PutI32(off)
    case SplitGotoFirst(off) => [8] + PutI32(off)
    case SplitNextFirst(off) => [9] + PutI32(off)
    case Match => [10]
    case Loop(off) => [14] + PutI32(off)
    case PushI32(v) => [15] + PutU32(v)
    case Drop => [16]
    case Lookahead(off) => [23] + PutI32(off)
    case NegativeLookahead(off) => [24] + PutI32(off)
    case PushCharPos => [25]
    case BneCharPos(off) => [26] + PutI32(off)
    case SimpleGreedyQuant(next, min, max, count) => [28] + PutI32(next) + PutU32(min) + PutU32(max) + PutU32(count)
  }

  predicate ValidInstr(i: Instr) {
    match i
    case Do(p) => ValidPrim(p)
    case PushI32(v) => v < U32
    case SimpleGreedyQuant(next, min, max, count) => IsI32(next) && min < U32 && max < U32 && count < U32
    case Match => true
    case Drop => true
    case PushCharPos => true
    case _ => IsI32(i.off)
  }

  /** Bytes an instruction occupies. */
  function Size(i: Instr): (n: nat)
    ensures n >= 1 && n == |Encode(i)|
  {
    |Encode(i)|
  }

  /** Instructions with a four-byte operand. */
  predicate IsFiveBytes(i: Instr) {
    i.Goto? || i.SplitGotoFirst? || i.SplitNextFirst? || i.Loop? || i.PushI32? || i.Lookahead? || i.NegativeLookahead?
       || i.BneCharPos?
  }

  lemma {:induction false} FiveBytes(i: Instr)
    requires IsFiveBytes(i)
    ensures Size(i) == 5
  {
  }

  lemma {:induction false} OneByte(i: Instr)
    requires i.Match? || i.Drop? || i.PushCharPos?
    ensures Size(i) == 1
  {
  }

  // ---------- fetching ----------

  datatype Fetched = Got(i: Instr, next: nat) | Bad

  function FetchPrim(code: seq<Byte>, pc: nat): (f: Fetched)
    requires pc < |code|
  {
    var op, left := code[pc], |code| - pc;
    if op == 1 then (if left < 3 then Bad else Got(Do(Char(GetU16(code, pc + 1))), pc + 3))
    else if op == 2 then (if left < 5 then Bad else Got(Do(Char32(GetU32(code, pc + 1))), pc + 5))
    else if op == 3 then Got(Do(Dot), pc + 1)
    else if op == 4 then Got(Do(Any), pc + 1)
    else if op == 5 then Got(Do(LineStart), pc + 1)
    else if op == 6 then Got(Do(LineEnd), pc + 1)
    else if op == 11 then (if left < 2 then Bad else Got(Do(SaveStart(code[pc + 1])), pc + 2))
    else if op == 12 then (if left < 2 then Bad else Got(Do(SaveEnd(code[pc + 1])), pc + 2))
    else if op == 13 then (if left < 3 then Bad else Got(Do(SaveReset(code[pc + 1], code[pc + 2])), pc + 3))
    else if op == 17 then Got(Do(WordBoundary), pc + 1)
    else if op == 18 then Got(Do(NotWordBoundary), pc + 1)
    else if op == 19 then (if left < 2 then Bad else Got(Do(BackReference(code[pc + 1])), pc + 2))
    else if op == 20 then (if left < 2 then Bad else Got(Do(BackwardBackReference(code[pc + 1])), pc + 2))
    else if op == 21 then
      if left < 3 || left < 3 + 4 * GetU16(code, pc + 1) then Bad
      else var n := GetU16(code, pc + 1); Got(Do(Range(GetPairs16(code, pc + 3, n))), pc + 3 + 4 * n)
    else if op == 22 then
      if left < 3 || left < 3 + 8 * GetU16(code, pc + 1) then Bad
      else var n := GetU16(code, pc + 1); Got(Do(Range32(GetPairs32(code, pc + 3, n))), pc + 3 + 8 * n)
    else if op == 27 then Got(Do(Prev), pc + 1)
    else Bad
  }

  /** The instruction at `pc` and the position after it. */
  function Fetch(code: seq<Byte>, pc: nat): (f: Fetched) {
    if pc >= |code| then Bad
    else
      var op, left := code[pc], |code| - pc;
      if op == 10 then Got(Match, pc + 1)
      else if op == 16 then Got(Drop, pc + 1)
      else if op == 25 then Got(PushCharPos, pc + 1)
      else if op == 7 || op == 8 || op == 9 || op == 14 || op == 15 || op == 23 || op == 24 || op == 26 then
        if left < 5 then Bad
        else
          var v := GetI32(code, pc + 1);
          Got(if op == 7 then Goto(v) else if op == 8 then SplitGotoFirst(v) else if op == 9 then SplitNextFirst(v)
              else if op == 14 then Loop(v) else if op == 15 then PushI32(GetU32(code, pc + 1))
              else if op == 23 then Lookahead(v) else if op == 24 then NegativeLookahead(v) else BneCharPos(v), pc + 5)
      else if op == 28 then
        if left < 17 then Bad
        else Got(SimpleGreedyQuant(GetI32(code, pc + 1), GetU32(code, pc + 5), GetU32(code, pc + 9),
                                   GetU32(code, pc + 13)), pc + 17)
      else FetchPrim(code, pc)
  }

  /** The bytes of `i` stand at `pc`. */
  predicate Stands(code: seq<Byte>, pc: nat, i: Instr) {
    pc + Size(i) <= |code| && code[pc..pc + Size(i)] == Encode(i)
  }

  lemma {:induction false} SliceOfSlice(code: seq<Byte>, pc: nat, s: seq<Byte>, a: nat, b: nat)
    requires pc + |s| <= |code| && code[pc..pc + |s|] == s && a <= b <= |s|
    ensures code[pc + a..pc + b] == s[a..b]
    ensures a < |s| ==> code[pc + a] == s[a]
  {
    var t := code[pc..pc + |s|];
    forall k | 0 <= k < |s|
      ensures code[pc + k] == s[k]
    {
      assert t[k] == code[pc + k];
    }
    var l, r := code[pc + a..pc + b], s[a..b];
    assert |l| == |r| && forall k :: 0 <= k < |l| ==> l[k] == code[pc + (a + k)] == s[a + k] == r[k];
  }

  /** The operands of an instruction that stands at `pc`. */
  lemma {:induction false} OperandsStand(code: seq<Byte>, pc: nat, i: Instr, op: Byte, args: seq<Byte>)
    requires Stands(code, pc, i) && Encode(i) == [op] + args
    ensures Size(i) == 1 + |args| && pc + 1 + |args| <= |code| && code[pc] == op
            && code[pc + 1..pc + 1 + |args|] == args
  {
    hide Encode;
    var e := Encode(i);
    SliceOfSlice(code, pc, e, 0, 1);
    SliceOfSlice(code, pc, e, 1, 1 + |args|);
    assert e[1..1 + |args|] == args;
  }

  lemma {:induction false} ArgAt(code: seq<Byte>, pos: nat, args: seq<Byte>, k: nat)
    requires pos + |args| <= |code| && code[pos..pos + |args|] == args && k < |args|
    ensures code[pos + k] == args[k]
  {
    SliceOfSlice(code, pos, args, k, k);
  }

  lemma {:induction false} RangeOperands(code: seq<Byte>, pos: nat, pairs: seq<(nat, nat)>)
    requires |pairs| < U16 && PairsBelow(pairs, U16)
    requires pos + 2 + 4 * |pairs| <= |code| && code[pos..pos + 2 + 4 * |pairs|] == PutU16(|pairs|) + PutPairs16(pairs)
    ensures GetU16(code, pos) == |pairs| && GetPairs16(code, pos + 2, |pairs|) == pairs
  {
    hide PutU16, PutPairs16, GetPairs16, GetU16, PairsBelow;
    var s := PutU16(|pairs|) + PutPairs16(pairs);
    SliceOfSlice(code, pos, s, 0, 2);
    SliceOfSlice(code, pos, s, 2, |s|);
    assert s[0..2] == PutU16(|pairs|) && s[2..|s|] == PutPairs16(pairs);
    U16RoundTrip(code, pos, |pairs|);
    Pairs16RoundTrip(code, pos + 2, pairs);
  }

  lemma {:induction false} Range32Operands(code: seq<Byte>, pos: nat, pairs: seq<(nat, nat)>)
    requires |pairs| < U16 && PairsBelow(pairs, U32)
    requires pos + 2 + 8 * |pairs| <= |code| && code[pos..pos + 2 + 8 * |pairs|] == PutU16(|pairs|) + PutPairs32(pairs)
    ensures GetU16(code, pos) == |pairs| && GetPairs32(code, pos + 2, |pairs|) == pairs
  {
    hide PutU16, PutPairs32, GetPairs32, GetU16, PairsBelow;
    var s := PutU16(|pairs|) + PutPairs32(pairs);
    SliceOfSlice(code, pos, s, 0, 2);
    SliceOfSlice(code, pos, s, 2, |s|);
    assert s[0..2] == PutU16(|pairs|) && s[2..|s|] == PutPairs32(pairs);
    U16RoundTrip(code, pos, |pairs|);
    Pairs32RoundTrip(code, pos + 2, pairs);
  }

  /** Operands of several bytes. */
  lemma {:induction false} FetchWideStands(code: seq<Byte>, pc: nat, p: Prim)
    requires Stands(code, pc, Do(p)) && ValidPrim(p) && (p.Char? || p.Char32? || p.Range? || p.Range32?)
    ensures Fetch(code, pc) == Got(Do(p), pc + Size(Do(p)))
  {
    hide PutU16, PutU32, PutPairs16, PutPairs32, GetPairs16, GetPairs32, GetU16, GetU32, PairsBelow;
    OperandsStand(code, pc, Do(p), PrimOpcode(p), PrimOperands(p));
    match p
    case Char(c) => U16RoundTrip(code, pc + 1, c);
    case Char32(c) => U32RoundTrip(code, pc + 1, c);
    case Range(pairs) => RangeOperands(code, pc + 1, pairs);
    case Range32(pairs) => Range32Operands(code, pc + 1, pairs);
  }

  lemma {:induction false} FetchPrimStands(code: seq<Byte>, pc: nat, p: Prim)
    requires Stands(code, pc, Do(p)) && ValidPrim(p)
    ensures Fetch(code, pc) == Got(Do(p), pc + Size(Do(p)))
  {
    hide PutU16, PutU32, PutPairs16, PutPairs32, GetPairs16, GetPairs32, GetU16, GetU32, PairsBelow;
    var args := PrimOperands(p);
    if p.Char? || p.Char32? || p.Range? || p.Range32? {
      FetchWideStands(code, pc, p);
    } else {
      OperandsStand(code, pc, Do(p), PrimOpcode(p), args);
      if |args| > 0 { ArgAt(code, pc + 1, args, 0); }
      if |args| > 1 { ArgAt(code, pc + 1, args, 1); }
    }
  }

  /** Fetching undoes encoding. */
  lemma {:induction false} FetchStands(code: seq<Byte>, pc: nat, i: Instr)
    requires Stands(code, pc, i) && ValidInstr(i)
    ensures Fetch(code, pc) == Got(i, pc + Size(i))
  {
    hide PutU32, PutI32, GetI32, GetU32, FetchPrim, PrimOperands, ValidPrim;
    var e := Encode(i);
    if i.Do? {
      FetchPrimStands(code, pc, i.p);
    } else {
      if i.SimpleGreedyQuant? {
        FetchQuantStands(code, pc, i);
      } else if i.Match? || i.Drop? || i.PushCharPos? {
        OperandsStand(code, pc, i, e[0], []);
      } else {
        FetchJumpStands(code, pc, i);
      }
    }
  }

  /** One four-byte operand. */
  lemma {:induction false} FetchJumpStands(code: seq<Byte>, pc: nat, i: Instr)
    requires Stands(code, pc, i) && ValidInstr(i) && IsFiveBytes(i)
    ensures Fetch(code, pc) == Got(i, pc + Size(i))
  {
    hide PutU32, PutI32, GetI32, GetU32, FetchPrim, PrimOperands, ValidPrim;
    var e := Encode(i);
    OperandsStand(code, pc, i, e[0], if i.PushI32? then PutU32(i.v) else PutI32(i.off));
    if i.PushI32? { U32RoundTrip(code, pc + 1, i.v); } else { I32RoundTrip(code, pc + 1, i.off); }
  }

  /** Four four-byte operands. */
  lemma {:induction false} FetchQuantStands(code: seq<Byte>, pc: nat, i: Instr)
    requires Stands(code, pc, i) && ValidInstr(i) && i.SimpleGreedyQuant?
    ensures Fetch(code, pc) == Got(i, pc + Size(i))
  {
    hide PutU32, PutI32, GetI32, GetU32, FetchPrim, PrimOperands, ValidPrim;
    OperandsStand(code, pc, i, 28, PutI32(i.next) + PutU32(i.min) + PutU32(i.max) + PutU32(i.count));
    QuantOperands(code, pc + 1, i.next, i.min, i.max, i.count);
  }

  lemma {:induction false} QuantOperands(code: seq<Byte>, pos: nat, next: int, min: nat, max: nat, count: nat)
    requires IsI32(next) && min < U32 && max < U32 && count < U32
    requires pos + 16 <= |code| && code[pos..pos + 16] == PutI32(next) + PutU32(min) + PutU32(max) + PutU32(count)
    ensures GetI32(code, pos) == next && GetU32(code, pos + 4) == min && GetU32(code, pos + 8) == max
            && GetU32(code, pos + 12) == count
  {
    hide PutU32, PutI32, GetI32, GetU32;
    var s := PutI32(next) + PutU32(min) + PutU32(max) + PutU32(count);
    SliceOfSlice(code, pos, s, 0, 4);
    SliceOfSlice(code, pos, s, 4, 8);
    SliceOfSlice(code, pos, s, 8, 12);
    SliceOfSlice(code, pos, s, 12, 16);
    assert s[0..4] == PutI32(next) && s[4..8] == PutU32(min) && s[8..12] == PutU32(max) && s[12..16] == PutU32(count);
    I32RoundTrip(code, pos, next);
    U32RoundTrip(code, pos + 4, min);
    U32RoundTrip(code, pos + 8, max);
    U32RoundTrip(code, pos + 12, count);
  }

  // ---------- sequences of instructions ----------

  function EncodeAll(prog: seq<Instr>): (s: seq<Byte>)
  {
    if prog == [] then [] else Encode(prog[0]) + EncodeAll(prog[1..])
  }

  function SizeAll(prog: seq<Instr>): (n: nat)
    ensures n == |EncodeAll(prog)|
  {
    |EncodeAll(prog)|
  }

  lemma {:induction false} EncodeConcat(a: seq<Instr>, b: seq<Instr>)
    ensures EncodeAll(a + b) == EncodeAll(a) + EncodeAll(b) && SizeAll(a + b) == SizeAll(a) + SizeAll(b)
  {
    hide Encode;
    if a == [] {
      assert a + b == b;
    } else {
      EncodeConcat(a[1..], b);
      assert (a + b)[1..] == a[1..] + b;
    }
  }

  lemma {:induction false} EncodeOne(i: Instr)
    ensures EncodeAll([i]) == Encode(i) && SizeAll([i]) == Size(i)
  {
    assert EncodeAll([]) == [];
    assert [i][1..] == [];
  }

  /** The bytes of `prog` stand at `pc`. */
  predicate Has(code: seq<Byte>, pc: nat, prog: seq<Instr>) {
    pc + SizeAll(prog) <= |code| && code[pc..pc + SizeAll(prog)] == EncodeAll(prog)
  }

  lemma {:induction false} HasSplit(code: seq<Byte>, pc: nat, a: seq<Instr>, b: seq<Instr>)
    requires Has(code, pc, a + b)
    ensures Has(code, pc, a) && Has(code, pc + SizeAll(a), b)
    ensures SizeAll(a + b) == SizeAll(a) + SizeAll(b)
  {
    hide EncodeAll;
    EncodeConcat(a, b);
    var s, m := EncodeAll(a + b), SizeAll(a);
    SliceOfSlice(code, pc, s, 0, m);
    SliceOfSlice(code, pc, s, m, |s|);
    assert s[0..m] == EncodeAll(a) && s[m..|s|] == EncodeAll(b);
  }

  lemma {:induction false} HasFirst(code: seq<Byte>, pc: nat, i: Instr, rest: seq<Instr>)
    requires Has(code, pc, [i] + rest) && ValidInstr(i)
    ensures Fetch(code, pc) == Got(i, pc + Size(i)) && Has(code, pc + Size(i), rest)
    ensures SizeAll([i] + rest) == Size(i) + SizeAll(rest)
  {
    hide Encode, EncodeAll, Fetch, ValidInstr;
    HasSplit(code, pc, [i], rest);
    EncodeOne(i);
    FetchStands(code, pc, i);
  }
}
