/** The text a regular expression runs over, and what the single instructions do to a position and the captures. */
module RegexpText {
  import opened RegexpCode

  /** A captured position, or none. */
  datatype Mark = NoMark | MarkAt(pos: nat)

  /** The text as code units; in `utf16` mode surrogate pairs are one character. */
  datatype Text = Text(units: seq<nat>, utf16: bool, multiLine: bool, ignoreCase: bool, canon: nat -> nat)

  /** A position with the captures made so far: start and end of group `k` at `2 k` and `2 k + 1`. */
  datatype Place = Place(pos: nat, caps: seq<Mark>)

  // ---------- characters ----------

  predicate IsHigh(c: nat) { 0xd800 <= c < 0xdc00 }
  predicate IsLow(c: nat) { 0xdc00 <= c < 0xe000 }

  function Pair(high: nat, low: nat): (c: nat) { (high % 0x400) * 0x400 + low % 0x400 + 0x1_0000 }

  function UnitAt(t: Text, pos: int): (c: nat) {
    if 0 <= pos < |t.units| then t.units[pos] else 0
  }

  /** A high surrogate at `pos` is followed by a low one. */
  predicate PairAt(t: Text, pos: int) {
    t.utf16 && IsHigh(UnitAt(t, pos)) && IsLow(UnitAt(t, pos + 1))
  }

  /** Reads the character at `pos`; a pair must end before `limit`. */
  function GetChar(t: Text, pos: nat, limit: nat): (r: (nat, nat))
    ensures pos < r.1 <= pos + 2 && (pos < limit ==> r.1 <= limit)
  {
    if pos + 1 < limit && PairAt(t, pos) then (Pair(UnitAt(t, pos), UnitAt(t, pos + 1)), pos + 2)
    else (UnitAt(t, pos), pos + 1)
  }

  /** Reads the character before `pos`; a pair must not start before `start`. */
  function GetPrevChar(t: Text, pos: nat, start: nat): (r: (nat, nat))
    requires pos > 0
    ensures r.1 < pos <= r.1 + 2 && (start < pos ==> start <= r.1)
  {
    if pos - 1 > start && PairAt(t, pos - 2) then (Pair(UnitAt(t, pos - 2), UnitAt(t, pos - 1)), pos - 2)
    else (UnitAt(t, pos - 1), pos - 1)
  }

  function Fold(t: Text, c: nat): (r: nat) { if t.ignoreCase then t.canon(c) else c }

  predicate IsLineTerminator(c: nat) { c == 0x0a || c == 0x0d || c == 0x2028 || c == 0x2029 }

  predicate IsWordChar(c: nat) {
    0x30 <= c <= 0x39 || 0x61 <= c <= 0x7a || 0x41 <= c <= 0x5a || c == 0x5f
  }

  // ---------- character sets ----------

  /** Binary search among the pairs `lo .. hi`. */
  predicate FindPair(pairs: seq<(nat, nat)>, c: nat, lo: nat, hi: int)
    requires hi < |pairs|
    decreases hi - lo
  {
    if lo > hi then false
    else
      var idx := (lo + hi) / 2;
      if c < pairs[idx].0 then FindPair(pairs, c, lo, idx - 1)
      else if c > pairs[idx].1 then FindPair(pairs, c, idx + 1, hi)
      else true
  }

  predicate InPairs32(pairs: seq<(nat, nat)>, c: nat) {
    pairs != [] && pairs[0].0 <= c <= pairs[|pairs| - 1].1 && FindPair(pairs, c, 0, |pairs| - 1)
  }

  /** With 16-bit pairs, 0xffff as the last bound stands for everything above. */
  predicate InPairs16(pairs: seq<(nat, nat)>, c: nat) {
    && pairs != [] && pairs[0].0 <= c
    && ((c >= 0xffff && pairs[|pairs| - 1].1 == 0xffff) || InPairs32(pairs, c))
  }

  // ---------- single instructions ----------

  datatype Motion = Stop | Go(s: Place)

  /** Instructions that move over one character. */
  predicate Consumes(p: Prim) { p.Char? || p.Char32? || p.Dot? || p.Any? || p.Range? || p.Range32? }

  predicate Accepts(t: Text, p: Prim, c: nat)
    requires Consumes(p)
  {
    match p
    case Char(d) => d == Fold(t, c)
    case Char32(d) => d == Fold(t, c)
    case Dot => !IsLineTerminator(c)
    case Any => true
    case Range(pairs) => InPairs16(pairs, Fold(t, c))
    case Range32(pairs) => InPairs32(pairs, Fold(t, c))
  }

  function Consume(t: Text, p: Prim, s: Place): (r: Motion)
    requires Consumes(p)
  {
    if s.pos >= |t.units| then Stop
    else
      var (c, next) := GetChar(t, s.pos, |t.units|);
      if Accepts(t, p, c) then Go(s.(pos := next)) else Stop
  }

  function PrevPos(t: Text, pos: nat): (r: nat)
    requires pos > 0
    ensures r < pos
  {
    GetPrevChar(t, pos, 0).1
  }

  predicate WordBefore(t: Text, pos: nat) { pos > 0 && IsWordChar(GetPrevChar(t, pos, 0).0) }

  predicate WordAfter(t: Text, pos: nat) { pos < |t.units| && IsWordChar(GetChar(t, pos, |t.units|).0) }

  /** Forgets the captures `first .. last`. */
  function ResetCaptures(caps: seq<Mark>, first: nat, last: nat): (r: seq<Mark>)
    ensures |r| == |caps|
  {
    seq(|caps|, i requires 0 <= i < |caps| => if 2 * first <= i <= 2 * last + 1 then NoMark else caps[i])
  }

  /** Matches the captured text `start .. end` again, reading forward. */
  function Repeat(t: Text, start: nat, end: nat, pos: nat): (r: Mark)
    ensures r.MarkAt? ==> r.pos >= pos && (pos <= |t.units| ==> r.pos <= |t.units|)
    decreases if start <= end then end - start else 0
  {
    if start >= end then MarkAt(pos)
    else if pos >= |t.units| then NoMark
    else
      var (c1, start') := GetChar(t, start, end);
      var (c2, pos') := GetChar(t, pos, |t.units|);
      if Fold(t, c1) == Fold(t, c2) then Repeat(t, start', end, pos') else NoMark
  }

  /** The same, reading backward. */
  function RepeatBackward(t: Text, start: nat, end: nat, pos: nat): (r: Mark)
    ensures r.MarkAt? ==> r.pos <= pos
    decreases end
  {
    if end <= start then MarkAt(pos)
    else if pos == 0 then NoMark
    else
      var (c1, end') := GetPrevChar(t, end, start);
      var (c2, pos') := GetPrevChar(t, pos, 0);
      if Fold(t, c1) == Fold(t, c2) then RepeatBackward(t, start, end', pos') else NoMark
  }

  function BackRef(t: Text, s: Place, k: nat, backward: bool): (r: Motion) {
    if 2 * k + 1 >= |s.caps| then Stop
    else
      var a, b := s.caps[2 * k], s.caps[2 * k + 1];
      if a.NoMark? || b.NoMark? then Go(s)
      else
        var m := if backward then RepeatBackward(t, a.pos, b.pos, s.pos) else Repeat(t, a.pos, b.pos, s.pos);
        if m.MarkAt? then Go(s.(pos := m.pos)) else Stop
  }

  /** The captures an instruction names exist. */
  predicate CapturesFit(p: Prim, n: nat) {
    match p
    case SaveStart(k) => 2 * k + 1 < n
    case SaveEnd(k) => 2 * k + 1 < n
    case SaveReset(first, last) => 2 * last + 1 < n
    case _ => true
  }

  function Perform(t: Text, p: Prim, s: Place): (r: Motion)
    requires CapturesFit(p, |s.caps|)
    ensures r.Go? ==> |r.s.caps| == |s.caps|
  {
    if Consumes(p) then Consume(t, p, s)
    else match p
    case LineStart =>
      if s.pos == 0 || (t.multiLine && IsLineTerminator(GetPrevChar(t, s.pos, 0).0)) then Go(s) else Stop
    case LineEnd =>
      if s.pos == |t.units| || (t.multiLine && IsLineTerminator(GetChar(t, s.pos, |t.units|).0)) then Go(s) else Stop
    case WordBoundary => if WordBefore(t, s.pos) != WordAfter(t, s.pos) then Go(s) else Stop
    case NotWordBoundary => if WordBefore(t, s.pos) == WordAfter(t, s.pos) then Go(s) else Stop
    case SaveStart(k) => Go(s.(caps := s.caps[2 * k := MarkAt(s.pos)]))
    case SaveEnd(k) => Go(s.(caps := s.caps[2 * k + 1 := MarkAt(s.pos)]))
    case SaveReset(first, last) => Go(s.(caps := ResetCaptures(s.caps, first, last)))
    case BackReference(k) => BackRef(t, s, k, false)
    case BackwardBackReference(k) => BackRef(t, s, k, true)
    case Prev => if s.pos == 0 then Stop else Go(s.(pos := PrevPos(t, s.pos)))
  }
}
