/**
 * What the method writeStateMachine generates does when it runs
 * (AbstractParserGenerator.java:781-1052 with invokeState, :1075-1200):
 * it matches one token (a verb, a version or a header name) against the
 * trie of known tokens, byte by byte, from a ByteBuffer, and can stop at
 * any byte and resume on the next buffer from what it wrote into the
 * ParseState.  A byte that leaves the trie sends it to the "no state" loop,
 * which collects the token in the state's StringBuilder; a node whose
 * single-child chain ends in a leaf is matched by the prefix loop against
 * that leaf's bytes.
 *
 * Drive is the matcher as a function of the bytes still to be read; the
 * method RunMatcher is the generated loop, proved to compute it.
 */
module TokenMatcher {
  import opened Octets
  import opened ParserTrie
  import opened ParseStates

  /** Where the generated code is: in a trie state's code, in the prefix loop, or in the no-state loop. */
  datatype Mode = AtNode(n: nat) | Prefix | NoState

  /** The tableswitch slot of the no-state loop; the source's mismatch paths store INITIAL, read here as this slot. */
  const NoStateNumber: int := -1

  /**
   * The locals of the generated method (the current state number, pos,
   * current and currentBytes) together with the two ParseState fields it
   * changes in place as it goes: the StringBuilder and leftOver.
   */
  datatype Cursor = Cursor(mode: Mode, stateVar: int, pos: int, current: Option<string>,
                           currentBytes: Option<seq<int>>, builder: string, leftOver: int)

  /** A finished token: its bytes, and whether it is the static HttpString of a trie state or a new one. */
  datatype Token = Token(bytes: seq<Byte>, interned: bool)

  /** RuntimeException("Invalid character") from the tableswitch, and IllegalArgumentException from new HttpString(String). */
  datatype MatchError = InvalidState | IllegalChar

  datatype Outcome = Incomplete | Complete(token: Token, terminator: int) | RequestDone | Failed(error: MatchError)

  /** Which return path ends the call: returnIncomplete, the no-state loop's own exit, returnComplete, or none. */
  datatype WriteBack = WriteCursor | WriteStateOnly | ResetCursor | NoWrite

  datatype Step = Continue(c: Cursor) | Finish(c: Cursor, write: WriteBack, outcome: Outcome)

  datatype Stop = Stop(c: Cursor, used: nat, write: WriteBack, outcome: Outcome)

  /** SP, HT, CR and LF end a token; ':' ends one only in the header machine. */
  predicate IsTerminator(header: bool, x: int) {
    x == ' ' as int || x == '\t' as int || x == '\r' as int || x == '\n' as int || (header && x == ':' as int)
  }

  function UnsignedBytes(xs: seq<int>): (r: seq<Byte>)
    ensures |r| == |xs|
    ensures forall i :: 0 <= i < |xs| ==> r[i] == Unsigned(xs[i])
  {
    seq(|xs|, i requires 0 <= i < |xs| => Unsigned(xs[i]))
  }

  /** terminalState.getBytes("ISO-8859-1") as Java bytes: a char above 0xFF is encoded as '?'. */
  function IsoBytes(t: string): (r: seq<int>)
    ensures |r| == |t|
    ensures forall i :: 0 <= i < |t| ==> r[i] == JavaByte(if t[i] as int <= 0xFF then t[i] as int else '?' as int)
  {
    seq(|t|, i requires 0 <= i < |t| => JavaByte(if t[i] as int <= 0xFF then t[i] as int else '?' as int))
  }

  /** The three tables of a built machine have one entry per node. */
  predicate Shaped(m: Machine) {
    |m.nodes| > 0 && |m.stateno| == |m.nodes| && |m.terminal| == |m.nodes|
  }

  predicate ModeOk(m: Machine, mode: Mode) {
    mode.AtNode? ==> mode.n < |m.nodes|
  }

  /** The text of a state's static HttpString: the terminal string of a prefix state, otherwise what it spells. */
  function NameOf(m: Machine, n: nat): string
    requires Shaped(m) && n < |m.nodes|
  {
    if m.terminal[n].Some? then m.terminal[n].value else m.nodes[n].soFar
  }

  /** The byte x appended to the StringBuilder with append((char) x). */
  function AppendByte(s: string, x: int): string {
    s + [SignExtendedChar(Unsigned(x))]
  }

  /**
   * The code invokeState emits for trie state n on the byte x: follow a
   * child (into the prefix loop when the child is PREFIX_MATCH), finish the
   * token at a terminator, skip a terminator before any token byte (the
   * header machine ends the request head on such an LF), or fall into the
   * no-state loop with the text so far (AbstractParserGenerator.java:1077-1203).
   */
  function NodeByte(m: Machine, header: bool, c: Cursor, n: nat, x: int): (s: Step)
    requires Shaped(m) && n < |m.nodes|
    ensures s.Continue? ==> ModeOk(m, s.c.mode) && s.c.leftOver == c.leftOver
    ensures s.Finish? ==> s.c == c && (s.outcome.Complete? || s.outcome.RequestDone?)
  {
    var child := Next(m.nodes, n, x);
    if child.Some? then
      var ch := child.value;
      if m.stateno[ch] < 0 then
        var t := NameOf(m, ch);
        Continue(c.(mode := Prefix, stateVar := m.stateno[ch], current := Some(t),
                    currentBytes := Some(IsoBytes(t)), pos := |m.nodes[ch].soFar|))
      else
        Continue(c.(mode := AtNode(ch), stateVar := m.stateno[ch]))
    else if IsTerminator(header, x) then
      if m.nodes[n].soFar != "" then
        Finish(c, ResetCursor, Complete(Token(LowBytes(NameOf(m, n)), true), x))
      else if header && x == '\n' as int then
        Finish(c, NoWrite, RequestDone)
      else
        Continue(c.(mode := AtNode(0)))
    else
      Continue(c.(mode := NoState, stateVar := NoStateNumber, builder := AppendByte(c.builder + m.nodes[n].soFar, x)))
  }

  /** The prefix loop holds the interned token and its bytes, and pos lies within them. */
  predicate PrefixOk(c: Cursor) {
    c.current.Some? && c.currentBytes.Some? && |c.currentBytes.value| == |c.current.value|
    && 0 <= c.pos <= |c.currentBytes.value|
  }

  /**
   * One round of the prefix loop (AbstractParserGenerator.java:877-977): a
   * terminator finishes the token, as the interned HttpString when all its
   * bytes were seen and as a new HttpString of the bytes seen otherwise; the
   * next expected byte advances pos; anything else, or a byte past the end,
   * falls into the no-state loop with the prefix matched so far.
   */
  function PrefixByte(header: bool, c: Cursor, x: int): (s: Step)
    requires c.mode == Prefix && PrefixOk(c)
    ensures s.Continue? ==> s.c.leftOver == c.leftOver && !s.c.mode.AtNode?
    ensures s.Finish? ==> s.outcome.Complete?
  {
    var cb := c.currentBytes.value;
    if IsTerminator(header, x) then
      if |cb| != c.pos then
        Finish(c.(stateVar := 0), ResetCursor, Complete(Token(UnsignedBytes(cb[..c.pos]), false), x))
      else
        Finish(c.(stateVar := 0), ResetCursor, Complete(Token(LowBytes(c.current.value), true), x))
    else if |cb| == c.pos || x != cb[c.pos] then
      Continue(c.(mode := NoState, stateVar := NoStateNumber, builder := AppendByte(c.builder + c.current.value[..c.pos], x)))
    else
      Continue(c.(pos := c.pos + 1))
  }

  /**
   * One round of the no-state loop (AbstractParserGenerator.java:978-1033):
   * a terminator finishes the token as new HttpString(builder.toString()),
   * which rejects a char above 0xFF; any other byte is appended, and when it
   * was the last byte of the buffer only parseState is written back.
   */
  function NoStateByte(header: bool, c: Cursor, x: int, last: bool): (s: Step)
    ensures s.Continue? ==> s.c.leftOver == c.leftOver && s.c.mode == c.mode
    ensures s.Finish? && s.write == WriteStateOnly ==> s.outcome.Incomplete?
  {
    if IsTerminator(header, x) then
      if IsLatin1(c.builder) then Finish(c, ResetCursor, Complete(Token(LowBytes(c.builder), false), x))
      else Finish(c, NoWrite, Failed(IllegalChar))
    else if last then
      Finish(c.(builder := AppendByte(c.builder, x)), WriteStateOnly, Incomplete)
    else
      Continue(c.(builder := AppendByte(c.builder, x)))
  }

  function Shift(s: Stop, k: nat): Stop {
    s.(used := s.used + k)
  }

  /** What one round of the generated code does, and how many buffer bytes it reads (none for a leftOver byte). */
  datatype Move = Move(step: Step, consumed: nat)

  /**
   * One round of the generated code at the cursor c with `rest` in the
   * buffer: at the initial state a pending leftOver byte is taken (and
   * cleared) before the buffer; every other round first checks that a byte
   * remains and otherwise returns through returnIncomplete.
   */
  function StepOn(m: Machine, header: bool, c: Cursor, rest: seq<Byte>): (mv: Move)
    requires Shaped(m) && ModeOk(m, c.mode)
    ensures mv.consumed <= |rest| && mv.consumed <= 1
    ensures ModeOk(m, mv.step.c.mode)
    ensures mv.step.Continue? ==> mv.consumed == 1 || (c.leftOver != 0 && mv.step.c.leftOver == 0)
    ensures mv.step.Finish? && mv.step.outcome.Incomplete? ==> mv.consumed == |rest|
    ensures mv.step.Finish? && mv.step.outcome.Incomplete? ==>
      mv.step.write == WriteCursor || (mv.step.write == WriteStateOnly && mv.step.c.mode == NoState)
    ensures mv.step.Finish? && mv.step.outcome.Complete? ==>
      mv.step.write == ResetCursor && IsTerminator(header, mv.step.outcome.terminator)
  {
    match c.mode
    case AtNode(n) =>
      if n == 0 && c.leftOver != 0 then Move(NodeByte(m, header, c.(leftOver := 0), 0, c.leftOver), 0)
      else if |rest| == 0 then Move(Finish(c, WriteCursor, Incomplete), 0)
      else Move(NodeByte(m, header, c, n, Signed(rest[0])), 1)
    case Prefix =>
      if |rest| == 0 then Move(Finish(c, WriteCursor, Incomplete), 0)
      else if !PrefixOk(c) then Move(Finish(c, NoWrite, Failed(InvalidState)), 1)
      else Move(PrefixByte(header, c, Signed(rest[0])), 1)
    case NoState =>
      if |rest| == 0 then Move(Finish(c, WriteCursor, Incomplete), 0)
      else Move(NoStateByte(header, c, Signed(rest[0]), |rest| == 1), 1)
  }

  /**
   * The matcher on the bytes `rest` still in the buffer: the cursor it stops
   * with, how many bytes it read, how it returns and what it produced.
   */
  function Drive(m: Machine, header: bool, c: Cursor, rest: seq<Byte>): (s: Stop)
    requires Shaped(m) && ModeOk(m, c.mode)
    ensures s.used <= |rest| && ModeOk(m, s.c.mode)
    ensures s.outcome.Incomplete? ==> s.used == |rest|
    ensures s.outcome.Incomplete? ==> s.write == WriteCursor || (s.write == WriteStateOnly && s.c.mode == NoState)
    ensures s.outcome.Complete? ==> s.write == ResetCursor && IsTerminator(header, s.outcome.terminator)
    decreases |rest|, if c.leftOver != 0 then 1 else 0
  {
    var mv := StepOn(m, header, c, rest);
    if mv.step.Finish? then Stop(mv.step.c, mv.consumed, mv.step.write, mv.step.outcome)
    else Shift(Drive(m, header, mv.step.c, rest[mv.consumed..]), mv.consumed)
  }

  /** The fields of ParseState the matcher reads and writes. */
  datatype Fields = Fields(parseState: int, pos: int, current: Option<string>,
                           currentBytes: Option<seq<int>>, builder: string, leftOver: int)

  /** The number of the last numbered state, the upper end of the tableswitch. */
  function NoStates(m: Machine): int {
    Rank(m.nodes, |m.nodes|) - 1
  }

  /** The first state carrying number k. */
  function FindNumbered(s: seq<int>, k: int): (r: Option<nat>)
    ensures r.Some? ==> r.value < |s| && s[r.value] == k && forall j :: 0 <= j < r.value ==> s[j] != k
    ensures r.None? ==> forall j :: 0 <= j < |s| ==> s[j] != k
    decreases |s|
  {
    if |s| == 0 then None
    else if s[0] == k then Some(0)
    else
      var r := FindNumbered(s[1..], k);
      if r.Some? then Some(r.value + 1) else None
  }

  /**
   * Where a call starts (AbstractParserGenerator.java:799-835): parseState
   * 0 enters the initial state with pos, current and currentBytes cleared;
   * otherwise those are loaded and parseState selects the prefix loop (-2),
   * the no-state loop (-1) or the state of that number; any other value is
   * the tableswitch default, which throws.
   */
  function Resume(m: Machine, f: Fields): (r: Option<Cursor>)
    requires Shaped(m)
    ensures r.Some? ==> ModeOk(m, r.value.mode) && r.value.builder == f.builder && r.value.leftOver == f.leftOver
  {
    if f.parseState == 0 then Some(Cursor(AtNode(0), 0, 0, None, None, f.builder, f.leftOver))
    else
      var c := Cursor(NoState, f.parseState, f.pos, f.current, f.currentBytes, f.builder, f.leftOver);
      if f.parseState == PrefixMatch then Some(c.(mode := Prefix))
      else if f.parseState == NoStateNumber then Some(c)
      else if 0 < f.parseState <= NoStates(m) then
        var n := FindNumbered(m.stateno, f.parseState);
        if n.Some? then Some(c.(mode := AtNode(n.value))) else None
      else None
  }

  /** The fields after a call that ended as s: what its return path writes, over what was there. */
  function Apply(f: Fields, s: Stop): Fields {
    match s.write
    case WriteCursor => Fields(s.c.stateVar, s.c.pos, s.c.current, s.c.currentBytes, s.c.builder, s.c.leftOver)
    case WriteStateOnly => f.(parseState := s.c.stateVar, builder := s.c.builder, leftOver := s.c.leftOver)
    case ResetCursor => Fields(0, 0, None, None, "", s.c.leftOver)
    case NoWrite => f.(builder := s.c.builder, leftOver := s.c.leftOver)
  }

  datatype Matched = Matched(fields: Fields, used: nat, outcome: Outcome)

  /**
   * One call of the generated method on a buffer holding `rest`: an empty
   * buffer returns at once; otherwise the call resumes where the fields
   * say and runs the matcher.  It reads all the bytes when it suspends, and
   * a finished token leaves pos, current, currentBytes, the builder and
   * parseState cleared.
   */
  function Match(m: Machine, header: bool, f: Fields, rest: seq<Byte>): (r: Matched)
    requires Shaped(m)
    ensures r.used <= |rest|
    ensures r.outcome.Incomplete? ==> r.used == |rest|
    ensures r.outcome.Complete? ==> r.fields == Fields(0, 0, None, None, "", r.fields.leftOver)
    ensures r.outcome.Complete? ==> IsTerminator(header, r.outcome.terminator)
    ensures |rest| == 0 ==> r == Matched(f, 0, Incomplete)
  {
    if |rest| == 0 then Matched(f, 0, Incomplete)
    else
      var c := Resume(m, f);
      if c.None? then Matched(f, 0, Failed(InvalidState))
      else
        var s := Drive(m, header, c.value, rest);
        Matched(Apply(f, s), s.used, s.outcome)
  }

  function FieldsOf(st: ParseState): Fields
    reads st
  {
    Fields(st.parseState, st.pos, st.current, st.currentBytes, st.stringBuilder, st.leftOver)
  }

  /**
   * The generated handleHttpVerb / handleHttpVersion / handleHeader without
   * the machine's action on the finished token: it reads the buffer byte by
   * byte and leaves the ParseState and the buffer position as Match says.
   */
  method RunMatcher(m: Machine, header: bool, buf: ByteBuffer, st: ParseState) returns (outcome: Outcome)
    requires Shaped(m) && buf.Valid()
    modifies buf`position, st`parseState, st`pos, st`current, st`currentBytes, st`stringBuilder, st`leftOver
    ensures buf.Valid()
    ensures var r := Match(m, header, old(FieldsOf(st)), old(buf.Rest()));
      FieldsOf(st) == r.fields && buf.position == old(buf.position) + r.used && outcome == r.outcome
  {
    if !buf.HasRemaining() {
      return Incomplete;
    }
    var c := Enter(m, st);
    if c.None? {
      return Failed(InvalidState);
    }
    outcome := RunFrom(m, header, buf, st, c.value);
  }

  /** The tableswitch on parseState at the top of the generated method. */
  method Enter(m: Machine, st: ParseState) returns (c: Option<Cursor>)
    requires Shaped(m)
    ensures c == Resume(m, FieldsOf(st))
  {
    if st.parseState == 0 {
      return Some(Cursor(AtNode(0), 0, 0, None, None, st.stringBuilder, st.leftOver));
    }
    var d := Cursor(NoState, st.parseState, st.pos, st.current, st.currentBytes, st.stringBuilder, st.leftOver);
    if st.parseState == PrefixMatch {
      c := Some(d.(mode := Prefix));
    } else if st.parseState == NoStateNumber {
      c := Some(d);
    } else if 0 < st.parseState <= NoStates(m) {
      var n := FindNumbered(m.stateno, st.parseState);
      c := if n.Some? then Some(d.(mode := AtNode(n.value))) else None;
    } else {
      c := None;
    }
  }

  /** The generated loop from the cursor c0 until one of its return paths. */
  method RunFrom(m: Machine, header: bool, buf: ByteBuffer, st: ParseState, c0: Cursor) returns (outcome: Outcome)
    requires Shaped(m) && ModeOk(m, c0.mode) && buf.Valid()
    requires st.stringBuilder == c0.builder && st.leftOver == c0.leftOver
    modifies buf`position, st`parseState, st`pos, st`current, st`currentBytes, st`stringBuilder, st`leftOver
    ensures buf.Valid()
    ensures var s := Drive(m, header, c0, old(buf.Rest()));
      FieldsOf(st) == Apply(old(FieldsOf(st)), s) && buf.position == old(buf.position) + s.used && outcome == s.outcome
  {
    ghost var f0 := FieldsOf(st);
    ghost var p0 := buf.position;
    ghost var goal := Drive(m, header, c0, buf.Rest());
    var c := c0;
    while true
      invariant buf.Valid() && ModeOk(m, c.mode)
      invariant FieldsOf(st) == f0.(builder := c.builder, leftOver := c.leftOver)
      invariant p0 <= buf.position
      invariant Shift(Drive(m, header, c, buf.Rest()), buf.position - p0) == goal
      decreases |buf.data| - buf.position, if c.leftOver != 0 then 1 else 0
    {
      var mv := Round(m, header, buf, st, c, f0);
      if mv.step.Finish? {
        Finalize(st, f0, Stop(mv.step.c, mv.consumed, mv.step.write, mv.step.outcome));
        return mv.step.outcome;
      }
      c := mv.step.c;
    }
  }

  /** TakeStep with the StringBuilder brought up to date. */
  method Round(m: Machine, header: bool, buf: ByteBuffer, st: ParseState, c: Cursor, ghost f0: Fields) returns (mv: Move)
    requires Shaped(m) && ModeOk(m, c.mode) && buf.Valid()
    requires FieldsOf(st) == f0.(builder := c.builder, leftOver := c.leftOver)
    modifies buf`position, st`leftOver, st`stringBuilder
    ensures buf.Valid() && buf.position == old(buf.position) + mv.consumed && ModeOk(m, mv.step.c.mode)
    ensures mv.step.Continue? ==> mv.consumed == 1 || (c.leftOver != 0 && mv.step.c.leftOver == 0)
    ensures FieldsOf(st) == f0.(builder := mv.step.c.builder, leftOver := mv.step.c.leftOver)
    ensures mv.step.Finish? ==> Drive(m, header, c, old(buf.Rest())) == Stop(mv.step.c, mv.consumed, mv.step.write, mv.step.outcome)
    ensures mv.step.Continue? ==> Drive(m, header, c, old(buf.Rest())) == Shift(Drive(m, header, mv.step.c, buf.Rest()), mv.consumed)
  {
    ghost var rest := buf.Rest();
    mv := TakeStep(m, header, buf, st, c);
    st.stringBuilder := mv.step.c.builder;
    DriveStep(m, header, c, rest, mv);
    assert buf.Rest() == rest[mv.consumed..];
  }

  /** Drive unrolled once. */
  lemma DriveStep(m: Machine, header: bool, c: Cursor, rest: seq<Byte>, mv: Move)
    requires Shaped(m) && ModeOk(m, c.mode) && mv == StepOn(m, header, c, rest)
    ensures mv.step.Finish? ==> Drive(m, header, c, rest) == Stop(mv.step.c, mv.consumed, mv.step.write, mv.step.outcome)
    ensures mv.step.Continue? ==> Drive(m, header, c, rest) == Shift(Drive(m, header, mv.step.c, rest[mv.consumed..]), mv.consumed)
  {
  }

  /** The return path of a finished call writes its part of the cursor back. */
  method Finalize(st: ParseState, ghost f0: Fields, s: Stop)
    requires FieldsOf(st) == f0.(builder := s.c.builder, leftOver := s.c.leftOver)
    modifies st`parseState, st`pos, st`current, st`currentBytes, st`stringBuilder
    ensures FieldsOf(st) == Apply(f0, s)
  {
    match s.write {
      case WriteCursor => Suspend(st, s.c);
      case WriteStateOnly => st.parseState := s.c.stateVar;
      case ResetCursor =>
        st.parseState, st.pos, st.current, st.currentBytes, st.stringBuilder := 0, 0, None, None, "";
      case NoWrite =>
    }
  }

  /**
   * One round of the generated loop: takes the leftOver byte or reads the
   * next byte of the buffer and runs the code of the current state on it.
   */
  method TakeStep(m: Machine, header: bool, buf: ByteBuffer, st: ParseState, c: Cursor) returns (mv: Move)
    requires Shaped(m) && ModeOk(m, c.mode) && buf.Valid() && st.leftOver == c.leftOver
    modifies buf`position, st`leftOver
    ensures buf.Valid() && mv == StepOn(m, header, c, old(buf.Rest()))
    ensures buf.position == old(buf.position) + mv.consumed && st.leftOver == mv.step.c.leftOver
  {
    match c.mode {
      case AtNode(n) =>
        if n == 0 && st.leftOver != 0 {
          var x := st.leftOver;
          st.leftOver := 0;
          mv := Move(NodeByte(m, header, c.(leftOver := 0), 0, x), 0);
        } else if !buf.HasRemaining() {
          mv := Move(Finish(c, WriteCursor, Incomplete), 0);
        } else {
          var x := buf.Get();
          mv := Move(NodeByte(m, header, c, n, x), 1);
        }
      case Prefix =>
        if !buf.HasRemaining() {
          mv := Move(Finish(c, WriteCursor, Incomplete), 0);
        } else {
          var x := buf.Get();
          if !PrefixOk(c) {
            mv := Move(Finish(c, NoWrite, Failed(InvalidState)), 1);
          } else {
            mv := Move(PrefixByte(header, c, x), 1);
          }
        }
      case NoState =>
        if !buf.HasRemaining() {
          mv := Move(Finish(c, WriteCursor, Incomplete), 0);
        } else {
          var x := buf.Get();
          mv := Move(NoStateByte(header, c, x, !buf.HasRemaining()), 1);
        }
    }
  }

  /** returnIncomplete (AbstractParserGenerator.java:837-855): the locals go back into the ParseState. */
  method Suspend(st: ParseState, c: Cursor)
    modifies st`parseState, st`pos, st`current, st`currentBytes
    ensures st.parseState == c.stateVar && st.pos == c.pos && st.current == c.current && st.currentBytes == c.currentBytes
  {
    st.parseState, st.pos, st.current, st.currentBytes := c.stateVar, c.pos, c.current, c.currentBytes;
  }
}
