/**
 * The three machines RequestParserGenerator builds (RequestParserGenerator.java:34-162):
 * the verb, version and header-name matchers.  Each is the generated
 * matcher of TokenMatcher on its own trie, with a fixed action on the
 * finished token: the verb goes to setRequestMethod and the parse moves to
 * PATH; the version goes to setProtocol, its terminator to leftOver, and
 * the parse moves to AFTER_VERSION; a header name goes to nextHeader and
 * the parse moves to HEADER_VALUE.  Only the header machine ends a token at
 * ':' and ends the request head on a newline before any token byte.
 */
module RequestMachines {
  import opened Octets
  import opened ParserTrie
  import opened TokenMatcher
  import opened ParseStates
  import MatcherTokens

  datatype Kind = VerbMachine | VersionMachine | HeaderMachine

  /**
   * isHeader() and initialNewlineMeansRequestDone(), which agree for every
   * machine: true for the header machine only.  TokenMatcher takes them as
   * its one `header` flag.
   */
  predicate IsHeader(k: Kind) {
    k == HeaderMachine
  }

  /** The state updateParseState moves to. */
  function Target(k: Kind): int {
    match k
    case VerbMachine => Path
    case VersionMachine => AfterVersion
    case HeaderMachine => HeaderValue
  }

  /** The state in which handle calls the machine. */
  function Own(k: Kind): int {
    match k
    case VerbMachine => Verb
    case VersionMachine => Version
    case HeaderMachine => Header
  }

  /** The ParseState fields the generated matcher reads and writes. */
  function MatcherFields(ps: PS): Fields {
    Fields(ps.parseState, ps.pos, ps.current, ps.currentBytes, ps.builder, ps.leftOver)
  }

  function WithFields(ps: PS, f: Fields): PS {
    ps.(parseState := f.parseState, pos := f.pos, current := f.current, currentBytes := f.currentBytes,
        builder := f.builder, leftOver := f.leftOver)
  }

  /**
   * handleStateMachineMatchedToken or handleOtherToken, then
   * updateParseState.  Both handlers of a machine emit the same call, so
   * only the token's bytes matter, not whether it was interned.
   */
  function TokenDone(k: Kind, ps: PS, ex: ExData, tok: Token, term: int): (PS, ExData) {
    match k
    case VerbMachine => (ps.(state := Path), ex.(requestMethod := Some(tok.bytes)))
    case VersionMachine => (ps.(leftOver := term, state := AfterVersion), ex.(protocol := Some(tok.bytes)))
    case HeaderMachine => (ps.(nextHeader := Some(tok.bytes), state := HeaderValue), ex)
  }

  /** The exception a failed match throws. */
  function MatchFailure(e: MatchError): ParseError {
    match e
    case InvalidState => InvalidCharacter
    case IllegalChar => IllegalCharacter
  }

  /** What a machine's handler leaves once the matcher has stopped with `outcome` after `used` bytes. */
  function OutcomeRun(k: Kind, ps: PS, ex: ExData, outcome: Outcome, used: nat): Ran {
    match outcome
    case Incomplete => Ran(ps, ex, used, None)
    case Complete(tok, term) =>
      var (ps2, ex2) := TokenDone(k, ps, ex, tok, term);
      Ran(ps2, ex2, used, None)
    case RequestDone => Ran(ps.(state := ParseComplete), ex, used, None)
    case Failed(e) => Ran(ps, ex, used, Some(MatchFailure(e)))
  }

  /**
   * One call of handleHttpVerb, handleHttpVersion or handleHeader on a
   * buffer holding `rest`.  A call that does not fail either reads the
   * whole buffer or ends in the machine's target state (the header
   * machine may end the request head instead), and a call on a nonempty
   * buffer reads at least one byte unless it ends the request head.
   */
  function MachineRun(k: Kind, m: Machine, ps: PS, ex: ExData, rest: seq<Byte>): (r: Ran)
    requires MachineOk(m)
    ensures r.used <= |rest|
    ensures r.error.None? && r.used < |rest| ==> r.ps.state == Target(k) || (k == HeaderMachine && r.ps.state == ParseComplete)
    ensures |rest| > 0 && r.used == 0 ==> r.error.Some? || (k == HeaderMachine && r.ps.state == ParseComplete)
    ensures r.ps.nextQueryParam == ps.nextQueryParam && r.ps.urlDecodeRequired == ps.urlDecodeRequired && r.ps.mapCount == ps.mapCount
    ensures r.ex.requestPath == ex.requestPath && r.ex.requestURI == ex.requestURI && r.ex.requestHeaders == ex.requestHeaders
    ensures r.ex.queryParams == ex.queryParams && r.ex.pathParams == ex.pathParams && r.ex.queryString == ex.queryString
  {
    var mt := Match(m, IsHeader(k), MatcherFields(ps), rest);
    var ps1 := WithFields(ps, mt.fields);
    CompleteReads(m, IsHeader(k), MatcherFields(ps), rest);
    OnlyHeaderEndsRequest(m, MatcherFields(ps), rest);
    OutcomeRun(k, ps1, ex, mt.outcome, mt.used)
  }

  /**
   * The state numbers only grow through a machine: a call that does not
   * fail stays in the machine's own state, moves to its target, one
   * number higher, or (the header machine) ends the request head.
   */
  lemma MachineAdvances(k: Kind, m: Machine, ps: PS, ex: ExData, rest: seq<Byte>)
    requires MachineOk(m) && ps.state == Own(k)
    ensures Target(k) == Own(k) + 1
    ensures var r := MachineRun(k, m, ps, ex, rest);
      r.error.None? ==> r.ps.state == Own(k) || r.ps.state == Target(k) || (k == HeaderMachine && r.ps.state == ParseComplete)
  {
    var mt := Match(m, IsHeader(k), MatcherFields(ps), rest);
    OnlyHeaderEndsRequest(m, MatcherFields(ps), rest);
    assert WithFields(ps, mt.fields).state == ps.state;
  }

  // ---------------------------------------------------------------------
  // Facts about the matcher the machines rely on
  // ---------------------------------------------------------------------

  /** A finished token was ended by a byte read from the buffer: a leftOver byte alone never finishes one. */
  lemma {:induction false} DriveCompleteReads(m: Machine, header: bool, c: Cursor, rest: seq<Byte>)
    requires MachineOk(m) && ModeOk(m, c.mode)
    ensures Drive(m, header, c, rest).outcome.Complete? ==> Drive(m, header, c, rest).used >= 1
    decreases |rest|, if c.leftOver != 0 then 1 else 0
  {
    var mv := StepOn(m, header, c, rest);
    DriveStep(m, header, c, rest, mv);
    if mv.step.Continue? {
      DriveCompleteReads(m, header, mv.step.c, rest[mv.consumed..]);
    } else if c.mode == AtNode(0) && c.leftOver != 0 {
      assert m.nodes[0].soFar == "";
    }
  }

  /** Starting at the initial state, the matcher takes the leftOver byte and leaves none behind. */
  lemma {:induction false} DriveTakesLeftOver(m: Machine, header: bool, c: Cursor, rest: seq<Byte>)
    requires Shaped(m) && ModeOk(m, c.mode) && (c.leftOver == 0 || c.mode == AtNode(0))
    ensures Drive(m, header, c, rest).c.leftOver == 0
    decreases |rest|, if c.leftOver != 0 then 1 else 0
  {
    var mv := StepOn(m, header, c, rest);
    DriveStep(m, header, c, rest, mv);
    if mv.step.Continue? {
      DriveTakesLeftOver(m, header, mv.step.c, rest[mv.consumed..]);
    }
  }

  /** Whenever a call finishes a token, it has read at least one byte of the buffer. */
  lemma CompleteReads(m: Machine, header: bool, f: Fields, rest: seq<Byte>)
    requires MachineOk(m)
    ensures Match(m, header, f, rest).outcome.Complete? ==> Match(m, header, f, rest).used >= 1
  {
    if |rest| > 0 && Resume(m, f).Some? {
      DriveCompleteReads(m, header, Resume(m, f).value, rest);
    }
  }

  /** Without the header flag no byte, newline included, ends the request head. */
  lemma {:induction false} DriveNeverDone(m: Machine, c: Cursor, rest: seq<Byte>)
    requires Shaped(m) && ModeOk(m, c.mode)
    ensures !Drive(m, false, c, rest).outcome.RequestDone?
    decreases |rest|, if c.leftOver != 0 then 1 else 0
  {
    var mv := StepOn(m, false, c, rest);
    DriveStep(m, false, c, rest, mv);
    if mv.step.Continue? {
      DriveNeverDone(m, mv.step.c, rest[mv.consumed..]);
    }
  }

  /** Only the header machine can end the request head. */
  lemma OnlyHeaderEndsRequest(m: Machine, f: Fields, rest: seq<Byte>)
    requires Shaped(m)
    ensures !Match(m, false, f, rest).outcome.RequestDone?
  {
    if |rest| > 0 && Resume(m, f).Some? {
      DriveNeverDone(m, Resume(m, f).value, rest);
    }
  }

  // ---------------------------------------------------------------------
  // What each machine does
  // ---------------------------------------------------------------------

  /** The ParseState of a call that starts a new token: the matcher fields cleared, a Java byte in leftOver. */
  predicate Fresh(ps: PS) {
    ps.parseState == 0 && ps.pos == 0 && ps.current.None? && ps.currentBytes.None? && ps.builder == ""
    && -128 <= ps.leftOver < 128
  }

  /** Where a machine puts its token: the request method, the protocol, or nextHeader. */
  function Recorded(k: Kind, r: Ran): Option<seq<Byte>> {
    match k
    case VerbMachine => r.ex.requestMethod
    case VersionMachine => r.ex.protocol
    case HeaderMachine => r.ps.nextHeader
  }

  /**
   * A call that starts a new token and finishes it records exactly the
   * bytes it read before the terminator (after any leading terminators,
   * with a pending leftOver byte read first), whether the token was
   * interned or not; the parse moves to the machine's target state and the
   * matcher fields are cleared.  The version machine keeps the terminator
   * in leftOver for handleAfterVersion.
   */
  lemma TokenRecorded(k: Kind, m: Machine, ps: PS, ex: ExData, rest: seq<Byte>)
    requires MachineOk(m) && MatcherTokens.TerminalsLatin1(m) && Fresh(ps)
    requires Match(m, IsHeader(k), MatcherFields(ps), rest).outcome.Complete?
    ensures var r := MachineRun(k, m, ps, ex, rest);
      var term := Match(m, IsHeader(k), MatcherFields(ps), rest).outcome.terminator;
      var input := MatcherTokens.Pending(ps.leftOver) + rest;
      r.error.None? && r.ps.state == Target(k) && Recorded(k, r).Some?
      && MatcherTokens.TokenRead(IsHeader(k), [], input, r.used + |MatcherTokens.Pending(ps.leftOver)|, Recorded(k, r).value, term)
      && r.ps.parseState == 0 && r.ps.pos == 0 && r.ps.current.None? && r.ps.currentBytes.None? && r.ps.builder == ""
      && r.ps.leftOver == (if k == VersionMachine then term else 0)
  {
    assert MatcherFields(ps) == Fields(0, 0, None, None, "", ps.leftOver);
    FreshMatchClears(m, IsHeader(k), ps.leftOver, rest);
    MatcherTokens.MatchReadsToken(m, IsHeader(k), ps.leftOver, rest);
    var mt := Match(m, IsHeader(k), MatcherFields(ps), rest);
    var r := MachineRun(k, m, ps, ex, rest);
    assert WithFields(ps, mt.fields) == ps.(leftOver := 0);
    assert r == OutcomeRun(k, ps.(leftOver := 0), ex, mt.outcome, mt.used);
  }

  /** A call that starts a new token and finishes it leaves no leftOver byte of its own behind. */
  lemma FreshMatchClears(m: Machine, header: bool, leftOver: int, rest: seq<Byte>)
    requires MachineOk(m)
    ensures var mt := Match(m, header, Fields(0, 0, None, None, "", leftOver), rest);
      mt.outcome.Complete? ==> mt.fields == Fields(0, 0, None, None, "", 0)
  {
    if |rest| > 0 {
      DriveTakesLeftOver(m, header, Cursor(AtNode(0), 0, 0, None, None, "", leftOver), rest);
    }
  }

  /**
   * The header machine ends the request head on a newline that comes
   * before any byte of a header name, as long as no known header name
   * starts with a newline.
   */
  lemma BlankLineEndsHead(m: Machine, ps: PS, ex: ExData, rest: seq<Byte>)
    requires MachineOk(m) && Next(m.nodes, 0, '\n' as int).None?
    requires ps.parseState == 0 && ps.leftOver == 0 && |rest| > 0 && rest[0] == '\n' as int
    ensures var r := MachineRun(HeaderMachine, m, ps, ex, rest);
      r.error.None? && r.ps.state == ParseComplete && r.used == 1 && r.ex == ex
  {
    var c := Cursor(AtNode(0), 0, 0, None, None, ps.builder, 0);
    var mv := StepOn(m, true, c, rest);
    DriveStep(m, true, c, rest, mv);
    assert m.nodes[0].soFar == "";
  }
}
