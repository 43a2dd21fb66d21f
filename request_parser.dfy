/**
 * HttpRequestParser (core/src/main/java/io/undertow/server/protocol/http/HttpRequestParser.java):
 * the hand-written parts of the incremental request parser, and handle /
 * handleStateful, which run them together with the three generated
 * machines of RequestMachines.
 *
 * Every handler is a function of the ParseState, the exchange and the
 * bytes left in the buffer, giving a Ran: the new ParseState and exchange,
 * how many bytes were read, and the exception thrown if any.  The class
 * HttpRequestParser below runs the same handlers on a ByteBuffer, a
 * ParseState and an Exchange and is proved to compute these functions.
 *
 * At four places the code does not do what it evidently means to; a
 * Variant selects the code as written or the corrected code, and the class
 * runs the corrected one.
 */
module RequestParser {
  import opened Octets
  import opened ParserTrie
  import opened TokenMatcher
  import opened ParseStates
  import opened RequestMachines
  import HttpStrings

  /**
   * fastPathFixed: the GET fast path of handle moves to PATH and is taken
   * only where the verb machine would read the same token;
   * keepCount: a suspended parameter parser writes its count back instead
   * of zero; decodeAbsoluteBeforeParams: an absolute-form path ended by ';'
   * is decoded as the other branches decode it; keepAbsoluteFlag: the end of
   * the path parameters keeps the absolute-form flag the path set, where
   * the code tests a parseState that is zero by then; latin1Values: a header
   * value byte becomes the Latin-1 char of the same code rather than a
   * sign-extended one.
   */
  datatype Variant = Variant(fastPathFixed: bool, keepCount: bool, decodeAbsoluteBeforeParams: bool,
                             keepAbsoluteFlag: bool, latin1Values: bool)

  const AsWritten: Variant := Variant(false, false, false, false, false)
  const Corrected: Variant := Variant(true, true, true, true, true)

  // handlePath's sub-states (HttpRequestParser.java:451-455)
  const Start: int := 0
  const FirstColon: int := 1
  const FirstSlash: int := 2
  const SecondSlash: int := 3
  const HostDone: int := 4

  // handleHeaderValue's sub-states (HttpRequestParser.java:739-743)
  const Normal: int := 0
  const Whitespace: int := 1
  const BeginLineEnd: int := 2
  const LineEnd: int := 3
  const AwaitDataEnd: int := 4

  const SP: int := ' ' as int
  const HT: int := '\t' as int
  const CR: int := '\r' as int
  const LF: int := '\n' as int

  /** The parser's configuration and its three generated machines. */
  datatype Parser = Parser(cfg: Config, verbs: Machine, versions: Machine, headers: Machine)

  predicate ParserOk(p: Parser) {
    MachineOk(p.verbs) && MachineOk(p.versions) && MachineOk(p.headers)
  }

  /** The private decode: URLUtils.decode when the token needs it, the token itself otherwise. */
  function Decode(cfg: Config, value: string, required: bool, allowEncodedSlash: bool): string {
    if required then cfg.urlDecode(value, allowEncodedSlash) else value
  }

  /** String.substring(from), or None where it throws StringIndexOutOfBoundsException. */
  function Tail(s: string, from: int): (r: Option<string>)
    ensures r.Some? <==> 0 <= from <= |s|
  {
    if 0 <= from <= |s| then Some(s[from..]) else None
  }

  /** A handler that returned without reading anything or changing anything. */
  function Idle(ps: PS, ex: ExData): Ran {
    Ran(ps, ex, 0, None)
  }

  /** The ParseState after a token of the request target ends: the next state, the accumulator and cursor cleared. */
  function Reset(ps: PS, state: int): PS {
    ps.(state := state, builder := "", parseState := 0, pos := 0, urlDecodeRequired := false)
  }

  // ---------------------------------------------------------------------
  // handlePath (HttpRequestParser.java:466-570)
  // ---------------------------------------------------------------------

  /** handlePath's locals: parseState, canonicalPathStart, urlDecodeRequired, and the shared StringBuilder. */
  datatype PathLocals = PathLocals(sub: int, start: int, decodeRequired: bool, builder: string)

  /**
   * A target char that neither ends nor splits the target
   * (HttpRequestParser.java:549-563): '+' or '%' flags decoding when it is
   * enabled; otherwise ':' then '/', '/', '/' walks towards HOST_DONE,
   * whose position is remembered, and any other char after the colon or
   * the first slash falls back to START.  The char is kept.
   */
  function PathChar(cfg: Config, c: PathLocals, next: char): PathLocals {
    var d :=
      if cfg.decodeUrl && (next == '+' || next == '%') then c.(decodeRequired := true)
      else if next == ':' && c.sub == Start then c.(sub := FirstColon)
      else if next == '/' && c.sub == FirstColon then c.(sub := FirstSlash)
      else if next == '/' && c.sub == FirstSlash then c.(sub := SecondSlash)
      else if next == '/' && c.sub == SecondSlash then c.(sub := HostDone, start := |c.builder|)
      else if c.sub == FirstColon || c.sub == FirstSlash then c.(sub := Start)
      else c;
    d.(builder := c.builder + [next])
  }

  /**
   * The exchange once the target text is known (HttpRequestParser.java:476-490,
   * 502-516, 525-539): the URI is the whole text; the request and relative
   * paths are the decoded text, or in absolute form the text from the
   * remembered position.  `ended` is the SP/HT branch, which uses the
   * one-argument setRequestURI for origin form; `decodeAbsolute` is false
   * only for the ';' branch as written.  None where substring throws.
   */
  function TargetSet(cfg: Config, ex: ExData, c: PathLocals, ended: bool, decodeAbsolute: bool): Option<ExData> {
    if c.sub < HostDone then
      var path := Decode(cfg, c.builder, c.decodeRequired, cfg.allowEncodedSlash);
      Some(ex.(requestPath := path, relativePath := path, requestURI := c.builder,
               uriIsAbsolute := if ended then ex.uriIsAbsolute else false))
    else
      match Tail(c.builder, c.start)
      case None => None
      case Some(tail) =>
        var path := if decodeAbsolute then Decode(cfg, tail, c.decodeRequired, cfg.allowEncodedSlash) else tail;
        Some(ex.(requestPath := path, relativePath := path, requestURI := c.builder, uriIsAbsolute := true))
  }

  /** A char the request target may not contain. */
  predicate IsLineEnd(next: char) {
    next == '\r' || next == '\n'
  }

  /**
   * The loop of handlePath from the locals c on the bytes `rest`: SP/HT
   * before any text is skipped and after some ends the target; CR or LF
   * throws; '?' or ';' in START or HOST_DONE ends the path and hands the
   * rest to the query or path-parameter parser; any other char is kept.
   * Out of bytes, the locals are written back.
   */
  function PathLoop(v: Variant, cfg: Config, ps: PS, ex: ExData, c: PathLocals, rest: seq<Byte>): (r: Ran)
    ensures r.used <= |rest|
    ensures r.error.None? && r.used < |rest| ==> r.ps.state == Version
    ensures |rest| > 0 ==> r.used > 0
    decreases |rest|
  {
    if |rest| == 0 then
      Idle(ps.(parseState := c.sub, pos := c.start, urlDecodeRequired := c.decodeRequired, builder := c.builder), ex)
    else
      var next := SignExtendedChar(rest[0]);
      if next == ' ' || next == '\t' then
        if |c.builder| != 0 then
          match TargetSet(cfg, ex, c, true, true)
          case None => Ran(ps.(builder := c.builder), ex, 1, Some(IndexOutOfBounds))
          case Some(ex1) => Ran(Reset(ps, Version), ex1.(queryString := ""), 1, None)
        else Later(PathLoop(v, cfg, ps, ex, c, rest[1..]), 1)
      else if IsLineEnd(next) then
        Ran(ps.(builder := c.builder), ex, 1, Some(FailedToParsePath))
      else if (next == '?' || next == ';') && (c.sub == Start || c.sub == HostDone) then
        match TargetSet(cfg, ex, c, false, next == '?' || v.decodeAbsoluteBeforeParams)
        case None => Ran(ps.(builder := c.builder), ex, 1, Some(IndexOutOfBounds))
        case Some(ex1) =>
          if next == '?' then Later(ParamRun(v, cfg, true, Reset(ps, QueryParameters), ex1, rest[1..]), 1)
          else Later(ParamRun(v, cfg, false, Reset(ps, PathParameters), ex1, rest[1..]), 1)
      else Later(PathLoop(v, cfg, ps, ex, PathChar(cfg, c, next), rest[1..]), 1)
  }

  /** One call of handlePath. */
  function PathRun(v: Variant, cfg: Config, ps: PS, ex: ExData, rest: seq<Byte>): (r: Ran)
    ensures r.used <= |rest|
    ensures r.error.None? && r.used < |rest| ==> r.ps.state == Version
    ensures |rest| > 0 ==> r.used > 0
  {
    PathLoop(v, cfg, ps, ex, PathLocals(ps.parseState, ps.pos, ps.urlDecodeRequired, ps.builder), rest)
  }

  // ---------------------------------------------------------------------
  // handleQueryParameters and handlePathParameters (HttpRequestParser.java:582-649, 660-733)
  // ---------------------------------------------------------------------

  /** The locals of both parameter parsers: queryParamPos, mapCount, urlDecodeRequired, nextQueryParam, and the StringBuilder. */
  datatype ParamLocals = ParamLocals(pos: int, mapCount: int, decodeRequired: bool, name: Option<string>, builder: string)

  /** addQueryParam or addPathParam. */
  function AddParam(ex: ExData, query: bool, p: Param): ExData {
    if query then ex.(queryParams := ex.queryParams + [p]) else ex.(pathParams := ex.pathParams + [p])
  }

  /** What one parameter char did: the exchange and locals after it, or the exception it threw. */
  datatype ParamStep = ParamStep(ex: ExData, c: ParamLocals, error: Option<ParseError>)

  /**
   * A parameter char that does not end the parameters
   * (HttpRequestParser.java:617-641, 699-725): '+' or '%' flags decoding
   * when it is enabled; the first '=' of a parameter ends its name; '&'
   * ends the parameter, adding it with its value ("" when it had no '='),
   * after checking the count; the char is kept.
   */
  function ParamChar(cfg: Config, query: bool, ex: ExData, c: ParamLocals, next: char): ParamStep {
    if cfg.decodeUrl && (next == '+' || next == '%') then
      ParamStep(ex, c.(decodeRequired := true, builder := c.builder + [next]), None)
    else if next == '=' && c.name.None? then
      match Tail(c.builder, c.pos)
      case None => ParamStep(ex, c, Some(IndexOutOfBounds))
      case Some(t) =>
        ParamStep(ex, c.(name := Some(Decode(cfg, t, c.decodeRequired, true)), decodeRequired := false,
                         pos := |c.builder| + 1, builder := c.builder + [next]), None)
    else if next == '&' then
      if c.mapCount > cfg.maxParameters then ParamStep(ex, c, Some(TooManyQueryParameters))
      else
        match Tail(c.builder, c.pos)
        case None => ParamStep(ex, c, Some(IndexOutOfBounds))
        case Some(t) =>
          var value := Decode(cfg, t, c.decodeRequired, true);
          var p := if c.name.None? then Param(value, "") else Param(c.name.value, value);
          ParamStep(AddParam(ex, query, p),
                    c.(mapCount := c.mapCount + 1, decodeRequired := false, pos := |c.builder| + 1, name := None,
                       builder := c.builder + [next]), None)
    else ParamStep(ex, c.(builder := c.builder + [next]), None)
  }

  /**
   * The parameter pending when the parameters end (HttpRequestParser.java:601-607, 677-683):
   * a name with its value, a name without '=' with "", nothing for an
   * empty trailing segment.
   */
  function LastParam(cfg: Config, query: bool, ex: ExData, c: ParamLocals): Option<ExData> {
    if c.name.None? && c.pos == |c.builder| then Some(ex)
    else
      match Tail(c.builder, c.pos)
      case None => None
      case Some(t) =>
        var value := Decode(cfg, t, c.decodeRequired, true);
        Some(AddParam(ex, query, if c.name.None? then Param(value, "") else Param(c.name.value, value)))
  }

  /** The ParseState after the parameters end: the accumulator, cursor, pending name, count and flag cleared. */
  function ParamsDone(ps: PS, state: int): PS {
    ps.(state := state, builder := "", pos := 0, nextQueryParam := None, mapCount := 0, urlDecodeRequired := false)
  }

  /** The chars that end the parameters: SP and HT, and '?' for path parameters. */
  predicate EndsParams(query: bool, next: char) {
    next == ' ' || next == '\t' || (!query && next == '?')
  }

  /**
   * The loop of handleQueryParameters (query) or handlePathParameters
   * (!query), up to the char that ends the parameters.  Out of bytes, the
   * locals are written back, the count as zero unless the variant keeps it.
   */
  function ParamLoop(v: Variant, cfg: Config, query: bool, ps: PS, ex: ExData, c: ParamLocals, rest: seq<Byte>): (r: Ran)
    ensures r.used <= |rest|
    ensures r.error.None? && r.used < |rest| ==> r.ps.state == Version
    ensures |rest| > 0 ==> r.used > 0
    decreases |rest|, 0
  {
    if |rest| == 0 then
      Idle(ps.(pos := c.pos, nextQueryParam := c.name, urlDecodeRequired := c.decodeRequired,
               mapCount := if v.keepCount then c.mapCount else 0, builder := c.builder), ex)
    else
      var next := SignExtendedChar(rest[0]);
      if EndsParams(query, next) then Later(ParamsEnd(v, cfg, query, ps, ex, c, next, rest[1..]), 1)
      else if IsLineEnd(next) then
        Ran(ps.(builder := c.builder), ex, 1, Some(FailedToParsePath))
      else
        var s := ParamChar(cfg, query, ex, c, next);
        if s.error.Some? then Ran(ps.(builder := s.c.builder), s.ex, 1, s.error)
        else Later(ParamLoop(v, cfg, query, ps, s.ex, s.c, rest[1..]), 1)
  }

  /**
   * The parameters end at `next`, with `rest` after it: at the end of the
   * query the raw text becomes the query string; the pending parameter is
   * added; at the end of path parameters the text is appended to the URI
   * after ';', and a '?' hands the rest to the query parser.
   */
  function ParamsEnd(v: Variant, cfg: Config, query: bool, ps: PS, ex: ExData, c: ParamLocals, next: char, rest: seq<Byte>): (r: Ran)
    ensures r.used <= |rest|
    ensures r.error.None? && r.used < |rest| ==> r.ps.state == Version
    decreases |rest|, 2
  {
    var ex0 := if query then ex.(queryString := c.builder) else ex;
    match LastParam(cfg, query, ex0, c)
    case None => Ran(ps.(builder := c.builder), ex0, 0, Some(IndexOutOfBounds))
    case Some(ex1) =>
      if query then Ran(ParamsDone(ps, Version), ex1, 0, None)
      else
        var absolute := if v.keepAbsoluteFlag then ex1.uriIsAbsolute else ps.parseState > HostDone;
        var ex2 := ex1.(requestURI := ex1.requestURI + [';'] + c.builder, uriIsAbsolute := absolute);
        if next == '?' then ParamRun(v, cfg, true, ParamsDone(ps, QueryParameters), ex2, rest)
        else Ran(ParamsDone(ps, Version), ex2, 0, None)
  }

  /** One call of handleQueryParameters (query) or handlePathParameters (!query). */
  function ParamRun(v: Variant, cfg: Config, query: bool, ps: PS, ex: ExData, rest: seq<Byte>): (r: Ran)
    ensures r.used <= |rest|
    ensures r.error.None? && r.used < |rest| ==> r.ps.state == Version
    ensures |rest| > 0 ==> r.used > 0
    decreases |rest|, 1
  {
    ParamLoop(v, cfg, query, ps, ex, ParamLocals(ps.pos, ps.mapCount, ps.urlDecodeRequired, ps.nextQueryParam, ps.builder), rest)
  }

  // ---------------------------------------------------------------------
  // handleHeaderValue (HttpRequestParser.java:754-844)
  // ---------------------------------------------------------------------

  /** The char StringBuilder.append((char) next) adds for a header value byte. */
  function ValueChar(v: Variant, b: Byte): char {
    if v.latin1Values then Latin1Char(b) else SignExtendedChar(b)
  }

  /**
   * The switch of handleHeaderValue from the sub-state `sub` on the bytes
   * `rest`; the StringBuilder, mapCount, nextHeader and leftOver are the
   * ParseState's own.  Bytes other than SP/HT/CR/LF are kept; a run of
   * whitespace, folded line ends included, becomes one SP between kept
   * bytes; a line end followed by a byte that is not SP/HT completes the
   * header (after the count check; new HttpString(String) rejects a char
   * above 0xFF), saves that byte in leftOver and returns to HEADER, unless
   * it is CR, after which the next byte completes the request head.
   */
  function ValueLoop(v: Variant, cfg: Config, ps: PS, ex: ExData, sub: int, rest: seq<Byte>): (r: Ran)
    ensures r.used <= |rest|
    ensures r.error.None? && r.used < |rest| ==> r.ps.state == Header || r.ps.state == ParseComplete
    ensures |rest| > 0 ==> r.used > 0
    decreases |rest|
  {
    if |rest| == 0 then Idle(ps.(parseState := sub), ex)
    else
      var b := rest[0];
      var next := Signed(b);
      if sub == Normal || sub == Whitespace then
        if next == CR then Later(ValueLoop(v, cfg, ps, ex, BeginLineEnd, rest[1..]), 1)
        else if next == LF then Later(ValueLoop(v, cfg, ps, ex, LineEnd, rest[1..]), 1)
        else if IsLws(next) then Later(ValueLoop(v, cfg, ps, ex, Whitespace, rest[1..]), 1)
        else
          var sb := if sub == Whitespace && |ps.builder| > 0 then ps.builder + [' '] else ps.builder;
          Later(ValueLoop(v, cfg, ps.(builder := sb + [ValueChar(v, b)]), ex, Normal, rest[1..]), 1)
      else if sub == LineEnd || sub == BeginLineEnd then
        if next == LF && sub == BeginLineEnd then Later(ValueLoop(v, cfg, ps, ex, LineEnd, rest[1..]), 1)
        else if IsLws(next) then Later(ValueLoop(v, cfg, ps, ex, Whitespace, rest[1..]), 1)
        else if ps.mapCount > cfg.maxHeaders then Ran(ps.(mapCount := ps.mapCount + 1), ex, 1, Some(TooManyHeaders))
        else if !IsLatin1(ps.builder) then Ran(ps.(mapCount := ps.mapCount + 1), ex, 1, Some(IllegalCharacter))
        else
          var ex1 := ex.(requestHeaders := ex.requestHeaders + [HeaderEntry(ps.nextHeader, LowBytes(ps.builder))]);
          var ps1 := ps.(mapCount := ps.mapCount + 1, nextHeader := None, leftOver := next, builder := "");
          if next == CR then Later(ValueLoop(v, cfg, ps1, ex1, AwaitDataEnd, rest[1..]), 1)
          else Ran(ps1.(state := Header, parseState := 0), ex1, 1, None)
      else if sub == AwaitDataEnd then Ran(ps.(state := ParseComplete), ex, 1, None)
      else Later(ValueLoop(v, cfg, ps, ex, sub, rest[1..]), 1)
  }

  /** One call of handleHeaderValue. */
  function ValueRun(v: Variant, cfg: Config, ps: PS, ex: ExData, rest: seq<Byte>): (r: Ran)
    ensures r.used <= |rest|
    ensures r.error.None? && r.used < |rest| ==> r.ps.state == Header || r.ps.state == ParseComplete
    ensures |rest| > 0 ==> r.used > 0
  {
    ValueLoop(v, cfg, ps, ex, ps.parseState, rest)
  }

  // ---------------------------------------------------------------------
  // handleAfterVersion (HttpRequestParser.java:846-874)
  // ---------------------------------------------------------------------

  /**
   * The loop of handleAfterVersion: an LF, then LF completes the request
   * head and any other byte starts the headers with that byte in leftOver;
   * before the LF, CR, SP and HT are a bad request and any other byte
   * starts the headers.  A pending LF is kept in leftOver.
   */
  function AfterVersionLoop(ps: PS, ex: ExData, newLine: bool, rest: seq<Byte>): (r: Ran)
    ensures r.used <= |rest|
    ensures r.error.None? && r.used < |rest| ==> r.ps.state == Header || r.ps.state == ParseComplete
    decreases |rest|
  {
    if |rest| == 0 then Idle(if newLine then ps.(leftOver := LF) else ps, ex)
    else
      var next := Signed(rest[0]);
      if newLine then
        if next == LF then Ran(ps.(state := ParseComplete), ex, 1, None)
        else Ran(ps.(state := Header, leftOver := next), ex, 1, None)
      else if next == LF then Later(AfterVersionLoop(ps, ex, true, rest[1..]), 1)
      else if next != CR && !IsLws(next) then Ran(ps.(state := Header, leftOver := next), ex, 1, None)
      else Ran(ps, ex, 1, Some(BadRequest))
  }

  /** One call of handleAfterVersion. */
  function AfterVersionRun(ps: PS, ex: ExData, rest: seq<Byte>): (r: Ran)
    ensures r.used <= |rest|
    ensures r.error.None? && r.used < |rest| ==> r.ps.state == Header || r.ps.state == ParseComplete
  {
    AfterVersionLoop(ps, ex, ps.leftOver == LF, rest)
  }

  // ---------------------------------------------------------------------
  // handle and handleStateful (HttpRequestParser.java:193-271)
  // ---------------------------------------------------------------------

  /** The bytes of "GET". */
  const GetBytes: seq<Byte> := ['G' as int, 'E' as int, 'T' as int]

  /**
   * The test of the GET fast path (HttpRequestParser.java:200-203): more
   * than three bytes, the first three "GET".  Corrected, it also asks that
   * the verb machine has read nothing yet and that the fourth byte ends
   * the token, which is where the verb machine reads the same token.
   */
  predicate FastGet(v: Variant, ps: PS, rest: seq<Byte>) {
    |rest| > 3 && rest[..3] == GetBytes
    && (v.fastPathFixed ==> ps.parseState == 0 && ps.builder == "" && ps.leftOver == 0 && IsTerminator(false, Signed(rest[3])))
  }

  /** What the fast path does: setRequestMethod(GET) after three bytes; corrected, also what the verb machine does after a token. */
  function FastGetRun(v: Variant, ps: PS, ex: ExData): Ran {
    var ps1 := if v.fastPathFixed then ps.(state := Path, pos := 0, current := None, currentBytes := None) else ps;
    Ran(ps1, ex.(requestMethod := Some(GetBytes)), 3, None)
  }

  /** One pass of handle's header loop: a header name, and its value if the name is complete. */
  function HeaderRound(p: Parser, v: Variant, ps: PS, ex: ExData, rest: seq<Byte>): (r: Ran)
    requires ParserOk(p)
    ensures r.used <= |rest|
    ensures |rest| > 0 && r.error.None? && r.ps.state != ParseComplete ==> r.used > 0
  {
    var h := MachineRun(HeaderMachine, p.headers, ps, ex, rest);
    if h.error.None? && h.ps.state == HeaderValue then Later(ValueRun(v, p.cfg, h.ps, h.ex, rest[h.used..]), h.used)
    else h
  }

  /**
   * handle's header loop (HttpRequestParser.java:212-217): while the head
   * is not complete and bytes remain, a header name and then its value.
   */
  function FastHeaders(p: Parser, v: Variant, ps: PS, ex: ExData, rest: seq<Byte>): (r: Ran)
    requires ParserOk(p)
    ensures r.used <= |rest|
    decreases |rest|
  {
    if ps.state == ParseComplete || |rest| == 0 then Idle(ps, ex)
    else
      var w := HeaderRound(p, v, ps, ex, rest);
      if w.error.Some? || w.ps.state == ParseComplete then w
      else Later(FastHeaders(p, v, w.ps, w.ex, rest[w.used..]), w.used)
  }

  /** The verb, by the GET fast path or the verb machine (HttpRequestParser.java:199-208). */
  function VerbRun(p: Parser, v: Variant, ps: PS, ex: ExData, rest: seq<Byte>): (r: Ran)
    requires ParserOk(p)
    ensures r.used <= |rest|
  {
    if FastGet(v, ps, rest) then FastGetRun(v, ps, ex) else MachineRun(VerbMachine, p.verbs, ps, ex, rest)
  }

  /** handle from handleAfterVersion on. */
  function FromAfterVersion(p: Parser, v: Variant, ps: PS, ex: ExData, rest: seq<Byte>): (r: Ran)
    requires ParserOk(p)
    ensures r.used <= |rest|
  {
    var r := AfterVersionRun(ps, ex, rest);
    if r.error.Some? then r else Later(FastHeaders(p, v, r.ps, r.ex, rest[r.used..]), r.used)
  }

  /** handle from handleHttpVersion on. */
  function FromVersion(p: Parser, v: Variant, ps: PS, ex: ExData, rest: seq<Byte>): (r: Ran)
    requires ParserOk(p)
    ensures r.used <= |rest|
  {
    var r := MachineRun(VersionMachine, p.versions, ps, ex, rest);
    if r.error.Some? then r else Later(FromAfterVersion(p, v, r.ps, r.ex, rest[r.used..]), r.used)
  }

  /** handle from handlePath on. */
  function FromPath(p: Parser, v: Variant, ps: PS, ex: ExData, rest: seq<Byte>): (r: Ran)
    requires ParserOk(p)
    ensures r.used <= |rest|
  {
    var r := PathRun(v, p.cfg, ps, ex, rest);
    if r.error.Some? then r else Later(FromVersion(p, v, r.ps, r.ex, rest[r.used..]), r.used)
  }

  /**
   * handle when the state is VERB: the verb (by the fast path or the verb
   * machine), then the path, the version, the line end and the headers,
   * each on what the one before left of the buffer, whatever state the one
   * before ended in.
   */
  function FastRun(p: Parser, v: Variant, ps: PS, ex: ExData, rest: seq<Byte>): (r: Ran)
    requires ParserOk(p)
    ensures r.used <= |rest|
  {
    var r := VerbRun(p, v, ps, ex, rest);
    if r.error.Some? then r else Later(FromPath(p, v, r.ps, r.ex, rest[r.used..]), r.used)
  }

  /** One pass of handle's header loop, and what remains of the loop after it. */
  lemma FastHeadersRound(p: Parser, v: Variant, ps: PS, ex: ExData, rest: seq<Byte>)
    requires ParserOk(p) && ps.state != ParseComplete && |rest| > 0
    ensures var w := HeaderRound(p, v, ps, ex, rest);
      FastHeaders(p, v, ps, ex, rest)
      == if w.error.Some? || w.ps.state == ParseComplete then w else Later(FastHeaders(p, v, w.ps, w.ex, rest[w.used..]), w.used)
  {
  }

  predicate InHeaders(state: int) {
    state == Header || state == HeaderValue || state == ParseComplete
  }

  /**
   * One pass of handleStateful's loop: a header name in HEADER, returning
   * if the buffer is empty, then a value in HEADER_VALUE.
   */
  function StatefulRound(p: Parser, v: Variant, ps: PS, ex: ExData, rest: seq<Byte>): (r: Ran)
    requires ParserOk(p) && (ps.state == Header || ps.state == HeaderValue)
    ensures r.used <= |rest|
    ensures r.error.None? && r.used < |rest| ==> r.ps.state == Header || r.ps.state == ParseComplete
    ensures r.error.None? && r.used < |rest| && r.ps.state != ParseComplete ==> r.used > 0
  {
    var h := if ps.state == Header then MachineRun(HeaderMachine, p.headers, ps, ex, rest) else Idle(ps, ex);
    if h.error.Some? || (ps.state == Header && h.used == |rest|) then h
    else if h.ps.state == HeaderValue then Later(ValueRun(v, p.cfg, h.ps, h.ex, rest[h.used..]), h.used)
    else h
  }

  /**
   * handleStateful's loop (HttpRequestParser.java:257-270): a header name
   * in HEADER, a value in HEADER_VALUE, returning as soon as the buffer is
   * empty, until the head is complete.
   */
  function StatefulHeaders(p: Parser, v: Variant, ps: PS, ex: ExData, rest: seq<Byte>): (r: Ran)
    requires ParserOk(p) && InHeaders(ps.state)
    ensures r.used <= |rest|
    decreases |rest|
  {
    if ps.state == ParseComplete then Idle(ps, ex)
    else
      var w := StatefulRound(p, v, ps, ex, rest);
      if w.error.Some? || w.used == |rest| || w.ps.state == ParseComplete then w
      else Later(StatefulHeaders(p, v, w.ps, w.ex, rest[w.used..]), w.used)
  }

  /** One pass of handleStateful's loop, and what remains of the loop after it. */
  lemma StatefulHeadersRound(p: Parser, v: Variant, ps: PS, ex: ExData, rest: seq<Byte>)
    requires ParserOk(p) && (ps.state == Header || ps.state == HeaderValue)
    ensures var w := StatefulRound(p, v, ps, ex, rest);
      StatefulHeaders(p, v, ps, ex, rest)
      == if w.error.Some? || w.used == |rest| || w.ps.state == ParseComplete then w
         else Later(StatefulHeaders(p, v, w.ps, w.ex, rest[w.used..]), w.used)
  {
  }

  /** handleStateful from the AFTER_VERSION block on. */
  function StatefulFromAfterVersion(p: Parser, v: Variant, ps: PS, ex: ExData, rest: seq<Byte>): (r: Ran)
    requires ParserOk(p) && AfterVersion <= ps.state <= ParseComplete
    ensures r.used <= |rest|
  {
    if ps.state != AfterVersion then StatefulHeaders(p, v, ps, ex, rest)
    else
      var r := AfterVersionRun(ps, ex, rest);
      if r.error.Some? || r.used == |rest| then r else Later(StatefulHeaders(p, v, r.ps, r.ex, rest[r.used..]), r.used)
  }

  /** handleStateful from the VERSION block on. */
  function StatefulFromVersion(p: Parser, v: Variant, ps: PS, ex: ExData, rest: seq<Byte>): (r: Ran)
    requires ParserOk(p) && Version <= ps.state <= ParseComplete
    ensures r.used <= |rest|
  {
    if ps.state != Version then StatefulFromAfterVersion(p, v, ps, ex, rest)
    else
      var r := MachineRun(VersionMachine, p.versions, ps, ex, rest);
      if r.error.Some? || r.used == |rest| then r else Later(StatefulFromAfterVersion(p, v, r.ps, r.ex, rest[r.used..]), r.used)
  }

  /** handleStateful from the PATH_PARAMETERS block on. */
  function StatefulFromPathParameters(p: Parser, v: Variant, ps: PS, ex: ExData, rest: seq<Byte>): (r: Ran)
    requires ParserOk(p) && (ps.state == PathParameters || Version <= ps.state <= ParseComplete)
    ensures r.used <= |rest|
  {
    if ps.state != PathParameters then StatefulFromVersion(p, v, ps, ex, rest)
    else
      var r := ParamRun(v, p.cfg, false, ps, ex, rest);
      if r.error.Some? || r.used == |rest| then r else Later(StatefulFromVersion(p, v, r.ps, r.ex, rest[r.used..]), r.used)
  }

  /** handleStateful from the QUERY_PARAMETERS block on. */
  function StatefulFromQuery(p: Parser, v: Variant, ps: PS, ex: ExData, rest: seq<Byte>): (r: Ran)
    requires ParserOk(p) && PathParameters <= ps.state <= ParseComplete
    ensures r.used <= |rest|
  {
    if ps.state != QueryParameters then StatefulFromPathParameters(p, v, ps, ex, rest)
    else
      var r := ParamRun(v, p.cfg, true, ps, ex, rest);
      if r.error.Some? || r.used == |rest| then r else Later(StatefulFromPathParameters(p, v, r.ps, r.ex, rest[r.used..]), r.used)
  }

  /**
   * handleStateful (HttpRequestParser.java:223-271): the handler of each
   * state from PATH to AFTER_VERSION in turn, each only in its own state
   * and returning as soon as the buffer is empty, then the header loop.
   */
  function StatefulRun(p: Parser, v: Variant, ps: PS, ex: ExData, rest: seq<Byte>): (r: Ran)
    requires ParserOk(p) && Path <= ps.state <= ParseComplete
    ensures r.used <= |rest|
  {
    if ps.state != Path then StatefulFromQuery(p, v, ps, ex, rest)
    else
      var r := PathRun(v, p.cfg, ps, ex, rest);
      if r.error.Some? || r.used == |rest| then r else Later(StatefulFromQuery(p, v, r.ps, r.ex, rest[r.used..]), r.used)
  }

  /** One call of handle on a buffer holding `rest`. */
  function HandleRun(p: Parser, v: Variant, ps: PS, ex: ExData, rest: seq<Byte>): (r: Ran)
    requires ParserOk(p) && Verb <= ps.state <= ParseComplete
    ensures r.used <= |rest|
  {
    if ps.state == Verb then FastRun(p, v, ps, ex, rest) else StatefulRun(p, v, ps, ex, rest)
  }

  // ---------------------------------------------------------------------
  // The parser
  // ---------------------------------------------------------------------

  lemma UnsignedOfSigned(b: Byte)
    ensures Unsigned(Signed(b)) == b
  {
  }

  /**
   * HttpRequestParser with its options and the machines of its generated
   * subclass, running the corrected handlers on a buffer, a ParseState and
   * an exchange.  Every handler leaves them as its function says and
   * returns the exception it threw, if any.
   */
  class HttpRequestParser {
    const cfg: Config
    const verbs: Machine
    const versions: Machine
    const headers: Machine

    /** The options and machines as a value. */
    function Spec(): Parser {
      Parser(cfg, verbs, versions, headers)
    }

    predicate Valid() {
      ParserOk(Spec())
    }

    constructor (cfg: Config, verbs: Machine, versions: Machine, headers: Machine)
      requires ParserOk(Parser(cfg, verbs, versions, headers))
      ensures Valid() && Spec() == Parser(cfg, verbs, versions, headers)
    {
      this.cfg := cfg;
      this.verbs := verbs;
      this.versions := versions;
      this.headers := headers;
    }

    function MachineOf(k: Kind): Machine {
      match k
      case VerbMachine => verbs
      case VersionMachine => versions
      case HeaderMachine => headers
    }

    /** handleHttpVerb, handleHttpVersion or handleHeader: the generated matcher, then the machine's action on a finished token. */
    method HandleToken(k: Kind, buf: ByteBuffer, st: ParseState, ex: Exchange) returns (err: Option<ParseError>)
      requires Valid() && buf.Valid()
      modifies buf`position, st, ex
      ensures buf.Valid() && old(buf.position) <= buf.position
      ensures Ran(Snapshot(st), DataOf(ex), buf.position - old(buf.position), err)
              == MachineRun(k, MachineOf(k), old(Snapshot(st)), old(DataOf(ex)), old(buf.Rest()))
    {
      ghost var p0 := buf.position;
      var outcome := RunMatcher(MachineOf(k), IsHeader(k), buf, st);
      err := TokenAction(k, outcome, st, ex, buf.position - p0);
    }

    /** The machine's action once the generated matcher has stopped with `outcome`. */
    method TokenAction(k: Kind, outcome: Outcome, st: ParseState, ex: Exchange, ghost used: nat) returns (err: Option<ParseError>)
      modifies st, ex
      ensures Ran(Snapshot(st), DataOf(ex), used, err) == OutcomeRun(k, old(Snapshot(st)), old(DataOf(ex)), outcome, used)
    {
      err := None;
      match outcome {
        case Incomplete =>
        case Complete(tok, term) =>
          if k == VerbMachine {
            ex.requestMethod := Some(tok.bytes);
            st.state := Path;
          } else if k == VersionMachine {
            ex.protocol := Some(tok.bytes);
            st.leftOver := term;
            st.state := AfterVersion;
          } else {
            st.nextHeader := Some(tok.bytes);
            st.state := HeaderValue;
          }
        case RequestDone =>
          st.MarkComplete();
        case Failed(e) =>
          err := Some(MatchFailure(e));
      }
    }

    /** The request path, relative path and URI once the target text is known; false where substring throws. */
    method SetTarget(ex: Exchange, c: PathLocals, ended: bool, decodeAbsolute: bool) returns (ok: bool)
      modifies ex
      ensures ok == TargetSet(cfg, old(DataOf(ex)), c, ended, decodeAbsolute).Some?
      ensures DataOf(ex) == if ok then TargetSet(cfg, old(DataOf(ex)), c, ended, decodeAbsolute).value else old(DataOf(ex))
    {
      if c.sub < HostDone {
        var path := Decode(cfg, c.builder, c.decodeRequired, cfg.allowEncodedSlash);
        ex.requestPath := path;
        ex.relativePath := path;
        ex.requestURI := c.builder;
        if !ended {
          ex.uriIsAbsolute := false;
        }
      } else {
        if !(0 <= c.start <= |c.builder|) {
          return false;
        }
        var path := c.builder[c.start..];
        if decodeAbsolute {
          path := Decode(cfg, path, c.decodeRequired, cfg.allowEncodedSlash);
        }
        ex.requestPath := path;
        ex.relativePath := path;
        ex.requestURI := c.builder;
        ex.uriIsAbsolute := true;
      }
      return true;
    }

    /** The ParseState writes that end the target: the next state, the StringBuilder emptied, parseState, pos and the flag cleared. */
    method ResetTarget(st: ParseState, state: int)
      modifies st
      ensures Snapshot(st) == Reset(old(Snapshot(st)), state)
    {
      st.state := state;
      st.stringBuilder := "";
      st.parseState := 0;
      st.pos := 0;
      st.urlDecodeRequired := false;
    }

    /** handlePath on SP/HT after some text: the target is complete and the query string empty. */
    method EndTarget(st: ParseState, ex: Exchange, c: PathLocals, ghost rest: seq<Byte>) returns (err: Option<ParseError>)
      requires |rest| > 0 && (SignExtendedChar(rest[0]) == ' ' || SignExtendedChar(rest[0]) == '\t') && |c.builder| != 0
      modifies st, ex
      ensures Ran(Snapshot(st), DataOf(ex), 1, err) == PathLoop(Corrected, cfg, old(Snapshot(st)), old(DataOf(ex)), c, rest)
    {
      var ok := SetTarget(ex, c, true, true);
      if !ok {
        st.stringBuilder := c.builder;
        return Some(IndexOutOfBounds);
      }
      ex.queryString := "";
      ResetTarget(st, Version);
      return None;
    }

    /** handlePath on '?' or ';' in START or HOST_DONE: the path is complete and the parameters follow. */
    method SplitTarget(buf: ByteBuffer, st: ParseState, ex: Exchange, c: PathLocals, next: char, ghost rest: seq<Byte>)
      returns (err: Option<ParseError>)
      requires buf.Valid() && |rest| > 0 && buf.Rest() == rest[1..] && next == SignExtendedChar(rest[0])
      requires (next == '?' || next == ';') && (c.sub == Start || c.sub == HostDone)
      modifies buf`position, st, ex
      ensures buf.Valid() && old(buf.position) <= buf.position
      ensures Ran(Snapshot(st), DataOf(ex), buf.position - old(buf.position) + 1, err)
              == PathLoop(Corrected, cfg, old(Snapshot(st)), old(DataOf(ex)), c, rest)
    {
      var query := next == '?';
      var ok := SetTarget(ex, c, false, true);
      if !ok {
        st.stringBuilder := c.builder;
        return Some(IndexOutOfBounds);
      }
      ResetTarget(st, if query then QueryParameters else PathParameters);
      err := HandleParameters(query, buf, st, ex);
    }

    /** One byte of handlePath's loop: the locals after it, or whether the loop stops and with what exception. */
    method PathByte(buf: ByteBuffer, st: ParseState, ex: Exchange, c: PathLocals)
      returns (stop: bool, d: PathLocals, err: Option<ParseError>)
      requires buf.Valid() && buf.HasRemaining()
      modifies buf`position, st, ex
      ensures buf.Valid() && old(buf.position) < buf.position
      ensures stop ==>
        Ran(Snapshot(st), DataOf(ex), buf.position - old(buf.position), err) == PathLoop(Corrected, cfg, old(Snapshot(st)), old(DataOf(ex)), c, old(buf.Rest()))
      ensures !stop ==>
        && Snapshot(st) == old(Snapshot(st)) && DataOf(ex) == old(DataOf(ex)) && buf.Rest() == old(buf.Rest())[1..]
        && PathLoop(Corrected, cfg, old(Snapshot(st)), old(DataOf(ex)), c, old(buf.Rest()))
           == Later(PathLoop(Corrected, cfg, old(Snapshot(st)), old(DataOf(ex)), d, buf.Rest()), 1)
    {
      ghost var rest := buf.Rest();
      var x := buf.Get();
      var next := JavaChar(x);
      UnsignedOfSigned(rest[0]);
      assert next == SignExtendedChar(rest[0]);
      assert buf.Rest() == rest[1..];
      d, err := c, None;
      if next == ' ' || next == '\t' {
        if |c.builder| != 0 {
          err := EndTarget(st, ex, c, rest);
          return true, c, err;
        }
        return false, c, None;
      } else if next == '\r' || next == '\n' {
        st.stringBuilder := c.builder;
        return true, c, Some(FailedToParsePath);
      } else if (next == '?' || next == ';') && (c.sub == Start || c.sub == HostDone) {
        err := SplitTarget(buf, st, ex, c, next, rest);
        return true, c, err;
      }
      var sub, start, decodeRequired := c.sub, c.start, c.decodeRequired;
      if cfg.decodeUrl && (next == '+' || next == '%') {
        decodeRequired := true;
      } else if next == ':' && sub == Start {
        sub := FirstColon;
      } else if next == '/' && sub == FirstColon {
        sub := FirstSlash;
      } else if next == '/' && sub == FirstSlash {
        sub := SecondSlash;
      } else if next == '/' && sub == SecondSlash {
        sub := HostDone;
        start := |c.builder|;
      } else if sub == FirstColon || sub == FirstSlash {
        sub := Start;
      }
      d := PathLocals(sub, start, decodeRequired, c.builder + [next]);
      assert d == PathChar(cfg, c, next);
      stop := false;
    }

    /** handlePath: reads the request target up to SP/HT, '?' or ';'. */
    method HandlePath(buf: ByteBuffer, st: ParseState, ex: Exchange) returns (err: Option<ParseError>)
      requires buf.Valid()
      modifies buf`position, st, ex
      ensures buf.Valid() && old(buf.position) <= buf.position
      ensures Ran(Snapshot(st), DataOf(ex), buf.position - old(buf.position), err)
              == PathRun(Corrected, cfg, old(Snapshot(st)), old(DataOf(ex)), old(buf.Rest()))
    {
      ghost var ps0, ex0, rest0, p0 := Snapshot(st), DataOf(ex), buf.Rest(), buf.position;
      ghost var goal := PathRun(Corrected, cfg, ps0, ex0, rest0);
      var c := PathLocals(st.parseState, st.pos, st.urlDecodeRequired, st.stringBuilder);
      while buf.HasRemaining()
        invariant buf.Valid() && p0 <= buf.position
        invariant Snapshot(st) == ps0 && DataOf(ex) == ex0
        invariant goal == Later(PathLoop(Corrected, cfg, ps0, ex0, c, buf.Rest()), buf.position - p0)
        decreases |buf.data| - buf.position
      {
        var stop, d, e := PathByte(buf, st, ex, c);
        if stop {
          return e;
        }
        c := d;
      }
      st.parseState := c.sub;
      st.pos := c.start;
      st.urlDecodeRequired := c.decodeRequired;
      st.stringBuilder := c.builder;
      return None;
    }

    /** addQueryParam or addPathParam. */
    method AddParameter(ex: Exchange, query: bool, p: Param)
      modifies ex
      ensures DataOf(ex) == AddParam(old(DataOf(ex)), query, p)
    {
      if query {
        ex.queryParams := ex.queryParams + [p];
      } else {
        ex.pathParams := ex.pathParams + [p];
      }
    }

    /** A parameter char that does not end the parameters: the locals after it, or the exception it throws. */
    method ParameterChar(query: bool, ex: Exchange, c: ParamLocals, next: char) returns (d: ParamLocals, err: Option<ParseError>)
      modifies ex
      ensures ParamStep(DataOf(ex), d, err) == ParamChar(cfg, query, old(DataOf(ex)), c, next)
    {
      d, err := c, None;
      if cfg.decodeUrl && (next == '+' || next == '%') {
        d := d.(decodeRequired := true);
      } else if next == '=' && c.name.None? {
        if !(0 <= c.pos <= |c.builder|) {
          return c, Some(IndexOutOfBounds);
        }
        d := d.(name := Some(Decode(cfg, c.builder[c.pos..], c.decodeRequired, true)), decodeRequired := false,
                pos := |c.builder| + 1);
      } else if next == '&' {
        if c.mapCount > cfg.maxParameters {
          return c, Some(TooManyQueryParameters);
        }
        if !(0 <= c.pos <= |c.builder|) {
          return c, Some(IndexOutOfBounds);
        }
        var value := Decode(cfg, c.builder[c.pos..], c.decodeRequired, true);
        if c.name.None? {
          AddParameter(ex, query, Param(value, ""));
        } else {
          AddParameter(ex, query, Param(c.name.value, value));
        }
        d := d.(mapCount := c.mapCount + 1, decodeRequired := false, pos := |c.builder| + 1, name := None);
      }
      d := d.(builder := c.builder + [next]);
    }

    /** The parameter pending when the parameters end; false where substring throws. */
    method AddLastParameter(query: bool, ex: Exchange, c: ParamLocals) returns (ok: bool)
      modifies ex
      ensures ok == LastParam(cfg, query, old(DataOf(ex)), c).Some?
      ensures DataOf(ex) == if ok then LastParam(cfg, query, old(DataOf(ex)), c).value else old(DataOf(ex))
    {
      if c.name.None? && c.pos == |c.builder| {
        return true;
      }
      if !(0 <= c.pos <= |c.builder|) {
        return false;
      }
      var value := Decode(cfg, c.builder[c.pos..], c.decodeRequired, true);
      if c.name.None? {
        AddParameter(ex, query, Param(value, ""));
      } else {
        AddParameter(ex, query, Param(c.name.value, value));
      }
      return true;
    }

    /**
     * The parameters end at SP/HT (or '?' after path parameters): the
     * pending parameter is added, the query string or the URI completed,
     * and the ParseState cleared for the next state.
     */
    method EndParameters(query: bool, buf: ByteBuffer, st: ParseState, ex: Exchange, c: ParamLocals, next: char)
      returns (err: Option<ParseError>)
      requires buf.Valid() && EndsParams(query, next)
      modifies buf`position, st, ex
      ensures buf.Valid() && old(buf.position) <= buf.position
      ensures Ran(Snapshot(st), DataOf(ex), buf.position - old(buf.position), err)
              == ParamsEnd(Corrected, cfg, query, old(Snapshot(st)), old(DataOf(ex)), c, next, old(buf.Rest()))
      decreases |buf.data| - buf.position, 1
    {
      ghost var ps0, ex0 := Snapshot(st), DataOf(ex);
      if query {
        ex.queryString := c.builder;
      }
      var ok := AddLastParameter(query, ex, c);
      if !ok {
        st.stringBuilder := c.builder;
        return Some(IndexOutOfBounds);
      }
      if !query {
        ex.requestURI := ex.requestURI + [';'] + c.builder;
      }
      ghost var ex2 := DataOf(ex);
      if next == '?' {
        ClearParameters(st, QueryParameters);
        err := HandleParameters(true, buf, st, ex);
        assert Ran(Snapshot(st), DataOf(ex), buf.position - old(buf.position), err)
               == ParamRun(Corrected, cfg, true, ParamsDone(ps0, QueryParameters), ex2, old(buf.Rest()));
      } else {
        ClearParameters(st, Version);
        err := None;
      }
    }

    /** The ParseState writes that end the parameters. */
    method ClearParameters(st: ParseState, state: int)
      modifies st
      ensures Snapshot(st) == ParamsDone(old(Snapshot(st)), state)
    {
      st.stringBuilder := "";
      st.pos := 0;
      st.nextQueryParam := None;
      st.mapCount := 0;
      st.urlDecodeRequired := false;
      st.state := state;
    }

    /** handleQueryParameters (query) or handlePathParameters (!query). */
    method HandleParameters(query: bool, buf: ByteBuffer, st: ParseState, ex: Exchange) returns (err: Option<ParseError>)
      requires buf.Valid()
      modifies buf`position, st, ex
      ensures buf.Valid() && old(buf.position) <= buf.position
      ensures Ran(Snapshot(st), DataOf(ex), buf.position - old(buf.position), err)
              == ParamRun(Corrected, cfg, query, old(Snapshot(st)), old(DataOf(ex)), old(buf.Rest()))
      decreases |buf.data| - buf.position, 0
    {
      ghost var ps0, rest0, p0 := Snapshot(st), buf.Rest(), buf.position;
      ghost var goal := ParamRun(Corrected, cfg, query, ps0, DataOf(ex), rest0);
      var c := ParamLocals(st.pos, st.mapCount, st.urlDecodeRequired, st.nextQueryParam, st.stringBuilder);
      while buf.HasRemaining()
        invariant buf.Valid() && p0 <= buf.position
        invariant Snapshot(st) == ps0
        invariant goal == Later(ParamLoop(Corrected, cfg, query, ps0, DataOf(ex), c, buf.Rest()), buf.position - p0)
        decreases |buf.data| - buf.position
      {
        var stop, ends, next, d, e := ParamByte(query, buf, st, ex, c);
        if ends {
          ghost var ex1, rest1 := DataOf(ex), buf.Rest();
          assert goal == Later(ParamsEnd(Corrected, cfg, query, ps0, ex1, c, next, rest1), buf.position - p0);
          err := EndParameters(query, buf, st, ex, c, next);
          return;
        } else if stop {
          return e;
        }
        c := d;
      }
      KeepParameters(st, c);
      return None;
    }

    /** The parameter loop's locals written back when the buffer is empty. */
    method KeepParameters(st: ParseState, c: ParamLocals)
      modifies st
      ensures Snapshot(st) == old(Snapshot(st)).(pos := c.pos, nextQueryParam := c.name, urlDecodeRequired := c.decodeRequired,
                                                 mapCount := c.mapCount, builder := c.builder)
    {
      st.pos := c.pos;
      st.nextQueryParam := c.name;
      st.urlDecodeRequired := c.decodeRequired;
      st.mapCount := c.mapCount;
      st.stringBuilder := c.builder;
    }

    /**
     * One byte of the parameter loop: a char that ends the parameters is
     * handed back for EndParameters; a line end throws; any other char
     * goes through ParameterChar, which may throw.
     */
    method ParamByte(query: bool, buf: ByteBuffer, st: ParseState, ex: Exchange, c: ParamLocals)
      returns (stop: bool, ends: bool, next: char, d: ParamLocals, err: Option<ParseError>)
      requires buf.Valid() && buf.HasRemaining()
      modifies buf`position, st, ex
      ensures buf.Valid() && buf.position == old(buf.position) + 1 && buf.Rest() == old(buf.Rest())[1..]
      ensures ends ==>
        && EndsParams(query, next) && Snapshot(st) == old(Snapshot(st)) && DataOf(ex) == old(DataOf(ex))
        && ParamLoop(Corrected, cfg, query, old(Snapshot(st)), old(DataOf(ex)), c, old(buf.Rest()))
           == Later(ParamsEnd(Corrected, cfg, query, old(Snapshot(st)), old(DataOf(ex)), c, next, buf.Rest()), 1)
      ensures !ends && stop ==>
        Ran(Snapshot(st), DataOf(ex), 1, err) == ParamLoop(Corrected, cfg, query, old(Snapshot(st)), old(DataOf(ex)), c, old(buf.Rest()))
      ensures !ends && !stop ==>
        && Snapshot(st) == old(Snapshot(st))
        && ParamLoop(Corrected, cfg, query, old(Snapshot(st)), old(DataOf(ex)), c, old(buf.Rest()))
           == Later(ParamLoop(Corrected, cfg, query, old(Snapshot(st)), DataOf(ex), d, buf.Rest()), 1)
    {
      ghost var rest := buf.Rest();
      var x := buf.Get();
      next := JavaChar(x);
      UnsignedOfSigned(rest[0]);
      assert next == SignExtendedChar(rest[0]);
      assert buf.Rest() == rest[1..];
      d, err := c, None;
      if next == ' ' || next == '\t' || (!query && next == '?') {
        return false, true, next, c, None;
      } else if next == '\r' || next == '\n' {
        st.stringBuilder := c.builder;
        return true, false, next, c, Some(FailedToParsePath);
      }
      ends := false;
      d, err := ParameterChar(query, ex, c, next);
      stop := err.Some?;
      if stop {
        st.stringBuilder := d.builder;
      }
    }

    /**
     * A line end followed by a byte that is not SP/HT: the header is
     * complete.  The count is checked (and raised) first; the value must be
     * Latin-1 for new HttpString(String); the header is added, nextHeader
     * cleared, the byte kept in leftOver and the StringBuilder emptied.
     */
    method AddHeader(st: ParseState, ex: Exchange, next: int) returns (err: Option<ParseError>)
      modifies st, ex
      ensures old(st.mapCount) > cfg.maxHeaders ==> err == Some(TooManyHeaders)
      ensures old(st.mapCount) <= cfg.maxHeaders && !IsLatin1(old(st.stringBuilder)) ==> err == Some(IllegalCharacter)
      ensures err.Some? ==> Snapshot(st) == old(Snapshot(st)).(mapCount := old(st.mapCount) + 1) && DataOf(ex) == old(DataOf(ex))
      ensures err.None? <==> old(st.mapCount) <= cfg.maxHeaders && IsLatin1(old(st.stringBuilder))
      ensures err.None? ==>
        Snapshot(st) == old(Snapshot(st)).(mapCount := old(st.mapCount) + 1, nextHeader := None, leftOver := next, builder := "")
        && DataOf(ex) == old(DataOf(ex)).(requestHeaders := old(ex.requestHeaders) + [HeaderEntry(old(st.nextHeader), LowBytes(old(st.stringBuilder)))])
    {
      var count := st.mapCount;
      st.mapCount := count + 1;
      if count > cfg.maxHeaders {
        return Some(TooManyHeaders);
      }
      var value := HttpStrings.HttpString.FromString(st.stringBuilder);
      if value.Err? {
        return Some(IllegalCharacter);
      }
      ex.requestHeaders := ex.requestHeaders + [HeaderEntry(st.nextHeader, LowBytes(st.stringBuilder))];
      st.nextHeader := None;
      st.leftOver := next;
      st.stringBuilder := "";
      return None;
    }

    /** handleHeaderValue: reads a header value, folded lines included, up to the line end that completes it. */
    method HandleHeaderValue(buf: ByteBuffer, st: ParseState, ex: Exchange) returns (err: Option<ParseError>)
      requires buf.Valid()
      modifies buf`position, st, ex
      ensures buf.Valid() && old(buf.position) <= buf.position
      ensures Ran(Snapshot(st), DataOf(ex), buf.position - old(buf.position), err)
              == ValueRun(Corrected, cfg, old(Snapshot(st)), old(DataOf(ex)), old(buf.Rest()))
    {
      ghost var p0 := buf.position;
      ghost var goal := ValueRun(Corrected, cfg, Snapshot(st), DataOf(ex), buf.Rest());
      var parseState := st.parseState;
      while buf.HasRemaining() && parseState == Normal
        invariant buf.Valid() && p0 <= buf.position
        invariant goal == Later(ValueLoop(Corrected, cfg, Snapshot(st), DataOf(ex), parseState, buf.Rest()), buf.position - p0)
        decreases |buf.data| - buf.position
      {
        ghost var rest := buf.Rest();
        var next := buf.Get();
        assert buf.Rest() == rest[1..];
        if next == CR {
          parseState := BeginLineEnd;
        } else if next == LF {
          parseState := LineEnd;
        } else if next == SP || next == HT {
          parseState := Whitespace;
        } else {
          UnsignedOfSigned(rest[0]);
          st.stringBuilder := st.stringBuilder + [Latin1Char(Unsigned(next))];
        }
      }
      while buf.HasRemaining()
        invariant buf.Valid() && p0 <= buf.position
        invariant goal == Later(ValueLoop(Corrected, cfg, Snapshot(st), DataOf(ex), parseState, buf.Rest()), buf.position - p0)
        decreases |buf.data| - buf.position
      {
        ghost var rest := buf.Rest();
        var next := buf.Get();
        assert buf.Rest() == rest[1..];
        var stop;
        parseState, stop, err := ValueByte(st, ex, parseState, next, rest);
        if stop {
          return;
        }
      }
      st.parseState := parseState;
      return None;
    }

    /** A byte of handleHeaderValue after a line end: a folded line, or the header complete. */
    method LineEndByte(st: ParseState, ex: Exchange, sub: int, next: int, ghost rest: seq<Byte>)
      returns (sub': int, stop: bool, err: Option<ParseError>)
      requires |rest| > 0 && next == Signed(rest[0]) && (sub == LineEnd || sub == BeginLineEnd)
      modifies st, ex
      ensures err.Some? ==> stop
      ensures ValueLoop(Corrected, cfg, old(Snapshot(st)), old(DataOf(ex)), sub, rest)
              == if stop then Ran(Snapshot(st), DataOf(ex), 1, err)
                 else Later(ValueLoop(Corrected, cfg, Snapshot(st), DataOf(ex), sub', rest[1..]), 1)
    {
      UnsignedOfSigned(rest[0]);
      sub', stop, err := sub, false, None;
      if next == LF && sub == BeginLineEnd {
        sub' := LineEnd;
      } else if next == HT || next == SP {
        sub' := Whitespace;
      } else {
        err := AddHeader(st, ex, next);
        if err.Some? {
          stop := true;
        } else if next == CR {
          sub' := AwaitDataEnd;
        } else {
          st.state := Header;
          st.parseState := 0;
          stop := true;
        }
      }
    }

    /**
     * One pass of handleHeaderValue's switch on the byte `next`: the new
     * sub-state, or stop when the call returns after it.
     */
    method ValueByte(st: ParseState, ex: Exchange, sub: int, next: int, ghost rest: seq<Byte>)
      returns (sub': int, stop: bool, err: Option<ParseError>)
      requires |rest| > 0 && next == Signed(rest[0])
      modifies st, ex
      ensures err.Some? ==> stop
      ensures ValueLoop(Corrected, cfg, old(Snapshot(st)), old(DataOf(ex)), sub, rest)
              == if stop then Ran(Snapshot(st), DataOf(ex), 1, err)
                 else Later(ValueLoop(Corrected, cfg, Snapshot(st), DataOf(ex), sub', rest[1..]), 1)
    {
      UnsignedOfSigned(rest[0]);
      sub', stop, err := sub, false, None;
      if sub == Normal || sub == Whitespace {
        if next == CR {
          sub' := BeginLineEnd;
        } else if next == LF {
          sub' := LineEnd;
        } else if next == SP || next == HT {
          sub' := Whitespace;
        } else {
          if sub == Whitespace && |st.stringBuilder| > 0 {
            st.stringBuilder := st.stringBuilder + [' '];
          }
          st.stringBuilder := st.stringBuilder + [Latin1Char(Unsigned(next))];
          sub' := Normal;
        }
      } else if sub == LineEnd || sub == BeginLineEnd {
        sub', stop, err := LineEndByte(st, ex, sub, next, rest);
      } else if sub == AwaitDataEnd {
        st.MarkComplete();
        stop := true;
      }
    }

    /**
     * handleAfterVersion: the line end after the version, and the first
     * byte of the headers or the blank line.  It does not touch the
     * exchange; `e` stands for it in the contract.
     */
    method HandleAfterVersion(buf: ByteBuffer, st: ParseState, ghost e: ExData) returns (err: Option<ParseError>)
      requires buf.Valid()
      modifies buf`position, st
      ensures buf.Valid() && old(buf.position) <= buf.position
      ensures Ran(Snapshot(st), e, buf.position - old(buf.position), err) == AfterVersionRun(old(Snapshot(st)), e, old(buf.Rest()))
    {
      ghost var p0 := buf.position;
      ghost var goal := AfterVersionRun(Snapshot(st), e, buf.Rest());
      var newLine := st.leftOver == LF;
      while buf.HasRemaining()
        invariant buf.Valid() && p0 <= buf.position
        invariant Snapshot(st) == old(Snapshot(st))
        invariant goal == Later(AfterVersionLoop(Snapshot(st), e, newLine, buf.Rest()), buf.position - p0)
        decreases |buf.data| - buf.position
      {
        ghost var rest := buf.Rest();
        var next := buf.Get();
        assert buf.Rest() == rest[1..];
        if newLine {
          if next == LF {
            st.MarkComplete();
          } else {
            st.state := Header;
            st.leftOver := next;
          }
          return None;
        } else if next == LF {
          newLine := true;
        } else if next != CR && next != SP && next != HT {
          st.state := Header;
          st.leftOver := next;
          return None;
        } else {
          return Some(BadRequest);
        }
      }
      if newLine {
        st.leftOver := LF;
      }
      return None;
    }

    /** One pass of handle's header loop. */
    method HandleHeaderRound(buf: ByteBuffer, st: ParseState, ex: Exchange) returns (err: Option<ParseError>)
      requires Valid() && buf.Valid()
      modifies buf`position, st, ex
      ensures buf.Valid() && old(buf.position) <= buf.position
      ensures Ran(Snapshot(st), DataOf(ex), buf.position - old(buf.position), err)
              == HeaderRound(Spec(), Corrected, old(Snapshot(st)), old(DataOf(ex)), old(buf.Rest()))
    {
      ghost var rest0, p0 := buf.Rest(), buf.position;
      err := HandleToken(HeaderMachine, buf, st, ex);
      if err.None? && st.state == HeaderValue {
        assert buf.Rest() == rest0[buf.position - p0..];
        err := HandleHeaderValue(buf, st, ex);
      }
    }

    /** One pass of handle's header loop, stated against the loop's specification. */
    method HeadersStep(buf: ByteBuffer, st: ParseState, ex: Exchange) returns (err: Option<ParseError>)
      requires Valid() && buf.Valid() && st.state != ParseComplete && buf.HasRemaining()
      modifies buf`position, st, ex
      ensures buf.Valid() && old(buf.position) <= buf.position
      ensures err.Some? ==> (Ran(Snapshot(st), DataOf(ex), buf.position - old(buf.position), err)
              == FastHeaders(Spec(), Corrected, old(Snapshot(st)), old(DataOf(ex)), old(buf.Rest())))
      ensures err.None? ==> (FastHeaders(Spec(), Corrected, old(Snapshot(st)), old(DataOf(ex)), old(buf.Rest()))
              == Later(FastHeaders(Spec(), Corrected, Snapshot(st), DataOf(ex), buf.Rest()), buf.position - old(buf.position)))
      ensures err.None? && st.state != ParseComplete ==> old(buf.position) < buf.position
    {
      ghost var ps1, ex1, rest1, p1 := Snapshot(st), DataOf(ex), buf.Rest(), buf.position;
      ghost var here := FastHeaders(Spec(), Corrected, ps1, ex1, rest1);
      FastHeadersRound(Spec(), Corrected, ps1, ex1, rest1);
      err := HandleHeaderRound(buf, st, ex);
      ghost var w := Ran(Snapshot(st), DataOf(ex), buf.position - p1, err);
      assert w == HeaderRound(Spec(), Corrected, ps1, ex1, rest1);
      if err.Some? {
        assert here == w;
        return;
      }
      assert buf.Rest() == rest1[w.used..];
      assert here == if w.ps.state == ParseComplete then w else Later(FastHeaders(Spec(), Corrected, w.ps, w.ex, buf.Rest()), w.used);
    }

    /** handle's header loop: a header name and then its value while the head is incomplete and bytes remain. */
    method HandleHeaders(buf: ByteBuffer, st: ParseState, ex: Exchange) returns (err: Option<ParseError>)
      requires Valid() && buf.Valid()
      modifies buf`position, st, ex
      ensures buf.Valid() && old(buf.position) <= buf.position
      ensures Ran(Snapshot(st), DataOf(ex), buf.position - old(buf.position), err)
              == FastHeaders(Spec(), Corrected, old(Snapshot(st)), old(DataOf(ex)), old(buf.Rest()))
    {
      ghost var p0 := buf.position;
      ghost var goal := FastHeaders(Spec(), Corrected, Snapshot(st), DataOf(ex), buf.Rest());
      while st.state != ParseComplete && buf.HasRemaining()
        invariant buf.Valid() && p0 <= buf.position
        invariant goal == Later(FastHeaders(Spec(), Corrected, Snapshot(st), DataOf(ex), buf.Rest()), buf.position - p0)
        decreases |buf.data| - buf.position, if st.state == ParseComplete then 0 else 1
      {
        err := HeadersStep(buf, st, ex);
        if err.Some? {
          return;
        }
      }
      return None;
    }

    /** The verb: the GET fast path where it reads what the verb machine would, the verb machine otherwise. */
    method HandleVerb(buf: ByteBuffer, st: ParseState, ex: Exchange) returns (err: Option<ParseError>)
      requires Valid() && buf.Valid()
      modifies buf`position, st, ex
      ensures buf.Valid() && old(buf.position) <= buf.position
      ensures Ran(Snapshot(st), DataOf(ex), buf.position - old(buf.position), err)
              == VerbRun(Spec(), Corrected, old(Snapshot(st)), old(DataOf(ex)), old(buf.Rest()))
    {
      var position := buf.position;
      if |buf.data| - position > 3 && buf.data[position..position + 3] == GetBytes
         && st.parseState == 0 && st.stringBuilder == "" && st.leftOver == 0 && IsTerminator(false, Signed(buf.data[position + 3])) {
        assert buf.Rest()[..3] == GetBytes;
        TakeGet(buf, st, ex);
        err := None;
      } else {
        assert !FastGet(Corrected, Snapshot(st), buf.Rest()) by {
          if |buf.Rest()| > 3 {
            assert buf.Rest()[..3] == buf.data[position..position + 3];
          }
        }
        err := HandleToken(VerbMachine, buf, st, ex);
      }
    }

    /** The GET fast path once it applies: three bytes read, the method set and the state moved on to the path. */
    method TakeGet(buf: ByteBuffer, st: ParseState, ex: Exchange)
      requires buf.Valid() && FastGet(Corrected, Snapshot(st), buf.Rest())
      modifies buf`position, st, ex
      ensures buf.Valid() && buf.position == old(buf.position) + 3
      ensures Ran(Snapshot(st), DataOf(ex), 3, None) == FastGetRun(Corrected, old(Snapshot(st)), old(DataOf(ex)))
    {
      buf.SetPosition(buf.position + 3);
      ex.requestMethod := Some(GetBytes);
      st.state := Path;
      st.pos := 0;
      st.current := None;
      st.currentBytes := None;
    }

    /** handle from handleAfterVersion on. */
    method HandleFromAfterVersion(buf: ByteBuffer, st: ParseState, ex: Exchange) returns (err: Option<ParseError>)
      requires Valid() && buf.Valid()
      modifies buf`position, st, ex
      ensures buf.Valid() && old(buf.position) <= buf.position
      ensures Ran(Snapshot(st), DataOf(ex), buf.position - old(buf.position), err)
              == FromAfterVersion(Spec(), Corrected, old(Snapshot(st)), old(DataOf(ex)), old(buf.Rest()))
    {
      ghost var ps0, ex0, rest0, p0 := Snapshot(st), DataOf(ex), buf.Rest(), buf.position;
      ghost var goal := FromAfterVersion(Spec(), Corrected, ps0, ex0, rest0);
      err := HandleAfterVersion(buf, st, DataOf(ex));
      ghost var r := Ran(Snapshot(st), DataOf(ex), buf.position - p0, err);
      assert r == AfterVersionRun(ps0, ex0, rest0);
      if err.Some? {
        assert goal == r;
        return;
      }
      assert buf.Rest() == rest0[r.used..];
      assert goal == Later(FastHeaders(Spec(), Corrected, r.ps, r.ex, buf.Rest()), r.used);
      err := HandleHeaders(buf, st, ex);
    }

    /** handle from handleHttpVersion on. */
    method HandleFromVersion(buf: ByteBuffer, st: ParseState, ex: Exchange) returns (err: Option<ParseError>)
      requires Valid() && buf.Valid()
      modifies buf`position, st, ex
      ensures buf.Valid() && old(buf.position) <= buf.position
      ensures Ran(Snapshot(st), DataOf(ex), buf.position - old(buf.position), err)
              == FromVersion(Spec(), Corrected, old(Snapshot(st)), old(DataOf(ex)), old(buf.Rest()))
    {
      ghost var ps0, ex0, rest0, p0 := Snapshot(st), DataOf(ex), buf.Rest(), buf.position;
      ghost var goal := FromVersion(Spec(), Corrected, ps0, ex0, rest0);
      err := HandleToken(VersionMachine, buf, st, ex);
      ghost var r := Ran(Snapshot(st), DataOf(ex), buf.position - p0, err);
      assert r == MachineRun(VersionMachine, MachineOf(VersionMachine), ps0, ex0, rest0);
      if err.Some? {
        assert goal == r;
        return;
      }
      assert buf.Rest() == rest0[r.used..];
      assert goal == Later(FromAfterVersion(Spec(), Corrected, r.ps, r.ex, buf.Rest()), r.used);
      err := HandleFromAfterVersion(buf, st, ex);
    }

    /** handle from handlePath on. */
    method HandleFromPath(buf: ByteBuffer, st: ParseState, ex: Exchange) returns (err: Option<ParseError>)
      requires Valid() && buf.Valid()
      modifies buf`position, st, ex
      ensures buf.Valid() && old(buf.position) <= buf.position
      ensures Ran(Snapshot(st), DataOf(ex), buf.position - old(buf.position), err)
              == FromPath(Spec(), Corrected, old(Snapshot(st)), old(DataOf(ex)), old(buf.Rest()))
    {
      ghost var ps0, ex0, rest0, p0 := Snapshot(st), DataOf(ex), buf.Rest(), buf.position;
      ghost var goal := FromPath(Spec(), Corrected, ps0, ex0, rest0);
      err := HandlePath(buf, st, ex);
      ghost var r := Ran(Snapshot(st), DataOf(ex), buf.position - p0, err);
      assert r == PathRun(Corrected, cfg, ps0, ex0, rest0);
      if err.Some? {
        assert goal == r;
        return;
      }
      assert buf.Rest() == rest0[r.used..];
      assert goal == Later(FromVersion(Spec(), Corrected, r.ps, r.ex, buf.Rest()), r.used);
      err := HandleFromVersion(buf, st, ex);
    }

    /** handle when the state is VERB: the verb, then the path, the version, the line end and the headers. */
    method HandleFast(buf: ByteBuffer, st: ParseState, ex: Exchange) returns (err: Option<ParseError>)
      requires Valid() && buf.Valid()
      modifies buf`position, st, ex
      ensures buf.Valid() && old(buf.position) <= buf.position
      ensures Ran(Snapshot(st), DataOf(ex), buf.position - old(buf.position), err)
              == FastRun(Spec(), Corrected, old(Snapshot(st)), old(DataOf(ex)), old(buf.Rest()))
    {
      ghost var ps0, ex0, rest0, p0 := Snapshot(st), DataOf(ex), buf.Rest(), buf.position;
      ghost var goal := FastRun(Spec(), Corrected, ps0, ex0, rest0);
      err := HandleVerb(buf, st, ex);
      ghost var r := Ran(Snapshot(st), DataOf(ex), buf.position - p0, err);
      assert r == VerbRun(Spec(), Corrected, ps0, ex0, rest0);
      if err.Some? {
        assert goal == r;
        return;
      }
      assert buf.Rest() == rest0[r.used..];
      assert goal == Later(FromPath(Spec(), Corrected, r.ps, r.ex, buf.Rest()), r.used);
      err := HandleFromPath(buf, st, ex);
    }
    /** One pass of handleStateful's loop. */
    method HandleStatefulRound(buf: ByteBuffer, st: ParseState, ex: Exchange) returns (err: Option<ParseError>)
      requires Valid() && buf.Valid() && (st.state == Header || st.state == HeaderValue)
      modifies buf`position, st, ex
      ensures buf.Valid() && old(buf.position) <= buf.position
      ensures Ran(Snapshot(st), DataOf(ex), buf.position - old(buf.position), err)
              == StatefulRound(Spec(), Corrected, old(Snapshot(st)), old(DataOf(ex)), old(buf.Rest()))
    {
      ghost var rest0, p0 := buf.Rest(), buf.position;
      err := None;
      if st.state == Header {
        err := HandleToken(HeaderMachine, buf, st, ex);
        if err.Some? || !buf.HasRemaining() {
          return;
        }
        assert buf.Rest() == rest0[buf.position - p0..];
      }
      if st.state == HeaderValue {
        err := HandleHeaderValue(buf, st, ex);
      }
    }

    /** One pass of handleStateful's loop, stated against the loop's specification. */
    method StatefulStep(buf: ByteBuffer, st: ParseState, ex: Exchange) returns (err: Option<ParseError>)
      requires Valid() && buf.Valid() && (st.state == Header || st.state == HeaderValue)
      modifies buf`position, st, ex
      ensures buf.Valid() && old(buf.position) <= buf.position
      ensures err.Some? || !buf.HasRemaining() ==> (Ran(Snapshot(st), DataOf(ex), buf.position - old(buf.position), err)
              == StatefulHeaders(Spec(), Corrected, old(Snapshot(st)), old(DataOf(ex)), old(buf.Rest())))
      ensures err.None? && buf.HasRemaining() ==> InHeaders(st.state)
      ensures err.None? && buf.HasRemaining() ==> (StatefulHeaders(Spec(), Corrected, old(Snapshot(st)), old(DataOf(ex)), old(buf.Rest()))
              == Later(StatefulHeaders(Spec(), Corrected, Snapshot(st), DataOf(ex), buf.Rest()), buf.position - old(buf.position)))
      ensures err.None? && buf.HasRemaining() && st.state != ParseComplete ==> old(buf.position) < buf.position
    {
      ghost var ps1, ex1, rest1, p1 := Snapshot(st), DataOf(ex), buf.Rest(), buf.position;
      ghost var here := StatefulHeaders(Spec(), Corrected, ps1, ex1, rest1);
      StatefulHeadersRound(Spec(), Corrected, ps1, ex1, rest1);
      err := HandleStatefulRound(buf, st, ex);
      ghost var w := Ran(Snapshot(st), DataOf(ex), buf.position - p1, err);
      assert w == StatefulRound(Spec(), Corrected, ps1, ex1, rest1);
      if err.Some? || !buf.HasRemaining() {
        assert here == w;
        return;
      }
      assert buf.Rest() == rest1[w.used..];
      assert here == if w.ps.state == ParseComplete then w else Later(StatefulHeaders(Spec(), Corrected, w.ps, w.ex, buf.Rest()), w.used);
    }

    /** handleStateful's loop: header names and values until the head is complete or the buffer is empty. */
    method HandleStatefulHeaders(buf: ByteBuffer, st: ParseState, ex: Exchange) returns (err: Option<ParseError>)
      requires Valid() && buf.Valid() && InHeaders(st.state)
      modifies buf`position, st, ex
      ensures buf.Valid() && old(buf.position) <= buf.position
      ensures Ran(Snapshot(st), DataOf(ex), buf.position - old(buf.position), err)
              == StatefulHeaders(Spec(), Corrected, old(Snapshot(st)), old(DataOf(ex)), old(buf.Rest()))
    {
      ghost var p0 := buf.position;
      ghost var goal := StatefulHeaders(Spec(), Corrected, Snapshot(st), DataOf(ex), buf.Rest());
      err := None;
      while st.state != ParseComplete
        invariant buf.Valid() && p0 <= buf.position && InHeaders(st.state) && err.None?
        invariant goal == Later(StatefulHeaders(Spec(), Corrected, Snapshot(st), DataOf(ex), buf.Rest()), buf.position - p0)
        decreases |buf.data| - buf.position, if st.state == ParseComplete then 0 else 1
      {
        err := StatefulStep(buf, st, ex);
        if err.Some? || !buf.HasRemaining() {
          return;
        }
      }
    }

    /** handleStateful from the AFTER_VERSION block on. */
    method HandleStatefulFromAfterVersion(buf: ByteBuffer, st: ParseState, ex: Exchange) returns (err: Option<ParseError>)
      requires Valid() && buf.Valid() && AfterVersion <= st.state <= ParseComplete
      modifies buf`position, st, ex
      ensures buf.Valid() && old(buf.position) <= buf.position
      ensures Ran(Snapshot(st), DataOf(ex), buf.position - old(buf.position), err)
              == StatefulFromAfterVersion(Spec(), Corrected, old(Snapshot(st)), old(DataOf(ex)), old(buf.Rest()))
    {
      ghost var ps0, ex0, rest0, p0 := Snapshot(st), DataOf(ex), buf.Rest(), buf.position;
      ghost var goal := StatefulFromAfterVersion(Spec(), Corrected, ps0, ex0, rest0);
      if st.state == AfterVersion {
        err := HandleAfterVersion(buf, st, DataOf(ex));
        ghost var r := Ran(Snapshot(st), DataOf(ex), buf.position - p0, err);
        assert r == AfterVersionRun(ps0, ex0, rest0);
        if err.Some? || !buf.HasRemaining() {
          assert goal == r;
          return;
        }
        assert buf.Rest() == rest0[r.used..];
        assert goal == Later(StatefulHeaders(Spec(), Corrected, r.ps, r.ex, buf.Rest()), r.used);
      } else {
        assert goal == Later(StatefulHeaders(Spec(), Corrected, ps0, ex0, rest0), 0);
      }
      err := HandleStatefulHeaders(buf, st, ex);
    }

    /** handleStateful from the VERSION block on. */
    method HandleStatefulFromVersion(buf: ByteBuffer, st: ParseState, ex: Exchange) returns (err: Option<ParseError>)
      requires Valid() && buf.Valid() && Version <= st.state <= ParseComplete
      modifies buf`position, st, ex
      ensures buf.Valid() && old(buf.position) <= buf.position
      ensures Ran(Snapshot(st), DataOf(ex), buf.position - old(buf.position), err)
              == StatefulFromVersion(Spec(), Corrected, old(Snapshot(st)), old(DataOf(ex)), old(buf.Rest()))
    {
      ghost var ps0, ex0, rest0, p0 := Snapshot(st), DataOf(ex), buf.Rest(), buf.position;
      ghost var goal := StatefulFromVersion(Spec(), Corrected, ps0, ex0, rest0);
      if st.state == Version {
        err := HandleToken(VersionMachine, buf, st, ex);
        ghost var r := Ran(Snapshot(st), DataOf(ex), buf.position - p0, err);
        assert r == MachineRun(VersionMachine, MachineOf(VersionMachine), ps0, ex0, rest0);
        if err.Some? || !buf.HasRemaining() {
          assert goal == r;
          return;
        }
        assert buf.Rest() == rest0[r.used..];
        assert goal == Later(StatefulFromAfterVersion(Spec(), Corrected, r.ps, r.ex, buf.Rest()), r.used);
      } else {
        assert goal == Later(StatefulFromAfterVersion(Spec(), Corrected, ps0, ex0, rest0), 0);
      }
      err := HandleStatefulFromAfterVersion(buf, st, ex);
    }

    /** handleStateful from the PATH_PARAMETERS block on. */
    method HandleStatefulFromPathParameters(buf: ByteBuffer, st: ParseState, ex: Exchange) returns (err: Option<ParseError>)
      requires Valid() && buf.Valid() && (st.state == PathParameters || Version <= st.state <= ParseComplete)
      modifies buf`position, st, ex
      ensures buf.Valid() && old(buf.position) <= buf.position
      ensures Ran(Snapshot(st), DataOf(ex), buf.position - old(buf.position), err)
              == StatefulFromPathParameters(Spec(), Corrected, old(Snapshot(st)), old(DataOf(ex)), old(buf.Rest()))
    {
      ghost var ps0, ex0, rest0, p0 := Snapshot(st), DataOf(ex), buf.Rest(), buf.position;
      ghost var goal := StatefulFromPathParameters(Spec(), Corrected, ps0, ex0, rest0);
      if st.state == PathParameters {
        err := HandleParameters(false, buf, st, ex);
        ghost var r := Ran(Snapshot(st), DataOf(ex), buf.position - p0, err);
        assert r == ParamRun(Corrected, cfg, false, ps0, ex0, rest0);
        if err.Some? || !buf.HasRemaining() {
          assert goal == r;
          return;
        }
        assert buf.Rest() == rest0[r.used..];
        assert goal == Later(StatefulFromVersion(Spec(), Corrected, r.ps, r.ex, buf.Rest()), r.used);
      } else {
        assert goal == Later(StatefulFromVersion(Spec(), Corrected, ps0, ex0, rest0), 0);
      }
      err := HandleStatefulFromVersion(buf, st, ex);
    }

    /** handleStateful from the QUERY_PARAMETERS block on. */
    method HandleStatefulFromQuery(buf: ByteBuffer, st: ParseState, ex: Exchange) returns (err: Option<ParseError>)
      requires Valid() && buf.Valid() && PathParameters <= st.state <= ParseComplete
      modifies buf`position, st, ex
      ensures buf.Valid() && old(buf.position) <= buf.position
      ensures Ran(Snapshot(st), DataOf(ex), buf.position - old(buf.position), err)
              == StatefulFromQuery(Spec(), Corrected, old(Snapshot(st)), old(DataOf(ex)), old(buf.Rest()))
    {
      ghost var ps0, ex0, rest0, p0 := Snapshot(st), DataOf(ex), buf.Rest(), buf.position;
      ghost var goal := StatefulFromQuery(Spec(), Corrected, ps0, ex0, rest0);
      if st.state == QueryParameters {
        err := HandleParameters(true, buf, st, ex);
        ghost var r := Ran(Snapshot(st), DataOf(ex), buf.position - p0, err);
        assert r == ParamRun(Corrected, cfg, true, ps0, ex0, rest0);
        if err.Some? || !buf.HasRemaining() {
          assert goal == r;
          return;
        }
        assert buf.Rest() == rest0[r.used..];
        assert goal == Later(StatefulFromPathParameters(Spec(), Corrected, r.ps, r.ex, buf.Rest()), r.used);
      } else {
        assert goal == Later(StatefulFromPathParameters(Spec(), Corrected, ps0, ex0, rest0), 0);
      }
      err := HandleStatefulFromPathParameters(buf, st, ex);
    }

    /** handleStateful: resumes a request head in whatever state an earlier call left it. */
    method HandleStateful(buf: ByteBuffer, st: ParseState, ex: Exchange) returns (err: Option<ParseError>)
      requires Valid() && buf.Valid() && Path <= st.state <= ParseComplete
      modifies buf`position, st, ex
      ensures buf.Valid() && old(buf.position) <= buf.position
      ensures Ran(Snapshot(st), DataOf(ex), buf.position - old(buf.position), err)
              == StatefulRun(Spec(), Corrected, old(Snapshot(st)), old(DataOf(ex)), old(buf.Rest()))
    {
      ghost var ps0, ex0, rest0, p0 := Snapshot(st), DataOf(ex), buf.Rest(), buf.position;
      ghost var goal := StatefulRun(Spec(), Corrected, ps0, ex0, rest0);
      if st.state == Path {
        err := HandlePath(buf, st, ex);
        ghost var r := Ran(Snapshot(st), DataOf(ex), buf.position - p0, err);
        assert r == PathRun(Corrected, cfg, ps0, ex0, rest0);
        if err.Some? || !buf.HasRemaining() {
          assert goal == r;
          return;
        }
        assert buf.Rest() == rest0[r.used..];
        assert goal == Later(StatefulFromQuery(Spec(), Corrected, r.ps, r.ex, buf.Rest()), r.used);
      } else {
        assert goal == Later(StatefulFromQuery(Spec(), Corrected, ps0, ex0, rest0), 0);
      }
      err := HandleStatefulFromQuery(buf, st, ex);
    }

    /** handle: one call on the bytes that have arrived, in any state of the request head. */
    method Handle(buf: ByteBuffer, st: ParseState, ex: Exchange) returns (err: Option<ParseError>)
      requires Valid() && buf.Valid() && Verb <= st.state <= ParseComplete
      modifies buf`position, st, ex
      ensures buf.Valid() && old(buf.position) <= buf.position
      ensures Ran(Snapshot(st), DataOf(ex), buf.position - old(buf.position), err)
              == HandleRun(Spec(), Corrected, old(Snapshot(st)), old(DataOf(ex)), old(buf.Rest()))
    {
      if st.state == Verb {
        err := HandleFast(buf, st, ex);
      } else {
        err := HandleStateful(buf, st, ex);
      }
    }
  }
}
