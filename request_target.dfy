/**
 * What handlePath, handleQueryParameters and handlePathParameters
 * (HttpRequestParser.java:466-733) make of a request target, stated about
 * the handlers of RequestParser: where the target starts and ends, the
 * origin and absolute forms, when a token is URL-decoded, how the query
 * and the path parameters are split, the parameter limit, and that a call
 * which runs out of bytes leaves behind what the next call resumes from.
 */
module RequestTarget {
  import opened Octets
  import opened ParseStates
  import opened RequestParser

  const Colon: Byte := ':' as int
  const Slash: Byte := '/' as int
  const Question: Byte := '?' as int
  const Semicolon: Byte := ';' as int
  const Amp: Byte := '&' as int
  const Eq: Byte := '=' as int

  /** The chars (char) buffer.get() gives for the bytes t. */
  function Text(t: seq<Byte>): (s: string)
    ensures |s| == |t|
    ensures forall i :: 0 <= i < |t| ==> s[i] == SignExtendedChar(t[i])
  {
    seq(|t|, i requires 0 <= i < |t| => SignExtendedChar(t[i]))
  }

  lemma TextAppend(a: seq<Byte>, b: seq<Byte>)
    ensures Text(a + b) == Text(a) + Text(b)
  {
  }

  lemma TextSuffix(t: seq<Byte>, k: nat)
    requires k <= |t|
    ensures Text(t)[k..] == Text(t[k..])
  {
  }

  /** A '+' or '%': the chars that send a token through URLUtils.decode when decoding is on. */
  predicate Escapes(s: string) {
    '+' in s || '%' in s
  }

  predicate IsBlank(b: Byte) {
    b == SP || b == HT
  }

  predicate Blanks(ws: seq<Byte>) {
    forall i :: 0 <= i < |ws| ==> IsBlank(ws[i])
  }

  predicate IsNewline(b: Byte) {
    b == CR || b == LF
  }

  /**
   * Whether two runs of a handler agree on everything the parse goes on
   * with: bytes read, exception, exchange, and the ParseState unless an
   * exception was thrown (an exception leaves the handler's locals
   * unwritten, so the state then holds whatever the call started with).
   * Once the head is complete, parseState is no longer read.
   */
  predicate Agree(r: Ran, s: Ran) {
    r.used == s.used && r.error == s.error && r.ex == s.ex
    && (r.error.None? ==>
          if r.ps.state == ParseComplete then r.ps.(parseState := 0) == s.ps.(parseState := 0) else r.ps == s.ps)
  }

  // ---------------------------------------------------------------------
  // The path
  // ---------------------------------------------------------------------

  /**
   * A target byte that, in the sub-state sub, neither ends nor splits the
   * target nor moves the sub-state: in START anything but ':', '?' and
   * ';'; between the second slash and the host's end anything but '/'; in
   * HOST_DONE anything but '?' and ';'.  Never SP, HT, CR or LF.
   */
  predicate PathPlain(sub: int, b: Byte) {
    var ch := SignExtendedChar(b);
    ch != ' ' && ch != '\t' && !IsLineEnd(ch)
    && (if sub == Start then ch != ':' && ch != '?' && ch != ';'
        else if sub == SecondSlash then ch != '/'
        else sub == HostDone && ch != '?' && ch != ';')
  }

  predicate PathPlainText(sub: int, t: seq<Byte>) {
    forall i :: 0 <= i < |t| ==> PathPlain(sub, t[i])
  }

  /** handlePath's locals after the plain bytes t: the chars appended, decoding flagged if one of them asks for it. */
  function Walked(cfg: Config, c: PathLocals, t: seq<Byte>): PathLocals {
    c.(builder := c.builder + Text(t), decodeRequired := c.decodeRequired || (cfg.decodeUrl && Escapes(Text(t))))
  }

  /** A plain byte is appended, flagging decoding if it asks for it, and the sub-state stays. */
  lemma PlainChar(cfg: Config, c: PathLocals, b: Byte)
    requires PathPlain(c.sub, b)
    ensures var ch := SignExtendedChar(b);
      PathChar(cfg, c, ch) == c.(builder := c.builder + [ch], decodeRequired := c.decodeRequired || (cfg.decodeUrl && (ch == '+' || ch == '%')))
  {
  }

  /** One plain byte of the loop. */
  lemma PlainStep(v: Variant, cfg: Config, ps: PS, ex: ExData, c: PathLocals, rest: seq<Byte>)
    requires |rest| > 0 && PathPlain(c.sub, rest[0])
    ensures PathLoop(v, cfg, ps, ex, c, rest) == Later(PathLoop(v, cfg, ps, ex, PathChar(cfg, c, SignExtendedChar(rest[0])), rest[1..]), 1)
  {
  }

  /** Plain bytes are taken one by one into the accumulator, and nothing else happens. */
  lemma {:induction false} PathWalk(v: Variant, cfg: Config, ps: PS, ex: ExData, c: PathLocals, t: seq<Byte>, rest: seq<Byte>)
    requires PathPlainText(c.sub, t)
    ensures PathLoop(v, cfg, ps, ex, c, t + rest) == Later(PathLoop(v, cfg, ps, ex, Walked(cfg, c, t), rest), |t|)
    decreases |t|
  {
    if |t| == 0 {
      assert t + rest == rest;
      assert Walked(cfg, c, t) == c;
    } else {
      var ch := SignExtendedChar(t[0]);
      assert (t + rest)[0] == t[0] && (t + rest)[1..] == t[1..] + rest;
      PlainStep(v, cfg, ps, ex, c, t + rest);
      PlainChar(cfg, c, t[0]);
      var c1 := PathChar(cfg, c, ch);
      PathWalk(v, cfg, ps, ex, c1, t[1..], rest);
      WalkedCons(cfg, c, t);
    }
  }

  lemma WalkedCons(cfg: Config, c: PathLocals, t: seq<Byte>)
    requires |t| > 0
    ensures var ch := SignExtendedChar(t[0]);
      Walked(cfg, c.(builder := c.builder + [ch], decodeRequired := c.decodeRequired || (cfg.decodeUrl && (ch == '+' || ch == '%'))), t[1..])
      == Walked(cfg, c, t)
  {
    assert Text(t) == [SignExtendedChar(t[0])] + Text(t[1..]);
  }

  /** SP and HT before the first char of the target are skipped. */
  lemma {:induction false} LeadingBlanksSkipped(v: Variant, cfg: Config, ps: PS, ex: ExData, c: PathLocals, ws: seq<Byte>, rest: seq<Byte>)
    requires c.builder == "" && Blanks(ws)
    ensures PathLoop(v, cfg, ps, ex, c, ws + rest) == Later(PathLoop(v, cfg, ps, ex, c, rest), |ws|)
    decreases |ws|
  {
    if |ws| == 0 {
      assert ws + rest == rest;
    } else {
      assert (ws + rest)[0] == ws[0] && (ws + rest)[1..] == ws[1..] + rest;
      LeadingBlanksSkipped(v, cfg, ps, ex, c, ws[1..], rest);
    }
  }

  /** The ParseState a new request target starts from. */
  predicate TargetStart(ps: PS) {
    ps.parseState == Start && ps.builder == "" && !ps.urlDecodeRequired
  }

  /** How handlePath's decode treats the whole target text t, for the path s. */
  function PathDecoded(cfg: Config, s: string, t: string): string {
    Decode(cfg, s, cfg.decodeUrl && Escapes(t), cfg.allowEncodedSlash)
  }

  /**
   * An origin-form target: after any SP/HT, the first SP or HT after the
   * text t ends it.  The URI is the raw text, the request and relative
   * paths the text decoded (only if decoding is on and a '+' or '%'
   * appeared), the query string empty; the parse moves to VERSION with
   * the accumulator and cursor reset.
   */
  lemma OriginFormTarget(v: Variant, cfg: Config, ps: PS, ex: ExData, ws: seq<Byte>, t: seq<Byte>, b: Byte, rest: seq<Byte>)
    requires TargetStart(ps) && Blanks(ws) && |t| > 0 && PathPlainText(Start, t) && IsBlank(b)
    ensures var path := PathDecoded(cfg, Text(t), Text(t));
      PathRun(v, cfg, ps, ex, ws + t + [b] + rest)
      == Ran(Reset(ps, Version), ex.(requestPath := path, relativePath := path, requestURI := Text(t), queryString := ""),
             |ws| + |t| + 1, None)
  {
    var c := PathLocals(Start, ps.pos, false, "");
    assert ws + t + [b] + rest == ws + (t + ([b] + rest));
    LeadingBlanksSkipped(v, cfg, ps, ex, c, ws, t + ([b] + rest));
    PathWalk(v, cfg, ps, ex, c, t, [b] + rest);
    var c1 := Walked(cfg, c, t);
    assert c1 == PathLocals(Start, ps.pos, cfg.decodeUrl && Escapes(Text(t)), Text(t));
    BlankEnds(v, cfg, ps, ex, c1, [b] + rest);
  }

  /** SP or HT after some text ends the target. */
  lemma BlankEnds(v: Variant, cfg: Config, ps: PS, ex: ExData, c: PathLocals, rest: seq<Byte>)
    requires |rest| > 0 && IsBlank(rest[0]) && |c.builder| > 0
    ensures PathLoop(v, cfg, ps, ex, c, rest)
            == match TargetSet(cfg, ex, c, true, true)
               case None => Ran(ps.(builder := c.builder), ex, 1, Some(IndexOutOfBounds))
               case Some(ex1) => Ran(Reset(ps, Version), ex1.(queryString := ""), 1, None)
  {
  }

  /** A CR or LF in the target throws failedToParsePath. */
  lemma PathLineEndRejected(v: Variant, cfg: Config, ps: PS, ex: ExData, t: seq<Byte>, e: Byte, rest: seq<Byte>)
    requires TargetStart(ps) && PathPlainText(Start, t) && IsNewline(e)
    ensures var r := PathRun(v, cfg, ps, ex, t + [e] + rest);
      r.error == Some(FailedToParsePath) && r.used == |t| + 1 && r.ex == ex
  {
    var c := PathLocals(Start, ps.pos, false, "");
    assert t + [e] + rest == t + ([e] + rest);
    PathWalk(v, cfg, ps, ex, c, t, [e] + rest);
    assert ([e] + rest)[0] == e;
  }

  /** The bytes of an absolute-form target: scheme, "://", host, then the path from its first '/'. */
  function Absolute(s: seq<Byte>, h: seq<Byte>, q: seq<Byte>): seq<Byte> {
    s + [Colon, Slash, Slash] + h + [Slash] + q
  }

  predicate AbsoluteOk(s: seq<Byte>, h: seq<Byte>, q: seq<Byte>) {
    PathPlainText(Start, s) && PathPlainText(SecondSlash, h) && PathPlainText(HostDone, q)
  }

  /** A char that neither ends nor splits the target goes through PathChar. */
  lemma CharStep(v: Variant, cfg: Config, ps: PS, ex: ExData, c: PathLocals, rest: seq<Byte>)
    requires |rest| > 0
    requires var ch := SignExtendedChar(rest[0]);
      ch != ' ' && ch != '\t' && !IsLineEnd(ch) && ch != '?' && ch != ';'
    ensures PathLoop(v, cfg, ps, ex, c, rest) == Later(PathLoop(v, cfg, ps, ex, PathChar(cfg, c, SignExtendedChar(rest[0])), rest[1..]), 1)
  {
  }

  /** "://" after the scheme: ':' from START, then '/' and '/' reach the host. */
  lemma SchemeEnd(v: Variant, cfg: Config, ps: PS, ex: ExData, c: PathLocals, rest: seq<Byte>)
    requires c.sub == Start
    ensures PathLoop(v, cfg, ps, ex, c, [Colon, Slash, Slash] + rest)
            == Later(PathLoop(v, cfg, ps, ex, c.(sub := SecondSlash, builder := c.builder + "://"), rest), 3)
  {
    var r := [Colon, Slash, Slash] + rest;
    assert r[1..] == [Slash, Slash] + rest && r[1..][1..] == [Slash] + rest && r[1..][1..][1..] == rest;
    CharStep(v, cfg, ps, ex, c, r);
    var c1 := c.(sub := FirstColon, builder := c.builder + ":");
    CharStep(v, cfg, ps, ex, c1, r[1..]);
    var c2 := c1.(sub := FirstSlash, builder := c1.builder + "/");
    CharStep(v, cfg, ps, ex, c2, r[1..][1..]);
    assert c2.(sub := SecondSlash, builder := c2.builder + "/") == c.(sub := SecondSlash, builder := c.builder + "://");
  }

  /** The '/' that ends the host enters HOST_DONE and remembers where the path starts. */
  lemma HostEnd(v: Variant, cfg: Config, ps: PS, ex: ExData, c: PathLocals, rest: seq<Byte>)
    requires c.sub == SecondSlash
    ensures PathLoop(v, cfg, ps, ex, c, [Slash] + rest)
            == Later(PathLoop(v, cfg, ps, ex, c.(sub := HostDone, start := |c.builder|, builder := c.builder + "/"), rest), 1)
  {
    assert ([Slash] + rest)[1..] == rest;
    CharStep(v, cfg, ps, ex, c, [Slash] + rest);
  }

  /**
   * Through an absolute-form target: ':' from START, then '/', '/', and
   * the '/' after the host enters HOST_DONE remembering its offset.
   */
  lemma AbsoluteWalk(v: Variant, cfg: Config, ps: PS, ex: ExData, pos: int, s: seq<Byte>, h: seq<Byte>, q: seq<Byte>, rest: seq<Byte>)
    requires AbsoluteOk(s, h, q)
    ensures var t := Absolute(s, h, q);
      PathLoop(v, cfg, ps, ex, PathLocals(Start, pos, false, ""), t + rest)
      == Later(PathLoop(v, cfg, ps, ex, PathLocals(HostDone, |s| + 3 + |h|, cfg.decodeUrl && Escapes(Text(t)), Text(t)), rest), |t|)
  {
    var t := Absolute(s, h, q);
    var r1 := [Slash] + (q + rest);
    var r3 := [Colon, Slash, Slash] + (h + r1);
    AbsoluteSplit(s, h, q, rest);
    var c0 := PathLocals(Start, pos, false, "");
    var c1 := Walked(cfg, c0, s);
    var c4 := c1.(sub := SecondSlash, builder := c1.builder + "://");
    var c5 := Walked(cfg, c4, h);
    var c6 := c5.(sub := HostDone, start := |c5.builder|, builder := c5.builder + "/");
    var c7 := Walked(cfg, c6, q);
    var tail := PathLoop(v, cfg, ps, ex, c7, rest);
    PathWalk(v, cfg, ps, ex, c6, q, rest);
    assert PathLoop(v, cfg, ps, ex, c6, q + rest) == Later(tail, |q|);
    HostEnd(v, cfg, ps, ex, c5, q + rest);
    assert PathLoop(v, cfg, ps, ex, c5, r1) == Later(tail, |q| + 1);
    PathWalk(v, cfg, ps, ex, c4, h, r1);
    assert PathLoop(v, cfg, ps, ex, c4, h + r1) == Later(tail, |h| + |q| + 1);
    SchemeEnd(v, cfg, ps, ex, c1, h + r1);
    assert PathLoop(v, cfg, ps, ex, c1, r3) == Later(tail, |h| + |q| + 4);
    PathWalk(v, cfg, ps, ex, c0, s, r3);
    assert PathLoop(v, cfg, ps, ex, c0, s + r3) == Later(tail, |t|);
    AbsoluteText(cfg, pos, s, h, q);
  }

  /** The bytes of an absolute-form target followed by more, regrouped as they are read. */
  lemma AbsoluteSplit(s: seq<Byte>, h: seq<Byte>, q: seq<Byte>, rest: seq<Byte>)
    ensures Absolute(s, h, q) + rest == s + ([Colon, Slash, Slash] + (h + ([Slash] + (q + rest))))
    ensures |Absolute(s, h, q)| == |s| + |h| + |q| + 4
  {
  }

  /** The accumulator after an absolute-form target is its text, and the decoding flag is that of the text. */
  lemma AbsoluteText(cfg: Config, pos: int, s: seq<Byte>, h: seq<Byte>, q: seq<Byte>)
    ensures var t := Absolute(s, h, q);
      var c0 := PathLocals(Start, pos, false, "");
      var c1 := Walked(cfg, c0, s);
      var c5 := Walked(cfg, c1.(sub := SecondSlash, builder := c1.builder + "://"), h);
      var c7 := Walked(cfg, c5.(sub := HostDone, start := |c5.builder|, builder := c5.builder + "/"), q);
      c7 == PathLocals(HostDone, |s| + 3 + |h|, cfg.decodeUrl && Escapes(Text(t)), Text(t))
  {
    var t := Absolute(s, h, q);
    var c0 := PathLocals(Start, pos, false, "");
    var c1 := Walked(cfg, c0, s);
    var c5 := Walked(cfg, c1.(sub := SecondSlash, builder := c1.builder + "://"), h);
    var c7 := Walked(cfg, c5.(sub := HostDone, start := |c5.builder|, builder := c5.builder + "/"), q);
    var T := Text(s) + "://" + Text(h) + "/" + Text(q);
    assert c1.builder == Text(s) by { assert "" + Text(s) == Text(s); }
    assert c5.builder == Text(s) + "://" + Text(h);
    assert c7.builder == T;
    assert c7.start == |s| + 3 + |h|;
    AbsoluteBytesText(s, h, q);
    EscapesConcat(Text(s) + "://" + Text(h), "/", Text(q));
    EscapesConcat(Text(s), "://", Text(h));
    assert !Escapes("://") && !Escapes("/");
  }

  /** The text of an absolute-form target is the text of its parts around "://" and "/". */
  lemma AbsoluteBytesText(s: seq<Byte>, h: seq<Byte>, q: seq<Byte>)
    ensures Text(Absolute(s, h, q)) == Text(s) + "://" + Text(h) + "/" + Text(q)
  {
    TextAppend(s, [Colon, Slash, Slash]);
    TextAppend(s + [Colon, Slash, Slash], h);
    TextAppend(s + [Colon, Slash, Slash] + h, [Slash]);
    TextAppend(s + [Colon, Slash, Slash] + h + [Slash], q);
    assert Text([Colon, Slash, Slash]) == "://";
    assert Text([Slash]) == "/";
  }

  lemma EscapesConcat(a: string, b: string, c: string)
    ensures Escapes(a + b + c) == (Escapes(a) || Escapes(b) || Escapes(c))
  {
  }

  /**
   * An absolute-form target ended by SP or HT: the URI is the whole text
   * and marked absolute, the request and relative paths are the text from
   * the '/' after the host, decoded if anything in the target asked for
   * it.
   */
  lemma AbsoluteFormTarget(v: Variant, cfg: Config, ps: PS, ex: ExData, s: seq<Byte>, h: seq<Byte>, q: seq<Byte>, b: Byte, rest: seq<Byte>)
    requires TargetStart(ps) && AbsoluteOk(s, h, q) && IsBlank(b)
    ensures var t := Absolute(s, h, q);
      var path := PathDecoded(cfg, Text([Slash] + q), Text(t));
      PathRun(v, cfg, ps, ex, t + [b] + rest)
      == Ran(Reset(ps, Version), ex.(requestPath := path, relativePath := path, requestURI := Text(t), uriIsAbsolute := true,
                                      queryString := ""), |t| + 1, None)
  {
    var t := Absolute(s, h, q);
    assert t + [b] + rest == t + ([b] + rest);
    AbsoluteWalk(v, cfg, ps, ex, ps.pos, s, h, q, [b] + rest);
    AbsoluteTail(s, h, q);
    assert ([b] + rest)[0] == b && ([b] + rest)[1..] == rest;
  }

  /** The text from the remembered offset is the path. */
  lemma AbsoluteTail(s: seq<Byte>, h: seq<Byte>, q: seq<Byte>)
    ensures Tail(Text(Absolute(s, h, q)), |s| + 3 + |h|) == Some(Text([Slash] + q))
  {
    var t := Absolute(s, h, q);
    TextSuffix(t, |s| + 3 + |h|);
    assert t[|s| + 3 + |h|..] == [Slash] + q;
  }

  /** After ':' or the first '/', any char but '/' that does not ask for decoding falls back to START. */
  lemma AbsoluteFallsBack(cfg: Config, c: PathLocals, ch: char)
    requires (c.sub == FirstColon || c.sub == FirstSlash) && ch != '/' && !(cfg.decodeUrl && (ch == '+' || ch == '%'))
    ensures PathChar(cfg, c, ch) == c.(sub := Start, builder := c.builder + [ch])
  {
  }

  // ---------------------------------------------------------------------
  // The query and the path parameters
  // ---------------------------------------------------------------------

  /** A parameter byte that ends nothing: not SP, HT, CR, LF or '&', nor '?' in path parameters. */
  predicate ParamPlain(query: bool, b: Byte) {
    var ch := SignExtendedChar(b);
    !EndsParams(query, ch) && !IsLineEnd(ch) && ch != '&'
  }

  /** One '&'-separated segment of parameter text: a name, then '=' and a value if it has one. */
  datatype Part = Part(name: seq<Byte>, value: Option<seq<Byte>>)

  /** The name holds no '=' (the first '=' ends it); the value may. */
  predicate PartOk(query: bool, p: Part) {
    (forall i :: 0 <= i < |p.name| ==> ParamPlain(query, p.name[i]) && p.name[i] != Eq)
    && (p.value.Some? ==> forall i :: 0 <= i < |p.value.value| ==> ParamPlain(query, p.value.value[i]))
  }

  predicate PartsOk(query: bool, parts: seq<Part>) {
    forall i :: 0 <= i < |parts| ==> PartOk(query, parts[i])
  }

  function PartBytes(p: Part): seq<Byte> {
    p.name + (if p.value.Some? then [Eq] + p.value.value else [])
  }

  /** The segments joined by '&'. */
  function Joined(parts: seq<Part>): seq<Byte>
    requires |parts| > 0
  {
    if |parts| == 1 then PartBytes(parts[0]) else PartBytes(parts[0]) + [Amp] + Joined(parts[1..])
  }

  /** A name or value as recorded: decoded when decoding is on and it holds a '+' or '%', with encoded slashes allowed. */
  function TokenDecoded(cfg: Config, t: seq<Byte>): string {
    Decode(cfg, Text(t), cfg.decodeUrl && Escapes(Text(t)), true)
  }

  /** The parameter a segment stands for: a name without '=' gets the value "". */
  function PartParam(cfg: Config, p: Part): Param {
    if p.value.None? then Param(TokenDecoded(cfg, p.name), "") else Param(TokenDecoded(cfg, p.name), TokenDecoded(cfg, p.value.value))
  }

  /** The parameters of every segment but the last. */
  function InitParams(cfg: Config, parts: seq<Part>): seq<Param>
    requires |parts| > 0
  {
    if |parts| == 1 then [] else [PartParam(cfg, parts[0])] + InitParams(cfg, parts[1..])
  }

  /** The last segment adds its parameter unless it is empty. */
  function FinalParam(cfg: Config, p: Part): seq<Param> {
    if p == Part([], None) then [] else [PartParam(cfg, p)]
  }

  /** The parameters of a parameter text: one per segment, the empty trailing segment left out. */
  function PartsParams(cfg: Config, parts: seq<Part>): seq<Param>
    requires |parts| > 0
  {
    InitParams(cfg, parts) + FinalParam(cfg, parts[|parts| - 1])
  }

  function AddParams(ex: ExData, query: bool, params: seq<Param>): ExData {
    if query then ex.(queryParams := ex.queryParams + params) else ex.(pathParams := ex.pathParams + params)
  }

  /** The locals at the start of a segment, after the text B, with the count m. */
  function SegmentStart(B: string, m: int): ParamLocals {
    ParamLocals(|B|, m, false, None, B)
  }

  /** The locals after the bytes of the segment p, begun after the text B. */
  function SegLocals(cfg: Config, B: string, m: int, p: Part): ParamLocals {
    if p.value.None? then ParamLocals(|B|, m, cfg.decodeUrl && Escapes(Text(p.name)), None, B + Text(p.name))
    else ParamLocals(|B| + |p.name| + 1, m, cfg.decodeUrl && Escapes(Text(p.value.value)), Some(TokenDecoded(cfg, p.name)),
                     B + Text(PartBytes(p)))
  }

  /** The locals after the plain bytes t: the chars appended, decoding flagged if one of them asks for it. */
  function ParamWalked(cfg: Config, c: ParamLocals, t: seq<Byte>): ParamLocals {
    c.(builder := c.builder + Text(t), decodeRequired := c.decodeRequired || (cfg.decodeUrl && Escapes(Text(t))))
  }

  /** A byte that is neither a terminator, '&', nor a first '=' is appended and flags decoding if it asks for it. */
  lemma ParamPlainStep(v: Variant, cfg: Config, query: bool, ps: PS, ex: ExData, c: ParamLocals, rest: seq<Byte>)
    requires |rest| > 0 && ParamPlain(query, rest[0]) && (c.name.None? ==> rest[0] != Eq)
    ensures var ch := SignExtendedChar(rest[0]);
      ParamLoop(v, cfg, query, ps, ex, c, rest)
      == Later(ParamLoop(v, cfg, query, ps, ex,
                         c.(builder := c.builder + [ch], decodeRequired := c.decodeRequired || (cfg.decodeUrl && (ch == '+' || ch == '%'))),
                         rest[1..]), 1)
  {
  }

  lemma ParamWalkedCons(cfg: Config, c: ParamLocals, t: seq<Byte>)
    requires |t| > 0
    ensures var ch := SignExtendedChar(t[0]);
      ParamWalked(cfg, c.(builder := c.builder + [ch], decodeRequired := c.decodeRequired || (cfg.decodeUrl && (ch == '+' || ch == '%'))), t[1..])
      == ParamWalked(cfg, c, t)
  {
    assert Text(t) == [SignExtendedChar(t[0])] + Text(t[1..]);
  }

  /** Plain parameter bytes are taken into the accumulator and nothing else happens. */
  lemma {:induction false} ParamWalk(v: Variant, cfg: Config, query: bool, ps: PS, ex: ExData, c: ParamLocals, t: seq<Byte>, rest: seq<Byte>)
    requires forall i :: 0 <= i < |t| ==> ParamPlain(query, t[i]) && (c.name.None? ==> t[i] != Eq)
    ensures ParamLoop(v, cfg, query, ps, ex, c, t + rest) == Later(ParamLoop(v, cfg, query, ps, ex, ParamWalked(cfg, c, t), rest), |t|)
    decreases |t|
  {
    if |t| == 0 {
      assert t + rest == rest;
      assert ParamWalked(cfg, c, t) == c;
    } else {
      var ch := SignExtendedChar(t[0]);
      assert (t + rest)[0] == t[0] && (t + rest)[1..] == t[1..] + rest;
      ParamPlainStep(v, cfg, query, ps, ex, c, t + rest);
      var c1 := c.(builder := c.builder + [ch], decodeRequired := c.decodeRequired || (cfg.decodeUrl && (ch == '+' || ch == '%')));
      ParamWalk(v, cfg, query, ps, ex, c1, t[1..], rest);
      ParamWalkedCons(cfg, c, t);
    }
  }

  /** The first '=' of a segment ends the name: decoded as its own token, and the value starts after it. */
  lemma NameEnds(v: Variant, cfg: Config, query: bool, ps: PS, ex: ExData, B: string, m: int, name: seq<Byte>, rest: seq<Byte>)
    ensures var c := ParamLocals(|B|, m, cfg.decodeUrl && Escapes(Text(name)), None, B + Text(name));
      ParamLoop(v, cfg, query, ps, ex, c, [Eq] + rest)
      == Later(ParamLoop(v, cfg, query, ps, ex,
                         ParamLocals(|B| + |name| + 1, m, false, Some(TokenDecoded(cfg, name)), B + Text(name) + "="), rest), 1)
  {
    assert ([Eq] + rest)[0] == Eq && ([Eq] + rest)[1..] == rest;
    assert (B + Text(name))[|B|..] == Text(name);
  }

  /** Through one segment. */
  lemma PartWalk(v: Variant, cfg: Config, query: bool, ps: PS, ex: ExData, B: string, m: int, p: Part, rest: seq<Byte>)
    requires PartOk(query, p)
    ensures ParamLoop(v, cfg, query, ps, ex, SegmentStart(B, m), PartBytes(p) + rest)
            == Later(ParamLoop(v, cfg, query, ps, ex, SegLocals(cfg, B, m, p), rest), |PartBytes(p)|)
  {
    if p.value.None? {
      assert PartBytes(p) == p.name;
      ParamWalk(v, cfg, query, ps, ex, SegmentStart(B, m), p.name, rest);
      assert ParamWalked(cfg, SegmentStart(B, m), p.name) == SegLocals(cfg, B, m, p);
    } else {
      ValuePartWalk(v, cfg, query, ps, ex, B, m, p.name, p.value.value, rest);
    }
  }

  /** Through a segment with a '=': the name, the '=', then the value. */
  lemma ValuePartWalk(v: Variant, cfg: Config, query: bool, ps: PS, ex: ExData, B: string, m: int, name: seq<Byte>, val: seq<Byte>, rest: seq<Byte>)
    requires PartOk(query, Part(name, Some(val)))
    ensures var p := Part(name, Some(val));
      ParamLoop(v, cfg, query, ps, ex, SegmentStart(B, m), PartBytes(p) + rest)
      == Later(ParamLoop(v, cfg, query, ps, ex, SegLocals(cfg, B, m, p), rest), |PartBytes(p)|)
  {
    var p := Part(name, Some(val));
    var c0 := SegmentStart(B, m);
    assert PartBytes(p) + rest == name + ([Eq] + (val + rest));
    ParamWalk(v, cfg, query, ps, ex, c0, name, [Eq] + (val + rest));
    var c1 := ParamWalked(cfg, c0, name);
    assert c1 == ParamLocals(|B|, m, cfg.decodeUrl && Escapes(Text(name)), None, B + Text(name));
    NameEnds(v, cfg, query, ps, ex, B, m, name, val + rest);
    var c2 := ParamLocals(|B| + |name| + 1, m, false, Some(TokenDecoded(cfg, name)), B + Text(name) + "=");
    ParamWalk(v, cfg, query, ps, ex, c2, val, rest);
    ValueLocals(cfg, B, m, name, val);
  }

  /** The locals after a value, begun after its name and '=', are the segment's locals. */
  lemma ValueLocals(cfg: Config, B: string, m: int, name: seq<Byte>, val: seq<Byte>)
    ensures var c2 := ParamLocals(|B| + |name| + 1, m, false, Some(TokenDecoded(cfg, name)), B + Text(name) + "=");
      ParamWalked(cfg, c2, val) == SegLocals(cfg, B, m, Part(name, Some(val)))
  {
    SegText(name, val);
    assert B + Text(name) + "=" + Text(val) == B + (Text(name) + "=" + Text(val));
  }

  lemma SegText(name: seq<Byte>, val: seq<Byte>)
    ensures Text(PartBytes(Part(name, Some(val)))) == Text(name) + "=" + Text(val)
  {
    TextAppend(name, [Eq] + val);
    TextAppend([Eq], val);
    assert Text([Eq]) == "=";
  }

  /** The tail of the accumulator from the segment's cursor is the pending name or value. */
  lemma SegTail(cfg: Config, B: string, m: int, p: Part)
    ensures var c := SegLocals(cfg, B, m, p);
      Tail(c.builder, c.pos) == Some(if p.value.None? then Text(p.name) else Text(p.value.value))
  {
    if p.value.Some? {
      var N := Text(p.name);
      var V := Text(p.value.value);
      TextAppend(p.name, [Eq] + p.value.value);
      TextAppend([Eq], p.value.value);
      assert Text([Eq]) == "=";
      assert Text(PartBytes(p)) == N + ("=" + V);
      assert B + Text(PartBytes(p)) == (B + N + "=") + V;
      SliceAfter(B + N + "=", V);
    } else {
      SliceAfter(B, Text(p.name));
    }
  }

  lemma SliceAfter(x: string, y: string)
    ensures (x + y)[|x|..] == y
  {
  }

  /** '&' after a segment adds its parameter, counts it, and starts the next segment. */
  lemma PartAmp(v: Variant, cfg: Config, query: bool, ps: PS, ex: ExData, B: string, m: int, p: Part, rest: seq<Byte>)
    requires m <= cfg.maxParameters
    ensures ParamLoop(v, cfg, query, ps, ex, SegLocals(cfg, B, m, p), [Amp] + rest)
            == Later(ParamLoop(v, cfg, query, ps, AddParam(ex, query, PartParam(cfg, p)), SegmentStart(B + Text(PartBytes(p)) + "&", m + 1), rest), 1)
  {
    var c := SegLocals(cfg, B, m, p);
    assert ([Amp] + rest)[0] == Amp && ([Amp] + rest)[1..] == rest;
    assert SignExtendedChar(Amp) == '&';
    AmpChar(cfg, query, ex, B, m, p);
  }

  /** The '&' itself: the segment's parameter added, the count raised, the next segment begun after the '&'. */
  lemma AmpChar(cfg: Config, query: bool, ex: ExData, B: string, m: int, p: Part)
    requires m <= cfg.maxParameters
    ensures ParamChar(cfg, query, ex, SegLocals(cfg, B, m, p), '&')
            == ParamStep(AddParam(ex, query, PartParam(cfg, p)), SegmentStart(B + Text(PartBytes(p)) + "&", m + 1), None)
  {
    var c := SegLocals(cfg, B, m, p);
    var t := if p.value.None? then p.name else p.value.value;
    SegTail(cfg, B, m, p);
    if p.value.None? {
      assert PartBytes(p) == p.name;
    }
    assert c.builder == B + Text(PartBytes(p));
    var value := Decode(cfg, Text(t), c.decodeRequired, true);
    assert value == TokenDecoded(cfg, t);
    var prm := if c.name.None? then Param(value, "") else Param(c.name.value, value);
    assert prm == PartParam(cfg, p);
    var d := c.(mapCount := c.mapCount + 1, decodeRequired := false, pos := |c.builder| + 1, name := None, builder := c.builder + ['&']);
    assert d == SegmentStart(B + Text(PartBytes(p)) + "&", m + 1);
    assert ParamChar(cfg, query, ex, c, '&') == ParamStep(AddParam(ex, query, prm), d, None);
  }

  /** '&' after a segment when the count already exceeds the limit throws tooManyQueryParameters. */
  lemma PartAmpTooMany(v: Variant, cfg: Config, query: bool, ps: PS, ex: ExData, B: string, m: int, p: Part, rest: seq<Byte>)
    requires m > cfg.maxParameters
    ensures ParamLoop(v, cfg, query, ps, ex, SegLocals(cfg, B, m, p), [Amp] + rest).error == Some(TooManyQueryParameters)
  {
    assert ([Amp] + rest)[0] == Amp;
  }

  lemma AddParamsCons(ex: ExData, query: bool, p: Param, more: seq<Param>)
    ensures AddParams(AddParam(ex, query, p), query, more) == AddParams(ex, query, [p] + more)
  {
    if query {
      assert ex.queryParams + [p] + more == ex.queryParams + ([p] + more);
    } else {
      assert ex.pathParams + [p] + more == ex.pathParams + ([p] + more);
    }
  }

  /** The locals after the last of the segments parts, begun after the text B with the count m. */
  function LastLocals(cfg: Config, B: string, m: int, parts: seq<Part>): ParamLocals
    requires |parts| > 0
    decreases |parts|
  {
    if |parts| == 1 then SegLocals(cfg, B, m, parts[0]) else LastLocals(cfg, B + Text(PartBytes(parts[0])) + "&", m + 1, parts[1..])
  }

  /**
   * Through the segments parts: every segment but the last adds its
   * parameter at its '&', as long as the count before each '&' is within
   * the limit.
   */
  lemma {:induction false} PartsRead(v: Variant, cfg: Config, query: bool, ps: PS, ex: ExData, B: string, m: int, parts: seq<Part>, rest: seq<Byte>)
    requires |parts| > 0 && PartsOk(query, parts) && m + |parts| <= cfg.maxParameters + 2
    ensures ParamLoop(v, cfg, query, ps, ex, SegmentStart(B, m), Joined(parts) + rest)
            == Later(ParamLoop(v, cfg, query, ps, AddParams(ex, query, InitParams(cfg, parts)), LastLocals(cfg, B, m, parts), rest),
                     |Joined(parts)|)
    decreases |parts|
  {
    assert PartOk(query, parts[0]);
    if |parts| == 1 {
      PartsReadOne(v, cfg, query, ps, ex, B, m, parts, rest);
    } else {
      var p := parts[0];
      PartsOkTail(query, parts);
      PartsRead(v, cfg, query, ps, AddParam(ex, query, PartParam(cfg, p)), B + Text(PartBytes(p)) + "&", m + 1, parts[1..], rest);
      PartsReadStep(v, cfg, query, ps, ex, B, m, parts, rest);
    }
  }

  /** PartsRead for a single segment. */
  lemma PartsReadOne(v: Variant, cfg: Config, query: bool, ps: PS, ex: ExData, B: string, m: int, parts: seq<Part>, rest: seq<Byte>)
    requires |parts| == 1 && PartOk(query, parts[0])
    ensures ParamLoop(v, cfg, query, ps, ex, SegmentStart(B, m), Joined(parts) + rest)
            == Later(ParamLoop(v, cfg, query, ps, AddParams(ex, query, InitParams(cfg, parts)), LastLocals(cfg, B, m, parts), rest),
                     |Joined(parts)|)
  {
    assert Joined(parts) == PartBytes(parts[0]);
    assert InitParams(cfg, parts) == [];
    assert LastLocals(cfg, B, m, parts) == SegLocals(cfg, B, m, parts[0]);
    NoParamsAdded(ex, query);
    PartWalk(v, cfg, query, ps, ex, B, m, parts[0], rest);
  }

  lemma NoParamsAdded(ex: ExData, query: bool)
    ensures AddParams(ex, query, []) == ex
  {
    assert ex.queryParams + [] == ex.queryParams;
    assert ex.pathParams + [] == ex.pathParams;
  }

  lemma PartsOkTail(query: bool, parts: seq<Part>)
    requires |parts| > 0 && PartsOk(query, parts)
    ensures PartsOk(query, parts[1..])
  {
    forall i | 0 <= i < |parts[1..]| ensures PartOk(query, parts[1..][i]) {
      assert parts[1..][i] == parts[i + 1];
    }
  }

  /** PartsRead for several segments, from PartsRead for all but the first. */
  lemma PartsReadStep(v: Variant, cfg: Config, query: bool, ps: PS, ex: ExData, B: string, m: int, parts: seq<Part>, rest: seq<Byte>)
    requires |parts| > 1 && PartOk(query, parts[0]) && m <= cfg.maxParameters
    requires var ex1 := AddParam(ex, query, PartParam(cfg, parts[0]));
      var B1 := B + Text(PartBytes(parts[0])) + "&";
      ParamLoop(v, cfg, query, ps, ex1, SegmentStart(B1, m + 1), Joined(parts[1..]) + rest)
      == Later(ParamLoop(v, cfg, query, ps, AddParams(ex1, query, InitParams(cfg, parts[1..])), LastLocals(cfg, B1, m + 1, parts[1..]), rest),
               |Joined(parts[1..])|)
    ensures ParamLoop(v, cfg, query, ps, ex, SegmentStart(B, m), Joined(parts) + rest)
            == Later(ParamLoop(v, cfg, query, ps, AddParams(ex, query, InitParams(cfg, parts)), LastLocals(cfg, B, m, parts), rest),
                     |Joined(parts)|)
  {
    var p := parts[0];
    var more := Joined(parts[1..]) + rest;
    assert Joined(parts) + rest == PartBytes(p) + [Amp] + more;
    SegmentThenAmp(v, cfg, query, ps, ex, B, m, p, more);
    AddParamsCons(ex, query, PartParam(cfg, p), InitParams(cfg, parts[1..]));
  }

  /** A segment and the '&' after it. */
  lemma SegmentThenAmp(v: Variant, cfg: Config, query: bool, ps: PS, ex: ExData, B: string, m: int, p: Part, more: seq<Byte>)
    requires PartOk(query, p) && m <= cfg.maxParameters
    ensures ParamLoop(v, cfg, query, ps, ex, SegmentStart(B, m), PartBytes(p) + [Amp] + more)
            == Later(ParamLoop(v, cfg, query, ps, AddParam(ex, query, PartParam(cfg, p)), SegmentStart(B + Text(PartBytes(p)) + "&", m + 1), more),
                     |PartBytes(p)| + 1)
  {
    assert PartBytes(p) + [Amp] + more == PartBytes(p) + ([Amp] + more);
    PartWalk(v, cfg, query, ps, ex, B, m, p, [Amp] + more);
    PartAmp(v, cfg, query, ps, ex, B, m, p, more);
  }

  /** The accumulator after the segments is the text they were read from. */
  lemma {:induction false} LastLocalsBuilder(cfg: Config, B: string, m: int, parts: seq<Part>)
    requires |parts| > 0
    ensures LastLocals(cfg, B, m, parts).builder == B + Text(Joined(parts))
    decreases |parts|
  {
    var p := parts[0];
    if |parts| == 1 {
      if p.value.None? {
        assert PartBytes(p) == p.name;
      }
    } else {
      LastLocalsBuilder(cfg, B + Text(PartBytes(p)) + "&", m + 1, parts[1..]);
      TextAppend(PartBytes(p), [Amp]);
      TextAppend(PartBytes(p) + [Amp], Joined(parts[1..]));
      assert Text([Amp]) == "&";
    }
  }

  /** The parameter pending after the segments is that of the last one, if it is not empty. */
  lemma {:induction false} LastLocalsParam(cfg: Config, query: bool, ex: ExData, B: string, m: int, parts: seq<Part>)
    requires |parts| > 0
    ensures LastParam(cfg, query, ex, LastLocals(cfg, B, m, parts)) == Some(AddParams(ex, query, FinalParam(cfg, parts[|parts| - 1])))
    decreases |parts|
  {
    if |parts| == 1 {
      var p := parts[0];
      SegTail(cfg, B, m, p);
      if p.value.Some? {
        assert p != Part([], None);
      } else if p.name == [] {
        assert p == Part([], None);
        assert Text(p.name) == [];
        assert B + Text(p.name) == B;
        assert AddParams(ex, query, []) == ex;
      } else {
        assert |Text(p.name)| > 0;
      }
    } else {
      LastLocalsParam(cfg, query, ex, B + Text(PartBytes(parts[0])) + "&", m + 1, parts[1..]);
    }
  }

  /** The ParseState a parameter text starts from: nothing accumulated, no pending name. */
  predicate ParamsStart(ps: PS) {
    ps.pos == 0 && ps.builder == "" && ps.nextQueryParam.None? && !ps.urlDecodeRequired
  }

  /**
   * A query ended by SP or HT: the query string is the raw text; every
   * '&'-separated segment adds a parameter (name and value split at the
   * first '=', a name without '=' getting ""), except an empty last one;
   * names and values are decoded as tokens of their own; the parse moves
   * to VERSION with the parameter state cleared.  It takes the count
   * before each '&' to be within maxParameters.
   */
  lemma QueryParsed(v: Variant, cfg: Config, ps: PS, ex: ExData, parts: seq<Part>, b: Byte, rest: seq<Byte>)
    requires ParamsStart(ps) && |parts| > 0 && PartsOk(true, parts) && ps.mapCount + |parts| <= cfg.maxParameters + 2 && IsBlank(b)
    ensures var text := Joined(parts);
      ParamRun(v, cfg, true, ps, ex, text + [b] + rest)
      == Ran(ParamsDone(ps, Version), ex.(queryString := Text(text), queryParams := ex.queryParams + PartsParams(cfg, parts)),
             |text| + 1, None)
  {
    var text := Joined(parts);
    var m := ps.mapCount;
    ParamsFrom(v, cfg, true, ps, ex, parts, b, rest);
    var ex1 := AddParams(ex, true, InitParams(cfg, parts));
    var c := LastLocals(cfg, "", m, parts);
    var ex0 := ex1.(queryString := c.builder);
    LastLocalsBuilder(cfg, "", m, parts);
    assert c.builder == Text(text);
    LastLocalsParam(cfg, true, ex0, "", m, parts);
    var ex2 := AddParams(ex0, true, FinalParam(cfg, parts[|parts| - 1]));
    assert ParamsEnd(v, cfg, true, ps, ex1, c, SignExtendedChar(b), rest) == Ran(ParamsDone(ps, Version), ex2, 0, None);
    assert ex2 == ex.(queryString := Text(text), queryParams := ex.queryParams + PartsParams(cfg, parts)) by {
      assert ex.queryParams + InitParams(cfg, parts) + FinalParam(cfg, parts[|parts| - 1]) == ex.queryParams + PartsParams(cfg, parts);
    }
  }

  /** The segments and the blank after them: the loop reaches the end of the parameters with the locals after the last segment. */
  lemma ParamsFrom(v: Variant, cfg: Config, query: bool, ps: PS, ex: ExData, parts: seq<Part>, b: Byte, rest: seq<Byte>)
    requires ParamsStart(ps) && |parts| > 0 && PartsOk(query, parts) && ps.mapCount + |parts| <= cfg.maxParameters + 2 && IsBlank(b)
    ensures ParamRun(v, cfg, query, ps, ex, Joined(parts) + [b] + rest)
            == Later(ParamsEnd(v, cfg, query, ps, AddParams(ex, query, InitParams(cfg, parts)), LastLocals(cfg, "", ps.mapCount, parts), SignExtendedChar(b), rest),
                     |Joined(parts)| + 1)
  {
    var text := Joined(parts);
    var c0 := SegmentStart("", ps.mapCount);
    assert c0 == ParamLocals(ps.pos, ps.mapCount, ps.urlDecodeRequired, ps.nextQueryParam, ps.builder);
    assert text + [b] + rest == text + ([b] + rest);
    PartsRead(v, cfg, query, ps, ex, "", ps.mapCount, parts, [b] + rest);
    var ex1 := AddParams(ex, query, InitParams(cfg, parts));
    var c := LastLocals(cfg, "", ps.mapCount, parts);
    assert ([b] + rest)[0] == b && ([b] + rest)[1..] == rest;
    assert ParamLoop(v, cfg, query, ps, ex1, c, [b] + rest) == Later(ParamsEnd(v, cfg, query, ps, ex1, c, SignExtendedChar(b), rest), 1);
  }

  /**
   * Path parameters ended by SP or HT: the segments become path
   * parameters as query segments become query parameters, the text is
   * appended to the URI after ';', and the parse moves to VERSION.  The
   * absolute-form flag of the URI is kept, or, as written, set from a
   * parseState that is always zero here.
   */
  lemma PathParamsParsed(v: Variant, cfg: Config, ps: PS, ex: ExData, parts: seq<Part>, b: Byte, rest: seq<Byte>)
    requires ParamsStart(ps) && |parts| > 0 && PartsOk(false, parts) && ps.mapCount + |parts| <= cfg.maxParameters + 2 && IsBlank(b)
    ensures var text := Joined(parts);
      ParamRun(v, cfg, false, ps, ex, text + [b] + rest)
      == Ran(ParamsDone(ps, Version),
             ex.(pathParams := ex.pathParams + PartsParams(cfg, parts), requestURI := ex.requestURI + ";" + Text(text),
                 uriIsAbsolute := if v.keepAbsoluteFlag then ex.uriIsAbsolute else ps.parseState > HostDone),
             |text| + 1, None)
  {
    var text := Joined(parts);
    var m := ps.mapCount;
    ParamsFrom(v, cfg, false, ps, ex, parts, b, rest);
    var ex1 := AddParams(ex, false, InitParams(cfg, parts));
    var c := LastLocals(cfg, "", m, parts);
    LastLocalsBuilder(cfg, "", m, parts);
    assert c.builder == Text(text);
    LastLocalsParam(cfg, false, ex1, "", m, parts);
    PathParamsEnd(v, cfg, ps, ex1, c, SignExtendedChar(b), rest);
    assert AddParams(ex1, false, FinalParam(cfg, parts[|parts| - 1])) == ex.(pathParams := ex.pathParams + PartsParams(cfg, parts)) by {
      assert ex.pathParams + InitParams(cfg, parts) + FinalParam(cfg, parts[|parts| - 1]) == ex.pathParams + PartsParams(cfg, parts);
    }
  }

  /** Path parameters ended by SP or HT: the pending parameter, the URI with ';' and the text, and VERSION. */
  lemma PathParamsEnd(v: Variant, cfg: Config, ps: PS, ex: ExData, c: ParamLocals, next: char, rest: seq<Byte>)
    requires next == ' ' || next == '\t'
    requires LastParam(cfg, false, ex, c).Some?
    ensures var ex1 := LastParam(cfg, false, ex, c).value;
      ParamsEnd(v, cfg, false, ps, ex, c, next, rest)
      == Ran(ParamsDone(ps, Version),
             ex1.(requestURI := ex1.requestURI + ";" + c.builder,
                  uriIsAbsolute := if v.keepAbsoluteFlag then ex1.uriIsAbsolute else ps.parseState > HostDone), 0, None)
  {
  }

  /**
   * The parameter limit: once the count before a '&' exceeds
   * maxParameters, tooManyQueryParameters is thrown.  With QueryParsed,
   * a text of n >= 2 segments read from a count m is accepted exactly when
   * m + n <= maxParameters + 2.
   */
  lemma {:induction false} TooManyParameters(v: Variant, cfg: Config, query: bool, ps: PS, ex: ExData, B: string, m: int, parts: seq<Part>, rest: seq<Byte>)
    requires |parts| >= 2 && PartsOk(query, parts) && m + |parts| > cfg.maxParameters + 2
    ensures ParamLoop(v, cfg, query, ps, ex, SegmentStart(B, m), Joined(parts) + rest).error == Some(TooManyQueryParameters)
    decreases |parts|
  {
    var p := parts[0];
    assert PartOk(query, p);
    var more := Joined(parts[1..]) + rest;
    assert Joined(parts) + rest == PartBytes(p) + ([Amp] + more);
    PartWalk(v, cfg, query, ps, ex, B, m, p, [Amp] + more);
    if m > cfg.maxParameters {
      PartAmpTooMany(v, cfg, query, ps, ex, B, m, p, more);
    } else {
      PartAmp(v, cfg, query, ps, ex, B, m, p, more);
      assert PartsOk(query, parts[1..]) by {
        forall i | 0 <= i < |parts[1..]| ensures PartOk(query, parts[1..][i]) {
          assert parts[1..][i] == parts[i + 1];
        }
      }
      TooManyParameters(v, cfg, query, ps, AddParam(ex, query, PartParam(cfg, p)), B + Text(PartBytes(p)) + "&", m + 1, parts[1..], rest);
    }
  }

  /** A CR or LF in the parameters throws failedToParsePath. */
  lemma ParamLineEndRejected(v: Variant, cfg: Config, query: bool, ps: PS, ex: ExData, parts: seq<Part>, e: Byte, rest: seq<Byte>)
    requires ParamsStart(ps) && |parts| > 0 && PartsOk(query, parts) && ps.mapCount + |parts| <= cfg.maxParameters + 2 && IsNewline(e)
    ensures var r := ParamRun(v, cfg, query, ps, ex, Joined(parts) + [e] + rest);
      r.error == Some(FailedToParsePath) && r.used == |Joined(parts)| + 1
  {
    assert SegmentStart("", ps.mapCount) == ParamLocals(ps.pos, ps.mapCount, ps.urlDecodeRequired, ps.nextQueryParam, ps.builder);
    assert Joined(parts) + [e] + rest == Joined(parts) + ([e] + rest);
    PartsRead(v, cfg, query, ps, ex, "", ps.mapCount, parts, [e] + rest);
    assert ([e] + rest)[0] == e;
  }

  // ---------------------------------------------------------------------
  // Targets with a query or path parameters
  // ---------------------------------------------------------------------

  /** '?' or ';' in START or HOST_DONE ends the path and hands the rest to the parameter parser. */
  lemma ParamsSplit(v: Variant, cfg: Config, ps: PS, ex: ExData, c: PathLocals, rest: seq<Byte>)
    requires |rest| > 0 && (rest[0] == Question || rest[0] == Semicolon) && (c.sub == Start || c.sub == HostDone)
    ensures var query := rest[0] == Question;
      PathLoop(v, cfg, ps, ex, c, rest)
      == match TargetSet(cfg, ex, c, false, query || v.decodeAbsoluteBeforeParams)
         case None => Ran(ps.(builder := c.builder), ex, 1, Some(IndexOutOfBounds))
         case Some(ex1) => Later(ParamRun(v, cfg, query, Reset(ps, if query then QueryParameters else PathParameters), ex1, rest[1..]), 1)
  {
  }

  /**
   * An origin-form target with a query: the path is the text before '?',
   * decoded if it asked for it, the URI that text (not absolute), and the
   * query is parsed as QueryParsed says.
   */
  lemma OriginFormQuery(v: Variant, cfg: Config, ps: PS, ex: ExData, t: seq<Byte>, parts: seq<Part>, b: Byte, rest: seq<Byte>)
    requires TargetStart(ps) && ps.nextQueryParam.None? && PathPlainText(Start, t)
    requires |parts| > 0 && PartsOk(true, parts) && ps.mapCount + |parts| <= cfg.maxParameters + 2 && IsBlank(b)
    ensures var path := PathDecoded(cfg, Text(t), Text(t));
      var text := Joined(parts);
      PathRun(v, cfg, ps, ex, t + [Question] + text + [b] + rest)
      == Ran(ParamsDone(Reset(ps, QueryParameters), Version),
             ex.(requestPath := path, relativePath := path, requestURI := Text(t), uriIsAbsolute := false,
                 queryString := Text(text), queryParams := ex.queryParams + PartsParams(cfg, parts)),
             |t| + 1 + |text| + 1, None)
  {
    var text := Joined(parts);
    var c := PathLocals(Start, ps.pos, false, "");
    assert t + [Question] + text + [b] + rest == t + ([Question] + (text + [b] + rest));
    PathWalk(v, cfg, ps, ex, c, t, [Question] + (text + [b] + rest));
    var c1 := Walked(cfg, c, t);
    assert c1 == PathLocals(Start, ps.pos, cfg.decodeUrl && Escapes(Text(t)), Text(t));
    ParamsSplit(v, cfg, ps, ex, c1, [Question] + (text + [b] + rest));
    assert ([Question] + (text + [b] + rest))[1..] == text + [b] + rest;
    var path := PathDecoded(cfg, Text(t), Text(t));
    var ex1 := ex.(requestPath := path, relativePath := path, requestURI := Text(t), uriIsAbsolute := false);
    QueryParsed(v, cfg, Reset(ps, QueryParameters), ex1, parts, b, rest);
  }

  /**
   * An absolute-form target with path parameters: the URI is the target,
   * ';' and the parameter text.  Corrected, the request path is decoded as
   * it is when the target ends otherwise, and the URI stays absolute; as
   * written, the path is left undecoded and the URI is marked not absolute.
   */
  lemma AbsolutePathParams(v: Variant, cfg: Config, ps: PS, ex: ExData, s: seq<Byte>, h: seq<Byte>, q: seq<Byte>, parts: seq<Part>, b: Byte, rest: seq<Byte>)
    requires TargetStart(ps) && ps.nextQueryParam.None? && AbsoluteOk(s, h, q)
    requires |parts| > 0 && PartsOk(false, parts) && ps.mapCount + |parts| <= cfg.maxParameters + 2 && IsBlank(b)
    ensures var t := Absolute(s, h, q);
      var text := Joined(parts);
      var r := PathRun(v, cfg, ps, ex, t + [Semicolon] + text + [b] + rest);
      r.error.None? && r.used == |t| + 1 + |text| + 1 && r.ps == ParamsDone(Reset(ps, PathParameters), Version)
      && r.ex.requestPath == r.ex.relativePath
      && r.ex.requestPath == (if v.decodeAbsoluteBeforeParams then PathDecoded(cfg, Text([Slash] + q), Text(t)) else Text([Slash] + q))
      && r.ex.requestURI == Text(t) + ";" + Text(text)
      && r.ex.uriIsAbsolute == v.keepAbsoluteFlag
      && r.ex.pathParams == ex.pathParams + PartsParams(cfg, parts)
  {
    var t := Absolute(s, h, q);
    var text := Joined(parts);
    var more := text + [b] + rest;
    assert t + [Semicolon] + text + [b] + rest == t + ([Semicolon] + more);
    AbsoluteWalk(v, cfg, ps, ex, ps.pos, s, h, q, [Semicolon] + more);
    var c := PathLocals(HostDone, |s| + 3 + |h|, cfg.decodeUrl && Escapes(Text(t)), Text(t));
    ParamsSplit(v, cfg, ps, ex, c, [Semicolon] + more);
    AbsoluteTail(s, h, q);
    assert ([Semicolon] + more)[1..] == more;
    var path := if v.decodeAbsoluteBeforeParams then PathDecoded(cfg, Text([Slash] + q), Text(t)) else Text([Slash] + q);
    var ex1 := ex.(requestPath := path, relativePath := path, requestURI := Text(t), uriIsAbsolute := true);
    assert TargetSet(cfg, ex, c, false, v.decodeAbsoluteBeforeParams) == Some(ex1);
    PathParamsParsed(v, cfg, Reset(ps, PathParameters), ex1, parts, b, rest);
  }

  /**
   * As written, an absolute-form target ended by ';' keeps its path
   * undecoded where the same target ended by SP is decoded: the two differ
   * whenever decoding changes the path.
   */
  lemma SemicolonSkipsDecodeAsWritten(cfg: Config, ps: PS, ex: ExData, s: seq<Byte>, h: seq<Byte>, q: seq<Byte>, parts: seq<Part>, b: Byte, rest: seq<Byte>)
    requires TargetStart(ps) && ps.nextQueryParam.None? && AbsoluteOk(s, h, q)
    requires |parts| > 0 && PartsOk(false, parts) && ps.mapCount + |parts| <= cfg.maxParameters + 2 && IsBlank(b)
    requires cfg.decodeUrl && Escapes(Text(q)) && cfg.urlDecode(Text([Slash] + q), cfg.allowEncodedSlash) != Text([Slash] + q)
    ensures var t := Absolute(s, h, q);
      PathRun(AsWritten, cfg, ps, ex, t + [Semicolon] + Joined(parts) + [b] + rest).ex.requestPath
      != PathRun(AsWritten, cfg, ps, ex, t + [b] + rest).ex.requestPath
  {
    AbsolutePathParams(AsWritten, cfg, ps, ex, s, h, q, parts, b, rest);
    AbsoluteFormTarget(AsWritten, cfg, ps, ex, s, h, q, b, rest);
    var t := Absolute(s, h, q);
    TextAppend(s + [Colon, Slash, Slash] + h + [Slash], q);
    assert Escapes(Text(t));
  }

  /** Corrected, an absolute-form target has the same request path whether SP or ';' ends it. */
  lemma SemicolonDecodes(cfg: Config, ps: PS, ex: ExData, s: seq<Byte>, h: seq<Byte>, q: seq<Byte>, parts: seq<Part>, b: Byte, rest: seq<Byte>)
    requires TargetStart(ps) && ps.nextQueryParam.None? && AbsoluteOk(s, h, q)
    requires |parts| > 0 && PartsOk(false, parts) && ps.mapCount + |parts| <= cfg.maxParameters + 2 && IsBlank(b)
    ensures var t := Absolute(s, h, q);
      PathRun(Corrected, cfg, ps, ex, t + [Semicolon] + Joined(parts) + [b] + rest).ex.requestPath
      == PathRun(Corrected, cfg, ps, ex, t + [b] + rest).ex.requestPath
  {
    AbsolutePathParams(Corrected, cfg, ps, ex, s, h, q, parts, b, rest);
    AbsoluteFormTarget(Corrected, cfg, ps, ex, s, h, q, b, rest);
  }

  /** As written, path parameters after an absolute-form target leave the URI marked not absolute. */
  lemma AbsoluteFlagLostAsWritten(cfg: Config, ps: PS, ex: ExData, s: seq<Byte>, h: seq<Byte>, q: seq<Byte>, parts: seq<Part>, b: Byte, rest: seq<Byte>)
    requires TargetStart(ps) && ps.nextQueryParam.None? && AbsoluteOk(s, h, q)
    requires |parts| > 0 && PartsOk(false, parts) && ps.mapCount + |parts| <= cfg.maxParameters + 2 && IsBlank(b)
    ensures var t := Absolute(s, h, q);
      !PathRun(AsWritten, cfg, ps, ex, t + [Semicolon] + Joined(parts) + [b] + rest).ex.uriIsAbsolute
  {
    AbsolutePathParams(AsWritten, cfg, ps, ex, s, h, q, parts, b, rest);
  }

  /** Corrected, an absolute-form URI stays absolute when path parameters follow. */
  lemma AbsoluteFlagKept(cfg: Config, ps: PS, ex: ExData, s: seq<Byte>, h: seq<Byte>, q: seq<Byte>, parts: seq<Part>, b: Byte, rest: seq<Byte>)
    requires TargetStart(ps) && ps.nextQueryParam.None? && AbsoluteOk(s, h, q)
    requires |parts| > 0 && PartsOk(false, parts) && ps.mapCount + |parts| <= cfg.maxParameters + 2 && IsBlank(b)
    ensures var t := Absolute(s, h, q);
      PathRun(Corrected, cfg, ps, ex, t + [Semicolon] + Joined(parts) + [b] + rest).ex.uriIsAbsolute
  {
    AbsolutePathParams(Corrected, cfg, ps, ex, s, h, q, parts, b, rest);
  }

  // ---------------------------------------------------------------------
  // Resuming on the next buffer
  // ---------------------------------------------------------------------

  /** ParseStates that differ at most in the fields handlePath reads into locals and writes back. */
  predicate PathShell(ps: PS, qs: PS) {
    ps.(parseState := 0, pos := 0, urlDecodeRequired := false, builder := "")
    == qs.(parseState := 0, pos := 0, urlDecodeRequired := false, builder := "")
  }

  /** handlePath does not depend on what its fields held before it took its locals. */
  lemma {:induction false} PathShellAgree(v: Variant, cfg: Config, ps: PS, qs: PS, ex: ExData, c: PathLocals, rest: seq<Byte>)
    requires PathShell(ps, qs)
    ensures Agree(PathLoop(v, cfg, ps, ex, c, rest), PathLoop(v, cfg, qs, ex, c, rest))
    decreases |rest|
  {
    if |rest| > 0 {
      var next := SignExtendedChar(rest[0]);
      assert Reset(ps, Version) == Reset(qs, Version);
      assert Reset(ps, QueryParameters) == Reset(qs, QueryParameters);
      assert Reset(ps, PathParameters) == Reset(qs, PathParameters);
      if next == ' ' || next == '\t' {
        if |c.builder| == 0 {
          PathShellAgree(v, cfg, ps, qs, ex, c, rest[1..]);
        }
      } else if !IsLineEnd(next) && !((next == '?' || next == ';') && (c.sub == Start || c.sub == HostDone)) {
        PathShellAgree(v, cfg, ps, qs, ex, PathChar(cfg, c, next), rest[1..]);
      }
    }
  }

  /** The parameter parsers end in VERSION, stay in their own state, or go on to the query. */
  lemma {:induction false} ParamStates(v: Variant, cfg: Config, query: bool, ps: PS, ex: ExData, c: ParamLocals, rest: seq<Byte>)
    ensures var r := ParamLoop(v, cfg, query, ps, ex, c, rest);
      r.error.None? ==> r.ps.state == ps.state || r.ps.state == Version || r.ps.state == QueryParameters
    decreases |rest|
  {
    if |rest| > 0 {
      var next := SignExtendedChar(rest[0]);
      if EndsParams(query, next) {
        var ex0 := if query then ex.(queryString := c.builder) else ex;
        if !query && next == '?' && LastParam(cfg, query, ex0, c).Some? {
          var ex1 := LastParam(cfg, query, ex0, c).value;
          var absolute := if v.keepAbsoluteFlag then ex1.uriIsAbsolute else ps.parseState > HostDone;
          var ex2 := ex1.(requestURI := ex1.requestURI + [';'] + c.builder, uriIsAbsolute := absolute);
          var ps1 := ParamsDone(ps, QueryParameters);
          ParamStates(v, cfg, true, ps1, ex2, ParamLocals(ps1.pos, ps1.mapCount, ps1.urlDecodeRequired, ps1.nextQueryParam, ps1.builder), rest[1..]);
          assert ParamsEnd(v, cfg, query, ps, ex, c, next, rest[1..]) == ParamRun(v, cfg, true, ps1, ex2, rest[1..]);
        }
      } else if !IsLineEnd(next) {
        var s := ParamChar(cfg, query, ex, c, next);
        if s.error.None? {
          ParamStates(v, cfg, query, ps, s.ex, s.c, rest[1..]);
        }
      }
    }
  }

  /**
   * handlePath resumes: when a call runs out of bytes inside the target,
   * a second call on the rest of the bytes does what one call on all of
   * them would have done.
   */
  lemma {:induction false} PathResumes(v: Variant, cfg: Config, ps: PS, ex: ExData, c: PathLocals, a: seq<Byte>, b: seq<Byte>)
    requires ps.state == Path
    ensures var r := PathLoop(v, cfg, ps, ex, c, a);
      r.error.None? && r.ps.state == Path ==> Agree(PathLoop(v, cfg, ps, ex, c, a + b), Later(PathRun(v, cfg, r.ps, r.ex, b), |a|))
    decreases |a|
  {
    var r := PathLoop(v, cfg, ps, ex, c, a);
    if |a| == 0 {
      assert a + b == b;
      var ps1 := ps.(parseState := c.sub, pos := c.start, urlDecodeRequired := c.decodeRequired, builder := c.builder);
      PathShellAgree(v, cfg, ps, ps1, ex, c, b);
    } else {
      assert (a + b)[0] == a[0] && (a + b)[1..] == a[1..] + b;
      var next := SignExtendedChar(a[0]);
      if next == ' ' || next == '\t' {
        if |c.builder| == 0 {
          PathResumes(v, cfg, ps, ex, c, a[1..], b);
        }
      } else if IsLineEnd(next) {
      } else if (next == '?' || next == ';') && (c.sub == Start || c.sub == HostDone) {
        var query := next == '?';
        var ps1 := Reset(ps, if query then QueryParameters else PathParameters);
        match TargetSet(cfg, ex, c, false, query || v.decodeAbsoluteBeforeParams)
        case None =>
        case Some(ex1) =>
        ParamStates(v, cfg, query, ps1, ex1, ParamLocals(ps1.pos, ps1.mapCount, ps1.urlDecodeRequired, ps1.nextQueryParam, ps1.builder), a[1..]);
      } else {
        PathResumes(v, cfg, ps, ex, PathChar(cfg, c, next), a[1..], b);
      }
    }
  }

  /** ParseStates that differ at most in the fields the parameter parsers read into locals and write back. */
  predicate ParamShell(ps: PS, qs: PS) {
    ps.(pos := 0, nextQueryParam := None, urlDecodeRequired := false, mapCount := 0, builder := "")
    == qs.(pos := 0, nextQueryParam := None, urlDecodeRequired := false, mapCount := 0, builder := "")
  }

  lemma ParamsEndShell(v: Variant, cfg: Config, query: bool, ps: PS, qs: PS, ex: ExData, c: ParamLocals, next: char, rest: seq<Byte>)
    requires ParamShell(ps, qs)
    ensures Agree(ParamsEnd(v, cfg, query, ps, ex, c, next, rest), ParamsEnd(v, cfg, query, qs, ex, c, next, rest))
  {
    assert ParamsDone(ps, Version) == ParamsDone(qs, Version);
    assert ParamsDone(ps, QueryParameters) == ParamsDone(qs, QueryParameters);
  }

  /** The parameter parsers do not depend on what their fields held before they took their locals. */
  lemma {:induction false} ParamShellAgree(v: Variant, cfg: Config, query: bool, ps: PS, qs: PS, ex: ExData, c: ParamLocals, rest: seq<Byte>)
    requires ParamShell(ps, qs)
    ensures Agree(ParamLoop(v, cfg, query, ps, ex, c, rest), ParamLoop(v, cfg, query, qs, ex, c, rest))
    decreases |rest|
  {
    if |rest| > 0 {
      var next := SignExtendedChar(rest[0]);
      if EndsParams(query, next) {
        ParamsEndShell(v, cfg, query, ps, qs, ex, c, next, rest[1..]);
      } else if !IsLineEnd(next) {
        var s := ParamChar(cfg, query, ex, c, next);
        if s.error.None? {
          ParamShellAgree(v, cfg, query, ps, qs, s.ex, s.c, rest[1..]);
        }
      }
    }
  }

  /**
   * The parameter parsers resume, when the count is written back: a call
   * that runs out of bytes inside the parameters, then a second call on
   * the rest, do what one call on all the bytes would have done.
   */
  lemma {:induction false} ParamResumes(v: Variant, cfg: Config, query: bool, ps: PS, ex: ExData, c: ParamLocals, a: seq<Byte>, b: seq<Byte>)
    requires v.keepCount && ps.state == (if query then QueryParameters else PathParameters)
    ensures var r := ParamLoop(v, cfg, query, ps, ex, c, a);
      r.error.None? && r.ps.state == ps.state ==> Agree(ParamLoop(v, cfg, query, ps, ex, c, a + b), Later(ParamRun(v, cfg, query, r.ps, r.ex, b), |a|))
    decreases |a|
  {
    if |a| == 0 {
      assert a + b == b;
      var ps1 := ps.(pos := c.pos, nextQueryParam := c.name, urlDecodeRequired := c.decodeRequired, mapCount := c.mapCount, builder := c.builder);
      ParamShellAgree(v, cfg, query, ps, ps1, ex, c, b);
    } else {
      assert (a + b)[0] == a[0] && (a + b)[1..] == a[1..] + b;
      var next := SignExtendedChar(a[0]);
      if EndsParams(query, next) {
        var ex0 := if query then ex.(queryString := c.builder) else ex;
        if !query && next == '?' && LastParam(cfg, query, ex0, c).Some? {
          var ex1 := LastParam(cfg, query, ex0, c).value;
          var absolute := if v.keepAbsoluteFlag then ex1.uriIsAbsolute else ps.parseState > HostDone;
          var ex2 := ex1.(requestURI := ex1.requestURI + [';'] + c.builder, uriIsAbsolute := absolute);
          var ps1 := ParamsDone(ps, QueryParameters);
          ParamStates(v, cfg, true, ps1, ex2, ParamLocals(ps1.pos, ps1.mapCount, ps1.urlDecodeRequired, ps1.nextQueryParam, ps1.builder), a[1..]);
          assert ParamsEnd(v, cfg, query, ps, ex, c, next, a[1..]) == ParamRun(v, cfg, true, ps1, ex2, a[1..]);
        }
      } else if !IsLineEnd(next) {
        var s := ParamChar(cfg, query, ex, c, next);
        if s.error.None? {
          ParamResumes(v, cfg, query, ps, s.ex, s.c, a[1..], b);
        }
      }
    }
  }

  // ---------------------------------------------------------------------
  // The parameter count across buffers
  // ---------------------------------------------------------------------

  /** The query "a&b&c" with no parameter allowed past the first, split after "a&b". */
  const QueryHead: seq<Byte> := [97, 38, 98]
  const QueryTail: seq<Byte> := [38, 99, 32]

  function QueryParts(): (parts: seq<Part>)
    ensures |parts| == 3 && Joined(parts) + [32] == QueryHead + QueryTail && PartsOk(true, parts)
  {
    var parts := [Part([97], None), Part([98], None), Part([99], None)];
    assert Joined(parts[2..]) == [99];
    assert Joined(parts[1..]) == [98, 38, 99];
    parts
  }

  /**
   * As written, handleQueryParameters writes the parameter count back as
   * zero when it runs out of bytes, so a query split across two reads
   * passes the limit that the same query in one read fails.
   */
  lemma CountLostAsWritten(ps: PS, ex: ExData, urlDecode: (string, bool) -> string)
    requires ParamsStart(ps) && ps.mapCount == 0
    ensures var cfg := Config(0, 0, false, false, urlDecode);
      var whole := ParamRun(AsWritten, cfg, true, ps, ex, QueryHead + QueryTail);
      var first := ParamRun(AsWritten, cfg, true, ps, ex, QueryHead);
      var second := ParamRun(AsWritten, cfg, true, first.ps, first.ex, QueryTail);
      whole.error == Some(TooManyQueryParameters) && first.error.None? && first.used == 3 && second.error.None?
  {
    var cfg := Config(0, 0, false, false, urlDecode);
    var parts := QueryParts();
    assert SegmentStart("", 0) == ParamLocals(ps.pos, ps.mapCount, ps.urlDecodeRequired, ps.nextQueryParam, ps.builder);
    TooManyParameters(AsWritten, cfg, true, ps, ex, "", 0, parts, [32]);
    QueryHeadRead(ps, ex, cfg);
    var first := ParamRun(AsWritten, cfg, true, ps, ex, QueryHead);
    var ex1 := first.ex;
    var last := Part([98], None);
    PartAmp(AsWritten, cfg, true, first.ps, ex1, "a&", 0, last, [99, 32]);
    var ex2 := AddParam(ex1, true, PartParam(cfg, last));
    assert Text(PartBytes(last)) == "b";
    QueryParsedFrom(AsWritten, cfg, first.ps, ex2, "a&b&", 1, Part([99], None));
  }

  /** As written, reading "a&b" alone ends out of bytes after "b" with the count written back as zero. */
  lemma QueryHeadRead(ps: PS, ex: ExData, cfg: Config)
    requires ParamsStart(ps) && ps.mapCount == 0 && cfg.maxParameters == 0 && !cfg.decodeUrl
    ensures var first := ParamRun(AsWritten, cfg, true, ps, ex, QueryHead);
      first.error.None? && first.used == 3 && first.ps.state == ps.state
      && ParamLocals(first.ps.pos, first.ps.mapCount, first.ps.urlDecodeRequired, first.ps.nextQueryParam, first.ps.builder)
         == SegLocals(cfg, "a&", 0, Part([98], None))
  {
    var parts := QueryParts();
    assert SegmentStart("", 0) == ParamLocals(ps.pos, ps.mapCount, ps.urlDecodeRequired, ps.nextQueryParam, ps.builder);
    var two := parts[..2];
    assert Joined(two) + [] == QueryHead by {
      assert two[1..] == [Part([98], None)];
    }
    PartsRead(AsWritten, cfg, true, ps, ex, "", 0, two, []);
    assert LastLocals(cfg, "", 0, two) == SegLocals(cfg, "a&", 1, Part([98], None));
  }

  /** One last segment read from SegmentStart, then SP, ends the query without an error while the count is within the limit. */
  lemma QueryParsedFrom(v: Variant, cfg: Config, ps: PS, ex: ExData, B: string, m: int, p: Part)
    requires PartOk(true, p) && m <= cfg.maxParameters + 1
    ensures ParamLoop(v, cfg, true, ps, ex, SegmentStart(B, m), PartBytes(p) + [32]).error.None?
  {
    PartsRead(v, cfg, true, ps, ex, B, m, [p], [32]);
    assert Joined([p]) == PartBytes(p);
    LastLocalsParam(cfg, true, ex.(queryString := B + Text(PartBytes(p))), B, m, [p]);
  }

  /**
   * With the count written back, the same split query fails in the second
   * read, as it does in one read.
   */
  lemma CountKept(ps: PS, ex: ExData, urlDecode: (string, bool) -> string)
    requires ParamsStart(ps) && ps.mapCount == 0 && ps.state == QueryParameters
    ensures var cfg := Config(0, 0, false, false, urlDecode);
      var first := ParamRun(Corrected, cfg, true, ps, ex, QueryHead);
      var second := ParamRun(Corrected, cfg, true, first.ps, first.ex, QueryTail);
      first.error.None? && first.ps.state == QueryParameters && second.error == Some(TooManyQueryParameters)
  {
    var cfg := Config(0, 0, false, false, urlDecode);
    var parts := QueryParts();
    var c := ParamLocals(ps.pos, ps.mapCount, ps.urlDecodeRequired, ps.nextQueryParam, ps.builder);
    assert SegmentStart("", 0) == c;
    TooManyParameters(Corrected, cfg, true, ps, ex, "", 0, parts, [32]);
    var two := parts[..2];
    assert Joined(two) + [] == QueryHead by {
      assert two[1..] == [Part([98], None)];
    }
    PartsRead(Corrected, cfg, true, ps, ex, "", 0, two, []);
    ParamResumes(Corrected, cfg, true, ps, ex, c, QueryHead, QueryTail);
  }
}
