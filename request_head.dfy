/**
 * The rest of the request head: the line end after the version
 * (handleAfterVersion), header values (handleHeaderValue), and the GET
 * fast path of handle.  A header value is described by its words and the
 * whitespace between them; what the parser stores is the words joined by
 * one SP, whatever whitespace (folded line ends included) stood between
 * them and before and after them.
 */
module RequestHead {
  import opened Octets
  import opened ParseStates
  import opened TokenMatcher
  import opened RequestMachines
  import opened ParserTrie
  import opened RequestParser
  import opened RequestTarget

  // ---------------------------------------------------------------------
  // Header values
  // ---------------------------------------------------------------------

  /** The chars the bytes t add to the value's StringBuilder. */
  function ValueText(v: Variant, t: seq<Byte>): (s: string)
    ensures |s| == |t|
    ensures forall i :: 0 <= i < |t| ==> s[i] == ValueChar(v, t[i])
  {
    seq(|t|, i requires 0 <= i < |t| => ValueChar(v, t[i]))
  }

  lemma ValueTextAppend(v: Variant, a: seq<Byte>, b: seq<Byte>)
    ensures ValueText(v, a + b) == ValueText(v, a) + ValueText(v, b)
  {
  }

  /** A byte the value keeps as it is: anything but SP, HT, CR and LF. */
  predicate IsWordByte(b: Byte) {
    !IsLws(Signed(b)) && Signed(b) != CR && Signed(b) != LF
  }

  predicate IsWord(w: seq<Byte>) {
    |w| > 0 && forall i :: 0 <= i < |w| ==> IsWordByte(w[i])
  }

  /** One piece of whitespace: SP or HT, or a line end (CR LF, LF or CR) folded by the SP or HT after it. */
  predicate IsBlankUnit(u: seq<Byte>) {
    (|u| == 1 && IsLws(Signed(u[0])))
    || (|u| == 2 && (Signed(u[0]) == LF || Signed(u[0]) == CR) && IsLws(Signed(u[1])))
    || (|u| == 3 && Signed(u[0]) == CR && Signed(u[1]) == LF && IsLws(Signed(u[2])))
  }

  /** The length of the first piece of whitespace in g, or 0 if g does not start with one. */
  function UnitLength(g: seq<Byte>): (k: nat)
    ensures k <= |g|
    ensures k > 0 ==> IsBlankUnit(g[..k])
  {
    if |g| >= 1 && IsLws(Signed(g[0])) then 1
    else if |g| >= 2 && (Signed(g[0]) == LF || Signed(g[0]) == CR) && IsLws(Signed(g[1])) then 2
    else if |g| >= 3 && Signed(g[0]) == CR && Signed(g[1]) == LF && IsLws(Signed(g[2])) then 3
    else 0
  }

  /** Whitespace between words: pieces of whitespace, one after the other. */
  predicate IsGap(g: seq<Byte>)
    decreases |g|
  {
    |g| == 0 || (UnitLength(g) > 0 && IsGap(g[UnitLength(g)..]))
  }

  /** The bytes of a value line: gaps[0], words[0], gaps[1], ..., words[n-1], gaps[n]. */
  function Spaced(words: seq<seq<Byte>>, gaps: seq<seq<Byte>>): seq<Byte>
    requires |gaps| == |words| + 1
    decreases |words|
  {
    if |words| == 0 then gaps[0] else gaps[0] + words[0] + Spaced(words[1..], gaps[1..])
  }

  /** Words and gaps that make a value line: words with no whitespace, gaps of whitespace, nonempty between words. */
  predicate LineOk(words: seq<seq<Byte>>, gaps: seq<seq<Byte>>) {
    |gaps| == |words| + 1
    && (forall i :: 0 <= i < |words| ==> IsWord(words[i]))
    && (forall i :: 0 <= i < |gaps| ==> IsGap(gaps[i]))
    && (forall i :: 0 < i < |words| ==> |gaps[i]| > 0)
  }

  /** Each word after an SP. */
  function SpPrefixed(words: seq<seq<Byte>>): seq<Byte>
    decreases |words|
  {
    if |words| == 0 then [] else [SP] + words[0] + SpPrefixed(words[1..])
  }

  /** The words joined by one SP: the value the parser is meant to store. */
  function JoinSp(words: seq<seq<Byte>>): seq<Byte> {
    if |words| == 0 then [] else words[0] + SpPrefixed(words[1..])
  }

  /** The sub-state after the whitespace g, from sub. */
  function AfterGap(sub: int, g: seq<Byte>): int {
    if |g| == 0 then sub else Whitespace
  }

  // One byte of handleHeaderValue's switch, case by case.

  lemma StepBlank(v: Variant, cfg: Config, ps: PS, ex: ExData, sub: int, b: Byte, rest: seq<Byte>)
    requires (sub == Normal || sub == Whitespace) && IsLws(Signed(b))
    ensures ValueLoop(v, cfg, ps, ex, sub, [b] + rest) == Later(ValueLoop(v, cfg, ps, ex, Whitespace, rest), 1)
  {
    assert ([b] + rest)[0] == b && ([b] + rest)[1..] == rest;
  }

  lemma StepCR(v: Variant, cfg: Config, ps: PS, ex: ExData, sub: int, b: Byte, rest: seq<Byte>)
    requires (sub == Normal || sub == Whitespace) && Signed(b) == CR
    ensures ValueLoop(v, cfg, ps, ex, sub, [b] + rest) == Later(ValueLoop(v, cfg, ps, ex, BeginLineEnd, rest), 1)
  {
    assert ([b] + rest)[0] == b && ([b] + rest)[1..] == rest;
  }

  lemma StepLF(v: Variant, cfg: Config, ps: PS, ex: ExData, sub: int, b: Byte, rest: seq<Byte>)
    requires (sub == Normal || sub == Whitespace || sub == BeginLineEnd) && Signed(b) == LF
    ensures ValueLoop(v, cfg, ps, ex, sub, [b] + rest) == Later(ValueLoop(v, cfg, ps, ex, LineEnd, rest), 1)
  {
    assert ([b] + rest)[0] == b && ([b] + rest)[1..] == rest;
  }

  lemma StepFold(v: Variant, cfg: Config, ps: PS, ex: ExData, sub: int, b: Byte, rest: seq<Byte>)
    requires (sub == LineEnd || sub == BeginLineEnd) && IsLws(Signed(b))
    ensures ValueLoop(v, cfg, ps, ex, sub, [b] + rest) == Later(ValueLoop(v, cfg, ps, ex, Whitespace, rest), 1)
  {
    assert ([b] + rest)[0] == b && ([b] + rest)[1..] == rest;
  }

  lemma StepWord(v: Variant, cfg: Config, ps: PS, ex: ExData, sub: int, b: Byte, rest: seq<Byte>)
    requires (sub == Normal || sub == Whitespace) && IsWordByte(b)
    ensures var sb := if sub == Whitespace && |ps.builder| > 0 then ps.builder + " " else ps.builder;
      ValueLoop(v, cfg, ps, ex, sub, [b] + rest) == Later(ValueLoop(v, cfg, ps.(builder := sb + [ValueChar(v, b)]), ex, Normal, rest), 1)
  {
    assert ([b] + rest)[0] == b && ([b] + rest)[1..] == rest;
  }

  /** After a line end, a byte that does not fold the line completes the header. */
  lemma StepComplete(v: Variant, cfg: Config, ps: PS, ex: ExData, sub: int, b: Byte, rest: seq<Byte>)
    requires (sub == LineEnd || sub == BeginLineEnd) && !IsLws(Signed(b)) && !(Signed(b) == LF && sub == BeginLineEnd)
    requires ps.mapCount <= cfg.maxHeaders && IsLatin1(ps.builder)
    ensures ValueLoop(v, cfg, ps, ex, sub, [b] + rest)
            == if Signed(b) == CR then Later(ValueLoop(v, cfg, HeaderAdded(ps, CR), WithHeader(ps, ex), AwaitDataEnd, rest), 1)
               else Ran(HeaderAdded(ps, Signed(b)).(state := Header, parseState := 0), WithHeader(ps, ex), 1, None)
  {
    assert ([b] + rest)[0] == b && ([b] + rest)[1..] == rest;
  }

  /** After a line end, with more headers than allowed, a byte that does not fold the line throws. */
  lemma StepTooMany(v: Variant, cfg: Config, ps: PS, ex: ExData, sub: int, b: Byte, rest: seq<Byte>)
    requires (sub == LineEnd || sub == BeginLineEnd) && !IsLws(Signed(b)) && !(Signed(b) == LF && sub == BeginLineEnd)
    requires ps.mapCount > cfg.maxHeaders
    ensures ValueLoop(v, cfg, ps, ex, sub, [b] + rest) == Ran(ps.(mapCount := ps.mapCount + 1), ex, 1, Some(TooManyHeaders))
  {
    assert ([b] + rest)[0] == b;
  }

  /** After a line end, a value that is not Latin-1 text throws when the header is made. */
  lemma StepIllegal(v: Variant, cfg: Config, ps: PS, ex: ExData, sub: int, b: Byte, rest: seq<Byte>)
    requires (sub == LineEnd || sub == BeginLineEnd) && !IsLws(Signed(b)) && !(Signed(b) == LF && sub == BeginLineEnd)
    requires ps.mapCount <= cfg.maxHeaders && !IsLatin1(ps.builder)
    ensures ValueLoop(v, cfg, ps, ex, sub, [b] + rest) == Ran(ps.(mapCount := ps.mapCount + 1), ex, 1, Some(IllegalCharacter))
  {
    assert ([b] + rest)[0] == b;
  }

  /** A sub-state the switch has no case for reads the byte and changes nothing. */
  lemma StepOther(v: Variant, cfg: Config, ps: PS, ex: ExData, sub: int, b: Byte, rest: seq<Byte>)
    requires !(Normal <= sub <= AwaitDataEnd)
    ensures ValueLoop(v, cfg, ps, ex, sub, [b] + rest) == Later(ValueLoop(v, cfg, ps, ex, sub, rest), 1)
  {
    assert ([b] + rest)[0] == b && ([b] + rest)[1..] == rest;
  }

  lemma StepAwait(v: Variant, cfg: Config, ps: PS, ex: ExData, b: Byte, rest: seq<Byte>)
    ensures ValueLoop(v, cfg, ps, ex, AwaitDataEnd, [b] + rest) == Ran(ps.(state := ParseComplete), ex, 1, None)
  {
    assert ([b] + rest)[0] == b;
  }

  /** One piece of whitespace moves to WHITESPACE, from NORMAL or WHITESPACE, and stores nothing. */
  lemma UnitWalk(v: Variant, cfg: Config, ps: PS, ex: ExData, sub: int, u: seq<Byte>, tail: seq<Byte>)
    requires (sub == Normal || sub == Whitespace) && IsBlankUnit(u)
    ensures ValueLoop(v, cfg, ps, ex, sub, u + tail) == Later(ValueLoop(v, cfg, ps, ex, Whitespace, tail), |u|)
  {
    if |u| == 1 {
      assert u + tail == [u[0]] + tail;
      StepBlank(v, cfg, ps, ex, sub, u[0], tail);
    } else if |u| == 2 {
      assert u + tail == [u[0]] + ([u[1]] + tail);
      StepFold(v, cfg, ps, ex, if Signed(u[0]) == LF then LineEnd else BeginLineEnd, u[1], tail);
      if Signed(u[0]) == LF {
        StepLF(v, cfg, ps, ex, sub, u[0], [u[1]] + tail);
      } else {
        StepCR(v, cfg, ps, ex, sub, u[0], [u[1]] + tail);
      }
    } else {
      assert u + tail == [u[0]] + ([u[1]] + ([u[2]] + tail));
      StepFold(v, cfg, ps, ex, LineEnd, u[2], tail);
      StepLF(v, cfg, ps, ex, BeginLineEnd, u[1], [u[2]] + tail);
      StepCR(v, cfg, ps, ex, sub, u[0], [u[1]] + ([u[2]] + tail));
    }
  }

  /** Whitespace, folded line ends included, moves to WHITESPACE (if there is any) and stores nothing. */
  lemma {:induction false} GapWalk(v: Variant, cfg: Config, ps: PS, ex: ExData, sub: int, g: seq<Byte>, tail: seq<Byte>)
    requires (sub == Normal || sub == Whitespace) && IsGap(g)
    ensures ValueLoop(v, cfg, ps, ex, sub, g + tail) == Later(ValueLoop(v, cfg, ps, ex, AfterGap(sub, g), tail), |g|)
    decreases |g|
  {
    if |g| == 0 {
      assert g + tail == tail;
    } else {
      var k := UnitLength(g);
      assert g + tail == g[..k] + (g[k..] + tail);
      UnitWalk(v, cfg, ps, ex, sub, g[..k], g[k..] + tail);
      GapWalk(v, cfg, ps, ex, Whitespace, g[k..], tail);
    }
  }

  lemma ConsSplit(w: seq<Byte>, tail: seq<Byte>)
    requires |w| > 0
    ensures w + tail == [w[0]] + (w[1..] + tail)
  {
  }

  /** Appending a word's first char and then the rest of its text appends its text. */
  lemma BuilderCons(v: Variant, ps: PS, sb: string, w: seq<Byte>)
    requires |w| > 0
    ensures var ps1 := ps.(builder := sb + [ValueChar(v, w[0])]);
      ps1.(builder := ps1.builder + ValueText(v, w[1..])) == ps.(builder := sb + ValueText(v, w))
  {
    assert ValueText(v, w) == [ValueChar(v, w[0])] + ValueText(v, w[1..]);
  }

  /** In NORMAL, the bytes of a word are appended as they come. */
  lemma {:induction false} WordRest(v: Variant, cfg: Config, ps: PS, ex: ExData, w: seq<Byte>, tail: seq<Byte>)
    requires forall i :: 0 <= i < |w| ==> IsWordByte(w[i])
    ensures ValueLoop(v, cfg, ps, ex, Normal, w + tail)
            == Later(ValueLoop(v, cfg, ps.(builder := ps.builder + ValueText(v, w)), ex, Normal, tail), |w|)
    decreases |w|
  {
    if |w| == 0 {
      assert w + tail == tail && ps.builder + ValueText(v, w) == ps.builder;
      assert ps.(builder := ps.builder) == ps;
    } else {
      ConsSplit(w, tail);
      StepWord(v, cfg, ps, ex, Normal, w[0], w[1..] + tail);
      var ps1 := ps.(builder := ps.builder + [ValueChar(v, w[0])]);
      WordRest(v, cfg, ps1, ex, w[1..], tail);
      BuilderCons(v, ps, ps.builder, w);
    }
  }

  /** A word is appended, after one SP if whitespace came before it and the value is not empty. */
  lemma WordWalk(v: Variant, cfg: Config, ps: PS, ex: ExData, sub: int, w: seq<Byte>, tail: seq<Byte>)
    requires (sub == Normal || sub == Whitespace) && IsWord(w)
    ensures var sb := if sub == Whitespace && |ps.builder| > 0 then ps.builder + " " else ps.builder;
      ValueLoop(v, cfg, ps, ex, sub, w + tail) == Later(ValueLoop(v, cfg, ps.(builder := sb + ValueText(v, w)), ex, Normal, tail), |w|)
  {
    var sb := if sub == Whitespace && |ps.builder| > 0 then ps.builder + " " else ps.builder;
    ConsSplit(w, tail);
    StepWord(v, cfg, ps, ex, sub, w[0], w[1..] + tail);
    var ps1 := ps.(builder := sb + [ValueChar(v, w[0])]);
    WordRest(v, cfg, ps1, ex, w[1..], tail);
    BuilderCons(v, ps, sb, w);
  }

  lemma SpacedSplit(words: seq<seq<Byte>>, gaps: seq<seq<Byte>>, tail: seq<Byte>)
    requires |gaps| == |words| + 1 && |words| > 0
    ensures Spaced(words, gaps) + tail == gaps[0] + (words[0] + (Spaced(words[1..], gaps[1..]) + tail))
    ensures |Spaced(words, gaps)| == |gaps[0]| + |words[0]| + |Spaced(words[1..], gaps[1..])|
    ensures gaps[1..][|words[1..]|] == gaps[|words|]
  {
    var r := Spaced(words[1..], gaps[1..]);
    assert Spaced(words, gaps) == gaps[0] + words[0] + r;
    BytesAssoc(gaps[0], words[0], r, tail);
  }

  lemma BytesAssoc(a: seq<Byte>, b: seq<Byte>, c: seq<Byte>, d: seq<Byte>)
    ensures a + b + c + d == a + (b + (c + d))
  {
  }

  lemma LineOkTail(words: seq<seq<Byte>>, gaps: seq<seq<Byte>>)
    requires LineOk(words, gaps) && |words| > 0
    ensures LineOk(words[1..], gaps[1..]) && IsWord(words[0]) && IsGap(gaps[0])
    ensures |words| > 1 ==> |gaps[1..][0]| > 0
  {
    assert forall i :: 0 <= i < |words[1..]| ==> words[1..][i] == words[i + 1];
    assert forall i :: 0 <= i < |gaps[1..]| ==> gaps[1..][i] == gaps[i + 1];
  }

  /** The sub-state a value line leaves, from sub: NORMAL or WHITESPACE. */
  function LineEndSub(sub: int, words: seq<seq<Byte>>, gaps: seq<seq<Byte>>): int
    requires |gaps| == |words| + 1
  {
    if |words| == 0 then AfterGap(sub, gaps[0]) else AfterGap(Normal, gaps[|words|])
  }

  lemma SpText(v: Variant, words: seq<seq<Byte>>)
    requires |words| > 0
    ensures ValueText(v, SpPrefixed(words)) == " " + ValueText(v, words[0]) + ValueText(v, SpPrefixed(words[1..]))
  {
    assert SpPrefixed(words) == [SP] + words[0] + SpPrefixed(words[1..]);
    ValueTextAppend(v, [SP] + words[0], SpPrefixed(words[1..]));
    ValueTextAppend(v, [SP], words[0]);
    assert ValueText(v, [SP]) == " ";
  }

  /** An SP and a word, then the SP-prefixed words after it, are the SP-prefixed words. */
  lemma SpBuilder(v: Variant, ps: PS, words: seq<seq<Byte>>)
    requires |words| > 0
    ensures var ps1 := ps.(builder := ps.builder + " " + ValueText(v, words[0]));
      ps1.(builder := ps1.builder + ValueText(v, SpPrefixed(words[1..]))) == ps.(builder := ps.builder + ValueText(v, SpPrefixed(words)))
  {
    SpConcat(v, ps.builder, words);
  }

  lemma SpConcat(v: Variant, B: string, words: seq<seq<Byte>>)
    requires |words| > 0
    ensures B + " " + ValueText(v, words[0]) + ValueText(v, SpPrefixed(words[1..])) == B + ValueText(v, SpPrefixed(words))
  {
    SpText(v, words);
    Assoc(B, " ", ValueText(v, words[0]), ValueText(v, SpPrefixed(words[1..])));
  }

  lemma Assoc(a: string, b: string, c: string, d: string)
    ensures a + b + c + d == a + (b + c + d)
  {
  }

  /** The first word, then the SP-prefixed words after it, are the words joined by SP. */
  lemma JoinBuilder(v: Variant, ps: PS, words: seq<seq<Byte>>)
    requires |words| > 0
    ensures var ps1 := ps.(builder := ValueText(v, words[0]));
      ps1.(builder := ps1.builder + ValueText(v, SpPrefixed(words[1..]))) == ps.(builder := ValueText(v, JoinSp(words)))
  {
    ValueTextAppend(v, words[0], SpPrefixed(words[1..]));
  }

  /** After the first word: each further word is appended after one SP. */
  lemma {:induction false} InnerWords(v: Variant, cfg: Config, ps: PS, ex: ExData, words: seq<seq<Byte>>, gaps: seq<seq<Byte>>, tail: seq<Byte>)
    requires LineOk(words, gaps) && |ps.builder| > 0
    requires |words| > 0 ==> |gaps[0]| > 0
    ensures ValueLoop(v, cfg, ps, ex, Normal, Spaced(words, gaps) + tail)
            == Later(ValueLoop(v, cfg, ps.(builder := ps.builder + ValueText(v, SpPrefixed(words))), ex, LineEndSub(Normal, words, gaps), tail),
                     |Spaced(words, gaps)|)
    decreases |words|
  {
    if |words| == 0 {
      assert ps.builder + ValueText(v, SpPrefixed(words)) == ps.builder;
      assert ps.(builder := ps.builder) == ps;
      GapWalk(v, cfg, ps, ex, Normal, gaps[0], tail);
    } else {
      LineOkTail(words, gaps);
      SpacedSplit(words, gaps, tail);
      var more := Spaced(words[1..], gaps[1..]) + tail;
      GapWalk(v, cfg, ps, ex, Normal, gaps[0], words[0] + more);
      WordWalk(v, cfg, ps, ex, Whitespace, words[0], more);
      var ps1 := ps.(builder := ps.builder + " " + ValueText(v, words[0]));
      InnerWords(v, cfg, ps1, ex, words[1..], gaps[1..], tail);
      SpBuilder(v, ps, words);
    }
  }

  /**
   * From the start of a value, the line stores its words joined by one SP:
   * leading and trailing whitespace and the runs between words are
   * dropped or squeezed.
   */
  lemma ValueWords(v: Variant, cfg: Config, ps: PS, ex: ExData, sub: int, words: seq<seq<Byte>>, gaps: seq<seq<Byte>>, tail: seq<Byte>)
    requires LineOk(words, gaps) && (sub == Normal || sub == Whitespace) && ps.builder == ""
    ensures ValueLoop(v, cfg, ps, ex, sub, Spaced(words, gaps) + tail)
            == Later(ValueLoop(v, cfg, ps.(builder := ValueText(v, JoinSp(words))), ex, LineEndSub(sub, words, gaps), tail),
                     |Spaced(words, gaps)|)
  {
    if |words| == 0 {
      assert ps.(builder := ValueText(v, JoinSp(words))) == ps;
      GapWalk(v, cfg, ps, ex, sub, gaps[0], tail);
    } else {
      LineOkTail(words, gaps);
      SpacedSplit(words, gaps, tail);
      var more := Spaced(words[1..], gaps[1..]) + tail;
      GapWalk(v, cfg, ps, ex, sub, gaps[0], words[0] + more);
      WordWalk(v, cfg, ps, ex, AfterGap(sub, gaps[0]), words[0], more);
      var ps1 := ps.(builder := ValueText(v, words[0]));
      assert ps.builder + ValueText(v, words[0]) == ps1.builder && |ps1.builder| > 0;
      InnerWords(v, cfg, ps1, ex, words[1..], gaps[1..], tail);
      JoinBuilder(v, ps, words);
    }
  }

  /** A line end the header value stops at: CR LF or a bare LF. */
  predicate IsLineBreak(eol: seq<Byte>) {
    eol == [CR, LF] || eol == [LF]
  }

  /** A line end, from NORMAL or WHITESPACE, moves to LINE_END. */
  lemma BreakWalk(v: Variant, cfg: Config, ps: PS, ex: ExData, sub: int, eol: seq<Byte>, t: seq<Byte>)
    requires (sub == Normal || sub == Whitespace) && IsLineBreak(eol)
    ensures ValueLoop(v, cfg, ps, ex, sub, eol + t) == Later(ValueLoop(v, cfg, ps, ex, LineEnd, t), |eol|)
  {
    if eol == [CR, LF] {
      assert eol + t == [CR as Byte] + ([LF as Byte] + t);
      StepLF(v, cfg, ps, ex, BeginLineEnd, LF, t);
      StepCR(v, cfg, ps, ex, sub, CR, [LF as Byte] + t);
    } else {
      assert eol + t == [LF as Byte] + t;
      StepLF(v, cfg, ps, ex, sub, LF, t);
    }
  }

  /** The ParseState after a header is added: count up, nextHeader and the StringBuilder cleared, the next byte kept. */
  function HeaderAdded(ps: PS, next: int): PS {
    ps.(mapCount := ps.mapCount + 1, nextHeader := None, leftOver := next, builder := "")
  }

  /** The exchange after a header is added: the pending name with the stored value. */
  function WithHeader(ps: PS, ex: ExData): ExData {
    ex.(requestHeaders := ex.requestHeaders + [HeaderEntry(ps.nextHeader, LowBytes(ps.builder))])
  }

  /**
   * A line end followed by a byte that does not fold the line completes
   * the header: the header is added, the byte is kept for the header-name
   * machine and the parse returns to HEADER.
   */
  lemma LineEnds(v: Variant, cfg: Config, ps: PS, ex: ExData, sub: int, eol: seq<Byte>, b: Byte, more: seq<Byte>)
    requires (sub == Normal || sub == Whitespace) && IsLineBreak(eol)
    requires ps.mapCount <= cfg.maxHeaders && IsLatin1(ps.builder)
    requires !IsLws(Signed(b)) && Signed(b) != CR
    ensures ValueLoop(v, cfg, ps, ex, sub, eol + [b] + more)
            == Ran(HeaderAdded(ps, Signed(b)).(state := Header, parseState := 0), WithHeader(ps, ex), |eol| + 1, None)
  {
    var t := [b] + more;
    assert eol + [b] + more == eol + t;
    BreakWalk(v, cfg, ps, ex, sub, eol, t);
    StepComplete(v, cfg, ps, ex, LineEnd, b, more);
  }

  /**
   * A line end followed by CR ends the request head: the header is added
   * and the byte after the CR completes the parse.
   */
  lemma HeadEnds(v: Variant, cfg: Config, ps: PS, ex: ExData, sub: int, eol: seq<Byte>, b: Byte, more: seq<Byte>)
    requires (sub == Normal || sub == Whitespace) && IsLineBreak(eol)
    requires ps.mapCount <= cfg.maxHeaders && IsLatin1(ps.builder)
    ensures ValueLoop(v, cfg, ps, ex, sub, eol + [CR as Byte, b] + more)
            == Ran(HeaderAdded(ps, CR).(state := ParseComplete), WithHeader(ps, ex), |eol| + 2, None)
  {
    var t := [CR as Byte, b] + more;
    assert eol + [CR as Byte, b] + more == eol + t;
    assert t == [CR as Byte] + ([b] + more);
    BreakWalk(v, cfg, ps, ex, sub, eol, t);
    StepComplete(v, cfg, ps, ex, LineEnd, CR, [b] + more);
    StepAwait(v, cfg, HeaderAdded(ps, CR), WithHeader(ps, ex), b, more);
  }

  /** With more headers than allowed, the line end throws instead of adding one. */
  lemma TooManyHeadersRejected(v: Variant, cfg: Config, ps: PS, ex: ExData, sub: int, eol: seq<Byte>, b: Byte, more: seq<Byte>)
    requires (sub == Normal || sub == Whitespace) && IsLineBreak(eol)
    requires ps.mapCount > cfg.maxHeaders && !IsLws(Signed(b))
    ensures var r := ValueLoop(v, cfg, ps, ex, sub, eol + [b] + more);
      r.error == Some(TooManyHeaders) && r.used == |eol| + 1 && r.ex == ex
  {
    var t := [b] + more;
    assert eol + [b] + more == eol + t;
    BreakWalk(v, cfg, ps, ex, sub, eol, t);
    StepTooMany(v, cfg, ps, ex, LineEnd, b, more);
  }

  lemma SpPrefixedAscii(words: seq<seq<Byte>>)
    requires forall i :: 0 <= i < |words| ==> IsAscii(words[i])
    ensures IsAscii(SpPrefixed(words))
    decreases |words|
  {
    if |words| > 0 {
      assert forall i :: 0 <= i < |words[1..]| ==> words[1..][i] == words[i + 1];
      SpPrefixedAscii(words[1..]);
    }
  }

  /**
   * Latin-1 chars, or ASCII bytes under the sign-extending cast, are
   * Latin-1 text whose low bytes are the bytes read.
   */
  lemma ValueTextBytes(v: Variant, t: seq<Byte>)
    requires v.latin1Values || IsAscii(t)
    ensures IsLatin1(ValueText(v, t)) && LowBytes(ValueText(v, t)) == t
  {
  }

  /** The value the header line stores: the words joined by one SP, as bytes. */
  lemma JoinSpBytes(v: Variant, words: seq<seq<Byte>>)
    requires v.latin1Values || forall i :: 0 <= i < |words| ==> IsAscii(words[i])
    ensures IsLatin1(ValueText(v, JoinSp(words))) && LowBytes(ValueText(v, JoinSp(words))) == JoinSp(words)
  {
    if !v.latin1Values && |words| > 0 {
      assert forall i :: 0 <= i < |words[1..]| ==> words[1..][i] == words[i + 1];
      SpPrefixedAscii(words[1..]);
      assert IsAscii(words[0]);
    }
    ValueTextBytes(v, JoinSp(words));
  }

  /**
   * A header line read by handleHeaderValue from its start: the header is
   * added with its words joined by one SP, whatever whitespace and folded
   * line ends stood around them, and the parse returns to HEADER with the
   * byte after the line end kept.
   */
  lemma HeaderLine(v: Variant, cfg: Config, ps: PS, ex: ExData, words: seq<seq<Byte>>, gaps: seq<seq<Byte>>, eol: seq<Byte>, b: Byte, more: seq<Byte>)
    requires LineOk(words, gaps) && IsLineBreak(eol) && ps.builder == "" && (ps.parseState == Normal || ps.parseState == Whitespace)
    requires ps.mapCount <= cfg.maxHeaders && !IsLws(Signed(b)) && Signed(b) != CR
    requires v.latin1Values || forall i :: 0 <= i < |words| ==> IsAscii(words[i])
    ensures ValueRun(v, cfg, ps, ex, Spaced(words, gaps) + eol + [b] + more)
            == Ran(ps.(mapCount := ps.mapCount + 1, nextHeader := None, leftOver := Signed(b), state := Header, parseState := 0),
                   ex.(requestHeaders := ex.requestHeaders + [HeaderEntry(ps.nextHeader, JoinSp(words))]),
                   |Spaced(words, gaps)| + |eol| + 1, None)
  {
    var line := Spaced(words, gaps);
    assert line + eol + [b] + more == line + (eol + [b] + more);
    ValueWords(v, cfg, ps, ex, ps.parseState, words, gaps, eol + [b] + more);
    var ps1 := ps.(builder := ValueText(v, JoinSp(words)));
    JoinSpBytes(v, words);
    LineEnds(v, cfg, ps1, ex, LineEndSub(ps.parseState, words, gaps), eol, b, more);
  }

  /**
   * Under the sign-extending cast, a value byte of 0x80 or more becomes a
   * char above 0xFF, and the header cannot be added: the line end throws.
   */
  lemma HighByteRejectedAsWritten(cfg: Config, ps: PS, ex: ExData, more: seq<Byte>)
    requires ps.builder == "" && ps.parseState == Normal && ps.mapCount <= cfg.maxHeaders
    ensures ValueRun(AsWritten, cfg, ps, ex, [0xE9, CR, LF, 'X' as Byte] + more).error == Some(IllegalCharacter)
  {
    var t := [CR as Byte, LF as Byte, 'X' as Byte] + more;
    assert [0xE9 as Byte, CR, LF, 'X' as Byte] + more == [0xE9] + t;
    WordWalk(AsWritten, cfg, ps, ex, Normal, [0xE9], t);
    var ps1 := ps.(builder := ValueText(AsWritten, [0xE9]));
    assert ps.(builder := "" + ValueText(AsWritten, [0xE9])) == ps1;
    assert !IsLatin1(ps1.builder) by {
      assert ps1.builder[0] as int > 0xFF;
    }
    assert t == [CR as Byte, LF as Byte] + (['X' as Byte] + more);
    BreakWalk(AsWritten, cfg, ps1, ex, Normal, [CR, LF], ['X' as Byte] + more);
    StepIllegal(AsWritten, cfg, ps1, ex, LineEnd, 'X' as Byte, more);
  }

  /** With Latin-1 chars the same line adds the header with the byte it read. */
  lemma HighByteKept(cfg: Config, ps: PS, ex: ExData, more: seq<Byte>)
    requires ps.builder == "" && ps.parseState == Normal && ps.mapCount <= cfg.maxHeaders
    ensures var r := ValueRun(Corrected, cfg, ps, ex, [0xE9, CR, LF, 'X' as Byte] + more);
      r.error.None? && r.ex.requestHeaders == ex.requestHeaders + [HeaderEntry(ps.nextHeader, [0xE9])]
  {
    var words := [[0xE9 as Byte]];
    var gaps: seq<seq<Byte>> := [[], []];
    assert Spaced(words, gaps) == [0xE9];
    assert JoinSp(words) == [0xE9];
    assert [0xE9 as Byte, CR, LF, 'X' as Byte] + more == Spaced(words, gaps) + [CR, LF] + ['X' as Byte] + more;
    HeaderLine(Corrected, cfg, ps, ex, words, gaps, [CR, LF], 'X' as Byte, more);
  }

  /** ParseStates that differ at most in parseState, which handleHeaderValue takes as its sub-state. */
  predicate ValueShell(ps: PS, qs: PS) {
    ps.(parseState := 0) == qs.(parseState := 0)
  }

  /** handleHeaderValue does not depend on the parseState field once it has its sub-state. */
  lemma {:induction false} ValueShellAgree(v: Variant, cfg: Config, ps: PS, qs: PS, ex: ExData, sub: int, rest: seq<Byte>)
    requires ValueShell(ps, qs)
    ensures Agree(ValueLoop(v, cfg, ps, ex, sub, rest), ValueLoop(v, cfg, qs, ex, sub, rest))
    decreases |rest|
  {
    if |rest| > 0 {
      var x := rest[0];
      var r := rest[1..];
      assert rest == [x] + r;
      var next := Signed(x);
      if sub == Normal || sub == Whitespace {
        if next == CR {
          StepCR(v, cfg, ps, ex, sub, x, r);
          StepCR(v, cfg, qs, ex, sub, x, r);
          ValueShellAgree(v, cfg, ps, qs, ex, BeginLineEnd, r);
        } else if next == LF {
          StepLF(v, cfg, ps, ex, sub, x, r);
          StepLF(v, cfg, qs, ex, sub, x, r);
          ValueShellAgree(v, cfg, ps, qs, ex, LineEnd, r);
        } else if IsLws(next) {
          StepBlank(v, cfg, ps, ex, sub, x, r);
          StepBlank(v, cfg, qs, ex, sub, x, r);
          ValueShellAgree(v, cfg, ps, qs, ex, Whitespace, r);
        } else {
          var sb := if sub == Whitespace && |ps.builder| > 0 then ps.builder + " " else ps.builder;
          StepWord(v, cfg, ps, ex, sub, x, r);
          StepWord(v, cfg, qs, ex, sub, x, r);
          ValueShellAgree(v, cfg, ps.(builder := sb + [ValueChar(v, x)]), qs.(builder := sb + [ValueChar(v, x)]), ex, Normal, r);
        }
      } else if sub == LineEnd || sub == BeginLineEnd {
        if next == LF && sub == BeginLineEnd {
          StepLF(v, cfg, ps, ex, sub, x, r);
          StepLF(v, cfg, qs, ex, sub, x, r);
          ValueShellAgree(v, cfg, ps, qs, ex, LineEnd, r);
        } else if IsLws(next) {
          StepFold(v, cfg, ps, ex, sub, x, r);
          StepFold(v, cfg, qs, ex, sub, x, r);
          ValueShellAgree(v, cfg, ps, qs, ex, Whitespace, r);
        } else if ps.mapCount > cfg.maxHeaders {
          StepTooMany(v, cfg, ps, ex, sub, x, r);
          StepTooMany(v, cfg, qs, ex, sub, x, r);
        } else if !IsLatin1(ps.builder) {
          StepIllegal(v, cfg, ps, ex, sub, x, r);
          StepIllegal(v, cfg, qs, ex, sub, x, r);
        } else {
          StepComplete(v, cfg, ps, ex, sub, x, r);
          StepComplete(v, cfg, qs, ex, sub, x, r);
          assert WithHeader(ps, ex) == WithHeader(qs, ex);
          if next == CR {
            ValueShellAgree(v, cfg, HeaderAdded(ps, CR), HeaderAdded(qs, CR), WithHeader(ps, ex), AwaitDataEnd, r);
          } else {
            assert HeaderAdded(ps, next).(state := Header, parseState := 0) == HeaderAdded(qs, next).(state := Header, parseState := 0);
          }
        }
      } else if sub == AwaitDataEnd {
        StepAwait(v, cfg, ps, ex, x, r);
        StepAwait(v, cfg, qs, ex, x, r);
      } else {
        StepOther(v, cfg, ps, ex, sub, x, r);
        StepOther(v, cfg, qs, ex, sub, x, r);
        ValueShellAgree(v, cfg, ps, qs, ex, sub, r);
      }
    }
  }

  /**
   * handleHeaderValue resumes: when a call runs out of bytes inside a
   * value, a second call on the rest does what one call on all the bytes
   * would have done (the sub-state is kept in parseState).
   */
  lemma {:induction false} ValueResumes(v: Variant, cfg: Config, ps: PS, ex: ExData, sub: int, a: seq<Byte>, b: seq<Byte>)
    requires ps.state == HeaderValue
    ensures var r := ValueLoop(v, cfg, ps, ex, sub, a);
      r.error.None? && r.ps.state == HeaderValue ==> Agree(ValueLoop(v, cfg, ps, ex, sub, a + b), Later(ValueRun(v, cfg, r.ps, r.ex, b), |a|))
    decreases |a|
  {
    if |a| == 0 {
      assert a + b == b;
      ValueShellAgree(v, cfg, ps, ps.(parseState := sub), ex, sub, b);
    } else {
      var x := a[0];
      var r := a[1..];
      assert a == [x] + r && a + b == [x] + (r + b);
      var next := Signed(x);
      if sub == Normal || sub == Whitespace {
        if next == CR {
          StepCR(v, cfg, ps, ex, sub, x, r);
          StepCR(v, cfg, ps, ex, sub, x, r + b);
          ValueResumes(v, cfg, ps, ex, BeginLineEnd, r, b);
        } else if next == LF {
          StepLF(v, cfg, ps, ex, sub, x, r);
          StepLF(v, cfg, ps, ex, sub, x, r + b);
          ValueResumes(v, cfg, ps, ex, LineEnd, r, b);
        } else if IsLws(next) {
          StepBlank(v, cfg, ps, ex, sub, x, r);
          StepBlank(v, cfg, ps, ex, sub, x, r + b);
          ValueResumes(v, cfg, ps, ex, Whitespace, r, b);
        } else {
          var sb := if sub == Whitespace && |ps.builder| > 0 then ps.builder + " " else ps.builder;
          StepWord(v, cfg, ps, ex, sub, x, r);
          StepWord(v, cfg, ps, ex, sub, x, r + b);
          ValueResumes(v, cfg, ps.(builder := sb + [ValueChar(v, x)]), ex, Normal, r, b);
        }
      } else if sub == LineEnd || sub == BeginLineEnd {
        if next == LF && sub == BeginLineEnd {
          StepLF(v, cfg, ps, ex, sub, x, r);
          StepLF(v, cfg, ps, ex, sub, x, r + b);
          ValueResumes(v, cfg, ps, ex, LineEnd, r, b);
        } else if IsLws(next) {
          StepFold(v, cfg, ps, ex, sub, x, r);
          StepFold(v, cfg, ps, ex, sub, x, r + b);
          ValueResumes(v, cfg, ps, ex, Whitespace, r, b);
        } else if ps.mapCount > cfg.maxHeaders {
          StepTooMany(v, cfg, ps, ex, sub, x, r);
        } else if !IsLatin1(ps.builder) {
          StepIllegal(v, cfg, ps, ex, sub, x, r);
        } else {
          StepComplete(v, cfg, ps, ex, sub, x, r);
          StepComplete(v, cfg, ps, ex, sub, x, r + b);
          if next == CR {
            ValueResumes(v, cfg, HeaderAdded(ps, CR), WithHeader(ps, ex), AwaitDataEnd, r, b);
          }
        }
      } else if sub == AwaitDataEnd {
        StepAwait(v, cfg, ps, ex, x, r);
      } else {
        StepOther(v, cfg, ps, ex, sub, x, r);
        StepOther(v, cfg, ps, ex, sub, x, r + b);
        ValueResumes(v, cfg, ps, ex, sub, r, b);
      }
    }
  }

  // ---------------------------------------------------------------------
  // The line end after the version
  // ---------------------------------------------------------------------

  /** An LF and then a second LF complete the request head: a request with no headers. */
  lemma EmptyHead(ps: PS, ex: ExData, more: seq<Byte>)
    requires ps.leftOver != LF
    ensures AfterVersionRun(ps, ex, [LF as Byte, LF as Byte] + more) == Ran(ps.(state := ParseComplete), ex, 2, None)
  {
    var s := [LF as Byte, LF as Byte] + more;
    assert s[0] == LF && s[1..][0] == LF;
    assert AfterVersionLoop(ps, ex, true, s[1..]) == Ran(ps.(state := ParseComplete), ex, 1, None);
  }

  /** An LF and then any other byte start the headers, with that byte kept for the header-name machine. */
  lemma HeadersFollow(ps: PS, ex: ExData, x: Byte, more: seq<Byte>)
    requires ps.leftOver != LF && Signed(x) != LF
    ensures AfterVersionRun(ps, ex, [LF as Byte, x] + more) == Ran(ps.(state := Header, leftOver := Signed(x)), ex, 2, None)
  {
    var s := [LF as Byte, x] + more;
    assert s[0] == LF && s[1..][0] == x;
    assert AfterVersionLoop(ps, ex, true, s[1..]) == Ran(ps.(state := Header, leftOver := Signed(x)), ex, 1, None);
  }

  /** Before the LF, CR, SP and HT are a bad request. */
  lemma AfterVersionRejects(ps: PS, ex: ExData, x: Byte, more: seq<Byte>)
    requires ps.leftOver != LF && (Signed(x) == CR || IsLws(Signed(x)))
    ensures var r := AfterVersionRun(ps, ex, [x] + more);
      r.error == Some(BadRequest) && r.used == 1
  {
    assert ([x] + more)[0] == x;
  }

  /**
   * handleAfterVersion resumes: a buffer that ends after the LF leaves it
   * in leftOver, and the next call goes on as one call would have.  Only
   * leftOver can differ, and only once the head is complete: the split
   * call leaves the LF there, the single call the version's terminator.
   */
  lemma AfterVersionResumes(ps: PS, ex: ExData, a: seq<Byte>, b: seq<Byte>)
    requires ps.state == AfterVersion
    ensures var r := AfterVersionRun(ps, ex, a);
      var whole := AfterVersionRun(ps, ex, a + b);
      var split := Later(AfterVersionRun(r.ps, r.ex, b), |a|);
      r.error.None? && r.ps.state == ps.state ==>
        whole.used == split.used && whole.error == split.error && whole.ex == split.ex
        && whole.ps.(leftOver := 0) == split.ps.(leftOver := 0)
        && (whole.ps.state != ParseComplete ==> whole.ps == split.ps)
  {
    if |a| == 0 {
      assert a + b == b;
      if ps.leftOver == LF {
        assert ps.(leftOver := LF) == ps;
      }
    } else {
      assert (a + b)[0] == a[0] && (a + b)[1..] == a[1..] + b;
      if ps.leftOver != LF && Signed(a[0]) == LF {
        if |a| == 1 {
          assert a[1..] + b == b;
          var ps1 := ps.(leftOver := LF);
          assert AfterVersionLoop(ps, ex, true, a[1..]) == Idle(ps1, ex);
          assert AfterVersionRun(ps, ex, a + b) == Later(AfterVersionLoop(ps, ex, true, b), 1);
          assert AfterVersionRun(ps1, ex, b) == AfterVersionLoop(ps1, ex, true, b);
          if |b| > 0 {
            if Signed(b[0]) == LF {
              assert AfterVersionLoop(ps, ex, true, b) == Ran(ps.(state := ParseComplete), ex, 1, None);
              assert AfterVersionLoop(ps1, ex, true, b) == Ran(ps1.(state := ParseComplete), ex, 1, None);
            } else {
              assert AfterVersionLoop(ps, ex, true, b) == Ran(ps.(state := Header, leftOver := Signed(b[0])), ex, 1, None);
              assert AfterVersionLoop(ps1, ex, true, b) == Ran(ps1.(state := Header, leftOver := Signed(b[0])), ex, 1, None);
            }
          }
        } else {
          assert (a[1..] + b)[0] == a[1];
          assert a[1..] == [a[1]] + a[2..];
          assert AfterVersionLoop(ps, ex, true, a[1..]).ps.state != AfterVersion;
        }
      }
    }
  }

  // ---------------------------------------------------------------------
  // The GET fast path
  // ---------------------------------------------------------------------

  /** "GET /a": a request that runs out of bytes inside its path. */
  const GetSlashA: seq<Byte> := ['G' as Byte, 'E' as Byte, 'T' as Byte, SP as Byte, '/' as Byte, 'a' as Byte]

  /** The ParseState and exchange of a new request. */
  predicate RequestStart(ps: PS) {
    ps.state == Verb && ps.parseState == 0 && ps.pos == 0 && ps.builder == "" && ps.leftOver == 0
    && !ps.urlDecodeRequired && ps.current.None? && ps.currentBytes.None?
  }

  /** The path, version, after-version and header steps of handle on no bytes leave everything as it is. */
  lemma FromPathIdle(p: Parser, v: Variant, ps: PS, ex: ExData)
    requires ParserOk(p) && ps.leftOver != LF
    ensures FromVersion(p, v, ps, ex, []) == Idle(ps, ex)
  {
    var f := MatcherFields(ps);
    assert WithFields(ps, f) == ps;
  }

  /**
   * As written, the fast path sets the method but leaves the state at
   * VERB: when the buffer ends inside the path, the next call of handle
   * starts over at the verb with the path half read.
   */
  lemma FastPathStaysInVerbAsWritten(p: Parser, ps: PS, ex: ExData)
    requires ParserOk(p) && RequestStart(ps)
    ensures var r := FastRun(p, AsWritten, ps, ex, GetSlashA);
      r.error.None? && r.used == 6 && r.ex.requestMethod == Some(GetBytes) && r.ps.state == Verb && r.ps.builder == "/a"
  {
    assert GetSlashA[..3] == GetBytes;
    var r0 := FastGetRun(AsWritten, ps, ex);
    var rest := GetSlashA[3..];
    assert rest == [SP as Byte] + ['/' as Byte, 'a' as Byte];
    PathRunIdle(AsWritten, p.cfg, ps, r0.ex);
    FromPathIdle(p, AsWritten, PathIdleState(ps), PathRun(AsWritten, p.cfg, ps, r0.ex, rest).ex);
  }

  /** The ParseState handlePath leaves when "/a" is all it gets after the leading SP. */
  function PathIdleState(ps: PS): PS {
    ps.(parseState := Start, urlDecodeRequired := false, builder := "/a")
  }

  /** handlePath on " /a" skips the SP, reads "/a" and runs out of bytes in START. */
  lemma PathRunIdle(v: Variant, cfg: Config, ps: PS, ex: ExData)
    requires TargetStart(ps)
    ensures PathRun(v, cfg, ps, ex, [SP as Byte, '/' as Byte, 'a' as Byte]) == Ran(PathIdleState(ps), ex, 3, None)
  {
    var c := PathLocals(ps.parseState, ps.pos, ps.urlDecodeRequired, ps.builder);
    var t: seq<Byte> := ['/' as Byte, 'a' as Byte];
    assert [SP as Byte, '/' as Byte, 'a' as Byte] == [SP as Byte] + (t + []);
    assert Blanks([SP as Byte]);
    LeadingBlanksSkipped(v, cfg, ps, ex, c, [SP as Byte], t + []);
    assert PathPlainText(Start, t);
    PathWalk(v, cfg, ps, ex, c, t, []);
    assert Text(t) == "/a" && !Escapes("/a");
    assert Walked(cfg, c, t) == PathLocals(Start, ps.pos, false, "/a");
  }

  /**
   * Corrected, the fast path moves to PATH as the verb machine would, so
   * the next call of handle goes on in handlePath.
   */
  lemma FastPathMovesToPath(p: Parser, ps: PS, ex: ExData)
    requires ParserOk(p) && RequestStart(ps)
    ensures var r := FastRun(p, Corrected, ps, ex, GetSlashA);
      r.error.None? && r.used == 6 && r.ex.requestMethod == Some(GetBytes) && r.ps.state == Path && r.ps.builder == "/a"
  {
    assert GetSlashA[..3] == GetBytes;
    assert IsTerminator(false, Signed(GetSlashA[3]));
    var r0 := FastGetRun(Corrected, ps, ex);
    var rest := GetSlashA[3..];
    assert rest == [SP as Byte, '/' as Byte, 'a' as Byte];
    PathRunIdle(Corrected, p.cfg, r0.ps, r0.ex);
    FromPathIdle(p, Corrected, PathIdleState(r0.ps), PathRun(Corrected, p.cfg, r0.ps, r0.ex, rest).ex);
  }

  /** "GETX": a verb that only starts with GET. */
  const GetX: seq<Byte> := ['G' as Byte, 'E' as Byte, 'T' as Byte, 'X' as Byte]

  /** As written, any buffer starting with "GET" and one more byte is taken as a GET after three bytes. */
  lemma LongerVerbTakenAsGetAsWritten(p: Parser, ps: PS, ex: ExData, more: seq<Byte>)
    requires ParserOk(p)
    ensures var r := VerbRun(p, AsWritten, ps, ex, GetX + more);
      r.ex.requestMethod == Some(GetBytes) && r.used == 3 && r.error.None?
  {
    assert (GetX + more)[..3] == GetBytes;
  }

  /** Corrected, a verb that only starts with GET goes to the verb machine, which reads the whole token. */
  lemma LongerVerbToMachine(p: Parser, ps: PS, ex: ExData, more: seq<Byte>)
    requires ParserOk(p)
    ensures VerbRun(p, Corrected, ps, ex, GetX + more) == MachineRun(VerbMachine, p.verbs, ps, ex, GetX + more)
  {
    assert (GetX + more)[3] == 'X' as Byte;
  }
}
