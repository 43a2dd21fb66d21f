/**
 * What token the generated matcher produces.  Whichever path finishes it
 * (the shared HttpString of a trie state, the prefix loop's interned or
 * partial token, or the no-state loop's StringBuilder), the token's bytes
 * are the bytes read after the terminators that came first and before the
 * terminator that ended it.
 */
module MatcherTokens {
  import opened Octets
  import opened ParserTrie
  import opened TokenMatcher

  /** The terminal strings of the prefix states are Latin-1, as every known token of the request machines is. */
  predicate TerminalsLatin1(m: Machine) {
    forall n :: 0 <= n < |m.terminal| && m.terminal[n].Some? ==> IsLatin1(m.terminal[n].value)
  }

  /** The text s stands for the bytes acc: each of its Latin-1 chars is the byte at the same place. */
  predicate Spells(s: string, acc: seq<Byte>) {
    |s| == |acc| && forall i :: 0 <= i < |s| && s[i] as int <= 0xFF ==> s[i] as int == acc[i]
  }

  /**
   * The cursor c holds the token bytes acc read so far: a trie state spells
   * them (and is no prefix state), the prefix loop has matched them against
   * the first pos bytes of its terminal string, the no-state loop's builder
   * spells them.  No leftOver byte is pending.
   */
  predicate Holds(m: Machine, c: Cursor, acc: seq<Byte>)
    requires Shaped(m)
  {
    c.leftOver == 0 && ModeOk(m, c.mode) &&
    (match c.mode
     case AtNode(n) => c.builder == "" && LowBytes(m.nodes[n].soFar) == acc && (n == 0 || m.terminal[n].None?)
     case Prefix =>
       c.builder == "" && c.current.Some? && IsLatin1(c.current.value)
       && c.currentBytes == Some(IsoBytes(c.current.value)) && 0 <= c.pos <= |c.current.value|
       && LowBytes(c.current.value)[..c.pos] == acc
     case NoState => Spells(c.builder, acc))
  }

  /** The first k bytes of rest are terminators. */
  predicate Skips(header: bool, rest: seq<Byte>, k: nat) {
    k <= |rest| && forall j :: 0 <= j < k ==> IsTerminator(header, Signed(rest[j]))
  }

  /**
   * A call that read `used` bytes of rest found the token tok ended by the
   * terminator term: the last byte read is the terminator, and the token is
   * acc followed by the bytes before it, after some leading terminators
   * (which only the initial state, with nothing read yet, skips).
   */
  predicate TokenRead(header: bool, acc: seq<Byte>, rest: seq<Byte>, used: nat, tok: seq<Byte>, term: int) {
    0 < used <= |rest| && term == Signed(rest[used - 1])
    && exists k :: 0 <= k < used && Skips(header, rest, k) && (k > 0 ==> acc == []) && tok == acc + rest[k..used - 1]
  }

  /** A state's key is its char's low byte as a signed Java byte, so equal keys mean equal bytes. */
  lemma BytesFromKeys(s: string, t: string, b: Byte)
    requires KeysOf(s) == KeysOf(t) + [Signed(b)]
    ensures LowBytes(s) == LowBytes(t) + [b]
  {
    forall i | 0 <= i < |s|
      ensures LowBytes(s)[i] == (LowBytes(t) + [b])[i]
    {
      assert KeysOf(s)[i] == (KeysOf(t) + [Signed(b)])[i];
    }
  }

  lemma BytesFromKeyPrefix(s: string, t: string)
    requires |s| <= |t| && KeysOf(t)[..|s|] == KeysOf(s)
    ensures LowBytes(t)[..|s|] == LowBytes(s)
  {
    forall i | 0 <= i < |s|
      ensures LowBytes(t)[i] == LowBytes(s)[i]
    {
      assert KeysOf(t)[i] == KeysOf(s)[i];
    }
  }

  /** The code of a trie state keeps Holds: one byte more, a skipped terminator at the start, or the finished token. */
  lemma NodeStepHolds(m: Machine, header: bool, c: Cursor, n: nat, b: Byte, acc: seq<Byte>)
    requires MachineOk(m) && TerminalsLatin1(m) && c.mode == AtNode(n) && Holds(m, c, acc)
    ensures var s := NodeByte(m, header, c, n, Signed(b));
      (s.Continue? ==> Holds(m, s.c, acc + [b]) || (acc == [] && IsTerminator(header, Signed(b)) && Holds(m, s.c, [])))
      && (s.Finish? && s.outcome.Complete? ==> s.outcome.token.bytes == acc && s.outcome.terminator == Signed(b))
      && (s.Finish? && s.outcome.RequestDone? ==> acc == [] && header && Signed(b) == '\n' as int)
  {
    var x := Signed(b);
    var child := Next(m.nodes, n, x);
    assert NodeOk(m.nodes, n);
    if child.Some? {
      var ch := child.value;
      NextIsChild(m.nodes, n, x);
      BytesFromKeys(m.nodes[ch].soFar, m.nodes[n].soFar, b);
      assert NumberOk(m.nodes, m.stateno, m.terminal, ch);
      if m.stateno[ch] < 0 {
        var l := ChainLeaf(m.nodes, ch).value;
        var t := m.nodes[l].soFar;
        ChainLeafExtends(m.nodes, ch);
        BytesFromKeyPrefix(m.nodes[ch].soFar, t);
      }
    } else if IsTerminator(header, x) && m.nodes[n].soFar != "" {
      assert n != 0;
    } else if !IsTerminator(header, x) {
      var s := AppendByte("" + m.nodes[n].soFar, x);
      assert s == m.nodes[n].soFar + [SignExtendedChar(b)];
      assert Spells(s, acc + [b]);
    }
  }

  /** The prefix loop keeps Holds, and its token, interned or not, is the bytes it matched. */
  lemma PrefixStepHolds(m: Machine, header: bool, c: Cursor, b: Byte, acc: seq<Byte>)
    requires Shaped(m) && c.mode == Prefix && Holds(m, c, acc)
    ensures PrefixOk(c)
    ensures var s := PrefixByte(header, c, Signed(b));
      (s.Continue? ==> Holds(m, s.c, acc + [b]))
      && (s.Finish? ==> s.outcome.token.bytes == acc && s.outcome.terminator == Signed(b))
  {
    var x := Signed(b);
    var t := c.current.value;
    var cb := c.currentBytes.value;
    if IsTerminator(header, x) {
      if |cb| != c.pos {
        assert UnsignedBytes(cb[..c.pos]) == LowBytes(t)[..c.pos];
      } else {
        assert LowBytes(t)[..c.pos] == LowBytes(t);
      }
    } else if |cb| == c.pos || x != cb[c.pos] {
      var s := AppendByte("" + t[..c.pos], x);
      assert s == t[..c.pos] + [SignExtendedChar(b)];
      assert Spells(s, acc + [b]);
    } else {
      assert LowBytes(t)[..c.pos + 1] == LowBytes(t)[..c.pos] + [LowByte(t[c.pos])];
    }
  }

  /** The no-state loop keeps Holds, and the token it finishes is the bytes its builder spells. */
  lemma NoStateStepHolds(m: Machine, header: bool, c: Cursor, b: Byte, last: bool, acc: seq<Byte>)
    requires Shaped(m) && c.mode == NoState && Holds(m, c, acc)
    ensures var s := NoStateByte(header, c, Signed(b), last);
      (s.Continue? ==> Holds(m, s.c, acc + [b]))
      && (s.Finish? && s.outcome.Complete? ==> s.outcome.token.bytes == acc && s.outcome.terminator == Signed(b))
  {
    var x := Signed(b);
    if IsTerminator(header, x) {
      if IsLatin1(c.builder) {
        assert LowBytes(c.builder) == acc;
      }
    } else {
      assert Spells(AppendByte(c.builder, x), acc + [b]);
    }
  }

  /** One round of the matcher on Holds. */
  lemma StepHolds(m: Machine, header: bool, c: Cursor, rest: seq<Byte>, acc: seq<Byte>)
    requires MachineOk(m) && TerminalsLatin1(m) && Holds(m, c, acc) && |rest| > 0
    ensures var mv := StepOn(m, header, c, rest);
      mv.consumed == 1
      && (mv.step.Continue? ==>
            Holds(m, mv.step.c, acc + [rest[0]]) || (acc == [] && IsTerminator(header, Signed(rest[0])) && Holds(m, mv.step.c, [])))
      && (mv.step.Finish? && mv.step.outcome.Complete? ==> mv.step.outcome.token.bytes == acc && mv.step.outcome.terminator == Signed(rest[0]))
      && (mv.step.Finish? && mv.step.outcome.RequestDone? ==> acc == [] && header && Signed(rest[0]) == '\n' as int)
  {
    match c.mode
    case AtNode(n) => NodeStepHolds(m, header, c, n, rest[0], acc);
    case Prefix => PrefixStepHolds(m, header, c, rest[0], acc);
    case NoState => NoStateStepHolds(m, header, c, rest[0], |rest| == 1, acc);
  }

  /**
   * From a cursor holding acc, a finished token is acc followed by the
   * bytes read before its terminator; the end of the request head is an LF
   * after nothing but terminators.
   */
  lemma {:induction false} DriveReadsToken(m: Machine, header: bool, c: Cursor, rest: seq<Byte>, acc: seq<Byte>)
    requires MachineOk(m) && TerminalsLatin1(m) && Holds(m, c, acc)
    ensures var s := Drive(m, header, c, rest);
      s.outcome.Complete? ==> TokenRead(header, acc, rest, s.used, s.outcome.token.bytes, s.outcome.terminator)
    ensures var s := Drive(m, header, c, rest);
      s.outcome.RequestDone? ==>
        acc == [] && header && 0 < s.used && Signed(rest[s.used - 1]) == '\n' as int && Skips(header, rest, s.used)
    decreases |rest|
  {
    if |rest| > 0 {
      var mv := StepOn(m, header, c, rest);
      StepHolds(m, header, c, rest, acc);
      DriveStep(m, header, c, rest, mv);
      var s := Drive(m, header, c, rest);
      if mv.step.Finish? {
        if s.outcome.Complete? {
          assert Skips(header, rest, 0) && acc == acc + rest[0..0];
        }
      } else {
        var c' := mv.step.c;
        var acc' := if Holds(m, c', acc + [rest[0]]) then acc + [rest[0]] else [];
        DriveReadsToken(m, header, c', rest[1..], acc');
        var s' := Drive(m, header, c', rest[1..]);
        assert s == Shift(s', 1);
        if s.outcome.Complete? {
          TokenReadBack(header, acc, acc', rest, s'.used, s.outcome.token.bytes, s.outcome.terminator);
        } else if s.outcome.RequestDone? {
          SkipsBack(header, rest, s'.used);
        }
      }
    }
  }

  /** One byte more in front: the token read after it was either extended by it or it was a skipped terminator. */
  lemma TokenReadBack(header: bool, acc: seq<Byte>, acc': seq<Byte>, rest: seq<Byte>, used: nat, tok: seq<Byte>, term: int)
    requires |rest| > 0 && TokenRead(header, acc', rest[1..], used, tok, term)
    requires acc' == acc + [rest[0]] || (acc == [] && acc' == [] && IsTerminator(header, Signed(rest[0])))
    ensures TokenRead(header, acc, rest, used + 1, tok, term)
  {
    var rest' := rest[1..];
    var k' :| 0 <= k' < used && Skips(header, rest', k') && (k' > 0 ==> acc' == []) && tok == acc' + rest'[k'..used - 1];
    if acc' == acc + [rest[0]] {
      assert k' == 0;
      assert rest[0..used] == [rest[0]] + rest'[0..used - 1];
      assert Skips(header, rest, 0);
    } else {
      assert rest[k' + 1..used] == rest'[k'..used - 1];
      assert Skips(header, rest, k' + 1);
    }
  }

  lemma SkipsBack(header: bool, rest: seq<Byte>, k: nat)
    requires |rest| > 0 && IsTerminator(header, Signed(rest[0])) && Skips(header, rest[1..], k)
    ensures Skips(header, rest, k + 1)
  {
    forall j | 0 <= j < k + 1
      ensures IsTerminator(header, Signed(rest[j]))
    {
      if j > 0 {
        assert rest[j] == rest[1..][j - 1];
      }
    }
  }

  /** The byte a pending leftOver stands for, read before the buffer. */
  function Pending(leftOver: int): seq<Byte> {
    if leftOver == 0 then [] else [Unsigned(leftOver)]
  }

  /** A pending leftOver byte is consumed first, exactly as if it were the next byte of the buffer. */
  lemma LeftOverFirst(m: Machine, header: bool, c: Cursor, rest: seq<Byte>)
    requires Shaped(m) && c.mode == AtNode(0) && c.leftOver != 0 && -128 <= c.leftOver < 128
    ensures Drive(m, header, c.(leftOver := 0), Pending(c.leftOver) + rest) == Shift(Drive(m, header, c, rest), 1)
  {
    var c0 := c.(leftOver := 0);
    var u := Unsigned(c.leftOver);
    var mv := StepOn(m, header, c, rest);
    var mv0 := StepOn(m, header, c0, [u] + rest);
    DriveStep(m, header, c, rest, mv);
    DriveStep(m, header, c0, [u] + rest, mv0);
    assert ([u] + rest)[1..] == rest && rest[0..] == rest;
  }

  /**
   * A call that starts a token from a fresh ParseState (with a leftOver
   * byte pending or not) and finishes it returns exactly the bytes read
   * before the terminator, after any leading terminators; the leftOver
   * byte counts as read first.
   */
  lemma MatchReadsToken(m: Machine, header: bool, leftOver: int, rest: seq<Byte>)
    requires MachineOk(m) && TerminalsLatin1(m) && -128 <= leftOver < 128
    ensures var r := Match(m, header, Fields(0, 0, None, None, "", leftOver), rest);
      r.outcome.Complete? ==>
        TokenRead(header, [], Pending(leftOver) + rest, r.used + |Pending(leftOver)|, r.outcome.token.bytes, r.outcome.terminator)
  {
    if |rest| > 0 {
      var f := Fields(0, 0, None, None, "", leftOver);
      var c := Cursor(AtNode(0), 0, 0, None, None, "", leftOver);
      var s := Drive(m, header, c, rest);
      assert Resume(m, f) == Some(c);
      assert Match(m, header, f, rest).used == s.used && Match(m, header, f, rest).outcome == s.outcome;
      if leftOver == 0 {
        assert Holds(m, c, []) by {
          assert m.nodes[0].soFar == "";
        }
        assert Pending(leftOver) + rest == rest;
        DriveReadsToken(m, header, c, rest, []);
      } else {
        var c0 := c.(leftOver := 0);
        LeftOverFirst(m, header, c, rest);
        assert Holds(m, c0, []) by {
          assert m.nodes[0].soFar == "";
        }
        DriveReadsToken(m, header, c0, Pending(leftOver) + rest, []);
        var s0 := Drive(m, header, c0, Pending(leftOver) + rest);
        assert s0.used == s.used + 1 && s0.outcome == s.outcome;
      }
    }
  }
}
