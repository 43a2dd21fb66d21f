/**
 * Suspending and resuming the generated matcher: a call that runs out of
 * bytes writes its cursor into the ParseState, and the next call picks it
 * up again through the tableswitch on parseState.  The theorem of this
 * module is that feeding a token in two buffers gives what feeding it in
 * one does.
 */
module MatcherResume {
  import opened Octets
  import opened ParserTrie
  import opened TokenMatcher

  /**
   * The state variable agrees with where the cursor is: 0 only at the
   * initial state (with pos, current and currentBytes cleared), the state's
   * own positive number at any other trie state, PREFIX_MATCH in the prefix
   * loop and the no-state slot in the no-state loop.
   */
  predicate CursorOk(m: Machine, c: Cursor)
    requires Shaped(m)
  {
    ModeOk(m, c.mode) &&
    (match c.mode
     case AtNode(n) =>
       if n == 0 then c.stateVar == 0 && c.pos == 0 && c.current.None? && c.currentBytes.None?
       else 0 < m.stateno[n] == c.stateVar
     case Prefix => c.stateVar == PrefixMatch
     case NoState => c.stateVar == NoStateNumber)
  }

  /** Two cursors that differ at most in pos, current and currentBytes, which the no-state loop never reads. */
  predicate SameCursor(c: Cursor, d: Cursor) {
    c.mode == d.mode && c.stateVar == d.stateVar && c.builder == d.builder && c.leftOver == d.leftOver
    && (c.mode != NoState ==> c.pos == d.pos && c.current == d.current && c.currentBytes == d.currentBytes)
  }

  /** ParseStates that differ at most in fields a resumed no-state loop does not read. */
  predicate SameFields(f: Fields, g: Fields) {
    f.parseState == g.parseState && f.builder == g.builder && f.leftOver == g.leftOver
    && (f.parseState != NoStateNumber ==> f.pos == g.pos && f.current == g.current && f.currentBytes == g.currentBytes)
  }

  /** Wherever the tableswitch resumes, the state variable agrees with the cursor. */
  lemma ResumeOk(m: Machine, f: Fields)
    requires MachineOk(m) && Resume(m, f).Some?
    ensures CursorOk(m, Resume(m, f).value)
  {
    assert NumberOk(m.nodes, m.stateno, m.terminal, 0);
  }

  /** Trie state code leaves a consistent cursor behind when it goes on. */
  lemma NodeByteKeepsCursorOk(m: Machine, header: bool, c: Cursor, n: nat, x: int)
    requires MachineOk(m) && c.mode == AtNode(n) && CursorOk(m, c)
    ensures NodeByte(m, header, c, n, x).Continue? ==> CursorOk(m, NodeByte(m, header, c, n, x).c)
  {
    var child := Next(m.nodes, n, x);
    if child.Some? {
      var ch := child.value;
      NextIsChild(m.nodes, n, x);
      assert NumberOk(m.nodes, m.stateno, m.terminal, ch);
      if m.stateno[ch] >= 0 {
        if n > 0 {
          assert NumberOk(m.nodes, m.stateno, m.terminal, n);
          RankMonotone(m.nodes, n + 1, ch);
        } else {
          RankMonotone(m.nodes, 1, ch);
          if |m.nodes[0].next| == 1 {
            assert ChainLeaf(m.nodes, 0) == ChainLeaf(m.nodes, ch);
          }
        }
      }
    } else if IsTerminator(header, x) && m.nodes[n].soFar == "" {
      assert NodeOk(m.nodes, n);
    }
  }

  /** One round keeps the cursor consistent when it goes on or suspends. */
  lemma StepKeepsCursorOk(m: Machine, header: bool, c: Cursor, rest: seq<Byte>)
    requires MachineOk(m) && CursorOk(m, c)
    ensures var mv := StepOn(m, header, c, rest);
      mv.step.Continue? || mv.step.outcome.Incomplete? ==> CursorOk(m, mv.step.c)
  {
    match c.mode
    case AtNode(n) =>
      if n == 0 && c.leftOver != 0 {
        NodeByteKeepsCursorOk(m, header, c.(leftOver := 0), 0, c.leftOver);
      } else if |rest| > 0 {
        NodeByteKeepsCursorOk(m, header, c, n, Signed(rest[0]));
      }
    case Prefix =>
    case NoState =>
  }

  /** A suspended matcher leaves a consistent cursor. */
  lemma {:induction false} DriveKeepsCursorOk(m: Machine, header: bool, c: Cursor, rest: seq<Byte>)
    requires MachineOk(m) && CursorOk(m, c)
    ensures Drive(m, header, c, rest).outcome.Incomplete? ==> CursorOk(m, Drive(m, header, c, rest).c)
    decreases |rest|, if c.leftOver != 0 then 1 else 0
  {
    var mv := StepOn(m, header, c, rest);
    StepKeepsCursorOk(m, header, c, rest);
    if mv.step.Continue? {
      DriveKeepsCursorOk(m, header, mv.step.c, rest[mv.consumed..]);
    }
  }

  /**
   * The matcher run on a + b passes the end of a exactly as a run on a
   * that suspends there and then goes on with b: the split is invisible at
   * the level of cursors.
   */
  lemma {:induction false} DriveSplit(m: Machine, header: bool, c: Cursor, a: seq<Byte>, b: seq<Byte>)
    requires Shaped(m) && ModeOk(m, c.mode) && |b| > 0
    requires Drive(m, header, c, a).outcome.Incomplete?
    ensures Drive(m, header, c, a + b) == Shift(Drive(m, header, Drive(m, header, c, a).c, b), |a|)
    decreases |a|, if c.leftOver != 0 then 1 else 0
  {
    if c.mode.AtNode? && c.mode.n == 0 && c.leftOver != 0 {
      var mv := SplitStep(m, header, c, a, b);
      assert a[mv.consumed..] == a && (a + b)[mv.consumed..] == a + b;
      DriveSplit(m, header, mv.step.c, a, b);
    } else if |a| == 0 {
      assert a + b == b;
    } else if c.mode == NoState && |a| == 1 {
      SplitLastByte(m, header, c, a, b);
    } else {
      var mv := SplitStep(m, header, c, a, b);
      assert (a + b)[mv.consumed..] == a[mv.consumed..] + b;
      DriveSplit(m, header, mv.step.c, a[mv.consumed..], b);
    }
  }

  /** A round before the end of a goes on and does the same on a + b. */
  lemma SplitStep(m: Machine, header: bool, c: Cursor, a: seq<Byte>, b: seq<Byte>) returns (mv: Move)
    requires Shaped(m) && ModeOk(m, c.mode) && |b| > 0
    requires (c.mode.AtNode? && c.mode.n == 0 && c.leftOver != 0) || (|a| > 0 && !(c.mode == NoState && |a| == 1))
    requires Drive(m, header, c, a).outcome.Incomplete?
    ensures mv == StepOn(m, header, c, a) && mv.step.Continue?
    ensures mv.consumed == (if c.mode.AtNode? && c.mode.n == 0 && c.leftOver != 0 then 0 else 1)
    ensures Drive(m, header, c, a) == Shift(Drive(m, header, mv.step.c, a[mv.consumed..]), mv.consumed)
    ensures Drive(m, header, c, a + b) == Shift(Drive(m, header, mv.step.c, (a + b)[mv.consumed..]), mv.consumed)
  {
    mv := StepOn(m, header, c, a);
    StepIgnoresMore(m, header, c, a, b);
    DriveStep(m, header, c, a, mv);
    DriveStep(m, header, c, a + b, mv);
  }

  /** The no-state loop's last byte of a suspends with what a + b carries on from. */
  lemma SplitLastByte(m: Machine, header: bool, c: Cursor, a: seq<Byte>, b: seq<Byte>)
    requires Shaped(m) && c.mode == NoState && |a| == 1 && |b| > 0
    requires Drive(m, header, c, a).outcome.Incomplete?
    ensures Drive(m, header, c, a + b) == Shift(Drive(m, header, Drive(m, header, c, a).c, b), |a|)
  {
    var x := Signed(a[0]);
    var c1 := c.(builder := AppendByte(c.builder, x));
    var mvA := StepOn(m, header, c, a);
    assert mvA == Move(NoStateByte(header, c, x, true), 1);
    DriveStep(m, header, c, a, mvA);
    assert !IsTerminator(header, x);
    assert Drive(m, header, c, a).c == c1;
    assert (a + b)[0] == a[0] && (a + b)[1..] == b;
    var mvB := StepOn(m, header, c, a + b);
    assert mvB == Move(Continue(c1), 1);
    DriveStep(m, header, c, a + b, mvB);
  }

  /** A round that does not reach the end of a, and is not the no-state loop's last byte, does not see what follows. */
  lemma StepIgnoresMore(m: Machine, header: bool, c: Cursor, a: seq<Byte>, b: seq<Byte>)
    requires Shaped(m) && ModeOk(m, c.mode) && |b| > 0
    requires (c.mode.AtNode? && c.mode.n == 0 && c.leftOver != 0) || (|a| > 0 && !(c.mode == NoState && |a| == 1))
    ensures StepOn(m, header, c, a + b) == StepOn(m, header, c, a)
  {
    if |a| > 0 {
      assert (a + b)[0] == a[0];
    }
  }

  /** The no-state loop runs the same on cursors that differ only in its dead fields. */
  lemma {:induction false} DriveIgnoresDead(m: Machine, header: bool, c: Cursor, d: Cursor, rest: seq<Byte>)
    requires Shaped(m) && ModeOk(m, c.mode) && SameCursor(c, d)
    ensures var s := Drive(m, header, c, rest);
      var t := Drive(m, header, d, rest);
      SameCursor(s.c, t.c) && s.used == t.used && s.write == t.write && s.outcome == t.outcome
    decreases |rest|
  {
    if c.mode != NoState {
      assert c == d;
    } else if |rest| > 0 {
      var mv := StepOn(m, header, c, rest);
      if mv.step.Continue? {
        DriveIgnoresDead(m, header, mv.step.c, StepOn(m, header, d, rest).step.c, rest[1..]);
      }
    }
  }

  /** How a call ends writes the same ParseState for cursors that agree up to dead fields. */
  lemma ApplySame(m: Machine, f: Fields, g: Fields, s: Stop, t: Stop)
    requires Shaped(m) && SameCursor(s.c, t.c) && s.write == t.write && s.outcome == t.outcome
    requires s.outcome.Incomplete? || s.outcome.Complete?
    requires s.outcome.Complete? ==> s.write == ResetCursor
    requires s.outcome.Incomplete? ==> s.write == WriteCursor || (s.write == WriteStateOnly && s.c.mode == NoState)
    requires s.outcome.Incomplete? ==> CursorOk(m, s.c)
    ensures SameFields(Apply(f, s), Apply(g, t))
  {
  }

  /** Where a suspended call left off is where the next call resumes. */
  lemma ResumeAfterSuspend(m: Machine, f: Fields, s: Stop)
    requires MachineOk(m) && CursorOk(m, s.c)
    requires s.write == WriteCursor || (s.write == WriteStateOnly && s.c.mode == NoState)
    ensures Resume(m, Apply(f, s)).Some? && SameCursor(Resume(m, Apply(f, s)).value, s.c)
  {
    if s.c.mode.AtNode? && s.c.mode.n > 0 {
      var n := s.c.mode.n;
      var k := s.c.stateVar;
      NumbersInRange(m.nodes, m.stateno, m.terminal, n);
      var j := FindNumbered(m.stateno, k);
      assert j.Some?;
      if j.value < n {
        NumbersDistinct(m.nodes, m.stateno, m.terminal, j.value, n);
      }
      assert j.value == n;
    }
  }

  /** SameFields is all the matcher can tell apart: equal fields up to dead ones run the same. */
  lemma MatchRespectsSame(m: Machine, header: bool, f: Fields, g: Fields, rest: seq<Byte>)
    requires MachineOk(m) && SameFields(f, g)
    ensures var r := Match(m, header, f, rest);
      var q := Match(m, header, g, rest);
      r.outcome == q.outcome && r.used == q.used
      && (r.outcome.Incomplete? || r.outcome.Complete? ==> SameFields(r.fields, q.fields))
  {
    if |rest| > 0 && Resume(m, f).Some? {
      var c := Resume(m, f).value;
      var d := Resume(m, g).value;
      assert SameCursor(c, d);
      ResumeOk(m, f);
      DriveIgnoresDead(m, header, c, d, rest);
      DriveKeepsCursorOk(m, header, c, rest);
      var s := Drive(m, header, c, rest);
      if s.outcome.Incomplete? || s.outcome.Complete? {
        ApplySame(m, f, g, s, Drive(m, header, d, rest));
      }
    }
  }

  /**
   * Feeding the bytes a and then b in two calls gives the outcome, the
   * number of bytes read and (up to dead fields) the ParseState of feeding
   * a + b in one call, whenever the first call suspended.  A call that
   * throws may leave the fields differently; they are not compared then.
   */
  lemma MatchSplit(m: Machine, header: bool, f: Fields, a: seq<Byte>, b: seq<Byte>)
    requires MachineOk(m) && Match(m, header, f, a).outcome.Incomplete?
    ensures var r1 := Match(m, header, f, a);
      var r2 := Match(m, header, r1.fields, b);
      var r := Match(m, header, f, a + b);
      r.outcome == r2.outcome && r.used == r1.used + r2.used
      && (r.outcome.Incomplete? || r.outcome.Complete? ==> SameFields(r.fields, r2.fields))
  {
    if |b| == 0 {
      assert a + b == a;
    } else if |a| == 0 {
      assert a + b == b;
    } else {
      var c := Resume(m, f).value;
      var s1 := Drive(m, header, c, a);
      ResumeOk(m, f);
      DriveKeepsCursorOk(m, header, c, a);
      DriveSplit(m, header, c, a, b);
      var g := Apply(f, s1);
      ResumeAfterSuspend(m, f, s1);
      var d := Resume(m, g).value;
      DriveIgnoresDead(m, header, s1.c, d, b);
      DriveKeepsCursorOk(m, header, s1.c, b);
      var t := Drive(m, header, s1.c, b);
      if t.outcome.Incomplete? || t.outcome.Complete? {
        ApplySame(m, f, g, Shift(t, |a|), Drive(m, header, d, b));
      }
    }
  }
}
