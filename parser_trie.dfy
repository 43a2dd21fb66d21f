/**
 * The build-time half of io.undertow.annotationprocessor.AbstractParserGenerator:
 * the character classes of the generated helper methods, the byte trie that
 * createStateMachine builds from the known tokens of one machine (verbs,
 * versions or header names), and the state numbers setupStateNo gives its
 * nodes.  The generated matcher that runs over this trie is in TokenMatcher.
 */
module ParserTrie {
  import opened Octets

  // ---------------------------------------------------------------------
  // Character classes (section 2.2 of RFC 2616)
  // ---------------------------------------------------------------------

  /** The separators of section 2.2 of RFC 2616, SP and HT included. */
  predicate IsSeparator(o: int) {
    o == '(' as int || o == ')' as int || o == '<' as int || o == '>' as int || o == '@' as int
    || o == ',' as int || o == ';' as int || o == ':' as int || o == '\\' as int || o == '"' as int
    || o == '/' as int || o == '[' as int || o == ']' as int || o == '?' as int || o == '=' as int
    || o == '{' as int || o == '}' as int || o == ' ' as int || o == '\t' as int
  }

  /** A token character of section 2.2 of RFC 2616: a CHAR (0..127) that is neither a CTL (0..31, 127) nor a separator. */
  predicate RfcTokenChar(o: Byte) {
    32 <= o < 127 && !IsSeparator(o)
  }

  /** TEXT of section 2.2 of RFC 2616: any octet except the CTLs, but including HT. */
  predicate RfcText(o: Byte) {
    o == 9 || (32 <= o && o != 127)
  }

  /**
   * HM_IS_HEADER (AbstractParserGenerator.java:182-229) on the signed byte x:
   * the RFC token characters, and '/' as well although it is a separator.
   * This is the test the emitted branches evidently intend; as emitted, the
   * first if_icmpgt consumes x and the later compares lack an operand.
   */
  function IsHeaderChar(x: int): (r: bool)
    ensures -128 <= x < 128 ==> (r <==> RfcTokenChar(x % 256) || x == '/' as int)
  {
    if x > 'z' as int then x == '|' as int || x == '~' as int
    else if x >= '^' as int then true
    else if x < 'A' as int then
      if x > '9' as int then false
      else if x >= '-' as int then true
      else if x < '!' as int then false
      else !(x == '"' as int || x == '(' as int || x == ')' as int || x == ',' as int)
    else x <= 'Z' as int
  }

  /** HM_IS_LWS (AbstractParserGenerator.java:232-246): SP or HT; CRLF is detected separately. */
  function IsLws(x: int): (r: bool)
    ensures r ==> IsSeparator(x) && !(32 < x < 127)
  {
    x == ' ' as int || x == '\t' as int
  }

  /** HM_IS_HEADER_VAL (AbstractParserGenerator.java:248-270) on the signed byte x: HT, 32..126 and 128..255. */
  function IsHeaderValueChar(x: int): (r: bool)
    ensures -128 <= x < 128 ==> (r <==> RfcText(x % 256))
  {
    if x == 9 then true
    else if x < 0 then true
    else if x < ' ' as int then false
    else x != 127
  }

  // ---------------------------------------------------------------------
  // The trie of known tokens
  // ---------------------------------------------------------------------

  /**
   * The byte a token char is keyed by, value.getBytes()[i]: the char's low
   * byte, as a signed Java byte.  The known tokens are ASCII, whose chars
   * every ASCII-compatible default charset encodes as that one byte; other
   * charsets are not modelled.
   */
  function KeyOf(c: char): (k: int)
    ensures -128 <= k < 128
  {
    JavaByte(LowByte(c))
  }

  function KeysOf(s: string): (ks: seq<int>)
    ensures |ks| == |s|
    ensures forall i :: 0 <= i < |s| ==> ks[i] == KeyOf(s[i])
  {
    seq(|s|, i requires 0 <= i < |s| => KeyOf(s[i]))
  }

  /** One entry of a child map: the byte it is keyed by and the index of the child node. */
  datatype Child = Child(key: int, target: nat)

  /** AbstractParserGenerator.State as built: its byte, the text spelled so far, its child map and finalState. */
  datatype Node = Node(value: int, soFar: string, next: seq<Child>, finalState: bool)

  /** A HashMap holds one entry per key. */
  predicate KeysDistinct(cs: seq<Child>) {
    forall i, j :: 0 <= i < j < |cs| ==> cs[i].key != cs[j].key
  }

  /** A child of node n: created after n, carrying its key as its byte, and spelling n's text plus that byte. */
  predicate ChildOk(nodes: seq<Node>, n: nat, c: Child) {
    n < c.target < |nodes| && nodes[c.target].value == c.key
    && KeysOf(nodes[c.target].soFar) == KeysOf(nodes[n].soFar) + [c.key]
  }

  /** Every state but the initial one has a nonempty text: it was created as some state's child. */
  predicate NodeOk(nodes: seq<Node>, n: nat) {
    n < |nodes| && KeysDistinct(nodes[n].next) && (n > 0 ==> nodes[n].soFar != "")
    && forall i :: 0 <= i < |nodes[n].next| ==> ChildOk(nodes, n, nodes[n].next[i])
  }

  /** nodes[0] is the initial state, new State((byte) 0, ""). */
  predicate TrieOk(nodes: seq<Node>) {
    |nodes| > 0 && nodes[0].soFar == "" && forall n: nat :: n < |nodes| ==> NodeOk(nodes, n)
  }

  /** HashMap.get(b) on a child map: the position of the entry keyed by b. */
  function Lookup(cs: seq<Child>, b: int): (r: Option<nat>)
    ensures r.Some? ==> r.value < |cs| && cs[r.value].key == b
    ensures r.None? ==> forall i :: 0 <= i < |cs| ==> cs[i].key != b
    decreases |cs|
  {
    if |cs| == 0 then None
    else if cs[0].key == b then Some(0)
    else
      var r := Lookup(cs[1..], b);
      if r.Some? then Some(r.value + 1) else None
  }

  /** The child of node n keyed by b. */
  function Next(nodes: seq<Node>, n: nat, b: int): (r: Option<nat>)
    ensures r.Some? ==> r.value < |nodes|
  {
    if n >= |nodes| then None
    else
      var j := Lookup(nodes[n].next, b);
      if j.Some? && nodes[n].next[j.value].target < |nodes| then Some(nodes[n].next[j.value].target) else None
  }

  /** The child Next finds is a later node spelling one more key, and the only child of a node with one. */
  lemma NextIsChild(nodes: seq<Node>, n: nat, b: int)
    requires TrieOk(nodes) && n < |nodes| && Next(nodes, n, b).Some?
    ensures var ch := Next(nodes, n, b).value;
      n < ch && KeysOf(nodes[ch].soFar) == KeysOf(nodes[n].soFar) + [b]
      && (|nodes[n].next| == 1 ==> ch == nodes[n].next[0].target)
  {
    assert NodeOk(nodes, n);
    var j := Lookup(nodes[n].next, b).value;
    assert ChildOk(nodes, n, nodes[n].next[j]);
  }

  /** The node reached from node `from` by following keys, first key first. */
  function WalkFrom(nodes: seq<Node>, from: nat, keys: seq<int>): (r: Option<nat>)
    ensures r.Some? ==> r.value < |nodes|
    ensures keys == [] && from < |nodes| ==> r == Some(from)
    decreases |keys|
  {
    if from >= |nodes| then None
    else if keys == [] then Some(from)
    else
      var t := Next(nodes, from, keys[0]);
      if t.None? then None else WalkFrom(nodes, t.value, keys[1..])
  }

  /** How many of the keys can be followed from node `from` before an edge is missing. */
  function Reach(nodes: seq<Node>, from: nat, keys: seq<int>): (r: nat)
    ensures r <= |keys|
    decreases |keys|
  {
    if keys == [] then 0
    else
      var t := Next(nodes, from, keys[0]);
      if t.None? then 0 else 1 + Reach(nodes, t.value, keys[1..])
  }

  /** Every node spells the text of the path that leads to it. */
  lemma {:induction false} WalkSpells(nodes: seq<Node>, from: nat, keys: seq<int>)
    requires TrieOk(nodes) && from < |nodes| && WalkFrom(nodes, from, keys).Some?
    ensures KeysOf(nodes[WalkFrom(nodes, from, keys).value].soFar) == KeysOf(nodes[from].soFar) + keys
    decreases |keys|
  {
    if keys != [] {
      var t := Next(nodes, from, keys[0]).value;
      assert NodeOk(nodes, from);
      var j := Lookup(nodes[from].next, keys[0]).value;
      assert ChildOk(nodes, from, nodes[from].next[j]);
      WalkSpells(nodes, t, keys[1..]);
      assert KeysOf(nodes[from].soFar) + [keys[0]] + keys[1..] == KeysOf(nodes[from].soFar) + keys;
    }
  }

  /** A walk from the initial node that succeeds spells its keys. */
  lemma WalkFromRootSpells(nodes: seq<Node>, keys: seq<int>)
    requires TrieOk(nodes) && WalkFrom(nodes, 0, keys).Some?
    ensures KeysOf(nodes[WalkFrom(nodes, 0, keys).value].soFar) == keys
  {
    WalkSpells(nodes, 0, keys);
  }

  /** All keys can be followed exactly when the walk succeeds. */
  lemma {:induction false} ReachIsWalk(nodes: seq<Node>, from: nat, keys: seq<int>)
    requires from < |nodes|
    ensures Reach(nodes, from, keys) == |keys| <==> WalkFrom(nodes, from, keys).Some?
    decreases |keys|
  {
    if keys != [] {
      var t := Next(nodes, from, keys[0]);
      if t.Some? {
        ReachIsWalk(nodes, t.value, keys[1..]);
      }
    }
  }

  // Growth of the arena

  /** Node n kept its byte and text, its child map only gained entries at its end, and finalState was never cleared. */
  predicate NodeGrew(n0: seq<Node>, n1: seq<Node>, n: nat) {
    n < |n0| && n < |n1| && n1[n].value == n0[n].value && n1[n].soFar == n0[n].soFar
    && n0[n].next <= n1[n].next && (n0[n].finalState ==> n1[n].finalState)
  }

  predicate Grew(n0: seq<Node>, n1: seq<Node>) {
    |n0| <= |n1| && forall n: nat :: n < |n0| ==> NodeGrew(n0, n1, n)
  }

  /** finalState changed at most at node f. */
  predicate FinalOnlyAt(n0: seq<Node>, n1: seq<Node>, f: nat) {
    |n0| <= |n1| && forall n: nat :: n < |n0| && n != f ==> FinalKept(n0, n1, n)
  }

  predicate FinalKept(n0: seq<Node>, n1: seq<Node>, n: nat) {
    n < |n0| && n < |n1| && n1[n].finalState == n0[n].finalState
  }

  lemma GrewTransitive(n0: seq<Node>, n1: seq<Node>, n2: seq<Node>)
    requires Grew(n0, n1) && Grew(n1, n2)
    ensures Grew(n0, n2)
  {
    forall n: nat | n < |n0|
      ensures NodeGrew(n0, n2, n)
    {
      assert NodeGrew(n0, n1, n) && NodeGrew(n1, n2, n);
    }
  }

  lemma {:induction false} LookupInPrefix(cs: seq<Child>, more: seq<Child>, b: int)
    requires Lookup(cs, b).Some?
    ensures Lookup(cs + more, b) == Lookup(cs, b)
    decreases |cs|
  {
    if cs[0].key != b {
      assert (cs + more)[1..] == cs[1..] + more;
      LookupInPrefix(cs[1..], more, b);
    }
  }

  lemma {:induction false} LookupAppended(cs: seq<Child>, c: Child)
    requires Lookup(cs, c.key).None?
    ensures Lookup(cs + [c], c.key) == Some(|cs|)
    decreases |cs|
  {
    if |cs| > 0 {
      assert (cs + [c])[1..] == cs[1..] + [c];
      LookupAppended(cs[1..], c);
    }
  }

  /** Growing the arena keeps every edge that existed. */
  lemma GrewKeepsNext(n0: seq<Node>, n1: seq<Node>, n: nat, b: int)
    requires Grew(n0, n1) && Next(n0, n, b).Some?
    ensures Next(n1, n, b) == Next(n0, n, b)
  {
    assert NodeGrew(n0, n1, n);
    var cs := n0[n].next;
    assert n1[n].next == cs + n1[n].next[|cs|..];
    LookupInPrefix(cs, n1[n].next[|cs|..], b);
  }

  /** Growing the arena keeps every walk that succeeded. */
  lemma {:induction false} GrewKeepsWalks(n0: seq<Node>, n1: seq<Node>, from: nat, keys: seq<int>)
    requires Grew(n0, n1) && WalkFrom(n0, from, keys).Some?
    ensures WalkFrom(n1, from, keys) == WalkFrom(n0, from, keys)
    decreases |keys|
  {
    if keys != [] {
      GrewKeepsNext(n0, n1, from, keys[0]);
      GrewKeepsWalks(n0, n1, Next(n0, from, keys[0]).value, keys[1..]);
    }
  }

  /** A node whose byte and text stay put keeps its well-formed children when nodes are appended. */
  lemma NodeOkInLargerArena(n0: seq<Node>, n1: seq<Node>, n: nat)
    requires NodeOk(n0, n) && |n0| <= |n1| && n1[n].next == n0[n].next
    requires n1[n].soFar == n0[n].soFar
    requires forall m: nat :: m < |n0| ==> SameData(n0, n1, m)
    ensures NodeOk(n1, n)
  {
    forall i | 0 <= i < |n1[n].next|
      ensures ChildOk(n1, n, n1[n].next[i])
    {
      var c := n0[n].next[i];
      assert ChildOk(n0, n, c);
      assert SameData(n0, n1, c.target);
    }
  }

  /** Node m has the same byte and text in both arenas. */
  predicate SameData(n0: seq<Node>, n1: seq<Node>, m: nat) {
    m < |n0| && m < |n1| && n1[m].value == n0[m].value && n1[m].soFar == n0[m].soFar
  }

  // ---------------------------------------------------------------------
  // addStates
  // ---------------------------------------------------------------------

  /** The node of the i-th prefix step of value is found or created; after it the path of value[..i + 1] exists. */
  function PutChild(nodes: seq<Node>, current: nat, value: string, i: nat): (r: seq<Node>)
    requires current < |nodes| && i < |value|
  {
    var s := nodes[current];
    nodes[current := s.(next := s.next + [Child(KeyOf(value[i]), |nodes|)])] + [Node(KeyOf(value[i]), value[..i + 1], [], false)]
  }

  lemma PutChildFacts(nodes: seq<Node>, current: nat, value: string, i: nat)
    requires TrieOk(nodes) && current < |nodes| && i < |value|
    requires KeysOf(nodes[current].soFar) == KeysOf(value)[..i]
    requires Next(nodes, current, KeyOf(value[i])).None?
    ensures var r := PutChild(nodes, current, value, i);
      TrieOk(r) && Grew(nodes, r) && |r| == |nodes| + 1
      && FinalOnlyAt(nodes, r, |nodes|) && !r[|nodes|].finalState && r[|nodes|].next == []
      && Next(r, current, KeyOf(value[i])) == Some(|nodes|)
      && KeysOf(r[|nodes|].soFar) == KeysOf(value)[..i + 1]
  {
    var r := PutChild(nodes, current, value, i);
    var b := KeyOf(value[i]);
    var idx := |nodes|;
    var cs := nodes[current].next;
    assert NodeOk(nodes, current);
    assert Lookup(cs, b).None?;
    forall m: nat | m < |nodes|
      ensures SameData(nodes, r, m)
    {
    }
    assert KeysOf(r[idx].soFar) == KeysOf(value)[..i + 1] by {
      assert KeysOf(value[..i + 1]) == KeysOf(value)[..i + 1];
    }
    assert ChildOk(r, current, Child(b, idx)) by {
      assert KeysOf(value)[..i + 1] == KeysOf(value)[..i] + [b];
    }
    forall n: nat | n < |r|
      ensures NodeOk(r, n)
    {
      if n == idx {
      } else if n == current {
        assert NodeOk(nodes, n);
        forall k | 0 <= k < |cs|
          ensures ChildOk(r, n, cs[k])
        {
          assert ChildOk(nodes, n, cs[k]);
          assert SameData(nodes, r, cs[k].target);
        }
        assert r[n].next == cs + [Child(b, idx)];
      } else {
        assert NodeOk(nodes, n);
        NodeOkInLargerArena(nodes, r, n);
      }
    }
    forall n: nat | n < |nodes|
      ensures NodeGrew(nodes, r, n)
    {
    }
    forall n: nat | n < |nodes| && n != idx
      ensures FinalKept(nodes, r, n)
    {
    }
    LookupAppended(cs, Child(b, idx));
  }

  /** Setting finalState on node f. */
  function MarkFinal(nodes: seq<Node>, f: nat): seq<Node>
    requires f < |nodes|
  {
    nodes[f := nodes[f].(finalState := true)]
  }

  lemma MarkFinalFacts(nodes: seq<Node>, f: nat)
    requires TrieOk(nodes) && f < |nodes|
    ensures var r := MarkFinal(nodes, f);
      TrieOk(r) && Grew(nodes, r) && |r| == |nodes| && FinalOnlyAt(nodes, r, f) && r[f].finalState
  {
    var r := MarkFinal(nodes, f);
    forall m: nat | m < |nodes|
      ensures SameData(nodes, r, m)
    {
    }
    forall n: nat | n < |r|
      ensures NodeOk(r, n)
    {
      assert NodeOk(nodes, n);
      NodeOkInLargerArena(nodes, r, n);
    }
    forall n: nat | n < |nodes|
      ensures NodeGrew(nodes, r, n)
    {
    }
    forall n: nat | n < |nodes| && n != f
      ensures FinalKept(nodes, r, n)
    {
    }
  }

  /** After adding a token, walking its bytes from the node where the insertion started reaches a final node. */
  predicate EndsFinal(nodes: seq<Node>, from: nat, keys: seq<int>) {
    var f := WalkFrom(nodes, from, keys);
    f.Some? && nodes[f.value].finalState
  }

  /**
   * One step of addStates followed by the recursive call: the step either
   * found the child or appended it as a fresh leaf, and the recursive call
   * finished the walk from that child.
   */
  lemma StepThenWalk(n0: seq<Node>, n1: seq<Node>, n2: seq<Node>, current: nat, target: nat, keys: seq<int>)
    requires keys != [] && current < |n0| && Grew(n0, n1) && Grew(n1, n2)
    requires Next(n1, current, keys[0]) == Some(target)
    requires Next(n0, current, keys[0]).None? ==> |n1| == |n0| + 1 && target == |n0| && n1[target].next == []
    requires Next(n0, current, keys[0]).Some? ==> n1 == n0
    requires FinalOnlyAt(n0, n1, |n0|)
    requires |n2| == |n1| + (|keys| - 1) - Reach(n1, target, keys[1..])
    requires WalkFrom(n2, target, keys[1..]).Some?
    requires FinalOnlyAt(n1, n2, WalkFrom(n2, target, keys[1..]).value)
    ensures Grew(n0, n2)
    ensures WalkFrom(n2, current, keys) == WalkFrom(n2, target, keys[1..])
    ensures |n2| == |n0| + |keys| - Reach(n0, current, keys)
    ensures FinalOnlyAt(n0, n2, WalkFrom(n2, target, keys[1..]).value)
  {
    GrewTransitive(n0, n1, n2);
    GrewKeepsNext(n1, n2, current, keys[0]);
    if Next(n0, current, keys[0]).None? {
      assert Reach(n1, target, keys[1..]) == 0 by {
        if keys[1..] != [] {
          assert Lookup(n1[target].next, keys[1]).None?;
        }
      }
    }
    var f := WalkFrom(n2, target, keys[1..]).value;
    forall n: nat | n < |n0| && n != f
      ensures FinalKept(n0, n2, n)
    {
      assert FinalKept(n1, n2, n);
      assert FinalKept(n0, n1, n);
    }
  }

  class TokenTrie {
    /** The initial state is nodes[0]; the child maps refer to nodes by index. */
    var nodes: seq<Node>
    /** The states list of createStateMachine: every node but the initial one, in creation order. */
    var allStates: seq<nat>
    /** State numbers and terminal strings, as setupStateNo leaves them in each State. */
    var stateno: seq<int>
    var terminal: seq<Option<string>>

    /** allStates holds each created node exactly once, in creation order. */
    predicate Valid()
      reads this
    {
      TrieOk(nodes) && |allStates| + 1 == |nodes| && forall k :: 0 <= k < |allStates| ==> allStates[k] == k + 1
    }

    /** The initial state (AbstractParserGenerator.java:689-690). */
    constructor ()
      ensures Valid() && nodes == [Node(0, "", [], false)] && allStates == []
      ensures stateno == [] && terminal == []
    {
      nodes := [Node(0, "", [], false)];
      allStates := [];
      stateno := [];
      terminal := [];
    }

    /**
     * addStates(initial, value, allStates) (AbstractParserGenerator.java:1214-1216):
     * afterwards walking value's bytes from the initial state reaches a
     * final node; exactly the missing nodes of that path were created, one
     * per missing byte; nothing that existed was lost, and no other node
     * became final.
     */
    method AddStates(value: string)
      requires Valid()
      modifies this`nodes, this`allStates
      ensures Valid() && Grew(old(nodes), nodes)
      ensures EndsFinal(nodes, 0, KeysOf(value))
      ensures |nodes| == |old(nodes)| + |value| - Reach(old(nodes), 0, KeysOf(value))
      ensures FinalOnlyAt(old(nodes), nodes, WalkFrom(nodes, 0, KeysOf(value)).value)
    {
      AddFrom(0, value, 0);
      assert KeysOf(value)[0..] == KeysOf(value);
    }

    /** The recursive addStates(current, value, i, allStates) (AbstractParserGenerator.java:1218-1232). */
    method AddFrom(current: nat, value: string, i: nat)
      requires Valid() && current < |nodes| && i <= |value|
      requires KeysOf(nodes[current].soFar) == KeysOf(value)[..i]
      modifies this`nodes, this`allStates
      ensures Valid() && Grew(old(nodes), nodes)
      ensures EndsFinal(nodes, current, KeysOf(value)[i..])
      ensures |nodes| == |old(nodes)| + (|value| - i) - Reach(old(nodes), current, KeysOf(value)[i..])
      ensures FinalOnlyAt(old(nodes), nodes, WalkFrom(nodes, current, KeysOf(value)[i..]).value)
      decreases |value| - i
    {
      var keys := KeysOf(value);
      if i == |value| {
        MarkFinalFacts(nodes, current);
        nodes := MarkFinal(nodes, current);
        assert keys[i..] == [];
        return;
      }
      ghost var n0 := nodes;
      var b := KeyOf(value[i]);
      var t := Next(nodes, current, b);
      var target: nat;
      if t.None? {
        PutChildFacts(nodes, current, value, i);
        target := |nodes|;
        nodes := PutChild(nodes, current, value, i);
        allStates := allStates + [target];
      } else {
        target := t.value;
        assert NodeOk(nodes, current);
        var j := Lookup(nodes[current].next, b).value;
        assert ChildOk(nodes, current, nodes[current].next[j]);
        assert keys[..i] + [b] == keys[..i + 1];
      }
      ghost var n1 := nodes;
      assert FinalOnlyAt(n0, n1, |n0|);
      AddFrom(target, value, i + 1);
      assert keys[i..][0] == b && keys[i..][1..] == keys[i + 1..];
      StepThenWalk(n0, n1, nodes, current, target, keys[i..]);
    }

    /**
     * The loop of setupStateNo that follows a single-child chain
     * (AbstractParserGenerator.java:757-767): the text of the leaf the
     * chain below n ends in, or None when the chain forks first.
     */
    method ChainTerminal(n: nat) returns (term: Option<string>)
      requires Valid() && n < |nodes| && |nodes[n].next| == 1
      ensures term.Some? <==> ChainLeaf(nodes, n).Some?
      ensures term.Some? ==> term.value == nodes[ChainLeaf(nodes, n).value].soFar
    {
      assert NodeOk(nodes, n) && ChildOk(nodes, n, nodes[n].next[0]);
      var s := nodes[n].next[0].target;
      while true
        invariant n < s < |nodes| && ChainLeaf(nodes, s) == ChainLeaf(nodes, n)
        decreases |nodes| - s
      {
        if |nodes[s].next| > 1 {
          return None;
        } else if |nodes[s].next| == 0 {
          return Some(nodes[s].soFar);
        }
        assert NodeOk(nodes, s) && ChildOk(nodes, s, nodes[s].next[0]);
        s := nodes[s].next[0].target;
      }
    }

    /**
     * The numbering of createStateMachine (AbstractParserGenerator.java:692-699)
     * with setupStateNo (:751-779): the initial state first, then allStates in
     * order; a node whose single-child chain ends in a leaf becomes
     * PREFIX_MATCH with that leaf's text as terminalState, every other node
     * takes the next counter value.  Returns noStates, the last number given.
     */
    method SetupStateNos() returns (noStates: int)
      requires Valid()
      modifies this`stateno, this`terminal
      ensures Valid() && Numbering(nodes, stateno, terminal)
      ensures noStates == Rank(nodes, |nodes|) - 1
    {
      var counter := -1;
      var no, term;
      no, term, counter := SetupStateNo(0, counter);
      stateno := [no];
      terminal := [term];
      var k := 0;
      while k < |allStates|
        invariant 0 <= k <= |allStates|
        invariant |stateno| == |terminal| == k + 1
        invariant counter == Rank(nodes, k + 1) - 1
        invariant forall n: nat :: n <= k ==> NumberOk(nodes, stateno, terminal, n)
      {
        no, term, counter := SetupStateNo(allStates[k], counter);
        stateno := stateno + [no];
        terminal := terminal + [term];
        forall n: nat | n <= k + 1
          ensures NumberOk(nodes, stateno, terminal, n)
        {
          if n <= k {
            assert NumberOk(nodes, stateno[..k + 1], terminal[..k + 1], n);
          }
        }
        k := k + 1;
      }
      noStates := counter;
      assert forall n: nat :: n < |nodes| ==> NumberOk(nodes, stateno, terminal, n);
    }

    /** setupStateNo(state, stateCounter, ...) for the node n, with counter the counter's current value. */
    method SetupStateNo(n: nat, counter: int) returns (no: int, term: Option<string>, counter': int)
      requires Valid() && n < |nodes| && counter == Rank(nodes, n) - 1
      ensures counter' == Rank(nodes, n + 1) - 1
      ensures ChainLeaf(nodes, n).Some? ==> no == PrefixMatch && term == Some(nodes[ChainLeaf(nodes, n).value].soFar)
      ensures ChainLeaf(nodes, n).None? ==> no == Rank(nodes, n) && term == None
    {
      if |nodes[n].next| == 0 {
        no, term, counter' := PrefixMatch, Some(nodes[n].soFar), counter;
      } else if |nodes[n].next| == 1 {
        var t := ChainTerminal(n);
        assert NodeOk(nodes, n) && ChildOk(nodes, n, nodes[n].next[0]);
        if t.Some? {
          no, term, counter' := PrefixMatch, t, counter;
        } else {
          no, term, counter' := counter + 1, None, counter + 1;
        }
      } else {
        no, term, counter' := counter + 1, None, counter + 1;
      }
    }
  }

  // ---------------------------------------------------------------------
  // State numbers
  // ---------------------------------------------------------------------

  /** PREFIX_MATCH, the tableswitch slot -2 of writeStateMachine (AbstractParserGenerator.java:823-825). */
  const PrefixMatch: int := -2

  /** The leaf n's single-child chain ends in (n itself for a leaf), or None if the chain forks. */
  function ChainLeaf(nodes: seq<Node>, n: nat): (r: Option<nat>)
    ensures r.Some? ==> n <= r.value < |nodes| && nodes[r.value].next == []
    decreases |nodes| - n
  {
    if n >= |nodes| then None
    else if |nodes[n].next| == 0 then Some(n)
    else if |nodes[n].next| == 1 then
      var c := nodes[n].next[0].target;
      if n < c then ChainLeaf(nodes, c) else None
    else None
  }

  /** How many of the nodes before n get a number. */
  function Rank(nodes: seq<Node>, n: nat): (r: nat)
    ensures r <= n
  {
    if n == 0 then 0 else Rank(nodes, n - 1) + (if ChainLeaf(nodes, n - 1).None? then 1 else 0)
  }

  /** Node n is PREFIX_MATCH with its chain's leaf as terminal, or carries its rank among the numbered nodes. */
  predicate NumberOk(nodes: seq<Node>, stateno: seq<int>, terminal: seq<Option<string>>, n: nat) {
    n < |nodes| && n < |stateno| && n < |terminal|
    && (ChainLeaf(nodes, n).Some? ==> stateno[n] == PrefixMatch && terminal[n] == Some(nodes[ChainLeaf(nodes, n).value].soFar))
    && (ChainLeaf(nodes, n).None? ==> stateno[n] == Rank(nodes, n) && terminal[n] == None)
  }

  predicate Numbering(nodes: seq<Node>, stateno: seq<int>, terminal: seq<Option<string>>) {
    |stateno| == |nodes| && |terminal| == |nodes|
    && forall n: nat :: n < |nodes| ==> NumberOk(nodes, stateno, terminal, n)
  }

  /** Rank only grows. */
  lemma {:induction false} RankMonotone(nodes: seq<Node>, m: nat, n: nat)
    requires m <= n
    ensures Rank(nodes, m) <= Rank(nodes, n)
    decreases n - m
  {
    if m < n {
      RankMonotone(nodes, m, n - 1);
    }
  }

  /**
   * Numbers are unique: two numbered nodes never share one, so the
   * tableswitch over state numbers finds each numbered node.
   */
  lemma NumbersDistinct(nodes: seq<Node>, stateno: seq<int>, terminal: seq<Option<string>>, m: nat, n: nat)
    requires Numbering(nodes, stateno, terminal) && m < n < |nodes|
    requires stateno[m] != PrefixMatch && stateno[n] != PrefixMatch
    ensures 0 <= stateno[m] < stateno[n]
  {
    assert NumberOk(nodes, stateno, terminal, m) && NumberOk(nodes, stateno, terminal, n);
    RankMonotone(nodes, m + 1, n);
  }

  /** The numbers given run from 0 to noStates; with more than one token start, the initial state is number 0. */
  lemma NumbersInRange(nodes: seq<Node>, stateno: seq<int>, terminal: seq<Option<string>>, n: nat)
    requires Numbering(nodes, stateno, terminal) && n < |nodes|
    ensures stateno[n] == PrefixMatch || 0 <= stateno[n] < Rank(nodes, |nodes|)
    ensures n == 0 && |nodes[0].next| > 1 ==> stateno[0] == 0
  {
    assert NumberOk(nodes, stateno, terminal, n);
    RankMonotone(nodes, n + 1, |nodes|);
    assert NumberOk(nodes, stateno, terminal, 0);
  }

  /** Every node of a prefix chain spells the start of the chain's leaf text. */
  lemma {:induction false} ChainLeafExtends(nodes: seq<Node>, n: nat)
    requires TrieOk(nodes) && n < |nodes| && ChainLeaf(nodes, n).Some?
    ensures var l := ChainLeaf(nodes, n).value;
      |nodes[n].soFar| <= |nodes[l].soFar| && KeysOf(nodes[l].soFar)[..|nodes[n].soFar|] == KeysOf(nodes[n].soFar)
    decreases |nodes| - n
  {
    if |nodes[n].next| == 1 {
      var c := nodes[n].next[0].target;
      assert NodeOk(nodes, n) && ChildOk(nodes, n, nodes[n].next[0]);
      ChainLeafExtends(nodes, c);
      var l := ChainLeaf(nodes, n).value;
      var k := |nodes[n].soFar|;
      assert KeysOf(nodes[l].soFar)[..k] == KeysOf(nodes[l].soFar)[..k + 1][..k];
    }
  }

  // ---------------------------------------------------------------------
  // The machine createStateMachine builds
  // ---------------------------------------------------------------------

  /** The trie of one machine with its state numbers and terminal strings. */
  datatype Machine = Machine(nodes: seq<Node>, stateno: seq<int>, terminal: seq<Option<string>>)

  predicate MachineOk(m: Machine) {
    TrieOk(m.nodes) && Numbering(m.nodes, m.stateno, m.terminal)
  }

  /**
   * The trie part of createStateMachine (AbstractParserGenerator.java:685-699):
   * every known token is added, then the states are numbered.  Each token's
   * walk from the initial state reaches a final node spelling it.
   */
  method Build(items: seq<string>) returns (m: Machine, noStates: int)
    ensures MachineOk(m) && noStates == Rank(m.nodes, |m.nodes|) - 1
    ensures forall k :: 0 <= k < |items| ==> EndsFinal(m.nodes, 0, KeysOf(items[k]))
  {
    var trie := new TokenTrie();
    var k := 0;
    while k < |items|
      invariant 0 <= k <= |items| && trie.Valid()
      invariant forall j :: 0 <= j < k ==> EndsFinal(trie.nodes, 0, KeysOf(items[j]))
    {
      ghost var before := trie.nodes;
      trie.AddStates(items[k]);
      forall j | 0 <= j < k
        ensures EndsFinal(trie.nodes, 0, KeysOf(items[j]))
      {
        KeptFinal(before, trie.nodes, KeysOf(items[j]));
      }
      k := k + 1;
    }
    noStates := trie.SetupStateNos();
    m := Machine(trie.nodes, trie.stateno, trie.terminal);
  }

  /** A token that was in the trie stays in it when the trie grows. */
  lemma KeptFinal(n0: seq<Node>, n1: seq<Node>, keys: seq<int>)
    requires Grew(n0, n1) && EndsFinal(n0, 0, keys)
    ensures EndsFinal(n1, 0, keys)
  {
    GrewKeepsWalks(n0, n1, 0, keys);
    assert NodeGrew(n0, n1, WalkFrom(n0, 0, keys).value);
  }
}
