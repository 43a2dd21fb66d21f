/**
 * io.undertow.annotationprocessor.StateMachine and MatchRule: a set of
 * (text, action) rules compiled into a trie of byte-keyed TreeMaps, and the
 * byte walk the generated matcher performs over that trie.
 *
 * The TreeMaps are an arena: states are numbered, and each map is a list of
 * edges (key, target state).  A map's comparator decides which keys are the
 * same key.  Keys are the texts' chars narrowed to signed bytes.
 */
module RuleTrie {
  import opened Octets

  datatype Comparator = CaseSensitive | CaseInsensitive | NaturalOrder

  predicate IsLowerLetter(k: int) {
    'a' as int <= k <= 'z' as int
  }

  predicate IsLetter(k: int) {
    IsLowerLetter(k) || 'A' as int <= k <= 'Z' as int
  }

  /** b &= ~0x20 applied to 'a'..'z' only (StateMachine.java:122-123). */
  function FoldKey(k: int): int {
    if IsLowerLetter(k) then k - 0x20 else k
  }

  /** Two signed bytes that are the same letter in either case, or equal. */
  predicate SameIgnoringCase(a: int, b: int) {
    a == b || (IsLetter(a) && IsLetter(b) && (a - b == 0x20 || b - a == 0x20))
  }

  /**
   * CASE_SENSITIVE and CASE_INSENSITIVE (StateMachine.java:112-126), and the
   * natural order of Byte (Byte.compareTo, the difference).
   */
  function Compare(cmp: Comparator, a: int, b: int): (r: int)
    ensures cmp != NaturalOrder ==> r == -1 || r == 0 || r == 1
    ensures cmp != CaseInsensitive ==> (r == 0 <==> a == b) && (r < 0 <==> a < b)
    ensures cmp == CaseInsensitive ==> (r == 0 <==> SameIgnoringCase(a, b))
  {
    match cmp
    case CaseSensitive => Signum(a - b)
    case CaseInsensitive => Signum(FoldKey(a) - FoldKey(b))
    case NaturalOrder => a - b
  }

  /** The comparator addRule's rules are inserted with (StateMachine.java:60). */
  function Chosen(ignoreCase: bool): Comparator {
    if ignoreCase then CaseInsensitive else CaseSensitive
  }

  /** Byte.valueOf((byte) c) for each char of a rule's text (MatchRule.java:43-44). */
  function Keys(text: string): (ks: seq<int>)
    ensures |ks| == |text|
    ensures forall i :: 0 <= i < |ks| ==> -128 <= ks[i] < 128
  {
    seq(|text|, i requires 0 <= i < |text| => JavaByte(text[i] as int))
  }

  datatype Action = Action(id: nat)

  datatype Edge = Edge(key: int, target: nat)

  /** StateMachine.State: its byte, its action (null when not terminal) and its child map. */
  datatype State = State(value: int, action: Option<Action>, next: seq<Edge>)

  /** The root map, the arena of states, the root map's comparator and the comparator of every child map. */
  datatype Trie = Trie(root: seq<Edge>, states: seq<State>, rootCmp: Comparator, cmp: Comparator)

  /** Where a walk is: the root map, a state, or off the trie. */
  datatype Place = Root | At(index: nat) | Missing

  predicate KeysDistinct(edges: seq<Edge>, cmp: Comparator) {
    forall i, j :: 0 <= i < j < |edges| ==> Compare(cmp, edges[i].key, edges[j].key) != 0
  }

  predicate EdgesWellFormed(t: Trie, edges: seq<Edge>, cmp: Comparator) {
    KeysDistinct(edges, cmp)
    && forall i :: 0 <= i < |edges| ==> edges[i].target < |t.states| && t.states[edges[i].target].value == edges[i].key
  }

  /** State n exists and its child map is well formed. */
  predicate StateOk(t: Trie, n: nat) {
    n < |t.states| && EdgesWellFormed(t, t.states[n].next, t.cmp)
  }

  /** A TreeMap holds one entry per comparator class, and each state's byte is the key it was put under. */
  predicate Valid(t: Trie) {
    EdgesWellFormed(t, t.root, t.rootCmp)
    && forall n: nat :: n < |t.states| ==> StateOk(t, n)
  }

  function Edges(t: Trie, p: Place): seq<Edge> {
    match p
    case Root => t.root
    case At(n) => if n < |t.states| then t.states[n].next else []
    case Missing => []
  }

  function CmpAt(t: Trie, p: Place): Comparator {
    if p == Root then t.rootCmp else t.cmp
  }

  /** TreeMap.get(b): the entry whose key the comparator cannot tell from b. */
  function Find(edges: seq<Edge>, cmp: Comparator, b: int): (r: Option<nat>)
    ensures r.Some? ==> r.value < |edges| && Compare(cmp, edges[r.value].key, b) == 0
    ensures r.None? ==> forall i :: 0 <= i < |edges| ==> Compare(cmp, edges[i].key, b) != 0
    decreases |edges|
  {
    if |edges| == 0 then None
    else if Compare(cmp, edges[0].key, b) == 0 then Some(0)
    else
      var r := Find(edges[1..], cmp, b);
      if r.Some? then Some(r.value + 1) else None
  }

  lemma {:induction false} FindAppended(edges: seq<Edge>, extra: Edge, cmp: Comparator, b: int)
    requires extra.key == b
    requires Find(edges, cmp, b).None?
    ensures Find(edges + [extra], cmp, b) == Some(|edges|)
    decreases |edges|
  {
    if |edges| > 0 {
      assert (edges + [extra])[1..] == edges[1..] + [extra];
      FindAppended(edges[1..], extra, cmp, b);
    }
  }

  function Step(t: Trie, p: Place, b: int): Place {
    var edges := Edges(t, p);
    var j := Find(edges, CmpAt(t, p), b);
    if j.None? then Missing else At(edges[j.value].target)
  }

  /** The place reached by following keys from the root map. */
  function Walk(t: Trie, keys: seq<int>): (p: Place)
    ensures Valid(t) && p.At? ==> p.index < |t.states|
    ensures p == Root <==> keys == []
    decreases |keys|
  {
    if keys == [] then Root
    else
      var q := Walk(t, keys[..|keys| - 1]);
      assert Valid(t) && q.At? ==> StateOk(t, q.index);
      Step(t, q, keys[|keys| - 1])
  }

  /** A lookup that succeeds in a map still succeeds, with the same entry, after entries are appended. */
  lemma {:induction false} FindInPrefix(edges: seq<Edge>, more: seq<Edge>, cmp: Comparator, b: int)
    requires Find(edges, cmp, b).Some?
    ensures Find(edges + more, cmp, b) == Find(edges, cmp, b)
    decreases |edges|
  {
    if Compare(cmp, edges[0].key, b) != 0 {
      assert (edges + more)[1..] == edges[1..] + more;
      FindInPrefix(edges[1..], more, cmp, b);
    }
  }

  /** t only grew from t0: the same comparators, more states with the same bytes, and every map extended at its end. */
  predicate Extends(t0: Trie, t: Trie) {
    t.rootCmp == t0.rootCmp && t.cmp == t0.cmp
    && |t0.states| <= |t.states| && t0.root <= t.root
    && forall n: nat :: n < |t0.states| ==> StateGrew(t0, t, n)
  }

  /** State n has the same byte in both tries, and its child map in t extends the one in t0. */
  predicate StateGrew(t0: Trie, t: Trie, n: nat) {
    n < |t0.states| && n < |t.states| && t0.states[n].next <= t.states[n].next && t.states[n].value == t0.states[n].value
  }

  lemma ExtendsTransitive(t0: Trie, t1: Trie, t2: Trie)
    requires Extends(t0, t1) && Extends(t1, t2)
    ensures Extends(t0, t2)
  {
    forall n: nat | n < |t0.states|
      ensures StateGrew(t0, t2, n)
    {
      assert StateGrew(t0, t1, n) && StateGrew(t1, t2, n);
    }
  }

  /** Growing a trie keeps every walk that stayed on it. */
  lemma {:induction false} ExtendsKeepsWalks(t0: Trie, t: Trie, keys: seq<int>)
    requires Valid(t0) && Extends(t0, t)
    requires Walk(t0, keys) != Missing
    ensures Walk(t, keys) == Walk(t0, keys)
    decreases |keys|
  {
    if keys != [] {
      var front := keys[..|keys| - 1];
      var c := keys[|keys| - 1];
      var q := Walk(t0, front);
      assert Walk(t0, keys) == Step(t0, q, c);
      assert q != Missing;
      ExtendsKeepsWalks(t0, t, front);
      assert Walk(t, keys) == Step(t, q, c);
      StepKept(t0, t, q, c);
    }
  }

  /** A step that stays on a trie takes the same edge after the trie grew. */
  lemma StepKept(t0: Trie, t: Trie, q: Place, c: int)
    requires Valid(t0) && Extends(t0, t)
    requires q != Missing && (q.At? ==> q.index < |t0.states|)
    requires Step(t0, q, c) != Missing
    ensures Step(t, q, c) == Step(t0, q, c)
  {
    EdgesGrew(t0, t, q);
    var e0 := Edges(t0, q);
    var e := Edges(t, q);
    assert e == e0 + e[|e0|..];
    FindInPrefix(e0, e[|e0|..], CmpAt(t0, q), c);
  }

  /** Growing a trie only appends to the edges of a place on it. */
  lemma EdgesGrew(t0: Trie, t: Trie, q: Place)
    requires Valid(t0) && Extends(t0, t)
    requires q != Missing && (q.At? ==> q.index < |t0.states|)
    ensures Edges(t0, q) <= Edges(t, q)
    ensures CmpAt(t, q) == CmpAt(t0, q)
  {
    var e0 := Edges(t0, q);
    var e := Edges(t, q);
    if q.At? {
      assert StateGrew(t0, t, q.index);
      assert e0 == t0.states[q.index].next && e == t.states[q.index].next;
    } else {
      assert e0 == t0.root && e == t.root;
    }
    assert e0 <= e;
  }

  /** A walk that ends on the trie passed only through places on the trie. */
  lemma {:induction false} WalkPrefixOnTrie(t: Trie, keys: seq<int>, k: nat)
    requires k <= |keys| && Walk(t, keys) != Missing
    ensures Walk(t, keys[..k]) != Missing
    decreases |keys|
  {
    if k < |keys| {
      var front := keys[..|keys| - 1];
      assert Walk(t, front) != Missing;
      assert front[..k] == keys[..k];
      WalkPrefixOnTrie(t, front, k);
    } else {
      assert keys[..k] == keys;
    }
  }

  /** The trie after map.put(b, new State(b, comparator)) in the map at p. */
  function AddChild(t: Trie, p: Place, b: int): Trie
    requires p.At? ==> p.index < |t.states|
  {
    var e := Edge(b, |t.states|);
    if p.At? then
      var s := t.states[p.index];
      Trie(t.root, t.states[p.index := s.(next := s.next + [e])] + [State(b, None, [])], t.rootCmp, t.cmp)
    else
      Trie(t.root + [e], t.states + [State(b, None, [])], t.rootCmp, t.cmp)
  }

  /** An edge map stays well formed when states are appended and no state's byte changes. */
  lemma WellFormedInLargerArena(t: Trie, r: Trie, edges: seq<Edge>, cmp: Comparator)
    requires EdgesWellFormed(t, edges, cmp)
    requires |t.states| <= |r.states| && forall n :: 0 <= n < |t.states| ==> r.states[n].value == t.states[n].value
    ensures EdgesWellFormed(r, edges, cmp)
  {
  }

  /** Appending an edge whose key is new to the map, to a state whose byte is that key, keeps the map well formed. */
  lemma WellFormedAppend(r: Trie, edges: seq<Edge>, cmp: Comparator, e: Edge)
    requires EdgesWellFormed(r, edges, cmp)
    requires e.target < |r.states| && r.states[e.target].value == e.key
    requires Find(edges, cmp, e.key).None?
    ensures EdgesWellFormed(r, edges + [e], cmp)
  {
    var es := edges + [e];
    forall i, j | 0 <= i < j < |es|
      ensures Compare(cmp, es[i].key, es[j].key) != 0
    {
      if j == |edges| {
        assert es[i] == edges[i];
      } else {
        assert es[i] == edges[i] && es[j] == edges[j];
      }
    }
  }

  lemma AddChildValid(t: Trie, p: Place, b: int)
    requires Valid(t) && p != Missing && (p.At? ==> p.index < |t.states|)
    requires Find(Edges(t, p), CmpAt(t, p), b).None?
    ensures Valid(AddChild(t, p, b))
  {
    var r := AddChild(t, p, b);
    var e := Edge(b, |t.states|);
    assert forall n :: 0 <= n < |t.states| ==> r.states[n].value == t.states[n].value;
    assert r.states[|t.states|] == State(b, None, []);
    if p.At? {
      WellFormedInLargerArena(t, r, t.root, t.rootCmp);
      forall n | 0 <= n < |r.states|
        ensures EdgesWellFormed(r, r.states[n].next, r.cmp)
      {
        if n == p.index {
          assert StateOk(t, n);
          WellFormedInLargerArena(t, r, t.states[n].next, t.cmp);
          WellFormedAppend(r, t.states[n].next, t.cmp, e);
        } else if n < |t.states| {
          assert r.states[n] == t.states[n] && StateOk(t, n);
          WellFormedInLargerArena(t, r, t.states[n].next, t.cmp);
        }
      }
    } else {
      WellFormedInLargerArena(t, r, t.root, t.rootCmp);
      WellFormedAppend(r, t.root, t.rootCmp, e);
      forall n | 0 <= n < |r.states|
        ensures EdgesWellFormed(r, r.states[n].next, r.cmp)
      {
        if n < |t.states| {
          assert r.states[n] == t.states[n] && StateOk(t, n);
          WellFormedInLargerArena(t, r, t.states[n].next, t.cmp);
        }
      }
    }
  }

  /** What map.put of a missing key does: one new state, without action or children, reached from p by b; nothing else changes. */
  lemma AddChildFacts(t: Trie, p: Place, b: int)
    requires Valid(t) && p != Missing && (p.At? ==> p.index < |t.states|)
    requires Find(Edges(t, p), CmpAt(t, p), b).None?
    ensures var r := AddChild(t, p, b);
      Valid(r) && Extends(t, r) && |r.states| == |t.states| + 1
      && Step(r, p, b) == At(|t.states|)
      && r.states[|t.states|] == State(b, None, [])
      && (forall n :: 0 <= n < |t.states| ==> r.states[n].action == t.states[n].action)
  {
    AddChildValid(t, p, b);
    var r := AddChild(t, p, b);
    var e := Edge(b, |t.states|);
    assert Edges(r, p) == Edges(t, p) + [e];
    FindAppended(Edges(t, p), e, CmpAt(t, p), b);
    assert r.states[|t.states|] == State(b, None, []);
  }

  /** No state from index lo on has an action. */
  predicate Bare(t: Trie, lo: nat) {
    forall n :: lo <= n < |t.states| ==> t.states[n].action.None?
  }

  /** Every state of t0 has the same action in t. */
  predicate ActionsKept(t0: Trie, t: Trie) {
    |t0.states| <= |t.states| && forall n :: 0 <= n < |t0.states| ==> t.states[n].action == t0.states[n].action
  }

  lemma BareAfterPut(before: Trie, after: Trie, lo: nat)
    requires Bare(before, lo) && ActionsKept(before, after) && |after.states| == |before.states| + 1
    requires after.states[|before.states|].action.None?
    ensures Bare(after, lo)
  {
  }

  lemma ActionsKeptTransitive(t0: Trie, t1: Trie, t2: Trie)
    requires ActionsKept(t0, t1) && ActionsKept(t1, t2)
    ensures ActionsKept(t0, t2)
  {
  }

  /** nextState.action = action (MatchRule.java:59). */
  function SetAction(t: Trie, n: nat, a: Action): Trie
    requires n < |t.states|
  {
    t.(states := t.states[n := t.states[n].(action := Some(a))])
  }

  lemma SetActionFacts(t: Trie, n: nat, a: Action)
    requires Valid(t) && n < |t.states|
    ensures var r := SetAction(t, n, a);
      Valid(r) && Extends(t, r) && |r.states| == |t.states| && r.states[n].action == Some(a)
      && forall m :: 0 <= m < |t.states| && m != n ==> r.states[m].action == t.states[m].action
  {
    var r := SetAction(t, n, a);
    forall m: nat | m < |r.states|
      ensures StateOk(r, m) && StateGrew(t, r, m)
    {
      assert StateOk(t, m);
    }
  }

  datatype RuleError = EmptyMatch | DuplicateMatch

  /**
   * The TreeMaps of StateMachine.emit, and MatchRule.addToState as the one
   * operation that edits them.
   */
  class RuleTrie {
    var trie: Trie

    constructor (rootCmp: Comparator, cmp: Comparator)
      ensures trie == Trie([], [], rootCmp, cmp) && Valid(trie)
    {
      trie := Trie([], [], rootCmp, cmp);
    }

    /**
     * addToState (MatchRule.java:40-60): follow or create one state per
     * char; report an empty text, and report a text whose last state
     * already has an action, keeping that action; otherwise set the action
     * on the last state.  Walks that were on the trie stay where they were
     * (ExtendsKeepsWalks).
     */
    method AddToState(text: string, action: Action) returns (err: Option<RuleError>)
      requires Valid(trie)
      modifies this`trie
      ensures Valid(trie) && Extends(old(trie), trie)
      ensures |text| == 0 <==> err == Some(EmptyMatch)
      ensures |text| == 0 ==> trie == old(trie)
      ensures |text| > 0 ==> Walk(trie, Keys(text)).At?
      ensures |text| > 0 ==>
                (err == Some(DuplicateMatch) <==>
                   Walk(old(trie), Keys(text)).At? && old(trie).states[Walk(old(trie), Keys(text)).index].action.Some?)
      ensures |text| > 0 && err.None? ==> trie.states[Walk(trie, Keys(text)).index].action == Some(action)
      ensures |trie.states| <= |old(trie).states| + |text|
      ensures forall n :: 0 <= n < |old(trie).states| && (|text| == 0 || Walk(trie, Keys(text)) != At(n)) ==>
                trie.states[n].action == old(trie).states[n].action
      ensures forall n :: 0 <= n < |old(trie).states| && old(trie).states[n].action.Some? ==>
                trie.states[n].action == old(trie).states[n].action
    {
      var keys := Keys(text);
      if |text| == 0 {
        return Some(EmptyMatch);
      }
      ghost var t0 := trie;
      var grown, last, created := Follow(trie, keys);
      trie := grown;
      if !created {
        assert Walk(t0, keys) == At(last);
      } else if Walk(t0, keys).At? {
        ExtendsKeepsWalks(t0, trie, keys);
      }
      if trie.states[last].action.Some? {
        return Some(DuplicateMatch);
      }
      ghost var before := trie;
      SetActionFacts(trie, last, action);
      trie := SetAction(trie, last, action);
      ExtendsTransitive(t0, before, trie);
      ExtendsKeepsWalks(before, trie, keys);
      return None;
    }
  }

  /** The loop of addToState: the state for each char is looked up in the current map, and created when missing. */
  method Follow(t: Trie, keys: seq<int>) returns (r: Trie, last: nat, created: bool)
    requires Valid(t) && |keys| > 0
    ensures Valid(r) && Extends(t, r)
    ensures Walk(r, keys) == At(last)
    ensures |r.states| <= |t.states| + |keys|
    ensures ActionsKept(t, r) && Bare(r, |t.states|)
    ensures created ==> last >= |t.states|
    ensures !created ==> r == t
  {
    r := t;
    var here: Place := Root;
    created := false;
    var k := 0;
    while k < |keys|
      invariant 0 <= k <= |keys| && Valid(r) && Extends(t, r)
      invariant Walk(r, keys[..k]) == here && here != Missing
      invariant k > 0 ==> here.At?
      invariant |r.states| <= |t.states| + k
      invariant ActionsKept(t, r) && Bare(r, |t.states|)
      invariant created ==> |r.states| > |t.states| && here == At(|r.states| - 1) && Edges(r, here) == []
      invariant !created ==> r == t
    {
      r, here, created := FollowChar(t, r, keys, k, here, created);
      k := k + 1;
    }
    assert keys[..|keys|] == keys;
    last := here.index;
  }

  /** One round of Follow's loop, over the trie r grown from t so far. */
  method FollowChar(t: Trie, r: Trie, keys: seq<int>, k: nat, here: Place, created: bool)
    returns (r': Trie, here': Place, created': bool)
    requires k < |keys| && Valid(r) && Extends(t, r)
    requires Walk(r, keys[..k]) == here && here != Missing
    requires |r.states| <= |t.states| + k
    requires ActionsKept(t, r) && Bare(r, |t.states|)
    requires created ==> |r.states| > |t.states| && here == At(|r.states| - 1) && Edges(r, here) == []
    requires !created ==> r == t
    ensures Valid(r') && Extends(t, r')
    ensures Walk(r', keys[..k + 1]) == here' && here'.At?
    ensures |r'.states| <= |t.states| + k + 1
    ensures ActionsKept(t, r') && Bare(r', |t.states|)
    ensures created' ==> |r'.states| > |t.states| && here' == At(|r'.states| - 1) && Edges(r', here') == []
    ensures !created' ==> r' == t
  {
    assert keys[..k + 1] == keys[..k] + [keys[k]];
    var made;
    r', here', made := Advance(r, keys[..k], here, keys[k]);
    ExtendsTransitive(t, r, r');
    ActionsKeptTransitive(t, r, r');
    created' := created;
    if made {
      BareAfterPut(r, r', |t.states|);
      created' := true;
    }
  }

  /** One char of addToState: map.get, and map.put of a new state when that finds nothing. */
  method Advance(t: Trie, prefix: seq<int>, here: Place, b: int) returns (r: Trie, next: Place, made: bool)
    requires Valid(t) && Walk(t, prefix) == here && here != Missing
    ensures Valid(r) && Extends(t, r) && ActionsKept(t, r)
    ensures Walk(r, prefix + [b]) == next && next.At?
    ensures !made ==> r == t
    ensures made ==> |r.states| == |t.states| + 1 && next == At(|t.states|)
    ensures made ==> r.states[next.index].action.None? && Edges(r, next) == []
    ensures !made ==> Edges(t, here) != []
  {
    assert (prefix + [b])[..|prefix|] == prefix;
    var j := Find(Edges(t, here), CmpAt(t, here), b);
    if j.None? {
      AddChildFacts(t, here, b);
      r := AddChild(t, here, b);
      ExtendsKeepsWalks(t, r, prefix);
      next, made := At(|t.states|), true;
    } else {
      r := t;
      next, made := At(Edges(t, here)[j.value].target), false;
    }
  }

  // ---------------------------------------------------------------------
  // StateMachine: the rule list and the trie emit builds from it
  // ---------------------------------------------------------------------

  datatype MatchRule = MatchRule(text: string, action: Action)

  /** The action of the state keys lead to, if they lead to a state that has one. */
  function ActionOf(t: Trie, keys: seq<int>): Option<Action> {
    var p := Walk(t, keys);
    if p.At? && p.index < |t.states| then t.states[p.index].action else None
  }

  class StateMachine {
    const underflowAction: Action
    const ignoreCase: bool
    var rules: seq<MatchRule>

    constructor (underflow: Action, ignore: bool)
      ensures underflowAction == underflow && ignoreCase == ignore && rules == []
    {
      underflowAction, ignoreCase, rules := underflow, ignore, [];
    }

    /** addRule (StateMachine.java:49-51): rules are kept in call order. */
    method AddRule(text: string, action: Action)
      modifies this`rules
      ensures rules == old(rules) + [MatchRule(text, action)]
    {
      rules := rules + [MatchRule(text, action)];
    }

    /**
     * The trie-building half of emit (StateMachine.java:53-61), with the
     * chosen comparator on the root map as well (see README, Findings):
     * one result per rule, each registered in the sense of Registered.
     */
    method Emit() returns (t: Trie, errors: seq<Option<RuleError>>)
      ensures Valid(t) && t.rootCmp == Chosen(ignoreCase) && t.cmp == Chosen(ignoreCase)
      ensures |errors| == |rules|
      ensures forall i :: 0 <= i < |rules| ==> Registered(t, rules[i], errors[i])
    {
      var rs := rules;
      var first := new RuleTrie(Chosen(ignoreCase), Chosen(ignoreCase));
      errors := [];
      var i := 0;
      while i < |rs|
        invariant 0 <= i <= |rs| && |errors| == i
        invariant Valid(first.trie) && first.trie.rootCmp == Chosen(ignoreCase) && first.trie.cmp == Chosen(ignoreCase)
        invariant forall r: nat :: r < i ==> RegisteredAt(first.trie, rs, errors, r)
      {
        ghost var before := first.trie;
        var e := first.AddToState(rs[i].text, rs[i].action);
        forall r: nat | r < i
          ensures RegisteredAt(first.trie, rs, errors, r)
        {
          assert RegisteredAt(before, rs, errors, r);
          RegisteredKept(before, first.trie, rs[r], errors[r]);
        }
        NewRuleRegistered(before, first.trie, rs[i], e);
        errors := errors + [e];
        forall r: nat | r <= i
          ensures RegisteredAt(first.trie, rs, errors, r)
        {
          if r < i {
            assert RegisteredAt(first.trie, rs, errors[..i], r);
          }
        }
        i := i + 1;
      }
      t := first.trie;
      forall r | 0 <= r < |rs|
        ensures Registered(t, rs[r], errors[r])
      {
        assert RegisteredAt(t, rs, errors, r);
      }
    }
  }

  /**
   * A rule is registered in t with result err: err is EmptyMatch exactly
   * when its text is empty; a non-empty text leads to a state with an
   * action; and when no error was reported that action is the rule's.
   */
  predicate Registered(t: Trie, rule: MatchRule, err: Option<RuleError>) {
    (err == Some(EmptyMatch) <==> |rule.text| == 0)
    && (|rule.text| > 0 ==> ActionOf(t, Keys(rule.text)).Some?)
    && (err.None? ==> ActionOf(t, Keys(rule.text)) == Some(rule.action))
  }

  predicate RegisteredAt(t: Trie, rules: seq<MatchRule>, errors: seq<Option<RuleError>>, r: nat) {
    r < |rules| && r < |errors| && Registered(t, rules[r], errors[r])
  }

  /** Growing the trie without touching the states that carry actions keeps every rule registered. */
  lemma RegisteredKept(t0: Trie, t: Trie, rule: MatchRule, err: Option<RuleError>)
    requires Valid(t0) && Valid(t) && Extends(t0, t) && Registered(t0, rule, err)
    requires forall n :: 0 <= n < |t0.states| && t0.states[n].action.Some? ==> t.states[n].action == t0.states[n].action
    ensures Registered(t, rule, err)
  {
    if |rule.text| > 0 {
      var keys := Keys(rule.text);
      ExtendsKeepsWalks(t0, t, keys);
    }
  }

  /** What AddToState promises about its own rule is that the rule is registered. */
  lemma NewRuleRegistered(t0: Trie, t: Trie, rule: MatchRule, err: Option<RuleError>)
    requires Valid(t0) && Valid(t) && Extends(t0, t)
    requires |rule.text| == 0 <==> err == Some(EmptyMatch)
    requires |rule.text| > 0 ==> Walk(t, Keys(rule.text)).At?
    requires |rule.text| > 0 ==>
                (err == Some(DuplicateMatch) <==>
                   Walk(t0, Keys(rule.text)).At? && t0.states[Walk(t0, Keys(rule.text)).index].action.Some?)
    requires |rule.text| > 0 && err.None? ==> t.states[Walk(t, Keys(rule.text)).index].action == Some(rule.action)
    requires forall n :: 0 <= n < |t0.states| && t0.states[n].action.Some? ==> t.states[n].action == t0.states[n].action
    ensures Registered(t, rule, err)
  {
    if |rule.text| > 0 {
      var keys := Keys(rule.text);
      var p := Walk(t, keys);
      assert p.index < |t.states|;
      match err {
        case None =>
          assert ActionOf(t, keys) == t.states[p.index].action;
        case Some(DuplicateMatch) =>
          var q := Walk(t0, keys);
          assert q.At? && q.index < |t0.states| && t0.states[q.index].action.Some?;
          ExtendsKeepsWalks(t0, t, keys);
        case Some(EmptyMatch) =>
      }
    }
  }

  // ---------------------------------------------------------------------
  // The generated matcher
  // ---------------------------------------------------------------------

  /** b ^= 0x20 on an ASCII letter. */
  function FlipCase(k: int): int {
    if IsLowerLetter(k) then k - 0x20 else k + 0x20
  }

  /**
   * The byte test emitByteCode evidently intends for an edge
   * (StateMachine.java:91-98): equal to the key, or, when ignoring case and
   * the key is a letter, equal to the other case of it.  It agrees with the
   * comparator the trie was built with.  EmittedTestAsWritten below is the
   * test those lines actually emit.
   */
  function Accepts(ignoreCase: bool, key: int, x: int): (r: bool)
    ensures r <==> Compare(Chosen(ignoreCase), key, x) == 0
  {
    x == key || (ignoreCase && IsLetter(key) && x == FlipCase(key))
  }

  /**
   * The edge whose test the emitted code reaches first among those that
   * accept x: emitByteCode emits a map's alternatives in keySet order
   * (StateMachine.java:77), ascending under the map's comparator, and the
   * first test that accepts wins.
   */
  function FirstAccepting(edges: seq<Edge>, cmp: Comparator, ignoreCase: bool, x: int): (r: Option<nat>)
    ensures r.Some? ==> r.value < |edges| && Accepts(ignoreCase, edges[r.value].key, x)
    ensures r.Some? ==> forall j :: 0 <= j < |edges| && Accepts(ignoreCase, edges[j].key, x) ==>
                                   Compare(cmp, edges[r.value].key, edges[j].key) <= 0
    ensures r.None? ==> forall j :: 0 <= j < |edges| ==> !Accepts(ignoreCase, edges[j].key, x)
    decreases |edges|
  {
    if |edges| == 0 then None
    else
      var r := FirstAccepting(edges[1..], cmp, ignoreCase, x);
      if !Accepts(ignoreCase, edges[0].key, x) then
        if r.Some? then Some(r.value + 1) else None
      else if r.Some? && Compare(cmp, edges[r.value + 1].key, edges[0].key) < 0 then Some(r.value + 1)
      else Some(0)
  }

  /** Two keys that match the same byte under the chosen comparator are the same key to it. */
  lemma SameKeyClass(ignoreCase: bool, a: int, b: int, x: int)
    requires Accepts(ignoreCase, a, x) && Accepts(ignoreCase, b, x)
    ensures Compare(Chosen(ignoreCase), a, b) == 0
  {
    if ignoreCase {
      assert FoldKey(a) == FoldKey(x) && FoldKey(b) == FoldKey(x);
    }
  }

  /**
   * In a map whose keys the chosen comparator tells apart, at most one
   * alternative accepts a byte, so the order of the tests does not matter
   * and the emitted code follows TreeMap.get.
   */
  lemma FirstAcceptingIsFind(edges: seq<Edge>, cmp: Comparator, ignoreCase: bool, x: int)
    requires KeysDistinct(edges, Chosen(ignoreCase))
    ensures FirstAccepting(edges, cmp, ignoreCase, x) == Find(edges, Chosen(ignoreCase), x)
  {
    var r := FirstAccepting(edges, cmp, ignoreCase, x);
    var f := Find(edges, Chosen(ignoreCase), x);
    if r.Some? && f.Some? && r.value != f.value {
      SameKeyClass(ignoreCase, edges[r.value].key, edges[f.value].key, x);
      assert false;
    }
  }

  datatype MatchResult = Underflow(pos: nat) | Matched(action: Action, pos: nat) | NoMatch

  /**
   * What the emitted code does from the map at p with the cursor at pos:
   * every byte read is preceded by the pos == lim check that runs the
   * underflow action; an accepted byte moves to that edge's state; a
   * terminal state whose next byte is a delimiter runs its action, leaving
   * the cursor on the delimiter; anything else falls out to the fail label.
   */
  function Run(t: Trie, ignoreCase: bool, delimiters: set<int>, p: Place, input: seq<int>, pos: nat): (r: MatchResult)
    requires pos <= |input|
    ensures r.Underflow? ==> r.pos == |input|
    ensures r.Matched? ==> pos <= r.pos < |input| && input[r.pos] in delimiters
    decreases |input| - pos
  {
    if pos == |input| then Underflow(pos)
    else
      var x := input[pos];
      var j := FirstAccepting(Edges(t, p), CmpAt(t, p), ignoreCase, x);
      if j.Some? then Run(t, ignoreCase, delimiters, At(Edges(t, p)[j.value].target), input, pos + 1)
      else if p.At? && p.index < |t.states| && t.states[p.index].action.Some? && x in delimiters then
        Matched(t.states[p.index].action.value, pos)
      else NoMatch
  }

  /** Reading a rule's bytes from the root follows the trie walk of that rule. */
  lemma {:induction false} RunAlongWalk(t: Trie, ignoreCase: bool, delimiters: set<int>, keys: seq<int>, input: seq<int>, k: nat)
    requires Valid(t) && t.rootCmp == Chosen(ignoreCase) && t.cmp == Chosen(ignoreCase)
    requires keys <= input && k <= |keys| && Walk(t, keys) != Missing
    ensures Run(t, ignoreCase, delimiters, Root, input, 0) == Run(t, ignoreCase, delimiters, Walk(t, keys[..k]), input, k)
    decreases k
  {
    if k > 0 {
      RunAlongWalk(t, ignoreCase, delimiters, keys, input, k - 1);
      WalkPrefixOnTrie(t, keys, k);
      var q := Walk(t, keys[..k - 1]);
      var x := keys[k - 1];
      assert keys[..k][..k - 1] == keys[..k - 1];
      assert Walk(t, keys[..k]) == Step(t, q, x);
      assert CmpAt(t, q) == Chosen(ignoreCase);
      assert q.At? ==> StateOk(t, q.index);
      FirstAcceptingIsFind(Edges(t, q), CmpAt(t, q), ignoreCase, x);
      var j := FirstAccepting(Edges(t, q), CmpAt(t, q), ignoreCase, x);
      assert j.Some? && Walk(t, keys[..k]) == At(Edges(t, q)[j.value].target);
      assert input[k - 1] == x;
      assert Run(t, ignoreCase, delimiters, q, input, k - 1) == Run(t, ignoreCase, delimiters, At(Edges(t, q)[j.value].target), input, k);
    } else {
      assert keys[..0] == [];
    }
  }

  /**
   * The matcher finds every rule: with the chosen comparator on every map,
   * a rule's text followed by a delimiter that no child of its state
   * accepts runs that state's action, with the cursor on the delimiter.
   */
  lemma RunFindsRule(t: Trie, ignoreCase: bool, delimiters: set<int>, text: string, d: int, rest: seq<int>)
    requires Valid(t) && t.rootCmp == Chosen(ignoreCase) && t.cmp == Chosen(ignoreCase)
    requires ActionOf(t, Keys(text)).Some?
    requires d in delimiters && FirstAccepting(Edges(t, Walk(t, Keys(text))), t.cmp, ignoreCase, d).None?
    ensures Run(t, ignoreCase, delimiters, Root, Keys(text) + [d] + rest, 0) == Matched(ActionOf(t, Keys(text)).value, |text|)
  {
    var keys := Keys(text);
    var input := keys + [d] + rest;
    assert keys <= input;
    RunAlongWalk(t, ignoreCase, delimiters, keys, input, |keys|);
    assert keys[..|keys|] == keys;
    assert input[|keys|] == d;
  }

  // ---------------------------------------------------------------------
  // The code as written
  // ---------------------------------------------------------------------

  /**
   * The trie for the single rule "ab" ignoring case, with the given root
   * comparator: emit's `new TreeMap<>()` at StateMachine.java:55 is the
   * natural order, the child maps get CASE_INSENSITIVE.
   */
  function AbTrie(rootCmp: Comparator): Trie {
    Trie([Edge(97, 0)], [State(97, None, [Edge(98, 1)]), State(98, Some(Action(1)), [])], rootCmp, CaseInsensitive)
  }

  /**
   * As written, the root map tells 'A' from 'a': the walk of "Ab" leaves the
   * trie, so by AddToState's contract a later rule "Ab" is not reported as a
   * duplicate of "ab", whereas "aB" (which differs below the root) would be.
   */
  lemma AsWrittenRootMissesCaseDuplicate()
    ensures Valid(AbTrie(NaturalOrder)) && ActionOf(AbTrie(NaturalOrder), Keys("ab")) == Some(Action(1))
    ensures Walk(AbTrie(NaturalOrder), Keys("Ab")) == Missing
    ensures Walk(AbTrie(NaturalOrder), Keys("aB")) == At(1)
  {
    var t := AbTrie(NaturalOrder);
    AbTrieValid(NaturalOrder);
    assert Keys("ab") == [97, 98];
    assert Keys("Ab") == [65, 98];
    assert Keys("aB") == [97, 66];
    WalkTwo(t, 97, 98);
    WalkTwo(t, 65, 98);
    WalkTwo(t, 97, 66);
    assert FoldKey(98) == 66 && FoldKey(66) == 66;
    assert Compare(CaseInsensitive, 98, 98) == 0 && Compare(CaseInsensitive, 98, 66) == 0;
    assert Compare(NaturalOrder, 97, 97) == 0 && Compare(NaturalOrder, 97, 65) != 0;
    assert Step(t, Root, 97) == At(0);
    assert Step(t, At(0), 98) == At(1);
    assert Step(t, At(0), 66) == At(1);
    assert Step(t, Root, 65) == Missing;
    assert Step(t, Missing, 98) == Missing;
  }

  /** The walks of one and two keys, step by step. */
  lemma WalkTwo(t: Trie, a: int, b: int)
    ensures Walk(t, [a]) == Step(t, Root, a)
    ensures Walk(t, [a, b]) == Step(t, Step(t, Root, a), b)
  {
    assert [a][..0] == [];
    assert [a, b][..1] == [a];
  }

  lemma AbTrieValid(rootCmp: Comparator)
    requires rootCmp == NaturalOrder || rootCmp == CaseInsensitive
    ensures Valid(AbTrie(rootCmp))
  {
    var t := AbTrie(rootCmp);
    assert StateOk(t, 0) && StateOk(t, 1);
  }

  /** With the chosen comparator on the root as well, "Ab" reaches the state of "ab", so it is reported as a duplicate. */
  lemma CorrectedRootReportsCaseDuplicate()
    ensures Valid(AbTrie(CaseInsensitive))
    ensures Walk(AbTrie(CaseInsensitive), Keys("Ab")) == At(1) && ActionOf(AbTrie(CaseInsensitive), Keys("Ab")) == Some(Action(1))
  {
    var t := AbTrie(CaseInsensitive);
    AbTrieValid(CaseInsensitive);
    assert Keys("Ab") == [65, 98];
    WalkTwo(t, 65, 98);
    assert Step(t, Root, 65) == At(0);
    assert Step(t, At(0), 98) == At(1);
  }

  /**
   * The trie emit builds, as written, from the rules "ab" (action 1) and
   * then "Ab" (action 2) ignoring case: the natural-order root keeps 'a'
   * and 'A' apart, so both rules get states.
   */
  function ShadowTrie(): Trie {
    Trie([Edge(97, 0), Edge(65, 2)],
         [State(97, None, [Edge(98, 1)]), State(98, Some(Action(1)), []),
          State(65, None, [Edge(98, 3)]), State(98, Some(Action(2)), [])],
         NaturalOrder, CaseInsensitive)
  }

  /** That trie is well formed, and the walk of "Ab" on it reaches the action of "Ab". */
  lemma ShadowTrieHoldsBothRules()
    ensures Valid(ShadowTrie()) && ActionOf(ShadowTrie(), Keys("Ab")) == Some(Action(2))
  {
    var t := ShadowTrie();
    ShadowTrieValid();
    assert Keys("Ab") == [65, 98];
    WalkTwo(t, 65, 98);
    assert Find(t.root, NaturalOrder, 65) == Some(1) by {
      assert Compare(NaturalOrder, 97, 65) != 0 && Compare(NaturalOrder, 65, 65) == 0;
      assert t.root[1..] == [Edge(65, 2)];
    }
    assert Step(t, Root, 65) == At(2);
    assert Compare(CaseInsensitive, 98, 98) == 0;
    assert Step(t, At(2), 98) == At(3);
  }

  lemma ShadowTrieValid()
    ensures Valid(ShadowTrie())
  {
    var t := ShadowTrie();
    assert EdgesWellFormed(t, t.root, t.rootCmp) by {
      assert Compare(NaturalOrder, 97, 65) != 0;
    }
    forall n: nat | n < |t.states|
      ensures StateOk(t, n)
    {
      assert |t.states[n].next| <= 1;
    }
  }

  /**
   * With the root as written, the inputs "ab " and "Ab " both run the action
   * of "Ab": the natural-order root emits the 'A' alternative before the
   * 'a' one (65 < 97), and that alternative accepts 'a' as well, so the
   * action of "ab" can never run.
   */
  lemma AsWrittenRootShadowsRule()
    ensures Run(ShadowTrie(), true, {32}, Root, Keys("ab") + [32], 0) == Matched(Action(2), 2)
    ensures Run(ShadowTrie(), true, {32}, Root, Keys("Ab") + [32], 0) == Matched(Action(2), 2)
  {
    assert Keys("ab") + [32] == [97, 98, 32];
    assert Keys("Ab") + [32] == [65, 98, 32];
    ShadowRunFrom(97);
    ShadowRunFrom(65);
  }

  /** On ShadowTrie, 'a' or 'A' followed by "b " reaches the state of "Ab" and runs its action. */
  lemma ShadowRunFrom(c: int)
    requires c == 97 || c == 65
    ensures Run(ShadowTrie(), true, {32}, Root, [c, 98, 32], 0) == Matched(Action(2), 2)
  {
    var t := ShadowTrie();
    var input := [c, 98, 32];
    ShadowRootPicksUpper(c);
    assert Run(t, true, {32}, Root, input, 0) == Run(t, true, {32}, At(2), input, 1);
    assert Edges(t, At(2)) == [Edge(98, 3)] && CmpAt(t, At(2)) == CaseInsensitive;
    assert FirstAccepting(Edges(t, At(2)), CaseInsensitive, true, 98) == Some(0);
    assert Run(t, true, {32}, At(2), input, 1) == Run(t, true, {32}, At(3), input, 2);
    assert Edges(t, At(3)) == [];
    assert Run(t, true, {32}, At(3), input, 2) == Matched(Action(2), 2);
  }

  /** The natural-order root of ShadowTrie takes its 'A' alternative for both 'a' and 'A'. */
  lemma ShadowRootPicksUpper(c: int)
    requires c == 97 || c == 65
    ensures FirstAccepting(ShadowTrie().root, NaturalOrder, true, c) == Some(1)
  {
    var root := ShadowTrie().root;
    assert root[1..] == [Edge(65, 2)];
    assert Accepts(true, 65, c) && Accepts(true, 97, c);
    assert FirstAccepting(root[1..], NaturalOrder, true, c) == Some(0);
    assert Compare(NaturalOrder, 65, 97) < 0;
  }

  /**
   * The test StateMachine.java:91-98 emits: with the input byte left under
   * it, iconst(b) and ifeq branch to the match when b is zero, and iconst
   * of the (flipped) key and ifne skip the alternative when that is not
   * zero.  The input byte is never compared.
   */
  function EmittedTestAsWritten(ignoreCase: bool, key: int, x: int): bool {
    if ignoreCase && IsLetter(key) then key == 0 || FlipCase(key) == 0 else key == 0
  }

  /** As written, an alternative is taken exactly when its key is the zero byte, whatever the input. */
  lemma EmittedTestAsWrittenIgnoresInput(ignoreCase: bool, key: int, x: int)
    ensures EmittedTestAsWritten(ignoreCase, key, x) <==> key == 0
    ensures !EmittedTestAsWritten(false, 97, 97) && Accepts(false, 97, 97)
  {
  }

  datatype EmitResult = Emitted | NullPointer

  /** char[] delimiters = null (StateMachine.java:68). */
  const AsWrittenDelimiters: Option<seq<int>> := None

  /** emitDelimCheck as written (StateMachine.java:67-72): the for-each over a null array throws. */
  function EmitDelimCheckAsWritten(delimiters: Option<seq<int>>): EmitResult {
    if delimiters.None? then NullPointer else Emitted
  }

  /** emitByteCode as written reaches emitDelimCheck at every state with an action (StateMachine.java:101-104). */
  function EmitAsWritten(t: Trie): EmitResult {
    if exists n :: 0 <= n < |t.states| && t.states[n].action.Some? then EmitDelimCheckAsWritten(AsWrittenDelimiters) else Emitted
  }

  /** As written, emitting any machine with a rule in it throws NullPointerException. */
  lemma EmitAsWrittenFailsForAnyRule(t: Trie, text: string)
    requires Valid(t) && ActionOf(t, Keys(text)).Some?
    ensures EmitAsWritten(t) == NullPointer
  {
    var p := Walk(t, Keys(text));
    assert t.states[p.index].action.Some?;
  }
}
