/** The first-byte filter, and the whole compilation from parse tree to filter. */
module RegexFastmap {
  import opened Common
  import opened RegexTree
  import opened RegexWalk
  import opened RegexNfa
  import opened RegexBuild
  import opened RegexGroups
  import opened RegexCompile
  import opened RegexClosure
  import opened RegexStates

  const SBC_MAX := 256
  const BITSET_WORDS := SBC_MAX / BITSET_WORD_BITS

  /** A match beginning in state node n can begin with byte c, or be empty. */
  predicate Starts(nodes: seq<Token>, n: int, c: Byte) {
    0 <= n < |nodes| && (Matches(nodes[n], c) || nodes[n].EndOfRe?)
  }

  ghost predicate StartsBefore(nodes: seq<Token>, init: seq<int>, i: nat, c: Byte) {
    exists j :: 0 <= j < i <= |init| && Starts(nodes, init[j], c)
  }

  lemma StartsStep(nodes: seq<Token>, init: seq<int>, i: nat, c: Byte)
    requires i < |init|
    ensures StartsBefore(nodes, init, i + 1, c) <==> StartsBefore(nodes, init, i, c) || Starts(nodes, init[i], c)
  {
    if StartsBefore(nodes, init, i, c) {
      var j :| 0 <= j < i && Starts(nodes, init[j], c);
      assert StartsBefore(nodes, init, i + 1, c);
    }
  }

  /** memset (fastmap, '\1', SBC_MAX) */
  method SetAll(fastmap: array<bool>, value: bool)
    requires fastmap.Length == SBC_MAX
    modifies fastmap
    ensures forall c :: 0 <= c < SBC_MAX ==> fastmap[c] == value
  {
    var i := 0;
    while i < SBC_MAX
      invariant 0 <= i <= SBC_MAX
      invariant forall c :: 0 <= c < i ==> fastmap[c] == value
    {
      fastmap[i] := value;
      i := i + 1;
    }
  }

  /** The bytes of a bracket, word by word and bit by bit. */
  method SetBracket(fastmap: array<bool>, sbcset: set<Byte>)
    requires fastmap.Length == SBC_MAX
    modifies fastmap
    ensures forall c :: 0 <= c < SBC_MAX ==> (fastmap[c] <==> old(fastmap[c]) || c in sbcset)
  {
    var i, ch := 0, 0;
    while i < BITSET_WORDS
      invariant 0 <= i <= BITSET_WORDS && ch == i * BITSET_WORD_BITS
      invariant forall c :: 0 <= c < SBC_MAX ==> (fastmap[c] <==> old(fastmap[c]) || (c < ch && c in sbcset))
    {
      var j := 0;
      while j < BITSET_WORD_BITS
        invariant 0 <= j <= BITSET_WORD_BITS && ch == i * BITSET_WORD_BITS + j
        invariant forall c :: 0 <= c < SBC_MAX ==> (fastmap[c] <==> old(fastmap[c]) || (c < ch && c in sbcset))
      {
        if ch in sbcset {
          fastmap[ch] := true;
        }
        j, ch := j + 1, ch + 1;
      }
      i := i + 1;
    }
  }

  /** re_compile_fastmap_iter, single-byte and case-sensitive: a byte is marked exactly
      when some node of the state tests for it, or when the state can end a match. */
  method CompileFastmapIter(fastmap: array<bool>, nodes: seq<Token>, init: seq<int>) returns (canBeNull: bool)
    requires fastmap.Length == SBC_MAX && forall i :: 0 <= i < |init| ==> 0 <= init[i] < |nodes|
    modifies fastmap
    ensures forall c :: 0 <= c < SBC_MAX ==> (fastmap[c] <==> old(fastmap[c]) || StartsBefore(nodes, init, |init|, c))
    ensures canBeNull <==> exists i :: 0 <= i < |init| && nodes[init[i]].EndOfRe? &&
                             forall j :: 0 <= j < i ==> !nodes[init[j]].OpPeriod?
  {
    canBeNull := false;
    var cnt := 0;
    while cnt < |init|
      invariant 0 <= cnt <= |init| && !canBeNull
      invariant forall j :: 0 <= j < cnt ==> !nodes[init[j]].OpPeriod? && !nodes[init[j]].EndOfRe?
      invariant forall c :: 0 <= c < SBC_MAX ==> (fastmap[c] <==> old(fastmap[c]) || StartsBefore(nodes, init, cnt, c))
    {
      var node := init[cnt];
      forall c | 0 <= c < SBC_MAX
        ensures StartsBefore(nodes, init, cnt + 1, c) <==> StartsBefore(nodes, init, cnt, c) || Starts(nodes, node, c)
      {
        StartsStep(nodes, init, cnt, c);
      }
      match nodes[node] {
        case Character(c) => fastmap[c] := true;
        case SimpleBracket(s) => SetBracket(fastmap, s);
        case OpPeriod =>
          SetAll(fastmap, true);
          AllStart(nodes, init, cnt);
          return;
        case EndOfRe =>
          SetAll(fastmap, true);
          AllStart(nodes, init, cnt);
          canBeNull := true;
          return;
        case _ =>
      }
      cnt := cnt + 1;
    }
  }

  lemma AllStart(nodes: seq<Token>, init: seq<int>, i: nat)
    requires i < |init| && 0 <= init[i] < |nodes| && (nodes[init[i]].OpPeriod? || nodes[init[i]].EndOfRe?)
    ensures forall c :: 0 <= c < SBC_MAX ==> StartsBefore(nodes, init, |init|, c)
  {
    forall c | 0 <= c < SBC_MAX ensures StartsBefore(nodes, init, |init|, c) {
      assert Starts(nodes, init[i], c);
    }
  }

  // ------------------------------------------------------------------
  // Why the filter is sound

  /** An accepting run first leaves the epsilon closure through a test of the first byte,
      or ends in it. */
  lemma {:induction false} FirstByte(m: Nfa, i: int, w: Word, k: nat) returns (j: int)
    requires AcceptsIn(m, i, w, k)
    ensures Reach(m, i, j) && 0 <= j < |m.nodes|
    ensures if w == [] then m.nodes[j].EndOfRe? else Starts(m.nodes, j, w[0])
    decreases k
  {
    if IsEpsilon(m.nodes[i]) {
      var e :| e in m.edests[i] && AcceptsIn(m, e, w, k - 1);
      j := FirstByte(m, e, w, k - 1);
      ReachStep(m, i, e, j);
    } else {
      j := i;
      ReachSelf(m, i);
    }
  }

  /** The first byte of an accepted word is marked, and so is every byte if the empty word
      is accepted. */
  lemma AcceptedMarked(m: Nfa, first: int, closure: seq<int>, c: Byte, w: Word)
    requires IsClosure(m, first, closure) && Accepts(m, first, w) && (w == [] || w[0] == c)
    ensures StartsBefore(m.nodes, closure, |closure|, c)
  {
    var k: nat :| AcceptsIn(m, first, w, k);
    var j := FirstByte(m, first, w, k);
    assert j in closure;
    var x :| 0 <= x < |closure| && closure[x] == j;
    assert Starts(m.nodes, closure[x], c);
  }

  /** If byte c is not marked, nothing that starts with c is accepted, and neither is the
      empty word. */
  lemma UnmarkedRejected(m: Nfa, first: int, closure: seq<int>, c: Byte, w: Word)
    requires IsClosure(m, first, closure)
    requires !StartsBefore(m.nodes, closure, |closure|, c)
    requires w == [] || w[0] == c
    ensures !Accepts(m, first, w)
  {
    if Accepts(m, first, w) {
      AcceptedMarked(m, first, closure, c, w);
    }
  }

  /** create_initial_state: the state of the closure of the first node. */
  method CreateInitialState(closures: Closures, table: StateTable, first: int) returns (s: State?)
    requires 0 <= first < |closures.eclosures| && closures.eclosures[first].Computed?
    requires IsClosure(closures.m, first, closures.eclosures[first].elems)
    requires table.Valid() && |table.dfa| == |closures.m.nodes|
    requires forall n :: 0 <= n < |table.dfa| ==> table.dfa[n].constraint == 0
    modifies table
    ensures s != null && s.nodes == closures.eclosures[first].elems && !s.hasConstraint
  {
    var initNodes := closures.eclosures[first].elems;
    forall i | 0 <= i < |initNodes| ensures 0 <= initNodes[i] < |table.dfa| {
      assert initNodes[i] in initNodes;
      ReachInRange(closures.m, first, initNodes[i]);
    }
    s := table.AcquireStateContext(initNodes, 0);
    SatisfiedAll(table.dfa, initNodes, 0);
  }

  // ------------------------------------------------------------------
  // Why it is exact

  /** What is accepted at the end of an epsilon path is accepted at its start. */
  lemma {:induction false} PathAccepts(m: Nfa, i: int, j: int, k: nat, w: Word)
    requires Path(m, i, j, {}, k) && ProperNfa(m) && Accepts(m, j, w)
    ensures Accepts(m, i, w)
    decreases k
  {
    if i == j {
    } else {
      var e :| e in m.edests[i] && Path(m, e, j, {}, k - 1);
      PathAccepts(m, e, j, k - 1, w);
      EpsilonStep(m, i, e, w);
    }
  }

  lemma ReachAccepts(m: Nfa, i: int, j: int, w: Word)
    requires Reach(m, i, j) && ProperNfa(m) && Accepts(m, j, w)
    ensures Accepts(m, i, w)
  {
    var k: nat :| Path(m, i, j, {}, k);
    PathAccepts(m, i, j, k, w);
  }

  /** If no node is a dead end, a marked byte begins an accepted word, unless the empty
      word is accepted. */
  lemma MarkedStarts(m: Nfa, first: int, closure: seq<int>, c: Byte)
    requires IsClosure(m, first, closure) && ProperNfa(m)
    requires forall i: nat :: i < |m.nodes| ==> Live(m, i)
    requires StartsBefore(m.nodes, closure, |closure|, c)
    ensures Accepts(m, first, []) || exists w: Word :: Accepts(m, first, [c] + w)
  {
    var x :| 0 <= x < |closure| && Starts(m.nodes, closure[x], c);
    var j := closure[x];
    assert j in closure && EdgesOk(m, j);
    if m.nodes[j].EndOfRe? {
      assert AcceptsIn(m, j, [], 0);
      ReachAccepts(m, first, j, []);
    } else {
      assert Live(m, m.nexts[j]);
      var w: Word :| Accepts(m, m.nexts[j], w);
      ByteStep(m, j, c, w);
      ReachAccepts(m, first, j, [c] + w);
    }
  }

  /** The empty word is accepted exactly when END_OF_RE is in the closure. */
  lemma EmptyAccepted(m: Nfa, first: int, closure: seq<int>)
    requires IsClosure(m, first, closure) && ProperNfa(m)
    requires forall i :: 0 <= i < |closure| ==> 0 <= closure[i] < |m.nodes|
    ensures Accepts(m, first, []) <==> exists i :: 0 <= i < |closure| && m.nodes[closure[i]].EndOfRe?
  {
    if Accepts(m, first, []) {
      var k: nat :| AcceptsIn(m, first, [], k);
      var j := FirstByte(m, first, [], k);
      assert j in closure;
      var x :| 0 <= x < |closure| && closure[x] == j;
      assert m.nodes[closure[x]].EndOfRe?;
    }
    if i :| 0 <= i < |closure| && m.nodes[closure[i]].EndOfRe? {
      assert closure[i] in closure && AcceptsIn(m, closure[i], [], 0);
      ReachAccepts(m, first, closure[i], []);
    }
  }

  /** No period can be the first node a match tests. */
  ghost predicate NoLeadingPeriod(m: Nfa, first: int) {
    forall j: nat :: j < |m.nodes| && Reach(m, first, j) ==> !m.nodes[j].OpPeriod?
  }

  /** The scan of the closure meets END_OF_RE last, if at all. */
  lemma ScanStops(m: Nfa, first: int, closure: seq<int>, t: Tree)
    requires IsClosure(m, first, closure) && Compiled(m, first, t)
    requires forall i :: 0 <= i < |closure| ==> 0 <= closure[i] < |m.nodes|
    ensures (exists i :: 0 <= i < |closure| && m.nodes[closure[i]].EndOfRe? &&
                         forall j :: 0 <= j < i ==> !m.nodes[closure[j]].OpPeriod?)
            <==> InLang(t, []) && NoLeadingPeriod(m, first)
  {
    EmptyAccepted(m, first, closure);
    if i :| 0 <= i < |closure| && m.nodes[closure[i]].EndOfRe? &&
            forall j :: 0 <= j < i ==> !m.nodes[closure[j]].OpPeriod? {
      forall j: nat | j < |m.nodes| && Reach(m, first, j) ensures !m.nodes[j].OpPeriod? {
        assert j in closure;
        var x :| 0 <= x < |closure| && closure[x] == j;
        assert x > i ==> closure[x] >= closure[i];
      }
    }
    if Accepts(m, first, []) && NoLeadingPeriod(m, first) {
      var i :| 0 <= i < |closure| && m.nodes[closure[i]].EndOfRe?;
      forall j | 0 <= j < i ensures !m.nodes[closure[j]].OpPeriod? {
        assert closure[j] in closure;
      }
    }
  }

  lemma CompiledEdges(m: Nfa, first: int, t: Tree)
    requires Compiled(m, first, t)
    ensures EdgesInRange(m) && 0 <= first < |m.nodes|
  {
    forall i: nat, e | i < |m.nodes| && IsEpsilon(m.nodes[i]) && e in m.edests[i] ensures 0 <= e < |m.nodes| {
      assert EdgesOk(m, i);
    }
  }

  /** From the parse tree to the first-byte filter: if the filter does not mark byte c, no
      prefix of any string that starts with c is in the language of the expression.
      Conversely, unless a bracket matches nothing, a marked byte begins a word of the
      language or the empty word is one. */
  method CompilePattern(dfa: ReDfa, strTree: Ptr, reNsub: nat, tableSize: nat, fastmap: array<bool>, ghost t: Tree)
    returns (canBeNull: bool, initNode: int)
    requires WellFormedRoot(t) && Distinct(t) && Models(dfa.tree, t, NULL) && strTree == t.id
    requires SubexpsBelow(t, reNsub) && dfa.tree[strTree].next == NULL
    requires dfa.nodes == [] && dfa.nexts == [] && dfa.edests == []
    requires fastmap.Length == SBC_MAX && tableSize > 0
    modifies dfa, fastmap
    ensures forall c: Byte, w: Word, k: nat :: !fastmap[c] && w != [] && w[0] == c && k <= |w| ==> !InLang(t, w[..k])
    ensures NoEmptyBracket(t) ==>
              forall c: Byte :: fastmap[c] <==> InLang(t, []) || exists w: Word :: InLang(t, [c] + w)
    ensures Compiled(NfaOf(dfa.State()), initNode, t)
    ensures canBeNull <==> InLang(t, []) && NoLeadingPeriod(NfaOf(dfa.State()), initNode)
  {
    hide Compiled, InLang, Accepts, Reach, StartsBefore, NoLeadingPeriod;
    initNode := dfa.Analyze(strTree, reNsub, t);
    ghost var m := NfaOf(dfa.State());
    CompiledEdges(m, initNode, t);
    var closures := new Closures(Nfa(dfa.nodes, dfa.nexts, dfa.edests));
    closures.CalcEclosure();
    var nodes := dfa.nodes;
    var table := new StateTable(seq(|nodes|, n requires 0 <= n < |nodes| => DfaNode(nodes[n], 0)), tableSize);
    var s := CreateInitialState(closures, table, initNode);
    ghost var closure := closures.eclosures[initNode].elems;
    SetAll(fastmap, false);
    ClosureInRange(m, initNode, closure);
    canBeNull := CompileFastmapIter(fastmap, nodes, s.nodes);
    FilterExact(m, initNode, closure, t);
    ScanStops(m, initNode, closure, t);
  }

  lemma ClosureInRange(m: Nfa, first: int, closure: seq<int>)
    requires IsClosure(m, first, closure)
    ensures forall i :: 0 <= i < |closure| ==> 0 <= closure[i] < |m.nodes|
  {
    forall i | 0 <= i < |closure| ensures 0 <= closure[i] < |m.nodes| {
      assert closure[i] in closure;
      ReachInRange(m, first, closure[i]);
    }
  }

  /** What the marks say about the language. */
  lemma FilterExact(m: Nfa, first: int, closure: seq<int>, t: Tree)
    requires Compiled(m, first, t) && IsClosure(m, first, closure)
    ensures forall c: Byte, w: Word, k: nat ::
              !StartsBefore(m.nodes, closure, |closure|, c) && w != [] && w[0] == c && k <= |w| ==> !InLang(t, w[..k])
    ensures NoEmptyBracket(t) ==>
              forall c: Byte :: StartsBefore(m.nodes, closure, |closure|, c) <==>
                                  InLang(t, []) || exists w: Word :: InLang(t, [c] + w)
  {
    hide InLang, AcceptsIn, Reach;
    forall c: Byte, w: Word, k: nat
      | !StartsBefore(m.nodes, closure, |closure|, c) && w != [] && w[0] == c && k <= |w|
      ensures !InLang(t, w[..k])
    {
      UnmarkedRejected(m, first, closure, c, w[..k]);
    }
    if NoEmptyBracket(t) {
      forall c: Byte
        ensures StartsBefore(m.nodes, closure, |closure|, c) <==> InLang(t, []) || exists w: Word :: InLang(t, [c] + w)
      {
        if StartsBefore(m.nodes, closure, |closure|, c) {
          MarkedStarts(m, first, closure, c);
          if w: Word :| Accepts(m, first, [c] + w) {
            assert InLang(t, [c] + w);
          }
        } else {
          UnmarkedRejected(m, first, closure, c, []);
          forall w: Word ensures !InLang(t, [c] + w) {
            UnmarkedRejected(m, first, closure, c, [c] + w);
          }
        }
      }
    }
  }
}
