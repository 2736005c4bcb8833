/** The table of automaton states: one state for each context and node set. */
module RegexStates {
  import opened RegexTree
  import opened NodeSet

  type Context = bv4
  type Constraint = bv10

  const CONTEXT_WORD: Context := 1
  const CONTEXT_NEWLINE: Context := 2
  const CONTEXT_BEGBUF: Context := 4

  const PREV_WORD_CONSTRAINT: Constraint := 0x001
  const PREV_NOTWORD_CONSTRAINT: Constraint := 0x002
  const PREV_NEWLINE_CONSTRAINT: Constraint := 0x010
  const PREV_BEGBUF_CONSTRAINT: Constraint := 0x040

  /** NOT_SATISFY_PREV_CONSTRAINT */
  predicate NotSatisfyPrev(c: Constraint, context: Context) {
    || (c & PREV_WORD_CONSTRAINT != 0 && context & CONTEXT_WORD == 0)
    || (c & PREV_NOTWORD_CONSTRAINT != 0 && context & CONTEXT_WORD != 0)
    || (c & PREV_NEWLINE_CONSTRAINT != 0 && context & CONTEXT_NEWLINE == 0)
    || (c & PREV_BEGBUF_CONSTRAINT != 0 && context & CONTEXT_BEGBUF == 0)
  }

  /** A node of the automaton, as far as states are concerned. */
  datatype DfaNode = DfaNode(token: Token, constraint: Constraint)

  /** re_hashval_t is 32 bits wide. */
  const HASH_RANGE := 0x1_0000_0000

  function Sum(s: seq<int>): int {
    if s == [] then 0 else Sum(Front(s)) + Last(s)
  }

  /** calc_state_hash */
  function StateHash(nodes: seq<int>, context: Context): (h: nat)
    ensures h < HASH_RANGE
  {
    (|nodes| + context as int + Sum(nodes)) % HASH_RANGE
  }

  predicate Kept(dfa: seq<DfaNode>, n: int, context: Context) {
    0 <= n < |dfa| && !NotSatisfyPrev(dfa[n].constraint, context)
  }

  predicate Consumes(dfa: seq<DfaNode>, n: int) {
    0 <= n < |dfa| && !IsEpsilon(dfa[n].token)
  }

  /** The nodes whose constraint holds in the context, in order. */
  function Satisfied(dfa: seq<DfaNode>, nodes: seq<int>, context: Context): (r: seq<int>)
    ensures |r| <= |nodes|
  {
    if nodes == [] then []
    else Satisfied(dfa, Front(nodes), context) + if Kept(dfa, Last(nodes), context) then [Last(nodes)] else []
  }

  function NonEpsilon(dfa: seq<DfaNode>, nodes: seq<int>): seq<int> {
    if nodes == [] then []
    else NonEpsilon(dfa, Front(nodes)) + if Consumes(dfa, Last(nodes)) then [Last(nodes)] else []
  }

  /** A node is kept exactly when its constraint holds. */
  lemma {:induction false} SatisfiedMembers(dfa: seq<DfaNode>, nodes: seq<int>, context: Context)
    ensures forall n :: n in Satisfied(dfa, nodes, context) <==> n in nodes && Kept(dfa, n, context)
  {
    if nodes == [] {
    } else {
      assert nodes == Front(nodes) + [Last(nodes)];
      SatisfiedMembers(dfa, Front(nodes), context);
    }
  }

  lemma {:induction false} NonEpsilonMembers(dfa: seq<DfaNode>, nodes: seq<int>)
    ensures forall n :: n in NonEpsilon(dfa, nodes) <==> n in nodes && Consumes(dfa, n)
  {
    if nodes == [] {
    } else {
      assert nodes == Front(nodes) + [Last(nodes)];
      NonEpsilonMembers(dfa, Front(nodes));
    }
  }

  /** The order of the nodes is kept. */
  lemma {:induction false} SatisfiedStrict(dfa: seq<DfaNode>, nodes: seq<int>, context: Context)
    requires Strict(nodes)
    ensures Strict(Satisfied(dfa, nodes, context))
  {
    if nodes == [] {
    } else {
      var f := Front(nodes);
      var r := Satisfied(dfa, f, context);
      SatisfiedStrict(dfa, f, context);
      SatisfiedMembers(dfa, f, context);
      forall i | 0 <= i < |r| ensures r[i] < Last(nodes) {
        assert r[i] in r;
        assert r[i] in f;
        var k :| 0 <= k < |f| && f[k] == r[i];
        assert nodes[k] == f[k];
      }
    }
  }

  /** One node more. */
  lemma Snoc(dfa: seq<DfaNode>, nodes: seq<int>, i: nat, context: Context)
    requires i < |nodes|
    ensures Sum(nodes[..i + 1]) == Sum(nodes[..i]) + nodes[i]
    ensures Satisfied(dfa, nodes[..i + 1], context) ==
            Satisfied(dfa, nodes[..i], context) + if Kept(dfa, nodes[i], context) then [nodes[i]] else []
    ensures NonEpsilon(dfa, nodes[..i + 1]) ==
            NonEpsilon(dfa, nodes[..i]) + if Consumes(dfa, nodes[i]) then [nodes[i]] else []
  {
    assert Front(nodes[..i + 1]) == nodes[..i];
  }

  /** An unconstrained node is kept in every context. */
  lemma {:induction false} SatisfiedAll(dfa: seq<DfaNode>, nodes: seq<int>, context: Context)
    requires forall i :: 0 <= i < |nodes| ==> 0 <= nodes[i] < |dfa| && dfa[nodes[i]].constraint == 0
    ensures Satisfied(dfa, nodes, context) == nodes
  {
    if nodes == [] {
    } else {
      SatisfiedAll(dfa, Front(nodes), context);
      assert Kept(dfa, Last(nodes), context);
      assert nodes == Front(nodes) + [Last(nodes)];
    }
  }

  /** re_dfastate_t */
  class State {
    const hash: nat
    const nodes: seq<int>
    const nonEpsNodes: seq<int>
    const entranceNodes: seq<int>
    const context: Context
    const halt: bool
    const hasConstraint: bool

    constructor (hash: nat, nodes: seq<int>, nonEpsNodes: seq<int>, entranceNodes: seq<int>,
                 context: Context, halt: bool, hasConstraint: bool)
      ensures this.hash == hash && this.nodes == nodes && this.nonEpsNodes == nonEpsNodes
      ensures this.entranceNodes == entranceNodes && this.context == context
      ensures this.halt == halt && this.hasConstraint == hasConstraint
    {
      this.hash, this.nodes, this.nonEpsNodes := hash, nodes, nonEpsNodes;
      this.entranceNodes, this.context := entranceNodes, context;
      this.halt, this.hasConstraint := halt, hasConstraint;
    }
  }

  datatype Key = Key(nodes: seq<int>, context: Context)

  ghost function KeyOf(s: State): Key {
    Key(s.entranceNodes, s.context)
  }

  /** A state is what its key asks for. */
  ghost predicate WellMade(dfa: seq<DfaNode>, s: State) {
    && s.hash == StateHash(s.entranceNodes, s.context)
    && s.nodes == Satisfied(dfa, s.entranceNodes, s.context)
    && s.nonEpsNodes == NonEpsilon(dfa, s.nodes)
    && (s.halt <==> EndsBefore(dfa, s.entranceNodes, |s.entranceNodes|))
    && (s.hasConstraint <==> ConstrainedBefore(dfa, s.entranceNodes, |s.entranceNodes|))
  }

  predicate Ends(dfa: seq<DfaNode>, n: int) {
    0 <= n < |dfa| && dfa[n].token.EndOfRe?
  }

  predicate Constrained(dfa: seq<DfaNode>, n: int) {
    0 <= n < |dfa| && dfa[n].constraint != 0
  }

  /** One of the first i nodes is END_OF_RE. */
  ghost predicate EndsBefore(dfa: seq<DfaNode>, nodes: seq<int>, i: nat) {
    exists j :: 0 <= j < i <= |nodes| && Ends(dfa, nodes[j])
  }

  /** One of the first i nodes has a constraint. */
  ghost predicate ConstrainedBefore(dfa: seq<DfaNode>, nodes: seq<int>, i: nat) {
    exists j :: 0 <= j < i <= |nodes| && Constrained(dfa, nodes[j])
  }

  lemma FlagsSoFar(dfa: seq<DfaNode>, nodes: seq<int>)
    ensures !EndsBefore(dfa, nodes, 0) && !ConstrainedBefore(dfa, nodes, 0)
  {
  }

  lemma FlagsStep(dfa: seq<DfaNode>, nodes: seq<int>, i: nat)
    requires i < |nodes|
    ensures EndsBefore(dfa, nodes, i + 1) <==> EndsBefore(dfa, nodes, i) || Ends(dfa, nodes[i])
    ensures ConstrainedBefore(dfa, nodes, i + 1) <==> ConstrainedBefore(dfa, nodes, i) || Constrained(dfa, nodes[i])
  {
    if EndsBefore(dfa, nodes, i) {
      var j :| 0 <= j < i && Ends(dfa, nodes[j]);
      assert EndsBefore(dfa, nodes, i + 1);
    }
    if ConstrainedBefore(dfa, nodes, i) {
      var j :| 0 <= j < i && Constrained(dfa, nodes[j]);
      assert ConstrainedBefore(dfa, nodes, i + 1);
    }
  }

  // ------------------------------------------------------------------
  // What contexts and constraints mean

  /** What is known of the place before the next character: it follows a word character, a
      newline, the start or the end of the buffer. */
  function ContextAt(word: bool, newline: bool, begbuf: bool, endbuf: bool): Context {
    (if word then 1 else 0) | (if newline then 2 else 0) | (if begbuf then 4 else 0) | (if endbuf then 8 else 0)
  }

  /** The four constraints on what comes before, bit by bit; the other bits do not matter. */
  lemma ConstraintMeaning(c: Constraint, word: bool, newline: bool, begbuf: bool, endbuf: bool)
    ensures NotSatisfyPrev(c, ContextAt(word, newline, begbuf, endbuf)) <==>
            || (c & 0x001 != 0 && !word)
            || (c & 0x002 != 0 && word)
            || (c & 0x010 != 0 && !newline)
            || (c & 0x040 != 0 && !begbuf)
  {
    ContextBits(word, newline, begbuf, endbuf);
    hide ContextAt;
  }

  lemma ContextBits(word: bool, newline: bool, begbuf: bool, endbuf: bool)
    ensures var x := ContextAt(word, newline, begbuf, endbuf);
            (x & 1 != 0 <==> word) && (x & 2 != 0 <==> newline) && (x & 4 != 0 <==> begbuf)
  {
  }

  /** What the anchors ask of what comes before: inside and at the end of a word there is a
      word character, at its start and outside there is none; '^' wants a newline and the
      start of the buffer itself; the rest nothing. */
  lemma AnchorMeaning(word: bool, newline: bool, begbuf: bool, endbuf: bool)
    ensures var x := ContextAt(word, newline, begbuf, endbuf);
            && (!NotSatisfyPrev(0x005, x) <==> word) && (!NotSatisfyPrev(0x009, x) <==> word)
            && (!NotSatisfyPrev(0x006, x) <==> !word) && (!NotSatisfyPrev(0x00a, x) <==> !word)
            && (!NotSatisfyPrev(0x010, x) <==> newline) && (!NotSatisfyPrev(0x040, x) <==> begbuf)
            && !NotSatisfyPrev(0x020, x) && !NotSatisfyPrev(0x080, x)
            && !NotSatisfyPrev(0x100, x) && !NotSatisfyPrev(0x200, x)
  {
    hide NotSatisfyPrev, ContextAt;
    ConstraintMeaning(0x005, word, newline, begbuf, endbuf);
    ConstraintMeaning(0x006, word, newline, begbuf, endbuf);
    ConstraintMeaning(0x009, word, newline, begbuf, endbuf);
    ConstraintMeaning(0x00a, word, newline, begbuf, endbuf);
    ConstraintMeaning(0x010, word, newline, begbuf, endbuf);
    ConstraintMeaning(0x020, word, newline, begbuf, endbuf);
    ConstraintMeaning(0x040, word, newline, begbuf, endbuf);
    ConstraintMeaning(0x080, word, newline, begbuf, endbuf);
    ConstraintMeaning(0x100, word, newline, begbuf, endbuf);
    ConstraintMeaning(0x200, word, newline, begbuf, endbuf);
  }

  /** A state well made, spelled out: which of its entrance nodes it keeps, and its flags. */
  lemma StateMeaning(dfa: seq<DfaNode>, s: State, word: bool, newline: bool, begbuf: bool, endbuf: bool)
    requires WellMade(dfa, s) && s.context == ContextAt(word, newline, begbuf, endbuf) && InRange(dfa, s.entranceNodes)
    ensures forall n: nat :: n < |dfa| ==>
              (n in s.nodes <==>
                 && n in s.entranceNodes
                 && (dfa[n].constraint & 0x001 != 0 ==> word)
                 && (dfa[n].constraint & 0x002 != 0 ==> !word)
                 && (dfa[n].constraint & 0x010 != 0 ==> newline)
                 && (dfa[n].constraint & 0x040 != 0 ==> begbuf))
    ensures forall n: nat :: n < |dfa| ==>
              (n in s.nonEpsNodes <==>
                 && n in s.nodes
                 && var tok := dfa[n].token;
                 !tok.OpOpenSubexp? && !tok.OpCloseSubexp? && !tok.OpAlt? && !tok.OpDupAsterisk?)
    ensures s.halt <==> exists n: nat :: n < |dfa| && n in s.entranceNodes && dfa[n].token.EndOfRe?
    ensures s.hasConstraint <==> exists n: nat :: n < |dfa| && n in s.entranceNodes && dfa[n].constraint != 0
  {
    hide NotSatisfyPrev, ContextAt, Satisfied, NonEpsilon;
    SatisfiedMembers(dfa, s.entranceNodes, s.context);
    NonEpsilonMembers(dfa, s.nodes);
    forall n: nat | n < |dfa|
      ensures Kept(dfa, n, s.context) <==>
                 && (dfa[n].constraint & 0x001 != 0 ==> word)
                 && (dfa[n].constraint & 0x002 != 0 ==> !word)
                 && (dfa[n].constraint & 0x010 != 0 ==> newline)
                 && (dfa[n].constraint & 0x040 != 0 ==> begbuf)
    {
      ConstraintMeaning(dfa[n].constraint, word, newline, begbuf, endbuf);
    }
    var ns := s.entranceNodes;
    if s.halt {
      var j :| 0 <= j < |ns| && Ends(dfa, ns[j]);
      assert ns[j] in ns;
    }
    if s.hasConstraint {
      var j :| 0 <= j < |ns| && Constrained(dfa, ns[j]);
      assert ns[j] in ns;
    }
    if n: nat :| n < |dfa| && n in ns && dfa[n].token.EndOfRe? {
      var j :| 0 <= j < |ns| && ns[j] == n;
      assert Ends(dfa, ns[j]);
    }
    if n: nat :| n < |dfa| && n in ns && dfa[n].constraint != 0 {
      var j :| 0 <= j < |ns| && ns[j] == n;
      assert Constrained(dfa, ns[j]);
    }
  }

  ghost predicate InRange(dfa: seq<DfaNode>, nodes: seq<int>) {
    forall i :: 0 <= i < |nodes| ==> 0 <= nodes[i] < |dfa|
  }

  lemma UnconstrainedKept(context: Context)
    ensures !NotSatisfyPrev(0, context)
  {
  }

  lemma NoSum(nodes: seq<int>)
    ensures Sum(nodes[..0]) == 0
  {
  }

  lemma HashStep(h: nat, a: int, b: int)
    requires h == a % HASH_RANGE
    ensures (h + b) % HASH_RANGE == (a + b) % HASH_RANGE
  {
    var q := a / HASH_RANGE;
    assert a == q * HASH_RANGE + h;
    var q' := (h + b) / HASH_RANGE;
    assert h + b == q' * HASH_RANGE + (h + b) % HASH_RANGE;
    assert a + b == (q + q') * HASH_RANGE + (h + b) % HASH_RANGE;
  }

  /** calc_state_hash */
  method CalcStateHash(nodes: seq<int>, context: Context) returns (hash: nat)
    requires forall i :: 0 <= i < |nodes| ==> nodes[i] >= 0
    ensures hash == StateHash(nodes, context)
  {
    ghost var base := |nodes| + context as int;
    hash := (|nodes| + context as int) % HASH_RANGE;
    var i := 0;
    ghost var total := base;
    hide Sum;
    NoSum(nodes);
    while i < |nodes|
      invariant 0 <= i <= |nodes| && total == base + Sum(nodes[..i])
      invariant hash == total % HASH_RANGE
    {
      Snoc([], nodes, i, context);
      HashStep(hash, total, nodes[i]);
      total := total + nodes[i];
      hash := (hash + nodes[i]) % HASH_RANGE;
      i := i + 1;
    }
    assert nodes[..i] == nodes;
  }

  lemma RemoveNext(done: seq<int>, nodes: seq<int>, i: nat)
    requires i < |nodes|
    ensures (done + nodes[i..])[..|done|] + (done + nodes[i..])[|done| + 1..] == done + nodes[i + 1..]
    ensures done + nodes[i..] == (done + [nodes[i]]) + nodes[i + 1..]
    ensures done + [] == done
  {
  }

  /** One turn of the removal: the node is kept, or taken out. */
  lemma KeepStep(dfa: seq<DfaNode>, nodes: seq<int>, i: nat, context: Context)
    requires i < |nodes|
    ensures var done, next := Satisfied(dfa, nodes[..i], context), Satisfied(dfa, nodes[..i + 1], context);
            var kept := done + nodes[i..];
            if Kept(dfa, nodes[i], context) then kept == next + nodes[i + 1..] && |next| == |done| + 1
            else kept[..|done|] + kept[|done| + 1..] == next + nodes[i + 1..] && |next| == |done|
  {
    hide Satisfied, Kept, Sum, NonEpsilon;
    Snoc(dfa, nodes, i, context);
    RemoveNext(Satisfied(dfa, nodes[..i], context), nodes, i);
  }

  /** create_cd_newstate's loop: the nodes whose constraint fails are removed one by one
      from a copy of the set. */
  method KeepSatisfied(dfa: seq<DfaNode>, nodes: seq<int>, context: Context)
    returns (kept: seq<int>, halt: bool, hasConstraint: bool)
    requires InRange(dfa, nodes)
    ensures kept == Satisfied(dfa, nodes, context)
    ensures halt <==> EndsBefore(dfa, nodes, |nodes|)
    ensures hasConstraint <==> ConstrainedBefore(dfa, nodes, |nodes|)
  {
    FlagsSoFar(dfa, nodes);
    hide Satisfied, NotSatisfyPrev, EndsBefore, ConstrainedBefore;
    kept := nodes;
    var nctxNodes := 0;
    halt, hasConstraint := false, false;
    assert Satisfied(dfa, nodes[..0], context) == [] by { SatisfiedMembers(dfa, nodes[..0], context); }
    assert nodes[0..] == nodes;
    var i := 0;
    while i < |nodes|
      invariant 0 <= i <= |nodes|
      invariant kept == Satisfied(dfa, nodes[..i], context) + nodes[i..]
      invariant nctxNodes == i - |Satisfied(dfa, nodes[..i], context)|
      invariant halt <==> EndsBefore(dfa, nodes, i)
      invariant hasConstraint <==> ConstrainedBefore(dfa, nodes, i)
    {
      var n := nodes[i];
      KeepStep(dfa, nodes, i, context);
      UnconstrainedKept(context);
      FlagsStep(dfa, nodes, i);
      var token, constraint := dfa[n].token, dfa[n].constraint;
      if !(token.Character? && constraint == 0) {
        if token.EndOfRe? {
          halt := true;
        }
        if constraint != 0 {
          hasConstraint := true;
          if NotSatisfyPrev(constraint, context) {
            kept := kept[..i - nctxNodes] + kept[i - nctxNodes + 1..];
            nctxNodes := nctxNodes + 1;
          }
        }
      }
      i := i + 1;
    }
    assert nodes[..i] == nodes;
  }

  /** register_state: the nodes that consume a byte. */
  method CalcNonEps(dfa: seq<DfaNode>, nodes: seq<int>) returns (r: seq<int>)
    requires InRange(dfa, nodes)
    ensures r == NonEpsilon(dfa, nodes)
  {
    r := [];
    var i := 0;
    while i < |nodes|
      invariant 0 <= i <= |nodes|
      invariant r == NonEpsilon(dfa, nodes[..i])
    {
      Snoc(dfa, nodes, i, 0);
      if !IsEpsilon(dfa[nodes[i]].token) {
        r := r + [nodes[i]];
      }
      i := i + 1;
    }
    assert nodes[..i] == nodes;
  }

  /** create_cd_newstate */
  method CreateCdNewstate(dfa: seq<DfaNode>, nodes: seq<int>, context: Context, hash: nat) returns (s: State)
    requires InRange(dfa, nodes) && hash == StateHash(nodes, context)
    ensures fresh(s) && WellMade(dfa, s) && KeyOf(s) == Key(nodes, context)
  {
    var kept, halt, hasConstraint := KeepSatisfied(dfa, nodes, context);
    SatisfiedMembers(dfa, nodes, context);
    forall i | 0 <= i < |kept| ensures 0 <= kept[i] < |dfa| {
      assert Kept(dfa, kept[i], context);
    }
    var nonEps := CalcNonEps(dfa, kept);
    s := new State(hash, kept, nonEps, nodes, context, halt, hasConstraint);
  }

  /** state_table, with the nodes its states are made of. */
  class StateTable {
    const dfa: seq<DfaNode>
    var buckets: seq<seq<State>>

    /** Every state handed out so far, by what was asked for. */
    ghost var registry: map<Key, State>

    /** The bucket hash & state_hash_mask; the table size is a power of two. */
    function Bucket(hash: nat): (b: nat)
      reads this
      requires |buckets| > 0
      ensures b < |buckets|
    {
      hash % |buckets|
    }

    ghost predicate Valid()
      reads this
    {
      && |buckets| > 0
      && (forall k <- registry :: KeyOf(registry[k]) == k && registry[k] in buckets[Bucket(registry[k].hash)])
      && (forall b, s :: 0 <= b < |buckets| && s in buckets[b] ==>
            WellMade(dfa, s) && Bucket(s.hash) == b && KeyOf(s) in registry && registry[KeyOf(s)] == s)
    }

    /** init_dfa: an empty table of the given size. */
    constructor (dfa: seq<DfaNode>, size: nat)
      requires size > 0
      ensures Valid() && this.dfa == dfa && registry == map[]
    {
      this.dfa := dfa;
      buckets := seq(size, _ => []);
      registry := map[];
    }

    /** The search of one bucket. */
    method Lookup(nodes: seq<int>, context: Context, hash: nat) returns (r: State?)
      requires Valid() && hash == StateHash(nodes, context)
      ensures if Key(nodes, context) in registry then r == registry[Key(nodes, context)] else r == null
    {
      hide WellMade;
      var spot := buckets[Bucket(hash)];
      var i := 0;
      while i < |spot|
        invariant 0 <= i <= |spot|
        invariant forall j :: 0 <= j < i ==> KeyOf(spot[j]) != Key(nodes, context) || spot[j].hash != hash
      {
        var state := spot[i];
        if state.hash == hash && state.context == context && state.entranceNodes == nodes {
          assert state in spot && KeyOf(state) == Key(nodes, context);
          return state;
        }
        i := i + 1;
      }
      AlreadyThere(nodes, context, hash);
      r := null;
    }

    lemma AlreadyThere(nodes: seq<int>, context: Context, hash: nat)
      requires Valid() && hash == StateHash(nodes, context)
      ensures Key(nodes, context) in registry ==>
                exists j :: 0 <= j < |buckets[Bucket(hash)]| &&
                  KeyOf(buckets[Bucket(hash)][j]) == Key(nodes, context) && buckets[Bucket(hash)][j].hash == hash
    {
      if Key(nodes, context) in registry {
        var s := registry[Key(nodes, context)];
        assert s in buckets[Bucket(s.hash)];
        assert WellMade(dfa, s);
      }
    }

    /** register_state: the new state goes to the end of its bucket. */
    method Register(s: State)
      requires Valid() && WellMade(dfa, s) && KeyOf(s) !in registry
      modifies this
      ensures Valid() && registry == old(registry)[KeyOf(s) := s]
    {
      hide WellMade, KeyOf;
      var b := Bucket(s.hash);
      buckets := buckets[b := buckets[b] + [s]];
      registry := registry[KeyOf(s) := s];
    }

    /** re_acquire_state_context: NULL for the empty set, else the one state for this
        context and node set, made now if it was never asked for. */
    method AcquireStateContext(nodes: seq<int>, context: Context) returns (r: State?)
      requires Valid() && InRange(dfa, nodes)
      modifies this
      ensures Valid()
      ensures nodes == [] ==> r == null && registry == old(registry)
      ensures nodes != [] ==>
                && r != null && WellMade(dfa, r) && KeyOf(r) == Key(nodes, context)
                && registry == old(registry)[Key(nodes, context) := r]
                && (Key(nodes, context) in old(registry) ==> registry == old(registry))
    {
      hide WellMade, StateHash;
      if |nodes| == 0 {
        return null;
      }
      var hash := CalcStateHash(nodes, context);
      var found := Lookup(nodes, context, hash);
      if found != null {
        return found;
      }
      var s := CreateCdNewstate(dfa, nodes, context, hash);
      Register(s);
      r := s;
    }

    lemma RegisteredUnderItsKey(k: Key)
      requires Valid() && k in registry
      ensures KeyOf(registry[k]) == k
    {
    }

    /** Any run of requests: two of them get the same state if and only if they ask for the
        same context and node set. */
    method AcquireAll(requests: seq<Key>) returns (states: seq<State?>)
      requires Valid() && forall i :: 0 <= i < |requests| ==> InRange(dfa, requests[i].nodes)
      modifies this
      ensures Valid() && |states| == |requests|
      ensures forall i :: 0 <= i < |requests| ==> (states[i] == null <==> requests[i].nodes == [])
      ensures forall i, j | 0 <= i < |requests| && 0 <= j < |requests| ::
                requests[i].nodes != [] && requests[j].nodes != [] ==>
                (states[i] == states[j] <==> requests[i] == requests[j])
    {
      hide WellMade, InRange, Valid;
      states := [];
      var n := 0;
      while n < |requests|
        invariant 0 <= n <= |requests| && |states| == n && Valid()
        invariant forall i :: 0 <= i < n ==> (states[i] == null <==> requests[i].nodes == [])
        invariant forall i :: 0 <= i < n && requests[i].nodes != [] ==>
                    requests[i] in registry && registry[requests[i]] == states[i]
      {
        var s := AcquireStateContext(requests[n].nodes, requests[n].context);
        assert Key(requests[n].nodes, requests[n].context) == requests[n];
        states := states + [s];
        n := n + 1;
      }
      forall i, j | 0 <= i < |requests| && 0 <= j < |requests| && requests[i].nodes != [] && requests[j].nodes != []
        ensures states[i] == states[j] <==> requests[i] == requests[j]
      {
        RegisteredUnderItsKey(requests[i]);
        RegisteredUnderItsKey(requests[j]);
      }
    }
  }
}
