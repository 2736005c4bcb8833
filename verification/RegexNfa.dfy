/** The automaton a tree is wired into, and the proof that it accepts exactly the
    language of the tree. */
module RegexNfa {
  import opened Common
  import opened RegexTree
  import opened RegexWalk

  datatype Nfa = Nfa(nodes: seq<Token>, nexts: seq<int>, edests: seq<seq<int>>)

  /** From state i, the automaton can read all of w and stop in END_OF_RE, in at
      most k steps. */
  ghost predicate AcceptsIn(m: Nfa, i: int, w: Word, k: nat)
    decreases k
  {
    && 0 <= i < |m.nodes| && i < |m.nexts| && i < |m.edests|
    && (|| (m.nodes[i].EndOfRe? && w == [])
        || (k > 0 && IsEpsilon(m.nodes[i]) && exists e <- m.edests[i] :: AcceptsIn(m, e, w, k - 1))
        || (k > 0 && IsByteTest(m.nodes[i]) && w != [] && Matches(m.nodes[i], w[0])
            && AcceptsIn(m, m.nexts[i], w[1..], k - 1)))
  }

  ghost predicate Accepts(m: Nfa, i: int, w: Word) {
    exists k: nat :: AcceptsIn(m, i, w, k)
  }

  // ------------------------------------------------------------------
  // Where the passes put a tree in the automaton

  /** How many automaton nodes a tree needs: CONCAT needs none of its own. */
  ghost function Count(t: Tree): nat {
    match t
    case Nil => 0
    case Bin(_, tok, l, r) => Count(l) + Count(r) + if tok.Concat? then 0 else 1
  }

  /** The automaton node of a non-CONCAT tree laid out from `b`. */
  ghost function Own(t: Tree, b: nat): nat
    requires t.Bin?
  {
    b + Count(t.left) + Count(t.right)
  }

  /** The tree node at which matching of `t` begins. */
  ghost function FirstId(t: Tree): Ptr {
    if t.Nil? then NULL
    else if t.token.Concat? then FirstId(t.left)
    else t.id
  }

  /** The automaton node at which matching of `t` begins. */
  ghost function FirstIdx(t: Tree, b: nat): int {
    if t.Nil? then MISSING
    else if t.token.Concat? then FirstIdx(t.left, b)
    else Own(t, b)
  }

  /** The automaton nodes [b, b + Count(t)) implement t, and continue at node n
      when t has been matched. */
  ghost predicate Wired(m: Nfa, t: Tree, b: nat, n: int) {
    match t
    case Nil => true
    case Bin(_, tok, l, r) =>
      var rb := b + Count(l);
      if tok.Concat? then Wired(m, l, b, FirstIdx(r, rb)) && Wired(m, r, rb, n)
      else
        var i := Own(t, b);
        && i < |m.nodes| && i < |m.nexts| && i < |m.edests|
        && m.nodes[i] == tok
        && match tok {
             case OpDupAsterisk => m.edests[i] == Init2(FirstIdx(l, b), n) && Wired(m, l, b, i)
             case OpAlt =>
               && m.edests[i] == Init2(if l.Bin? then FirstIdx(l, b) else n, if r.Bin? then FirstIdx(r, rb) else n)
               && Wired(m, l, b, n) && Wired(m, r, rb, n)
             case OpOpenSubexp(_) => m.edests[i] == [n]
             case OpCloseSubexp(_) => m.edests[i] == [n]
             case EndOfRe => true
             case _ => m.nexts[i] == n
           }
  }

  /** The nodes from b on implement t, a tree as the first two passes leave it. */
  ghost predicate Implements(m: Nfa, t: Tree, b: nat, n: int) {
    WellFormed(t) && NoSubexp(t) && Wired(m, t, b, n)
  }

  /** State i exists in all three tables and holds `tok`. */
  ghost predicate Holds(m: Nfa, i: int, tok: Token) {
    0 <= i < |m.nodes| && i < |m.nexts| && i < |m.edests| && m.nodes[i] == tok
  }

  /** What `Implements` says of the root of a tree, and of its operands. */
  lemma Unfold(m: Nfa, t: Tree, b: nat, n: int)
    requires t.Bin? && Implements(m, t, b, n)
    ensures var l, r, rb, i := t.left, t.right, b + Count(t.left), Own(t, b);
            && (t.token.Concat? || Holds(m, i, t.token))
            && match t.token {
                 case Concat => l.Bin? && r.Bin? && Implements(m, l, b, FirstIdx(r, rb)) && Implements(m, r, rb, n)
                 case OpDupAsterisk =>
                   l.Bin? && r.Nil? && m.edests[i] == Init2(FirstIdx(l, b), n) && Implements(m, l, b, i)
                 case OpAlt =>
                   && m.edests[i] == Init2(if l.Bin? then FirstIdx(l, b) else n, if r.Bin? then FirstIdx(r, rb) else n)
                   && Implements(m, l, b, n) && Implements(m, r, rb, n)
                 case OpOpenSubexp(_) => l.Nil? && r.Nil? && m.edests[i] == [n]
                 case OpCloseSubexp(_) => l.Nil? && r.Nil? && m.edests[i] == [n]
                 case Subexp(_) => false
                 case EndOfRe => false
                 case _ => l.Nil? && r.Nil? && m.nexts[i] == n
               }
  {
  }

  // ------------------------------------------------------------------
  // Soundness: what the automaton reads is in the language

  /** Words of the two operands make a word of the concatenation, and iterates. */
  lemma Glue(id: nat, l: Tree, r: Tree, w: Word, i: nat, j: nat)
    requires i + j <= |w|
    ensures w[i + j..] == w[i..][j..]
    ensures InLang(l, w[..i]) && InLang(r, w[i..][..j]) ==> InLang(Bin(id, Concat, l, r), w[..i + j])
    ensures forall k: nat :: InLang(l, w[..i]) && InPower(l, w[i..][..j], k) ==> InPower(l, w[..i + j], k + 1)
  {
    assert w[..i + j][..i] == w[..i] && w[..i + j][i..] == w[i..][..j];
  }

  /** The first step out of a branching node. */
  lemma BranchStep(m: Nfa, i: int, a: int, b: int, w: Word, k: nat) returns (e: int)
    requires AcceptsIn(m, i, w, k) && IsEpsilon(m.nodes[i]) && m.edests[i] == Init2(a, b)
    ensures k > 0 && (e == a || e == b) && AcceptsIn(m, e, w, k - 1)
  {
    e :| e in m.edests[i] && AcceptsIn(m, e, w, k - 1);
  }

  /** An accepting run from the first node of t reads a word of t and then goes on
      accepting from t's continuation, in fewer steps. */
  lemma {:induction false} RunSplits(m: Nfa, t: Tree, b: nat, n: int, w: Word, k: nat) returns (i: nat, k': nat)
    requires t.Bin? && Implements(m, t, b, n)
    requires AcceptsIn(m, FirstIdx(t, b), w, k)
    ensures i <= |w| && k' < k && InLang(t, w[..i]) && AcceptsIn(m, n, w[i..], k')
    decreases k, t, 1
  {
    hide InLang, AcceptsIn, Implements;
    match t.token {
      case Concat => i, k' := CatSplits(m, t, b, n, w, k);
      case OpAlt => i, k' := AltSplits(m, t, b, n, w, k);
      case OpDupAsterisk => i, k' := StarSplits(m, t, b, n, w, k);
      case _ => i, k' := LeafSplits(m, t, b, n, w, k);
    }
  }

  lemma LeafSplits(m: Nfa, t: Tree, b: nat, n: int, w: Word, k: nat) returns (i: nat, k': nat)
    requires t.Bin? && Implements(m, t, b, n)
    requires !t.token.Concat? && !t.token.OpAlt? && !t.token.OpDupAsterisk?
    requires AcceptsIn(m, Own(t, b), w, k)
    ensures i <= |w| && k' < k && InLang(t, w[..i]) && AcceptsIn(m, n, w[i..], k')
  {
    hide Implements, Own;
    Unfold(m, t, b, n);
    i, k' := if IsByteTest(t.token) then 1 else 0, k - 1;
    assert w[0..] == w;
  }

  lemma {:induction false} CatSplits(m: Nfa, t: Tree, b: nat, n: int, w: Word, k: nat) returns (i: nat, k': nat)
    requires t.Bin? && t.token.Concat? && Implements(m, t, b, n)
    requires AcceptsIn(m, FirstIdx(t, b), w, k)
    ensures i <= |w| && k' < k && InLang(t, w[..i]) && AcceptsIn(m, n, w[i..], k')
    decreases k, t, 0
  {
    hide InLang, AcceptsIn, Implements;
    var l, r, rb := t.left, t.right, b + Count(t.left);
    Unfold(m, t, b, n);
    var i1, k1 := RunSplits(m, l, b, FirstIdx(r, rb), w, k);
    var i2, k2 := RunSplits(m, r, rb, n, w[i1..], k1);
    i, k' := i1 + i2, k2;
    Glue(t.id, l, r, w, i1, i2);
  }

  lemma {:induction false} AltSplits(m: Nfa, t: Tree, b: nat, n: int, w: Word, k: nat) returns (i: nat, k': nat)
    requires t.Bin? && t.token.OpAlt? && Implements(m, t, b, n)
    requires AcceptsIn(m, Own(t, b), w, k)
    ensures i <= |w| && k' < k && InLang(t, w[..i]) && AcceptsIn(m, n, w[i..], k')
    decreases k, t, 0
  {
    hide AcceptsIn, Implements, Own;
    var l, r, rb := t.left, t.right, b + Count(t.left);
    Unfold(m, t, b, n);
    var e := BranchStep(m, Own(t, b), if l.Bin? then FirstIdx(l, b) else n,
                        if r.Bin? then FirstIdx(r, rb) else n, w, k);
    if l.Bin? && e == FirstIdx(l, b) {
      i, k' := RunSplits(m, l, b, n, w, k - 1);
    } else if r.Bin? && e == FirstIdx(r, rb) {
      i, k' := RunSplits(m, r, rb, n, w, k - 1);
    } else {
      i, k' := 0, k - 1;
      assert w[0..] == w;
    }
  }

  lemma {:induction false} StarSplits(m: Nfa, t: Tree, b: nat, n: int, w: Word, k: nat) returns (i: nat, k': nat)
    requires t.Bin? && t.token.OpDupAsterisk? && Implements(m, t, b, n)
    requires AcceptsIn(m, Own(t, b), w, k)
    ensures i <= |w| && k' < k && InLang(t, w[..i]) && AcceptsIn(m, n, w[i..], k')
    decreases k, t, 0
  {
    hide InLang, AcceptsIn, Implements, Own;
    Unfold(m, t, b, n);
    var e := BranchStep(m, Own(t, b), FirstIdx(t.left, b), n, w, k);
    if e == n {
      i, k' := 0, k - 1;
      StarNone(t, w);
    } else {
      var i1, k1 := RunSplits(m, t.left, b, Own(t, b), w, k - 1);
      var i2, k2 := StarSplits(m, t, b, n, w[i1..], k1);
      i, k' := i1 + i2, k2;
      StarGlue(t, w, i1, i2);
      assert w[i..] == w[i1..][i2..];
    }
  }

  lemma StarNone(t: Tree, w: Word)
    requires t.Bin? && t.token.OpDupAsterisk?
    ensures w[..0] == [] && w[0..] == w && InLang(t, w[..0])
  {
    assert InPower(t.left, w[..0], 0);
  }

  lemma StarGlue(t: Tree, w: Word, i: nat, j: nat)
    requires t.Bin? && t.token.OpDupAsterisk? && i + j <= |w|
    requires InLang(t.left, w[..i]) && InLang(t, w[i..][..j])
    ensures InLang(t, w[..i + j])
  {
    Glue(t.id, t.left, Nil, w, i, j);
    var k: nat :| InPower(t.left, w[i..][..j], k);
    assert InPower(t.left, w[..i + j], k + 1);
  }

  // ------------------------------------------------------------------
  // Completeness: what is in the language, the automaton reads

  lemma {:induction false} MoreSteps(m: Nfa, i: int, w: Word, k: nat, k': nat)
    requires k <= k' && AcceptsIn(m, i, w, k)
    ensures AcceptsIn(m, i, w, k')
    decreases k
  {
    if m.nodes[i].EndOfRe? && w == [] {
    } else if IsEpsilon(m.nodes[i]) {
      var e :| e in m.edests[i] && AcceptsIn(m, e, w, k - 1);
      MoreSteps(m, e, w, k - 1, k' - 1);
    } else {
      MoreSteps(m, m.nexts[i], w[1..], k - 1, k' - 1);
    }
  }

  /** One epsilon step. */
  lemma EpsilonStep(m: Nfa, i: int, e: int, w: Word)
    requires 0 <= i < |m.nodes| && i < |m.nexts| && i < |m.edests|
    requires IsEpsilon(m.nodes[i]) && e in m.edests[i] && Accepts(m, e, w)
    ensures Accepts(m, i, w)
  {
    var k: nat :| AcceptsIn(m, e, w, k);
    assert AcceptsIn(m, i, w, k + 1);
  }

  /** One byte read. */
  lemma ByteStep(m: Nfa, i: int, c: Byte, w: Word)
    requires 0 <= i < |m.nodes| && i < |m.nexts| && i < |m.edests|
    requires Matches(m.nodes[i], c) && Accepts(m, m.nexts[i], w)
    ensures Accepts(m, i, [c] + w)
  {
    var k: nat :| AcceptsIn(m, m.nexts[i], w, k);
    assert ([c] + w)[1..] == w;
    assert AcceptsIn(m, i, [c] + w, k + 1);
  }

  lemma CutApart(u: Word, v: Word, i: nat)
    requires i <= |u|
    ensures u[..i] + (u[i..] + v) == u + v
  {
    assert u[..i] + u[i..] == u;
  }

  /** A word of t followed by a word accepted from t's continuation is accepted
      from the first node of t. */
  lemma {:induction false} RunJoins(m: Nfa, t: Tree, b: nat, n: int, u: Word, v: Word)
    requires t.Bin? && Implements(m, t, b, n)
    requires InLang(t, u) && Accepts(m, n, v)
    ensures Accepts(m, FirstIdx(t, b), u + v)
    decreases t, 2, 0
  {
    hide Accepts, Implements;
    if t.token.Concat? {
      CatJoins(m, t, b, n, u, v);
    } else if t.token.OpAlt? {
      AltJoins(m, t, b, n, u, v);
    } else if t.token.OpDupAsterisk? {
      var j: nat :| InPower(t.left, u, j);
      StarJoins(m, t, b, n, u, v, j);
    } else {
      LeafJoins(m, t, b, n, u, v);
    }
  }

  lemma LeafJoins(m: Nfa, t: Tree, b: nat, n: int, u: Word, v: Word)
    requires t.Bin? && Implements(m, t, b, n)
    requires !t.token.Concat? && !t.token.OpAlt? && !t.token.OpDupAsterisk?
    requires InLang(t, u) && Accepts(m, n, v)
    ensures Accepts(m, Own(t, b), u + v)
  {
    hide Accepts, Implements, Own;
    Unfold(m, t, b, n);
    if IsByteTest(t.token) {
      assert u == [u[0]];
      ByteStep(m, Own(t, b), u[0], v);
    } else {
      assert u + v == v;
      EpsilonStep(m, Own(t, b), n, u + v);
    }
  }

  lemma {:induction false} CatJoins(m: Nfa, t: Tree, b: nat, n: int, u: Word, v: Word)
    requires t.Bin? && t.token.Concat? && Implements(m, t, b, n)
    requires InLang(t, u) && Accepts(m, n, v)
    ensures Accepts(m, FirstIdx(t, b), u + v)
    decreases t, 1, 0
  {
    hide Accepts, Implements, InLang;
    var rb := b + Count(t.left);
    Unfold(m, t, b, n);
    var i := CatWords(t, u);
    RunJoins(m, t.right, rb, n, u[i..], v);
    RunJoins(m, t.left, b, FirstIdx(t.right, rb), u[..i], u[i..] + v);
    CutApart(u, v, i);
  }

  lemma CatWords(t: Tree, u: Word) returns (i: nat)
    requires t.Bin? && t.token.Concat? && InLang(t, u)
    ensures i <= |u| && InLang(t.left, u[..i]) && InLang(t.right, u[i..])
  {
    i :| 0 <= i <= |u| && InLang(t.left, u[..i]) && InLang(t.right, u[i..]);
  }

  lemma {:induction false} AltJoins(m: Nfa, t: Tree, b: nat, n: int, u: Word, v: Word)
    requires t.Bin? && t.token.OpAlt? && Implements(m, t, b, n)
    requires InLang(t, u) && Accepts(m, n, v)
    ensures Accepts(m, Own(t, b), u + v)
    decreases t, 1, 0
  {
    hide Accepts, Implements, Own;
    Unfold(m, t, b, n);
    var inLeft := InLang(t.left, u);
    var c, cb := if inLeft then t.left else t.right, if inLeft then b else b + Count(t.left);
    assert InLang(c, u);
    if c.Bin? {
      RunJoins(m, c, cb, n, u, v);
      EpsilonStep(m, Own(t, b), FirstIdx(c, cb), u + v);
    } else {
      assert u + v == v;
      EpsilonStep(m, Own(t, b), n, u + v);
    }
  }

  lemma {:induction false} StarJoins(m: Nfa, t: Tree, b: nat, n: int, u: Word, v: Word, j: nat)
    requires t.Bin? && t.token.OpDupAsterisk? && Implements(m, t, b, n)
    requires InPower(t.left, u, j) && Accepts(m, n, v)
    ensures Accepts(m, Own(t, b), u + v)
    decreases t.left, 3, j
  {
    hide Accepts, Implements, Own, InLang;
    Unfold(m, t, b, n);
    if j == 0 {
      assert u + v == v;
      EpsilonStep(m, Own(t, b), n, u + v);
    } else {
      var i :| 0 <= i <= |u| && InLang(t.left, u[..i]) && InPower(t.left, u[i..], j - 1);
      StarJoins(m, t, b, n, u[i..], v, j - 1);
      RunJoins(m, t.left, b, Own(t, b), u[..i], u[i..] + v);
      CutApart(u, v, i);
      EpsilonStep(m, Own(t, b), FirstIdx(t.left, b), u + v);
    }
  }

  // ------------------------------------------------------------------
  // The whole automaton

  /** A wired root accepts exactly its language. */
  lemma WiredAccepts(m: Nfa, t: Tree, w: Word)
    requires WellFormedRoot(t) && NoSubexp(t) && Wired(m, t, 0, MISSING)
    ensures Accepts(m, FirstIdx(t, 0), w) <==> InLang(t, w)
  {
    if t.token.EndOfRe? {
      assert InLang(t, w) ==> AcceptsIn(m, FirstIdx(t, 0), w, 0);
    } else {
      var l, r := t.left, t.right;
      var end := FirstIdx(r, Count(l));
      if InLang(t, w) {
        var i := CatWords(t, w);
        assert AcceptsIn(m, end, w[i..], 0);
        RunJoins(m, l, 0, end, w[..i], w[i..]);
        assert w[..i] + w[i..] == w;
      }
      if Accepts(m, FirstIdx(t, 0), w) {
        var k: nat :| AcceptsIn(m, FirstIdx(t, 0), w, k);
        var i, k' := RunSplits(m, l, 0, end, w, k);
        assert InLang(r, w[i..]);
      }
    }
  }

  // ------------------------------------------------------------------
  // The shape of the automaton

  /** An epsilon node has one or two destinations, in increasing order; a byte test has
      one successor; all of them exist. */
  ghost predicate EdgesOk(m: Nfa, i: nat) {
    && i < |m.nodes| && i < |m.nexts| && i < |m.edests|
    && (IsEpsilon(m.nodes[i]) ==>
          && 0 < |m.edests[i]| <= 2
          && (|m.edests[i]| == 2 ==> m.edests[i][0] < m.edests[i][1])
          && forall e <- m.edests[i] :: 0 <= e < |m.nodes|)
    && (IsByteTest(m.nodes[i]) ==> 0 <= m.nexts[i] < |m.nodes|)
    && (IsEpsilon(m.nodes[i]) || IsByteTest(m.nodes[i]) || m.nodes[i].EndOfRe?)
  }

  ghost predicate ProperNfa(m: Nfa) {
    && |m.nodes| == |m.nexts| == |m.edests|
    && forall i: nat :: i < |m.nodes| ==> EdgesOk(m, i)
  }

  lemma {:induction false} FirstInRange(t: Tree, b: nat)
    requires t.Bin? && WellFormed(t)
    ensures b <= FirstIdx(t, b) < b + Count(t)
  {
    if !t.token.Concat? {
    } else {
      FirstInRange(t.left, b);
    }
  }

  /** A tree takes the nodes of its operands and then, unless it is a CONCAT, its own. */
  lemma Extent(t: Tree, b: nat)
    requires t.Bin?
    ensures Count(t) == Count(t.left) + Count(t.right) + if t.token.Concat? then 0 else 1
    ensures Own(t, b) == b + Count(t.left) + Count(t.right)
  {
  }

  lemma {:induction false} WiredEdges(m: Nfa, t: Tree, b: nat, n: int)
    requires Implements(m, t, b, n)
    requires 0 <= n < |m.nodes| && b + Count(t) <= |m.nodes|
    ensures forall i: nat :: b <= i < b + Count(t) ==> EdgesOk(m, i)
  {
    hide EdgesOk, Implements, Own;
    if t.Nil? {
    } else {
      var l, r, rb := t.left, t.right, b + Count(t.left);
      Unfold(m, t, b, n);
      Extent(t, b);
      if t.token.Concat? {
        ImplementsFirst(m, r, rb, n);
        WiredEdges(m, l, b, FirstIdx(r, rb));
        WiredEdges(m, r, rb, n);
      } else if t.token.OpDupAsterisk? {
        WiredEdges(m, l, b, Own(t, b));
      } else if t.token.OpAlt? {
        WiredEdges(m, l, b, n);
        WiredEdges(m, r, rb, n);
      }
      WiredOwnEdges(m, t, b, n);
    }
  }

  lemma ImplementsFirst(m: Nfa, t: Tree, b: nat, n: int)
    requires t.Bin? && Implements(m, t, b, n)
    ensures b <= FirstIdx(t, b) < b + Count(t)
  {
    FirstInRange(t, b);
  }

  lemma WiredOwnEdges(m: Nfa, t: Tree, b: nat, n: int)
    requires t.Bin? && Implements(m, t, b, n)
    requires 0 <= n < |m.nodes| && b + Count(t) <= |m.nodes|
    ensures t.token.Concat? || EdgesOk(m, Own(t, b))
  {
    hide Implements, FirstIdx, Own;
    Unfold(m, t, b, n);
    Extent(t, b);
    if t.token.OpDupAsterisk? {
      ImplementsFirst(m, t.left, b, Own(t, b));
    } else if t.token.OpAlt? {
      if t.left.Bin? { ImplementsFirst(m, t.left, b, n); }
      if t.right.Bin? { ImplementsFirst(m, t.right, b + Count(t.left), n); }
    }
  }

  lemma WiredProper(m: Nfa, t: Tree)
    requires WellFormedRoot(t) && NoSubexp(t) && Wired(m, t, 0, MISSING)
    requires |m.nodes| == |m.nexts| == |m.edests| == Count(t)
    ensures ProperNfa(m) && 0 <= FirstIdx(t, 0) < |m.nodes|
  {
    if t.token.Concat? {
      FirstInRange(t.left, 0);
      WiredEdges(m, t.left, 0, FirstIdx(t.right, Count(t.left)));
    }
  }

  // ------------------------------------------------------------------
  // Where matches can still end

  /** Some word is accepted from state i. */
  ghost predicate Live(m: Nfa, i: int) {
    exists w: Word :: Accepts(m, i, w)
  }

  lemma LiveStep(m: Nfa, i: int, e: int)
    requires 0 <= i < |m.nodes| && i < |m.nexts| && i < |m.edests|
    requires IsEpsilon(m.nodes[i]) && e in m.edests[i] && Live(m, e)
    ensures Live(m, i)
  {
    var w: Word :| Accepts(m, e, w);
    EpsilonStep(m, i, e, w);
  }

  lemma LiveTest(m: Nfa, i: int)
    requires 0 <= i < |m.nodes| && i < |m.nexts| && i < |m.edests|
    requires IsByteTest(m.nodes[i]) && m.nodes[i] != SimpleBracket({}) && Live(m, m.nexts[i])
    ensures Live(m, i)
  {
    var w: Word :| Accepts(m, m.nexts[i], w);
    var c: Byte :| Matches(m.nodes[i], c) by {
      MatchesSome(m.nodes[i]);
    }
    ByteStep(m, i, c, w);
  }

  lemma MatchesSome(tok: Token)
    requires IsByteTest(tok) && tok != SimpleBracket({})
    ensures exists c: Byte :: Matches(tok, c)
  {
    if tok.SimpleBracket? {
      var c :| c in tok.sbcset;
      assert Matches(tok, c);
    } else {
      assert Matches(tok, if tok.Character? then tok.c else 0);
    }
  }

  /** Unless a bracket is empty, no node of a wired tree is a dead end. */
  lemma {:induction false} WiredLive(m: Nfa, t: Tree, b: nat, n: int)
    requires Implements(m, t, b, n) && NoEmptyBracket(t) && Live(m, n)
    ensures forall i: nat :: b <= i < b + Count(t) ==> Live(m, i)
  {
    hide Live, Implements, Own;
    if t.Nil? {
    } else {
      var l, r, rb := t.left, t.right, b + Count(t.left);
      Unfold(m, t, b, n);
      Extent(t, b);
      if t.token.Concat? {
        ImplementsFirst(m, r, rb, n);
        WiredLive(m, r, rb, n);
        WiredLive(m, l, b, FirstIdx(r, rb));
      } else if t.token.OpDupAsterisk? {
        LiveStep(m, Own(t, b), n);
        WiredLive(m, l, b, Own(t, b));
      } else if t.token.OpAlt? {
        WiredLive(m, l, b, n);
        WiredLive(m, r, rb, n);
        if l.Bin? { ImplementsFirst(m, l, b, n); }
        LiveStep(m, Own(t, b), if l.Bin? then FirstIdx(l, b) else n);
      } else if IsByteTest(t.token) {
        LiveTest(m, Own(t, b));
      } else {
        LiveStep(m, Own(t, b), n);
      }
    }
  }

  /** END_OF_RE stands only at the root. */
  lemma {:induction false} WiredInside(m: Nfa, t: Tree, b: nat, n: int)
    requires Implements(m, t, b, n) && b + Count(t) <= |m.nodes|
    ensures forall i: nat :: b <= i < b + Count(t) ==> !m.nodes[i].EndOfRe?
  {
    hide Implements, Own;
    if t.Nil? {
    } else {
      var l, r, rb := t.left, t.right, b + Count(t.left);
      Unfold(m, t, b, n);
      Extent(t, b);
      if t.token.Concat? {
        WiredInside(m, l, b, FirstIdx(r, rb));
        WiredInside(m, r, rb, n);
      } else if t.token.OpDupAsterisk? {
        WiredInside(m, l, b, Own(t, b));
      } else if t.token.OpAlt? {
        WiredInside(m, l, b, n);
        WiredInside(m, r, rb, n);
      }
    }
  }

  /** The last node, and no other, is END_OF_RE; and unless a bracket is empty, it can be
      reached from every node. */
  lemma WiredEnds(m: Nfa, t: Tree)
    requires WellFormedRoot(t) && NoSubexp(t) && Wired(m, t, 0, MISSING)
    requires |m.nodes| == |m.nexts| == |m.edests| == Count(t)
    ensures forall i: nat :: i < |m.nodes| ==> (m.nodes[i].EndOfRe? <==> i == |m.nodes| - 1)
    ensures NoEmptyBracket(t) ==> forall i: nat :: i < |m.nodes| ==> Live(m, i)
  {
    var last := |m.nodes| - 1;
    assert AcceptsIn(m, last, [], 0) && Accepts(m, last, []);
    if t.token.Concat? {
      WiredInside(m, t.left, 0, last);
      if NoEmptyBracket(t) {
        WiredLive(m, t.left, 0, last);
      }
    }
  }
}
