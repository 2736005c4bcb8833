/** The three passes that turn the lowered tree into an automaton: FIRST (postorder),
    NEXT and the linking of the automaton nodes (preorder). */
module RegexBuild {
  import opened RegexTree
  import opened RegexWalk
  import opened RegexNfa

  /** Every CONCAT has two operands and every '*' has one. */
  ghost predicate Operands(t: Tree) {
    match t
    case Nil => true
    case Bin(_, tok, l, r) =>
      && Operands(l) && Operands(r)
      && (tok.Concat? ==> l.Bin? && r.Bin?)
      && (tok.OpDupAsterisk? ==> l.Bin? && r.Nil?)
  }

  lemma {:induction false} WellFormedOperands(t: Tree)
    requires WellFormed(t)
    ensures Operands(t)
  {
    if t.Nil? {
    } else {
      WellFormedOperands(t.left);
      WellFormedOperands(t.right);
    }
  }

  lemma OperandsParts(t: Tree)
    requires t.Bin? && Operands(t)
    ensures Operands(t.left) && Operands(t.right)
    ensures t.token.Concat? ==> t.left.Bin? && t.right.Bin?
    ensures t.token.OpDupAsterisk? ==> t.left.Bin? && t.right.Nil?
  {
  }

  ghost predicate Sized(s: Work) {
    |s.nodes| == |s.nexts| == |s.edests|
  }

  // ------------------------------------------------------------------
  // FIRST

  /** `first` and `node_idx` of every node of t, when t is laid out from b. */
  ghost predicate FirstSet(h: Heap, t: Tree, b: nat) {
    match t
    case Nil => true
    case Bin(id, _, l, r) =>
      && id < |h|
      && h[id].first == FirstId(t)
      && h[id].nodeIdx == FirstIdx(t, b)
      && FirstSet(h, l, b)
      && FirstSet(h, r, b + Count(l))
  }

  /** The automaton nodes of t carry its tokens. */
  ghost predicate TokensSet(nodes: seq<Token>, t: Tree, b: nat) {
    match t
    case Nil => true
    case Bin(_, tok, l, r) =>
      && (!tok.Concat? ==> Own(t, b) < |nodes| && nodes[Own(t, b)] == tok)
      && TokensSet(nodes, l, b)
      && TokensSet(nodes, r, b + Count(l))
  }

  lemma {:induction false} FirstSetFrame(h: Heap, h': Heap, t: Tree, b: nat)
    requires FirstSet(h, t, b) && |h| <= |h'|
    requires forall i <- Ids(t) :: i < |h| ==> h'[i].first == h[i].first && h'[i].nodeIdx == h[i].nodeIdx
    ensures FirstSet(h', t, b)
  {
    if t.Nil? {
    } else {
      FirstSetFrame(h, h', t.left, b);
      FirstSetFrame(h, h', t.right, b + Count(t.left));
    }
  }

  lemma {:induction false} TokensSetFrame(nodes: seq<Token>, nodes': seq<Token>, t: Tree, b: nat)
    requires TokensSet(nodes, t, b) && nodes <= nodes'
    ensures TokensSet(nodes', t, b)
  {
    if t.Nil? {
    } else {
      TokensSetFrame(nodes, nodes', t.left, b);
      TokensSetFrame(nodes, nodes', t.right, b + Count(t.left));
    }
  }

  /** Following `first` from a node leads to the automaton node of that name. */
  lemma {:induction false} FirstOfFirst(h: Heap, t: Tree, b: nat)
    requires t.Bin? && Operands(t) && FirstSet(h, t, b)
    ensures FirstId(t) in Ids(t) && FirstId(t) < |h| && h[FirstId(t)].nodeIdx == FirstIdx(t, b)
    ensures b <= FirstIdx(t, b) < b + Count(t)
  {
    if !t.token.Concat? {
    } else {
      FirstOfFirst(h, t.left, b);
    }
  }

  /** Only the `first` and `node_idx` fields of `ids` differ. */
  ghost predicate OnlyFirst(h: Heap, h': Heap, ids: set<nat>) {
    && |h| == |h'|
    && forall i: nat :: i < |h| ==>
         && h'[i] == h[i].(first := h'[i].first, nodeIdx := h'[i].nodeIdx)
         && (i !in ids ==> h'[i] == h[i])
  }

  /** The FIRST walk writes only `first` and `node_idx`, and appends automaton nodes. */
  lemma {:induction false} FirstShape(s: Work, t: Tree)
    requires Sized(s)
    ensures var s' := FoldPost(CalcFirst, s, t);
            && OnlyFirst(s.tree, s'.tree, Ids(t))
            && s' == s.(tree := s'.tree, nodes := s'.nodes, nexts := s'.nexts, edests := s'.edests)
            && s.nodes <= s'.nodes && Sized(s')
    decreases t
  {
    hide Sized, OnlyFirst, FoldPost, VisitPost, Ids;
    if t.Nil? {
      FirstNothing(s);
    } else {
      var s1 := FoldPost(CalcFirst, s, t.left);
      var s2 := FoldPost(CalcFirst, s1, t.right);
      FoldPostStep(CalcFirst, s, t);
      FirstShape(s, t.left);
      FirstShape(s1, t.right);
      FirstOnce(s2, t.id);
      OnlyFirstThen(s.tree, s1.tree, s2.tree, Ids(t.left), Ids(t.right));
      OnlyFirstThen(s.tree, s2.tree, VisitPost(CalcFirst, s2, t.id).tree, Ids(t.left) + Ids(t.right), {t.id});
      IdsOf(t);
    }
  }

  lemma IdsOf(t: Tree)
    requires t.Bin?
    ensures Ids(t) == Ids(t.left) + Ids(t.right) + {t.id}
  {
  }

  lemma FirstNothing(s: Work)
    ensures FoldPost(CalcFirst, s, Nil) == s && OnlyFirst(s.tree, s.tree, Ids(Nil))
  {
  }

  lemma FirstOnce(s: Work, p: nat)
    requires Sized(s)
    ensures var s' := VisitPost(CalcFirst, s, p);
            && OnlyFirst(s.tree, s'.tree, {p})
            && s' == s.(tree := s'.tree, nodes := s'.nodes, nexts := s'.nexts, edests := s'.edests)
            && s.nodes <= s'.nodes && Sized(s')
  {
  }

  lemma OnlyFirstThen(h: Heap, h1: Heap, h2: Heap, ids: set<nat>, more: set<nat>)
    requires OnlyFirst(h, h1, ids) && OnlyFirst(h1, h2, more)
    ensures OnlyFirst(h, h2, ids + more)
  {
  }

  lemma OnlyFirstModels(h: Heap, h': Heap, ids: set<nat>, t: Tree, parent: Ptr)
    requires OnlyFirst(h, h', ids) && Models(h, t, parent)
    ensures Models(h', t, parent)
  {
    ModelsFrame(h, h', t, parent);
  }

  /** The state in which the FIRST visitor meets a node still holds the tree. */
  lemma FirstOperandsModels(s: Work, t: Tree, parent: Ptr)
    requires t.Bin? && Models(s.tree, t, parent) && Sized(s)
    ensures Models(FoldPost(CalcFirst, FoldPost(CalcFirst, s, t.left), t.right).tree, t, parent)
    ensures Models(FoldPost(CalcFirst, s, t.left).tree, t.right, t.id)
  {
    FirstShape(s, t.left);
    var s1 := FoldPost(CalcFirst, s, t.left);
    FirstShape(s1, t.right);
    OnlyFirstModels(s.tree, s1.tree, Ids(t.left), t, parent);
    OnlyFirstModels(s1.tree, FoldPost(CalcFirst, s1, t.right).tree, Ids(t.right), t, parent);
  }

  /** Filling in `first` and `node_idx` of a node whose operands are done. */
  lemma FirstVisitTree(h: Heap, t: Tree, b: nat, first: Ptr, idx: int)
    requires t.Bin? && Distinct(t) && t.id < |h|
    requires FirstSet(h, t.left, b) && FirstSet(h, t.right, b + Count(t.left))
    requires first == FirstId(t) && idx == FirstIdx(t, b)
    ensures FirstSet(Put(h, t.id, h[t.id].(first := first, nodeIdx := idx)), t, b)
  {
    var h' := Put(h, t.id, h[t.id].(first := first, nodeIdx := idx));
    FirstSetFrame(h, h', t.left, b);
    FirstSetFrame(h, h', t.right, b + Count(t.left));
  }

  /** The FIRST visitor at a node whose operands are done. */
  lemma FirstVisit(s: Work, t: Tree, parent: Ptr, b: nat)
    requires t.Bin? && Distinct(t) && Models(s.tree, t, parent) && Operands(t)
    requires FirstSet(s.tree, t.left, b) && FirstSet(s.tree, t.right, b + Count(t.left))
    requires |s.nodes| == b + Count(t.left) + Count(t.right)
    ensures FirstSet(VisitPost(CalcFirst, s, t.id).tree, t, b)
    ensures VisitPost(CalcFirst, s, t.id).nodes == s.nodes + if t.token.Concat? then [] else [t.token]
  {
    FirstVisitTree(s.tree, t, b, FirstId(t), FirstIdx(t, b));
  }

  lemma TokensVisit(nodes: seq<Token>, t: Tree, b: nat)
    requires t.Bin? && |nodes| == b + Count(t.left) + Count(t.right)
    requires TokensSet(nodes, t.left, b) && TokensSet(nodes, t.right, b + Count(t.left))
    ensures TokensSet(nodes + if t.token.Concat? then [] else [t.token], t, b)
  {
    hide TokensSet, Own;
    var nodes' := nodes + if t.token.Concat? then [] else [t.token];
    assert nodes <= nodes';
    TokensSetFrame(nodes, nodes', t.left, b);
    TokensSetFrame(nodes, nodes', t.right, b + Count(t.left));
    Extent(t, b);
    TokensIntro(nodes', t, b);
  }

  lemma TokensIntro(nodes: seq<Token>, t: Tree, b: nat)
    requires t.Bin? && TokensSet(nodes, t.left, b) && TokensSet(nodes, t.right, b + Count(t.left))
    requires !t.token.Concat? ==> Own(t, b) < |nodes| && nodes[Own(t, b)] == t.token
    ensures TokensSet(nodes, t, b)
  {
  }

  lemma TokensParts(nodes: seq<Token>, t: Tree, b: nat)
    requires t.Bin? && TokensSet(nodes, t, b)
    ensures TokensSet(nodes, t.left, b) && TokensSet(nodes, t.right, b + Count(t.left))
    ensures !t.token.Concat? ==> Own(t, b) < |nodes| && nodes[Own(t, b)] == t.token
  {
  }

  lemma FirstSetParts(h: Heap, t: Tree, b: nat)
    requires t.Bin? && FirstSet(h, t, b)
    ensures t.id < |h| && h[t.id].first == FirstId(t) && h[t.id].nodeIdx == FirstIdx(t, b)
    ensures FirstSet(h, t.left, b) && FirstSet(h, t.right, b + Count(t.left))
  {
  }

  /** The FIRST walk adds Count(t) automaton nodes and fills in `first` and `node_idx`. */
  lemma {:induction false} FirstFold(s: Work, t: Tree, parent: Ptr)
    requires Distinct(t) && Models(s.tree, t, parent) && Operands(t) && Sized(s)
    ensures var s' := FoldPost(CalcFirst, s, t);
            && |s'.nodes| == |s.nodes| + Count(t)
            && FirstSet(s'.tree, t, |s.nodes|) && TokensSet(s'.nodes, t, |s.nodes|)
    decreases t
  {
    hide Distinct, Models, Operands, Sized, FirstSet, TokensSet, OnlyFirst, FoldPost, VisitPost, Ids, FirstId, FirstIdx;
    if t.Nil? {
      FirstNone(s);
    } else {
      var b, rb := |s.nodes|, |s.nodes| + Count(t.left);
      var s1 := FoldPost(CalcFirst, s, t.left);
      var s2 := FoldPost(CalcFirst, s1, t.right);
      FoldPostStep(CalcFirst, s, t);
      ModelsParts(s.tree, t, parent);
      OperandsParts(t);
      FirstOperandsModels(s, t, parent);
      FirstShape(s, t.left);
      FirstShape(s1, t.right);
      FirstFold(s, t.left, t.id);
      FirstFold(s1, t.right, t.id);
      FirstSetKept(s1.tree, s2.tree, Ids(t.right), t.left, b);
      TokensSetFrame(s1.nodes, s2.nodes, t.left, b);
      FirstVisit(s2, t, parent, b);
      TokensVisit(s2.nodes, t, b);
      Extent(t, b);
    }
  }

  lemma FirstNone(s: Work)
    ensures FoldPost(CalcFirst, s, Nil) == s
    ensures FirstSet(s.tree, Nil, |s.nodes|) && TokensSet(s.nodes, Nil, |s.nodes|)
  {
  }

  lemma FirstSetKept(h: Heap, h': Heap, ids: set<nat>, t: Tree, b: nat)
    requires OnlyFirst(h, h', ids) && ids !! Ids(t) && FirstSet(h, t, b)
    ensures FirstSet(h', t, b)
  {
    hide FirstSet, Ids;
    FirstSetFrame(h, h', t, b);
  }

  // ------------------------------------------------------------------
  // NEXT

  /** `next` of every node of t, when matching continues at `nx` after t. */
  ghost predicate NextSet(h: Heap, t: Tree, nx: Ptr) {
    match t
    case Nil => true
    case Bin(id, tok, l, r) =>
      && id < |h|
      && h[id].next == nx
      && NextSet(h, l, if tok.OpDupAsterisk? then id else if tok.Concat? then FirstId(r) else nx)
      && NextSet(h, r, nx)
  }

  lemma {:induction false} NextSetFrame(h: Heap, h': Heap, t: Tree, nx: Ptr)
    requires NextSet(h, t, nx) && |h| <= |h'|
    requires forall i <- Ids(t) :: i < |h| ==> h'[i].next == h[i].next
    ensures NextSet(h', t, nx)
  {
    if t.Nil? {
    } else {
      var tok := t.token;
      NextSetFrame(h, h', t.left, if tok.OpDupAsterisk? then t.id else if tok.Concat? then FirstId(t.right) else nx);
      NextSetFrame(h, h', t.right, nx);
    }
  }

  /** Only the `next` fields of `ids` differ. */
  ghost predicate OnlyNext(h: Heap, h': Heap, ids: set<nat>) {
    && |h| == |h'|
    && forall i: nat :: i < |h| ==>
         && h'[i] == h[i].(next := h'[i].next)
         && (i !in ids ==> h'[i] == h[i])
  }

  lemma {:induction false} OnlyNextModels(h: Heap, h': Heap, ids: set<nat>, t: Tree, parent: Ptr, b: nat)
    requires OnlyNext(h, h', ids) && Models(h, t, parent) && FirstSet(h, t, b)
    ensures Models(h', t, parent) && FirstSet(h', t, b)
  {
    ModelsFrame(h, h', t, parent);
    FirstSetFrame(h, h', t, b);
  }

  /** Where matching continues after the left operand. */
  ghost function LeftNext(t: Tree, nx: Ptr): Ptr
    requires t.Bin?
  {
    if t.token.OpDupAsterisk? then t.id
    else if t.token.Concat? then FirstId(t.right)
    else nx
  }

  lemma NextVisit(h: Heap, t: Tree, parent: Ptr, b: nat)
    requires t.Bin? && Distinct(t) && Models(h, t, parent) && Operands(t) && FirstSet(h, t, b)
    ensures var h' := VisitNext(h, t.id);
            && OnlyNext(h, h', Ids(t.left) + Ids(t.right))
            && (t.left.Bin? ==> At(h', t.left.id).next == LeftNext(t, h[t.id].next))
            && (t.right.Bin? ==> At(h', t.right.id).next == h[t.id].next)
  {
    var l, r, nx := t.left, t.right, h[t.id].next;
    assert l.Bin? ==> l.id in Ids(l);
    assert r.Bin? ==> r.id in Ids(r);
    assert LeftNextOf(h, t.id) == LeftNext(t, nx);
  }

  lemma {:induction false} NextFold(s: Work, t: Tree, parent: Ptr, b: nat)
    requires t.Bin? && Distinct(t) && Models(s.tree, t, parent) && Operands(t) && FirstSet(s.tree, t, b)
    ensures var s' := FoldPre(CalcNext, s, t);
            && s' == s.(tree := s'.tree)
            && OnlyNext(s.tree, s'.tree, Ids(t)) && s'.tree[t.id] == s.tree[t.id]
            && NextSet(s'.tree, t, s.tree[t.id].next)
    decreases t, 0
  {
    hide FirstSet, Count, VisitNext, Distinct, Models, Operands, OnlyNext, NextSet, FoldPre, LeftNext, Ids;
    ModelsParts(s.tree, t, parent);
    var nx, rb := s.tree[t.id].next, b + Count(t.left);
    var s1 := s.(tree := VisitNext(s.tree, t.id));
    var s2 := FoldPre(CalcNext, s1, t.left);
    var s3 := FoldPre(CalcNext, s2, t.right);
    FoldPreStep(CalcNext, s, t);
    OperandsParts(t);
    FirstSetParts(s.tree, t, b);
    NextVisit(s.tree, t, parent, b);
    OnlyNextModels(s.tree, s1.tree, Ids(t.left) + Ids(t.right), t.left, t.id, b);
    OnlyNextModels(s.tree, s1.tree, Ids(t.left) + Ids(t.right), t.right, t.id, rb);
    NextFoldOperand(s1, t.left, t.id, b, LeftNext(t, nx));
    OnlyNextModels(s1.tree, s2.tree, Ids(t.left), t.right, t.id, rb);
    NextKept(s1.tree, s2.tree, Ids(t.left), t.right);
    NextFoldOperand(s2, t.right, t.id, rb, nx);
    NextJoin(s.tree, s1.tree, s2.tree, s3.tree, t, nx);
  }

  /** The `next` of a root outside the nodes that change stays. */
  lemma NextKept(h: Heap, h': Heap, ids: set<nat>, t: Tree)
    requires OnlyNext(h, h', ids) && ids !! Ids(t)
    ensures t.Bin? ==> At(h', t.id).next == At(h, t.id).next
  {
    assert t.Bin? ==> t.id in Ids(t);
  }

  /** The visit of the node and the two walks below it, put together. */
  lemma NextJoin(h: Heap, h1: Heap, h2: Heap, h3: Heap, t: Tree, nx: Ptr)
    requires t.Bin? && Distinct(t) && t.id < |h| && h[t.id].next == nx
    requires OnlyNext(h, h1, Ids(t.left) + Ids(t.right))
    requires OnlyNext(h1, h2, Ids(t.left)) && NextSet(h2, t.left, LeftNext(t, nx))
    requires OnlyNext(h2, h3, Ids(t.right)) && NextSet(h3, t.right, nx)
    ensures OnlyNext(h, h3, Ids(t)) && h3[t.id] == h[t.id] && NextSet(h3, t, nx)
  {
    hide Distinct;
    IdsOf(t);
    DistinctParts(t);
    NextSetFrame(h2, h3, t.left, LeftNext(t, nx));
  }

  lemma DistinctParts(t: Tree)
    requires t.Bin? && Distinct(t)
    ensures t.id !in Ids(t.left) && t.id !in Ids(t.right) && Ids(t.left) !! Ids(t.right)
  {
  }

  lemma {:induction false} NextFoldOperand(s: Work, t: Tree, parent: Ptr, b: nat, nx: Ptr)
    requires Distinct(t) && Models(s.tree, t, parent) && Operands(t) && FirstSet(s.tree, t, b)
    requires t.Bin? ==> At(s.tree, t.id).next == nx
    ensures var s' := FoldPre(CalcNext, s, t);
            && s' == s.(tree := s'.tree)
            && OnlyNext(s.tree, s'.tree, Ids(t))
            && NextSet(s'.tree, t, nx)
    decreases t, 1
  {
    hide FirstSet, Distinct, Models, Operands;
    if t.Nil? {
      assert FoldPre(CalcNext, s, t) == s;
    } else {
      NextFold(s, t, parent, b);
    }
  }

  // ------------------------------------------------------------------
  // Linking

  ghost function NfaOf(s: Work): Nfa {
    Nfa(s.nodes, s.nexts, s.edests)
  }

  /** Only the edges of the automaton nodes in [lo, hi) differ. */
  ghost predicate OnlyEdges(s: Work, s': Work, lo: nat, hi: nat) {
    && s' == s.(nexts := s'.nexts, edests := s'.edests, hasPluralMatch := s'.hasPluralMatch)
    && |s.nexts| == |s'.nexts| && |s.edests| == |s'.edests|
    && (forall i: nat :: i < |s.nexts| && !(lo <= i < hi) ==> s'.nexts[i] == s.nexts[i])
    && (forall i: nat :: i < |s.edests| && !(lo <= i < hi) ==> s'.edests[i] == s.edests[i])
  }

  lemma {:induction false} WiredFrame(s: Work, s': Work, lo: nat, hi: nat, t: Tree, b: nat, n: int)
    requires OnlyEdges(s, s', lo, hi) && (b + Count(t) <= lo || hi <= b)
    requires Wired(NfaOf(s), t, b, n)
    ensures Wired(NfaOf(s'), t, b, n)
    decreases t
  {
    hide OnlyEdges, Count, FirstIdx, Init2, Own;
    if t.Nil? {
    } else {
      var l, r, rb := t.left, t.right, b + Count(t.left);
      Extent(t, b);
      SameEdges(s, s', lo, hi, Own(t, b));
      if t.token.Concat? {
        WiredFrame(s, s', lo, hi, l, b, FirstIdx(r, rb));
        WiredFrame(s, s', lo, hi, r, rb, n);
      } else if t.token.OpDupAsterisk? {
        WiredFrame(s, s', lo, hi, l, b, Own(t, b));
      } else if t.token.OpAlt? {
        WiredFrame(s, s', lo, hi, l, b, n);
        WiredFrame(s, s', lo, hi, r, rb, n);
      }
    }
  }

  lemma SameEdges(s: Work, s': Work, lo: nat, hi: nat, i: nat)
    requires OnlyEdges(s, s', lo, hi)
    ensures s'.nodes == s.nodes && |s'.nexts| == |s.nexts| && |s'.edests| == |s.edests|
    ensures !(lo <= i < hi) ==>
      && (i < |s.nexts| ==> s'.nexts[i] == s.nexts[i]) && (i < |s.edests| ==> s'.edests[i] == s.edests[i])
  {
  }

  /** The edges of one automaton node, as `Wired` asks for them. */
  ghost predicate OwnWired(m: Nfa, t: Tree, b: nat, n: int)
    requires t.Bin?
  {
    var l, r, rb, i := t.left, t.right, b + Count(t.left), Own(t, b);
    t.token.Concat? ||
    (&& i < |m.nodes| && i < |m.nexts| && i < |m.edests|
     && m.nodes[i] == t.token
     && match t.token {
          case OpDupAsterisk => m.edests[i] == Init2(FirstIdx(l, b), n)
          case OpAlt =>
            m.edests[i] == Init2(if l.Bin? then FirstIdx(l, b) else n, if r.Bin? then FirstIdx(r, rb) else n)
          case OpOpenSubexp(_) => m.edests[i] == [n]
          case OpCloseSubexp(_) => m.edests[i] == [n]
          case EndOfRe => true
          case _ => m.nexts[i] == n
        })
  }

  /** What the linking visitor finds when it follows `first` and `next`. */
  lemma LinkTargets(h: Heap, t: Tree, parent: Ptr, b: nat, nx: Ptr)
    requires t.Bin? && Models(h, t, parent) && Operands(t)
    requires FirstSet(h, t, b) && NextSet(h, t, nx)
    ensures var n := At(h, nx).nodeIdx;
            && At(h, t.id).token == t.token && At(h, t.id).next == nx
            && (!t.token.Concat? ==> At(h, t.id).nodeIdx == Own(t, b))
            && Branches(h, t.id) == Init2(if t.left.Bin? then FirstIdx(t.left, b) else n,
                                          if t.right.Bin? then FirstIdx(t.right, b + Count(t.left)) else n)
  {
    hide FirstId, FirstIdx;
    FirstSetParts(h, t, b);
    OperandsParts(t);
    if !t.token.Concat? { OwnIsFirst(t, b); }
    if t.left.Bin? { FirstSetParts(h, t.left, b); FirstOfFirst(h, t.left, b); }
    if t.right.Bin? { FirstSetParts(h, t.right, b + Count(t.left)); FirstOfFirst(h, t.right, b + Count(t.left)); }
  }

  lemma OwnIsFirst(t: Tree, b: nat)
    requires t.Bin? && !t.token.Concat?
    ensures FirstIdx(t, b) == Own(t, b) && FirstId(t) == t.id
  {
  }

  lemma LinkNext(h: Heap, t: Tree, b: nat, nx: Ptr)
    requires t.Bin? && Operands(t) && FirstSet(h, t, b)
    ensures At(h, LeftNext(t, nx)).nodeIdx == WiredNext(t, b, At(h, nx).nodeIdx)
  {
    if t.token.Concat? { FirstOfFirst(h, t.right, b + Count(t.left)); }
  }

  lemma LinkVisit(s: Work, t: Tree, b: nat, nx: Ptr)
    requires t.Bin? && Operands(t) && Sized(s) && b + Count(t) <= |s.nodes|
    requires At(s.tree, t.id).token == t.token && At(s.tree, t.id).next == nx
    requires !t.token.Concat? ==> At(s.tree, t.id).nodeIdx == Own(t, b) && s.nodes[Own(t, b)] == t.token
    requires var n := At(s.tree, nx).nodeIdx;
             Branches(s.tree, t.id) == Init2(if t.left.Bin? then FirstIdx(t.left, b) else n,
                                             if t.right.Bin? then FirstIdx(t.right, b + Count(t.left)) else n)
    ensures var s1 := VisitLink(s, t.id);
            && OnlyEdges(s, s1, b + Count(t.left) + Count(t.right), b + Count(t))
            && OwnWired(NfaOf(s1), t, b, At(s.tree, nx).nodeIdx)
  {
    hide Branches, Init2, FirstIdx, Own, Count, Operands;
    Extent(t, b);
    OperandsParts(t);
  }

  /** Linking wires the tree and touches no other automaton node. */
  lemma {:induction false} LinkFold(s: Work, t: Tree, parent: Ptr, b: nat, nx: Ptr)
    requires Models(s.tree, t, parent) && Operands(t) && Sized(s) && b + Count(t) <= |s.nodes|
    requires FirstSet(s.tree, t, b) && NextSet(s.tree, t, nx) && TokensSet(s.nodes, t, b)
    ensures var s' := FoldPre(LinkNfaNodes, s, t);
            && OnlyEdges(s, s', b, b + Count(t))
            && Wired(NfaOf(s'), t, b, At(s.tree, nx).nodeIdx)
    decreases t
  {
    hide Models, Operands, Sized, FirstSet, NextSet, TokensSet, OnlyEdges, FoldPre, VisitLink, NfaOf, Wired, LeftNext;
    hide Branches, Init2, Own, At, Count, WiredNext, OwnWired, FirstIdx;
    if t.Nil? {
      LinkNothing(s, b, At(s.tree, nx).nodeIdx);
    } else {
      var l, r, rb := t.left, t.right, b + Count(t.left);
      var n := At(s.tree, nx).nodeIdx;
      var s1 := VisitLink(s, t.id);
      var s2 := FoldPre(LinkNfaNodes, s1, l);
      FoldPreStep(LinkNfaNodes, s, t);
      OperandModels(s.tree, t, parent);
      OperandsParts(t);
      FirstSetParts(s.tree, t, b);
      NextSetParts(s.tree, t, nx);
      TokensParts(s.nodes, t, b);
      Extent(t, b);
      LinkTargets(s.tree, t, parent, b, nx);
      LinkVisit(s, t, b, nx);
      EdgesKeep(s, s1, b + Count(l) + Count(r), b + Count(t));
      LinkFold(s1, l, t.id, b, LeftNext(t, nx));
      EdgesKeep(s1, s2, b, rb);
      LinkFold(s2, r, t.id, rb, nx);
      LinkNext(s.tree, t, b, nx);
      LinkJoin(s, s1, s2, FoldPre(LinkNfaNodes, s2, r), t, b, n);
    }
  }

  lemma LinkNothing(s: Work, b: nat, n: int)
    ensures FoldPre(LinkNfaNodes, s, Nil) == s && OnlyEdges(s, s, b, b + Count(Nil)) && Wired(NfaOf(s), Nil, b, n)
  {
  }

  lemma OperandModels(h: Heap, t: Tree, parent: Ptr)
    requires t.Bin? && Models(h, t, parent)
    ensures Models(h, t.left, t.id) && Models(h, t.right, t.id)
  {
  }

  lemma NextSetParts(h: Heap, t: Tree, nx: Ptr)
    requires t.Bin? && NextSet(h, t, nx)
    ensures t.id < |h| && h[t.id].next == nx
    ensures NextSet(h, t.left, LeftNext(t, nx)) && NextSet(h, t.right, nx)
  {
  }

  /** Editing edges keeps the tree, the tokens and the sizes of the tables. */
  lemma EdgesKeep(s: Work, s': Work, lo: nat, hi: nat)
    requires OnlyEdges(s, s', lo, hi)
    ensures s'.tree == s.tree && s'.nodes == s.nodes && (Sized(s) ==> Sized(s'))
  {
  }

  /** Three disjoint edits of the edges put together. */
  lemma LinkJoin(s: Work, s1: Work, s2: Work, s': Work, t: Tree, b: nat, n: int)
    requires t.Bin? && Operands(t)
    requires OnlyEdges(s, s1, b + Count(t.left) + Count(t.right), b + Count(t))
    requires OnlyEdges(s1, s2, b, b + Count(t.left))
    requires OnlyEdges(s2, s', b + Count(t.left), b + Count(t.left) + Count(t.right))
    requires OwnWired(NfaOf(s1), t, b, n)
    requires Wired(NfaOf(s2), t.left, b, WiredNext(t, b, n))
    requires Wired(NfaOf(s'), t.right, b + Count(t.left), n)
    ensures OnlyEdges(s, s', b, b + Count(t)) && Wired(NfaOf(s'), t, b, n)
  {
    hide OwnWired, Wired, NfaOf, WiredNext;
    var rb := b + Count(t.left);
    Extent(t, b);
    WiredFrame(s2, s', rb, rb + Count(t.right), t.left, b, WiredNext(t, b, n));
    OwnWiredFrame(s1, s2, b, rb, t, b, n);
    OwnWiredFrame(s2, s', rb, rb + Count(t.right), t, b, n);
    WiredIntro(NfaOf(s'), t, b, n);
  }

  /** The automaton node at which matching continues after the left operand. */
  ghost function WiredNext(t: Tree, b: nat, n: int): int
    requires t.Bin?
  {
    if t.token.OpDupAsterisk? then Own(t, b)
    else if t.token.Concat? then FirstIdx(t.right, b + Count(t.left))
    else n
  }

  lemma OwnWiredFrame(s: Work, s': Work, lo: nat, hi: nat, t: Tree, b: nat, n: int)
    requires OnlyEdges(s, s', lo, hi) && t.Bin? && hi <= Own(t, b)
    requires OwnWired(NfaOf(s), t, b, n)
    ensures OwnWired(NfaOf(s'), t, b, n)
  {
  }

  lemma WiredIntro(m: Nfa, t: Tree, b: nat, n: int)
    requires t.Bin? && Operands(t) && OwnWired(m, t, b, n)
    requires Wired(m, t.left, b, WiredNext(t, b, n))
    requires Wired(m, t.right, b + Count(t.left), n)
    ensures Wired(m, t, b, n)
  {
  }
}
