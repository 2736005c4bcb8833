/** What the walks compute: the lowering pass and the three NFA-building passes,
    each described on the tree itself. */
module RegexPasses {
  import opened RegexTree
  import opened RegexWalk

  /** Everything outside `ids` is as it was. */
  ghost predicate Outside(h: Heap, h': Heap, ids: set<nat>) {
    && |h| <= |h'|
    && forall i: nat :: i < |h| && i !in ids ==> h'[i] == h[i]
  }

  /** `ids` uses slots of `old` and slots taken since the storage had `n` nodes. */
  ghost predicate Within(ids: set<nat>, before: set<nat>, n: nat, n': nat) {
    forall i <- ids :: i in before || n <= i < n'
  }

  // ------------------------------------------------------------------
  // Building and re-hanging trees

  lemma SetParentModels(h: Heap, t: Tree, parent: Ptr, p: Ptr)
    requires Models(h, t, parent) && Distinct(t)
    ensures Models(SetParent(h, Root(t), p), t, p)
  {
    if t.Bin? {
      ModelsReparent(h, SetParent(h, Root(t), p), t, parent, p);
    }
  }

  /** Redirecting the parent of one of two disjoint trees. */
  lemma AdoptOne(h: Heap, p: Ptr, l: Tree, pl: Ptr, r: Tree, pr: Ptr)
    requires Models(h, l, pl) && Models(h, r, pr) && Distinct(l) && Ids(l) !! Ids(r)
    ensures var h' := SetParent(h, Root(l), p);
            && Models(h', l, p) && Models(h', r, pr)
            && forall i: nat :: i < |h| && i != Root(l) ==> h'[i] == h[i]
  {
    if l.Bin? {
      assert l.id in Ids(l);
      SetParentModels(h, l, pl, p);
      ModelsFrame(h, SetParent(h, l.id, p), r, pr);
    }
  }

  /** Redirecting the parents of two disjoint trees. */
  lemma AdoptModels(h: Heap, p: nat, l: Tree, pl: Ptr, r: Tree, pr: Ptr)
    requires Models(h, l, pl) && Models(h, r, pr)
    requires Distinct(l) && Distinct(r) && Ids(l) !! Ids(r)
    ensures var h' := SetParent(SetParent(h, Root(l), p), Root(r), p);
            && Models(h', l, p) && Models(h', r, p)
            && |h'| == |h|
            && forall i: nat :: i < |h| && i != Root(l) && i != Root(r) ==> h'[i] == h[i]
  {
    AdoptOne(h, p, l, pl, r, pr);
    AdoptOne(SetParent(h, Root(l), p), p, r, pr, l, p);
  }

  lemma CreateModels(h: Heap, l: Tree, pl: Ptr, r: Tree, pr: Ptr, tok: Token)
    requires Models(h, l, pl) && Models(h, r, pr)
    requires Distinct(l) && Distinct(r) && Ids(l) !! Ids(r)
    ensures var h' := Create(h, Root(l), Root(r), tok);
            var t := Bin(|h|, tok, l, r);
            && |h'| == |h| + 1 && Models(h', t, NULL) && Distinct(t)
            && forall i: nat :: i < |h| && i != Root(l) && i != Root(r) ==> h'[i] == h[i]
  {
    hide Models, Distinct, Ids;
    ModelsIds(h, l, pl);
    ModelsIds(h, r, pr);
    RootIn(l);
    RootIn(r);
    var h1 := h + [BinTree(NULL, Root(l), Root(r), NULL, NULL, tok, MISSING)];
    ModelsFrame(h, h1, l, pl);
    ModelsFrame(h, h1, r, pr);
    AdoptModels(h1, |h|, l, pl, r, pr);
    var t := Bin(|h|, tok, l, r);
    DistinctIntro(t);
    ModelsIntro(Create(h, Root(l), Root(r), tok), t, NULL);
  }

  lemma RootIn(t: Tree)
    ensures t.Bin? ==> t.id in Ids(t)
  {
  }

  // ------------------------------------------------------------------
  // Lowering

  /** The tree that replaces a SUBEXP, when `n` is the next free storage slot. */
  ghost function LowerOne(noSub: bool, used: set<nat>, t: Tree, n: nat): (Tree, nat)
    requires t.Bin? && t.token.Subexp?
  {
    var idx := t.token.idx;
    if noSub && t.left.Bin? && (idx >= BITSET_WORD_BITS || idx !in used) then (t.left, n)
    else
      var op, cls := Bin(n, OpOpenSubexp(idx), Nil, Nil), Bin(n + 1, OpCloseSubexp(idx), Nil, Nil);
      if t.left.Nil? then (Bin(n + 2, Concat, op, cls), n + 3)
      else (Bin(n + 3, Concat, op, Bin(n + 2, Concat, t.left, cls)), n + 4)
  }

  ghost function LowerChild(noSub: bool, used: set<nat>, t: Tree, n: nat): (Tree, nat) {
    if t.Bin? && t.token.Subexp? then LowerOne(noSub, used, t, n) else (t, n)
  }

  /** Every SUBEXP strictly below the root of `t` replaced, deepest first. */
  ghost function Lower(noSub: bool, used: set<nat>, t: Tree, n: nat): (Tree, nat) {
    match t
    case Nil => (Nil, n)
    case Bin(id, tok, l, r) =>
      var (l1, n1) := Lower(noSub, used, l, n);
      var (r1, n2) := Lower(noSub, used, r, n1);
      var (l2, n3) := LowerChild(noSub, used, l1, n2);
      var (r2, n4) := LowerChild(noSub, used, r1, n3);
      (Bin(id, tok, l2, r2), n4)
  }

  /** Wrapping a subexpression's operand between its two brackets. */
  lemma WrapModels(h: Heap, body: Tree, parent: Ptr, idx: nat)
    requires Models(h, body, parent) && Distinct(body)
    ensures var h1 := Create(h, NULL, NULL, OpOpenSubexp(idx));
            var h2 := Create(h1, NULL, NULL, OpCloseSubexp(idx));
            var n := |h|;
            && |h2| == n + 2
            && Models(h2, Bin(n, OpOpenSubexp(idx), Nil, Nil), NULL)
            && Models(h2, Bin(n + 1, OpCloseSubexp(idx), Nil, Nil), NULL)
            && Models(h2, body, parent)
            && Outside(h, h2, {})
  {
    var h1 := Create(h, NULL, NULL, OpOpenSubexp(idx));
    var h2 := Create(h1, NULL, NULL, OpCloseSubexp(idx));
    assert h2 == h + [h1[|h|], h2[|h| + 1]];
    ModelsFrame(h, h2, body, parent);
  }

  lemma LowerOneModels(s: Work, c: Tree, parent: Ptr)
    requires c.Bin? && c.token.Subexp? && Distinct(c) && Models(s.tree, c, parent)
    ensures var (h, q) := LowerSubexpOf(s, c.id);
            var (c', n') := LowerOne(s.noSub, s.usedBkrefMap, c, |s.tree|);
            && c'.Bin? && q == c'.id && |h| == n' && |s.tree| <= n' && q < n'
            && Outside(s.tree, h, Ids(c.left))
            && (exists parent' :: Models(h, c', parent'))
            && Distinct(c') && Within(Ids(c'), Ids(c.left), |s.tree|, n')
  {
    hide Models, Distinct, Ids, Create, Outside, Within;
    ModelsParts(s.tree, c, parent);
    ModelsIds(s.tree, c.left, c.id);
    WithinFresh(Ids(c.left), Ids(c.left), |s.tree|, |s.tree|);
    OutsideNone(s.tree, Ids(c.left));
    if Droppable(s, c.id) {
      RootIn(c.left);
      assert LowerSubexpOf(s, c.id) == (s.tree, c.left.id);
      assert Models(s.tree, c.left, c.id);
    } else {
      WrapModels(s.tree, c.left, c.id, c.token.idx);
      var h1 := Create(s.tree, NULL, NULL, OpOpenSubexp(c.token.idx));
      var h2 := Create(h1, NULL, NULL, OpCloseSubexp(c.token.idx));
      LowerWrapped(s.tree, h2, c);
    }
  }

  lemma OutsideNone(h: Heap, ids: set<nat>)
    ensures Outside(h, h, ids)
  {
  }

  lemma LowerWrapped(h: Heap, h2: Heap, c: Tree)
    requires c.Bin? && c.token.Subexp? && Distinct(c.left)
    requires |h2| == |h| + 2 && Outside(h, h2, {})
    requires Models(h2, Bin(|h|, OpOpenSubexp(c.token.idx), Nil, Nil), NULL)
    requires Models(h2, Bin(|h| + 1, OpCloseSubexp(c.token.idx), Nil, Nil), NULL)
    requires Models(h2, c.left, c.id)
    requires forall i <- Ids(c.left) :: i < |h|
    ensures var n := |h|;
            var h3 := if c.left.Bin? then Create(h2, c.left.id, n + 1, Concat) else h2;
            var h4 := Create(h3, n, if c.left.Bin? then n + 2 else n + 1, Concat);
            var (c', n') := LowerOne(false, {}, c, n);
            && |h4| == n' && Models(h4, c', NULL) && Distinct(c')
            && Outside(h, h4, Ids(c.left)) && Within(Ids(c'), Ids(c.left), n, n')
  {
    hide Models, Distinct, Ids, Create, Within;
    var n := |h|;
    var op, cls := Bin(n, OpOpenSubexp(c.token.idx), Nil, Nil), Bin(n + 1, OpCloseSubexp(c.token.idx), Nil, Nil);
    IdsLeaf(n, op.token);
    IdsLeaf(n + 1, cls.token);
    RootIn(c.left);
    if c.left.Nil? {
      CreateModels(h2, op, NULL, cls, NULL, Concat);
      var c' := Bin(n + 2, Concat, op, cls);
      DistinctIntro(c');
      WithinFresh(Ids(c'), Ids(c.left), n, n + 3);
    } else {
      var tree1 := Bin(n + 2, Concat, c.left, cls);
      var h3 := Create(h2, c.left.id, n + 1, Concat);
      CreateModels(h2, c.left, c.id, cls, NULL, Concat);
      ModelsFrame(h2, h3, op, NULL);
      DistinctIntro(tree1);
      CreateModels(h3, op, NULL, tree1, NULL, Concat);
      var c' := Bin(n + 3, Concat, op, tree1);
      DistinctIntro(c');
      WithinFresh(Ids(c'), Ids(c.left), n, n + 4);
    }
  }

  lemma WithinFresh(ids: set<nat>, before: set<nat>, n: nat, n': nat)
    requires forall i <- ids :: i in before || n <= i < n'
    ensures Within(ids, before, n, n')
  {
  }

  /** Replacing the left operand of a node. */
  lemma ReplaceLeft(h: Heap, t: Tree, parent: Ptr, g: Heap, c: Tree, pc: Ptr)
    requires t.Bin? && Distinct(t) && Models(h, t, parent)
    requires Outside(h, g, Ids(t.left))
    requires c.Bin? && Models(g, c, pc) && Distinct(c) && Within(Ids(c), Ids(t.left), |h|, |g|)
    ensures var h' := SetParent(Put(g, t.id, At(g, t.id).(left := c.id)), c.id, t.id);
            && Models(h', t.(left := c), parent) && Distinct(t.(left := c))
            && Outside(h, h', {t.id} + Ids(t.left))
            && t.id < |h| && h'[t.id] == h[t.id].(left := c.id)
  {
    ModelsIds(h, t, parent);
    ModelsIds(g, c, pc);
    var g1 := Put(g, t.id, At(g, t.id).(left := c.id));
    ModelsFrame(g, g1, c, pc);
    SetParentModels(g1, c, pc, t.id);
    var h' := SetParent(g1, c.id, t.id);
    ModelsIds(h, t.right, t.id);
    ModelsFrame(h, h', t.right, t.id);
  }

  /** Replacing the right operand of a node. */
  lemma ReplaceRight(h: Heap, t: Tree, parent: Ptr, g: Heap, c: Tree, pc: Ptr)
    requires t.Bin? && Distinct(t) && Models(h, t, parent)
    requires Outside(h, g, Ids(t.right))
    requires c.Bin? && Models(g, c, pc) && Distinct(c) && Within(Ids(c), Ids(t.right), |h|, |g|)
    ensures var h' := SetParent(Put(g, t.id, At(g, t.id).(right := c.id)), c.id, t.id);
            && Models(h', t.(right := c), parent) && Distinct(t.(right := c))
            && Outside(h, h', {t.id} + Ids(t.right))
            && t.id < |h| && h'[t.id] == h[t.id].(right := c.id)
  {
    ModelsIds(h, t, parent);
    ModelsIds(g, c, pc);
    var g1 := Put(g, t.id, At(g, t.id).(right := c.id));
    ModelsFrame(g, g1, c, pc);
    SetParentModels(g1, c, pc, t.id);
    var h' := SetParent(g1, c.id, t.id);
    ModelsIds(h, t.left, t.id);
    ModelsFrame(h, h', t.left, t.id);
  }

  lemma LowerLeftModels(s: Work, t: Tree, parent: Ptr)
    requires t.Bin? && Distinct(t) && Models(s.tree, t, parent)
    ensures var s' := LowerLeft(s, t.id);
            var (l', n') := LowerChild(s.noSub, s.usedBkrefMap, t.left, |s.tree|);
            && Models(s'.tree, t.(left := l'), parent) && Distinct(t.(left := l'))
            && |s'.tree| == n' && Outside(s.tree, s'.tree, {t.id} + Ids(t.left))
            && s'.tree[t.id] == s.tree[t.id].(left := Root(l'))
            && s' == s.(tree := s'.tree)
            && Within(Ids(l'), Ids(t.left), |s.tree|, n')
  {
    var c := t.left;
    if c.Bin? && c.token.Subexp? {
      LowerOneModels(s, c, t.id);
      var (h, q) := LowerSubexpOf(s, c.id);
      var (c', n') := LowerOne(s.noSub, s.usedBkrefMap, c, |s.tree|);
      var pc :| Models(h, c', pc);
      assert Outside(s.tree, h, Ids(c)) && Within(Ids(c'), Ids(c), |s.tree|, n');
      ReplaceLeft(s.tree, t, parent, h, c', pc);
    }
  }

  lemma LowerRightModels(s: Work, t: Tree, parent: Ptr)
    requires t.Bin? && Distinct(t) && Models(s.tree, t, parent)
    ensures var s' := LowerRight(s, t.id);
            var (r', n') := LowerChild(s.noSub, s.usedBkrefMap, t.right, |s.tree|);
            && Models(s'.tree, t.(right := r'), parent) && Distinct(t.(right := r'))
            && |s'.tree| == n' && Outside(s.tree, s'.tree, {t.id} + Ids(t.right))
            && s'.tree[t.id] == s.tree[t.id].(right := Root(r'))
            && s' == s.(tree := s'.tree)
            && Within(Ids(r'), Ids(t.right), |s.tree|, n')
  {
    var c := t.right;
    if c.Bin? && c.token.Subexp? {
      LowerOneModels(s, c, t.id);
      var (h, q) := LowerSubexpOf(s, c.id);
      var (c', n') := LowerOne(s.noSub, s.usedBkrefMap, c, |s.tree|);
      var pc :| Models(h, c', pc);
      assert Outside(s.tree, h, Ids(c)) && Within(Ids(c'), Ids(c), |s.tree|, n');
      ReplaceRight(s.tree, t, parent, h, c', pc);
    }
  }

  /** The lowering walk leaves the lowered tree in place of the tree, in the same
      root slot, and touches nothing outside the tree. */
  lemma {:induction false} LowerFold(s: Work, t: Tree, parent: Ptr)
    requires Distinct(t) && Models(s.tree, t, parent)
    ensures var s' := FoldPost(LowerSubexps, s, t);
            var (t', n') := Lower(s.noSub, s.usedBkrefMap, t, |s.tree|);
            && Models(s'.tree, t', parent) && Distinct(t')
            && |s'.tree| == n' && Outside(s.tree, s'.tree, Ids(t))
            && s' == s.(tree := s'.tree)
            && Root(t') == Root(t)
            && Within(Ids(t'), Ids(t), |s.tree|, n')
    decreases t, 1
  {
    hide Models, Distinct, FoldPost, LowerLeft, LowerRight, LowerChild, Ids, Outside, Within;
    if t.Nil? {
      LowerNothing(s, parent);
    } else {
      FoldPostStep(LowerSubexps, s, t);
      LowerOperandsFold(s, t, parent);
      var s2 := FoldPost(LowerSubexps, FoldPost(LowerSubexps, s, t.left), t.right);
      var (l1, n1) := Lower(s.noSub, s.usedBkrefMap, t.left, |s.tree|);
      var (r1, n2) := Lower(s.noSub, s.usedBkrefMap, t.right, n1);
      var u := Bin(t.id, t.token, l1, r1);
      LowerLeftModels(s2, u, parent);
      var s3 := LowerLeft(s2, t.id);
      var (l2, n3) := LowerChild(s.noSub, s.usedBkrefMap, l1, n2);
      var v := u.(left := l2);
      LowerRightModels(s3, v, parent);
      var (r2, n4) := LowerChild(s.noSub, s.usedBkrefMap, r1, n3);
      LowerFoldFrame(s.tree, s2.tree, s3.tree, LowerRight(s3, t.id).tree, t, l1, r1, l2, r2);
    }
  }

  lemma LowerNothing(s: Work, parent: Ptr)
    ensures FoldPost(LowerSubexps, s, Nil) == s && Models(s.tree, Nil, parent) && Distinct(Nil)
    ensures Outside(s.tree, s.tree, Ids(Nil)) && Within(Ids(Nil), Ids(Nil), |s.tree|, |s.tree|)
  {
  }

  /** What the two operands and then the two replacements have changed, and where the nodes
      of the new tree come from. */
  lemma LowerFoldFrame(h: Heap, h2: Heap, h3: Heap, h4: Heap, t: Tree, l1: Tree, r1: Tree, l2: Tree, r2: Tree)
    requires t.Bin? && |h| <= |h2| <= |h3| <= |h4|
    requires Outside(h, h2, Ids(t.left) + Ids(t.right))
    requires Outside(h2, h3, {t.id} + Ids(l1)) && Outside(h3, h4, {t.id} + Ids(r1))
    requires Within(Ids(l1), Ids(t.left), |h|, |h2|) && Within(Ids(r1), Ids(t.right), |h|, |h2|)
    requires Within(Ids(l2), Ids(l1), |h2|, |h3|) && Within(Ids(r2), Ids(r1), |h3|, |h4|)
    ensures Outside(h, h4, Ids(t)) && Within(Ids(Bin(t.id, t.token, l2, r2)), Ids(t), |h|, |h4|)
  {
    forall i: nat | i < |h| && i !in Ids(t) ensures h4[i] == h[i] {
      assert i !in Ids(l1) && i !in Ids(r1);
    }
  }

  /** The state in which the lowering visitor meets a node: both operands are
      lowered, the node itself is not. */
  lemma {:induction false} LowerOperandsFold(s: Work, t: Tree, parent: Ptr)
    requires t.Bin? && Distinct(t) && Models(s.tree, t, parent)
    ensures var s2 := FoldPost(LowerSubexps, FoldPost(LowerSubexps, s, t.left), t.right);
            var (l1, n1) := Lower(s.noSub, s.usedBkrefMap, t.left, |s.tree|);
            var (r1, n2) := Lower(s.noSub, s.usedBkrefMap, t.right, n1);
            var u := Bin(t.id, t.token, l1, r1);
            && Models(s2.tree, u, parent) && Distinct(u)
            && |s2.tree| == n2 && Outside(s.tree, s2.tree, Ids(t.left) + Ids(t.right))
            && s2 == s.(tree := s2.tree)
            && Within(Ids(l1), Ids(t.left), |s.tree|, n2) && Within(Ids(r1), Ids(t.right), |s.tree|, n2)
    decreases t, 0
  {
    var s1 := FoldPost(LowerSubexps, s, t.left);
    LowerFold(s, t.left, t.id);
    var (l1, n1) := Lower(s.noSub, s.usedBkrefMap, t.left, |s.tree|);
    ModelsIds(s.tree, t, parent);
    ModelsIds(s.tree, t.right, t.id);
    ModelsFrame(s.tree, s1.tree, t.right, t.id);
    LowerFold(s1, t.right, t.id);
    LowerBoth(s.tree, s1.tree, FoldPost(LowerSubexps, s1, t.right).tree, t, parent, l1,
              Lower(s.noSub, s.usedBkrefMap, t.right, n1).0);
  }

  /** Two lowered operands under one node. */
  lemma LowerBoth(h: Heap, h1: Heap, h2: Heap, t: Tree, parent: Ptr, l: Tree, r: Tree)
    requires t.Bin? && Distinct(t) && Models(h, t, parent)
    requires Outside(h, h1, Ids(t.left)) && Outside(h1, h2, Ids(t.right))
    requires Models(h1, l, t.id) && Distinct(l) && Root(l) == Root(t.left) && Within(Ids(l), Ids(t.left), |h|, |h1|)
    requires Models(h2, r, t.id) && Distinct(r) && Root(r) == Root(t.right) && Within(Ids(r), Ids(t.right), |h1|, |h2|)
    ensures var u := Bin(t.id, t.token, l, r);
            && Models(h2, u, parent) && Distinct(u)
            && Outside(h, h2, Ids(t.left) + Ids(t.right))
            && Within(Ids(l), Ids(t.left), |h|, |h2|) && Within(Ids(r), Ids(t.right), |h|, |h2|)
  {
    hide Models, Distinct, Ids, Outside, Within;
    ModelsParts(h, t, parent);
    ModelsIds(h, t, parent);
    ModelsIds(h, t.left, t.id);
    ModelsIds(h, t.right, t.id);
    ModelsIds(h1, l, t.id);
    WithinApart(Ids(l), Ids(t.left), Ids(t.right), |h|, |h1|);
    KeptApart(h1, h2, l, t.id, Ids(t.right));
    WithinApart(Ids(r), Ids(t.right), Ids(l), |h1|, |h2|);
    OutsideTwo(h, h1, h2, Ids(t.left), Ids(t.right));
    WithinApart(Ids(l), Ids(t.left), {t.id}, |h|, |h1|);
    WithinApart(Ids(r), Ids(t.right), {t.id}, |h1|, |h2|);
    var u := Bin(t.id, t.token, l, r);
    OutsideAt(h, h2, t.id, Ids(t.left) + Ids(t.right));
    ModelsIntro(h2, u, parent);
    DistinctIntro(u);
    WithinWider(Ids(l), Ids(t.left), |h|, |h1|, |h|, |h2|);
    WithinWider(Ids(r), Ids(t.right), |h1|, |h2|, |h|, |h2|);
  }

  lemma WithinApart(ids: set<nat>, before: set<nat>, other: set<nat>, n: nat, n': nat)
    requires Within(ids, before, n, n') && before !! other && forall i <- other :: i < n
    ensures ids !! other
  {
  }

  lemma WithinWider(ids: set<nat>, before: set<nat>, n: nat, n': nat, m: nat, m': nat)
    requires Within(ids, before, n, n') && m <= n && n' <= m'
    ensures Within(ids, before, m, m')
  {
  }

  lemma OutsideTwo(h: Heap, h1: Heap, h2: Heap, ids: set<nat>, more: set<nat>)
    requires Outside(h, h1, ids) && Outside(h1, h2, more)
    ensures Outside(h, h2, ids + more) && |h| <= |h1| <= |h2|
  {
  }

  lemma OutsideAt(h: Heap, h': Heap, i: nat, ids: set<nat>)
    requires Outside(h, h', ids) && i < |h| && i !in ids
    ensures i < |h'| && h'[i] == h[i]
  {
  }

  lemma KeptApart(h: Heap, h': Heap, t: Tree, parent: Ptr, ids: set<nat>)
    requires Models(h, t, parent) && Outside(h, h', ids) && Ids(t) !! ids
    ensures Models(h', t, parent)
  {
    ModelsFrame(h, h', t, parent);
  }
}
