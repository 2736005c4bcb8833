/** The two tree walks of the compiler, and the visitors it runs with them: the five
    passes, or any other function of the state and a node.
    `Postorder` and `Preorder` climb parent pointers and keep no stack; `FoldPost`
    and `FoldPre` are the recursive walks they are proved equal to, for every
    visitor, including the two that rewrite the tree while it is walked. */
module RegexWalk {
  import opened RegexTree

  const BITSET_WORD_BITS := 64

  /** REG_MISSING */
  const MISSING := -1

  datatype PostVisitor = LowerSubexps | CalcFirst | AnyPost(visit: (Work, Ptr) -> Work)

  datatype PreVisitor = OptimizeSubexps | CalcNext | LinkNfaNodes | AnyPre(visit: (Work, Ptr) -> Work)

  /** The part of re_dfa_t and regex_t that the walks read and write. */
  datatype Work = Work(
    tree: Heap,
    nodes: seq<Token>, nexts: seq<int>, edests: seq<seq<int>>,
    subexpMap: seq<nat>, usedBkrefMap: set<nat>,
    noSub: bool, hasPluralMatch: bool)

  // ------------------------------------------------------------------
  // Storage access as total functions

  function At(h: Heap, p: Ptr): BinTree {
    if 0 <= p < |h| then h[p] else BinTree(NULL, NULL, NULL, NULL, NULL, Concat, MISSING)
  }

  function Put(h: Heap, p: Ptr, b: BinTree): (h': Heap)
    ensures |h'| == |h|
  {
    if 0 <= p < |h| then h[p := b] else h
  }

  predicate Valid(h: Heap, p: Ptr) {
    0 <= p < |h|
  }

  predicate NullOrValid(h: Heap, p: Ptr) {
    p == NULL || Valid(h, p)
  }

  function SetParent(h: Heap, p: Ptr, parent: Ptr): (h': Heap)
    ensures |h'| == |h|
  {
    if p == NULL then h else Put(h, p, At(h, p).(parent := parent))
  }

  // ------------------------------------------------------------------
  // Postorder visitors

  /** create_tree: a fresh node that adopts its operands. */
  function Create(h: Heap, left: Ptr, right: Ptr, token: Token): (h': Heap)
    ensures |h'| == |h| + 1
  {
    var h1 := h + [BinTree(NULL, left, right, NULL, NULL, token, MISSING)];
    SetParent(SetParent(h1, left, |h|), right, |h|)
  }

  /** The SUBEXP node can simply be dropped. */
  predicate Droppable(s: Work, p: Ptr) {
    var node := At(s.tree, p);
    && s.noSub
    && node.left != NULL
    && node.token.Subexp?
    && (node.token.idx >= BITSET_WORD_BITS || node.token.idx !in s.usedBkrefMap)
  }

  /** lower_subexp: the replacement of a SUBEXP node. */
  function LowerSubexpOf(s: Work, p: Ptr): (Heap, Ptr) {
    var node := At(s.tree, p);
    var idx := if node.token.Subexp? then node.token.idx else 0;
    if Droppable(s, p) then (s.tree, node.left)
    else
      var op := |s.tree|;
      var h1 := Create(s.tree, NULL, NULL, OpOpenSubexp(idx));
      var cls := |h1|;
      var h2 := Create(h1, NULL, NULL, OpCloseSubexp(idx));
      var h3 := if node.left != NULL then Create(h2, node.left, cls, Concat) else h2;
      var tree1 := if node.left != NULL then |h2| else cls;
      (Create(h3, op, tree1, Concat), |h3|)
  }

  function LowerLeft(s: Work, p: Ptr): Work {
    var child := At(s.tree, p).left;
    if child != NULL && At(s.tree, child).token.Subexp? then
      var (h, q) := LowerSubexpOf(s, child);
      s.(tree := SetParent(Put(h, p, At(h, p).(left := q)), q, p))
    else s
  }

  function LowerRight(s: Work, p: Ptr): Work {
    var child := At(s.tree, p).right;
    if child != NULL && At(s.tree, child).token.Subexp? then
      var (h, q) := LowerSubexpOf(s, child);
      s.(tree := SetParent(Put(h, p, At(h, p).(right := q)), q, p))
    else s
  }

  function VisitPost(fn: PostVisitor, s: Work, p: Ptr): Work {
    var node := At(s.tree, p);
    match fn
    case LowerSubexps => LowerRight(LowerLeft(s, p), p)
    case CalcFirst =>
      if node.token.Concat? then
        var l := At(s.tree, node.left);
        s.(tree := Put(s.tree, p, node.(first := l.first, nodeIdx := l.nodeIdx)))
      else
        s.(tree := Put(s.tree, p, node.(first := p, nodeIdx := |s.nodes|)),
           nodes := s.nodes + [node.token],
           nexts := s.nexts + [MISSING],
           edests := s.edests + [[]])
    case AnyPost(visit) => visit(s, p)
  }

  /** What the visitor dereferences is there. */
  predicate CanVisitPost(fn: PostVisitor, s: Work, p: Ptr) {
    && Valid(s.tree, p)
    && match fn {
         case LowerSubexps =>
           && NullOrValid(s.tree, s.tree[p].left) && NullOrValid(s.tree, s.tree[p].right)
           && (s.tree[p].left != NULL ==> NullOrValid(s.tree, s.tree[s.tree[p].left].left))
           && (s.tree[p].right != NULL ==> NullOrValid(s.tree, s.tree[s.tree[p].right].left))
           && (s.tree[p].right != NULL ==> s.tree[p].right != s.tree[p].left && s.tree[p].right != p)
           && (s.tree[p].left != NULL ==> s.tree[p].left != p && s.tree[s.tree[p].left].left != p)
           && (s.tree[p].left != NULL ==>
               s.tree[s.tree[p].left].left == NULL || s.tree[s.tree[p].left].left != s.tree[p].right)
         case CalcFirst =>
           && s.tree[p].token.Concat? ==> Valid(s.tree, s.tree[p].left)
         case AnyPost(_) => true
       }
  }

  /** The recursive walk: left operand, right operand, node. */
  ghost function FoldPost(fn: PostVisitor, s: Work, t: Tree): Work
    decreases t
  {
    match t
    case Nil => s
    case Bin(id, _, l, r) => VisitPost(fn, FoldPost(fn, FoldPost(fn, s, l), r), id)
  }

  // ------------------------------------------------------------------
  // Preorder visitors

  /** re_node_set_init_2 */
  function Init2(a: int, b: int): seq<int> {
    if a == b then [a] else if a < b then [a, b] else [b, a]
  }

  /** A SUBEXP whose operand is another SUBEXP. */
  predicate DoubleSubexp(h: Heap, p: Ptr) {
    var node := At(h, p);
    node.token.Subexp? && node.left != NULL && At(h, node.left).token.Subexp?
  }

  function SetNext(h: Heap, p: Ptr, next: Ptr): (h': Heap)
    ensures |h'| == |h|
  {
    if p == NULL then h else Put(h, p, At(h, p).(next := next))
  }

  /** optimize_subexps */
  function VisitOptimize(s: Work, p: Ptr): Work {
    var node := At(s.tree, p);
    if DoubleSubexp(s.tree, p) then
      var inner := At(s.tree, node.left);
      var other := inner.token.idx;
      var h := SetParent(Put(s.tree, p, node.(left := inner.left)), inner.left, p);
      s.(tree := h,
         subexpMap := if other < |s.subexpMap| && node.token.idx < |s.subexpMap|
                      then s.subexpMap[other := s.subexpMap[node.token.idx]] else s.subexpMap,
         usedBkrefMap := if other < BITSET_WORD_BITS then s.usedBkrefMap - {other} else s.usedBkrefMap)
    else s
  }

  /** Where matching continues after the left operand of p. */
  function LeftNextOf(h: Heap, p: Ptr): Ptr {
    match At(h, p).token
    case OpDupAsterisk => p
    case Concat => At(h, At(h, p).right).first
    case _ => At(h, p).next
  }

  /** calc_next */
  function VisitNext(h: Heap, p: Ptr): Heap {
    var node := At(h, p);
    var h1 := SetNext(h, node.left, LeftNextOf(h, p));
    if node.token.OpDupAsterisk? then h1 else SetNext(h1, node.right, node.next)
  }

  /** link_nfa_nodes */
  function VisitLink(s: Work, p: Ptr): Work {
    var node := At(s.tree, p);
    var idx := node.nodeIdx;
    if !(0 <= idx < |s.edests| && idx < |s.nexts|) then s
    else
      match node.token
      case Concat => s
      case EndOfRe => s
      case OpDupAsterisk => s.(hasPluralMatch := true, edests := s.edests[idx := Branches(s.tree, p)])
      case OpAlt => s.(hasPluralMatch := true, edests := s.edests[idx := Branches(s.tree, p)])
      case OpOpenSubexp(_) => s.(edests := s.edests[idx := [At(s.tree, node.next).nodeIdx]])
      case OpCloseSubexp(_) => s.(edests := s.edests[idx := [At(s.tree, node.next).nodeIdx]])
      case _ => s.(nexts := s.nexts[idx := At(s.tree, node.next).nodeIdx])
  }

  function VisitPre(fn: PreVisitor, s: Work, p: Ptr): Work {
    match fn
    case OptimizeSubexps => VisitOptimize(s, p)
    case CalcNext => s.(tree := VisitNext(s.tree, p))
    case LinkNfaNodes => VisitLink(s, p)
    case AnyPre(visit) => visit(s, p)
  }

  /** The two epsilon destinations of a '|' or '*' node. */
  function Branches(h: Heap, p: Ptr): seq<int> {
    var node := At(h, p);
    var next := At(h, node.next).nodeIdx;
    Init2(if node.left != NULL then At(h, At(h, node.left).first).nodeIdx else next,
          if node.right != NULL then At(h, At(h, node.right).first).nodeIdx else next)
  }

  predicate CanVisitPre(fn: PreVisitor, s: Work, p: Ptr) {
    && Valid(s.tree, p)
    && var node := s.tree[p];
    && NullOrValid(s.tree, node.left) && NullOrValid(s.tree, node.right)
    && (node.left != NULL ==> node.left != p && node.left != node.right)
    && (node.right != NULL ==> node.right != p)
    && match fn {
         case OptimizeSubexps =>
           DoubleSubexp(s.tree, p) ==>
             && NullOrValid(s.tree, s.tree[node.left].left)
             && s.tree[node.left].left != p
             && node.token.idx < |s.subexpMap| && s.tree[node.left].token.idx < |s.subexpMap|
         case CalcNext =>
           && (node.token.OpDupAsterisk? ==> node.left != NULL)
           && (node.token.Concat? ==> node.left != NULL && node.right != NULL)
         case LinkNfaNodes =>
           && (!node.token.Concat? ==> 0 <= node.nodeIdx < |s.edests| && node.nodeIdx < |s.nexts|)
           && (node.left != NULL && (node.token.OpAlt? || node.token.OpDupAsterisk?) ==>
                 Valid(s.tree, s.tree[node.left].first))
           && (node.right != NULL && (node.token.OpAlt? || node.token.OpDupAsterisk?) ==>
                 Valid(s.tree, s.tree[node.right].first))
           && (node.token.EndOfRe? ==> node.next == NULL)
           && (!node.token.EndOfRe? && !node.token.Concat? ==> Valid(s.tree, node.next))
           && !node.token.Subexp?
         case AnyPre(_) => true
       }
  }

  /** The tree below a node once the node itself has been visited. */
  ghost function Spliced(fn: PreVisitor, t: Tree): (u: Tree)
    requires t.Bin?
    ensures u.Bin? && u.id == t.id && u.token == t.token
    ensures u.left < t && u.right < t
    ensures Ids(u) <= Ids(t)
  {
    if fn.OptimizeSubexps? && t.token.Subexp? && t.left.Bin? && t.left.token.Subexp?
    then t.(left := t.left.left)
    else t
  }

  /** The recursive walk: node, left operand, right operand. */
  ghost function FoldPre(fn: PreVisitor, s: Work, t: Tree): Work
    decreases t
  {
    if t.Nil? then s
    else
      var u := Spliced(fn, t);
      FoldPre(fn, FoldPre(fn, VisitPre(fn, s, t.id), u.left), u.right)
  }

  lemma FoldPostStep(fn: PostVisitor, s: Work, t: Tree)
    requires t.Bin?
    ensures FoldPost(fn, s, t) == VisitPost(fn, FoldPost(fn, FoldPost(fn, s, t.left), t.right), t.id)
  {
  }

  lemma FoldPreStep(fn: PreVisitor, s: Work, t: Tree)
    requires t.Bin? && Spliced(fn, t) == t
    ensures FoldPre(fn, s, t) == FoldPre(fn, FoldPre(fn, VisitPre(fn, s, t.id), t.left), t.right)
  {
  }
}
