/** The compiler proper: the record it works on, the walks and visitors as the loops
    and pointer updates they are, and `Analyze`, whose automaton accepts exactly the
    language of the parse tree. */
module RegexCompile {
  import opened RegexTree
  import opened RegexWalk
  import opened RegexPasses
  import opened RegexMeaning
  import opened RegexBuild
  import opened RegexNfa
  import opened RegexGroups

  // ------------------------------------------------------------------
  // What every postorder walk keeps

  /** Called at the root of t, in any state, the visitor may do as it likes with the nodes
      of t and add new ones; but it leaves the other nodes alone, and t's root in its
      place. */
  ghost predicate StaysWithin(visit: (Work, Ptr) -> Work, t: Tree)
    requires t.Bin?
  {
    forall s: Work | t.id < |s.tree| ::
      var s' := visit(s, t.id);
      && Outside(s.tree, s'.tree, Ids(t))
      && s'.tree[t.id].parent == s.tree[t.id].parent
  }

  /** The same at every node of t. */
  ghost predicate StaysWithinAll(visit: (Work, Ptr) -> Work, t: Tree) {
    t.Bin? ==> StaysWithin(visit, t) && StaysWithinAll(visit, t.left) && StaysWithinAll(visit, t.right)
  }

  ghost predicate ReadyPost(fn: PostVisitor, s: Work, t: Tree) {
    match fn
    case LowerSubexps => true
    case CalcFirst => Operands(t) && Sized(s)
    case AnyPost(visit) => StaysWithinAll(visit, t)
  }

  lemma {:induction false} AnyFrame(visit: (Work, Ptr) -> Work, s: Work, t: Tree, parent: Ptr)
    requires Distinct(t) && Models(s.tree, t, parent) && StaysWithinAll(visit, t)
    ensures var s' := FoldPost(AnyPost(visit), s, t);
            Outside(s.tree, s'.tree, Ids(t)) && (t.Bin? ==> s'.tree[t.id].parent == parent)
    decreases t, 1
  {
    if t.Nil? {
    } else {
      AnyOperands(visit, s, t, parent);
      var s2 := FoldPost(AnyPost(visit), FoldPost(AnyPost(visit), s, t.left), t.right);
      AnyVisit(visit, s2, t);
      OutsideBoth(s.tree, s2.tree, visit(s2, t.id).tree, Ids(t.left) + Ids(t.right), Ids(t), Ids(t));
    }
  }

  lemma AnyVisit(visit: (Work, Ptr) -> Work, s: Work, t: Tree)
    requires t.Bin? && StaysWithin(visit, t) && t.id < |s.tree|
    ensures Outside(s.tree, visit(s, t.id).tree, Ids(t))
    ensures visit(s, t.id).tree[t.id].parent == s.tree[t.id].parent
  {
  }

  /** Two changes one after the other. */
  lemma OutsideBoth(h: Heap, h1: Heap, h2: Heap, ids1: set<nat>, ids2: set<nat>, ids: set<nat>)
    requires Outside(h, h1, ids1) && Outside(h1, h2, ids2) && ids1 <= ids && ids2 <= ids
    ensures Outside(h, h2, ids)
  {
  }

  lemma {:induction false} AnyOperands(visit: (Work, Ptr) -> Work, s: Work, t: Tree, parent: Ptr)
    requires t.Bin? && Distinct(t) && Models(s.tree, t, parent) && StaysWithinAll(visit, t)
    ensures var s2 := FoldPost(AnyPost(visit), FoldPost(AnyPost(visit), s, t.left), t.right);
            Outside(s.tree, s2.tree, Ids(t.left) + Ids(t.right)) && s2.tree[t.id] == s.tree[t.id]
    decreases t, 0
  {
    hide FoldPost, StaysWithin;
    var s1 := FoldPost(AnyPost(visit), s, t.left);
    AnyFrame(visit, s, t.left, t.id);
    ModelsFrame(s.tree, s1.tree, t.right, t.id);
    AnyFrame(visit, s1, t.right, t.id);
    OutsideBoth(s.tree, s1.tree, FoldPost(AnyPost(visit), s1, t.right).tree,
                Ids(t.left), Ids(t.right), Ids(t.left) + Ids(t.right));
  }

  /** A walk of t leaves everything outside t alone, and t's root in its place. */
  lemma {:induction false} PostFrame(fn: PostVisitor, s: Work, t: Tree, parent: Ptr)
    requires Distinct(t) && Models(s.tree, t, parent) && ReadyPost(fn, s, t)
    ensures var s' := FoldPost(fn, s, t);
            && Outside(s.tree, s'.tree, Ids(t))
            && (fn.CalcFirst? ==> Sized(s'))
            && (t.Bin? ==> t.id < |s.tree| && s'.tree[t.id].parent == parent)
  {
    match fn
    case LowerSubexps => LowerFold(s, t, parent);
    case CalcFirst => FirstShape(s, t);
    case AnyPost(visit) => AnyFrame(visit, s, t, parent);
  }

  /** When a node's turn comes, its links are still those of the tree that was handed
      to the walk, and the visitor can follow what it needs. */
  lemma PostReady(fn: PostVisitor, s: Work, t: Tree, parent: Ptr)
    requires t.Bin? && Distinct(t) && Models(s.tree, t, parent) && ReadyPost(fn, s, t)
    ensures var s2 := FoldPost(fn, FoldPost(fn, s, t.left), t.right);
            && CanVisitPost(fn, s2, t.id)
            && s2.tree[t.id].parent == parent
  {
    match fn
    case LowerSubexps =>
      LowerOperandsFold(s, t, parent);
      ModelsIds(s.tree, t, parent);
      assert t.id !in Ids(t.left) + Ids(t.right);
      var s2 := FoldPost(fn, FoldPost(fn, s, t.left), t.right);
      var (l1, n1) := Lower(s.noSub, s.usedBkrefMap, t.left, |s.tree|);
      var (r1, n2) := Lower(s.noSub, s.usedBkrefMap, t.right, n1);
      LowerCanVisit(s2, Bin(t.id, t.token, l1, r1), parent);
    case CalcFirst =>
      FirstOperandsModels(s, t, parent);
    case AnyPost(visit) =>
      AnyOperands(visit, s, t, parent);
  }

  lemma LowerCanVisit(s: Work, t: Tree, parent: Ptr)
    requires t.Bin? && Distinct(t) && Models(s.tree, t, parent)
    ensures CanVisitPost(LowerSubexps, s, t.id)
  {
    assert t.left.Bin? ==> t.left.id in Ids(t.left);
    assert t.right.Bin? ==> t.right.id in Ids(t.right);
  }

  /** The path from the root to a node: what is above it, and on which side. */
  datatype PostPath =
    | Top
    | InLeft(id: nat, token: Token, right: Tree, up: PostPath)
    | InRight(id: nat, token: Token, left: Tree, up: PostPath)

  ghost function Parent(c: PostPath): Ptr {
    if c.Top? then NULL else c.id
  }

  ghost function Plug(c: PostPath, t: Tree): Tree {
    match c
    case Top => t
    case InLeft(id, tok, r, up) => Plug(up, Bin(id, tok, t, r))
    case InRight(id, tok, l, up) => Plug(up, Bin(id, tok, l, t))
  }

  /** The state in which a walk begun in s reaches the subtree at the end of the path. */
  ghost function Begin(fn: PostVisitor, s: Work, c: PostPath): Work {
    match c
    case Top => s
    case InLeft(_, _, _, up) => Begin(fn, s, up)
    case InRight(_, _, l, up) => FoldPost(fn, Begin(fn, s, up), l)
  }

  /** At the moment a walk reaches a subtree, the subtree is untouched. */
  lemma {:induction false} PostArrive(fn: PostVisitor, s: Work, c: PostPath, t: Tree)
    requires Distinct(Plug(c, t)) && Models(s.tree, Plug(c, t), NULL) && ReadyPost(fn, s, Plug(c, t))
    ensures var b := Begin(fn, s, c);
            Distinct(t) && Models(b.tree, t, Parent(c)) && ReadyPost(fn, b, t)
    decreases c
  {
    hide Distinct, Models, ReadyPost, FoldPost;
    match c
    case Top =>
    case InLeft(id, tok, r, up) =>
      var u := Bin(id, tok, t, r);
      PostArrive(fn, s, up, u);
      PostOperands(fn, Begin(fn, s, up), u, Parent(up));
    case InRight(id, tok, l, up) =>
      var u := Bin(id, tok, l, t);
      PostArrive(fn, s, up, u);
      PostOperands(fn, Begin(fn, s, up), u, Parent(up));
  }

  /** The left operand is ready to be walked, and the right one once the left one is done. */
  lemma PostOperands(fn: PostVisitor, s: Work, t: Tree, parent: Ptr)
    requires t.Bin? && Distinct(t) && Models(s.tree, t, parent) && ReadyPost(fn, s, t)
    ensures Distinct(t.left) && Models(s.tree, t.left, t.id) && ReadyPost(fn, s, t.left)
    ensures var s1 := FoldPost(fn, s, t.left);
            Distinct(t.right) && Models(s1.tree, t.right, t.id) && ReadyPost(fn, s1, t.right)
  {
    hide FoldPost, StaysWithin;
    PostFrame(fn, s, t.left, t.id);
    ModelsIds(s.tree, t.right, t.id);
    ModelsFrame(s.tree, FoldPost(fn, s, t.left).tree, t.right, t.id);
  }

  /** When a subtree is finished, the node above it still has its links. */
  lemma PostClimb(fn: PostVisitor, s: Work, c: PostPath, t: Tree)
    requires t.Bin? && !c.Top?
    requires Distinct(Plug(c, t)) && Models(s.tree, Plug(c, t), NULL) && ReadyPost(fn, s, Plug(c, t))
    ensures var s' := FoldPost(fn, Begin(fn, s, c), t);
            && Valid(s'.tree, c.id)
            && s'.tree[c.id].right == (if c.InLeft? then Root(c.right) else t.id)
            && (c.InLeft? && c.right.Bin? ==> c.right.id != t.id)
  {
    PostArrive(fn, s, c.up, Above(c, t));
    PostArrive(fn, s, c, t);
    var b := Begin(fn, s, c);
    if c.InRight? { PostFrame(fn, Begin(fn, s, c.up), c.left, c.id); }
    PostFrame(fn, b, t, c.id);
    assert t.id in Ids(t);
  }

  /** The node above the end of a path, with the subtree put back. */
  ghost function Above(c: PostPath, t: Tree): Tree
    requires !c.Top?
  {
    if c.InLeft? then Bin(c.id, c.token, t, c.right) else Bin(c.id, c.token, c.left, t)
  }

  /** Finishing the last operand of a node leaves the node itself to visit. */
  lemma PostOperandsDone(fn: PostVisitor, s: Work, c: PostPath, t: Tree)
    requires !c.Top? && (c.InLeft? ==> c.right.Nil?)
    ensures var u := Above(c, t);
            FoldPost(fn, Begin(fn, s, c), t) == FoldPost(fn, FoldPost(fn, Begin(fn, s, c.up), u.left), u.right)
  {
  }

  /** A node's turn: the visitor can run, and afterwards the links above the node say
      whether the walk climbs on or turns right. */
  lemma PostTurn(fn: PostVisitor, s: Work, c: PostPath, t: Tree, now: Work)
    requires t.Bin?
    requires Distinct(Plug(c, t)) && Models(s.tree, Plug(c, t), NULL) && ReadyPost(fn, s, Plug(c, t))
    requires now == FoldPost(fn, FoldPost(fn, Begin(fn, s, c), t.left), t.right)
    ensures CanVisitPost(fn, now, t.id)
    ensures var s' := VisitPost(fn, now, t.id);
            && s' == FoldPost(fn, Begin(fn, s, c), t)
            && Valid(s'.tree, t.id) && s'.tree[t.id].parent == Parent(c)
            && (c.Top? ==> s' == FoldPost(fn, s, t))
            && (!c.Top? ==>
                  && Valid(s'.tree, c.id)
                  && (s'.tree[c.id].right == t.id || s'.tree[c.id].right == NULL <==> c.InRight? || c.right.Nil?)
                  && (c.InLeft? && c.right.Bin? ==> s'.tree[c.id].right == c.right.id))
  {
    hide ReadyPost, VisitPost, CanVisitPost, Distinct, Ids, Models;
    PostArrive(fn, s, c, t);
    PostReady(fn, Begin(fn, s, c), t, Parent(c));
    PostFrame(fn, Begin(fn, s, c), t, Parent(c));
    if !c.Top? {
      PostClimb(fn, s, c, t);
    }
  }

  /** How many nodes a walk still has to visit. */
  ghost function Size(t: Tree): nat {
    if t.Nil? then 0 else 1 + Size(t.left) + Size(t.right)
  }

  ghost function Pending(c: PostPath): nat {
    match c
    case Top => 0
    case InLeft(_, _, r, up) => Size(r) + 1 + Pending(up)
    case InRight(_, _, _, up) => 1 + Pending(up)
  }

  lemma RootLinks(h: Heap, t: Tree, parent: Ptr)
    requires t.Bin? && Models(h, t, parent)
    ensures t.id < |h| && h[t.id].left == Root(t.left) && h[t.id].right == Root(t.right)
    ensures Models(h, t.left, t.id) && Models(h, t.right, t.id)
    ensures (Root(t.left) == NULL <==> t.left.Nil?) && (Root(t.right) == NULL <==> t.right.Nil?)
  {
  }

  /** Going down to the left operand, or to the right one if there is no other, the walk
      is at the same place with the same nodes left to visit. */
  lemma DescendStep(fn: PostVisitor, s: Work, h: Heap, c: PostPath, f: Tree)
    requires f.Bin? && Models(h, f, Parent(c))
    ensures f.id < |h| && h[f.id].left == Root(f.left) && h[f.id].right == Root(f.right)
    ensures f.left.Bin? ==>
      var c' := InLeft(f.id, f.token, f.right, c);
      && f.left.id < |h| && h[f.id].left != NULL
      && Plug(c', f.left) == Plug(c, f) && Begin(fn, s, c') == Begin(fn, s, c)
      && Pending(c') + Size(f.left) == Pending(c) + Size(f)
    ensures f.left.Nil? && f.right.Bin? ==>
      var c' := InRight(f.id, f.token, f.left, c);
      && f.right.id < |h| && h[f.id].left == NULL && h[f.id].right != NULL
      && Plug(c', f.right) == Plug(c, f) && Begin(fn, s, c') == Begin(fn, s, c)
      && Pending(c') + Size(f.right) == Pending(c) + Size(f)
    ensures f.left.Nil? && f.right.Nil? ==> h[f.id].left == NULL == h[f.id].right
  {
  }

  // ------------------------------------------------------------------
  // What every preorder walk keeps

  /** The linking pass finds a node behind every pointer it follows. */
  ghost predicate Linkable(h: Heap, t: Tree, n: nat) {
    match t
    case Nil => true
    case Bin(id, tok, l, r) =>
      && Linkable(h, l, n) && Linkable(h, r, n)
      && id < |h|
      && !tok.Subexp?
      && (!tok.Concat? ==> 0 <= h[id].nodeIdx < n)
      && (l.Bin? && (tok.OpAlt? || tok.OpDupAsterisk?) ==> Valid(h, At(h, l.id).first))
      && (r.Bin? && (tok.OpAlt? || tok.OpDupAsterisk?) ==> Valid(h, At(h, r.id).first))
      && (if tok.EndOfRe? then h[id].next == NULL else !tok.Concat? ==> Valid(h, h[id].next))
  }

  /** Called at the root of t, in any state, the visitor leaves the nodes outside t alone,
      and every node of t its links and its token. */
  ghost predicate KeepsLinks(visit: (Work, Ptr) -> Work, t: Tree)
    requires t.Bin?
  {
    forall s: Work | t.id < |s.tree| ::
      var s' := visit(s, t.id);
      && Outside(s.tree, s'.tree, Ids(t))
      && forall i: nat | i < |s.tree| :: SameShape(s.tree[i], s'.tree[i])
  }

  ghost predicate KeepsLinksAll(visit: (Work, Ptr) -> Work, t: Tree) {
    t.Bin? ==> KeepsLinks(visit, t) && KeepsLinksAll(visit, t.left) && KeepsLinksAll(visit, t.right)
  }

  ghost predicate ReadyPre(fn: PreVisitor, s: Work, t: Tree) {
    match fn
    case OptimizeSubexps => SubexpsBelow(t, |s.subexpMap|)
    case CalcNext => Operands(t)
    case LinkNfaNodes => Linkable(s.tree, t, |s.edests|) && |s.edests| == |s.nexts|
    case AnyPre(visit) => KeepsLinksAll(visit, t)
  }

  /** A preorder visit or walk of `ids`: nothing else changes, no pass resizes a table, and
      linking does not touch the tree. */
  ghost predicate PreKeeps(fn: PreVisitor, s: Work, s': Work, ids: set<nat>) {
    && Outside(s.tree, s'.tree, ids)
    && (!fn.AnyPre? ==> |s'.tree| == |s.tree| && |s'.subexpMap| == |s.subexpMap|
                        && |s'.edests| == |s.edests| && |s'.nexts| == |s.nexts|)
    && (fn.LinkNfaNodes? ==> s'.tree == s.tree)
  }

  lemma ReadyKept(fn: PreVisitor, s: Work, s': Work, ids: set<nat>, t: Tree)
    requires ReadyPre(fn, s, t) && PreKeeps(fn, s, s', ids)
    ensures ReadyPre(fn, s', t)
  {
  }

  lemma OptimizeVisitFrame(s: Work, t: Tree, parent: Ptr)
    requires t.Bin? && Distinct(t) && Models(s.tree, t, parent)
    ensures var s1 := VisitOptimize(s, t.id);
            var u := Spliced(OptimizeSubexps, t);
            PreKeeps(OptimizeSubexps, s, s1, Ids(t)) && Models(s1.tree, u, parent)
  {
    hide Models, Distinct, Put, SetParent, Ids, Outside;
    ModelsParts(s.tree, t, parent);
    if t.left.Bin? { ModelsParts(s.tree, t.left, t.id); }
    if DoubleSubexp(s.tree, t.id) {
      SpliceLeft(s.tree, t, parent);
    } else {
      OutsideNone(s.tree, Ids(t));
    }
  }

  /** The operand of the left operand takes its place. */
  lemma SpliceLeft(h: Heap, t: Tree, parent: Ptr)
    requires t.Bin? && t.left.Bin? && Distinct(t) && Models(h, t, parent)
    ensures var h1 := Put(h, t.id, At(h, t.id).(left := Root(t.left.left)));
            var h2 := SetParent(h1, Root(t.left.left), t.id);
            && |h2| == |h| && Outside(h, h2, Ids(t))
            && Models(h2, t.(left := t.left.left), parent)
  {
    hide Models, Distinct;
    var l := t.left;
    ModelsParts(h, t, parent);
    ModelsParts(h, l, t.id);
    var h1 := Put(h, t.id, h[t.id].(left := Root(l.left)));
    ModelsFrame(h, h1, l.left, l.id);
    ModelsFrame(h, h1, t.right, t.id);
    AdoptOne(h1, t.id, l.left, l.id, t.right, t.id);
    assert l.left.Bin? ==> l.left.id in Ids(l.left);
    var h2 := SetParent(h1, Root(l.left), t.id);
    ModelsIntro(h2, t.(left := l.left), parent);
  }

  lemma SplicedDistinct(fn: PreVisitor, t: Tree)
    requires t.Bin? && Distinct(t)
    ensures Distinct(Spliced(fn, t))
  {
  }

  lemma NextVisitFrame(h: Heap, t: Tree, parent: Ptr)
    requires t.Bin? && Distinct(t) && Models(h, t, parent)
    ensures var h' := VisitNext(h, t.id);
            |h'| == |h| && Outside(h, h', Ids(t)) && Models(h', t, parent)
  {
    assert t.left.Bin? ==> t.left.id in Ids(t);
    assert t.right.Bin? ==> t.right.id in Ids(t);
    var h1 := SetNext(h, Root(t.left), LeftNextOf(h, t.id));
    ModelsFrame(h, h1, t, parent);
    ModelsFrame(h1, VisitNext(h, t.id), t, parent);
  }

  lemma LinkVisitFrame(s: Work, t: Tree)
    requires t.Bin?
    ensures PreKeeps(LinkNfaNodes, s, VisitLink(s, t.id), Ids(t)) && VisitLink(s, t.id).tree == s.tree
  {
  }

  lemma AnyVisitFrame(visit: (Work, Ptr) -> Work, s: Work, t: Tree, parent: Ptr)
    requires t.Bin? && Models(s.tree, t, parent) && KeepsLinks(visit, t)
    ensures PreKeeps(AnyPre(visit), s, visit(s, t.id), Ids(t)) && Models(visit(s, t.id).tree, t, parent)
  {
    ModelsIds(s.tree, t, parent);
    ModelsFrame(s.tree, visit(s, t.id).tree, t, parent);
  }

  lemma VisitKeeps(fn: PreVisitor, s: Work, t: Tree, parent: Ptr)
    requires t.Bin? && Distinct(t) && Models(s.tree, t, parent) && ReadyPre(fn, s, t)
    ensures var s1 := VisitPre(fn, s, t.id);
            PreKeeps(fn, s, s1, Ids(t)) && Models(s1.tree, Spliced(fn, t), parent)
  {
    hide VisitOptimize, VisitNext, VisitLink, Models, Distinct, Linkable;
    match fn
    case OptimizeSubexps => OptimizeVisitFrame(s, t, parent);
    case CalcNext => NextVisitFrame(s.tree, t, parent);
    case LinkNfaNodes => LinkVisitFrame(s, t);
    case AnyPre(visit) => AnyVisitFrame(visit, s, t, parent);
  }

  /** What the visitor needs of a tree it also has of the operands that remain. */
  lemma ReadyOperands(fn: PreVisitor, s: Work, t: Tree)
    requires t.Bin? && ReadyPre(fn, s, t)
    ensures ReadyPre(fn, s, Spliced(fn, t).left) && ReadyPre(fn, s, Spliced(fn, t).right)
  {
    match fn
    case OptimizeSubexps => assert SubexpsBelow(t.left, |s.subexpMap|);
    case CalcNext => assert Operands(t.left);
    case LinkNfaNodes => assert Linkable(s.tree, t.left, |s.edests|);
    case AnyPre(visit) => assert KeepsLinksAll(visit, t.left);
  }

  lemma PreVisitFrame(fn: PreVisitor, s: Work, t: Tree, parent: Ptr)
    requires t.Bin? && Distinct(t) && Models(s.tree, t, parent) && ReadyPre(fn, s, t)
    ensures var s1 := VisitPre(fn, s, t.id);
            var u := Spliced(fn, t);
            PreKeeps(fn, s, s1, Ids(t)) && Models(s1.tree, u, parent)
    ensures ReadyPre(fn, VisitPre(fn, s, t.id), Spliced(fn, t).left)
    ensures ReadyPre(fn, VisitPre(fn, s, t.id), Spliced(fn, t).right)
  {
    VisitKeeps(fn, s, t, parent);
    hide VisitPre, PreKeeps, Models, Distinct, Ids;
    ReadyKept(fn, s, VisitPre(fn, s, t.id), Ids(t), t);
    ReadyOperands(fn, VisitPre(fn, s, t.id), t);
  }

  lemma PreCanVisit(fn: PreVisitor, s: Work, t: Tree, parent: Ptr)
    requires t.Bin? && Distinct(t) && Models(s.tree, t, parent) && ReadyPre(fn, s, t)
    ensures CanVisitPre(fn, s, t.id)
  {
    assert t.left.Bin? ==> t.left.id in Ids(t.left);
    assert t.right.Bin? ==> t.right.id in Ids(t.right);
    if t.left.Bin? {
      assert t.left.left.Bin? ==> t.left.left.id in Ids(t.left);
      if fn.OptimizeSubexps? { assert SubexpsBelow(t.left, |s.subexpMap|); }
    }
  }

  lemma {:induction false} PreFrame(fn: PreVisitor, s: Work, t: Tree, parent: Ptr)
    requires Distinct(t) && Models(s.tree, t, parent) && ReadyPre(fn, s, t)
    ensures PreKeeps(fn, s, FoldPre(fn, s, t), Ids(t))
    decreases t
  {
    hide ReadyPre, VisitPre;
    if t.Nil? {
    } else {
      var u := Spliced(fn, t);
      SplicedDistinct(fn, t);
      PreVisitFrame(fn, s, t, parent);
      var s1 := VisitPre(fn, s, t.id);
      PreFrame(fn, s1, u.left, t.id);
      var s2 := FoldPre(fn, s1, u.left);
      ModelsFrame(s1.tree, s2.tree, u.right, t.id);
      ReadyKept(fn, s1, s2, Ids(u.left), u.right);
      PreFrame(fn, s2, u.right, t.id);
    }
  }

  /** The path from the root to a node, with the right operands still to visit. */
  datatype PrePath =
    | PreTop
    | PreLeft(id: nat, right: Tree, up: PrePath)
    | PreRight(id: nat, up: PrePath)

  ghost function PreParent(c: PrePath): Ptr {
    if c.PreTop? then NULL else c.id
  }

  ghost function PreIds(c: PrePath): set<nat> {
    match c
    case PreTop => {}
    case PreLeft(id, r, up) => {id} + Ids(r) + PreIds(up)
    case PreRight(id, up) => {id} + PreIds(up)
  }

  /** What the walk will do once the subtree at the end of the path is finished. */
  ghost function Rest(fn: PreVisitor, c: PrePath, s: Work): Work {
    match c
    case PreTop => s
    case PreLeft(_, r, up) => Rest(fn, up, FoldPre(fn, s, r))
    case PreRight(_, up) => Rest(fn, up, s)
  }

  /** The links above `child`, and the operands still waiting there, are in place. */
  ghost predicate Waiting(fn: PreVisitor, s: Work, c: PrePath, child: Ptr) {
    match c
    case PreTop => true
    case PreLeft(id, r, up) =>
      && id < |s.tree| && s.tree[id].parent == PreParent(up) && s.tree[id].right == Root(r)
      && Models(s.tree, r, id) && Distinct(r) && ReadyPre(fn, s, r)
      && id !in Ids(r) && id !in PreIds(up) && Ids(r) !! PreIds(up)
      && Waiting(fn, s, up, id)
    case PreRight(id, up) =>
      && id < |s.tree| && s.tree[id].parent == PreParent(up) && s.tree[id].right == child
      && id !in PreIds(up)
      && Waiting(fn, s, up, id)
  }

  lemma {:induction false} WaitingKept(fn: PreVisitor, s: Work, s': Work, ids: set<nat>, c: PrePath, child: Ptr)
    requires Waiting(fn, s, c, child) && PreKeeps(fn, s, s', ids) && ids !! PreIds(c)
    ensures Waiting(fn, s', c, child)
    decreases c
  {
    match c
    case PreTop =>
    case PreLeft(id, r, up) =>
      ModelsFrame(s.tree, s'.tree, r, id);
      ReadyKept(fn, s, s', ids, r);
      WaitingKept(fn, s, s', ids, up, id);
    case PreRight(id, up) =>
      WaitingKept(fn, s, s', ids, up, id);
  }

  /** The walk is about to visit the subtree f at the end of the path c, and will end
      in `final`. */
  ghost predicate Arrived(fn: PreVisitor, s: Work, c: PrePath, f: Tree, final: Work) {
    && f.Bin? && Distinct(f) && Models(s.tree, f, PreParent(c)) && ReadyPre(fn, s, f)
    && Ids(f) !! PreIds(c) && Waiting(fn, s, c, f.id)
    && Rest(fn, c, FoldPre(fn, s, f)) == final
  }

  /** The walk has finished the subtree whose root is `node`. */
  ghost predicate Finished(fn: PreVisitor, s: Work, c: PrePath, node: Ptr, final: Work) {
    && Valid(s.tree, node) && s.tree[node].parent == PreParent(c)
    && (node >= 0 ==> node as nat !in PreIds(c)) && Waiting(fn, s, c, node)
    && Rest(fn, c, s) == final
  }

  lemma PreStart(fn: PreVisitor, s: Work, t: Tree)
    requires t.Bin? && Distinct(t) && Models(s.tree, t, NULL) && ReadyPre(fn, s, t)
    ensures Arrived(fn, s, PreTop, t, FoldPre(fn, s, t))
  {
    assert PreIds(PreTop) == {};
  }

  /** One visit: the walk goes left if it can, else right if it can, else the subtree
      is finished. */
  lemma PreTurn(fn: PreVisitor, s: Work, c: PrePath, f: Tree, final: Work)
    requires Arrived(fn, s, c, f, final)
    ensures CanVisitPre(fn, s, f.id)
    ensures var s1 := VisitPre(fn, s, f.id);
            var u := Spliced(fn, f);
            && Valid(s1.tree, f.id) && s1.tree[f.id].left == Root(u.left) && s1.tree[f.id].right == Root(u.right)
            && (u.left.Bin? ==> Arrived(fn, s1, PreLeft(f.id, u.right, c), u.left, final))
            && (u.left.Nil? && u.right.Bin? ==> Arrived(fn, s1, PreRight(f.id, c), u.right, final))
            && (u.left.Nil? && u.right.Nil? ==> Finished(fn, s1, c, f.id, final))
  {
    hide VisitPre, ReadyPre, CanVisitPre, Distinct, FoldPre, PreKeeps, Models;
    var s1 := VisitPre(fn, s, f.id);
    var u := Spliced(fn, f);
    FoldPreSplit(fn, s, f);
    PreCanVisit(fn, s, f, PreParent(c));
    PreVisitFrame(fn, s, f, PreParent(c));
    SplicedDistinct(fn, f);
    WaitingKept(fn, s, s1, Ids(f), c, f.id);
    RootLinks(s1.tree, u, PreParent(c));
    PreIntoOperands(fn, s1, c, u, final);
  }

  lemma FoldPreSplit(fn: PreVisitor, s: Work, t: Tree)
    requires t.Bin?
    ensures var u := Spliced(fn, t);
            FoldPre(fn, s, t) == FoldPre(fn, FoldPre(fn, VisitPre(fn, s, t.id), u.left), u.right)
  {
  }

  lemma PreIntoOperands(fn: PreVisitor, s: Work, c: PrePath, u: Tree, final: Work)
    requires u.Bin? && Distinct(u) && Models(s.tree, u, PreParent(c))
    requires ReadyPre(fn, s, u.left) && ReadyPre(fn, s, u.right)
    requires Ids(u) !! PreIds(c) && Waiting(fn, s, c, u.id)
    requires Rest(fn, c, FoldPre(fn, FoldPre(fn, s, u.left), u.right)) == final
    ensures u.left.Bin? ==> Arrived(fn, s, PreLeft(u.id, u.right, c), u.left, final)
    ensures u.left.Nil? && u.right.Bin? ==> Arrived(fn, s, PreRight(u.id, c), u.right, final)
    ensures u.left.Nil? && u.right.Nil? ==> Finished(fn, s, c, u.id, final)
  {
    hide ReadyPre;
    hide Models, Distinct, FoldPre;
    ModelsParts(s.tree, u, PreParent(c));
    NilWalk(fn, s);
  }

  lemma NilWalk(fn: PreVisitor, s: Work)
    ensures FoldPre(fn, s, Nil) == s
  {
  }

  /** One step up: on to the right operand, or one more subtree is finished. */
  lemma PreClimb(fn: PreVisitor, s: Work, c: PrePath, node: Ptr, final: Work)
    requires Finished(fn, s, c, node, final) && !c.PreTop?
    ensures Valid(s.tree, c.id)
    ensures if c.PreLeft? && c.right.Bin?
            then && s.tree[c.id].right == c.right.id && c.right.id != node
                 && Arrived(fn, s, PreRight(c.id, c.up), c.right, final)
            else && (s.tree[c.id].right == node || s.tree[c.id].right == NULL)
                 && Finished(fn, s, c.up, c.id, final)
  {
    if c.PreLeft? && c.right.Bin? {
      assert c.right.id in Ids(c.right);
    }
  }

  ghost function PrePending(c: PrePath): nat {
    match c
    case PreTop => 0
    case PreLeft(_, r, up) => Size(r) + PrePending(up)
    case PreRight(_, up) => PrePending(up)
  }

  ghost function Depth(c: PrePath): nat {
    if c.PreTop? then 0 else 1 + Depth(c.up)
  }

  lemma {:induction false} SplicedSize(fn: PreVisitor, t: Tree)
    requires t.Bin?
    ensures Size(Spliced(fn, t)) <= Size(t)
  {
  }

  // ------------------------------------------------------------------
  // The passes one after the other

  ghost predicate KeepsNext(h: Heap, h': Heap) {
    |h| <= |h'| && forall i: nat :: i < |h| ==> h'[i].next == h[i].next
  }

  /** The parts of the work that the two rewriting passes leave alone. */
  ghost predicate RewriteKeeps(s: Work, s': Work) {
    && KeepsNext(s.tree, s'.tree)
    && s'.nodes == s.nodes && s'.nexts == s.nexts && s'.edests == s.edests && s'.noSub == s.noSub
    && s'.hasPluralMatch == s.hasPluralMatch
  }

  lemma CreateKeeps(h: Heap, left: Ptr, right: Ptr, token: Token)
    ensures KeepsNext(h, Create(h, left, right, token))
  {
  }

  lemma LowerSubexpKeeps(s: Work, p: Ptr)
    ensures KeepsNext(s.tree, LowerSubexpOf(s, p).0)
  {
    var node := At(s.tree, p);
    var idx := if node.token.Subexp? then node.token.idx else 0;
    CreateKeeps(s.tree, NULL, NULL, OpOpenSubexp(idx));
    var h1 := Create(s.tree, NULL, NULL, OpOpenSubexp(idx));
    CreateKeeps(h1, NULL, NULL, OpCloseSubexp(idx));
    var h2 := Create(h1, NULL, NULL, OpCloseSubexp(idx));
    CreateKeeps(h2, node.left, |h1|, Concat);
    var h3 := if node.left != NULL then Create(h2, node.left, |h1|, Concat) else h2;
    CreateKeeps(h3, |s.tree|, if node.left != NULL then |h2| else |h1|, Concat);
  }

  lemma HangKeeps(h: Heap, p: Ptr, q: Ptr)
    ensures KeepsNext(h, SetParent(Put(h, p, At(h, p).(left := q)), q, p))
    ensures KeepsNext(h, SetParent(Put(h, p, At(h, p).(right := q)), q, p))
  {
  }

  lemma LowerLeftKeeps(s: Work, p: Ptr)
    ensures RewriteKeeps(s, LowerLeft(s, p))
  {
    var (h, q) := LowerSubexpOf(s, At(s.tree, p).left);
    LowerSubexpKeeps(s, At(s.tree, p).left);
    HangKeeps(h, p, q);
  }

  lemma LowerRightKeeps(s: Work, p: Ptr)
    ensures RewriteKeeps(s, LowerRight(s, p))
  {
    var (h, q) := LowerSubexpOf(s, At(s.tree, p).right);
    LowerSubexpKeeps(s, At(s.tree, p).right);
    HangKeeps(h, p, q);
  }

  lemma {:induction false} LowerKeeps(s: Work, t: Tree)
    ensures RewriteKeeps(s, FoldPost(LowerSubexps, s, t))
    decreases t
  {
    if t.Nil? {
    } else {
      LowerKeeps(s, t.left);
      var s1 := FoldPost(LowerSubexps, s, t.left);
      LowerKeeps(s1, t.right);
      var s2 := FoldPost(LowerSubexps, s1, t.right);
      LowerLeftKeeps(s2, t.id);
      LowerRightKeeps(LowerLeft(s2, t.id), t.id);
    }
  }

  lemma {:induction false} OptimizeKeeps(s: Work, t: Tree)
    ensures RewriteKeeps(s, FoldPre(OptimizeSubexps, s, t))
    decreases t
  {
    if t.Nil? {
    } else {
      var u := Spliced(OptimizeSubexps, t);
      var s1 := VisitOptimize(s, t.id);
      OptimizeKeeps(s1, u.left);
      OptimizeKeeps(FoldPre(OptimizeSubexps, s1, u.left), u.right);
    }
  }

  lemma {:induction false} OptimizedDistinct(t: Tree)
    requires Distinct(t)
    ensures Distinct(Optimized(t)) && Ids(Optimized(t)) <= Ids(t)
    decreases t
  {
    if t.Nil? {
    } else {
      var u := Spliced(OptimizeSubexps, t);
      SplicedDistinct(OptimizeSubexps, t);
      OptimizedDistinct(u.left);
      OptimizedDistinct(u.right);
    }
  }

  /** The optimising walk leaves the optimised tree in place. */
  lemma {:induction false} OptimizeFold(s: Work, t: Tree, parent: Ptr)
    requires Distinct(t) && Models(s.tree, t, parent) && SubexpsBelow(t, |s.subexpMap|)
    ensures Models(FoldPre(OptimizeSubexps, s, t).tree, Optimized(t), parent)
    decreases Size(t), 1
  {
    if t.Bin? {
      var u := Spliced(OptimizeSubexps, t);
      SplicedDistinct(OptimizeSubexps, t);
      SplicedSize(OptimizeSubexps, t);
      PreVisitFrame(OptimizeSubexps, s, t, parent);
      var s1 := VisitOptimize(s, t.id);
      OptimizeOperands(s1, u, parent);
    }
  }

  lemma {:induction false} OptimizeOperands(s: Work, u: Tree, parent: Ptr)
    requires u.Bin? && Distinct(u) && Models(s.tree, u, parent)
    requires SubexpsBelow(u.left, |s.subexpMap|) && SubexpsBelow(u.right, |s.subexpMap|)
    ensures Models(FoldPre(OptimizeSubexps, FoldPre(OptimizeSubexps, s, u.left), u.right).tree,
                   Bin(u.id, u.token, Optimized(u.left), Optimized(u.right)), parent)
    decreases Size(u), 0
  {
    OptimizeFold(s, u.left, u.id);
    PreFrame(OptimizeSubexps, s, u.left, u.id);
    var s2 := FoldPre(OptimizeSubexps, s, u.left);
    ModelsFrame(s.tree, s2.tree, u.right, u.id);
    OptimizeFold(s2, u.right, u.id);
    PreFrame(OptimizeSubexps, s2, u.right, u.id);
    OptimizedDistinct(u.left);
    ModelsFrame(s2.tree, FoldPre(OptimizeSubexps, s2, u.right).tree, Optimized(u.left), u.id);
  }

  /** The optimising walk does to the group map, and to the groups that back-references may
      name, what the tree says. */
  lemma {:induction false} MapFold(s: Work, t: Tree, parent: Ptr)
    requires Distinct(t) && Models(s.tree, t, parent) && SubexpsBelow(t, |s.subexpMap|)
    ensures var s' := FoldPre(OptimizeSubexps, s, t);
            && s'.subexpMap == MapAfter(s.subexpMap, t)
            && s'.usedBkrefMap == UsedAfter(s.usedBkrefMap, t)
    decreases Size(t)
  {
    hide Models, Distinct, SubexpsBelow, FoldPre, MapAfter, UsedAfter, VisitOptimize;
    if t.Nil? {
      MapNothing(s);
    } else {
      var u := Spliced(OptimizeSubexps, t);
      var s1 := VisitOptimize(s, t.id);
      FoldPreSplit(OptimizeSubexps, s, t);
      SplicedDistinct(OptimizeSubexps, t);
      OperandSizes(t);
      PreVisitFrame(OptimizeSubexps, s, t, parent);
      MapVisit(s, t, parent);
      RootLinks(s1.tree, u, parent);
      DistinctOperands(u);
      var s2 := FoldPre(OptimizeSubexps, s1, u.left);
      MapFold(s1, u.left, u.id);
      PreFrame(OptimizeSubexps, s1, u.left, u.id);
      ModelsFrame(s1.tree, s2.tree, u.right, u.id);
      MapFold(s2, u.right, u.id);
      MapUnfold(s.subexpMap, s.usedBkrefMap, t);
    }
  }

  lemma OperandSizes(t: Tree)
    requires t.Bin?
    ensures var u := Spliced(OptimizeSubexps, t); Size(u.left) < Size(t) && Size(u.right) < Size(t)
  {
  }

  lemma DistinctOperands(t: Tree)
    requires t.Bin? && Distinct(t)
    ensures Distinct(t.left) && Distinct(t.right) && Ids(t.left) !! Ids(t.right)
  {
  }

  lemma MapNothing(s: Work)
    ensures FoldPre(OptimizeSubexps, s, Nil) == s
    ensures MapAfter(s.subexpMap, Nil) == s.subexpMap && UsedAfter(s.usedBkrefMap, Nil) == s.usedBkrefMap
  {
  }

  /** One visit, on the map and on the groups in use. */
  lemma MapVisit(s: Work, t: Tree, parent: Ptr)
    requires t.Bin? && Distinct(t) && Models(s.tree, t, parent) && SubexpsBelow(t, |s.subexpMap|)
    ensures var s1 := VisitOptimize(s, t.id);
            if Straddles(t) then
              var i, j := t.token.idx, t.left.token.idx;
              && s1.subexpMap == Redirected(s.subexpMap, j, i)
              && s1.usedBkrefMap == if j < BITSET_WORD_BITS then s.usedBkrefMap - {j} else s.usedBkrefMap
            else s1.subexpMap == s.subexpMap && s1.usedBkrefMap == s.usedBkrefMap
  {
    hide Models, Distinct;
    RootLinks(s.tree, t, parent);
    ModelsParts(s.tree, t, parent);
    if t.left.Bin? { ModelsParts(s.tree, t.left, t.id); }
  }

  lemma MapUnfold(table: seq<nat>, used: set<nat>, t: Tree)
    requires t.Bin?
    ensures var u := Spliced(OptimizeSubexps, t);
            var m1 := if Straddles(t) then Redirected(table, t.left.token.idx, t.token.idx) else table;
            var u1 := if Straddles(t) && t.left.token.idx < BITSET_WORD_BITS then used - {t.left.token.idx} else used;
            && MapAfter(table, t) == MapAfter(MapAfter(m1, u.left), u.right)
            && UsedAfter(used, t) == UsedAfter(UsedAfter(u1, u.left), u.right)
  {
  }

  lemma {:induction false} LinkableIntro(h: Heap, t: Tree, b: nat, nx: Ptr, n: nat)
    requires WellFormed(t) && Operands(t) && NoSubexp(t)
    requires FirstSet(h, t, b) && NextSet(h, t, nx) && Valid(h, nx) && b + Count(t) <= n
    ensures Linkable(h, t, n)
  {
    if t.Nil? {
    } else {
      var l, r, rb := t.left, t.right, b + Count(t.left);
      if l.Bin? { FirstOfFirst(h, l, b); }
      if r.Bin? { FirstOfFirst(h, r, rb); }
      LinkableIntro(h, l, b, LeftNext(t, nx), n);
      LinkableIntro(h, r, rb, nx, n);
    }
  }

  lemma RootOperands(t: Tree)
    requires WellFormedRoot(t)
    ensures Operands(t)
  {
    if t.token.Concat? {
      WellFormedOperands(t.left);
      assert Operands(t.right);
    }
  }

  /** The tree handed to the NFA-building passes: lowered, in place, not yet linked. */
  ghost predicate Lowered(s: Work, t: Tree) {
    && WellFormedRoot(t) && NoSubexp(t) && Distinct(t) && Models(s.tree, t, NULL)
    && s.nodes == [] && s.nexts == [] && s.edests == []
    && s.tree[t.id].next == NULL
  }

  /** The tree t is in the storage, each node once. */
  ghost predicate Holds(s: Work, t: Tree) {
    t.Bin? && Distinct(t) && Models(s.tree, t, NULL)
  }

  /** From the tree of the parser to the optimised one. */
  lemma OptimizeStage(s: Work, t: Tree)
    requires WellFormedRoot(t) && Distinct(t) && Models(s.tree, t, NULL) && SubexpsBelow(t, |s.subexpMap|)
    requires At(s.tree, t.id).next == NULL
    ensures t.Bin? && ReadyPre(OptimizeSubexps, s, t)
    ensures Optimized(t).Bin? && Optimized(t).id == t.id
    ensures var s' := FoldPre(OptimizeSubexps, s, t);
            && Holds(s', Optimized(t)) && At(s'.tree, t.id).next == NULL
            && s' == s.(tree := s'.tree, subexpMap := MapAfter(s.subexpMap, t),
                        usedBkrefMap := UsedAfter(s.usedBkrefMap, t))
  {
    assert Optimized(t).id == t.id;
    assert ReadyPre(OptimizeSubexps, s, t);
    hide Models, Distinct, ReadyPre, SubexpsBelow, WellFormedRoot, FoldPre, Optimized;
    OptimizeFold(s, t, NULL);
    OptimizeKeeps(s, t);
    OptimizedDistinct(t);
    MapFold(s, t, NULL);
    PreFrame(OptimizeSubexps, s, t, NULL);
  }

  /** From the optimised tree to the lowered one. */
  lemma LowerStage(s: Work, t: Tree)
    requires WellFormedRoot(t) && Holds(s, Optimized(t))
    requires s.nodes == [] && s.nexts == [] && s.edests == []
    requires At(s.tree, t.id).next == NULL
    ensures var s' := FoldPost(LowerSubexps, s, Optimized(t));
            var t' := Lower(s.noSub, s.usedBkrefMap, Optimized(t), |s.tree|).0;
            && Lowered(s', t') && Holds(s', t') && t'.id == t.id && SameLang(t, t')
                && (NoEmptyBracket(t) ==> NoEmptyBracket(t'))
            && s' == s.(tree := s'.tree)
  {
    RewrittenRoot(s.noSub, s.usedBkrefMap, t, |s.tree|);
    LowerFold(s, Optimized(t), NULL);
    LowerKeeps(s, Optimized(t));
  }

  /** After FIRST: what the NEXT pass starts from. */
  ghost predicate Firsts(s: Work, t: Tree) {
    && WellFormedRoot(t) && NoSubexp(t) && Operands(t) && Distinct(t) && Models(s.tree, t, NULL)
    && FirstSet(s.tree, t, 0) && TokensSet(s.nodes, t, 0) && Sized(s) && |s.nodes| == Count(t)
  }

  lemma FirstStage(s: Work, t: Tree)
    requires Lowered(s, t)
    ensures ReadyPost(CalcFirst, s, t)
    ensures var s' := FoldPost(CalcFirst, s, t);
            && Firsts(s', t) && Holds(s', t) && s'.tree[t.id].next == NULL
            && s' == s.(tree := s'.tree, nodes := s'.nodes, nexts := s'.nexts, edests := s'.edests)
  {
    RootOperands(t);
    FirstShape(s, t);
    FirstFold(s, t, NULL);
    OnlyFirstModels(s.tree, FoldPost(CalcFirst, s, t).tree, Ids(t), t, NULL);
  }

  lemma NextStage(s: Work, t: Tree)
    requires Firsts(s, t) && s.tree[t.id].next == NULL
    ensures ReadyPre(CalcNext, s, t)
    ensures var s' := FoldPre(CalcNext, s, t);
            Firsts(s', t) && Holds(s', t) && NextSet(s'.tree, t, NULL) && s' == s.(tree := s'.tree)
  {
    NextFold(s, t, NULL, 0);
    OnlyNextModels(s.tree, FoldPre(CalcNext, s, t).tree, Ids(t), t, NULL, 0);
  }

  /** The automaton m, started at `first`, stands for t: it accepts exactly the words of t,
      its last node and no other is END_OF_RE, and unless a bracket of t is empty, no node
      is a dead end. */
  ghost predicate Compiled(m: Nfa, first: int, t: Tree) {
    && ProperNfa(m) && 0 <= first < |m.nodes|
    && (forall w: Word :: Accepts(m, first, w) <==> InLang(t, w))
    && (forall i: nat :: i < |m.nodes| ==> (m.nodes[i].EndOfRe? <==> i == |m.nodes| - 1))
    && (NoEmptyBracket(t) ==> forall i: nat :: i < |m.nodes| ==> Live(m, i))
  }

  lemma WiredCompiled(m: Nfa, t: Tree, t0: Tree)
    requires WellFormedRoot(t) && NoSubexp(t) && Wired(m, t, 0, MISSING)
    requires |m.nodes| == |m.nexts| == |m.edests| == Count(t)
    requires SameLang(t0, t) && (NoEmptyBracket(t0) ==> NoEmptyBracket(t))
    ensures Compiled(m, FirstIdx(t, 0), t0)
  {
    hide InLang, Accepts, Wired, Live, EdgesOk;
    WiredProper(m, t);
    WiredEnds(m, t);
    forall w: Word ensures Accepts(m, FirstIdx(t, 0), w) <==> InLang(t0, w) {
      WiredAccepts(m, t, w);
    }
  }

  /** Linking notes whether the pattern has a choice in it. */
  lemma {:induction false} PluralFold(s: Work, t: Tree, parent: Ptr, b: nat)
    requires Models(s.tree, t, parent) && FirstSet(s.tree, t, b) && Sized(s) && b + Count(t) <= |s.nodes|
    ensures var s' := FoldPre(LinkNfaNodes, s, t);
            && s'.tree == s.tree && s'.nodes == s.nodes && Sized(s')
            && (s'.hasPluralMatch <==> s.hasPluralMatch || Branching(t))
    decreases t
  {
    hide Models, FirstSet, FoldPre, VisitLink, Sized;
    if t.Nil? {
      PluralNone(s);
    } else {
      FoldPreStep(LinkNfaNodes, s, t);
      OperandModels(s.tree, t, parent);
      FirstSetParts(s.tree, t, b);
      Extent(t, b);
      PluralVisit(s, t, parent, b);
      var s1 := VisitLink(s, t.id);
      PluralFold(s1, t.left, t.id, b);
      PluralFold(FoldPre(LinkNfaNodes, s1, t.left), t.right, t.id, b + Count(t.left));
    }
  }

  lemma PluralNone(s: Work)
    ensures FoldPre(LinkNfaNodes, s, Nil) == s
  {
  }

  lemma PluralVisit(s: Work, t: Tree, parent: Ptr, b: nat)
    requires t.Bin? && Models(s.tree, t, parent) && FirstSet(s.tree, t, b) && Sized(s) && b + Count(t) <= |s.nodes|
    ensures var s1 := VisitLink(s, t.id);
            && s1.tree == s.tree && s1.nodes == s.nodes && Sized(s1)
            && (s1.hasPluralMatch <==> s.hasPluralMatch || t.token.OpAlt? || t.token.OpDupAsterisk?)
  {
    FirstSetParts(s.tree, t, b);
    Extent(t, b);
    if !t.token.Concat? { OwnIsFirst(t, b); }
    hide FirstSet, FirstIdx;
  }

  lemma LinkReady(s: Work, t: Tree)
    requires Firsts(s, t) && NextSet(s.tree, t, NULL)
    ensures ReadyPre(LinkNfaNodes, s, t)
  {
    FirstOfFirst(s.tree, t, 0);
    if t.token.Concat? {
      FirstOfFirst(s.tree, t.right, Count(t.left));
      LinkableIntro(s.tree, t.left, 0, FirstId(t.right), |s.nodes|);
      assert Linkable(s.tree, t.right, |s.nodes|);
    }
  }

  lemma LinkStage(s: Work, t: Tree, t0: Tree)
    requires Firsts(s, t) && NextSet(s.tree, t, NULL)
    requires SameLang(t0, t) && (NoEmptyBracket(t0) ==> NoEmptyBracket(t))
    ensures ReadyPre(LinkNfaNodes, s, t)
    ensures var s' := FoldPre(LinkNfaNodes, s, t);
            && Valid(s'.tree, t.id) && Valid(s'.tree, s'.tree[t.id].first)
            && Compiled(NfaOf(s'), s'.tree[s'.tree[t.id].first].nodeIdx, t0)
            && s' == s.(nexts := s'.nexts, edests := s'.edests, hasPluralMatch := s.hasPluralMatch || Branching(t))
  {
    LinkReady(s, t);
    hide ReadyPre, Firsts, NextSet, WellFormedRoot, NoSubexp, NoEmptyBracket, SameLang, Wired, Compiled, FoldPre,
        Count, FirstIdx, Branching;
    RootFirst(s, t);
    LinkOutcome(s, t);
    WiredCompiled(NfaOf(FoldPre(LinkNfaNodes, s, t)), t, t0);
  }

  lemma RootFirst(s: Work, t: Tree)
    requires Firsts(s, t)
    ensures WellFormedRoot(t) && NoSubexp(t) && t.Bin?
    ensures Valid(s.tree, t.id) && Valid(s.tree, s.tree[t.id].first)
    ensures s.tree[s.tree[t.id].first].nodeIdx == FirstIdx(t, 0)
  {
    FirstOfFirst(s.tree, t, 0);
  }

  lemma LinkOutcome(s: Work, t: Tree)
    requires Firsts(s, t) && NextSet(s.tree, t, NULL)
    ensures var s' := FoldPre(LinkNfaNodes, s, t);
            && Wired(NfaOf(s'), t, 0, MISSING) && s'.tree == s.tree
            && |s'.nodes| == |s'.nexts| == |s'.edests| == Count(t)
            && s' == s.(nexts := s'.nexts, edests := s'.edests, hasPluralMatch := s.hasPluralMatch || Branching(t))
  {
    hide Models, Distinct, Operands, NextSet, TokensSet, WellFormedRoot, NoSubexp, FirstSet, Wired, FoldPre, Count,
        Branching, Sized, FirstIdx;
    PluralFold(s, t, NULL, 0);
    LinkFold(s, t, NULL, 0, NULL);
    EdgesKeep(s, FoldPre(LinkNfaNodes, s, t), 0, Count(t));
  }

  lemma FirstTokens(s: Work, t: Tree)
    requires Firsts(s, t)
    ensures NoSubexp(t) && TokensSet(s.nodes, t, 0) && |s.nodes| == Count(t)
  {
  }

  lemma IdentityIs(table: seq<nat>)
    ensures Identity(table) <==> forall k: nat :: k < |table| ==> table[k] == k
  {
  }

  /** What compiling a tree of n groups leaves besides the automaton. The group map is there
      if and only if some group is absorbed, sends each of these to the group that absorbs
      it and the others to themselves. Back-references may still name the groups they did,
      but for absorbed ones. The brackets in the automaton are those left of the pattern, in
      its order. And a '|' or '*' is noted. */
  ghost predicate Grouped(s: Work, s': Work, n: nat, t: Tree) {
    && (GroupsApart(t) ==> MapTells(s'.subexpMap, n, t))
    && (s'.subexpMap == [] || (|s'.subexpMap| == n && !Identity(s'.subexpMap)))
    && (forall j: nat :: j in s'.usedBkrefMap <==>
          j in s.usedBkrefMap && !(j < BITSET_WORD_BITS && Absorbed(t, j)))
    && MarksIn(s'.nodes) == BracketsLeft(s'.noSub, s'.usedBkrefMap, t, false)
    && (s'.hasPluralMatch <==> s.hasPluralMatch || Branching(t))
  }

  /** The map, before the optimising walk and once it has been looked at. */
  ghost predicate MapDone(s: Work, s0: Work, walked: seq<nat>, s1: Work, n: nat, t: Tree) {
    && s0 == s.(subexpMap := s0.subexpMap) && |s0.subexpMap| == n && Identity(s0.subexpMap)
    && walked == MapAfter(s0.subexpMap, t)
    && s1 == s0.(tree := s1.tree, subexpMap := if Identity(walked) then [] else walked,
                 usedBkrefMap := UsedAfter(s.usedBkrefMap, t))
  }

  lemma GroupedIs(s: Work, s0: Work, walked: seq<nat>, s1: Work, s': Work, n: nat, t: Tree)
    requires WellFormedRoot(t) && SubexpsBelow(t, n) && MapDone(s, s0, walked, s1, n, t)
    requires s'.subexpMap == s1.subexpMap && s'.usedBkrefMap == s1.usedBkrefMap && s'.noSub == s1.noSub
    requires var t2 := Lower(s1.noSub, s1.usedBkrefMap, Optimized(t), |s1.tree|).0;
             && NoSubexp(t2) && TokensSet(s'.nodes, t2, 0) && |s'.nodes| == Count(t2)
             && s'.hasPluralMatch == (s1.hasPluralMatch || Branching(t2))
    ensures Grouped(s, s', n, t)
  {
    hide Absorbs, MarksIn, BracketsLeft, Branching, TokensSet, NoSubexp, Count, Lower, MapTells, GroupsApart;
    RootGroups(t, s.usedBkrefMap, s0.subexpMap, n);
    RootMarks(s1.noSub, s1.usedBkrefMap, t, |s1.tree|, s'.nodes);
    RootBranching(s1.noSub, s1.usedBkrefMap, t, |s1.tree|);
  }

  /** The four walks that follow: each finds the tree it is for, and the last leaves what
      was wanted. */
  lemma Passes(s: Work, s0: Work, walked: seq<nat>, s1: Work, n: nat, t: Tree, t2: Tree)
    requires WellFormedRoot(t) && SubexpsBelow(t, n) && MapDone(s, s0, walked, s1, n, t)
    requires s.nodes == [] && s.nexts == [] && s.edests == []
    requires Holds(s1, Optimized(t)) && At(s1.tree, t.id).next == NULL
    requires t2 == Lower(s1.noSub, s1.usedBkrefMap, Optimized(t), |s1.tree|).0
    ensures ReadyPost(LowerSubexps, s1, Optimized(t)) && t2.Bin? && t2.id == t.id
    ensures var a := FoldPost(LowerSubexps, s1, Optimized(t));
            var b := FoldPost(CalcFirst, a, t2);
            var c := FoldPre(CalcNext, b, t2);
            var d := FoldPre(LinkNfaNodes, c, t2);
            && Holds(a, t2) && ReadyPost(CalcFirst, a, t2)
            && Holds(b, t2) && ReadyPre(CalcNext, b, t2)
            && Holds(c, t2) && ReadyPre(LinkNfaNodes, c, t2)
            && Valid(d.tree, t2.id) && Valid(d.tree, d.tree[t2.id].first)
            && Compiled(NfaOf(d), d.tree[d.tree[t2.id].first].nodeIdx, t)
            && d.noSub == s.noSub && Grouped(s, d, n, t)
  {
    hide FoldPost, FoldPre, Lower, SameLang, Compiled, SubexpsBelow, NoEmptyBracket, Grouped, Branching,
        MapAfter, UsedAfter, Identity, ReadyPre, Firsts, Lowered, NextSet, Models, Distinct, WellFormedRoot,
        Optimized, NoSubexp, TokensSet, Count;
    var a := FoldPost(LowerSubexps, s1, Optimized(t));
    var b := FoldPost(CalcFirst, a, t2);
    var c := FoldPre(CalcNext, b, t2);
    LowerStage(s1, t);
    FirstStage(a, t2);
    NextStage(b, t2);
    LinkStage(c, t2, t);
    FirstTokens(c, t2);
    GroupedIs(s, s0, walked, s1, FoldPre(LinkNfaNodes, c, t2), n, t);
  }

  /** Replacing a SUBEXP only adds nodes and redirects the parent of its operand. */
  lemma LowerSubexpGrows(s: Work, p: Ptr)
    requires Valid(s.tree, p) && s.tree[p].token.Subexp? && NullOrValid(s.tree, s.tree[p].left)
    ensures var (h, q) := LowerSubexpOf(s, p);
            && |s.tree| <= |h| && Valid(h, q)
            && forall i: nat :: i < |s.tree| && i != s.tree[p].left ==> h[i] == s.tree[i]
    ensures Valid(s.tree, s.tree[p].left) ==>
              SameShape(LowerSubexpOf(s, p).0[s.tree[p].left].(parent := s.tree[s.tree[p].left].parent),
                        s.tree[s.tree[p].left])
  {
  }

  /** After its left operand, the right operand of a node can be replaced. */
  lemma RightStaysReady(s: Work, p: Ptr)
    requires CanVisitPost(LowerSubexps, s, p)
    ensures var h := LowerLeft(s, p).tree;
            && Valid(h, p) && NullOrValid(h, h[p].right)
            && (h[p].right != NULL && h[h[p].right].token.Subexp? ==> NullOrValid(h, h[h[p].right].left))
  {
    hide LowerSubexpOf;
    var left := s.tree[p].left;
    if left != NULL && s.tree[left].token.Subexp? {
      LowerSubexpGrows(s, left);
    }
  }

  /** re_dfa_t, with the fields of regex_t the compiler consults. */
  class ReDfa {
    var tree: seq<BinTree>
    var nodes: seq<Token>
    var nexts: seq<int>
    var edests: seq<seq<int>>
    var subexpMap: seq<nat>
    var usedBkrefMap: set<nat>
    var noSub: bool
    var hasPluralMatch: bool

    function State(): Work
      reads this
    {
      Work(tree, nodes, nexts, edests, subexpMap, usedBkrefMap, noSub, hasPluralMatch)
    }

    /** What a visitor of the caller's own leaves behind. */
    method Become(s: Work)
      modifies this
      ensures State() == s
    {
      tree, nodes, nexts, edests := s.tree, s.nodes, s.nexts, s.edests;
      subexpMap, usedBkrefMap, noSub, hasPluralMatch := s.subexpMap, s.usedBkrefMap, s.noSub, s.hasPluralMatch;
    }

    /** create_token_tree */
    method CreateTree(left: Ptr, right: Ptr, token: Token) returns (p: Ptr)
      requires NullOrValid(tree, left) && NullOrValid(tree, right)
      modifies this`tree
      ensures p == |old(tree)| && tree == Create(old(tree), left, right, token)
    {
      p := |tree|;
      tree := tree + [BinTree(NULL, left, right, NULL, NULL, token, MISSING)];
      if left != NULL {
        tree := tree[left := tree[left].(parent := p)];
      }
      if right != NULL {
        tree := tree[right := tree[right].(parent := p)];
      }
    }

    // ----------------------------------------------------------------
    // Visitors

    /** lower_subexp */
    method LowerSubexp(p: Ptr) returns (q: Ptr)
      requires Valid(tree, p) && tree[p].token.Subexp? && NullOrValid(tree, tree[p].left)
      modifies this`tree
      ensures (tree, q) == LowerSubexpOf(old(State()), p)
      ensures Valid(tree, q)
    {
      var node := tree[p];
      var idx := node.token.idx;
      if noSub && node.left != NULL && (idx >= BITSET_WORD_BITS || idx !in usedBkrefMap) {
        return node.left;
      }
      var op := CreateTree(NULL, NULL, OpOpenSubexp(idx));
      var cls := CreateTree(NULL, NULL, OpCloseSubexp(idx));
      var tree1 := cls;
      if node.left != NULL {
        tree1 := CreateTree(node.left, cls, Concat);
      }
      q := CreateTree(op, tree1, Concat);
    }

    /** lower_subexps */
    method LowerSubexpsAt(p: Ptr)
      requires CanVisitPost(LowerSubexps, State(), p)
      modifies this`tree
      ensures State() == VisitPost(LowerSubexps, old(State()), p)
    {
      hide LowerSubexpOf;
      LowerLeftAt(p);
      LowerRightAt(p);
    }

    method LowerLeftAt(p: Ptr)
      requires CanVisitPost(LowerSubexps, State(), p)
      modifies this`tree
      ensures State() == LowerLeft(old(State()), p)
      ensures Valid(tree, p) && NullOrValid(tree, tree[p].right)
      ensures tree[p].right != NULL && tree[tree[p].right].token.Subexp? ==> NullOrValid(tree, tree[tree[p].right].left)
    {
      hide LowerSubexpOf;
      RightStaysReady(State(), p);
      var left := tree[p].left;
      if left != NULL && tree[left].token.Subexp? {
        var q := LowerSubexp(left);
        tree := tree[p := tree[p].(left := q)];
        tree := tree[q := tree[q].(parent := p)];
      }
    }

    method LowerRightAt(p: Ptr)
      requires Valid(tree, p) && NullOrValid(tree, tree[p].right)
      requires tree[p].right != NULL && tree[tree[p].right].token.Subexp? ==>
              NullOrValid(tree, tree[tree[p].right].left)
      modifies this`tree
      ensures State() == LowerRight(old(State()), p)
    {
      var right := tree[p].right;
      if right != NULL && tree[right].token.Subexp? {
        var q := LowerSubexp(right);
        tree := tree[p := tree[p].(right := q)];
        tree := tree[q := tree[q].(parent := p)];
      }
    }

    /** calc_first, with re_dfa_add_node */
    method CalcFirstAt(p: Ptr)
      requires CanVisitPost(CalcFirst, State(), p)
      modifies this
      ensures State() == VisitPost(CalcFirst, old(State()), p)
    {
      var node := tree[p];
      if node.token.Concat? {
        tree := tree[p := node.(first := tree[node.left].first, nodeIdx := tree[node.left].nodeIdx)];
      } else {
        tree := tree[p := node.(first := p, nodeIdx := |nodes|)];
        nodes := nodes + [node.token];
        nexts := nexts + [MISSING];
        edests := edests + [[]];
      }
    }

    method VisitPostAt(fn: PostVisitor, p: Ptr)
      requires CanVisitPost(fn, State(), p)
      modifies this
      ensures State() == VisitPost(fn, old(State()), p)
    {
      match fn
      case LowerSubexps => LowerSubexpsAt(p);
      case CalcFirst => CalcFirstAt(p);
      case AnyPost(visit) => Become(visit(State(), p));
    }

    // ----------------------------------------------------------------
    // postorder

    /** The way down to the next leaf: to the left, or to the right if that is the
        only child. */
    method Descend(fn: PostVisitor, ghost s: Work, ghost t: Tree, ghost c0: PostPath, ghost f0: Tree, node0: Ptr)
      returns (node: Ptr, ghost c: PostPath, ghost f: Tree)
      requires f0.Bin? && node0 == f0.id && Plug(c0, f0) == t && State() == Begin(fn, s, c0)
      requires Distinct(t) && Models(s.tree, t, NULL) && ReadyPost(fn, s, t)
      ensures f.Bin? && node == f.id && Plug(c, f) == t && State() == Begin(fn, s, c)
      ensures f.left.Nil? && f.right.Nil? && Pending(c) + Size(f) == Pending(c0) + Size(f0)
    {
      hide Models, Distinct, ReadyPost, Plug, FoldPost, Begin, Pending, Size;
      node, c, f := node0, c0, f0;
      PostArrive(fn, s, c, f);
      RootLinks(tree, f, Parent(c));
      while tree[node].left != NULL || tree[node].right != NULL
        invariant f.Bin? && node == f.id && Plug(c, f) == t && State() == Begin(fn, s, c)
        invariant Models(tree, f, Parent(c)) && 0 <= node < |tree|
        invariant Pending(c) + Size(f) == Pending(c0) + Size(f0)
        decreases f
      {
        DescendStep(fn, s, tree, c, f);
        if tree[node].left != NULL {
          node := tree[node].left;
          c, f := InLeft(f.id, f.token, f.right, c), f.left;
        } else {
          node := tree[node].right;
          c, f := InRight(f.id, f.token, f.left, c), f.right;
        }
        PostArrive(fn, s, c, f);
      }
      RootLinks(tree, f, Parent(c));
    }

    /** Climbing parent pointers visits what the recursive walk visits, in its order. */
    method Postorder(root: Ptr, fn: PostVisitor, ghost t: Tree)
      requires t.Bin? && root == t.id && Distinct(t) && Models(tree, t, NULL)
      requires ReadyPost(fn, State(), t)
      modifies this
      ensures State() == FoldPost(fn, old(State()), t)
    {
      ghost var s := State();
      ghost var c, f := Top, t;
      var node := root;
      while true
        invariant f.Bin? && node == f.id && Plug(c, f) == t && State() == Begin(fn, s, c)
        decreases Pending(c) + Size(f)
      {
        ghost var todo := Pending(c) + Size(f);
        node, c, f := Descend(fn, s, t, c, f, node);
        while true
          invariant f.Bin? && node == f.id && Plug(c, f) == t
          invariant State() == FoldPost(fn, FoldPost(fn, Begin(fn, s, c), f.left), f.right)
          invariant Pending(c) < todo
          decreases c
        {
          PostTurn(fn, s, c, f, State());
          VisitPostAt(fn, node);
          if tree[node].parent == NULL {
            return;
          }
          var prev := node;
          node := tree[node].parent;
          if !(tree[node].right == prev || tree[node].right == NULL) {
            break;
          }
          PostOperandsDone(fn, s, c, f);
          c, f := c.up, Above(c, f);
        }
        node := tree[node].right;
        c, f := InRight(c.id, c.token, f, c.up), c.right;
      }
    }

    // ----------------------------------------------------------------
    // Visitors of the preorder walk

    /** optimize_subexps */
    method OptimizeSubexpsAt(p: Ptr)
      requires CanVisitPre(OptimizeSubexps, State(), p)
      modifies this
      ensures State() == VisitPre(OptimizeSubexps, old(State()), p)
      ensures var h, node := old(tree), old(tree[p]);
              if node.token.Subexp? && node.left != NULL && h[node.left].token.Subexp? then
                var i, j, below := node.token.idx, h[node.left].token.idx, h[node.left].left;
                && subexpMap == old(subexpMap)[j := old(subexpMap)[i]]
                && usedBkrefMap == (if j < BITSET_WORD_BITS then old(usedBkrefMap) - {j} else old(usedBkrefMap))
                && tree == (if below == NULL then h[p := node.(left := below)]
                            else h[p := node.(left := below)][below := h[below].(parent := p)])
              else tree == h && subexpMap == old(subexpMap) && usedBkrefMap == old(usedBkrefMap)
    {
      var node := tree[p];
      if node.token.Subexp? && node.left != NULL && tree[node.left].token.Subexp? {
        var otherIdx := tree[node.left].token.idx;
        tree := tree[p := node.(left := tree[node.left].left)];
        if tree[p].left != NULL {
          tree := tree[tree[p].left := tree[tree[p].left].(parent := p)];
        }
        subexpMap := subexpMap[otherIdx := subexpMap[node.token.idx]];
        if otherIdx < BITSET_WORD_BITS {
          usedBkrefMap := usedBkrefMap - {otherIdx};
        }
      }
    }

    /** calc_next */
    method CalcNextAt(p: Ptr)
      requires CanVisitPre(CalcNext, State(), p)
      modifies this`tree
      ensures State() == VisitPre(CalcNext, old(State()), p)
    {
      var node := tree[p];
      match node.token {
        case OpDupAsterisk =>
          tree := tree[node.left := tree[node.left].(next := p)];
        case Concat =>
          tree := tree[node.left := tree[node.left].(next := tree[node.right].first)];
          tree := tree[node.right := tree[node.right].(next := node.next)];
        case _ =>
          if node.left != NULL {
            tree := tree[node.left := tree[node.left].(next := node.next)];
          }
          if node.right != NULL {
            tree := tree[node.right := tree[node.right].(next := node.next)];
          }
      }
    }

    /** link_nfa_nodes */
    method LinkNfaNodesAt(p: Ptr)
      requires CanVisitPre(LinkNfaNodes, State(), p)
      modifies this
      ensures State() == VisitPre(LinkNfaNodes, old(State()), p)
    {
      var node := tree[p];
      var idx := node.nodeIdx;
      if node.token.Concat? {
      } else if node.token.EndOfRe? {
        assert node.next == NULL;
      } else if node.token.OpDupAsterisk? || node.token.OpAlt? {
        hasPluralMatch := true;
        var left := if node.left != NULL then tree[tree[node.left].first].nodeIdx else tree[node.next].nodeIdx;
        var right := if node.right != NULL then tree[tree[node.right].first].nodeIdx else tree[node.next].nodeIdx;
        edests := edests[idx := Init2(left, right)];
      } else if node.token.OpOpenSubexp? || node.token.OpCloseSubexp? {
        edests := edests[idx := [tree[node.next].nodeIdx]];
      } else {
        nexts := nexts[idx := tree[node.next].nodeIdx];
      }
    }

    method VisitPreAt(fn: PreVisitor, p: Ptr)
      requires CanVisitPre(fn, State(), p)
      modifies this
      ensures State() == VisitPre(fn, old(State()), p)
    {
      match fn
      case OptimizeSubexps => OptimizeSubexpsAt(p);
      case CalcNext => CalcNextAt(p);
      case LinkNfaNodes => LinkNfaNodesAt(p);
      case AnyPre(visit) => Become(visit(State(), p));
    }

    // ----------------------------------------------------------------
    // preorder

    method Preorder(root: Ptr, fn: PreVisitor, ghost t: Tree)
      requires t.Bin? && root == t.id && Distinct(t) && Models(tree, t, NULL)
      requires ReadyPre(fn, State(), t)
      modifies this
      ensures State() == FoldPre(fn, old(State()), t)
    {
      hide ReadyPre, Waiting, FoldPre, VisitPre, CanVisitPre, Ids, PreIds;
      ghost var final := FoldPre(fn, State(), t);
      PreStart(fn, State(), t);
      ghost var c, f := PreTop, t;
      var node := root;
      while true
        invariant Arrived(fn, State(), c, f, final) && node == f.id
        decreases PrePending(c) + Size(f)
      {
        ghost var todo := PrePending(c) + Size(f);
        ghost var u := Spliced(fn, f);
        PreTurn(fn, State(), c, f, final);
        SplicedSize(fn, f);
        VisitPreAt(fn, node);
        if tree[node].left != NULL {
          node := tree[node].left;
          c, f := PreLeft(f.id, u.right, c), u.left;
        } else {
          var prev := NULL;
          ghost var right := u.right.Bin?;
          if right { c, f := PreRight(u.id, c), u.right; }
          while tree[node].right == prev || tree[node].right == NULL
            invariant Valid(tree, node)
            invariant if right then Arrived(fn, State(), c, f, final) && tree[node].right == f.id != prev
                      else Finished(fn, State(), c, node, final) &&
                           (tree[node].right == prev || tree[node].right == NULL)
            invariant PrePending(c) + (if right then Size(f) else 0) < todo
            decreases if right then 0 else 1 + Depth(c)
          {
            prev := node;
            node := tree[node].parent;
            if node == NULL {
              return;
            }
            PreClimb(fn, State(), c, prev, final);
            right := c.PreLeft? && c.right.Bin?;
            if right { c, f := PreRight(c.id, c.up), c.right; } else { c := c.up; }
          }
          node := tree[node].right;
        }
      }
    }

    // ----------------------------------------------------------------
    // analyze

    /** Compiling preserves meaning: from the node where matching begins, the automaton
        reaches END_OF_RE on exactly the words of the tree the parser built. The rest of
        what matching consults is right too: see `Grouped`. */
    method Analyze(strTree: Ptr, reNsub: nat, ghost t: Tree) returns (initNode: int)
      requires WellFormedRoot(t) && Distinct(t) && Models(tree, t, NULL) && strTree == t.id
      requires SubexpsBelow(t, reNsub)
      requires tree[strTree].next == NULL
      requires nodes == [] && nexts == [] && edests == []
      modifies this
      ensures Compiled(NfaOf(State()), initNode, t)
      ensures noSub == old(noSub) && Grouped(old(State()), State(), reNsub, t)
    {
      hide FoldPost, FoldPre, Lower, Compiled, SubexpsBelow, Grouped, MapAfter, UsedAfter, Identity, ReadyPre,
          ReadyPost, Models, Distinct, WellFormedRoot, Optimized;
      subexpMap := [];
      ghost var start := old(State());
      while |subexpMap| < reNsub
        invariant |subexpMap| <= reNsub && forall k: nat :: k < |subexpMap| ==> subexpMap[k] == k
        invariant State() == start.(subexpMap := subexpMap)
      {
        subexpMap := subexpMap + [|subexpMap|];
      }
      ghost var s0 := State();
      IdentityIs(subexpMap);
      OptimizeStage(s0, t);
      Preorder(strTree, OptimizeSubexps, t);
      ghost var walked := subexpMap;
      var i := 0;
      while i < reNsub && subexpMap[i] == i
        invariant i <= reNsub && forall k: nat :: k < i ==> subexpMap[k] == k
      {
        i := i + 1;
      }
      IdentityIs(walked);
      if i == reNsub {
        subexpMap := [];
      }

      ghost var t2 := Lower(noSub, usedBkrefMap, Optimized(t), |tree|).0;
      Passes(start, s0, walked, State(), reNsub, t, t2);
      Postorder(strTree, LowerSubexps, Optimized(t));
      Postorder(strTree, CalcFirst, t2);
      Preorder(strTree, CalcNext, t2);
      Preorder(strTree, LinkNfaNodes, t2);
      initNode := tree[tree[strTree].first].nodeIdx;
    }
  }
}
