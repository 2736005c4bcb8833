/** Repetition operators: copying a subtree by a walk that keeps two cursors in step,
    and building the tree of <re>{m,n}. */
module RegexDup {
  import opened RegexTree
  import opened RegexWalk
  import opened RegexGroups
  import opened RegexCompile

  // ------------------------------------------------------------------
  // The copy of a tree

  function SetLeft(h: Heap, p: Ptr, q: Ptr): (h': Heap)
    ensures |h'| == |h|
  {
    Put(h, p, At(h, p).(left := q))
  }

  function SetRight(h: Heap, p: Ptr, q: Ptr): (h': Heap)
    ensures |h'| == |h|
  {
    Put(h, p, At(h, p).(right := q))
  }

  /** The storage after a copy of t has been appended below `parent`, in preorder. */
  ghost function Dup(h: Heap, t: Tree, parent: Ptr): (h': Heap)
    ensures |h'| == |h| + Size(t)
    decreases t
  {
    if t.Nil? then h
    else
      var n := |h|;
      var h1 := h + [BinTree(parent, NULL, NULL, NULL, NULL, t.token, MISSING)];
      DupRight(DupLeft(h1, t, n), t, n)
  }

  ghost function DupLeft(h: Heap, t: Tree, n: nat): (h': Heap)
    requires t.Bin?
    ensures |h'| == |h| + Size(t.left)
    decreases t, 0
  {
    if t.left.Bin? then Dup(SetLeft(h, n, |h|), t.left, n) else h
  }

  ghost function DupRight(h: Heap, t: Tree, n: nat): (h': Heap)
    requires t.Bin?
    ensures |h'| == |h| + Size(t.right)
    decreases t, 0
  {
    if t.right.Bin? then Dup(SetRight(h, n, |h|), t.right, n) else h
  }

  /** t with its nodes renumbered in preorder from n. */
  ghost function Copy(t: Tree, n: nat): Tree {
    if t.Nil? then Nil
    else Bin(n, t.token, Copy(t.left, n + 1), Copy(t.right, n + 1 + Size(t.left)))
  }

  lemma {:induction false} CopyIds(t: Tree, n: nat)
    ensures Distinct(Copy(t, n))
    ensures forall i <- Ids(Copy(t, n)) :: n <= i < n + Size(t)
  {
    if t.Nil? {
    } else {
      CopyIds(t.left, n + 1);
      CopyIds(t.right, n + 1 + Size(t.left));
    }
  }

  /** Every node that was there is as it was. */
  ghost predicate Grown(h: Heap, h': Heap) {
    |h| <= |h'| && forall i: nat :: i < |h| ==> h'[i] == h[i]
  }

  lemma {:induction false} DupGrows(h: Heap, t: Tree, parent: Ptr)
    ensures Grown(h, Dup(h, t, parent))
    decreases t
  {
    if t.Nil? {
    } else {
      var n := |h|;
      var h1 := h + [BinTree(parent, NULL, NULL, NULL, NULL, t.token, MISSING)];
      DupGrows(SetLeft(h1, n, |h1|), t.left, n);
      var h2 := DupLeft(h1, t, n);
      DupGrows(SetRight(h2, n, |h2|), t.right, n);
    }
  }

  /** Appending a copy yields a fresh isomorphic tree below `parent`. */
  lemma {:induction false} DupModels(h: Heap, t: Tree, parent: Ptr)
    ensures Models(Dup(h, t, parent), Copy(t, |h|), parent)
    decreases t
  {
    if t.Nil? {
    } else {
      var n := |h|;
      var h1 := h + [BinTree(parent, NULL, NULL, NULL, NULL, t.token, MISSING)];
      var h1' := SetLeft(h1, n, |h1|);
      DupGrows(h1', t.left, n);
      DupModels(h1', t.left, n);
      var h2 := DupLeft(h1, t, n);
      assert Models(h2, Copy(t.left, n + 1), n);
      assert h2[n] == BinTree(parent, Root(Copy(t.left, n + 1)), NULL, NULL, NULL, t.token, MISSING);
      DupModelsRight(h2, t, n, parent);
    }
  }

  lemma {:induction false} DupModelsRight(h2: Heap, t: Tree, n: nat, parent: Ptr)
    requires t.Bin? && |h2| == n + 1 + Size(t.left)
    requires Models(h2, Copy(t.left, n + 1), n)
    requires h2[n] == BinTree(parent, Root(Copy(t.left, n + 1)), NULL, NULL, NULL, t.token, MISSING)
    ensures Models(DupRight(h2, t, n), Copy(t, n), parent)
    decreases t, 0
  {
    hide Models, Dup;
    var l, r := Copy(t.left, n + 1), Copy(t.right, n + 1 + Size(t.left));
    var h2' := SetRight(h2, n, |h2|);
    var h3 := DupRight(h2, t, n);
    CopyIds(t.left, n + 1);
    if t.right.Bin? {
      DupGrows(h2', t.right, n);
      DupModels(h2', t.right, n);
      assert Models(h3, r, n);
    } else {
      NilModels(h3, n);
    }
    ModelsFrame(h2, h3, l, n);
    ModelsIntro(h3, Bin(n, t.token, l, r), parent);
  }

  lemma NilModels(h: Heap, parent: Ptr)
    ensures Models(h, Nil, parent)
  {
  }

  lemma {:induction false} CopyMeaning(t: Tree, n: nat)
    ensures SameLang(t, Copy(t, n))
    ensures WellFormed(t) ==> WellFormed(Copy(t, n))
    ensures t.Bin? <==> Copy(t, n).Bin?
  {
    if t.Nil? {
    } else {
      CopyMeaning(t.left, n + 1);
      CopyMeaning(t.right, n + 1 + Size(t.left));
      SameLangBin(t.id, n, t.token, t.left, Copy(t.left, n + 1), t.right, Copy(t.right, n + 1 + Size(t.left)));
    }
  }

  /** Equal tokens at the same places. */
  ghost predicate SameShape(t: Tree, u: Tree) {
    if t.Nil? then u.Nil?
    else u.Bin? && u.token == t.token && SameShape(t.left, u.left) && SameShape(t.right, u.right)
  }

  lemma {:induction false} CopyShape(t: Tree, n: nat)
    ensures SameShape(t, Copy(t, n))
  {
    if t.Nil? {
    } else {
      CopyShape(t.left, n + 1);
      CopyShape(t.right, n + 1 + Size(t.left));
    }
  }

  lemma {:induction false} ShapeChains(t: Tree, u: Tree, inner: bool, c: seq<nat>)
    requires SameShape(t, u)
    ensures Chain(t) == Chain(u) && (HasChain(t, inner, c) <==> HasChain(u, inner, c))
  {
    if t.Nil? {
    } else {
      ShapeChains(t.left, u.left, t.token.Subexp?, c);
      ShapeChains(t.right, u.right, false, c);
    }
  }

  /** A copy has the groups of the tree, in the same chains. */
  lemma CopyWithin(e: Tree, n: nat, t: Tree)
    requires ChainsWithin(e, t)
    ensures ChainsWithin(Copy(e, n), t)
  {
    CopyShape(e, n);
    forall c: seq<nat> | HasChain(Copy(e, n), false, c) ensures HasChain(t, false, c) {
      ShapeChains(e, Copy(e, n), false, c);
    }
  }

  // ------------------------------------------------------------------
  // duplicate_tree

  /** The ancestors of p, each of which has p's side on its right or nothing there. */
  ghost predicate Spine(h: Heap, p: Ptr, above: seq<nat>)
    decreases |above|
  {
    && Valid(h, p)
    && if above == [] then h[p].parent == NULL
       else && h[p].parent == above[0] && above[0] < |h|
            && (h[above[0]].right == p || h[above[0]].right == NULL)
            && Spine(h, above[0], above[1..])
  }

  /** The path from the root of the original to the cursor, with the copies made of
      the nodes on it. */
  datatype DupPath =
    | DupTop
    | InDupLeft(id: nat, token: Token, right: Tree, dup: nat, up: DupPath)
    | InDupRight(id: nat, token: Token, left: Tree, dup: nat, up: DupPath)

  ghost function DupAbove(c: DupPath, f: Tree): Tree
    requires !c.DupTop?
  {
    if c.InDupLeft? then Bin(c.id, c.token, f, c.right) else Bin(c.id, c.token, c.left, f)
  }

  ghost function DupPlug(c: DupPath, f: Tree): Tree
    decreases c
  {
    if c.DupTop? then f else DupPlug(c.up, DupAbove(c, f))
  }

  /** The original node above the end of the path, and its copy. */
  ghost function Original(c: DupPath, outer: Ptr): Ptr {
    if c.DupTop? then outer else c.id
  }

  ghost function Owner(c: DupPath, outer: Ptr): Ptr {
    if c.DupTop? then outer else c.dup
  }

  lemma {:induction false} DupArrive(h: Heap, c: DupPath, f: Tree, outer: Ptr)
    requires Models(h, DupPlug(c, f), outer) && Distinct(DupPlug(c, f))
    ensures Models(h, f, Original(c, outer)) && Distinct(f)
    decreases c
  {
    if c.DupTop? {
    } else {
      DupArrive(h, c.up, DupAbove(c, f), outer);
    }
  }

  /** The copies of the nodes on the path hang together. */
  ghost predicate Chained(h: Heap, n: nat, c: DupPath, outer: Ptr) {
    c.DupTop? || (n <= c.dup < |h| && h[c.dup].parent == Owner(c.up, outer) && Chained(h, n, c.up, outer))
  }

  lemma {:induction false} ChainedKept(h: Heap, h': Heap, n: nat, c: DupPath, outer: Ptr)
    requires Chained(h, n, c, outer) && |h| <= |h'|
    requires forall i: nat :: i < |h| ==> h'[i].parent == h[i].parent
    ensures Chained(h', n, c, outer)
    decreases c
  {
    if c.DupTop? {
    } else {
      ChainedKept(h, h', n, c.up, outer);
    }
  }

  /** What is still to be copied once the subtree at the end of the path is done. */
  ghost function DupRest(c: DupPath, h: Heap): Heap {
    match c
    case DupTop => h
    case InDupLeft(id, tok, r, dup, up) => DupRest(up, DupRight(h, Bin(id, tok, Nil, r), dup))
    case InDupRight(_, _, _, _, up) => DupRest(up, h)
  }

  datatype Slot = Result | LeftOf | RightOf

  /** Storing the next copy's address where p_new points. */
  function Slotted(h: Heap, slot: Slot, owner: Ptr): Heap {
    match slot
    case Result => h
    case LeftOf => SetLeft(h, owner, |h|)
    case RightOf => SetRight(h, owner, |h|)
  }

  /** The walk is about to copy the subtree f; `now` is the storage, `h` the storage it
      began with, `t` the whole original and `final` the storage it will end with. */
  ghost predicate Copying(h: Heap, now: Heap, t: Tree, c: DupPath, f: Tree, slot: Slot, outer: Ptr, final: Heap) {
    && Grown(h, now) && Chained(now, |h|, c, outer)
    && f.Bin? && DupPlug(c, f) == t
    && (slot.Result? <==> c.DupTop?)
    && DupRest(c, Dup(Slotted(now, slot, Owner(c, outer)), f, Owner(c, outer))) == final
  }

  /** The walk has copied the subtree f, whose copy is `dup`. */
  ghost predicate Copied(h: Heap, now: Heap, t: Tree, c: DupPath, f: Tree, dup: Ptr, outer: Ptr, final: Heap) {
    && Grown(h, now) && Chained(now, |h|, c, outer)
    && f.Bin? && DupPlug(c, f) == t
    && |h| <= dup < |now| && now[dup].parent == Owner(c, outer)
    && DupRest(c, now) == final
  }

  /** One node copied: on to its left operand, else its right, else it is done. */
  lemma DupTurn(h: Heap, now: Heap, t: Tree, c: DupPath, f: Tree, slot: Slot, outer: Ptr, final: Heap)
    requires Models(h, t, outer) && Distinct(t)
    requires Copying(h, now, t, c, f, slot, outer, final)
    ensures Models(h, f, Original(c, outer))
    ensures var owner := Owner(c, outer);
            var now' := Slotted(now, slot, owner) + [BinTree(owner, NULL, NULL, NULL, NULL, f.token, MISSING)];
            && Grown(h, now')
            && (f.left.Bin? ==>
                  Copying(h, now', t, InDupLeft(f.id, f.token, f.right, |now|, c), f.left, LeftOf, outer, final))
            && (f.left.Nil? && f.right.Bin? ==>
                  Copying(h, now', t, InDupRight(f.id, f.token, f.left, |now|, c), f.right, RightOf, outer, final))
            && (f.left.Nil? && f.right.Nil? ==> Copied(h, now', t, c, f, |now|, outer, final))
  {
    hide Models, Distinct;
    DupArrive(h, c, f, outer);
    var owner := Owner(c, outer);
    var now' := Slotted(now, slot, owner) + [BinTree(owner, NULL, NULL, NULL, NULL, f.token, MISSING)];
    ChainedKept(now, now', |h|, c, outer);
    assert Dup(Slotted(now, slot, owner), f, owner) == DupRight(DupLeft(now', f, |now|), f, |now|);
  }

  /** One step up, in the original and in the copy. */
  lemma DupClimb(h: Heap, now: Heap, t: Tree, c: DupPath, f: Tree, dup: Ptr, outer: Ptr, final: Heap)
    requires Models(h, t, outer) && Distinct(t)
    requires Copied(h, now, t, c, f, dup, outer, final) && !c.DupTop?
    ensures Models(h, f, c.id) && c.id < |h| && now[c.id] == h[c.id]
    ensures if c.InDupLeft? && c.right.Bin?
            then && h[c.id].right == c.right.id && c.right.id != f.id
                 && Copying(h, now, t, InDupRight(c.id, c.token, f, c.dup, c.up), c.right, RightOf, outer, final)
            else && (h[c.id].right == f.id || h[c.id].right == NULL)
                 && Copied(h, now, t, c.up, DupAbove(c, f), c.dup, outer, final)
  {
    DupArrive(h, c, f, outer);
    DupArrive(h, c.up, DupAbove(c, f), outer);
    if c.InDupLeft? && c.right.Bin? {
      assert f.id in Ids(f) && c.right.id in Ids(c.right);
    }
  }

  ghost function DupPending(c: DupPath): nat {
    match c
    case DupTop => 0
    case InDupLeft(_, _, r, _, up) => Size(r) + DupPending(up)
    case InDupRight(_, _, _, _, up) => DupPending(up)
  }

  ghost function DupDepth(c: DupPath): nat {
    if c.DupTop? then 0 else 1 + DupDepth(c.up)
  }

  /** One new node, stored where p_new points and hung below `owner`. */
  method CopyNode(dfa: ReDfa, slot: Slot, owner: Ptr, token: Token) returns (p: Ptr)
    requires !slot.Result? ==> Valid(dfa.tree, owner)
    modifies dfa`tree
    ensures p == |old(dfa.tree)|
    ensures dfa.tree == Slotted(old(dfa.tree), slot, owner) + [BinTree(owner, NULL, NULL, NULL, NULL, token, MISSING)]
  {
    p := dfa.CreateTree(NULL, NULL, token);
    match slot {
      case Result =>
      case LeftOf => dfa.tree := dfa.tree[owner := dfa.tree[owner].(left := p)];
      case RightOf => dfa.tree := dfa.tree[owner := dfa.tree[owner].(right := p)];
    }
    dfa.tree := dfa.tree[p := dfa.tree[p].(parent := owner)];
  }

  /** The links of an original node are still there when its copy has been made. */
  lemma LinksKept(h: Heap, now: Heap, f: Tree, parent: Ptr)
    requires f.Bin? && Models(h, f, parent) && Grown(h, now)
    ensures 0 <= f.id < |h| <= |now| && now[f.id].left == Root(f.left) && now[f.id].right == Root(f.right)
    ensures now[f.id].parent == parent && now[f.id].token == f.token
    ensures f.left.Bin? ==> Root(f.left) != NULL
    ensures f.right.Bin? ==> Root(f.right) != NULL
  {
  }

  lemma CopyStart(h: Heap, t: Tree, outer: Ptr)
    requires t.Bin?
    ensures Copying(h, h, t, DupTop, t, Result, outer, Dup(h, t, outer))
  {
  }

  lemma CopyingFacts(h: Heap, now: Heap, t: Tree, c: DupPath, f: Tree, slot: Slot, outer: Ptr, final: Heap)
    requires Copying(h, now, t, c, f, slot, outer, final)
    ensures f.Bin? && Grown(h, now) && (slot.Result? <==> c.DupTop?)
    ensures !slot.Result? ==> Valid(now, Owner(c, outer))
  {
  }

  lemma CopiedFacts(h: Heap, now: Heap, t: Tree, c: DupPath, f: Tree, dup: Ptr, outer: Ptr, final: Heap)
    requires Copied(h, now, t, c, f, dup, outer, final) && Models(h, t, outer) && Distinct(t)
    ensures f.Bin? && Grown(h, now) && Models(h, f, Original(c, outer))
    ensures |h| <= dup < |now| && now[dup].parent == Owner(c, outer)
    ensures c.DupTop? ==> now == final && f == t
    ensures !c.DupTop? ==> Original(c, outer) == c.id && Owner(c, outer) == c.dup && c.dup >= |h|
  {
    DupArrive(h, c, f, outer);
  }

  /** One node copied, and what there is to do next. */
  method CopyTurn(dfa: ReDfa, node: Ptr, slot: Slot, owner: Ptr,
                  ghost h: Heap, ghost t: Tree, ghost c: DupPath, ghost f: Tree,
                  ghost outer: Ptr, ghost final: Heap) returns (p: Ptr)
    requires Models(h, t, outer) && Distinct(t)
    requires Copying(h, dfa.tree, t, c, f, slot, outer, final) && f.Bin? && node == f.id && owner == Owner(c, outer)
    modifies dfa`tree
    ensures p == |old(dfa.tree)| && f.Bin? && Grown(h, dfa.tree) && 0 <= node < |h|
    ensures dfa.tree[node].left == Root(f.left) && dfa.tree[node].right == Root(f.right)
    ensures f.left.Bin? ==>
              && Root(f.left) != NULL
              && Copying(h, dfa.tree, t, InDupLeft(f.id, f.token, f.right, p, c), f.left, LeftOf, outer, final)
    ensures f.right.Bin? ==> Root(f.right) != NULL
    ensures f.left.Nil? && f.right.Bin? ==>
              Copying(h, dfa.tree, t, InDupRight(f.id, f.token, f.left, p, c), f.right, RightOf, outer, final)
    ensures f.left.Nil? && f.right.Nil? ==> Copied(h, dfa.tree, t, c, f, p, outer, final)
  {
    hide Copying, Copied, Models, Grown, Slotted;
    CopyingFacts(h, dfa.tree, t, c, f, slot, outer, final);
    DupTurn(h, dfa.tree, t, c, f, slot, outer, final);
    LinksKept(h, dfa.tree, f, Original(c, outer));
    p := CopyNode(dfa, slot, owner, dfa.tree[node].token);
    LinksKept(h, dfa.tree, f, Original(c, outer));
  }

  /** duplicate_tree: a fresh copy, wherever the root hangs, as long as everything above
      it has the root's side on its right, or nothing there. */
  method DuplicateTree(dfa: ReDfa, root: Ptr, ghost t: Tree, ghost above: seq<nat>) returns (dupRoot: Ptr)
    requires t.Bin? && root == t.id && Spine(dfa.tree, root, above)
    requires Models(dfa.tree, t, dfa.tree[root].parent) && Distinct(t)
    modifies dfa`tree
    ensures dupRoot == |old(dfa.tree)|
    ensures dfa.tree == Dup(old(dfa.tree), t, old(dfa.tree[root].parent))
  {
    hide Copying, Copied, Models, Dup, Distinct;
    ghost var h := dfa.tree;
    ghost var outer := h[root].parent;
    ghost var final := Dup(h, t, outer);
    ghost var c, f := DupTop, t;
    dupRoot := NULL;
    var node := root;
    var slot := Result;
    var dupNode := dfa.tree[root].parent;
    CopyStart(h, t, outer);
    while true
      invariant f.Bin? && Copying(h, dfa.tree, t, c, f, slot, outer, final) && node == f.id
      invariant dupNode == Owner(c, outer)
      invariant if slot.Result? then dfa.tree == h else dupRoot == |h|
      decreases DupPending(c) + Size(f)
    {
      ghost var todo := DupPending(c) + Size(f);
      CopyingFacts(h, dfa.tree, t, c, f, slot, outer, final);
      var p := CopyTurn(dfa, node, slot, dupNode, h, t, c, f, outer, final);
      if slot.Result? { dupRoot := p; }
      dupNode := p;
      if dfa.tree[node].left != NULL {
        node := dfa.tree[node].left;
        slot := LeftOf;
        c, f := InDupLeft(f.id, f.token, f.right, p, c), f.left;
      } else {
        var prev := NULL;
        ghost var right, outside, rest := f.right.Bin?, false, above;
        if right { c, f := InDupRight(f.id, f.token, f.left, p, c), f.right; }
        while dfa.tree[node].right == prev || dfa.tree[node].right == NULL
          invariant dupRoot == |h| && Grown(h, dfa.tree) && 0 <= node < |h| && f.Bin?
          invariant right ==> !outside && Copying(h, dfa.tree, t, c, f, RightOf, outer, final) && !c.DupTop?
                              && dfa.tree[node].right == f.id != prev && dupNode == c.dup
          invariant !right ==> dfa.tree[node].right == prev || dfa.tree[node].right == NULL
          invariant !right && !outside ==>
                    Copied(h, dfa.tree, t, c, f, dupNode, outer, final) && node == f.id && rest == above
          invariant outside ==> dfa.tree == final && dupNode == node && Spine(h, node, rest)
          invariant !outside ==> DupPending(c) + (if right then Size(f) else 0) < todo
          decreases if right then 0 else 1, if outside then 0 else 1, if outside then |rest| else DupDepth(c)
        {
          if !outside {
            CopiedFacts(h, dfa.tree, t, c, f, dupNode, outer, final);
            LinksKept(h, dfa.tree, f, Original(c, outer));
            if !c.DupTop? { DupClimb(h, dfa.tree, t, c, f, dupNode, outer, final); }
          }
          prev := node;
          node := dfa.tree[node].parent;
          dupNode := dfa.tree[dupNode].parent;
          if node == NULL {
            return;
          }
          if outside {
            rest := rest[1..];
          } else if c.DupTop? {
            outside, rest := true, above[1..];
          } else {
            right := c.InDupLeft? && c.right.Bin?;
            if right { c, f := InDupRight(c.id, c.token, f, c.dup, c.up), c.right; }
            else { c, f := c.up, DupAbove(c, f); }
          }
        }
        node := dfa.tree[node].right;
        slot := RightOf;
      }
    }
  }
}
