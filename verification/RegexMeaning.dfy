/** The two rewriting passes keep the language of the tree. */
module RegexMeaning {
  import opened RegexTree
  import opened RegexWalk
  import opened RegexPasses

  ghost predicate OnlyEmpty(t: Tree) {
    forall w: Word :: InLang(t, w) <==> w == []
  }

  /** Concatenation with the empty word on either side changes nothing. */
  lemma EmptyOperand(id: nat, l: Tree, r: Tree)
    ensures OnlyEmpty(l) ==> SameLang(Bin(id, Concat, l, r), r)
    ensures OnlyEmpty(r) ==> SameLang(Bin(id, Concat, l, r), l)
  {
    var t := Bin(id, Concat, l, r);
    forall w: Word
      ensures OnlyEmpty(l) ==> (InLang(t, w) <==> InLang(r, w))
      ensures OnlyEmpty(r) ==> (InLang(t, w) <==> InLang(l, w))
    {
      assert w[..0] == [] && w[0..] == w && w[..|w|] == w && w[|w|..] == [];
      if OnlyEmpty(l) && InLang(t, w) {
        var i :| 0 <= i <= |w| && InLang(l, w[..i]) && InLang(r, w[i..]);
        assert w[..i] == [];
      }
      if OnlyEmpty(r) && InLang(t, w) {
        var i :| 0 <= i <= |w| && InLang(l, w[..i]) && InLang(r, w[i..]);
        assert w[i..] == [];
      }
    }
  }

  // ------------------------------------------------------------------
  // optimize_subexps

  /** The tree with each SUBEXP directly inside a visited SUBEXP stripped. */
  ghost function Optimized(t: Tree): Tree
    decreases t
  {
    if t.Nil? then Nil
    else
      var u := Spliced(OptimizeSubexps, t);
      Bin(u.id, u.token, Optimized(u.left), Optimized(u.right))
  }

  lemma {:induction false} OptimizedMeaning(t: Tree)
    requires WellFormed(t)
    ensures WellFormed(Optimized(t)) && SameLang(t, Optimized(t))
    ensures Optimized(t).Bin? <==> t.Bin?
    decreases t
  {
    if t.Nil? {
    } else {
      var u := Spliced(OptimizeSubexps, t);
      assert WellFormed(u) && SameLang(t, u);
      OptimizedMeaning(u.left);
      OptimizedMeaning(u.right);
      SameLangBin(u.id, u.id, u.token, u.left, Optimized(u.left), u.right, Optimized(u.right));
    }
  }

  lemma {:induction false} OptimizedBrackets(t: Tree)
    requires NoEmptyBracket(t)
    ensures NoEmptyBracket(Optimized(t))
    decreases t
  {
    if t.Nil? {
    } else {
      var u := Spliced(OptimizeSubexps, t);
      assert NoEmptyBracket(u);
      OptimizedBrackets(u.left);
      OptimizedBrackets(u.right);
    }
  }

  // ------------------------------------------------------------------
  // lower_subexps

  lemma LowerOneMeaning(noSub: bool, used: set<nat>, t: Tree, n: nat)
    requires t.Bin? && t.token.Subexp? && WellFormed(t) && NoSubexp(t.left)
    ensures var t' := LowerOne(noSub, used, t, n).0;
            t'.Bin? && WellFormed(t') && NoSubexp(t') && SameLang(t, t')
  {
    var idx := t.token.idx;
    var op, cls := Bin(n, OpOpenSubexp(idx), Nil, Nil), Bin(n + 1, OpCloseSubexp(idx), Nil, Nil);
    assert OnlyEmpty(op) && OnlyEmpty(cls);
    EmptyOperand(n + 2, op, cls);
    var tree1 := Bin(n + 2, Concat, t.left, cls);
    EmptyOperand(n + 2, t.left, cls);
    EmptyOperand(n + 3, op, tree1);
  }

  /** Lowering keeps the language of every well-formed tree and leaves no SUBEXP
      below the root. */
  lemma {:induction false} LowerMeaning(noSub: bool, used: set<nat>, t: Tree, n: nat)
    requires WellFormed(t)
    ensures var t' := Lower(noSub, used, t, n).0;
            && WellFormed(t') && SameLang(t, t')
            && (t.Bin? <==> t'.Bin?)
            && (t.Bin? ==> t'.token == t.token && NoSubexp(t'.left) && NoSubexp(t'.right))
  {
    if t.Nil? {
    } else {
      var (l1, n1) := Lower(noSub, used, t.left, n);
      var (r1, n2) := Lower(noSub, used, t.right, n1);
      var (l2, n3) := LowerChild(noSub, used, l1, n2);
      var (r2, n4) := LowerChild(noSub, used, r1, n3);
      LowerMeaning(noSub, used, t.left, n);
      LowerMeaning(noSub, used, t.right, n1);
      LowerChildMeaning(noSub, used, l1, n2);
      LowerChildMeaning(noSub, used, r1, n3);
      SameLangBin(t.id, t.id, t.token, t.left, l2, t.right, r2);
    }
  }

  lemma LowerChildMeaning(noSub: bool, used: set<nat>, t: Tree, n: nat)
    requires WellFormed(t) && (t.Bin? ==> NoSubexp(t.left) && NoSubexp(t.right))
    ensures var t' := LowerChild(noSub, used, t, n).0;
            && WellFormed(t') && SameLang(t, t') && NoSubexp(t')
            && (t.Bin? <==> t'.Bin?)
  {
    if t.Bin? && t.token.Subexp? {
      LowerOneMeaning(noSub, used, t, n);
    }
  }

  lemma {:induction false} LowerBrackets(noSub: bool, used: set<nat>, t: Tree, n: nat)
    requires NoEmptyBracket(t)
    ensures NoEmptyBracket(Lower(noSub, used, t, n).0)
  {
    if t.Nil? {
    } else {
      var (l1, n1) := Lower(noSub, used, t.left, n);
      var (r1, n2) := Lower(noSub, used, t.right, n1);
      var (l2, n3) := LowerChild(noSub, used, l1, n2);
      LowerBrackets(noSub, used, t.left, n);
      LowerBrackets(noSub, used, t.right, n1);
      LowerChildBrackets(noSub, used, l1, n2);
      LowerChildBrackets(noSub, used, r1, n3);
    }
  }

  lemma LowerChildBrackets(noSub: bool, used: set<nat>, t: Tree, n: nat)
    requires NoEmptyBracket(t)
    ensures NoEmptyBracket(LowerChild(noSub, used, t, n).0)
  {
    assert NoEmptyBracket(Nil);
  }

  lemma LeafKept(noSub: bool, used: set<nat>, t: Tree, n: nat)
    requires t.Bin? && t.left.Nil? && t.right.Nil?
    ensures Optimized(t) == t && Lower(noSub, used, t, n) == (t, n)
  {
    assert Optimized(t.left) == Nil && Optimized(t.right) == Nil;
    assert Lower(noSub, used, t.left, n) == (Nil, n) && Lower(noSub, used, t.right, n) == (Nil, n);
  }

  /** Both rewriting passes, on a whole tree. */
  lemma RewrittenRoot(noSub: bool, used: set<nat>, t: Tree, n: nat)
    requires WellFormedRoot(t)
    ensures WellFormedRoot(Optimized(t)) && SameLang(t, Optimized(t))
    ensures var t2 := Lower(noSub, used, Optimized(t), n).0;
            && WellFormedRoot(t2) && NoSubexp(t2) && SameLang(t, t2)
            && (NoEmptyBracket(t) ==> NoEmptyBracket(t2))
  {
    if NoEmptyBracket(t) {
      OptimizedBrackets(t);
      LowerBrackets(noSub, used, Optimized(t), n);
    }
    if t.token.EndOfRe? {
      LeafKept(noSub, used, t, n);
    } else {
      var t1 := Optimized(t);
      OptimizedMeaning(t.left);
      LeafKept(noSub, used, t.right, n);
      assert t1 == Bin(t.id, Concat, Optimized(t.left), t.right);
      SameLangBin(t.id, t.id, Concat, t.left, t1.left, t.right, t.right);
      var (l1, n1) := Lower(noSub, used, t1.left, n);
      var (r1, n2) := Lower(noSub, used, t1.right, n1);
      LeafKept(noSub, used, t.right, n1);
      var (l2, n3) := LowerChild(noSub, used, l1, n2);
      LowerMeaning(noSub, used, t1.left, n);
      LowerChildMeaning(noSub, used, l1, n2);
      assert Lower(noSub, used, t1, n).0 == Bin(t.id, Concat, l2, t.right);
      SameLangBin(t.id, t.id, Concat, t.left, l2, t.right, t.right);
    }
  }
}
