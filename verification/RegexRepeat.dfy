/** The repetition operators: reading {m,n}, and building the tree of the repetition. */
module RegexRepeat {
  import opened RegexTree
  import opened RegexWalk
  import opened RegexPasses
  import opened RegexGroups
  import opened RegexCompile
  import opened RegexDup

  const RE_DUP_MAX := 0x7fff

  /** REG_ERROR */
  const ERROR := -2

  // ------------------------------------------------------------------
  // Powers of a language

  lemma PowerCons(t: Tree, x: Word, y: Word, k: nat)
    requires InLang(t, x) && InPower(t, y, k)
    ensures InPower(t, x + y, k + 1)
  {
    assert (x + y)[..|x|] == x && (x + y)[|x|..] == y;
  }

  lemma PowerUncons(t: Tree, w: Word, k: nat) returns (j: nat)
    requires InPower(t, w, k + 1)
    ensures j <= |w| && InLang(t, w[..j]) && InPower(t, w[j..], k)
  {
    j :| 0 <= j <= |w| && InLang(t, w[..j]) && InPower(t, w[j..], k);
  }

  /** A word of L^(a+b) is a word of L^a followed by one of L^b. */
  lemma {:induction false} PowerSplit(t: Tree, w: Word, a: nat, b: nat) returns (i: nat)
    requires InPower(t, w, a + b)
    ensures i <= |w| && InPower(t, w[..i], a) && InPower(t, w[i..], b)
    decreases a
  {
    hide InPower, InLang;
    if a == 0 {
      i := 0;
      PowerZero(t, w);
    } else {
      var j := PowerUncons(t, w, a + b - 1);
      var i' := PowerSplit(t, w[j..], a - 1, b);
      PowerCons(t, w[..j], w[j..][..i'], a - 1);
      Slices(w, j, i');
      i := j + i';
    }
  }

  lemma PowerZero(t: Tree, w: Word)
    ensures w[..0] == [] && w[0..] == w && InPower(t, w[..0], 0)
  {
  }

  /** Cutting twice. */
  lemma Slices(w: Word, j: nat, i: nat)
    requires j + i <= |w|
    ensures w[..j + i] == w[..j] + w[j..][..i] && w[j + i..] == w[j..][i..]
  {
  }

  lemma {:induction false} PowerAppend(t: Tree, u: Word, v: Word, a: nat, b: nat)
    requires InPower(t, u, a) && InPower(t, v, b)
    ensures InPower(t, u + v, a + b)
    decreases a
  {
    hide InPower, InLang;
    if a == 0 {
      PowerNone(t, u);
      assert u + v == v;
    } else {
      var j := PowerUncons(t, u, a - 1);
      PowerAppend(t, u[j..], v, a - 1, b);
      PowerCons(t, u[..j], u[j..] + v, a + b - 1);
      Regroup(u, j, v);
    }
  }

  lemma PowerNone(t: Tree, w: Word)
    requires InPower(t, w, 0)
    ensures w == []
  {
  }

  lemma Regroup(u: Word, j: nat, v: Word)
    requires j <= |u|
    ensures u[..j] + (u[j..] + v) == u + v
  {
  }

  lemma PowerJoin(t: Tree, w: Word, i: nat, a: nat, b: nat)
    requires i <= |w| && InPower(t, w[..i], a) && InPower(t, w[i..], b)
    ensures InPower(t, w, a + b)
  {
    PowerAppend(t, w[..i], w[i..], a, b);
    assert w[..i] + w[i..] == w;
  }

  lemma PowerOne(t: Tree, w: Word)
    ensures InPower(t, w, 1) <==> InLang(t, w)
  {
    assert w[..|w|] == w && w[|w|..] == [];
    assert InLang(t, w) ==> InPower(t, w[|w|..], 0);
    if InPower(t, w, 1) {
      var i :| 0 <= i <= |w| && InLang(t, w[..i]) && InPower(t, w[i..], 0);
      assert w[..i] == w;
    }
  }

  ghost predicate IsPower(acc: Tree, t: Tree, k: nat) {
    forall w: Word :: InLang(acc, w) <==> InPower(t, w, k)
  }

  /** Between lo and hi iterations; no upper bound when hi is MISSING. */
  ghost predicate Repeats(t: Tree, w: Word, lo: nat, hi: int) {
    exists k: nat :: lo <= k && (hi == MISSING || k <= hi) && InPower(t, w, k)
  }

  ghost predicate IsRepeat(acc: Tree, t: Tree, lo: nat, hi: int) {
    forall w: Word :: InLang(acc, w) <==> Repeats(t, w, lo, hi)
  }

  /** One more iteration, taken at the end. */
  lemma PowerSnoc(t: Tree, w: Word, k: nat)
    ensures InPower(t, w, k + 1) <==> exists i | 0 <= i <= |w| :: InPower(t, w[..i], k) && InLang(t, w[i..])
  {
    hide InPower, InLang;
    if InPower(t, w, k + 1) {
      var i := PowerSplit(t, w, k, 1);
      PowerOne(t, w[i..]);
    }
    forall i | 0 <= i <= |w| && InPower(t, w[..i], k) && InLang(t, w[i..])
      ensures InPower(t, w, k + 1)
    {
      PowerOne(t, w[i..]);
      PowerJoin(t, w, i, k, 1);
    }
  }

  lemma PowerConcat(id: nat, acc: Tree, e: Tree, t: Tree, k: nat)
    requires IsPower(acc, t, k) && SameLang(e, t)
    ensures IsPower(Bin(id, Concat, acc, e), t, k + 1)
  {
    forall w: Word
      ensures InLang(Bin(id, Concat, acc, e), w) <==> InPower(t, w, k + 1)
    {
      PowerSnoc(t, w, k);
    }
  }

  lemma StarRepeats(id: nat, e: Tree, t: Tree)
    requires SameLang(e, t)
    ensures IsRepeat(Bin(id, OpDupAsterisk, e, Nil), t, 0, MISSING)
  {
    forall w: Word, k: nat
      ensures InPower(e, w, k) <==> InPower(t, w, k)
    {
      SamePower(e, t, w, k);
    }
  }

  lemma OptionRepeats(id: nat, e: Tree, t: Tree)
    requires SameLang(e, t)
    ensures IsRepeat(Bin(id, OpAlt, e, Nil), t, 0, 1)
  {
    var u := Bin(id, OpAlt, e, Nil);
    forall w: Word
      ensures InLang(u, w) <==> Repeats(t, w, 0, 1)
    {
      PowerOne(t, w);
      assert w == [] ==> InPower(t, w, 0);
      if Repeats(t, w, 0, 1) {
        var k: nat :| k <= 1 && InPower(t, w, k);
        assert k == 0 || k == 1;
      }
    }
  }

  /** Up to j iterations and then one more. */
  lemma RepeatsSnoc(t: Tree, w: Word, j: nat)
    ensures Repeats(t, w, 0, j + 1) <==>
            (w == [] || exists i | 0 <= i <= |w| :: Repeats(t, w[..i], 0, j) && InLang(t, w[i..]))
  {
    assert w == [] ==> InPower(t, w, 0);
    if Repeats(t, w, 0, j + 1) {
      var k: nat :| k <= j + 1 && InPower(t, w, k);
      if k > 0 {
        PowerSnoc(t, w, k - 1);
        var i :| 0 <= i <= |w| && InPower(t, w[..i], k - 1) && InLang(t, w[i..]);
        assert Repeats(t, w[..i], 0, j);
      }
    }
    forall i | 0 <= i <= |w| && Repeats(t, w[..i], 0, j) && InLang(t, w[i..])
      ensures Repeats(t, w, 0, j + 1)
    {
      var k: nat :| k <= j && InPower(t, w[..i], k);
      PowerSnoc(t, w, k);
    }
  }

  /** (acc e)? allows one iteration more than acc. */
  lemma NestedOptionRepeats(id: nat, id': nat, acc: Tree, e: Tree, t: Tree, j: nat)
    requires IsRepeat(acc, t, 0, j) && SameLang(e, t)
    ensures IsRepeat(Bin(id', OpAlt, Bin(id, Concat, acc, e), Nil), t, 0, j + 1)
  {
    var c := Bin(id, Concat, acc, e);
    forall w: Word
      ensures InLang(Bin(id', OpAlt, c, Nil), w) <==> Repeats(t, w, 0, j + 1)
    {
      RepeatsSnoc(t, w, j);
      assert InLang(c, w) <==> exists i | 0 <= i <= |w| :: InLang(acc, w[..i]) && InLang(e, w[i..]);
    }
  }

  /** m iterations and then up to d more. */
  lemma RepeatsAfter(t: Tree, w: Word, m: nat, d: int)
    requires d == MISSING || d >= 0
    ensures Repeats(t, w, m, if d == MISSING then MISSING else m + d) <==>
            exists i | 0 <= i <= |w| :: InPower(t, w[..i], m) && Repeats(t, w[i..], 0, d)
  {
    var hi := if d == MISSING then MISSING else m + d;
    if Repeats(t, w, m, hi) {
      var k: nat :| m <= k && (hi == MISSING || k <= hi) && InPower(t, w, k);
      var i := PowerSplit(t, w, m, k - m);
      assert Repeats(t, w[i..], 0, d);
    }
    forall i | 0 <= i <= |w| && InPower(t, w[..i], m) && Repeats(t, w[i..], 0, d)
      ensures Repeats(t, w, m, hi)
    {
      var k: nat :| (d == MISSING || k <= d) && InPower(t, w[i..], k);
      PowerJoin(t, w, i, m, k);
    }
  }

  lemma JoinRepeats(id: nat, first: Tree, acc: Tree, t: Tree, m: nat, d: int)
    requires IsPower(first, t, m) && IsRepeat(acc, t, 0, d) && (d == MISSING || d >= 0)
    ensures IsRepeat(Bin(id, Concat, first, acc), t, m, if d == MISSING then MISSING else m + d)
  {
    forall w: Word
      ensures InLang(Bin(id, Concat, first, acc), w) <==> Repeats(t, w, m, if d == MISSING then MISSING else m + d)
    {
      RepeatsAfter(t, w, m, d);
    }
  }

  /** Repeating the empty expression gives the empty expression. */
  lemma {:induction false} NilPower(w: Word, k: nat)
    ensures InPower(Nil, w, k) <==> w == []
  {
    if k == 0 {
    } else {
      forall i | 0 <= i <= |w| ensures InPower(Nil, w[i..], k - 1) <==> w[i..] == [] {
        NilPower(w[i..], k - 1);
      }
      assert w[..0] == [] && w[0..] == w;
      if InPower(Nil, w, k) {
        var i :| 0 <= i <= |w| && InLang(Nil, w[..i]) && InPower(Nil, w[i..], k - 1);
        assert w == w[..i] + w[i..];
      }
    }
  }

  lemma NilRepeats(t: Tree, lo: nat, hi: int)
    requires hi == MISSING || lo <= hi
    requires t.Nil? || (lo == 0 && hi == 0)
    ensures IsRepeat(Nil, t, lo, hi)
  {
    forall w: Word
      ensures InLang(Nil, w) <==> Repeats(t, w, lo, hi)
    {
      if t.Nil? {
        forall k: nat ensures InPower(Nil, w, k) <==> w == [] { NilPower(w, k); }
        assert InPower(t, w, lo) <==> w == [];
      } else {
        assert InPower(t, w, 0) <==> w == [];
      }
    }
  }

  // ------------------------------------------------------------------
  // Building the tree

  /** e is the operand at the free end of acc: the last one parse_dup_op attached. */
  ghost predicate AtTail(acc: Tree, e: Tree) {
    || acc == e
    || (acc.Bin? && acc.token.Concat? && acc.right == e)
    || (acc.Bin? && acc.token.OpAlt? && acc.right.Nil? &&
        (acc.left == e || (acc.left.Bin? && acc.left.token.Concat? && acc.left.right == e)))
  }

  /** The free end can be duplicated: everything above it has it on the right. */
  lemma TailSpine(h: Heap, acc: Tree, e: Tree) returns (above: seq<nat>)
    requires AtTail(acc, e) && e.Bin? && Models(h, acc, NULL) && Distinct(acc)
    ensures Spine(h, e.id, above) && Models(h, e, h[e.id].parent) && Distinct(e)
  {
    if acc == e {
      above := [];
    } else if acc.token.Concat? || acc.left == e {
      above := [acc.id];
      assert Models(h, e, acc.id);
      assert above[1..] == [];
      assert Spine(h, acc.id, []);
    } else {
      var c := acc.left;
      above := [c.id, acc.id];
      assert Models(h, c, acc.id) && Models(h, e, c.id);
      assert above[1..] == [acc.id] && above[1..][1..] == [];
      assert Spine(h, acc.id, []);
      assert Spine(h, c.id, [acc.id]);
    }
  }

  /** A tree of the storage and a fresh copy next to it. */
  lemma CopyApart(h: Heap, acc: Tree, e: Tree)
    requires e.Bin? && Valid(h, e.id) && Models(h, acc, NULL)
    ensures var p := h[e.id].parent;
            var h' := Dup(h, e, p);
            var e' := Copy(e, |h|);
            && Grown(h, h') && Models(h', acc, NULL) && Models(h', e', p) && Distinct(e')
            && Ids(acc) !! Ids(e') && e'.Bin? && e'.id == |h|
  {
    DupGrows(h, e, h[e.id].parent);
    DupModels(h, e, h[e.id].parent);
    CopyIds(e, |h|);
    ModelsIds(h, acc, NULL);
    ModelsFrame(h, Dup(h, e, h[e.id].parent), acc, NULL);
  }

  /** A complete tree standing on its own in the storage. */
  ghost predicate Stands(h: Heap, p: Ptr, t: Tree) {
    p == Root(t) && Models(h, t, NULL) && Distinct(t) && WellFormed(t)
  }

  /** Attaching a copy of the free end on the right of what has been built. */
  method AttachCopy(dfa: ReDfa, tree: Ptr, elem: Ptr, ghost acc: Tree, ghost e: Tree)
    returns (tree': Ptr, elem': Ptr, ghost acc': Tree, ghost e': Tree)
    requires Stands(dfa.tree, tree, acc) && e.Bin? && elem == e.id && AtTail(acc, e) && WellFormed(e)
    modifies dfa`tree
    ensures e' == Copy(e, |old(dfa.tree)|) && elem' == e'.id && e'.Bin? && WellFormed(e') && SameLang(e, e')
    ensures acc' == Bin(|old(dfa.tree)| + Size(e), Concat, acc, e') && Stands(dfa.tree, tree', acc')
    ensures AppendedTo(old(dfa.tree), dfa.tree, acc.id)
  {
    hide Models, Distinct, WellFormed, AtTail, Spine, Dup, Copy, SameLang, Create, Ids;
    ghost var h := dfa.tree;
    ghost var above := TailSpine(h, acc, e);
    SpineValid(h, elem, above);
    ghost var p := h[elem].parent;
    CopyApart(h, acc, e);
    CopyMeaning(e, |h|);
    elem' := DuplicateTree(dfa, elem, e, above);
    e' := Copy(e, |h|);
    ghost var h1 := dfa.tree;
    acc' := Bin(|h1|, Concat, acc, e');
    CreateModels(h1, acc, NULL, e', p, Concat);
    ConcatWellFormed(|h1|, acc, e, e');
    tree' := dfa.CreateTree(tree, elem', Concat);
  }

  lemma ChainsAttach(id: nat, acc: Tree, e: Tree, n: nat, t: Tree)
    requires ChainsWithin(acc, t) && ChainsWithin(e, t)
    ensures ChainsWithin(Copy(e, n), t) && ChainsWithin(Bin(id, Concat, acc, Copy(e, n)), t)
  {
    CopyWithin(e, n, t);
    WithinJoin(id, Concat, acc, Copy(e, n), t);
  }

  lemma WithinSelf(t: Tree)
    ensures ChainsWithin(t, t)
  {
  }

  lemma ChainsWrap(id: nat, token: Token, e: Tree, t: Tree)
    requires !token.Subexp? && ChainsWithin(e, t)
    ensures ChainsWithin(Bin(id, token, e, Nil), t)
  {
    WithinJoin(id, token, e, Nil, t);
  }

  lemma SpineValid(h: Heap, p: Ptr, above: seq<nat>)
    requires Spine(h, p, above)
    ensures Valid(h, p)
  {
  }

  lemma ConcatWellFormed(id: nat, acc: Tree, e: Tree, e': Tree)
    requires AtTail(acc, e) && e.Bin? && e'.Bin? && WellFormed(acc) && WellFormed(e')
    ensures acc.Bin? && WellFormed(Bin(id, Concat, acc, e'))
  {
  }

  /** Only the parent of the given root may have changed among the existing nodes. */
  ghost predicate AppendedTo(h: Heap, h': Heap, root: nat) {
    && |h| <= |h'|
    && forall i: nat :: i < |h| && i != root ==> h'[i] == h[i]
  }

  /** A second tree, out of the way of the one being built. */
  ghost predicate Aside(h: Heap, other: Tree, acc: Tree) {
    Models(h, other, NULL) && Distinct(other) && WellFormed(other) && Ids(other) !! Ids(acc)
  }

  /** It stays in place while the other one grows. */
  lemma AsideKept(h: Heap, h': Heap, other: Tree, acc: Tree, acc': Tree)
    requires Aside(h, other, acc) && acc.Bin? && AppendedTo(h, h', acc.id)
    requires forall i <- Ids(acc') :: i in Ids(acc) || |h| <= i
    ensures Aside(h', other, acc')
  {
    ModelsIds(h, other, NULL);
    assert acc.id in Ids(acc);
    ModelsFrame(h, h', other, NULL);
  }

  /** Wrapping what has been built in a node with nothing on its right. */
  method Wrap(dfa: ReDfa, elem: Ptr, token: Token, ghost e: Tree, ghost p: Ptr)
    returns (tree: Ptr, ghost acc: Tree)
    requires e.Bin? && elem == e.id && Models(dfa.tree, e, p) && Distinct(e) && WellFormed(e)
    requires token.OpAlt? || token.OpDupAsterisk?
    modifies dfa`tree
    ensures acc == Bin(|old(dfa.tree)|, token, e, Nil) && Stands(dfa.tree, tree, acc)
    ensures AppendedTo(old(dfa.tree), dfa.tree, e.id)
  {
    CreateModels(dfa.tree, e, p, Nil, NULL, token);
    acc := Bin(|dfa.tree|, token, e, Nil);
    tree := dfa.CreateTree(elem, NULL, token);
  }

  /** <re><re>...<re>, `start` times. */
  method Mandatory(dfa: ReDfa, elem0: Ptr, start: nat, ghost t: Tree)
    returns (tree: Ptr, elem: Ptr, ghost acc: Tree, ghost e: Tree)
    requires Stands(dfa.tree, elem0, t) && t.Bin? && start > 0
    modifies dfa`tree
    ensures Stands(dfa.tree, tree, acc) && IsPower(acc, t, start) && acc.Bin?
    ensures e.Bin? && elem == e.id && AtTail(acc, e) && WellFormed(e) && SameLang(t, e)
    ensures AppendedTo(old(dfa.tree), dfa.tree, t.id) && (acc.id == t.id || acc.id >= |old(dfa.tree)|)
    ensures ChainsWithin(acc, t) && ChainsWithin(e, t)
  {
    hide WellFormed, Distinct, Models, ChainsWithin;
    WithinSelf(t);
    ghost var h0 := dfa.tree;
    tree, elem, acc, e := elem0, elem0, t, t;
    forall w: Word ensures InLang(t, w) <==> InPower(t, w, 1) { PowerOne(t, w); }
    ModelsIds(h0, t, NULL);
    var i := 2;
    while i <= start
      invariant 2 <= i <= start + 1
      invariant Stands(dfa.tree, tree, acc) && IsPower(acc, t, i - 1) && acc.Bin?
      invariant e.Bin? && elem == e.id && AtTail(acc, e) && WellFormed(e) && SameLang(t, e)
      invariant AppendedTo(h0, dfa.tree, t.id) && (acc.id == t.id || acc.id >= |h0|)
      invariant ChainsWithin(acc, t) && ChainsWithin(e, t)
    {
      ghost var acc0 := acc;
      ghost var e0 := e;
      ChainsAttach(|dfa.tree| + Size(e), acc, e, |dfa.tree|, t);
      tree, elem, acc, e := AttachCopy(dfa, tree, elem, acc, e);
      PowerConcat(acc.id, acc0, e, t, i - 1);
      i := i + 1;
    }
  }

  /** (...((<re>)?<re>)?...<re>)? or (<re>)*, with another tree kept aside. */
  method Optional(dfa: ReDfa, elem0: Ptr, count: int, ghost t: Tree, ghost e0: Tree, ghost p: Ptr, ghost other: Tree)
    returns (tree: Ptr, ghost acc: Tree)
    requires e0.Bin? && elem0 == e0.id && Models(dfa.tree, e0, p) && Distinct(e0) && WellFormed(e0) && SameLang(t, e0)
    requires Aside(dfa.tree, other, e0)
    requires (count == MISSING || count > 0) && ChainsWithin(e0, t)
    modifies dfa`tree
    ensures Stands(dfa.tree, tree, acc) && acc.Bin? && IsRepeat(acc, t, 0, count)
    ensures Aside(dfa.tree, other, acc)
    ensures AppendedTo(old(dfa.tree), dfa.tree, e0.id) && acc.id >= |old(dfa.tree)|
    ensures ChainsWithin(acc, t)
  {
    hide WellFormed, Distinct, Models, ChainsWithin, IsRepeat;
    ghost var h0 := dfa.tree;
    ModelsIds(h0, e0, p);
    assert e0.id in Ids(e0);
    tree, acc := Wrap(dfa, elem0, if count == MISSING then OpDupAsterisk else OpAlt, e0, p);
    AsideKept(h0, dfa.tree, other, e0, acc);
    ChainsWrap(acc.id, acc.token, e0, t);
    if count == MISSING {
      StarRepeats(acc.id, e0, t);
      return;
    }
    OptionRepeats(acc.id, e0, t);
    ghost var e := e0;
    var elem := elem0;
    var i := 1;
    while i < count
      invariant 1 <= i <= count
      invariant Stands(dfa.tree, tree, acc) && acc.Bin? && acc.token.OpAlt? && IsRepeat(acc, t, 0, i)
      invariant e.Bin? && elem == e.id && AtTail(acc, e) && WellFormed(e) && SameLang(t, e)
      invariant Aside(dfa.tree, other, acc) && ChainsWithin(acc, t) && ChainsWithin(e, t)
      invariant AppendedTo(h0, dfa.tree, e0.id) && acc.id >= |h0|
    {
      tree, elem, acc, e := OneMore(dfa, tree, elem, acc, e, t, i, other);
      i := i + 1;
    }
  }

  /** From X to (X<re>)?. */
  method OneMore(dfa: ReDfa, tree0: Ptr, elem0: Ptr, ghost acc0: Tree, ghost e0: Tree, ghost t: Tree, ghost j: nat,
      ghost other: Tree)
    returns (tree: Ptr, elem: Ptr, ghost acc: Tree, ghost e: Tree)
    requires Stands(dfa.tree, tree0, acc0) && acc0.Bin? && IsRepeat(acc0, t, 0, j)
    requires e0.Bin? && elem0 == e0.id && AtTail(acc0, e0) && WellFormed(e0) && SameLang(t, e0)
    requires Aside(dfa.tree, other, acc0) && ChainsWithin(acc0, t) && ChainsWithin(e0, t)
    modifies dfa`tree
    ensures Stands(dfa.tree, tree, acc) && acc.Bin? && acc.token.OpAlt? && IsRepeat(acc, t, 0, j + 1)
    ensures e.Bin? && elem == e.id && AtTail(acc, e) && WellFormed(e) && SameLang(t, e)
    ensures Aside(dfa.tree, other, acc) && ChainsWithin(acc, t) && ChainsWithin(e, t)
    ensures AppendedTo(old(dfa.tree), dfa.tree, acc0.id) && acc.id >= |old(dfa.tree)|
  {
    hide WellFormed, Distinct, Models, ChainsWithin, IsRepeat;
    ghost var h0 := dfa.tree;
    ChainsAttach(|h0| + Size(e0), acc0, e0, |h0|, t);
    tree, elem, acc, e := AttachCopy(dfa, tree0, elem0, acc0, e0);
    ghost var h1 := dfa.tree;
    ghost var c := acc;
    CopyIds(e0, |h0|);
    AsideKept(h0, h1, other, acc0, c);
    tree, acc := Wrap(dfa, tree, OpAlt, c, NULL);
    ChainsWrap(acc.id, OpAlt, c, t);
    ModelsIds(h1, c, NULL);
    AsideKept(h1, dfa.tree, other, c, acc);
    NestedOptionRepeats(c.id, acc.id, acc0, e, t, j);
  }

  /** The tree of <re>{start,end}: its language is the union of the powers of the
      operand's language from `start` to `end`, or from `start` on; and its groups are the
      operand's, copied in whole chains. */
  method Repeat(dfa: ReDfa, elem0: Ptr, start: nat, end: int, ghost t: Tree) returns (tree: Ptr, ghost r: Tree)
    requires Stands(dfa.tree, elem0, t) && (end == MISSING || start <= end)
    modifies dfa`tree
    ensures Stands(dfa.tree, tree, r) && IsRepeat(r, t, start, end) && ChainsWithin(r, t)
    ensures t.Bin? ==> AppendedTo(old(dfa.tree), dfa.tree, t.id)
    ensures t.Nil? || (start == 0 && end == 0) ==> dfa.tree == old(dfa.tree)
  {
    if elem0 == NULL || (start == 0 && end == 0) {
      NilRepeats(t, start, end);
      return NULL, Nil;
    }
    ghost var h0 := dfa.tree;
    ModelsIds(h0, t, NULL);
    assert t.id in Ids(t);
    WithinSelf(t);
    if start == 0 {
      tree, r := Optional(dfa, elem0, end, t, t, NULL, Nil);
      return;
    }
    var oldTree, elem;
    ghost var first, e;
    oldTree, elem, first, e := Mandatory(dfa, elem0, start, t);
    if start == end {
      forall w: Word ensures InLang(first, w) <==> Repeats(t, w, start, end) {
        assert InPower(t, w, start) ==> Repeats(t, w, start, end);
      }
      return oldTree, first;
    }
    tree, r := ThenOptional(dfa, oldTree, elem, start, if end == MISSING then MISSING else end - start, t, first, e);
  }

  /** A copy of the operand, made optional and put behind the mandatory part. */
  method ThenOptional(dfa: ReDfa, oldTree: Ptr, elem0: Ptr, ghost start: nat, count: int, ghost t: Tree,
      ghost first: Tree, ghost e: Tree)
    returns (tree: Ptr, ghost r: Tree)
    requires Stands(dfa.tree, oldTree, first) && IsPower(first, t, start) && first.Bin?
    requires e.Bin? && elem0 == e.id && AtTail(first, e) && WellFormed(e) && SameLang(t, e)
    requires (count == MISSING || count > 0) && ChainsWithin(first, t) && ChainsWithin(e, t)
    modifies dfa`tree
    ensures ChainsWithin(r, t)
    ensures Stands(dfa.tree, tree, r) && IsRepeat(r, t, start, if count == MISSING then MISSING else start + count)
    ensures AppendedTo(old(dfa.tree), dfa.tree, first.id)
  {
    hide Models, Distinct, WellFormed, AtTail, Spine, Dup, Copy, SameLang, Create, Ids, IsPower, IsRepeat, ChainsWithin;
    ghost var h1 := dfa.tree;
    ghost var above := TailSpine(h1, first, e);
    SpineValid(h1, elem0, above);
    CopyApart(h1, first, e);
    CopyMeaning(e, |h1|);
    CopyWithin(e, |h1|, t);
    SameLangThrough(t, e, Copy(e, |h1|));
    var elem := DuplicateTree(dfa, elem0, e, above);
    var opt;
    ghost var acc;
    opt, acc := Optional(dfa, elem, count, t, Copy(e, |h1|), h1[e.id].parent, first);
    JoinRepeats(|dfa.tree|, first, acc, t, start, count);
    CreateModels(dfa.tree, first, NULL, acc, NULL, Concat);
    r := Bin(|dfa.tree|, Concat, first, acc);
    BothWellFormed(|dfa.tree|, first, acc);
    WithinJoin(|dfa.tree|, Concat, first, acc, t);
    RootLinks(dfa.tree, first, NULL);
    RootLinks(dfa.tree, acc, NULL);
    tree := dfa.CreateTree(oldTree, opt, Concat);
  }

  lemma SameLangThrough(t: Tree, u: Tree, v: Tree)
    requires SameLang(t, u) && SameLang(u, v)
    ensures SameLang(t, v)
  {
  }

  lemma BothWellFormed(id: nat, l: Tree, r: Tree)
    requires l.Bin? && r.Bin? && WellFormed(l) && WellFormed(r)
    ensures WellFormed(Bin(id, Concat, l, r))
  {
  }
}
