/** The parse tree of the regular-expression compiler: nodes live in one growing
    storage and refer to each other by position, exactly as bin_tree_t records in
    str_tree_storage refer to each other by address.  A ghost value of type `Tree`
    says which tree a pointer stands for, and `InLang` says what that tree means. */
module RegexTree {
  import opened Common

  /** A position in the tree storage, or NULL. */
  type Ptr = int

  const NULL: Ptr := -1

  datatype Token =
    | Character(c: Byte)
    | SimpleBracket(sbcset: set<Byte>)
    | OpPeriod
    | EndOfRe
    | OpOpenSubexp(idx: nat)
    | OpCloseSubexp(idx: nat)
    | OpAlt
    | OpDupAsterisk
    | Concat
    | Subexp(idx: nat)

  /** IS_EPSILON_NODE: the token types that carry EPSILON_BIT. */
  predicate IsEpsilon(tok: Token) {
    tok.OpOpenSubexp? || tok.OpCloseSubexp? || tok.OpAlt? || tok.OpDupAsterisk?
  }

  /** Tokens that consume exactly one byte. */
  predicate IsByteTest(tok: Token) {
    tok.Character? || tok.SimpleBracket? || tok.OpPeriod?
  }

  predicate Matches(tok: Token, c: Byte) {
    match tok
    case Character(d) => c == d
    case SimpleBracket(s) => c in s
    case OpPeriod => true
    case _ => false
  }

  /** struct bin_tree_t */
  datatype BinTree = BinTree(
    parent: Ptr, left: Ptr, right: Ptr,
    first: Ptr, next: Ptr,
    token: Token, nodeIdx: int)

  type Heap = seq<BinTree>

  // ------------------------------------------------------------------
  // Which tree a pointer stands for

  datatype Tree = Nil | Bin(id: nat, token: Token, left: Tree, right: Tree)

  ghost function Root(t: Tree): Ptr {
    if t.Nil? then NULL else t.id
  }

  ghost function Ids(t: Tree): set<nat> {
    match t
    case Nil => {}
    case Bin(id, _, l, r) => {id} + Ids(l) + Ids(r)
  }

  lemma IdsLeaf(id: nat, tok: Token)
    ensures Ids(Bin(id, tok, Nil, Nil)) == {id} && Distinct(Bin(id, tok, Nil, Nil))
  {
    assert Ids(Nil) == {};
  }

  /** No storage slot is used twice. */
  ghost predicate Distinct(t: Tree) {
    match t
    case Nil => true
    case Bin(id, _, l, r) =>
      Distinct(l) && Distinct(r) && id !in Ids(l) && id !in Ids(r) && Ids(l) !! Ids(r)
  }

  /** The storage holds `t` below a node whose address is `parent`. */
  ghost predicate Models(h: Heap, t: Tree, parent: Ptr) {
    match t
    case Nil => true
    case Bin(id, tok, l, r) =>
      && id < |h|
      && h[id].parent == parent
      && h[id].left == Root(l)
      && h[id].right == Root(r)
      && h[id].token == tok
      && Models(h, l, id)
      && Models(h, r, id)
  }

  /** What the storage says of the root of a tree and of its operands. */
  lemma ModelsParts(h: Heap, t: Tree, parent: Ptr)
    requires t.Bin? && Models(h, t, parent) && Distinct(t)
    ensures t.id < |h| && h[t.id].parent == parent && h[t.id].token == t.token
    ensures h[t.id].left == Root(t.left) && h[t.id].right == Root(t.right)
    ensures Models(h, t.left, t.id) && Models(h, t.right, t.id) && Distinct(t.left) && Distinct(t.right)
    ensures Ids(t) == {t.id} + Ids(t.left) + Ids(t.right)
    ensures t.id !in Ids(t.left) && t.id !in Ids(t.right) && Ids(t.left) !! Ids(t.right)
  {
  }

  lemma DistinctIntro(t: Tree)
    requires t.Bin? && Distinct(t.left) && Distinct(t.right)
    requires t.id !in Ids(t.left) && t.id !in Ids(t.right) && Ids(t.left) !! Ids(t.right)
    ensures Distinct(t) && Ids(t) == {t.id} + Ids(t.left) + Ids(t.right)
  {
  }

  lemma ModelsIntro(h: Heap, t: Tree, parent: Ptr)
    requires t.Bin? && t.id < |h| && h[t.id].parent == parent && h[t.id].token == t.token
    requires h[t.id].left == Root(t.left) && h[t.id].right == Root(t.right)
    requires Models(h, t.left, t.id) && Models(h, t.right, t.id)
    ensures Models(h, t, parent)
  {
  }

  lemma {:induction false} ModelsIds(h: Heap, t: Tree, parent: Ptr)
    requires Models(h, t, parent)
    ensures forall i <- Ids(t) :: i < |h|
  {
    if t.Nil? {
    } else {
      ModelsIds(h, t.left, t.id);
      ModelsIds(h, t.right, t.id);
    }
  }

  /** The tree-shape part of a node. */
  predicate SameShape(a: BinTree, b: BinTree) {
    a.parent == b.parent && a.left == b.left && a.right == b.right && a.token == b.token
  }

  lemma {:induction false} ModelsFrame(h: Heap, h': Heap, t: Tree, parent: Ptr)
    requires Models(h, t, parent)
    requires |h| <= |h'|
    requires forall i <- Ids(t) :: i < |h| ==> SameShape(h[i], h'[i])
    ensures Models(h', t, parent)
  {
    if t.Nil? {
    } else {
      ModelsFrame(h, h', t.left, t.id);
      ModelsFrame(h, h', t.right, t.id);
    }
  }

  /** A child keeps its tree when only its parent pointer is redirected. */
  lemma ModelsReparent(h: Heap, h': Heap, t: Tree, parent: Ptr, parent': Ptr)
    requires Models(h, t, parent) && Distinct(t) && t.Bin?
    requires |h| <= |h'|
    requires forall i <- Ids(t) :: i < |h| && i != t.id ==> SameShape(h[i], h'[i])
    requires h'[t.id].parent == parent' && h'[t.id].left == h[t.id].left
    requires h'[t.id].right == h[t.id].right && h'[t.id].token == h[t.id].token
    ensures Models(h', t, parent')
  {
    ModelsFrame(h, h', t.left, t.id);
    ModelsFrame(h, h', t.right, t.id);
  }

  // ------------------------------------------------------------------
  // What the parser builds

  /** Trees the parser builds below the root: CONCAT has two operands, '*' has
      one, a subexpression may be empty, and either branch of '|' may be NULL. */
  ghost predicate WellFormed(t: Tree) {
    match t
    case Nil => true
    case Bin(_, tok, l, r) =>
      && WellFormed(l) && WellFormed(r)
      && match tok {
           case Concat => l.Bin? && r.Bin?
           case OpAlt => true
           case OpDupAsterisk => l.Bin? && r.Nil?
           case Subexp(_) => r.Nil?
           case EndOfRe => false
           case _ => l.Nil? && r.Nil?
         }
  }

  /** The whole tree: CONCAT (expression, END_OF_RE), or END_OF_RE alone for
      the empty expression. */
  ghost predicate WellFormedRoot(t: Tree) {
    && t.Bin?
    && match t.token {
         case EndOfRe => t.left.Nil? && t.right.Nil?
         case Concat =>
           && t.left.Bin? && WellFormed(t.left)
           && t.right.Bin? && t.right.token.EndOfRe? && t.right.left.Nil? && t.right.right.Nil?
         case _ => false
       }
  }

  ghost predicate NoSubexp(t: Tree) {
    t.Bin? ==> !t.token.Subexp? && NoSubexp(t.left) && NoSubexp(t.right)
  }

  /** No bracket expression of the tree matches nothing at all. */
  ghost predicate NoEmptyBracket(t: Tree) {
    t.Bin? ==> t.token != SimpleBracket({}) && NoEmptyBracket(t.left) && NoEmptyBracket(t.right)
  }

  // ------------------------------------------------------------------
  // What a tree means

  type Word = seq<Byte>

  /** The language of a tree.  A NULL operand, a subexpression bracket and
      END_OF_RE stand for the empty word. */
  ghost predicate InLang(t: Tree, w: Word)
    decreases t, 0
  {
    match t
    case Nil => w == []
    case Bin(_, tok, l, r) =>
      match tok {
        case Concat => exists i | 0 <= i <= |w| :: InLang(l, w[..i]) && InLang(r, w[i..])
        case OpAlt => InLang(l, w) || InLang(r, w)
        case OpDupAsterisk => exists k: nat :: InPower(l, w, k)
        case Subexp(_) => InLang(l, w)
        case OpOpenSubexp(_) => w == []
        case OpCloseSubexp(_) => w == []
        case EndOfRe => w == []
        case _ => |w| == 1 && Matches(tok, w[0])
      }
  }

  /** w is a concatenation of k words of the language of t. */
  ghost predicate InPower(t: Tree, w: Word, k: nat)
    decreases t, 1 + k
  {
    if k == 0 then w == []
    else exists i | 0 <= i <= |w| :: InLang(t, w[..i]) && InPower(t, w[i..], k - 1)
  }

  /** Two trees mean the same. */
  ghost predicate SameLang(t: Tree, u: Tree) {
    forall w: Word :: InLang(t, w) <==> InLang(u, w)
  }

  lemma {:induction false} SamePower(t: Tree, u: Tree, w: Word, k: nat)
    requires SameLang(t, u)
    ensures InPower(t, w, k) <==> InPower(u, w, k)
    decreases k
  {
    if k == 0 {
    } else {
      forall i | 0 <= i <= |w|
        ensures InPower(t, w[i..], k - 1) <==> InPower(u, w[i..], k - 1)
      {
        SamePower(t, u, w[i..], k - 1);
      }
    }
  }

  /** The language of a node depends only on its token and on the languages of
      its operands. */
  lemma SameLangBin(id: nat, id': nat, tok: Token, l: Tree, l': Tree, r: Tree, r': Tree)
    requires SameLang(l, l') && SameLang(r, r')
    ensures SameLang(Bin(id, tok, l, r), Bin(id', tok, l', r'))
  {
    var t, u := Bin(id, tok, l, r), Bin(id', tok, l', r');
    forall w: Word
      ensures InLang(t, w) <==> InLang(u, w)
    {
      if tok.OpDupAsterisk? {
        forall k: nat ensures InPower(l, w, k) <==> InPower(l', w, k) {
          SamePower(l, l', w, k);
        }
      }
    }
  }
}
