/** What compilation does to the groups of a pattern: which of them are merged, what the
    group map says of them, and which brackets are left in the automaton. */
module RegexGroups {
  import opened RegexTree
  import opened RegexWalk
  import opened RegexPasses
  import opened RegexMeaning
  import opened RegexNfa
  import opened RegexBuild

  // ------------------------------------------------------------------
  // Chains of groups

  /** The groups nested directly in one another from the root of t on, outermost first. */
  ghost function Chain(t: Tree): seq<nat> {
    if t.Bin? && t.token.Subexp? then [t.token.idx] + Chain(t.left) else []
  }

  /** c is a maximal chain of t; `inner` says that t hangs directly below a group. */
  ghost predicate HasChain(t: Tree, inner: bool, c: seq<nat>) {
    && t.Bin?
    && (|| (t.token.Subexp? && !inner && c == Chain(t))
        || HasChain(t.left, t.token.Subexp?, c) || HasChain(t.right, false, c))
  }

  /** Group j comes right after group i, and i is the first, the third, the fifth and so on
      of the chain. */
  ghost predicate PairedIn(c: seq<nat>, i: nat, j: nat) {
    exists m: nat :: m + 1 < |c| && m % 2 == 0 && c[m] == i && c[m + 1] == j
  }

  /** In some chain of t, group i absorbs group j. */
  ghost predicate Absorbs(t: Tree, i: nat, j: nat) {
    exists c: seq<nat> :: HasChain(t, false, c) && PairedIn(c, i, j)
  }

  ghost predicate Absorbed(t: Tree, j: nat) {
    exists i: nat :: Absorbs(t, i, j)
  }

  /** No group is absorbed by two others, or by one that is itself absorbed. So it is when
      every group stands once, and when trees are copied as a whole. */
  ghost predicate GroupsApart(t: Tree) {
    && (forall h: nat, i: nat, j: nat :: Absorbs(t, h, j) && Absorbs(t, i, j) ==> h == i)
    && (forall i: nat, j: nat :: Absorbs(t, i, j) ==> !Absorbed(t, i))
  }

  /** The root of t absorbs the group below it. */
  ghost predicate Straddles(t: Tree) {
    t.Bin? && t.token.Subexp? && t.left.Bin? && t.left.token.Subexp?
  }

  // ------------------------------------------------------------------
  // The same pairs, found from the root down

  /** The pairs of groups that a walk meets which skips every group absorbed. */
  ghost predicate Meets(t: Tree, i: nat, j: nat) {
    if t.Nil? then false
    else if Straddles(t) then
      (i == t.token.idx && j == t.left.token.idx) || Meets(t.left.left, i, j) || Meets(t.right, i, j)
    else Meets(t.left, i, j) || Meets(t.right, i, j)
  }

  lemma PairedStep(c: seq<nat>, a: nat, b: nat, i: nat, j: nat)
    ensures PairedIn([a, b] + c, i, j) <==> (i == a && j == b) || PairedIn(c, i, j)
  {
    var d := [a, b] + c;
    if m: nat :| m + 1 < |d| && m % 2 == 0 && d[m] == i && d[m + 1] == j {
      if m > 0 { assert c[m - 2] == i && c[m - 1] == j; }
    }
    if i == a && j == b { assert d[0] == i && d[1] == j; }
    if m: nat :| m + 1 < |c| && m % 2 == 0 && c[m] == i && c[m + 1] == j {
      assert d[m + 2] == i && d[m + 3] == j;
    }
  }

  lemma PairedShort(c: seq<nat>, i: nat, j: nat)
    requires |c| <= 1
    ensures !PairedIn(c, i, j)
  {
  }

  /** What is absorbed in a tree none of whose pairs straddles its root. */
  lemma AbsorbsBelow(t: Tree, i: nat, j: nat)
    requires t.Bin? && !Straddles(t)
    ensures Absorbs(t, i, j) <==> Absorbs(t.left, i, j) || Absorbs(t.right, i, j)
  {
    var l, r := t.left, t.right;
    assert Chain(l) == [] || !t.token.Subexp?;
    forall c: seq<nat> ensures HasChain(l, t.token.Subexp?, c) <==> HasChain(l, false, c) {
    }
    if c: seq<nat> :| HasChain(t, false, c) && PairedIn(c, i, j) {
      if t.token.Subexp? && c == Chain(t) { PairedShort(c, i, j); }
    }
    if c: seq<nat> :| HasChain(l, false, c) && PairedIn(c, i, j) { assert HasChain(t, false, c); }
    if c: seq<nat> :| HasChain(r, false, c) && PairedIn(c, i, j) { assert HasChain(t, false, c); }
  }

  /** What is absorbed in a tree whose root absorbs the group below it. */
  lemma AbsorbsAtRoot(t: Tree, i: nat, j: nat)
    requires Straddles(t) && t.left.right.Nil?
    ensures Absorbs(t, i, j) <==>
            (i == t.token.idx && j == t.left.token.idx) || Absorbs(t.left.left, i, j) || Absorbs(t.right, i, j)
  {
    var a, b, u := t.token.idx, t.left.token.idx, t.left.left;
    assert Chain(t) == [a, b] + Chain(u);
    PairedStep(Chain(u), a, b, i, j);
    forall c: seq<nat> ensures HasChain(t, false, c) <==>
                     c == Chain(t) || HasChain(u, true, c) || HasChain(t.right, false, c)
    {
      assert HasChain(t.left, true, c) <==> HasChain(u, true, c);
    }
    if u.Bin? && u.token.Subexp? {
      assert HasChain(u, false, Chain(u));
    } else {
      PairedShort(Chain(u), i, j);
    }
    assert HasChain(t, false, Chain(t));
    forall c: seq<nat> | HasChain(u, false, c) && PairedIn(c, i, j) ensures Absorbs(t, i, j) {
      if c != Chain(u) { assert HasChain(t, false, c); }
    }
    forall c: seq<nat> | HasChain(t.right, false, c) && PairedIn(c, i, j) ensures Absorbs(t, i, j) {
      assert HasChain(t, false, c);
    }
    forall c: seq<nat> | HasChain(t, false, c) && PairedIn(c, i, j)
      ensures (i == a && j == b) || Absorbs(u, i, j) || Absorbs(t.right, i, j)
    {
      if c != Chain(t) && HasChain(u, true, c) { assert HasChain(u, false, c); }
    }
  }

  lemma {:induction false} MeetsAbsorbs(t: Tree, i: nat, j: nat)
    requires WellFormed(t)
    ensures Meets(t, i, j) <==> Absorbs(t, i, j)
  {
    hide Absorbs, WellFormed;
    if t.Nil? {
      NothingAbsorbed(i, j);
    } else if Straddles(t) {
      SubexpOperands(t);
      SubexpOperands(t.left);
      AbsorbsAtRoot(t, i, j);
      MeetsAbsorbs(t.left.left, i, j);
      MeetsAbsorbs(t.right, i, j);
    } else {
      OperandsWellFormed(t);
      AbsorbsBelow(t, i, j);
      MeetsAbsorbs(t.left, i, j);
      MeetsAbsorbs(t.right, i, j);
    }
  }

  lemma RootAbsorbs(t: Tree, i: nat, j: nat)
    requires WellFormedRoot(t)
    ensures Meets(t, i, j) <==> Absorbs(t, i, j)
  {
    hide Absorbs;
    NothingAbsorbed(i, j);
    AbsorbsBelow(t, i, j);
    if t.token.Concat? {
      MeetsAbsorbs(t.left, i, j);
      AbsorbsBelow(t.right, i, j);
    }
  }

  lemma NothingAbsorbed(i: nat, j: nat)
    ensures !Absorbs(Nil, i, j)
  {
  }

  lemma OperandsWellFormed(t: Tree)
    requires t.Bin? && WellFormed(t)
    ensures WellFormed(t.left) && WellFormed(t.right)
  {
  }

  lemma SubexpOperands(t: Tree)
    requires t.Bin? && t.token.Subexp? && WellFormed(t)
    ensures WellFormed(t.left) && t.right.Nil? && WellFormed(t.right)
  {
  }

  // ------------------------------------------------------------------
  // The group map

  /** Group j is sent where group i goes. */
  function Redirected(table: seq<nat>, j: nat, i: nat): (r: seq<nat>)
    ensures |r| == |table|
  {
    if j < |table| && i < |table| then table[j := table[i]] else table
  }

  /** The map once t has been walked. */
  ghost function MapAfter(table: seq<nat>, t: Tree): (r: seq<nat>)
    ensures |r| == |table|
    decreases t
  {
    if t.Nil? then table
    else if Straddles(t) then
      MapAfter(MapAfter(Redirected(table, t.left.token.idx, t.token.idx), t.left.left), t.right)
    else MapAfter(MapAfter(table, t.left), t.right)
  }

  /** The groups that back-references may still name once t has been walked. */
  ghost function UsedAfter(used: set<nat>, t: Tree): set<nat>
    decreases t
  {
    if t.Nil? then used
    else if Straddles(t) then
      var j := t.left.token.idx;
      UsedAfter(UsedAfter(if j < BITSET_WORD_BITS then used - {j} else used, t.left.left), t.right)
    else UsedAfter(UsedAfter(used, t.left), t.right)
  }

  /** The pairs met in t do not contradict each other. */
  ghost predicate MeetsApart(t: Tree) {
    && (forall h: nat, i: nat, j: nat :: Meets(t, h, j) && Meets(t, i, j) ==> h == i)
    && (forall h: nat, i: nat, j: nat :: Meets(t, i, j) ==> !Meets(t, h, i))
  }

  /** `table` sends every group met as absorbed to the one that absorbs it, and the others
      where `before` does. */
  ghost predicate MapsMet(table: seq<nat>, before: seq<nat>, t: Tree) {
    && |table| == |before|
    && (forall i: nat, j: nat :: Meets(t, i, j) && j < |table| ==> table[j] == i)
    && (forall j: nat :: j < |table| && (forall i: nat :: !Meets(t, i, j)) ==> table[j] == before[j])
  }

  lemma MapsBoth(m0: seq<nat>, m1: seq<nat>, m2: seq<nat>, t: Tree, l: Tree, r: Tree)
    requires MapsMet(m1, m0, l) && MapsMet(m2, m1, r)
    requires forall i: nat, j: nat :: Meets(t, i, j) <==> Meets(l, i, j) || Meets(r, i, j)
    requires MeetsApart(t)
    ensures MapsMet(m2, m0, t)
  {
    forall i: nat, j: nat | Meets(t, i, j) && j < |m2| ensures m2[j] == i {
      if h: nat :| Meets(r, h, j) { assert h == i; }
    }
  }

  /** In the terms of one step: first the pair (a, b), then the pairs of u, then those of r. */
  lemma MapsPair(m0: seq<nat>, m2: seq<nat>, m3: seq<nat>, t: Tree, a: nat, b: nat, u: Tree, r: Tree)
    requires a < |m0| && m0[a] == a && MapsMet(m2, Redirected(m0, b, a), u) && MapsMet(m3, m2, r)
    requires forall i: nat, j: nat :: Meets(t, i, j) <==> (i == a && j == b) || Meets(u, i, j) || Meets(r, i, j)
    requires MeetsApart(t)
    ensures MapsMet(m3, m0, t)
  {
    assert Meets(t, a, b);
    forall i: nat, j: nat | Meets(t, i, j) && j < |m3| ensures m3[j] == i {
      if h: nat :| Meets(r, h, j) {
        assert h == i;
      } else if h: nat :| Meets(u, h, j) {
        assert h == i;
      }
    }
  }

  lemma MeetsUnfold(t: Tree)
    requires t.Bin?
    ensures Straddles(t) ==> forall i: nat, j: nat ::
      Meets(t, i, j) <==>
        (i == t.token.idx && j == t.left.token.idx) || Meets(t.left.left, i, j) || Meets(t.right, i, j)
    ensures !Straddles(t) ==> forall i: nat, j: nat :: Meets(t, i, j) <==> Meets(t.left, i, j) || Meets(t.right, i, j)
  {
  }

  lemma ApartBelow(t: Tree, u: Tree)
    requires MeetsApart(t) && forall i: nat, j: nat :: Meets(u, i, j) ==> Meets(t, i, j)
    ensures MeetsApart(u)
  {
  }

  lemma {:induction false} MapMeaning(table: seq<nat>, t: Tree)
    requires MeetsApart(t)
    requires forall i: nat, j: nat :: Meets(t, i, j) ==> i < |table| && table[i] == i
    ensures MapsMet(MapAfter(table, t), table, t)
    decreases t
  {
    if t.Nil? {
    } else {
      MeetsUnfold(t);
      hide Meets, MeetsApart, MapsMet;
      ApartBelow(t, t.right);
      if Straddles(t) {
        var a, b, u := t.token.idx, t.left.token.idx, t.left.left;
        assert Meets(t, a, b);
        var m1 := Redirected(table, b, a);
        var m2 := MapAfter(m1, u);
        RedirectKeeps(table, t, a, b);
        ApartBelow(t, u);
        MapMeaning(m1, u);
        HeadsKept(m1, m2, t, u, t.right);
        MapMeaning(m2, t.right);
        MapsPair(table, m2, MapAfter(m2, t.right), t, a, b, u, t.right);
      } else {
        var m1 := MapAfter(table, t.left);
        ApartBelow(t, t.left);
        MapMeaning(table, t.left);
        HeadsKept(table, m1, t, t.left, t.right);
        MapMeaning(m1, t.right);
        MapsBoth(table, m1, MapAfter(m1, t.right), t, t.left, t.right);
      }
    }
  }

  lemma RedirectKeeps(table: seq<nat>, t: Tree, a: nat, b: nat)
    requires MeetsApart(t) && Meets(t, a, b)
    requires forall i: nat, j: nat :: Meets(t, i, j) ==> i < |table| && table[i] == i
    ensures forall i: nat, j: nat :: Meets(t, i, j) ==> Redirected(table, b, a)[i] == i
  {
  }

  /** The groups that absorb others stay where they are. */
  lemma HeadsKept(m0: seq<nat>, m1: seq<nat>, t: Tree, l: Tree, r: Tree)
    requires MapsMet(m1, m0, l) && MeetsApart(t)
    requires forall i: nat, j: nat :: Meets(l, i, j) || Meets(r, i, j) ==> Meets(t, i, j)
    requires forall i: nat, j: nat :: Meets(r, i, j) ==> i < |m0| && m0[i] == i
    ensures forall i: nat, j: nat :: Meets(r, i, j) ==> i < |m1| && m1[i] == i
  {
  }

  /** The walk meets j as absorbed. */
  ghost predicate Met(t: Tree, j: nat) {
    exists i: nat :: Meets(t, i, j)
  }

  lemma MetUnfold(t: Tree, j: nat)
    requires t.Bin?
    ensures Met(t, j) <==> if Straddles(t) then j == t.left.token.idx || Met(t.left.left, j) || Met(t.right, j)
                           else Met(t.left, j) || Met(t.right, j)
  {
    MeetsUnfold(t);
    if Straddles(t) { assert Meets(t, t.token.idx, t.left.token.idx); }
    hide Meets;
    if Met(t.right, j) {
      var i: nat :| Meets(t.right, i, j);
      assert Meets(t, i, j);
    }
    if Straddles(t) && Met(t.left.left, j) {
      var i: nat :| Meets(t.left.left, i, j);
      assert Meets(t, i, j);
    }
    if !Straddles(t) && Met(t.left, j) {
      var i: nat :| Meets(t.left, i, j);
      assert Meets(t, i, j);
    }
  }

  lemma {:induction false} UsedMeaning(used: set<nat>, t: Tree, j: nat)
    ensures j in UsedAfter(used, t) <==> j in used && !(j < BITSET_WORD_BITS && Met(t, j))
    decreases t
  {
    if t.Nil? {
    } else {
      MetUnfold(t, j);
      hide Met;
      if Straddles(t) {
        var b, u := t.left.token.idx, t.left.left;
        var u1 := if b < BITSET_WORD_BITS then used - {b} else used;
        UsedMeaning(u1, u, j);
        UsedMeaning(UsedAfter(u1, u), t.right, j);
      } else {
        UsedMeaning(used, t.left, j);
        UsedMeaning(UsedAfter(used, t.left), t.right, j);
      }
    }
  }

  // ------------------------------------------------------------------
  // What the pairs are

  /** Walking down and looking at the chains gives the same pairs. */
  ghost predicate PairsAgree(t: Tree) {
    && (forall i: nat, j: nat :: Meets(t, i, j) <==> Absorbs(t, i, j))
    && (forall j: nat :: Met(t, j) <==> Absorbed(t, j))
    && (GroupsApart(t) ==> MeetsApart(t))
  }

  lemma MeetsAll(t: Tree)
    requires WellFormed(t) || WellFormedRoot(t)
    ensures PairsAgree(t)
  {
    forall i: nat, j: nat ensures Meets(t, i, j) <==> Absorbs(t, i, j) {
      if WellFormed(t) {
        MeetsAbsorbs(t, i, j);
      } else {
        RootAbsorbs(t, i, j);
      }
    }
    hide Meets, Absorbs;
    if GroupsApart(t) {
      forall h: nat, i: nat, j: nat | Meets(t, i, j) ensures !Meets(t, h, i) {
        assert Absorbs(t, i, j) && !Absorbed(t, i);
      }
    }
  }

  // ------------------------------------------------------------------
  // Trees that a parser builds

  /** The groups of t. */
  ghost function Groups(t: Tree): set<nat> {
    if t.Nil? then {}
    else (if t.token.Subexp? then {t.token.idx} else {}) + Groups(t.left) + Groups(t.right)
  }

  /** No group stands twice. */
  ghost predicate GroupsOnce(t: Tree) {
    t.Bin? ==>
      && GroupsOnce(t.left) && GroupsOnce(t.right) && Groups(t.left) !! Groups(t.right)
      && (t.token.Subexp? ==> t.token.idx !in Groups(t.left) && t.token.idx !in Groups(t.right))
  }

  ghost function Elements(c: seq<nat>): set<nat> {
    set i <- c
  }

  ghost predicate NoRepeats(c: seq<nat>) {
    forall k: nat, m: nat :: k < m < |c| ==> c[k] != c[m]
  }

  /** A group that stands in two places has the same chain around it in both, and it stands
      in it once. */
  ghost predicate ChainsAlike(t: Tree) {
    && (forall c: seq<nat> :: HasChain(t, false, c) ==> NoRepeats(c))
    && (forall c: seq<nat>, d: seq<nat> ::
          HasChain(t, false, c) && HasChain(t, false, d) && !(Elements(c) !! Elements(d)) ==> c == d)
  }

  /** Every chain of r is one of t. */
  ghost predicate ChainsWithin(r: Tree, t: Tree) {
    forall c: seq<nat> :: HasChain(r, false, c) ==> HasChain(t, false, c)
  }

  lemma PairedElements(c: seq<nat>, i: nat, j: nat)
    requires PairedIn(c, i, j)
    ensures i in Elements(c) && j in Elements(c)
  {
  }

  /** In a chain without repeats no group is in two pairs. */
  lemma PairedOnce(c: seq<nat>, h: nat, i: nat, j: nat)
    requires NoRepeats(c) && PairedIn(c, i, j)
    ensures PairedIn(c, h, j) ==> h == i
    ensures !PairedIn(c, h, i)
  {
    var m: nat :| m + 1 < |c| && m % 2 == 0 && c[m] == i && c[m + 1] == j;
    if k: nat :| k + 1 < |c| && k % 2 == 0 && c[k] == h && c[k + 1] == j {
      assert k + 1 == m + 1;
    }
    if k: nat :| k + 1 < |c| && k % 2 == 0 && c[k] == h && c[k + 1] == i {
      assert false;
    }
  }

  lemma AlikeApart(t: Tree)
    requires ChainsAlike(t)
    ensures GroupsApart(t)
  {
    hide HasChain, PairedIn, NoRepeats, Elements;
    forall h: nat, i: nat, j: nat | Absorbs(t, h, j) && Absorbs(t, i, j) ensures h == i {
      var c: seq<nat> :| HasChain(t, false, c) && PairedIn(c, h, j);
      var d: seq<nat> :| HasChain(t, false, d) && PairedIn(d, i, j);
      PairedElements(c, h, j);
      PairedElements(d, i, j);
      PairedOnce(c, i, h, j);
    }
    forall h: nat, i: nat, j: nat | Absorbs(t, i, j) ensures !Absorbs(t, h, i) {
      var d: seq<nat> :| HasChain(t, false, d) && PairedIn(d, i, j);
      PairedElements(d, i, j);
      if Absorbs(t, h, i) {
        var c: seq<nat> :| HasChain(t, false, c) && PairedIn(c, h, i);
        PairedElements(c, h, i);
        PairedOnce(c, h, i, j);
      }
    }
  }

  lemma WithinAlike(r: Tree, t: Tree)
    requires ChainsWithin(r, t) && ChainsAlike(t)
    ensures ChainsAlike(r)
  {
  }

  lemma {:induction false} ChainElements(t: Tree)
    ensures forall i: nat :: i in Elements(Chain(t)) ==> i in Groups(t)
  {
    if t.Bin? && t.token.Subexp? { ChainElements(t.left); }
  }

  lemma {:induction false} ChainGroups(t: Tree, inner: bool, c: seq<nat>)
    requires HasChain(t, inner, c)
    ensures Elements(c) <= Groups(t)
    decreases t
  {
    if HasChain(t.left, t.token.Subexp?, c) {
      ChainGroups(t.left, t.token.Subexp?, c);
    } else if HasChain(t.right, false, c) {
      ChainGroups(t.right, false, c);
    } else {
      ChainElements(t);
    }
  }

  /** What is no group joins two trees. */
  lemma ChainsJoin(id: nat, token: Token, l: Tree, r: Tree, c: seq<nat>)
    requires !token.Subexp?
    ensures HasChain(Bin(id, token, l, r), false, c) <==> HasChain(l, false, c) || HasChain(r, false, c)
  {
  }

  lemma WithinJoin(id: nat, token: Token, l: Tree, r: Tree, t: Tree)
    requires !token.Subexp? && ChainsWithin(l, t) && ChainsWithin(r, t)
    ensures ChainsWithin(Bin(id, token, l, r), t)
  {
  }

  /** Concatenations, alternatives and repetitions of trees whose groups differ. */
  lemma JoinAlike(id: nat, token: Token, l: Tree, r: Tree)
    requires !token.Subexp? && ChainsAlike(l) && ChainsAlike(r) && Groups(l) !! Groups(r)
    ensures ChainsAlike(Bin(id, token, l, r))
  {
    var t := Bin(id, token, l, r);
    hide NoRepeats, Elements;
    forall c: seq<nat> ensures HasChain(t, false, c) <==> HasChain(l, false, c) || HasChain(r, false, c) {
      ChainsJoin(id, token, l, r, c);
    }
    hide HasChain;
    forall c: seq<nat>, d: seq<nat> | HasChain(l, false, c)
        && HasChain(r, false, d) ensures Elements(c) !! Elements(d) {
      ChainGroups(l, false, c);
      ChainGroups(r, false, d);
    }
  }

  /** A new group around a tree, whose root, if a group too, stands nowhere else. */
  lemma GroupAlike(id: nat, i: nat, l: Tree)
    requires ChainsAlike(l) && i !in Groups(l) && WellFormed(l)
    requires l.Bin? && l.token.Subexp? ==> l.token.idx !in Groups(l.left)
    ensures ChainsAlike(Bin(id, Subexp(i), l, Nil))
  {
    var t := Bin(id, Subexp(i), l, Nil);
    assert Chain(t) == [i] + Chain(l);
    assert forall c: seq<nat> :: HasChain(t, false, c) <==> c == Chain(t) || HasChain(l, true, c);
    RootChain(l);
    forall c: seq<nat> | HasChain(l, true, c) ensures HasChain(l, false, c) && Elements(c) !! Elements(Chain(t)) {
      InnerChain(l, c);
      ChainGroups(l, true, c);
    }
    ChainElements(l);
    hide HasChain, Chain, Groups;
    assert NoRepeats(Chain(t));
  }

  lemma RootChain(l: Tree)
    requires ChainsAlike(l)
    ensures NoRepeats(Chain(l))
  {
    if l.Bin? && l.token.Subexp? { assert HasChain(l, false, Chain(l)); }
  }

  /** A chain below the topmost one has nothing in common with it. */
  lemma InnerChain(l: Tree, c: seq<nat>)
    requires ChainsAlike(l) && HasChain(l, true, c) && WellFormed(l)
    requires l.token.Subexp? ==> l.token.idx !in Groups(l.left)
    ensures HasChain(l, false, c) && Elements(c) !! Elements(Chain(l))
  {
    if l.token.Subexp? {
      SubexpOperands(l);
      assert HasChain(l.left, true, c);
      ChainGroups(l.left, true, c);
      assert HasChain(l, false, c) && HasChain(l, false, Chain(l));
      assert l.token.idx == Chain(l)[0] && l.token.idx in Elements(Chain(l));
      assert c != Chain(l);
    }
  }

  /** So it is when the groups are numbered and nothing is copied. */
  lemma {:induction false} NumberedAlike(t: Tree)
    requires (WellFormed(t) || WellFormedRoot(t)) && GroupsOnce(t)
    ensures ChainsAlike(t)
    decreases t
  {
    if t.Nil? {
    } else if t.token.Subexp? {
      NumberedAlike(t.left);
      GroupAlike(t.id, t.token.idx, t.left);
    } else {
      NumberedAlike(t.left);
      NumberedAlike(t.right);
      JoinAlike(t.id, t.token, t.left, t.right);
    }
  }

  /** In a chain of four the third group absorbs the fourth: not every group that is merged
      is merged with the outermost one. */
  lemma ChainOfFour(n: nat)
    ensures var u := Bin(n + 2, Subexp(2), Bin(n + 3, Subexp(3), Nil, Nil), Nil);
            var t := Bin(n, Subexp(0), Bin(n + 1, Subexp(1), u, Nil), Nil);
            && Chain(t) == [0, 1, 2, 3]
            && Absorbs(t, 0, 1) && Absorbs(t, 2, 3) && !Absorbs(t, 0, 2) && !Absorbs(t, 0, 3)
  {
    var v := Bin(n + 3, Subexp(3), Nil, Nil);
    var u := Bin(n + 2, Subexp(2), v, Nil);
    var s := Bin(n + 1, Subexp(1), u, Nil);
    var t := Bin(n, Subexp(0), s, Nil);
    assert Chain(Nil) == [] && Chain(v) == [3] && Chain(u) == [2] + Chain(v) && Chain(s) == [1] + Chain(u);
    assert WellFormed(Nil) && WellFormed(v) && WellFormed(u) && WellFormed(s) && WellFormed(t);
    MeetsUnfold(u);
    MeetsUnfold(t);
    assert v.left == Nil && u.right == Nil && t.right == Nil;
    assert forall i: nat, j: nat :: !Meets(Nil, i, j);
    MeetsAll(t);
  }

  /** What a compiled pattern keeps of the map of n groups: nothing if no group is absorbed;
      else every group absorbed goes to the one that absorbs it, and the others to
      themselves. */
  ghost predicate MapTells(table: seq<nat>, n: nat, t: Tree) {
    if exists j: nat :: Absorbed(t, j) then
      && |table| == n
      && (forall i: nat, j: nat :: Absorbs(t, i, j) ==> j < n && table[j] == i)
      && (forall j: nat :: j < n && !Absorbed(t, j) ==> table[j] == j)
    else table == []
  }

  ghost predicate Identity(table: seq<nat>) {
    forall j: nat :: j < |table| ==> table[j] == j
  }

  lemma {:induction false} MeetsBelow(t: Tree, n: nat, i: nat, j: nat)
    requires SubexpsBelow(t, n) && Meets(t, i, j)
    ensures i < n && j < n
    decreases t
  {
    if Straddles(t) {
      assert SubexpsBelow(t.left, n);
      if Meets(t.left.left, i, j) { MeetsBelow(t.left.left, n, i, j); }
      if Meets(t.right, i, j) { MeetsBelow(t.right, n, i, j); }
    } else {
      if Meets(t.left, i, j) { MeetsBelow(t.left, n, i, j); }
      if Meets(t.right, i, j) { MeetsBelow(t.right, n, i, j); }
    }
  }

  ghost predicate SubexpsBelow(t: Tree, n: nat) {
    t.Bin? ==>
      && (t.token.Subexp? ==> t.token.idx < n)
      && SubexpsBelow(t.left, n) && SubexpsBelow(t.right, n)
  }

  /** The identity, walked and then dropped if it still is one. */
  lemma MapLeft(table: seq<nat>, n: nat, t: Tree)
    requires PairsAgree(t) && SubexpsBelow(t, n) && GroupsApart(t)
    requires |table| == n && Identity(table)
    ensures var m := MapAfter(table, t); MapTells(if Identity(m) then [] else m, n, t)
  {
    forall i: nat, j: nat | Meets(t, i, j) ensures i < n && j < n && i != j {
      MeetsBelow(t, n, i, j);
    }
    MapMeaning(table, t);
    var m := MapAfter(table, t);
    hide Meets, Absorbs, MapAfter;
    if j: nat :| Absorbed(t, j) {
      var i: nat :| Absorbs(t, i, j);
      assert Meets(t, i, j) && m[j] == i && !Identity(m);
      forall i: nat, j: nat | Absorbs(t, i, j) ensures j < n && m[j] == i {
        assert Meets(t, i, j);
      }
      forall j: nat | j < n && !Absorbed(t, j) ensures m[j] == j {
        forall i: nat ensures !Meets(t, i, j) { assert !Absorbs(t, i, j); }
      }
    } else {
      forall j: nat | j < n ensures m[j] == j {
        assert !Absorbed(t, j);
        forall i: nat ensures !Meets(t, i, j) { assert !Absorbs(t, i, j); }
      }
    }
  }

  /** The same for a whole tree, whose root is no group. */
  lemma RootGroups(t: Tree, used: set<nat>, table: seq<nat>, n: nat)
    requires WellFormedRoot(t) && SubexpsBelow(t, n) && |table| == n && Identity(table)
    ensures forall j: nat :: j in UsedAfter(used, t) <==> j in used && !(j < BITSET_WORD_BITS && Absorbed(t, j))
    ensures var m := MapAfter(table, t); GroupsApart(t) ==> MapTells(if Identity(m) then [] else m, n, t)
  {
    MeetsAll(t);
    forall j: nat ensures j in UsedAfter(used, t) <==> j in used && !(j < BITSET_WORD_BITS && Absorbed(t, j)) {
      UsedMeaning(used, t, j);
    }
    if GroupsApart(t) { MapLeft(table, n, t); }
  }

  // ------------------------------------------------------------------
  // Brackets

  predicate IsMark(tok: Token) {
    tok.OpOpenSubexp? || tok.OpCloseSubexp?
  }

  /** The brackets among some tokens, in their order. */
  function MarksIn(nodes: seq<Token>): seq<Token> {
    if nodes == [] then []
    else MarksIn(nodes[..|nodes| - 1]) + if IsMark(nodes[|nodes| - 1]) then [nodes[|nodes| - 1]] else []
  }

  lemma {:induction false} MarksAppend(a: seq<Token>, b: seq<Token>)
    ensures MarksIn(a + b) == MarksIn(a) + MarksIn(b)
    decreases |b|
  {
    if b == [] {
      assert a + b == a;
    } else {
      assert (a + b)[..|a + b| - 1] == a + b[..|b| - 1];
      MarksAppend(a, b[..|b| - 1]);
    }
  }

  /** The brackets of a tree from left to right; `noSub` and `used` tell which groups with
      something in them are dropped. */
  ghost function Marks(noSub: bool, used: set<nat>, t: Tree): seq<Token> {
    if t.Nil? then []
    else if t.token.Subexp? then
      var i, body := t.token.idx, Marks(noSub, used, t.left);
      if noSub && t.left.Bin? && !(i < BITSET_WORD_BITS && i in used) then body
      else [OpOpenSubexp(i)] + body + [OpCloseSubexp(i)]
    else if IsMark(t.token) then [t.token]
    else Marks(noSub, used, t.left) + Marks(noSub, used, t.right)
  }

  /** The brackets that are left of a pattern, told from the tree the parser built: a group
      right below one that stays (`inner`) is absorbed, and without registers a group goes
      too if it has something in it and no back-reference names it. */
  ghost function BracketsLeft(noSub: bool, used: set<nat>, t: Tree, inner: bool): seq<Token> {
    if t.Nil? then []
    else if t.token.Subexp? then
      if inner then BracketsLeft(noSub, used, t.left, false)
      else
        var i, body := t.token.idx, BracketsLeft(noSub, used, t.left, true);
        var empty := t.left.Nil? || (t.left.token.Subexp? && t.left.left.Nil?);
        if noSub && !empty && !(i < BITSET_WORD_BITS && i in used) then body
        else [OpOpenSubexp(i)] + body + [OpCloseSubexp(i)]
    else if IsMark(t.token) then [t.token]
    else BracketsLeft(noSub, used, t.left, false) + BracketsLeft(noSub, used, t.right, false)
  }

  lemma {:induction false} OptimizedMarks(noSub: bool, used: set<nat>, t: Tree)
    requires WellFormed(t)
    ensures Marks(noSub, used, Optimized(t)) == BracketsLeft(noSub, used, t, false)
    decreases t
  {
    if t.Nil? {
    } else {
      var u := Spliced(OptimizeSubexps, t);
      OptimizedMeaning(t);
      OperandsWellFormed(t);
      if Straddles(t) {
        SubexpOperands(t.left);
        OptimizedMarks(noSub, used, t.left.left);
        OptimizedMeaning(t.left.left);
        assert u.left == t.left.left;
      } else {
        OptimizedMarks(noSub, used, t.left);
        OptimizedMarks(noSub, used, t.right);
        OptimizedMeaning(t.left);
      }
    }
  }

  /** Lowering leaves exactly those brackets. */
  lemma {:induction false} LoweredMarks(noSub: bool, used: set<nat>, t: Tree, n: nat, m: nat)
    requires WellFormed(t)
    ensures var c := LowerChild(noSub, used, Lower(noSub, used, t, n).0, m).0;
            Marks(false, {}, c) == Marks(noSub, used, t)
    decreases t
  {
    if t.Nil? {
    } else {
      var (l1, n1) := Lower(noSub, used, t.left, n);
      var (r1, n2) := Lower(noSub, used, t.right, n1);
      var (l2, n3) := LowerChild(noSub, used, l1, n2);
      var (r2, n4) := LowerChild(noSub, used, r1, n3);
      OperandsWellFormed(t);
      LoweredMarks(noSub, used, t.left, n, n2);
      LoweredMarks(noSub, used, t.right, n1, n3);
      LowerMeaning(noSub, used, t, n);
      LowerMeaning(noSub, used, t.left, n);
      LowerChildMeaning(noSub, used, l1, n2);
      LowerRootMarks(noSub, used, Bin(t.id, t.token, l2, r2), m);
    }
  }

  /** Replacing a group by its brackets, or by what they enclose. */
  lemma LowerRootMarks(noSub: bool, used: set<nat>, t: Tree, m: nat)
    requires t.Bin?
    ensures var c := LowerChild(noSub, used, t, m).0;
            Marks(false, {}, c) ==
              if t.token.Subexp? then
                var i, body := t.token.idx, Marks(false, {}, t.left);
                if noSub && t.left.Bin? && !(i < BITSET_WORD_BITS && i in used) then body
                else [OpOpenSubexp(i)] + body + [OpCloseSubexp(i)]
              else if IsMark(t.token) then [t.token]
              else Marks(false, {}, t.left) + Marks(false, {}, t.right)
  {
    if t.token.Subexp? {
      var op, cls := Bin(m, OpOpenSubexp(t.token.idx), Nil, Nil), Bin(m + 1, OpCloseSubexp(t.token.idx), Nil, Nil);
      assert Marks(false, {}, op) == [op.token] && Marks(false, {}, cls) == [cls.token];
      assert Marks(false, {}, Bin(m + 2, Concat, t.left, cls)) == Marks(false, {}, t.left) + [cls.token];
    }
  }

  /** A tree laid out in the automaton has its brackets there, in its order. */
  lemma {:induction false} LaidMarks(nodes: seq<Token>, t: Tree, b: nat)
    requires TokensSet(nodes, t, b) && b + Count(t) <= |nodes| && NoSubexp(t)
    requires MarksAreLeaves(t)
    ensures MarksIn(nodes[b..b + Count(t)]) == Marks(false, {}, t)
    decreases t
  {
    hide TokensSet, MarksIn, Own;
    if t.Nil? {
      assert nodes[b..b + Count(t)] == [];
      NoMarks();
    } else {
      var rb := b + Count(t.left);
      var e := rb + Count(t.right);
      TokensParts(nodes, t, b);
      Extent(t, b);
      LaidMarks(nodes, t.left, b);
      LaidMarks(nodes, t.right, rb);
      MarksApart(nodes, b, rb, e);
      if !t.token.Concat? {
        MarksNext(nodes, b, e);
      }
      MarksOperands(t);
    }
  }

  lemma NoMarks()
    ensures MarksIn([]) == []
  {
  }

  lemma MarksApart(nodes: seq<Token>, b: nat, m: nat, e: nat)
    requires b <= m <= e <= |nodes|
    ensures MarksIn(nodes[b..e]) == MarksIn(nodes[b..m]) + MarksIn(nodes[m..e])
  {
    assert nodes[b..e] == nodes[b..m] + nodes[m..e];
    MarksAppend(nodes[b..m], nodes[m..e]);
  }

  lemma MarksNext(nodes: seq<Token>, b: nat, e: nat)
    requires b <= e < |nodes|
    ensures MarksIn(nodes[b..e + 1]) == MarksIn(nodes[b..e]) + if IsMark(nodes[e]) then [nodes[e]] else []
  {
    assert nodes[b..e + 1][..e - b] == nodes[b..e];
  }

  lemma MarksOperands(t: Tree)
    requires t.Bin? && !t.token.Subexp? && MarksAreLeaves(t)
    ensures Marks(false, {}, t) ==
            Marks(false, {}, t.left) + Marks(false, {}, t.right) + if IsMark(t.token) then [t.token] else []
  {
  }

  ghost predicate MarksAreLeaves(t: Tree) {
    t.Bin? ==>
      && MarksAreLeaves(t.left) && MarksAreLeaves(t.right)
      && (IsMark(t.token) ==> t.left.Nil? && t.right.Nil?)
  }

  lemma {:induction false} WellFormedMarks(t: Tree)
    requires WellFormed(t)
    ensures MarksAreLeaves(t)
  {
    if t.Nil? {
    } else {
      WellFormedMarks(t.left);
      WellFormedMarks(t.right);
    }
  }

  /** The whole automaton has the brackets that are left of the pattern. */
  lemma RootMarks(noSub: bool, used: set<nat>, t: Tree, n: nat, nodes: seq<Token>)
    requires WellFormedRoot(t)
    requires var t2 := Lower(noSub, used, Optimized(t), n).0;
             NoSubexp(t2) && TokensSet(nodes, t2, 0) && |nodes| == Count(t2)
    ensures MarksIn(nodes) == BracketsLeft(noSub, used, t, false)
  {
    hide TokensSet, MarksIn, NoSubexp, Count, MarksAreLeaves;
    var t2 := Lower(noSub, used, Optimized(t), n).0;
    LoweredRootMarks(noSub, used, t, n);
    LaidMarks(nodes, t2, 0);
    assert nodes[0..Count(t2)] == nodes;
  }

  lemma LoweredRootMarks(noSub: bool, used: set<nat>, t: Tree, n: nat)
    requires WellFormedRoot(t)
    ensures var t2 := Lower(noSub, used, Optimized(t), n).0;
            MarksAreLeaves(t2) && Marks(false, {}, t2) == BracketsLeft(noSub, used, t, false)
  {
    if t.token.EndOfRe? {
      LeafKept(noSub, used, t, n);
    } else {
      RootParts(noSub, used, t, n);
      OptimizedMeaning(t.left);
      OptimizedMarks(noSub, used, t.left);
      var (l1, n1) := Lower(noSub, used, Optimized(t.left), n);
      LoweredMarks(noSub, used, Optimized(t.left), n, n1);
      LowerMeaning(noSub, used, Optimized(t.left), n);
      LowerChildMeaning(noSub, used, l1, n1);
      WellFormedMarks(LowerChild(noSub, used, l1, n1).0);
      hide Lower, LowerChild, Optimized, WellFormed;
      RootMark(t, LowerChild(noSub, used, l1, n1).0, noSub, used);
    }
  }

  lemma RootMark(t: Tree, l: Tree, noSub: bool, used: set<nat>)
    requires WellFormedRoot(t) && t.token.Concat? && MarksAreLeaves(l)
    requires Marks(false, {}, l) == BracketsLeft(noSub, used, t.left, false)
    ensures var t2 := Bin(t.id, Concat, l, t.right);
            MarksAreLeaves(t2) && Marks(false, {}, t2) == BracketsLeft(noSub, used, t, false)
  {
    assert Marks(false, {}, Nil) == [] && BracketsLeft(noSub, used, Nil, false) == [];
    assert Marks(false, {}, t.right) == [] && BracketsLeft(noSub, used, t.right, false) == [];
  }

  lemma RootParts(noSub: bool, used: set<nat>, t: Tree, n: nat)
    requires WellFormedRoot(t) && t.token.Concat?
    ensures var (l1, n1) := Lower(noSub, used, Optimized(t.left), n);
            Lower(noSub, used, Optimized(t), n).0 == Bin(t.id, Concat, LowerChild(noSub, used, l1, n1).0, t.right)
  {
    var (l1, n1) := Lower(noSub, used, Optimized(t.left), n);
    LeafKept(noSub, used, t.right, n);
    LeafKept(noSub, used, t.right, n1);
  }

  // ------------------------------------------------------------------
  // Choices

  /** There is a '|' or a '*' in the tree. */
  ghost predicate Branching(t: Tree) {
    t.Bin? && (t.token.OpAlt? || t.token.OpDupAsterisk? || Branching(t.left) || Branching(t.right))
  }

  lemma {:induction false} OptimizedBranching(t: Tree)
    requires WellFormed(t)
    ensures Branching(Optimized(t)) <==> Branching(t)
    decreases t
  {
    if t.Nil? {
    } else {
      OperandsWellFormed(t);
      if Straddles(t) {
        SubexpOperands(t.left);
        OptimizedBranching(t.left.left);
        OptimizedBranching(t.right);
      } else {
        OptimizedBranching(t.left);
        OptimizedBranching(t.right);
      }
    }
  }

  lemma {:induction false} LoweredBranching(noSub: bool, used: set<nat>, t: Tree, n: nat, m: nat)
    requires WellFormed(t)
    ensures Branching(LowerChild(noSub, used, Lower(noSub, used, t, n).0, m).0) <==> Branching(t)
    decreases t
  {
    if t.Nil? {
    } else {
      var (l1, n1) := Lower(noSub, used, t.left, n);
      var (r1, n2) := Lower(noSub, used, t.right, n1);
      var (l2, n3) := LowerChild(noSub, used, l1, n2);
      var (r2, n4) := LowerChild(noSub, used, r1, n3);
      OperandsWellFormed(t);
      LoweredBranching(noSub, used, t.left, n, n2);
      LoweredBranching(noSub, used, t.right, n1, n3);
      LowerRootBranching(noSub, used, Bin(t.id, t.token, l2, r2), m);
      if t.token.Subexp? { SubexpOperands(t); }
    }
  }

  lemma LowerRootBranching(noSub: bool, used: set<nat>, t: Tree, m: nat)
    requires t.Bin? && (t.token.Subexp? ==> t.right.Nil?)
    ensures Branching(LowerChild(noSub, used, t, m).0) <==> Branching(t)
  {
    if t.token.Subexp? {
      var op, cls := Bin(m, OpOpenSubexp(t.token.idx), Nil, Nil), Bin(m + 1, OpCloseSubexp(t.token.idx), Nil, Nil);
      assert !Branching(op) && !Branching(cls);
      assert Branching(Bin(m + 2, Concat, t.left, cls)) <==> Branching(t.left);
    }
  }

  lemma RootBranching(noSub: bool, used: set<nat>, t: Tree, n: nat)
    requires WellFormedRoot(t)
    ensures Branching(Lower(noSub, used, Optimized(t), n).0) <==> Branching(t)
  {
    if t.token.EndOfRe? {
      LeafKept(noSub, used, t, n);
    } else {
      RootParts(noSub, used, t, n);
      OptimizedMeaning(t.left);
      OptimizedBranching(t.left);
      var (l1, n1) := Lower(noSub, used, Optimized(t.left), n);
      LoweredBranching(noSub, used, Optimized(t.left), n, n1);
    }
  }
}
