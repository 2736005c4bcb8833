/** re_node_set: sorted arrays of node indices, merged in place from the top down. */
module NodeSet {

  // ------------------------------------------------------------------
  // Sorted sequences

  ghost predicate Sorted(s: seq<int>) {
    forall i, j :: 0 <= i < j < |s| ==> s[i] <= s[j]
  }

  ghost predicate Strict(s: seq<int>) {
    forall i, j :: 0 <= i < j < |s| ==> s[i] < s[j]
  }

  function Last(s: seq<int>): int
    requires s != []
  {
    s[|s| - 1]
  }

  function Front(s: seq<int>): seq<int>
    requires s != []
  {
    s[..|s| - 1]
  }

  /** The elements of s that find no partner in d, pairing from the top. */
  function Extra(d: seq<int>, s: seq<int>): (r: seq<int>)
    ensures |r| <= |s|
    decreases |d| + |s|
  {
    if s == [] then []
    else if d == [] then s
    else if Last(d) == Last(s) then Extra(Front(d), Front(s))
    else if Last(d) < Last(s) then Extra(d, Front(s)) + [Last(s)]
    else Extra(Front(d), s)
  }

  /** Two sorted sequences in one, filled from the top. */
  function Weave(d: seq<int>, t: seq<int>): (r: seq<int>)
    ensures |r| == |d| + |t|
    decreases |d| + |t|
  {
    if t == [] then d
    else if d == [] then t
    else if Last(t) > Last(d) then Weave(d, Front(t)) + [Last(t)]
    else Weave(Front(d), t) + [Last(d)]
  }

  /** What re_node_set_merge leaves in its destination. */
  function Merged(d: seq<int>, s: seq<int>): seq<int> {
    Weave(d, Extra(d, s))
  }

  function DropAbove(d: seq<int>, x: int): (r: seq<int>)
    ensures r <= d && (r != [] ==> Last(r) <= x)
    decreases |d|
  {
    if d == [] || Last(d) <= x then d else DropAbove(Front(d), x)
  }

  /** The common elements of s and u that are not in d, scanning all three from the top. */
  function Common(d: seq<int>, s: seq<int>, u: seq<int>): (r: seq<int>)
    ensures |r| <= |s| && |r| <= |u|
    decreases |s| + |u|
  {
    if s == [] || u == [] then []
    else if Last(s) == Last(u) then
      var d' := DropAbove(d, Last(s));
      Common(d', Front(s), Front(u)) + if d' == [] || Last(d') != Last(s) then [Last(s)] else []
    else if Last(s) < Last(u) then Common(d, s, Front(u))
    else Common(d, Front(s), u)
  }

  // ------------------------------------------------------------------
  // What those sequences are

  lemma FrontLast(s: seq<int>)
    requires s != []
    ensures s == Front(s) + [Last(s)]
    ensures multiset(s) == multiset(Front(s)) + multiset{Last(s)}
    ensures Sorted(s) ==> Sorted(Front(s)) && forall x <- multiset(s) :: x <= Last(s)
  {
    assert s == Front(s) + [Last(s)];
    forall x <- multiset(s) ensures Sorted(s) ==> x <= Last(s) {
      assert x in s;
    }
  }

  lemma SortedSnoc(s: seq<int>, x: int)
    requires Sorted(s) && forall y <- multiset(s) :: y <= x
    ensures Sorted(s + [x])
  {
    forall i | 0 <= i < |s| ensures s[i] <= x {
      assert s[i] in multiset(s);
    }
  }

  lemma BagDifference(a: multiset<int>, b: multiset<int>, x: int)
    ensures (a + multiset{x}) - (b + multiset{x}) == a - b
    ensures x !in b ==> (a + multiset{x}) - b == (a - b) + multiset{x}
    ensures x !in a ==> a - (b + multiset{x}) == a - b
  {
  }

  /** Pairing from the top leaves exactly the multiset difference, sorted. */
  lemma {:induction false} ExtraMeaning(d: seq<int>, s: seq<int>)
    requires Sorted(d) && Sorted(s)
    ensures Sorted(Extra(d, s))
    ensures multiset(Extra(d, s)) == multiset(s) - multiset(d)
    decreases |d| + |s|
  {
    if s == [] || d == [] {
    } else {
      FrontLast(d);
      FrontLast(s);
      var x := Last(s);
      if Last(d) == x {
        ExtraMeaning(Front(d), Front(s));
        BagDifference(multiset(Front(s)), multiset(Front(d)), x);
      } else if Last(d) < x {
        ExtraMeaning(d, Front(s));
        BagDifference(multiset(Front(s)), multiset(d), x);
        SortedSnoc(Extra(d, Front(s)), x);
      } else {
        ExtraMeaning(Front(d), s);
        BagDifference(multiset(s), multiset(Front(d)), Last(d));
      }
    }
  }

  lemma {:induction false} WeaveMeaning(d: seq<int>, t: seq<int>)
    requires Sorted(d) && Sorted(t)
    ensures Sorted(Weave(d, t))
    ensures multiset(Weave(d, t)) == multiset(d) + multiset(t)
    decreases |d| + |t|
  {
    hide Sorted, Weave, Front, Last;
    if d == [] || t == [] {
      WeaveBase(d, t);
    } else {
      WeaveStep(d, t);
      FrontLast(d);
      FrontLast(t);
      FrontBelow(d);
      FrontBelow(t);
      if Last(t) > Last(d) {
        WeaveMeaning(d, Front(t));
        WeaveSnoc(d, Front(t), Weave(d, Front(t)), Last(t));
      } else {
        WeaveMeaning(Front(d), t);
        WeaveSnoc(Front(d), t, Weave(Front(d), t), Last(d));
      }
    }
  }

  lemma WeaveBase(d: seq<int>, t: seq<int>)
    requires d == [] || t == []
    ensures Weave(d, t) == if t == [] then d else t
    ensures multiset(Weave(d, t)) == multiset(d) + multiset(t)
  {
  }

  lemma WeaveStep(d: seq<int>, t: seq<int>)
    requires d != [] && t != []
    ensures Weave(d, t) == if Last(t) > Last(d) then Weave(d, Front(t)) + [Last(t)] else Weave(Front(d), t) + [Last(d)]
    ensures |Front(d)| < |d| && |Front(t)| < |t|
  {
  }

  lemma FrontBelow(s: seq<int>)
    requires Sorted(s) && s != []
    ensures Sorted(Front(s)) && forall x <- multiset(Front(s)) :: x <= Last(s)
    ensures forall x <- multiset(s) :: x <= Last(s)
  {
    FrontLast(s);
  }

  lemma WeaveSnoc(d: seq<int>, t: seq<int>, w: seq<int>, x: int)
    requires Sorted(w) && multiset(w) == multiset(d) + multiset(t)
    requires (forall y <- multiset(d) :: y <= x) && (forall y <- multiset(t) :: y <= x)
    ensures Sorted(w + [x]) && multiset(w + [x]) == multiset(d) + multiset(t) + multiset{x}
  {
    SortedSnoc(w, x);
  }

  /** Merging sorted sequences: sorted, and each element as often as in the operand
      that has it more often. */
  lemma MergedMeaning(d: seq<int>, s: seq<int>)
    requires Sorted(d) && Sorted(s)
    ensures Sorted(Merged(d, s))
    ensures multiset(Merged(d, s)) == multiset(d) + (multiset(s) - multiset(d))
    ensures forall x :: x in Merged(d, s) <==> x in d || x in s
  {
    ExtraMeaning(d, s);
    WeaveMeaning(d, Extra(d, s));
    forall x ensures x in Merged(d, s) <==> x in d || x in s {
      assert x in Merged(d, s) <==> x in multiset(Merged(d, s));
      assert (x in d <==> x in multiset(d)) && (x in s <==> x in multiset(s));
    }
  }

  lemma {:induction false} StrictOnce(s: seq<int>)
    requires Strict(s)
    ensures forall x :: multiset(s)[x] <= 1
  {
    if s == [] {
    } else {
      FrontLast(s);
      StrictOnce(Front(s));
      assert Last(s) !in Front(s);
      assert Last(s) !in multiset(Front(s));
    }
  }

  lemma OnceStrict(s: seq<int>)
    requires Sorted(s) && forall x :: multiset(s)[x] <= 1
    ensures Strict(s)
  {
    forall i, j | 0 <= i < j < |s| ensures s[i] < s[j] {
      assert s == s[..j] + s[j..];
      assert s[i] in s[..j] && s[j] in s[j..];
      assert multiset(s) == multiset(s[..j]) + multiset(s[j..]);
      assert s[i] in multiset(s[..j]) && s[j] in multiset(s[j..]);
      assert multiset(s)[s[i]] <= 1;
    }
  }

  /** Merging two strict sets gives a strict set: their union. */
  lemma MergedStrict(d: seq<int>, s: seq<int>)
    requires Strict(d) && Strict(s)
    ensures Strict(Merged(d, s))
  {
    MergedMeaning(d, s);
    StrictOnce(d);
    StrictOnce(s);
    forall x ensures multiset(Merged(d, s))[x] <= 1 {
      assert multiset(d)[x] <= 1 && multiset(s)[x] <= 1;
    }
    OnceStrict(Merged(d, s));
  }

  lemma {:induction false} DropAboveKeeps(d: seq<int>, x: int)
    requires Sorted(d)
    ensures Sorted(DropAbove(d, x))
    ensures forall y :: y <= x ==> (y in DropAbove(d, x) <==> y in d)
    decreases |d|
  {
    if d == [] || Last(d) <= x {
    } else {
      FrontLast(d);
      DropAboveKeeps(Front(d), x);
      forall y | y <= x ensures y in Front(d) <==> y in d {
        assert d == Front(d) + [Last(d)];
      }
    }
  }

  function MinNat(a: nat, b: nat): nat {
    if a < b then a else b
  }

  /** Scanning from the top collects exactly the common elements that are not in d. */
  lemma {:induction false} CommonMeaning(d: seq<int>, s: seq<int>, u: seq<int>)
    requires Sorted(d) && Sorted(s) && Sorted(u)
    ensures Sorted(Common(d, s, u))
    ensures forall x :: multiset(Common(d, s, u))[x] ==
                        if x in d then 0 else MinNat(multiset(s)[x], multiset(u)[x])
    decreases |s| + |u|
  {
    if s == [] || u == [] {
    } else {
      FrontLast(s);
      FrontLast(u);
      var x := Last(s);
      if x == Last(u) {
        CommonMeaningEqual(d, s, u);
      } else if x < Last(u) {
        CommonMeaning(d, s, Front(u));
      } else {
        CommonMeaning(d, Front(s), u);
      }
    }
  }

  lemma {:induction false} CommonMeaningEqual(d: seq<int>, s: seq<int>, u: seq<int>)
    requires Sorted(d) && Sorted(s) && Sorted(u) && s != [] && u != [] && Last(s) == Last(u)
    ensures Sorted(Common(d, s, u))
    ensures forall x :: multiset(Common(d, s, u))[x] ==
                        if x in d then 0 else MinNat(multiset(s)[x], multiset(u)[x])
    decreases |s| + |u|, 0
  {
    var x := Last(s);
    var d' := DropAbove(d, x);
    var r := Common(d', Front(s), Front(u));
    FrontLast(s);
    FrontLast(u);
    DropAboveKeeps(d, x);
    CommonMeaning(d', Front(s), Front(u));
    CommonTake(d, d', x, multiset(Front(s)), multiset(Front(u)), r);
  }

  lemma CommonTake(d: seq<int>, d': seq<int>, x: int, s: multiset<int>, u: multiset<int>, r: seq<int>)
    requires Sorted(d') && (d' != [] ==> Last(d') <= x)
    requires forall y :: y <= x ==> (y in d' <==> y in d)
    requires forall y <- s :: y <= x
    requires Sorted(r)
    requires forall y :: multiset(r)[y] == if y in d' then 0 else MinNat(s[y], u[y])
    ensures var r' := r + if d' == [] || Last(d') != x then [x] else [];
            && Sorted(r')
            && forall y :: multiset(r')[y] == if y in d then 0 else MinNat((s + multiset{x})[y], (u + multiset{x})[y])
  {
    assert x in d' <==> d' != [] && Last(d') == x by {
      if x in d' { FrontLast(d'); assert x in multiset(d'); }
    }
    forall y <- multiset(r) ensures y <= x {
      assert multiset(r)[y] > 0;
    }
    SortedSnoc(r, x);
    var r' := r + if d' == [] || Last(d') != x then [x] else [];
    forall y ensures multiset(r')[y] == if y in d then 0 else MinNat((s + multiset{x})[y], (u + multiset{x})[y]) {
      if y > x {
        assert y !in s && y !in multiset(r);
      }
    }
  }

  /** re_node_set_add_intersect: dest with the intersection added. */
  lemma AddedMeaning(d: seq<int>, s: seq<int>, u: seq<int>)
    requires Sorted(d) && Sorted(s) && Sorted(u)
    ensures Sorted(Weave(d, Common(d, s, u)))
    ensures forall x :: x in Weave(d, Common(d, s, u)) <==> x in d || (x in s && x in u)
    ensures Strict(d) && Strict(s) && Strict(u) ==> Strict(Weave(d, Common(d, s, u)))
  {
    var c := Common(d, s, u);
    var w := Weave(d, c);
    CommonMeaning(d, s, u);
    WeaveMeaning(d, c);
    forall x ensures x in w <==> x in d || (x in s && x in u) {
      assert (x in w <==> x in multiset(w)) && (x in d <==> x in multiset(d));
      assert (x in s <==> x in multiset(s)) && (x in u <==> x in multiset(u));
    }
    if Strict(d) && Strict(s) && Strict(u) {
      StrictOnce(d);
      StrictOnce(s);
      forall x ensures multiset(w)[x] <= 1 {
        assert multiset(d)[x] <= 1 && multiset(s)[x] <= 1;
        assert x in d <==> x in multiset(d);
      }
      OnceStrict(w);
    }
  }

  // ------------------------------------------------------------------
  // Union from the bottom up

  /** What re_node_set_init_union builds. */
  function Union(s: seq<int>, u: seq<int>): (r: seq<int>)
    ensures |r| <= |s| + |u|
    decreases |s| + |u|
  {
    if s == [] then u
    else if u == [] then s
    else if s[0] > u[0] then [u[0]] + Union(s, u[1..])
    else [s[0]] + Union(s[1..], if s[0] == u[0] then u[1..] else u)
  }

  lemma HeadTail(s: seq<int>)
    requires s != []
    ensures s == [s[0]] + s[1..]
    ensures multiset(s) == multiset{s[0]} + multiset(s[1..])
    ensures Sorted(s) ==> Sorted(s[1..]) && forall x <- multiset(s) :: s[0] <= x
  {
    assert s == [s[0]] + s[1..];
    forall x <- multiset(s) ensures Sorted(s) ==> s[0] <= x {
      assert x in s;
    }
  }

  lemma SortedCons(x: int, s: seq<int>)
    requires Sorted(s) && forall y <- multiset(s) :: x <= y
    ensures Sorted([x] + s)
  {
    forall i | 0 <= i < |s| ensures x <= s[i] {
      assert s[i] in multiset(s);
    }
  }

  lemma {:induction false} UnionMeaning(s: seq<int>, u: seq<int>)
    requires Sorted(s) && Sorted(u)
    ensures Sorted(Union(s, u))
    ensures multiset(Union(s, u)) == multiset(s) + (multiset(u) - multiset(s))
    decreases |s| + |u|
  {
    if s == [] || u == [] {
    } else {
      var x := if s[0] > u[0] then u[0] else s[0];
      var s', u' := if s[0] > u[0] then s else s[1..], if s[0] >= u[0] then u[1..] else u;
      UnionHeads(s, u);
      UnionMeaning(s', u');
      BagUnion(multiset(s), multiset(u), multiset(s'), multiset(u'), x);
      SortedCons(x, Union(s', u'));
      assert Union(s, u) == [x] + Union(s', u');
    }
  }

  lemma UnionHeads(s: seq<int>, u: seq<int>)
    requires Sorted(s) && Sorted(u) && s != [] && u != []
    ensures var x := if s[0] > u[0] then u[0] else s[0];
            var s', u' := if s[0] > u[0] then s else s[1..], if s[0] >= u[0] then u[1..] else u;
            var a, b, a', b' := multiset(s), multiset(u), multiset(s'), multiset(u');
            && Sorted(s') && Sorted(u')
            && (forall y <- a' :: x <= y) && (forall y <- b' :: x <= y)
            && ((a == a' && b == multiset{x} + b' && x !in a) || (a == multiset{x} + a' && b == multiset{x} + b')
                || (a == multiset{x} + a' && b == b' && x !in b))
  {
    HeadTail(s);
    HeadTail(u);
  }

  lemma BagUnion(s: multiset<int>, u: multiset<int>, s': multiset<int>, u': multiset<int>, x: int)
    requires (s == s' && u == multiset{x} + u' && x !in s) || (s == multiset{x} + s' && u == multiset{x} + u')
          || (s == multiset{x} + s' && u == u' && x !in u)
    ensures s + (u - s) == multiset{x} + (s' + (u' - s'))
  {
  }

  /** A sorted sequence is determined by its elements. */
  lemma {:induction false} SortedUnique(a: seq<int>, b: seq<int>)
    requires Sorted(a) && Sorted(b) && multiset(a) == multiset(b)
    ensures a == b
    decreases |a|
  {
    assert |a| == |multiset(a)| && |b| == |multiset(b)|;
    if a == [] {
    } else {
      hide Sorted;
      FrontLast(a);
      FrontLast(b);
      SameLast(a, b);
      BagMinus(multiset(Front(a)), multiset(Front(b)), Last(a));
      SortedUnique(Front(a), Front(b));
    }
  }

  lemma SameLast(a: seq<int>, b: seq<int>)
    requires Sorted(a) && Sorted(b) && multiset(a) == multiset(b) && a != [] && b != []
    ensures Last(a) == Last(b)
  {
    assert Last(a) in multiset(a) && Last(b) in multiset(b);
    assert Last(a) in b && Last(b) in a;
  }

  lemma BagMinus(a: multiset<int>, b: multiset<int>, x: int)
    requires a + multiset{x} == b + multiset{x}
    ensures a == b
  {
    assert a == (a + multiset{x}) - multiset{x};
    assert b == (b + multiset{x}) - multiset{x};
  }

  /** The fresh union and the in-place merge agree. */
  lemma UnionIsMerge(s: seq<int>, u: seq<int>)
    requires Sorted(s) && Sorted(u)
    ensures Union(s, u) == Merged(s, u)
  {
    UnionMeaning(s, u);
    MergedMeaning(s, u);
    SortedUnique(Union(s, u), Merged(s, u));
  }

  // ------------------------------------------------------------------
  // Insertion

  /** How many elements of s come before a new element e. */
  function Place(s: seq<int>, e: int): (k: nat)
    ensures k <= |s|
    decreases |s|
  {
    if s == [] || Last(s) <= e then |s| else Place(Front(s), e)
  }

  /** What re_node_set_insert leaves: e after its equals. */
  function Inserted(s: seq<int>, e: int): seq<int> {
    s[..Place(s, e)] + [e] + s[Place(s, e)..]
  }

  lemma {:induction false} PlaceMeaning(s: seq<int>, e: int)
    requires Sorted(s)
    ensures forall i :: 0 <= i < |s| ==> (s[i] <= e <==> i < Place(s, e))
    decreases |s|
  {
    if s == [] || Last(s) <= e {
    } else {
      FrontLast(s);
      PlaceMeaning(Front(s), e);
      forall i | 0 <= i < |s| ensures s[i] <= e <==> i < Place(s, e) {
        if i < |s| - 1 { assert s[i] == Front(s)[i]; }
      }
    }
  }

  lemma InsertedAt(s: seq<int>, k: nat, e: int)
    requires k <= |s|
    ensures var r := s[..k] + [e] + s[k..];
            && |r| == |s| + 1
            && forall i :: 0 <= i < |r| ==> r[i] == if i < k then s[i] else if i == k then e else s[i - 1]
  {
  }

  lemma InsertedBag(s: seq<int>, k: nat, e: int)
    requires k <= |s|
    ensures multiset(s[..k] + [e] + s[k..]) == multiset(s) + multiset{e}
  {
    assert s == s[..k] + s[k..];
  }

  /** Inserting keeps the order and adds the element exactly once more. */
  lemma InsertedMeaning(s: seq<int>, e: int)
    requires Sorted(s)
    ensures Sorted(Inserted(s, e))
    ensures multiset(Inserted(s, e)) == multiset(s) + multiset{e}
    ensures forall x :: x in Inserted(s, e) <==> x == e || x in s
  {
    PlaceMeaning(s, e);
    InsertedSorted(s, Place(s, e), e);
    InsertedBag(s, Place(s, e), e);
    var r := Inserted(s, e);
    forall x ensures x in r <==> x == e || x in s {
      assert (x in r <==> x in multiset(r)) && (x in s <==> x in multiset(s));
    }
  }

  lemma InsertedSorted(s: seq<int>, k: nat, e: int)
    requires Sorted(s) && k <= |s|
    requires forall i :: 0 <= i < |s| ==> (s[i] <= e <==> i < k)
    ensures Sorted(s[..k] + [e] + s[k..])
  {
    InsertedAt(s, k, e);
  }
}
