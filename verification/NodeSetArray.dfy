/** re_node_set as it is stored: an array with room to spare, changed in place. */
module NodeSetArray {
  import opened NodeSet

  // ------------------------------------------------------------------
  // One iteration of each loop, on the sequences

  /** w is what a merge of d and t must end as, and its part above i + j is done. */
  ghost predicate WeaveLeft(d: seq<int>, t: seq<int>, i: nat, j: nat, w: seq<int>) {
    i <= |d| && j <= |t| && i + j <= |w| && Weave(d[..i], t[..j]) == w[..i + j]
  }

  lemma WeaveStart(d: seq<int>, t: seq<int>)
    ensures WeaveLeft(d, t, |d|, |t|, Weave(d, t))
  {
    var w := Weave(d, t);
    assert d[..|d|] == d && t[..|t|] == t && w[..|w|] == w;
  }

  lemma WeaveNew(d: seq<int>, t: seq<int>, i: nat, j: nat, w: seq<int>)
    requires WeaveLeft(d, t, i, j, w) && i > 0 && j > 0 && t[j - 1] > d[i - 1]
    ensures WeaveLeft(d, t, i, j - 1, w) && w[i + j - 1] == t[j - 1]
  {
    assert Front(t[..j]) == t[..j - 1];
    var f := Weave(d[..i], t[..j - 1]);
    assert f + [t[j - 1]] == w[..i + j];
    assert f == w[..i + j][..i + j - 1] == w[..i + j - 1];
    assert w[i + j - 1] == (f + [t[j - 1]])[i + j - 1];
  }

  lemma WeaveOld(d: seq<int>, t: seq<int>, i: nat, j: nat, w: seq<int>)
    requires WeaveLeft(d, t, i, j, w) && i > 0 && j > 0 && t[j - 1] <= d[i - 1]
    ensures WeaveLeft(d, t, i - 1, j, w) && w[i + j - 1] == d[i - 1]
  {
    assert Front(d[..i]) == d[..i - 1];
    var f := Weave(d[..i - 1], t[..j]);
    assert f + [d[i - 1]] == w[..i + j];
    assert f == w[..i + j][..i + j - 1] == w[..i + j - 1];
    assert w[i + j - 1] == (f + [d[i - 1]])[i + j - 1];
  }

  lemma WeaveEnd(d: seq<int>, t: seq<int>, i: nat, j: nat, w: seq<int>)
    requires WeaveLeft(d, t, i, j, w)
    ensures j == 0 ==> forall p :: 0 <= p < i ==> w[p] == d[p]
    ensures i == 0 ==> forall p :: 0 <= p < j ==> w[p] == t[p]
  {
    forall p | 0 <= p < i + j ensures (j == 0 ==> w[p] == d[p]) && (i == 0 ==> w[p] == t[p]) {
      assert w[p] == w[..i + j][p] == Weave(d[..i], t[..j])[p];
    }
  }

  /** e is what is to be collected, and its part from n on is collected; the first i
      elements of d and j of s are still to be looked at. */
  ghost predicate ExtraLeft(d: seq<int>, s: seq<int>, i: nat, j: nat, e: seq<int>, n: nat) {
    i <= |d| && j <= |s| && n <= |e| && Extra(d[..i], s[..j]) == e[..n]
  }

  lemma ExtraStart(d: seq<int>, s: seq<int>)
    ensures ExtraLeft(d, s, |d|, |s|, Extra(d, s), |Extra(d, s)|)
  {
    var e := Extra(d, s);
    assert d[..|d|] == d && s[..|s|] == s && e[..|e|] == e;
  }

  lemma ExtraDrop(d: seq<int>, s: seq<int>, i: nat, j: nat, e: seq<int>, n: nat)
    requires ExtraLeft(d, s, i, j, e, n) && i > 0 && j > 0 && d[i - 1] >= s[j - 1]
    ensures ExtraLeft(d, s, i - 1, if d[i - 1] == s[j - 1] then j - 1 else j, e, n)
  {
    assert Front(d[..i]) == d[..i - 1] && Front(s[..j]) == s[..j - 1];
  }

  lemma ExtraTake(d: seq<int>, s: seq<int>, i: nat, j: nat, e: seq<int>, n: nat)
    requires ExtraLeft(d, s, i, j, e, n) && i > 0 && j > 0 && d[i - 1] < s[j - 1]
    ensures n > 0 && ExtraLeft(d, s, i, j - 1, e, n - 1) && e[n - 1] == s[j - 1]
  {
    assert Front(s[..j]) == s[..j - 1];
    var f := Extra(d[..i], s[..j - 1]);
    assert f + [s[j - 1]] == e[..n];
    assert f == e[..n][..n - 1] == e[..n - 1];
    assert e[n - 1] == (f + [s[j - 1]])[n - 1];
  }

  lemma ExtraEnd(d: seq<int>, s: seq<int>, i: nat, j: nat, e: seq<int>, n: nat)
    requires ExtraLeft(d, s, i, j, e, n) && (i == 0 || j == 0)
    ensures n == j && forall p :: 0 <= p < n ==> e[p] == s[p]
  {
    assert e[..n] == s[..j];
    forall p | 0 <= p < n ensures e[p] == s[p] {
      assert e[..n][p] == s[..j][p];
    }
  }

  /** Where the inner loop of the intersection stops. */
  function Stop(d: seq<int>, i: nat, x: int): (r: nat)
    requires i <= |d|
    ensures r <= i && (r > 0 ==> d[r - 1] <= x)
    ensures DropAbove(d[..i], x) == d[..r]
    decreases i
  {
    assert i > 0 ==> Front(d[..i]) == d[..i - 1];
    if i == 0 || d[i - 1] <= x then i else Stop(d, i - 1, x)
  }

  ghost predicate CommonLeft(d: seq<int>, s: seq<int>, u: seq<int>, i: nat, j: nat, k: nat, e: seq<int>, n: nat) {
    i <= |d| && j <= |s| && k <= |u| && n <= |e| && Common(d[..i], s[..j], u[..k]) == e[..n]
  }

  lemma CommonStart(d: seq<int>, s: seq<int>, u: seq<int>)
    ensures CommonLeft(d, s, u, |d|, |s|, |u|, Common(d, s, u), |Common(d, s, u)|)
  {
    var e := Common(d, s, u);
    assert d[..|d|] == d && s[..|s|] == s && u[..|u|] == u && e[..|e|] == e;
  }

  lemma CommonEqual(d: seq<int>, s: seq<int>, u: seq<int>, i: nat, j: nat, k: nat, e: seq<int>, n: nat)
    requires CommonLeft(d, s, u, i, j, k, e, n) && j > 0 && k > 0 && s[j - 1] == u[k - 1]
    ensures var r := Stop(d, i, s[j - 1]);
            if r == 0 || d[r - 1] != s[j - 1]
            then n > 0 && CommonLeft(d, s, u, r, j - 1, k - 1, e, n - 1) && e[n - 1] == s[j - 1]
            else CommonLeft(d, s, u, r, j - 1, k - 1, e, n)
  {
    assert Front(s[..j]) == s[..j - 1] && Front(u[..k]) == u[..k - 1];
    var r := Stop(d, i, s[j - 1]);
    var f := Common(d[..r], s[..j - 1], u[..k - 1]);
    if r == 0 || d[r - 1] != s[j - 1] {
      assert f + [s[j - 1]] == e[..n];
      assert f == e[..n][..n - 1] == e[..n - 1];
      assert e[n - 1] == (f + [s[j - 1]])[n - 1];
    } else {
      assert f + [] == f;
    }
  }

  lemma CommonLower(d: seq<int>, s: seq<int>, u: seq<int>, i: nat, j: nat, k: nat, e: seq<int>, n: nat)
    requires CommonLeft(d, s, u, i, j, k, e, n) && j > 0 && k > 0 && s[j - 1] != u[k - 1]
    ensures if s[j - 1] < u[k - 1] then CommonLeft(d, s, u, i, j, k - 1, e, n)
            else CommonLeft(d, s, u, i, j - 1, k, e, n)
  {
    assert Front(s[..j]) == s[..j - 1] && Front(u[..k]) == u[..k - 1];
  }

  lemma CommonEnd(d: seq<int>, s: seq<int>, u: seq<int>, i: nat, j: nat, k: nat, e: seq<int>, n: nat)
    requires CommonLeft(d, s, u, i, j, k, e, n) && (j == 0 || k == 0)
    ensures n == 0
  {
  }

  lemma UnionStep(s: seq<int>, u: seq<int>, i: nat, j: nat, done: seq<int>)
    requires i < |s| && j < |u|
    ensures var now := done + Union(s[i..], u[j..]);
            if s[i] > u[j] then now == (done + [u[j]]) + Union(s[i..], u[j + 1..])
            else now == (done + [s[i]]) + Union(s[i + 1..], if s[i] == u[j] then u[j + 1..] else u[j..])
  {
    assert s[i..][1..] == s[i + 1..] && u[j..][1..] == u[j + 1..];
  }

  /** What is left of the new elements goes to the front. */
  lemma SlidDown(h: seq<int>, t: seq<int>, w: seq<int>, sbase: nat, delta: nat)
    requires delta <= |t| && |w| <= |h| && sbase + delta <= |h| && delta <= |w|
    requires forall p :: sbase <= p < sbase + delta ==> h[p] == t[p - sbase]
    requires forall p :: 0 <= p < delta ==> w[p] == t[p]
    requires forall p :: delta <= p < |w| ==> h[p] == w[p]
    ensures Overwritten(h, 0, h[sbase..sbase + delta])[..|w|] == w
  {
    var r := Overwritten(h, 0, h[sbase..sbase + delta]);
    forall p | 0 <= p < |w| ensures r[p] == w[p] {
      if p < delta { assert r[p] == h[sbase + p]; }
    }
  }

  lemma InsertedEmpty(e: int)
    ensures Inserted([], e) == [e]
  {
  }

  lemma InsertedElements(s: seq<int>, e: int, i: nat, t: seq<int>)
    requires i == Place(s, e) && i <= |s| && |t| == |s| + 1
    requires t[i] == e
    requires forall k :: 0 <= k < i ==> t[k] == s[k]
    requires forall k :: i < k < |t| ==> t[k] == s[k - 1]
    ensures t == Inserted(s, e)
  {
    assert t == s[..i] + [e] + s[i..];
  }

  /** h with t written over it from position `to` on. */
  ghost function Overwritten(h: seq<int>, to: nat, t: seq<int>): (r: seq<int>)
    requires to + |t| <= |h|
    ensures |r| == |h|
  {
    h[..to] + t + h[to + |t|..]
  }

  lemma OverwrittenBy(h: seq<int>, to: nat, t: seq<int>, r: seq<int>)
    requires to + |t| <= |h| == |r|
    requires forall p :: to <= p < to + |t| ==> r[p] == t[p - to]
    requires forall p :: 0 <= p < to || to + |t| <= p < |h| ==> r[p] == h[p]
    ensures r == Overwritten(h, to, t)
  {
  }

  lemma SameElements(s: seq<int>, t: seq<int>)
    requires |s| == |t| && forall k :: 0 <= k < |s| ==> s[k] == t[k]
    ensures s == t
  {
  }

  lemma PlaceStep(s: seq<int>, i: nat, e: int)
    requires i <= |s|
    ensures Place(s[..i], e) == if i == 0 || s[i - 1] <= e then i else Place(s[..i - 1], e)
  {
    assert i > 0 ==> Front(s[..i]) == s[..i - 1];
  }

  // ------------------------------------------------------------------
  // The loops, on the buffers

  /** The sliding loop of both merges: the live part of the buffer fills up with w from
      the top, while the new elements wait at sbase. */
  method SlideLoop(a: array<int>, n: nat, sbase: nat, delta0: nat, ghost d: seq<int>, ghost t: seq<int>,
      ghost w: seq<int>)
    returns (di: int, delta: nat)
    requires |t| == delta0 && |d| == n && |w| == n + delta0 <= sbase && sbase + delta0 <= a.Length
    requires forall p :: 0 <= p < n ==> a[p] == d[p]
    requires forall p :: sbase <= p < sbase + delta0 ==> a[p] == t[p - sbase]
    requires WeaveLeft(d, t, |d|, |t|, w)
    modifies a
    ensures -1 <= di < |d| && delta <= |t| && (delta == 0 || di < 0)
    ensures forall p :: 0 <= p <= di ==> a[p] == d[p]
    ensures forall p :: sbase <= p < sbase + delta ==> a[p] == t[p - sbase]
    ensures forall p :: di + 1 + delta <= p < |w| ==> a[p] == w[p]
    ensures WeaveLeft(d, t, di + 1, delta, w)
  {
    hide WeaveLeft;
    di, delta := n - 1, delta0;
    ghost var i: nat := n;
    var si := sbase + delta0 - 1;
    while delta > 0 && di >= 0
      invariant i == di + 1 && i <= |d| && delta <= |t| && si + 1 == sbase + delta
      invariant forall p :: 0 <= p <= di ==> a[p] == d[p]
      invariant forall p :: sbase <= p <= si ==> a[p] == t[p - sbase]
      invariant forall p :: di + 1 + delta <= p < |w| ==> a[p] == w[p]
      invariant WeaveLeft(d, t, i, delta, w)
      decreases i + delta
    {
      if a[si] > a[di] {
        WeaveNew(d, t, i, delta, w);
        a[di + delta] := a[si];
        delta, si := delta - 1, si - 1;
      } else {
        WeaveOld(d, t, i, delta, w);
        a[di + delta] := a[di];
        di, i := di - 1, i - 1;
      }
    }
  }

  /** The scanning loop of re_node_set_merge. */
  method ExtraLoop(a: array<int>, n0: nat, src: array<int>, m: nat, cap: nat, ghost d: seq<int>, ghost s: seq<int>,
      ghost e: seq<int>)
    returns (si: int, sbase: nat, ghost n: nat)
    requires a != src && m <= src.Length && cap == n0 + 2 * m <= a.Length && |d| == n0 && |s| == m && |e| <= m
    requires d == a[..n0] && s == src[..m]
    requires ExtraLeft(d, s, |d|, |s|, e, |e|)
    modifies a
    ensures -1 <= si < m && n == si + 1 <= |e|
    ensures n0 + m + n <= sbase && sbase + |e| - n == cap
    ensures Buffered(a[..], d, e, sbase, cap)
    ensures forall p :: 0 <= p < n ==> e[p] == s[p]
  {
    hide ExtraLeft, Buffered;
    var di := n0 - 1;
    si, sbase, n := m - 1, cap, |e|;
    ghost var i: nat, j: nat := n0, m;
    BufferStart(a[..], d, e, cap);
    while si >= 0 && di >= 0
      invariant j == si + 1 && j <= m && i == di + 1 && i <= n0
      invariant n0 + m + j <= sbase && n <= |e| && sbase + |e| - n == cap
      invariant Buffered(a[..], d, e, sbase, cap)
      invariant ExtraLeft(d, s, i, j, e, n)
    {
      BufferGet(a[..], d, e, sbase, cap);
      assert a[di] == d[i - 1] && src[si] == s[j - 1];
      if a[di] == src[si] {
        ExtraDrop(d, s, i, j, e, n);
        si, di, i, j := si - 1, di - 1, i - 1, j - 1;
      } else if a[di] < src[si] {
        ExtraTake(d, s, i, j, e, n);
        ghost var h := a[..];
        BufferPut(h, d, e, sbase, cap, src[si]);
        sbase := sbase - 1;
        a[sbase] := src[si];
        assert a[..] == h[sbase := src[si]];
        n := n - 1;
        si, j := si - 1, j - 1;
      } else {
        ExtraDrop(d, s, i, j, e, n);
        di, i := di - 1, i - 1;
      }
    }
    ExtraEnd(d, s, i, j, e, n);
  }

  /** The buffer still holds d in front, and the last elements of e just below cap. */
  ghost predicate Buffered(h: seq<int>, d: seq<int>, e: seq<int>, sbase: nat, cap: nat) {
    && |d| <= sbase <= cap <= |h| && cap - sbase <= |e|
    && h[..|d|] == d && h[sbase..cap] == e[|e| - (cap - sbase)..]
  }

  lemma BufferPut(h: seq<int>, d: seq<int>, e: seq<int>, sbase: nat, cap: nat, x: int)
    requires Buffered(h, d, e, sbase, cap) && |d| < sbase && cap - sbase < |e| && e[|e| - (cap - sbase) - 1] == x
    ensures Buffered(h[sbase - 1 := x], d, e, sbase - 1, cap)
  {
    var h' := h[sbase - 1 := x];
    assert h'[sbase - 1..cap] == [x] + h[sbase..cap];
    assert h'[..|d|] == h[..|d|];
  }

  lemma BufferGet(h: seq<int>, d: seq<int>, e: seq<int>, sbase: nat, cap: nat)
    requires Buffered(h, d, e, sbase, cap)
    ensures |d| <= |h| && forall p :: 0 <= p < |d| ==> h[p] == d[p]
  {
    forall p | 0 <= p < |d| ensures h[p] == d[p] {
      assert h[..|d|][p] == d[p];
    }
  }

  lemma BufferDone(h: seq<int>, d: seq<int>, e: seq<int>, sbase: nat, cap: nat)
    requires Buffered(h, d, e, sbase, cap) && cap - sbase == |e|
    ensures sbase <= cap <= |h| && |d| <= |h| && h[..|d|] == d && h[sbase..cap] == e
  {
    assert e[0..] == e;
  }

  /** The elements that are left, copied below those that have been collected. */
  lemma BufferFront(h: seq<int>, d: seq<int>, rest: seq<int>, e: seq<int>, sbase: nat, cap: nat)
    requires Buffered(h, d, e, sbase, cap) && cap - sbase + |rest| == |e| && |d| + |rest| <= sbase
    requires forall p :: 0 <= p < |rest| ==> e[p] == rest[p]
    ensures var h' := Overwritten(h, sbase - |rest|, rest);
            h'[..|d|] == d && h'[sbase - |rest|..cap] == e
  {
    var h' := Overwritten(h, sbase - |rest|, rest);
    var got := h'[sbase - |rest|..cap];
    forall p | 0 <= p < |e| ensures got[p] == e[p] {
      assert got[p] == h'[sbase - |rest| + p];
      if p >= |rest| {
        assert h[sbase..cap][p - |rest|] == h[sbase - |rest| + p];
      }
    }
  }

  /** The inner loop of the intersection: past the elements of dest that are too large. */
  method SkipAbove(a: array<int>, di0: int, x: int, ghost d: seq<int>) returns (di: int)
    requires |d| <= a.Length && -1 <= di0 < |d|
    requires forall p :: 0 <= p < |d| ==> a[p] == d[p]
    ensures -1 <= di <= di0 && di + 1 == Stop(d, di0 + 1, x)
  {
    di := di0;
    while di >= 0 && a[di] > x
      invariant -1 <= di <= di0 && Stop(d, di + 1, x) == Stop(d, di0 + 1, x)
    {
      di := di - 1;
    }
  }

  /** An element of both sources is taken unless dest has it. */
  method TakeCommon(a: array<int>, di0: int, x: int, sbase0: nat, cap: nat, ghost n0: nat, ghost d: seq<int>,
      ghost e: seq<int>)
    returns (di: int, sbase: nat, ghost n: nat)
    requires Buffered(a[..], d, e, sbase0, cap) && -1 <= di0 < |d| < sbase0 <= cap <= a.Length
    requires cap - sbase0 <= |e| && n0 == |e| - (cap - sbase0)
    requires var r := Stop(d, di0 + 1, x); r == 0 || d[r - 1] != x ==> 0 < n0 <= |e| && e[n0 - 1] == x
    modifies a
    ensures -1 <= di < |d| && di + 1 == Stop(d, di0 + 1, x)
    ensures n == n0 - (if di < 0 || d[di] != x then 1 else 0) && sbase + |e| - n == cap
    ensures Buffered(a[..], d, e, sbase, cap)
  {
    hide Buffered, Stop;
    sbase, n := sbase0, n0;
    BufferGet(a[..], d, e, sbase, cap);
    di := SkipAbove(a, di0, x, d);
    if di < 0 || a[di] != x {
      ghost var h := a[..];
      BufferPut(h, d, e, sbase, cap, x);
      sbase := sbase - 1;
      a[sbase] := x;
      assert a[..] == h[sbase := x];
      n := n - 1;
    }
  }

  /** The scanning loop of re_node_set_add_intersect. */
  method CommonLoop(a: array<int>, b: array<int>, c: array<int>, cap: nat,
                    i10: nat, i20: nat, n0: nat,
                    ghost d: seq<int>, ghost s: seq<int>, ghost u: seq<int>, ghost e: seq<int>)
    returns (sbase: nat)
    requires a != b && a != c && i10 <= b.Length && i20 <= c.Length
    requires |d| == n0 && |e| <= |s| && |e| <= |u| && cap == n0 + |s| + |u| <= a.Length
    requires d == a[..n0] && |s| == i10 && |u| == i20
    requires forall p :: 0 <= p < |s| ==> b[p] == s[p]
    requires forall p :: 0 <= p < |u| ==> c[p] == u[p]
    requires CommonLeft(d, s, u, |d|, |s|, |u|, e, |e|)
    modifies a
    ensures sbase + |e| == cap && Buffered(a[..], d, e, sbase, cap)
  {
    hide CommonLeft, Stop, Buffered;
    ghost var i: nat, j: nat, k: nat, n: nat := |d|, |s|, |u|, |e|;
    var i1, i2, di := i10 - 1, i20 - 1, n0 - 1;
    sbase := cap;
    BufferStart(a[..], d, e, cap);
    while i1 >= 0 && i2 >= 0
      invariant j == i1 + 1 && j <= |s| && k == i2 + 1 && k <= |u| && i == di + 1 && i <= |d|
      invariant n <= |e| && sbase + |e| - n == cap
      invariant Buffered(a[..], d, e, sbase, cap)
      invariant CommonLeft(d, s, u, i, j, k, e, n)
    {
      assert b[i1] == s[j - 1] && c[i2] == u[k - 1];
      if b[i1] == c[i2] {
        CommonEqual(d, s, u, i, j, k, e, n);
        di, sbase, n := TakeCommon(a, di, b[i1], sbase, cap, n, d, e);
        i, i1, i2, j, k := di + 1, i1 - 1, i2 - 1, j - 1, k - 1;
      } else if b[i1] < c[i2] {
        CommonLower(d, s, u, i, j, k, e, n);
        i2, k := i2 - 1, k - 1;
      } else {
        CommonLower(d, s, u, i, j, k, e, n);
        i1, j := i1 - 1, j - 1;
      }
    }
    CommonEnd(d, s, u, i, j, k, e, n);
  }

  lemma BufferStart(h: seq<int>, d: seq<int>, e: seq<int>, cap: nat)
    requires |d| <= cap <= |h| && h[..|d|] == d
    ensures Buffered(h, d, e, cap, cap)
  {
  }

  /** The loop of re_node_set_init_union. */
  method UnionLoop(a: array<int>, b: array<int>, m1: nat, c: array<int>, m2: nat, ghost s: seq<int>, ghost u: seq<int>)
    returns (n: nat, i1: nat, i2: nat)
    requires a != b && a != c && m1 <= b.Length && m2 <= c.Length && a.Length == m1 + m2
    requires s == b[..m1] && u == c[..m2]
    modifies a
    ensures i1 <= m1 && i2 <= m2 && n <= i1 + i2 && (i1 == m1 || i2 == m2)
    ensures a[..n] + Union(s[i1..], u[i2..]) == Union(s, u)
  {
    hide Union;
    n, i1, i2 := 0, 0, 0;
    assert s[0..] == s && u[0..] == u;
    while i1 < m1 && i2 < m2
      invariant i1 <= m1 && i2 <= m2 && n <= i1 + i2
      invariant a[..n] + Union(s[i1..], u[i2..]) == Union(s, u)
    {
      UnionStep(s, u, i1, i2, a[..n]);
      ghost var done := a[..n];
      if b[i1] > c[i2] {
        a[n] := c[i2];
        i2 := i2 + 1;
      } else {
        a[n] := b[i1];
        if b[i1] == c[i2] { i2 := i2 + 1; }
        i1 := i1 + 1;
      }
      n := n + 1;
      assert a[..n] == done + [a[n - 1]];
    }
  }

  /** The shifting loop of re_node_set_insert. */
  method ShiftUp(a: array<int>, n: nat, elem: int, ghost s: seq<int>) returns (i: nat)
    requires |s| == n < a.Length && forall k :: 0 <= k < n ==> a[k] == s[k]
    modifies a
    ensures i == Place(s, elem)
    ensures forall k :: 0 <= k < i ==> a[k] == s[k]
    ensures forall k :: i < k <= n ==> a[k] == s[k - 1]
  {
    hide Place;
    i := n;
    assert s[..|s|] == s;
    while i > 0 && a[i - 1] > elem
      invariant i <= n && Place(s[..i], elem) == Place(s, elem)
      invariant forall k :: 0 <= k < i ==> a[k] == s[k]
      invariant forall k :: i < k <= n ==> a[k] == s[k - 1]
    {
      PlaceStep(s, i, elem);
      a[i] := a[i - 1];
      i := i - 1;
    }
    PlaceStep(s, i, elem);
  }

  /** The shifting loop of re_node_set_remove_at; n is the new number of elements. */
  method ShiftDown(a: array<int>, n: nat, i0: nat, ghost s: seq<int>)
    requires i0 <= n < a.Length && |s| == n + 1 && forall k :: 0 <= k <= n ==> a[k] == s[k]
    modifies a
    ensures forall k :: 0 <= k < i0 ==> a[k] == s[k]
    ensures forall k :: i0 <= k < n ==> a[k] == s[k + 1]
  {
    var i := i0;
    while i < n
      invariant i0 <= i <= n
      invariant forall k :: 0 <= k < i0 || i <= k <= n ==> a[k] == s[k]
      invariant forall k :: i0 <= k < i ==> a[k] == s[k + 1]
    {
      a[i] := a[i + 1];
      i := i + 1;
    }
  }

  lemma UnionRest(s: seq<int>, u: seq<int>, i: nat, j: nat)
    requires i <= |s| && j <= |u| && (i == |s| || j == |u|)
    ensures Union(s[i..], u[j..]) == if j == |u| then s[i..] else u[j..]
  {
  }

  class ReNodeSet {
    var elems: array<int>
    var nelem: nat

    ghost predicate Valid()
      reads this
    {
      nelem <= elems.Length
    }

    ghost function Contents(): seq<int>
      reads this, elems
      requires Valid()
    {
      elems[..nelem]
    }

    /** re_node_set_init_empty, with room for `size` elements. */
    constructor (size: nat)
      ensures Valid() && fresh(elems) && elems.Length == size && nelem == 0
    {
      elems := new int[size];
      nelem := 0;
    }

    /** re_realloc: a larger buffer with the same elements in front. */
    method Realloc(alloc: nat)
      requires Valid() && elems.Length <= alloc
      modifies this`elems
      ensures Valid() && fresh(elems) && elems.Length == alloc
      ensures Contents() == old(Contents())
    {
      var buffer := new int[alloc];
      var i := 0;
      while i < nelem
        invariant i <= nelem && buffer[..i] == elems[..i]
        modifies buffer
      {
        buffer[i] := elems[i];
        i := i + 1;
      }
      elems := buffer;
    }

    /** memcpy within the buffer or from another one, regions apart. */
    method Copy(to: nat, from: array<int>, at: nat, count: nat)
      requires to + count <= elems.Length && at + count <= from.Length
      requires from != elems || to + count <= at
      modifies elems
      ensures elems[..] == Overwritten(old(elems[..]), to, old(from[at..at + count]))
    {
      ghost var before, source := elems[..], from[at..at + count];
      var i := 0;
      while i < count
        invariant i <= count
        invariant forall p :: to <= p < to + i ==> elems[p] == source[p - to]
        invariant forall p :: 0 <= p < to || to + i <= p < elems.Length ==> elems[p] == before[p]
        invariant forall p :: at + i <= p < at + count ==> from[p] == source[p - at]
      {
        elems[to + i] := from[at + i];
        i := i + 1;
      }
      OverwrittenBy(before, to, source, elems[..]);
    }

    /** The second half of a merge: the new elements, sorted, wait in [sbase, cap); they are
        slid in between the old ones from the top.  Nothing unread is overwritten. */
    method SlideIn(sbase: nat, cap: nat)
      requires Valid() && cap <= elems.Length && sbase <= cap
      requires nelem + (cap - sbase) <= sbase
      modifies this`nelem, elems
      ensures Valid()
      ensures Contents() == Weave(old(Contents()), old(elems[sbase..cap]))
    {
      hide WeaveLeft, Weave, Overwritten;
      ghost var d, t := Contents(), elems[sbase..cap];
      ghost var w := Weave(d, t);
      WeaveStart(d, t);
      var n := nelem;
      nelem := nelem + (cap - sbase);
      var di, delta := SlideLoop(elems, n, sbase, cap - sbase, d, t, w);
      WeaveEnd(d, t, di + 1, delta, w);
      ghost var slid := elems[..];
      if di < 0 {
        Copy(0, elems, sbase, delta);
        assert elems[..] == Overwritten(slid, 0, slid[sbase..sbase + delta]);
        SlidDown(slid, t, w, sbase, delta);
      } else {
        SameElements(elems[..][..nelem], w);
      }
      assert elems[..nelem] == elems[..][..nelem];
    }

    /** The first half of re_node_set_merge: the elements of src that are not in dest are
        collected below the top of dest's buffer. */
    method CollectExtra(src: ReNodeSet, cap: nat) returns (sbase: nat)
      requires Valid() && src.Valid() && src != this && src.elems != elems
      requires cap == nelem + 2 * src.nelem <= elems.Length
      modifies elems
      ensures nelem + src.nelem <= sbase <= cap && cap - sbase <= src.nelem
      ensures elems[..nelem] == old(elems[..nelem])
      ensures elems[sbase..cap] == Extra(old(Contents()), old(src.Contents()))
    {
      hide ExtraLeft, Extra, Buffered, Overwritten;
      ghost var d, s := Contents(), src.Contents();
      ghost var e := Extra(d, s);
      ExtraStart(d, s);
      var si;
      ghost var n;
      si, sbase, n := ExtraLoop(elems, nelem, src.elems, src.nelem, cap, d, s, e);
      ghost var scanned := elems[..];
      if si >= 0 {
        sbase := sbase - (si + 1);
        Copy(sbase, src.elems, 0, si + 1);
        assert src.elems[0..0 + (si + 1)] == s[..n];
        BufferFront(scanned, d, s[..n], e, sbase + n, cap);
        assert elems[..] == Overwritten(scanned, sbase, s[..n]);
      } else {
        BufferDone(scanned, d, e, sbase, cap);
      }
      assert elems[..nelem] == elems[..][..nelem] && elems[sbase..cap] == elems[..][sbase..cap];
    }

    /** re_node_set_merge */
    method Merge(src: ReNodeSet)
      requires Valid() && src.Valid() && src != this && src.elems != elems
      modifies this, elems
      ensures Valid() && (elems == old(elems) || fresh(elems))
      ensures Contents() == Merged(old(Contents()), old(src.Contents()))
    {
      if src.nelem == 0 {
        return;
      }
      if elems.Length < 2 * src.nelem + nelem {
        Realloc(2 * (src.nelem + elems.Length));
      }
      if nelem == 0 {
        nelem := src.nelem;
        Copy(0, src.elems, 0, src.nelem);
        return;
      }
      var cap := nelem + 2 * src.nelem;
      var sbase := CollectExtra(src, cap);
      if cap == sbase {
        return;
      }
      SlideIn(sbase, cap);
    }

    /** The first half of re_node_set_add_intersect. */
    method CollectCommon(src1: ReNodeSet, src2: ReNodeSet, cap: nat) returns (sbase: nat)
      requires Valid() && src1.Valid() && src2.Valid()
      requires src1 != this && src2 != this && src1.elems != elems && src2.elems != elems
      requires cap == nelem + src1.nelem + src2.nelem <= elems.Length
      modifies elems
      ensures nelem + (cap - sbase) <= sbase <= cap
      ensures elems[..nelem] == old(elems[..nelem])
      ensures elems[sbase..cap] == Common(old(Contents()), old(src1.Contents()), old(src2.Contents()))
    {
      ghost var d, s, u := Contents(), src1.Contents(), src2.Contents();
      ghost var e := Common(d, s, u);
      CommonStart(d, s, u);
      hide CommonLeft, Common;
      sbase := CommonLoop(elems, src1.elems, src2.elems, cap, src1.nelem, src2.nelem, nelem, d, s, u, e);
    }

    /** re_node_set_add_intersect */
    method AddIntersect(src1: ReNodeSet, src2: ReNodeSet)
      requires Valid() && src1.Valid() && src2.Valid()
      requires src1 != this && src2 != this && src1.elems != elems && src2.elems != elems
      modifies this, elems
      ensures Valid() && (elems == old(elems) || fresh(elems))
      ensures Contents() == Weave(old(Contents()), Common(old(Contents()), old(src1.Contents()), old(src2.Contents())))
    {
      if src1.nelem == 0 || src2.nelem == 0 {
        return;
      }
      if src1.nelem + src2.nelem + nelem > elems.Length {
        Realloc(src1.nelem + src2.nelem + elems.Length);
      }
      var cap := nelem + src1.nelem + src2.nelem;
      var sbase := CollectCommon(src1, src2, cap);
      SlideIn(sbase, cap);
    }

    /** re_node_set_init_union, into a set just allocated. */
    method InitUnion(src1: ReNodeSet, src2: ReNodeSet)
      requires src1.Valid() && src2.Valid() && src1 != this && src2 != this
      modifies this
      ensures Valid() && fresh(elems)
      ensures Contents() == Union(src1.Contents(), src2.Contents())
    {
      ghost var s, u := src1.Contents(), src2.Contents();
      var a := new int[src1.nelem + src2.nelem];
      var n, i1, i2 := UnionLoop(a, src1.elems, src1.nelem, src2.elems, src2.nelem, s, u);
      UnionRest(s, u, i1, i2);
      elems, nelem := a, n;
      if i1 < src1.nelem {
        AppendFrom(src1, i1);
      } else {
        AppendFrom(src2, i2);
      }
    }

    /** The elements of src from position i on, copied behind those of this set. */
    method AppendFrom(src: ReNodeSet, i: nat)
      requires Valid() && src.Valid() && src != this && src.elems != elems && i <= src.nelem
      requires nelem + (src.nelem - i) <= elems.Length
      modifies this`nelem, elems
      ensures Valid() && Contents() == old(Contents()) + src.Contents()[i..]
    {
      ghost var done := Contents();
      Copy(nelem, src.elems, i, src.nelem - i);
      nelem := nelem + (src.nelem - i);
      assert Contents() == done + src.Contents()[i..];
    }

    /** re_node_set_insert */
    method Insert(elem: int)
      requires Valid()
      modifies this, elems
      ensures Valid() && (elems == old(elems) || fresh(elems))
      ensures Contents() == Inserted(old(Contents()), elem)
    {
      InsertedEmpty(elem);
      hide Inserted, Place;
      ghost var s := Contents();
      if elems.Length == 0 {
        assert s == [];
        elems := new int[1];
        elems[0] := elem;
        nelem := 1;
        assert Contents() == [elem];
      } else if nelem == 0 {
        assert s == [];
        elems[0] := elem;
        nelem := 1;
        assert Contents() == [elem];
      } else {
        if elems.Length == nelem {
          Realloc(elems.Length * 2);
        }
        InsertShift(elem);
      }
    }

    /** Moving the elements that follow the new one, and storing it. */
    method InsertShift(elem: int)
      requires Valid() && nelem < elems.Length
      modifies this`nelem, elems
      ensures Valid() && Contents() == Inserted(old(Contents()), elem)
    {
      hide Inserted, Place;
      ghost var s := Contents();
      var i := ShiftUp(elems, nelem, elem, s);
      elems[i] := elem;
      nelem := nelem + 1;
      InsertedElements(s, elem, i, elems[..nelem]);
    }

    /** re_node_set_insert_last */
    method InsertLast(elem: int)
      requires Valid()
      modifies this, elems
      ensures Valid() && (elems == old(elems) || fresh(elems))
      ensures Contents() == old(Contents()) + [elem]
    {
      if elems.Length == nelem {
        Realloc((elems.Length + 1) * 2);
      }
      elems[nelem] := elem;
      nelem := nelem + 1;
    }

    /** re_node_set_compare */
    method Compare(other: ReNodeSet) returns (equal: bool)
      requires Valid() && other.Valid()
      ensures equal <==> Contents() == other.Contents()
    {
      if nelem != other.nelem {
        return false;
      }
      var i := nelem;
      while i > 0
        invariant 0 <= i <= nelem && elems[i..nelem] == other.elems[i..nelem]
      {
        i := i - 1;
        if elems[i] != other.elems[i] {
          assert Contents()[i] != other.Contents()[i];
          return false;
        }
        assert elems[i..nelem] == [elems[i]] + elems[i + 1..nelem];
        assert other.elems[i..nelem] == [other.elems[i]] + other.elems[i + 1..nelem];
      }
      return true;
    }

    /** re_node_set_contains: one more than the first position, or 0. */
    method Contains(elem: int) returns (r: nat)
      requires Valid() && Sorted(Contents())
      ensures r == 0 <==> elem !in Contents()
      ensures r > 0 ==> r <= nelem && Contents()[r - 1] == elem && elem !in Contents()[..r - 1]
    {
      if nelem == 0 {
        return 0;
      }
      ghost var s := Contents();
      var i, right := 0, nelem - 1;
      while i < right
        invariant i <= right < nelem
        invariant forall k :: 0 <= k < i ==> s[k] < elem
        invariant right < nelem - 1 ==> s[right] >= elem
      {
        var mid := (i + right) / 2;
        assert elems[mid] == s[mid];
        if elems[mid] < elem {
          i := mid + 1;
        } else {
          right := mid;
        }
      }
      assert elems[i] == s[i];
      r := if elems[i] == elem then i + 1 else 0;
    }

    /** re_node_set_remove_at */
    method RemoveAt(i0: int)
      requires Valid()
      modifies this, elems
      ensures Valid() && elems == old(elems)
      ensures Contents() == if 0 <= i0 < |old(Contents())|
                            then old(Contents())[..i0] + old(Contents())[i0 + 1..] else old(Contents())
    {
      if i0 < 0 || i0 >= nelem {
        return;
      }
      ghost var s := Contents();
      nelem := nelem - 1;
      ShiftDown(elems, nelem, i0, s);
      assert Contents() == s[..i0] + s[i0 + 1..];
    }
  }
}
