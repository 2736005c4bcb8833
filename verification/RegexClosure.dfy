/** Epsilon closures, computed by a depth-first search that tolerates cycles, and the
    inverse relation. */
module RegexClosure {
  import opened RegexTree
  import opened RegexNfa
  import opened NodeSet

  // ------------------------------------------------------------------
  // Epsilon paths

  /** There is an epsilon path from i to j of at most k edges through no node of `avoid`. */
  ghost predicate Path(m: Nfa, i: int, j: int, avoid: set<int>, k: nat)
    decreases k
  {
    && 0 <= i < |m.nodes| && i < |m.edests| && i !in avoid
    && (i == j || (k > 0 && IsEpsilon(m.nodes[i]) && exists e <- m.edests[i] :: Path(m, e, j, avoid, k - 1)))
  }

  ghost predicate ReachAvoiding(m: Nfa, i: int, j: int, avoid: set<int>) {
    exists k: nat :: Path(m, i, j, avoid, k)
  }

  /** j is in the epsilon closure of i. */
  ghost predicate Reach(m: Nfa, i: int, j: int) {
    ReachAvoiding(m, i, j, {})
  }

  /** A path either stays clear of v or can be started again at v. */
  lemma {:induction false} PathThrough(m: Nfa, i: int, j: int, avoid: set<int>, v: int, k: nat)
    requires Path(m, i, j, avoid, k)
    ensures Path(m, i, j, avoid + {v}, k) || exists k': nat :: k' <= k && Path(m, v, j, avoid, k')
    decreases k
  {
    if i == v {
      assert Path(m, v, j, avoid, k);
    } else if i == j {
    } else {
      var e :| e in m.edests[i] && Path(m, e, j, avoid, k - 1);
      PathThrough(m, e, j, avoid, v, k - 1);
    }
  }

  /** Whatever can be reached from v can be reached from one of its destinations without
      coming back to v. */
  lemma {:induction false} LastExit(m: Nfa, v: int, j: int, avoid: set<int>, k: nat) returns (e: int)
    requires v != j && Path(m, v, j, avoid, k)
    ensures 0 <= v < |m.nodes| && v < |m.edests| && IsEpsilon(m.nodes[v])
    ensures e in m.edests[v] && ReachAvoiding(m, e, j, avoid + {v})
    decreases k
  {
    e :| e in m.edests[v] && Path(m, e, j, avoid, k - 1);
    PathThrough(m, e, j, avoid, v, k - 1);
    if !Path(m, e, j, avoid + {v}, k - 1) {
      var k': nat :| k' <= k - 1 && Path(m, v, j, avoid, k');
      e := LastExit(m, v, j, avoid, k');
    }
  }

  lemma {:induction false} PathAvoidsLess(m: Nfa, i: int, j: int, avoid: set<int>, k: nat)
    requires Path(m, i, j, avoid, k)
    ensures Path(m, i, j, {}, k)
    decreases k
  {
    if i == j {
    } else {
      var e :| e in m.edests[i] && Path(m, e, j, avoid, k - 1);
      PathAvoidsLess(m, e, j, avoid, k - 1);
    }
  }

  /** All the closures need of a graph: a list of destinations per node, and every
      destination of an epsilon node is a node. */
  ghost predicate EdgesInRange(m: Nfa) {
    && |m.edests| == |m.nodes|
    && forall i: nat, e :: i < |m.nodes| && IsEpsilon(m.nodes[i]) && e in m.edests[i] ==> 0 <= e < |m.nodes|
  }

  lemma ReachStep(m: Nfa, i: int, e: int, j: int)
    requires 0 <= i < |m.nodes| && i < |m.edests| && IsEpsilon(m.nodes[i]) && e in m.edests[i]
    requires Reach(m, e, j)
    ensures Reach(m, i, j)
  {
    var k: nat :| Path(m, e, j, {}, k);
    assert Path(m, i, j, {}, k + 1);
  }

  lemma ReachSelf(m: Nfa, i: int)
    requires 0 <= i < |m.nodes| && i < |m.edests|
    ensures Reach(m, i, i)
  {
    assert Path(m, i, i, {}, 0);
  }

  ghost function Below(n: nat): set<int> {
    if n == 0 then {} else Below(n - 1) + {n - 1}
  }

  lemma {:induction false} BelowMembers(n: nat)
    ensures forall i :: i in Below(n) <==> 0 <= i < n
  {
    if n == 0 {
    } else {
      BelowMembers(n - 1);
    }
  }

  // ------------------------------------------------------------------
  // Closures in the making

  /** One entry of the closure table: nelem == 0, nelem == REG_MISSING, or a set. */
  datatype Entry = Uncomputed | InProgress | Computed(elems: seq<int>)

  /** A set whose members are exactly the closure of n. */
  ghost predicate IsClosure(m: Nfa, n: int, s: seq<int>) {
    && Sorted(s) && s != []
    && forall j :: j in s <==> Reach(m, n, j)
  }

  /** The nodes being worked on are those of `stack`; every stored closure is right. */
  ghost predicate Consistent(m: Nfa, t: seq<Entry>, stack: set<int>) {
    && |t| == |m.nodes|
    && (forall n :: 0 <= n < |t| ==> (t[n].InProgress? <==> n in stack))
    && (forall n :: 0 <= n < |t| && t[n].Computed? ==> IsClosure(m, n, t[n].elems))
    && (forall n <- stack :: 0 <= n < |t|)
  }

  /** What has been gathered for `node` when the destinations before `i` are done. */
  ghost predicate Gathered(m: Nfa, node: int, stack: set<int>, i: nat, s: seq<int>, incomplete: bool)
    requires 0 <= node < |m.edests| && i <= |m.edests[node]|
  {
    && Sorted(s)
    && (forall j <- s :: Reach(m, node, j))
    && (forall k, j :: 0 <= k < i && ReachAvoiding(m, m.edests[node][k], j, stack + {node}) ==> j in s)
    && (!incomplete ==> forall k, j :: 0 <= k < i && Reach(m, m.edests[node][k], j) ==> j in s)
  }

  /** Everything `node` reaches without passing through `stack` has been gathered. */
  lemma GatheredAll(m: Nfa, node: int, stack: set<int>, s: seq<int>, incomplete: bool)
    requires 0 <= node < |m.nodes| && node < |m.edests| && node !in stack
    requires Gathered(m, node, stack, if IsEpsilon(m.nodes[node]) then |m.edests[node]| else 0, s, incomplete)
    ensures var r := Inserted(s, node);
            && Sorted(r) && r != []
            && (forall j <- r :: Reach(m, node, j))
            && (forall j :: ReachAvoiding(m, node, j, stack) ==> j in r)
            && (!incomplete || stack == {} ==> IsClosure(m, node, r))
  {
    var r := Inserted(s, node);
    InsertedMeaning(s, node);
    ReachSelf(m, node);
    assert node in r;
    forall j | ReachAvoiding(m, node, j, stack) ensures j in r {
      if j != node {
        var k: nat :| Path(m, node, j, stack, k);
        var e := LastExit(m, node, j, stack, k);
        var x :| 0 <= x < |m.edests[node]| && m.edests[node][x] == e;
      }
    }
    if !incomplete {
      forall j | Reach(m, node, j) ensures j in r {
        if j != node {
          var k: nat :| Path(m, node, j, {}, k);
          var e :| e in m.edests[node] && Path(m, e, j, {}, k - 1);
          var x :| 0 <= x < |m.edests[node]| && m.edests[node][x] == e;
          assert Reach(m, e, j);
        }
      }
    }
  }

  /** Merging in the closure, or part of it, of the next destination. */
  lemma GatherNext(m: Nfa, node: int, stack: set<int>, i: nat, s: seq<int>, incomplete: bool, c: seq<int>,
      complete: bool)
    requires 0 <= node < |m.nodes| && node < |m.edests| && IsEpsilon(m.nodes[node]) && i < |m.edests[node]|
    requires Gathered(m, node, stack, i, s, incomplete)
    requires Sorted(c) && forall j <- c :: Reach(m, m.edests[node][i], j)
    requires forall j :: ReachAvoiding(m, m.edests[node][i], j, stack + {node}) ==> j in c
    requires complete ==> forall j :: Reach(m, m.edests[node][i], j) ==> j in c
    ensures Gathered(m, node, stack, i + 1, Merged(s, c), incomplete || !complete)
  {
    MergedMeaning(s, c);
    forall j <- Merged(s, c) ensures Reach(m, node, j) {
      if j in c { ReachStep(m, node, m.edests[node][i], j); }
    }
  }

  /** A destination being worked on adds nothing here. */
  lemma GatherSkipped(m: Nfa, node: int, stack: set<int>, i: nat, s: seq<int>, incomplete: bool)
    requires 0 <= node < |m.edests| && i < |m.edests[node]|
    requires Gathered(m, node, stack, i, s, incomplete)
    requires m.edests[node][i] in stack + {node}
    ensures Gathered(m, node, stack, i + 1, s, true)
  {
  }

  lemma WholeClosureAvoids(m: Nfa, n: int, s: seq<int>, avoid: set<int>)
    requires IsClosure(m, n, s)
    ensures forall j :: ReachAvoiding(m, n, j, avoid) ==> j in s
  {
    forall j | ReachAvoiding(m, n, j, avoid) ensures j in s {
      var k: nat :| Path(m, n, j, avoid, k);
      PathAvoidsLess(m, n, j, avoid, k);
    }
  }

  /** The closure tables of re_dfa_t over a finished automaton without constraints. */
  class Closures {
    const m: Nfa
    var eclosures: seq<Entry>
    var inveclosures: seq<seq<int>>

    constructor (m: Nfa)
      ensures this.m == m && |eclosures| == |m.nodes| && forall e <- eclosures :: e == Uncomputed
      ensures inveclosures == []
    {
      this.m := m;
      eclosures := seq(|m.nodes|, _ => Uncomputed);
      inveclosures := [];
    }

    /** calc_eclosure_iter */
    method CalcEclosureIter(node: int, root: bool, ghost stack: set<int>) returns (newSet: seq<int>)
      requires EdgesInRange(m) && Consistent(m, eclosures, stack)
      requires 0 <= node < |m.nodes| && eclosures[node].Uncomputed? && (root ==> stack == {})
      modifies this`eclosures
      ensures Consistent(m, eclosures, stack)
      ensures Sorted(newSet) && forall j <- newSet :: Reach(m, node, j)
      ensures forall j :: ReachAvoiding(m, node, j, stack) ==> j in newSet
      ensures eclosures[node] == Computed(newSet) || (!root && eclosures[node].Uncomputed?)
      ensures forall n :: 0 <= n < |eclosures| && old(eclosures)[n].Computed? ==> eclosures[n] == old(eclosures)[n]
      decreases Below(|m.nodes|) - stack
    {
      BelowMembers(|m.nodes|);
      var eclosure: seq<int> := [];
      var incomplete := false;
      eclosures := eclosures[node := InProgress];
      var i := 0;
      if IsEpsilon(m.nodes[node]) {
        while i < |m.edests[node]|
          invariant i <= |m.edests[node]|
          invariant Consistent(m, eclosures, stack + {node})
          invariant Gathered(m, node, stack, i, eclosure, incomplete)
          invariant forall n :: 0 <= n < |eclosures| && old(eclosures)[n].Computed? ==>
                    eclosures[n] == old(eclosures)[n]
          decreases |m.edests[node]| - i
        {
          var edest := m.edests[node][i];
          assert edest in m.edests[node];
          if eclosures[edest].InProgress? {
            GatherSkipped(m, node, stack, i, eclosure, incomplete);
            incomplete := true;
            i := i + 1;
            continue;
          }
          var elem;
          if eclosures[edest].Uncomputed? {
            elem := CalcEclosureIter(edest, false, stack + {node});
          } else {
            elem := eclosures[edest].elems;
            WholeClosureAvoids(m, edest, elem, stack + {node});
          }
          GatherNext(m, node, stack, i, eclosure, incomplete, elem, eclosures[edest].Computed?);
          eclosure := Merged(eclosure, elem);
          if eclosures[edest].Uncomputed? {
            incomplete := true;
          }
          i := i + 1;
        }
      }
      GatheredAll(m, node, stack, eclosure, incomplete);
      eclosure := Inserted(eclosure, node);
      if incomplete && !root {
        eclosures := eclosures[node := Uncomputed];
      } else {
        eclosures := eclosures[node := Computed(eclosure)];
      }
      newSet := eclosure;
    }

    /** calc_eclosure: terminates on every graph, cycles included, and leaves in each entry
        exactly the nodes reachable by epsilon edges. */
    method CalcEclosure()
      requires EdgesInRange(m) && |m.nodes| > 0
      requires |eclosures| == |m.nodes| && forall e <- eclosures :: e == Uncomputed
      modifies this`eclosures
      ensures |eclosures| == |m.nodes|
      ensures forall n :: 0 <= n < |eclosures| ==> eclosures[n].Computed? && IsClosure(m, n, eclosures[n].elems)
    {
      assert forall n :: 0 <= n < |eclosures| ==> eclosures[n] in eclosures;
      var incomplete := false;
      var node := 0;
      while true
        invariant 0 <= node <= |m.nodes| && !incomplete
        invariant Consistent(m, eclosures, {})
        invariant forall n :: 0 <= n < node ==> eclosures[n].Computed?
        decreases |m.nodes| - node
      {
        if node == |m.nodes| {
          if !incomplete {
            break;
          }
          incomplete := false;
          node := 0;
        }
        if eclosures[node].Computed? {
          node := node + 1;
          continue;
        }
        var elem := CalcEclosureIter(node, true, {});
        if eclosures[node].Uncomputed? {
          incomplete := true;
        }
        node := node + 1;
      }
    }

    /** calc_inveclosure: the converse relation, in increasing order. */
    method CalcInveclosure()
      requires EdgesInRange(m) && |eclosures| == |m.nodes|
      requires forall n :: 0 <= n < |eclosures| ==> eclosures[n].Computed? && IsClosure(m, n, eclosures[n].elems)
      modifies this`inveclosures
      ensures |inveclosures| == |m.nodes|
      ensures forall n :: 0 <= n < |m.nodes| ==> Sorted(inveclosures[n])
      ensures forall n, src :: 0 <= n < |m.nodes| ==>
                (src in inveclosures[n] <==> 0 <= src < |m.nodes| && Reach(m, src, n))
    {
      inveclosures := seq(|m.nodes|, _ => []);
      var src := 0;
      while src < |m.nodes|
        invariant 0 <= src <= |m.nodes| && |inveclosures| == |m.nodes|
        invariant forall n :: 0 <= n < |m.nodes| ==> Sorted(inveclosures[n])
        invariant forall n, s :: 0 <= n < |m.nodes| ==>
                    (s in inveclosures[n] <==> 0 <= s < src && Reach(m, s, n))
      {
        var elems := eclosures[src].elems;
        var i := 0;
        while i < |elems|
          invariant 0 <= i <= |elems| && |inveclosures| == |m.nodes|
          invariant forall n :: 0 <= n < |m.nodes| ==> Sorted(inveclosures[n])
          invariant forall n, s :: 0 <= n < |m.nodes| ==>
                      (s in inveclosures[n] <==> (0 <= s < src && Reach(m, s, n)) || (s == src && n in elems[..i]))
        {
          var n := elems[i];
          ReachInRange(m, src, n);
          AppendSource(inveclosures[n], src);
          inveclosures := inveclosures[n := inveclosures[n] + [src]];
          assert elems[..i + 1] == elems[..i] + [n];
          i := i + 1;
        }
        assert elems[..i] == elems;
        src := src + 1;
      }
    }
  }

  lemma AppendSource(s: seq<int>, src: int)
    requires Sorted(s) && forall x <- s :: x <= src
    ensures Sorted(s + [src])
    ensures forall x :: x in s + [src] <==> x in s || x == src
  {
    forall i | 0 <= i < |s| ensures s[i] <= src {
      assert s[i] in s;
    }
  }

  lemma ReachInRange(m: Nfa, i: int, j: int)
    requires Reach(m, i, j)
    ensures 0 <= j < |m.nodes|
  {
    var k: nat :| Path(m, i, j, {}, k);
    PathInRange(m, i, j, k);
  }

  lemma {:induction false} PathInRange(m: Nfa, i: int, j: int, k: nat)
    requires Path(m, i, j, {}, k)
    ensures 0 <= j < |m.nodes|
    decreases k
  {
    if i == j {
    } else {
      var e :| e in m.edests[i] && Path(m, e, j, {}, k - 1);
      PathInRange(m, e, j, k - 1);
    }
  }
}
