/** Finite directed graphs as edge sets: walks, reachability, cycles, orders. */
module Digraph {

  /** p is a walk from a to b that stays outside `avoid`. */
  ghost predicate Walk<T(!new)>(E: set<(T, T)>, avoid: set<T>, p: seq<T>, a: T, b: T) {
    && |p| > 0 && p[0] == a && p[|p| - 1] == b
    && (forall i :: 0 <= i < |p| ==> p[i] !in avoid)
    && (forall i :: 0 < i < |p| ==> (p[i - 1], p[i]) in E)
  }

  ghost predicate ReachAvoid<T(!new)>(E: set<(T, T)>, avoid: set<T>, a: T, b: T) {
    exists p :: Walk(E, avoid, p, a, b)
  }

  /** Reflexive-transitive closure. */
  ghost predicate Reach<T(!new)>(E: set<(T, T)>, a: T, b: T) {
    ReachAvoid(E, {}, a, b)
  }

  /** Transitive closure: at least one edge. */
  ghost predicate ReachPlus<T(!new)>(E: set<(T, T)>, a: T, b: T) {
    exists c :: (a, c) in E && Reach(E, c, b)
  }

  ghost predicate OnCycle<T(!new)>(E: set<(T, T)>, a: T) {
    ReachPlus(E, a, a)
  }

  ghost predicate Mutual<T(!new)>(E: set<(T, T)>, a: T, b: T) {
    Reach(E, a, b) && Reach(E, b, a)
  }

  lemma ReachRefl<T(!new)>(E: set<(T, T)>, avoid: set<T>, a: T)
    requires a !in avoid
    ensures ReachAvoid(E, avoid, a, a)
  {
    assert Walk(E, avoid, [a], a, a);
  }

  lemma ReachEdge<T(!new)>(E: set<(T, T)>, avoid: set<T>, a: T, b: T)
    requires (a, b) in E && a !in avoid && b !in avoid
    ensures ReachAvoid(E, avoid, a, b)
  {
    assert Walk(E, avoid, [a, b], a, b);
  }

  lemma ReachTrans<T(!new)>(E: set<(T, T)>, avoid: set<T>, a: T, b: T, c: T)
    requires ReachAvoid(E, avoid, a, b) && ReachAvoid(E, avoid, b, c)
    ensures ReachAvoid(E, avoid, a, c)
  {
    var p :| Walk(E, avoid, p, a, b);
    var q :| Walk(E, avoid, q, b, c);
    assert Walk(E, avoid, p + q[1..], a, c);
  }

  lemma ReachWeaken<T(!new)>(E: set<(T, T)>, F: set<(T, T)>, avoid: set<T>, fewer: set<T>, a: T, b: T)
    requires ReachAvoid(E, avoid, a, b) && fewer <= avoid && E <= F
    ensures ReachAvoid(F, fewer, a, b)
  {
    var p :| Walk(E, avoid, p, a, b);
    assert Walk(F, fewer, p, a, b);
  }

  /** A walk either keeps out of S as well or meets S. */
  lemma ReachSplit<T(!new)>(E: set<(T, T)>, avoid: set<T>, S: set<T>, a: T, b: T) returns (m: T)
    requires ReachAvoid(E, avoid, a, b)
    ensures ReachAvoid(E, avoid + S, a, b)
         || (m in S && ReachAvoid(E, avoid, a, m) && ReachAvoid(E, avoid, m, b))
  {
    var p :| Walk(E, avoid, p, a, b);
    if i :| 0 <= i < |p| && p[i] in S {
      m := p[i];
      assert Walk(E, avoid, p[..i + 1], a, m);
      assert Walk(E, avoid, p[i..], m, b);
    } else {
      m := a;
      assert Walk(E, avoid + S, p, a, b);
    }
  }

  /** A walk with distinct ends has a first edge. */
  lemma ReachFirst<T(!new)>(E: set<(T, T)>, avoid: set<T>, a: T, b: T) returns (c: T)
    requires ReachAvoid(E, avoid, a, b) && a != b
    ensures (a, c) in E && a !in avoid && ReachAvoid(E, avoid, c, b)
  {
    var p :| Walk(E, avoid, p, a, b);
    c := p[1];
    assert (p[0], p[1]) in E;
    assert Walk(E, avoid, p[1..], c, b);
  }

  /** A set closed under edges holds everything its members reach. */
  lemma {:induction false} ReachClosed<T(!new)>(E: set<(T, T)>, S: set<T>, p: seq<T>, a: T, b: T)
    requires Walk(E, {}, p, a, b) && a in S
    requires forall x, y :: (x, y) in E && x in S ==> y in S
    ensures b in S
  {
    if |p| > 1 {
      assert (p[0], p[1]) in E;
      assert Walk(E, {}, p[1..], p[1], b);
      ReachClosed(E, S, p[1..], p[1], b);
    }
  }

  lemma {:induction false} ReachClosedBack<T(!new)>(E: set<(T, T)>, S: set<T>, p: seq<T>, a: T, b: T)
    requires Walk(E, {}, p, a, b) && b in S
    requires forall x, y :: (x, y) in E && y in S ==> x in S
    ensures a in S
  {
    if |p| > 1 {
      assert (p[0], p[1]) in E;
      assert Walk(E, {}, p[1..], p[1], b);
      ReachClosedBack(E, S, p[1..], p[1], b);
    }
  }

  ghost function Flip<T(!new)>(E: set<(T, T)>): set<(T, T)> {
    set e | e in E :: (e.1, e.0)
  }

  lemma {:induction false} ReachFlip<T(!new)>(E: set<(T, T)>, avoid: set<T>, p: seq<T>, a: T, b: T)
    requires Walk(E, avoid, p, a, b)
    ensures ReachAvoid(Flip(E), avoid, b, a)
  {
    if |p| == 1 {
      ReachRefl(Flip(E), avoid, a);
    } else {
      assert (p[0], p[1]) in E;
      assert (p[1], p[0]) in Flip(E);
      assert Walk(E, avoid, p[1..], p[1], b);
      ReachFlip(E, avoid, p[1..], p[1], b);
      ReachEdge(Flip(E), avoid, p[1], p[0]);
      ReachTrans(Flip(E), avoid, b, p[1], a);
    }
  }

  lemma FlipEdge<T(!new)>(E: set<(T, T)>, a: T, b: T)
    ensures (a, b) in Flip(E) <==> (b, a) in E
  {
    if (b, a) in E {
      assert ((b, a).1, (b, a).0) in Flip(E);
    }
  }

  lemma FlipFlip<T(!new)>(E: set<(T, T)>)
    ensures Flip(Flip(E)) == E
  {
    forall e | e in E ensures e in Flip(Flip(E)) {
      assert (e.1, e.0) in Flip(E);
      assert e == (e.0, e.1);
    }
  }

  lemma PlusReach<T(!new)>(E: set<(T, T)>, a: T, b: T)
    requires ReachPlus(E, a, b)
    ensures Reach(E, a, b)
  {
    var c :| (a, c) in E && Reach(E, c, b);
    ReachEdge(E, {}, a, c);
    ReachTrans(E, {}, a, c, b);
  }

  ghost function Above<T(!new)>(E: set<(T, T)>, R: set<T>, x: T): set<T> {
    set y | y in R && ReachPlus(E, y, x)
  }

  ghost predicate HasPredecessor<T(!new)>(E: set<(T, T)>, R: set<T>, y: T) {
    exists z :: z in R && (z, y) in E
  }

  /** Finite descent: if every member of R has a predecessor in R, then R holds a cycle. */
  lemma {:induction false} NoSourceHasCycle<T(!new)>(E: set<(T, T)>, R: set<T>, x: T) returns (c: T)
    requires x in R
    requires forall y :: y in R ==> HasPredecessor(E, R, y)
    ensures c in R && OnCycle(E, c)
    decreases |Above(E, R, x)|
  {
    var z :| z in R && (z, x) in E;
    if OnCycle(E, z) {
      c := z;
    } else {
      ReachRefl(E, {}, x);
      assert z in Above(E, R, x);
      forall y | y in Above(E, R, z) ensures y in Above(E, R, x) {
        var d :| (y, d) in E && Reach(E, d, z);
        ReachEdge(E, {}, z, x);
        ReachTrans(E, {}, d, z, x);
      }
      assert z !in Above(E, R, z);
      Smaller(Above(E, R, z), Above(E, R, x), z);
      c := NoSourceHasCycle(E, R, z);
    }
  }

  lemma Smaller<T>(A: set<T>, B: set<T>, x: T)
    requires A <= B && x in B && x !in A
    ensures |A| < |B|
  {
    Subset(A, B - {x});
  }

  lemma {:induction false} Subset<T>(A: set<T>, B: set<T>)
    requires A <= B
    ensures |A| <= |B|
  {
    if A != {} {
      var x :| x in A;
      Subset(A - {x}, B - {x});
    }
  }

  // ---- Counting predecessors ----

  ghost function Parents<T(!new)>(E: set<(T, T)>, c: T): set<T> {
    set e | e in E && e.1 == c :: e.0
  }

  lemma ParentsEdge<T(!new)>(E: set<(T, T)>, p: T, c: T)
    ensures p in Parents(E, c) <==> (p, c) in E
  {
    if (p, c) in E {
      assert (p, c).0 in Parents(E, c);
    }
  }

  lemma AddEdgeCounts<T(!new)>(E: set<(T, T)>, p: T, c: T, S: set<T>)
    requires (p, c) !in E && p in S
    ensures forall d :: d != c ==> Parents(E + {(p, c)}, d) == Parents(E, d)
    ensures |Parents(E + {(p, c)}, c) * S| == |Parents(E, c) * S| + 1
  {
    forall d | d != c ensures Parents(E + {(p, c)}, d) == Parents(E, d) {}
    assert p !in Parents(E, c);
    forall q ensures q in Parents(E + {(p, c)}, c) <==> q in Parents(E, c) + {p} {
      ParentsEdge(E + {(p, c)}, q, c);
      ParentsEdge(E, q, c);
    }
    assert Parents(E + {(p, c)}, c) * S == Parents(E, c) * S + {p};
  }

  lemma RemoveParentCounts<T(!new)>(E: set<(T, T)>, p: T, c: T, rem: set<T>)
    requires p !in rem
    ensures |Parents(E, c) * (rem + {p})| == |Parents(E, c) * rem| + (if (p, c) in E then 1 else 0)
  {
    ParentsEdge(E, p, c);
    if (p, c) in E {
      assert Parents(E, c) * (rem + {p}) == Parents(E, c) * rem + {p};
    } else {
      assert Parents(E, c) * (rem + {p}) == Parents(E, c) * rem;
    }
  }

  /** The count is zero exactly when no predecessor remains. */
  lemma NoParentLeft<T(!new)>(E: set<(T, T)>, c: T, rem: set<T>)
    ensures |Parents(E, c) * rem| == 0 <==> forall p :: (p, c) in E ==> p !in rem
  {
    if forall p :: (p, c) in E ==> p !in rem {
      forall p ensures p !in Parents(E, c) * rem {
        ParentsEdge(E, p, c);
      }
      assert Parents(E, c) * rem == {};
    } else {
      var p :| (p, c) in E && p in rem;
      ParentsEdge(E, p, c);
      assert p in Parents(E, c) * rem;
    }
  }

  lemma CountsPredecessors<T(!new)>(E: set<(T, T)>, c: T, rem: set<T>)
    ensures |Parents(E, c) * rem| == 0 <==> !HasPredecessor(E, rem, c)
  {
    NoParentLeft(E, c, rem);
  }

  /** A nonempty set without a cycle has a member none of whose predecessors is in the set. */
  lemma AcyclicHasSource<T(!new)>(E: set<(T, T)>, R: set<T>) returns (c: T)
    requires R != {} && forall x :: x in R ==> !OnCycle(E, x)
    ensures c in R && !HasPredecessor(E, R, c)
  {
    hide OnCycle; hide HasPredecessor;
    c :| c in R;
    if forall y :: y in R ==> HasPredecessor(E, R, y) {
      var d := NoSourceHasCycle(E, R, c);
    } else {
      c :| c in R && !HasPredecessor(E, R, c);
    }
  }

  // ---- Linear orders of a finite node set ----

  /** o lists every node of S once. */
  ghost predicate Lists<T(!new)>(S: set<T>, o: seq<T>) {
    && (forall x :: x in S <==> x in o)
    && (forall i, j :: 0 <= i < j < |o| ==> o[i] != o[j])
  }

  lemma {:induction false} ListsLength<T(!new)>(S: set<T>, o: seq<T>)
    requires Lists(S, o)
    ensures |o| == |S|
    decreases |o|
  {
    if o == [] {
      assert S == {};
    } else {
      var n := |o| - 1;
      assert o == o[..n] + [o[n]];
      ListsLength(S - {o[n]}, o[..n]);
    }
  }

  /** Every predecessor of x, under E, is in the prefix. */
  ghost predicate Free<T(!new)>(E: set<(T, T)>, prefix: seq<T>, x: T) {
    forall p :: (p, x) in E ==> p in prefix
  }

  /** A topological order: every E-predecessor of o[i] is listed before position i. */
  ghost predicate TopoOrder<T(!new)>(E: set<(T, T)>, S: set<T>, o: seq<T>) {
    Lists(S, o) && forall i :: 0 <= i < |o| ==> Free(E, o[..i], o[i])
  }

  /** x is a least one among the nodes whose predecessors are all in the prefix. */
  ghost predicate GreedyPick<T(!new)>(E: set<(T, T)>, S: set<T>, less: (T, T) -> bool, prefix: seq<T>, x: T) {
    Free(E, prefix, x) && forall y :: y in S && y !in prefix && Free(E, prefix, y) ==> y == x || less(x, y)
  }

  ghost predicate GreedyPicks<T(!new)>(E: set<(T, T)>, S: set<T>, less: (T, T) -> bool, o: seq<T>) {
    forall i :: 0 <= i < |o| ==> GreedyPick(E, S, less, o[..i], o[i])
  }

  ghost predicate Greedy<T(!new)>(E: set<(T, T)>, S: set<T>, less: (T, T) -> bool, o: seq<T>) {
    Lists(S, o) && GreedyPicks(E, S, less, o)
  }

  lemma GreedyExtend<T(!new)>(E: set<(T, T)>, S: set<T>, less: (T, T) -> bool, o: seq<T>, x: T)
    requires GreedyPicks(E, S, less, o) && GreedyPick(E, S, less, o, x)
    ensures GreedyPicks(E, S, less, o + [x])
  {
    hide GreedyPick;
    forall i | 0 <= i <= |o| ensures GreedyPick(E, S, less, (o + [x])[..i], (o + [x])[i]) {
      assert (o + [x])[..i] == o[..i];
      if i == |o| { assert o[..i] == o; }
    }
  }

  ghost predicate LexLeq<T(!new)>(less: (T, T) -> bool, a: seq<T>, b: seq<T>) {
    a == b || exists k :: 0 <= k < |a| && k < |b| && a[..k] == b[..k] && less(a[k], b[k])
  }

  /** The greedy order is lexicographically least among all topological orders. */
  lemma GreedyIsLeast<T(!new)>(E: set<(T, T)>, S: set<T>, less: (T, T) -> bool, o: seq<T>, other: seq<T>)
    requires Greedy(E, S, less, o) && TopoOrder(E, S, other)
    ensures LexLeq(less, o, other)
  {
    ListsLength(S, o);
    ListsLength(S, other);
    var k := 0;
    while k < |o| && o[k] == other[k]
      invariant k <= |o| && o[..k] == other[..k]
    {
      k := k + 1;
    }
    if k < |o| {
      assert other[k] in S && other[k] !in other[..k];
      assert GreedyPick(E, S, less, o[..k], o[k]);
      assert Free(E, other[..k], other[k]);
    } else {
      assert o == o[..k] && other == other[..k];
    }
  }
}
