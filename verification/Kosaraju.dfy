/** stronglyConnectedTableIDs (internal/mycli/dependency_resolver.go): two depth-first passes. */
module Kosaraju {
  import opened TableIds
  import opened Digraph

  ghost predicate Closed(g: Adjacency) {
    forall u, i :: u in g && 0 <= i < |g[u]| ==> g[u][i] in g
  }

  // ---- The first pass as a function ----

  datatype Search = Search(visited: set<TableId>, post: seq<TableId>)

  /** Depth-first search from u: the new visited set and the nodes in order of finishing. */
  ghost function Dfs(g: Adjacency, visited: set<TableId>, u: TableId): (r: Search)
    requires Closed(g) && u in g && visited <= g.Keys
    ensures visited <= r.visited <= g.Keys
    decreases g.Keys - visited, 0
  {
    if u in visited then Search(visited, [])
    else
      var r := DfsAll(g, visited + {u}, g[u]);
      Search(r.visited, r.post + [u])
  }

  ghost function DfsAll(g: Adjacency, visited: set<TableId>, us: seq<TableId>): (r: Search)
    requires Closed(g) && visited <= g.Keys
    requires forall i :: 0 <= i < |us| ==> us[i] in g
    ensures visited <= r.visited <= g.Keys
    decreases g.Keys - visited, |us|
  {
    if us == [] then Search(visited, [])
    else
      var r1 := Dfs(g, visited, us[0]);
      var r2 := DfsAll(g, r1.visited, us[1..]);
      Search(r2.visited, r1.post + r2.post)
  }

  ghost predicate MutualAvoid(E: set<(TableId, TableId)>, avoid: set<TableId>, a: TableId, b: TableId) {
    ReachAvoid(E, avoid, a, b) && ReachAvoid(E, avoid, b, a)
  }

  /** Some node mutually reachable with x finishes at position i or later. */
  ghost predicate LaterTwin(E: set<(TableId, TableId)>, avoid: set<TableId>, post: seq<TableId>, x: TableId, i: int) {
    exists j :: i <= j < |post| && 0 <= j && MutualAvoid(E, avoid, x, post[j])
  }

  /** Whatever reaches the node finishing at i has a twin finishing at i or later. */
  ghost predicate FinishOrdered(E: set<(TableId, TableId)>, avoid: set<TableId>, post: seq<TableId>) {
    forall x, i {:trigger LaterTwin(E, avoid, post, x, i)} ::
      x in post && 0 <= i < |post| && ReachAvoid(E, avoid, x, post[i]) ==> LaterTwin(E, avoid, post, x, i)
  }

  ghost predicate FromAny(E: set<(TableId, TableId)>, avoid: set<TableId>, starts: set<TableId>, w: TableId) {
    exists x :: x in starts && ReachAvoid(E, avoid, x, w)
  }

  /** What a search started at `starts` with `visited` marked finds. */
  ghost predicate Found(E: set<(TableId, TableId)>, visited: set<TableId>, starts: set<TableId>, r: Search) {
    && NoDup(r.post)
    && r.visited == visited + Elements(r.post)
    && visited !! Elements(r.post)
    && (forall w :: w in r.post <==> FromAny(E, visited, starts, w))
    && FinishOrdered(E, visited, r.post)
  }

  lemma {:induction false} DfsFound(g: Adjacency, visited: set<TableId>, u: TableId)
    requires Closed(g) && u in g && visited <= g.Keys
    ensures Found(EdgesOf(g), visited, {u}, Dfs(g, visited, u))
    decreases g.Keys - visited, 0
  {
    var E := EdgesOf(g);
    if u in visited {
    } else {
      var v1 := visited + {u};
      var r := DfsAll(g, v1, g[u]);
      DfsAllFound(g, v1, g[u]);
      NodeFound(g, visited, u, r);
    }
  }

  lemma NodeFound(g: Adjacency, visited: set<TableId>, u: TableId, r: Search)
    requires Closed(g) && u in g && u !in visited
    requires Found(EdgesOf(g), visited + {u}, Elements(g[u]), r)
    ensures Found(EdgesOf(g), visited, {u}, Search(r.visited, r.post + [u]))
  {
    var E, post := EdgesOf(g), r.post + [u];
    assert u in visited + {u};
    assert Elements(post) == Elements(r.post) + {u};
    assert NoDup(post) by { assert u !in Elements(r.post); }
    forall w ensures w in post <==> FromAny(E, visited, {u}, w) {
      NodeReach(g, visited, u, r, w);
    }
    forall x, i | x in post && 0 <= i < |post| && ReachAvoid(E, visited, x, post[i])
      ensures LaterTwin(E, visited, post, x, i)
    {
      NodeReach(g, visited, u, r, x);
      NodeOrdered(E, visited, u, r.post, x, i);
    }
  }

  lemma NodeReach(g: Adjacency, visited: set<TableId>, u: TableId, r: Search, w: TableId)
    requires Closed(g) && u in g && u !in visited
    requires forall w :: w in r.post <==> FromAny(EdgesOf(g), visited + {u}, Elements(g[u]), w)
    ensures w in r.post || w == u <==> ReachAvoid(EdgesOf(g), visited, u, w)
    ensures w in r.post || w == u <==> FromAny(EdgesOf(g), visited, {u}, w)
  {
    var E, v1 := EdgesOf(g), visited + {u};
    ReachRefl(E, visited, u);
    if w in r.post {
      var x :| x in Elements(g[u]) && ReachAvoid(E, v1, x, w);
      ReachWeaken(E, E, v1, visited, x, w);
      assert x !in visited by { var p :| Walk(E, v1, p, x, w); assert p[0] !in v1; }
      ReachEdge(E, visited, u, x);
      ReachTrans(E, visited, u, x, w);
    } else if w != u && ReachAvoid(E, visited, u, w) {
      // The walk after its last visit to u starts at a successor of u.
      var x := LastVisit(E, visited, u, w);
    }
  }

  lemma NodeOrdered(E: set<(TableId, TableId)>, visited: set<TableId>, u: TableId, found: seq<TableId>, x: TableId,
                    i: nat)
    requires FinishOrdered(E, visited + {u}, found)
    requires x in found || x == u
    requires ReachAvoid(E, visited, u, x)
    requires i <= |found| && ReachAvoid(E, visited, x, (found + [u])[i])
    ensures LaterTwin(E, visited, found + [u], x, i)
  {
    var post, n := found + [u], |found|;
    assert post[n] == u;
    if ReachAvoid(E, visited, x, u) {
      assert MutualAvoid(E, visited, x, post[n]);
    } else {
      assert i < n && post[i] == found[i];
      var m := ReachSplit(E, visited, {u}, x, post[i]);
      assert LaterTwin(E, visited + {u}, found, x, i);
      var j :| i <= j < n && MutualAvoid(E, visited + {u}, x, found[j]);
      ReachWeaken(E, E, visited + {u}, visited, x, found[j]);
      ReachWeaken(E, E, visited + {u}, visited, found[j], x);
      assert post[j] == found[j];
    }
  }

  lemma LastVisit(E: set<(TableId, TableId)>, avoid: set<TableId>, u: TableId, w: TableId) returns (x: TableId)
    requires ReachAvoid(E, avoid, u, w) && u != w
    ensures (u, x) in E && ReachAvoid(E, avoid + {u}, x, w)
  {
    var p :| Walk(E, avoid, p, u, w);
    var i := |p| - 1;
    while p[i - 1] != u
      invariant 0 < i < |p| && forall k :: i <= k < |p| ==> p[k] != u
      decreases i
    {
      i := i - 1;
    }
    x := p[i];
    assert (p[i - 1], p[i]) in E;
    assert Walk(E, avoid + {u}, p[i..], x, w);
  }

  lemma {:induction false} DfsAllFound(g: Adjacency, visited: set<TableId>, us: seq<TableId>)
    requires Closed(g) && visited <= g.Keys
    requires forall i :: 0 <= i < |us| ==> us[i] in g
    ensures Found(EdgesOf(g), visited, Elements(us), DfsAll(g, visited, us))
    decreases g.Keys - visited, |us|
  {
    if us == [] {
    } else {
      var r1 := Dfs(g, visited, us[0]);
      DfsFound(g, visited, us[0]);
      DfsAllFound(g, r1.visited, us[1..]);
      SequenceFound(EdgesOf(g), visited, us, r1, DfsAll(g, r1.visited, us[1..]));
    }
  }

  lemma SequenceFound(E: set<(TableId, TableId)>, visited: set<TableId>, us: seq<TableId>, r1: Search, r2: Search)
    requires us != []
    requires Found(E, visited, {us[0]}, r1) && Found(E, r1.visited, Elements(us[1..]), r2)
    ensures Found(E, visited, Elements(us), Search(r2.visited, r1.post + r2.post))
  {
    var post, n := r1.post + r2.post, |r1.post|;
    assert Elements(post) == Elements(r1.post) + Elements(r2.post);
    assert NoDup(post) by {
      forall i, j | 0 <= i < j < |post| ensures post[i] != post[j] {
        if i < n <= j {
          assert post[i] in Elements(r1.post) && post[j] in Elements(r2.post);
        }
      }
    }
    // What r1 found is closed under walks that avoid `visited`.
    forall x, w | x in r1.post && ReachAvoid(E, visited, x, w) ensures w in r1.post {
      assert ReachAvoid(E, visited, us[0], x);
      ReachTrans(E, visited, us[0], x, w);
      assert FromAny(E, visited, {us[0]}, w);
    }
    forall w ensures w in post <==> FromAny(E, visited, Elements(us), w) {
      SequenceReach(E, visited, us, r1, r2, w);
    }
    forall x, i | x in post && 0 <= i < |post| && ReachAvoid(E, visited, x, post[i])
      ensures LaterTwin(E, visited, post, x, i)
    {
      assert forall w :: w in r2.post ==> w in Elements(r2.post) && w !in r1.visited;
      assert forall w :: w in r1.post ==> w in Elements(r1.post);
      SequenceOrdered(E, visited, r1, r2, x, i);
    }
  }

  lemma SequenceReach(E: set<(TableId, TableId)>, visited: set<TableId>, us: seq<TableId>, r1: Search, r2: Search,
                      w: TableId)
    requires us != [] && r1.visited == visited + Elements(r1.post)
    requires forall w :: w in r1.post <==> FromAny(E, visited, {us[0]}, w)
    requires forall w :: w in r2.post <==> FromAny(E, r1.visited, Elements(us[1..]), w)
    requires forall x, w :: x in r1.post && ReachAvoid(E, visited, x, w) ==> w in r1.post
    ensures w in r1.post || w in r2.post <==> FromAny(E, visited, Elements(us), w)
  {
    if w in r1.post {
      assert us[0] in Elements(us);
    } else if w in r2.post {
      var x :| x in Elements(us[1..]) && ReachAvoid(E, r1.visited, x, w);
      ReachWeaken(E, E, r1.visited, visited, x, w);
      assert x in Elements(us);
    } else if FromAny(E, visited, Elements(us), w) {
      var x :| x in Elements(us) && ReachAvoid(E, visited, x, w);
      if x != us[0] {
        assert x in Elements(us[1..]);
        var m := ReachSplit(E, visited, Elements(r1.post), x, w);
      }
    }
  }

  lemma SequenceOrdered(E: set<(TableId, TableId)>, visited: set<TableId>, r1: Search, r2: Search, x: TableId, i: nat)
    requires r1.visited == visited + Elements(r1.post)
    requires FinishOrdered(E, visited, r1.post) && FinishOrdered(E, r1.visited, r2.post)
    requires forall y, w :: y in r1.post && ReachAvoid(E, visited, y, w) ==> w in r1.post
    requires forall w :: w in r2.post ==> w !in r1.visited
    requires var post := r1.post + r2.post;
      x in post && i < |post| && ReachAvoid(E, visited, x, post[i])
    ensures var post := r1.post + r2.post;
      LaterTwin(E, visited, post, x, i)
  {
    var post, n := r1.post + r2.post, |r1.post|;
    if x in r1.post {
      assert post[i] in r1.post;
      assert forall w :: w in r1.post ==> w in Elements(r1.post);
      assert forall w :: w in r2.post ==> w !in r1.post;
      assert post[i] == r1.post[i];
      assert LaterTwin(E, visited, r1.post, x, i);
      var j :| i <= j < n && MutualAvoid(E, visited, x, r1.post[j]);
      assert post[j] == r1.post[j];
    } else if i < n {
      var k :| 0 <= k < |r2.post| && r2.post[k] == x;
      assert x !in visited;
      ReachRefl(E, visited, x);
      assert post[n + k] == x;
      assert MutualAvoid(E, visited, x, post[n + k]);
    } else {
      LaterOrdered(E, visited, r1, r2, x, i - n);
      var j :| i - n <= j < |r2.post| && MutualAvoid(E, visited, x, r2.post[j]);
      assert post[n + j] == r2.post[j];
    }
  }

  lemma LaterOrdered(E: set<(TableId, TableId)>, visited: set<TableId>, r1: Search, r2: Search, x: TableId, i: nat)
    requires r1.visited == visited + Elements(r1.post)
    requires FinishOrdered(E, r1.visited, r2.post)
    requires forall y, w :: y in r1.post && ReachAvoid(E, visited, y, w) ==> w in r1.post
    requires forall w :: w in r2.post ==> w !in r1.visited
    requires x in r2.post && i < |r2.post| && ReachAvoid(E, visited, x, r2.post[i])
    ensures LaterTwin(E, visited, r2.post, x, i)
  {
    var y := r2.post[i];
    assert y !in r1.visited;
    assert forall w :: w in r1.post ==> w in Elements(r1.post);
    var m := ReachSplit(E, visited, Elements(r1.post), x, y);
    assert LaterTwin(E, r1.visited, r2.post, x, i);
    var j :| i <= j < |r2.post| && MutualAvoid(E, r1.visited, x, r2.post[j]);
    ReachWeaken(E, E, r1.visited, visited, x, r2.post[j]);
    ReachWeaken(E, E, r1.visited, visited, r2.post[j], x);
  }

  // ---- The answer, defined by mutual reachability alone ----

  ghost function SccOf(g: Adjacency, u: TableId): set<TableId> {
    set w | w in g.Keys && Mutual(EdgesOf(g), u, w)
  }

  /** comp is the component of u, in catalog order. */
  ghost predicate IsComponent(g: Adjacency, u: TableId, comp: seq<TableId>) {
    Sorted(comp) && NoDup(comp) && Elements(comp) == SccOf(g, u)
  }

  lemma ComponentUnique(g: Adjacency, u: TableId, c: seq<TableId>, d: seq<TableId>)
    requires IsComponent(g, u, c) && IsComponent(g, u, d)
    ensures c == d
  {
    NoDupMultiset(c, d);
    SortUnique(c, d);
  }

  /** sccs lists, without repetition, the component of every node among the first i of the stack,
      last node first, skipping the nodes of `done`. */
  ghost predicate Emits(g: Adjacency, stack: seq<TableId>, i: nat, done: set<TableId>, sccs: seq<seq<TableId>>)
    requires i <= |stack|
    decreases i
  {
    if i == 0 then sccs == []
    else if stack[i - 1] in done then Emits(g, stack, i - 1, done, sccs)
    else
      && sccs != [] && IsComponent(g, stack[i - 1], sccs[0])
      && Emits(g, stack, i - 1, done + SccOf(g, stack[i - 1]), sccs[1..])
  }

  lemma {:induction false} EmitsUnique(g: Adjacency, stack: seq<TableId>, i: nat, done: set<TableId>,
                                       a: seq<seq<TableId>>, b: seq<seq<TableId>>)
    requires i <= |stack| && Emits(g, stack, i, done, a) && Emits(g, stack, i, done, b)
    ensures a == b
    decreases i
  {
    if i > 0 {
      if stack[i - 1] in done {
        EmitsUnique(g, stack, i - 1, done, a, b);
      } else {
        ComponentUnique(g, stack[i - 1], a[0], b[0]);
        EmitsUnique(g, stack, i - 1, done + SccOf(g, stack[i - 1]), a[1..], b[1..]);
        assert a == [a[0]] + a[1..] && b == [b[0]] + b[1..];
      }
    }
  }

  lemma EmitsStep(g: Adjacency, stack: seq<TableId>, i: nat, done: set<TableId>, sccs: seq<seq<TableId>>)
    requires 0 < i <= |stack| && Emits(g, stack, i, done, sccs)
    ensures if stack[i - 1] in done then Emits(g, stack, i - 1, done, sccs)
            else sccs != [] && IsComponent(g, stack[i - 1], sccs[0])
                 && Emits(g, stack, i - 1, done + SccOf(g, stack[i - 1]), sccs[1..])
  {
    hide IsComponent; hide SccOf;
  }

  lemma EmitsEnd(g: Adjacency, stack: seq<TableId>, done: set<TableId>, sccs: seq<seq<TableId>>)
    requires Emits(g, stack, 0, done, sccs)
    ensures sccs == []
  {
  }

  lemma NothingDone(g: Adjacency)
    ensures ClosedUnderTwins(g, {})
  {
  }

  ghost predicate NodesOf(g: Adjacency, nodes: seq<TableId>) {
    forall x :: x in g <==> x in nodes
  }

  /** The answer for a graph and a selection, without reference to any search of the reversed graph. */
  ghost predicate IsSccList(g: Adjacency, nodes: seq<TableId>, sccs: seq<seq<TableId>>)
    requires Closed(g) && NodesOf(g, nodes)
  {
    SortIdsElements(nodes);
    var stack := DfsAll(g, {}, SortIds(nodes)).post;
    Emits(g, stack, |stack|, {}, sccs)
  }

  ghost predicate AllComponents(g: Adjacency, sccs: seq<seq<TableId>>) {
    forall i :: 0 <= i < |sccs| ==> sccs[i] != [] && sccs[i][0] in g && IsComponent(g, sccs[i][0], sccs[i])
  }

  ghost predicate Listed(sccs: seq<seq<TableId>>, x: TableId) {
    exists i :: 0 <= i < |sccs| && x in sccs[i]
  }

  ghost predicate Disjoint(sccs: seq<seq<TableId>>) {
    forall i, j, x :: 0 <= i < |sccs| && 0 <= j < |sccs| && x in sccs[i] && x in sccs[j] ==> i == j
  }

  /** A partition of the nodes into classes of mutual reachability. */
  ghost predicate IsSccPartition(g: Adjacency, sccs: seq<seq<TableId>>) {
    AllComponents(g, sccs) && Disjoint(sccs) && forall x :: x in g <==> Listed(sccs, x)
  }

  /** The list does not depend on how the selection is permuted. */
  lemma SccListPermutation(g: Adjacency, a: seq<TableId>, b: seq<TableId>, s: seq<seq<TableId>>, t: seq<seq<TableId>>)
    requires Closed(g) && NodesOf(g, a) && NodesOf(g, b) && multiset(a) == multiset(b)
    requires IsSccList(g, a, s) && IsSccList(g, b, t)
    ensures s == t
  {
    SortPermutation(a, b);
    SortIdsElements(a);
    var stack := DfsAll(g, {}, SortIds(a)).post;
    EmitsUnique(g, stack, |stack|, {}, s, t);
  }

  // ---- The second pass ----

  ghost predicate ClosedUnderTwins(g: Adjacency, done: set<TableId>) {
    done <= g.Keys && forall a, b :: a in done && Mutual(EdgesOf(g), a, b) ==> b in done
  }

  /** Searching the reversed graph from the last unvisited node of the stack finds its component. */
  lemma ReverseSearch(g: Adjacency, rev: Adjacency, stack: seq<TableId>, k: nat, done: set<TableId>)
    requires Closed(g) && Closed(rev) && rev.Keys == g.Keys && EdgesOf(rev) == Flip(EdgesOf(g))
    requires NodesOf(g, stack) && FinishOrdered(EdgesOf(g), {}, stack)
    requires k < |stack| && stack[k] !in done && ClosedUnderTwins(g, done)
    requires forall i :: k < i < |stack| ==> stack[i] in done
    ensures Elements(Dfs(rev, done, stack[k]).post) == SccOf(g, stack[k])
    ensures NoDup(Dfs(rev, done, stack[k]).post)
    ensures Dfs(rev, done, stack[k]).visited == done + SccOf(g, stack[k])
    ensures ClosedUnderTwins(g, done + SccOf(g, stack[k]))
  {
    var E, u := EdgesOf(g), stack[k];
    var r := Dfs(rev, done, u);
    DfsFound(rev, done, u);
    forall w ensures w in r.post <==> w in SccOf(g, u) {
      assert w in r.post <==> FromAny(Flip(E), done, {u}, w);
      if FromAny(Flip(E), done, {u}, w) {
        ReverseInScc(g, stack, k, done, w);
      }
      if w in SccOf(g, u) {
        SccInReverse(g, done, u, w);
      }
    }
    assert r.visited == done + SccOf(g, u);
    forall a, b | a in SccOf(g, u) && Mutual(E, a, b) ensures b in SccOf(g, u) {
      ReachTrans(E, {}, u, a, b);
      ReachTrans(E, {}, b, a, u);
      ReachStays(g, u, b);
    }
  }

  lemma ReachStays(g: Adjacency, a: TableId, b: TableId)
    requires Closed(g) && a in g && Reach(EdgesOf(g), a, b)
    ensures b in g
  {
    var p :| Walk(EdgesOf(g), {}, p, a, b);
    ReachClosed(EdgesOf(g), g.Keys, p, a, b);
  }

  lemma ReverseInScc(g: Adjacency, stack: seq<TableId>, k: nat, done: set<TableId>, w: TableId)
    requires Closed(g) && NodesOf(g, stack) && FinishOrdered(EdgesOf(g), {}, stack)
    requires k < |stack| && stack[k] !in done && ClosedUnderTwins(g, done)
    requires forall i :: k < i < |stack| ==> stack[i] in done
    requires ReachAvoid(Flip(EdgesOf(g)), done, stack[k], w)
    requires w in g
    ensures w in SccOf(g, stack[k])
  {
    var E, u := EdgesOf(g), stack[k];
    var p :| Walk(Flip(E), done, p, u, w);
    assert w !in done by { assert p[|p| - 1] !in done; }
    ReachFlip(Flip(E), done, p, u, w);
    FlipFlip(E);
    ReachWeaken(E, E, done, {}, w, u);
    assert LaterTwin(E, {}, stack, w, k);
    var j :| k <= j < |stack| && MutualAvoid(E, {}, w, stack[j]);
    assert Mutual(E, stack[j], w);
  }

  lemma SccInReverse(g: Adjacency, done: set<TableId>, u: TableId, w: TableId)
    requires ClosedUnderTwins(g, done) && u !in done && w in SccOf(g, u)
    ensures ReachAvoid(Flip(EdgesOf(g)), done, u, w)
  {
    var E := EdgesOf(g);
    var m := ReachSplit(E, {}, done, w, u);
    if !ReachAvoid(E, {} + done, w, u) {
      // m lies between two twins, so it is a twin of u and u would be done.
      ReachTrans(E, {}, u, w, m);
      assert Mutual(E, m, u);
      assert false;
    }
    assert {} + done == done;
    var p :| Walk(E, done, p, w, u);
    ReachFlip(E, done, p, w, u);
  }

  /** Emitting the components of a finishing order partitions the nodes. */
  lemma {:induction false} EmitsPartition(g: Adjacency, stack: seq<TableId>, i: nat, done: set<TableId>,
                                        sccs: seq<seq<TableId>>)
    requires Closed(g) && ClosedUnderTwins(g, done) && (forall x :: x in stack ==> x in g)
    requires i <= |stack| && Emits(g, stack, i, done, sccs)
    ensures AllComponents(g, sccs)
    ensures forall k, x :: 0 <= k < |sccs| && x in sccs[k] ==> x !in done
    ensures forall x :: x in stack[..i] && x !in done ==> Listed(sccs, x)
    ensures Disjoint(sccs)
    decreases i
  {
    if i > 0 {
      var u := stack[i - 1];
      assert stack[..i] == stack[..i - 1] + [u];
      if u in done {
        EmitsPartition(g, stack, i - 1, done, sccs);
      } else {
        var C := SccOf(g, u);
        ComponentFacts(g, u, done, sccs[0]);
        EmitsPartition(g, stack, i - 1, done + C, sccs[1..]);
        assert sccs == [sccs[0]] + sccs[1..];
        forall x | x in stack[..i] && x !in done ensures Listed(sccs, x) {
          if x !in sccs[0] {
            assert x in stack[..i - 1] && x !in C;
            var k :| 0 <= k < |sccs[1..]| && x in sccs[1..][k];
            assert x in sccs[k + 1];
          }
        }
      }
    }
  }

  lemma ComponentFacts(g: Adjacency, u: TableId, done: set<TableId>, comp: seq<TableId>)
    requires Closed(g) && ClosedUnderTwins(g, done) && u in g && u !in done && IsComponent(g, u, comp)
    ensures u in comp && comp[0] in g && IsComponent(g, comp[0], comp)
    ensures forall x :: x in comp <==> x in SccOf(g, u)
    ensures forall x :: x in comp ==> x !in done
    ensures ClosedUnderTwins(g, done + SccOf(g, u))
  {
    var E := EdgesOf(g);
    ReachRefl(E, {}, u);
    forall x ensures x in comp <==> x in SccOf(g, u) {
      assert x in comp <==> x in Elements(comp);
    }
    assert u in comp;
    assert comp[0] in comp;
    TwinsShare(g, u, comp[0]);
    forall x | x in comp ensures x !in done {
      assert Mutual(E, x, u);
    }
    forall a, b | a in SccOf(g, u) && Mutual(E, a, b) ensures b in SccOf(g, u) {
      ReachTrans(E, {}, u, a, b);
      ReachTrans(E, {}, b, a, u);
      ReachStays(g, u, b);
    }
  }

  lemma TwinsShare(g: Adjacency, u: TableId, v: TableId)
    requires Mutual(EdgesOf(g), u, v)
    ensures SccOf(g, u) == SccOf(g, v)
  {
    var E := EdgesOf(g);
    forall w ensures w in SccOf(g, u) <==> w in SccOf(g, v) {
      if w in SccOf(g, u) {
        ReachTrans(E, {}, v, u, w);
        ReachTrans(E, {}, w, u, v);
      }
      if w in SccOf(g, v) {
        ReachTrans(E, {}, u, v, w);
        ReachTrans(E, {}, w, v, u);
      }
    }
  }

  /** First pass: the stack lists every node once, in finishing order. */
  lemma FirstPass(g: Adjacency, nodes: seq<TableId>)
    requires Closed(g) && NodesOf(g, nodes)
    ensures forall i :: 0 <= i < |SortIds(nodes)| ==> SortIds(nodes)[i] in g
    ensures var stack := DfsAll(g, {}, SortIds(nodes)).post;
      NodesOf(g, stack) && NoDup(stack) && FinishOrdered(EdgesOf(g), {}, stack)
  {
    SortIdsElements(nodes);
    var ordered := SortIds(nodes);
    assert forall x :: x in ordered ==> x in g;
    var r := DfsAll(g, {}, ordered);
    DfsAllFound(g, {}, ordered);
    forall x ensures x in g <==> x in r.post {
      if x in g {
        ReachRefl(EdgesOf(g), {}, x);
        assert x in Elements(ordered);
        assert FromAny(EdgesOf(g), {}, Elements(ordered), x);
      }
      if x in r.post { assert x in Elements(r.post); }
    }
  }

  /** Two tables share a component exactly when each reaches the other; every table is in exactly one. */
  lemma SccListPartition(g: Adjacency, nodes: seq<TableId>, sccs: seq<seq<TableId>>)
    requires Closed(g) && NodesOf(g, nodes) && IsSccList(g, nodes, sccs)
    ensures IsSccPartition(g, sccs)
    ensures forall i, x, y :: 0 <= i < |sccs| && x in sccs[i] && y in g ==> (y in sccs[i] <==> Mutual(EdgesOf(g), x, y))
  {
    FirstPass(g, nodes);
    var stack := DfsAll(g, {}, SortIds(nodes)).post;
    assert stack[..|stack|] == stack;
    EmitsPartition(g, stack, |stack|, {}, sccs);
    forall x | Listed(sccs, x) ensures x in g {
      var i :| 0 <= i < |sccs| && x in sccs[i];
      assert x in Elements(sccs[i]);
    }
    forall i, x, y | 0 <= i < |sccs| && x in sccs[i] && y in g
      ensures y in sccs[i] <==> Mutual(EdgesOf(g), x, y)
    {
      var c := sccs[i];
      assert forall z :: z in c <==> z in Elements(c);
      TwinsShare(g, c[0], x);
    }
  }

  // ---- The algorithm ----

  /** Having found `found` and marked `visited`, searching from `us` completes the search `all`. */
  ghost predicate Resumes(g: Adjacency, all: Search, visited: set<TableId>, found: seq<TableId>, us: seq<TableId>)
    requires Closed(g) && visited <= g.Keys
  {
    && (forall i :: 0 <= i < |us| ==> us[i] in g)
    && all == Search(DfsAll(g, visited, us).visited, found + DfsAll(g, visited, us).post)
  }

  lemma ResumeStep(g: Adjacency, all: Search, visited: set<TableId>, found: seq<TableId>, us: seq<TableId>, i: nat)
    returns (more: seq<TableId>)
    requires Closed(g) && visited <= g.Keys && i < |us| && us[i] in g
    requires Resumes(g, all, visited, found, us[i..])
    ensures var r := Dfs(g, visited, us[i]);
      more == found + r.post && Resumes(g, all, r.visited, more, us[i + 1..])
  {
    var r := Dfs(g, visited, us[i]);
    more := found + r.post;
    assert us[i..][0] == us[i] && us[i..][1..] == us[i + 1..];
    var rest := DfsAll(g, r.visited, us[i + 1..]);
    assert found + (r.post + rest.post) == more + rest.post;
  }

  method Append(comp: seq<TableId>, u: TableId) returns (r: seq<TableId>)
    requires NoDup(comp) && u !in Elements(comp)
    ensures NoDup(r) && Elements(r) == Elements(comp) + {u}
  {
    r := comp + [u];
  }

  class SccSearch {
    var visited: set<TableId>
    var stack: seq<TableId>

    constructor ()
      ensures visited == {} && stack == []
    {
      visited, stack := {}, [];
    }

    /** dfs1: visits what u reaches and pushes each node when it finishes. */
    method Dfs1(graph: Adjacency, u: TableId)
      requires Closed(graph) && u in graph && visited <= graph.Keys
      modifies this
      ensures visited == Dfs(graph, old(visited), u).visited
      ensures stack == old(stack) + Dfs(graph, old(visited), u).post
      decreases graph.Keys - visited
    {
      if u in visited {
        return;
      }
      visited := visited + {u};
      ghost var v0, all, found := visited, DfsAll(graph, visited, graph[u]), [];
      var i := 0;
      assert graph[u][0..] == graph[u];
      while i < |graph[u]|
        invariant i <= |graph[u]| && v0 <= visited <= graph.Keys
        invariant stack == old(stack) + found
        invariant Resumes(graph, all, visited, found, graph[u][i..])
      {
        found := ResumeStep(graph, all, visited, found, graph[u], i);
        Dfs1(graph, graph[u][i]);
        i := i + 1;
      }
      assert found == all.post;
      stack := stack + [u];
    }

    /** The first pass over the sorted nodes. */
    method VisitAll(graph: Adjacency, ordered: seq<TableId>)
      requires Closed(graph) && visited == {} && stack == []
      requires forall i :: 0 <= i < |ordered| ==> ordered[i] in graph
      modifies this
      ensures stack == DfsAll(graph, {}, ordered).post
    {
      ghost var all := DfsAll(graph, {}, ordered);
      var i := 0;
      assert ordered[0..] == ordered;
      while i < |ordered|
        invariant i <= |ordered| && visited <= graph.Keys
        invariant Resumes(graph, all, visited, stack, ordered[i..])
      {
        ghost var found := ResumeStep(graph, all, visited, stack, ordered, i);
        Dfs1(graph, ordered[i]);
        i := i + 1;
      }
    }

    /** dfs2: appends to comp everything unvisited that u reaches in the reversed graph. */
    method Dfs2(rev: Adjacency, u: TableId, comp: seq<TableId>) returns (r: seq<TableId>)
      requires Closed(rev) && u in rev && visited <= rev.Keys
      requires NoDup(comp) && Elements(comp) <= visited
      modifies this`visited
      ensures visited == Dfs(rev, old(visited), u).visited
      ensures NoDup(r) && Elements(r) == Elements(comp) + (visited - old(visited))
      decreases rev.Keys - visited
    {
      r := comp;
      if u in visited {
        return;
      }
      visited := visited + {u};
      r := Append(r, u);
      ghost var v0, all := visited, DfsAll(rev, visited, rev[u]);
      var i := 0;
      assert rev[u][0..] == rev[u];
      while i < |rev[u]|
        invariant i <= |rev[u]| && v0 <= visited <= rev.Keys
        invariant NoDup(r) && Elements(r) == Elements(comp) + (visited - old(visited))
        invariant all.visited == DfsAll(rev, visited, rev[u][i..]).visited
      {
        assert rev[u][i..][0] == rev[u][i] && rev[u][i..][1..] == rev[u][i + 1..];
        r := Dfs2(rev, rev[u][i], r);
        i := i + 1;
      }
    }

    /** Walks the stack backwards, one reversed search per component. */
    method SecondPass(graph: Adjacency, rev: Adjacency) returns (sccs: seq<seq<TableId>>)
      requires Closed(graph) && Closed(rev) && rev.Keys == graph.Keys && EdgesOf(rev) == Flip(EdgesOf(graph))
      requires NodesOf(graph, stack) && FinishOrdered(EdgesOf(graph), {}, stack)
      requires visited == {}
      modifies this`visited
      ensures Emits(graph, stack, |stack|, {}, sccs)
    {
      hide EdgesOf; hide FinishOrdered; hide Closed; hide NodesOf; hide SccOf; hide IsComponent;
      hide Emits; hide SccAnswer;
      hide ClosedUnderTwins;
      NothingDone(graph);
      sccs := [];
      var i := |stack|;
      ghost var rest := SccAnswer(graph, stack, i, {});
      ghost var answer := rest;
      while i > 0
        invariant 0 <= i <= |stack| && ClosedUnderTwins(graph, visited)
        invariant forall j :: i <= j < |stack| ==> stack[j] in visited
        invariant Emits(graph, stack, i, visited, rest) && sccs + rest == answer
      {
        EmitsStep(graph, stack, i, visited, rest);
        i := i - 1;
        if stack[i] !in visited {
          var comp := NextComponent(graph, rev, i, rest[0]);
          sccs, rest := sccs + [comp], rest[1..];
        }
      }
      EmitsEnd(graph, stack, visited, rest);
      assert sccs + rest == sccs;
    }

    method NextComponent(graph: Adjacency, rev: Adjacency, i: nat, ghost want: seq<TableId>)
      returns (comp: seq<TableId>)
      requires Closed(graph) && Closed(rev) && rev.Keys == graph.Keys && EdgesOf(rev) == Flip(EdgesOf(graph))
      requires NodesOf(graph, stack) && FinishOrdered(EdgesOf(graph), {}, stack)
      requires ClosedUnderTwins(graph, visited) && i < |stack| && stack[i] !in visited
      requires forall j :: i < j < |stack| ==> stack[j] in visited
      requires IsComponent(graph, stack[i], want)
      modifies this`visited
      ensures comp == want && visited == old(visited) + SccOf(graph, stack[i])
      ensures ClosedUnderTwins(graph, visited) && stack[i] in visited
    {
      ReverseSearch(graph, rev, stack, i, visited);
      comp := Dfs2(rev, stack[i], []);
      assert visited - old(visited) == SccOf(graph, stack[i]);
      comp := SortComp(graph, stack[i], comp, want);
      ReachRefl(EdgesOf(graph), {}, stack[i]);
    }
  }

  ghost predicate HasEdge(g: Adjacency, u: TableId, v: TableId) {
    u in g && v in g[u]
  }

  method AddReversed(rev: Adjacency, u: TableId, vs: seq<TableId>) returns (r: Adjacency)
    requires forall i :: 0 <= i < |vs| ==> vs[i] in rev
    ensures r.Keys == rev.Keys
    ensures forall v, x :: HasEdge(r, v, x) <==> HasEdge(rev, v, x) || (x == u && v in vs)
  {
    r := rev;
    var i := 0;
    while i < |vs|
      invariant i <= |vs| && r.Keys == rev.Keys
      invariant forall v, x :: HasEdge(r, v, x) <==> HasEdge(rev, v, x) || (x == u && v in vs[..i])
    {
      ghost var before := r;
      r := r[vs[i] := r[vs[i]] + [u]];
      i := i + 1;
      forall v, x ensures HasEdge(r, v, x) <==> HasEdge(before, v, x) || (x == u && v == vs[i - 1]) {}
    }
    assert vs[..i] == vs;
  }

  /** The reversed graph; the order in which the map is ranged over is left open. An absent Go map
      entry reads as an empty slice, so every node is given an entry from the start. */
  method BuildRev(graph: Adjacency) returns (rev: Adjacency)
    requires Closed(graph)
    ensures rev.Keys == graph.Keys && Closed(rev) && EdgesOf(rev) == Flip(EdgesOf(graph))
  {
    rev := map v | v in graph.Keys :: [];
    var todo := graph.Keys;
    while todo != {}
      invariant todo <= graph.Keys && rev.Keys == graph.Keys
      invariant forall v, x :: HasEdge(rev, v, x) <==> x !in todo && HasEdge(graph, x, v)
    {
      var u :| u in todo;
      todo := todo - {u};
      rev := AddReversed(rev, u, graph[u]);
    }
    forall v, i | v in rev && 0 <= i < |rev[v]| ensures rev[v][i] in rev {
      assert HasEdge(rev, v, rev[v][i]);
    }
    forall v, x ensures (v, x) in EdgesOf(rev) <==> (v, x) in Flip(EdgesOf(graph)) {
      FlipEdge(EdgesOf(graph), v, x);
      assert HasEdge(rev, v, x) <==> HasEdge(graph, x, v);
    }
  }

  method StronglyConnectedTableIds(graph: Adjacency, nodes: seq<TableId>) returns (sccs: seq<seq<TableId>>)
    requires Closed(graph) && NodesOf(graph, nodes)
    ensures IsSccList(graph, nodes, sccs)
    ensures IsSccPartition(graph, sccs)
  {
    hide EdgesOf; hide FinishOrdered; hide IsSccPartition; hide Emits; hide NoDup;
    var ordered := SortIds(nodes);
    FirstPass(graph, nodes);
    var search := new SccSearch();
    search.VisitAll(graph, ordered);
    var rev := BuildRev(graph);
    search.visited := {};
    sccs := search.SecondPass(graph, rev);
    SccListPartition(graph, nodes, sccs);
  }

  ghost function SccAnswer(g: Adjacency, stack: seq<TableId>, i: nat, done: set<TableId>): (r: seq<seq<TableId>>)
    requires i <= |stack|
    ensures Emits(g, stack, i, done, r)
    decreases i
  {
    if i == 0 then []
    else if stack[i - 1] in done then SccAnswer(g, stack, i - 1, done)
    else [SortedSet(SccOf(g, stack[i - 1]))] + SccAnswer(g, stack, i - 1, done + SccOf(g, stack[i - 1]))
  }

  ghost function SortedSet(S: set<TableId>): (s: seq<TableId>)
    ensures Sorted(s) && NoDup(s) && Elements(s) == S
  {
    if S == {} then [] else
      LeastExists(S);
      var m :| IsLeast(S, m);
      var rest := SortedSet(S - {m});
      LeastFirst(S, m, rest);
      [m] + rest
  }

  lemma LeastFirst(S: set<TableId>, m: TableId, rest: seq<TableId>)
    requires IsLeast(S, m) && Sorted(rest) && NoDup(rest) && Elements(rest) == S - {m}
    ensures Sorted([m] + rest) && NoDup([m] + rest) && Elements([m] + rest) == S
  {
    forall j | 0 <= j < |rest| ensures m != rest[j] && !Less(rest[j], m) {
      assert rest[j] in Elements(rest);
      Total(m, rest[j]);
    }
    assert Elements([m] + rest) == {m} + Elements(rest);
  }

  /** slices.SortFunc on one component. */
  method SortComp(ghost g: Adjacency, ghost u: TableId, comp: seq<TableId>, ghost want: seq<TableId>)
    returns (r: seq<TableId>)
    requires NoDup(comp) && Elements(comp) == SccOf(g, u) && IsComponent(g, u, want)
    ensures r == want
  {
    r := SortIds(comp);
    SortIdsSorts(comp);
    NoDupMultiset(comp, want);
    SortUnique(r, want);
  }
}
