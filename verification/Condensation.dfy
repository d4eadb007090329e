/** The loops of orderedSafetyComponents (internal/mycli/dependency_resolver.go:449-490) over
    component indices.

    Components are sorted by their least member, so an index stands for a head and "first index with
    indegree zero" stands for "least head that is ready". The index graph lives in two arrays that
    emission updates in place; the lemmas at the end carry greedy emission over from indices to
    heads. */
module Condensation {
  import opened TableIds
  import opened Digraph
  import opened Catalog
  import opened Kosaraju
  import opened Components

  type Edges = set<(int, int)>

  // ---- Sorting components by their first member ----

  predicate HeadsIncrease(sccs: seq<seq<TableId>>) {
    && (forall i :: 0 <= i < |sccs| ==> sccs[i] != [])
    && forall i, j :: 0 <= i < j < |sccs| ==> Less(sccs[i][0], sccs[j][0])
  }

  /** Every component of the partition, in increasing order of head. */
  ghost predicate IsHeadOrder(tables: Tables, S: set<TableId>, sccs: seq<seq<TableId>>) {
    && HeadsIncrease(sccs)
    && (forall i :: 0 <= i < |sccs| ==> sccs[i][0] in Heads(tables, S))
    && (forall h :: h in Heads(tables, S) ==> exists i :: 0 <= i < |sccs| && sccs[i][0] == h)
  }

  /** o names the components picked by index in `order` by their heads. */
  ghost predicate HeadsAlong(sccs: seq<seq<TableId>>, order: seq<int>, o: seq<TableId>) {
    |o| == |order| && forall k :: 0 <= k < |order| ==>
      0 <= order[k] < |sccs| && sccs[order[k]] != [] && o[k] == sccs[order[k]][0]
  }

  predicate IntLess(a: int, b: int) {
    a < b
  }

  ghost function Indices(n: nat): (r: set<int>)
    ensures |r| == n && forall i :: i in r <==> 0 <= i < n
  {
    if n == 0 then {} else Indices(n - 1) + {n - 1}
  }

  /** The index graph of the condensation. */
  ghost function IndexEdges(tables: Tables, S: set<TableId>, sccs: seq<seq<TableId>>): Edges
    requires forall i :: 0 <= i < |sccs| ==> sccs[i] != []
  {
    set p, c | 0 <= p < |sccs| && 0 <= c < |sccs| && (sccs[p][0], sccs[c][0]) in HeadEdges(tables, S) :: (p, c)
  }

  lemma {:induction false} IndexWalk(tables: Tables, S: set<TableId>, sccs: seq<seq<TableId>>, w: seq<int>, a: int,
                                     b: int)
    requires forall i :: 0 <= i < |sccs| ==> sccs[i] != []
    requires Walk(IndexEdges(tables, S, sccs), {}, w, a, b) && 0 <= a < |sccs| && 0 <= b < |sccs|
    ensures Reach(HeadEdges(tables, S), sccs[a][0], sccs[b][0])
    decreases |w|
  {
    var H := HeadEdges(tables, S);
    if |w| == 1 {
      ReachRefl(H, {}, sccs[a][0]);
    } else {
      assert (w[0], w[1]) in IndexEdges(tables, S, sccs);
      assert Walk(IndexEdges(tables, S, sccs), {}, w[1..], w[1], b);
      IndexWalk(tables, S, sccs, w[1..], w[1], b);
      ReachEdge(H, {}, sccs[a][0], sccs[w[1]][0]);
      ReachTrans(H, {}, sccs[a][0], sccs[w[1]][0], sccs[b][0]);
    }
  }

  lemma IndexAcyclic(tables: Tables, S: set<TableId>, sccs: seq<seq<TableId>>, c: int)
    requires forall i :: 0 <= i < |sccs| ==> sccs[i] != []
    ensures !OnCycle(IndexEdges(tables, S, sccs), c)
  {
    var I := IndexEdges(tables, S, sccs);
    if OnCycle(I, c) {
      var d :| (c, d) in I && Reach(I, d, c);
      var w :| Walk(I, {}, w, d, c);
      assert 0 <= c < |sccs| && 0 <= d < |sccs| && (sccs[c][0], sccs[d][0]) in HeadEdges(tables, S);
      hide IndexEdges; hide HeadEdges;
      IndexWalk(tables, S, sccs, w, d, c);
      CondensationAcyclic(tables, S, sccs[c][0]);
    }
  }

  /** Some remaining component is always ready. */
  lemma SomeReady(tables: Tables, S: set<TableId>, sccs: seq<seq<TableId>>, rem: set<int>) returns (c: int)
    requires forall i :: 0 <= i < |sccs| ==> sccs[i] != []
    requires rem != {}
    ensures c in rem && |Parents(IndexEdges(tables, S, sccs), c) * rem| == 0
  {
    hide IndexEdges; hide OnCycle; hide Parents; hide HasPredecessor;
    forall x | x in rem ensures !OnCycle(IndexEdges(tables, S, sccs), x) {
      IndexAcyclic(tables, S, sccs, x);
    }
    c := AcyclicHasSource(IndexEdges(tables, S, sccs), rem);
    CountsPredecessors(IndexEdges(tables, S, sccs), c, rem);
  }

  // ---- The index graph as arrays ----

  ghost function KidEdges(kids: seq<seq<int>>): Edges {
    set p, c | 0 <= p < |kids| && c in kids[p] :: (p, c)
  }

  /** -1 marks an emitted component; the others count their waiting prerequisites. */
  ghost predicate IndexCounts(ind: seq<int>, E: Edges, rem: set<int>) {
    forall c :: 0 <= c < |ind| ==> ind[c] == if c in rem then |Parents(E, c) * rem| else -1
  }

  ghost predicate KidsOk(kids: seq<seq<int>>) {
    && (forall p :: 0 <= p < |kids| ==> NoDup(kids[p]))
    && (forall p, i :: 0 <= p < |kids| && 0 <= i < |kids[p]| ==> 0 <= kids[p][i] < |kids|)
  }

  lemma KidEdgesAppend(kids: seq<seq<int>>, p: int, c: int)
    requires 0 <= p < |kids|
    ensures KidEdges(kids[p := kids[p] + [c]]) == KidEdges(kids) + {(p, c)}
  {
    forall e ensures e in KidEdges(kids[p := kids[p] + [c]]) <==> e in KidEdges(kids) + {(p, c)} {
      assert e == (e.0, e.1);
    }
  }

  lemma KidsOkAppend(kids: seq<seq<int>>, p: int, c: int)
    requires KidsOk(kids) && 0 <= p < |kids| && 0 <= c < |kids| && c !in kids[p]
    ensures KidsOk(kids[p := kids[p] + [c]])
  {
    NoDupAppend(kids[p], c);
  }

  lemma IndexCountsGrow(ind: seq<int>, E: Edges, p: int, c: int, S: set<int>)
    requires IndexCounts(ind, E, S) && p in S && c in S && 0 <= c < |ind| && (p, c) !in E
    ensures IndexCounts(ind[c := ind[c] + 1], E + {(p, c)}, S)
  {
    AddEdgeCounts(E, p, c, S);
  }

  class IndexGraph {
    const indegree: array<int>
    const children: array<seq<int>>

    ghost predicate Valid(rem: set<int>)
      reads this, indegree, children
    {
      && indegree.Length == children.Length && KidsOk(children[..])
      && IndexCounts(indegree[..], KidEdges(children[..]), rem)
    }

    constructor (n: nat)
      ensures fresh(indegree) && fresh(children) && indegree.Length == n && children.Length == n
      ensures Valid(Indices(n)) && KidEdges(children[..]) == {}
    {
      indegree := new int[n](i => 0);
      children := new seq<int>[n](i => []);
      new;
      forall c ensures Parents<int>({}, c) == {} {}
      assert KidEdges(children[..]) == {};
    }

    /** One parent-child pair of components. */
    method AddEdge(p: int, c: int)
      requires 0 <= p < children.Length && 0 <= c < children.Length && Valid(Indices(children.Length))
      modifies indegree, children
      ensures Valid(Indices(children.Length))
      ensures KidEdges(children[..]) == old(KidEdges(children[..])) + if p != c then {(p, c)} else {}
    {
      hide IndexCounts; hide KidsOk; hide NoDup;
      ghost var ind, kids := indegree[..], children[..];
      if p != c {
        if c in children[p] {
          assert (p, c) in KidEdges(kids);
        } else {
          KidEdgesAppend(kids, p, c);
          KidsOkAppend(kids, p, c);
          IndexCountsGrow(ind, KidEdges(kids), p, c, Indices(children.Length));
          children[p] := children[p] + [c];
          indegree[c] := indegree[c] + 1;
          assert children[..] == kids[p := kids[p] + [c]];
          assert indegree[..] == ind[c := ind[c] + 1];
        }
      }
    }

    /** Marks pick as emitted and releases its children. */
    method Emit(pick: int, ghost rem: set<int>)
      requires 0 <= pick < children.Length && Valid(rem) && pick in rem && indegree[pick] == 0
      requires rem <= Indices(children.Length)
      requires forall e :: e in KidEdges(children[..]) && e.0 in rem ==> e.1 in rem
      modifies indegree
      ensures Valid(rem - {pick})
    {
      hide IndexCounts;
      ghost var before := indegree[..];
      indegree[pick] := -1;
      var kids := children[pick];
      assert children[..][pick] == kids;
      assert NoDup(kids) && forall k :: 0 <= k < |kids| ==> 0 <= kids[k] < indegree.Length;
      hide KidsOk;
      var i := 0;
      while i < |kids|
        invariant i <= |kids|
        invariant forall c :: 0 <= c < indegree.Length ==> indegree[c] == EmittedCount(before, kids[..i], pick, c)
      {
        assert kids[..i + 1] == kids[..i] + [kids[i]];
        indegree[kids[i]] := indegree[kids[i]] - 1;
        i := i + 1;
      }
      assert kids[..i] == kids;
      EmitKeeps(before, indegree[..], children[..], pick, rem);
    }

    /** slices.Index: the first position holding x, or -1. */
    method IndexOf(x: int) returns (r: int)
      ensures r == -1 ==> forall k :: 0 <= k < indegree.Length ==> indegree[k] != x
      ensures r != -1 ==> 0 <= r < indegree.Length && indegree[r] == x && forall k :: 0 <= k < r ==> indegree[k] != x
    {
      r := 0;
      while r < indegree.Length
        invariant 0 <= r <= indegree.Length && forall k :: 0 <= k < r ==> indegree[k] != x
      {
        if indegree[r] == x {
          return;
        }
        r := r + 1;
      }
      return -1;
    }
  }

  ghost function EmittedCount(before: seq<int>, kids: seq<int>, pick: int, c: int): int
    requires 0 <= c < |before|
  {
    (if c == pick then -1 else before[c]) - (if c in kids then 1 else 0)
  }

  lemma EmitKeeps(before: seq<int>, after: seq<int>, kids: seq<seq<int>>, pick: int, rem: set<int>)
    requires |before| == |after| == |kids| && 0 <= pick < |kids| && pick in rem && before[pick] == 0
    requires IndexCounts(before, KidEdges(kids), rem)
    requires forall e :: e in KidEdges(kids) && e.0 in rem ==> e.1 in rem
    requires forall c :: 0 <= c < |after| ==> after[c] == EmittedCount(before, kids[pick], pick, c)
    ensures IndexCounts(after, KidEdges(kids), rem - {pick})
  {
    var E := KidEdges(kids);
    NoParentLeft(E, pick, rem);
    forall c | 0 <= c < |after|
      ensures after[c] == if c in rem - {pick} then |Parents(E, c) * (rem - {pick})| else -1
    {
      assert c in kids[pick] <==> (pick, c) in E;
      RemoveParentCounts(E, pick, c, rem - {pick});
      assert (rem - {pick}) + {pick} == rem;
    }
  }

  // ---- The sort by head and the index of every table ----

  function InsertByHead(x: seq<TableId>, s: seq<seq<TableId>>): (r: seq<seq<TableId>>)
    requires x != [] && forall i :: 0 <= i < |s| ==> s[i] != []
    ensures forall i :: 0 <= i < |r| ==> r[i] != []
  {
    if s == [] || Less(x[0], s[0][0]) then [x] + s else [s[0]] + InsertByHead(x, s[1..])
  }

  function SortByHead(s: seq<seq<TableId>>): (r: seq<seq<TableId>>)
    requires forall i :: 0 <= i < |s| ==> s[i] != []
    ensures forall i :: 0 <= i < |r| ==> r[i] != []
  {
    if s == [] then [] else InsertByHead(s[0], SortByHead(s[1..]))
  }

  lemma {:induction false} InsertByHeadMembers(x: seq<TableId>, s: seq<seq<TableId>>)
    requires x != [] && forall i :: 0 <= i < |s| ==> s[i] != []
    ensures forall c :: c in InsertByHead(x, s) <==> c == x || c in s
  {
    if s != [] && !Less(x[0], s[0][0]) {
      InsertByHeadMembers(x, s[1..]);
      assert s == [s[0]] + s[1..];
    }
  }

  lemma {:induction false} InsertByHeadSorts(x: seq<TableId>, s: seq<seq<TableId>>)
    requires x != [] && HeadsIncrease(s) && forall c :: c in s ==> c[0] != x[0]
    ensures HeadsIncrease(InsertByHead(x, s))
  {
    InsertByHeadMembers(x, s);
    if s == [] {
    } else if Less(x[0], s[0][0]) {
      forall j | 0 < j < |s| ensures Less(x[0], s[j][0]) {
        Transitive(x[0], s[0][0], s[j][0]);
      }
    } else {
      assert s[0] in s;
      Total(x[0], s[0][0]);
      InsertByHeadMembers(x, s[1..]);
      InsertByHeadSorts(x, s[1..]);
      var t := InsertByHead(x, s[1..]);
      forall j | 0 <= j < |t| ensures Less(s[0][0], t[j][0]) {
        assert t[j] in t;
      }
    }
  }

  ghost predicate DistinctHeads(s: seq<seq<TableId>>) {
    && (forall i :: 0 <= i < |s| ==> s[i] != [])
    && forall i, j :: 0 <= i < j < |s| ==> s[i][0] != s[j][0]
  }

  lemma {:induction false} SortByHeadSorts(s: seq<seq<TableId>>)
    requires DistinctHeads(s)
    ensures HeadsIncrease(SortByHead(s)) && forall c :: c in SortByHead(s) <==> c in s
  {
    if s != [] {
      SortByHeadSorts(s[1..]);
      InsertByHeadMembers(s[0], SortByHead(s[1..]));
      InsertByHeadSorts(s[0], SortByHead(s[1..]));
      assert s == [s[0]] + s[1..];
    }
  }

  /** Components in head order, with all that the emission loop relies on. */
  ghost predicate ReadyToOrder(tables: Tables, selected: seq<TableId>, g: Adjacency, sccs: seq<seq<TableId>>) {
    && IsHeadOrder(tables, Elements(selected), sccs)
    && Disjoint(sccs) && (forall x :: x in g <==> Listed(sccs, x))
    && forall i :: 0 <= i < |sccs| ==>
         IsPlanComponent(tables, Elements(selected), SafetyComponent(sccs[i], IsCyclicComponent(g, sccs[i])))
  }

  /** slices.SortFunc on the components by first member. */
  method SortComponents(ghost tables: Tables, ghost selected: seq<TableId>, ghost g: Adjacency, sccs: seq<seq<TableId>>)
    returns (r: seq<seq<TableId>>)
    requires IsSafetyGraph(tables, selected, g) && IsSccPartition(g, sccs)
    ensures ReadyToOrder(tables, selected, g, r)
  {
    PartitionDistinct(g, sccs);
    SortByHeadSorts(sccs);
    r := SortByHead(sccs);
    SortedIsReady(tables, selected, g, sccs, r);
  }

  lemma PartitionDistinct(g: Adjacency, sccs: seq<seq<TableId>>)
    requires AllComponents(g, sccs) && Disjoint(sccs)
    ensures DistinctHeads(sccs)
  {
    hide IsComponent;
    forall i, j | 0 <= i < j < |sccs| ensures sccs[i][0] != sccs[j][0] {
      assert sccs[i][0] in sccs[i] && sccs[j][0] in sccs[j];
    }
  }

  lemma SortedIsReady(tables: Tables, selected: seq<TableId>, g: Adjacency, sccs: seq<seq<TableId>>,
                      r: seq<seq<TableId>>)
    requires IsSafetyGraph(tables, selected, g) && IsSccPartition(g, sccs)
    requires HeadsIncrease(r) && forall c :: c in r <==> c in sccs
    ensures ReadyToOrder(tables, selected, g, r)
  {
    hide IsSafetyGraph; hide Heads; hide IsPlanComponent; hide Class; hide Listed; hide Disjoint;
    hide IsComponent; hide IsCyclicComponent;
    var S := Elements(selected);
    assert forall x :: x in g <==> Listed(sccs, x);
    SamePartition(sccs, r);
    forall i | 0 <= i < |r|
      ensures r[i][0] in Heads(tables, S)
      ensures IsPlanComponent(tables, S, SafetyComponent(r[i], IsCyclicComponent(g, r[i])))
    {
      assert r[i] in sccs;
      ComponentHead(tables, selected, g, r[i]);
    }
    forall h | h in Heads(tables, S) ensures exists i :: 0 <= i < |r| && r[i][0] == h {
      var c := ListedHead(tables, selected, g, sccs, h);
      var i :| 0 <= i < |r| && r[i] == c;
    }
  }

  lemma ListedHead(tables: Tables, selected: seq<TableId>, g: Adjacency, sccs: seq<seq<TableId>>, h: TableId)
    returns (c: seq<TableId>)
    requires IsSafetyGraph(tables, selected, g) && IsSccPartition(g, sccs) && h in Heads(tables, Elements(selected))
    ensures c in sccs && c != [] && c[0] == h
  {
    hide IsSafetyGraph; hide Heads; hide Class; hide Disjoint; hide IsComponent; hide SafetyEdges;
    HeadInGraph(tables, selected, g, h);
    assert Listed(sccs, h);
    var k :| 0 <= k < |sccs| && h in sccs[k];
    c := sccs[k];
    ComponentHead(tables, selected, g, c);
    assert h in Elements(c);
    SameClassSameHead(tables, Elements(selected), c[0], h, h);
  }

  lemma ComponentHead(tables: Tables, selected: seq<TableId>, g: Adjacency, c: seq<TableId>)
    requires IsSafetyGraph(tables, selected, g) && c != [] && c[0] in g && IsComponent(g, c[0], c)
    ensures c[0] in Heads(tables, Elements(selected)) && Elements(c) == Class(tables, Elements(selected), c[0])
    ensures IsPlanComponent(tables, Elements(selected), SafetyComponent(c, IsCyclicComponent(g, c)))
  {
    SccIsPlanComponent(tables, selected, g, c);
    hide Class; hide OnCycle; hide SccOf;
    forall y | y in Elements(c) ensures y == c[0] || Less(c[0], y) {
      var k :| 0 <= k < |c| && c[k] == y;
      Total(c[0], y);
    }
    assert c[0] in Elements(c);
    ClassInside(tables, Elements(selected), c[0]);
  }

  lemma ClassInside(tables: Tables, S: set<TableId>, x: TableId)
    ensures Class(tables, S, x) <= S
  {
  }

  lemma HeadInGraph(tables: Tables, selected: seq<TableId>, g: Adjacency, h: TableId)
    requires IsSafetyGraph(tables, selected, g) && h in Heads(tables, Elements(selected))
    ensures h in g && h in Class(tables, Elements(selected), h)
  {
    ReachRefl(SafetyEdges(tables, Elements(selected)), {}, h);
  }

  lemma SamePartition(sccs: seq<seq<TableId>>, r: seq<seq<TableId>>)
    requires Disjoint(sccs) && HeadsIncrease(r) && forall c :: c in r <==> c in sccs
    ensures Disjoint(r) && forall x :: Listed(r, x) <==> Listed(sccs, x)
  {
    forall i, j, x | 0 <= i < |r| && 0 <= j < |r| && x in r[i] && x in r[j] ensures i == j {
      assert r[i] in sccs && r[j] in sccs;
      var k :| 0 <= k < |sccs| && sccs[k] == r[i];
      var l :| 0 <= l < |sccs| && sccs[l] == r[j];
      if i != j {
        HeadsDiffer(r, i, j);
      }
    }
    hide HeadsIncrease; hide Disjoint;
    forall x ensures Listed(r, x) <==> Listed(sccs, x) {
      if k :| 0 <= k < |sccs| && x in sccs[k] {
        assert sccs[k] in r;
      }
      if i :| 0 <= i < |r| && x in r[i] {
        assert r[i] in sccs;
      }
    }
  }

  ghost predicate IsComponentOf(sccs: seq<seq<TableId>>, m: map<TableId, int>) {
    && (forall i, x :: 0 <= i < |sccs| && x in sccs[i] ==> x in m && m[x] == i)
    && (forall x :: x in m ==> 0 <= m[x] < |sccs| && x in sccs[m[x]])
  }

  method BuildComponentOf(sccs: seq<seq<TableId>>) returns (m: map<TableId, int>)
    requires Disjoint(sccs)
    ensures IsComponentOf(sccs, m)
  {
    m := map[];
    var i := 0;
    while i < |sccs|
      invariant i <= |sccs|
      invariant forall k, x :: 0 <= k < i && x in sccs[k] ==> x in m && m[x] == k
      invariant forall x :: x in m ==> 0 <= m[x] < i && x in sccs[m[x]]
    {
      m := SetAll(m, sccs[i], i);
      i := i + 1;
    }
  }

  method SetAll(m: map<TableId, int>, ids: seq<TableId>, i: int) returns (r: map<TableId, int>)
    ensures forall x :: x in r <==> x in m || x in ids
    ensures forall x :: x in r ==> r[x] == if x in ids then i else m[x]
  {
    r := m;
    var k := 0;
    while k < |ids|
      invariant k <= |ids|
      invariant forall x :: x in r <==> x in m || x in ids[..k]
      invariant forall x :: x in r ==> r[x] == if x in ids[..k] then i else m[x]
    {
      r := r[ids[k] := i];
      k := k + 1;
    }
    assert ids[..k] == ids;
  }

  // ---- Building the index graph from the safety graph ----

  /** The index pairs of the table edges in `done`, prerequisite first, loops dropped. */
  ghost function Condensed(m: map<TableId, int>, done: set<(TableId, TableId)>): Edges {
    set e | e in done && e.0 in m && e.1 in m && m[e.0] != m[e.1] :: (m[e.1], m[e.0])
  }

  ghost function Star(u: TableId, vs: set<TableId>): set<(TableId, TableId)> {
    set v | v in vs :: (u, v)
  }

  lemma CondensedStep(m: map<TableId, int>, done: set<(TableId, TableId)>, u: TableId, v: TableId)
    requires u in m && v in m
    ensures Condensed(m, done + {(u, v)}) == Condensed(m, done) + if m[v] != m[u] then {(m[v], m[u])} else {}
  {
    var A, B := Condensed(m, done + {(u, v)}), Condensed(m, done) + if m[v] != m[u] then {(m[v], m[u])} else {};
    forall e | e in B ensures e in A {
      if e in Condensed(m, done) {
        var d :| d in done && d.0 in m && d.1 in m && m[d.0] != m[d.1] && e == (m[d.1], m[d.0]);
        assert d in done + {(u, v)};
      } else {
        assert (u, v) in done + {(u, v)};
        assert e == (m[(u, v).1], m[(u, v).0]);
      }
    }
  }

  method AddParents(g: IndexGraph, m: map<TableId, int>, u: TableId, vs: seq<TableId>,
                    ghost done: set<(TableId, TableId)>)
    requires g.Valid(Indices(g.children.Length)) && KidEdges(g.children[..]) == Condensed(m, done)
    requires u in m && forall i :: 0 <= i < |vs| ==> vs[i] in m
    requires forall x :: x in m ==> 0 <= m[x] < g.children.Length
    modifies g.indegree, g.children
    ensures g.Valid(Indices(g.children.Length))
      && KidEdges(g.children[..]) == Condensed(m, done + Star(u, Elements(vs)))
  {
    hide IndexGraph.Valid;
    var i := 0;
    assert done + Star(u, Elements(vs[..i])) == done;
    while i < |vs|
      invariant i <= |vs| && g.Valid(Indices(g.children.Length))
      invariant KidEdges(g.children[..]) == Condensed(m, done + Star(u, Elements(vs[..i])))
    {
      ghost var sofar := done + Star(u, Elements(vs[..i]));
      CondensedStep(m, sofar, u, vs[i]);
      g.AddEdge(m[vs[i]], m[u]);
      assert Elements(vs[..i + 1]) == Elements(vs[..i]) + {vs[i]};
      assert done + Star(u, Elements(vs[..i + 1])) == sofar + {(u, vs[i])};
      i := i + 1;
    }
    assert vs[..i] == vs;
  }

  method BuildIndexGraph(graph: Adjacency, n: nat, m: map<TableId, int>) returns (g: IndexGraph)
    requires Closed(graph) && graph.Keys == m.Keys && forall x :: x in m ==> 0 <= m[x] < n
    ensures fresh(g) && fresh(g.indegree) && fresh(g.children) && g.children.Length == n && g.indegree.Length == n
    ensures g.Valid(Indices(n)) && KidEdges(g.children[..]) == Condensed(m, EdgesOf(graph))
  {
    g := new IndexGraph(n);
    hide IndexGraph.Valid;
    var todo := graph.Keys;
    ghost var done := {};
    assert Condensed(m, done) == {};
    while todo != {}
      invariant todo <= graph.Keys && g.Valid(Indices(n)) && g.indegree.Length == n && g.children.Length == n
      invariant fresh(g) && fresh(g.indegree) && fresh(g.children)
      invariant KidEdges(g.children[..]) == Condensed(m, done)
      invariant forall e :: e in done <==> e in EdgesOf(graph) && e.0 !in todo
    {
      var u :| u in todo;
      todo := todo - {u};
      AddParents(g, m, u, graph[u], done);
      StarEdges(graph, u);
      done := done + Star(u, Elements(graph[u]));
    }
    assert done == EdgesOf(graph);
  }

  lemma StarEdges(graph: Adjacency, u: TableId)
    requires u in graph
    ensures forall e :: e in Star(u, Elements(graph[u])) <==> e in EdgesOf(graph) && e.0 == u
  {
    forall e ensures e in Star(u, Elements(graph[u])) <==> e in EdgesOf(graph) && e.0 == u {
      assert e == (e.0, e.1);
    }
  }

  /** Every component of the ordered list is the class of its head. */
  lemma SccsAreClasses(tables: Tables, selected: seq<TableId>, g: Adjacency, sccs: seq<seq<TableId>>)
    requires IsSafetyGraph(tables, selected, g) && ReadyToOrder(tables, selected, g, sccs)
    ensures forall i :: 0 <= i < |sccs| ==>
      sccs[i] != [] && Elements(sccs[i]) == Class(tables, Elements(selected), sccs[i][0])
  {
    hide Class; hide SafetyEdges; hide Disjoint; hide Heads; hide EdgesOf;
  }

  /** The arrays hold exactly the condensation's edges. */
  lemma CondensedIsIndexEdges(tables: Tables, selected: seq<TableId>, g: Adjacency, sccs: seq<seq<TableId>>,
                              m: map<TableId, int>)
    requires IsSafetyGraph(tables, selected, g) && ReadyToOrder(tables, selected, g, sccs) && IsComponentOf(sccs, m)
    ensures Condensed(m, EdgesOf(g)) == IndexEdges(tables, Elements(selected), sccs)
  {
    var S := Elements(selected);
    var E := SafetyEdges(tables, S);
    SccsAreClasses(tables, selected, g, sccs);
    hide Class; hide SafetyEdges; hide IsPlanComponent; hide Disjoint; hide Heads; hide EdgesOf;
    forall p, c | (p, c) in Condensed(m, E) ensures (p, c) in IndexEdges(tables, S, sccs) {
      CondensedIndexEdge(tables, S, sccs, m, p, c);
    }
    forall p, c | (p, c) in IndexEdges(tables, S, sccs) ensures (p, c) in Condensed(m, E) {
      IndexEdgeCondensed(tables, S, sccs, m, p, c);
    }
    hide IndexEdges; hide Condensed;
    assert forall pc: (int, int) :: pc == (pc.0, pc.1);
  }

  lemma CondensedIndexEdge(tables: Tables, S: set<TableId>, sccs: seq<seq<TableId>>, m: map<TableId, int>, p: int,
                           c: int)
    requires IsHeadOrder(tables, S, sccs)
    requires forall i :: 0 <= i < |sccs| ==> sccs[i] != [] && Elements(sccs[i]) == Class(tables, S, sccs[i][0])
    requires IsComponentOf(sccs, m) && (p, c) in Condensed(m, SafetyEdges(tables, S))
    ensures (p, c) in IndexEdges(tables, S, sccs)
  {
    hide Class; hide SafetyEdges; hide Heads;
    var e :| e in SafetyEdges(tables, S) && e.0 in m && e.1 in m && m[e.0] != m[e.1] && (p, c) == (m[e.1], m[e.0]);
    assert e.0 in Elements(sccs[c]) && e.1 in Elements(sccs[p]);
    assert (e.0, e.1) in SafetyEdges(tables, S);
    assert ClassNeeds(tables, S, sccs[p][0], sccs[c][0]);
    HeadsDiffer(sccs, p, c);
  }

  lemma IndexEdgeCondensed(tables: Tables, S: set<TableId>, sccs: seq<seq<TableId>>, m: map<TableId, int>, p: int,
                           c: int)
    requires forall i :: 0 <= i < |sccs| ==> sccs[i] != [] && Elements(sccs[i]) == Class(tables, S, sccs[i][0])
    requires IsComponentOf(sccs, m) && (p, c) in IndexEdges(tables, S, sccs)
    ensures (p, c) in Condensed(m, SafetyEdges(tables, S))
  {
    hide Class; hide SafetyEdges; hide Heads;
    var E := SafetyEdges(tables, S);
    var u, v :| u in Class(tables, S, sccs[c][0]) && v in Class(tables, S, sccs[p][0]) && (u, v) in E;
    assert u in Elements(sccs[c]) && v in Elements(sccs[p]);
    assert p != c;
    assert (u, v).0 in m && (u, v).1 in m && m[(u, v).0] == c && m[(u, v).1] == p;
  }

  lemma HeadsDiffer(sccs: seq<seq<TableId>>, i: int, j: int)
    requires HeadsIncrease(sccs) && 0 <= i < |sccs| && 0 <= j < |sccs| && i != j
    ensures sccs[i][0] != sccs[j][0]
    ensures Less(sccs[i][0], sccs[j][0]) <==> i < j
  {
    Total(sccs[i][0], sccs[j][0]);
  }

  // ---- The emission loop ----

  ghost predicate EmittedSoFar(sccs: seq<seq<TableId>>, graph: Adjacency, order: seq<int>,
                               ordered: seq<SafetyComponent>) {
    && |ordered| == |order|
    && (forall k :: 0 <= k < |order| ==> 0 <= order[k] < |sccs|)
    && forall k :: 0 <= k < |order| ==>
      ordered[k] == SafetyComponent(sccs[order[k]], IsCyclicComponent(graph, sccs[order[k]]))
  }

  /** Nothing that waits is a prerequisite of something already emitted. */
  ghost predicate Successors(E: Edges, rem: set<int>) {
    forall e :: e in E && e.0 in rem ==> e.1 in rem
  }

  lemma SomeRemain(order: seq<int>, n: nat)
    requires NoDup(order) && |order| < n
    ensures Indices(n) - Elements(order) != {}
  {
    NoDupLength(order);
    if Indices(n) - Elements(order) == {} {
      Subset(Indices(n), Elements(order));
    }
  }

  lemma PickIsReady(tables: Tables, S: set<TableId>, sccs: seq<seq<TableId>>, ind: seq<int>, order: seq<int>, pick: int)
    requires forall i :: 0 <= i < |sccs| ==> sccs[i] != []
    requires |ind| == |sccs| && |order| < |sccs| && NoDup(order)
    requires IndexCounts(ind, IndexEdges(tables, S, sccs), Indices(|sccs|) - Elements(order))
    requires pick == -1 ==> forall k :: 0 <= k < |ind| ==> ind[k] != 0
    requires pick != -1 ==> 0 <= pick < |ind| && ind[pick] == 0 && forall k :: 0 <= k < pick ==> ind[k] != 0
    ensures pick != -1 && pick in Indices(|sccs|) - Elements(order)
    ensures GreedyPick(IndexEdges(tables, S, sccs), Indices(|sccs|), IntLess, order, pick)
  {
    var I, rem := IndexEdges(tables, S, sccs), Indices(|sccs|) - Elements(order);
    assert forall e :: e in I ==> e.0 in Indices(|sccs|);
    SomeRemain(order, |sccs|);
    hide IndexEdges; hide Indices; hide NoDup;
    var c := SomeReady(tables, S, sccs, rem);
    assert ind[c] == 0;
    FirstZeroIsGreedy(I, ind, order, pick);
  }

  lemma FirstZeroIsGreedy(E: Edges, ind: seq<int>, order: seq<int>, pick: int)
    requires IndexCounts(ind, E, Indices(|ind|) - Elements(order))
    requires forall e :: e in E ==> e.0 in Indices(|ind|)
    requires 0 <= pick < |ind| && ind[pick] == 0 && forall k :: 0 <= k < pick ==> ind[k] != 0
    ensures pick in Indices(|ind|) - Elements(order) && GreedyPick(E, Indices(|ind|), IntLess, order, pick)
  {
    hide Indices;
    var rem := Indices(|ind|) - Elements(order);
    NoParentLeft(E, pick, rem);
    forall p | (p, pick) in E ensures p in order {
      assert (p, pick).0 in Indices(|ind|);
    }
    forall y | y in Indices(|ind|) && y !in order && Free(E, order, y) ensures y == pick || IntLess(pick, y) {
      NoParentLeft(E, y, rem);
      assert ind[y] == 0;
    }
  }

  lemma SuccessorsShrink(E: Edges, ind: seq<int>, rem: set<int>, pick: int)
    requires Successors(E, rem) && IndexCounts(ind, E, rem) && 0 <= pick < |ind| && pick in rem && ind[pick] == 0
    ensures Successors(E, rem - {pick})
  {
    NoParentLeft(E, pick, rem);
    forall e | e in E && e.0 in rem - {pick} ensures e.1 in rem - {pick} {
      assert (e.0, e.1) in E;
    }
  }

  method EmitComponents(ghost tables: Tables, ghost S: set<TableId>, graph: Adjacency, sccs: seq<seq<TableId>>,
                        g: IndexGraph)
    returns (ordered: seq<SafetyComponent>, ghost order: seq<int>)
    requires forall i :: 0 <= i < |sccs| ==> sccs[i] != []
    requires g.children.Length == |sccs| && g.Valid(Indices(|sccs|))
      && KidEdges(g.children[..]) == IndexEdges(tables, S, sccs)
    modifies g.indegree
    ensures EmittedSoFar(sccs, graph, order, ordered)
    ensures Greedy(IndexEdges(tables, S, sccs), Indices(|sccs|), IntLess, order)
  {
    hide IndexGraph.Valid; hide Greedy; hide KidEdges;
    ghost var I, all := IndexEdges(tables, S, sccs), Indices(|sccs|);
    ordered, order := [], [];
    assert EmittedSoFar(sccs, graph, order, ordered);
    assert all - Elements(order) == all;
    AllSucceed(tables, S, sccs);
    hide GreedyPick; hide GreedyPicks; hide IndexEdges; hide IndexCounts; hide KidsOk; hide NoDup;
    hide Indices; hide IsCyclicComponent; hide Successors; hide EmittedSoFar;
    while |ordered| < |sccs|
      invariant |ordered| == |order| <= |sccs| && EmittedSoFar(sccs, graph, order, ordered)
      invariant NoDup(order) && GreedyPicks(I, all, IntLess, order)
      invariant KidEdges(g.children[..]) == I && Successors(I, all - Elements(order))
      invariant g.Valid(all - Elements(order))
    {
      var pick := EmitNext(tables, S, sccs, g, order);
      NoDupAppend(order, pick);
      GreedyExtend(I, all, IntLess, order, pick);
      EmittedMore(sccs, graph, order, ordered, pick);
      ordered := ordered + [SafetyComponent(sccs[pick], IsCyclicComponent(graph, sccs[pick]))];
      order := order + [pick];
    }
    EmittedRange(sccs, graph, order, ordered);
    OrderIsComplete(order, |sccs|);
    IsGreedy(I, all, order);
  }

  lemma IsGreedy(E: Edges, all: set<int>, order: seq<int>)
    requires Lists(all, order) && GreedyPicks(E, all, IntLess, order)
    ensures Greedy(E, all, IntLess, order)
  {
    hide GreedyPicks; hide Lists;
  }

  lemma AllSucceed(tables: Tables, S: set<TableId>, sccs: seq<seq<TableId>>)
    requires forall i :: 0 <= i < |sccs| ==> sccs[i] != []
    ensures Successors(IndexEdges(tables, S, sccs), Indices(|sccs|))
  {
  }

  lemma EmittedMore(sccs: seq<seq<TableId>>, graph: Adjacency, order: seq<int>, ordered: seq<SafetyComponent>,
                    pick: int)
    requires EmittedSoFar(sccs, graph, order, ordered) && 0 <= pick < |sccs|
    ensures EmittedSoFar(sccs, graph, order + [pick],
      ordered + [SafetyComponent(sccs[pick], IsCyclicComponent(graph, sccs[pick]))])
  {
  }

  lemma EmittedRange(sccs: seq<seq<TableId>>, graph: Adjacency, order: seq<int>, ordered: seq<SafetyComponent>)
    requires EmittedSoFar(sccs, graph, order, ordered)
    ensures forall k :: 0 <= k < |order| ==> 0 <= order[k] < |sccs|
  {
  }

  /** One round: the first component whose count is zero. An index of -1 would mean a cycle in the
      condensation; it never occurs. */
  method EmitNext(ghost tables: Tables, ghost S: set<TableId>, ghost sccs: seq<seq<TableId>>, g: IndexGraph,
                  ghost order: seq<int>)
    returns (pick: int)
    requires (forall i :: 0 <= i < |sccs| ==> sccs[i] != []) && |order| < |sccs| && NoDup(order)
    requires g.children.Length == |sccs| && g.Valid(Indices(|sccs|) - Elements(order))
    requires KidEdges(g.children[..]) == IndexEdges(tables, S, sccs)
    requires Successors(IndexEdges(tables, S, sccs), Indices(|sccs|) - Elements(order))
    modifies g.indegree
    ensures 0 <= pick < |sccs| && pick !in order
    ensures GreedyPick(IndexEdges(tables, S, sccs), Indices(|sccs|), IntLess, order, pick)
    ensures g.Valid(Indices(|sccs|) - Elements(order + [pick]))
    ensures Successors(IndexEdges(tables, S, sccs), Indices(|sccs|) - Elements(order + [pick]))
  {
    hide GreedyPick; hide IndexEdges; hide IndexCounts; hide KidsOk; hide NoDup; hide Indices;
    ghost var rem := Indices(|sccs|) - Elements(order);
    pick := g.IndexOf(0);
    PickIsReady(tables, S, sccs, g.indegree[..], order, pick);
    SuccessorsShrink(IndexEdges(tables, S, sccs), g.indegree[..], rem, pick);
    g.Emit(pick, rem);
    assert Elements(order + [pick]) == Elements(order) + {pick};
    assert rem - {pick} == Indices(|sccs|) - Elements(order + [pick]);
  }

  lemma OrderIsComplete(order: seq<int>, n: nat)
    requires NoDup(order) && |order| == n && forall k :: 0 <= k < n ==> 0 <= order[k] < n
    ensures Lists(Indices(n), order)
  {
    NoDupLength(order);
    if x :| x in Indices(n) && x !in order {
      assert Elements(order) <= Indices(n) - {x};
      Subset(Elements(order), Indices(n) - {x});
    }
  }

  /** Greedy over indices is greedy over heads, because heads increase with the index. */
  lemma GreedyTransfers(tables: Tables, S: set<TableId>, sccs: seq<seq<TableId>>, order: seq<int>, o: seq<TableId>)
    requires IsHeadOrder(tables, S, sccs) && HeadsAlong(sccs, order, o)
    requires Greedy(IndexEdges(tables, S, sccs), Indices(|sccs|), IntLess, order)
    ensures Greedy(HeadEdges(tables, S), Heads(tables, S), Less, o)
  {
    ListsTransfers(tables, S, sccs, order, o);
    hide HeadEdges; hide IndexEdges; hide Heads; hide GreedyPick; hide Indices; hide Lists;
    forall k | 0 <= k < |o| ensures GreedyPick(HeadEdges(tables, S), Heads(tables, S), Less, o[..k], o[k]) {
      PickTransfers(tables, S, sccs, order, o, k);
    }
  }

  lemma ListsTransfers(tables: Tables, S: set<TableId>, sccs: seq<seq<TableId>>, order: seq<int>, o: seq<TableId>)
    requires IsHeadOrder(tables, S, sccs) && HeadsAlong(sccs, order, o) && Lists(Indices(|sccs|), order)
    ensures Lists(Heads(tables, S), o)
  {
    hide Heads; hide Indices;
    forall i, j | 0 <= i < j < |o| ensures o[i] != o[j] {
      HeadsDiffer(sccs, order[i], order[j]);
    }
    forall x ensures x in Heads(tables, S) <==> x in o {
      if x in Heads(tables, S) {
        var i :| 0 <= i < |sccs| && sccs[i][0] == x;
        assert i in Indices(|sccs|);
        var k :| 0 <= k < |order| && order[k] == i;
        assert o[k] == x;
      }
    }
  }

  lemma PickTransfers(tables: Tables, S: set<TableId>, sccs: seq<seq<TableId>>, order: seq<int>, o: seq<TableId>,
                      k: nat)
    requires IsHeadOrder(tables, S, sccs) && HeadsAlong(sccs, order, o) && k < |order|
    requires GreedyPick(IndexEdges(tables, S, sccs), Indices(|sccs|), IntLess, order[..k], order[k])
    ensures GreedyPick(HeadEdges(tables, S), Heads(tables, S), Less, o[..k], o[k])
  {
    var E, H := HeadEdges(tables, S), Heads(tables, S);
    hide HeadEdges; hide IndexEdges; hide Heads; hide Free; hide Indices;
    FreeTransfers(tables, S, sccs, order, o, k, order[k]);
    forall y | y in H && y !in o[..k] && Free(E, o[..k], y) ensures y == o[k] || Less(o[k], y) {
      var i :| 0 <= i < |sccs| && sccs[i][0] == y;
      PrefixTransfers(sccs, order, o, k, i);
      FreeTransfers(tables, S, sccs, order, o, k, i);
      if i != order[k] {
        HeadsDiffer(sccs, order[k], i);
      }
    }
  }

  lemma PrefixTransfers(sccs: seq<seq<TableId>>, order: seq<int>, o: seq<TableId>, k: nat, p: int)
    requires HeadsIncrease(sccs) && HeadsAlong(sccs, order, o) && k < |order| && 0 <= p < |sccs|
    ensures p in order[..k] <==> sccs[p][0] in o[..k]
  {
    if j :| 0 <= j < k && order[..k][j] == p {
      assert o[..k][j] == sccs[p][0];
    }
    if j :| 0 <= j < k && o[..k][j] == sccs[p][0] {
      if order[j] != p {
        HeadsDiffer(sccs, order[j], p);
      }
      assert order[..k][j] == p;
    }
  }

  lemma FreeTransfers(tables: Tables, S: set<TableId>, sccs: seq<seq<TableId>>, order: seq<int>, o: seq<TableId>,
                      k: nat, c: int)
    requires IsHeadOrder(tables, S, sccs) && HeadsAlong(sccs, order, o) && k < |order| && 0 <= c < |sccs|
    ensures Free(IndexEdges(tables, S, sccs), order[..k], c) <==> Free(HeadEdges(tables, S), o[..k], sccs[c][0])
  {
    var E, I := HeadEdges(tables, S), IndexEdges(tables, S, sccs);
    assert forall e :: e in E ==> e.0 in Heads(tables, S);
    assert forall p :: 0 <= p < |sccs| ==> ((p, c) in I <==> (sccs[p][0], sccs[c][0]) in E);
    assert forall e :: e in I ==> 0 <= e.0 < |sccs|;
    hide HeadEdges; hide IndexEdges; hide Heads; hide HeadsIncrease;
    forall p | 0 <= p < |sccs| ensures p in order[..k] <==> sccs[p][0] in o[..k] {
      PrefixTransfers(sccs, order, o, k, p);
    }
    hide HeadsAlong;
    if Free(I, order[..k], c) {
      forall p | (p, sccs[c][0]) in E ensures p in o[..k] {
        assert (p, sccs[c][0]).0 in Heads(tables, S);
        var i :| 0 <= i < |sccs| && sccs[i][0] == p;
      }
    }
    if Free(E, o[..k], sccs[c][0]) {
      forall p | (p, c) in I ensures p in order[..k] {
        assert 0 <= (p, c).0 < |sccs|;
      }
    }
  }

  lemma ListedInGraph(tables: Tables, selected: seq<TableId>, g: Adjacency, sccs: seq<seq<TableId>>)
    requires IsSafetyGraph(tables, selected, g) && ReadyToOrder(tables, selected, g, sccs)
    ensures forall x :: Listed(sccs, x) <==> x in g
  {
  }

  lemma EmittedIsPlan(tables: Tables, selected: seq<TableId>, g: Adjacency, sccs: seq<seq<TableId>>, order: seq<int>,
                      ordered: seq<SafetyComponent>)
    requires ReadyToOrder(tables, selected, g, sccs) && EmittedSoFar(sccs, g, order, ordered)
    requires Greedy(IndexEdges(tables, Elements(selected), sccs), Indices(|sccs|), IntLess, order)
    ensures IsSafetyPlan(tables, Elements(selected), ordered)
  {
    hide IsPlanComponent; hide Heads; hide HeadEdges; hide IndexEdges; hide Greedy; hide Disjoint; hide Listed;
    hide IsCyclicComponent;
    GreedyTransfers(tables, Elements(selected), sccs, order, PlanHeads(ordered));
  }

  method OrderComponents(ghost tables: Tables, ghost selected: seq<TableId>, graph: Adjacency, sccs: seq<seq<TableId>>)
    returns (ordered: seq<SafetyComponent>)
    requires IsSafetyGraph(tables, selected, graph) && ReadyToOrder(tables, selected, graph, sccs)
    ensures IsSafetyPlan(tables, Elements(selected), ordered)
  {
    ghost var S := Elements(selected);
    hide IsPlanComponent; hide Heads; hide HeadEdges; hide IndexEdges; hide Greedy; hide Condensed;
    hide SafetyEdges; hide EdgesOf; hide IndexGraph.Valid;
    var componentOf := BuildComponentOf(sccs);
    ListedInGraph(tables, selected, graph, sccs);
    hide Disjoint; hide Listed; hide EmittedSoFar; hide IsSafetyPlan;
    var g := BuildIndexGraph(graph, |sccs|, componentOf);
    CondensedIsIndexEdges(tables, selected, graph, sccs, componentOf);
    ghost var order;
    ordered, order := EmitComponents(tables, S, graph, sccs, g);
    EmittedIsPlan(tables, selected, graph, sccs, order, ordered);
  }
}
