/** Safety components: classes of mutual reachability and the order of their condensation. */
module Components {
  import opened TableIds
  import opened Digraph
  import opened Catalog
  import opened Kosaraju

  // ---- The safety graph as the code builds it ----

  /** The edges from id to those members of ps that are selected. */
  ghost function OutEdges(S: set<TableId>, id: TableId, ps: set<TableId>): set<(TableId, TableId)> {
    set p | p in ps && p in S :: (id, p)
  }

  /** The safety edges out of the tables of `done`. */
  ghost function EdgesOut(tables: Tables, S: set<TableId>, done: set<TableId>): set<(TableId, TableId)> {
    set e | e in SafetyEdges(tables, S) && e.0 in done
  }

  lemma OutEdgesStep(S: set<TableId>, id: TableId, ps: set<TableId>, p: TableId)
    ensures OutEdges(S, id, ps + {p}) == OutEdges(S, id, ps) + if p in S then {(id, p)} else {}
  {
    forall e ensures e in OutEdges(S, id, ps + {p}) <==> e in OutEdges(S, id, ps) + if p in S then {(id, p)} else {} {
      assert e == (e.0, e.1);
    }
  }

  lemma EdgesOutStep(tables: Tables, S: set<TableId>, done: set<TableId>, id: TableId, ps: set<TableId>)
    requires id in S
    requires forall p :: p in ps <==> id in tables && IsPrerequisite(tables[id], p)
    ensures EdgesOut(tables, S, done + {id}) == EdgesOut(tables, S, done) + OutEdges(S, id, ps)
  {
    forall e ensures e in EdgesOut(tables, S, done + {id}) <==> e in EdgesOut(tables, S, done) + OutEdges(S, id, ps) {
      assert e == (e.0, e.1);
    }
  }

  /** The finished safety graph: the right nodes and edges, every list in catalog order. */
  ghost predicate IsSafetyGraph(tables: Tables, selected: seq<TableId>, g: Adjacency) {
    && NodesOf(g, selected) && Closed(g)
    && EdgesOf(g) == SafetyEdges(tables, Elements(selected))
    && forall u :: u in g ==> Sorted(g[u]) && NoDup(g[u])
  }

  lemma SafetyGraphShape(tables: Tables, selected: seq<TableId>, g: Adjacency)
    requires IsSafetyGraph(tables, selected, g)
    ensures NodesOf(g, selected) && Closed(g)
  {
  }

  /** The graph, list order included, depends only on the catalog and the selected set. */
  lemma SafetyGraphUnique(tables: Tables, a: seq<TableId>, b: seq<TableId>, g: Adjacency, h: Adjacency)
    requires Elements(a) == Elements(b)
    requires IsSafetyGraph(tables, a, g) && IsSafetyGraph(tables, b, h)
    ensures g == h
  {
    forall x ensures x in g <==> x in h {
      assert x in a <==> x in Elements(a);
      assert x in b <==> x in Elements(b);
    }
    forall u | u in g ensures g[u] == h[u] {
      forall v ensures v in Elements(g[u]) <==> v in Elements(h[u]) {
        assert v in g[u] <==> (u, v) in EdgesOf(g);
        assert v in h[u] <==> (u, v) in EdgesOf(h);
      }
      NoDupMultiset(g[u], h[u]);
      SortUnique(g[u], h[u]);
    }
  }

  /** Permuting the selection changes neither the graph nor the list of components, whatever order
      the graph's own maps are filled in. */
  lemma SccListOfSelection(tables: Tables, a: seq<TableId>, b: seq<TableId>, g: Adjacency, h: Adjacency,
                           s: seq<seq<TableId>>, t: seq<seq<TableId>>)
    requires multiset(a) == multiset(b) && IsSafetyGraph(tables, a, g) && IsSafetyGraph(tables, b, h)
    requires IsSccList(g, a, s) && IsSccList(h, b, t)
    ensures g == h && s == t
  {
    hide IsSafetyGraph; hide IsSccList;
    SameElements(a, b);
    assert Elements(a) == Elements(b);
    SafetyGraphUnique(tables, a, b, g, h);
    SafetyGraphShape(tables, a, g);
    SafetyGraphShape(tables, b, h);
    SccListPermutation(g, a, b, s, t);
  }

  ghost predicate NoParallel(g: Adjacency) {
    forall p :: p in g ==> NoDup(g[p])
  }

  /** slices.SortFunc on every list; the keys are distinct, so their order does not matter. */
  method SortLists(g: Adjacency) returns (r: Adjacency)
    requires NoParallel(g)
    ensures r.Keys == g.Keys && EdgesOf(r) == EdgesOf(g)
    ensures forall u :: u in r ==> Sorted(r[u]) && NoDup(r[u])
  {
    r := map u | u in g :: SortIds(g[u]);
    forall u | u in g
      ensures Sorted(r[u]) && NoDup(r[u]) && forall v :: v in r[u] <==> v in g[u]
    {
      SortIdsSorts(g[u]);
      SortIdsElements(g[u]);
      NoDupCounts(g[u]);
      NoDupFromCounts(r[u]);
    }
    forall e ensures e in EdgesOf(r) <==> e in EdgesOf(g) {
      assert e == (e.0, e.1);
    }
  }

  lemma SafetyGraphDone(tables: Tables, selected: seq<TableId>, g: Adjacency)
    requires g.Keys == Elements(selected)
    requires EdgesOf(g) == EdgesOut(tables, Elements(selected), Elements(selected))
    requires forall u :: u in g ==> Sorted(g[u]) && NoDup(g[u])
    ensures IsSafetyGraph(tables, selected, g)
  {
    assert EdgesOf(g) == SafetyEdges(tables, Elements(selected));
    forall u, i | u in g && 0 <= i < |g[u]| ensures g[u][i] in g {
      assert (u, g[u][i]) in EdgesOf(g);
    }
  }

  /** What the search calls a component is a class of the safety graph. */
  lemma SccIsPlanComponent(tables: Tables, selected: seq<TableId>, g: Adjacency, comp: seq<TableId>)
    requires IsSafetyGraph(tables, selected, g)
    requires comp != [] && comp[0] in g && IsComponent(g, comp[0], comp)
    ensures IsPlanComponent(tables, Elements(selected), SafetyComponent(comp, IsCyclicComponent(g, comp)))
    ensures forall x :: x in comp ==> (IsCyclicComponent(g, comp) <==>
      OnCycle(SafetyEdges(tables, Elements(selected)), x))
  {
    var S := Elements(selected);
    forall x ensures x in g <==> x in S {}
    assert SccOf(g, comp[0]) == Class(tables, S, comp[0]);
    CyclicMeansOnCycle(g, comp, comp[0]);
    forall x | x in comp ensures IsCyclicComponent(g, comp) <==> OnCycle(SafetyEdges(tables, S), x) {
      assert x in Elements(comp);
      TwinsShare(g, comp[0], x);
      CyclicMeansOnCycle(g, comp, x);
    }
  }

  // ---- Cyclic components ----

  predicate IsCyclicComponent(g: Adjacency, comp: seq<TableId>) {
    |comp| > 1 || (|comp| == 1 && comp[0] in g && comp[0] in g[comp[0]])
  }

  /** A component is flagged cyclic exactly when its members lie on a cycle, self edges included. */
  lemma CyclicMeansOnCycle(g: Adjacency, comp: seq<TableId>, x: TableId)
    requires Closed(g) && x in comp && x in g && IsComponent(g, x, comp)
    ensures IsCyclicComponent(g, comp) <==> OnCycle(EdgesOf(g), x)
  {
    var E := EdgesOf(g);
    assert forall y :: y in comp <==> y in Elements(comp);
    if |comp| > 1 {
      var y := if comp[0] == x then comp[1] else comp[0];
      assert y in comp && y != x;
      var c := ReachFirst(E, {}, x, y);
      ReachTrans(E, {}, c, y, x);
    } else {
      assert comp == [x];
      if x in g[x] {
        ReachRefl(E, {}, x);
        assert (x, x) in E && Reach(E, x, x);
      }
      if OnCycle(E, x) {
        var c :| (x, c) in E && Reach(E, c, x);
        ReachEdge(E, {}, x, c);
        assert Mutual(E, x, c);
        assert c in SccOf(g, x);
      }
    }
  }

  // ---- The condensation, named by the least member of each class ----

  ghost function Class(tables: Tables, S: set<TableId>, x: TableId): set<TableId> {
    set y | y in S && Mutual(SafetyEdges(tables, S), x, y)
  }

  ghost function Heads(tables: Tables, S: set<TableId>): set<TableId> {
    set x | x in S && IsLeast(Class(tables, S, x), x)
  }

  /** Some table of c's class has a prerequisite in p's class. */
  ghost predicate ClassNeeds(tables: Tables, S: set<TableId>, p: TableId, c: TableId) {
    exists u, v :: u in Class(tables, S, c) && v in Class(tables, S, p) && (u, v) in SafetyEdges(tables, S)
  }

  ghost function HeadEdges(tables: Tables, S: set<TableId>): set<(TableId, TableId)> {
    set p, c | p in Heads(tables, S) && c in Heads(tables, S) && p != c && ClassNeeds(tables, S, p, c) :: (p, c)
  }

  /** Following condensation edges forwards is following safety edges backwards. */
  lemma {:induction false} HeadWalk(tables: Tables, S: set<TableId>, w: seq<TableId>, p: TableId, c: TableId)
    requires Walk(HeadEdges(tables, S), {}, w, p, c)
    ensures Reach(SafetyEdges(tables, S), c, p)
    decreases |w|
  {
    var E := SafetyEdges(tables, S);
    if |w| == 1 {
      ReachRefl(E, {}, p);
    } else {
      var n := |w| - 1;
      assert (w[n - 1], w[n]) in HeadEdges(tables, S);
      assert ClassNeeds(tables, S, w[n - 1], c);
      var u, v :| u in Class(tables, S, c) && v in Class(tables, S, w[n - 1]) && (u, v) in E;
      ReachEdge(E, {}, u, v);
      ReachTrans(E, {}, c, u, v);
      ReachTrans(E, {}, c, v, w[n - 1]);
      assert Walk(HeadEdges(tables, S), {}, w[..n], p, w[n - 1]);
      HeadWalk(tables, S, w[..n], p, w[n - 1]);
      ReachTrans(E, {}, c, w[n - 1], p);
    }
  }

  /** The condensation has no cycle. */
  lemma CondensationAcyclic(tables: Tables, S: set<TableId>, p: TableId)
    ensures !OnCycle(HeadEdges(tables, S), p)
  {
    var H, E := HeadEdges(tables, S), SafetyEdges(tables, S);
    if OnCycle(H, p) {
      var c :| (p, c) in H && Reach(H, c, p);
      var w :| Walk(H, {}, w, c, p);
      HeadWalk(tables, S, w, c, p);
      assert Walk(H, {}, [p, c], p, c);
      HeadWalk(tables, S, [p, c], p, c);
      assert c in Class(tables, S, p) && p in Class(tables, S, c);
      Total(p, c);
      assert false;
    }
  }

  // ---- The plan ----

  datatype SafetyComponent = SafetyComponent(tables: seq<TableId>, cyclic: bool)

  ghost predicate IsPlanComponent(tables: Tables, S: set<TableId>, comp: SafetyComponent) {
    && comp.tables != [] && Sorted(comp.tables) && NoDup(comp.tables)
    && Elements(comp.tables) == Class(tables, S, comp.tables[0])
    && (comp.cyclic <==> OnCycle(SafetyEdges(tables, S), comp.tables[0]))
  }

  lemma CyclicHead(tables: Tables, S: set<TableId>, comp: seq<TableId>)
    requires IsPlanComponent(tables, S, SafetyComponent(comp, true))
    ensures comp[0] in S && OnCycle(SafetyEdges(tables, S), comp[0])
  {
    assert comp[0] in Elements(comp);
  }

  ghost function PlanHeads(plan: seq<SafetyComponent>): seq<TableId>
    requires forall i :: 0 <= i < |plan| ==> plan[i].tables != []
  {
    seq(|plan|, i requires 0 <= i < |plan| => plan[i].tables[0])
  }

  /** Every component is a class with its cyclic flag, and the components come in the least order
      of their heads in which prerequisites' components come first. */
  ghost predicate IsSafetyPlan(tables: Tables, S: set<TableId>, plan: seq<SafetyComponent>) {
    && (forall i :: 0 <= i < |plan| ==> IsPlanComponent(tables, S, plan[i]))
    && Greedy(HeadEdges(tables, S), Heads(tables, S), Less, PlanHeads(plan))
  }

  lemma ClassFacts(tables: Tables, S: set<TableId>, x: TableId, y: TableId)
    requires x in S && y in S && Mutual(SafetyEdges(tables, S), x, y)
    ensures Class(tables, S, x) == Class(tables, S, y)
  {
    var E := SafetyEdges(tables, S);
    forall z ensures z in Class(tables, S, x) <==> z in Class(tables, S, y) {
      if z in Class(tables, S, x) {
        ReachTrans(E, {}, y, x, z);
        ReachTrans(E, {}, z, x, y);
      }
      if z in Class(tables, S, y) {
        ReachTrans(E, {}, x, y, z);
        ReachTrans(E, {}, z, y, x);
      }
    }
  }

  /** Every selected table has a head. */
  lemma HeadOf(tables: Tables, S: set<TableId>, x: TableId) returns (h: TableId)
    requires x in S
    ensures h in Heads(tables, S) && x in Class(tables, S, h) && h in Class(tables, S, x)
  {
    ReachRefl(SafetyEdges(tables, S), {}, x);
    assert x in Class(tables, S, x);
    LeastExists(Class(tables, S, x));
    h :| IsLeast(Class(tables, S, x), h);
    ClassFacts(tables, S, x, h);
  }

  lemma SameClassSameHead(tables: Tables, S: set<TableId>, g: TableId, h: TableId, x: TableId)
    requires g in Heads(tables, S) && h in Heads(tables, S) && x in Class(tables, S, g) && x in Class(tables, S, h)
    ensures g == h
  {
    var E := SafetyEdges(tables, S);
    ReachTrans(E, {}, g, x, h);
    ReachTrans(E, {}, h, x, g);
    assert h in Class(tables, S, g) && g in Class(tables, S, h);
    Total(g, h);
  }

  /** The components together list each selected table once. */
  lemma PlanCoversOnce(tables: Tables, S: set<TableId>, plan: seq<SafetyComponent>, x: TableId)
    requires IsSafetyPlan(tables, S, plan)
    ensures x in S <==> exists i :: 0 <= i < |plan| && x in plan[i].tables
    ensures forall i, j :: 0 <= i < |plan| && 0 <= j < |plan| && x in plan[i].tables && x in plan[j].tables ==> i == j
  {
    var heads := PlanHeads(plan);
    forall i | 0 <= i < |plan|
      ensures heads[i] in Heads(tables, S) && (x in plan[i].tables <==> x in Class(tables, S, heads[i]))
    {
      assert heads[i] in heads;
      assert x in plan[i].tables <==> x in Elements(plan[i].tables);
    }
    if x in S {
      var h := HeadOf(tables, S, x);
      assert h in heads;
      var i :| 0 <= i < |heads| && heads[i] == h;
      assert x in plan[i].tables;
    }
    forall i, j | 0 <= i < |plan| && 0 <= j < |plan| && x in plan[i].tables && x in plan[j].tables ensures i == j {
      SameClassSameHead(tables, S, heads[i], heads[j], x);
      assert heads[i] == heads[j];
    }
  }

  /** Every safety edge between components puts the prerequisite's component first. */
  lemma PrerequisiteComponentFirst(tables: Tables, S: set<TableId>, plan: seq<SafetyComponent>, i: nat, j: nat,
                                   c: TableId, p: TableId)
    requires IsSafetyPlan(tables, S, plan) && i < |plan| && j < |plan| && i != j
    requires c in plan[i].tables && p in plan[j].tables && c in tables && IsPrerequisite(tables[c], p)
    ensures j < i
  {
    var heads := PlanHeads(plan);
    PlanCoversOnce(tables, S, plan, c);
    PlanCoversOnce(tables, S, plan, p);
    assert heads[i] in heads && heads[j] in heads;
    assert c in Elements(plan[i].tables) && p in Elements(plan[j].tables);
    assert (c, p) in SafetyEdges(tables, S);
    assert ClassNeeds(tables, S, heads[j], heads[i]);
    assert heads[i] != heads[j];
    assert (heads[j], heads[i]) in HeadEdges(tables, S);
    assert heads[j] in heads[..i];
    var k :| 0 <= k < i && heads[k] == heads[j];
  }

  /** `Cyclic` holds exactly when some member lies on a cycle, and then every member does. */
  lemma CyclicFlagExact(tables: Tables, S: set<TableId>, plan: seq<SafetyComponent>, i: nat, x: TableId)
    requires IsSafetyPlan(tables, S, plan) && i < |plan| && x in plan[i].tables
    ensures plan[i].cyclic <==> OnCycle(SafetyEdges(tables, S), x)
  {
    var E, h := SafetyEdges(tables, S), plan[i].tables[0];
    assert x in Elements(plan[i].tables);
    if plan[i].cyclic {
      CycleShared(E, h, x);
    }
    if OnCycle(E, x) {
      CycleShared(E, x, h);
    }
  }

  lemma CycleShared(E: set<(TableId, TableId)>, x: TableId, y: TableId)
    requires Mutual(E, x, y) && OnCycle(E, x)
    ensures OnCycle(E, y)
  {
    if x != y {
      var d := ReachFirst(E, {}, y, x);
      ReachTrans(E, {}, d, x, y);
    }
  }

  /** No other order of the components that respects prerequisites is smaller. */
  lemma PlanIsLeast(tables: Tables, S: set<TableId>, plan: seq<SafetyComponent>, other: seq<TableId>)
    requires IsSafetyPlan(tables, S, plan) && TopoOrder(HeadEdges(tables, S), Heads(tables, S), other)
    ensures LexLeq(Less, PlanHeads(plan), other)
  {
    GreedyIsLeast(HeadEdges(tables, S), Heads(tables, S), Less, PlanHeads(plan), other);
  }

  /** The plan is a function of the catalog and the selected set. */
  lemma PlanUnique(tables: Tables, S: set<TableId>, a: seq<SafetyComponent>, b: seq<SafetyComponent>)
    requires IsSafetyPlan(tables, S, a) && IsSafetyPlan(tables, S, b)
    ensures a == b
  {
    var g, h := PlanHeads(a), PlanHeads(b);
    PlanIsLeast(tables, S, a, h);
    PlanIsLeast(tables, S, b, g);
    LexAntisymmetric(g, h);
    forall i | 0 <= i < |a| ensures a[i] == b[i] {
      assert g[i] == h[i];
      NoDupMultiset(a[i].tables, b[i].tables);
      SortUnique(a[i].tables, b[i].tables);
    }
  }

  lemma LexAntisymmetric(a: seq<TableId>, b: seq<TableId>)
    requires LexLeq(Less, a, b) && LexLeq(Less, b, a)
    ensures a == b
  {
    if a != b {
      var k :| 0 <= k < |a| && k < |b| && a[..k] == b[..k] && Less(a[k], b[k]);
      var j :| 0 <= j < |a| && j < |b| && b[..j] == a[..j] && Less(b[j], a[j]);
      Total(a[k], b[k]);
      Total(a[j], b[j]);
    }
  }

  /** The cyclic components of the partition are exactly the classes that hold a cycle. */
  lemma CyclicListed(tables: Tables, selected: seq<TableId>, g: Adjacency, sccs: seq<seq<TableId>>,
                     cyclic: seq<seq<TableId>>)
    requires IsSafetyGraph(tables, selected, g) && IsSccPartition(g, sccs)
    requires forall c :: c in cyclic <==> c in sccs && IsCyclicComponent(g, c)
    ensures forall i :: 0 <= i < |cyclic| ==>
      IsPlanComponent(tables, Elements(selected), SafetyComponent(cyclic[i], true))
    ensures forall x :: x in selected && OnCycle(SafetyEdges(tables, Elements(selected)), x) ==> Listed(cyclic, x)
    ensures cyclic == [] <==> forall x :: x in selected ==> !OnCycle(SafetyEdges(tables, Elements(selected)), x)
  {
    hide IsPlanComponent; hide OnCycle; hide SafetyEdges; hide Listed; hide IsSafetyGraph; hide Elements;
    hide AllComponents; hide Disjoint; hide IsCyclicComponent;
    CyclicArePlanned(tables, selected, g, sccs, cyclic);
    CyclicAreListed(tables, selected, g, sccs, cyclic);
    CyclicNone(tables, selected, cyclic);
  }

  lemma CyclicNone(tables: Tables, selected: seq<TableId>, cyclic: seq<seq<TableId>>)
    requires forall i :: 0 <= i < |cyclic| ==>
      IsPlanComponent(tables, Elements(selected), SafetyComponent(cyclic[i], true))
    requires forall x :: x in selected && OnCycle(SafetyEdges(tables, Elements(selected)), x) ==> Listed(cyclic, x)
    ensures cyclic == [] <==> forall x :: x in selected ==> !OnCycle(SafetyEdges(tables, Elements(selected)), x)
  {
    hide IsPlanComponent; hide OnCycle; hide SafetyEdges; hide Listed;
    var S := Elements(selected);
    forall x | x in selected && OnCycle(SafetyEdges(tables, S), x) ensures cyclic != [] {
      NotListedInNothing(x);
    }
    if cyclic != [] {
      CyclicHead(tables, S, cyclic[0]);
    }
  }

  lemma CyclicArePlanned(tables: Tables, selected: seq<TableId>, g: Adjacency, sccs: seq<seq<TableId>>,
                         cyclic: seq<seq<TableId>>)
    requires IsSafetyGraph(tables, selected, g) && AllComponents(g, sccs)
    requires forall c :: c in cyclic <==> c in sccs && IsCyclicComponent(g, c)
    ensures forall i :: 0 <= i < |cyclic| ==>
      IsPlanComponent(tables, Elements(selected), SafetyComponent(cyclic[i], true))
  {
    hide IsCyclicComponent; hide IsSafetyGraph; hide IsPlanComponent; hide SafetyEdges; hide IsComponent;
    forall i | 0 <= i < |cyclic| ensures IsPlanComponent(tables, Elements(selected), SafetyComponent(cyclic[i], true)) {
      assert cyclic[i] in sccs;
      SccIsPlanComponent(tables, selected, g, cyclic[i]);
    }
  }

  lemma CyclicAreListed(tables: Tables, selected: seq<TableId>, g: Adjacency, sccs: seq<seq<TableId>>,
                        cyclic: seq<seq<TableId>>)
    requires IsSafetyGraph(tables, selected, g) && IsSccPartition(g, sccs)
    requires forall c :: c in cyclic <==> c in sccs && IsCyclicComponent(g, c)
    ensures forall x :: x in selected && OnCycle(SafetyEdges(tables, Elements(selected)), x) ==> Listed(cyclic, x)
  {
    assert forall x :: x in selected ==> x in g;
    hide IsCyclicComponent; hide IsSafetyGraph; hide OnCycle; hide SafetyEdges; hide Disjoint;
    hide AllComponents; hide Listed;
    forall x | x in selected && OnCycle(SafetyEdges(tables, Elements(selected)), x) ensures Listed(cyclic, x) {
      assert Listed(sccs, x);
      CyclicClassListed(tables, selected, g, sccs, cyclic, x);
    }
  }

  lemma NotListedInNothing(x: TableId)
    ensures !Listed([], x)
  {
  }

  lemma CyclicClassListed(tables: Tables, selected: seq<TableId>, g: Adjacency, sccs: seq<seq<TableId>>,
                          cyclic: seq<seq<TableId>>, x: TableId)
    requires IsSafetyGraph(tables, selected, g) && AllComponents(g, sccs) && Listed(sccs, x)
    requires forall c :: c in cyclic <==> c in sccs && IsCyclicComponent(g, c)
    requires OnCycle(SafetyEdges(tables, Elements(selected)), x)
    ensures Listed(cyclic, x)
  {
    hide IsCyclicComponent; hide IsSafetyGraph; hide OnCycle; hide SafetyEdges; hide IsComponent;
    var k :| 0 <= k < |sccs| && x in sccs[k];
    SccIsPlanComponent(tables, selected, g, sccs[k]);
    assert sccs[k] in cyclic;
  }
}
