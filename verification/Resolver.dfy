/** The DependencyResolver object and its operations (internal/mycli/dependency_resolver.go). */
module Resolver {
  import opened TableIds
  import opened Digraph
  import opened Catalog
  import opened InsertOrder
  import opened Kosaraju
  import opened Components
  import opened Condensation

  /** An absent Go map entry reads as the zero value. */
  function Read<V>(m: map<TableId, V>, id: TableId, zero: V): V {
    if id in m then m[id] else zero
  }

  /** Indegrees count the prerequisites that are still in `rem`. */
  ghost predicate Counts(indegree: map<TableId, int>, E: set<(TableId, TableId)>, rem: set<TableId>) {
    forall c :: c in rem ==> Read(indegree, c, 0) == |Parents(E, c) * rem|
  }

  /** The maps that topologicalSort and its addOrderEdge closure share. */
  class OrderGraph {
    const selected: set<TableId>
    var indegree: map<TableId, int>
    var children: Adjacency

    ghost predicate Valid(rem: set<TableId>)
      reads this
    {
      NoParallel(children) && Counts(indegree, EdgesOf(children), rem)
    }

    constructor (ids: set<TableId>)
      ensures selected == ids && EdgesOf(children) == {} && Valid(ids)
    {
      selected := ids;
      indegree, children := map[], map[];
      new;
      forall c: TableId ensures Parents({}, c) == {} {}
    }

    method AddOrderEdge(parent: TableId, child: TableId)
      requires Valid(selected)
      modifies this
      ensures Valid(selected)
      ensures EdgesOf(children) == old(EdgesOf(children)) +
        if parent != child && parent in selected && child in selected then {(parent, child)} else {}
    {
      hide Counts; hide NoParallel; hide NoDup;
      if parent == child || parent !in selected || child !in selected {
        return;
      }
      if child in Read(children, parent, []) {
        assert (parent, child) in EdgesOf(children);
        return;
      }
      AddEdgeKeeps(children, indegree, parent, child, selected);
      children := children[parent := Read(children, parent, []) + [child]];
      indegree := indegree[child := Read(indegree, child, 0) + 1];
    }

    /** After pick leaves `rem`, its waiting children lose one prerequisite. */
    method Release(pick: TableId, rem: set<TableId>)
      requires Valid(rem + {pick}) && pick !in rem
      modifies this`indegree
      ensures Valid(rem)
    {
      hide Counts;
      var kids := Read(children, pick, []);
      ghost var before := indegree;
      assert NoDup(kids);
      hide NoParallel;
      var i := 0;
      while i < |kids|
        invariant i <= |kids|
        invariant forall c :: Read(indegree, c, 0) == Lowered(before, kids[..i], rem, c)
      {
        var child := kids[i];
        assert kids[..i + 1] == kids[..i] + [child];
        if child in rem {
          indegree := indegree[child := Read(indegree, child, 0) - 1];
        }
        i := i + 1;
      }
      assert kids[..i] == kids;
      ReleaseKeeps(children, before, indegree, pick, rem);
    }
  }

  method AddSafetyEdges(graph: Adjacency, selectedSet: set<TableId>, from: TableId, ps: seq<TableId>)
    returns (g: Adjacency)
    requires from in graph && NoParallel(graph)
    ensures g.Keys == graph.Keys && NoParallel(g)
    ensures EdgesOf(g) == EdgesOf(graph) + OutEdges(selectedSet, from, Elements(ps))
  {
    g := graph;
    var i := 0;
    assert OutEdges(selectedSet, from, Elements(ps[..i])) == {};
    hide NoParallel; hide OutEdges;
    while i < |ps|
      invariant i <= |ps| && g.Keys == graph.Keys && NoParallel(g)
      invariant EdgesOf(g) == EdgesOf(graph) + OutEdges(selectedSet, from, Elements(ps[..i]))
    {
      var to := ps[i];
      OutEdgesStep(selectedSet, from, Elements(ps[..i]), to);
      if to in selectedSet {
        if to in g[from] {
          assert (from, to) in EdgesOf(g);
        } else {
          NoParallelAppend(g, from, to);
          EdgesOfAppend(g, from, to);
          g := g[from := g[from] + [to]];
        }
      }
      i := i + 1;
      assert Elements(ps[..i]) == Elements(ps[..i - 1]) + {to};
    }
    assert ps[..i] == ps;
  }

  lemma NoParallelAppend(children: Adjacency, p: TableId, c: TableId)
    requires NoParallel(children) && c !in Read(children, p, [])
    ensures NoParallel(children[p := Read(children, p, []) + [c]])
  {
    NoDupAppend(Read(children, p, []), c);
    hide NoDup;
  }

  /** The indegree of c once the waiting children in `kids` have lost one prerequisite. */
  ghost function Lowered(indegree: map<TableId, int>, kids: seq<TableId>, rem: set<TableId>, c: TableId): int {
    Read(indegree, c, 0) - (if c in rem && c in kids then 1 else 0)
  }

  lemma ReleaseKeeps(children: Adjacency, before: map<TableId, int>, after: map<TableId, int>, pick: TableId,
                     rem: set<TableId>)
    requires Counts(before, EdgesOf(children), rem + {pick}) && pick !in rem
    requires forall c :: Read(after, c, 0) == Lowered(before, Read(children, pick, []), rem, c)
    ensures Counts(after, EdgesOf(children), rem)
  {
    var E := EdgesOf(children);
    assert forall c :: c in Read(children, pick, []) <==> (pick, c) in E;
    hide EdgesOf; hide Parents;
    forall c | c in rem ensures Read(after, c, 0) == |Parents(EdgesOf(children), c) * rem| {
      RemoveParentCounts(EdgesOf(children), pick, c, rem);
    }
  }

  lemma EdgesOfAppend(children: Adjacency, p: TableId, c: TableId)
    ensures EdgesOf(children[p := Read(children, p, []) + [c]]) == EdgesOf(children) + {(p, c)}
  {
    var kids := children[p := Read(children, p, []) + [c]];
    forall e ensures e in EdgesOf(kids) <==> e in EdgesOf(children) + {(p, c)} {
      assert e == (e.0, e.1);
    }
  }

  lemma AddEdgeKeeps(children: Adjacency, indegree: map<TableId, int>, p: TableId, c: TableId, S: set<TableId>)
    requires NoParallel(children) && Counts(indegree, EdgesOf(children), S)
    requires p in S && c !in Read(children, p, [])
    ensures var kids := children[p := Read(children, p, []) + [c]];
      NoParallel(kids) && EdgesOf(kids) == EdgesOf(children) + {(p, c)} &&
      Counts(indegree[c := Read(indegree, c, 0) + 1], EdgesOf(kids), S)
  {
    EdgesOfAppend(children, p, c);
    NoParallelAppend(children, p, c);
    assert (p, c) !in EdgesOf(children);
    hide NoParallel; hide Counts; hide EdgesOf; hide Read;
    CountsGrow(indegree, EdgesOf(children), p, c, S);
  }

  lemma CountsGrow(indegree: map<TableId, int>, E: set<(TableId, TableId)>, p: TableId, c: TableId, S: set<TableId>)
    requires Counts(indegree, E, S) && p in S && (p, c) !in E
    ensures Counts(indegree[c := Read(indegree, c, 0) + 1], E + {(p, c)}, S)
  {
    AddEdgeCounts(E, p, c, S);
  }

  /** Collects a map's keys in any order, sorts, takes the first. */
  method SortedFirst(ids: set<TableId>) returns (pick: TableId)
    requires ids != {}
    ensures IsLeast(ids, pick) && pick in ids
  {
    var list: seq<TableId> := [];
    var todo := ids;
    while todo != {}
      invariant todo <= ids && Elements(list) == ids - todo
    {
      var id :| id in todo;
      assert Elements(list + [id]) == Elements(list) + {id};
      list, todo := list + [id], todo - {id};
    }
    SortedHeadIsLeast(list);
    pick := SortIds(list)[0];
  }

  class DependencyResolver {
    var tables: Tables
    var objects: map<TableId, CatalogObject>

    constructor ()
      ensures tables == map[] && objects == map[]
    {
      tables, objects := map[], map[];
    }

    /** The foreign-key loop, with its two duplicate filters. */
    method QueryForeignKeys(rows: seq<ForeignKeyRow>)
      modifies this`tables
      ensures tables == ApplyRows(old(tables), rows)
    {
      var orderSeen: set<(TableId, TableId)> := {};
      var safetySeen: set<(TableId, TableId)> := {};
      var i := 0;
      while i < |rows|
        invariant i <= |rows| && tables == ApplyRows(old(tables), rows[..i])
        invariant forall e :: e in orderSeen ==> e.0 in tables && e.1 in tables[e.0].fkParents
        invariant forall e :: e in safetySeen ==> e.0 in tables && e.1 in tables[e.0].safetyFkParents
      {
        var row := rows[i];
        var child, parent := row.child, row.parent;
        i := i + 1;
        assert rows[..i][..i - 1] == rows[..i - 1];
        if child !in tables || parent !in tables || IsKnownNotEnforced(row.enforced) {
          continue;
        }
        var dep := tables[child];
        if parent != child && (child, parent) !in orderSeen {
          orderSeen := orderSeen + {(child, parent)};
          if parent !in dep.fkParents {
            dep := dep.(fkParents := dep.fkParents + [parent]);
          }
        }
        if (child, parent) !in safetySeen {
          safetySeen := safetySeen + {(child, parent)};
          if parent !in dep.safetyFkParents {
            dep := dep.(safetyFkParents := dep.safetyFkParents + [parent]);
          }
        }
        assert dep == AddFk(tables[child], child, parent);
        tables := tables[child := dep];
      }
      assert rows[..i] == rows;
    }

    predicate Exportable(id: TableId)
      reads this
    {
      if objects == map[] then id in tables else id in objects && objects[id].tableType == "BASE TABLE"
    }

    method LookupExplicit(id: TableId) returns (r: Result<()>)
      ensures r.Ok? <==> Exportable(id)
      ensures r == if objects == map[] then (if id in tables then Ok(()) else Err(NotFound(id)))
                   else if id !in objects then Err(NotFound(id))
                   else if objects[id].tableType == "BASE TABLE" then Ok(()) else Err(NotBaseTable(id))
    {
      if |objects| == 0 {
        if id !in tables {
          return Err(NotFound(id));
        }
        return Ok(());
      }
      if id !in objects {
        return Err(NotFound(id));
      }
      if objects[id].tableType != "BASE TABLE" {
        return Err(NotBaseTable(id));
      }
      return Ok(());
    }

    /** Sets interleave parents; updates made before an error stay. */
    method ApplyInterleaveParents(extract: map<TableId, Result<TableId>>, selected: seq<TableId>)
      returns (r: Result<()>)
      requires forall id :: id in selected ==> id in extract
      modifies this`tables
      ensures tables == LinkAll(old(tables), extract, selected, |selected|).tables
      ensures var error := LinkAll(old(tables), extract, selected, |selected|).error;
        r == if error.None? then Ok(()) else Err(error.value)
    {
      var i := 0;
      while i < |selected|
        invariant i <= |selected| && LinkAll(old(tables), extract, selected, i) == Linked(tables, None)
      {
        var id := selected[i];
        i := i + 1;
        if id !in tables || !HasCandidate(tables[id].parentBasename, id, selected) {
          continue;
        }
        if extract[id].Err? {
          FirstError(old(tables), extract, selected, i);
          return Err(extract[id].error);
        }
        var parent := extract[id].value;
        if parent !in selected {
          continue;
        }
        if parent !in tables {
          FirstError(old(tables), extract, selected, i);
          return Err(ParentNotVisible(id, parent));
        }
        tables := tables[id := tables[id].(interleaveParent := Some(parent))];
      }
      return Ok(());
    }

    /** Walks the interleave links upwards from descendant; equal to the transitive closure even
        when the links run in a circle. */
    method HasInterleavePathBetween(ancestor: TableId, descendant: TableId) returns (r: bool)
      ensures r <==> Ancestor(tables, ancestor, descendant)
    {
      ghost var L := ParentLinks(tables);
      var current := descendant;
      var seen: set<TableId> := {};
      ReachRefl(L, {}, descendant);
      while current in tables && tables[current].interleaveParent.Some?
        invariant seen <= tables.Keys && descendant in seen + {current}
        invariant Reach(L, current, descendant)
        invariant forall x :: x in seen && tables[x].interleaveParent.Some? ==>
          tables[x].interleaveParent.value in seen + {current} && tables[x].interleaveParent.value != ancestor
        decreases tables.Keys - seen
      {
        if current in seen {
          break;
        }
        seen := seen + {current};
        var parent := tables[current].interleaveParent.value;
        assert (parent, current) in L;
        if parent == ancestor {
          return true;
        }
        ReachEdge(L, {}, parent, current);
        ReachTrans(L, {}, parent, current, descendant);
        current := parent;
      }
      NotAncestor(tables, ancestor, descendant, seen + {current});
      return false;
    }

    static lemma AllEdgesInto(tables: Tables, S: set<TableId>)
      ensures EdgesInto(tables, S, {}) == {} && EdgesInto(tables, S, S) == OrderEdges(tables, S)
    {
    }

    /** The physical INSERT order of the selection. */
    method TopologicalSort(tablesToExport: seq<TableId>) returns (r: Result<seq<TableId>>)
      ensures r.Ok? <==> Elements(tablesToExport) <= tables.Keys
      ensures r.Ok? ==> SortRun(tables, Elements(tablesToExport), r.value)
    {
      hide OrderGraph.Valid; hide EdgesInto; hide EdgesOf; hide OrderEdges; hide Picks;
      ghost var S := Elements(tablesToExport);
      var selected := set id | id in tablesToExport;
      var graph := new OrderGraph(selected);
      AllEdgesInto(tables, S);
      assert Elements(tablesToExport[..0]) == {};
      var i := 0;
      while i < |tablesToExport|
        invariant i <= |tablesToExport| && graph.selected == S && fresh(graph)
        invariant graph.Valid(S)
        invariant Elements(tablesToExport[..i]) <= tables.Keys
        invariant EdgesOf(graph.children) == EdgesInto(tables, S, Elements(tablesToExport[..i]))
      {
        var id := tablesToExport[i];
        if id !in tables {
          assert id in S;
          return Err(NotFound(id));
        }
        AddEdgesOf(graph, id, Elements(tablesToExport[..i]));
        i := i + 1;
        assert Elements(tablesToExport[..i]) == Elements(tablesToExport[..i - 1]) + {id};
      }
      assert Elements(tablesToExport[..i]) == S;
      var sorted := EmitInOrder(graph);
      return Ok(sorted);
    }

    /** The order edges into one table. */
    method AddEdgesOf(graph: OrderGraph, id: TableId, ghost done: set<TableId>)
      requires id in tables && graph.Valid(graph.selected) && id in graph.selected
      requires EdgesOf(graph.children) == EdgesInto(tables, graph.selected, done)
      modifies graph
      ensures graph.Valid(graph.selected)
      ensures EdgesOf(graph.children) == EdgesInto(tables, graph.selected, done + {id})
    {
      hide OrderGraph.Valid; hide EdgesInto; hide Ancestor;
      var dep := tables[id];
      ghost var S, before, ps := graph.selected, EdgesOf(graph.children), {};
      assert EdgesFrom(tables, S, id, {}) == {};
      if dep.interleaveParent.Some? {
        ps := {dep.interleaveParent.value};
        EdgesFromStep(tables, S, id, {}, dep.interleaveParent.value);
        assert {} + ps == ps;
        graph.AddOrderEdge(dep.interleaveParent.value, id);
      }
      AddFkEdgesOf(graph, id, before, ps);
      EdgesFromAll(tables, S, id, ps + Elements(dep.fkParents), done);
    }

    /** Those of its foreign keys: one to a table that it is itself an ancestor of adds no edge. */
    method AddFkEdgesOf(graph: OrderGraph, id: TableId, ghost before: set<(TableId, TableId)>, ghost ps: set<TableId>)
      requires id in tables && graph.Valid(graph.selected) && id in graph.selected
      requires EdgesOf(graph.children) == before + EdgesFrom(tables, graph.selected, id, ps)
      requires tables[id].interleaveParent.Some? ==> tables[id].interleaveParent.value in ps
      modifies graph
      ensures graph.Valid(graph.selected)
      ensures EdgesOf(graph.children) ==
              before + EdgesFrom(tables, graph.selected, id, ps + Elements(tables[id].fkParents))
    {
      hide OrderGraph.Valid; hide Ancestor; hide EdgesFrom; hide EdgesOf;
      var dep := tables[id];
      ghost var S := graph.selected;
      var i := 0;
      assert ps + Elements(dep.fkParents[..i]) == ps;
      hide Elements;
      while i < |dep.fkParents|
        invariant i <= |dep.fkParents| && graph.Valid(S)
        invariant EdgesOf(graph.children) == before + EdgesFrom(tables, S, id, ps + Elements(dep.fkParents[..i]))
      {
        var parent := dep.fkParents[i];
        ghost var sofar := ps + Elements(dep.fkParents[..i]);
        var skip := HasInterleavePathBetween(id, parent);
        EdgesFromStep(tables, S, id, sofar, parent);
        assert parent in sofar ==> sofar + {parent} == sofar;
        ElementsNext(dep.fkParents, i);
        assert ps + Elements(dep.fkParents[..i + 1]) == sofar + {parent};
        if !skip {
          graph.AddOrderEdge(parent, id);
        }
        i := i + 1;
      }
      assert dep.fkParents[..i] == dep.fkParents;
    }

    method GetOrderForTables(tablesToExport: seq<TableId>) returns (r: Result<seq<TableId>>)
      ensures r.Ok? <==> Elements(tablesToExport) <= tables.Keys && forall id :: id in tablesToExport ==> Exportable(id)
      ensures r.Ok? ==> SortRun(tables, Elements(tablesToExport), r.value)
    {
      var check := LookupAll(tablesToExport);
      if check.Err? {
        return Err(check.error);
      }
      r := TopologicalSort(tablesToExport);
    }

    method LookupAll(ids: seq<TableId>) returns (r: Result<()>)
      ensures r.Ok? <==> forall id :: id in ids ==> Exportable(id)
      ensures r.Err? ==> r.error.NotFound? || r.error.NotBaseTable?
    {
      var i := 0;
      while i < |ids|
        invariant i <= |ids| && forall id :: id in ids[..i] ==> Exportable(id)
      {
        r := LookupExplicit(ids[i]);
        if r.Err? {
          return;
        }
        i := i + 1;
      }
      assert ids[..i] == ids;
      return Ok(());
    }

    /** selectedSafetyGraph: from each table to its selected prerequisites, lists sorted. */
    method SelectedSafetyGraph(selected: seq<TableId>) returns (graph: Adjacency)
      ensures IsSafetyGraph(tables, selected, graph)
    {
      ghost var S := Elements(selected);
      var selectedSet := set id | id in selected;
      graph := map id | id in selected :: [];
      assert EdgesOf(graph) == {} && EdgesOut(tables, S, {}) == {};
      var i := 0;
      assert Elements(selected[..0]) == {};
      while i < |selected|
        invariant i <= |selected| && graph.Keys == S && NoParallel(graph)
        invariant EdgesOf(graph) == EdgesOut(tables, S, Elements(selected[..i]))
      {
        var id := selected[i];
        var ps: seq<TableId> := [];
        if id in tables {
          var dep := tables[id];
          ps := (if dep.interleaveParent.Some? then [dep.interleaveParent.value] else []) + dep.safetyFkParents;
        }
        EdgesOutStep(tables, S, Elements(selected[..i]), id, Elements(ps));
        graph := AddSafetyEdges(graph, selectedSet, id, ps);
        i := i + 1;
        assert Elements(selected[..i]) == Elements(selected[..i - 1]) + {id};
      }
      assert selected[..i] == selected;
      graph := SortLists(graph);
      SafetyGraphDone(tables, selected, graph);
    }

    /** cyclicSafetySCCs: the components that sequential INSERT cannot restore. */
    method CyclicSafetySccs(selected: seq<TableId>) returns (cyclic: seq<seq<TableId>>)
      ensures forall i :: 0 <= i < |cyclic| ==>
        IsPlanComponent(tables, Elements(selected), SafetyComponent(cyclic[i], true))
      ensures forall x :: x in selected && OnCycle(SafetyEdges(tables, Elements(selected)), x) ==>
        Listed(cyclic, x)
      ensures cyclic == [] <==> NoCyclicTable(tables, Elements(selected))
    {
      hide IsPlanComponent; hide OnCycle; hide SafetyEdges; hide IsSccPartition; hide IsSafetyGraph;
      hide IsSccList; hide IsCyclicComponent; hide Listed;
      var graph := SelectedSafetyGraph(selected);
      SafetyGraphShape(tables, selected, graph);
      var sccs := StronglyConnectedTableIds(graph, selected);
      cyclic := [];
      var i := 0;
      while i < |sccs|
        invariant i <= |sccs|
        invariant forall c :: c in cyclic <==> c in sccs[..i] && IsCyclicComponent(graph, c)
      {
        assert sccs[..i + 1] == sccs[..i] + [sccs[i]];
        if IsCyclicComponent(graph, sccs[i]) {
          cyclic := cyclic + [sccs[i]];
        }
        i := i + 1;
      }
      assert sccs[..i] == sccs;
      CyclicListed(tables, selected, graph, sccs, cyclic);
    }

    /** orderedSafetyComponents: the condensation, prerequisites first. Its "condensation contains a
        cycle" error is never returned. */
    method OrderedSafetyComponents(selected: seq<TableId>) returns (r: Result<seq<SafetyComponent>>)
      ensures r.Ok? <==> forall id :: id in selected ==> Exportable(id)
      ensures r.Ok? ==> IsSafetyPlan(tables, Elements(selected), r.value)
    {
      hide IsSafetyGraph; hide IsSafetyPlan; hide IsSccPartition; hide IsSccList; hide ReadyToOrder;
      var check := LookupAll(selected);
      if check.Err? {
        return Err(check.error);
      }
      var graph := SelectedSafetyGraph(selected);
      SafetyGraphShape(tables, selected, graph);
      var sccs := StronglyConnectedTableIds(graph, selected);
      sccs := SortComponents(tables, selected, graph, sccs);
      var ordered := OrderComponents(tables, selected, graph, sccs);
      return Ok(ordered);
    }

    /** The emission loop: least ready table, else least candidate, else least remaining. */
    method EmitInOrder(graph: OrderGraph) returns (sorted: seq<TableId>)
      requires graph.Valid(graph.selected)
      modifies graph`indegree
      ensures Lists(graph.selected, sorted)
      ensures Picks(EdgesOf(graph.children), tables, graph.selected, sorted)
    {
      hide OrderGraph.Valid; hide IsLeast; hide PickSet;
      ghost var E, S := EdgesOf(graph.children), graph.selected;
      var remaining := graph.selected;
      sorted := [];
      while remaining != {}
        invariant graph.Valid(remaining)
        invariant remaining == S - Elements(sorted) && Elements(sorted) <= S && NoDup(sorted)
        invariant Picks(E, tables, S, sorted)
        decreases remaining
      {
        var pick := PickNext(graph, remaining);
        PicksExtend(E, tables, S, sorted, pick);
        assert Elements(sorted + [pick]) == Elements(sorted) + {pick};
        sorted := sorted + [pick];
        assert remaining == (remaining - {pick}) + {pick};
        remaining := remaining - {pick};
        graph.Release(pick, remaining);
      }
      forall x | x in S ensures x in Elements(sorted) {
        assert x !in remaining;
      }
      assert forall x :: x in sorted <==> x in Elements(sorted);
    }

    method PickNext(graph: OrderGraph, remaining: set<TableId>) returns (pick: TableId)
      requires remaining != {} && graph.Valid(remaining)
      ensures IsLeast(PickSet(EdgesOf(graph.children), tables, remaining), pick)
      ensures pick in remaining
    {
      hide IsLeast;
      var ready := set id | id in remaining && Read(graph.indegree, id, 0) == 0;
      ReadyComputed(graph.indegree, EdgesOf(graph.children), remaining, ready);
      hide Counts; hide NoParallel; hide Ready;
      if ready != {} {
        pick := SortedFirst(ready);
      } else {
        var cands := set id | id in remaining && !WaitsForParent(tables, remaining, id);
        if cands == {} {
          cands := remaining;
        }
        pick := SortedFirst(cands);
      }
    }
  }

  lemma {:induction false} FirstError(tables: Tables, extract: map<TableId, Result<TableId>>, selected: seq<TableId>,
                                      i: nat)
    requires i <= |selected| && (forall id :: id in selected ==> id in extract)
    requires LinkAll(tables, extract, selected, i).error.Some?
    ensures LinkAll(tables, extract, selected, |selected|) == LinkAll(tables, extract, selected, i)
    decreases |selected| - i
  {
    if i < |selected| {
      FirstError(tables, extract, selected, i + 1);
    }
  }

  lemma ReadyComputed(indegree: map<TableId, int>, E: set<(TableId, TableId)>, rem: set<TableId>, ready: set<TableId>)
    requires Counts(indegree, E, rem)
    requires ready == set id | id in rem && Read(indegree, id, 0) == 0
    ensures ready == Ready(E, rem) && ready <= rem
  {
    forall x | x in rem ensures x in ready <==> Parents(E, x) !! rem {
      NoParentLeft(E, x, rem);
      forall p ensures p in Parents(E, x) <==> (p, x) in E {
        ParentsEdge(E, p, x);
      }
    }
  }

  lemma PicksExtend(E: set<(TableId, TableId)>, tables: Tables, S: set<TableId>, o: seq<TableId>, x: TableId)
    requires Picks(E, tables, S, o) && IsLeast(PickSet(E, tables, S - Elements(o)), x)
    ensures Picks(E, tables, S, o + [x])
  {
    forall i | 0 <= i <= |o| ensures IsLeast(PickSet(E, tables, Left(S, o + [x], i)), (o + [x])[i]) {
      assert (o + [x])[..i] == o[..i];
      if i == |o| { assert o[..i] == o; }
    }
  }
}
