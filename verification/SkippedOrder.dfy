/** The reverse-ancestor skip of topologicalSort (internal/mycli/dependency_resolver.go:326-333). */
module SkippedOrder {
  import opened TableIds
  import opened Digraph
  import opened Catalog
  import opened InsertOrder

  // What it is for: a foreign key of a table to one of its own interleave descendants has no say in
  // the order.

  /** The foreign keys among ps that do not point from c down its own interleave tree. */
  ghost function NotBelow(tables: Tables, c: TableId, ps: seq<TableId>): seq<TableId> {
    if ps == [] then []
    else
      var p := ps[|ps| - 1];
      NotBelow(tables, c, ps[..|ps| - 1]) + if ReachPlus(ParentLinks(tables), c, p) then [] else [p]
  }

  /** The catalog without foreign keys from a table to a proper interleave descendant of it. */
  ghost function Trimmed(tables: Tables): Tables {
    map c | c in tables ::
      tables[c].(fkParents := NotBelow(tables, c, tables[c].fkParents),
                 safetyFkParents := NotBelow(tables, c, tables[c].safetyFkParents))
  }

  lemma {:induction false} NotBelowMembers(tables: Tables, c: TableId, ps: seq<TableId>, p: TableId)
    ensures p in NotBelow(tables, c, ps) <==> p in ps && !ReachPlus(ParentLinks(tables), c, p)
  {
    if ps != [] {
      NotBelowMembers(tables, c, ps[..|ps| - 1], p);
      assert ps == ps[..|ps| - 1] + [ps[|ps| - 1]];
    }
  }

  lemma TrimmedLinks(tables: Tables)
    ensures ParentLinks(Trimmed(tables)) == ParentLinks(tables)
    ensures forall rem, x :: WaitsForParent(Trimmed(tables), rem, x) <==> WaitsForParent(tables, rem, x)
  {
    var t := Trimmed(tables);
    assert forall c :: c in tables ==> t[c].interleaveParent == tables[c].interleaveParent;
    forall p, c ensures (p, c) in ParentLinks(t) <==> (p, c) in ParentLinks(tables) {
    }
    PairsEqual(ParentLinks(t), ParentLinks(tables));
  }

  lemma TrimmedParent(tables: Tables, c: TableId, p: TableId)
    requires c in tables
    ensures IsOrderParent(Trimmed(tables), c, p) <==> IsOrderParent(tables, c, p)
    ensures IsPrerequisite(Trimmed(tables)[c], p) <==>
            tables[c].interleaveParent == Some(p)
            || (p in tables[c].safetyFkParents && !ReachPlus(ParentLinks(tables), c, p))
  {
    TrimmedLinks(tables);
    NotBelowMembers(tables, c, tables[c].fkParents, p);
    NotBelowMembers(tables, c, tables[c].safetyFkParents, p);
  }

  lemma TrimmedEdges(tables: Tables, S: set<TableId>)
    ensures OrderEdges(Trimmed(tables), S) == OrderEdges(tables, S)
  {
    hide IsOrderParent;
    forall e ensures e in OrderEdges(Trimmed(tables), S) <==> e in OrderEdges(tables, S) {
      assert e == (e.0, e.1);
      if e.1 in tables {
        TrimmedParent(tables, e.1, e.0);
      }
    }
  }

  lemma TrimmedPicks(tables: Tables, E: set<(TableId, TableId)>, rem: set<TableId>)
    ensures PickSet(E, Trimmed(tables), rem) == PickSet(E, tables, rem)
  {
    TrimmedLinks(tables);
    assert Candidates(Trimmed(tables), rem) == Candidates(tables, rem);
  }

  /** The order is the one of the catalog without those foreign keys. */
  lemma SkipIsTrim(tables: Tables, S: set<TableId>, o: seq<TableId>)
    ensures SortRun(tables, S, o) <==> SortRun(Trimmed(tables), S, o)
  {
    TrimmedEdges(tables, S);
    var E := OrderEdges(tables, S);
    hide OrderEdges; hide PickSet; hide Trimmed;
    forall i | 0 <= i < |o| ensures PickSet(E, Trimmed(tables), Left(S, o, i)) == PickSet(E, tables, Left(S, o, i)) {
      TrimmedPicks(tables, E, Left(S, o, i));
    }
  }

  lemma TrimmedShape(tables: Tables, S: set<TableId>)
    requires FkListsAgree(tables) && LinksInside(tables, S)
    ensures FkListsAgree(Trimmed(tables)) && LinksInside(Trimmed(tables), S)
  {
    forall c, p | c in tables
      ensures p in Trimmed(tables)[c].fkParents <==> p in Trimmed(tables)[c].safetyFkParents && p != c
    {
      NotBelowMembers(tables, c, tables[c].fkParents, p);
      NotBelowMembers(tables, c, tables[c].safetyFkParents, p);
    }
  }

  /** If only foreign keys of that kind close cycles, every other foreign-key parent and every
      interleave parent precedes its dependent. */
  lemma SkippedOrderSafe(tables: Tables, S: set<TableId>, o: seq<TableId>, k: nat, p: TableId)
    requires FkListsAgree(tables) && LinksInside(tables, S) && NoCyclicTable(Trimmed(tables), S)
    requires SortRun(tables, S, o) && k < |o| && o[k] in tables && p in S
    requires tables[o[k]].interleaveParent == Some(p)
          || (p in tables[o[k]].fkParents && !ReachPlus(ParentLinks(tables), o[k], p))
    ensures p in o[..k]
  {
    SkipIsTrim(tables, S, o);
    TrimmedShape(tables, S);
    TrimmedParent(tables, o[k], p);
    assert p in tables[o[k]].fkParents ==> p in tables[o[k]].safetyFkParents;
    SequentialOrderSafe(Trimmed(tables), S, o, k, p);
  }

  // ---- In any graph ----

  /** Prerequisite edges between different selected tables, the skipped foreign keys left out. */
  ghost function Needs(tables: Tables, S: set<TableId>): set<(TableId, TableId)> {
    set p, c | p in S && c in S && c in tables && p != c &&
               (tables[c].interleaveParent == Some(p)
                || (p in tables[c].safetyFkParents && !ReachPlus(ParentLinks(tables), c, p))) :: (p, c)
  }

  lemma OrderIsNeeds(tables: Tables, S: set<TableId>)
    requires FkListsAgree(tables)
    ensures OrderEdges(tables, S) == Needs(tables, S)
  {
    hide ReachPlus;
    forall p, c ensures (p, c) in OrderEdges(tables, S) <==> (p, c) in Needs(tables, S) {
      assert c in tables ==> (p in tables[c].fkParents <==> p in tables[c].safetyFkParents && p != c);
    }
    PairsEqual(OrderEdges(tables, S), Needs(tables, S));
  }

  lemma PairsEqual(a: set<(TableId, TableId)>, b: set<(TableId, TableId)>)
    requires forall p, c :: (p, c) in a <==> (p, c) in b
    ensures a == b
  {
    forall e ensures e in a <==> e in b {
      assert e == (e.0, e.1);
    }
  }

  /** Whatever cycles there are: a table that no cycle of needs leads to comes after everything it
      needs; the whole output respects the needs if and only if they have no cycle, and then it is the
      lexicographically least list that does. */
  lemma NeedsRespected(tables: Tables, S: set<TableId>, o: seq<TableId>)
    requires FkListsAgree(tables) && SortRun(tables, S, o)
    ensures forall k, p :: 0 <= k < |o| && (p, o[k]) in Needs(tables, S) && Clean(Needs(tables, S), o[k]) ==>
      p in o[..k]
    ensures TopoOrder(Needs(tables, S), S, o) <==> Acyclic(Needs(tables, S))
    ensures forall other :: Acyclic(Needs(tables, S)) && TopoOrder(Needs(tables, S), S, other) ==>
      LexLeq(Less, o, other)
  {
    OrderIsNeeds(tables, S);
    var E := Needs(tables, S);
    hide Needs; hide OrderEdges; hide SortRun; hide Acyclic; hide Clean; hide LexLeq; hide TopoOrder;
    forall k, p | 0 <= k < |o| && (p, o[k]) in E && Clean(E, o[k]) ensures p in o[..k] {
      CleanPlaced(tables, S, o, k);
    }
    RespectsEdgesIffAcyclic(tables, S, o);
    forall other | Acyclic(E) && TopoOrder(E, S, other) ensures LexLeq(Less, o, other) {
      AcyclicOrderIsLeast(tables, S, o, other);
    }
  }

  // ---- From the query rows and the DDL ----

  /** Some row says so, and does not exempt the foreign key. */
  ghost predicate ForeignKeyTo(rows: seq<ForeignKeyRow>, c: TableId, p: TableId) {
    exists k :: 0 <= k < |rows| && rows[k].child == c && rows[k].parent == p
      && rows[k].enforced !in {Some("NO"), Some("No"), Some("nO"), Some("no")}
  }

  /** c is interleaved in p: the table query named a parent that is selected, and the DDL says p. */
  ghost predicate InterleavedIn(tables: Tables, extract: map<TableId, Result<TableId>>, selected: seq<TableId>,
                                c: TableId, p: TableId)
    requires c in selected ==> c in extract
  {
    c in selected && p in selected && ParentNamed(tables, selected, c) && extract[c] == Ok(p)
  }

  /** The catalog after the foreign-key query and the interleave parents. */
  ghost function Final(tables: Tables, rows: seq<ForeignKeyRow>, extract: map<TableId, Result<TableId>>,
                       selected: seq<TableId>): Linked
    requires forall id :: id in selected ==> id in extract
  {
    LinkAll(ApplyRows(tables, rows), extract, selected, |selected|)
  }

  lemma RowCounted(tables: Tables, rows: seq<ForeignKeyRow>, c: TableId, p: TableId)
    requires c in tables && p in tables
    ensures ForeignKeyTo(rows, c, p) <==>
            exists row :: row in rows && row.child == c && row.parent == p && Counted(tables.Keys, row)
  {
    forall row | row in rows
      ensures IsKnownNotEnforced(row.enforced) <==> row.enforced in {Some("NO"), Some("No"), Some("nO"), Some("no")}
    {
      KnownNotEnforced(row.enforced);
    }
    hide IsKnownNotEnforced;
    if ForeignKeyTo(rows, c, p) {
      var k :| 0 <= k < |rows| && rows[k].child == c && rows[k].parent == p
        && rows[k].enforced !in {Some("NO"), Some("No"), Some("nO"), Some("no")};
      assert rows[k] in rows && Counted(tables.Keys, rows[k]);
    }
    if row :| row in rows && row.child == c && row.parent == p && Counted(tables.Keys, row) {
      var k :| 0 <= k < |rows| && rows[k] == row;
    }
  }

  lemma FinalTables(tables: Tables, rows: seq<ForeignKeyRow>, extract: map<TableId, Result<TableId>>,
                    selected: seq<TableId>)
    requires Bare(tables) && forall id :: id in selected ==> id in extract
    ensures var final := Final(tables, rows, extract, selected).tables;
      && final.Keys == tables.Keys && FkListsAgree(final) && LinksInside(final, Elements(selected))
      && forall c, p :: c in tables ==>
           (p in final[c].safetyFkParents <==> exists row ::
              row in rows && row.child == c && row.parent == p && Counted(tables.Keys, row))
  {
    ApplyRowsEdges(tables, rows);
    LinkAllInside(ApplyRows(tables, rows), extract, selected, |selected|);
    hide ApplyRows; hide LinkAll; hide Counted;
  }

  lemma FinalLinks(tables: Tables, rows: seq<ForeignKeyRow>, extract: map<TableId, Result<TableId>>,
                   selected: seq<TableId>)
    requires Bare(tables) && forall id :: id in selected ==> id in extract
    requires Final(tables, rows, extract, selected).error.None?
    ensures var final := Final(tables, rows, extract, selected).tables;
      final.Keys == tables.Keys && forall c, p :: c in tables ==>
        (final[c].interleaveParent == Some(p) <==> InterleavedIn(tables, extract, selected, c, p))
  {
    LoadedNames(tables, rows, selected);
    hide ApplyRows; hide LinkAll; hide ParentNamed; hide Bare;
    LinksExactly(ApplyRows(tables, rows), extract, selected, |selected|);
    assert selected[..|selected|] == selected;
  }

  lemma LoadedNames(tables: Tables, rows: seq<ForeignKeyRow>, selected: seq<TableId>)
    requires Bare(tables)
    ensures forall c :: c in tables ==> ApplyRows(tables, rows)[c].interleaveParent.None?
    ensures forall c :: ParentNamed(ApplyRows(tables, rows), selected, c) <==> ParentNamed(tables, selected, c)
  {
    ApplyRowsEdges(tables, rows);
    hide ApplyRows; hide Counted;
  }

  /** The safety graph of a selection, read off the rows and the DDL: one edge for every interleaving
      and every foreign key that is not exempt, self references included. */
  lemma SafetyFromRows(tables: Tables, rows: seq<ForeignKeyRow>, extract: map<TableId, Result<TableId>>,
                       selected: seq<TableId>, c: TableId, p: TableId)
    requires Bare(tables) && forall id :: id in selected ==> id in extract
    requires Final(tables, rows, extract, selected).error.None? && Elements(selected) <= tables.Keys
    ensures (c, p) in SafetyEdges(Final(tables, rows, extract, selected).tables, Elements(selected)) <==>
            c in selected && p in selected
            && (InterleavedIn(tables, extract, selected, c, p) || ForeignKeyTo(rows, c, p))
  {
    FinalTables(tables, rows, extract, selected);
    FinalLinks(tables, rows, extract, selected);
    assert c in selected <==> c in Elements(selected);
    assert p in selected <==> p in Elements(selected);
    if c in selected && p in selected {
      assert c in Elements(selected) && p in Elements(selected);
      RowCounted(tables, rows, c, p);
    }
    hide Final; hide ForeignKeyTo; hide InterleavedIn; hide Counted; hide Elements;
  }

  /** End to end: if only foreign keys down their own interleave tree close cycles, every other foreign
      key and every interleaving has its parent dumped first. */
  lemma DumpOrderSkips(tables: Tables, rows: seq<ForeignKeyRow>, extract: map<TableId, Result<TableId>>,
                       selected: seq<TableId>, o: seq<TableId>, k: nat, p: TableId)
    requires Bare(tables) && forall id :: id in selected ==> id in extract
    requires Final(tables, rows, extract, selected).error.None? && Elements(selected) <= tables.Keys
    requires var final := Final(tables, rows, extract, selected).tables;
      && NoCyclicTable(Trimmed(final), Elements(selected)) && SortRun(final, Elements(selected), o)
      && k < |o| && p in selected && p != o[k]
      && (InterleavedIn(tables, extract, selected, o[k], p)
          || (ForeignKeyTo(rows, o[k], p) && !ReachPlus(ParentLinks(final), o[k], p)))
    ensures p in o[..k]
  {
    var final, S := Final(tables, rows, extract, selected).tables, Elements(selected);
    assert o[k] in S && p in S;
    FinalTables(tables, rows, extract, selected);
    FinalLinks(tables, rows, extract, selected);
    RowCounted(tables, rows, o[k], p);
    hide Final; hide ForeignKeyTo; hide Counted; hide Trimmed; hide ReachPlus; hide SortRun; hide ParentLinks;
    SkippedOrderSafe(final, S, o, k, p);
  }
}
