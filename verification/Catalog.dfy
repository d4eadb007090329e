/** The dump catalog and the graphs read off it (internal/mycli/dependency_resolver.go). */
module Catalog {
  import opened TableIds
  import opened Digraph

  datatype Error =
    | NotFound(id: TableId)
    | NotBaseTable(id: TableId)
    | ParentNotVisible(child: TableId, parent: TableId)
    | BadInterleaveDdl(id: TableId)
    | CondensationCycle

  datatype Result<+T> = Ok(value: T) | Err(error: Error)

  /** One BASE TABLE. `fkParents` drives INSERT order, `safetyFkParents` classifies cycles. */
  datatype TableDependency = TableDependency(
    parentBasename: string,
    interleaveParent: Option<TableId>,
    fkParents: seq<TableId>,
    safetyFkParents: seq<TableId>)

  type Tables = map<TableId, TableDependency>

  datatype CatalogObject = CatalogObject(tableType: string)

  datatype ForeignKeyRow = ForeignKeyRow(child: TableId, parent: TableId, enforced: Option<string>)

  /** Interleave links, parent first. */
  ghost function ParentLinks(tables: Tables): set<(TableId, TableId)> {
    set c | c in tables.Keys && tables[c].interleaveParent.Some? :: (tables[c].interleaveParent.value, c)
  }

  /** `ancestor` is a proper interleave ancestor of `descendant`. */
  ghost predicate Ancestor(tables: Tables, ancestor: TableId, descendant: TableId) {
    ReachPlus(ParentLinks(tables), ancestor, descendant)
  }

  predicate IsPrerequisite(dep: TableDependency, p: TableId) {
    dep.interleaveParent == Some(p) || p in dep.safetyFkParents
  }

  /** Safety graph over the selection: from a table to each prerequisite, self edges included. */
  ghost function SafetyEdges(tables: Tables, S: set<TableId>): set<(TableId, TableId)> {
    set c, p | c in S && p in S && c in tables && IsPrerequisite(tables[c], p) :: (c, p)
  }

  ghost predicate IsOrderParent(tables: Tables, c: TableId, p: TableId)
    requires c in tables
  {
    tables[c].interleaveParent == Some(p) || (p in tables[c].fkParents && !Ancestor(tables, c, p))
  }

  /** The order edges into the tables of `done`. */
  ghost function EdgesInto(tables: Tables, S: set<TableId>, done: set<TableId>): set<(TableId, TableId)> {
    set e | e in OrderEdges(tables, S) && e.1 in done
  }

  /** The order edges into one table from the given parents. */
  ghost function EdgesFrom(tables: Tables, S: set<TableId>, c: TableId, ps: set<TableId>): set<(TableId, TableId)>
    requires c in tables
  {
    set p | p in ps && p in S && c in S && p != c && IsOrderParent(tables, c, p) :: (p, c)
  }

  lemma EdgesFromStep(tables: Tables, S: set<TableId>, c: TableId, ps: set<TableId>, p: TableId)
    requires c in tables
    ensures EdgesFrom(tables, S, c, ps + {p}) == EdgesFrom(tables, S, c, ps) +
      if p in S && c in S && p != c && IsOrderParent(tables, c, p) then {(p, c)} else {}
  {
    hide IsOrderParent;
    var step := if p in S && c in S && p != c && IsOrderParent(tables, c, p) then {(p, c)} else {};
    var A, B := EdgesFrom(tables, S, c, ps + {p}), EdgesFrom(tables, S, c, ps) + step;
    forall e ensures e in A <==> e in B {
      assert e == (e.0, e.1);
    }
  }

  lemma EdgesFromAll(tables: Tables, S: set<TableId>, c: TableId, ps: set<TableId>, done: set<TableId>)
    requires c in tables
    requires forall p :: IsOrderParent(tables, c, p) ==> p in ps
    ensures EdgesInto(tables, S, done) + EdgesFrom(tables, S, c, ps) == EdgesInto(tables, S, done + {c})
  {
    var A, B := EdgesInto(tables, S, done) + EdgesFrom(tables, S, c, ps), EdgesInto(tables, S, done + {c});
    forall e ensures e in A <==> e in B {
      assert e == (e.0, e.1);
    }
  }

  /** INSERT-order graph over the selection, prerequisite first. */
  ghost function OrderEdges(tables: Tables, S: set<TableId>): set<(TableId, TableId)> {
    set p, c | p in S && c in S && c in tables && p != c && IsOrderParent(tables, c, p) :: (p, c)
  }

  /** What the foreign-key query leaves behind: order edges are the safety edges without self edges. */
  ghost predicate FkListsAgree(tables: Tables) {
    forall c, p :: c in tables ==> (p in tables[c].fkParents <==> p in tables[c].safetyFkParents && p != c)
  }

  /** What applying interleave parents leaves behind: links stay inside the selection. */
  ghost predicate LinksInside(tables: Tables, S: set<TableId>) {
    forall c :: c in tables && tables[c].interleaveParent.Some? ==>
      c in S && tables[c].interleaveParent.value in S && tables[c].interleaveParent.value in tables
  }

  predicate IsKnownNotEnforced(enforced: Option<string>) {
    && enforced.Some? && |enforced.value| == 2
    && enforced.value[0] in {'N', 'n'} && enforced.value[1] in {'O', 'o'}
  }

  // ---- The foreign-key loop, row by row ----

  function AddFk(dep: TableDependency, child: TableId, parent: TableId): TableDependency {
    dep.(fkParents := if parent != child && parent !in dep.fkParents then dep.fkParents + [parent] else dep.fkParents,
         safetyFkParents := if parent in dep.safetyFkParents then dep.safetyFkParents
                            else dep.safetyFkParents + [parent])
  }

  predicate Counted(keys: set<TableId>, row: ForeignKeyRow) {
    row.child in keys && row.parent in keys && !IsKnownNotEnforced(row.enforced)
  }

  function ApplyRow(tables: Tables, row: ForeignKeyRow): Tables {
    if Counted(tables.Keys, row) then tables[row.child := AddFk(tables[row.child], row.child, row.parent)] else tables
  }

  function ApplyRows(tables: Tables, rows: seq<ForeignKeyRow>): (r: Tables)
    ensures r.Keys == tables.Keys
  {
    if rows == [] then tables else ApplyRow(ApplyRows(tables, rows[..|rows| - 1]), rows[|rows| - 1])
  }

  /** Exactly the enforced foreign keys between dumped tables become safety edges, order edges are
      those without self edges, and nothing else about a table changes. */
  lemma {:induction false} ApplyRowsEdges(tables: Tables, rows: seq<ForeignKeyRow>)
    requires FkListsAgree(tables)
    ensures FkListsAgree(ApplyRows(tables, rows))
    ensures forall c, p :: c in tables ==>
      (p in ApplyRows(tables, rows)[c].safetyFkParents <==>
        || p in tables[c].safetyFkParents
        || exists row :: row in rows && row.child == c && row.parent == p && Counted(tables.Keys, row))
    ensures forall c :: c in tables ==>
      ApplyRows(tables, rows)[c].interleaveParent == tables[c].interleaveParent &&
      ApplyRows(tables, rows)[c].parentBasename == tables[c].parentBasename
    decreases |rows|
  {
    if rows != [] {
      var n := |rows| - 1;
      ApplyRowsEdges(tables, rows[..n]);
      assert rows == rows[..n] + [rows[n]];
      assert forall row :: row in rows <==> row in rows[..n] || row == rows[n];
    }
  }

  /** Another selected table carries the parent's basename. */
  predicate HasCandidate(basename: string, id: TableId, selected: seq<TableId>) {
    basename != "" && exists other :: other in selected && other != id && other.name == basename
  }

  // ---- Applying interleave parents, table by table ----

  datatype Linked = Linked(tables: Tables, error: Option<Error>)

  /** `extract` stands for the parent named by the CREATE TABLE of a child. */
  function LinkOne(tables: Tables, extract: map<TableId, Result<TableId>>, selected: seq<TableId>, id: TableId): Linked
    requires id in extract
  {
    if id !in tables || !HasCandidate(tables[id].parentBasename, id, selected) then Linked(tables, None)
    else if extract[id].Err? then Linked(tables, Some(extract[id].error))
    else
      var parent := extract[id].value;
      if parent !in selected then Linked(tables, None)
      else if parent !in tables then Linked(tables, Some(ParentNotVisible(id, parent)))
      else Linked(tables[id := tables[id].(interleaveParent := Some(parent))], None)
  }

  function LinkAll(tables: Tables, extract: map<TableId, Result<TableId>>, selected: seq<TableId>, i: nat): (r: Linked)
    requires i <= |selected| && forall id :: id in selected ==> id in extract
    ensures r.tables.Keys == tables.Keys
  {
    if i == 0 then Linked(tables, None)
    else
      var r := LinkAll(tables, extract, selected, i - 1);
      if r.error.Some? then r else LinkOne(r.tables, extract, selected, selected[i - 1])
  }

  ghost predicate OnlyLinksDiffer(before: Tables, after: Tables) {
    before.Keys == after.Keys &&
    forall c :: c in before ==> after[c] == before[c].(interleaveParent := after[c].interleaveParent)
  }

  /** The table query named a parent for id, and another selected table has that name. */
  ghost predicate ParentNamed(tables: Tables, selected: seq<TableId>, id: TableId) {
    id in tables && |tables[id].parentBasename| > 0
    && exists k :: 0 <= k < |selected| && selected[k] != id && selected[k].name == tables[id].parentBasename
  }

  /** id is linked to the parent its DDL names, if that parent is selected. */
  ghost predicate Settled(tables: Tables, extract: map<TableId, Result<TableId>>, selected: seq<TableId>, id: TableId) {
    id in extract && ParentNamed(tables, selected, id) ==>
      extract[id].Ok? && (extract[id].value in selected ==> tables[id].interleaveParent == Some(extract[id].value))
  }

  lemma LinkOneInside(tables: Tables, extract: map<TableId, Result<TableId>>, selected: seq<TableId>, id: TableId)
    requires id in extract && id in selected && LinksInside(tables, Elements(selected))
    ensures var r := LinkOne(tables, extract, selected, id);
      && LinksInside(r.tables, Elements(selected)) && OnlyLinksDiffer(tables, r.tables)
      && (r.error.None? ==> Settled(r.tables, extract, selected, id))
      && (forall c :: Settled(tables, extract, selected, c) ==> Settled(r.tables, extract, selected, c))
  {
    if id in tables {
      CandidateIsNamed(tables, selected, id);
    }
    LinkOnly(tables, extract, selected, id);
    LinkKeepsInside(tables, extract, selected, id);
    var r := LinkOne(tables, extract, selected, id);
    OnlyLinks(tables, r.tables, extract, selected);
    hide HasCandidate; hide ParentNamed; hide LinksInside; hide Elements; hide OnlyLinksDiffer;
  }

  lemma LinkKeepsInside(tables: Tables, extract: map<TableId, Result<TableId>>, selected: seq<TableId>, id: TableId)
    requires id in extract && id in selected && LinksInside(tables, Elements(selected))
    ensures LinksInside(LinkOne(tables, extract, selected, id).tables, Elements(selected))
  {
    assert id in Elements(selected);
    hide HasCandidate;
  }

  lemma CandidateIsNamed(tables: Tables, selected: seq<TableId>, id: TableId)
    requires id in tables
    ensures HasCandidate(tables[id].parentBasename, id, selected) <==> ParentNamed(tables, selected, id)
  {
    if HasCandidate(tables[id].parentBasename, id, selected) {
      var other :| other in selected && other != id && other.name == tables[id].parentBasename;
      var k :| 0 <= k < |selected| && selected[k] == other;
    }
  }

  /** Links stay inside the selection; only links change; on success every selected table whose DDL
      names a selected parent is linked to it. */
  lemma {:induction false} LinkAllInside(tables: Tables, extract: map<TableId, Result<TableId>>,
                                        selected: seq<TableId>, i: nat)
    requires i <= |selected| && (forall id :: id in selected ==> id in extract)
    requires LinksInside(tables, Elements(selected))
    ensures var r := LinkAll(tables, extract, selected, i);
      && LinksInside(r.tables, Elements(selected)) && OnlyLinksDiffer(tables, r.tables)
      && (r.error.None? ==> forall k :: 0 <= k < i ==> Settled(r.tables, extract, selected, selected[k]))
  {
    hide LinkOne; hide Settled; hide LinksInside; hide HasCandidate;
    if i > 0 {
      LinkAllInside(tables, extract, selected, i - 1);
      var r := LinkAll(tables, extract, selected, i - 1);
      if r.error.None? {
        LinkOneInside(r.tables, extract, selected, selected[i - 1]);
      }
    }
  }

  /** The DDL of id cannot be read, or names a selected parent that is not in the catalog. */
  ghost predicate Faulty(tables: Tables, extract: map<TableId, Result<TableId>>, selected: seq<TableId>, id: TableId)
    requires id in extract
  {
    ParentNamed(tables, selected, id)
    && (extract[id].Err? || (extract[id].value in selected && extract[id].value !in tables))
  }

  lemma LinkOneExactly(tables: Tables, extract: map<TableId, Result<TableId>>, selected: seq<TableId>, id: TableId)
    requires id in extract
    ensures var r := LinkOne(tables, extract, selected, id);
      && (r.error.None? <==> !Faulty(tables, extract, selected, id))
      && (r.error.None? ==> forall c, p :: c in tables ==>
           (r.tables[c].interleaveParent == Some(p) <==>
              if c == id && ParentNamed(tables, selected, id) && extract[id].value in selected
              then extract[id].value == p else tables[c].interleaveParent == Some(p)))
  {
    if id in tables {
      CandidateIsNamed(tables, selected, id);
    }
    hide HasCandidate;
  }

  /** The links of `after` are exactly from each table of the list with a named parent to the selected
      parent its DDL names. */
  ghost predicate LinksAre(tables: Tables, after: Tables, extract: map<TableId, Result<TableId>>,
                           selected: seq<TableId>, done: seq<TableId>)
    requires after.Keys == tables.Keys && forall id :: id in selected ==> id in extract
    requires forall c :: c in done ==> c in selected
  {
    forall c, p :: c in tables ==>
      (after[c].interleaveParent == Some(p) <==>
         c in done && ParentNamed(tables, selected, c) && extract[c] == Ok(p) && p in selected)
  }

  /** Starting without links: linking fails exactly if some selected table is faulty, and otherwise
      leaves exactly those links. */
  lemma {:induction false} LinksExactly(tables: Tables, extract: map<TableId, Result<TableId>>,
                                       selected: seq<TableId>, i: nat)
    requires i <= |selected| && forall id :: id in selected ==> id in extract
    requires forall c :: c in tables ==> tables[c].interleaveParent.None?
    ensures var r := LinkAll(tables, extract, selected, i);
      && OnlyLinksDiffer(tables, r.tables)
      && (r.error.None? <==> forall k :: 0 <= k < i ==> !Faulty(tables, extract, selected, selected[k]))
      && (r.error.None? ==> LinksAre(tables, r.tables, extract, selected, selected[..i]))
  {
    hide LinkOne; hide Faulty; hide LinksAre; hide OnlyLinksDiffer; hide ParentNamed;
    if i == 0 {
      NoLinksYet(tables, extract, selected);
    } else {
      LinksExactly(tables, extract, selected, i - 1);
      var r := LinkAll(tables, extract, selected, i - 1);
      if r.error.None? {
        LinkNext(tables, r.tables, extract, selected, i - 1);
      }
    }
  }

  lemma NoLinksYet(tables: Tables, extract: map<TableId, Result<TableId>>, selected: seq<TableId>)
    requires forall id :: id in selected ==> id in extract
    requires forall c :: c in tables ==> tables[c].interleaveParent.None?
    ensures OnlyLinksDiffer(tables, tables) && LinksAre(tables, tables, extract, selected, selected[..0])
  {
  }

  lemma LinkNext(tables: Tables, now: Tables, extract: map<TableId, Result<TableId>>, selected: seq<TableId>, i: nat)
    requires i < |selected| && forall id :: id in selected ==> id in extract
    requires OnlyLinksDiffer(tables, now) && LinksAre(tables, now, extract, selected, selected[..i])
    ensures var r := LinkOne(now, extract, selected, selected[i]);
      && OnlyLinksDiffer(tables, r.tables)
      && (r.error.None? <==> !Faulty(tables, extract, selected, selected[i]))
      && (r.error.None? ==> LinksAre(tables, r.tables, extract, selected, selected[..i + 1]))
  {
    var id := selected[i];
    LinkOneExactly(now, extract, selected, id);
    OnlyLinks(tables, now, extract, selected);
    LinkOnly(now, extract, selected, id);
    var r := LinkOne(now, extract, selected, id);
    assert forall c :: c in selected[..i + 1] <==> c in selected[..i] || c == id by {
      assert selected[..i + 1] == selected[..i] + [id];
    }
    FaultlessNamesParent(tables, extract, selected, id);
    hide LinkOne; hide ParentNamed; hide Faulty;
  }

  lemma FaultlessNamesParent(tables: Tables, extract: map<TableId, Result<TableId>>, selected: seq<TableId>,
                             id: TableId)
    requires id in extract
    ensures !Faulty(tables, extract, selected, id) && ParentNamed(tables, selected, id) ==> extract[id].Ok?
  {
  }

  lemma LinkOnly(tables: Tables, extract: map<TableId, Result<TableId>>, selected: seq<TableId>, id: TableId)
    requires id in extract
    ensures OnlyLinksDiffer(tables, LinkOne(tables, extract, selected, id).tables)
  {
  }

  lemma OnlyLinks(before: Tables, after: Tables, extract: map<TableId, Result<TableId>>, selected: seq<TableId>)
    requires OnlyLinksDiffer(before, after)
    ensures forall id :: ParentNamed(after, selected, id) <==> ParentNamed(before, selected, id)
    ensures forall id :: id in extract ==>
      (Faulty(after, extract, selected, id) <==> Faulty(before, extract, selected, id))
  {
  }

  /** Exactly the values that spell NO in any letter case exempt a foreign key. */
  lemma KnownNotEnforced(enforced: Option<string>)
    ensures IsKnownNotEnforced(enforced) <==>
            enforced in {Some("NO"), Some("No"), Some("nO"), Some("no")}
  {
    if IsKnownNotEnforced(enforced) {
      var s := enforced.value;
      assert s == [s[0], s[1]];
    }
  }

  /** A set holding d that is closed upwards and has no child of a refutes a as ancestor of d. */
  lemma NotAncestor(tables: Tables, a: TableId, d: TableId, U: set<TableId>)
    requires d in U
    requires forall x :: x in U && x in tables && tables[x].interleaveParent.Some? ==>
      tables[x].interleaveParent.value in U && tables[x].interleaveParent.value != a
    ensures !Ancestor(tables, a, d)
  {
    var L := ParentLinks(tables);
    if Ancestor(tables, a, d) {
      var c :| (a, c) in L && Reach(L, c, d);
      var p :| Walk(L, {}, p, c, d);
      ReachClosedBack(L, U, p, c, d);
    }
  }
}
