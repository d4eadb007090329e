/** Cyclic dump groups, their shared byte budget and the unit plan
    (internal/mycli/dump_cyclic_mutations.go). Text is modelled byte by byte: one char per byte. */
module MutationPlan {
  import opened TableIds
  import opened Digraph
  import opened Catalog
  import opened InsertOrder
  import opened Components
  import opened Resolver

  const WARNING := "-- Cyclic MUTATE restore: one transaction per group; never automatically split.\n" +
                   "-- No prediction of the 80,000-mutation or 100 MiB service commit limits.\n" +
                   "-- A group may fail atomically at COMMIT; " +
                   "earlier groups, DDL and ordinary INSERTs may remain committed.\n"
  const BEGIN := WARNING + "BEGIN RW;\n"
  const END := "COMMIT;\n\n"

  datatype PlanError =
    | Canceled | OverBudget | Encoding(table: TableId) | NoWritableColumns(table: TableId) | Order(error: Error)
  datatype PlanResult<+T> = Good(value: T) | Bad(error: PlanError)

  /** What the source database returns for one table: each row encoded, or None where encoding fails. */
  datatype TableSource = TableSource(writableColumns: nat, rows: seq<Option<string>>)

  // ---- Text ----

  function Concat(parts: seq<string>): string {
    if parts == [] then "" else Concat(parts[..|parts| - 1]) + parts[|parts| - 1]
  }

  function Bytes(parts: seq<string>): nat {
    |Concat(parts)|
  }

  lemma {:induction false} BytesAdd(a: seq<string>, b: seq<string>)
    ensures Bytes(a + b) == Bytes(a) + Bytes(b)
  {
    if b == [] {
      assert a + b == a;
    } else {
      var n := |b| - 1;
      assert (a + b)[..|a + b| - 1] == a + b[..n];
      BytesAdd(a, b[..n]);
    }
  }

  // slices.Sort on strings
  function InsertText(x: string, s: seq<string>): seq<string> {
    if s == [] || CompareStrings(x, s[0]) < 0 then [x] + s else [s[0]] + InsertText(x, s[1..])
  }

  function SortText(s: seq<string>): seq<string> {
    if s == [] then [] else InsertText(s[0], SortText(s[1..]))
  }

  lemma {:induction false} InsertTextBytes(x: string, s: seq<string>)
    ensures Bytes(InsertText(x, s)) == Bytes(s) + |x|
  {
    assert Bytes([x]) == |x| by { assert Concat([x]) == Concat([x][..0]) + x; }
    if s == [] || CompareStrings(x, s[0]) < 0 {
      BytesAdd([x], s);
    } else {
      InsertTextBytes(x, s[1..]);
      BytesAdd([s[0]], InsertText(x, s[1..]));
      BytesAdd([s[0]], s[1..]);
      assert s == [s[0]] + s[1..];
    }
  }

  /** Sorting a table's statements does not change how many bytes they take. */
  lemma {:induction false} SortTextBytes(s: seq<string>)
    ensures Bytes(SortText(s)) == Bytes(s)
  {
    if s != [] {
      SortTextBytes(s[1..]);
      InsertTextBytes(s[0], SortText(s[1..]));
      BytesAdd([s[0]], s[1..]);
      assert Bytes([s[0]]) == |s[0]| by { assert Concat([s[0]]) == Concat([s[0]][..0]) + s[0]; }
      assert s == [s[0]] + s[1..];
    }
  }

  /** The order and the rows of a table's statements: sorted, same multiset. */
  lemma {:induction false} SortTextSorts(s: seq<string>)
    ensures multiset(SortText(s)) == multiset(s)
    ensures forall i, j :: 0 <= i < j < |SortText(s)| ==> CompareStrings(SortText(s)[j], SortText(s)[i]) >= 0
  {
    if s != [] {
      SortTextSorts(s[1..]);
      InsertTextSorted(s[0], SortText(s[1..]));
      assert s == [s[0]] + s[1..];
    }
  }

  predicate TextSorted(s: seq<string>) {
    forall i, j :: 0 <= i < j < |s| ==> CompareStrings(s[j], s[i]) >= 0
  }

  lemma {:induction false} InsertTextMembers(x: string, s: seq<string>)
    ensures multiset(InsertText(x, s)) == multiset(s) + multiset{x}
    ensures forall y :: y in InsertText(x, s) <==> y == x || y in s
  {
    hide CompareStrings;
    if s == [] || CompareStrings(x, s[0]) < 0 {
    } else {
      InsertTextMembers(x, s[1..]);
      assert s == [s[0]] + s[1..];
    }
  }

  lemma {:induction false} InsertTextSorted(x: string, s: seq<string>)
    requires TextSorted(s)
    ensures TextSorted(InsertText(x, s)) && multiset(InsertText(x, s)) == multiset(s) + multiset{x}
  {
    hide CompareStrings;
    InsertTextMembers(x, s);
    if s == [] {
    } else if CompareStrings(x, s[0]) < 0 {
      AllAbove(x, s);
      PrependSorted(x, s);
    } else {
      InsertTextSorted(x, s[1..]);
      InsertTextMembers(x, s[1..]);
      StringsTotal(x, s[0]);
      forall y | y in InsertText(x, s[1..]) ensures CompareStrings(y, s[0]) >= 0 {
      }
      PrependSorted(s[0], InsertText(x, s[1..]));
    }
  }

  lemma AllAbove(x: string, s: seq<string>)
    requires TextSorted(s) && s != [] && CompareStrings(x, s[0]) < 0
    ensures forall y :: y in s ==> CompareStrings(y, x) >= 0
  {
    hide CompareStrings;
    StringsTotal(s[0], s[0]);
    forall y | y in s ensures CompareStrings(y, x) >= 0 {
      if CompareStrings(y, x) < 0 {
        StringsTransitive(y, x, s[0]);
      }
    }
  }

  lemma PrependSorted(x: string, s: seq<string>)
    requires TextSorted(s) && forall y :: y in s ==> CompareStrings(y, x) >= 0
    ensures TextSorted([x] + s)
  {
    hide CompareStrings;
    var t := [x] + s;
    forall i, j | 0 <= i < j < |t| ensures CompareStrings(t[j], t[i]) >= 0 {
      assert t[j] == s[j - 1];
      assert i > 0 ==> t[i] == s[i - 1];
    }
  }

  // ---- One group ----

  datatype CyclicData = CyclicData(statements: seq<string>)

  /** Exactly what a group writes. */
  method WriteTo(data: CyclicData) returns (out: string)
    ensures out == WARNING + "BEGIN RW;\n" + Concat(data.statements) + "COMMIT;\n\n"
    ensures data.statements != [] ==> |out| == GroupBytes(data.statements)
  {
    out := BEGIN;
    var i := 0;
    while i < |data.statements|
      invariant i <= |data.statements| && out == BEGIN + Concat(data.statements[..i])
    {
      out := out + data.statements[i];
      i := i + 1;
      assert data.statements[..i][..i - 1] == data.statements[..i - 1];
    }
    assert data.statements[..i] == data.statements;
    out := out + END;
  }

  /** Bytes a group contributes to the dump: nothing at all when it has no statement. */
  function GroupBytes(statements: seq<string>): nat {
    if statements == [] then 0 else |BEGIN| + Bytes(statements) + |END|
  }

  predicate AllEncode(rows: seq<Option<string>>) {
    forall i :: 0 <= i < |rows| ==> rows[i].Some?
  }

  function Values(rows: seq<Option<string>>): (r: seq<string>)
    requires AllEncode(rows)
    ensures |r| == |rows|
  {
    if rows == [] then [] else Values(rows[..|rows| - 1]) + [rows[|rows| - 1].value]
  }

  /** A table can be dumped in a group: every row encodes, and a table without columns is empty. */
  predicate Dumpable(source: TableSource) {
    AllEncode(source.rows) && (source.writableColumns == 0 ==> source.rows == [])
  }

  predicate AllDumpable(tables: seq<TableId>, sources: map<TableId, TableSource>) {
    forall id :: id in tables ==> id in sources && Dumpable(sources[id])
  }

  /** A group's statements: each table's encoded rows, sorted, table after table. */
  function GroupStatements(tables: seq<TableId>, sources: map<TableId, TableSource>): seq<string>
    requires AllDumpable(tables, sources)
  {
    if tables == [] then []
    else
      var id := tables[|tables| - 1];
      assert id in tables;
      GroupStatements(tables[..|tables| - 1], sources) + SortText(Values(sources[id].rows))
  }

  class CyclicBudget {
    const limit: int
    var used: int

    constructor (limit: int)
      ensures this.limit == limit && used == 0
    {
      this.limit := limit;
      used := 0;
    }

    /** Between uses the budget is never overdrawn. */
    predicate Within()
      reads this
    {
      0 <= used && (used == 0 || used <= limit)
    }

    method Retain(size: nat) returns (ok: bool)
      requires Within()
      modifies this
      ensures Within()
      ensures ok <==> limit > 0 && old(used) + size <= limit
      ensures used == if ok then old(used) + size else old(used)
    {
      if limit <= 0 || size > limit - used {
        return false;
      }
      used := used + size;
      return true;
    }
  }

  /** Encodes one table's rows behind `statements`, charging each as it is produced. The first
      statement of a group also pays for its frame. */
  method EncodeTable(budget: CyclicBudget, statements: seq<string>, id: TableId, rows: seq<Option<string>>)
    returns (r: PlanResult<seq<string>>)
    requires budget.Within()
    modifies budget
    ensures budget.Within()
    ensures r.Good? ==> AllEncode(rows) && r.value == statements + Values(rows)
                        && budget.used - old(budget.used) == GroupBytes(r.value) - GroupBytes(statements)
    ensures r.Bad? ==> r.error in {Canceled, OverBudget, Encoding(id)}
    ensures r == Bad(Encoding(id)) ==> !AllEncode(rows)
    ensures r == Bad(OverBudget) && AllEncode(rows) ==>
      || budget.limit <= 0
      || old(budget.used) + GroupBytes(statements + Values(rows)) - GroupBytes(statements) > budget.limit
  {
    hide GroupBytes;
    hide Values;
    hide Concat;
    var all := statements;
    NoRowsYet(statements);
    assert rows[..0] == [];
    var i := 0;
    while i < |rows|
      invariant i <= |rows| && budget.Within() && AllEncode(rows[..i]) && all == statements + Values(rows[..i])
      invariant budget.used - old(budget.used) == GroupBytes(all) - GroupBytes(statements)
    {
      if * {
        return Bad(Canceled);
      }
      if rows[i].None? {
        return Bad(Encoding(id));
      }
      var statement := rows[i].value;
      EncodeStep(statements, rows, i);
      GroupBytesStep(all, statement);
      if all == [] {
        var framed := budget.Retain(|BEGIN| + |END|);
        if !framed {
          return Bad(OverBudget);
        }
      }
      var kept := budget.Retain(|statement|);
      if !kept {
        return Bad(OverBudget);
      }
      all := all + [statement];
      i := i + 1;
    }
    assert rows[..i] == rows;
    return Good(all);
  }

  lemma NoRowsYet(statements: seq<string>)
    ensures statements + Values([]) == statements
  {
  }

  /** One more statement costs its bytes; the first also costs the frame. */
  lemma GroupBytesStep(all: seq<string>, text: string)
    ensures GroupBytes(all + [text]) == GroupBytes(all) + |text| + if all == [] then |BEGIN| + |END| else 0
  {
    BytesAdd(all, [text]);
    assert Bytes([text]) == |text| by { assert Concat([text]) == Concat([text][..0]) + text; }
    if all == [] {
      assert all + [text] == [text];
    }
  }

  lemma EncodeStep(statements: seq<string>, rows: seq<Option<string>>, i: nat)
    requires i < |rows| && rows[i].Some? && AllEncode(rows[..i])
    ensures AllEncode(rows[..i + 1])
    ensures statements + Values(rows[..i + 1]) == statements + Values(rows[..i]) + [rows[i].value]
    ensures AllEncode(rows) ==> GroupBytes(statements + Values(rows[..i + 1])) <= GroupBytes(statements + Values(rows))
  {
    hide GroupBytes;
    hide Concat;
    hide Values;
    ValuesSnoc(rows, i);
    Join(statements, Values(rows[..i]), rows[i].value);
    GroupBytesGrow(statements, rows, i + 1);
  }

  lemma ValuesSnoc(rows: seq<Option<string>>, i: nat)
    requires i < |rows| && rows[i].Some? && AllEncode(rows[..i])
    ensures AllEncode(rows[..i + 1]) && Values(rows[..i + 1]) == Values(rows[..i]) + [rows[i].value]
  {
    assert rows[..i + 1][..i] == rows[..i];
  }

  lemma Join(a: seq<string>, b: seq<string>, c: string)
    ensures a + (b + [c]) == (a + b) + [c]
  {
  }

  /** More rows never take fewer bytes. */
  lemma {:induction false} GroupBytesGrow(statements: seq<string>, rows: seq<Option<string>>, i: nat)
    requires i <= |rows| && AllEncode(rows[..i])
    ensures AllEncode(rows) ==> GroupBytes(statements + Values(rows[..i])) <= GroupBytes(statements + Values(rows))
    decreases |rows| - i
  {
    hide GroupBytes;
    hide Concat;
    hide Values;
    if i == |rows| {
      assert rows[..i] == rows;
    } else if AllEncode(rows) {
      ValuesSnoc(rows, i);
      Join(statements, Values(rows[..i]), rows[i].value);
      GroupBytesStep(statements + Values(rows[..i]), rows[i].value);
      GroupBytesGrow(statements, rows, i + 1);
    }
  }

  /** prepareDumpCyclicData: the statements of one cyclic component, or the first failure. */
  method PrepareCyclicData(budget: CyclicBudget, tables: seq<TableId>, sources: map<TableId, TableSource>)
    returns (r: PlanResult<CyclicData>)
    requires budget.Within() && forall id :: id in tables ==> id in sources
    modifies budget
    ensures budget.Within()
    ensures r.Good? ==> AllDumpable(tables, sources)
    ensures r.Good? ==> r.value.statements == GroupStatements(tables, sources)
                        && budget.used == old(budget.used) + GroupBytes(r.value.statements)
    ensures r.Bad? ==> r.error.Canceled? || r.error.OverBudget? || Blames(r.error, tables, sources)
    ensures r == Bad(OverBudget) && AllDumpable(tables, sources) ==>
      budget.limit <= 0 || old(budget.used) + GroupBytes(GroupStatements(tables, sources)) > budget.limit
  {
    hide GroupBytes;
    hide Values;
    hide SortText;
    hide AllEncode;
    var statements: seq<string> := [];
    NothingYet();
    var i := 0;
    while i < |tables|
      invariant i <= |tables| && budget.Within()
      invariant AllDumpable(tables[..i], sources)
      invariant statements == GroupStatements(tables[..i], sources)
      invariant budget.used == old(budget.used) + GroupBytes(statements)
    {
      if * {
        return Bad(Canceled);
      }
      var source := sources[tables[i]];
      assert tables[..i + 1][..i] == tables[..i] && tables[..i + 1] == tables[..i] + [tables[i]];
      if source.writableColumns == 0 {
        if source.rows != [] {
          return Bad(NoWritableColumns(tables[i]));
        }
        NoRowsAdded(statements);
      } else {
        var start := |statements|;
        ghost var was := statements;
        var encoded := EncodeTable(budget, statements, tables[i], source.rows);
        if encoded.Bad? {
          EncodesIfDumpable(tables, sources, i);
          if AllEncode(source.rows) {
            OverAtTable(tables, sources, i);
          }
          return Bad(encoded.error);
        }
        SortTail(statements, encoded.value, Values(source.rows));
        TailOf(was, Values(source.rows));
        statements := encoded.value[..start] + SortText(encoded.value[start..]);
      }
      i := i + 1;
    }
    assert tables[..i] == tables;
    if * {
      return Bad(Canceled);
    }
    return Good(CyclicData(statements));
  }

  /** The error names a table that cannot be dumped in a group. */
  predicate Blames(error: PlanError, tables: seq<TableId>, sources: map<TableId, TableSource>) {
    && (error.Encoding? || error.NoWritableColumns?)
    && error.table in tables && error.table in sources && !Dumpable(sources[error.table])
  }

  lemma EncodesIfDumpable(tables: seq<TableId>, sources: map<TableId, TableSource>, i: nat)
    requires i < |tables| && tables[i] in sources
    ensures AllDumpable(tables, sources) ==> AllEncode(sources[tables[i]].rows)
    ensures !AllEncode(sources[tables[i]].rows) ==> Blames(Encoding(tables[i]), tables, sources)
  {
  }

  /** What a group takes up to and including table i, and that all its tables take no less. */
  lemma OverAtTable(tables: seq<TableId>, sources: map<TableId, TableSource>, i: nat)
    requires i < |tables| && AllDumpable(tables[..i], sources)
    ensures AllDumpable(tables, sources) ==>
      GroupBytes(GroupStatements(tables[..i], sources) + Values(sources[tables[i]].rows))
        <= GroupBytes(GroupStatements(tables, sources))
  {
    hide GroupBytes; hide Values; hide SortText;
    if AllDumpable(tables, sources) {
      var so, values := GroupStatements(tables[..i], sources), Values(sources[tables[i]].rows);
      SortTail(so, so + values, values);
      assert tables[..i + 1][..i] == tables[..i];
      GroupsGrow(tables, sources, i + 1);
    }
  }

  lemma MoreBytes(a: seq<string>, b: seq<string>)
    ensures GroupBytes(a) <= GroupBytes(a + b)
  {
    BytesAdd(a, b);
  }

  /** More tables never take fewer bytes. */
  lemma {:induction false} GroupsGrow(tables: seq<TableId>, sources: map<TableId, TableSource>, i: nat)
    requires i <= |tables| && AllDumpable(tables, sources)
    ensures GroupBytes(GroupStatements(tables[..i], sources)) <= GroupBytes(GroupStatements(tables, sources))
    decreases |tables| - i
  {
    hide GroupBytes; hide Values; hide SortText; hide AllEncode;
    if i == |tables| {
      assert tables[..i] == tables;
    } else {
      assert tables[..i + 1][..i] == tables[..i];
      MoreBytes(GroupStatements(tables[..i], sources), SortText(Values(sources[tables[i]].rows)));
      GroupsGrow(tables, sources, i + 1);
    }
  }

  lemma NothingYet()
    ensures GroupBytes([]) == 0 && AllDumpable([], map[]) && AllEncode([])
  {
  }

  lemma NoRowsAdded(statements: seq<string>)
    ensures AllEncode([]) && statements + SortText(Values([])) == statements
  {
  }

  lemma TailOf(a: seq<string>, b: seq<string>)
    ensures (a + b)[..|a|] == a && (a + b)[|a|..] == b
  {
  }

  lemma SortTail(statements: seq<string>, all: seq<string>, values: seq<string>)
    requires all == statements + values
    ensures GroupBytes(statements + SortText(values)) == GroupBytes(all)
  {
    SortTextBytes(values);
    BytesAdd(statements, values);
    BytesAdd(statements, SortText(values));
    SortTextSorts(values);
    assert |SortText(values)| == |multiset(SortText(values))| == |values|;
  }

  // ---- The plan ----

  datatype Unit = Table(id: TableId, empty: bool) | Group(tables: seq<TableId>, statements: seq<string>)

  predicate Has(u: Unit, x: TableId) {
    match u
    case Table(id, _) => id == x
    case Group(tables, _) => x in tables
  }

  /** How many units carry a table. */
  function Count(units: seq<Unit>, x: TableId): nat {
    if units == [] then 0 else Count(units[..|units| - 1], x) + if Has(units[|units| - 1], x) then 1 else 0
  }

  function UsedBytes(units: seq<Unit>): nat {
    if units == [] then 0
    else UsedBytes(units[..|units| - 1]) +
         match units[|units| - 1] { case Table(_, _) => 0 case Group(_, statements) => GroupBytes(statements) }
  }

  function TableUnits(tables: seq<TableId>, empty: bool): seq<Unit> {
    if tables == [] then [] else TableUnits(tables[..|tables| - 1], empty) + [Table(tables[|tables| - 1], empty)]
  }

  predicate Populated(comp: SafetyComponent, sources: map<TableId, TableSource>) {
    && comp.cyclic && AllDumpable(comp.tables, sources)
    && GroupStatements(comp.tables, sources) != []
  }

  /** One component: a single group when it is cyclic and populated, else one unit per table. */
  function Expand(comp: SafetyComponent, sources: map<TableId, TableSource>): seq<Unit> {
    if Populated(comp, sources) then [Group(comp.tables, GroupStatements(comp.tables, sources))]
    else TableUnits(comp.tables, comp.cyclic)
  }

  function ExpandAll(plan: seq<SafetyComponent>, sources: map<TableId, TableSource>): seq<Unit> {
    if plan == [] then [] else ExpandAll(plan[..|plan| - 1], sources) + Expand(plan[|plan| - 1], sources)
  }

  lemma {:induction false} CountAdd(a: seq<Unit>, b: seq<Unit>, x: TableId)
    ensures Count(a + b, x) == Count(a, x) + Count(b, x)
  {
    if b == [] {
      assert a + b == a;
    } else {
      assert (a + b)[..|a + b| - 1] == a + b[..|b| - 1];
      CountAdd(a, b[..|b| - 1], x);
    }
  }

  lemma {:induction false} TableUnitsCount(tables: seq<TableId>, empty: bool, x: TableId)
    requires NoDup(tables)
    ensures Count(TableUnits(tables, empty), x) == if x in tables then 1 else 0
  {
    if tables != [] {
      var n := |tables| - 1;
      TableUnitsCount(tables[..n], empty, x);
      assert tables == tables[..n] + [tables[n]];
      CountAdd(TableUnits(tables[..n], empty), [Table(tables[n], empty)], x);
      assert Count([Table(tables[n], empty)], x)
          == Count([Table(tables[n], empty)][..0], x) + if tables[n] == x then 1 else 0;
    }
  }

  lemma ExpandCount(comp: SafetyComponent, sources: map<TableId, TableSource>, x: TableId)
    requires NoDup(comp.tables)
    ensures Count(Expand(comp, sources), x) == if x in comp.tables then 1 else 0
  {
    if Populated(comp, sources) {
      var u := Group(comp.tables, GroupStatements(comp.tables, sources));
      assert Count([u], x) == Count([u][..0], x) + if Has(u, x) then 1 else 0;
    } else {
      TableUnitsCount(comp.tables, comp.cyclic, x);
    }
  }

  /** How many components list a table. */
  ghost function Listings(plan: seq<SafetyComponent>, x: TableId): nat {
    if plan == [] then 0 else Listings(plan[..|plan| - 1], x) + if x in plan[|plan| - 1].tables then 1 else 0
  }

  lemma {:induction false} ExpandAllCount(plan: seq<SafetyComponent>, sources: map<TableId, TableSource>, x: TableId)
    requires forall i :: 0 <= i < |plan| ==> NoDup(plan[i].tables)
    ensures Count(ExpandAll(plan, sources), x) == Listings(plan, x)
  {
    if plan != [] {
      var n := |plan| - 1;
      assert ExpandAll(plan, sources) == ExpandAll(plan[..n], sources) + Expand(plan[n], sources);
      hide Expand; hide ExpandAll; hide Count;
      ExpandAllCount(plan[..n], sources, x);
      ExpandCount(plan[n], sources, x);
      CountAdd(ExpandAll(plan[..n], sources), Expand(plan[n], sources), x);
    }
  }

  lemma {:induction false} ListingsZero(plan: seq<SafetyComponent>, x: TableId)
    requires forall i :: 0 <= i < |plan| ==> x !in plan[i].tables
    ensures Listings(plan, x) == 0
  {
    if plan != [] {
      ListingsZero(plan[..|plan| - 1], x);
    }
  }

  lemma {:induction false} ListingsOne(plan: seq<SafetyComponent>, x: TableId, i: nat)
    requires i < |plan| && x in plan[i].tables && forall j :: 0 <= j < |plan| && j != i ==> x !in plan[j].tables
    ensures Listings(plan, x) == 1
  {
    var n := |plan| - 1;
    if i == n {
      ListingsZero(plan[..n], x);
    } else {
      ListingsOne(plan[..n], x, i);
    }
  }

  /** Every selected table is in exactly one unit, every other table in none. */
  lemma PlanCovers(tables: Tables, S: set<TableId>, plan: seq<SafetyComponent>, sources: map<TableId, TableSource>,
                   x: TableId)
    requires IsSafetyPlan(tables, S, plan)
    ensures Count(ExpandAll(plan, sources), x) == if x in S then 1 else 0
  {
    PlanCoversOnce(tables, S, plan, x);
    ExpandAllCount(plan, sources, x);
    if x in S {
      var i :| 0 <= i < |plan| && x in plan[i].tables;
      ListingsOne(plan, x, i);
    } else {
      ListingsZero(plan, x);
    }
  }

  /** Units come in component order: a table of an earlier component is in an earlier unit. */
  lemma {:induction false} UnitsInComponentOrder(plan: seq<SafetyComponent>, sources: map<TableId, TableSource>,
                                                 i: nat, j: nat, c: TableId, p: TableId, k: nat, l: nat)
    requires j < i < |plan|
    requires forall a :: 0 <= a < |plan| ==> (c in plan[a].tables <==> a == i) && (p in plan[a].tables <==> a == j)
    requires k < |ExpandAll(plan, sources)| && l < |ExpandAll(plan, sources)|
    requires Has(ExpandAll(plan, sources)[k], c) && Has(ExpandAll(plan, sources)[l], p)
    ensures l < k
  {
    var n := |plan| - 1;
    var before := ExpandAll(plan[..n], sources);
    var last := Expand(plan[n], sources);
    assert ExpandAll(plan, sources) == before + last;
    hide ExpandAll; hide Expand; hide Has;
    if i == n {
      if k < |before| {
        HasListed(plan[..n], sources, c, k);
        assert false;
      }
      if l >= |before| {
        ExpandHas(plan[n], sources, p, l - |before|);
        assert false;
      }
    } else {
      if k >= |before| {
        ExpandHas(plan[n], sources, c, k - |before|);
        assert false;
      }
      if l >= |before| {
        ExpandHas(plan[n], sources, p, l - |before|);
        assert false;
      }
      UnitsInComponentOrder(plan[..n], sources, i, j, c, p, k, l);
    }
  }

  lemma {:induction false} TableUnitsHas(tables: seq<TableId>, empty: bool, x: TableId, k: nat)
    requires k < |TableUnits(tables, empty)| && Has(TableUnits(tables, empty)[k], x)
    ensures x in tables
  {
    var n := |tables| - 1;
    if k < |TableUnits(tables[..n], empty)| {
      TableUnitsHas(tables[..n], empty, x, k);
      assert x in tables[..n];
    }
  }

  lemma ExpandHas(comp: SafetyComponent, sources: map<TableId, TableSource>, x: TableId, k: nat)
    requires k < |Expand(comp, sources)| && Has(Expand(comp, sources)[k], x)
    ensures x in comp.tables
  {
    if !Populated(comp, sources) {
      TableUnitsHas(comp.tables, comp.cyclic, x, k);
    }
  }

  lemma {:induction false} HasListed(plan: seq<SafetyComponent>, sources: map<TableId, TableSource>, x: TableId, k: nat)
    requires k < |ExpandAll(plan, sources)| && Has(ExpandAll(plan, sources)[k], x)
    ensures exists a :: 0 <= a < |plan| && x in plan[a].tables
  {
    var n := |plan| - 1;
    var before := ExpandAll(plan[..n], sources);
    if k < |before| {
      HasListed(plan[..n], sources, x, k);
      var a :| 0 <= a < n && x in plan[..n][a].tables;
      assert x in plan[a].tables;
    } else {
      ExpandHas(plan[n], sources, x, k - |before|);
    }
  }

  /** If c needs p and they are in different components, p's unit comes first. */
  lemma PrerequisiteUnitFirst(tables: Tables, S: set<TableId>, plan: seq<SafetyComponent>,
                              sources: map<TableId, TableSource>, c: TableId, p: TableId, k: nat, l: nat)
    requires IsSafetyPlan(tables, S, plan) && c in S && p in S && c in tables && IsPrerequisite(tables[c], p)
    requires !Mutual(SafetyEdges(tables, S), c, p)
    requires k < |ExpandAll(plan, sources)| && l < |ExpandAll(plan, sources)|
    requires Has(ExpandAll(plan, sources)[k], c) && Has(ExpandAll(plan, sources)[l], p)
    ensures l < k
  {
    PlanCoversOnce(tables, S, plan, c);
    PlanCoversOnce(tables, S, plan, p);
    var i :| 0 <= i < |plan| && c in plan[i].tables;
    var j :| 0 <= j < |plan| && p in plan[j].tables;
    if i == j {
      assert c in Elements(plan[i].tables) && p in Elements(plan[i].tables);
      ReachTrans(SafetyEdges(tables, S), {}, c, plan[i].tables[0], p);
      ReachTrans(SafetyEdges(tables, S), {}, p, plan[i].tables[0], c);
      assert false;
    }
    PrerequisiteComponentFirst(tables, S, plan, i, j, c, p);
    UnitsInComponentOrder(plan, sources, i, j, c, p, k, l);
  }

  // ---- Legacy order when no group is populated ----

  predicate AllTables(units: seq<Unit>) {
    forall k :: 0 <= k < |units| ==> units[k].Table?
  }

  function Ids(units: seq<Unit>): (r: seq<TableId>)
    requires AllTables(units)
    ensures |r| == |units| && forall k :: 0 <= k < |units| ==> r[k] == units[k].id
  {
    if units == [] then [] else Ids(units[..|units| - 1]) + [units[|units| - 1].id]
  }

  predicate IsPositions(order: seq<TableId>, positions: map<TableId, int>) {
    forall i :: 0 <= i < |order| ==> order[i] in positions && positions[order[i]] == i
  }

  function InsertUnit(u: Unit, s: seq<Unit>, positions: map<TableId, int>): seq<Unit>
    requires u.Table? && AllTables(s)
  {
    if s == [] || Read(positions, u.id, 0) < Read(positions, s[0].id, 0) then [u] + s
    else [s[0]] + InsertUnit(u, s[1..], positions)
  }

  function SortUnits(s: seq<Unit>, positions: map<TableId, int>): (r: seq<Unit>)
    requires AllTables(s)
    ensures multiset(r) == multiset(s) && AllTables(r)
  {
    if s == [] then [] else
      var rest := SortUnits(s[1..], positions);
      InsertUnitMultiset(s[0], rest, positions);
      MultisetSplit(s);
      InsertUnit(s[0], rest, positions)
  }

  lemma MultisetSplit(s: seq<Unit>)
    requires s != []
    ensures multiset(s) == multiset(s[1..]) + multiset{s[0]}
  {
    assert s == [s[0]] + s[1..];
  }

  lemma {:induction false} InsertUnitMultiset(u: Unit, s: seq<Unit>, positions: map<TableId, int>)
    requires u.Table? && AllTables(s)
    ensures multiset(InsertUnit(u, s, positions)) == multiset(s) + multiset{u}
    ensures AllTables(InsertUnit(u, s, positions))
  {
    if s != [] && Read(positions, u.id, 0) >= Read(positions, s[0].id, 0) {
      InsertUnitMultiset(u, s[1..], positions);
      assert s == [s[0]] + s[1..];
    }
  }

  predicate ByPosition(s: seq<Unit>, positions: map<TableId, int>) {
    AllTables(s) && forall i, j :: 0 <= i < j < |s| ==> Read(positions, s[i].id, 0) <= Read(positions, s[j].id, 0)
  }

  lemma {:induction false} InsertUnitSorted(u: Unit, s: seq<Unit>, positions: map<TableId, int>)
    requires u.Table? && ByPosition(s, positions)
    ensures ByPosition(InsertUnit(u, s, positions), positions)
  {
    InsertUnitMultiset(u, s, positions);
    if s != [] && Read(positions, u.id, 0) >= Read(positions, s[0].id, 0) {
      InsertUnitSorted(u, s[1..], positions);
      InsertUnitMembers(u, s[1..], positions);
      var t := InsertUnit(u, s[1..], positions);
      forall j | 0 <= j < |t| ensures Read(positions, s[0].id, 0) <= Read(positions, t[j].id, 0) {
        assert t[j] in t;
        assert t[j] == u || t[j] in s[1..];
      }
    }
  }

  lemma {:induction false} InsertUnitMembers(u: Unit, s: seq<Unit>, positions: map<TableId, int>)
    requires u.Table? && AllTables(s)
    ensures forall v :: v in InsertUnit(u, s, positions) <==> v == u || v in s
  {
    if s != [] && Read(positions, u.id, 0) >= Read(positions, s[0].id, 0) {
      InsertUnitMembers(u, s[1..], positions);
      assert s == [s[0]] + s[1..];
    }
  }

  lemma {:induction false} SortUnitsSorts(s: seq<Unit>, positions: map<TableId, int>)
    requires AllTables(s)
    ensures ByPosition(SortUnits(s, positions), positions)
  {
    if s != [] {
      SortUnitsSorts(s[1..], positions);
      InsertUnitSorted(s[0], SortUnits(s[1..], positions), positions);
    }
  }

  /** A list of S whose positions in `order` never fall is `order` itself. */
  lemma PositionsForceOrder(S: set<TableId>, order: seq<TableId>, r: seq<TableId>, positions: map<TableId, int>, k: nat)
    requires Lists(S, order) && Lists(S, r) && IsPositions(order, positions) && k <= |r| && |r| == |order|
    requires forall i, j :: 0 <= i < j < |r| ==> Read(positions, r[i], 0) <= Read(positions, r[j], 0)
    ensures r[..k] == order[..k]
  {
    if k > 0 {
      PositionsForceOrder(S, order, r, positions, k - 1);
      assert forall i :: 0 <= i < k - 1 ==> r[..k - 1][i] == r[i] && order[..k - 1][i] == order[i];
      assert order[k - 1] in S && r[k - 1] in S;
      var j :| 0 <= j < |r| && r[j] == order[k - 1];
      var m :| 0 <= m < |order| && order[m] == r[k - 1];
      assert j >= k - 1 && m >= k - 1;
    }
  }

  lemma {:induction false} CountHas(units: seq<Unit>, x: TableId, k: nat)
    requires k < |units| && Has(units[k], x)
    ensures Count(units, x) >= 1
  {
    var n := |units| - 1;
    if k < n {
      CountHas(units[..n], x, k);
    }
  }

  lemma {:induction false} CountTwice(units: seq<Unit>, x: TableId, k: nat, l: nat)
    requires k < l < |units| && Has(units[k], x) && Has(units[l], x)
    ensures Count(units, x) >= 2
  {
    var n := |units| - 1;
    if l < n {
      CountTwice(units[..n], x, k, l);
    } else {
      CountHas(units[..n], x, k);
    }
  }

  lemma {:induction false} CountWitness(units: seq<Unit>, x: TableId) returns (k: nat)
    requires Count(units, x) >= 1
    ensures k < |units| && Has(units[k], x)
  {
    var n := |units| - 1;
    if Has(units[n], x) {
      k := n;
    } else {
      k := CountWitness(units[..n], x);
    }
  }

  lemma CountOne(u: Unit, x: TableId)
    ensures Count([u], x) == if Has(u, x) then 1 else 0
  {
    assert [u][..0] == [];
  }

  lemma {:induction false} InsertUnitCount(u: Unit, s: seq<Unit>, positions: map<TableId, int>, x: TableId)
    requires u.Table? && AllTables(s)
    ensures Count(InsertUnit(u, s, positions), x) == Count(s, x) + if Has(u, x) then 1 else 0
  {
    CountOne(u, x);
    if s == [] || Read(positions, u.id, 0) < Read(positions, s[0].id, 0) {
      CountAdd([u], s, x);
    } else {
      InsertUnitCount(u, s[1..], positions, x);
      CountAdd([s[0]], InsertUnit(u, s[1..], positions), x);
      CountAdd([s[0]], s[1..], x);
      assert s == [s[0]] + s[1..];
    }
  }

  lemma {:induction false} SortUnitsCount(s: seq<Unit>, positions: map<TableId, int>, x: TableId)
    requires AllTables(s)
    ensures Count(SortUnits(s, positions), x) == Count(s, x)
  {
    if s != [] {
      SortUnitsCount(s[1..], positions, x);
      InsertUnitCount(s[0], SortUnits(s[1..], positions), positions, x);
      CountOne(s[0], x);
      CountAdd([s[0]], s[1..], x);
      assert s == [s[0]] + s[1..];
    }
  }

  /** Table units covering S once, sorted by position in an order of S, come in that order. */
  lemma LegacyOrder(S: set<TableId>, order: seq<TableId>, sorted: seq<Unit>, positions: map<TableId, int>)
    requires ByPosition(sorted, positions) && Lists(S, order) && IsPositions(order, positions)
    requires forall x :: Count(sorted, x) == if x in S then 1 else 0
    ensures Ids(sorted) == order
  {
    var r := Ids(sorted);
    forall x ensures x in S <==> x in r {
      if x in S {
        var k := CountWitness(sorted, x);
        assert r[k] == x;
      }
      if j :| 0 <= j < |r| && r[j] == x {
        CountHas(sorted, x, j);
      }
    }
    forall i, j | 0 <= i < j < |r| ensures r[i] != r[j] {
      if r[i] == r[j] {
        CountTwice(sorted, r[i], i, j);
      }
    }
    ListsLength(S, order);
    ListsLength(S, r);
    PositionsForceOrder(S, order, r, positions, |r|);
    assert r[..|r|] == r && order[..|r|] == order;
  }

  // ---- prepareDumpMutationUnits ----

  method BuildPositions(order: seq<TableId>) returns (positions: map<TableId, int>)
    requires forall i, j :: 0 <= i < j < |order| ==> order[i] != order[j]
    ensures IsPositions(order, positions)
  {
    positions := map[];
    var i := 0;
    while i < |order|
      invariant i <= |order| && forall k :: 0 <= k < i ==> order[k] in positions && positions[order[k]] == k
    {
      positions := positions[order[i] := i];
      i := i + 1;
    }
  }

  lemma {:induction false} UsedBytesAdd(a: seq<Unit>, b: seq<Unit>)
    ensures UsedBytes(a + b) == UsedBytes(a) + UsedBytes(b)
  {
    if b == [] {
      assert a + b == a;
    } else {
      assert (a + b)[..|a + b| - 1] == a + b[..|b| - 1];
      UsedBytesAdd(a, b[..|b| - 1]);
    }
  }

  lemma {:induction false} TablesUseNothing(units: seq<Unit>)
    requires AllTables(units)
    ensures UsedBytes(units) == 0
  {
    if units != [] {
      TablesUseNothing(units[..|units| - 1]);
    }
  }

  lemma {:induction false} TableUnitsAreTables(tables: seq<TableId>, empty: bool)
    ensures AllTables(TableUnits(tables, empty))
  {
    if tables != [] {
      TableUnitsAreTables(tables[..|tables| - 1], empty);
    }
  }

  lemma GroupUsed(unit: Unit)
    requires unit.Group?
    ensures UsedBytes([unit]) == GroupBytes(unit.statements) && !AllTables([unit])
  {
    assert UsedBytes([unit]) == UsedBytes([unit][..0]) + GroupBytes(unit.statements);
    assert [unit][0].Group?;
  }

  /** One component's units and their cost. */
  method ExpandComponent(budget: CyclicBudget, comp: SafetyComponent, sources: map<TableId, TableSource>)
    returns (r: PlanResult<seq<Unit>>)
    requires budget.Within() && forall id :: id in comp.tables ==> id in sources
    modifies budget
    ensures budget.Within()
    ensures r.Good? ==> r.value == Expand(comp, sources) && budget.used == old(budget.used) + UsedBytes(r.value)
    ensures r.Good? && comp.cyclic ==> AllDumpable(comp.tables, sources)
    ensures r.Good? ==> (AllTables(r.value) <==> !Populated(comp, sources))
    ensures r.Bad? ==> !r.error.Order?
    ensures r.Bad? ==>
          r.error.Canceled? || r.error.OverBudget?
          || (comp.cyclic && Blames(r.error, comp.tables, sources))
    ensures r == Bad(OverBudget) && AllDumpable(comp.tables, sources) ==>
      budget.limit <= 0 || old(budget.used) + UsedBytes(Expand(comp, sources)) > budget.limit
    ensures r == Bad(OverBudget) ==> comp.cyclic
  {
    if * {
      return Bad(Canceled);
    }
    TableUnitsAreTables(comp.tables, comp.cyclic);
    TablesUseNothing(TableUnits(comp.tables, comp.cyclic));
    hide UsedBytes; hide GroupBytes; hide GroupStatements; hide Blames; hide AllDumpable; hide TableUnits;
    if comp.cyclic {
      var data := PrepareCyclicData(budget, comp.tables, sources);
      if data.Bad? {
        ExpandBytes(comp, sources);
        return Bad(data.error);
      }
      if data.value.statements != [] {
        var unit := Group(comp.tables, data.value.statements);
        GroupUsed(unit);
        return Good([unit]);
      }
    }
    return Good(TableUnits(comp.tables, comp.cyclic));
  }

  lemma ExpandBytes(comp: SafetyComponent, sources: map<TableId, TableSource>)
    requires comp.cyclic
    ensures AllDumpable(comp.tables, sources) ==>
      UsedBytes(Expand(comp, sources)) == GroupBytes(GroupStatements(comp.tables, sources))
  {
    TableUnitsAreTables(comp.tables, comp.cyclic);
    TablesUseNothing(TableUnits(comp.tables, comp.cyclic));
    if Populated(comp, sources) {
      var unit := Group(comp.tables, GroupStatements(comp.tables, sources));
      assert UsedBytes([unit]) == UsedBytes([unit][..0]) + GroupBytes(unit.statements);
    }
  }

  /** Every table of a cyclic component can be dumped in a group. */
  predicate CyclicDumpable(plan: seq<SafetyComponent>, sources: map<TableId, TableSource>) {
    forall i :: 0 <= i < |plan| && plan[i].cyclic ==> AllDumpable(plan[i].tables, sources)
  }

  /** The error names a table of a cyclic component that cannot be dumped in a group. */
  predicate BlamesPlan(error: PlanError, plan: seq<SafetyComponent>, sources: map<TableId, TableSource>) {
    exists i :: 0 <= i < |plan| && plan[i].cyclic && Blames(error, plan[i].tables, sources)
  }

  /** More components never take fewer bytes. */
  lemma {:induction false} PlanGrows(plan: seq<SafetyComponent>, sources: map<TableId, TableSource>, i: nat)
    requires i <= |plan|
    ensures UsedBytes(ExpandAll(plan[..i], sources)) <= UsedBytes(ExpandAll(plan, sources))
    decreases |plan| - i
  {
    hide Expand; hide UsedBytes;
    if i == |plan| {
      assert plan[..i] == plan;
    } else {
      PlanGrows(plan, sources, i + 1);
      assert plan[..i + 1][..i] == plan[..i];
      UsedBytesAdd(ExpandAll(plan[..i], sources), Expand(plan[i], sources));
    }
  }

  lemma ExpandNext(plan: seq<SafetyComponent>, sources: map<TableId, TableSource>, i: nat)
    requires i < |plan|
    ensures ExpandAll(plan[..i + 1], sources) == ExpandAll(plan[..i], sources) + Expand(plan[i], sources)
  {
    hide Expand;
    assert plan[..i + 1][..i] == plan[..i];
  }

  lemma OneMoreUnits(units: seq<Unit>, more: seq<Unit>)
    ensures UsedBytes(units + more) == UsedBytes(units) + UsedBytes(more)
    ensures AllTables(units + more) <==> AllTables(units) && AllTables(more)
    ensures AllTables(more) <==> !exists k :: 0 <= k < |more| && more[k].Group?
  {
    hide UsedBytes;
    UsedBytesAdd(units, more);
    AllTablesAdd(units, more);
  }

  method ExpandEach(budget: CyclicBudget, plan: seq<SafetyComponent>, sources: map<TableId, TableSource>)
    returns (r: PlanResult<seq<Unit>>, hasMutations: bool)
    requires budget.Within() && budget.used == 0
    requires forall i, id :: 0 <= i < |plan| && id in plan[i].tables ==> id in sources
    modifies budget
    ensures budget.Within()
    ensures r.Good? ==> r.value == ExpandAll(plan, sources) && budget.used == UsedBytes(r.value)
    ensures r.Good? ==> CyclicDumpable(plan, sources)
    ensures r.Good? ==> (hasMutations <==> !AllTables(r.value))
    ensures r.Bad? ==> !r.error.Order?
    ensures r.Bad? ==> r.error.Canceled? || r.error.OverBudget? || BlamesPlan(r.error, plan, sources)
    ensures r == Bad(OverBudget) && CyclicDumpable(plan, sources) ==>
      budget.limit <= 0 || UsedBytes(ExpandAll(plan, sources)) > budget.limit
  {
    hide ExpandAll; hide Expand; hide UsedBytes; hide AllTables; hide Populated; hide Blames; hide AllDumpable;
    NoUnits(sources);
    assert plan[..0] == [];
    var units: seq<Unit> := [];
    hasMutations := false;
    var i := 0;
    while i < |plan|
      invariant i <= |plan| && budget.Within()
      invariant units == ExpandAll(plan[..i], sources) && budget.used == UsedBytes(units)
      invariant hasMutations <==> !AllTables(units)
      invariant forall k :: 0 <= k < i && plan[k].cyclic ==> AllDumpable(plan[k].tables, sources)
    {
      ExpandNext(plan, sources, i);
      OneMoreUnits(units, Expand(plan[i], sources));
      var more := ExpandComponent(budget, plan[i], sources);
      if more.Bad? {
        PlanGrows(plan, sources, i + 1);
        return Bad(more.error), false;
      }
      hasMutations := hasMutations || exists k :: 0 <= k < |more.value| && more.value[k].Group?;
      units := units + more.value;
      i := i + 1;
    }
    assert plan[..i] == plan;
    return Good(units), hasMutations;
  }

  lemma NoUnits(sources: map<TableId, TableSource>)
    ensures ExpandAll([], sources) == [] && UsedBytes([]) == 0 && AllTables([])
  {
  }

  lemma AllTablesAdd(a: seq<Unit>, b: seq<Unit>)
    ensures AllTables(a + b) <==> AllTables(a) && AllTables(b)
  {
    assert forall k :: 0 <= k < |a| ==> (a + b)[k] == a[k];
    assert forall k :: 0 <= k < |b| ==> (a + b)[|a| + k] == b[k];
  }

  lemma PlanTablesSelected(tables: Tables, S: set<TableId>, plan: seq<SafetyComponent>)
    requires IsSafetyPlan(tables, S, plan)
    ensures forall i, id :: 0 <= i < |plan| && id in plan[i].tables ==> id in S
  {
    forall i, id | 0 <= i < |plan| && id in plan[i].tables ensures id in S {
      PlanCoversOnce(tables, S, plan, id);
    }
  }

  lemma PlanCoversAll(tables: Tables, S: set<TableId>, plan: seq<SafetyComponent>, sources: map<TableId, TableSource>)
    requires IsSafetyPlan(tables, S, plan)
    ensures forall x :: Count(ExpandAll(plan, sources), x) == if x in S then 1 else 0
  {
    forall x ensures Count(ExpandAll(plan, sources), x) == if x in S then 1 else 0 {
      PlanCovers(tables, S, plan, sources, x);
    }
  }

  // ---- What the units mean ----

  /** A table unit is marked empty exactly if its table lies on a cycle of prerequisites, and then the
      table has no rows; a group holds exactly the tables of one cyclic class, with at least one row. */
  ghost predicate UnitMeans(tables: Tables, S: set<TableId>, sources: map<TableId, TableSource>, u: Unit) {
    match u
    case Table(id, empty) =>
      && (empty <==> OnCycle(SafetyEdges(tables, S), id))
      && (empty ==> id in sources && sources[id].rows == [])
    case Group(ids, statements) =>
      && AllDumpable(ids, sources) && statements == GroupStatements(ids, sources) && statements != []
      && NoDup(ids) && ids != []
      && forall x :: x in ids ==> x in S && OnCycle(SafetyEdges(tables, S), x) && IsClassOf(tables, S, ids, x)
  }

  /** ids are the tables that reach x and are reached from it. */
  ghost predicate IsClassOf(tables: Tables, S: set<TableId>, ids: seq<TableId>, x: TableId) {
    forall y :: y in ids <==> y in S && Mutual(SafetyEdges(tables, S), x, y)
  }

  lemma {:induction false} TableUnitsFlag(tables: seq<TableId>, empty: bool, k: nat)
    requires k < |TableUnits(tables, empty)|
    ensures TableUnits(tables, empty)[k].Table? && TableUnits(tables, empty)[k].id in tables
    ensures TableUnits(tables, empty)[k].empty == empty
  {
    var n := |tables| - 1;
    if k < |TableUnits(tables[..n], empty)| {
      TableUnitsFlag(tables[..n], empty, k);
    }
  }

  /** How many rows the first n tables have. */
  function RowsBefore(tables: seq<TableId>, sources: map<TableId, TableSource>, n: nat): nat
    requires n <= |tables| && AllDumpable(tables, sources)
  {
    if n == 0 then 0 else
      assert tables[n - 1] in tables;
      RowsBefore(tables, sources, n - 1) + |sources[tables[n - 1]].rows|
  }

  lemma {:induction false} ValuesAt(rows: seq<Option<string>>, k: nat)
    requires AllEncode(rows) && k < |rows|
    ensures Values(rows)[k] == rows[k].value
  {
    if k < |rows| - 1 {
      ValuesAt(rows[..|rows| - 1], k);
    }
  }

  lemma {:induction false} RowsBeforePrefix(tables: seq<TableId>, sources: map<TableId, TableSource>, m: nat, n: nat)
    requires n <= m <= |tables| && AllDumpable(tables, sources)
    ensures RowsBefore(tables[..m], sources, n) == RowsBefore(tables, sources, n)
  {
    if n > 0 {
      RowsBeforePrefix(tables, sources, m, n - 1);
    }
  }

  /** From position a on come the given rows, in ascending order. */
  predicate IsBlock(statements: seq<string>, a: nat, rows: seq<Option<string>>)
    requires AllEncode(rows)
  {
    && a + |rows| <= |statements| && multiset(statements[a..a + |rows|]) == multiset(Values(rows))
    && TextSorted(statements[a..a + |rows|])
  }

  lemma LastBlock(before: seq<string>, rows: seq<Option<string>>)
    requires AllEncode(rows)
    ensures |SortText(Values(rows))| == |rows| && IsBlock(before + SortText(Values(rows)), |before|, rows)
  {
    hide TextSorted; hide AllEncode; hide Values; hide SortText;
    var block := SortText(Values(rows));
    RowsSorted(Values(rows));
    assert (before + block)[|before|..|before| + |block|] == block;
  }

  lemma RowsSorted(values: seq<string>)
    ensures var block := SortText(values);
      |block| == |values| && TextSorted(block) && multiset(block) == multiset(values)
  {
    SortTextSorts(values);
    hide SortText; hide CompareStrings;
    assert |multiset(SortText(values))| == |SortText(values)|;
    assert |multiset(values)| == |values|;
  }

  lemma BlockStays(statements: seq<string>, more: seq<string>, a: nat, rows: seq<Option<string>>)
    requires AllEncode(rows) && IsBlock(statements, a, rows)
    ensures IsBlock(statements + more, a, rows)
  {
    assert (statements + more)[a..a + |rows|] == statements[a..a + |rows|];
  }

  /** The statements of a group are the rows of its tables: as many as there are rows, those of the
      k-th table behind those of the tables before it, each table's in ascending order. */
  lemma {:induction false} GroupBlocks(tables: seq<TableId>, sources: map<TableId, TableSource>, k: nat)
    requires AllDumpable(tables, sources) && k < |tables|
    ensures |GroupStatements(tables, sources)| == RowsBefore(tables, sources, |tables|)
    ensures IsBlock(GroupStatements(tables, sources), RowsBefore(tables, sources, k), sources[tables[k]].rows)
  {
    hide SortText; hide Values; hide IsBlock; hide AllEncode;
    var n := |tables| - 1;
    var front, rows := tables[..n], sources[tables[n]].rows;
    assert tables[n] in tables && tables[k] in tables;
    LastBlock(GroupStatements(front, sources), rows);
    RowsBeforePrefix(tables, sources, n, n);
    RowsBeforePrefix(tables, sources, n, if k < n then k else n);
    if k < n {
      GroupBlocks(front, sources, k);
      BlockStays(GroupStatements(front, sources), SortText(Values(rows)), RowsBefore(tables, sources, k),
                 sources[tables[k]].rows);
    } else if n > 0 {
      GroupBlocks(front, sources, 0);
    }
  }

  /** Without statements there was no row. */
  lemma {:induction false} NoStatementNoRow(tables: seq<TableId>, sources: map<TableId, TableSource>, x: TableId)
    requires AllDumpable(tables, sources) && GroupStatements(tables, sources) == [] && x in tables
    ensures sources[x].rows == []
  {
    var n := |tables| - 1;
    SortTextSorts(Values(sources[tables[n]].rows));
    assert |multiset(SortText(Values(sources[tables[n]].rows)))| == |Values(sources[tables[n]].rows)|;
    if x != tables[n] {
      assert x in tables[..n];
      NoStatementNoRow(tables[..n], sources, x);
    }
  }

  lemma ClassMembers(tables: Tables, S: set<TableId>, comp: SafetyComponent, x: TableId)
    requires IsPlanComponent(tables, S, comp) && x in comp.tables
    ensures x in S && (OnCycle(SafetyEdges(tables, S), x) <==> comp.cyclic)
    ensures IsClassOf(tables, S, comp.tables, x)
  {
    var h := comp.tables[0];
    var E := SafetyEdges(tables, S);
    assert x in Elements(comp.tables) && h in Elements(comp.tables);
    ClassFacts(tables, S, h, x);
    forall y ensures y in comp.tables <==> y in Class(tables, S, h) {
      assert y in comp.tables <==> y in Elements(comp.tables);
    }
    if x != h {
      var c := ReachFirst(E, {}, x, h);
      ReachTrans(E, {}, c, h, x);
      var d := ReachFirst(E, {}, h, x);
      ReachTrans(E, {}, d, x, h);
    }
  }

  lemma ExpandMeans(tables: Tables, S: set<TableId>, comp: SafetyComponent, sources: map<TableId, TableSource>, k: nat)
    requires IsPlanComponent(tables, S, comp) && (comp.cyclic ==> AllDumpable(comp.tables, sources))
    requires k < |Expand(comp, sources)|
    ensures UnitMeans(tables, S, sources, Expand(comp, sources)[k])
  {
    hide SafetyEdges; hide OnCycle; hide Mutual; hide IsClassOf;
    if Populated(comp, sources) {
      forall x | x in comp.tables
        ensures x in S && OnCycle(SafetyEdges(tables, S), x) && IsClassOf(tables, S, comp.tables, x)
      {
        ClassMembers(tables, S, comp, x);
      }
    } else {
      TableUnitsFlag(comp.tables, comp.cyclic, k);
      var u := TableUnits(comp.tables, comp.cyclic)[k];
      ClassMembers(tables, S, comp, u.id);
      if comp.cyclic {
        NoStatementNoRow(comp.tables, sources, u.id);
      }
    }
  }

  lemma {:induction false} PlanMeans(tables: Tables, S: set<TableId>, plan: seq<SafetyComponent>,
                                    sources: map<TableId, TableSource>, k: nat)
    requires CyclicDumpable(plan, sources) && forall i :: 0 <= i < |plan| ==> IsPlanComponent(tables, S, plan[i])
    requires k < |ExpandAll(plan, sources)|
    ensures UnitMeans(tables, S, sources, ExpandAll(plan, sources)[k])
  {
    hide IsPlanComponent; hide UnitMeans; hide Expand; hide AllDumpable;
    var n := |plan| - 1;
    var before := ExpandAll(plan[..n], sources);
    if k < |before| {
      PlanMeans(tables, S, plan[..n], sources, k);
    } else {
      ExpandMeans(tables, S, plan[n], sources, k - |before|);
    }
  }

  lemma UnitsMean(tables: Tables, S: set<TableId>, plan: seq<SafetyComponent>, sources: map<TableId, TableSource>,
                  units: seq<Unit>)
    requires IsSafetyPlan(tables, S, plan) && CyclicDumpable(plan, sources)
    requires multiset(units) == multiset(ExpandAll(plan, sources))
    ensures forall u :: u in units ==> UnitMeans(tables, S, sources, u)
  {
    var all := ExpandAll(plan, sources);
    forall u | u in units ensures UnitMeans(tables, S, sources, u) {
      assert u in multiset(units) && u in multiset(all);
      var k :| 0 <= k < |all| && all[k] == u;
      PlanMeans(tables, S, plan, sources, k);
    }
  }

  /** The legacy sort: the same units, in the order of the sequential dump. */
  method SortLegacy(units: seq<Unit>, order: seq<TableId>, ghost S: set<TableId>) returns (r: seq<Unit>)
    requires AllTables(units) && Lists(S, order)
    requires forall x :: Count(units, x) == if x in S then 1 else 0
    ensures AllTables(r) && Ids(r) == order && multiset(r) == multiset(units)
    ensures forall x :: Count(r, x) == if x in S then 1 else 0
    ensures UsedBytes(r) == 0
  {
    var positions := BuildPositions(order);
    r := SortUnits(units, positions);
    SortUnitsSorts(units, positions);
    forall x ensures Count(r, x) == if x in S then 1 else 0 {
      SortUnitsCount(units, positions, x);
    }
    LegacyOrder(S, order, r, positions);
    TablesUseNothing(r);
  }

  /** The whole plan. On success every selected table is covered once, the budget equals what the
      groups write, and the order is the component order if some group is populated, else the
      legacy INSERT order. */
  method PrepareDumpMutationUnits(resolver: DependencyResolver, limit: int, selected: seq<TableId>,
                                  sources: map<TableId, TableSource>)
    returns (r: PlanResult<seq<Unit>>, used: int, ghost plan: seq<SafetyComponent>)
    requires forall id :: id in selected ==> id in sources
    ensures r.Good? ==> IsSafetyPlan(resolver.tables, Elements(selected), plan)
    ensures r.Good? ==> used == UsedBytes(r.value) && (used == 0 || used <= limit)
    ensures r.Good? ==> forall x :: Count(r.value, x) == if x in selected then 1 else 0
    ensures r.Good? ==> forall u :: u in r.value ==> UnitMeans(resolver.tables, Elements(selected), sources, u)
    ensures r.Good? && !AllTables(r.value) ==> r.value == ExpandAll(plan, sources)
    ensures r.Good? && AllTables(r.value) ==>
      multiset(r.value) == multiset(ExpandAll(plan, sources))
        && SortRun(resolver.tables, Elements(selected), Ids(r.value))
    ensures r.Bad? && r.error.Order? ==>
      exists id :: id in selected && !(id in resolver.tables && resolver.Exportable(id))
    ensures r.Bad? && !r.error.Order? ==> IsSafetyPlan(resolver.tables, Elements(selected), plan)
    ensures r.Bad? && !r.error.Order? ==> r.error.Canceled? || r.error.OverBudget? || BlamesPlan(r.error, plan, sources)
    ensures r == Bad(OverBudget) && CyclicDumpable(plan, sources) ==>
      limit <= 0 || UsedBytes(ExpandAll(plan, sources)) > limit
  {
    hide BlamesPlan; hide CyclicDumpable; hide UnitMeans;
    hide IsSafetyPlan; hide Picks; hide ExpandAll; hide Expand; hide Count; hide Lists;
    ghost var S := Elements(selected);
    plan, used := [], 0;
    var components := resolver.OrderedSafetyComponents(selected);
    if components.Err? {
      return Bad(Order(components.error)), used, plan;
    }
    plan := components.value;
    PlanTablesSelected(resolver.tables, S, plan);
    assert forall id :: id in S ==> id in sources;
    PlanCoversAll(resolver.tables, S, plan, sources);
    var budget := new CyclicBudget(limit);
    var hasMutations;
    r, hasMutations := ExpandEach(budget, components.value, sources);
    used := budget.used;
    if r.Good? {
      UnitsMean(resolver.tables, S, plan, sources, r.value);
    }
    if r.Bad? || hasMutations {
      return;
    }
    TablesUseNothing(r.value);
    var order := resolver.GetOrderForTables(selected);
    if order.Err? {
      return Bad(Order(order.error)), used, plan;
    }
    var units := SortLegacy(r.value, order.value, S);
    UnitsMean(resolver.tables, S, plan, sources, units);
    return Good(units), used, plan;
  }
}
