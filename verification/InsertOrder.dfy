/** What the order emitted by topologicalSort guarantees, cyclic graph or not. */
module InsertOrder {
  import opened TableIds
  import opened Digraph
  import opened Catalog

  ghost function Ready(E: set<(TableId, TableId)>, rem: set<TableId>): set<TableId> {
    set x | x in rem && Parents(E, x) !! rem
  }

  predicate WaitsForParent(tables: Tables, rem: set<TableId>, x: TableId) {
    x in tables && tables[x].interleaveParent.Some? && tables[x].interleaveParent.value in rem
  }

  /** Fallback candidates: interleave parent not waiting. */
  ghost function Candidates(tables: Tables, rem: set<TableId>): set<TableId> {
    set x | x in rem && !WaitsForParent(tables, rem, x)
  }

  ghost function PickSet(E: set<(TableId, TableId)>, tables: Tables, rem: set<TableId>): set<TableId> {
    if Ready(E, rem) != {} then Ready(E, rem)
    else if Candidates(tables, rem) != {} then Candidates(tables, rem)
    else rem
  }

  ghost function Left(S: set<TableId>, o: seq<TableId>, i: nat): set<TableId>
    requires i <= |o|
  {
    S - Elements(o[..i])
  }

  ghost predicate Picks(E: set<(TableId, TableId)>, tables: Tables, S: set<TableId>, o: seq<TableId>) {
    forall i :: 0 <= i < |o| ==> IsLeast(PickSet(E, tables, Left(S, o, i)), o[i])
  }

  /** o is the run of the sort: every position takes the least member of the pick set. */
  ghost predicate SortRun(tables: Tables, S: set<TableId>, o: seq<TableId>) {
    Lists(S, o) && Picks(OrderEdges(tables, S), tables, S, o)
  }

  /** The output is a function of the catalog and the selected set. */
  lemma SortRunUnique(tables: Tables, S: set<TableId>, a: seq<TableId>, b: seq<TableId>)
    requires SortRun(tables, S, a) && SortRun(tables, S, b)
    ensures a == b
  {
    ListsLength(S, a);
    ListsLength(S, b);
    SamePrefix(tables, S, a, b, |a|);
    assert a == a[..|a|] && b == b[..|a|];
  }

  lemma {:induction false} SamePrefix(tables: Tables, S: set<TableId>, a: seq<TableId>, b: seq<TableId>, k: nat)
    requires Picks(OrderEdges(tables, S), tables, S, a) && Picks(OrderEdges(tables, S), tables, S, b)
    requires k <= |a| == |b|
    ensures a[..k] == b[..k]
  {
    if k > 0 {
      SamePrefix(tables, S, a, b, k - 1);
      LeastUnique(PickSet(OrderEdges(tables, S), tables, Left(S, a, k - 1)), a[k - 1], b[k - 1]);
      assert a[..k] == a[..k - 1] + [a[k - 1]] && b[..k] == b[..k - 1] + [b[k - 1]];
    }
  }

  lemma InLeft(S: set<TableId>, o: seq<TableId>, i: nat, k: nat)
    requires Lists(S, o) && i <= k < |o|
    ensures o[k] in Left(S, o, i)
  {
    assert o[k] !in o[..i];
  }

  // ---- Tables without a cycle upstream ----

  ghost predicate Clean(E: set<(TableId, TableId)>, x: TableId) {
    forall c :: OnCycle(E, c) ==> !Reach(E, c, x)
  }

  /** While a clean table waits, some table is ready. */
  lemma CleanMeansReady(E: set<(TableId, TableId)>, rem: set<TableId>, x: TableId)
    requires x in rem && Clean(E, x)
    ensures Ready(E, rem) != {}
  {
    if Ready(E, rem) == {} {
      var R := set y | y in rem && Clean(E, y);
      forall y | y in R ensures HasPredecessor(E, R, y) {
        assert y !in Ready(E, rem);
        var z :| z in Parents(E, y) && z in rem;
        assert (z, y) in E;
        forall c | OnCycle(E, c) && Reach(E, c, z) ensures false {
          ReachEdge(E, {}, z, y);
          ReachTrans(E, {}, c, z, y);
        }
        assert z in R;
      }
      var c := NoSourceHasCycle(E, R, x);
      ReachRefl(E, {}, c);
      assert false;
    }
  }

  /** A clean table comes after all its prerequisites and before the first fallback pick. */
  lemma CleanPlaced(tables: Tables, S: set<TableId>, o: seq<TableId>, k: nat)
    requires SortRun(tables, S, o) && k < |o| && Clean(OrderEdges(tables, S), o[k])
    ensures Free(OrderEdges(tables, S), o[..k], o[k])
    ensures forall i :: 0 <= i <= k ==> Ready(OrderEdges(tables, S), Left(S, o, i)) != {}
  {
    var E := OrderEdges(tables, S);
    forall i | 0 <= i <= k ensures Ready(E, Left(S, o, i)) != {} {
      InLeft(S, o, i, k);
      CleanMeansReady(E, Left(S, o, i), o[k]);
    }
    assert o[k] in Ready(E, Left(S, o, k));
    ReadyIsFree(E, S, o, k, o[k]);
  }

  lemma ReadyIsFree(E: set<(TableId, TableId)>, S: set<TableId>, o: seq<TableId>, k: nat, x: TableId)
    requires k <= |o| && forall e :: e in E ==> e.0 in S
    ensures Parents(E, x) !! Left(S, o, k) <==> Free(E, o[..k], x)
  {
    if Parents(E, x) !! Left(S, o, k) {
      forall p | (p, x) in E ensures p in o[..k] {
        assert (p, x).0 in Parents(E, x);
      }
    }
    if Free(E, o[..k], x) {
      forall p | p in Parents(E, x) ensures p !in Left(S, o, k) {
        assert (p, x) in E;
      }
    }
  }

  ghost predicate Acyclic(E: set<(TableId, TableId)>) {
    forall c :: !OnCycle(E, c)
  }

  /** On an acyclic order graph the output is the lexicographically least topological order. */
  lemma AcyclicOrderIsLeast(tables: Tables, S: set<TableId>, o: seq<TableId>, other: seq<TableId>)
    requires SortRun(tables, S, o) && Acyclic(OrderEdges(tables, S))
    ensures TopoOrder(OrderEdges(tables, S), S, o) && Greedy(OrderEdges(tables, S), S, Less, o)
    ensures TopoOrder(OrderEdges(tables, S), S, other) ==> LexLeq(Less, o, other)
  {
    var E := OrderEdges(tables, S);
    forall i | 0 <= i < |o| ensures GreedyPick(E, S, Less, o[..i], o[i]) {
      CleanPlaced(tables, S, o, i);
      forall x | x in S && x !in o[..i] && Free(E, o[..i], x) ensures x == o[i] || Less(o[i], x) {
        ReadyIsFree(E, S, o, i, x);
        assert x in Ready(E, Left(S, o, i));
      }
    }
    assert GreedyPicks(E, S, Less, o);
    if TopoOrder(E, S, other) {
      GreedyIsLeast(E, S, Less, o, other);
    }
  }

  /** In a topological order a walk never leads back to an earlier position. */
  lemma {:induction false} WalkGoesForward(E: set<(TableId, TableId)>, S: set<TableId>, o: seq<TableId>,
                                        p: seq<TableId>, i: nat, b: TableId)
    requires TopoOrder(E, S, o) && (forall e :: e in E ==> e.1 in S)
    requires i < |o| && Walk(E, {}, p, o[i], b)
    ensures b in o[i..]
    decreases |p|
  {
    if |p| > 1 {
      var j :| 0 <= j < |o| && o[j] == p[1] by {
        assert (p[0], p[1]).1 in S;
      }
      assert (o[i], o[j]) in E;
      assert o[i] in o[..j];
      WalkGoesForward(E, S, o, p[1..], j, b);
      assert forall x :: x in o[j..] ==> x in o[i..];
    }
  }

  /** The output respects every order edge exactly when the order graph has no cycle. */
  lemma RespectsEdgesIffAcyclic(tables: Tables, S: set<TableId>, o: seq<TableId>)
    requires SortRun(tables, S, o)
    ensures TopoOrder(OrderEdges(tables, S), S, o) <==> Acyclic(OrderEdges(tables, S))
  {
    var E := OrderEdges(tables, S);
    if Acyclic(E) {
      AcyclicOrderIsLeast(tables, S, o, o);
    }
    if TopoOrder(E, S, o) {
      forall c ensures !OnCycle(E, c) {
        if OnCycle(E, c) {
          var d :| (c, d) in E && Reach(E, d, c);
          var p :| Walk(E, {}, p, d, c);
          assert (c, d).0 in S && (c, d).1 in S;
          var j :| 0 <= j < |o| && o[j] == d;
          assert c in o[..j];
          WalkGoesForward(E, S, o, p, j, c);
          assert false;
        }
      }
    }
  }

  // ---- Interleave parents ----

  /** With acyclic interleave links the last-resort candidate set is never used. */
  lemma CandidatesExist(tables: Tables, rem: set<TableId>)
    requires rem != {} && Acyclic(ParentLinks(tables))
    ensures Candidates(tables, rem) != {}
  {
    if Candidates(tables, rem) == {} {
      forall y | y in rem ensures HasPredecessor(ParentLinks(tables), rem, y) {
        assert y !in Candidates(tables, rem);
        assert (tables[y].interleaveParent.value, y) in ParentLinks(tables);
      }
      var x :| x in rem;
      var c := NoSourceHasCycle(ParentLinks(tables), rem, x);
      assert false;
    }
  }

  /** Every selected interleave parent precedes its child, whatever the foreign keys do. */
  lemma ParentPrecedesChild(tables: Tables, S: set<TableId>, o: seq<TableId>, k: nat)
    requires SortRun(tables, S, o) && Acyclic(ParentLinks(tables)) && k < |o|
    ensures Candidates(tables, Left(S, o, k)) != {}
    ensures o[k] in tables && tables[o[k]].interleaveParent.Some? && tables[o[k]].interleaveParent.value in S
         ==> tables[o[k]].interleaveParent.value in o[..k]
  {
    var E, rem, c := OrderEdges(tables, S), Left(S, o, k), o[k];
    InLeft(S, o, k, k);
    CandidatesExist(tables, rem);
    if c in tables && tables[c].interleaveParent.Some? && tables[c].interleaveParent.value in S {
      var p := tables[c].interleaveParent.value;
      assert (p, c) in ParentLinks(tables);
      ReachRefl(ParentLinks(tables), {}, c);
      assert Reach(ParentLinks(tables), c, c);
      assert !OnCycle(ParentLinks(tables), c);
      assert (p, c) in E;
      assert (p, c).0 in Parents(E, c);
    }
  }

  // ---- The sequential INSERT order is safe when no component is cyclic ----

  ghost predicate NoCyclicTable(tables: Tables, S: set<TableId>) {
    forall c :: c in S ==> !OnCycle(SafetyEdges(tables, S), c)
  }

  /** An interleave ancestor inside the selection is reachable in the safety graph. */
  lemma AncestorIsPrerequisite(tables: Tables, S: set<TableId>, a: TableId, d: TableId)
    requires LinksInside(tables, S) && Ancestor(tables, a, d)
    ensures ReachPlus(Flip(SafetyEdges(tables, S)), a, d)
  {
    var L, F := ParentLinks(tables), Flip(SafetyEdges(tables, S));
    forall e | e in L ensures e in F {
      assert IsPrerequisite(tables[e.1], e.0);
      assert (e.1, e.0) in SafetyEdges(tables, S);
      FlipEdge(SafetyEdges(tables, S), e.0, e.1);
      assert e == (e.0, e.1);
    }
    var c :| (a, c) in L && Reach(L, c, d);
    ReachWeaken(L, F, {}, {}, c, d);
  }

  lemma FlipCycle(E: set<(TableId, TableId)>, a: TableId)
    requires OnCycle(Flip(E), a)
    ensures OnCycle(E, a)
  {
    var c :| (a, c) in Flip(E) && Reach(Flip(E), c, a);
    var p :| Walk(Flip(E), {}, p, c, a);
    ReachFlip(Flip(E), {}, p, c, a);
    FlipFlip(E);
    FlipEdge(E, a, c);
    if a != c {
      var d := ReachFirst(E, {}, a, c);
      ReachEdge(E, {}, c, a);
      ReachTrans(E, {}, d, c, a);
    }
  }

  /** The reverse-ancestor skip never fires, so order edges and safety edges agree. */
  lemma OrderIsFlippedSafety(tables: Tables, S: set<TableId>)
    requires FkListsAgree(tables) && LinksInside(tables, S) && NoCyclicTable(tables, S)
    ensures OrderEdges(tables, S) == Flip(SafetyEdges(tables, S))
  {
    var G := SafetyEdges(tables, S);
    forall p, c ensures (p, c) in OrderEdges(tables, S) <==> (p, c) in Flip(G) {
      FlipEdge(G, p, c);
      if (c, p) in G {
        ReachRefl(G, {}, c);
        assert p != c;
        if Ancestor(tables, c, p) {
          AncestorIsPrerequisite(tables, S, c, p);
          PlusReach(Flip(G), c, p);
          assert OnCycle(Flip(G), p);
          FlipCycle(G, p);
        }
      }
    }
  }

  /** Every enforced non-self FK parent and every interleave parent precedes its dependent. */
  lemma SequentialOrderSafe(tables: Tables, S: set<TableId>, o: seq<TableId>, k: nat, p: TableId)
    requires FkListsAgree(tables) && LinksInside(tables, S) && NoCyclicTable(tables, S)
    requires SortRun(tables, S, o) && k < |o| && o[k] in tables
    requires p in S && IsPrerequisite(tables[o[k]], p)
    ensures p in o[..k]
  {
    var G := SafetyEdges(tables, S);
    OrderIsFlippedSafety(tables, S);
    forall c ensures !OnCycle(Flip(G), c) {
      if OnCycle(Flip(G), c) {
        FlipCycle(G, c);
      }
    }
    AcyclicOrderIsLeast(tables, S, o, o);
    FlipEdge(G, p, o[k]);
  }

  /** A catalog as the table query leaves it: no links and no foreign keys yet. */
  ghost predicate Bare(tables: Tables) {
    forall c :: c in tables ==>
          tables[c].interleaveParent.None? && tables[c].fkParents == []
          && tables[c].safetyFkParents == []
  }

  /** End to end: foreign keys loaded, interleave parents applied, no cyclic component in the
      selection. Then every enforced foreign key between selected tables, and every applied
      interleave link, has its parent dumped first. */
  lemma DumpOrderSafe(tables: Tables, rows: seq<ForeignKeyRow>, extract: map<TableId, Result<TableId>>,
                      selected: seq<TableId>,
                      o: seq<TableId>, k: nat, p: TableId)
    requires Bare(tables) && forall id :: id in selected ==> id in extract
    requires var final := LinkAll(ApplyRows(tables, rows), extract, selected, |selected|).tables;
      && NoCyclicTable(final, Elements(selected)) && SortRun(final, Elements(selected), o) && k < |o| && o[k] in tables
      && p in selected
      && (final[o[k]].interleaveParent == Some(p)
          || exists row ::
            row in rows && row.child == o[k] && row.parent == p && p != o[k] && Counted(tables.Keys, row))
    ensures p in o[..k]
  {
    var S := Elements(selected);
    var loaded := ApplyRows(tables, rows);
    ApplyRowsEdges(tables, rows);
    LinkAllInside(loaded, extract, selected, |selected|);
    var final := LinkAll(loaded, extract, selected, |selected|).tables;
    assert FkListsAgree(final);
    assert IsPrerequisite(final[o[k]], p);
    SequentialOrderSafe(final, S, o, k, p);
  }

  // ---- Downstream of a cycle the fallback promises nothing ----

  const A := TableId("", "a")
  const B := TableId("", "b")
  const C := TableId("", "c")
  const D := TableId("", "d")

  function Needing(p: TableId): TableDependency {
    TableDependency("", None, [p], [p])
  }

  /** a needs b, b needs c, and c and d need each other. */
  function TangledTables(): Tables {
    map[A := Needing(B), B := Needing(C), C := Needing(D), D := Needing(C)]
  }

  ghost function TangledEdges(): set<(TableId, TableId)> {
    {(B, A), (C, B), (D, C), (C, D)}
  }

  lemma Alphabet()
    ensures Less(A, B) && Less(A, C) && Less(A, D) && Less(B, C) && Less(B, D) && Less(C, D)
    ensures A != B && A != C && A != D && B != C && B != D && C != D
  {
    assert CompareStrings("", "") == 0;
    assert A.name[0] == 'a' && B.name[0] == 'b' && C.name[0] == 'c' && D.name[0] == 'd';
  }

  lemma NoLinks(a: TableId, d: TableId)
    ensures !Ancestor(TangledTables(), a, d)
  {
    NotAncestor(TangledTables(), a, d, {d});
  }

  lemma TangledOrderEdges()
    ensures OrderEdges(TangledTables(), {A, B, C, D}) == TangledEdges()
  {
    hide Ancestor; hide Less;
    Alphabet();
    var t, S := TangledTables(), {A, B, C, D};
    forall p, c ensures (p, c) in OrderEdges(t, S) <==> (p, c) in TangledEdges() {
      NoLinks(c, p);
      assert c in t ==> t[c].fkParents == [if c == A then B else if c == B then C else if c == C then D else C];
    }
  }

  /** With no links, a least table that a blocked set holds is the fallback's pick. */
  lemma BlockedPick(E: set<(TableId, TableId)>, tables: Tables, rem: set<TableId>, x: TableId)
    requires IsLeast(rem, x) && forall y :: y in tables ==> tables[y].interleaveParent.None?
    requires forall y :: y in rem ==> HasPredecessor(E, rem, y)
    ensures IsLeast(PickSet(E, tables, rem), x)
  {
    hide IsLeast;
    assert Candidates(tables, rem) == rem;
    forall y | y in rem ensures y !in Ready(E, rem) {
      var p :| p in rem && (p, y) in E;
      assert (p, y).0 in Parents(E, y);
    }
    assert Ready(E, rem) == {};
  }

  lemma Blocked(rem: set<TableId>)
    requires rem == {A, B, C, D} || rem == {B, C, D} || rem == {C, D}
    ensures forall y :: y in rem ==> HasPredecessor(TangledEdges(), rem, y)
  {
    Alphabet();
    assert (B, A) in TangledEdges() && (C, B) in TangledEdges() && (D, C) in TangledEdges() && (C, D) in TangledEdges();
  }

  lemma LastPick(tables: Tables)
    ensures IsLeast(PickSet(TangledEdges(), tables, {D}), D)
  {
    Alphabet();
    forall p | p in Parents(TangledEdges(), D) ensures p == C {
      assert (p, D) in TangledEdges();
    }
    assert D in Ready(TangledEdges(), {D});
  }

  lemma Lefts(o: seq<TableId>)
    requires o == [A, B, C, D]
    ensures Left({A, B, C, D}, o, 0) == {A, B, C, D} && Left({A, B, C, D}, o, 1) == {B, C, D}
    ensures Left({A, B, C, D}, o, 2) == {C, D} && Left({A, B, C, D}, o, 3) == {D}
  {
    Alphabet();
    assert o[..1] == [A] && o[..2] == [A, B] && o[..3] == [A, B, C];
  }

  lemma TangledRun()
    ensures SortRun(TangledTables(), {A, B, C, D}, [A, B, C, D])
  {
    hide Less; hide PickSet; hide HasPredecessor; hide TangledEdges;
    var t, S, o := TangledTables(), {A, B, C, D}, [A, B, C, D];
    Alphabet();
    TangledOrderEdges();
    Lefts(o);
    Blocked(S);
    Blocked({B, C, D});
    Blocked({C, D});
    hide Left;
    BlockedPick(TangledEdges(), t, S, A);
    BlockedPick(TangledEdges(), t, {B, C, D}, B);
    BlockedPick(TangledEdges(), t, {C, D}, C);
    LastPick(t);
    forall i | 0 <= i < |o| ensures IsLeast(PickSet(OrderEdges(t, S), t, Left(S, o, i)), o[i]) {
      assert i == 0 || i == 1 || i == 2 || i == 3;
    }
  }

  lemma NothingNeedsA(x: TableId)
    ensures Reach(TangledEdges(), A, x) ==> x == A
  {
    Alphabet();
    if Reach(TangledEdges(), A, x) {
      var p :| Walk(TangledEdges(), {}, p, A, x);
      ReachClosed(TangledEdges(), {A}, p, A, x);
    }
  }

  lemma OffCycle()
    ensures !OnCycle(TangledEdges(), A) && !OnCycle(TangledEdges(), B)
  {
    hide ReachAvoid;
    Alphabet();
    NothingNeedsA(B);
    assert forall c :: (A, c) !in TangledEdges();
    assert forall c :: (B, c) in TangledEdges() ==> c == A;
  }

  /** Downstream of a cycle the fallback can put a table before its prerequisite, even if both lie
      on no cycle: the run is a, b, c, d, although a needs b. */
  lemma FallbackBreaksOrder()
    ensures var t, S, o := TangledTables(), {A, B, C, D}, [A, B, C, D];
      && FkListsAgree(t) && LinksInside(t, S) && SortRun(t, S, o)
      && !OnCycle(OrderEdges(t, S), A) && !OnCycle(OrderEdges(t, S), B)
      && B in t[A].fkParents && A in o[..1] && B !in o[..1]
  {
    hide OrderEdges; hide SortRun; hide OnCycle; hide Less;
    Alphabet();
    TangledOrderEdges();
    TangledRun();
    OffCycle();
    hide TangledEdges;
    assert [A, B, C, D][..1] == [A];
  }
}
