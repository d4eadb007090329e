/** Catalog identities and their total order (internal/mycli/dump_table_id.go). */
module TableIds {

  datatype Option<+T> = None | Some(value: T)

  datatype TableId = TableId(schema: string, name: string)

  /** Go's cmp.Compare on strings: lexicographic. */
  function CompareStrings(a: string, b: string): int {
    if a == [] then (if b == [] then 0 else -1)
    else if b == [] then 1
    else if a[0] < b[0] then -1
    else if b[0] < a[0] then 1
    else CompareStrings(a[1..], b[1..])
  }

  /** Schema first, then name. */
  function Compare(a: TableId, b: TableId): int {
    var c := CompareStrings(a.schema, b.schema);
    if c != 0 then c else CompareStrings(a.name, b.name)
  }

  predicate Less(a: TableId, b: TableId) {
    Compare(a, b) < 0
  }

  lemma {:induction false} StringsTotal(a: string, b: string)
    ensures CompareStrings(a, b) == 0 <==> a == b
    ensures CompareStrings(a, b) < 0 <==> CompareStrings(b, a) > 0
  {
    if a != [] && b != [] && a[0] == b[0] {
      StringsTotal(a[1..], b[1..]);
      assert a == [a[0]] + a[1..] && b == [b[0]] + b[1..];
    }
  }

  lemma {:induction false} StringsTransitive(a: string, b: string, c: string)
    requires CompareStrings(a, b) < 0 && CompareStrings(b, c) < 0
    ensures CompareStrings(a, c) < 0
  {
    if a != [] && b != [] && c != [] && a[0] == b[0] == c[0] {
      StringsTransitive(a[1..], b[1..], c[1..]);
    }
  }

  /** a comes before b: at the first place where they differ, or where a ends, b goes on or is larger. */
  ghost predicate Precedes(a: string, b: string) {
    exists k :: 0 <= k <= |a| && k < |b| && a[..k] == b[..k] && (k == |a| || a[k] < b[k])
  }

  lemma PrecedesTail(a: string, b: string)
    requires a != [] && b != [] && a[0] == b[0]
    ensures Precedes(a, b) <==> Precedes(a[1..], b[1..])
  {
    if Precedes(a[1..], b[1..]) {
      var k :| 0 <= k <= |a[1..]| && k < |b[1..]| && a[1..][..k] == b[1..][..k]
        && (k == |a[1..]| || a[1..][k] < b[1..][k]);
      assert a[..k + 1] == [a[0]] + a[1..][..k] && b[..k + 1] == [b[0]] + b[1..][..k];
    }
    if Precedes(a, b) {
      var k :| 0 <= k <= |a| && k < |b| && a[..k] == b[..k] && (k == |a| || a[k] < b[k]);
      assert a[1..][..k - 1] == a[..k][1..] && b[1..][..k - 1] == b[..k][1..];
    }
  }

  lemma PrecedesHead(a: string, b: string)
    requires a == [] || b == [] || a[0] != b[0]
    ensures Precedes(a, b) <==> b != [] && (a == [] || a[0] < b[0])
  {
    if b != [] && (a == [] || a[0] < b[0]) {
      assert a[..0] == b[..0];
    }
    if Precedes(a, b) {
      var k :| 0 <= k <= |a| && k < |b| && a[..k] == b[..k] && (k == |a| || a[k] < b[k]);
      if k > 0 {
        assert false;
      }
    }
  }

  lemma {:induction false} StringsLexicographic(a: string, b: string)
    ensures CompareStrings(a, b) < 0 <==> Precedes(a, b)
  {
    hide Precedes;
    if a != [] && b != [] && a[0] == b[0] {
      StringsLexicographic(a[1..], b[1..]);
      PrecedesTail(a, b);
    } else {
      PrecedesHead(a, b);
    }
  }

  /** Schema before name, both lexicographic. */
  lemma SchemaFirst(a: TableId, b: TableId)
    ensures Less(a, b) <==> Precedes(a.schema, b.schema) || (a.schema == b.schema && Precedes(a.name, b.name))
  {
    StringsLexicographic(a.schema, b.schema);
    StringsLexicographic(a.name, b.name);
    StringsTotal(a.schema, b.schema);
  }

  /** `compare` is a strict total order on identities: trichotomy. */
  lemma Total(a: TableId, b: TableId)
    ensures Less(a, b) || a == b || Less(b, a)
    ensures !(Less(a, b) && Less(b, a)) && !Less(a, a)
  {
    StringsTotal(a.schema, b.schema);
    StringsTotal(a.name, b.name);
    StringsTotal(b.schema, a.schema);
    StringsTotal(b.name, a.name);
    StringsTotal(a.schema, a.schema);
    StringsTotal(a.name, a.name);
  }

  lemma Transitive(a: TableId, b: TableId, c: TableId)
    requires Less(a, b) && Less(b, c)
    ensures Less(a, c)
  {
    StringsTotal(a.schema, b.schema);
    StringsTotal(b.schema, c.schema);
    StringsTotal(a.schema, c.schema);
    if a.schema == b.schema && b.schema == c.schema {
      StringsTransitive(a.name, b.name, c.name);
    } else if a.schema != b.schema && b.schema != c.schema {
      StringsTransitive(a.schema, b.schema, c.schema);
    }
  }

  // ---- Sorting, as slices.SortFunc with `compare` leaves a slice ----

  predicate Sorted(s: seq<TableId>) {
    forall i, j :: 0 <= i < j < |s| ==> !Less(s[j], s[i])
  }

  function Insert(x: TableId, s: seq<TableId>): seq<TableId> {
    if s == [] || Less(x, s[0]) then [x] + s else [s[0]] + Insert(x, s[1..])
  }

  function SortIds(s: seq<TableId>): seq<TableId> {
    if s == [] then [] else Insert(s[0], SortIds(s[1..]))
  }

  lemma {:induction false} InsertMultiset(x: TableId, s: seq<TableId>)
    ensures multiset(Insert(x, s)) == multiset(s) + multiset{x}
  {
    if s == [] || Less(x, s[0]) {
      assert multiset([x] + s) == multiset{x} + multiset(s);
    } else {
      InsertMultiset(x, s[1..]);
      assert s == [s[0]] + s[1..];
    }
  }

  lemma {:induction false} InsertMembers(x: TableId, s: seq<TableId>)
    ensures forall y :: y in Insert(x, s) <==> y == x || y in s
  {
    if s != [] && !Less(x, s[0]) {
      InsertMembers(x, s[1..]);
      assert s == [s[0]] + s[1..];
    }
  }

  lemma {:induction false} InsertSorted(x: TableId, s: seq<TableId>)
    requires Sorted(s)
    ensures Sorted(Insert(x, s))
  {
    if s == [] {
    } else if Less(x, s[0]) {
      forall j | 0 <= j < |s| ensures !Less(s[j], x) {
        if Less(s[j], x) {
          Transitive(s[j], x, s[0]);
          Total(s[0], s[0]);
        }
      }
    } else {
      InsertSorted(x, s[1..]);
      InsertMembers(x, s[1..]);
      var t := Insert(x, s[1..]);
      forall j | 0 <= j < |t| ensures !Less(t[j], s[0]) {
        assert t[j] in t;
        assert t[j] == x || t[j] in s[1..];
      }
    }
  }

  lemma {:induction false} SortIdsSorts(s: seq<TableId>)
    ensures Sorted(SortIds(s)) && multiset(SortIds(s)) == multiset(s)
  {
    if s != [] {
      SortIdsSorts(s[1..]);
      InsertSorted(s[0], SortIds(s[1..]));
      InsertMultiset(s[0], SortIds(s[1..]));
      assert s == [s[0]] + s[1..];
    }
  }

  lemma SameElements(s: seq<TableId>, t: seq<TableId>)
    requires multiset(s) == multiset(t)
    ensures forall x :: x in s <==> x in t
  {
    forall x ensures x in s <==> x in t {
      assert x in s <==> x in multiset(s);
      assert x in t <==> x in multiset(t);
    }
  }

  lemma SortIdsElements(s: seq<TableId>)
    ensures forall x :: x in SortIds(s) <==> x in s
  {
    SortIdsSorts(s);
    SameElements(s, SortIds(s));
  }

  lemma SortedTail(s: seq<TableId>)
    requires Sorted(s) && s != []
    ensures Sorted(s[1..])
  {
  }

  lemma TailMultiset(s: seq<TableId>)
    requires s != []
    ensures multiset(s[1..]) == multiset(s) - multiset{s[0]}
  {
    assert s == [s[0]] + s[1..];
  }

  lemma SameHead(s: seq<TableId>, t: seq<TableId>)
    requires Sorted(s) && Sorted(t) && s != [] && t != [] && s[0] in t && t[0] in s
    ensures s[0] == t[0]
  {
    Total(s[0], t[0]);
    var i :| 0 <= i < |t| && t[i] == s[0];
    var j :| 0 <= j < |s| && s[j] == t[0];
  }

  /** Every sort by `compare` gives the same slice, whatever the input order. */
  lemma {:induction false} SortUnique(s: seq<TableId>, t: seq<TableId>)
    requires Sorted(s) && Sorted(t) && multiset(s) == multiset(t)
    ensures s == t
  {
    SameElements(s, t);
    if s == [] {
      assert |multiset(t)| == 0;
    } else {
      assert s[0] in t;
      assert t[0] in s;
      SameHead(s, t);
      SortedTail(s);
      SortedTail(t);
      hide Sorted;
      TailMultiset(s);
      TailMultiset(t);
      SortUnique(s[1..], t[1..]);
      assert s == [s[0]] + s[1..] && t == [t[0]] + t[1..];
    }
  }

  lemma SortPermutation(a: seq<TableId>, b: seq<TableId>)
    requires multiset(a) == multiset(b)
    ensures SortIds(a) == SortIds(b)
  {
    SortIdsSorts(a);
    SortIdsSorts(b);
    SortUnique(SortIds(a), SortIds(b));
  }

  type Adjacency = map<TableId, seq<TableId>>

  /** The edges of an adjacency map. */
  ghost function EdgesOf(g: Adjacency): set<(TableId, TableId)> {
    set u, v | u in g.Keys && v in g[u] :: (u, v)
  }

  predicate NoDup<T(==)>(s: seq<T>) {
    forall i, j :: 0 <= i < j < |s| ==> s[i] != s[j]
  }

  lemma NoDupAppend<T>(s: seq<T>, x: T)
    requires NoDup(s) && x !in s
    ensures NoDup(s + [x])
  {
  }

  ghost function Elements<T>(s: seq<T>): set<T> {
    set x | x in s
  }

  lemma ElementsNext<T>(s: seq<T>, i: nat)
    requires i < |s|
    ensures Elements(s[..i + 1]) == Elements(s[..i]) + {s[i]}
  {
    assert s[..i + 1] == s[..i] + [s[i]];
  }

  lemma NoDupMultiset(s: seq<TableId>, t: seq<TableId>)
    requires NoDup(s) && NoDup(t) && Elements(s) == Elements(t)
    ensures multiset(s) == multiset(t)
  {
    NoDupCounts(s);
    NoDupCounts(t);
    forall x ensures multiset(s)[x] == multiset(t)[x] {
      assert x in Elements(s) <==> x in s;
      assert x in Elements(t) <==> x in t;
    }
  }

  lemma {:induction false} NoDupCounts<T>(s: seq<T>)
    requires NoDup(s)
    ensures forall x :: multiset(s)[x] == if x in s then 1 else 0
  {
    if s != [] {
      NoDupCounts(s[1..]);
      assert s == [s[0]] + s[1..];
    }
  }

  lemma {:induction false} NoDupFromCounts(s: seq<TableId>)
    requires forall x :: x in s ==> multiset(s)[x] == 1
    ensures NoDup(s)
  {
    if s != [] {
      var rest := s[1..];
      assert s == [s[0]] + rest;
      assert s[0] in s;
      assert s[0] !in multiset(rest);
      forall x | x in rest ensures multiset(rest)[x] == 1 {
        assert x in s && x in multiset(rest);
      }
      NoDupFromCounts(rest);
    }
  }

  lemma NoDupLength<T>(s: seq<T>)
    requires NoDup(s)
    ensures |Elements(s)| == |s|
  {
    if s != [] {
      var rest := s[..|s| - 1];
      NoDupLength(rest);
      assert s == rest + [s[|s| - 1]];
      assert Elements(s) == Elements(rest) + {s[|s| - 1]};
    }
  }

  // ---- The least identity of a set ----

  ghost predicate IsLeast(S: set<TableId>, x: TableId) {
    x in S && forall y :: y in S ==> y == x || Less(x, y)
  }

  lemma {:induction false} LeastExists(S: set<TableId>)
    requires S != {}
    ensures exists x :: IsLeast(S, x)
  {
    var x :| x in S;
    if S == {x} {
      assert IsLeast(S, x);
    } else {
      var R := S - {x};
      assert S == R + {x};
      LeastExists(R);
      var m :| IsLeast(R, m);
      Total(x, m);
      if Less(x, m) {
        forall y | y in S ensures y == x || Less(x, y) {
          if y != x && y != m { Transitive(x, m, y); }
        }
        assert IsLeast(S, x);
      } else {
        assert IsLeast(S, m);
      }
    }
  }

  lemma LeastUnique(S: set<TableId>, x: TableId, y: TableId)
    requires IsLeast(S, x) && IsLeast(S, y)
    ensures x == y
  {
    Total(x, y);
  }

  /** The first element of a sorted slice of S is the least element of S. */
  lemma SortedHeadIsLeast(s: seq<TableId>)
    requires s != [] 
    ensures SortIds(s) != [] && IsLeast(Elements(s), SortIds(s)[0])
  {
    SortIdsSorts(s);
    SortIdsElements(s);
    var t := SortIds(s);
    assert s[0] in t;
    forall y | y in Elements(s) ensures y == t[0] || Less(t[0], y) {
      assert y in t;
      var i :| 0 <= i < |t| && t[i] == y;
      Total(y, t[0]);
    }
    assert t[0] in s;
  }
}
