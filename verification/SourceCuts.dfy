/** removeDumpInlineFKs (internal/mycli/dump_ddl_replay.go): cutting foreign keys out of the text of
    a CREATE TABLE. The statement's text is given as tokens: declarations, the commas between them,
    and everything else. */
module SourceCuts {
  import opened TableIds

  /** A declaration is a column, constraint or synonym; an inline foreign key names its target. */
  datatype Token = Text(text: string) | Comma | Decl(text: string, target: Option<TableId>)

  function TextOf(t: Token): string {
    match t
    case Text(s) => s
    case Comma => ","
    case Decl(s, _) => s
  }

  function Render(tokens: seq<Token>): string {
    if tokens == [] then "" else Render(tokens[..|tokens| - 1]) + TextOf(tokens[|tokens| - 1])
  }

  // ---- The cut loop, for any ranges sorted by start ----

  datatype Range = Range(start: nat, end: nat)

  ghost predicate Covered(cuts: seq<Range>, i: nat) {
    exists k :: 0 <= k < |cuts| && cuts[k].start <= i < cuts[k].end
  }

  /** The bytes of sql[..n] outside the union of the cuts. */
  ghost function Outside(sql: string, cuts: seq<Range>, n: nat): string
    requires n <= |sql|
  {
    if n == 0 then ""
    else Outside(sql, cuts, n - 1) + if Covered(cuts, n - 1) then "" else [sql[n - 1]]
  }

  lemma {:induction false} OutsideKept(sql: string, cuts: seq<Range>, a: nat, b: nat)
    requires a <= b <= |sql| && forall i :: a <= i < b ==> !Covered(cuts, i)
    ensures Outside(sql, cuts, b) == Outside(sql, cuts, a) + sql[a..b]
  {
    if a < b {
      OutsideKept(sql, cuts, a, b - 1);
      assert sql[a..b] == sql[a..b - 1] + [sql[b - 1]];
    }
  }

  lemma {:induction false} OutsideCut(sql: string, cuts: seq<Range>, a: nat, b: nat)
    requires a <= b <= |sql| && forall i :: a <= i < b ==> Covered(cuts, i)
    ensures Outside(sql, cuts, b) == Outside(sql, cuts, a)
  {
    if a < b {
      OutsideCut(sql, cuts, a, b - 1);
    }
  }

  predicate SortedByStart(cuts: seq<Range>) {
    forall i, j :: 0 <= i < j < |cuts| ==> cuts[i].start <= cuts[j].start
  }

  method ApplyCuts(sql: string, cuts: seq<Range>) returns (out: string)
    requires SortedByStart(cuts) && forall k :: 0 <= k < |cuts| ==> cuts[k].start <= cuts[k].end <= |sql|
    ensures out == Outside(sql, cuts, |sql|)
  {
    out := "";
    var previous: nat := 0;
    var j := 0;
    while j < |cuts|
      invariant j <= |cuts| && previous <= |sql|
      invariant forall k :: 0 <= k < j ==> cuts[k].end <= previous
      invariant out == Outside(sql, cuts, previous)
    {
      var cut := cuts[j];
      if cut.start > previous {
        OutsideKept(sql, cuts, previous, cut.start);
        out := out + sql[previous..cut.start];
        OutsideCut(sql, cuts, cut.start, cut.end);
      } else if cut.end > previous {
        OutsideCut(sql, cuts, previous, cut.end);
      }
      previous := if cut.end > previous then cut.end else previous;
      j := j + 1;
    }
    OutsideKept(sql, cuts, previous, |sql|);
    out := out + sql[previous..];
  }

  // ---- Ranges of tokens ----

  function Offset(tokens: seq<Token>, k: nat): nat
    requires k <= |tokens|
  {
    |Render(tokens[..k])|
  }

  function RangeOf(tokens: seq<Token>, k: nat): Range
    requires k < |tokens|
  {
    Range(Offset(tokens, k), Offset(tokens, k + 1))
  }

  /** The tokens that are not in `gone`. */
  function Keep(tokens: seq<Token>, gone: set<nat>, n: nat): seq<Token>
    requires n <= |tokens|
  {
    if n == 0 then []
    else Keep(tokens, gone, n - 1) + if n - 1 in gone then [] else [tokens[n - 1]]
  }

  lemma {:induction false} RenderAppend(tokens: seq<Token>, k: nat)
    requires k < |tokens|
    ensures Render(tokens[..k + 1]) == Render(tokens[..k]) + TextOf(tokens[k])
  {
    assert tokens[..k + 1][..k] == tokens[..k];
  }

  /** A shorter token prefix renders to a prefix of the longer one's text. */
  lemma {:induction false} PrefixText(tokens: seq<Token>, a: nat, b: nat)
    requires a <= b <= |tokens|
    ensures Offset(tokens, a) <= Offset(tokens, b)
    ensures Render(tokens[..a]) == Render(tokens[..b])[..Offset(tokens, a)]
  {
    if a < b {
      PrefixText(tokens, a, b - 1);
      RenderAppend(tokens, b - 1);
    }
  }

  lemma OffsetInText(tokens: seq<Token>, a: nat)
    requires a <= |tokens|
    ensures Offset(tokens, a) <= |Render(tokens)| && Render(tokens)[..Offset(tokens, a)] == Render(tokens[..a])
  {
    PrefixText(tokens, a, |tokens|);
    assert tokens[..|tokens|] == tokens;
  }

  /** The text in a token's range is the token's text. */
  lemma TokenText(tokens: seq<Token>, m: nat)
    requires m < |tokens|
    ensures Offset(tokens, m) <= Offset(tokens, m + 1) <= |Render(tokens)|
    ensures Render(tokens)[Offset(tokens, m)..Offset(tokens, m + 1)] == TextOf(tokens[m])
  {
    OffsetInText(tokens, m + 1);
    RenderAppend(tokens, m);
    var whole, a, b := Render(tokens), Offset(tokens, m), Offset(tokens, m + 1);
    assert whole[a..b] == whole[..b][a..];
  }

  /** The cuts are exactly the ranges of the tokens in `gone`, in any order, repeats allowed. */
  ghost predicate CutsMatch(tokens: seq<Token>, gone: set<nat>, cuts: seq<Range>) {
    && (forall k :: k in gone ==> k < |tokens| && RangeOf(tokens, k) in cuts)
    && (forall c :: c in cuts ==> exists k :: k in gone && k < |tokens| && c == RangeOf(tokens, k))
  }

  /** Cutting the ranges of some tokens out of the text leaves the text of the other tokens. */
  lemma {:induction false} OutsideTokens(tokens: seq<Token>, gone: set<nat>, cuts: seq<Range>, n: nat)
    requires n <= |tokens| && CutsMatch(tokens, gone, cuts)
    ensures Offset(tokens, n) <= |Render(tokens)|
    ensures Outside(Render(tokens), cuts, Offset(tokens, n)) == Render(Keep(tokens, gone, n))
  {
    hide CutsMatch; hide Outside; hide Render; hide Keep; hide Offset;
    OffsetInText(tokens, n);
    if n == 0 {
      OutsideNothing(tokens, gone, cuts);
    } else {
      OutsideTokens(tokens, gone, cuts, n - 1);
      OutsideToken(tokens, gone, cuts, n - 1);
      RenderKeep(tokens, gone, n);
    }
  }

  lemma OutsideNothing(tokens: seq<Token>, gone: set<nat>, cuts: seq<Range>)
    ensures Offset(tokens, 0) == 0
    ensures Outside(Render(tokens), cuts, 0) == Render(Keep(tokens, gone, 0))
  {
    assert tokens[..0] == [];
  }

  lemma RenderKeep(tokens: seq<Token>, gone: set<nat>, n: nat)
    requires 0 < n <= |tokens|
    ensures Render(Keep(tokens, gone, n))
         == Render(Keep(tokens, gone, n - 1)) + if n - 1 in gone then "" else TextOf(tokens[n - 1])
  {
    var kept := Keep(tokens, gone, n - 1);
    if n - 1 !in gone {
      assert (kept + [tokens[n - 1]])[..|kept|] == kept;
    } else {
      assert kept + [] == kept;
    }
  }

  lemma OutsideToken(tokens: seq<Token>, gone: set<nat>, cuts: seq<Range>, m: nat)
    requires m < |tokens| && CutsMatch(tokens, gone, cuts)
    ensures Offset(tokens, m) <= Offset(tokens, m + 1) <= |Render(tokens)|
    ensures Outside(Render(tokens), cuts, Offset(tokens, m + 1)) ==
            Outside(Render(tokens), cuts, Offset(tokens, m)) + if m in gone then "" else TextOf(tokens[m])
  {
    var a, b, sql := Offset(tokens, m), Offset(tokens, m + 1), Render(tokens);
    TokenText(tokens, m);
    if m in gone {
      var k :| 0 <= k < |cuts| && cuts[k] == RangeOf(tokens, m);
      OutsideCut(sql, cuts, a, b);
    } else {
      forall i | a <= i < b ensures !Covered(cuts, i) {
        TokenUncovered(tokens, gone, cuts, m, i);
      }
      OutsideKept(sql, cuts, a, b);
    }
  }

  lemma TokenUncovered(tokens: seq<Token>, gone: set<nat>, cuts: seq<Range>, m: nat, i: nat)
    requires m < |tokens| && m !in gone && Offset(tokens, m) <= i < Offset(tokens, m + 1)
    requires CutsMatch(tokens, gone, cuts)
    ensures !Covered(cuts, i)
  {
    hide Render; hide Offset;
    if Covered(cuts, i) {
      var q :| 0 <= q < |cuts| && cuts[q].start <= i < cuts[q].end;
      assert cuts[q] in cuts;
      var k :| k in gone && k < |tokens| && cuts[q] == RangeOf(tokens, k);
      if k < m {
        PrefixText(tokens, k + 1, m);
      } else {
        PrefixText(tokens, m + 1, k);
      }
    }
  }

  // ---- Declarations and commas ----

  /** Positions of the tokens that are not plain text, in order. */
  function Skeleton(tokens: seq<Token>, n: nat): seq<nat>
    requires n <= |tokens|
  {
    if n == 0 then [] else Skeleton(tokens, n - 1) + if tokens[n - 1].Text? then [] else [n - 1]
  }

  function Structure(tokens: seq<Token>): seq<Token> {
    if tokens == [] then []
    else Structure(tokens[..|tokens| - 1]) + if tokens[|tokens| - 1].Text? then [] else [tokens[|tokens| - 1]]
  }

  /** Declaration, comma, declaration, ...: one comma between neighbours, none in front, at most one
      after the last declaration. */
  predicate Alternates(st: seq<Token>) {
    forall i :: 0 <= i < |st| ==> (st[i].Decl? <==> i % 2 == 0) && (st[i].Comma? <==> i % 2 == 1)
  }

  predicate WellFormed(tokens: seq<Token>) {
    Alternates(Structure(tokens))
  }

  /** sk lists, in order, the tokens below n that are not plain text, and st holds those tokens. */
  ghost predicate Lists(tokens: seq<Token>, n: nat, sk: seq<nat>, st: seq<Token>)
    requires n <= |tokens|
  {
    && (forall i :: 0 <= i < |sk| ==> sk[i] < n && !tokens[sk[i]].Text?)
    && (forall i, j :: 0 <= i < j < |sk| ==> sk[i] < sk[j])
    && (forall k :: 0 <= k < n && !tokens[k].Text? ==> k in sk)
    && |st| == |sk| && forall i :: 0 <= i < |sk| ==> st[i] == tokens[sk[i]]
  }

  lemma ListsNext(tokens: seq<Token>, n: nat, sk: seq<nat>, st: seq<Token>)
    requires n < |tokens| && Lists(tokens, n, sk, st)
    ensures tokens[n].Text? ==> Lists(tokens, n + 1, sk, st)
    ensures !tokens[n].Text? ==> Lists(tokens, n + 1, sk + [n], st + [tokens[n]])
  {
    if !tokens[n].Text? {
      var more := sk + [n];
      forall k | 0 <= k < n + 1 && !tokens[k].Text? ensures k in more {
        assert more[|sk|] == n;
      }
    }
  }

  lemma {:induction false} SkeletonFacts(tokens: seq<Token>, n: nat)
    requires n <= |tokens|
    ensures Lists(tokens, n, Skeleton(tokens, n), Structure(tokens[..n]))
  {
    if n > 0 {
      hide Lists; hide Skeleton; hide Structure;
      SkeletonFacts(tokens, n - 1);
      ListsNext(tokens, n - 1, Skeleton(tokens, n - 1), Structure(tokens[..n - 1]));
      SkeletonStep(tokens, n - 1);
      assert Skeleton(tokens, n - 1) + [] == Skeleton(tokens, n - 1);
      assert Structure(tokens[..n - 1]) + [] == Structure(tokens[..n - 1]);
    }
  }

  lemma SkeletonStep(tokens: seq<Token>, n: nat)
    requires n < |tokens|
    ensures Skeleton(tokens, n + 1) == Skeleton(tokens, n) + if tokens[n].Text? then [] else [n]
    ensures Structure(tokens[..n + 1]) == Structure(tokens[..n]) + if tokens[n].Text? then [] else [tokens[n]]
  {
    assert tokens[..n + 1][..n] == tokens[..n];
  }

  lemma StructureAppend(tokens: seq<Token>, t: Token)
    ensures Structure(tokens + [t]) == Structure(tokens) + if t.Text? then [] else [t]
  {
    assert (tokens + [t])[..|tokens|] == tokens;
  }

  /** The structure of what is kept is what is kept of the structure. */
  lemma {:induction false} StructureOfKeep(tokens: seq<Token>, gone: set<nat>, out: set<nat>, n: nat)
    requires n <= |tokens|
    requires forall i :: 0 <= i < |Skeleton(tokens, |tokens|)| ==> (i in out <==> Skeleton(tokens, |tokens|)[i] in gone)
    ensures |Skeleton(tokens, n)| <= |Structure(tokens)|
    ensures Structure(Keep(tokens, gone, n)) == Keep(Structure(tokens), out, |Skeleton(tokens, n)|)
  {
    SkeletonSize(tokens, n);
    if n > 0 {
      StructureOfKeep(tokens, gone, out, n - 1);
      StructureStep(tokens, gone, out, n - 1);
    }
  }

  lemma SkeletonSize(tokens: seq<Token>, n: nat)
    requires n <= |tokens|
    ensures |Skeleton(tokens, n)| <= |Structure(tokens)|
  {
    SkeletonPrefix(tokens, n);
    SkeletonFacts(tokens, |tokens|);
    assert tokens[..|tokens|] == tokens;
  }

  lemma StructureStep(tokens: seq<Token>, gone: set<nat>, out: set<nat>, n: nat)
    requires n < |tokens|
    requires forall i :: 0 <= i < |Skeleton(tokens, |tokens|)| ==> (i in out <==> Skeleton(tokens, |tokens|)[i] in gone)
    requires |Skeleton(tokens, n)| <= |Structure(tokens)| && |Skeleton(tokens, n + 1)| <= |Structure(tokens)|
    requires Structure(Keep(tokens, gone, n)) == Keep(Structure(tokens), out, |Skeleton(tokens, n)|)
    ensures Structure(Keep(tokens, gone, n + 1)) == Keep(Structure(tokens), out, |Skeleton(tokens, n + 1)|)
  {
    SkeletonNext(tokens, n);
    StructureAppend(Keep(tokens, gone, n), tokens[n]);
    KeepNext(tokens, gone, n);
    if !tokens[n].Text? {
      KeepNext(Structure(tokens), out, |Skeleton(tokens, n)|);
    }
    hide Structure; hide Keep; hide Skeleton;
  }

  lemma KeepNext(tokens: seq<Token>, gone: set<nat>, n: nat)
    requires n < |tokens|
    ensures Keep(tokens, gone, n + 1)
         == if n in gone then Keep(tokens, gone, n) else Keep(tokens, gone, n) + [tokens[n]]
  {
  }

  lemma SkeletonNext(tokens: seq<Token>, n: nat)
    requires n < |tokens|
    ensures var m := |Skeleton(tokens, n)|;
      if tokens[n].Text? then Skeleton(tokens, n + 1) == Skeleton(tokens, n)
      else |Skeleton(tokens, n + 1)| == m + 1 && m < |Structure(tokens)| == |Skeleton(tokens, |tokens|)|
           && Skeleton(tokens, |tokens|)[m] == n && Structure(tokens)[m] == tokens[n]
  {
    SkeletonPrefix(tokens, n + 1);
    SkeletonFacts(tokens, |tokens|);
    assert tokens[..|tokens|] == tokens;
    if !tokens[n].Text? {
      assert Skeleton(tokens, n + 1)[|Skeleton(tokens, n)|] == n;
    }
  }

  lemma {:induction false} SkeletonPrefix(tokens: seq<Token>, n: nat)
    requires n <= |tokens|
    ensures Skeleton(tokens, n) <= Skeleton(tokens, |tokens|)
    decreases |tokens| - n
  {
    if n < |tokens| {
      SkeletonPrefix(tokens, n + 1);
    }
  }

  // ---- Removing declarations together with one comma each ----

  /** Where the comma of the declaration at structural position p stands: behind it, or, when the
      last declaration has no trailing comma, in front of it. */
  function CommaAt(n: nat, p: nat): nat
    requires p < n && n > 1
  {
    if p + 1 < n then p + 1 else p - 1
  }

  /** Structural positions cut when the declarations at positions `ps` are moved away. */
  ghost function CutPositions(n: nat, ps: set<nat>): set<nat>
    requires n > 1 && forall p :: p in ps ==> p < n
  {
    ps + (set p | p in ps :: CommaAt(n, p))
  }

  lemma AlternatesPair(a: seq<Token>, d: Token, c: Token)
    requires Alternates(a) && |a| % 2 == 0 && d.Decl? && c.Comma?
    ensures Alternates(a + [d]) && Alternates(a + [d] + [c]) && |a + [d] + [c]| % 2 == 0
  {
  }

  /** Up to n, a declaration is cut exactly together with the comma behind it. */
  ghost predicate PairsCut(out: set<nat>, n: nat) {
    forall p :: 0 <= p && p % 2 == 0 && p + 1 < n ==> (p in out <==> p + 1 in out)
  }

  /** Dropping whole pairs keeps the alternation. */
  lemma {:induction false} PairsAlternate(st: seq<Token>, out: set<nat>, i: nat)
    requires Alternates(st) && 2 * i <= |st| && PairsCut(out, 2 * i)
    ensures Alternates(Keep(st, out, 2 * i)) && |Keep(st, out, 2 * i)| % 2 == 0
  {
    if i > 0 {
      var p := 2 * (i - 1);
      PairsAlternate(st, out, i - 1);
      assert p % 2 == 0 && (p in out <==> p + 1 in out);
      assert Keep(st, out, p + 1) == Keep(st, out, p) + if p in out then [] else [st[p]];
      AlternatesPair(Keep(st, out, p), st[p], st[p + 1]);
    }
  }

  /** A last declaration without a comma behind it may stay or go. */
  lemma OddAlternates(st: seq<Token>, out: set<nat>, n: nat)
    requires Alternates(st) && n <= |st| && PairsCut(out, n)
    ensures Alternates(Keep(st, out, n))
  {
    var i := n / 2;
    PairsAlternate(st, out, i);
    if n % 2 == 1 {
      assert n == 2 * i + 1;
      AlternatesPair(Keep(st, out, 2 * i), st[2 * i], Comma);
    }
  }

  lemma CutPairs(n: nat, ps: set<nat>)
    requires n > 1 && forall p :: p in ps ==> p < n && p % 2 == 0
    ensures if n % 2 == 1 && n - 1 in ps then PairsCut(CutPositions(n, ps), n - 2) && n - 2 in CutPositions(n, ps)
            else PairsCut(CutPositions(n, ps), n)
  {
    forall p | 0 <= p && p % 2 == 0 && p + 1 < n
      ensures p in CutPositions(n, ps) <==> p in ps
      ensures p + 1 in CutPositions(n, ps) <==> p in ps || (p + 2 in ps && p + 2 == n - 1)
    {
      CutPair(n, ps, p);
    }
    if n % 2 == 1 && n - 1 in ps {
      assert CommaAt(n, n - 1) in CutPositions(n, ps);
    }
  }

  lemma CutPair(n: nat, ps: set<nat>, p: nat)
    requires n > 1 && (forall q :: q in ps ==> q < n && q % 2 == 0) && p % 2 == 0 && p + 1 < n
    ensures p in CutPositions(n, ps) <==> p in ps
    ensures p + 1 in CutPositions(n, ps) <==> p in ps || (p + 2 in ps && p + 2 == n - 1)
  {
    if p + 1 in CutPositions(n, ps) {
      assert p + 1 !in ps;
      var q :| q in ps && p + 1 == CommaAt(n, q);
    }
    if p in ps {
      assert CommaAt(n, p) in CutPositions(n, ps);
    }
    if p + 2 in ps && p + 2 == n - 1 {
      assert CommaAt(n, p + 2) in CutPositions(n, ps);
    }
  }

  lemma StillCut(n: nat, ps: set<nat>, p: nat)
    requires n > 1 && (forall q :: q in ps ==> q < n) && p in ps
    ensures p in CutPositions(n, ps)
  {
  }

  /** What remains has one comma between neighbours and at most one trailing comma. */
  lemma CutAlternates(st: seq<Token>, ps: set<nat>)
    requires Alternates(st) && |st| > 1 && forall p :: p in ps ==> p < |st| && p % 2 == 0
    ensures Alternates(Keep(st, CutPositions(|st|, ps), |st|))
  {
    hide Alternates; hide PairsCut; hide CutPositions; hide Keep;
    var n, out := |st|, CutPositions(|st|, ps);
    CutPairs(n, ps);
    if n % 2 == 1 && n - 1 in ps {
      OddAlternates(st, out, n - 2);
      StillCut(n, ps, n - 1);
      KeepNext(st, out, n - 2);
      KeepNext(st, out, n - 1);
    } else {
      OddAlternates(st, out, n);
    }
  }

  // ---- removeDumpInlineFKs ----

  ghost function Sk(tokens: seq<Token>): seq<nat> {
    Skeleton(tokens, |tokens|)
  }

  ghost predicate AreDecls(tokens: seq<Token>, ks: set<nat>) {
    forall k :: k in ks ==> k < |tokens| && tokens[k].Decl?
  }

  ghost function PositionsOf(tokens: seq<Token>, ks: set<nat>): set<nat> {
    set p: nat | p < |Sk(tokens)| && Sk(tokens)[p] in ks
  }

  /** The tokens cut for the declarations ks: each with its comma. */
  ghost function Gone(tokens: seq<Token>, ks: set<nat>): set<nat>
    requires |Sk(tokens)| > 1
  {
    set p: nat | p < |Sk(tokens)| && p in CutPositions(|Sk(tokens)|, PositionsOf(tokens, ks)) :: Sk(tokens)[p]
  }

  ghost function Removed(tokens: seq<Token>, ks: set<nat>): seq<Token>
    requires |Sk(tokens)| > 1
  {
    Keep(tokens, Gone(tokens, ks), |tokens|)
  }

  lemma SkFacts(tokens: seq<Token>)
    ensures var sk := Sk(tokens);
      && (forall i :: 0 <= i < |sk| ==> sk[i] < |tokens| && !tokens[sk[i]].Text?)
      && (forall i, j :: 0 <= i < j < |sk| ==> sk[i] < sk[j])
      && (forall k :: 0 <= k < |tokens| && !tokens[k].Text? ==> k in sk)
      && |Structure(tokens)| == |sk|
      && (forall i :: 0 <= i < |sk| ==> Structure(tokens)[i] == tokens[sk[i]])
  {
    SkeletonFacts(tokens, |tokens|);
    assert tokens[..|tokens|] == tokens;
  }

  lemma GoneAt(tokens: seq<Token>, ks: set<nat>, p: nat)
    requires |Sk(tokens)| > 1 && p < |Sk(tokens)|
    ensures Sk(tokens)[p] in Gone(tokens, ks) <==> p in CutPositions(|Sk(tokens)|, PositionsOf(tokens, ks))
  {
    SkFacts(tokens);
    if Sk(tokens)[p] in Gone(tokens, ks) {
      var q: nat :| q < |Sk(tokens)| && q in CutPositions(|Sk(tokens)|, PositionsOf(tokens, ks))
        && Sk(tokens)[q] == Sk(tokens)[p];
    }
  }

  /** Removing any inline foreign keys leaves one comma between consecutive survivors, none in front
      and at most one behind. */
  lemma RemovedWellFormed(tokens: seq<Token>, ks: set<nat>)
    requires WellFormed(tokens) && |Sk(tokens)| > 1 && AreDecls(tokens, ks)
    ensures WellFormed(Removed(tokens, ks))
  {
    var ps := PositionsOf(tokens, ks);
    var out := CutPositions(|Sk(tokens)|, ps);
    SkFacts(tokens);
    forall p | p in ps ensures p < |Structure(tokens)| && p % 2 == 0 {
      assert Structure(tokens)[p] == tokens[Sk(tokens)[p]];
    }
    CutAlternates(Structure(tokens), ps);
    forall i | 0 <= i < |Sk(tokens)| ensures i in out <==> Sk(tokens)[i] in Gone(tokens, ks) {
      GoneAt(tokens, ks, i);
    }
    StructureOfKeep(tokens, Gone(tokens, ks), out, |tokens|);
  }

  function Decls(tokens: seq<Token>): seq<Token> {
    if tokens == [] then []
    else Decls(tokens[..|tokens| - 1]) + if tokens[|tokens| - 1].Decl? then [tokens[|tokens| - 1]] else []
  }

  lemma DeclsAppend(tokens: seq<Token>, t: Token)
    ensures Decls(tokens + [t]) == Decls(tokens) + if t.Decl? then [t] else []
  {
    assert (tokens + [t])[..|tokens|] == tokens;
  }

  lemma {:induction false} DeclsOfKeep(tokens: seq<Token>, a: set<nat>, b: set<nat>, n: nat)
    requires n <= |tokens| && forall k :: 0 <= k < |tokens| && tokens[k].Decl? ==> (k in a <==> k in b)
    ensures Decls(Keep(tokens, a, n)) == Decls(Keep(tokens, b, n))
  {
    hide Decls;
    if n == 0 {
      assert Keep(tokens, a, n) == Keep(tokens, b, n);
    } else {
      DeclsOfKeep(tokens, a, b, n - 1);
      KeepNext(tokens, a, n - 1);
      KeepNext(tokens, b, n - 1);
      hide Keep;
      DeclsAppend(Keep(tokens, a, n - 1), tokens[n - 1]);
      DeclsAppend(Keep(tokens, b, n - 1), tokens[n - 1]);
    }
  }

  /** The surviving declarations are exactly the others, unchanged and in order. */
  lemma RemovedDecls(tokens: seq<Token>, ks: set<nat>)
    requires WellFormed(tokens) && |Sk(tokens)| > 1 && AreDecls(tokens, ks)
    ensures Decls(Removed(tokens, ks)) == Decls(Keep(tokens, ks, |tokens|))
  {
    forall k | 0 <= k < |tokens| && tokens[k].Decl? ensures k in Gone(tokens, ks) <==> k in ks {
      GoneDecl(tokens, ks, k);
    }
    DeclsOfKeep(tokens, Gone(tokens, ks), ks, |tokens|);
  }

  lemma GoneDecl(tokens: seq<Token>, ks: set<nat>, k: nat)
    requires WellFormed(tokens) && |Sk(tokens)| > 1 && AreDecls(tokens, ks) && k < |tokens| && tokens[k].Decl?
    ensures k in Gone(tokens, ks) <==> k in ks
  {
    SkFacts(tokens);
    var ps := PositionsOf(tokens, ks);
    forall p | p in ps ensures p < |Sk(tokens)| && p % 2 == 0 {
      assert Structure(tokens)[p] == tokens[Sk(tokens)[p]];
    }
    var p :| 0 <= p < |Sk(tokens)| && Sk(tokens)[p] == k;
    assert Structure(tokens)[p] == tokens[k];
    GoneAt(tokens, ks, p);
    EvenCut(|Sk(tokens)|, ps, p);
  }

  lemma EvenCut(n: nat, ps: set<nat>, p: nat)
    requires n > 1 && (forall q :: q in ps ==> q < n && q % 2 == 0) && p % 2 == 0
    ensures p in CutPositions(n, ps) <==> p in ps
  {
  }

  /** The first token that is neither blank nor comment in a stretch of source, or -1. */
  method FirstToken(tokens: seq<Token>, from: nat, to: nat) returns (r: int)
    requires from <= to <= |tokens|
    ensures r == -1 ==> forall k :: from <= k < to ==> tokens[k].Text?
    ensures r != -1 ==> from <= r < to && !tokens[r].Text? && forall k :: from <= k < r ==> tokens[k].Text?
  {
    r := from;
    while r < to
      invariant from <= r <= to && forall k :: from <= k < r ==> tokens[k].Text?
    {
      if !tokens[r].Text? {
        return;
      }
      r := r + 1;
    }
    return -1;
  }

  /** decls are the even members of a skeleton: its declarations. */
  ghost predicate Evens(decls: seq<nat>, sk: seq<nat>) {
    |decls| == (|sk| + 1) / 2 && forall i :: 0 <= i < |decls| ==> decls[i] == sk[2 * i]
  }

  lemma EvensAppend(decls: seq<nat>, sk: seq<nat>, k: nat)
    requires Evens(decls, sk)
    ensures if |sk| % 2 == 0 then Evens(decls + [k], sk + [k]) else Evens(decls, sk + [k])
  {
  }

  lemma DeclIsEven(tokens: seq<Token>, k: nat)
    requires WellFormed(tokens) && k < |tokens|
    ensures tokens[k].Decl? <==> !tokens[k].Text? && |Skeleton(tokens, k)| % 2 == 0
  {
    SkeletonNext(tokens, k);
  }

  method CollectDecls(tokens: seq<Token>) returns (decls: seq<nat>)
    requires WellFormed(tokens)
    ensures Evens(decls, Sk(tokens))
  {
    decls := [];
    var k := 0;
    hide Evens; hide WellFormed;
    assert Evens([], []) by { EvensEmpty(); }
    while k < |tokens|
      invariant k <= |tokens| && Evens(decls, Skeleton(tokens, k))
    {
      DeclIsEven(tokens, k);
      EvensAppend(decls, Skeleton(tokens, k), k);
      assert Skeleton(tokens, k + 1) == if tokens[k].Text? then Skeleton(tokens, k) else Skeleton(tokens, k) + [k];
      if tokens[k].Decl? {
        decls := decls + [k];
      }
      k := k + 1;
    }
  }

  lemma EvensEmpty()
    ensures Evens([], [])
  {
  }

  // slices.SortFunc on the cuts
  function InsertRange(c: Range, s: seq<Range>): seq<Range> {
    if s == [] || c.start < s[0].start then [c] + s else [s[0]] + InsertRange(c, s[1..])
  }

  function SortRanges(s: seq<Range>): seq<Range> {
    if s == [] then [] else InsertRange(s[0], SortRanges(s[1..]))
  }

  lemma {:induction false} InsertRangeSorts(c: Range, s: seq<Range>)
    requires SortedByStart(s)
    ensures SortedByStart(InsertRange(c, s)) && forall x :: x in InsertRange(c, s) <==> x == c || x in s
  {
    if s != [] && c.start >= s[0].start {
      InsertRangeSorts(c, s[1..]);
      assert s == [s[0]] + s[1..];
      var t := InsertRange(c, s[1..]);
      forall j | 0 <= j < |t| ensures s[0].start <= t[j].start {
        assert t[j] in t;
        assert t[j] == c || t[j] in s[1..];
      }
    }
  }

  lemma {:induction false} SortRangesSorts(s: seq<Range>)
    ensures SortedByStart(SortRanges(s)) && forall x :: x in SortRanges(s) <==> x in s
  {
    if s != [] {
      SortRangesSorts(s[1..]);
      InsertRangeSorts(s[0], SortRanges(s[1..]));
      assert s == [s[0]] + s[1..];
    }
  }

  /** The comma cut with the declaration at decls[i]: the next token if there is one before the next
      declaration or the end of the list, else the one in front. */
  method CommaBeside(tokens: seq<Token>, decls: seq<nat>, i: nat) returns (c: nat)
    requires WellFormed(tokens) && Evens(decls, Sk(tokens)) && i < |decls| && |decls| > 1
    ensures |Sk(tokens)| > 1 && 2 * i < |Sk(tokens)| && c == Sk(tokens)[CommaAt(|Sk(tokens)|, 2 * i)] && c < |tokens|
  {
    hide WellFormed; hide Structure;
    SkFacts(tokens);
    hide Sk;
    var r;
    if i + 1 < |decls| {
      r := FirstToken(tokens, decls[i] + 1, decls[i + 1]);
      assert Sk(tokens)[2 * i + 1] < decls[i + 1];
      NextInSkeleton(tokens, 2 * i, r, decls[i + 1]);
    } else {
      r := FirstToken(tokens, decls[i] + 1, |tokens|);
      LastInSkeleton(tokens, 2 * i, r);
      if r == -1 {
        r := FirstToken(tokens, decls[i - 1] + 1, decls[i]);
        NextInSkeleton(tokens, 2 * (i - 1), r, decls[i]);
      }
    }
    c := r;
  }

  lemma LastInSkeleton(tokens: seq<Token>, p: nat, r: int)
    requires |Sk(tokens)| <= p + 2 && p < |Sk(tokens)|
    requires r == -1 ==> forall k :: Sk(tokens)[p] + 1 <= k < |tokens| ==> tokens[k].Text?
    requires r != -1 ==>
          Sk(tokens)[p] + 1 <= r < |tokens| && !tokens[r].Text?
          && forall k :: Sk(tokens)[p] + 1 <= k < r ==> tokens[k].Text?
    ensures if p + 1 < |Sk(tokens)| then r == Sk(tokens)[p + 1] else r == -1
  {
    SkFacts(tokens);
    if p + 1 < |Sk(tokens)| {
      NextInSkeleton(tokens, p, r, |tokens|);
    }
  }

  lemma NextInSkeleton(tokens: seq<Token>, p: nat, r: int, to: nat)
    requires p + 1 < |Sk(tokens)| && Sk(tokens)[p + 1] < to <= |tokens|
    requires r == -1 ==> forall k :: Sk(tokens)[p] + 1 <= k < to ==> tokens[k].Text?
    requires r != -1 ==>
          Sk(tokens)[p] + 1 <= r < to && !tokens[r].Text?
          && forall k :: Sk(tokens)[p] + 1 <= k < r ==> tokens[k].Text?
    ensures r == Sk(tokens)[p + 1]
  {
    SkFacts(tokens);
    hide Sk;
    var next := Sk(tokens)[p + 1];
    assert Sk(tokens)[p] < next && !tokens[next].Text?;
    assert r != -1;
    assert r <= next;
    assert r in Sk(tokens);
    var q :| 0 <= q < |Sk(tokens)| && Sk(tokens)[q] == r;
    assert q > p;
    assert q <= p + 1;
  }

  method IndexOf(decls: seq<nat>, k: nat) returns (i: nat)
    requires k in decls
    ensures i < |decls| && decls[i] == k
  {
    i := 0;
    while decls[i] != k
      invariant i < |decls| && forall j :: 0 <= j < i ==> decls[j] != k
      decreases |decls| - i
    {
      i := i + 1;
    }
  }

  datatype CutResult = CutOk(sql: string) | NoAdjacentDeclaration | RewrittenInvalid

  lemma GoneMore(tokens: seq<Token>, ks: set<nat>, p: nat)
    requires |Sk(tokens)| > 1 && p < |Sk(tokens)|
    ensures Gone(tokens, ks + {Sk(tokens)[p]})
         == Gone(tokens, ks) + {Sk(tokens)[p], Sk(tokens)[CommaAt(|Sk(tokens)|, p)]}
  {
    var n, m := |Sk(tokens)|, Sk(tokens)[p];
    PositionsMore(tokens, ks, p);
    CutPositionsMore(n, PositionsOf(tokens, ks), p);
    GoneListed(tokens, ks);
    GoneListed(tokens, ks + {m});
    hide CutPositions; hide PositionsOf; hide Sk; hide Gone;
    forall q: nat | q < n
      ensures Sk(tokens)[q] in Gone(tokens, ks + {m}) <==>
        Sk(tokens)[q] in Gone(tokens, ks) || q == p || q == CommaAt(n, p)
    {
      GoneAt(tokens, ks, q);
      GoneAt(tokens, ks + {m}, q);
    }
    MembersMore(Sk(tokens), Gone(tokens, ks), Gone(tokens, ks + {m}), p, CommaAt(n, p));
  }

  lemma PositionsMore(tokens: seq<Token>, ks: set<nat>, p: nat)
    requires p < |Sk(tokens)|
    ensures PositionsOf(tokens, ks + {Sk(tokens)[p]}) == PositionsOf(tokens, ks) + {p}
  {
    SkFacts(tokens);
  }

  lemma MembersMore(sk: seq<nat>, a: set<nat>, b: set<nat>, p: nat, c: nat)
    requires p < |sk| && c < |sk| && (forall k :: k in a ==> k in sk) && (forall k :: k in b ==> k in sk)
    requires forall q: nat :: q < |sk| ==> (sk[q] in b <==> sk[q] in a || q == p || q == c)
    ensures b == a + {sk[p], sk[c]}
  {
    forall k ensures k in b <==> k in a + {sk[p], sk[c]} {
      if k in a || k in b {
        var q: nat :| q < |sk| && sk[q] == k;
      }
    }
  }

  lemma GoneListed(tokens: seq<Token>, ks: set<nat>)
    requires |Sk(tokens)| > 1
    ensures forall k :: k in Gone(tokens, ks) ==> k in Sk(tokens)
  {
    hide Sk; hide CutPositions; hide PositionsOf;
  }

  lemma CutPositionsMore(n: nat, ps: set<nat>, p: nat)
    requires n > 1 && p < n && forall q :: q in ps ==> q < n
    ensures CutPositions(n, ps + {p}) == CutPositions(n, ps) + {p, CommaAt(n, p)}
  {
    assert p in ps + {p};
    assert CommaAt(n, p) in CutPositions(n, ps + {p});
  }

  lemma CutsMatchMore(tokens: seq<Token>, gone: set<nat>, cuts: seq<Range>, m: nat, c: nat)
    requires CutsMatch(tokens, gone, cuts) && m < |tokens| && c < |tokens|
    ensures CutsMatch(tokens, gone + {m, c}, cuts + [RangeOf(tokens, m), RangeOf(tokens, c)])
  {
    hide RangeOf;
    var more := cuts + [RangeOf(tokens, m), RangeOf(tokens, c)];
    forall r | r in more ensures exists k :: k in gone + {m, c} && k < |tokens| && r == RangeOf(tokens, k) {
      if r in cuts {
        var k :| k in gone && k < |tokens| && r == RangeOf(tokens, k);
        assert k in gone + {m, c};
      } else if r == RangeOf(tokens, m) {
        assert m in gone + {m, c};
      } else {
        assert c in gone + {m, c};
      }
    }
    assert more[|cuts|] == RangeOf(tokens, m) && more[|cuts| + 1] == RangeOf(tokens, c);
  }

  /** Cuts the declarations `moved` out of the statement text. It fails exactly when there is
      something to cut but no second declaration, or the parser refuses what is left. */
  method RemoveInlineFks(tokens: seq<Token>, moved: seq<nat>, parses: string -> bool) returns (r: CutResult)
    requires WellFormed(tokens) && AreDecls(tokens, Set(moved)) && moved != []
    ensures r.NoAdjacentDeclaration? <==> |Sk(tokens)| <= 2
    ensures r.RewrittenInvalid? <==> |Sk(tokens)| > 2 && !parses(Render(Removed(tokens, Set(moved))))
    ensures r.CutOk? ==> r.sql == Render(Removed(tokens, Set(moved)))
  {
    hide CutsMatch; hide Gone; hide Render; hide Keep; hide RangeOf; hide WellFormed; hide Sk;
    var decls := CollectDecls(tokens);
    var cuts: seq<Range> := [];
    var j := 0;
    while j < |moved|
      invariant j <= |moved| && (j > 0 ==> |Sk(tokens)| > 2)
      invariant j > 0 ==> CutsMatch(tokens, Gone(tokens, Set(moved[..j])), cuts)
      invariant j == 0 ==> cuts == []
    {
      DeclListed(tokens, decls, moved, j);
      var i := IndexOf(decls, moved[j]);
      if |decls| < 2 {
        return NoAdjacentDeclaration;
      }
      var c := CommaBeside(tokens, decls, i);
      GoneStep(tokens, moved, j, cuts, 2 * i);
      cuts := cuts + [RangeOf(tokens, moved[j]), RangeOf(tokens, c)];
      j := j + 1;
    }
    assert moved[..j] == moved;
    SortRangesSorts(cuts);
    SortedMatch(tokens, Gone(tokens, Set(moved)), cuts);
    cuts := SortRanges(cuts);
    var out := CutText(tokens, cuts, Gone(tokens, Set(moved)));
    if !parses(out) {
      return RewrittenInvalid;
    }
    return CutOk(out);
  }

  lemma SortedMatch(tokens: seq<Token>, gone: set<nat>, cuts: seq<Range>)
    requires CutsMatch(tokens, gone, cuts)
    ensures CutsMatch(tokens, gone, SortRanges(cuts))
  {
    hide RangeOf;
    SortRangesSorts(cuts);
  }

  method CutText(tokens: seq<Token>, cuts: seq<Range>, ghost gone: set<nat>) returns (out: string)
    requires SortedByStart(cuts) && CutsMatch(tokens, gone, cuts)
    ensures out == Render(Keep(tokens, gone, |tokens|))
  {
    forall k | 0 <= k < |cuts| ensures cuts[k].start <= cuts[k].end <= |Render(tokens)| {
      assert cuts[k] in cuts;
      var m :| m in gone && m < |tokens| && cuts[k] == RangeOf(tokens, m);
      TokenText(tokens, m);
    }
    out := ApplyCuts(Render(tokens), cuts);
    OutsideTokens(tokens, gone, cuts, |tokens|);
    assert tokens[..|tokens|] == tokens;
  }

  lemma DeclListed(tokens: seq<Token>, decls: seq<nat>, moved: seq<nat>, j: nat)
    requires WellFormed(tokens) && AreDecls(tokens, Set(moved)) && j < |moved| && Evens(decls, Sk(tokens))
    ensures moved[j] in decls && moved[j] < |tokens|
  {
    SkFacts(tokens);
    assert moved[j] in Set(moved);
    var q :| 0 <= q < |Sk(tokens)| && Sk(tokens)[q] == moved[j];
    assert Structure(tokens)[q] == tokens[moved[j]];
    assert decls[q / 2] == Sk(tokens)[q];
  }

  lemma GoneStep(tokens: seq<Token>, moved: seq<nat>, j: nat, cuts: seq<Range>, p: nat)
    requires j < |moved| && |Sk(tokens)| > 1 && p < |Sk(tokens)| && Sk(tokens)[p] == moved[j]
    requires if j == 0 then cuts == [] else CutsMatch(tokens, Gone(tokens, Set(moved[..j])), cuts)
    ensures var c := Sk(tokens)[CommaAt(|Sk(tokens)|, p)];
      moved[j] < |tokens| && c < |tokens| &&
      CutsMatch(tokens, Gone(tokens, Set(moved[..j + 1])), cuts + [RangeOf(tokens, moved[j]), RangeOf(tokens, c)])
  {
    hide Gone; hide CutsMatch; hide RangeOf;
    SkFacts(tokens);
    hide Sk;
    GoneMore(tokens, Set(moved[..j]), p);
    SetMore(moved, j);
    if j == 0 {
      assert Set(moved[..0]) == {};
      NothingGone(tokens);
      NothingMatches(tokens);
    }
    CutsMatchMore(tokens, Gone(tokens, Set(moved[..j])), cuts, moved[j], Sk(tokens)[CommaAt(|Sk(tokens)|, p)]);
  }

  lemma SetMore(moved: seq<nat>, j: nat)
    requires j < |moved|
    ensures Set(moved[..j + 1]) == Set(moved[..j]) + {moved[j]}
  {
    assert moved[..j + 1] == moved[..j] + [moved[j]];
  }

  lemma NothingMatches(tokens: seq<Token>)
    ensures CutsMatch(tokens, {}, [])
  {
  }

  lemma NothingGone(tokens: seq<Token>)
    requires |Sk(tokens)| > 1
    ensures Gone(tokens, {}) == {}
  {
    assert PositionsOf(tokens, {}) == {};
  }

  ghost function Set(ks: seq<nat>): set<nat> {
    set k | k in ks
  }
}
