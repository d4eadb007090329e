/** prepareDumpDDLForReplay (internal/mycli/dump_ddl_replay.go): forward foreign keys move behind
    all CREATE statements. */
module DdlReplay {
  import opened TableIds
  import opened SourceCuts

  /** A dump statement as the parser reports it: not a CREATE TABLE; a CREATE TABLE it cannot read at
      all, or one with a foreign key it cannot place; a CREATE TABLE of which only the name is known;
      a fully parsed CREATE TABLE with the source text of its name and its tokens. */
  datatype Statement =
    | Other(text: string)
    | Unreadable(text: string)
    | Opaque(id: TableId, text: string)
    | Create(id: TableId, synonyms: seq<string>, nameText: string, tokens: seq<Token>)

  datatype DeferredFk = DeferredFk(table: TableId, target: TableId, nameText: string, clause: string)

  datatype ReplayResult = Replay(texts: seq<string>) | Rejected

  // ---- Names, without regard to case ----

  function LowerChar(c: char): char {
    if 'A' <= c <= 'Z' then c - 'A' + 'a' else c
  }

  function Lower(s: string): string {
    if s == "" then "" else Lower(s[..|s| - 1]) + [LowerChar(s[|s| - 1])]
  }

  function Key(id: TableId): TableId {
    TableId(Lower(id.schema), Lower(id.name))
  }

  /** The names a statement creates; synonyms live in the table's schema. */
  function Names(s: Statement): set<TableId> {
    match s
    case Other(_) => {}
    case Unreadable(_) => {}
    case Opaque(id, _) => {Key(id)}
    case Create(id, synonyms, _, _) => {Key(id)} + set x | x in synonyms :: Key(TableId(id.schema, x))
  }

  function Created(ss: seq<Statement>, n: nat): set<TableId>
    requires n <= |ss|
  {
    if n == 0 then {} else Created(ss, n - 1) + Names(ss[n - 1])
  }

  // ---- What is moved ----

  predicate IsForward(t: Token, created: set<TableId>) {
    t.Decl? && t.target.Some? && Key(t.target.value) !in created
  }

  function Forward(tokens: seq<Token>, created: set<TableId>, n: nat): (r: seq<nat>)
    requires n <= |tokens|
    ensures forall k: nat :: k in r <==> k < n && IsForward(tokens[k], created)
  {
    if n == 0 then [] else Forward(tokens, created, n - 1) + if IsForward(tokens[n - 1], created) then [n - 1] else []
  }

  function MovedFrom(s: Statement, created: set<TableId>, n: nat): seq<DeferredFk>
    requires s.Create? && n <= |s.tokens|
  {
    if n == 0 then []
    else MovedFrom(s, created, n - 1) +
         if IsForward(s.tokens[n - 1], created)
         then [DeferredFk(s.id, s.tokens[n - 1].target.value, s.nameText, s.tokens[n - 1].text)] else []
  }

  ghost function Rewrite(s: Statement, created: set<TableId>): Statement {
    if s.Create? && Forward(s.tokens, created, |s.tokens|) != [] && |Sk(s.tokens)| > 2
    then s.(tokens := Removed(s.tokens, Set(Forward(s.tokens, created, |s.tokens|))))
    else s
  }

  ghost function Kept(ss: seq<Statement>, n: nat): (r: seq<Statement>)
    requires n <= |ss|
    ensures |r| == n && forall i :: 0 <= i < n ==> r[i] == Rewrite(ss[i], Created(ss, i + 1))
  {
    if n == 0 then [] else Kept(ss, n - 1) + [Rewrite(ss[n - 1], Created(ss, n))]
  }

  ghost function Deferred(ss: seq<Statement>, n: nat): seq<DeferredFk>
    requires n <= |ss|
  {
    if n == 0 then []
    else Deferred(ss, n - 1) +
         if ss[n - 1].Create? then MovedFrom(ss[n - 1], Created(ss, n), |ss[n - 1].tokens|) else []
  }

  // ---- When the rewrite succeeds ----

  predicate FreshName(ss: seq<Statement>, i: nat)
    requires i < |ss|
  {
    ss[i].Create? || ss[i].Opaque? ==> Key(ss[i].id) !in Created(ss, i)
  }

  /** Foreign keys can only be cut if some other declaration stays beside the first one cut. */
  ghost predicate Cuttable(ss: seq<Statement>, i: nat)
    requires i < |ss|
  {
    ss[i].Create? && Forward(ss[i].tokens, Created(ss, i + 1), |ss[i].tokens|) != [] ==> |Sk(ss[i].tokens)| > 2
  }

  ghost predicate StatementOk(ss: seq<Statement>, i: nat)
    requires i < |ss|
  {
    !ss[i].Unreadable? && FreshName(ss, i) && Cuttable(ss, i)
  }

  ghost predicate TargetsCreated(deferred: seq<DeferredFk>, created: set<TableId>) {
    forall d :: d in deferred ==> Key(d.target) in created
  }

  ghost predicate Accepted(ss: seq<Statement>) {
    (forall i :: 0 <= i < |ss| ==> StatementOk(ss, i)) && TargetsCreated(Deferred(ss, |ss|), Created(ss, |ss|))
  }

  ghost predicate Parsed(ss: seq<Statement>) {
    forall i :: 0 <= i < |ss| && ss[i].Create? ==> WellFormed(ss[i].tokens)
  }

  function StatementText(s: Statement): string {
    match s
    case Other(text) => text
    case Unreadable(text) => text
    case Opaque(_, text) => text
    case Create(_, _, _, tokens) => Render(tokens)
  }

  function AlterText(d: DeferredFk): string {
    "ALTER TABLE " + d.nameText + " ADD " + d.clause
  }

  function AlterTexts(ds: seq<DeferredFk>): seq<string> {
    if ds == [] then [] else AlterTexts(ds[..|ds| - 1]) + [AlterText(ds[|ds| - 1])]
  }

  // ---- Replaying on an empty catalog, defined without the rewrite ----

  /** Every inline target is created by an earlier statement or by the statement itself. */
  ghost predicate InlineTargetsExist(ss: seq<Statement>, i: nat)
    requires i < |ss|
  {
    ss[i].Create? ==> forall t :: t in ss[i].tokens && t.Decl? && t.target.Some? ==>
      Key(t.target.value) in Created(ss, i + 1)
  }

  /** Every moved constraint finds both its table and its target. */
  ghost predicate AlterApplies(d: DeferredFk, created: set<TableId>) {
    Key(d.table) in created && Key(d.target) in created
  }

  ghost predicate Replays(ss: seq<Statement>, alters: seq<DeferredFk>) {
    && (forall i :: 0 <= i < |ss| ==> FreshName(ss, i) && InlineTargetsExist(ss, i))
    && (forall d :: d in alters ==> AlterApplies(d, Created(ss, |ss|)))
  }

  lemma {:induction false} KeepMember(tokens: seq<Token>, gone: set<nat>, n: nat, t: Token)
    requires n <= |tokens| && t in Keep(tokens, gone, n)
    ensures exists k :: 0 <= k < n && k !in gone && tokens[k] == t
  {
    KeepNext(tokens, gone, n - 1);
    if t in Keep(tokens, gone, n - 1) {
      KeepMember(tokens, gone, n - 1, t);
    }
  }

  lemma RewriteKeepsNames(s: Statement, created: set<TableId>)
    ensures Names(Rewrite(s, created)) == Names(s)
    ensures Rewrite(s, created).Create? <==> s.Create?
    ensures Rewrite(s, created).Opaque? <==> s.Opaque?
    ensures s.Create? ==>
          Rewrite(s, created).id == s.id && Rewrite(s, created).synonyms == s.synonyms
          && Rewrite(s, created).nameText == s.nameText
    ensures !s.Create? ==> Rewrite(s, created) == s
  {
  }

  lemma {:induction false} CreatedKept(ss: seq<Statement>, more: seq<Statement>, n: nat)
    requires n <= |ss|
    ensures Created(Kept(ss, |ss|) + more, n) == Created(ss, n)
  {
    if n > 0 {
      CreatedKept(ss, more, n - 1);
      RewriteKeepsNames(ss[n - 1], Created(ss, n));
    }
  }

  lemma {:induction false} CreatedGrows(ss: seq<Statement>, a: nat, b: nat)
    requires a <= b <= |ss|
    ensures Created(ss, a) <= Created(ss, b)
  {
    hide Names;
    if a < b {
      CreatedGrows(ss, a, b - 1);
    }
  }

  /** After the rewrite no inline foreign key of the statement is forward any more. */
  lemma RewriteLeavesNoForward(s: Statement, created: set<TableId>, t: Token)
    requires s.Create? && t in Rewrite(s, created).tokens && t.Decl? && t.target.Some?
    requires Forward(s.tokens, created, |s.tokens|) != [] ==> |Sk(s.tokens)| > 2
    requires WellFormed(s.tokens)
    ensures Key(t.target.value) in created
  {
    var f := Forward(s.tokens, created, |s.tokens|);
    if f == [] {
      var k :| 0 <= k < |s.tokens| && s.tokens[k] == t;
      assert k !in f;
    } else {
      KeepMember(s.tokens, Gone(s.tokens, Set(f)), |s.tokens|, t);
      var k :| 0 <= k < |s.tokens| && k !in Gone(s.tokens, Set(f)) && s.tokens[k] == t;
      if k in f {
        MovedAreGone(s.tokens, Set(f), k);
      }
    }
  }

  lemma MovedAreGone(tokens: seq<Token>, ks: set<nat>, k: nat)
    requires |Sk(tokens)| > 1 && k < |tokens| && tokens[k].Decl? && k in ks
    ensures k in Gone(tokens, ks)
  {
    SkFacts(tokens);
    var p :| 0 <= p < |Sk(tokens)| && Sk(tokens)[p] == k;
    GoneAt(tokens, ks, p);
    assert p in PositionsOf(tokens, ks);
  }

  /** The output replays: every foreign key finds its target, inline or added afterwards. */
  lemma OutputReplays(ss: seq<Statement>)
    requires Parsed(ss) && Accepted(ss)
    ensures Replays(Kept(ss, |ss|), Deferred(ss, |ss|))
  {
    var out := Kept(ss, |ss|);
    assert out + [] == out;
    forall i | 0 <= i < |out| ensures FreshName(out, i) && InlineTargetsExist(out, i) {
      CreatedKept(ss, [], i);
      CreatedKept(ss, [], i + 1);
      RewriteKeepsNames(ss[i], Created(ss, i + 1));
      assert StatementOk(ss, i);
      if ss[i].Create? {
        forall t | t in out[i].tokens && t.Decl? && t.target.Some? ensures Key(t.target.value) in Created(ss, i + 1) {
          RewriteLeavesNoForward(ss[i], Created(ss, i + 1), t);
        }
      }
    }
    CreatedKept(ss, [], |ss|);
    forall d | d in Deferred(ss, |ss|) ensures AlterApplies(d, Created(ss, |ss|)) {
      DeferredTable(ss, |ss|, d);
    }
  }

  lemma {:induction false} MovedTable(s: Statement, created: set<TableId>, n: nat, d: DeferredFk)
    requires s.Create? && n <= |s.tokens| && d in MovedFrom(s, created, n)
    ensures d.table == s.id
  {
    if d in MovedFrom(s, created, n - 1) {
      MovedTable(s, created, n - 1, d);
    }
  }

  lemma {:induction false} DeferredTable(ss: seq<Statement>, n: nat, d: DeferredFk)
    requires n <= |ss| && d in Deferred(ss, n)
    ensures Key(d.table) in Created(ss, |ss|)
  {
    if d in Deferred(ss, n - 1) {
      DeferredTable(ss, n - 1, d);
    } else {
      MovedTable(ss[n - 1], Created(ss, n), |ss[n - 1].tokens|, d);
      CreatedGrows(ss, n, |ss|);
    }
  }

  // ---- Nothing is lost, nothing else changes ----

  type FkPair = (TableId, TableId, string)

  ghost function PairOf(id: TableId, t: Token): multiset<FkPair> {
    if t.Decl? && t.target.Some? then multiset{(id, t.target.value, t.text)} else multiset{}
  }

  /** Table, target and text of the foreign keys among some tokens. */
  ghost function Pairs(id: TableId, tokens: seq<Token>): multiset<FkPair> {
    if tokens == [] then multiset{} else Pairs(id, tokens[..|tokens| - 1]) + PairOf(id, tokens[|tokens| - 1])
  }

  ghost function StatementPairs(s: Statement): multiset<FkPair> {
    if s.Create? then Pairs(s.id, s.tokens) else multiset{}
  }

  ghost function AllPairs(ss: seq<Statement>): multiset<FkPair> {
    if ss == [] then multiset{} else AllPairs(ss[..|ss| - 1]) + StatementPairs(ss[|ss| - 1])
  }

  ghost function AlterPairs(ds: seq<DeferredFk>): multiset<FkPair> {
    if ds == [] then multiset{}
    else AlterPairs(ds[..|ds| - 1]) + multiset{(ds[|ds| - 1].table, ds[|ds| - 1].target, ds[|ds| - 1].clause)}
  }

  lemma {:induction false} AlterPairsAdd(a: seq<DeferredFk>, b: seq<DeferredFk>)
    ensures AlterPairs(a + b) == AlterPairs(a) + AlterPairs(b)
  {
    if b == [] {
      assert a + b == a;
    } else {
      assert (a + b)[..|a + b| - 1] == a + b[..|b| - 1];
      AlterPairsAdd(a, b[..|b| - 1]);
    }
  }

  lemma PairsAppend(id: TableId, tokens: seq<Token>, t: Token)
    ensures Pairs(id, tokens + [t]) == Pairs(id, tokens) + PairOf(id, t)
  {
    assert (tokens + [t])[..|tokens|] == tokens;
  }

  lemma PairsKeepNext(id: TableId, tokens: seq<Token>, gone: set<nat>, n: nat)
    requires n < |tokens|
    ensures Pairs(id, Keep(tokens, gone, n + 1))
         == Pairs(id, Keep(tokens, gone, n)) + if n in gone then multiset{} else PairOf(id, tokens[n])
  {
    KeepNext(tokens, gone, n);
    PairsAppend(id, Keep(tokens, gone, n), tokens[n]);
  }

  lemma PairsKeepNone(id: TableId, tokens: seq<Token>, gone: set<nat>)
    ensures Pairs(id, Keep(tokens, gone, 0)) == multiset{}
  {
  }

  /** Only declarations carry foreign keys. */
  lemma {:induction false} PairsOfKeep(id: TableId, tokens: seq<Token>, a: set<nat>, b: set<nat>, n: nat)
    requires n <= |tokens| && forall k: nat :: k < |tokens| && tokens[k].Decl? ==> (k in a <==> k in b)
    ensures Pairs(id, Keep(tokens, a, n)) == Pairs(id, Keep(tokens, b, n))
  {
    hide Pairs; hide Keep;
    if n == 0 {
      PairsKeepNone(id, tokens, a);
      PairsKeepNone(id, tokens, b);
    } else {
      PairsOfKeep(id, tokens, a, b, n - 1);
      PairsKeepNext(id, tokens, a, n - 1);
      PairsKeepNext(id, tokens, b, n - 1);
    }
  }

  /** What stays and what moves are together what was there. */
  lemma {:induction false} KeepAndMove(s: Statement, created: set<TableId>, moved: set<nat>, n: nat)
    requires s.Create? && n <= |s.tokens|
    requires forall k: nat :: k in moved <==> k < |s.tokens| && IsForward(s.tokens[k], created)
    ensures Pairs(s.id, s.tokens[..n]) == Pairs(s.id, Keep(s.tokens, moved, n)) + AlterPairs(MovedFrom(s, created, n))
  {
    hide Keep; hide Pairs; hide AlterPairs; hide PairOf;
    if n == 0 {
      MoveNone(s, created, moved);
    } else {
      KeepAndMove(s, created, moved, n - 1);
      PairsKeepNext(s.id, s.tokens, moved, n - 1);
      MoveNext(s, created, n - 1);
    }
  }

  lemma MoveNone(s: Statement, created: set<TableId>, moved: set<nat>)
    requires s.Create?
    ensures Pairs(s.id, s.tokens[..0]) == Pairs(s.id, Keep(s.tokens, moved, 0)) + AlterPairs(MovedFrom(s, created, 0))
  {
    assert s.tokens[..0] == [];
  }

  lemma MoveNext(s: Statement, created: set<TableId>, n: nat)
    requires s.Create? && n < |s.tokens|
    ensures Pairs(s.id, s.tokens[..n + 1]) == Pairs(s.id, s.tokens[..n]) + PairOf(s.id, s.tokens[n])
    ensures AlterPairs(MovedFrom(s, created, n + 1)) ==
            AlterPairs(MovedFrom(s, created, n)) +
            if IsForward(s.tokens[n], created) then PairOf(s.id, s.tokens[n]) else multiset{}
  {
    var t := s.tokens[n];
    assert s.tokens[..n + 1] == s.tokens[..n] + [t];
    PairsAppend(s.id, s.tokens[..n], t);
    if IsForward(t, created) {
      var d := DeferredFk(s.id, t.target.value, s.nameText, t.text);
      AlterPairsAdd(MovedFrom(s, created, n), [d]);
      AlterPairsOne(d);
    } else {
      assert MovedFrom(s, created, n + 1) == MovedFrom(s, created, n);
    }
  }

  lemma AlterPairsOne(d: DeferredFk)
    ensures AlterPairs([d]) == multiset{(d.table, d.target, d.clause)}
  {
    assert [d][..0] == [];
  }

  lemma RewritePairs(s: Statement, created: set<TableId>)
    requires s.Create? && WellFormed(s.tokens) && (Forward(s.tokens, created, |s.tokens|) != [] ==> |Sk(s.tokens)| > 2)
    ensures StatementPairs(s) == StatementPairs(Rewrite(s, created)) + AlterPairs(MovedFrom(s, created, |s.tokens|))
  {
    var n := |s.tokens|;
    var f := Forward(s.tokens, created, n);
    KeepAndMove(s, created, Set(f), n);
    assert s.tokens[..n] == s.tokens;
    if f == [] {
      KeepAll(s.tokens, n);
      assert Set(f) == {};
    } else {
      forall k: nat | k < n && s.tokens[k].Decl? ensures k in Gone(s.tokens, Set(f)) <==> k in Set(f) {
        GoneDecl(s.tokens, Set(f), k);
      }
      PairsOfKeep(s.id, s.tokens, Gone(s.tokens, Set(f)), Set(f), n);
    }
  }

  lemma {:induction false} KeepAll(tokens: seq<Token>, n: nat)
    requires n <= |tokens|
    ensures Keep(tokens, {}, n) == tokens[..n]
  {
    if n > 0 {
      KeepAll(tokens, n - 1);
    }
  }

  lemma PairsNext(ss: seq<Statement>, n: nat)
    requires n < |ss| && (ss[n].Create? ==> WellFormed(ss[n].tokens)) && Cuttable(ss, n)
    ensures AllPairs(ss[..n + 1]) == AllPairs(ss[..n]) + StatementPairs(ss[n])
    ensures AllPairs(Kept(ss, n + 1)) == AllPairs(Kept(ss, n)) + StatementPairs(Rewrite(ss[n], Created(ss, n + 1)))
    ensures StatementPairs(ss[n]) + AlterPairs(Deferred(ss, n)) ==
            StatementPairs(Rewrite(ss[n], Created(ss, n + 1))) + AlterPairs(Deferred(ss, n + 1))
  {
    var s, created := ss[n], Created(ss, n + 1);
    assert ss[..n + 1][..n] == ss[..n];
    assert Kept(ss, n + 1)[..n] == Kept(ss, n);
    RewriteKeepsNames(s, created);
    if s.Create? {
      RewritePairs(s, created);
      AlterPairsAdd(Deferred(ss, n), MovedFrom(s, created, |s.tokens|));
    } else {
      assert Deferred(ss, n + 1) == Deferred(ss, n);
    }
  }

  /** No table, target or constraint text is lost or invented. */
  lemma {:induction false} PairsConserved(ss: seq<Statement>, n: nat)
    requires n <= |ss| && Parsed(ss) && forall i :: 0 <= i < |ss| ==> Cuttable(ss, i)
    ensures AllPairs(ss[..n]) == AllPairs(Kept(ss, n)) + AlterPairs(Deferred(ss, n))
  {
    hide Cuttable; hide AllPairs; hide AlterPairs; hide Kept; hide Deferred;
    hide Rewrite; hide StatementPairs; hide Created; hide WellFormed;
    if n > 0 {
      PairsConserved(ss, n - 1);
      PairsNext(ss, n - 1);
      Exchange(AllPairs(Kept(ss, n - 1)), AlterPairs(Deferred(ss, n - 1)), AlterPairs(Deferred(ss, n)),
               StatementPairs(ss[n - 1]), StatementPairs(Rewrite(ss[n - 1], Created(ss, n))));
    } else {
      NoPairs(ss);
    }
  }

  lemma NoPairs(ss: seq<Statement>)
    ensures AllPairs(ss[..0]) == AllPairs(Kept(ss, 0)) + AlterPairs(Deferred(ss, 0))
  {
    assert ss[..0] == [];
  }

  lemma Exchange<T>(kept: multiset<T>, before: multiset<T>, after: multiset<T>, whole: multiset<T>, rest: multiset<T>)
    requires whole + before == rest + after
    ensures kept + before + whole == (kept + rest) + after
  {
    assert kept + before + whole == kept + (whole + before);
  }

  // ---- Identity and idempotence ----

  lemma {:induction false} NothingForward(s: Statement, created: set<TableId>, n: nat)
    requires s.Create? && n <= |s.tokens|
    requires forall t :: t in s.tokens && t.Decl? && t.target.Some? ==> Key(t.target.value) in created
    ensures Forward(s.tokens, created, n) == [] && MovedFrom(s, created, n) == []
  {
    if n > 0 {
      NothingForward(s, created, n - 1);
      assert s.tokens[n - 1] in s.tokens;
    }
  }

  lemma NothingRewritten(ss: seq<Statement>, n: nat)
    requires n < |ss| && InlineTargetsExist(ss, n)
    ensures Rewrite(ss[n], Created(ss, n + 1)) == ss[n] && Cuttable(ss, n)
    ensures ss[n].Create? ==> MovedFrom(ss[n], Created(ss, n + 1), |ss[n].tokens|) == []
  {
    if ss[n].Create? {
      NothingForward(ss[n], Created(ss, n + 1), |ss[n].tokens|);
    }
  }

  /** A dump whose inline targets all exist already, under distinct names, is left as it is. */
  lemma {:induction false} NoForwardIdentity(ss: seq<Statement>, n: nat)
    requires n <= |ss| && forall i :: 0 <= i < n ==> InlineTargetsExist(ss, i)
    ensures Kept(ss, n) == ss[..n] && Deferred(ss, n) == []
    ensures forall i :: 0 <= i < n ==> Cuttable(ss, i)
  {
    hide Cuttable; hide InlineTargetsExist; hide Rewrite; hide Created; hide MovedFrom;
    if n > 0 {
      NoForwardIdentity(ss, n - 1);
      NothingRewritten(ss, n - 1);
      assert ss[..n] == ss[..n - 1] + [ss[n - 1]];
    }
  }

  ghost function AsOthers(ds: seq<DeferredFk>): (r: seq<Statement>)
    ensures |r| == |ds| && forall i :: 0 <= i < |ds| ==> r[i] == Other(AlterText(ds[i]))
  {
    if ds == [] then [] else AsOthers(ds[..|ds| - 1]) + [Other(AlterText(ds[|ds| - 1]))]
  }

  /** The output as the next run reads it: the constraints moved behind are not CREATE statements. */
  ghost function Output(ss: seq<Statement>): seq<Statement> {
    Kept(ss, |ss|) + AsOthers(Deferred(ss, |ss|))
  }

  lemma OthersBehind(ss: seq<Statement>, i: nat)
    requires |ss| <= i < |Output(ss)|
    ensures Output(ss)[i].Other? && Names(Output(ss)[i]) == {}
  {
    hide Kept; hide Deferred; hide AsOthers;
  }

  lemma {:induction false} CreatedBehind(ss: seq<Statement>, n: nat)
    requires |ss| <= n <= |Output(ss)|
    ensures Created(Output(ss), n) == Created(ss, |ss|)
  {
    hide Names; hide Kept; hide Deferred; hide AsOthers;
    if n == |ss| {
      CreatedKept(ss, AsOthers(Deferred(ss, |ss|)), n);
    } else {
      hide Output;
      OthersBehind(ss, n - 1);
      CreatedBehind(ss, n - 1);
    }
  }

  /** Running the rewrite on its own output changes nothing. */
  lemma Idempotent(ss: seq<Statement>)
    requires Parsed(ss) && Accepted(ss)
    ensures Accepted(Output(ss)) && Parsed(Output(ss))
    ensures Kept(Output(ss), |Output(ss)|) == Output(ss) && Deferred(Output(ss), |Output(ss)|) == []
  {
    var out, more := Output(ss), AsOthers(Deferred(ss, |ss|));
    OutputReplays(ss);
    forall i | 0 <= i < |out| ensures InlineTargetsExist(out, i) && FreshName(out, i) && !out[i].Unreadable?
      ensures out[i].Create? ==> WellFormed(out[i].tokens)
    {
      if i < |ss| {
        OutputEntry(ss, i);
      }
    }
    NoForwardIdentity(out, |out|);
    assert out[..|out|] == out;
  }

  lemma OutputEntry(ss: seq<Statement>, i: nat)
    requires Parsed(ss) && Accepted(ss) && i < |ss| && Replays(Kept(ss, |ss|), Deferred(ss, |ss|))
    ensures InlineTargetsExist(Output(ss), i) && FreshName(Output(ss), i) && !Output(ss)[i].Unreadable?
    ensures Output(ss)[i].Create? ==> WellFormed(Output(ss)[i].tokens)
  {
    var kept, more := Kept(ss, |ss|), AsOthers(Deferred(ss, |ss|));
    assert Output(ss)[i] == kept[i];
    assert FreshName(kept, i) && InlineTargetsExist(kept, i);
    SameCreated(ss, more, i);
    assert StatementOk(ss, i);
    RewrittenOk(ss[i], Created(ss, i + 1));
    hide Kept; hide Deferred; hide AsOthers; hide Rewrite; hide Created; hide Names; hide WellFormed; hide Key;
    hide Replays; hide Accepted; hide Forward; hide Sk;
  }

  lemma SameCreated(ss: seq<Statement>, more: seq<Statement>, i: nat)
    requires i < |ss|
    ensures Created(Kept(ss, |ss|) + more, i) == Created(Kept(ss, |ss|), i)
    ensures Created(Kept(ss, |ss|) + more, i + 1) == Created(Kept(ss, |ss|), i + 1)
  {
    assert Kept(ss, |ss|) + [] == Kept(ss, |ss|);
    CreatedKept(ss, more, i);
    CreatedKept(ss, more, i + 1);
    CreatedKept(ss, [], i);
    CreatedKept(ss, [], i + 1);
    hide Created; hide Kept;
  }

  lemma RewrittenOk(s: Statement, created: set<TableId>)
    requires s.Create? ==> WellFormed(s.tokens)
    ensures Rewrite(s, created).Unreadable? <==> s.Unreadable?
    ensures Rewrite(s, created).Create? ==> WellFormed(Rewrite(s, created).tokens)
  {
    RewriteKeepsNames(s, created);
    if s.Create? && Rewrite(s, created) != s {
      RemovedWellFormed(s.tokens, Set(Forward(s.tokens, created, |s.tokens|)));
    }
  }

  // ---- The loop ----

  ghost function KeptTexts(ss: seq<Statement>, n: nat): seq<string>
    requires n <= |ss|
  {
    if n == 0 then [] else KeptTexts(ss, n - 1) + [StatementText(Rewrite(ss[n - 1], Created(ss, n)))]
  }

  /** The names of one CREATE TABLE: its own key, then its synonyms. */
  method AddNames(created: set<TableId>, s: Statement) returns (r: set<TableId>)
    requires s.Create?
    ensures r == created + Names(s)
  {
    r := created + {Key(s.id)};
    var j := 0;
    while j < |s.synonyms|
      invariant j <= |s.synonyms|
      invariant r == created + {Key(s.id)} + set x | x in s.synonyms[..j] :: Key(TableId(s.id.schema, x))
    {
      r := r + {Key(TableId(s.id.schema, s.synonyms[j]))};
      j := j + 1;
      assert s.synonyms[..j] == s.synonyms[..j - 1] + [s.synonyms[j - 1]];
    }
    assert s.synonyms[..j] == s.synonyms;
  }

  /** The inline foreign keys that point forward. */
  method CollectForward(s: Statement, created: set<TableId>) returns (moved: seq<nat>, more: seq<DeferredFk>)
    requires s.Create?
    ensures moved == Forward(s.tokens, created, |s.tokens|) && more == MovedFrom(s, created, |s.tokens|)
  {
    moved, more := [], [];
    var k := 0;
    while k < |s.tokens|
      invariant k <= |s.tokens| && moved == Forward(s.tokens, created, k) && more == MovedFrom(s, created, k)
    {
      if IsForward(s.tokens[k], created) {
        moved := moved + [k];
        more := more + [DeferredFk(s.id, s.tokens[k].target.value, s.nameText, s.tokens[k].text)];
      }
      k := k + 1;
    }
  }

  /** What is left of a statement after a cut is parsed once more. */
  ghost predicate Reparses(s: Statement, created: set<TableId>, parses: string -> bool) {
    s.Create? && Forward(s.tokens, created, |s.tokens|) != [] ==> parses(StatementText(Rewrite(s, created)))
  }

  /** One CREATE TABLE, once its names are registered. */
  method RewriteCreate(s: Statement, created: set<TableId>, parses: string -> bool)
    returns (ok: bool, text: string, more: seq<DeferredFk>)
    requires s.Create? && WellFormed(s.tokens)
    ensures ok <==> (Forward(s.tokens, created, |s.tokens|) != [] ==> |Sk(s.tokens)| > 2)
                    && Reparses(s, created, parses)
    ensures ok ==> text == StatementText(Rewrite(s, created)) && more == MovedFrom(s, created, |s.tokens|)
  {
    var moved;
    moved, more := CollectForward(s, created);
    if moved == [] {
      return true, Render(s.tokens), more;
    }
    var cut := RemoveInlineFks(s.tokens, moved, parses);
    match cut
    case NoAdjacentDeclaration => return false, "", [];
    case RewrittenInvalid => return false, "", [];
    case CutOk(sql) => return true, sql, more;
  }

  ghost predicate Passes(ss: seq<Statement>, i: nat, parses: string -> bool)
    requires i < |ss|
  {
    StatementOk(ss, i) && Reparses(ss[i], Created(ss, i + 1), parses)
  }

  ghost predicate Prepared(ss: seq<Statement>, parses: string -> bool) {
    Accepted(ss) && forall i :: 0 <= i < |ss| ==> Reparses(ss[i], Created(ss, i + 1), parses)
  }

  /** The output of a run is accepted by the next one whatever the parser then says: nothing is cut,
      so nothing is parsed again. */
  lemma OutputPrepared(ss: seq<Statement>, parses: string -> bool)
    requires Parsed(ss) && Accepted(ss)
    ensures Parsed(Output(ss)) && Prepared(Output(ss), parses)
  {
    var out := Output(ss);
    Idempotent(ss);
    forall i | 0 <= i < |out| ensures Reparses(out[i], Created(out, i + 1), parses) {
      if out[i].Create? {
        assert InlineTargetsExist(out, i) by { OutputInline(ss, i); }
        NothingForward(out[i], Created(out, i + 1), |out[i].tokens|);
      }
    }
  }

  lemma OutputInline(ss: seq<Statement>, i: nat)
    requires Parsed(ss) && Accepted(ss) && i < |Output(ss)|
    ensures InlineTargetsExist(Output(ss), i)
  {
    OutputReplays(ss);
    if i < |ss| {
      OutputEntry(ss, i);
    } else {
      OthersBehind(ss, i);
    }
  }

  lemma AllPass(ss: seq<Statement>, parses: string -> bool)
    ensures Prepared(ss, parses) <==>
            && (forall i :: 0 <= i < |ss| ==> Passes(ss, i, parses))
            && TargetsCreated(Deferred(ss, |ss|), Created(ss, |ss|))
  {
    hide StatementOk; hide Reparses; hide TargetsCreated; hide Created; hide Deferred;
    if forall i :: 0 <= i < |ss| ==> Passes(ss, i, parses) {
      forall i | 0 <= i < |ss| ensures StatementOk(ss, i) && Reparses(ss[i], Created(ss, i + 1), parses) {
        assert Passes(ss, i, parses);
      }
    }
  }

  method Prepare(statements: seq<Statement>, parses: string -> bool) returns (r: ReplayResult)
    requires Parsed(statements)
    ensures r.Replay? <==> Prepared(statements, parses)
    ensures r.Replay? ==>
      r.texts == KeptTexts(statements, |statements|) + AlterTexts(Deferred(statements, |statements|))
  {
    hide StatementOk; hide Reparses; hide Rewrite; hide Passes; hide Prepared; hide TargetsCreated;
    AllPass(statements, parses);
    var created: set<TableId> := {};
    var result: seq<string> := [];
    var deferred: seq<DeferredFk> := [];
    var i := 0;
    while i < |statements|
      invariant i <= |statements| && created == Created(statements, i)
      invariant forall k :: 0 <= k < i ==> Passes(statements, k, parses)
      invariant deferred == Deferred(statements, i)
      invariant result == KeptTexts(statements, i)
    {
      var ok, text, more;
      ok, created, text, more := Handle(statements, i, created, parses);
      if !ok {
        assert !Passes(statements, i, parses);
        return Rejected;
      }
      result, deferred := result + [text], deferred + more;
      i := i + 1;
    }
    r := AppendDeferred(result, deferred, created);
  }

  /** Dispatch on one statement. */
  method Handle(statements: seq<Statement>, i: nat, created: set<TableId>, parses: string -> bool)
    returns (ok: bool, names: set<TableId>, text: string, more: seq<DeferredFk>)
    requires i < |statements| && Parsed(statements) && created == Created(statements, i)
    ensures ok <==> Passes(statements, i, parses)
    ensures ok ==> names == Created(statements, i + 1) && text == StatementText(Rewrite(statements[i], names))
    ensures ok ==> Deferred(statements, i + 1) == Deferred(statements, i) + more
  {
    var s := statements[i];
    names, text, more := created, "", [];
    match s
    case Other(t) =>
      RewriteKeepsNames(s, created);
      return true, created, t, [];
    case Unreadable(_) =>
      return false, created, "", [];
    case Opaque(id, t) =>
      if Key(id) in created {
        return false, created, "", [];
      }
      names := created + {Key(id)};
      RewriteKeepsNames(s, names);
      return true, names, t, [];
    case Create(id, _, _, _) =>
      if Key(id) in created {
        return false, created, "", [];
      }
      names := AddNames(created, s);
      ok, text, more := RewriteCreate(s, names, parses);
  }

  /** Moved constraints follow all statements, if each target was created somewhere. */
  method AppendDeferred(result: seq<string>, deferred: seq<DeferredFk>, created: set<TableId>) returns (r: ReplayResult)
    ensures r.Replay? <==> TargetsCreated(deferred, created)
    ensures r.Replay? ==> r.texts == result + AlterTexts(deferred)
  {
    var texts := result;
    var j := 0;
    while j < |deferred|
      invariant j <= |deferred| && texts == result + AlterTexts(deferred[..j])
      invariant forall k :: 0 <= k < j ==> Key(deferred[k].target) in created
    {
      if Key(deferred[j].target) !in created {
        return Rejected;
      }
      texts := texts + [AlterText(deferred[j])];
      j := j + 1;
      assert deferred[..j][..j - 1] == deferred[..j - 1];
    }
    assert deferred[..j] == deferred;
    return Replay(texts);
  }
}
