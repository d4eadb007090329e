/** What the DDL rewrite (internal/mycli/dump_ddl_replay.go) accepts, moves and keeps, said about the
    statements themselves: names, declarations and their targets. */
module DdlExact {
  import opened TableIds
  import opened SourceCuts
  import opened DdlReplay

  // ---- Names ----

  /** The same character up to the case of the 26 letters. */
  predicate SameLetter(c: char, d: char) {
    || c == d
    || ('A' <= c <= 'Z' && d as int == c as int + 32)
    || ('A' <= d <= 'Z' && c as int == d as int + 32)
  }

  predicate SameName(a: string, b: string) {
    |a| == |b| && forall i :: 0 <= i < |a| ==> SameLetter(a[i], b[i])
  }

  lemma LowerLetters(c: char, d: char)
    ensures LowerChar(c) == LowerChar(d) <==> SameLetter(c, d)
  {
  }

  /** Two identities clash exactly if schema and name agree up to letter case. */
  lemma KeysClash(a: TableId, b: TableId)
    ensures Key(a) == Key(b) <==> SameName(a.schema, b.schema) && SameName(a.name, b.name)
  {
    LowerExactly(a.schema, b.schema);
    LowerExactly(a.name, b.name);
  }

  lemma {:induction false} LowerExactly(a: string, b: string)
    ensures Lower(a) == Lower(b) <==> SameName(a, b)
  {
    LowerLength(a);
    LowerLength(b);
    if |a| == |b| > 0 {
      var n := |a| - 1;
      LowerExactly(a[..n], b[..n]);
      LowerLetters(a[n], b[n]);
      LowerLength(a[..n]);
      LowerLength(b[..n]);
      hide SameLetter; hide LowerChar;
      assert Lower(a)[..n] == Lower(a[..n]) && Lower(b)[..n] == Lower(b[..n]);
      assert Lower(a)[n] == LowerChar(a[n]) && Lower(b)[n] == LowerChar(b[n]);
      if Lower(a[..n]) == Lower(b[..n]) && LowerChar(a[n]) == LowerChar(b[n]) {
        forall i | 0 <= i < |a| ensures SameLetter(a[i], b[i]) {
          assert i < n ==> a[..n][i] == a[i] && b[..n][i] == b[i];
        }
      }
      if SameName(a, b) {
        assert forall i :: 0 <= i < n ==> a[..n][i] == a[i] && b[..n][i] == b[i];
      }
    }
  }

  lemma {:induction false} LowerLength(a: string)
    ensures |Lower(a)| == |a|
  {
    if a != [] {
      LowerLength(a[..|a| - 1]);
    }
  }

  /** A statement declares a name: its table, or one of its synonyms in the same schema. */
  ghost predicate Declares(s: Statement, id: TableId) {
    || ((s.Create? || s.Opaque?) && Key(s.id) == id)
    || (s.Create? && exists j :: 0 <= j < |s.synonyms| && Key(TableId(s.id.schema, s.synonyms[j])) == id)
  }

  lemma {:induction false} CreatedExactly(ss: seq<Statement>, n: nat, id: TableId)
    requires n <= |ss|
    ensures id in Created(ss, n) <==> exists i :: 0 <= i < n && Declares(ss[i], id)
  {
    hide Key;
    if n > 0 {
      CreatedExactly(ss, n - 1, id);
      assert id in Names(ss[n - 1]) <==> Declares(ss[n - 1], id);
      hide Declares; hide Names;
    }
  }

  // ---- What moves and what stays ----

  /** An inline foreign key of statement i whose target no statement up to i declares. */
  ghost predicate PointsForward(ss: seq<Statement>, i: nat, t: Token)
    requires i < |ss|
  {
    t.Decl? && t.target.Some? && forall j :: 0 <= j <= i ==> !Declares(ss[j], Key(t.target.value))
  }

  lemma ForwardExactly(ss: seq<Statement>, i: nat, t: Token)
    requires i < |ss|
    ensures IsForward(t, Created(ss, i + 1)) <==> PointsForward(ss, i, t)
  {
    hide Declares; hide Key; hide Created;
    if t.Decl? && t.target.Some? {
      CreatedExactly(ss, i + 1, Key(t.target.value));
    }
  }

  /** The declarations that do not point forward, in order. */
  ghost function Staying(ss: seq<Statement>, i: nat, decls: seq<Token>): seq<Token>
    requires i < |ss|
  {
    if decls == [] then []
    else Staying(ss, i, decls[..|decls| - 1]) +
         if PointsForward(ss, i, decls[|decls| - 1]) then [] else [decls[|decls| - 1]]
  }

  lemma StayingAppend(ss: seq<Statement>, i: nat, decls: seq<Token>, t: Token)
    requires i < |ss|
    ensures Staying(ss, i, decls + [t]) == Staying(ss, i, decls) + if PointsForward(ss, i, t) then [] else [t]
  {
    assert (decls + [t])[..|decls|] == decls;
  }

  lemma {:induction false} StayingOfKeep(ss: seq<Statement>, i: nat, tokens: seq<Token>, moved: set<nat>, n: nat)
    requires i < |ss| && n <= |tokens|
    requires forall k: nat :: k < |tokens| ==> (k in moved <==> PointsForward(ss, i, tokens[k]))
    ensures Decls(Keep(tokens, moved, n)) == Staying(ss, i, Decls(tokens[..n]))
  {
    hide PointsForward; hide Staying; hide Decls;
    if n == 0 {
      StayingNothing(ss, i, tokens, moved);
    } else {
      var t := tokens[n - 1];
      StayingOfKeep(ss, i, tokens, moved, n - 1);
      KeepNext(tokens, moved, n - 1);
      DeclsAppend(Keep(tokens, moved, n - 1), t);
      DeclsAppend(tokens[..n - 1], t);
      assert tokens[..n] == tokens[..n - 1] + [t];
      StayingAppend(ss, i, Decls(tokens[..n - 1]), t);
      OnlyDeclsPoint(ss, i, t);
      assert Decls(tokens[..n - 1]) + [] == Decls(tokens[..n - 1]);
    }
  }

  lemma StayingNothing(ss: seq<Statement>, i: nat, tokens: seq<Token>, moved: set<nat>)
    requires i < |ss|
    ensures Decls(Keep(tokens, moved, 0)) == Staying(ss, i, Decls(tokens[..0]))
  {
    assert tokens[..0] == [];
  }

  lemma OnlyDeclsPoint(ss: seq<Statement>, i: nat, t: Token)
    requires i < |ss|
    ensures PointsForward(ss, i, t) ==> t.Decl?
  {
  }

  /** In the output of an accepted dump, statement i keeps its kind and names, and of its declarations
      exactly those that do not point forward, unchanged and in order. */
  lemma KeptExactly(ss: seq<Statement>, i: nat)
    requires Parsed(ss) && Accepted(ss) && i < |ss|
    ensures !ss[i].Create? ==> Kept(ss, |ss|)[i] == ss[i]
    ensures ss[i].Create? ==>
      && Kept(ss, |ss|)[i].Create?
      && Kept(ss, |ss|)[i] == ss[i].(tokens := Kept(ss, |ss|)[i].tokens)
      && Decls(Kept(ss, |ss|)[i].tokens) == Staying(ss, i, Decls(ss[i].tokens))
  {
    var s, created := ss[i], Created(ss, i + 1);
    assert StatementOk(ss, i);
    RewriteKeepsNames(s, created);
    if s.Create? {
      var n := |s.tokens|;
      var f := Forward(s.tokens, created, n);
      forall k: nat | k < n ensures k in Set(f) <==> PointsForward(ss, i, s.tokens[k]) {
        ForwardExactly(ss, i, s.tokens[k]);
      }
      StayingOfKeep(ss, i, s.tokens, Set(f), n);
      assert s.tokens[..n] == s.tokens;
      if f == [] {
        assert Set(f) == {};
        KeepAll(s.tokens, n);
      } else {
        RemovedDecls(s.tokens, Set(f));
      }
    }
  }

  /** The constraints added at the end are exactly the inline foreign keys that point forward; each is
      written with the table's own name text and the constraint's own text. */
  lemma {:induction false} DeferredExactly(ss: seq<Statement>, n: nat, d: DeferredFk)
    requires n <= |ss|
    ensures d in Deferred(ss, n) <==> exists i, k :: 0 <= i < n && MovesAt(ss, i, k, d)
    ensures AlterText(d) == "ALTER TABLE " + d.nameText + " ADD " + d.clause
  {
    hide MovesAt;
    if n > 0 {
      DeferredExactly(ss, n - 1, d);
      if ss[n - 1].Create? {
        MovedExactly(ss, n - 1, |ss[n - 1].tokens|, d);
      }
      OnlyCreatesMove(ss, n - 1, d);
    }
  }

  lemma OnlyCreatesMove(ss: seq<Statement>, i: nat, d: DeferredFk)
    requires i < |ss|
    ensures forall k :: MovesAt(ss, i, k, d) ==> ss[i].Create? && 0 <= k < |ss[i].tokens|
  {
  }

  /** d is the foreign key that token k of statement i declares, and it points forward. */
  ghost predicate MovesAt(ss: seq<Statement>, i: nat, k: int, d: DeferredFk)
    requires i < |ss|
  {
    && ss[i].Create? && 0 <= k < |ss[i].tokens| && PointsForward(ss, i, ss[i].tokens[k])
    && d == DeferredFk(ss[i].id, ss[i].tokens[k].target.value, ss[i].nameText, ss[i].tokens[k].text)
  }

  lemma {:induction false} MovedExactly(ss: seq<Statement>, i: nat, n: nat, d: DeferredFk)
    requires i < |ss| && ss[i].Create? && n <= |ss[i].tokens|
    ensures d in MovedFrom(ss[i], Created(ss, i + 1), n) <==> exists k :: 0 <= k < n && MovesAt(ss, i, k, d)
  {
    hide PointsForward; hide Created;
    if n > 0 {
      MovedExactly(ss, i, n - 1, d);
      ForwardExactly(ss, i, ss[i].tokens[n - 1]);
      assert IsForward(ss[i].tokens[n - 1], Created(ss, i + 1)) &&
        d == DeferredFk(ss[i].id, ss[i].tokens[n - 1].target.value, ss[i].nameText, ss[i].tokens[n - 1].text)
        <==> MovesAt(ss, i, n - 1, d);
      hide MovesAt; hide IsForward;
    }
  }

  lemma {:induction false} KeptTextAt(ss: seq<Statement>, n: nat, i: nat)
    requires i < n <= |ss|
    ensures |KeptTexts(ss, n)| == n && KeptTexts(ss, n)[i] == StatementText(Rewrite(ss[i], Created(ss, i + 1)))
  {
    hide Rewrite; hide StatementText;
    if n > 1 {
      KeptTextAt(ss, n - 1, if i < n - 1 then i else 0);
    }
  }

  lemma {:induction false} AlterTextAt(ds: seq<DeferredFk>, j: nat)
    requires j < |ds|
    ensures |AlterTexts(ds)| == |ds|
    ensures AlterTexts(ds)[j] == "ALTER TABLE " + ds[j].nameText + " ADD " + ds[j].clause
  {
    var n := |ds| - 1;
    if n > 0 {
      AlterTextAt(ds[..n], if j < n then j else 0);
    }
  }

  /** Every statement comes out in its place, as it was unless it has a foreign key that points forward;
      behind them one ALTER statement for each such foreign key. */
  lemma TextsExactly(ss: seq<Statement>)
    ensures var texts, ds := KeptTexts(ss, |ss|) + AlterTexts(Deferred(ss, |ss|)), Deferred(ss, |ss|);
      && |texts| == |ss| + |ds|
      && (forall i :: 0 <= i < |ss| && (ss[i].Other? || ss[i].Unreadable? || ss[i].Opaque?) ==> texts[i] == ss[i].text)
      && (forall i :: 0 <= i < |ss| && ss[i].Create? && !HasForward(ss, i) ==> texts[i] == Render(ss[i].tokens))
      && forall j :: 0 <= j < |ds| ==> texts[|ss| + j] == "ALTER TABLE " + ds[j].nameText + " ADD " + ds[j].clause
  {
    var ds := Deferred(ss, |ss|);
    if ss != [] {
      KeptTextAt(ss, |ss|, 0);
    }
    if ds != [] {
      AlterTextAt(ds, 0);
    }
    forall i | 0 <= i < |ss|
      ensures ss[i].Other? || ss[i].Unreadable? || ss[i].Opaque? ==> KeptTexts(ss, |ss|)[i] == ss[i].text
      ensures ss[i].Create? && !HasForward(ss, i) ==> KeptTexts(ss, |ss|)[i] == Render(ss[i].tokens)
    {
      KeptTextAt(ss, |ss|, i);
      if ss[i].Create? && !HasForward(ss, i) {
        NoneForward(ss, i);
      }
    }
    hide KeptTexts; hide Deferred; hide HasForward; hide StatementText; hide Render;
    forall j | 0 <= j < |ds| ensures AlterTexts(ds)[j] == "ALTER TABLE " + ds[j].nameText + " ADD " + ds[j].clause {
      AlterTextAt(ds, j);
    }
  }

  lemma NoneForward(ss: seq<Statement>, i: nat)
    requires i < |ss| && ss[i].Create? && !HasForward(ss, i)
    ensures Forward(ss[i].tokens, Created(ss, i + 1), |ss[i].tokens|) == []
  {
    var f := Forward(ss[i].tokens, Created(ss, i + 1), |ss[i].tokens|);
    if f != [] {
      assert f[0] in f;
      ForwardExactly(ss, i, ss[i].tokens[f[0]]);
      assert false;
    }
  }

  // ---- What is accepted ----

  lemma {:induction false} DeclsCount(tokens: seq<Token>, n: nat)
    requires WellFormed(tokens) && n <= |tokens|
    ensures |Decls(tokens[..n])| == (|Skeleton(tokens, n)| + 1) / 2
  {
    hide WellFormed;
    if n == 0 {
      assert tokens[..0] == [];
    } else {
      DeclsCount(tokens, n - 1);
      DeclIsEven(tokens, n - 1);
      DeclsAppend(tokens[..n - 1], tokens[n - 1]);
      assert tokens[..n] == tokens[..n - 1] + [tokens[n - 1]];
    }
  }

  /** Statement i has a foreign key that points forward. */
  ghost predicate HasForward(ss: seq<Statement>, i: nat)
    requires i < |ss|
  {
    ss[i].Create? && exists k :: 0 <= k < |ss[i].tokens| && PointsForward(ss, i, ss[i].tokens[k])
  }

  lemma CuttableExactly(ss: seq<Statement>, i: nat)
    requires Parsed(ss) && i < |ss|
    ensures Cuttable(ss, i) <==> (HasForward(ss, i) ==> |Decls(ss[i].tokens)| >= 2)
  {
    if ss[i].Create? {
      var s, created := ss[i], Created(ss, i + 1);
      var f := Forward(s.tokens, created, |s.tokens|);
      forall k: nat | k < |s.tokens| ensures k in f <==> PointsForward(ss, i, s.tokens[k]) {
        ForwardExactly(ss, i, s.tokens[k]);
      }
      DeclsCount(s.tokens, |s.tokens|);
      assert s.tokens[..|s.tokens|] == s.tokens;
      if f != [] {
        assert f[0] in f;
      }
      hide PointsForward; hide WellFormed; hide Skeleton; hide Decls;
    }
  }

  /** Every foreign key of every statement refers to a table that some statement declares. */
  ghost predicate TargetsDeclared(ss: seq<Statement>) {
    forall i, k :: 0 <= i < |ss| && ss[i].Create? && 0 <= k < |ss[i].tokens| && IsFk(ss[i].tokens[k]) ==>
      Key(ss[i].tokens[k].target.value) in Created(ss, |ss|)
  }

  predicate IsFk(t: Token) {
    t.Decl? && t.target.Some?
  }

  lemma TargetsExactly(ss: seq<Statement>)
    ensures TargetsCreated(Deferred(ss, |ss|), Created(ss, |ss|)) <==> TargetsDeclared(ss)
  {
    if TargetsDeclared(ss) {
      forall d | d in Deferred(ss, |ss|) ensures Key(d.target) in Created(ss, |ss|) {
        DeferredExactly(ss, |ss|, d);
        var i, k :| 0 <= i < |ss| && MovesAt(ss, i, k, d);
      }
    }
    if TargetsCreated(Deferred(ss, |ss|), Created(ss, |ss|)) {
      forall i, k | 0 <= i < |ss| && ss[i].Create? && 0 <= k < |ss[i].tokens| && IsFk(ss[i].tokens[k])
        ensures Key(ss[i].tokens[k].target.value) in Created(ss, |ss|)
      {
        TargetOf(ss, i, k);
      }
    }
  }

  lemma TargetOf(ss: seq<Statement>, i: nat, k: nat)
    requires TargetsCreated(Deferred(ss, |ss|), Created(ss, |ss|))
    requires i < |ss| && ss[i].Create? && k < |ss[i].tokens| && IsFk(ss[i].tokens[k])
    ensures Key(ss[i].tokens[k].target.value) in Created(ss, |ss|)
  {
    var t := ss[i].tokens[k];
    CreatedGrows(ss, i + 1, |ss|);
    ForwardExactly(ss, i, t);
    if IsForward(t, Created(ss, i + 1)) {
      var d := DeferredFk(ss[i].id, t.target.value, ss[i].nameText, t.text);
      DeferredExactly(ss, |ss|, d);
      assert MovesAt(ss, i, k, d);
      assert d in Deferred(ss, |ss|);
    }
  }

  /** A dump is accepted exactly if every CREATE TABLE can be read, no table has a name that was declared
      before it, every foreign key refers to a name declared somewhere in the dump, and a table with a
      forward foreign key declares something else besides. */
  lemma AcceptedExactly(ss: seq<Statement>)
    requires Parsed(ss)
    ensures Accepted(ss) <==>
            && (forall i :: 0 <= i < |ss| ==> !ss[i].Unreadable? && FreshName(ss, i))
            && TargetsDeclared(ss)
            && (forall i :: 0 <= i < |ss| && HasForward(ss, i) ==> |Decls(ss[i].tokens)| >= 2)
  {
    TargetsExactly(ss);
    forall i | 0 <= i < |ss| ensures Cuttable(ss, i) <==> (HasForward(ss, i) ==> |Decls(ss[i].tokens)| >= 2) {
      CuttableExactly(ss, i);
    }
    hide TargetsDeclared; hide TargetsCreated; hide Cuttable; hide HasForward; hide Decls; hide Deferred;
    hide FreshName; hide Created;
    if Accepted(ss) {
      forall i | 0 <= i < |ss|
        ensures !ss[i].Unreadable? && FreshName(ss, i) && (HasForward(ss, i) ==> |Decls(ss[i].tokens)| >= 2)
      {
        assert StatementOk(ss, i);
      }
    }
  }
}
