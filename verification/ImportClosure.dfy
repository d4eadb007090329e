/** The files a pull of proto types brings along (internal/mycli/pull_remote_proto.go:213-259,
    317-323, 357-362): a depth-first walk over imports that prefers remote files. */
module ImportClosure {
  import opened TableIds
  import opened Digraph

  datatype File = File(name: string, imports: seq<string>)

  datatype Problem = Missing | Ambiguous

  datatype Choice = Chosen(file: File) | Refused(problem: Problem)

  // ---- Files by name ----

  function Named(files: seq<File>, name: string): seq<File> {
    if files == [] then []
    else Named(files[..|files| - 1], name) + if files[|files| - 1].name == name then [files[|files| - 1]] else []
  }

  lemma {:induction false} NamedAre(files: seq<File>, name: string, i: nat)
    requires i < |Named(files, name)|
    ensures Named(files, name)[i] in files && Named(files, name)[i].name == name
  {
    var front := files[..|files| - 1];
    if i < |Named(front, name)| {
      NamedAre(front, name, i);
    }
  }

  /** The store of a name is the remote one if it has the name at all; there it must be unique. */
  function Choose(remote: seq<File>, local: seq<File>, name: string): (c: Choice)
    ensures c.Chosen? ==> c.file.name == name && (c.file in remote || c.file in local)
  {
    var rs, ls := Named(remote, name), Named(local, name);
    if |rs| > 1 || (|rs| == 0 && |ls| > 1) then Refused(Ambiguous)
    else if |rs| == 1 then NamedAre(remote, name, 0); Chosen(rs[0])
    else if |ls| == 1 then NamedAre(local, name, 0); Chosen(ls[0])
    else Refused(Missing)
  }

  /** `files` holds the name once, or more than once, or not at all. */
  predicate Unique(files: seq<File>, name: string) {
    forall i, j :: 0 <= i < j < |files| ==> !(files[i].name == name && files[j].name == name)
  }

  predicate Has(files: seq<File>, name: string) {
    exists i :: 0 <= i < |files| && files[i].name == name
  }

  lemma {:induction false} NamedCounts(files: seq<File>, name: string)
    ensures Named(files, name) != [] <==> Has(files, name)
    ensures |Named(files, name)| <= 1 <==> Unique(files, name)
  {
    if files != [] {
      var n := |files| - 1;
      var front := files[..n];
      NamedCounts(front, name);
      assert forall i :: 0 <= i < n ==> front[i] == files[i];
      assert Has(files, name) <==> Has(front, name) || files[n].name == name;
      if files[n].name == name && Has(front, name) {
        var i :| 0 <= i < |front| && front[i].name == name;
        assert !Unique(files, name);
      }
    }
  }

  /** Remote before local, and unique in its store. */
  lemma ChoiceRule(remote: seq<File>, local: seq<File>, name: string)
    ensures var c, store := Choose(remote, local, name), if Has(remote, name) then remote else local;
      && (c.Chosen? <==> Has(store, name) && Unique(store, name))
      && (c.Chosen? ==> c.file in store && c.file.name == name)
      && (c == Refused(Missing) <==> !Has(remote, name) && !Has(local, name))
      && (c == Refused(Ambiguous) <==> !Unique(store, name))
  {
    NamedCounts(remote, name);
    NamedCounts(local, name);
    hide Has; hide Unique;
    if |Named(remote, name)| == 1 {
      NamedAre(remote, name, 0);
    } else if |Named(local, name)| == 1 {
      NamedAre(local, name, 0);
    }
  }

  /** The store indexed by file name. */
  ghost predicate IsIndex(files: seq<File>, index: map<string, seq<File>>) {
    forall name ::
      (name in index <==> Named(files, name) != []) && (name in index ==> index[name] == Named(files, name))
  }

  method IndexDescriptorFiles(files: seq<File>) returns (index: map<string, seq<File>>)
    ensures IsIndex(files, index)
  {
    index := map[];
    var i := 0;
    while i < |files|
      invariant 0 <= i <= |files| && IsIndex(files[..i], index)
    {
      var f := files[i];
      assert files[..i + 1][..i] == files[..i];
      index := index[f.name := (if f.name in index then index[f.name] else []) + [f]];
      i := i + 1;
    }
    assert files[..|files|] == files;
  }

  // ---- The import graph of the chosen files ----

  ghost function ImportsOf(remote: seq<File>, local: seq<File>, name: string): seq<string> {
    match Choose(remote, local, name)
    case Chosen(file) => file.imports
    case Refused(_) => []
  }

  /** Every name that can come up. */
  ghost function Universe(remote: seq<File>, local: seq<File>, roots: seq<string>): set<string> {
    (set r | r in roots) + (set f, d | f in remote && d in f.imports :: d)
    + (set f, d | f in local && d in f.imports :: d)
  }

  ghost function Imports(remote: seq<File>, local: seq<File>, roots: seq<string>): set<(string, string)> {
    set n, d | n in Universe(remote, local, roots) && d in ImportsOf(remote, local, n) :: (n, d)
  }

  ghost predicate Needed(remote: seq<File>, local: seq<File>, roots: seq<string>, name: string) {
    exists r :: r in roots && Reach(Imports(remote, local, roots), r, name)
  }

  lemma ImportsStayInside(remote: seq<File>, local: seq<File>, roots: seq<string>, name: string, d: string)
    requires d in ImportsOf(remote, local, name)
    ensures d in Universe(remote, local, roots)
  {
  }

  function Names(files: seq<File>): seq<string> {
    seq(|files|, i requires 0 <= i < |files| => files[i].name)
  }

  /** Walked so far: `out` holds the chosen file of every seen name, once. */
  ghost predicate Collected(remote: seq<File>, local: seq<File>, seen: set<string>, out: seq<File>) {
    && NoDup(Names(out)) && Elements(Names(out)) == seen
    && forall i :: 0 <= i < |out| ==> Choose(remote, local, out[i].name) == Chosen(out[i])
  }

  /** Every name of `done` has its imports in `seen`. */
  ghost predicate Explored(remote: seq<File>, local: seq<File>, done: set<string>, seen: set<string>) {
    forall n, d :: n in done && d in ImportsOf(remote, local, n) ==> d in seen
  }

  ghost predicate AllReached(E: set<(string, string)>, a: string, ns: set<string>) {
    forall n :: n in ns ==> Reach(E, a, n)
  }

  lemma ReachedStep(E: set<(string, string)>, a: string, d: string, before: set<string>, was: set<string>,
                    now: set<string>)
    requires AllReached(E, a, was - before) && Reach(E, a, d) && AllReached(E, d, now - was)
    ensures AllReached(E, a, now - before)
  {
    forall n | n in now - before ensures Reach(E, a, n) {
      assert n in was - before || n in now - was;
      if n !in was {
        assert n in now - was;
        ReachTrans(E, {}, a, d, n);
      }
    }
  }

  lemma ExploredStep(remote: seq<File>, local: seq<File>, out: set<string>, was: set<string>, now: set<string>)
    requires Explored(remote, local, was - out, was) && Explored(remote, local, now - was, now) && was <= now
    ensures Explored(remote, local, now - out, now)
  {
    hide ImportsOf;
    forall n, d | n in now - out && d in ImportsOf(remote, local, n) ensures d in now {
      assert n in was - out || n in now - was;
    }
  }

  lemma ExploredLast(remote: seq<File>, local: seq<File>, before: set<string>, name: string, seen: set<string>)
    requires Explored(remote, local, seen - (before + {name}), seen)
    requires forall d :: d in ImportsOf(remote, local, name) ==> d in seen
    ensures Explored(remote, local, seen - before, seen)
  {
    hide ImportsOf;
    forall n, d | n in seen - before && d in ImportsOf(remote, local, n) ensures d in seen {
      assert n == name || n in seen - (before + {name});
    }
  }

  class ClosureWalk {
    const remote: seq<File>
    const local: seq<File>
    const roots: seq<string>
    const remoteFiles: map<string, seq<File>>
    const localFiles: map<string, seq<File>>
    var seen: set<string>
    var out: seq<File>

    ghost predicate Indexed() {
      IsIndex(remote, remoteFiles) && IsIndex(local, localFiles)
    }

    ghost function Edges(): set<(string, string)> {
      Imports(remote, local, roots)
    }

    ghost function Left(): set<string>
      reads this
    {
      Universe(remote, local, roots) - seen
    }

    constructor (remote: seq<File>, local: seq<File>, roots: seq<string>,
                 remoteFiles: map<string, seq<File>>, localFiles: map<string, seq<File>>)
      requires IsIndex(remote, remoteFiles) && IsIndex(local, localFiles)
      ensures Indexed() && this.remote == remote && this.local == local && this.roots == roots
      ensures seen == {} && out == []
    {
      this.remote, this.local, this.roots := remote, local, roots;
      this.remoteFiles, this.localFiles := remoteFiles, localFiles;
      seen, out := {}, [];
    }

    method ChoosePullFile(name: string) returns (c: Choice)
      requires Indexed()
      ensures c == Choose(remote, local, name)
    {
      if name in remoteFiles && |remoteFiles[name]| > 0 {
        if |remoteFiles[name]| > 1 {
          return Refused(Ambiguous);
        }
        return Chosen(remoteFiles[name][0]);
      }
      if name in localFiles && |localFiles[name]| > 0 {
        if |localFiles[name]| > 1 {
          return Refused(Ambiguous);
        }
        return Chosen(localFiles[name][0]);
      }
      return Refused(Missing);
    }

    /** On success everything newly seen is reachable from `name`, chosen, and has all its
        imports seen; a failure names a reachable file that cannot be chosen. */
    method Walk(name: string) returns (failed: Option<string>)
      requires Indexed() && name in Universe(remote, local, roots) && seen <= Universe(remote, local, roots)
      requires Collected(remote, local, seen, out)
      modifies this
      ensures old(seen) <= seen <= Universe(remote, local, roots)
      ensures failed.None? ==>
        && name in seen && Collected(remote, local, seen, out)
        && AllReached(Edges(), name, seen - old(seen)) && Explored(remote, local, seen - old(seen), seen)
      ensures failed.Some? ==> Reach(Edges(), name, failed.value) && Choose(remote, local, failed.value).Refused?
      decreases Left(), 1
    {
      ReachRefl(Edges(), {}, name);
      if name in seen {
        return None;
      }
      ghost var before := seen;
      var choice := ChoosePullFile(name);
      if choice.Refused? {
        seen := seen + {name};
        return Some(name);
      }
      seen := seen + {name};
      out := out + [choice.file];
      AddedFile(remote, local, before, out[..|out| - 1], choice.file);
      failed := WalkImports(name, choice.file.imports, before);
    }

    method WalkImports(name: string, imports: seq<string>, ghost before: set<string>) returns (failed: Option<string>)
      requires Indexed() && name in seen && seen == before + {name} && name !in before
        && seen <= Universe(remote, local, roots)
      requires Collected(remote, local, seen, out) && imports == ImportsOf(remote, local, name)
      modifies this
      ensures old(seen) <= seen <= Universe(remote, local, roots)
      ensures failed.None? ==>
        && Collected(remote, local, seen, out)
        && AllReached(Edges(), name, seen - before) && Explored(remote, local, seen - before, seen)
      ensures failed.Some? ==> Reach(Edges(), name, failed.value) && Choose(remote, local, failed.value).Refused?
      decreases Left(), 2
    {
      hide Universe;
      hide Imports;
      hide ImportsOf;
      hide Choose;
      hide Collected;
      hide ReachAvoid;
      hide IsIndex;
      ReachRefl(Edges(), {}, name);
      assert seen - (before + {name}) == {};
      var i := 0;
      while i < |imports|
        invariant 0 <= i <= |imports| && old(seen) <= seen <= Universe(remote, local, roots)
        invariant Collected(remote, local, seen, out) && AllReached(Edges(), name, seen - before)
        invariant Explored(remote, local, seen - (before + {name}), seen)
        invariant forall j :: 0 <= j < i ==> imports[j] in seen
      {
        var d := imports[i];
        ImportIsEdge(remote, local, roots, name, d);
        ghost var was := seen;
        failed := Walk(d);
        if failed.Some? {
          ReachTrans(Edges(), {}, name, d, failed.value);
          return;
        }
        ReachedStep(Edges(), name, d, before, was, seen);
        ExploredStep(remote, local, before + {name}, was, seen);
        i := i + 1;
      }
      ExploredLast(remote, local, before, name, seen);
      return None;
    }
  }

  lemma ImportIsEdge(remote: seq<File>, local: seq<File>, roots: seq<string>, name: string, d: string)
    requires name in Universe(remote, local, roots) && d in ImportsOf(remote, local, name)
    ensures d in Universe(remote, local, roots) && Reach(Imports(remote, local, roots), name, d)
  {
    ImportsStayInside(remote, local, roots, name, d);
    assert (name, d) in Imports(remote, local, roots);
    ReachEdge(Imports(remote, local, roots), {}, name, d);
  }

  lemma AddedFile(remote: seq<File>, local: seq<File>, seen: set<string>, out: seq<File>, f: File)
    requires Collected(remote, local, seen, out) && f.name !in seen && Choose(remote, local, f.name) == Chosen(f)
    ensures Collected(remote, local, seen + {f.name}, out + [f])
  {
    assert Names(out + [f]) == Names(out) + [f.name];
  }

  /** A set of names that holds the roots and is closed under imports holds every needed name. */
  lemma ClosedHoldsNeeded(remote: seq<File>, local: seq<File>, roots: seq<string>, seen: set<string>, name: string)
    requires forall r :: r in roots ==> r in seen
    requires Explored(remote, local, seen, seen) && Needed(remote, local, roots, name)
    ensures name in seen
  {
    var E := Imports(remote, local, roots);
    var r :| r in roots && Reach(E, r, name);
    var p :| Digraph.Walk(E, {}, p, r, name);
    ReachClosed(E, seen, p, r, name);
  }

  lemma NothingYet(remote: seq<File>, local: seq<File>)
    ensures Collected(remote, local, {}, []) && Explored(remote, local, {}, {})
  {
  }

  lemma RootInUniverse(remote: seq<File>, local: seq<File>, roots: seq<string>, i: nat)
    requires i < |roots|
    ensures roots[i] in Universe(remote, local, roots) && roots[i] in roots
  {
  }

  lemma CollectedChosen(remote: seq<File>, local: seq<File>, seen: set<string>, out: seq<File>)
    requires Collected(remote, local, seen, out)
    ensures NoDup(Names(out)) && forall n :: n in Names(out) <==> n in seen
    ensures forall n :: n in seen ==> Choose(remote, local, n).Chosen?
    ensures forall i :: 0 <= i < |out| ==> Choose(remote, local, out[i].name) == Chosen(out[i])
  {
    hide Choose;
    forall n ensures n in Names(out) <==> n in seen {
      assert n in Elements(Names(out)) <==> n in Names(out);
    }
    forall n | n in seen ensures Choose(remote, local, n).Chosen? {
      assert n in Names(out);
    }
  }

  /** Success returns exactly the needed files, each once, each from the store its name
      belongs to; it fails exactly when some needed name has no unique file there, and names
      one. */
  method CollectPullImportClosure(roots: seq<string>, remote: seq<File>, local: seq<File>)
    returns (out: seq<File>, failed: Option<string>)
    ensures failed.None? <==> forall n :: Needed(remote, local, roots, n) ==> Choose(remote, local, n).Chosen?
    ensures failed.Some? ==> Needed(remote, local, roots, failed.value) && Choose(remote, local, failed.value).Refused?
    ensures failed.None? ==>
      && NoDup(Names(out)) && (forall n :: n in Names(out) <==> Needed(remote, local, roots, n))
      && forall i :: 0 <= i < |out| ==> Choose(remote, local, out[i].name) == Chosen(out[i])
  {
    hide Universe;
    hide Imports;
    hide ImportsOf;
    hide Choose;
    hide ReachAvoid;
    hide IsIndex;
    hide Collected;
    hide Explored;
    var remoteFiles := IndexDescriptorFiles(remote);
    var localFiles := IndexDescriptorFiles(local);
    var walk := new ClosureWalk(remote, local, roots, remoteFiles, localFiles);
    NothingYet(remote, local);
    var i := 0;
    while i < |roots|
      invariant 0 <= i <= |roots| && fresh(walk) && walk.Indexed()
      invariant walk.remote == remote && walk.local == local && walk.roots == roots
      invariant walk.seen <= Universe(remote, local, roots) && Collected(remote, local, walk.seen, walk.out)
      invariant forall n :: n in walk.seen ==> Needed(remote, local, roots, n)
      invariant Explored(remote, local, walk.seen, walk.seen)
      invariant forall j :: 0 <= j < i ==> roots[j] in walk.seen
    {
      RootInUniverse(remote, local, roots, i);
      ghost var was := walk.seen;
      failed := walk.Walk(roots[i]);
      if failed.Some? {
        return [], failed;
      }
      assert was - {} == was && walk.seen - {} == walk.seen;
      ExploredStep(remote, local, {}, was, walk.seen);
      forall n | n in walk.seen ensures Needed(remote, local, roots, n) {
        if n !in was {
          assert n in walk.seen - was;
        }
      }
      i := i + 1;
    }
    forall n ensures n in walk.seen <==> Needed(remote, local, roots, n) {
      if Needed(remote, local, roots, n) {
        ClosedHoldsNeeded(remote, local, roots, walk.seen, n);
      }
    }
    CollectedChosen(remote, local, walk.seen, walk.out);
    return walk.out, None;
  }

  /** A set of names with the roots and, with each collected file it names, that file's imports. */
  ghost predicate ClosedUnder(roots: seq<string>, out: seq<File>, ns: set<string>) {
    && (forall r :: r in roots ==> r in ns)
    && forall i, d :: 0 <= i < |out| && out[i].name in ns && d in out[i].imports ==> d in ns
  }

  /** What is collected has the roots and every import of a collected file, and is the least such: no
      file is there that the roots do not lead to. */
  lemma ClosureIsLeast(roots: seq<string>, remote: seq<File>, local: seq<File>, out: seq<File>)
    requires forall n :: n in Names(out) <==> Needed(remote, local, roots, n)
    requires forall i :: 0 <= i < |out| ==> Choose(remote, local, out[i].name) == Chosen(out[i])
    ensures ClosedUnder(roots, out, set n | n in Names(out))
    ensures forall ns :: ClosedUnder(roots, out, ns) ==> forall i :: 0 <= i < |out| ==> out[i].name in ns
  {
    var E, all := Imports(remote, local, roots), set n | n in Names(out);
    forall r | r in roots ensures r in all {
      ReachRefl(E, {}, r);
    }
    forall i, d | 0 <= i < |out| && d in out[i].imports ensures d in all {
      assert Names(out)[i] == out[i].name;
      NeededImport(roots, remote, local, out[i], d);
    }
    forall ns, i | ClosedUnder(roots, out, ns) && 0 <= i < |out| ensures out[i].name in ns {
      assert Names(out)[i] == out[i].name;
      assert Needed(remote, local, roots, out[i].name);
      var r :| r in roots && Reach(E, r, out[i].name);
      var p :| Digraph.Walk(E, {}, p, r, out[i].name);
      OutWalk(roots, remote, local, out, ns, p, r, out[i].name);
    }
  }

  lemma NeededImport(roots: seq<string>, remote: seq<File>, local: seq<File>, f: File, d: string)
    requires Needed(remote, local, roots, f.name) && Choose(remote, local, f.name) == Chosen(f) && d in f.imports
    ensures Needed(remote, local, roots, d)
  {
    var E := Imports(remote, local, roots);
    var r :| r in roots && Reach(E, r, f.name);
    var p :| Digraph.Walk(E, {}, p, r, f.name);
    hide Choose;
    if |p| > 1 {
      assert (p[|p| - 2], p[|p| - 1]) in E;
      ImportsStayInside(remote, local, roots, p[|p| - 2], f.name);
    }
    assert f.name in Universe(remote, local, roots);
    ImportIsEdge(remote, local, roots, f.name, d);
    ReachTrans(E, {}, r, f.name, d);
  }

  /** Along imports from a root one stays inside any closed set, through collected files. */
  lemma {:induction false} OutWalk(roots: seq<string>, remote: seq<File>, local: seq<File>, out: seq<File>,
                                  ns: set<string>, p: seq<string>, a: string, b: string)
    requires forall n :: n in Names(out) <==> Needed(remote, local, roots, n)
    requires forall i :: 0 <= i < |out| ==> Choose(remote, local, out[i].name) == Chosen(out[i])
    requires ClosedUnder(roots, out, ns) && a in ns && a in Names(out)
    requires Digraph.Walk(Imports(remote, local, roots), {}, p, a, b)
    ensures b in ns
  {
    hide Choose; hide Universe;
    if |p| > 1 {
      assert (p[0], p[1]) in Imports(remote, local, roots);
      var i :| 0 <= i < |out| && Names(out)[i] == a;
      assert p[1] in out[i].imports;
      NeededImport(roots, remote, local, out[i], p[1]);
      assert Digraph.Walk(Imports(remote, local, roots), {}, p[1..], p[1], b);
      OutWalk(roots, remote, local, out, ns, p[1..], p[1], b);
    }
  }
}
