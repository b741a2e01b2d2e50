/** Backup and restore of a container, end to end (cmd/backup.go): what an archive of its trees
    delivers when it is extracted and the staged trees are applied. */
module BackupRestore {
  import opened ArchiveNames
  import opened Archives
  import opened Backup
  import opened Restore
  import opened Wrappers

  /** The trees that there are, each with its destination. */
  function TargetsOf(sources: seq<Source>, trees: seq<Option<Tree>>): seq<Target>
    requires |trees| == |sources|
  {
    if sources == [] then []
    else
      var n := |sources| - 1;
      TargetsOf(sources[..n], trees[..n])
      + if trees[n].Some? then [Target(sources[n].destination, trees[n].value)] else []
  }

  /** The tree found at a place, its entries in any order; none if there is nothing. */
  ghost predicate ReadAt(fs: FileSystem, p: Path, t: Option<Tree>) {
    && (t.Some? <==> p in fs)
    && (t.Some? ==> ValidTree(t.value) && Content(p, t.value) == Subtree(fs, p))
  }

  /** `staged` are the trees that filepath.Walk finds in the stage at the places of the parts. */
  ghost predicate StagedAs(stage: FileSystem, sources: seq<Source>, staged: seq<Option<Tree>>) {
    |staged| == |sources| &&
    forall i :: 0 <= i < |sources| ==> ReadAt(stage, PlaceOf(sources[i].part), staged[i])
  }

  lemma {:induction false} TargetsSnoc(sources: seq<Source>, trees: seq<Option<Tree>>, i: nat)
    requires i < |sources| == |trees|
    ensures TargetsOf(sources[..i + 1], trees[..i + 1]) ==
            TargetsOf(sources[..i], trees[..i])
            + if trees[i].Some? then [Target(sources[i].destination, trees[i].value)] else []
  {
    assert sources[..i + 1][..i] == sources[..i] && trees[..i + 1][..i] == trees[..i];
  }

  lemma {:induction false} ErrorStays(fs: FileSystem, sources: seq<Source>, trees: seq<Option<Tree>>, i: nat, n: nat, e: Error)
    requires i <= n <= |sources| == |trees| && RestoreAll(fs, TargetsOf(sources[..i], trees[..i])) == Err(e)
    ensures RestoreAll(fs, TargetsOf(sources[..n], trees[..n])) == Err(e)
    decreases n - i
  {
    if i < n {
      NextTree(fs, sources, trees, i);
      ErrorStays(fs, sources, trees, i + 1, n, e);
    }
  }

  /** One tree more. */
  lemma {:induction false} NextTree(fs: FileSystem, sources: seq<Source>, trees: seq<Option<Tree>>, i: nat)
    requires i < |sources| == |trees|
    ensures RestoreAll(fs, TargetsOf(sources[..i + 1], trees[..i + 1])) ==
            match RestoreAll(fs, TargetsOf(sources[..i], trees[..i]))
            case Err(e) => Err(e)
            case Ok(mid) => if trees[i].Some? then ApplyTree(mid, sources[i].destination, trees[i].value) else Ok(mid)
  {
    var front := TargetsOf(sources[..i], trees[..i]);
    TargetsSnoc(sources, trees, i);
    if trees[i].Some? {
      var last := Target(sources[i].destination, trees[i].value);
      RestoreSnoc(fs, front, last, front + [last]);
    } else {
      assert front + [] == front;
    }
  }

  /** The loop over the container's trees: one that is not staged is skipped. */
  method RestoreContainerBackup(fs: FileSystem, sources: seq<Source>, staged: seq<Option<Tree>>)
      returns (result: Result<FileSystem, Error>)
    requires |staged| == |sources|
    ensures result == RestoreAll(fs, TargetsOf(sources, staged))
  {
    var current := fs;
    assert sources[..|sources|] == sources && staged[..|sources|] == staged;
    for i := 0 to |sources|
      invariant RestoreAll(fs, TargetsOf(sources[..i], staged[..i])) == Ok(current)
    {
      NextTree(fs, sources, staged, i);
      if staged[i].Some? {
        var applied := ApplyBackupTree(current, sources[i].destination, staged[i].value);
        if applied.Err? {
          ErrorStays(fs, sources, staged, i + 1, |sources|, applied.error);
          return applied;
        }
        current := applied.value;
      }
    }
    result := Ok(current);
  }

  // ---------------------------------------------------------------- there is always a tree to read

  /** Everything has a name. */
  ghost predicate Named(fs: FileSystem) { forall q <- fs.Keys :: Names(q) }

  lemma {:induction false} NothingBelowFile(fs: FileSystem, p: Path, q: Path)
    requires Closed(fs) && FileAt(fs, p) && q in fs && p <= q
    ensures q == p
    decreases |q|
  {
    if q != p {
      assert p == q[..|p|] == Parent(q)[..|p|];
      NothingBelowFile(fs, p, Parent(q));
    }
  }

  lemma {:induction false} FileReads(fs: FileSystem, p: Path)
    requires Closed(fs) && FileAt(fs, p)
    ensures Content(p, Leaf(fs[p].data, fs[p].perm)) == Subtree(fs, p)
  {
    forall q | q in fs && p <= q ensures q == p {
      NothingBelowFile(fs, p, q);
    }
    OnlyFile(fs, p);
  }

  lemma {:induction false} OnlyFile(fs: FileSystem, p: Path)
    requires FileAt(fs, p) && forall q <- fs.Keys :: p <= q ==> q == p
    ensures Content(p, Leaf(fs[p].data, fs[p].perm)) == Subtree(fs, p)
  {
  }

  /** Below one of the named entries of a directory. */
  predicate BelowOne(p: Path, names: set<string>, q: Path) { p < q && q[|p|] in names }

  /** The entries are those of the file system with these names. */
  ghost predicate ReadsEntries(fs: FileSystem, p: Path, names: set<string>, es: Entries) {
    && ValidEntries(es)
    && (forall name :: HasName(es, name) <==> name in names)
    && (forall q :: q in EntriesContent(p, es) <==> q in fs && BelowOne(p, names, q))
    && (forall q <- EntriesContent(p, es).Keys :: q in fs && EntriesContent(p, es)[q] == fs[q])
  }

  ghost predicate AllBelow(fs: FileSystem, p: Path, names: set<string>) {
    forall q <- fs.Keys :: p < q ==> q[|p|] in names
  }

  lemma {:induction false} DirectoryReads(fs: FileSystem, p: Path, names: set<string>, es: Entries)
    requires DirectoryAt(fs, p) && ReadsEntries(fs, p, names, es) && AllBelow(fs, p, names)
    ensures Content(p, Branch(fs[p].perm, es)) == Subtree(fs, p)
  {
    var t := Branch(fs[p].perm, es);
    forall q
      ensures q in Content(p, t) <==> q in Subtree(fs, p)
      ensures q in Subtree(fs, p) && q in Content(p, t) ==> Content(p, t)[q] == fs[q]
    {
      if q in EntriesContent(p, es) {
        EntriesBelow(p, es, q);
      }
      if q in fs && p <= q && q != p {
        assert p < q && q[|p|] in names;
        assert BelowOne(p, names, q);
      }
    }
  }

  lemma {:induction false} SmallerBelow(fs: FileSystem, p: Path, name: string)
    requires p in fs
    ensures Subtree(fs, p + [name]).Keys < Subtree(fs, p).Keys
  {
    forall q | q in Subtree(fs, p + [name]) ensures q in Subtree(fs, p) {
      ChildIsPrefix(p, name, q);
    }
    assert p in Subtree(fs, p) && p !in Subtree(fs, p + [name]);
  }

  /** The names in a directory. */
  lemma {:induction false} NamesBelow(fs: FileSystem, p: Path) returns (names: set<string>)
    requires Closed(fs)
    ensures AllBelow(fs, p, names) && forall name <- names :: p + [name] in fs
  {
    names := set q | q in fs && p < q :: q[|p|];
    forall name | name in names ensures p + [name] in fs {
      var q :| q in fs && p < q && q[|p|] == name;
      PrefixExists(fs, q, p + [name]);
    }
  }

  /** What stands at and below a place of a file system is a tree. */
  lemma {:induction false} ReadBack(fs: FileSystem, p: Path) returns (t: Tree)
    requires Closed(fs) && Named(fs) && p in fs
    ensures ValidTree(t) && Content(p, t) == Subtree(fs, p)
    decreases Subtree(fs, p).Keys, 1
  {
    match fs[p]
    case File(data, perm) =>
      t := Leaf(data, perm);
      FileReads(fs, p);
    case Directory(perm) =>
      var names := NamesBelow(fs, p);
      var es := ReadEntries(fs, p, names);
      t := Branch(perm, es);
      DirectoryReads(fs, p, names, es);
  }

  lemma {:induction false} OneMoreEntry(fs: FileSystem, p: Path, name: string, t: Tree, names: set<string>, rest: Entries,
      all: set<string>)
    requires ReadsEntries(fs, p, names, rest) && name !in names && Ordinary(name) && all == names + {name}
    requires ValidTree(t) && Content(p + [name], t) == Subtree(fs, p + [name])
    ensures ReadsEntries(fs, p, all, Cons(name, t, rest))
  {
    var es := Cons(name, t, rest);
    forall q
      ensures q in EntriesContent(p, es) <==> q in fs && BelowOne(p, all, q)
      ensures q in EntriesContent(p, es) ==> q in fs && EntriesContent(p, es)[q] == fs[q]
    {
      ChildIsPrefix(p, name, q);
      if p < q && q[|p|] == name {
        assert p + [name] <= q;
      }
    }
  }

  lemma {:induction false} NoEntries(fs: FileSystem, p: Path)
    ensures ReadsEntries(fs, p, {}, Nil)
  {
  }

  lemma {:induction false} ChildName(fs: FileSystem, p: Path, name: string)
    requires Named(fs) && p + [name] in fs
    ensures Ordinary(name)
  {
    assert Names(p + [name]) && (p + [name])[|p|] == name;
  }

  lemma {:induction false} ReadEntries(fs: FileSystem, p: Path, names: set<string>) returns (es: Entries)
    requires Closed(fs) && Named(fs) && p in fs && forall name <- names :: p + [name] in fs
    ensures ReadsEntries(fs, p, names, es)
    decreases Subtree(fs, p).Keys, 0, names
  {
    if names == {} {
      es := Nil;
      NoEntries(fs, p);
    } else {
      var name :| name in names;
      var rest := ReadEntries(fs, p, names - {name});
      ChildName(fs, p, name);
      SmallerBelow(fs, p, name);
      var t := ReadBack(fs, p + [name]);
      es := Cons(name, t, rest);
      OneMoreEntry(fs, p, name, t, names - {name}, rest, names);
    }
  }

  // ---------------------------------------------------------------- a tree is its content, wherever it is put

  lemma {:induction false} ContentMoves(p: Path, d: Path, t: Tree, s: Path)
    ensures p + s in Content(p, t) <==> d + s in Content(d, t)
    ensures p + s in Content(p, t) ==> Content(p, t)[p + s] == Content(d, t)[d + s]
    decreases t, 0
  {
    if s == [] {
      assert p + s == p && d + s == d;
    } else {
      assert p + s != p && d + s != d;
      if t.Branch? {
        EntriesMove(p, d, t.entries, s);
      }
    }
  }

  lemma {:induction false} EntriesMove(p: Path, d: Path, es: Entries, s: Path)
    requires s != []
    ensures p + s in EntriesContent(p, es) <==> d + s in EntriesContent(d, es)
    ensures p + s in EntriesContent(p, es) ==> EntriesContent(p, es)[p + s] == EntriesContent(d, es)[d + s]
    decreases es
  {
    if es.Cons? {
      EntriesMove(p, d, es.rest, s);
      ChildMoves(p, d, es.name, es.tree, s);
    }
  }

  lemma {:induction false} ChildMoves(p: Path, d: Path, name: string, t: Tree, s: Path)
    requires s != []
    ensures p + s in Content(p + [name], t) <==> d + s in Content(d + [name], t)
    ensures p + s in Content(p + [name], t) ==> Content(p + [name], t)[p + s] == Content(d + [name], t)[d + s]
    decreases t, 1
  {
    if s[0] == name {
      assert p + s == (p + [name]) + s[1..] && d + s == (d + [name]) + s[1..];
      ContentMoves(p + [name], d + [name], t, s[1..]);
    } else {
      NotBelowChild(p, name, t, s);
      NotBelowChild(d, name, t, s);
    }
  }

  lemma {:induction false} NotBelowChild(p: Path, name: string, t: Tree, s: Path)
    requires s != [] && s[0] != name
    ensures p + s !in Content(p + [name], t)
  {
    if p + s in Content(p + [name], t) {
      ContentBelow(p + [name], t, p + s);
      ChildIsPrefix(p, name, p + s);
    }
  }

  /** Trees of the same content in one place have the same content in any other. */
  lemma {:induction false} SameElsewhere(p: Path, d: Path, t: Tree, u: Tree)
    requires Content(p, t) == Content(p, u)
    ensures Content(d, t) == Content(d, u) && NodeOf(t) == NodeOf(u)
  {
    assert Content(p, t)[p] == NodeOf(t) && Content(p, u)[p] == NodeOf(u);
    forall q
      ensures q in Content(d, t) <==> q in Content(d, u)
      ensures q in Content(d, t) && q in Content(d, u) ==> Content(d, t)[q] == Content(d, u)[q]
    {
      if d <= q {
        var s := q[|d|..];
        assert d + s == q;
        ContentMoves(p, d, t, s);
        ContentMoves(p, d, u, s);
      } else {
        OutsideContent(d, t, q);
        OutsideContent(d, u, q);
      }
    }
  }

  lemma {:induction false} OutsideContent(d: Path, t: Tree, q: Path)
    ensures q in Content(d, t) ==> d <= q
  {
    if q in Content(d, t) {
      ContentBelow(d, t, q);
    }
  }

  /** So applying one or the other comes to the same. */
  ghost predicate SameOutcome(a: Result<FileSystem, Error>, b: Result<FileSystem, Error>) {
    (a.Ok? <==> b.Ok?) && (a.Ok? ==> a.value == b.value && Closed(a.value))
  }

  lemma {:induction false} SameApplication(fs: FileSystem, destination: Path, p: Path, t: Tree, u: Tree)
    requires Closed(fs) && destination != [] && ValidTree(t) && ValidTree(u) && Content(p, t) == Content(p, u)
    ensures SameOutcome(ApplyTree(fs, destination, t), ApplyTree(fs, destination, u))
  {
    SameElsewhere(p, destination, t, u);
    ApplyOverrides(fs, destination, t);
    ApplyOverrides(fs, destination, u);
  }

  /** The same trees up to the order of their entries. */
  ghost predicate SameTrees(sources: seq<Source>, trees: seq<Option<Tree>>, others: seq<Option<Tree>>) {
    |trees| == |others| == |sources| &&
    forall i :: 0 <= i < |sources| ==> SameTree(PlaceOf(sources[i].part), trees[i], others[i])
  }

  ghost predicate SameTree(p: Path, t: Option<Tree>, u: Option<Tree>) {
    && (t.Some? <==> u.Some?)
    && (t.Some? && u.Some? ==> ValidTree(t.value) && ValidTree(u.value) && Content(p, t.value) == Content(p, u.value))
  }

  lemma {:induction false} SameRestore(fs: FileSystem, sources: seq<Source>, trees: seq<Option<Tree>>,
      others: seq<Option<Tree>>, n: nat)
    requires Closed(fs) && n <= |sources| && SameTrees(sources, trees, others)
    requires forall i :: 0 <= i < |sources| ==> sources[i].destination != []
    ensures SameOutcome(RestoreAll(fs, TargetsOf(sources[..n], trees[..n])), RestoreAll(fs, TargetsOf(sources[..n], others[..n])))
    decreases n
  {
    if n > 0 {
      var i := n - 1;
      SameRestore(fs, sources, trees, others, i);
      NextTree(fs, sources, trees, i);
      NextTree(fs, sources, others, i);
      assert SameTree(PlaceOf(sources[i].part), trees[i], others[i]);
      var before := RestoreAll(fs, TargetsOf(sources[..i], trees[..i]));
      if before.Ok? && trees[i].Some? {
        SameApplication(before.value, sources[i].destination, PlaceOf(sources[i].part), trees[i].value, others[i].value);
      }
    }
  }

  // ---------------------------------------------------------------- what the archive stages

  /** The place is in the tree of some source in the archive, or on the way to it. */
  ghost predicate InArchive(sources: seq<Source>, p: Path) {
    exists j :: 0 <= j < |sources| && TouchedBy(sources[j], p)
  }

  ghost predicate TouchedBy(s: Source, p: Path) {
    s.tree.Some? && (p <= PlaceOf(s.part) || p in Content(PlaceOf(s.part), s.tree.value))
  }

  /** A part of which nothing was archived, but something else is found in its place. */
  ghost predicate Strays(sources: seq<Source>, i: nat)
    requires i < |sources|
  {
    sources[i].tree.None? && (PlaceOf(sources[i].part) == [] || InArchive(sources, PlaceOf(sources[i].part)))
  }

  function Originals(sources: seq<Source>): seq<Option<Tree>> {
    seq(|sources|, i requires 0 <= i < |sources| => sources[i].tree)
  }

  lemma {:induction false} StagedIsInArchive(sources: seq<Source>, stage: FileSystem, p: Path)
    requires OnlyRoots(stage, Present(sources)) && Rebuilt(stage, Present(sources))
    requires p in stage && p != []
    ensures InArchive(sources, p)
  {
    var roots := Present(sources);
    assert Explained(stage, roots, p);
    if k :| 0 <= k < |roots| && roots[k].prefix <= p {
      var j := PresentAreSources(sources, k);
      assert p in Subtree(stage, roots[k].prefix);
      assert TouchedBy(sources[j], p);
    } else {
      var k :| 0 <= k < |roots| && p <= roots[k].prefix;
      var j := PresentAreSources(sources, k);
      assert TouchedBy(sources[j], p);
    }
  }

  lemma {:induction false} ArchivedIsStaged(sources: seq<Source>, stage: FileSystem, j: nat, p: Path)
    requires OnlyRoots(stage, Present(sources)) && Rebuilt(stage, Present(sources))
    requires j < |sources| && TouchedBy(sources[j], p)
    ensures p in stage
  {
    var roots := Present(sources);
    var k := SourcesArePresent(sources, j);
    var q := roots[k].prefix;
    assert q in Content(q, roots[k].tree) && q in Subtree(stage, q);
    if p <= q {
      PrefixExists(stage, q, p);
    } else {
      assert p in Subtree(stage, q);
    }
  }

  lemma {:induction false} PlaceIsNamed(x: Item, q: Path)
    requires Safe(x) && q <= At(x)
    ensures Names(q)
  {
    CleanIsCleaned(false, x.path);
    CleanedIsNames(At(x));
    assert forall i :: 0 <= i < |q| ==> q[i] == At(x)[i];
  }

  lemma {:induction false} HeldIsNamed(stage: FileSystem, items: seq<Item>)
    requires AllSafe(items) && Holds(stage, items)
    ensures Named(stage)
  {
    forall q | q in stage ensures Names(q) {
      assert Covered(items, q);
      if k :| 0 <= k < |items| && q <= At(items[k]) {
        PlaceIsNamed(items[k], q);
      }
    }
  }

  lemma {:induction false} StageIsNamed(metadata: string, sources: seq<Source>, stage: FileSystem)
    requires Scan(STAGE, false, ArchiveOf(metadata, sources)) == Ok(stage)
    ensures Closed(stage) && Named(stage)
  {
    AcceptedIff(ArchiveOf(metadata, sources));
    HeldIsNamed(stage, DataOf(ArchiveOf(metadata, sources)));
  }

  /** The archive is accepted; the stage holds each archived tree in its place, and in the place of
      a part that was not archived exactly what strays there.  Whatever it holds can be read. */
  lemma {:induction false} ArchiveStages(metadata: string, sources: seq<Source>)
      returns (stage: FileSystem, staged: seq<Option<Tree>>)
    requires Archivable(sources)
    ensures Scan(STAGE, false, ArchiveOf(metadata, sources)) == Ok(stage) && StagedAs(stage, sources, staged)
    ensures forall i :: 0 <= i < |sources| && sources[i].tree.Some? ==>
              ReadAt(stage, PlaceOf(sources[i].part), sources[i].tree)
    ensures forall i :: 0 <= i < |sources| && sources[i].tree.None? ==>
              (PlaceOf(sources[i].part) in stage <==> Strays(sources, i))
  {
    PresentIsValid(sources);
    stage := NonNestedRebuilds(Present(sources));
    ArchiveScans(metadata, sources);
    StageIsNamed(metadata, sources, stage);
    staged := ReadAll(stage, sources);
    forall i | 0 <= i < |sources| && sources[i].tree.Some?
      ensures ReadAt(stage, PlaceOf(sources[i].part), sources[i].tree)
    {
      var k := SourcesArePresent(sources, i);
      SubtreeIsRead(stage, PlaceOf(sources[i].part), sources[i].tree.value);
    }
    forall i | 0 <= i < |sources| && sources[i].tree.None?
      ensures PlaceOf(sources[i].part) in stage <==> Strays(sources, i)
    {
      var p := PlaceOf(sources[i].part);
      if p in stage && p != [] {
        StagedIsInArchive(sources, stage, p);
      }
      if j :| 0 <= j < |sources| && TouchedBy(sources[j], p) {
        ArchivedIsStaged(sources, stage, j, p);
      }
    }
  }

  lemma {:induction false} ReadPlace(stage: FileSystem, p: Path) returns (t: Option<Tree>)
    requires Closed(stage) && Named(stage)
    ensures ReadAt(stage, p, t)
  {
    t := None;
    if p in stage {
      var u := ReadBack(stage, p);
      t := Some(u);
    }
  }

  lemma {:induction false} StagedSnoc(stage: FileSystem, sources: seq<Source>, front: seq<Option<Tree>>, last: Option<Tree>)
    requires sources != [] && StagedAs(stage, sources[..|sources| - 1], front)
    requires ReadAt(stage, PlaceOf(sources[|sources| - 1].part), last)
    ensures StagedAs(stage, sources, front + [last])
  {
    var n := |sources| - 1;
    forall i | 0 <= i < |sources| ensures ReadAt(stage, PlaceOf(sources[i].part), (front + [last])[i]) {
      if i < n {
        assert ReadAt(stage, PlaceOf(sources[..n][i].part), front[i]);
      }
    }
  }

  lemma {:induction false} ReadAll(stage: FileSystem, sources: seq<Source>) returns (staged: seq<Option<Tree>>)
    requires Closed(stage) && Named(stage)
    ensures StagedAs(stage, sources, staged)
    decreases |sources|
  {
    if sources == [] {
      staged := [];
    } else {
      var front := ReadAll(stage, sources[..|sources| - 1]);
      var last := ReadPlace(stage, PlaceOf(sources[|sources| - 1].part));
      StagedSnoc(stage, sources, front, last);
      staged := front + [last];
    }
  }

  lemma {:induction false} SubtreeIsRead(stage: FileSystem, p: Path, t: Tree)
    requires Subtree(stage, p) == Content(p, t) && ValidTree(t)
    ensures ReadAt(stage, p, Some(t))
  {
    assert p in Content(p, t);
  }

  // ---------------------------------------------------------------- from the archive

  ghost predicate HasDestinations(sources: seq<Source>) { forall i :: 0 <= i < |sources| ==> sources[i].destination != [] }

  ghost predicate NothingStrays(sources: seq<Source>) { forall i :: 0 <= i < |sources| ==> !Strays(sources, i) }

  lemma {:induction false} OriginalsAreStaged(metadata: string, sources: seq<Source>, stage: FileSystem)
    requires Archivable(sources) && NothingStrays(sources)
    requires Scan(STAGE, false, ArchiveOf(metadata, sources)) == Ok(stage)
    ensures StagedAs(stage, sources, Originals(sources))
  {
    var same, read := ArchiveStages(metadata, sources);
    forall i | 0 <= i < |sources| ensures ReadAt(stage, PlaceOf(sources[i].part), sources[i].tree) {
      assert !Strays(sources, i);
    }
  }

  lemma {:induction false} BothStaged(stage: FileSystem, sources: seq<Source>, a: seq<Option<Tree>>, b: seq<Option<Tree>>)
    requires StagedAs(stage, sources, a) && StagedAs(stage, sources, b)
    ensures SameTrees(sources, a, b)
  {
    forall i | 0 <= i < |sources| ensures SameTree(PlaceOf(sources[i].part), a[i], b[i]) {
      assert ReadAt(stage, PlaceOf(sources[i].part), a[i]) && ReadAt(stage, PlaceOf(sources[i].part), b[i]);
    }
  }

  /** If nothing strays, restoring whatever is read from the stage is restoring the archived trees:
      it succeeds in the same cases, and with the same result. */
  lemma {:induction false} RestoreFromArchive(fs: FileSystem, metadata: string, sources: seq<Source>,
      stage: FileSystem, staged: seq<Option<Tree>>)
    requires Closed(fs) && Archivable(sources) && HasDestinations(sources) && NothingStrays(sources)
    requires Scan(STAGE, false, ArchiveOf(metadata, sources)) == Ok(stage) && StagedAs(stage, sources, staged)
    ensures SameOutcome(RestoreAll(fs, TargetsOf(sources, staged)), RestoreAll(fs, TargetsOf(sources, Originals(sources))))
  {
    var originals, n := Originals(sources), |sources|;
    OriginalsAreStaged(metadata, sources, stage);
    BothStaged(stage, sources, staged, originals);
    SameRestore(fs, sources, staged, originals, n);
    assert sources[..n] == sources && staged[..n] == staged && originals[..n] == originals;
  }

  lemma {:induction false} TargetIsThere(sources: seq<Source>, trees: seq<Option<Tree>>, i: nat) returns (k: nat)
    requires i < |sources| == |trees| && trees[i].Some?
    ensures k < |TargetsOf(sources, trees)| && TargetsOf(sources, trees)[k] == Target(sources[i].destination, trees[i].value)
    decreases |sources|
  {
    var n := |sources| - 1;
    if i < n {
      k := TargetIsThere(sources[..n], trees[..n], i);
    } else {
      k := |TargetsOf(sources[..n], trees[..n])|;
    }
  }

  lemma {:induction false} TargetIsSource(sources: seq<Source>, trees: seq<Option<Tree>>, k: nat) returns (i: nat)
    requires |sources| == |trees| && k < |TargetsOf(sources, trees)|
    ensures i < |sources| && trees[i].Some? && TargetsOf(sources, trees)[k] == Target(sources[i].destination, trees[i].value)
    decreases |sources|
  {
    var n := |sources| - 1;
    if k < |TargetsOf(sources[..n], trees[..n])| {
      i := TargetIsSource(sources[..n], trees[..n], k);
    } else {
      i := n;
    }
  }

  lemma {:induction false} TargetsAreValid(sources: seq<Source>, trees: seq<Option<Tree>>)
    requires HasDestinations(sources) && |trees| == |sources|
    requires forall i :: 0 <= i < |trees| && trees[i].Some? ==> ValidTree(trees[i].value)
    ensures ValidTargets(TargetsOf(sources, trees))
  {
    forall k | 0 <= k < |TargetsOf(sources, trees)| ensures ValidTarget(TargetsOf(sources, trees)[k]) {
      var i := TargetIsSource(sources, trees, k);
    }
  }

  /** A path of a tree that was applied is there in the end. */
  lemma {:induction false} AppliedIsThere(fs: FileSystem, sources: seq<Source>, trees: seq<Option<Tree>>, after: FileSystem,
      i: nat, q: Path)
    requires Closed(fs) && |trees| == |sources| && ValidTargets(TargetsOf(sources, trees))
    requires RestoreAll(fs, TargetsOf(sources, trees)) == Ok(after)
    requires i < |sources| && trees[i].Some? && q in Content(sources[i].destination, trees[i].value)
    ensures q in after
  {
    var ts := TargetsOf(sources, trees);
    var k := TargetIsThere(sources, trees, i);
    RestoreIff(fs, ts);
    WinnerIsLast(ts, q, k);
    assert DeliveredAt(fs, ts, after, q);
  }

  lemma {:induction false} StagedAreValid(stage: FileSystem, sources: seq<Source>, staged: seq<Option<Tree>>)
    requires HasDestinations(sources) && StagedAs(stage, sources, staged)
    ensures ValidTargets(TargetsOf(sources, staged))
  {
    forall i | 0 <= i < |staged| && staged[i].Some? ensures ValidTree(staged[i].value) {
      assert ReadAt(stage, PlaceOf(sources[i].part), staged[i]);
    }
    TargetsAreValid(sources, staged);
  }

  /** A part with something in its place in the stage has something at its destination in the end. */
  lemma {:induction false} StagedIsThere(fs: FileSystem, sources: seq<Source>, stage: FileSystem, staged: seq<Option<Tree>>,
      after: FileSystem, i: nat)
    requires Closed(fs) && HasDestinations(sources) && StagedAs(stage, sources, staged)
    requires RestoreAll(fs, TargetsOf(sources, staged)) == Ok(after)
    requires i < |sources| && PlaceOf(sources[i].part) in stage
    ensures sources[i].destination in after
  {
    assert ReadAt(stage, PlaceOf(sources[i].part), staged[i]);
    StagedAreValid(stage, sources, staged);
    AppliedIsThere(fs, sources, staged, after, i, sources[i].destination);
  }

  /** Restoring into a host where nothing else puts anything at the destinations of the missing
      parts gives what the archived trees give if and only if nothing strays. */
  lemma {:induction false} RestoresAsArchivedIff(fs: FileSystem, metadata: string, sources: seq<Source>,
      stage: FileSystem, staged: seq<Option<Tree>>, wanted: FileSystem)
    requires Closed(fs) && Archivable(sources) && HasDestinations(sources)
    requires Scan(STAGE, false, ArchiveOf(metadata, sources)) == Ok(stage) && StagedAs(stage, sources, staged)
    requires RestoreAll(fs, TargetsOf(sources, Originals(sources))) == Ok(wanted)
    requires forall i :: 0 <= i < |sources| && sources[i].tree.None? ==> sources[i].destination !in wanted
    ensures RestoreAll(fs, TargetsOf(sources, staged)) == Ok(wanted) <==> NothingStrays(sources)
  {
    if NothingStrays(sources) {
      RestoreFromArchive(fs, metadata, sources, stage, staged);
    } else if RestoreAll(fs, TargetsOf(sources, staged)) == Ok(wanted) {
      var i :| 0 <= i < |sources| && Strays(sources, i);
      var same, read := ArchiveStages(metadata, sources);
      StagedIsThere(fs, sources, stage, staged, wanted, i);
      assert false;
    }
  }

  /** What the archived trees would do. */
  ghost predicate RestoresOriginals(fs: FileSystem, sources: seq<Source>, staged: seq<Option<Tree>>)
    requires |staged| == |sources|
  {
    var outcome, originals := RestoreAll(fs, TargetsOf(sources, staged)), TargetsOf(sources, Originals(sources));
    && (outcome.Ok? <==> Agree(fs, originals))
    && (outcome.Ok? ==> Delivered(fs, originals, outcome.value))
  }

  /** From a backup to a restored container in which nothing strays: the archive is accepted,
      something is read from the stage, and whatever is read, restoring it succeeds if and only if
      the archived trees and the host agree on what is a directory and what a file; then every
      path holds what the last archived tree with it holds, or else what was there, and nothing
      else is new but directories on the way. */
  lemma {:induction false} BackupRestores(fs: FileSystem, metadata: string, sources: seq<Source>)
      returns (stage: FileSystem, read: seq<Option<Tree>>)
    requires Closed(fs) && Archivable(sources) && HasDestinations(sources) && NothingStrays(sources)
    ensures Scan(STAGE, false, ArchiveOf(metadata, sources)) == Ok(stage) && StagedAs(stage, sources, read)
    ensures forall staged :: StagedAs(stage, sources, staged) ==> RestoresOriginals(fs, sources, staged)
  {
    stage, read := ArchiveStages(metadata, sources);
    TargetsAreValid(sources, Originals(sources));
    RestoreIff(fs, TargetsOf(sources, Originals(sources)));
    forall staged | StagedAs(stage, sources, staged) ensures RestoresOriginals(fs, sources, staged) {
      RestoreFromArchive(fs, metadata, sources, stage, staged);
    }
  }

  // ---------------------------------------------------------------- mounts without a source

  ghost predicate AbsoluteTargets(sources: seq<Source>) {
    forall j :: 0 <= j < |sources| ==> AbsoluteTarget(sources[j].part)
  }

  ghost predicate VolumeArchived(sources: seq<Source>) {
    exists j :: 0 <= j < |sources| && sources[j].part.NamedVolume? && sources[j].tree.Some?
  }

  lemma {:induction false} PresentIsPlain(sources: seq<Source>, j: nat)
    requires Archivable(sources) && j < |sources| && sources[j].tree.Some?
    ensures Plain(PlaceOf(sources[j].part))
  {
    var k := SourcesArePresent(sources, j);
    assert PlainRoot(Present(sources)[k]);
  }

  /** A mount without a source, of which nothing was archived, strays if and only if some volume
      was archived. */
  lemma {:induction false} EmptySourceStraysIff(sources: seq<Source>, i: nat)
    requires Archivable(sources) && AbsoluteTargets(sources)
    requires i < |sources| && AllVolumes(sources[i].part) && sources[i].tree.None?
    ensures Strays(sources, i) <==> VolumeArchived(sources)
  {
    var p := ["volumes"];
    KindOfPlace(sources[i].part);
    if j :| 0 <= j < |sources| && TouchedBy(sources[j], p) {
      PresentIsPlain(sources, j);
      KindOfPlace(sources[j].part);
      if p in Content(PlaceOf(sources[j].part), sources[j].tree.value) {
        ContentBelow(PlaceOf(sources[j].part), sources[j].tree.value, p);
      }
      assert PlaceOf(sources[j].part)[0] == "volumes";
    }
    if j :| 0 <= j < |sources| && sources[j].part.NamedVolume? && sources[j].tree.Some? {
      PresentIsPlain(sources, j);
      KindOfPlace(sources[j].part);
      assert TouchedBy(sources[j], p);
    }
  }

  /** A tree read at a place holds what is read below it, wherever it is put. */
  lemma {:induction false} HoldsWhatIsBelow(fs: FileSystem, p: Path, u: Tree, name: string, t: Tree, d: Path, s: Path)
    requires Content(p, u) == Subtree(fs, p) && Content(p + [name], t) == Subtree(fs, p + [name])
    requires s in Content([], t)
    ensures d + [name] + s in Content(d, u) && Content(d, u)[d + [name] + s] == Content([], t)[s]
  {
    var q := p + [name] + s;
    assert [] + s == s;
    ContentMoves([], p + [name], t, s);
    assert q in Subtree(fs, p + [name]) && p <= q;
    assert q in Subtree(fs, p);
    assert q == p + ([name] + s) && d + [name] + s == d + ([name] + s);
    ContentMoves(p, d, u, [name] + s);
  }

  /** Then restoring puts a copy of every archived volume below the mount's own directory. */
  lemma {:induction false} StrayHoldsVolumes(metadata: string, sources: seq<Source>, stage: FileSystem,
      staged: seq<Option<Tree>>, i: nat, j: nat, name: string)
    requires Archivable(sources) && i < |sources| && j < |sources|
    requires Scan(STAGE, false, ArchiveOf(metadata, sources)) == Ok(stage) && StagedAs(stage, sources, staged)
    requires AllVolumes(sources[i].part) && sources[j].part == NamedVolume(name) && Ordinary(name) && sources[j].tree.Some?
    ensures staged[i].Some?
    ensures var d, t := sources[i].destination, sources[j].tree.value;
            forall s <- Content([], t).Keys ::
              d + [name] + s in Content(d, staged[i].value)
              && Content(d, staged[i].value)[d + [name] + s] == Content([], t)[s]
  {
    var t := sources[j].tree.value;
    StagedVolumes(metadata, sources, stage, staged, i, j, name);
    forall s | s in Content([], t)
      ensures sources[i].destination + [name] + s in Content(sources[i].destination, staged[i].value)
      ensures Content(sources[i].destination, staged[i].value)[sources[i].destination + [name] + s] == Content([], t)[s]
    {
      HoldsWhatIsBelow(stage, ["volumes"], staged[i].value, name, t, sources[i].destination, s);
    }
  }

  lemma {:induction false} StagedVolumes(metadata: string, sources: seq<Source>, stage: FileSystem,
      staged: seq<Option<Tree>>, i: nat, j: nat, name: string)
    requires Archivable(sources) && i < |sources| && j < |sources|
    requires Scan(STAGE, false, ArchiveOf(metadata, sources)) == Ok(stage) && StagedAs(stage, sources, staged)
    requires AllVolumes(sources[i].part) && sources[j].part == NamedVolume(name) && Ordinary(name) && sources[j].tree.Some?
    ensures ReadAt(stage, ["volumes"], staged[i]) && staged[i].Some?
    ensures ReadAt(stage, ["volumes"] + [name], sources[j].tree)
  {
    PlaceOfVolume(name);
    KindOfPlace(sources[i].part);
    var same, read := ArchiveStages(metadata, sources);
    StageIsNamed(metadata, sources, stage);
    assert ["volumes"] + [name] == PlaceOf(sources[j].part);
    PrefixExists(stage, PlaceOf(sources[j].part), ["volumes"]);
  }

  /** What the container has when it is backed up again, on the restored host. */
  ghost predicate ReadAgain(after: FileSystem, sources: seq<Source>, again: seq<Source>) {
    |again| == |sources| &&
    forall k :: 0 <= k < |sources| ==>
      again[k].part == sources[k].part && ReadAt(after, sources[k].destination, again[k].tree)
  }

  /** And no later backup of the container can be extracted any more: what was put below that
      directory is archived under the name of the volume, and so is the volume. */
  lemma {:induction false} NextBackupIsRefused(fs: FileSystem, metadata: string, sources: seq<Source>, stage: FileSystem,
      staged: seq<Option<Tree>>, after: FileSystem, again: seq<Source>, i: nat, j: nat, name: string)
    requires Closed(fs) && Archivable(sources) && HasDestinations(sources) && i < |sources| && j < |sources|
    requires Scan(STAGE, false, ArchiveOf(metadata, sources)) == Ok(stage) && StagedAs(stage, sources, staged)
    requires AllVolumes(sources[i].part) && sources[j].part == NamedVolume(name) && Ordinary(name) && sources[j].tree.Some?
    requires RestoreAll(fs, TargetsOf(sources, staged)) == Ok(after) && ReadAgain(after, sources, again)
    ensures Scan(STAGE, false, ArchiveOf(metadata, again)).Err?
  {
    var d, e, t := sources[i].destination, sources[j].destination, sources[j].tree.value;
    StrayHoldsVolumes(metadata, sources, stage, staged, i, j, name);
    StagedAreValid(stage, sources, staged);
    assert [] in Content([], t) && d + [name] + [] == d + [name];
    AppliedIsThere(fs, sources, staged, after, i, d + [name]);
    var same, read := ArchiveStages(metadata, sources);
    assert ReadAt(stage, PlaceOf(sources[j].part), sources[j].tree);
    StagedIsThere(fs, sources, stage, staged, after, j);
    assert ReadAt(after, d, again[i].tree) && ReadAt(after, e, again[j].tree);
    assert d <= d + [name];
    RestoreIff(fs, TargetsOf(sources, staged));
    PrefixExists(after, d + [name], d);
    assert d + [name] in Subtree(after, d);
    TwiceIsRefused(metadata, again, i, j, d, name);
  }

  /** A volume beside a tree for all volumes that has an entry of its name is archived twice. */
  lemma {:induction false} VolumeIsTwice(sources: seq<Source>, i: nat, j: nat, d: Path, name: string)
      returns (a: nat, b: nat, m: nat)
    requires i < |sources| && j < |sources| && sources[i].tree.Some? && sources[j].tree.Some?
    requires AllVolumes(sources[i].part) && sources[j].part == NamedVolume(name) && Ordinary(name)
    requires d + [name] in Content(d, sources[i].tree.value)
    ensures var rs := Present(sources);
            && a < |rs| && b < |rs| && a != b && m < |Walk(rs[a].prefix, rs[a].tree)| && |Walk(rs[b].prefix, rs[b].tree)| > 0
            && Walk(rs[a].prefix, rs[a].tree)[m].path == Walk(rs[b].prefix, rs[b].tree)[0].path
  {
    var t, p := sources[i].tree.value, ["volumes"];
    PlaceOfVolume(name);
    KindOfPlace(sources[i].part);
    a := SourcesArePresent(sources, i);
    b := SourcesArePresent(sources, j);
    ContentMoves(d, p, t, [name]);
    m := WalkCovers(p, t, p + [name]);
    assert PlaceOf(sources[j].part) == p + [name];
  }

  lemma {:induction false} TwiceIsRefused(metadata: string, sources: seq<Source>, i: nat, j: nat, d: Path, name: string)
    requires i < |sources| && j < |sources| && sources[i].tree.Some? && sources[j].tree.Some?
    requires AllVolumes(sources[i].part) && sources[j].part == NamedVolume(name) && Ordinary(name)
    requires d + [name] in Content(d, sources[i].tree.value)
    ensures Scan(STAGE, false, ArchiveOf(metadata, sources)).Err?
  {
    var a, b, m := VolumeIsTwice(sources, i, j, d, name);
    ArchiveScans(metadata, sources);
    ExtractIff(WalkAll(Present(sources)));
    if Acceptable(WalkAll(Present(sources))) {
      DistinctEntries(Present(sources), a, b, m, 0);
    }
  }

  /** A container with one volume and one mount without a source, and where both are on the host. */
  ghost function VolumeAndTmpfs(t: Tree, volumes: Path, key: string): seq<Source> {
    [Source(NamedVolume("a"), Some(t), volumes + ["a"]), Source(NamedVolume(""), None, volumes + [key])]
  }

  lemma {:induction false} VolumeIsArchivable(t: Tree, volumes: Path, key: string)
    requires ValidTree(t) && PlainTree(t)
    ensures Archivable(VolumeAndTmpfs(t, volumes, key))
  {
    var sources := VolumeAndTmpfs(t, volumes, key);
    PlaceOfVolume("a");
    assert sources[..1][..0] == [] && Present(sources[..1]) == [Root(["volumes", "a"], t)];
    assert Present(sources) == [Root(["volumes", "a"], t)];
    assert Plain(["volumes", "a"]);
  }

  lemma {:induction false} TwoTargets(t: Tree, u: Tree, volumes: Path, key: string)
    ensures var sources := VolumeAndTmpfs(t, volumes, key);
            && TargetsOf(sources, [Some(t), Some(u)]) == [Target(volumes + ["a"], t), Target(volumes + [key], u)]
            && TargetsOf(sources, [Some(t), None]) == [Target(volumes + ["a"], t)]
  {
    var sources := VolumeAndTmpfs(t, volumes, key);
    assert sources[..1][..0] == [] && [Some(t), Some(u)][..1] == [Some(t)] && [Some(t), None][..1] == [Some(t)];
    assert TargetsOf(sources[..1], [Some(t)]) == [Target(volumes + ["a"], t)];
  }

  /** On a host with nothing on it a directory can be put anywhere. */
  lemma {:induction false} FitsEmptyHost(d: Path, t: Tree)
    requires d != [] && t.Branch?
    ensures Compatible(STAGE, d, t)
  {
    PrefixesAreClear(STAGE, d, d);
    if [] in Content(d, t) {
      ContentBelow(d, t, []);
    }
  }

  lemma {:induction false} SiblingsAreApart(p: Path, a: string, b: string)
    requires a != b
    ensures !Nested(p + [a], p + [b])
  {
    assert (p + [a])[|p|] == a && (p + [b])[|p|] == b;
  }

  lemma {:induction false} StagedForTmpfs(metadata: string, t: Tree, volumes: Path, key: string)
      returns (stage: FileSystem, u: Tree)
    requires ValidTree(t) && PlainTree(t)
    ensures var sources := VolumeAndTmpfs(t, volumes, key);
            Scan(STAGE, false, ArchiveOf(metadata, sources)) == Ok(stage) && StagedAs(stage, sources, [Some(t), Some(u)])
    ensures ValidTree(u) && u.Branch?
  {
    var sources := VolumeAndTmpfs(t, volumes, key);
    VolumeIsArchivable(t, volumes, key);
    var read: seq<Option<Tree>>;
    stage, read := ArchiveStages(metadata, sources);
    StagedVolumes(metadata, sources, stage, read, 1, 0, "a");
    u := read[1].value;
    PlaceOfVolume("a");
    PlaceOfVolume("");
    assert ReadAt(stage, PlaceOf(sources[0].part), sources[0].tree);
    StageIsNamed(metadata, sources, stage);
    var p, c := ["volumes"], ["volumes", "a"];
    assert c in stage && Parent(c) == p;
    assert p in Content(p, u) && Content(p, u)[p] == NodeOf(u) == stage[p];
  }

  lemma {:induction false} BothFit(t: Tree, u: Tree, volumes: Path, key: string, ts: seq<Target>)
    requires ValidTree(t) && ValidTree(u) && t.Branch? && u.Branch? && key != "a"
    requires ts == [Target(volumes + ["a"], t), Target(volumes + [key], u)] || ts == [Target(volumes + ["a"], t)]
    ensures ValidTargets(ts) && Agree(STAGE, ts)
  {
    FitsEmptyHost(volumes + ["a"], t);
    FitsEmptyHost(volumes + [key], u);
    SiblingsAreApart(volumes, "a", key);
    ApartAgreeIff(STAGE, ts);
  }

  lemma {:induction false} OnlyTheVolume(t: Tree, volumes: Path, key: string, ts: seq<Target>, wanted: FileSystem)
    requires key != "a" && ts == [Target(volumes + ["a"], t)] && Delivered(STAGE, ts, wanted)
    ensures volumes + [key] !in wanted
  {
    var d, q := volumes + ["a"], volumes + [key];
    SiblingsAreApart(volumes, "a", key);
    assert DeliveredAt(STAGE, ts, wanted, q);
    if q in Content(d, t) {
      ContentBelow(d, t, q);
    }
    assert ts[..0] == [] && Winner(ts, q) == None;
  }

  /** So it goes on an empty host, for every tree of the volume: the archived trees alone would
      leave nothing at the place of the mount, and the restore leaves a copy of the volume in it. */
  lemma {:induction false} TmpfsTakesVolumes(metadata: string, t: Tree, volumes: Path, key: string)
      returns (stage: FileSystem, staged: seq<Option<Tree>>, after: FileSystem, wanted: FileSystem)
    requires ValidTree(t) && PlainTree(t) && t.Branch? && key != "a"
    ensures var sources := VolumeAndTmpfs(t, volumes, key);
            && Scan(STAGE, false, ArchiveOf(metadata, sources)) == Ok(stage) && StagedAs(stage, sources, staged)
            && RestoreAll(STAGE, TargetsOf(sources, staged)) == Ok(after)
            && RestoreAll(STAGE, TargetsOf(sources, Originals(sources))) == Ok(wanted)
    ensures volumes + [key] !in wanted
    ensures forall s <- Content([], t).Keys :: volumes + [key] + ["a"] + s in after
  {
    var sources := VolumeAndTmpfs(t, volumes, key);
    var u;
    stage, u := StagedForTmpfs(metadata, t, volumes, key);
    staged := [Some(t), Some(u)];
    TwoTargets(t, u, volumes, key);
    var ts, ts1 := TargetsOf(sources, staged), TargetsOf(sources, [Some(t), None]);
    assert Originals(sources) == [Some(t), None];
    BothFit(t, u, volumes, key, ts);
    BothFit(t, u, volumes, key, ts1);
    RestoreIff(STAGE, ts);
    RestoreIff(STAGE, ts1);
    after, wanted := RestoreAll(STAGE, ts).value, RestoreAll(STAGE, ts1).value;
    OnlyTheVolume(t, volumes, key, ts1, wanted);
    VolumeIsArchivable(t, volumes, key);
    StrayHoldsVolumes(metadata, sources, stage, staged, 1, 0, "a");
    forall s | s in Content([], t) ensures volumes + [key] + ["a"] + s in after {
      AppliedIsThere(STAGE, sources, staged, after, 1, volumes + [key] + ["a"] + s);
    }
  }
}
