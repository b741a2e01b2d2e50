/** The archive of a container (cmd/backup.go): how it is written, exactly which archives are
    accepted, and what they leave in the staging directory. */
module Archives {
  import opened ArchiveNames
  import opened Backup
  import opened Wrappers

  // ---------------------------------------------------------------- exactly which entries are accepted

  predicate Safe(item: Item) { Namespace(item.path) && SafeBackupPath(item.path).Some? }

  /** Where the entry is put. */
  function At(item: Item): Path
    requires Safe(item)
  {
    SafeBackupPath(item.path).value
  }

  /** `x` is put neither at or above an earlier entry, nor below an earlier file. */
  predicate Follows(e: Item, x: Item) {
    Safe(e) && Safe(x) && !(At(x) <= At(e)) && (At(e) <= At(x) ==> e.node.Directory?)
  }

  predicate AllSafe(items: seq<Item>) { forall k :: 0 <= k < |items| ==> Safe(items[k]) }

  ghost predicate Acceptable(items: seq<Item>) {
    AllSafe(items) && forall k, l :: 0 <= k < l < |items| ==> Follows(items[k], items[l])
  }

  /** An entry, or a directory above one. */
  ghost predicate Covered(items: seq<Item>, q: Path)
    requires AllSafe(items)
  {
    q == [] || exists k :: 0 <= k < |items| && q <= At(items[k])
  }

  ghost predicate Entry(items: seq<Item>, q: Path)
    requires AllSafe(items)
  {
    exists k :: 0 <= k < |items| && At(items[k]) == q
  }

  /** The stage holds the entries at their places, the directories above them, and nothing else. */
  ghost predicate Holds(stage: FileSystem, items: seq<Item>)
    requires AllSafe(items)
  {
    && Closed(stage)
    && (forall q :: q in stage <==> Covered(items, q))
    && (forall k :: 0 <= k < |items| ==> At(items[k]) in stage && stage[At(items[k])] == items[k].node)
    && (forall q :: q in stage && !Entry(items, q) ==> stage[q] == Directory(DEFAULT_PERM))
  }

  lemma {:induction false} PutMakes(stage: FileSystem, t: Path, node: Node, made: Option<FileSystem>)
    requires Closed(stage) && t != [] && t !in stage
    requires made == MkdirAll(stage, if node.Directory? then t else Parent(t))
    ensures made.Some? <==> Clear(stage, Parent(t))
    ensures made.Some? ==> made.value[t := node] == Made(stage, Parent(t))[t := node]
  {
    MkdirAllMakes(stage, Parent(t));
    SetTwice(Made(stage, Parent(t)), t, Directory(DEFAULT_PERM), node);
  }

  lemma {:induction false} PlaceMakes(stage: FileSystem, x: Item)
    requires Closed(stage) && Safe(x)
    ensures var t := At(x);
            t != [] &&
            Place(stage, x) ==
            if t in stage then Err(Duplicate)
            else if Clear(stage, Parent(t)) then Ok(Made(stage, Parent(t))[t := x.node])
            else Err(NotADirectory)
  {
    var t := At(x);
    if t !in stage {
      PutMakes(stage, t, x.node, MkdirAll(stage, if x.node.Directory? then t else Parent(t)));
    }
  }

  lemma {:induction false} NewIsVacant(stage: FileSystem, t: Path)
    requires Closed(stage) && t !in stage
    ensures Vacant(stage, t)
  {
    forall q | q in stage ensures !(t <= q) {
      if t <= q {
        PrefixExists(stage, q, t);
      }
    }
  }

  lemma {:induction false} AboveIsAboveParent(q: Path, t: Path)
    requires t != []
    ensures q <= t <==> q == t || q <= Parent(t)
  {
    if q <= t && q != t {
      assert q == t[..|q|] == Parent(t)[..|q|];
    }
    if q <= Parent(t) {
      assert q == Parent(t)[..|q|] == t[..|q|];
    }
  }

  lemma {:induction false} PlacedFollows(stage: FileSystem, items: seq<Item>, x: Item, k: nat)
    requires AllSafe(items) && Holds(stage, items) && Safe(x) && Place(stage, x).Ok? && k < |items|
    ensures Follows(items[k], x)
  {
    var t, e := At(x), At(items[k]);
    PlaceMakes(stage, x);
    assert !Covered(items, t);
    if e <= t {
      AboveIsAboveParent(e, t);
      ClearAbove(stage, Parent(t), e);
    }
  }

  lemma {:induction false} FollowerIsPlaced(stage: FileSystem, items: seq<Item>, x: Item)
    requires AllSafe(items) && Holds(stage, items) && Safe(x)
    requires forall k :: 0 <= k < |items| ==> Follows(items[k], x)
    ensures Place(stage, x).Ok?
  {
    var t := At(x);
    PlaceMakes(stage, x);
    forall k | 0 <= k < |items| ensures !(t <= At(items[k])) {
      assert Follows(items[k], x);
    }
    assert !Covered(items, t);
    forall q | q in stage && q <= Parent(t) ensures stage[q].Directory? {
      AboveIsAboveParent(q, t);
      if Entry(items, q) {
        var k :| 0 <= k < |items| && At(items[k]) == q;
        assert Follows(items[k], x);
      }
    }
    PrefixesAreClear(stage, Parent(t), Parent(t));
  }

  lemma {:induction false} SafeSnoc(items: seq<Item>, x: Item, all: seq<Item>)
    requires AllSafe(items) && Safe(x) && all == items + [x]
    ensures AllSafe(all) && all[|items|] == x && forall k :: 0 <= k < |items| ==> all[k] == items[k]
  {
  }

  lemma {:induction false} CoveredSnoc(items: seq<Item>, x: Item, all: seq<Item>, q: Path)
    requires AllSafe(items) && Safe(x) && all == items + [x]
    ensures AllSafe(all) && (Covered(all, q) <==> Covered(items, q) || q <= At(x))
  {
    SafeSnoc(items, x, all);
    if k :| 0 <= k < |items| && q <= At(items[k]) {
      assert q <= At(all[k]);
    } else if q <= At(x) {
      assert q <= At(all[|items|]);
    }
  }

  lemma {:induction false} EntrySnoc(items: seq<Item>, x: Item, all: seq<Item>, q: Path)
    requires AllSafe(items) && Safe(x) && all == items + [x]
    ensures AllSafe(all) && (Entry(all, q) <==> Entry(items, q) || q == At(x))
  {
    SafeSnoc(items, x, all);
    if k :| 0 <= k < |items| && At(items[k]) == q {
      assert At(all[k]) == q;
    } else if q == At(x) {
      assert At(all[|items|]) == q;
    }
  }

  lemma {:induction false} PlacedHolds(stage: FileSystem, items: seq<Item>, x: Item, next: FileSystem, all: seq<Item>)
    requires AllSafe(items) && Holds(stage, items) && Safe(x) && Place(stage, x) == Ok(next) && all == items + [x]
    ensures AllSafe(all) && Holds(next, all)
  {
    var t := At(x);
    PlaceMakes(stage, x);
    NewIsVacant(stage, t);
    MadeIsClosedWith(stage, t, x.node, Made(stage, Parent(t)));
    SafeSnoc(items, x, all);
    forall q
      ensures q in next <==> Covered(all, q)
      ensures q in next && !Entry(all, q) ==> next[q] == Directory(DEFAULT_PERM)
    {
      CoveredSnoc(items, x, all, q);
      EntrySnoc(items, x, all, q);
      MadeAt(stage, Parent(t), q);
      AboveIsAboveParent(q, t);
    }
    forall k | 0 <= k < |all| ensures At(all[k]) in next && next[At(all[k])] == all[k].node {
      if k < |items| {
        assert all[k] == items[k];
        MadeAt(stage, Parent(t), At(items[k]));
      }
    }
  }

  lemma {:induction false} AcceptableSnoc(items: seq<Item>, x: Item)
    ensures Acceptable(items + [x]) <==>
              Acceptable(items) && Safe(x) && forall k :: 0 <= k < |items| ==> Follows(items[k], x)
  {
    var all := items + [x];
    assert all[|items|] == x;
    assert forall k :: 0 <= k < |items| ==> all[k] == items[k];
    if Acceptable(all) {
      forall k | 0 <= k < |items| ensures Safe(items[k]) && Follows(items[k], x) {
        assert Safe(all[k]) && Follows(all[k], all[|items|]);
      }
      forall k, l | 0 <= k < l < |items| ensures Follows(items[k], items[l]) {
        assert Follows(all[k], all[l]);
      }
    }
  }

  lemma {:induction false} ExtractSnoc(stage: FileSystem, items: seq<Item>, x: Item)
    ensures Extract(stage, items + [x]) ==
            match Extract(stage, items) case Err(e) => Err(e) case Ok(next) => Place(next, x)
  {
    ExtractAppend(stage, items, [x]);
    assert [x][1..] == [];
  }

  /** Extraction succeeds if and only if every name is safe and no entry is put at or above an
      earlier one or below an earlier file; then the stage holds just the entries. */
  lemma {:induction false} ExtractIff(items: seq<Item>)
    ensures Extract(STAGE, items).Ok? <==> Acceptable(items)
    ensures Acceptable(items) ==> Holds(Extract(STAGE, items).value, items)
    decreases |items|
  {
    if items != [] {
      var front, x := items[..|items| - 1], items[|items| - 1];
      assert items == front + [x];
      ExtractIff(front);
      ExtractSnoc(STAGE, front, x);
      AcceptableSnoc(front, x);
      if Acceptable(front) && Safe(x) {
        OneMoreIff(Extract(STAGE, front).value, front, x, items);
      }
    } else {
      assert Extract(STAGE, items) == Ok(STAGE);
    }
  }

  lemma {:induction false} OneMoreIff(stage: FileSystem, items: seq<Item>, x: Item, all: seq<Item>)
    requires AllSafe(items) && Holds(stage, items) && Safe(x) && all == items + [x]
    ensures Place(stage, x).Ok? <==> forall k :: 0 <= k < |items| ==> Follows(items[k], x)
    ensures Place(stage, x).Ok? ==> AllSafe(all) && Holds(Place(stage, x).value, all)
  {
    if Place(stage, x).Ok? {
      PlacedHolds(stage, items, x, Place(stage, x).value, all);
      forall k | 0 <= k < |items| ensures Follows(items[k], x) {
        PlacedFollows(stage, items, x, k);
      }
    } else if forall k :: 0 <= k < |items| ==> Follows(items[k], x) {
      FollowerIsPlaced(stage, items, x);
    }
  }

  // ---------------------------------------------------------------- the metadata entry

  const METADATA: Path := ["container.json"]

  const METADATA_PERM := 0x180

  function Scan(stage: FileSystem, seen: bool, archive: seq<Item>): Result<FileSystem, Error>
    decreases |archive|
  {
    if archive == [] then if seen then Ok(stage) else Err(MissingMetadata)
    else if archive[0].path == METADATA then
      if seen then Err(DuplicateMetadata) else Scan(stage, true, archive[1..])
    else match Place(stage, archive[0])
      case Err(e) => Err(e)
      case Ok(next) => Scan(next, seen, archive[1..])
  }

  method ExtractBackupToStage(archive: seq<Item>) returns (result: Result<FileSystem, Error>)
    ensures result == Scan(STAGE, false, archive)
  {
    var stage := STAGE;
    var seen := false;
    assert archive[0..] == archive;
    for i := 0 to |archive|
      invariant Scan(stage, seen, archive[i..]) == Scan(STAGE, false, archive)
    {
      assert archive[i..][1..] == archive[i + 1..];
      var item := archive[i];
      if item.path == METADATA {
        if seen {
          return Err(DuplicateMetadata);
        }
        seen := true;
        continue;
      }
      if !Namespace(item.path) {
        return Err(Unsafe);
      }
      var target := SafeBackupPath(item.path);
      if target.None? {
        return Err(Unsafe);
      }
      if target.value in stage {
        return Err(Duplicate);
      }
      var made := MkdirAll(stage, if item.node.Directory? then target.value else Parent(target.value));
      if made.None? {
        return Err(NotADirectory);
      }
      stage := made.value[target.value := item.node];
    }
    result := if seen then Ok(stage) else Err(MissingMetadata);
  }

  function MetadataCount(archive: seq<Item>): nat {
    if archive == [] then 0 else (if archive[0].path == METADATA then 1 else 0) + MetadataCount(archive[1..])
  }

  /** The other entries. */
  function DataOf(archive: seq<Item>): seq<Item> {
    if archive == [] then [] else (if archive[0].path == METADATA then [] else [archive[0]]) + DataOf(archive[1..])
  }

  lemma {:induction false} ExtractCons(stage: FileSystem, x: Item, rest: seq<Item>)
    ensures Extract(stage, [x] + rest) ==
            match Place(stage, x) case Err(e) => Err(e) case Ok(next) => Extract(next, rest)
  {
    assert ([x] + rest)[0] == x && ([x] + rest)[1..] == rest;
  }

  lemma {:induction false} ScanIsExtract(stage: FileSystem, seen: bool, archive: seq<Item>)
    ensures Scan(stage, seen, archive).Ok? <==>
              MetadataCount(archive) == (if seen then 0 else 1) && Extract(stage, DataOf(archive)).Ok?
    ensures Scan(stage, seen, archive).Ok? ==> Scan(stage, seen, archive) == Extract(stage, DataOf(archive))
    decreases |archive|
  {
    if archive != [] {
      var x, rest := archive[0], archive[1..];
      if x.path == METADATA {
        assert DataOf(archive) == DataOf(rest);
        if !seen {
          ScanIsExtract(stage, true, rest);
        }
      } else {
        ExtractCons(stage, x, DataOf(rest));
        match Place(stage, x)
        case Err(_) =>
        case Ok(next) => ScanIsExtract(next, seen, rest);
      }
    }
  }

  /** An archive is accepted if and only if it has its metadata once, every other name is safe, and
      no entry is put at or above an earlier one or below an earlier file; then the stage holds just
      the entries, each at its cleaned name. */
  lemma {:induction false} AcceptedIff(archive: seq<Item>)
    ensures Scan(STAGE, false, archive).Ok? <==> MetadataCount(archive) == 1 && Acceptable(DataOf(archive))
    ensures Scan(STAGE, false, archive).Ok? ==> Holds(Scan(STAGE, false, archive).value, DataOf(archive))
  {
    ScanIsExtract(STAGE, false, archive);
    ExtractIff(DataOf(archive));
  }

  // ---------------------------------------------------------------- writing the archive

  /** A tree of the container: its part, what is there when the archive is written, and the place
      on the host that it is read from and restored to. */
  datatype Source = Source(part: Part, tree: Option<Tree>, destination: Path)

  predicate HostRootMount(s: Source) { s.part.BindMount? && s.destination == [] }

  ghost predicate MountsHostRoot(sources: seq<Source>) {
    exists i :: 0 <= i < |sources| && HostRootMount(sources[i])
  }

  /** The trees that exist when the archive is written; a missing source is skipped. */
  function Present(sources: seq<Source>): seq<Root> {
    if sources == [] then []
    else
      var last := sources[|sources| - 1];
      Present(sources[..|sources| - 1]) + if last.tree.Some? then [Root(PlaceOf(last.part), last.tree.value)] else []
  }

  function ArchiveOf(metadata: string, sources: seq<Source>): seq<Item> {
    [Item(METADATA, File(metadata, METADATA_PERM))] + WalkAll(Present(sources))
  }

  lemma {:induction false} ArchiveSnoc(metadata: string, sources: seq<Source>, i: nat)
    requires i < |sources|
    ensures ArchiveOf(metadata, sources[..i + 1]) ==
            ArchiveOf(metadata, sources[..i])
            + if sources[i].tree.Some? then Walk(PlaceOf(sources[i].part), sources[i].tree.value) else []
  {
    assert sources[..i + 1][..i] == sources[..i];
    var roots := Present(sources[..i]);
    if sources[i].tree.Some? {
      WalkAllSnoc(roots, Root(PlaceOf(sources[i].part), sources[i].tree.value));
    } else {
      assert roots + [] == roots;
    }
  }

  /** The loop over the container's trees; the root of the host is never archived. */
  method CreateContainerBackup(metadata: string, sources: seq<Source>) returns (result: Result<seq<Item>, Error>)
    ensures MountsHostRoot(sources) ==> result == Err(HostRoot)
    ensures !MountsHostRoot(sources) ==> result == Ok(ArchiveOf(metadata, sources))
  {
    var archive := [Item(METADATA, File(metadata, METADATA_PERM))];
    assert ArchiveOf(metadata, sources[..0]) == archive;
    for i := 0 to |sources|
      invariant archive == ArchiveOf(metadata, sources[..i])
      invariant forall k :: 0 <= k < i ==> !HostRootMount(sources[k])
    {
      ArchiveSnoc(metadata, sources, i);
      if HostRootMount(sources[i]) {
        return Err(HostRoot);
      }
      if sources[i].tree.Some? {
        archive := archive + Walk(PlaceOf(sources[i].part), sources[i].tree.value);
      }
    }
    assert sources[..|sources|] == sources;
    result := Ok(archive);
  }

  // ---------------------------------------------------------------- which trees come back

  lemma {:induction false} AllSafeAppend(a: seq<Item>, b: seq<Item>)
    ensures AllSafe(a + b) <==> AllSafe(a) && AllSafe(b)
  {
    var all := a + b;
    assert forall k :: 0 <= k < |a| ==> all[k] == a[k];
    assert forall k :: 0 <= k < |b| ==> all[|a| + k] == b[k];
  }

  /** If all names in the walk of a tree are safe, the tree has plain names. */
  lemma {:induction false} SafeTreeIsPlain(p: Path, t: Tree)
    requires Plain(p) && ValidTree(t) && AllSafe(Walk(p, t))
    ensures PlainTree(t)
    decreases t
  {
    match t
    case Leaf(_, _) =>
    case Branch(_, es) =>
      AllSafeAppend([Item(p, NodeOf(t))], WalkEntries(p, es));
      SafeEntriesArePlain(p, es);
  }

  lemma {:induction false} SafeEntriesArePlain(p: Path, es: Entries)
    requires Plain(p) && ValidEntries(es) && AllSafe(WalkEntries(p, es))
    ensures PlainEntries(es)
    decreases es
  {
    match es
    case Nil =>
    case Cons(name, t, rest) =>
      var c := p + [name];
      AllSafeAppend(Walk(c, t), WalkEntries(p, rest));
      assert Walk(c, t)[0].path == c && Safe(Walk(c, t)[0]);
      assert c[|p|] == name;
      SafeTreeIsPlain(c, t);
      SafeEntriesArePlain(p, rest);
  }

  lemma {:induction false} SafeRootsArePlain(rs: seq<Root>, i: nat)
    requires ValidRoots(rs) && AllSafe(WalkAll(rs)) && i < |rs|
    ensures PlainRoot(rs[i])
    decreases |rs|
  {
    var n := |rs| - 1;
    AllSafeAppend(WalkAll(rs[..n]), Walk(rs[n].prefix, rs[n].tree));
    if i < n {
      SafeRootsArePlain(rs[..n], i);
    } else {
      var p, t := rs[n].prefix, rs[n].tree;
      assert Walk(p, t)[0].path == p && Safe(Walk(p, t)[0]);
      SafeIsPlain(p);
      SafeTreeIsPlain(p, t);
    }
  }

  lemma {:induction false} WalkInAll(rs: seq<Root>, i: nat, m: nat) returns (k: nat)
    requires i < |rs| && m < |Walk(rs[i].prefix, rs[i].tree)|
    ensures k < |WalkAll(rs)| && WalkAll(rs)[k] == Walk(rs[i].prefix, rs[i].tree)[m]
    decreases |rs|
  {
    var n := |rs| - 1;
    if i < n {
      k := WalkInAll(rs[..n], i, m);
    } else {
      k := |WalkAll(rs[..n])| + m;
    }
  }

  lemma {:induction false} AcceptableFront(a: seq<Item>, b: seq<Item>)
    requires Acceptable(a + b)
    ensures Acceptable(a)
    ensures forall k, l :: 0 <= k < |a| && 0 <= l < |b| ==> Follows(a[k], b[l])
  {
    var all := a + b;
    forall k | 0 <= k < |a| ensures Safe(a[k]) {
      assert Safe(all[k]);
    }
    forall k, l | 0 <= k < l < |a| ensures Follows(a[k], a[l]) {
      assert Follows(all[k], all[l]);
    }
    forall k, l | 0 <= k < |a| && 0 <= l < |b| ensures Follows(a[k], b[l]) {
      assert Follows(all[k], all[|a| + l]);
    }
  }

  /** Entries of a later tree follow those of an earlier one. */
  lemma {:induction false} LaterTreeFollows(rs: seq<Root>, i: nat, j: nat, m: nat, n: nat)
    requires i < j < |rs| && Acceptable(WalkAll(rs))
    requires m < |Walk(rs[i].prefix, rs[i].tree)| && n < |Walk(rs[j].prefix, rs[j].tree)|
    ensures Follows(Walk(rs[i].prefix, rs[i].tree)[m], Walk(rs[j].prefix, rs[j].tree)[n])
    decreases |rs|
  {
    var last := |rs| - 1;
    AcceptableFront(WalkAll(rs[..last]), Walk(rs[last].prefix, rs[last].tree));
    if j < last {
      LaterTreeFollows(rs[..last], i, j, m, n);
    } else {
      var k := WalkInAll(rs[..last], i, m);
    }
  }

  /** So nothing is archived twice. */
  lemma {:induction false} DistinctEntries(rs: seq<Root>, i: nat, j: nat, m: nat, n: nat)
    requires i < |rs| && j < |rs| && i != j && Acceptable(WalkAll(rs))
    requires m < |Walk(rs[i].prefix, rs[i].tree)| && n < |Walk(rs[j].prefix, rs[j].tree)|
    ensures Walk(rs[i].prefix, rs[i].tree)[m].path != Walk(rs[j].prefix, rs[j].tree)[n].path
  {
    if i < j {
      LaterTreeFollows(rs, i, j, m, n);
    } else {
      LaterTreeFollows(rs, j, i, n, m);
    }
  }

  /** Two nested trees cannot both come back as they were. */
  lemma {:induction false} NestedFails(rs: seq<Root>, i: nat, j: nat, result: FileSystem)
    requires i < j < |rs| && Nested(rs[i].prefix, rs[j].prefix) && ValidRoots(rs)
    requires Extract(STAGE, WalkAll(rs)) == Ok(result)
    ensures !Rebuilt(result, rs)
  {
    var p, q := rs[i].prefix, rs[j].prefix;
    ExtractIff(WalkAll(rs));
    SafeRootsArePlain(rs, i);
    SafeRootsArePlain(rs, j);
    PlainIsSafe(p);
    PlainIsSafe(q);
    assert Walk(q, rs[j].tree)[0].path == q && Walk(p, rs[i].tree)[0].path == p;
    LaterTreeFollows(rs, i, j, 0, 0);
    assert p <= q && !(q <= p);
    var at := WalkInAll(rs, j, 0);
    assert q in result;
    if Rebuilt(result, rs) {
      assert q in Subtree(result, p);
      var k := WalkCovers(p, rs[i].tree, q);
      LaterTreeFollows(rs, i, j, k, 0);
    }
  }

  /** Archiving and extracting rebuilds all trees if and only if no tree's place is at or below
      another's, and all places are in the three namespaces and no name has a backslash. */
  lemma {:induction false} RebuildsIff(rs: seq<Root>)
    requires ValidRoots(rs)
    ensures (Extract(STAGE, WalkAll(rs)).Ok? && Rebuilt(Extract(STAGE, WalkAll(rs)).value, rs))
            <==> NonNested(rs) && PlainRoots(rs)
  {
    if NonNested(rs) && PlainRoots(rs) {
      var stage := NonNestedRebuilds(rs);
    } else if Extract(STAGE, WalkAll(rs)).Ok? {
      if NonNested(rs) {
        ExtractIff(WalkAll(rs));
        forall i | 0 <= i < |rs| ensures PlainRoot(rs[i]) {
          SafeRootsArePlain(rs, i);
        }
      } else {
        var i, j :| 0 <= i < j < |rs| && Nested(rs[i].prefix, rs[j].prefix);
        NestedFails(rs, i, j, Extract(STAGE, WalkAll(rs)).value);
      }
    }
  }

  // ---------------------------------------------------------------- the archive of a container

  ghost predicate ValidSources(sources: seq<Source>) {
    forall i :: 0 <= i < |sources| && sources[i].tree.Some? ==> ValidTree(sources[i].tree.value)
  }

  /** A present tree and its place. */
  ghost predicate PresentAt(sources: seq<Source>, i: nat, r: Root) {
    i < |sources| && sources[i].tree == Some(r.tree) && PlaceOf(sources[i].part) == r.prefix
  }

  lemma {:induction false} PresentAreSources(sources: seq<Source>, k: nat) returns (i: nat)
    requires k < |Present(sources)|
    ensures PresentAt(sources, i, Present(sources)[k])
    decreases |sources|
  {
    var n := |sources| - 1;
    if k < |Present(sources[..n])| {
      i := PresentAreSources(sources[..n], k);
    } else {
      i := n;
    }
  }

  lemma {:induction false} SourcesArePresent(sources: seq<Source>, i: nat) returns (k: nat)
    requires i < |sources| && sources[i].tree.Some?
    ensures k < |Present(sources)| && PresentAt(sources, i, Present(sources)[k])
    decreases |sources|
  {
    var n := |sources| - 1;
    if i < n {
      k := SourcesArePresent(sources[..n], i);
    } else {
      k := |Present(sources[..n])|;
    }
  }

  lemma {:induction false} PresentIsValid(sources: seq<Source>)
    requires ValidSources(sources)
    ensures ValidRoots(Present(sources))
  {
    forall k | 0 <= k < |Present(sources)|
      ensures Cleaned(Present(sources)[k].prefix) && ValidTree(Present(sources)[k].tree)
    {
      var i := PresentAreSources(sources, k);
      PlaceIsCleaned(sources[i].part);
    }
  }

  lemma {:induction false} NoMoreMetadata(items: seq<Item>)
    ensures AllSafe(items) ==> MetadataCount(items) == 0
    ensures MetadataCount(items) == 0 ==> DataOf(items) == items
    decreases |items|
  {
    if items != [] {
      NoMoreMetadata(items[1..]);
      if AllSafe(items) {
        assert Safe(items[0]);
        assert AllSafe(items[1..]);
      }
    }
  }

  lemma {:induction false} ScanBehindMetadata(stage: FileSystem, x: Item, items: seq<Item>)
    requires x.path == METADATA
    ensures Scan(stage, false, [x] + items) == Scan(stage, true, items)
  {
    assert ([x] + items)[0] == x && ([x] + items)[1..] == items;
  }

  lemma {:induction false} ScansWalk(items: seq<Item>)
    ensures Scan(STAGE, true, items).Ok? <==> Extract(STAGE, items).Ok?
    ensures Extract(STAGE, items).Ok? ==> Scan(STAGE, true, items) == Extract(STAGE, items)
  {
    ScanIsExtract(STAGE, true, items);
    NoMoreMetadata(items);
    ExtractIff(items);
  }

  lemma {:induction false} ArchiveScans(metadata: string, sources: seq<Source>)
    ensures var scanned := Scan(STAGE, false, ArchiveOf(metadata, sources));
            var extracted := Extract(STAGE, WalkAll(Present(sources)));
            (scanned.Ok? <==> extracted.Ok?) && (extracted.Ok? ==> scanned == extracted)
  {
    ScanBehindMetadata(STAGE, Item(METADATA, File(metadata, METADATA_PERM)), WalkAll(Present(sources)));
    ScansWalk(WalkAll(Present(sources)));
  }

  /** What it takes for a container's archive to give back its trees. */
  ghost predicate Archivable(sources: seq<Source>) {
    ValidSources(sources) && NonNested(Present(sources)) && PlainRoots(Present(sources))
  }

  /** The archive of a container is accepted and extracts to its trees, each unchanged in its
      place, if and only if no place of a present tree is nested with another's and all their
      names are plain. */
  lemma {:induction false} BackupRoundTrip(metadata: string, sources: seq<Source>)
    requires ValidSources(sources)
    ensures var staged := Scan(STAGE, false, ArchiveOf(metadata, sources));
            (staged.Ok? && Rebuilt(staged.value, Present(sources))) <==> Archivable(sources)
  {
    PresentIsValid(sources);
    ArchiveScans(metadata, sources);
    RebuildsIff(Present(sources));
  }
}
