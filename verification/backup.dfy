/** Backup archives of cmd/backup.go: writing trees of directories and regular files, and extracting
    them into a staging directory. */
module Backup {
  import opened ArchiveNames
  import opened Wrappers

  datatype Node = Directory(perm: int) | File(data: string, perm: int)

  type FileSystem = map<Path, Node>

  datatype Error =
    | HostRoot | Unsafe | Duplicate | NotADirectory | IsADirectory | DuplicateMetadata | MissingMetadata

  /** A tree as filepath.Walk sees it: the entries of a directory in lexical order. */
  datatype Tree = Leaf(data: string, perm: int) | Branch(perm: int, entries: Entries)

  datatype Entries = Nil | Cons(name: string, tree: Tree, rest: Entries)

  const DEFAULT_PERM := 0x1c0

  function NodeOf(t: Tree): Node {
    match t
    case Leaf(data, perm) => File(data, perm)
    case Branch(perm, _) => Directory(perm)
  }

  predicate HasName(es: Entries, name: string) { es.Cons? && (es.name == name || HasName(es.rest, name)) }

  /** The names in one directory name something and are distinct. */
  predicate ValidTree(t: Tree)
    decreases t
  {
    t.Branch? ==> ValidEntries(t.entries)
  }

  predicate ValidEntries(es: Entries)
    decreases es
  {
    es.Cons? ==> Ordinary(es.name) && !HasName(es.rest, es.name) && ValidTree(es.tree) && ValidEntries(es.rest)
  }

  /** No file or directory in the tree has a backslash in its name. */
  predicate PlainTree(t: Tree)
    decreases t
  {
    t.Branch? ==> PlainEntries(t.entries)
  }

  predicate PlainEntries(es: Entries)
    decreases es
  {
    es.Cons? ==> !HasBackslash(es.name) && PlainTree(es.tree) && PlainEntries(es.rest)
  }

  // ---------------------------------------------------------------- what a tree is, and its walk

  /** The files and directories of a tree placed at `p`. */
  function Content(p: Path, t: Tree): FileSystem
    decreases t
  {
    match t
    case Leaf(_, _) => map[p := NodeOf(t)]
    case Branch(_, es) => EntriesContent(p, es)[p := NodeOf(t)]
  }

  function EntriesContent(p: Path, es: Entries): FileSystem
    decreases es
  {
    match es
    case Nil => map[]
    case Cons(name, t, rest) => Content(p + [name], t) + EntriesContent(p, rest)
  }

  datatype Item = Item(path: Path, node: Node)

  /** The tree in the order of filepath.Walk: a directory, then its entries. */
  function Walk(p: Path, t: Tree): seq<Item>
    decreases t
  {
    match t
    case Leaf(_, _) => [Item(p, NodeOf(t))]
    case Branch(_, es) => [Item(p, NodeOf(t))] + WalkEntries(p, es)
  }

  function WalkEntries(p: Path, es: Entries): seq<Item>
    decreases es
  {
    match es
    case Nil => []
    case Cons(name, t, rest) => Walk(p + [name], t) + WalkEntries(p, rest)
  }

  /** Everything in a tree is at or below its root. */
  lemma {:induction false} ContentBelow(p: Path, t: Tree, q: Path)
    requires q in Content(p, t)
    ensures p <= q
    decreases t
  {
    if q != p {
      EntriesBelow(p, t.entries, q);
    }
  }

  lemma {:induction false} EntriesBelow(p: Path, es: Entries, q: Path)
    requires q in EntriesContent(p, es)
    ensures |q| > |p| && p == q[..|p|] && HasName(es, q[|p|])
    decreases es
  {
    if q in EntriesContent(p, es.rest) {
      EntriesBelow(p, es.rest, q);
    } else {
      ContentBelow(p + [es.name], es.tree, q);
      assert q[..|p|] == (p + [es.name])[..|p|] == p && q[|p|] == (p + [es.name])[|p|];
    }
  }

  /** Two entries of a directory share nothing. */
  lemma {:induction false} EntriesDisjoint(p: Path, es: Entries, q: Path)
    requires es.Cons? && ValidEntries(es) && q in Content(p + [es.name], es.tree)
    ensures q !in EntriesContent(p, es.rest)
  {
    ContentBelow(p + [es.name], es.tree, q);
    assert q[|p|] == (p + [es.name])[|p|];
    if q in EntriesContent(p, es.rest) {
      EntriesBelow(p, es.rest, q);
    }
  }

  // ---------------------------------------------------------------- directories

  /** os.MkdirAll. */
  function MkdirAll(fs: FileSystem, p: Path): Option<FileSystem> {
    if p in fs then if fs[p].Directory? then Some(fs) else None
    else if p == [] then Some(fs[p := Directory(DEFAULT_PERM)])
    else match MkdirAll(fs, Parent(p))
      case None => None
      case Some(made) => Some(made[p := Directory(DEFAULT_PERM)])
  }

  /** Whatever is there has its parent there, as a directory. */
  ghost predicate Closed(fs: FileSystem) {
    forall p <- fs.Keys :: p != [] ==> Parent(p) in fs && fs[Parent(p)].Directory?
  }

  /** Neither `p` nor anything on the way to it is a file. */
  predicate Clear(fs: FileSystem, p: Path) {
    (p in fs ==> fs[p].Directory?) && (p != [] ==> Clear(fs, Parent(p)))
  }

  /** `fs` with the missing directories on the way to `p`, and `p`. */
  function Made(fs: FileSystem, p: Path): FileSystem {
    if p in fs then fs
    else (if p == [] then fs else Made(fs, Parent(p)))[p := Directory(DEFAULT_PERM)]
  }

  lemma {:induction false} ExistingIsClear(fs: FileSystem, p: Path)
    requires Closed(fs) && p in fs && fs[p].Directory?
    ensures Clear(fs, p)
    decreases |p|
  {
    if p != [] {
      ExistingIsClear(fs, Parent(p));
    }
  }

  /** MkdirAll fails exactly on a file on the way, and otherwise adds exactly what is missing. */
  lemma {:induction false} MkdirAllMakes(fs: FileSystem, p: Path)
    requires Closed(fs)
    ensures MkdirAll(fs, p) == if Clear(fs, p) then Some(Made(fs, p)) else None
    decreases |p|
  {
    if p in fs {
      if fs[p].Directory? {
        ExistingIsClear(fs, p);
      }
    } else if p != [] {
      MkdirAllMakes(fs, Parent(p));
    }
  }

  lemma {:induction false} MadeAt(fs: FileSystem, p: Path, q: Path)
    requires Closed(fs)
    ensures q in Made(fs, p) <==> q in fs || q <= p
    ensures q in Made(fs, p) ==> Made(fs, p)[q] == if q in fs then fs[q] else Directory(DEFAULT_PERM)
    decreases |p|
  {
    if p in fs {
      if q <= p && q !in fs {
        PrefixExists(fs, p, q);
      }
    } else if p != [] {
      MadeAt(fs, Parent(p), q);
      if q <= p && q != p {
        assert q == p[..|q|] == Parent(p)[..|q|];
      }
      if q <= Parent(p) {
        assert q == Parent(p)[..|q|] == p[..|q|];
      }
    } else {
      assert q <= p ==> q == [];
    }
  }

  lemma {:induction false} PrefixExists(fs: FileSystem, p: Path, q: Path)
    requires Closed(fs) && p in fs && q <= p
    ensures q in fs
    decreases |p|
  {
    if q != p {
      assert q == p[..|q|] == Parent(p)[..|q|];
      PrefixExists(fs, Parent(p), q);
    }
  }

  lemma {:induction false} ClearMadeIsClosed(fs: FileSystem, p: Path)
    requires Closed(fs) && Clear(fs, p)
    ensures Closed(Made(fs, p)) && p in Made(fs, p) && Made(fs, p)[p].Directory?
    decreases |p|
  {
    if p !in fs && p != [] {
      ClearMadeIsClosed(fs, Parent(p));
    }
  }

  // ---------------------------------------------------------------- extraction

  /** One entry of the archive put into the staging directory. */
  function Place(stage: FileSystem, item: Item): Result<FileSystem, Error> {
    if !Namespace(item.path) then Err(Unsafe)
    else match SafeBackupPath(item.path)
      case None => Err(Unsafe)
      case Some(target) =>
        if target in stage then Err(Duplicate)
        else match MkdirAll(stage, if item.node.Directory? then target else Parent(target))
          case None => Err(NotADirectory)
          case Some(made) => Ok(made[target := item.node])
  }

  function Extract(stage: FileSystem, items: seq<Item>): Result<FileSystem, Error>
    decreases |items|
  {
    if items == [] then Ok(stage)
    else match Place(stage, items[0])
      case Err(e) => Err(e)
      case Ok(next) => Extract(next, items[1..])
  }

  lemma {:induction false} ExtractAppend(stage: FileSystem, a: seq<Item>, b: seq<Item>)
    ensures Extract(stage, a + b) ==
            match Extract(stage, a) case Err(e) => Err(e) case Ok(next) => Extract(next, b)
    decreases |a|
  {
    if a == [] {
      assert Extract(stage, a + b) == Extract(stage, b) by { assert a + b == b; }
    } else {
      assert (a + b)[0] == a[0] && (a + b)[1..] == a[1..] + b;
      match Place(stage, a[0])
      case Err(_) =>
      case Ok(next) => ExtractAppend(next, a[1..], b);
    }
  }

  /** Nothing is at or below `p`. */
  ghost predicate Vacant(fs: FileSystem, p: Path) { forall q <- fs.Keys :: !(p <= q) }

  lemma {:induction false} ClosedWith(fs: FileSystem, p: Path, node: Node)
    requires Closed(fs) && p != [] && Parent(p) in fs && fs[Parent(p)].Directory?
    requires forall q <- fs.Keys :: q != [] ==> Parent(q) != p
    ensures Closed(fs[p := node])
  {
    ParentIsPrefix(p);
  }

  lemma {:induction false} NothingBelowMade(stage: FileSystem, p: Path, q: Path)
    requires Closed(stage) && p != [] && Vacant(stage, p) && q in Made(stage, Parent(p))
    ensures !(p <= q)
  {
    MadeAt(stage, Parent(p), q);
    ParentIsPrefix(p);
  }

  lemma {:induction false} MadeIsClosedWith(stage: FileSystem, p: Path, node: Node, made: FileSystem)
    requires Closed(stage) && p != [] && Vacant(stage, p) && Clear(stage, Parent(p)) && made == Made(stage, Parent(p))
    ensures Closed(made) && Closed(made[p := node])
  {
    ClearMadeIsClosed(stage, Parent(p));
    forall q | q in made && q != [] ensures Parent(q) != p {
      NothingBelowMade(stage, p, q);
      ParentIsPrefix(q);
    }
    ClosedWith(made, p, node);
  }

  lemma {:induction false} SetTwice(fs: FileSystem, p: Path, a: Node, b: Node)
    ensures fs[p := a][p := b] == fs[p := b]
  {
  }

  lemma {:induction false} PlaceWorks(stage: FileSystem, p: Path, node: Node, made: FileSystem)
    requires Closed(stage) && Plain(p) && Vacant(stage, p) && Clear(stage, Parent(p))
    requires made == Made(stage, Parent(p))
    ensures Place(stage, Item(p, node)) == Ok(made[p := node])
  {
    PlainIsSafe(p);
    assert p <= p && p !in stage;
    MkdirAllMakes(stage, Parent(p));
    MkdirAllMakes(stage, p);
    assert Made(stage, p) == made[p := Directory(DEFAULT_PERM)];
    SetTwice(made, p, Directory(DEFAULT_PERM), node);
  }

  lemma {:induction false} ParentIsPrefix(q: Path)
    requires q != []
    ensures Parent(q) <= q && |Parent(q)| == |q| - 1
  {
  }

  /** There is room below `p` for each of the entries. */
  ghost predicate Room(fs: FileSystem, p: Path, es: Entries) {
    forall name :: HasName(es, name) ==> Vacant(fs, p + [name])
  }

  lemma {:induction false} RoomAtTop(stage: FileSystem, p: Path, node: Node, es: Entries)
    requires Closed(stage) && p != [] && Vacant(stage, p)
    ensures Room(Made(stage, Parent(p))[p := node], p, es)
  {
    var top := Made(stage, Parent(p))[p := node];
    forall name | HasName(es, name) ensures Vacant(top, p + [name]) {
      forall q | q in top ensures !(p + [name] <= q) {
        ChildIsPrefix(p, name, q);
        if q != p {
          NothingBelowMade(stage, p, q);
        }
      }
    }
  }

  lemma {:induction false} RoomAfterOne(stage: FileSystem, p: Path, es: Entries)
    requires es.Cons? && ValidEntries(es) && Room(stage, p, es)
    ensures Room(stage + Content(p + [es.name], es.tree), p, es.rest)
  {
    var c := p + [es.name];
    var next := stage + Content(c, es.tree);
    forall other | HasName(es.rest, other) ensures Vacant(next, p + [other]) {
      assert HasName(es, other) && Vacant(stage, p + [other]);
      forall q | q in next ensures !(p + [other] <= q) {
        ChildIsPrefix(p, other, q);
        if q in Content(c, es.tree) {
          ContentBelow(c, es.tree, q);
          ChildIsPrefix(p, es.name, q);
        }
      }
    }
  }

  /** Putting a whole tree where nothing is yet gives exactly that tree, and the directories above it. */
  lemma {:induction false} ExtractTree(stage: FileSystem, p: Path, t: Tree, made: FileSystem)
    requires Closed(stage) && Plain(p) && ValidTree(t) && PlainTree(t) && Vacant(stage, p) && Clear(stage, Parent(p))
    requires made == Made(stage, Parent(p))
    ensures Extract(stage, Walk(p, t)) == Ok(made + Content(p, t)) && Closed(made + Content(p, t))
    decreases t
  {
    var node := NodeOf(t);
    var top := made[p := node];
    PlaceWorks(stage, p, node, made);
    MadeIsClosedWith(stage, p, node, made);
    OneItem(stage, Item(p, node), top);
    match t
    case Leaf(_, _) =>
      LeafOverlay(made, p, t);
    case Branch(_, es) =>
      ExtractAppend(stage, [Item(p, node)], WalkEntries(p, es));
      RoomAtTop(stage, p, node, es);
      ExtractEntries(top, p, es);
      Overlay(made, p, t);
  }

  lemma {:induction false} LeafOverlay(fs: FileSystem, p: Path, t: Tree)
    requires t.Leaf?
    ensures fs + Content(p, t) == fs[p := NodeOf(t)]
  {
  }

  lemma {:induction false} OneItem(stage: FileSystem, item: Item, after: FileSystem)
    requires Place(stage, item) == Ok(after)
    ensures Extract(stage, [item]) == Ok(after)
  {
    assert [item][1..] == [];
  }

  lemma {:induction false} ChildIsPrefix(p: Path, name: string, q: Path)
    ensures p + [name] <= q ==> p <= q && |q| > |p| && q[|p|] == name
  {
    if p + [name] <= q {
      assert q[|p|] == (p + [name])[|p|];
      assert p == (p + [name])[..|p|] == q[..|p|];
    }
  }

  /** The directory itself is not one of its entries. */
  lemma {:induction false} Overlay(fs: FileSystem, p: Path, t: Tree)
    requires t.Branch?
    ensures fs[p := NodeOf(t)] + EntriesContent(p, t.entries) == fs + Content(p, t)
  {
    if p in EntriesContent(p, t.entries) {
      EntriesBelow(p, t.entries, p);
    }
  }

  lemma {:induction false} PlusPlus(a: FileSystem, b: FileSystem, c: FileSystem)
    ensures (a + b) + c == a + (b + c)
  {
  }

  lemma {:induction false} ExtractEntries(stage: FileSystem, p: Path, es: Entries)
    requires Closed(stage) && Plain(p) && ValidEntries(es) && PlainEntries(es) && p in stage && stage[p].Directory?
    requires Room(stage, p, es)
    ensures Extract(stage, WalkEntries(p, es)) == Ok(stage + EntriesContent(p, es))
    ensures Closed(stage + EntriesContent(p, es))
    decreases es
  {
    match es
    case Nil =>
      assert stage + EntriesContent(p, es) == stage;
    case Cons(name, t, rest) =>
      var c := p + [name];
      assert Parent(c) == p;
      PlainChild(p, name);
      ExistingIsClear(stage, p);
      assert HasName(es, name);
      ExtractTree(stage, c, t, stage);
      ExtractAppend(stage, Walk(c, t), WalkEntries(p, rest));
      RoomAfterOne(stage, p, es);
      NotInChild(p, name, t);
      ExtractEntries(stage + Content(c, t), p, rest);
      PlusPlus(stage, Content(c, t), EntriesContent(p, rest));
  }

  lemma {:induction false} NotInChild(p: Path, name: string, t: Tree)
    ensures p !in Content(p + [name], t)
  {
    if p in Content(p + [name], t) {
      ContentBelow(p + [name], t, p);
    }
  }

  // ---------------------------------------------------------------- the whole archive

  /** A tree and its place in the archive: writable data, a named volume or a bind mount. */
  datatype Root = Root(prefix: Path, tree: Tree)

  const STAGE: FileSystem := map[[] := Directory(DEFAULT_PERM)]

  function WalkAll(rs: seq<Root>): seq<Item> {
    if rs == [] then [] else WalkAll(rs[..|rs| - 1]) + Walk(rs[|rs| - 1].prefix, rs[|rs| - 1].tree)
  }

  ghost predicate NonNested(rs: seq<Root>) {
    forall i, j :: 0 <= i < j < |rs| ==> !Nested(rs[i].prefix, rs[j].prefix)
  }

  ghost predicate ValidRoots(rs: seq<Root>) {
    forall i :: 0 <= i < |rs| ==> Cleaned(rs[i].prefix) && ValidTree(rs[i].tree)
  }

  /** Nothing is the matter with the names in the tree. */
  ghost predicate PlainRoot(r: Root) { Plain(r.prefix) && PlainTree(r.tree) }

  ghost predicate PlainRoots(rs: seq<Root>) { forall i :: 0 <= i < |rs| ==> PlainRoot(rs[i]) }

  /** What is at or below `p`. */
  function Subtree(fs: FileSystem, p: Path): FileSystem { map q | q in fs && p <= q :: fs[q] }

  /** Every tree is back in its place, with nothing added to it. */
  ghost predicate Rebuilt(stage: FileSystem, rs: seq<Root>) {
    forall i :: 0 <= i < |rs| ==> Subtree(stage, rs[i].prefix) == Content(rs[i].prefix, rs[i].tree)
  }

  /** A staged path is part of a tree or a directory above one. */
  ghost predicate Explained(stage: FileSystem, rs: seq<Root>, q: Path)
    requires q in stage
  {
    (exists i :: 0 <= i < |rs| && rs[i].prefix <= q)
    || (stage[q].Directory? && exists i :: 0 <= i < |rs| && q <= rs[i].prefix)
  }

  /** So is everything staged. */
  ghost predicate OnlyRoots(stage: FileSystem, rs: seq<Root>) {
    && Closed(stage) && [] in stage && stage[[]].Directory?
    && forall q <- stage.Keys :: q != [] ==> Explained(stage, rs, q)
  }

  lemma {:induction false} Comparable(p: Path, q: Path, r: Path)
    requires p <= r && q <= r
    ensures Nested(p, q)
  {
    if |p| <= |q| {
      assert p == r[..|p|] == q[..|p|];
    } else {
      assert q == r[..|q|] == p[..|q|];
    }
  }

  /** A place that is not nested with any root so far is free. */
  lemma {:induction false} FreePlace(stage: FileSystem, rs: seq<Root>, p: Path)
    requires OnlyRoots(stage, rs) && p != [] && forall i :: 0 <= i < |rs| ==> !Nested(rs[i].prefix, p)
    ensures Vacant(stage, p)
    ensures forall q <- stage.Keys :: q <= p ==> stage[q].Directory?
  {
    forall q | q in stage && q != []
      ensures !(p <= q) && (q <= p ==> stage[q].Directory?)
    {
      if i :| 0 <= i < |rs| && rs[i].prefix <= q {
        if p <= q { Comparable(rs[i].prefix, p, q); }
      }
    }
  }

  lemma {:induction false} PrefixesAreClear(fs: FileSystem, p: Path, a: Path)
    requires a <= p && forall q <- fs.Keys :: q <= p ==> fs[q].Directory?
    ensures Clear(fs, a)
    decreases |a|
  {
    if a != [] {
      ParentIsPrefix(a);
      PrefixesAreClear(fs, p, Parent(a));
    }
  }

  lemma {:induction false} ClearAbove(fs: FileSystem, p: Path, a: Path)
    requires Clear(fs, p) && a <= p && a in fs
    ensures fs[a].Directory?
    decreases |p|
  {
    if a != p {
      assert a == p[..|a|] == Parent(p)[..|a|];
      ClearAbove(fs, Parent(p), a);
    }
  }

  lemma {:induction false} SubtreeOfNew(made: FileSystem, p: Path, t: Tree)
    requires forall q <- made.Keys :: !(p <= q)
    ensures Subtree(made + Content(p, t), p) == Content(p, t)
  {
    forall q | q in Content(p, t) ensures p <= q {
      ContentBelow(p, t, q);
    }
  }

  /** A tree and the directories above it change nothing at or below a place not nested with it. */
  lemma {:induction false} OldIsKept(stage: FileSystem, p: Path, t: Tree, after: FileSystem, other: Path, q: Path)
    requires Closed(stage) && p != [] && !Nested(p, other) && other <= q
    requires after == Made(stage, Parent(p)) + Content(p, t)
    ensures (q in after <==> q in stage) && (q in stage ==> after[q] == stage[q])
  {
    ParentIsPrefix(p);
    MadeAt(stage, Parent(p), q);
    if q in Content(p, t) {
      ContentBelow(p, t, q);
      Comparable(p, other, q);
    }
  }

  lemma {:induction false} SubtreeOfOld(stage: FileSystem, p: Path, t: Tree, other: Path)
    requires Closed(stage) && p != [] && !Nested(p, other)
    ensures Subtree(Made(stage, Parent(p)) + Content(p, t), other) == Subtree(stage, other)
  {
    var after := Made(stage, Parent(p)) + Content(p, t);
    forall q | other <= q ensures (q in after <==> q in stage) && (q in stage ==> after[q] == stage[q]) {
      OldIsKept(stage, p, t, after, other, q);
    }
  }

  lemma {:induction false} StillExplained(stage: FileSystem, rs: seq<Root>, after: FileSystem, all: seq<Root>, q: Path)
    requires q in stage && Explained(stage, rs, q) && q in after && after[q] == stage[q] && rs <= all
    ensures Explained(after, all, q)
  {
    if i :| 0 <= i < |rs| && rs[i].prefix <= q {
      assert all[i].prefix <= q;
    } else {
      var i :| 0 <= i < |rs| && q <= rs[i].prefix;
      assert q <= all[i].prefix;
    }
  }

  lemma {:induction false} NewIsExplained(stage: FileSystem, r: Root, after: FileSystem, all: seq<Root>, k: nat, q: Path)
    requires Closed(stage) && r.prefix != [] && k < |all| && all[k] == r
    requires after == Made(stage, Parent(r.prefix)) + Content(r.prefix, r.tree) && q in after
    ensures Explained(after, all, q) || (q in stage && after[q] == stage[q])
  {
    ParentIsPrefix(r.prefix);
    if q in Content(r.prefix, r.tree) {
      ContentBelow(r.prefix, r.tree, q);
    } else {
      MadeAt(stage, Parent(r.prefix), q);
    }
  }

  lemma {:induction false} OneMoreRoot(stage: FileSystem, rs: seq<Root>, r: Root, after: FileSystem)
    requires OnlyRoots(stage, rs) && r.prefix != [] && Closed(after)
    requires after == Made(stage, Parent(r.prefix)) + Content(r.prefix, r.tree)
    ensures OnlyRoots(after, rs + [r])
  {
    var all := rs + [r];
    RootIsKept(stage, r, after);
    forall q | q in after && q != [] ensures Explained(after, all, q) {
      NewIsExplained(stage, r, after, all, |rs|, q);
      if !Explained(after, all, q) {
        StillExplained(stage, rs, after, all, q);
      }
    }
  }

  lemma {:induction false} RootIsKept(stage: FileSystem, r: Root, after: FileSystem)
    requires Closed(stage) && [] in stage && stage[[]].Directory? && r.prefix != []
    requires after == Made(stage, Parent(r.prefix)) + Content(r.prefix, r.tree)
    ensures [] in after && after[[]].Directory?
  {
    MadeAt(stage, Parent(r.prefix), []);
    if [] in Content(r.prefix, r.tree) {
      ContentBelow(r.prefix, r.tree, []);
    }
  }

  lemma {:induction false} RebuildOneMore(before: FileSystem, rs: seq<Root>, r: Root, stage: FileSystem)
    requires OnlyRoots(before, rs) && Rebuilt(before, rs) && r.prefix != [] && Vacant(before, r.prefix)
    requires forall i :: 0 <= i < |rs| ==> !Nested(rs[i].prefix, r.prefix)
    requires stage == Made(before, Parent(r.prefix)) + Content(r.prefix, r.tree)
    ensures Rebuilt(stage, rs + [r])
  {
    var made := Made(before, Parent(r.prefix));
    forall q | q in made ensures !(r.prefix <= q) {
      NothingBelowMade(before, r.prefix, q);
    }
    SubtreeOfNew(made, r.prefix, r.tree);
    forall i | 0 <= i < |rs| ensures Subtree(stage, rs[i].prefix) == Content(rs[i].prefix, rs[i].tree) {
      SubtreeOfOld(before, r.prefix, r.tree, rs[i].prefix);
    }
  }

  lemma {:induction false} ExtractOneMore(before: FileSystem, rs: seq<Root>, r: Root) returns (stage: FileSystem)
    requires OnlyRoots(before, rs) && Rebuilt(before, rs) && PlainRoot(r) && ValidTree(r.tree)
    requires forall i :: 0 <= i < |rs| ==> !Nested(rs[i].prefix, r.prefix)
    ensures Extract(before, Walk(r.prefix, r.tree)) == Ok(stage)
    ensures Rebuilt(stage, rs + [r]) && OnlyRoots(stage, rs + [r])
  {
    var p, made := r.prefix, Made(before, Parent(r.prefix));
    FreePlace(before, rs, p);
    ParentIsPrefix(p);
    PrefixesAreClear(before, p, Parent(p));
    ExtractTree(before, p, r.tree, made);
    stage := made + Content(p, r.tree);
    RebuildOneMore(before, rs, r, stage);
    OneMoreRoot(before, rs, r, stage);
  }

  lemma {:induction false} FrontAndLast(rs: seq<Root>, front: seq<Root>, r: Root)
    requires ValidRoots(rs) && PlainRoots(rs) && NonNested(rs) && rs == front + [r]
    ensures ValidRoots(front) && PlainRoots(front) && NonNested(front) && PlainRoot(r) && ValidTree(r.tree)
    ensures forall i :: 0 <= i < |front| ==> !Nested(front[i].prefix, r.prefix)
  {
    assert rs[|front|] == r;
    assert forall i :: 0 <= i < |front| ==> rs[i] == front[i];
  }

  lemma {:induction false} WalkAllSnoc(front: seq<Root>, r: Root)
    ensures WalkAll(front + [r]) == WalkAll(front) + Walk(r.prefix, r.tree)
  {
    assert (front + [r])[..|front|] == front;
  }

  /** Trees with plain names in places that are not nested are rebuilt, without any error. */
  lemma {:induction false} NonNestedRebuilds(rs: seq<Root>) returns (stage: FileSystem)
    requires ValidRoots(rs) && PlainRoots(rs) && NonNested(rs)
    ensures Extract(STAGE, WalkAll(rs)) == Ok(stage) && Rebuilt(stage, rs) && OnlyRoots(stage, rs)
    decreases |rs|, 1
  {
    if rs == [] {
      stage := STAGE;
    } else {
      stage := RebuildsOneMore(rs, rs[..|rs| - 1], rs[|rs| - 1]);
    }
  }

  lemma {:induction false} RebuildsOneMore(rs: seq<Root>, front: seq<Root>, r: Root) returns (stage: FileSystem)
    requires ValidRoots(rs) && PlainRoots(rs) && NonNested(rs) && rs == front + [r]
    ensures Extract(STAGE, WalkAll(rs)) == Ok(stage) && Rebuilt(stage, rs) && OnlyRoots(stage, rs)
    decreases |rs|, 0
  {
    FrontAndLast(rs, front, r);
    var before := NonNestedRebuilds(front);
    stage := ExtractOneMore(before, front, r);
    WalkAllSnoc(front, r);
    ExtractAppend(STAGE, WalkAll(front), Walk(r.prefix, r.tree));
  }

  lemma {:induction false} WalkCovers(p: Path, t: Tree, q: Path) returns (k: nat)
    requires q in Content(p, t)
    ensures k < |Walk(p, t)| && Walk(p, t)[k].path == q
    decreases t
  {
    if q == p {
      k := 0;
    } else {
      k := EntriesCover(p, t.entries, q);
      k := k + 1;
    }
  }

  lemma {:induction false} EntriesCover(p: Path, es: Entries, q: Path) returns (k: nat)
    requires q in EntriesContent(p, es)
    ensures k < |WalkEntries(p, es)| && WalkEntries(p, es)[k].path == q
    decreases es
  {
    if q in EntriesContent(p, es.rest) {
      k := EntriesCover(p, es.rest, q);
      k := |Walk(p + [es.name], es.tree)| + k;
    } else {
      k := WalkCovers(p + [es.name], es.tree, q);
    }
  }
}
