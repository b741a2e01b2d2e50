/** Applying staged trees to their destinations (cmd/backup.go). */
module Restore {
  import opened ArchiveNames
  import opened Backup
  import opened Wrappers

  /** One step of filepath.Walk over the staged tree; a file is written beside its target and renamed. */
  function ApplyItem(fs: FileSystem, item: Item): Result<FileSystem, Error> {
    match item.node
    case Directory(_) =>
      (match MkdirAll(fs, item.path)
       case None => Err(NotADirectory)
       case Some(made) => Ok(made[item.path := item.node]))
    case File(_, _) =>
      if item.path == [] || Parent(item.path) !in fs || fs[Parent(item.path)].File? then Err(NotADirectory)
      else if item.path in fs && fs[item.path].Directory? then Err(IsADirectory)
      else Ok(fs[item.path := item.node])
  }

  function ApplyItems(fs: FileSystem, items: seq<Item>): Result<FileSystem, Error>
    decreases |items|
  {
    if items == [] then Ok(fs)
    else match ApplyItem(fs, items[0])
      case Err(e) => Err(e)
      case Ok(next) => ApplyItems(next, items[1..])
  }

  function ApplyTree(fs: FileSystem, destination: Path, t: Tree): Result<FileSystem, Error> {
    match MkdirAll(fs, destination)
    case None => Err(NotADirectory)
    case Some(made) => ApplyItems(made, Walk(destination, t))
  }

  lemma {:induction false} ApplyAppend(fs: FileSystem, a: seq<Item>, b: seq<Item>)
    ensures ApplyItems(fs, a + b) ==
            match ApplyItems(fs, a) case Err(e) => Err(e) case Ok(next) => ApplyItems(next, b)
    decreases |a|
  {
    if a == [] {
      assert ApplyItems(fs, a + b) == ApplyItems(fs, b) by { assert a + b == b; }
    } else {
      assert (a + b)[0] == a[0] && (a + b)[1..] == a[1..] + b;
      match ApplyItem(fs, a[0])
      case Err(_) =>
      case Ok(next) => ApplyAppend(next, a[1..], b);
    }
  }

  lemma {:induction false} ApplyOne(fs: FileSystem, item: Item)
    ensures ApplyItems(fs, [item]) == ApplyItem(fs, item)
  {
    assert [item][1..] == [];
  }

  /** Where something of the new content already exists, it is of the same kind. */
  ghost predicate Fits(fs: FileSystem, content: FileSystem) {
    forall q <- content.Keys :: q in fs ==> (fs[q].Directory? <==> content[q].Directory?)
  }

  /** Applied or refused: the file system overridden by the content exactly when the content fits. */
  ghost predicate Overrides(outcome: Result<FileSystem, Error>, fs: FileSystem, content: FileSystem) {
    && (outcome.Ok? <==> Fits(fs, content))
    && (outcome.Ok? ==> outcome.value == fs + content && Closed(outcome.value))
  }

  lemma {:induction false} SetKeepsClosed(fs: FileSystem, p: Path, node: Node)
    requires Closed(fs) && p != [] && Parent(p) in fs && fs[Parent(p)].Directory?
    requires p in fs ==> (fs[p].Directory? <==> node.Directory?)
    ensures Closed(fs[p := node])
  {
    ParentIsPrefix(p);
  }

  /** The first item of a tree below an existing directory. */
  lemma {:induction false} TopItem(fs: FileSystem, p: Path, node: Node)
    requires Closed(fs) && p != [] && Parent(p) in fs && fs[Parent(p)].Directory?
    ensures var top := ApplyItem(fs, Item(p, node));
            && (top.Ok? <==> (p in fs ==> (fs[p].Directory? <==> node.Directory?)))
            && (top.Ok? ==> top.value == fs[p := node] && Closed(top.value))
  {
    ExistingIsClear(fs, Parent(p));
    MkdirAllMakes(fs, p);
    SetTwice(fs, p, Directory(DEFAULT_PERM), node);
    if p in fs ==> (fs[p].Directory? <==> node.Directory?) {
      SetKeepsClosed(fs, p, node);
    }
  }

  lemma {:induction false} FitsSplits(fs: FileSystem, a: FileSystem, b: FileSystem)
    requires a.Keys !! b.Keys
    ensures Fits(fs, a + b) <==> Fits(fs, a) && Fits(fs + a, b)
    ensures (fs + a) + b == fs + (a + b)
  {
    if Fits(fs, a) && Fits(fs + a, b) {
      forall q | q in a + b && q in fs
        ensures fs[q].Directory? <==> (a + b)[q].Directory?
      {
        if q in b {
          assert q in fs + a;
        }
      }
    }
  }

  lemma {:induction false} SplitOverrides(fs: FileSystem, first: seq<Item>, a: FileSystem, second: seq<Item>, b: FileSystem)
    requires a.Keys !! b.Keys && Overrides(ApplyItems(fs, first), fs, a)
    requires ApplyItems(fs, first).Ok? ==> Overrides(ApplyItems(fs + a, second), fs + a, b)
    ensures Overrides(ApplyItems(fs, first + second), fs, a + b)
  {
    ApplyAppend(fs, first, second);
    FitsSplits(fs, a, b);
  }

  /** A tree applied below an existing directory. */
  lemma {:induction false} TreeOverrides(fs: FileSystem, p: Path, t: Tree)
    requires Closed(fs) && ValidTree(t) && p != [] && Parent(p) in fs && fs[Parent(p)].Directory?
    ensures Overrides(ApplyItems(fs, Walk(p, t)), fs, Content(p, t))
    decreases t
  {
    var node := NodeOf(t);
    var top := map[p := node];
    TopItem(fs, p, node);
    ApplyOne(fs, Item(p, node));
    assert fs + top == fs[p := node];
    assert Overrides(ApplyItems(fs, [Item(p, node)]), fs, top);
    match t
    case Leaf(_, _) =>
    case Branch(_, es) =>
      NotAmongEntries(p, es);
      if ApplyItems(fs, [Item(p, node)]).Ok? {
        EntriesOverride(fs + top, p, es, WalkEntries(p, es), EntriesContent(p, es));
      }
      SplitOverrides(fs, [Item(p, node)], top, WalkEntries(p, es), EntriesContent(p, es));
      assert top + EntriesContent(p, es) == Content(p, t);
  }

  lemma {:induction false} NotAmongEntries(p: Path, es: Entries)
    ensures p !in EntriesContent(p, es)
  {
    if p in EntriesContent(p, es) {
      EntriesBelow(p, es, p);
    }
  }

  lemma {:induction false} EntriesOverride(fs: FileSystem, p: Path, es: Entries, items: seq<Item>, content: FileSystem)
    requires Closed(fs) && ValidEntries(es) && p in fs && fs[p].Directory?
    requires items == WalkEntries(p, es) && content == EntriesContent(p, es)
    ensures Overrides(ApplyItems(fs, items), fs, content)
    decreases es
  {
    match es
    case Nil =>
      assert fs + map[] == fs;
    case Cons(name, t, rest) =>
      var c := p + [name];
      assert Parent(c) == p;
      TreeOverrides(fs, c, t);
      NotInChild(p, name, t);
      forall q | q in Content(c, t) ensures q !in EntriesContent(p, rest) {
        EntriesDisjoint(p, es, q);
      }
      if ApplyItems(fs, Walk(c, t)).Ok? {
        EntriesOverride(fs + Content(c, t), p, rest, WalkEntries(p, rest), EntriesContent(p, rest));
      }
      SplitOverrides(fs, Walk(c, t), Content(c, t), WalkEntries(p, rest), EntriesContent(p, rest));
  }

  /** A destination the tree can be applied to: the tree is a directory, nothing on the way to the
      destination is a file, and what exists below it is of the same kind. */
  ghost predicate Compatible(fs: FileSystem, destination: Path, t: Tree) {
    t.Branch? && Clear(fs, destination) && Fits(fs, Content(destination, t))
  }

  lemma {:induction false} FitsMade(fs: FileSystem, p: Path, t: Tree)
    requires Closed(fs) && t.Branch? && Clear(fs, p)
    ensures Fits(Made(fs, p), Content(p, t)) <==> Fits(fs, Content(p, t))
  {
    forall q | q in Content(p, t) && q != p
      ensures q in Made(fs, p) <==> q in fs
      ensures q in fs ==> Made(fs, p)[q] == fs[q]
    {
      ContentBelow(p, t, q);
      MadeAt(fs, p, q);
    }
    MadeAt(fs, p, p);
  }

  /** Applying a tree succeeds exactly on a compatible destination, and then overrides it. */
  lemma {:induction false} ApplyOverrides(fs: FileSystem, destination: Path, t: Tree)
    requires Closed(fs) && ValidTree(t) && destination != []
    ensures ApplyTree(fs, destination, t).Ok? <==> Compatible(fs, destination, t)
    ensures Compatible(fs, destination, t) ==>
              ApplyTree(fs, destination, t) == Ok(Made(fs, destination) + Content(destination, t))
              && Closed(Made(fs, destination) + Content(destination, t))
  {
    MkdirAllMakes(fs, destination);
    if Clear(fs, destination) {
      var made := Made(fs, destination);
      ClearMadeIsClosed(fs, destination);
      assert Parent(destination) in made && made[Parent(destination)].Directory?;
      TreeOverrides(made, destination, t);
      if t.Branch? {
        FitsMade(fs, destination, t);
      } else {
        assert destination in Content(destination, t) && destination in made;
      }
    }
  }

  /** Every path outside the tree and not on the way to it is as before; what is in the tree is
      the tree's. */
  lemma {:induction false} ApplyTouchesOnlyTheTree(fs: FileSystem, destination: Path, t: Tree, q: Path)
    requires Closed(fs) && ValidTree(t) && destination != [] && ApplyTree(fs, destination, t).Ok?
    ensures var after := ApplyTree(fs, destination, t).value;
            && (q in Content(destination, t) ==> q in after && after[q] == Content(destination, t)[q])
            && (q !in Content(destination, t) && q in fs ==> q in after && after[q] == fs[q])
            && (q in after ==> q in fs || q <= destination || q in Content(destination, t))
  {
    ApplyOverrides(fs, destination, t);
    MadeAt(fs, destination, q);
  }

  /** Applying again changes nothing. */
  lemma {:induction false} ApplyIsIdempotent(fs: FileSystem, destination: Path, t: Tree)
    requires Closed(fs) && ValidTree(t) && destination != [] && ApplyTree(fs, destination, t).Ok?
    ensures var after := ApplyTree(fs, destination, t).value;
            ApplyTree(after, destination, t) == Ok(after)
  {
    ApplyOverrides(fs, destination, t);
    var content := Content(destination, t);
    var after := Made(fs, destination) + content;
    assert destination in content && after[destination].Directory?;
    ExistingIsClear(after, destination);
    ApplyOverrides(after, destination, t);
    assert Made(after, destination) == after;
    assert after + content == after;
  }

  /** A bind mount of a single file is archived but can never be restored. */
  lemma {:induction false} SingleFileIsNeverRestored(fs: FileSystem, destination: Path, data: string, perm: int)
    requires Closed(fs) && destination != []
    ensures ApplyTree(fs, destination, Leaf(data, perm)).Err?
  {
    ApplyOverrides(fs, destination, Leaf(data, perm));
  }

  method ApplyBackupTree(fs: FileSystem, destination: Path, t: Tree) returns (result: Result<FileSystem, Error>)
    ensures result == ApplyTree(fs, destination, t)
  {
    var made := MkdirAll(fs, destination);
    if made.None? {
      return Err(NotADirectory);
    }
    var current := made.value;
    var items := Walk(destination, t);
    assert items[0..] == items;
    for i := 0 to |items|
      invariant ApplyItems(current, items[i..]) == ApplyItems(made.value, items)
    {
      assert items[i..][1..] == items[i + 1..];
      var step := ApplyItem(current, items[i]);
      if step.Err? {
        return Err(step.error);
      }
      current := step.value;
    }
    result := Ok(current);
  }

  // ---------------------------------------------------------------- restoring all trees

  datatype Target = Target(destination: Path, tree: Tree)

  /** The trees applied one after the other. */
  function RestoreAll(fs: FileSystem, ts: seq<Target>): Result<FileSystem, Error> {
    if ts == [] then Ok(fs)
    else match RestoreAll(fs, ts[..|ts| - 1])
      case Err(e) => Err(e)
      case Ok(mid) => ApplyTree(mid, ts[|ts| - 1].destination, ts[|ts| - 1].tree)
  }

  ghost predicate ValidTarget(t: Target) { ValidTree(t.tree) && t.destination != [] }

  ghost predicate ValidTargets(ts: seq<Target>) { forall i :: 0 <= i < |ts| ==> ValidTarget(ts[i]) }

  predicate DirectoryAt(fs: FileSystem, q: Path) { q in fs && fs[q].Directory? }

  predicate FileAt(fs: FileSystem, q: Path) { q in fs && fs[q].File? }

  /** Applying the tree needs a directory here: one of its own, its destination, or one on the way. */
  predicate NeedsDirectory(t: Target, q: Path) { q <= t.destination || DirectoryAt(Content(t.destination, t.tree), q) }

  predicate NeedsFile(t: Target, q: Path) { FileAt(Content(t.destination, t.tree), q) }

  ghost predicate WantedDirectory(fs: FileSystem, ts: seq<Target>, q: Path) {
    DirectoryAt(fs, q) || exists i :: 0 <= i < |ts| && NeedsDirectory(ts[i], q)
  }

  ghost predicate WantedFile(fs: FileSystem, ts: seq<Target>, q: Path) {
    FileAt(fs, q) || exists i :: 0 <= i < |ts| && NeedsFile(ts[i], q)
  }

  /** Nothing is both a directory and a file, for the file system and all trees together. */
  ghost predicate Agree(fs: FileSystem, ts: seq<Target>) {
    forall q :: !(WantedDirectory(fs, ts, q) && WantedFile(fs, ts, q))
  }

  /** The same for one tree. */
  ghost predicate Suits(fs: FileSystem, t: Target, q: Path) {
    !((DirectoryAt(fs, q) || NeedsDirectory(t, q)) && (FileAt(fs, q) || NeedsFile(t, q)))
  }

  lemma {:induction false} CompatibleSuits(fs: FileSystem, t: Target, q: Path)
    requires Closed(fs) && Compatible(fs, t.destination, t.tree)
    ensures Suits(fs, t, q)
  {
    if q in Content(t.destination, t.tree) {
      ContentBelow(t.destination, t.tree, q);
      assert q <= t.destination ==> q == t.destination;
    }
    if q <= t.destination && q in fs {
      ClearAbove(fs, t.destination, q);
    }
  }

  lemma {:induction false} SuitableIsCompatible(fs: FileSystem, t: Target)
    requires Closed(fs) && forall q :: Suits(fs, t, q)
    ensures Compatible(fs, t.destination, t.tree)
  {
    assert Suits(fs, t, t.destination);
    forall q | q in fs && q <= t.destination ensures fs[q].Directory? {
      assert Suits(fs, t, q);
    }
    PrefixesAreClear(fs, t.destination, t.destination);
    forall q | q in Content(t.destination, t.tree)
      ensures q in fs ==> (fs[q].Directory? <==> Content(t.destination, t.tree)[q].Directory?)
    {
      assert Suits(fs, t, q);
    }
  }

  /** The file system with one tree more. */
  function With(fs: FileSystem, t: Target): FileSystem { Made(fs, t.destination) + Content(t.destination, t.tree) }

  lemma {:induction false} WithAt(fs: FileSystem, t: Target, q: Path)
    requires Closed(fs) && Suits(fs, t, q)
    ensures DirectoryAt(With(fs, t), q) <==> DirectoryAt(fs, q) || NeedsDirectory(t, q)
    ensures FileAt(With(fs, t), q) <==> FileAt(fs, q) || NeedsFile(t, q)
  {
    MadeAt(fs, t.destination, q);
  }

  /** What the file system holds after the trees, by kind. */
  ghost predicate HasWanted(fs: FileSystem, ts: seq<Target>, after: FileSystem, q: Path) {
    (DirectoryAt(after, q) <==> WantedDirectory(fs, ts, q)) && (FileAt(after, q) <==> WantedFile(fs, ts, q))
  }

  lemma {:induction false} WantedSnoc(fs: FileSystem, front: seq<Target>, last: Target, ts: seq<Target>, q: Path)
    requires ts == front + [last]
    ensures WantedDirectory(fs, ts, q) <==> WantedDirectory(fs, front, q) || NeedsDirectory(last, q)
    ensures WantedFile(fs, ts, q) <==> WantedFile(fs, front, q) || NeedsFile(last, q)
  {
    assert ts[|front|] == last && forall i :: 0 <= i < |front| ==> ts[i] == front[i];
    if i :| 0 <= i < |front| && NeedsDirectory(front[i], q) {
      assert NeedsDirectory(ts[i], q);
    }
    if i :| 0 <= i < |front| && NeedsFile(front[i], q) {
      assert NeedsFile(ts[i], q);
    }
  }

  /** What the last of the trees that hold this path holds there. */
  function Winner(ts: seq<Target>, q: Path): Option<Node> {
    if ts == [] then None
    else
      var last := ts[|ts| - 1];
      var content := Content(last.destination, last.tree);
      if q in content then Some(content[q]) else Winner(ts[..|ts| - 1], q)
  }

  ghost predicate OnTheWay(ts: seq<Target>, q: Path) { exists i :: 0 <= i < |ts| && q <= ts[i].destination }

  /** Every path holds what the last tree with it holds, or else what was there; nothing else is
      new but directories on the way. */
  ghost predicate Delivered(fs: FileSystem, ts: seq<Target>, after: FileSystem) {
    forall q :: DeliveredAt(fs, ts, after, q)
  }

  ghost predicate DeliveredAt(fs: FileSystem, ts: seq<Target>, after: FileSystem, q: Path) {
    && (q in after <==> Winner(ts, q).Some? || q in fs || OnTheWay(ts, q))
    && (q in after ==>
          after[q] == if Winner(ts, q).Some? then Winner(ts, q).value
                      else if q in fs then fs[q] else Directory(DEFAULT_PERM))
  }

  lemma {:induction false} DeliveredSnoc(fs: FileSystem, front: seq<Target>, last: Target, ts: seq<Target>,
      mid: FileSystem, q: Path)
    requires ts == front + [last] && Closed(mid) && DeliveredAt(fs, front, mid, q)
    ensures DeliveredAt(fs, ts, With(mid, last), q)
  {
    assert ts[..|front|] == front && ts[|front|] == last;
    assert forall i :: 0 <= i < |front| ==> ts[i] == front[i];
    MadeAt(mid, last.destination, q);
    if i :| 0 <= i < |front| && q <= front[i].destination {
      assert q <= ts[i].destination;
    }
  }

  lemma {:induction false} RestoreSnoc(fs: FileSystem, front: seq<Target>, last: Target, ts: seq<Target>)
    requires ts == front + [last]
    ensures RestoreAll(fs, ts) ==
            match RestoreAll(fs, front) case Err(e) => Err(e) case Ok(mid) => ApplyTree(mid, last.destination, last.tree)
  {
    assert ts[..|front|] == front;
  }

  /** Any number of trees, nested or in the same place: restoring succeeds if and only if nothing
      is wanted both as a directory and as a file, and then the last tree wins. */
  lemma {:induction false} RestoreIff(fs: FileSystem, ts: seq<Target>)
    requires Closed(fs) && ValidTargets(ts)
    ensures RestoreAll(fs, ts).Ok? <==> Agree(fs, ts)
    ensures Agree(fs, ts) ==> Closed(RestoreAll(fs, ts).value) && Delivered(fs, ts, RestoreAll(fs, ts).value)
    ensures Agree(fs, ts) ==> forall q :: HasWanted(fs, ts, RestoreAll(fs, ts).value, q)
    decreases |ts|
  {
    if ts == [] {
      assert forall q :: DeliveredAt(fs, ts, fs, q) && HasWanted(fs, ts, fs, q);
    } else {
      var front, last := ts[..|ts| - 1], ts[|ts| - 1];
      assert ts == front + [last];
      RestoreIff(fs, front);
      RestoreSnoc(fs, front, last, ts);
      forall q ensures WantedDirectory(fs, ts, q) <==> WantedDirectory(fs, front, q) || NeedsDirectory(last, q)
               ensures WantedFile(fs, ts, q) <==> WantedFile(fs, front, q) || NeedsFile(last, q)
      {
        WantedSnoc(fs, front, last, ts, q);
      }
      if Agree(fs, front) {
        assert ValidTarget(last);
        OneMoreTree(fs, front, last, ts, RestoreAll(fs, front).value);
      }
    }
  }

  lemma {:induction false} OneMoreTree(fs: FileSystem, front: seq<Target>, last: Target, ts: seq<Target>, mid: FileSystem)
    requires ts == front + [last] && Closed(mid) && ValidTarget(last)
    requires Delivered(fs, front, mid) && forall q :: HasWanted(fs, front, mid, q)
    ensures var after := ApplyTree(mid, last.destination, last.tree);
            && (after.Ok? <==> Agree(fs, ts))
            && (after.Ok? ==> Closed(after.value) && Delivered(fs, ts, after.value)
                              && forall q :: HasWanted(fs, ts, after.value, q))
  {
    ApplyOverrides(mid, last.destination, last.tree);
    forall q ensures Suits(mid, last, q) <==> !(WantedDirectory(fs, ts, q) && WantedFile(fs, ts, q)) {
      WantedSnoc(fs, front, last, ts, q);
      assert HasWanted(fs, front, mid, q);
    }
    if Agree(fs, ts) {
      SuitableIsCompatible(mid, last);
    }
    if Compatible(mid, last.destination, last.tree) {
      assert ApplyTree(mid, last.destination, last.tree) == Ok(With(mid, last));
      forall q ensures Suits(mid, last, q) && HasWanted(fs, ts, With(mid, last), q) && DeliveredAt(fs, ts, With(mid, last), q) {
        CompatibleSuits(mid, last, q);
        WantedSnoc(fs, front, last, ts, q);
        WithAt(mid, last, q);
        assert HasWanted(fs, front, mid, q) && DeliveredAt(fs, front, mid, q);
        DeliveredSnoc(fs, front, last, ts, mid, q);
      }
      assert Delivered(fs, ts, With(mid, last));
    }
  }

  /** The winner, said without counting down: a tree that holds the path and has no later one. */
  lemma {:induction false} WinnerIsLast(ts: seq<Target>, q: Path, i: nat)
    requires i < |ts| && q in Content(ts[i].destination, ts[i].tree)
    ensures Winner(ts, q).Some?
    ensures (forall j :: i < j < |ts| ==> q !in Content(ts[j].destination, ts[j].tree)) ==>
              Winner(ts, q).value == Content(ts[i].destination, ts[i].tree)[q]
    decreases |ts|
  {
    if i < |ts| - 1 && q !in Content(ts[|ts| - 1].destination, ts[|ts| - 1].tree) {
      WinnerIsLast(ts[..|ts| - 1], q, i);
    }
  }

  ghost predicate Apart(ts: seq<Target>) {
    forall i, j :: 0 <= i < j < |ts| ==> !Nested(ts[i].destination, ts[j].destination)
  }

  lemma {:induction false} ApartTargetsSuit(a: Target, b: Target, q: Path)
    requires !Nested(a.destination, b.destination)
    ensures !(NeedsDirectory(a, q) && NeedsFile(b, q))
  {
    if NeedsFile(b, q) {
      ContentBelow(b.destination, b.tree, q);
      Through(b.destination, q, a.destination);
      if q in Content(a.destination, a.tree) {
        ContentBelow(a.destination, a.tree, q);
        Comparable(a.destination, b.destination, q);
      }
    }
  }

  lemma {:induction false} Through(p: Path, q: Path, r: Path)
    ensures p <= q && q <= r ==> p <= r
  {
    if p <= q && q <= r {
      assert p == q[..|p|] == r[..|p|];
    }
  }

  /** Trees whose destinations do not contain each other agree if and only if each can be applied by itself. */
  lemma {:induction false} ApartAgreeIff(fs: FileSystem, ts: seq<Target>)
    requires Closed(fs) && ValidTargets(ts) && Apart(ts)
    ensures Agree(fs, ts) <==> forall i :: 0 <= i < |ts| ==> Compatible(fs, ts[i].destination, ts[i].tree)
  {
    if Agree(fs, ts) {
      forall i | 0 <= i < |ts| ensures Compatible(fs, ts[i].destination, ts[i].tree) {
        forall q ensures Suits(fs, ts[i], q) {
          assert !(WantedDirectory(fs, ts, q) && WantedFile(fs, ts, q));
        }
        SuitableIsCompatible(fs, ts[i]);
      }
    }
    if forall i :: 0 <= i < |ts| ==> Compatible(fs, ts[i].destination, ts[i].tree) {
      forall q ensures !(WantedDirectory(fs, ts, q) && WantedFile(fs, ts, q)) {
        NoClash(fs, ts, q);
      }
    }
  }

  lemma {:induction false} NoClash(fs: FileSystem, ts: seq<Target>, q: Path)
    requires Closed(fs) && Apart(ts) && forall i :: 0 <= i < |ts| ==> Compatible(fs, ts[i].destination, ts[i].tree)
    ensures !(WantedDirectory(fs, ts, q) && WantedFile(fs, ts, q))
  {
    forall i | 0 <= i < |ts| ensures Suits(fs, ts[i], q) {
      CompatibleSuits(fs, ts[i], q);
    }
    forall i, j | 0 <= i < |ts| && 0 <= j < |ts| ensures !(NeedsDirectory(ts[i], q) && NeedsFile(ts[j], q)) {
      if i != j {
        ApartTargetsSuit(ts[i], ts[j], q);
      } else {
        assert Suits(fs, ts[i], q);
      }
    }
  }
}
