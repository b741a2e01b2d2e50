/** Names in a backup archive: filepath.Clean, the checks on an entry's name (cmd/backup.go,
    internal/container/backup_safe.go), and the places of a container's trees. */
module ArchiveNames {
  import opened Wrappers

  /** A name cut at its slashes.  For a cleaned name, [] stands for ".". */
  type Path = seq<string>

  function Parent(p: Path): Path
    requires p != []
  {
    p[..|p| - 1]
  }

  predicate Nested(p: Path, q: Path) { p <= q || q <= p }

  // ---------------------------------------------------------------- filepath.Clean

  /** One more component; a rooted name does not climb above its root. */
  function CleanStep(rooted: bool, before: Path, c: string): Path {
    if c == "" || c == "." then before
    else if c != ".." then before + [c]
    else if before == [] then if rooted then [] else [".."]
    else if before[|before| - 1] == ".." then before + [".."]
    else Parent(before)
  }

  function Clean(rooted: bool, name: Path): Path {
    if name == [] then [] else CleanStep(rooted, Clean(rooted, Parent(name)), name[|name| - 1])
  }

  predicate Ordinary(c: string) { c != "" && c != "." && c != ".." }

  /** Components that name something. */
  predicate Names(p: Path) { forall i :: 0 <= i < |p| ==> Ordinary(p[i]) }

  predicate Climbs(p: Path) { p != [] && p[0] == ".." }

  /** A cleaned name climbs and then descends. */
  predicate Cleaned(p: Path) {
    && (forall i :: 0 <= i < |p| ==> p[i] != "" && p[i] != ".")
    && (forall i, j :: 0 <= i < j < |p| && p[j] == ".." ==> p[i] == "..")
  }

  lemma {:induction false} CleanIsCleaned(rooted: bool, name: Path)
    ensures Cleaned(Clean(rooted, name)) && (rooted ==> Names(Clean(rooted, name)))
    decreases |name|
  {
    if name != [] {
      CleanIsCleaned(rooted, Parent(name));
    }
  }

  lemma {:induction false} CleanedIsNames(p: Path)
    requires Cleaned(p) && !Climbs(p)
    ensures Names(p)
  {
  }

  lemma {:induction false} CleanIsDone(rooted: bool, p: Path)
    requires Cleaned(p) && (rooted ==> Names(p))
    ensures Clean(rooted, p) == p
    decreases |p|
  {
    if p != [] {
      CleanIsDone(rooted, Parent(p));
      if p[|p| - 1] == ".." && |p| > 1 {
        assert p[|p| - 2] == "..";
      }
    }
  }

  // ---------------------------------------------------------------- the name of an entry

  predicate HasBackslash(c: string) { '\\' in c }

  predicate NoBackslash(p: Path) { forall i :: 0 <= i < |p| ==> !HasBackslash(p[i]) }

  predicate Absolute(name: Path) { |name| > 1 && name[0] == "" }

  /** One of the three namespaces; a slash at the end makes no difference. */
  predicate Namespace(name: Path) { name != [] && (name[0] == "data" || name[0] == "volumes" || name[0] == "binds") }

  /** Where an entry of this name is put below the staging directory. */
  function SafeBackupPath(name: Path): Option<Path> {
    if name == [""] || Absolute(name) || !NoBackslash(name) then None
    else
      var clean := Clean(false, name);
      if clean == [] || Climbs(clean) then None else Some(clean)
  }

  /** How far below its start a name leads. */
  function Depth(name: Path): int {
    if name == [] then 0
    else
      var c := name[|name| - 1];
      Depth(Parent(name)) + if c == ".." then -1 else if Ordinary(c) then 1 else 0
  }

  ghost predicate NeverAbove(name: Path) { forall k :: 0 <= k <= |name| ==> Depth(name[..k]) >= 0 }

  lemma {:induction false} NeverAboveParent(name: Path)
    requires name != []
    ensures NeverAbove(name) <==> NeverAbove(Parent(name)) && Depth(name) >= 0
  {
    assert name[..|name|] == name;
    forall k | 0 <= k < |name| ensures name[..k] == Parent(name)[..k] {
    }
    if NeverAbove(Parent(name)) && Depth(name) >= 0 {
      forall k | 0 <= k <= |name| ensures Depth(name[..k]) >= 0 {
        if k < |name| {
          assert Depth(Parent(name)[..k]) >= 0;
        }
      }
    }
    if NeverAbove(name) {
      forall k | 0 <= k <= |Parent(name)| ensures Depth(Parent(name)[..k]) >= 0 {
        assert Depth(name[..k]) >= 0;
      }
    }
  }

  /** Cleaning counts: it climbs exactly if some beginning of the name does, and otherwise is as
      long as the name is deep. */
  lemma {:induction false} CleanCounts(name: Path)
    ensures Climbs(Clean(false, name)) <==> !NeverAbove(name)
    ensures NeverAbove(name) ==> |Clean(false, name)| == Depth(name) && Names(Clean(false, name))
    decreases |name|
  {
    if name == [] {
      assert name[..0] == [];
    } else {
      var before, c := Clean(false, Parent(name)), name[|name| - 1];
      CleanCounts(Parent(name));
      NeverAboveParent(name);
      CleanIsCleaned(false, Parent(name));
    }
  }

  /** An entry's name is safe if and only if it is relative, has no backslash, and counting its
      components never leads above the start, nor back to it in the end. */
  lemma {:induction false} SafeIff(name: Path)
    ensures SafeBackupPath(name).Some? <==>
              !Absolute(name) && NoBackslash(name) && NeverAbove(name) && Depth(name) > 0
  {
    CleanCounts(name);
    if name == [""] {
      assert Parent(name) == [];
    }
  }

  /** The longest beginning of the name that leads back to the start. */
  function LastTop(name: Path): (k: nat)
    ensures k <= |name|
  {
    if name == [] then 0 else if Depth(name) == 0 then |name| else LastTop(Parent(name))
  }

  lemma {:induction false} FirstComponent(name: Path)
    requires NeverAbove(name) && Depth(name) > 0
    ensures LastTop(name) < |name| && Clean(false, name) != [] && Clean(false, name)[0] == name[LastTop(name)]
    decreases |name|
  {
    var front, c := Parent(name), name[|name| - 1];
    NeverAboveParent(name);
    CleanCounts(name);
    CleanCounts(front);
    if Depth(front) > 0 {
      FirstComponent(front);
      assert Clean(false, name)[0] == Clean(false, front)[0];
    } else {
      assert Clean(false, front) == [] && Clean(false, name) == [c];
      TopOfItself(front);
    }
  }

  lemma {:induction false} TopOfItself(name: Path)
    requires Depth(name) == 0
    ensures LastTop(name) == |name|
  {
  }

  /** The namespace is read off the name as it is, but the entry is put at the cleaned name: in
      the namespace if and only if the component behind the last return to the start, if the
      name ever returns there, is that namespace again. */
  lemma {:induction false} StagedInNamespaceIff(name: Path)
    requires Namespace(name) && SafeBackupPath(name).Some?
    ensures LastTop(name) < |name|
    ensures SafeBackupPath(name).value[0] == name[0] <==> name[LastTop(name)] == name[0]
  {
    SafeIff(name);
    FirstComponent(name);
  }

  /** What leads back to the start is forgotten. */
  lemma {:induction false} CleanBehind(back: Path, rest: Path)
    requires Clean(false, back) == []
    ensures Clean(false, back + rest) == Clean(false, rest)
    decreases |rest|
  {
    if rest == [] {
      assert back + rest == back;
    } else {
      assert Parent(back + rest) == back + Parent(rest);
      CleanBehind(back, Parent(rest));
    }
  }

  lemma {:induction false} UpAgain(head: string)
    requires Ordinary(head)
    ensures Clean(false, [head, ".."]) == []
  {
    assert Parent([head, ".."]) == [head] && Parent([head]) == [];
    assert Clean(false, [head]) == [head];
  }

  lemma {:induction false} NoBackslashBehind(back: Path, rest: Path)
    requires NoBackslash(back) && NoBackslash(rest)
    ensures NoBackslash(back + rest)
  {
  }

  /** So "data/../evil" is put outside all namespaces, and "data/../volumes/a" in another one. */
  lemma {:induction false} NamespaceCanBeLeft(rest: Path, name: Path)
    requires rest != [] && Names(rest) && NoBackslash(rest) && name == ["data", ".."] + rest
    ensures Namespace(name) && SafeBackupPath(name) == Some(rest)
  {
    UpAgain("data");
    CleanBehind(["data", ".."], rest);
    CleanIsDone(false, rest);
    NoBackslashBehind(["data", ".."], rest);
  }

  /** Nothing is the matter with this name. */
  predicate Plain(p: Path) { Namespace(p) && Names(p) && NoBackslash(p) }

  /** Then it is put where it says. */
  lemma {:induction false} PlainIsSafe(p: Path)
    requires Plain(p)
    ensures SafeBackupPath(p) == Some(p)
  {
    CleanIsDone(false, p);
  }

  /** And of cleaned names only these are put anywhere. */
  lemma {:induction false} SafeIsPlain(p: Path)
    requires Cleaned(p) && Namespace(p) && SafeBackupPath(p).Some?
    ensures Plain(p)
  {
    CleanedIsNames(p);
  }

  lemma {:induction false} PlainChild(p: Path, name: string)
    requires Plain(p) && Ordinary(name) && !HasBackslash(name)
    ensures Plain(p + [name])
  {
  }

  // ---------------------------------------------------------------- where trees are kept

  /** What a tree of the container is: its writable layer, a named volume (any source without a
      slash and backslash, also none), or a bind mount, known by its target cut at the slashes. */
  datatype Part = Writable | NamedVolume(source: string) | BindMount(target: Path)

  /** The target without its first slash; "/" is kept as "root". */
  function BindTarget(target: Path): Path {
    var clean := Clean(Absolute(target), target);
    if clean == [] then ["root"] else clean
  }

  /** The place of a tree in the archive, as filepath.Join makes it. */
  function PlaceOf(part: Part): Path {
    match part
    case Writable => ["data"]
    case NamedVolume(source) => Clean(false, ["volumes", source])
    case BindMount(target) => Clean(false, ["binds"] + BindTarget(target))
  }

  /** A mount without a source, as every tmpfs is, has the place of all volumes. */
  predicate AllVolumes(part: Part) { part == NamedVolume("") || part == NamedVolume(".") }

  predicate WholeArchive(part: Part) { part == NamedVolume("..") }

  /** A container is only started with absolute bind targets. */
  predicate AbsoluteTarget(part: Part) { part.BindMount? ==> Absolute(part.target) }

  lemma {:induction false} PlaceOfVolume(source: string)
    ensures PlaceOf(NamedVolume(source)) ==
            if source == "" || source == "." then ["volumes"] else if source == ".." then [] else ["volumes", source]
  {
    assert Parent(["volumes", source]) == ["volumes"] && Parent(["volumes"]) == [];
    assert Clean(false, ["volumes"]) == ["volumes"];
  }

  /** A bind mount with an absolute target is kept below "binds"; one with a target that climbs,
      outside it. */
  lemma {:induction false} PlaceOfBind(target: Path)
    ensures var t := BindTarget(target);
            t != [] && PlaceOf(BindMount(target)) == if Climbs(t) then t[1..] else ["binds"] + t
    ensures Absolute(target) ==> !Climbs(BindTarget(target))
  {
    CleanIsCleaned(Absolute(target), target);
    var t := BindTarget(target);
    if Climbs(t) {
      assert ["binds"] + t == ["binds", ".."] + t[1..];
      UpAgain("binds");
      CleanBehind(["binds", ".."], t[1..]);
      CleanIsDone(false, t[1..]);
    } else {
      CleanedIsNames(t);
      CleanIsDone(false, ["binds"] + t);
    }
  }

  lemma {:induction false} PlaceIsCleaned(part: Part)
    ensures Cleaned(PlaceOf(part))
  {
    match part
    case Writable =>
    case NamedVolume(source) => CleanIsCleaned(false, ["volumes", source]);
    case BindMount(target) => CleanIsCleaned(false, ["binds"] + BindTarget(target));
  }

  lemma {:induction false} NestedBelow(head: string, p: Path, q: Path)
    ensures Nested([head] + p, [head] + q) <==> Nested(p, q)
  {
    assert ([head] + p)[1..] == p && ([head] + q)[1..] == q;
    if p <= q { assert [head] + p <= [head] + q; }
    if q <= p { assert [head] + q <= [head] + p; }
    if [head] + p <= [head] + q { assert p == ([head] + q)[1..|p| + 1] == q[..|p|]; }
    if [head] + q <= [head] + p { assert q == ([head] + p)[1..|q| + 1] == p[..|q|]; }
  }

  /** Two parts get in each other's way in the archive exactly when they are the same writable
      layer or named volume, or bind mounts one of whose targets contains the other, or named
      volumes of which one has no source of its own, or one is "..". */
  lemma {:induction false} PartsNest(a: Part, b: Part)
    requires AbsoluteTarget(a) && AbsoluteTarget(b)
    ensures Nested(PlaceOf(a), PlaceOf(b)) <==>
            WholeArchive(a) || WholeArchive(b) ||
            match a
            case Writable => b.Writable?
            case NamedVolume(_) => b.NamedVolume? && (b == a || AllVolumes(a) || AllVolumes(b))
            case BindMount(target) => b.BindMount? && Nested(BindTarget(target), BindTarget(b.target))
  {
    KindOfPlace(a);
    KindOfPlace(b);
    var p, q := PlaceOf(a), PlaceOf(b);
    assert p != [] && q != [] && Nested(p, q) ==> p[0] == q[0];
    if a.BindMount? && b.BindMount? {
      NestedBelow("binds", BindTarget(a.target), BindTarget(b.target));
    }
    if a.NamedVolume? && b.NamedVolume? {
      assert |p| == 2 && |q| == 2 ==> p[1] == a.source && q[1] == b.source;
    }
  }

  lemma {:induction false} KindOfPlace(part: Part)
    requires AbsoluteTarget(part)
    ensures PlaceOf(part) == [] <==> WholeArchive(part)
    ensures !WholeArchive(part) ==>
              PlaceOf(part)[0] == if part.Writable? then "data" else if part.NamedVolume? then "volumes" else "binds"
    ensures part.NamedVolume? && !WholeArchive(part) ==>
              PlaceOf(part) == if AllVolumes(part) then ["volumes"] else ["volumes", part.source]
    ensures part.BindMount? ==> PlaceOf(part) == ["binds"] + BindTarget(part.target)
  {
    if part.NamedVolume? {
      PlaceOfVolume(part.source);
    } else if part.BindMount? {
      PlaceOfBind(part.target);
    }
  }
}
