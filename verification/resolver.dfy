/** The rooted pathname walk of internal/overlayutil/util.go: symlink targets are
    spliced back into the pending components, an absolute target restarts at the
    root filesystem, and at most 255 links are followed.  The walk is related to
    `Eval`, a recursive resolver that has no link budget at all. */
module PathResolver {
  import opened Wrappers

  /** An absolute, cleaned pathname: its components below "/". */
  type Path = seq<string>

  /** `Sealed` is a directory that cannot be searched, `DeadLink` a link whose target cannot be read. */
  datatype Node = Directory | Sealed | File | Link(target: string) | DeadLink

  type FileSystem = map<Path, Node>

  datatype Stat = Missing | Plain | Symlink(target: string) | StatFailed | ReadFailed

  datatype Outcome = Inside(at: Path) | Escapes | TooManyLinks | LstatError | ReadlinkError

  const MAX_LINKS: nat := 255

  /** What lstat (then readlink) answers for `p`.  A missing ancestor is just "missing";
      a regular file or an unsearchable directory above `p` is an error. */
  function Lstat(fs: FileSystem, p: Path): Stat {
    if exists k :: 0 <= k < |p| && p[..k] in fs && fs[p[..k]] in {File, Sealed} then StatFailed
    else if p !in fs then Missing
    else match fs[p]
      case Link(target) => Symlink(target)
      case DeadLink => ReadFailed
      case _ => Plain
  }

  function Fields(s: string, word: string): (parts: seq<string>)
    requires '/' !in word
    ensures forall p <- parts :: p != "" && '/' !in p
  {
    var head := if word == "" then [] else [word];
    if s == "" then head
    else if s[0] == '/' then head + Fields(s[1..], "")
    else Fields(s[1..], word + [s[0]])
  }

  function SplitParts(s: string): seq<string> { Fields(s, "") }

  function Parent(p: Path): Path { if p == [] then [] else p[..|p| - 1] }

  predicate IsAbs(target: string) { target != "" && target[0] == '/' }

  /** Where the resolution of a link found in directory `dir` starts. */
  function LinkStart(root: Path, dir: Path, target: string): Path {
    if IsAbs(target) then root else dir
  }

  // ---------------------------------------------------------------- the recursive resolver

  /** The call tree of the recursive resolver; `Follow` resolves a link target completely
      before going on with the remaining components. */
  datatype Derivation =
    | Done
    | Stay(rest: Derivation)
    | Up(rest: Derivation)
    | Down(rest: Derivation)
    | Follow(inner: Derivation, rest: Derivation)

  function Links(d: Derivation): nat {
    match d
    case Done => 0
    case Stay(r) => Links(r)
    case Up(r) => Links(r)
    case Down(r) => Links(r)
    case Follow(i, r) => 1 + Links(i) + Links(r)
  }

  predicate IsName(part: string) { part != "" && part != "." && part != ".." }

  /** The directory reached from `cur` along `parts` by call tree `d`; `None` when `d` is not
      a call tree of a successful resolution. */
  function Eval(fs: FileSystem, root: Path, cur: Path, parts: seq<string>, d: Derivation): Option<Path>
    decreases d
  {
    if parts == [] then
      if d.Done? then Some(cur) else None
    else
      match d
      case Done => None
      case Stay(r) =>
        if parts[0] == "" || parts[0] == "." then Eval(fs, root, cur, parts[1..], r) else None
      case Up(r) =>
        if parts[0] == ".." && cur != root then Eval(fs, root, Parent(cur), parts[1..], r) else None
      case Down(r) =>
        if IsName(parts[0]) && Lstat(fs, cur + [parts[0]]) in {Missing, Plain}
        then Eval(fs, root, cur + [parts[0]], parts[1..], r) else None
      case Follow(i, r) =>
        if IsName(parts[0]) && Lstat(fs, cur + [parts[0]]).Symlink? then
          var target := Lstat(fs, cur + [parts[0]]).target;
          match Eval(fs, root, LinkStart(root, cur, target), SplitParts(target), i)
          case None => None
          case Some(mid) => Eval(fs, root, mid, parts[1..], r)
        else None
  }

  /** The recursive resolver succeeds on `path` below `root`, following at most 255 links. */
  ghost predicate Accepts(fs: FileSystem, root: Path, path: Path) {
    root <= path &&
    exists d :: Eval(fs, root, root, path[|root|..], d).Some? && Links(d) <= MAX_LINKS
  }

  // ---------------------------------------------------------------- the worklist walk

  /** The walk from (current, pending, links): one unfolding is one iteration of the loop. */
  function Walk(fs: FileSystem, root: Path, current: Path, pending: seq<string>, links: nat): Outcome
    requires links <= MAX_LINKS
    decreases MAX_LINKS - links, |pending|
  {
    if pending == [] then Inside(current)
    else
      var part, rest := pending[0], pending[1..];
      if part == "" || part == "." then Walk(fs, root, current, rest, links)
      else if part == ".." then
        if current == root then Escapes else Walk(fs, root, Parent(current), rest, links)
      else
        var next := current + [part];
        match Lstat(fs, next)
        case StatFailed => LstatError
        case Missing => Walk(fs, root, next, rest, links)
        case Plain => Walk(fs, root, next, rest, links)
        case ReadFailed => if links == MAX_LINKS then TooManyLinks else ReadlinkError
        case Symlink(target) =>
          if links == MAX_LINKS then TooManyLinks
          else Walk(fs, root, LinkStart(root, current, target), SplitParts(target) + rest, links + 1)
  }

  function Evaluate(fs: FileSystem, root: Path, path: Path): Outcome {
    if root <= path then Walk(fs, root, root, path[|root|..], 0) else Escapes
  }

  /** At or below the root, and no component below the root is a symlink. */
  ghost predicate Contained(fs: FileSystem, root: Path, p: Path) {
    root <= p && forall k :: |root| < k <= |p| ==> Lstat(fs, p[..k]) in {Missing, Plain}
  }

  lemma {:induction false} ContainedDown(fs: FileSystem, root: Path, p: Path, part: string)
    requires Contained(fs, root, p) && Lstat(fs, p + [part]) in {Missing, Plain}
    ensures Contained(fs, root, p + [part])
  {
    forall k | |root| < k <= |p| + 1
      ensures Lstat(fs, (p + [part])[..k]) in {Missing, Plain}
    {
      if k == |p| + 1 {
        assert (p + [part])[..k] == p + [part];
      } else {
        assert (p + [part])[..k] == p[..k];
      }
    }
  }

  lemma {:induction false} ContainedUp(fs: FileSystem, root: Path, p: Path)
    requires Contained(fs, root, p) && p != root
    ensures Contained(fs, root, Parent(p))
  {
    forall k | |root| < k <= |p| - 1
      ensures Lstat(fs, Parent(p)[..k]) in {Missing, Plain}
    {
      assert Parent(p)[..k] == p[..k];
    }
  }

  /** The loop of the source.  `current` never leaves the root and never has a symlink below it. */
  method EvaluateSafePath(fs: FileSystem, root: Path, path: Path) returns (outcome: Outcome)
    ensures outcome == Evaluate(fs, root, path)
    ensures outcome.Inside? ==> Contained(fs, root, outcome.at)
    ensures outcome.Inside? <==> Accepts(fs, root, path)
  {
    EvaluateIsAccepts(fs, root, path);
    if !(root <= path) {
      return Escapes;
    }
    var pending := path[|root|..];
    var current := root;
    var links: nat := 0;
    while pending != []
      invariant links <= MAX_LINKS
      invariant Contained(fs, root, current)
      invariant Walk(fs, root, current, pending, links) == Evaluate(fs, root, path)
      decreases MAX_LINKS - links, |pending|
    {
      var part := pending[0];
      pending := pending[1..];
      if part == "" || part == "." {
        continue;
      }
      if part == ".." {
        if current == root {
          return Escapes;
        }
        ContainedUp(fs, root, current);
        current := Parent(current);
        continue;
      }
      var next := current + [part];
      var info := Lstat(fs, next);
      if info == StatFailed {
        return LstatError;
      }
      if info == Missing || info == Plain {
        ContainedDown(fs, root, current, part);
        current := next;
        continue;
      }
      if links + 1 > MAX_LINKS {
        return TooManyLinks;
      }
      if info == ReadFailed {
        return ReadlinkError;
      }
      links := links + 1;
      current := LinkStart(root, Parent(next), info.target);
      pending := SplitParts(info.target) + pending;
    }
    outcome := Inside(current);
  }

  // ---------------------------------------------------------------- refinement

  /** Splicing is sequencing: the walk over `parts` first does what the recursive call would do. */
  lemma {:induction false} WalkFollowsDerivation(fs: FileSystem, root: Path, cur: Path,
      parts: seq<string>, rest: seq<string>, d: Derivation, links: nat)
    requires links <= MAX_LINKS && Eval(fs, root, cur, parts, d).Some?
    ensures Walk(fs, root, cur, parts + rest, links) ==
            if links + Links(d) <= MAX_LINKS
            then Walk(fs, root, Eval(fs, root, cur, parts, d).value, rest, links + Links(d))
            else TooManyLinks
    decreases d
  {
    if parts == [] {
      assert parts + rest == rest;
    } else {
      assert (parts + rest)[1..] == parts[1..] + rest;
      match d
      case Stay(r) => WalkFollowsDerivation(fs, root, cur, parts[1..], rest, r, links);
      case Up(r) => WalkFollowsDerivation(fs, root, Parent(cur), parts[1..], rest, r, links);
      case Down(r) => WalkFollowsDerivation(fs, root, cur + [parts[0]], parts[1..], rest, r, links);
      case Follow(i, r) =>
        if links < MAX_LINKS {
          var target := Lstat(fs, cur + [parts[0]]).target;
          var start := LinkStart(root, cur, target);
          var inner := SplitParts(target);
          WalkFollowsDerivation(fs, root, start, inner, parts[1..] + rest, i, links + 1);
          var mid := Eval(fs, root, start, inner, i).value;
          if links + 1 + Links(i) <= MAX_LINKS {
            WalkFollowsDerivation(fs, root, mid, parts[1..], rest, r, links + 1 + Links(i));
          }
        }
    }
  }

  /** A call tree over `a + b` is one over `a` followed by one over `b`. */
  lemma {:induction false} SplitDerivation(fs: FileSystem, root: Path, cur: Path,
      a: seq<string>, b: seq<string>, d: Derivation) returns (d1: Derivation, d2: Derivation)
    requires Eval(fs, root, cur, a + b, d).Some?
    ensures Eval(fs, root, cur, a, d1).Some?
    ensures Eval(fs, root, Eval(fs, root, cur, a, d1).value, b, d2) == Eval(fs, root, cur, a + b, d)
    ensures Links(d) == Links(d1) + Links(d2)
    decreases d
  {
    if a == [] {
      assert a + b == b;
      d1, d2 := Done, d;
    } else {
      assert (a + b)[1..] == a[1..] + b;
      match d
      case Stay(r) =>
        d1, d2 := SplitDerivation(fs, root, cur, a[1..], b, r);
        d1 := Stay(d1);
      case Up(r) =>
        d1, d2 := SplitDerivation(fs, root, Parent(cur), a[1..], b, r);
        d1 := Up(d1);
      case Down(r) =>
        d1, d2 := SplitDerivation(fs, root, cur + [a[0]], a[1..], b, r);
        d1 := Down(d1);
      case Follow(i, r) =>
        var target := Lstat(fs, cur + [a[0]]).target;
        var mid := Eval(fs, root, LinkStart(root, cur, target), SplitParts(target), i).value;
        d1, d2 := SplitDerivation(fs, root, mid, a[1..], b, r);
        d1 := Follow(i, d1);
    }
  }

  /** An accepting walk is a successful recursive resolution with the same end and link count. */
  lemma {:induction false} WalkBuildsDerivation(fs: FileSystem, root: Path, cur: Path,
      pending: seq<string>, links: nat) returns (d: Derivation)
    requires links <= MAX_LINKS && Walk(fs, root, cur, pending, links).Inside?
    ensures Eval(fs, root, cur, pending, d) == Some(Walk(fs, root, cur, pending, links).at)
    ensures links + Links(d) <= MAX_LINKS
    decreases MAX_LINKS - links, |pending|
  {
    if pending == [] {
      d := Done;
    } else {
      var part, rest := pending[0], pending[1..];
      if part == "" || part == "." {
        d := WalkBuildsDerivation(fs, root, cur, rest, links);
        d := Stay(d);
      } else if part == ".." {
        d := WalkBuildsDerivation(fs, root, Parent(cur), rest, links);
        d := Up(d);
      } else if Lstat(fs, cur + [part]) in {Missing, Plain} {
        d := WalkBuildsDerivation(fs, root, cur + [part], rest, links);
        d := Down(d);
      } else {
        var target := Lstat(fs, cur + [part]).target;
        var start := LinkStart(root, cur, target);
        var spliced := WalkBuildsDerivation(fs, root, start, SplitParts(target) + rest, links + 1);
        var inner, after := SplitDerivation(fs, root, start, SplitParts(target), rest, spliced);
        d := Follow(inner, after);
      }
    }
  }

  /** The walk accepts exactly the paths the recursive resolver resolves within 255 links. */
  lemma {:induction false} EvaluateIsAccepts(fs: FileSystem, root: Path, path: Path)
    ensures Evaluate(fs, root, path).Inside? <==> Accepts(fs, root, path)
  {
    if root <= path {
      var parts := path[|root|..];
      if Evaluate(fs, root, path).Inside? {
        var d := WalkBuildsDerivation(fs, root, root, parts, 0);
      }
      if d :| Eval(fs, root, root, parts, d).Some? && Links(d) <= MAX_LINKS {
        WalkFollowsDerivation(fs, root, root, parts, [], d, 0);
        assert parts + [] == parts;
      }
    }
  }

  /** There is at most one call tree, so "within 255 links" is a property of the path itself. */
  lemma {:induction false} DerivationIsUnique(fs: FileSystem, root: Path, cur: Path, parts: seq<string>,
      d: Derivation, d': Derivation)
    requires Eval(fs, root, cur, parts, d).Some? && Eval(fs, root, cur, parts, d').Some?
    ensures d == d'
    decreases d
  {
    if parts != [] {
      match d
      case Stay(r) => DerivationIsUnique(fs, root, cur, parts[1..], r, d'.rest);
      case Up(r) => DerivationIsUnique(fs, root, Parent(cur), parts[1..], r, d'.rest);
      case Down(r) => DerivationIsUnique(fs, root, cur + [parts[0]], parts[1..], r, d'.rest);
      case Follow(i, r) =>
        var target := Lstat(fs, cur + [parts[0]]).target;
        var start := LinkStart(root, cur, target);
        DerivationIsUnique(fs, root, start, SplitParts(target), i, d'.inner);
        var mid := Eval(fs, root, start, SplitParts(target), i).value;
        DerivationIsUnique(fs, root, mid, parts[1..], r, d'.rest);
    }
  }

  /** A path that resolves, but through more than 255 links, is refused for that reason. */
  lemma {:induction false} LongChainsAreTooManyLinks(fs: FileSystem, root: Path, path: Path, d: Derivation)
    requires root <= path && Eval(fs, root, root, path[|root|..], d).Some? && Links(d) > MAX_LINKS
    ensures Evaluate(fs, root, path) == TooManyLinks
  {
    WalkFollowsDerivation(fs, root, root, path[|root|..], [], d, 0);
    assert path[|root|..] + [] == path[|root|..];
  }

  /** A link whose target leads straight back to itself has no call tree of any size. */
  lemma {:induction false} SelfLinkNeverResolves(fs: FileSystem, root: Path, cur: Path, part: string,
      rest: seq<string>, d: Derivation)
    requires IsName(part) && Lstat(fs, cur + [part]).Symlink?
    requires !IsAbs(Lstat(fs, cur + [part]).target)
    requires SplitParts(Lstat(fs, cur + [part]).target) == [part]
    ensures Eval(fs, root, cur, [part] + rest, d).None?
    decreases d
  {
    if d.Follow? {
      assert [part] + [] == [part];
      SelfLinkNeverResolves(fs, root, cur, part, [], d.inner);
    }
  }

  /** The recursive resolver stays inside the root too, whatever the links say. */
  lemma {:induction false} EvalStaysContained(fs: FileSystem, root: Path, cur: Path, parts: seq<string>, d: Derivation)
    requires Contained(fs, root, cur) && Eval(fs, root, cur, parts, d).Some?
    ensures Contained(fs, root, Eval(fs, root, cur, parts, d).value)
    decreases d
  {
    if parts != [] {
      match d
      case Stay(r) => EvalStaysContained(fs, root, cur, parts[1..], r);
      case Up(r) =>
        ContainedUp(fs, root, cur);
        EvalStaysContained(fs, root, Parent(cur), parts[1..], r);
      case Down(r) =>
        ContainedDown(fs, root, cur, parts[0]);
        EvalStaysContained(fs, root, cur + [parts[0]], parts[1..], r);
      case Follow(i, r) =>
        var target := Lstat(fs, cur + [parts[0]]).target;
        var start := LinkStart(root, cur, target);
        EvalStaysContained(fs, root, start, SplitParts(target), i);
        EvalStaysContained(fs, root, Eval(fs, root, start, SplitParts(target), i).value, parts[1..], r);
    }
  }

  // ---------------------------------------------------------------- later tar entries

  /** `after` is `before` with directories created at paths that were missing. */
  ghost predicate OnlyDirectoriesAdded(before: FileSystem, after: FileSystem) {
    (forall p :: p in before ==> p in after && after[p] == before[p]) &&
    (forall p :: p in after && p !in before ==> after[p] == Directory)
  }

  lemma {:induction false} LstatAfterMkdir(before: FileSystem, after: FileSystem, p: Path)
    requires OnlyDirectoriesAdded(before, after)
    ensures Lstat(after, p) == Lstat(before, p) || (Lstat(before, p) == Missing && Lstat(after, p) == Plain)
  {
    if k :| 0 <= k < |p| && p[..k] in before && before[p[..k]] in {File, Sealed} {
      assert p[..k] in after && after[p[..k]] in {File, Sealed};
    }
    if k :| 0 <= k < |p| && p[..k] in after && after[p[..k]] in {File, Sealed} {
      assert p[..k] in before;
    }
  }

  /** Extracting an entry may create missing directories without changing any earlier answer. */
  lemma {:induction false} WalkIgnoresNewDirectories(before: FileSystem, after: FileSystem, root: Path,
      cur: Path, pending: seq<string>, links: nat)
    requires OnlyDirectoriesAdded(before, after) && links <= MAX_LINKS
    ensures Walk(before, root, cur, pending, links) == Walk(after, root, cur, pending, links)
    decreases MAX_LINKS - links, |pending|
  {
    if pending != [] {
      var part, rest := pending[0], pending[1..];
      if part == "" || part == "." {
        WalkIgnoresNewDirectories(before, after, root, cur, rest, links);
      } else if part == ".." {
        WalkIgnoresNewDirectories(before, after, root, Parent(cur), rest, links);
      } else {
        var next := cur + [part];
        LstatAfterMkdir(before, after, next);
        match Lstat(before, next)
        case Missing => WalkIgnoresNewDirectories(before, after, root, next, rest, links);
        case Plain => WalkIgnoresNewDirectories(before, after, root, next, rest, links);
        case Symlink(target) =>
          if links < MAX_LINKS {
            WalkIgnoresNewDirectories(before, after, root, LinkStart(root, cur, target),
                                      SplitParts(target) + rest, links + 1);
          }
        case _ =>
      }
    }
  }

  lemma {:induction false} EvaluateIgnoresNewDirectories(before: FileSystem, after: FileSystem, root: Path, path: Path)
    requires OnlyDirectoriesAdded(before, after)
    ensures Evaluate(before, root, path) == Evaluate(after, root, path)
    ensures Accepts(before, root, path) <==> Accepts(after, root, path)
  {
    if root <= path {
      WalkIgnoresNewDirectories(before, after, root, root, path[|root|..], 0);
    }
    EvaluateIsAccepts(before, root, path);
    EvaluateIsAccepts(after, root, path);
  }

  // ---------------------------------------------------------------- splitting

  function Slashed(parts: seq<string>): string {
    if parts == [] then "" else "/" + parts[0] + Slashed(parts[1..])
  }

  lemma {:induction false} FieldsReadsWord(word: string, w: string, tail: string)
    requires '/' !in word && '/' !in w
    ensures Fields(w + tail, word) == Fields(tail, word + w)
    decreases |w|
  {
    if w == "" {
      assert w + tail == tail && word + w == word;
    } else {
      assert (w + tail)[0] == w[0] && (w + tail)[1..] == w[1..] + tail;
      assert word + w == (word + [w[0]]) + w[1..];
      FieldsReadsWord(word + [w[0]], w[1..], tail);
    }
  }

  lemma {:induction false} FieldsUndoesSlashed(parts: seq<string>, word: string)
    requires '/' !in word && forall p <- parts :: p != "" && '/' !in p
    ensures Fields(Slashed(parts), word) == (if word == "" then [] else [word]) + parts
    decreases |parts|
  {
    if parts != [] {
      var s := parts[0] + Slashed(parts[1..]);
      assert Slashed(parts) == "/" + s;
      assert ("/" + s)[1..] == s;
      FieldsReadsWord("", parts[0], Slashed(parts[1..]));
      assert "" + parts[0] == parts[0];
      FieldsUndoesSlashed(parts[1..], parts[0]);
      assert [parts[0]] + parts[1..] == parts;
    }
  }

  /** Splitting a printed absolute path gives its components back. */
  lemma {:induction false} SplitPartsRoundTrip(parts: seq<string>)
    requires forall p <- parts :: p != "" && '/' !in p
    ensures SplitParts(Slashed(parts)) == parts
  {
    FieldsUndoesSlashed(parts, "");
  }
}
