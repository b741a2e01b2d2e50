/** `logs --tail n` of internal/container/logs.go: the file is read backwards in chunks of 4096
    bytes until n lines are complete.  The reader is related to "the last n lines of the file",
    for every file and every alignment of line breaks with chunk boundaries. */
module LogTail {
  import opened Splitting

  const BREAK := '\n'

  const CHUNK: nat := 4096

  function Last<T>(xs: seq<T>, n: nat): seq<T> { if |xs| <= n then xs else xs[|xs| - n..] }

  /** For a line start `p`: the line is empty and begins the file or a chunk counted from its end. */
  predicate Lost(file: string, p: nat)
    requires p < |file|
  {
    file[p] == BREAK && (p == 0 || (|file| - p) % CHUNK == 0)
  }

  /** The lines of the file from line start `p` on, without those. */
  function KeptFrom(file: string, p: nat): seq<string>
    requires p <= |file|
    decreases |file| - p
  {
    if p == |file| then []
    else (if Lost(file, p) then [] else [Rest(file, p)]) + KeptFrom(file, After(file, p))
  }

  function Kept(file: string): seq<string> { KeptFrom(file, 0) }

  /** The line that `o` is in, from `o` on, and where the next one starts. */
  function Rest(file: string, o: nat): string
    requires o <= |file|
  {
    PieceAt(BREAK, file, o, |file|)
  }

  function After(file: string, o: nat): (p: nat)
    requires o <= |file|
    ensures o <= p <= |file| && (o < |file| ==> o < p)
  {
    Next(BreakIn(BREAK, file, o, |file|), |file|)
  }

  // ---------------------------------------------------------------- one chunk

  /** Seen from `p`, the next line break is before `o` or it is the one that ends the line of `o`. */
  lemma {:induction false} BreakBeforeOrAt(file: string, p: nat, o: nat)
    requires p <= o <= |file|
    ensures var e, k := BreakIn(BREAK, file, o, |file|), BreakIn(BREAK, file, p, |file|);
            (k < o || k == e) && BreakIn(BREAK, file, p, e) == k && PieceAt(BREAK, file, p, e) == Rest(file, p)
    decreases o - p
  {
    if p < o {
      BreakBeforeOrAt(file, p + 1, o);
    } else {
      BreakStops(BREAK, file, p);
    }
  }

  /** `o` is a chunk boundary, or the beginning of the file. */
  predicate Aligned(size: nat, o: nat) { o <= size && (o == 0 || (size - o) % CHUNK == 0) }

  lemma {:induction false} AlignedBack(size: nat, o: nat)
    requires Aligned(size, o)
    ensures Aligned(size, if o < CHUNK then 0 else o - CHUNK)
  {
  }

  lemma {:induction false} NotABoundary(size: nat, p: nat, o: nat)
    requires p < o <= size && o - p < CHUNK && (size - o) % CHUNK == 0
    ensures (size - p) % CHUNK != 0
  {
  }

  lemma {:induction false} KeptUnfold(file: string, p: nat)
    requires p < |file|
    ensures KeptFrom(file, p) == (if Lost(file, p) then [] else [Rest(file, p)]) + KeptFrom(file, After(file, p))
  {
  }

  /** At a chunk boundary the line is kept unless it is empty. */
  lemma {:induction false} BoundaryLine(file: string, o: nat)
    requires o <= |file| && (|file| - o) % CHUNK == 0
    ensures var e := BreakIn(BREAK, file, o, |file|);
            PiecesIn(BREAK, file, o, e) + KeptFrom(file, After(file, o)) == KeptFrom(file, o)
  {
    var e := BreakIn(BREAK, file, o, |file|);
    BreakStops(BREAK, file, o);
    var rest := KeptFrom(file, After(file, o));
    Units(rest);
    Units([Rest(file, o)]);
    if o < e {
      assert PiecesIn(BREAK, file, o, e) == [Rest(file, o)];
      assert KeptFrom(file, o) == [Rest(file, o)] + rest;
    }
  }

  lemma {:induction false} OpenLine(file: string, q: nat, e: nat)
    requires q < e <= |file| && BreakIn(BREAK, file, q, e) == e && PieceAt(BREAK, file, q, e) == Rest(file, q)
    requires BreakIn(BREAK, file, q, |file|) == e && !Lost(file, q)
    ensures PiecesIn(BREAK, file, q, e) + KeptFrom(file, After(file, q)) == KeptFrom(file, q)
  {
    Units([Rest(file, q)]);
    PiecesUnfold(BREAK, file, q, e);
    assert PiecesIn(BREAK, file, e, e) == [];
    KeptUnfold(file, q);
  }

  /** `q` is a line start less than a chunk before the chunk boundary `o`: splitting what lies
      between `q` and the end of the line of `o` finds the kept lines up to there. */
  lemma {:induction false} PartsAreKept(file: string, q: nat, o: nat)
    requires 0 < q <= o <= |file| && o - q < CHUNK && (|file| - o) % CHUNK == 0
    ensures var e := BreakIn(BREAK, file, o, |file|);
            PiecesIn(BREAK, file, q, e) + KeptFrom(file, After(file, o)) == KeptFrom(file, q)
    decreases o - q
  {
    var e := BreakIn(BREAK, file, o, |file|);
    if q == o {
      BoundaryLine(file, o);
    } else {
      BreakBeforeOrAt(file, q, o);
      NotABoundary(|file|, q, o);
      assert !Lost(file, q);
      var k := BreakIn(BREAK, file, q, |file|);
      var after := KeptFrom(file, After(file, o));
      KeptUnfold(file, q);
      PiecesUnfold(BREAK, file, q, e);
      if k < o {
        PartsAreKept(file, k + 1, o);
        Glue([Rest(file, q)], PiecesIn(BREAK, file, k + 1, e), after, KeptFrom(file, k + 1),
             PiecesIn(BREAK, file, q, e), KeptFrom(file, q));
      } else {
        OpenLine(file, q, e);
      }
    }
  }

  lemma {:induction false} ChunkLines(file: string, o: nat, o': nat)
    requires o < o' <= |file|
    ensures Pieces(BREAK, file[o..o'] + Rest(file, o')) == PiecesIn(BREAK, file, o, BreakIn(BREAK, file, o', |file|))
  {
    var e := BreakIn(BREAK, file, o', |file|);
    PieceIsSlice(BREAK, file, o', |file|);
    assert file[o..o'] + file[o'..e] == file[o..e];
    AgreesInside(file, o, e, 0);
    PiecesAgree(BREAK, file[o..e], 0, file, o, e);
  }

  /** Reading the chunk between `o` and `o'` in front of the open line of `o'`. */
  lemma {:induction false} ChunkStep(file: string, o: nat, o': nat)
    requires o < o' <= |file| && o' - o <= CHUNK && Aligned(|file|, o')
    ensures var parts := Pieces(BREAK, file[o..o'] + Rest(file, o'));
            parts != [] && parts[0] == Rest(file, o)
            && parts[1..] + KeptFrom(file, After(file, o')) == KeptFrom(file, After(file, o))
  {
    var e := BreakIn(BREAK, file, o', |file|);
    ChunkLines(file, o, o');
    BreakBeforeOrAt(file, o, o');
    var k := BreakIn(BREAK, file, o, |file|);
    assert PiecesIn(BREAK, file, o, e)[1..] == PiecesIn(BREAK, file, Next(k, e), e);
    if k < o' {
      PartsAreKept(file, k + 1, o');
    } else {
      Units(KeptFrom(file, After(file, o')));
    }
  }

  /** The complete lines found so far are the last ones of the file. */
  lemma {:induction false} FoundAreLast(file: string, p: nat, o: nat) returns (before: seq<string>)
    requires p <= o <= |file|
    ensures KeptFrom(file, p) == before + KeptFrom(file, After(file, o))
    decreases o - p
  {
    BreakBeforeOrAt(file, p, o);
    var k := BreakIn(BREAK, file, p, |file|);
    if p == |file| {
      before := [];
      Units(KeptFrom(file, p));
    } else {
      KeptUnfold(file, p);
      var head := if Lost(file, p) then [] else [Rest(file, p)];
      if k < o {
        var more := FoundAreLast(file, k + 1, o);
        before := head + more;
        Glue(head, more, KeptFrom(file, After(file, o)), KeptFrom(file, k + 1), before, KeptFrom(file, p));
      } else {
        before := head;
      }
    }
  }

  // ---------------------------------------------------------------- the reader

  /** `lines` holds the last ones of `all`, up to n, last one first. */
  ghost predicate Backwards(lines: seq<string>, all: seq<string>, n: nat) {
    && |lines| == (if |all| <= n then |all| else n)
    && forall k :: 0 <= k < |lines| ==> lines[k] == all[|all| - 1 - k]
  }

  lemma {:induction false} BackwardsPush(lines: seq<string>, x: string, all: seq<string>, n: nat)
    requires Backwards(lines, all, n) && |lines| < n
    ensures Backwards(lines + [x], [x] + all, n)
  {
  }

  lemma {:induction false} BackwardsFull(lines: seq<string>, before: seq<string>, all: seq<string>, n: nat)
    requires Backwards(lines, all, n) && |lines| == n
    ensures Backwards(lines, before + all, n)
  {
  }

  lemma {:induction false} BackwardsPrinted(lines: seq<string>, all: seq<string>, n: nat, printed: seq<string>)
    requires Backwards(lines, all, n) && |printed| == |lines|
    requires forall k :: 0 <= k < |printed| ==> printed[k] == lines[|lines| - 1 - k]
    ensures printed == Last(all, n)
  {
  }

  lemma {:induction false} FromDrop(parts: seq<string>, i: nat)
    requires i < |parts|
    ensures parts[i..] == [parts[i]] + parts[i + 1..]
  {
  }

  /** Reads `readSize` bytes at `offset` and splits them together with what was left over. */
  method ReadParts(file: string, offset: nat, readSize: nat, leftover: string) returns (parts: seq<string>)
    requires 0 < readSize <= CHUNK && Aligned(|file|, offset + readSize) && leftover == Rest(file, offset + readSize)
    ensures parts != [] && parts[0] == Rest(file, offset)
    ensures parts[1..] + KeptFrom(file, After(file, offset + readSize)) == KeptFrom(file, After(file, offset))
  {
    ChunkStep(file, offset, offset + readSize);
    var chunk := file[offset..offset + readSize];
    parts := Split(BREAK, chunk + leftover);
  }

  /** What is printed, for every file and every n. */
  method PrintTail(file: string, n: nat) returns (printed: seq<string>)
    ensures printed == Last(Kept(file), n)
  {
    var size := |file|;
    var lines: seq<string> := [];
    var offset: nat := size;
    var leftover := "";
    while offset > 0 && |lines| < n
      invariant Aligned(size, offset)
      invariant leftover == Rest(file, offset)
      invariant Backwards(lines, KeptFrom(file, After(file, offset)), n)
      decreases offset
    {
      ghost var found := KeptFrom(file, After(file, offset));
      var readSize: nat := if offset < CHUNK then offset else CHUNK;
      AlignedBack(size, offset);
      offset := offset - readSize;
      var parts := ReadParts(file, offset, readSize, leftover);
      leftover := parts[0];
      lines := PushParts(lines, parts, n, found);
    }
    Finish(file, lines, offset, n);
    if |lines| < n && leftover != "" {
      lines := lines + [leftover];
    }
    printed := PrintReversed(lines);
    BackwardsPrinted(lines, Kept(file), n, printed);
  }

  method PrintReversed(lines: seq<string>) returns (printed: seq<string>)
    ensures |printed| == |lines|
    ensures forall k :: 0 <= k < |printed| ==> printed[k] == lines[|lines| - 1 - k]
  {
    printed := [];
    var i := |lines| - 1;
    while i >= 0
      invariant -1 <= i < |lines|
      invariant |printed| == |lines| - 1 - i
      invariant forall k :: 0 <= k < |printed| ==> printed[k] == lines[|lines| - 1 - k]
    {
      printed := printed + [lines[i]];
      i := i - 1;
    }
  }

  /** When the reader stops, the open line is the only one that can be missing. */
  lemma {:induction false} Finish(file: string, lines: seq<string>, offset: nat, n: nat)
    requires offset <= |file| && Backwards(lines, KeptFrom(file, After(file, offset)), n)
    requires offset == 0 || |lines| == n
    ensures Backwards(if |lines| < n && Rest(file, offset) != "" then lines + [Rest(file, offset)] else lines, Kept(file), n)
  {
    var found := KeptFrom(file, After(file, offset));
    if |lines| == n {
      var before := FoundAreLast(file, 0, offset);
      BackwardsFull(lines, before, found, n);
    } else {
      WholeFile(file);
      Units(found);
      BackwardsPush(lines, Rest(file, offset), found, n);
    }
  }

  /** At offset 0 only the open line is missing, and it is printed unless it is empty. */
  lemma {:induction false} WholeFile(file: string)
    ensures Kept(file) == (if Rest(file, 0) != "" then [Rest(file, 0)] else []) + KeptFrom(file, After(file, 0))
  {
    if file == "" {
      Units<string>([]);
    }
  }

  /** The inner loop: every part but the first is complete. */
  method PushParts(known: seq<string>, parts: seq<string>, n: nat, ghost found: seq<string>) returns (lines: seq<string>)
    requires parts != [] && |known| < n && Backwards(known, found, n)
    ensures Backwards(lines, parts[1..] + found, n)
  {
    lines := known;
    var i := |parts| - 1;
    Units(found);
    while i > 0 && |lines| < n
      invariant 0 <= i < |parts|
      invariant Backwards(lines, parts[i + 1..] + found, n)
    {
      BackwardsPush(lines, parts[i], parts[i + 1..] + found, n);
      FromDrop(parts, i);
      Assoc([parts[i]], parts[i + 1..], found);
      lines := lines + [parts[i]];
      i := i - 1;
    }
    if i > 0 {
      BackwardsFull(lines, parts[1..i + 1], parts[i + 1..] + found, n);
      Assoc(parts[1..i + 1], parts[i + 1..], found);
      assert parts[1..] == parts[1..i + 1] + parts[i + 1..];
    }
  }

  // ---------------------------------------------------------------- exactly when nothing is lost

  /** Position `p` is an empty line that begins the file or a chunk counted from its end. */
  predicate LostLineAt(file: string, p: nat) {
    p < |file| && (p == 0 || file[p - 1] == BREAK) && Lost(file, p)
  }

  /** From line start `p` on, lines are lost iff some position is a lost line. */
  lemma {:induction false} LossFrom(file: string, p: nat)
    requires p <= |file| && (p == 0 || p == |file| || file[p - 1] == BREAK)
    ensures var kept, lines := KeptFrom(file, p), PiecesIn(BREAK, file, p, |file|);
            && (kept == lines || |kept| < |lines|)
            && (kept == lines <==> forall q :: p <= q < |file| ==> !LostLineAt(file, q))
    decreases |file| - p
  {
    if p < |file| {
      var k := BreakIn(BREAK, file, p, |file|);
      BreakFound(BREAK, file, p, |file|);
      forall q | p < q < Next(k, |file|) ensures !LostLineAt(file, q) {
        NoBreakBefore(BREAK, file, p, |file|, q - 1);
      }
      var n := Next(k, |file|);
      LossFrom(file, n);
      assert LostLineAt(file, p) <==> Lost(file, p);
      var rest, lines := KeptFrom(file, n), PiecesIn(BREAK, file, n, |file|);
      assert PiecesIn(BREAK, file, p, |file|) == [Rest(file, p)] + lines;
      assert KeptFrom(file, p) == (if Lost(file, p) then [] else [Rest(file, p)]) + rest;
      if rest != lines {
        var q :| n <= q < |file| && LostLineAt(file, q);
      }
    }
  }

  /** The reader prints the last n lines of the file for every n exactly when no empty line
      begins the file or a chunk counted from its end. */
  lemma {:induction false} TailIsLastLines(file: string)
    ensures (forall n: nat :: Last(Kept(file), n) == Last(Pieces(BREAK, file), n))
            <==> forall p :: 0 <= p < |file| ==> !LostLineAt(file, p)
  {
    LossFrom(file, 0);
    assert Last(Pieces(BREAK, file), |Pieces(BREAK, file)|) == Pieces(BREAK, file);
    assert Last(Kept(file), |Pieces(BREAK, file)|) == Kept(file);
  }

  lemma {:induction false} KeepsNonEmpty(file: string, p: nat)
    requires p <= |file| && "" !in PiecesIn(BREAK, file, p, |file|)
    ensures KeptFrom(file, p) == PiecesIn(BREAK, file, p, |file|)
    decreases |file| - p
  {
    if p < |file| {
      var rest := PiecesIn(BREAK, file, After(file, p), |file|);
      assert PiecesIn(BREAK, file, p, |file|) == [Rest(file, p)] + rest;
      assert Rest(file, p) != "";
      KeepsNonEmpty(file, After(file, p));
    }
  }

  /** In particular for every file without empty lines. */
  lemma {:induction false} NoEmptyLines(file: string, n: nat)
    requires "" !in Pieces(BREAK, file)
    ensures Last(Kept(file), n) == Last(Pieces(BREAK, file), n)
  {
    KeepsNonEmpty(file, 0);
  }

  // ---------------------------------------------------------------- and for one number of lines

  /** Which of the lines from line start `p` on are lost. */
  function LostFlags(file: string, p: nat): seq<bool>
    requires p <= |file|
    decreases |file| - p
  {
    if p == |file| then [] else [Lost(file, p)] + LostFlags(file, After(file, p))
  }

  function Without(lines: seq<string>, lost: seq<bool>): seq<string>
    requires |lost| == |lines|
  {
    if lines == [] then [] else (if lost[0] then [] else [lines[0]]) + Without(lines[1..], lost[1..])
  }

  /** Only empty lines are lost. */
  ghost predicate LosesEmpty(lines: seq<string>, lost: seq<bool>) {
    |lost| == |lines| && forall i :: 0 <= i < |lines| && lost[i] ==> lines[i] == ""
  }

  lemma {:induction false} KeptIsWithout(file: string, p: nat, lines: seq<string>, lost: seq<bool>)
    requires p <= |file| && lines == PiecesIn(BREAK, file, p, |file|) && lost == LostFlags(file, p)
    ensures LosesEmpty(lines, lost) && KeptFrom(file, p) == Without(lines, lost)
    decreases |file| - p
  {
    if p < |file| {
      var more, flags := PiecesIn(BREAK, file, After(file, p), |file|), LostFlags(file, After(file, p));
      KeptIsWithout(file, After(file, p), more, flags);
      assert lines == [Rest(file, p)] + more && lost == [Lost(file, p)] + flags;
      assert lines[1..] == more && lost[1..] == flags;
    }
  }

  /** How many lines stand behind the last one that is lost. */
  function CleanEnd(lost: seq<bool>): nat {
    if lost == [] then 0
    else
      var rest := CleanEnd(lost[1..]);
      if rest == |lost| - 1 && !lost[0] then rest + 1 else rest
  }

  /** The element with `j` others behind it. */
  function FromEnd(xs: seq<string>, j: nat): string
    requires j < |xs|
  {
    xs[|xs| - 1 - j]
  }

  lemma {:induction false} FromEndCons(x: string, xs: seq<string>, all: seq<string>, j: nat)
    requires all == [x] + xs && j <= |xs|
    ensures FromEnd(all, j) == if j < |xs| then FromEnd(xs, j) else x
  {
  }

  /** The clean end is kept, and only if it is everything, everything is. */
  lemma {:induction false} KeptSize(lines: seq<string>, lost: seq<bool>)
    requires |lost| == |lines|
    ensures var kept, c := Without(lines, lost), CleanEnd(lost);
            c <= |kept| <= |lines| && (c == |lines| ==> kept == lines) && (c < |lines| ==> |kept| < |lines|)
    decreases |lines|
  {
    if lines != [] {
      KeptSize(lines[1..], lost[1..]);
      assert lines == [lines[0]] + lines[1..];
    }
  }

  /** A line in the clean end is kept in its place; one before it is empty, or kept in a later one. */
  ghost predicate Moves(lines: seq<string>, kept: seq<string>, c: nat, j: nat, k: nat)
    requires j < |lines|
  {
    && (j < c ==> j < |kept| && FromEnd(kept, j) == FromEnd(lines, j))
    && (j >= c ==> FromEnd(lines, j) == "" || (c <= k < j && k < |kept| && FromEnd(kept, k) == FromEnd(lines, j)))
  }

  lemma {:induction false} MovesBehind(x: string, more: seq<string>, lines: seq<string>, kept: seq<string>, all: seq<string>,
      c: nat, d: nat, j: nat, k: nat)
    requires lines == [x] + more && (all == kept || all == [x] + kept) && j < |more| && Moves(more, kept, c, j, k)
    requires c == d || (d == c + 1 && c == |more|)
    ensures Moves(lines, all, d, j, k)
  {
    FromEndCons(x, more, lines, j);
    if all == [x] + kept {
      if j < |kept| { FromEndCons(x, kept, all, j); }
      if k < |kept| { FromEndCons(x, kept, all, k); }
    }
  }

  lemma {:induction false} MovesFirst(x: string, more: seq<string>, lines: seq<string>, kept: seq<string>, all: seq<string>,
      lost: bool, c: nat, d: nat)
    requires lines == [x] + more && all == (if lost then kept else [x] + kept) && (lost ==> x == "")
    requires c <= |kept| <= |more| && (c == |more| ==> kept == more) && (c < |more| ==> |kept| < |more|)
    requires d == if c == |more| && !lost then c + 1 else c
    ensures Moves(lines, all, d, |more|, |kept|)
  {
    FromEndCons(x, more, lines, |more|);
    if !lost {
      FromEndCons(x, kept, all, |kept|);
    }
  }

  lemma {:induction false} LosesEmptyCons(lines: seq<string>, lost: seq<bool>)
    requires lines != [] && LosesEmpty(lines, lost)
    ensures LosesEmpty(lines[1..], lost[1..]) && (lost[0] ==> lines[0] == "") && lines == [lines[0]] + lines[1..]
  {
  }

  lemma {:induction false} WithoutCons(lines: seq<string>, lost: seq<bool>, kept: seq<string>)
    requires lines != [] && |lost| == |lines| && kept == Without(lines[1..], lost[1..])
    ensures Without(lines, lost) == if lost[0] then kept else [lines[0]] + kept
    ensures var c := CleanEnd(lost[1..]);
            CleanEnd(lost) == if c == |lines| - 1 && !lost[0] then c + 1 else c
  {
    Units(kept);
  }

  lemma {:induction false} LineMoves(lines: seq<string>, lost: seq<bool>, j: nat) returns (k: nat)
    requires LosesEmpty(lines, lost) && j < |lines|
    ensures Moves(lines, Without(lines, lost), CleanEnd(lost), j, k)
    decreases |lines|
  {
    var more, flags := lines[1..], lost[1..];
    var kept, c := Without(more, flags), CleanEnd(flags);
    LosesEmptyCons(lines, lost);
    WithoutCons(lines, lost, kept);
    KeptSize(more, flags);
    if j < |more| {
      k := LineMoves(more, flags, j);
      MovesBehind(lines[0], more, lines, kept, Without(lines, lost), c, CleanEnd(lost), j, k);
    } else {
      k := |kept|;
      MovesFirst(lines[0], more, lines, kept, Without(lines, lost), lost[0], c, CleanEnd(lost));
    }
  }

  /** How many lines are not lost. */
  function KeptCount(lost: seq<bool>): nat {
    if lost == [] then 0 else (if lost[0] then 0 else 1) + KeptCount(lost[1..])
  }

  /** At least `n` lines are not lost, and of those before the clean end the ones with less than
      `n` kept lines behind them are empty. */
  ghost predicate EmptyBefore(lines: seq<string>, lost: seq<bool>, n: nat)
    requires |lost| == |lines|
  {
    && n <= KeptCount(lost)
    && forall i :: 0 <= i < |lines| - CleanEnd(lost) && KeptCount(lost[i + 1..]) < n ==> lines[i] == ""
  }

  /** The lines from the clean end to the last `n` are all empty, in both. */
  ghost predicate EmptyBetween(lines: seq<string>, kept: seq<string>, c: nat, n: nat) {
    n <= |kept| && n <= |lines| && forall j :: c <= j < n ==> FromEnd(lines, j) == "" && FromEnd(kept, j) == ""
  }

  lemma {:induction false} KeptCounted(lines: seq<string>, lost: seq<bool>)
    requires |lost| == |lines|
    ensures |Without(lines, lost)| == KeptCount(lost)
    decreases |lines|
  {
    if lines != [] {
      KeptCounted(lines[1..], lost[1..]);
    }
  }

  lemma {:induction false} CleanEndIsKept(lost: seq<bool>)
    ensures CleanEnd(lost) <= KeptCount(lost)
    decreases |lost|
  {
    if lost != [] {
      CleanEndIsKept(lost[1..]);
    }
  }

  /** A line that is not lost is kept with as many lines behind it. */
  lemma {:induction false} KeptBehind(lines: seq<string>, lost: seq<bool>, i: nat)
    requires |lost| == |lines| && i < |lines| && !lost[i]
    ensures KeptCount(lost[i + 1..]) < |Without(lines, lost)|
    ensures FromEnd(Without(lines, lost), KeptCount(lost[i + 1..])) == lines[i]
    decreases |lines|
  {
    var kept := Without(lines[1..], lost[1..]);
    WithoutCons(lines, lost, kept);
    KeptCounted(lines[1..], lost[1..]);
    if i > 0 {
      KeptBehind(lines[1..], lost[1..], i - 1);
      assert lost[1..][i..] == lost[i + 1..];
    }
  }

  /** And every kept line is such a line. */
  lemma {:induction false} KeptIsLine(lines: seq<string>, lost: seq<bool>, j: nat) returns (i: nat)
    requires |lost| == |lines| && j < |Without(lines, lost)|
    ensures i < |lines| && !lost[i] && KeptCount(lost[i + 1..]) == j
    decreases |lines|
  {
    var kept := Without(lines[1..], lost[1..]);
    WithoutCons(lines, lost, kept);
    KeptCounted(lines[1..], lost[1..]);
    if j < |kept| {
      i := KeptIsLine(lines[1..], lost[1..], j);
      assert lost[1..][i + 1..] == lost[i + 2..];
      i := i + 1;
    } else {
      i := 0;
    }
  }

  /** Behind a line before the clean end the whole clean end is kept. */
  lemma {:induction false} CleanEndBehind(lost: seq<bool>, i: nat)
    requires i < |lost| - CleanEnd(lost)
    ensures CleanEnd(lost) <= KeptCount(lost[i + 1..])
    decreases |lost|
  {
    CleanEndIsKept(lost[1..]);
    if i > 0 {
      CleanEndBehind(lost[1..], i - 1);
      assert lost[1..][i..] == lost[i + 1..];
    }
  }

  lemma {:induction false} KeptAtMost(lost: seq<bool>)
    ensures KeptCount(lost) <= |lost|
    decreases |lost|
  {
    if lost != [] {
      KeptAtMost(lost[1..]);
    }
  }

  lemma {:induction false} EmptyBetweenIsBefore(lines: seq<string>, lost: seq<bool>, kept: seq<string>, n: nat)
    requires LosesEmpty(lines, lost) && kept == Without(lines, lost) && EmptyBetween(lines, kept, CleanEnd(lost), n)
    ensures EmptyBefore(lines, lost, n)
  {
    KeptCounted(lines, lost);
    forall i | 0 <= i < |lines| - CleanEnd(lost) && KeptCount(lost[i + 1..]) < n ensures lines[i] == "" {
      if !lost[i] {
        KeptBehind(lines, lost, i);
        CleanEndBehind(lost, i);
      }
    }
  }

  lemma {:induction false} EmptyBeforeIsBetween(lines: seq<string>, lost: seq<bool>, kept: seq<string>, n: nat)
    requires |lost| == |lines| && kept == Without(lines, lost) && EmptyBefore(lines, lost, n)
    ensures EmptyBetween(lines, kept, CleanEnd(lost), n)
  {
    KeptCounted(lines, lost);
    KeptAtMost(lost);
    forall j | CleanEnd(lost) <= j < n ensures FromEnd(lines, j) == "" && FromEnd(kept, j) == "" {
      KeptAtMost(lost[|lines| - j..]);
      var i := KeptIsLine(lines, lost, j);
      KeptBehind(lines, lost, i);
      KeptAtMost(lost[i + 1..]);
    }
  }

  lemma {:induction false} SameLast(xs: seq<string>, ys: seq<string>, n: nat)
    requires n <= |xs| && n <= |ys|
    ensures Last(xs, n) == Last(ys, n) <==> forall j :: 0 <= j < n ==> FromEnd(xs, j) == FromEnd(ys, j)
  {
    var a, b := Last(xs, n), Last(ys, n);
    assert forall i :: 0 <= i < n ==> a[i] == FromEnd(xs, n - 1 - i) && b[i] == FromEnd(ys, n - 1 - i);
    if a == b {
      forall j | 0 <= j < n ensures FromEnd(xs, j) == FromEnd(ys, j) {
        assert a[n - 1 - j] == b[n - 1 - j];
      }
    }
  }

  lemma {:induction false} AgreeingIsEmpty(lines: seq<string>, lost: seq<bool>, kept: seq<string>, n: nat, j: nat)
    requires LosesEmpty(lines, lost) && kept == Without(lines, lost) && CleanEnd(lost) <= j < n <= |kept| <= |lines|
    requires forall i :: 0 <= i < n ==> FromEnd(kept, i) == FromEnd(lines, i)
    ensures FromEnd(lines, j) == ""
    decreases j
  {
    var k := LineMoves(lines, lost, j);
    if FromEnd(lines, j) != "" {
      AgreeingIsEmpty(lines, lost, kept, n, k);
    }
  }

  lemma {:induction false} LastAgreeIff(lines: seq<string>, lost: seq<bool>, kept: seq<string>, n: nat)
    requires LosesEmpty(lines, lost) && kept == Without(lines, lost)
    ensures var c := CleanEnd(lost);
            Last(kept, n) == Last(lines, n) <==> c == |lines| || n <= c || EmptyBetween(lines, kept, c, n)
  {
    var c := CleanEnd(lost);
    KeptSize(lines, lost);
    if c < |lines| {
      if n <= |kept| {
        SameLast(kept, lines, n);
        forall j | 0 <= j < c && j < n ensures FromEnd(kept, j) == FromEnd(lines, j) {
          var k := LineMoves(lines, lost, j);
        }
        if Last(kept, n) == Last(lines, n) {
          forall j | c <= j < n ensures FromEnd(lines, j) == "" {
            AgreeingIsEmpty(lines, lost, kept, n, j);
          }
        }
      } else {
        assert |Last(kept, n)| == |kept| < |Last(lines, n)|;
      }
    }
  }

  /** For one n the reader prints the last n lines of the file if and only if nothing is lost, or
      they all stand behind the last lost line, or n lines are kept and of those before that end
      the ones with less than n kept lines behind them are empty. */
  lemma {:induction false} TailOfIsLastLines(file: string, n: nat)
    ensures var lines, lost := Pieces(BREAK, file), LostFlags(file, 0);
            |lost| == |lines| &&
            (Last(Kept(file), n) == Last(lines, n) <==> CleanEnd(lost) == |lines| || n <= CleanEnd(lost) || EmptyBefore(lines, lost, n))
  {
    var lines, lost := Pieces(BREAK, file), LostFlags(file, 0);
    KeptIsWithout(file, 0, lines, lost);
    LastAgreeIff(lines, lost, Kept(file), n);
    if EmptyBetween(lines, Kept(file), CleanEnd(lost), n) {
      EmptyBetweenIsBefore(lines, lost, Kept(file), n);
    }
    if EmptyBefore(lines, lost, n) {
      EmptyBeforeIsBetween(lines, lost, Kept(file), n);
    }
  }

  // ---------------------------------------------------------------- writing undoes splitting

  function Written(lines: seq<string>): string {
    if lines == [] then "" else lines[0] + "\n" + Written(lines[1..])
  }

  lemma {:induction false} WrittenOne(line: string, rest: seq<string>)
    ensures Written([line] + rest) == line + "\n" + Written(rest)
  {
    assert ([line] + rest)[1..] == rest;
  }

  lemma {:induction false} CutAt(s: string, p: nat, k: nat, end: string)
    requires p <= k < |s| && s[k] == BREAK
    ensures s[p..k] + "\n" + (s[k + 1..] + end) == s[p..] + end
  {
    assert s[p..] == s[p..k] + [s[k]] + s[k + 1..];
  }

  /** Writing every line with a line break gives the text back, up to its final line break. */
  lemma {:induction false} WrittenLines(s: string, p: nat)
    requires p <= |s|
    ensures Written(PiecesIn(BREAK, s, p, |s|)) == s[p..] + (if p == |s| || s[|s| - 1] == BREAK then "" else "\n")
    decreases |s| - p
  {
    if p < |s| {
      var k := BreakIn(BREAK, s, p, |s|);
      BreakFound(BREAK, s, p, |s|);
      PieceIsSlice(BREAK, s, p, |s|);
      PiecesUnfold(BREAK, s, p, |s|);
      WrittenLines(s, Next(k, |s|));
      WrittenOne(s[p..k], PiecesIn(BREAK, s, Next(k, |s|), |s|));
      if k < |s| {
        CutAt(s, p, k, if k + 1 == |s| || s[|s| - 1] == BREAK then "" else "\n");
      } else {
        NoBreakBefore(BREAK, s, p, |s|, |s| - 1);
      }
    }
  }
}
