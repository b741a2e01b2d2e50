/** Splitting a text at a separator: the index loop of splitLines (internal/container/logs.go) and
    of split (internal/orchestrator/dns.go), which drop an empty last piece. */
module Splitting {

  /** The first separator of `s` between `p` and `e`, or `e`. */
  function BreakIn(sep: char, s: string, p: nat, e: nat): (k: nat)
    requires p <= e <= |s|
    ensures p <= k <= e
    decreases e - p
  {
    if p == e || s[p] == sep then p else BreakIn(sep, s, p + 1, e)
  }

  /** The text from `p` up to that separator. */
  function PieceAt(sep: char, s: string, p: nat, e: nat): (line: string)
    requires p <= e <= |s|
    ensures |line| == BreakIn(sep, s, p, e) - p
    decreases e - p
  {
    if p == e || s[p] == sep then "" else [s[p]] + PieceAt(sep, s, p + 1, e)
  }

  /** Where the piece after a separator at `k` starts. */
  function Next(k: nat, e: nat): nat { if k < e then k + 1 else e }

  /** The pieces of the part of `s` between `p` and `e`; a final separator does not start another piece. */
  function PiecesIn(sep: char, s: string, p: nat, e: nat): seq<string>
    requires p <= e <= |s|
    decreases e - p
  {
    if p == e then [] else [PieceAt(sep, s, p, e)] + PiecesIn(sep, s, Next(BreakIn(sep, s, p, e), e), e)
  }

  function Pieces(sep: char, s: string): seq<string> { PiecesIn(sep, s, 0, |s|) }

  lemma {:induction false} Assoc<T>(a: seq<T>, b: seq<T>, c: seq<T>)
    ensures a + b + c == a + (b + c)
  {
  }

  /** Prepending `x` on both sides. */
  lemma {:induction false} Glue<T>(x: seq<T>, a: seq<T>, b: seq<T>, c: seq<T>, xa: seq<T>, xc: seq<T>)
    requires a + b == c && xa == x + a && xc == x + c
    ensures xa + b == xc
  {
  }

  lemma {:induction false} SameCons<T>(x: T, a: seq<T>, y: T, b: seq<T>, xa: seq<T>, yb: seq<T>)
    requires x == y && a == b && xa == [x] + a && yb == [y] + b
    ensures xa == yb
  {
  }

  lemma {:induction false} Units<T>(a: seq<T>)
    ensures [] + a == a && a + [] == a
  {
  }

  lemma {:induction false} PieceIsSlice(sep: char, s: string, p: nat, e: nat)
    requires p <= e <= |s|
    ensures PieceAt(sep, s, p, e) == s[p..BreakIn(sep, s, p, e)]
    decreases e - p
  {
    if p < e && s[p] != sep {
      PieceIsSlice(sep, s, p + 1, e);
    }
  }

  method Split(sep: char, s: string) returns (pieces: seq<string>)
    ensures pieces == Pieces(sep, s)
  {
    pieces := [];
    var start := 0;
    var i := 0;
    Units(Pieces(sep, s));
    while i < |s|
      invariant 0 <= start <= i <= |s|
      invariant BreakIn(sep, s, start, |s|) == BreakIn(sep, s, i, |s|)
      invariant pieces + PiecesIn(sep, s, start, |s|) == Pieces(sep, s)
    {
      if s[i] == sep {
        PieceIsSlice(sep, s, start, |s|);
        Assoc(pieces, [PieceAt(sep, s, start, |s|)], PiecesIn(sep, s, i + 1, |s|));
        pieces := pieces + [s[start..i]];
        start := i + 1;
      }
      i := i + 1;
    }
    PieceIsSlice(sep, s, start, |s|);
    Units([PieceAt(sep, s, start, |s|)]);
    Units(pieces);
    if start < |s| {
      pieces := pieces + [s[start..|s|]];
    }
  }

  lemma {:induction false} PiecesUnfold(sep: char, s: string, p: nat, e: nat)
    requires p < e <= |s|
    ensures PiecesIn(sep, s, p, e) == [PieceAt(sep, s, p, e)] + PiecesIn(sep, s, Next(BreakIn(sep, s, p, e), e), e)
  {
  }

  // ---------------------------------------------------------------- parts of a text

  /** What `data` holds from `p` on stands in `file` from `q` on. */
  ghost predicate Agrees(data: string, p: nat, file: string, q: nat)
    requires p <= |data|
    decreases |data| - p
  {
    q <= |file| && (p == |data| || (q < |file| && data[p] == file[q] && Agrees(data, p + 1, file, q + 1)))
  }

  lemma {:induction false} AgreesFits(data: string, p: nat, file: string, q: nat)
    requires p <= |data| && Agrees(data, p, file, q)
    ensures q + |data| - p <= |file|
    decreases |data| - p
  {
    if p < |data| {
      AgreesFits(data, p + 1, file, q + 1);
    }
  }

  lemma {:induction false} AgreesLater(data: string, p: nat, file: string, q: nat, n: nat)
    requires p <= n <= |data| && Agrees(data, p, file, q)
    ensures Agrees(data, n, file, q + n - p)
    decreases n - p
  {
    if p < n {
      AgreesLater(data, p + 1, file, q + 1, n);
    }
  }

  lemma {:induction false} AgreesBehind(front: string, rest: string, p: nat)
    requires p <= |rest|
    ensures Agrees(rest, p, front + rest, |front| + p)
    decreases |rest| - p
  {
    if p < |rest| {
      AgreesBehind(front, rest, p + 1);
    }
  }

  lemma {:induction false} AgreesInside(file: string, o: nat, e: nat, p: nat)
    requires o <= e <= |file| && p <= e - o
    ensures Agrees(file[o..e], p, file, o + p)
    decreases e - o - p
  {
    if p < e - o {
      AgreesInside(file, o, e, p + 1);
    }
  }

  lemma {:induction false} PieceAgrees(sep: char, data: string, p: nat, file: string, q: nat, e: nat)
    requires p <= |data| && Agrees(data, p, file, q) && e == q + |data| - p <= |file|
    ensures BreakIn(sep, data, p, |data|) - p == BreakIn(sep, file, q, e) - q
    ensures PieceAt(sep, data, p, |data|) == PieceAt(sep, file, q, e)
    decreases |data| - p
  {
    if p < |data| && data[p] != sep {
      PieceAgrees(sep, data, p + 1, file, q + 1, e);
    }
  }

  lemma {:induction false} PiecesAgree(sep: char, data: string, p: nat, file: string, q: nat, e: nat)
    requires p <= |data| && Agrees(data, p, file, q) && e == q + |data| - p <= |file|
    ensures PiecesIn(sep, data, p, |data|) == PiecesIn(sep, file, q, e)
    decreases |data| - p
  {
    if p < |data| {
      PieceAgrees(sep, data, p, file, q, e);
      var n, m := Next(BreakIn(sep, data, p, |data|), |data|), Next(BreakIn(sep, file, q, e), e);
      AgreesLater(data, p, file, q, n);
      PiecesAgree(sep, data, n, file, m, e);
      PiecesUnfold(sep, data, p, |data|);
      PiecesUnfold(sep, file, q, e);
      SameCons(PieceAt(sep, data, p, |data|), PiecesIn(sep, data, n, |data|),
               PieceAt(sep, file, q, e), PiecesIn(sep, file, m, e),
               PiecesIn(sep, data, p, |data|), PiecesIn(sep, file, q, e));
    }
  }

  lemma {:induction false} BreakStops(sep: char, s: string, p: nat)
    requires p <= |s|
    ensures var e := BreakIn(sep, s, p, |s|); BreakIn(sep, s, p, e) == e && PieceAt(sep, s, p, e) == PieceAt(sep, s, p, |s|)
    decreases |s| - p
  {
    if p < |s| && s[p] != sep {
      BreakStops(sep, s, p + 1);
    }
  }

  lemma {:induction false} NoBreakBefore(sep: char, s: string, p: nat, e: nat, q: nat)
    requires p <= e <= |s| && p <= q < BreakIn(sep, s, p, e)
    ensures s[q] != sep
    decreases e - p
  {
    if p < q {
      NoBreakBefore(sep, s, p + 1, e, q);
    }
  }

  lemma {:induction false} BreakFound(sep: char, s: string, p: nat, e: nat)
    requires p <= e <= |s|
    ensures BreakIn(sep, s, p, e) < e ==> s[BreakIn(sep, s, p, e)] == sep
    decreases e - p
  {
    if p < e {
      BreakFound(sep, s, p + 1, e);
    }
  }

  lemma {:induction false} BreakIs(sep: char, s: string, p: nat, k: nat, e: nat)
    requires p <= k <= e <= |s| && (forall i :: p <= i < k ==> s[i] != sep) && (k < e ==> s[k] == sep)
    ensures BreakIn(sep, s, p, e) == k
    decreases k - p
  {
    if p < k {
      BreakIs(sep, s, p + 1, k, e);
    }
  }

  /** Splitting what was put together: one piece, or a piece, the separator and the rest. */
  lemma {:induction false} SplitOne(sep: char, l: string)
    requires l != "" && sep !in l
    ensures Pieces(sep, l) == [l]
  {
    BreakIs(sep, l, 0, |l|, |l|);
    PieceIsSlice(sep, l, 0, |l|);
    PiecesUnfold(sep, l, 0, |l|);
    assert PieceAt(sep, l, 0, |l|) == l by { assert l[0..|l|] == l; }
    Units([l]);
  }

  /** What stands before the first separator is the first piece. */
  lemma {:induction false} FirstPiece(sep: char, l: string, rest: string, s: string)
    requires sep !in l && s == l + [sep] + rest
    ensures BreakIn(sep, s, 0, |s|) == |l| && PieceAt(sep, s, 0, |s|) == l
  {
    BreakIs(sep, s, 0, |l|, |s|);
    PieceIsSlice(sep, s, 0, |s|);
    assert s[0..|l|] == l;
  }

  lemma {:induction false} SplitCons(sep: char, l: string, rest: string)
    requires sep !in l
    ensures Pieces(sep, l + [sep] + rest) == [l] + Pieces(sep, rest)
  {
    var s := l + [sep] + rest;
    FirstPiece(sep, l, rest, s);
    AgreesBehind(l + [sep], rest, 0);
    PiecesUnfold(sep, s, 0, |s|);
    PiecesAgree(sep, rest, 0, s, |l| + 1, |s|);
  }

  // ---------------------------------------------------------------- joining

  function Join(sep: char, pieces: seq<string>): string
    decreases |pieces|
  {
    if pieces == [] then ""
    else if |pieces| == 1 then pieces[0]
    else Join(sep, pieces[..|pieces| - 1]) + [sep] + pieces[|pieces| - 1]
  }

  lemma {:induction false} JoinCons(sep: char, l: string, rest: seq<string>)
    requires rest != []
    ensures Join(sep, [l] + rest) == l + [sep] + Join(sep, rest)
    decreases |rest|
  {
    var pieces, n := [l] + rest, |rest|;
    if n == 1 {
      assert pieces[..n] == [l] && pieces[n] == rest[0];
    } else {
      JoinCons(sep, l, rest[..n - 1]);
      assert pieces[..n] == [l] + rest[..n - 1] && pieces[n] == rest[n - 1];
      assert l + [sep] + Join(sep, rest[..n - 1]) + [sep] + rest[n - 1]
          == l + [sep] + (Join(sep, rest[..n - 1]) + [sep] + rest[n - 1]);
    }
  }

  lemma {:induction false} JoinAppend(sep: char, a: seq<string>, b: seq<string>)
    requires a != [] && b != []
    ensures Join(sep, a + b) == Join(sep, a) + [sep] + Join(sep, b)
    decreases |a|
  {
    if |a| == 1 {
      assert a == [a[0]];
      JoinCons(sep, a[0], b);
    } else {
      var l, rest := a[0], a[1..];
      assert a == [l] + rest && a + b == [l] + (rest + b);
      JoinAppend(sep, rest, b);
      JoinCons(sep, l, rest);
      JoinCons(sep, l, rest + b);
      assert l + [sep] + (Join(sep, rest) + [sep] + Join(sep, b)) == l + [sep] + Join(sep, rest) + [sep] + Join(sep, b);
    }
  }

  // ---------------------------------------------------------------- strings.Split and strings.SplitN

  /** All pieces from `p` on, at most `n` of them; here an empty last piece counts. */
  function SplitN(sep: char, s: string, p: nat, n: nat): seq<string>
    requires p <= |s| && n > 0
    decreases n
  {
    var k := BreakIn(sep, s, p, |s|);
    if k == |s| then [PieceAt(sep, s, p, |s|)]
    else if n == 1 then [s[p..]]
    else [PieceAt(sep, s, p, |s|)] + SplitN(sep, s, k + 1, n - 1)
  }

  lemma {:induction false} PartsOfSplit(sep: char, s: string, n: nat)
    requires n > 0
    ensures 1 <= |SplitN(sep, s, 0, n)| <= n
  {
    PartsOfSplitFrom(sep, s, 0, n);
  }

  lemma {:induction false} PartsOfSplitFrom(sep: char, s: string, p: nat, n: nat)
    requires p <= |s| && n > 0
    ensures 1 <= |SplitN(sep, s, p, n)| <= n
    decreases n
  {
    if n > 1 && BreakIn(sep, s, p, |s|) < |s| {
      PartsOfSplitFrom(sep, s, BreakIn(sep, s, p, |s|) + 1, n - 1);
    }
  }

  function SplitAll(sep: char, s: string): seq<string> { SplitN(sep, s, 0, |s| + 1) }

  lemma {:induction false} SuffixAgrees(data: string, p: nat, file: string, q: nat)
    requires p <= |data| && Agrees(data, p, file, q) && q + |data| - p == |file|
    ensures data[p..] == file[q..]
    decreases |data| - p
  {
    if p < |data| {
      SuffixAgrees(data, p + 1, file, q + 1);
      assert data[p..] == [data[p]] + data[p + 1..];
      assert file[q..] == [file[q]] + file[q + 1..];
    }
  }

  lemma {:induction false} SplitNUnfold(sep: char, s: string, p: nat, n: nat)
    requires p <= |s| && n > 1 && BreakIn(sep, s, p, |s|) < |s|
    ensures SplitN(sep, s, p, n) == [PieceAt(sep, s, p, |s|)] + SplitN(sep, s, BreakIn(sep, s, p, |s|) + 1, n - 1)
  {
  }

  lemma {:induction false} SplitNEnds(sep: char, data: string, p: nat, file: string, q: nat, n: nat)
    requires p <= |data| && Agrees(data, p, file, q) && q + |data| - p == |file| && n > 0
    requires n == 1 || BreakIn(sep, data, p, |data|) == |data|
    ensures SplitN(sep, data, p, n) == SplitN(sep, file, q, n)
  {
    PieceAgrees(sep, data, p, file, q, |file|);
    if n == 1 {
      SuffixAgrees(data, p, file, q);
    }
  }

  lemma {:induction false} SplitNAgrees(sep: char, data: string, p: nat, file: string, q: nat, n: nat)
    requires p <= |data| && Agrees(data, p, file, q) && q + |data| - p == |file| && n > 0
    ensures SplitN(sep, data, p, n) == SplitN(sep, file, q, n)
    decreases n
  {
    if n == 1 || BreakIn(sep, data, p, |data|) == |data| {
      SplitNEnds(sep, data, p, file, q, n);
    } else {
      PieceAgrees(sep, data, p, file, q, |file|);
      var k, l := BreakIn(sep, data, p, |data|), BreakIn(sep, file, q, |file|);
      AgreesLater(data, p, file, q, k + 1);
      SplitNAgrees(sep, data, k + 1, file, l + 1, n - 1);
      SplitNUnfold(sep, data, p, n);
      SplitNUnfold(sep, file, q, n);
      SameCons(PieceAt(sep, data, p, |data|), SplitN(sep, data, k + 1, n - 1),
               PieceAt(sep, file, q, |file|), SplitN(sep, file, l + 1, n - 1),
               SplitN(sep, data, p, n), SplitN(sep, file, q, n));
    }
  }

  /** A piece, the separator and the rest: the rest is split further while pieces are left. */
  lemma {:induction false} SplitNCons(sep: char, l: string, rest: string, n: nat)
    requires sep !in l && n > 1
    ensures SplitN(sep, l + [sep] + rest, 0, n) == [l] + SplitN(sep, rest, 0, n - 1)
  {
    var s := l + [sep] + rest;
    FirstPiece(sep, l, rest, s);
    AgreesBehind(l + [sep], rest, 0);
    SplitNAgrees(sep, rest, 0, s, |l| + 1, n - 1);
  }

  lemma {:induction false} SplitNOne(sep: char, l: string, n: nat)
    requires n > 0 && (sep !in l || n == 1)
    ensures SplitN(sep, l, 0, n) == [l]
  {
    if sep !in l {
      BreakIs(sep, l, 0, |l|, |l|);
    }
    PieceIsSlice(sep, l, 0, |l|);
    assert l[0..] == l && l[0..|l|] == l;
  }

  /** Splitting undoes joining; here also for empty pieces. */
  lemma {:induction false} SplitNOfJoin(sep: char, pieces: seq<string>, n: nat)
    requires pieces != [] && |pieces| <= n && forall l <- pieces :: sep !in l
    ensures SplitN(sep, Join(sep, pieces), 0, n) == pieces
    decreases |pieces|
  {
    var l, rest := pieces[0], pieces[1..];
    assert pieces == [l] + rest && l in pieces;
    if rest == [] {
      SplitNOne(sep, l, n);
    } else {
      forall m | m in rest ensures m in pieces { }
      SplitNOfJoin(sep, rest, n - 1);
      JoinCons(sep, l, rest);
      SplitNCons(sep, l, Join(sep, rest), n);
    }
  }

  lemma {:induction false} JoinLength(sep: char, pieces: seq<string>)
    ensures |pieces| <= |Join(sep, pieces)| + 1
    decreases |pieces|
  {
    if |pieces| > 1 {
      JoinLength(sep, pieces[..|pieces| - 1]);
    }
  }

  lemma {:induction false} SplitAllOfJoin(sep: char, pieces: seq<string>)
    requires pieces != [] && forall l <- pieces :: sep !in l
    ensures SplitAll(sep, Join(sep, pieces)) == pieces
  {
    JoinLength(sep, pieces);
    SplitNOfJoin(sep, pieces, |Join(sep, pieces)| + 1);
  }

  /** What stands before the first separator is unique. */
  lemma {:induction false} SameHead(sep: char, s: string, a: string, b: string)
    requires sep !in a && sep !in b && a + [sep] <= s && b + [sep] <= s
    ensures a == b
  {
    assert forall k :: 0 <= k < |a| ==> a[k] == s[k];
    assert forall k :: 0 <= k < |b| ==> b[k] == s[k];
    assert s[|a|] == sep && s[|b|] == sep;
    assert |a| == |b|;
  }
}
