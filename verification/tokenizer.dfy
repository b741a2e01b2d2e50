/** The quote-aware splitter of internal/builder/parser.go, octet by octet. */
module Tokenizer {
  import opened Splitting
  import opened Trimming

  /** The finished tokens, the one being read, and the three flags. */
  datatype Scan = Scan(parts: seq<string>, current: string, inSingle: bool, inDouble: bool, escape: bool)

  const START := Scan([], "", false, false, false)

  function Push(s: Scan): Scan {
    if s.current == "" then s else s.(parts := s.parts + [s.current], current := "")
  }

  function Step(s: Scan, c: char): Scan {
    var written := s.(current := s.current + [c]);
    if s.escape then written.(escape := false)
    else if c == '\\' && s.inDouble then s.(escape := true)
    else if c == '\'' && !s.inDouble then written.(inSingle := !s.inSingle)
    else if c == '"' && !s.inSingle then written.(inDouble := !s.inDouble)
    else if IsSpace(c) && !s.inSingle && !s.inDouble then Push(s)
    else written
  }

  function Run(s: Scan, text: string): Scan
    decreases |text|
  {
    if text == "" then s else Step(Run(s, text[..|text| - 1]), text[|text| - 1])
  }

  function Tokens(text: string): seq<string> { Push(Run(START, text)).parts }

  method SplitSpaceRespectingQuotes(s: string) returns (parts: seq<string>)
    ensures parts == Tokens(s)
  {
    parts := [];
    var current := "";
    var inSingle, inDouble, escape := false, false, false;
    for i := 0 to |s|
      invariant Scan(parts, current, inSingle, inDouble, escape) == Run(START, s[..i])
    {
      assert s[..i + 1][..i] == s[..i];
      var c := s[i];
      if escape {
        current := current + [c];
        escape := false;
        continue;
      }
      if c == '\\' && inDouble {
        escape := true;
        continue;
      }
      if c == '\'' && !inDouble {
        inSingle := !inSingle;
        current := current + [c];
        continue;
      }
      if c == '"' && !inSingle {
        inDouble := !inDouble;
        current := current + [c];
        continue;
      }
      if IsSpace(c) && !inSingle && !inDouble {
        if |current| > 0 {
          parts := parts + [current];
          current := "";
        }
        continue;
      }
      current := current + [c];
    }
    assert s[..|s|] == s;
    if |current| > 0 {
      parts := parts + [current];
    }
  }

  // ---------------------------------------------------------------- on all input

  function Total(parts: seq<string>): nat {
    if parts == [] then 0 else Total(parts[..|parts| - 1]) + |parts[|parts| - 1]|
  }

  lemma {:induction false} RunBounds(text: string)
    ensures var s := Run(START, text);
            Total(s.parts) + |s.current| <= |text| && "" !in s.parts
    decreases |text|
  {
    if text != "" {
      RunBounds(text[..|text| - 1]);
    }
  }

  /** Tokens are not empty, and together no longer than the input. */
  lemma {:induction false} TokensAreBounded(text: string)
    ensures "" !in Tokens(text) && Total(Tokens(text)) <= |text|
  {
    RunBounds(text);
  }

  // ---------------------------------------------------------------- splitting again

  /** The text has no escaped quote and no escaped backslash; without a backslash that is so. */
  ghost predicate PlainEscapes(text: string) {
    forall k :: 0 <= k < |text| && Run(START, text[..k]).escape ==> text[k] != '"' && text[k] != '\\'
  }

  lemma {:induction false} NoBackslash(text: string, k: nat)
    requires '\\' !in text && k <= |text|
    ensures !Run(START, text[..k]).escape
    decreases k
  {
    if k > 0 {
      NoBackslash(text, k - 1);
      assert text[..k][..k - 1] == text[..k - 1] && text[..k][k - 1] in text;
    }
  }

  /** Reading the token again writes just it and leaves the same flags. */
  ghost predicate Replays(token: string, inSingle: bool, inDouble: bool) {
    Run(START, token) == Scan([], token, inSingle, inDouble, false)
  }

  lemma {:induction false} ReplayOne(token: string, inSingle: bool, inDouble: bool, c: char)
    requires Replays(token, inSingle, inDouble)
    ensures Run(START, token + [c]) == Step(Scan([], token, inSingle, inDouble, false), c)
  {
    assert (token + [c])[..|token|] == token;
  }

  ghost predicate Replayable(s: Scan) {
    && Replays(s.current, s.inSingle, s.inDouble)
    && (forall k :: 0 <= k < |s.parts| ==> Replays(s.parts[k], false, false))
    && (s.escape ==> s.inDouble && !s.inSingle) && !(s.inSingle && s.inDouble)
  }

  lemma {:induction false} StepReplays(s: Scan, c: char)
    requires Replayable(s) && (s.escape ==> c != '"' && c != '\\')
    ensures Replayable(Step(s, c))
  {
    ReplayOne(s.current, s.inSingle, s.inDouble, c);
    assert Replays("", false, false);
  }

  /** Every finished token replays to a token outside quotes, the current one to the current flags. */
  lemma {:induction false} RunReplays(text: string)
    requires PlainEscapes(text)
    ensures Replayable(Run(START, text))
    decreases |text|
  {
    if text != "" {
      var n := |text| - 1;
      var before := text[..n];
      assert PlainEscapes(before) by {
        forall k | 0 <= k < n && Run(START, before[..k]).escape ensures before[k] != '"' && before[k] != '\\' {
          assert before[..k] == text[..k];
        }
      }
      RunReplays(before);
      StepReplays(Run(START, before), text[n]);
    }
  }

  /** The scan from a clean state behind finished parts. */
  lemma {:induction false} RunLifts(parts: seq<string>, text: string)
    ensures var s := Run(START, text);
            Run(START.(parts := parts), text) == s.(parts := parts + s.parts)
    decreases |text|
  {
    if text == "" {
      Units(parts);
    } else {
      var n := |text| - 1;
      RunLifts(parts, text[..n]);
      var s := Run(START, text[..n]);
      Assoc(parts, s.parts, [s.current]);
    }
  }

  lemma {:induction false} RunAppend(s: Scan, a: string, b: string)
    ensures Run(s, a + b) == Run(Run(s, a), b)
    decreases |b|
  {
    if b == "" {
      assert Run(s, a + b) == Run(s, a) by { assert a + b == a; }
    } else {
      assert (a + b)[..|a + b| - 1] == a + b[..|b| - 1];
      RunAppend(s, a, b[..|b| - 1]);
    }
  }

  lemma {:induction false} RunSnoc(s: Scan, text: string, c: char)
    ensures Run(s, text + [c]) == Step(Run(s, text), c)
  {
    assert (text + [c])[..|text|] == text;
  }

  /** Behind joined tokens, one more. */
  lemma {:induction false} RunJoinedOne(joined: string, front: seq<string>, last: string, inSingle: bool, inDouble: bool)
    requires front != [] && front[|front| - 1] != "" && Replays(last, inSingle, inDouble)
    requires Run(START, joined) == Scan(front[..|front| - 1], front[|front| - 1], false, false, false)
    ensures Run(START, joined + [' '] + last) == Scan(front, last, inSingle, inDouble, false)
  {
    var n := |front|;
    RunAppend(START, joined + [' '], last);
    RunSnoc(START, joined, ' ');
    assert front[..n - 1] + [front[n - 1]] == front;
    assert Run(START, joined + [' ']) == START.(parts := front);
    RunLifts(front, last);
    Units(front);
  }

  /** Reading joined tokens again: all but the last are finished, the last is being read. */
  lemma {:induction false} RunJoined(parts: seq<string>, inSingle: bool, inDouble: bool)
    requires parts != [] && "" !in parts
    requires forall k :: 0 <= k < |parts| - 1 ==> Replays(parts[k], false, false)
    requires Replays(parts[|parts| - 1], inSingle, inDouble)
    ensures Run(START, Join(' ', parts)) ==
            Scan(parts[..|parts| - 1], parts[|parts| - 1], inSingle, inDouble, false)
    decreases |parts|
  {
    var n := |parts| - 1;
    if n > 0 {
      var front := parts[..n];
      RunJoined(front, false, false);
      assert front[n - 1] in parts;
      RunJoinedOne(Join(' ', front), front, parts[n], inSingle, inDouble);
    }
  }

  lemma {:induction false} JoinedTokens(parts: seq<string>, inSingle: bool, inDouble: bool)
    requires parts != [] && "" !in parts
    requires Run(START, Join(' ', parts)) ==
             Scan(parts[..|parts| - 1], parts[|parts| - 1], inSingle, inDouble, false)
    ensures Tokens(Join(' ', parts)) == parts
  {
    assert parts[|parts| - 1] in parts;
    FrontAndLast(parts);
  }

  lemma {:induction false} FrontAndLast(parts: seq<string>)
    requires parts != []
    ensures parts[..|parts| - 1] + [parts[|parts| - 1]] == parts
  {
  }

  /** The token reads back as it is, a quote possibly open at its end. */
  ghost predicate ReadsBack(token: string) {
    Replays(token, Run(START, token).inSingle, Run(START, token).inDouble)
  }

  /** Every token but the last reads back as it is, ending outside quotes; the last reads back as it is. */
  ghost predicate AllReplay(parts: seq<string>) {
    parts != [] ==>
      && (forall k :: 0 <= k < |parts| - 1 ==> Replays(parts[k], false, false))
      && ReadsBack(parts[|parts| - 1])
  }

  /** How many octets of the text are escaping backslashes, which no token holds. */
  ghost function Escapes(text: string): nat
    decreases |text|
  {
    if text == "" then 0
    else Escapes(text[..|text| - 1]) + (if Run(START, text).escape then 1 else 0)
  }

  lemma {:induction false} TotalSnoc(parts: seq<string>, last: string)
    ensures Total(parts + [last]) == Total(parts) + |last|
  {
    assert (parts + [last])[..|parts|] == parts;
  }

  /** Each octet is in a token, is a backslash, or separates: at least one for each finished token. */
  lemma {:induction false} StepDrops(s: Scan, c: char)
    ensures Total(Step(s, c).parts) + |Step(s, c).current| + |Step(s, c).parts| + (if Step(s, c).escape then 1 else 0)
            <= Total(s.parts) + |s.current| + |s.parts| + 1
  {
    TotalSnoc(s.parts, s.current);
  }

  lemma {:induction false} RunDrops(text: string)
    ensures var s := Run(START, text);
            Total(s.parts) + |s.current| + |s.parts| + Escapes(text) <= |text|
    decreases |text|
  {
    if text != "" {
      var n := |text| - 1;
      RunDrops(text[..n]);
      StepDrops(Run(START, text[..n]), text[n]);
    }
  }

  lemma {:induction false} NoEscapes(text: string, k: nat)
    requires Escapes(text) == 0 && k <= |text|
    ensures !Run(START, text[..k]).escape
    decreases |text|
  {
    if k == |text| {
      assert text[..k] == text;
    } else {
      var front := text[..|text| - 1];
      NoEscapes(front, k);
      assert front[..k] == text[..k];
    }
  }

  lemma {:induction false} JoinedLength(parts: seq<string>)
    requires parts != []
    ensures |Join(' ', parts)| == Total(parts) + |parts| - 1
    decreases |parts|
  {
    if |parts| > 1 {
      JoinedLength(parts[..|parts| - 1]);
    }
  }

  /** What the scan of the joined tokens drops is the spaces between them, so it saw no escape. */
  lemma {:induction false} StableDropsNothing(parts: seq<string>)
    requires parts != [] && Tokens(Join(' ', parts)) == parts
    ensures Escapes(Join(' ', parts)) == 0 && Run(START, Join(' ', parts)).current != ""
  {
    var text := Join(' ', parts);
    var s := Run(START, text);
    RunDrops(text);
    JoinedLength(parts);
    TotalSnoc(s.parts, s.current);
  }

  lemma {:induction false} StableReplays(parts: seq<string>)
    requires Tokens(Join(' ', parts)) == parts
    ensures AllReplay(parts)
  {
    if parts != [] {
      var text := Join(' ', parts);
      var s := Run(START, text);
      StableDropsNothing(parts);
      forall k | 0 <= k < |text| ensures !Run(START, text[..k]).escape {
        NoEscapes(text, k);
      }
      RunReplays(text);
      assert parts == s.parts + [s.current];
    }
  }

  lemma {:induction false} ReplaysStable(parts: seq<string>)
    requires "" !in parts && AllReplay(parts)
    ensures Tokens(Join(' ', parts)) == parts
  {
    if parts != [] {
      var last := Run(START, parts[|parts| - 1]);
      RunJoined(parts, last.inSingle, last.inDouble);
      JoinedTokens(parts, last.inSingle, last.inDouble);
    }
  }

  // ---------------------------------------------------------------- what reads back as it is

  /** A word without white space and quotes. */
  predicate Bare(w: string) { w != "" && forall k :: 0 <= k < |w| ==> !IsSpace(w[k]) && w[k] != '\'' && w[k] != '"' }

  /** Text in a pair of quotes; double quotes need no escape inside. */
  function Quoted(q: char, text: string): string { [q] + text + [q] }

  predicate Quotable(q: char, text: string) {
    q !in text && (q == '\'' || (q == '"' && '\\' !in text))
  }

  lemma {:induction false} BareReplays(w: string)
    requires Bare(w) || w == ""
    ensures Replays(w, false, false)
    decreases |w|
  {
    if w != "" {
      var n := |w| - 1;
      BareReplays(w[..n]);
      ReplayOne(w[..n], false, false, w[n]);
      assert w[..n] + [w[n]] == w;
    }
  }

  lemma {:induction false} OpeningQuote(q: char)
    requires q == '\'' || q == '"'
    ensures Replays([q], q == '\'', q == '"')
  {
    assert Replays("", false, false);
    ReplayOne("", false, false, q);
    assert "" + [q] == [q];
  }

  lemma {:induction false} InsideQuotes(token: string, q: char, c: char)
    requires Replays(token, q == '\'', q == '"') && (q == '\'' || q == '"') && c != q && (q == '"' ==> c != '\\')
    ensures Replays(token + [c], q == '\'', q == '"')
  {
    ReplayOne(token, q == '\'', q == '"', c);
  }

  lemma {:induction false} OpenQuoteReplays(q: char, text: string)
    requires Quotable(q, text)
    ensures Replays([q] + text, q == '\'', q == '"')
    decreases |text|
  {
    if text == "" {
      OpeningQuote(q);
      assert [q] + text == [q];
    } else {
      var n := |text| - 1;
      assert text[n] in text;
      OpenQuoteReplays(q, text[..n]);
      InsideQuotes([q] + text[..n], q, text[n]);
      assert [q] + text[..n] + [text[n]] == [q] + text;
    }
  }

  lemma {:induction false} QuotedReplays(q: char, text: string)
    requires Quotable(q, text)
    ensures Replays(Quoted(q, text), false, false)
  {
    OpenQuoteReplays(q, text);
    ReplayOne([q] + text, q == '\'', q == '"', q);
  }

  /** A piece of a token. */
  datatype Piece = BareWord(word: string) | QuotedText(quote: char, text: string)

  predicate Proper(p: Piece) {
    match p
    case BareWord(w) => Bare(w)
    case QuotedText(q, text) => Quotable(q, text)
  }

  function Write(p: Piece): string {
    match p
    case BareWord(w) => w
    case QuotedText(q, text) => Quoted(q, text)
  }

  function WriteAll(ps: seq<Piece>): string {
    if ps == [] then "" else WriteAll(ps[..|ps| - 1]) + Write(ps[|ps| - 1])
  }

  ghost predicate AllProper(ps: seq<Piece>) { forall k :: 0 <= k < |ps| ==> Proper(ps[k]) }

  /** Nothing, or a quote that is not closed and its text. */
  predicate OpenEnd(e: string) { e == "" || Quotable(e[0], e[1..]) }

  /** The token is bare words and quoted texts in a row. */
  ghost predicate Pieced(token: string) { exists ps :: AllProper(ps) && token == WriteAll(ps) }

  /** The same, and the last quote need not be closed. */
  ghost predicate PiecedOpen(token: string) {
    exists ps, e :: AllProper(ps) && OpenEnd(e) && token == WriteAll(ps) + e
  }

  lemma {:induction false} EscapeIsDropped(text: string)
    ensures Run(START, text).escape ==> |Run(START, text).current| < |text|
  {
    RunDrops(text);
  }

  /** What reads back as it is does so from its first octet on. */
  lemma {:induction false} ReplaysFront(token: string, c: char, inSingle: bool, inDouble: bool)
    requires Replays(token + [c], inSingle, inDouble)
    ensures var s := Run(START, token);
            Replays(token, s.inSingle, s.inDouble) && Step(s, c) == Scan([], token + [c], inSingle, inDouble, false)
  {
    RunSnoc(START, token, c);
    EscapeIsDropped(token);
    var s := Run(START, token);
    assert s.current + [c] == token + [c] ==> s.current == token by {
      if s.current + [c] == token + [c] {
        assert s.current == (s.current + [c])[..|s.current|] == (token + [c])[..|token|] == token;
      }
    }
  }

  lemma {:induction false} StepBehind(a: string, b: string, inSingle: bool, inDouble: bool, c: char, t: Scan)
    requires Step(Scan([], b, inSingle, inDouble, false), c) == t && t.current == b + [c]
    ensures Step(Scan([], a + b, inSingle, inDouble, false), c) == t.(current := a + (b + [c]))
  {
    assert (a + b) + [c] == a + (b + [c]);
  }

  lemma {:induction false} ReplaysAppend(a: string, b: string, inSingle: bool, inDouble: bool)
    requires Replays(a, false, false) && Replays(b, inSingle, inDouble)
    ensures Replays(a + b, inSingle, inDouble)
    decreases |b|
  {
    if b == "" {
      assert a + b == a;
    } else {
      var front, c := b[..|b| - 1], b[|b| - 1];
      assert b == front + [c];
      ReplaysFront(front, c, inSingle, inDouble);
      var s := Run(START, front);
      ReplaysAppend(a, front, s.inSingle, s.inDouble);
      RunSnoc(START, a + front, c);
      StepBehind(a, front, s.inSingle, s.inDouble, c, Run(START, b));
      assert (a + front) + [c] == a + b;
    }
  }

  lemma {:induction false} PieceReplays(p: Piece)
    requires Proper(p)
    ensures Replays(Write(p), false, false)
  {
    match p
    case BareWord(w) => BareReplays(w);
    case QuotedText(q, text) => QuotedReplays(q, text);
  }

  lemma {:induction false} PiecesReplay(ps: seq<Piece>)
    requires AllProper(ps)
    ensures Replays(WriteAll(ps), false, false)
    decreases |ps|
  {
    if ps == [] {
      assert Replays("", false, false);
    } else {
      var front, last := ps[..|ps| - 1], ps[|ps| - 1];
      PiecesReplay(front);
      PieceReplays(last);
      ReplaysAppend(WriteAll(front), Write(last), false, false);
    }
  }

  lemma {:induction false} OpenPiecesReplay(ps: seq<Piece>, e: string)
    requires AllProper(ps) && OpenEnd(e)
    ensures ReadsBack(WriteAll(ps) + e)
  {
    PiecesReplay(ps);
    if e == "" {
      assert WriteAll(ps) + e == WriteAll(ps);
    } else {
      var q, text := e[0], e[1..];
      assert e == [q] + text;
      OpenQuoteReplays(q, text);
      ReplaysAppend(WriteAll(ps), e, q == '\'', q == '"');
    }
  }

  lemma {:induction false} WriteSnoc(ps: seq<Piece>, p: Piece)
    requires AllProper(ps) && Proper(p)
    ensures AllProper(ps + [p]) && WriteAll(ps + [p]) == WriteAll(ps) + Write(p)
  {
    assert (ps + [p])[..|ps|] == ps;
  }

  /** The flags that an open end leaves. */
  predicate EndsIn(e: string, inSingle: bool, inDouble: bool) {
    (inSingle <==> e != "" && e[0] == '\'') && (inDouble <==> e != "" && e[0] == '"')
  }

  lemma {:induction false} OctetOutside(ps: seq<Piece>, c: char, t: Scan) returns (ps': seq<Piece>, e': string)
    requires AllProper(ps)
    requires Step(Scan([], WriteAll(ps), false, false, false), c) == t
    requires t == Scan([], WriteAll(ps) + [c], t.inSingle, t.inDouble, false)
    ensures AllProper(ps') && OpenEnd(e') && EndsIn(e', t.inSingle, t.inDouble)
    ensures WriteAll(ps) + [c] == WriteAll(ps') + e'
  {
    if c == '\'' || c == '"' {
      ps', e' := ps, [c];
      assert [c][1..] == "";
    } else {
      WriteSnoc(ps, BareWord([c]));
      ps', e' := ps + [BareWord([c])], "";
      assert WriteAll(ps') + "" == WriteAll(ps');
    }
  }

  lemma {:induction false} OctetInside(ps: seq<Piece>, e: string, c: char) returns (ps': seq<Piece>, e': string)
    requires AllProper(ps) && e != "" && OpenEnd(e) && (c == '\\' ==> e[0] != '"')
    ensures AllProper(ps') && OpenEnd(e') && (if c == e[0] then e' == "" else e' == e + [c])
    ensures WriteAll(ps) + e + [c] == WriteAll(ps') + e'
  {
    if c == e[0] {
      var p := QuotedText(e[0], e[1..]);
      assert Write(p) == e + [c];
      WriteSnoc(ps, p);
      ps', e' := ps + [p], "";
      assert WriteAll(ps) + e + [c] == WriteAll(ps) + (e + [c]);
    } else {
      ps', e' := ps, e + [c];
      assert e'[0] == e[0] && e'[1..] == e[1..] + [c];
      assert WriteAll(ps) + e + [c] == WriteAll(ps) + e';
    }
  }

  /** The open end after one more octet, or the pieces if that closes it. */
  lemma {:induction false} OneOctetMore(ps: seq<Piece>, e: string, inSingle: bool, inDouble: bool, c: char, t: Scan)
      returns (ps': seq<Piece>, e': string)
    requires AllProper(ps) && OpenEnd(e) && EndsIn(e, inSingle, inDouble)
    requires Step(Scan([], WriteAll(ps) + e, inSingle, inDouble, false), c) == t
    requires t == Scan([], WriteAll(ps) + e + [c], t.inSingle, t.inDouble, false)
    ensures AllProper(ps') && OpenEnd(e') && EndsIn(e', t.inSingle, t.inDouble)
    ensures WriteAll(ps) + e + [c] == WriteAll(ps') + e'
  {
    if e == "" {
      assert WriteAll(ps) + e == WriteAll(ps);
      ps', e' := OctetOutside(ps, c, t);
    } else {
      ps', e' := OctetInside(ps, e, c);
    }
  }

  lemma {:induction false} ReplaysIsPieced(token: string, inSingle: bool, inDouble: bool)
      returns (ps: seq<Piece>, e: string)
    requires Replays(token, inSingle, inDouble)
    ensures AllProper(ps) && OpenEnd(e) && EndsIn(e, inSingle, inDouble) && token == WriteAll(ps) + e
    decreases |token|
  {
    if token == "" {
      ps, e := [], "";
    } else {
      var front, c := token[..|token| - 1], token[|token| - 1];
      assert token == front + [c];
      ReplaysFront(front, c, inSingle, inDouble);
      var s := Run(START, front);
      var ps0, e0 := ReplaysIsPieced(front, s.inSingle, s.inDouble);
      ps, e := OneOctetMore(ps0, e0, s.inSingle, s.inDouble, c, Run(START, token));
    }
  }

  lemma {:induction false} ReplaysIffPieced(token: string)
    ensures Replays(token, false, false) <==> Pieced(token)
    ensures ReadsBack(token) <==> PiecedOpen(token)
  {
    if Replays(token, false, false) {
      var ps, e := ReplaysIsPieced(token, false, false);
      assert token == WriteAll(ps);
    }
    if ps :| AllProper(ps) && token == WriteAll(ps) {
      PiecesReplay(ps);
    }
    if ReadsBack(token) {
      var ps, e := ReplaysIsPieced(token, Run(START, token).inSingle, Run(START, token).inDouble);
    }
    if ps, e :| AllProper(ps) && OpenEnd(e) && token == WriteAll(ps) + e {
      OpenPiecesReplay(ps, e);
    }
  }

  // ---------------------------------------------------------------- when splitting again is stable

  /** Every token is bare words and quoted texts in a row; in the last the last quote may be open. */
  ghost predicate AllPieced(parts: seq<string>) {
    parts != [] ==>
      && (forall k :: 0 <= k < |parts| - 1 ==> Pieced(parts[k]))
      && PiecedOpen(parts[|parts| - 1])
  }

  /** Splitting the tokens of any text, joined by spaces, gives the same tokens again if and only
      if each of them is made of bare words and quoted texts, double-quoted ones without a
      backslash; in the last a quote may be left open. */
  lemma {:induction false} StableIff(text: string)
    ensures Tokens(Join(' ', Tokens(text))) == Tokens(text) <==> AllPieced(Tokens(text))
  {
    var parts := Tokens(text);
    TokensAreBounded(text);
    if parts != [] {
      forall k | 0 <= k < |parts| - 1 ensures Replays(parts[k], false, false) <==> Pieced(parts[k]) {
        ReplaysIffPieced(parts[k]);
      }
      ReplaysIffPieced(parts[|parts| - 1]);
    }
    assert AllReplay(parts) <==> AllPieced(parts);
    if Tokens(Join(' ', parts)) == parts {
      StableReplays(parts);
    }
    if AllReplay(parts) {
      ReplaysStable(parts);
    }
  }

  /** Tokens that are made so and end outside quotes are read back as they were put together. */
  lemma {:induction false} WrittenTokensAreRead(parts: seq<string>)
    requires forall k :: 0 <= k < |parts| ==> parts[k] != "" && Pieced(parts[k])
    ensures Tokens(Join(' ', parts)) == parts
  {
    if parts != [] {
      forall k | 0 <= k < |parts| ensures Replays(parts[k], false, false) {
        ReplaysIffPieced(parts[k]);
      }
      RunJoined(parts, false, false);
      JoinedTokens(parts, false, false);
    }
  }

  /** So on all input without an escaped quote or backslash. */
  lemma {:induction false} RetokenizingIsStable(text: string)
    requires PlainEscapes(text)
    ensures Tokens(Join(' ', Tokens(text))) == Tokens(text)
  {
    var s, parts := Run(START, text), Tokens(text);
    RunReplays(text);
    assert s.current != "" ==> parts == s.parts + [s.current];
    TokensAreBounded(text);
    ReplaysStable(parts);
  }

  /** And on all input without backslashes. */
  lemma {:induction false} NoBackslashIsStable(text: string)
    requires '\\' !in text
    ensures Tokens(Join(' ', Tokens(text))) == Tokens(text)
  {
    forall k | 0 <= k < |text| ensures !Run(START, text[..k]).escape {
      NoBackslash(text, k);
    }
    RetokenizingIsStable(text);
  }

  lemma {:induction false} RunTo(text: string, s: Scan, c: char, t: Scan)
    requires Run(START, text) == s && Step(s, c) == t
    ensures Run(START, text + [c]) == t
  {
    RunSnoc(START, text, c);
  }

  /** With an escaped quote it can fail: the escape is dropped from the token but the quote kept. */
  lemma {:induction false} EscapedQuoteIsNotStable() returns (text: string)
    ensures Tokens(Join(' ', Tokens(text))) != Tokens(text)
  {
    var q1, q2, q3 := ['"'], ['"'] + ['"'], ['"'] + ['"'] + ['"'];
    var t1 := [] + ['"'];
    var t2 := t1 + ['\\'];
    var t3 := t2 + ['"'];
    var t4 := t3 + ['"'];
    var t5 := t4 + [' '];
    text := t5 + ['c'];
    RunTo("", START, '"', Scan([], q1, false, true, false));
    RunTo(t1, Scan([], q1, false, true, false), '\\', Scan([], q1, false, true, true));
    RunTo(t2, Scan([], q1, false, true, true), '"', Scan([], q2, false, true, false));
    RunTo(t3, Scan([], q2, false, true, false), '"', Scan([], q3, false, false, false));
    RunTo(t4, Scan([], q3, false, false, false), ' ', Scan([q3], "", false, false, false));
    RunTo(t5, Scan([q3], "", false, false, false), 'c', Scan([q3], "c", false, false, false));
    assert Tokens(text) == [q3, "c"];
    MisreadJoined(q1, q2, q3);
  }

  lemma {:induction false} MisreadJoined(q1: string, q2: string, q3: string)
    requires q1 == ['"'] && q2 == q1 + ['"'] && q3 == q2 + ['"']
    ensures |Tokens(Join(' ', [q3, "c"]))| == 1
  {
    var t4 := q3 + [' '];
    var t5 := t4 + ['c'];
    assert Join(' ', [q3, "c"]) == t5 by { assert [q3, "c"][..1] == [q3]; }
    RunTo("", START, '"', Scan([], q1, false, true, false));
    assert [] + ['"'] == q1;
    RunTo(q1, Scan([], q1, false, true, false), '"', Scan([], q2, false, false, false));
    RunTo(q2, Scan([], q2, false, false, false), '"', Scan([], q3, false, true, false));
    RunTo(q3, Scan([], q3, false, true, false), ' ', Scan([], t4, false, true, false));
    RunTo(t4, Scan([], t4, false, true, false), 'c', Scan([], t5, false, true, false));
  }

  // ---------------------------------------------------------------- words

  /** A token without a pair of equal quotes around it. */
  function Unquoted(p: string): string {
    if |p| >= 2 && p[0] == p[|p| - 1] && (p[0] == '\'' || p[0] == '"') then p[1..|p| - 1] else p
  }

  method SplitShellWords(s: string) returns (parts: seq<string>)
    ensures |parts| == |Tokens(s)| && forall k :: 0 <= k < |parts| ==> parts[k] == Unquoted(Tokens(s)[k])
  {
    parts := SplitSpaceRespectingQuotes(s);
    for i := 0 to |parts|
      invariant |parts| == |Tokens(s)|
      invariant forall k :: 0 <= k < i ==> parts[k] == Unquoted(Tokens(s)[k])
      invariant forall k :: i <= k < |parts| ==> parts[k] == Tokens(s)[k]
    {
      var p := parts[i];
      if |p| >= 2 {
        if (p[0] == '\'' && p[|p| - 1] == '\'') || (p[0] == '"' && p[|p| - 1] == '"') {
          parts := parts[i := p[1..|p| - 1]];
        }
      }
    }
  }

  /** Words, too, are together no longer than the input. */
  lemma {:induction false} WordsAreBounded(tokens: seq<string>, words: seq<string>)
    requires |words| == |tokens| && forall k :: 0 <= k < |words| ==> words[k] == Unquoted(tokens[k])
    ensures Total(words) <= Total(tokens)
    decreases |words|
  {
    if words != [] {
      WordsAreBounded(tokens[..|tokens| - 1], words[..|words| - 1]);
    }
  }
}
