/** Volume specifications: the printer of internal/api/containers.go, the list splitter of
    internal/container/volume_list.go and the parser of internal/container/volumes.go. */
module VolumeSpecs {
  import opened Splitting
  import opened Trimming
  import opened Wrappers

  datatype VolumeType = Bind | Tmpfs | Nfs | Named

  datatype Mount = Mount(kind: VolumeType, source: string, target: string, readOnly: bool,
                         propagation: string, selinux: string, noCopy: bool)

  datatype Spec = Spec(mount: Mount, nfsOptions: string, tmpfsSize: string, tmpfsMode: string)

  predicate HasPrefix(s: string, prefix: string) { prefix <= s }

  // ---------------------------------------------------------------- printing

  function Access(v: Mount): seq<string> {
    if v.readOnly then ["ro"] else if v.propagation != "" || v.selinux != "" || v.noCopy then ["rw"] else []
  }

  function IfSet(o: string): seq<string> { if o != "" then [o] else [] }

  function Options(v: Mount): seq<string> {
    Access(v) + IfSet(v.propagation) + IfSet(v.selinux) + (if v.noCopy then ["nocopy"] else [])
  }

  function WithOptions(head: string, os: seq<string>): string {
    if os == [] then head else head + ":" + Join(',', os)
  }

  function MountSpec(v: Mount): string { WithOptions(v.source + ":" + v.target, Options(v)) }

  method PrintMountSpec(v: Mount) returns (value: string)
    ensures value == MountSpec(v)
  {
    value := v.source + ":" + v.target;
    var options: seq<string> := [];
    if v.readOnly {
      options := options + ["ro"];
    } else if v.propagation != "" || v.selinux != "" || v.noCopy {
      options := options + ["rw"];
    }
    if v.propagation != "" {
      options := options + [v.propagation];
    }
    if v.selinux != "" {
      options := options + [v.selinux];
    }
    if v.noCopy {
      options := options + ["nocopy"];
    }
    assert options == Options(v);
    if |options| > 0 {
      value := value + ":" + Join(',', options);
    }
  }

  // ---------------------------------------------------------------- options

  predicate Propagates(o: string) {
    o == "shared" || o == "rshared" || o == "slave" || o == "rslave" || o == "private" || o == "rprivate"
  }

  function ApplyOption(s: Spec, option: string): Spec {
    var o, m := TrimSpace(option), s.mount;
    if o == "ro" then s.(mount := m.(readOnly := true))
    else if o == "rw" then s.(mount := m.(readOnly := false))
    else if Propagates(o) then s.(mount := m.(propagation := o))
    else if o == "Z" || o == "z" then s.(mount := m.(selinux := o))
    else if o == "nocopy" then s.(mount := m.(noCopy := true))
    else if HasPrefix(o, "size=") then s.(tmpfsSize := o[5..])
    else if HasPrefix(o, "mode=") then s.(tmpfsMode := o[5..])
    else if HasPrefix(o, "nfsopts=") then s.(nfsOptions := o[8..])
    else s
  }

  function ApplyOptions(s: Spec, options: seq<string>): Spec
    decreases |options|
  {
    if options == [] then s
    else ApplyOption(ApplyOptions(s, options[..|options| - 1]), options[|options| - 1])
  }

  method ApplyOptionList(s: Spec, options: string) returns (spec: Spec)
    ensures spec == ApplyOptions(s, SplitAll(',', options))
  {
    spec := s;
    var parts := SplitAll(',', options);
    var i := 0;
    while i < |parts|
      invariant 0 <= i <= |parts| && spec == ApplyOptions(s, parts[..i])
    {
      assert parts[..i + 1][..i] == parts[..i];
      spec := ApplyOption(spec, parts[i]);
      i := i + 1;
    }
    assert parts[..i] == parts;
  }

  // ---------------------------------------------------------------- parsing

  function LastIndex(s: string, c: char, n: nat): (k: int)
    requires n <= |s|
    ensures -1 <= k < n && (k >= 0 ==> s[k] == c)
  {
    if n == 0 then -1 else if s[n - 1] == c then n - 1 else LastIndex(s, c, n - 1)
  }

  function SplitOpts(s: string): (string, string) {
    var k := LastIndex(s, ':', |s|);
    if k < 0 then (s, "")
    else if '/' in s[k + 1..] || '\\' in s[k + 1..] then (s, "")
    else (s[..k], s[k + 1..])
  }

  function Blank(kind: VolumeType, source: string, target: string): Spec {
    Spec(Mount(kind, source, target, false, "", "", false), "", "", "")
  }

  function KindOf(source: string): VolumeType { if '/' in source || '\\' in source then Bind else Named }

  /** Source, target and options; one part alone is a target. */
  function ParsePlain(parts: seq<string>): Spec
    requires 1 <= |parts| <= 3
  {
    if |parts| == 1 then Blank(Tmpfs, "", parts[0])
    else
      var plain := Blank(Bind, parts[0], parts[1]);
      var s := if |parts| == 3 then ApplyOptions(plain, SplitAll(',', parts[2])) else plain;
      s.(mount := s.mount.(kind := KindOf(s.mount.source)))
  }

  /** None is the error of an incomplete NFS specification. */
  function ParseVolumeSpec(spec: string): Option<Spec> {
    if HasPrefix(spec, "tmpfs:") then
      var (target, opts) := SplitOpts(spec[6..]);
      Some(ApplyOptions(Blank(Tmpfs, "", target), SplitAll(',', opts)))
    else if HasPrefix(spec, "nfs:") then
      var rest := if HasPrefix(spec, "nfs://") then spec[6..] else spec;
      var rest' := if HasPrefix(rest, "nfs:") then rest[4..] else rest;
      var parts := SplitN(':', rest', 0, 3);
      if |parts| < 3 then None
      else
        var (target, opts) := SplitOpts(parts[2]);
        var blank := Blank(Nfs, parts[0] + ":" + parts[1], target);
        Some(ApplyOptions(blank.(nfsOptions := "hard,intr,rsize=1048576,wsize=1048576"), SplitAll(',', opts)))
    else
      PartsOfSplit(':', spec, 3);
      Some(ParsePlain(SplitN(':', spec, 0, 3)))
  }

  function VolumeMountFromSpec(value: string): Option<Mount> {
    match ParseVolumeSpec(TrimSpace(value))
    case None => None
    case Some(s) => Some(s.mount)
  }

  // ---------------------------------------------------------------- lists

  predicate IsVolumeOption(o: string) {
    || o == "ro" || o == "rw" || Propagates(o) || o == "Z" || o == "z" || o == "nocopy"
    || HasPrefix(o, "size=") || HasPrefix(o, "mode=") || HasPrefix(o, "nfsopts=")
    || o == "hard" || o == "soft" || o == "intr" || o == "nointr"
    || HasPrefix(o, "rsize=") || HasPrefix(o, "wsize=")
  }

  /** The finished specs and the one still being put together. */
  datatype Groups = Groups(specs: seq<string>, current: string)

  function AddToken(g: Groups, token: string): Groups {
    var t := TrimSpace(token);
    if t == "" then g
    else if g.current != "" && IsVolumeOption(t) then g.(current := g.current + "," + t)
    else Groups(if g.current != "" then g.specs + [g.current] else g.specs, t)
  }

  function Group(g: Groups, tokens: seq<string>): Groups
    decreases |tokens|
  {
    if tokens == [] then g else AddToken(Group(g, tokens[..|tokens| - 1]), tokens[|tokens| - 1])
  }

  function Finish(g: Groups): seq<string> { if g.current != "" then g.specs + [g.current] else g.specs }

  function SpecsOf(value: string): seq<string> { Finish(Group(Groups([], ""), SplitAll(',', value))) }

  method SplitVolumeSpecs(value: string) returns (specs: seq<string>)
    ensures specs == SpecsOf(value)
  {
    specs := [];
    var current := "";
    var tokens := SplitAll(',', value);
    var i := 0;
    while i < |tokens|
      invariant 0 <= i <= |tokens| && Groups(specs, current) == Group(Groups([], ""), tokens[..i])
    {
      assert tokens[..i + 1][..i] == tokens[..i];
      var token := TrimSpace(tokens[i]);
      if token != "" {
        if current != "" && IsVolumeOption(token) {
          current := current + "," + token;
        } else {
          if current != "" {
            specs := specs + [current];
          }
          current := token;
        }
      }
      i := i + 1;
    }
    assert tokens[..i] == tokens;
    if current != "" {
      specs := specs + [current];
    }
  }

  // ---------------------------------------------------------------- one mount

  predicate Plain(s: string) { ':' !in s && ',' !in s && Trimmed(s) }

  /** The bind and named mounts the API shows, apart from their type. */
  predicate Printable(v: Mount) {
    && Plain(v.source) && Plain(v.target) && v.target != ""
    && v.source != "tmpfs" && v.source != "nfs"
    && (v.propagation == "" || Propagates(v.propagation)) && (v.selinux == "" || v.selinux == "Z" || v.selinux == "z")
  }

  lemma {:induction false} ApplyAppend(s: Spec, a: seq<string>, b: seq<string>)
    ensures ApplyOptions(s, a + b) == ApplyOptions(ApplyOptions(s, a), b)
    decreases |b|
  {
    if b == [] {
      assert a + b == a;
    } else {
      assert (a + b)[..|a + b| - 1] == a + b[..|b| - 1];
      ApplyAppend(s, a, b[..|b| - 1]);
    }
  }

  lemma {:induction false} ApplyOne(s: Spec, o: string)
    ensures ApplyOptions(s, [o]) == ApplyOption(s, o)
  {
    assert [o][..0] == [];
  }

  /** The words options are printed with. */
  predicate Word(o: string) {
    o == "ro" || o == "rw" || Propagates(o) || o == "Z" || o == "z" || o == "nocopy"
  }

  predicate Letters(o: string) { o != "" && forall i :: 0 <= i < |o| ==> 'Z' <= o[i] <= 'z' }

  lemma {:induction false} WordsAreLetters(o: string)
    requires Word(o)
    ensures Letters(o)
  {
  }

  lemma {:induction false} LettersArePlain(o: string)
    requires Letters(o)
    ensures TrimSpace(o) == o && ',' !in o && ':' !in o
  {
    assert Trimmed(o);
    TrimmedStays(o);
  }

  lemma {:induction false} WordIsOption(o: string)
    requires Word(o)
    ensures TrimSpace(o) == o && ',' !in o && ':' !in o && o != "" && IsVolumeOption(o)
  {
    WordsAreLetters(o);
    LettersArePlain(o);
  }

  /** What a printed word sets. */
  lemma {:induction false} WordIsApplied(s: Spec, o: string)
    requires Word(o)
    ensures o == "ro" ==> ApplyOption(s, o) == s.(mount := s.mount.(readOnly := true))
    ensures o == "rw" ==> ApplyOption(s, o) == s.(mount := s.mount.(readOnly := false))
    ensures Propagates(o) ==> ApplyOption(s, o) == s.(mount := s.mount.(propagation := o))
    ensures o == "Z" || o == "z" ==> ApplyOption(s, o) == s.(mount := s.mount.(selinux := o))
    ensures o == "nocopy" ==> ApplyOption(s, o) == s.(mount := s.mount.(noCopy := true))
  {
    WordIsOption(o);
  }

  ghost predicate Words(os: seq<string>) { forall o <- os :: Word(o) }

  lemma {:induction false} OptionsAreWords(v: Mount)
    requires Printable(v)
    ensures Words(Options(v))
  {
  }

  lemma {:induction false} OneOption(s: Spec, os: seq<string>, t: Spec)
    requires os == [] ==> t == s
    requires os != [] ==> os == [os[0]] && t == ApplyOption(s, os[0])
    ensures ApplyOptions(s, os) == t
  {
    if os != [] {
      ApplyOne(s, os[0]);
    }
  }

  /** Reading the printed options sets exactly the fields they were printed from. */
  lemma {:induction false} OptionsAreRead(v: Mount, kind: VolumeType)
    requires Printable(v)
    ensures ApplyOptions(Blank(kind, v.source, v.target), Options(v)) == Spec(v.(kind := kind), "", "", "")
  {
    var a, b, c, d := Access(v), IfSet(v.propagation), IfSet(v.selinux), if v.noCopy then ["nocopy"] else [];
    var s0 := Blank(kind, v.source, v.target);
    var s1 := s0.(mount := s0.mount.(readOnly := v.readOnly));
    var s2 := s1.(mount := s1.mount.(propagation := v.propagation));
    var s3 := s2.(mount := s2.mount.(selinux := v.selinux));
    var s4 := s3.(mount := s3.mount.(noCopy := v.noCopy));
    if a != [] { WordIsApplied(s0, a[0]); }
    OneOption(s0, a, s1);
    if b != [] { WordIsApplied(s1, b[0]); }
    OneOption(s1, b, s2);
    if c != [] { WordIsApplied(s2, c[0]); }
    OneOption(s2, c, s3);
    if d != [] { WordIsApplied(s3, d[0]); }
    OneOption(s3, d, s4);
    ApplyAppend(s0, a, b);
    ApplyAppend(s0, a + b, c);
    ApplyAppend(s0, a + b + c, d);
    assert Options(v) == a + b + c + d;
    assert s4 == Spec(v.(kind := kind), "", "", "");
  }

  lemma {:induction false} NoScheme(v: Mount, rest: string, word: string)
    requires Printable(v) && v.source != word && ':' !in word
    ensures !HasPrefix(v.source + ":" + rest, word + ":")
  {
    var s := v.source + ":" + rest;
    if HasPrefix(s, word + ":") {
      assert v.source + ":" <= s;
      SameHead(':', s, v.source, word);
    }
  }

  lemma {:induction false} LastOfJoin(sep: char, pieces: seq<string>)
    requires pieces != [] && pieces[|pieces| - 1] != ""
    ensures var j, l := Join(sep, pieces), pieces[|pieces| - 1];
            j != "" && j[|j| - 1] == l[|l| - 1]
  {
  }

  lemma {:induction false} LastChar(a: string, b: string)
    requires b != ""
    ensures (a + b)[|a + b| - 1] == b[|b| - 1]
  {
  }

  /** A source, a colon and something that ends well. */
  lemma {:induction false} EdgesStay(source: string, rest: string)
    requires Trimmed(source) && rest != "" && !IsSpace(rest[|rest| - 1])
    ensures TrimSpace(source + ":" + rest) == source + ":" + rest
  {
    var s := source + ":" + rest;
    LastChar(source + ":", rest);
    assert s[0] == if source != "" then source[0] else ':';
    TrimmedStays(s);
  }

  lemma {:induction false} ColonAssoc(a: string, b: string, c: string)
    ensures a + ":" + (b + ":" + c) == a + ":" + b + ":" + c
  {
  }

  lemma {:induction false} SpecEdges(source: string, target: string, os: seq<string>)
    requires Trimmed(source) && Trimmed(target) && target != "" && Words(os)
    ensures TrimSpace(WithOptions(source + ":" + target, os)) == WithOptions(source + ":" + target, os)
  {
    if os == [] {
      EdgesStay(source, target);
    } else {
      var j, o := Join(',', os), os[|os| - 1];
      WordsAreLetters(o);
      LastOfJoin(',', os);
      LastChar(target + ":", j);
      EdgesStay(source, target + ":" + j);
      ColonAssoc(source, target, j);
    }
  }

  lemma {:induction false} SplitSpec(source: string, target: string, os: seq<string>)
    requires ':' !in source && ':' !in target
    ensures SplitN(':', WithOptions(source + ":" + target, os), 0, 3) ==
            if os == [] then [source, target] else [source, target, Join(',', os)]
  {
    if os == [] {
      SplitNCons(':', source, target, 3);
      SplitNOne(':', target, 2);
    } else {
      var o := Join(',', os);
      SplitNCons(':', source, target + ":" + o, 3);
      SplitNCons(':', target, o, 2);
      SplitNOne(':', o, 1);
      ColonAssoc(source, target, o);
    }
  }

  lemma {:induction false} SpecHasNoScheme(v: Mount)
    requires Printable(v)
    ensures !HasPrefix(MountSpec(v), "tmpfs:") && !HasPrefix(MountSpec(v), "nfs:")
  {
    var rest := if Options(v) == [] then v.target else v.target + ":" + Join(',', Options(v));
    assert MountSpec(v) == v.source + ":" + rest;
    NoScheme(v, rest, "tmpfs");
    NoScheme(v, rest, "nfs");
    assert "tmpfs" + ":" == "tmpfs:" && "nfs" + ":" == "nfs:";
  }

  lemma {:induction false} PlainIsRead(v: Mount, parts: seq<string>)
    requires Printable(v)
    requires parts == if Options(v) == [] then [v.source, v.target] else [v.source, v.target, Join(',', Options(v))]
    ensures ParsePlain(parts).mount == v.(kind := KindOf(v.source))
  {
    OptionsAreWords(v);
    OptionsAreRead(v, Bind);
    if Options(v) != [] {
      forall o | o in Options(v) ensures ',' !in o {
        WordIsOption(o);
      }
      SplitAllOfJoin(',', Options(v));
    }
  }

  /** Reading a printed mount gives it back, but for its type, which is taken from the source. */
  lemma {:induction false} MountReadsBack(v: Mount)
    requires Printable(v)
    ensures VolumeMountFromSpec(MountSpec(v)) == Some(v.(kind := KindOf(v.source)))
  {
    OptionsAreWords(v);
    SpecEdges(v.source, v.target, Options(v));
    SpecHasNoScheme(v);
    SplitSpec(v.source, v.target, Options(v));
    PlainIsRead(v, SplitN(':', MountSpec(v), 0, 3));
  }

  /** So it is the same mount exactly when its type agrees: a bind mount's source has a path
      separator, a named volume's has none. */
  lemma {:induction false} MountRoundTrip(v: Mount)
    requires Printable(v)
    ensures VolumeMountFromSpec(MountSpec(v)) == Some(v) <==> v.kind == KindOf(v.source)
  {
    MountReadsBack(v);
  }

  // ---------------------------------------------------------------- lists of mounts

  function HeadToken(head: string, os: seq<string>): string {
    if os == [] then head else head + ":" + os[0]
  }

  function RestTokens(os: seq<string>): seq<string> { if os == [] then [] else os[1..] }

  /** The comma-separated tokens of a printed mount. */
  function TokensOf(v: Mount): seq<string> {
    [HeadToken(v.source + ":" + v.target, Options(v))] + RestTokens(Options(v))
  }

  lemma {:induction false} TokensJoin(head: string, os: seq<string>)
    ensures Join(',', [HeadToken(head, os)] + RestTokens(os)) == WithOptions(head, os)
  {
    if |os| > 1 {
      assert os == [os[0]] + os[1..];
      JoinCons(',', os[0], os[1..]);
      JoinCons(',', head + ":" + os[0], os[1..]);
      assert head + ":" + os[0] + "," + Join(',', os[1..]) == head + ":" + (os[0] + "," + Join(',', os[1..]));
    } else if |os| == 1 {
      assert os == [os[0]] && os[1..] == [];
      assert [HeadToken(head, os)] + RestTokens(os) == [head + ":" + os[0]];
    } else {
      assert [head] + [] == [head];
    }
  }

  /** Sources that look like an option to the list splitter. */
  predicate OptionLike(source: string) {
    || HasPrefix(source, "size=") || HasPrefix(source, "mode=") || HasPrefix(source, "nfsopts=")
    || HasPrefix(source, "rsize=") || HasPrefix(source, "wsize=")
  }

  lemma {:induction false} PrefixOfSource(source: string, rest: string, p: string)
    requires ':' !in p
    ensures HasPrefix(source + ":" + rest, p) <==> HasPrefix(source, p)
  {
    var s := source + ":" + rest;
    if HasPrefix(s, p) {
      assert forall k :: 0 <= k < |p| ==> p[k] == s[k];
      assert s[|source|] == ':';
      assert |p| <= |source|;
    }
  }

  lemma {:induction false} HeadIsOption(source: string, rest: string)
    ensures IsVolumeOption(source + ":" + rest) <==> OptionLike(source)
  {
    var s := source + ":" + rest;
    assert s[|source|] == ':';
    assert ':' in s;
    PrefixOfSource(source, rest, "size=");
    PrefixOfSource(source, rest, "mode=");
    PrefixOfSource(source, rest, "nfsopts=");
    PrefixOfSource(source, rest, "rsize=");
    PrefixOfSource(source, rest, "wsize=");
    if Word(s) {
      WordIsOption(s);
    }
  }

  lemma {:induction false} GroupAppend(g: Groups, a: seq<string>, b: seq<string>)
    ensures Group(g, a + b) == Group(Group(g, a), b)
    decreases |b|
  {
    if b == [] {
      assert a + b == a;
    } else {
      assert (a + b)[..|a + b| - 1] == a + b[..|b| - 1];
      GroupAppend(g, a, b[..|b| - 1]);
    }
  }

  /** Options stay with the mount before them. */
  lemma {:induction false} GroupOptions(g: Groups, os: seq<string>)
    requires os != [] && g.current != "" && forall o <- os :: Word(o)
    ensures Group(g, os) == g.(current := g.current + "," + Join(',', os))
    decreases |os|
  {
    var n := |os| - 1;
    var o := os[n];
    assert o in os;
    WordIsOption(o);
    if n == 0 {
      assert os[..0] == [];
    } else {
      forall m | m in os[..n] ensures m in os { }
      GroupOptions(g, os[..n]);
      assert g.current + "," + Join(',', os[..n]) + "," + o == g.current + "," + (Join(',', os[..n]) + "," + o);
    }
  }

  lemma {:induction false} AddHead(source: string, target: string, os: seq<string>, g: Groups)
    requires Plain(source) && Plain(target) && target != "" && Words(os)
    ensures var t := HeadToken(source + ":" + target, os);
            && ',' !in t && t != ""
            && AddToken(g, t) == if g.current != "" && OptionLike(source) then g.(current := g.current + "," + t)
                                 else Groups(if g.current != "" then g.specs + [g.current] else g.specs, t)
  {
    var t := HeadToken(source + ":" + target, os);
    var rest := if os == [] then target else target + ":" + os[0];
    assert t == source + ":" + rest;
    if os != [] {
      assert os[0] in os;
      WordIsOption(os[0]);
      WordsAreLetters(os[0]);
      LastChar(target + ":", os[0]);
    }
    EdgesStay(source, rest);
    HeadIsOption(source, rest);
  }

  /** The tokens of one mount make one spec, unless its source is taken for an option. */
  lemma {:induction false} GroupTokens(g: Groups, source: string, target: string, os: seq<string>)
    requires Plain(source) && Plain(target) && target != "" && Words(os)
    ensures var spec := WithOptions(source + ":" + target, os);
            Group(g, [HeadToken(source + ":" + target, os)] + RestTokens(os)) ==
            if g.current != "" && OptionLike(source) then g.(current := g.current + "," + spec)
            else Groups(if g.current != "" then g.specs + [g.current] else g.specs, spec)
  {
    var t, rest := HeadToken(source + ":" + target, os), RestTokens(os);
    AddHead(source, target, os, g);
    GroupAppend(g, [t], rest);
    assert Group(g, [t]) == AddToken(g, t) by { assert [t][..0] == []; }
    TokensJoin(source + ":" + target, os);
    forall o | o in rest ensures Word(o) {
      assert o in os;
    }
    GroupRest(AddToken(g, t), t, rest, if g.current != "" && OptionLike(source) then g.current + "," else "");
  }

  lemma {:induction false} GroupRest(g: Groups, t: string, rest: seq<string>, before: string)
    requires g.current == before + t && t != "" && Words(rest)
    ensures Group(g, rest) == g.(current := before + Join(',', [t] + rest))
  {
    if rest == [] {
      assert [t] + rest == [t];
    } else {
      GroupOptions(g, rest);
      JoinCons(',', t, rest);
      Assoc(before, t, "," + Join(',', rest));
      assert before + t + "," + Join(',', rest) == before + t + ("," + Join(',', rest));
      assert t + "," + Join(',', rest) == t + ("," + Join(',', rest));
    }
  }

  lemma {:induction false} GroupMount(g: Groups, v: Mount)
    requires Printable(v)
    ensures Group(g, TokensOf(v)) ==
            if g.current != "" && OptionLike(v.source) then g.(current := g.current + "," + MountSpec(v))
            else Groups(if g.current != "" then g.specs + [g.current] else g.specs, MountSpec(v))
  {
    OptionsAreWords(v);
    GroupTokens(g, v.source, v.target, Options(v));
  }

  /** What the tokens of one mount do. */
  function Added(g: Groups, spec: string, optionLike: bool): Groups {
    if g.current != "" && optionLike then g.(current := g.current + "," + spec)
    else Groups(if g.current != "" then g.specs + [g.current] else g.specs, spec)
  }

  ghost predicate Spells(tokens: seq<string>, spec: string) {
    tokens != [] && Join(',', tokens) == spec && forall t <- tokens :: ',' !in t
  }

  ghost predicate Makes(tokens: seq<string>, spec: string, optionLike: bool) {
    spec != "" && forall g :: Group(g, tokens) == Added(g, spec, optionLike)
  }

  lemma {:induction false} MountMakes(v: Mount)
    requires Printable(v)
    ensures Spells(TokensOf(v), MountSpec(v)) && Makes(TokensOf(v), MountSpec(v), OptionLike(v.source))
  {
    TokensJoin(v.source + ":" + v.target, Options(v));
    TokensHaveNoComma(v);
    forall g ensures Group(g, TokensOf(v)) == Added(g, MountSpec(v), OptionLike(v.source)) {
      GroupMount(g, v);
    }
  }

  lemma {:induction false} MountMakesAs(v: Mount, tokens: seq<string>, spec: string, optionLike: bool)
    requires Printable(v) && tokens == TokensOf(v) && spec == MountSpec(v) && optionLike == OptionLike(v.source)
    ensures Spells(tokens, spec) && Makes(tokens, spec, optionLike)
  {
    MountMakes(v);
  }

  lemma {:induction false} TokensHaveNoComma(v: Mount)
    requires Printable(v)
    ensures forall t <- TokensOf(v) :: ',' !in t
  {
    var os := Options(v);
    OptionsAreWords(v);
    AddHead(v.source, v.target, os, Groups([], ""));
    forall o | o in os ensures ',' !in o {
      WordIsOption(o);
    }
  }

  function Concat(tss: seq<seq<string>>): seq<string> {
    if tss == [] then [] else Concat(tss[..|tss| - 1]) + tss[|tss| - 1]
  }

  /** How many after the first look like an option. */
  function Swallowed(likes: seq<bool>): nat {
    if |likes| <= 1 then 0 else Swallowed(likes[..|likes| - 1]) + if likes[|likes| - 1] then 1 else 0
  }

  /** Joining the specs is joining all tokens. */
  lemma {:induction false} ConcatJoins(tss: seq<seq<string>>, specs: seq<string>)
    requires tss != [] && |tss| == |specs| && forall k :: 0 <= k < |tss| ==> Spells(tss[k], specs[k])
    ensures Concat(tss) != [] && Join(',', specs) == Join(',', Concat(tss))
    ensures forall t <- Concat(tss) :: ',' !in t
    decreases |tss|
  {
    var n := |tss| - 1;
    assert Spells(tss[n], specs[n]);
    if n == 0 {
      assert tss[..0] == [] && Concat(tss) == [] + tss[0] && specs == [specs[0]];
      Units(tss[0]);
    } else {
      ConcatJoins(tss[..n], specs[..n]);
      assert specs == specs[..n] + [specs[n]];
      JoinAppend(',', specs[..n], [specs[n]]);
      JoinAppend(',', Concat(tss[..n]), tss[n]);
    }
  }

  lemma {:induction false} ConcatStep(tss: seq<seq<string>>, spec: string, optionLike: bool, g: Groups)
    requires tss != [] && Makes(tss[|tss| - 1], spec, optionLike)
    ensures Group(g, Concat(tss)) == Added(Group(g, Concat(tss[..|tss| - 1])), spec, optionLike)
  {
    GroupAppend(g, Concat(tss[..|tss| - 1]), tss[|tss| - 1]);
  }

  /** One spec for every mount but the swallowed ones, and exactly the specs when there is none. */
  lemma {:induction false} ConcatGroups(tss: seq<seq<string>>, specs: seq<string>, likes: seq<bool>, g: Groups)
    requires tss != [] && |tss| == |specs| == |likes|
    requires forall k :: 0 <= k < |tss| ==> Makes(tss[k], specs[k], likes[k])
    requires g == Group(Groups([], ""), Concat(tss))
    ensures g.current != "" && |g.specs| + 1 + Swallowed(likes) == |tss|
    ensures Swallowed(likes) == 0 ==> g.specs + [g.current] == specs
    decreases |tss|
  {
    var n := |tss| - 1;
    assert Makes(tss[n], specs[n], likes[n]);
    var g0 := Group(Groups([], ""), Concat(tss[..n]));
    ConcatStep(tss, specs[n], likes[n], Groups([], ""));
    assert specs == specs[..n] + [specs[n]];
    if n == 0 {
      assert tss[..0] == [] && g0 == Groups([], "");
      assert specs == [specs[0]];
    } else {
      ConcatGroups(tss[..n], specs[..n], likes[..n], g0);
    }
  }

  lemma {:induction false} SwallowedNone(likes: seq<bool>)
    ensures Swallowed(likes) == 0 <==> forall k :: 1 <= k < |likes| ==> !likes[k]
    decreases |likes|
  {
    if |likes| > 1 {
      SwallowedNone(likes[..|likes| - 1]);
    }
  }

  function Specs(ms: seq<Mount>): seq<string> { seq(|ms|, k requires 0 <= k < |ms| => MountSpec(ms[k])) }

  /** Printing mounts, joining them with commas and splitting the list again gives the printed
      mounts exactly when no source after the first looks like an option. */
  lemma {:induction false} ListRoundTrip(ms: seq<Mount>)
    requires forall k :: 0 <= k < |ms| ==> Printable(ms[k])
    ensures SpecsOf(Join(',', Specs(ms))) == Specs(ms) <==>
            forall k :: 1 <= k < |ms| ==> !OptionLike(ms[k].source)
  {
    if ms == [] {
      NoMounts();
      assert Specs(ms) == [];
    } else {
      SomeMounts(ms, Specs(ms));
    }
  }

  lemma {:induction false} NoMounts()
    ensures SpecsOf(Join(',', [])) == []
  {
    SplitNOne(',', "", 1);
    assert Group(Groups([], ""), [""]) == Groups([], "") by { assert [""][..0] == []; }
  }

  lemma {:induction false} SomeMounts(ms: seq<Mount>, specs: seq<string>)
    requires ms != [] && |specs| == |ms|
    requires forall k :: 0 <= k < |ms| ==> Printable(ms[k]) && specs[k] == MountSpec(ms[k])
    ensures SpecsOf(Join(',', specs)) == specs <==> forall k :: 1 <= k < |ms| ==> !OptionLike(ms[k].source)
  {
    var tss := seq(|ms|, k requires 0 <= k < |ms| => TokensOf(ms[k]));
    var likes := seq(|ms|, k requires 0 <= k < |ms| => OptionLike(ms[k].source));
    MountsMake(ms, tss, specs, likes);
    ListGroups(tss, specs, likes);
    assert forall k :: 1 <= k < |ms| ==> likes[k] == OptionLike(ms[k].source);
  }

  lemma {:induction false} MountsMake(ms: seq<Mount>, tss: seq<seq<string>>, specs: seq<string>, likes: seq<bool>)
    requires |tss| == |specs| == |likes| == |ms|
    requires forall k :: 0 <= k < |ms| ==> Printable(ms[k]) && specs[k] == MountSpec(ms[k])
    requires forall k :: 0 <= k < |ms| ==> tss[k] == TokensOf(ms[k]) && likes[k] == OptionLike(ms[k].source)
    ensures forall k :: 0 <= k < |ms| ==> Spells(tss[k], specs[k]) && Makes(tss[k], specs[k], likes[k])
  {
    forall k | 0 <= k < |ms| ensures Spells(tss[k], specs[k]) && Makes(tss[k], specs[k], likes[k]) {
      MountMakesAs(ms[k], tss[k], specs[k], likes[k]);
    }
  }

  lemma {:induction false} ListGroups(tss: seq<seq<string>>, specs: seq<string>, likes: seq<bool>)
    requires tss != [] && |tss| == |specs| == |likes|
    requires forall k :: 0 <= k < |tss| ==> Spells(tss[k], specs[k]) && Makes(tss[k], specs[k], likes[k])
    ensures SpecsOf(Join(',', specs)) == specs <==> forall k :: 1 <= k < |likes| ==> !likes[k]
  {
    ConcatJoins(tss, specs);
    SplitAllOfJoin(',', Concat(tss));
    ConcatGroups(tss, specs, likes, Group(Groups([], ""), Concat(tss)));
    SwallowedNone(likes);
  }

  /** All of it together: the same mounts come back, in order. */
  lemma {:induction false} MountsRoundTrip(ms: seq<Mount>, k: nat)
    requires forall j :: 0 <= j < |ms| ==> Printable(ms[j]) && ms[j].kind == KindOf(ms[j].source)
    requires forall j :: 1 <= j < |ms| ==> !OptionLike(ms[j].source)
    requires k < |ms|
    ensures |SpecsOf(Join(',', Specs(ms)))| == |ms|
    ensures VolumeMountFromSpec(SpecsOf(Join(',', Specs(ms)))[k]) == Some(ms[k])
  {
    ListRoundTrip(ms);
    MountReadsBack(ms[k]);
    assert Specs(ms)[k] == MountSpec(ms[k]);
  }

  // ---------------------------------------------------------------- tmpfs and NFS specs

  lemma {:induction false} LastIndexIs(s: string, c: char, k: nat, n: nat)
    requires k < n <= |s| && s[k] == c && forall j :: k < j < n ==> s[j] != c
    ensures LastIndex(s, c, n) == k
  {
    if k < n - 1 {
      LastIndexIs(s, c, k, n - 1);
    }
  }

  lemma {:induction false} NoLastIndex(s: string, c: char, n: nat)
    requires n <= |s| && c !in s
    ensures LastIndex(s, c, n) == -1
  {
    if n > 0 {
      assert s[n - 1] in s;
      NoLastIndex(s, c, n - 1);
    }
  }

  /** Options are what follows the last colon, unless it holds a path separator. */
  lemma {:induction false} SplitOptsReads(target: string, opts: string)
    requires ':' !in opts
    ensures SplitOpts(target + ":" + opts) ==
            if '/' in opts || '\\' in opts then (target + ":" + opts, "") else (target, opts)
  {
    var s := target + ":" + opts;
    forall j | |target| < j < |s| ensures s[j] != ':' {
      assert s[j] == opts[j - |target| - 1];
    }
    LastIndexIs(s, ':', |target|, |s|);
    assert s[..|target|] == target && s[|target| + 1..] == opts;
  }

  ghost predicate OptionText(os: seq<string>) {
    os != [] && (forall o <- os :: ',' !in o) && ':' !in Join(',', os) && '/' !in Join(',', os) && '\\' !in Join(',', os)
  }

  /** "tmpfs:target:options" */
  lemma {:induction false} TmpfsIsRead(target: string, os: seq<string>)
    requires OptionText(os)
    ensures ParseVolumeSpec("tmpfs:" + (target + ":" + Join(',', os))) == Some(ApplyOptions(Blank(Tmpfs, "", target), os))
  {
    var rest := target + ":" + Join(',', os);
    var spec := "tmpfs:" + rest;
    assert spec[..6] == "tmpfs:" && spec[6..] == rest;
    SplitOptsReads(target, Join(',', os));
    SplitAllOfJoin(',', os);
  }

  lemma {:induction false} NfsParts(server: string, share: string, last: string, rest: string)
    requires ':' !in server && ':' !in share && server != "nfs" && rest == server + ":" + (share + ":" + last)
    ensures SplitN(':', rest, 0, 3) == [server, share, last] && !HasPrefix(rest, "nfs:")
  {
    if HasPrefix(rest, "nfs:") {
      assert server + ":" <= rest && "nfs" + ":" == "nfs:";
      SameHead(':', rest, server, "nfs");
    }
    SplitNCons(':', server, share + ":" + last, 3);
    SplitNCons(':', share, last, 2);
    SplitNOne(':', last, 1);
  }

  lemma {:induction false} NfsScheme(rest: string)
    requires !HasPrefix(rest, "nfs:")
    ensures var spec := "nfs://" + rest;
            !HasPrefix(spec, "tmpfs:") && HasPrefix(spec, "nfs:") && HasPrefix(spec, "nfs://") && spec[6..] == rest
  {
    var spec := "nfs://" + rest;
    assert spec[..6] == "nfs://" && spec[..4] == "nfs:" && spec[0] == 'n';
  }

  /** "nfs://server:share:target:options": the source is "server:share", with the default options of
      NFS unless they are given. */
  lemma {:induction false} NfsIsRead(server: string, share: string, target: string, os: seq<string>)
    requires OptionText(os) && ':' !in server && ':' !in share && server != "nfs"
    ensures ParseVolumeSpec("nfs://" + (server + ":" + (share + ":" + (target + ":" + Join(',', os))))) ==
            Some(ApplyOptions(Blank(Nfs, server + ":" + share, target)
                            .(nfsOptions := "hard,intr,rsize=1048576,wsize=1048576"), os))
  {
    var last := target + ":" + Join(',', os);
    var rest := server + ":" + (share + ":" + last);
    NfsParts(server, share, last, rest);
    NfsScheme(rest);
    SplitOptsReads(target, Join(',', os));
    SplitAllOfJoin(',', os);
  }
}
