/** The service-discovery DNS of internal/orchestrator/dns.go, against a decoder for the message
    format of RFC 1035.  Go strings and byte slices are strings of octets here. */
module Dns {
  import opened Splitting
  import opened Wrappers

  predicate Octets(s: string) { forall i :: 0 <= i < |s| ==> s[i] as int < 256 }

  // ---------------------------------------------------------------- names

  /** The labels from index `i` on, up to a zero length or the end; None when one runs past the end. */
  function LabelsFrom(data: string, i: nat): Option<seq<string>>
    requires i <= |data|
    decreases |data| - i
  {
    if i == |data| || data[i] as int == 0 then Some([])
    else
      var length := data[i] as int;
      if i + length + 1 > |data| then None
      else match LabelsFrom(data, i + length + 1)
        case None => None
        case Some(rest) => Some([data[i + 1..i + 1 + length]] + rest)
  }

  function ParseName(data: string): string {
    match LabelsFrom(data, 0)
    case None => ""
    case Some(labels) => Join('.', labels)
  }

  method JoinLabels(labels: seq<string>) returns (result: string)
    ensures result == Join('.', labels)
  {
    result := "";
    var i := 0;
    while i < |labels|
      invariant 0 <= i <= |labels| && result == Join('.', labels[..i])
    {
      assert labels[..i + 1][..i] == labels[..i];
      if i > 0 {
        result := result + ".";
      }
      result := result + labels[i];
      i := i + 1;
    }
    assert labels[..i] == labels;
  }

  function Behind(parts: seq<string>, rest: Option<seq<string>>): Option<seq<string>> {
    match rest
    case None => None
    case Some(labels) => Some(parts + labels)
  }

  method ParseDNSName(data: string) returns (name: string)
    ensures name == ParseName(data)
  {
    var parts: seq<string> := [];
    var i: nat := 0;
    if LabelsFrom(data, 0).Some? {
      Units(LabelsFrom(data, 0).value);
    }
    while i < |data|
      invariant i <= |data|
      invariant LabelsFrom(data, 0) == Behind(parts, LabelsFrom(data, i))
      decreases |data| - i
    {
      var length := data[i] as int;
      if length == 0 {
        break;
      }
      if i + length + 1 > |data| {
        return "";
      }
      ghost var after := LabelsFrom(data, i + length + 1);
      if after.Some? {
        Assoc(parts, [data[i + 1..i + 1 + length]], after.value);
      }
      parts := parts + [data[i + 1..i + 1 + length]];
      i := i + length + 1;
    }
    assert parts + [] == parts;
    name := JoinLabels(parts);
  }

  /** Every label is shorter than `n` octets. */
  ghost predicate Shorter(labels: seq<string>, n: nat) {
    forall k :: 0 <= k < |labels| ==> |labels[k]| < n
  }

  ghost predicate NonEmpty(labels: seq<string>) {
    forall k :: 0 <= k < |labels| ==> labels[k] != ""
  }

  /** Labels as a length octet and that many octets each. */
  function Body(labels: seq<string>): string
    requires Shorter(labels, 256)
  {
    if labels == [] then "" else [|labels[0]| as char] + labels[0] + Body(labels[1..])
  }

  /** The encoded name of RFC 1035 section 3.1. */
  function Encode(labels: seq<string>): string
    requires Shorter(labels, 256)
  {
    Body(labels) + [0 as char]
  }

  /** `data` is what `file` holds from `o` on. */
  ghost predicate PartOf(data: string, file: string, o: nat) {
    o + |data| <= |file| && forall i :: 0 <= i < |data| ==> data[i] == file[o + i]
  }

  lemma {:induction false} PartOfSplit(a: string, b: string, file: string, o: nat)
    ensures PartOf(a + b, file, o) <==> PartOf(a, file, o) && PartOf(b, file, o + |a|)
  {
    if PartOf(a + b, file, o) {
      forall i | 0 <= i < |a| ensures a[i] == file[o + i] {
        assert (a + b)[i] == a[i];
      }
      forall i | 0 <= i < |b| ensures b[i] == file[o + |a| + i] {
        assert (a + b)[|a| + i] == b[i];
      }
    }
  }

  lemma {:induction false} PartOfSlice(a: string, file: string, o: nat)
    requires o + |a| <= |file|
    ensures PartOf(a, file, o) <==> file[o..o + |a|] == a
  {
  }

  /** `labels` are encoded at `i`, and a zero octet or the end of the data follows. */
  ghost predicate EncodedAt(data: string, i: nat, labels: seq<string>) {
    && NonEmpty(labels) && Shorter(labels, 256)
    && PartOf(Body(labels), data, i)
    && (i + |Body(labels)| == |data| || data[i + |Body(labels)|] as int == 0)
  }

  lemma {:induction false} ConsLabel(l: string, rest: seq<string>)
    ensures NonEmpty([l] + rest) <==> l != "" && NonEmpty(rest)
    ensures Shorter([l] + rest, 256) <==> |l| < 256 && Shorter(rest, 256)
  {
    var labels := [l] + rest;
    assert labels[0] == l && labels[1..] == rest;
    if NonEmpty(labels) {
      forall k | 0 <= k < |rest| ensures rest[k] != "" {
        assert labels[k + 1] != "";
      }
    }
    if Shorter(labels, 256) {
      forall k | 0 <= k < |rest| ensures |rest[k]| < 256 {
        assert |labels[k + 1]| < 256;
      }
    }
  }

  lemma {:induction false} EncodedUnfold(data: string, i: nat, l: string, rest: seq<string>)
    ensures EncodedAt(data, i, [l] + rest) <==>
            && 0 < |l| < 256 && i + 1 + |l| <= |data| && data[i] as int == |l| && data[i + 1..i + 1 + |l|] == l
            && EncodedAt(data, i + 1 + |l|, rest)
  {
    var labels := [l] + rest;
    assert labels[1..] == rest && labels[0] == l;
    ConsLabel(l, rest);
    if Shorter(labels, 256) {
      var head := [|l| as char];
      PartOfSplit(head + l, Body(rest), data, i);
      PartOfSplit(head, l, data, i);
      if i + 1 + |l| <= |data| {
        PartOfSlice(l, data, i + 1);
        assert head[0] as int == |l|;
      }
    }
  }

  lemma {:induction false} EncodedIsParsed(data: string, i: nat, labels: seq<string>)
    requires i <= |data| && EncodedAt(data, i, labels)
    ensures LabelsFrom(data, i) == Some(labels)
    decreases |labels|
  {
    if labels != [] {
      assert labels == [labels[0]] + labels[1..];
      EncodedUnfold(data, i, labels[0], labels[1..]);
      EncodedIsParsed(data, i + 1 + |labels[0]|, labels[1..]);
    }
  }

  lemma {:induction false} ParsedIsEncoded(data: string, i: nat)
    requires i <= |data| && Octets(data) && LabelsFrom(data, i).Some?
    ensures EncodedAt(data, i, LabelsFrom(data, i).value)
    decreases |data| - i
  {
    if i < |data| && data[i] as int != 0 {
      var length := data[i] as int;
      ParsedIsEncoded(data, i + length + 1);
      EncodedUnfold(data, i, data[i + 1..i + 1 + length], LabelsFrom(data, i + length + 1).value);
    }
  }

  /** Parsing finds exactly the labels encoded there. */
  lemma {:induction false} ParsedIffEncoded(data: string, i: nat, labels: seq<string>)
    requires i <= |data| && Octets(data)
    ensures LabelsFrom(data, i) == Some(labels) <==> EncodedAt(data, i, labels)
  {
    if LabelsFrom(data, i) == Some(labels) {
      ParsedIsEncoded(data, i);
    }
    if EncodedAt(data, i, labels) {
      EncodedIsParsed(data, i, labels);
    }
  }

  /** A well-formed label of section 3.1, which service names keep free of dots. */
  ghost predicate WellFormed(labels: seq<string>) {
    && NonEmpty(labels) && Shorter(labels, 64)
    && forall k :: 0 <= k < |labels| ==> Octets(labels[k]) && '.' !in labels[k]
  }

  /** So the encoded name, whatever follows it in the query, gives the dotted name. */
  lemma {:induction false} EncodedNameParses(labels: seq<string>, rest: string)
    requires WellFormed(labels) && Octets(rest)
    ensures ParseName(Encode(labels) + rest) == Join('.', labels)
  {
    var data := Encode(labels) + rest;
    OctetsOfBody(labels);
    assert PartOf(Body(labels), data, 0);
    assert data[|Body(labels)|] as int == 0;
    EncodedIsParsed(data, 0, labels);
  }

  lemma {:induction false} OctetsOfBody(labels: seq<string>)
    requires Shorter(labels, 256) && forall k :: 0 <= k < |labels| ==> Octets(labels[k])
    ensures Octets(Body(labels))
  {
    if labels != [] {
      OctetsOfBody(labels[1..]);
      assert Octets([|labels[0]| as char] + labels[0]);
    }
  }

  // ---------------------------------------------------------------- service names

  method ExtractServiceName(qname: string) returns (name: string)
    ensures name == ServiceOf(Pieces('.', qname))
  {
    var parts := Split('.', qname);
    if |parts| >= 4 && parts[1] == "svc" && parts[2] == "cluster" && parts[3] == "local" {
      name := parts[0];
    } else {
      name := "";
    }
  }

  function ServiceOf(labels: seq<string>): string {
    if |labels| >= 4 && labels[1] == "svc" && labels[2] == "cluster" && labels[3] == "local" then labels[0] else ""
  }

  /** Splitting undoes joining. */
  lemma {:induction false} SplitOfJoin(labels: seq<string>)
    requires NonEmpty(labels) && forall k :: 0 <= k < |labels| ==> '.' !in labels[k]
    ensures Pieces('.', Join('.', labels)) == labels
    decreases |labels|
  {
    if labels != [] {
      var l, rest := labels[0], labels[1..];
      assert labels == [l] + rest;
      if rest == [] {
        SplitOne('.', l);
      } else {
        SplitOfJoin(rest);
        JoinCons('.', l, rest);
        SplitCons('.', l, Join('.', rest));
      }
    }
  }

  /** From the wire to the service: of every well-formed encoded name, whatever follows it, the
      first label is taken exactly when "svc.cluster.local" follows that label. */
  lemma {:induction false} ServiceIsRecovered(labels: seq<string>, rest: string)
    requires WellFormed(labels) && Octets(rest)
    ensures ServiceOf(Pieces('.', ParseName(Encode(labels) + rest))) == ServiceOf(labels)
  {
    EncodedNameParses(labels, rest);
    SplitOfJoin(labels);
  }
}
