/** The answer packet of internal/orchestrator/dns.go, decoded by the rules of RFC 1035. */
module DnsResponse {
  import opened Splitting
  import opened Dns
  import opened Wrappers

  /** What net.ParseIP makes of an address: nothing, the four octets of an IPv4 address, or an IPv6
      address, of which To4 makes nothing. */
  datatype Address = Invalid | V4(octets: string) | V6

  ghost predicate Valid(addresses: seq<Address>) {
    forall k :: 0 <= k < |addresses| ==> (addresses[k].V4? ==> |addresses[k].octets| == 4 && Octets(addresses[k].octets))
  }

  /** Indexing the missing octets of an IPv6 address ends the program. */
  ghost predicate Panics(addresses: seq<Address>) {
    exists k :: 0 <= k < |addresses| && addresses[k].V6?
  }

  ghost predicate AllV4(addresses: seq<Address>) {
    forall k :: 0 <= k < |addresses| ==> addresses[k].V4?
  }

  function Octet(n: int): char
    requires 0 <= n
  {
    (n % 256) as char
  }

  function SetTopBit(c: char): char
    requires c as int < 256
  {
    if c as int < 128 then (c as int + 128) as char else c
  }

  /** Pointer to offset 12, type A, class IN, TTL 60, length 4, address. */
  function RecordOctet(ip4: string, j: nat): char
    requires |ip4| == 4 && j < 16
  {
    if j >= 12 then ip4[j - 12]
    else if j == 0 then 192 as char
    else if j == 1 then 12 as char
    else if j == 3 || j == 5 then 1 as char
    else if j == 9 then 60 as char
    else if j == 11 then 4 as char
    else 0 as char
  }

  /** The query with the response bit set and the number of addresses as answer count. */
  function HeaderOctet(query: string, count: nat, j: nat): char
    requires |query| >= 12 && Octets(query) && j < |query|
  {
    if j == 2 then SetTopBit(query[2])
    else if j == 6 then Octet(count / 256)
    else if j == 7 then Octet(count)
    else query[j]
  }

  /** The octets of the first `n` addresses that have a record: those of version 4. */
  function Usable(addresses: seq<Address>, n: nat): seq<string>
    requires n <= |addresses|
  {
    if n == 0 then []
    else if addresses[n - 1].V4? then Usable(addresses, n - 1) + [addresses[n - 1].octets]
    else Usable(addresses, n - 1)
  }

  ghost predicate HeaderAt(p: string, query: string, count: nat)
    requires |query| >= 12 && Octets(query)
  {
    |p| >= |query| && forall j :: 0 <= j < |query| ==> p[j] == HeaderOctet(query, count, j)
  }

  /** Octet `j` of the packet is octet `j - q` of the records of `ips`. */
  ghost predicate RecordsAt(p: string, q: nat, ips: seq<string>) {
    && |p| == q + 16 * |ips|
    && (forall k :: 0 <= k < |ips| ==> |ips[k]| == 4)
    && (forall k, j :: 0 <= k < |ips| && 0 <= j < 16 ==> p[q + 16 * k + j] == RecordOctet(ips[k], j))
  }

  /** The response, octet by octet. */
  ghost predicate IsResponse(p: string, query: string, addresses: seq<Address>) {
    && |query| >= 12 && Octets(query)
    && HeaderAt(p, query, |addresses|) && RecordsAt(p, |query|, Usable(addresses, |addresses|))
  }

  /** These are all the octets there are. */
  lemma {:induction false} ResponseIsUnique(p: string, p': string, query: string, addresses: seq<Address>)
    requires IsResponse(p, query, addresses) && IsResponse(p', query, addresses)
    ensures p == p'
  {
    var q, ips := |query|, Usable(addresses, |addresses|);
    forall i | 0 <= i < |p| ensures p[i] == p'[i] {
      if i < q {
        assert p[i] == HeaderOctet(query, |addresses|, i) == p'[i];
      } else {
        var k, j := (i - q) / 16, (i - q) % 16;
        assert q + 16 * k + j == i;
        assert p[q + 16 * k + j] == RecordOctet(ips[k], j) == p'[q + 16 * k + j];
      }
    }
  }

  method Write2(resp: array<char>, o: nat, a: int, b: int) returns (next: nat)
    requires o + 2 <= resp.Length && 0 <= a < 256 && 0 <= b < 256
    modifies resp
    ensures next == o + 2 && resp[o] == a as char && resp[o + 1] == b as char
    ensures forall j :: 0 <= j < o ==> resp[j] == old(resp[j])
  {
    resp[o] := a as char;
    resp[o + 1] := b as char;
    next := o + 2;
  }

  method Write4(resp: array<char>, o: nat, four: string) returns (next: nat)
    requires o + 4 <= resp.Length && |four| == 4
    modifies resp
    ensures next == o + 4 && resp[o] == four[0] && resp[o + 1] == four[1]
    ensures resp[o + 2] == four[2] && resp[o + 3] == four[3]
    ensures forall j :: 0 <= j < o ==> resp[j] == old(resp[j])
  {
    resp[o] := four[0];
    resp[o + 1] := four[1];
    resp[o + 2] := four[2];
    resp[o + 3] := four[3];
    next := o + 4;
  }

  method WriteRecord(resp: array<char>, offset: nat, ip4: string) returns (next: nat)
    requires |ip4| == 4 && offset + 16 <= resp.Length
    modifies resp
    ensures next == offset + 16
    ensures forall j :: 0 <= j < offset ==> resp[j] == old(resp[j])
    ensures forall j :: 0 <= j < 16 ==> resp[offset + j] == RecordOctet(ip4, j)
  {
    next := Write2(resp, offset, 0xc0, 0x0c);
    next := Write2(resp, next, 0x00, 0x01);
    next := Write2(resp, next, 0x00, 0x01);
    next := Write4(resp, next, [0 as char, 0 as char, 0 as char, 60 as char]);
    next := Write2(resp, next, 0x00, 0x04);
    next := Write4(resp, next, ip4);
  }

  method WriteHeader(resp: array<char>, query: string, ancount: nat)
    requires 12 <= |query| <= resp.Length && Octets(query)
    modifies resp
    ensures forall j :: 0 <= j < |query| ==> resp[j] == HeaderOctet(query, ancount, j)
  {
    for k := 0 to |query|
      invariant forall j :: 0 <= j < k ==> resp[j] == query[j]
    {
      resp[k] := query[k];
    }
    resp[2] := SetTopBit(resp[2]);
    resp[6] := Octet(ancount / 256);
    resp[7] := Octet(ancount);
  }

  /** One more record behind what is there. */
  lemma {:induction false} RecordBehind(before: string, after: string, q: nat, ips: seq<string>, ip: string)
    requires RecordsAt(before, q, ips) && |ip| == 4 && |after| == |before| + 16
    requires forall j :: 0 <= j < |before| ==> after[j] == before[j]
    requires forall j :: 0 <= j < 16 ==> after[|before| + j] == RecordOctet(ip, j)
    ensures RecordsAt(after, q, ips + [ip])
  {
    var ips' := ips + [ip];
    forall k, j | 0 <= k < |ips'| && 0 <= j < 16
      ensures after[q + 16 * k + j] == RecordOctet(ips'[k], j)
    {
      if k < |ips| {
        assert before[q + 16 * k + j] == RecordOctet(ips[k], j);
      } else {
        assert after[|before| + j] == RecordOctet(ip, j);
      }
    }
  }

  method AppendRecord(resp: array<char>, offset: nat, ip4: string, ghost q: nat, ghost ips: seq<string>) returns (next: nat)
    requires |ip4| == 4 && offset + 16 <= resp.Length && q <= offset && RecordsAt(resp[..offset], q, ips)
    modifies resp
    ensures next == offset + 16 && RecordsAt(resp[..next], q, ips + [ip4])
    ensures forall j :: 0 <= j < q ==> resp[j] == old(resp[j])
  {
    ghost var before := resp[..offset];
    next := WriteRecord(resp, offset, ip4);
    RecordBehind(before, resp[..next], q, ips, ip4);
  }

  /** None is the panic. */
  method BuildDNSResponse(query: string, addresses: seq<Address>) returns (packet: Option<string>)
    requires |query| >= 12 && Octets(query) && Valid(addresses)
    ensures packet.None? <==> Panics(addresses)
    ensures packet.Some? ==> IsResponse(packet.value, query, addresses)
  {
    var resp := new char[|query| + 4 + |addresses| * 16](_ => 0 as char);
    WriteHeader(resp, query, |addresses|);
    var offset: nat := |query|;
    var i := 0;
    while i < |addresses|
      invariant 0 <= i <= |addresses| && |query| <= offset <= |query| + 16 * i
      invariant forall j :: 0 <= j < |query| ==> resp[j] == HeaderOctet(query, |addresses|, j)
      invariant RecordsAt(resp[..offset], |query|, Usable(addresses, i))
      invariant forall k :: 0 <= k < i ==> !addresses[k].V6?
    {
      match addresses[i] {
        case Invalid =>
        case V4(ip4) =>
          offset := AppendRecord(resp, offset, ip4, |query|, Usable(addresses, i));
        case V6 =>
          return None;
      }
      i := i + 1;
    }
    packet := Some(resp[..offset]);
  }

  // ---------------------------------------------------------------- decoding

  datatype Question = Question(labels: seq<string>, qtype: nat, qclass: nat)

  datatype Answer = Answer(labels: seq<string>, rtype: nat, rclass: nat, ttl: nat, data: string)

  datatype Message = Message(id: nat, response: bool, question: Question, answers: seq<Answer>)

  function Number(p: string, i: nat, n: nat): nat
    requires i + n <= |p|
  {
    if n == 0 then 0 else Number(p, i, n - 1) * 256 + p[i + n - 1] as int
  }

  /** Section 4.1.4: labels, or a pointer to an earlier place; the index after the name.  `start` is
      where the current run of labels began. */
  function Name(p: string, i: nat, start: nat): Option<(seq<string>, nat)>
    requires start <= i
    decreases start, |p| - i
  {
    if i >= |p| then None
    else
      var b := p[i] as int;
      if b == 0 then Some(([], i + 1))
      else if b < 64 then
        if i + 1 + b > |p| then None
        else match Name(p, i + 1 + b, start)
          case None => None
          case Some((rest, next)) => Some(([p[i + 1..i + 1 + b]] + rest, next))
      else if b < 192 || i + 1 >= |p| then None
      else
        var target := (b - 192) * 256 + p[i + 1] as int;
        if target >= start then None
        else match Name(p, target, target)
          case None => None
          case Some((labels, _)) => Some((labels, i + 2))
  }

  /** Section 4.1.2. */
  function DecodeQuestion(p: string, i: nat): Option<(Question, nat)> {
    match Name(p, i, i)
    case None => None
    case Some((labels, j)) =>
      if j + 4 > |p| then None else Some((Question(labels, Number(p, j, 2), Number(p, j + 2, 2)), j + 4))
  }

  /** Section 4.1.3. */
  function DecodeAnswer(p: string, i: nat): Option<(Answer, nat)> {
    match Name(p, i, i)
    case None => None
    case Some((labels, j)) =>
      if j + 10 > |p| then None
      else
        var length := Number(p, j + 8, 2);
        if j + 10 + length > |p| then None
        else Some((Answer(labels, Number(p, j, 2), Number(p, j + 2, 2), Number(p, j + 4, 4), p[j + 10..j + 10 + length]),
                   j + 10 + length))
  }

  function DecodeAnswers(p: string, i: nat, n: nat): Option<(seq<Answer>, nat)>
    decreases n
  {
    if n == 0 then Some(([], i))
    else match DecodeAnswer(p, i)
      case None => None
      case Some((a, j)) =>
        match DecodeAnswers(p, j, n - 1)
        case None => None
        case Some((rest, k)) => Some(([a] + rest, k))
  }

  /** A message with one question and answers, and nothing else (section 4.1.1). */
  function Decode(p: string): Option<Message> {
    if |p| < 12 || Number(p, 4, 2) != 1 || Number(p, 8, 4) != 0 then None
    else match DecodeQuestion(p, 12)
      case None => None
      case Some((question, i)) =>
        match DecodeAnswers(p, i, Number(p, 6, 2))
        case None => None
        case Some((answers, j)) =>
          if j != |p| then None else Some(Message(Number(p, 0, 2), p[2] as int >= 128, question, answers))
  }

  lemma {:induction false} UsableAreCounted(addresses: seq<Address>, n: nat)
    requires n <= |addresses| && Valid(addresses)
    ensures |Usable(addresses, n)| <= n
    ensures |Usable(addresses, n)| == n <==> forall k :: 0 <= k < n ==> addresses[k].V4?
    decreases n
  {
    if n > 0 {
      UsableAreCounted(addresses, n - 1);
    }
  }

  /** Behind its first octets the header is the query. */
  lemma {:induction false} ResponseOctets(query: string, addresses: seq<Address>, p: string)
    requires IsResponse(p, query, addresses)
    ensures |p| >= |query| && RecordsAt(p, |query|, Usable(addresses, |addresses|))
    ensures p[2] == SetTopBit(query[2]) && p[6] == Octet(|addresses| / 256) && p[7] == Octet(|addresses|)
    ensures forall j :: 0 <= j < |query| && j != 2 && j != 6 && j != 7 ==> p[j] == query[j]
  {
    assert p[2] == HeaderOctet(query, |addresses|, 2) && p[6] == HeaderOctet(query, |addresses|, 6);
    assert p[7] == HeaderOctet(query, |addresses|, 7);
  }

  // ---------------------------------------------------------------- decoding what was built

  lemma {:induction false} NumberOf2(p: string, i: nat)
    requires i + 2 <= |p|
    ensures Number(p, i, 2) == p[i] as int * 256 + p[i + 1] as int
  {
    assert Number(p, i, 0) == 0;
    assert Number(p, i, 1) == p[i] as int;
  }

  lemma {:induction false} NumberOf4(p: string, i: nat)
    requires i + 4 <= |p|
    ensures Number(p, i, 4) == Number(p, i, 2) * 65536 + Number(p, i + 2, 2)
  {
    NumberOf2(p, i + 2);
    assert Number(p, i, 3) == Number(p, i, 2) * 256 + p[i + 2] as int;
    assert Number(p, i, 4) == Number(p, i, 3) * 256 + p[i + 3] as int;
  }

  /** An encoded name is read back, up to the octet after it. */
  lemma {:induction false} NameIsRead(p: string, i: nat, start: nat, labels: seq<string>)
    requires start <= i <= |p| && EncodedAt(p, i, labels) && i + |Body(labels)| < |p|
    requires Shorter(labels, 64)
    ensures Name(p, i, start) == Some((labels, i + |Body(labels)| + 1))
    decreases |labels|
  {
    if labels != [] {
      var l, rest := labels[0], labels[1..];
      assert labels == [l] + rest;
      EncodedUnfold(p, i, l, rest);
      assert |Body(labels)| == 1 + |l| + |Body(rest)|;
      NameIsRead(p, i + 1 + |l|, start, rest);
    }
  }

  /** The question of the query, about the name of `labels`, ends at `e`. */
  ghost predicate QuestionAt(query: string, labels: seq<string>, e: nat) {
    && Shorter(labels, 64) && EncodedAt(query, 12, labels)
    && Octets(query) && e == 12 + |Body(labels)| + 5 <= |query|
  }

  /** A query with one question, and nothing before or after it but the header. */
  ghost predicate SingleQuestion(query: string, labels: seq<string>) {
    QuestionAt(query, labels, |query|) && Number(query, 4, 2) == 1 && Number(query, 8, 4) == 0
  }

  function Type(query: string, e: nat): nat requires 16 <= e <= |query| { Number(query, e - 4, 2) }

  function Class(query: string, e: nat): nat requires 16 <= e <= |query| { Number(query, e - 2, 2) }

  /** The records of the addresses from `k` to `m`, as the reader should see them. */
  function Expected(labels: seq<string>, ips: seq<string>, k: nat, m: nat): seq<Answer>
    requires k <= m <= |ips|
    decreases m - k
  {
    if k == m then [] else [Answer(labels, 1, 1, 60, ips[k])] + Expected(labels, ips, k + 1, m)
  }

  lemma {:induction false} RecordIsAt(p: string, q: nat, ips: seq<string>, k: nat, i: nat)
    requires RecordsAt(p, q, ips) && k < |ips| && i == q + 16 * k
    ensures i + 16 <= |p|
    ensures p[i] as int == 192 && p[i + 1] as int == 12
    ensures Number(p, i + 2, 2) == 1 && Number(p, i + 4, 2) == 1 && Number(p, i + 6, 4) == 60 && Number(p, i + 10, 2) == 4
    ensures p[i + 12..i + 16] == ips[k]
  {
    assert i + 16 <= |p|;
    forall j | 0 <= j < 16 ensures p[i + j] == RecordOctet(ips[k], j) {
      assert p[q + 16 * k + j] == RecordOctet(ips[k], j);
    }
    var ip := ips[k];
    assert p[i] == RecordOctet(ip, 0) by { assert p[i + 0] == RecordOctet(ip, 0); }
    assert p[i + 1] == RecordOctet(ip, 1) && p[i + 2] == RecordOctet(ip, 2) && p[i + 3] == RecordOctet(ip, 3);
    assert p[i + 4] == RecordOctet(ip, 4) && p[i + 5] == RecordOctet(ip, 5) && p[i + 6] == RecordOctet(ip, 6);
    assert p[i + 7] == RecordOctet(ip, 7) && p[i + 8] == RecordOctet(ip, 8) && p[i + 9] == RecordOctet(ip, 9);
    assert p[i + 10] == RecordOctet(ip, 10) && p[i + 11] == RecordOctet(ip, 11);
    assert p[i + 12] == RecordOctet(ip, 12) && p[i + 13] == RecordOctet(ip, 13);
    assert p[i + 14] == RecordOctet(ip, 14) && p[i + 15] == RecordOctet(ip, 15);
    NumberOf2(p, i + 2);
    NumberOf2(p, i + 4);
    NumberOf2(p, i + 6);
    NumberOf2(p, i + 8);
    NumberOf4(p, i + 6);
    NumberOf2(p, i + 10);
  }

  lemma {:induction false} AnswerIsRead(p: string, q: nat, labels: seq<string>, ips: seq<string>, k: nat, i: nat)
    requires 16 <= q && RecordsAt(p, q, ips) && k < |ips| && i == q + 16 * k
    requires Name(p, 12, 12).Some? && Name(p, 12, 12).value.0 == labels
    ensures DecodeAnswer(p, i) == Some((Answer(labels, 1, 1, 60, ips[k]), i + 16))
  {
    RecordIsAt(p, q, ips, k, i);
    assert Name(p, i, i) == Some((labels, i + 2));
  }

  lemma {:induction false} OneMoreAnswer(p: string, i: nat, n: nat, a: Answer, j: nat)
    requires n > 0 && DecodeAnswer(p, i) == Some((a, j))
    ensures DecodeAnswers(p, i, n) ==
            match DecodeAnswers(p, j, n - 1)
            case None => None
            case Some((rest, k)) => Some(([a] + rest, k))
  {
  }

  lemma {:induction false} NoMoreAnswers(p: string, n: nat)
    ensures n == 0 ==> DecodeAnswers(p, |p|, n) == Some(([], |p| as nat))
    ensures n > 0 ==> DecodeAnswers(p, |p|, n).None?
  {
    assert Name(p, |p|, |p|).None?;
  }

  /** The `n` answers from `i` on are these, and `end` follows them. */
  ghost predicate ReadAs(p: string, i: nat, n: nat, answers: seq<Answer>, end: nat) {
    DecodeAnswers(p, i, n) == Some((answers, end))
  }

  ghost predicate Unreadable(p: string, i: nat, n: nat) { DecodeAnswers(p, i, n).None? }

  ghost predicate Readable(p: string, q: nat, labels: seq<string>, ips: seq<string>, k: nat)
    requires k < |ips|
  {
    DecodeAnswer(p, q + 16 * k) == Some((Answer(labels, 1, 1, 60, ips[k]), q + 16 * k + 16))
  }

  ghost predicate ReadableFrom(p: string, q: nat, labels: seq<string>, ips: seq<string>, k: nat)
    requires k <= |ips|
    decreases |ips| - k
  {
    k == |ips| || (Readable(p, q, labels, ips, k) && ReadableFrom(p, q, labels, ips, k + 1))
  }

  lemma {:induction false} FirstAnswerIsRead(p: string, q: nat, labels: seq<string>, ips: seq<string>,
      k: nat, i: nat, m: nat, end: nat)
    requires k < m <= |ips| && i == q + 16 * k && Readable(p, q, labels, ips, k)
    requires ReadAs(p, i + 16, m - k - 1, Expected(labels, ips, k + 1, m), end)
    ensures ReadAs(p, i, m - k, Expected(labels, ips, k, m), end)
  {
    OneMoreAnswer(p, i, m - k, Answer(labels, 1, 1, 60, ips[k]), i + 16);
  }

  /** The records up to `m` are read in order. */
  lemma {:induction false} AnswersAreRead(p: string, q: nat, labels: seq<string>, ips: seq<string>, k: nat, i: nat, m: nat)
    requires k <= m <= |ips| && i == q + 16 * k && ReadableFrom(p, q, labels, ips, k)
    ensures ReadAs(p, i, m - k, Expected(labels, ips, k, m), q + 16 * m)
    decreases m - k
  {
    if k < m {
      AnswersAreRead(p, q, labels, ips, k + 1, i + 16, m);
      FirstAnswerIsRead(p, q, labels, ips, k, i, m, q + 16 * m);
    }
  }

  /** Asking for more than there are fails. */
  lemma {:induction false} TooFewAnswers(p: string, q: nat, labels: seq<string>, ips: seq<string>, k: nat, i: nat, n: nat)
    requires k <= |ips| < k + n && i == q + 16 * k && |p| == q + 16 * |ips| && ReadableFrom(p, q, labels, ips, k)
    ensures Unreadable(p, i, n)
    decreases n
  {
    if k == |ips| {
      NoMoreAnswers(p, n);
    } else {
      OneMoreAnswer(p, i, n, Answer(labels, 1, 1, 60, ips[k]), i + 16);
      TooFewAnswers(p, q, labels, ips, k + 1, i + 16, n - 1);
    }
  }

  lemma {:induction false} SameNumber(p: string, p': string, i: nat, n: nat)
    requires i + n <= |p| && i + n <= |p'| && forall j :: i <= j < i + n ==> p[j] == p'[j]
    ensures Number(p, i, n) == Number(p', i, n)
  {
    if n > 0 {
      SameNumber(p, p', i, n - 1);
    }
  }

  lemma {:induction false} NameInResponse(query: string, labels: seq<string>, e: nat, p: string)
    requires QuestionAt(query, labels, e) && |p| >= |query|
    requires forall j :: 12 <= j < |query| ==> p[j] == query[j]
    ensures Name(p, 12, 12) == Some((labels, (e - 4) as nat))
  {
    assert EncodedAt(p, 12, labels);
    NameIsRead(p, 12, 12, labels);
  }

  lemma {:induction false} QuestionIsRead(query: string, labels: seq<string>, e: nat, p: string)
    requires QuestionAt(query, labels, e) && |p| >= |query|
    requires forall j :: 12 <= j < |query| ==> p[j] == query[j]
    ensures Name(p, 12, 12) == Some((labels, (e - 4) as nat))
    ensures DecodeQuestion(p, 12) == Some((Question(labels, Type(query, e), Class(query, e)), e))
  {
    NameInResponse(query, labels, e, p);
    SameNumber(p, query, e - 4, 2);
    SameNumber(p, query, e - 2, 2);
  }

  lemma {:induction false} AllReadable(p: string, q: nat, labels: seq<string>, ips: seq<string>)
    requires 16 <= q && RecordsAt(p, q, ips)
    requires Name(p, 12, 12).Some? && Name(p, 12, 12).value.0 == labels
    ensures ReadableFrom(p, q, labels, ips, 0)
  {
    forall k | 0 <= k < |ips| ensures Readable(p, q, labels, ips, k) {
      AnswerIsRead(p, q, labels, ips, k, q + 16 * k);
    }
    EachReadable(p, q, labels, ips, 0);
  }

  lemma {:induction false} EachReadable(p: string, q: nat, labels: seq<string>, ips: seq<string>, k: nat)
    requires k <= |ips| && forall j :: k <= j < |ips| ==> Readable(p, q, labels, ips, j)
    ensures ReadableFrom(p, q, labels, ips, k)
    decreases |ips| - k
  {
    if k < |ips| {
      EachReadable(p, q, labels, ips, k + 1);
    }
  }

  lemma {:induction false} CountField(n: nat, p: string)
    requires n < 65536 && |p| >= 12 && p[6] == Octet(n / 256) && p[7] == Octet(n)
    ensures Number(p, 6, 2) == n
  {
    NumberOf2(p, 6);
    assert n / 256 < 256 && n == n / 256 * 256 + n % 256;
  }

  /** What a client should read: its question, marked as a response, and one address record for
      every address in order. */
  ghost function Right(query: string, labels: seq<string>, e: nat, addresses: seq<Address>): Message
    requires 16 <= e <= |query|
  {
    var ips := Usable(addresses, |addresses|);
    Message(Number(query, 0, 2), true, Question(labels, Type(query, e), Class(query, e)),
            Expected(labels, ips, 0, |ips|))
  }

  lemma {:induction false} DecodeUnfolds(p: string, question: Question, e: nat, n: nat)
    requires |p| >= 12 && DecodeQuestion(p, 12) == Some((question, e)) && Number(p, 6, 2) == n
    ensures Decode(p) ==
            if Number(p, 4, 2) != 1 || Number(p, 8, 4) != 0 then None
            else match DecodeAnswers(p, e, n)
              case None => None
              case Some((answers, j)) =>
                if j != |p| then None else Some(Message(Number(p, 0, 2), p[2] as int >= 128, question, answers))
  {
  }

  /** Any query with a question: the response has the same identifier, counts and question. */
  lemma {:induction false} ResponseOpens(query: string, labels: seq<string>, e: nat, addresses: seq<Address>, p: string)
    requires QuestionAt(query, labels, e) && Valid(addresses) && |addresses| < 65536
    requires IsResponse(p, query, addresses)
    ensures |p| >= 12 && p[2] as int >= 128 && Number(p, 6, 2) == |addresses|
    ensures Number(p, 0, 2) == Number(query, 0, 2) && Number(p, 4, 2) == Number(query, 4, 2)
    ensures Number(p, 8, 4) == Number(query, 8, 4)
    ensures DecodeQuestion(p, 12) == Some((Question(labels, Type(query, e), Class(query, e)), e))
  {
    ResponseOctets(query, addresses, p);
    QuestionIsRead(query, labels, e, p);
    CountField(|addresses|, p);
    HeaderFields(query, p);
  }

  /** Each record begins with a pointer to offset 12. */
  ghost predicate PointerAt(p: string, i: nat) {
    i + 16 <= |p| && p[i] as int == 192 && p[i + 1] as int == 12
  }

  ghost predicate PointersFrom(p: string, q: nat, ips: seq<string>, k: nat)
    requires k <= |ips|
    decreases |ips| - k
  {
    k == |ips| || (|ips[k]| == 4 && PointerAt(p, q + 16 * k) && PointersFrom(p, q, ips, k + 1))
  }

  lemma {:induction false} AllPointers(p: string, q: nat, ips: seq<string>, k: nat)
    requires RecordsAt(p, q, ips) && k <= |ips|
    ensures PointersFrom(p, q, ips, k)
    decreases |ips| - k
  {
    if k < |ips| {
      RecordIsAt(p, q, ips, k, q + 16 * k);
      AllPointers(p, q, ips, k + 1);
    }
  }

  /** Its records stand behind the query, one for each valid address. */
  lemma {:induction false} AnswersInPlace(query: string, labels: seq<string>, e: nat, addresses: seq<Address>, p: string, ips: seq<string>)
    requires QuestionAt(query, labels, e) && Valid(addresses)
    requires IsResponse(p, query, addresses) && ips == Usable(addresses, |addresses|)
    ensures |p| == |query| + 16 * |ips| && ReadableFrom(p, |query|, labels, ips, 0)
    ensures |ips| <= |addresses| && (AllV4(addresses) <==> |ips| == |addresses|)
  {
    ResponseOctets(query, addresses, p);
    UsableAreCounted(addresses, |addresses|);
    NameInResponse(query, labels, e, p);
    AllReadable(p, |query|, labels, ips);
  }

  lemma {:induction false} PointersInPlace(query: string, labels: seq<string>, e: nat, addresses: seq<Address>, p: string,
      ips: seq<string>)
    requires QuestionAt(query, labels, e) && IsResponse(p, query, addresses) && ips == Usable(addresses, |addresses|)
    ensures PointersFrom(p, |query|, ips, 0) && Name(p, 12, 12) == Some((labels, (e - 4) as nat))
  {
    ResponseOctets(query, addresses, p);
    NameInResponse(query, labels, e, p);
    AllPointers(p, |query|, ips, 0);
  }

  /** Reading a number of answers from where the records begin. */
  lemma {:induction false} ReadFromRecords(p: string, q: nat, labels: seq<string>, ips: seq<string>, n: nat)
    requires |p| == q + 16 * |ips| && ReadableFrom(p, q, labels, ips, 0)
    ensures n <= |ips| ==> ReadAs(p, q, n, Expected(labels, ips, 0, n), q + 16 * n)
    ensures n > |ips| ==> Unreadable(p, q, n)
  {
    if n <= |ips| {
      AnswersAreRead(p, q, labels, ips, 0, q, n);
    } else {
      TooFewAnswers(p, q, labels, ips, 0, q, n);
    }
  }

  /** For a query that is one question and nothing else, the response decodes exactly when every
      address is valid.  An invalid address is left out but still counted. */
  lemma {:induction false} ResponseDecodes(query: string, labels: seq<string>, addresses: seq<Address>, p: string)
    requires SingleQuestion(query, labels) && Valid(addresses) && !Panics(addresses) && |addresses| < 65536
    requires IsResponse(p, query, addresses)
    ensures Decode(p) == if AllV4(addresses) then Some(Right(query, labels, |query|, addresses)) else None
  {
    var e, ips := |query|, Usable(addresses, |addresses|);
    AnswersInPlace(query, labels, e, addresses, p, ips);
    ReadFromRecords(p, e, labels, ips, |addresses|);
    ResponseOpens(query, labels, e, addresses, p);
    DecodeUnfolds(p, Question(labels, Type(query, e), Class(query, e)), e, |addresses|);
  }

  lemma {:induction false} HeaderFields(query: string, p: string)
    requires |query| >= 12 && |p| >= 12 && Octets(query)
    requires forall j :: 0 <= j < 12 && j != 2 && j != 6 && j != 7 ==> p[j] == query[j]
    requires p[2] == SetTopBit(query[2])
    ensures Number(p, 0, 2) == Number(query, 0, 2) && Number(p, 4, 2) == Number(query, 4, 2)
    ensures Number(p, 8, 4) == Number(query, 8, 4) && p[2] as int >= 128
  {
    NumberOf2(p, 0);
    NumberOf2(query, 0);
    NumberOf2(p, 4);
    NumberOf2(query, 4);
    NumberOf2(p, 8);
    NumberOf2(query, 8);
    NumberOf2(p, 10);
    NumberOf2(query, 10);
    NumberOf4(p, 8);
    NumberOf4(query, 8);
  }

  // ---------------------------------------------------------------- what follows the question

  /** A record with the root name reads the same in any packet that agrees with this one on it. */
  lemma {:induction false} SameAnswer(p: string, p': string, e: nat, a: Answer, next: nat)
    requires e < |p| <= |p'| && p[e] as int == 0 && DecodeAnswer(p, e) == Some((a, next))
    requires forall j :: e <= j < |p| ==> p'[j] == p[j]
    ensures DecodeAnswer(p', e) == Some((a, next))
  {
    assert Name(p, e, e) == Some(([], (e + 1) as nat)) && Name(p', e, e) == Some(([], (e + 1) as nat));
    SameNumber(p', p, e + 1, 2);
    SameNumber(p', p, e + 3, 2);
    SameNumber(p', p, e + 5, 4);
    SameNumber(p', p, e + 9, 2);
    assert p'[e + 11..next] == p[e + 11..next];
  }

  /** A further record of the query with the root name, as an EDNS client sends, is copied along. */
  lemma {:induction false} ExtraIsCopied(query: string, e: nat, extra: Answer, addresses: seq<Address>, p: string)
    requires 12 <= e < |query| && IsResponse(p, query, addresses)
    requires query[e] as int == 0 && DecodeAnswer(query, e) == Some((extra, |query| as nat))
    ensures DecodeAnswer(p, e) == Some((extra, |query| as nat))
  {
    ResponseOctets(query, addresses, p);
    SameAnswer(query, p, e, extra, |query|);
  }

  lemma {:induction false} ReadFromExtra(p: string, e: nat, extra: Answer, q: nat, labels: seq<string>, ips: seq<string>,
      n: nat, read: seq<Answer>)
    requires DecodeAnswer(p, e) == Some((extra, q)) && (n <= |ips| ==> read == [extra] + Expected(labels, ips, 0, n))
    requires 16 <= q && RecordsAt(p, q, ips) && Name(p, 12, 12).Some? && Name(p, 12, 12).value.0 == labels
    ensures n <= |ips| ==> ReadAs(p, e, n + 1, read, q + 16 * n)
    ensures n > |ips| ==> Unreadable(p, e, n + 1)
  {
    AllReadable(p, q, labels, ips);
    OneMoreAnswer(p, e, n + 1, extra, q);
    ReadFromRecords(p, q, labels, ips, n);
  }

  /** Why nothing may follow the question: such a record of the response is read in front of the
      answers, and the last address is lost for it.  The count fits only when exactly one address
      is invalid; with more invalid ones nothing can be read. */
  lemma {:induction false} ExtraRecordComesFirst(query: string, labels: seq<string>, e: nat, extra: Answer,
      addresses: seq<Address>, p: string, ips: seq<string>, n: nat, read: seq<Answer>)
    requires QuestionAt(query, labels, e) && Valid(addresses) && |addresses| == n + 1
    requires IsResponse(p, query, addresses) && ips == Usable(addresses, |addresses|)
    requires DecodeAnswer(p, e) == Some((extra, |query| as nat))
    requires n <= |ips| ==> read == [extra] + Expected(labels, ips, 0, n)
    ensures |p| == |query| + 16 * |ips|
    ensures n <= |ips| ==> ReadAs(p, e, n + 1, read, |query| + 16 * n)
    ensures n > |ips| ==> Unreadable(p, e, n + 1)
  {
    ResponseOctets(query, addresses, p);
    NameInResponse(query, labels, e, p);
    ReadFromExtra(p, e, extra, |query|, labels, ips, n, read);
  }

  /** A name ends in a zero octet, or in a pointer: then in the name pointed to, and in nothing else
      only if it is just the pointer. */
  lemma {:induction false} NameTail(p: string, i: nat, start: nat, labels: seq<string>, next: nat)
    requires start <= i && Name(p, i, start) == Some((labels, next))
    ensures i < next <= |p|
    ensures p[next - 1] as int == 0 ||
            (next >= 2 && p[next - 2] as int >= 192 &&
             var target := (p[next - 2] as int - 192) * 256 + p[next - 1] as int;
             && target < start && Name(p, target, target).Some?
             && |labels| >= |Name(p, target, target).value.0|
             && (|labels| == |Name(p, target, target).value.0| ==> i == next - 2))
    decreases start, |p| - i
  {
    var b := p[i] as int;
    if 0 < b < 64 {
      NameTail(p, i + 1 + b, start, labels[1..], next);
    }
  }

  /** A record of this name with four octets of data that ends behind a pointer at `j` begins there. */
  lemma {:induction false} OneRecordEndsAt(p: string, labels: seq<string>, after: nat, i: nat, j: nat, a: Answer)
    requires PointerAt(p, j) && Name(p, 12, 12) == Some((labels, after))
    requires DecodeAnswer(p, i) == Some((a, (j + 16) as nat)) && a.labels == labels && |a.data| == 4
    ensures i == j
  {
    assert Name(p, i, i) == Some((labels, (j + 2) as nat));
    NameTail(p, i, i, labels, j + 2);
  }

  lemma {:induction false} AnswersUnfold(p: string, i: nat, n: nat, all: seq<Answer>, end: nat)
    requires n > 0 && DecodeAnswers(p, i, n) == Some((all, end))
    ensures DecodeAnswer(p, i).Some? && all != []
    ensures DecodeAnswer(p, i).value.0 == all[0]
    ensures DecodeAnswers(p, DecodeAnswer(p, i).value.1, n - 1) == Some((all[1..], end))
  {
    var j := DecodeAnswer(p, i).value.1;
    var rest := DecodeAnswers(p, j, n - 1).value.0;
    assert all == [DecodeAnswer(p, i).value.0] + rest;
  }

  lemma {:induction false} ExpectedUnfold(labels: seq<string>, ips: seq<string>, k: nat, m: nat)
    requires k < m <= |ips|
    ensures var all := Expected(labels, ips, k, m);
            all != [] && all[0] == Answer(labels, 1, 1, 60, ips[k]) && all[1..] == Expected(labels, ips, k + 1, m)
  {
  }

  /** The first of the expected answers, and the others behind it. */
  lemma {:induction false} FirstExpected(p: string, labels: seq<string>, ips: seq<string>, k: nat, i: nat, m: nat, end: nat)
      returns (j: nat)
    requires k < m <= |ips| && ReadAs(p, i, m - k, Expected(labels, ips, k, m), end)
    ensures DecodeAnswer(p, i) == Some((Answer(labels, 1, 1, 60, ips[k]), j))
    ensures ReadAs(p, j, m - k - 1, Expected(labels, ips, k + 1, m), end)
  {
    ExpectedUnfold(labels, ips, k, m);
    AnswersUnfold(p, i, m - k, Expected(labels, ips, k, m), end);
    j := DecodeAnswer(p, i).value.1;
  }

  /** So reading the addresses to the end of the packet must begin with the first of their records. */
  lemma {:induction false} AnswersEndAt(p: string, q: nat, labels: seq<string>, after: nat, ips: seq<string>, k: nat, i: nat)
    requires k <= |ips| && |p| == q + 16 * |ips| && PointersFrom(p, q, ips, k) && Name(p, 12, 12) == Some((labels, after))
    requires ReadAs(p, i, |ips| - k, Expected(labels, ips, k, |ips|), |p|)
    ensures i == q + 16 * k
    decreases |ips| - k
  {
    if k < |ips| {
      var j := FirstExpected(p, labels, ips, k, i, |ips|, |p|);
      AnswersEndAt(p, q, labels, after, ips, k + 1, j);
      OneRecordEndsAt(p, labels, after, i, q + 16 * k, Answer(labels, 1, 1, 60, ips[k]));
    }
  }

  lemma {:induction false} ReadToTheEnd(p: string, q: nat, labels: seq<string>, after: nat, ips: seq<string>, e: nat)
    requires |p| == q + 16 * |ips| && PointersFrom(p, q, ips, 0) && Name(p, 12, 12) == Some((labels, after))
    requires ReadableFrom(p, q, labels, ips, 0)
    ensures ReadAs(p, e, |ips|, Expected(labels, ips, 0, |ips|), |p|) <==> e == q
  {
    if e == q {
      AnswersAreRead(p, q, labels, ips, 0, q, |ips|);
    }
    if ReadAs(p, e, |ips|, Expected(labels, ips, 0, |ips|), |p|) {
      AnswersEndAt(p, q, labels, after, ips, 0, e);
    }
  }

  /** Behind the question the answers are read as the addresses, to the end of the packet, if and
      only if the query ends with its question. */
  lemma {:induction false} AnswersNeedNothingElse(query: string, labels: seq<string>, e: nat, addresses: seq<Address>, p: string, ips: seq<string>)
    requires QuestionAt(query, labels, e) && Valid(addresses) && AllV4(addresses)
    requires IsResponse(p, query, addresses) && ips == Usable(addresses, |addresses|)
    ensures |ips| == |addresses|
    ensures ReadAs(p, e, |ips|, Expected(labels, ips, 0, |ips|), |p|) <==> e == |query|
  {
    AnswersInPlace(query, labels, e, addresses, p, ips);
    PointersInPlace(query, labels, e, addresses, p, ips);
    ReadToTheEnd(p, |query|, labels, e - 4, ips, e);
  }

  lemma {:induction false} AnswersAreCounted(p: string, i: nat, n: nat)
    ensures DecodeAnswers(p, i, n).Some? ==> |DecodeAnswers(p, i, n).value.0| == n
    decreases n
  {
    if n > 0 && DecodeAnswer(p, i).Some? {
      AnswersAreCounted(p, DecodeAnswer(p, i).value.1, n - 1);
    }
  }

  /** Nothing but the answers may be missing. */
  lemma {:induction false} RightIff(p: string, q: nat, labels: seq<string>, after: nat, ips: seq<string>, e: nat, right: Message, n: nat)
    requires |p| >= 12 && DecodeQuestion(p, 12) == Some((right.question, e)) && Number(p, 6, 2) == n
    requires right.id == Number(p, 0, 2) && right.response == (p[2] as int >= 128)
    requires right.answers == Expected(labels, ips, 0, |ips|)
    requires |p| == q + 16 * |ips| && PointersFrom(p, q, ips, 0) && Name(p, 12, 12) == Some((labels, after))
    requires ReadableFrom(p, q, labels, ips, 0)
    ensures Decode(p) == Some(right) <==> Number(p, 4, 2) == 1 && Number(p, 8, 4) == 0 && n == |ips| && e == q
  {
    DecodeUnfolds(p, right.question, e, n);
    AnswersAreCounted(p, e, n);
    ExpectedLength(labels, ips, 0, |ips|);
    ReadToTheEnd(p, q, labels, after, ips, e);
  }

  /** Of every query with a question, the response decodes to what it should if and only if the
      query is one question and nothing else, and every address is valid. */
  lemma {:induction false} ResponseIsRightIff(query: string, labels: seq<string>, e: nat, addresses: seq<Address>, p: string)
    requires QuestionAt(query, labels, e) && Valid(addresses) && !Panics(addresses) && |addresses| < 65536
    requires IsResponse(p, query, addresses)
    ensures Decode(p) == Some(Right(query, labels, e, addresses)) <==> SingleQuestion(query, labels) && AllV4(addresses)
  {
    var ips := Usable(addresses, |addresses|);
    ResponseOpens(query, labels, e, addresses, p);
    AnswersInPlace(query, labels, e, addresses, p, ips);
    PointersInPlace(query, labels, e, addresses, p, ips);
    RightIff(p, |query|, labels, e - 4, ips, e, Right(query, labels, e, addresses), |addresses|);
  }

  lemma {:induction false} ExpectedLength(labels: seq<string>, ips: seq<string>, k: nat, m: nat)
    requires k <= m <= |ips|
    ensures |Expected(labels, ips, k, m)| == m - k
    decreases m - k
  {
    if k < m {
      ExpectedLength(labels, ips, k + 1, m);
    }
  }

  // ---------------------------------------------------------------- an EDNS query

  /** The service that the handler looks up for a packet: none for one it ignores. */
  function ServiceAsked(data: string): string {
    if |data| < 12 then "" else ServiceOf(Pieces('.', ParseName(data[12..])))
  }

  /** One question and one additional record are announced. */
  const EDNS_HEADER: string :=
    [0 as char, 7 as char, 1 as char, 0 as char, 0 as char, 1 as char,
     0 as char, 0 as char, 0 as char, 0 as char, 0 as char, 1 as char]

  const ADDRESS_CLASS_IN: string := [0 as char, 1 as char, 0 as char, 1 as char]

  /** An OPT record of RFC 6891 section 6.1.2: the root name, type 41, a payload size of 4096, no options. */
  function OptOctet(j: nat): char {
    if j == 2 then 41 as char else if j == 3 then 16 as char else 0 as char
  }

  function OptRecord(): string { seq(11, j requires 0 <= j < 11 => OptOctet(j)) }

  function EdnsQuery(labels: seq<string>): string
    requires WellFormed(labels)
  {
    EDNS_HEADER + (Encode(labels) + (ADDRESS_CLASS_IN + OptRecord()))
  }

  /** The query ends with such a record behind its question. */
  ghost predicate EndsInOpt(query: string, e: nat) {
    |query| == e + 11 && forall j :: 0 <= j < 11 ==> query[e + j] == OptOctet(j)
  }

  lemma {:induction false} OptIsRead(p: string, e: nat)
    requires EndsInOpt(p, e)
    ensures p[e] as int == 0 && DecodeAnswer(p, e) == Some((Answer([], 41, 4096, 0, ""), |p| as nat))
  {
    OptOctets(p, e);
    assert Name(p, e, e) == Some(([], (e + 1) as nat));
    NumberOf2(p, e + 1);
    NumberOf2(p, e + 3);
    NumberOf2(p, e + 5);
    NumberOf2(p, e + 7);
    NumberOf4(p, e + 5);
    NumberOf2(p, e + 9);
    assert p[e + 11..e + 11] == "";
  }

  lemma {:induction false} OptOctets(p: string, e: nat)
    requires EndsInOpt(p, e)
    ensures |p| == e + 11 && p[e] as int == 0 && p[e + 1] as int == 0 && p[e + 2] as int == 41 && p[e + 3] as int == 16
    ensures p[e + 4] as int == 0 && p[e + 5] as int == 0 && p[e + 6] as int == 0 && p[e + 7] as int == 0
    ensures p[e + 8] as int == 0 && p[e + 9] as int == 0 && p[e + 10] as int == 0
  {
    assert p[e + 0] == OptOctet(0) && p[e + 1] == OptOctet(1) && p[e + 2] == OptOctet(2) && p[e + 3] == OptOctet(3);
    assert p[e + 4] == OptOctet(4) && p[e + 5] == OptOctet(5) && p[e + 6] == OptOctet(6) && p[e + 7] == OptOctet(7);
    assert p[e + 8] == OptOctet(8) && p[e + 9] == OptOctet(9) && p[e + 10] == OptOctet(10);
  }

  /** The handler takes such a query of every service name: it is a question and an OPT record. */
  lemma {:induction false} EdnsIsAccepted(labels: seq<string>, query: string, e: nat)
    requires WellFormed(labels) && query == EdnsQuery(labels) && e == 12 + |Body(labels)| + 5
    ensures ServiceAsked(query) == ServiceOf(labels)
    ensures QuestionAt(query, labels, e) && EndsInOpt(query, e) && Number(query, 4, 2) == 1 && Number(query, 8, 4) == 1
  {
    assert query[12..] == Encode(labels) + (ADDRESS_CLASS_IN + OptRecord());
    ServiceIsRecovered(labels, ADDRESS_CLASS_IN + OptRecord());
    EdnsQuestion(labels, query, e);
  }

  lemma {:induction false} EdnsQuestion(labels: seq<string>, query: string, e: nat)
    requires WellFormed(labels) && query == EdnsQuery(labels) && e == 12 + |Body(labels)| + 5
    ensures QuestionAt(query, labels, e) && EndsInOpt(query, e) && Number(query, 4, 2) == 1 && Number(query, 8, 4) == 1
  {
    OctetsOfBody(labels);
    assert Octets(EDNS_HEADER) && Octets(ADDRESS_CLASS_IN + OptRecord());
    assert PartOf(Body(labels), query, 12);
    assert query[12 + |Body(labels)|] as int == 0;
    NumberOf2(query, 4);
    NumberOf2(query, 8);
    NumberOf2(query, 10);
    NumberOf4(query, 8);
  }

  lemma {:induction false} OptIsCopied(query: string, e: nat, addresses: seq<Address>, p: string)
    requires 12 <= e && EndsInOpt(query, e) && IsResponse(p, query, addresses)
    ensures DecodeAnswer(p, e) == Some((Answer([], 41, 4096, 0, ""), |query| as nat))
  {
    OptIsRead(query, e);
    ExtraIsCopied(query, e, Answer([], 41, 4096, 0, ""), addresses, p);
  }

  /** And of its response the last address is lost: of one address nothing is left but the record
      of the query itself. */
  lemma {:induction false} EdnsLosesAnAddress(query: string, labels: seq<string>, e: nat, addresses: seq<Address>,
      p: string, ips: seq<string>, n: nat, read: seq<Answer>)
    requires QuestionAt(query, labels, e) && EndsInOpt(query, e)
    requires Valid(addresses) && AllV4(addresses) && |addresses| == n + 1
    requires IsResponse(p, query, addresses) && ips == Usable(addresses, |addresses|)
    requires n <= |ips| ==> read == [Answer([], 41, 4096, 0, "")] + Expected(labels, ips, 0, n)
    ensures |ips| == n + 1 && |p| == |query| + 16 * n + 16
    ensures ReadAs(p, e, n + 1, read, |query| + 16 * n)
  {
    OptIsCopied(query, e, addresses, p);
    UsableAreCounted(addresses, |addresses|);
    ExtraRecordComesFirst(query, labels, e, Answer([], 41, 4096, 0, ""), addresses, p, ips, n, read);
  }

  /** The expected answers are the addresses, in order. */
  lemma {:induction false} ExpectedAddresses(labels: seq<string>, ips: seq<string>, k: nat, m: nat, j: nat)
    requires k <= j < m <= |ips|
    ensures |Expected(labels, ips, k, m)| == m - k
    ensures Expected(labels, ips, k, m)[j - k] == Answer(labels, 1, 1, 60, ips[j])
    decreases m - k
  {
    ExpectedLength(labels, ips, k, m);
    if k < j {
      ExpectedAddresses(labels, ips, k + 1, m, j);
    }
  }
}
