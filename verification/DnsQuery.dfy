/**
 * DNS queries and answers (`backend-rs/src/dnsquery.rs`; sections 4.1.1 to 4.1.4 of RFC 1035, section 2 of RFC 3596).
 */
module DnsQuery {
  import opened Text

  type Byte = x: int | 0 <= x < 0x100
  type U16 = x: int | 0 <= x < 0x1_0000
  type U32 = x: int | 0 <= x < 0x1_0000_0000
  type Bytes = seq<Byte>

  const U32_MAX: U32 := 0xffff_ffff
  const DOT: Byte := 46

  datatype Family = V4 | V6

  function QType(f: Family): U16 { if f.V4? then 1 else 28 }

  /** An address by its octets (4 or 16) and its TTL in seconds. */
  datatype Record = Record(octets: Bytes, ttl: U32)

  datatype Parsed = Records(records: seq<Record>) | Truncated | Failed(code: int)

  function Min(a: U32, b: U32): U32 { if a <= b then a else b }

  // ------------------------------------------------------------ big-endian

  function Be16(x: U16): (b: Bytes) ensures |b| == 2 { [x / 0x100, x % 0x100] }

  function Be32(x: U32): (b: Bytes) ensures |b| == 4 { Be16(x / 0x1_0000) + Be16(x % 0x1_0000) }

  /** `u16_at`. */
  function U16At(bytes: Bytes, at: nat): Option<U16>
  {
    if at + 1 < |bytes| then
      var hi: int := bytes[at];
      Some(hi * 0x100 + bytes[at + 1])
    else None
  }

  /** `u32_at`. */
  function U32At(bytes: Bytes, at: nat): Option<U32>
  {
    match (U16At(bytes, at), U16At(bytes, at + 2))
    case (Some(high), Some(low)) =>
      var hi: int := high;
      Some(hi * 0x1_0000 + low)
    case _ => None
  }

  /** `part` stands at offset `at`. */
  predicate HasAt(bytes: Bytes, at: nat, part: Bytes)
  {
    at + |part| <= |bytes| && bytes[at..at + |part|] == part
  }

  lemma HasAll(bytes: Bytes)
    ensures HasAt(bytes, 0, bytes)
  {
  }

  lemma Parts(bytes: Bytes, at: nat, a: Bytes, b: Bytes)
    requires HasAt(bytes, at, a + b)
    ensures HasAt(bytes, at, a) && HasAt(bytes, at + |a|, b)
  {
    var ab := bytes[at..at + |a| + |b|];
    assert a == ab[..|a|] && b == ab[|a|..];
  }

  lemma ReadBe16(bytes: Bytes, at: nat, x: U16)
    requires HasAt(bytes, at, Be16(x))
    ensures U16At(bytes, at) == Some(x)
  {
    assert bytes[at] == Be16(x)[0] && bytes[at + 1] == Be16(x)[1];
  }

  lemma ReadBe32(bytes: Bytes, at: nat, x: U32)
    requires HasAt(bytes, at, Be32(x))
    ensures U32At(bytes, at) == Some(x)
  {
    Parts(bytes, at, Be16(x / 0x1_0000), Be16(x % 0x1_0000));
    ReadBe16(bytes, at, x / 0x1_0000);
    ReadBe16(bytes, at + 2, x % 0x1_0000);
  }

  // ----------------------------------------------------------------- names

  /** The specification of `skip_name`: the offset just past the name at `at`. */
  function NameEnd(bytes: Bytes, at: nat): Option<nat>
    decreases |bytes| - at
  {
    if at >= |bytes| then None
    else if bytes[at] >= 0xC0 then Some(at + 2)
    else if bytes[at] == 0 then Some(at + 1)
    else NameEnd(bytes, at + bytes[at] + 1)
  }

  /** `skip_name`; a byte has both top bits set exactly from 0xC0 on. */
  method SkipName(bytes: Bytes, start: nat) returns (r: Option<nat>)
    ensures r == NameEnd(bytes, start)
  {
    var at := start;
    while true
      invariant NameEnd(bytes, at) == NameEnd(bytes, start)
      decreases |bytes| - at
    {
      if at >= |bytes| { return None; }
      var len := bytes[at];
      if len >= 0xC0 { return Some(at + 2); }
      if len == 0 { return Some(at + 1); }
      at := at + len + 1;
    }
  }

  /** A name on the wire: labels, then the root or a pointer to another name. */
  datatype Name = Name(labels: seq<Bytes>, pointer: Option<U16>)

  predicate ValidLabel(l: Bytes) { 1 <= |l| <= 63 }

  predicate ValidName(n: Name)
  {
    (forall l :: l in n.labels ==> ValidLabel(l)) && (n.pointer.Some? ==> n.pointer.value < 0x4000)
  }

  function LengthByte(l: Bytes): Bytes
    requires ValidLabel(l)
  {
    [|l|]
  }

  function EncodeLabels(labels: seq<Bytes>): Bytes
    requires forall l :: l in labels ==> ValidLabel(l)
  {
    if labels == [] then [] else LengthByte(labels[0]) + labels[0] + EncodeLabels(labels[1..])
  }

  function NameTail(n: Name): Bytes
    requires ValidName(n)
  {
    if n.pointer.Some? then Be16(0xC000 + n.pointer.value) else [0]
  }

  function EncodeName(n: Name): Bytes
    requires ValidName(n)
  {
    EncodeLabels(n.labels) + NameTail(n)
  }

  /** A name with a first label is that label before the rest. */
  lemma FirstLabel(bytes: Bytes, at: nat, n: Name)
    requires ValidName(n) && n.labels != [] && HasAt(bytes, at, EncodeName(n))
    ensures var l, rest := n.labels[0], n.(labels := n.labels[1..]);
            bytes[at] == |l| && 1 <= |l| <= 63 && HasAt(bytes, at + 1, l)
              && HasAt(bytes, at + 1 + |l|, EncodeName(rest))
            && |EncodeName(n)| == 1 + |l| + |EncodeName(rest)|
  {
    var l, rest := n.labels[0], n.(labels := n.labels[1..]);
    assert ValidLabel(l);
    assert EncodeName(n) == LengthByte(l) + (l + EncodeName(rest));
    Parts(bytes, at, LengthByte(l), l + EncodeName(rest));
    Parts(bytes, at + 1, l, EncodeName(rest));
    assert bytes[at..at + 1][0] == LengthByte(l)[0];
  }

  lemma LastByte(bytes: Bytes, at: nat, n: Name)
    requires ValidName(n) && n.labels == [] && HasAt(bytes, at, EncodeName(n))
    ensures bytes[at] == NameTail(n)[0] && |EncodeName(n)| == |NameTail(n)|
  {
    assert bytes[at..at + |NameTail(n)|][0] == NameTail(n)[0];
  }

  lemma {:induction false} NameEndOfEncoded(bytes: Bytes, at: nat, n: Name)
    requires ValidName(n) && HasAt(bytes, at, EncodeName(n))
    ensures NameEnd(bytes, at) == Some(at + |EncodeName(n)|)
    decreases |n.labels|
  {
    if n.labels != [] {
      FirstLabel(bytes, at, n);
      var next := at + 1 + |n.labels[0]|;
      NameEndOfEncoded(bytes, next, n.(labels := n.labels[1..]));
    } else {
      LastByte(bytes, at, n);
    }
  }

  /** The labels of the uncompressed name at `at`. */
  function LabelsAt(bytes: Bytes, at: nat): Option<seq<Bytes>>
    decreases |bytes| - at
  {
    if at >= |bytes| || bytes[at] >= 64 then None
    else if bytes[at] == 0 then Some([])
    else
      var next := at + bytes[at] + 1;
      if next > |bytes| then None
      else match LabelsAt(bytes, next)
        case None => None
        case Some(rest) => Some([bytes[at + 1..next]] + rest)
  }

  lemma {:induction false} LabelsOfEncoded(bytes: Bytes, at: nat, n: Name)
    requires ValidName(n) && n.pointer.None? && HasAt(bytes, at, EncodeName(n))
    ensures LabelsAt(bytes, at) == Some(n.labels)
    decreases |n.labels|
  {
    if n.labels == [] {
      LastByte(bytes, at, n);
    } else {
      FirstLabel(bytes, at, n);
      var next := at + 1 + |n.labels[0]|;
      LabelsOfEncoded(bytes, next, n.(labels := n.labels[1..]));
      assert bytes[at + 1..next] == n.labels[0];
      assert n.labels == [n.labels[0]] + n.labels[1..];
    }
  }

  // ----------------------------------------------------------------- query

  /** `trim_end_matches('.')`. */
  function TrimDots(host: Bytes): Bytes
  {
    if host != [] && host[|host| - 1] == DOT then TrimDots(host[..|host| - 1]) else host
  }

  /** The dots at the end go, and nothing else. */
  lemma {:induction false} TrimDotsExactly(host: Bytes)
    ensures TrimDots(host) <= host && forall i :: |TrimDots(host)| <= i < |host| ==> host[i] == DOT
    ensures TrimDots(host) != [] ==> TrimDots(host)[|TrimDots(host)| - 1] != DOT
    decreases |host|
  {
    if host != [] && host[|host| - 1] == DOT { TrimDotsExactly(host[..|host| - 1]); }
  }

  /** A host the builder takes: each label between the dots has 1 to 63 bytes. */
  predicate Carried(host: Bytes) { forall l :: l in Split(TrimDots(host), DOT) ==> ValidLabel(l) }

  /** `query`: the query packet, with recursion desired and one question of class IN. */
  method Query(id: U16, host: Bytes, family: Family) returns (r: Option<Bytes>)
    ensures r.Some? <==> Carried(host)
    ensures r.Some? ==> r.value == Encode(QueryMessage(id, host, family))
  {
    hide Encode, QueryMessage, Split, TrimDots, Be16, QType;
    var packet: Bytes := Be16(id);
    packet := packet + [0x01, 0x00, 0, 1, 0, 0, 0, 0, 0, 0];
    var head := packet;
    var labels := Split(TrimDots(host), DOT);
    for i := 0 to |labels|
      invariant forall l :: l in labels[..i] ==> ValidLabel(l)
      invariant packet == head + EncodeLabels(labels[..i])
    {
      assert labels[i] in labels;
      if !(1 <= |labels[i]| < 64) { return None; }
      packet := packet + LengthByte(labels[i]);
      packet := packet + labels[i];
      LabelsAppend(labels[..i], labels[i]);
      assert labels[..i + 1] == labels[..i] + [labels[i]];
    }
    assert labels[..|labels|] == labels;
    packet := packet + [0];
    packet := packet + Be16(QType(family));
    packet := packet + [0, 1];
    QueryPacket(id, host, family);
    return Some(packet);
  }

  lemma QueryPacket(id: U16, host: Bytes, family: Family)
    requires Carried(host)
    ensures Encode(QueryMessage(id, host, family))
         == Be16(id) + [0x01, 0x00, 0, 1, 0, 0, 0, 0, 0, 0] + EncodeLabels(Split(TrimDots(host), DOT)) + [0]
            + Be16(QType(family)) + [0, 1]
  {
    var m := QueryMessage(id, host, family);
    var q := m.questions[0];
    assert m.questions == [q] && q.name.labels == Split(TrimDots(host), DOT);
    assert Header(m) == Be16(id) + [0x01, 0x00, 0, 1, 0, 0, 0, 0, 0, 0];
    assert EncodeQuestions(m.questions) == EncodeQuestion(q);
    assert EncodeName(q.name) == EncodeLabels(q.name.labels) + [0];
    assert Be16(q.qclass) == [0, 1];
  }

  /** One question of class IN for the host's labels, recursion desired. */
  function QueryMessage(id: U16, host: Bytes, family: Family): (m: Message)
    ensures Carried(host) ==> ValidMessage(m)
  {
    Message(id, 0x100, [Question(Name(Split(TrimDots(host), DOT), None), QType(family), 1)], [], 0, 0, [])
  }

  /** The longest name on the wire, by section 2.3.4 of RFC 1035. */
  const NAME_MAX := 255

  lemma {:induction false} LabelBytes(labels: seq<Bytes>)
    requires labels != [] && forall l :: l in labels ==> ValidLabel(l)
    ensures |EncodeLabels(labels)| == |Join(labels, DOT)| + 1
  {
    if |labels| > 1 {
      LabelBytes(labels[1..]);
    } else {
      assert EncodeLabels(labels[1..]) == [];
    }
  }

  /** The builder has no limit for the whole name: it is one of DNS exactly for a host of at most 253 bytes. */
  lemma NameFits(id: U16, host: Bytes, family: Family)
    requires Carried(host)
    ensures var name := QueryMessage(id, host, family).questions[0].name;
            ValidName(name) && |EncodeName(name)| == |TrimDots(host)| + 2
            && (|EncodeName(name)| <= NAME_MAX <==> |TrimDots(host)| <= 253)
  {
    SplitThenJoin(TrimDots(host), DOT);
    LabelBytes(Split(TrimDots(host), DOT));
  }

  /** A text that doesn't end in a dot. */
  predicate Undotted(host: Bytes) { host != [] && host[|host| - 1] != DOT }

  lemma NothingTrimmed(host: Bytes)
    requires Undotted(host)
    ensures TrimDots(host) == host
  {
  }

  lemma Labelled(l: Bytes)
    requires Undotted(l) && DOT !in l
    ensures Split(TrimDots(l), DOT) == [l]
  {
    SplitPlain(l, DOT);
  }

  lemma OneMoreLabel(l: Bytes, host: Bytes)
    requires DOT !in l && Undotted(host)
    ensures var h := l + [DOT] + host;
            Undotted(h) && |h| == |l| + 1 + |host| && Split(TrimDots(h), DOT) == [l] + Split(TrimDots(host), DOT)
  {
    hide Split;
    SplitFirst(l, host, DOT);
  }

  function LongLabel(): (l: Bytes)
    ensures ValidLabel(l) && DOT !in l && Undotted(l) && |l| == 63
  {
    seq(63, i requires 0 <= i < 63 => 97)
  }

  /** Labels of 63 bytes. */
  function LongHost(labels: nat): Bytes
  {
    if labels <= 1 then LongLabel() else LongLabel() + [DOT] + LongHost(labels - 1)
  }

  lemma {:induction false} LongHosts(labels: nat)
    requires labels >= 1
    ensures var host := LongHost(labels); Undotted(host) && |TrimDots(host)| == 64 * labels - 1 && Carried(host)
  {
    hide LongLabel, Split, Undotted, ValidLabel, TrimDots;
    var l := LongLabel();
    if labels == 1 {
      Labelled(l);
    } else {
      LongHosts(labels - 1);
      NothingTrimmed(LongHost(labels - 1));
      OneMoreLabel(l, LongHost(labels - 1));
    }
    NothingTrimmed(LongHost(labels));
  }

  /** A host that is too long for DNS and still gets a packet. */
  lemma LongHostGetsAPacket(id: U16, family: Family)
    ensures Carried(LongHost(4))
    ensures var name := QueryMessage(id, LongHost(4), family).questions[0].name;
            ValidName(name) && |EncodeName(name)| > NAME_MAX
  {
    hide LongHost, TrimDots, QueryMessage;
    LongHosts(4);
    NameFits(id, LongHost(4), family);
  }

  lemma {:induction false} LabelsAppend(labels: seq<Bytes>, l: Bytes)
    requires ValidLabel(l) && forall x :: x in labels ==> ValidLabel(x)
    ensures EncodeLabels(labels + [l]) == EncodeLabels(labels) + LengthByte(l) + l
  {
    if labels != [] {
      LabelsAppend(labels[1..], l);
      assert (labels + [l])[1..] == labels[1..] + [l];
    } else {
      assert EncodeLabels([l]) == LengthByte(l) + l + EncodeLabels([]);
    }
  }

  // --------------------------------------------------------------- messages

  datatype Question = Question(name: Name, qtype: U16, qclass: U16)

  datatype Answer = Answer(name: Name, kind: U16, aclass: U16, ttl: U32, data: Bytes)

  /** A message; `rest` holds the authority and additional records, which the parser doesn't read. */
  datatype Message = Message(
    id: U16, flags: U16, questions: seq<Question>, answers: seq<Answer>, authorities: U16, additional: U16, rest: Bytes)

  predicate ValidQuestions(qs: seq<Question>) { forall q :: q in qs ==> ValidName(q.name) }

  /** Names are well-formed and data fits its length field. */
  predicate ValidAnswer(a: Answer) { ValidName(a.name) && |a.data| < 0x1_0000 }

  /** An address record of the family holds 4 or 16 octets. */
  predicate WellSized(a: Answer, family: Family)
  {
    (family.V4? && a.kind == 1 ==> |a.data| == 4) && (family.V6? && a.kind == 28 ==> |a.data| == 16)
  }

  predicate ValidAnswers(answers: seq<Answer>) { forall a :: a in answers ==> ValidAnswer(a) }

  predicate ValidMessage(m: Message)
  {
    ValidQuestions(m.questions) && ValidAnswers(m.answers) && |m.questions| < 0x1_0000 && |m.answers| < 0x1_0000
  }

  function EncodeQuestion(q: Question): Bytes
    requires ValidName(q.name)
  {
    EncodeName(q.name) + (Be16(q.qtype) + Be16(q.qclass))
  }

  function EncodeQuestions(qs: seq<Question>): Bytes
    requires ValidQuestions(qs)
  {
    if qs == [] then [] else EncodeQuestion(qs[0]) + EncodeQuestions(qs[1..])
  }

  function EncodeAnswer(a: Answer): Bytes
    requires ValidAnswer(a)
  {
    EncodeName(a.name) + (Be16(a.kind) + Be16(a.aclass) + Be32(a.ttl) + Be16(|a.data|) + a.data)
  }

  function EncodeAnswers(answers: seq<Answer>): Bytes
    requires ValidAnswers(answers)
  {
    if answers == [] then [] else EncodeAnswer(answers[0]) + EncodeAnswers(answers[1..])
  }

  function Header(m: Message): Bytes
    requires ValidMessage(m)
  {
    Be16(m.id) + Be16(m.flags) + Be16(|m.questions|) + Be16(|m.answers|) + Be16(m.authorities) + Be16(m.additional)
  }

  function Encode(m: Message): Bytes
    requires ValidMessage(m)
  {
    Header(m) + EncodeQuestions(m.questions) + EncodeAnswers(m.answers) + m.rest
  }

  /** The addresses of the asked family in their order, each TTL capped. */
  function Addresses(answers: seq<Answer>, family: Family, cap: U32): seq<Record>
  {
    if answers == [] then []
    else
      var rest := Addresses(answers[1..], family, cap);
      if answers[0].kind == QType(family) then [Record(answers[0].data, Min(answers[0].ttl, cap))] + rest else rest
  }

  /** The lowest TTL of the CNAME records. */
  function CnameTtl(answers: seq<Answer>): U32
  {
    if answers == [] then U32_MAX
    else if answers[0].kind == 5 then Min(answers[0].ttl, CnameTtl(answers[1..]))
    else CnameTtl(answers[1..])
  }

  // ------------------------------------------------------------------ parser

  /** The offset past `n` questions. */
  function QuestionsEnd(bytes: Bytes, at: nat, n: nat): Option<nat>
    decreases n
  {
    if n == 0 then Some(at)
    else match NameEnd(bytes, at)
      case None => None
      case Some(next) => QuestionsEnd(bytes, next + 4, n - 1)
  }

  /** One answer record: what it adds, and the offset past it. */
  datatype Item = Item(records: seq<Record>, cname: U32, next: nat)

  function ReadAnswer(bytes: Bytes, at: nat, family: Family): Option<Item>
  {
    var name := NameEnd(bytes, at);
    if name.None? then None
    else
      var p := name.value;
      var kind, ttl, len := U16At(bytes, p), U32At(bytes, p + 4), U16At(bytes, p + 8);
      if kind.None? || ttl.None? || len.None? || p + 10 + len.value > |bytes| then None
      else
        var next := p + 10 + len.value;
        var data := bytes[p + 10..next];
        if kind.value == 5 then Some(Item([], ttl.value, next))
        else if kind.value == 1 && family.V4? then
          if |data| == 4 then Some(Item([Record(data, ttl.value)], U32_MAX, next)) else None
        else if kind.value == 28 && family.V6? then
          if |data| == 16 then Some(Item([Record(data, ttl.value)], U32_MAX, next)) else None
        else Some(Item([], U32_MAX, next))
  }

  function ReadAnswers(bytes: Bytes, at: nat, n: nat, family: Family): Option<Item>
    decreases n
  {
    if n == 0 then Some(Item([], U32_MAX, at))
    else match ReadAnswer(bytes, at, family)
      case None => None
      case Some(first) =>
        match ReadAnswers(bytes, first.next, n - 1, family)
        case None => None
        case Some(rest) => Some(Item(first.records + rest.records, Min(first.cname, rest.cname), rest.next))
  }

  function Capped(records: seq<Record>, cap: U32): seq<Record>
  {
    seq(|records|, i requires 0 <= i < |records| => Record(records[i].octets, Min(records[i].ttl, cap)))
  }

  /** The specification of `parse`. */
  function ParseSpec(bytes: Bytes, id: U16, family: Family): Option<Parsed>
  {
    var flags, questions, answers := U16At(bytes, 2), U16At(bytes, 4), U16At(bytes, 6);
    if U16At(bytes, 0) != Some(id) || flags.None? then None
    else if flags.value / 0x200 % 2 == 1 then Some(Truncated)
    else if flags.value % 0x10 != 0 then Some(Failed(flags.value % 0x10))
    else if questions.None? || answers.None? then None
    else match QuestionsEnd(bytes, 12, questions.value)
      case None => None
      case Some(at) =>
        match ReadAnswers(bytes, at, answers.value, family)
        case None => None
        case Some(all) => Some(Records(Capped(all.records, all.cname)))
  }

  /** `parse`, its three loops in methods of their own. */
  method Parse(bytes: Bytes, id: U16, family: Family) returns (r: Option<Parsed>)
    ensures r == ParseSpec(bytes, id, family)
  {
    if U16At(bytes, 0) != Some(id) { return None; }
    var flags := U16At(bytes, 2);
    if flags.None? { return None; }
    if flags.value / 0x200 % 2 == 1 { return Some(Truncated); }
    if flags.value % 0x10 != 0 { return Some(Failed(flags.value % 0x10)); }
    var questions := U16At(bytes, 4);
    if questions.None? { return None; }
    var answers := U16At(bytes, 6);
    if answers.None? { return None; }
    var at := SkipQuestions(bytes, 12, questions.value);
    if at.None? { return None; }
    var all := Collect(bytes, at.value, answers.value, family);
    if all.None? { return None; }
    var records := CapTtls(all.value.0, all.value.1);
    return Some(Records(records));
  }

  method SkipQuestions(bytes: Bytes, start: nat, n: nat) returns (r: Option<nat>)
    ensures r == QuestionsEnd(bytes, start, n)
  {
    var at := start;
    for i := 0 to n
      invariant QuestionsEnd(bytes, at, n - i) == QuestionsEnd(bytes, start, n)
    {
      var next := SkipName(bytes, at);
      if next.None? { return None; }
      at := next.value + 4;
    }
    return Some(at);
  }

  /** The records of the asked family and the lowest CNAME TTL. */
  method Collect(bytes: Bytes, start: nat, n: nat, family: Family) returns (r: Option<(seq<Record>, U32)>)
    ensures var all := ReadAnswers(bytes, start, n, family);
            r == if all.None? then None else Some((all.value.records, all.value.cname))
  {
    hide NameEnd, U16At, U32At, Min, After, ReadAnswers;
    var at: nat := start;
    var records: seq<Record> := [];
    var cnameTtl := U32_MAX;
    AfterNothing(ReadAnswers(bytes, at, n, family));
    for i := 0 to n
      invariant ReadAnswers(bytes, start, n, family) == After(records, cnameTtl, ReadAnswers(bytes, at, n - i, family))
    {
      AfterAnswer(bytes, at, n - i, family, records, cnameTtl);
      var name := SkipName(bytes, at);
      if name.None? { return None; }
      var p := name.value;
      var kind, ttl, len := U16At(bytes, p), U32At(bytes, p + 4), U16At(bytes, p + 8);
      if kind.None? || ttl.None? || len.None? || p + 10 + len.value > |bytes| { return None; }
      var data := bytes[p + 10..p + 10 + len.value];
      if kind.value == 5 {
        cnameTtl := Min(cnameTtl, ttl.value);
      } else if kind.value == 1 && family.V4? {
        if |data| != 4 { return None; }
        records := records + [Record(data, ttl.value)];
      } else if kind.value == 28 && family.V6? {
        if |data| != 16 { return None; }
        records := records + [Record(data, ttl.value)];
      }
      at := p + 10 + len.value;
    }
    AfterLast(bytes, at, family, records, cnameTtl);
    return Some((records, cnameTtl));
  }

  method CapTtls(all: seq<Record>, cap: U32) returns (records: seq<Record>)
    ensures records == Capped(all, cap)
  {
    records := all;
    for i := 0 to |records|
      invariant |records| == |all|
      invariant forall k :: i <= k < |all| ==> records[k] == all[k]
      invariant forall k :: 0 <= k < i ==> records[k] == Record(all[k].octets, Min(all[k].ttl, cap))
    {
      records := records[i := Record(records[i].octets, Min(records[i].ttl, cap))];
    }
  }

  function After(records: seq<Record>, cname: U32, rest: Option<Item>): Option<Item>
  {
    match rest
    case None => None
    case Some(r) => Some(Item(records + r.records, Min(cname, r.cname), r.next))
  }

  /** One answer read: its records join those before, and the lower CNAME TTL stays. */
  lemma AfterAnswer(bytes: Bytes, at: nat, n: nat, family: Family, records: seq<Record>, cname: U32)
    requires n > 0
    ensures var item := ReadAnswer(bytes, at, family);
            After(records, cname, ReadAnswers(bytes, at, n, family))
            == if item.None? then None
               else After(records + item.value.records, Min(cname, item.value.cname),
                          ReadAnswers(bytes, item.value.next, n - 1, family))
    ensures records + [] == records && Min(cname, U32_MAX) == cname
  {
    hide ReadAnswer;
    var item := ReadAnswer(bytes, at, family);
    if item.Some? { AfterOne(records, cname, item.value, ReadAnswers(bytes, item.value.next, n - 1, family)); }
  }

  lemma AfterLast(bytes: Bytes, at: nat, family: Family, records: seq<Record>, cname: U32)
    ensures After(records, cname, ReadAnswers(bytes, at, 0, family)) == Some(Item(records, cname, at))
  {
    assert records + [] == records;
  }

  lemma AfterNothing(rest: Option<Item>)
    ensures After([], U32_MAX, rest) == rest
  {
    if rest.Some? { assert [] + rest.value.records == rest.value.records; }
  }

  lemma AfterOne(records: seq<Record>, cname: U32, item: Item, rest: Option<Item>)
    ensures After(records, cname, if rest.None? then None else
              Some(Item(item.records + rest.value.records, Min(item.cname, rest.value.cname), rest.value.next)))
         == After(records + item.records, Min(cname, item.cname), rest)
    ensures records + [] == records && Min(cname, U32_MAX) == cname
  {
    if rest.Some? {
      assert records + (item.records + rest.value.records) == records + item.records + rest.value.records;
    }
  }

  // ---------------------------------------------------------------- theorems

  lemma {:induction false} QuestionsOfEncoded(bytes: Bytes, at: nat, qs: seq<Question>)
    requires ValidQuestions(qs) && HasAt(bytes, at, EncodeQuestions(qs))
    ensures QuestionsEnd(bytes, at, |qs|) == Some(at + |EncodeQuestions(qs)|)
    decreases |qs|
  {
    if qs != [] {
      var q := qs[0];
      Parts(bytes, at, EncodeQuestion(q), EncodeQuestions(qs[1..]));
      Parts(bytes, at, EncodeName(q.name), Be16(q.qtype) + Be16(q.qclass));
      NameEndOfEncoded(bytes, at, q.name);
      QuestionsOfEncoded(bytes, at + |EncodeQuestion(q)|, qs[1..]);
    }
  }

  /** The fixed fields and the data that follow an answer's name. */
  lemma AnswerFields(bytes: Bytes, at: nat, a: Answer)
    requires ValidAnswer(a) && HasAt(bytes, at, EncodeAnswer(a))
    ensures var p := at + |EncodeName(a.name)|;
            NameEnd(bytes, at) == Some(p) && U16At(bytes, p) == Some(a.kind) && U32At(bytes, p + 4) == Some(a.ttl)
            && U16At(bytes, p + 8) == Some(|a.data|) && HasAt(bytes, p + 10, a.data)
  {
    hide NameEnd, U16At, U32At, EncodeName, Be16, Be32, HasAt;
    var name, kind, cls, ttl, len := EncodeName(a.name), Be16(a.kind), Be16(a.aclass), Be32(a.ttl), Be16(|a.data|);
    var p := at + |name|;
    Parts(bytes, at, name, kind + cls + ttl + len + a.data);
    NameEndOfEncoded(bytes, at, a.name);
    Parts(bytes, p, kind + cls + ttl + len, a.data);
    Parts(bytes, p, kind + cls + ttl, len);
    Parts(bytes, p, kind + cls, ttl);
    Parts(bytes, p, kind, cls);
    ReadBe16(bytes, p, a.kind);
    ReadBe32(bytes, p + 4, a.ttl);
    ReadBe16(bytes, p + 8, |a.data|);
  }

  lemma AnswerOfEncoded(bytes: Bytes, at: nat, a: Answer, family: Family)
    requires ValidAnswer(a) && HasAt(bytes, at, EncodeAnswer(a))
    ensures ReadAnswer(bytes, at, family)
         == if WellSized(a, family) then Some(ItemOf(a, family, at + |EncodeAnswer(a)|)) else None
  {
    hide NameEnd, U16At, U32At, EncodeName, Be16, Be32;
    AnswerFields(bytes, at, a);
  }

  function ItemOf(a: Answer, family: Family, next: nat): (item: Item)
    ensures item.next == next
  {
    Item(if a.kind == QType(family) then [Record(a.data, a.ttl)] else [], if a.kind == 5 then a.ttl else U32_MAX, next)
  }

  lemma AnswersStep(answers: seq<Answer>, family: Family, cap: U32, next: nat, rest: Item)
    requires answers != [] && rest.cname == CnameTtl(answers[1..])
    requires Capped(rest.records, cap) == Addresses(answers[1..], family, cap)
    ensures var first := ItemOf(answers[0], family, next);
            Min(first.cname, rest.cname) == CnameTtl(answers)
            && Capped(first.records + rest.records, cap) == Addresses(answers, family, cap)
  {
    CappedAppend(ItemOf(answers[0], family, next).records, rest.records, cap);
  }

  lemma {:induction false} AnswersOfEncoded(bytes: Bytes, at: nat, answers: seq<Answer>, family: Family, cap: U32)
    requires ValidAnswers(answers) && HasAt(bytes, at, EncodeAnswers(answers))
    ensures var r := ReadAnswers(bytes, at, |answers|, family);
            (r.Some? <==> forall i :: 0 <= i < |answers| ==> WellSized(answers[i], family))
            && (r.Some? ==> r.value.cname == CnameTtl(answers) && r.value.next == at + |EncodeAnswers(answers)|
                            && Capped(r.value.records, cap) == Addresses(answers, family, cap))
    decreases |answers|
  {
    hide Capped, Min, Addresses, CnameTtl, ReadAnswer, EncodeAnswer, ItemOf, HasAt, WellSized;
    if answers == [] {
      NoAnswers(family, cap);
    } else {
      var a, rest := answers[0], answers[1..];
      var next := at + |EncodeAnswer(a)|;
      Parts(bytes, at, EncodeAnswer(a), EncodeAnswers(rest));
      AnswerOfEncoded(bytes, at, a, family);
      AnswersOfEncoded(bytes, next, rest, family, cap);
      var r := ReadAnswers(bytes, next, |rest|, family);
      if r.Some? { AnswersStep(answers, family, cap, next, r.value); }
      assert answers == [a] + rest;
    }
  }

  lemma NoAnswers(family: Family, cap: U32)
    ensures Addresses([], family, cap) == Capped([], cap) && CnameTtl([]) == U32_MAX
  {
  }

  lemma CappedAppend(a: seq<Record>, b: seq<Record>, cap: U32)
    ensures Capped(a + b, cap) == Capped(a, cap) + Capped(b, cap)
    ensures |a| == 1 ==> Capped(a, cap) == [Record(a[0].octets, Min(a[0].ttl, cap))]
    ensures Capped([] + b, cap) == Capped(b, cap)
  {
  }

  lemma HeaderFields(m: Message)
    requires ValidMessage(m)
    ensures var b := Encode(m);
            U16At(b, 0) == Some(m.id) && U16At(b, 2) == Some(m.flags)
            && U16At(b, 4) == Some(|m.questions|) && U16At(b, 6) == Some(|m.answers|)
            && HasAt(b, 12, EncodeQuestions(m.questions))
            && HasAt(b, 12 + |EncodeQuestions(m.questions)|, EncodeAnswers(m.answers))
  {
    hide HasAt, U16At, Be16, EncodeQuestions, EncodeAnswers;
    var b := Encode(m);
    var qs, answers := EncodeQuestions(m.questions), EncodeAnswers(m.answers);
    HasAll(b);
    Parts(b, 0, Header(m) + qs + answers, m.rest);
    Parts(b, 0, Header(m) + qs, answers);
    Parts(b, 0, Header(m), qs);
    var id, flags, nq, na := Be16(m.id), Be16(m.flags), Be16(|m.questions|), Be16(|m.answers|);
    assert Header(m) == id + flags + nq + na + (Be16(m.authorities) + Be16(m.additional));
    Parts(b, 0, id + flags + nq + na, Be16(m.authorities) + Be16(m.additional));
    Parts(b, 0, id + flags + nq, na);
    Parts(b, 0, id + flags, nq);
    Parts(b, 0, id, flags);
    ReadBe16(b, 0, m.id);
    ReadBe16(b, 2, m.flags);
    ReadBe16(b, 4, |m.questions|);
    ReadBe16(b, 6, |m.answers|);
  }

  lemma ParseOfParts(b: Bytes, m: Message, id: U16, family: Family)
    requires ValidMessage(m) && U16At(b, 0) == Some(m.id) && U16At(b, 2) == Some(m.flags)
    requires U16At(b, 4) == Some(|m.questions|) && U16At(b, 6) == Some(|m.answers|)
    requires HasAt(b, 12, EncodeQuestions(m.questions))
    requires HasAt(b, 12 + |EncodeQuestions(m.questions)|, EncodeAnswers(m.answers))
    ensures ParseSpec(b, id, family) == Meaning(m, id, family)
  {
    hide Capped, Addresses, CnameTtl, ReadAnswers, QuestionsEnd, EncodeAnswers, EncodeQuestions, HasAt, U16At,
         WellSized;
    QuestionsOfEncoded(b, 12, m.questions);
    AnswersOfEncoded(b, 12 + |EncodeQuestions(m.questions)|, m.answers, family, CnameTtl(m.answers));
  }

  /**
   * What a message says to the query `id` for a family: nothing under another id, the error of its flags, nothing
   * with an address of another size, or exactly the addresses of that family in order, each TTL capped by the lowest
   * CNAME TTL.
   */
  function Meaning(m: Message, id: U16, family: Family): Option<Parsed>
  {
    if m.id != id then None
    else if m.flags / 0x200 % 2 == 1 then Some(Truncated)
    else if m.flags % 0x10 != 0 then Some(Failed(m.flags % 0x10))
    else if exists i :: 0 <= i < |m.answers| && !WellSized(m.answers[i], family) then None
    else Some(Records(Addresses(m.answers, family, CnameTtl(m.answers))))
  }

  /** Every well-formed message, its names plain or compressed in any mix, is read as what it says. */
  lemma ParseOfEncoded(m: Message, id: U16, family: Family)
    requires ValidMessage(m)
    ensures ParseSpec(Encode(m), id, family) == Meaning(m, id, family)
  {
    HeaderFields(m);
    ParseOfParts(Encode(m), m, id, family);
  }

  // ------------------------------------------------------- messages cut short

  lemma {:induction false} NameEndMore(b: Bytes, more: Bytes, at: nat)
    requires NameEnd(b, at).Some?
    ensures NameEnd(b + more, at) == NameEnd(b, at)
    decreases |b| - at
  {
    if 0 < b[at] < 0xC0 { NameEndMore(b, more, at + b[at] + 1); }
  }

  lemma {:induction false} QuestionsEndMore(b: Bytes, more: Bytes, at: nat, n: nat)
    requires QuestionsEnd(b, at, n).Some?
    ensures QuestionsEnd(b + more, at, n) == QuestionsEnd(b, at, n)
    decreases n
  {
    hide NameEnd;
    if n > 0 {
      NameEndMore(b, more, at);
      QuestionsEndMore(b, more, NameEnd(b, at).value + 4, n - 1);
    }
  }

  lemma NumbersMore(b: Bytes, more: Bytes, at: nat)
    ensures U16At(b, at).Some? ==> U16At(b + more, at) == U16At(b, at)
    ensures U32At(b, at).Some? ==> U32At(b + more, at) == U32At(b, at)
  {
  }

  lemma ReadAnswerMore(b: Bytes, more: Bytes, at: nat, family: Family)
    requires ReadAnswer(b, at, family).Some?
    ensures ReadAnswer(b + more, at, family) == ReadAnswer(b, at, family) && ReadAnswer(b, at, family).value.next <= |b|
  {
    hide NameEnd, U16At, U32At;
    NameEndMore(b, more, at);
    var p := NameEnd(b, at).value;
    NumbersMore(b, more, p);
    NumbersMore(b, more, p + 4);
    NumbersMore(b, more, p + 8);
    var next := p + 10 + U16At(b, p + 8).value;
    assert (b + more)[p + 10..next] == b[p + 10..next];
  }

  lemma {:induction false} ReadAnswersMore(b: Bytes, more: Bytes, at: nat, n: nat, family: Family)
    requires ReadAnswers(b, at, n, family).Some?
    ensures ReadAnswers(b + more, at, n, family) == ReadAnswers(b, at, n, family)
    ensures n > 0 ==> ReadAnswers(b, at, n, family).value.next <= |b|
    decreases n
  {
    hide ReadAnswer;
    if n > 0 {
      ReadAnswerMore(b, more, at, family);
      ReadAnswersMore(b, more, ReadAnswer(b, at, family).value.next, n - 1, family);
    }
  }

  /** More bytes change nothing: the beginning of a packet is refused or read as the whole of it. */
  lemma ParseMore(b: Bytes, more: Bytes, id: U16, family: Family)
    requires ParseSpec(b, id, family).Some?
    ensures ParseSpec(b + more, id, family) == ParseSpec(b, id, family)
  {
    hide U16At, QuestionsEnd, ReadAnswers, Capped;
    NumbersMore(b, more, 0);
    NumbersMore(b, more, 2);
    NumbersMore(b, more, 4);
    NumbersMore(b, more, 6);
    if U16At(b, 4).Some? && U16At(b, 6).Some? && QuestionsEnd(b, 12, U16At(b, 4).value).Some? {
      var at := QuestionsEnd(b, 12, U16At(b, 4).value).value;
      QuestionsEndMore(b, more, 12, U16At(b, 4).value);
      if ReadAnswers(b, at, U16At(b, 6).value, family).Some? {
        ReadAnswersMore(b, more, at, U16At(b, 6).value, family);
      }
    }
  }

  /** A message with answers and without an error in its flags is refused when cut anywhere before their end. */
  lemma CutShort(m: Message, id: U16, family: Family, n: nat)
    requires ValidMessage(m) && m.answers != [] && m.flags / 0x200 % 2 == 0 && m.flags % 0x10 == 0
    requires n < |Encode(m)| - |m.rest|
    ensures ParseSpec(Encode(m)[..n], id, family) == None
  {
    hide U16At, QuestionsEnd, ReadAnswers, Capped, EncodeAnswers, EncodeQuestions, HasAt, Addresses, CnameTtl,
         WellSized;
    var b := Encode(m);
    var cut, more := b[..n], b[n..];
    assert cut + more == b;
    assert |b| == 12 + |EncodeQuestions(m.questions)| + |EncodeAnswers(m.answers)| + |m.rest|;
    if ParseSpec(cut, id, family).Some? {
      HeaderFields(m);
      NumbersMore(cut, more, 2);
      NumbersMore(cut, more, 4);
      NumbersMore(cut, more, 6);
      QuestionsOfEncoded(b, 12, m.questions);
      QuestionsEndMore(cut, more, 12, |m.questions|);
      var at := 12 + |EncodeQuestions(m.questions)|;
      AnswersOfEncoded(b, at, m.answers, family, 0);
      ReadAnswersMore(cut, more, at, |m.answers|, family);
    }
  }

  /**
   * On every packet `query` builds, `skip_name` from offset 12 stops 4 bytes before the end, the labels
   * spell the host back, and the packet asks for the family under the given id.
   */
  lemma QuerySpellsHost(id: U16, host: Bytes, family: Family)
    requires Carried(host)
    ensures var packet := Encode(QueryMessage(id, host, family));
            NameEnd(packet, 12) == Some(|packet| - 4)
            && LabelsAt(packet, 12).Some? && Join(LabelsAt(packet, 12).value, DOT) == TrimDots(host)
            && U16At(packet, 0) == Some(id) && U16At(packet, |packet| - 4) == Some(QType(family))
  {
    hide Split, TrimDots, EncodeLabels, EncodeName, NameEnd, LabelsAt, U16At, HasAt, Be16;
    var m := QueryMessage(id, host, family);
    var q := m.questions[0];
    HeaderFields(m);
    QueryPacket(id, host, family);
    assert EncodeQuestions(m.questions) == EncodeQuestion(q);
    QuestionOfHost(Encode(m), q);
    SplitThenJoin(TrimDots(host), DOT);
  }

  lemma QuestionOfHost(packet: Bytes, q: Question)
    requires ValidName(q.name) && q.name.pointer.None? && HasAt(packet, 12, EncodeQuestion(q))
    ensures NameEnd(packet, 12) == Some(12 + |EncodeQuestion(q)| - 4) && LabelsAt(packet, 12) == Some(q.name.labels)
    ensures U16At(packet, 12 + |EncodeQuestion(q)| - 4) == Some(q.qtype)
  {
    var name := EncodeName(q.name);
    Parts(packet, 12, name, Be16(q.qtype) + Be16(q.qclass));
    Parts(packet, 12 + |name|, Be16(q.qtype), Be16(q.qclass));
    NameEndOfEncoded(packet, 12, q.name);
    LabelsOfEncoded(packet, 12, q.name);
    ReadBe16(packet, 12 + |name|, q.qtype);
  }
}
