/** Inputs on which the program does not do what its documentation or the standard lets one expect. */
module Witnesses {
  import opened Bytes
  import opened Names
  import opened Normalizer
  import opened Blocklist
  import opened Decoder
  import opened Parser
  import opened Builder
  import opened Encoder
  import opened Resolver
  import opened Server
  import opened EndToEnd

  /** A name of 256 bytes in wire form, one more than section 2.3.4 of RFC 1035 allows, that is decoded. */
  lemma LongNameIsDecoded() returns (labels: seq<Label>)
    ensures AllShort(labels) && |Wire(labels)| == 256
    ensures DecodeName(Wire(labels), 0, NAME_BUFFER) == Some(Decoded(labels, 256))
  {
    var word, last := Letters(63), Letters(62);
    labels := [word, word, word, last];
    RoomSnoc([], word);
    RoomSnoc([word], word);
    RoomSnoc([word, word], word);
    RoomSnoc([word, word, word], last);
    assert [] + [word] == [word] && [word] + [word] == [word, word];
    assert [word, word] + [word] == [word, word, word] && [word, word, word] + [last] == labels;
    WireLength(labels);
    DecodeWire([], labels, [], NAME_BUFFER);
    assert [] + Wire(labels) + [] == Wire(labels);
  }

  /** A zero byte, and n pointers behind it, each to what stands before it. */
  function Chain(n: nat): (bytes: seq<byte>)
    requires n <= 100
    ensures |bytes| == 2 * n + 1 && bytes[0] == 0
  {
    if n == 0 then [0] else Chain(n - 1) + [0xC0, LastOfChain(n - 1)]
  }

  /** Where the last pointer of a chain stands, or the zero byte. */
  function LastOfChain(n: nat): nat {
    if n == 0 then 0 else 2 * n - 1
  }

  /** Of the chains of pointers, those of at most ten are followed. */
  lemma TenPointers(n: nat)
    requires n <= 100
    ensures DecodeName(Chain(n), LastOfChain(n), NAME_BUFFER) ==
            if n <= 10 then Some(Decoded([], LastOfChain(n) + if n == 0 then 1 else 2)) else None
  {
    var r := ChainReading(n, Chain(n));
    DecodeOfReading(Chain(n), LastOfChain(n), r, NAME_BUFFER);
  }

  lemma {:induction false} ChainReading(n: nat, buf: seq<byte>) returns (r: Reading)
    requires n <= 100 && Chain(n) <= buf
    ensures r.at == LastOfChain(n) && Reads(buf, r) && Labels(buf, r) == [] && Jumps(r) == n
    ensures EndOf(r) == LastOfChain(n) + if n == 0 then 1 else 2
  {
    if n == 0 {
      r := Stop(0);
    } else {
      var rest := ChainReading(n - 1, buf);
      assert buf[2 * n - 1] == 0xC0 && buf[2 * n] == LastOfChain(n - 1);
      r := Jump(2 * n - 1, rest);
    }
  }

  /** A name of 255 characters is usable, and no longer so with a space behind it. */
  lemma SpaceBehindFullName() returns (name: CString)
    ensures |name| == MAX_NAME_LEN && LabelList(name).Some?
    ensures LabelList(name + [32]).None?
  {
    var word := Letters(63);
    var labels := [word, word, word, word];
    assert Join(labels[2..]) == word + [DOT] + word;
    assert Join(labels[1..]) == word + [DOT] + Join(labels[2..]);
    name := Join(labels);
    FullName(labels);
    SpaceBehind(name);
  }

  lemma SpaceBehind(name: CString)
    requires |Clean(name)| == MAX_NAME_LEN
    ensures LabelList(name + [32]).None?
  {
    CleanConcat(name, [32]);
    assert Clean([32]) == [];
    assert (name + [32])[|name|] == 32;
    assert !Fits(name + [32], NAME_BUFFER);
  }

  lemma FullName(labels: seq<Label>)
    requires labels != [] && AllNonEmpty(labels) && AllShort(labels) && |Join(labels)| == MAX_NAME_LEN
    requires forall i :: 0 <= i < |labels| ==> forall b :: b in labels[i] ==> b == 97
    ensures 0 !in Join(labels) && LabelList(Join(labels)).Some? && Clean(Join(labels)) == Lower(Join(labels))
  {
    var text := Join(labels);
    OnlyAs(labels);
    PlainJoin(labels);
    CleanIsLower(text);
    LowerJoin(labels);
    LowerIsPlain(labels);
    FieldsJoin(LowerAll(labels));
    assert 0 !in Lower(text) by {
      assert forall k :: 0 <= k < |text| ==> text[k] != 0;
    }
    assert Clean(text) == Lower(text) + Dots(0);
    assert !IsSpace(text[|text| - 1]);
    NormalizedIff(text, NAME_BUFFER, Lower(text));
  }

  lemma OnlyAs(labels: seq<Label>)
    requires forall i :: 0 <= i < |labels| ==> forall b :: b in labels[i] ==> b == 97
    ensures PlainLabels(labels)
  {
    forall i | 0 <= i < |labels|
      ensures DOT !in labels[i] && 0 !in labels[i] && HasNoSpace(labels[i])
    {
      assert forall k :: 0 <= k < |labels[i]| ==> labels[i][k] in labels[i];
    }
  }

  // ----- messages

  /** A header with an identifier of zero and no flags. */
  function Head(qdcount: byte): (bytes: seq<byte>)
    ensures |bytes| == HEADER_SIZE
  {
    [0, 0, 0, 0, 0, qdcount, 0, 0, 0, 0, 0, 0]
  }

  lemma HeadIsParsed(qdcount: byte, rest: seq<byte>)
    ensures ParseHeader(Head(qdcount) + rest) == Some(Header(0, 0, qdcount, 0, 0, 0))
  {
    var h := Header(0, 0, qdcount, 0, 0, 0);
    assert HeaderBytes(h) == Head(qdcount);
    HeaderIsRead(h, rest);
  }

  /** A question for an address in the Internet class. */
  function Ask(labels: seq<Label>): seq<byte> {
    Wire(labels) + [0, 1, 0, 1]
  }

  lemma AskIsParsed(buf: seq<byte>, at: nat, labels: seq<Label>)
    requires AllShort(labels) && AllNonEmpty(labels) && |Wire(labels)| <= NAME_BUFFER
    requires at + |Ask(labels)| <= |buf| && buf[at..at + |Ask(labels)|] == Ask(labels)
    ensures DecodeName(buf, at, NAME_BUFFER) == Some(Decoded(labels, at + |Wire(labels)|))
    ensures ParseQuestion(buf, at) ==
            Some(ParsedQuestion(Question(CStr(Join(labels)), TYPE_A, 1), at + |Ask(labels)|))
  {
    var end := AskIsDecoded(buf, at, labels);
    TypeAndClass(buf, end);
    QuestionRecord(buf, at, Decoded(labels, at + |Wire(labels)|));
  }

  lemma AskIsDecoded(buf: seq<byte>, at: nat, labels: seq<Label>) returns (end: nat)
    requires AllShort(labels) && AllNonEmpty(labels) && |Wire(labels)| <= NAME_BUFFER
    requires at + |Ask(labels)| <= |buf| && buf[at..at + |Ask(labels)|] == Ask(labels)
    ensures end == at + |Wire(labels)| && end + 4 == at + |Ask(labels)| && buf[end..end + 4] == [0, 1, 0, 1]
    ensures DecodeName(buf, at, NAME_BUFFER) == Some(Decoded(labels, end))
  {
    end := at + |Wire(labels)|;
    CutInTwo(buf, at, Wire(labels), [0, 1, 0, 1]);
    DecodeWireAt(buf, at, labels, NAME_BUFFER);
  }

  lemma QuestionRecord(buf: seq<byte>, at: nat, d: Decoded)
    requires at < |buf| && DecodeName(buf, at, NAME_BUFFER) == Some(d)
    requires d.end + 4 <= |buf| && U16(buf, d.end) == TYPE_A && U16(buf, d.end + 2) == 1
    ensures ParseQuestion(buf, at) == Some(ParsedQuestion(Question(CStr(Join(d.labels)), TYPE_A, 1), d.end + 4))
  {
  }

  lemma TypeAndClass(buf: seq<byte>, end: nat)
    requires end + 4 <= |buf| && buf[end..end + 4] == [0, 1, 0, 1]
    ensures U16(buf, end) == TYPE_A && U16(buf, end + 2) == 1
  {
    var last := buf[end..end + 4];
    assert buf[end] == last[0] && buf[end + 1] == last[1] && buf[end + 2] == last[2] && buf[end + 3] == last[3];
  }

  /** A query of two questions for the root. The response announces two and holds one. */
  lemma SecondQuestionIsLost() returns (raw: seq<byte>)
    ensures |raw| == 22 && ParseMessage(raw).Some? && ParseHeader(raw).value.qdcount == 2
    ensures var query := ParseMessage(raw).value;
      ErrorResponse(query, SERVFAIL).Some? && ParseMessage(ErrorResponse(query, SERVFAIL).value).None?
  {
    raw := TwoRoots();
    ErrorResponseRoundTrip(raw, SERVFAIL);
  }

  lemma TwoRoots() returns (raw: seq<byte>)
    ensures |raw| == 22 && ParseMessage(raw).Some? && ParseHeader(raw).value.qdcount == 2 && QuestionEnd(raw).Some?
  {
    raw := Head(2) + (Ask([]) + Ask([]));
    HeadIsParsed(2, Ask([]) + Ask([]));
    assert raw[12..17] == Ask([]) && raw[17..22] == Ask([]);
    AskIsParsed(raw, 12, []);
    AskIsParsed(raw, 17, []);
    TwoQuestions(raw, 17, 22);
    assert WalkName(raw, 12) == Some(12);
  }

  // A message of two questions, the first from the header to `next` and the second from there to `end`.
  lemma TwoQuestions(raw: seq<byte>, next: nat, end: nat)
    requires ParseHeader(raw).Some? && ParseHeader(raw).value.qdcount == 2
    requires ParseQuestion(raw, HEADER_SIZE).Some? && ParseQuestion(raw, HEADER_SIZE).value.next == next
    requires ParseQuestion(raw, next).Some? && ParseQuestion(raw, next).value.next == end
    ensures ParseMessage(raw).Some?
  {
    assert ParseQuestions(raw, end, 0).Some?;
    assert ParseQuestions(raw, next, 1).Some?;
  }

  /** A query with one question. */
  lemma OneQuestion(labels: seq<Label>) returns (raw: seq<byte>)
    requires AllShort(labels) && AllNonEmpty(labels) && |Wire(labels)| <= NAME_BUFFER
    ensures raw == Head(1) + Ask(labels) && ParseMessage(raw).Some?
    ensures ParseHeader(raw) == Some(Header(0, 0, 1, 0, 0, 0))
    ensures ParseMessage(raw).value.questions == [Question(CStr(Join(labels)), TYPE_A, 1)]
    ensures DecodeName(raw, HEADER_SIZE, NAME_BUFFER).Some?
    ensures DecodeName(raw, HEADER_SIZE, NAME_BUFFER).value.labels == labels
  {
    raw := Head(1) + Ask(labels);
    assert raw[12..12 + |Ask(labels)|] == Ask(labels);
    AskIsParsed(raw, 12, labels);
    HeadIsParsed(1, Ask(labels));
    assert ParseQuestions(raw, |raw|, 0) == Some(ParsedQuestions([], |raw|));
  }

  /** A query whose name is the one label "a.b": it is filtered for the listed name "b". */
  lemma DottedLabelIsFiltered() returns (raw: seq<byte>, labels: seq<Label>, domain: CString)
    ensures |labels| == 1 && DOT in labels[0] && !CoveredBy([domain], labels)
    ensures DecodeName(raw, HEADER_SIZE, NAME_BUFFER).Some?
    ensures DecodeName(raw, HEADER_SIZE, NAME_BUFFER).value.labels == labels
    ensures forall up :: Process(Listed([domain]), raw, Memory(true, true, true), up).filtered
  {
    labels, domain := DottedLabelIsTakenApart();
    assert labels[0] != [];
    RoomAtLeast(labels);
    WireLength(labels);
    raw := OneQuestion(labels);
    forall up
      ensures Process(Listed([domain]), raw, Memory(true, true, true), up).filtered
    {
      IsFiltered(Listed([domain]), raw, CStr(Join(labels)), up);
    }
  }

  lemma IsFiltered(blocked: set<seq<Label>>, raw: seq<byte>, name: CString, up: Upstream)
    requires ParseMessage(raw).Some? && ParseMessage(raw).value.questions == [Question(name, TYPE_A, 1)]
    requires Verdict(blocked, name)
    ensures Process(blocked, raw, Memory(true, true, true), up).filtered
  {
    MessageSize(raw);
  }

  /** A query for the listed name "b", sent upstream three times because its lookup ran out of memory. */
  lemma BlockedNameGoesUpstream() returns (raw: seq<byte>, domain: CString, up: Upstream)
    ensures ParseMessage(raw).Some? && |ParseMessage(raw).value.questions| == 1
    ensures Verdict(Listed([domain]), ParseMessage(raw).value.questions[0].qname)
    ensures Process(Listed([domain]), raw, Memory(true, false, true), up).sent == 3
  {
    domain := [98];
    up := Upstream(true, []);
    LabelsOfShortNames();
    CStrStopsAtNul([98], []);
    raw := OneQuestion([[98]]);
    assert Join([[98]]) == [98];
    VerdictOnOne([98], domain);
    assert Attempts(up, 3).sent == 0 && Attempts(up, 2).sent == 1;
    assert Attempts(up, 1).sent == 2 && Attempts(up, 0).sent == 3;
  }

  /** A run with an empty list that ends with one query counted as blocked. */
  lemma UpstreamAnswerCountsAsBlocked() returns (events: seq<Event>)
    ensures After({}, events).counters == Counters(1, 1, 0, 0)
    ensures Tally(After({}, events).log, Filtered) == 0
  {
    var raw := OneQuestion([[98]]);
    var memory := Memory(true, true, true);
    var up, answer := AnswersNxDomain(raw);
    var o := Process({}, raw, memory, up);
    assert o == Outcome(Some(answer), 1, false);
    events := [Datagram(raw, memory, up, Delivered)];
    assert events[..0] == [];
    assert After({}, events[..0]) == START;
    assert Cut(raw) == raw;
    var x := Exchange(raw, memory, up, o, Delivered);
    assert After({}, events) == State(Counters(1, 1, 0, 0), [] + [x]);
    TallySnoc([], x, Filtered);
  }

  lemma AnswersNxDomain(raw: seq<byte>) returns (up: Upstream, answer: seq<byte>)
    requires ParseHeader(raw).Some? && ParseHeader(raw).value.id == 0
    ensures Forward(raw, up) == Forwarded(Some(answer), 1) && ReplyCode(answer) == NXDOMAIN
  {
    var h := Header(0, 0x8003, 0, 0, 0, 0);
    answer := HeaderBytes(h);
    HeaderIsRead(h, []);
    assert answer + [] == answer;
    up := Upstream(true, [Attempt.Answer(answer)]);
    assert AttemptAt(up, 0) == Attempt.Answer(answer);
    assert Attempts(up, 0) == Forwarded(Some(answer), 1);
  }

  /** A header alone is accepted as a message without questions and never answered. */
  lemma HeaderAloneIsUnanswered(domains: set<seq<Label>>, memory: Memory, up: Upstream)
    ensures ParseMessage(Head(0)).Some? && ParseMessage(Head(0)).value.questions == []
    ensures Process(domains, Head(0), memory, up).reply.None?
  {
    HeadIsParsed(0, []);
    assert Head(0) + [] == Head(0);
    assert ParseQuestions(Head(0), HEADER_SIZE, 0) == Some(ParsedQuestions([], HEADER_SIZE));
    NoQuestionsReplied(domains, Head(0), memory, up);
  }

  /** A query for the listed name "b", whose name is a pointer to the identifier, gets no answer at all. */
  lemma BlockedBehindPointer(memory: Memory, up: Upstream) returns (raw: seq<byte>, r: Reading, domain: CString)
    ensures |raw| == 18 && AsksCovered([domain], raw, r) && Jumps(r) == 1
    ensures memory.lookup ==> Process(Listed([domain]), raw, memory, up).reply.None?
    ensures memory.parse && memory.lookup ==> Process(Listed([domain]), raw, memory, up).filtered
  {
    raw, r, domain := AsksBehindPointer();
    if memory.parse && memory.lookup {
      FilterDecides([domain], raw, r, memory.build, up);
      CoveredReplied([domain], raw, r, memory.build, up);
    }
  }

  lemma AsksBehindPointer() returns (raw: seq<byte>, r: Reading, domain: CString)
    ensures |raw| == 18 && AsksCovered([domain], raw, r) && Jumps(r) == 1
  {
    raw, r := PointsAtIdentifier();
    domain := [98];
    LabelsOfShortNames();
    CoversItself(domain);
  }

  // A name of one lower-case label covers itself.
  lemma CoversItself(name: CString)
    requires LabelList(name) == Some([name]) && IsLowered(name)
    ensures PlainLabels([name]) && CoveredBy([name], [name])
  {
    var labels: seq<Label> := [name];
    LabelListIsPlain(name);
    assert Lower(name) == name && LowerAll(labels) == labels;
    CoveredByOne(labels, name);
  }

  lemma PointsAtIdentifier() returns (raw: seq<byte>, r: Reading)
    ensures |raw| == 18 && ParseMessage(raw).Some? && ParseHeader(raw).value.qdcount == 1
    ensures AcceptedReading(raw, HEADER_SIZE, NAME_BUFFER, r) && Labels(raw, r) == [[98]] && Jumps(r) == 1
    ensures EndOf(r) == 14 && U16(raw, 14) == TYPE_A
  {
    raw := [1, 98, 0, 0, 0, 1, 0, 0, 0, 0, 0, 0, 0xC0, 0, 0, 1, 0, 1];
    var name := Word(0, Stop(2));
    r := Jump(12, name);
    assert Reads(raw, Stop(2)) && Reads(raw, name) && Reads(raw, r);
    assert raw[1..2] == [98];
    assert Labels(raw, name) == [[98]] + Labels(raw, Stop(2));
    assert Room([[98]]) == 2;
    OnePointer(raw, r);
  }

  lemma OnePointer(raw: seq<byte>, r: Reading)
    requires AcceptedReading(raw, HEADER_SIZE, NAME_BUFFER, r) && EndOf(r) + 4 <= |raw|
    requires ParseHeader(raw).Some? && ParseHeader(raw).value.qdcount == 1
    ensures ParseMessage(raw).Some?
  {
    DecodeMeaning(raw, HEADER_SIZE, NAME_BUFFER);
    assert ParseQuestions(raw, EndOf(r) + 4, 0).Some?;
  }
}
