/** Messages: the fixed header, the questions, and what parsing keeps of them (section 4.1 of RFC 1035). */
module Parser {
  import opened Bytes
  import opened Names
  import opened Blocklist
  import opened Decoder

  const TYPE_A: u16 := 1

  datatype Header = Header(id: u16, flags: u16, qdcount: u16, ancount: u16, nscount: u16, arcount: u16)

  datatype Question = Question(qname: CString, qtype: u16, qclass: u16)

  datatype Message = Message(header: Header, questions: seq<Question>, raw: seq<byte>)

  datatype ParsedQuestion = ParsedQuestion(question: Question, next: nat)

  datatype ParsedQuestions = ParsedQuestions(questions: seq<Question>, next: nat)

  /** Two bytes in network order. */
  function U16(buf: seq<byte>, at: nat): u16
    requires at + 1 < |buf|
  {
    var high: int := buf[at];
    high * 256 + buf[at + 1]
  }

  function ParseHeader(buf: seq<byte>): Option<Header> {
    if |buf| < HEADER_SIZE then None
    else Some(Header(U16(buf, 0), U16(buf, 2), U16(buf, 4), U16(buf, 6), U16(buf, 8), U16(buf, 10)))
  }

  /** A question at a position: a name, a type and a class. The text of the name ends at its first NUL. */
  function ParseQuestion(buf: seq<byte>, at: nat): Option<ParsedQuestion> {
    if at >= |buf| then None
    else
      match DecodeName(buf, at, NAME_BUFFER)
      case None => None
      case Some(d) =>
        if d.end + 4 > |buf| then None
        else Some(ParsedQuestion(Question(CStr(Join(d.labels)), U16(buf, d.end), U16(buf, d.end + 2)), d.end + 4))
  }

  function ParseQuestions(buf: seq<byte>, at: nat, n: nat): Option<ParsedQuestions>
    decreases n
  {
    if n == 0 then Some(ParsedQuestions([], at))
    else
      match ParseQuestion(buf, at)
      case None => None
      case Some(first) =>
        match ParseQuestions(buf, first.next, n - 1)
        case None => None
        case Some(rest) => Some(ParsedQuestions([first.question] + rest.questions, rest.next))
  }

  function ParseMessage(buf: seq<byte>): Option<Message> {
    match ParseHeader(buf)
    case None => None
    case Some(header) =>
      match ParseQuestions(buf, HEADER_SIZE, header.qdcount)
      case None => None
      case Some(parsed) => Some(Message(header, parsed.questions, buf))
  }

  // ----- progress through the question section

  lemma {:induction false} ReadingMovesOn(buf: seq<byte>, r: Reading)
    requires Reads(buf, r)
    ensures r.at < EndOf(r)
  {
    if r.Word? {
      ReadingMovesOn(buf, r.rest);
    }
  }

  /** A question takes at least five bytes of the message, even when its name points backwards. */
  lemma QuestionMovesOn(buf: seq<byte>, at: nat)
    requires ParseQuestion(buf, at).Some?
    ensures at + 5 <= ParseQuestion(buf, at).value.next <= |buf|
  {
    DecodeMeaning(buf, at, NAME_BUFFER);
    var r :| AcceptedReading(buf, at, NAME_BUFFER, r);
    ReadingMovesOn(buf, r);
  }

  lemma {:induction false} QuestionsMoveOn(buf: seq<byte>, at: nat, n: nat)
    requires ParseQuestions(buf, at, n).Some?
    ensures var parsed := ParseQuestions(buf, at, n).value;
      |parsed.questions| == n && at + 5 * n <= parsed.next && (n > 0 ==> parsed.next <= |buf|)
    decreases n
  {
    if n > 0 {
      QuestionMovesOn(buf, at);
      QuestionsMoveOn(buf, ParseQuestion(buf, at).value.next, n - 1);
    }
  }

  /** An accepted message is long enough for as many questions as it announces, and holds them all. */
  lemma MessageSize(buf: seq<byte>)
    requires ParseMessage(buf).Some?
    ensures var m := ParseMessage(buf).value;
      && |m.questions| == m.header.qdcount
      && HEADER_SIZE + 5 * m.header.qdcount <= |buf|
  {
    QuestionsMoveOn(buf, HEADER_SIZE, ParseHeader(buf).value.qdcount);
  }

  // ----- what a message says, byte by byte

  /** The number in two bytes, the first one counting 256. */
  function Number(high: byte, low: byte): nat { 256 * high + low }

  /** A complete question at a position: a name with this reading, and four more bytes. */
  ghost predicate QuestionReading(buf: seq<byte>, at: nat, r: Reading) {
    AcceptedReading(buf, at, NAME_BUFFER, r) && EndOf(r) + 4 <= |buf|
  }

  /** Complete questions one behind the other from a position on, with these readings. */
  ghost predicate QuestionsAre(buf: seq<byte>, at: nat, rs: seq<Reading>)
    decreases |rs|
  {
    rs == [] || (QuestionReading(buf, at, rs[0]) && QuestionsAre(buf, EndOf(rs[0]) + 4, rs[1..]))
  }

  /** The name is the text of the labels up to a NUL; type and class are the four bytes behind it. */
  ghost predicate Says(buf: seq<byte>, r: Reading, q: Question)
    requires Reads(buf, r) && EndOf(r) + 4 <= |buf|
  {
    && q.qname == CStr(Join(Labels(buf, r)))
    && q.qtype == Number(buf[EndOf(r)], buf[EndOf(r) + 1])
    && q.qclass == Number(buf[EndOf(r) + 2], buf[EndOf(r) + 3])
  }

  /** A question is accepted exactly if it is complete, and then it is what its bytes say. */
  lemma QuestionMeaning(buf: seq<byte>, at: nat)
    ensures ParseQuestion(buf, at).Some? <==> exists r :: QuestionReading(buf, at, r)
    ensures forall r :: QuestionReading(buf, at, r) ==>
              && ParseQuestion(buf, at).Some?
              && Says(buf, r, ParseQuestion(buf, at).value.question)
              && ParseQuestion(buf, at).value.next == EndOf(r) + 4
  {
    DecodeMeaning(buf, at, NAME_BUFFER);
    if ParseQuestion(buf, at).Some? {
      var r :| AcceptedReading(buf, at, NAME_BUFFER, r);
      assert QuestionReading(buf, at, r);
    }
  }

  lemma {:induction false} QuestionsMeaning(buf: seq<byte>, at: nat, n: nat) returns (rs: seq<Reading>)
    requires ParseQuestions(buf, at, n).Some?
    ensures |rs| == n && QuestionsAre(buf, at, rs)
    decreases n
  {
    rs := [];
    if n > 0 {
      QuestionMeaning(buf, at);
      var r :| QuestionReading(buf, at, r);
      var rest := QuestionsMeaning(buf, EndOf(r) + 4, n - 1);
      rs := [r] + rest;
    }
  }

  // The reading of the k-th question of a row of them.
  ghost predicate SaysAt(buf: seq<byte>, rs: seq<Reading>, questions: seq<Question>, k: nat)
    requires k < |rs| && k < |questions|
  {
    Reads(buf, rs[k]) && EndOf(rs[k]) + 4 <= |buf| && Says(buf, rs[k], questions[k])
  }

  lemma {:induction false} QuestionsSay(buf: seq<byte>, at: nat, rs: seq<Reading>)
    requires QuestionsAre(buf, at, rs)
    ensures ParseQuestions(buf, at, |rs|).Some?
    ensures var questions := ParseQuestions(buf, at, |rs|).value.questions;
      |questions| == |rs| && forall k :: 0 <= k < |rs| ==> SaysAt(buf, rs, questions, k)
    decreases |rs|
  {
    if rs != [] {
      QuestionMeaning(buf, at);
      QuestionsSay(buf, EndOf(rs[0]) + 4, rs[1..]);
      var questions := ParseQuestions(buf, at, |rs|).value.questions;
      forall k | 0 <= k < |rs|
        ensures SaysAt(buf, rs, questions, k)
      {
        assert k > 0 ==> SaysAt(buf, rs[1..], questions[1..], k - 1);
      }
    }
  }

  /** The six numbers of a header, two bytes each. */
  ghost predicate HeaderSays(buf: seq<byte>, h: Header)
    requires |buf| >= 12
  {
    && h.id == Number(buf[0], buf[1]) && h.flags == Number(buf[2], buf[3])
    && h.qdcount == Number(buf[4], buf[5]) && h.ancount == Number(buf[6], buf[7])
    && h.nscount == Number(buf[8], buf[9]) && h.arcount == Number(buf[10], buf[11])
  }

  /** Twelve bytes of header, and as many complete questions behind it as its bytes 4 and 5 announce. */
  ghost predicate MessageIs(buf: seq<byte>, rs: seq<Reading>) {
    |buf| >= 12 && |rs| == Number(buf[4], buf[5]) && QuestionsAre(buf, 12, rs)
  }

  /** The message is what the bytes say: its header, all its questions in order, and the bytes themselves. */
  ghost predicate MessageSays(buf: seq<byte>, rs: seq<Reading>, m: Message)
    requires |buf| >= 12
  {
    && m.raw == buf && HeaderSays(buf, m.header) && |m.questions| == |rs|
    && forall k :: 0 <= k < |rs| ==> SaysAt(buf, rs, m.questions, k)
  }

  lemma MessageIsRead(buf: seq<byte>, rs: seq<Reading>)
    requires MessageIs(buf, rs)
    ensures ParseMessage(buf).Some? && MessageSays(buf, rs, ParseMessage(buf).value)
  {
    QuestionsSay(buf, 12, rs);
  }

  /** A message is accepted exactly if it holds all questions it announces, and then it is what the bytes say. */
  lemma MessageMeaning(buf: seq<byte>)
    ensures ParseMessage(buf).Some? <==> exists rs :: MessageIs(buf, rs)
    ensures forall rs :: MessageIs(buf, rs) ==>
              ParseMessage(buf).Some? && MessageSays(buf, rs, ParseMessage(buf).value)
  {
    if ParseMessage(buf).Some? {
      var rs := QuestionsMeaning(buf, 12, ParseHeader(buf).value.qdcount);
      assert MessageIs(buf, rs);
    }
    forall rs | MessageIs(buf, rs)
      ensures ParseMessage(buf).Some? && MessageSays(buf, rs, ParseMessage(buf).value)
    {
      MessageIsRead(buf, rs);
    }
  }

  // ----- the loops; `memory` tells whether every allocation of the call succeeds

  method ParseDnsQuestion(buf: seq<byte>, offset: nat) returns (result: Option<ParsedQuestion>)
    ensures result == ParseQuestion(buf, offset)
  {
    if offset >= |buf| {
      return None;
    }
    var qname := new byte[NAME_BUFFER];
    var rc, end, _ := ParseDnsName(buf, offset, qname);
    if rc != 0 {
      return None;
    }
    if end + 4 > |buf| {
      return None;
    }
    var qtype := U16(buf, end);
    var qclass := U16(buf, end + 2);
    result := Some(ParsedQuestion(Question(CStr(qname[..]), qtype, qclass), end + 4));
  }

  method ParseDnsMessage(buf: seq<byte>, memory: bool) returns (result: Option<Message>)
    ensures result == if memory then ParseMessage(buf) else None
  {
    var header := ParseHeader(buf);
    if header.None? {
      return None;
    }
    if !memory {
      return None;
    }
    var qdcount := header.value.qdcount;
    if qdcount == 0 {
      return Some(Message(header.value, [], buf));
    }
    var questions: seq<Question> := [];
    var offset: nat := HEADER_SIZE;
    PrependNone(ParseQuestions(buf, HEADER_SIZE, qdcount));
    var i := 0;
    while i < qdcount
      invariant 0 <= i <= qdcount
      invariant ParseQuestions(buf, HEADER_SIZE, qdcount) ==
                Prepend(questions, ParseQuestions(buf, offset, qdcount - i))
    {
      var parsed := ParseDnsQuestion(buf, offset);
      if parsed.None? {
        return None;
      }
      PrependAll(questions, parsed.value.question, ParseQuestions(buf, parsed.value.next, qdcount - i - 1));
      questions := questions + [parsed.value.question];
      offset := parsed.value.next;
      i := i + 1;
    }
    assert questions + [] == questions;
    result := Some(Message(header.value, questions, buf));
  }

  ghost function Prepend(questions: seq<Question>, rest: Option<ParsedQuestions>): Option<ParsedQuestions> {
    match rest
    case None => None
    case Some(p) => Some(ParsedQuestions(questions + p.questions, p.next))
  }

  lemma PrependNone(rest: Option<ParsedQuestions>)
    ensures Prepend([], rest) == rest
  {
    if rest.Some? {
      assert [] + rest.value.questions == rest.value.questions;
    }
  }

  lemma PrependAll(questions: seq<Question>, q: Question, rest: Option<ParsedQuestions>)
    ensures Prepend(questions, Prepend([q], rest)) == Prepend(questions + [q], rest)
  {
    if rest.Some? {
      assert questions + ([q] + rest.value.questions) == questions + [q] + rest.value.questions;
    }
  }
}
