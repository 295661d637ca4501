/** Error responses, headers and names written in wire form, and their agreement with the parser. */
module Builder {
  import opened Bytes
  import opened Blocklist
  import opened Decoder
  import opened Parser

  const FLAG_QR := 0x8000

  const NOERROR: byte := 0
  const FORMERR: byte := 1
  const SERVFAIL: byte := 2
  const NXDOMAIN: byte := 3
  const NOTIMPL: byte := 4
  const REFUSED: byte := 5

  /** The "recursion desired" bit of the flags, in place. */
  function RecursionDesired(flags: u16): u16 { flags / 256 % 2 * 256 }

  function Rcode(flags: u16): byte { flags % 16 }

  // ----- the header

  function U16Bytes(n: u16): (bytes: seq<byte>)
    ensures |bytes| == 2 && U16(bytes, 0) == n
  {
    [n / 256, n % 256]
  }

  function HeaderBytes(h: Header): (bytes: seq<byte>)
    ensures |bytes| == HEADER_SIZE
  {
    U16Bytes(h.id) + U16Bytes(h.flags) + U16Bytes(h.qdcount) +
    U16Bytes(h.ancount) + U16Bytes(h.nscount) + U16Bytes(h.arcount)
  }

  /** Writing a header and reading it back are inverse to each other. */
  lemma HeaderRoundTrip(h: Header, rest: seq<byte>, buf: seq<byte>)
    ensures ParseHeader(HeaderBytes(h) + rest) == Some(h)
    ensures ParseHeader(buf).Some? ==> HeaderBytes(ParseHeader(buf).value) == buf[..HEADER_SIZE]
  {
    HeaderIsRead(h, rest);
    if |buf| >= HEADER_SIZE {
      HeaderIsWritten(buf);
    }
  }

  lemma HeaderIsWritten(buf: seq<byte>)
    requires |buf| >= HEADER_SIZE
    ensures HeaderBytes(ParseHeader(buf).value) == buf[..HEADER_SIZE]
  {
    U16Back(buf, 0);
    U16Back(buf, 2);
    U16Back(buf, 4);
    U16Back(buf, 6);
    U16Back(buf, 8);
    U16Back(buf, 10);
    assert buf[0..2] + buf[2..4] + buf[4..6] + buf[6..8] + buf[8..10] + buf[10..12] == buf[..HEADER_SIZE];
  }

  lemma U16Back(buf: seq<byte>, at: nat)
    requires at + 2 <= |buf|
    ensures U16Bytes(U16(buf, at)) == buf[at..at + 2]
  {
  }

  lemma HeaderIsRead(h: Header, rest: seq<byte>)
    ensures ParseHeader(HeaderBytes(h) + rest) == Some(h)
  {
    var bytes := HeaderBytes(h);
    assert U16(bytes, 0) == h.id && U16(bytes, 2) == h.flags && U16(bytes, 4) == h.qdcount;
    assert U16(bytes, 6) == h.ancount && U16(bytes, 8) == h.nscount && U16(bytes, 10) == h.arcount;
    assert forall i :: 0 <= i < HEADER_SIZE ==> (bytes + rest)[i] == bytes[i];
  }

  /** build_dns_header(): one byte after the other into the start of the buffer. */
  method BuildDnsHeader(buffer: array<byte>, h: Header)
    requires buffer.Length >= HEADER_SIZE
    modifies buffer
    ensures buffer[..HEADER_SIZE] == HeaderBytes(h)
    ensures buffer[HEADER_SIZE..] == old(buffer[HEADER_SIZE..])
  {
    buffer[0], buffer[1] := h.id / 256, h.id % 256;
    buffer[2], buffer[3] := h.flags / 256, h.flags % 256;
    buffer[4], buffer[5] := h.qdcount / 256, h.qdcount % 256;
    buffer[6], buffer[7] := h.ancount / 256, h.ancount % 256;
    buffer[8], buffer[9] := h.nscount / 256, h.nscount % 256;
    buffer[10], buffer[11] := h.arcount / 256, h.arcount % 256;
  }

  // ----- the first question, found again without the parser

  /** Where the walk over the labels of a name stops at a zero byte; None if it meets a pointer or the end. */
  function WalkName(buf: seq<byte>, pos: nat): (zero: Option<nat>)
    ensures zero.Some? ==> pos <= zero.value < |buf|
    decreases |buf| - pos
  {
    if pos >= |buf| then None
    else if buf[pos] == 0 then Some(pos)
    else if buf[pos] >= 64 then None
    else WalkName(buf, pos + buf[pos] + 1)
  }

  /** The end of the first question by that walk. */
  function QuestionEnd(raw: seq<byte>): (end: Option<nat>)
    ensures end.Some? ==> HEADER_SIZE + 5 <= end.value <= |raw|
  {
    if |raw| <= HEADER_SIZE then None
    else
      match WalkName(raw, HEADER_SIZE)
      case None => None
      case Some(zero) => if zero + 5 > |raw| then None else Some(zero + 5)
  }

  ghost predicate PointerFree(buf: seq<byte>, pos: nat, r: Reading) {
    r.at == pos && Reads(buf, r) && Jumps(r) == 0
  }

  lemma {:induction false} WalkFollowsReading(buf: seq<byte>, r: Reading)
    requires Reads(buf, r) && Jumps(r) == 0
    ensures WalkName(buf, r.at) == Some(EndOf(r) - 1) && EndOf(r) <= |buf|
  {
    if r.Word? {
      WalkFollowsReading(buf, r.rest);
    }
  }

  lemma {:induction false} WalkIsReading(buf: seq<byte>, pos: nat) returns (r: Reading)
    requires WalkName(buf, pos).Some?
    ensures PointerFree(buf, pos, r) && EndOf(r) == WalkName(buf, pos).value + 1
    decreases |buf| - pos
  {
    if buf[pos] == 0 {
      r := Stop(pos);
    } else {
      var rest := WalkIsReading(buf, pos + buf[pos] + 1);
      ReadingMovesOn(buf, rest);
      WalkFollowsReading(buf, rest);
      r := Word(pos, rest);
    }
  }

  /**
   * The two walkers agree: the walk finds the end of the first question exactly when the question
   * has a name without pointers and is complete, and then it is the end the reading gives.
   */
  lemma WalkersAgree(raw: seq<byte>, end: nat)
    ensures QuestionEnd(raw) == Some(end) <==>
            exists r :: PointerFree(raw, HEADER_SIZE, r) && EndOf(r) + 4 == end <= |raw|
  {
    if QuestionEnd(raw) == Some(end) {
      var r := WalkIsReading(raw, HEADER_SIZE);
    }
    forall r | PointerFree(raw, HEADER_SIZE, r) && EndOf(r) + 4 == end <= |raw|
      ensures QuestionEnd(raw) == Some(end)
    {
      WalkFollowsReading(raw, r);
    }
  }

  /** The pointer loop of build_error_response(). */
  method FindQuestionEnd(raw: seq<byte>) returns (end: Option<nat>)
    ensures end == QuestionEnd(raw)
  {
    if |raw| <= HEADER_SIZE {
      return None;
    }
    var ptr: nat := HEADER_SIZE;
    while ptr < |raw| && raw[ptr] != 0
      invariant WalkName(raw, HEADER_SIZE) == WalkName(raw, ptr)
      decreases |raw| - ptr
    {
      var labelLen := raw[ptr];
      if labelLen >= 64 {
        return None;
      }
      ptr := ptr + labelLen + 1;
    }
    if ptr >= |raw| {
      return None;
    }
    ptr := ptr + 5;
    if ptr > |raw| {
      return None;
    }
    end := Some(ptr);
  }

  // ----- error responses

  function ErrorHeader(query: Header, rcode: byte): Header
    requires rcode <= REFUSED
  {
    Header(query.id, FLAG_QR + RecursionDesired(query.flags) + rcode, query.qdcount, 0, 0, 0)
  }

  /** The error response to a query: its own header over the first question of the query. */
  function ErrorResponse(query: Message, rcode: byte): Option<seq<byte>> {
    if rcode > REFUSED then None
    else
      match QuestionEnd(query.raw)
      case None => None
      case Some(end) => Some(HeaderBytes(ErrorHeader(query.header, rcode)) + query.raw[HEADER_SIZE..end])
  }

  method BuildErrorResponse(query: Message, rcode: byte, memory: bool) returns (response: Option<array<byte>>)
    ensures response.Some? <==> memory && ErrorResponse(query, rcode).Some?
    ensures response.Some? ==> fresh(response.value) && response.value[..] == ErrorResponse(query, rcode).value
  {
    if rcode > REFUSED {
      return None;
    }
    var end := FindQuestionEnd(query.raw);
    if end.None? {
      return None;
    }
    var length := end.value;
    if !memory {
      return None;
    }
    var bytes := new byte[length];
    BuildDnsHeader(bytes, ErrorHeader(query.header, rcode));
    var i: nat := HEADER_SIZE;
    while i < length
      invariant HEADER_SIZE <= i <= length
      invariant bytes[..i] == HeaderBytes(ErrorHeader(query.header, rcode)) + query.raw[HEADER_SIZE..i]
    {
      bytes[i] := query.raw[i];
      i := i + 1;
    }
    assert bytes[..i] == bytes[..];
    response := Some(bytes);
  }

  // A name without pointers is read from its own bytes only.
  lemma {:induction false} PointerFreeIsLocal(buf: seq<byte>, buf': seq<byte>, r: Reading)
    requires Reads(buf, r) && Jumps(r) == 0 && EndOf(r) <= |buf'| && EndOf(r) <= |buf|
    requires forall i :: r.at <= i < EndOf(r) ==> buf'[i] == buf[i]
    ensures Reads(buf', r) && Labels(buf', r) == Labels(buf, r)
  {
    if r.Word? {
      ReadingMovesOn(buf, r.rest);
      PointerFreeIsLocal(buf, buf', r.rest);
      assert buf'[r.at + 1..r.rest.at] == buf[r.at + 1..r.rest.at];
    }
  }

  // The same pointer-free question in two messages.
  lemma SameQuestion(buf: seq<byte>, buf': seq<byte>, r: Reading)
    requires PointerFree(buf, HEADER_SIZE, r) && EndOf(r) + 4 <= |buf'| && EndOf(r) + 4 <= |buf|
    requires forall i :: HEADER_SIZE <= i < EndOf(r) + 4 ==> buf'[i] == buf[i]
    ensures ParseQuestion(buf', HEADER_SIZE) == ParseQuestion(buf, HEADER_SIZE)
    ensures ParseQuestion(buf, HEADER_SIZE).Some? ==> ParseQuestion(buf, HEADER_SIZE).value.next == EndOf(r) + 4
  {
    ReadingMovesOn(buf, r);
    PointerFreeIsLocal(buf, buf', r);
    DecodeOfReading(buf, HEADER_SIZE, r, NAME_BUFFER);
    DecodeOfReading(buf', HEADER_SIZE, r, NAME_BUFFER);
  }

  lemma DecodeOfReading(buf: seq<byte>, pos: nat, r: Reading, cap: nat)
    requires r.at == pos && Reads(buf, r)
    ensures DecodeName(buf, pos, cap) ==
            if WithinLimits(buf, r, cap) then Some(Decoded(Labels(buf, r), EndOf(r))) else None
  {
    DecodeMeaning(buf, pos, cap);
    if DecodeName(buf, pos, cap).Some? {
      var r' :| AcceptedReading(buf, pos, cap, r');
      ReadingIsUnique(buf, r, r');
    }
  }

  /**
   * An error response to a parsed query has the query's identifier and question count, QR set, the
   * query's RD, the given code and no records. It parses again exactly if the query announced at
   * most one question, because only the first one is copied; then its questions are the query's.
   */
  lemma ErrorResponseRoundTrip(raw: seq<byte>, rcode: byte)
    requires ParseMessage(raw).Some? && ErrorResponse(ParseMessage(raw).value, rcode).Some?
    ensures var query := ParseMessage(raw).value;
            var response := ErrorResponse(query, rcode).value;
      && HEADER_SIZE + 5 <= |response| <= |raw|
      && ParseHeader(response) == Some(ErrorHeader(query.header, rcode))
      && Responds(raw, rcode, response)
      && (ParseMessage(response).Some? <==> query.header.qdcount <= 1)
      && (query.header.qdcount <= 1 ==> ParseMessage(response).value.questions == query.questions)
  {
    var query := ParseMessage(raw).value;
    var response := ErrorResponse(query, rcode).value;
    var end := QuestionEnd(raw).value;
    HeaderRoundTrip(ErrorHeader(query.header, rcode), raw[HEADER_SIZE..end], raw);
    WalkersAgree(raw, end);
    var r :| PointerFree(raw, HEADER_SIZE, r) && EndOf(r) + 4 == end <= |raw|;
    ReadingMovesOn(raw, r);
    SameQuestion(raw, response, r);
    ResponseMeaning(raw, rcode, response);
    FirstQuestionOnly(raw, response, query.header.qdcount);
  }

  /**
   * A response with this code to a query, byte by byte: the query's identifier, QR, the query's RD
   * bit, the code, the query's question count, no records, and the query's first question as it is.
   */
  ghost predicate Responds(raw: seq<byte>, rcode: byte, response: seq<byte>) {
    && 12 + 5 <= |response| <= |raw|
    && response[..2] == raw[..2]
    && response[2] == 128 + raw[2] % 2 && response[3] == rcode
    && response[4..6] == raw[4..6]
    && response[6..12] == [0, 0, 0, 0, 0, 0]
    && response[12..] == raw[12..|response|]
    && exists r :: PointerFree(raw, 12, r) && EndOf(r) + 4 == |response|
  }

  /** The response exists exactly for a code up to 5 and a complete first question without pointers. */
  lemma ResponseMeaning(raw: seq<byte>, rcode: byte, response: seq<byte>)
    requires ParseMessage(raw).Some?
    ensures ErrorResponse(ParseMessage(raw).value, rcode) == Some(response) <==>
            rcode <= 5 && Responds(raw, rcode, response)
  {
    var query := ParseMessage(raw).value;
    WalkersAgree(raw, |response|);
    if rcode <= 5 && QuestionEnd(raw) == Some(|response|) {
      ResponseBytes(raw, rcode);
      var built := ErrorResponse(query, rcode).value;
      if Responds(raw, rcode, response) {
        SameInParts(response, built);
      }
    }
  }

  lemma ResponseBytes(raw: seq<byte>, rcode: byte)
    requires ParseMessage(raw).Some? && rcode <= 5 && QuestionEnd(raw).Some?
    ensures ErrorResponse(ParseMessage(raw).value, rcode).Some?
    ensures Responds(raw, rcode, ErrorResponse(ParseMessage(raw).value, rcode).value)
    ensures |ErrorResponse(ParseMessage(raw).value, rcode).value| == QuestionEnd(raw).value
  {
    var query := ParseMessage(raw).value;
    var end := QuestionEnd(raw).value;
    WalkersAgree(raw, end);
    HeaderBytesOf(raw, ParseHeader(raw).value, rcode);
  }

  lemma HeaderBytesOf(raw: seq<byte>, h: Header, rcode: byte)
    requires |raw| >= 12 && ParseHeader(raw) == Some(h) && rcode <= 5
    ensures var bytes := HeaderBytes(ErrorHeader(h, rcode));
      && bytes[..2] == raw[..2] && bytes[2] == 128 + raw[2] % 2 && bytes[3] == rcode
      && bytes[4..6] == raw[4..6] && bytes[6..] == [0, 0, 0, 0, 0, 0]
  {
    U16Back(raw, 0);
    U16Back(raw, 4);
    FlagBytes(raw[2], raw[3], rcode);
  }

  lemma FlagBytes(high: byte, low: byte, rcode: byte)
    requires rcode <= 5
    ensures var flags := FLAG_QR + RecursionDesired(high * 256 + low) + rcode;
      U16Bytes(flags) == [128 + high % 2, rcode]
  {
    assert (high * 256 + low) / 256 == high;
  }

  lemma SameInParts(a: seq<byte>, b: seq<byte>)
    requires |a| == |b| >= 12
    requires a[..2] == b[..2] && a[2] == b[2] && a[3] == b[3] && a[4..6] == b[4..6] && a[6..12] == b[6..12]
    requires a[12..] == b[12..]
    ensures a == b
  {
    assert a == a[..2] + [a[2]] + [a[3]] + a[4..6] + a[6..12] + a[12..];
    assert b == b[..2] + [b[2]] + [b[3]] + b[4..6] + b[6..12] + b[12..];
  }

  // A message cut after its first question parses only if that was its last.
  lemma FirstQuestionOnly(raw: seq<byte>, cut: seq<byte>, n: nat)
    requires ParseQuestions(raw, HEADER_SIZE, n).Some?
    requires ParseQuestion(cut, HEADER_SIZE) == ParseQuestion(raw, HEADER_SIZE)
    requires ParseQuestion(cut, HEADER_SIZE).Some? ==> ParseQuestion(cut, HEADER_SIZE).value.next == |cut|
    ensures ParseQuestions(cut, HEADER_SIZE, n).Some? <==> n <= 1
    ensures n <= 1 ==>
              ParseQuestions(cut, HEADER_SIZE, n).value.questions == ParseQuestions(raw, HEADER_SIZE, n).value.questions
  {
    if n == 1 {
      var next := ParseQuestion(raw, HEADER_SIZE).value.next;
      assert ParseQuestions(raw, next, 0) == Some(ParsedQuestions([], next));
      assert ParseQuestions(cut, next, 0) == Some(ParsedQuestions([], next));
    } else if n > 1 {
      assert ParseQuestion(cut, |cut|).None?;
      assert ParseQuestions(cut, |cut|, n - 1).None?;
    }
  }
}
