/** Names written in wire form, and how that relates to reading them. */
module Encoder {
  import opened Bytes
  import opened Names
  import opened Decoder
  import opened Builder

  function NonEmptyOnes(labels: seq<Label>): seq<Label> {
    if labels == [] then [] else (if labels[0] == [] then [] else [labels[0]]) + NonEmptyOnes(labels[1..])
  }

  /** The pieces strtok() cuts a text into at its dots. */
  function Tokens(s: seq<byte>): seq<Label> {
    NonEmptyOnes(Fields(s))
  }

  /** The length byte of a label, cut to eight bits as in the program. */
  function LengthByte(word: Label): byte { |word| % 256 }

  function WireBody(labels: seq<Label>): seq<byte> {
    if labels == [] then [] else [LengthByte(labels[0])] + labels[0] + WireBody(labels[1..])
  }

  /** Each label behind its length, and a zero byte. */
  function Wire(labels: seq<Label>): seq<byte> {
    WireBody(labels) + [0]
  }

  /** The wire form of a text in a buffer of `cap` bytes. */
  function Encode(domain: CString, cap: nat): Option<seq<byte>> {
    var labels := Tokens(domain);
    if |domain| <= MAX_NAME_LEN && AllShort(labels) && |Wire(labels)| <= cap then Some(Wire(labels)) else None
  }

  /** How many of the fields are empty. */
  function EmptyOnes(labels: seq<Label>): nat {
    if labels == [] then 0 else (if labels[0] == [] then 1 else 0) + EmptyOnes(labels[1..])
  }

  // The bytes of the wire form: one per byte of a label and one per label, and the zero byte.
  lemma {:induction false} WireBodyCount(labels: seq<Label>)
    ensures |WireBody(NonEmptyOnes(labels))| + EmptyOnes(labels) == (if labels == [] then 0 else |Join(labels)| + 1)
    ensures AllShort(NonEmptyOnes(labels)) <==> AllShort(labels)
  {
    if labels != [] {
      WireBodyCount(labels[1..]);
      var rest := NonEmptyOnes(labels[1..]);
      assert labels == [labels[0]] + labels[1..];
      assert AllShort(labels) <==> |labels[0]| <= MAX_LABEL_LEN && AllShort(labels[1..]);
      if labels[0] != [] {
        var all := NonEmptyOnes(labels);
        assert all == [labels[0]] + rest && all[1..] == rest;
        assert AllShort(all) <==> |labels[0]| <= MAX_LABEL_LEN && AllShort(rest);
      } else {
        assert NonEmptyOnes(labels) == rest;
      }
    }
  }

  /**
   * Which texts are encoded: at most 255 characters, no field of more than 63, and two bytes more
   * than characters must fit, one less for each empty field. A dot behind the text changes nothing.
   */
  lemma EncodeIff(domain: CString, cap: nat)
    ensures Encode(domain, cap).Some? <==>
            && |domain| <= 255
            && (forall i :: 0 <= i < |Fields(domain)| ==> |Fields(domain)[i]| <= 63)
            && |domain| + 2 <= cap + EmptyOnes(Fields(domain))
    ensures Encode(domain, cap).Some? ==>
              |Encode(domain, cap).value| + EmptyOnes(Fields(domain)) == |domain| + 2
    ensures |domain| < 255 ==> Encode(domain + [46], cap) == Encode(domain, cap)
  {
    WireBodyCount(Fields(domain));
    JoinFields(domain);
    LastDotIsNoToken(domain);
  }

  lemma LastDotIsNoToken(domain: seq<byte>)
    ensures Tokens(domain + [DOT]) == Tokens(domain)
  {
    FieldsConcat(domain, []);
    assert domain + [DOT] + [] == domain + [DOT];
    NonEmptyConcat(Fields(domain), [[]]);
    assert NonEmptyOnes([[]]) == [];
  }

  // ----- tokens

  lemma {:induction false} NonEmptyConcat(a: seq<Label>, b: seq<Label>)
    ensures NonEmptyOnes(a + b) == NonEmptyOnes(a) + NonEmptyOnes(b)
  {
    if a == [] {
      assert a + b == b;
    } else {
      assert (a + b)[1..] == a[1..] + b;
      NonEmptyConcat(a[1..], b);
    }
  }

  lemma {:induction false} NonEmptyKept(labels: seq<Label>)
    ensures AllNonEmpty(NonEmptyOnes(labels))
    ensures AllDotFree(labels) ==> AllDotFree(NonEmptyOnes(labels))
    ensures AllNonEmpty(labels) ==> NonEmptyOnes(labels) == labels
  {
    if labels != [] {
      NonEmptyKept(labels[1..]);
      assert labels == [labels[0]] + labels[1..];
    }
  }

  lemma TokensOfJoin(labels: seq<Label>)
    requires AllNonEmpty(labels) && AllDotFree(labels)
    ensures Tokens(Join(labels)) == labels
  {
    if labels != [] {
      FieldsJoin(labels);
      NonEmptyKept(labels);
    }
  }

  lemma TokenThenRest(word: Label, rest: seq<byte>)
    requires DOT !in word && word != []
    ensures Tokens(word + [DOT] + rest) == [word] + Tokens(rest)
    ensures Tokens(word) == [word]
  {
    FieldsConcat(word, rest);
    FieldsDotFree(word);
    NonEmptyConcat([word], Fields(rest));
  }

  lemma DotIsNoToken(rest: seq<byte>)
    ensures Tokens([DOT] + rest) == Tokens(rest)
  {
    FieldsConcat([], rest);
    assert [] + [DOT] + rest == [DOT] + rest;
    NonEmptyConcat([[]], Fields(rest));
  }

  /** The next token from a position, and where to go on. */
  method Strtok(s: seq<byte>, from: nat) returns (token: Option<Label>, next: nat)
    requires from <= |s|
    ensures next <= |s| && (token.Some? ==> next > from && token.value != [])
    ensures Tokens(s[from..]) == if token.None? then [] else [token.value] + Tokens(s[next..])
  {
    var p := from;
    while p < |s| && s[p] == DOT
      invariant from <= p <= |s| && Tokens(s[p..]) == Tokens(s[from..])
    {
      assert s[p..] == [DOT] + s[p + 1..];
      DotIsNoToken(s[p + 1..]);
      p := p + 1;
    }
    if p == |s| {
      return None, p;
    }
    var q := p;
    while q < |s| && s[q] != DOT
      invariant p <= q <= |s| && DOT !in s[p..q]
    {
      q := q + 1;
    }
    token, next := Some(s[p..q]), if q == |s| then q else q + 1;
    FirstToken(s, p, q);
  }

  lemma FirstToken(s: seq<byte>, p: nat, q: nat)
    requires p < q <= |s| && DOT !in s[p..q] && (q == |s| || s[q] == DOT)
    ensures Tokens(s[p..]) == [s[p..q]] + Tokens(s[if q == |s| then q else q + 1..])
  {
    if q == |s| {
      TokenThenRest(s[p..q], []);
      assert s[p..] == s[p..q];
    } else {
      TokenThenRest(s[p..q], s[q + 1..]);
      assert s[p..] == s[p..q] + [DOT] + s[q + 1..];
    }
  }

  // ----- the loop

  lemma {:induction false} WireBodyConcat(a: seq<Label>, b: seq<Label>)
    ensures WireBody(a + b) == WireBody(a) + WireBody(b)
  {
    if a == [] {
      assert a + b == b;
    } else {
      assert (a + b)[1..] == a[1..] + b;
      WireBodyConcat(a[1..], b);
      assert [LengthByte(a[0])] + a[0] + (WireBody(a[1..]) + WireBody(b)) ==
             [LengthByte(a[0])] + a[0] + WireBody(a[1..]) + WireBody(b);
    }
  }

  /**
   * encode_dns_name(): the number of bytes written, or -1. `memory` tells whether the copy of the
   * text can be allocated; the empty text needs none.
   */
  method EncodeDnsName(domain: CString, buffer: array<byte>, memory: bool) returns (n: int)
    modifies buffer
    ensures n == -1 || 0 < n <= buffer.Length
    ensures n != -1 <==> Encode(domain, buffer.Length).Some? && (memory || domain == [])
    ensures n != -1 ==> buffer[..n] == Encode(domain, buffer.Length).value
  {
    if buffer.Length == 0 {
      return -1;
    }
    if domain == [] {
      buffer[0] := 0;
      return 1;
    }
    if |domain| > MAX_NAME_LEN {
      return -1;
    }
    if !memory {
      return -1;
    }
    var written := WriteTokens(domain, buffer, Tokens(domain));
    if written == -1 {
      return -1;
    }
    if written >= buffer.Length {
      return -1;
    }
    buffer[written] := 0;
    n := written + 1;
    assert buffer[..n] == buffer[..written] + [0];
  }

  /** The loop over the labels, up to the final zero byte. */
  method WriteTokens(domain: CString, buffer: array<byte>, ghost labels: seq<Label>) returns (written: int)
    requires buffer.Length > 0 && labels == Tokens(domain)
    modifies buffer
    ensures written == -1 || 0 <= written < buffer.Length
    ensures written != -1 <==> AllShort(labels) && |WireBody(labels)| < buffer.Length
    ensures written != -1 ==> buffer[..written] == WireBody(labels)
  {
    written := 0;
    ghost var done: seq<Label> := [];
    assert domain[0..] == domain;
    var token, next := Strtok(domain, 0);
    ghost var left := labels;
    while token.Some?
      invariant next <= |domain|
      invariant AllShort(done) && written == |WireBody(done)| < buffer.Length
      invariant buffer[..written] == WireBody(done)
      invariant labels == done + left
      invariant left == if token.None? then [] else [token.value] + Tokens(domain[next..])
      invariant token.Some? ==> token.value != []
      decreases token.Some?, |domain| - next
    {
      var word := token.value;
      ghost var after := left[1..];
      assert left == [word] + after;
      WireBodyPrefix(labels, done, word, after);
      if |word| == 0 || |word| > MAX_LABEL_LEN {
        return -1;
      }
      if written + |word| + 1 >= buffer.Length {
        return -1;
      }
      WriteNext(buffer, written, done, word);
      written := written + |word| + 1;
      done, left := done + [word], after;
      token, next := Strtok(domain, next);
    }
    assert labels == done;
  }

  /** One more label behind those already written. */
  method WriteNext(buffer: array<byte>, written: nat, ghost done: seq<Label>, word: Label)
    requires written == |WireBody(done)| && |word| <= MAX_LABEL_LEN && written + |word| + 1 < buffer.Length
    requires buffer[..written] == WireBody(done)
    modifies buffer
    ensures |WireBody(done + [word])| == written + |word| + 1
    ensures buffer[..written + |word| + 1] == WireBody(done + [word])
  {
    WireBodyConcat(done, [word]);
    WriteLabel(buffer, written, word);
  }

  method WriteLabel(buffer: array<byte>, at: nat, word: Label)
    requires |word| <= MAX_LABEL_LEN && at + |word| + 1 < buffer.Length
    modifies buffer
    ensures buffer[..at + |word| + 1] == old(buffer[..at]) + ([LengthByte(word)] + word)
  {
    buffer[at] := LengthByte(word);
    var i := 0;
    while i < |word|
      invariant 0 <= i <= |word|
      invariant buffer[..at + 1 + i] == old(buffer[..at]) + ([LengthByte(word)] + word[..i])
    {
      buffer[at + 1 + i] := word[i];
      i := i + 1;
    }
  }

  // A label that is too long, or does not fit behind the ones before it, spoils the whole name.
  lemma WireBodyPrefix(labels: seq<Label>, done: seq<Label>, word: Label, after: seq<Label>)
    requires labels == done + ([word] + after)
    ensures labels == done + [word] + after
    ensures |WireBody(labels)| >= |WireBody(done)| + |word| + 1
    ensures AllShort(labels) ==> |word| <= MAX_LABEL_LEN
    ensures AllShort(done) && |word| <= MAX_LABEL_LEN ==> AllShort(done + [word])
  {
    assert labels == done + [word] + after;
    assert labels[|done|] == word;
    WireBodyConcat(done, [word]);
    WireBodyConcat(done + [word], after);
  }

  // ----- reading what was written

  lemma {:induction false} WireLength(labels: seq<Label>)
    ensures |WireBody(labels)| == Room(labels)
  {
    if labels != [] {
      WireLength(labels[1..]);
    }
  }

  /** Labels in wire form in front of anything that can be read are read with it. */
  lemma {:induction false} BodyIsRead(buf: seq<byte>, at: nat, head: seq<Label>, rest: Reading) returns (r: Reading)
    requires AllShort(head) && AllNonEmpty(head)
    requires Reads(buf, rest) && rest.at == at + |WireBody(head)| <= |buf|
    requires buf[at..rest.at] == WireBody(head)
    ensures r.at == at && Reads(buf, r) && Labels(buf, r) == head + Labels(buf, rest)
    ensures Jumps(r) == Jumps(rest) && EndOf(r) == EndOf(rest)
    decreases head
  {
    if head == [] {
      r := rest;
      assert head + Labels(buf, rest) == Labels(buf, rest);
    } else {
      var word, others := head[0], head[1..];
      FirstOfBody(buf, at, rest.at, head);
      var after := BodyIsRead(buf, at + 1 + |word|, others, rest);
      r := OneMore(buf, at, word, after);
      FrontWord(head, Labels(buf, rest));
    }
  }

  lemma OneMore(buf: seq<byte>, at: nat, word: Label, after: Reading) returns (r: Reading)
    requires Reads(buf, after) && 1 <= |word| <= MAX_LABEL_LEN
    requires after.at == at + 1 + |word| <= |buf| && buf[at] == |word| && buf[at + 1..after.at] == word
    ensures r.at == at && Reads(buf, r) && Labels(buf, r) == [word] + Labels(buf, after)
    ensures Jumps(r) == Jumps(after) && EndOf(r) == EndOf(after)
  {
    r := Word(at, after);
  }

  lemma FrontWord(head: seq<Label>, tail: seq<Label>)
    requires head != []
    ensures head + tail == [head[0]] + (head[1..] + tail)
  {
  }

  // The first label and the others, cut out of the bytes they fill.
  lemma FirstOfBody(buf: seq<byte>, at: nat, end: nat, head: seq<Label>)
    requires at <= end <= |buf| && head != [] && |head[0]| <= MAX_LABEL_LEN && buf[at..end] == WireBody(head)
    ensures var next := at + 1 + |head[0]|;
      && at < next <= end && end == next + |WireBody(head[1..])|
      && buf[at] == |head[0]| && buf[at + 1..next] == head[0] && buf[next..end] == WireBody(head[1..])
  {
    var part, word := buf[at..end], head[0];
    assert part == [LengthByte(word)] + word + WireBody(head[1..]);
    assert part[1..1 + |word|] == word && part[1 + |word|..] == WireBody(head[1..]);
    assert forall i :: 0 <= i < |part| ==> buf[at + i] == part[i];
  }

  // Two neighbouring parts of a message.
  lemma CutInTwo(buf: seq<byte>, at: nat, a: seq<byte>, b: seq<byte>)
    requires at + |a| + |b| <= |buf| && buf[at..at + |a| + |b|] == a + b
    ensures buf[at..at + |a|] == a && buf[at + |a|..at + |a| + |b|] == b
  {
    assert buf[at..at + |a|] == buf[at..at + |a| + |b|][..|a|];
    assert buf[at + |a|..at + |a| + |b|] == buf[at..at + |a| + |b|][|a|..];
  }

  /** The wire form of a list of labels is read back as that list, without pointers. */
  lemma WireIsReading(buf: seq<byte>, at: nat, labels: seq<Label>) returns (r: Reading)
    requires AllShort(labels) && AllNonEmpty(labels)
    requires at + |Wire(labels)| <= |buf| && buf[at..at + |Wire(labels)|] == Wire(labels)
    ensures PointerFree(buf, at, r) && Labels(buf, r) == labels && EndOf(r) == at + |Wire(labels)|
  {
    var zero := at + |WireBody(labels)|;
    CutInTwo(buf, at, WireBody(labels), [0]);
    assert buf[zero] == buf[zero..zero + 1][0];
    r := BodyIsRead(buf, at, labels, Stop(zero));
    assert labels + [] == labels;
  }

  /** The bytes of a pointer-free name are the wire form of its labels. */
  lemma {:induction false} ReadingIsWire(buf: seq<byte>, r: Reading)
    requires Reads(buf, r) && Jumps(r) == 0 && AllShort(Labels(buf, r))
    ensures EndOf(r) <= |buf| && r.at < EndOf(r) && buf[r.at..EndOf(r)] == Wire(Labels(buf, r))
  {
    if r.Word? {
      LabelsAreShort(buf, r.rest);
      ReadingIsWire(buf, r.rest);
      var word := buf[r.at + 1..r.rest.at];
      assert Labels(buf, r)[1..] == Labels(buf, r.rest);
      assert buf[r.at..EndOf(r)] == [buf[r.at]] + word + buf[r.rest.at..EndOf(r.rest)];
    }
  }

  /**
   * A name in wire form anywhere in a message is decoded to its labels, exactly if it takes at most
   * 256 bytes and fits the text buffer. Section 2.3.4 of RFC 1035 allows one byte less.
   */
  lemma DecodeWire(before: seq<byte>, labels: seq<Label>, after: seq<byte>, cap: nat)
    requires AllShort(labels) && AllNonEmpty(labels)
    ensures DecodeName(before + Wire(labels) + after, |before|, cap) ==
            if |Wire(labels)| <= MAX_NAME_LEN + 1 && |Wire(labels)| <= cap
            then Some(Decoded(labels, |before| + |Wire(labels)|)) else None
  {
    var buf := before + Wire(labels) + after;
    assert buf[|before|..|before| + |Wire(labels)|] == Wire(labels);
    DecodeWireAt(buf, |before|, labels, cap);
  }

  lemma DecodeWireAt(buf: seq<byte>, at: nat, labels: seq<Label>, cap: nat)
    requires AllShort(labels) && AllNonEmpty(labels)
    requires at + |Wire(labels)| <= |buf| && buf[at..at + |Wire(labels)|] == Wire(labels)
    ensures DecodeName(buf, at, cap) ==
            if |Wire(labels)| <= MAX_NAME_LEN + 1 && |Wire(labels)| <= cap
            then Some(Decoded(labels, at + |Wire(labels)|)) else None
  {
    var r := WireIsReading(buf, at, labels);
    WireLength(labels);
    DecodeOfReading(buf, at, r, cap);
  }

  /** A pointer to a position in the first 16384 bytes. */
  function Pointer(at: nat): (bytes: seq<byte>)
    requires at < 0x4000
    ensures |bytes| == 2 && bytes[0] >= POINTER_MARK && Target(bytes, 0) == at
  {
    [POINTER_MARK + at / 256, at % 256]
  }

  /** Labels in front of a pointer are read on where the pointer leads. */
  lemma PointedReading(buf: seq<byte>, at: nat, head: seq<Label>, tail: Reading) returns (r: Reading)
    requires AllShort(head) && AllNonEmpty(head)
    requires Reads(buf, tail) && tail.at < at && tail.at < 0x4000
    requires at + |WireBody(head)| + 2 <= |buf|
    requires buf[at..at + |WireBody(head)| + 2] == WireBody(head) + Pointer(tail.at)
    ensures r.at == at && Reads(buf, r) && Labels(buf, r) == head + Labels(buf, tail)
    ensures Jumps(r) == Jumps(tail) + 1 && EndOf(r) == at + |WireBody(head)| + 2
  {
    var jump := at + |WireBody(head)|;
    CutInTwo(buf, at, WireBody(head), Pointer(tail.at));
    assert buf[jump] == buf[jump..jump + 2][0] && buf[jump + 1] == buf[jump..jump + 2][1];
    r := BodyIsRead(buf, at, head, Jump(jump, tail));
  }

  /**
   * Compression round trip: where labels are followed by a pointer to an earlier name in the
   * message, all the labels together are decoded, under the same limits as the name written out,
   * and the name ends behind the pointer.
   */
  lemma DecodeCompressed(buf: seq<byte>, from: nat, tail: seq<Label>, at: nat, head: seq<Label>, cap: nat)
    requires AllShort(head) && AllNonEmpty(head) && AllShort(tail) && AllNonEmpty(tail)
    requires from < at && from < 0x4000
    requires from + |Wire(tail)| <= |buf| && buf[from..from + |Wire(tail)|] == Wire(tail)
    requires at + |WireBody(head)| + 2 <= |buf|
    requires buf[at..at + |WireBody(head)| + 2] == WireBody(head) + Pointer(from)
    ensures DecodeName(buf, at, cap) ==
            if |Wire(head + tail)| <= MAX_NAME_LEN + 1 && |Wire(head + tail)| <= cap
            then Some(Decoded(head + tail, at + |WireBody(head)| + 2)) else None
  {
    var r := CompressedReading(buf, from, tail, at, head);
    WireLength(head + tail);
    DecodeOfReading(buf, at, r, cap);
  }

  lemma CompressedReading(buf: seq<byte>, from: nat, tail: seq<Label>, at: nat, head: seq<Label>) returns (r: Reading)
    requires AllShort(head) && AllNonEmpty(head) && AllShort(tail) && AllNonEmpty(tail)
    requires from < at && from < 0x4000
    requires from + |Wire(tail)| <= |buf| && buf[from..from + |Wire(tail)|] == Wire(tail)
    requires at + |WireBody(head)| + 2 <= |buf|
    requires buf[at..at + |WireBody(head)| + 2] == WireBody(head) + Pointer(from)
    ensures r.at == at && Reads(buf, r) && Labels(buf, r) == head + tail
    ensures Jumps(r) == 1 && EndOf(r) == at + |WireBody(head)| + 2
  {
    var t := WireIsReading(buf, from, tail);
    r := PointedReading(buf, at, head, t);
  }

  /**
   * Encoding a text and decoding the result consumes the bytes written and yields the non-empty
   * fields of the text, exactly if their dotted form has at most 254 characters and fits with a dot
   * and a terminator; without empty fields the text itself comes back.
   */
  lemma EncodeThenDecode(domain: CString, size: nat, before: seq<byte>, after: seq<byte>, cap: nat)
    requires Encode(domain, size).Some? && cap > 0
    ensures var wire, labels := Encode(domain, size).value, Tokens(domain);
      DecodeName(before + wire + after, |before|, cap) ==
        if labels == [] || (|Join(labels)| < MAX_NAME_LEN && |Join(labels)| + 2 <= cap)
        then Some(Decoded(labels, |before| + |wire|)) else None
    ensures AllNonEmpty(Fields(domain)) ==> Join(Tokens(domain)) == domain
  {
    NonEmptyKept(Fields(domain));
    DecodeJoined(before, Tokens(domain), after, cap);
    TextComesBack(domain);
  }

  // The limits on the wire form of some labels in terms of their dotted text.
  lemma DecodeJoined(before: seq<byte>, labels: seq<Label>, after: seq<byte>, cap: nat)
    requires AllShort(labels) && AllNonEmpty(labels) && cap > 0
    ensures DecodeName(before + Wire(labels) + after, |before|, cap) ==
              if labels == [] || (|Join(labels)| < MAX_NAME_LEN && |Join(labels)| + 2 <= cap)
              then Some(Decoded(labels, |before| + |Wire(labels)|)) else None
  {
    WireSize(labels);
    DecodeWire(before, labels, after, cap);
  }

  // The wire form takes two bytes more than the dotted text.
  lemma WireSize(labels: seq<Label>)
    requires AllNonEmpty(labels)
    ensures |Wire(labels)| == if labels == [] then 1 else |Join(labels)| + 2
  {
    WireLength(labels);
    RoomAtLeast(labels);
  }

  lemma TextComesBack(domain: CString)
    ensures AllNonEmpty(Fields(domain)) ==> Join(Tokens(domain)) == domain
  {
    NonEmptyKept(Fields(domain));
    JoinFields(domain);
  }

  function Letters(n: nat): seq<byte> { seq(n, _ => 97) }

  /** A text of 255 characters that is encoded but whose wire form is not decoded. */
  lemma EncodedButNotDecoded(cap: nat) returns (domain: CString)
    ensures |domain| == MAX_NAME_LEN && Encode(domain, 257).Some?
    ensures DecodeName(Encode(domain, 257).value, 0, cap).None?
  {
    var word := Letters(MAX_LABEL_LEN);
    var labels := [word, word, word, word];
    assert Join(labels[2..]) == word + [DOT] + word;
    assert Join(labels[1..]) == word + [DOT] + Join(labels[2..]);
    domain := Join(labels);
    TokensOfJoin(labels);
    WireLength(labels);
    RoomAtLeast(labels);
    var wire := Encode(domain, 257).value;
    DecodeWire([], labels, [], cap);
    assert [] + wire + [] == wire;
  }

  /**
   * Decoding a name and encoding its text gives the name with its pointers followed, exactly if no
   * label contains a dot or a NUL; that is the original bytes if there were no pointers.
   */
  lemma DecodeThenEncode(buf: seq<byte>, pos: nat, cap: nat, r: Reading, size: nat)
    requires AcceptedReading(buf, pos, cap, r)
    requires size >= |Join(Labels(buf, r))| + 2
    ensures AllShort(Labels(buf, r))
    ensures Encode(CStr(Join(Labels(buf, r))), size) == Some(Wire(Labels(buf, r))) <==> FreeOfDotAndNul(Labels(buf, r))
    ensures Jumps(r) == 0 ==> EndOf(r) <= |buf| && pos < EndOf(r) && buf[pos..EndOf(r)] == Wire(Labels(buf, r))
  {
    var labels := Labels(buf, r);
    LabelsAreShort(buf, r);
    if Jumps(r) == 0 {
      ReadingIsWire(buf, r);
    }
    EncodeText(labels, size);
  }

  predicate FreeOfDotAndNul(labels: seq<Label>) {
    forall l :: l in labels ==> DOT !in l && 0 !in l
  }

  // Encoding the text of some labels gives their wire form exactly if they keep to themselves.
  lemma EncodeText(labels: seq<Label>, size: nat)
    requires AllShort(labels) && AllNonEmpty(labels) && Room(labels) <= MAX_NAME_LEN && size >= |Join(labels)| + 2
    ensures Encode(CStr(Join(labels)), size) == Some(Wire(labels)) <==> FreeOfDotAndNul(labels)
  {
    var text := CStr(Join(labels));
    if FreeOfDotAndNul(labels) {
      JoinHasNoNul(labels);
      CStrStopsAtNul(Join(labels), []);
      TokensOfJoin(labels);
      WireLength(labels);
      RoomAtLeast(labels);
    }
    if Encode(text, size) == Some(Wire(labels)) {
      NonEmptyKept(Fields(text));
      WireIsInjective(Tokens(text), labels);
      TokensAreFree(text);
    }
  }

  lemma TokensAreFree(text: CString)
    ensures FreeOfDotAndNul(Tokens(text))
  {
    forall l | l in Tokens(text)
      ensures DOT !in l && 0 !in l
    {
      TokenIsField(Fields(text), l);
      FieldBytes(text, l);
      FieldsDotFree(text);
    }
  }

  lemma {:induction false} TokenIsField(fields: seq<Label>, token: Label)
    requires token in NonEmptyOnes(fields)
    ensures token in fields
  {
    if token != fields[0] {
      TokenIsField(fields[1..], token);
    }
  }

  lemma {:induction false} WireIsInjective(a: seq<Label>, b: seq<Label>)
    requires AllShort(a) && AllShort(b) && AllNonEmpty(a) && AllNonEmpty(b)
    requires Wire(a) == Wire(b)
    ensures a == b
  {
    var r := WireIsReading(Wire(a), 0, a);
    var r' := WireIsReading(Wire(a), 0, b);
    ReadingIsUnique(Wire(a), r, r');
  }

  lemma {:induction false} JoinHasNoNul(labels: seq<Label>)
    requires FreeOfDotAndNul(labels)
    ensures 0 !in Join(labels)
  {
    if |labels| > 1 {
      JoinHasNoNul(labels[1..]);
    }
  }
}
