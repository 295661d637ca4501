/**
 * Domain names as they stand in a message: labels with a length byte in front, ended by a zero
 * byte or by a pointer to an earlier name (sections 3.1 and 4.1.4 of RFC 1035).
 */
module Decoder {
  import opened Bytes
  import opened Names

  const MAX_COMPRESSION_JUMPS := 10
  const POINTER_MARK := 0xC0

  /** The position a pointer at `at` refers to: the low 14 bits of its two bytes. */
  function Target(buf: seq<byte>, at: nat): nat
    requires at + 1 < |buf| && buf[at] >= POINTER_MARK
  {
    (buf[at] - POINTER_MARK) * 256 + buf[at + 1]
  }

  // ----- what a name in a message is

  /** One way to read a name: labels and pointers down to the zero byte, each with its position. */
  datatype Reading =
    | Stop(at: nat)
    | Word(at: nat, rest: Reading)
    | Jump(at: nat, rest: Reading)

  /** The reading is what the bytes say, with every pointer strictly backwards; no bound on its size. */
  ghost predicate Reads(buf: seq<byte>, r: Reading) {
    match r
    case Stop(p) => p < |buf| && buf[p] == 0
    case Word(p, rest) =>
      p < |buf| && 1 <= buf[p] <= MAX_LABEL_LEN && p + 1 + buf[p] <= |buf|
      && rest.at == p + 1 + buf[p] && Reads(buf, rest)
    case Jump(p, rest) =>
      p + 1 < |buf| && buf[p] >= POINTER_MARK
      && rest.at == Target(buf, p) && rest.at < p && Reads(buf, rest)
  }

  ghost function Labels(buf: seq<byte>, r: Reading): seq<Label>
    requires Reads(buf, r)
  {
    match r
    case Stop(_) => []
    case Word(p, rest) => [buf[p + 1..p + 1 + buf[p]]] + Labels(buf, rest)
    case Jump(_, rest) => Labels(buf, rest)
  }

  ghost function Jumps(r: Reading): nat {
    match r
    case Stop(_) => 0
    case Word(_, rest) => Jumps(rest)
    case Jump(_, rest) => 1 + Jumps(rest)
  }

  ghost function Steps(r: Reading): nat {
    match r
    case Stop(_) => 1
    case Word(_, rest) => 1 + Steps(rest)
    case Jump(_, rest) => 1 + Steps(rest)
  }

  /** Where the name ends in the message: after its zero byte or after its first pointer. */
  ghost function EndOf(r: Reading): nat {
    match r
    case Stop(p) => p + 1
    case Word(_, rest) => EndOf(rest)
    case Jump(p, _) => p + 2
  }

  /** The positions a reading visits, in order. */
  ghost function Visits(r: Reading): seq<nat> {
    match r
    case Stop(p) => [p]
    case Word(p, rest) => [p] + Visits(rest)
    case Jump(p, rest) => [p] + Visits(rest)
  }

  /** Characters the labels take with a dot behind each. */
  function Room(labels: seq<Label>): nat {
    if labels == [] then 0 else |labels[0]| + 1 + Room(labels[1..])
  }

  /** The limits of the decoder: jumps, name length, and the caller's buffer. */
  ghost predicate WithinLimits(buf: seq<byte>, r: Reading, cap: nat)
    requires Reads(buf, r)
  {
    && Jumps(r) <= MAX_COMPRESSION_JUMPS
    && Room(Labels(buf, r)) <= MAX_NAME_LEN
    && Room(Labels(buf, r)) < cap
  }

  ghost predicate AcceptedReading(buf: seq<byte>, pos: nat, cap: nat, r: Reading) {
    r.at == pos && Reads(buf, r) && WithinLimits(buf, r, cap)
  }

  // ----- the decoder as a recursion on its loop state

  datatype Decoded = Decoded(labels: seq<Label>, end: nat)

  function Run(buf: seq<byte>, pos: nat, jumps: nat, labels: seq<Label>, first: Option<nat>, cap: nat): Option<Decoded>
    decreases MAX_COMPRESSION_JUMPS - jumps, |buf| - pos
  {
    if pos >= |buf| then None
    else if buf[pos] >= POINTER_MARK then
      if pos + 1 >= |buf| || Target(buf, pos) >= pos || jumps + 1 > MAX_COMPRESSION_JUMPS then None
      else Run(buf, Target(buf, pos), jumps + 1, labels, if first.None? then Some(pos + 2) else first, cap)
    else if buf[pos] > MAX_LABEL_LEN then None
    else if buf[pos] == 0 then
      Some(Decoded(labels, if first.None? then pos + 1 else first.value))
    else
      var next := pos + 1 + buf[pos];
      if next > |buf| || Room(labels) + buf[pos] + 1 >= cap || Room(labels) + buf[pos] + 1 > MAX_NAME_LEN then None
      else Run(buf, next, jumps, labels + [buf[pos + 1..next]], first, cap)
  }

  /** The name at a position, for a text buffer of `cap` bytes. */
  function DecodeName(buf: seq<byte>, pos: nat, cap: nat): Option<Decoded> {
    if cap == 0 then None else Run(buf, pos, 0, [], None, cap)
  }

  lemma {:induction false} RoomConcat(a: seq<Label>, b: seq<Label>)
    ensures Room(a + b) == Room(a) + Room(b)
  {
    if a == [] {
      assert a + b == b;
    } else {
      assert (a + b)[1..] == a[1..] + b;
      RoomConcat(a[1..], b);
    }
  }

  lemma RoomSnoc(labels: seq<Label>, word: Label)
    ensures Room(labels + [word]) == Room(labels) + |word| + 1
  {
    RoomConcat(labels, [word]);
  }

  lemma {:induction false} RoomAtLeast(labels: seq<Label>)
    requires AllNonEmpty(labels)
    ensures Room(labels) >= 2 * |labels|
    ensures labels != [] ==> Room(labels) == |Join(labels)| + 1
  {
    if labels != [] {
      RoomAtLeast(labels[1..]);
    }
  }

  lemma {:induction false} LabelsAreShort(buf: seq<byte>, r: Reading)
    requires Reads(buf, r)
    ensures AllNonEmpty(Labels(buf, r)) && AllShort(Labels(buf, r))
    ensures Steps(r) == |Labels(buf, r)| + Jumps(r) + 1
  {
    if !r.Stop? {
      LabelsAreShort(buf, r.rest);
    }
  }

  /** Whatever the decoder accepts has a reading within the limits. */
  lemma {:induction false} RunSound(buf: seq<byte>, pos: nat, jumps: nat, labels: seq<Label>, first: Option<nat>,
                                     cap: nat)
      returns (r: Reading)
    requires jumps <= MAX_COMPRESSION_JUMPS && Room(labels) <= MAX_NAME_LEN && Room(labels) < cap
    requires Run(buf, pos, jumps, labels, first, cap).Some?
    ensures r.at == pos && Reads(buf, r)
    ensures jumps + Jumps(r) <= MAX_COMPRESSION_JUMPS
    ensures Room(labels + Labels(buf, r)) <= MAX_NAME_LEN && Room(labels + Labels(buf, r)) < cap
    decreases MAX_COMPRESSION_JUMPS - jumps, |buf| - pos
  {
    if buf[pos] >= POINTER_MARK {
      var rest := RunSound(buf, Target(buf, pos), jumps + 1, labels, if first.None? then Some(pos + 2) else first, cap);
      r := Jump(pos, rest);
    } else if buf[pos] == 0 {
      r := Stop(pos);
      assert labels + [] == labels;
    } else {
      var next := pos + 1 + buf[pos];
      var word := buf[pos + 1..next];
      RoomSnoc(labels, word);
      var rest := RunSound(buf, next, jumps, labels + [word], first, cap);
      r := Word(pos, rest);
      WordAfter(labels, word, Labels(buf, rest));
    }
  }

  lemma WordAfter(labels: seq<Label>, word: Label, rest: seq<Label>)
    ensures labels + ([word] + rest) == labels + [word] + rest
    ensures Room(labels + [word]) == Room(labels) + |word| + 1 <= Room(labels + ([word] + rest))
  {
    assert labels + ([word] + rest) == labels + [word] + rest;
    RoomConcat(labels + [word], rest);
    RoomSnoc(labels, word);
  }

  /** Whatever has a reading within the limits is accepted, and the decoder returns what the reading says. */
  lemma {:induction false} RunComplete(buf: seq<byte>, r: Reading, jumps: nat, labels: seq<Label>, first: Option<nat>,
                                        cap: nat)
    requires Reads(buf, r)
    requires jumps + Jumps(r) <= MAX_COMPRESSION_JUMPS
    requires Room(labels + Labels(buf, r)) <= MAX_NAME_LEN && Room(labels + Labels(buf, r)) < cap
    ensures Run(buf, r.at, jumps, labels, first, cap) ==
            Some(Decoded(labels + Labels(buf, r), if first.None? then EndOf(r) else first.value))
  {
    match r
    case Stop(_) =>
      assert labels + [] == labels;
    case Jump(p, rest) =>
      RunComplete(buf, rest, jumps + 1, labels, if first.None? then Some(p + 2) else first, cap);
    case Word(p, rest) =>
      var word := buf[p + 1..p + 1 + buf[p]];
      WordAfter(labels, word, Labels(buf, rest));
      RunAtWord(buf, p, jumps, labels, first, cap);
      RunComplete(buf, rest, jumps, labels + [word], first, cap);
  }

  // One label further, where the limits allow it.
  lemma RunAtWord(buf: seq<byte>, pos: nat, jumps: nat, labels: seq<Label>, first: Option<nat>, cap: nat)
    requires pos < |buf| && 1 <= buf[pos] <= MAX_LABEL_LEN && pos + 1 + buf[pos] <= |buf|
    requires Room(labels) + buf[pos] + 1 < cap && Room(labels) + buf[pos] + 1 <= MAX_NAME_LEN
    ensures Run(buf, pos, jumps, labels, first, cap) ==
            Run(buf, pos + 1 + buf[pos], jumps, labels + [buf[pos + 1..pos + 1 + buf[pos]]], first, cap)
  {
  }

  /** The decoder accepts exactly the positions with a reading within the limits, and returns what it says. */
  lemma DecodeMeaning(buf: seq<byte>, pos: nat, cap: nat)
    ensures DecodeName(buf, pos, cap).Some? <==> exists r :: AcceptedReading(buf, pos, cap, r)
    ensures forall r :: AcceptedReading(buf, pos, cap, r) ==>
              DecodeName(buf, pos, cap) == Some(Decoded(Labels(buf, r), EndOf(r)))
  {
    if DecodeName(buf, pos, cap).Some? {
      var r := RunSound(buf, pos, 0, [], None, cap);
      assert [] + Labels(buf, r) == Labels(buf, r);
      assert AcceptedReading(buf, pos, cap, r);
    }
    forall r | AcceptedReading(buf, pos, cap, r)
      ensures DecodeName(buf, pos, cap) == Some(Decoded(Labels(buf, r), EndOf(r)))
    {
      assert [] + Labels(buf, r) == Labels(buf, r);
      RunComplete(buf, r, 0, [], None, cap);
    }
  }

  /** There is at most one reading from a position. */
  lemma {:induction false} ReadingIsUnique(buf: seq<byte>, r: Reading, r': Reading)
    requires Reads(buf, r) && Reads(buf, r') && r.at == r'.at
    ensures r == r'
  {
    if !r.Stop? {
      ReadingIsUnique(buf, r.rest, r'.rest);
    }
  }

  /** No reading comes back to a position: in particular it follows no pointer twice. */
  lemma {:induction false} ReadingIsAcyclic(buf: seq<byte>, r: Reading)
    requires Reads(buf, r)
    ensures forall i, j :: 0 <= i < j < |Visits(r)| ==> Visits(r)[i] != Visits(r)[j]
  {
    if !r.Stop? {
      ReadingIsAcyclic(buf, r.rest);
      forall j | 0 <= j < |Visits(r.rest)|
        ensures Visits(r.rest)[j] != r.at
      {
        var part := PartAt(buf, r.rest, j);
        if part.at == r.at {
          ReadingIsUnique(buf, part, r);
        }
      }
    }
  }

  /** Without any limit: a reading takes no more steps than the message has bytes. */
  lemma ReadingFits(buf: seq<byte>, r: Reading)
    requires Reads(buf, r)
    ensures Steps(r) <= |buf|
  {
    ReadingIsAcyclic(buf, r);
    VisitsAreInside(buf, r);
    DistinctBelow(Visits(r), |buf|);
  }

  lemma {:induction false} VisitsAreInside(buf: seq<byte>, r: Reading)
    requires Reads(buf, r)
    ensures |Visits(r)| == Steps(r) && forall i :: 0 <= i < |Visits(r)| ==> Visits(r)[i] < |buf|
  {
    if !r.Stop? {
      VisitsAreInside(buf, r.rest);
    }
  }

  // There are no more than n different numbers below n.
  lemma {:induction false} DistinctBelow(s: seq<nat>, n: nat)
    requires forall i :: 0 <= i < |s| ==> s[i] < n
    requires forall i, j :: 0 <= i < j < |s| ==> s[i] != s[j]
    ensures |s| <= n
  {
    if s != [] {
      assert s[0] < n;
      if k :| 0 <= k < |s| && s[k] == n - 1 {
        DistinctBelow(s[..k] + s[k + 1..], n - 1);
      } else {
        DistinctBelow(s, n - 1);
      }
    }
  }

  /** A reading within the limits takes at most 127 labels, 10 pointers and the final zero byte. */
  lemma ReadingIsShort(buf: seq<byte>, r: Reading, cap: nat)
    requires Reads(buf, r) && WithinLimits(buf, r, cap)
    ensures Steps(r) <= 138 && |Labels(buf, r)| <= 127
  {
    LabelsAreShort(buf, r);
    RoomAtLeast(Labels(buf, r));
  }

  // The part of a reading from its j-th position on.
  lemma {:induction false} PartAt(buf: seq<byte>, r: Reading, j: nat) returns (part: Reading)
    requires Reads(buf, r) && j < |Visits(r)|
    ensures Reads(buf, part) && part.at == Visits(r)[j] && Steps(part) <= Steps(r)
  {
    if j == 0 {
      part := r;
    } else {
      part := PartAt(buf, r.rest, j - 1);
    }
  }

  // ----- the loop

  /** The labels with a dot behind each, as the loop writes them. */
  function Dotted(labels: seq<Label>): (text: seq<byte>)
    ensures |text| == Room(labels)
  {
    if labels == [] then []
    else
      var n := |labels| - 1;
      RoomConcat(labels[..n], [labels[n]]);
      assert labels == labels[..n] + [labels[n]];
      Dotted(labels[..n]) + labels[n] + [DOT]
  }

  lemma DottedSnoc(labels: seq<Label>, word: Label)
    ensures Dotted(labels + [word]) == Dotted(labels) + word + [DOT]
    ensures Room(labels + [word]) == Room(labels) + |word| + 1
  {
    assert (labels + [word])[..|labels|] == labels;
    RoomSnoc(labels, word);
  }

  lemma {:induction false} DottedIsJoin(labels: seq<Label>)
    ensures labels != [] ==> Dotted(labels) == Join(labels) + [DOT]
  {
    if |labels| > 1 {
      var n := |labels| - 1;
      DottedIsJoin(labels[..n]);
      JoinConcat(labels[..n], [labels[n]]);
      assert labels == labels[..n] + [labels[n]];
    }
  }

  /**
   * parse_dns_name(). `steps` counts the iterations of the loop, whether the name is accepted or
   * not.
   */
  method ParseDnsName(buf: seq<byte>, offset: nat, name: array<byte>) returns (rc: int, end: nat, ghost steps: nat)
    modifies name
    ensures rc == 0 || rc == -1
    ensures rc == 0 <==> DecodeName(buf, offset, name.Length).Some?
    ensures rc == 0 ==>
              var d := DecodeName(buf, offset, name.Length).value;
              end == d.end && CStr(name[..]) == CStr(Join(d.labels))
    ensures steps <= 138
  {
    end, steps := offset, 0;
    if name.Length == 0 {
      return -1, end, steps;
    }
    var pos: nat, namePos: nat, jumpCount: nat, jumped := offset, 0, 0, false;
    ghost var labels: seq<Label> := [];
    while pos < |buf|
      invariant jumpCount <= MAX_COMPRESSION_JUMPS
      invariant namePos == Room(labels) <= MAX_NAME_LEN && namePos < name.Length
      invariant name[..namePos] == Dotted(labels)
      invariant steps <= |labels| + jumpCount && 2 * |labels| <= namePos
      invariant Run(buf, pos, jumpCount, labels, if jumped then Some(end) else None, name.Length)
                == DecodeName(buf, offset, name.Length)
      decreases MAX_COMPRESSION_JUMPS - jumpCount, |buf| - pos
    {
      steps := steps + 1;
      var labelLen := buf[pos];
      if labelLen >= POINTER_MARK {
        if pos + 1 >= |buf| {
          return -1, end, steps;
        }
        var pointerOffset := Target(buf, pos);
        if pointerOffset >= pos {
          return -1, end, steps;
        }
        jumpCount := jumpCount + 1;
        if jumpCount > MAX_COMPRESSION_JUMPS {
          return -1, end, steps;
        }
        if !jumped {
          end := pos + 2;
          jumped := true;
        }
        pos := pointerOffset;
        continue;
      }
      if labelLen > MAX_LABEL_LEN {
        return -1, end, steps;
      }
      if labelLen == 0 {
        if !jumped {
          end := pos + 1;
        }
        Terminate(name, namePos, labels);
        return 0, end, steps;
      }
      pos := pos + 1;
      if pos + labelLen > |buf| {
        return -1, end, steps;
      }
      if namePos + labelLen + 1 >= name.Length {
        return -1, end, steps;
      }
      AppendLabel(buf, pos, labelLen, name, namePos);
      ghost var word := buf[pos..pos + labelLen];
      pos, namePos := pos + labelLen, namePos + labelLen + 1;
      DottedSnoc(labels, word);
      labels := labels + [word];
      if namePos > MAX_NAME_LEN {
        return -1, end, steps;
      }
    }
    rc := -1;
  }

  /** Drops the last dot, if there is one, and ends the text. */
  method Terminate(name: array<byte>, namePos: nat, ghost labels: seq<Label>)
    requires namePos == Room(labels) < name.Length && name[..namePos] == Dotted(labels)
    modifies name
    ensures CStr(name[..]) == CStr(Join(labels))
  {
    DottedIsJoin(labels);
    var end := namePos;
    if end > 0 && name[end - 1] == DOT {
      end := end - 1;
    }
    assert name[..end] == Join(labels);
    name[end] := 0;
    assert name[..] == Join(labels) + [0] + name[end + 1..];
    CStrStopsAtNul(Join(labels), name[end + 1..]);
  }

  /** Copies one label into the text and puts a dot behind it. */
  method AppendLabel(buf: seq<byte>, pos: nat, length: nat, name: array<byte>, namePos: nat)
    requires pos + length <= |buf| && namePos + length < name.Length
    modifies name
    ensures name[..namePos + length + 1] == old(name[..namePos]) + buf[pos..pos + length] + [DOT]
  {
    var i := 0;
    while i < length
      invariant 0 <= i <= length
      invariant name[..namePos + i] == old(name[..namePos]) + buf[pos..pos + i]
    {
      name[namePos + i] := buf[pos + i];
      i := i + 1;
    }
    name[namePos + length] := DOT;
  }
}
