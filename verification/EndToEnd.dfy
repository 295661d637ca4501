/** From the lines of a filter file and the bytes of a query to the verdict on it. */
module EndToEnd {
  import opened Bytes
  import opened Names
  import opened Normalizer
  import opened Blocklist
  import opened Spelling
  import opened Decoder
  import opened Parser
  import opened Builder
  import opened Resolver
  import opened Loader
  import opened Server

  function LowerAll(labels: seq<Label>): (lowered: seq<Label>)
    ensures |lowered| == |labels|
    ensures forall i :: 0 <= i < |labels| ==> lowered[i] == Lower(labels[i])
  {
    seq(|labels|, i requires 0 <= i < |labels| => Lower(labels[i]))
  }

  /** Labels on which the wire form and the text of a name agree: no dot, NUL or white space inside. */
  predicate PlainLabels(labels: seq<Label>) {
    forall i :: 0 <= i < |labels| ==> DOT !in labels[i] && 0 !in labels[i] && HasNoSpace(labels[i])
  }

  lemma {:induction false} LowerJoin(labels: seq<Label>)
    ensures Lower(Join(labels)) == Join(LowerAll(labels))
  {
    if |labels| == 1 {
      assert LowerAll(labels) == [Lower(labels[0])];
    } else if |labels| > 1 {
      LowerJoin(labels[1..]);
      assert LowerAll(labels)[1..] == LowerAll(labels[1..]);
      assert Lower(Join(labels)) == Lower(labels[0]) + [DOT] + Lower(Join(labels[1..]));
    }
  }

  lemma {:induction false} PlainJoin(labels: seq<Label>)
    requires PlainLabels(labels)
    ensures 0 !in Join(labels) && HasNoSpace(Join(labels))
  {
    if |labels| > 1 {
      PlainJoin(labels[1..]);
    }
  }

  lemma LowerIsPlain(labels: seq<Label>)
    requires AllNonEmpty(labels) && AllShort(labels) && PlainLabels(labels)
    ensures AllNonEmpty(LowerAll(labels)) && AllShort(LowerAll(labels)) && AllDotFree(LowerAll(labels))
  {
    forall i | 0 <= i < |labels|
      ensures LowerAll(labels)[i] != [] && |LowerAll(labels)[i]| <= MAX_LABEL_LEN && DOT !in LowerAll(labels)[i]
    {
      assert forall k :: 0 <= k < |labels[i]| ==> labels[i][k] != DOT;
    }
  }

  /** The name of a question, once parsed to text, stands for its own labels in lower case. */
  lemma LabelsOfQuestion(labels: seq<Label>)
    requires AllNonEmpty(labels) && AllShort(labels) && PlainLabels(labels) && Room(labels) <= MAX_NAME_LEN
    ensures 0 !in Join(labels)
    ensures LabelList(Join(labels)) == if labels == [] then None else Some(LowerAll(labels))
  {
    var text := Join(labels);
    PlainJoin(labels);
    CleanIsLower(text);
    LowerJoin(labels);
    LowerIsPlain(labels);
    RoomAtLeast(labels);
    if labels != [] {
      FieldsJoin(LowerAll(labels));
      assert 0 !in Lower(text) by {
        assert forall k :: 0 <= k < |text| ==> text[k] != 0;
      }
      assert Clean(text) == Lower(text) + Dots(0);
      NormalizedIff(text, NAME_BUFFER, Lower(text));
    }
  }

  /** A listed name is the queried name or an ancestor of it, in lower case. */
  ghost predicate CoveredBy(domains: seq<CString>, labels: seq<Label>) {
    exists d :: d in domains && LabelList(d).Some? && EndsWith(LowerAll(labels), LabelList(d).value)
  }

  /**
   * End to end: for a first question whose name is read from the message, through pointers or not,
   * and has plain labels, parsing to text, clean-up, splitting and the trie's verdict come to the
   * suffix test on the labels in the message.
   */
  lemma VerdictOnWire(domains: seq<CString>, raw: seq<byte>, r: Reading)
    requires AcceptedReading(raw, HEADER_SIZE, NAME_BUFFER, r) && PlainLabels(Labels(raw, r))
    ensures Verdict(Listed(domains), CStr(Join(Labels(raw, r)))) <==> CoveredBy(domains, Labels(raw, r))
  {
    var labels := Labels(raw, r);
    LabelsAreShort(raw, r);
    LabelsOfQuestion(labels);
    CStrStopsAtNul(Join(labels), []);
    if CoveredBy(domains, labels) {
      var d :| d in domains && LabelList(d).Some? && EndsWith(LowerAll(labels), LabelList(d).value);
      LabelListIsPath(d);
      assert LabelList(d).value in Listed(domains);
    }
    if Verdict(Listed(domains), CStr(Join(labels))) {
      var l :| l in Listed(domains) && EndsWith(LowerAll(labels), l);
      var d :| d in domains && LabelList(d) == Some(l);
    }
  }

  /**
   * A parsed address query with plain labels is stopped by the filter exactly if its name is
   * covered by the list; then nothing goes upstream, and otherwise the upstream attempts are made.
   */
  lemma FilterDecides(domains: seq<CString>, raw: seq<byte>, r: Reading, build: bool, up: Upstream)
    requires ParseMessage(raw).Some? && ParseHeader(raw).value.qdcount > 0
    requires AcceptedReading(raw, HEADER_SIZE, NAME_BUFFER, r) && PlainLabels(Labels(raw, r))
    requires EndOf(r) + 1 < |raw| && U16(raw, EndOf(r)) == TYPE_A
    ensures var o := Process(Listed(domains), raw, Memory(true, true, build), up);
      && (o.filtered <==> CoveredBy(domains, Labels(raw, r)))
      && o.sent == (if CoveredBy(domains, Labels(raw, r)) then 0 else Forward(raw, up).sent)
  {
    MessageSize(raw);
    DecodeMeaning(raw, HEADER_SIZE, NAME_BUFFER);
    VerdictOnWire(domains, raw, r);
    var first := ParseQuestion(raw, HEADER_SIZE).value.question;
    assert ParseMessage(raw).value.questions[0] == first;
    assert first.qname == CStr(Join(Labels(raw, r)));
  }

  /** The message asks for the address of a name with plain labels, read as r, that the list covers. */
  ghost predicate AsksCovered(domains: seq<CString>, raw: seq<byte>, r: Reading) {
    && ParseMessage(raw).Some? && ParseHeader(raw).value.qdcount > 0
    && AcceptedReading(raw, HEADER_SIZE, NAME_BUFFER, r) && PlainLabels(Labels(raw, r))
    && EndOf(r) + 1 < |raw| && U16(raw, EndOf(r)) == TYPE_A
    && CoveredBy(domains, Labels(raw, r))
  }

  /**
   * A query for a covered name is to be answered NXDOMAIN, and is exactly if its name has no
   * pointer in it and the response can be built; behind a pointer it stays without an answer.
   */
  lemma CoveredReplied(domains: seq<CString>, raw: seq<byte>, r: Reading, build: bool, up: Upstream)
    requires AsksCovered(domains, raw, r)
    ensures var o := Process(Listed(domains), raw, Memory(true, true, build), up);
      && (o.reply.Some? <==> build && Jumps(r) == 0)
      && (o.reply.Some? ==> ReplyCode(o.reply.value) == NXDOMAIN)
  {
    FilterDecides(domains, raw, r, build, up);
    MessageSize(raw);
    WalkIffNoPointer(raw, r);
    if build && Jumps(r) == 0 {
      ErrorResponseRoundTrip(raw, NXDOMAIN);
      CodeOfFlags(ParseMessage(raw).value.header, NXDOMAIN);
    }
  }

  // The end of a parsed first question is found again exactly if its name has no pointer.
  lemma WalkIffNoPointer(raw: seq<byte>, r: Reading)
    requires AcceptedReading(raw, HEADER_SIZE, NAME_BUFFER, r) && ParseQuestion(raw, HEADER_SIZE).Some?
    ensures QuestionEnd(raw).Some? <==> Jumps(r) == 0
  {
    DecodeMeaning(raw, HEADER_SIZE, NAME_BUFFER);
    if Jumps(r) == 0 {
      assert PointerFree(raw, HEADER_SIZE, r);
      WalkersAgree(raw, EndOf(r) + 4);
    }
    if QuestionEnd(raw).Some? {
      WalkersAgree(raw, QuestionEnd(raw).value);
      var other :| PointerFree(raw, HEADER_SIZE, other);
      ReadingIsUnique(raw, r, other);
    }
  }

  /**
   * Over a whole run on a list: no query for a covered name goes upstream, and it is answered,
   * with NXDOMAIN, exactly if it has no pointer in its name, unless memory fails it.
   */
  lemma RunFilters(domains: seq<CString>, events: seq<Event>)
    ensures forall x, r :: x in After(Listed(domains), events).log && AsksCovered(domains, x.raw, r) ==>
              CoveredIsStopped(x, r)
  {
    RunIsSafe(Listed(domains), events);
    forall x, r | x in After(Listed(domains), events).log && AsksCovered(domains, x.raw, r)
      ensures CoveredIsStopped(x, r)
    {
      CoveredExchange(domains, x, r);
    }
  }

  ghost predicate CoveredIsStopped(x: Exchange, r: Reading) {
    && (x.memory.parse && x.memory.lookup ==> x.outcome.filtered && x.outcome.sent == 0)
    && (x.memory.parse && x.memory.lookup ==> (x.outcome.reply.Some? <==> x.memory.build && Jumps(r) == 0))
    && (x.memory.parse && x.memory.lookup && x.outcome.reply.Some? ==> ReplyCode(x.outcome.reply.value) == NXDOMAIN)
  }

  lemma CoveredExchange(domains: seq<CString>, x: Exchange, r: Reading)
    requires AsksCovered(domains, x.raw, r)
    requires x.outcome == Process(Listed(domains), x.raw, x.memory, x.up)
    ensures CoveredIsStopped(x, r)
  {
    FilterDecides(domains, x.raw, r, x.memory.build, x.up);
    CoveredReplied(domains, x.raw, r, x.memory.build, x.up);
  }

  /** The message asks for the address of a name that is blocked by the list as parsed and cleaned up. */
  ghost predicate AsksListed(domains: seq<CString>, raw: seq<byte>) {
    && ParseMessage(raw).Some?
    && var questions := ParseMessage(raw).value.questions;
       && questions != []
       && questions[0].qtype == TYPE_A
       && Verdict(Listed(domains), questions[0].qname)
  }

  /** Over a whole run on a list: exactly the address queries for a listed name are filtered, where memory suffices. */
  lemma RunFiltersListed(domains: seq<CString>, events: seq<Event>)
    ensures forall x :: x in After(Listed(domains), events).log ==>
              (x.outcome.filtered <==> x.memory.parse && x.memory.lookup && AsksListed(domains, x.raw))
  {
    RunIsSafe(Listed(domains), events);
    forall x | x in After(Listed(domains), events).log
      ensures x.outcome.filtered <==> x.memory.parse && x.memory.lookup && AsksListed(domains, x.raw)
    {
      FilteredIff(domains, x.raw, x.memory, x.up);
    }
  }

  lemma FilteredIff(domains: seq<CString>, raw: seq<byte>, memory: Memory, up: Upstream)
    ensures Process(Listed(domains), raw, memory, up).filtered <==>
            memory.parse && memory.lookup && AsksListed(domains, raw)
  {
    if ParseMessage(raw).Some? {
      MessageSize(raw);
    }
  }

  /** Queries whose names differ in case only get the same verdict. */
  lemma QueryCaseIsIgnored(labels: seq<Label>, labels': seq<Label>, blocked: set<seq<Label>>)
    requires |labels| == |labels'| && forall i :: 0 <= i < |labels| ==> SameButCase(labels[i], labels'[i])
    ensures Verdict(blocked, CStr(Join(labels))) <==> Verdict(blocked, CStr(Join(labels')))
  {
    JoinKeepsCase(labels, labels');
    CStrKeepsCase(Join(labels), Join(labels'));
    CaseIsIgnored(CStr(Join(labels)), CStr(Join(labels')));
  }

  lemma {:induction false} JoinKeepsCase(labels: seq<Label>, labels': seq<Label>)
    requires |labels| == |labels'| && forall i :: 0 <= i < |labels| ==> SameButCase(labels[i], labels'[i])
    ensures SameButCase(Join(labels), Join(labels'))
  {
    if |labels| > 1 {
      JoinKeepsCase(labels[1..], labels'[1..]);
    }
  }

  lemma {:induction false} CStrKeepsCase(x: seq<byte>, y: seq<byte>)
    requires SameButCase(x, y)
    ensures SameButCase(CStr(x), CStr(y))
  {
    if x != [] {
      assert SameLetter(x[0], y[0]);
      CStrKeepsCase(x[1..], y[1..]);
    }
  }

  // ----- names that are not plain

  /** The labels from the last one that is not plain on. */
  function PlainTail(labels: seq<Label>): (tail: seq<Label>)
    ensures PlainLabels(tail) && EndsWith(labels, tail)
  {
    if PlainLabels(labels) then labels
    else
      var tail := PlainTail(labels[1..]);
      assert labels[|labels| - |tail|..] == labels[1..][|labels| - 1 - |tail|..];
      tail
  }

  /** The name those labels make, if there are any. */
  function TailList(labels: seq<Label>): Option<seq<Label>> {
    if PlainTail(labels) == [] then None else Some(LowerAll(PlainTail(labels)))
  }

  lemma {:induction false} TailIsLongest(labels: seq<Label>, k: nat)
    requires k <= |labels| && PlainLabels(labels[k..])
    ensures EndsWith(PlainTail(labels), labels[k..])
  {
    if PlainLabels(labels) {
      assert |labels| - |labels[k..]| == k;
    } else {
      assert labels[0..] == labels;
      assert labels[1..][k - 1..] == labels[k..];
      TailIsLongest(labels[1..], k - 1);
    }
  }

  // The label list of a written name is plain and lower-case.
  lemma LabelListIsPlain(d: CString)
    requires LabelList(d).Some?
    ensures PlainLabels(LabelList(d).value)
  {
    var text := Normalized(d, NAME_BUFFER).value;
    NormalizedOutput(d, NAME_BUFFER);
    forall i | 0 <= i < |Fields(text)|
      ensures DOT !in Fields(text)[i] && 0 !in Fields(text)[i] && HasNoSpace(Fields(text)[i])
    {
      FieldBytes(text, Fields(text)[i]);
      forall k | 0 <= k < |Fields(text)[i]|
        ensures !IsSpace(Fields(text)[i][k])
      {
        assert Fields(text)[i][k] in text;
      }
    }
  }

  // Lower case neither makes nor hides a byte that is not plain.
  lemma PlainWhenLowered(labels: seq<Label>)
    requires PlainLabels(LowerAll(labels))
    ensures PlainLabels(labels)
  {
    forall i | 0 <= i < |labels|
      ensures DOT !in labels[i] && 0 !in labels[i] && HasNoSpace(labels[i])
    {
      var lowered := LowerAll(labels)[i];
      assert forall k :: 0 <= k < |labels[i]| ==> lowered[k] == ToLower(labels[i][k]) && lowered[k] in lowered;
    }
  }

  // Only the plain tail of a name can be covered.
  lemma CoverIsOnTail(labels: seq<Label>, d: CString)
    requires LabelList(d).Some?
    ensures EndsWith(LowerAll(labels), LabelList(d).value) <==>
            EndsWith(LowerAll(PlainTail(labels)), LabelList(d).value)
  {
    var l := LabelList(d).value;
    var tail := PlainTail(labels);
    LowerSuffix(labels, tail);
    if EndsWith(LowerAll(labels), l) {
      var k := |labels| - |l|;
      LabelListIsPlain(d);
      assert LowerAll(labels[k..]) == l;
      PlainWhenLowered(labels[k..]);
      TailIsLongest(labels, k);
      LowerSuffix(tail, labels[k..]);
    }
    if EndsWith(LowerAll(tail), l) {
      assert LowerAll(labels)[|labels| - |l|..] == LowerAll(tail)[|tail| - |l|..];
    }
  }

  lemma LowerSuffix(labels: seq<Label>, tail: seq<Label>)
    requires EndsWith(labels, tail)
    ensures EndsWith(LowerAll(labels), LowerAll(tail))
  {
  }

  // A plain list of labels is the label list of its own text.
  lemma TextOfTail(labels: seq<Label>) returns (d: CString)
    requires AllNonEmpty(labels) && AllShort(labels) && Room(labels) <= MAX_NAME_LEN && PlainTail(labels) != []
    ensures LabelList(d) == TailList(labels)
  {
    var tail := PlainTail(labels);
    var head := labels[..|labels| - |tail|];
    assert labels == head + tail;
    RoomConcat(head, tail);
    LabelsOfQuestion(tail);
    d := Join(tail);
  }

  ghost predicate Agrees(labels: seq<Label>, domains: seq<CString>) {
    Verdict(Listed(domains), CStr(Join(labels))) <==> CoveredBy(domains, labels)
  }

  lemma AgreesIf(labels: seq<Label>, domains: seq<CString>)
    requires LabelList(CStr(Join(labels))) == TailList(labels)
    ensures Agrees(labels, domains)
  {
    if CoveredBy(domains, labels) {
      var d :| d in domains && LabelList(d).Some? && EndsWith(LowerAll(labels), LabelList(d).value);
      CoverIsOnTail(labels, d);
      LabelListIsPath(d);
      assert LabelList(d).value in Listed(domains);
    }
    if Verdict(Listed(domains), CStr(Join(labels))) {
      var l :| l in Listed(domains) && EndsWith(TailList(labels).value, l);
      var d :| d in domains && LabelList(d) == Some(l);
      CoverIsOnTail(labels, d);
    }
  }

  // The verdict on a name and its cover agree on a list of a single name.
  lemma AgreesOnOne(labels: seq<Label>, d: CString)
    requires Agrees(labels, [d]) && LabelList(d).Some?
    ensures var q := LabelList(CStr(Join(labels)));
      (q.Some? && EndsWith(q.value, LabelList(d).value)) <==> EndsWith(LowerAll(PlainTail(labels)), LabelList(d).value)
  {
    CoverIsOnTail(labels, d);
    CoveredByOne(labels, d);
    VerdictOnOne(CStr(Join(labels)), d);
  }

  lemma CoveredByOne(labels: seq<Label>, d: CString)
    requires LabelList(d).Some?
    ensures CoveredBy([d], labels) <==> EndsWith(LowerAll(labels), LabelList(d).value)
  {
    assert d in [d];
  }

  lemma VerdictOnOne(query: CString, d: CString)
    requires LabelList(d).Some?
    ensures Verdict(Listed([d]), query) <==>
            LabelList(query).Some? && EndsWith(LabelList(query).value, LabelList(d).value)
  {
    ListedSnoc([], d);
    assert [] + [d] == [d];
    assert Listed([d]) == {LabelList(d).value};
  }

  /** The verdict on a name agrees with the suffix test on its labels for every list. */
  ghost predicate AgreesAlways(labels: seq<Label>) {
    forall domains :: Agrees(labels, domains)
  }

  /**
   * For any name the decoder accepts, plain or not: the verdict agrees with the suffix test on its
   * labels for every list exactly if the cleaned text of the whole name is its plain tail. A label
   * with a dot, a NUL or white space in it is what makes the two differ.
   */
  lemma AgreementIff(labels: seq<Label>)
    requires AllNonEmpty(labels) && AllShort(labels) && Room(labels) <= MAX_NAME_LEN
    ensures AgreesAlways(labels) <==> LabelList(CStr(Join(labels))) == TailList(labels)
    ensures PlainLabels(labels) ==> AgreesAlways(labels)
  {
    if LabelList(CStr(Join(labels))) == TailList(labels) {
      forall domains
        ensures Agrees(labels, domains)
      {
        AgreesIf(labels, domains);
      }
    }
    if PlainLabels(labels) {
      LabelsOfQuestion(labels);
      CStrStopsAtNul(Join(labels), []);
    }
    if AgreesAlways(labels) {
      AgreesOnlyIf(labels);
    }
  }

  lemma AgreesOnlyIf(labels: seq<Label>)
    requires AllNonEmpty(labels) && AllShort(labels) && Room(labels) <= MAX_NAME_LEN && AgreesAlways(labels)
    ensures LabelList(CStr(Join(labels))) == TailList(labels)
  {
    var q := LabelList(CStr(Join(labels)));
    var tail := LowerAll(PlainTail(labels));
    if PlainTail(labels) != [] {
      var d := TextOfTail(labels);
      assert Agrees(labels, [d]);
      AgreesOnOne(labels, d);
    }
    if q.Some? {
      var d := TextOfName(CStr(Join(labels)));
      assert Agrees(labels, [d]);
      AgreesOnOne(labels, d);
      LabelListIsPath(CStr(Join(labels)));
      assert EndsWith(tail, q.value);
    }
  }

  lemma TextOfName(name: CString) returns (d: CString)
    requires LabelList(name).Some?
    ensures LabelList(d) == LabelList(name)
  {
    NormalizedIdempotent(name, NAME_BUFFER);
    d := Normalized(name, NAME_BUFFER).value;
  }

  /**
   * For names without NUL the condition is one on the labels: the verdict agrees with the suffix
   * test for every list exactly if all labels are plain, or the last one is not and the name is
   * refused.
   */
  lemma AgreementOnLabels(labels: seq<Label>)
    requires AllNonEmpty(labels) && AllShort(labels) && Room(labels) <= MAX_NAME_LEN
    requires forall i :: 0 <= i < |labels| ==> 0 !in labels[i]
    ensures AgreesAlways(labels) <==>
            PlainLabels(labels) || (PlainTail(labels) == [] && LabelList(CStr(Join(labels))).None?)
  {
    AgreementIff(labels);
    if !PlainLabels(labels) && PlainTail(labels) != [] {
      MoreThanTail(labels);
    }
  }

  /** With a plain last label, agreement comes down to plain labels. */
  lemma AgreementBeforePlain(labels: seq<Label>)
    requires AllNonEmpty(labels) && AllShort(labels) && Room(labels) <= MAX_NAME_LEN && labels != []
    requires forall i :: 0 <= i < |labels| ==> 0 !in labels[i]
    requires PlainLabels([labels[|labels| - 1]])
    ensures AgreesAlways(labels) <==> PlainLabels(labels)
  {
    assert labels[|labels| - 1..] == [labels[|labels| - 1]];
    TailIsLongest(labels, |labels| - 1);
    AgreementOnLabels(labels);
  }

  lemma MoreThanTail(labels: seq<Label>)
    requires AllNonEmpty(labels) && AllShort(labels) && !PlainLabels(labels) && PlainTail(labels) != []
    requires forall i :: 0 <= i < |labels| ==> 0 !in labels[i]
    ensures LabelList(CStr(Join(labels))) != TailList(labels)
  {
    var head := BeforeTail(labels);
    NulFreeJoin(labels);
    CStrStopsAtNul(Join(labels), []);
    MoreLabels(head, PlainTail(labels));
  }

  lemma BeforeTail(labels: seq<Label>) returns (head: seq<Label>)
    requires AllNonEmpty(labels) && AllShort(labels) && !PlainLabels(labels)
    ensures head != [] && labels == head + PlainTail(labels)
    ensures AllNonEmpty(PlainTail(labels)) && AllShort(PlainTail(labels))
  {
    var tail := PlainTail(labels);
    head := labels[..|labels| - |tail|];
    assert labels == head + tail;
    assert head == [] ==> labels == tail;
    SuffixIsProper(labels, tail);
  }

  lemma SuffixIsProper(labels: seq<Label>, tail: seq<Label>)
    requires AllNonEmpty(labels) && AllShort(labels) && EndsWith(labels, tail)
    ensures AllNonEmpty(tail) && AllShort(tail)
  {
    assert forall i :: 0 <= i < |tail| ==> tail[i] == labels[|labels| - |tail| + i];
  }

  lemma {:induction false} NulFreeJoin(labels: seq<Label>)
    requires forall i :: 0 <= i < |labels| ==> 0 !in labels[i]
    ensures 0 !in Join(labels)
  {
    if |labels| > 1 {
      NulFreeJoin(labels[1..]);
    }
  }

  // Whatever stands before a plain tail adds at least one label to it.
  lemma MoreLabels(head: seq<Label>, tail: seq<Label>)
    requires head != [] && tail != [] && 0 !in Join(head + tail)
    requires AllNonEmpty(tail) && AllShort(tail) && PlainLabels(tail)
    ensures LabelList(Join(head + tail)) != Some(LowerAll(tail))
  {
    var more := FieldsBehind(head, tail);
    LabelListIsFields(Join(head + tail));
  }

  lemma LabelListIsFields(text: CString)
    ensures LabelList(text).Some? ==> LabelList(text).value == Fields(StripDots(Clean(text)))
  {
  }

  lemma FieldsBehind(head: seq<Label>, tail: seq<Label>) returns (more: seq<Label>)
    requires head != [] && tail != []
    requires AllNonEmpty(tail) && AllShort(tail) && PlainLabels(tail)
    ensures more != [] && Fields(StripDots(Clean(Join(head + tail)))) == more + LowerAll(tail)
  {
    var front := Clean(Join(head));
    var back := CleanTail(tail);
    CleanOfJoin(head, tail);
    NoEmptyField(back);
    StripDotsIsPrefix(front + [DOT] + back);
    assert (front + [DOT] + back)[|front| + |back|] == back[|back| - 1];
    FieldsConcat(front, back);
    more := Fields(front);
  }

  lemma CleanOfJoin(head: seq<Label>, tail: seq<Label>)
    requires head != [] && tail != []
    ensures Clean(Join(head + tail)) == Clean(Join(head)) + [DOT] + Clean(Join(tail))
  {
    JoinConcat(head, tail);
    CleanConcat(Join(head) + [DOT], Join(tail));
    CleanConcat(Join(head), [DOT]);
    assert Clean([DOT]) == [DOT];
  }

  lemma CleanTail(tail: seq<Label>) returns (back: seq<byte>)
    requires tail != [] && AllNonEmpty(tail) && AllShort(tail) && PlainLabels(tail)
    ensures back == Clean(Join(tail)) && Fields(back) == LowerAll(tail) && AllNonEmpty(Fields(back))
  {
    back := Clean(Join(tail));
    PlainJoin(tail);
    CleanIsLower(Join(tail));
    LowerJoin(tail);
    LowerIsPlain(tail);
    FieldsJoin(LowerAll(tail));
  }

  /** One label holding a dot is taken for two: the name is blocked although no suffix of its labels is listed. */
  lemma DottedLabelIsTakenApart() returns (labels: seq<Label>, domain: CString)
    ensures |labels| == 1 && DOT in labels[0] && AllShort(labels) && Room(labels) <= MAX_NAME_LEN
    ensures Verdict(Listed([domain]), CStr(Join(labels))) && !CoveredBy([domain], labels)
  {
    domain := [98];
    labels := [[97, DOT, 98]];
    LabelsOfShortNames();
    TakenApart(labels[0], [97], domain);
  }

  lemma TakenApart(name: CString, head: Label, domain: CString)
    requires LabelList(name) == Some([head, domain]) && LabelList(domain) == Some([domain])
    requires |name| > |domain|
    ensures Verdict(Listed([domain]), CStr(Join([name]))) && !CoveredBy([domain], [name])
  {
    CStrStopsAtNul(name, []);
    assert [head, domain][1..] == [domain];
    VerdictOnOne(name, domain);
    CoveredByOne([name], domain);
    assert |LowerAll([name])[0]| > |domain|;
  }

  lemma LabelsOfShortNames()
    ensures 0 !in [97, DOT, 98] && 0 !in [98]
    ensures LabelList([97, DOT, 98]) == Some([[97], [98]]) && LabelList([98]) == Some([[98]])
  {
    var a: Label, b: Label := [97], [98];
    assert Join([a, b]) == [97, DOT, 98] && Join([b]) == [98] by {
      assert [a, b][1..] == [b];
    }
    RoomAtLeast([a, b]);
    RoomAtLeast([b]);
    LabelsOfQuestion([a, b]);
    LabelsOfQuestion([b]);
    assert Lower(a) == a && Lower(b) == b;
    assert LowerAll([a, b]) == [a, b] && LowerAll([b]) == [b];
  }

  /**
   * The program: a filter loaded from lines, then a server on it. Whatever allocations fail during
   * the load, the server runs on exactly the names of the lines taken.
   */
  method Serve(lines: seq<CString>, memory: nat -> Allocator, events: seq<Event>)
    returns (server: DnsServer, ghost taken: seq<bool>)
    ensures fresh(server) && server.Valid()
    ensures TakenFairly(lines, taken, memory)
    ensures server.Current() == After(Listed(TakenEntries(lines, taken)), events)
    ensures AllTaken(lines, taken) ==> server.Current() == After(Listed(Entries(lines)), events)
  {
    var trie;
    trie, taken := LoadLines(lines, memory);
    server := new DnsServer(trie);
    server.RunServer(events);
    if AllTaken(lines, taken) {
      AllTakenIsAll(lines, taken);
    }
  }
}
