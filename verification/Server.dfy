/** The server: what becomes of one query, and of a whole run of them. */
module Server {
  import opened Bytes
  import opened Names
  import opened Blocklist
  import opened Decoder
  import opened Parser
  import opened Builder
  import opened Resolver
  import opened Trie

  /** Which of the allocations made for one query succeed. */
  datatype Memory = Memory(parse: bool, lookup: bool, build: bool)

  /** What becomes of a query: the reply, how often it was sent upstream, whether the filter stopped it. */
  datatype Outcome = Outcome(reply: Option<seq<byte>>, sent: nat, filtered: bool)

  function ErrorReply(query: Message, rcode: byte, memory: Memory): Option<seq<byte>> {
    if memory.build then ErrorResponse(query, rcode) else None
  }

  ghost function Process(domains: set<seq<Label>>, raw: seq<byte>, memory: Memory, up: Upstream): Outcome {
    match if memory.parse then ParseMessage(raw) else None
    case None => Outcome(None, 0, false)
    case Some(query) =>
      MessageSize(raw);
      if query.header.qdcount == 0 then Outcome(ErrorReply(query, FORMERR, memory), 0, false)
      else if query.questions[0].qtype != TYPE_A then Outcome(ErrorReply(query, NOTIMPL, memory), 0, false)
      else if memory.lookup && Verdict(domains, query.questions[0].qname) then
        Outcome(ErrorReply(query, NXDOMAIN, memory), 0, true)
      else
        var f := Forward(raw, up);
        Outcome(if f.reply.Some? then f.reply else ErrorReply(query, SERVFAIL, memory), f.sent, false)
  }

  // ----- one query

  lemma ErrorReplyIsSafe(raw: seq<byte>, rcode: byte, memory: Memory)
    requires |raw| <= UDP_MAX_SIZE && ParseMessage(raw).Some? && 0 < rcode <= REFUSED
    requires ErrorReply(ParseMessage(raw).value, rcode, memory).Some?
    ensures var reply := ErrorReply(ParseMessage(raw).value, rcode, memory).value;
      SafeReply(raw, reply) && ReplyCode(reply) == rcode
  {
    ErrorResponseRoundTrip(raw, rcode);
    CodeOfFlags(ParseMessage(raw).value.header, rcode);
  }

  lemma CodeOfFlags(query: Header, rcode: byte)
    requires rcode <= REFUSED
    ensures Rcode(ErrorHeader(query, rcode).flags) == rcode && ErrorHeader(query, rcode).flags >= FLAG_QR
  {
  }

  /** A reply answers its query: same identifier, response bit, and a size a client accepts. */
  ghost predicate SafeReply(raw: seq<byte>, reply: seq<byte>) {
    && HEADER_SIZE <= |raw| && HEADER_SIZE <= |reply| <= UDP_MAX_SIZE
    && ParseHeader(reply).value.id == ParseHeader(raw).value.id
    && ParseHeader(reply).value.flags >= FLAG_QR
  }

  const NO_CODE: byte := 16

  function ReplyCode(reply: seq<byte>): byte {
    if |reply| < HEADER_SIZE then NO_CODE else Rcode(U16(reply, 2))
  }

  /** Safety of one query, whatever the upstream server and the allocator do. */
  ghost predicate SafeOutcome(domains: set<seq<Label>>, raw: seq<byte>, memory: Memory, o: Outcome) {
    && (o.reply.Some? ==> SafeReply(raw, o.reply.value))
    && o.sent <= UPSTREAM_RETRIES
    && (o.filtered ==> o.sent == 0 && (o.reply.Some? ==> ReplyCode(o.reply.value) == NXDOMAIN))
    && (o.reply.Some? && !o.filtered && ReplyCode(o.reply.value) in {NOERROR, NXDOMAIN} ==> o.sent > 0)
    && (o.sent > 0 ==> MayGoUpstream(domains, raw, memory))
  }

  /** The first question asks for an address, and the name is not known to be blocked. */
  ghost predicate MayGoUpstream(domains: set<seq<Label>>, raw: seq<byte>, memory: Memory) {
    && ParseMessage(raw).Some?
    && var query := ParseMessage(raw).value;
       && query.questions != []
       && query.questions[0].qtype == TYPE_A
       && (memory.lookup ==> !Verdict(domains, query.questions[0].qname))
  }

  lemma ProcessIsSafe(domains: set<seq<Label>>, raw: seq<byte>, memory: Memory, up: Upstream)
    requires |raw| <= UDP_MAX_SIZE
    ensures SafeOutcome(domains, raw, memory, Process(domains, raw, memory, up))
  {
    if memory.parse && ParseMessage(raw).Some? {
      var query := ParseMessage(raw).value;
      var o := Process(domains, raw, memory, up);
      MessageSize(raw);
      ForwardIsSafe(raw, up);
      SentIff(domains, raw, memory, up);
      if o.reply.Some? && o.reply != Forward(raw, up).reply {
        var rcode :| rcode in {FORMERR, NOTIMPL, NXDOMAIN, SERVFAIL} && o.reply == ErrorReply(query, rcode, memory);
      }
      forall rcode | rcode in {FORMERR, NOTIMPL, NXDOMAIN, SERVFAIL} && ErrorReply(query, rcode, memory).Some?
        ensures SafeReply(raw, ErrorReply(query, rcode, memory).value)
        ensures ReplyCode(ErrorReply(query, rcode, memory).value) == rcode
      {
        ErrorReplyIsSafe(raw, rcode, memory);
      }
    }
  }

  lemma ForwardIsSafe(raw: seq<byte>, up: Upstream)
    ensures Forward(raw, up).sent <= UPSTREAM_RETRIES
    ensures Forward(raw, up).reply.Some? ==>
              Forward(raw, up).sent > 0 && SafeReply(raw, Forward(raw, up).reply.value)
  {
    ForwardMeaning(raw, up, []);
    if Forward(raw, up).reply.Some? {
      ForwardMeaning(raw, up, Forward(raw, up).reply.value);
    }
  }

  /**
   * Without allocation failures, a query that parses gets a reply exactly if its first question is
   * complete and has no pointer in its name, or it was allowed and an acceptable answer came from
   * upstream.
   */
  lemma RepliedIff(domains: set<seq<Label>>, raw: seq<byte>, up: Upstream)
    requires ParseMessage(raw).Some?
    ensures Process(domains, raw, Memory(true, true, true), up).reply.Some? <==>
            || (exists r :: PointerFree(raw, HEADER_SIZE, r) && EndOf(r) + 4 <= |raw|)
            || (MayGoUpstream(domains, raw, Memory(true, true, true)) && Forward(raw, up).reply.Some?)
  {
    MessageSize(raw);
    if QuestionEnd(raw).Some? {
      WalkersAgree(raw, QuestionEnd(raw).value);
    }
    if exists r :: PointerFree(raw, HEADER_SIZE, r) && EndOf(r) + 4 <= |raw| {
      var r :| PointerFree(raw, HEADER_SIZE, r) && EndOf(r) + 4 <= |raw|;
      WalkersAgree(raw, EndOf(r) + 4);
    }
  }

  /**
   * A query without questions is to be answered FORMERR, and is exactly if what follows its header
   * has the form of a question without pointers. With nothing behind the header it never is.
   */
  lemma NoQuestionsReplied(domains: set<seq<Label>>, raw: seq<byte>, memory: Memory, up: Upstream)
    requires ParseMessage(raw).Some? && ParseHeader(raw).value.qdcount == 0
    ensures Process(domains, raw, memory, up).reply.Some? <==>
            && memory.parse && memory.build
            && exists r :: PointerFree(raw, HEADER_SIZE, r) && EndOf(r) + 4 <= |raw|
    ensures |raw| == HEADER_SIZE ==> Process(domains, raw, memory, up).reply.None?
  {
    RepliedIff(domains, raw, up);
  }

  /**
   * How often a query is sent upstream: as often as the attempts say if it may go there at all, and
   * never otherwise. A lookup that runs out of memory lets blocked names through.
   */
  lemma SentIff(domains: set<seq<Label>>, raw: seq<byte>, memory: Memory, up: Upstream)
    ensures Process(domains, raw, memory, up).sent ==
            if memory.parse && MayGoUpstream(domains, raw, memory) then Forward(raw, up).sent else 0
  {
    if ParseMessage(raw).Some? {
      MessageSize(raw);
    }
  }

  /**
   * What a reply says: a query without questions is a format error, a first question of another
   * type is not implemented, a blocked name does not exist; an acceptable answer from upstream is
   * passed on as it is, and without one the server failed.
   */
  lemma ReplyMeaning(domains: set<seq<Label>>, raw: seq<byte>, memory: Memory, up: Upstream)
    requires |raw| <= UDP_MAX_SIZE && Process(domains, raw, memory, up).reply.Some?
    ensures ParseMessage(raw).Some?
    ensures var query := ParseMessage(raw).value;
            var reply := Process(domains, raw, memory, up).reply.value;
      && |query.questions| == query.header.qdcount
      && (query.questions == [] ==> ReplyCode(reply) == FORMERR)
      && (query.questions != [] && query.questions[0].qtype != TYPE_A ==> ReplyCode(reply) == NOTIMPL)
      && (query.questions != [] && query.questions[0].qtype == TYPE_A && !MayGoUpstream(domains, raw, memory) ==>
            ReplyCode(reply) == NXDOMAIN)
      && (MayGoUpstream(domains, raw, memory) ==>
            if Forward(raw, up).reply.Some? then reply == Forward(raw, up).reply.value
            else ReplyCode(reply) == SERVFAIL)
  {
    MessageSize(raw);
    var query := ParseMessage(raw).value;
    forall rcode | rcode in {FORMERR, NOTIMPL, NXDOMAIN, SERVFAIL} && ErrorReply(query, rcode, memory).Some?
      ensures ReplyCode(ErrorReply(query, rcode, memory).value) == rcode
    {
      ErrorReplyIsSafe(raw, rcode, memory);
    }
  }

  // ----- one query, byte by byte

  /** An error reply is the response with the code, unless memory or the form of the question is against it. */
  ghost predicate RepliesError(raw: seq<byte>, rcode: byte, memory: Memory, reply: Option<seq<byte>>) {
    match reply
    case Some(response) => memory.build && Responds(raw, rcode, response)
    case None => !memory.build || !exists r :: PointerFree(raw, 12, r) && EndOf(r) + 4 <= |raw|
  }

  lemma RepliesErrorIs(raw: seq<byte>, rcode: byte, memory: Memory)
    requires ParseMessage(raw).Some? && rcode <= 5
    ensures RepliesError(raw, rcode, memory, ErrorReply(ParseMessage(raw).value, rcode, memory))
  {
    var response := ErrorResponse(ParseMessage(raw).value, rcode);
    if response.Some? {
      ResponseMeaning(raw, rcode, response.value);
    } else if exists r :: PointerFree(raw, 12, r) && EndOf(r) + 4 <= |raw| {
      var r :| PointerFree(raw, 12, r) && EndOf(r) + 4 <= |raw|;
      WalkersAgree(raw, EndOf(r) + 4);
    }
  }

  /** The question with this reading asks for an address: its type bytes are 0 and 1. */
  ghost predicate AsksAddress(raw: seq<byte>, r: Reading)
    requires EndOf(r) + 4 <= |raw|
  {
    raw[EndOf(r)..EndOf(r) + 2] == [0, 1]
  }

  /**
   * What becomes of the bytes of a query whose questions have these readings: format error without
   * questions, not implemented if the type of the first one is not that of an address, name error
   * and no sending if the filter stops it, and otherwise the answer from upstream or server failure.
   */
  ghost predicate Treats(domains: set<seq<Label>>, raw: seq<byte>, rs: seq<Reading>, memory: Memory, up: Upstream,
                         o: Outcome)
    requires MessageIs(raw, rs)
  {
    if rs == [] then
      !o.filtered && o.sent == 0 && RepliesError(raw, 1, memory, o.reply)
    else if !AsksAddress(raw, rs[0]) then
      !o.filtered && o.sent == 0 && RepliesError(raw, 4, memory, o.reply)
    else if memory.lookup && Verdict(domains, CStr(Join(Labels(raw, rs[0])))) then
      o.filtered && o.sent == 0 && RepliesError(raw, 3, memory, o.reply)
    else
      && !o.filtered && o.sent == Forward(raw, up).sent
      && if Forward(raw, up).reply.Some? then o.reply == Forward(raw, up).reply
         else RepliesError(raw, 2, memory, o.reply)
  }

  /** Every message that can be parsed is treated like this; any other is dropped without a trace. */
  lemma QueryMeaning(domains: set<seq<Label>>, raw: seq<byte>, memory: Memory, up: Upstream)
    ensures memory.parse ==>
              forall rs :: MessageIs(raw, rs) ==>
                Treats(domains, raw, rs, memory, up, Process(domains, raw, memory, up))
    ensures !memory.parse || !(exists rs :: MessageIs(raw, rs)) ==>
              Process(domains, raw, memory, up) == Outcome(None, 0, false)
  {
    MessageMeaning(raw);
    if memory.parse {
      forall rs | MessageIs(raw, rs)
        ensures Treats(domains, raw, rs, memory, up, Process(domains, raw, memory, up))
      {
        TreatedAsRead(domains, raw, rs, memory, up);
      }
    }
  }

  lemma TreatedAsRead(domains: set<seq<Label>>, raw: seq<byte>, rs: seq<Reading>, memory: Memory, up: Upstream)
    requires MessageIs(raw, rs) && memory.parse
    ensures Treats(domains, raw, rs, memory, up, Process(domains, raw, memory, up))
  {
    MessageIsRead(raw, rs);
    RepliesErrorIs(raw, FORMERR, memory);
    RepliesErrorIs(raw, NOTIMPL, memory);
    RepliesErrorIs(raw, NXDOMAIN, memory);
    RepliesErrorIs(raw, SERVFAIL, memory);
    if rs != [] {
      FirstQuestion(raw, rs);
    }
  }

  lemma FirstQuestion(raw: seq<byte>, rs: seq<Reading>)
    requires MessageIs(raw, rs) && rs != []
    ensures ParseMessage(raw).Some? && |ParseMessage(raw).value.questions| == |rs|
    ensures var first := ParseMessage(raw).value.questions[0];
      && first.qname == CStr(Join(Labels(raw, rs[0])))
      && (first.qtype == TYPE_A <==> AsksAddress(raw, rs[0]))
  {
    MessageIsRead(raw, rs);
    assert SaysAt(raw, rs, ParseMessage(raw).value.questions, 0);
    AddressType(raw, EndOf(rs[0]));
  }

  lemma AddressType(raw: seq<byte>, at: nat)
    requires at + 2 <= |raw|
    ensures Number(raw[at], raw[at + 1]) == TYPE_A <==> raw[at..at + 2] == [0, 1]
  {
    assert raw[at..at + 2] == [raw[at], raw[at + 1]];
  }

  // ----- a run

  datatype Delivery = SendError | Partial | Delivered

  datatype Event =
    | Quiet          // the wait for a datagram timed out or was interrupted
    | ReceiveError
    | Datagram(data: seq<byte>, memory: Memory, up: Upstream, delivery: Delivery)

  datatype Counters = Counters(queries: nat, blocked: nat, forwarded: nat, errors: nat)

  /** One query with everything that came of it. */
  datatype Exchange = Exchange(raw: seq<byte>, memory: Memory, up: Upstream, outcome: Outcome, delivery: Delivery)

  datatype State = State(counters: Counters, log: seq<Exchange>)

  const START := State(Counters(0, 0, 0, 0), [])

  ghost function Step(domains: set<seq<Label>>, s: State, e: Event): State {
    match e
    case Quiet => s
    case ReceiveError => s.(counters := s.counters.(errors := s.counters.errors + 1))
    case Datagram(data, memory, up, delivery) =>
      var raw := Cut(data);
      if |raw| < HEADER_SIZE then s.(counters := s.counters.(errors := s.counters.errors + 1))
      else
        var o := Process(domains, raw, memory, up);
        State(Count(s.counters, o, delivery), s.log + [Exchange(raw, memory, up, o, delivery)])
  }

  function Count(c: Counters, o: Outcome, delivery: Delivery): Counters {
    if o.reply.None? then Counters(c.queries + 1, c.blocked, c.forwarded, c.errors + 1)
    else
      var code := ReplyCode(o.reply.value);
      Counters(c.queries + 1,
               if code == NXDOMAIN then c.blocked + 1 else c.blocked,
               if code == NOERROR then c.forwarded + 1 else c.forwarded,
               if delivery.SendError? then c.errors + 1 else c.errors)
  }

  /** The server's state after a sequence of events. */
  ghost function After(domains: set<seq<Label>>, events: seq<Event>): State {
    if events == [] then START
    else Step(domains, After(domains, events[..|events| - 1]), events[|events| - 1])
  }

  /** The events that bring a query: datagrams with a header. */
  function Arrivals(events: seq<Event>): (arrivals: seq<Event>)
    ensures forall k :: 0 <= k < |arrivals| ==> arrivals[k].Datagram? && |arrivals[k].data| >= 12
  {
    if events == [] then []
    else
      var n := |events| - 1;
      Arrivals(events[..n]) + if events[n].Datagram? && |events[n].data| >= 12 then [events[n]] else []
  }

  /** The exchange for a datagram: what the receive buffer holds of it, and what becomes of that. */
  ghost predicate ExchangeFor(domains: set<seq<Label>>, e: Event, x: Exchange)
    requires e.Datagram?
  {
    && x.raw == (if |e.data| > 512 then e.data[..512] else e.data)
    && x.memory == e.memory && x.up == e.up && x.delivery == e.delivery
    && x.outcome == Process(domains, x.raw, e.memory, e.up)
  }

  /** Every arriving query is processed, once and in order, and nothing else is. */
  lemma {:induction false} EveryArrivalIsProcessed(domains: set<seq<Label>>, events: seq<Event>)
    ensures var s := After(domains, events);
      && |s.log| == |Arrivals(events)| == s.counters.queries
      && forall k :: 0 <= k < |s.log| ==> ExchangeFor(domains, Arrivals(events)[k], s.log[k])
  {
    if events != [] {
      EveryArrivalIsProcessed(domains, events[..|events| - 1]);
    }
  }

  /**
   * Every run, from the bytes that arrive: the k-th arrival, cut to 512 bytes, is treated as a query
   * with its readings is treated, and dropped if it cannot be read as a message.
   */
  lemma RunTreatsArrivals(domains: set<seq<Label>>, events: seq<Event>, k: nat, rs: seq<Reading>)
    requires k < |Arrivals(events)|
    ensures |After(domains, events).log| == |Arrivals(events)|
    ensures var e, o := Arrivals(events)[k], After(domains, events).log[k].outcome;
            var raw := if |e.data| > 512 then e.data[..512] else e.data;
      && (e.memory.parse && MessageIs(raw, rs) ==> Treats(domains, raw, rs, e.memory, e.up, o))
      && (!e.memory.parse || !(exists rs' :: MessageIs(raw, rs')) ==> o == Outcome(None, 0, false))
  {
    EveryArrivalIsProcessed(domains, events);
    var e, x := Arrivals(events)[k], After(domains, events).log[k];
    assert ExchangeFor(domains, e, x);
    QueryMeaning(domains, x.raw, e.memory, e.up);
  }

  /** An event is among the arrivals as often as it is among the events, if it brings a query. */
  lemma {:induction false} ArrivalsAreAll(events: seq<Event>, e: Event)
    ensures multiset(Arrivals(events))[e] ==
            if e.Datagram? && |e.data| >= 12 then multiset(events)[e] else 0
  {
    if events != [] {
      var n := |events| - 1;
      ArrivalsAreAll(events[..n], e);
      assert events == events[..n] + [events[n]];
      OneMoreEvent(events[..n], events[n], e);
      OneMoreEvent(Arrivals(events[..n]), events[n], e);
    }
  }

  lemma OneMoreEvent(events: seq<Event>, last: Event, e: Event)
    ensures multiset(events + [last])[e] == multiset(events)[e] + if last == e then 1 else 0
  {
  }

  /** Every exchange of every run is the processing of a real query, and safe. */
  lemma {:induction false} RunIsSafe(domains: set<seq<Label>>, events: seq<Event>)
    ensures forall x :: x in After(domains, events).log ==>
              && HEADER_SIZE <= |x.raw| <= UDP_MAX_SIZE
              && x.outcome == Process(domains, x.raw, x.memory, x.up)
              && SafeOutcome(domains, x.raw, x.memory, x.outcome)
  {
    if events != [] {
      RunIsSafe(domains, events[..|events| - 1]);
      var e := events[|events| - 1];
      if e.Datagram? {
        ProcessIsSafe(domains, Cut(e.data), e.memory, e.up);
      }
    }
  }

  /** What an exchange comes to, as far as the counters are concerned. */
  datatype Kind = Unanswered | Filtered | UpstreamNxDomain | UpstreamNoError | OtherCode

  function KindOf(o: Outcome): Kind {
    if o.reply.None? then Unanswered
    else if o.filtered then Filtered
    else if |o.reply.value| < 12 then OtherCode
    else if o.reply.value[3] % 16 == 3 then UpstreamNxDomain
    else if o.reply.value[3] % 16 == 0 then UpstreamNoError
    else OtherCode
  }

  ghost function Tally(log: seq<Exchange>, kind: Kind): nat {
    if log == [] then 0
    else Tally(log[..|log| - 1], kind) + if KindOf(log[|log| - 1].outcome) == kind then 1 else 0
  }

  lemma TallySnoc(log: seq<Exchange>, x: Exchange, kind: Kind)
    ensures Tally(log + [x], kind) == Tally(log, kind) + if KindOf(x.outcome) == kind then 1 else 0
  {
    assert (log + [x])[..|log|] == log;
  }

  ghost function TallyErrors(log: seq<Exchange>): nat {
    if log == [] then 0
    else
      var x := log[|log| - 1];
      TallyErrors(log[..|log| - 1]) + if x.outcome.reply.None? || x.delivery.SendError? then 1 else 0
  }

  /** Events that never become queries: failed receives and datagrams too short for a header. */
  ghost function Unusable(events: seq<Event>): nat {
    if events == [] then 0
    else
      var e := events[|events| - 1];
      Unusable(events[..|events| - 1]) + if e.ReceiveError? || (e.Datagram? && |e.data| < HEADER_SIZE) then 1 else 0
  }

  /** The counters say exactly which kinds of exchanges the log holds. */
  ghost predicate Conserved(s: State, unusable: nat) {
    && s.counters.queries == |s.log|
    && s.counters.queries ==
         Tally(s.log, Unanswered) + s.counters.blocked + s.counters.forwarded + Tally(s.log, OtherCode)
    && s.counters.blocked == Tally(s.log, Filtered) + Tally(s.log, UpstreamNxDomain)
    && s.counters.forwarded == Tally(s.log, UpstreamNoError)
    && s.counters.errors == unusable + TallyErrors(s.log)
  }

  /**
   * Conservation over every run: each query is unanswered, counted as blocked, counted as forwarded
   * or answered with another code; "blocked" counts the filtered queries and the NXDOMAIN answers
   * from upstream together.
   */
  lemma {:induction false} RunIsConserved(domains: set<seq<Label>>, events: seq<Event>)
    ensures Conserved(After(domains, events), Unusable(events))
  {
    if events != [] {
      var n := |events| - 1;
      RunIsConserved(domains, events[..n]);
      if events[n].Datagram? && |Cut(events[n].data)| >= HEADER_SIZE {
        var s := After(domains, events[..n]);
        var raw := Cut(events[n].data);
        var o := Process(domains, raw, events[n].memory, events[n].up);
        ProcessIsSafe(domains, raw, events[n].memory, events[n].up);
        ExchangeIsConserved(s, Unusable(events[..n]),
                            Exchange(raw, events[n].memory, events[n].up, o, events[n].delivery));
      }
    }
  }

  lemma ExchangeIsConserved(s: State, unusable: nat, x: Exchange)
    requires Conserved(s, unusable)
    requires x.outcome.filtered && x.outcome.reply.Some? ==> ReplyCode(x.outcome.reply.value) == NXDOMAIN
    ensures Conserved(State(Count(s.counters, x.outcome, x.delivery), s.log + [x]), unusable)
  {
    CountsByKind(s.counters, x.outcome, x.delivery);
    forall kind: Kind
      ensures Tally(s.log + [x], kind) == Tally(s.log, kind) + if KindOf(x.outcome) == kind then 1 else 0
    {
      TallySnoc(s.log, x, kind);
    }
    assert (s.log + [x])[..|s.log|] == s.log;
  }

  // What the counters make of one outcome is up to its kind.
  lemma CountsByKind(c: Counters, o: Outcome, delivery: Delivery)
    requires o.filtered && o.reply.Some? ==> ReplyCode(o.reply.value) == NXDOMAIN
    ensures Count(c, o, delivery) ==
            Counters(c.queries + 1,
                     c.blocked + (if KindOf(o) in {Filtered, UpstreamNxDomain} then 1 else 0),
                     c.forwarded + (if KindOf(o) == UpstreamNoError then 1 else 0),
                     c.errors + if o.reply.None? || delivery.SendError? then 1 else 0)
  {
    if o.reply.Some? && |o.reply.value| >= HEADER_SIZE {
      CodeBits(o.reply.value);
    }
  }

  lemma CodeBits(reply: seq<byte>)
    requires |reply| >= HEADER_SIZE
    ensures ReplyCode(reply) == reply[3] % 16
  {
    assert U16(reply, 2) == 16 * (16 * reply[2] as int + reply[3] as int / 16) + reply[3] % 16;
  }

  // ----- the server as it runs

  class DnsServer {
    const filter: Filter
    var queryCount: nat
    var blockedCount: nat
    var forwardedCount: nat
    var errorCount: nat
    ghost var log: seq<Exchange>

    ghost predicate Valid()
      reads this, filter, filter.Repr
    {
      filter.Valid() && this !in filter.Repr
    }

    constructor (filter: Filter)
      requires filter.Valid()
      ensures this.filter == filter && Valid() && Current() == START
    {
      this.filter := filter;
      queryCount, blockedCount, forwardedCount, errorCount := 0, 0, 0, 0;
      log := [];
    }

    ghost function Current(): State
      reads this
    {
      State(Counters(queryCount, blockedCount, forwardedCount, errorCount), log)
    }

    /**
     * process_dns_query(). `sent` lists what goes out to the upstream server, `filtered` whether the
     * filter stopped it.
     */
    method ProcessDnsQuery(raw: seq<byte>, memory: Memory, up: Upstream)
      returns (response: Option<seq<byte>>, ghost sent: seq<seq<byte>>, ghost filtered: bool)
      requires filter.Valid()
      ensures response == Process(filter.domains, raw, memory, up).reply
      ensures |sent| == Process(filter.domains, raw, memory, up).sent
      ensures filtered == Process(filter.domains, raw, memory, up).filtered
      ensures forall s :: s in sent ==> s == raw
    {
      sent, filtered := [], false;
      var parsed := ParseDnsMessage(raw, memory.parse);
      if parsed.None? {
        return None, sent, filtered;
      }
      var query := parsed.value;
      MessageSize(raw);
      if query.header.qdcount == 0 {
        response := Answer(query, FORMERR, memory);
        return;
      }
      if query.questions[0].qtype != TYPE_A {
        response := Answer(query, NOTIMPL, memory);
        return;
      }
      var blocked := LookUp(query.questions[0].qname, memory);
      if blocked {
        filtered := true;
        response := Answer(query, NXDOMAIN, memory);
        return;
      }
      response, sent := ForwardQuery(query.raw, up);
      if response.None? {
        response := Answer(query, SERVFAIL, memory);
      }
    }

    /** The verdict of the filter, with all or none of the allocations of the lookup. */
    method LookUp(name: CString, memory: Memory) returns (blocked: bool)
      requires filter.Valid()
      ensures blocked <==> memory.lookup && Verdict(filter.domains, name)
    {
      var alloc: Allocator := _ => memory.lookup;
      blocked := filter.IsDomainBlocked(name, alloc);
      if Verdict(filter.domains, name) {
        var n := |LabelList(name).value| + 1;
        if memory.lookup {
          PlentyIsEnough(alloc, n);
        } else {
          NotEnough(alloc, 0, n);
        }
      }
    }

    method Answer(query: Message, rcode: byte, memory: Memory) returns (response: Option<seq<byte>>)
      ensures response == ErrorReply(query, rcode, memory)
    {
      var built := BuildErrorResponse(query, rcode, memory.build);
      response := if built.Some? then Some(built.value[..]) else None;
    }

    /** The loop of run_server() over what it meets until it is told to stop. */
    method RunServer(events: seq<Event>)
      requires Valid() && Current() == START
      modifies this
      ensures Valid() && Current() == After(filter.domains, events)
    {
      var i := 0;
      while i < |events|
        invariant 0 <= i <= |events| && Valid()
        invariant Current() == After(filter.domains, events[..i])
      {
        assert events[..i + 1][..i] == events[..i];
        Handle(events[i]);
        i := i + 1;
      }
      assert events[..i] == events;
    }

    /** One round of the loop. */
    method Handle(e: Event)
      requires Valid()
      modifies this
      ensures Valid() && Current() == Step(filter.domains, old(Current()), e)
    {
      match e
      case Quiet =>
      case ReceiveError =>
        errorCount := errorCount + 1;
      case Datagram(data, memory, up, delivery) =>
        var raw := Cut(data);
        if |raw| < HEADER_SIZE {
          errorCount := errorCount + 1;
          return;
        }
        queryCount := queryCount + 1;
        var response, sent, filtered := ProcessDnsQuery(raw, memory, up);
        log := log + [Exchange(raw, memory, up, Outcome(response, |sent|, filtered), delivery)];
        Account(response, delivery);
    }

    /** The statistics of one query. */
    method Account(response: Option<seq<byte>>, delivery: Delivery)
      requires queryCount > 0
      modifies this`blockedCount, this`forwardedCount, this`errorCount
      ensures forall o: Outcome :: o.reply == response ==>
                Current().counters ==
                Count(Counters(queryCount - 1, old(blockedCount), old(forwardedCount), old(errorCount)), o, delivery)
    {
      if response.None? {
        errorCount := errorCount + 1;
        return;
      }
      if |response.value| >= HEADER_SIZE {
        var rcode := Rcode(U16(response.value, 2));
        if rcode == NXDOMAIN {
          blockedCount := blockedCount + 1;
        } else if rcode == NOERROR {
          forwardedCount := forwardedCount + 1;
        }
      }
      if delivery.SendError? {
        errorCount := errorCount + 1;
      }
    }
  }
}
