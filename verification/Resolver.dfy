/** Passing a query on to the upstream server: up to three attempts, then checks on the answer. */
module Resolver {
  import opened Bytes
  import opened Parser
  import opened Builder

  const UPSTREAM_RETRIES := 3

  /** What one attempt meets: the outcome of the send and, after a complete send, of the receive. */
  datatype Attempt = SendFailed | SentPartly | NoAnswer | Answer(data: seq<byte>)

  /**
   * The upstream server as one query meets it. `ready` tells whether everything before the attempts
   * succeeds: address, socket, time limit and receive buffer. Attempts not listed get no answer.
   */
  datatype Upstream = Upstream(ready: bool, attempts: seq<Attempt>)

  datatype Forwarded = Forwarded(reply: Option<seq<byte>>, sent: nat)

  function AttemptAt(up: Upstream, k: nat): Attempt {
    if k < |up.attempts| then up.attempts[k] else NoAnswer
  }

  /** A datagram as far as a receive buffer of 512 bytes holds it. */
  function Cut(data: seq<byte>): (cut: seq<byte>)
    ensures |data| <= 512 ==> cut == data
    ensures |data| > 512 ==> |cut| == 512 && cut <= data
  {
    if |data| <= UDP_MAX_SIZE then data else data[..UDP_MAX_SIZE]
  }

  function Received(a: Attempt): Option<seq<byte>> {
    match a
    case Answer(data) => Some(Cut(data))
    case _ => None
  }

  /** The first answer among the attempts from the k-th on, and how often the query is sent. */
  function Attempts(up: Upstream, k: nat): Forwarded
    decreases UPSTREAM_RETRIES - k
  {
    if k >= UPSTREAM_RETRIES then Forwarded(None, 0)
    else
      var now := if AttemptAt(up, k).SendFailed? then 0 else 1;
      match Received(AttemptAt(up, k))
      case Some(data) => Forwarded(Some(data), now)
      case None => var later := Attempts(up, k + 1); later.(sent := later.sent + now)
  }

  /** An answer is passed on if it has a header with the query's identifier and the response bit. */
  predicate Acceptable(raw: seq<byte>, data: seq<byte>) {
    match (ParseHeader(raw), ParseHeader(data))
    case (Some(q), Some(r)) => q.id == r.id && r.flags >= FLAG_QR
    case _ => false
  }

  function Forward(raw: seq<byte>, up: Upstream): Forwarded {
    if raw == [] || !up.ready then Forwarded(None, 0)
    else
      var f := Attempts(up, 0);
      if f.reply.Some? && Acceptable(raw, f.reply.value) then f else f.(reply := None)
  }

  predicate AnsweredAt(up: Upstream, k: nat) {
    k < |up.attempts| && up.attempts[k].Answer?
  }

  /** The first of the three attempts that is answered is the n-th, and `data` is what the buffer holds of it. */
  ghost predicate FirstAnswer(up: Upstream, n: nat, data: seq<byte>) {
    && n < 3 && AnsweredAt(up, n) && (forall j :: 0 <= j < n ==> !AnsweredAt(up, j))
    && var sent := up.attempts[n].data;
       data == if |sent| > 512 then sent[..512] else sent
  }

  lemma {:induction false} AttemptsMeaning(up: Upstream, k: nat, data: seq<byte>)
    requires k <= UPSTREAM_RETRIES && forall j :: 0 <= j < k ==> !AnsweredAt(up, j)
    ensures Attempts(up, k).reply == Some(data) <==> exists n :: k <= n && FirstAnswer(up, n, data)
    ensures Attempts(up, k).sent <= UPSTREAM_RETRIES - k
    decreases UPSTREAM_RETRIES - k
  {
    if k < UPSTREAM_RETRIES {
      if !AnsweredAt(up, k) {
        AttemptsMeaning(up, k + 1, data);
        assert !FirstAnswer(up, k, data);
      } else if Received(AttemptAt(up, k)) == Some(data) {
        assert FirstAnswer(up, k, data);
      }
    }
  }

  /**
   * What is passed on is the first answer within three attempts, cut to 512 bytes, and only if it
   * has a header with the query's identifier and the response bit: a first answer that has not is
   * final, no later attempt is made. Nothing else in the answer matters.
   */
  lemma ForwardMeaning(raw: seq<byte>, up: Upstream, data: seq<byte>)
    ensures Forward(raw, up).reply == Some(data) <==>
            && up.ready
            && |raw| >= 12 && |data| >= 12
            && data[0] == raw[0] && data[1] == raw[1] && data[2] >= 128
            && exists n: nat :: FirstAnswer(up, n, data)
    ensures Forward(raw, up).sent <= UPSTREAM_RETRIES
    ensures Forward(raw, up).reply == Some(data) ==> HEADER_SIZE <= |data| <= UDP_MAX_SIZE
  {
    AttemptsMeaning(up, 0, data);
    AcceptableBytes(raw, data);
  }

  lemma AcceptableBytes(raw: seq<byte>, data: seq<byte>)
    ensures Acceptable(raw, data) <==>
            |raw| >= 12 && |data| >= 12 && data[0] == raw[0] && data[1] == raw[1] && data[2] >= 128
  {
    if |raw| >= 12 && |data| >= 12 {
      assert U16(data, 0) == U16(raw, 0) <==> data[0] == raw[0] && data[1] == raw[1];
    }
  }

  /** The attempts from the k-th up to the n-th whose send does not fail. */
  function SendsBetween(up: Upstream, k: nat, n: nat): set<nat> {
    set j | k <= j < n && !(j < |up.attempts| && up.attempts[j].SendFailed?)
  }

  /** The attempts end with the first answer, at the latest with the third. */
  ghost predicate Made(up: Upstream, n: nat) {
    && n <= 3
    && (forall j :: 0 <= j < n - 1 ==> !AnsweredAt(up, j))
    && (n == 3 || (n > 0 && AnsweredAt(up, n - 1)))
  }

  lemma {:induction false} AttemptsSend(up: Upstream, k: nat) returns (n: nat)
    requires k < UPSTREAM_RETRIES && forall j :: 0 <= j < k ==> !AnsweredAt(up, j)
    ensures k < n && Made(up, n) && Attempts(up, k).sent == |SendsBetween(up, k, n)|
    decreases UPSTREAM_RETRIES - k
  {
    var own := if AttemptAt(up, k).SendFailed? then {} else {k};
    if AnsweredAt(up, k) || k + 1 == UPSTREAM_RETRIES {
      n := k + 1;
      assert SendsBetween(up, k, n) == own;
    } else {
      n := AttemptsSend(up, k + 1);
      assert SendsBetween(up, k, n) == own + SendsBetween(up, k + 1, n);
    }
  }

  /** The query goes out exactly once for each attempt made whose send does not fail. */
  lemma ForwardSends(raw: seq<byte>, up: Upstream) returns (n: nat)
    ensures Made(up, n) && forall m :: Made(up, m) ==> m == n
    ensures Forward(raw, up).sent == if raw == [] || !up.ready then 0 else |SendsBetween(up, 0, n)|
  {
    n := AttemptsSend(up, 0);
  }

  /** recvfrom() into a fixed buffer: the number of bytes stored, or -1. */
  method Receive(a: Attempt, buffer: array<byte>) returns (n: int)
    requires buffer.Length == UDP_MAX_SIZE
    modifies buffer
    ensures Received(a).None? <==> n == -1
    ensures Received(a).Some? ==> 0 <= n <= UDP_MAX_SIZE && buffer[..n] == Received(a).value
  {
    if !a.Answer? {
      return -1;
    }
    n := 0;
    while n < |a.data| && n < UDP_MAX_SIZE
      invariant 0 <= n <= |a.data| && n <= UDP_MAX_SIZE && buffer[..n] == a.data[..n]
    {
      buffer[n] := a.data[n];
      n := n + 1;
    }
  }

  /** forward_query(). `sent` lists what goes out to the upstream server. */
  method ForwardQuery(raw: seq<byte>, up: Upstream) returns (reply: Option<seq<byte>>, ghost sent: seq<seq<byte>>)
    ensures reply == Forward(raw, up).reply
    ensures |sent| == Forward(raw, up).sent && forall s :: s in sent ==> s == raw
  {
    sent := [];
    if raw == [] {
      return None, sent;
    }
    if !up.ready {
      return None, sent;
    }
    var buffer := new byte[UDP_MAX_SIZE];
    var received := -1;
    var attempt := 0;
    while attempt < UPSTREAM_RETRIES
      invariant 0 <= attempt <= UPSTREAM_RETRIES && received == -1
      invariant forall s :: s in sent ==> s == raw
      invariant Attempts(up, 0) == Forwarded(Attempts(up, attempt).reply, |sent| + Attempts(up, attempt).sent)
    {
      var met := AttemptAt(up, attempt);
      if met.SendFailed? {
        attempt := attempt + 1;
        continue;
      }
      sent := sent + [raw];
      if met.SentPartly? {
        attempt := attempt + 1;
        continue;
      }
      received := Receive(met, buffer);
      if received >= 0 {
        break;
      }
      attempt := attempt + 1;
    }
    if received < 0 {
      return None, sent;
    }
    if received < HEADER_SIZE {
      return None, sent;
    }
    var query := ParseHeader(raw);
    if query.None? {
      return None, sent;
    }
    var response := ParseHeader(buffer[..received]);
    if response.None? {
      return None, sent;
    }
    if query.value.id != response.value.id {
      return None, sent;
    }
    if response.value.flags < FLAG_QR {
      return None, sent;
    }
    reply := Some(buffer[..received]);
  }
}
