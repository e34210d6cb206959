/**
 * The relay as a step system: clients, one server and a network that may drop, duplicate, reorder,
 * reflect or invent packets, as long as it cannot forge the AEAD.
 */
module Protocol {
  import opened Wrappers
  import opened Bytes
  import opened Models
  import opened Aead
  import opened Replay
  import opened Pipeline
  import opened Forwarder
  import opened Endpoint
  import opened Client

  /** The two ends, and how far below an earlier reading the server's clock may read. */
  datatype Config = Config(lib: Libraries, client: Settings, server: Settings, maxBytes: nat, slip: nat)

  /** A request a client sealed and posted. */
  datatype Sent = Sent(request: RelayRequest, client: nat, packet: bytes, stamp: Stamp)

  /** A server handler between its awaits; `call` numbers the replay check that let its packet in. */
  datatype Handler =
    | Decoded(request: RelayRequest, packet: bytes, call: nat)
    | Replying(reply: Message)
    | Finished

  datatype Forwarded = Forwarded(request: RelayRequest, packet: bytes, call: nat, upstream: Upstream, reply: Message)

  /** A reply the server sealed. */
  datatype Sealed = Sealed(reply: Message, packet: bytes, stamp: Stamp)

  /** What a send returned to its caller, and the packet it came in. */
  datatype Returned = Returned(reply: Message, packet: bytes)

  datatype State = State(
    sent: map<string, Sent>,
    waiting: set<string>,
    clientSeen: map<nat, Seen>,
    serverSeen: Seen,
    calls: seq<Call>,
    handlers: map<nat, Handler>,
    forwards: seq<Forwarded>,
    replies: seq<Sealed>,
    returned: map<string, Returned>)

  const INIT: State := State(map[], {}, map[], map[], [], map[], [], [], map[])

  datatype Event =
    | Send(client: nat, request: RelayRequest, stamp: Stamp)
    | Receive(handler: nat, packet: bytes, nowMs: int)
    | ForwardUp(handler: nat, upstream: Upstream)
    | Reply(handler: nat, stamp: Stamp)
    | Accept(requestId: string, packet: bytes, nowMs: int)
    | Abandon(requestId: string)

  /** Every packet a key holder sealed so far. */
  ghost function Log(sent: map<string, Sent>, replies: seq<Sealed>): set<bytes> {
    (set id | id in sent :: sent[id].packet) + (set k | k in replies :: k.packet)
  }

  function ClientTable(s: State, client: nat): Seen {
    if client in s.clientSeen then s.clientSeen[client] else map[]
  }

  ghost predicate ClockMayRead(cfg: Config, s: State, nowMs: int) {
    forall c :: c in s.calls ==> nowMs >= c.nowMs - cfg.slip
  }

  /**
   * When a step may happen. Request ids are fresh, the server's clock slips by no more than it may,
   * a delivered packet is arbitrary but not a forgery, and the server decodes bodies within its limit.
   */
  ghost predicate Enabled(cfg: Config, s: State, e: Event) {
    match e
    case Send(_, request, stamp) =>
      && ValidRequest(request) && request.requestId !in s.sent
      && EncodeMessage(cfg.lib, cfg.client, Request(request), stamp).Ok?
    case Receive(h, packet, nowMs) =>
      && h !in s.handlers && ClockMayRead(cfg, s, nowMs) && |packet| <= cfg.server.maxCiphertext
      && Unforged(cfg.lib.cipher, Log(s.sent, s.replies), packet)
    case ForwardUp(h, _) => h in s.handlers && s.handlers[h].Decoded?
    case Reply(h, _) => h in s.handlers && s.handlers[h].Replying?
    case Accept(id, packet, _) => id in s.waiting && id in s.sent
      && Unforged(cfg.lib.cipher, Log(s.sent, s.replies), packet)
    case Abandon(id) => id in s.waiting
  }

  ghost function Apply(cfg: Config, s: State, e: Event): State
    requires Enabled(cfg, s, e)
  {
    match e
    case Send(_, _, _) => ApplySend(cfg, s, e)
    case Receive(_, _, _) => ApplyReceive(cfg, s, e)
    case ForwardUp(_, _) => ApplyForward(cfg, s, e)
    case Reply(_, _) => ApplyReply(cfg, s, e)
    case Accept(_, _, _) => ApplyAccept(cfg, s, e)
    case Abandon(id) => s.(waiting := s.waiting - {id})
  }

  ghost function ApplySend(cfg: Config, s: State, e: Event): State
    requires e.Send? && Enabled(cfg, s, e)
  {
    var packet := EncodeMessage(cfg.lib, cfg.client, Request(e.request), e.stamp).value;
    s.(sent := s.sent[e.request.requestId := Sent(e.request, e.client, packet, e.stamp)],
       waiting := s.waiting + {e.request.requestId})
  }

  /** The replay check a decoding attempt makes: one if the packet opens. */
  ghost function NewCalls(cfg: Config, packet: bytes, nowMs: int): seq<Call> {
    match OpenPacket(cfg.lib.cipher, packet, cfg.server.maxCiphertext)
    case Err(_) => []
    case Ok(o) => [CallOf(o, nowMs)]
  }

  ghost function ApplyReceive(cfg: Config, s: State, e: Event): State
    requires e.Receive? && Enabled(cfg, s, e)
  {
    var (r, seen) := ServerDecode(cfg.lib, cfg.server, s.serverSeen, e.packet, e.nowMs);
    var handler := match r
      case Ok(request) => Decoded(request, e.packet, |s.calls|)
      case Err(error) => Replying(Error(ErrorReply(error, None)));
    s.(serverSeen := seen,
       calls := s.calls + NewCalls(cfg, e.packet, e.nowMs),
       handlers := s.handlers[e.handler := handler])
  }

  ghost function ApplyForward(cfg: Config, s: State, e: Event): State
    requires e.ForwardUp? && Enabled(cfg, s, e)
  {
    var d := s.handlers[e.handler];
    var reply := ReplyTo(cfg.maxBytes, d.request, e.upstream);
    s.(forwards := s.forwards + [Forwarded(d.request, d.packet, d.call, e.upstream, reply)],
       handlers := s.handlers[e.handler := Replying(reply)])
  }

  ghost function ApplyReply(cfg: Config, s: State, e: Event): State
    requires e.Reply? && Enabled(cfg, s, e)
  {
    var reply := s.handlers[e.handler].reply;
    var packet := EncodeMessage(cfg.lib, cfg.server, reply, e.stamp);
    s.(handlers := s.handlers[e.handler := Finished],
       replies := s.replies + if packet.Ok? then [Sealed(reply, packet.value, e.stamp)] else [])
  }

  ghost function ApplyAccept(cfg: Config, s: State, e: Event): State
    requires e.Accept? && Enabled(cfg, s, e)
  {
    var sent := s.sent[e.requestId];
    var (r, seen) := AcceptReply(cfg.lib, cfg.client, ClientTable(s, sent.client), sent.request, e.packet, e.nowMs);
    s.(waiting := s.waiting - {e.requestId},
       clientSeen := s.clientSeen[sent.client := seen],
       returned := if r.Ok? then s.returned[e.requestId := Returned(r.value, e.packet)] else s.returned)
  }

  // ---- Runs --------------------------------------------------------------

  ghost predicate IsRun(cfg: Config, s: State, events: seq<Event>)
    decreases |events|
  {
    events == [] || (Enabled(cfg, s, events[0]) && IsRun(cfg, Apply(cfg, s, events[0]), events[1..]))
  }

  ghost function StateAfter(cfg: Config, s: State, events: seq<Event>): State
    requires IsRun(cfg, s, events)
    decreases |events|
  {
    if events == [] then s else StateAfter(cfg, Apply(cfg, s, events[0]), events[1..])
  }

  // ---- The steps are the handler's own -----------------------------------

  /** The steps of one handler taken without interleaving, up to its reply. */
  ghost function HandlerState(cfg: Config, s: State, h: nat, packet: bytes, nowMs: int, u: Upstream): (s': State)
    requires Enabled(cfg, s, Receive(h, packet, nowMs))
    ensures h in s'.handlers && s'.handlers[h].Replying?
  {
    var s1 := ApplyReceive(cfg, s, Receive(h, packet, nowMs));
    if s1.handlers[h].Decoded? then ApplyForward(cfg, s1, ForwardUp(h, u)) else s1
  }

  lemma HandlerAnswers(cfg: Config, s: State, h: nat, packet: bytes, nowMs: int, u: Upstream)
    requires Enabled(cfg, s, Receive(h, packet, nowMs))
    ensures var (decoded, seen) := ServerDecode(cfg.lib, cfg.server, s.serverSeen, packet, nowMs);
      var s2 := HandlerState(cfg, s, h, packet, nowMs, u);
      && s2.serverSeen == seen && s2.replies == s.replies
      && s2.handlers[h] == Replying(AnswerTo(cfg.maxBytes, decoded, u))
  {
    ReceiveStarts(cfg, s, h, packet, nowMs);
    var s1 := ApplyReceive(cfg, s, Receive(h, packet, nowMs));
    if s1.handlers[h].Decoded? {
      ForwardMoves(cfg, s1, h, u);
    }
  }

  lemma ReceiveStarts(cfg: Config, s: State, h: nat, packet: bytes, nowMs: int)
    requires Enabled(cfg, s, Receive(h, packet, nowMs))
    ensures var (decoded, seen) := ServerDecode(cfg.lib, cfg.server, s.serverSeen, packet, nowMs);
      var s1 := ApplyReceive(cfg, s, Receive(h, packet, nowMs));
      && s1.serverSeen == seen && s1.replies == s.replies && h in s1.handlers
      && (decoded.Ok? ==> s1.handlers[h] == Decoded(decoded.value, packet, |s.calls|))
      && (decoded.Err? ==> s1.handlers[h] == Replying(Error(ErrorReply(decoded.error, None))))
  {
  }

  lemma ForwardMoves(cfg: Config, s: State, h: nat, u: Upstream)
    requires Enabled(cfg, s, ForwardUp(h, u))
    ensures var s' := ApplyForward(cfg, s, ForwardUp(h, u));
      && s'.serverSeen == s.serverSeen && s'.replies == s.replies
      && s'.handlers == s.handlers[h := Replying(ReplyTo(cfg.maxBytes, s.handlers[h].request, u))]
  {
  }

  lemma ReplySeals(cfg: Config, s: State, h: nat, stamp: Stamp)
    requires Enabled(cfg, s, Reply(h, stamp))
    ensures var s' := ApplyReply(cfg, s, Reply(h, stamp));
      var r := EncodeMessage(cfg.lib, cfg.server, s.handlers[h].reply, stamp);
      && s'.serverSeen == s.serverSeen && s'.handlers[h] == Finished
      && s'.replies == s.replies + if r.Ok? then [Sealed(s.handlers[h].reply, r.value, stamp)] else []
  {
  }

  /**
   * Receiving, forwarding and replying without interleaving is one run of the handler: same replay
   * table, same packet sealed, or none when sealing fails.
   */
  lemma StepsAreRelay(cfg: Config, s: State, h: nat, packet: bytes, nowMs: int, u: Upstream, stamp: Stamp)
    requires Enabled(cfg, s, Receive(h, packet, nowMs))
    ensures var s2 := HandlerState(cfg, s, h, packet, nowMs, u);
      var s3 := ApplyReply(cfg, s2, Reply(h, stamp));
      var (r, seen) := RelayResult(cfg.lib, cfg.server, cfg.maxBytes, s.serverSeen, packet, nowMs, u, stamp);
      && s3.serverSeen == seen && s3.handlers[h] == Finished
      && s3.replies == s.replies + if r.Ok? then [Sealed(s2.handlers[h].reply, r.value, stamp)] else []
  {
    HandlerAnswers(cfg, s, h, packet, nowMs, u);
    ReplySeals(cfg, HandlerState(cfg, s, h, packet, nowMs, u), h, stamp);
  }

  // ---- What every step keeps ---------------------------------------------

  /** Sent packets encode their requests, under the requests' own ids. */
  ghost predicate SentInv(cfg: Config, sent: map<string, Sent>) {
    forall id :: id in sent ==>
      var k := sent[id];
      && k.request.requestId == id && ValidRequest(k.request)
      && EncodeMessage(cfg.lib, cfg.client, Request(k.request), k.stamp) == Ok(k.packet)
  }

  /** The request came from this packet, which a client sealed for it. */
  ghost predicate Genuine(sent: map<string, Sent>, request: RelayRequest, packet: bytes) {
    && request.requestId in sent
    && sent[request.requestId].request == request && sent[request.requestId].packet == packet
  }

  /** A forward produced this reply. */
  ghost predicate Produced(forwards: seq<Forwarded>, reply: Message) {
    exists f :: f in forwards && f.reply == reply
  }

  /** The server replies only with errors and with what forwards produced. */
  ghost predicate ServerReply(forwards: seq<Forwarded>, reply: Message) {
    ValidMessage(reply) && !reply.Request? && (reply.Response? ==> Produced(forwards, reply))
  }

  ghost predicate HandlerInv(sent: map<string, Sent>, forwards: seq<Forwarded>, h: Handler) {
    match h
    case Decoded(request, packet, _) => Genuine(sent, request, packet) && ValidRequest(request)
    case Replying(reply) => ServerReply(forwards, reply)
    case Finished => true
  }

  ghost predicate HandlersInv(sent: map<string, Sent>, forwards: seq<Forwarded>, handlers: map<nat, Handler>) {
    forall h :: h in handlers ==> HandlerInv(sent, forwards, handlers[h])
  }

  ghost predicate ForwardInv(cfg: Config, sent: map<string, Sent>, f: Forwarded) {
    Genuine(sent, f.request, f.packet) && ValidRequest(f.request)
      && f.reply == ReplyTo(cfg.maxBytes, f.request, f.upstream)
  }

  ghost predicate ForwardsInv(cfg: Config, sent: map<string, Sent>, forwards: seq<Forwarded>) {
    forall f :: f in forwards ==> ForwardInv(cfg, sent, f)
  }

  ghost predicate SealInv(cfg: Config, forwards: seq<Forwarded>, k: Sealed) {
    ServerReply(forwards, k.reply) && EncodeMessage(cfg.lib, cfg.server, k.reply, k.stamp) == Ok(k.packet)
  }

  ghost predicate RepliesInv(cfg: Config, forwards: seq<Forwarded>, replies: seq<Sealed>) {
    forall k :: k in replies ==> SealInv(cfg, forwards, k)
  }

  ghost predicate InReplies(replies: seq<Sealed>, reply: Message, packet: bytes) {
    exists k :: k in replies && k.packet == packet && k.reply == reply
  }

  /** Everything returned is a response under the caller's id, sealed by the server. */
  ghost predicate ReturnInv(sent: map<string, Sent>, replies: seq<Sealed>, id: string, r: Returned) {
    id in sent && r.reply.Response? && r.reply.response.requestId == id && InReplies(replies, r.reply, r.packet)
  }

  ghost predicate ReturnedInv(sent: map<string, Sent>, replies: seq<Sealed>, returned: map<string, Returned>) {
    forall id :: id in returned ==> ReturnInv(sent, replies, id, returned[id])
  }

  /** The server's table is what its replay checks so far leave. */
  ghost predicate TableInv(cfg: Config, s: State) {
    s.serverSeen == SeenAfter(cfg.server.replay, s.calls) && ClockSlipsAtMost(s.calls, cfg.slip)
  }

  /** Replay check `k` accepted this packet. */
  ghost predicate AcceptedAs(limits: Limits, calls: seq<Call>, k: nat, packet: bytes) {
    && k < |calls| && VerdictAt(limits, calls, k) == Replay.Accepted && |packet| >= HEADER_SIZE
    && calls[k].nonceId == packet[16..32] && calls[k].timestampMs == FromBigEndian(packet[8..16])
  }

  /** Every acceptance is held by at most one forward or decoded handler. */
  ghost predicate OnceInv(limits: Limits, calls: seq<Call>, forwards: seq<Forwarded>, handlers: map<nat, Handler>) {
    && (forall i :: 0 <= i < |forwards| ==> AcceptedAs(limits, calls, forwards[i].call, forwards[i].packet))
    && (forall i, j :: 0 <= i < j < |forwards| ==> forwards[i].call != forwards[j].call)
    && (forall h :: h in handlers && handlers[h].Decoded? ==>
      AcceptedAs(limits, calls, handlers[h].call, handlers[h].packet))
    && (forall h, i :: h in handlers && handlers[h].Decoded? && 0 <= i < |forwards| ==>
      handlers[h].call != forwards[i].call)
    && (forall h, h' :: h in handlers && h' in handlers && h != h' && handlers[h].Decoded? && handlers[h'].Decoded? ==>
      handlers[h].call != handlers[h'].call)
  }

  ghost predicate Inv(cfg: Config, s: State) {
    && SentInv(cfg, s.sent)
    && HandlersInv(s.sent, s.forwards, s.handlers)
    && ForwardsInv(cfg, s.sent, s.forwards)
    && RepliesInv(cfg, s.forwards, s.replies)
    && ReturnedInv(s.sent, s.replies, s.returned)
    && TableInv(cfg, s)
    && OnceInv(cfg.server.replay, s.calls, s.forwards, s.handlers)
  }

  // ---- Where opened packets come from ------------------------------------

  lemma EncodedIsSealed(lib: Libraries, settings: Settings, m: Message, stamp: Stamp)
    requires EncodeMessage(lib, settings, m, stamp).Ok?
    ensures var p := EncodeMessage(lib, settings, m, stamp).value;
      SealedPacket(lib.cipher, p) && |p| >= HEADER_SIZE && p[5] == MessageType(m)
  {
    var (payload, compressed) := PayloadOf(lib, settings, m).value;
    SealedHeader(lib.cipher, payload, MessageType(m), compressed, stamp);
  }

  lemma LogIsSealed(cfg: Config, sent: map<string, Sent>, forwards: seq<Forwarded>, replies: seq<Sealed>)
    requires SentInv(cfg, sent) && RepliesInv(cfg, forwards, replies)
    ensures forall p :: p in Log(sent, replies) ==> SealedPacket(cfg.lib.cipher, p)
  {
    forall p | p in Log(sent, replies)
      ensures SealedPacket(cfg.lib.cipher, p)
    {
      if id :| id in sent && sent[id].packet == p {
        EncodedIsSealed(cfg.lib, cfg.client, Request(sent[id].request), sent[id].stamp);
      } else {
        var k :| k in replies && k.packet == p;
        EncodedIsSealed(cfg.lib, cfg.server, k.reply, k.stamp);
      }
    }
  }

  /**
   * An unforged packet that decodes to a request is the packet a client sealed for that request;
   * one that decodes to anything else carries a response the server sealed.
   */
  lemma DecodedProvenance(cfg: Config, sent: map<string, Sent>, forwards: seq<Forwarded>, replies: seq<Sealed>,
                          receiver: Settings, seen: Seen, packet: bytes, nowMs: int)
    requires Lawful(cfg.lib) && SentInv(cfg, sent) && RepliesInv(cfg, forwards, replies)
    requires Unforged(cfg.lib.cipher, Log(sent, replies), packet)
    requires Decode(cfg.lib, receiver, seen, packet, nowMs).0.Ok?
    ensures var m := Decode(cfg.lib, receiver, seen, packet, nowMs).0.value;
      if m.Request? then Genuine(sent, m.request, packet) && ValidRequest(m.request)
      else m.Response? && InReplies(replies, m, packet)
  {
    LogIsSealed(cfg, sent, forwards, replies);
    AcceptedWasSealed(cfg.lib.cipher, Log(sent, replies), packet, receiver.maxCiphertext);
    if id :| id in sent && sent[id].packet == packet {
      DecodeUndoesEncode(cfg.lib, cfg.client, receiver, Request(sent[id].request), sent[id].stamp, seen, nowMs);
    } else {
      var k :| k in replies && k.packet == packet;
      assert SealInv(cfg, forwards, k);
      DecodeUndoesEncode(cfg.lib, cfg.server, receiver, k.reply, k.stamp, seen, nowMs);
    }
  }

  // ---- Each step keeps the invariant -------------------------------------

  lemma SendKeepsHandlers(sent: map<string, Sent>, id: string, k: Sent, forwards: seq<Forwarded>, handlers: map<nat,
                          Handler>)
    requires id !in sent && HandlersInv(sent, forwards, handlers)
    ensures HandlersInv(sent[id := k], forwards, handlers)
  {
    forall h | h in handlers
      ensures HandlerInv(sent[id := k], forwards, handlers[h])
    {
      assert HandlerInv(sent, forwards, handlers[h]);
    }
  }

  lemma SendKeepsForwards(cfg: Config, sent: map<string, Sent>, id: string, k: Sent, forwards: seq<Forwarded>)
    requires id !in sent && ForwardsInv(cfg, sent, forwards)
    ensures ForwardsInv(cfg, sent[id := k], forwards)
  {
    forall f | f in forwards
      ensures ForwardInv(cfg, sent[id := k], f)
    {
      assert ForwardInv(cfg, sent, f);
    }
  }

  lemma SendKeepsReturned(sent: map<string, Sent>, id: string, k: Sent, replies: seq<Sealed>, returned: map<string,
                          Returned>)
    requires ReturnedInv(sent, replies, returned)
    ensures ReturnedInv(sent[id := k], replies, returned)
  {
    forall i | i in returned
      ensures ReturnInv(sent[id := k], replies, i, returned[i])
    {
      assert ReturnInv(sent, replies, i, returned[i]);
    }
  }

  lemma SendKeepsSent(cfg: Config, sent: map<string, Sent>, k: Sent)
    requires SentInv(cfg, sent) && ValidRequest(k.request)
    requires EncodeMessage(cfg.lib, cfg.client, Request(k.request), k.stamp) == Ok(k.packet)
    ensures SentInv(cfg, sent[k.request.requestId := k])
  {
  }

  lemma SendKeeps(cfg: Config, s: State, e: Event)
    requires Inv(cfg, s) && e.Send? && Enabled(cfg, s, e)
    ensures Inv(cfg, ApplySend(cfg, s, e))
  {
    var id := e.request.requestId;
    var k := ApplySend(cfg, s, e).sent[id];
    SendKeepsSent(cfg, s.sent, k);
    SendKeepsHandlers(s.sent, id, k, s.forwards, s.handlers);
    SendKeepsForwards(cfg, s.sent, id, k, s.forwards);
    SendKeepsReturned(s.sent, id, k, s.replies, s.returned);
    SendFieldsOnly(cfg, s, s.sent[id := k], s.waiting + {id});
  }

  lemma SendFieldsOnly(cfg: Config, s: State, sent: map<string, Sent>, waiting: set<string>)
    requires Inv(cfg, s)
    requires SentInv(cfg, sent) && HandlersInv(sent, s.forwards, s.handlers)
    requires ForwardsInv(cfg, sent, s.forwards) && ReturnedInv(sent, s.replies, s.returned)
    ensures Inv(cfg, s.(sent := sent, waiting := waiting))
  {
  }

  /** Recording another forward keeps every reply a server reply. */
  lemma ServerReplyGrows(forwards: seq<Forwarded>, f: Forwarded, reply: Message)
    requires ServerReply(forwards, reply)
    ensures ServerReply(forwards + [f], reply)
  {
    if reply.Response? {
      var g :| g in forwards && g.reply == reply;
      assert g in forwards + [f];
    }
  }

  /** What a handler answers to a valid request is a valid message under the request's id. */
  lemma ReplyToIsValid(cfg: Config, request: RelayRequest, u: Upstream)
    requires ValidRequestId(request.requestId)
    ensures var m := ReplyTo(cfg.maxBytes, request, u);
      ValidMessage(m) && !m.Request? && (m.Response? ==> m.response.requestId == request.requestId)
  {
    match ForwardResult(cfg.maxBytes, request, u)
    case Ok(_) => ForwardKeepsId(cfg.maxBytes, request, u);
    case Err(e) => ErrorReplyValid(e, Some(request.requestId));
  }

  lemma ForwardKeepsReplies(cfg: Config, forwards: seq<Forwarded>, f: Forwarded, replies: seq<Sealed>)
    requires RepliesInv(cfg, forwards, replies)
    ensures RepliesInv(cfg, forwards + [f], replies)
  {
    forall k | k in replies
      ensures SealInv(cfg, forwards + [f], k)
    {
      assert SealInv(cfg, forwards, k);
      ServerReplyGrows(forwards, f, k.reply);
    }
  }

  lemma ForwardKeepsHandlers(sent: map<string, Sent>, forwards: seq<Forwarded>, f: Forwarded, handlers: map<nat,
                             Handler>, h: nat)
    requires HandlersInv(sent, forwards, handlers)
    requires ValidMessage(f.reply) && !f.reply.Request?
    ensures HandlersInv(sent, forwards + [f], handlers[h := Replying(f.reply)])
  {
    assert f in forwards + [f];
    forall g | g in handlers
      ensures HandlerInv(sent, forwards + [f], handlers[g])
    {
      assert HandlerInv(sent, forwards, handlers[g]);
      if handlers[g].Replying? {
        ServerReplyGrows(forwards, f, handlers[g].reply);
      }
    }
  }

  lemma ForwardKeepsOnce(limits: Limits, calls: seq<Call>, forwards: seq<Forwarded>, f: Forwarded,
                         handlers: map<nat, Handler>, h: nat)
    requires OnceInv(limits, calls, forwards, handlers)
    requires h in handlers && handlers[h].Decoded? && f.packet == handlers[h].packet && f.call == handlers[h].call
    ensures OnceInv(limits, calls, forwards + [f], handlers[h := Replying(f.reply)])
  {
  }

  lemma ForwardKeepsForwards(cfg: Config, sent: map<string, Sent>, forwards: seq<Forwarded>, f: Forwarded)
    requires ForwardsInv(cfg, sent, forwards) && ForwardInv(cfg, sent, f)
    ensures ForwardsInv(cfg, sent, forwards + [f])
  {
  }

  /** The record a forwarding step adds. */
  lemma ForwardIsGenuine(cfg: Config, sent: map<string, Sent>, forwards: seq<Forwarded>, d: Handler, u: Upstream)
    requires d.Decoded? && HandlerInv(sent, forwards, d)
    ensures var f := Forwarded(d.request, d.packet, d.call, u, ReplyTo(cfg.maxBytes, d.request, u));
      ForwardInv(cfg, sent, f) && ValidMessage(f.reply) && !f.reply.Request?
  {
    ReplyToIsValid(cfg, d.request, u);
  }

  lemma ForwardKeeps(cfg: Config, s: State, e: Event)
    requires Inv(cfg, s) && e.ForwardUp? && Enabled(cfg, s, e)
    ensures Inv(cfg, ApplyForward(cfg, s, e))
  {
    var d := s.handlers[e.handler];
    var f := ApplyForward(cfg, s, e).forwards[|s.forwards|];
    ForwardIsGenuine(cfg, s.sent, s.forwards, d, e.upstream);
    ForwardKeepsForwards(cfg, s.sent, s.forwards, f);
    ForwardKeepsReplies(cfg, s.forwards, f, s.replies);
    ForwardKeepsHandlers(s.sent, s.forwards, f, s.handlers, e.handler);
    ForwardKeepsOnce(cfg.server.replay, s.calls, s.forwards, f, s.handlers, e.handler);
    ForwardFieldsOnly(cfg, s, s.forwards + [f], s.handlers[e.handler := Replying(f.reply)]);
  }

  lemma ForwardFieldsOnly(cfg: Config, s: State, forwards: seq<Forwarded>, handlers: map<nat, Handler>)
    requires Inv(cfg, s)
    requires HandlersInv(s.sent, forwards, handlers) && OnceInv(cfg.server.replay, s.calls, forwards, handlers)
    requires ForwardsInv(cfg, s.sent, forwards) && RepliesInv(cfg, forwards, s.replies)
    ensures Inv(cfg, s.(forwards := forwards, handlers := handlers))
  {
  }

  lemma FinishKeepsOnce(limits: Limits, calls: seq<Call>, forwards: seq<Forwarded>, handlers: map<nat, Handler>, h: nat)
    requires OnceInv(limits, calls, forwards, handlers)
    ensures OnceInv(limits, calls, forwards, handlers[h := Finished])
  {
  }

  lemma ReplyKeepsReturned(sent: map<string, Sent>, replies: seq<Sealed>, more: seq<Sealed>, returned: map<string,
                           Returned>)
    requires ReturnedInv(sent, replies, returned)
    ensures ReturnedInv(sent, replies + more, returned)
  {
    forall id | id in returned
      ensures ReturnInv(sent, replies + more, id, returned[id])
    {
      assert ReturnInv(sent, replies, id, returned[id]);
      var k :| k in replies && k.packet == returned[id].packet && k.reply == returned[id].reply;
      assert k in replies + more;
    }
  }

  lemma ReplyKeepsHandlers(sent: map<string, Sent>, forwards: seq<Forwarded>, handlers: map<nat, Handler>, h: nat)
    requires HandlersInv(sent, forwards, handlers)
    ensures HandlersInv(sent, forwards, handlers[h := Finished])
  {
  }

  lemma ReplyKeepsReplies(cfg: Config, forwards: seq<Forwarded>, replies: seq<Sealed>, reply: Message, stamp: Stamp)
    requires RepliesInv(cfg, forwards, replies) && ServerReply(forwards, reply)
    ensures var packet := EncodeMessage(cfg.lib, cfg.server, reply, stamp);
      RepliesInv(cfg, forwards, replies + if packet.Ok? then [Sealed(reply, packet.value, stamp)] else [])
  {
  }

  lemma ReplyKeeps(cfg: Config, s: State, e: Event)
    requires Inv(cfg, s) && e.Reply? && Enabled(cfg, s, e)
    ensures Inv(cfg, ApplyReply(cfg, s, e))
  {
    var reply := s.handlers[e.handler].reply;
    var packet := EncodeMessage(cfg.lib, cfg.server, reply, e.stamp);
    assert HandlerInv(s.sent, s.forwards, s.handlers[e.handler]);
    FinishKeepsOnce(cfg.server.replay, s.calls, s.forwards, s.handlers, e.handler);
    ReplyKeepsHandlers(s.sent, s.forwards, s.handlers, e.handler);
    ReplyKeepsReplies(cfg, s.forwards, s.replies, reply, e.stamp);
    var more := if packet.Ok? then [Sealed(reply, packet.value, e.stamp)] else [];
    ReplyKeepsReturned(s.sent, s.replies, more, s.returned);
    ReplyFieldsOnly(cfg, s, s.handlers[e.handler := Finished], s.replies + more);
  }

  lemma ReplyFieldsOnly(cfg: Config, s: State, handlers: map<nat, Handler>, replies: seq<Sealed>)
    requires Inv(cfg, s)
    requires HandlersInv(s.sent, s.forwards, handlers) && OnceInv(cfg.server.replay, s.calls, s.forwards, handlers)
    requires RepliesInv(cfg, s.forwards, replies) && ReturnedInv(s.sent, replies, s.returned)
    ensures Inv(cfg, s.(handlers := handlers, replies := replies))
  {
  }

  /** What a client accepts is a response under its own id that the server sealed. */
  lemma AcceptedFromServer(cfg: Config, sent: map<string, Sent>, forwards: seq<Forwarded>, replies: seq<Sealed>,
                           seen: Seen, id: string, packet: bytes, nowMs: int)
    requires Lawful(cfg.lib) && SentInv(cfg, sent) && RepliesInv(cfg, forwards, replies) && id in sent
    requires Unforged(cfg.lib.cipher, Log(sent, replies), packet)
    requires AcceptReply(cfg.lib, cfg.client, seen, sent[id].request, packet, nowMs).0.Ok?
    ensures ReturnInv(sent, replies, id,
                      Returned(AcceptReply(cfg.lib, cfg.client, seen, sent[id].request, packet, nowMs).0.value, packet))
  {
    DecodedProvenance(cfg, sent, forwards, replies, cfg.client, seen, packet, nowMs);
  }

  lemma AcceptKeepsReturned(sent: map<string, Sent>, replies: seq<Sealed>, returned: map<string, Returned>,
                            id: string, r: Returned)
    requires ReturnedInv(sent, replies, returned) && ReturnInv(sent, replies, id, r)
    ensures ReturnedInv(sent, replies, returned[id := r])
  {
  }

  lemma AcceptStepKeepsReturned(cfg: Config, s: State, e: Event)
    requires Lawful(cfg.lib) && SentInv(cfg, s.sent) && RepliesInv(cfg, s.forwards, s.replies)
    requires ReturnedInv(s.sent, s.replies, s.returned) && e.Accept? && Enabled(cfg, s, e)
    ensures ReturnedInv(s.sent, s.replies, ApplyAccept(cfg, s, e).returned)
  {
    var seen := ClientTable(s, s.sent[e.requestId].client);
    var r := AcceptReply(cfg.lib, cfg.client, seen, s.sent[e.requestId].request, e.packet, e.nowMs).0;
    if r.Ok? {
      AcceptedFromServer(cfg, s.sent, s.forwards, s.replies, seen, e.requestId, e.packet, e.nowMs);
      AcceptKeepsReturned(s.sent, s.replies, s.returned, e.requestId, Returned(r.value, e.packet));
    }
  }

  lemma ClientFieldsOnly(cfg: Config, s: State, waiting: set<string>, clientSeen: map<nat, Seen>, returned: map<string,
                         Returned>)
    requires Inv(cfg, s) && ReturnedInv(s.sent, s.replies, returned)
    ensures Inv(cfg, s.(waiting := waiting, clientSeen := clientSeen, returned := returned))
  {
  }

  lemma AcceptKeeps(cfg: Config, s: State, e: Event)
    requires Lawful(cfg.lib) && Inv(cfg, s) && e.Accept? && Enabled(cfg, s, e)
    ensures Inv(cfg, ApplyAccept(cfg, s, e))
  {
    var s' := ApplyAccept(cfg, s, e);
    AcceptStepKeepsReturned(cfg, s, e);
    ClientFieldsOnly(cfg, s, s'.waiting, s'.clientSeen, s'.returned);
  }

  /** The table after an attempt is the one its replay check, if any, leaves. */
  lemma AttemptKeepsTable(cfg: Config, s: State, packet: bytes, nowMs: int)
    requires TableInv(cfg, s)
    ensures ServerDecode(cfg.lib, cfg.server, s.serverSeen, packet, nowMs).1 ==
      SeenAfter(cfg.server.replay, s.calls + NewCalls(cfg, packet, nowMs))
  {
    match OpenPacket(cfg.lib.cipher, packet, cfg.server.maxCiphertext)
    case Ok(o) =>
      SeenAfterOne(cfg.server.replay, s.calls, CallOf(o, nowMs));
    case Err(_) =>
      assert s.calls + [] == s.calls;
  }

  lemma SeenAfterOne(limits: Limits, calls: seq<Call>, call: Call)
    ensures SeenAfter(limits, calls + [call]) == Judge(limits, SeenAfter(limits, calls), call).1
    ensures VerdictAt(limits, calls + [call], |calls|) == Judge(limits, SeenAfter(limits, calls), call).0
  {
    assert (calls + [call])[..|calls|] == calls;
  }

  lemma AcceptedAsGrows(limits: Limits, calls: seq<Call>, more: seq<Call>, k: nat, packet: bytes)
    requires AcceptedAs(limits, calls, k, packet)
    ensures AcceptedAs(limits, calls + more, k, packet)
  {
    assert (calls + more)[..k] == calls[..k];
  }

  /** A packet that decodes is accepted by the replay check this decoding makes. */
  lemma DecodedIsAccepted(cfg: Config, s: State, packet: bytes, nowMs: int)
    requires TableInv(cfg, s)
    requires Decode(cfg.lib, cfg.server, s.serverSeen, packet, nowMs).0.Ok?
    ensures AcceptedAs(cfg.server.replay, s.calls + NewCalls(cfg, packet, nowMs), |s.calls|, packet)
  {
    var call := CallOf(OpenPacket(cfg.lib.cipher, packet, cfg.server.maxCiphertext).value, nowMs);
    OpenedConforms(cfg.lib.cipher, packet, cfg.server.maxCiphertext);
    SeenAfterOne(cfg.server.replay, s.calls, call);
  }

  lemma OnceGrows(limits: Limits, calls: seq<Call>, more: seq<Call>, forwards: seq<Forwarded>, handlers: map<nat,
                  Handler>)
    requires OnceInv(limits, calls, forwards, handlers)
    ensures OnceInv(limits, calls + more, forwards, handlers)
  {
    forall i | 0 <= i < |forwards|
      ensures AcceptedAs(limits, calls + more, forwards[i].call, forwards[i].packet)
    {
      AcceptedAsGrows(limits, calls, more, forwards[i].call, forwards[i].packet);
    }
    forall h | h in handlers && handlers[h].Decoded?
      ensures AcceptedAs(limits, calls + more, handlers[h].call, handlers[h].packet)
    {
      AcceptedAsGrows(limits, calls, more, handlers[h].call, handlers[h].packet);
    }
  }

  lemma ReceiveKeepsOnce(limits: Limits, calls: seq<Call>, more: seq<Call>, forwards: seq<Forwarded>,
                         handlers: map<nat, Handler>, h: nat, handler: Handler)
    requires OnceInv(limits, calls, forwards, handlers) && h !in handlers
    requires handler.Decoded? ==>
      handler.call == |calls| && AcceptedAs(limits, calls + more, handler.call, handler.packet)
    ensures OnceInv(limits, calls + more, forwards, handlers[h := handler])
  {
    OnceGrows(limits, calls, more, forwards, handlers);
  }

  lemma ServerFieldsOnly(cfg: Config, s: State, s': State)
    requires Inv(cfg, s) && TableInv(cfg, s')
    requires s' == s.(serverSeen := s'.serverSeen, calls := s'.calls, handlers := s'.handlers)
    requires HandlersInv(s.sent, s.forwards, s'.handlers) && OnceInv(cfg.server.replay, s'.calls, s.forwards,
      s'.handlers)
    ensures Inv(cfg, s')
  {
  }

  lemma ReceiveKeepsHandlers(sent: map<string, Sent>, forwards: seq<Forwarded>, handlers: map<nat, Handler>,
                             h: nat, handler: Handler)
    requires HandlersInv(sent, forwards, handlers) && HandlerInv(sent, forwards, handler)
    ensures HandlersInv(sent, forwards, handlers[h := handler])
  {
  }

  /** The handler a received packet starts: a genuine request or an error reply. */
  lemma ReceivedHandler(cfg: Config, s: State, e: Event)
    requires Lawful(cfg.lib) && SentInv(cfg, s.sent) && RepliesInv(cfg, s.forwards, s.replies)
    requires e.Receive? && Enabled(cfg, s, e)
    ensures var handler := ApplyReceive(cfg, s, e).handlers[e.handler];
      && HandlerInv(s.sent, s.forwards, handler)
      && (handler.Decoded? ==> handler.packet == e.packet && handler.call == |s.calls|
                               && Decode(cfg.lib, cfg.server, s.serverSeen, e.packet, e.nowMs).0.Ok?)
  {
    var r := ServerDecode(cfg.lib, cfg.server, s.serverSeen, e.packet, e.nowMs).0;
    if r.Ok? {
      DecodedProvenance(cfg, s.sent, s.forwards, s.replies, cfg.server, s.serverSeen, e.packet, e.nowMs);
    } else {
      ErrorReplyValid(r.error, None);
    }
  }

  lemma ReceiveKeeps(cfg: Config, s: State, e: Event)
    requires Lawful(cfg.lib) && Inv(cfg, s) && e.Receive? && Enabled(cfg, s, e)
    ensures Inv(cfg, ApplyReceive(cfg, s, e))
  {
    var s' := ApplyReceive(cfg, s, e);
    var handler := s'.handlers[e.handler];
    ReceivedHandler(cfg, s, e);
    ReceiveKeepsTable(cfg, s, e);
    ReceiveStepKeepsOnce(cfg, s, e);
    ReceiveKeepsHandlers(s.sent, s.forwards, s.handlers, e.handler, handler);
    ServerFieldsOnly(cfg, s, s');
  }

  lemma ReceiveKeepsTable(cfg: Config, s: State, e: Event)
    requires TableInv(cfg, s) && e.Receive? && Enabled(cfg, s, e)
    ensures TableInv(cfg, ApplyReceive(cfg, s, e))
  {
    AttemptKeepsTable(cfg, s, e.packet, e.nowMs);
    var more := NewCalls(cfg, e.packet, e.nowMs);
    assert more != [] ==> more == [more[0]] && more[0].nowMs == e.nowMs;
    ReadingSlips(s.calls, more, cfg.slip);
  }

  lemma ReadingSlips(calls: seq<Call>, more: seq<Call>, slip: nat)
    requires ClockSlipsAtMost(calls, slip) && |more| <= 1
    requires forall c, c' :: c in calls && c' in more ==> c'.nowMs >= c.nowMs - slip
    ensures ClockSlipsAtMost(calls + more, slip)
  {
  }

  lemma ReceiveStepKeepsOnce(cfg: Config, s: State, e: Event)
    requires Lawful(cfg.lib) && Inv(cfg, s) && e.Receive? && Enabled(cfg, s, e)
    ensures var s' := ApplyReceive(cfg, s, e);
      OnceInv(cfg.server.replay, s'.calls, s'.forwards, s'.handlers)
  {
    var handler := ApplyReceive(cfg, s, e).handlers[e.handler];
    ReceivedHandler(cfg, s, e);
    if handler.Decoded? {
      DecodedIsAccepted(cfg, s, e.packet, e.nowMs);
    }
    ReceiveKeepsOnce(cfg.server.replay, s.calls, NewCalls(cfg, e.packet, e.nowMs), s.forwards, s.handlers, e.handler,
      handler);
  }

  lemma StepKeeps(cfg: Config, s: State, e: Event)
    requires Lawful(cfg.lib) && Inv(cfg, s) && Enabled(cfg, s, e)
    ensures Inv(cfg, Apply(cfg, s, e))
  {
    match e
    case Send(_, _, _) => SendKeeps(cfg, s, e);
    case Receive(_, _, _) => ReceiveKeeps(cfg, s, e);
    case ForwardUp(_, _) => ForwardKeeps(cfg, s, e);
    case Reply(_, _) => ReplyKeeps(cfg, s, e);
    case Accept(_, _, _) => AcceptKeeps(cfg, s, e);
    case Abandon(_) =>
  }

  lemma {:induction false} RunKeeps(cfg: Config, s: State, events: seq<Event>)
    requires Lawful(cfg.lib) && Inv(cfg, s) && IsRun(cfg, s, events)
    ensures Inv(cfg, StateAfter(cfg, s, events))
    decreases |events|
  {
    if events != [] {
      StepKeeps(cfg, s, events[0]);
      RunKeeps(cfg, Apply(cfg, s, events[0]), events[1..]);
    }
  }

  lemma InitInv(cfg: Config)
    ensures Inv(cfg, INIT)
  {
  }

  /** Every state the relay can reach. */
  ghost predicate Reachable(cfg: Config, s: State) {
    exists events :: IsRun(cfg, INIT, events) && StateAfter(cfg, INIT, events) == s
  }

  lemma ReachableInv(cfg: Config, s: State)
    requires Lawful(cfg.lib) && Reachable(cfg, s)
    ensures Inv(cfg, s)
  {
    var events :| IsRun(cfg, INIT, events) && StateAfter(cfg, INIT, events) == s;
    InitInv(cfg);
    RunKeeps(cfg, INIT, events);
  }

  // ---- Main results ------------------------------------------------------

  /**
   * Every forward carries, field by field, the request some client sent under that id, out of the
   * packet that client sealed.
   */
  lemma ForwardedGenuine(cfg: Config, s: State, i: nat)
    requires Lawful(cfg.lib) && Reachable(cfg, s) && i < |s.forwards|
    ensures Genuine(s.sent, s.forwards[i].request, s.forwards[i].packet)
  {
    ReachableInv(cfg, s);
    assert ForwardInv(cfg, s.sent, s.forwards[i]);
  }

  /** The later of two forwards' replay checks. */
  ghost function LaterCall(s: State, i: nat, j: nat): nat
    requires i < |s.forwards| && j < |s.forwards|
  {
    if s.forwards[i].call < s.forwards[j].call then s.forwards[j].call else s.forwards[i].call
  }

  lemma AcceptedTwiceAge(limits: Limits, calls: seq<Call>, slip: nat, k: nat, l: nat, packet: bytes)
    requires ClockSlipsAtMost(calls, slip) && k < l
    requires AcceptedAs(limits, calls, k, packet) && AcceptedAs(limits, calls, l, packet)
    ensures limits.windowMs - slip < calls[l].nowMs - calls[l].timestampMs <= limits.windowMs
  {
    SecondAcceptanceAge(limits, calls, slip, k, l);
  }

  /**
   * When the server's clock slips by at most `slip`, one request is forwarded a second time only if
   * its packet was let in again at an age in the last `slip` milliseconds of the window.
   */
  lemma SecondForwardAge(cfg: Config, s: State, i: nat, j: nat)
    requires Lawful(cfg.lib) && Reachable(cfg, s) && i < |s.forwards| && j < |s.forwards| && i != j
    requires s.forwards[i].request.requestId == s.forwards[j].request.requestId
    ensures s.forwards[i].packet == s.forwards[j].packet && LaterCall(s, i, j) < |s.calls|
    ensures var late := s.calls[LaterCall(s, i, j)];
      cfg.server.replay.windowMs - cfg.slip < late.nowMs - late.timestampMs <= cfg.server.replay.windowMs
  {
    ReachableInv(cfg, s);
    assert ForwardInv(cfg, s.sent, s.forwards[i]) && ForwardInv(cfg, s.sent, s.forwards[j]);
    HeldTwiceAge(cfg, s, i, j);
  }

  lemma HeldTwiceAge(cfg: Config, s: State, i: nat, j: nat)
    requires TableInv(cfg, s) && OnceInv(cfg.server.replay, s.calls, s.forwards, s.handlers)
    requires i < |s.forwards| && j < |s.forwards| && i != j && s.forwards[i].packet == s.forwards[j].packet
    ensures LaterCall(s, i, j) < |s.calls|
    ensures var late := s.calls[LaterCall(s, i, j)];
      cfg.server.replay.windowMs - cfg.slip < late.nowMs - late.timestampMs <= cfg.server.replay.windowMs
  {
    var limits, f, g := cfg.server.replay, s.forwards[i], s.forwards[j];
    assert AcceptedAs(limits, s.calls, f.call, f.packet) && AcceptedAs(limits, s.calls, g.call, g.packet);
    assert f.call != g.call;
    if f.call < g.call {
      AcceptedTwiceAge(limits, s.calls, cfg.slip, f.call, g.call, f.packet);
    } else {
      AcceptedTwiceAge(limits, s.calls, cfg.slip, g.call, f.call, f.packet);
    }
  }

  /** Forward `i` is of the request sent under this id and produced this reply. */
  ghost predicate Answers(cfg: Config, s: State, id: string, i: int, reply: Message) {
    && 0 <= i < |s.forwards| && id in s.sent
    && s.forwards[i].request == s.sent[id].request && s.forwards[i].reply == reply
    && ForwardResult(cfg.maxBytes, s.forwards[i].request, s.forwards[i].upstream) == Ok(reply)
  }

  lemma ReplyIsForwarded(cfg: Config, forwards: seq<Forwarded>, replies: seq<Sealed>, reply: Message, packet: bytes)
    returns (i: int)
    requires RepliesInv(cfg, forwards, replies) && InReplies(replies, reply, packet) && reply.Response?
    ensures 0 <= i < |forwards| && forwards[i].reply == reply
  {
    var k :| k in replies && k.packet == packet && k.reply == reply;
    assert SealInv(cfg, forwards, k);
    var f :| f in forwards && f.reply == reply;
    i :| 0 <= i < |forwards| && forwards[i] == f;
  }

  lemma ForwardAnswers(cfg: Config, sent: map<string, Sent>, f: Forwarded)
    requires ForwardInv(cfg, sent, f) && f.reply.Response?
    ensures var id := f.reply.response.requestId;
      id in sent && f.request == sent[id].request && f.request.requestId == id
    ensures ForwardResult(cfg.maxBytes, f.request, f.upstream) == Ok(f.reply)
  {
    ReplyToIsValid(cfg, f.request, f.upstream);
  }

  /** No forward but `i` is of a request with this id. */
  ghost predicate OnlyForward(s: State, id: string, i: int) {
    forall j :: 0 <= j < |s.forwards| && s.forwards[j].request.requestId == id ==> j == i
  }

  /** Behind what a send returned there is a forward that answers it. */
  lemma ReturnedIsAnswered(cfg: Config, s: State, id: string) returns (i: int)
    requires ReturnedInv(s.sent, s.replies, s.returned) && RepliesInv(cfg, s.forwards, s.replies)
    requires ForwardsInv(cfg, s.sent, s.forwards) && id in s.returned
    ensures Answers(cfg, s, id, i, s.returned[id].reply)
  {
    var r := s.returned[id];
    assert ReturnInv(s.sent, s.replies, id, r);
    i := ReplyIsForwarded(cfg, s.forwards, s.replies, r.reply, r.packet);
    assert ForwardInv(cfg, s.sent, s.forwards[i]);
    ForwardAnswers(cfg, s.sent, s.forwards[i]);
  }

  /** With a clock that does not go back, no request is forwarded twice. */
  lemma ForwardedOnlyOnce(cfg: Config, s: State, i: nat)
    requires Lawful(cfg.lib) && Reachable(cfg, s) && cfg.slip == 0 && i < |s.forwards|
    ensures OnlyForward(s, s.forwards[i].request.requestId, i)
  {
    forall j | 0 <= j < |s.forwards| && s.forwards[j].request.requestId == s.forwards[i].request.requestId
      ensures j == i
    {
      if i != j {
        SecondForwardAge(cfg, s, i, j);
      }
    }
  }

  /**
   * End to end: whatever the network did, what a send returned is exactly what one forward of
   * exactly that request produced; and if the server's clock did not go back, that request was
   * forwarded no second time.
   */
  lemma EndToEnd(cfg: Config, s: State, id: string)
    requires Lawful(cfg.lib) && Reachable(cfg, s) && id in s.returned
    ensures exists i :: Answers(cfg, s, id, i, s.returned[id].reply) && (cfg.slip == 0 ==> OnlyForward(s, id, i))
  {
    ReachableInv(cfg, s);
    var i := ReturnedIsAnswered(cfg, s, id);
    if cfg.slip == 0 {
      ForwardedOnlyOnce(cfg, s, i);
    }
  }

  /** As the code stands, a send never returns a relay error: only responses get through. */
  lemma SendReturnsResponses(cfg: Config, s: State, id: string)
    requires Lawful(cfg.lib) && Reachable(cfg, s) && id in s.returned
    ensures s.returned[id].reply.Response? && s.returned[id].reply.response.requestId == id
  {
    ReachableInv(cfg, s);
    assert ReturnInv(s.sent, s.replies, id, s.returned[id]);
  }

  /**
   * Directions never mix, though both share one key: no forward came out of a packet the server
   * sealed, and no send returned the content of a packet a client sealed.
   */
  lemma DirectionsSeparate(cfg: Config, s: State)
    requires Lawful(cfg.lib) && Reachable(cfg, s)
    ensures forall f, k :: f in s.forwards && k in s.replies ==> f.packet != k.packet
    ensures forall id, id' :: id in s.returned && id' in s.sent ==> s.returned[id].packet != s.sent[id'].packet
  {
    ReachableInv(cfg, s);
    forall id | id in s.sent
      ensures |s.sent[id].packet| > 5 && s.sent[id].packet[5] == TYPE_REQUEST
    {
      EncodedIsSealed(cfg.lib, cfg.client, Request(s.sent[id].request), s.sent[id].stamp);
    }
    forall k | k in s.replies
      ensures |k.packet| > 5 && k.packet[5] != TYPE_REQUEST
    {
      assert SealInv(cfg, s.forwards, k);
      EncodedIsSealed(cfg.lib, cfg.server, k.reply, k.stamp);
    }
    forall f, k | f in s.forwards && k in s.replies
      ensures f.packet != k.packet
    {
      assert ForwardInv(cfg, s.sent, f);
    }
    forall id, id' | id in s.returned && id' in s.sent
      ensures s.returned[id].packet != s.sent[id'].packet
    {
      assert ReturnInv(s.sent, s.replies, id, s.returned[id]);
    }
  }

  // ---- And it can complete -----------------------------------------------

  /** A sealed message passes every limit of the receiver and its replay check. */
  ghost predicate GetsThrough(lib: Libraries, sender: Settings, receiver: Settings, seen: Seen, m: Message,
                              stamp: Stamp, nowMs: int) {
    && ValidMessage(m) && EncodeMessage(lib, sender, m, stamp).Ok?
    && |PayloadOf(lib, sender, m).value.0| + 16 <= receiver.maxCiphertext
    && |Codec.Dumps(lib.msgpack, m).value| <= receiver.maxDecompressed && BodyFits(receiver, m)
    && Judge(receiver.replay, seen, Call(stamp.nonceId, stamp.timestampMs, nowMs)).0 == Replay.Accepted
  }

  lemma SealedIsUnforged(cfg: Config, settings: Settings, m: Message, stamp: Stamp, log: set<bytes>)
    requires EncodeMessage(cfg.lib, settings, m, stamp).Ok? && EncodeMessage(cfg.lib, settings, m, stamp).value in log
    ensures Unforged(cfg.lib.cipher, log, EncodeMessage(cfg.lib, settings, m, stamp).value)
  {
    var p := EncodeMessage(cfg.lib, settings, m, stamp).value;
    EncodedIsSealed(cfg.lib, settings, m, stamp);
    assert SameSealedParts(p, p);
  }

  /** The server half of an exchange: the posted packet is received and its request decoded. */
  lemma ReceiveDelivers(cfg: Config, s: State, h: nat, id: string, nowMs: int)
    requires Lawful(cfg.lib) && SentInv(cfg, s.sent) && id in s.sent && h !in s.handlers && ClockMayRead(cfg, s, nowMs)
    requires var k := s.sent[id];
      && |k.packet| <= cfg.server.maxCiphertext
      && GetsThrough(cfg.lib, cfg.client, cfg.server, s.serverSeen, Request(k.request), k.stamp, nowMs)
    ensures var k := s.sent[id];
      var e := Receive(h, k.packet, nowMs);
      Enabled(cfg, s, e) && ApplyReceive(cfg, s, e).handlers[h] == Decoded(k.request, k.packet, |s.calls|)
  {
    var k := s.sent[id];
    assert k.packet in Log(s.sent, s.replies);
    SealedIsUnforged(cfg, cfg.client, Request(k.request), k.stamp, Log(s.sent, s.replies));
    DecodeDelivers(cfg.lib, cfg.client, cfg.server, Request(k.request), k.stamp, s.serverSeen, nowMs);
  }

  /** The client half: a sealed response under the waiting id is accepted. */
  lemma AcceptDelivers(cfg: Config, s: State, k: Sealed, id: string, nowMs: int)
    requires Lawful(cfg.lib) && SentInv(cfg, s.sent) && id in s.waiting && id in s.sent && k in s.replies
    requires k.reply.Response? && k.reply.response.requestId == id
    requires EncodeMessage(cfg.lib, cfg.server, k.reply, k.stamp) == Ok(k.packet)
    requires GetsThrough(cfg.lib, cfg.server, cfg.client, ClientTable(s, s.sent[id].client), k.reply, k.stamp, nowMs)
    ensures var e := Accept(id, k.packet, nowMs);
      && Enabled(cfg, s, e)
      && id in ApplyAccept(cfg, s, e).returned && ApplyAccept(cfg, s, e).returned[id] == Returned(k.reply, k.packet)
  {
    assert k.packet in Log(s.sent, s.replies);
    SealedIsUnforged(cfg, cfg.server, k.reply, k.stamp, Log(s.sent, s.replies));
    DecodeDelivers(cfg.lib, cfg.server, cfg.client, k.reply, k.stamp, ClientTable(s, s.sent[id].client), nowMs);
  }

  lemma RunCons(cfg: Config, s: State, e: Event, events: seq<Event>)
    requires Enabled(cfg, s, e) && IsRun(cfg, Apply(cfg, s, e), events)
    ensures IsRun(cfg, s, [e] + events)
    ensures StateAfter(cfg, s, [e] + events) == StateAfter(cfg, Apply(cfg, s, e), events)
  {
    assert ([e] + events)[1..] == events;
  }

  lemma RunOne(cfg: Config, s: State, e: Event)
    requires Enabled(cfg, s, e)
    ensures IsRun(cfg, s, [] + [e]) && StateAfter(cfg, s, [] + [e]) == Apply(cfg, s, e)
  {
    RunCons(cfg, s, e, []);
    assert [] + [e] == [e] + [];
  }

  lemma {:induction false} RunAppend(cfg: Config, s: State, events: seq<Event>, e: Event)
    requires IsRun(cfg, s, events) && Enabled(cfg, StateAfter(cfg, s, events), e)
    ensures IsRun(cfg, s, events + [e])
    ensures StateAfter(cfg, s, events + [e]) == Apply(cfg, StateAfter(cfg, s, events), e)
    decreases |events|
  {
    if events == [] {
      RunOne(cfg, s, e);
    } else {
      var s1 := Apply(cfg, s, events[0]);
      RunAppend(cfg, s1, events[1..], e);
      RunCons(cfg, s, events[0], events[1..] + [e]);
      assert events + [e] == [events[0]] + (events[1..] + [e]);
    }
  }

  lemma StepReaches(cfg: Config, s: State, e: Event)
    requires Reachable(cfg, s) && Enabled(cfg, s, e)
    ensures Reachable(cfg, Apply(cfg, s, e))
  {
    var events :| IsRun(cfg, INIT, events) && StateAfter(cfg, INIT, events) == s;
    RunAppend(cfg, INIT, events, e);
  }

  /** Forwarding a decoded request and sealing the reply, with no other handler in between. */
  lemma ServesDecoded(cfg: Config, s: State, h: nat, u: Upstream, stamp: Stamp)
    requires h in s.handlers && s.handlers[h].Decoded?
    requires EncodeMessage(cfg.lib, cfg.server, ReplyTo(cfg.maxBytes, s.handlers[h].request, u), stamp).Ok?
    ensures Enabled(cfg, s, ForwardUp(h, u)) && Enabled(cfg, Apply(cfg, s, ForwardUp(h, u)), Reply(h, stamp))
    ensures var d := s.handlers[h];
      var reply := ReplyTo(cfg.maxBytes, d.request, u);
      var s' := Apply(cfg, Apply(cfg, s, ForwardUp(h, u)), Reply(h, stamp));
      && s'.forwards == s.forwards + [Forwarded(d.request, d.packet, d.call, u, reply)]
      && s'.replies == s.replies + [Sealed(reply, EncodeMessage(cfg.lib, cfg.server, reply, stamp).value, stamp)]
      && s'.sent == s.sent && s'.waiting == s.waiting && s'.clientSeen == s.clientSeen
  {
  }

  /** The events of one undisturbed exchange. */
  function Exchange(client: nat, request: RelayRequest, stamp: Stamp, packet: bytes, h: nat, serverNow: int,
                    u: Upstream, replyStamp: Stamp, replyPacket: bytes, clientNow: int): seq<Event> {
    [Send(client, request, stamp)] + ([Receive(h, packet, serverNow)] + ([ForwardUp(h, u)] +
      ([Reply(h, replyStamp)] + ([Accept(request.requestId, replyPacket, clientNow)] + []))))
  }

  /** Sending and receiving: the server holds the request as sent, and nothing else has moved. */
  lemma SendIsReceived(cfg: Config, s: State, client: nat, request: RelayRequest, stamp: Stamp, h: nat, serverNow: int)
    requires Lawful(cfg.lib) && SentInv(cfg, s.sent) && Enabled(cfg, s, Send(client, request, stamp))
    requires h !in s.handlers && ClockMayRead(cfg, s, serverNow)
    requires GetsThrough(cfg.lib, cfg.client, cfg.server, s.serverSeen, Request(request), stamp, serverNow)
    requires |EncodeMessage(cfg.lib, cfg.client, Request(request), stamp).value| <= cfg.server.maxCiphertext
    ensures var packet := EncodeMessage(cfg.lib, cfg.client, Request(request), stamp).value;
      var s1 := Apply(cfg, s, Send(client, request, stamp));
      && Enabled(cfg, s1, Receive(h, packet, serverNow))
      && var s2 := Apply(cfg, s1, Receive(h, packet, serverNow));
      && h in s2.handlers && s2.handlers[h] == Decoded(request, packet, |s.calls|)
      && s2.sent == s1.sent && request.requestId in s2.sent
      && s2.sent[request.requestId] == Sent(request, client, packet, stamp)
      && request.requestId in s2.waiting && s2.clientSeen == s.clientSeen
      && s2.forwards == s.forwards && s2.replies == s.replies
  {
    var s1 := Apply(cfg, s, Send(client, request, stamp));
    SendKeepsSent(cfg, s.sent, s1.sent[request.requestId]);
    ReceiveDelivers(cfg, s1, h, request.requestId, serverNow);
  }

  /**
   * The relay is live: from every reachable state, an undisturbed exchange whose packets get
   * through both ends' limits and replay checks is a run, and it returns the upstream response.
   */
  lemma ExchangeCompletes(cfg: Config, s: State, client: nat, request: RelayRequest, stamp: Stamp, h: nat,
                          serverNow: int, u: Upstream, replyStamp: Stamp, clientNow: int)
    requires Lawful(cfg.lib) && Reachable(cfg, s) && Enabled(cfg, s, Send(client, request, stamp))
    requires h !in s.handlers && ClockMayRead(cfg, s, serverNow)
    requires GetsThrough(cfg.lib, cfg.client, cfg.server, s.serverSeen, Request(request), stamp, serverNow)
    requires |EncodeMessage(cfg.lib, cfg.client, Request(request), stamp).value| <= cfg.server.maxCiphertext
    requires ForwardResult(cfg.maxBytes, request, u).Ok? && ForwardResult(cfg.maxBytes, request, u).value.Response?
    requires GetsThrough(cfg.lib, cfg.server, cfg.client, ClientTable(s, client),
                         ForwardResult(cfg.maxBytes, request, u).value, replyStamp, clientNow)
    ensures var reply := ForwardResult(cfg.maxBytes, request, u).value;
      var packet := EncodeMessage(cfg.lib, cfg.client, Request(request), stamp).value;
      var replyPacket := EncodeMessage(cfg.lib, cfg.server, reply, replyStamp).value;
      var events := Exchange(client, request, stamp, packet, h, serverNow, u, replyStamp, replyPacket, clientNow);
      && IsRun(cfg, s, events)
      && var s' := StateAfter(cfg, s, events);
      request.requestId in s'.returned && s'.returned[request.requestId].reply == reply
  {
    var reply := ForwardResult(cfg.maxBytes, request, u).value;
    var packet := EncodeMessage(cfg.lib, cfg.client, Request(request), stamp).value;
    var replyPacket := EncodeMessage(cfg.lib, cfg.server, reply, replyStamp).value;
    ReachableInv(cfg, s);
    var e1, e2 := Send(client, request, stamp), Receive(h, packet, serverNow);
    var e3, e4, e5 := ForwardUp(h, u), Reply(h, replyStamp), Accept(request.requestId, replyPacket, clientNow);
    SendIsReceived(cfg, s, client, request, stamp, h, serverNow);
    var s1 := Apply(cfg, s, e1);
    var s2 := Apply(cfg, s1, e2);
    ServesDecoded(cfg, s2, h, u, replyStamp);
    ForwardKeepsId(cfg.maxBytes, request, u);
    var s3 := Apply(cfg, s2, e3);
    var s4 := Apply(cfg, s3, e4);
    SendKeepsSent(cfg, s.sent, s1.sent[request.requestId]);
    var k := Sealed(reply, replyPacket, replyStamp);
    assert k in s4.replies;
    AcceptDelivers(cfg, s4, k, request.requestId, clientNow);
    var s5 := Apply(cfg, s4, e5);
    assert IsRun(cfg, s5, []);
    RunCons(cfg, s4, e5, []);
    RunCons(cfg, s3, e4, [e5] + []);
    RunCons(cfg, s2, e3, [e4] + ([e5] + []));
    RunCons(cfg, s1, e2, [e3] + ([e4] + ([e5] + [])));
    RunCons(cfg, s, e1, [e2] + ([e3] + ([e4] + ([e5] + []))));
  }
}
