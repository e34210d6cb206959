/** Runs the step system really has: an exchange that completes, and a request forwarded twice. */
module Runs {
  import opened Wrappers
  import opened Bytes
  import opened Models
  import opened Aead
  import opened Replay
  import opened Pipeline
  import opened Forwarder
  import opened Protocol
  import Codec

  /** Settings whose limits leave room for a few packed bytes and these bodies. */
  function SmallSettings(limits: Limits, maxBody: nat): Settings {
    Settings(limits, false, 0, 1000, 1000, maxBody, maxBody)
  }

  /** With the toy libraries every listed message encodes, into a packet of 64 bytes and a few. */
  lemma ToyEncodes(values: seq<Codec.Value>, settings: Settings, m: Message, stamp: Stamp)
    requires !settings.compressionEnabled && Codec.Tree(m) in values && |values| <= 100 && ValidStamp(stamp)
    ensures var lib := ToyLibraries(values);
      && Codec.Dumps(lib.msgpack, m).Ok? && |Codec.Dumps(lib.msgpack, m).value| < 100
      && PayloadOf(lib, settings, m) == Ok((Codec.Dumps(lib.msgpack, m).value, false))
      && EncodeMessage(lib, settings, m, stamp).Ok? && |EncodeMessage(lib, settings, m, stamp).value| < 200
  {
    var lib := ToyLibraries(values);
    Codec.IndexHolds(values, Codec.Tree(m));
    var payload := Codec.Dumps(lib.msgpack, m).value;
    ToySeals(payload, MessageType(m), stamp);
  }

  lemma ToySeals(payload: bytes, typeId: int, stamp: Stamp)
    requires |payload| < 100 && ValidStamp(stamp) && typeId in {1, 2, 3}
    ensures Seal(ToyCipher(), payload, typeId, false, stamp).Ok?
    ensures |Seal(ToyCipher(), payload, typeId, false, stamp).value| < 200
  {
    ToyCipherLaws();
    assert Pow256(2) == 65536 && Pow256(4) == 256 * (256 * Pow256(2));
    SealSucceedsExactly(ToyCipher(), payload, typeId, false, stamp);
  }

  lemma ToyGetsThrough(values: seq<Codec.Value>, sender: Settings, receiver: Settings, seen: Seen, m: Message,
                       stamp: Stamp, nowMs: int)
    requires !sender.compressionEnabled && Codec.Tree(m) in values && |values| <= 100 && ValidStamp(stamp)
    requires ValidMessage(m) && BodyFits(receiver, m) && receiver.maxCiphertext >= 200
      && receiver.maxDecompressed >= 100
    requires Judge(receiver.replay, seen, Call(stamp.nonceId, stamp.timestampMs, nowMs)).0 == Replay.Accepted
    ensures GetsThrough(ToyLibraries(values), sender, receiver, seen, m, stamp, nowMs)
    ensures |EncodeMessage(ToyLibraries(values), sender, m, stamp).value| <= receiver.maxCiphertext
  {
    ToyEncodes(values, sender, m, stamp);
  }

  /** Limits that let in a packet read at its own timestamp. */
  predicate Admits(limits: Limits) {
    limits.windowMs >= 0 && limits.skewMs >= 0 && limits.maxEntries > 0
  }

  lemma FirstIsAccepted(limits: Limits, stamp: Stamp)
    requires Admits(limits) && ValidStamp(stamp)
    ensures Judge(limits, map[], Call(stamp.nonceId, stamp.timestampMs, stamp.timestampMs)).0 == Replay.Accepted
  {
    assert Purged(map[], stamp.timestampMs - limits.windowMs) == map[];
  }

  // ---- An exchange that completes ----------------------------------------

  /** A relay that can carry this request and this reply. */
  function ExchangeConfig(request: RelayRequest, reply: Message, limits: Limits, maxBytes: nat, slip: nat): Config {
    var lib := ToyLibraries([Codec.Tree(Request(request)), Codec.Tree(reply)]);
    var settings := SmallSettings(limits, |request.body| + maxBytes);
    Config(lib, settings, settings, maxBytes, slip)
  }

  lemma InitReachable(cfg: Config)
    ensures Reachable(cfg, INIT)
  {
    assert IsRun(cfg, INIT, []) && StateAfter(cfg, INIT, []) == INIT;
  }

  /**
   * Nothing about a message stands in the way: for every valid request and every upstream behaviour
   * that yields a response, some relay under lawful libraries has a run that returns it.
   */
  lemma ExchangeExists(request: RelayRequest, u: Upstream, limits: Limits, maxBytes: nat, slip: nat,
                       stamp: Stamp, replyStamp: Stamp) returns (events: seq<Event>)
    requires ValidRequest(request) && Admits(limits) && ValidStamp(stamp) && ValidStamp(replyStamp)
    requires ForwardResult(maxBytes, request, u).Ok? && ForwardResult(maxBytes, request, u).value.Response?
    ensures var reply := ForwardResult(maxBytes, request, u).value;
      var cfg := ExchangeConfig(request, reply, limits, maxBytes, slip);
      && Lawful(cfg.lib) && IsRun(cfg, INIT, events)
      && var s := StateAfter(cfg, INIT, events);
      request.requestId in s.returned && s.returned[request.requestId].reply == reply
  {
    var reply := ForwardResult(maxBytes, request, u).value;
    var cfg := ExchangeConfig(request, reply, limits, maxBytes, slip);
    var values := [Codec.Tree(Request(request)), Codec.Tree(reply)];
    assert values[0] in values && values[1] in values;
    LawsCanBeMet(values);
    InitReachable(cfg);
    ForwardKeepsId(maxBytes, request, u);
    FirstIsAccepted(limits, stamp);
    FirstIsAccepted(limits, replyStamp);
    ToyGetsThrough(values, cfg.client, cfg.server, map[], Request(request), stamp, stamp.timestampMs);
    ToyGetsThrough(values, cfg.server, cfg.client, map[], reply, replyStamp, replyStamp.timestampMs);
    ExchangeCompletes(cfg, INIT, 0, request, stamp, 0, stamp.timestampMs, u, replyStamp, replyStamp.timestampMs);
    var packet := EncodeMessage(cfg.lib, cfg.client, Request(request), stamp).value;
    var replyPacket := EncodeMessage(cfg.lib, cfg.server, reply, replyStamp).value;
    events := Exchange(0, request, stamp, packet, 0, stamp.timestampMs, u, replyStamp, replyPacket,
      replyStamp.timestampMs);
  }

  // ---- A request forwarded twice -----------------------------------------

  /** Two forwards of one request. */
  ghost predicate ForwardedTwice(s: State) {
    exists i, j :: 0 <= i < j < |s.forwards| && s.forwards[i].request.requestId == s.forwards[j].request.requestId
  }

  /** A relay that can carry this request, whose server keeps these limits. */
  function RequestConfig(request: RelayRequest, limits: Limits, slip: nat): Config {
    ExchangeConfig(request, Request(request), limits, 0, slip)
  }

  /** Receiving a posted packet makes one replay check and starts one handler. */
  lemma ReceivesPosted(cfg: Config, s: State, h: nat, id: string, nowMs: int)
    requires Lawful(cfg.lib) && Reachable(cfg, s) && id in s.sent && h !in s.handlers && ClockMayRead(cfg, s, nowMs)
    requires var k := s.sent[id];
      && |k.packet| <= cfg.server.maxCiphertext && PayloadOf(cfg.lib, cfg.client, Request(k.request)).Ok?
      && |PayloadOf(cfg.lib, cfg.client, Request(k.request)).value.0| + 16 <= cfg.server.maxCiphertext
    ensures var k := s.sent[id];
      var e := Receive(h, k.packet, nowMs);
      && Enabled(cfg, s, e) && Reachable(cfg, Apply(cfg, s, e))
      && var s' := Apply(cfg, s, e);
      && s'.sent == s.sent && s'.forwards == s.forwards && h in s'.handlers
      && s'.handlers == s.handlers[h := s'.handlers[h]]
      && s'.calls == s.calls + [Call(k.stamp.nonceId, k.stamp.timestampMs, nowMs)]
  {
    ReachableInv(cfg, s);
    var k := s.sent[id];
    assert k.packet in Log(s.sent, s.replies);
    SealedIsUnforged(cfg, cfg.client, Request(k.request), k.stamp, Log(s.sent, s.replies));
    EncodedOpens(cfg.lib, cfg.client, cfg.server, Request(k.request), k.stamp);
    StepReaches(cfg, s, Receive(h, k.packet, nowMs));
  }

  /** The packet posted for a request that fits the toy relay. */
  ghost predicate Posted(cfg: Config, s: State, request: RelayRequest, stamp: Stamp) {
    && Reachable(cfg, s) && request.requestId in s.sent
    && s.sent[request.requestId].request == request && s.sent[request.requestId].stamp == stamp
  }

  lemma PostedFits(request: RelayRequest, limits: Limits, slip: nat, s: State, stamp: Stamp)
    requires ValidRequest(request) && ValidStamp(stamp) && Posted(RequestConfig(request, limits, slip), s, request,
      stamp)
    ensures var cfg := RequestConfig(request, limits, slip);
      var k := s.sent[request.requestId];
      && Lawful(cfg.lib) && |k.packet| <= cfg.server.maxCiphertext
      && PayloadOf(cfg.lib, cfg.client, Request(request)).Ok?
      && |PayloadOf(cfg.lib, cfg.client, Request(request)).value.0| + 16 <= cfg.server.maxCiphertext
  {
    var cfg := RequestConfig(request, limits, slip);
    var values := [Codec.Tree(Request(request)), Codec.Tree(Request(request))];
    assert values[0] in values;
    LawsCanBeMet(values);
    ReachableInv(cfg, s);
    ToyEncodes(values, cfg.client, Request(request), stamp);
  }

  /** When the replay check will accept it, the posted packet is decoded to its request. */
  lemma DecodesPosted(request: RelayRequest, limits: Limits, slip: nat, s: State, stamp: Stamp, h: nat, nowMs: int)
    requires ValidRequest(request) && ValidStamp(stamp) && Posted(RequestConfig(request, limits, slip), s, request,
      stamp)
    requires h !in s.handlers && ClockMayRead(RequestConfig(request, limits, slip), s, nowMs)
    requires Judge(limits, s.serverSeen, Call(stamp.nonceId, stamp.timestampMs, nowMs)).0 == Replay.Accepted
    ensures var cfg := RequestConfig(request, limits, slip);
      var e := Receive(h, s.sent[request.requestId].packet, nowMs);
      && Enabled(cfg, s, e) && h in Apply(cfg, s, e).handlers
      && Apply(cfg, s, e).handlers[h] == Decoded(request, s.sent[request.requestId].packet, |s.calls|)
  {
    var cfg := RequestConfig(request, limits, slip);
    var values := [Codec.Tree(Request(request)), Codec.Tree(Request(request))];
    assert values[0] in values;
    PostedFits(request, limits, slip, s, stamp);
    ReachableInv(cfg, s);
    ToyGetsThrough(values, cfg.client, cfg.server, s.serverSeen, Request(request), stamp, nowMs);
    ReceiveDelivers(cfg, s, h, request.requestId, nowMs);
  }

  lemma PostsRequest(request: RelayRequest, limits: Limits, slip: nat, stamp: Stamp) returns (s: State)
    requires ValidRequest(request) && ValidStamp(stamp)
    ensures Posted(RequestConfig(request, limits, slip), s, request, stamp)
    ensures s.calls == [] && s.forwards == [] && s.handlers == map[]
  {
    var cfg := RequestConfig(request, limits, slip);
    var values := [Codec.Tree(Request(request)), Codec.Tree(Request(request))];
    assert values[0] in values;
    ToyEncodes(values, cfg.client, Request(request), stamp);
    InitReachable(cfg);
    var e := Send(0, request, stamp);
    StepReaches(cfg, INIT, e);
    s := Apply(cfg, INIT, e);
  }

  /** The request is held by a handler that has not forwarded it yet. */
  ghost predicate Holds(s: State, h: nat, request: RelayRequest) {
    h in s.handlers && s.handlers[h].Decoded? && s.handlers[h].request == request
  }

  /** The posted packet let in at the end of its window, and refused a moment later. */
  lemma LetInThenRefused(request: RelayRequest, limits: Limits, slip: nat, stamp: Stamp, first: Call, late: Call)
    returns (s: State)
    requires ValidRequest(request) && ValidStamp(stamp)
    requires first == Call(stamp.nonceId, stamp.timestampMs, first.nowMs) && late == first.(nowMs := first.nowMs + 1)
    requires Judge(limits, SeenAfter(limits, []), first).0 == Replay.Accepted
    ensures Posted(RequestConfig(request, limits, slip), s, request, stamp) && s.forwards == []
    ensures Holds(s, 0, request) && 2 !in s.handlers && s.calls == [] + [first] + [late]
  {
    var s2 := LetIn(request, limits, slip, stamp, first);
    ReadsLater(RequestConfig(request, limits, slip), s2, first, late.nowMs);
    s := ReceivesCall(request, limits, slip, stamp, s2, 1, late.nowMs, false);
  }

  lemma LetIn(request: RelayRequest, limits: Limits, slip: nat, stamp: Stamp, first: Call) returns (s: State)
    requires ValidRequest(request) && ValidStamp(stamp) && first == Call(stamp.nonceId, stamp.timestampMs, first.nowMs)
    requires Judge(limits, SeenAfter(limits, []), first).0 == Replay.Accepted
    ensures Posted(RequestConfig(request, limits, slip), s, request, stamp) && s.forwards == []
    ensures Holds(s, 0, request) && s.handlers.Keys == {0} && s.calls == [] + [first]
  {
    var s1 := PostsRequest(request, limits, slip, stamp);
    s := ReceivesCall(request, limits, slip, stamp, s1, 0, first.nowMs, true);
  }

  lemma ReadsLater(cfg: Config, s: State, first: Call, nowMs: int)
    requires s.calls == [] + [first] && first.nowMs <= nowMs
    ensures ClockMayRead(cfg, s, nowMs)
  {
  }

  /** And let in again, by a clock that slipped back. */
  lemma LetInTwice(request: RelayRequest, limits: Limits, slip: nat, stamp: Stamp) returns (s: State)
    requires ValidRequest(request) && ValidStamp(stamp) && slip > 0
    requires limits.maxEntries > 0 && -limits.skewMs <= limits.windowMs
    ensures Reachable(RequestConfig(request, limits, slip), s) && s.forwards == []
    ensures Holds(s, 0, request) && Holds(s, 2, request)
  {
    var now := stamp.timestampMs + limits.windowMs;
    var first, late := Call(stamp.nonceId, stamp.timestampMs, now), Call(stamp.nonceId, stamp.timestampMs, now + 1);
    SlippingVerdicts(limits, first, late);
    var s3 := LetInThenRefused(request, limits, slip, stamp, first, late);
    SlipsBack(RequestConfig(request, limits, slip), s3, first, late);
    s := ReceivesCall(request, limits, slip, stamp, s3, 2, now, true);
  }

  lemma SlipsBack(cfg: Config, s: State, first: Call, late: Call)
    requires cfg.slip > 0 && s.calls == [] + [first] + [late] && late.nowMs == first.nowMs + 1
    ensures ClockMayRead(cfg, s, first.nowMs)
  {
  }

  /** At the end of its window a packet is accepted, and again after a later reading has purged it. */
  lemma SlippingVerdicts(limits: Limits, first: Call, late: Call)
    requires limits.maxEntries > 0 && -limits.skewMs <= limits.windowMs && first.WellFormed()
    requires first.nowMs == first.timestampMs + limits.windowMs && late == first.(nowMs := first.nowMs + 1)
    ensures Judge(limits, SeenAfter(limits, []), first).0 == Replay.Accepted
    ensures Judge(limits, SeenAfter(limits, [] + [first] + [late]), first).0 == Replay.Accepted
  {
    var calls := SlippingRun(limits, first.nonceId, first.timestampMs, limits.windowMs);
    SlippingRunAccepts(limits, first.nonceId, first.timestampMs, limits.windowMs);
    assert calls[..0] == [] && calls[..2] == [] + [first] + [late];
  }

  /** One of the three receptions. */
  lemma ReceivesCall(request: RelayRequest, limits: Limits, slip: nat, stamp: Stamp, s: State, h: nat, nowMs: int,
                     accepted: bool)
    returns (s': State)
    requires ValidRequest(request) && ValidStamp(stamp) && Posted(RequestConfig(request, limits, slip), s, request,
      stamp)
    requires h !in s.handlers && ClockMayRead(RequestConfig(request, limits, slip), s, nowMs)
    requires accepted ==>
      Judge(limits, SeenAfter(limits, s.calls), Call(stamp.nonceId, stamp.timestampMs, nowMs)).0 == Replay.Accepted
    ensures Posted(RequestConfig(request, limits, slip), s', request, stamp) && s'.forwards == s.forwards
    ensures s'.calls == s.calls + [Call(stamp.nonceId, stamp.timestampMs, nowMs)]
    ensures h in s'.handlers && s'.handlers == s.handlers[h := s'.handlers[h]]
    ensures accepted ==> s'.handlers[h] == Decoded(request, s.sent[request.requestId].packet, |s.calls|)
  {
    var cfg := RequestConfig(request, limits, slip);
    PostedFits(request, limits, slip, s, stamp);
    ReceivesPosted(cfg, s, h, request.requestId, nowMs);
    if accepted {
      assert TableInv(cfg, s) by {
        ReachableInv(cfg, s);
      }
      DecodesPosted(request, limits, slip, s, stamp, h, nowMs);
    }
    s' := Apply(cfg, s, Receive(h, s.sent[request.requestId].packet, nowMs));
  }

  lemma ForwardsBoth(cfg: Config, s: State, request: RelayRequest, u: Upstream) returns (s': State)
    requires Reachable(cfg, s) && s.forwards == []
    requires Holds(s, 0, request) && Holds(s, 2, request)
    ensures Reachable(cfg, s') && ForwardedTwice(s')
  {
    StepReaches(cfg, s, ForwardUp(0, u));
    var s1 := Apply(cfg, s, ForwardUp(0, u));
    StepReaches(cfg, s1, ForwardUp(2, u));
    s' := Apply(cfg, s1, ForwardUp(2, u));
    assert s'.forwards[0].request.requestId == s'.forwards[1].request.requestId;
  }

  /** Two forwards need a clock that can slip, and limits that let anything in at all. */
  lemma TwiceNeedsSlip(cfg: Config, s: State)
    requires Lawful(cfg.lib) && Reachable(cfg, s) && ForwardedTwice(s)
    ensures cfg.slip > 0 && cfg.server.replay.maxEntries > 0
    ensures -cfg.server.replay.skewMs <= cfg.server.replay.windowMs
  {
    var i, j :| 0 <= i < j < |s.forwards| && s.forwards[i].request.requestId == s.forwards[j].request.requestId;
    SecondForwardAge(cfg, s, i, j);
    ReachableInv(cfg, s);
    var k := s.forwards[i].call;
    assert AcceptedAs(cfg.server.replay, s.calls, k, s.forwards[i].packet);
    AcceptedAdmits(cfg.server.replay, SeenAfter(cfg.server.replay, s.calls[..k]), s.calls[k]);
  }

  lemma AcceptedAdmits(limits: Limits, seen: Seen, call: Call)
    requires Judge(limits, seen, call).0 == Replay.Accepted
    ensures limits.maxEntries > 0 && -limits.skewMs <= limits.windowMs
  {
  }

  /**
   * At most one forward per request is exactly what a clock that does not go back buys: of the relay
   * that carries this request, some reachable state forwards it twice if and only if the clock may
   * slip at all and the limits let anything in.
   */
  lemma ForwardsTwiceExactly(request: RelayRequest, limits: Limits, slip: nat, stamp: Stamp)
    requires ValidRequest(request) && ValidStamp(stamp)
    ensures var cfg := RequestConfig(request, limits, slip);
      && Lawful(cfg.lib)
      && ((exists s :: Reachable(cfg, s) && ForwardedTwice(s)) <==>
          slip > 0 && limits.maxEntries > 0 && -limits.skewMs <= limits.windowMs)
  {
    var cfg := RequestConfig(request, limits, slip);
    LawsCanBeMet([Codec.Tree(Request(request)), Codec.Tree(Request(request))]);
    forall s | Reachable(cfg, s) && ForwardedTwice(s)
      ensures slip > 0 && limits.maxEntries > 0 && -limits.skewMs <= limits.windowMs
    {
      TwiceNeedsSlip(cfg, s);
    }
    if slip > 0 && limits.maxEntries > 0 && -limits.skewMs <= limits.windowMs {
      var s := LetInTwice(request, limits, slip, stamp);
      var s' := ForwardsBoth(cfg, s, request, NoResponse(TimedOut));
    }
  }
}
