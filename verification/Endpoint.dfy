/** The server's relay handler. */
module Endpoint {
  import opened Wrappers
  import opened Bytes
  import opened Models
  import opened Aead
  import opened Replay
  import opened Pipeline
  import opened Forwarder
  import Codec

  function CodeFor(e: ErrorKind): string {
    match e
    case ReplayDetected => "replay_detected"
    case PacketExpired => "packet_expired"
    case PacketFromFuture => "packet_from_future"
    case ReplayCacheFull => "replay_cache_full"
    case RequestTooLarge => "request_too_large"
    case ResponseTooLarge => "response_too_large"
    case _ => "invalid_packet"
  }

  function TextFor(e: ErrorKind): string {
    match e
    case ReplayDetected => "Replay detected"
    case PacketExpired => "Packet expired"
    case PacketFromFuture => "Packet timestamp is too far in the future"
    case ReplayCacheFull => "Replay cache is full"
    case RequestTooLarge => "Request body is too large"
    case ResponseTooLarge => "Response body is too large"
    case _ => "Relay packet could not be processed"
  }

  /** The error reply for an exception, under the request's id where there is one. */
  function ErrorReply(e: ErrorKind, requestId: Option<string>): RelayError {
    RelayError(requestId, CodeFor(e), TextFor(e), e.ReplayCacheFull?)
  }

  lemma CodeIsKnown(e: ErrorKind)
    ensures CodeFor(e) in ERROR_CODES
  {
  }

  lemma ReplayTextIsOneLine(e: ErrorKind)
    requires e.ReplayDetected? || e.PacketExpired? || e.PacketFromFuture?
    ensures IsFieldValue(TextFor(e))
  {
    var text := TextFor(e);
    assert forall i :: 0 <= i < |text| ==> text[i] >= ' ';
  }

  lemma LimitTextIsOneLine(e: ErrorKind)
    requires e.ReplayCacheFull? || e.RequestTooLarge? || e.ResponseTooLarge?
    ensures IsFieldValue(TextFor(e))
  {
    var text := TextFor(e);
    assert forall i :: 0 <= i < |text| ==> text[i] >= ' ';
  }

  lemma OtherTextIsOneLine(e: ErrorKind)
    requires !e.ReplayDetected? && !e.PacketExpired? && !e.PacketFromFuture?
    requires !e.ReplayCacheFull? && !e.RequestTooLarge? && !e.ResponseTooLarge?
    ensures IsFieldValue(TextFor(e))
  {
    var text := TextFor(e);
    assert forall i :: 0 <= i < |text| ==> text[i] >= ' ';
  }

  lemma ErrorReplyValid(e: ErrorKind, requestId: Option<string>)
    requires requestId.Some? ==> ValidRequestId(requestId.value)
    ensures ValidError(ErrorReply(e, requestId))
  {
    CodeIsKnown(e);
    if e.ReplayDetected? || e.PacketExpired? || e.PacketFromFuture? {
      ReplayTextIsOneLine(e);
    } else if e.ReplayCacheFull? || e.RequestTooLarge? || e.ResponseTooLarge? {
      LimitTextIsOneLine(e);
    } else {
      OtherTextIsOneLine(e);
    }
  }

  /** Decoding a carrier body; anything but a request is an error. */
  function ServerDecode(lib: Libraries, settings: Settings, seen: Seen, packet: bytes, nowMs: int)
    : (Result<RelayRequest>, Seen)
  {
    match Decode(lib, settings, seen, packet, nowMs)
    case (Err(e), seen') => (Err(e), seen')
    case (Ok(Request(r)), seen') => (Ok(r), seen')
    case (Ok(_), seen') => (Err(PythonError), seen')
  }

  /** The reply to a decoded request. */
  function ReplyTo(maxBytes: nat, r: RelayRequest, u: Upstream): Message {
    match ForwardResult(maxBytes, r, u)
    case Ok(m) => m
    case Err(e) => Error(ErrorReply(e, Some(r.requestId)))
  }

  /** The message sealed for a decoding outcome. */
  function AnswerTo(maxBytes: nat, decoded: Result<RelayRequest>, u: Upstream): Message {
    match decoded case Err(e) => Error(ErrorReply(e, None)) case Ok(r) => ReplyTo(maxBytes, r, u)
  }

  /** A whole handler run without interleaving: the packet returned and the replay table after it. */
  function RelayResult(lib: Libraries, settings: Settings, maxBytes: nat, seen: Seen, body: bytes, nowMs: int,
                       u: Upstream, stamp: Stamp): (Result<bytes>, Seen) {
    if |body| > settings.maxCiphertext then (Err(RequestTooLarge), seen)
    else
      var (decoded, seen') := ServerDecode(lib, settings, seen, body, nowMs);
      (EncodeMessage(lib, settings, AnswerTo(maxBytes, decoded, u), stamp), seen')
  }

  // ---- What the handler answers -------------------------------------------

  /** The handler seals this message. */
  ghost predicate Replies(lib: Libraries, settings: Settings, maxBytes: nat, seen: Seen, body: bytes, nowMs: int,
                          u: Upstream, stamp: Stamp, reply: Message) {
    RelayResult(lib, settings, maxBytes, seen, body, nowMs, u, stamp).0 == EncodeMessage(lib, settings, reply, stamp)
  }

  const INVALID_PACKET: Message :=
    Error(RelayError(None, "invalid_packet", "Relay packet could not be processed", false))

  /** A carrier body over the limit is refused outright, whatever it holds, and not recorded. */
  lemma OversizedRefused(lib: Libraries, settings: Settings, maxBytes: nat, seen: Seen, body: bytes, nowMs: int,
                         u: Upstream, stamp: Stamp)
    requires |body| > settings.maxCiphertext
    ensures RelayResult(lib, settings, maxBytes, seen, body, nowMs, u, stamp) == (Err(RequestTooLarge), seen)
  {
  }

  /** A body within the limit that does not open is answered, and not recorded. */
  lemma UnopenedAnswered(lib: Libraries, settings: Settings, maxBytes: nat, seen: Seen, body: bytes, nowMs: int,
                         u: Upstream, stamp: Stamp)
    requires |body| <= settings.maxCiphertext && OpenPacket(lib.cipher, body, settings.maxCiphertext).Err?
    ensures RelayResult(lib, settings, maxBytes, seen, body, nowMs, u, stamp) ==
      (EncodeMessage(lib, settings, INVALID_PACKET, stamp), seen)
  {
  }

  /** The error message for every exception, letter by letter. */
  lemma ExpiredReply(id: Option<string>)
    ensures ErrorReply(PacketExpired, id) == RelayError(id, "packet_expired", "Packet expired", false)
  {
  }

  lemma FutureReply(id: Option<string>)
    ensures ErrorReply(PacketFromFuture, id) ==
      RelayError(id, "packet_from_future", "Packet timestamp is too far in the future", false)
  {
  }

  lemma ReplayReply(id: Option<string>)
    ensures ErrorReply(ReplayDetected, id) == RelayError(id, "replay_detected", "Replay detected", false)
  {
  }

  lemma FullReply(id: Option<string>)
    ensures ErrorReply(ReplayCacheFull, id) == RelayError(id, "replay_cache_full", "Replay cache is full", true)
  {
  }

  lemma SizeReplies(id: Option<string>)
    ensures ErrorReply(RequestTooLarge, id) == RelayError(id, "request_too_large", "Request body is too large", false)
    ensures ErrorReply(ResponseTooLarge, id) ==
      RelayError(id, "response_too_large", "Response body is too large", false)
  {
  }

  lemma OtherReply(e: ErrorKind, id: Option<string>)
    requires IsOtherFailure(e)
    ensures ErrorReply(e, id) == RelayError(id, "invalid_packet", "Relay packet could not be processed", false)
  {
  }

  predicate IsOtherFailure(e: ErrorKind) {
    e !in {ReplayDetected, PacketExpired, PacketFromFuture, ReplayCacheFull, RequestTooLarge, ResponseTooLarge}
  }

  /** A decoding failure is answered by its error message, under no id. */
  lemma RefusalAnswered(lib: Libraries, settings: Settings, maxBytes: nat, seen: Seen, body: bytes, nowMs: int,
                        u: Upstream, stamp: Stamp, e: ErrorKind)
    requires |body| <= settings.maxCiphertext && Decode(lib, settings, seen, body, nowMs).0 == Err(e)
    ensures Replies(lib, settings, maxBytes, seen, body, nowMs, u, stamp, Error(ErrorReply(e, None)))
  {
  }

  lemma JudgedAnswered(lib: Libraries, settings: Settings, maxBytes: nat, seen: Seen, body: bytes, nowMs: int,
                       u: Upstream, stamp: Stamp, o: OpenedPacket, v: Verdict)
    requires |body| <= settings.maxCiphertext && OpenPacket(lib.cipher, body, settings.maxCiphertext) == Ok(o)
    requires Judge(settings.replay, seen, CallOf(o, nowMs)).0 == v && v != Accepted
    ensures Replies(lib, settings, maxBytes, seen, body, nowMs, u, stamp, Error(ErrorReply(ErrorOf(v), None)))
  {
    RefusedByReplay(lib, settings, seen, body, nowMs, v);
    RefusalAnswered(lib, settings, maxBytes, seen, body, nowMs, u, stamp, ErrorOf(v));
  }

  /** A packet older than the window. */
  lemma ExpiredAnswered(lib: Libraries, settings: Settings, maxBytes: nat, seen: Seen, body: bytes, nowMs: int,
                        u: Upstream, stamp: Stamp, o: OpenedPacket)
    requires |body| <= settings.maxCiphertext && OpenPacket(lib.cipher, body, settings.maxCiphertext) == Ok(o)
    requires o.timestampMs < nowMs - settings.replay.windowMs
    ensures Replies(lib, settings, maxBytes, seen, body, nowMs, u, stamp,
                    Error(RelayError(None, "packet_expired", "Packet expired", false)))
  {
    OpenedConforms(lib.cipher, body, settings.maxCiphertext);
    VerdictExactly(settings.replay, seen, CallOf(o, nowMs));
    JudgedAnswered(lib, settings, maxBytes, seen, body, nowMs, u, stamp, o, Expired);
    ExpiredReply(None);
  }

  /** A packet further ahead than the skew. */
  lemma FutureAnswered(lib: Libraries, settings: Settings, maxBytes: nat, seen: Seen, body: bytes, nowMs: int,
                       u: Upstream, stamp: Stamp, o: OpenedPacket)
    requires |body| <= settings.maxCiphertext && OpenPacket(lib.cipher, body, settings.maxCiphertext) == Ok(o)
    requires nowMs - settings.replay.windowMs <= o.timestampMs && nowMs + settings.replay.skewMs < o.timestampMs
    ensures Replies(lib, settings, maxBytes, seen, body, nowMs, u, stamp,
                    Error(RelayError(None, "packet_from_future", "Packet timestamp is too far in the future", false)))
  {
    OpenedConforms(lib.cipher, body, settings.maxCiphertext);
    VerdictExactly(settings.replay, seen, CallOf(o, nowMs));
    JudgedAnswered(lib, settings, maxBytes, seen, body, nowMs, u, stamp, o, FromFuture);
    FutureReply(None);
  }

  /** A packet in time whose nonce the table remembers. */
  lemma RememberedAnswered(lib: Libraries, settings: Settings, maxBytes: nat, seen: Seen, body: bytes, nowMs: int,
                           u: Upstream, stamp: Stamp, o: OpenedPacket)
    requires |body| <= settings.maxCiphertext && OpenPacket(lib.cipher, body, settings.maxCiphertext) == Ok(o)
    requires InTime(settings, o, nowMs) && Remembers(seen, o.nonceId, nowMs - settings.replay.windowMs)
    ensures Replies(lib, settings, maxBytes, seen, body, nowMs, u, stamp,
                    Error(RelayError(None, "replay_detected", "Replay detected", false)))
  {
    OpenedConforms(lib.cipher, body, settings.maxCiphertext);
    VerdictExactly(settings.replay, seen, CallOf(o, nowMs));
    JudgedAnswered(lib, settings, maxBytes, seen, body, nowMs, u, stamp, o, Replayed);
    ReplayReply(None);
  }

  lemma NoRoomIsFull(settings: Settings, seen: Seen, o: OpenedPacket, nowMs: int)
    requires |o.nonceId| == 16
    requires InTime(settings, o, nowMs) && !Remembers(seen, o.nonceId, nowMs - settings.replay.windowMs)
    requires |Purged(seen, nowMs - settings.replay.windowMs)| >= settings.replay.maxEntries
    ensures Judge(settings.replay, seen, CallOf(o, nowMs)).0 == Full
  {
    VerdictExactly(settings.replay, seen, CallOf(o, nowMs));
  }

  /** A new packet in time for which the table has no room. */
  lemma FullAnswered(lib: Libraries, settings: Settings, maxBytes: nat, seen: Seen, body: bytes, nowMs: int,
                     u: Upstream, stamp: Stamp, o: OpenedPacket)
    requires |body| <= settings.maxCiphertext && OpenPacket(lib.cipher, body, settings.maxCiphertext) == Ok(o)
    requires InTime(settings, o, nowMs) && !Remembers(seen, o.nonceId, nowMs - settings.replay.windowMs)
    requires |Purged(seen, nowMs - settings.replay.windowMs)| >= settings.replay.maxEntries
    ensures Replies(lib, settings, maxBytes, seen, body, nowMs, u, stamp,
                    Error(RelayError(None, "replay_cache_full", "Replay cache is full", true)))
  {
    OpenedConforms(lib.cipher, body, settings.maxCiphertext);
    NoRoomIsFull(settings, seen, o, nowMs);
    JudgedAnswered(lib, settings, maxBytes, seen, body, nowMs, u, stamp, o, Full);
    FullReply(None);
  }

  predicate InTime(settings: Settings, o: OpenedPacket, nowMs: int) {
    nowMs - settings.replay.windowMs <= o.timestampMs <= nowMs + settings.replay.skewMs
  }

  /** The packet opens, is in time and new, and there is room for it. */
  predicate LetIn(lib: Libraries, settings: Settings, seen: Seen, body: bytes, nowMs: int, o: OpenedPacket) {
    && |body| <= settings.maxCiphertext && OpenPacket(lib.cipher, body, settings.maxCiphertext) == Ok(o)
    && InTime(settings, o, nowMs) && !Remembers(seen, o.nonceId, nowMs - settings.replay.windowMs)
    && |Purged(seen, nowMs - settings.replay.windowMs)| < settings.replay.maxEntries
  }

  lemma LetInIsAccepted(lib: Libraries, settings: Settings, seen: Seen, body: bytes, nowMs: int, o: OpenedPacket)
    requires |body| <= settings.maxCiphertext && OpenPacket(lib.cipher, body, settings.maxCiphertext) == Ok(o)
    ensures LetIn(lib, settings, seen, body, nowMs, o) <==>
      Judge(settings.replay, seen, CallOf(o, nowMs)).0 == Accepted
  {
    OpenedConforms(lib.cipher, body, settings.maxCiphertext);
    VerdictExactly(settings.replay, seen, CallOf(o, nowMs));
  }

  /** What decoding a packet let in comes to is what unwrapping its content comes to. */
  lemma LetInDecodes(lib: Libraries, settings: Settings, seen: Seen, body: bytes, nowMs: int, o: OpenedPacket)
    requires LetIn(lib, settings, seen, body, nowMs, o)
    ensures Decode(lib, settings, seen, body, nowMs).0 == Unwrap(lib, settings, o)
  {
    LetInIsAccepted(lib, settings, seen, body, nowMs, o);
  }

  /** What is answered to a packet let in whose content is refused. */
  lemma ContentAnswered(lib: Libraries, settings: Settings, maxBytes: nat, seen: Seen, body: bytes, nowMs: int,
                        u: Upstream, stamp: Stamp, o: OpenedPacket, e: ErrorKind)
    requires LetIn(lib, settings, seen, body, nowMs, o) && Unwrap(lib, settings, o) == Err(e)
    ensures Replies(lib, settings, maxBytes, seen, body, nowMs, u, stamp,
      if e == RequestTooLarge then Error(RelayError(None, "request_too_large", "Request body is too large", false))
      else if e == ResponseTooLarge then
        Error(RelayError(None, "response_too_large", "Response body is too large", false))
      else INVALID_PACKET)
  {
    LetInDecodes(lib, settings, seen, body, nowMs, o);
    RefusalAnswered(lib, settings, maxBytes, seen, body, nowMs, u, stamp, e);
    UnwrapFailures(lib, settings, o);
    SizeReplies(None);
    if IsOtherFailure(e) {
      OtherReply(e, None);
    }
  }

  /** What is answered to a packet let in that carries no request. */
  lemma NoRequestAnswered(lib: Libraries, settings: Settings, maxBytes: nat, seen: Seen, body: bytes, nowMs: int,
                          u: Upstream, stamp: Stamp, o: OpenedPacket)
    requires LetIn(lib, settings, seen, body, nowMs, o)
    requires Unwrap(lib, settings, o).Ok? && !Unwrap(lib, settings, o).value.Request?
    ensures Replies(lib, settings, maxBytes, seen, body, nowMs, u, stamp, INVALID_PACKET)
  {
    LetInDecodes(lib, settings, seen, body, nowMs, o);
    NotARequestAnswered(lib, settings, maxBytes, seen, body, nowMs, u, stamp);
    OtherReply(PythonError, None);
  }

  lemma NotARequestAnswered(lib: Libraries, settings: Settings, maxBytes: nat, seen: Seen, body: bytes, nowMs: int,
                            u: Upstream, stamp: Stamp)
    requires |body| <= settings.maxCiphertext && Decode(lib, settings, seen, body, nowMs).0.Ok?
    requires !Decode(lib, settings, seen, body, nowMs).0.value.Request?
    ensures Replies(lib, settings, maxBytes, seen, body, nowMs, u, stamp, Error(ErrorReply(PythonError, None)))
  {
  }

  /** Unwrapping fails in these four ways only. */
  lemma UnwrapFailures(lib: Libraries, settings: Settings, o: OpenedPacket)
    requires Unwrap(lib, settings, o).Err?
    ensures Unwrap(lib, settings, o).error in {CompressionError, SerializationError, RequestTooLarge, ResponseTooLarge}
  {
  }

  /** A decoded request is answered by what forwarding it gives. */
  lemma RequestAnswered(lib: Libraries, settings: Settings, maxBytes: nat, seen: Seen, body: bytes, nowMs: int,
                        u: Upstream, stamp: Stamp, o: OpenedPacket, r: RelayRequest, m: Message)
    requires LetIn(lib, settings, seen, body, nowMs, o) && Unwrap(lib, settings, o) == Ok(Request(r))
    requires ForwardResult(maxBytes, r, u) == Ok(m)
    ensures Replies(lib, settings, maxBytes, seen, body, nowMs, u, stamp, m)
  {
    LetInDecodes(lib, settings, seen, body, nowMs, o);
    DecodedAnswered(lib, settings, maxBytes, seen, body, nowMs, u, stamp, r);
  }

  /** When forwarding raises, the answer is an error under the request's own id, and only then is there an id. */
  lemma RaisedAnswered(lib: Libraries, settings: Settings, maxBytes: nat, seen: Seen, body: bytes, nowMs: int,
                       u: Upstream, stamp: Stamp, o: OpenedPacket, r: RelayRequest)
    requires LetIn(lib, settings, seen, body, nowMs, o) && Unwrap(lib, settings, o) == Ok(Request(r))
    requires ForwardResult(maxBytes, r, u).Err?
    ensures Replies(lib, settings, maxBytes, seen, body, nowMs, u, stamp,
                    Error(RelayError(Some(r.requestId), "invalid_packet", "Relay packet could not be processed",
                                     false)))
  {
    LetInDecodes(lib, settings, seen, body, nowMs, o);
    DecodedAnswered(lib, settings, maxBytes, seen, body, nowMs, u, stamp, r);
    LetInIsValid(lib, settings, body, o, r);
    RaisedReply(maxBytes, r, u);
  }

  lemma LetInIsValid(lib: Libraries, settings: Settings, body: bytes, o: OpenedPacket, r: RelayRequest)
    requires OpenPacket(lib.cipher, body, settings.maxCiphertext) == Ok(o)
    requires Unwrap(lib, settings, o) == Ok(Request(r))
    ensures ValidRequest(r)
  {
    OpenedConforms(lib.cipher, body, settings.maxCiphertext);
    UnwrappedConforms(lib, settings, o);
  }

  lemma RaisedReply(maxBytes: nat, r: RelayRequest, u: Upstream)
    requires ValidRequestId(r.requestId) && ForwardResult(maxBytes, r, u).Err?
    ensures ReplyTo(maxBytes, r, u) ==
      Error(RelayError(Some(r.requestId), "invalid_packet", "Relay packet could not be processed", false))
  {
    ForwardRaises(maxBytes, r, u);
    OtherReply(ForwardResult(maxBytes, r, u).error, Some(r.requestId));
  }

  lemma DecodedAnswered(lib: Libraries, settings: Settings, maxBytes: nat, seen: Seen, body: bytes, nowMs: int,
                        u: Upstream, stamp: Stamp, r: RelayRequest)
    requires |body| <= settings.maxCiphertext && Decode(lib, settings, seen, body, nowMs).0 == Ok(Request(r))
    ensures Replies(lib, settings, maxBytes, seen, body, nowMs, u, stamp, ReplyTo(maxBytes, r, u))
  {
  }

  lemma ForwardRaises(maxBytes: nat, r: RelayRequest, u: Upstream)
    requires ValidRequestId(r.requestId) && ForwardResult(maxBytes, r, u).Err?
    ensures ForwardResult(maxBytes, r, u).error in {PythonError, ProtocolError}
  {
  }

  /** A request or response packet let in whose body exceeds the server's limit is answered so. */
  lemma OversizedBodyAnswered(lib: Libraries, sender: Settings, settings: Settings, maxBytes: nat, seen: Seen,
                              m: Message, sent: Stamp, nowMs: int, u: Upstream, stamp: Stamp)
    requires Lawful(lib) && ValidMessage(m) && !m.Error? && PayloadOf(lib, sender, m).Ok?
    requires EncodeMessage(lib, sender, m, sent).Ok? && !BodyFits(settings, m)
    requires |Codec.Dumps(lib.msgpack, m).value| <= settings.maxDecompressed
    requires LetIn(lib, settings, seen, EncodeMessage(lib, sender, m, sent).value, nowMs,
                   OpenedOf(lib, sender, m, sent))
    ensures Replies(lib, settings, maxBytes, seen, EncodeMessage(lib, sender, m, sent).value, nowMs, u, stamp,
      if m.Request? then Error(RelayError(None, "request_too_large", "Request body is too large", false))
      else Error(RelayError(None, "response_too_large", "Response body is too large", false)))
  {
    UnwrapUndoesPayload(lib, sender, settings, m, sent);
    ContentAnswered(lib, settings, maxBytes, seen, EncodeMessage(lib, sender, m, sent).value, nowMs, u, stamp,
                    OpenedOf(lib, sender, m, sent), if m.Request? then RequestTooLarge else ResponseTooLarge);
  }

  /**
   * With a clock that never goes back, a stored packet posted again is answered as expired or as a
   * replay, as its age decides, whatever the server received in between.
   */
  lemma RepeatAnswered(lib: Libraries, settings: Settings, maxBytes: nat, attempts: seq<Attempt>, i: nat, j: nat,
                       u: Upstream, stamp: Stamp)
    requires ReadingsAscend(attempts) && i < j < |attempts| && attempts[i].packet == attempts[j].packet
    requires |attempts[i].packet| <= settings.maxCiphertext
    requires OpenPacket(lib.cipher, attempts[i].packet, settings.maxCiphertext).Ok?
    requires LetIn(lib, settings, TableAfter(lib, settings, attempts[..i]), attempts[i].packet, attempts[i].nowMs,
                   OpenPacket(lib.cipher, attempts[i].packet, settings.maxCiphertext).value)
    ensures var o := OpenPacket(lib.cipher, attempts[j].packet, settings.maxCiphertext).value;
      Replies(lib, settings, maxBytes, TableAfter(lib, settings, attempts[..j]), attempts[j].packet, attempts[j].nowMs,
              u, stamp,
              if o.timestampMs < attempts[j].nowMs - settings.replay.windowMs
              then Error(RelayError(None, "packet_expired", "Packet expired", false))
              else Error(RelayError(None, "replay_detected", "Replay detected", false)))
  {
    var o := OpenPacket(lib.cipher, attempts[i].packet, settings.maxCiphertext).value;
    LetInIsAccepted(lib, settings, TableAfter(lib, settings, attempts[..i]), attempts[i].packet, attempts[i].nowMs, o);
    StoredPacketRefused(lib, settings, attempts, i, j);
    var late := o.timestampMs < attempts[j].nowMs - settings.replay.windowMs;
    RefusalAnswered(lib, settings, maxBytes, TableAfter(lib, settings, attempts[..j]), attempts[j].packet,
                    attempts[j].nowMs, u, stamp, if late then PacketExpired else ReplayDetected);
    ExpiredReply(None);
    ReplayReply(None);
  }

  class RelayEndpoint {
    const lib: Libraries
    const settings: Settings
    const maxBytes: nat
    const cache: ReplayCache

    constructor (lib: Libraries, settings: Settings, maxBytes: nat, cache: ReplayCache)
      requires cache.limits == settings.replay && settings.maxCiphertext >= 0
      ensures Valid() && this.cache == cache && this.settings == settings && this.lib == lib
        && this.maxBytes == maxBytes
    {
      this.lib, this.settings, this.maxBytes, this.cache := lib, settings, maxBytes, cache;
    }

    predicate Valid() {
      cache.limits == settings.replay && settings.maxCiphertext >= 0
    }

    method Relay(chunks: seq<bytes>, nowMs: int, u: Upstream, stamp: Stamp) returns (r: Result<bytes>)
      requires Valid()
      modifies cache
      ensures (r, cache.seen) == RelayResult(lib, settings, maxBytes, old(cache.seen), Concat(chunks), nowMs, u, stamp)
    {
      var body, _ := ReadLimitedBody(chunks, settings.maxCiphertext);
      if body.Err? {
        return Err(body.error);
      }
      var message: Option<RelayRequest> := None;
      var reply: Message;
      var decoded := DecodeMessage(lib, settings, cache, body.value, nowMs);
      if decoded.Err? {
        reply := Error(ErrorReply(decoded.error, None));
      } else if !decoded.value.Request? {
        reply := Error(ErrorReply(PythonError, None));
      } else {
        message := Some(decoded.value.request);
        DecodedConforms(lib, settings, old(cache.seen), body.value, nowMs);
        var forwarded, _, _ := Forward(maxBytes, message.value, u);
        reply := match forwarded case Ok(m) => m case Err(e) => Error(ErrorReply(e, Some(message.value.requestId)));
      }
      r := EncodeMessage(lib, settings, reply, stamp);
    }
  }
}
