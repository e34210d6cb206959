/** The client's end of the relay. */
module Client {
  import opened Wrappers
  import opened Bytes
  import opened Models
  import opened Aead
  import opened Replay
  import opened Pipeline

  /** Judging what came back for `message`: not a request, and under its id unless under none. */
  function AcceptReply(lib: Libraries, settings: Settings, seen: Seen, message: RelayRequest, packet: bytes, nowMs: int)
    : (Result<Message>, Seen)
  {
    var (decoded, seen') := Decode(lib, settings, seen, packet, nowMs);
    (match decoded
     case Err(e) => Err(e)
     case Ok(Request(_)) => Err(PythonError)
     case Ok(Response(r)) => if r.requestId != message.requestId then Err(PythonError) else decoded
     case Ok(Error(e)) =>
       if e.requestId.Some? && e.requestId.value != message.requestId then Err(PythonError) else decoded,
     seen')
  }

  /**
   * A reply is accepted exactly when it decodes to a response under the request's id, or to an error
   * under that id or none; what does not decode keeps its own failure. The table is decoding's.
   */
  lemma AcceptsExactly(lib: Libraries, settings: Settings, seen: Seen, message: RelayRequest, packet: bytes, nowMs: int,
                       m: Message)
    ensures var (r, seen') := AcceptReply(lib, settings, seen, message, packet, nowMs);
      var (decoded, table) := Decode(lib, settings, seen, packet, nowMs);
      && seen' == table
      && (r == Ok(m) <==>
          && decoded == Ok(m)
          && (m.Response? || m.Error?)
          && (m.Response? ==> m.response.requestId == message.requestId)
          && (m.Error? ==> m.failure.requestId == None || m.failure.requestId == Some(message.requestId)))
      && (r.Err? ==> r == if decoded.Err? then decoded else Err(PythonError))
  {
  }

  class RelayClient {
    const lib: Libraries
    const settings: Settings
    const replayCache: ReplayCache

    /** The client makes its own replay cache, from its settings. */
    constructor (lib: Libraries, settings: Settings, windowSeconds: int, maxEntries: int, skewSeconds: int)
      requires settings.replay == Limits(windowSeconds * 1000, skewSeconds * 1000, maxEntries)
      ensures this.lib == lib && this.settings == settings
      ensures fresh(replayCache) && replayCache.seen == map[] && replayCache.limits == settings.replay
    {
      this.lib, this.settings := lib, settings;
      replayCache := new ReplayCache(windowSeconds, maxEntries, skewSeconds);
    }

    /** `response` is what the carrier exchange delivers, or `None` when it fails. */
    method Send(message: RelayRequest, stamp: Stamp, response: Option<bytes>, nowMs: int)
      returns (r: Result<Message>, posted: Option<bytes>)
      requires replayCache.limits == settings.replay
      modifies replayCache
      ensures posted ==
        match EncodeMessage(lib, settings, Request(message), stamp) case Ok(p) => Some(p) case Err(_) => None
      ensures posted.None? || response.None? ==> r.Err? && replayCache.seen == old(replayCache.seen)
      ensures posted.Some? && response.Some? ==>
        (r, replayCache.seen) == AcceptReply(lib, settings, old(replayCache.seen), message, response.value, nowMs)
    {
      var packet := EncodeMessage(lib, settings, Request(message), stamp);
      if packet.Err? {
        return Err(packet.error), None;
      }
      posted := Some(packet.value);
      if response.None? {
        return Err(CarrierFailure), posted;
      }
      var decoded := DecodeMessage(lib, settings, replayCache, response.value, nowMs);
      if decoded.Err? {
        return decoded, posted;
      }
      var reply := decoded.value;
      if reply.Request? {
        return Err(PythonError), posted;
      }
      var replyId := if reply.Response? then Some(reply.response.requestId) else reply.failure.requestId;
      if replyId.Some? && replyId.value != message.requestId {
        return Err(PythonError), posted;
      }
      r := Ok(reply);
    }
  }
}
