/** The local proxy: one connection from reading a request to writing a response. */
module Proxy {
  import opened Wrappers
  import opened Bytes
  import opened Text
  import opened Models
  import opened Aead
  import opened Replay
  import opened Pipeline
  import opened Headers
  import opened Target
  import opened HttpReader
  import opened HttpWriter
  import opened Forwarder
  import opened Client
  import opened Protocol

  const BAD_REQUEST: Message := Error(RelayError(None, "bad_request", "Request could not be processed", false))

  /** The relay request built from what was read; its constructor may refuse it. */
  function ToRelayRequest(requestId: string, m: HttpRequest): Result<RelayRequest> {
    var r := RelayRequest(requestId, m.verb, m.scheme, m.host, m.port, m.path, m.query, Filter(m.headers), m.body);
    if ValidRequest(r) then Ok(r) else Err(ProtocolError)
  }

  /** Everything a connection meets from outside while it is handled. */
  datatype Surroundings = Surroundings(requestId: string, stamp: Stamp, response: Option<bytes>, nowMs: int)

  /** What handling a connection does: the message answered with, the packet posted, the replay table after. */
  datatype Handling = Handling(answer: Message, posted: Option<bytes>, seen: Seen)

  /** Sending a request and judging what comes back; a failure is answered by a generic error. */
  function SendingOf(lib: Libraries, settings: Settings, request: RelayRequest, seen: Seen, w: Surroundings): Handling {
    match EncodeMessage(lib, settings, Request(request), w.stamp)
    case Err(_) => Handling(BAD_REQUEST, None, seen)
    case Ok(packet) =>
      if w.response.None? then Handling(BAD_REQUEST, Some(packet), seen)
      else
        var (reply, seen') := AcceptReply(lib, settings, seen, request, w.response.value, w.nowMs);
        Handling(if reply.Ok? then reply.value else BAD_REQUEST, Some(packet), seen')
  }

  /** The whole connection: whatever cannot be read or is no valid request is not sent. */
  function HandlingOf(urls: UrlLibrary, lib: Libraries, settings: Settings, maxHeaderBytes: int,
                      stream: bytes, seen: Seen, w: Surroundings): Handling {
    match RequestOf(urls, stream, maxHeaderBytes, settings.maxRequestBody).0
    case Err(_) => Handling(BAD_REQUEST, None, seen)
    case Ok(m) =>
      match ToRelayRequest(w.requestId, m)
      case Err(_) => Handling(BAD_REQUEST, None, seen)
      case Ok(request) => SendingOf(lib, settings, request, seen, w)
  }

  lemma AnswerIsPrintable(urls: UrlLibrary, lib: Libraries, settings: Settings, maxHeaderBytes: int,
                          stream: bytes, seen: Seen, w: Surroundings)
    ensures var m := HandlingOf(urls, lib, settings, maxHeaderBytes, stream, seen, w).answer;
      ValidMessage(m) && !m.Request?
  {
    BadRequestIsValid();
    match RequestOf(urls, stream, maxHeaderBytes, settings.maxRequestBody).0
    case Err(_) =>
    case Ok(m) =>
      match ToRelayRequest(w.requestId, m)
      case Err(_) =>
      case Ok(request) => SendingIsPrintable(lib, settings, request, seen, w);
  }

  lemma SendingIsPrintable(lib: Libraries, settings: Settings, request: RelayRequest, seen: Seen, w: Surroundings)
    ensures var m := SendingOf(lib, settings, request, seen, w).answer;
      ValidMessage(m) && !m.Request?
  {
    BadRequestIsValid();
    if w.response.Some? {
      ReplyIsPrintable(lib, settings, seen, request, w.response.value, w.nowMs);
    }
  }

  lemma ReplyIsPrintable(lib: Libraries, settings: Settings, seen: Seen, request: RelayRequest, packet: bytes,
                         nowMs: int)
    ensures var r := AcceptReply(lib, settings, seen, request, packet, nowMs).0;
      r.Ok? ==> ValidMessage(r.value) && !r.value.Request?
  {
    if Decode(lib, settings, seen, packet, nowMs).0.Ok? {
      DecodedConforms(lib, settings, seen, packet, nowMs);
    }
  }

  lemma BadRequestText()
    ensures IsFieldValue(BAD_REQUEST.failure.message)
  {
    var text := BAD_REQUEST.failure.message;
    assert forall i :: 0 <= i < |text| ==> text[i] >= ' ';
  }

  lemma BadRequestIsValid()
    ensures ValidMessage(BAD_REQUEST)
  {
    BadRequestText();
    assert "bad_request" in ERROR_CODES;
  }

  /** The guarded part of a connection: read a request, build the relay request, send it. */
  method Obtain(urls: UrlLibrary, client: RelayClient, maxHeaderBytes: int, reader: Reader, w: Surroundings)
    returns (answer: Message, posted: Option<bytes>)
    requires client.replayCache.limits == client.settings.replay
    modifies reader, client.replayCache
    ensures reader.unread == RequestOf(urls, old(reader.unread), maxHeaderBytes, client.settings.maxRequestBody).1
    ensures Handling(answer, posted, client.replayCache.seen) ==
      HandlingOf(urls, client.lib, client.settings, maxHeaderBytes, old(reader.unread), old(client.replayCache.seen), w)
  {
    answer, posted := BAD_REQUEST, None;
    var read := ReadRequest(urls, reader, maxHeaderBytes, client.settings.maxRequestBody);
    if read.Ok? {
      var request := ToRelayRequest(w.requestId, read.value);
      if request.Ok? {
        var reply;
        reply, posted := client.Send(request.value, w.stamp, w.response, w.nowMs);
        if reply.Ok? {
          answer := reply.value;
        }
      }
    }
  }

  method Handle(urls: UrlLibrary, utf8: string -> bytes, client: RelayClient, maxHeaderBytes: int,
                reader: Reader, writer: Writer, w: Surroundings) returns (r: Result<()>, posted: Option<bytes>)
    requires client.replayCache.limits == client.settings.replay
    modifies reader, writer, client.replayCache
    ensures reader.unread == RequestOf(urls, old(reader.unread), maxHeaderBytes, client.settings.maxRequestBody).1
    ensures var h := HandlingOf(urls, client.lib, client.settings, maxHeaderBytes,
                                old(reader.unread), old(client.replayCache.seen), w);
      && posted == h.posted && client.replayCache.seen == h.seen
      && ValidMessage(h.answer) && !h.answer.Request?
      && r == BytesOf(PrintoutOf(utf8, h.answer)).0
      && writer.written == old(writer.written) + BytesOf(PrintoutOf(utf8, h.answer)).1
  {
    AnswerIsPrintable(urls, client.lib, client.settings, maxHeaderBytes, reader.unread, client.replayCache.seen, w);
    var answer;
    answer, posted := Obtain(urls, client, maxHeaderBytes, reader, w);
    r := WriteResponse(utf8, writer, answer);
  }

  // ---- What a connection is answered ---------------------------------------

  /** The message is printed, and the bytes read as this start line, these headers and this body. */
  ghost predicate Prints(utf8: string -> bytes, m: Message, start: (string, string, string), headers: HeaderList,
                         body: bytes) {
    && ValidMessage(m) && !m.Request?
    && BytesOf(PrintoutOf(utf8, m)).0 == Ok(())
    && ReadsAs(BytesOf(PrintoutOf(utf8, m)).1, start, headers, body)
  }

  ghost predicate PrintsError(utf8: string -> bytes, m: Message, text: string) {
    Prints(utf8, m, ("HTTP/1.1", "502", "Bad Gateway"),
           [("content-type", "text/plain; charset=utf-8")] + FramingFor(|utf8(text)|), utf8(text))
  }

  ghost predicate PrintsResponse(utf8: string -> bytes, m: Message, r: RelayResponse) {
    Prints(utf8, m, ("HTTP/1.1", Decimal(if r.statusCode < 0 then 0 else r.statusCode),
                     if r.reasonPhrase.None? then "" else r.reasonPhrase.value),
           Trimmed(Filter(r.headers)) + FramingFor(|r.body|), r.body)
  }

  lemma ErrorIsPrinted(utf8: string -> bytes, e: RelayError)
    requires ValidError(e)
    ensures PrintsError(utf8, Error(e), e.message)
  {
    ErrorParsesBack(e, utf8);
  }

  lemma BadRequestIsPrinted(utf8: string -> bytes)
    ensures PrintsError(utf8, BAD_REQUEST, "Request could not be processed")
  {
    BadRequestIsValid();
    ErrorIsPrinted(utf8, BAD_REQUEST.failure);
  }

  lemma ResponseIsPrinted(utf8: string -> bytes, r: RelayResponse)
    requires Printable(r) && |r.body| < 0x8000_0000_0000_0000
    ensures PrintsResponse(utf8, Response(r), r)
  {
    OutputParsesBack(r, utf8);
  }

  /** The relay request of what was read: under the given id, field by field, its headers filtered. */
  function RequestFor(id: string, q: HttpRequest): RelayRequest {
    RelayRequest(id, q.verb, q.scheme, q.host, q.port, q.path, q.query, Filter(q.headers), q.body)
  }

  /** What the connection sends: a request was read, it is valid, and it seals into this packet. */
  ghost predicate Sends(urls: UrlLibrary, lib: Libraries, settings: Settings, maxHeaderBytes: int, stream: bytes,
                        w: Surroundings, request: RelayRequest, packet: bytes) {
    var read := RequestOf(urls, stream, maxHeaderBytes, settings.maxRequestBody).0;
    && read.Ok? && request == RequestFor(w.requestId, read.value) && ValidRequest(request)
    && EncodeMessage(lib, settings, Request(request), w.stamp) == Ok(packet)
  }

  lemma SendsIsHandled(urls: UrlLibrary, lib: Libraries, settings: Settings, maxHeaderBytes: int, stream: bytes,
                       seen: Seen, w: Surroundings, request: RelayRequest, packet: bytes)
    requires Sends(urls, lib, settings, maxHeaderBytes, stream, w, request, packet)
    ensures HandlingOf(urls, lib, settings, maxHeaderBytes, stream, seen, w) ==
      SendingOf(lib, settings, request, seen, w)
  {
  }

  /** Nothing was read, or no valid request, or one that does not seal. */
  ghost predicate SendsNothing(urls: UrlLibrary, lib: Libraries, settings: Settings, maxHeaderBytes: int, stream: bytes,
                               w: Surroundings) {
    var read := RequestOf(urls, stream, maxHeaderBytes, settings.maxRequestBody).0;
    || read.Err?
    || !ValidRequest(RequestFor(w.requestId, read.value))
    || EncodeMessage(lib, settings, Request(RequestFor(w.requestId, read.value)), w.stamp).Err?
  }

  /** A connection sends nothing, or exactly one request in exactly one packet. */
  lemma SendsOrNot(urls: UrlLibrary, lib: Libraries, settings: Settings, maxHeaderBytes: int, stream: bytes,
                   w: Surroundings)
    ensures SendsNothing(urls, lib, settings, maxHeaderBytes, stream, w) <==>
      forall request, packet :: !Sends(urls, lib, settings, maxHeaderBytes, stream, w, request, packet)
  {
    if !SendsNothing(urls, lib, settings, maxHeaderBytes, stream, w) {
      var read := RequestOf(urls, stream, maxHeaderBytes, settings.maxRequestBody).0;
      var request := RequestFor(w.requestId, read.value);
      var packet := EncodeMessage(lib, settings, Request(request), w.stamp).value;
      assert Sends(urls, lib, settings, maxHeaderBytes, stream, w, request, packet);
    }
  }

  lemma NothingSentHandled(urls: UrlLibrary, lib: Libraries, settings: Settings, maxHeaderBytes: int, stream: bytes,
                           seen: Seen, w: Surroundings)
    requires SendsNothing(urls, lib, settings, maxHeaderBytes, stream, w)
    ensures HandlingOf(urls, lib, settings, maxHeaderBytes, stream, seen, w) == Handling(BAD_REQUEST, None, seen)
  {
  }

  /** A connection that sends nothing posts nothing, changes no table and answers 502. */
  lemma NothingSentAnswers(urls: UrlLibrary, utf8: string -> bytes, lib: Libraries, settings: Settings,
                           maxHeaderBytes: int, stream: bytes, seen: Seen, w: Surroundings)
    requires SendsNothing(urls, lib, settings, maxHeaderBytes, stream, w)
    ensures var h := HandlingOf(urls, lib, settings, maxHeaderBytes, stream, seen, w);
      h.posted == None && h.seen == seen && PrintsError(utf8, h.answer, "Request could not be processed")
  {
    BadRequestIsPrinted(utf8);
    NothingSentHandled(urls, lib, settings, maxHeaderBytes, stream, seen, w);
  }

  /** When the carrier exchange fails, the packet was posted, no table changes and the answer is 502. */
  lemma CarrierFailureAnswers(urls: UrlLibrary, utf8: string -> bytes, lib: Libraries, settings: Settings,
                              maxHeaderBytes: int, stream: bytes, seen: Seen, w: Surroundings,
                              request: RelayRequest, packet: bytes)
    requires Sends(urls, lib, settings, maxHeaderBytes, stream, w, request, packet) && w.response.None?
    ensures var h := HandlingOf(urls, lib, settings, maxHeaderBytes, stream, seen, w);
      h.posted == Some(packet) && h.seen == seen && PrintsError(utf8, h.answer, "Request could not be processed")
  {
    BadRequestIsPrinted(utf8);
    SendsIsHandled(urls, lib, settings, maxHeaderBytes, stream, seen, w, request, packet);
  }

  /** A reply for this id: a response under it, or an error under it or under none. */
  predicate RepliesTo(id: string, m: Message) {
    match m
    case Request(_) => false
    case Response(r) => r.requestId == id
    case Error(e) => e.requestId == None || e.requestId == Some(id)
  }

  lemma SendingJudges(lib: Libraries, settings: Settings, request: RelayRequest, packet: bytes, seen: Seen,
                      w: Surroundings)
    requires EncodeMessage(lib, settings, Request(request), w.stamp) == Ok(packet) && w.response.Some?
    ensures var (decoded, table) := Decode(lib, settings, seen, w.response.value, w.nowMs);
      SendingOf(lib, settings, request, seen, w) ==
      Handling(if decoded.Ok? && RepliesTo(request.requestId, decoded.value) then decoded.value else BAD_REQUEST,
               Some(packet), table)
  {
    var decoded := Decode(lib, settings, seen, w.response.value, w.nowMs).0;
    if decoded.Ok? {
      AcceptsExactly(lib, settings, seen, request, w.response.value, w.nowMs, decoded.value);
    }
  }

  /** A carrier body that does not decode, or to no reply for this request, is answered 502 as well. */
  lemma RefusedReplyAnswers(urls: UrlLibrary, utf8: string -> bytes, lib: Libraries, settings: Settings,
                            maxHeaderBytes: int, stream: bytes, seen: Seen, w: Surroundings,
                            request: RelayRequest, packet: bytes)
    requires Sends(urls, lib, settings, maxHeaderBytes, stream, w, request, packet) && w.response.Some?
    requires var decoded := Decode(lib, settings, seen, w.response.value, w.nowMs).0;
      decoded.Ok? ==> !RepliesTo(w.requestId, decoded.value)
    ensures var h := HandlingOf(urls, lib, settings, maxHeaderBytes, stream, seen, w);
      && h.posted == Some(packet) && h.seen == Decode(lib, settings, seen, w.response.value, w.nowMs).1
      && PrintsError(utf8, h.answer, "Request could not be processed")
  {
    BadRequestIsPrinted(utf8);
    SendsIsHandled(urls, lib, settings, maxHeaderBytes, stream, seen, w, request, packet);
    SendingJudges(lib, settings, request, packet, seen, w);
  }

  /** A carrier body that decodes to a reply for this request is what the application is answered. */
  lemma ReplyAnswers(urls: UrlLibrary, utf8: string -> bytes, lib: Libraries, settings: Settings,
                     maxHeaderBytes: int, stream: bytes, seen: Seen, w: Surroundings,
                     request: RelayRequest, packet: bytes, reply: Message)
    requires Sends(urls, lib, settings, maxHeaderBytes, stream, w, request, packet) && w.response.Some?
    requires Decode(lib, settings, seen, w.response.value, w.nowMs).0 == Ok(reply) && RepliesTo(w.requestId, reply)
    ensures var h := HandlingOf(urls, lib, settings, maxHeaderBytes, stream, seen, w);
      && h.posted == Some(packet) && h.seen == Decode(lib, settings, seen, w.response.value, w.nowMs).1
      && (reply.Response? && Printable(reply.response) && |reply.response.body| < 0x8000_0000_0000_0000 ==>
          PrintsResponse(utf8, h.answer, reply.response))
      && (reply.Error? ==> PrintsError(utf8, h.answer, reply.failure.message))
  {
    SendsIsHandled(urls, lib, settings, maxHeaderBytes, stream, seen, w, request, packet);
    SendingJudges(lib, settings, request, packet, seen, w);
    DecodedConforms(lib, settings, seen, w.response.value, w.nowMs);
    match reply
    case Response(r) =>
      if Printable(r) && |r.body| < 0x8000_0000_0000_0000 {
        ResponseIsPrinted(utf8, r);
      }
    case Error(e) => ErrorIsPrinted(utf8, e);
  }

  lemma SealedDecodes(lib: Libraries, sender: Settings, receiver: Settings, m: Message, stamp: Stamp, seen: Seen,
                      nowMs: int, packet: bytes)
    requires Lawful(lib) && GetsThrough(lib, sender, receiver, seen, m, stamp, nowMs) && !m.Error?
    requires EncodeMessage(lib, sender, m, stamp) == Ok(packet)
    ensures Decode(lib, receiver, seen, packet, nowMs) ==
      (Ok(m), Purged(seen, nowMs - receiver.replay.windowMs)[stamp.nonceId := stamp.timestampMs])
  {
    DecodeDelivers(lib, sender, receiver, m, stamp, seen, nowMs);
    EncodedOpens(lib, sender, receiver, m, stamp);
    DecodeTableEffect(lib, receiver, seen, packet, nowMs);
  }

  /**
   * When a request was read and sent, and the carrier brings the packet a server sealed for a
   * printable response under the request's id, within the limits and new, then exactly that response
   * is printed to the application, and the packet's nonce is remembered.
   */
  lemma SealedResponseIsPrinted(urls: UrlLibrary, utf8: string -> bytes, lib: Libraries, settings: Settings,
                                server: Settings, maxHeaderBytes: int, stream: bytes, seen: Seen, w: Surroundings,
                                request: RelayRequest, packet: bytes, r: RelayResponse, stamp: Stamp, sealed: bytes)
    requires Lawful(lib) && Sends(urls, lib, settings, maxHeaderBytes, stream, w, request, packet)
    requires Printable(r) && r.requestId == w.requestId && |r.body| < 0x8000_0000_0000_0000
    requires GetsThrough(lib, server, settings, seen, Response(r), stamp, w.nowMs)
    requires EncodeMessage(lib, server, Response(r), stamp) == Ok(sealed) && w.response == Some(sealed)
    ensures var h := HandlingOf(urls, lib, settings, maxHeaderBytes, stream, seen, w);
      && h.posted == Some(packet) && PrintsResponse(utf8, h.answer, r)
      && h.seen == Purged(seen, w.nowMs - settings.replay.windowMs)[stamp.nonceId := stamp.timestampMs]
  {
    SealedDecodes(lib, server, settings, Response(r), stamp, seen, w.nowMs, sealed);
    ReplyAnswers(urls, utf8, lib, settings, maxHeaderBytes, stream, seen, w, request, packet, Response(r));
  }

  // ---- From the application's request to the upstream server -------------

  /** A request was read, it makes a valid relay request, this is asked upstream and that stays unread. */
  ghost predicate ReachesUpstream(read: (Result<HttpRequest>, bytes), requestId: string, rest: bytes,
                                  asked: UpstreamRequest) {
    && read.1 == rest && read.0.Ok?
    && ToRelayRequest(requestId, read.0.value).Ok?
    && Asked(ToRelayRequest(requestId, read.0.value).value) == asked
  }

  /**
   * A well-formed origin-form request on the stream becomes, at the upstream server, the same
   * method, the URL made of the Host header and the target, the trimmed headers filtered once, and the body.
   */
  lemma OriginFormReachesUpstream(urls: UrlLibrary, verb: string, path: string, query: string, headers: HeaderList,
                                  body: bytes, rest: bytes, host: string, port: Option<int>,
                                  maxHeaderBytes: int, maxBodyBytes: int, requestId: string)
    requires SplitsOrigin(urls) && ReadsDecimals(urls)
    requires WellFormed(verb, OriginTarget(path, query), headers, body, maxBodyBytes)
    requires var head := RenderHead(verb, OriginTarget(path, query), headers);
      IsLatin1(head) && |head| <= maxHeaderBytes
    requires CleanOrigin(path) && ValidPath(path) && '#' !in query && ControlFree(query)
    requires ValidHost(host) && ':' !in host && (port.Some? ==> 1 <= port.value <= 65535)
    requires SingleHost(Trimmed(headers)) == Ok(Netloc(host, port)) && ValidRequestId(requestId)
    ensures var stream := EncodeLatin1(RenderHead(verb, OriginTarget(path, query), headers)) + body + rest;
      ReachesUpstream(RequestOf(urls, stream, maxHeaderBytes, maxBodyBytes), requestId, rest,
        UpstreamRequest(verb, "http://" + Netloc(host, port) + OriginTarget(path, query),
                        Filter(Trimmed(headers)), body))
  {
    ReadsRendered(urls, verb, OriginTarget(path, query), headers, body, rest, maxHeaderBytes, maxBodyBytes);
    TrimmedValid(headers);
    OriginFormResolves(urls, verb, path, query, Trimmed(headers), body, host, port);
    OriginFormAsked(verb, path, query, Trimmed(headers), body, host, port, requestId);
  }

  lemma OriginFormAsked(verb: string, path: string, query: string, headers: HeaderList, body: bytes,
                        host: string, port: Option<int>, requestId: string)
    requires IsToken(verb) && Upper(verb) != "CONNECT" && ValidHeaders(headers)
    requires ValidPath(path) && ControlFree(query) && ValidHost(host) && ValidRequestId(requestId)
    requires port.Some? ==> 1 <= port.value <= 65535
    ensures var r := ToRelayRequest(requestId, HttpRequest(verb, "http", host, port, path, query, headers, body));
      && r.Ok?
      && Asked(r.value) ==
         UpstreamRequest(verb, "http://" + Netloc(host, port) + OriginTarget(path, query), Filter(headers), body)
  {
    FilterKeepsValid(headers);
    var r := ToRelayRequest(requestId, HttpRequest(verb, "http", host, port, path, query, headers, body)).value;
    FilteredOnceUpstream(headers, r);
    var before := "http" + "://" + Netloc(host, port);
    assert "http" + "://" == "http://";
    assert Url(r) == before + OriginTarget(path, query) by {
      if query != "" {
        assert before + (path + "?" + query) == before + path + "?" + query;
      }
    }
  }

  /** What an absolute-form request makes: the relay request itself, its headers replaced by the filtered ones. */
  lemma AbsoluteFormAsked(r: RelayRequest, headers: HeaderList)
    requires ValidRequest(r) && ValidHeaders(headers)
    ensures var read := HttpRequest(r.verb, r.scheme, r.host, r.port, r.path, r.query, headers, r.body);
      && ToRelayRequest(r.requestId, read) == Ok(r.(headers := Filter(headers)))
      && ValidRequest(r.(headers := Filter(headers)))
      && Asked(r.(headers := Filter(headers))) == UpstreamRequest(r.verb, Url(r), Filter(headers), r.body)
  {
    FilterKeepsValid(headers);
    FilteredOnceUpstream(headers, r.(headers := Filter(headers)));
    assert Url(r.(headers := Filter(headers))) == Url(r);
  }

  /**
   * The form a client sends to a proxy: a well-formed request whose target is a canonical absolute
   * URL under a matching Host becomes, at the upstream server, the same method and that same URL,
   * the trimmed headers filtered once, and the body.
   */
  lemma AbsoluteFormReachesUpstream(urls: UrlLibrary, r: RelayRequest, headers: HeaderList, rest: bytes,
                                    maxHeaderBytes: int, maxBodyBytes: int)
    requires SplitsAbsolute(urls) && ValidRequest(r)
    requires CanonicalHost(r.host) && '#' !in r.path && '#' !in r.query
    requires WellFormed(r.verb, Url(r), headers, r.body, maxBodyBytes)
    requires var head := RenderHead(r.verb, Url(r), headers);
      IsLatin1(head) && |head| <= maxHeaderBytes
    requires var host := SingleHost(Trimmed(headers));
      host.Ok? && Lower(host.value) == Netloc(r.host, r.port)
    ensures var stream := EncodeLatin1(RenderHead(r.verb, Url(r), headers)) + r.body + rest;
      ReachesUpstream(RequestOf(urls, stream, maxHeaderBytes, maxBodyBytes), r.requestId, rest,
        UpstreamRequest(r.verb, Url(r), Filter(Trimmed(headers)), r.body))
  {
    ReadsRendered(urls, r.verb, Url(r), headers, r.body, rest, maxHeaderBytes, maxBodyBytes);
    TrimmedValid(headers);
    ResolveUndoesUrl(urls, r, Trimmed(headers));
    AbsoluteFormAsked(r, Trimmed(headers));
  }

  // ---- From the upstream server's response to the application ------------

  /** The forwarder's and the writer's filtering together are one. */
  lemma FilteredOnceDownstream(maxBytes: nat, request: RelayRequest, u: Upstream, utf8: string -> bytes)
    requires ForwardResult(maxBytes, request, u).Ok? && ForwardResult(maxBytes, request, u).value.Response?
    ensures u.Responding?
    ensures var m := ForwardResult(maxBytes, request, u).value;
      ValidMessage(m) && PrintoutOf(utf8, m) == Printout(u.status, u.reason, Filter(u.headers), Concat(u.chunks))
  {
    FilterIdempotent(u.headers);
  }

  /**
   * What the application reads back is the upstream response: its status, reason and body, and its
   * headers filtered once, in order, framed by the body's own length.
   */
  lemma UpstreamResponseReachesApplication(maxBytes: nat, request: RelayRequest, u: Upstream, utf8: string -> bytes)
    requires ForwardResult(maxBytes, request, u).Ok? && ForwardResult(maxBytes, request, u).value.Response?
    requires Printable(ForwardResult(maxBytes, request, u).value.response)
    requires maxBytes < 0x8000_0000_0000_0000
    ensures u.Responding? && u.status >= 0 && ValidMessage(ForwardResult(maxBytes, request, u).value)
    ensures var (outcome, output) := BytesOf(PrintoutOf(utf8, ForwardResult(maxBytes, request, u).value));
      && outcome == Ok(())
      && ReadsAs(output, ("HTTP/1.1", Decimal(u.status), u.reason),
                 Trimmed(Filter(u.headers)) + FramingFor(|Concat(u.chunks)|), Concat(u.chunks))
  {
    var r := ForwardResult(maxBytes, request, u).value.response;
    ForwardKeepsId(maxBytes, request, u);
    assert r == RelayResponse(request.requestId, u.status, Some(u.reason), Filter(u.headers), Concat(u.chunks));
    OutputParsesBack(r, utf8);
    FilterIdempotent(u.headers);
  }

  // ---- Across the relay --------------------------------------------------

  /** Forward `i` is of this request, and the bytes read as what its upstream server answered. */
  ghost predicate CarriesAnswer(s: State, i: int, request: RelayRequest, output: bytes) {
    && 0 <= i < |s.forwards| && s.forwards[i].request == request
    && var u := s.forwards[i].upstream;
      && u.Responding? && u.status >= 0
      && ReadsAs(output, ("HTTP/1.1", Decimal(u.status), u.reason),
                 Trimmed(Filter(u.headers)) + FramingFor(|Concat(u.chunks)|), Concat(u.chunks))
  }

  lemma ForwardCarriesAnswer(cfg: Config, s: State, i: int, id: string, reply: Message, utf8: string -> bytes)
    requires Answers(cfg, s, id, i, reply) && reply.Response? && Printable(reply.response)
    requires cfg.maxBytes < 0x8000_0000_0000_0000
    ensures ValidMessage(reply) && BytesOf(PrintoutOf(utf8, reply)).0 == Ok(())
    ensures CarriesAnswer(s, i, s.sent[id].request, BytesOf(PrintoutOf(utf8, reply)).1)
  {
    UpstreamResponseReachesApplication(cfg.maxBytes, s.forwards[i].request, s.forwards[i].upstream, utf8);
  }

  /**
   * From application to upstream server and back: in every reachable state, the bytes printed for a
   * reply that a send returned read as what the upstream server answered to one forward of exactly
   * the request sent, its headers filtered once; and with a clock that does not go back there was no
   * other forward of it.
   */
  lemma ApplicationReadsForward(cfg: Config, s: State, id: string, utf8: string -> bytes)
    requires Lawful(cfg.lib) && Reachable(cfg, s) && id in s.returned && cfg.maxBytes < 0x8000_0000_0000_0000
    requires s.returned[id].reply.Response? ==> Printable(s.returned[id].reply.response)
    ensures id in s.sent && ValidMessage(s.returned[id].reply) && s.returned[id].reply.Response?
    ensures var (outcome, output) := BytesOf(PrintoutOf(utf8, s.returned[id].reply));
      && outcome == Ok(())
      && exists i :: CarriesAnswer(s, i, s.sent[id].request, output) && (cfg.slip == 0 ==> OnlyForward(s, id, i))
  {
    SendReturnsResponses(cfg, s, id);
    EndToEnd(cfg, s, id);
    var reply := s.returned[id].reply;
    var i :| Answers(cfg, s, id, i, reply) && (cfg.slip == 0 ==> OnlyForward(s, id, i));
    ForwardCarriesAnswer(cfg, s, i, id, reply, utf8);
  }

  /**
   * Both ways at once: when what a send posted was read from an application's stream, the one forward
   * behind the bytes printed asked the upstream server exactly what that stream asks for.
   */
  lemma StreamToStream(cfg: Config, s: State, id: string, utf8: string -> bytes,
                       read: (Result<HttpRequest>, bytes), rest: bytes, asked: UpstreamRequest)
    requires Lawful(cfg.lib) && Reachable(cfg, s) && id in s.returned && cfg.maxBytes < 0x8000_0000_0000_0000
    requires s.returned[id].reply.Response? ==> Printable(s.returned[id].reply.response)
    requires ReachesUpstream(read, id, rest, asked)
    requires id in s.sent && Ok(s.sent[id].request) == ToRelayRequest(id, read.0.value)
    ensures ValidMessage(s.returned[id].reply) && s.returned[id].reply.Response?
    ensures exists i ::
      && CarriesAnswer(s, i, s.sent[id].request, BytesOf(PrintoutOf(utf8, s.returned[id].reply)).1)
      && (cfg.slip == 0 ==> OnlyForward(s, id, i))
      && ValidRequest(s.forwards[i].request) && Asked(s.forwards[i].request) == asked
  {
    ApplicationReadsForward(cfg, s, id, utf8);
    var output := BytesOf(PrintoutOf(utf8, s.returned[id].reply)).1;
    var i :| CarriesAnswer(s, i, s.sent[id].request, output) && (cfg.slip == 0 ==> OnlyForward(s, id, i));
    assert ValidRequest(s.forwards[i].request) && Asked(s.forwards[i].request) == asked;
  }

  /**
   * The connection handler inside the relay: it was started for a request that is waiting, and the
   * carrier brings it any packet that is no forgery. Then it posted the packet recorded for that
   * request, and it prints either what the upstream server answered to a forward of that request,
   * the only one when the clock does not go back, or the generic 502.
   */
  lemma HandlerPrintsForward(cfg: Config, s: State, urls: UrlLibrary, utf8: string -> bytes, maxHeaderBytes: int,
                             stream: bytes, w: Surroundings, request: RelayRequest, packet: bytes)
    requires Lawful(cfg.lib) && Reachable(cfg, s) && cfg.maxBytes < 0x8000_0000_0000_0000
    requires Sends(urls, cfg.lib, cfg.client, maxHeaderBytes, stream, w, request, packet) && w.response.Some?
    requires w.requestId in s.waiting && w.requestId in s.sent
    requires s.sent[w.requestId].request == request && s.sent[w.requestId].stamp == w.stamp
    requires Unforged(cfg.lib.cipher, Log(s.sent, s.replies), w.response.value)
    ensures var e := Accept(w.requestId, w.response.value, w.nowMs);
      && Enabled(cfg, s, e) && Reachable(cfg, Apply(cfg, s, e))
      && var s' := Apply(cfg, s, e);
      var table := ClientTable(s, s.sent[w.requestId].client);
      var h := HandlingOf(urls, cfg.lib, cfg.client, maxHeaderBytes, stream, table, w);
      && h.posted == Some(s.sent[w.requestId].packet)
      && (if h.answer.Response? then
            Printable(h.answer.response) ==>
            exists i :: CarriesAnswer(s', i, request, BytesOf(PrintoutOf(utf8, h.answer)).1)
                        && (cfg.slip == 0 ==> OnlyForward(s', w.requestId, i))
          else PrintsError(utf8, h.answer, "Request could not be processed"))
  {
    var id := w.requestId;
    var e := Accept(id, w.response.value, w.nowMs);
    var table := ClientTable(s, s.sent[id].client);
    StepReaches(cfg, s, e);
    ReachableInv(cfg, s);
    SendsIsHandled(urls, cfg.lib, cfg.client, maxHeaderBytes, stream, table, w, request, packet);
    SendingJudges(cfg.lib, cfg.client, request, packet, table, w);
    var s' := Apply(cfg, s, e);
    var h := HandlingOf(urls, cfg.lib, cfg.client, maxHeaderBytes, stream, table, w);
    var decoded := Decode(cfg.lib, cfg.client, table, w.response.value, w.nowMs).0;
    if decoded.Ok? && RepliesTo(id, decoded.value) {
      AcceptsExactly(cfg.lib, cfg.client, table, request, w.response.value, w.nowMs, decoded.value);
      SendReturnsResponses(cfg, s', id);
      if Printable(h.answer.response) {
        ApplicationReadsForward(cfg, s', id, utf8);
      }
    } else {
      BadRequestIsPrinted(utf8);
    }
  }
}
