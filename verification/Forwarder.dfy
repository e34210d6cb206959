/** Bounded buffering, and forwarding one request upstream. */
module Forwarder {
  import opened Wrappers
  import opened Bytes
  import opened Text
  import opened Models
  import opened Headers
  import opened Target

  // ---- Bounded buffering -------------------------------------------------

  function Concat(chunks: seq<bytes>): bytes {
    if chunks == [] then [] else Concat(chunks[..|chunks| - 1]) + chunks[|chunks| - 1]
  }

  ghost function Longest(chunks: seq<bytes>): nat {
    if chunks == [] then 0
    else
      var front := Longest(chunks[..|chunks| - 1]);
      if |chunks[|chunks| - 1]| > front then |chunks[|chunks| - 1]| else front
  }

  /** Chunks are concatenated in the order they arrive. */
  lemma {:induction false} ConcatAppends(a: seq<bytes>, b: seq<bytes>)
    ensures Concat(a + b) == Concat(a) + Concat(b)
    decreases |b|
  {
    if b == [] {
      assert a + b == a;
    } else {
      var front, last := b[..|b| - 1], b[|b| - 1];
      ConcatAppends(a, front);
      assert (a + b)[..|a + b| - 1] == a + front;
      Associates(Concat(a), Concat(front), last);
    }
  }

  lemma ConcatOne(chunk: bytes)
    ensures Concat([chunk]) == chunk
  {
    assert [chunk][..0] == [];
  }

  lemma {:induction false} ConcatGrows(chunks: seq<bytes>, k: nat)
    requires k <= |chunks|
    ensures |Concat(chunks[..k])| <= |Concat(chunks)| && Longest(chunks[..k]) <= Longest(chunks)
    decreases |chunks|
  {
    if k == |chunks| {
      assert chunks[..k] == chunks;
    } else {
      var front := chunks[..|chunks| - 1];
      assert front[..k] == chunks[..k];
      ConcatGrows(front, k);
    }
  }

  /**
   * Reading a carrier body: accepted exactly when the total length is within the limit, and then
   * the concatenation, for every split into chunks; no more than the limit is ever buffered.
   */
  method ReadLimitedBody(chunks: seq<bytes>, maxBytes: nat) returns (r: Result<bytes>, ghost peak: nat)
    ensures r == if |Concat(chunks)| <= maxBytes then Ok(Concat(chunks)) else Err(RequestTooLarge)
    ensures peak <= maxBytes
  {
    var body: bytes := [];
    peak := 0;
    for k := 0 to |chunks|
      invariant body == Concat(chunks[..k]) && |body| <= peak <= maxBytes
    {
      assert chunks[..k + 1][..k] == chunks[..k];
      if |chunks[k]| > maxBytes - |body| {
        ConcatGrows(chunks, k + 1);
        return Err(RequestTooLarge), peak;
      }
      body := body + chunks[k];
      peak := if |body| > peak then |body| else peak;
    }
    assert chunks[..|chunks|] == chunks;
    r := Ok(body);
  }

  /**
   * Reading an upstream body: refused exactly when the total length exceeds the limit, which is
   * noticed with at most one chunk over it in the buffer.
   */
  method AccumulateBody(chunks: seq<bytes>, maxBytes: nat) returns (r: Option<bytes>, ghost peak: nat)
    ensures r == if |Concat(chunks)| <= maxBytes then Some(Concat(chunks)) else None
    ensures peak <= maxBytes + Longest(chunks)
  {
    var body: bytes := [];
    peak := 0;
    for k := 0 to |chunks|
      invariant body == Concat(chunks[..k]) && |body| <= maxBytes
      invariant |body| <= peak <= maxBytes + Longest(chunks)
    {
      assert chunks[..k + 1][..k] == chunks[..k];
      ConcatGrows(chunks, k + 1);
      body := body + chunks[k];
      peak := if |body| > peak then |body| else peak;
      if |body| > maxBytes {
        return None, peak;
      }
    }
    assert chunks[..|chunks|] == chunks;
    r := Some(body);
  }

  // ---- Forwarding --------------------------------------------------------

  /** How an exchange with the upstream server can fail. */
  datatype Failure = TimedOut | ConnectFailed | HttpFailed | OtherFailure

  /** What the upstream server does: nothing usable, or a response whose stream may break off. */
  datatype Upstream =
    | NoResponse(failure: Failure)
    | Responding(status: int, reason: string, headers: HeaderList, chunks: seq<bytes>, broken: Option<Failure>)

  datatype UpstreamRequest = UpstreamRequest(verb: string, url: string, headers: HeaderList, body: bytes)

  /** What is asked of the upstream server for a request. */
  function Asked(r: RelayRequest): UpstreamRequest
    requires ValidRequest(r)
  {
    UpstreamRequest(r.verb, Url(r), Filter(r.headers), r.body)
  }

  function FailureReply(requestId: string, f: Failure): Result<Message> {
    match f
    case TimedOut => Checked(Error(RelayError(Some(requestId), "upstream_timeout", "Upstream request timed out", true)))
    case ConnectFailed =>
      Checked(Error(RelayError(Some(requestId), "upstream_connection_failed", "Could not connect to upstream", true)))
    case HttpFailed =>
      Checked(Error(RelayError(Some(requestId), "upstream_protocol_error", "Upstream HTTP error", true)))
    case OtherFailure => Err(PythonError)
  }

  function TooLargeReply(requestId: string): Result<Message> {
    Checked(Error(RelayError(Some(requestId), "response_too_large", "Upstream response is too large", false)))
  }

  function ForwardResult(maxBytes: nat, r: RelayRequest, u: Upstream): Result<Message> {
    match u
    case NoResponse(f) => FailureReply(r.requestId, f)
    case Responding(status, reason, headers, chunks, broken) =>
      if |Concat(chunks)| > maxBytes then
        TooLargeReply(r.requestId)
      else if broken.Some? then FailureReply(r.requestId, broken.value)
      else Checked(Response(RelayResponse(r.requestId, status, Some(reason), Filter(headers), Concat(chunks))))
  }

  method Forward(maxBytes: nat, request: RelayRequest, u: Upstream)
    returns (r: Result<Message>, asked: UpstreamRequest, ghost peak: nat)
    requires ValidRequest(request)
    ensures r == ForwardResult(maxBytes, request, u) && asked == Asked(request)
    ensures u.Responding? ==> peak <= maxBytes + Longest(u.chunks)
  {
    var netloc := Netloc(request.host, request.port);
    var url := request.scheme + "://" + netloc + request.path;
    if request.query != "" {
      url := url + "?" + request.query;
    }
    var headers := FilterForwardHeaders(request.headers);
    asked := UpstreamRequest(request.verb, url, headers, request.body);
    peak := 0;
    match u
    case NoResponse(f) => r := FailureReply(request.requestId, f);
    case Responding(status, reason, upstreamHeaders, chunks, broken) =>
      var body;
      body, peak := AccumulateBody(chunks, maxBytes);
      if body.None? {
        r := TooLargeReply(request.requestId);
      } else if broken.Some? {
        r := FailureReply(request.requestId, broken.value);
      } else {
        var filtered := FilterForwardHeaders(upstreamHeaders);
        r := Checked(Response(RelayResponse(request.requestId, status, Some(reason), filtered, body.value)));
      }
  }

  /**
   * A response is returned exactly for an exchange that ran to its end within the limit, and it is
   * the upstream's: status, reason, filtered headers and the whole body, under the request's id.
   */
  lemma RespondsExactly(maxBytes: nat, r: RelayRequest, u: Upstream, q: RelayResponse)
    ensures ForwardResult(maxBytes, r, u) == Ok(Response(q)) <==>
      && u.Responding? && u.broken.None? && |Concat(u.chunks)| <= maxBytes && ValidResponse(q)
      && q == RelayResponse(r.requestId, u.status, Some(u.reason), Filter(u.headers), Concat(u.chunks))
  {
  }

  /** The exchange failed this way before more than the limit was received. */
  predicate FailedAs(maxBytes: nat, u: Upstream, f: Failure) {
    match u
    case NoResponse(g) => g == f
    case Responding(_, _, _, chunks, broken) => |Concat(chunks)| <= maxBytes && broken == Some(f)
  }

  /** The reply in every case that gives no response; an exceeded limit goes before a broken stream. */
  lemma FailsExactly(maxBytes: nat, r: RelayRequest, u: Upstream, f: Failure)
    requires ValidRequestId(r.requestId)
    ensures u.Responding? && |Concat(u.chunks)| > maxBytes ==>
      ForwardResult(maxBytes, r, u) ==
        Ok(Error(RelayError(Some(r.requestId), "response_too_large", "Upstream response is too large", false)))
    ensures FailedAs(maxBytes, u, TimedOut) ==>
      ForwardResult(maxBytes, r, u) ==
        Ok(Error(RelayError(Some(r.requestId), "upstream_timeout", "Upstream request timed out", true)))
    ensures FailedAs(maxBytes, u, ConnectFailed) ==>
      ForwardResult(maxBytes, r, u) ==
        Ok(Error(RelayError(Some(r.requestId), "upstream_connection_failed", "Could not connect to upstream", true)))
    ensures FailedAs(maxBytes, u, HttpFailed) ==>
      ForwardResult(maxBytes, r, u) ==
        Ok(Error(RelayError(Some(r.requestId), "upstream_protocol_error", "Upstream HTTP error", true)))
    ensures ForwardResult(maxBytes, r, u) == Err(PythonError) <==> FailedAs(maxBytes, u, OtherFailure)
    ensures ForwardResult(maxBytes, r, u) == Err(ProtocolError) <==>
      && u.Responding? && u.broken.None? && |Concat(u.chunks)| <= maxBytes
      && !ValidResponse(RelayResponse(r.requestId, u.status, Some(u.reason), Filter(u.headers), Concat(u.chunks)))
  {
    FailureTextsAreLines();
  }

  lemma FailureTextsAreLines()
    ensures IsFieldValue("Upstream response is too large") && IsFieldValue("Upstream request timed out")
    ensures IsFieldValue("Could not connect to upstream") && IsFieldValue("Upstream HTTP error")
  {
    SizeAndTimeTexts();
    PlainIsFieldValue("Could not connect to upstream");
    PlainIsFieldValue("Upstream HTTP error");
  }

  lemma SizeAndTimeTexts()
    ensures IsFieldValue("Upstream response is too large") && IsFieldValue("Upstream request timed out")
  {
    PlainIsFieldValue("Upstream response is too large");
    PlainIsFieldValue("Upstream request timed out");
  }

  /** What forwarding returns is a valid response or error under the request's own id. */
  lemma ForwardKeepsId(maxBytes: nat, r: RelayRequest, u: Upstream)
    requires ForwardResult(maxBytes, r, u).Ok?
    ensures var m := ForwardResult(maxBytes, r, u).value;
      && ValidMessage(m) && !m.Request?
      && (m.Response? ==> m.response.requestId == r.requestId && |m.response.body| <= maxBytes)
      && (m.Error? ==> m.failure.requestId == Some(r.requestId))
  {
  }

  /** Hop-by-hop and nominated headers pass in neither direction, and all others do. */
  lemma HopByHopStaysHere(maxBytes: nat, r: RelayRequest, u: Upstream, h: (string, string))
    requires ValidRequest(r) && Latin1Names(r.headers) && IsLatin1(h.0)
    requires u.Responding? ==> Latin1Names(u.headers)
    ensures h in Asked(r).headers <==> h in r.headers && !Removed(r.headers, h.0)
    ensures var result := ForwardResult(maxBytes, r, u);
      result.Ok? && result.value.Response? ==>
        u.Responding? && (h in result.value.response.headers <==> h in u.headers && !Removed(u.headers, h.0))
  {
    SurvivesExactly(r.headers, h);
    if u.Responding? {
      SurvivesExactly(u.headers, h);
    }
  }

  /** The proxy's and the forwarder's filtering together are one, whatever ran first. */
  lemma FilteredOnceUpstream(headers: HeaderList, r: RelayRequest)
    requires ValidRequest(r) && r.headers == Filter(headers)
    ensures Asked(r).headers == Filter(headers)
  {
    FilterIdempotent(headers);
  }
}
