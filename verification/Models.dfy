/** The three message kinds and what makes one valid. */
module Models {
  import opened Wrappers
  import opened Bytes
  import opened Text

  type HeaderList = seq<(string, string)>

  const TYPE_REQUEST := 1
  const TYPE_RESPONSE := 2
  const TYPE_ERROR := 3

  const ERROR_CODES: set<string> := {
    "bad_request", "unauthorized", "invalid_packet", "decrypt_failed", "replay_detected",
    "packet_expired", "packet_from_future", "replay_cache_full", "unsupported_version",
    "unsupported_method", "unsupported_transfer_encoding", "request_too_large",
    "response_too_large", "upstream_timeout", "upstream_connection_failed",
    "upstream_protocol_error", "compression_failed", "decompression_failed", "internal_error"
  }
  const TOKEN_SEPARATORS := "()<>@,;:\\\"/[]?={} \t"

  datatype RelayRequest = RelayRequest(
    requestId: string, verb: string, scheme: string, host: string, port: Option<int>,
    path: string, query: string, headers: HeaderList, body: bytes)

  datatype RelayResponse = RelayResponse(
    requestId: string, statusCode: int, reasonPhrase: Option<string>, headers: HeaderList, body: bytes)

  datatype RelayError = RelayError(
    requestId: Option<string>, errorCode: string, message: string, retryable: bool)

  datatype Message =
    | Request(request: RelayRequest)
    | Response(response: RelayResponse)
    | Error(failure: RelayError)

  predicate IsControl(c: char) {
    c as int < 32 || c as int == 127
  }

  predicate ControlFree(s: string) {
    forall c :: c in s ==> !IsControl(c)
  }

  predicate IsToken(s: string) {
    s != "" && ControlFree(s) && forall c :: c in s ==> c !in TOKEN_SEPARATORS
  }

  predicate IsWordChar(c: char) {
    'A' <= c <= 'Z' || 'a' <= c <= 'z' || c == '-'
  }

  /** The characters of a token in section 5.6.2 of RFC 9110. */
  predicate IsTchar(c: char) {
    || '0' <= c <= '9' || 'A' <= c <= 'Z' || 'a' <= c <= 'z'
    || c == '!' || c == '#' || c == '$' || c == '%' || c == '&' || c == '\'' || c == '*' || c == '+'
    || c == '-' || c == '.' || c == '^' || c == '_' || c == '`' || c == '|' || c == '~'
  }

  lemma TcharExactly(c: char)
    requires c as int < 128
    ensures IsTchar(c) <==> !IsControl(c) && c !in TOKEN_SEPARATORS
  {
    var separators := TOKEN_SEPARATORS;
    assert separators ==
      ['(', ')', '<', '>', '@', ',', ';', ':', '\\', '"', '/', '[', ']', '?', '=', '{', '}', ' ', '\t'];
  }

  /** On ASCII the tokens are those of RFC 9110; beyond it the program lets every character pass. */
  lemma TokenExactly(s: string)
    ensures IsToken(s) <==> s != "" && forall c :: c in s ==> c as int >= 128 || IsTchar(c)
  {
    forall c | c in s && c as int < 128
      ensures IsTchar(c) <==> !IsControl(c) && c !in TOKEN_SEPARATORS
    {
      TcharExactly(c);
    }
    assert forall c :: c in TOKEN_SEPARATORS ==> c as int < 128;
  }

  /** The refused method, in any case. */
  lemma ConnectExactly(s: string)
    ensures Upper(s) == "CONNECT" <==>
      |s| == 7 && forall i :: 0 <= i < 7 ==> s[i] == "CONNECT"[i] || s[i] == "connect"[i]
  {
    if |s| == 7 {
      assert forall i :: 0 <= i < 7 ==>
        (Upper(s)[i] == "CONNECT"[i] <==> s[i] == "CONNECT"[i] || s[i] == "connect"[i]);
    }
  }

  lemma WordIsToken(s: string)
    requires s != "" && forall i :: 0 <= i < |s| ==> IsWordChar(s[i])
    ensures IsToken(s)
  {
    forall c | c in s
      ensures !IsControl(c) && c !in TOKEN_SEPARATORS
    {
      assert IsWordChar(c);
    }
  }

  predicate IsFieldValue(s: string) {
    '\r' !in s && '\n' !in s
  }

  lemma PlainIsFieldValue(s: string)
    requires forall i :: 0 <= i < |s| ==> s[i] >= ' '
    ensures IsFieldValue(s)
  {
  }

  predicate ValidHeaders(headers: HeaderList) {
    forall h :: h in headers ==> IsToken(h.0) && IsFieldValue(h.1)
  }

  predicate ValidRequestId(id: string) {
    |id| == 32 && forall c :: c in id ==> c in "0123456789abcdef"
  }

  predicate ValidHost(host: string) {
    host != "" && ControlFree(host) && (forall c :: c in host ==> c !in "/?#@") && !Contains(host, "://")
  }

  predicate ValidPath(path: string) {
    StartsWith(path, "/") && ControlFree(path) && !Contains(path, "://") && '?' !in path
  }

  predicate ValidRequest(r: RelayRequest) {
    && ValidRequestId(r.requestId)
    && IsToken(r.verb) && Upper(r.verb) != "CONNECT"
    && (r.scheme == "http" || r.scheme == "https")
    && ValidHost(r.host)
    && (r.port.Some? ==> 1 <= r.port.value <= 65535)
    && ValidPath(r.path)
    && ControlFree(r.query)
    && ValidHeaders(r.headers)
  }

  predicate ValidResponse(r: RelayResponse) {
    && ValidRequestId(r.requestId)
    && 100 <= r.statusCode <= 599
    && (r.reasonPhrase.Some? ==> IsFieldValue(r.reasonPhrase.value))
    && ValidHeaders(r.headers)
  }

  predicate ValidError(e: RelayError) {
    && (e.requestId.Some? ==> ValidRequestId(e.requestId.value))
    && e.errorCode in ERROR_CODES
    && IsFieldValue(e.message)
  }

  // ---- What the validators let through, character by character -------------

  predicate IsHexDigit(c: char) {
    '0' <= c <= '9' || 'a' <= c <= 'f'
  }

  lemma HexExactly(c: char)
    ensures c in "0123456789abcdef" <==> IsHexDigit(c)
  {
    var digits := "0123456789abcdef";
    assert digits == ['0', '1', '2', '3', '4', '5', '6', '7', '8', '9', 'a', 'b', 'c', 'd', 'e', 'f'];
  }

  lemma RequestIdExactly(id: string)
    ensures ValidRequestId(id) <==> |id| == 32 && forall c :: c in id ==> IsHexDigit(c)
  {
    forall c | c in id
      ensures c in "0123456789abcdef" <==> IsHexDigit(c)
    {
      HexExactly(c);
    }
  }

  /** A colon and two slashes at position `i`. */
  predicate SchemeMarkAt(s: string, i: nat) {
    i + 3 <= |s| && s[i] == ':' && s[i + 1] == '/' && s[i + 2] == '/'
  }

  lemma ContainsMarkExactly(s: string)
    ensures Contains(s, "://") <==> exists i: nat :: SchemeMarkAt(s, i)
  {
    if Contains(s, "://") {
      var i := Find(s, "://").value;
      assert s[i..i + 3] == "://";
      assert s[i..i + 3][0] == s[i] && s[i..i + 3][1] == s[i + 1] && s[i..i + 3][2] == s[i + 2];
      assert SchemeMarkAt(s, i);
    }
    if i: nat :| SchemeMarkAt(s, i) {
      assert s[i..i + 3] == "://";
      FindIsFirst(s, "://", i);
    }
  }

  /** Printable: neither below space nor DEL. */
  predicate IsPlain(c: char) {
    c >= ' ' && c as int != 127
  }

  /** A host is non-empty and plain, and holds no "/", "?", "#" or "@"; that leaves no room for "://". */
  lemma HostExactly(host: string)
    ensures ValidHost(host) <==>
      host != "" && forall c :: c in host ==> IsPlain(c) && c != '/' && c != '?' && c != '#' && c != '@'
  {
    ContainsMarkExactly(host);
    assert forall c :: c in "/?#@" <==> c == '/' || c == '?' || c == '#' || c == '@';
    if i: nat :| SchemeMarkAt(host, i) {
      assert host[i + 1] in host;
    }
  }

  /** A path begins with "/", is plain, and holds no "?" and no "://". */
  lemma PathExactly(path: string)
    ensures ValidPath(path) <==>
      && path != "" && path[0] == '/'
      && (forall c :: c in path ==> IsPlain(c) && c != '?') && !(exists i: nat :: SchemeMarkAt(path, i))
  {
    ContainsMarkExactly(path);
    if path != "" {
      assert path[..1] == [path[0]];
    }
  }

  /** What a relay request may be. */
  lemma ValidRequestExactly(r: RelayRequest)
    ensures ValidRequest(r) <==>
      && |r.requestId| == 32 && (forall c :: c in r.requestId ==> IsHexDigit(c))
      && r.verb != "" && (forall c :: c in r.verb ==> c as int >= 128 || IsTchar(c))
      && !(|r.verb| == 7 && forall i :: 0 <= i < 7 ==> r.verb[i] == "CONNECT"[i] || r.verb[i] == "connect"[i])
      && (r.scheme == "http" || r.scheme == "https")
      && r.host != "" && (forall c :: c in r.host ==> IsPlain(c) && c != '/' && c != '?' && c != '#' && c != '@')
      && (r.port == None || 0 < r.port.value < 0x1_0000)
      && r.path != "" && r.path[0] == '/'
      && (forall c :: c in r.path ==> IsPlain(c) && c != '?') && !(exists i: nat :: SchemeMarkAt(r.path, i))
      && (forall c :: c in r.query ==> IsPlain(c))
      && HeadersInOrder(r.headers)
  {
    RequestIdExactly(r.requestId);
    TokenExactly(r.verb);
    ConnectExactly(r.verb);
    HostExactly(r.host);
    PathExactly(r.path);
    HeadersExactly(r.headers);
  }

  /** Every name is a token, and no value holds a line end. */
  predicate HeadersInOrder(headers: HeaderList) {
    forall k :: 0 <= k < |headers| ==>
      && headers[k].0 != "" && (forall c :: c in headers[k].0 ==> c as int >= 128 || IsTchar(c))
      && (forall c :: c in headers[k].1 ==> c != '\r' && c != '\n')
  }

  lemma HeadersExactly(headers: HeaderList)
    ensures ValidHeaders(headers) <==> HeadersInOrder(headers)
  {
    forall k | 0 <= k < |headers|
      ensures headers[k] in headers
      ensures IsToken(headers[k].0) <==>
        headers[k].0 != "" && forall c :: c in headers[k].0 ==> c as int >= 128 || IsTchar(c)
    {
      TokenExactly(headers[k].0);
    }
  }

  /** What a relay response may be: a three-digit status up to 599, and no line end in the reason. */
  lemma ValidResponseExactly(r: RelayResponse)
    ensures ValidResponse(r) <==>
      && |r.requestId| == 32 && (forall c :: c in r.requestId ==> IsHexDigit(c))
      && 99 < r.statusCode < 600
      && (r.reasonPhrase.Some? ==> forall c :: c in r.reasonPhrase.value ==> c != '\r' && c != '\n')
      && HeadersInOrder(r.headers)
  {
    RequestIdExactly(r.requestId);
    HeadersExactly(r.headers);
  }

  predicate ValidMessage(m: Message) {
    match m
    case Request(r) => ValidRequest(r)
    case Response(r) => ValidResponse(r)
    case Error(e) => ValidError(e)
  }

  function TypeName(typeId: int): Option<string> {
    if typeId == TYPE_REQUEST then Some("request")
    else if typeId == TYPE_RESPONSE then Some("response")
    else if typeId == TYPE_ERROR then Some("error")
    else None
  }

  function MessageType(m: Message): (t: int)
    ensures TypeName(t).Some?
  {
    match m
    case Request(_) => TYPE_REQUEST
    case Response(_) => TYPE_RESPONSE
    case Error(_) => TYPE_ERROR
  }

  /** The dataclass constructors: an invalid field raises. */
  function Checked(m: Message): Result<Message> {
    if ValidMessage(m) then Ok(m) else Err(ProtocolError)
  }
}
