/** The strict message schema, over the value trees msgpack carries. */
module Codec {
  import opened Wrappers
  import opened Bytes
  import opened Constants
  import opened Models

  /** Keys of a msgpack map read with strict_map_key. */
  datatype Key = StrKey(name: string) | BinKey(raw: bytes)

  datatype Value =
    | Nil
    | Bool(b: bool)
    | Int(i: int)
    | Float(f: real)
    | Str(s: string)
    | Bin(data: bytes)
    | Array(items: seq<Value>)
    | Map(entries: map<Key, Value>)

  /** msgpack.packb and unpackb; `None` stands for an exception. */
  datatype Msgpack = Msgpack(pack: Value -> Option<bytes>, unpack: bytes -> Option<Value>)

  ghost predicate Unpacks(mp: Msgpack) {
    forall v :: mp.pack(v).Some? ==> mp.unpack(mp.pack(v).value) == Some(v)
  }

  function IndexOf(values: seq<Value>, v: Value): Option<nat> {
    if values == [] then None
    else if values[0] == v then Some(0)
    else match IndexOf(values[1..], v) case None => None case Some(i) => Some(i + 1)
  }

  /** A packer for the listed trees: each is as many zero bytes as its position. */
  function ListMsgpack(values: seq<Value>): Msgpack {
    Msgpack(
      v => match IndexOf(values, v) case None => None case Some(i) => Some(seq(i, _ => 0)),
      b => if |b| < |values| then Some(values[|b|]) else None)
  }

  lemma {:induction false} IndexHolds(values: seq<Value>, v: Value)
    ensures match IndexOf(values, v)
      case None => v !in values
      case Some(i) => i < |values| && values[i] == v
  {
    if values != [] {
      IndexHolds(values[1..], v);
    }
  }

  /** Any finite list of trees can be packed lawfully. */
  lemma ListUnpacks(values: seq<Value>)
    ensures Unpacks(ListMsgpack(values)) && forall v :: v in values ==> ListMsgpack(values).pack(v).Some?
  {
    forall v
      ensures ListMsgpack(values).pack(v).Some? ==>
        ListMsgpack(values).unpack(ListMsgpack(values).pack(v).value) == Some(v)
      ensures v in values ==> ListMsgpack(values).pack(v).Some?
    {
      IndexHolds(values, v);
    }
  }

  // ---- Writing -----------------------------------------------------------

  const REQUEST_KEYS: set<string> := {
    "version", "type", "request_id", "method", "scheme", "host", "port", "path", "query", "headers", "body"
  }
  const RESPONSE_KEYS: set<string> := {
    "version", "type", "request_id", "status_code", "reason_phrase", "headers", "body"
  }
  const ERROR_KEYS: set<string> := {"version", "type", "request_id", "error_code", "message", "retryable"}

  function OptStr(s: Option<string>): Value {
    match s case None => Nil case Some(v) => Str(v)
  }

  function OptInt(n: Option<int>): Value {
    match n case None => Nil case Some(v) => Int(v)
  }

  function HeaderPairs(headers: HeaderList): (items: seq<Value>)
    ensures |items| == |headers|
    ensures forall k :: 0 <= k < |headers| ==> items[k] == Array([Str(headers[k].0), Str(headers[k].1)])
  {
    if headers == [] then []
    else [Array([Str(headers[0].0), Str(headers[0].1)])] + HeaderPairs(headers[1..])
  }

  /** The dataclass as a dict, its headers still to be turned into lists. */
  function Fields(m: Message): map<Key, Value> {
    match m
    case Request(r) => map[
      StrKey("request_id") := Str(r.requestId), StrKey("method") := Str(r.verb), StrKey("scheme") := Str(r.scheme),
      StrKey("host") := Str(r.host), StrKey("port") := OptInt(r.port), StrKey("path") := Str(r.path),
      StrKey("query") := Str(r.query), StrKey("body") := Bin(r.body),
      StrKey("version") := Int(VERSION), StrKey("type") := Str("request")]
    case Response(r) => map[
      StrKey("request_id") := Str(r.requestId), StrKey("status_code") := Int(r.statusCode),
      StrKey("reason_phrase") := OptStr(r.reasonPhrase), StrKey("body") := Bin(r.body),
      StrKey("version") := Int(VERSION), StrKey("type") := Str("response")]
    case Error(e) => map[
      StrKey("request_id") := OptStr(e.requestId), StrKey("error_code") := Str(e.errorCode),
      StrKey("message") := Str(e.message), StrKey("retryable") := Bool(e.retryable),
      StrKey("version") := Int(VERSION), StrKey("type") := Str("error")]
  }

  /** data.get("headers", ()): an error has none. */
  function HeadersOf(m: Message): HeaderList {
    match m
    case Request(r) => r.headers
    case Response(r) => r.headers
    case Error(_) => []
  }

  /** The tree `dumps` packs: a `headers` entry is added for every message. */
  function Tree(m: Message): Value {
    Map(Fields(m)[StrKey("headers") := Array(HeaderPairs(HeadersOf(m)))])
  }

  /** The tree a repaired `dumps` would pack: `headers` only where the message has them. */
  function RepairedTree(m: Message): Value {
    if m.Error? then Map(Fields(m)) else Tree(m)
  }

  function Dumps(mp: Msgpack, m: Message): Result<bytes> {
    match mp.pack(Tree(m))
    case None => Err(SerializationError)
    case Some(b) => Ok(b)
  }

  // ---- Reading -----------------------------------------------------------

  type Raw = map<Key, Value>

  /** Python's value == 1. */
  predicate EqualsVersion(v: Value) {
    v == Int(VERSION) || v == Bool(true) || v == Float(1.0)
  }

  predicate HasExactly(raw: Raw, keys: set<string>) {
    && (forall k :: k in keys ==> StrKey(k) in raw)
    && (forall k :: k in raw ==> k.StrKey? && k.name in keys)
  }

  function RequireStr(raw: Raw, key: string): Result<string>
    requires StrKey(key) in raw
  {
    var v := raw[StrKey(key)];
    if v.Str? then Ok(v.s) else Err(SerializationError)
  }

  function RequireOptionalStr(raw: Raw, key: string): Result<Option<string>>
    requires StrKey(key) in raw
  {
    var v := raw[StrKey(key)];
    if v.Nil? then Ok(None) else if v.Str? then Ok(Some(v.s)) else Err(SerializationError)
  }

  function RequireInt(raw: Raw, key: string): Result<int>
    requires StrKey(key) in raw
  {
    var v := raw[StrKey(key)];
    if v.Int? then Ok(v.i) else Err(SerializationError)
  }

  function RequireOptionalInt(raw: Raw, key: string): Result<Option<int>>
    requires StrKey(key) in raw
  {
    var v := raw[StrKey(key)];
    if v.Nil? then Ok(None) else if v.Int? then Ok(Some(v.i)) else Err(SerializationError)
  }

  function RequireBool(raw: Raw, key: string): Result<bool>
    requires StrKey(key) in raw
  {
    var v := raw[StrKey(key)];
    if v.Bool? then Ok(v.b) else Err(SerializationError)
  }

  function RequireBody(raw: Raw): Result<bytes>
    requires StrKey("body") in raw
  {
    var v := raw[StrKey("body")];
    if v.Bin? then Ok(v.data) else Err(SerializationError)
  }

  predicate IsHeaderPair(v: Value) {
    v.Array? && |v.items| == 2 && v.items[0].Str? && v.items[1].Str?
  }

  function ReadPairs(items: seq<Value>): Result<HeaderList> {
    if items == [] then Ok([])
    else if !IsHeaderPair(items[0]) then Err(SerializationError)
    else
      var rest :- ReadPairs(items[1..]);
      Ok([(items[0].items[0].s, items[0].items[1].s)] + rest)
  }

  function ReadHeaders(v: Value): Result<HeaderList> {
    if v.Array? then ReadPairs(v.items) else Err(SerializationError)
  }

  /** The reader's loop: append each pair, stop at the first item that is not one. */
  method CollectHeaders(v: Value) returns (r: Result<HeaderList>)
    ensures r == ReadHeaders(v)
  {
    if !v.Array? {
      return Err(SerializationError);
    }
    var out: HeaderList := [];
    assert v.items[0..] == v.items;
    AppendedNothing(ReadPairs(v.items));
    for k := 0 to |v.items|
      invariant ReadPairs(v.items) == Appended(out, ReadPairs(v.items[k..]))
    {
      var item := v.items[k];
      assert v.items[k..][0] == item && v.items[k..][1..] == v.items[k + 1..];
      if !IsHeaderPair(item) {
        return Err(SerializationError);
      }
      AppendedOne(out, (item.items[0].s, item.items[1].s), ReadPairs(v.items[k + 1..]));
      out := out + [(item.items[0].s, item.items[1].s)];
    }
    assert v.items[|v.items|..] == [] && out + [] == out;
    r := Ok(out);
  }

  function ReadRequest(raw: Raw): (r: Result<Message>)
    ensures r.Ok? ==> r.value.Request?
  {
    if !HasExactly(raw, REQUEST_KEYS) then Err(SerializationError)
    else
      var requestId :- RequireStr(raw, "request_id");
      var verb :- RequireStr(raw, "method");
      var scheme :- RequireStr(raw, "scheme");
      var host :- RequireStr(raw, "host");
      var port :- RequireOptionalInt(raw, "port");
      var path :- RequireStr(raw, "path");
      var query :- RequireStr(raw, "query");
      var headers :- ReadHeaders(raw[StrKey("headers")]);
      var body :- RequireBody(raw);
      Checked(Request(RelayRequest(requestId, verb, scheme, host, port, path, query, headers, body)))
  }

  function ReadResponse(raw: Raw): (r: Result<Message>)
    ensures r.Ok? ==> r.value.Response?
  {
    if !HasExactly(raw, RESPONSE_KEYS) then Err(SerializationError)
    else
      var requestId :- RequireStr(raw, "request_id");
      var statusCode :- RequireInt(raw, "status_code");
      var reason :- RequireOptionalStr(raw, "reason_phrase");
      var headers :- ReadHeaders(raw[StrKey("headers")]);
      var body :- RequireBody(raw);
      Checked(Response(RelayResponse(requestId, statusCode, reason, headers, body)))
  }

  function ReadError(raw: Raw): (r: Result<Message>)
    ensures r.Ok? ==> r.value.Error?
  {
    if !HasExactly(raw, ERROR_KEYS) then Err(SerializationError)
    else
      var requestId :- RequireOptionalStr(raw, "request_id");
      var errorCode :- RequireStr(raw, "error_code");
      var message :- RequireStr(raw, "message");
      var retryable :- RequireBool(raw, "retryable");
      Checked(Error(RelayError(requestId, errorCode, message, retryable)))
  }

  /** raw.get(key), where a missing entry reads as None. */
  function Get(raw: Raw, key: string): Value {
    if StrKey(key) in raw then raw[StrKey(key)] else Nil
  }

  /** Every failure of the schema, the constructors' included, is a SerializationError. */
  function AsSerialization(r: Result<Message>): Result<Message> {
    match r case Err(_) => Err(SerializationError) case Ok(m) => Ok(m)
  }

  function LoadsTree(v: Value, expectedType: Option<int>): Result<Message> {
    if !v.Map? then Err(SerializationError)
    else
      var raw := v.entries;
      var typeName := Get(raw, "type");
      if !EqualsVersion(Get(raw, "version")) then Err(SerializationError)
      else if expectedType.Some? && OptStr(TypeName(expectedType.value)) != typeName then Err(SerializationError)
      else if typeName == Str("request") then AsSerialization(ReadRequest(raw))
      else if typeName == Str("response") then AsSerialization(ReadResponse(raw))
      else if typeName == Str("error") then AsSerialization(ReadError(raw))
      else Err(SerializationError)
  }

  function Loads(mp: Msgpack, data: bytes, expectedType: Option<int>): Result<Message> {
    match mp.unpack(data)
    case None => Err(SerializationError)
    case Some(v) => LoadsTree(v, expectedType)
  }

  // ---- What the schema accepts -------------------------------------------

  lemma {:induction false} PairsReadBack(headers: HeaderList)
    ensures ReadPairs(HeaderPairs(headers)) == Ok(headers)
  {
    if headers != [] {
      PairsReadBack(headers[1..]);
      assert HeaderPairs(headers)[1..] == HeaderPairs(headers[1..]);
      assert headers == [headers[0]] + headers[1..];
    }
  }

  lemma {:induction false} PairsWriteBack(items: seq<Value>)
    requires ReadPairs(items).Ok?
    ensures HeaderPairs(ReadPairs(items).value) == items
  {
    if items != [] {
      PairsWriteBack(items[1..]);
      var headers := ReadPairs(items).value;
      assert headers[1..] == ReadPairs(items[1..]).value;
      var pair := items[0].items;
      assert pair == [Str(headers[0].0), Str(headers[0].1)];
      assert items == [items[0]] + items[1..];
    }
  }

  predicate TypeMatches(m: Message, expectedType: Option<int>) {
    expectedType.Some? ==> expectedType.value == MessageType(m)
  }

  /** The entries a request's tree has, and no others; its version is left open. */
  ghost predicate RequestEntries(raw: Raw, r: RelayRequest) {
    && HasExactly(raw, REQUEST_KEYS)
    && raw[StrKey("type")] == Str("request")
    && raw[StrKey("request_id")] == Str(r.requestId) && raw[StrKey("method")] == Str(r.verb)
    && raw[StrKey("scheme")] == Str(r.scheme) && raw[StrKey("host")] == Str(r.host)
    && raw[StrKey("port")] == OptInt(r.port) && raw[StrKey("path")] == Str(r.path)
    && raw[StrKey("query")] == Str(r.query) && raw[StrKey("headers")] == Array(HeaderPairs(r.headers))
    && raw[StrKey("body")] == Bin(r.body)
  }

  ghost predicate ResponseEntries(raw: Raw, r: RelayResponse) {
    && HasExactly(raw, RESPONSE_KEYS)
    && raw[StrKey("type")] == Str("response")
    && raw[StrKey("request_id")] == Str(r.requestId) && raw[StrKey("status_code")] == Int(r.statusCode)
    && raw[StrKey("reason_phrase")] == OptStr(r.reasonPhrase)
    && raw[StrKey("headers")] == Array(HeaderPairs(r.headers)) && raw[StrKey("body")] == Bin(r.body)
  }

  ghost predicate ErrorEntries(raw: Raw, e: RelayError) {
    && HasExactly(raw, ERROR_KEYS)
    && raw[StrKey("type")] == Str("error")
    && raw[StrKey("request_id")] == OptStr(e.requestId) && raw[StrKey("error_code")] == Str(e.errorCode)
    && raw[StrKey("message")] == Str(e.message) && raw[StrKey("retryable")] == Bool(e.retryable)
  }

  ghost predicate Entries(raw: Raw, m: Message) {
    match m
    case Request(r) => RequestEntries(raw, r)
    case Response(r) => ResponseEntries(raw, r)
    case Error(e) => ErrorEntries(raw, e)
  }

  lemma RequestTreeKeys(r: RelayRequest)
    ensures HasExactly(Tree(Request(r)).entries, REQUEST_KEYS)
  {
  }

  lemma RequestTreeHasEntries(r: RelayRequest)
    ensures RequestEntries(Tree(Request(r)).entries, r)
  {
    RequestTreeKeys(r);
  }

  lemma ResponseTreeHasEntries(r: RelayResponse)
    ensures ResponseEntries(Tree(Response(r)).entries, r)
  {
  }

  lemma TreeHasEntries(m: Message)
    ensures Entries(RepairedTree(m).entries, m)
    ensures RepairedTree(m).entries[StrKey("version")] == Int(VERSION)
  {
    match m
    case Request(r) => RequestTreeHasEntries(r);
    case Response(r) => ResponseTreeHasEntries(r);
    case Error(e) => ErrorTreeHasEntries(e);
  }

  lemma ErrorTreeHasEntries(e: RelayError)
    ensures ErrorEntries(Fields(Error(e)), e)
  {
  }

  lemma RequestEntriesDetermine(raw: Raw, raw': Raw, r: RelayRequest)
    requires RequestEntries(raw, r) && RequestEntries(raw', r)
    requires raw[StrKey("version")] == raw'[StrKey("version")]
    ensures raw == raw'
  {
    assert raw.Keys == raw'.Keys;
    assert forall k :: k in REQUEST_KEYS ==> raw[StrKey(k)] == raw'[StrKey(k)];
  }

  lemma EntriesDetermineTree(raw: Raw, raw': Raw, m: Message)
    requires Entries(raw, m) && Entries(raw', m)
    requires raw[StrKey("version")] == raw'[StrKey("version")]
    ensures raw == raw'
  {
    match m
    case Request(r) => RequestEntriesDetermine(raw, raw', r);
    case Response(_) =>
      assert raw.Keys == raw'.Keys;
      assert forall k :: k in RESPONSE_KEYS ==> raw[StrKey(k)] == raw'[StrKey(k)];
    case Error(_) =>
      assert raw.Keys == raw'.Keys;
      assert forall k :: k in ERROR_KEYS ==> raw[StrKey(k)] == raw'[StrKey(k)];
  }

  lemma RequestReadHasEntries(raw: Raw, r: RelayRequest)
    requires Get(raw, "type") == Str("request") && ReadRequest(raw) == Ok(Request(r))
    ensures RequestEntries(raw, r) && ValidRequest(r)
  {
    PairsWriteBack(raw[StrKey("headers")].items);
  }

  lemma RequestEntriesRead(raw: Raw, r: RelayRequest)
    requires RequestEntries(raw, r) && ValidRequest(r)
    ensures ReadRequest(raw) == Ok(Request(r))
  {
    PairsReadBack(r.headers);
  }

  /** A request is read exactly from its entries. */
  lemma RequestReadExactly(raw: Raw, r: RelayRequest)
    requires Get(raw, "type") == Str("request")
    ensures ReadRequest(raw) == Ok(Request(r)) <==> RequestEntries(raw, r) && ValidRequest(r)
  {
    if ReadRequest(raw) == Ok(Request(r)) {
      RequestReadHasEntries(raw, r);
    }
    if RequestEntries(raw, r) && ValidRequest(r) {
      RequestEntriesRead(raw, r);
    }
  }

  lemma ResponseReadHasEntries(raw: Raw, r: RelayResponse)
    requires Get(raw, "type") == Str("response") && ReadResponse(raw) == Ok(Response(r))
    ensures ResponseEntries(raw, r) && ValidResponse(r)
  {
    PairsWriteBack(raw[StrKey("headers")].items);
  }

  lemma ResponseEntriesRead(raw: Raw, r: RelayResponse)
    requires ResponseEntries(raw, r) && ValidResponse(r)
    ensures ReadResponse(raw) == Ok(Response(r))
  {
    PairsReadBack(r.headers);
  }

  lemma ResponseReadExactly(raw: Raw, r: RelayResponse)
    requires Get(raw, "type") == Str("response")
    ensures ReadResponse(raw) == Ok(Response(r)) <==> ResponseEntries(raw, r) && ValidResponse(r)
  {
    if ReadResponse(raw) == Ok(Response(r)) {
      ResponseReadHasEntries(raw, r);
    }
    if ResponseEntries(raw, r) && ValidResponse(r) {
      ResponseEntriesRead(raw, r);
    }
  }

  lemma ErrorReadExactly(raw: Raw, e: RelayError)
    requires Get(raw, "type") == Str("error")
    ensures ReadError(raw) == Ok(Error(e)) <==> ErrorEntries(raw, e) && ValidError(e)
  {
  }

  /** The reader for messages of this message's kind. */
  function ReadAs(raw: Raw, m: Message): Result<Message> {
    if m.Request? then ReadRequest(raw) else if m.Response? then ReadResponse(raw) else ReadError(raw)
  }

  /** Loading goes by the tree's type name alone. */
  lemma LoadsByType(raw: Raw, m: Message, expectedType: Option<int>)
    ensures LoadsTree(Map(raw), expectedType) == Ok(m) <==>
      && EqualsVersion(Get(raw, "version"))
      && TypeMatches(m, expectedType)
      && Get(raw, "type") == OptStr(TypeName(MessageType(m)))
      && ReadAs(raw, m) == Ok(m)
  {
  }

  lemma ReadExactly(raw: Raw, m: Message)
    requires Get(raw, "type") == OptStr(TypeName(MessageType(m)))
    ensures ReadAs(raw, m) == Ok(m) <==> Entries(raw, m) && ValidMessage(m)
  {
    match m
    case Request(r) => RequestReadExactly(raw, r);
    case Response(r) => ResponseReadExactly(raw, r);
    case Error(e) => ErrorReadExactly(raw, e);
  }

  /** The tree with its version entry set to the integer 1. */
  function WithVersionOne(raw: Raw): Raw {
    raw[StrKey("version") := Int(VERSION)]
  }

  lemma RequestEntriesIgnoreVersion(raw: Raw, r: RelayRequest)
    requires StrKey("version") in raw
    ensures RequestEntries(WithVersionOne(raw), r) <==> RequestEntries(raw, r)
  {
    assert forall k :: k in raw && k != StrKey("version") ==> WithVersionOne(raw)[k] == raw[k];
  }

  lemma EntriesIgnoreVersion(raw: Raw, m: Message)
    requires StrKey("version") in raw
    ensures Entries(WithVersionOne(raw), m) <==> Entries(raw, m)
  {
    match m
    case Request(r) => RequestEntriesIgnoreVersion(raw, r);
    case Response(_) =>
    case Error(_) =>
  }

  lemma AcceptedByEntries(raw: Raw, m: Message, expectedType: Option<int>)
    requires StrKey("version") in raw
    ensures LoadsTree(Map(raw), expectedType) == Ok(m) <==>
      EqualsVersion(raw[StrKey("version")]) && ValidMessage(m) && TypeMatches(m, expectedType) && Entries(raw, m)
  {
    LoadsByType(raw, m, expectedType);
    if Get(raw, "type") == OptStr(TypeName(MessageType(m))) {
      ReadExactly(raw, m);
    }
  }

  lemma EntriesAreTree(raw: Raw, m: Message)
    requires StrKey("version") in raw
    ensures Entries(raw, m) <==> Map(WithVersionOne(raw)) == RepairedTree(m)
  {
    TreeHasEntries(m);
    EntriesIgnoreVersion(raw, m);
    if Entries(raw, m) {
      EntriesDetermineTree(WithVersionOne(raw), RepairedTree(m).entries, m);
    }
  }

  /**
   * The schema is canonical up to the version value: a tree is accepted as `m` exactly when `m` is
   * a valid message of the expected type, the version is one Python takes for 1, and with the
   * integer 1 in its place the tree is the one tree of `m`.
   */
  lemma AcceptedExactly(v: Value, m: Message, expectedType: Option<int>)
    ensures LoadsTree(v, expectedType) == Ok(m) <==>
      && v.Map? && StrKey("version") in v.entries && EqualsVersion(v.entries[StrKey("version")])
      && ValidMessage(m) && TypeMatches(m, expectedType)
      && Map(WithVersionOne(v.entries)) == RepairedTree(m)
  {
    if v.Map? && StrKey("version") in v.entries {
      AcceptedByEntries(v.entries, m, expectedType);
      EntriesAreTree(v.entries, m);
    }
  }

  /** The tree written for an error carries a `headers` entry, which the reader refuses. */
  lemma ErrorTreeRefused(e: RelayError, expectedType: Option<int>)
    ensures LoadsTree(Tree(Error(e)), expectedType) == Err(SerializationError)
  {
    var raw := Tree(Error(e)).entries;
    assert StrKey("headers") in raw;
    assert "headers" !in ERROR_KEYS;
    assert ReadError(raw) == Err(SerializationError);
  }

  /** Whatever is refused is refused as a serialization error, an invalid field value included. */
  lemma LoadsFailure(mp: Msgpack, data: bytes, expectedType: Option<int>)
    ensures Loads(mp, data, expectedType).Err? ==> Loads(mp, data, expectedType) == Err(SerializationError)
  {
  }

  /** Only the integer 1, and what Python takes for it, passes as the version; all else is refused. */
  lemma VersionExactly(raw: Raw, expectedType: Option<int>)
    requires StrKey("version") in raw ==> raw[StrKey("version")] !in {Int(1), Bool(true), Float(1.0)}
    ensures LoadsTree(Map(raw), expectedType) == Err(SerializationError)
  {
  }

  /** A tree of another kind than the packet header names is refused. */
  lemma MismatchRefused(raw: Raw, m: Message, expectedType: Option<int>)
    requires Get(raw, "type") == OptStr(TypeName(MessageType(m))) && !TypeMatches(m, expectedType)
    ensures LoadsTree(Map(raw), expectedType) == Err(SerializationError)
  {
  }

  /** With `headers` written only where a message has them, all three kinds come back. */
  lemma RepairedRoundTrip(m: Message, expectedType: Option<int>)
    requires ValidMessage(m)
    ensures LoadsTree(RepairedTree(m), expectedType) ==
      if TypeMatches(m, expectedType) then Ok(m) else Err(SerializationError)
  {
    var raw := RepairedTree(m).entries;
    TreeHasEntries(m);
    if TypeMatches(m, expectedType) {
      LoadsByType(raw, m, expectedType);
      ReadExactly(raw, m);
    } else {
      MismatchRefused(raw, m, expectedType);
    }
  }

  /** As written, the round trip holds for requests and responses and for no error. */
  lemma LoadsUndoesDumps(mp: Msgpack, m: Message, expectedType: Option<int>)
    requires Unpacks(mp) && ValidMessage(m) && Dumps(mp, m).Ok?
    ensures Loads(mp, Dumps(mp, m).value, expectedType) ==
      if !m.Error? && TypeMatches(m, expectedType) then Ok(m) else Err(SerializationError)
  {
    assert Loads(mp, Dumps(mp, m).value, expectedType) == LoadsTree(Tree(m), expectedType);
    if m.Error? {
      ErrorTreeRefused(m.failure, expectedType);
    } else {
      RepairedRoundTrip(m, expectedType);
    }
  }
}
