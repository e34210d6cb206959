/** From a request target and its Host header to scheme, host, port, path and query. */
module Target {
  import opened Wrappers
  import opened Bytes
  import opened Text
  import opened Models

  datatype HttpRequest = HttpRequest(
    verb: string, scheme: string, host: string, port: Option<int>, path: string, query: string,
    headers: HeaderList, body: bytes)

  /** SplitResult.port: absent, a number, or a text that raises. */
  datatype PortField = NoPort | Port(n: int) | BadPort

  datatype UrlParts = UrlParts(
    scheme: string, netloc: string, hostname: string, port: PortField, path: string, query: string)

  /** urllib's urlsplit and the int() constructor; `None` stands for an exception. */
  datatype UrlLibrary = UrlLibrary(split: string -> Option<UrlParts>, toInt: string -> Option<int>)

  // ---- The clean domain --------------------------------------------------

  /** Up to the first `c`, and what follows it. */
  function Before(s: string, c: char): string {
    match Find(s, [c]) case None => s case Some(i) => s[..i]
  }

  function After(s: string, c: char): string {
    match Find(s, [c]) case None => "" case Some(i) => s[i + 1..]
  }

  /** A path with an optional query, free of fragments and control characters. */
  predicate CleanOrigin(t: string) {
    StartsWith(t, "/") && !StartsWith(t, "//") && ControlFree(t) && '#' !in t
  }

  function SchemeOf(t: string): string {
    if StartsWith(t, "https://") then "https" else "http"
  }

  function AfterScheme(t: string): string
    requires StartsWith(t, "http://") || StartsWith(t, "https://")
  {
    t[|SchemeOf(t)| + 3..]
  }

  /** An http or https URL with a lower-case ASCII authority without user information or brackets. */
  predicate CleanAbsolute(t: string) {
    && (StartsWith(t, "http://") || StartsWith(t, "https://"))
    && ControlFree(t) && '#' !in t
    && '/' in AfterScheme(t)
    && var netloc := Before(AfterScheme(t), '/');
      && netloc != "" && IsAscii(netloc) && Lower(netloc) == netloc
      && (forall c :: c in netloc ==> c !in "?@[]")
  }

  function PortOf(text: string): PortField {
    if text == "" then NoPort
    else if IsDecimal(text) && |text| <= MAX_INT_DIGITS && DecimalValue(text) <= 65535 then Port(DecimalValue(text))
    else BadPort
  }

  function SplitOrigin(t: string): UrlParts {
    UrlParts("", "", "", NoPort, Before(t, '?'), After(t, '?'))
  }

  function SplitAbsolute(t: string): UrlParts
    requires CleanAbsolute(t)
  {
    var rest := AfterScheme(t);
    var netloc := Before(rest, '/');
    var tail := rest[|netloc|..];
    UrlParts(SchemeOf(t), netloc, Before(netloc, ':'), PortOf(After(netloc, ':')), Before(tail, '?'), After(tail, '?'))
  }

  ghost predicate SplitsOrigin(lib: UrlLibrary) {
    forall t :: CleanOrigin(t) ==> lib.split(t) == Some(SplitOrigin(t))
  }

  ghost predicate SplitsAbsolute(lib: UrlLibrary) {
    forall t :: CleanAbsolute(t) ==> lib.split(t) == Some(SplitAbsolute(t))
  }

  ghost predicate ReadsDecimals(lib: UrlLibrary) {
    forall s :: IsDecimal(s) && |s| <= MAX_INT_DIGITS ==> lib.toInt(s) == Some(DecimalValue(s))
  }

  function ReferenceSplit(t: string): Option<UrlParts> {
    if CleanAbsolute(t) then Some(SplitAbsolute(t)) else if CleanOrigin(t) then Some(SplitOrigin(t)) else None
  }

  function ReferenceInt(s: string): Option<int> {
    if IsDecimal(s) then Some(DecimalValue(s)) else None
  }

  lemma CleanFormsDisjoint(t: string)
    requires CleanOrigin(t)
    ensures !StartsWith(t, "http://") && !StartsWith(t, "https://") && !CleanAbsolute(t)
  {
    assert t[0] == '/';
  }

  const REFERENCE_LIBRARY: UrlLibrary := UrlLibrary(t => ReferenceSplit(t), s => ReferenceInt(s))

  /** The reference splitter meets the three laws. */
  lemma ReferenceLaws()
    ensures SplitsOrigin(REFERENCE_LIBRARY) && SplitsAbsolute(REFERENCE_LIBRARY) && ReadsDecimals(REFERENCE_LIBRARY)
  {
    assert SplitsOrigin(REFERENCE_LIBRARY) by {
      forall t | CleanOrigin(t)
        ensures ReferenceSplit(t) == Some(SplitOrigin(t))
      {
        CleanFormsDisjoint(t);
      }
    }
    assert SplitsAbsolute(REFERENCE_LIBRARY);
    assert ReadsDecimals(REFERENCE_LIBRARY);
  }

  // ---- Target resolution -------------------------------------------------

  /** The values of the headers with this lower-case name. */
  function ValuesOf(headers: HeaderList, name: string): seq<string> {
    if headers == [] then []
    else (if Lower(headers[0].0) == name then [headers[0].1] else []) + ValuesOf(headers[1..], name)
  }

  ghost predicate NoHeader(headers: HeaderList, name: string) {
    forall h :: h in headers ==> Lower(h.0) != name
  }

  /** Header `i` and no other has this lower-case name. */
  ghost predicate OnlyHeader(headers: HeaderList, name: string, i: int) {
    0 <= i < |headers| && forall j :: 0 <= j < |headers| ==> (Lower(headers[j].0) == name <==> j == i)
  }

  lemma {:induction false} ValuesNone(headers: HeaderList, name: string)
    ensures ValuesOf(headers, name) == [] <==> NoHeader(headers, name)
  {
    if headers != [] {
      ValuesNone(headers[1..], name);
      assert headers == [headers[0]] + headers[1..];
    }
  }

  lemma OnlyFirst(headers: HeaderList, name: string)
    requires headers != [] && Lower(headers[0].0) == name
    ensures NoHeader(headers[1..], name) <==> OnlyHeader(headers, name, 0)
    ensures forall i :: OnlyHeader(headers, name, i) ==> i == 0
  {
    if OnlyHeader(headers, name, 0) {
      forall h | h in headers[1..]
        ensures Lower(h.0) != name
      {
        var j :| 1 <= j < |headers| && headers[j] == h;
      }
    }
    if NoHeader(headers[1..], name) {
      forall j | 0 < j < |headers|
        ensures Lower(headers[j].0) != name
      {
        assert headers[j] in headers[1..];
      }
    }
  }

  lemma OnlyLater(headers: HeaderList, name: string, i: int)
    requires headers != [] && Lower(headers[0].0) != name
    ensures OnlyHeader(headers, name, i) <==> OnlyHeader(headers[1..], name, i - 1)
  {
    if OnlyHeader(headers[1..], name, i - 1) {
      forall j | 0 <= j < |headers|
        ensures Lower(headers[j].0) == name <==> j == i
      {
        assert j > 0 ==> headers[j] == headers[1..][j - 1];
      }
    }
  }

  /** There is exactly one value when exactly one header has the name, and then it is that header's. */
  lemma {:induction false} ValuesOne(headers: HeaderList, name: string, v: string)
    ensures ValuesOf(headers, name) == [v] <==> exists i :: OnlyHeader(headers, name, i) && headers[i].1 == v
  {
    if headers != [] {
      var tail := headers[1..];
      if Lower(headers[0].0) == name {
        OnlyFirst(headers, name);
        ValuesNone(tail, name);
        assert [headers[0].1] + [] == [headers[0].1];
      } else {
        ValuesOne(tail, name, v);
        forall i
          ensures OnlyHeader(headers, name, i) <==> OnlyHeader(tail, name, i - 1)
        {
          OnlyLater(headers, name, i);
        }
        if i :| OnlyHeader(tail, name, i) && tail[i].1 == v {
          assert OnlyHeader(headers, name, i + 1) && headers[i + 1].1 == v;
        }
      }
    }
  }

  function SingleHost(headers: HeaderList): Result<string> {
    var values := ValuesOf(headers, "host");
    if |values| != 1 then Err(ProtocolError) else Ok(values[0])
  }

  /** netloc.rsplit("@", 1)[-1] */
  function AfterLastAt(s: string): string {
    match Find(s, "@") case None => s case Some(i) => AfterLastAt(s[i + 1..])
  }

  /** Both parts around the last `c` are determined. */
  lemma LastMark(a: string, b: string, a': string, b': string, c: char)
    requires a + [c] + b == a' + [c] + b' && c !in b && c !in b' && |b| <= |b'|
    ensures a == a' && b == b'
  {
    var s := a + [c] + b;
    assert s[|a|] == c;
    forall i | |a'| < i < |s|
      ensures s[i] != c
    {
      assert s[i] == b'[i - |a'| - 1];
    }
    assert s[..|a|] == a && s[..|a'|] == a' && s[|a| + 1..] == b && s[|a'| + 1..] == b';
  }

  lemma {:induction false} AfterLastAtSplits(s: string) returns (user: string)
    ensures '@' !in AfterLastAt(s) && (s == AfterLastAt(s) || s == user + ['@'] + AfterLastAt(s))
    decreases |s|
  {
    match Find(s, "@")
    case None =>
      NotFoundAbsent(s, '@');
      user := "";
    case Some(i) =>
      var rest := s[i + 1..];
      assert s == s[..i] + s[i..i + 1] + rest;
      assert s[i..i + 1] == ['@'];
      var more := AfterLastAtSplits(rest);
      user := if rest == AfterLastAt(rest) then s[..i] else s[..i] + ['@'] + more;
      assert rest != AfterLastAt(rest) ==>
        s[..i] + ['@'] + (more + ['@'] + AfterLastAt(rest)) == s[..i] + ['@'] + more + ['@'] + AfterLastAt(rest);
  }

  /** An authority without user information is all of the text, or what follows its last "@". */
  ghost predicate IsAuthority(s: string, authority: string) {
    '@' !in authority && (s == authority || exists user :: s == user + ['@'] + authority)
  }

  lemma AfterLastAtExactly(s: string, authority: string)
    ensures AfterLastAt(s) == authority <==> IsAuthority(s, authority)
  {
    var user := AfterLastAtSplits(s);
    if IsAuthority(s, authority) && s != authority {
      var other :| s == other + ['@'] + authority;
      assert s[|other|] == '@';
      if |authority| <= |AfterLastAt(s)| {
        LastMark(other, authority, user, AfterLastAt(s), '@');
      } else {
        LastMark(user, AfterLastAt(s), other, authority, '@');
      }
    } else if s == authority && s != AfterLastAt(s) {
      assert s[|user|] == '@' && s[|user|] in authority;
    }
  }

  function OrSlash(path: string): string {
    if path == "" then "/" else path
  }

  predicate IsAbsolute(target: string) {
    StartsWith(target, "http://") || StartsWith(target, "https://")
  }

  function Resolve(lib: UrlLibrary, verb: string, target: string, headers: HeaderList, body: bytes)
    : Result<HttpRequest>
  {
    var hostHeader :- SingleHost(headers);
    if IsAbsolute(target) then
      match lib.split(target)
      case None => Err(PythonError)
      case Some(p) =>
        if p.port.BadPort? then Err(ProtocolError)
        else if Lower(AfterLastAt(p.netloc)) != Lower(hostHeader) then Err(ProtocolError)
        else
          var port := if p.port.Port? then Some(p.port.n) else None;
          Ok(HttpRequest(verb, p.scheme, p.hostname, port, OrSlash(p.path), p.query, headers, body))
    else
      var portText := After(hostHeader, ':');
      if portText != "" && lib.toInt(portText).None? then Err(ProtocolError)
      else
        match lib.split(target)
        case None => Err(PythonError)
        case Some(p) =>
          var port := if portText == "" then None else lib.toInt(portText);
          Ok(HttpRequest(verb, "http", Before(hostHeader, ':'), port, OrSlash(p.path), p.query, headers, body))
  }

  /**
   * Whatever resolves had exactly one Host header, and an absolute target's authority matched it;
   * nothing but the target's parts is taken from the target.
   */
  lemma ResolvedConforms(lib: UrlLibrary, verb: string, target: string, headers: HeaderList, body: bytes)
    requires Resolve(lib, verb, target, headers, body).Ok?
    ensures var q := Resolve(lib, verb, target, headers, body).value;
      && |ValuesOf(headers, "host")| == 1 && lib.split(target).Some?
      && q.verb == verb && q.headers == headers && q.body == body && q.path != ""
      && var host, parts := ValuesOf(headers, "host")[0], lib.split(target).value;
      && q.path in {parts.path, "/"} && q.query == parts.query
      && (IsAbsolute(target) ==> q.host == parts.hostname && Lower(AfterLastAt(parts.netloc)) == Lower(host))
      && (!IsAbsolute(target) ==> q.scheme == "http" && q.host == Before(host, ':'))
  {
  }

  /** A Host value's host and port: all of it, or what is before and after its first colon. */
  ghost predicate IsHostPort(lib: UrlLibrary, value: string, host: string, port: Option<int>) {
    || (':' !in value && host == value && port.None?)
    || (exists text :: && ':' !in host && value == host + [':'] + text
                       && (if text == "" then port.None? else port.Some? && lib.toInt(text) == port))
  }

  lemma HostPortExactly(lib: UrlLibrary, value: string, host: string, port: Option<int>)
    ensures IsHostPort(lib, value, host, port) <==>
      var text := After(value, ':');
      Before(value, ':') == host && (if text == "" then port.None? else port.Some? && lib.toInt(text) == port)
  {
    match Find(value, ":")
    case None =>
      NotFoundAbsent(value, ':');
      assert forall h: string, text: string :: (h + [':'] + text)[|h|] == ':';
    case Some(i) =>
      FirstColonCuts(value, i);
      if ':' !in host && exists text :: value == host + [':'] + text {
        var text :| value == host + [':'] + text;
        BeforeAfter(host, ':', text);
      }
  }

  lemma FirstColonCuts(value: string, i: nat)
    requires Find(value, ":") == Some(i)
    ensures i < |value| && ':' in value && ':' !in value[..i] && value == value[..i] + [':'] + value[i + 1..]
  {
    FoundIsFirst(value, ":");
    assert value[i..i + 1] == ":";
    assert value == value[..i] + value[i..i + 1] + value[i + 1..];
    forall j | 0 <= j < i
      ensures value[j] != ':'
    {
      assert !OccursAt(value, ":", j);
      assert value[j..j + 1] == [value[j]];
    }
  }

  /** What a target and a Host value come to. */
  ghost predicate ResolvesTo(lib: UrlLibrary, target: string, hostHeader: string, q: HttpRequest) {
    && lib.split(target).Some?
    && var p := lib.split(target).value;
      && q.query == p.query && q.path == (if p.path == "" then "/" else p.path)
      && if IsAbsolute(target) then
           && !p.port.BadPort? && q.scheme == p.scheme && q.host == p.hostname
           && q.port == (if p.port.Port? then Some(p.port.n) else None)
           && exists authority :: IsAuthority(p.netloc, authority) && Lower(authority) == Lower(hostHeader)
         else
           q.scheme == "http" && IsHostPort(lib, hostHeader, q.host, q.port)
  }

  lemma ResolvesByHost(lib: UrlLibrary, verb: string, target: string, headers: HeaderList, body: bytes, q: HttpRequest)
    requires SingleHost(headers).Ok?
    ensures Resolve(lib, verb, target, headers, body) == Ok(q) <==>
      && q.verb == verb && q.headers == headers && q.body == body
      && ResolvesTo(lib, target, SingleHost(headers).value, q)
  {
    var hostHeader := SingleHost(headers).value;
    HostPortExactly(lib, hostHeader, q.host, q.port);
    if lib.split(target).Some? {
      var netloc := lib.split(target).value.netloc;
      forall authority
        ensures AfterLastAt(netloc) == authority <==> IsAuthority(netloc, authority)
      {
        AfterLastAtExactly(netloc, authority);
      }
    }
  }

  /** A target is resolved exactly when there is one Host header and the two come to the request. */
  lemma ResolvesExactly(lib: UrlLibrary, verb: string, target: string, headers: HeaderList, body: bytes, q: HttpRequest)
    ensures Resolve(lib, verb, target, headers, body) == Ok(q) <==>
      && q.verb == verb && q.headers == headers && q.body == body
      && exists i :: OnlyHeader(headers, "host", i) && ResolvesTo(lib, target, headers[i].1, q)
  {
    var values := ValuesOf(headers, "host");
    if |values| == 1 {
      ResolvesByHost(lib, verb, target, headers, body, q);
      ValuesOne(headers, "host", values[0]);
    }
    forall i | OnlyHeader(headers, "host", i)
      ensures values == [headers[i].1]
    {
      ValuesOne(headers, "host", headers[i].1);
    }
  }

  /** When resolving fails with the exception of a library, and that it otherwise is a protocol error. */
  lemma ResolveFailsExactly(lib: UrlLibrary, verb: string, target: string, headers: HeaderList, body: bytes)
    requires Resolve(lib, verb, target, headers, body).Err?
    ensures Resolve(lib, verb, target, headers, body).error in {ProtocolError, PythonError}
    ensures Resolve(lib, verb, target, headers, body) == Err(PythonError) <==>
      && |ValuesOf(headers, "host")| == 1 && lib.split(target).None?
      && (IsAbsolute(target) || exists host, port :: IsHostPort(lib, ValuesOf(headers, "host")[0], host, port))
  {
    if |ValuesOf(headers, "host")| == 1 {
      var value := ValuesOf(headers, "host")[0];
      var text := After(value, ':');
      HostPortExactly(lib, value, Before(value, ':'), if text == "" then None else lib.toInt(text));
      forall host, port | IsHostPort(lib, value, host, port)
        ensures text == "" || lib.toInt(text).Some?
      {
        HostPortExactly(lib, value, host, port);
      }
    }
  }

  // ---- Recomposition -----------------------------------------------------

  function Netloc(host: string, port: Option<int>): string
    requires port.Some? ==> port.value >= 0
  {
    match port case None => host case Some(n) => host + ":" + Decimal(n)
  }

  /** The URL the forwarder requests. */
  function Url(r: RelayRequest): string
    requires ValidRequest(r)
  {
    var url := r.scheme + "://" + Netloc(r.host, r.port) + r.path;
    if r.query == "" then url else url + "?" + r.query
  }

  lemma BeforeAfter(a: string, c: char, b: string)
    requires c !in a
    ensures Before(a + [c] + b, c) == a && After(a + [c] + b, c) == b
    ensures Before(a, c) == a && After(a, c) == ""
  {
    FindAfter(a, c, b);
    FindAbsent(a, c);
  }

  lemma NetlocHasNoSlash(r: RelayRequest)
    requires ValidRequest(r)
    ensures '/' !in Netloc(r.host, r.port)
  {
    if r.port.Some? {
      assert forall c :: c in Decimal(r.port.value) ==> '0' <= c <= '9';
    }
  }

  lemma SchemeRead(scheme: string, rest: string)
    requires scheme == "http" || scheme == "https"
    ensures var u := scheme + "://" + rest;
      (StartsWith(u, "http://") || StartsWith(u, "https://")) && SchemeOf(u) == scheme && AfterScheme(u) == rest
  {
    var u := scheme + "://" + rest;
    assert u[|scheme| + 3..] == rest;
    if scheme == "http" {
      assert u[..7] == "http://" && u[4] == ':';
      assert |u| >= 8 ==> u[..8][4] == ':';
    } else {
      assert u[..8] == "https://";
    }
  }

  /** A path with or without a query. */
  function OriginTarget(path: string, query: string): string {
    if query == "" then path else path + "?" + query
  }

  lemma OriginTargetRead(path: string, query: string)
    requires '?' !in path
    ensures Before(OriginTarget(path, query), '?') == path && After(OriginTarget(path, query), '?') == query
  {
    BeforeAfter(path, '?', query);
    if query != "" {
      assert path + "?" == path + ['?'];
    }
  }

  lemma AuthorityRead(r: RelayRequest)
    requires ValidRequest(r)
    ensures var rest := Netloc(r.host, r.port) + OriginTarget(r.path, r.query);
      '/' in rest && Before(rest, '/') == Netloc(r.host, r.port)
        && rest[|Netloc(r.host, r.port)|..] == OriginTarget(r.path, r.query)
  {
    var netloc, tail := Netloc(r.host, r.port), OriginTarget(r.path, r.query);
    NetlocHasNoSlash(r);
    assert tail[0] == '/';
    assert netloc + tail == netloc + ['/'] + tail[1..];
    BeforeAfter(netloc, '/', tail[1..]);
  }

  /** The four parts of the URL can be read back from it. */
  lemma UrlPartsRecovered(r: RelayRequest)
    requires ValidRequest(r)
    ensures var u := Url(r);
      && (StartsWith(u, "http://") || StartsWith(u, "https://"))
      && SchemeOf(u) == r.scheme
      && var rest := AfterScheme(u);
      && '/' in rest && Before(rest, '/') == Netloc(r.host, r.port)
      && var tail := rest[|Before(rest, '/')|..];
      && Before(tail, '?') == r.path && After(tail, '?') == r.query
  {
    var rest := Netloc(r.host, r.port) + OriginTarget(r.path, r.query);
    assert Url(r) == r.scheme + "://" + rest;
    SchemeRead(r.scheme, rest);
    AuthorityRead(r);
    OriginTargetRead(r.path, r.query);
  }

  /** Distinct scheme, authority, path or query give distinct URLs. */
  lemma UrlInjective(r: RelayRequest, s: RelayRequest)
    requires ValidRequest(r) && ValidRequest(s)
    ensures Url(r) == Url(s) <==>
      (r.scheme, Netloc(r.host, r.port), r.path, r.query) == (s.scheme, Netloc(s.host, s.port), s.path, s.query)
  {
    UrlPartsRecovered(r);
    UrlPartsRecovered(s);
  }

  /** A host free of colons is recovered from the authority together with its port. */
  lemma NetlocParts(host: string, port: Option<int>)
    requires ':' !in host && (port.Some? ==> 1 <= port.value <= 65535)
    ensures Before(Netloc(host, port), ':') == host
    ensures PortOf(After(Netloc(host, port), ':')) == match port case None => NoPort case Some(n) => Port(n)
  {
    match port
    case None => BeforeAfter(host, ':', "");
    case Some(n) =>
      DecimalRoundTrip(n);
      DecimalLength(n, 5);
      assert Netloc(host, port) == host + [':'] + Decimal(n);
      BeforeAfter(host, ':', Decimal(n));
  }

  lemma NoColonInDecimal(n: nat)
    ensures ':' !in Decimal(n)
  {
    assert forall c :: c in Decimal(n) ==> '0' <= c <= '9';
  }

  lemma DecimalInjective(n: nat, m: nat)
    requires Decimal(n) == Decimal(m)
    ensures n == m
  {
    DecimalRoundTrip(n);
    DecimalRoundTrip(m);
  }

  /** The host ends in a colon and this port number. */
  predicate EndsInPort(host: string, h: string, n: nat) {
    host == h + ":" + Decimal(n)
  }

  /**
   * Two hosts with ports give the same authority exactly when they are the same, or one of them
   * leaves out the port and has the other's written into its host.
   */
  lemma SameNetloc(host: string, port: Option<nat>, host': string, port': Option<nat>)
    ensures Netloc(host, port) == Netloc(host', port') <==>
      || (host == host' && port == port')
      || (port.None? && port'.Some? && EndsInPort(host, host', port'.value))
      || (port.Some? && port'.None? && EndsInPort(host', host, port.value))
  {
    if port.Some? && port'.Some? && Netloc(host, port) == Netloc(host', port') {
      var d, d' := Decimal(port.value), Decimal(port'.value);
      NoColonInDecimal(port.value);
      NoColonInDecimal(port'.value);
      if |d| <= |d'| {
        LastMark(host, d, host', d', ':');
      } else {
        LastMark(host', d', host, d, ':');
      }
      DecimalInjective(port.value, port'.value);
    }
  }

  /** Some valid host and port write out to this host. */
  ghost predicate HoldsPort(host: string) {
    exists h: string, n: nat :: ValidHost(h) && 1 <= n <= 65535 && EndsInPort(host, h, n)
  }

  /** Every valid request of this URL has this request's host and port. */
  ghost predicate UrlDetermines(r: RelayRequest)
    requires ValidRequest(r)
  {
    forall s :: ValidRequest(s) && Url(s) == Url(r) ==> s.host == r.host && s.port == r.port
  }

  /** Writing the port into the host keeps the host valid. */
  lemma PortInHostIsValid(host: string, n: nat)
    requires ValidHost(host)
    ensures ValidHost(host + ":" + Decimal(n))
  {
    var s, d := host + ":" + Decimal(n), Decimal(n);
    assert forall c :: c in d ==> '0' <= c <= '9';
    assert forall c :: c in s ==> c in host || c == ':' || c in d;
    forall j | 0 <= j < |s|
      ensures !OccursAt(s, "://", j)
    {
      if j + 3 <= |s| {
        assert s[j..j + 3][1] == s[j + 1] && s[j + 1] in s;
      }
    }
    FindNowhere(s, "://");
  }

  /** The same request with its port, if any, written into its host. */
  function WithPortInHost(r: RelayRequest): RelayRequest
    requires ValidRequest(r)
  {
    r.(host := Netloc(r.host, r.port), port := None)
  }

  /** It is another valid request of the same URL. */
  lemma PortInHostSharesUrl(r: RelayRequest)
    requires ValidRequest(r)
    ensures ValidRequest(WithPortInHost(r)) && Url(WithPortInHost(r)) == Url(r)
  {
    if r.port.Some? {
      PortInHostIsValid(r.host, r.port.value);
    }
  }

  /**
   * The URL determines a request's host and port exactly when the request leaves the port out and
   * its host is not itself a valid host, a colon and a port number.
   */
  lemma UrlDeterminesExactly(r: RelayRequest)
    requires ValidRequest(r)
    ensures UrlDetermines(r) <==> r.port.None? && !HoldsPort(r.host)
  {
    if r.port.Some? {
      PortInHostSharesUrl(r);
    } else if HoldsPort(r.host) {
      var h: string, n: nat :| ValidHost(h) && 1 <= n <= 65535 && EndsInPort(r.host, h, n);
      var s := r.(host := h, port := Some(n));
      PortInHostSharesUrl(s);
      assert WithPortInHost(s) == r;
    } else {
      forall s | ValidRequest(s) && Url(s) == Url(r)
        ensures s.host == r.host && s.port == r.port
      {
        UrlInjective(r, s);
        if s.port.Some? {
          assert EndsInPort(r.host, s.host, s.port.value);
        }
      }
    }
  }

  /** A request for port 1 of host "a". */
  const PORT_ONE := RelayRequest("00000000000000000000000000000000", "GET", "http", "a", Some(1), "/", "", [], [])

  lemma PortOneIsValid()
    ensures ValidRequest(PORT_ONE)
  {
    ZeroIdIsValid(PORT_ONE.requestId);
    WordIsToken(PORT_ONE.verb);
    UpperKeepsLength(PORT_ONE.verb);
    ShortHoldsNoScheme(PORT_ONE.host);
    ShortHoldsNoScheme(PORT_ONE.path);
  }

  lemma ZeroIdIsValid(id: string)
    requires |id| == 32 && forall i :: 0 <= i < |id| ==> id[i] == '0'
    ensures ValidRequestId(id)
  {
    assert "0123456789abcdef"[0] == '0';
  }

  lemma UpperKeepsLength(s: string)
    ensures |Upper(s)| == |s|
  {
  }

  lemma ShortHoldsNoScheme(s: string)
    requires |s| < 3
    ensures !Contains(s, "://")
  {
  }

  /** Two valid requests, to host "a" on port 1 and to host "a:1" on no port, share one URL. */
  lemma SharedUrl()
    ensures var other := PORT_ONE.(host := "a:1", port := None);
      ValidRequest(PORT_ONE) && ValidRequest(other) && Url(PORT_ONE) == Url(other)
  {
    PortOneIsValid();
    PortInHostSharesUrl(PORT_ONE);
    assert Decimal(1) == "1" && "a" + ":" + "1" == "a:1";
  }

  /** The requests whose URL resolves back to them. */
  predicate CanonicalHost(host: string) {
    IsAscii(host) && Lower(host) == host && forall c :: c in host ==> c !in ":[]"
  }

  lemma NoAt(s: string)
    requires '@' !in s
    ensures AfterLastAt(s) == s
  {
    FindAbsent(s, '@');
  }

  lemma LowerIsLower(s: string)
    requires forall c :: c in s ==> LowerChar(c) == c
    ensures Lower(s) == s
  {
    assert forall i :: 0 <= i < |s| ==> s[i] in s;
  }

  lemma CanonicalNetloc(r: RelayRequest)
    requires ValidRequest(r) && CanonicalHost(r.host)
    ensures var n := Netloc(r.host, r.port);
      n != "" && IsAscii(n) && Lower(n) == n && forall c :: c in n ==> c !in "?@[]"
  {
    var n := Netloc(r.host, r.port);
    assert forall c :: c in r.host ==> LowerChar(c) == c by {
      assert forall i :: 0 <= i < |r.host| ==> Lower(r.host)[i] == LowerChar(r.host[i]);
    }
    if r.port.Some? {
      assert forall c :: c in Decimal(r.port.value) ==> '0' <= c <= '9';
    }
    LowerIsLower(n);
  }

  lemma UrlIsClean(r: RelayRequest)
    requires ValidRequest(r) && CanonicalHost(r.host) && '#' !in r.path && '#' !in r.query
    ensures CleanAbsolute(Url(r))
  {
    var u := Url(r);
    assert ControlFree(u) && '#' !in u by {
      UrlCharacters(r);
    }
    UrlPartsRecovered(r);
    CanonicalNetloc(r);
  }

  lemma UrlCharacters(r: RelayRequest)
    requires ValidRequest(r) && '#' !in r.path && '#' !in r.query
    ensures ControlFree(Url(r)) && '#' !in Url(r)
  {
    assert forall c :: c in "http://?:" ==> !IsControl(c) && c != '#';
    if r.port.Some? {
      assert forall c :: c in Decimal(r.port.value) ==> '0' <= c <= '9';
    }
    forall c | c in Url(r)
      ensures !IsControl(c) && c != '#'
    {
      assert c in r.scheme || c in "://" || c in Netloc(r.host, r.port) || c in r.path || c in "?" + r.query;
    }
  }

  lemma UrlSplits(r: RelayRequest)
    requires ValidRequest(r) && CanonicalHost(r.host) && '#' !in r.path && '#' !in r.query
    ensures CleanAbsolute(Url(r))
    ensures SplitAbsolute(Url(r)) ==
      UrlParts(r.scheme, Netloc(r.host, r.port), r.host, if r.port.Some? then Port(r.port.value) else NoPort,
               r.path, r.query)
  {
    UrlIsClean(r);
    UrlPartsRecovered(r);
    NetlocParts(r.host, r.port);
  }

  lemma AbsoluteResolves(lib: UrlLibrary, verb: string, target: string, p: UrlParts, headers: HeaderList, body: bytes)
    requires IsAbsolute(target) && lib.split(target) == Some(p) && !p.port.BadPort? && p.path != ""
    requires SingleHost(headers).Ok? && Lower(SingleHost(headers).value) == Lower(AfterLastAt(p.netloc))
    ensures Resolve(lib, verb, target, headers, body) ==
      Ok(HttpRequest(verb, p.scheme, p.hostname, if p.port.Port? then Some(p.port.n) else None, p.path, p.query,
        headers, body))
  {
  }

  /**
   * The URL the forwarder builds, resolved as an absolute-form target under a Host header with the
   * same authority, gives back scheme, host, port, path and query.
   */
  lemma ResolveUndoesUrl(lib: UrlLibrary, r: RelayRequest, headers: HeaderList)
    requires SplitsAbsolute(lib) && ValidRequest(r)
    requires CanonicalHost(r.host) && '#' !in r.path && '#' !in r.query
    requires SingleHost(headers).Ok? && Lower(SingleHost(headers).value) == Netloc(r.host, r.port)
    ensures Resolve(lib, r.verb, Url(r), headers, r.body) ==
      Ok(HttpRequest(r.verb, r.scheme, r.host, r.port, r.path, r.query, headers, r.body))
  {
    UrlSplits(r);
    UrlPartsRecovered(r);
    CanonicalNetloc(r);
    NoAt(Netloc(r.host, r.port));
    AbsoluteResolves(lib, r.verb, Url(r), SplitAbsolute(Url(r)), headers, r.body);
  }
}
