/** The byte-at-a-time HTTP/1.1 request reader of the local proxy (sections 2.2, 3 and 6.3 of RFC 9112). */
module HttpReader {
  import opened Wrappers
  import opened Bytes
  import opened Text
  import opened Models
  import opened Target

  const CRLFCRLF: bytes := [13, 10, 13, 10]

  /** The stream a connection delivers, up to its end. */
  class Reader {
    var unread: bytes

    constructor (data: bytes)
      ensures unread == data
    {
      unread := data;
    }

    /** read(1): one byte, or none at the end. */
    method ReadOne() returns (chunk: bytes)
      modifies this
      ensures chunk == (if old(unread) == [] then [] else [old(unread)[0]])
      ensures chunk + unread == old(unread)
    {
      if unread == [] {
        return [];
      }
      chunk := [unread[0]];
      unread := unread[1..];
    }

    method ReadExactly(n: nat) returns (r: Result<bytes>)
      modifies this
      ensures n <= |old(unread)| ==> r == Ok(old(unread)[..n]) && unread == old(unread)[n..]
      ensures n > |old(unread)| ==> r == Err(IncompleteRead) && unread == []
    {
      if n <= |unread| {
        r := Ok(unread[..n]);
        unread := unread[n..];
      } else {
        r := Err(IncompleteRead);
        unread := [];
      }
    }
  }

  // ---- The head ----------------------------------------------------------

  /**
   * The outcome of reading a head and what stays unread: the shortest prefix ending in CRLFCRLF if
   * it is within the limit; otherwise too large once the limit is reached, or incomplete.
   */
  function HeadOf(stream: bytes, maxHeaderBytes: int): (Result<bytes>, bytes) {
    var end := Find(stream, CRLFCRLF);
    if end.Some? && end.value + 4 <= maxHeaderBytes then (Ok(stream[..end.value + 4]), stream[end.value + 4..])
    else if |stream| >= maxHeaderBytes then
      (Err(RequestTooLarge), stream[if maxHeaderBytes < 0 then 0 else maxHeaderBytes..])
    else (Err(ProtocolError), [])
  }

  lemma FindInLonger(s: bytes, sep: bytes, more: bytes)
    requires Find(s, sep).Some?
    ensures Find(s + more, sep) == Find(s, sep)
  {
    var i := Find(s, sep).value;
    FoundIsFirst(s, sep);
    FirstInPrefix(s, more, sep, i);
    FindsFirst(s + more, sep, i);
  }

  /** A separator that appears with the last byte ends there. */
  lemma FoundAtEnd(s: bytes, last: byte, sep: bytes)
    requires Find(s, sep).None? && Find(s + [last], sep).Some?
    ensures Find(s + [last], sep).value + |sep| == |s| + 1
  {
    var i := Find(s + [last], sep).value;
    if i + |sep| <= |s| {
      assert s[i..i + |sep|] == (s + [last])[i..i + |sep|];
      FindIsFirst(s, sep, i);
    }
  }

  method ReadHeaders(reader: Reader, maxHeaderBytes: int) returns (r: Result<bytes>)
    modifies reader
    ensures (r, reader.unread) == HeadOf(old(reader.unread), maxHeaderBytes)
  {
    var data: bytes := [];
    while !Find(data, CRLFCRLF).Some?
      invariant data + reader.unread == old(reader.unread)
      invariant data == [] || |data| <= maxHeaderBytes
      invariant Find(data, CRLFCRLF).Some? ==> Find(data, CRLFCRLF).value + 4 == |data|
      decreases |reader.unread| + (if Find(data, CRLFCRLF).Some? then 0 else 1)
    {
      if |data| >= maxHeaderBytes {
        LimitReached(data, reader.unread, maxHeaderBytes);
        return Err(RequestTooLarge);
      }
      var chunk := reader.ReadOne();
      if chunk == [] {
        assert data + [] == data;
        return Err(ProtocolError);
      }
      if Find(data + chunk, CRLFCRLF).Some? {
        FoundAtEnd(data, chunk[0], CRLFCRLF);
      }
      assert data + (chunk + reader.unread) == (data + chunk) + reader.unread;
      data := data + chunk;
    }
    HeadFoundHere(data, reader.unread, maxHeaderBytes);
    if |data| > maxHeaderBytes {
      assert false;
    }
    r := Ok(data);
  }

  lemma LimitReached(data: bytes, more: bytes, maxHeaderBytes: int)
    requires Find(data, CRLFCRLF).None? && |data| >= maxHeaderBytes && (data == [] || |data| <= maxHeaderBytes)
    ensures HeadOf(data + more, maxHeaderBytes) == (Err(RequestTooLarge), more)
  {
    NoEndWithin(data, more);
    assert (data + more)[|data|..] == more;
  }

  lemma HeadFoundHere(data: bytes, more: bytes, maxHeaderBytes: int)
    requires Find(data, CRLFCRLF).Some? && Find(data, CRLFCRLF).value + 4 == |data| <= maxHeaderBytes
    ensures HeadOf(data + more, maxHeaderBytes) == (Ok(data), more)
  {
    FindInLonger(data, CRLFCRLF, more);
    assert (data + more)[..|data|] == data && (data + more)[|data|..] == more;
  }

  lemma NoEndWithin(data: bytes, more: bytes)
    requires Find(data, CRLFCRLF).None?
    ensures var end := Find(data + more, CRLFCRLF);
      end.Some? ==> end.value + 4 > |data|
  {
    var stream := data + more;
    var end := Find(stream, CRLFCRLF);
    if end.Some? && end.value + 4 <= |data| {
      assert data[end.value..end.value + 4] == stream[end.value..end.value + 4];
      FindIsFirst(data, CRLFCRLF, end.value);
    }
  }

  /** The first `k` bytes of the stream end in CRLFCRLF. */
  ghost predicate EndsHead(stream: bytes, k: int) {
    4 <= k <= |stream| && stream[k - 4..k] == CRLFCRLF
  }

  ghost predicate ShortestHead(stream: bytes, k: int) {
    EndsHead(stream, k) && forall j :: 0 <= j < k ==> !EndsHead(stream, j)
  }

  /**
   * A head is read exactly when the shortest prefix ending in CRLFCRLF is within the limit; the
   * failure is otherwise told by whether the stream reaches the limit.
   */
  lemma HeadExactly(stream: bytes, maxHeaderBytes: int, k: int)
    requires 0 <= k <= |stream|
    ensures HeadOf(stream, maxHeaderBytes) == (Ok(stream[..k]), stream[k..]) <==>
      ShortestHead(stream, k) && k <= maxHeaderBytes
    ensures var (r, rest) := HeadOf(stream, maxHeaderBytes);
      && (r.Err? ==> r.error == if |stream| >= maxHeaderBytes then RequestTooLarge else ProtocolError)
      && (r.Err? && maxHeaderBytes >= 0 ==>
          rest == if |stream| >= maxHeaderBytes then stream[maxHeaderBytes..] else [])
  {
    var end := Find(stream, CRLFCRLF);
    if ShortestHead(stream, k) {
      FindIsFirst(stream, CRLFCRLF, k - 4);
      assert EndsHead(stream, end.value + 4);
    }
    if end.Some? {
      forall j | 0 <= j < end.value + 4
        ensures !EndsHead(stream, j)
      {
        if EndsHead(stream, j) {
          FindIsFirst(stream, CRLFCRLF, j - 4);
        }
      }
      assert ShortestHead(stream, end.value + 4);
      if HeadOf(stream, maxHeaderBytes).0 == Ok(stream[..k]) {
        assert |stream[..k]| == k;
      }
    }
  }

  // ---- Line grammar ------------------------------------------------------

  /** line.split(" ", 2) when it has three parts. */
  function SplitTwice(line: string): Option<(string, string, string)> {
    match Find(line, " ")
    case None => None
    case Some(i) =>
      match Find(line[i + 1..], " ")
      case None => None
      case Some(j) => Some((line[..i], line[i + 1..][..j], line[i + 1..][j + 1..]))
  }

  function HeaderLine(line: string): Result<(string, string)> {
    if line == "" || line[0] == ' ' || line[0] == '\t' then Err(ProtocolError)
    else
      match Find(line, ":")
      case None => Err(ProtocolError)
      case Some(i) => Ok((line[..i], LStripBlanks(line[i + 1..])))
  }

  function HeaderLines(lines: seq<string>): Result<HeaderList> {
    if lines == [] then Ok([])
    else
      var h :- HeaderLine(lines[0]);
      var rest :- HeaderLines(lines[1..]);
      Ok([h] + rest)
  }

  function ContentLength(headers: HeaderList): Result<nat> {
    var values := ValuesOf(headers, "content-length");
    if values == [] then Ok(0)
    else if |values| > 1 then Err(ProtocolError)
    else if !IsDecimal(values[0]) then Err(ProtocolError)
    else if |values[0]| > MAX_INT_DIGITS then Err(PythonError)
    else Ok(DecimalValue(values[0]))
  }

  datatype Head = Head(verb: string, target: string, headers: HeaderList, bodyLength: nat)

  function ParseHead(head: bytes, maxBodyBytes: int): Result<Head>
    requires |head| >= 4
  {
    ParseHeadLines(Split(DecodeLatin1(head[..|head| - 4]), CRLF), maxBodyBytes)
  }

  function ParseHeadLines(lines: seq<string>, maxBodyBytes: int): Result<Head>
    requires lines != []
  {
    match SplitTwice(lines[0])
    case None => Err(ProtocolError)
    case Some(parts) =>
      if !IsToken(parts.0) then Err(ProtocolError)
      else if parts.2 != "HTTP/1.1" || Upper(parts.0) == "CONNECT" then Err(ProtocolError)
      else
        var headers :- HeaderLines(lines[1..]);
        if !ValidHeaders(headers) then Err(ProtocolError)
        else if ValuesOf(headers, "transfer-encoding") != [] then Err(ProtocolError)
        else
          var bodyLength :- ContentLength(headers);
          if bodyLength > maxBodyBytes then Err(RequestTooLarge)
          else Ok(Head(parts.0, parts.1, headers, bodyLength))
  }

  /** A whole request off the stream, and what stays unread. */
  function RequestOf(lib: UrlLibrary, stream: bytes, maxHeaderBytes: int, maxBodyBytes: int)
    : (Result<HttpRequest>, bytes)
  {
    var (head, rest) := HeadOf(stream, maxHeaderBytes);
    match head
    case Err(e) => (Err(e), rest)
    case Ok(data) => AfterHead(lib, ParseHead(data, maxBodyBytes), rest)
  }

  function AfterHead(lib: UrlLibrary, head: Result<Head>, rest: bytes): (Result<HttpRequest>, bytes) {
    match head
    case Err(e) => (Err(e), rest)
    case Ok(h) =>
      if |rest| < h.bodyLength then (Err(IncompleteRead), [])
      else (Resolve(lib, h.verb, h.target, h.headers, rest[..h.bodyLength]), rest[h.bodyLength..])
  }

  method ReadRequest(lib: UrlLibrary, reader: Reader, maxHeaderBytes: int, maxBodyBytes: int)
    returns (r: Result<HttpRequest>)
    modifies reader
    ensures (r, reader.unread) == RequestOf(lib, old(reader.unread), maxHeaderBytes, maxBodyBytes)
  {
    var head := ReadHeaders(reader, maxHeaderBytes);
    if head.Err? {
      return Err(head.error);
    }
    var lines := Split(DecodeLatin1(head.value[..|head.value| - 4]), CRLF);
    var parts := SplitTwice(lines[0]);
    if parts.None? {
      return Err(ProtocolError);
    }
    var (verb, target, version) := parts.value;
    if !IsToken(verb) || version != "HTTP/1.1" || Upper(verb) == "CONNECT" {
      return Err(ProtocolError);
    }
    var headers := ReadHeaderLines(lines[1..]);
    if headers.Err? {
      return Err(headers.error);
    }
    if !ValidHeaders(headers.value) || ValuesOf(headers.value, "transfer-encoding") != [] {
      return Err(ProtocolError);
    }
    var bodyLength := ContentLength(headers.value);
    if bodyLength.Err? {
      return Err(bodyLength.error);
    }
    if bodyLength.value > maxBodyBytes {
      return Err(RequestTooLarge);
    }
    var body := reader.ReadExactly(bodyLength.value);
    if body.Err? {
      return Err(body.error);
    }
    r := Resolve(lib, verb, target, headers.value, body.value);
  }

  /** The reader's loop over the header lines. */
  method ReadHeaderLines(lines: seq<string>) returns (r: Result<HeaderList>)
    ensures r == HeaderLines(lines)
  {
    var headers: HeaderList := [];
    assert lines[0..] == lines;
    AppendedNothing(HeaderLines(lines));
    for k := 0 to |lines|
      invariant HeaderLines(lines) == Appended(headers, HeaderLines(lines[k..]))
    {
      assert lines[k..][0] == lines[k] && lines[k..][1..] == lines[k + 1..];
      var h := HeaderLine(lines[k]);
      if h.Err? {
        return Err(h.error);
      }
      AppendedOne(headers, h.value, HeaderLines(lines[k + 1..]));
      headers := headers + [h.value];
    }
    assert lines[|lines|..] == [] && headers + [] == headers;
    r := Ok(headers);
  }

  // ---- Lines -------------------------------------------------------------

  predicate CrlfFree(line: string) {
    !Contains(line, CRLF)
  }

  /** Lines joined by CRLF first meet it at the end of the first line, even one that ends in CR. */
  lemma CrlfAfterLine(line: string, tail: string)
    requires CrlfFree(line)
    ensures Find(line + CRLF + tail, CRLF) == Some(|line|)
  {
    var s := line + CRLF + tail;
    assert s == line + (CRLF + tail);
    forall j | 0 <= j < |line|
      ensures !OccursAt(s, CRLF, j)
    {
      if j + 2 <= |line| {
        OccursInPrefix(line, CRLF + tail, CRLF, j);
        NotFoundNowhere(line, CRLF, j);
      } else {
        assert s[j..j + 2][1] == s[j + 1] == '\r';
      }
    }
    assert s[|line|..|line| + 2] == CRLF;
    FindsFirst(s, CRLF, |line|);
  }

  lemma {:induction false} SplitUndoesJoin(lines: seq<string>)
    requires lines != [] && forall l :: l in lines ==> CrlfFree(l)
    ensures Split(Join(lines, CRLF), CRLF) == lines
  {
    assert CrlfFree(lines[0]);
    if |lines| > 1 {
      var tail := Join(lines[1..], CRLF);
      var s := lines[0] + CRLF + tail;
      CrlfAfterLine(lines[0], tail);
      assert s[..|lines[0]|] == lines[0] && s[|lines[0]| + 2..] == tail;
      SplitUndoesJoin(lines[1..]);
    }
  }

  lemma {:induction false} JoinUndoesSplit(text: string)
    ensures LinesOf(text, Split(text, CRLF))
    decreases |text|
  {
    match Find(text, CRLF)
    case None =>
    case Some(i) =>
      var line, rest := text[..i], text[i + 2..];
      JoinUndoesSplit(rest);
      LineBeforeCrlf(text, i);
      assert text == line + text[i..i + 2] + rest;
      assert Split(text, CRLF)[1..] == Split(rest, CRLF);
  }

  lemma LineBeforeCrlf(text: string, i: nat)
    requires Find(text, CRLF) == Some(i)
    ensures CrlfFree(text[..i])
  {
    var line := text[..i];
    FoundIsFirst(text, CRLF);
    assert text == line + text[i..];
    forall j | 0 <= j < |line|
      ensures !OccursAt(line, CRLF, j)
    {
      if j + 2 <= |line| {
        OccursInPrefix(line, text[i..], CRLF, j);
      }
    }
    FindNowhere(line, CRLF);
  }

  /** Splitting at CRLF gives exactly the lines the text is made of. */
  lemma SplitExactly(text: string, lines: seq<string>)
    ensures Split(text, CRLF) == lines <==> LinesOf(text, lines)
  {
    JoinUndoesSplit(text);
    if LinesOf(text, lines) {
      SplitUndoesJoin(lines);
    }
  }

  lemma CrFreeIsCrlfFree(lines: seq<string>)
    requires forall l :: l in lines ==> CrFree(l)
    ensures forall l :: l in lines ==> CrlfFree(l)
  {
    forall l | l in lines
      ensures CrlfFree(l)
    {
      forall j | 0 <= j < |l|
        ensures !OccursAt(l, CRLF, j)
      {
        assert l[j] in l;
        assert l[j..][..1] == [l[j]];
      }
      FindNowhere(l, CRLF);
    }
  }

  // ---- What the grammar accepts ------------------------------------------

  lemma SplitTwiceGives(line: string, a: string, b: string, c: string)
    requires SplitTwice(line) == Some((a, b, c))
    ensures line == a + " " + b + " " + c && ' ' !in a && ' ' !in b
  {
    var rest := line[|a| + 1..];
    BlankCut(line, a, rest);
    BlankCut(rest, b, c);
    ThreeParts(line, rest, a, b, c);
  }

  lemma ThreeParts(line: string, rest: string, a: string, b: string, c: string)
    requires line == a + " " + rest && rest == b + " " + c
    ensures line == a + " " + b + " " + c
  {
  }

  /** A request line's three parts: the first two hold no blank. */
  lemma SplitTwiceExactly(line: string, a: string, b: string, c: string)
    ensures SplitTwice(line) == Some((a, b, c)) <==> line == a + " " + b + " " + c && ' ' !in a && ' ' !in b
  {
    if line == a + " " + b + " " + c && ' ' !in a && ' ' !in b {
      StartLineReads(a, b, c);
    }
    if SplitTwice(line) == Some((a, b, c)) {
      SplitTwiceGives(line, a, b, c);
    }
  }

  lemma BlankCut(line: string, a: string, rest: string)
    requires Find(line, " ") == Some(|a|) && line[..|a|] == a && line[|a| + 1..] == rest
    ensures line == a + " " + rest && ' ' !in a
  {
    FoundIsFirst(line, " ");
    assert line == line[..|a|] + line[|a|..|a| + 1] + line[|a| + 1..];
    forall i | 0 <= i < |a|
      ensures a[i] != ' '
    {
      assert !OccursAt(line, " ", i);
      assert line[i..i + 1] == [a[i]];
    }
  }

  predicate IsBlank(c: char) {
    c == ' ' || c == '\t'
  }

  /** `s` is blanks and then `v`, which does not begin with one. */
  predicate BlanksThen(s: string, v: string) {
    && |v| <= |s| && s[|s| - |v|..] == v
    && (forall c :: c in s[..|s| - |v|] ==> IsBlank(c))
    && (v == "" || !IsBlank(v[0]))
  }

  lemma {:induction false} StrippedExactly(s: string, v: string)
    ensures LStripBlanks(s) == v <==> BlanksThen(s, v)
  {
    if s != "" && IsBlank(s[0]) {
      StrippedExactly(s[1..], v);
      if |v| < |s| {
        assert s[1..][|s| - 1 - |v|..] == s[|s| - |v|..];
        assert s[..|s| - |v|] == [s[0]] + s[1..][..|s| - 1 - |v|];
      }
    } else if |v| < |s| {
      assert s[..|s| - |v|][0] == s[0] && s[0] in s[..|s| - |v|];
    }
  }

  /** A header line: the name, a colon, blanks, and the value. */
  predicate IsHeaderLine(line: string, h: (string, string)) {
    && |h.0| < |line| && line[..|h.0|] == h.0 && line[|h.0|] == ':'
    && BlanksThen(line[|h.0| + 1..], h.1)
  }

  lemma FirstColon(line: string, name: string)
    requires |name| < |line| && line[..|name|] == name && line[|name|] == ':' && ':' !in name
    ensures Find(line, ":") == Some(|name|)
  {
    forall j | 0 <= j < |name|
      ensures !OccursAt(line, ":", j)
    {
      assert line[j] == name[j] && line[j] in name;
    }
    assert line[|name|..|name| + 1] == ":";
    FindsFirst(line, ":", |name|);
  }

  /** For a token name, a line reads as a header exactly when it is that header's line. */
  lemma HeaderLineExactly(line: string, h: (string, string))
    requires IsToken(h.0)
    ensures HeaderLine(line) == Ok(h) <==> IsHeaderLine(line, h)
  {
    assert h.0[0] in h.0;
    assert ' ' in TOKEN_SEPARATORS && '\t' in TOKEN_SEPARATORS && ':' in TOKEN_SEPARATORS;
    if IsHeaderLine(line, h) {
      FirstColon(line, h.0);
      StrippedExactly(line[|h.0| + 1..], h.1);
      assert line[0] == h.0[0];
    }
    if HeaderLine(line) == Ok(h) {
      assert line[|h.0|..|h.0| + 1] == ":";
      StrippedExactly(line[|h.0| + 1..], h.1);
    }
  }

  ghost predicate AreHeaderLines(lines: seq<string>, headers: HeaderList) {
    |lines| == |headers| && forall i :: 0 <= i < |headers| ==> IsHeaderLine(lines[i], headers[i])
  }

  lemma {:induction false} HeaderLinesExactly(lines: seq<string>, headers: HeaderList)
    requires ValidHeaders(headers)
    ensures HeaderLines(lines) == Ok(headers) <==> AreHeaderLines(lines, headers)
  {
    if lines != [] && headers != [] {
      assert headers == [headers[0]] + headers[1..];
      HeaderLineExactly(lines[0], headers[0]);
      HeaderLinesExactly(lines[1..], headers[1..]);
      assert HeaderLines(lines) == Ok(headers) <==>
        HeaderLine(lines[0]) == Ok(headers[0]) && HeaderLines(lines[1..]) == Ok(headers[1..]);
      HeadAndTail(lines, headers);
    }
  }

  lemma HeadAndTail(lines: seq<string>, headers: HeaderList)
    requires lines != [] && headers != []
    ensures AreHeaderLines(lines, headers) <==>
      IsHeaderLine(lines[0], headers[0]) && AreHeaderLines(lines[1..], headers[1..])
  {
    if IsHeaderLine(lines[0], headers[0]) && AreHeaderLines(lines[1..], headers[1..]) {
      forall i | 0 <= i < |headers|
        ensures IsHeaderLine(lines[i], headers[i])
      {
        assert i > 0 ==> IsHeaderLine(lines[1..][i - 1], headers[1..][i - 1]);
      }
    }
  }

  /** The length of the body: none is announced, or the one Content-Length is this decimal number. */
  ghost predicate AnnouncesBody(headers: HeaderList, n: nat) {
    || (NoHeader(headers, "content-length") && n == 0)
    || (exists i :: OnlyHeader(headers, "content-length", i) && IsLength(headers[i].1, n))
  }

  predicate IsLength(value: string, n: nat) {
    IsDecimal(value) && |value| <= MAX_INT_DIGITS && DecimalValue(value) == n
  }

  lemma ContentLengthExactly(headers: HeaderList, n: nat)
    ensures ContentLength(headers) == Ok(n) <==> AnnouncesBody(headers, n)
  {
    var values := ValuesOf(headers, "content-length");
    ValuesNone(headers, "content-length");
    if |values| == 1 {
      ValuesOne(headers, "content-length", values[0]);
    }
    if i :| OnlyHeader(headers, "content-length", i) && IsLength(headers[i].1, n) {
      ValuesOne(headers, "content-length", headers[i].1);
    }
  }

  /** The request grammar: a request line, header lines, and framing the reader supports. */
  ghost predicate IsHead(lines: seq<string>, h: Head, maxBodyBytes: int) {
    && lines != [] && lines[0] == h.verb + " " + h.target + " HTTP/1.1" && ' ' !in h.target
    && IsToken(h.verb) && Upper(h.verb) != "CONNECT"
    && AreHeaderLines(lines[1..], h.headers) && ValidHeaders(h.headers)
    && NoHeader(h.headers, "transfer-encoding")
    && AnnouncesBody(h.headers, h.bodyLength) && h.bodyLength <= maxBodyBytes
  }

  /** The text is these lines, joined by CRLF, with none inside them. */
  ghost predicate LinesOf(text: string, lines: seq<string>) {
    lines != [] && text == Join(lines, CRLF) && forall l :: l in lines ==> CrlfFree(l)
  }

  /** The bytes are lines in the request grammar for `h`, each ended by CRLF, and a blank line. */
  ghost predicate IsHeadBytes(head: bytes, h: Head, maxBodyBytes: int) {
    exists lines :: EndedLines(head, lines) && IsHead(lines, h, maxBodyBytes)
  }

  ghost predicate EndedLines(head: bytes, lines: seq<string>) {
    && lines != [] && (forall l :: l in lines ==> CrlfFree(l))
    && DecodeLatin1(head) == Join(lines, CRLF) + CRLF + CRLF
  }

  lemma EndedLinesCut(head: bytes, lines: seq<string>)
    requires |head| >= 4 && head[|head| - 4..] == CRLFCRLF
    ensures EndedLines(head, lines) <==> LinesOf(DecodeLatin1(head[..|head| - 4]), lines)
  {
    var text, cut := DecodeLatin1(head), DecodeLatin1(head[..|head| - 4]);
    assert text[|cut|..] == CRLF + CRLF by {
      assert forall i :: 0 <= i < 4 ==> head[|cut| + i] == head[|cut|..][i];
    }
    assert text == cut + (CRLF + CRLF);
    if EndedLines(head, lines) {
      assert text[..|cut|] == Join(lines, CRLF);
    }
    if LinesOf(cut, lines) {
      assert cut + (CRLF + CRLF) == cut + CRLF + CRLF;
    }
  }

  /** A head is accepted exactly when its bytes are lines in the grammar. */
  lemma HeadParsesExactly(head: bytes, h: Head, maxBodyBytes: int)
    requires |head| >= 4 && head[|head| - 4..] == CRLFCRLF
    ensures ParseHead(head, maxBodyBytes) == Ok(h) <==> IsHeadBytes(head, h, maxBodyBytes)
  {
    var text := DecodeLatin1(head[..|head| - 4]);
    var parts := Split(text, CRLF);
    HeadLinesParseExactly(parts, h, maxBodyBytes);
    SplitExactly(text, parts);
    EndedLinesCut(head, parts);
    forall lines | EndedLines(head, lines)
      ensures lines == parts
    {
      EndedLinesCut(head, lines);
      SplitExactly(text, lines);
    }
  }

  lemma HeadLinesParseExactly(lines: seq<string>, h: Head, maxBodyBytes: int)
    requires lines != []
    ensures ParseHeadLines(lines, maxBodyBytes) == Ok(h) <==> IsHead(lines, h, maxBodyBytes)
  {
    HeadLinesByParts(lines, h, maxBodyBytes);
    ValuesNone(h.headers, "transfer-encoding");
    ContentLengthExactly(h.headers, h.bodyLength);
    if IsToken(h.verb) {
      RequestLineExactly(lines[0], h);
    }
    if ValidHeaders(h.headers) {
      HeaderLinesExactly(lines[1..], h.headers);
    }
  }

  lemma HeadLinesByParts(lines: seq<string>, h: Head, maxBodyBytes: int)
    requires lines != []
    ensures ParseHeadLines(lines, maxBodyBytes) == Ok(h) <==>
      && SplitTwice(lines[0]) == Some((h.verb, h.target, "HTTP/1.1"))
      && IsToken(h.verb) && Upper(h.verb) != "CONNECT"
      && HeaderLines(lines[1..]) == Ok(h.headers) && ValidHeaders(h.headers)
      && ValuesOf(h.headers, "transfer-encoding") == []
      && ContentLength(h.headers) == Ok(h.bodyLength) && h.bodyLength <= maxBodyBytes
  {
  }

  lemma RequestLineExactly(line: string, h: Head)
    requires IsToken(h.verb)
    ensures SplitTwice(line) == Some((h.verb, h.target, "HTTP/1.1")) <==>
      line == h.verb + " " + h.target + " HTTP/1.1" && ' ' !in h.target
  {
    assert ' ' in TOKEN_SEPARATORS;
    SplitTwiceExactly(line, h.verb, h.target, "HTTP/1.1");
    assert h.verb + " " + h.target + " " + "HTTP/1.1" == h.verb + " " + h.target + " HTTP/1.1";
  }

  // ---- What the reader accepts, and that it is self-delimiting ------------

  /** The end of the head is found in the head itself. */
  lemma FoundInPrefix(stream: bytes, n: nat)
    requires Find(stream, CRLFCRLF).Some? && n == Find(stream, CRLFCRLF).value + 4
    ensures Find(stream[..n], CRLFCRLF) == Some(n - 4)
  {
    FoundIsFirst(stream, CRLFCRLF);
    assert stream == stream[..n] + stream[n..];
    FirstInPrefix(stream[..n], stream[n..], CRLFCRLF, n - 4);
    FindsFirst(stream[..n], CRLFCRLF, n - 4);
  }

  /** A head that was accepted is read again from its own bytes, whatever follows them. */
  lemma HeadSelfDelimiting(stream: bytes, maxHeaderBytes: int, head: bytes, rest: bytes, other: bytes)
    requires HeadOf(stream, maxHeaderBytes) == (Ok(head), rest)
    ensures |head| >= 4 && stream == head + rest
    ensures HeadOf(head + other, maxHeaderBytes) == (Ok(head), other)
  {
    FoundInPrefix(stream, |head|);
    HeadFoundHere(head, other, maxHeaderBytes);
  }

  lemma HeadIsShortest(stream: bytes, maxHeaderBytes: int, head: bytes, rest: bytes)
    requires HeadOf(stream, maxHeaderBytes) == (Ok(head), rest)
    ensures |head| >= 4 && stream == head + rest
    ensures ShortestHead(stream, |head|) && |head| <= maxHeaderBytes
  {
    HeadSelfDelimiting(stream, maxHeaderBytes, head, rest, []);
    assert stream[..|head|] == head && stream[|head|..] == rest;
    HeadExactly(stream, maxHeaderBytes, |head|);
  }

  lemma RequestAfterHead(lib: UrlLibrary, stream: bytes, maxHeaderBytes: int, maxBodyBytes: int, head: bytes,
                         rest: bytes)
    requires HeadOf(stream, maxHeaderBytes) == (Ok(head), rest) && |head| >= 4
    ensures RequestOf(lib, stream, maxHeaderBytes, maxBodyBytes) == AfterHead(lib, ParseHead(head, maxBodyBytes), rest)
  {
  }

  /** The first `k` bytes are the shortest head, within the limit, and in the grammar for `h`. */
  ghost predicate ReadsHead(stream: bytes, k: nat, h: Head, maxHeaderBytes: int, maxBodyBytes: int) {
    ShortestHead(stream, k) && k <= maxHeaderBytes && IsHeadBytes(stream[..k], h, maxBodyBytes)
  }

  lemma HeadReadExactly(stream: bytes, k: nat, h: Head, maxHeaderBytes: int, maxBodyBytes: int)
    requires 4 <= k <= |stream|
    ensures ReadsHead(stream, k, h, maxHeaderBytes, maxBodyBytes) <==>
      HeadOf(stream, maxHeaderBytes) == (Ok(stream[..k]), stream[k..]) && ParseHead(stream[..k], maxBodyBytes) == Ok(h)
  {
    HeadExactly(stream, maxHeaderBytes, k);
    if ShortestHead(stream, k) {
      assert stream[..k][k - 4..] == stream[k - 4..k];
      HeadParsesExactly(stream[..k], h, maxBodyBytes);
    }
  }

  /** After such a head comes the body it announces, the whole resolves to `q`, and `rest` follows. */
  ghost predicate Reads(lib: UrlLibrary, stream: bytes, k: nat, h: Head, maxHeaderBytes: int, maxBodyBytes: int,
                        q: HttpRequest, rest: bytes) {
    && ReadsHead(stream, k, h, maxHeaderBytes, maxBodyBytes)
    && k + h.bodyLength <= |stream| && rest == stream[k + h.bodyLength..]
    && Resolve(lib, h.verb, h.target, h.headers, stream[k..k + h.bodyLength]) == Ok(q)
  }

  lemma AfterHeadExactly(lib: UrlLibrary, stream: bytes, k: nat, h: Head, q: HttpRequest, rest: bytes)
    requires k <= |stream|
    ensures AfterHead(lib, Ok(h), stream[k..]) == (Ok(q), rest) <==>
      && k + h.bodyLength <= |stream| && rest == stream[k + h.bodyLength..]
      && Resolve(lib, h.verb, h.target, h.headers, stream[k..k + h.bodyLength]) == Ok(q)
  {
    if k + h.bodyLength <= |stream| {
      assert stream[k..][..h.bodyLength] == stream[k..k + h.bodyLength];
      assert stream[k..][h.bodyLength..] == stream[k + h.bodyLength..];
    }
  }

  /** A request is read, leaving `rest`, exactly when the stream begins with one in the grammar. */
  lemma RequestExactly(lib: UrlLibrary, stream: bytes, maxHeaderBytes: int, maxBodyBytes: int, q: HttpRequest,
                       rest: bytes)
    ensures RequestOf(lib, stream, maxHeaderBytes, maxBodyBytes) == (Ok(q), rest) <==>
      exists k: nat, h :: Reads(lib, stream, k, h, maxHeaderBytes, maxBodyBytes, q, rest)
  {
    if RequestOf(lib, stream, maxHeaderBytes, maxBodyBytes) == (Ok(q), rest) {
      RequestIsRead(lib, stream, maxHeaderBytes, maxBodyBytes, q, rest);
    }
    forall k: nat, h | Reads(lib, stream, k, h, maxHeaderBytes, maxBodyBytes, q, rest)
      ensures RequestOf(lib, stream, maxHeaderBytes, maxBodyBytes) == (Ok(q), rest)
    {
      HeadReadExactly(stream, k, h, maxHeaderBytes, maxBodyBytes);
      RequestAfterHead(lib, stream, maxHeaderBytes, maxBodyBytes, stream[..k], stream[k..]);
      AfterHeadExactly(lib, stream, k, h, q, rest);
    }
  }

  lemma RequestIsRead(lib: UrlLibrary, stream: bytes, maxHeaderBytes: int, maxBodyBytes: int, q: HttpRequest,
                      rest: bytes)
    requires RequestOf(lib, stream, maxHeaderBytes, maxBodyBytes) == (Ok(q), rest)
    ensures exists k: nat, h :: Reads(lib, stream, k, h, maxHeaderBytes, maxBodyBytes, q, rest)
  {
    var (head, afterHead) := HeadOf(stream, maxHeaderBytes);
    HeadIsShortest(stream, maxHeaderBytes, head.value, afterHead);
    RequestAfterHead(lib, stream, maxHeaderBytes, maxBodyBytes, head.value, afterHead);
    var k, h := |head.value|, ParseHead(head.value, maxBodyBytes).value;
    assert head.value == stream[..k] && afterHead == stream[k..];
    HeadReadExactly(stream, k, h, maxHeaderBytes, maxBodyBytes);
    AfterHeadExactly(lib, stream, k, h, q, rest);
    assert Reads(lib, stream, k, h, maxHeaderBytes, maxBodyBytes, q, rest);
  }

  /**
   * Whatever is accepted conforms: the bytes consumed are the shortest head, within its limit, and
   * then the body; the framing headers say so, and the rest of the head is as the models require.
   */
  lemma AcceptedConforms(lib: UrlLibrary, stream: bytes, maxHeaderBytes: int, maxBodyBytes: int, q: HttpRequest,
                         rest: bytes)
    returns (k: nat)
    requires RequestOf(lib, stream, maxHeaderBytes, maxBodyBytes) == (Ok(q), rest)
    ensures ShortestHead(stream, k) && k <= maxHeaderBytes && stream == stream[..k] + q.body + rest
    ensures IsToken(q.verb) && Upper(q.verb) != "CONNECT" && ValidHeaders(q.headers)
    ensures |ValuesOf(q.headers, "host")| == 1 && NoHeader(q.headers, "transfer-encoding")
    ensures AnnouncesBody(q.headers, |q.body|) && |q.body| <= maxBodyBytes
  {
    RequestExactly(lib, stream, maxHeaderBytes, maxBodyBytes, q, rest);
    var j: nat, h :| Reads(lib, stream, j, h, maxHeaderBytes, maxBodyBytes, q, rest);
    k := j;
    HeadConforms(stream[..k], h, maxBodyBytes);
    BodyConforms(lib, stream, k, h, q);
  }

  lemma HeadConforms(head: bytes, h: Head, maxBodyBytes: int)
    requires IsHeadBytes(head, h, maxBodyBytes)
    ensures IsToken(h.verb) && Upper(h.verb) != "CONNECT" && ValidHeaders(h.headers)
    ensures NoHeader(h.headers, "transfer-encoding") && AnnouncesBody(h.headers, h.bodyLength)
    ensures h.bodyLength <= maxBodyBytes
  {
    var lines :| EndedLines(head, lines) && IsHead(lines, h, maxBodyBytes);
  }

  lemma BodyConforms(lib: UrlLibrary, stream: bytes, k: nat, h: Head, q: HttpRequest)
    requires k + h.bodyLength <= |stream|
    requires Resolve(lib, h.verb, h.target, h.headers, stream[k..k + h.bodyLength]) == Ok(q)
    ensures q.verb == h.verb && q.headers == h.headers && |ValuesOf(h.headers, "host")| == 1
    ensures |q.body| == h.bodyLength && stream == stream[..k] + q.body + stream[k + h.bodyLength..]
  {
    ResolvedConforms(lib, h.verb, h.target, h.headers, stream[k..k + h.bodyLength]);
    assert stream == stream[..k] + stream[k..k + h.bodyLength] + stream[k + h.bodyLength..];
  }

  /** Within the limit there is a shortest head, and these are its bytes. */
  ghost predicate EndsWithin(stream: bytes, k: nat, maxHeaderBytes: int) {
    ShortestHead(stream, k) && k <= maxHeaderBytes
  }

  lemma HeadReads(stream: bytes, k: nat, maxHeaderBytes: int)
    requires EndsWithin(stream, k, maxHeaderBytes)
    ensures 4 <= k <= |stream| && HeadOf(stream, maxHeaderBytes) == (Ok(stream[..k]), stream[k..])
    ensures stream[..k][k - 4..] == CRLFCRLF
  {
    HeadExactly(stream, maxHeaderBytes, k);
    assert stream[..k][k - 4..] == stream[k - 4..k];
  }

  lemma {:induction false} HeaderLinesRefused(lines: seq<string>)
    ensures HeaderLines(lines).Err? ==> HeaderLines(lines) == Err(ProtocolError)
  {
    if lines != [] {
      HeaderLinesRefused(lines[1..]);
    }
  }

  lemma TooLongExactly(lines: seq<string>, maxBodyBytes: int)
    requires lines != []
    ensures ParseHeadLines(lines, maxBodyBytes) == Err(RequestTooLarge) <==>
      exists h: Head :: h.bodyLength > maxBodyBytes && ParseHeadLines(lines, h.bodyLength) == Ok(h)
  {
    HeaderLinesRefused(lines[1..]);
    if ParseHeadLines(lines, maxBodyBytes) == Err(RequestTooLarge) {
      var parts := SplitTwice(lines[0]).value;
      var headers := HeaderLines(lines[1..]).value;
      var h := Head(parts.0, parts.1, headers, ContentLength(headers).value);
      assert ParseHeadLines(lines, h.bodyLength) == Ok(h);
    }
  }

  /** A head in the grammar but for announcing too long a body. */
  ghost predicate IsTooLong(head: bytes, maxBodyBytes: int) {
    exists h: Head :: h.bodyLength > maxBodyBytes && IsHeadBytes(head, h, h.bodyLength)
  }

  lemma HeadTooLongExactly(head: bytes, maxBodyBytes: int)
    requires |head| >= 4 && head[|head| - 4..] == CRLFCRLF
    ensures ParseHead(head, maxBodyBytes) == Err(RequestTooLarge) <==> IsTooLong(head, maxBodyBytes)
  {
    TooLongExactly(Split(DecodeLatin1(head[..|head| - 4]), CRLF), maxBodyBytes);
    forall h: Head
      ensures ParseHead(head, h.bodyLength) == Ok(h) <==> IsHeadBytes(head, h, h.bodyLength)
    {
      HeadParsesExactly(head, h, h.bodyLength);
    }
  }

  /**
   * How a read fails once its head is in: an announced body over the limit is too large; a stream that
   * ends within the body is incomplete, and used up; otherwise what the target comes to decides.
   */
  lemma BodyRefused(lib: UrlLibrary, stream: bytes, k: nat, maxHeaderBytes: int, maxBodyBytes: int)
    requires EndsWithin(stream, k, maxHeaderBytes)
    ensures IsTooLong(stream[..k], maxBodyBytes) <==>
      ParseHead(stream[..k], maxBodyBytes) == Err(RequestTooLarge)
    ensures IsTooLong(stream[..k], maxBodyBytes) ==>
      RequestOf(lib, stream, maxHeaderBytes, maxBodyBytes) == (Err(RequestTooLarge), stream[k..])
    ensures forall h :: ReadsHead(stream, k, h, maxHeaderBytes, maxBodyBytes) && k + h.bodyLength > |stream| ==>
      RequestOf(lib, stream, maxHeaderBytes, maxBodyBytes) == (Err(IncompleteRead), [])
  {
    HeadReads(stream, k, maxHeaderBytes);
    HeadTooLongExactly(stream[..k], maxBodyBytes);
    RequestAfterHead(lib, stream, maxHeaderBytes, maxBodyBytes, stream[..k], stream[k..]);
    forall h | ReadsHead(stream, k, h, maxHeaderBytes, maxBodyBytes)
      ensures ParseHead(stream[..k], maxBodyBytes) == Ok(h)
    {
      HeadReadExactly(stream, k, h, maxHeaderBytes, maxBodyBytes);
    }
  }

  lemma SameShortestHead(s: bytes, s': bytes, k: nat)
    requires ShortestHead(s, k) && k <= |s'| && s[..k] == s'[..k]
    ensures ShortestHead(s', k)
  {
    forall j | 0 <= j <= k
      ensures EndsHead(s, j) <==> EndsHead(s', j)
    {
      if j >= 4 {
        assert s[j - 4..j] == s[..k][j - 4..j] && s'[j - 4..j] == s'[..k][j - 4..j];
      }
    }
  }

  lemma ReadsHeadAgain(s: bytes, s': bytes, k: nat, h: Head, maxHeaderBytes: int, maxBodyBytes: int)
    requires ReadsHead(s, k, h, maxHeaderBytes, maxBodyBytes) && k <= |s'| && s[..k] == s'[..k]
    ensures ReadsHead(s', k, h, maxHeaderBytes, maxBodyBytes)
  {
    SameShortestHead(s, s', k);
  }

  lemma PrefixKept(stream: bytes, stream': bytes, k: nat, n: nat, other: bytes)
    requires k <= n <= |stream| && stream' == stream[..n] + other
    ensures |stream'| >= n && stream'[..k] == stream[..k] && stream'[k..n] == stream[k..n] && stream'[n..] == other
  {
  }

  /** The bytes consumed decide: before any other bytes the same request is read and they are left. */
  lemma ReadsAgain(lib: UrlLibrary, stream: bytes, k: nat, h: Head, maxHeaderBytes: int, maxBodyBytes: int,
                   q: HttpRequest, rest: bytes, stream': bytes, other: bytes)
    requires Reads(lib, stream, k, h, maxHeaderBytes, maxBodyBytes, q, rest)
    requires stream' == stream[..k + h.bodyLength] + other
    ensures Reads(lib, stream', k, h, maxHeaderBytes, maxBodyBytes, q, other)
  {
    PrefixKept(stream, stream', k, k + h.bodyLength, other);
    ReadsHeadAgain(stream, stream', k, h, maxHeaderBytes, maxBodyBytes);
    ReadsBodyAgain(lib, h, stream[k..k + h.bodyLength], stream'[k..k + h.bodyLength], q);
  }

  lemma ReadsBodyAgain(lib: UrlLibrary, h: Head, body: bytes, body': bytes, q: HttpRequest)
    requires body == body' && Resolve(lib, h.verb, h.target, h.headers, body) == Ok(q)
    ensures Resolve(lib, h.verb, h.target, h.headers, body') == Ok(q)
  {
  }

  /**
   * Every request the reader accepts is self-delimiting: its outcome depends only on the bytes it
   * consumed, and followed by any other bytes it leaves exactly those.
   */
  lemma AcceptedIsSelfDelimiting(lib: UrlLibrary, stream: bytes, maxHeaderBytes: int, maxBodyBytes: int,
                                 q: HttpRequest, rest: bytes, other: bytes)
    requires RequestOf(lib, stream, maxHeaderBytes, maxBodyBytes) == (Ok(q), rest)
    ensures |rest| <= |stream| && stream[|stream| - |rest|..] == rest
    ensures RequestOf(lib, stream[..|stream| - |rest|] + other, maxHeaderBytes, maxBodyBytes) == (Ok(q), other)
  {
    RequestExactly(lib, stream, maxHeaderBytes, maxBodyBytes, q, rest);
    var k: nat, h :| Reads(lib, stream, k, h, maxHeaderBytes, maxBodyBytes, q, rest);
    assert k + h.bodyLength == |stream| - |rest|;
    var stream' := stream[..k + h.bodyLength] + other;
    ReadsAgain(lib, stream, k, h, maxHeaderBytes, maxBodyBytes, q, rest, stream', other);
    RequestExactly(lib, stream', maxHeaderBytes, maxBodyBytes, q, other);
  }

  // ---- Reading what was printed ------------------------------------------

  predicate CrFree(line: string) {
    '\r' !in line
  }

  /** Something that begins with CR does not occur at a position of a CR-free line. */
  lemma NotWithin(line: string, after: string, sep: string)
    requires CrFree(line) && sep != "" && sep[0] == '\r'
    ensures forall j :: 0 <= j < |line| ==> !OccursAt(line + after, sep, j)
  {
    forall j | 0 <= j < |line|
      ensures !OccursAt(line + after, sep, j)
    {
      assert (line + after)[j] == line[j];
      if j + |sep| <= |line + after| {
        assert (line + after)[j..j + |sep|][0] == line[j];
      }
    }
  }

  lemma OccursShifted(a: string, b: string, sep: string, j: nat)
    ensures OccursAt(a + b, sep, |a| + j) <==> OccursAt(b, sep, j)
  {
    if j + |sep| <= |b| {
      assert (a + b)[|a| + j..|a| + j + |sep|] == b[j..j + |sep|];
    }
  }

  /** A CR-free line delays the first occurrence of a separator that begins with CR by its length. */
  lemma FirstAfterLine(line: string, after: string, sep: string, i: nat)
    requires CrFree(line) && sep != "" && sep[0] == '\r' && FirstAt(after, sep, i)
    ensures FirstAt(line + after, sep, |line| + i)
  {
    NotWithin(line, after, sep);
    OccursShifted(line, after, sep, i);
    forall j | |line| <= j < |line| + i
      ensures !OccursAt(line + after, sep, j)
    {
      OccursShifted(line, after, sep, j - |line|);
    }
  }

  /** A line end is no blank line when the next line does not begin with CR. */
  lemma FirstAfterLineEnd(rest: string, i: nat)
    requires rest != "" && rest[0] != '\r' && FirstAt(rest, CRLF + CRLF, i)
    ensures FirstAt(CRLF + rest, CRLF + CRLF, i + 2)
  {
    var s, sep := CRLF + rest, CRLF + CRLF;
    OccursShifted(CRLF, rest, sep, i);
    forall j | 0 <= j < i + 2
      ensures !OccursAt(s, sep, j)
    {
      if j >= 2 {
        OccursShifted(CRLF, rest, sep, j - 2);
      } else {
        assert s[2] == rest[0] && s[1] == '\n' && sep[2] == '\r' && sep[0] == '\r';
        if j + 4 <= |s| {
          assert s[j..j + 4][0] == s[j] && s[j..j + 4][2] == s[j + 2];
        }
      }
    }
  }

  /** Lines, the blank line after them, and what follows. */
  function Headed(lines: seq<string>, tail: string): string
    requires lines != []
  {
    Join(lines, CRLF) + CRLF + CRLF + tail
  }

  lemma HeadedBegins(lines: seq<string>, tail: string)
    requires lines != [] && lines[0] != "" && CrFree(lines[0])
    ensures Headed(lines, tail) != "" && Headed(lines, tail)[0] != '\r'
    ensures |lines| > 1 ==> Headed(lines, tail) == lines[0] + (CRLF + Headed(lines[1..], tail))
  {
    assert Headed(lines, tail)[0] == lines[0][0] && lines[0][0] in lines[0];
  }

  /** Non-empty CR-free lines first meet CRLFCRLF where the blank line after them begins. */
  lemma {:induction false} BlankLineFirst(lines: seq<string>, tail: string)
    requires lines != [] && forall i :: 0 <= i < |lines| ==> CrFree(lines[i]) && lines[i] != ""
    ensures FirstAt(Headed(lines, tail), CRLF + CRLF, |Join(lines, CRLF)|)
  {
    var sep := CRLF + CRLF;
    if |lines| == 1 {
      assert Headed(lines, tail) == lines[0] + (sep + tail);
      assert (sep + tail)[0..4] == sep;
      FirstAfterLine(lines[0], sep + tail, sep, 0);
    } else {
      var rest := Headed(lines[1..], tail);
      BlankLineFirst(lines[1..], tail);
      HeadedBegins(lines, tail);
      HeadedBegins(lines[1..], tail);
      FirstAfterLineEnd(rest, |Join(lines[1..], CRLF)|);
      FirstAfterLine(lines[0], CRLF + rest, sep, |Join(lines[1..], CRLF)| + 2);
    }
  }

  /** How a header is printed. */
  function HeaderText(h: (string, string)): string {
    h.0 + ": " + h.1
  }

  function HeaderTexts(headers: HeaderList): (lines: seq<string>)
    ensures |lines| == |headers| && forall i :: 0 <= i < |headers| ==> lines[i] == HeaderText(headers[i])
  {
    seq(|headers|, i requires 0 <= i < |headers| => HeaderText(headers[i]))
  }

  /** What the reader's trimming makes of header values. */
  function Trimmed(headers: HeaderList): (r: HeaderList)
    ensures |r| == |headers|
    ensures forall i :: 0 <= i < |headers| ==> r[i] == (headers[i].0, LStripBlanks(headers[i].1))
  {
    seq(|headers|, i requires 0 <= i < |headers| => (headers[i].0, LStripBlanks(headers[i].1)))
  }

  lemma HeaderLineReads(h: (string, string))
    requires IsToken(h.0)
    ensures HeaderLine(HeaderText(h)) == Ok((h.0, LStripBlanks(h.1)))
  {
    var line := HeaderText(h);
    assert h.0[0] in h.0;
    assert ' ' in TOKEN_SEPARATORS && '\t' in TOKEN_SEPARATORS && ':' in TOKEN_SEPARATORS;
    assert line[0] == h.0[0];
    assert line == h.0 + [':'] + (" " + h.1);
    FindAfter(h.0, ':', " " + h.1);
    assert line[..|h.0|] == h.0 && line[|h.0| + 1..] == " " + h.1;
    assert (" " + h.1)[1..] == h.1;
  }

  lemma HeaderLinesCons(lines: seq<string>, h: (string, string), rest: HeaderList)
    requires lines != [] && HeaderLine(lines[0]) == Ok(h) && HeaderLines(lines[1..]) == Ok(rest)
    ensures HeaderLines(lines) == Ok([h] + rest)
  {
  }

  lemma TextsAndTrimmedTails(headers: HeaderList)
    requires headers != []
    ensures HeaderTexts(headers)[1..] == HeaderTexts(headers[1..])
    ensures Trimmed(headers) == [(headers[0].0, LStripBlanks(headers[0].1))] + Trimmed(headers[1..])
  {
  }

  lemma {:induction false} HeaderLinesRead(headers: HeaderList)
    requires ValidHeaders(headers)
    ensures HeaderLines(HeaderTexts(headers)) == Ok(Trimmed(headers))
  {
    if headers != [] {
      HeaderLineReads(headers[0]);
      HeaderLinesRead(headers[1..]);
      TextsAndTrimmedTails(headers);
      HeaderLinesCons(HeaderTexts(headers), (headers[0].0, LStripBlanks(headers[0].1)), Trimmed(headers[1..]));
    }
  }

  /** A valid header prints as a non-empty line without CR. */
  lemma HeaderTextsAreLines(headers: HeaderList)
    requires ValidHeaders(headers)
    ensures forall l :: l in HeaderTexts(headers) ==> CrFree(l) && l != ""
  {
    forall l | l in HeaderTexts(headers)
      ensures CrFree(l) && l != ""
    {
      var i :| 0 <= i < |headers| && l == HeaderText(headers[i]);
      assert headers[i] in headers;
      assert IsControl('\r');
    }
  }

  lemma CutAtBlank(a: string, rest: string)
    requires ' ' !in a
    ensures Find(a + " " + rest, " ") == Some(|a|)
    ensures (a + " " + rest)[..|a|] == a && (a + " " + rest)[|a| + 1..] == rest
  {
    FindAfter(a, ' ', rest);
  }

  lemma LineCut(line: string, rest: string, a: string, b: string, c: string)
    requires line == a + " " + rest && rest == b + " " + c
    requires ' ' !in a && ' ' !in b
    ensures SplitTwice(line) == Some((a, b, c))
  {
    CutAtBlank(a, rest);
    CutAtBlank(b, c);
  }

  lemma StartLineReads(a: string, b: string, c: string)
    requires ' ' !in a && ' ' !in b
    ensures SplitTwice(a + " " + b + " " + c) == Some((a, b, c))
  {
    var line, rest := a + " " + b + " " + c, b + " " + c;
    assert line == a + " " + rest;
    LineCut(line, rest, a, b, c);
  }

  // ---- Rendered requests -------------------------------------------------

  function RequestLines(verb: string, target: string, headers: HeaderList): seq<string> {
    [verb + " " + target + " HTTP/1.1"] + HeaderTexts(headers)
  }

  /** A request head as a client would print it. */
  function RenderHead(verb: string, target: string, headers: HeaderList): string {
    Join(RequestLines(verb, target, headers), CRLF) + CRLF + CRLF
  }

  /** A request the reader is meant to accept: its framing is what its headers, once trimmed, say. */
  ghost predicate WellFormed(verb: string, target: string, headers: HeaderList, body: bytes, maxBodyBytes: int) {
    && IsToken(verb) && Upper(verb) != "CONNECT"
    && ' ' !in target && '\r' !in target
    && ValidHeaders(headers)
    && ValuesOf(Trimmed(headers), "transfer-encoding") == []
    && ContentLength(Trimmed(headers)) == Ok(|body|) && |body| <= maxBodyBytes
  }

  lemma HeadFound(lines: seq<string>, after: bytes)
    requires lines != [] && forall l :: l in lines ==> CrFree(l) && l != ""
    requires IsLatin1(Join(lines, CRLF) + CRLF + CRLF)
    ensures var head := Join(lines, CRLF) + CRLF + CRLF;
      var stream := EncodeLatin1(head) + after;
      && Find(stream, CRLFCRLF) == Some(|head| - 4)
      && DecodeLatin1(stream[..|head| - 4]) == Join(lines, CRLF)
  {
    var text := Join(lines, CRLF);
    var head := text + CRLF + CRLF;
    var stream := EncodeLatin1(head) + after;
    DecodeOfEncode(head, after);
    FindDecoded(stream, CRLFCRLF);
    assert DecodeLatin1(CRLFCRLF) == CRLF + CRLF;
    assert forall i :: 0 <= i < |lines| ==> lines[i] in lines;
    BlankLineFirst(lines, DecodeLatin1(after));
    FindsFirst(Headed(lines, DecodeLatin1(after)), CRLF + CRLF, |text|);
    assert DecodeLatin1(stream) == text + CRLF + CRLF + DecodeLatin1(after);
    assert DecodeLatin1(stream)[..|text|] == text;
    assert DecodeLatin1(stream[..|text|]) == DecodeLatin1(stream)[..|text|];
  }

  lemma RequestLineParses(verb: string, target: string)
    requires IsToken(verb) && ' ' !in target && '\r' !in target
    ensures var line := verb + " " + target + " HTTP/1.1";
      CrFree(line) && line != "" && SplitTwice(line) == Some((verb, target, "HTTP/1.1"))
  {
    assert ' ' in TOKEN_SEPARATORS && IsControl('\r');
    StartLineReads(verb, target, "HTTP/1.1");
    assert verb + " " + target + " " + "HTTP/1.1" == verb + " " + target + " HTTP/1.1";
  }

  lemma RequestLinesParse(verb: string, target: string, headers: HeaderList)
    requires IsToken(verb) && ' ' !in target && '\r' !in target && ValidHeaders(headers)
    ensures var lines := RequestLines(verb, target, headers);
      && (forall l :: l in lines ==> CrFree(l) && l != "")
      && SplitTwice(lines[0]) == Some((verb, target, "HTTP/1.1"))
      && HeaderLines(lines[1..]) == Ok(Trimmed(headers))
  {
    RequestLineParses(verb, target);
    HeaderTextsAreLines(headers);
    HeaderLinesRead(headers);
    assert RequestLines(verb, target, headers)[1..] == HeaderTexts(headers);
  }

  lemma TrimmedValid(headers: HeaderList)
    requires ValidHeaders(headers)
    ensures ValidHeaders(Trimmed(headers))
  {
    forall i | 0 <= i < |headers|
      ensures IsToken(Trimmed(headers)[i].0) && IsFieldValue(Trimmed(headers)[i].1)
    {
      assert headers[i] in headers;
      var v := headers[i].1;
      StrippedExactly(v, LStripBlanks(v));
      assert forall c :: c in LStripBlanks(v) ==> c in v;
    }
  }

  /**
   * The reader undoes printing: whatever follows a well-formed request on the stream, it reads that
   * request, its header values trimmed, and leaves exactly what follows.
   */
  lemma ReadsRendered(lib: UrlLibrary, verb: string, target: string, headers: HeaderList, body: bytes,
                      rest: bytes, maxHeaderBytes: int, maxBodyBytes: int)
    requires WellFormed(verb, target, headers, body, maxBodyBytes)
    requires IsLatin1(RenderHead(verb, target, headers)) && |RenderHead(verb, target, headers)| <= maxHeaderBytes
    ensures RequestOf(lib, EncodeLatin1(RenderHead(verb, target, headers)) + body + rest, maxHeaderBytes,
      maxBodyBytes) ==
      (Resolve(lib, verb, target, Trimmed(headers), body), rest)
  {
    var head := RenderHead(verb, target, headers);
    var lines := RequestLines(verb, target, headers);
    var stream := EncodeLatin1(head) + body + rest;
    assert stream == EncodeLatin1(head) + (body + rest);
    RequestLinesParse(verb, target, headers);
    HeadFound(lines, body + rest);
    CrFreeIsCrlfFree(lines);
    SplitUndoesJoin(lines);
    var data := stream[..|head|];
    assert data[..|head| - 4] == stream[..|head| - 4];
    assert HeadOf(stream, maxHeaderBytes) == (Ok(data), stream[|head|..]);
    assert stream[|head|..] == body + rest;
    TrimmedValid(headers);
    assert ParseHead(data, maxBodyBytes) == Ok(Head(verb, target, Trimmed(headers), |body|));
    assert (body + rest)[..|body|] == body && (body + rest)[|body|..] == rest;
  }

  lemma OriginTargetSplits(path: string, query: string)
    requires CleanOrigin(path) && '?' !in path && '#' !in query && ControlFree(query)
    ensures var target := OriginTarget(path, query);
      CleanOrigin(target) && Before(target, '?') == path && After(target, '?') == query
  {
    var target := OriginTarget(path, query);
    OriginTargetRead(path, query);
    if query != "" {
      assert target[0] == path[0] == '/';
      assert target[1] != '/' by {
        if |path| > 1 {
          assert path[..2] == "/" + [path[1]];
        }
      }
      assert target[..2] == "/" + [target[1]];
      assert !IsControl('?') && forall c :: c in target ==> c in path || c == '?' || c in query;
    }
  }

  lemma HostHeaderSplits(lib: UrlLibrary, host: string, port: Option<int>)
    requires ReadsDecimals(lib) && ':' !in host && (port.Some? ==> 1 <= port.value <= 65535)
    ensures var netloc := Netloc(host, port);
      && Before(netloc, ':') == host
      && (match port
          case None => After(netloc, ':') == ""
          case Some(n) => After(netloc, ':') != "" && lib.toInt(After(netloc, ':')) == Some(n))
  {
    match port
    case None => BeforeAfter(host, ':', "");
    case Some(n) =>
      DecimalRoundTrip(n);
      DecimalLength(n, 5);
      assert Netloc(host, port) == host + [':'] + Decimal(n);
      BeforeAfter(host, ':', Decimal(n));
  }

  /** In origin form, the reader's answer carries the target's path and query and the Host header's parts. */
  lemma OriginFormResolves(lib: UrlLibrary, verb: string, path: string, query: string, headers: HeaderList, body: bytes,
                           host: string, port: Option<int>)
    requires SplitsOrigin(lib) && ReadsDecimals(lib)
    requires CleanOrigin(path) && '?' !in path && '#' !in query && ControlFree(query)
    requires ':' !in host && (port.Some? ==> 1 <= port.value <= 65535)
    requires SingleHost(headers) == Ok(Netloc(host, port))
    ensures Resolve(lib, verb, OriginTarget(path, query), headers, body) ==
      Ok(HttpRequest(verb, "http", host, port, path, query, headers, body))
  {
    OriginTargetSplits(path, query);
    CleanFormsDisjoint(OriginTarget(path, query));
    HostHeaderSplits(lib, host, port);
  }
}
