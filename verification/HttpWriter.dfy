/** The HTTP/1.1 response writer of the local proxy. */
module HttpWriter {
  import opened Wrappers
  import opened Bytes
  import opened Text
  import opened Models
  import opened Target
  import opened Headers
  import opened HttpReader

  class Writer {
    var written: bytes

    constructor ()
      ensures written == []
    {
      written := [];
    }

    method Write(data: bytes)
      modifies this
      ensures written == old(written) + data
    {
      written := written + data;
    }
  }

  /** Status, reason, headers and body as they will be printed. */
  datatype Printout = Printout(status: nat, reason: string, headers: HeaderList, body: bytes)

  /** The one header of a printed error. */
  const ERROR_HEADER := ("content-type", "text/plain; charset=utf-8")

  function PrintoutOf(utf8: string -> bytes, m: Message): Printout
    requires ValidMessage(m) && !m.Request?
  {
    match m
    case Error(e) =>
      Printout(502, "Bad Gateway", [ERROR_HEADER], utf8(e.message))
    case Response(r) =>
      var reason := match r.reasonPhrase case None => "" case Some(text) => text;
      Printout(r.statusCode, reason, Filter(r.headers), r.body)
  }

  function StatusLine(p: Printout): string {
    "HTTP/1.1 " + Decimal(p.status) + " " + p.reason
  }

  /** The two headers the writer adds for a body of this length. */
  function FramingFor(n: nat): HeaderList {
    [("Content-Length", Decimal(n)), ("Connection", "close")]
  }

  function Framing(p: Printout): HeaderList {
    FramingFor(|p.body|)
  }

  /** What the header loop writes: every header up to the first that is not Latin-1. */
  function HeaderBytes(headers: HeaderList): (Result<()>, bytes) {
    if headers == [] then (Ok(()), [])
    else
      var line := HeaderText(headers[0]) + CRLF;
      if !IsLatin1(line) then (Err(PythonError), [])
      else
        var (r, rest) := HeaderBytes(headers[1..]);
        (r, EncodeLatin1(line) + rest)
  }

  /** The outcome of writing a response and every byte written. */
  function BytesOf(p: Printout): (Result<()>, bytes) {
    if !IsAscii(StatusLine(p)) then (Err(PythonError), [])
    else
      var start := EncodeLatin1(StatusLine(p) + CRLF);
      var (r, headers) := HeaderBytes(p.headers);
      if r.Err? then (r, start + headers)
      else (Ok(()), start + headers + EncodeLatin1(FramingText(p)) + p.body)
  }

  function FramingText(p: Printout): (s: string)
    ensures IsLatin1(s)
  {
    var s := "Content-Length: " + Decimal(|p.body|) + CRLF + "Connection: close" + CRLF + CRLF;
    assert IsLatin1(s) by {
      assert forall c :: c in "Content-Length: " || c in CRLF || c in "Connection: close" ==> c as int < 256;
      assert forall c :: c in Decimal(|p.body|) ==> '0' <= c <= '9';
    }
    s
  }

  /** The loop over the headers: each is encoded and written until one cannot be encoded. */
  method WriteHeaders(writer: Writer, headers: HeaderList) returns (r: Result<()>)
    modifies writer
    ensures r == HeaderBytes(headers).0 && writer.written == old(writer.written) + HeaderBytes(headers).1
  {
    ghost var total := old(writer.written) + HeaderBytes(headers).1;
    assert headers[0..] == headers;
    for k := 0 to |headers|
      invariant HeaderBytes(headers[k..]).0 == HeaderBytes(headers).0
      invariant writer.written + HeaderBytes(headers[k..]).1 == total
    {
      var line := HeaderText(headers[k]) + CRLF;
      assert headers[k..][0] == headers[k] && headers[k..][1..] == headers[k + 1..];
      if !IsLatin1(line) {
        assert writer.written + [] == writer.written;
        return Err(PythonError);
      }
      ghost var rest := HeaderBytes(headers[k + 1..]).1;
      assert writer.written + (EncodeLatin1(line) + rest) == (writer.written + EncodeLatin1(line)) + rest;
      writer.Write(EncodeLatin1(line));
    }
    assert headers[|headers|..] == [] && writer.written + [] == writer.written;
    r := Ok(());
  }

  method WriteResponse(utf8: string -> bytes, writer: Writer, m: Message) returns (r: Result<()>)
    requires ValidMessage(m) && !m.Request?
    modifies writer
    ensures r == BytesOf(PrintoutOf(utf8, m)).0
    ensures writer.written == old(writer.written) + BytesOf(PrintoutOf(utf8, m)).1
  {
    r := WritePrintout(writer, PrintoutOf(utf8, m));
  }

  method WritePrintout(writer: Writer, p: Printout) returns (r: Result<()>)
    modifies writer
    ensures r == BytesOf(p).0 && writer.written == old(writer.written) + BytesOf(p).1
  {
    ghost var before := writer.written;
    if !IsAscii(StatusLine(p)) {
      assert before + [] == before;
      return Err(PythonError);
    }
    AsciiLineEncodes(p);
    var start := EncodeLatin1(StatusLine(p) + CRLF);
    writer.Write(start);
    r := WriteHeaders(writer, p.headers);
    ghost var headers := HeaderBytes(p.headers).1;
    assert (before + start) + headers == before + (start + headers);
    if r.Ok? {
      var tail := EncodeLatin1(FramingText(p));
      writer.Write(tail + p.body);
      WritesChain(before, start + headers, tail, p.body);
      r := Ok(());
    }
  }

  lemma WritesChain(a: bytes, b: bytes, c: bytes, d: bytes)
    ensures (a + b) + (c + d) == a + (b + c + d)
  {
  }

  lemma AsciiLineEncodes(p: Printout)
    requires IsAscii(StatusLine(p))
    ensures IsLatin1(StatusLine(p) + CRLF)
  {
    assert forall c :: c in StatusLine(p) + CRLF ==> c in StatusLine(p) || c in CRLF;
  }

  // ---- The output parses back --------------------------------------------

  function HeadLines(p: Printout): seq<string> {
    [StatusLine(p)] + HeaderTexts(p.headers + Framing(p))
  }

  /** Lines, each with its end. */
  function Ended(lines: seq<string>): string {
    if lines == [] then "" else lines[0] + CRLF + Ended(lines[1..])
  }

  lemma {:induction false} EndedIsJoined(lines: seq<string>)
    requires lines != []
    ensures Ended(lines) == Join(lines, CRLF) + CRLF
  {
    if |lines| > 1 {
      EndedIsJoined(lines[1..]);
    } else {
      assert Ended(lines[1..]) == "";
    }
  }

  lemma {:induction false} EndedAppends(a: seq<string>, b: seq<string>)
    ensures Ended(a + b) == Ended(a) + Ended(b)
  {
    if a == [] {
      assert a + b == b;
    } else {
      EndedAppends(a[1..], b);
      assert (a + b)[1..] == a[1..] + b && (a + b)[0] == a[0];
      Associates(a[0] + CRLF, Ended(a[1..]), Ended(b));
    }
  }

  lemma EncodeAppends(a: string, b: string)
    requires IsLatin1(a) && IsLatin1(b)
    ensures IsLatin1(a + b) && EncodeLatin1(a + b) == EncodeLatin1(a) + EncodeLatin1(b)
  {
  }

  predicate Latin1Headers(headers: HeaderList) {
    forall h :: h in headers ==> IsLatin1(h.0) && IsLatin1(h.1)
  }

  lemma {:induction false} HeaderBytesWritten(headers: HeaderList)
    requires Latin1Headers(headers)
    ensures IsLatin1(Ended(HeaderTexts(headers)))
    ensures HeaderBytes(headers) == (Ok(()), EncodeLatin1(Ended(HeaderTexts(headers))))
  {
    var texts := HeaderTexts(headers);
    if headers != [] {
      HeaderBytesWritten(headers[1..]);
      assert texts[1..] == HeaderTexts(headers[1..]);
      var line := HeaderText(headers[0]) + CRLF;
      assert headers[0] in headers;
      assert IsLatin1(line) by {
        assert forall c :: c in line ==> c in headers[0].0 || c in headers[0].1 || c in ": " || c in CRLF;
      }
      EncodeAppends(line, Ended(texts[1..]));
    }
  }

  /** A response the writer can print: an ASCII reason and Latin-1 headers. */
  predicate Printable(r: RelayResponse) {
    && ValidResponse(r)
    && (r.reasonPhrase.Some? ==> IsAscii(r.reasonPhrase.value))
    && Latin1Headers(r.headers)
  }

  lemma AsciiStatusLine(status: nat, reason: string)
    requires IsAscii(reason)
    ensures var line := "HTTP/1.1 " + Decimal(status) + " " + reason;
      IsAscii(line) && IsLatin1(line + CRLF)
  {
    var line := "HTTP/1.1 " + Decimal(status) + " " + reason;
    assert forall c :: c in "HTTP/1.1 " || c in " " || c in CRLF ==> c as int < 128;
    assert forall c :: c in Decimal(status) ==> '0' <= c <= '9';
    assert forall c :: c in line ==> c in "HTTP/1.1 " || c in Decimal(status) || c in " " || c in reason;
  }

  /** The bytes written are the head's lines, a blank line and the body. */
  lemma BytesAreHeadAndBody(p: Printout)
    requires IsAscii(p.reason) && Latin1Headers(p.headers)
    ensures var head := Join(HeadLines(p), CRLF) + CRLF + CRLF;
      IsLatin1(head) && BytesOf(p) == (Ok(()), EncodeLatin1(head) + p.body)
  {
    var head := Join(HeadLines(p), CRLF) + CRLF + CRLF;
    var texts := HeaderTexts(p.headers);
    AsciiStatusLine(p.status, p.reason);
    HeaderBytesWritten(p.headers);
    EndedIsJoined(HeadLines(p));
    FramingLines(p);
    assert HeaderTexts(p.headers + Framing(p)) == texts + HeaderTexts(Framing(p));
    assert HeadLines(p) == ([StatusLine(p)] + texts) + HeaderTexts(Framing(p));
    EndedAppends([StatusLine(p)] + texts, HeaderTexts(Framing(p)));
    EndedAppends([StatusLine(p)], texts);
    assert Ended([StatusLine(p)]) == StatusLine(p) + CRLF by {
      assert Ended([StatusLine(p)][1..]) == "";
    }
    var start := StatusLine(p) + CRLF;
    assert head == (start + Ended(texts)) + FramingText(p);
    EncodeAppends(start, Ended(texts));
    EncodeAppends(start + Ended(texts), FramingText(p));
  }

  // ---- Writes that fail ---------------------------------------------------

  lemma HeaderLineLatin1(h: (string, string))
    ensures IsLatin1(HeaderText(h) + CRLF) <==> IsLatin1(h.0) && IsLatin1(h.1)
  {
    var line := HeaderText(h) + CRLF;
    assert forall c :: c in ": " || c in CRLF ==> c as int < 256;
    assert forall c :: c in line <==> c in h.0 || c in ": " || c in h.1 || c in CRLF;
  }

  /** Header `k` is the first that is not Latin-1, or `k` is their number. */
  ghost predicate FirstUnprintable(headers: HeaderList, k: nat) {
    k <= |headers| && Latin1Headers(headers[..k]) &&
    (k < |headers| ==> !(IsLatin1(headers[k].0) && IsLatin1(headers[k].1)))
  }

  /** The header loop writes the lines before the first header that is not Latin-1, and fails there. */
  lemma {:induction false} HeadersWrittenUpTo(headers: HeaderList, k: nat)
    requires FirstUnprintable(headers, k)
    ensures IsLatin1(Ended(HeaderTexts(headers[..k])))
    ensures HeaderBytes(headers) ==
      (if k == |headers| then Ok(()) else Err(PythonError), EncodeLatin1(Ended(HeaderTexts(headers[..k]))))
  {
    if k == |headers| {
      assert headers[..k] == headers;
      HeaderBytesWritten(headers);
    } else if k == 0 {
      assert HeaderTexts(headers[..0]) == [];
      HeaderLineLatin1(headers[0]);
    } else {
      FirstIsPrintable(headers, k);
      HeadersWrittenUpTo(headers[1..], k - 1);
      EndedFirst(headers, k);
      EncodeAppends(HeaderText(headers[0]) + CRLF, Ended(HeaderTexts(headers[1..][..k - 1])));
    }
  }

  lemma FirstIsPrintable(headers: HeaderList, k: nat)
    requires FirstUnprintable(headers, k) && 0 < k
    ensures IsLatin1(HeaderText(headers[0]) + CRLF) && FirstUnprintable(headers[1..], k - 1)
  {
    assert headers[..k][0] in headers[..k];
    HeaderLineLatin1(headers[0]);
    assert headers[1..][..k - 1] == headers[..k][1..];
  }

  lemma EndedFirst(headers: HeaderList, k: nat)
    requires 0 < k <= |headers|
    ensures Ended(HeaderTexts(headers[..k])) ==
      HeaderText(headers[0]) + CRLF + Ended(HeaderTexts(headers[1..][..k - 1]))
  {
    var texts := HeaderTexts(headers[..k]);
    assert texts[1..] == HeaderTexts(headers[1..][..k - 1]);
  }

  lemma {:induction false} SomeFirstUnprintable(headers: HeaderList) returns (k: nat)
    ensures FirstUnprintable(headers, k)
  {
    if headers == [] || !(IsLatin1(headers[0].0) && IsLatin1(headers[0].1)) {
      k := 0;
    } else {
      var l := SomeFirstUnprintable(headers[1..]);
      k := l + 1;
      assert forall h :: h in headers[..k] ==> h == headers[0] || h in headers[1..][..l];
    }
  }

  lemma StatusLineAscii(p: Printout)
    ensures IsAscii(StatusLine(p)) <==> IsAscii(p.reason)
  {
    if IsAscii(p.reason) {
      AsciiStatusLine(p.status, p.reason);
    }
    assert forall c :: c in p.reason ==> c in StatusLine(p);
  }

  /**
   * A write fails exactly when the reason is not ASCII, and then nothing is written, or some header is
   * not Latin-1, and then the status line and the headers before it are.
   */
  lemma WritesExactly(p: Printout, k: nat)
    requires FirstUnprintable(p.headers, k)
    ensures BytesOf(p).0 == Ok(()) <==> IsAscii(p.reason) && k == |p.headers|
    ensures BytesOf(p).0.Err? ==> BytesOf(p).0 == Err(PythonError)
    ensures !IsAscii(p.reason) ==> BytesOf(p).1 == []
    ensures IsAscii(p.reason) && k < |p.headers| ==>
      && IsLatin1(StatusLine(p) + CRLF + Ended(HeaderTexts(p.headers[..k])))
      && BytesOf(p).1 == EncodeLatin1(StatusLine(p) + CRLF + Ended(HeaderTexts(p.headers[..k])))
  {
    StatusLineAscii(p);
    HeadersWrittenUpTo(p.headers, k);
    if IsAscii(p.reason) {
      AsciiStatusLine(p.status, p.reason);
      EncodeAppends(StatusLine(p) + CRLF, Ended(HeaderTexts(p.headers[..k])));
    }
  }

  /** So a write succeeds exactly for an ASCII reason and Latin-1 headers. */
  lemma WriteSucceedsExactly(p: Printout)
    ensures BytesOf(p).0 == Ok(()) <==> IsAscii(p.reason) && Latin1Headers(p.headers)
  {
    var k := SomeFirstUnprintable(p.headers);
    WritesExactly(p, k);
    if k == |p.headers| {
      assert p.headers[..k] == p.headers;
    } else {
      assert p.headers[k] in p.headers;
    }
  }

  lemma FramingLines(p: Printout)
    ensures Ended(HeaderTexts(Framing(p))) + CRLF == FramingText(p)
  {
    var texts := HeaderTexts(Framing(p));
    assert "Content-Length" + ": " == "Content-Length: " && "Connection" + ": " + "close" == "Connection: close";
    assert texts == ["Content-Length: " + Decimal(|p.body|), "Connection: close"];
    assert texts[1..] == ["Connection: close"] && texts[1..][1..] == [];
    assert Ended(texts[1..][1..]) == "";
    assert Ended(texts[1..]) == "Connection: close" + CRLF;
  }

  lemma {:induction false} ValuesOfAppends(a: HeaderList, b: HeaderList, name: string)
    ensures ValuesOf(a + b, name) == ValuesOf(a, name) + ValuesOf(b, name)
  {
    if a == [] {
      assert a + b == b;
    } else {
      ValuesOfAppends(a[1..], b, name);
      assert (a + b)[1..] == a[1..] + b && (a + b)[0] == a[0];
      Associates(if Lower(a[0].0) == name then [a[0].1] else [], ValuesOf(a[1..], name), ValuesOf(b, name));
    }
  }

  /** Trimming keeps names, so a name that is absent stays absent. */
  lemma TrimmedNames(headers: HeaderList, name: string)
    requires forall h :: h in headers ==> Lower(h.0) != name
    ensures ValuesOf(Trimmed(headers), name) == []
  {
    forall h | h in Trimmed(headers)
      ensures Lower(h.0) != name
    {
      var i :| 0 <= i < |headers| && h == (headers[i].0, LStripBlanks(headers[i].1));
      assert headers[i] in headers;
    }
    ValuesNone(Trimmed(headers), name);
  }

  lemma FramingValues(p: Printout)
    ensures ValuesOf(Framing(p), "content-length") == [Decimal(|p.body|)]
    ensures ValuesOf(Framing(p), "transfer-encoding") == []
  {
    var f := Framing(p);
    assert Lower("Content-Length") == "content-length" && Lower("Connection") == "connection";
    assert f[1..] == [("Connection", "close")] && f[1..][1..] == [];
    assert ValuesOf(f[1..][1..], "content-length") == [] && ValuesOf(f[1..][1..], "transfer-encoding") == [];
    assert ValuesOf(f[1..], "content-length") == [] && ValuesOf(f[1..], "transfer-encoding") == [];
  }

  /** Headers that hold neither framing header are framed by exactly the one the writer adds. */
  lemma FramedOnce(p: Printout, headers: HeaderList)
    requires |p.body| < 0x8000_0000_0000_0000
    requires ValuesOf(headers, "content-length") == [] && ValuesOf(headers, "transfer-encoding") == []
    ensures ValuesOf(headers + Framing(p), "content-length") == [Decimal(|p.body|)]
    ensures ValuesOf(headers + Framing(p), "transfer-encoding") == []
    ensures ContentLength(headers + Framing(p)) == Ok(|p.body|)
  {
    FramingValues(p);
    ValuesOfAppends(headers, Framing(p), "content-length");
    ValuesOfAppends(headers, Framing(p), "transfer-encoding");
    DecimalRoundTrip(|p.body|);
    DecimalLength(|p.body|, 19) by {
      assert Pow10(19) == 10 * Pow10(18) && Pow10(9) == 1_000_000_000;
      assert Pow10(18) == 1_000_000_000_000_000_000;
    }
  }

  lemma FilteredHasNoFraming(headers: HeaderList)
    ensures ValuesOf(Trimmed(Filter(headers)), "content-length") == []
    ensures ValuesOf(Trimmed(Filter(headers)), "transfer-encoding") == []
  {
    KeptNames(headers, Blocked(headers));
    assert "content-length" in HOP_BY_HOP_HEADERS && "transfer-encoding" in HOP_BY_HOP_HEADERS;
    TrimmedNames(Filter(headers), "content-length");
    TrimmedNames(Filter(headers), "transfer-encoding");
  }

  /** What a reader of the proxy's own line grammar makes of a head: start line and headers. */
  function ParseLines(text: string): (Option<(string, string, string)>, Result<HeaderList>) {
    var lines := Split(text, CRLF);
    (SplitTwice(lines[0]), HeaderLines(lines[1..]))
  }

  lemma FramingIsValid(p: Printout)
    ensures ValidHeaders(Framing(p)) && Trimmed(Framing(p)) == Framing(p)
  {
    var digits := Decimal(|p.body|);
    assert IsFieldValue(digits) && LStripBlanks(digits) == digits;
    WordIsToken("Content-Length");
    WordIsToken("Connection");
  }

  lemma StatusLineReads(p: Printout)
    requires IsFieldValue(p.reason)
    ensures SplitTwice(StatusLine(p)) == Some(("HTTP/1.1", Decimal(p.status), p.reason))
    ensures CrFree(StatusLine(p)) && StatusLine(p) != ""
  {
    var digits := Decimal(p.status);
    assert ' ' !in digits && '\r' !in digits;
    StartLineReads("HTTP/1.1", digits, p.reason);
    assert StatusLine(p) == "HTTP/1.1" + " " + digits + " " + p.reason;
  }

  lemma PrintedLines(p: Printout)
    requires IsFieldValue(p.reason) && ValidHeaders(p.headers)
    ensures var lines := HeadLines(p);
      && (forall l :: l in lines ==> CrFree(l) && l != "")
      && SplitTwice(lines[0]) == Some(("HTTP/1.1", Decimal(p.status), p.reason))
      && HeaderLines(lines[1..]) == Ok(Trimmed(p.headers) + Framing(p))
  {
    var lines, all := HeadLines(p), p.headers + Framing(p);
    StatusLineReads(p);
    FramingIsValid(p);
    HeaderTextsAreLines(all);
    HeaderLinesRead(all);
    assert lines[1..] == HeaderTexts(all);
    assert Trimmed(all) == Trimmed(p.headers) + Trimmed(Framing(p));
  }

  /** The bytes are a head and a body: start line, headers and body as a reader recovers them. */
  ghost predicate ReadsAs(output: bytes, start: (string, string, string), headers: HeaderList, body: bytes) {
    var end := Find(output, CRLFCRLF);
    && end.Some? && output[end.value + 4..] == body
    && ParseLines(DecodeLatin1(output[..end.value])) == (Some(start), Ok(headers))
  }

  /** What any printable printout parses back to. */
  lemma PrintoutParsesBack(p: Printout)
    requires IsAscii(p.reason) && IsFieldValue(p.reason) && ValidHeaders(p.headers) && Latin1Headers(p.headers)
    ensures BytesOf(p).0 == Ok(())
    ensures ReadsAs(BytesOf(p).1, ("HTTP/1.1", Decimal(p.status), p.reason), Trimmed(p.headers) + Framing(p), p.body)
  {
    BytesAreHeadAndBody(p);
    PrintedLines(p);
    var head := Join(HeadLines(p), CRLF) + CRLF + CRLF;
    HeadFound(HeadLines(p), p.body);
    CrFreeIsCrlfFree(HeadLines(p));
    SplitUndoesJoin(HeadLines(p));
    assert (EncodeLatin1(head) + p.body)[|head|..] == p.body;
  }

  /**
   * What the writer prints parses back: the first blank line is the end of the head, the body is
   * all that follows, and the reader's grammar recovers status, reason and the filtered headers,
   * framed by exactly one Content-Length, which is the body's length, and no Transfer-Encoding.
   */
  lemma OutputParsesBack(r: RelayResponse, utf8: string -> bytes)
    requires Printable(r) && |r.body| < 0x8000_0000_0000_0000
    ensures var (outcome, output) := BytesOf(PrintoutOf(utf8, Response(r)));
      var headers := Trimmed(Filter(r.headers)) + FramingFor(|r.body|);
      && outcome == Ok(())
      && ReadsAs(output, ("HTTP/1.1", Decimal(r.statusCode), if r.reasonPhrase.None? then "" else r.reasonPhrase.value),
                 headers, r.body)
      && ContentLength(headers) == Ok(|r.body|)
      && ValuesOf(headers, "content-length") == [Decimal(|r.body|)]
      && ValuesOf(headers, "transfer-encoding") == []
  {
    var p := PrintoutOf(utf8, Response(r));
    KeptNames(r.headers, Blocked(r.headers));
    FilterKeepsValid(r.headers);
    PrintoutParsesBack(p);
    FilteredHasNoFraming(r.headers);
    FramedOnce(p, Trimmed(Filter(r.headers)));
  }

  lemma ErrorHeaderPrintable()
    ensures ValidHeaders([ERROR_HEADER]) && Latin1Headers([ERROR_HEADER]) && Trimmed([ERROR_HEADER]) == [ERROR_HEADER]
  {
    var h := ERROR_HEADER;
    WordIsToken(h.0);
    assert forall i :: 0 <= i < |h.1| ==> ' ' <= h.1[i] <= '~';
    assert forall i :: 0 <= i < |h.0| ==> ' ' <= h.0[i] <= '~';
  }

  lemma BadGatewayPrintable()
    ensures IsAscii("Bad Gateway") && IsFieldValue("Bad Gateway") && Decimal(502) == "502"
  {
    var text := "Bad Gateway";
    assert forall i :: 0 <= i < |text| ==> ' ' <= text[i] <= '~';
    assert Decimal(5) == "5" && Decimal(50) == "50";
  }

  lemma OneHeaderParsesBack(p: Printout, h: (string, string), digits: string)
    requires p.headers == [h] && digits == Decimal(p.status) && Trimmed([h]) == [h]
    requires IsAscii(p.reason) && IsFieldValue(p.reason) && ValidHeaders([h]) && Latin1Headers([h])
    ensures BytesOf(p).0 == Ok(())
    ensures ReadsAs(BytesOf(p).1, ("HTTP/1.1", digits, p.reason),
                    [h] + FramingFor(|p.body|), p.body)
  {
    PrintoutParsesBack(p);
    assert Trimmed(p.headers) + Framing(p) == [h] + FramingFor(|p.body|);
  }

  /** An error is printed as 502 with its message as the text, framed by the text's own length. */
  lemma ErrorParsesBack(e: RelayError, utf8: string -> bytes)
    requires ValidError(e)
    ensures ERROR_HEADER == ("content-type", "text/plain; charset=utf-8")
    ensures var (outcome, output) := BytesOf(PrintoutOf(utf8, Error(e)));
      && outcome == Ok(())
      && ReadsAs(output, ("HTTP/1.1", "502", "Bad Gateway"),
                 [ERROR_HEADER] + FramingFor(|utf8(e.message)|), utf8(e.message))
  {
    ErrorHeaderPrintable();
    BadGatewayPrintable();
    OneHeaderParsesBack(PrintoutOf(utf8, Error(e)), ERROR_HEADER, "502");
  }
}
