# RelayX: a Dafny model of the relay protocol and its HTTP ends

RelayX carries complete HTTP requests through an encrypted relay. A local proxy reads an HTTP/1.1
request, seals it into a packet under a key shared with the server and posts it; the server opens
the packet, checks it against a replay cache, forwards the request upstream, and seals the response
for the way back. This project models that path from the bytes the application writes to the bytes
it reads, and proves what each part promises and what they promise together.

`dafny verify dfyconfig.toml` checks everything.

| file | part of the program |
|---|---|
| `Replay.dfy` | the bounded, purging replay cache (a class), and the log that never forgets |
| `Aead.dfy`, `Bytes.dfy` | the 44 bytes of associated data, the length, sealing and opening |
| `Codec.dfy`, `Models.dfy` | the strict message schema over msgpack value trees; message validity |
| `Compression.dfy`, `Pipeline.dfy` | compression threshold; encoding and decoding, and their effect on the cache |
| `HttpReader.dfy`, `Target.dfy` | the byte-at-a-time HTTP/1.1 reader; request targets and URL recomposition |
| `HttpWriter.dfy` | the response writer |
| `Headers.dfy`, `Forwarder.dfy` | hop-by-hop filtering; bounded buffering and forwarding |
| `Endpoint.dfy`, `RelayClient.dfy`, `Proxy.dfy` | the server's handler, the client's `send`, the proxy's connection handler |
| `Protocol.dfy`, `Runs.dfy` | clients, server and an adversarial network as a step system; runs it has |
| `Text.dfy`, `Constants.dfy`, `Wrappers.dfy` | string operations, constants, options and results |

Code that changes state is modelled as classes and methods with loops, each proved equal to a
function of the old state; the properties are proved of those functions.

## Main results

1. End to end (`Protocol.EndToEnd`). In every reachable state of the step system, whatever a send
   returned is exactly what one forward of exactly that request produced and, when the server's clock
   does not go back, the request was forwarded no second time. The network may drop, duplicate,
   reorder, reflect or invent packets and handlers interleave. For a clock that slips by at most d,
   `Protocol.SecondForwardAge` bounds the age at which the packet behind a second forward was let in,
   and `Runs.ForwardsTwiceExactly` says exactly when a second forward can happen at all.
   `Protocol.ExchangeCompletes` shows that, from every reachable state, an exchange whose packets are
   within both ends' limits and new to their replay caches completes; `Runs.ExchangeExists` gives such
   a run for every valid request and every upstream response. `Protocol.StepsAreRelay` says that the
   steps are those of the handler method.
2. The replay cache, although bounded and purging, gives every call of every run the verdict of a
   log that keeps every acceptance forever (`Replay.CacheRefinesLog`), when clock readings do not go
   back. Without that, `Replay.SecondAcceptanceExact` says exactly which second acceptances exist.
3. Sealing and opening are inverse on exactly the accepted packets, and the schema codec accepts
   exactly the trees it writes, up to Python's equality on the version.
4. The HTTP reader reads a request off a stream exactly when the stream begins with one in a
   declarative grammar over its bytes (`HttpReader.RequestExactly`), is self-delimiting on everything
   it accepts and undoes printing; the writer's output parses back to status, reason, filtered headers
   and body.
5. `Proxy.AbsoluteFormReachesUpstream` and `Proxy.OriginFormReachesUpstream` say what the upstream
   server is asked for what an application wrote, `Proxy.ApplicationReadsForward` that the bytes
   printed for a returned reply read as what the one forward of the sent request was answered, and
   `Proxy.StreamToStream` joins both ways across the relay. `Proxy.HandlerPrintsForward` says it of the
   connection handler's own output, and `Proxy.NothingSentAnswers`, `Proxy.CarrierFailureAnswers` and
   `Proxy.RefusedReplyAnswers` what it prints when anything fails.
6. The forwarder's URL determines a request's host and port exactly when the port is left out and not
   written into the host (`Target.UrlDeterminesExactly`).

7. Every failure has its answer: `Endpoint.ExpiredAnswered`, `FutureAnswered`, `RememberedAnswered`,
   `FullAnswered`, `ContentAnswered`, `NoRequestAnswered`, `RaisedAnswered` and `Forwarder.FailsExactly`
   give the server's reply in each case by code, text and retryable flag.

## Assumptions

Library code appears as function-valued parameters with laws:

- The AEAD (section 2.8 of RFC 8439): `Aead.Decrypts` (decryption undoes encryption),
  `Aead.AddsTag` (16 bytes of expansion) and `Aead.Reencrypts` (only own ciphertexts decrypt).
  `Aead.OpenUndoesSeal` needs the first two, `Aead.SealUndoesOpen` the third,
  `Aead.AcceptedPrefixFree` none.
- Authenticity is the ideal form `Aead.Unforged`: what decrypts under a packet's header is in the
  log of seals. Only `Aead.AcceptedWasSealed` and the step system use it.
- zstd: `Compression.Decompresses`. Whether the output bound is honoured is a second law,
  `Compression.HonoursBound`, which only `Compression.DecompressedWithin` and `Pipeline.DecodedWithin`
  need; the first law allows an error or the data when the bound is exceeded.
- msgpack: `Codec.Unpacks` (unpacking undoes packing).
- `urlsplit` and `int()`: `Target.SplitsOrigin`, `Target.SplitsAbsolute` and `Target.ReadsDecimals`,
  which fix them only on a clean domain: no fragment, no control characters, no leading `//`, an
  ASCII lower-case authority without user information or brackets.

`Pipeline.LawsCanBeMet` and `Target.ReferenceLaws` exhibit libraries that meet the laws, so they
do not contradict each other. Clock readings, nonces and request ids are inputs. The step system lets
request ids be fresh and the server's clock slip by at most a configured amount (`Protocol.Enabled`);
it assumes nothing about nonces being unique or about the clients' clocks.

`Forwarder.UpstreamRequest` and `Forwarder.Upstream` are httpx's view of the exchange: the arguments
of the client call, and the status, reason, headers and chunks the library hands back. The headers
httpx adds on the wire, and its decoding of a compressed body, lie behind that view.

## Where the code differs from its documentation

- README.md:86 and docs/RELEASE_NOTES_v1.md:12 promise an encrypted RelayResponse or RelayError.
  `dumps` adds a `headers` entry to every message (relayx/protocol/codec.py:41), and the error schema
  has no such field (relayx/protocol/codec.py:36), so no error ever decodes (`Codec.ErrorTreeRefused`,
  `Pipeline.ErrorsNeverDecode`) and a send only ever returns responses (`Protocol.SendReturnsResponses`).
  With the entry written only where a message has headers, all three kinds round-trip
  (`Codec.RepairedRoundTrip`).
- The version test uses Python equality, so `True` and `1.0` pass; `Codec.AcceptedExactly` states
  canonicity up to that.
- The length check after the loop in `_read_headers` can never fire: `HttpReader.ReadHeaders` proves
  its branch dead.
- Hosts may contain colons, so the URL does not always determine the request: host "a" on port 1 and
  host "a:1" on no port share one URL (`Target.SharedUrl`), and so does every request with a port and
  the one that writes it into the host (`Target.PortInHostSharesUrl`). `Target.UrlDeterminesExactly`
  gives the exact condition.

## Model

| member | source | states |
|---|---|---|
| `Replay.ReplayCache.constructor` | relayx/protocol/replay.py:23-32 | seconds become milliseconds; the table starts empty |
| `Replay.ReplayCache.CheckAndStore` | relayx/protocol/replay.py:34-50 | verdict and new table are those of `Judge`: invalid nonce before purging, then expired, future, replayed, full, accepted |
| `Replay.ReplayCache.Purge` | relayx/protocol/replay.py:52-56 | exactly the entries older than the window are deleted |
| `Replay.VerdictsAgree` | relayx/protocol/replay.py:41-50 | a table that agrees with a log above the cutoff gives the log's verdict |
| `Replay.JudgeAgrees` | relayx/protocol/replay.py:41-56 | one call keeps table and log in agreement, nonces distinct |
| `Replay.AcceptedIsNew` | relayx/protocol/replay.py:46-50 | an accepted call is for a packet never accepted before |
| `Replay.VerdictExactly` | relayx/protocol/replay.py:37-50 | the verdict of a well-formed call in each case: expired, from the future, remembered, full, accepted, in that order |
| `Replay.RunAgrees` | relayx/protocol/replay.py:34-56 | agreement holds after every run whose clock does not go back |
| `Replay.CacheRefinesLog` | relayx/protocol/replay.py:34-56 | every call of every such run gets the verdict of the log that never forgets |
| `Replay.TableIsLiveLog` | relayx/protocol/replay.py:41-56 | after a well-formed call the table holds exactly the log's live entries, as many as there are |
| `Replay.StaysUntilPurged` | relayx/protocol/replay.py:50-56 | an accepted entry stays in the table until some reading puts it outside the window |
| `Replay.SecondAcceptanceAge` | relayx/protocol/replay.py:41-56 | with a clock slipping by at most d, a second acceptance has age in (window - d, window] |
| `Replay.SecondAcceptanceExact` | relayx/protocol/replay.py:41-56 | a call can be a second acceptance under some run slipping by at most d if and only if it is well formed, capacity is positive and its age is in (window - d, window] and not beyond the skew |
| `Replay.ResubmissionRefused` | relayx/protocol/replay.py:42-47 | with a clock that does not go back an accepted packet offered again is expired or replayed, and which of the two |
| `Replay.NeverOverCapacity` | relayx/protocol/replay.py:48-50 | the table never exceeds its capacity, whatever the clock does |
| `Replay.NeverFull` | relayx/protocol/replay.py:41-50 | no call is answered full when every closed interval of window + skew sees fewer acceptances than the capacity |
| `Replay.PurgedToEmpty` | relayx/protocol/replay.py:52-56 | a well-formed call later than window + skew after every acceptance purges the table to empty |
| `Bytes.BigEndianRoundTrip` | relayx/crypto/aead.py:88-98 | big-endian packing is undone by unpacking |
| `Bytes.FromBigEndianRoundTrip` | relayx/crypto/aead.py:101-104 | unpacked bytes pack back to themselves |
| `Bytes.BigEndianDigit` | relayx/crypto/aead.py:88-98 | each packed byte is the base-256 digit of its place, the most significant first |
| `Aead.AadFields` | relayx/crypto/aead.py:83-104 | parsing the packed associated data gives back each field |
| `Aead.AadRebuilt` | relayx/crypto/aead.py:83-104 | accepted associated data repacks, from its fields, to the same bytes |
| `Aead.OpenUndoesSeal` | relayx/crypto/aead.py:36-80 | opening a sealed packet gives type, flag, timestamp, nonce and text back, or refuses it exactly for exceeding the size limit |
| `Aead.OpensExactly` | relayx/crypto/aead.py:53-80 | a packet opens if and only if every header byte and the length field are as they must be and the ciphertext authenticates under the header; which of the two failures otherwise |
| `Aead.SealSucceedsExactly` | relayx/crypto/aead.py:36-50 | sealing succeeds if and only if the stamp's fields fit and the ciphertext length fits 32 bits |
| `Aead.SealUndoesOpen` | relayx/crypto/aead.py:53-80 | every accepted packet is byte for byte the seal of its own fields |
| `Aead.AcceptedPrefixFree` | relayx/crypto/aead.py:68-73 | no accepted packet is a proper prefix of another, for any cipher |
| `Aead.AcceptedWasSealed` | relayx/crypto/aead.py:53-80 | under ideal authenticity an accepted packet is byte for byte in the seal log, though the length is unauthenticated |
| `Aead.ToyCipherLaws` | relayx/crypto/aead.py:49 | a cipher meeting all three laws exists |
| `Compression.CompressesExactly` | relayx/compression.py:10-17 | data is compressed if and only if that is enabled and it reaches the threshold, is left alone otherwise, and fails exactly when due and the compressor fails |
| `Compression.DecompressedWithin` | relayx/compression.py:19-27 | no more than the caller's limit comes out, of data that came uncompressed and of a decompressor that honours the bound it is handed |
| `Compression.CompressionTransparent` | relayx/compression.py:10-27 | whatever the threshold chose, the receiver gets the data or an error, and the data when it fits |
| `Codec.CollectHeaders` | relayx/protocol/codec.py:127-140 | the loop over header items returns what `ReadHeaders` says: all pairs, or an error at the first item that is not one |
| `Codec.PairsReadBack` | relayx/protocol/codec.py:127-140 | written header pairs read back in order |
| `Codec.PairsWriteBack` | relayx/protocol/codec.py:127-140 | accepted header items are exactly the pairs written for the result |
| `Codec.RequestReadExactly` | relayx/protocol/codec.py:143-155 | a request is read if and only if the map has exactly its entries and the request is valid |
| `Codec.ResponseReadExactly` | relayx/protocol/codec.py:158-166 | likewise for a response |
| `Codec.ErrorReadExactly` | relayx/protocol/codec.py:169-179 | likewise for an error |
| `Codec.AcceptedExactly` | relayx/protocol/codec.py:48-73 | a tree loads as m if and only if m is valid and of the expected type, the version equals 1 in Python, and with the integer 1 there the tree is the one tree of m |
| `Codec.ErrorTreeRefused` | relayx/protocol/codec.py:39-45 | the tree `dumps` builds for any error is refused, whatever type is expected |
| `Codec.MismatchRefused` | relayx/protocol/codec.py:59-61 | a tree of another type than the packet header names is refused |
| `Codec.VersionExactly` | relayx/protocol/codec.py:57-58 | a tree whose version is missing, or other than the integer 1, true and 1.0, is refused |
| `Codec.LoadsFailure` | relayx/protocol/codec.py:51-73 | every refusal is a serialization error, an invalid field value included |
| `Codec.RepairedRoundTrip` | relayx/protocol/codec.py:36-73 | with `headers` written only where a message has them, every valid message of every kind comes back under its own type and no other |
| `Codec.LoadsUndoesDumps` | relayx/protocol/codec.py:39-77 | as written, loading a dump gives the message back for requests and responses and an error for errors and mismatched types |
| `Codec.ListUnpacks` | relayx/protocol/codec.py:43 | lawful packers exist for any finite list of trees |
| `Pipeline.LawsCanBeMet` | relayx/pipeline.py:22-60 | lawful libraries exist that pack any given trees |
| `Pipeline.DecodeMessage` | relayx/pipeline.py:36-60 | outcome and replay table of decoding, with and without a cache, in the code's order of checks |
| `Pipeline.EncodedHeader` | relayx/pipeline.py:29-33 | the header bytes of an encoded packet: magic, version, type of the message, and flag 1 exactly when compression is enabled and the serialized length reaches the threshold |
| `Pipeline.EncodeFailsExactly` | relayx/pipeline.py:29-33 | an encoding fails exactly when the serializer, the compressor when due, or the seal does |
| `Pipeline.DecodeUndoesEncode` | relayx/pipeline.py:22-60 | for any two ends' settings, decoding an encoded message fails or returns that message, never another |
| `Pipeline.UnwrapUndoesPayload` | relayx/pipeline.py:49-60 | after the replay check an encoded message comes back exactly when it decompresses and its body fits, and otherwise which error is raised |
| `Pipeline.DecodesExactly` | relayx/pipeline.py:22-60 | the message comes back if and only if it is no error, packet and body are within the limits, the replay check accepts and the payload decompresses |
| `Pipeline.DecodeDelivers` | relayx/pipeline.py:22-60 | in particular when the serialized message is within the decompression limit |
| `Pipeline.DecodedConforms` | relayx/pipeline.py:46-60 | whatever decodes is valid, of the type in the packet header, within every limit, and accepted as new |
| `Pipeline.DecodedWithin` | relayx/pipeline.py:49-52 | what decodes was serialized within the decompression limit, if the decompressor honours its bound |
| `Pipeline.AcceptedDecodesAlike` | relayx/pipeline.py:46-60 | what the replay check accepts decodes as it would without a cache |
| `Pipeline.ErrorsNeverDecode` | relayx/pipeline.py:22-60 | no packet carrying a relay error decodes |
| `Pipeline.DecodeTableEffect` | relayx/pipeline.py:46-50 | an unopened packet leaves the table alone; an opened one is stored exactly when the replay check accepts, whatever fails later, and is otherwise refused with the error of its case |
| `Pipeline.TableIsReplayRun` | relayx/pipeline.py:46-50 | a run of decoding attempts leaves the table of the replay run of the packets that opened |
| `Pipeline.StoredPacketRefused` | relayx/pipeline.py:46-60 | a stored packet is refused at every later attempt as expired or replayed, even if its first decoding failed afterwards |
| `Headers.FilterForwardHeaders` | relayx/http/headers.py:9-19 | the loop and comprehension compute `Filter` |
| `Text.Latin1Classes` | relayx/http/headers.py:12-14 | lower-casing and space on the characters a head can carry, by code point |
| `Headers.TokensExactly` | relayx/http/headers.py:13-15 | the tokens of a value are the names it lists: stretches between commas or ends, without the space around them, each character lowered |
| `Headers.TokensAreNominations` | relayx/http/headers.py:10-15 | the collected tokens are exactly the names some Connection header lists |
| `Headers.FixedNamesDropped` | relayx/constants.py:28-39 | whatever else the headers say, none of the ten fixed names survives |
| `Headers.FilterRemovesExactly` | relayx/http/headers.py:9-19 | for Latin-1 names: the result is a subsequence that keeps every multiplicity except those of fixed and nominated names, which drop to zero |
| `Headers.SurvivesExactly` | relayx/http/headers.py:16-19 | for Latin-1 names: a header survives if and only if its name is neither fixed nor nominated |
| `Headers.FilterIdempotent` | relayx/http/headers.py:9-19 | filtering twice is filtering once, though the blocked set depends on the input |
| `Headers.FilterKeepsValid` | relayx/protocol/models.py:51-65 | filtering keeps a header list valid |
| `Target.ResolvedConforms` | relayx/http/parser.py:52-87 | whatever resolves had exactly one Host header, matching an absolute target's authority, and keeps method, headers and body |
| `Target.AfterLastAtExactly` | relayx/http/parser.py:75 | the authority compared is all of the netloc, or what follows its last "@" |
| `Target.HostPortExactly` | relayx/http/parser.py:80-84 | a Host value's host and port are what is before and after its first colon, the latter read as a number, or all of it and none |
| `Target.ResolvesExactly` | relayx/http/parser.py:52-87 | a target resolves to a request if and only if exactly one header is called host and scheme, host, port, path, query and authority come to it |
| `Target.ResolveFailsExactly` | relayx/http/parser.py:59-87 | resolving raises a library exception exactly when the splitter does, on a target whose Host was readable, and is otherwise a protocol error |
| `Target.ReferenceLaws` | relayx/http/parser.py:59-87 | a splitter and an integer reader meeting the three laws exist |
| `Target.UrlPartsRecovered` | relayx/server/forwarder.py:21-25 | scheme, authority, path and query can be read off the URL of any valid request |
| `Target.UrlInjective` | relayx/server/forwarder.py:21-25 | two valid requests have the same URL if and only if they agree on scheme, authority, path and query |
| `Target.SameNetloc` | relayx/server/forwarder.py:21-22 | two hosts with ports give the same authority if and only if they are the same or one leaves out the port and writes the other's into its host |
| `Target.PortInHostSharesUrl` | relayx/server/forwarder.py:21-25 | writing the port into the host gives another valid request of the same URL |
| `Target.UrlDeterminesExactly` | relayx/server/forwarder.py:21-25 | every valid request of a request's URL has its host and port if and only if it leaves the port out and its host is not a valid host, a colon and a port number |
| `Target.SharedUrl` | relayx/protocol/models.py:89-102 | two concrete valid requests share one URL |
| `Target.ResolveUndoesUrl` | relayx/http/parser.py:59-87 | the target parser gives scheme, host, port, path and query of a canonical request back from its URL under a matching Host |
| `HttpReader.Reader.ReadOne` | relayx/http/parser.py:95 | one byte is taken, or none at the end of the stream |
| `HttpReader.Reader.ReadExactly` | relayx/http/parser.py:36 | exactly n bytes, or a failure that consumes what there was |
| `HttpReader.ReadHeaders` | relayx/http/parser.py:90-101 | outcome and unread rest are those of `HeadOf`; it terminates and never reads past the head |
| `HttpReader.HeadExactly` | relayx/http/parser.py:90-101 | a head is returned if and only if it is the shortest prefix ending in CRLFCRLF and within the limit; which failure is told otherwise, and what stays unread |
| `HttpReader.ReadHeaderLines` | relayx/http/parser.py:24-29 | the loop over header lines computes `HeaderLines`, stopping at the first malformed line |
| `HttpReader.ReadRequest` | relayx/http/parser.py:12-37 | outcome and unread rest of reading a request are those of `RequestOf` |
| `HttpReader.SplitTwiceExactly` | relayx/http/parser.py:18 | a request line has three parts exactly when it is they, joined by blanks, with none in the first two |
| `HttpReader.HeaderLineExactly` | relayx/http/parser.py:26-29 | a line reads as a header if and only if it is the name, a colon, blanks and a value that begins with none |
| `HttpReader.HeaderLinesExactly` | relayx/http/parser.py:24-30 | likewise for all lines, one header each, in order |
| `HttpReader.SplitExactly` | relayx/http/parser.py:16 | splitting a text at CRLF gives certain lines if and only if the text is those lines joined by CRLF, with none inside them |
| `HttpReader.ContentLengthExactly` | relayx/http/parser.py:40-49 | the length is n if and only if no header is called content-length and n is 0, or exactly one is and its value is a decimal number of at most 4300 digits with value n |
| `HttpReader.HeadParsesExactly` | relayx/http/parser.py:16-35 | a head is accepted if and only if its bytes are the lines of the request grammar, each ended by CRLF, and a blank line: request line, header lines, supported framing |
| `HttpReader.RequestExactly` | relayx/http/parser.py:12-37 | a request is read, leaving certain bytes, if and only if the stream begins with a head of the grammar within the limit and the body it announces, they resolve to that request, and those bytes follow |
| `HttpReader.AcceptedConforms` | relayx/http/parser.py:12-37 | the bytes consumed by an accepted request are the shortest head and the body its only framing header announces; method and headers are valid, one Host, no Transfer-Encoding |
| `HttpReader.HeadTooLongExactly` | relayx/http/parser.py:34-35 | a head is refused as too large if and only if it is in the grammar but for announcing too long a body |
| `HttpReader.BodyRefused` | relayx/http/parser.py:33-36 | once a head is in: which reads fail as too large and which as incomplete, and what stays unread |
| `HttpReader.HeadSelfDelimiting` | relayx/http/parser.py:90-101 | an accepted head is read again from its own bytes, whatever follows |
| `HttpReader.AcceptedIsSelfDelimiting` | relayx/http/parser.py:12-37 | every accepted request depends only on the bytes consumed and leaves exactly what follows them |
| `HttpReader.SplitUndoesJoin` | relayx/http/parser.py:16 | splitting at CRLF undoes joining lines free of CRLF, even lines that hold or end in a lone CR |
| `HttpReader.BlankLineFirst` | relayx/http/parser.py:92 | non-empty CR-free lines first meet CRLFCRLF at the blank line after them |
| `HttpReader.HeaderLinesRead` | relayx/http/parser.py:24-30 | printed valid headers are read back, values trimmed of leading blanks |
| `HttpReader.ReadsRendered` | relayx/http/parser.py:12-37 | a well-formed rendered request followed by anything is read as that request, header values trimmed, leaving exactly what follows |
| `HttpReader.OriginFormResolves` | relayx/http/parser.py:78-87 | an origin-form target resolves to its own path and query and the Host header's host and port |
| `HttpWriter.WriteHeaders` | relayx/http/writer.py:25-26 | headers are written in order up to the first that is not Latin-1 |
| `HttpWriter.WriteResponse` | relayx/http/writer.py:9-31 | outcome and every byte written are those of `BytesOf`, for responses and errors |
| `HttpWriter.BytesAreHeadAndBody` | relayx/http/writer.py:24-30 | the bytes are the head's lines, a blank line and the body |
| `HttpWriter.FramedOnce` | relayx/http/writer.py:27-30 | headers without framing get exactly one Content-Length, read back as the body's length, and no Transfer-Encoding |
| `HttpWriter.OutputParsesBack` | relayx/http/writer.py:9-31 | the first CRLFCRLF ends the head, the rest is the body, and the reader's grammar recovers status, reason and filtered headers |
| `HttpWriter.WritesExactly` | relayx/http/writer.py:24-30 | a write fails exactly for a reason that is not ASCII, with nothing written, or at the first header that is not Latin-1, with the status line and the headers before it written |
| `HttpWriter.WriteSucceedsExactly` | relayx/http/writer.py:24-30 | a write succeeds if and only if the reason is ASCII and every header Latin-1 |
| `HttpWriter.ErrorParsesBack` | relayx/http/writer.py:10-16 | an error parses back as 502 Bad Gateway in plain text with its message as the body, framed by the body's length |
| `Forwarder.ConcatAppends` | relayx/server/forwarder.py:33-35 | chunks are concatenated in the order they arrive |
| `Forwarder.ReadLimitedBody` | relayx/server/endpoint.py:38-44 | for every split into chunks: the concatenation if and only if the total is within the limit, never buffering more than the limit |
| `Forwarder.AccumulateBody` | relayx/server/forwarder.py:33-42 | the same decision, buffering at most the limit plus one chunk |
| `Forwarder.Forward` | relayx/server/forwarder.py:20-70 | the arguments of the client call and the message returned, for every way the exchange can end |
| `Forwarder.RespondsExactly` | relayx/server/forwarder.py:43-49 | a response is returned if and only if the exchange ran to its end within the limit, and it is the upstream's status, reason, filtered headers and whole body under the request's id |
| `Forwarder.FailsExactly` | relayx/server/forwarder.py:36-70 | code, text and retryable flag of the error in every other case, the size refusal before a broken stream; what raises instead |
| `Forwarder.ForwardKeepsId` | relayx/server/forwarder.py:37-70 | what forwarding returns is valid, not a request, within the limit and under the request's own id |
| `Forwarder.HopByHopStaysHere` | relayx/server/forwarder.py:30-48 | for Latin-1 names: a header reaches the other side, in either direction, if and only if it is neither hop-by-hop nor nominated |
| `Forwarder.FilteredOnceUpstream` | relayx/server/forwarder.py:30 | the proxy's and the forwarder's filtering together are one |
| `Endpoint.ErrorReplyValid` | relayx/server/endpoint.py:47-71 | every exception maps to a valid error message |
| `Endpoint.OversizedRefused` | relayx/server/endpoint.py:38-44 | a carrier body over the limit is refused whatever it holds, and not recorded |
| `Endpoint.UnopenedAnswered` | relayx/server/endpoint.py:69-71 | a body that does not open is answered invalid_packet, and not recorded |
| `Endpoint.ExpiredAnswered` | relayx/server/endpoint.py:50-51 | a packet older than the window is answered packet_expired |
| `Endpoint.FutureAnswered` | relayx/server/endpoint.py:52-58 | a packet further ahead than the skew is answered packet_from_future |
| `Endpoint.RememberedAnswered` | relayx/server/endpoint.py:48-49 | a packet in time whose nonce the table remembers is answered replay_detected |
| `Endpoint.FullAnswered` | relayx/server/endpoint.py:59-60 | a new packet for which there is no room is answered replay_cache_full, retryable |
| `Endpoint.ContentAnswered` | relayx/server/endpoint.py:61-71 | a packet let in whose content is refused is answered request_too_large, response_too_large or invalid_packet, as the content is refused |
| `Endpoint.NoRequestAnswered` | relayx/server/endpoint.py:126-127 | a packet let in that carries no request is answered invalid_packet |
| `Endpoint.OversizedBodyAnswered` | relayx/server/endpoint.py:61-68 | an encoded message whose body exceeds the server's limit is answered so, by its kind |
| `Endpoint.RequestAnswered` | relayx/server/endpoint.py:128-129 | a decoded request is answered by what forwarding it gives |
| `Endpoint.RaisedAnswered` | relayx/server/endpoint.py:134-145 | when forwarding raises, the answer is invalid_packet under the request's own id |
| `Endpoint.RepeatAnswered` | relayx/server/endpoint.py:114-145 | with a clock that does not go back, a stored packet posted again is answered packet_expired or replay_detected, as its age decides, whatever came in between |
| `Endpoint.RelayEndpoint.Relay` | relayx/server/endpoint.py:101-152 | packet returned and replay table after a handler run, for every body, upstream behaviour and stamp |
| `Client.RelayClient.constructor` | relayx/client/relay_client.py:15-27 | the client keeps its settings and makes its own replay cache, fresh, empty and under those settings' limits |
| `Client.RelayClient.Send` | relayx/client/relay_client.py:29-58 | the packet posted, the result and the replay table, for every carrier outcome |
| `Client.AcceptsExactly` | relayx/client/relay_client.py:45-58 | a reply is accepted if and only if it decodes to a response under the request's id or to an error under that id or none; which failure otherwise |
| `Models.TokenExactly` | relayx/protocol/models.py:41-48 | a token is a non-empty text of the token characters of RFC 9110 and of characters at or above 128 |
| `Models.ValidRequestExactly` | relayx/protocol/models.py:82-115 | what a request may be, character by character and number by number |
| `Models.ValidResponseExactly` | relayx/protocol/models.py:128-140 | what a response may be, likewise |
| `Protocol.StepsAreRelay` | relayx/server/endpoint.py:114-152 | the receive, forward and reply steps of one handler are together one run of the handler method |
| `Protocol.DecodedProvenance` | relayx/pipeline.py:46-60 | an unforged packet decodes only to the request a client sealed in it or a response the server sealed in it |
| `Protocol.SendKeeps` | relayx/client/relay_client.py:30-43 | sealing and posting keeps the invariant |
| `Protocol.ReceiveKeeps` | relayx/server/endpoint.py:117-128 | decoding any delivered packet keeps it: genuine requests only, each accepted packet held once |
| `Protocol.ForwardKeeps` | relayx/server/endpoint.py:129 | forwarding keeps it |
| `Protocol.ReplyKeeps` | relayx/server/endpoint.py:146-152 | sealing a reply keeps it |
| `Protocol.AcceptKeeps` | relayx/client/relay_client.py:45-58 | accepting or refusing a reply keeps it |
| `Protocol.RunKeeps` | relayx/server/endpoint.py:101-152 | every run keeps the invariant |
| `Protocol.ForwardedGenuine` | relayx/server/endpoint.py:117-129 | every forward is, field by field, of a request a client sent, out of that client's packet |
| `Protocol.SecondForwardAge` | relayx/server/endpoint.py:117-129 | with a server clock slipping by at most d, a second forward of one request comes out of the same packet, let in again at an age in (window - d, window] |
| `Protocol.ForwardedOnlyOnce` | relayx/server/endpoint.py:117-129 | with a clock that does not go back no request is forwarded twice |
| `Protocol.EndToEnd` | relayx/client/relay_client.py:29-58 | what a send returned is exactly what one forward of that request produced, and with a clock that does not go back the only one |
| `Protocol.SendReturnsResponses` | relayx/client/relay_client.py:54-58 | a send returns only responses under its own id |
| `Protocol.DirectionsSeparate` | relayx/protocol/codec.py:59-61 | no forward comes out of a packet the server sealed and no send returns what a client sealed |
| `Protocol.ReceiveDelivers` | relayx/server/endpoint.py:117-128 | a posted packet that passes the limits and the replay check is decoded to its request |
| `Protocol.AcceptDelivers` | relayx/client/relay_client.py:45-58 | a sealed response under a waiting id that passes them is returned |
| `Protocol.ExchangeCompletes` | relayx/client/relay_client.py:29-58 | from every reachable state an exchange whose packets pass both ends' limits and replay checks is a run and returns the upstream response |
| `Runs.ExchangeExists` | relayx/client/relay_client.py:29-58 | for every valid request and every upstream behaviour that yields a response there is a relay with a run from the start that returns it |
| `Runs.ForwardsTwiceExactly` | relayx/protocol/replay.py:41-56 | a relay that can carry a request has a reachable state that forwards it twice if and only if its server's clock may slip at all and its limits let anything in |
| `Proxy.AnswerIsPrintable` | relayx/client/proxy.py:24-46 | a connection is answered with a valid response or error, never a request |
| `Proxy.NothingSentAnswers` | relayx/client/proxy.py:24-46 | an unreadable stream, an invalid request or a failed seal: nothing posted, no table changed, and the bytes read as 502 with the generic text |
| `Proxy.CarrierFailureAnswers` | relayx/client/proxy.py:41-46 | a failed carrier exchange: the packet posted, no table changed, 502 with the generic text |
| `Proxy.RefusedReplyAnswers` | relayx/client/proxy.py:41-46 | a reply that does not decode or is for another request: packet posted, decoding's table, 502 with the generic text |
| `Proxy.ReplyAnswers` | relayx/client/proxy.py:41-46 | a reply for this request: the bytes read as that response, or as 502 with that error's text |
| `Proxy.SealedResponseIsPrinted` | relayx/client/proxy.py:24-46 | when the carrier brings what a server sealed for a printable response under the request's id, new and within limits, the handler prints exactly that response and remembers the packet |
| `Proxy.HandlerPrintsForward` | relayx/client/proxy.py:24-46 | inside the relay, whatever unforged packet the carrier brings, the handler prints what a forward of its request was answered, or the generic 502 |
| `Proxy.Obtain` | relayx/client/proxy.py:24-45 | the guarded part: answer, packet posted, replay table and unread rest, for every failure |
| `Proxy.Handle` | relayx/client/proxy.py:21-48 | every byte written, the packet posted, the replay table and the unread rest after a connection |
| `Proxy.OriginFormReachesUpstream` | relayx/client/proxy.py:25-41 | a well-formed origin-form request becomes upstream the same method, the URL of Host and target, headers trimmed and filtered once, and body |
| `Proxy.AbsoluteFormReachesUpstream` | relayx/client/proxy.py:25-41 | a well-formed request whose target is a canonical absolute URL under a matching Host becomes upstream the same method and that same URL, headers trimmed and filtered once, and body |
| `Proxy.FilteredOnceDownstream` | relayx/http/writer.py:22 | the forwarder's and the writer's filtering together are one |
| `Proxy.UpstreamResponseReachesApplication` | relayx/http/writer.py:9-31 | the application reads back the status, reason and body the exchange yields and its headers filtered once, in order |
| `Proxy.ApplicationReadsForward` | relayx/client/proxy.py:41-46 | in every reachable state the bytes printed for a returned reply read as what one forward of exactly the sent request was answered, the only one when the clock does not go back |
| `Proxy.StreamToStream` | relayx/client/proxy.py:21-48 | when the sent request was read from an application's stream, that forward asked upstream exactly what the stream asks for |

## Left out

- ChaCha20-Poly1305, zstd and msgpack byte formats: library code, parameters with the laws above. Limits of the libraries themselves (such as the largest text the cipher takes) are not modelled; msgpack extension types are not among the value trees, and floats are reals.
- Randomness, `uuid4` and the clock: inputs.
- Restart: it loses the replay table, as docs/OPERATIONS.md:94 says, so at-most-once holds per server process.
- Overlapping `send` calls on one client: `Client.RelayClient.Send` takes the carrier's outcome as an input; interleaving is in the step system only. The same holds for `Endpoint.RelayEndpoint.Relay`.
- Bearer-token and content-type checks, FastAPI routing, TLS, httpx transport, connection closing: plumbing.
- relayx/server/app.py (in-flight counter, drain), relayx/config.py, relayx/crypto/keys.py, relayx/logging.py, relayx/ops.py, relayx/cli.py, benchmarks/: range checks, files, processes and measurement.
- Full `urlsplit` (brackets, user information, stripping of control characters, targets beginning with two slashes): outside the clean domain the splitter is an arbitrary parameter.
- `lower()` and `strip()` are exact on Latin-1, the characters a head can carry; header names beyond it, which a decoded message may contain, are lowered only in their Latin-1 part, so `Headers.FilterRemovesExactly`, `Headers.SurvivesExactly` and `Forwarder.HopByHopStaysHere` carry that domain in their requires. `upper()` is exact on ASCII and only compared with CONNECT.
- Message texts of exceptions and log output: only the kind of failure is kept. The UTF-8 encoding of an error message in a 502 body is a parameter.
- Body rules that depend on the request method or on 1xx, 204 and 304 statuses: the writer does not implement them.
- Chunked transfer, streaming and pipelining: the program refuses or does not offer them.
- HttpWriter.OutputParsesBack: bodies below 2^63 bytes, so that the decimal Content-Length stays within what `int()` reads.
