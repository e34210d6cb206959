/** Encoding a message into a packet and decoding a packet into a message. */
module Pipeline {
  import opened Wrappers
  import opened Bytes
  import opened Constants
  import opened Models
  import opened Aead
  import opened Compression
  import Codec
  import opened Replay

  /** The libraries the pipeline calls, under one shared key. */
  datatype Libraries = Libraries(cipher: Cipher, zstd: Zstd, msgpack: Codec.Msgpack)

  ghost predicate Lawful(lib: Libraries) {
    Decrypts(lib.cipher) && AddsTag(lib.cipher) && Decompresses(lib.zstd) && Codec.Unpacks(lib.msgpack)
  }

  /** Libraries that meet every law and pack the listed trees. */
  function ToyLibraries(values: seq<Codec.Value>): Libraries {
    Libraries(ToyCipher(), Storing(), Codec.ListMsgpack(values))
  }

  /** Whatever trees are to be sent, lawful libraries that pack them exist. */
  lemma LawsCanBeMet(values: seq<Codec.Value>)
    ensures Lawful(ToyLibraries(values)) && Reencrypts(ToyLibraries(values).cipher)
    ensures forall v :: v in values ==> ToyLibraries(values).msgpack.pack(v).Some?
  {
    ToyCipherLaws();
    StoringDecompresses();
    Codec.ListUnpacks(values);
  }

  /** The settings one end of the relay runs under. */
  datatype Settings = Settings(
    replay: Limits,
    compressionEnabled: bool, compressionThreshold: int,
    maxCiphertext: int, maxDecompressed: int, maxRequestBody: int, maxResponseBody: int)

  function EncodeMessage(lib: Libraries, settings: Settings, m: Message, stamp: Stamp): Result<bytes> {
    var serialized :- Codec.Dumps(lib.msgpack, m);
    var pair :- MaybeCompress(lib.zstd, serialized, settings.compressionEnabled, settings.compressionThreshold);
    Seal(lib.cipher, pair.0, MessageType(m), pair.1, stamp)
  }

  /** What follows the replay check: decompression, the schema, the body limits. */
  function Unwrap(lib: Libraries, settings: Settings, content: OpenedPacket): Result<Message> {
    var serialized :- MaybeDecompress(lib.zstd, content.plaintext, content.compressed, settings.maxDecompressed);
    var m :- Codec.Loads(lib.msgpack, serialized, Some(content.typeId));
    if m.Request? && |m.request.body| > settings.maxRequestBody then Err(RequestTooLarge)
    else if m.Response? && |m.response.body| > settings.maxResponseBody then Err(ResponseTooLarge)
    else Ok(m)
  }

  function CallOf(content: OpenedPacket, nowMs: int): Call {
    Call(content.nonceId, content.timestampMs, nowMs)
  }

  /** Decoding against a replay table: the outcome and the table afterwards. */
  function Decode(lib: Libraries, settings: Settings, seen: Seen, packet: bytes, nowMs: int): (Result<Message>, Seen) {
    match OpenPacket(lib.cipher, packet, settings.maxCiphertext)
    case Err(e) => (Err(e), seen)
    case Ok(content) =>
      var (verdict, seen') := Judge(settings.replay, seen, CallOf(content, nowMs));
      (if verdict != Accepted then Err(ErrorOf(verdict)) else Unwrap(lib, settings, content), seen')
  }

  /** Decoding without a replay cache. */
  function DecodeUnchecked(lib: Libraries, settings: Settings, packet: bytes): Result<Message> {
    var content :- OpenPacket(lib.cipher, packet, settings.maxCiphertext);
    Unwrap(lib, settings, content)
  }

  method DecodeMessage(lib: Libraries, settings: Settings, cache: ReplayCache?, packet: bytes, nowMs: int)
    returns (r: Result<Message>)
    requires cache != null ==> cache.limits == settings.replay
    modifies if cache == null then {} else {cache}
    ensures cache == null ==> r == DecodeUnchecked(lib, settings, packet)
    ensures cache != null ==> (r, cache.seen) == Decode(lib, settings, old(cache.seen), packet, nowMs)
  {
    var o := OpenPacket(lib.cipher, packet, settings.maxCiphertext);
    if o.Err? {
      return Err(o.error);
    }
    var content := o.value;
    if cache != null {
      var verdict := cache.CheckAndStore(content.nonceId, content.timestampMs, nowMs);
      if verdict != Accepted {
        return Err(ErrorOf(verdict));
      }
    }
    var d := MaybeDecompress(lib.zstd, content.plaintext, content.compressed, settings.maxDecompressed);
    if d.Err? {
      return Err(d.error);
    }
    var l := Codec.Loads(lib.msgpack, d.value, Some(content.typeId));
    if l.Err? {
      return Err(l.error);
    }
    var m := l.value;
    if m.Request? && |m.request.body| > settings.maxRequestBody {
      return Err(RequestTooLarge);
    }
    if m.Response? && |m.response.body| > settings.maxResponseBody {
      return Err(ResponseTooLarge);
    }
    return Ok(m);
  }

  /** What an encoding seals, letter by letter of its header: the type of the message, and whether it is compressed. */
  lemma EncodedHeader(lib: Libraries, settings: Settings, m: Message, stamp: Stamp)
    requires EncodeMessage(lib, settings, m, stamp).Ok?
    ensures Codec.Dumps(lib.msgpack, m).Ok?
    ensures var p, serialized := EncodeMessage(lib, settings, m, stamp).value, Codec.Dumps(lib.msgpack, m).value;
      && |p| >= HEADER_SIZE && p[..4] == [0x52, 0x4C, 0x58, 0x31] && p[4] == 1 && p[7] == 0
      && p[5] == (if m.Request? then 1 else if m.Response? then 2 else 3)
      && p[6] == (if settings.compressionEnabled && |serialized| >= settings.compressionThreshold then 1 else 0)
      && p[16..32] == stamp.nonceId && FromBigEndian(p[8..16]) == stamp.timestampMs
  {
    var serialized := Codec.Dumps(lib.msgpack, m).value;
    var pair := MaybeCompress(lib.zstd, serialized, settings.compressionEnabled, settings.compressionThreshold).value;
    CompressesExactly(lib.zstd, serialized, settings.compressionEnabled, settings.compressionThreshold, pair.0, pair.1);
    SealedHeader(lib.cipher, pair.0, MessageType(m), pair.1, stamp);
  }

  /** When an encoding fails, and how: the serializer, then the compressor, then the seal. */
  lemma EncodeFailsExactly(lib: Libraries, settings: Settings, m: Message, stamp: Stamp)
    requires AddsTag(lib.cipher)
    ensures var e := EncodeMessage(lib, settings, m, stamp);
      match lib.msgpack.pack(Codec.Tree(m))
      case None => e == Err(SerializationError)
      case Some(data) =>
        var due := settings.compressionEnabled && |data| >= settings.compressionThreshold;
        if due && lib.zstd.compress(data).None? then e == Err(CompressionError)
        else
          var payload := if due then lib.zstd.compress(data).value else data;
          e.Ok? <==> ValidStamp(stamp) && |payload| + 16 < 0x1_0000_0000
  {
    if lib.msgpack.pack(Codec.Tree(m)).Some? {
      var data := lib.msgpack.pack(Codec.Tree(m)).value;
      var r := MaybeCompress(lib.zstd, data, settings.compressionEnabled, settings.compressionThreshold);
      if r.Ok? {
        CompressesExactly(lib.zstd, data, settings.compressionEnabled, settings.compressionThreshold,
                          r.value.0, r.value.1);
        SealSucceedsExactly(lib.cipher, r.value.0, MessageType(m), r.value.1, stamp);
        assert Pow256(2) == 65536 && Pow256(4) == 256 * (256 * Pow256(2));
      }
    }
  }

  // ---- Round trip --------------------------------------------------------

  predicate BodyFits(settings: Settings, m: Message) {
    && (m.Request? ==> |m.request.body| <= settings.maxRequestBody)
    && (m.Response? ==> |m.response.body| <= settings.maxResponseBody)
  }

  /** The serialized message and the payload an encoding seals. */
  function PayloadOf(lib: Libraries, settings: Settings, m: Message): Result<(bytes, bool)> {
    var serialized :- Codec.Dumps(lib.msgpack, m);
    MaybeCompress(lib.zstd, serialized, settings.compressionEnabled, settings.compressionThreshold)
  }

  /** What opening an encoded packet gives the receiver. */
  function OpenedOf(lib: Libraries, settings: Settings, m: Message, stamp: Stamp): OpenedPacket
    requires PayloadOf(lib, settings, m).Ok?
  {
    var (payload, compressed) := PayloadOf(lib, settings, m).value;
    OpenedPacket(MessageType(m), compressed, stamp.timestampMs, stamp.nonceId, payload)
  }

  lemma EncodedOpens(lib: Libraries, sender: Settings, receiver: Settings, m: Message, stamp: Stamp)
    requires Lawful(lib) && EncodeMessage(lib, sender, m, stamp).Ok?
    ensures PayloadOf(lib, sender, m).Ok?
    ensures OpenPacket(lib.cipher, EncodeMessage(lib, sender, m, stamp).value, receiver.maxCiphertext) ==
      if |PayloadOf(lib, sender, m).value.0| + 16 > receiver.maxCiphertext then Err(ProtocolError)
      else Ok(OpenedOf(lib, sender, m, stamp))
  {
    var (payload, compressed) := PayloadOf(lib, sender, m).value;
    OpenUndoesSeal(lib.cipher, payload, MessageType(m), compressed, stamp, receiver.maxCiphertext);
  }

  /**
   * Unwrapping what an encoding sealed gives the message back exactly when it decompresses and its
   * body fits; an oversized body has its own error, and an error message never comes back.
   */
  lemma UnwrapUndoesPayload(lib: Libraries, sender: Settings, receiver: Settings, m: Message, stamp: Stamp)
    requires Lawful(lib) && ValidMessage(m) && PayloadOf(lib, sender, m).Ok?
    ensures var (payload, compressed) := PayloadOf(lib, sender, m).value;
      var fits := MaybeDecompress(lib.zstd, payload, compressed, receiver.maxDecompressed).Ok?;
      && (|Codec.Dumps(lib.msgpack, m).value| <= receiver.maxDecompressed ==> fits)
      && Unwrap(lib, receiver, OpenedOf(lib, sender, m, stamp)) ==
         if !fits then Err(CompressionError)
         else if m.Error? then Err(SerializationError)
         else if BodyFits(receiver, m) then Ok(m)
         else Err(if m.Request? then RequestTooLarge else ResponseTooLarge)
  {
    var serialized := Codec.Dumps(lib.msgpack, m).value;
    CompressionTransparent(lib.zstd, serialized, sender.compressionEnabled, sender.compressionThreshold,
                           receiver.maxDecompressed);
    Codec.LoadsUndoesDumps(lib.msgpack, m, Some(MessageType(m)));
  }

  /**
   * Decoding an encoded packet never gives another message: whatever the two ends' settings, it
   * fails or returns exactly the message encoded, which is then a request or a response.
   */
  lemma DecodeUndoesEncode(lib: Libraries, sender: Settings, receiver: Settings, m: Message, stamp: Stamp, seen: Seen,
                           nowMs: int)
    requires Lawful(lib) && ValidMessage(m) && EncodeMessage(lib, sender, m, stamp).Ok?
    ensures var r := Decode(lib, receiver, seen, EncodeMessage(lib, sender, m, stamp).value, nowMs).0;
      r.Ok? ==> r.value == m && !m.Error?
  {
    EncodedOpens(lib, sender, receiver, m, stamp);
    UnwrapUndoesPayload(lib, sender, receiver, m, stamp);
  }

  /**
   * The message does come back exactly when it is no error, its packet and its body are within the
   * limits, the replay check accepts it, and the payload decompresses.
   */
  lemma DecodesExactly(lib: Libraries, sender: Settings, receiver: Settings, m: Message, stamp: Stamp, seen: Seen,
                       nowMs: int)
    requires Lawful(lib) && ValidMessage(m) && EncodeMessage(lib, sender, m, stamp).Ok?
    ensures PayloadOf(lib, sender, m).Ok?
    ensures var (payload, compressed) := PayloadOf(lib, sender, m).value;
      Decode(lib, receiver, seen, EncodeMessage(lib, sender, m, stamp).value, nowMs).0 == Ok(m) <==>
        && !m.Error? && |payload| + 16 <= receiver.maxCiphertext && BodyFits(receiver, m)
        && Judge(receiver.replay, seen, Call(stamp.nonceId, stamp.timestampMs, nowMs)).0 == Accepted
        && MaybeDecompress(lib.zstd, payload, compressed, receiver.maxDecompressed).Ok?
  {
    EncodedOpens(lib, sender, receiver, m, stamp);
    UnwrapUndoesPayload(lib, sender, receiver, m, stamp);
  }

  /** In particular when the serialized message is within the decompression limit. */
  lemma DecodeDelivers(lib: Libraries, sender: Settings, receiver: Settings, m: Message, stamp: Stamp, seen: Seen,
                       nowMs: int)
    requires Lawful(lib) && ValidMessage(m) && !m.Error? && EncodeMessage(lib, sender, m, stamp).Ok?
    requires |PayloadOf(lib, sender, m).value.0| + 16 <= receiver.maxCiphertext
    requires |Codec.Dumps(lib.msgpack, m).value| <= receiver.maxDecompressed && BodyFits(receiver, m)
    requires Judge(receiver.replay, seen, Call(stamp.nonceId, stamp.timestampMs, nowMs)).0 == Accepted
    ensures Decode(lib, receiver, seen, EncodeMessage(lib, sender, m, stamp).value, nowMs).0 == Ok(m)
  {
    DecodesExactly(lib, sender, receiver, m, stamp, seen, nowMs);
    UnwrapUndoesPayload(lib, sender, receiver, m, stamp);
  }

  /** Whatever decodes is valid, of the type in the packet's header, within every limit, and accepted as new. */
  lemma DecodedConforms(lib: Libraries, settings: Settings, seen: Seen, packet: bytes, nowMs: int)
    requires Decode(lib, settings, seen, packet, nowMs).0.Ok?
    ensures var m := Decode(lib, settings, seen, packet, nowMs).0.value;
      && ValidMessage(m) && BodyFits(settings, m)
      && HEADER_SIZE < |packet| <= HEADER_SIZE + settings.maxCiphertext
      && packet[5] == MessageType(m)
      && Judge(settings.replay, seen, Call(packet[16..32], FromBigEndian(packet[8..16]), nowMs)).0 == Accepted
  {
    OpenedConforms(lib.cipher, packet, settings.maxCiphertext);
    UnwrappedConforms(lib, settings, OpenPacket(lib.cipher, packet, settings.maxCiphertext).value);
  }

  /** What decodes was serialized within the limit, if the decompressor honours the bound it is given. */
  lemma DecodedWithin(lib: Libraries, settings: Settings, seen: Seen, packet: bytes, nowMs: int)
    returns (serialized: bytes)
    requires HonoursBound(lib.zstd) && Decode(lib, settings, seen, packet, nowMs).0.Ok?
    ensures |serialized| <= settings.maxDecompressed
    ensures Codec.Loads(lib.msgpack, serialized, Some(packet[5])) == Decode(lib, settings, seen, packet, nowMs).0
  {
    OpenedConforms(lib.cipher, packet, settings.maxCiphertext);
    var o := OpenPacket(lib.cipher, packet, settings.maxCiphertext).value;
    DecompressedWithin(lib.zstd, o.plaintext, o.compressed, settings.maxDecompressed);
    serialized := MaybeDecompress(lib.zstd, o.plaintext, o.compressed, settings.maxDecompressed).value;
  }

  lemma UnwrappedConforms(lib: Libraries, settings: Settings, content: OpenedPacket)
    requires Unwrap(lib, settings, content).Ok? && content.typeId in {1, 2, 3}
    ensures var m := Unwrap(lib, settings, content).value;
      ValidMessage(m) && BodyFits(settings, m) && MessageType(m) == content.typeId
  {
  }

  /** As written, no packet carrying a relay error is ever decoded. */
  lemma ErrorsNeverDecode(lib: Libraries, sender: Settings, receiver: Settings, e: RelayError, stamp: Stamp,
                          seen: Seen, nowMs: int)
    requires Lawful(lib) && ValidError(e) && EncodeMessage(lib, sender, Error(e), stamp).Ok?
    ensures Decode(lib, receiver, seen, EncodeMessage(lib, sender, Error(e), stamp).value, nowMs).0.Err?
  {
    DecodeUndoesEncode(lib, sender, receiver, Error(e), stamp, seen, nowMs);
  }

  /** The replay check is all a cache adds: what it accepts decodes as it would without a cache. */
  lemma AcceptedDecodesAlike(lib: Libraries, settings: Settings, seen: Seen, packet: bytes, nowMs: int)
    requires var o := OpenPacket(lib.cipher, packet, settings.maxCiphertext);
      o.Ok? ==> Judge(settings.replay, seen, CallOf(o.value, nowMs)).0 == Accepted
    ensures Decode(lib, settings, seen, packet, nowMs).0 == DecodeUnchecked(lib, settings, packet)
  {
  }

  // ---- Effect on the replay table ----------------------------------------

  /**
   * A packet that does not open leaves the table alone. One that opens has its nonce stored exactly
   * when the replay check accepts it, even if a later check then refuses the message.
   */
  lemma DecodeTableEffect(lib: Libraries, settings: Settings, seen: Seen, packet: bytes, nowMs: int)
    ensures var (r, seen') := Decode(lib, settings, seen, packet, nowMs);
      match OpenPacket(lib.cipher, packet, settings.maxCiphertext)
      case Err(e) => r == Err(e) && seen' == seen
      case Ok(o) =>
        var kept := Purged(seen, nowMs - settings.replay.windowMs);
        var stored := Judge(settings.replay, seen, CallOf(o, nowMs)).0 == Accepted;
        && |o.nonceId| == NONCE_ID_SIZE
        && seen' == (if stored then kept[o.nonceId := o.timestampMs] else kept)
        && (stored ==> o.nonceId !in kept)
        && (!stored ==> r == Err(
            if o.timestampMs < nowMs - settings.replay.windowMs then PacketExpired
            else if o.timestampMs > nowMs + settings.replay.skewMs then PacketFromFuture
            else if o.nonceId in kept then ReplayDetected
            else ReplayCacheFull))
  {
  }

  // ---- The same packet offered again -------------------------------------

  /** One decoding attempt against a shared table: a packet and a clock reading. */
  datatype Attempt = Attempt(packet: bytes, nowMs: int)

  ghost function TableAfter(lib: Libraries, settings: Settings, attempts: seq<Attempt>): Seen {
    if attempts == [] then map[]
    else
      var last := attempts[|attempts| - 1];
      Decode(lib, settings, TableAfter(lib, settings, attempts[..|attempts| - 1]), last.packet, last.nowMs).1
  }

  /** The replay checks a run of attempts makes: one for every packet that opens. */
  ghost function CallsOf(lib: Libraries, settings: Settings, attempts: seq<Attempt>): seq<Call> {
    if attempts == [] then []
    else
      var last := attempts[|attempts| - 1];
      CallsOf(lib, settings, attempts[..|attempts| - 1]) +
      match OpenPacket(lib.cipher, last.packet, settings.maxCiphertext)
      case Err(_) => []
      case Ok(o) => [CallOf(o, last.nowMs)]
  }

  ghost predicate ReadingsAscend(attempts: seq<Attempt>) {
    forall i, j :: 0 <= i < j < |attempts| ==> attempts[i].nowMs <= attempts[j].nowMs
  }

  lemma {:induction false} TableIsReplayRun(lib: Libraries, settings: Settings, attempts: seq<Attempt>)
    ensures TableAfter(lib, settings, attempts) == SeenAfter(settings.replay, CallsOf(lib, settings, attempts))
  {
    if attempts != [] {
      var front, last := attempts[..|attempts| - 1], attempts[|attempts| - 1];
      TableIsReplayRun(lib, settings, front);
      var calls := CallsOf(lib, settings, front);
      var o := OpenPacket(lib.cipher, last.packet, settings.maxCiphertext);
      if o.Ok? {
        assert (calls + [CallOf(o.value, last.nowMs)])[..|calls|] == calls;
      } else {
        assert calls + [] == calls;
      }
    }
  }

  lemma {:induction false} CallsAscend(lib: Libraries, settings: Settings, attempts: seq<Attempt>)
    requires ReadingsAscend(attempts)
    ensures var calls := CallsOf(lib, settings, attempts);
      && Monotone(calls)
      && (forall c :: c in calls ==> attempts != [] && c.nowMs <= attempts[|attempts| - 1].nowMs)
  {
    if attempts != [] {
      CallsAscend(lib, settings, attempts[..|attempts| - 1]);
    }
  }

  lemma {:induction false} CallsOfPrefix(lib: Libraries, settings: Settings, attempts: seq<Attempt>, i: nat)
    requires i <= |attempts|
    ensures CallsOf(lib, settings, attempts[..i]) <= CallsOf(lib, settings, attempts)
  {
    if i == |attempts| {
      assert attempts[..i] == attempts;
    } else {
      var front := attempts[..|attempts| - 1];
      assert front[..i] == attempts[..i];
      CallsOfPrefix(lib, settings, front, i);
    }
  }

  /** Attempt `i` is answered by the call at the end of those before it. */
  lemma CallOfAttempt(lib: Libraries, settings: Settings, attempts: seq<Attempt>, i: nat)
    requires i < |attempts|
    requires OpenPacket(lib.cipher, attempts[i].packet, settings.maxCiphertext).Ok?
    ensures var calls := CallsOf(lib, settings, attempts);
      var k := |CallsOf(lib, settings, attempts[..i])|;
      var o := OpenPacket(lib.cipher, attempts[i].packet, settings.maxCiphertext).value;
      && k < |calls| && calls[k] == CallOf(o, attempts[i].nowMs)
      && VerdictAt(settings.replay, calls, k) ==
         Judge(settings.replay, TableAfter(lib, settings, attempts[..i]), CallOf(o, attempts[i].nowMs)).0
  {
    CallsOfPrefix(lib, settings, attempts, i);
    CallsOfPrefix(lib, settings, attempts, i + 1);
    assert attempts[..i + 1][..i] == attempts[..i];
    var calls, before := CallsOf(lib, settings, attempts), CallsOf(lib, settings, attempts[..i]);
    assert calls[..|before|] == before;
    TableIsReplayRun(lib, settings, attempts[..i]);
  }

  lemma RefusedByReplay(lib: Libraries, settings: Settings, seen: Seen, packet: bytes, nowMs: int, verdict: Verdict)
    requires OpenPacket(lib.cipher, packet, settings.maxCiphertext).Ok? && verdict != Accepted
    requires var o := OpenPacket(lib.cipher, packet, settings.maxCiphertext).value;
      Judge(settings.replay, seen, CallOf(o, nowMs)).0 == verdict
    ensures Decode(lib, settings, seen, packet, nowMs).0 == Err(ErrorOf(verdict))
  {
  }

  /**
   * With a clock that never goes back, a packet whose nonce was stored is refused at every later
   * attempt, as expired or as a replay, even if its first decoding failed after the replay check.
   */
  lemma StoredPacketRefused(lib: Libraries, settings: Settings, attempts: seq<Attempt>, i: nat, j: nat)
    requires ReadingsAscend(attempts) && i < j < |attempts| && attempts[i].packet == attempts[j].packet
    requires OpenPacket(lib.cipher, attempts[i].packet, settings.maxCiphertext).Ok?
    requires var o := OpenPacket(lib.cipher, attempts[i].packet, settings.maxCiphertext).value;
      Judge(settings.replay, TableAfter(lib, settings, attempts[..i]), CallOf(o, attempts[i].nowMs)).0 == Accepted
    ensures var o := OpenPacket(lib.cipher, attempts[j].packet, settings.maxCiphertext).value;
      Decode(lib, settings, TableAfter(lib, settings, attempts[..j]), attempts[j].packet, attempts[j].nowMs).0 ==
      Err(if o.timestampMs < attempts[j].nowMs - settings.replay.windowMs then PacketExpired else ReplayDetected)
  {
    var calls := CallsOf(lib, settings, attempts);
    CallsAscend(lib, settings, attempts);
    CallOfAttempt(lib, settings, attempts, i);
    CallOfAttempt(lib, settings, attempts, j);
    CallsGrow(lib, settings, attempts, i, j);
    var l := |CallsOf(lib, settings, attempts[..j])|;
    ResubmissionRefused(settings.replay, calls, |CallsOf(lib, settings, attempts[..i])|, l);
    RefusedByReplay(lib, settings, TableAfter(lib, settings, attempts[..j]), attempts[j].packet, attempts[j].nowMs,
                    VerdictAt(settings.replay, calls, l));
  }

  lemma CallsGrow(lib: Libraries, settings: Settings, attempts: seq<Attempt>, i: nat, j: nat)
    requires i < j < |attempts| && OpenPacket(lib.cipher, attempts[i].packet, settings.maxCiphertext).Ok?
    ensures |CallsOf(lib, settings, attempts[..i])| < |CallsOf(lib, settings, attempts[..j])|
  {
    assert attempts[..j][..i + 1] == attempts[..i + 1] && attempts[..i + 1][..i] == attempts[..i];
    CallsOfPrefix(lib, settings, attempts[..j], i + 1);
  }
}
