/** Sealing and opening of v1 packets: 44 bytes of associated data, a length, a ciphertext. */
module Aead {
  import opened Wrappers
  import opened Bytes
  import opened Constants

  const MAGIC: bytes := [0x52, 0x4C, 0x58, 0x31] // "RLX1"
  const FLAG_COMPRESSED := 1
  const RESERVED := 0
  const AEAD_NONCE_SIZE := 12
  const AAD_SIZE := 44
  const HEADER_SIZE := 48

  /** An AEAD under one fixed key; arguments are nonce, text and associated data. */
  datatype Cipher = Cipher(
    encrypt: (bytes, bytes, bytes) -> bytes,
    decrypt: (bytes, bytes, bytes) -> Option<bytes>)

  /** Decryption undoes encryption. */
  ghost predicate Decrypts(c: Cipher) {
    forall nonce, text, aad :: c.decrypt(nonce, c.encrypt(nonce, text, aad), aad) == Some(text)
  }

  /** Encryption undoes decryption: only ciphertexts of this key are accepted. */
  ghost predicate Reencrypts(c: Cipher) {
    forall nonce, ct, aad, text :: c.decrypt(nonce, ct, aad) == Some(text) ==> c.encrypt(nonce, text, aad) == ct
  }

  /** A ciphertext is the text's length plus a 16-byte tag. */
  ghost predicate AddsTag(c: Cipher) {
    forall nonce, text, aad :: |c.encrypt(nonce, text, aad)| == |text| + 16
  }

  /** What the sender supplies besides the text: a clock reading and random bytes. */
  datatype Stamp = Stamp(timestampMs: int, nonceId: bytes, aeadNonce: bytes)

  datatype OpenedPacket = OpenedPacket(
    typeId: int, compressed: bool, timestampMs: int, nonceId: bytes, plaintext: bytes)

  predicate ValidStamp(stamp: Stamp) {
    && 0 <= stamp.timestampMs < Pow256(8)
    && |stamp.nonceId| == NONCE_ID_SIZE && |stamp.aeadNonce| == AEAD_NONCE_SIZE
  }

  function Aad(typeId: int, flags: int, stamp: Stamp): (r: Result<bytes>)
    ensures r.Ok? ==> |r.value| == AAD_SIZE
  {
    if |stamp.nonceId| != NONCE_ID_SIZE || |stamp.aeadNonce| != AEAD_NONCE_SIZE then Err(ProtocolError)
    else if !(0 <= typeId < 256 && 0 <= flags < 256 && 0 <= stamp.timestampMs < Pow256(8)) then Err(PythonError)
    else
      Ok(MAGIC + [VERSION, typeId, flags, RESERVED] + BigEndian(stamp.timestampMs, 8)
         + stamp.nonceId + stamp.aeadNonce)
  }

  function Seal(c: Cipher, plaintext: bytes, typeId: int, compressed: bool, stamp: Stamp): Result<bytes> {
    var flags := if compressed then FLAG_COMPRESSED else 0;
    var aad :- Aad(typeId, flags, stamp);
    var ciphertext := c.encrypt(stamp.aeadNonce, plaintext, aad);
    if |ciphertext| >= Pow256(4) then Err(PythonError)
    else Ok(aad + BigEndian(|ciphertext|, 4) + ciphertext)
  }

  function OpenPacket(c: Cipher, packet: bytes, maxCiphertextBytes: int): Result<OpenedPacket> {
    if |packet| < HEADER_SIZE then Err(ProtocolError)
    else
      var aad := packet[..AAD_SIZE];
      var magic, version, typeId, flags, reserved := aad[..4], aad[4], aad[5], aad[6], aad[7];
      var timestampMs, nonceId, aeadNonce := FromBigEndian(aad[8..16]), aad[16..32], aad[32..44];
      if magic != MAGIC || version != VERSION || typeId !in {1, 2, 3} || flags >= 2 || reserved != RESERVED then
        Err(ProtocolError)
      else
        var ciphertextLen := FromBigEndian(packet[AAD_SIZE..HEADER_SIZE]);
        if ciphertextLen == 0 || ciphertextLen > maxCiphertextBytes then Err(ProtocolError)
        else
          var ciphertext := packet[HEADER_SIZE..];
          if |ciphertext| != ciphertextLen then Err(ProtocolError)
          else
            match c.decrypt(aeadNonce, ciphertext, aad)
            case None => Err(CryptoError)
            case Some(plaintext) =>
              Ok(OpenedPacket(typeId, flags % 2 == 1, timestampMs, nonceId, plaintext))
  }

  function AeadNonceOf(packet: bytes): bytes
    requires |packet| >= HEADER_SIZE
  {
    packet[32..44]
  }

  // ---- Layout ------------------------------------------------------------

  lemma AadFields(typeId: int, flags: int, stamp: Stamp)
    requires Aad(typeId, flags, stamp).Ok?
    ensures var aad := Aad(typeId, flags, stamp).value;
      && aad[..4] == MAGIC && aad[4] == VERSION && aad[5] == typeId && aad[6] == flags && aad[7] == RESERVED
      && FromBigEndian(aad[8..16]) == stamp.timestampMs
      && aad[16..32] == stamp.nonceId && aad[32..44] == stamp.aeadNonce
  {
    var aad := Aad(typeId, flags, stamp).value;
    assert aad[8..16] == BigEndian(stamp.timestampMs, 8);
    BigEndianRoundTrip(stamp.timestampMs, 8);
  }

  lemma AadRebuilt(aad: bytes)
    requires |aad| == AAD_SIZE && aad[..4] == MAGIC && aad[4] == VERSION && aad[7] == RESERVED
    ensures Aad(aad[5], aad[6], Stamp(FromBigEndian(aad[8..16]), aad[16..32], aad[32..44])) == Ok(aad)
  {
    FromBigEndianRoundTrip(aad[8..16]);
    assert aad == aad[..4] + [aad[4], aad[5], aad[6], aad[7]] + aad[8..16] + aad[16..32] + aad[32..44];
  }

  /** Opening a sealed packet gives back every field and the text. */
  lemma OpenUndoesSeal(c: Cipher, plaintext: bytes, typeId: int, compressed: bool, stamp: Stamp,
                       maxCiphertextBytes: int)
    requires Decrypts(c) && AddsTag(c) && typeId in {1, 2, 3}
    requires Seal(c, plaintext, typeId, compressed, stamp).Ok?
    ensures OpenPacket(c, Seal(c, plaintext, typeId, compressed, stamp).value, maxCiphertextBytes) ==
      if |plaintext| + 16 > maxCiphertextBytes then Err(ProtocolError)
      else Ok(OpenedPacket(typeId, compressed, stamp.timestampMs, stamp.nonceId, plaintext))
  {
    var flags := if compressed then FLAG_COMPRESSED else 0;
    var aad := Aad(typeId, flags, stamp).value;
    var ciphertext := c.encrypt(stamp.aeadNonce, plaintext, aad);
    var packet := Seal(c, plaintext, typeId, compressed, stamp).value;
    AadFields(typeId, flags, stamp);
    assert packet[..AAD_SIZE] == aad;
    assert packet[AAD_SIZE..HEADER_SIZE] == BigEndian(|ciphertext|, 4);
    assert packet[HEADER_SIZE..] == ciphertext;
    BigEndianRoundTrip(|ciphertext|, 4);
  }

  /** The header of a sealed packet shows its type, flag, timestamp and nonce. */
  lemma SealedHeader(c: Cipher, plaintext: bytes, typeId: int, compressed: bool, stamp: Stamp)
    requires Seal(c, plaintext, typeId, compressed, stamp).Ok?
    ensures var p := Seal(c, plaintext, typeId, compressed, stamp).value;
      && |p| >= HEADER_SIZE && p[..4] == MAGIC && p[4] == VERSION && p[7] == RESERVED
      && p[5] == typeId && p[6] == (if compressed then FLAG_COMPRESSED else 0)
      && p[16..32] == stamp.nonceId && FromBigEndian(p[8..16]) == stamp.timestampMs
  {
    var flags := if compressed then FLAG_COMPRESSED else 0;
    var aad := Aad(typeId, flags, stamp).value;
    var p := Seal(c, plaintext, typeId, compressed, stamp).value;
    AadFields(typeId, flags, stamp);
    assert p[..AAD_SIZE] == aad;
    assert p[..4] == aad[..4] && p[8..16] == aad[8..16] && p[16..32] == aad[16..32];
  }

  /** The header of a version 1 packet, and a length field that tells the packet's own, within the limit. */
  predicate IsPacket(packet: bytes, maxCiphertextBytes: int) {
    && |packet| > 48
    && packet[..4] == [0x52, 0x4C, 0x58, 0x31] && packet[4] == 1 && packet[7] == 0
    && (packet[5] == 1 || packet[5] == 2 || packet[5] == 3) && (packet[6] == 0 || packet[6] == 1)
    && FromBigEndian(packet[44..48]) == |packet| - 48 <= maxCiphertextBytes
  }

  /** A packet opens exactly when its header is in order and its ciphertext authenticates under that header. */
  lemma OpensExactly(c: Cipher, packet: bytes, maxCiphertextBytes: int, o: OpenedPacket)
    ensures OpenPacket(c, packet, maxCiphertextBytes) == Ok(o) <==>
      && IsPacket(packet, maxCiphertextBytes)
      && c.decrypt(packet[32..44], packet[48..], packet[..44]) == Some(o.plaintext)
      && o == OpenedPacket(packet[5], packet[6] == 1, FromBigEndian(packet[8..16]), packet[16..32], o.plaintext)
    ensures OpenPacket(c, packet, maxCiphertextBytes) == Err(CryptoError) <==>
      IsPacket(packet, maxCiphertextBytes) && c.decrypt(packet[32..44], packet[48..], packet[..44]) == None
    ensures OpenPacket(c, packet, maxCiphertextBytes) == Err(ProtocolError) <==>
      !IsPacket(packet, maxCiphertextBytes)
  {
    if |packet| >= 48 {
      var aad := packet[..44];
      assert aad[..4] == packet[..4] && aad[8..16] == packet[8..16];
      assert aad[16..32] == packet[16..32] && aad[32..44] == packet[32..44];
    }
  }

  /** An opened packet's fields are read off its header, and its size is within the limit. */
  lemma OpenedConforms(c: Cipher, packet: bytes, maxCiphertextBytes: int)
    requires OpenPacket(c, packet, maxCiphertextBytes).Ok?
    ensures HEADER_SIZE < |packet| <= HEADER_SIZE + maxCiphertextBytes
    ensures var o := OpenPacket(c, packet, maxCiphertextBytes).value;
      && o.typeId == packet[5] && o.typeId in {1, 2, 3} && |o.nonceId| == NONCE_ID_SIZE
      && o.nonceId == packet[16..32] && o.timestampMs == FromBigEndian(packet[8..16])
  {
    var aad := packet[..AAD_SIZE];
    assert aad[16..32] == packet[16..32] && aad[8..16] == packet[8..16] && aad[5] == packet[5];
  }

  /** Every valid stamp and every text whose ciphertext length fits 32 bits seals. */
  lemma SealSucceedsExactly(c: Cipher, plaintext: bytes, typeId: int, compressed: bool, stamp: Stamp)
    requires AddsTag(c) && typeId in {1, 2, 3}
    ensures Seal(c, plaintext, typeId, compressed, stamp).Ok? <==>
      ValidStamp(stamp) && |plaintext| + 16 < Pow256(4)
  {
  }

  /** Every accepted packet is, byte for byte, the sealing of its own fields. */
  lemma SealUndoesOpen(c: Cipher, packet: bytes, maxCiphertextBytes: int)
    requires Reencrypts(c) && OpenPacket(c, packet, maxCiphertextBytes).Ok?
    ensures var o := OpenPacket(c, packet, maxCiphertextBytes).value;
      Seal(c, o.plaintext, o.typeId, o.compressed, Stamp(o.timestampMs, o.nonceId, AeadNonceOf(packet))) == Ok(packet)
  {
    var aad := packet[..AAD_SIZE];
    AadRebuilt(aad);
    assert aad[32..44] == AeadNonceOf(packet);
    FromBigEndianRoundTrip(packet[AAD_SIZE..HEADER_SIZE]);
    assert packet == aad + packet[AAD_SIZE..HEADER_SIZE] + packet[HEADER_SIZE..];
  }

  /** With no assumption on the cipher, no accepted packet is a proper prefix of another. */
  lemma AcceptedPrefixFree(c: Cipher, p: bytes, q: bytes, maxP: int, maxQ: int)
    requires OpenPacket(c, p, maxP).Ok? && OpenPacket(c, q, maxQ).Ok? && p <= q
    ensures p == q
  {
    assert p[AAD_SIZE..HEADER_SIZE] == q[AAD_SIZE..HEADER_SIZE];
  }

  // ---- Authenticity ------------------------------------------------------

  /** The packet's ciphertext and associated data are those of some packet in the log of seals. */
  ghost predicate InSealLog(log: set<bytes>, packet: bytes) {
    exists p :: p in log && SameSealedParts(p, packet)
  }

  ghost predicate SameSealedParts(p: bytes, q: bytes) {
    |p| >= HEADER_SIZE && |q| >= HEADER_SIZE && p[..AAD_SIZE] == q[..AAD_SIZE] && p[HEADER_SIZE..] == q[HEADER_SIZE..]
  }

  /** The ideal AEAD: what decrypts under this packet's header was sealed by a key holder. */
  ghost predicate Unforged(c: Cipher, log: set<bytes>, packet: bytes) {
    |packet| >= HEADER_SIZE && c.decrypt(AeadNonceOf(packet), packet[HEADER_SIZE..], packet[..AAD_SIZE]).Some? ==>
      InSealLog(log, packet)
  }

  ghost predicate SealedPacket(c: Cipher, packet: bytes) {
    exists plaintext, typeId, compressed, stamp :: Seal(c, plaintext, typeId, compressed, stamp) == Ok(packet)
  }

  lemma SealedLength(c: Cipher, packet: bytes)
    requires SealedPacket(c, packet)
    ensures |packet| >= HEADER_SIZE && FromBigEndian(packet[AAD_SIZE..HEADER_SIZE]) == |packet| - HEADER_SIZE
  {
    var plaintext, typeId, compressed, stamp :| Seal(c, plaintext, typeId, compressed, stamp) == Ok(packet);
    var aad := Aad(typeId, if compressed then FLAG_COMPRESSED else 0, stamp).value;
    var ciphertext := c.encrypt(stamp.aeadNonce, plaintext, aad);
    assert packet[AAD_SIZE..HEADER_SIZE] == BigEndian(|ciphertext|, 4);
    BigEndianRoundTrip(|ciphertext|, 4);
  }

  /** A length field that tells the length adds nothing to the sealed parts. */
  lemma PartsDetermine(p: bytes, q: bytes)
    requires SameSealedParts(p, q)
    requires FromBigEndian(p[AAD_SIZE..HEADER_SIZE]) == |p| - HEADER_SIZE
    requires FromBigEndian(q[AAD_SIZE..HEADER_SIZE]) == |q| - HEADER_SIZE
    ensures p == q
  {
    var lenP, lenQ := p[AAD_SIZE..HEADER_SIZE], q[AAD_SIZE..HEADER_SIZE];
    assert |p| == |p[HEADER_SIZE..]| + HEADER_SIZE && |q| == |q[HEADER_SIZE..]| + HEADER_SIZE;
    FromBigEndianRoundTrip(lenP);
    FromBigEndianRoundTrip(lenQ);
    assert p == p[..AAD_SIZE] + lenP + p[HEADER_SIZE..];
    assert q == q[..AAD_SIZE] + lenQ + q[HEADER_SIZE..];
  }

  /**
   * Under an ideal AEAD an accepted packet is byte for byte one that was sealed, although its
   * length field is outside the associated data.
   */
  lemma AcceptedWasSealed(c: Cipher, log: set<bytes>, packet: bytes, maxCiphertextBytes: int)
    requires forall p :: p in log ==> SealedPacket(c, p)
    requires Unforged(c, log, packet) && OpenPacket(c, packet, maxCiphertextBytes).Ok?
    ensures packet in log
  {
    assert packet[..AAD_SIZE][32..44] == AeadNonceOf(packet);
    var p :| p in log && SameSealedParts(p, packet);
    SealedLength(c, p);
    PartsDetermine(p, packet);
  }

  // ---- The laws can be met -----------------------------------------------

  const TOY_TAG: bytes := seq(16, _ => 0)

  /** A cipher that only appends a fixed tag. */
  function ToyCipher(): Cipher {
    Cipher(
      (nonce, text, aad) => text + TOY_TAG,
      (nonce, ct, aad) =>
        if |ct| >= 16 && ct[|ct| - 16..] == TOY_TAG then Some(ct[..|ct| - 16]) else None)
  }

  lemma ToyCipherLaws()
    ensures Decrypts(ToyCipher()) && Reencrypts(ToyCipher()) && AddsTag(ToyCipher())
  {
    var c := ToyCipher();
    forall nonce, text, aad
      ensures c.decrypt(nonce, c.encrypt(nonce, text, aad), aad) == Some(text)
    {
      var ct: bytes := text + TOY_TAG;
      assert ct[|ct| - 16..] == TOY_TAG && ct[..|ct| - 16] == text;
    }
    forall nonce, ct, aad, text | c.decrypt(nonce, ct, aad) == Some(text)
      ensures c.encrypt(nonce, text, aad) == ct
    {
      assert ct == ct[..|ct| - 16] + ct[|ct| - 16..];
    }
  }
}
