/** Threshold-based compression; the compressor itself is a parameter. */
module Compression {
  import opened Wrappers
  import opened Bytes

  /** `decompress` is given the output bound the caller passes to the library. */
  datatype Zstd = Zstd(compress: bytes -> Option<bytes>, decompress: (bytes, int) -> Option<bytes>)

  /** Decompressing what was compressed gives nothing else, and succeeds when the bound allows it. */
  ghost predicate Decompresses(z: Zstd) {
    && (forall d, max :: z.compress(d).Some? ==>
      var r := z.decompress(z.compress(d).value, max);
      (r.Some? ==> r.value == d) && (|d| <= max ==> r.Some?))
  }

  function MaybeCompress(z: Zstd, data: bytes, enabled: bool, threshold: int): Result<(bytes, bool)> {
    if !enabled || |data| < threshold then Ok((data, false))
    else
      match z.compress(data)
      case None => Err(CompressionError)
      case Some(c) => Ok((c, true))
  }

  function MaybeDecompress(z: Zstd, data: bytes, compressed: bool, maxSize: int): Result<bytes> {
    if !compressed then
      if |data| > maxSize then Err(CompressionError) else Ok(data)
    else
      match z.decompress(data, maxSize)
      case None => Err(CompressionError)
      case Some(d) => Ok(d)
  }

  /** Data is compressed exactly when that is enabled and it reaches the threshold; otherwise it is left alone. */
  lemma CompressesExactly(z: Zstd, data: bytes, enabled: bool, threshold: int, payload: bytes, compressed: bool)
    ensures MaybeCompress(z, data, enabled, threshold) == Ok((payload, compressed)) <==>
      && (compressed <==> enabled && |data| >= threshold)
      && (if compressed then z.compress(data) == Some(payload) else payload == data)
    ensures MaybeCompress(z, data, enabled, threshold).Err? <==>
      enabled && |data| >= threshold && z.compress(data).None?
    ensures MaybeCompress(z, data, enabled, threshold).Err? ==>
      MaybeCompress(z, data, enabled, threshold) == Err(CompressionError)
  {
  }

  /** A decompressor that never gives more than the bound it was handed. */
  ghost predicate HonoursBound(z: Zstd) {
    forall d, max :: z.decompress(d, max).Some? ==> |z.decompress(d, max).value| <= max
  }

  /** The bound handed to the decompressor is the caller's, as is the one on data that came uncompressed. */
  lemma DecompressedWithin(z: Zstd, data: bytes, compressed: bool, maxSize: int)
    requires HonoursBound(z) && MaybeDecompress(z, data, compressed, maxSize).Ok?
    ensures |MaybeDecompress(z, data, compressed, maxSize).value| <= maxSize
  {
  }

  /** Whatever the threshold chose, the receiver gets the same data back or an error. */
  lemma CompressionTransparent(z: Zstd, data: bytes, enabled: bool, threshold: int, maxSize: int)
    requires Decompresses(z) && MaybeCompress(z, data, enabled, threshold).Ok?
    ensures var (payload, compressed) := MaybeCompress(z, data, enabled, threshold).value;
      var r := MaybeDecompress(z, payload, compressed, maxSize);
      && (r.Ok? ==> r.value == data)
      && (|data| <= maxSize ==> r.Ok?)
      && (!compressed && |data| > maxSize ==> r == Err(CompressionError))
  {
    if enabled && |data| >= threshold {
      var c := z.compress(data).value;
      assert z.decompress(c, maxSize).Some? ==> z.decompress(c, maxSize).value == data;
    }
  }

  /** Storing, and giving back what is within the bound. */
  function Storing(): Zstd {
    Zstd(d => Some(d), (d, max) => if |d| <= max then Some(d) else None)
  }

  /** Storing meets both laws. */
  lemma StoringDecompresses()
    ensures Decompresses(Storing()) && HonoursBound(Storing())
  {
  }
}
