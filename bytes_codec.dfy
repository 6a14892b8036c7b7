/** The `Bytes` and `FixedSizeBytes<N>` codecs of heed-types. Their encoders
    cannot fail (the Rust error type is `Infallible`); the model returns a
    `Result` and states that it is always `Ok`. */
module BytesCodec {
  import opened Wrappers
  import opened HeedTraits

  /** `Bytes::to_bytes`: the slice itself. */
  function BytesToBytes(item: seq<byte>): (r: Result<seq<byte>, BoxedError>)
    ensures r.Ok? && r.value == item
  {
    Ok(item)
  }

  /** `Bytes::bytes_decode`: every byte slice is a valid `Bytes` item. */
  function BytesDecode(bytes: seq<byte>): (r: Result<seq<byte>, BoxedError>)
    ensures r.Ok? && r.value == bytes
  {
    Ok(bytes)
  }

  /** Decoding what `Bytes` encoded gives back the item. */
  lemma BytesRoundTrip(item: seq<byte>)
    ensures BytesToBytes(item).Ok?
    ensures BytesDecode(BytesToBytes(item).value) == Ok(item)
  {
  }

  /** `[u8; N]`: a byte array of the const length `n`. */
  ghost predicate IsArray(n: nat, item: seq<byte>) {
    |item| == n
  }

  /** `FixedSizeBytes<N>::to_bytes`: a copy of the array. */
  function FixedToBytes(n: nat, item: seq<byte>): (r: Result<seq<byte>, BoxedError>)
    requires IsArray(n, item)
    ensures r.Ok? && |r.value| == n && r.value == item
  {
    Ok(item)
  }

  /** `FixedSizeBytes<N>::bytes_decode`: `<[u8; N]>::try_from(bytes)`, which
      fails with `TryFromSliceError` unless the slice has exactly `n` bytes. */
  function FixedBytesDecode(n: nat, bytes: seq<byte>): (r: Result<seq<byte>, BoxedError>)
    ensures r.Ok? <==> |bytes| == n
    ensures r.Ok? ==> IsArray(n, r.value) && r.value == bytes
    ensures r.Err? ==> r.error == Leaf(TryFromSlice)
  {
    if |bytes| == n then Ok(bytes) else Err(Leaf(TryFromSlice))
  }

  /** Decoding what `FixedSizeBytes<N>` encoded gives back the array. */
  lemma FixedRoundTrip(n: nat, item: seq<byte>)
    requires IsArray(n, item)
    ensures FixedToBytes(n, item).Ok?
    ensures FixedBytesDecode(n, FixedToBytes(n, item).value) == Ok(item)
  {
  }

  /** `FixedSizeBytes<N>` decodes exactly the encodings of `n`-byte arrays:
      whatever it accepts re-encodes to the same bytes. */
  lemma FixedDecodeAcceptsOnlyEncodings(n: nat, bytes: seq<byte>)
    ensures FixedBytesDecode(n, bytes).Ok? <==>
              exists item :: IsArray(n, item) && FixedToBytes(n, item) == Ok(bytes)
    ensures FixedBytesDecode(n, bytes).Ok? ==>
              FixedToBytes(n, FixedBytesDecode(n, bytes).value) == Ok(bytes)
  {
    if |bytes| == n {
      assert IsArray(n, bytes) && FixedToBytes(n, bytes) == Ok(bytes);
    }
  }
}
