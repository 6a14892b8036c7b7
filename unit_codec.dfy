/** The `Unit` codec of heed-types: `()` is stored as the empty byte string. */
module UnitCodec {
  import opened Wrappers
  import opened HeedTraits

  /** `Unit::to_bytes`: `()` encodes to no bytes and cannot fail. */
  function UnitToBytes(item: ()): (r: Result<seq<byte>, BoxedError>)
    ensures r.Ok? && |r.value| == 0
  {
    Ok([])
  }

  /** `Unit::bytes_decode`: only the empty slice is a unit; anything else is
      a `NonEmptyError`. */
  function UnitBytesDecode(bytes: seq<byte>): (r: Result<(), BoxedError>)
    ensures r.Ok? <==> |bytes| == 0
    ensures r.Err? ==> r.error == Leaf(NonEmpty)
  {
    if |bytes| == 0 then Ok(()) else Err(Leaf(NonEmpty))
  }

  /** Decoding the encoding of `()` gives `()` back. */
  lemma UnitRoundTrip()
    ensures UnitToBytes(()).Ok?
    ensures UnitBytesDecode(UnitToBytes(()).value) == Ok(())
  {
  }

  /** The decoder accepts exactly the image of the encoder, the one empty
      byte string, and rejects every other input with `NonEmptyError`. */
  lemma UnitDecodeAcceptsOnlyEncoding(bytes: seq<byte>)
    ensures UnitBytesDecode(bytes).Ok? <==> Ok(bytes) == UnitToBytes(())
    ensures bytes != UnitToBytes(()).value ==> UnitBytesDecode(bytes) == Err(Leaf(NonEmpty))
  {
  }
}
