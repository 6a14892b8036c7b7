/** The `Str` codec of heed-types: a `str` is stored as its UTF-8 bytes and
    decoding is `std::str::from_utf8`. */
module StrCodec {
  import opened Wrappers
  import opened HeedTraits
  import opened Utf8

  /** `Str::to_bytes`: `str::as_bytes`, which cannot fail and is always well
      formed UTF-8. */
  function StrToBytes(item: string): (r: Result<seq<byte>, BoxedError>)
    ensures r.Ok? && r.value == EncodeStr(item)
    ensures WellFormed(r.value)
    ensures |item| <= |r.value| <= 4 * |item|
  {
    EncodeStrWellFormed(item);
    Ok(EncodeStr(item))
  }

  /** `Str::bytes_decode`: `from_utf8(bytes)`, its `Utf8Error` boxed. */
  function StrBytesDecode(bytes: seq<byte>): (r: Result<string, BoxedError>)
    ensures r.Ok? <==> WellFormed(bytes)
    ensures r.Ok? ==> EncodeStr(r.value) == bytes
    ensures r.Err? ==> r.error.kind.Utf8? && r.error.Source() == None
    ensures r.Err? ==> r.error.kind.validUpTo < |bytes|
                       && WellFormed(bytes[..r.error.kind.validUpTo])
                       && !StartsWithChar(bytes[r.error.kind.validUpTo..])
    ensures r.Err? ==> IsErrorLen(bytes[r.error.kind.validUpTo..], r.error.kind.errorLen)
  {
    DecodeOkIffWellFormed(bytes);
    if Decode(bytes).Ok? then
      DecodeKeepsBytes(bytes);
      Ok(Decode(bytes).value)
    else
      DecodeErrorPosition(bytes);
      var e := Decode(bytes).error;
      ErrorLenIsGrammar(bytes[e.validUpTo..]);
      Err(Leaf(Utf8(e.validUpTo, e.errorLen)))
  }

  /** Decoding the bytes of a string gives the string back. */
  lemma StrRoundTrip(item: string)
    ensures StrToBytes(item).Ok?
    ensures StrBytesDecode(StrToBytes(item).value) == Ok(item)
  {
    DecodeEncodeStr(item);
    DecodeOkIffWellFormed(EncodeStr(item));
  }

  /** Input that does not start with a `UTF8-char` is rejected at offset 0,
      with the `error_len` of the whole input. */
  lemma StrRejectsBadStart(bytes: seq<byte>)
    requires |bytes| > 0 && !StartsWithChar(bytes)
    ensures StrBytesDecode(bytes) == Err(Leaf(Utf8(0, ErrorLen(bytes))))
  {
    CharLenIsGrammar(bytes);
  }

  /** The classic ill-formed inputs, each with the `Utf8Error` that
      `from_utf8` reports: a lone continuation byte, overlong encodings of
      U+0000 and U+002F, an encoded surrogate U+D800, a value above U+10FFFF
      and a byte that never occurs in UTF-8 are each a bad sequence of one
      byte at offset 0; a continuation broken at its third byte is a bad
      sequence of two; input cut short inside a character has no
      `error_len`. */
  lemma StrRejectsIllFormed()
    ensures StrBytesDecode([0x80]) == Err(Leaf(Utf8(0, Some(1))))
    ensures StrBytesDecode([0xC0, 0x80]) == Err(Leaf(Utf8(0, Some(1))))
    ensures StrBytesDecode([0xE0, 0x80, 0xAF]) == Err(Leaf(Utf8(0, Some(1))))
    ensures StrBytesDecode([0xED, 0xA0, 0x80]) == Err(Leaf(Utf8(0, Some(1))))
    ensures StrBytesDecode([0xF4, 0x90, 0x80, 0x80]) == Err(Leaf(Utf8(0, Some(1))))
    ensures StrBytesDecode([0xFF]) == Err(Leaf(Utf8(0, Some(1))))
    ensures StrBytesDecode([0xE2, 0x82, 0x41]) == Err(Leaf(Utf8(0, Some(2))))
    ensures StrBytesDecode([0xE2, 0x82]) == Err(Leaf(Utf8(0, None)))
    ensures StrBytesDecode([0x61, 0xE2, 0x82]) == Err(Leaf(Utf8(1, None)))
  {
    var b: seq<byte> := [0x61, 0xE2, 0x82];
    assert CharLen(b) == 1 && b[1..] == [0xE2, 0x82];
    assert CharLen(b[1..]) == 0;
  }

  /** Valid multi-byte text is accepted: U+20AC EURO SIGN is E2 82 AC. */
  lemma StrAcceptsEuroSign()
    ensures StrBytesDecode([0xE2, 0x82, 0xAC]) == Ok(['\U{20AC}'])
  {
    var b: seq<byte> := [0xE2, 0x82, 0xAC];
    assert CharLen(b) == 3 && b[3..] == [] && b[..3] == b;
    assert ScalarOf(b) == 0x20AC;
    assert Decode(b[3..]) == Ok([]);
    assert Decode(b) == Ok([CharOf(b[..3])] + []);
    assert CharOf(b) == '\U{20AC}';
    assert StrBytesDecode(b) == Ok(Decode(b).value);
    assert Decode(b).value == ['\U{20AC}'];
  }
}
