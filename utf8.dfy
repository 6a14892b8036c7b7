/** UTF-8 as section 4 of RFC 3629 defines it: the syntax of well-formed
    octet sequences, the encoding of a Unicode scalar value, and a decoder
    with the behaviour of Rust's `std::str::from_utf8`. A Dafny `char` is a
    Unicode scalar value, which is what a Rust `char` is. */
module Utf8 {
  import opened Wrappers
  import opened HeedTraits

  /** `UTF8-tail = %x80-BF`. */
  predicate IsTail(b: byte) {
    0x80 <= b <= 0xBF
  }

  /** `UTF8-1 = %x00-7F`. */
  predicate IsUtf8Char1(s: seq<byte>) {
    |s| == 1 && s[0] <= 0x7F
  }

  /** `UTF8-2 = %xC2-DF UTF8-tail`. */
  predicate IsUtf8Char2(s: seq<byte>) {
    |s| == 2 && 0xC2 <= s[0] <= 0xDF && IsTail(s[1])
  }

  /** `UTF8-3 = %xE0 %xA0-BF UTF8-tail / %xE1-EC 2( UTF8-tail ) /
      %xED %x80-9F UTF8-tail / %xEE-EF 2( UTF8-tail )`. */
  predicate IsUtf8Char3(s: seq<byte>) {
    |s| == 3 &&
    ((s[0] == 0xE0 && 0xA0 <= s[1] <= 0xBF && IsTail(s[2])) ||
     (0xE1 <= s[0] <= 0xEC && IsTail(s[1]) && IsTail(s[2])) ||
     (s[0] == 0xED && 0x80 <= s[1] <= 0x9F && IsTail(s[2])) ||
     (0xEE <= s[0] <= 0xEF && IsTail(s[1]) && IsTail(s[2])))
  }

  /** `UTF8-4 = %xF0 %x90-BF 2( UTF8-tail ) / %xF1-F3 3( UTF8-tail ) /
      %xF4 %x80-8F 2( UTF8-tail )`. */
  predicate IsUtf8Char4(s: seq<byte>) {
    |s| == 4 &&
    ((s[0] == 0xF0 && 0x90 <= s[1] <= 0xBF && IsTail(s[2]) && IsTail(s[3])) ||
     (0xF1 <= s[0] <= 0xF3 && IsTail(s[1]) && IsTail(s[2]) && IsTail(s[3])) ||
     (s[0] == 0xF4 && 0x80 <= s[1] <= 0x8F && IsTail(s[2]) && IsTail(s[3])))
  }

  /** `UTF8-char = UTF8-1 / UTF8-2 / UTF8-3 / UTF8-4`: `s` is exactly one
      character. */
  predicate IsUtf8Char(s: seq<byte>) {
    IsUtf8Char1(s) || IsUtf8Char2(s) || IsUtf8Char3(s) || IsUtf8Char4(s)
  }

  /** Some `UTF8-char` is a prefix of `b`. */
  ghost predicate StartsWithChar(b: seq<byte>) {
    exists n | 1 <= n <= |b| :: IsUtf8Char(b[..n])
  }

  /** `UTF8-octets = *( UTF8-char )`: `b` splits into well-formed characters. */
  ghost predicate WellFormed(b: seq<byte>)
    decreases |b|
  {
    |b| == 0 || exists n | 1 <= n <= |b| :: IsUtf8Char(b[..n]) && WellFormed(b[n..])
  }

  // ---------------------------------------------------------------------------
  // Encoding

  /** The scalar value a `UTF8-char` stands for: its payload bits, high to
      low. */
  function ScalarOf(s: seq<byte>): (cp: int)
    requires IsUtf8Char(s)
    ensures 0 <= cp < 0xD800 || 0xE000 <= cp < 0x11_0000
  {
    if |s| == 1 then s[0] as int
    else if |s| == 2 then (s[0] as int - 0xC0) * 0x40 + (s[1] as int - 0x80)
    else if |s| == 3 then
      (s[0] as int - 0xE0) * 0x1000 + (s[1] as int - 0x80) * 0x40 + (s[2] as int - 0x80)
    else
      (s[0] as int - 0xF0) * 0x4_0000 + (s[1] as int - 0x80) * 0x1000
        + (s[2] as int - 0x80) * 0x40 + (s[3] as int - 0x80)
  }

  function CharOf(s: seq<byte>): char
    requires IsUtf8Char(s)
  {
    ScalarOf(s) as char
  }

  /** `cp` in two bytes: five payload bits, then six. */
  function Encode2(cp: int): (s: seq<byte>)
    requires 0x80 <= cp < 0x800
    ensures IsUtf8Char2(s) && ScalarOf(s) == cp
  {
    var hi, lo := cp / 0x40, cp % 0x40;
    [0xC0 + hi, 0x80 + lo]
  }

  /** `cp` in three bytes: four payload bits, then six and six. */
  function Encode3(cp: int): (s: seq<byte>)
    requires 0x800 <= cp < 0xD800 || 0xE000 <= cp < 0x1_0000
    ensures IsUtf8Char3(s) && ScalarOf(s) == cp
  {
    var d2, r2 := cp / 0x1000, cp % 0x1000;
    var d1, d0 := r2 / 0x40, r2 % 0x40;
    [0xE0 + d2, 0x80 + d1, 0x80 + d0]
  }

  /** `cp` in four bytes: three payload bits, then three times six. */
  function Encode4(cp: int): (s: seq<byte>)
    requires 0x1_0000 <= cp < 0x11_0000
    ensures IsUtf8Char4(s) && ScalarOf(s) == cp
  {
    var d3, r3 := cp / 0x4_0000, cp % 0x4_0000;
    var d2, r2 := r3 / 0x1000, r3 % 0x1000;
    var d1, d0 := r2 / 0x40, r2 % 0x40;
    [0xF0 + d3, 0x80 + d2, 0x80 + d1, 0x80 + d0]
  }

  /** The UTF-8 encoding of one scalar value, in the shortest form. */
  function EncodeChar(c: char): (s: seq<byte>)
    ensures IsUtf8Char(s)
    ensures ScalarOf(s) == c as int
  {
    var cp := c as int;
    if cp < 0x80 then [cp]
    else if cp < 0x800 then Encode2(cp)
    else if cp < 0x1_0000 then Encode3(cp)
    else Encode4(cp)
  }

  /** `str::as_bytes`: a string's UTF-8 bytes, one to four per character. */
  function EncodeStr(s: string): (b: seq<byte>)
    ensures |s| <= |b| <= 4 * |s|
    decreases |s|
  {
    if |s| == 0 then [] else EncodeChar(s[0]) + EncodeStr(s[1..])
  }

  /** `q * d + r` with `0 <= r < d` splits back into `q` and `r`. */
  lemma DivModOf(q: int, r: int, d: int)
    requires 0 <= r < d && (d == 0x40 || d == 0x1000 || d == 0x4_0000)
    ensures (q * d + r) / d == q && (q * d + r) % d == r
  {
  }

  lemma EncodeChar2Of(s: seq<byte>)
    requires IsUtf8Char2(s)
    ensures Encode2(ScalarOf(s)) == s
  {
    DivModOf(s[0] as int - 0xC0, s[1] as int - 0x80, 0x40);
  }

  lemma EncodeChar3Of(s: seq<byte>)
    requires IsUtf8Char3(s)
    ensures Encode3(ScalarOf(s)) == s
  {
    var b0: int, b1: int, b2: int := s[0] - 0xE0, s[1] - 0x80, s[2] - 0x80;
    DivModOf(b0, b1 * 0x40 + b2, 0x1000);
    DivModOf(b1, b2, 0x40);
  }

  lemma EncodeChar4Of(s: seq<byte>)
    requires IsUtf8Char4(s)
    ensures Encode4(ScalarOf(s)) == s
  {
    var b0: int, b1: int, b2: int, b3: int := s[0] - 0xF0, s[1] - 0x80, s[2] - 0x80, s[3] - 0x80;
    DivModOf(b0, b1 * 0x1000 + b2 * 0x40 + b3, 0x4_0000);
    DivModOf(b1, b2 * 0x40 + b3, 0x1000);
    DivModOf(b2, b3, 0x40);
  }

  /** Every `UTF8-char` is the encoding of the character it stands for. */
  lemma EncodeCharOf(s: seq<byte>)
    requires IsUtf8Char(s)
    ensures EncodeChar(CharOf(s)) == s
  {
    if IsUtf8Char2(s) {
      EncodeChar2Of(s);
    } else if IsUtf8Char3(s) {
      EncodeChar3Of(s);
    } else if IsUtf8Char4(s) {
      EncodeChar4Of(s);
    }
  }

  // ---------------------------------------------------------------------------
  // Decoding, as `from_utf8` does it: by the lead byte

  /** How many bytes a character with this lead byte has, 0 if none. */
  function LeadWidth(lead: byte): nat {
    if lead <= 0x7F then 1
    else if 0xC2 <= lead <= 0xDF then 2
    else if 0xE0 <= lead <= 0xEF then 3
    else if 0xF0 <= lead <= 0xF4 then 4
    else 0
  }

  /** The range the second byte must fall in after this lead byte. */
  function SecondLow(lead: byte): byte {
    if lead == 0xE0 then 0xA0 else if lead == 0xF0 then 0x90 else 0x80
  }

  function SecondHigh(lead: byte): byte {
    if lead == 0xED then 0x9F else if lead == 0xF4 then 0x8F else 0xBF
  }

  /** The length of the character that starts `b`, 0 if none does. */
  function CharLen(b: seq<byte>): (n: nat)
    ensures n <= 4 && n <= |b|
  {
    if |b| == 0 then 0
    else
      var w := LeadWidth(b[0]);
      if w == 0 || |b| < w then 0
      else if w == 1 then 1
      else if !(SecondLow(b[0]) <= b[1] <= SecondHigh(b[0])) then 0
      else if w >= 3 && !IsTail(b[2]) then 0
      else if w == 4 && !IsTail(b[3]) then 0
      else w
  }

  /** What `CharLen` measures off is a `UTF8-char`. */
  lemma CharLenIsChar(b: seq<byte>)
    ensures CharLen(b) > 0 ==> IsUtf8Char(b[..CharLen(b)])
  {
    if CharLen(b) > 0 {
      var s := b[..CharLen(b)];
      assert s[0] == b[0];
    }
  }

  /** `CharLen` finds exactly the one `UTF8-char` that prefixes `b`: the
      grammar's alternatives never overlap. */
  lemma CharLenIsGrammar(b: seq<byte>)
    ensures CharLen(b) > 0 ==> IsUtf8Char(b[..CharLen(b)])
    ensures forall n | 1 <= n <= |b| && IsUtf8Char(b[..n]) :: n == CharLen(b)
    ensures CharLen(b) > 0 <==> StartsWithChar(b)
  {
    forall n | 1 <= n <= |b| && IsUtf8Char(b[..n]) ensures n == CharLen(b) {
      var s := b[..n];
      assert s[0] == b[0];
      assert n >= 2 ==> s[1] == b[1];
      assert n >= 3 ==> s[2] == b[2];
      assert n >= 4 ==> s[3] == b[3];
    }
    if CharLen(b) > 0 {
      var s := b[..CharLen(b)];
      assert s[0] == b[0];
      assert IsUtf8Char(s);
    }
  }

  /** `s` is a prefix of some `UTF8-char`. */
  ghost predicate IsCharPrefix(s: seq<byte>) {
    exists c :: IsUtf8Char(c) && |s| <= |c| && c[..|s|] == s
  }

  /** `IsCharPrefix` read off the lead byte, as `from_utf8` does it: a valid
      lead, no more bytes than it announces, the second byte in the lead's
      range and continuation bytes after it. */
  predicate LeadPrefix(s: seq<byte>) {
    |s| == 0 ||
    (1 <= LeadWidth(s[0]) && |s| <= LeadWidth(s[0])
     && (|s| >= 2 ==> SecondLow(s[0]) <= s[1] <= SecondHigh(s[0]))
     && (|s| >= 3 ==> IsTail(s[2]))
     && (|s| >= 4 ==> IsTail(s[3])))
  }

  /** What `LeadPrefix` accepts, filled up to a whole character. */
  function Complete(s: seq<byte>): (c: seq<byte>)
    requires |s| > 0 && LeadPrefix(s)
    ensures |c| == LeadWidth(s[0]) && c[..|s|] == s
  {
    var w := LeadWidth(s[0]);
    var tails: seq<byte> := [0x80, 0x80, 0x80];
    if |s| == w then s
    else if |s| == 1 then [s[0], SecondLow(s[0])] + tails[..w - 2]
    else s + tails[..w - |s|]
  }

  /** The lead-byte test is the grammar's: a prefix of some `UTF8-char`. */
  lemma LeadPrefixIsGrammar(s: seq<byte>)
    ensures LeadPrefix(s) <==> IsCharPrefix(s)
  {
    if LeadPrefix(s) {
      if |s| == 0 {
        var c: seq<byte> := [0];
        assert IsUtf8Char(c) && c[..0] == s;
      } else {
        var c := Complete(s);
        assert c[0] == s[0];
        assert |c| >= 2 ==> c[1] == if |s| >= 2 then s[1] else SecondLow(s[0]);
        assert |c| >= 3 ==> IsTail(c[2]);
        assert |c| >= 4 ==> IsTail(c[3]);
        assert IsUtf8Char(c);
      }
    }
    if IsCharPrefix(s) && |s| > 0 {
      var c :| IsUtf8Char(c) && |s| <= |c| && c[..|s|] == s;
      assert s[0] == c[0];
      assert |s| >= 2 ==> s[1] == c[1];
      assert |s| >= 3 ==> s[2] == c[2];
      assert |s| >= 4 ==> s[3] == c[3];
    }
  }

  /** `Utf8Error::error_len` as `from_utf8` computes it for the input `b`
      that follows the valid part: it reads the lead byte and then one
      continuation byte at a time. A lead byte that begins no character
      gives 1, running out of input gives `None`, a byte out of range gives
      the number of bytes before it. (Where `b` starts with a whole
      character the decoder never asks.) */
  function ErrorLen(b: seq<byte>): (r: Option<nat>)
    ensures r.Some? ==> 1 <= r.value <= 3 && r.value <= |b|
  {
    if |b| == 0 then None
    else
      var w := LeadWidth(b[0]);
      if w < 2 then Some(1)
      else if |b| < 2 then None
      else if !(SecondLow(b[0]) <= b[1] <= SecondHigh(b[0])) then Some(1)
      else if w < 3 then Some(2)
      else if |b| < 3 then None
      else if !IsTail(b[2]) then Some(2)
      else if w < 4 then Some(3)
      else if |b| < 4 then None
      else Some(3)
  }

  /** What `error_len` means for the input `rest` from `valid_up_to` on:
      `None` exactly when `rest` is a prefix of a character cut short by the
      end of the input; otherwise `Some(k)`, `k` being the length of the
      longest prefix of `rest` that could still begin a character, or 1 if
      even the first byte cannot. */
  ghost predicate IsErrorLen(rest: seq<byte>, len: Option<nat>) {
    && (len.None? <==> IsCharPrefix(rest))
    && (len.Some? ==>
          && 1 <= len.value <= 3 && len.value <= |rest|
          && (len.value == 1 || IsCharPrefix(rest[..len.value]))
          && forall m | len.value < m <= |rest| :: !IsCharPrefix(rest[..m]))
  }

  /** `ErrorLen` against the lead-byte test, where no character starts. */
  lemma ErrorLenByLead(b: seq<byte>)
    requires |b| > 0 && CharLen(b) == 0
    ensures ErrorLen(b).None? <==> LeadPrefix(b)
    ensures ErrorLen(b).Some? ==>
              var k := ErrorLen(b).value;
              && 1 <= k <= 3 && k <= |b|
              && (k == 1 || LeadPrefix(b[..k]))
              && forall m | k < m <= |b| :: !LeadPrefix(b[..m])
  {
    if ErrorLen(b).Some? {
      var k := ErrorLen(b).value;
      forall m | k < m <= |b| ensures !LeadPrefix(b[..m]) {
        var p := b[..m];
        assert p[0] == b[0] && p[1] == b[1];
        assert m >= 3 ==> p[2] == b[2];
        assert m >= 4 ==> p[3] == b[3];
      }
      if k > 1 {
        var p := b[..k];
        assert p[0] == b[0] && p[1] == b[1];
      }
    }
  }

  /** `ErrorLen` gives exactly the `error_len` that `IsErrorLen` describes. */
  lemma ErrorLenIsGrammar(b: seq<byte>)
    requires |b| > 0 && !StartsWithChar(b)
    ensures IsErrorLen(b, ErrorLen(b))
  {
    CharLenIsGrammar(b);
    ErrorLenByLead(b);
    LeadPrefixIsGrammar(b);
    if ErrorLen(b).Some? {
      var k := ErrorLen(b).value;
      LeadPrefixIsGrammar(b[..k]);
      forall m | k < m <= |b| ensures !IsCharPrefix(b[..m]) {
        LeadPrefixIsGrammar(b[..m]);
      }
    }
  }

  /** `std::str::Utf8Error`: how many leading bytes were valid, and how long
      the bad sequence after them is (`None` if the input ended inside a
      character). */
  datatype DecodeError = DecodeError(validUpTo: nat, errorLen: Option<nat>)

  /** The decoder behind `from_utf8`: the characters of `b`, or where and
      how it went wrong. */
  function Decode(b: seq<byte>): (r: Result<string, DecodeError>)
    ensures r.Ok? ==> |r.value| <= |b|
    ensures r.Err? ==> r.error.validUpTo < |b|
    decreases |b|
  {
    if |b| == 0 then Ok([])
    else
      var n := CharLen(b);
      if n == 0 then Err(DecodeError(0, ErrorLen(b)))
      else
        CharLenIsChar(b);
        match Decode(b[n..])
        case Ok(rest) => Ok([CharOf(b[..n])] + rest)
        case Err(e) => Err(DecodeError(n + e.validUpTo, e.errorLen))
  }

  /** Decoding succeeds exactly on well-formed input. */
  lemma {:induction false} DecodeOkIffWellFormed(b: seq<byte>)
    ensures Decode(b).Ok? <==> WellFormed(b)
    decreases |b|
  {
    if |b| > 0 {
      CharLenIsGrammar(b);
      var n := CharLen(b);
      if n > 0 {
        DecodeOkIffWellFormed(b[n..]);
      }
    }
  }

  /** The bytes of a string that starts with `c`. */
  lemma EncodeStrCons(c: char, rest: string)
    ensures EncodeStr([c] + rest) == EncodeChar(c) + EncodeStr(rest)
  {
    assert ([c] + rest)[0] == c && ([c] + rest)[1..] == rest;
  }

  /** One successful step of `Decode`: the leading character, then the rest. */
  lemma DecodeStep(b: seq<byte>)
    requires |b| > 0 && Decode(b).Ok?
    ensures CharLen(b) > 0 && IsUtf8Char(b[..CharLen(b)])
    ensures Decode(b[CharLen(b)..]).Ok?
    ensures Decode(b).value == [CharOf(b[..CharLen(b)])] + Decode(b[CharLen(b)..]).value
  {
    CharLenIsChar(b);
  }

  /** The bytes of a decoded character followed by a string. */
  lemma EncodeCharThenStr(head: seq<byte>, rest: string)
    requires IsUtf8Char(head)
    ensures EncodeStr([CharOf(head)] + rest) == head + EncodeStr(rest)
  {
    EncodeStrCons(CharOf(head), rest);
    EncodeCharOf(head);
  }

  /** Cutting a sequence in two and joining the halves gives it back. */
  lemma SplitJoin(b: seq<byte>, n: nat)
    requires n <= |b|
    ensures b[..n] + b[n..] == b
  {
  }

  /** A decoded string's bytes are exactly the input: nothing is added,
      dropped or normalised. */
  lemma {:induction false} DecodeKeepsBytes(b: seq<byte>)
    requires Decode(b).Ok?
    ensures EncodeStr(Decode(b).value) == b
    decreases |b|
  {
    if |b| > 0 {
      var n := CharLen(b);
      DecodeStep(b);
      DecodeKeepsBytes(b[n..]);
      EncodeCharThenStr(b[..n], Decode(b[n..]).value);
      SplitJoin(b, n);
    }
  }

  /** On failure, the bytes before `valid_up_to` are well formed. */
  lemma {:induction false} DecodeErrorPrefix(b: seq<byte>)
    requires Decode(b).Err?
    ensures WellFormed(b[..Decode(b).error.validUpTo])
    decreases |b|
  {
    CharLenIsChar(b);
    var n := CharLen(b);
    if n > 0 {
      DecodeErrorPrefix(b[n..]);
      var k := Decode(b[n..]).error.validUpTo;
      assert Decode(b).error.validUpTo == n + k;
      var v := b[..n + k];
      assert v[..n] == b[..n];
      assert v[n..] == b[n..][..k];
      assert IsUtf8Char(v[..n]) && WellFormed(v[n..]);
    } else {
      assert b[..0] == [];
    }
  }

  /** On failure, what follows `valid_up_to` starts no character, and
      `error_len` is `ErrorLen` of it. */
  lemma {:induction false} DecodeErrorSuffix(b: seq<byte>)
    requires Decode(b).Err?
    ensures !StartsWithChar(b[Decode(b).error.validUpTo..])
    ensures Decode(b).error.errorLen == ErrorLen(b[Decode(b).error.validUpTo..])
    decreases |b|
  {
    var n := CharLen(b);
    if n > 0 {
      DecodeErrorSuffix(b[n..]);
      var e := Decode(b[n..]).error;
      assert Decode(b).error == DecodeError(n + e.validUpTo, e.errorLen);
      assert b[n + e.validUpTo..] == b[n..][e.validUpTo..];
    } else {
      CharLenIsGrammar(b);
      assert b[0..] == b;
    }
  }

  /** On failure, `valid_up_to` bytes are well formed, no character starts
      right after them, and `error_len` is that of the bytes from there on. */
  lemma DecodeErrorPosition(b: seq<byte>)
    requires Decode(b).Err?
    ensures WellFormed(b[..Decode(b).error.validUpTo])
    ensures !StartsWithChar(b[Decode(b).error.validUpTo..])
    ensures Decode(b).error.errorLen == ErrorLen(b[Decode(b).error.validUpTo..])
  {
    DecodeErrorPrefix(b);
    DecodeErrorSuffix(b);
  }

  /** The bytes of any string decode back to that string. */
  lemma {:induction false} DecodeEncodeStr(s: string)
    ensures Decode(EncodeStr(s)) == Ok(s)
    decreases |s|
  {
    if |s| > 0 {
      var e := EncodeChar(s[0]);
      var b := EncodeStr(s);
      assert b == e + EncodeStr(s[1..]);
      assert b[..|e|] == e && b[|e|..] == EncodeStr(s[1..]);
      CharLenIsGrammar(b);
      assert CharLen(b) == |e|;
      DecodeEncodeStr(s[1..]);
      assert CharOf(e) == s[0];
      assert s == [s[0]] + s[1..];
    }
  }

  /** So the bytes of a string are always well formed. */
  lemma EncodeStrWellFormed(s: string)
    ensures WellFormed(EncodeStr(s))
  {
    DecodeEncodeStr(s);
    DecodeOkIffWellFormed(EncodeStr(s));
  }
}
