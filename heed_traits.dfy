/** The codec and comparator traits of heed-traits: byte encoding through
    `BytesEncode`/`ToBytes`, type-erased errors, and lexicographic key order. */
module HeedTraits {
  import opened Wrappers

  /** `u8`. */
  type byte = b: int | 0 <= b < 256

  /** `std::cmp::Ordering`. */
  datatype Ordering = Less | Equal | Greater {
    /** `Ordering::reverse`. */
    function Reverse(): Ordering {
      match this
      case Less => Greater
      case Equal => Equal
      case Greater => Less
    }
  }

  /** `Ord::cmp` on two lengths. */
  function CmpNat(x: nat, y: nat): (r: Ordering)
    ensures r == Less <==> x < y
    ensures r == Equal <==> x == y
    ensures r == Greater <==> y < x
  {
    if x < y then Less else if x == y then Equal else Greater
  }

  function Min(x: nat, y: nat): nat {
    if x < y then x else y
  }

  // ---------------------------------------------------------------------------
  // Errors

  /** The concrete error held by a `BoxedError`. The Rust type is
      `Box<dyn Error + Send + Sync>`; the model closes it over the errors the
      modelled codecs produce plus an opaque one for any other codec. */
  datatype ErrorKind =
    | NonEmpty              // heed_types::unit::NonEmptyError
    | TryFromSlice          // std::array::TryFromSliceError
    | Utf8(validUpTo: nat, errorLen: Option<nat>)  // std::str::Utf8Error
    | Custom(code: int)     // any other codec's error

  /** A type-erased error with its optional cause. */
  datatype BoxedError = BoxedError(kind: ErrorKind, cause: Option<BoxedError>) {
    /** `Error::source`. */
    function Source(): Option<BoxedError> {
      cause
    }
  }

  /** An error with no cause, as every modelled codec error is. */
  function Leaf(kind: ErrorKind): (e: BoxedError)
    ensures e.kind == kind && e.Source() == None
  {
    BoxedError(kind, None)
  }

  /** `BoxedErrorWrapper`, the newtype that lets a `BoxedError` be the
      `ToBytes::Error` of a deprecated `BytesEncode` type. */
  datatype BoxedErrorWrapper = BoxedErrorWrapper(inner: BoxedError) {
    /** `StdError::source` forwards through the wrapper and the box. */
    function Source(): (r: Option<BoxedError>)
      ensures r == inner.Source()
    {
      inner.Source()
    }
  }

  // ---------------------------------------------------------------------------
  // The deprecated BytesEncode -> ToBytes bridge

  /** `<T as ToBytes>::to_bytes` for a type `T` that implements `BytesEncode`
      through `bytesEncode`: the encoded bytes on success, the encoder's own
      error wrapped in `BoxedErrorWrapper` on failure. */
  function ToBytesFromEncode<T>(bytesEncode: T -> Result<seq<byte>, BoxedError>, item: T)
    : (r: Result<seq<byte>, BoxedErrorWrapper>)
    ensures r.Ok? <==> bytesEncode(item).Ok?
    ensures r.Ok? ==> r.value == bytesEncode(item).value
    ensures r.Err? ==> r.error.inner == bytesEncode(item).error
    ensures r.Err? ==> r.error.Source() == bytesEncode(item).error.Source()
  {
    bytesEncode(item).MapErr((e: BoxedError) => BoxedErrorWrapper(e))
  }

  /** Removing the wrapper gives back exactly what `bytes_encode` returned:
      the bridge neither loses nor invents information. */
  lemma ToBytesFromEncodeIsLossless<T>(bytesEncode: T -> Result<seq<byte>, BoxedError>, item: T)
    ensures ToBytesFromEncode(bytesEncode, item).MapErr((w: BoxedErrorWrapper) => w.inner)
            == bytesEncode(item)
  {
  }

  // ---------------------------------------------------------------------------
  // Comparators

  /** An implementation of `LexicographicComparator`: its five associated
      functions. */
  datatype LexicographicComparator = LexicographicComparator(
    compareElem: (byte, byte) -> Ordering,
    successor: byte -> Option<byte>,
    predecessor: byte -> Option<byte>,
    maxElem: byte,
    minElem: byte)

  /** `cmp` is a total order, stated in the shape `Ord` gives it: `Equal`
      exactly on equal values, reversing the arguments reverses the answer,
      and `Less` is transitive. */
  ghost predicate IsTotalOrder<T(!new)>(cmp: (T, T) -> Ordering) {
    && (forall x, y :: cmp(x, y) == Equal <==> x == y)
    && (forall x, y :: cmp(y, x) == cmp(x, y).Reverse())
    && (forall x, y, z :: cmp(x, y) == Less && cmp(y, z) == Less ==> cmp(x, z) == Less)
  }

  /** `s` comes right after `e` under `cmp`: nothing lies strictly between. */
  ghost predicate IsImmediateSuccessor(cmp: (byte, byte) -> Ordering, e: byte, s: byte) {
    cmp(e, s) == Less && forall x :: !(cmp(e, x) == Less && cmp(x, s) == Less)
  }

  /** The documented contract of `LexicographicComparator`: `compare_elem` is a
      total order with least element `min_elem` and greatest `max_elem`;
      `successor` and `predecessor` step to the immediate neighbour and are
      `None` exactly at the maximum and the minimum. */
  ghost predicate Conforming(c: LexicographicComparator) {
    && IsTotalOrder(c.compareElem)
    && (forall e :: c.compareElem(c.minElem, e) != Greater)
    && (forall e :: c.compareElem(e, c.maxElem) != Greater)
    && (forall e :: c.successor(e).None? <==> e == c.maxElem)
    && (forall e :: c.successor(e).Some? ==> IsImmediateSuccessor(c.compareElem, e, c.successor(e).value))
    && (forall e :: c.predecessor(e).None? <==> e == c.minElem)
    && (forall e :: c.predecessor(e).Some? ==> IsImmediateSuccessor(c.compareElem, c.predecessor(e).value, e))
  }

  /** At the extremes there is nowhere to step. */
  lemma ExtremesHaveNoNeighbour(c: LexicographicComparator)
    requires Conforming(c)
    ensures c.successor(c.maxElem) == None
    ensures c.predecessor(c.minElem) == None
  {
  }

  /** Below the maximum, `predecessor` undoes `successor`. */
  lemma PredecessorUndoesSuccessor(c: LexicographicComparator, e: byte)
    requires Conforming(c)
    requires e != c.maxElem
    ensures c.successor(e).Some?
    ensures c.predecessor(c.successor(e).value) == Some(e)
  {
    var s := c.successor(e).value;
    assert c.compareElem(e, s) == Less;
    assert s != c.minElem by {
      assert c.compareElem(c.minElem, e) != Greater;
    }
    var p := c.predecessor(s).value;
    assert IsImmediateSuccessor(c.compareElem, p, s);
  }

  /** Above the minimum, `successor` undoes `predecessor`. */
  lemma SuccessorUndoesPredecessor(c: LexicographicComparator, e: byte)
    requires Conforming(c)
    requires e != c.minElem
    ensures c.predecessor(e).Some?
    ensures c.successor(c.predecessor(e).value) == Some(e)
  {
    var p := c.predecessor(e).value;
    assert c.compareElem(p, e) == Less;
    assert p != c.maxElem by {
      assert c.compareElem(e, c.maxElem) != Greater;
    }
    var s := c.successor(p).value;
    assert IsImmediateSuccessor(c.compareElem, p, s);
  }

  /** The byte order LMDB uses when no comparator is registered. */
  function ByteOrder(): (c: LexicographicComparator)
    ensures c.maxElem == 255 && c.minElem == 0
  {
    LexicographicComparator(
      (x: byte, y: byte) => CmpNat(x, y),
      (e: byte) => if e < 255 then Some(e + 1) else None,
      (e: byte) => if 0 < e then Some(e - 1) else None,
      255,
      0)
  }

  /** The natural byte order meets the trait's contract, so the contract can
      be met at all. */
  lemma ByteOrderConforms()
    ensures Conforming(ByteOrder())
  {
    var c := ByteOrder();
    forall e: byte | c.successor(e).Some?
      ensures IsImmediateSuccessor(c.compareElem, e, c.successor(e).value)
    {
      assert c.successor(e).value == e + 1;
    }
    forall e: byte | c.predecessor(e).Some?
      ensures IsImmediateSuccessor(c.compareElem, c.predecessor(e).value, e)
    {
      assert c.predecessor(e).value == e - 1;
    }
  }

  // ---------------------------------------------------------------------------
  // The blanket `impl<C: LexicographicComparator> Comparator for C`

  /** Lexicographic order of two keys under `c.compareElem`: the first
      differing position decides, and on a common prefix the shorter key comes
      first. Whatever `compare_elem` does, a key is `Equal` to itself. */
  function LexOrder(c: LexicographicComparator, a: seq<byte>, b: seq<byte>): (r: Ordering)
    ensures a == b ==> r == Equal
    decreases |a|
  {
    if |a| == 0 || |b| == 0 then CmpNat(|a|, |b|)
    else if a[0] != b[0] then c.compareElem(a[0], b[0])
    else LexOrder(c, a[1..], b[1..])
  }

  /** `Comparator::compare` for a lexicographic comparator `c`. */
  method Compare(c: LexicographicComparator, a: seq<byte>, b: seq<byte>) returns (r: Ordering)
    ensures r == LexOrder(c, a, b)
    ensures forall i :: 0 <= i < |a| && i < |b| && a[..i] == b[..i] && a[i] != b[i] ==>
              r == c.compareElem(a[i], b[i])
    ensures a[..Min(|a|, |b|)] == b[..Min(|a|, |b|)] ==> r == CmpNat(|a|, |b|)
  {
    LexOrderDecided(c, a, b);
    var n := Min(|a|, |b|);
    for idx := 0 to n
      invariant a[..idx] == b[..idx]
    {
      if a[idx] != b[idx] {
        LexOrderAtFirstDifference(c, a, b, idx);
        return c.compareElem(a[idx], b[idx]);
      }
      assert a[..idx + 1] == a[..idx] + [a[idx]];
      assert b[..idx + 1] == b[..idx] + [b[idx]];
    }
    LexOrderOnCommonPrefix(c, a, b);
    return CmpNat(|a|, |b|);
  }

  /** The two ways `compare` can decide, for every position at once. */
  lemma LexOrderDecided(c: LexicographicComparator, a: seq<byte>, b: seq<byte>)
    ensures forall i :: 0 <= i < |a| && i < |b| && a[..i] == b[..i] && a[i] != b[i] ==>
              LexOrder(c, a, b) == c.compareElem(a[i], b[i])
    ensures a[..Min(|a|, |b|)] == b[..Min(|a|, |b|)] ==> LexOrder(c, a, b) == CmpNat(|a|, |b|)
  {
    forall i | 0 <= i < |a| && i < |b| && a[..i] == b[..i] && a[i] != b[i]
      ensures LexOrder(c, a, b) == c.compareElem(a[i], b[i])
    {
      LexOrderAtFirstDifference(c, a, b, i);
    }
    if a[..Min(|a|, |b|)] == b[..Min(|a|, |b|)] {
      LexOrderOnCommonPrefix(c, a, b);
    }
  }

  /** At the first position where the keys differ, `compare_elem` decides. */
  lemma {:induction false} LexOrderAtFirstDifference(c: LexicographicComparator, a: seq<byte>, b: seq<byte>, i: nat)
    requires i < |a| && i < |b|
    requires a[..i] == b[..i] && a[i] != b[i]
    ensures LexOrder(c, a, b) == c.compareElem(a[i], b[i])
  {
    if i > 0 {
      assert a[0] == a[..i][0] == b[..i][0] == b[0];
      assert a[1..][..i - 1] == a[..i][1..] == b[..i][1..] == b[1..][..i - 1];
      LexOrderAtFirstDifference(c, a[1..], b[1..], i - 1);
    }
  }

  /** When one key is a prefix of the other, the lengths decide: a proper
      prefix sorts first. */
  lemma {:induction false} LexOrderOnCommonPrefix(c: LexicographicComparator, a: seq<byte>, b: seq<byte>)
    requires a[..Min(|a|, |b|)] == b[..Min(|a|, |b|)]
    ensures LexOrder(c, a, b) == CmpNat(|a|, |b|)
    decreases |a|
  {
    if |a| > 0 && |b| > 0 {
      var m := Min(|a|, |b|);
      assert a[0] == a[..m][0] == b[..m][0] == b[0];
      assert a[1..][..m - 1] == a[..m][1..] == b[..m][1..] == b[1..][..m - 1];
      LexOrderOnCommonPrefix(c, a[1..], b[1..]);
    }
  }

  /** If `compare_elem` never answers `Equal` for distinct bytes, `compare`
      answers `Equal` exactly for equal keys. */
  lemma {:induction false} LexOrderEqualIff(c: LexicographicComparator, a: seq<byte>, b: seq<byte>)
    requires forall x, y :: x != y ==> c.compareElem(x, y) != Equal
    ensures LexOrder(c, a, b) == Equal <==> a == b
    decreases |a|
  {
    if a == b {
    } else if |a| > 0 && |b| > 0 && a[0] == b[0] {
      LexOrderEqualIff(c, a[1..], b[1..]);
      assert a == [a[0]] + a[1..] && b == [b[0]] + b[1..];
    }
  }

  /** Swapping the keys reverses the answer. */
  lemma {:induction false} LexOrderAntisymmetric(c: LexicographicComparator, a: seq<byte>, b: seq<byte>)
    requires IsTotalOrder(c.compareElem)
    ensures LexOrder(c, b, a) == LexOrder(c, a, b).Reverse()
    decreases |a|
  {
    if |a| > 0 && |b| > 0 && a[0] == b[0] {
      LexOrderAntisymmetric(c, a[1..], b[1..]);
    }
  }

  /** `Less` is transitive on keys. */
  lemma {:induction false} LexOrderTransitive(c: LexicographicComparator, a: seq<byte>, b: seq<byte>, d: seq<byte>)
    requires IsTotalOrder(c.compareElem)
    requires LexOrder(c, a, b) == Less && LexOrder(c, b, d) == Less
    ensures LexOrder(c, a, d) == Less
    decreases |a|
  {
    if |a| > 0 && |b| > 0 && |d| > 0 {
      if a[0] == b[0] && b[0] == d[0] {
        LexOrderTransitive(c, a[1..], b[1..], d[1..]);
      }
    }
  }

  /** For a total order on bytes, the blanket `compare` is a total order on
      keys. */
  lemma LexOrderIsTotalOrder(c: LexicographicComparator)
    requires IsTotalOrder(c.compareElem)
    ensures IsTotalOrder((a: seq<byte>, b: seq<byte>) => LexOrder(c, a, b))
  {
    forall a: seq<byte>, b: seq<byte> ensures LexOrder(c, a, b) == Equal <==> a == b {
      LexOrderEqualIff(c, a, b);
    }
    forall a: seq<byte>, b: seq<byte> ensures LexOrder(c, b, a) == LexOrder(c, a, b).Reverse() {
      LexOrderAntisymmetric(c, a, b);
    }
    forall a: seq<byte>, b: seq<byte>, d: seq<byte> | LexOrder(c, a, b) == Less && LexOrder(c, b, d) == Less
      ensures LexOrder(c, a, d) == Less
    {
      LexOrderTransitive(c, a, b, d);
    }
  }
}
