# heed: key order, byte codecs and transaction handles in Dafny

heed is a typed Rust layer over the LMDB key-value store. This project models three of its parts and proves properties of each.

- **Key order and codec traits** (heed-traits). The blanket `Comparator::compare` is given to every `LexicographicComparator`. It is modelled as a method with a loop, proved equal to a recursive function `LexOrder`. For a total order on bytes, `LexOrder` is proved to be a total order on keys. The documented contract for `successor`, `predecessor`, `min_elem` and `max_elem` is stated as a predicate, `Conforming`. Its consequences are proved, and the natural byte order is shown to meet it. Also modelled:
  - the deprecated `BytesEncode` to `ToBytes` bridge;
  - `BoxedErrorWrapper::source`.
- **Byte codecs** (heed-types):
  - `Bytes` and `FixedSizeBytes<N>`;
  - `Unit`;
  - `Str`, whose decoder is `std::str::from_utf8`. The model carries its own UTF-8 grammar, transcribed from section 4 of RFC 3629, and a decoder that reports `valid_up_to` and `error_len`.

  Each codec has proved round trips and exact acceptance and rejection conditions.
- **Transactions** (heed). `RoTxn` and `RwTxn` are classes over one nullable native handle.
  - **The engine.** LMDB is the class `Env`: a ghost set of live handles and a ghost log of every `mdb_txn_begin`, `mdb_txn_commit` and `mdb_txn_abort` call. What the engine answers is chosen nondeterministically.
  - **The invariant.** The engine's invariant says no handle is ever released twice. Every transaction method is proved to preserve it.
  - **Client paths.** The module `Lifecycle` proves that every path releases each handle begun on it exactly once and leaves nothing live. The paths are:
    - a write transaction with a nested child, each ended by commit, abort or a plain drop;
    - a read transaction that is committed or dropped.

Files:
- `wrappers.dfy`: `Option` and `Result`.
- `heed_traits.dfy`: module `HeedTraits`.
- `bytes_codec.dfy`, `unit_codec.dfy`, `str_codec.dfy` and `utf8.dfy`: the codecs.
- `mdb.dfy`: the engine stand-in.
- `txn.dfy`: the transactions.
- `lifecycle.dfy`: client paths over the transaction API.

Interfaces that are not Dafny values become parameters:
- A `LexicographicComparator` is a datatype holding its five associated functions.
- A `BytesEncode` implementation is a function argument.
- The const generic `N` is a `nat` argument.

## Model

| member | source | states |
|---|---|---|
| HeedTraits.Compare | heed-traits/src/lib.rs:139-148 | the loop returns `LexOrder(c, a, b)`: `compare_elem` of the bytes at the first index where the keys differ, else the comparison of the lengths |
| HeedTraits.LexOrderAtFirstDifference | heed-traits/src/lib.rs:141-145 | if the keys agree below `i` and differ at `i`, the order is `compare_elem(a[i], b[i])` |
| HeedTraits.LexOrderOnCommonPrefix | heed-traits/src/lib.rs:146 | when the keys agree up to the shorter length, the lengths decide, so a proper prefix sorts first |
| HeedTraits.LexOrderDecided | heed-traits/src/lib.rs:141-146 | both ways of deciding at once: at every first difference, and on a common prefix |
| HeedTraits.LexOrder | heed-traits/src/lib.rs:139-148 | the lexicographic order `compare` computes, as a recursive definition: the first differing byte decides by `compare_elem`, else the lengths; every key is `Equal` to itself, whatever `compare_elem` is |
| HeedTraits.LexOrderEqualIff | heed-traits/src/lib.rs:141-146 | if `compare_elem` never answers `Equal` for distinct bytes, `compare` answers `Equal` exactly for equal keys |
| HeedTraits.LexOrderAntisymmetric | heed-traits/src/lib.rs:109-113 | for a total order on bytes, swapping the keys reverses the answer |
| HeedTraits.LexOrderTransitive | heed-traits/src/lib.rs:109-113 | for a total order on bytes, `Less` is transitive on keys |
| HeedTraits.LexOrderIsTotalOrder | heed-traits/src/lib.rs:109-113 | for a total order on bytes, `compare` is a total order on keys: `Equal` iff equal, reversible, transitive |
| HeedTraits.CmpNat | heed-traits/src/lib.rs:146 | `Ord::cmp` on lengths: `Less`, `Equal` or `Greater` exactly when the first length is smaller, equal or larger |
| HeedTraits.Conforming | heed-traits/src/lib.rs:117-136 | the documented `LexicographicComparator` contract: `compare_elem` is a total order with least element `min_elem` and greatest `max_elem`, and `successor` and `predecessor` step to the immediate neighbour and are `None` exactly at the maximum and at the minimum |
| HeedTraits.ExtremesHaveNoNeighbour | heed-traits/src/lib.rs:122-130 | for a conforming comparator, `successor(max_elem)` and `predecessor(min_elem)` are `None` |
| HeedTraits.PredecessorUndoesSuccessor | heed-traits/src/lib.rs:122-130 | below the maximum, `successor(e)` exists and `predecessor` of it is `Some(e)` |
| HeedTraits.SuccessorUndoesPredecessor | heed-traits/src/lib.rs:122-130 | above the minimum, `predecessor(e)` exists and `successor` of it is `Some(e)` |
| HeedTraits.ByteOrder | heed-traits/src/lib.rs:100-103 | the natural byte order used when no comparator is set, with maximum 255 and minimum 0 |
| HeedTraits.ByteOrderConforms | heed-traits/src/lib.rs:122-136 | the natural byte order meets the whole documented contract of `LexicographicComparator` |
| HeedTraits.ToBytesFromEncode | heed-traits/src/lib.rs:57-59 | `to_bytes` succeeds exactly when `bytes_encode` does, with the same bytes; on failure it returns the same error in `BoxedErrorWrapper`, with the same `source` |
| HeedTraits.ToBytesFromEncodeIsLossless | heed-traits/src/lib.rs:57-59 | unwrapping the error of `to_bytes` gives back exactly the result of `bytes_encode` |
| HeedTraits.BoxedErrorWrapper.Source | heed-traits/src/lib.rs:84-86 | the wrapper's `source` is the inner error's `source` unchanged |
| HeedTraits.Leaf | heed-types/src/unit.rs:27-29 | a codec error of a given kind, with no `source` |
| Wrappers.Result.MapErr | heed-traits/src/lib.rs:58 | `map_err` keeps a success and its value, and applies the function to an error |
| BytesCodec.BytesToBytes | heed-types/src/bytes.rs:18-20 | `Bytes::to_bytes` never fails and returns its input |
| BytesCodec.BytesDecode | heed-types/src/bytes.rs:26-28 | `Bytes::bytes_decode` never fails and returns its input |
| BytesCodec.BytesRoundTrip | heed-types/src/bytes.rs:18-28 | decoding what `Bytes` encoded gives back the item |
| BytesCodec.FixedToBytes | heed-types/src/bytes.rs:41-43 | `FixedSizeBytes<N>::to_bytes` never fails and returns the `N` bytes of the array |
| BytesCodec.FixedBytesDecode | heed-types/src/bytes.rs:49-51 | succeeds exactly on inputs of length `N`, returning them; any other length is a `TryFromSliceError` |
| BytesCodec.FixedRoundTrip | heed-types/src/bytes.rs:41-51 | decoding what `FixedSizeBytes<N>` encoded gives back the array |
| BytesCodec.FixedDecodeAcceptsOnlyEncodings | heed-types/src/bytes.rs:41-51 | the decoder accepts exactly the encodings of `N`-byte arrays, and what it returns re-encodes to its input |
| UnitCodec.UnitToBytes | heed-types/src/unit.rs:16-18 | `Unit::to_bytes` never fails and returns no bytes |
| UnitCodec.UnitBytesDecode | heed-types/src/unit.rs:24-30 | succeeds exactly on the empty input; any other input is a `NonEmptyError` |
| UnitCodec.UnitRoundTrip | heed-types/src/unit.rs:16-30 | decoding the encoding of `()` gives `()` |
| UnitCodec.UnitDecodeAcceptsOnlyEncoding | heed-types/src/unit.rs:16-30 | the decoder accepts exactly the one encoding and rejects everything else with `NonEmptyError` |
| StrCodec.StrToBytes | heed-types/src/str.rs:15-17 | `Str::to_bytes` never fails; its bytes are the UTF-8 encoding of the string, well formed, and between `n` and `4n` bytes long for `n` characters |
| StrCodec.StrBytesDecode | heed-types/src/str.rs:23-25 | succeeds exactly on well-formed UTF-8, and then the decoded string encodes back to exactly the input. On failure it is a `Utf8Error` whose `valid_up_to` is inside the input, with a well-formed prefix before it and no character starting at it, and whose `error_len` is `None` exactly when the rest is a character cut short by the end of the input, and otherwise the length of the longest prefix of the rest that could still begin a character (at least 1) |
| StrCodec.StrRoundTrip | heed-types/src/str.rs:15-25 | decoding the bytes of any string gives the string |
| StrCodec.StrRejectsBadStart | heed-types/src/str.rs:24 | input that does not begin with a UTF-8 character is rejected with `valid_up_to` 0 and the `error_len` of the whole input |
| StrCodec.StrRejectsIllFormed | heed-types/src/str.rs:24 | the exact `Utf8Error` for each classic ill-formed input: a lone continuation byte, overlong encodings, an encoded surrogate, a value above U+10FFFF and the byte FF give `valid_up_to` 0 and `error_len` 1; E2 82 41 gives `error_len` 2; a truncated sequence gives no `error_len`, at offset 0 or after a valid `a` |
| StrCodec.StrAcceptsEuroSign | heed-types/src/str.rs:24 | E2 82 AC decodes to U+20AC |
| Utf8.ScalarOf | heed-types/src/str.rs:24 | the code point read from one well-formed UTF-8 character is a Unicode scalar value |
| Utf8.Encode2 | heed-types/src/str.rs:16 | the two-byte encoding of a code point in 0x80..0x7FF is one `UTF8-2` sequence that decodes back to it |
| Utf8.Encode3 | heed-types/src/str.rs:16 | the three-byte encoding of a non-surrogate code point in 0x800..0xFFFF is one `UTF8-3` sequence that decodes back to it |
| Utf8.Encode4 | heed-types/src/str.rs:16 | the four-byte encoding of a code point in 0x10000..0x10FFFF is one `UTF8-4` sequence that decodes back to it |
| Utf8.EncodeChar | heed-types/src/str.rs:16 | every character encodes to one well-formed UTF-8 character of 1 to 4 bytes that decodes back to it |
| Utf8.EncodeCharOf | heed-types/src/str.rs:24 | every well-formed UTF-8 character is the encoding of the character it decodes to |
| Utf8.CharLenIsGrammar | heed-types/src/str.rs:24 | `CharLen` finds exactly the one `UTF8-char` the input starts with, and finds none when it starts with none |
| Utf8.WellFormed | heed-types/src/str.rs:24 | `UTF8-octets` of section 4 of RFC 3629: the input splits into `UTF8-char`s, which is what `from_utf8` accepts |
| Utf8.Decode | heed-types/src/str.rs:24 | `from_utf8`: on success at most one character per byte; on failure `valid_up_to` lies inside the input and `error_len` comes from the bytes after it |
| Utf8.ErrorLen | heed-types/src/str.rs:24 | `Utf8Error::error_len` as `from_utf8` computes it from the bytes at `valid_up_to`: `None` when the input ends inside a character, otherwise the length of the bad sequence, between 1 and 3 and never more than the bytes left |
| Utf8.LeadPrefixIsGrammar | heed-types/src/str.rs:24 | the lead-byte test of a partial character holds exactly for prefixes of some `UTF8-char` |
| Utf8.ErrorLenByLead | heed-types/src/str.rs:24 | where no character starts, `ErrorLen` is `None` exactly on a partial character, and otherwise covers the longest prefix that still passes the lead-byte test (at least 1 byte, at most 3) |
| Utf8.ErrorLenIsGrammar | heed-types/src/str.rs:24 | where no character starts, `ErrorLen` is the `error_len` that `Utf8Error` documents, stated against the RFC grammar |
| Utf8.DecodeOkIffWellFormed | heed-types/src/str.rs:24 | the decoder succeeds exactly on inputs that are a sequence of `UTF8-char` |
| Utf8.DecodeKeepsBytes | heed-types/src/str.rs:24 | on success the decoded string encodes back to exactly the input |
| Utf8.DecodeErrorPosition | heed-types/src/str.rs:24 | on failure the bytes before `valid_up_to` are well formed, no character starts at it, and `error_len` is `ErrorLen` of the bytes from there on |
| Utf8.DecodeEncodeStr | heed-types/src/str.rs:15-25 | decoding the encoding of any string gives the string |
| Utf8.EncodeStrWellFormed | heed-types/src/str.rs:16 | the encoding of any string is well-formed UTF-8 |
| Utf8.EncodeStr | heed-types/src/str.rs:16 | `str::as_bytes`: each character's UTF-8 encoding in order, so a string of `n` characters has between `n` and `4n` bytes |
| Mdb.ReleaseCountAppend | heed/src/txn.rs:113-115 | a fact about the engine stand-in's call log, used by the models of `mdb_txn_commit` and of the `mdb_txn_abort` in `abort_txn`: one more engine call adds one release exactly for the handle it commits or aborts |
| Mdb.ReleaseCountUnmentioned | heed/src/txn.rs:35-44 | a handle no call has mentioned has never been released |
| Mdb.ReleaseCountGrows | heed/src/txn.rs:148-155 | a fact about the engine stand-in's call log, used by `Lifecycle.UnderParent` for a nested write transaction: later engine calls never undo a release |
| Mdb.Env.TxnBegin | heed/src/txn.rs:38-43 | `mdb_txn_begin` either returns success and a fresh, non-null, never-released handle that is now live, or returns an error status with the handle null and nothing live added. No handle is released twice |
| Mdb.Env.TxnCommit | heed/src/txn.rs:94 | `mdb_txn_commit` releases the handle once, whatever status it returns |
| Mdb.Env.TxnAbort | heed/src/txn.rs:114 | `mdb_txn_abort` releases the handle once |
| Txn.MdbResult | heed/src/txn.rs:5 | status 0 is `Ok(())`; any other status is an error carrying it |
| Txn.StatusOfMdbResult | heed/src/txn.rs:5 | the engine status can be read back from the result |
| Txn.AbortTxn | heed/src/txn.rs:111-115 | the handle must be non-null (the assertion is a precondition); it is aborted and released once |
| Txn.RoTxn.New | heed/src/txn.rs:34-47 | one `mdb_txn_begin` with no parent and `MDB_RDONLY`. On success there is a fresh, usable transaction holding the handle the engine returned, with a borrowed environment. On failure it is the engine's error and nothing is live |
| Txn.RoTxn.StaticReadTxn | heed/src/txn.rs:49-62 | as `new`, but the environment is owned |
| Txn.RoTxn.Nested | heed/src/txn.rs:64-78 | one `mdb_txn_begin` with flags 0 and the parent's handle as parent; borrowed environment; the parent stays usable |
| Txn.RoTxn.Commit | heed/src/txn.rs:93-97 | commits the handle and nulls it whether the commit succeeded or not. It returns the engine's result; the handle is released exactly once, and the value is consumed |
| Txn.RoTxn.Drop | heed/src/txn.rs:100-106 | aborts only a non-null handle, which is then released exactly once. A null handle leaves the engine untouched |
| Txn.RwTxn.New | heed/src/txn.rs:140-146 | one `mdb_txn_begin` with no parent and flags 0; on success a fresh usable write transaction, and on failure the engine's error |
| Txn.RwTxn.Nested | heed/src/txn.rs:148-155 | one `mdb_txn_begin` with flags 0 and the parent's handle as parent; the parent stays usable |
| Txn.RwTxn.Commit | heed/src/txn.rs:163-167 | commits the inner handle and nulls it whatever the outcome; returns the engine's result. The handle is released exactly once, and the inner drop does not release it again |
| Txn.RwTxn.Abort | heed/src/txn.rs:171-174 | aborts the inner handle and nulls it; the handle is released exactly once, and the inner drop does not release it again |
| Txn.RwTxn.Drop | heed/src/txn.rs:100-106 | dropping a write transaction that was neither committed nor aborted aborts its handle once |
| Txn.RwTxn.Deref | heed/src/txn.rs:177-183 | a usable write transaction dereferences to a usable `RoTxn` holding the same native handle |
| Lifecycle.End | heed/src/txn.rs:163-174 | commit, abort and drop each release the transaction's handle exactly once and log one releasing call |
| Lifecycle.UnderParent | heed/src/txn.rs:148-155 | a nested child begun under a live parent, then both ended in any way: the child is released once before the parent, and the parent is released once |
| Lifecycle.ParentAndChild | heed/src/txn.rs:93-183 | whatever the engine answers and however each transaction ends, every handle begun is released exactly once and nothing is left live |
| Lifecycle.ReadOnce | heed/src/txn.rs:34-106 | a read transaction that is committed or dropped is released exactly once and leaves nothing live |

## Left out

- `serde_json` and `unaligned_slice` codecs. They are thin wrappers over `serde_json` and `zerocopy`, whose behaviour is outside this repository.
- LMDB's own semantics are not modelled: snapshot isolation, a nested commit folding into its parent, durability, the single-writer mutex that makes a second `begin` block, and the OSX semaphore limit. The engine is a black box whose only state is which handles are live and which calls were made. Commit and begin outcomes are nondeterministic.
- Mdb.Env.TxnBegin: handles come from a counter. This is a stand-in for the engine's allocator and only promises that a new handle is fresh. The real allocator may reuse a freed address.
- Txn.RoTxn.Nested and Txn.RwTxn.Nested: assume that the caller passes the parent's own environment. The source does not check this, and the model does not cover a parent from another environment.
- The model does not stop a parent from being ended while a child is still open; the Rust borrow on `&mut RwTxn` prevents that. `Lifecycle` ends the child first, as the borrow checker forces.
- Rust ownership is a ghost `alive` flag. `commit`, `abort` and drop consume it; the model does not reproduce the borrow checker or `Cow` lifetimes. `Cow<Env>` is a Borrowed/Owned tag.
- `unsafe impl Send`, the `read-txn-no-tls` feature gate on `RoTxn::nested`, and `env_mut_ptr` are not modelled. They are concurrency markers and raw-pointer plumbing.
- `mdb_result` and LMDB's error codes come from `heed/src/mdb`, which is not part of this model. `Txn.MdbResult` takes status 0 as success and any other status as `Error::Mdb(status)`. The `Into` conversion in `commit` is the identity.
- `Debug` and `Display` of the errors, and error message strings.
- `BoxedError` is `Box<dyn Error>` in Rust. Here it is a closed datatype over the modelled codecs' errors, plus one opaque `Custom` case for any other codec.
- BytesCodec.BytesToBytes, BytesCodec.FixedToBytes, UnitCodec.UnitToBytes and StrCodec.StrToBytes: the error type `Infallible` has no values. These return a `Result` whose contract says it is always `Ok`.
- Borrowing versus copying (`&'a [u8]` against `[u8; N]`, `Cow`) is not observable in a value model.
