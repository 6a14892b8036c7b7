/** The part of the LMDB engine that heed's transactions call through FFI:
    `mdb_txn_begin`, `mdb_txn_commit` and `mdb_txn_abort`. The engine is a
    black box. What it decides (success or an error code) is chosen
    nondeterministically. Its state is the set of live transaction handles
    plus a log of every call, from which the number of times each handle
    was released is read off. */
module Mdb {

  /** `*mut MDB_txn`, an opaque handle; 0 is the null pointer. */
  type Handle = nat

  const NULL: Handle := 0

  /** `MDB_SUCCESS`. */
  const MDB_SUCCESS: int := 0

  /** `MDB_RDONLY`, the flag that makes `mdb_txn_begin` open a read-only
      transaction (0x20000 in lmdb.h). */
  const MDB_RDONLY: nat := 0x20000

  /** One call into the engine, with what it returned. */
  datatype FfiCall =
    | TxnBegin(parent: Handle, flags: nat, status: int, txn: Handle)
    | TxnCommit(txn: Handle, status: int)
    | TxnAbort(txn: Handle)
  {
    /** This call ends the life of handle `h`. */
    predicate Releases(h: Handle) {
      (TxnCommit? || TxnAbort?) && txn == h
    }
  }

  /** How many calls in `calls` released `h`. */
  function ReleaseCount(calls: seq<FfiCall>, h: Handle): nat {
    if |calls| == 0 then 0
    else ReleaseCount(calls[..|calls| - 1], h) + (if calls[|calls| - 1].Releases(h) then 1 else 0)
  }

  /** Appending one call adds one release exactly for the handle it
      releases. */
  lemma ReleaseCountAppend(calls: seq<FfiCall>, c: FfiCall, h: Handle)
    ensures ReleaseCount(calls + [c], h) == ReleaseCount(calls, h) + (if c.Releases(h) then 1 else 0)
  {
    assert (calls + [c])[..|calls|] == calls;
  }

  /** A handle that no call mentions has never been released. */
  lemma {:induction false} ReleaseCountUnmentioned(calls: seq<FfiCall>, h: Handle)
    requires forall i :: 0 <= i < |calls| ==> calls[i].txn != h
    ensures ReleaseCount(calls, h) == 0
  {
    if |calls| > 0 {
      ReleaseCountUnmentioned(calls[..|calls| - 1], h);
    }
  }

  /** Later calls never undo a release. */
  lemma {:induction false} ReleaseCountGrows(calls: seq<FfiCall>, more: seq<FfiCall>, h: Handle)
    ensures ReleaseCount(calls + more, h) >= ReleaseCount(calls, h)
  {
    if |more| > 0 {
      var init := more[..|more| - 1];
      assert calls + more == (calls + init) + [more[|more| - 1]];
      ReleaseCountAppend(calls + init, more[|more| - 1], h);
      ReleaseCountGrows(calls, init, h);
    } else {
      assert calls + more == calls;
    }
  }

  /** An LMDB environment (`MDB_env`), as far as transactions see it. */
  class Env {
    /** Where the next fresh handle comes from: a stand-in for the engine's
        allocator, which never hands out a handle that is still in use or
        was used before. */
    var nextHandle: nat
    ghost var live: set<Handle>
    ghost var calls: seq<FfiCall>

    /** The engine's own invariant: live handles are non-null; no handle is
        released twice; a live handle has not been released. */
    ghost predicate Valid()
      reads this
    {
      && NULL !in live
      && 0 < nextHandle
      && (forall h :: h in live ==> h < nextHandle)
      && (forall i :: 0 <= i < |calls| ==> calls[i].txn < nextHandle)
      && (forall h :: ReleaseCount(calls, h) <= 1)
      && (forall h :: h in live ==> ReleaseCount(calls, h) == 0)
    }

    constructor ()
      ensures Valid() && live == {} && calls == []
    {
      nextHandle := 1;
      live := {};
      calls := [];
    }

    /** `mdb_txn_begin(env, parent, flags, &mut txn)`: on success a fresh,
        never-used handle that is now live; on failure a non-zero status and
        the out-parameter left null. */
    method TxnBegin(parent: Handle, flags: nat) returns (status: int, txn: Handle)
      requires Valid()
      requires parent != NULL ==> parent in live
      modifies this
      ensures Valid()
      ensures calls == old(calls) + [FfiCall.TxnBegin(parent, flags, status, txn)]
      ensures status == MDB_SUCCESS ==> txn != NULL && txn !in old(live) && live == old(live) + {txn}
      ensures status == MDB_SUCCESS ==> ReleaseCount(calls, txn) == 0
      ensures status != MDB_SUCCESS ==> txn == NULL && live == old(live)
    {
      status :| true;
      if status == MDB_SUCCESS {
        txn := nextHandle;
        ReleaseCountUnmentioned(calls, txn);
        live := live + {txn};
        nextHandle := nextHandle + 1;
      } else {
        txn := NULL;
      }
      var c := FfiCall.TxnBegin(parent, flags, status, txn);
      forall h ensures ReleaseCount(calls + [c], h) == ReleaseCount(calls, h) {
        ReleaseCountAppend(calls, c, h);
      }
      calls := calls + [c];
    }

    /** `mdb_txn_commit(txn)`: the handle is freed whether the commit
        succeeds or not; the status says which. */
    method TxnCommit(txn: Handle) returns (status: int)
      requires Valid()
      requires txn in live
      modifies this`live, this`calls
      ensures Valid()
      ensures live == old(live) - {txn}
      ensures calls == old(calls) + [FfiCall.TxnCommit(txn, status)]
      ensures ReleaseCount(calls, txn) == 1
    {
      status :| true;
      Release(FfiCall.TxnCommit(txn, status));
    }

    /** `mdb_txn_abort(txn)`: frees the handle; it has no failure path. */
    method TxnAbort(txn: Handle)
      requires Valid()
      requires txn in live
      modifies this`live, this`calls
      ensures Valid()
      ensures live == old(live) - {txn}
      ensures calls == old(calls) + [FfiCall.TxnAbort(txn)]
      ensures ReleaseCount(calls, txn) == 1
    {
      Release(FfiCall.TxnAbort(txn));
    }

    /** Logs a call that releases the live handle `c.txn`. */
    method Release(c: FfiCall)
      requires Valid()
      requires (c.TxnCommit? || c.TxnAbort?) && c.txn in live
      modifies this`live, this`calls
      ensures Valid()
      ensures live == old(live) - {c.txn}
      ensures calls == old(calls) + [c]
      ensures ReleaseCount(calls, c.txn) == 1
    {
      forall h ensures ReleaseCount(calls + [c], h) == ReleaseCount(calls, h) + (if c.Releases(h) then 1 else 0) {
        ReleaseCountAppend(calls, c, h);
      }
      live := live - {c.txn};
      calls := calls + [c];
    }
  }
}
