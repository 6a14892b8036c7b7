/** heed's transactions: `RoTxn` and `RwTxn` over one nullable native handle.
    `commit` and `abort` release the handle through the engine and then null
    the field; `Drop` aborts only a non-null handle. The ghost field `alive`
    stands for Rust's ownership: it is true while the value exists, and
    `commit`, `abort` and the drop at the end of a scope each consume it
    once. */
module Txn {
  import opened Wrappers
  import opened Mdb

  /** `heed::Error`, reduced to the one variant transactions produce. */
  datatype Error = Mdb(code: int)

  /** `mdb_result`: status 0 is success, any other status is an error that
      carries it. */
  function MdbResult(status: int): (r: Result<(), Error>)
    ensures r.Ok? <==> status == MDB_SUCCESS
    ensures r.Err? ==> r.error == Mdb(status)
  {
    if status == MDB_SUCCESS then Ok(()) else Err(Mdb(status))
  }

  /** The engine status a result stands for. */
  function StatusOf(r: Result<(), Error>): int {
    if r.Ok? then MDB_SUCCESS else r.error.code
  }

  /** `mdb_result` loses nothing: the status can be read back. */
  lemma StatusOfMdbResult(status: int)
    ensures StatusOf(MdbResult(status)) == status
  {
  }

  /** `Cow<'e, Env>`: a transaction borrows its environment or owns a
      reference to it. */
  datatype EnvRef = Borrowed(env: Env) | Owned(env: Env)

  /** The last engine call is a `mdb_txn_begin(parent, flags)` and `r`
      reports its outcome: a value holding the new handle, or the engine's
      status as an error. */
  ghost predicate Began(env: Env, before: seq<FfiCall>, parent: Handle, flags: nat,
                        envRef: EnvRef, r: Result<RoTxn, Error>)
    reads env, if r.Ok? then {r.value} else {}
  {
    && |env.calls| == |before| + 1
    && env.calls[..|before|] == before
    && var c := env.calls[|before|];
    && c.TxnBegin? && c.parent == parent && c.flags == flags
    && (r.Ok? <==> c.status == MDB_SUCCESS)
    && (r.Err? ==> r.error == Mdb(c.status))
    && (r.Ok? ==> r.value.txn == c.txn && r.value.env == envRef)
  }

  /** `abort_txn`: the assertion that the handle is not null is a
      precondition every caller must meet. */
  method AbortTxn(env: Env, txn: Handle)
    requires txn != NULL
    requires env.Valid() && txn in env.live
    modifies env`live, env`calls
    ensures env.Valid()
    ensures env.live == old(env.live) - {txn}
    ensures env.calls == old(env.calls) + [FfiCall.TxnAbort(txn)]
    ensures ReleaseCount(env.calls, txn) == 1
  {
    env.TxnAbort(txn);
  }

  /** A read-only transaction. */
  class RoTxn {
    var txn: Handle
    const env: EnvRef
    ghost var alive: bool

    /** The value exists and its handle is null or live. This is what holds
        between the engine call and the end of `commit`. */
    ghost predicate Consistent()
      reads this, env.env
    {
      env.env.Valid() && alive && (txn != NULL ==> txn in env.env.live)
    }

    /** A usable transaction: it exists and holds a live handle. */
    ghost predicate Valid()
      reads this, env.env
    {
      Consistent() && txn != NULL
    }

    /** The struct literal `RoTxn { txn, env }`. */
    constructor (txn: Handle, env: EnvRef)
      ensures this.txn == txn && this.env == env && alive
    {
      this.txn := txn;
      this.env := env;
      alive := true;
    }

    /** `RoTxn::new`: a read-only transaction with no parent that borrows
        the environment. */
    static method New(env: Env) returns (r: Result<RoTxn, Error>)
      requires env.Valid()
      modifies env
      ensures Began(env, old(env.calls), NULL, MDB_RDONLY, Borrowed(env), r)
      ensures r.Ok? ==> fresh(r.value) && r.value.Valid() && r.value.txn !in old(env.live)
      ensures r.Ok? ==> env.live == old(env.live) + {r.value.txn}
      ensures r.Err? ==> env.live == old(env.live)
      ensures env.Valid()
    {
      var status, txn := env.TxnBegin(NULL, MDB_RDONLY);
      if status != MDB_SUCCESS {
        return Err(Mdb(status));
      }
      var t := new RoTxn(txn, Borrowed(env));
      r := Ok(t);
    }

    /** `RoTxn::static_read_txn`: as `new`, but the transaction owns its
        reference to the environment. */
    static method StaticReadTxn(env: Env) returns (r: Result<RoTxn, Error>)
      requires env.Valid()
      modifies env
      ensures Began(env, old(env.calls), NULL, MDB_RDONLY, Owned(env), r)
      ensures r.Ok? ==> fresh(r.value) && r.value.Valid() && r.value.txn !in old(env.live)
      ensures r.Ok? ==> env.live == old(env.live) + {r.value.txn}
      ensures r.Err? ==> env.live == old(env.live)
      ensures env.Valid()
    {
      var status, txn := env.TxnBegin(NULL, MDB_RDONLY);
      if status != MDB_SUCCESS {
        return Err(Mdb(status));
      }
      var t := new RoTxn(txn, Owned(env));
      r := Ok(t);
    }

    /** `RoTxn::nested` (feature `read-txn-no-tls`): a write transaction
        begun under `parent`'s handle, wrapped so that it only reads. */
    static method Nested(env: Env, parent: RwTxn) returns (r: Result<RoTxn, Error>)
      requires parent.Valid() && parent.txn.env.env == env
      modifies env
      ensures Began(env, old(env.calls), old(parent.txn.txn), 0, Borrowed(env), r)
      ensures r.Ok? ==> fresh(r.value) && r.value.Valid() && r.value.txn !in old(env.live)
      ensures r.Ok? ==> env.live == old(env.live) + {r.value.txn}
      ensures r.Err? ==> env.live == old(env.live)
      ensures parent.Valid()
    {
      var parentPtr := parent.txn.txn;
      var status, txn := env.TxnBegin(parentPtr, 0);
      if status != MDB_SUCCESS {
        return Err(Mdb(status));
      }
      var t := new RoTxn(txn, Borrowed(env));
      r := Ok(t);
    }

    /** `RoTxn::commit`: commits the handle, nulls it whether the commit
        succeeded or not, returns the engine's result; then `self` is
        dropped, which finds the handle null and does nothing. */
    method Commit() returns (r: Result<(), Error>)
      requires Valid()
      modifies this, env.env`live, env.env`calls
      ensures !alive && txn == NULL && env.env.Valid()
      ensures env.env.live == old(env.env.live) - {old(txn)}
      ensures env.env.calls == old(env.env.calls) + [FfiCall.TxnCommit(old(txn), StatusOf(r))]
      ensures r.Err? ==> r.error.code != MDB_SUCCESS
      ensures ReleaseCount(env.env.calls, old(txn)) == 1
    {
      var status := env.env.TxnCommit(txn);
      var result := MdbResult(status);
      txn := NULL;
      r := result;
      Drop();
    }

    /** `Drop for RoTxn`: aborts the handle unless it is already null. */
    method Drop()
      requires Consistent()
      modifies this`alive, env.env`live, env.env`calls
      ensures !alive && txn == old(txn) && env.env.Valid()
      ensures old(txn) != NULL ==> env.env.live == old(env.env.live) - {old(txn)}
      ensures old(txn) != NULL ==> env.env.calls == old(env.env.calls) + [FfiCall.TxnAbort(old(txn))]
      ensures old(txn) != NULL ==> ReleaseCount(env.env.calls, old(txn)) == 1
      ensures old(txn) == NULL ==> env.env.live == old(env.env.live) && env.env.calls == old(env.env.calls)
    {
      if txn != NULL {
        AbortTxn(env.env, txn);
      }
      alive := false;
    }
  }

  /** A read-write transaction: a `RoTxn` whose handle was begun writable. */
  class RwTxn {
    const txn: RoTxn

    /** A usable write transaction: its inner `RoTxn` is usable. */
    ghost predicate Valid()
      reads txn, txn.env.env
    {
      txn.Valid()
    }

    /** The struct literal `RwTxn { txn }`. */
    constructor (txn: RoTxn)
      ensures this.txn == txn
    {
      this.txn := txn;
    }

    /** The inner result of a `Result<RwTxn>`, for stating what was begun. */
    static function Inner(r: Result<RwTxn, Error>): Result<RoTxn, Error> {
      if r.Ok? then Ok(r.value.txn) else Err(r.error)
    }

    /** `RwTxn::new`: a writable transaction with no parent, flags 0. */
    static method New(env: Env) returns (r: Result<RwTxn, Error>)
      requires env.Valid()
      modifies env
      ensures Began(env, old(env.calls), NULL, 0, Borrowed(env), Inner(r))
      ensures r.Ok? ==> fresh(r.value) && fresh(r.value.txn) && r.value.Valid()
      ensures r.Ok? ==> r.value.txn.txn !in old(env.live) && env.live == old(env.live) + {r.value.txn.txn}
      ensures r.Err? ==> env.live == old(env.live)
      ensures env.Valid()
    {
      var status, txn := env.TxnBegin(NULL, 0);
      if status != MDB_SUCCESS {
        return Err(Mdb(status));
      }
      var inner := new RoTxn(txn, Borrowed(env));
      var w := new RwTxn(inner);
      r := Ok(w);
    }

    /** `RwTxn::nested`: a child write transaction under `parent`'s handle,
        flags 0. */
    static method Nested(env: Env, parent: RwTxn) returns (r: Result<RwTxn, Error>)
      requires parent.Valid() && parent.txn.env.env == env
      modifies env
      ensures Began(env, old(env.calls), old(parent.txn.txn), 0, Borrowed(env), Inner(r))
      ensures r.Ok? ==> fresh(r.value) && fresh(r.value.txn) && r.value.Valid()
      ensures r.Ok? ==> r.value.txn.txn !in old(env.live) && env.live == old(env.live) + {r.value.txn.txn}
      ensures r.Err? ==> env.live == old(env.live)
      ensures parent.Valid()
    {
      var parentPtr := parent.txn.txn;
      var status, txn := env.TxnBegin(parentPtr, 0);
      if status != MDB_SUCCESS {
        return Err(Mdb(status));
      }
      var inner := new RoTxn(txn, Borrowed(env));
      var w := new RwTxn(inner);
      r := Ok(w);
    }

    /** `RwTxn::commit`: commits the inner handle, nulls it whatever the
        outcome, returns the engine's result; then dropping `self` drops the
        inner `RoTxn`, which finds the handle null. */
    method Commit() returns (r: Result<(), Error>)
      requires Valid()
      modifies txn, txn.env.env`live, txn.env.env`calls
      ensures !txn.alive && txn.txn == NULL && txn.env.env.Valid()
      ensures txn.env.env.live == old(txn.env.env.live) - {old(txn.txn)}
      ensures txn.env.env.calls == old(txn.env.env.calls) + [FfiCall.TxnCommit(old(txn.txn), StatusOf(r))]
      ensures r.Err? ==> r.error.code != MDB_SUCCESS
      ensures ReleaseCount(txn.env.env.calls, old(txn.txn)) == 1
    {
      var env := txn.env.env;
      var status := env.TxnCommit(txn.txn);
      var result := MdbResult(status);
      txn.txn := NULL;
      r := result;
      txn.Drop();
    }

    /** `RwTxn::abort`: aborts the inner handle and nulls it; then dropping
        `self` drops the inner `RoTxn`, which finds the handle null. */
    method Abort()
      requires Valid()
      modifies txn, txn.env.env`live, txn.env.env`calls
      ensures !txn.alive && txn.txn == NULL && txn.env.env.Valid()
      ensures txn.env.env.live == old(txn.env.env.live) - {old(txn.txn)}
      ensures txn.env.env.calls == old(txn.env.env.calls) + [FfiCall.TxnAbort(old(txn.txn))]
      ensures ReleaseCount(txn.env.env.calls, old(txn.txn)) == 1
    {
      AbortTxn(txn.env.env, txn.txn);
      txn.txn := NULL;
      txn.Drop();
    }

    /** Dropping a `RwTxn` without `commit` or `abort`: `RwTxn` has no `Drop`
        of its own, so the inner `RoTxn`'s drop aborts the live handle. */
    method Drop()
      requires Valid()
      modifies txn`alive, txn.env.env`live, txn.env.env`calls
      ensures !txn.alive && txn.env.env.Valid()
      ensures txn.env.env.live == old(txn.env.env.live) - {txn.txn}
      ensures txn.env.env.calls == old(txn.env.env.calls) + [FfiCall.TxnAbort(txn.txn)]
      ensures ReleaseCount(txn.env.env.calls, txn.txn) == 1
    {
      txn.Drop();
    }

    /** `Deref for RwTxn`: a write transaction reads through its inner
        `RoTxn`, with the same native handle. */
    function Deref(): (r: RoTxn)
      reads txn, txn.env.env
      ensures Valid() ==> r.Valid() && r.txn == txn.txn
    {
      txn
    }
  }
}
