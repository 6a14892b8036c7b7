/** A client of the transaction API: every way of ending a transaction
    (commit, abort, or letting it go out of scope) releases its handle
    through the engine exactly once, and a parent with a nested child leaves
    no handle live. */
module Lifecycle {
  import opened Wrappers
  import opened Mdb
  import opened Txn

  /** How a caller ends a write transaction. */
  datatype Ending = CommitIt | AbortIt | DropIt

  /** Every handle that a call from index `from` on began successfully is
      released exactly once in `calls`. */
  ghost predicate ReleasedOnce(calls: seq<FfiCall>, from: nat)
  {
    forall i :: from <= i < |calls| && calls[i].TxnBegin? && calls[i].status == MDB_SUCCESS ==>
      ReleaseCount(calls, calls[i].txn) == 1
  }

  /** Ends `w` the way `how` says. */
  method End(w: RwTxn, how: Ending)
    requires w.Valid()
    modifies w.txn, w.txn.env.env`live, w.txn.env.env`calls
    ensures !w.txn.alive && w.txn.env.env.Valid()
    ensures w.txn.env.env.live == old(w.txn.env.env.live) - {old(w.txn.txn)}
    ensures |w.txn.env.env.calls| == |old(w.txn.env.env.calls)| + 1
    ensures w.txn.env.env.calls[..|old(w.txn.env.env.calls)|] == old(w.txn.env.env.calls)
    ensures w.txn.env.env.calls[|old(w.txn.env.env.calls)|].Releases(old(w.txn.txn))
    ensures ReleaseCount(w.txn.env.env.calls, old(w.txn.txn)) == 1
  {
    match how
    case CommitIt =>
      var _ := w.Commit();
    case AbortIt =>
      w.Abort();
    case DropIt =>
      w.Drop();
  }

  /** A log that grew by exactly one call is the old log plus that call. */
  lemma Extends(x: seq<FfiCall>, y: seq<FfiCall>)
    requires |x| == |y| + 1 && x[..|y|] == y
    ensures x == y + [x[|y|]]
  {
  }

  /** A begin that failed leaves nothing to release. */
  lemma FailedBegin(start: seq<FfiCall>, b: FfiCall)
    requires b.TxnBegin? && b.status != MDB_SUCCESS
    ensures ReleasedOnce(start + [b], |start|)
  {
  }

  /** One begin followed by one release of that handle. */
  lemma BeginThenRelease(start: seq<FfiCall>, b: FfiCall, e: FfiCall)
    requires b.TxnBegin? && !e.TxnBegin?
    requires b.status == MDB_SUCCESS ==> ReleaseCount(start + [b, e], b.txn) == 1
    ensures ReleasedOnce(start + [b, e], |start|)
  {
    var all := start + [b, e];
    assert all[|start|] == b && all[|start| + 1] == e;
  }

  /** A parent begun, a child whose begin failed, the parent released. */
  lemma ParentOnly(start: seq<FfiCall>, bp: FfiCall, bc: FfiCall, ep: FfiCall)
    requires bp.TxnBegin? && bc.TxnBegin? && bc.status != MDB_SUCCESS && !ep.TxnBegin?
    requires bp.status == MDB_SUCCESS ==> ReleaseCount(start + [bp, bc, ep], bp.txn) == 1
    ensures ReleasedOnce(start + [bp, bc, ep], |start|)
  {
    var all := start + [bp, bc, ep];
    assert all[|start|] == bp && all[|start| + 1] == bc && all[|start| + 2] == ep;
  }

  /** A parent and a child begun, then both released. */
  lemma ParentThenChild(start: seq<FfiCall>, bp: FfiCall, bc: FfiCall, ec: FfiCall, ep: FfiCall)
    requires bp.TxnBegin? && bc.TxnBegin? && !ec.TxnBegin? && !ep.TxnBegin?
    requires ReleaseCount(start + [bp, bc, ec, ep], bp.txn) == 1
    requires ReleaseCount(start + [bp, bc, ec, ep], bc.txn) == 1
    ensures ReleasedOnce(start + [bp, bc, ec, ep], |start|)
  {
    var all := start + [bp, bc, ec, ep];
    assert all[|start|] == bp && all[|start| + 1] == bc;
    assert all[|start| + 2] == ec && all[|start| + 3] == ep;
  }

  /** Under a live write transaction `w`, begin a child, end it with
      `child`, then end `w` with `parent`. */
  method UnderParent(env: Env, w: RwTxn, child: Ending, parent: Ending) returns (ghost tail: seq<FfiCall>)
    requires w.Valid() && w.txn.env.env == env
    modifies env, w.txn
    ensures env.Valid()
    ensures env.live == old(env.live) - {old(w.txn.txn)}
    ensures env.calls == old(env.calls) + tail
    ensures |tail| == 2 || |tail| == 3
    ensures tail[0].TxnBegin? && tail[|tail| - 1].Releases(old(w.txn.txn))
    ensures |tail| == 2 ==> tail[0].status != MDB_SUCCESS && ReleaseCount(env.calls, old(w.txn.txn)) == 1
    ensures |tail| == 3 ==> !tail[1].TxnBegin? && ReleaseCount(env.calls, old(w.txn.txn)) == 1
    ensures |tail| == 3 ==> ReleaseCount(env.calls, tail[0].txn) == 1
    ensures |tail| == 3 ==> tail[0].status == MDB_SUCCESS && tail[0].txn != old(w.txn.txn) && tail[1].Releases(tail[0].txn)
  {
    ghost var start := env.calls;
    ghost var ph := w.txn.txn;
    var c := RwTxn.Nested(env, w);
    ghost var bc := env.calls[|start|];
    Extends(env.calls, start);
    ghost var afterBegin := env.calls;
    if c.Ok? {
      var cw := c.value;
      assert bc.txn == cw.txn.txn && bc.txn != ph;
      End(cw, child);
      ghost var ec := env.calls[|afterBegin|];
      Extends(env.calls, afterBegin);
      ghost var afterChild := env.calls;
      End(w, parent);
      ghost var ep := env.calls[|afterChild|];
      Extends(env.calls, afterChild);
      // The parent's release comes after the child's and does not undo it.
      ReleaseCountGrows(afterChild, [ep], bc.txn);
      tail := [bc, ec, ep];
    } else {
      End(w, parent);
      ghost var ep := env.calls[|afterBegin|];
      Extends(env.calls, afterBegin);
      tail := [bc, ep];
    }
  }

  /** Begin a write transaction, begin a child under it, end the child with
      `child` and then the parent with `parent`. Whatever the engine answers
      and whichever endings are chosen, the live set is as before and each
      handle begun here was released exactly once. */
  method ParentAndChild(env: Env, child: Ending, parent: Ending)
    requires env.Valid()
    modifies env
    ensures env.Valid()
    ensures env.live == old(env.live)
    ensures |env.calls| >= |old(env.calls)| && env.calls[..|old(env.calls)|] == old(env.calls)
    ensures ReleasedOnce(env.calls, |old(env.calls)|)
  {
    ghost var start := env.calls;
    var p := RwTxn.New(env);
    ghost var bp := env.calls[|start|];
    Extends(env.calls, start);
    if p.Err? {
      FailedBegin(start, bp);
      return;
    }
    var w := p.value;
    assert bp.txn == w.txn.txn && bp.status == MDB_SUCCESS;
    ghost var tail := UnderParent(env, w, child, parent);
    if |tail| == 3 {
      assert env.calls == start + [bp, tail[0], tail[1], tail[2]];
      ParentThenChild(start, bp, tail[0], tail[1], tail[2]);
    } else {
      assert env.calls == start + [bp, tail[0], tail[1]];
      ParentOnly(start, bp, tail[0], tail[1]);
    }
  }

  /** Begin a read transaction and either commit it or let it go out of
      scope: either way the handle is released once and nothing stays
      live. */
  method ReadOnce(env: Env, commit: bool)
    requires env.Valid()
    modifies env
    ensures env.Valid()
    ensures env.live == old(env.live)
    ensures |env.calls| >= |old(env.calls)| && env.calls[..|old(env.calls)|] == old(env.calls)
    ensures ReleasedOnce(env.calls, |old(env.calls)|)
  {
    ghost var start := env.calls;
    var r := RoTxn.New(env);
    ghost var b := env.calls[|start|];
    Extends(env.calls, start);
    if r.Err? {
      FailedBegin(start, b);
      return;
    }
    var t := r.value;
    assert b.txn == t.txn;
    ghost var afterBegin := env.calls;
    if commit {
      var _ := t.Commit();
    } else {
      t.Drop();
    }
    ghost var e := env.calls[|afterBegin|];
    Extends(env.calls, afterBegin);
    assert env.calls == start + [b, e];
    BeginThenRelease(start, b, e);
  }
}
