/** The retention loops as they are written, over a client that lists rows in any order it likes and
    may fail at any call. */
module Retention {
  import opened Options
  import opened Sorting
  import opened RetentionModel

  const DEFAULT_BATCH_SIZE := 1000

  // The statuses asked for, and the latest creation time, which is included.
  datatype Filter = Filter(statuses: set<Status>, createdBefore: int)

  function Matching(t: Table, f: Filter): set<string> {
    set id | id in t && t[id].status in f.statuses && t[id].created <= f.createdBefore
  }

  ghost predicate IsBatch(t: Table, f: Filter, limit: nat, ids: seq<string>) {
    && NoDuplicates(ids)
    && (forall id <- ids :: id in Matching(t, f))
    && |ids| == if |Matching(t, f)| < limit then |Matching(t, f)| else limit
  }

  function Elements(ids: seq<string>): set<string> { set id | id in ids }

  lemma {:induction false} ElementCount(ids: seq<string>)
    requires NoDuplicates(ids)
    ensures |Elements(ids)| == |ids|
    decreases |ids|
  {
    if ids != [] {
      ElementCount(ids[1..]);
      assert ids == [ids[0]] + ids[1..];
      assert Elements(ids) == {ids[0]} + Elements(ids[1..]);
    }
  }

  // A short batch is all there is; a full one is not empty.
  lemma BatchCovers(t: Table, f: Filter, limit: nat, ids: seq<string>)
    requires IsBatch(t, f, limit, ids)
    ensures Elements(ids) <= Matching(t, f)
    ensures |ids| < limit ==> Elements(ids) == Matching(t, f)
    ensures ids == [] && limit > 0 ==> Matching(t, f) == {}
    ensures ids != [] ==> Elements(ids) != {}
  {
    ElementCount(ids);
    SubsetIsSmaller(Elements(ids), Matching(t, f));
    if ids != [] { assert ids[0] in Elements(ids); }
  }

  function WithCancelled(t: Table, ids: set<string>): Table {
    map id | id in t :: if id in ids then t[id].(status := Cancelled) else t[id]
  }

  /** The workflow table behind its client. */
  class WorkflowClient {
    var rows: Table
    const reliable: bool // whether no call ever fails

    constructor (rows: Table, reliable: bool)
      ensures this.rows == rows && this.reliable == reliable
    {
      this.rows, this.reliable := rows, reliable;
    }

    method ListWorkflows(f: Filter, limit: nat) returns (res: Option<seq<string>>)
      ensures res.Some? ==> IsBatch(rows, f, limit, res.value)
      ensures res.None? ==> !reliable
    {
      if * { if !reliable { return None; } }
      var ids: seq<string>, left := [], Matching(rows, f);
      while |ids| < limit && left != {}
        invariant NoDuplicates(ids) && left <= Matching(rows, f) && |ids| <= limit
        invariant forall id :: id in ids <==> id in Matching(rows, f) - left
        invariant |ids| + |left| == |Matching(rows, f)|
        decreases |left|
      {
        var id :| id in left;
        assert id !in ids;
        left := left - {id};
        ids := ids + [id];
      }
      return Some(ids);
    }

    // The creation times of the terminal rows, newest first: at most one, after skipping offset.
    method ListNewestTerminal(offset: nat) returns (res: Option<seq<int>>)
      ensures res.Some? ==> |res.value| == if |Terminals(rows)| > offset then 1 else 0
      ensures res.Some? && res.value != [] ==> IsNthNewest(rows, offset + 1, res.value[0])
      ensures res.None? ==> !reliable
    {
      if * { if !reliable { return None; } }
      if |Terminals(rows)| <= offset {
        return Some([]);
      }
      ghost var nth := NthNewestExists(rows, offset + 1);
      var id :| id in rows && IsNthNewest(rows, offset + 1, rows[id].created);
      return Some([rows[id].created]);
    }

    // A failed call may have deleted some of them.
    method DeleteWorkflows(ids: seq<string>) returns (ok: bool)
      modifies this`rows
      ensures DeletesOnly(old(rows), rows, Elements(ids))
      ensures ok ==> rows == old(rows) - Elements(ids)
      ensures !ok ==> !reliable
    {
      ok := *;
      ok := ok || reliable;
      var part: set<string> := *;
      rows := rows - if ok then Elements(ids) else part * Elements(ids);
    }

    // A failed call may have cancelled some of them.
    method CancelWorkflows(ids: seq<string>) returns (ok: bool)
      modifies this`rows
      ensures CancelsOnly(old(rows), rows, Elements(ids))
      ensures ok ==> rows == WithCancelled(old(rows), Elements(ids))
      ensures !ok ==> !reliable
    {
      ok := *;
      ok := ok || reliable;
      var part: set<string> := *;
      rows := WithCancelled(rows, if ok then Elements(ids) else part * Elements(ids));
    }
  }

  // What a request may do at most, should the client fail part of the way.
  ghost predicate DeletesOnly(t: Table, u: Table, ids: set<string>) {
    u.Keys <= t.Keys && t.Keys - u.Keys <= ids && forall id :: id in u ==> u[id] == t[id]
  }

  ghost predicate CancelsOnly(t: Table, u: Table, ids: set<string>) {
    u.Keys == t.Keys && forall id :: id in u ==> u[id] == t[id] || (id in ids && u[id] == t[id].(status := Cancelled))
  }

  lemma DeletesOnlyInSteps(t: Table, u: Table, v: Table, ids: set<string>, more: set<string>)
    requires DeletesOnly(t, u, ids) && DeletesOnly(u, v, more) && more <= ids
    ensures DeletesOnly(t, v, ids)
  {
  }

  lemma CancelsOnlyInSteps(t: Table, u: Table, v: Table, ids: set<string>, more: set<string>)
    requires CancelsOnly(t, u, ids) && CancelsOnly(u, v, more) && more <= ids
    ensures CancelsOnly(t, v, ids)
  {
  }

  // Deleting one batch brings the table closer to the same result.
  lemma DeletedBatch(t: Table, cutoff: int, batch: set<string>)
    requires batch <= Deletable(t, Some(cutoff)) && batch != {}
    ensures var u := t - batch;
      && Deletable(u, Some(cutoff)) < Deletable(t, Some(cutoff))
      && u - Deletable(u, Some(cutoff)) == t - Deletable(t, Some(cutoff))
  {
    var u, due := t - batch, Deletable(t, Some(cutoff));
    assert Deletable(u, Some(cutoff)) == due - batch;
    assert u - (due - batch) == t - due;
    var id :| id in batch;
    assert id !in due - batch;
  }

  /** For every batch size from 1 and every order of listing, the loop ends, and without a failed
      call it has deleted exactly the terminal rows created strictly before the cutoff. */
  method DeleteTerminalWorkflowsBefore(cli: WorkflowClient, cutoff: int, batchSize: nat) returns (ok: bool)
    requires batchSize >= 1
    modifies cli`rows
    ensures DeletesOnly(old(cli.rows), cli.rows, Deletable(old(cli.rows), Some(cutoff)))
    ensures ok ==> cli.rows == old(cli.rows) - Deletable(old(cli.rows), Some(cutoff))
    ensures cli.reliable ==> ok
  {
    var exclusiveBefore := cutoff - 1;
    ghost var start, due := cli.rows, Deletable(cli.rows, Some(cutoff));
    while true
      invariant DeletesOnly(start, cli.rows, due) && Deletable(cli.rows, Some(cutoff)) <= due
      invariant cli.rows - Deletable(cli.rows, Some(cutoff)) == start - due
      decreases Deletable(cli.rows, Some(cutoff))
    {
      var rows := cli.ListWorkflows(Filter(TERMINAL, exclusiveBefore), batchSize);
      if rows.None? {
        return false;
      }
      assert Matching(cli.rows, Filter(TERMINAL, exclusiveBefore)) == Deletable(cli.rows, Some(cutoff));
      hide Deletable, Matching, DeletesOnly, Elements;
      BatchCovers(cli.rows, Filter(TERMINAL, exclusiveBefore), batchSize, rows.value);
      hide IsBatch;
      if |rows.value| == 0 {
        return true;
      }
      ghost var before := cli.rows;
      var deleted := cli.DeleteWorkflows(rows.value);
      DeletesOnlyInSteps(start, before, cli.rows, due, Elements(rows.value));
      if !deleted {
        return false;
      }
      DeletedBatch(before, cutoff, Elements(rows.value));
      if |rows.value| < batchSize {
        return true;
      }
    }
  }

  function Overdue(t: Table, status: Status, cutoff: int): set<string> {
    set id | id in t && t[id].status == status && t[id].created <= cutoff
  }

  lemma CancelledBatch(t: Table, status: Status, cutoff: int, batch: set<string>)
    requires status != Cancelled && batch <= Overdue(t, status, cutoff) && batch != {}
    ensures var u := WithCancelled(t, batch);
      && Overdue(u, status, cutoff) < Overdue(t, status, cutoff)
      && WithCancelled(u, Overdue(u, status, cutoff)) == WithCancelled(t, Overdue(t, status, cutoff))
  {
    var u, due := WithCancelled(t, batch), Overdue(t, status, cutoff);
    assert Overdue(u, status, cutoff) == due - batch;
    assert WithCancelled(u, due - batch) == WithCancelled(t, due);
    var id :| id in batch;
    assert id !in due - batch;
  }

  // One status of the two.
  method CancelStatusBefore(cli: WorkflowClient, status: Status, cutoff: int, batchSize: nat) returns (ok: bool)
    requires batchSize >= 1 && status != Cancelled
    modifies cli`rows
    ensures CancelsOnly(old(cli.rows), cli.rows, Overdue(old(cli.rows), status, cutoff))
    ensures ok ==> cli.rows == WithCancelled(old(cli.rows), Overdue(old(cli.rows), status, cutoff))
    ensures cli.reliable ==> ok
  {
    ghost var start, due := cli.rows, Overdue(cli.rows, status, cutoff);
    while true
      invariant CancelsOnly(start, cli.rows, due) && Overdue(cli.rows, status, cutoff) <= due
      invariant WithCancelled(cli.rows, Overdue(cli.rows, status, cutoff)) == WithCancelled(start, due)
      decreases Overdue(cli.rows, status, cutoff)
    {
      var rows := cli.ListWorkflows(Filter({status}, cutoff), batchSize);
      if rows.None? {
        return false;
      }
      assert Matching(cli.rows, Filter({status}, cutoff)) == Overdue(cli.rows, status, cutoff);
      hide Overdue, Matching, CancelsOnly, Elements;
      BatchCovers(cli.rows, Filter({status}, cutoff), batchSize, rows.value);
      hide IsBatch;
      if |rows.value| == 0 {
        assert WithCancelled(cli.rows, {}) == cli.rows;
        return true;
      }
      ghost var before := cli.rows;
      var cancelled := cli.CancelWorkflows(rows.value);
      CancelsOnlyInSteps(start, before, cli.rows, due, Elements(rows.value));
      if !cancelled {
        return false;
      }
      CancelledBatch(before, status, cutoff, Elements(rows.value));
      if |rows.value| < batchSize {
        return true;
      }
    }
  }

  function AllTimedOut(t: Table, timeout: int): set<string> {
    set id | id in t && TimesOut(t[id], Some(timeout))
  }

  method CancelActiveWorkflowsBefore(cli: WorkflowClient, cutoff: int, batchSize: nat) returns (ok: bool)
    requires batchSize >= 1
    modifies cli`rows
    ensures CancelsOnly(old(cli.rows), cli.rows, AllTimedOut(old(cli.rows), cutoff))
    ensures ok ==> cli.rows == WithTimeouts(old(cli.rows), Some(cutoff))
    ensures cli.reliable ==> ok
  {
    var statuses := [Pending, Enqueued];
    var i := 0;
    while i < |statuses|
      invariant 0 <= i <= 2
      invariant i == 0 ==> cli.rows == old(cli.rows)
      invariant i == 1 ==> cli.rows == WithCancelled(old(cli.rows), Overdue(old(cli.rows), Pending, cutoff))
      invariant i == 2 ==> cli.rows == WithTimeouts(old(cli.rows), Some(cutoff))
    {
      var cancelled := CancelStatusBefore(cli, statuses[i], cutoff, batchSize);
      if !cancelled {
        return false;
      }
      i := i + 1;
    }
    return true;
  }

  datatype Resolved = Cutoff(at: Option<int>) | Refused | Unreachable

  method RetentionCutoff(cli: WorkflowClient, req: Request) returns (res: Resolved)
    ensures res.Refused? <==> req.rowsThreshold.Some? && req.rowsThreshold.value <= 0
    ensures res.Cutoff? && Acceptable(req) ==> res.at == CutoffOf(cli.rows, req)
    ensures res.Unreachable? ==> !cli.reliable
  {
    var cutoff := None;
    if req.gcCutoff.Some? {
      cutoff := req.gcCutoff;
    }
    if req.rowsThreshold.Some? {
      var threshold := req.rowsThreshold.value;
      if threshold <= 0 {
        return Refused;
      }
      var rows := cli.ListNewestTerminal(threshold - 1);
      if rows.None? {
        return Unreachable;
      }
      if |rows.value| == 1 {
        var rowsCutoff := rows.value[0];
        NthNewestIsUnique(cli.rows, threshold, rowsCutoff, NthNewest(cli.rows, threshold).value);
        if cutoff.None? || rowsCutoff > cutoff.value {
          cutoff := Some(rowsCutoff);
        }
      }
    }
    return Cutoff(cutoff);
  }

  // No row outside the request's reach is touched, whatever fails.
  ghost predicate Within(t: Table, u: Table, req: Request)
    requires Acceptable(req)
  {
    && u.Keys <= t.Keys
    && t.Keys - u.Keys <= Deletable(t, CutoffOf(t, req))
    && forall id :: id in u ==>
      u[id] == t[id] || (TimesOut(t[id], req.timeoutCutoff) && u[id] == t[id].(status := Cancelled))
  }

  /** The whole request. A request that is not acceptable changes nothing; otherwise, when no call
      fails, the table becomes what the one-step specification says, for every batch size and
      every order of listing; and a failure part of the way touches no row out of reach. */
  method EnforceRetention(cli: WorkflowClient, req: Request) returns (ok: bool)
    modifies cli`rows
    ensures !Acceptable(req) ==> !ok && cli.rows == old(cli.rows)
    ensures ok ==> cli.rows == Enforced(old(cli.rows), req)
    ensures Acceptable(req) ==> Within(old(cli.rows), cli.rows, req)
    ensures Acceptable(req) && cli.reliable ==> ok
  {
    var batchSize := DEFAULT_BATCH_SIZE;
    if req.batchSize.Some? {
      if req.batchSize.value < 0 {
        return false;
      }
      if req.batchSize.value > 0 {
        batchSize := req.batchSize.value;
      }
    }
    var cutoff := RetentionCutoff(cli, req);
    if !cutoff.Cutoff? {
      return false;
    }
    if cutoff.at.Some? {
      var deleted := DeleteTerminalWorkflowsBefore(cli, cutoff.at.value, batchSize);
      if !deleted {
        return false;
      }
    }
    if req.timeoutCutoff.Some? {
      var cancelled := CancelActiveWorkflowsBefore(cli, req.timeoutCutoff.value, batchSize);
      if !cancelled {
        return false;
      }
    }
    return true;
  }
}
