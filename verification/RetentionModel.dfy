/** What a retention request is to do to a workflow table, said in one step: which rows go, which
    are cancelled, and which cutoff decides. */
module RetentionModel {
  import opened Options

  datatype Status = Pending | Enqueued | Delayed | Success | Error | Cancelled | MaxRecoveryAttemptsExceeded

  // created is in milliseconds, the precision the table stores.
  datatype Row = Row(created: int, status: Status)

  type Table = map<string, Row>

  datatype Request = Request(
    gcCutoff: Option<int>,
    rowsThreshold: Option<int>,
    batchSize: Option<int>,
    timeoutCutoff: Option<int>)

  const TERMINAL := {Success, Error, Cancelled, MaxRecoveryAttemptsExceeded}

  predicate Acceptable(req: Request) {
    && (req.batchSize.Some? ==> req.batchSize.value >= 0)
    && (req.rowsThreshold.Some? ==> req.rowsThreshold.value > 0)
  }

  predicate Terminal(t: Table, id: string) { id in t && t[id].status in TERMINAL }

  // ---- The Nth newest terminal row -------------------------------------------------------

  function AtLeast(t: Table, x: int): set<string> { set id | id in t && Terminal(t, id) && t[id].created >= x }

  function Newer(t: Table, x: int): set<string> { set id | id in t && Terminal(t, id) && t[id].created > x }

  function Terminals(t: Table): set<string> { set id | id in t && Terminal(t, id) }

  // Row N of the terminal rows, newest first, was created at x, whichever way ties fall.
  predicate IsNthNewest(t: Table, n: int, x: int) { |Newer(t, x)| < n <= |AtLeast(t, x)| }

  lemma SubsetIsSmaller<T>(a: set<T>, b: set<T>)
    requires a <= b
    ensures |a| <= |b| && (|a| == |b| ==> a == b)
  {
    assert |b| == |a| + |b - a| by { assert b == a + (b - a); }
    if |b - a| == 0 { assert b - a == {}; }
  }

  lemma {:induction false} OldestOf(t: Table, ids: set<string>) returns (oldest: string)
    requires ids != {} && ids <= t.Keys
    ensures oldest in ids && forall id <- ids :: t[oldest].created <= t[id].created
    decreases |ids|
  {
    var one :| one in ids;
    if ids == {one} {
      oldest := one;
    } else {
      assert ids - {one} != {};
      var other := OldestOf(t, ids - {one});
      oldest := if t[one].created <= t[other].created then one else other;
      forall id | id in ids ensures t[oldest].created <= t[id].created { if id != one { assert id in ids - {one}; } }
    }
  }

  lemma {:induction false} NthNewestFrom(t: Table, n: int, start: string) returns (nth: string)
    requires Terminal(t, start) && n >= 1 && |AtLeast(t, t[start].created)| >= n
    ensures Terminal(t, nth) && IsNthNewest(t, n, t[nth].created)
    decreases |AtLeast(t, t[start].created)|
  {
    var x := t[start].created;
    if |Newer(t, x)| < n {
      nth := start;
    } else {
      assert Newer(t, x) != {};
      var next := OldestOf(t, Newer(t, x));
      assert AtLeast(t, t[next].created) == Newer(t, x);
      assert start in AtLeast(t, x) && start !in Newer(t, x) && Newer(t, x) <= AtLeast(t, x);
      SubsetIsSmaller(Newer(t, x), AtLeast(t, x));
      nth := NthNewestFrom(t, n, next);
    }
  }

  lemma NthNewestExists(t: Table, n: int) returns (nth: string)
    requires 1 <= n <= |Terminals(t)|
    ensures Terminal(t, nth) && IsNthNewest(t, n, t[nth].created)
  {
    assert Terminals(t) != {};
    var oldest := OldestOf(t, Terminals(t));
    assert AtLeast(t, t[oldest].created) == Terminals(t);
    nth := NthNewestFrom(t, n, oldest);
  }

  lemma NthNewestIsUnique(t: Table, n: int, x: int, y: int)
    requires IsNthNewest(t, n, x) && IsNthNewest(t, n, y)
    ensures x == y
  {
    SubsetIsSmaller(AtLeast(t, if x < y then y else x), if x < y then Newer(t, x) else AtLeast(t, x));
    SubsetIsSmaller(AtLeast(t, if y < x then x else y), if y < x then Newer(t, y) else AtLeast(t, y));
  }

  ghost function NthNewest(t: Table, n: int): (r: Option<int>)
    requires n >= 1
    ensures r.Some? <==> |Terminals(t)| >= n
    ensures r.Some? ==> IsNthNewest(t, n, r.value)
  {
    if |Terminals(t)| < n then None
    else
      assert exists x :: IsNthNewest(t, n, x) by { var nth := NthNewestExists(t, n); }
      var x :| IsNthNewest(t, n, x);
      Some(x)
  }

  // ---- The one-step specification --------------------------------------------------------

  // The later of two cutoffs, either of which may be absent.
  function Later(a: Option<int>, b: Option<int>): Option<int> {
    if a.None? then b else if b.None? || b.value <= a.value then a else b
  }

  ghost function CutoffOf(t: Table, req: Request): Option<int>
    requires Acceptable(req)
  {
    Later(req.gcCutoff, if req.rowsThreshold.None? then None else NthNewest(t, req.rowsThreshold.value))
  }

  function Deletable(t: Table, cutoff: Option<int>): set<string> {
    set id | id in t && Terminal(t, id) && cutoff.Some? && t[id].created < cutoff.value
  }

  ghost function Collected(t: Table, req: Request): Table
    requires Acceptable(req)
  {
    t - Deletable(t, CutoffOf(t, req))
  }

  predicate TimesOut(r: Row, timeout: Option<int>) {
    timeout.Some? && (r.status == Pending || r.status == Enqueued) && r.created <= timeout.value
  }

  function WithTimeouts(t: Table, timeout: Option<int>): Table {
    map id | id in t :: if TimesOut(t[id], timeout) then t[id].(status := Cancelled) else t[id]
  }

  ghost function Enforced(t: Table, req: Request): Table
    requires Acceptable(req)
  {
    WithTimeouts(Collected(t, req), req.timeoutCutoff)
  }

  // ---- What follows from it --------------------------------------------------------------

  // Older than either cutoff.
  ghost predicate TooOld(t: Table, req: Request, created: int)
    requires Acceptable(req)
  {
    || (req.gcCutoff.Some? && created < req.gcCutoff.value)
    || (req.rowsThreshold.Some?
        && NthNewest(t, req.rowsThreshold.value).Some? && created < NthNewest(t, req.rowsThreshold.value).value)
  }

  /** What becomes of each row, by its status: a delayed one stays as it is; a pending or enqueued one
      stays, and is cancelled exactly when it was created at or before the timeout cutoff; one that has
      succeeded, failed, been cancelled or run out of attempts is deleted exactly when it is older than
      a cutoff, and otherwise stays as it is. No row is added. */
  lemma EachRowsFate(t: Table, req: Request, id: string)
    requires Acceptable(req)
    ensures var u := Enforced(t, req);
      && (id in u ==> id in t)
      && (id in t && t[id].status.Delayed? ==> id in u && u[id] == t[id])
      && (id in t && (t[id].status.Pending? || t[id].status.Enqueued?) ==>
        && id in u
        && u[id] == if req.timeoutCutoff.Some? && t[id].created <= req.timeoutCutoff.value
                    then Row(t[id].created, Cancelled) else t[id])
      && (id in t && (t[id].status.Success? || t[id].status.Error? || t[id].status.Cancelled?
                      || t[id].status.MaxRecoveryAttemptsExceeded?) ==>
        && (id !in u <==> TooOld(t, req, t[id].created))
        && (id in u ==> u[id] == t[id]))
  {
    hide NthNewest;
  }

  /** With only a rows threshold N, every terminal row no older than the Nth newest is kept, so at
      least min(N, count) are; with fewer than N of them nothing is deleted. */
  lemma RowsThresholdKeepsTheNewest(t: Table, req: Request)
    requires Acceptable(req) && req.gcCutoff.None? && req.rowsThreshold.Some?
    ensures var n, u := req.rowsThreshold.value, Collected(t, req);
      && (|Terminals(t)| < n ==> u == t)
      && (|Terminals(t)| >= n ==> |Terminals(u)| >= n
                                  && Terminals(u) == AtLeast(t, NthNewest(t, n).value))
      && (forall id :: id in t && !Terminal(t, id) ==> id in u)
  {
    var n, u := req.rowsThreshold.value, Collected(t, req);
    if |Terminals(t)| >= n {
      assert Terminals(u) == AtLeast(t, NthNewest(t, n).value);
    } else {
      assert Deletable(t, None) == {};
    }
  }

  // Dropping rows older than x leaves the Nth newest alone when it is x or newer.
  lemma NthNewestAfterDeletion(t: Table, n: int, x: int)
    requires n >= 1
    ensures var u := t - Deletable(t, Some(x));
      NthNewest(u, n) ==
        if NthNewest(t, n).Some? && NthNewest(t, n).value >= x then NthNewest(t, n) else None
  {
    var u := t - Deletable(t, Some(x));
    assert forall y :: y >= x ==> AtLeast(u, y) == AtLeast(t, y) && Newer(u, y) == Newer(t, y);
    assert Terminals(u) == AtLeast(t, x);
    var r := NthNewest(t, n);
    if r.Some? && r.value >= x {
      SubsetIsSmaller(AtLeast(t, r.value), AtLeast(t, x));
      NthNewestIsUnique(u, n, r.value, NthNewest(u, n).value);
    } else if r.Some? {
      SubsetIsSmaller(AtLeast(t, x), Newer(t, r.value));
    } else {
      SubsetIsSmaller(AtLeast(t, x), Terminals(t));
    }
  }

  /** Collecting twice is collecting once, for every mix of the two thresholds. */
  lemma CollectingIsIdempotent(t: Table, req: Request)
    requires Acceptable(req)
    ensures Collected(Collected(t, req), req) == Collected(t, req)
  {
    var cutoff, u := CutoffOf(t, req), Collected(t, req);
    if cutoff.Some? {
      if req.rowsThreshold.Some? {
        NthNewestAfterDeletion(t, req.rowsThreshold.value, cutoff.value);
      }
      assert CutoffOf(u, req) == cutoff;
      assert Deletable(u, cutoff) == {};
    } else {
      assert Deletable(t, None) == {};
      assert u == t;
    }
  }

  // The rows that are terminal after one run: those it cancels, and the terminal ones it keeps.
  ghost function StillTerminal(t: Table, req: Request): set<string>
    requires Acceptable(req)
  {
    set id | id in t
      && (TimesOut(t[id], req.timeoutCutoff) || (Terminal(t, id) && id !in Deletable(t, CutoffOf(t, req))))
  }

  // How many of them are newer than a row.
  ghost function NewerStill(t: Table, req: Request, id: string): set<string>
    requires Acceptable(req) && id in t
  {
    set j | j in StillTerminal(t, req) && t[j].created > t[id].created
  }

  // A row no older than the time cutoff, and among the N newest.
  ghost predicate Stays(t: Table, req: Request, id: string)
    requires Acceptable(req) && id in t
  {
    && (req.gcCutoff.Some? ==> t[id].created >= req.gcCutoff.value)
    && (req.rowsThreshold.Some? ==> |NewerStill(t, req, id)| < req.rowsThreshold.value)
  }

  // Being older than the Nth newest is having N newer ones.
  lemma OlderThanNthNewest(t: Table, n: int, c: int)
    requires n >= 1
    ensures NthNewest(t, n).Some? && c < NthNewest(t, n).value <==> |Newer(t, c)| >= n
  {
    var nth := NthNewest(t, n);
    SubsetIsSmaller(Newer(t, c), Terminals(t));
    if nth.Some? {
      if c < nth.value {
        SubsetIsSmaller(AtLeast(t, nth.value), Newer(t, c));
      } else {
        SubsetIsSmaller(Newer(t, c), Newer(t, nth.value));
      }
    }
  }

  lemma SecondCollectionSpares(t: Table, req: Request, id: string)
    requires Acceptable(req) && id in StillTerminal(t, req)
    ensures id in t && id in Enforced(t, req)
    ensures id !in Deletable(Enforced(t, req), CutoffOf(Enforced(t, req), req)) <==> Stays(t, req, id)
  {
    var u := Enforced(t, req);
    assert Terminals(u) == StillTerminal(t, req);
    assert Newer(u, u[id].created) == NewerStill(t, req, id);
    if req.rowsThreshold.Some? {
      OlderThanNthNewest(u, req.rowsThreshold.value, u[id].created);
    }
  }

  // A second run cancels nothing more, so that it comes down to what it deletes.
  lemma SecondRunOnlyDeletes(t: Table, req: Request)
    requires Acceptable(req)
    ensures var u := Enforced(t, req);
      Enforced(u, req) == u <==> Deletable(u, CutoffOf(u, req)) == {}
  {
    var u := Enforced(t, req);
    var gone := Deletable(u, CutoffOf(u, req));
    assert Enforced(u, req) == u - gone;
    if id :| id in gone {
      assert id in u && id !in u - gone;
    }
  }

  /** The whole request, unlike its collection half, may do more the second time, as what the first
      run cancelled is terminal by then. It is idempotent exactly when every row that is terminal
      after one run is no older than the time cutoff and among the N newest of them. */
  lemma EnforcingIsIdempotentExactlyWhen(t: Table, req: Request)
    requires Acceptable(req)
    ensures Enforced(Enforced(t, req), req) == Enforced(t, req) <==>
      forall id <- StillTerminal(t, req) :: Stays(t, req, id)
  {
    var u := Enforced(t, req);
    SecondRunOnlyDeletes(t, req);
    forall id | id in StillTerminal(t, req)
      ensures id !in Deletable(u, CutoffOf(u, req)) <==> Stays(t, req, id)
    {
      SecondCollectionSpares(t, req, id);
    }
    assert Terminals(u) == StillTerminal(t, req);
    hide Enforced, StillTerminal, Stays, CutoffOf;
    assert Deletable(u, CutoffOf(u, req)) <= Terminals(u);
  }

  // The rows that one run cancels although they are older than the time cutoff.
  function CancelledAndOld(t: Table, req: Request): set<string> {
    set id | id in t
      && TimesOut(t[id], req.timeoutCutoff)
      && req.gcCutoff.Some? && t[id].created < req.gcCutoff.value
  }

  /** With a time threshold only, that is when no row times out that is older than the cutoff. */
  lemma IdempotentWithTimeOnlyExactlyWhen(t: Table, req: Request)
    requires Acceptable(req) && req.rowsThreshold.None?
    ensures Enforced(Enforced(t, req), req) == Enforced(t, req) <==> CancelledAndOld(t, req) == {}
  {
    EnforcingIsIdempotentExactlyWhen(t, req);
    hide Enforced;
    forall id | id in StillTerminal(t, req) ensures !Stays(t, req, id) ==> id in CancelledAndOld(t, req) {
    }
    if id :| id in CancelledAndOld(t, req) {
      assert id in StillTerminal(t, req) && !Stays(t, req, id);
    }
  }

  /** With a rows threshold a second run may delete rows that the first one kept and did not touch:
      here b, the newest terminal row until a newer one is cancelled. */
  lemma SecondRunMayDeleteMore()
    ensures var t: Table := map["a" := Row(5, Pending), "b" := Row(3, Success)];
      var req := Request(None, Some(1), None, Some(9));
      "b" in Enforced(t, req) && "b" !in Enforced(Enforced(t, req), req)
  {
    var req := Request(None, Some(1), None, Some(9));
    hide *;
    FirstRunCancels(req);
    SecondRunDeletes(req);
  }

  lemma FirstRunCancels(req: Request)
    requires req == Request(None, Some(1), None, Some(9))
    ensures Enforced(map["a" := Row(5, Pending), "b" := Row(3, Success)], req)
      == map["a" := Row(5, Cancelled), "b" := Row(3, Success)]
  {
    var t: Table := map["a" := Row(5, Pending), "b" := Row(3, Success)];
    assert Terminals(t) == {"b"} == AtLeast(t, 3) && Newer(t, 3) == {};
    NthNewestIsUnique(t, 1, 3, NthNewest(t, 1).value);
    assert Deletable(t, Some(3)) == {};
    hide Terminals, AtLeast, Newer, Deletable, Terminal;
    assert Collected(t, req) == t;
  }

  lemma SecondRunDeletes(req: Request)
    requires req == Request(None, Some(1), None, Some(9))
    ensures "b" !in Enforced(map["a" := Row(5, Cancelled), "b" := Row(3, Success)], req)
  {
    var u: Table := map["a" := Row(5, Cancelled), "b" := Row(3, Success)];
    assert Terminals(u) == {"a", "b"} && AtLeast(u, 5) == {"a"} && Newer(u, 5) == {};
    NthNewestIsUnique(u, 1, 5, NthNewest(u, 1).value);
    assert "b" in Deletable(u, Some(5));
  }
}
