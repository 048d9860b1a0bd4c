/** Lease renewal beside the heartbeat: at most one renewal at a time, and a connection closed for
    an expired lease only when no renewal has succeeded for that long. Times are in nanoseconds. */
module Lease {
  import opened Options

  const DEFAULT_DURATION := 60_000_000_000

  // renewals holds the time of creation and of every successful renewal; inFlight counts the
  // renewals under way.
  datatype LeaseState = LeaseState(
    now: int, running: bool, inFlight: nat, lastRenewedAt: int, duration: int,
    closedAt: Option<int>, renewals: seq<int>)

  datatype Step = Tick(d: nat) | Beat | Done(ok: bool)

  function Start(now: int, duration: int): LeaseState {
    LeaseState(now, false, 0, now, duration, None, [now])
  }

  function Duration(s: LeaseState): int { if s.duration <= 0 then DEFAULT_DURATION else s.duration }

  predicate Expired(s: LeaseState) { s.lastRenewedAt != 0 && s.now - s.lastRenewedAt > Duration(s) }

  // A beat on an open connection starts a renewal unless one is under way.
  function AfterBeat(s: LeaseState): LeaseState {
    if s.running || s.closedAt.Some? then s else s.(running := true, inFlight := s.inFlight + 1)
  }

  function AfterDone(s: LeaseState, ok: bool): LeaseState
    requires s.inFlight > 0
  {
    var t := s.(running := false, inFlight := s.inFlight - 1);
    if ok then t.(lastRenewedAt := s.now, renewals := s.renewals + [s.now])
    else if Expired(s) && s.closedAt.None? then t.(closedAt := Some(s.now))
    else t
  }

  function After(s: LeaseState, step: Step): LeaseState {
    match step
    case Tick(d) => s.(now := s.now + d)
    case Beat => AfterBeat(s)
    case Done(ok) => if s.inFlight > 0 then AfterDone(s, ok) else s
  }

  function Run(s: LeaseState, steps: seq<Step>): LeaseState
    decreases |steps|
  {
    if steps == [] then s else Run(After(s, steps[0]), steps[1..])
  }

  predicate Inv(s: LeaseState) {
    && s.inFlight == (if s.running then 1 else 0)
    && s.lastRenewedAt <= s.now
    && (forall r <- s.renewals :: r <= s.lastRenewedAt)
    && (s.closedAt.Some? ==> !s.running && forall r <- s.renewals :: s.closedAt.value - r > Duration(s))
  }

  lemma {:induction false} RunKeepsInv(s: LeaseState, steps: seq<Step>)
    requires Inv(s)
    ensures Inv(Run(s, steps))
    decreases |steps|
  {
    if steps != [] {
      RunKeepsInv(After(s, steps[0]), steps[1..]);
    }
  }

  /** However slow a renewal is, there are never two at a time; and if the connection was closed for
      its lease, then every renewal that ever succeeded, and its creation, lie further back than the
      lease lasts. */
  lemma ClosedOnlyWhenExpired(now: int, duration: int, steps: seq<Step>)
    ensures var t := Run(Start(now, duration), steps);
      && t.inFlight <= 1
      && (t.closedAt.Some? ==> forall r <- t.renewals :: t.closedAt.value - r > Duration(t))
  {
    RunKeepsInv(Start(now, duration), steps);
  }

  predicate LastIsOnRecord(s: LeaseState) { s.lastRenewedAt in s.renewals && Inv(s) }

  lemma {:induction false} RunKeepsRecord(s: LeaseState, steps: seq<Step>)
    requires LastIsOnRecord(s)
    ensures LastIsOnRecord(Run(s, steps))
    decreases |steps|
  {
    if steps != [] {
      RunKeepsRecord(After(s, steps[0]), steps[1..]);
    }
  }

  /** In every run of a clock that is past zero: a beat starts a renewal exactly when the connection is
      open and none is under way; a renewal that ends makes room for the next, counts from now on if it
      succeeded, and closes the connection exactly when it failed and every success lies further back
      than the lease lasts. */
  lemma RenewalsDecide(now: int, duration: int, steps: seq<Step>, ok: bool)
    requires now > 0
    ensures var s := Run(Start(now, duration), steps);
      && (After(s, Beat).inFlight == 1 <==> s.inFlight == 1 || s.closedAt.None?)
      && (s.inFlight > 0 ==>
        var t := After(s, Done(ok));
        && t.inFlight == 0 && s.closedAt.None?
        && t.renewals == (if ok then s.renewals + [s.now] else s.renewals)
        && (t.closedAt.Some? <==>
            !ok && forall r <- s.renewals :: s.now - r > if duration <= 0 then 60_000_000_000 else duration)
        && (t.closedAt.Some? ==> t.closedAt.value == s.now))
  {
    RunKeepsRecord(Start(now, duration), steps);
    RunKeepsDuration(Start(now, duration), steps);
    hide Run;
  }

  lemma {:induction false} RunKeepsDuration(s: LeaseState, steps: seq<Step>)
    requires s.lastRenewedAt > 0 && s.now > 0
    ensures var t := Run(s, steps); t.duration == s.duration && t.lastRenewedAt > 0 && t.now > 0
    decreases |steps|
  {
    if steps != [] {
      RunKeepsDuration(After(s, steps[0]), steps[1..]);
    }
  }

  class LeaseKeeper {
    var now: int
    var touchRunning: bool
    var lastRenewedAt: int
    var leaseDuration: int
    var closedAt: Option<int>
    ghost var inFlight: nat
    ghost var renewals: seq<int>

    ghost function State(): LeaseState
      reads this
    {
      LeaseState(now, touchRunning, inFlight, lastRenewedAt, leaseDuration, closedAt, renewals)
    }

    constructor (now: int, leaseDuration: int)
      ensures State() == Start(now, leaseDuration)
    {
      this.now, this.leaseDuration, touchRunning, lastRenewedAt, closedAt := now, leaseDuration, false, now, None;
      inFlight, renewals := 0, [now];
    }

    // The result says whether a renewal was started.
    method TriggerLeaseTouch() returns (started: bool)
      requires closedAt.None?
      modifies this
      ensures State() == AfterBeat(old(State())) && started == !old(touchRunning)
    {
      if touchRunning {
        return false;
      }
      touchRunning, inFlight := true, inFlight + 1;
      return true;
    }

    // What the renewal does once the store has answered; the result says whether to close.
    method TouchAnswered(ok: bool) returns (close: bool)
      requires inFlight > 0 && closedAt.None?
      modifies this
      ensures State() == AfterDone(old(State()), ok)
      ensures close <==> closedAt.Some?
    {
      touchRunning, inFlight := false, inFlight - 1;
      if !ok {
        var leaseDur := leaseDuration;
        if leaseDur <= 0 {
          leaseDur := DEFAULT_DURATION;
        }
        if lastRenewedAt != 0 && now - lastRenewedAt > leaseDur {
          closedAt := Some(now);
          return true;
        }
        return false;
      }
      lastRenewedAt, renewals := now, renewals + [now];
      return false;
    }
  }
}
