/** Closing a connection, and dispatching a request with at most one retry. Everything the other
    callers do in the meantime is given by scripts of arbitrary steps. */
module Hubs {
  import opened Options
  import opened RegistryModel
  import opened Registries
  import opened Multiplexers
  import Mux = MultiplexerModel

  class ExecutorConn {
    const conn: Conn
    const mux: Multiplexer
    const registry: Registry
    var closeDone: bool

    constructor (conn: Conn, mux: Multiplexer, registry: Registry)
      ensures this.conn == conn && this.mux == mux && this.registry == registry && !closeDone
    {
      this.conn, this.mux, this.registry := conn, mux, registry;
      closeDone := false;
    }

    // Only the first call does anything; the result says whether a disconnect was reported.
    method Close() returns (reported: bool)
      requires mux.Valid() && registry.Valid()
      modifies this, mux, registry
      ensures mux.Valid() && registry.Valid() && closeDone
      ensures old(closeDone) ==>
        !reported && mux.State() == old(mux.State()) && registry.State() == old(registry.State())
      ensures !old(closeDone) ==>
        && mux.State() == Mux.AfterCancelAll(old(mux.State()))
        && registry.State() == AfterUnregister(old(registry.State()), conn)
        && reported == Current(old(registry.State()), conn)
    {
      if closeDone {
        return false;
      }
      closeDone := true;
      mux.CancelAll();
      reported := registry.Unregister(conn);
    }
  }

  // A request that has no effect, or the same effect when it is carried out twice.
  predicate IsSafeToRetry(kind: string) {
    kind in {
      "executor_info", "list_workflows", "list_queued_workflows", "list_steps", "get_workflow",
      "exist_pending_workflows", "get_metrics", "list_schedules", "get_schedule",
      "get_workflow_events", "get_workflow_notifications", "get_workflow_streams",
      "get_workflow_aggregates", "get_step_aggregates", "list_application_versions",
      "list_queues", "get_queue", "cancel", "resume"
    }
  }

  /** Everything else that the protocol names is not. */
  lemma OtherKindsAreNotSafe(kind: string)
    requires kind in {
      "recovery", "fork_workflow", "rewind_workflow", "fork_from_failure", "retention", "export_workflow",
      "import_workflow", "delete", "alert", "pause_schedule", "resume_schedule", "backfill_schedule",
      "trigger_schedule", "set_latest_application_version"
    }
    ensures !IsSafeToRetry(kind)
  {
  }

  // How one attempt goes, as far as the code does not decide it: what happens on the connection
  // before the write, before the wait, before the clean-up and after it, whether the write fails,
  // and whether the deadline passes first.
  datatype Script = Script(
    beforeWrite: seq<Mux.Step>, writeFails: bool,
    beforeWait: seq<Mux.Step>, timesOut: bool,
    beforeCleanup: seq<Mux.Step>, afterwards: seq<Mux.Step>)

  datatype Outcome = Response(msg: Mux.Message) | WriteFailed | Failed

  // What an attempt came to: the connection, how it went, whether the request was written to it,
  // and the channel it registered there.
  datatype Attempt = Attempt(conn: Conn, out: Outcome, wrote: bool, ch: Option<nat>)

  datatype Reply = Answer(msg: Mux.Message) | DispatchError | NoExecutor | MissingRequestID

  ghost predicate Gone(s: Mux.MuxState, ch: Option<nat>) {
    ch.Some? ==> ch.value < |s.chans| && !Mux.Waiting(s, ch.value)
  }

  predicate Registers(s: Mux.MuxState, id: string) { !s.closed && id !in s.pending }

  // The multiplexer when the attempt comes to wait, had it written.
  ghost function AtWait(s: Mux.MuxState, id: string, script: Script): Mux.MuxState {
    Mux.Run(Mux.Run(Mux.AfterRegister(s, id), script.beforeWrite), script.beforeWait)
  }

  // The multiplexer after the attempt on channel ch.
  ghost function AfterAttempt(s: Mux.MuxState, id: string, ch: nat, script: Script): Mux.MuxState {
    if !Registers(s, id) then Mux.AfterRegister(s, id)
    else
      var answered :=
        if script.writeFails then Mux.Run(Mux.AfterRegister(s, id), script.beforeWrite)
        else if script.timesOut then AtWait(s, id, script)
        else Mux.After(AtWait(s, id, script), Mux.Step.Receive(ch));
      Mux.After(Mux.Run(answered, script.beforeCleanup), Mux.Step.Unregister(ch))
  }

  ghost predicate AnswerArrived(s: Mux.MuxState, ch: nat) { ch < |s.chans| && s.chans[ch].buf != [] }

  method DispatchToConn(mux: Multiplexer, reqID: string, script: Script)
    returns (out: Outcome, wrote: bool, ch: Option<nat>)
    requires mux.Valid()
    modifies mux
    ensures mux.Valid() && Gone(mux.State(), ch)
    ensures mux.State() == AfterAttempt(old(mux.State()), reqID, |old(mux.chans)|, script)
    ensures ch == if Registers(old(mux.State()), reqID) then Some(|old(mux.chans)|) else None
    ensures wrote <==> ch.Some? && !script.writeFails
    ensures out.WriteFailed? <==> ch.Some? && script.writeFails
    ensures out.Response? ==>
      && wrote && out.msg.id == reqID
      && AnswerArrived(AtWait(old(mux.State()), reqID, script), ch.value)
      && out.msg == AtWait(old(mux.State()), reqID, script).chans[ch.value].buf[0]
    ensures wrote ==>
      (out.Response? <==> !script.timesOut && AnswerArrived(AtWait(old(mux.State()), reqID, script), ch.value))
  {
    hide Mux.Inv, Mux.Run;
    wrote := false;
    var registration := mux.Register(reqID);
    if !registration.Registered? {
      return Failed, false, None;
    }
    var c := registration.ch;
    ch := Some(c);
    Mux.ChannelKeepsItsID(mux.State(), script.beforeWrite, c);
    mux.Perform(script.beforeWrite);
    if script.writeFails {
      out := WriteFailed;
    } else {
      wrote := true;
      Mux.ChannelKeepsItsID(mux.State(), script.beforeWait, c);
      mux.Perform(script.beforeWait);
      assert mux.State() == AtWait(old(mux.State()), reqID, script);
      out := Failed;
      if !script.timesOut {
        var msg := mux.Receive(c);
        if msg.Some? {
          out := Response(msg.value);
        }
      }
    }
    Mux.ChannelKeepsItsID(mux.State(), script.beforeCleanup, c);
    mux.Perform(script.beforeCleanup);
    CleanUp(mux, c);
  }

  // The attempt is what the script makes of it, on a multiplexer that was in state s.
  ghost predicate Goes(s: Mux.MuxState, id: string, script: Script, a: Attempt) {
    && a.ch == (if Registers(s, id) then Some(|s.chans|) else None)
    && (a.wrote <==> a.ch.Some? && !script.writeFails)
    && (a.out.WriteFailed? <==> a.ch.Some? && script.writeFails)
    && (a.out.Response? ==> a.wrote && a.out.msg.id == id)
    && (a.wrote ==> (a.out.Response? <==> !script.timesOut && AnswerArrived(AtWait(s, id, script), a.ch.value)))
    && (a.out.Response? && AnswerArrived(AtWait(s, id, script), a.ch.value) ==>
        a.out.msg == AtWait(s, id, script).chans[a.ch.value].buf[0])
  }

  /** An attempt whose answer is routed while it waits gets that answer: the response to its ID is taken
      for its channel and sent, in steps of any routing call among any others, and nobody else receives
      from the channel. */
  lemma RoutedAnswerIsReturned(s: Mux.MuxState, id: string, script: Script, a: Attempt, msg: Mux.Message, r: nat,
                               before: seq<Mux.Step>, after: seq<Mux.Step>)
    requires Mux.Inv(s) && Registers(s, id) && id != "" && msg.id == id
    requires script.beforeWait == before + [Mux.Take(r, msg)] + after && Mux.Send(r) in after
    requires Mux.Unread(after, |s.chans|)
    requires var t := Mux.Run(Mux.Run(Mux.AfterRegister(s, id), script.beforeWrite), before);
      r !in t.routers && Mux.Awaits(t, id, |s.chans|)
    requires !script.writeFails && !script.timesOut && Goes(s, id, script, a)
    ensures a.out == Response(msg)
  {
    hide Mux.Inv, Mux.Run, Mux.After, Mux.Awaits, Goes;
    var ch := |s.chans|;
    var registered := Mux.AfterRegister(s, id);
    var written := Mux.Run(registered, script.beforeWrite);
    var t := Mux.Run(written, before);
    Mux.RegisterKeepsInv(s, id);
    Mux.RunKeepsInv(registered, script.beforeWrite);
    Mux.RunKeepsInv(written, before);
    Mux.RoutedAnswerIsReceived(t, r, ch, msg, after);
    Mux.RunThrough(written, before, Mux.Take(r, msg), after);
    hide Mux.Inv, Mux.Run, Mux.After, Mux.Awaits, Mux.AfterRegister, Registers;
    assert AtWait(s, id, script) == Mux.Run(written, script.beforeWait);
    ArrivedIsReturned(s, id, script, a, msg);
  }

  lemma ArrivedIsReturned(s: Mux.MuxState, id: string, script: Script, a: Attempt, msg: Mux.Message)
    requires Registers(s, id) && !script.writeFails && !script.timesOut && Goes(s, id, script, a)
    requires var t := AtWait(s, id, script); |s.chans| < |t.chans| && t.chans[|s.chans|].buf == [msg]
    ensures a.out == Response(msg)
  {
    hide AtWait;
  }

  // And so is what the multiplexer has become, on which nothing that the attempt registered waits.
  ghost predicate TriedAs(s: Mux.MuxState, t: Mux.MuxState, id: string, script: Script, a: Attempt) {
    && Goes(s, id, script, a)
    && t == Mux.Run(AfterAttempt(s, id, |s.chans|, script), script.afterwards)
    && Gone(t, a.ch)
  }

  method CleanUp(mux: Multiplexer, ch: nat)
    requires mux.Valid() && ch < |mux.chans|
    modifies mux
    ensures mux.Valid() && Gone(mux.State(), Some(ch))
    ensures mux.State() == Mux.After(old(mux.State()), Mux.Step.Unregister(ch))
  {
    hide Mux.Inv;
    mux.Unregister(ch);
  }

  function Written(attempts: seq<Attempt>): nat {
    if attempts == [] then 0 else (if attempts[0].wrote then 1 else 0) + Written(attempts[1..])
  }

  lemma WrittenByTwo(a: Attempt, b: Attempt)
    ensures Written([]) == 0 && Written([a]) == if a.wrote then 1 else 0
    ensures Written([a, b]) == (if a.wrote then 1 else 0) + (if b.wrote then 1 else 0)
  {
    assert [a, b][1..] == [b] && [b][1..] == [] && [a][1..] == [];
  }

  predicate MayRetry(a: Attempt, kind: string, budgetLeft: bool) {
    !a.out.Response? && (a.out.WriteFailed? || IsSafeToRetry(kind)) && budgetLeft
  }

  // The connection is the one whose turn it is.
  ghost predicate Picks(s: RegState, app: nat, exclude: string, c: Conn) {
    Eligible(s, app, exclude) != {} && c == Choice(s, app, exclude)
  }

  // The caller gets what the last attempt came to.
  ghost function ReplyOf(s: RegState, app: nat, attempts: seq<Attempt>): Reply {
    if attempts == [] then (if Eligible(s, app, "") == {} then NoExecutor else MissingRequestID)
    else
      match attempts[|attempts| - 1].out
      case Response(msg) => Answer(msg)
      case _ => DispatchError
  }

  /** The attempt registers exactly when the multiplexer is open and the ID is not waiting there, is then
      written unless the write fails, and is answered exactly when it was written, an answer has arrived
      and the deadline has not passed. */
  lemma AttemptGoes(s: Mux.MuxState, id: string, script: Script, a: Attempt)
    requires Goes(s, id, script, a)
    ensures a.ch.Some? <==> !s.closed && id !in s.pending
    ensures a.wrote <==> !s.closed && id !in s.pending && !script.writeFails
    ensures a.out.WriteFailed? <==> !s.closed && id !in s.pending && script.writeFails
    ensures var t := Mux.Run(Mux.Run(Mux.After(s, Mux.Step.Register(id)), script.beforeWrite), script.beforeWait);
      a.out.Response? <==> a.wrote && !script.timesOut && |s.chans| < |t.chans| && t.chans[|s.chans|].buf != []
  {
    hide Mux.Run, Mux.AfterRegister;
  }

  /** The second attempt is allowed exactly when the first got no response, the request was not written
      or is safe to carry out twice, and time is left. */
  lemma MayRetryExactlyWhen(a: Attempt, kind: string, budgetLeft: bool)
    ensures MayRetry(a, kind, budgetLeft) <==>
      budgetLeft && (a.out == WriteFailed || (a.out == Failed && IsSafeToRetry(kind)))
  {
  }

  /** The caller is given exactly the response that the last attempt got, or an error saying why not. */
  lemma ReplyIs(s: RegState, app: nat, attempts: seq<Attempt>, msg: Mux.Message)
    ensures attempts != [] ==>
      && (ReplyOf(s, app, attempts) == Answer(msg) <==> attempts[|attempts| - 1].out == Response(msg))
      && (ReplyOf(s, app, attempts) == DispatchError <==> !attempts[|attempts| - 1].out.Response?)
    ensures attempts == [] ==>
      ReplyOf(s, app, attempts) ==
        if (forall e :: e in AppMap(s, app) ==> e == "") then NoExecutor else MissingRequestID
  {
    if e :| e in AppMap(s, app) && e != "" { assert e in Eligible(s, app, ""); }
  }

  class Hub {
    const registry: Registry
    const muxes: map<Conn, Multiplexer> // the multiplexer of every connection there ever is

    constructor (registry: Registry, muxes: map<Conn, Multiplexer>)
      ensures this.registry == registry && this.muxes == muxes
    {
      this.registry, this.muxes := registry, muxes;
    }

    ghost predicate Valid()
      reads registry, muxes.Values
    {
      && registry.Valid()
      && (forall c :: c in muxes ==> muxes[c].Valid())
      && (forall c, d :: c in muxes && d in muxes && c != d ==> muxes[c] != muxes[d])
      && (forall c :: Current(registry.State(), c) ==> c in muxes)
    }

    // What becomes of the registry meanwhile.
    method Meanwhile(events: seq<Event>)
      requires Valid() && forall e <- events :: e.Register? ==> e.c in muxes
      modifies registry
      ensures Valid() && registry.State() == AfterAll(old(registry.State()), events)
      decreases |events|
    {
      hide Shape, Mux.Inv;
      if events != [] {
        assert events[0] in events;
        MeanwhileOne(events[0]);
        Meanwhile(events[1..]);
      }
    }

    method MeanwhileOne(event: Event)
      requires Valid() && (event.Register? ==> event.c in muxes)
      modifies registry
      ensures Valid() && registry.State() == After(old(registry.State()), event)
    {
      hide Shape, Mux.Inv;
      match event
      case Register(c) =>
        LookupOthers(registry.State(), c);
        var _ := registry.Register(c);
      case Unregister(c) =>
        LookupRemoved(registry.State(), c);
        var _ := registry.Unregister(c);
      case Select(app, exclude) =>
        var _ := registry.SelectExecutorWithExclusion(app, exclude);
    }

    lemma LookupOthers(s: RegState, c: Conn)
      ensures forall d :: Current(AfterRegister(s, c), d) ==> d == c || Current(s, d)
    {
      forall d | Current(AfterRegister(s, c), d) ensures d == c || Current(s, d) {
        LookupAfter(s, Event.Register(c), d.app, d.executor);
      }
    }

    lemma LookupRemoved(s: RegState, c: Conn)
      ensures forall d :: Current(AfterUnregister(s, c), d) ==> Current(s, d)
    {
      forall d | Current(AfterUnregister(s, c), d) ensures Current(s, d) {
        LookupAfter(s, Event.Unregister(c), d.app, d.executor);
      }
    }

    // The registry when the retry, if there is one, selects its connection.
    ghost function AtRetry(app: nat, meanwhile: seq<Event>): RegState
      reads registry
    {
      AfterAll(AfterSelect(registry.State(), app, ""), meanwhile)
    }

    // Between the two states the attempt took place on its connection's multiplexer.
    twostate predicate Tried(a: Attempt, id: string, script: Script)
      reads if a.conn in muxes then {muxes[a.conn]} else {}
    {
      a.conn in muxes && TriedAs(old(muxes[a.conn].State()), muxes[a.conn].State(), id, script, a)
    }

    /** At most two attempts, on different executors, the second exactly when the first failed, is
        allowed another try and there is another executor. A request that is not safe to retry
        reaches at most one of them; an answer carries the request's own ID; and no channel that the
        call registered is still waiting, however the other callers' steps fall. */
    method Dispatch(app: nat, reqID: string, kind: string, first: Script, second: Script,
                    budgetLeft: bool, meanwhile: seq<Event>)
      returns (reply: Reply, attempts: seq<Attempt>)
      requires Valid() && forall e <- meanwhile :: e.Register? ==> e.c in muxes
      modifies registry, muxes.Values
      ensures |attempts| <= 2 && forall a <- attempts :: a.conn in muxes && a.conn.app == app
      ensures reply == ReplyOf(old(registry.State()), app, attempts)
      ensures attempts == [] <==> Eligible(old(registry.State()), app, "") == {} || reqID == ""
      ensures registry.State() ==
        if attempts != [] && MayRetry(attempts[0], kind, budgetLeft)
        then AfterSelect(old(AtRetry(app, meanwhile)), app, attempts[0].conn.executor)
        else AfterSelect(old(registry.State()), app, "")
      ensures attempts != [] ==>
        && Picks(old(registry.State()), app, "", attempts[0].conn)
        && (|attempts| == 2 <==>
            && MayRetry(attempts[0], kind, budgetLeft)
            && Eligible(old(AtRetry(app, meanwhile)), app, attempts[0].conn.executor) != {})
      ensures |attempts| == 2 ==>
        && attempts[0].conn.executor != attempts[1].conn.executor
        && Picks(old(AtRetry(app, meanwhile)), app, attempts[0].conn.executor, attempts[1].conn)
      ensures attempts != [] ==> Tried(attempts[0], reqID, first)
      ensures |attempts| == 2 ==> Tried(attempts[1], reqID, second)
      ensures attempts != [] && !IsSafeToRetry(kind) ==> Written(attempts) <= 1
      ensures reply.Answer? ==> reply.msg.id == reqID
      ensures Valid()
    {
      hide Shape, Mux.Inv, Mux.Run, Mux.AfterRegister;
      hide Eligible, Picks, AfterAll, AfterSelect, Gone, IsSafeToRetry, Written, TriedAs;
      var selection := Select(app, "");
      if !selection.Found? {
        return NoExecutor, [];
      }
      if reqID == "" {
        return MissingRequestID, [];
      }
      var conn := selection.conn;
      var a := Try(conn, reqID, first);
      attempts := [a];
      WrittenByTwo(a, a);
      if a.out.Response? {
        reply := Answer(a.out.msg);
      } else {
        reply := DispatchError;
        if (a.out.WriteFailed? || IsSafeToRetry(kind)) && budgetLeft {
          Meanwhile(meanwhile);
          var alternative := Select(app, conn.executor);
          if alternative.Found? {
            var b := Try(alternative.conn, reqID, second);
            attempts := [a, b];
            WrittenByTwo(a, b);
            if b.out.Response? {
              reply := Answer(b.out.msg);
            }
          }
        }
      }
    }

    // One attempt on a connection, and whatever happens on it afterwards.
    method Try(conn: Conn, reqID: string, script: Script) returns (a: Attempt)
      requires Valid() && conn in muxes
      modifies muxes[conn]
      ensures Valid() && Tried(a, reqID, script)
      ensures a.conn == conn && (a.out.WriteFailed? ==> !a.wrote)
      ensures a.out.Response? ==> a.wrote && a.out.msg.id == reqID
    {
      hide Shape, Mux.Inv, Mux.Run, Gone, Mux.AfterRegister, AfterAttempt, AtWait, AnswerArrived;
      var out, wrote, ch := DispatchToConn(muxes[conn], reqID, script);
      a := Attempt(conn, out, wrote, ch);
      Afterwards(conn, ch, script);
    }

    method Select(app: nat, exclude: string) returns (selection: Selection)
      requires Valid()
      modifies registry
      ensures Valid() && registry.State() == AfterSelect(old(registry.State()), app, exclude)
      ensures selection.Found? <==> Eligible(old(registry.State()), app, exclude) != {}
      ensures selection.Found? ==>
        && Picks(old(registry.State()), app, exclude, selection.conn)
        && selection.conn in muxes && selection.conn.app == app && selection.conn.executor != exclude
    {
      assert AppOk(registry.State(), app);
      hide Shape, Mux.Inv, Choice;
      selection := registry.SelectExecutorWithExclusion(app, exclude);
    }

    // Whatever happens on the connection after the attempt.
    method Afterwards(conn: Conn, ch: Option<nat>, script: Script)
      requires Valid() && conn in muxes && Gone(muxes[conn].State(), ch)
      modifies muxes[conn]
      ensures Valid() && Gone(muxes[conn].State(), ch)
      ensures muxes[conn].State() == Mux.Run(old(muxes[conn].State()), script.afterwards)
    {
      hide Mux.Inv, Mux.Run, Shape;
      if ch.Some? { Mux.UnregisteredStaysOut(muxes[conn].State(), script.afterwards, ch.value); }
      muxes[conn].Perform(script.afterwards);
    }
  }
}
