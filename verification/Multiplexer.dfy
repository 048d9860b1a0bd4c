/** The multiplexer as it is written: a pending table and a closed flag, updated in place. Each
    method is one atomic step and is proved to be the step that MultiplexerModel gives it. */
module Multiplexers {
  import opened Options
  import opened MultiplexerModel

  datatype Registration = Registered(ch: nat) | AlreadyClosed(ch: nat) | DuplicateID

  class Multiplexer {
    var pending: map<string, nat>
    var closed: bool
    var chans: seq<Chan>                // every channel made so far
    var routers: map<nat, Router>       // what each routing call under way has left to do

    ghost function State(): MuxState
      reads this
    {
      MuxState(pending, closed, chans, routers, false)
    }

    ghost predicate Valid()
      reads this
    {
      Inv(State())
    }

    constructor ()
      ensures Valid() && State() == INIT
    {
      pending, closed, chans, routers := map[], false, [], map[];
    }

    method Register(requestID: string) returns (res: Registration)
      requires Valid()
      modifies this
      ensures Valid() && State() == AfterRegister(old(State()), requestID)
      ensures res == if old(closed) then AlreadyClosed(|old(chans)|)
        else if requestID in old(pending) then DuplicateID
        else Registered(|old(chans)|)
    {
      RegisterKeepsInv(State(), requestID);
      if closed {
        chans := chans + [Chan(requestID, [], [], true)];
        return AlreadyClosed(|chans| - 1);
      }
      if requestID in pending {
        return DuplicateID;
      }
      chans := chans + [Chan(requestID, [], [], false)];
      pending := pending[requestID := |chans| - 1];
      return Registered(|chans| - 1);
    }

    // The clean-up that Register hands out for channel ch.
    method Unregister(ch: nat)
      requires Valid() && ch < |chans|
      modifies this
      ensures Valid() && State() == AfterUnregister(old(State()), ch)
    {
      UnregisterKeepsInv(State(), ch);
      assert PendingAt(State(), chans[ch].id);
      hide Inv;
      var id := chans[ch].id;
      if id in pending && pending[id] == ch {
        pending := pending - {id};
        chans := chans[ch := chans[ch].(closed := true)];
      }
    }

    // RouteResponse up to the unlock, for the routing call r. None stands for an absent message.
    method Take(msg: Option<Message>, r: nat) returns (ch: Option<nat>)
      requires Valid() && r !in routers
      modifies this
      ensures Valid()
      ensures State() == if msg.Some? then AfterTake(old(State()), r, msg.value) else old(State())
      ensures ch == if msg.Some? && Routable(old(State()), msg.value) then Some(old(pending)[msg.value.id]) else None
    {
      if msg.None? {
        return None;
      }
      TakeKeepsInv(State(), r, msg.value);
      hide Inv;
      var reqID := msg.value.id;
      if reqID == "" {
        return None;
      }
      if reqID in pending {
        ch := Some(pending[reqID]);
        pending := pending - {reqID};
        routers := routers[r := Sending(ch.value, msg.value)];
      } else {
        ch := None;
      }
    }

    // The send after the unlock. It finds the channel open and empty.
    method Send(ch: nat, msg: Message, r: nat)
      requires Valid() && r in routers && routers[r] == Sending(ch, msg)
      modifies this
      ensures ch < |old(chans)| && Valid() && State() == AfterSend(old(State()), r)
    {
      assert RouterAt(State(), r);
      SendKeepsInv(State(), r);
      hide Inv;
      assert !chans[ch].closed && chans[ch].buf == [];
      chans := chans[ch := chans[ch].(buf := [msg], sent := chans[ch].sent + [msg])];
      routers := routers[r := Closing(ch)];
    }

    // The close after the send. It finds the channel still open.
    method Close(ch: nat, r: nat)
      requires Valid() && r in routers && routers[r] == Closing(ch)
      modifies this
      ensures ch < |old(chans)| && Valid() && State() == AfterClose(old(State()), r)
    {
      assert RouterAt(State(), r);
      CloseKeepsInv(State(), r);
      hide Inv;
      assert !chans[ch].closed;
      chans := chans[ch := chans[ch].(closed := true)];
      routers := routers - {r};
    }

    // Whether some caller still waits: there is then exactly one open channel, with nothing sent on
    // it yet, to which an answer with this ID will go.
    method IsPending(requestID: string) returns (pendingNow: bool)
      requires Valid()
      ensures pendingNow <==> requestID != "" && exists ch :: Awaits(State(), requestID, ch)
      ensures forall c, d :: Awaits(State(), requestID, c) && Awaits(State(), requestID, d) ==> c == d
    {
      PendingAwaits(State(), requestID);
      hide Inv, Awaits;
      if requestID == "" {
        return false;
      }
      return requestID in pending;
    }

    method CancelAll()
      requires Valid()
      modifies this
      ensures Valid() && State() == AfterCancelAll(old(State()))
    {
      ghost var before := State();
      CancelAllKeepsInv(before);
      NoneCancelled(before);
      hide Inv, CancelledSoFar, AfterCancelAll;
      closed := true;
      while pending != map[]
        invariant closed && routers == before.routers && CancelledSoFar(before, pending, chans)
        decreases |pending|
      {
        var id :| id in pending;
        CancelledOneMore(before, pending, chans, id);
        var ch := pending[id];
        pending := pending - {id};
        chans := chans[ch := chans[ch].(closed := true)];
      }
      AllCancelled(before, chans);
    }

    // The receiving end of channel ch.
    method Receive(ch: nat) returns (msg: Option<Message>)
      requires Valid() && ch < |chans|
      modifies this
      ensures Valid() && State() == AfterReceive(old(State()), ch)
      ensures msg == if old(chans)[ch].buf == [] then None else Some(old(chans)[ch].buf[0])
      ensures msg.Some? ==> msg.value.id == old(chans)[ch].id
    {
      assert ChanAt(State(), ch);
      ReceiveKeepsInv(State(), ch);
      hide Inv;
      var c := chans[ch];
      msg := if c.buf == [] then None else Some(c.buf[0]);
      assert c.buf != [] ==> c.buf[0] == c.sent[0];
      chans := chans[ch := c.(buf := [])];
    }

    method PerformOne(step: Step)
      requires Valid()
      modifies this
      ensures Valid() && State() == After(old(State()), step)
    {
      hide Inv, AfterRegister, AfterUnregister, AfterTake, AfterSend, AfterClose, AfterCancelAll, AfterReceive;
      match step
      case Register(id) => var _ := Register(id);
      case Unregister(ch) => if ch < |chans| { Unregister(ch); }
      case Take(r, msg) => if r !in routers { var _ := Take(Some(msg), r); }
      case Send(r) =>
        if r in routers && routers[r].Sending? && routers[r].ch < |chans| { Send(routers[r].ch, routers[r].msg, r); }
      case Close(r) =>
        if r in routers && routers[r].Closing? && routers[r].ch < |chans| { Close(routers[r].ch, r); }
      case CancelAll => CancelAll();
      case Receive(ch) => if ch < |chans| { var _ := Receive(ch); }
    }

    // What other callers do while this one waits: any steps in any order.
    method Perform(steps: seq<Step>)
      requires Valid()
      modifies this
      ensures Valid() && State() == Run(old(State()), steps)
      decreases |steps|
    {
      hide Inv, After;
      if steps != [] {
        PerformOne(steps[0]);
        Perform(steps[1..]);
      }
    }
  }
}
