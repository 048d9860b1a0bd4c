/** The request/response multiplexer as a machine of atomic steps, on plain values.

    Register, Unregister and CancelAll hold the mutex throughout, so each is one step. A response
    is routed in three: the entry is taken out under the mutex, then, with no lock held, the
    message is sent and the channel closed. Any steps of any callers may fall in between. */
module MultiplexerModel {

  datatype Message = Message(id: string, body: int)

  // A channel with room for one message. sent is everything ever put into it.
  datatype Chan = Chan(id: string, buf: seq<Message>, sent: seq<Message>, closed: bool)

  // What a routing call still has to do once it has taken an entry out.
  datatype Router = Sending(ch: nat, msg: Message) | Closing(ch: nat)

  // Channels are named by the order in which they were made. broken records a send on a closed
  // channel, a second close or a send that would block.
  datatype MuxState = MuxState(
    pending: map<string, nat>,
    closed: bool,
    chans: seq<Chan>,
    routers: map<nat, Router>,
    broken: bool)

  datatype Step =
    | Register(id: string)
    | Unregister(ch: nat)
    | Take(r: nat, msg: Message)
    | Send(r: nat)
    | Close(r: nat)
    | CancelAll
    | Receive(ch: nat)

  const INIT := MuxState(map[], false, [], map[], false)

  function CloseChan(s: MuxState, ch: nat): MuxState
    requires ch < |s.chans|
  {
    if s.chans[ch].closed then s.(broken := true)
    else s.(chans := s.chans[ch := s.chans[ch].(closed := true)])
  }

  function SendOn(s: MuxState, ch: nat, msg: Message): MuxState
    requires ch < |s.chans|
  {
    var c := s.chans[ch];
    if c.closed || c.buf != [] then s.(broken := true)
    else s.(chans := s.chans[ch := c.(buf := [msg], sent := c.sent + [msg])])
  }

  // On a closed multiplexer the caller gets a channel that is closed already; for a request ID
  // that is already waiting it gets none.
  function AfterRegister(s: MuxState, id: string): MuxState {
    if s.closed then s.(chans := s.chans + [Chan(id, [], [], true)])
    else if id in s.pending then s
    else s.(chans := s.chans + [Chan(id, [], [], false)], pending := s.pending[id := |s.chans|])
  }

  predicate Waiting(s: MuxState, ch: nat)
    requires ch < |s.chans|
  {
    s.chans[ch].id in s.pending && s.pending[s.chans[ch].id] == ch
  }

  function AfterUnregister(s: MuxState, ch: nat): MuxState
    requires ch < |s.chans|
  {
    if Waiting(s, ch) then CloseChan(s.(pending := s.pending - {s.chans[ch].id}), ch) else s
  }

  predicate Routable(s: MuxState, msg: Message) { msg.id != "" && msg.id in s.pending }

  function AfterTake(s: MuxState, r: nat, msg: Message): MuxState {
    if Routable(s, msg)
    then s.(pending := s.pending - {msg.id}, routers := s.routers[r := Sending(s.pending[msg.id], msg)])
    else s
  }

  function AfterSend(s: MuxState, r: nat): MuxState
    requires r in s.routers && s.routers[r].Sending? && s.routers[r].ch < |s.chans|
  {
    SendOn(s, s.routers[r].ch, s.routers[r].msg).(routers := s.routers[r := Closing(s.routers[r].ch)])
  }

  function AfterClose(s: MuxState, r: nat): MuxState
    requires r in s.routers && s.routers[r].Closing? && s.routers[r].ch < |s.chans|
  {
    CloseChan(s.(routers := s.routers - {r}), s.routers[r].ch)
  }

  // Every waiting channel is closed, and nothing waits any more.
  ghost function AfterCancelAll(s: MuxState): MuxState {
    MuxState(map[], true,
      seq(|s.chans|, k requires 0 <= k < |s.chans| =>
        if Waiting(s, k) then s.chans[k].(closed := true) else s.chans[k]),
      s.routers,
      s.broken || exists k :: 0 <= k < |s.chans| && Waiting(s, k) && s.chans[k].closed)
  }

  function AfterReceive(s: MuxState, ch: nat): MuxState
    requires ch < |s.chans|
  {
    s.(chans := s.chans[ch := s.chans[ch].(buf := [])])
  }

  // A step that no caller could take is no step.
  ghost function After(s: MuxState, step: Step): MuxState {
    match step
    case Register(id) => AfterRegister(s, id)
    case Unregister(ch) => if ch < |s.chans| then AfterUnregister(s, ch) else s
    case Take(r, msg) => if r in s.routers then s else AfterTake(s, r, msg)
    case Send(r) =>
      if r in s.routers && s.routers[r].Sending? && s.routers[r].ch < |s.chans| then AfterSend(s, r) else s
    case Close(r) =>
      if r in s.routers && s.routers[r].Closing? && s.routers[r].ch < |s.chans| then AfterClose(s, r) else s
    case CancelAll => AfterCancelAll(s)
    case Receive(ch) => if ch < |s.chans| then AfterReceive(s, ch) else s
  }

  ghost function Run(s: MuxState, steps: seq<Step>): MuxState
    decreases |steps|
  {
    if steps == [] then s else Run(After(s, steps[0]), steps[1..])
  }

  // ---- One owner per channel ------------------------------------------------------------

  predicate Routed(s: MuxState, ch: nat, r: nat) {
    r in s.routers && s.routers[r].ch == ch
  }

  // Nobody has sent yet.
  predicate Untouched(c: Chan) { !c.closed && c.buf == [] && c.sent == [] }

  // Whoever receives on the channel sees at most one message, and it answers its own request.
  predicate OwnAnswerOnly(c: Chan) {
    |c.sent| <= 1 && c.buf <= c.sent && forall m <- c.sent :: m.id == c.id
  }

  predicate RouterAgrees(c: Chan, r: Router) {
    match r
    case Sending(_, msg) => Untouched(c) && msg.id == c.id
    case Closing(_) => !c.closed && |c.sent| == 1
  }

  predicate PendingAt(s: MuxState, id: string) {
    id in s.pending ==>
      var ch := s.pending[id];
      ch < |s.chans| && s.chans[ch].id == id && Untouched(s.chans[ch])
  }

  predicate RouterAt(s: MuxState, r: nat) {
    r in s.routers ==>
      var ch := s.routers[r].ch;
      ch < |s.chans| && !Waiting(s, ch) && RouterAgrees(s.chans[ch], s.routers[r])
  }

  ghost predicate ChanAt(s: MuxState, ch: nat) {
    ch < |s.chans| ==>
      && OwnAnswerOnly(s.chans[ch])
      && (s.chans[ch].closed || Waiting(s, ch) || exists r :: Routed(s, ch, r))
  }

  ghost predicate RoutersApart(s: MuxState) {
    forall q, r :: q in s.routers && r in s.routers && q != r ==> s.routers[q].ch != s.routers[r].ch
  }

  /** Every channel is owned by exactly one of: the pending table, one routing call, or nobody,
      having been closed; nothing has gone wrong. */
  ghost predicate Inv(s: MuxState) {
    && !s.broken
    && (s.closed ==> s.pending == map[])
    && (forall id :: PendingAt(s, id))
    && (forall r :: RouterAt(s, r))
    && (forall ch :: ChanAt(s, ch))
    && RoutersApart(s)
  }

  // Channel ch is open, nothing has been sent on it yet, and an answer to id will go there.
  predicate Awaits(s: MuxState, id: string, ch: nat) {
    ch < |s.chans| && s.chans[ch].id == id && Waiting(s, ch) && Untouched(s.chans[ch])
  }

  lemma PendingAwaits(s: MuxState, id: string)
    requires Inv(s)
    ensures id in s.pending <==> exists ch :: Awaits(s, id, ch)
    ensures forall c, d :: Awaits(s, id, c) && Awaits(s, id, d) ==> c == d
  {
    assert PendingAt(s, id);
    if id in s.pending { assert Awaits(s, id, s.pending[id]); }
  }

  lemma RegisterKeepsInv(s: MuxState, id: string)
    requires Inv(s)
    ensures Inv(AfterRegister(s, id))
  {
    var t := AfterRegister(s, id);
    forall i ensures PendingAt(t, i) { assert PendingAt(s, i); }
    forall r ensures RouterAt(t, r) { assert RouterAt(s, r); }
    forall ch ensures ChanAt(t, ch) {
      assert ChanAt(s, ch);
      if r :| Routed(s, ch, r) { assert Routed(t, ch, r); }
    }
  }

  lemma UnregisterKeepsInv(s: MuxState, ch: nat)
    requires Inv(s) && ch < |s.chans|
    ensures Inv(AfterUnregister(s, ch))
  {
    var t := AfterUnregister(s, ch);
    assert PendingAt(s, s.chans[ch].id);
    forall i ensures PendingAt(t, i) { assert PendingAt(s, i); }
    forall r ensures RouterAt(t, r) { assert RouterAt(s, r); }
    forall c ensures ChanAt(t, c) {
      assert ChanAt(s, c);
      if r :| Routed(s, c, r) { assert Routed(t, c, r); }
    }
  }

  lemma TakeKeepsInv(s: MuxState, r: nat, msg: Message)
    requires Inv(s) && r !in s.routers
    ensures Inv(AfterTake(s, r, msg))
  {
    var t := AfterTake(s, r, msg);
    if Routable(s, msg) {
      assert PendingAt(s, msg.id);
      assert Routed(t, s.pending[msg.id], r);
      forall i ensures PendingAt(t, i) { assert PendingAt(s, i); }
      forall q ensures RouterAt(t, q) { assert RouterAt(s, q); }
      forall c ensures ChanAt(t, c) {
        assert ChanAt(s, c);
        if q :| Routed(s, c, q) { assert Routed(t, c, q); }
      }
      forall q | q in s.routers ensures s.routers[q].ch != s.pending[msg.id] { assert RouterAt(s, q); }
    }
  }

  lemma SendKeepsInv(s: MuxState, r: nat)
    requires Inv(s) && r in s.routers && s.routers[r].Sending? && s.routers[r].ch < |s.chans|
    ensures Inv(AfterSend(s, r))
  {
    var t := AfterSend(s, r);
    assert RouterAt(s, r);
    forall i ensures PendingAt(t, i) { assert PendingAt(s, i); }
    forall q ensures RouterAt(t, q) { assert RouterAt(s, q); }
    forall c ensures ChanAt(t, c) {
      assert ChanAt(s, c);
      if q :| Routed(s, c, q) { assert Routed(t, c, q); }
    }
  }

  lemma CloseKeepsInv(s: MuxState, r: nat)
    requires Inv(s) && r in s.routers && s.routers[r].Closing? && s.routers[r].ch < |s.chans|
    ensures Inv(AfterClose(s, r))
  {
    var t := AfterClose(s, r);
    assert RouterAt(s, r);
    forall i ensures PendingAt(t, i) { assert PendingAt(s, i); }
    forall q ensures RouterAt(t, q) { assert RouterAt(s, q); }
    forall c ensures ChanAt(t, c) {
      assert ChanAt(s, c);
      if q :| Routed(s, c, q) && q != r { assert Routed(t, c, q); }
    }
  }

  lemma CancelAllKeepsInv(s: MuxState)
    requires Inv(s)
    ensures Inv(AfterCancelAll(s))
  {
    var t := AfterCancelAll(s);
    forall k | 0 <= k < |s.chans| && Waiting(s, k) ensures !s.chans[k].closed {
      assert PendingAt(s, s.chans[k].id);
    }
    forall i ensures PendingAt(t, i) { }
    forall r ensures RouterAt(t, r) { assert RouterAt(s, r); }
    forall c ensures ChanAt(t, c) {
      assert ChanAt(s, c);
      if r :| Routed(s, c, r) { assert Routed(t, c, r); }
    }
  }

  // Part of the way through CancelAll: the channels whose entries are gone are closed.
  ghost predicate CancelledSoFar(s: MuxState, pending: map<string, nat>, chans: seq<Chan>) {
    && |chans| == |s.chans|
    && (forall id :: id in pending ==> id in s.pending && pending[id] == s.pending[id])
    && (forall k :: 0 <= k < |chans| ==>
      chans[k] == if Waiting(s, k) && s.chans[k].id !in pending then s.chans[k].(closed := true) else s.chans[k])
  }

  lemma NoneCancelled(s: MuxState)
    ensures CancelledSoFar(s, s.pending, s.chans)
  {
  }

  lemma CancelledOneMore(s: MuxState, pending: map<string, nat>, chans: seq<Chan>, id: string)
    requires Inv(s) && CancelledSoFar(s, pending, chans) && id in pending
    ensures var ch := pending[id];
      ch < |chans| && CancelledSoFar(s, pending - {id}, chans[ch := chans[ch].(closed := true)])
  {
    assert PendingAt(s, id);
    hide Inv;
  }

  lemma AllCancelled(s: MuxState, chans: seq<Chan>)
    requires Inv(s) && CancelledSoFar(s, map[], chans)
    ensures MuxState(map[], true, chans, s.routers, false) == AfterCancelAll(s)
  {
    forall k | 0 <= k < |s.chans| && Waiting(s, k) ensures !s.chans[k].closed {
      assert PendingAt(s, s.chans[k].id);
    }
    hide Inv;
  }

  lemma ReceiveKeepsInv(s: MuxState, ch: nat)
    requires Inv(s) && ch < |s.chans|
    ensures Inv(AfterReceive(s, ch))
  {
    var t := AfterReceive(s, ch);
    forall i ensures PendingAt(t, i) { assert PendingAt(s, i); }
    forall r ensures RouterAt(t, r) { assert RouterAt(s, r); }
    forall c ensures ChanAt(t, c) {
      assert ChanAt(s, c);
      if r :| Routed(s, c, r) { assert Routed(t, c, r); }
    }
  }

  lemma StepKeepsInv(s: MuxState, step: Step)
    requires Inv(s)
    ensures Inv(After(s, step))
  {
    hide Inv, AfterRegister, AfterUnregister, AfterTake, AfterSend, AfterClose, AfterCancelAll, AfterReceive;
    match step
    case Register(id) => RegisterKeepsInv(s, id);
    case Unregister(ch) => if ch < |s.chans| { UnregisterKeepsInv(s, ch); }
    case Take(r, msg) => if r !in s.routers { TakeKeepsInv(s, r, msg); }
    case Send(r) => if r in s.routers && s.routers[r].Sending? && s.routers[r].ch < |s.chans| { SendKeepsInv(s, r); }
    case Close(r) => if r in s.routers && s.routers[r].Closing? && s.routers[r].ch < |s.chans| { CloseKeepsInv(s, r); }
    case CancelAll => CancelAllKeepsInv(s);
    case Receive(ch) => if ch < |s.chans| { ReceiveKeepsInv(s, ch); }
  }

  lemma {:induction false} RunKeepsInv(s: MuxState, steps: seq<Step>)
    requires Inv(s)
    ensures Inv(Run(s, steps))
    decreases |steps|
  {
    hide Inv, After;
    if steps != [] {
      StepKeepsInv(s, steps[0]);
      RunKeepsInv(After(s, steps[0]), steps[1..]);
    }
  }

  // ---- What every interleaving guarantees -----------------------------------------------

  /** Whatever the steps and their order, no send ever meets a closed channel or blocks, no channel
      is closed twice, and each registration gets at most one message, carrying its own ID. */
  lemma EveryInterleavingIsSafe(steps: seq<Step>)
    ensures !Run(INIT, steps).broken
    ensures forall c <- Run(INIT, steps).chans :: OwnAnswerOnly(c)
  {
    var t := Run(INIT, steps);
    RunKeepsInv(INIT, steps);
    forall c <- t.chans ensures OwnAnswerOnly(c) {
      var k :| 0 <= k < |t.chans| && t.chans[k] == c;
      assert ChanAt(t, k);
    }
  }

  /** Once the multiplexer is closed and no routing call is under way, every channel that was ever
      handed out is closed, so no caller waits for ever. */
  lemma ClosedAndQuietClosesEverything(steps: seq<Step>)
    requires Run(INIT, steps).closed && Run(INIT, steps).routers == map[]
    ensures forall c <- Run(INIT, steps).chans :: c.closed
  {
    var t := Run(INIT, steps);
    RunKeepsInv(INIT, steps);
    forall c <- t.chans ensures c.closed {
      var k :| 0 <= k < |t.chans| && t.chans[k] == c;
      assert ChanAt(t, k);
    }
  }

  ghost predicate InRouting(s: MuxState, ch: nat) { exists r :: Routed(s, ch, r) }

  /** In every reachable state each channel has exactly one owner: it waits in the table, or one
      routing call has it, or it is closed. */
  lemma EveryChannelHasOneOwner(steps: seq<Step>, ch: nat)
    requires ch < |Run(INIT, steps).chans|
    ensures var t := Run(INIT, steps);
      && (Waiting(t, ch) || InRouting(t, ch) || t.chans[ch].closed)
      && !(Waiting(t, ch) && InRouting(t, ch))
      && !(Waiting(t, ch) && t.chans[ch].closed)
      && !(InRouting(t, ch) && t.chans[ch].closed)
      && (forall q, r :: Routed(t, ch, q) && Routed(t, ch, r) ==> q == r)
  {
    var t := Run(INIT, steps);
    RunKeepsInv(INIT, steps);
    hide Run;
    assert ChanAt(t, ch) && PendingAt(t, t.chans[ch].id);
    if r :| Routed(t, ch, r) { assert RouterAt(t, r); }
  }

  // The routing call r still holds msg for channel ch, or ch has been sent exactly msg.
  predicate OnItsWay(s: MuxState, r: nat, ch: nat, msg: Message) {
    && ch < |s.chans|
    && ((r in s.routers && s.routers[r] == Sending(ch, msg)) || s.chans[ch].sent == [msg])
  }

  lemma StepKeepsMessage(s: MuxState, step: Step, r: nat, ch: nat, msg: Message)
    requires Inv(s) && OnItsWay(s, r, ch, msg)
    ensures OnItsWay(After(s, step), r, ch, msg)
  {
    assert ChanAt(s, ch) && RouterAt(s, r);
    match step
    case Send(q) => if q in s.routers { assert RouterAt(s, q); }
    case _ =>
  }

  /** A response taken out of the table is not lost, whatever the other callers do meanwhile: as
      soon as its routing call has sent, the waiting channel has been given that message. */
  lemma {:induction false} RoutedMessageArrives(s: MuxState, steps: seq<Step>, r: nat, ch: nat, msg: Message)
    requires Inv(s) && OnItsWay(s, r, ch, msg)
    ensures OnItsWay(Run(s, steps), r, ch, msg)
    decreases |steps|
  {
    hide Inv, After, OnItsWay;
    if steps != [] {
      StepKeepsInv(s, steps[0]);
      StepKeepsMessage(s, steps[0], r, ch, msg);
      RoutedMessageArrives(After(s, steps[0]), steps[1..], r, ch, msg);
    }
  }

  /** After Unregister a channel is no longer in the table, and no later step puts it back. */
  lemma {:induction false} UnregisteredStaysOut(s: MuxState, steps: seq<Step>, ch: nat)
    requires Inv(s) && ch < |s.chans| && !Waiting(s, ch)
    ensures ch < |Run(s, steps).chans| && !Waiting(Run(s, steps), ch)
    decreases |steps|
  {
    hide Inv, After, Waiting;
    if steps != [] {
      StepKeepsInv(s, steps[0]);
      StepLeavesOut(s, steps[0], ch);
      UnregisteredStaysOut(After(s, steps[0]), steps[1..], ch);
    }
  }

  lemma StepLeavesOut(s: MuxState, step: Step, ch: nat)
    requires Inv(s) && ch < |s.chans| && !Waiting(s, ch)
    ensures ch < |After(s, step).chans| && !Waiting(After(s, step), ch)
  {
    assert PendingAt(s, s.chans[ch].id);
    hide Inv;
  }

  /** A channel keeps the request ID it was made for. */
  lemma {:induction false} ChannelKeepsItsID(s: MuxState, steps: seq<Step>, ch: nat)
    requires ch < |s.chans|
    ensures ch < |Run(s, steps).chans| && Run(s, steps).chans[ch].id == s.chans[ch].id
    decreases |steps|
  {
    if steps != [] {
      StepKeepsID(s, steps[0], ch);
      hide After;
      ChannelKeepsItsID(After(s, steps[0]), steps[1..], ch);
    }
  }

  lemma StepKeepsID(s: MuxState, step: Step, ch: nat)
    requires ch < |s.chans|
    ensures ch < |After(s, step).chans| && After(s, step).chans[ch].id == s.chans[ch].id
  {
  }

  // ---- What each step is for ------------------------------------------------------------

  /** On an open multiplexer an ID that is not waiting gets a channel that awaits its answer; a waiting
      one gets none; on a closed multiplexer the channel is closed and nothing will wait on it. */
  lemma RegisteringAwaits(s: MuxState, id: string)
    requires Inv(s)
    ensures var t := After(s, Register(id));
      && (!s.closed && id !in s.pending ==> Awaits(t, id, |s.chans|))
      && (!s.closed && id in s.pending ==> t == s)
      && (s.closed ==> |t.chans| == |s.chans| + 1 && t.chans[|s.chans|].closed && t.pending == s.pending)
  {
  }

  /** Unregistering a waiting channel closes it and takes its entry out, and touches nothing else; on a
      channel that no longer waits, even if another waits for the same ID, it does nothing. */
  lemma UnregisteringTouchesItsOwn(s: MuxState, ch: nat)
    requires Inv(s) && ch < |s.chans|
    ensures var t := After(s, Unregister(ch));
      && (!Waiting(s, ch) ==> t == s)
      && (Waiting(s, ch) ==>
        && t.chans == s.chans[ch := s.chans[ch].(closed := true)]
        && t.pending == s.pending - {s.chans[ch].id} && t.routers == s.routers)
  {
    assert PendingAt(s, s.chans[ch].id);
  }

  // The routing call r still holds msg for channel ch, or ch holds it.
  predicate OnItsWayUnread(s: MuxState, r: nat, ch: nat, msg: Message) {
    && ch < |s.chans|
    && ((r in s.routers && s.routers[r] == Sending(ch, msg)) || s.chans[ch].buf == [msg])
  }

  /** A response for an ID that a channel awaits is taken by the routing call, for that channel. */
  lemma TakingHoldsTheMessage(s: MuxState, r: nat, ch: nat, msg: Message)
    requires Inv(s) && r !in s.routers && msg.id != "" && Awaits(s, msg.id, ch)
    ensures var t := After(s, Take(r, msg));
      && t.routers == s.routers[r := Sending(ch, msg)] && t.chans == s.chans && !Waiting(t, ch)
      && OnItsWay(t, r, ch, msg) && OnItsWayUnread(t, r, ch, msg)
  {
  }

  lemma StepKeepsUnread(s: MuxState, step: Step, r: nat, ch: nat, msg: Message)
    requires Inv(s) && OnItsWayUnread(s, r, ch, msg) && step != Receive(ch)
    ensures OnItsWayUnread(After(s, step), r, ch, msg)
    ensures step == Send(r) ==> After(s, step).chans[ch].buf == [msg]
  {
    assert ChanAt(s, ch) && RouterAt(s, r);
    match step
    case Send(q) => if q in s.routers { assert RouterAt(s, q); }
    case Register(_) =>
    case Unregister(_) =>
    case Take(_, _) =>
    case Close(_) =>
    case CancelAll =>
    case Receive(_) =>
  }

  predicate Unread(steps: seq<Step>, ch: nat) { Receive(ch) !in steps }

  lemma {:induction false} RunKeepsUnread(s: MuxState, steps: seq<Step>, r: nat, ch: nat, msg: Message)
    requires Inv(s) && OnItsWayUnread(s, r, ch, msg) && Unread(steps, ch)
    ensures OnItsWayUnread(Run(s, steps), r, ch, msg)
    ensures Send(r) in steps ==> Run(s, steps).chans[ch].buf == [msg]
    decreases |steps|
  {
    hide Inv, After, OnItsWayUnread;
    if steps != [] {
      StepKeepsUnread(s, steps[0], r, ch, msg);
      StepKeepsInv(s, steps[0]);
      if steps[0] == Send(r) {
        SentStays(After(s, steps[0]), steps[1..], ch, msg);
      }
      RunKeepsUnread(After(s, steps[0]), steps[1..], r, ch, msg);
    }
  }

  lemma StepKeepsSent(s: MuxState, step: Step, ch: nat, msg: Message)
    requires Inv(s) && ch < |s.chans| && s.chans[ch].buf == [msg] && step != Receive(ch)
    ensures ch < |After(s, step).chans| && After(s, step).chans[ch].buf == [msg]
  {
    match step
    case Send(q) => if q in s.routers { assert RouterAt(s, q); }
    case _ =>
  }

  lemma {:induction false} SentStays(s: MuxState, steps: seq<Step>, ch: nat, msg: Message)
    requires Inv(s) && ch < |s.chans| && s.chans[ch].buf == [msg] && Unread(steps, ch)
    ensures ch < |Run(s, steps).chans| && Run(s, steps).chans[ch].buf == [msg]
    decreases |steps|
  {
    hide Inv, After;
    if steps != [] {
      StepKeepsInv(s, steps[0]);
      StepKeepsSent(s, steps[0], ch, msg);
      SentStays(After(s, steps[0]), steps[1..], ch, msg);
    }
  }

  /** A response for an awaited ID, once taken and sent, is what the waiting caller receives: whatever
      else happens in between and afterwards, until the caller does receive. */
  lemma RoutedAnswerIsReceived(s: MuxState, r: nat, ch: nat, msg: Message, steps: seq<Step>)
    requires Inv(s) && r !in s.routers && msg.id != "" && Awaits(s, msg.id, ch)
    requires Unread(steps, ch) && Send(r) in steps
    ensures var t := Run(After(s, Take(r, msg)), steps);
      ch < |t.chans| && t.chans[ch].buf == [msg]
  {
    TakingHoldsTheMessage(s, r, ch, msg);
    StepKeepsInv(s, Take(r, msg));
    hide Inv, Awaits, After, Run;
    RunKeepsUnread(After(s, Take(r, msg)), steps, r, ch, msg);
  }

  lemma RunThrough(s: MuxState, before: seq<Step>, step: Step, after: seq<Step>)
    ensures Run(s, before + [step] + after) == Run(After(Run(s, before), step), after)
  {
    RunOn(s, before + [step], after);
    RunOn(s, before, [step]);
    assert Run(Run(s, before), [step]) == After(Run(s, before), step);
  }

  lemma {:induction false} RunOn(s: MuxState, steps: seq<Step>, more: seq<Step>)
    ensures Run(s, steps + more) == Run(Run(s, steps), more)
    decreases |steps|
  {
    hide After;
    if steps == [] {
      assert steps + more == more;
    } else {
      assert (steps + more)[1..] == steps[1..] + more;
      RunOn(After(s, steps[0]), steps[1..], more);
    }
  }

  /** A response without an ID, or for an ID that nobody awaits, changes nothing. */
  lemma UnawaitedIsDropped(s: MuxState, r: nat, msg: Message)
    requires msg.id == "" || msg.id !in s.pending
    ensures After(s, Take(r, msg)) == s
  {
  }

  /** The last part of routing closes the channel and ends the call; nothing else changes. */
  lemma ClosingEndsTheCall(s: MuxState, r: nat)
    requires Inv(s) && r in s.routers && s.routers[r].Closing?
    ensures var t, ch := After(s, Close(r)), s.routers[r].ch;
      ch < |s.chans| && t.chans == s.chans[ch := s.chans[ch].(closed := true)]
      && t.routers == s.routers - {r} && t.pending == s.pending
  {
    assert RouterAt(s, r);
  }

  /** Receiving empties the channel's buffer and changes nothing else. */
  lemma ReceivingEmpties(s: MuxState, ch: nat)
    requires ch < |s.chans|
    ensures After(s, Receive(ch)) == s.(chans := s.chans[ch := s.chans[ch].(buf := [])])
  {
  }

  /** CancelAll closes the multiplexer and exactly the channels that wait; their buffers, the routing
      calls and every other channel stay as they are. */
  lemma CancellingClosesTheWaiting(s: MuxState, ch: nat)
    requires Inv(s) && ch < |s.chans|
    ensures var t := After(s, CancelAll);
      && t.closed && t.pending == map[] && t.routers == s.routers && |t.chans| == |s.chans|
      && t.chans[ch] == s.chans[ch].(closed := s.chans[ch].closed || Waiting(s, ch))
  {
  }

  /** A fault is recorded exactly when it happens, in any state: a send on a channel that is closed or
      full, and a second close. */
  lemma FaultsAreRecorded(s: MuxState, step: Step)
    ensures step.Send? && step.r in s.routers && s.routers[step.r].Sending? && s.routers[step.r].ch < |s.chans| ==>
      var c := s.chans[s.routers[step.r].ch];
      After(s, step).broken <==> s.broken || c.closed || c.buf != []
    ensures step.Close? && step.r in s.routers && s.routers[step.r].Closing? && s.routers[step.r].ch < |s.chans| ==>
      (After(s, step).broken <==> s.broken || s.chans[s.routers[step.r].ch].closed)
    ensures step.Unregister? && step.ch < |s.chans| ==>
      (After(s, step).broken <==> s.broken || (Waiting(s, step.ch) && s.chans[step.ch].closed))
    ensures step == CancelAll ==>
      (After(s, step).broken <==> s.broken || exists k :: 0 <= k < |s.chans| && Waiting(s, k) && s.chans[k].closed)
  {
  }
}
