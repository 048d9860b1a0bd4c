/** The event broadcaster on plain values: lossy delivery to bounded channels, with subscribers that
    come and go. */
module BroadcasterModel {

  const CAPACITY := 16

  // The empty application stands for the whole fleet.
  datatype Event = Event(id: nat, app: string)

  // history is everything ever put into the channel, cancels how often it was cancelled.
  datatype Chan = Chan(app: string, buf: seq<Event>, history: seq<Event>, cancels: nat)

  // Channels are named by the order in which they were made. broken records a send on a closed
  // channel or a second close.
  datatype BusState = BusState(subscribers: map<string, set<nat>>, chans: seq<Chan>, broken: bool)

  datatype Step = Subscribe(app: string) | Cancel(ch: nat) | Publish(e: Event) | Receive(ch: nat)

  const INIT := BusState(map[], [], false)

  function Subs(s: BusState, app: string): set<nat> { if app in s.subscribers then s.subscribers[app] else {} }

  predicate Closed(c: Chan) { c.cancels > 0 }

  function AfterSubscribe(s: BusState, app: string): BusState {
    s.(subscribers := s.subscribers[app := Subs(s, app) + {|s.chans|}], chans := s.chans + [Chan(app, [], [], 0)])
  }

  function Without(subscribers: map<string, set<nat>>, app: string, ch: nat): map<string, set<nat>> {
    if app !in subscribers then subscribers
    else if subscribers[app] - {ch} == {} then subscribers - {app}
    else subscribers[app := subscribers[app] - {ch}]
  }

  function AfterCancel(s: BusState, ch: nat): BusState
    requires ch < |s.chans|
  {
    var c := s.chans[ch];
    BusState(Without(s.subscribers, c.app, ch), s.chans[ch := c.(cancels := c.cancels + 1)], s.broken || Closed(c))
  }

  // A full channel drops the event.
  function Offered(c: Chan, e: Event): Chan {
    if |c.buf| < CAPACITY then c.(buf := c.buf + [e], history := c.history + [e]) else c
  }

  predicate Reaches(s: BusState, e: Event, ch: nat) {
    (e.app != "" && ch in Subs(s, e.app)) || ch in Subs(s, "")
  }

  function AfterPublish(s: BusState, e: Event): BusState {
    BusState(
      s.subscribers,
      seq(|s.chans|, k requires 0 <= k < |s.chans| => if Reaches(s, e, k) then Offered(s.chans[k], e) else s.chans[k]),
      s.broken || exists k :: 0 <= k < |s.chans| && Reaches(s, e, k) && Closed(s.chans[k]))
  }

  function AfterReceive(s: BusState, ch: nat): BusState
    requires ch < |s.chans|
  {
    var c := s.chans[ch];
    if c.buf == [] then s else s.(chans := s.chans[ch := c.(buf := c.buf[1..])])
  }

  function After(s: BusState, step: Step): BusState {
    match step
    case Subscribe(app) => AfterSubscribe(s, app)
    case Cancel(ch) => if ch < |s.chans| then AfterCancel(s, ch) else s
    case Publish(e) => AfterPublish(s, e)
    case Receive(ch) => if ch < |s.chans| then AfterReceive(s, ch) else s
  }

  function Run(s: BusState, steps: seq<Step>): BusState
    decreases |steps|
  {
    if steps == [] then s else Run(After(s, steps[0]), steps[1..])
  }

  // ---- The invariant ---------------------------------------------------------------------

  // The part of the history not yet received is what is in the buffer.
  predicate BufferOk(c: Chan) {
    |c.buf| <= CAPACITY && |c.buf| <= |c.history| && c.buf == c.history[|c.history| - |c.buf|..]
  }

  // An open channel is registered under its application and no other; a closed one nowhere.
  predicate Registered(s: BusState, ch: nat) {
    ch < |s.chans| ==> BufferOk(s.chans[ch]) && forall app :: app in s.subscribers ==>
      (ch in s.subscribers[app] <==> !Closed(s.chans[ch]) && app == s.chans[ch].app)
  }

  predicate KnownApp(s: BusState, ch: nat) {
    ch < |s.chans| && !Closed(s.chans[ch]) ==> s.chans[ch].app in s.subscribers
  }

  predicate AppOk(s: BusState, app: string) {
    app in s.subscribers ==> s.subscribers[app] != {} && forall ch <- s.subscribers[app] :: ch < |s.chans|
  }

  predicate Doubled(s: BusState, ch: nat) { ch < |s.chans| && s.chans[ch].cancels > 1 }

  ghost predicate Inv(s: BusState) {
    && (forall ch :: Registered(s, ch))
    && (forall ch :: KnownApp(s, ch))
    && (forall app :: AppOk(s, app))
    && (s.broken <==> exists ch :: Doubled(s, ch))
  }

  lemma SubscribeKeepsInv(s: BusState, app: string)
    requires Inv(s)
    ensures Inv(AfterSubscribe(s, app))
  {
    var t := AfterSubscribe(s, app);
    assert AppOk(s, app);
    forall ch: nat, a | a in t.subscribers && ch < |t.chans|
      ensures ch in t.subscribers[a] <==> !Closed(t.chans[ch]) && a == t.chans[ch].app
    {
      assert Registered(s, ch) && AppOk(s, a);
      assert ch < |s.chans| && a == s.chans[ch].app ==> KnownApp(s, ch);
    }
    forall ch ensures Registered(t, ch) { assert Registered(s, ch); }
    forall ch ensures KnownApp(t, ch) { assert KnownApp(s, ch); }
    forall a ensures AppOk(t, a) { assert AppOk(s, a); }
    if ch: nat :| Doubled(s, ch) { assert Doubled(t, ch); }
    if ch: nat :| Doubled(t, ch) { assert Doubled(s, ch); }
  }

  lemma CancelKeepsInv(s: BusState, ch: nat)
    requires Inv(s) && ch < |s.chans|
    ensures Inv(AfterCancel(s, ch))
  {
    var t := AfterCancel(s, ch);
    assert Registered(s, ch) && KnownApp(s, ch);
    forall c ensures Registered(t, c) { assert Registered(s, c); }
    forall c: nat ensures KnownApp(t, c) {
      assert KnownApp(s, c) && Registered(s, c);
      assert c < |s.chans| && c != ch && !Closed(s.chans[c]) ==> c in Subs(s, s.chans[c].app) - {ch};
    }
    forall a ensures AppOk(t, a) { assert AppOk(s, a); }
    if c: nat :| Doubled(s, c) { assert Doubled(t, c); }
    if Closed(s.chans[ch]) { assert Doubled(t, ch); }
    if c: nat :| Doubled(t, c) { assert c == ch || Doubled(s, c); }
  }

  // What Publish reaches is what it should: the open channels of the event's application and of
  // the whole fleet.
  predicate Wants(s: BusState, e: Event, ch: nat) {
    ch < |s.chans| && !Closed(s.chans[ch]) && (s.chans[ch].app == "" || s.chans[ch].app == e.app)
  }

  lemma ReachesTheRightOnes(s: BusState, e: Event, ch: nat)
    requires Inv(s) && ch < |s.chans|
    ensures Reaches(s, e, ch) <==> Wants(s, e, ch)
  {
    assert Registered(s, ch) && KnownApp(s, ch);
  }

  lemma OfferedKeepsBufferOk(c: Chan, e: Event)
    requires BufferOk(c)
    ensures BufferOk(Offered(c, e)) && Offered(c, e).app == c.app && Offered(c, e).cancels == c.cancels
  {
    if |c.buf| < CAPACITY {
      var h := c.history;
      assert (h + [e])[|h| - |c.buf|..] == h[|h| - |c.buf|..] + [e];
    }
  }

  lemma PublishKeepsInv(s: BusState, e: Event)
    requires Inv(s)
    ensures Inv(AfterPublish(s, e)) && AfterPublish(s, e).broken == s.broken
  {
    var t := AfterPublish(s, e);
    forall ch | 0 <= ch < |s.chans|
      ensures BufferOk(t.chans[ch])
      ensures t.chans[ch].app == s.chans[ch].app && t.chans[ch].cancels == s.chans[ch].cancels
    {
      assert Registered(s, ch);
      OfferedKeepsBufferOk(s.chans[ch], e);
    }
    forall k | 0 <= k < |s.chans| && Reaches(s, e, k) ensures !Closed(s.chans[k]) { ReachesTheRightOnes(s, e, k); }
    assert t.broken == s.broken;
    hide BufferOk, Reaches, Offered;
    forall ch ensures Registered(t, ch) { assert Registered(s, ch); }
    forall ch ensures KnownApp(t, ch) { assert KnownApp(s, ch); }
    forall a ensures AppOk(t, a) { assert AppOk(s, a); }
    if ch: nat :| Doubled(s, ch) { assert Doubled(t, ch); }
    if ch: nat :| Doubled(t, ch) { assert Doubled(s, ch); }
  }

  lemma ReceivedKeepsBufferOk(c: Chan)
    requires BufferOk(c)
    ensures c.buf != [] ==> BufferOk(c.(buf := c.buf[1..]))
  {
    if c.buf != [] {
      assert c.buf[1..] == c.history[|c.history| - |c.buf|..][1..] == c.history[|c.history| - |c.buf| + 1..];
    }
  }

  lemma ReceiveKeepsInv(s: BusState, ch: nat)
    requires Inv(s) && ch < |s.chans|
    ensures Inv(AfterReceive(s, ch))
  {
    var t := AfterReceive(s, ch);
    assert Registered(s, ch);
    ReceivedKeepsBufferOk(s.chans[ch]);
    hide BufferOk;
    forall c ensures Registered(t, c) { assert Registered(s, c); }
    forall c ensures KnownApp(t, c) { assert KnownApp(s, c); }
    forall a ensures AppOk(t, a) { assert AppOk(s, a); }
    if c: nat :| Doubled(s, c) { assert Doubled(t, c); }
    if c: nat :| Doubled(t, c) { assert Doubled(s, c); }
  }

  lemma StepKeepsInv(s: BusState, step: Step)
    requires Inv(s)
    ensures Inv(After(s, step))
  {
    hide Inv, AfterSubscribe, AfterCancel, AfterPublish, AfterReceive;
    match step
    case Subscribe(app) => SubscribeKeepsInv(s, app);
    case Cancel(ch) => if ch < |s.chans| { CancelKeepsInv(s, ch); }
    case Publish(e) => PublishKeepsInv(s, e);
    case Receive(ch) => if ch < |s.chans| { ReceiveKeepsInv(s, ch); }
  }

  lemma {:induction false} RunKeepsInv(s: BusState, steps: seq<Step>)
    requires Inv(s)
    ensures Inv(Run(s, steps))
    decreases |steps|
  {
    hide Inv, After;
    if steps != [] {
      StepKeepsInv(s, steps[0]);
      RunKeepsInv(After(s, steps[0]), steps[1..]);
    }
  }

  lemma InitHasInv()
    ensures Inv(INIT)
  {
    forall ch ensures Registered(INIT, ch) { }
    forall ch ensures KnownApp(INIT, ch) { }
    forall app ensures AppOk(INIT, app) { }
  }

  /** Nothing is ever sent to a closed channel, and a channel is closed twice exactly when its cancel
      function was called twice; no application is left with an empty set of subscribers. */
  lemma BreaksExactlyWhenCancelledTwice(steps: seq<Step>)
    ensures var t := Run(INIT, steps);
      && (t.broken <==> exists c <- t.chans :: c.cancels > 1)
      && (forall app :: app in t.subscribers ==> t.subscribers[app] != {})
  {
    var t := Run(INIT, steps);
    InitHasInv();
    RunKeepsInv(INIT, steps);
    hide Run;
    if t.broken {
      var ch: nat :| Doubled(t, ch);
      assert t.chans[ch] in t.chans;
    }
    if c :| c in t.chans && c.cancels > 1 {
      var ch :| 0 <= ch < |t.chans| && t.chans[ch] == c;
      assert Doubled(t, ch);
    }
    forall app | app in t.subscribers ensures t.subscribers[app] != {} { assert AppOk(t, app); }
  }

  // ---- Delivery --------------------------------------------------------------------------

  predicate Subsequence(a: seq<Event>, b: seq<Event>) {
    if a == [] then true
    else if b == [] then false
    else (a[0] == b[0] && Subsequence(a[1..], b[1..])) || Subsequence(a, b[1..])
  }

  lemma {:induction false} SubsequenceIsSmaller(a: seq<Event>, b: seq<Event>)
    requires Subsequence(a, b)
    ensures |a| <= |b| && multiset(a) <= multiset(b)
    decreases |b|
  {
    if a != [] {
      assert b == [b[0]] + b[1..];
      if a[0] == b[0] && Subsequence(a[1..], b[1..]) {
        SubsequenceIsSmaller(a[1..], b[1..]);
        assert a == [a[0]] + a[1..];
      } else {
        SubsequenceIsSmaller(a, b[1..]);
      }
    }
  }

  lemma SubsequenceExtends(a: seq<Event>, b: seq<Event>, e: Event)
    requires Subsequence(a, b)
    ensures Subsequence(a, [e] + b) && Subsequence([e] + a, [e] + b)
  {
    assert ([e] + b)[1..] == b && ([e] + a)[1..] == a;
  }

  // The matching events published while channel ch was subscribed, in order.
  function Due(s: BusState, steps: seq<Step>, ch: nat): seq<Event>
    decreases |steps|
  {
    if steps == [] then []
    else
      (if steps[0].Publish? && Wants(s, steps[0].e, ch) then [steps[0].e] else []) +
      Due(After(s, steps[0]), steps[1..], ch)
  }

  // No matching event ever found sixteen in the channel.
  predicate NeverFull(s: BusState, steps: seq<Step>, ch: nat)
    decreases |steps|
  {
    steps != [] ==>
      && (steps[0].Publish? && Wants(s, steps[0].e, ch) ==> |s.chans[ch].buf| < 16)
      && NeverFull(After(s, steps[0]), steps[1..], ch)
  }

  function History(s: BusState, ch: nat): seq<Event> { if ch < |s.chans| then s.chans[ch].history else [] }

  lemma HistoryAfter(s: BusState, step: Step, ch: nat)
    requires Inv(s)
    ensures History(After(s, step), ch) == History(s, ch) +
      if step.Publish? && Wants(s, step.e, ch) && |s.chans[ch].buf| < CAPACITY then [step.e] else []
  {
    if step.Publish? && ch < |s.chans| { ReachesTheRightOnes(s, step.e, ch); }
  }

  // What is delivered from s on.
  ghost predicate Delivers(s: BusState, steps: seq<Step>, ch: nat, more: seq<Event>) {
    && History(Run(s, steps), ch) == History(s, ch) + more
    && Subsequence(more, Due(s, steps, ch))
    && (more == Due(s, steps, ch) <==> NeverFull(s, steps, ch))
  }

  function Maybe(wanted: bool, e: Event): seq<Event> { if wanted then [e] else [] }

  // One event offered, and what follows.
  lemma LossyStep(wanted: bool, room: bool, e: Event, later: seq<Event>, due: seq<Event>)
    requires Subsequence(later, due)
    ensures Subsequence(Maybe(wanted && room, e) + later, Maybe(wanted, e) + due)
    ensures Maybe(wanted && room, e) + later == Maybe(wanted, e) + due <==> (wanted ==> room) && later == due
  {
    SubsequenceIsSmaller(later, due);
    SubsequenceExtends(later, due, e);
    assert [] + later == later && [] + due == due;
    assert ([e] + later)[1..] == later && ([e] + due)[1..] == due;
  }

  lemma {:induction false} Delivery(s: BusState, steps: seq<Step>, ch: nat) returns (more: seq<Event>)
    requires Inv(s)
    ensures Delivers(s, steps, ch, more)
    decreases |steps|
  {
    if steps == [] {
      more := [];
    } else {
      StepKeepsInv(s, steps[0]);
      var later := Delivery(After(s, steps[0]), steps[1..], ch);
      HistoryAfter(s, steps[0], ch);
      more := DeliveryStep(s, steps, ch, later);
    }
  }

  lemma DeliveryStep(s: BusState, steps: seq<Step>, ch: nat, later: seq<Event>) returns (more: seq<Event>)
    requires Inv(s) && steps != [] && Delivers(After(s, steps[0]), steps[1..], ch, later)
    ensures Delivers(s, steps, ch, more)
  {
    var t, rest := After(s, steps[0]), steps[1..];
    var wanted := steps[0].Publish? && Wants(s, steps[0].e, ch);
    var room := wanted && |s.chans[ch].buf| < CAPACITY;
    var e := if steps[0].Publish? then steps[0].e else Event(0, "");
    var head, due, done := Maybe(wanted && room, e), Due(t, rest, ch), History(Run(t, rest), ch);
    HistoryAfter(s, steps[0], ch);
    DueStep(s, steps, ch, wanted, room, e);
    LossyStep(wanted, room, e, later, due);
    more := head + later;
    assert done == History(t, ch) + later && History(t, ch) == History(s, ch) + head;
    Associative(History(s, ch), head, later);
    assert Run(s, steps) == Run(t, rest);
    hide *;
    assert done == History(s, ch) + more;
  }

  lemma Associative(a: seq<Event>, b: seq<Event>, c: seq<Event>)
    ensures a + b + c == a + (b + c)
  {
  }

  lemma DueStep(s: BusState, steps: seq<Step>, ch: nat, wanted: bool, room: bool, e: Event)
    requires steps != [] && (wanted <==> steps[0].Publish? && Wants(s, steps[0].e, ch))
    requires wanted ==> e == steps[0].e && (room <==> |s.chans[ch].buf| < CAPACITY)
    ensures Due(s, steps, ch) == Maybe(wanted, e) + Due(After(s, steps[0]), steps[1..], ch)
    ensures NeverFull(s, steps, ch) <==> (wanted ==> room) && NeverFull(After(s, steps[0]), steps[1..], ch)
  {
  }

  /** In every run each channel's history is a subsequence of the matching events published while it
      was subscribed, so that none comes more often than it was published; and it is all of them
      exactly when the buffer was never full. What has not been received yet is in the buffer. */
  lemma HistoryIsALossyCopy(steps: seq<Step>, ch: nat)
    requires ch < |Run(INIT, steps).chans|
    ensures var c := Run(INIT, steps).chans[ch];
      && Subsequence(c.history, Due(INIT, steps, ch))
      && multiset(c.history) <= multiset(Due(INIT, steps, ch))
      && (c.history == Due(INIT, steps, ch) <==> NeverFull(INIT, steps, ch))
      && BufferOk(c)
  {
    InitHasInv();
    RunKeepsInv(INIT, steps);
    assert Registered(Run(INIT, steps), ch);
    hide Inv;
    var more := Delivery(INIT, steps, ch);
    assert History(Run(INIT, steps), ch) == more by { assert History(INIT, ch) == []; }
    SubsequenceIsSmaller(more, Due(INIT, steps, ch));
  }

  /** A new subscriber's channel is the next one: open, empty, and reached by exactly the events of its
      application, or by every event when it subscribes to the fleet. Nobody else's channel changes. */
  lemma SubscribingReaches(s: BusState, app: string, e: Event)
    requires Inv(s)
    ensures var t, ch := After(s, Subscribe(app)), |s.chans|;
      && |t.chans| == ch + 1 && t.chans[..ch] == s.chans && t.chans[ch] == Chan(app, [], [], 0)
      && (Reaches(t, e, ch) <==> app == "" || app == e.app)
  {
    SubscribeKeepsInv(s, app);
    ReachesTheRightOnes(AfterSubscribe(s, app), e, |s.chans|);
    hide Inv, Reaches;
  }

  /** After its cancel a channel is reached by no event, and every other channel is reached as before. */
  lemma CancellingStopsOnlyIts(s: BusState, ch: nat, e: Event, other: nat)
    requires Inv(s) && ch < |s.chans| && other < |s.chans|
    ensures var t := After(s, Cancel(ch));
      && |t.chans| == |s.chans| && !Reaches(t, e, ch) && Closed(t.chans[ch])
      && (other != ch ==> t.chans[other] == s.chans[other] && (Reaches(t, e, other) <==> Reaches(s, e, other)))
  {
    CancelKeepsInv(s, ch);
    ReachesTheRightOnes(AfterCancel(s, ch), e, ch);
    ReachesTheRightOnes(AfterCancel(s, ch), e, other);
    ReachesTheRightOnes(s, e, other);
    hide Inv, Reaches;
  }

  // What the receives from channel ch give, in order.
  function Got(s: BusState, steps: seq<Step>, ch: nat): seq<Event>
    decreases |steps|
  {
    if steps == [] then []
    else
      (if steps[0] == Receive(ch) && ch < |s.chans| && s.chans[ch].buf != [] then [s.chans[ch].buf[0]] else []) +
      Got(After(s, steps[0]), steps[1..], ch)
  }

  function Buffered(s: BusState, ch: nat): seq<Event> { if ch < |s.chans| then s.chans[ch].buf else [] }

  // What is put into the channel by one step.
  function PutBy(s: BusState, step: Step, ch: nat): seq<Event> {
    Maybe(step.Publish? && Wants(s, step.e, ch) && |s.chans[ch].buf| < CAPACITY,
          if step.Publish? then step.e else Event(0, ""))
  }

  lemma BufferAfter(s: BusState, step: Step, ch: nat)
    requires Inv(s)
    ensures History(After(s, step), ch) == History(s, ch) + PutBy(s, step, ch)
    ensures Buffered(s, ch) + PutBy(s, step, ch) ==
      (if step == Receive(ch) && Buffered(s, ch) != [] then [Buffered(s, ch)[0]] else []) + Buffered(After(s, step), ch)
  {
    HistoryAfter(s, step, ch);
    if step.Publish? && ch < |s.chans| { ReachesTheRightOnes(s, step.e, ch); }
    if step == Receive(ch) && Buffered(s, ch) != [] {
      assert s.chans[ch].buf == [s.chans[ch].buf[0]] + s.chans[ch].buf[1..];
    }
  }

  lemma FirstInFirstOut(b0: seq<Event>, b1: seq<Event>, b2: seq<Event>, put: seq<Event>, more: seq<Event>,
                        first: seq<Event>, later: seq<Event>)
    requires b0 + put == first + b1 && b1 + more == later + b2
    ensures b0 + (put + more) == (first + later) + b2
  {
    assert b0 + (put + more) == (b0 + put) + more == first + (b1 + more);
  }

  lemma {:induction false} Receiving(s: BusState, steps: seq<Step>, ch: nat) returns (put: seq<Event>)
    requires Inv(s)
    ensures History(Run(s, steps), ch) == History(s, ch) + put
    ensures Buffered(s, ch) + put == Got(s, steps, ch) + Buffered(Run(s, steps), ch)
    decreases |steps|
  {
    if steps == [] {
      put := [];
    } else {
      var t, rest := After(s, steps[0]), steps[1..];
      var b0, b1, b2 := Buffered(s, ch), Buffered(t, ch), Buffered(Run(t, rest), ch);
      var first := if steps[0] == Receive(ch) && b0 != [] then [b0[0]] else [];
      var h0, h1, put0 := History(s, ch), History(t, ch), PutBy(s, steps[0], ch);
      StepKeepsInv(s, steps[0]);
      BufferAfter(s, steps[0], ch);
      var more := Receiving(t, rest, ch);
      assert Run(s, steps) == Run(t, rest) && Got(s, steps, ch) == first + Got(t, rest, ch);
      hide *;
      FirstInFirstOut(b0, b1, b2, put0, more, first, Got(t, rest, ch));
      Associative(h0, put0, more);
      put := put0 + more;
    }
  }

  /** In every run a subscriber receives exactly its channel's history, in order, up to what is still in
      the buffer. */
  lemma ReceivedInOrder(steps: seq<Step>, ch: nat)
    requires ch < |Run(INIT, steps).chans|
    ensures var c := Run(INIT, steps).chans[ch];
      c.history == Got(INIT, steps, ch) + c.buf
  {
    InitHasInv();
    var put := Receiving(INIT, steps, ch);
    assert put == History(Run(INIT, steps), ch);
    assert put == [] + put;
  }
}
