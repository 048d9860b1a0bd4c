/** What each operation of the virtual clock does to its state, on plain values, and what
    every run of such operations keeps. VirtualClock proves the objects against this. */
module ClockModel {
  import opened TimerHeap

  // A channel with room for one value.
  datatype Chan = Empty | Holding(at: int)

  // chans[id - 1] is the channel of timer id; timer identities count from 1.
  datatype ClockState = ClockState(now: int, heap: Heap, chans: seq<Chan>)

  datatype Op =
    | NewTimer(d: int)
    | Stop(id: nat)
    | Reset(id: nat, d: int)
    | Advance(d: int)
    | Receive(id: nat)

  predicate Known(s: ClockState, id: nat) { 1 <= id <= |s.chans| }

  ghost predicate Active(s: ClockState, id: nat) {
    exists k :: 0 <= k < |s.heap| && s.heap[k].id == id
  }

  ghost function Slot(h: Heap, id: nat): (k: nat)
    requires exists k :: 0 <= k < |h| && h[k].id == id
    ensures k < |h| && h[k].id == id
  {
    var k :| 0 <= k < |h| && h[k].id == id; k
  }

  ghost predicate DistinctIds(h: Heap) {
    forall i, j :: 0 <= i < j < |h| ==> h[i].id != h[j].id
  }

  /** Heap order, one slot per timer, everything pending lies strictly ahead, and the channel of
      a pending timer has room. */
  ghost predicate Inv(s: ClockState) {
    && Ordered(s.heap)
    && DistinctIds(s.heap)
    && (forall e :: e in s.heap ==> Known(s, e.id) && e.at > s.now && s.chans[e.id - 1] == Empty)
  }

  // A send that gives up when the slot is taken.
  function Offer(chans: seq<Chan>, e: Entry): (r: seq<Chan>)
    ensures |r| == |chans|
  {
    if 1 <= e.id <= |chans| && chans[e.id - 1] == Empty then chans[e.id - 1 := Holding(e.at)] else chans
  }

  function Deliver(chans: seq<Chan>, fired: seq<Entry>): (r: seq<Chan>)
    ensures |r| == |chans|
    decreases |fired|
  {
    if fired == [] then chans else Deliver(Offer(chans, fired[0]), fired[1..])
  }

  // Timer id, off the heap with an empty channel, set to trigger in d: it fires at once or waits.
  function Armed(s: ClockState, id: nat, d: int): ClockState
    requires Known(s, id)
  {
    if d <= 0 then s.(chans := s.chans[id - 1 := Holding(s.now + d)])
    else s.(heap := Push(s.heap, Entry(id, s.now + d)))
  }

  function AfterNewTimer(s: ClockState, d: int): ClockState {
    Armed(s.(chans := s.chans + [Empty]), |s.chans| + 1, d)
  }

  ghost function AfterStop(s: ClockState, id: nat): ClockState {
    if Active(s, id) then s.(heap := Remove(s.heap, Slot(s.heap, id))) else s
  }

  ghost function AfterReset(s: ClockState, id: nat, d: int): ClockState
    requires Known(s, id)
  {
    Armed(AfterStop(s, id).(chans := s.chans[id - 1 := Empty]), id, d)
  }

  function AfterAdvance(s: ClockState, d: int): ClockState {
    var t := s.now + d;
    ClockState(t, Left(s.heap, t), Deliver(s.chans, Fired(s.heap, t)))
  }

  function AfterReceive(s: ClockState, id: nat): ClockState
    requires Known(s, id)
  {
    s.(chans := s.chans[id - 1 := Empty])
  }

  // An operation on a timer that was never handed out does nothing.
  ghost function After(s: ClockState, op: Op): ClockState {
    match op
    case NewTimer(d) => AfterNewTimer(s, d)
    case Stop(id) => AfterStop(s, id)
    case Reset(id, d) => if Known(s, id) then AfterReset(s, id, d) else s
    case Advance(d) => AfterAdvance(s, d)
    case Receive(id) => if Known(s, id) then AfterReceive(s, id) else s
  }

  ghost function Run(s: ClockState, ops: seq<Op>): ClockState
    decreases |ops|
  {
    if ops == [] then s else Run(After(s, ops[0]), ops[1..])
  }

  // ---- Identities -----------------------------------------------------------------------

  ghost predicate IdIn(m: multiset<Entry>, e: Entry, f: Entry) { e in m && f in m && e.id == f.id }

  // Read off the multiset: at most one entry carries each identity, and only once.
  ghost predicate OnePerId(m: multiset<Entry>) {
    && (forall e :: e in m ==> m[e] == 1)
    && (forall e, f :: IdIn(m, e, f) ==> e == f)
  }

  lemma DistinctToOnePerId(h: Heap)
    requires DistinctIds(h)
    ensures OnePerId(multiset(h))
  {
    forall e | e in multiset(h) ensures multiset(h)[e] == 1 { CountOnce(h, e); }
    forall e, f | IdIn(multiset(h), e, f) ensures e == f {
      assert e in h && f in h;
    }
  }

  lemma {:induction false} CountOnce(h: Heap, e: Entry)
    requires DistinctIds(h) && e in h
    ensures multiset(h)[e] == 1
  {
    var k :| 0 <= k < |h| && h[k] == e;
    assert h == h[..k] + [e] + h[k + 1..];
    assert e !in h[..k] && e !in h[k + 1..];
    assert multiset(h)[e] == multiset(h[..k])[e] + 1 + multiset(h[k + 1..])[e];
  }

  lemma OnePerIdToDistinct(h: Heap)
    requires OnePerId(multiset(h))
    ensures DistinctIds(h)
  {
    forall i, j | 0 <= i < j < |h| ensures h[i].id != h[j].id {
      assert h == h[..j] + h[j..];
      assert h[i] in h[..j] && h[j] in h[j..];
      assert multiset(h)[h[j]] == multiset(h[..j])[h[j]] + multiset(h[j..])[h[j]];
      var e, f := h[i], h[j];
      assert IdIn(multiset(h), e, f) ==> e == f;
    }
  }

  // ---- What the operations do -----------------------------------------------------------

  lemma RemovedOne(h: Heap, k: nat)
    requires k < |h| && Ordered(h) && DistinctIds(h)
    ensures Ordered(Remove(h, k)) && DistinctIds(Remove(h, k))
    ensures forall e: Entry :: e in Remove(h, k) <==> e in h && e.id != h[k].id
  {
    var r := Remove(h, k);
    RemoveKeepsOrder(h, k);
    hide Remove, Ordered;
    DistinctToOnePerId(h);
    SubHeapKeepsDistinct(h, r);
    forall e: Entry ensures e in r <==> e in h && e.id != h[k].id {
      assert e in r <==> e in multiset(r);
      assert e in h <==> e in multiset(h);
      assert h[k] in multiset(h);
      assert IdIn(multiset(h), e, h[k]) ==> e == h[k];
    }
  }

  /** Stop takes exactly the stopped timer out, from wherever it sits. */
  lemma StopTakesOne(s: ClockState, id: nat)
    requires Inv(s)
    ensures Inv(AfterStop(s, id)) && !Active(AfterStop(s, id), id)
    ensures AfterStop(s, id).now == s.now && AfterStop(s, id).chans == s.chans
    ensures forall e: Entry :: e in AfterStop(s, id).heap <==> e in s.heap && e.id != id
  {
    hide Remove, Ordered;
    if Active(s, id) {
      RemovedOne(s.heap, Slot(s.heap, id));
      var r := Remove(s.heap, Slot(s.heap, id));
      forall k | 0 <= k < |r| ensures r[k].id != id { assert r[k] in r; }
    } else {
      forall e: Entry | e in s.heap ensures e.id != id { }
    }
  }

  lemma SubHeapKeepsDistinct(h: Heap, r: Heap)
    requires DistinctIds(h) && multiset(r) <= multiset(h)
    ensures DistinctIds(r)
  {
    DistinctToOnePerId(h);
    forall e, f | IdIn(multiset(r), e, f) ensures e == f { assert IdIn(multiset(h), e, f); }
    OnePerIdToDistinct(r);
  }

  lemma PushKeepsInv(s: ClockState, e: Entry)
    requires Inv(s) && !Active(s, e.id) && Known(s, e.id) && e.at > s.now && s.chans[e.id - 1] == Empty
    ensures Inv(s.(heap := Push(s.heap, e)))
    ensures forall f :: f in Push(s.heap, e) <==> f in s.heap || f == e
  {
    PushAddsOne(s.heap, e);
    hide Push, Ordered, DistinctIds;
  }

  lemma PushAddsOne(h: Heap, e: Entry)
    requires Ordered(h) && DistinctIds(h) && forall k :: 0 <= k < |h| ==> h[k].id != e.id
    ensures Ordered(Push(h, e)) && DistinctIds(Push(h, e))
    ensures forall f :: f in Push(h, e) <==> f in h || f == e
  {
    var r := Push(h, e);
    PushKeepsOrder(h, e);
    DistinctIdsOfExtension(h, e);
    hide Push, Ordered, DistinctIds;
    assert multiset(r) == multiset(h + [e]);
    SubHeapKeepsDistinct(h + [e], r);
    forall f ensures f in r <==> f in h || f == e {
      assert f in r <==> f in multiset(r);
      assert f in h <==> f in multiset(h);
    }
  }

  lemma DistinctIdsOfExtension(h: Heap, e: Entry)
    requires DistinctIds(h) && forall k :: 0 <= k < |h| ==> h[k].id != e.id
    ensures DistinctIds(h + [e])
  {
  }

  lemma NewTimerKeepsInv(s: ClockState, d: int)
    requires Inv(s)
    ensures Inv(AfterNewTimer(s, d))
  {
    var t := s.(chans := s.chans + [Empty]);
    OneMoreChannel(s);
    hide Inv, Active, Push;
    if d > 0 {
      PushKeepsInv(t, Entry(|t.chans|, s.now + d));
    } else {
      FiringAtOnceKeepsInv(t, |t.chans|, d);
    }
  }

  // The next timer has a channel, and no slot yet.
  lemma OneMoreChannel(s: ClockState)
    requires Inv(s)
    ensures var t := s.(chans := s.chans + [Empty]);
      && Inv(t) && !Active(t, |t.chans|) && Known(t, |t.chans|) && t.chans[|t.chans| - 1] == Empty
  {
    hide Ordered, DistinctIds;
    var t := s.(chans := s.chans + [Empty]);
    forall k | 0 <= k < |s.heap| ensures s.heap[k].id != |t.chans| { assert s.heap[k] in s.heap; }
    assert forall e :: e in s.heap ==> t.chans[e.id - 1] == s.chans[e.id - 1];
  }

  lemma FiringAtOnceKeepsInv(s: ClockState, id: nat, d: int)
    requires Inv(s) && Known(s, id) && !Active(s, id)
    ensures Inv(s.(chans := s.chans[id - 1 := Holding(s.now + d)]))
  {
    hide Ordered, DistinctIds;
    forall e | e in s.heap ensures e.id != id {
      var k :| 0 <= k < |s.heap| && s.heap[k] == e;
    }
  }

  lemma ResetKeepsInv(s: ClockState, id: nat, d: int)
    requires Inv(s) && Known(s, id)
    ensures Inv(AfterReset(s, id, d))
  {
    StopTakesOne(s, id);
    hide AfterStop, Ordered;
    var t := AfterStop(s, id).(chans := s.chans[id - 1 := Empty]);
    assert Inv(t);
    if d > 0 { PushKeepsInv(t, Entry(id, s.now + d)); }
  }

  // Timer id, set to trigger at at, is the one pending entry of its ID or has fired; whatever else was
  // pending in s still is, and the other channels are as they were.
  ghost predicate IsSet(s: ClockState, t: ClockState, id: nat, at: int) {
    && t.now == s.now && Known(t, id)
    && (forall e: Entry :: e in t.heap <==> (e in s.heap && e.id != id) || (at > s.now && e == Entry(id, at)))
    && t.chans[id - 1] == (if at > s.now then Empty else Holding(at))
    && (forall j :: 0 <= j < |s.chans| && j != id - 1 ==> j < |t.chans| && t.chans[j] == s.chans[j])
  }

  /** Stop and Receive touch one timer only: Stop takes its entry out of those pending and leaves every
      channel, Receive empties its channel and leaves everything pending. */
  lemma StopAndReceiveTouchOne(s: ClockState, id: nat)
    requires Inv(s)
    ensures var t := After(s, Stop(id));
      t.now == s.now && t.chans == s.chans && forall e: Entry :: e in t.heap <==> e in s.heap && e.id != id
    ensures Known(s, id) ==>
      After(s, Receive(id)) == ClockState(s.now, s.heap, s.chans[id - 1 := Empty])
  {
    StopTakesOne(s, id);
    hide AfterStop, Ordered;
  }

  /** After Reset(d) the timer is pending for now + d, or has fired at once when d is not positive,
      whether it was pending, fired or stopped before; no other timer is touched. */
  lemma ResetSetsTheTimer(s: ClockState, id: nat, d: int)
    requires Inv(s) && Known(s, id)
    ensures IsSet(s, After(s, Reset(id, d)), id, s.now + d) && |After(s, Reset(id, d)).chans| == |s.chans|
  {
    StopTakesOne(s, id);
    hide AfterStop, Ordered, DistinctIds;
    var t := AfterStop(s, id).(chans := s.chans[id - 1 := Empty]);
    if d > 0 {
      assert Inv(t) by { hide Active; }
      PushKeepsInv(t, Entry(id, s.now + d));
    }
    hide Inv, Active, Push;
  }

  /** A new timer is the next one, pending for now + d or fired at once; no other timer is touched. */
  lemma NewTimerIsSet(s: ClockState, d: int)
    requires Inv(s)
    ensures IsSet(s, After(s, NewTimer(d)), |s.chans| + 1, s.now + d)
    ensures |After(s, NewTimer(d)).chans| == |s.chans| + 1
  {
    var t := s.(chans := s.chans + [Empty]);
    OneMoreChannel(s);
    assert forall e :: e in s.heap ==> e.id != |t.chans|;
    hide Inv, Active;
    if d > 0 { PushKeepsInv(t, Entry(|t.chans|, s.now + d)); }
    hide Push;
  }

  // ---- Advance --------------------------------------------------------------------------

  lemma {:induction false} DeliverOthers(chans: seq<Chan>, fired: seq<Entry>, id: nat)
    requires 1 <= id <= |chans| && forall k :: 0 <= k < |fired| ==> fired[k].id != id
    ensures Deliver(chans, fired)[id - 1] == chans[id - 1]
    decreases |fired|
  {
    if fired != [] { DeliverOthers(Offer(chans, fired[0]), fired[1..], id); }
  }

  lemma {:induction false} DeliverOne(chans: seq<Chan>, fired: seq<Entry>, k: nat)
    requires k < |fired| && 1 <= fired[k].id <= |chans| && chans[fired[k].id - 1] == Empty
    requires DistinctIds(fired)
    ensures Deliver(chans, fired)[fired[k].id - 1] == Holding(fired[k].at)
    decreases |fired|
  {
    if k == 0 {
      DeliverOthers(Offer(chans, fired[0]), fired[1..], fired[0].id);
    } else {
      assert fired[1..][k - 1] == fired[k] && fired[0].id != fired[k].id;
      DeliverOne(Offer(chans, fired[0]), fired[1..], k - 1);
    }
  }

  lemma {:induction false} DeliverConcat(chans: seq<Chan>, f: seq<Entry>, g: seq<Entry>)
    ensures Deliver(chans, f + g) == Deliver(Deliver(chans, f), g)
    decreases |f|
  {
    if f == [] {
      assert f + g == g;
    } else {
      assert (f + g)[1..] == f[1..] + g;
      DeliverConcat(Offer(chans, f[0]), f[1..], g);
    }
  }

  // The fired slots are exactly the pending ones due at t; the ones left are the others.
  lemma FiredAndLeft(h: Heap, t: int)
    requires Ordered(h) && DistinctIds(h)
    ensures DistinctIds(Fired(h, t)) && DistinctIds(Left(h, t)) && Ordered(Left(h, t))
    ensures forall e :: e in Fired(h, t) <==> e in h && e.at <= t
    ensures forall e :: e in Left(h, t) <==> e in h && e.at > t
  {
    FiredExactly(h, t);
    hide Fired, Left, Ordered;
    var f, l := Fired(h, t), Left(h, t);
    SubHeapKeepsDistinct(h, f);
    SubHeapKeepsDistinct(h, l);
    forall e ensures e in h <==> e in f || e in l {
      assert e in h <==> e in multiset(h);
      assert e in f <==> e in multiset(f);
      assert e in l <==> e in multiset(l);
    }
  }

  ghost predicate Mentions(f: seq<Entry>, id: nat) {
    exists k :: 0 <= k < |f| && f[k].id == id
  }

  /** Advance fires exactly the timers due, each once, in trigger order, and leaves the rest
      pending. */
  lemma AdvanceFiresExactlyTheDue(s: ClockState, d: int)
    requires Inv(s)
    ensures var f, r := Fired(s.heap, s.now + d), AfterAdvance(s, d);
      && InFiringOrder(f) && DistinctIds(f)
      && (forall e :: e in f <==> e in s.heap && e.at <= s.now + d)
      && (forall e :: e in r.heap <==> e in s.heap && e.at > s.now + d)
  {
    hide Fired, Left, Ordered, Deliver;
    FiredExactly(s.heap, s.now + d);
    FiredAndLeft(s.heap, s.now + d);
  }

  /** No fire is lost: the channel of every timer that fires receives its trigger time, and every
      other channel is left alone. */
  lemma AdvanceLosesNoFire(s: ClockState, d: int)
    requires Inv(s)
    ensures var f, r := Fired(s.heap, s.now + d), AfterAdvance(s, d);
      && |r.chans| == |s.chans|
      && (forall e :: e in f ==> Known(s, e.id) && r.chans[e.id - 1] == Holding(e.at))
      && (forall id :: 1 <= id <= |s.chans| && !Mentions(f, id) ==> r.chans[id - 1] == s.chans[id - 1])
  {
    hide Fired, Left, Ordered, Deliver;
    var f, chans := Fired(s.heap, s.now + d), AfterAdvance(s, d).chans;
    assert chans == Deliver(s.chans, f);
    AdvanceFiresExactlyTheDue(s, d);
    hide AfterAdvance;
    forall e | e in f ensures Known(s, e.id) && chans[e.id - 1] == Holding(e.at) {
      var k :| 0 <= k < |f| && f[k] == e;
      DeliverOne(s.chans, f, k);
    }
    forall id | 1 <= id <= |s.chans| && !Mentions(f, id) ensures chans[id - 1] == s.chans[id - 1] {
      DeliverOthers(s.chans, f, id);
    }
  }

  /** A timer set for later fires with its trigger time exactly when the clock gets there. */
  lemma SetTimerFires(s: ClockState, t: ClockState, id: nat, at: int, d: int)
    requires Inv(t) && IsSet(s, t, id, at) && at > s.now
    ensures |After(t, Advance(d)).chans| == |t.chans|
    ensures After(t, Advance(d)).chans[id - 1] == if s.now + d >= at then Holding(at) else Empty
  {
    var e := Entry(id, at);
    assert e in t.heap && t.now == s.now;
    hide IsSet;
    if s.now + d >= at {
      DueTimerGets(t, d, e);
    } else {
      OtherTimerKeeps(t, d, e);
      assert t.chans[id - 1] == Empty;
    }
  }

  lemma DueTimerGets(t: ClockState, d: int, e: Entry)
    requires Inv(t) && e in t.heap && e.at <= t.now + d
    ensures Known(t, e.id) && |After(t, Advance(d)).chans| == |t.chans|
    ensures After(t, Advance(d)).chans[e.id - 1] == Holding(e.at)
  {
    hide *;
    PendingIsKnown(t, d, e);
    AdvanceFiresExactlyTheDue(t, d);
    AdvanceLosesNoFire(t, d);
  }

  lemma OtherTimerKeeps(t: ClockState, d: int, e: Entry)
    requires Inv(t) && e in t.heap && e.at > t.now + d
    ensures Known(t, e.id) && |After(t, Advance(d)).chans| == |t.chans|
    ensures After(t, Advance(d)).chans[e.id - 1] == t.chans[e.id - 1]
  {
    hide *;
    PendingIsKnown(t, d, e);
    NotMentioned(t, d, e);
    AdvanceLosesNoFire(t, d);
  }

  lemma PendingIsKnown(t: ClockState, d: int, e: Entry)
    requires Inv(t) && e in t.heap
    ensures Known(t, e.id) && 1 <= e.id <= |t.chans| && After(t, Advance(d)) == AfterAdvance(t, d)
  {
  }

  lemma NotMentioned(t: ClockState, d: int, e: Entry)
    requires Inv(t) && e in t.heap && e.at > t.now + d
    ensures !Mentions(Fired(t.heap, t.now + d), e.id)
  {
    var f := Fired(t.heap, t.now + d);
    hide Inv, Fired, AfterAdvance, Left;
    AdvanceFiresExactlyTheDue(t, d);
    forall k | 0 <= k < |f| ensures f[k].id != e.id {
      assert f[k] in f;
      OnlyEntryOf(t, f[k], e);
    }
  }

  lemma OnlyEntryOf(s: ClockState, e: Entry, f: Entry)
    requires Inv(s)
    ensures e in s.heap && f in s.heap && e.id == f.id ==> e == f
  {
    if e in s.heap && f in s.heap && e != f { OtherSlotOtherId(s.heap, e, f); }
  }

  /** So a Reset by d and then an Advance by at least d make the timer fire at the time set. */
  lemma ResetThenAdvanceFires(s: ClockState, id: nat, d: int, e: int)
    requires Inv(s) && Known(s, id) && 0 < d <= e
    ensures var t := After(After(s, Reset(id, d)), Advance(e));
      Known(t, id) && t.chans[id - 1] == Holding(s.now + d)
  {
    ResetSetsTheTimer(s, id, d);
    OpKeepsInv(s, Reset(id, d));
    hide Inv, After;
    SetTimerFires(s, After(s, Reset(id, d)), id, s.now + d, e);
  }

  lemma AdvanceKeepsInv(s: ClockState, d: int)
    requires Inv(s)
    ensures Inv(AfterAdvance(s, d))
  {
    hide Fired, Left, Ordered, Deliver;
    var f, r := Fired(s.heap, s.now + d), AfterAdvance(s, d);
    assert r.now == s.now + d && r.heap == Left(s.heap, s.now + d);
    AdvanceFiresExactlyTheDue(s, d);
    AdvanceLosesNoFire(s, d);
    FiredAndLeft(s.heap, s.now + d);
    hide AfterAdvance;
    forall e | e in r.heap ensures r.chans[e.id - 1] == Empty {
      forall k | 0 <= k < |f| ensures f[k].id != e.id {
        assert f[k] in f;
        OtherSlotOtherId(s.heap, e, f[k]);
      }
      assert !Mentions(f, e.id);
    }
  }

  lemma OtherSlotOtherId(h: Heap, e: Entry, f: Entry)
    requires DistinctIds(h) && e in h && f in h && e != f
    ensures e.id != f.id
  {
  }

  /** Two advances with nothing between them, the second not backwards, are one advance: the same
      timers fire in the same order, even among equal trigger times, and the clocks, the heap
      arrays and all channels end up the same. */
  lemma AdvanceAdds(s: ClockState, a: int, b: int)
    requires b >= 0
    ensures AfterAdvance(AfterAdvance(s, a), b) == AfterAdvance(s, a + b)
    ensures Fired(s.heap, s.now + (a + b))
      == Fired(s.heap, s.now + a) + Fired(AfterAdvance(s, a).heap, AfterAdvance(s, a).now + b)
  {
    hide Fired, Left, Deliver;
    var t, u := s.now + a, s.now + (a + b);
    FiredInTwoStages(s.heap, t, u);
    DeliverConcat(s.chans, Fired(s.heap, t), Fired(Left(s.heap, t), u));
  }

  /** The heap and clock reached agree exactly when the second advance is not backwards over a
      timer that the first one fires. */
  lemma AdvanceAddsExactlyWhen(s: ClockState, a: int, b: int)
    requires Inv(s)
    ensures AfterAdvance(AfterAdvance(s, a), b) == AfterAdvance(s, a + b)
      <==> b >= 0 || forall e :: e in s.heap ==> !(s.now + a + b < e.at <= s.now + a)
  {
    if b >= 0 { AdvanceAdds(s, a, b); } else { AdvancingBackAfterwards(s, a, b); }
  }

  lemma AdvancingBackAfterwards(s: ClockState, a: int, b: int)
    requires Inv(s) && b < 0
    ensures AfterAdvance(AfterAdvance(s, a), b) == AfterAdvance(s, a + b)
      <==> forall e :: e in s.heap ==> !(s.now + a + b < e.at <= s.now + a)
  {
    hide Fired, Left, Ordered;
    var t, u := s.now + a, s.now + a + b;
    NothingLeftIsDue(s.heap, t, u);
    var both, once := AfterAdvance(AfterAdvance(s, a), b), AfterAdvance(s, a + b);
    assert both == ClockState(u, Left(s.heap, t), Deliver(s.chans, Fired(s.heap, t)));
    assert once == ClockState(u, Left(s.heap, u), Deliver(s.chans, Fired(s.heap, u)));
    hide AfterAdvance, Deliver;
    FiredAndLeft(s.heap, t);
    FiredAndLeft(s.heap, u);
    if e :| e in s.heap && u < e.at <= t {
      assert e in once.heap && e !in both.heap;
    } else {
      FiredSameWhenNoneBetween(s.heap, u, t);
    }
  }

  lemma NothingLeftIsDue(h: Heap, t: int, u: int)
    requires Ordered(h) && u <= t
    ensures Fired(Left(h, t), u) == [] && Left(Left(h, t), u) == Left(h, t)
  {
    FiredExactly(h, t);
    NothingDue(Left(h, t), u);
  }

  lemma NothingDue(h: Heap, t: int)
    requires forall e :: e in h ==> e.at > t
    ensures Fired(h, t) == [] && Left(h, t) == h
  {
    if h != [] { assert h[0] in h; }
  }

  lemma FiredSameWhenNoneBetween(h: Heap, u: int, t: int)
    requires Ordered(h) && DistinctIds(h) && u <= t && forall e :: e in h ==> !(u < e.at <= t)
    ensures Fired(h, u) == Fired(h, t) && Left(h, u) == Left(h, t)
  {
    FiredInTwoStages(h, u, t);
    FiredAndLeft(h, u);
    hide Ordered;
    NothingDue(Left(h, u), t);
  }

  // ---- Every run ------------------------------------------------------------------------

  lemma OpKeepsInv(s: ClockState, op: Op)
    requires Inv(s)
    ensures Inv(After(s, op))
  {
    match op
    case NewTimer(d) => NewTimerKeepsInv(s, d);
    case Stop(id) => StopTakesOne(s, id);
    case Reset(id, d) => if Known(s, id) { ResetKeepsInv(s, id, d); }
    case Advance(d) => AdvanceKeepsInv(s, d);
    case Receive(id) =>
  }

  /** Every state that a new clock reaches, by any operations in any order, is well formed. */
  lemma {:induction false} EveryRunKeepsInv(s: ClockState, ops: seq<Op>)
    requires Inv(s)
    ensures Inv(Run(s, ops))
    decreases |ops|
  {
    if ops != [] {
      OpKeepsInv(s, ops[0]);
      EveryRunKeepsInv(After(s, ops[0]), ops[1..]);
    }
  }

  lemma ReachableIsWellFormed(start: int, ops: seq<Op>)
    ensures Inv(Run(ClockState(start, [], []), ops))
  {
    EveryRunKeepsInv(ClockState(start, [], []), ops);
  }

  lemma SingleSlot(e: Entry, t: int)
    ensures Push([], e) == [e] && Pop([e]) == []
    ensures Fired([e], t) == (if e.at <= t then [e] else []) && Left([e], t) == (if e.at <= t then [] else [e])
  {
    hide Swap, SmallerChild, Sinks;
    FiredStep([e], t);
    FiredStep([], t);
  }

  lemma SingleTimer(d: int)
    requires d > 0
    ensures Run(ClockState(0, [], []), [NewTimer(d)]) == ClockState(0, [Entry(1, d)], [Empty])
  {
    hide Push;
    SingleSlot(Entry(1, d), 0);
    var s := ClockState(0, [], []);
    assert AfterNewTimer(s, d) == ClockState(0, [Entry(1, d)], [Empty]);
    assert Run(After(s, NewTimer(d)), []) == After(s, NewTimer(d));
    assert [NewTimer(d)][1..] == [];
  }

  /** Such a stretch is reachable: with one timer set to 5, going on by 10 and back by 10 fires it,
      and staying put does not. */
  lemma GoingBackIsNotStaying()
    ensures var s := Run(ClockState(0, [], []), [NewTimer(5)]);
      && AfterAdvance(AfterAdvance(s, 10), -10) != AfterAdvance(s, 10 + -10)
      && AfterAdvance(s, 0).chans == [Empty] && AfterAdvance(AfterAdvance(s, 10), -10).chans == [Holding(5)]
  {
    SingleTimer(5);
    hide Run, Fired, Left;
    SingleSlot(Entry(1, 5), 10);
    SingleSlot(Entry(1, 5), 0);
    FiredStep([], 0);
    assert Deliver([Empty], [Entry(1, 5)]) == Deliver([Holding(5)], []);
  }
}
