/** The virtual clock as it is written: timer objects that store their own heap position, and a
    clock that sifts the heap by swapping slots in place. Every method is proved to take the
    object state through exactly the step that ClockModel gives it. */
module VirtualClocks {
  import opened TimerHeap
  import opened ClockModel

  class VirtualTimer {
    const vc: VirtualClock
    const id: nat
    var triggerAt: int
    var ch: Chan
    var active: bool
    var index: int

    constructor (vc: VirtualClock, id: nat, triggerAt: int)
      ensures this.vc == vc && this.id == id && this.triggerAt == triggerAt
      ensures ch == Empty && active && index == 0
    {
      this.vc, this.id, this.triggerAt := vc, id, triggerAt;
      ch, active, index := Empty, true, 0;
    }

    method Stop() returns (was: bool)
      requires vc.Valid() && vc.Owns(this)
      modifies vc, vc.created
      ensures vc.Valid() && vc.created == old(vc.created)
      ensures vc.State() == AfterStop(old(vc.State()), id)
      ensures was == old(active)
    {
      hide TimerHeap.Remove, Ordered, DistinctIds, VirtualClock.View, VirtualClock.Held, Channels;
      ghost var before, after := vc.State(), AfterStop(vc.State(), id);
      StopTakesOne(before, id);
      vc.ActiveHoldsItsSlot(this);
      assert after == if active then before.(heap := TimerHeap.Remove(before.heap, index)) else before;
      hide Inv, Active, AfterStop;
      if !active {
        return false;
      }
      active := false;
      if 0 <= index < |vc.timers| {
        vc.Remove(index);
      }
      assert vc.State() == after;
      return true;
    }

    method Reset(d: int) returns (wasActive: bool)
      requires vc.Valid() && vc.Owns(this)
      modifies vc, vc.created
      ensures vc.Valid() && vc.created == old(vc.created)
      ensures vc.State() == AfterReset(old(vc.State()), id, d)
      ensures wasActive == old(active)
    {
      hide TimerHeap.Remove, TimerHeap.Push, Ordered, DistinctIds;
      hide VirtualClock.View, VirtualClock.Held, Channels;
      ghost var before := vc.State();
      ghost var rest := AfterStop(before, id);
      ResetKeepsInv(before, id, d);
      vc.ActiveHoldsItsSlot(this);
      assert rest == if active then before.(heap := TimerHeap.Remove(before.heap, index)) else before;
      assert AfterReset(before, id, d) == Armed(rest.(chans := rest.chans[id - 1 := Empty]), id, d);
      hide Inv, Active, AfterStop, AfterReset;
      wasActive := active;
      if wasActive && 0 <= index < |vc.timers| {
        vc.Remove(index);
      }
      assert vc.State() == rest;
      Rearm(d);
    }

    // A receive from the timer's channel that gives up when there is nothing.
    method Receive() returns (got: Chan)
      requires vc.Valid() && vc.Owns(this)
      modifies this`ch
      ensures vc.Valid() && vc.State() == AfterReceive(old(vc.State()), id)
      ensures got == old(ch) && ch == Empty
    {
      hide VirtualClock.View, VirtualClock.Held, Channels, Ordered, DistinctIds;
      got := ch;
      ch := Empty;
      assert vc.View() == old(vc.View());
      assert vc.State().chans == AfterReceive(old(vc.State()), id).chans;
    }

    // The second half of Reset, on a timer that holds no slot.
    method Rearm(d: int)
      requires vc.Numbered() && vc.Indexed() && vc.Owns(this) && this !in vc.Held()
      requires vc.OthersActiveAreSlots(this)
      modifies vc`timers, vc.created`index, this
      ensures vc.Wired()
      ensures vc.State() == Armed(old(vc.State()).(chans := old(vc.State()).chans[id - 1 := Empty]), id, d)
    {
      hide VirtualClock.View, VirtualClock.Held, Armed;
      triggerAt := vc.now + d;
      active := true;
      index := -1;
      ch := Empty;
      assert vc.View() == old(vc.View());
      assert vc.State().chans == old(vc.State()).chans[id - 1 := Empty];
      vc.Arm(this, d);
    }
  }

  ghost function Slots(ts: seq<VirtualTimer>): (h: Heap)
    reads ts`triggerAt
    ensures |h| == |ts| && forall i :: 0 <= i < |ts| ==> h[i] == Entry(ts[i].id, ts[i].triggerAt)
  {
    if ts == [] then [] else [Entry(ts[0].id, ts[0].triggerAt)] + Slots(ts[1..])
  }

  ghost function Channels(ts: seq<VirtualTimer>): (c: seq<Chan>)
    reads ts`ch
    ensures |c| == |ts| && forall i :: 0 <= i < |ts| ==> c[i] == ts[i].ch
  {
    if ts == [] then [] else [ts[0].ch] + Channels(ts[1..])
  }

  lemma ChannelsOfOneMore(ts: seq<VirtualTimer>, t: VirtualTimer)
    ensures Channels(ts + [t]) == Channels(ts) + [t.ch]
  {
  }

  lemma SlotsOfOneMore(ts: seq<VirtualTimer>, t: VirtualTimer)
    ensures Slots(ts + [t]) == Slots(ts) + [Entry(t.id, t.triggerAt)]
  {
  }

  ghost function Elements(ts: seq<VirtualTimer>): (held: set<VirtualTimer>)
    ensures forall i :: 0 <= i < |ts| ==> ts[i] in held
  {
    set t | t in ts
  }

  lemma ElementsAfterSwap(ts: seq<VirtualTimer>, i: nat, j: nat)
    requires i < |ts| && j < |ts|
    ensures Elements(ts[i := ts[j]][j := ts[i]]) == Elements(ts)
  {
    var us := ts[i := ts[j]][j := ts[i]];
    forall t | t in ts ensures t in us {
      var k :| 0 <= k < |ts| && ts[k] == t;
      assert us[if k == i then j else if k == j then i else k] == t;
    }
  }

  lemma ElementsAfterCut(ts: seq<VirtualTimer>)
    requires |ts| > 0 && ts[|ts| - 1] !in ts[..|ts| - 1]
    ensures Elements(ts[..|ts| - 1]) == Elements(ts) - {ts[|ts| - 1]}
  {
    assert ts == ts[..|ts| - 1] + [ts[|ts| - 1]];
  }

  class VirtualClock {
    var now: int
    var timers: seq<VirtualTimer>
    var nextID: nat
    ghost var created: seq<VirtualTimer>

    ghost predicate Owns(t: VirtualTimer)
      reads this`created
    {
      1 <= t.id <= |created| && created[t.id - 1] == t
    }

    ghost function Held(): (held: set<VirtualTimer>)
      reads this`timers
      ensures forall i :: 0 <= i < |timers| ==> timers[i] in held
    {
      Elements(timers)
    }

    // Every slot's timer knows its own position.
    ghost predicate Indexed()
      reads this`timers, this`created, timers`index
    {
      forall i :: 0 <= i < |timers| ==> Owns(timers[i]) && timers[i].index == i
    }

    ghost function View(): (h: Heap)
      reads this`timers, timers`triggerAt
      ensures |h| == |timers|
      ensures forall i :: 0 <= i < |timers| ==> h[i] == Entry(timers[i].id, timers[i].triggerAt)
    {
      Slots(timers)
    }

    ghost function State(): (s: ClockState)
      reads this`now, this`timers, this`created, timers`triggerAt, created`ch
    {
      ClockState(now, View(), Channels(created))
    }

    // Identities count up from 1 in the order of creation.
    ghost predicate Numbered()
      reads this`nextID, this`created
    {
      && nextID == |created|
      && (forall k :: 0 <= k < |created| ==> created[k].vc == this && created[k].id == k + 1)
    }

    ghost predicate ActiveAreSlots()
      reads this`timers, this`created, created`active
    {
      forall k :: 0 <= k < |created| ==> (created[k].active <==> created[k] in Held())
    }

    ghost predicate OthersActiveAreSlots(t: VirtualTimer)
      reads this`timers, this`created, created`active
    {
      forall k :: 0 <= k < |created| && created[k] != t ==> (created[k].active <==> created[k] in Held())
    }

    ghost predicate Wired()
      reads this, timers, created
    {
      Numbered() && Indexed() && ActiveAreSlots()
    }

    ghost predicate Valid()
      reads this, timers, created
    {
      Wired() && Inv(State())
    }

    constructor (initTime: int)
      ensures Valid() && created == [] && State() == ClockState(initTime, [], [])
    {
      now, timers, nextID, created := initTime, [], 0, [];
    }

    method Swap(i: nat, j: nat)
      requires i < |timers| && j < |timers| && Indexed()
      modifies this`timers, created`index
      ensures Indexed() && View() == TimerHeap.Swap(old(View()), i, j)
      ensures timers == old(timers[i := timers[j]][j := timers[i]])
      ensures Held() == old(Held())
    {
      hide View, Elements;
      ElementsAfterSwap(timers, i, j);
      timers := timers[i := timers[j]][j := timers[i]];
      timers[i].index := i;
      timers[j].index := j;
    }

    // The library's up.
    method Up(start: nat)
      requires start < |timers| && Indexed()
      modifies this`timers, created`index
      ensures Indexed() && View() == TimerHeap.Up(old(View()), start)
      ensures Held() == old(Held())
      ensures timers[start + 1..] == old(timers[start + 1..])
    {
      hide TimerHeap.Swap, View, Held;
      var j := start;
      while true
        invariant 0 <= j <= start < |timers| && Indexed()
        invariant Held() == old(Held())
        invariant timers[start + 1..] == old(timers[start + 1..])
        invariant TimerHeap.Up(View(), j) == TimerHeap.Up(old(View()), start)
        decreases j
      {
        var i := if j == 0 then 0 else (j - 1) / 2;
        if i == j || !(timers[j].triggerAt < timers[i].triggerAt) {
          break;
        }
        assert TimerHeap.Up(View(), j) == TimerHeap.Up(TimerHeap.Swap(View(), i, j), i);
        Swap(i, j);
        j := i;
      }
    }

    // The library's down on the first n slots; reports whether anything moved.
    method Down(start: nat, n: nat) returns (moved: bool)
      requires n <= |timers| && Indexed()
      modifies this`timers, created`index
      ensures Indexed() && View() == TimerHeap.Down(old(View()), start, n)
      ensures Held() == old(Held())
      ensures timers[n..] == old(timers[n..])
      ensures moved == Sinks(old(View()), start, n) && (!moved ==> View() == old(View()))
    {
      hide TimerHeap.Swap, View, Held;
      var i := start;
      while true
        invariant start <= i && n <= |timers| && Indexed()
        invariant Held() == old(Held())
        invariant TimerHeap.Down(View(), i, n) == TimerHeap.Down(old(View()), start, n)
        invariant timers[n..] == old(timers[n..])
        invariant if i == start then View() == old(View()) else Sinks(old(View()), start, n)
        decreases n - i
      {
        var j1 := 2 * i + 1;
        if j1 >= n {
          break;
        }
        var j := j1;
        var j2 := j1 + 1;
        if j2 < n && timers[j2].triggerAt < timers[j1].triggerAt {
          j := j2;
        }
        assert j == SmallerChild(View(), i, n);
        if !(timers[j].triggerAt < timers[i].triggerAt) {
          break;
        }
        Swap(i, j);
        i := j;
      }
      moved := i > start;
    }

    // The clock's own Push and Pop: append a slot, cut the last slot.
    method Append(vt: VirtualTimer)
      requires Indexed() && Owns(vt) && vt !in Held()
      modifies this`timers, created`index
      ensures Indexed() && timers == old(timers) + [vt]
      ensures View() == old(View()) + [Entry(vt.id, vt.triggerAt)]
      ensures Held() == old(Held()) + {vt}
    {
      hide View;
      vt.index := |timers|;
      timers := timers + [vt];
    }

    method CutLast() returns (item: VirtualTimer)
      requires |timers| > 0 && Indexed()
      modifies this`timers, created`index
      ensures Indexed() && item == old(timers)[|old(timers)| - 1] && item.index == -1
      ensures timers == old(timers)[..|old(timers)| - 1]
      ensures View() == old(View())[..|old(timers)| - 1]
      ensures Held() == old(Held()) - {item}
    {
      hide View, Elements;
      var n := |timers|;
      ElementsAfterCut(timers);
      item := timers[n - 1];
      item.index := -1;
      timers := timers[..n - 1];
    }

    method Push(vt: VirtualTimer)
      requires Indexed() && Owns(vt) && vt !in Held()
      modifies this`timers, created`index
      ensures Indexed()
      ensures View() == TimerHeap.Push(old(View()), Entry(vt.id, vt.triggerAt))
      ensures Held() == old(Held()) + {vt}
    {
      hide View, Held, TimerHeap.Up;
      Append(vt);
      Up(|timers| - 1);
    }

    method Pop() returns (item: VirtualTimer)
      requires |timers| > 0 && Indexed()
      modifies this`timers, created`index
      ensures Indexed() && View() == TimerHeap.Pop(old(View()))
      ensures item == old(timers[0]) && item.index == -1
      ensures Held() == old(Held()) - {item}
    {
      hide TimerHeap.Down, TimerHeap.Swap, View, Held;
      var n := |timers| - 1;
      Swap(0, n);
      assert timers[n..] == [old(timers[0])];
      var _ := Down(0, n);
      assert timers[n] == timers[n..][0];
      item := CutLast();
    }

    // The library's Fix: slot i sinks within the first n slots, or else rises.
    method Fix(i: nat, n: nat)
      requires i < n <= |timers| && Indexed()
      modifies this`timers, created`index
      ensures Indexed() && View() == Refill(old(View()), i, n)
      ensures timers[n..] == old(timers[n..])
      ensures Held() == old(Held())
    {
      hide TimerHeap.Down, TimerHeap.Up, TimerHeap.Swap, View, Held;
      var moved := Down(i, n);
      if !moved {
        Up(i);
        assert timers[n..] == timers[i + 1..][n - i - 1..];
      }
    }

    method Remove(i: nat)
      requires i < |timers| && Indexed()
      modifies this`timers, created`index
      ensures Indexed() && View() == TimerHeap.Remove(old(View()), i)
      ensures old(timers[i]).index == -1
      ensures Held() == old(Held()) - {old(timers[i])}
    {
      hide TimerHeap.Swap, Refill, View, Held;
      var n := |timers| - 1;
      if n != i {
        Swap(i, n);
        assert timers[n..] == [old(timers[i])];
        Fix(i, n);
        assert timers[n] == timers[n..][0];
      }
      var _ := CutLast();
    }

    // A timer is active exactly when it holds a slot, and then its stored position is that slot.
    lemma ActiveHoldsItsSlot(t: VirtualTimer)
      requires Wired() && DistinctIds(View()) && Owns(t)
      ensures t.active <==> Active(State(), t.id)
      ensures t.active ==> 0 <= t.index < |timers| && timers[t.index] == t && Slot(View(), t.id) == t.index
    {
      if t.active {
        var i :| 0 <= i < |timers| && timers[i] == t;
        assert View()[i].id == t.id;
      } else {
        forall k | 0 <= k < |timers| ensures View()[k].id != t.id {
          assert timers[k] in Held();
        }
      }
    }

    lemma HeldIsOwned(t: VirtualTimer)
      requires Indexed()
      ensures t in Held() ==> Owns(t)
    {
    }

    // The common end of NewTimer and Reset: fire at once, or take a slot.
    method Arm(vt: VirtualTimer, d: int)
      requires Numbered() && Indexed() && Owns(vt) && vt !in Held()
      requires vt.active && vt.ch == Empty && vt.triggerAt == now + d
      requires OthersActiveAreSlots(vt)
      modifies this`timers, created`index, vt`ch, vt`active
      ensures Wired()
      ensures State() == Armed(old(State()), vt.id, d)
    {
      hide View, Held, Channels, TimerHeap.Push;
      if d <= 0 {
        vt.ch := Holding(vt.triggerAt);
        vt.active := false;
        assert View() == old(View());
        assert Channels(created) == old(Channels(created))[vt.id - 1 := Holding(vt.triggerAt)];
      } else {
        Push(vt);
        assert Channels(created) == old(Channels(created));
      }
    }

    method NewTimer(d: int) returns (vt: VirtualTimer)
      requires Valid()
      modifies this, created
      ensures Valid() && fresh(vt) && created == old(created) + [vt]
      ensures State() == AfterNewTimer(old(State()), d)
    {
      hide TimerHeap.Push, Ordered, DistinctIds, View, Held, Channels;
      NewTimerKeepsInv(State(), d);
      hide Inv;
      vt := Create(d);
      Arm(vt, d);
    }

    // The first half of NewTimer: the next identity, and a timer that holds no slot yet.
    method Create(d: int) returns (vt: VirtualTimer)
      requires Wired()
      modifies this`nextID, this`created
      ensures Numbered() && Indexed() && Owns(vt) && OthersActiveAreSlots(vt)
      ensures fresh(vt) && created == old(created) + [vt] && vt !in Held()
      ensures vt.triggerAt == now + d && vt.ch == Empty && vt.active && vt.id == |created|
      ensures State() == old(State()).(chans := old(State()).chans + [Empty])
    {
      hide View, Held, Channels;
      nextID := nextID + 1;
      vt := new VirtualTimer(this, nextID, now + d);
      HeldIsOwned(vt);
      created := created + [vt];
      ChannelsOfOneMore(old(created), vt);
    }

    method Advance(d: int)
      requires Valid()
      modifies this, created
      ensures Valid() && created == old(created)
      ensures State() == AfterAdvance(old(State()), d)
    {
      hide Ordered, DistinctIds, View, Held, Channels, Slots, Fired, Left, Deliver, Indexed, Numbered, ActiveAreSlots;
      ghost var before, after := State(), AfterAdvance(State(), d);
      AdvanceKeepsInv(before, d);
      assert after == ClockState(now + d, Left(View(), now + d), Deliver(before.chans, Fired(View(), now + d)));
      hide Inv, AfterAdvance;
      now := now + d;
      assert View() == before.heap && Wired();
      var expired := Expire();
      assert Channels(created) == before.chans;
      Notify(expired);
      assert State() == after;
    }

    // The loop under the lock: pop while the root is due.
    method Expire() returns (expired: seq<VirtualTimer>)
      requires Wired()
      modifies this`timers, created`index, created`active
      ensures Wired()
      ensures Slots(expired) == Fired(old(View()), now) && View() == Left(old(View()), now)
      ensures forall i :: 0 <= i < |expired| ==> Owns(expired[i])
    {
      hide View, Held, TimerHeap.Pop, Slots, Fired, Left;
      expired := [];
      FiredStep(View(), now);
      while |timers| > 0
        invariant Wired()
        invariant forall i :: 0 <= i < |expired| ==> Owns(expired[i])
        invariant Slots(expired) + Fired(View(), now) == Fired(old(View()), now)
        invariant Left(View(), now) == Left(old(View()), now)
        decreases |timers|
      {
        var earliest := timers[0];
        if earliest.triggerAt > now {
          break;
        }
        FiredStep(View(), now);
        earliest := ExpireRoot();
        SlotsOfOneMore(expired, earliest);
        expired := expired + [earliest];
      }
      FiredStep(View(), now);
      assert Slots(expired) + [] == Slots(expired);
    }

    // One turn of that loop. The timer popped was active, as Wired says, so it is always collected.
    method ExpireRoot() returns (earliest: VirtualTimer)
      requires Wired() && |timers| > 0
      modifies this`timers, created`index, created`active
      ensures Wired() && View() == TimerHeap.Pop(old(View()))
      ensures earliest == old(timers[0]) && old(timers[0].active) && Owns(earliest)
    {
      hide View, Held, TimerHeap.Pop;
      assert timers[0] in Held() && timers[0].active;
      earliest := Pop();
      if earliest.active {
        earliest.active := false;
      }
    }

    // The loop after the lock: offer each fired timer its trigger time.
    method Notify(expired: seq<VirtualTimer>)
      requires Wired() && forall i :: 0 <= i < |expired| ==> Owns(expired[i])
      modifies created`ch
      ensures Wired() && View() == old(View())
      ensures Channels(created) == Deliver(old(Channels(created)), Slots(expired))
    {
      hide Slots, Channels, ClockModel.Offer, View, Held;
      assert Slots(expired)[0..] == Slots(expired);
      for k := 0 to |expired|
        invariant Deliver(Channels(created), Slots(expired)[k..]) == Deliver(old(Channels(created)), Slots(expired))
      {
        assert Slots(expired)[k..][1..] == Slots(expired)[k + 1..];
        Offer(expired[k]);
      }
    }

    // A send that gives up when the channel is taken.
    method Offer(vt: VirtualTimer)
      requires Numbered() && Owns(vt)
      modifies vt`ch
      ensures Channels(created) == ClockModel.Offer(old(Channels(created)), Entry(vt.id, vt.triggerAt))
    {
      hide Channels;
      if vt.ch == Empty {
        vt.ch := Holding(vt.triggerAt);
      }
    }
  }
}
