/** The broadcaster as it is written: a map of sets of channels updated in place, with loops over
    the sets in any order. Each method is proved to be the step that BroadcasterModel gives it. */
module Broadcaster {
  import opened BroadcasterModel

  class EventBroadcaster {
    var subscribers: map<string, set<nat>>
    var chans: seq<Chan>    // every channel made so far
    var broken: bool        // a send on a closed channel or a second close, which panics

    ghost function State(): BusState
      reads this
    {
      BusState(subscribers, chans, broken)
    }

    ghost predicate Valid()
      reads this
    {
      Inv(State())
    }

    constructor ()
      ensures Valid() && State() == INIT
    {
      subscribers, chans, broken := map[], [], false;
      new;
      InitHasInv();
    }

    method Subscribe(app: string) returns (ch: nat)
      requires Valid()
      modifies this
      ensures Valid() && State() == AfterSubscribe(old(State()), app) && ch == |old(chans)|
    {
      SubscribeKeepsInv(State(), app);
      hide Inv;
      ch := |chans|;
      chans := chans + [Chan(app, [], [], 0)];
      if app !in subscribers {
        subscribers := subscribers[app := {}];
      }
      subscribers := subscribers[app := subscribers[app] + {ch}];
      assert subscribers == AfterSubscribe(old(State()), app).subscribers;
    }

    // The function that Subscribe hands out for channel ch.
    method Cancel(ch: nat)
      requires Valid() && ch < |chans|
      modifies this
      ensures Valid() && State() == AfterCancel(old(State()), ch)
      ensures old(chans)[ch].cancels == 0 ==> broken == old(broken)
    {
      CancelKeepsInv(State(), ch);
      assert AppOk(State(), chans[ch].app);
      hide Inv;
      var app := chans[ch].app;
      if app in subscribers {
        subscribers := subscribers[app := subscribers[app] - {ch}];
        if subscribers[app] == {} {
          subscribers := subscribers - {app};
        }
      }
      assert subscribers == Without(old(subscribers), app, ch);
      broken := broken || Closed(chans[ch]);
      chans := chans[ch := chans[ch].(cancels := chans[ch].cancels + 1)];
    }

    // Offer the event to every channel in subs, in any order.
    method Offer(subs: set<nat>, e: Event)
      requires forall k <- subs :: k < |chans| && !Closed(chans[k])
      modifies this`chans, this`broken
      ensures |chans| == |old(chans)|
      ensures forall k :: 0 <= k < |chans| ==>
        chans[k] == if k in subs then Offered(old(chans)[k], e) else old(chans)[k]
      ensures broken == old(broken)
    {
      ghost var before := chans;
      var left := subs;
      while left != {}
        invariant left <= subs && |chans| == |before|
        invariant forall k :: 0 <= k < |chans| ==>
          chans[k] == if k in subs && k !in left then Offered(before[k], e) else before[k]
        invariant broken == old(broken)
        decreases |left|
      {
        var ch :| ch in left;
        left := left - {ch};
        broken := broken || Closed(chans[ch]);
        var c := chans[ch];
        if |c.buf| < CAPACITY {
          chans := chans[ch := c.(buf := c.buf + [e], history := c.history + [e])];
        }
      }
    }

    /** No channel that Publish reaches is closed. */
    method Publish(e: Event)
      requires Valid()
      modifies this`chans, this`broken
      ensures Valid() && State() == AfterPublish(old(State()), e) && broken == old(broken)
    {
      ghost var s := State();
      PublishKeepsInv(s, e);
      assert AppOk(s, e.app) && AppOk(s, "");
      ReachedTwiceByNone(s, e);
      hide Inv;
      if e.app != "" {
        if e.app in subscribers {
          Offer(subscribers[e.app], e);
        }
      }
      if "" in subscribers {
        Offer(subscribers[""], e);
      }
      assert chans == AfterPublish(s, e).chans;
      assert broken == s.broken;
    }

    method Receive(ch: nat) returns (got: seq<Event>)
      requires Valid() && ch < |chans|
      modifies this`chans
      ensures Valid() && State() == AfterReceive(old(State()), ch)
      ensures got == if old(chans)[ch].buf == [] then [] else [old(chans)[ch].buf[0]]
    {
      ReceiveKeepsInv(State(), ch);
      hide Inv;
      var c := chans[ch];
      got := [];
      if c.buf != [] {
        got := [c.buf[0]];
        chans := chans[ch := c.(buf := c.buf[1..])];
      }
    }
  }

  // The two sets of subscribers that an event goes to are apart and open.
  lemma ReachedTwiceByNone(s: BusState, e: Event)
    requires Inv(s)
    ensures e.app != "" ==> Subs(s, e.app) !! Subs(s, "")
    ensures forall k :: k in Subs(s, e.app) || k in Subs(s, "") ==> k < |s.chans| && !Closed(s.chans[k])
  {
    assert AppOk(s, e.app) && AppOk(s, "");
    forall k: nat | k in Subs(s, e.app) || k in Subs(s, "")
      ensures k < |s.chans| && !Closed(s.chans[k]) && (e.app != "" ==> !(k in Subs(s, e.app) && k in Subs(s, "")))
    {
      assert Registered(s, k);
    }
  }
}
