/** The registry of connected executors on plain values: connection replacement, removal of the
    current connection only, and round-robin selection. */
module RegistryModel {
  import opened Options
  import opened Sorting
  import opened RoundRobin

  // id tells connections apart; several may serve the same application and executor over time.
  datatype Conn = Conn(id: nat, app: nat, executor: string)

  datatype RegState = RegState(byApp: map<nat, map<string, Conn>>, rr: map<nat, nat>)

  datatype Event = Register(c: Conn) | Unregister(c: Conn) | Select(app: nat, exclude: string)

  function AppMap(s: RegState, app: nat): map<string, Conn> {
    if app in s.byApp then s.byApp[app] else map[]
  }

  function Lookup(s: RegState, app: nat, executor: string): Option<Conn> {
    if executor in AppMap(s, app) then Some(AppMap(s, app)[executor]) else None
  }

  predicate SameKey(c: Conn, d: Conn) { c.app == d.app && c.executor == d.executor }

  function AfterRegister(s: RegState, c: Conn): RegState {
    s.(byApp := s.byApp[c.app := AppMap(s, c.app)[c.executor := c]])
  }

  // True when Unregister finds the connection current, and so reports the disconnect.
  predicate Current(s: RegState, c: Conn) { Lookup(s, c.app, c.executor) == Some(c) }

  function AfterUnregister(s: RegState, c: Conn): RegState {
    if !Current(s, c) then s
    else
      var rest := AppMap(s, c.app) - {c.executor};
      if rest == map[] then RegState(s.byApp - {c.app}, s.rr - {c.app})
      else s.(byApp := s.byApp[c.app := rest])
  }

  function Eligible(s: RegState, app: nat, exclude: string): set<string> {
    AppMap(s, app).Keys - {exclude}
  }

  function Counter(s: RegState, app: nat): nat { if app in s.rr then s.rr[app] else 0 }

  function AfterSelect(s: RegState, app: nat, exclude: string): RegState {
    if Eligible(s, app, exclude) == {} then s
    else s.(rr := s.rr[app := (Counter(s, app) + 1) % WRAP])
  }

  // ---- The candidates in order ----------------------------------------------------------

  ghost predicate Lists(r: seq<string>, names: set<string>) {
    Sorted(StringLess, r) && NoDuplicates(r) && forall x :: x in r <==> x in names
  }

  lemma {:induction false} ListingExists(names: set<string>)
    ensures exists r :: Lists(r, names)
    decreases |names|
  {
    if names == {} {
      assert Lists([], names);
    } else {
      var x :| x in names;
      ListingExists(names - {x});
      var t :| Lists(t, names - {x});
      SortOfListing([x] + t, names);
      assert Lists(Sort(StringLess, [x] + t), names);
    }
  }

  // However the names are enumerated, sorting them gives the listing.
  lemma SortOfListing(ids: seq<string>, names: set<string>)
    requires NoDuplicates(ids) && forall x :: x in ids <==> x in names
    ensures Lists(Sort(StringLess, ids), names)
  {
    StringLessIsStrictTotal();
    TotalIsWeak(StringLess);
    SortIsSortedPermutation(StringLess, ids);
    PermutationKeepsNoDuplicates(ids, Sort(StringLess, ids));
  }

  lemma ListingIsUnique(a: seq<string>, b: seq<string>, names: set<string>)
    requires Lists(a, names) && Lists(b, names)
    ensures a == b
  {
    StringLessIsStrictTotal();
    SameElementsSameMultiset(a, b);
    SortedArrangementIsUnique(StringLess, a, b);
  }

  ghost function Listing(names: set<string>): (r: seq<string>)
    ensures Lists(r, names)
  {
    ListingExists(names);
    var r :| Lists(r, names); r
  }

  ghost function Choice(s: RegState, app: nat, exclude: string): (c: Conn)
    requires Eligible(s, app, exclude) != {}
    ensures exists e :: e in Eligible(s, app, exclude) && c == AppMap(s, app)[e]
  {
    var ids := Listing(Eligible(s, app, exclude));
    NonemptyListing(Eligible(s, app, exclude));
    var e := ids[Counter(s, app) % |ids|];
    assert e in ids;
    AppMap(s, app)[e]
  }

  lemma NonemptyListing(names: set<string>)
    requires names != {}
    ensures Listing(names) != []
  {
    var x :| x in names;
    assert x in Listing(names);
  }

  // ---- Histories ------------------------------------------------------------------------

  function After(s: RegState, e: Event): RegState {
    match e
    case Register(c) => AfterRegister(s, c)
    case Unregister(c) => AfterUnregister(s, c)
    case Select(app, exclude) => AfterSelect(s, app, exclude)
  }

  function AfterAll(s: RegState, events: seq<Event>): RegState
    decreases |events|
  {
    if events == [] then s else AfterAll(After(s, events[0]), events[1..])
  }

  function Reached(hist: seq<Event>): RegState {
    if hist == [] then RegState(map[], map[])
    else After(Reached(hist[..|hist| - 1]), hist[|hist| - 1])
  }

  // The connections whose removal was reported as a disconnect, in order.
  function Reports(hist: seq<Event>): seq<Conn> {
    if hist == [] then []
    else
      var before, e := hist[..|hist| - 1], hist[|hist| - 1];
      Reports(before) + if e.Unregister? && Current(Reached(before), e.c) then [e.c] else []
  }

  predicate Ends(e: Event, c: Conn) {
    e == Unregister(c) || (e.Register? && SameKey(e.c, c))
  }

  // Connection c was registered at step i, and since then neither closed nor replaced.
  ghost predicate LiveSince(hist: seq<Event>, i: nat, c: Conn) {
    i < |hist| && hist[i] == Register(c) && forall j :: i < j < |hist| ==> !Ends(hist[j], c)
  }

  lemma LookupAfter(s: RegState, e: Event, app: nat, executor: string)
    ensures Lookup(After(s, e), app, executor) ==
      if e.Register? && e.c.app == app && e.c.executor == executor then Some(e.c)
      else if e.Unregister? && e.c.app == app && e.c.executor == executor
              && Lookup(s, app, executor) == Some(e.c) then None
      else Lookup(s, app, executor)
  {
  }

  /** In every reachable state the registry holds, under each key, exactly the last connection
      registered for it, unless that one has closed since. */
  lemma {:induction false} HoldsTheLastLiveConnection(hist: seq<Event>, c: Conn)
    ensures Current(Reached(hist), c) <==> exists i :: LiveSince(hist, i, c)
    decreases |hist|
  {
    if hist == [] {
    } else {
      var before, last := hist[..|hist| - 1], hist[|hist| - 1];
      HoldsTheLastLiveConnection(before, c);
      LookupAfter(Reached(before), last, c.app, c.executor);
      assert Reached(hist) == After(Reached(before), last);
      hide Reached, After, Lookup;
      if Current(Reached(before), c) && !Ends(last, c) {
        var i :| LiveSince(before, i, c);
        assert LiveSince(hist, i, c);
      }
      if last == Register(c) { assert LiveSince(hist, |hist| - 1, c); }
      if i: nat :| LiveSince(hist, i, c) && i < |hist| - 1 {
        assert forall j :: 0 <= j < |before| ==> before[j] == hist[j];
        assert LiveSince(before, i, c);
      }
    }
  }

  /** A connection that has been replaced takes nothing with it when it closes: the registry stays
      as it is and no disconnect is reported. */
  lemma SupersededNeverEvicts(hist: seq<Event>, i: nat, replacement: Conn, old_: Conn)
    requires LiveSince(hist, i, replacement) && SameKey(old_, replacement) && old_ != replacement
    ensures Reached(hist + [Unregister(old_)]) == Reached(hist)
    ensures Reports(hist + [Unregister(old_)]) == Reports(hist)
  {
    HoldsTheLastLiveConnection(hist, replacement);
    assert (hist + [Unregister(old_)])[..|hist|] == hist;
  }

  function Registrations(hist: seq<Event>, c: Conn): nat {
    if hist == [] then 0
    else Registrations(hist[..|hist| - 1], c) + if hist[|hist| - 1] == Register(c) then 1 else 0
  }

  /** A connection is reported disconnected at most as often as it was registered, and once less
      while it is still current: registered once, reported at most once. */
  lemma {:induction false} ReportedAtMostOncePerRegistration(hist: seq<Event>, c: Conn)
    ensures multiset(Reports(hist))[c] + (if Current(Reached(hist), c) then 1 else 0) <= Registrations(hist, c)
    decreases |hist|
  {
    if hist != [] {
      var before, last := hist[..|hist| - 1], hist[|hist| - 1];
      ReportedAtMostOncePerRegistration(before, c);
      LookupAfter(Reached(before), last, c.app, c.executor);
      assert Reached(hist) == After(Reached(before), last);
      hide Reached, After, Lookup;
    }
  }

  /** A close is reported exactly when it is that of the last connection registered for its key, not
      closed since; nothing else is reported. */
  lemma ReportedExactlyWhenLive(hist: seq<Event>, e: Event)
    ensures e.Unregister? && (exists i :: LiveSince(hist, i, e.c)) ==> Reports(hist + [e]) == Reports(hist) + [e.c]
    ensures !e.Unregister? || (forall i :: !LiveSince(hist, i, e.c)) ==> Reports(hist + [e]) == Reports(hist)
  {
    assert (hist + [e])[..|hist|] == hist;
    if e.Unregister? { HoldsTheLastLiveConnection(hist, e.c); }
    hide Reached, LiveSince, Current;
  }

  /** Events one after the other reach what the history reaches. */
  lemma {:induction false} AllTogether(hist: seq<Event>, more: seq<Event>)
    ensures AfterAll(Reached(hist), more) == Reached(hist + more)
    decreases |more|
  {
    if more == [] {
      assert hist + more == hist;
    } else {
      assert (hist + [more[0]])[..|hist|] == hist;
      assert hist + more == hist + [more[0]] + more[1..];
      assert Reached(hist + [more[0]]) == After(Reached(hist), more[0]);
      hide Reached, After;
      AllTogether(hist + [more[0]], more[1..]);
    }
  }

  // ---- Shape ----------------------------------------------------------------------------

  predicate AppOk(s: RegState, app: nat) {
    && (app in s.byApp ==> s.byApp[app] != map[])
    && (app in s.rr ==> app in s.byApp && s.rr[app] < WRAP)
    && (forall e :: e in AppMap(s, app) ==> AppMap(s, app)[e].app == app && AppMap(s, app)[e].executor == e)
  }

  ghost predicate Shape(s: RegState) { forall app :: AppOk(s, app) }

  lemma AfterKeepsShape(s: RegState, e: Event)
    requires Shape(s)
    ensures Shape(After(s, e))
  {
    forall app ensures AppOk(After(s, e), app) {
      assert AppOk(s, app);
      var old_, new_ := AppMap(s, app), AppMap(After(s, e), app);
      match e {
        case Register(c) =>
          assert new_ == if c.app == app then old_[c.executor := c] else old_;
          if c.app == app { assert c.executor in new_; }
        case Unregister(c) =>
          assert new_ == if Current(s, c) && c.app == app then old_ - {c.executor} else old_;
          forall x | x in new_ ensures new_[x].app == app && new_[x].executor == x {
            assert x in old_ && new_[x] == old_[x];
          }
        case Select(_, _) =>
      }
    }
  }

  /** In every reachable state no application has an empty map, a selection counter exists only for
      an application with connections, and each connection sits under its own key. */
  lemma {:induction false} EveryHistoryKeepsShape(hist: seq<Event>)
    ensures Shape(Reached(hist))
    decreases |hist|
  {
    hide After, Shape;
    if hist == [] {
      assert Shape(Reached([])) by { EmptyShape(); }
    } else {
      EveryHistoryKeepsShape(hist[..|hist| - 1]);
      AfterKeepsShape(Reached(hist[..|hist| - 1]), hist[|hist| - 1]);
    }
  }

  lemma EmptyShape()
    ensures Shape(RegState(map[], map[]))
  {
    forall app ensures AppOk(RegState(map[], map[]), app) { }
  }

  // ---- Fairness -------------------------------------------------------------------------

  // Selecting m times in a row with nothing in between: the state reached and the picks made.
  function Selected(s: RegState, app: nat, exclude: string, m: nat): RegState {
    if m == 0 then s else AfterSelect(Selected(s, app, exclude, m - 1), app, exclude)
  }

  lemma {:induction false} SelectedIs(s: RegState, app: nat, exclude: string, m: nat)
    requires Counter(s, app) < WRAP && Eligible(s, app, exclude) != {}
    ensures Selected(s, app, exclude, m).byApp == s.byApp
    ensures Counter(Selected(s, app, exclude, m), app) == (Counter(s, app) + m) % WRAP
  {
    if m == 0 {
      BelowWrap(Counter(s, app));
    } else {
      SelectedIs(s, app, exclude, m - 1);
      IncrementWraps(Counter(s, app) + (m - 1));
    }
  }

  lemma IncrementWraps(x: nat)
    ensures (x % WRAP + 1) % WRAP == (x + 1) % WRAP
  {
    AddMultiple(x % WRAP + 1, WRAP, x / WRAP);
    assert x + 1 == x % WRAP + 1 + x / WRAP * WRAP;
  }

  // How many of m selections in a row pick the given executor.
  ghost function TimesPicked(s: RegState, app: nat, exclude: string, executor: string, m: nat): nat
    requires Counter(s, app) < WRAP && Eligible(s, app, exclude) != {}
  {
    if m == 0 then 0
    else
      SelectedIs(s, app, exclude, m - 1);
      TimesPicked(s, app, exclude, executor, m - 1)
        + if Choice(Selected(s, app, exclude, m - 1), app, exclude).executor == executor then 1 else 0
  }

  lemma ChoiceAtCounter(s: RegState, app: nat, exclude: string, m: nat, r: nat)
    requires Shape(s) && Counter(s, app) < WRAP && Eligible(s, app, exclude) != {}
    requires r < |Listing(Eligible(s, app, exclude))|
    ensures Eligible(Selected(s, app, exclude, m), app, exclude) == Eligible(s, app, exclude)
    ensures var ids := Listing(Eligible(s, app, exclude));
      (Choice(Selected(s, app, exclude, m), app, exclude).executor == ids[r])
        == ((Counter(s, app) + m) % WRAP % |ids| == r)
  {
    SelectedIs(s, app, exclude, m);
    var t, ids := Selected(s, app, exclude, m), Listing(Eligible(s, app, exclude));
    hide Selected;
    assert AppOk(s, app);
    var i := Counter(t, app) % |ids|;
    assert ids[i] in ids && AppMap(t, app) == AppMap(s, app);
    assert Choice(t, app, exclude) == AppMap(s, app)[ids[i]];
  }

  lemma {:induction false} TimesPickedIs(s: RegState, app: nat, exclude: string, r: nat, m: nat)
    requires Shape(s) && Counter(s, app) < WRAP && Eligible(s, app, exclude) != {}
    requires r < |Listing(Eligible(s, app, exclude))|
    ensures TimesPicked(s, app, exclude, Listing(Eligible(s, app, exclude))[r], m)
      == Picked(|Listing(Eligible(s, app, exclude))|, r, Counter(s, app), m)
  {
    hide Selected, Choice, Eligible, Shape;
    if m > 0 {
      TimesPickedIs(s, app, exclude, r, m - 1);
      ChoiceAtCounter(s, app, exclude, m - 1, r);
    }
  }

  /** An application's counter goes up by one with each selection that has a candidate, is dropped with
      the last of its connections, and is otherwise left alone. */
  lemma CounterAfter(s: RegState, e: Event, app: nat)
    requires Shape(s)
    ensures Counter(After(s, e), app) ==
      if e.Select? && e.app == app && (exists x :: x in AppMap(s, app) && x != e.exclude)
      then (Counter(s, app) + 1) % WRAP
      else if app in s.byApp && app !in After(s, e).byApp then 0
      else Counter(s, app)
    ensures After(s, e).byApp == s.byApp || !e.Select?
  {
    assert AppOk(s, app);
    if e.Select? && e.app == app {
      if x :| x in AppMap(s, app) && x != e.exclude { assert x in Eligible(s, app, e.exclude); }
      if x :| x in Eligible(s, app, e.exclude) { assert x in AppMap(s, app) && x != e.exclude; }
    }
  }

  /** Over k rounds of selections with nothing in between, every eligible executor is picked
      exactly k times, if and only if the counter does not wrap on the way, or the number n of
      eligible executors divides its range, or it wraps once and on a round. */
  lemma RoundsAreFairExactlyWhen(s: RegState, app: nat, exclude: string, k: nat)
    requires Shape(s) && Eligible(s, app, exclude) != {}
    ensures var n, c := |Listing(Eligible(s, app, exclude))|, Counter(s, app);
      && n == |Eligible(s, app, exclude)| && c < WRAP
      && ((forall e :: e in Eligible(s, app, exclude) ==> TimesPicked(s, app, exclude, e, k * n) == k)
        <==> c + k * n <= WRAP || WRAP % n == 0 || (c + k * n < 2 * WRAP && (WRAP - c) % n == 0))
  {
    var names := Eligible(s, app, exclude);
    var ids, c := Listing(names), Counter(s, app);
    var n := |ids|;
    assert AppOk(s, app);
    NonemptyListing(names);
    ListingLength(ids, names);
    FairExactlyWhen(n, c, k);
    if Fair(n, c, k) {
      forall e | e in names ensures TimesPicked(s, app, exclude, e, k * n) == k {
        var r :| 0 <= r < n && ids[r] == e;
        TimesPickedIs(s, app, exclude, r, k * n);
      }
    } else {
      var r: nat :| r < n && Picked(n, r, c, k * n) != k;
      TimesPickedIs(s, app, exclude, r, k * n);
      assert ids[r] in names;
    }
  }

  // Executors a, b and c connected to application 0, and the counter at its largest value.
  function ThreeExecutors(): RegState {
    RegState(
      map[0 := map["a" := Conn(1, 0, "a"), "b" := Conn(2, 0, "b"), "c" := Conn(3, 0, "c")]],
      map[0 := 18_446_744_073_709_551_615])
  }

  lemma ThreeExecutorsHaveShape()
    ensures Shape(ThreeExecutors())
  {
    var s := ThreeExecutors();
    assert "a" in s.byApp[0];
    forall app ensures AppOk(s, app) { }
  }

  lemma ThreeExecutorsAre()
    ensures Eligible(ThreeExecutors(), 0, "") == {"a", "b", "c"} && |{"a", "b", "c"}| == 3
    ensures Counter(ThreeExecutors(), 0) == WRAP - 1
  {
    assert AppMap(ThreeExecutors(), 0).Keys == {"a", "b", "c"};
  }

  /** It can fail: from there, the next three selections do not pick each of the three once. */
  lemma ThreeExecutorsAcrossAWrap()
    ensures var s := ThreeExecutors();
      && Shape(s) && Counter(s, 0) < WRAP && Eligible(s, 0, "") == {"a", "b", "c"}
      && exists e :: e in Eligible(s, 0, "") && TimesPicked(s, 0, "", e, 3) != 1
  {
    ThreeExecutorsHaveShape();
    ThreeExecutorsAre();
    hide ThreeExecutors, Shape, Eligible, Counter, Listing, TimesPicked;
    RoundsAreFairExactlyWhen(ThreeExecutors(), 0, "", 1);
    assert 1 * |Listing(Eligible(ThreeExecutors(), 0, ""))| == 3;
    assert WRAP % 3 == 1;
  }

  lemma {:induction false} ListingLength(ids: seq<string>, names: set<string>)
    requires Lists(ids, names)
    ensures |ids| == |names|
    decreases |ids|
  {
    if ids == [] {
      assert forall x :: x !in names;
    } else {
      var rest := ids[1..];
      assert ids == [ids[0]] + rest;
      assert ids[0] in names;
      ListingLength(rest, names - {ids[0]});
    }
  }

  /** The excluded executor is never picked, nor one that is not connected. */
  lemma ChoiceIsEligible(s: RegState, app: nat, exclude: string, m: nat)
    requires Shape(s) && Counter(s, app) < WRAP && Eligible(s, app, exclude) != {}
    ensures var t := Selected(s, app, exclude, m);
      && Eligible(t, app, exclude) == Eligible(s, app, exclude)
      && Current(s, Choice(t, app, exclude)) && Choice(t, app, exclude).executor != exclude
  {
    SelectedIs(s, app, exclude, m);
    assert AppOk(s, app);
  }
}
