/** The registry as it is written: two maps updated in place under its lock. Each method is proved
    to be the step that RegistryModel gives it. */
module Registries {
  import opened Options
  import opened Sorting
  import opened RoundRobin
  import opened RegistryModel

  datatype Selection = Found(conn: Conn) | NoExecutors | NoAlternative

  class Registry {
    var byApp: map<nat, map<string, Conn>>
    var rrApp: map<nat, nat>

    ghost function State(): RegState
      reads this
    {
      RegState(byApp, rrApp)
    }

    ghost predicate Valid()
      reads this
    {
      Shape(State())
    }

    constructor ()
      ensures Valid() && State() == RegState(map[], map[])
    {
      byApp, rrApp := map[], map[];
      EmptyShape();
    }

    // Returns the connection replaced, which the caller closes in the background.
    method Register(conn: Conn) returns (existing: Option<Conn>)
      requires Valid()
      modifies this
      ensures Valid() && State() == AfterRegister(old(State()), conn)
      ensures existing == Lookup(old(State()), conn.app, conn.executor)
    {
      AfterKeepsShape(State(), Event.Register(conn));
      hide Shape;
      var appMap: map<string, Conn> := map[];
      if conn.app in byApp {
        appMap := byApp[conn.app];
      }
      existing := None;
      if conn.executor in appMap {
        existing := Some(appMap[conn.executor]);
      }
      byApp := byApp[conn.app := appMap[conn.executor := conn]];
    }

    // The part under the lock; the result says whether to report the disconnect.
    method Unregister(conn: Conn) returns (removed: bool)
      requires Valid()
      modifies this
      ensures Valid() && State() == AfterUnregister(old(State()), conn)
      ensures removed == Current(old(State()), conn)
    {
      AfterKeepsShape(State(), Event.Unregister(conn));
      hide Shape;
      if conn.app !in byApp {
        return false;
      }
      var appMap := byApp[conn.app];
      if conn.executor !in appMap || appMap[conn.executor] != conn {
        return false;
      }
      appMap := appMap - {conn.executor};
      byApp := byApp[conn.app := appMap];
      if appMap == map[] {
        byApp := byApp - {conn.app};
        rrApp := rrApp - {conn.app};
      }
      assert byApp == AfterUnregister(old(State()), conn).byApp;
      return true;
    }

    method SelectExecutorWithExclusion(app: nat, exclude: string) returns (res: Selection)
      requires Valid()
      modifies this
      ensures Valid() && State() == AfterSelect(old(State()), app, exclude)
      ensures res ==
        if AppMap(old(State()), app) == map[] then NoExecutors
        else if Eligible(old(State()), app, exclude) == {} then NoAlternative
        else Found(Choice(old(State()), app, exclude))
    {
      AfterKeepsShape(State(), Select(app, exclude));
      assert AppOk(State(), app);
      hide Shape;
      if app !in byApp || byApp[app] == map[] {
        return NoExecutors;
      }
      var appMap := byApp[app];
      var ids := EligibleIDs(appMap, exclude);
      if |ids| == 0 {
        assert Eligible(State(), app, exclude) == {};
        return NoAlternative;
      }
      assert ids[0] in Eligible(State(), app, exclude);
      SortOfListing(ids, Eligible(State(), app, exclude));
      ids := Sort(StringLess, ids);
      ListingIsUnique(ids, Listing(Eligible(State(), app, exclude)), Eligible(State(), app, exclude));
      var idx := if app in rrApp then rrApp[app] else 0;
      rrApp := rrApp[app := (idx + 1) % WRAP];
      var selectedID := ids[idx % |ids|];
      assert selectedID in ids;
      return Found(appMap[selectedID]);
    }

    // The range over the application's map: its keys in any order, without the excluded one.
    static method EligibleIDs(appMap: map<string, Conn>, exclude: string) returns (ids: seq<string>)
      ensures NoDuplicates(ids) && forall x :: x in ids <==> x in appMap.Keys - {exclude}
    {
      ids := [];
      var left := appMap.Keys;
      while left != {}
        invariant left <= appMap.Keys && NoDuplicates(ids)
        invariant forall x :: x in ids <==> x in appMap.Keys - left - {exclude}
        decreases |left|
      {
        var id :| id in left;
        left := left - {id};
        if id != exclude {
          assert id !in ids;
          ids := ids + [id];
        }
      }
    }
  }
}
