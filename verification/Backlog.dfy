/** The queued backlog by version: two listings fetched page by page, each workflow counted once. */
module Backlog {
  import opened Options

  datatype Workflow = Workflow(id: string, version: Option<string>)

  const PAGE := 1000

  // What the service answers for one page of a fixed listing.
  function PageAt(listing: seq<Workflow>, offset: nat): seq<Workflow> {
    if offset >= |listing| then []
    else if offset + PAGE >= |listing| then listing[offset..]
    else listing[offset..offset + PAGE]
  }

  // A workflow without a version counts under the empty one.
  function VersionOf(w: Workflow): string { if w.version.Some? then w.version.value else "" }

  // ---- What is counted -------------------------------------------------------------------

  function IDs(all: seq<Workflow>): set<string> { set w | w in all :: w.id }

  // The IDs whose first occurrence carries version v.
  function FirstWith(all: seq<Workflow>, v: string): set<string> {
    if all == [] then {}
    else
      var before, w := all[..|all| - 1], all[|all| - 1];
      FirstWith(before, v) + if w.id !in IDs(before) && VersionOf(w) == v then {w.id} else {}
  }

  // Position i is the first occurrence of id, and carries version v.
  predicate FirstAt(all: seq<Workflow>, i: nat, v: string, id: string) {
    i < |all| && all[i].id == id && id !in IDs(all[..i]) && VersionOf(all[i]) == v
  }

  lemma {:induction false} FirstWithIs(all: seq<Workflow>, v: string, id: string)
    ensures id in FirstWith(all, v) <==> exists i :: FirstAt(all, i, v, id)
    decreases |all|
  {
    if all != [] {
      var before, last := all[..|all| - 1], |all| - 1;
      FirstWithIs(before, v, id);
      forall i: nat | i < last ensures FirstAt(all, i, v, id) <==> FirstAt(before, i, v, id) {
        assert before[..i] == all[..i];
      }
      assert id in FirstWith(all, v) <==> id in FirstWith(before, v) || FirstAt(all, last, v, id);
      hide FirstWith;
      if i: nat :| FirstAt(before, i, v, id) { assert FirstAt(all, i, v, id); }
      if i: nat :| FirstAt(all, i, v, id) { assert i == last || FirstAt(before, i, v, id); }
    }
  }

  // Add one to the count of v.
  function Bumped(depths: map<string, nat>, v: string): map<string, nat> {
    depths[v := (if v in depths then depths[v] else 0) + 1]
  }

  predicate Counts(all: seq<Workflow>, depths: map<string, nat>, v: string) {
    && (v in depths <==> FirstWith(all, v) != {})
    && (v in depths ==> depths[v] == |FirstWith(all, v)|)
  }

  // depths is the right answer for the workflows in all.
  ghost predicate Tallied(all: seq<Workflow>, depths: map<string, nat>) {
    && (forall v :: Counts(all, depths, v))
    && Total(depths) == |IDs(all)|
  }

  // ---- Totals ----------------------------------------------------------------------------

  ghost function Total(depths: map<string, nat>): nat
    decreases |depths|
  {
    if depths == map[] then 0
    else
      var v :| v in depths;
      depths[v] + Total(depths - {v})
  }

  // Whichever version is taken out first, the rest adds up to the same.
  lemma {:induction false} TotalWithout(depths: map<string, nat>, v: string)
    requires v in depths
    ensures Total(depths) == depths[v] + Total(depths - {v})
    decreases |depths|
  {
    var u :| u in depths && Total(depths) == depths[u] + Total(depths - {u});
    if u != v {
      TotalWithout(depths - {u}, v);
      TotalWithout(depths - {v}, u);
      assert depths - {u} - {v} == depths - {v} - {u};
    }
  }

  lemma TotalBumped(depths: map<string, nat>, v: string)
    ensures Total(Bumped(depths, v)) == Total(depths) + 1
  {
    var bumped := Bumped(depths, v);
    TotalWithout(bumped, v);
    assert bumped - {v} == depths - {v};
    if v in depths { TotalWithout(depths, v); } else { assert depths - {v} == depths; }
  }

  lemma IDsOfOneMore(all: seq<Workflow>, w: Workflow)
    ensures IDs(all + [w]) == IDs(all) + {w.id}
  {
    forall id | id in IDs(all) ensures id in IDs(all + [w]) {
      var x :| x in all && x.id == id;
      assert x in all + [w];
    }
    assert w in all + [w];
  }

  lemma {:induction false} FirstWithinIDs(all: seq<Workflow>, v: string)
    ensures FirstWith(all, v) <= IDs(all)
    decreases |all|
  {
    if all != [] {
      var before := all[..|all| - 1];
      FirstWithinIDs(before, v);
      IDsOfOneMore(before, all[|all| - 1]);
      assert all == before + [all[|all| - 1]];
    }
  }

  lemma TalliedDuplicate(all: seq<Workflow>, w: Workflow, depths: map<string, nat>)
    requires Tallied(all, depths) && w.id in IDs(all)
    ensures Tallied(all + [w], depths)
  {
    assert (all + [w])[..|all|] == all;
    IDsOfOneMore(all, w);
    forall v ensures Counts(all + [w], depths, v) { assert Counts(all, depths, v); }
    assert IDs(all) + {w.id} == IDs(all);
  }

  lemma CountsOneMore(all: seq<Workflow>, w: Workflow, depths: map<string, nat>, v: string)
    requires Counts(all, depths, v) && w.id !in IDs(all)
    ensures Counts(all + [w], Bumped(depths, VersionOf(w)), v)
  {
    assert (all + [w])[..|all|] == all;
    FirstWithinIDs(all, v);
    hide IDs;
  }

  lemma TalliedFirst(all: seq<Workflow>, w: Workflow, depths: map<string, nat>)
    requires Tallied(all, depths) && w.id !in IDs(all)
    ensures Tallied(all + [w], Bumped(depths, VersionOf(w)))
  {
    hide Total, Counts, FirstWith;
    IDsOfOneMore(all, w);
    TotalBumped(depths, VersionOf(w));
    forall v ensures Counts(all + [w], Bumped(depths, VersionOf(w)), v) {
      assert Counts(all, depths, v);
      CountsOneMore(all, w, depths, v);
    }
  }

  // ---- The loops -------------------------------------------------------------------------

  // Count one page.
  method CountPage(output: seq<Workflow>, ghost before: seq<Workflow>,
                   seenBefore: set<string>, depthsBefore: map<string, nat>)
    returns (seen: set<string>, depths: map<string, nat>)
    requires seenBefore == IDs(before) && Tallied(before, depthsBefore)
    ensures seen == IDs(before + output) && Tallied(before + output, depths)
  {
    hide Tallied, IDs, Total;
    seen, depths := seenBefore, depthsBefore;
    assert before + output[..0] == before;
    var i := 0;
    while i < |output|
      invariant 0 <= i <= |output|
      invariant seen == IDs(before + output[..i]) && Tallied(before + output[..i], depths)
    {
      var wf := output[i];
      assert before + output[..i + 1] == (before + output[..i]) + [wf];
      IDsOfOneMore(before + output[..i], wf);
      i := i + 1;
      if wf.id in seen {
        TalliedDuplicate(before + output[..i - 1], wf, depths);
        assert IDs(before + output[..i]) == seen;
        continue;
      }
      TalliedFirst(before + output[..i - 1], wf, depths);
      seen := seen + {wf.id};
      depths := Bumped(depths, VersionOf(wf));
    }
    assert output[..i] == output;
  }

  // Page through one listing. fails says which of the calls, counted from calls on, fail.
  method CountListing(listing: seq<Workflow>, fails: nat -> bool, calls: nat, ghost before: seq<Workflow>,
                      seenBefore: set<string>, depthsBefore: map<string, nat>)
    returns (ok: bool, callsAfter: nat, seen: set<string>, depths: map<string, nat>)
    requires seenBefore == IDs(before) && Tallied(before, depthsBefore)
    ensures ok ==> seen == IDs(before + listing) && Tallied(before + listing, depths)
    ensures callsAfter == calls + |listing| / PAGE + 1 || !ok
    ensures ok <==> forall c :: calls <= c < calls + |listing| / PAGE + 1 ==> !fails(c)
  {
    hide Tallied, IDs;
    seen, depths, callsAfter := seenBefore, depthsBefore, calls;
    var offset := 0;
    assert before + listing[..0] == before;
    while true
      invariant 0 <= offset <= |listing| && offset == PAGE * (callsAfter - calls)
      invariant seen == IDs(before + listing[..offset]) && Tallied(before + listing[..offset], depths)
      invariant forall c :: calls <= c < callsAfter ==> !fails(c)
      decreases |listing| - offset
    {
      if fails(callsAfter) {
        return false, callsAfter, seen, depths;
      }
      callsAfter := callsAfter + 1;
      var output := PageAt(listing, offset);
      assert before + listing[..offset + |output|] == before + listing[..offset] + output;
      seen, depths := CountPage(output, before + listing[..offset], seen, depths);
      if |output| < PAGE {
        assert listing[..offset + |output|] == listing;
        return true, callsAfter, seen, depths;
      }
      offset := offset + PAGE;
    }
  }

  /** For any two fixed listings, whatever their lengths: the paging ends, and without a failed call
      each version's depth is the number of distinct workflows whose first occurrence carries it, so
      that the depths add up to the number of distinct workflows. */
  method ListQueuedBacklog(queued: seq<Workflow>, pending: seq<Workflow>, fails: nat -> bool)
    returns (res: Option<map<string, nat>>)
    ensures res.Some? ==> Tallied(queued + pending, res.value)
    ensures res.Some? <==> forall c :: 0 <= c < |queued| / PAGE + |pending| / PAGE + 2 ==> !fails(c)
  {
    assert Tallied([], map[]) by { assert forall v :: Counts([], map[], v); }
    assert [] + queued == queued;
    hide Tallied;
    var ok, calls, seen, depths := CountListing(queued, fails, 0, [], {}, map[]);
    if !ok {
      return None;
    }
    ok, calls, seen, depths := CountListing(pending, fails, calls, queued, seen, depths);
    if !ok {
      return None;
    }
    return Some(depths);
  }

  /** A workflow without a version counts under the empty one, and otherwise under its own. */
  lemma SingleWorkflow(id: string, version: string)
    ensures FirstWith([Workflow(id, None)], "") == {id}
    ensures FirstWith([Workflow(id, Some(version))], version) == {id}
  {
    var none: seq<Workflow> := [];
    assert IDs(none) == {} && FirstWith(none, "") == FirstWith(none, version) == {};
    assert [Workflow(id, None)][..0] == none && [Workflow(id, Some(version))][..0] == none;
  }
}
