/** The autoscaler's loops and sorts as they are written, proved to give what AutoscaleModel asks. */
module Autoscale {
  import opened Options
  import opened Sorting
  import opened AutoscaleModel

  method LatestAutoscaleVersion(recorded: Option<string>, execs: seq<Executor>, depths: map<string, nat>)
    returns (v: string)
    ensures IsLatest(recorded, execs, depths.Keys, v)
  {
    if recorded.Some? && recorded.value != "" {
      return recorded.value;
    }
    var bestSet: bool;
    bestSet, v := LastConnected(execs);
    if bestSet {
      return v;
    }
    v := GreatestOf(depths.Keys);
  }

  method LastConnected(execs: seq<Executor>) returns (bestSet: bool, best: string)
    ensures bestSet <==> exists e <- execs :: Dated(e)
    ensures bestSet ==> MostRecent(execs, best)
  {
    StringLessIsStrictTotal();
    hide StringLess;
    var bestTime := 0;
    ghost var at := 0;
    best, bestSet := "", false;
    var i := 0;
    while i < |execs|
      invariant 0 <= i <= |execs|
      invariant bestSet ==> at < i && Dated(execs[at]) && execs[at].version == best && execs[at].connectedAt == bestTime
      invariant bestSet ==> forall j :: 0 <= j < i && Dated(execs[j]) ==> NotLater(execs[j], execs[at])
      invariant !bestSet ==> forall j :: 0 <= j < i ==> !Dated(execs[j])
    {
      var e := execs[i];
      i := i + 1;
      if e.version == "" || !e.valid {
        continue;
      }
      if !bestSet || e.connectedAt > bestTime || (e.connectedAt == bestTime && StringLess(best, e.version)) {
        best, bestTime, bestSet := e.version, e.connectedAt, true;
        at := i - 1;
      }
    }
    if bestSet { assert execs[at] in execs; }
  }

  // The keys in any order.
  method GreatestOf(versions: set<string>) returns (latest: string)
    ensures Greatest(versions, latest)
  {
    latest := "";
    hide StringLess;
    var left := versions;
    while left != {}
      invariant left <= versions && Greatest(versions - left, latest)
      decreases |left|
    {
      var v :| v in left;
      left := left - {v};
      ghost var before := latest;
      if StringLess(latest, v) {
        latest := v;
      }
      forall x | x in versions - left ensures AtMost(x, latest) {
        if x == v {
          if before != v { StringLessTotal(before, v); }
        } else if latest != before {
          assert AtMost(x, before);
          if x != before { StringLessTransitive(x, before, latest); }
        }
      }
    }
    assert versions - left == versions;
  }

  // The versions in scope that computeAutoscale starts from, in any order, before the drained ones
  // are dropped.
  predicate Started(s: Snapshot, only: string, v: string) {
    && (only == "" || v == only)
    && (v in s.depths || (v == s.latest && v != ""))
  }

  method Versions(s: Snapshot, only: string) returns (versions: seq<string>)
    ensures NoDuplicates(versions) && forall v :: v in versions <==> Started(s, only, v)
  {
    versions := [];
    var left := s.depths.Keys;
    while left != {}
      invariant left <= s.depths.Keys && NoDuplicates(versions)
      invariant forall v :: v in versions <==> v in s.depths && v !in left && (only == "" || v == only)
      decreases |left|
    {
      var v :| v in left;
      left := left - {v};
      if only == "" || v == only {
        assert v !in versions;
        versions := versions + [v];
      }
    }
    if s.latest != "" && s.latest !in versions && (only == "" || only == s.latest) {
      versions := versions + [s.latest];
    }
  }

  /** Whatever the order of the backlog's keys: exactly one row for each version in scope, the latest
      version's first, the others by version downwards. */
  method ComputeAutoscale(s: Snapshot, only: string) returns (out: seq<Rec>)
    ensures Recommends(s, only, out)
  {
    hide StringLess;
    var versions := Versions(s, only);
    StringLessIsStrictTotal();
    TotalIsWeak(StringLess);
    SortIsSortedPermutation(StringLess, versions);
    PermutationKeepsNoDuplicates(versions, Sort(StringLess, versions));
    out := RowsOf(s, only, Sort(StringLess, versions));
    LatestFirstIsWeak();
    SortIsSortedPermutation(LatestFirst, out);
    PermutationKeepsNoDuplicates(out, Sort(LatestFirst, out));
    out := Sort(LatestFirst, out);
  }

  method RowsOf(s: Snapshot, only: string, versions: seq<string>) returns (out: seq<Rec>)
    requires NoDuplicates(versions) && forall v :: v in versions <==> Started(s, only, v)
    ensures NoDuplicates(out) && forall r :: r in out <==> Listed(s, only, r)
  {
    out := [];
    var i := 0;
    while i < |versions|
      invariant 0 <= i <= |versions| && NoDuplicates(out)
      invariant forall r :: r in out <==> r.version in versions[..i] && Listed(s, only, r)
    {
      var v := versions[i];
      assert Started(s, only, v) && v !in versions[..i];
      assert versions[..i + 1] == versions[..i] + [v];
      i := i + 1;
      var isLatest, depth := v == s.latest, Depth(s, v);
      if !isLatest && depth == 0 {
        continue;
      }
      out := out + [Rec(v, isLatest, Desired(s.limits, depth, isLatest), depth)];
    }
    assert versions[..i] == versions;
  }

  method LatestSeen(execs: seq<Executor>) returns (seen: map<string, int>)
    ensures Seen(execs, seen)
  {
    seen := map[];
    var i := 0;
    while i < |execs|
      invariant 0 <= i <= |execs| && Seen(execs[..i], seen)
    {
      var e := execs[i];
      ghost var before := seen;
      if e.connectedAt > if e.version in seen then seen[e.version] else 0 {
        seen := seen[e.version := e.connectedAt];
      }
      ghost var upTo := execs[..i] + [e];
      assert upTo == execs[..i + 1];
      forall v ensures SeenAt(upTo, seen, v) {
        assert SeenAt(execs[..i], before, v);
        if v in before {
          var x :| x in execs[..i] && x.version == v && x.connectedAt == before[v];
          assert x in upTo;
        }
        assert e in upTo;
      }
      i := i + 1;
    }
    assert execs[..i] == execs;
  }

  predicate OldRow(s: Snapshot, r: Rec) { IsOld(s, r.version) && r == RowOf(s, r.version) }

  method Split(s: Snapshot, recs: seq<Rec>) returns (latestRec: Option<Rec>, oldRecs: seq<Rec>)
    requires NoDuplicates(recs) && forall r :: r in recs <==> Listed(s, "", r)
    ensures latestRec == if InScope(s, "", s.latest) then Some(RowOf(s, s.latest)) else None
    ensures NoDuplicates(oldRecs) && forall r :: r in oldRecs <==> OldRow(s, r)
  {
    latestRec, oldRecs := None, [];
    var i := 0;
    while i < |recs|
      invariant 0 <= i <= |recs| && NoDuplicates(oldRecs)
      invariant latestRec == if RowOf(s, s.latest) in recs[..i] then Some(RowOf(s, s.latest)) else None
      invariant forall r :: r in oldRecs <==> r in recs[..i] && !r.isLatest
    {
      var r := recs[i];
      assert Listed(s, "", r) && r !in recs[..i];
      assert recs[..i + 1] == recs[..i] + [r];
      if r.isLatest {
        latestRec := Some(r);
      } else {
        oldRecs := oldRecs + [r];
      }
      i := i + 1;
    }
    assert recs[..i] == recs;
    assert RowOf(s, s.latest) in recs <==> Listed(s, "", RowOf(s, s.latest));
  }

  lemma {:induction false} RowCount(s: Snapshot, rows: seq<Rec>, names: set<string>)
    requires NoDuplicates(rows) && forall r :: r in rows <==> r.version in names && r == RowOf(s, r.version)
    ensures |rows| == |names|
    decreases |rows|
  {
    if rows == [] {
      forall v ensures v !in names { assert RowOf(s, v) !in rows; }
    } else {
      assert rows[0] in rows;
      assert rows == [rows[0]] + rows[1..];
      RowCount(s, rows[1..], names - {rows[0].version});
    }
  }

  predicate RowBefore(seen: map<string, int>, a: Rec, b: Rec) { MoreRecent(seen, a.version, b.version) }

  // Sorted rows of different versions come one strictly before the other.
  lemma SortedStrictly(s: Snapshot, seen: map<string, int>, sorted: seq<Rec>, i: nat, j: nat)
    requires NoDuplicates(sorted) && (forall r :: r in sorted <==> OldRow(s, r))
    requires Sorted((a, b) => RowBefore(seen, a, b), sorted) && i < j < |sorted|
    ensures MoreRecent(seen, sorted[i].version, sorted[j].version)
  {
    MoreRecentIsTotal(seen);
    assert OldRow(s, sorted[i]) && OldRow(s, sorted[j]);
    var less := (v, w) => MoreRecent(seen, v, w);
    assert !((a, b) => RowBefore(seen, a, b))(sorted[j], sorted[i]);
    var v, w := sorted[i].version, sorted[j].version;
    hide MoreRecent;
    assert v != w ==> less(v, w) || less(w, v);
  }

  // Cutting the sorted old rows keeps the most recent ones.
  lemma FirstOfSorted(s: Snapshot, seen: map<string, int>, maxOld: nat, sorted: seq<Rec>, head: seq<Rec>)
    requires NoDuplicates(sorted) && forall r :: r in sorted <==> OldRow(s, r)
    requires Sorted((a, b) => RowBefore(seen, a, b), sorted)
    requires head == if InScope(s, "", s.latest) then [RowOf(s, s.latest)] else []
    ensures Selects(s, seen, maxOld, head + sorted[..Least(|sorted|, maxOld)])
  {
    RowCount(s, sorted, OldVersions(s)) by {
      assert forall v :: v in OldVersions(s) <==> IsOld(s, v);
    }
    forall i, j | 0 <= i < j < |sorted| ensures MoreRecent(seen, sorted[i].version, sorted[j].version) {
      SortedStrictly(s, seen, sorted, i, j);
    }
    hide Sorted, RowBefore, NoDuplicates;
    CutOfOrdered(s, seen, maxOld, sorted, head);
  }

  lemma CutOfOrdered(s: Snapshot, seen: map<string, int>, maxOld: nat, sorted: seq<Rec>, head: seq<Rec>)
    requires forall r :: r in sorted <==> OldRow(s, r)
    requires |sorted| == |OldVersions(s)|
    requires forall i, j :: 0 <= i < j < |sorted| ==> MoreRecent(seen, sorted[i].version, sorted[j].version)
    requires head == if InScope(s, "", s.latest) then [RowOf(s, s.latest)] else []
    ensures Selects(s, seen, maxOld, head + sorted[..Least(|sorted|, maxOld)])
  {
    hide MoreRecent;
    var kept := sorted[..Least(|sorted|, maxOld)];
    var out := head + kept;
    forall v, i | IsOld(s, v) && RowOf(s, v) !in out && |head| <= i < |out|
      ensures MoreRecent(seen, out[i].version, v)
    {
      assert OldRow(s, RowOf(s, v));
      var j :| 0 <= j < |sorted| && sorted[j] == RowOf(s, v);
      assert j >= |kept|;
    }
    forall i | |head| <= i < |out| ensures OldRow(s, out[i]) { assert out[i] in sorted; }
  }

  lemma RowBeforeIsWeak(seen: map<string, int>)
    ensures StrictWeakOrder((a, b) => RowBefore(seen, a, b))
  {
    MoreRecentIsTotal(seen);
    var less := (v, w) => MoreRecent(seen, v, w);
    TotalIsWeak(less);
    hide MoreRecent;
    forall a: Rec, b: Rec | RowBefore(seen, a, b) ensures !RowBefore(seen, b, a) {
      assert less(a.version, b.version) ==> !less(b.version, a.version);
    }
    forall a: Rec, b: Rec, c: Rec | RowBefore(seen, a, c) ensures RowBefore(seen, a, b) || RowBefore(seen, b, c) {
      assert less(a.version, c.version) ==> less(a.version, b.version) || less(b.version, c.version);
    }
  }

  /** The all-versions answer: the latest version's row and the maxOld most recently connected old
      ones, the cut always in range because a stored limit is never negative. */
  method GetAutoscale(recorded: Option<string>, execs: seq<Executor>, depths: map<string, nat>, limits: Limits,
                      maxOldVersions: Option<int>)
    returns (latest: string, seen: map<string, int>, out: seq<Rec>)
    requires Sound(limits) && (maxOldVersions.Some? ==> maxOldVersions.value >= 0)
    ensures IsLatest(recorded, execs, depths.Keys, latest) && Seen(execs, seen)
    ensures var maxOld := if maxOldVersions.Some? then maxOldVersions.value else 0;
      Selects(Snapshot(limits, latest, depths), seen, maxOld, out)
  {
    hide Selects, Sorted, Seen, SeenAt, IsLatest, Listed, OldRow, MoreRecent;
    latest := LatestAutoscaleVersion(recorded, execs, depths);
    var s := Snapshot(limits, latest, depths);
    var recs := ComputeAutoscale(s, "");
    seen := LatestSeen(execs);
    var latestRec, oldRecs := Split(s, recs);
    var before := (a, b) => RowBefore(seen, a, b);
    RowBeforeIsWeak(seen);
    SortIsSortedPermutation(before, oldRecs);
    PermutationKeepsNoDuplicates(oldRecs, Sort(before, oldRecs));
    oldRecs := Sort(before, oldRecs);
    var maxOld := 0;
    if maxOldVersions.Some? {
      maxOld := maxOldVersions.value;
    }
    ghost var sorted := oldRecs;
    if |oldRecs| > maxOld {
      oldRecs := oldRecs[..maxOld];
    }
    out := [];
    if latestRec.Some? {
      out := out + [latestRec.value];
    }
    FirstOfSorted(s, seen, maxOld, sorted, out);
    assert oldRecs == sorted[..Least(|sorted|, maxOld)];
    out := out + oldRecs;
  }

  /** The single-version answer. It is synthesized only for a known version that is not the latest
      and has no work left. */
  method GetAutoscaleVersion(recorded: Option<string>, execs: seq<Executor>, depths: map<string, nat>, limits: Limits,
                             requested: string)
    returns (latest: string, answer: Answer, synthesized: bool)
    requires Sound(limits)
    ensures IsLatest(recorded, execs, depths.Keys, latest)
    ensures answer == VersionAnswer(Snapshot(limits, latest, depths), execs, requested)
    ensures
      var s := Snapshot(limits, latest, depths);
      var v := Resolve(s, requested);
      && (synthesized <==> v != "" && v != latest && Known(s, execs, v) && Depth(s, v) == 0)
      && (synthesized ==> answer == Row(Rec(v, false, 0, 0)))
  {
    hide IsLatest;
    latest := LatestAutoscaleVersion(recorded, execs, depths);
    synthesized := false;
    var s := Snapshot(limits, latest, depths);
    var version := requested;
    if version == "latest" {
      version := latest;
    }
    if version == "" {
      return latest, NoVersionKnown, false;
    }
    var known := version == latest;
    if !known {
      if version in depths {
        known := true;
      }
    }
    if !known {
      var i := 0;
      while i < |execs| && !known
        invariant 0 <= i <= |execs| && (known <==> exists e <- execs[..i] :: e.version == version)
      {
        assert execs[..i + 1] == execs[..i] + [execs[i]];
        known := execs[i].version == version;
        i := i + 1;
      }
      assert known || execs[..i] == execs;
    }
    if !known {
      return latest, NeverRegistered, false;
    }
    var recs := ComputeAutoscale(s, version);
    if |recs| == 0 {
      assert !Listed(s, version, RowOf(s, version));
      var desired := 0;
      if version == latest {
        desired := 1;
      }
      return latest, Row(Rec(version, version == latest, desired, 0)), true;
    }
    assert recs[0] in recs && Listed(s, version, recs[0]);
    answer := Row(recs[0]);
  }
}
