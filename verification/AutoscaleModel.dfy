/** Autoscaling recommendations on plain values: which version is the latest, how many executors a
    version should have, which versions get a row, and what the two endpoints answer. */
module AutoscaleModel {
  import opened Options
  import opened Sorting
  import Backlog
  import RoundRobin

  // valid: whether the connection time is recorded. Times count from the zero time.
  datatype Executor = Executor(version: string, valid: bool, connectedAt: int)

  // ---- The latest version ----------------------------------------------------------------

  predicate Dated(e: Executor) { e.version != "" && e.valid }

  predicate AtMost(a: string, b: string) { a == b || StringLess(a, b) }

  predicate NotLater(e: Executor, f: Executor) {
    e.connectedAt < f.connectedAt || (e.connectedAt == f.connectedAt && AtMost(e.version, f.version))
  }

  ghost predicate MostRecent(execs: seq<Executor>, v: string) {
    exists e <- execs :: Dated(e) && e.version == v && forall x <- execs :: Dated(x) ==> NotLater(x, e)
  }

  ghost predicate Greatest(versions: set<string>, v: string) {
    v in versions + {""} && forall x <- versions :: AtMost(x, v)
  }

  // The recorded latest version, or else the version of the executor connected last (the greater
  // version at equal times), or else the greatest version in the backlog.
  ghost predicate IsLatest(recorded: Option<string>, execs: seq<Executor>, backlog: set<string>, v: string) {
    if recorded.Some? && recorded.value != "" then v == recorded.value
    else if exists e <- execs :: Dated(e) then MostRecent(execs, v)
    else Greatest(backlog, v)
  }

  // An executor that counts: it runs a version with a name and has a connection time.
  predicate Counting(execs: seq<Executor>, e: Executor) { e in execs && e.version != "" && e.valid }

  /** What the latest version is: the recorded one if it has a name; or else that of an executor that
      counts, such that none that counts was connected later, nor at the same time with a greater
      version; or else the greatest in the backlog, the empty one when there is none. */
  lemma LatestIs(recorded: Option<string>, execs: seq<Executor>, backlog: set<string>, v: string)
    requires IsLatest(recorded, execs, backlog, v)
    ensures recorded.Some? && recorded.value != "" ==> v == recorded.value
    ensures !(recorded.Some? && recorded.value != "") && (exists e :: Counting(execs, e)) ==>
      exists e :: Counting(execs, e) && e.version == v && forall x :: Counting(execs, x) ==>
        x.connectedAt <= e.connectedAt && (x.connectedAt == e.connectedAt ==> !StringLess(v, x.version))
    ensures !(recorded.Some? && recorded.value != "") && (forall e :: !Counting(execs, e)) ==>
      (v == "" || v in backlog) && forall x <- backlog :: !StringLess(v, x)
  {
    StringLessIsStrictTotal();
    hide StringLess;
    if !(recorded.Some? && recorded.value != "") {
      if e :| Counting(execs, e) {
        assert e in execs && Dated(e);
        var f :| f in execs && Dated(f) && f.version == v && forall x <- execs :: Dated(x) ==> NotLater(x, f);
        assert Counting(execs, f);
        forall x | Counting(execs, x)
          ensures x.connectedAt <= f.connectedAt && (x.connectedAt == f.connectedAt ==> !StringLess(v, x.version))
        {
          assert Dated(x) && NotLater(x, f);
        }
      } else {
        forall e | e in execs ensures !Dated(e) { assert !Counting(execs, e); }
      }
    }
  }

  lemma AtMostBothWays(a: string, b: string)
    requires AtMost(a, b) && AtMost(b, a)
    ensures a == b
  {
    if a != b {
      StringLessTransitive(a, b, a);
      StringLessIrreflexive(a);
    }
  }

  /** The latest version depends only on which executors and versions there are, not on the order in
      which they are listed. */
  lemma LatestIgnoresOrder(recorded: Option<string>, execs: seq<Executor>, permuted: seq<Executor>,
                           backlog: set<string>, v: string, w: string)
    requires multiset(execs) == multiset(permuted)
    requires IsLatest(recorded, execs, backlog, v) && IsLatest(recorded, permuted, backlog, w)
    ensures v == w
  {
    assert forall e :: e in execs <==> e in permuted by {
      forall e ensures e in execs <==> e in permuted { assert e in execs <==> e in multiset(execs); }
    }
    assert AtMost(v, w) && AtMost(w, v);
    AtMostBothWays(v, w);
  }

  // ---- Desired executors -----------------------------------------------------------------

  datatype Limits = Limits(workerConcurrency: int, globalConcurrency: Option<int>, maxExecutorsOld: Option<int>)

  function CeilDiv(n: nat, d: int): nat {
    if d <= 0 then n else (n + d - 1) / d
  }

  function GlobalCap(l: Limits): Option<nat> {
    if l.globalConcurrency.Some? && l.globalConcurrency.value > 0
    then Some(CeilDiv(l.globalConcurrency.value, l.workerConcurrency)) else None
  }

  function Desired(l: Limits, depth: nat, isLatest: bool): int {
    var covering := CeilDiv(depth, l.workerConcurrency);
    var capped := if GlobalCap(l).Some? && covering > GlobalCap(l).value then GlobalCap(l).value else covering;
    var floored := if isLatest && capped < 1 then 1 else capped;
    if !isLatest && l.maxExecutorsOld.Some? && floored > l.maxExecutorsOld.value then l.maxExecutorsOld.value
    else floored
  }

  // What the callers have checked, and the stored policy keeps.
  predicate Sound(l: Limits) {
    l.workerConcurrency > 0 && (l.maxExecutorsOld.Some? ==> l.maxExecutorsOld.value >= 0)
  }

  lemma CeilDivCovers(n: nat, d: nat)
    requires d > 0
    ensures n <= CeilDiv(n, d) * d < n + d
  {
    assert n + d - 1 == CeilDiv(n, d) * d + (n + d - 1) % d;
  }

  lemma CeilDivIsLeast(n: nat, d: nat, k: nat)
    requires d > 0 && n <= k * d
    ensures CeilDiv(n, d) <= k
  {
    CeilDivCovers(n, d);
    hide CeilDiv;
    RoundRobin.Distribute(CeilDiv(n, d), k, d);
    RoundRobin.MultipleIsFar(CeilDiv(n, d) - k, d);
  }

  /** Without caps, the recommended executors are the fewest whose workers cover the depth, and at
      least one for the latest version. */
  lemma DesiredIsTheLeastCover(l: Limits, depth: nat, isLatest: bool, k: nat)
    requires Sound(l) && GlobalCap(l).None? && (isLatest || l.maxExecutorsOld.None?)
    ensures Desired(l, depth, isLatest) * l.workerConcurrency >= depth
    ensures k * l.workerConcurrency >= depth && (isLatest ==> k >= 1) ==> Desired(l, depth, isLatest) <= k
  {
    CeilDivCovers(depth, l.workerConcurrency);
    if k * l.workerConcurrency >= depth { CeilDivIsLeast(depth, l.workerConcurrency, k); }
  }

  /** The caps hold, the latest version always gets one, and a deeper backlog never gets fewer. The
      workers of the global cap are the fewest covering the queue's own concurrency. */
  lemma DesiredIsWithinCaps(l: Limits, depth: nat, deeper: nat, isLatest: bool)
    requires Sound(l) && depth <= deeper
    ensures 0 <= Desired(l, depth, isLatest) <= Desired(l, deeper, isLatest)
    ensures GlobalCap(l).Some? ==> Desired(l, depth, isLatest) <= GlobalCap(l).value
    ensures GlobalCap(l).Some? ==> l.globalConcurrency.value <= GlobalCap(l).value * l.workerConcurrency
                                   < l.globalConcurrency.value + l.workerConcurrency
    ensures !isLatest && l.maxExecutorsOld.Some? ==> Desired(l, depth, isLatest) <= l.maxExecutorsOld.value
    ensures isLatest ==> Desired(l, depth, isLatest) >= 1
  {
    CeilDivCovers(deeper, l.workerConcurrency);
    CeilDivIsLeast(depth, l.workerConcurrency, CeilDiv(deeper, l.workerConcurrency));
    if GlobalCap(l).Some? {
      CeilDivCovers(l.globalConcurrency.value, l.workerConcurrency);
    }
  }

  // c is the fewest whose d workers each cover n.
  predicate LeastCover(n: int, d: int, c: int) { c * d >= n && (c - 1) * d < n }

  // cap is what the queue's own concurrency allows, where it has one.
  predicate IsCap(l: Limits, cap: Option<int>) {
    if l.globalConcurrency.Some? && l.globalConcurrency.value > 0
    then cap.Some? && LeastCover(l.globalConcurrency.value, l.workerConcurrency, cap.value)
    else cap.None?
  }

  lemma GlobalCapIsCap(l: Limits, cap: Option<int>)
    requires Sound(l) && IsCap(l, cap)
    ensures GlobalCap(l) == cap
  {
    if cap.Some? {
      var n, d, c := l.globalConcurrency.value, l.workerConcurrency, cap.value;
      CeilDivCovers(n, d);
      hide CeilDiv;
      LeastCoverIsUnique(n, d, CeilDiv(n, d), c);
    }
  }

  lemma CapExists(l: Limits)
    requires Sound(l)
    ensures IsCap(l, GlobalCap(l))
  {
    if l.globalConcurrency.Some? && l.globalConcurrency.value > 0 {
      var n, d := l.globalConcurrency.value, l.workerConcurrency;
      CeilDivCovers(n, d);
      hide CeilDiv;
      RoundRobin.Distribute(CeilDiv(n, d), 1, d);
    }
  }

  lemma LeastCoverIsUnique(n: int, d: nat, c: int, k: int)
    requires d > 0 && n <= c * d < n + d && LeastCover(n, d, k)
    ensures c == k
  {
    RoundRobin.Distribute(k, 1, d);
    RoundRobin.Distribute(c, k, d);
    RoundRobin.MultipleIsFar(c - k, d);
  }

  /** Whatever the caps: the recommendation never exceeds a number of executors that covers the depth
      (and is at least one, for the latest version), nor a cap that applies; and when it does not cover
      the depth itself, then it is a cap that applies. */
  lemma DesiredIsCappedCover(l: Limits, depth: nat, isLatest: bool, cap: Option<int>, k: nat)
    requires Sound(l) && IsCap(l, cap)
    ensures var desired := Desired(l, depth, isLatest);
      && (k * l.workerConcurrency >= depth && (isLatest ==> k >= 1) ==> desired <= k)
      && (cap.Some? ==> desired <= cap.value)
      && (!isLatest && l.maxExecutorsOld.Some? ==> desired <= l.maxExecutorsOld.value)
      && (desired * l.workerConcurrency < depth ==>
          || cap == Some(desired)
          || (!isLatest && l.maxExecutorsOld == Some(desired)))
      && (isLatest ==> desired >= 1)
  {
    GlobalCapIsCap(l, cap);
    CeilDivCovers(depth, l.workerConcurrency);
    if k * l.workerConcurrency >= depth { CeilDivIsLeast(depth, l.workerConcurrency, k); }
    CapIsPositive(l, cap);
    hide CeilDiv;
  }

  lemma CapIsPositive(l: Limits, cap: Option<int>)
    requires Sound(l) && IsCap(l, cap)
    ensures cap.Some? ==> cap.value >= 1
  {
    if cap.Some? { RoundRobin.MultipleIsFar(cap.value, l.workerConcurrency); NoneCoverNone(l, cap.value); }
  }

  lemma NoneCoverNone(l: Limits, c: int)
    requires Sound(l)
    ensures c <= 0 ==> c * l.workerConcurrency <= 0
  {
  }

  // ---- Rows ------------------------------------------------------------------------------

  datatype Rec = Rec(version: string, isLatest: bool, desired: int, depth: nat)

  datatype Snapshot = Snapshot(limits: Limits, latest: string, depths: map<string, nat>)

  function Depth(s: Snapshot, v: string): nat { if v in s.depths then s.depths[v] else 0 }

  function RowOf(s: Snapshot, v: string): Rec {
    Rec(v, v == s.latest, Desired(s.limits, Depth(s, v), v == s.latest), Depth(s, v))
  }

  // The versions with a row: the latest, and the old ones with work left; only may select one.
  predicate InScope(s: Snapshot, only: string, v: string) {
    && (only == "" || v == only)
    && (if v == s.latest then v != "" || v in s.depths else Depth(s, v) != 0)
  }

  predicate LatestFirst(a: Rec, b: Rec) {
    if a.isLatest != b.isLatest then a.isLatest else StringLess(b.version, a.version)
  }

  lemma LatestFirstIsWeak()
    ensures StrictWeakOrder(LatestFirst)
  {
    StringLessIsStrictTotal();
    TotalIsWeak(StringLess);
  }

  predicate Listed(s: Snapshot, only: string, r: Rec) { InScope(s, only, r.version) && r == RowOf(s, r.version) }

  // One row for each version in scope and no other, the latest first, then by version downwards.
  ghost predicate Recommends(s: Snapshot, only: string, out: seq<Rec>) {
    && (forall r :: r in out <==> Listed(s, only, r))
    && NoDuplicates(out)
    && Sorted(LatestFirst, out)
  }

  lemma VersionsAreUnique(s: Snapshot, only: string, out: seq<Rec>, i: nat, j: nat)
    requires Recommends(s, only, out) && i < j < |out|
    ensures out[i].version != out[j].version
  {
    assert out[i] in out && out[j] in out;
  }

  predicate HasRow(out: seq<Rec>, v: string) { exists r <- out :: r.version == v }

  /** Exactly the versions with work left have a row, and the latest if it has a name or any entry. */
  lemma HasRowExactlyWhen(s: Snapshot, only: string, out: seq<Rec>, v: string)
    requires Recommends(s, only, out)
    ensures HasRow(out, v) <==>
      && (only == "" || v == only)
      && ((v in s.depths && s.depths[v] > 0) || (v == s.latest && (v != "" || v in s.depths)))
  {
    hide Desired, NoDuplicates, Sorted;
    if InScope(s, only, v) { assert Listed(s, only, RowOf(s, v)); }
    if r :| r in out && r.version == v { assert Listed(s, only, r); }
  }

  /** Each row says its version's depth and what is desired for it. Of two rows the first is the latest's
      or that of the greater version. */
  lemma RowsSay(s: Snapshot, only: string, out: seq<Rec>, i: nat, j: nat)
    requires Recommends(s, only, out) && i <= j < |out|
    ensures var r := out[i];
      && r.depth == (if r.version in s.depths then s.depths[r.version] else 0)
      && (r.isLatest <==> r.version == s.latest)
      && r.desired == Desired(s.limits, r.depth, r.isLatest)
    ensures i < j ==> !out[j].isLatest && (out[i].isLatest || StringLess(out[j].version, out[i].version))
  {
    hide Desired, NoDuplicates;
    assert out[i] in out && out[j] in out;
    assert Listed(s, only, out[i]) && Listed(s, only, out[j]);
    if i < j {
      VersionsAreUnique(s, only, out, i, j);
      assert !LatestFirst(out[j], out[i]);
      StringLessTotal(out[i].version, out[j].version);
    }
  }

  function SumOfDepths(out: seq<Rec>): nat {
    if out == [] then 0 else out[0].depth + SumOfDepths(out[1..])
  }

  ghost predicate Covers(out: seq<Rec>, depths: map<string, nat>) {
    && (forall i, j :: 0 <= i < j < |out| ==> out[i].version != out[j].version)
    && (forall r <- out :: r.depth == if r.version in depths then depths[r.version] else 0)
    && (forall v :: v in depths && depths[v] != 0 ==> exists r <- out :: r.version == v)
  }

  lemma {:induction false} ZeroTotal(depths: map<string, nat>)
    requires forall v :: v in depths ==> depths[v] == 0
    ensures Backlog.Total(depths) == 0
    decreases |depths|
  {
    if v :| v in depths {
      Backlog.TotalWithout(depths, v);
      ZeroTotal(depths - {v});
    }
  }

  lemma RestIsCovered(out: seq<Rec>, depths: map<string, nat>)
    requires Covers(out, depths) && out != []
    ensures Covers(out[1..], depths - {out[0].version})
  {
    var rest := depths - {out[0].version};
    forall u | u in rest && rest[u] != 0 ensures exists r <- out[1..] :: r.version == u {
      var r :| r in out && r.version == u;
      assert r in [out[0]] + out[1..];
    }
  }

  lemma {:induction false} CoveringSum(out: seq<Rec>, depths: map<string, nat>)
    requires Covers(out, depths)
    ensures SumOfDepths(out) == Backlog.Total(depths)
    decreases |out|
  {
    if out == [] {
      ZeroTotal(depths);
    } else {
      var v, rest := out[0].version, depths - {out[0].version};
      assert out[0] in out;
      RestIsCovered(out, depths);
      hide Covers;
      CoveringSum(out[1..], rest);
      if v in depths { Backlog.TotalWithout(depths, v); } else { assert rest == depths; }
    }
  }

  /** Without a version filter the rows' depths add up to the whole backlog. */
  lemma DepthsAddUp(s: Snapshot, out: seq<Rec>)
    requires Recommends(s, "", out)
    ensures SumOfDepths(out) == Backlog.Total(s.depths)
  {
    forall i, j | 0 <= i < j < |out| ensures out[i].version != out[j].version { VersionsAreUnique(s, "", out, i, j); }
    forall v | v in s.depths && s.depths[v] != 0 ensures exists r <- out :: r.version == v {
      assert Listed(s, "", RowOf(s, v));
    }
    forall r | r in out ensures r.depth == Depth(s, r.version) { assert Listed(s, "", r); }
    CoveringSum(out, s.depths);
  }

  // ---- The all-versions answer -----------------------------------------------------------

  // The latest connection time after the zero time, by version.
  predicate SeenAt(execs: seq<Executor>, seen: map<string, int>, v: string) {
    if v in seen
    then seen[v] > 0 && (exists e <- execs :: e.version == v && e.connectedAt == seen[v])
         && (forall e <- execs :: e.version == v ==> e.connectedAt <= seen[v])
    else forall e <- execs :: e.version == v ==> e.connectedAt <= 0
  }

  ghost predicate Seen(execs: seq<Executor>, seen: map<string, int>) { forall v :: SeenAt(execs, seen, v) }

  // Most recently connected first, versions never seen last, then by version downwards.
  predicate MoreRecent(seen: map<string, int>, v: string, w: string) {
    if (v in seen) != (w in seen) then v in seen
    else if v in seen && seen[v] != seen[w] then seen[v] > seen[w]
    else StringLess(w, v)
  }

  /** On versions the order is strict and total, so that ties never decide what is cut off. */
  lemma MoreRecentIsTotal(seen: map<string, int>)
    ensures StrictTotalOrder((v, w) => MoreRecent(seen, v, w))
  {
    StringLessIsStrictTotal();
  }

  predicate IsOld(s: Snapshot, v: string) { v != s.latest && Depth(s, v) != 0 }

  function OldVersions(s: Snapshot): set<string> { set v | v in s.depths && IsOld(s, v) }

  function Least(a: nat, b: nat): nat { if a <= b then a else b }

  // The latest version's row, if it has one, then the first maxOld old ones in order of recency.
  ghost predicate Selects(s: Snapshot, seen: map<string, int>, maxOld: nat, out: seq<Rec>) {
    var first := if InScope(s, "", s.latest) then 1 else 0;
    && |out| == first + Least(|OldVersions(s)|, maxOld)
    && (first == 1 ==> out[0] == RowOf(s, s.latest))
    && (forall i :: first <= i < |out| ==> IsOld(s, out[i].version) && out[i] == RowOf(s, out[i].version))
    && (forall i, j :: first <= i < j < |out| ==> MoreRecent(seen, out[i].version, out[j].version))
    && (forall v, i :: IsOld(s, v) && RowOf(s, v) !in out && first <= i < |out| ==> MoreRecent(seen, out[i].version, v))
  }

  // Version v has been connected no less recently than w, if w ever has been.
  ghost predicate NoLessRecent(execs: seq<Executor>, v: string, w: string) {
    forall e <- execs :: e.version == w && e.connectedAt > 0 ==>
      exists x <- execs :: x.version == v && x.connectedAt >= e.connectedAt
  }

  lemma MoreRecentIsNoLess(execs: seq<Executor>, seen: map<string, int>, v: string, w: string)
    requires Seen(execs, seen) && MoreRecent(seen, v, w)
    ensures NoLessRecent(execs, v, w) && (NoLessRecent(execs, w, v) ==> StringLess(w, v))
  {
    assert SeenAt(execs, seen, v) && SeenAt(execs, seen, w);
    hide Seen, StringLess;
  }

  // An old version with work left that has no row.
  predicate IsCutOff(s: Snapshot, out: seq<Rec>, v: string) {
    v in s.depths && s.depths[v] > 0 && v != s.latest && !HasRow(out, v)
  }

  /** The old rows of the all-versions answer are in order of recency, the greater version first when
      they are equally recent, and no version that was cut off
      has been connected more recently than one that was kept. */
  lemma OldRowsAreTheMostRecent(s: Snapshot, execs: seq<Executor>, seen: map<string, int>, maxOld: nat, out: seq<Rec>)
    requires Seen(execs, seen) && Selects(s, seen, maxOld, out)
    ensures forall i, j :: 0 <= i < j < |out| && !out[i].isLatest ==>
      NoLessRecent(execs, out[i].version, out[j].version)
      && (NoLessRecent(execs, out[j].version, out[i].version) ==> StringLess(out[j].version, out[i].version))
    ensures forall r, v :: r in out && !r.isLatest && IsCutOff(s, out, v) ==> NoLessRecent(execs, r.version, v)
  {
    hide NoLessRecent, Seen, MoreRecent, Desired, StringLess;
    forall i, j | 0 <= i < j < |out| && !out[i].isLatest
      ensures NoLessRecent(execs, out[i].version, out[j].version)
        && (NoLessRecent(execs, out[j].version, out[i].version) ==> StringLess(out[j].version, out[i].version))
    {
      MoreRecentIsNoLess(execs, seen, out[i].version, out[j].version);
    }
    forall r, v | r in out && !r.isLatest && IsCutOff(s, out, v) ensures NoLessRecent(execs, r.version, v) {
      var i :| 0 <= i < |out| && out[i] == r;
      assert IsOld(s, v) && RowOf(s, v) !in out;
      MoreRecentIsNoLess(execs, seen, out[i].version, v);
    }
  }

  // ---- The one-version answer ------------------------------------------------------------

  datatype Answer = Row(rec: Rec) | NoVersionKnown | NeverRegistered

  function Resolve(s: Snapshot, requested: string): string { if requested == "latest" then s.latest else requested }

  predicate Known(s: Snapshot, execs: seq<Executor>, v: string) {
    v == s.latest || v in s.depths || exists e <- execs :: e.version == v
  }

  // A known version without a row is reported at zero.
  function VersionAnswer(s: Snapshot, execs: seq<Executor>, requested: string): Answer {
    var v := Resolve(s, requested);
    if v == "" then NoVersionKnown
    else if !Known(s, execs, v) then NeverRegistered
    else if InScope(s, v, v) then Row(RowOf(s, v))
    else Row(Rec(v, false, 0, 0))
  }

  lemma RowAgreesExactlyWhen(s: Snapshot, execs: seq<Executor>, r: Rec)
    requires Listed(s, "", r)
    ensures VersionAnswer(s, execs, r.version) == Row(r) <==>
      r.version != "" && (r.version == "latest" ==> s.latest == "latest")
  {
  }

  /** For two calls over the same backlog and the same executors, listed in any order each time: what
      GetAutoscaleVersion answers for a row that GetAutoscale gave is that very row, exactly when the
      version has a name and is not called "latest" without being the latest. */
  lemma EndpointsAgreeExactlyWhen(recorded: Option<string>, depths: map<string, nat>, limits: Limits,
                                  execs: seq<Executor>, latest: string, seen: map<string, int>, maxOld: nat,
                                  out: seq<Rec>, permuted: seq<Executor>, latestAgain: string, r: Rec)
    requires IsLatest(recorded, execs, depths.Keys, latest)
    requires Selects(Snapshot(limits, latest, depths), seen, maxOld, out) && r in out
    requires multiset(execs) == multiset(permuted) && IsLatest(recorded, permuted, depths.Keys, latestAgain)
    ensures VersionAnswer(Snapshot(limits, latestAgain, depths), permuted, r.version) == Row(r) <==>
      r.version != "" && (r.version == "latest" ==> latest == "latest")
  {
    LatestIgnoresOrder(recorded, execs, permuted, depths.Keys, latest, latestAgain);
    var s := Snapshot(limits, latest, depths);
    var i :| 0 <= i < |out| && out[i] == r;
    assert Listed(s, "", r);
    hide IsLatest, Selects, Listed;
    RowAgreesExactlyWhen(s, permuted, r);
  }

  /** They do differ: with v2 recorded as the latest and work left for a version called "latest", asking
      for that version gives v2's row. */
  lemma VersionCalledLatest()
    ensures var s := Snapshot(Limits(1, None, None), "v2", map["latest" := 1]);
      && IsLatest(Some("v2"), [], s.depths.Keys, "v2")
      && Selects(s, map[], 1, [RowOf(s, "v2"), RowOf(s, "latest")])
      && VersionAnswer(s, [], "latest") == Row(RowOf(s, "v2")) != Row(RowOf(s, "latest"))
  {
    var s := Snapshot(Limits(1, None, None), "v2", map["latest" := 1]);
    assert "v2" != "latest" by { assert |"v2"| != |"latest"|; }
    assert OldVersions(s) == {"latest"};
    forall v | IsOld(s, v) ensures RowOf(s, v) in [RowOf(s, "v2"), RowOf(s, "latest")] {
      assert v in OldVersions(s);
    }
  }

  /** The zero row is given exactly to a known version that is not the latest and has no work left;
      and it is what the row of that version would be. */
  lemma ZeroRowExactlyWhen(s: Snapshot, execs: seq<Executor>, requested: string)
    requires Sound(s.limits)
    ensures var v := Resolve(s, requested);
      && (v != "" && Known(s, execs, v) && !InScope(s, v, v) <==>
          v != "" && v != s.latest && Known(s, execs, v) && Depth(s, v) == 0)
      && (v != "" && Known(s, execs, v) ==> VersionAnswer(s, execs, requested) == Row(RowOf(s, v)))
  {
    CeilDivIsLeast(0, s.limits.workerConcurrency, 0);
  }

  /** Which answer there is: none known for the empty version, never registered for one that is not the
      latest and neither in the backlog nor run by an executor, and otherwise the version's own row. */
  lemma VersionAnswerIs(s: Snapshot, execs: seq<Executor>, requested: string)
    requires Sound(s.limits)
    ensures var v := if requested == "latest" then s.latest else requested;
      var answer := VersionAnswer(s, execs, requested);
      && (answer == NoVersionKnown <==> v == "")
      && (answer == NeverRegistered <==>
          v != "" && v != s.latest && v !in s.depths && forall e <- execs :: e.version != v)
      && (answer.Row? ==>
        && answer.rec.version == v && (answer.rec.isLatest <==> v == s.latest)
        && answer.rec.depth == (if v in s.depths then s.depths[v] else 0)
        && answer.rec.desired == Desired(s.limits, answer.rec.depth, answer.rec.isLatest))
  {
    CeilDivIsLeast(0, s.limits.workerConcurrency, 0);
  }
}
