/** Recovery of a dead executor: which peers are asked and in which order, and what must be known
    before the executor's record is deleted. The database, the peers, the prober, the deleter and
    the recorder answer as they like; the trace holds every call made to them. */
module Recovery {
  import opened Options

  datatype Peer = Peer(app: nat, executor: string, version: string)

  // The executor that died.
  datatype Dead = Dead(app: nat, executor: string, version: string)

  // ---- Selecting candidates --------------------------------------------------------------

  datatype Selected = Candidates(peers: seq<Peer>) | CrossTenantRefused | VersionMismatchDisallowed | NoHealthyPeers

  predicate Exact(p: Peer, dead: Dead) { p.executor != dead.executor && p.version == dead.version }

  predicate Alternate(p: Peer, dead: Dead) { p.executor != dead.executor && p.version != dead.version }

  // The peers at the dead executor's version, or at the others, in the order given.
  function Chosen(peers: seq<Peer>, dead: Dead, exact: bool): seq<Peer> {
    if peers == [] then []
    else
      var p := peers[|peers| - 1];
      Chosen(peers[..|peers| - 1], dead, exact) +
      if (if exact then Exact(p, dead) else Alternate(p, dead)) then [p] else []
  }

  lemma {:induction false} ChosenAre(peers: seq<Peer>, dead: Dead, exact: bool)
    ensures forall p :: p in Chosen(peers, dead, exact) <==>
      p in peers && (if exact then Exact(p, dead) else Alternate(p, dead))
    decreases |peers|
  {
    if peers != [] {
      var before, last := peers[..|peers| - 1], peers[|peers| - 1];
      ChosenAre(before, dead, exact);
      assert peers == before + [last];
    }
  }

  function Ordered(dead: Dead, peers: seq<Peer>, allowCrossVersion: bool): seq<Peer> {
    Chosen(peers, dead, true) + if allowCrossVersion then Chosen(peers, dead, false) else []
  }

  // Why there is nobody to ask.
  ghost predicate CrossesTenants(dead: Dead, peers: seq<Peer>) { exists p <- peers :: p.app != dead.app }

  ghost predicate OnlyOtherVersions(dead: Dead, peers: seq<Peer>, allowCrossVersion: bool) {
    && (forall p <- peers :: p.app == dead.app && !Exact(p, dead))
    && (exists p <- peers :: Alternate(p, dead))
    && !allowCrossVersion
  }

  ghost predicate OnlyItself(dead: Dead, peers: seq<Peer>) {
    forall p <- peers :: p.app == dead.app && p.executor == dead.executor
  }

  lemma ChosenOfOne(p: Peer, dead: Dead, exact: bool)
    ensures Chosen([p], dead, exact) ==
      if p.executor != dead.executor && (p.version == dead.version) == exact then [p] else []
  {
    ChosenOneMore([], p, dead, exact);
    assert [] + [p] == [p] && Chosen([], dead, exact) == [];
  }

  /** The lists keep the order and number of the peers: choosing from two lists one after the other is
      choosing from each. */
  lemma {:induction false} ChosenFromEach(a: seq<Peer>, b: seq<Peer>, dead: Dead, exact: bool)
    ensures Chosen(a + b, dead, exact) == Chosen(a, dead, exact) + Chosen(b, dead, exact)
    decreases |b|
  {
    if b == [] {
      assert a + b == a;
    } else {
      var before, p := b[..|b| - 1], b[|b| - 1];
      assert a + b == a + before + [p] && b == before + [p];
      hide Chosen, Exact, Alternate;
      ChosenFromEach(a, before, dead, exact);
      ChosenOneMore(a + before, p, dead, exact);
      ChosenOneMore(before, p, dead, exact);
    }
  }

  /** The dead executor's version comes first: nobody before a candidate at that version is at another. */
  lemma OwnVersionComesFirst(dead: Dead, peers: seq<Peer>, allow: bool, i: nat, j: nat)
    requires i < j < |Ordered(dead, peers, allow)|
    ensures var cands := Ordered(dead, peers, allow);
      cands[j].version == dead.version ==> cands[i].version == dead.version
  {
    ChosenAre(peers, dead, true);
    ChosenAre(peers, dead, false);
    hide Chosen;
    var exact, others := Chosen(peers, dead, true), Chosen(peers, dead, false);
    assert i < |exact| ==> exact[i] in exact;
    assert allow && j >= |exact| ==> others[j - |exact|] in others;
  }

  lemma OrderedAre(dead: Dead, peers: seq<Peer>, allow: bool)
    ensures Ordered(dead, peers, allow) ==
      if !allow then Chosen(peers, dead, true)
      else if Chosen(peers, dead, true) == [] then Chosen(peers, dead, false)
      else Chosen(peers, dead, true) + Chosen(peers, dead, false)
    ensures !CrossesTenants(dead, peers) ==> forall p :: p in Ordered(dead, peers, allow) <==>
      && p in peers && p.app == dead.app && p.executor != dead.executor
      && (p.version == dead.version || allow)
  {
    ChosenAre(peers, dead, true);
    ChosenAre(peers, dead, false);
    hide Chosen;
  }

  // Which error there is when a list is empty.
  lemma NobodyChosen(dead: Dead, peers: seq<Peer>, allow: bool)
    requires !CrossesTenants(dead, peers)
    ensures var exact, others := Chosen(peers, dead, true), Chosen(peers, dead, false);
      && (OnlyItself(dead, peers) <==> exact == [] && others == [])
      && (OnlyOtherVersions(dead, peers, allow) <==> exact == [] && others != [] && !allow)
  {
    ChosenAre(peers, dead, true);
    ChosenAre(peers, dead, false);
    hide Chosen;
    var exact, others := Chosen(peers, dead, true), Chosen(peers, dead, false);
    if exact != [] { assert exact[0] in exact; }
    if others != [] { assert others[0] in others; }
  }

  lemma ChosenOneMore(peers: seq<Peer>, p: Peer, dead: Dead, exact: bool)
    ensures Chosen(peers + [p], dead, exact) == Chosen(peers, dead, exact) +
      if (if exact then Exact(p, dead) else Alternate(p, dead)) then [p] else []
  {
    assert (peers + [p])[..|peers|] == peers;
  }

  // The loop, which stops at a peer of another application.
  method Split(dead: Dead, peers: seq<Peer>)
    returns (sameApp: bool, exactMatches: seq<Peer>, alternateVersions: seq<Peer>)
    ensures sameApp <==> !CrossesTenants(dead, peers)
    ensures sameApp ==> exactMatches == Chosen(peers, dead, true) && alternateVersions == Chosen(peers, dead, false)
  {
    exactMatches, alternateVersions := [], [];
    var i := 0;
    while i < |peers|
      invariant 0 <= i <= |peers|
      invariant forall p <- peers[..i] :: p.app == dead.app
      invariant exactMatches == Chosen(peers[..i], dead, true)
      invariant alternateVersions == Chosen(peers[..i], dead, false)
    {
      var p := peers[i];
      if p.app != dead.app {
        return false, exactMatches, alternateVersions;
      }
      assert peers[..i + 1] == peers[..i] + [p];
      ChosenOneMore(peers[..i], p, dead, true);
      ChosenOneMore(peers[..i], p, dead, false);
      hide Chosen;
      i := i + 1;
      if p.executor == dead.executor {
        continue;
      }
      if p.version == dead.version {
        exactMatches := exactMatches + [p];
      } else {
        alternateVersions := alternateVersions + [p];
      }
    }
    assert peers[..i] == peers;
    sameApp := true;
  }

  /** A peer of another application refuses the whole recovery. Otherwise the candidates are the
      peers other than the dead executor itself: those at its version first, and those at other
      versions only when allowed. There is always at least one, or an error says why not. */
  method SelectCandidates(dead: Dead, peers: seq<Peer>, allowCrossVersion: bool) returns (res: Selected)
    ensures res.CrossTenantRefused? <==> CrossesTenants(dead, peers)
    ensures res.VersionMismatchDisallowed? <==> OnlyOtherVersions(dead, peers, allowCrossVersion)
    ensures res.NoHealthyPeers? <==> OnlyItself(dead, peers)
    ensures res.Candidates? ==>
      && res.peers != []
      && res.peers == Ordered(dead, peers, allowCrossVersion)
      && (forall p :: p in res.peers <==>
        && p in peers && p.app == dead.app && p.executor != dead.executor
        && (p.version == dead.version || allowCrossVersion))
  {
    var sameApp, exactMatches, alternateVersions := Split(dead, peers);
    if !sameApp {
      return CrossTenantRefused;
    }
    NobodyChosen(dead, peers, allowCrossVersion);
    OrderedAre(dead, peers, allowCrossVersion);
    hide *;
    if |exactMatches| > 0 {
      if allowCrossVersion {
        return Candidates(exactMatches + alternateVersions);
      }
      return Candidates(exactMatches);
    }
    if |alternateVersions| > 0 {
      if !allowCrossVersion {
        return VersionMismatchDisallowed;
      }
      return Candidates(alternateVersions);
    }
    return NoHealthyPeers;
  }

  // ---- The calls and their answers -------------------------------------------------------

  datatype Ack = SendFailed | NoResponse | Rejected | Acknowledged

  datatype Event =
    | DbRecover(version: string, ok: bool)
    | DbPending(version: string, pending: Option<bool>)
    | Sent(peer: Peer, ack: Ack)
    | Probed(peer: Peer, pending: Option<bool>)
    | Deleted(ok: bool)
    | Recorded(target: string, success: bool)

  // direct: a database is configured and offers recovery for the application. The empty version
  // stands for every version.
  datatype Config = Config(direct: bool, deleter: bool, recorder: bool, prober: bool, allowVersionMismatch: bool)

  // How everybody answers. Peers and probes answer by the candidate's position; None is an error.
  datatype Answers = Answers(
    dbRecovers: bool, dbPending: Option<bool>, dbRecoversAll: bool, dbPendingAfter: Option<bool>,
    peers: Option<seq<Peer>>, send: nat -> Ack, probe: nat -> Option<bool>,
    deletes: bool)

  datatype Cause = SendError | PeerRejected | ProbeFailed | PendingLeft

  datatype Result =
    | Done
    | PendingUnverified
    | PendingAfterDatabase
    | DeleteFailed
    | PeersUnavailable
    | Refused(why: Selected)
    | AllPeersFailed(last: Option<Cause>)

  // Whether candidate k settles the matter, and if not why.
  function Verdict(cfg: Config, a: Answers, dead: Dead, p: Peer, k: nat): Option<Cause> {
    match a.send(k)
    case SendFailed => Some(SendError)
    case NoResponse => Some(PeerRejected)
    case Rejected => Some(PeerRejected)
    case Acknowledged =>
      if p.version == dead.version || !cfg.prober then None
      else if a.probe(k).None? then Some(ProbeFailed)
      else if a.probe(k).value then Some(PendingLeft)
      else None
  }

  // An acknowledgement from another version is probed, where there is a prober.
  predicate NeedsProbe(cfg: Config, a: Answers, dead: Dead, p: Peer, k: nat) {
    a.send(k) == Acknowledged && p.version != dead.version && cfg.prober
  }

  // The candidates that are probed.
  function DueProbes(cfg: Config, a: Answers, dead: Dead, cands: seq<Peer>): seq<Peer> {
    if cands == [] then []
    else
      var k := |cands| - 1;
      DueProbes(cfg, a, dead, cands[..k]) + if NeedsProbe(cfg, a, dead, cands[k], k) then [cands[k]] else []
  }

  lemma ProbedOneMore(cfg: Config, a: Answers, dead: Dead, cands: seq<Peer>, p: Peer)
    ensures DueProbes(cfg, a, dead, []) == []
    ensures DueProbes(cfg, a, dead, cands + [p]) ==
      DueProbes(cfg, a, dead, cands) + if NeedsProbe(cfg, a, dead, p, |cands|) then [p] else []
  {
    assert (cands + [p])[..|cands|] == cands;
  }

  /** A candidate settles the matter exactly when it acknowledges and either is at the dead executor's
      version, or nobody can probe, or the probe answers that nothing is pending. */
  lemma ConfirmsExactlyWhen(cfg: Config, a: Answers, dead: Dead, p: Peer, k: nat)
    ensures Confirms(cfg, a, dead, p, k) <==>
      a.send(k) == Acknowledged && (p.version == dead.version || !cfg.prober || a.probe(k) == Some(false))
    ensures Verdict(cfg, a, dead, p, k) == Some(SendError) <==> a.send(k) == SendFailed
    ensures Verdict(cfg, a, dead, p, k) == Some(PeerRejected) <==> a.send(k) == NoResponse || a.send(k) == Rejected
    ensures NeedsProbe(cfg, a, dead, p, k) <==> a.send(k) == Acknowledged && p.version != dead.version && cfg.prober
    ensures NeedsProbe(cfg, a, dead, p, k) ==>
      && (Verdict(cfg, a, dead, p, k) == Some(ProbeFailed) <==> a.probe(k).None?)
      && (Verdict(cfg, a, dead, p, k) == Some(PendingLeft) <==> a.probe(k) == Some(true))
  {
  }

  /** What the database finally says: its first answer, unless that was that work is left, versions may
      be crossed and recovery at every version succeeded; then its second. */
  lemma DbLeftIs(cfg: Config, a: Answers)
    ensures a.dbPending != Some(true) ==> DbLeft(cfg, a) == a.dbPending
    ensures a.dbPending == Some(true) && !(cfg.allowVersionMismatch && a.dbRecoversAll) ==> DbLeft(cfg, a) == Some(true)
    ensures a.dbPending == Some(true) && cfg.allowVersionMismatch && a.dbRecoversAll ==>
      DbLeft(cfg, a) == a.dbPendingAfter
  {
  }

  predicate Confirms(cfg: Config, a: Answers, dead: Dead, p: Peer, k: nat) {
    Verdict(cfg, a, dead, p, k).None?
  }

  function FirstConfirming(cfg: Config, a: Answers, dead: Dead, cands: seq<Peer>, from: nat): (k: nat)
    requires from <= |cands|
    ensures from <= k <= |cands|
    ensures forall j :: from <= j < k ==> !Confirms(cfg, a, dead, cands[j], j)
    ensures k < |cands| ==> Confirms(cfg, a, dead, cands[k], k)
    decreases |cands| - from
  {
    if from == |cands| || Confirms(cfg, a, dead, cands[from], from) then from
    else FirstConfirming(cfg, a, dead, cands, from + 1)
  }

  // What the database finally says about work left: None when it could not say.
  function DbLeft(cfg: Config, a: Answers): Option<bool> {
    if a.dbPending == Some(true) && cfg.allowVersionMismatch && a.dbRecoversAll then a.dbPendingAfter else a.dbPending
  }

  // ---- Reading a trace -------------------------------------------------------------------

  function Deletions(trace: seq<Event>): nat {
    if trace == [] then 0
    else Deletions(trace[..|trace| - 1]) + if trace[|trace| - 1].Deleted? then 1 else 0
  }

  function Log(trace: seq<Event>): seq<(string, bool)> {
    if trace == [] then []
    else
      var e := trace[|trace| - 1];
      Log(trace[..|trace| - 1]) + if e.Recorded? then [(e.target, e.success)] else []
  }

  function Asked(trace: seq<Event>): seq<Peer> {
    if trace == [] then []
    else
      var e := trace[|trace| - 1];
      Asked(trace[..|trace| - 1]) + if e.Sent? then [e.peer] else []
  }

  function DbCalls(trace: seq<Event>): seq<Event> {
    if trace == [] then []
    else
      var e := trace[|trace| - 1];
      DbCalls(trace[..|trace| - 1]) + if e.DbRecover? || e.DbPending? then [e] else []
  }

  function Probes(trace: seq<Event>): seq<Peer> {
    if trace == [] then []
    else
      var e := trace[|trace| - 1];
      Probes(trace[..|trace| - 1]) + if e.Probed? then [e.peer] else []
  }

  // The database has recovered, and what it said last is that nothing is pending at any version.
  ghost predicate DbEvidence(before: seq<Event>) {
    && |before| >= 2
    && before[|before| - 1] == DbPending("", Some(false))
    && before[|before| - 2].DbRecover? && before[|before| - 2].ok
  }

  // A peer has acknowledged just now; if its version differs and there is a prober, the probe has
  // found nothing pending since.
  ghost predicate PeerEvidence(cfg: Config, dead: Dead, before: seq<Event>) {
    && before != []
    && match before[|before| - 1]
       case Sent(p, ack) => Trusted(p, dead) && ack == Acknowledged && (p.version == dead.version || !cfg.prober)
       case Probed(p, pending) =>
         Trusted(p, dead) && pending == Some(false) && |before| >= 2 && before[|before| - 2] == Sent(p, Acknowledged)
       case _ => false
  }

  predicate Trusted(p: Peer, dead: Dead) { p.app == dead.app && p.executor != dead.executor }

  ghost predicate JustifiedAt(cfg: Config, dead: Dead, trace: seq<Event>, n: nat) {
    n < |trace| && trace[n].Deleted? ==> DbEvidence(trace[..n]) || PeerEvidence(cfg, dead, trace[..n])
  }

  ghost predicate Justified(cfg: Config, dead: Dead, trace: seq<Event>) {
    forall n :: JustifiedAt(cfg, dead, trace, n)
  }

  predicate RecordsSuccess(trace: seq<Event>) { exists e <- trace :: e.Recorded? && e.success }

  lemma NothingCalled()
    ensures Deletions([]) == 0 && Log([]) == [] && Asked([]) == [] && DbCalls([]) == [] && Probes([]) == []
  {
  }

  // How one more call changes what the trace says.
  lemma Extend(cfg: Config, dead: Dead, trace: seq<Event>, e: Event)
    ensures Deletions(trace + [e]) == Deletions(trace) + if e.Deleted? then 1 else 0
    ensures Log(trace + [e]) == Log(trace) + if e.Recorded? then [(e.target, e.success)] else []
    ensures Asked(trace + [e]) == Asked(trace) + if e.Sent? then [e.peer] else []
    ensures DbCalls(trace + [e]) == DbCalls(trace) + if e.DbRecover? || e.DbPending? then [e] else []
    ensures Probes(trace + [e]) == Probes(trace) + if e.Probed? then [e.peer] else []
    ensures RecordsSuccess(trace + [e]) <==> RecordsSuccess(trace) || (e.Recorded? && e.success)
    ensures Justified(cfg, dead, trace) && (e.Deleted? ==> DbEvidence(trace) || PeerEvidence(cfg, dead, trace)) ==>
      Justified(cfg, dead, trace + [e])
  {
    ExtendReadings(trace, e);
    hide Deletions, Log, Asked, DbCalls, Probes;
    ExtendSuccess(trace, e);
    hide RecordsSuccess;
    if Justified(cfg, dead, trace) && (e.Deleted? ==> DbEvidence(trace) || PeerEvidence(cfg, dead, trace)) {
      ExtendJustified(cfg, dead, trace, e);
    }
  }

  lemma ExtendReadings(trace: seq<Event>, e: Event)
    ensures Deletions(trace + [e]) == Deletions(trace) + if e.Deleted? then 1 else 0
    ensures Log(trace + [e]) == Log(trace) + if e.Recorded? then [(e.target, e.success)] else []
    ensures Asked(trace + [e]) == Asked(trace) + if e.Sent? then [e.peer] else []
    ensures DbCalls(trace + [e]) == DbCalls(trace) + if e.DbRecover? || e.DbPending? then [e] else []
    ensures Probes(trace + [e]) == Probes(trace) + if e.Probed? then [e.peer] else []
  {
    assert (trace + [e])[..|trace|] == trace;
  }

  lemma ExtendSuccess(trace: seq<Event>, e: Event)
    ensures RecordsSuccess(trace + [e]) <==> RecordsSuccess(trace) || (e.Recorded? && e.success)
  {
    if RecordsSuccess(trace) {
      var x :| x in trace && x.Recorded? && x.success;
      assert x in trace + [e];
    }
    assert e in trace + [e];
  }

  lemma ExtendJustified(cfg: Config, dead: Dead, trace: seq<Event>, e: Event)
    requires Justified(cfg, dead, trace) && (e.Deleted? ==> DbEvidence(trace) || PeerEvidence(cfg, dead, trace))
    ensures Justified(cfg, dead, trace + [e])
  {
    var t := trace + [e];
    assert t[..|trace|] == trace;
    forall n: nat ensures JustifiedAt(cfg, dead, t, n) {
      assert JustifiedAt(cfg, dead, trace, n);
      assert n < |trace| ==> t[..n] == trace[..n];
      hide DbEvidence, PeerEvidence;
    }
  }

  // ---- The recovery ----------------------------------------------------------------------

  // The deletion, where there is a deleter, and the record of success where there is a recorder.
  method Conclude(cfg: Config, dead: Dead, a: Answers, target: string, before: seq<Event>)
    returns (res: Result, trace: seq<Event>)
    requires Justified(cfg, dead, before) && (DbEvidence(before) || PeerEvidence(cfg, dead, before))
    requires !RecordsSuccess(before)
    ensures Justified(cfg, dead, trace)
    ensures res == if cfg.deleter && !a.deletes then DeleteFailed else Done
    ensures res != Done ==> !RecordsSuccess(trace)
    ensures Deletions(trace) == Deletions(before) + if cfg.deleter then 1 else 0
    ensures Log(trace) == Log(before) + if res == Done && cfg.recorder then [(target, true)] else []
    ensures Asked(trace) == Asked(before) && DbCalls(trace) == DbCalls(before) && Probes(trace) == Probes(before)
  {
    hide Deletions, Log, Asked, DbCalls, Probes, RecordsSuccess, Justified, PeerEvidence;
    trace := before;
    if cfg.deleter {
      Extend(cfg, dead, trace, Deleted(a.deletes));
      trace := trace + [Deleted(a.deletes)];
      if !a.deletes {
        return DeleteFailed, trace;
      }
    }
    if cfg.recorder {
      Extend(cfg, dead, trace, Recorded(target, true));
      trace := trace + [Recorded(target, true)];
    }
    return Done, trace;
  }

  // Recover at the dead executor's version, then ask for work left at any; if there is some and
  // versions may be crossed, recover at every version and ask again.
  function DatabaseCalls(cfg: Config, dead: Dead, a: Answers): seq<Event> {
    [DbRecover(dead.version, true), DbPending("", a.dbPending)] +
    if a.dbPending != Some(true) || !cfg.allowVersionMismatch then []
    else if !a.dbRecoversAll then [DbRecover("", false)]
    else [DbRecover("", true), DbPending("", a.dbPendingAfter)]
  }

  ghost predicate DatabaseOutcome(cfg: Config, dead: Dead, a: Answers, res: Result, trace: seq<Event>) {
    var drained := DbLeft(cfg, a) == Some(false);
    && res == (if DbLeft(cfg, a).None? then PendingUnverified
               else if !drained then PendingAfterDatabase
               else if cfg.deleter && !a.deletes then DeleteFailed
               else Done)
    && Deletions(trace) == (if drained && cfg.deleter then 1 else 0)
    && Log(trace) == (if res == Done && cfg.recorder then [("database", true)] else [])
    && Asked(trace) == [] && Probes(trace) == []
    && DbCalls(trace) == DatabaseCalls(cfg, dead, a)
  }

  // Nothing deleted, recorded or asked so far.
  ghost predicate Clean(cfg: Config, dead: Dead, trace: seq<Event>) {
    && Justified(cfg, dead, trace) && !RecordsSuccess(trace)
    && Deletions(trace) == 0 && Log(trace) == [] && Asked(trace) == [] && Probes(trace) == []
  }

  lemma StartsClean(cfg: Config, dead: Dead)
    ensures Clean(cfg, dead, []) && DbCalls([]) == []
  {
    forall n ensures JustifiedAt(cfg, dead, [], n) { }
  }

  method RecoverFromDatabase(cfg: Config, dead: Dead, a: Answers, before: seq<Event>)
    returns (res: Result, trace: seq<Event>)
    requires Clean(cfg, dead, before) && before == DbCalls(before) == [DbRecover(dead.version, true)]
    ensures Justified(cfg, dead, trace) && (res != Done ==> !RecordsSuccess(trace))
    ensures DatabaseOutcome(cfg, dead, a, res, trace)
  {
    hide Deletions, Log, Asked, DbCalls, Probes, RecordsSuccess, Justified;
    var checked := DbPending("", a.dbPending);
    Extend(cfg, dead, before, checked);
    trace := before + [checked];
    if a.dbPending.None? {
      return PendingUnverified, trace;
    }
    var pending := a.dbPending.value;
    if pending && cfg.allowVersionMismatch {
      var all := DbRecover("", a.dbRecoversAll);
      Extend(cfg, dead, trace, all);
      trace := trace + [all];
      if a.dbRecoversAll {
        checked := DbPending("", a.dbPendingAfter);
        Extend(cfg, dead, trace, checked);
        trace := trace + [checked];
        if a.dbPendingAfter.None? {
          return PendingUnverified, trace;
        }
        pending := a.dbPendingAfter.value;
      }
    }
    if pending {
      return PendingAfterDatabase, trace;
    }
    res, trace := Conclude(cfg, dead, a, "database", trace);
  }

  function Failures(peers: seq<Peer>): seq<(string, bool)> {
    if peers == [] then [] else Failures(peers[..|peers| - 1]) + [(peers[|peers| - 1].executor, false)]
  }

  lemma FailuresOneMore(peers: seq<Peer>, p: Peer)
    ensures Failures(peers + [p]) == Failures(peers) + [(p.executor, false)]
  {
    assert (peers + [p])[..|peers|] == peers;
  }

  lemma NoFailures()
    ensures Failures([]) == []
  {
  }

  lemma {:induction false} FailuresAre(peers: seq<Peer>, i: nat)
    ensures |Failures(peers)| == |peers| && (i < |peers| ==> Failures(peers)[i] == (peers[i].executor, false))
    decreases |peers|
  {
    if peers != [] { FailuresAre(peers[..|peers| - 1], i); }
  }

  // One failure for each candidate before the first that confirms, then, unless the record could
  // not be deleted, one success; and exactly those candidates were asked, in their order.
  ghost predicate PeerOutcome(cfg: Config, dead: Dead, a: Answers, cands: seq<Peer>, res: Result, trace: seq<Event>) {
    var k := FirstConfirming(cfg, a, dead, cands, 0);
    var confirmed := k < |cands|;
    var last := |cands| - 1;
    && res == (if !confirmed then AllPeersFailed(if last < 0 then None else Verdict(cfg, a, dead, cands[last], last))
               else if cfg.deleter && !a.deletes then DeleteFailed
               else Done)
    && Deletions(trace) == (if confirmed && cfg.deleter then 1 else 0)
    && Log(trace) ==
      (if cfg.recorder then Failures(cands[..k]) + (if res == Done then [(cands[k].executor, true)] else []) else [])
    && Asked(trace) == (if confirmed then cands[..k + 1] else cands)
    && Probes(trace) == DueProbes(cfg, a, dead, Asked(trace))
  }

  // Ask one candidate and, where its version differs, probe what is left.
  method AskOne(cfg: Config, dead: Dead, a: Answers, p: Peer, k: nat, before: seq<Event>)
    returns (verdict: Option<Cause>, trace: seq<Event>)
    requires Trusted(p, dead) && Justified(cfg, dead, before) && !RecordsSuccess(before)
    ensures Justified(cfg, dead, trace) && !RecordsSuccess(trace)
    ensures verdict == Verdict(cfg, a, dead, p, k)
    ensures verdict.None? ==> PeerEvidence(cfg, dead, trace)
    ensures Deletions(trace) == Deletions(before) && DbCalls(trace) == DbCalls(before)
    ensures Asked(trace) == Asked(before) + [p]
    ensures Probes(trace) == Probes(before) + if NeedsProbe(cfg, a, dead, p, k) then [p] else []
    ensures Log(trace) == Log(before) + if verdict.Some? && cfg.recorder then [(p.executor, false)] else []
  {
    hide Deletions, Log, Asked, DbCalls, Probes, RecordsSuccess, Justified;
    var sent := Sent(p, a.send(k));
    Extend(cfg, dead, before, sent);
    trace := before + [sent];
    verdict := None;
    if a.send(k).SendFailed? {
      verdict := Some(SendError);
    } else if !a.send(k).Acknowledged? {
      verdict := Some(PeerRejected);
    } else if p.version != dead.version && cfg.prober {
      var probed := Probed(p, a.probe(k));
      Extend(cfg, dead, trace, probed);
      trace := trace + [probed];
      if a.probe(k).None? {
        verdict := Some(ProbeFailed);
      } else if a.probe(k).value {
        verdict := Some(PendingLeft);
      }
    }
    if verdict.Some? && cfg.recorder {
      Extend(cfg, dead, trace, Recorded(p.executor, false));
      trace := trace + [Recorded(p.executor, false)];
    }
  }

  // The first i candidates have been asked, and none has confirmed.
  ghost predicate AskedSoFar(cfg: Config, dead: Dead, a: Answers, cands: seq<Peer>, i: nat,
                             lastErr: Option<Cause>, before: seq<Event>, trace: seq<Event>)
  {
    && i <= FirstConfirming(cfg, a, dead, cands, 0)
    && lastErr == (if i == 0 then None else Verdict(cfg, a, dead, cands[i - 1], i - 1))
    && Justified(cfg, dead, trace) && !RecordsSuccess(trace) && Deletions(trace) == 0
    && Log(trace) == (if cfg.recorder then Failures(cands[..i]) else [])
    && Asked(trace) == cands[..i] && DbCalls(trace) == DbCalls(before)
    && Probes(trace) == DueProbes(cfg, a, dead, cands[..i])
  }

  lemma NobodyAsked(cfg: Config, dead: Dead, a: Answers, cands: seq<Peer>, before: seq<Event>)
    requires Clean(cfg, dead, before)
    ensures AskedSoFar(cfg, dead, a, cands, 0, None, before, before)
  {
    hide Justified, RecordsSuccess, Deletions, Log, Asked, DbCalls, Probes;
    NoFailures();
    assert cands[..0] == [] && DueProbes(cfg, a, dead, []) == [];
  }

  lemma AskedOneMore(cfg: Config, dead: Dead, a: Answers, cands: seq<Peer>, i: nat, lastErr: Option<Cause>,
                     verdict: Option<Cause>, before: seq<Event>, trace: seq<Event>, after: seq<Event>)
    requires i < |cands| && AskedSoFar(cfg, dead, a, cands, i, lastErr, before, trace)
    requires verdict == Verdict(cfg, a, dead, cands[i], i) && verdict.Some?
    requires Justified(cfg, dead, after) && !RecordsSuccess(after)
    requires Deletions(after) == Deletions(trace) && DbCalls(after) == DbCalls(trace)
    requires Asked(after) == Asked(trace) + [cands[i]]
    requires Probes(after) == Probes(trace) + if NeedsProbe(cfg, a, dead, cands[i], i) then [cands[i]] else []
    requires Log(after) == Log(trace) + if cfg.recorder then [(cands[i].executor, false)] else []
    ensures AskedSoFar(cfg, dead, a, cands, i + 1, verdict, before, after)
  {
    hide Justified, RecordsSuccess, Deletions, Log, Asked, DbCalls, Probes, Verdict, Failures, DueProbes;
    assert !Confirms(cfg, a, dead, cands[i], i);
    assert cands[..i + 1] == cands[..i] + [cands[i]];
    FailuresOneMore(cands[..i], cands[i]);
    ProbedOneMore(cfg, a, dead, cands[..i], cands[i]);
  }

  // Every candidate has been asked in vain.
  lemma AskedInVain(cfg: Config, dead: Dead, a: Answers, cands: seq<Peer>, lastErr: Option<Cause>,
                    before: seq<Event>, trace: seq<Event>)
    requires AskedSoFar(cfg, dead, a, cands, |cands|, lastErr, before, trace)
    ensures PeerOutcome(cfg, dead, a, cands, AllPeersFailed(lastErr), trace)
  {
    hide Justified, RecordsSuccess, Deletions, Log, Asked, DbCalls, Probes, Verdict, Failures, DueProbes;
    assert cands[..|cands|] == cands;
  }

  // Candidate i has confirmed, and the deletion and the record have followed.
  lemma AskedUntil(cfg: Config, dead: Dead, a: Answers, cands: seq<Peer>, i: nat, lastErr: Option<Cause>,
                   before: seq<Event>, trace: seq<Event>, res: Result, after: seq<Event>)
    requires i < |cands| && AskedSoFar(cfg, dead, a, cands, i, lastErr, before, trace)
    requires Verdict(cfg, a, dead, cands[i], i).None?
    requires res == if cfg.deleter && !a.deletes then DeleteFailed else Done
    requires Deletions(after) == Deletions(trace) + if cfg.deleter then 1 else 0
    requires Log(after) == Log(trace) + if res == Done && cfg.recorder then [(cands[i].executor, true)] else []
    requires Asked(after) == Asked(trace) + [cands[i]]
    requires Probes(after) == Probes(trace) + if NeedsProbe(cfg, a, dead, cands[i], i) then [cands[i]] else []
    ensures PeerOutcome(cfg, dead, a, cands, res, after)
  {
    hide Justified, RecordsSuccess, Deletions, Log, Asked, DbCalls, Probes, Verdict, Failures, DueProbes;
    assert Confirms(cfg, a, dead, cands[i], i);
    assert cands[..i + 1] == cands[..i] + [cands[i]];
    ProbedOneMore(cfg, a, dead, cands[..i], cands[i]);
  }

  method AskCandidates(cfg: Config, dead: Dead, a: Answers, cands: seq<Peer>, before: seq<Event>)
    returns (res: Result, trace: seq<Event>)
    requires Clean(cfg, dead, before) && forall p <- cands :: Trusted(p, dead)
    ensures Justified(cfg, dead, trace) && (res != Done ==> !RecordsSuccess(trace))
    ensures PeerOutcome(cfg, dead, a, cands, res, trace) && DbCalls(trace) == DbCalls(before)
  {
    hide Deletions, Log, Asked, DbCalls, Probes, RecordsSuccess, Justified, PeerEvidence, Verdict;
    hide FirstConfirming, Failures;
    hide PeerOutcome, Trusted, Clean;
    NobodyAsked(cfg, dead, a, cands, before);
    trace := before;
    var lastErr := None;
    var i := 0;
    while i < |cands|
      invariant 0 <= i <= |cands| && AskedSoFar(cfg, dead, a, cands, i, lastErr, before, trace)
    {
      var verdict;
      ghost var asked := trace;
      verdict, trace := AskOne(cfg, dead, a, cands[i], i, trace);
      if verdict.None? {
        res, trace := Conclude(cfg, dead, a, cands[i].executor, trace);
        AskedUntil(cfg, dead, a, cands, i, lastErr, before, asked, res, trace);
        return;
      }
      AskedOneMore(cfg, dead, a, cands, i, lastErr, verdict, before, asked, trace);
      lastErr := verdict;
      i := i + 1;
    }
    AskedInVain(cfg, dead, a, cands, lastErr, before, trace);
    res := AllPeersFailed(lastErr);
  }

  predicate DatabaseDecides(cfg: Config, a: Answers) { cfg.direct && a.dbRecovers }

  /** Whatever everybody answers: the record is deleted at most once, and only on evidence; an error
      never records a success; and on either path exactly the calls, records and result that path
      calls for. The peers are asked only when the database did not recover. */
  method RecoverDeadExecutor(cfg: Config, dead: Dead, a: Answers) returns (res: Result, trace: seq<Event>)
    ensures Deletions(trace) <= 1 && Justified(cfg, dead, trace)
    ensures res != Done ==> !RecordsSuccess(trace)
    ensures DatabaseDecides(cfg, a) ==> DatabaseOutcome(cfg, dead, a, res, trace)
    ensures !DatabaseDecides(cfg, a) ==> DbCalls(trace) == if cfg.direct then [DbRecover(dead.version, false)] else []
    ensures !DatabaseDecides(cfg, a) && a.peers.None? ==> res == PeersUnavailable
    ensures !DatabaseDecides(cfg, a) && a.peers.Some? ==>
      var peers, allow := a.peers.value, cfg.allowVersionMismatch;
      && (res == Refused(CrossTenantRefused) <==> CrossesTenants(dead, peers))
      && (res == Refused(VersionMismatchDisallowed) <==> OnlyOtherVersions(dead, peers, allow))
      && (res == Refused(NoHealthyPeers) <==> OnlyItself(dead, peers))
      && (res.Refused? ==> !res.why.Candidates?)
      && (!res.Refused? ==> PeerOutcome(cfg, dead, a, Ordered(dead, peers, allow), res, trace))
    ensures res.Refused? || res == PeersUnavailable ==>
      Deletions(trace) == 0 && Log(trace) == [] && Asked(trace) == [] && Probes(trace) == []
  {
    hide Deletions, Log, Asked, DbCalls, Probes, RecordsSuccess, Justified, FirstConfirming, Verdict;
    hide CrossesTenants, OnlyOtherVersions, OnlyItself;
    StartsClean(cfg, dead);
    trace := [];
    if cfg.direct {
      Extend(cfg, dead, trace, DbRecover(dead.version, a.dbRecovers));
      trace := trace + [DbRecover(dead.version, a.dbRecovers)];
      if a.dbRecovers {
        res, trace := RecoverFromDatabase(cfg, dead, a, trace);
        return;
      }
    }
    if a.peers.None? {
      return PeersUnavailable, trace;
    }
    var selected := SelectCandidates(dead, a.peers.value, cfg.allowVersionMismatch);
    if !selected.Candidates? {
      return Refused(selected), trace;
    }
    res, trace := AskCandidates(cfg, dead, a, selected.peers, trace);
  }
}
