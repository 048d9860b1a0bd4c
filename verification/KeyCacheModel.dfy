/** The key cache of the token validator as a machine of atomic steps: a positive cache, a negative
    cache and a throttle over a clock, with any number of callers interleaved. Times are in
    milliseconds. */
module KeyCacheModel {
  import opened Options

  const NEGATIVE_TTL := 30_000
  const SPACING := 5_000

  type KeySet = map<string, int>

  // How far a caller past the fast path has come. From Admitted on it holds the fetch lock.
  datatype Phase = Waiting(kid: string) | Admitted(kid: string) | Sent(kid: string)

  // None stands for the zero time. log holds the time of every request sent to the key endpoint,
  // fetched what the last successful one returned.
  datatype CacheState = CacheState(
    now: int,
    keys: KeySet, fetchedAt: Option<int>, ttl: int,
    neg: map<string, int>,
    lastAttempt: Option<int>,
    holder: Option<nat>, phases: map<nat, Phase>,
    log: seq<int>, fetched: Option<KeySet>)

  datatype Step =
    | Tick(d: nat)
    | SetTTL(ttl: int)
    | Call(c: nat, kid: string)
    | Lock(c: nat)
    | Send(c: nat)
    | Finish(c: nat, res: Option<KeySet>)

  datatype Answer = Key(key: int) | Negative | Throttled | Unknown | Unavailable

  function Start(now: int, ttl: int): CacheState {
    CacheState(now, map[], None, ttl, map[], None, None, map[], [], None)
  }

  // Init has its answer now, to the request sent at sent.
  function AfterInit(s: CacheState, sent: int, res: Option<KeySet>): CacheState {
    var t := s.(log := s.log + [sent]);
    if res.None? then t
    else t.(keys := res.value, fetchedAt := Some(s.now), lastAttempt := Some(s.now), fetched := res)
  }

  // How a service starts: without Init, with one that failed before it came to send its request, or
  // with one that sent it and waited for the answer.
  datatype Beginning =
    | NoInit(now: int, ttl: int)
    | NotSent(now: int, ttl: int)
    | WithInit(now: int, ttl: int, waited: nat, res: Option<KeySet>)

  function StateOf(b: Beginning): CacheState {
    match b
    case NoInit(now, ttl) => Start(now, ttl)
    case NotSent(now, ttl) => Start(now, ttl)
    case WithInit(now, ttl, waited, res) => AfterInit(Start(now, ttl), now - waited, res)
  }

  // Init succeeded, or was not called, or sent nothing, or took as long to fail as fetches must be
  // apart.
  predicate Begins(b: Beginning) { b.WithInit? ==> b.res.Some? || b.waited >= SPACING }

  predicate Fresh(s: CacheState) { s.fetchedAt.Some? && s.now - s.fetchedAt.value < s.ttl }

  predicate NegFresh(s: CacheState, kid: string) { kid in s.neg && s.now - s.neg[kid] < NEGATIVE_TTL }

  predicate TooSoon(s: CacheState) { s.lastAttempt.Some? && s.now - s.lastAttempt.value < SPACING }

  // What the caches say without a fetch.
  function Cached(s: CacheState, kid: string): Option<Answer> {
    if kid in s.keys && Fresh(s) then Some(Key(s.keys[kid]))
    else if NegFresh(s, kid) then Some(Negative)
    else None
  }

  function CachedOrThrottled(s: CacheState, kid: string): Option<Answer> {
    if Cached(s, kid).Some? then Cached(s, kid) else if TooSoon(s) then Some(Throttled) else None
  }

  predicate CanLock(s: CacheState, c: nat) { c in s.phases && s.phases[c].Waiting? && s.holder.None? }

  predicate CanSend(s: CacheState, c: nat) { c in s.phases && s.phases[c].Admitted? }

  // A fetch may fail before the request is sent; it cannot succeed without.
  predicate CanFinish(s: CacheState, c: nat, res: Option<KeySet>) {
    c in s.phases && (s.phases[c].Sent? || (s.phases[c].Admitted? && res.None?))
  }

  // The caches after a fetch, successful or not, for kid.
  function Updated(s: CacheState, kid: string, res: Option<KeySet>): CacheState {
    var t := s.(lastAttempt := Some(s.now));
    var u := if res.None? then t else t.(keys := res.value, fetchedAt := Some(s.now), neg := map[], fetched := res);
    if kid in u.keys then u else u.(neg := u.neg[kid := s.now])
  }

  function After(s: CacheState, step: Step): CacheState {
    match step
    case Tick(d) => s.(now := s.now + d)
    case SetTTL(ttl) => s.(ttl := ttl)
    case Call(c, kid) =>
      if c in s.phases || Cached(s, kid).Some? then s else s.(phases := s.phases[c := Waiting(kid)])
    case Lock(c) =>
      if !CanLock(s, c) then s
      else if CachedOrThrottled(s, s.phases[c].kid).Some? then s.(phases := s.phases - {c})
      else s.(phases := s.phases[c := Admitted(s.phases[c].kid)], holder := Some(c))
    case Send(c) =>
      if !CanSend(s, c) then s
      else s.(phases := s.phases[c := Sent(s.phases[c].kid)], log := s.log + [s.now])
    case Finish(c, res) =>
      if !CanFinish(s, c, res) then s
      else Updated(s, s.phases[c].kid, res).(phases := s.phases - {c}, holder := None)
  }

  // The answer a caller gets from a step, with the key ID it asked for.
  function AnswerOf(s: CacheState, step: Step): Option<(string, Answer)> {
    match step
    case Call(c, kid) =>
      if c !in s.phases && Cached(s, kid).Some? then Some((kid, Cached(s, kid).value)) else None
    case Lock(c) =>
      if CanLock(s, c) && CachedOrThrottled(s, s.phases[c].kid).Some?
      then Some((s.phases[c].kid, CachedOrThrottled(s, s.phases[c].kid).value)) else None
    case Finish(c, res) =>
      if !CanFinish(s, c, res) then None
      else
        var kid := s.phases[c].kid;
        Some((kid, Final(Updated(s, kid, res), kid, res)))
    case _ => None
  }

  function Final(s: CacheState, kid: string, res: Option<KeySet>): Answer {
    if kid in s.keys then Key(s.keys[kid])
    else if res.None? && s.keys == map[] then Unavailable
    else Unknown
  }

  function Run(s: CacheState, steps: seq<Step>): CacheState
    decreases |steps|
  {
    if steps == [] then s else Run(After(s, steps[0]), steps[1..])
  }

  // ---- The invariant ---------------------------------------------------------------------

  predicate Spaced(log: seq<int>) { forall i :: 0 < i < |log| ==> log[i] - log[i - 1] >= SPACING }

  predicate Disjoint(s: CacheState) { s.keys.Keys !! s.neg.Keys }

  predicate KeysAreFetched(s: CacheState) { s.keys == if s.fetched.Some? then s.fetched.value else map[] }

  predicate Holds(s: CacheState, c: nat) { c in s.phases && !s.phases[c].Waiting? }

  // The fetch lock has one holder.
  predicate OneHolder(s: CacheState) {
    && (forall c :: c in s.phases && !s.phases[c].Waiting? ==> s.holder == Some(c))
    && (s.holder.Some? ==> Holds(s, s.holder.value))
  }

  // Before a request is sent the last one is far enough back; after it is answered, either the
  // attempt is on record or it is that far back as well.
  predicate Paced(s: CacheState) {
    && Spaced(s.log)
    && (s.lastAttempt.Some? ==> s.lastAttempt.value <= s.now)
    && (s.log != [] ==>
        var last := s.log[|s.log| - 1];
        && last <= s.now
        && (s.holder.None? ==> (s.lastAttempt.Some? && last <= s.lastAttempt.value) || last + SPACING <= s.now)
        && (s.holder.Some? && s.holder.value in s.phases && s.phases[s.holder.value].Admitted? ==>
            last + SPACING <= s.now))
  }

  predicate Inv(s: CacheState) { Disjoint(s) && KeysAreFetched(s) && OneHolder(s) && Paced(s) }

  lemma CallKeepsInv(s: CacheState, c: nat, kid: string)
    requires Inv(s)
    ensures Inv(After(s, Call(c, kid)))
  {
    hide Cached;
  }

  lemma LockKeepsInv(s: CacheState, c: nat)
    requires Inv(s)
    ensures Inv(After(s, Lock(c)))
  {
    hide Cached;
  }

  lemma SendKeepsInv(s: CacheState, c: nat)
    requires Inv(s)
    ensures Inv(After(s, Send(c)))
  {
    if CanSend(s, c) { assert s.holder == Some(c); }
  }

  lemma FinishKeepsInv(s: CacheState, c: nat, res: Option<KeySet>)
    requires Inv(s)
    ensures Inv(After(s, Finish(c, res)))
  {
    if CanFinish(s, c, res) {
      assert s.holder == Some(c);
      var t := After(s, Finish(c, res));
      assert Disjoint(t) && KeysAreFetched(t);
    }
  }

  lemma StepKeepsInv(s: CacheState, step: Step)
    requires Inv(s)
    ensures Inv(After(s, step))
  {
    match step
    case Tick(_) =>
    case SetTTL(_) =>
    case Call(c, kid) => hide *; CallKeepsInv(s, c, kid);
    case Lock(c) => hide *; LockKeepsInv(s, c);
    case Send(c) => hide *; SendKeepsInv(s, c);
    case Finish(c, res) => hide *; FinishKeepsInv(s, c, res);
  }

  lemma {:induction false} RunKeepsInv(s: CacheState, steps: seq<Step>)
    requires Inv(s)
    ensures Inv(Run(s, steps))
    decreases |steps|
  {
    hide Inv, After;
    if steps != [] {
      StepKeepsInv(s, steps[0]);
      RunKeepsInv(After(s, steps[0]), steps[1..]);
    }
  }

  // ---- What every run guarantees ---------------------------------------------------------

  lemma BeginsWithInv(b: Beginning)
    requires Begins(b)
    ensures Inv(StateOf(b))
  {
  }

  /** Whatever the callers ask for and however they interleave, two requests to the key endpoint are
      at least five seconds apart. */
  lemma FetchesAreSpaced(b: Beginning, steps: seq<Step>)
    requires Begins(b)
    ensures Spaced(Run(StateOf(b), steps).log)
  {
    BeginsWithInv(b);
    RunKeepsInv(StateOf(b), steps);
  }

  lemma {:induction false} SpacedAddsUp(log: seq<int>, i: nat, j: nat)
    requires Spaced(log) && i <= j < |log|
    ensures log[j] - log[i] >= SPACING * (j - i)
    decreases j
  {
    if i < j { SpacedAddsUp(log, i, j - 1); }
  }

  /** So requests i to j, when they fall within span, are no more than 1 + span / 5 seconds. */
  lemma FetchRateIsBounded(b: Beginning, steps: seq<Step>, i: nat, j: nat, span: nat)
    requires Begins(b) && i <= j < |Run(StateOf(b), steps).log|
    requires Run(StateOf(b), steps).log[j] - Run(StateOf(b), steps).log[i] <= span
    ensures j - i + 1 <= 1 + span / SPACING
  {
    FetchesAreSpaced(b, steps);
    SpacedAddsUp(Run(StateOf(b), steps).log, i, j);
  }

  lemma AnswerIsFetched(t: CacheState, step: Step)
    requires Inv(t) && AnswerOf(t, step).Some? && AnswerOf(t, step).value.1.Key?
    ensures var (kid, answer) := AnswerOf(t, step).value;
      var u := After(t, step);
      u.fetched.Some? && kid in u.fetched.value && u.fetched.value[kid] == answer.key
  {
    hide Paced, OneHolder, Fresh, NegFresh, TooSoon;
  }

  /** The two caches never hold the same key ID, and a returned key is the one that the most recent
      successful fetch gave for the ID asked for. */
  lemma AnswersComeFromTheLastFetch(b: Beginning, steps: seq<Step>, step: Step)
    requires Begins(b)
    ensures var t := Run(StateOf(b), steps);
      && t.keys.Keys !! t.neg.Keys
      && (AnswerOf(t, step).Some? && AnswerOf(t, step).value.1.Key? ==>
          var (kid, answer) := AnswerOf(t, step).value;
          var u := After(t, step);
          u.fetched.Some? && kid in u.fetched.value && u.fetched.value[kid] == answer.key)
  {
    var t := Run(StateOf(b), steps);
    BeginsWithInv(b);
    RunKeepsInv(StateOf(b), steps);
    hide Run, After, AnswerOf, StateOf;
    if AnswerOf(t, step).Some? && AnswerOf(t, step).value.1.Key? {
      AnswerIsFetched(t, step);
    }
  }

  // ---- When a fetch is due ---------------------------------------------------------------

  // One caller going as far as sending.
  function Straight(c: nat, kid: string): seq<Step> { [Call(c, kid), Lock(c), Send(c)] }

  // No cached key for kid that is younger than the TTL.
  predicate NoFreshKey(s: CacheState, kid: string) {
    kid in s.keys && s.fetchedAt.Some? ==> s.now - s.fetchedAt.value >= s.ttl
  }

  // The caches have no answer for kid.
  predicate NothingCached(s: CacheState, kid: string) {
    NoFreshKey(s, kid) && (kid in s.neg ==> s.now - s.neg[kid] >= 30_000)
  }

  /** A key that is not cached, or no longer fresh, and not refused in the last thirty seconds, is asked
      for again as soon as nobody is fetching and the last attempt is five seconds back. */
  lemma MissingKeyIsFetched(s: CacheState, c: nat, kid: string)
    requires s.holder.None? && c !in s.phases && NothingCached(s, kid)
    requires s.lastAttempt.Some? ==> s.now - s.lastAttempt.value >= 5_000
    ensures Run(s, Straight(c, kid)).log == s.log + [s.now]
  {
    var s1 := After(s, Call(c, kid));
    var s2 := After(s1, Lock(c));
    assert s1 == s.(phases := s.phases[c := Waiting(kid)]);
    assert s2.log == s.log && s2.now == s.now && CanSend(s2, c);
    assert Straight(c, kid)[1..] == [Lock(c), Send(c)] && [Lock(c), Send(c)][1..] == [Send(c)];
    assert Run(s2, [Send(c)]) == After(s2, Send(c));
    assert Run(s1, [Lock(c), Send(c)]) == After(s2, Send(c));
  }

  /** So whatever a fetch came to, five seconds after it a caller for a key in neither cache fetches. */
  lemma FetchedAgainAfterFiveSeconds(s: CacheState, d: nat, res: Option<KeySet>, wait: nat, c: nat, kid: string)
    requires Inv(s) && CanFinish(s, d, res) && wait >= 5_000
    requires var t := After(After(s, Finish(d, res)), Tick(wait));
      c !in t.phases && kid !in t.keys && kid !in t.neg
    ensures var t := After(After(s, Finish(d, res)), Tick(wait));
      Run(t, Straight(c, kid)).log == t.log + [s.now + wait]
  {
    var t := After(After(s, Finish(d, res)), Tick(wait));
    assert t.holder.None? && t.now == s.now + wait && t.lastAttempt == Some(s.now);
    hide After, Run;
    MissingKeyIsFetched(t, c, kid);
  }

  /** What a fetch leaves: after a successful one exactly its keys, fresh from now, and no refusal but
      perhaps that of the key asked for; after a failed one the keys there were. The key asked for is
      refused from now on exactly when it is not among the keys. */
  lemma FetchLeaves(s: CacheState, c: nat, res: Option<KeySet>)
    requires CanFinish(s, c, res)
    ensures var t, kid := After(s, Finish(c, res)), s.phases[c].kid;
      && t.now == s.now && t.lastAttempt == Some(s.now) && t.log == s.log
      && t.keys == (if res.Some? then res.value else s.keys)
      && t.fetched == (if res.Some? then res else s.fetched)
      && t.fetchedAt == (if res.Some? then Some(s.now) else s.fetchedAt)
      && (kid !in t.keys ==> kid in t.neg && t.neg[kid] == s.now)
      && (forall k :: k in t.neg && (k != kid || kid in t.keys) ==> res.None? && k in s.neg && t.neg[k] == s.neg[k])
      && AnswerOf(s, Finish(c, res)) == Some((kid,
        if kid in t.keys then Key(t.keys[kid]) else if res.None? && t.keys == map[] then Unavailable else Unknown))
  {
  }

  /** A key found missing is refused, without a fetch, for thirty seconds and not longer; a key found is
      handed out, without a fetch, as long as the TTL that is set by then and not longer. */
  lemma AnswersLast(s: CacheState, d: nat, res: Option<KeySet>, ttl: int, wait: nat, c: nat)
    requires CanFinish(s, d, res) && c !in After(s, Finish(d, res)).phases
    ensures var kid, t := s.phases[d].kid, After(After(After(s, Finish(d, res)), SetTTL(ttl)), Tick(wait));
      && (kid !in t.keys ==> (AnswerOf(t, Call(c, kid)) == Some((kid, Negative)) <==> wait < 30_000))
      && (kid !in t.keys ==> (AnswerOf(t, Call(c, kid)).None? <==> wait >= 30_000))
      && (res.Some? ==> forall k :: k in res.value ==>
        (AnswerOf(t, Call(c, k)) == Some((k, Key(res.value[k]))) <==> wait < ttl))
  {
    FetchLeaves(s, d, res);
  }

  /** What a successful Init fetched is handed out from then on, as long as the TTL. */
  lemma InitIsRemembered(now: int, ttl: int, waited: nat, m: KeySet, wait: nat, c: nat, kid: string)
    requires kid in m
    ensures var t := After(StateOf(WithInit(now, ttl, waited, Some(m))), Tick(wait));
      && t.log == [now - waited] && t.keys == m
      && (AnswerOf(t, Call(c, kid)) == Some((kid, Key(m[kid]))) <==> wait < ttl)
  {
  }

  predicate Asks(step: Step, c: nat) {
    (step.Call? || step.Lock? || step.Finish?) && step.c == c
  }

  /** A caller that has its answer is through: it holds nothing and waits for nothing. */
  lemma AnsweredIsThrough(s: CacheState, step: Step, c: nat)
    requires OneHolder(s) && Asks(step, c) && AnswerOf(s, step).Some?
    ensures var t := After(s, step); c !in t.phases && t.holder != Some(c)
  {
  }

  // ---- When a caller is held back --------------------------------------------------------

  lemma {:induction false} RunOn(s: CacheState, steps: seq<Step>, more: seq<Step>)
    ensures Run(s, steps + more) == Run(Run(s, steps), more)
    ensures |more| == 1 ==> Run(s, steps + more) == After(Run(s, steps), more[0])
    decreases |steps|
  {
    if steps == [] {
      assert steps + more == more;
    } else {
      assert (steps + more)[1..] == steps[1..] + more;
      hide After;
      RunOn(After(s, steps[0]), steps[1..], more);
    }
  }

  // When the last attempt was concluded: the last fetch, or a successful Init.
  function LastConcluded(b: Beginning, steps: seq<Step>): Option<int> {
    if steps == [] then (if b.WithInit? && b.res.Some? then Some(b.now) else None)
    else
      var before, last := steps[..|steps| - 1], steps[|steps| - 1];
      var s := Run(StateOf(b), before);
      if last.Finish? && CanFinish(s, last.c, last.res) then Some(s.now) else LastConcluded(b, before)
  }

  lemma {:induction false} AttemptIsOnRecord(b: Beginning, steps: seq<Step>)
    ensures Run(StateOf(b), steps).lastAttempt == LastConcluded(b, steps)
    decreases |steps|
  {
    if steps != [] {
      var before, last := steps[..|steps| - 1], steps[|steps| - 1];
      assert steps == before + [last];
      RunOn(StateOf(b), before, [last]);
      AttemptIsOnRecord(b, before);
      StepRecords(Run(StateOf(b), before), last);
      hide Run, After;
    }
  }

  lemma StepRecords(s: CacheState, step: Step)
    ensures After(s, step).lastAttempt ==
      if step.Finish? && CanFinish(s, step.c, step.res) then Some(s.now) else s.lastAttempt
  {
  }

  /** In every run a caller that gets the lock is held back exactly when the caches have no answer and
      some attempt was concluded less than five seconds before; with no such attempt it goes on to
      fetch. */
  lemma HeldBackExactlyWhen(b: Beginning, steps: seq<Step>, c: nat)
    requires CanLock(Run(StateOf(b), steps), c)
    ensures var s, last := Run(StateOf(b), steps), LastConcluded(b, steps);
      var kid := s.phases[c].kid;
      var soon := last.Some? && s.now - last.value < 5_000;
      && (AnswerOf(s, Lock(c)) == Some((kid, Throttled)) <==> NothingCached(s, kid) && soon)
      && (AnswerOf(s, Lock(c)).None? <==> NothingCached(s, kid) && !soon)
      && (CanSend(After(s, Lock(c)), c) <==> NothingCached(s, kid) && !soon)
  {
    AttemptIsOnRecord(b, steps);
    hide Run, LastConcluded;
  }

  // ---- A failed Init ---------------------------------------------------------------------

  ghost predicate AlwaysSpaced(s: CacheState) { forall steps :: Spaced(Run(s, steps).log) }

  // An Init that failed after sending leaves no attempt on record, so that the next request is not
  // held back.
  lemma FailedInitIsNotCounted(b: Beginning, kid: string)
    requires !Begins(b)
    ensures Run(StateOf(b), Straight(0, kid)).log == [b.now - b.waited, b.now]
  {
    MissingKeyIsFetched(StateOf(b), 0, kid);
  }

  /** The spacing is kept in every run exactly when Init succeeded, was not called, failed before it
      sent its request, or took five seconds to fail. */
  lemma AlwaysSpacedExactlyWhen(b: Beginning)
    ensures AlwaysSpaced(StateOf(b)) <==> Begins(b)
  {
    if Begins(b) {
      forall steps ensures Spaced(Run(StateOf(b), steps).log) { FetchesAreSpaced(b, steps); }
    } else {
      FailedInitIsNotCounted(b, "");
      var log := [b.now - b.waited, b.now];
      assert !Spaced(log) by { assert log[1] - log[1 - 1] < SPACING; }
      assert !Spaced(Run(StateOf(b), Straight(0, "")).log);
    }
  }
}
