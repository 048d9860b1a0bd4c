/** The validator's key cache as it is written. Each stretch of getKey under one hold of a lock is a
    method, proved to be the step that KeyCacheModel gives it; GetKey joins them, with whatever the
    other callers do in between. */
module KeyCache {
  import opened Options
  import opened KeyCacheModel

  function InitOf(now: int, ttl: int, sends: bool, waited: nat, res: Option<KeySet>): Beginning {
    if sends then WithInit(now, ttl, waited, res) else NotSent(now, ttl)
  }

  // The step of sending, for a fetch that comes to it.
  function Sending(c: nat, sends: bool): seq<Step> { if sends then [Send(c)] else [] }

  class OIDCValidator {
    var now: int
    var keys: KeySet
    var fetchedAt: Option<int>
    var cacheTTL: int
    var negCache: map<string, int>
    var lastAttemptAt: Option<int>
    var fetchHolder: Option<nat>          // who holds the fetch lock
    var callers: map<nat, Phase>          // who is past the fast path
    ghost var log: seq<int>
    ghost var fetched: Option<KeySet>

    ghost function State(): CacheState
      reads this
    {
      CacheState(now, keys, fetchedAt, cacheTTL, negCache, lastAttemptAt, fetchHolder, callers, log, fetched)
    }

    ghost predicate Valid()
      reads this
    {
      Inv(State())
    }

    constructor (now: int, cacheTTL: int)
      ensures Valid() && State() == Start(now, cacheTTL)
    {
      this.now, this.cacheTTL, keys, fetchedAt, negCache, lastAttemptAt := now, cacheTTL, map[], None, map[], None;
      fetchHolder, callers, log, fetched := None, map[], [], None;
    }

    // The first use of a validator. Discovery may fail before the request is sent; once it is, the
    // request took waited to be answered.
    method Init(sends: bool, waited: nat, res: Option<KeySet>) returns (ok: bool)
      requires State() == Start(now, cacheTTL) && (res.Some? ==> sends)
      modifies this
      ensures State() == StateOf(InitOf(old(now), old(cacheTTL), sends, waited, res))
      ensures ok <==> res.Some?
      ensures Begins(InitOf(now, cacheTTL, sends, waited, res)) ==> Valid()
    {
      if sends {
        log := log + [now - waited];
        if res.Some? {
          keys, fetchedAt, lastAttemptAt, fetched := res.value, Some(now), Some(now), res;
        }
      }
      if Begins(InitOf(now, cacheTTL, sends, waited, res)) {
        BeginsWithInv(InitOf(now, cacheTTL, sends, waited, res));
      }
      return res.Some?;
    }

    // What the caches hold for kid, under the read lock.
    method Look(kid: string) returns (ans: Option<Answer>)
      ensures ans == Cached(State(), kid)
    {
      var recent := fetchedAt.Some? && now - fetchedAt.value < cacheTTL;
      if kid in keys && recent {
        return Some(Key(keys[kid]));
      }
      if kid in negCache && now - negCache[kid] < NEGATIVE_TTL {
        return Some(Negative);
      }
      return None;
    }

    method FastPath(c: nat, kid: string) returns (ans: Option<Answer>)
      requires Valid() && c !in callers
      modifies this`callers
      ensures Valid() && State() == After(old(State()), Call(c, kid))
      ensures ans == Cached(old(State()), kid)
      ensures if ans.None? then c in callers && callers[c] == Waiting(kid) else c !in callers
    {
      CallKeepsInv(State(), c, kid);
      hide Inv, Cached;
      ans := Look(kid);
      if ans.None? {
        callers := callers[c := Waiting(kid)];
      }
    }

    // The fetch lock is free and c gets it; it keeps it only if a fetch is called for.
    method Admit(c: nat) returns (ans: Option<Answer>)
      requires Valid() && CanLock(State(), c)
      modifies this`callers, this`fetchHolder
      ensures Valid() && State() == After(old(State()), Lock(c))
      ensures ans == CachedOrThrottled(old(State()), old(callers)[c].kid)
      ensures if ans.None? then c in callers && callers[c] == Admitted(old(callers)[c].kid) else c !in callers
    {
      LockKeepsInv(State(), c);
      hide Inv, Cached;
      var kid := callers[c].kid;
      ans := Look(kid);
      if ans.None? && lastAttemptAt.Some? && now - lastAttemptAt.value < SPACING {
        ans := Some(Throttled);
      }
      if ans.Some? {
        callers := callers - {c};
      } else {
        callers, fetchHolder := callers[c := Admitted(kid)], Some(c);
      }
    }

    method SendRequest(c: nat)
      requires Valid() && CanSend(State(), c)
      modifies this`callers, this`log
      ensures Valid() && State() == After(old(State()), KeyCacheModel.Send(c))
      ensures c in callers && callers[c] == Sent(old(callers)[c].kid)
    {
      SendKeepsInv(State(), c);
      hide Inv;
      callers := callers[c := Sent(callers[c].kid)];
      log := log + [now];
    }

    // The update under the write lock, and the release of the fetch lock.
    method Conclude(c: nat, res: Option<KeySet>) returns (ans: Answer)
      requires Valid() && CanFinish(State(), c, res)
      modifies this
      ensures Valid() && State() == After(old(State()), Finish(c, res)) && c !in callers
      ensures ans == Final(State(), old(callers)[c].kid, res)
    {
      FinishKeepsInv(State(), c, res);
      hide Inv, Updated, Cached;
      var kid := callers[c].kid;
      Update(kid, res);
      callers, fetchHolder := callers - {c}, None;
      if kid in keys {
        return Key(keys[kid]);
      }
      return if res.None? && keys == map[] then Unavailable else Unknown;
    }

    method Update(kid: string, res: Option<KeySet>)
      modifies this`lastAttemptAt, this`keys, this`fetchedAt, this`negCache, this`fetched
      ensures State() == Updated(old(State()), kid, res)
    {
      lastAttemptAt := Some(now);
      if res.Some? {
        keys, fetchedAt, negCache, fetched := res.value, Some(now), map[], res;
      }
      if kid !in keys {
        negCache := negCache[kid := now];
      }
    }

    // Any step of anybody.
    method PerformOne(step: Step)
      requires Valid()
      modifies this
      ensures Valid() && State() == After(old(State()), step)
    {
      StepKeepsInv(State(), step);
      hide Inv, Cached, CachedOrThrottled, Updated;
      match step
      case Tick(d) => now := now + d;
      case SetTTL(ttl) => cacheTTL := ttl;
      case Call(c, kid) => if c !in callers { var _ := FastPath(c, kid); }
      case Lock(c) => if c in callers && callers[c].Waiting? && fetchHolder.None? { var _ := Admit(c); }
      case Send(c) => if c in callers && callers[c].Admitted? { SendRequest(c); }
      case Finish(c, res) =>
        if c in callers && (callers[c].Sent? || (callers[c].Admitted? && res.None?)) { var _ := Conclude(c, res); }
    }

    method Perform(steps: seq<Step>)
      requires Valid()
      modifies this
      ensures Valid() && State() == Run(old(State()), steps)
      decreases |steps|
    {
      hide Inv, After;
      if steps != [] {
        PerformOne(steps[0]);
        Perform(steps[1..]);
      }
    }

    /** One call, with the other callers' steps before it gets the fetch lock, before it sends and
        before it is answered: it takes its own steps among theirs, as far as it gets, and gives the
        answer that the last of them gives. None means that another caller still holds the lock. A
        returned key is the one the last successful fetch gave for kid. */
    method GetKey(c: nat, kid: string, beforeLock: seq<Step>, beforeSend: seq<Step>, beforeAnswer: seq<Step>,
                  sends: bool, res: Option<KeySet>)
      returns (ans: Option<Answer>, ghost steps: seq<Step>)
      requires Valid() && c !in callers && (res.Some? ==> sends)
      requires forall st <- beforeLock + beforeSend + beforeAnswer :: !Names(st, c)
      modifies this
      ensures Valid() && Spaced(log)
      ensures steps <= Whole(c, kid, beforeLock, beforeSend, beforeAnswer, sends, res)
      ensures State() == Run(old(State()), steps)
      ensures ans.Some? ==> c !in callers && GivenBy(old(State()), steps, kid, ans.value)
      ensures ans.None? ==> fetchHolder.Some? && fetchHolder.value != c
      ensures ans.Some? && ans.value.Key? ==>
        fetched.Some? && kid in fetched.value && fetched.value[kid] == ans.value.key
    {
      SplitScript(beforeLock, beforeSend, beforeAnswer, c);
      hide Cached, CachedOrThrottled, Run, After, Inv, Spaced, Updated, Names, GivenBy, Whole;
      ghost var s := State();
      WholeParts(c, kid, beforeLock, beforeSend, beforeAnswer, sends, res);
      steps := [Call(c, kid)];
      ans := FastPath(c, kid);
      AnswerOfCall(s, c, kid);
      KeyIsFetched(State(), kid);
      if ans.Some? {
        return;
      }
      OthersLeaveAlone(State(), beforeLock, c);
      RunOn(s, steps, beforeLock);
      steps := steps + beforeLock;
      Perform(beforeLock);
      KeyIsFetched(State(), kid);
      if fetchHolder.Some? {
        return None, steps;
      }
      AnswerOfLock(s, steps, c, kid);
      RunOn(s, steps, [Lock(c)]);
      steps := steps + [Lock(c)];
      ans := Admit(c);
      KeyIsFetched(State(), kid);
      if ans.Some? {
        return;
      }
      var final;
      final, steps := Fetch(c, kid, beforeSend, beforeAnswer, sends, res, s, steps);
      KeyIsFetched(State(), kid);
      ans := Some(final);
    }

    // From having the fetch lock to the answer; done is what happened since s. A fetch may fail
    // before it sends.
    method Fetch(c: nat, kid: string, beforeSend: seq<Step>, beforeAnswer: seq<Step>, sends: bool,
                 res: Option<KeySet>, ghost s: CacheState, ghost done: seq<Step>)
      returns (ans: Answer, ghost steps: seq<Step>)
      requires Valid() && c in callers && callers[c] == Admitted(kid)
      requires (forall st <- beforeSend :: !Names(st, c)) && (forall st <- beforeAnswer :: !Names(st, c))
      requires State() == Run(s, done) && (res.Some? ==> sends)
      modifies this
      ensures Valid() && c !in callers
      ensures steps == done + beforeSend + Sending(c, sends) + beforeAnswer + [Finish(c, res)]
      ensures State() == Run(s, steps) && GivenBy(s, steps, kid, ans)
      ensures ans == Final(State(), kid, res)
    {
      hide Run, After, Inv, Names, Final, GivenBy;
      steps := done;
      OthersLeaveAlone(State(), beforeSend, c);
      RunOn(s, steps, beforeSend);
      steps := steps + beforeSend;
      Perform(beforeSend);
      if sends {
        RunOn(s, steps, [KeyCacheModel.Send(c)]);
        SendRequest(c);
      }
      assert !sends ==> steps + Sending(c, sends) == steps;
      steps := steps + Sending(c, sends);
      OthersLeaveAlone(State(), beforeAnswer, c);
      RunOn(s, steps, beforeAnswer);
      steps := steps + beforeAnswer;
      Perform(beforeAnswer);
      AnswerOfFinish(s, steps, c, kid, res);
      RunOn(s, steps, [Finish(c, res)]);
      steps := steps + [Finish(c, res)];
      ans := Conclude(c, res);
    }
  }

  // A call's own steps among those of the others.
  function Whole(c: nat, kid: string, beforeLock: seq<Step>, beforeSend: seq<Step>, beforeAnswer: seq<Step>,
                 sends: bool, res: Option<KeySet>): seq<Step>
  {
    [Call(c, kid)] + beforeLock + [Lock(c)] + beforeSend + Sending(c, sends) + beforeAnswer + [Finish(c, res)]
  }

  lemma WholeParts(c: nat, kid: string, beforeLock: seq<Step>, beforeSend: seq<Step>, beforeAnswer: seq<Step>,
                   sends: bool, res: Option<KeySet>)
    ensures var whole := Whole(c, kid, beforeLock, beforeSend, beforeAnswer, sends, res);
      && [Call(c, kid)] <= whole
      && [Call(c, kid)] + beforeLock <= whole
      && [Call(c, kid)] + beforeLock + [Lock(c)] <= whole
      && [Call(c, kid)] + beforeLock + [Lock(c)] + beforeSend + Sending(c, sends) + beforeAnswer
        + [Finish(c, res)] <= whole
  {
  }

  // The last of the steps gives this answer.
  ghost predicate GivenBy(s: CacheState, steps: seq<Step>, kid: string, ans: Answer) {
    steps != [] && AnswerOf(Run(s, steps[..|steps| - 1]), steps[|steps| - 1]) == Some((kid, ans))
  }

  lemma AnswerOfCall(s: CacheState, c: nat, kid: string)
    requires c !in s.phases
    ensures Run(s, [Call(c, kid)]) == After(s, Call(c, kid))
    ensures Cached(s, kid).Some? ==> GivenBy(s, [Call(c, kid)], kid, Cached(s, kid).value)
  {
  }

  lemma AnswerOfLock(s: CacheState, steps: seq<Step>, c: nat, kid: string)
    requires var t := Run(s, steps); CanLock(t, c) && t.phases[c].kid == kid
    ensures var ans := CachedOrThrottled(Run(s, steps), kid);
      ans.Some? ==> GivenBy(s, steps + [Lock(c)], kid, ans.value)
  {
    assert (steps + [Lock(c)])[..|steps|] == steps;
  }

  lemma AnswerOfFinish(s: CacheState, steps: seq<Step>, c: nat, kid: string, res: Option<KeySet>)
    requires var t := Run(s, steps); CanFinish(t, c, res) && t.phases[c].kid == kid
    ensures GivenBy(s, steps + [Finish(c, res)], kid, Final(After(Run(s, steps), Finish(c, res)), kid, res))
  {
    assert (steps + [Finish(c, res)])[..|steps|] == steps;
  }

  predicate Names(step: Step, c: nat) {
    match step
    case Tick(_) => false
    case SetTTL(_) => false
    case Call(d, _) => d == c
    case Lock(d) => d == c
    case Send(d) => d == c
    case Finish(d, _) => d == c
  }

  lemma SplitScript(a: seq<Step>, b: seq<Step>, d: seq<Step>, c: nat)
    requires forall st <- a + b + d :: !Names(st, c)
    ensures (forall st <- a :: !Names(st, c)) && (forall st <- b :: !Names(st, c)) && (forall st <- d :: !Names(st, c))
  {
    hide Names;
    forall st | st in a || st in b || st in d ensures !Names(st, c) { assert st in a + b + d; }
  }

  // Other callers' steps do not change how far c has come.
  lemma {:induction false} OthersLeaveAlone(s: CacheState, steps: seq<Step>, c: nat)
    requires c in s.phases && forall st <- steps :: !Names(st, c)
    ensures c in Run(s, steps).phases && Run(s, steps).phases[c] == s.phases[c]
    decreases |steps|
  {
    if steps != [] {
      OtherLeavesAlone(s, steps[0], c);
      hide After;
      OthersLeaveAlone(After(s, steps[0]), steps[1..], c);
    }
  }

  lemma OtherLeavesAlone(s: CacheState, step: Step, c: nat)
    requires c in s.phases && !Names(step, c)
    ensures c in After(s, step).phases && After(s, step).phases[c] == s.phases[c]
  {
  }

  // A cached key, and one found after a fetch, is the last fetched one; and the log is spaced.
  lemma KeyIsFetched(s: CacheState, kid: string)
    requires Inv(s)
    ensures kid in s.keys ==> s.fetched.Some? && kid in s.fetched.value && s.fetched.value[kid] == s.keys[kid]
    ensures Cached(s, kid).Some? && Cached(s, kid).value.Key? ==>
      kid in s.keys && Cached(s, kid).value.key == s.keys[kid]
    ensures Spaced(s.log)
    ensures s.holder.Some? && s.holder.value in s.phases ==> !s.phases[s.holder.value].Waiting?
  {
  }
}
