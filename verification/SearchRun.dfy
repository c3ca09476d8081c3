/** The loop of `generate_connection_proof` (generator.py): its variables as fields, its clock and its thread
    pool as nondeterministic inputs. `events` records the run, which `Search` reasons about. */
module SearchRun {
  import opened Bytes
  import opened Domain
  import opened Hashes
  import opened Parser
  import opened Verify
  import opened Search

  /** `time.monotonic()`: any real that never goes back. */
  class Clock {
    var now: real

    constructor (start: real)
      ensures now == start
    {
      now := start;
    }

    method Monotonic() returns (t: real)
      modifies this
      ensures t == now && now >= old(now)
    {
      var reading: real := *;
      if reading > now {
        now := reading;
      }
      t := now;
    }
  }

  /** The thread pool. `done` are the futures that the last wait found completed, `waits` how often it waited. */
  class Pool {
    var done: map<nat, Outcome>
    ghost var waits: nat

    constructor ()
      ensures waits == 0
    {
      done, waits := map[], 0;
    }

    /** Any of the pending futures, with any outcomes. */
    method Wait(pending: set<nat>)
      modifies this
      ensures done.Keys <= pending && waits == old(waits) + 1
    {
      var completed: map<nat, Outcome> := *;
      done := map k | k in completed && k in pending :: completed[k];
      waits := waits + 1;
    }
  }

  /** How one turn of the outer loop ends. */
  datatype Turn = Continue | TimedOut | GaveUp | Found(envelope: Envelope, attempts: nat)

  class Generator {
    const c: Config
    var nextStart: real
    var attemptsStarted: nat
    var attemptsCompleted: nat
    var nextEndpoint: nat
    var best: Option<Digest>
    var preflightComplete: bool
    var pending: set<nat>
    ghost var result: Option<Envelope>
    ghost var launches: seq<Launch>
    ghost var hashes: seq<Digest>
    ghost var events: seq<Event>

    ghost function Current(): State
      reads this
    {
      State(nextStart, attemptsStarted, attemptsCompleted, nextEndpoint, best, preflightComplete, pending, result,
            launches, hashes)
    }

    /** The fields are the state that the recorded events lead to. */
    ghost predicate Valid()
      reads this
    {
      ValidConfig(c) && Replay(c, events) == Some(Current())
    }

    constructor (c: Config)
      requires ValidConfig(c)
      ensures this.c == c && Valid() && events == [] && result == None
    {
      this.c := c;
      nextStart := c.startedAt;
      attemptsStarted, attemptsCompleted, nextEndpoint := 0, 0, 0;
      best, preflightComplete, pending := None, false, {};
      result, launches, hashes, events := None, [], [], [];
    }

    ghost method Record(e: Event)
      requires ValidConfig(c) && Replay(c, events).Some? && Enabled(c, Replay(c, events).value, e)
      modifies this`events
      ensures events == old(events) + [e]
      ensures Replay(c, events) == Some(Apply(c, Replay(c, old(events)).value, e))
    {
      hide ValidConfig, Enabled, Apply;
      events := events + [e];
      assert events[..|events| - 1] == old(events);
    }

    /** Starts one attempt on the next endpoint. */
    method StartOne(now: real)
      requires Valid() && Enabled(c, Current(), Launched(now))
      modifies this
      ensures Valid() && events == old(events) + [Launched(now)]
      ensures Current() == DoLaunch(c, old(Current()), now)
    {
      hide ValidEnvelope, ValidOptions, Interval, AttemptTimeout, Enabled, Replay;
      Record(Launched(now));
      launches := launches + [Launch(now, nextEndpoint % c.endpoints, AttemptTimeout(c, now))];
      nextEndpoint := nextEndpoint + 1;
      attemptsStarted := attemptsStarted + 1;
      pending := pending + {attemptsStarted};
      if c.options.connectionsPerSecond != UNLIMITED {
        var interval := Interval(c);
        nextStart := Max(nextStart + interval, now + interval);
      }
    }

    /** The inner loop: start attempts while there is room, allowance and, under a rate, the time has come. */
    method StartDue(clock: Clock)
      requires Valid() && result.None? && clock.now >= LastReading(c, Current())
      modifies this, clock
      ensures Valid() && result.None? && clock.now >= LastReading(c, Current()) && old(events) <= events
      ensures attemptsCompleted == old(attemptsCompleted) && best == old(best)
              && preflightComplete == old(preflightComplete) && old(pending) <= pending
      ensures attemptsStarted - old(attemptsStarted) == |pending| - |old(pending)| && clock.now >= old(clock.now)
      ensures |pending| >= c.options.concurrency || Exhausted(c, Current())
              || (RateLimited(c) && clock.now < nextStart)
    {
      hide ValidConfig, Interval, AttemptTimeout, Replay, Good;
      while |pending| < c.options.concurrency
        invariant Valid() && result.None? && clock.now >= LastReading(c, Current()) && old(events) <= events
        invariant attemptsCompleted == old(attemptsCompleted) && best == old(best)
                  && preflightComplete == old(preflightComplete) && old(pending) <= pending
        invariant attemptsStarted - old(attemptsStarted) == |pending| - |old(pending)| && clock.now >= old(clock.now)
        decreases c.options.concurrency - |pending|
      {
        if c.options.maxAttempts != 0 && attemptsStarted >= c.options.maxAttempts {
          break;
        }
        var now := clock.Monotonic();
        if c.options.connectionsPerSecond != UNLIMITED && now < nextStart {
          break;
        }
        FreshAttempt(c, events);
        StartOne(now);
      }
    }

    /** The work of one completed capture, up to the verification that ends the search: its hash is compared
        with the best, then it passes the preflight or, after that, has to meet the target first. */
    method ProcessOutcome(outcome: Outcome) returns (found: Option<Envelope>)
      requires ValidConfig(c)
      modifies this`best, this`preflightComplete, this`hashes
      ensures var done := Process(c, old(preflightComplete), outcome);
              && found == done.result && preflightComplete == done.preflightComplete
              && best == Better(old(best), done.hash)
              && hashes == if done.hash.Some? then old(hashes) + [done.hash.value] else old(hashes)
    {
      hide ValidOptions, IsCanonicalDomain, Challenge, VerifyConnectionProof, MeetsWorkTarget, ParsedProofOf, LE;
      if outcome.Raised? {
        return None;
      }
      var candidate :- WithProof(c.context, outcome.proof);
      var parsed :- ParseProof(c.sha256, candidate.proof, candidate.domain, Challenge(c.sha256, candidate));
      var hash := parsed.connectionWorkHash;
      var numericWork := LE(hash);
      if best.None? || numericWork < LE(best.value) {
        best := Some(hash);
      }
      hashes := hashes + [hash];
      var candidateVerified := false;
      if !preflightComplete {
        var preflight := candidate.(target := EasiestTarget());
        var verdict := VerifyConnectionProof(c.sha256, c.authority, preflight, c.options.enforceRootPin);
        if verdict.Rejected? {
          return None;
        }
        preflightComplete := true;
        candidateVerified := true;
      }
      if MeetsWorkTarget(hash, candidate.target) == Some(true) {
        if !candidateVerified {
          var verdict := VerifyConnectionProof(c.sha256, c.authority, candidate, c.options.enforceRootPin);
          if verdict.Rejected? {
            return None;
          }
        }
        return Some(candidate);
      }
      return None;
    }

    /** One completed future. The search ends with it exactly when its candidate verifies at the real target. */
    method CompleteOne(attempt: nat, outcome: Outcome) returns (found: Option<Envelope>)
      requires Valid() && Enabled(c, Current(), Finished(attempt, outcome))
      modifies this
      ensures Valid() && events == old(events) + [Finished(attempt, outcome)]
      ensures Current() == DoFinish(c, old(Current()), attempt, outcome)
      ensures found == result == VerifiedCandidate(c, outcome)
    {
      hide ValidEnvelope, ValidOptions, Enabled, Replay, Process, Better, VerifiedCandidate;
      ShortcutIsVerification(c, preflightComplete, outcome);
      Record(Finished(attempt, outcome));
      pending := pending - {attempt};
      attemptsCompleted := attemptsCompleted + 1;
      found := ProcessOutcome(outcome);
      result := found;
    }

    /** The loop over the futures that are done, in any order, up to the first that ends the search. */
    method CompleteAll(done: map<nat, Outcome>) returns (found: Option<Envelope>)
      requires Valid() && result.None? && done.Keys <= pending
      modifies this
      ensures Valid() && old(events) <= events && result == found
      ensures nextStart == old(nextStart) && attemptsStarted == old(attemptsStarted) && launches == old(launches)
      ensures attemptsCompleted >= old(attemptsCompleted)
      ensures found.None? ==>
                && pending == old(pending) - done.Keys
                && attemptsCompleted == old(attemptsCompleted) + |done|
                && forall k :: k in done ==> VerifiedCandidate(c, done[k]).None?
      ensures found.Some? ==> exists k :: k in done && VerifiedCandidate(c, done[k]) == found
    {
      hide ValidEnvelope, ValidOptions, Replay, VerifiedCandidate, Process, Better, Good;
      var todo := done.Keys;
      while todo != {}
        invariant Valid() && result.None? && old(events) <= events
        invariant nextStart == old(nextStart) && attemptsStarted == old(attemptsStarted) && launches == old(launches)
        invariant todo <= pending && todo <= done.Keys && pending == old(pending) - (done.Keys - todo)
        invariant attemptsCompleted == old(attemptsCompleted) + |done| - |todo| && |todo| <= |done|
        invariant forall k :: k in done && k !in todo ==> VerifiedCandidate(c, done[k]).None?
        decreases |todo|
      {
        var attempt :| attempt in todo;
        todo := todo - {attempt};
        found := CompleteOne(attempt, done[attempt]);
        if found.Some? {
          return;
        }
      }
      return None;
    }

    ghost predicate PastDeadline(reading: real) {
      c.options.overallTimeout != 0.0 && reading - c.startedAt >= c.options.overallTimeout
    }

    ghost predicate AllDone()
      reads this
    {
      Exhausted(c, Current()) && pending == {}
    }

    /** Since `completed` attempts were done, starts went on until the pool was full, the allowance was used
        up, or the rate said to wait. */
    ghost predicate KeptBusy(completed: nat, reading: real)
      reads this
    {
      || attemptsStarted >= completed + c.options.concurrency || Exhausted(c, Current())
      || (RateLimited(c) && reading < nextStart)
    }

    /** One turn of the outer loop: the exits, the due starts, and whichever futures are done. `reading` is what
        the clock shows when the turn begins. */
    method TakeTurn(clock: Clock, pool: Pool) returns (t: Turn, ghost reading: real)
      requires Valid() && result.None? && clock.now >= LastReading(c, Current())
      modifies this, clock, pool
      ensures t.TimedOut? || t.GaveUp? ==> events == old(events)
      ensures t.Continue? && pool.waits == old(pool.waits) ==>
                pending == {} && attemptsCompleted == old(attemptsCompleted)
      ensures t.Continue? && pool.waits != old(pool.waits) ==>
                && pool.waits == old(pool.waits) + 1 && pending !! pool.done.Keys
                && attemptsCompleted == old(attemptsCompleted) + |pool.done|
                && forall k :: k in pool.done ==> VerifiedCandidate(c, pool.done[k]).None?
      ensures t.Found? ==> exists k :: k in pool.done && VerifiedCandidate(c, pool.done[k]) == Some(t.envelope)
      ensures old(clock.now) <= reading <= clock.now
      ensures t.TimedOut? <==> PastDeadline(reading)
      ensures t.GaveUp? <==> !PastDeadline(reading) && old(AllDone())
      ensures t.Continue? || t.Found? ==> KeptBusy(old(attemptsCompleted), clock.now)
      ensures attemptsCompleted >= old(attemptsCompleted)
      ensures Valid() && clock.now >= LastReading(c, Current()) && old(events) <= events
      ensures match t
              case Found(envelope, attempts) => result == Some(envelope) && attempts == attemptsCompleted
              case GaveUp => result.None? && pending == {} && attemptsCompleted == c.options.maxAttempts
              case TimedOut => result.None? && clock.now - c.startedAt >= c.options.overallTimeout > 0.0
              case Continue => result.None?
    {
      hide ValidEnvelope, ValidOptions, Replay, VerifiedCandidate, Process, Better, Good;
      var now := clock.Monotonic();
      reading := now;
      if c.options.overallTimeout != 0.0 && now - c.startedAt >= c.options.overallTimeout {
        OverallTimeoutPositive(c);
        return TimedOut, reading;
      }
      if c.options.maxAttempts != 0 && attemptsStarted >= c.options.maxAttempts && pending == {} {
        EveryRunIsGood(c, events);
        GivingUpMeansAllCompleted(c, Current());
        return GaveUp, reading;
      }
      assert !old(AllDone());
      AccountsBalance(c, events);
      StartDue(clock);
      assert KeptBusy(old(attemptsCompleted), clock.now);
      if pending == {} {
        return Continue, reading;
      }
      pool.Wait(pending);
      var found := CompleteAll(pool.done);
      if found.Some? {
        return Found(found.value, attemptsCompleted), reading;
      }
      return Continue, reading;
    }

    /** Any number of turns. A returned envelope verifies at its own target and is the context with a proof. */
    method Run(clock: Clock, pool: Pool, turns: nat) returns (t: Turn)
      requires Valid() && result.None? && clock.now >= LastReading(c, Current())
      modifies this, clock, pool
      ensures Valid() && old(events) <= events
      ensures t.Found? ==> && ValidEnvelope(t.envelope) && Verifies(c, t.envelope)
                           && t.envelope == c.context.(proof := t.envelope.proof)
      ensures t.GaveUp? ==> attemptsCompleted == c.options.maxAttempts && pending == {}
      ensures t.TimedOut? ==> PastDeadline(clock.now)
      ensures turns > 0 && PastDeadline(old(clock.now)) ==> t.TimedOut?
      ensures turns > 0 && old(AllDone()) ==> t.TimedOut? || t.GaveUp?
      ensures turns > 0 && t.Continue? ==> KeptBusy(old(attemptsCompleted), clock.now)
      ensures attemptsCompleted >= old(attemptsCompleted)
    {
      hide ValidEnvelope, ValidOptions, Replay, Verifies;
      t := Continue;
      for i := 0 to turns
        invariant Valid() && result.None? && clock.now >= LastReading(c, Current()) && old(events) <= events
        invariant t == Continue && attemptsCompleted >= old(attemptsCompleted)
        invariant if i == 0 then clock.now == old(clock.now) && Current() == old(Current())
                  else KeptBusy(old(attemptsCompleted), clock.now)
        invariant i > 0 ==> !PastDeadline(old(clock.now)) && !old(AllDone())
      {
        ghost var reading;
        t, reading := TakeTurn(clock, pool);
        if t != Continue {
          if t.Found? {
            FoundVerifies(c, events);
          }
          return;
        }
      }
    }
  }

  lemma AccountsBalance(c: Config, events: seq<Event>)
    requires ValidConfig(c) && Replay(c, events).Some?
    ensures var st := Replay(c, events).value; st.started == st.completed + |st.pending|
  {
    hide ValidEnvelope, Spaced, InTime, BestSoFar, ResultVerified, Replay;
    EveryRunIsGood(c, events);
  }

  lemma OverallTimeoutPositive(c: Config)
    requires ValidConfig(c) && c.options.overallTimeout != 0.0
    ensures c.options.overallTimeout > 0.0
  {
    hide ValidEnvelope;
  }

  lemma FoundVerifies(c: Config, events: seq<Event>)
    requires ValidConfig(c) && Replay(c, events).Some?
    ensures ResultVerified(c, Replay(c, events).value)
  {
    hide ValidEnvelope, Replay, Accounted, Spaced, InTime, BestSoFar, ResultVerified;
    EveryRunIsGood(c, events);
  }

  /** The next attempt number is not pending. */
  lemma FreshAttempt(c: Config, events: seq<Event>)
    requires ValidConfig(c) && Replay(c, events).Some?
    ensures Replay(c, events).value.started + 1 !in Replay(c, events).value.pending
  {
    hide ValidEnvelope, Spaced, InTime, BestSoFar, ResultVerified, Replay;
    EveryRunIsGood(c, events);
  }
}
