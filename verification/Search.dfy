/** The proof search (generator.py) as a machine over launches and completions, and what every run keeps.
    Completions may arrive in any order and at any time; the clock is any monotone real reading. */
module Search {
  import opened Bytes
  import opened Domain
  import opened Signatures
  import opened Hashes
  import opened Messages
  import opened Parser
  import opened Verify
  import Capture
  import Reassembly
  import ProofFormat

  const MAX_CONCURRENCY := 256
  const UNLIMITED := -1

  datatype Options = Options(
    port: int, connectionsPerSecond: int, concurrency: int, connectionTimeout: real, overallTimeout: real,
    maxAttempts: int, enforceRootPin: bool)

  /** `_validate_options`. */
  predicate ValidOptions(o: Options) {
    && 1 <= o.port <= 65535
    && o.connectionsPerSecond >= -1 && o.connectionsPerSecond != 0
    && 1 <= o.concurrency <= MAX_CONCURRENCY
    && o.connectionTimeout > 0.0 && o.overallTimeout >= 0.0 && o.maxAttempts >= 0
  }

  /** What is fixed for a run. */
  datatype Config = Config(
    options: Options, context: Envelope, endpoints: nat, startedAt: real, sha256: Sha256, authority: Authority)

  /** The generation context is a valid record whose proof is still empty; some address was permitted. */
  predicate ValidConfig(c: Config) {
    ValidOptions(c.options) && ValidEnvelope(c.context) && c.context.proof == [] && c.endpoints > 0
  }

  /** How an attempt ended: with an exception, or with a captured proof. */
  datatype Outcome = Raised | Captured(proof: bytes, peerIp: string)

  /** One started attempt: the clock reading, the endpoint and the time it was given. */
  datatype Launch = Launch(time: real, endpoint: nat, timeout: real)

  /** `launches` and `hashes` record every start and the work hash of every capture that parsed; attempts are
      numbered from 1 and stand for their futures. */
  datatype State = State(
    nextStart: real, started: nat, completed: nat, nextEndpoint: nat,
    best: Option<Digest>, preflightComplete: bool, pending: set<nat>, result: Option<Envelope>,
    launches: seq<Launch>, hashes: seq<Digest>)

  function Initial(c: Config): State {
    State(c.startedAt, 0, 0, 0, None, false, {}, None, [], [])
  }

  datatype Event = Launched(now: real) | Finished(attempt: nat, outcome: Outcome)

  // ---------- launching ----------

  predicate RateLimited(c: Config) {
    c.options.connectionsPerSecond != UNLIMITED
  }

  function Interval(c: Config): (interval: real)
    requires ValidConfig(c) && RateLimited(c)
    ensures interval > 0.0
  {
    1.0 / (c.options.connectionsPerSecond as real)
  }

  predicate Exhausted(c: Config, st: State) {
    c.options.maxAttempts != 0 && st.started >= c.options.maxAttempts
  }

  function LastReading(c: Config, st: State): real {
    if st.launches == [] then c.startedAt else st.launches[|st.launches| - 1].time
  }

  predicate MayLaunch(c: Config, st: State, now: real) {
    && |st.pending| < c.options.concurrency && !Exhausted(c, st)
    && (RateLimited(c) ==> now >= st.nextStart)
  }

  function AttemptTimeout(c: Config, now: real): real {
    if c.options.overallTimeout == 0.0 then c.options.connectionTimeout
    else Min(c.options.connectionTimeout, c.options.overallTimeout - (now - c.startedAt))
  }

  function Min(a: real, b: real): real { if a < b then a else b }

  function Max(a: real, b: real): real { if a > b then a else b }

  function DoLaunch(c: Config, st: State, now: real): State
    requires ValidConfig(c)
  {
    st.(nextEndpoint := st.nextEndpoint + 1,
        started := st.started + 1,
        pending := st.pending + {st.started + 1},
        launches := st.launches + [Launch(now, st.nextEndpoint % c.endpoints, AttemptTimeout(c, now))],
        nextStart := if RateLimited(c) then Max(st.nextStart + Interval(c), now + Interval(c)) else st.nextStart)
  }

  // ---------- completing ----------

  /** What one completed capture does: the work hash it shows, whether the preflight has now been passed, and
      the envelope it ends the search with. */
  datatype Processed = Processed(hash: Option<Digest>, preflightComplete: bool, result: Option<Envelope>)

  function Verifies(c: Config, e: Envelope): bool
    requires ValidEnvelope(e)
  {
    VerifyConnectionProof(c.sha256, c.authority, e, c.options.enforceRootPin).Verified?
  }

  /** The body of the `for` over completed futures. The first candidates are verified at the easiest target
      until one passes; after that only a candidate whose work is enough is verified. */
  function Process(c: Config, preflightComplete: bool, outcome: Outcome): Processed
    requires ValidConfig(c)
  {
    match outcome
    case Raised => Processed(None, preflightComplete, None)
    case Captured(proof, _) =>
      match WithProof(c.context, proof)
      case None => Processed(None, preflightComplete, None)
      case Some(candidate) =>
        match ParsedEnvelope(c.sha256, candidate)
        case None => Processed(None, preflightComplete, None)
        case Some(parsed) =>
          var hash := parsed.connectionWorkHash;
          if !preflightComplete && !Verifies(c, candidate.(target := EasiestTarget()))
          then Processed(Some(hash), false, None)
          else if MeetsWorkTarget(hash, candidate.target) != Some(true)
          then Processed(Some(hash), true, None)
          else if preflightComplete && !Verifies(c, candidate)
          then Processed(Some(hash), true, None)
          else Processed(Some(hash), true, Some(candidate))
  }

  /** The smaller work, keeping the earlier one on a tie. */
  function Better(best: Option<Digest>, hash: Option<Digest>): Option<Digest> {
    if hash.None? then best
    else if best.None? || LE(hash.value) < LE(best.value) then hash else best
  }

  function DoFinish(c: Config, st: State, attempt: nat, outcome: Outcome): State
    requires ValidConfig(c)
  {
    var done := Process(c, st.preflightComplete, outcome);
    st.(pending := st.pending - {attempt},
        completed := st.completed + 1,
        best := Better(st.best, done.hash),
        hashes := if done.hash.Some? then st.hashes + [done.hash.value] else st.hashes,
        preflightComplete := done.preflightComplete,
        result := done.result)
  }

  // ---------- runs ----------

  /** The event is one the loop could take next; a result ends the run. */
  predicate Enabled(c: Config, st: State, e: Event) {
    && st.result.None?
    && match e
       case Launched(now) => MayLaunch(c, st, now) && now >= LastReading(c, st)
       case Finished(attempt, _) => attempt in st.pending
  }

  function Apply(c: Config, st: State, e: Event): State
    requires ValidConfig(c)
  {
    match e
    case Launched(now) => DoLaunch(c, st, now)
    case Finished(attempt, outcome) => DoFinish(c, st, attempt, outcome)
  }

  /** The state after a run, if every event was enabled when it happened. */
  function Replay(c: Config, events: seq<Event>): Option<State>
    requires ValidConfig(c)
  {
    if events == [] then Some(Initial(c))
    else
      var st :- Replay(c, events[..|events| - 1]);
      var e := events[|events| - 1];
      if Enabled(c, st, e) then Some(Apply(c, st, e)) else None
  }

  // ---------- accounting ----------

  /** Every attempt is completed or pending, within the limits, and addresses are taken in turn. */
  predicate Accounted(c: Config, st: State)
    requires c.endpoints > 0
  {
    && st.started == st.completed + |st.pending| && |st.pending| <= c.options.concurrency
    && (c.options.maxAttempts != 0 ==> st.started <= c.options.maxAttempts)
    && (forall k :: k in st.pending ==> 1 <= k <= st.started)
    && st.nextEndpoint == |st.launches| == st.started
    && forall k :: 0 <= k < |st.launches| ==> st.launches[k].endpoint == k % c.endpoints
  }

  // ---------- the rate limit ----------

  /** Consecutive starts are an interval apart; the next one is due an interval after the last, no later. */
  predicate Spaced(c: Config, st: State)
    requires ValidConfig(c)
  {
    && (forall k :: 0 <= k < |st.launches| - 1 ==> st.launches[k].time <= st.launches[k + 1].time)
    && (!RateLimited(c) ==> st.nextStart == c.startedAt)
    && (RateLimited(c) ==>
          && (forall k :: 0 <= k < |st.launches| - 1 ==>
                st.launches[k].time + Interval(c) <= st.launches[k + 1].time)
          && st.nextStart == if st.launches == [] then c.startedAt
                             else LastReading(c, st) + 1.0 / (c.options.connectionsPerSecond as real))
  }

  /** Every attempt is given the most that its own limit and the overall limit allow. */
  predicate InTime(c: Config, st: State) {
    forall k :: 0 <= k < |st.launches| ==> MostAllowed(c, st.launches[k])
  }

  predicate MostAllowed(c: Config, launch: Launch) {
    var end := c.startedAt + c.options.overallTimeout;
    && launch.timeout <= c.options.connectionTimeout
    && (c.options.overallTimeout == 0.0 ==> launch.timeout == c.options.connectionTimeout)
    && (c.options.overallTimeout != 0.0 ==>
          && launch.time + launch.timeout <= end
          && (launch.timeout == c.options.connectionTimeout || launch.time + launch.timeout == end))
  }

  // ---------- the best hash and the result ----------

  /** The best hash is one of those seen and none seen is lexicographically smaller. */
  predicate BestSoFar(st: State) {
    if st.best.None? then st.hashes == []
    else
      && st.best.value in st.hashes
      && forall k :: 0 <= k < |st.hashes| ==> NoLater(st.best.value, st.hashes[k])
  }

  /** `a` is displayed as a string lexicographically at most the one `b` is displayed as. */
  predicate NoLater(a: Digest, b: Digest) {
    LexAtMost(InternalHashToDisplay(a), InternalHashToDisplay(b))
  }

  /** A returned envelope verifies at its own target and differs from the context only in its proof. */
  predicate ResultVerified(c: Config, st: State)
    requires ValidConfig(c)
  {
    st.result.Some? ==>
      && ValidEnvelope(st.result.value) && Verifies(c, st.result.value)
      && st.result.value == c.context.(proof := st.result.value.proof)
  }

  predicate Good(c: Config, st: State)
    requires ValidConfig(c)
  {
    Accounted(c, st) && Spaced(c, st) && InTime(c, st) && BestSoFar(st) && ResultVerified(c, st)
  }

  // ---------- the preflight shortcut ----------

  /** What a search without the preflight shortcut would return for an outcome. */
  function VerifiedCandidate(c: Config, outcome: Outcome): Option<Envelope>
    requires ValidConfig(c)
  {
    match outcome
    case Raised => None
    case Captured(proof, _) =>
      match WithProof(c.context, proof)
      case None => None
      case Some(candidate) => if Verifies(c, candidate) then Some(candidate) else None
  }

  /** The shortcut changes nothing: whether or not the preflight is over, a capture ends the search exactly when
      its candidate verifies at the real target, and then with that candidate. */
  lemma ShortcutIsVerification(c: Config, preflightComplete: bool, outcome: Outcome)
    requires ValidConfig(c)
    ensures Process(c, preflightComplete, outcome).result == VerifiedCandidate(c, outcome)
  {
    hide ParsedProofOf, MeetsWorkTarget, SchemeAllowed, Challenge, IsCanonicalDomain, CheckCertificates;
    if outcome.Captured? && WithProof(c.context, outcome.proof).Some? {
      var candidate := WithProof(c.context, outcome.proof).value;
      PreflightThenWork(c.sha256, c.authority, candidate, c.options.enforceRootPin);
    }
  }

  /** The hash of a capture counts whether or not the capture later verifies. */
  lemma EveryParsedHashCounts(c: Config, preflightComplete: bool, outcome: Outcome)
    requires ValidConfig(c)
    ensures Process(c, preflightComplete, outcome).hash ==
            if outcome.Captured? && WithProof(c.context, outcome.proof).Some?
               && ParsedEnvelope(c.sha256, WithProof(c.context, outcome.proof).value).Some?
            then Some(ParsedEnvelope(c.sha256, WithProof(c.context, outcome.proof).value).value.connectionWorkHash)
            else None
  {
    hide ParsedProofOf, MeetsWorkTarget, IsCanonicalDomain, VerifyConnectionProof, Challenge;
  }

  // ---------- every step keeps every invariant ----------

  lemma LaunchAccounted(c: Config, st: State, now: real)
    requires ValidConfig(c) && Accounted(c, st) && MayLaunch(c, st, now)
    ensures Accounted(c, DoLaunch(c, st, now))
  {
    hide ValidEnvelope;
    assert st.started + 1 !in st.pending;
  }

  lemma LaunchSpaced(c: Config, st: State, now: real)
    requires ValidConfig(c) && Spaced(c, st) && InTime(c, st) && MayLaunch(c, st, now) && now >= LastReading(c, st)
    ensures Spaced(c, DoLaunch(c, st, now)) && InTime(c, DoLaunch(c, st, now))
  {
    hide ValidEnvelope;
  }

  lemma FinishAccounted(c: Config, st: State, attempt: nat, outcome: Outcome)
    requires ValidConfig(c) && Accounted(c, st) && attempt in st.pending
    ensures Accounted(c, DoFinish(c, st, attempt, outcome))
  {
    hide ValidEnvelope, Process, Better;
  }

  /** Numeric order of work hashes is the order of what is displayed. */
  lemma WorkOrder(a: Digest, b: Digest)
    ensures LE(a) <= LE(b) <==> NoLater(a, b)
  {
    hide BE, ToHex, LexAtMost;
    HexOrder(Reverse(a), Reverse(b));
  }

  lemma FinishBest(c: Config, st: State, attempt: nat, outcome: Outcome)
    requires ValidConfig(c) && BestSoFar(st)
    ensures BestSoFar(DoFinish(c, st, attempt, outcome))
  {
    hide ValidEnvelope, Process, LE, NoLater;
    var next := DoFinish(c, st, attempt, outcome);
    if next.hashes != st.hashes {
      var hash := next.hashes[|st.hashes|];
      WorkOrder(hash, hash);
      if st.best.Some? {
        WorkOrder(st.best.value, hash);
        forall k | 0 <= k < |st.hashes| ensures NoLater(next.best.value, st.hashes[k]) {
          WorkOrder(st.best.value, st.hashes[k]);
          WorkOrder(next.best.value, st.hashes[k]);
        }
      }
    }
  }

  lemma FinishResult(c: Config, st: State, attempt: nat, outcome: Outcome)
    requires ValidConfig(c)
    ensures ResultVerified(c, DoFinish(c, st, attempt, outcome))
    ensures DoFinish(c, st, attempt, outcome).result == VerifiedCandidate(c, outcome)
  {
    hide Process, IsCanonicalDomain, VerifyConnectionProof;
    ShortcutIsVerification(c, st.preflightComplete, outcome);
  }

  lemma InitialGood(c: Config)
    requires ValidConfig(c)
    ensures Good(c, Initial(c))
  {
  }

  lemma StepGood(c: Config, st: State, e: Event)
    requires ValidConfig(c) && Good(c, st) && Enabled(c, st, e)
    ensures Good(c, Apply(c, st, e))
  {
    hide ValidEnvelope, Process, Better, NoLater, VerifiedCandidate, Accounted, BestSoFar, ResultVerified;
    match e
    case Launched(now) =>
      LaunchAccounted(c, st, now);
      LaunchSpaced(c, st, now);
      LaunchKeepsResults(c, st, now);
    case Finished(attempt, outcome) =>
      FinishAccounted(c, st, attempt, outcome);
      FinishBest(c, st, attempt, outcome);
      FinishResult(c, st, attempt, outcome);
  }

  lemma LaunchKeepsResults(c: Config, st: State, now: real)
    requires ValidConfig(c) && BestSoFar(st) && st.result.None?
    ensures BestSoFar(DoLaunch(c, st, now)) && ResultVerified(c, DoLaunch(c, st, now))
  {
    hide ValidEnvelope, NoLater;
  }

  /** Over every run, whatever the clock shows and however completions arrive. */
  lemma {:induction false} EveryRunIsGood(c: Config, events: seq<Event>)
    requires ValidConfig(c) && Replay(c, events).Some?
    ensures Good(c, Replay(c, events).value)
  {
    hide ValidEnvelope, Good, Enabled, Apply, Initial;
    if events == [] {
      InitialGood(c);
    } else {
      EveryRunIsGood(c, events[..|events| - 1]);
      StepGood(c, Replay(c, events[..|events| - 1]).value, events[|events| - 1]);
    }
  }

  /** The candidate of a capture verifies at the easiest target. */
  predicate PassesPreflight(c: Config, e: Event)
    requires ValidConfig(c)
  {
    && e.Finished? && e.outcome.Captured? && WithProof(c.context, e.outcome.proof).Some?
    && Verifies(c, WithProof(c.context, e.outcome.proof).value.(target := EasiestTarget()))
  }

  lemma PreflightStep(c: Config, st: State, e: Event)
    requires ValidConfig(c)
    ensures Apply(c, st, e).preflightComplete <==> st.preflightComplete || PassesPreflight(c, e)
  {
    hide IsCanonicalDomain, ParsedProofOf, MeetsWorkTarget, Challenge, SchemeAllowed, CheckCertificates, Interval;
    if e.Finished? && e.outcome.Captured? && WithProof(c.context, e.outcome.proof).Some? {
      SameChallenge(c.sha256, WithProof(c.context, e.outcome.proof).value, EasiestTarget());
    }
  }

  /** Over every run: the preflight is over exactly when some finished attempt's candidate passed it. */
  lemma {:induction false} PreflightExactly(c: Config, events: seq<Event>)
    requires ValidConfig(c) && Replay(c, events).Some?
    ensures Replay(c, events).value.preflightComplete
            <==> exists k :: 0 <= k < |events| && PassesPreflight(c, events[k])
  {
    hide ValidEnvelope, ValidOptions, MayLaunch, Apply, Enabled, PassesPreflight;
    if events != [] {
      var front, last := events[..|events| - 1], events[|events| - 1];
      PreflightExactly(c, front);
      PreflightStep(c, Replay(c, front).value, last);
      assert forall k :: 0 <= k < |front| ==> events[k] == front[k];
    }
  }

  /** Over every run: the search has a result exactly when some finished attempt brought a candidate that
      verifies, which then was the last event, and no earlier one did. */
  lemma {:induction false} NoProofIsMissed(c: Config, events: seq<Event>)
    requires ValidConfig(c) && Replay(c, events).Some?
    ensures forall k :: 0 <= k < |events| && events[k].Finished? ==>
              VerifiedCandidate(c, events[k].outcome)
              == if k == |events| - 1 then Replay(c, events).value.result else None
    ensures Replay(c, events).value.result.Some? ==> events != [] && events[|events| - 1].Finished?
  {
    hide ValidEnvelope, ValidOptions, MayLaunch, VerifiedCandidate, Process, Better, Interval;
    if events != [] {
      var front, last := events[..|events| - 1], events[|events| - 1];
      NoProofIsMissed(c, front);
      var st := Replay(c, front).value;
      if front != [] && front[|front| - 1].Finished? {
        assert VerifiedCandidate(c, front[|front| - 1].outcome) == st.result == None;
      }
      if last.Finished? {
        FinishResult(c, st, last.attempt, last.outcome);
      }
      assert forall k :: 0 <= k < |front| ==> events[k] == front[k];
    }
  }

  // ---------- what the invariants mean ----------

  lemma {:induction false} SpacedFurther(c: Config, st: State, i: nat, j: nat)
    requires ValidConfig(c) && RateLimited(c) && Spaced(c, st) && i <= j < |st.launches|
    ensures st.launches[j].time - st.launches[i].time >= (j - i) as real * Interval(c)
    decreases j - i
  {
    hide ValidEnvelope, Interval;
    if i < j {
      SpacedFurther(c, st, i, j - 1);
      assert st.launches[j - 1].time + Interval(c) <= st.launches[j].time;
      assert (j - i) as real * Interval(c) == (j - 1 - i) as real * Interval(c) + Interval(c);
    }
  }

  /** The starts in a closed window of time. */
  function InWindow(st: State, from: real, width: real): set<nat> {
    set k: nat | k < |st.launches| && from <= st.launches[k].time <= from + width
  }

  lemma {:induction false} RangeSize(s: set<nat>, low: nat, high: nat)
    requires forall k :: k in s ==> low <= k <= high
    requires low <= high
    ensures |s| <= high - low + 1
    decreases high - low
  {
    if low == high {
      assert s <= {low};
      SubsetSize(s, {low});
    } else {
      RangeSize(s - {high}, low, high - 1);
      if high in s {
        assert |s - {high}| == |s| - 1;
      } else {
        assert s - {high} == s;
      }
    }
  }

  lemma SubsetSize(a: set<nat>, b: set<nat>)
    requires a <= b
    ensures |a| <= |b|
  {
    assert b == a + (b - a);
  }

  lemma ExtremeMembers(s: set<nat>) returns (low: nat, high: nat)
    requires s != {}
    ensures low in s && high in s && forall k :: k in s ==> low <= k <= high
  {
    var x :| x in s;
    if s == {x} {
      low, high := x, x;
    } else {
      var rest := s - {x};
      assert rest != {};
      var l, h := ExtremeMembers(rest);
      low := if x < l then x else l;
      high := if x > h then x else h;
      assert forall k :: k in s ==> k == x || k in rest;
    }
  }

  /** How many further starts `width` seconds have room for. */
  function Allowance(width: real, rate: int): int {
    (width * rate as real).Floor
  }

  lemma StartsBetween(c: Config, st: State, i: nat, j: nat, width: real)
    requires ValidConfig(c) && RateLimited(c) && Spaced(c, st) && i <= j < |st.launches|
    requires st.launches[j].time - st.launches[i].time <= width
    ensures j - i <= Allowance(width, c.options.connectionsPerSecond)
  {
    SpacedFurther(c, st, i, j);
    IntervalTimesRate(c);
    hide ValidConfig, Spaced, Interval;
    Rearrange(j - i, Interval(c), c.options.connectionsPerSecond as real, width);
  }

  /** No bursts: every closed window of `width` seconds holds at most floor(width * rate) + 1 starts. */
  lemma NoBursts(c: Config, st: State, from: real, width: real)
    requires ValidConfig(c) && RateLimited(c) && Good(c, st) && width >= 0.0
    ensures |InWindow(st, from, width)| <= Allowance(width, c.options.connectionsPerSecond) + 1
  {
    hide ValidEnvelope, Accounted, BestSoFar, ResultVerified, InTime, Spaced, Allowance;
    var s := InWindow(st, from, width);
    if s == {} {
      IntervalTimesRate(c);
      AllowanceNonnegative(width, c.options.connectionsPerSecond);
    } else {
      var low, high := ExtremeMembers(s);
      RangeSize(s, low, high);
      StartsBetween(c, st, low, high, width);
    }
  }

  lemma AllowanceNonnegative(width: real, rate: int)
    requires width >= 0.0 && rate >= 1
    ensures Allowance(width, rate) >= 0
  {
    assert width * rate as real >= 0.0;
  }

  lemma IntervalTimesRate(c: Config)
    requires ValidConfig(c) && RateLimited(c)
    ensures c.options.connectionsPerSecond >= 1
    ensures Interval(c) * c.options.connectionsPerSecond as real == 1.0
  {
    hide ValidEnvelope;
  }

  lemma Rearrange(n: nat, interval: real, rate: real, width: real)
    requires rate > 0.0 && interval * rate == 1.0 && n as real * interval <= width
    ensures n <= (width * rate).Floor
  {
    var x, count := n as real * interval, n as real;
    assert x * rate == count * (interval * rate);
    ScaleUp(x, width, rate);
  }

  lemma ScaleUp(x: real, y: real, rate: real)
    requires x <= y && rate > 0.0
    ensures x * rate <= y * rate
  {
  }

  /** How often an endpoint was used in the first `n` starts when endpoints are taken in turn. */
  function Uses(launches: seq<Launch>, endpoint: nat): nat {
    if launches == [] then 0
    else Uses(launches[..|launches| - 1], endpoint) + if launches[|launches| - 1].endpoint == endpoint then 1 else 0
  }

  lemma {:induction false} UsesInTurn(launches: seq<Launch>, endpoint: nat, n: nat)
    requires n > 0 && endpoint < n && forall k :: 0 <= k < |launches| ==> launches[k].endpoint == k % n
    ensures Uses(launches, endpoint) == Share(|launches|, n, endpoint)
  {
    if launches == [] {
      QuotientIs(0, n, 0, 0);
    } else {
      var last: nat := |launches| - 1;
      var front := launches[..last];
      UsesInTurn(front, endpoint, n);
      NextTurn(last, n, endpoint);
      hide Share;
      assert launches[last].endpoint == last % n;
      assert Uses(launches, endpoint) == Share(|launches|, n, endpoint);
    }
  }

  /** The share of an endpoint in the first `k` starts. */
  function Share(k: nat, n: nat, endpoint: nat): nat
    requires n > 0
  {
    k / n + if endpoint < k % n then 1 else 0
  }

  lemma NextTurn(k: nat, n: nat, endpoint: nat)
    requires n > 0 && endpoint < n
    ensures Share(k + 1, n, endpoint) == Share(k, n, endpoint) + if k % n == endpoint then 1 else 0
  {
    NextQuotient(k, n);
  }

  lemma NextQuotient(k: nat, n: nat)
    requires n > 0
    ensures k % n == n - 1 ==> (k + 1) / n == k / n + 1 && (k + 1) % n == 0
    ensures k % n != n - 1 ==> (k + 1) / n == k / n && (k + 1) % n == k % n + 1
  {
    var q, r := k / n, k % n;
    assert k == q * n + r;
    if r == n - 1 {
      assert k + 1 == (q + 1) * n;
      QuotientIs(k + 1, n, q + 1, 0);
    } else {
      QuotientIs(k + 1, n, q, r + 1);
    }
  }

  lemma QuotientIs(k: nat, n: nat, q: nat, r: nat)
    requires n > 0 && r < n && k == q * n + r
    ensures k / n == q && k % n == r
  {
    var d := k / n - q;
    assert k == (k / n) * n + k % n;
    assert d * n == r - k % n;
    MultipleBeyond(d, n);
  }

  lemma MultipleBeyond(d: int, n: nat)
    ensures d >= 1 ==> d * n >= n
    ensures d <= -1 ==> d * n + n <= 0
  {
  }

  /** Endpoints are shared evenly: their numbers of starts never differ by more than one. */
  lemma EndpointsEven(c: Config, st: State, a: nat, b: nat)
    requires ValidConfig(c) && Good(c, st) && a < c.endpoints && b < c.endpoints
    ensures Uses(st.launches, a) <= Uses(st.launches, b) + 1
  {
    hide ValidEnvelope, Spaced, BestSoFar, ResultVerified, InTime;
    UsesInTurn(st.launches, a, c.endpoints);
    UsesInTurn(st.launches, b, c.endpoints);
  }

  /** The search gives up for lack of attempts only when exactly the allowed number has completed. */
  lemma GivingUpMeansAllCompleted(c: Config, st: State)
    requires ValidConfig(c) && Good(c, st) && Exhausted(c, st) && st.pending == {}
    ensures st.completed == c.options.maxAttempts == st.started == |st.launches|
  {
    hide ValidEnvelope, Spaced, BestSoFar, ResultVerified, InTime;
  }

  // ---------- what a real capture brings ----------

  /** A capture that completed for this claim always parses here: its work hash always counts. */
  lemma CapturesAlwaysParse(c: Config, preflightComplete: bool, p: Capture.Primitives, a: Capture.Attempt,
                            stream: bytes, m: Capture.ProofMessages, peerIp: string)
    requires ValidConfig(c) && Capture.Captures(p, a, stream) == Reassembly.Ok(m)
    requires a.domain == c.context.domain && a.challenge == Challenge(c.sha256, c.context)
    ensures Process(c, preflightComplete, Captured(Capture.EncodedProof(m), peerIp)).hash.Some?
  {
    hide IsCanonicalDomain, VerifyConnectionProof, MeetsWorkTarget, Challenge, Capture.FlightOf, Capture.EncodedProof,
         SchemeAllowed, ProofFormat.SplitProof, ProofFormat.DecodeFrames;
    var candidate := c.context.(proof := Capture.EncodedProof(m));
    ProofFits(Capture.EncodedProof(m), a.domain, a.challenge);
    if WithProof(c.context, Capture.EncodedProof(m)).Some? {
      SameClaim(c.sha256, c.context, candidate);
      EveryParsedHashCounts(c, preflightComplete, Captured(Capture.EncodedProof(m), peerIp));
    }
  }

  /** A capture for this claim and mask makes a candidate that verification refuses only for its work, the roots,
      or what the library says of times, usage, path and signature, if the library still loads what it loaded. */
  lemma CapturesNeverMalformed(c: Config, p: Capture.Primitives, a: Capture.Attempt, stream: bytes,
                               m: Capture.ProofMessages, candidate: Envelope)
    requires ValidConfig(c) && Capture.Captures(p, a, stream) == Reassembly.Ok(m)
    requires a.domain == c.context.domain && a.challenge == Challenge(c.sha256, c.context) && a.mask == c.context.mask
    requires forall chain :: p.loads(chain) ==> c.authority.loads(chain)
    requires candidate == c.context.(proof := Capture.EncodedProof(m))
    ensures WithProof(c.context, Capture.EncodedProof(m)) == Some(candidate)
    ensures var v := VerifyConnectionProof(c.sha256, c.authority, candidate, c.options.enforceRootPin);
            v.Rejected? ==> v.stage !in {Malformed, SchemeNotAllowed, BadCertificates}
  {
    hide IsCanonicalDomain, MeetsWorkTarget, Challenge, Capture.Captures, Capture.EncodedProof, SchemeAllowed,
         ProofFormat.DecodeProof, ConnectionWorkHash, Parsed, ProofFormat.SplitProof;
    var proof := Capture.CapturedProofParses(p, a, stream, m);
    ProofFits(Capture.EncodedProof(m), a.domain, a.challenge);
    SameClaim(c.sha256, c.context, candidate);
    ParsedParts(c.sha256, candidate, proof);
  }

  lemma ParsedParts(sha256: Sha256, e: Envelope, proof: Proof)
    requires ValidEnvelope(e)
    requires ProofFormat.DecodeProof(e.proof, e.domain, Challenge(sha256, e)) == Some(proof)
    ensures ParsedEnvelope(sha256, e).Some?
    ensures var parsed := ParsedEnvelope(sha256, e).value;
            parsed.certificateVerifyScheme == proof.verify.scheme && parsed.certificateChain == Chain(proof.certificate)
  {
    hide IsCanonicalDomain, Challenge, ConnectionWorkHash, ProofFormat.SplitProof, ProofFormat.DecodeFrames;
  }

  lemma SameClaim(sha256: Sha256, e: Envelope, f: Envelope)
    requires ValidEnvelope(e) && ValidEnvelope(f) && f == e.(proof := f.proof)
    ensures Challenge(sha256, f) == Challenge(sha256, e)
  {
  }

  lemma ProofFits(encoded: bytes, domain: string, challenge: bytes)
    requires ProofFormat.DecodeProof(encoded, domain, challenge).Some?
    ensures |encoded| <= MAX_PROOF_SIZE
  {
    hide IsCanonicalDomain, ProofFormat.DecodeFrames;
  }
}
