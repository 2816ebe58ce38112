/** src/oidc.rs: the poll loop of the device authorization grant (sections 3.2 and 3.5 of RFC 8628). */
module DeviceFlow {
  import opened Prelude

  const MIN_POLL_INTERVAL_SECS := 5
  const SLOW_DOWN_SECS := 5

  type Seconds = r: real | r >= 0.0

  datatype OidcError = ExpiredToken | TokenError(code: string)

  /** One answer of the token endpoint; `Refused` is every other failure of the poll. */
  datatype PollReply = Token(token: string) | AuthorizationPending | SlowDown | Refused(error: OidcError) {
    predicate Final() {
      Token? || Refused?
    }
  }

  /**
   * Everything outside the loop, by poll number: how much longer than asked each sleep takes, how long
   * each poll takes, and what it answers.
   */
  datatype Environment = Environment(overshoot: nat -> Seconds, latency: nat -> Seconds, replies: nat -> PollReply)

  function Clamped(interval: nat): nat {
    if interval < MIN_POLL_INTERVAL_SECS then MIN_POLL_INTERVAL_SECS else interval
  }

  function SlowDowns(env: Environment, k: nat): nat {
    if k == 0 then 0 else SlowDowns(env, k - 1) + if env.replies(k - 1).SlowDown? then 1 else 0
  }

  /** The interval slept before poll `k`. */
  function IntervalAt(interval: nat, env: Environment, k: nat): nat {
    Clamped(interval) + SLOW_DOWN_SECS * SlowDowns(env, k)
  }

  /** When the sleep before poll `k` begins, in seconds after the deadline was computed. */
  function SleepAt(interval: nat, env: Environment, k: nat): Seconds {
    if k == 0 then 0.0
    else
      SleepAt(interval, env, k - 1) + IntervalAt(interval, env, k - 1) as real
      + env.overshoot(k - 1) + env.latency(k - 1)
  }

  /** When poll `k` would be sent: after sleeping the current interval. */
  function PollAt(interval: nat, env: Environment, k: nat): Seconds {
    SleepAt(interval, env, k) + IntervalAt(interval, env, k) as real + env.overshoot(k)
  }

  /** Poll `k` is sent before the deadline and brings the token, after nothing but waiting answers. */
  ghost predicate TokenInTime(interval: nat, expiresIn: nat, env: Environment, k: nat) {
    && PollAt(interval, env, k) < expiresIn as real && env.replies(k).Token?
    && forall j: nat :: j < k ==> !env.replies(j).Final()
  }

  /** The flow sent exactly the polls 0 to n - 1 and then had this outcome. */
  ghost predicate Outcome(interval: nat, expiresIn: nat, env: Environment, n: nat, result: Result<string, OidcError>) {
    && (forall k: nat :: k < n ==> PollAt(interval, env, k) < expiresIn as real)
    && (forall k: nat :: k + 1 < n ==> !env.replies(k).Final())
    && if n > 0 && env.replies(n - 1).Final()
       then result == match env.replies(n - 1)
                      case Token(token) => Ok(token)
                      case Refused(error) => Err(error)
                      case _ => Err(ExpiredToken)
       else result == Err(ExpiredToken) && PollAt(interval, env, n) >= expiresIn as real
  }

  // ---- The polls that a run of the loop sent ----

  datatype Poll = Poll(at: Seconds, reply: PollReply)

  function SlowDownsIn(trace: seq<Poll>): nat {
    if trace == [] then 0
    else SlowDownsIn(trace[..|trace| - 1]) + if trace[|trace| - 1].reply.SlowDown? then 1 else 0
  }

  /** The earliest time for poll `k`: the interval asked for so far after the poll before it. */
  function Earliest(interval: nat, trace: seq<Poll>, k: nat): Seconds
    requires k <= |trace|
  {
    (if k == 0 then 0.0 else trace[k - 1].at) + (Clamped(interval) + SLOW_DOWN_SECS * SlowDownsIn(trace[..k])) as real
  }

  /** Section 3.5: no poll too early, none after the deadline, and none after a final answer. */
  ghost predicate Obedient(interval: nat, expiresIn: nat, trace: seq<Poll>) {
    forall k: nat :: k < |trace| ==> ObedientAt(interval, expiresIn, trace, k)
  }

  predicate ObedientAt(interval: nat, expiresIn: nat, trace: seq<Poll>, k: nat)
    requires k < |trace|
  {
    && Earliest(interval, trace, k) <= trace[k].at < expiresIn as real
    && (k + 1 < |trace| ==> !trace[k].reply.Final())
  }

  ghost function SlowDownsBefore(trace: seq<Poll>, k: nat): set<nat>
    requires k <= |trace|
  {
    set j: nat | j < k && trace[j].reply.SlowDown?
  }

  /** How long after the one before, or after the start, poll `k` was sent. */
  function Gap(trace: seq<Poll>, k: nat): real
    requires k < |trace|
  {
    trace[k].at - if k == 0 then 0.0 else trace[k - 1].at
  }

  /** In seconds: at least the interval of the server, at least five, and five more for every slow_down so far. */
  ghost predicate SpacedAt(interval: nat, trace: seq<Poll>, k: nat)
    requires k < |trace|
  {
    && Gap(trace, k) >= (interval + 5 * |SlowDownsBefore(trace, k)|) as real
    && Gap(trace, k) >= (5 + 5 * |SlowDownsBefore(trace, k)|) as real
  }

  /** The last answer decides, if it is a final one. */
  function Verdict(trace: seq<Poll>): Result<string, OidcError> {
    if trace == [] then Err(ExpiredToken)
    else match trace[|trace| - 1].reply
      case Token(token) => Ok(token)
      case Refused(error) => Err(error)
      case _ => Err(ExpiredToken)
  }

  /** The trace is that of the first polls in this environment. */
  ghost predicate Sent(interval: nat, env: Environment, trace: seq<Poll>) {
    forall k: nat :: k < |trace| ==> SentAt(interval, env, trace, k)
  }

  predicate SentAt(interval: nat, env: Environment, trace: seq<Poll>, k: nat)
    requires k < |trace|
  {
    trace[k] == Poll(PollAt(interval, env, k), env.replies(k))
  }

  /** These are all the polls of a flow that ended so: as section 3.5 asks, and as this environment answers. */
  ghost predicate Ended(interval: nat, expiresIn: nat, env: Environment, trace: seq<Poll>,
                        result: Result<string, OidcError>)
  {
    && Obedient(interval, expiresIn, trace) && result == Verdict(trace)
    && Sent(interval, env, trace) && Outcome(interval, expiresIn, env, |trace|, result)
    && forall k: nat :: k < |trace| ==> SpacedAt(interval, trace, k)
  }

  /** The poll loop, from the answer of the device authorization endpoint on; `trace` records the polls it sends. */
  method AuthenticateDeviceFlow(interval: nat, expiresIn: nat, env: Environment)
    returns (result: Result<string, OidcError>, ghost trace: seq<Poll>)
    ensures exists polls: nat :: Outcome(interval, expiresIn, env, polls, result)
    ensures Ended(interval, expiresIn, env, trace, result)
    ensures forall k: nat :: k < |trace| ==> SpacedAt(interval, trace, k)
  {
    var intervalSecs := if interval < MIN_POLL_INTERVAL_SECS then MIN_POLL_INTERVAL_SECS else interval;
    var deadline := expiresIn as real;
    var now: Seconds := 0.0;
    var n := 0;
    trace := [];
    while true
      invariant n == |trace| <= expiresIn && Waiting(interval, expiresIn, env, trace)
      invariant now == SleepAt(interval, env, n) && intervalSecs == IntervalAt(interval, env, n)
      decreases expiresIn - n
    {
      NextPoll(interval, env, n);
      now := now + intervalSecs as real + env.overshoot(n);
      if now >= deadline {
        OutOfTime(interval, expiresIn, env, trace);
        return Err(ExpiredToken), trace;
      }
      NotTooMany(interval, env, n, expiresIn);
      var reply := env.replies(n);
      trace := WaitingMore(interval, expiresIn, env, trace, now, reply);
      now := now + env.latency(n);
      n := n + 1;
      match reply
      case Token(token) => return Ok(token), trace;
      case AuthorizationPending =>
      case SlowDown => intervalSecs := intervalSecs + SLOW_DOWN_SECS;
      case Refused(error) => return Err(error), trace;
    }
  }

  /** The polls so far were sent in time and all told the client to wait. */
  ghost predicate Waiting(interval: nat, expiresIn: nat, env: Environment, trace: seq<Poll>) {
    && Sent(interval, env, trace) && Waited(interval, expiresIn, env, |trace|)
    && Obedient(interval, expiresIn, trace) && Verdict(trace) == Err(ExpiredToken)
  }

  lemma OutOfTime(interval: nat, expiresIn: nat, env: Environment, trace: seq<Poll>)
    requires Waiting(interval, expiresIn, env, trace) && PollAt(interval, env, |trace|) >= expiresIn as real
    ensures Ended(interval, expiresIn, env, trace, Err(ExpiredToken))
  {
    WaitedMore(interval, expiresIn, env, |trace|);
    ObedientIsSpaced(interval, expiresIn, trace);
  }

  lemma ObedientIsSpaced(interval: nat, expiresIn: nat, trace: seq<Poll>)
    requires Obedient(interval, expiresIn, trace)
    ensures forall k: nat :: k < |trace| ==> SpacedAt(interval, trace, k)
  {
    forall k: nat | k < |trace| ensures SpacedAt(interval, trace, k) {
      assert ObedientAt(interval, expiresIn, trace, k);
      SlowDownsCounted(trace, k);
    }
  }

  lemma {:induction false} SlowDownsCounted(trace: seq<Poll>, k: nat)
    requires k <= |trace|
    ensures SlowDownsIn(trace[..k]) == |SlowDownsBefore(trace, k)|
  {
    if k == 0 {
      assert SlowDownsBefore(trace, k) == {};
    } else {
      var j := k - 1;
      SlowDownsCounted(trace, j);
      assert trace[..k][..j] == trace[..j];
      assert SlowDownsBefore(trace, k) == SlowDownsBefore(trace, j) + if trace[j].reply.SlowDown? then {j} else {};
    }
  }

  /** One more poll: the flow goes on waiting, or this answer is the outcome. */
  lemma WaitingMore(interval: nat, expiresIn: nat, env: Environment, trace: seq<Poll>, now: Seconds, reply: PollReply)
    returns (longer: seq<Poll>)
    requires Waiting(interval, expiresIn, env, trace) && now < expiresIn as real
    requires now == PollAt(interval, env, |trace|) && reply == env.replies(|trace|)
    ensures |longer| == |trace| + 1 && longer == trace + [Poll(now, reply)]
    ensures match reply
            case Token(token) => Ended(interval, expiresIn, env, longer, Ok(token))
            case Refused(error) => Ended(interval, expiresIn, env, longer, Err(error))
            case _ => Waiting(interval, expiresIn, env, longer)
  {
    var poll := Poll(now, reply);
    longer := trace + [poll];
    WaitedMore(interval, expiresIn, env, |trace|);
    SentMore(interval, env, trace, poll);
    PollSpacing(interval, env, trace + [poll], |trace|);
    forall k: nat | k < |trace| ensures ObedientAt(interval, expiresIn, trace + [poll], k) {
      ObedientStill(interval, expiresIn, env, trace, poll, k);
    }
    assert ObedientAt(interval, expiresIn, trace + [poll], |trace|);
    ObedientIsSpaced(interval, expiresIn, trace + [poll]);
  }

  lemma SentMore(interval: nat, env: Environment, trace: seq<Poll>, poll: Poll)
    requires Sent(interval, env, trace)
    requires poll == Poll(PollAt(interval, env, |trace|), env.replies(|trace|))
    ensures Sent(interval, env, trace + [poll])
  {
    forall k: nat | k < |trace + [poll]| ensures SentAt(interval, env, trace + [poll], k) {
      assert k < |trace| ==> SentAt(interval, env, trace, k);
    }
  }

  lemma ObedientStill(interval: nat, expiresIn: nat, env: Environment, trace: seq<Poll>, poll: Poll, k: nat)
    requires k < |trace| && Waited(interval, expiresIn, env, |trace|)
    requires SentAt(interval, env, trace, k) && ObedientAt(interval, expiresIn, trace, k)
    ensures ObedientAt(interval, expiresIn, trace + [poll], k)
  {
    assert (trace + [poll])[..k] == trace[..k];
  }

  ghost predicate Waited(interval: nat, expiresIn: nat, env: Environment, n: nat) {
    && (forall k: nat :: k < n ==> PollAt(interval, env, k) < expiresIn as real)
    && (forall k: nat :: k < n ==> !env.replies(k).Final())
  }

  /** After waiting for `n` polls: the deadline ends the flow, or poll `n` ends it, or it waits on. */
  lemma WaitedMore(interval: nat, expiresIn: nat, env: Environment, n: nat)
    requires Waited(interval, expiresIn, env, n)
    ensures PollAt(interval, env, n) >= expiresIn as real ==> Outcome(interval, expiresIn, env, n, Err(ExpiredToken))
    ensures PollAt(interval, env, n) < expiresIn as real ==>
              match env.replies(n)
              case Token(token) => Outcome(interval, expiresIn, env, n + 1, Ok(token))
              case Refused(error) => Outcome(interval, expiresIn, env, n + 1, Err(error))
              case _ => Waited(interval, expiresIn, env, n + 1)
  {
  }

  lemma NextPoll(interval: nat, env: Environment, n: nat)
    ensures SleepAt(interval, env, n + 1) == PollAt(interval, env, n) + env.latency(n)
    ensures PollAt(interval, env, n)
         == SleepAt(interval, env, n) + IntervalAt(interval, env, n) as real + env.overshoot(n)
    ensures IntervalAt(interval, env, n + 1)
         == IntervalAt(interval, env, n) + if env.replies(n).SlowDown? then SLOW_DOWN_SECS else 0
  {
  }

  lemma NotTooMany(interval: nat, env: Environment, n: nat, expiresIn: nat)
    requires PollAt(interval, env, n) < expiresIn as real
    ensures n < expiresIn
  {
    SleepsAddUp(interval, env, n);
    SleptAtLeast(interval, env, n + 1);
  }

  lemma PollsAdvance(interval: nat, env: Environment, k: nat)
    ensures PollAt(interval, env, k) < PollAt(interval, env, k + 1)
    ensures IntervalAt(interval, env, k) as real <= PollAt(interval, env, k)
  {
  }

  lemma {:induction false} LaterPolls(interval: nat, env: Environment, j: nat, k: nat)
    requires j <= k
    ensures PollAt(interval, env, j) <= PollAt(interval, env, k)
  {
    if j < k {
      LaterPolls(interval, env, j, k - 1);
      PollsAdvance(interval, env, k - 1);
    }
  }

  /** The outcome is determined: no two different numbers of polls fit one environment. */
  lemma OutcomeIsUnique(interval: nat, expiresIn: nat, env: Environment, m: nat, n: nat,
                        a: Result<string, OidcError>, b: Result<string, OidcError>)
    requires Outcome(interval, expiresIn, env, m, a) && Outcome(interval, expiresIn, env, n, b)
    ensures m == n && a == b
  {
  }

  /** The flow succeeds exactly when some poll before the deadline brings the token and none before it was refused. */
  lemma SucceedsIff(interval: nat, expiresIn: nat, env: Environment, n: nat, result: Result<string, OidcError>)
    requires Outcome(interval, expiresIn, env, n, result)
    ensures result.Ok? <==> exists k: nat :: TokenInTime(interval, expiresIn, env, k)
  {
    if result.Ok? {
      assert TokenInTime(interval, expiresIn, env, n - 1);
    }
    if k: nat :| TokenInTime(interval, expiresIn, env, k) {
      if k >= n && !(n > 0 && env.replies(n - 1).Final()) {
        LaterPolls(interval, env, n, k);
      }
    }
  }

  /** Section 3.5: a poll is the clamped interval plus five seconds for every slow_down so far after the one before. */
  lemma PollSpacing(interval: nat, env: Environment, trace: seq<Poll>, k: nat)
    requires Sent(interval, env, trace) && k < |trace|
    ensures Earliest(interval, trace, k) <= trace[k].at && SpacedAt(interval, trace, k)
  {
    SlowDownsSent(interval, env, trace, k);
    SlowDownsCounted(trace, k);
    assert SentAt(interval, env, trace, k);
    if k > 0 {
      assert SentAt(interval, env, trace, k - 1);
      NextPoll(interval, env, k - 1);
    }
  }

  /** Sleeps take as long as asked, and polls no time. */
  ghost predicate Punctual(env: Environment) {
    (forall k: nat :: env.overshoot(k) == 0.0) && (forall k: nat :: env.latency(k) == 0.0)
  }

  /** Then the polls come exactly when due, no later than section 3.5 asks. */
  lemma PollTimesExact(interval: nat, env: Environment, trace: seq<Poll>, k: nat)
    requires Sent(interval, env, trace) && Punctual(env) && k < |trace|
    ensures Gap(trace, k) == ((if interval > 5 then interval else 5) + 5 * |SlowDownsBefore(trace, k)|) as real
  {
    SlowDownsSent(interval, env, trace, k);
    SlowDownsCounted(trace, k);
    assert SentAt(interval, env, trace, k);
    NextPoll(interval, env, k);
    if k > 0 {
      assert SentAt(interval, env, trace, k - 1);
      NextPoll(interval, env, k - 1);
    }
  }

  /** A final answer is the last poll and passed on as it came; any other flow ends expired. */
  lemma LastAnswerDecides(interval: nat, expiresIn: nat, env: Environment, trace: seq<Poll>,
                          result: Result<string, OidcError>)
    requires Ended(interval, expiresIn, env, trace, result)
    ensures forall k: nat :: k < |trace| && trace[k].reply.Token? ==>
              k == |trace| - 1 && result == Ok(trace[k].reply.token)
    ensures forall k: nat :: k < |trace| && trace[k].reply.Refused? ==>
              k == |trace| - 1 && result == Err(trace[k].reply.error)
    ensures (forall k: nat :: k < |trace| ==> trace[k].reply.AuthorizationPending? || trace[k].reply.SlowDown?) ==>
              result == Err(ExpiredToken)
  {
    forall k: nat | k < |trace| ensures k + 1 < |trace| ==> !trace[k].reply.Final() {
      assert ObedientAt(interval, expiresIn, trace, k);
    }
  }

  /** And the flow is given up only when the next poll would come after the deadline. */
  lemma GivenUpAtDeadline(interval: nat, expiresIn: nat, env: Environment, trace: seq<Poll>,
                          result: Result<string, OidcError>)
    requires Ended(interval, expiresIn, env, trace, result) && Punctual(env)
    requires trace != [] ==> !trace[|trace| - 1].reply.Final()
    ensures (if trace == [] then 0.0 else trace[|trace| - 1].at)
            + ((if interval > 5 then interval else 5) + 5 * |SlowDownsBefore(trace, |trace|)|) as real
         >= expiresIn as real
  {
    var n := |trace|;
    SlowDownsSent(interval, env, trace, n);
    SlowDownsCounted(trace, n);
    NextPoll(interval, env, n);
    if n > 0 {
      assert SentAt(interval, env, trace, n - 1);
      NextPoll(interval, env, n - 1);
    }
  }

  lemma {:induction false} SlowDownsSent(interval: nat, env: Environment, trace: seq<Poll>, k: nat)
    requires Sent(interval, env, trace) && k <= |trace|
    ensures SlowDownsIn(trace[..k]) == SlowDowns(env, k)
  {
    if k > 0 {
      SlowDownsSent(interval, env, trace, k - 1);
      assert trace[..k][..k - 1] == trace[..k - 1];
      assert SentAt(interval, env, trace, k - 1);
    }
  }

  /** The seconds slept before poll `n`, at the least: every interval up to it. */
  function Slept(interval: nat, env: Environment, n: nat): nat {
    if n == 0 then 0 else Slept(interval, env, n - 1) + IntervalAt(interval, env, n - 1)
  }

  lemma {:induction false} SleepsAddUp(interval: nat, env: Environment, k: nat)
    ensures PollAt(interval, env, k) >= Slept(interval, env, k + 1) as real
  {
    if k > 0 {
      SleepsAddUp(interval, env, k - 1);
    }
  }

  lemma {:induction false} SleptAtLeast(interval: nat, env: Environment, n: nat)
    ensures Slept(interval, env, n) >= MIN_POLL_INTERVAL_SECS * n
    ensures (forall k: nat :: k + 1 < n ==> env.replies(k).SlowDown?) ==>
              2 * Slept(interval, env, n) >= 5 * n * (n + 1)
  {
    if n > 0 {
      SleptAtLeast(interval, env, n - 1);
      if forall k: nat :: k + 1 < n ==> env.replies(k).SlowDown? {
        SlowDownsCount(env, n - 1);
        assert 5 * n * (n + 1) == 5 * (n - 1) * n + 10 * n;
      }
    }
  }

  lemma {:induction false} SlowDownsCount(env: Environment, n: nat)
    requires forall k: nat :: k < n ==> env.replies(k).SlowDown?
    ensures SlowDowns(env, n) == n
  {
    if n > 0 {
      SlowDownsCount(env, n - 1);
    }
  }

  /**
   * Bounds on every finished flow: n polls need more than 5n seconds of lifetime, and more than
   * 5n(n+1)/2 when every one before the last was told to slow down.
   */
  lemma PollCountBounds(interval: nat, expiresIn: nat, env: Environment, n: nat, result: Result<string, OidcError>)
    requires Outcome(interval, expiresIn, env, n, result) && n > 0
    ensures 5 * n < expiresIn
    ensures (forall k: nat :: k + 1 < n ==> env.replies(k).SlowDown?) ==> 5 * n * (n + 1) < 2 * expiresIn
  {
    SleepsAddUp(interval, env, n - 1);
    SleptAtLeast(interval, env, n);
  }

  /** The interval never outgrows the lifetime by more than one slow_down, so 64 bits hold it. */
  lemma IntervalStaysSmall(interval: nat, expiresIn: nat, env: Environment, n: nat, result: Result<string, OidcError>)
    requires Outcome(interval, expiresIn, env, n, result) && n > 0
    ensures IntervalAt(interval, env, n) < expiresIn + 5
  {
    PollsAdvance(interval, env, n - 1);
    assert PollAt(interval, env, n - 1) < expiresIn as real;
  }
}
