/**
 The reconnecting client on its loop thread: a connector that attempts, and retries with capped
 exponential backoff, and a client that holds the one live connection.  The outcomes of connection
 attempts, the expiry of retry timers and the closing of connections are steps of the environment.
 */
module Reconnects {
  import opened Wrappers

  const INIT_RETRY_DELAY_MS := 1000
  const MAX_RETRY_DELAY_MS := 30 * 1000

  datatype Phase = Disconnected | Connecting | Connected

  datatype State = State(
    // the connector
    wanted: bool,
    phase: Phase,
    retryDelayMs: int,
    // the client
    connect: bool,
    retry: bool,
    connection: Option<nat>,
    // the environment
    attempts: nat,         // asynchronous connects in flight
    timers: seq<int>,      // pending retry timers, by delay
    live: set<nat>,        // open connections
    made: nat,             // connections made so far
    waits: seq<int>)       // the waits of all retries since the last restart, or the beginning

  /** How the completion of an attempt goes on. */
  datatype Outcome =
    | Refused         // an error that is worth a retry
    | Broken          // any other error
    | NoOption        // connected, but the socket does not tell its state
    | SocketError     // connected, and the socket tells of an error
    | Established

  // ------------------------------------------------------------------ operations

  function Start(s: State): State {
    if s.wanted then s.(attempts := s.attempts + 1) else s
  }

  function Min(x: int, y: int): int { if x < y then x else y }

  function Retry(s: State): State {
    var t := s.(phase := Disconnected);
    if s.wanted then
      t.(timers := s.timers + [s.retryDelayMs], waits := s.waits + [s.retryDelayMs],
        retryDelayMs := Min(s.retryDelayMs * 2, MAX_RETRY_DELAY_MS))
    else t
  }

  function Restart(s: State): State {
    Start(s.(phase := Disconnected, retryDelayMs := INIT_RETRY_DELAY_MS, wanted := true, waits := []))
  }

  function ConnectionMade(s: State): State {
    s.(connection := Some(s.made), live := s.live + {s.made}, made := s.made + 1)
  }

  function AttemptEnds(s: State, outcome: Outcome): State
    requires s.attempts > 0
  {
    var t := s.(attempts := s.attempts - 1);
    match outcome
    case Refused => Retry(t)
    case Broken => t
    case NoOption => t.(phase := Connecting)
    case SocketError => Retry(t.(phase := Connecting))
    case Established => if s.wanted then ConnectionMade(t.(phase := Connected)) else t.(phase := Connected)
  }

  function TimerFires(s: State, i: nat): State
    requires i < |s.timers|
  {
    Start(s.(timers := s.timers[..i] + s.timers[i + 1..]))
  }

  function ConnectionCloses(s: State, c: nat): State {
    var t := s.(live := s.live - {c}, connection := None);
    if s.retry && s.connect then Restart(t) else t
  }

  function ConnectCalled(s: State): State {
    Start(s.(connect := true, wanted := true))
  }

  function StopCalled(s: State): State {
    var t := s.(connect := false, wanted := false);
    if s.phase == Connecting then Retry(t) else t
  }

  datatype Step =
    | CallingConnect
    | Stopping
    | Disconnecting
    | EnablingRetry
    | AttemptEnding(outcome: Outcome)
    | TimerFiring(i: nat)
    | Closing(c: nat)

  /** A further `connect()` is allowed too, as long as the client has come to rest. */
  predicate Enabled(s: State, step: Step) {
    match step
    case CallingConnect => Tokens(s) == 0 && s.phase == Disconnected
    case AttemptEnding(_) => s.attempts > 0
    case TimerFiring(i) => i < |s.timers|
    case Closing(c) => c in s.live
    case _ => true
  }

  /** What the source asserts on the way: a start finds no phase begun, a closing connection is the held one. */
  predicate AssertsHold(s: State, step: Step) {
    match step
    case CallingConnect => s.phase == Disconnected
    case TimerFiring(_) => s.phase == Disconnected
    case Closing(c) => s.connection == Some(c)
    case _ => true
  }

  function Next(s: State, step: Step): State
    requires Enabled(s, step)
  {
    match step
    case CallingConnect => ConnectCalled(s)
    case Stopping => StopCalled(s)
    case Disconnecting => s.(connect := false)
    case EnablingRetry => s.(retry := true)
    case AttemptEnding(outcome) => AttemptEnds(s, outcome)
    case TimerFiring(i) => TimerFires(s, i)
    case Closing(c) => ConnectionCloses(s, c)
  }

  // ------------------------------------------------------------------ a single token

  function Tokens(s: State): nat {
    s.attempts + |s.timers| + |s.live|
  }

  function Pow2(k: nat): nat {
    if k == 0 then 1 else 2 * Pow2(k - 1)
  }

  function Backoff(k: nat): int {
    Min(INIT_RETRY_DELAY_MS * Pow2(k), MAX_RETRY_DELAY_MS)
  }

  predicate BackoffOk(s: State) {
    && s.retryDelayMs == Backoff(|s.waits|)
    && (forall k :: 0 <= k < |s.waits| ==> s.waits[k] == Backoff(k))
    && (s.timers != [] ==> s.waits != [] && s.timers == [s.waits[|s.waits| - 1]])
  }

  predicate Inv(s: State) {
    && Tokens(s) <= 1
    && (s.attempts > 0 || s.timers != [] ==> s.phase == Disconnected)
    && s.live == (if s.connection.Some? then {s.connection.value} else {})
    && (s.connection.Some? ==> s.phase == Connected)
    && BackoffOk(s)
  }

  lemma RetryKeepsInv(s: State)
    requires Inv(s) && Tokens(s) == 0
    ensures Inv(Retry(s))
  {
  }

  lemma AttemptEndsKeepsInv(s: State, outcome: Outcome)
    requires Inv(s) && s.attempts > 0
    ensures Inv(AttemptEnds(s, outcome))
  {
    var t := s.(attempts := s.attempts - 1);
    if outcome.Refused? {
      RetryKeepsInv(t);
    } else if outcome.SocketError? {
      RetryKeepsInv(t.(phase := Connecting));
    }
  }

  lemma ConnectionClosesKeepsInv(s: State, c: nat)
    requires Inv(s) && c in s.live
    ensures s.connection == Some(c) && Inv(ConnectionCloses(s, c))
  {
  }

  lemma NextKeepsInv(s: State, step: Step)
    requires Inv(s) && Enabled(s, step)
    ensures AssertsHold(s, step) && Inv(Next(s, step))
  {
    match step
    case AttemptEnding(outcome) => AttemptEndsKeepsInv(s, outcome);
    case Closing(c) => ConnectionClosesKeepsInv(s, c);
    case Stopping =>
      if s.phase == Connecting {
        RetryKeepsInv(s.(connect := false, wanted := false));
      }
    case _ =>
  }

  /** A call of `connect()` is harmless exactly if no attempt, timer or connection exists and no phase has begun. */
  lemma ConnectExact(s: State)
    requires Inv(s)
    ensures AssertsHold(s, CallingConnect) && Inv(ConnectCalled(s)) <==> Tokens(s) == 0 && s.phase == Disconnected
  {
  }

  /** Calling it twice at once, for one, puts two attempts in flight. */
  lemma SecondConnectDoubles(s: State)
    requires Inv(s) && s.attempts == 1
    ensures ConnectCalled(s).attempts == 2
  {
  }

  // ------------------------------------------------------------------ runs

  predicate Legal(s: State, steps: seq<Step>)
    decreases |steps|
  {
    steps == [] || (Enabled(s, steps[0]) && Legal(Next(s, steps[0]), steps[1..]))
  }

  function Run(s: State, steps: seq<Step>): State
    requires Legal(s, steps)
    decreases |steps|
  {
    if steps == [] then s else Run(Next(s, steps[0]), steps[1..])
  }

  predicate AllAssertsHold(s: State, steps: seq<Step>)
    requires Legal(s, steps)
    decreases |steps|
  {
    steps == [] || (AssertsHold(s, steps[0]) && AllAssertsHold(Next(s, steps[0]), steps[1..]))
  }

  const START := State(false, Disconnected, INIT_RETRY_DELAY_MS, false, false, None, 0, [], {}, 0, [])

  /**
   In every run there is at most one of attempt, retry timer and connection, no assertion of the
   source fails, and the k-th retry since the last restart, or the beginning if there was none, waits
   min(1000 * 2^k, 30000) ms.  Only a restart begins at 1000 ms again; a `connect()` goes on with the
   delay that an earlier attempt has reached.
   */
  lemma SingleToken(steps: seq<Step>)
    requires Legal(START, steps)
    ensures var s := Run(START, steps);
      Tokens(s) <= 1 && AllAssertsHold(START, steps) && (forall k :: 0 <= k < |s.waits| ==> s.waits[k] == Backoff(k))
  {
    RunKeepsInv(START, steps);
  }

  lemma {:induction false} RunKeepsInv(s: State, steps: seq<Step>)
    requires Inv(s) && Legal(s, steps)
    ensures Inv(Run(s, steps)) && AllAssertsHold(s, steps)
    decreases |steps|
  {
    if steps != [] {
      NextKeepsInv(s, steps[0]);
      RunKeepsInv(Next(s, steps[0]), steps[1..]);
    }
  }

  // ------------------------------------------------------------------ the course of the one token, told from the steps

  datatype Token = Resting | Attempting | Delayed(ms: int) | Holding

  /** Where the token is, the flags, and how many retries there have been since the last restart. */
  datatype Course = Course(token: Token, phase: Phase, wanted: bool, connect: bool, retry: bool, retries: nat)

  const BEGINNING := Course(Resting, Disconnected, false, false, false, 0)

  function AttemptOver(c: Course, outcome: Outcome): Course {
    match outcome
    case Refused => Retried(c)
    case SocketError => Retried(c)
    case Broken => c.(token := Resting)
    case NoOption => c.(token := Resting, phase := Connecting)
    case Established => c.(token := if c.wanted then Holding else Resting, phase := Connected)
  }

  function Retried(c: Course): Course {
    if c.wanted then c.(token := Delayed(Backoff(c.retries)), phase := Disconnected, retries := c.retries + 1)
    else c.(token := Resting, phase := Disconnected)
  }

  function CourseAfterStep(c: Course, step: Step): Course {
    match step
    case CallingConnect => c.(token := Attempting, connect := true, wanted := true)
    case Stopping =>
      c.(connect := false, wanted := false, phase := if c.phase == Connecting then Disconnected else c.phase)
    case Disconnecting => c.(connect := false)
    case EnablingRetry => c.(retry := true)
    case AttemptEnding(outcome) => AttemptOver(c, outcome)
    case TimerFiring(_) => c.(token := if c.wanted then Attempting else Resting)
    case Closing(_) =>
      if c.retry && c.connect then c.(token := Attempting, phase := Disconnected, wanted := true, retries := 0)
      else c.(token := Resting)
  }

  function CourseAfter(c: Course, steps: seq<Step>): Course
    decreases |steps|
  {
    if steps == [] then c else CourseAfter(CourseAfterStep(c, steps[0]), steps[1..])
  }

  predicate On(s: State, c: Course) {
    && s.phase == c.phase && s.wanted == c.wanted && s.connect == c.connect && s.retry == c.retry
    && s.retryDelayMs == Backoff(c.retries)
    && s.attempts == (if c.token.Attempting? then 1 else 0)
    && s.timers == (if c.token.Delayed? then [c.token.ms] else [])
    && (if c.token.Holding? then s.connection.Some? && s.live == {s.connection.value} else s.live == {})
  }

  lemma BackoffDoubles(k: nat)
    ensures Backoff(0) == INIT_RETRY_DELAY_MS
    ensures Backoff(k + 1) == Min(Backoff(k) * 2, MAX_RETRY_DELAY_MS)
  {
  }

  lemma AttemptStaysOn(s: State, c: Course, outcome: Outcome)
    requires Inv(s) && On(s, c) && s.attempts > 0
    ensures On(AttemptEnds(s, outcome), AttemptOver(c, outcome))
  {
    BackoffDoubles(c.retries);
    hide Backoff, BackoffOk;
  }

  lemma ClosingStaysOn(s: State, c: Course, connection: nat)
    requires Inv(s) && On(s, c) && connection in s.live
    ensures On(ConnectionCloses(s, connection), CourseAfterStep(c, Closing(connection)))
  {
    BackoffDoubles(0);
    assert s.live - {connection} == {};
    hide Backoff, BackoffOk;
  }

  lemma StepStaysOn(s: State, c: Course, step: Step)
    requires Inv(s) && On(s, c) && Enabled(s, step)
    ensures On(Next(s, step), CourseAfterStep(c, step))
  {
    match step
    case AttemptEnding(outcome) => AttemptStaysOn(s, c, outcome);
    case Closing(connection) => ClosingStaysOn(s, c, connection);
    case _ =>
      hide Backoff, BackoffOk;
  }

  lemma {:induction false} RunStaysOn(s: State, c: Course, steps: seq<Step>)
    requires Inv(s) && On(s, c) && Legal(s, steps)
    ensures On(Run(s, steps), CourseAfter(c, steps))
    decreases |steps|
  {
    if steps != [] {
      NextKeepsInv(s, steps[0]);
      StepStaysOn(s, c, steps[0]);
      RunStaysOn(Next(s, steps[0]), CourseAfterStep(c, steps[0]), steps[1..]);
    }
  }

  /** The steps alone tell where the token is, for how long it is delayed, and in which phase the connector is. */
  lemma CourseExact(steps: seq<Step>)
    requires Legal(START, steps)
    ensures On(Run(START, steps), CourseAfter(BEGINNING, steps))
  {
    RunStaysOn(START, BEGINNING, steps);
  }

  /** A failed attempt at a wanted connection sets exactly one retry timer, by the retries since the last restart. */
  lemma FailureRetried(steps: seq<Step>, outcome: Outcome)
    requires Legal(START, steps) && Run(START, steps).attempts > 0 && Run(START, steps).wanted
    requires outcome == Refused || outcome == SocketError
    ensures var t := Next(Run(START, steps), AttemptEnding(outcome));
      t.timers == [Min(1000 * Pow2(CourseAfter(BEGINNING, steps).retries), 30000)] && Tokens(t) == 1
  {
    CourseExact(steps);
    RunKeepsInv(START, steps);
    StepStaysOn(Run(START, steps), CourseAfter(BEGINNING, steps), AttemptEnding(outcome));
  }

  /** The steps that end the efforts for a connection. */
  predicate GivesUp(s: State, step: Step) {
    || step.Stopping? || step == AttemptEnding(Broken) || step == AttemptEnding(NoOption)
    || (step.Closing? && !(s.retry && s.connect))
  }

  predicate NeverGivesUp(s: State, steps: seq<Step>)
    requires Legal(s, steps)
    decreases |steps|
  {
    steps == [] || (!GivesUp(s, steps[0]) && NeverGivesUp(Next(s, steps[0]), steps[1..]))
  }

  /** Until then there is exactly one of attempt, retry timer and connection: the client keeps at it. */
  lemma {:induction false} KeepsAtIt(s: State, steps: seq<Step>)
    requires Inv(s) && s.wanted && Tokens(s) == 1 && Legal(s, steps) && NeverGivesUp(s, steps)
    ensures Run(s, steps).wanted && Tokens(Run(s, steps)) == 1
    decreases |steps|
  {
    if steps != [] {
      NextKeepsInv(s, steps[0]);
      StepKeepsAtIt(s, steps[0]);
      KeepsAtIt(Next(s, steps[0]), steps[1..]);
    }
  }

  lemma StepKeepsAtIt(s: State, step: Step)
    requires Inv(s) && s.wanted && Tokens(s) == 1 && Enabled(s, step) && !GivesUp(s, step)
    ensures Next(s, step).wanted && Tokens(Next(s, step)) == 1
  {
    if step.Closing? {
      assert s.live - {step.c} == {};
    }
  }

  /** So it does from a `connect()` on, and from each restart on. */
  lemma ConnectStarts(s: State, step: Step)
    requires Inv(s) && Enabled(s, step) && (step.CallingConnect? || (step.Closing? && s.retry && s.connect))
    ensures Inv(Next(s, step)) && Next(s, step).wanted && Next(s, step).attempts == 1 && Tokens(Next(s, step)) == 1
  {
    NextKeepsInv(s, step);
    if step.Closing? {
      assert s.live - {step.c} == {};
    }
  }

  // ------------------------------------------------------------------ when a connection can still come

  /** Steps of the environment and of the client other than a further `connect()`. */
  predicate Unprompted(steps: seq<Step>) {
    forall i :: 0 <= i < |steps| ==> !steps[i].CallingConnect?
  }

  predicate CanConnect(s: State) {
    (s.wanted && (s.attempts > 0 || s.timers != [])) || (s.connect && s.live != {})
  }

  /**
   Without a further `connect()` another connection can be made exactly if one is wanted and an attempt
   or a retry is under way, or there is one now that the client would replace.
   */
  lemma ConnectionPossible(s: State)
    requires Inv(s)
    ensures CanConnect(s) <==> exists steps :: Unprompted(steps) && Legal(s, steps) && Run(s, steps).made > s.made
  {
    if CanConnect(s) {
      var _ := ConnectionReached(s);
    } else {
      forall steps | Unprompted(steps) && Legal(s, steps)
        ensures Run(s, steps).made == s.made
      {
        NoneMade(s, steps);
      }
    }
  }

  lemma ConnectionReached(s: State) returns (steps: seq<Step>)
    requires CanConnect(s)
    ensures Unprompted(steps) && Legal(s, steps) && Run(s, steps).made > s.made
  {
    if s.wanted && s.attempts > 0 {
      steps := ByAttempt(s);
    } else if s.wanted && s.timers != [] {
      steps := ByAttempt(TimerFires(s, 0));
      steps := Preceded(s, TimerFiring(0), steps);
    } else {
      var c :| c in s.live;
      var t := s.(retry := true);
      steps := ByAttempt(ConnectionCloses(t, c));
      steps := Preceded(t, Closing(c), steps);
      steps := Preceded(s, EnablingRetry, steps);
    }
  }

  lemma ByAttempt(s: State) returns (steps: seq<Step>)
    requires s.wanted && s.attempts > 0
    ensures Unprompted(steps) && Legal(s, steps) && Run(s, steps).made > s.made
  {
    steps := [AttemptEnding(Established)];
    assert steps[1..] == [] && Legal(Next(s, steps[0]), []);
  }

  lemma Preceded(s: State, step: Step, steps: seq<Step>) returns (all: seq<Step>)
    requires Enabled(s, step) && !step.CallingConnect? && Unprompted(steps) && Legal(Next(s, step), steps)
    ensures Unprompted(all) && Legal(s, all) && Run(s, all) == Run(Next(s, step), steps)
  {
    all := [step] + steps;
    assert all[1..] == steps;
  }

  lemma {:induction false} NoneMade(s: State, steps: seq<Step>)
    requires !CanConnect(s) && Unprompted(steps) && Legal(s, steps)
    ensures !CanConnect(Run(s, steps)) && Run(s, steps).made == s.made
    decreases |steps|
  {
    if steps != [] {
      assert !CanConnect(Next(s, steps[0]));
      assert Unprompted(steps[1..]);
      NoneMade(Next(s, steps[0]), steps[1..]);
    }
  }

  /**
   After `stop()` no run makes a connection until the next `connect()`; after `disconnect()` some run
   still does exactly if an attempt or a retry of a wanted connection is on its way.
   */
  lemma StoppedForGood(s: State)
    requires Inv(s)
    ensures forall steps :: Unprompted(steps) && Legal(StopCalled(s), steps) ==>
      Run(StopCalled(s), steps).made == s.made
    ensures var t := Next(s, Disconnecting);
      (exists steps :: Unprompted(steps) && Legal(t, steps) && Run(t, steps).made > s.made) <==>
      s.wanted && (s.attempts > 0 || s.timers != [])
  {
    forall steps | Unprompted(steps) && Legal(StopCalled(s), steps)
      ensures Run(StopCalled(s), steps).made == s.made
    {
      NoneMade(StopCalled(s), steps);
    }
    NextKeepsInv(s, Disconnecting);
    ConnectionPossible(Next(s, Disconnecting));
  }

  // ------------------------------------------------------------------ connector and client

  class Connector {
    var connectWanted: bool
    var state: Phase
    var retryDelayMs: int
    // the loop: connects in flight, pending retry timers
    var attempts: nat
    var timers: seq<int>
    ghost var waits: seq<int>

    constructor ()
      ensures !connectWanted && state == Disconnected && retryDelayMs == INIT_RETRY_DELAY_MS
      ensures attempts == 0 && timers == [] && waits == []
    {
      connectWanted, state, retryDelayMs := false, Disconnected, INIT_RETRY_DELAY_MS;
      attempts, timers, waits := 0, [], [];
    }

    method StartInThisThread()
      requires state == Disconnected
      modifies this`attempts
      ensures attempts == old(attempts) + if connectWanted then 1 else 0
    {
      if connectWanted {
        attempts := attempts + 1;
      }
    }

    method RetryLater()
      modifies this`state, this`timers, this`waits, this`retryDelayMs
      ensures state == Disconnected
      ensures if connectWanted then
          timers == old(timers) + [old(retryDelayMs)] && waits == old(waits) + [old(retryDelayMs)] &&
          retryDelayMs == Min(old(retryDelayMs) * 2, MAX_RETRY_DELAY_MS)
        else timers == old(timers) && waits == old(waits) && retryDelayMs == old(retryDelayMs)
    {
      state := Disconnected;
      if connectWanted {
        timers := timers + [retryDelayMs];
        waits := waits + [retryDelayMs];
        retryDelayMs := Min(retryDelayMs * 2, MAX_RETRY_DELAY_MS);
      }
    }
  }

  class TcpClient {
    const connector: Connector
    var connectWanted: bool
    var retryEnabled: bool
    var connection: Option<nat>
    // connections stand for themselves by number
    var made: nat
    ghost var live: set<nat>

    ghost function Now(): State
      reads this, connector
    {
      State(connector.connectWanted, connector.state, connector.retryDelayMs, connectWanted, retryEnabled, connection,
            connector.attempts, connector.timers, live, made, connector.waits)
    }

    constructor ()
      ensures Now() == START && fresh(connector)
    {
      connector := new Connector();
      connectWanted, retryEnabled, connection := false, false, None;
      made, live := 0, {};
    }

    /** The requirement is what the source asserts; `ConnectExact` tells which calls are harmless. */
    method Connect()
      requires connector.state == Disconnected
      modifies this, connector
      ensures Now() == ConnectCalled(old(Now()))
    {
      connectWanted := true;
      connector.connectWanted := true;
      connector.StartInThisThread();
    }

    method Stop()
      requires Inv(Now())
      modifies this, connector
      ensures Now() == Next(old(Now()), Stopping)
    {
      connectWanted := false;
      connector.connectWanted := false;
      if connector.state == Connecting {
        connector.state := Disconnected;
        connector.RetryLater();
      }
    }

    method EnableRetry()
      modifies this`retryEnabled
      ensures Now() == Next(old(Now()), EnablingRetry)
    {
      retryEnabled := true;
    }

    /** The client stops wanting a connection, and half-closes the one it has. */
    method Disconnect()
      modifies this`connectWanted
      ensures Now() == Next(old(Now()), Disconnecting)
    {
      connectWanted := false;
    }

    method AttemptCompleted(outcome: Outcome)
      requires Inv(Now()) && Enabled(Now(), AttemptEnding(outcome))
      modifies this, connector
      ensures Now() == Next(old(Now()), AttemptEnding(outcome))
    {
      connector.attempts := connector.attempts - 1;
      match outcome {
        case Refused => connector.RetryLater();
        case Broken =>
        case NoOption => connector.state := Connecting;
        case SocketError =>
          connector.state := Connecting;
          connector.RetryLater();
        case Established =>
          connector.state := Connected;
          if connector.connectWanted {
            NewConnection();
          }
      }
    }

    method NewConnection()
      modifies this
      ensures Now() == ConnectionMade(old(Now()))
    {
      connection := Some(made);
      live := live + {made};
      made := made + 1;
    }

    method TimerExpired(i: nat)
      requires Inv(Now()) && Enabled(Now(), TimerFiring(i))
      modifies connector
      ensures Now() == Next(old(Now()), TimerFiring(i))
    {
      NextKeepsInv(Now(), TimerFiring(i));
      connector.timers := connector.timers[..i] + connector.timers[i + 1..];
      connector.StartInThisThread();
    }

    method RemoveConnection(c: nat)
      requires Inv(Now()) && Enabled(Now(), Closing(c))
      modifies this, connector
      ensures Now() == Next(old(Now()), Closing(c))
    {
      live := live - {c};
      assert connection == Some(c);
      connection := None;
      if retryEnabled && connectWanted {
        connector.state := Disconnected;
        connector.retryDelayMs := INIT_RETRY_DELAY_MS;
        connector.connectWanted := true;
        connector.waits := [];
        connector.StartInThisThread();
      }
    }
  }
}
