/**
 The output side of a connection, on its loop thread: one asynchronous write at a time, drained from
 the output buffer, and a half-close that waits for the drain.  A write captures the readable bytes
 at the call; its completion is a step of the environment.
 */
module TcpConnections {
  import opened Machine
  import opened Buffers

  datatype Phase = Disconnected | Connecting | Connected | Disconnecting

  datatype State = State(
    phase: Phase,
    output: seq<byte>,
    inFlight: seq<seq<byte>>,   // the bytes of each outstanding write
    shutdownAsked: bool,        // whether `shutdown()` took effect
    shutdowns: nat,             // how often the send side of the socket was shut down
    failed: bool,               // whether a write has ended in an error
    accepted: seq<byte>,        // every byte that a send took over
    completed: seq<byte>)       // the bytes that all successful writes carried

  // ------------------------------------------------------------------ operations

  function WriteBegun(s: State): State {
    s.(inFlight := s.inFlight + [s.output])
  }

  function Appended(s: State, message: seq<byte>): State {
    var t := s.(output := s.output + message, accepted := s.accepted + message);
    if s.output == [] then WriteBegun(t) else t
  }

  function Sent(s: State, message: seq<byte>): State {
    if s.phase != Connected then s else Appended(s, message)
  }

  function HalfClosed(s: State): State {
    if s.output == [] then s.(shutdowns := s.shutdowns + 1) else s
  }

  function ShutDown(s: State): State {
    if s.phase == Connected then HalfClosed(s.(phase := Disconnecting, shutdownAsked := true)) else s
  }

  function ForceClosed(s: State): State {
    if s.phase == Connected || s.phase == Disconnecting then s.(phase := Disconnecting) else s
  }

  /** The completion handler of the oldest outstanding write. */
  function Completed(s: State, error: bool): State
    requires s.inFlight != [] && |s.inFlight[0]| <= |s.output|
  {
    var n := |s.inFlight[0]|;
    var t := s.(inFlight := s.inFlight[1..]);
    if error then t.(failed := true)
    else
      var u := t.(output := s.output[n..], completed := s.completed + s.inFlight[0]);
      if u.output != [] then WriteBegun(u)
      else if s.phase == Disconnecting then HalfClosed(u)
      else u
  }

  /** What a `StringPiece` covers of a message, if its length is not negative. */
  function Piece(message: seq<byte>): seq<byte> {
    if 0 <= ToInt32(|message|) <= |message| then message[..ToInt32(|message|)] else message
  }

  /** Taken for a `size_t`, a negative length is more than any array holds. */
  lemma LengthExact(n: nat)
    requires n <= MAX_SIZE
    ensures n < TWO_31 ==> ToInt32(n) == n
    ensures if ToInt32(n) < 0 then ToSize(ToInt32(n)) == TWO_64 + ToInt32(n) else ToSize(ToInt32(n)) == ToInt32(n) <= n
  {
  }

  datatype Step =
    | Establish
    | Sending(message: seq<byte>)
    | ShuttingDown
    | ForcingClose
    | Closing
    | Completing(error: bool)

  predicate Enabled(s: State, step: Step) {
    match step
    case Establish => s.phase == Connecting
    case Sending(message) => message != [] || s.output != [] || s.phase != Connected
    case Closing => s.phase == Connected || s.phase == Disconnecting
    case Completing(_) => s.inFlight != []
    case _ => true
  }

  // ------------------------------------------------------------------ invariant

  /**
   One write at most is outstanding, it carries what the buffer begins with, and unless a write has
   failed there is one as long as the buffer holds anything.  Nothing accepted is lost or reordered,
   and the send side is shut down once at most: after the last accepted byte, if it was asked for.
   */
  predicate Inv(s: State) {
    && |s.inFlight| <= 1
    && (s.inFlight != [] ==> s.inFlight[0] <= s.output && s.inFlight[0] != [])
    && (s.output != [] ==> (s.failed <==> s.inFlight == []))
    && (s.failed ==> s.output != [])
    && s.completed + s.output == s.accepted
    && s.shutdowns <= 1
    && (s.shutdowns == 1 ==> s.output == [] && (s.phase == Disconnecting || s.phase == Disconnected))
    && (s.shutdownAsked && s.phase == Disconnecting && s.output == [] ==> s.shutdowns == 1)
    && (s.shutdownAsked ==> s.phase == Disconnecting || s.phase == Disconnected)
  }

  function Next(s: State, step: Step): (t: State)
    requires Inv(s) && Enabled(s, step)
    ensures Inv(t)
  {
    match step
    case Establish => s.(phase := Connected)
    case Sending(message) =>
      SendKeepsInvExactly(s, message);
      Sent(s, message)
    case ShuttingDown => ShutDown(s)
    case ForcingClose => ForceClosed(s)
    case Closing => s.(phase := Disconnected)
    case Completing(error) =>
      CompletedKeepsInv(s, error);
      Completed(s, error)
  }

  /** A send breaks the protocol exactly when it is empty and finds an empty buffer: it starts a write of nothing. */
  lemma SendKeepsInvExactly(s: State, message: seq<byte>)
    requires Inv(s)
    ensures Inv(Sent(s, message)) <==> message != [] || s.output != [] || s.phase != Connected
  {
  }

  /**
   The append of a send that another thread has posted, and that comes in whatever phase: it keeps the
   protocol exactly if the send side is not shut down yet and it does not start a write of nothing.
   */
  lemma PostedSendKeepsInvExactly(s: State, message: seq<byte>)
    requires Inv(s)
    ensures Inv(Appended(s, message)) <==> s.shutdowns == 0 && (message != [] || s.output != [])
  {
    assert s.completed + (s.output + message) == s.completed + s.output + message;
    if s.output == [] {
      assert s.output + message == message;
    }
  }

  lemma CompletedKeepsInv(s: State, error: bool)
    requires Inv(s) && s.inFlight != []
    ensures Inv(Completed(s, error))
  {
  }

  /** What goes wrong then: the next message gets a second write, and that message is written twice. */
  lemma EmptySendWritesTwice(s: State, x: byte)
    requires Inv(s) && s.phase == Connected && s.output == []
    ensures var t := Sent(Sent(s, []), [x]);
      |t.inFlight| == 2 && |t.inFlight[0]| <= |t.output| && Completed(t, false).inFlight == [[x], [x]]
  {
  }

  // ------------------------------------------------------------------ runs

  predicate Legal(s: State, steps: seq<Step>)
    requires Inv(s)
    decreases |steps|
  {
    steps == [] || (Enabled(s, steps[0]) && Legal(Next(s, steps[0]), steps[1..]))
  }

  function Run(s: State, steps: seq<Step>): (t: State)
    requires Inv(s) && Legal(s, steps)
    ensures Inv(t)
    decreases |steps|
  {
    if steps == [] then s else Run(Next(s, steps[0]), steps[1..])
  }

  const START := State(Connecting, [], [], false, 0, false, [], [])

  /**
   Over any run: at most one write is outstanding, of bytes the buffer begins with; what the completed
   writes carried, followed by the buffered bytes, is what was accepted, in order; the send side is shut
   down at most once, only with every accepted byte written, and whatever then follows nothing is
   accepted any more.
   */
  lemma OutputProtocol(steps: seq<Step>, more: seq<Step>)
    requires Legal(START, steps) && Legal(Run(START, steps), more)
    ensures var s := Run(START, steps);
      |s.inFlight| <= 1 && (s.inFlight != [] ==> s.inFlight[0] <= s.output) &&
      s.completed + s.output == s.accepted && s.shutdowns <= 1 &&
      (s.shutdowns == 1 ==>
        s.completed == s.accepted && Run(s, more).accepted == s.accepted && Run(s, more).shutdowns == 1)
  {
    var s := Run(START, steps);
    if s.shutdowns == 1 {
      assert s.completed + [] == s.completed;
      NothingAfterShutdown(s, more);
    }
  }

  lemma {:induction false} NothingAfterShutdown(s: State, steps: seq<Step>)
    requires Inv(s) && s.shutdowns == 1 && Legal(s, steps)
    ensures Run(s, steps).accepted == s.accepted && Run(s, steps).shutdowns == 1
    decreases |steps|
  {
    if steps != [] {
      NothingAfterShutdown(Next(s, steps[0]), steps[1..]);
    }
  }

  // ------------------------------------------------------------------ what a run puts on the wire, told from its steps

  function PhaseAfterStep(phase: Phase, step: Step): Phase {
    match step
    case Establish => Connected
    case ShuttingDown => if phase == Connected then Disconnecting else phase
    case ForcingClose => if phase == Connected then Disconnecting else phase
    case Closing => Disconnected
    case Sending(_) => phase
    case Completing(_) => phase
  }

  function PhaseAfter(phase: Phase, steps: seq<Step>): Phase
    decreases |steps|
  {
    if steps == [] then phase else PhaseAfter(PhaseAfterStep(phase, steps[0]), steps[1..])
  }

  function TakenOver(phase: Phase, step: Step): seq<byte> {
    if step.Sending? && phase == Connected then step.message else []
  }

  /** The messages sent while connected, one after the other. */
  function SentWhileConnected(phase: Phase, steps: seq<Step>): seq<byte>
    decreases |steps|
  {
    if steps == [] then []
    else TakenOver(phase, steps[0]) + SentWhileConnected(PhaseAfterStep(phase, steps[0]), steps[1..])
  }

  /** A shutdown was called while connected. */
  predicate AskedToShutDown(phase: Phase, steps: seq<Step>)
    decreases |steps|
  {
    steps != [] &&
    ((steps[0].ShuttingDown? && phase == Connected) || AskedToShutDown(PhaseAfterStep(phase, steps[0]), steps[1..]))
  }

  lemma StepExact(s: State, step: Step)
    requires Inv(s) && Enabled(s, step)
    ensures var t := Next(s, step);
      t.phase == PhaseAfterStep(s.phase, step) &&
      t.completed + t.output == s.completed + s.output + TakenOver(s.phase, step) &&
      (t.failed <==> s.failed || step == Completing(true)) &&
      (t.shutdownAsked <==> s.shutdownAsked || (step.ShuttingDown? && s.phase == Connected))
  {
    if step.Sending? && s.phase == Connected {
      assert s.completed + (s.output + step.message) == s.completed + s.output + step.message;
    }
  }

  lemma Regroup(a: seq<byte>, b: seq<byte>, c: seq<byte>)
    ensures a + b + c == a + (b + c)
  {
  }

  lemma {:induction false} RunExact(s: State, steps: seq<Step>)
    requires Inv(s) && Legal(s, steps)
    ensures var t := Run(s, steps);
      t.phase == PhaseAfter(s.phase, steps) &&
      t.completed + t.output == s.completed + s.output + SentWhileConnected(s.phase, steps) &&
      (t.failed <==> s.failed || Completing(true) in steps) &&
      (t.shutdownAsked <==> s.shutdownAsked || AskedToShutDown(s.phase, steps))
    decreases |steps|
  {
    if steps != [] {
      hide Inv, Next, Enabled, TakenOver, PhaseAfterStep;
      assert steps == [steps[0]] + steps[1..];
      var t := Next(s, steps[0]);
      StepExact(s, steps[0]);
      RunExact(t, steps[1..]);
      Regroup(s.completed + s.output, TakenOver(s.phase, steps[0]), SentWhileConnected(t.phase, steps[1..]));
    }
  }

  lemma WireOf(s: State)
    requires Inv(s)
    ensures var sent := s.completed + s.output;
      sent == s.accepted &&
      (s.completed != sent && !s.failed ==>
        |s.inFlight| == 1 && s.inFlight[0] != [] && s.completed + s.inFlight[0] <= sent) &&
      (s.shutdowns == 1 ==> s.completed == sent) &&
      (s.shutdownAsked && s.phase == Disconnecting && s.completed == sent ==> s.shutdowns == 1)
  {
    assert s.completed + [] == s.completed;
    if s.inFlight != [] {
      var n := |s.inFlight[0]|;
      assert s.output == s.inFlight[0] + s.output[n..];
      Regroup(s.completed, s.inFlight[0], s.output[n..]);
    }
  }

  /** All of this told from the steps. */
  predicate OnTheWire(s: State, steps: seq<Step>) {
    var sent := SentWhileConnected(Connecting, steps);
    && s.completed + s.output == sent == s.accepted
    && (s.completed != sent && Completing(true) !in steps ==>
      |s.inFlight| == 1 && s.inFlight[0] != [] && s.completed + s.inFlight[0] <= sent)
    && (s.shutdowns == 1 ==> s.completed == sent)
    && (AskedToShutDown(Connecting, steps) && PhaseAfter(Connecting, steps) == Disconnecting && s.completed == sent ==>
      s.shutdowns == 1)
  }

  lemma OnTheWireSince(b: State, steps: seq<Step>)
    requires Inv(b) && Legal(b, steps)
    requires b.phase == Connecting && b.completed + b.output == [] && !b.failed && !b.shutdownAsked
    ensures OnTheWire(Run(b, steps), steps)
  {
    hide Inv, Next, SentWhileConnected, PhaseAfter, AskedToShutDown;
    RunExact(b, steps);
    WireOf(Run(b, steps));
    assert [] + SentWhileConnected(Connecting, steps) == SentWhileConnected(Connecting, steps);
  }

  /**
   From the beginning of a connection on: the bytes that completed writes have carried, followed by the
   buffered ones, are the messages sent while connected, in order.  While some are missing and no write
   has failed, exactly one write is under way, and it carries the next ones.  The send side is shut down
   only with nothing missing, and is, in a connection that is closing because it was asked to, as soon as
   nothing is.
   */
  lemma WireExact(steps: seq<Step>)
    requires Legal(START, steps)
    ensures OnTheWire(Run(START, steps), steps)
  {
    OnTheWireSince(START, steps);
  }

  // ------------------------------------------------------------------ the connection itself

  class TcpConnection {
    var state: Phase
    const outputBuffer: Buffer
    // the socket
    var inFlight: seq<seq<byte>>
    var shutdowns: nat
    ghost var shutdownAsked: bool
    ghost var failed: bool
    ghost var accepted: seq<byte>
    ghost var completed: seq<byte>

    ghost predicate Valid()
      reads this, outputBuffer
    {
      outputBuffer.Valid()
    }

    ghost function Now(): State
      reads this, outputBuffer, outputBuffer.data
      requires Valid()
    {
      State(state, outputBuffer.Contents(), inFlight, shutdownAsked, shutdowns, failed, accepted, completed)
    }

    constructor ()
      ensures Valid() && Now() == START && fresh(outputBuffer) && fresh(outputBuffer.data)
    {
      outputBuffer := new Buffer();
      state, inFlight, shutdowns := Connecting, [], 0;
      shutdownAsked, failed, accepted, completed := false, false, [], [];
    }

    method ConnectEstablished()
      requires Valid() && state == Connecting && Inv(Now())
      modifies this`state
      ensures Valid() && Now() == Next(old(Now()), Establish)
    {
      state := Connected;
    }

    /**
     The message becomes a `StringPiece`, whose length is an `int`: of a message of 2^31 bytes and more
     this is what is left modulo 2^32, and one that comes out negative never finds room.
     `SendKeepsInvExactly` tells which sends are steps of the protocol.
     */
    method Send(message: seq<byte>) returns (outcome: Growth)
      requires Valid() && |message| <= MAX_SIZE
      modifies this, outputBuffer, outputBuffer.data
      ensures outputBuffer.data == old(outputBuffer.data) || fresh(outputBuffer.data)
      ensures outcome == old(if state == Connected then RoomFor(ToInt32(|message|)) else Fits)
      ensures outcome == Fits && old(state) == Connected ==> 0 <= ToInt32(|message|) <= |message|
      ensures outcome == Fits ==> Valid() && Now() == Sent(old(Now()), Piece(message))
      ensures outcome != Fits && outcome != Overrun ==> Valid() && Now() == old(Now())
      ensures |message| < TWO_31 ==> outcome != Overrun && Piece(message) == message
      ensures |message| < TWO_31 && outcome == Fits && old(state) == Connected ==>
        outputBuffer.Contents() == old(outputBuffer.Contents()) + message
    {
      outcome := Fits;
      if state == Connected {
        outcome := SendInThisThread(message);
      }
    }

    /** How the call for room of a piece of this length ends. */
    ghost function RoomFor(length: int): Growth
      reads this, outputBuffer
    {
      GrowthFor(outputBuffer.data.Length, outputBuffer.readerIndex, outputBuffer.writerIndex, ToSize(length))
    }

    /** In any phase: a send that another thread has posted may come when the connection is closing. */
    method SendInThisThread(message: seq<byte>) returns (outcome: Growth)
      requires Valid() && |message| <= MAX_SIZE
      modifies this, outputBuffer, outputBuffer.data
      ensures outputBuffer.data == old(outputBuffer.data) || fresh(outputBuffer.data)
      ensures outcome == old(if state == Disconnected then Fits else RoomFor(ToInt32(|message|)))
      ensures outcome == Fits && old(state) != Disconnected ==> 0 <= ToInt32(|message|) <= |message|
      ensures outcome == Fits ==>
        Valid() && Now() == if old(state) == Disconnected then old(Now()) else Appended(old(Now()), Piece(message))
      ensures outcome != Fits && outcome != Overrun ==> Valid() && Now() == old(Now())
      ensures |message| < TWO_31 ==> outcome != Overrun && Piece(message) == message
      ensures |message| < TWO_31 && outcome == Fits && old(state) != Disconnected ==>
        outputBuffer.Contents() == old(outputBuffer.Contents()) + message &&
        inFlight == old(inFlight) + if old(outputBuffer.Contents()) == [] then [outputBuffer.Contents()] else []
    {
      if state == Disconnected {
        return Fits;
      }
      var startWrite := outputBuffer.ReadableBytes() == 0;
      var length := ToInt32(|message|);
      LengthExact(|message|);
      if length < 0 {
        outcome := outputBuffer.EnsureWritableBytes(ToSize(length));
        return;
      }
      outcome := outputBuffer.Append(message[..length]);
      if outcome != Fits {
        return;
      }
      accepted := accepted + message[..length];
      if startWrite {
        Write();
      }
    }

    method Write()
      requires Valid()
      modifies this`inFlight
      ensures Valid() && Now() == WriteBegun(old(Now())) && inFlight == old(inFlight) + [outputBuffer.Contents()]
    {
      var bytes := outputBuffer.Peek(outputBuffer.ReadableBytes());
      assert bytes == outputBuffer.Contents();
      inFlight := inFlight + [bytes];
    }

    /** The handler of a write, which the socket calls when it has sent all of its bytes, or not. */
    method WriteCompleted(error: bool)
      requires Valid() && Inv(Now()) && inFlight != []
      modifies this, outputBuffer
      ensures Valid() && Now() == Next(old(Now()), Completing(error))
    {
      var byteCount := |inFlight[0]|;
      ghost var written := inFlight[0];
      inFlight := inFlight[1..];
      if !error {
        completed := completed + written;
        outputBuffer.Retrieve(byteCount);
        if outputBuffer.ReadableBytes() != 0 {
          Write();
        } else if state == Disconnecting {
          ShutdownInThisThread();
        }
      } else {
        failed := true;
      }
    }

    method Shutdown()
      requires Valid() && Inv(Now())
      modifies this
      ensures Valid() && Now() == Next(old(Now()), ShuttingDown)
    {
      if state == Connected {
        state, shutdownAsked := Disconnecting, true;
        ShutdownInThisThread();
      }
    }

    method ShutdownInThisThread()
      requires Valid()
      modifies this`shutdowns
      ensures Valid() && Now() == HalfClosed(old(Now()))
    {
      if outputBuffer.ReadableBytes() == 0 {
        shutdowns := shutdowns + 1;
      }
    }

    method ForceClose()
      requires Valid() && Inv(Now())
      modifies this`state
      ensures Valid() && Now() == Next(old(Now()), ForcingClose)
    {
      if state == Connected || state == Disconnecting {
        state := Disconnecting;
      }
    }

    method HandleClose()
      requires Valid() && Inv(Now()) && (state == Connected || state == Disconnecting)
      modifies this`state
      ensures Valid() && Now() == Next(old(Now()), Closing)
    {
      state := Disconnected;
    }
  }
}
