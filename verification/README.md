# Verified models of IOEvent's stateful components

IOEvent is a TCP library on top of boost::asio. This project models eight of its components in Dafny
and proves what each of them keeps over whole runs. Sockets, asynchronous operations and the other
threads are steps of an environment that may act at any time.

| files | component | shape of the model |
|---|---|---|
| `TimerWheel.dfy` | hashed timing wheel | class over an array of doubly linked heap nodes, refining a map from event to ticks left |
| `TimerLists.dfy`, `TimerQueueSteps.dfy`, `TimerQueue.dfy` | timer queue of an event loop | step system cut at the user callbacks; the class performs its steps |
| `Buffer.dfy`, `Machine.dfy` | byte buffer, integer widths, network order | class over one growable array, refining a byte sequence |
| `Adler32.dfy`, `ProtobufCodec.dfy` | typed frames with a checksum (section 2.2 of RFC 1950) | encoder and frame loop over the buffer class, parser as a function |
| `LengthHeaderCodec.dfy` | length-prefixed frames | decoding loop over the buffer class |
| `TcpConnection.dfy` | output side of a connection | step system; the class performs its steps on an output buffer |
| `ThreadPool.dfy` | bounded task queue | monitor steps of any number of threads; the class performs them |
| `Reconnect.dfy` | connector and client | step system; two classes perform its steps |

In the step systems `Next` is the specification, the methods of the class are proved equal to it step
by step (`Now() == Next(old(Now()), step)`), and the theorems are about every run of `Next`. `State`
records with every field of the component are compared as a whole, so that a method cannot skip,
swap or add an effect. `Next` itself is held to laws told in other terms, from the steps alone: the
life of each timer (`LifeOverRun`) and the callbacks of each pass (`EachCalledOnce`), the messages of a
connection (`WireExact`), the place of each thread and task (`StepMovesThreads`, `StepMovesTasks`), and
the course of the one reconnect token (`CourseExact`).

## Where the code falls short of what it promises

Each of these is a lemma that says exactly when the code is right.

- A wheel of 2^31 slots overflows its `int` cursor (`CursorFits`); a wheel of one slot turns a timeout
  of 2^31 or more into a negative rotation, and runs it at the very next tick (`AddGrantsTimeout`,
  `TimeoutExact`). The constructor never sets the cursor; the model takes its first value as a
  parameter inside the wheel.
- `Buffer::shrink` goes through a `StringPiece`, whose length is an `int` that `append` takes for a
  `size_t`: with room for the total, the contents are kept exactly if fewer than 2^31 bytes are
  readable, cut if their number modulo 2^32 is less than that, and otherwise nothing changes, because
  the copy throws or, for the last eight numbers, fails an assertion (`Buffer.Shrink`, `ShrinkFor`).
- A call for room ends in room or in a `length_error` for all lengths but the last below 2^64, where
  sums of `size_t` wrap: there the assertion of `makeSpace` or of its caller fails, or the array is cut
  off in front of the writer (`Buffer.EnsureWritableBytes`, `GrowthFor`, `SlideAssertExact`).
- `ProtobufCodec::onMessage` is never left exactly if the buffer holds packets the receiver accepts
  followed by fourteen bytes or more that announce a body of permitted length and hold no packet,
  being incomplete or not parsing (`NeverReturnsExactly`; `DecodeExact` tells what every call does). So
  it spins on a partial frame (`CutFrame`) and on one of an unknown type (`FrameFate`). A message with
  an empty type name can be sent but never parsed. The parser does not look at the byte behind the
  type name (`ParseExact`).
- Adler-32 misses a swap of two unequal bytes exactly if 65521 divides their distance (`SwapNoticed`).
- `LengthHeaderCodec::onMessage` asks for more than a header, so an empty body at the end of a stream
  stays in the buffer as its bare header (`DecodeStream`).
- An empty send on an empty output buffer starts a write of nothing, after which the next message gets
  a second write and is sent twice (`SendKeepsInvExactly`, `EmptySendWritesTwice`).
- A further `connect()` is harmless exactly when nothing is under way and the connector is in its
  initial phase (`ConnectExact`); a second one at once puts two attempts in flight.
- `disconnect()` keeps the client from replacing a connection, but an attempt or retry already under way
  goes on and can still make one (`StoppedForGood`, `ConnectionPossible`).
- A send that another thread has posted breaks the output protocol exactly if it comes after the
  half-close or starts a write of nothing (`PostedSendKeepsInvExactly`). A message of 2^31 bytes and
  more is cut to its length modulo 2^32, or finds no room (`TcpConnection.Send`).
- A `connect()` after a `stop()` does not reset the retry delay; only a restart does (`SingleToken`).
- A cancel that the loop processes before the insertion of its timer has no effect (`CancelSilences`).

The wake-up theorem of the timer queue needs a positive and monotone clock and nothing of the
expirations: they may be past, or not even positive.

## Model

| member | source | states |
|---|---|---|
| RemainingTicks.RunsExactlyOnce | boost_io_context/TimerWheel.cpp:88-171 | over any run of adds, cancels and ticks, an event with k ticks to go is live with one tick less after each tick, and is due at the (k+1)-th tick if it has not been cancelled before, and at no other |
| TimerWheels.AddGrantsTimeout | boost_io_context/TimerWheel.cpp:45-60 | with the source's signed and unsigned 32-bit conversions, slot and rotation of a new event amount to max(timeout, 1) ticks left, for any cursor and any 32-bit timeout, if and only if there are two slots or the timeout is below 2^31 |
| TimerWheels.TickCountsDown | boost_io_context/TimerWheel.cpp:135-142 | the number rotation * slots + (slot - cursor) mod slots is zero exactly for what a tick runs, and falls by exactly one for everything else, whether the tick turns its slot or another |
| TimerWheels.CursorFits | boost_io_context/TimerWheel.cpp:170 | the increment of the cursor stays inside an `int` for every position if and only if there are fewer than 2^31 slots |
| TimerWheels.TimeoutExact | boost_io_context/TimerWheel.cpp:45-73 | an event added with timeout t is run by exactly the (max(t, 1) + 1)-th later tick, whatever else happens in between, if and only if it has not been cancelled by then |
| TimerWheels.ChainedWithout | boost_io_context/TimerWheel.cpp:107-111 | bypassing one node of a well-formed chain leaves the chain without it well formed, in the same order |
| TimerWheels.TickOfSnapshot | boost_io_context/TimerWheel.cpp:130-171 | the traversal of the current slot followed by the cursor's move runs exactly the events with no ticks left, each once, and is one tick of the map of remaining ticks |
| TimerWheels.TraversedNext | boost_io_context/TimerWheel.cpp:133-169 | one visit, which may delete the node under the traversal, extends the visited part of the original chain by exactly the next event, with survivors in order |
| TimerWheels.VisitAllAt | boost_io_context/TimerWheel.cpp:135-150 | a traversal takes one rotation from each event of its chain that has one, removes exactly the others, and changes no event outside |
| TimerWheels.OrderKept | boost_io_context/TimerWheel.cpp:133-169 | the events a traversal runs, and those it keeps, are each in the order of the chain |
| TimerWheels.ExpiringHas | boost_io_context/TimerWheel.cpp:135-144 | a traversal runs exactly the events of the chain without a rotation left |
| TimerWheels.SurvivingHas | boost_io_context/TimerWheel.cpp:135-140 | and keeps exactly the others |
| TimerWheels.Detach | boost_io_context/TimerWheel.cpp:95-111 | unlinking by the source's head and non-head cases leaves a well-formed chain without the node and no rotation changed |
| TimerWheels.Attach | boost_io_context/TimerWheel.cpp:61-71 | linking a node in front of an empty or non-empty chain gives the longer well-formed chain |
| TimerWheels.TimerWheel.constructor | boost_io_context/TimerWheel.cpp:7-17 | a new wheel is well formed and empty |
| TimerWheels.TimerWheel.AddTimer | boost_io_context/TimerWheel.cpp:45-73 | keeps every slot well formed, puts the new event at the head of one chain and leaves the others, and adds it to the map of remaining ticks with the ticks granted |
| TimerWheels.TimerWheel.Unlink | boost_io_context/TimerWheel.cpp:94-113 | takes exactly one live event, be it head, middle or tail, out of its chain and deletes it; everything else keeps place and rotation |
| TimerWheels.TimerWheel.Cancel | boost_io_context/TimerWheel.cpp:88-114 | removes exactly the given live event from the map of remaining ticks and deletes it; a null id does nothing |
| TimerWheels.TimerWheel.Visit | boost_io_context/TimerWheel.cpp:135-168 | either takes one rotation from the event or unlinks and deletes it, and yields the event that followed it in either case |
| TimerWheels.TimerWheel.TurnSlot | boost_io_context/TimerWheel.cpp:132-169 | the loop with deletion visits the whole original chain of the slot and terminates |
| TimerWheels.TimerWheel.Tick | boost_io_context/TimerWheel.cpp:130-171 | runs exactly the due events, each once and in chain order, deletes exactly those, keeps the survivors in order and the other slots as they are, moves the cursor, and counts every remaining event down by one |
| TimerWheels.ServeAll | boost_io_context/TimerWheel.cpp:32-171 | any list of adds, cancels and ticks on a real wheel of any content is a run of the map of remaining ticks, and each tick runs exactly the events due in that run, each once |
| TimerWheels.Serve | boost_io_context/TimerWheel.cpp:32-128 | one request, done on the wheel, is its step of the map |
| TimerWheels.AddedIsRunOnce | boost_io_context/TimerWheel.cpp:45-171 | over any run, a later tick runs an added event if and only if exactly as many ticks lie between as it was granted and no cancel of it does |
| TimerWheels.ServedExactly | boost_io_context/TimerWheel.cpp:32-171 | over any list of requests served by a real wheel, a tick runs the event of an earlier add if and only if as many ticks lie between as its timeout grants and its client has not cancelled it: so a cancelled event is run by no later tick |
| TimerLists.EmplaceExact | boost_io_context/TimerQueue.cpp:69-77 | insertion keeps the ordered index ordered, adds exactly one entry unless it was there, and has the new entry first exactly if it is less than the former first |
| TimerLists.EraseExact | boost_io_context/TimerQueue.cpp:52-53 | erasure keeps the order and removes exactly the one entry |
| TimerQueueSteps.InsertKeepsCore | boost_io_context/TimerQueue.cpp:64-84 | inserting a timer owned nowhere keeps both indexes holding the same timers under their current expirations |
| TimerQueueSteps.CreateKeepsInv | boost_io_context/TimerQueue.cpp:25-30 | creation at any free address, also one used before, keeps the invariant |
| TimerQueueSteps.AddKeepsInv | boost_io_context/TimerQueue.cpp:36-43 | insertion on the loop keeps the invariant, ownership and wake-up included, inside callbacks too |
| TimerQueueSteps.CancelKeepsInv | boost_io_context/TimerQueue.cpp:45-62 | so does any cancel, of the earliest timer, of one in the running batch, or of one long gone |
| TimerQueueSteps.ExpiredExact | boost_io_context/TimerQueue.cpp:121-140 | the split by the sentinel address separates exactly the timers due from the later ones; the batch is in order of expiration and holds no timer twice |
| TimerQueueSteps.BeginKeepsInv | boost_io_context/TimerQueue.cpp:104-109 | detaching the batch moves each of its timers from both indexes into the batch and no other timer |
| TimerQueueSteps.EndKeepsInv | boost_io_context/TimerQueue.cpp:114-116 | restarting or deleting the batch and re-arming restores the invariant, wake-up included |
| TimerQueueSteps.ResetAllKeepsCore | boost_io_context/TimerQueue.cpp:142-168 | what comes back from a pass is not earlier than the pass, so an earlier first timer was first before |
| TimerQueueSteps.WakeInTime | boost_io_context/TimerQueue.cpp:86-100 | a wait ends neither after the expiration nor a whole second before it, after a whole number of seconds, and at once for what is due within the floor |
| TimerQueueSteps.Next | boost_io_context/TimerQueue.cpp:36-168 | every enabled step, from a callback, the handler or another thread, keeps the invariant; what it does to each timer is stated by `LifeExact` and `StepInPass` |
| TimerQueueSteps.Run | boost_io_context/TimerQueue.cpp:36-168 | every reachable state satisfies the invariant: both indexes hold the same timers, each timer is owned in exactly one place, numbers are unique |
| TimerQueueSteps.InitOk | boost_io_context/TimerQueue.cpp:8-14 | a new queue satisfies the invariant |
| TimerQueueSteps.SizesAgree | boost_io_context/TimerQueue.cpp:45-84 | the two indexes always have the same size |
| TimerQueueSteps.WakeUpNeverMissed | boost_io_context/TimerQueue.cpp:86-119 | outside the handler, while a timer is pending, a wait is armed whose wake time is no later than that timer or than the arming itself, despite whole seconds and the floor of 100 microseconds; and a handler that runs when the timer is due takes it |
| TimerQueueSteps.CallbackDue | boost_io_context/TimerQueue.cpp:110-113 | a callback runs a timer that is alive, never before its expiration |
| TimerQueueSteps.LifeExact | boost_io_context/TimerQueue.cpp:36-157 | what a step does to a timer is told by the step alone: created with the fields asked for and the next number, inserted, cancelled by its own number, taken up when due, and after its pass pending again at pass time + interval or deleted; no other step touches it |
| TimerQueueSteps.LifeOverRun | boost_io_context/TimerQueue.cpp:36-157 | the same over every run, for every address |
| TimerQueueSteps.AddedTimerLives | boost_io_context/TimerQueue.cpp:25-30 | from the call that adds a timer on, its expiration, repetition and interval are the ones asked for, over every run |
| TimerQueueSteps.StepInPass | boost_io_context/TimerQueue.cpp:110-113 | during a pass each step calls the next timer of the batch back, or none, and leaves the batch as it is |
| TimerQueueSteps.EachCalledOnce | boost_io_context/TimerQueue.cpp:104-116 | by the end of a pass the timers called back are those of its batch, in order, each once, whatever callbacks and other threads have done |
| TimerQueueSteps.TakenUpIsCalled | boost_io_context/TimerQueue.cpp:104-116 | a timer that a pass takes up is called back exactly once by its end |
| TimerQueueSteps.OneShotCalledOnce | boost_io_context/TimerQueue.cpp:110-157 | from its creation on, over any run, a one-shot timer is called back at most once |
| TimerQueueSteps.BatchUndisturbed | boost_io_context/TimerQueue.cpp:102-116 | nothing that callbacks or other threads do deletes or changes a timer of the running batch, and whether it returns is changed by a cancel of that very timer, by its number, and by nothing else |
| TimerQueueSteps.EndDecides | boost_io_context/TimerQueue.cpp:142-157 | at the end of a pass a repeating timer of the batch that is not marked as cancelled is in both indexes again at pass time + interval, and any other one is deleted |
| TimerQueueSteps.BatchBegins | boost_io_context/TimerQueue.cpp:104-109 | every timer of a batch was pending, and the pass begins with no cancellation noted |
| TimerQueueSteps.PassExact | boost_io_context/TimerQueue.cpp:102-118 | over a whole pass, whatever its callbacks and other threads add and cancel meanwhile, a timer of the batch is pending again one interval after the time of the pass if and only if it repeats and was not cancelled on the way; otherwise it is deleted |
| TimerQueueSteps.CancelSilences | boost_io_context/TimerQueue.cpp:45-62 | after a cancel the timer is deleted, or in the running batch and not to return, if and only if the cancel was processed after the insertion |
| TimerQueueSteps.CancelTouchesOnlyItsOwn | boost_io_context/TimerQueue.cpp:48-60 | an id, stale or made up, leaves alone every timer with another number, even one at the same address |
| TimerQueueSteps.SilencedForever | boost_io_context/TimerQueue.cpp:45-62 | over any later run, address reuse included, no pass takes up a cancelled or deleted timer again, and what is deleted stays deleted |
| TimerQueueSteps.OneShotRunsOnce | boost_io_context/TimerQueue.cpp:142-157 | from its creation on, over any run, at most one pass takes up a one-shot timer |
| TimerQueueSteps.OneShotDies | boost_io_context/TimerQueue.cpp:142-157 | the end of the pass that has taken it up deletes a one-shot timer, for good |
| TimerQueues.TimerQueue.constructor | boost_io_context/TimerQueue.cpp:8-14 | establishes the invariant with no wait armed |
| TimerQueues.TimerQueue.AddTimer | boost_io_context/TimerQueue.cpp:25-30 | allocates the timer with the next number, posts its insertion and returns its id |
| TimerQueues.TimerQueue.AddTimerInThisThread | boost_io_context/TimerQueue.cpp:36-43 | performs the insertion step: both indexes, and a new wait exactly if the earliest timer changed |
| TimerQueues.TimerQueue.CancelInThisThread | boost_io_context/TimerQueue.cpp:45-62 | performs the cancelling step, with the source's assertions proved on the way |
| TimerQueues.TimerQueue.InsertTimer | boost_io_context/TimerQueue.cpp:64-84 | adds the timer to both indexes and says whether it became the earliest |
| TimerQueues.TimerQueue.Rearm | boost_io_context/TimerQueue.cpp:86-100 | replaces the wait by one of whole seconds after the floor |
| TimerQueues.TimerQueue.BeginPass | boost_io_context/TimerQueue.cpp:104-109 | performs the step that detaches the batch, also for a handler whose wait was replaced too late |
| TimerQueues.TimerQueue.GetExpired | boost_io_context/TimerQueue.cpp:121-140 | returns the due prefix and takes exactly its timers out of both indexes, each erasure hitting |
| TimerQueues.TimerQueue.RunNext | boost_io_context/TimerQueue.cpp:110-113 | calls the next timer of the batch, which is due, and goes on by one |
| TimerQueues.TimerQueue.EndPass | boost_io_context/TimerQueue.cpp:114-116 | performs the step that resets the batch and re-arms for the earliest valid expiration |
| TimerQueues.TimerQueue.RearmForFirst | boost_io_context/TimerQueue.cpp:159-167 | re-arms for the earliest pending timer exactly if its expiration is positive |
| TimerQueues.TimerQueue.Reset | boost_io_context/TimerQueue.cpp:142-157 | the loop decides the batch timer by timer as the specification does |
| TimerQueues.TimerQueue.ResetFirst | boost_io_context/Timer.cpp:16-26 | a returning timer is restarted at pass time + interval and inserted; any other one is deleted |
| TimerQueues.CancelAsserts | boost_io_context/TimerQueue.cpp:47-53 | in every reachable state the sizes agree and the erasure by current expiration finds its entry |
| TimerQueues.InsertAsserts | boost_io_context/TimerQueue.cpp:66-82 | whenever the source inserts, neither index holds the timer yet |
| TimerQueues.ExpiryAsserts | boost_io_context/TimerQueue.cpp:123-138 | in every reachable state the assertions of the split hold and each erasure from the index of ids finds its own entry |
| Machine.ReadBig | boost_io_context/Buffer.cpp:113-172 | reading 8, 16 or 32 bits in network order undoes writing them on the whole signed range |
| Machine.NetworkOrder | boost_io_context/Buffer.cpp:113-123 | the images of 8, 16 and 32-bit numbers have the most significant byte first |
| Machine.Read32Injective | boost_io_context/ProtobufCodec.cpp:99-104 | two different four-byte images are never the same number |
| Machine.BigRead | boost_io_context/ProtobufCodec.cpp:99-104 | writing what was read gives the same four bytes |
| Buffers.Buffer.constructor | boost_io_context/Buffer.cpp:13-21 | an empty buffer with the prepend zone in front and the asked room behind |
| Buffers.Buffer.Swap | boost_io_context/Buffer.cpp:22-27 | exchanges arrays and both indexes |
| Buffers.Buffer.Retrieve | boost_io_context/Buffer.cpp:28-39 | drops exactly the first len bytes of the contents: the reader moves on, or, when nothing is left, both indexes rewind |
| Buffers.Buffer.RetrieveAll | boost_io_context/Buffer.cpp:46-50 | empties the contents and rewinds both indexes |
| Buffers.Buffer.RetrieveAsString | boost_io_context/Buffer.cpp:55-61 | splits the contents into the result and what stays |
| Buffers.Buffer.RetrieveAllAsString | boost_io_context/Buffer.cpp:51-54 | returns all contents and leaves none |
| Buffers.Buffer.MakeSpace | boost_io_context/Buffer.cpp:219-236 | grows or slides, and ends for every length as `GrowthFor` says: with the contents kept and the array no smaller, or by throwing with nothing changed, or in an assertion, or cut off in front of the writer |
| Buffers.Buffer.SlideDown | boost_io_context/Buffer.cpp:229-231 | the overlapping forward copy, element by element, moves the contents intact |
| Buffers.Buffer.EnsureWritableBytes | boost_io_context/Buffer.cpp:82-89 | for every length of a `size_t`: room and the same contents, nothing touched if there was room, a slide if that helps, else an array larger by exactly what is missing, and otherwise exactly which of the failures occurs |
| Buffers.Buffer.Resize | boost_io_context/Buffer.cpp:223 | throws beyond the largest vector size and else keeps what fits, in particular everything up to the writer if the new size covers it |
| Buffers.Buffer.Append | boost_io_context/Buffer.cpp:70-75 | contents followed by exactly the given bytes, across any growth or slide, if and only if a call for that room succeeds; a throw leaves the contents as they were |
| Buffers.Buffer.HasWritten | boost_io_context/Buffer.cpp:101-105 | the contents gain exactly the bytes stored behind the writer |
| Buffers.Buffer.Unwrite | boost_io_context/Buffer.cpp:107-111 | drops exactly the last len bytes |
| Buffers.Buffer.Prepend | boost_io_context/Buffer.cpp:191-197 | the given bytes followed by the contents |
| Buffers.Buffer.Shrink | boost_io_context/Buffer.cpp:199-205 | for every readable size and reserve: kept, cut to the size modulo 2^32, or failed with nothing changed, and exactly when each; kept if and only if the total fits and fewer than 2^31 bytes are readable; the new array is no larger than the total or a new buffer asks for |
| Buffers.Buffer.AppendInt32 | boost_io_context/Buffer.cpp:113-117 | appends the four bytes in network order if a call for that room succeeds |
| Buffers.Buffer.PeekInt32 | boost_io_context/Buffer.cpp:151-157 | the signed number at the front, contents untouched |
| Buffers.Buffer.ReadInt32 | boost_io_context/Buffer.cpp:130-135 | that number, its four bytes dropped |
| Buffers.Buffer.PrependInt32 | boost_io_context/Buffer.cpp:174-178 | the four bytes in network order in front of the contents |
| Buffers.WriteThenRead | boost_io_context/Buffer.cpp:113-172 | any list of signed 8, 16 and 32-bit values and byte strings, written and read back in order, comes back unchanged and leaves the buffer empty |
| Buffers.ReadItems | boost_io_context/Buffer.cpp:130-149 | reads of the right types return the values whose images stand at the front and leave what follows |
| Buffers.PrependThenRead | boost_io_context/Buffer.cpp:174-178 | a 32-bit number prepended and read again restores the contents |
| Buffers.RunOperations | boost_io_context/Buffer.cpp:28-236 | through any run of append, prepend, retrieve, unwrite, ensureWritableBytes and shrink the contents are what the same operations make of a plain byte sequence |
| Buffers.SlideAssertExact | boost_io_context/Buffer.cpp:219-227 | in wrapping `size_t` arithmetic, the assertion of the slide holds if and only if the length plus the prepend zone does not wrap, or the reader is behind the zone, or the array is grown all the same |
| Buffers.SlidesExact | boost_io_context/Buffer.cpp:219-223 | the wrapping comparison that chooses between growing and sliding, and the wrapping new size, in plain arithmetic |
| Buffers.ShrinkGrowth | boost_io_context/Buffer.cpp:199-204 | the two calls for room that a shrink makes, the second with an `int` length taken as a `size_t`, end so that the shrink ends as stated |
| Adler32.UpdateClosedForm | boost_io_context/ProtobufCodec.cpp:79 | the running checksum, reduced at every step, equals the plain and the position-weighted byte sums reduced once |
| Adler32.ChecksumSums | boost_io_context/ProtobufCodec.cpp:79 | the checksum is the weighted sum times 65536 plus one plus the plain sum, each reduced, as section 2.2 of RFC 1950 has it |
| Adler32.ChecksumsAgree | boost_io_context/ProtobufCodec.cpp:79-80 | two byte strings have the same checksum if and only if both sums agree modulo 65521 |
| Adler32.ByteChangeNoticed | boost_io_context/ProtobufCodec.cpp:79-80 | changing any one byte changes the checksum |
| Adler32.SwapNoticed | boost_io_context/ProtobufCodec.cpp:79-80 | swapping two unequal bytes leaves the checksum the same if and only if 65521 divides their distance |
| Adler32.NoSmallFactor | boost_io_context/ProtobufCodec.cpp:79 | 65521 divides a product with a number below 256 only if it divides the other factor |
| ProtobufCodec.Send | boost_io_context/ProtobufCodec.cpp:37-59 | the buffer filled step by step ends up as length, name length, name, NUL, payload and checksum |
| ProtobufCodec.FrameLayout | boost_io_context/ProtobufCodec.cpp:39-57 | a frame is, byte for byte, the length, the length of the name with its NUL, name, NUL, payload and the checksum of all but the length |
| ProtobufCodec.ParseExact | boost_io_context/ProtobufCodec.cpp:74-97 | a body parses to a message if and only if the type is known and not empty and the body is that message's encoding, up to the byte behind the name |
| ProtobufCodec.ParseSealed | boost_io_context/ProtobufCodec.cpp:74-97 | parsing a sent body gives back exactly its name and payload |
| ProtobufCodec.ByteCorruptionRefused | boost_io_context/ProtobufCodec.cpp:77-80 | one changed byte at any position of a body with a valid checksum, in the name length and the checksum too, is always refused |
| ProtobufCodec.SwapCorruptionRefused | boost_io_context/ProtobufCodec.cpp:77-80 | two adjacent unequal bytes swapped inside the checksummed part of a body with a valid checksum are always refused; at any distance the checksum tells exactly unless 65521 divides it |
| ProtobufCodec.SentByteCorruptionRefused | boost_io_context/ProtobufCodec.cpp:53-80 | the same for every body that `send` builds and every receiver, also of a type name that is empty or that this receiver does not know |
| ProtobufCodec.SentSwapCorruptionRefused | boost_io_context/ProtobufCodec.cpp:53-80 | and for two adjacent unequal bytes of such a body |
| ProtobufCodec.OnMessage | boost_io_context/ProtobufCodec.cpp:16-36 | the loop on the buffer delivers, leaves behind and ends as the pure decoder says |
| ProtobufCodec.SpinningExact | boost_io_context/ProtobufCodec.cpp:18-35 | the outcome by which `OnMessage` reports that it does not return is right: the loop is running after any number of passes exactly then |
| ProtobufCodec.NeverReturnsExactly | boost_io_context/ProtobufCodec.cpp:16-36 | for any buffer at all, the loop is never left if and only if its bytes are acceptable packets followed by at least fourteen bytes whose length field lies between 10 and 64 MiB and whose body is not all there or does not parse |
| ProtobufCodec.DecodeExact | boost_io_context/ProtobufCodec.cpp:16-36 | for any buffer at all, a call delivers exactly the acceptable packets at the front, in order, leaves a rest that begins with none, and waits, shuts down or spins according to the size and the length field of that rest |
| ProtobufCodec.DeliversExactly | boost_io_context/ProtobufCodec.cpp:20-33 | a pass of the loop delivers if and only if the bytes begin with the frame of a known, non-empty type that fits and carries its checksum |
| ProtobufCodec.DeliveredWerePackets | boost_io_context/ProtobufCodec.cpp:16-36 | whatever has been delivered stood at the front as whole packets, byte for byte |
| ProtobufCodec.DecodePackets | boost_io_context/ProtobufCodec.cpp:16-36 | acceptable packets at the front, with any byte behind the name, are delivered in order before the rest is decoded |
| ProtobufCodec.DecodeWire | boost_io_context/ProtobufCodec.cpp:16-59 | whole frames at the front are delivered in order, and decoding goes on with whatever follows |
| ProtobufCodec.WireDrained | boost_io_context/ProtobufCodec.cpp:16-59 | a buffer of whole frames is delivered in order and drained, and the call returns |
| ProtobufCodec.FrameFate | boost_io_context/ProtobufCodec.cpp:16-59 | a sent frame at the front, whatever follows it: delivered if and only if its type is known and not empty and its body fits; otherwise it spins, shuts the connection down, or, too short and with nothing behind it, waits |
| ProtobufCodec.CutFrame | boost_io_context/ProtobufCodec.cpp:18-35 | a frame cut anywhere waits below fourteen bytes and spins from there on |
| LengthHeaderCodec.OnMessage | boost_io_context/Codec.cpp:15-38 | the loop on the buffer terminates and delivers, leaves behind and shuts down as the pure decoder says |
| LengthHeaderCodec.DecodeExact | boost_io_context/Codec.cpp:15-38 | for any buffer at all, a call delivers exactly the bodies of 0 to 65536 bytes framed at its front, leaves a rest that begins with no frame the loop takes, and shuts the connection down if and only if that rest goes beyond a header whose number is below 0 or above 65536 |
| LengthHeaderCodec.TakesExactly | boost_io_context/Codec.cpp:17-31 | the loop takes a frame exactly if header and body stand in front, except a bare empty one with nothing behind |
| LengthHeaderCodec.TakeFrame | boost_io_context/Codec.cpp:26-32 | takes exactly the first frame off the buffer and returns its body |
| LengthHeaderCodec.DecodeContinues | boost_io_context/Codec.cpp:15-38 | bytes that arrive later continue the decoding where it stopped; after an invalid length nothing is ever delivered |
| LengthHeaderCodec.ChunkingIrrelevant | boost_io_context/Codec.cpp:15-38 | a stream cut into any pieces, decoded after each, gives the same messages, leftover and verdict as one call on the whole |
| LengthHeaderCodec.DecodeSettled | boost_io_context/Codec.cpp:15-38 | a second call without new bytes delivers nothing and changes nothing |
| LengthHeaderCodec.Receive | boost_io_context/Codec.cpp:15-38 | the same through a real buffer, append by append |
| LengthHeaderCodec.DecodeStream | boost_io_context/Codec.cpp:15-38 | a stream of length-prefixed bodies of at most 65536 bytes is delivered exactly and drained, except for an empty body at its very end |
| TcpConnections.SendKeepsInvExactly | boost_io_context/TcpConnection.cpp:96-110 | a send keeps the output protocol if and only if it is not empty, or the buffer is not, or it is dropped |
| TcpConnections.PostedSendKeepsInvExactly | boost_io_context/TcpConnection.cpp:73-110 | the append of a send that another thread has posted keeps the output protocol if and only if the send side is not shut down yet and no write of nothing is started |
| TcpConnections.EmptySendWritesTwice | boost_io_context/TcpConnection.cpp:104-109 | after an empty send on an empty buffer the next byte is handed to two writes |
| TcpConnections.CompletedKeepsInv | boost_io_context/TcpConnection.cpp:185-220 | a completed or failed write keeps the protocol: what it carried is what leaves the buffer, the rest is written next, or the awaited half-close follows |
| TcpConnections.Next | boost_io_context/TcpConnection.cpp:27-135 | every step keeps the protocol |
| TcpConnections.OutputProtocol | boost_io_context/TcpConnection.cpp:46-220 | over any run at most one write is outstanding, of bytes the buffer begins with; the bytes that completed writes carried, followed by the buffered ones, are the accepted ones in order; the send side is shut down at most once, with every accepted byte written and none accepted afterwards |
| TcpConnections.WireExact | boost_io_context/TcpConnection.cpp:46-220 | over any run, told from its steps: what completed writes carried, followed by the buffer, is the messages sent while connected, in order; while some are missing and no write has failed, one write carries the next ones; the send side is shut down only with nothing missing, and is so once nothing is, if it was asked to |
| TcpConnections.StepExact | boost_io_context/TcpConnection.cpp:27-220 | phase, bytes taken over, failure and shutdown request after a step, told from the step |
| TcpConnections.NothingAfterShutdown | boost_io_context/TcpConnection.cpp:112-125 | after the half-close no step accepts a byte or shuts down again |
| TcpConnections.TcpConnection.SendInThisThread | boost_io_context/TcpConnection.cpp:96-110 | in every phase but disconnected, the buffer gains exactly the message, and a write of everything readable starts exactly if the buffer was empty; without room nothing changes |
| TcpConnections.TcpConnection.Send | boost_io_context/TcpConnection.cpp:65-93 | if connected, the buffer gains exactly what an `int` length covers of the message, which is all of it below 2^31 bytes, exactly if a call for that room succeeds; else nothing changes |
| TcpConnections.TcpConnection.WriteCompleted | boost_io_context/TcpConnection.cpp:189-219 | performs the completion step |
| TcpConnections.TcpConnection.Shutdown | boost_io_context/TcpConnection.cpp:46-53 | performs the shutdown step: at once if drained, else left to the completion |
| TcpConnections.TcpConnection.ForceClose | boost_io_context/TcpConnection.cpp:56-63 | performs the first half of a forced close |
| TcpConnections.TcpConnection.HandleClose | boost_io_context/TcpConnection.cpp:127-135 | performs the closing step |
| TcpConnections.TcpConnection.ConnectEstablished | boost_io_context/TcpConnection.cpp:27-34 | performs the establishing step |
| ThreadPools.PushKeepsInv | boost_io_context/ThreadPool.cpp:56-57 | a push with its notification loses no wake-up of a worker nor of a producer |
| ThreadPools.PopKeepsInv | boost_io_context/ThreadPool.cpp:86-91 | dually for a pop |
| ThreadPools.NextKeepsInv | boost_io_context/ThreadPool.cpp:45-94 | every step of any thread, spurious wake-ups included, keeps bound, order and both wake-up conditions |
| ThreadPools.EveryRunKeepsInv | boost_io_context/ThreadPool.cpp:45-94 | for any threads and interleaving: while a worker sleeps un-notified, the queue is no longer than the notified workers are many, and dually for free slots and producers; the bound holds, and what was pushed is what was taken followed by what is queued |
| ThreadPools.NobodyStuck | boost_io_context/ThreadPool.cpp:45-94 | while a task is queued and a worker sleeps, some notified worker is on its way, and takes the first task; dually for producers |
| ThreadPools.StepMovesTasks | boost_io_context/ThreadPool.cpp:45-94 | the tasks that enter and leave the queue in a step, by its kind and what the queue holds |
| ThreadPools.StepMovesThreads | boost_io_context/ThreadPool.cpp:45-94 | where every thread is after a step: the acting one done, or asleep exactly if it could neither push nor pop; the notified ones called back with their tasks; all others where they were |
| ThreadPools.WorkerTakesOrSleeps | boost_io_context/ThreadPool.cpp:76-94 | a worker takes the first task, or sleeps exactly if the queue is empty, also when called back |
| ThreadPools.ProducerPushesOrSleeps | boost_io_context/ThreadPool.cpp:45-58 | a producer pushes its task, or sleeps with it exactly if the queue is full, also when called back |
| ThreadPools.EachTaskOnce | boost_io_context/ThreadPool.cpp:45-94 | over every run, any task has been handed to `post` exactly as often as it has been taken, is queued, or is still with a producer that sleeps or is on its way back: none is lost, doubled or replaced |
| ThreadPools.NextCounts | boost_io_context/ThreadPool.cpp:45-94 | each step changes the number of occurrences of a task in the pool only by what it posts |
| ThreadPools.ProducersKeepOrder | boost_io_context/ThreadPool.cpp:45-58 | over every run, the tasks a producer has pushed, followed by the one it is still waiting with, are the tasks it has posted, in order |
| ThreadPools.ThreadPool.Post | boost_io_context/ThreadPool.cpp:45-58 | performs the posting step up to the return or the first sleep, and throws, changing nothing, unless the pool is running |
| ThreadPools.ThreadPool.ResumePost | boost_io_context/ThreadPool.cpp:52-57 | performs the step after a wait: pushes if there is room, else sleeps again |
| ThreadPools.ThreadPool.Take | boost_io_context/ThreadPool.cpp:76-94 | performs the taking step: the first task, or none exactly if the worker sleeps |
| ThreadPools.ThreadPool.ResumeTake | boost_io_context/ThreadPool.cpp:79-93 | performs the step after a wait: the first task, or none exactly if the worker sleeps again |
| ThreadPools.ThreadPool.NotifyNotEmpty | boost_io_context/ThreadPool.cpp:57 | wakes exactly one sleeping worker if there is any |
| ThreadPools.ThreadPool.NotifyNotFull | boost_io_context/ThreadPool.cpp:90 | wakes exactly one sleeping producer if there is any, with its task |
| Reconnects.NextKeepsInv | boost_io_context/Connector.cpp:26-172 | every step keeps at most one of attempt, retry timer and connection, and meets the source's assertions |
| Reconnects.ConnectExact | boost_io_context/TcpClient.cpp:58-63 | a call of connect keeps that, and meets the assertion, if and only if nothing is under way and the phase is the initial one |
| Reconnects.SecondConnectDoubles | boost_io_context/Connector.cpp:26-30 | a second call while an attempt is in flight puts two in flight |
| Reconnects.SingleToken | boost_io_context/Connector.cpp:26-45 | in every run there is at most one of attempt, retry timer and live connection, no assertion fails, and the k-th retry since the last restart, or since the beginning if there was none, waits min(1000 * 2^k, 30000) ms; a connect after a stop goes on with the delay reached before |
| Reconnects.CourseExact | boost_io_context/Connector.cpp:26-172 | over every run, told from the steps: whether the client rests, attempts, waits for how long, or holds a connection, with the flags and the phase of the connector, and the delay by the retries counted since the last restart |
| Reconnects.FailureRetried | boost_io_context/Connector.cpp:69-78 | an attempt that is refused or finds a socket error while a connection is wanted sets exactly one retry timer, of min(1000 * 2^k, 30000) ms after k retries since the last restart |
| Reconnects.KeepsAtIt | boost_io_context/Connector.cpp:52-129 | from one token on there is exactly one of attempt, timer and connection until a stop, an error beyond retry or a closing that is not replaced |
| Reconnects.ConnectStarts | boost_io_context/TcpClient.cpp:58-128 | a connect, and a closing that is replaced, put exactly one attempt in flight |
| Reconnects.RunKeepsInv | boost_io_context/Connector.cpp:101-172 | the invariant and all assertions over every run |
| Reconnects.ConnectionPossible | boost_io_context/TcpClient.cpp:58-128 | without a further connect some run makes another connection if and only if one is wanted and an attempt or retry is under way, or there is a live one that the client would replace |
| Reconnects.StoppedForGood | boost_io_context/TcpClient.cpp:65-81 | after stop no run makes another connection until the next connect; after disconnect some run still makes one if and only if an attempt or retry of a wanted connection is under way |
| Reconnects.Connector.StartInThisThread | boost_io_context/Connector.cpp:117-129 | one more attempt exactly if a connection is wanted; its assertion is its precondition |
| Reconnects.Connector.RetryLater | boost_io_context/Connector.cpp:101-115 | a timer with the current delay and the next delay doubled up to the cap, only if wanted |
| Reconnects.TcpClient.Connect | boost_io_context/TcpClient.cpp:58-63 | performs the connecting step wherever the source's assertion holds, also while something is under way |
| Reconnects.TcpClient.Stop | boost_io_context/TcpClient.cpp:77-81 | performs the stopping step |
| Reconnects.TcpClient.AttemptCompleted | boost_io_context/Connector.cpp:56-98 | performs the end of an attempt, in all of its outcomes, whose courses `CourseExact` tells |
| Reconnects.TcpClient.NewConnection | boost_io_context/TcpClient.cpp:94-109 | holds the new connection, under a number of its own |
| Reconnects.TcpClient.TimerExpired | boost_io_context/Connector.cpp:117-129 | performs the expiry of a retry timer |
| Reconnects.TcpClient.RemoveConnection | boost_io_context/TcpClient.cpp:111-128 | performs the closing of the held connection, and restarts if retry is enabled and a connection wanted |

## Left out

- Buffers.Buffer.EnsureWritableBytes: memory running out below the largest vector size is not modelled; a failing assertion is an outcome, as in a build that checks assertions.
- TcpConnections.TcpConnection.Send: on the loop thread; from another thread the source posts the append, whose effect `PostedSendKeepsInvExactly` gives, but posted sends are no steps of the runs.
- TimerWheels.TimerWheel.constructor: at least one slot and fewer than 2^31, since the cursor overflows with more (`CursorFits`) and an add to a wheel without slots divides by zero.
- TcpConnections.TcpConnection.HandleClose: the reader's errors that lead to it are steps of the environment, and the second close that can follow a forced close is not modelled.
- TimerQueues.TimerQueue.BeginPass: one monotone clock stands for both the system clock and the steady clock of the source; the expiry handler is cut into a beginning, its callbacks and an end.
- TimerWheels.TimerWheel.Tick: the callback, its weak-pointer tie and whether there is one are not modelled, and callbacks do not re-enter the wheel (its mutex would be held); the copy of the unlinking code in the tick and the one in the cancel are one method.
- ProtobufCodec.OnMessage: an endless loop cannot be written down, so the method returns an outcome in its place, which `SpinningExact` and `NeverReturnsExactly` justify; a callback that changes the buffer itself is not modelled.
- ProtobufCodec.Send: serialisation is an opaque byte string, and the outcome of parsing the payload is ignored, as the source ignores it; bodies of 2^31 bytes and more are out.
- ThreadPools.ThreadPool.ResumePost: only while the pool is running; `stop`, `postFuture`, thread creation and joining are not modelled, and a negative maximum counts as none.
- ThreadPools.ThreadPool.Take: only while the pool is running, for the same reason.
- ThreadPools.ThreadPool.ResumeTake: only while the pool is running, for the same reason.
- Timestamps, sequence numbers and connection numbers are unbounded; a repeat interval is given in whole microseconds, not in floating-point seconds.
- Sockets, accept and connect system calls, asio's scheduling, logging and the formatting of connection names.
- The pointer stability of memory handed to asynchronous reads and writes; a write captures its bytes at the call.
- `TcpConnection::readHeader` and `readBody`, which store into the input buffer behind its interface.
- Destructors of the wheel, the timer queue and the client; the sequence number of a `CancelId`, which the source never compares.
- `LengthHeaderCodec::send`, whose body is commented out in the source.
- zlib and protobuf themselves; Adler-32 is taken from its definition in RFC 1950.
- `retrieveUntil`, the 8 and 16-bit prepends and `internalCapacity` of the buffer, `TcpServer`, `IOLoopThreadPool`, `Thread`, `IOTimer`, `Dispatcher`, `CountDownLatch` and `Singleton`: easy members or wrappers.
