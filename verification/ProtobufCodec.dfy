/**
 Framing of typed messages: a length, then a body made of the type name, the serialised payload and an
 Adler-32 checksum.  A payload is an opaque byte string, and a type is known when its name is in a set.
 */
module ProtobufCodec {
  import opened Machine
  import opened Wrappers
  import opened Buffers
  import Adler32

  type Name = seq<byte>

  datatype Message = Message(typeName: Name, payload: seq<byte>)

  const HEADER_LEN := 4
  const MIN_MESSAGE_LEN := 2 * HEADER_LEN + 2
  const MAX_MESSAGE_LEN := 64 * 1024 * 1024

  // ------------------------------------------------------------------ encoder

  /** The checksummed part of a body; `send` writes a NUL behind the name. */
  function Covered(m: Message, terminator: byte): seq<byte> {
    Big32(|m.typeName| + 1) + m.typeName + [terminator] + m.payload
  }

  function Sealed(covered: seq<byte>): seq<byte> {
    covered + Big32(ToInt32(Adler32.Checksum(covered)))
  }

  function Body(m: Message): (body: seq<byte>)
    ensures |body| == |m.typeName| + 1 + |m.payload| + 2 * HEADER_LEN
  {
    Sealed(Covered(m, 0))
  }

  function Frame(m: Message): seq<byte> {
    Big32(|Body(m)|) + Body(m)
  }

  /** Byte by byte: length, length of the name with its NUL, name, NUL, payload, checksum of all but the length. */
  lemma FrameLayout(m: Message)
    ensures var covered := Big32(|m.typeName| + 1) + m.typeName + [0] + m.payload;
      Frame(m) == Big32(|covered| + 4) + covered + Big32(ToInt32(Adler32.Checksum(covered)))
  {
    var covered := Big32(|m.typeName| + 1) + m.typeName + [0] + m.payload;
    Regroup(Big32(|covered| + 4), covered, Big32(ToInt32(Adler32.Checksum(covered))));
  }

  lemma Regroup(a: seq<byte>, b: seq<byte>, c: seq<byte>)
    ensures a + b + c == a + (b + c)
  {
  }

  /** Builds the frame step by step in a fresh buffer; the length goes in front last. */
  method Send(m: Message) returns (wire: seq<byte>)
    requires |Body(m)| < TWO_31
    ensures wire == Frame(m)
  {
    var buff := new Buffer();
    WriteCovered(buff, m);
    Seal(buff);
    assert buff.ReadableBytes() == HEADER_LEN + (|m.typeName| + 1) + |m.payload| + HEADER_LEN;
    buff.Prepend(Big32(buff.ReadableBytes()));
    wire := buff.RetrieveAllAsString();
  }

  method Seal(buff: Buffer)
    requires buff.Valid() && buff.writerIndex + HEADER_LEN <= MAX_SIZE && buff.readerIndex == CHEAP_PREPEND
    modifies buff, buff.data
    ensures buff.Valid() && (buff.data == old(buff.data) || fresh(buff.data))
    ensures buff.Contents() == Sealed(old(buff.Contents())) && buff.readerIndex == CHEAP_PREPEND
  {
    var checked := buff.Peek(buff.ReadableBytes());
    assert checked == buff.Contents();
    var _ := buff.AppendInt32(ToInt32(Adler32.Checksum(checked)));
  }

  method WriteCovered(buff: Buffer, m: Message)
    requires buff.Valid() && buff.Contents() == [] && buff.readerIndex == buff.writerIndex == CHEAP_PREPEND
    requires |Body(m)| < TWO_31
    modifies buff, buff.data
    ensures buff.Valid() && (buff.data == old(buff.data) || fresh(buff.data))
    ensures buff.Contents() == Covered(m, 0) && buff.readerIndex == CHEAP_PREPEND
    ensures buff.writerIndex < TWO_32
  {
    WriteName(buff, m.typeName);
    WritePayload(buff, m.payload);
  }

  /** The length of the name with its terminator, the name, the terminator. */
  method WriteName(buff: Buffer, typeName: Name)
    requires buff.Valid() && buff.Contents() == [] && buff.readerIndex == buff.writerIndex == CHEAP_PREPEND
    requires |typeName| < TWO_31 - 1
    modifies buff, buff.data
    ensures buff.Valid() && (buff.data == old(buff.data) || fresh(buff.data))
    ensures buff.Contents() == Big32(|typeName| + 1) + typeName + [0] && buff.readerIndex == CHEAP_PREPEND
    ensures buff.writerIndex == CHEAP_PREPEND + HEADER_LEN + |typeName| + 1
  {
    var nameLen := |typeName| + 1;
    var _ := buff.AppendInt32(nameLen);
    var _ := buff.Append(typeName + [0]);
    Regroup(Big32(nameLen), typeName, [0]);
  }

  /** The payload is serialised straight into the room behind the writer. */
  method WritePayload(buff: Buffer, payload: seq<byte>)
    requires buff.Valid() && buff.writerIndex + |payload| <= MAX_SIZE && buff.readerIndex == CHEAP_PREPEND
    modifies buff, buff.data
    ensures buff.Valid() && (buff.data == old(buff.data) || fresh(buff.data))
    ensures buff.Contents() == old(buff.Contents()) + payload && buff.readerIndex == CHEAP_PREPEND
  {
    var byteSize := |payload|;
    var _ := buff.EnsureWritableBytes(byteSize);
    buff.WriteRaw(payload);
    buff.HasWritten(byteSize);
  }

  // ------------------------------------------------------------------ parser

  predicate ChecksumHolds(body: seq<byte>)
    requires |body| >= HEADER_LEN
  {
    ToInt32(Adler32.Checksum(body[..|body| - HEADER_LEN])) == Read32(body[|body| - HEADER_LEN..])
  }

  function Parse(body: seq<byte>, known: set<Name>): Option<Message>
    requires |body| >= MIN_MESSAGE_LEN
  {
    var len := |body|;
    if !ChecksumHolds(body) then None
    else
      var nameLen := Read32(body);
      if 2 <= nameLen <= len - 2 * HEADER_LEN then
        var typeName := body[HEADER_LEN..HEADER_LEN + nameLen - 1];
        if typeName in known then Some(Message(typeName, body[HEADER_LEN + nameLen..len - HEADER_LEN])) else None
      else None
  }

  lemma SealHolds(covered: seq<byte>)
    ensures ChecksumHolds(Sealed(covered))
  {
    var c := ToInt32(Adler32.Checksum(covered));
    var body := Sealed(covered);
    assert body[..|body| - HEADER_LEN] == covered;
    assert body[|body| - HEADER_LEN..] == Big32(c) + [];
    ReadBig32(c, []);
  }

  lemma HoldsIsSealed(body: seq<byte>)
    requires |body| >= HEADER_LEN && ChecksumHolds(body)
    ensures body == Sealed(body[..|body| - HEADER_LEN])
  {
    BigRead(body[|body| - HEADER_LEN..]);
  }

  /**
   Parsing is the exact inverse of the body format: a body yields a message just when it is that
   message's body, up to the byte behind the name, which the parser does not look at.
   */
  lemma ParseExact(body: seq<byte>, known: set<Name>, m: Message)
    requires MIN_MESSAGE_LEN <= |body| < TWO_31
    ensures Parse(body, known) == Some(m) <==>
            m.typeName in known && m.typeName != [] && exists t: byte :: body == Sealed(Covered(m, t))
  {
    if Parse(body, known) == Some(m) {
      ParsedIsSealed(body, known, m);
    }
    if m.typeName in known && m.typeName != [] && exists t: byte :: body == Sealed(Covered(m, t)) {
      var t: byte :| body == Sealed(Covered(m, t));
      ParseSealed(m, t, known);
    }
  }

  lemma ParsedIsSealed(body: seq<byte>, known: set<Name>, m: Message)
    requires MIN_MESSAGE_LEN <= |body| < TWO_31 && Parse(body, known) == Some(m)
    ensures m.typeName in known && m.typeName != [] && exists t: byte :: body == Sealed(Covered(m, t))
  {
    var covered := body[..|body| - HEADER_LEN];
    var end := HEADER_LEN + Read32(body);
    assert covered[..HEADER_LEN] == body[..HEADER_LEN];
    assert covered[HEADER_LEN..end - 1] == body[HEADER_LEN..end - 1] &&
      covered[end..] == body[end..|body| - HEADER_LEN];
    SplitCovered(covered, m);
    HoldsIsSealed(body);
  }

  lemma SplitCovered(covered: seq<byte>, m: Message)
    requires HEADER_LEN <= |covered| && 2 <= Read32(covered[..HEADER_LEN]) <= |covered| - HEADER_LEN
    requires var end := HEADER_LEN + Read32(covered[..HEADER_LEN]);
      m.typeName == covered[HEADER_LEN..end - 1] && m.payload == covered[end..]
    ensures exists t: byte :: covered == Covered(m, t)
  {
    hide Read32, Big32;
    var end := HEADER_LEN + Read32(covered[..HEADER_LEN]);
    BigRead(covered[..HEADER_LEN]);
    assert covered == covered[..HEADER_LEN] + m.typeName + [covered[end - 1]] + m.payload;
    assert covered == Covered(m, covered[end - 1]);
  }

  lemma ParseSealed(m: Message, t: byte, known: set<Name>)
    requires m.typeName != [] && |Sealed(Covered(m, t))| < TWO_31
    ensures Parse(Sealed(Covered(m, t)), known) == if m.typeName in known then Some(m) else None
  {
    var body := Sealed(Covered(m, t));
    SealHolds(Covered(m, t));
    var nameLen := |m.typeName| + 1;
    var seal := Big32(ToInt32(Adler32.Checksum(Covered(m, t))));
    assert body == Big32(nameLen) + (m.typeName + [t] + m.payload + seal);
    ReadBig32(nameLen, m.typeName + [t] + m.payload + seal);
    assert body[HEADER_LEN..HEADER_LEN + nameLen - 1] == m.typeName;
    assert body[HEADER_LEN + nameLen..|body| - HEADER_LEN] == m.payload;
  }

  // ------------------------------------------------------------------ corruption

  lemma ChecksumFitsInt32(s: seq<byte>, t: seq<byte>)
    requires Adler32.Checksum(s) != Adler32.Checksum(t)
    ensures ToInt32(Adler32.Checksum(s)) != ToInt32(Adler32.Checksum(t))
  {
    Adler32.ChecksumsAgree(s, t);
    Adler32.ChecksumsAgree(t, s);
  }

  /** A seal is broken by any change of either side that the checksum or the number tells. */
  lemma SealBroken(s: seq<byte>, t: seq<byte>, c: seq<byte>, d: seq<byte>)
    requires |c| == |d| == HEADER_LEN && ToInt32(Adler32.Checksum(s)) == Read32(c)
    requires (Adler32.Checksum(s) != Adler32.Checksum(t) && c == d) || (s == t && c != d)
    ensures ToInt32(Adler32.Checksum(t)) != Read32(d)
  {
    if c == d {
      ChecksumFitsInt32(s, t);
    } else if Read32(c) == Read32(d) {
      Read32Injective(c, d);
      assert false;
    }
  }

  lemma BrokenSealRefused(body: seq<byte>, known: set<Name>)
    requires |body| >= MIN_MESSAGE_LEN && !ChecksumHolds(body)
    ensures Parse(body, known) == None
  {
  }

  /** One changed byte anywhere in a sealed body, the checksum itself included, is always refused. */
  lemma ByteCorruptionRefused(body: seq<byte>, i: nat, x: byte, known: set<Name>)
    requires |body| >= MIN_MESSAGE_LEN && i < |body| && x != body[i]
    ensures ChecksumHolds(body) ==> Parse(body[i := x], known) == None
  {
    hide Read32, ToInt32, Adler32.Checksum, Parse;
    if ChecksumHolds(body) {
      var n := |body| - HEADER_LEN;
      ByteChangeSplits(body, i, x);
      if i < n {
        Adler32.ByteChangeNoticed(body[..n], i, x);
      }
      SealBroken(body[..n], body[i := x][..n], body[n..], body[i := x][n..]);
      BrokenSealRefused(body[i := x], known);
    }
  }

  lemma ByteChangeSplits(body: seq<byte>, i: nat, x: byte)
    requires |body| >= HEADER_LEN && i < |body| && x != body[i]
    ensures var n := |body| - HEADER_LEN;
      if i < n then body[i := x][..n] == body[..n][i := x] && body[i := x][n..] == body[n..]
      else body[i := x][..n] == body[..n] && body[i := x][n..] != body[n..]
  {
    var n := |body| - HEADER_LEN;
    if i >= n {
      assert body[i := x][n..][i - n] == x && body[n..][i - n] == body[i];
    }
  }

  /** Two swapped unequal bytes of the checksummed part are refused exactly unless 65521 divides their distance. */
  lemma SwapCorruptionRefused(body: seq<byte>, i: nat, j: nat, known: set<Name>)
    requires |body| >= MIN_MESSAGE_LEN && i < j < |body| - HEADER_LEN && body[i] != body[j]
    ensures ChecksumHolds(body) ==>
      (ChecksumHolds(Adler32.SwapBytes(body, i, j)) <==> (j - i) % Adler32.BASE == 0)
    ensures ChecksumHolds(body) && j == i + 1 ==> Parse(Adler32.SwapBytes(body, i, j), known) == None
  {
    hide Read32, ToInt32, Adler32.Checksum, Adler32.SwapBytes, Parse;
    if ChecksumHolds(body) {
      var n, bad := |body| - HEADER_LEN, Adler32.SwapBytes(body, i, j);
      SwapSplits(body, i, j);
      Adler32.SwapNoticed(body[..n], i, j);
      if (j - i) % Adler32.BASE != 0 {
        SealBroken(body[..n], bad[..n], body[n..], bad[n..]);
        BrokenSealRefused(bad, known);
      }
    }
  }

  lemma SwapSplits(body: seq<byte>, i: nat, j: nat)
    requires i < j < |body| - HEADER_LEN
    ensures var n, bad := |body| - HEADER_LEN, Adler32.SwapBytes(body, i, j);
      |bad| == |body| && bad[..n] == Adler32.SwapBytes(body[..n], i, j) && bad[n..] == body[n..]
  {
  }

  /** So no receiver, whatever types it knows, takes a body that was sent and then damaged in one byte. */
  lemma SentByteCorruptionRefused(m: Message, i: nat, x: byte, known: set<Name>)
    requires |Body(m)| >= MIN_MESSAGE_LEN && i < |Body(m)| && x != Body(m)[i]
    ensures Parse(Body(m)[i := x], known) == None
  {
    SealHolds(Covered(m, 0));
    ByteCorruptionRefused(Body(m), i, x, known);
  }

  /** Nor one in which two adjacent unequal bytes before the checksum have changed places. */
  lemma SentSwapCorruptionRefused(m: Message, i: nat, known: set<Name>)
    requires |Body(m)| >= MIN_MESSAGE_LEN && i + 1 < |Body(m)| - HEADER_LEN && Body(m)[i] != Body(m)[i + 1]
    ensures Parse(Adler32.SwapBytes(Body(m), i, i + 1), known) == None
  {
    SealHolds(Covered(m, 0));
    SwapCorruptionRefused(Body(m), i, i + 1, known);
  }

  // ------------------------------------------------------------------ frame loop

  /** One pass of the loop of `onMessage`, test included. */
  datatype Pass = Exit | ShutDown | Deliver(message: Message, rest: seq<byte>) | Unchanged

  function OnePass(bytes: seq<byte>, known: set<Name>): (p: Pass)
    ensures p.Deliver? ==> |p.rest| < |bytes|
  {
    if |bytes| < MIN_MESSAGE_LEN + HEADER_LEN then Exit
    else
      var bodyLen := Read32(bytes);
      if bodyLen > MAX_MESSAGE_LEN || bodyLen < MIN_MESSAGE_LEN then ShutDown
      else if |bytes| >= bodyLen + HEADER_LEN then
        match Parse(bytes[HEADER_LEN..HEADER_LEN + bodyLen], known)
        case Some(m) => Deliver(m, bytes[HEADER_LEN + bodyLen..])
        case None => Unchanged
      else Unchanged
  }

  /** How a call ends, if it does: `Spinning` stands for a loop that is never left. */
  datatype Outcome = Waiting | Closed | Spinning

  datatype Result = Result(delivered: seq<Message>, rest: seq<byte>, outcome: Outcome)

  function Before(m: seq<Message>, r: Result): Result {
    r.(delivered := m + r.delivered)
  }

  function Decode(bytes: seq<byte>, known: set<Name>): Result
    decreases |bytes|
  {
    match OnePass(bytes, known)
    case Exit => Result([], bytes, Waiting)
    case ShutDown => Result([], bytes, Closed)
    case Deliver(m, rest) => Before([m], Decode(rest, known))
    case Unchanged => Result([], bytes, Spinning)
  }

  lemma BeforeBefore(m: seq<Message>, n: seq<Message>, r: Result)
    ensures Before(m, Before(n, r)) == Before(m + n, r)
  {
  }

  lemma DecodeFirst(bytes: seq<byte>, known: set<Name>)
    ensures var p := OnePass(bytes, known);
      p.Deliver? ==> Decode(bytes, known) == Before([p.message], Decode(p.rest, known))
  {
  }

  lemma DecodeStops(bytes: seq<byte>, known: set<Name>)
    ensures match OnePass(bytes, known)
      case Exit => Decode(bytes, known) == Result([], bytes, Waiting)
      case ShutDown => Decode(bytes, known) == Result([], bytes, Closed)
      case Deliver(_, _) => true
      case Unchanged => Decode(bytes, known) == Result([], bytes, Spinning)
    ensures |bytes| < MIN_MESSAGE_LEN + HEADER_LEN ==> OnePass(bytes, known) == Exit
  {
    hide Read32, Parse;
  }

  lemma DecodeAfter(delivered: seq<Message>, bytes: seq<byte>, m: Message, rest: seq<byte>, known: set<Name>)
    requires OnePass(bytes, known) == Deliver(m, rest)
    ensures Before(delivered + [m], Decode(rest, known)) == Before(delivered, Decode(bytes, known))
  {
    DecodeFirst(bytes, known);
    BeforeBefore(delivered, [m], Decode(rest, known));
  }

  /** The branch with a whole frame at the front: it is retrieved when its body parses, and not otherwise. */
  method TakeFrame(buf: Buffer, bodyLen: int, known: set<Name>) returns (message: Option<Message>)
    requires buf.Valid() && buf.ReadableBytes() >= MIN_MESSAGE_LEN + HEADER_LEN && bodyLen == Read32(buf.Contents())
    requires MIN_MESSAGE_LEN <= bodyLen <= MAX_MESSAGE_LEN && buf.ReadableBytes() >= bodyLen + HEADER_LEN
    modifies buf`readerIndex, buf`writerIndex
    ensures buf.Valid()
    ensures OnePass(old(buf.Contents()), known) ==
      if message.Some? then Deliver(message.value, buf.Contents()) else Unchanged
    ensures message.None? ==> buf.Contents() == old(buf.Contents())
  {
    hide Read32, Parse;
    ghost var bytes := buf.Contents();
    var frame := buf.Peek(HEADER_LEN + bodyLen);
    var body := frame[HEADER_LEN..];
    assert body == bytes[HEADER_LEN..HEADER_LEN + bodyLen];
    message := Parse(body, known);
    if message.Some? {
      buf.Retrieve(bodyLen + HEADER_LEN);
    }
  }

  /** One pass: the message delivered, or else whether the connection is shut down. */
  method LoopBody(buf: Buffer, known: set<Name>) returns (message: Option<Message>, shutdown: bool)
    requires buf.Valid() && buf.ReadableBytes() >= MIN_MESSAGE_LEN + HEADER_LEN
    modifies buf`readerIndex, buf`writerIndex
    ensures buf.Valid()
    ensures OnePass(old(buf.Contents()), known) ==
      if message.Some? then Deliver(message.value, buf.Contents()) else if shutdown then ShutDown else Unchanged
    ensures message.None? ==> buf.Contents() == old(buf.Contents())
  {
    message, shutdown := None, false;
    var bodyLen := buf.PeekInt32();
    if bodyLen > MAX_MESSAGE_LEN || bodyLen < MIN_MESSAGE_LEN {
      shutdown := true;
    } else if buf.ReadableBytes() >= bodyLen + HEADER_LEN {
      message := TakeFrame(buf, bodyLen, known);
    }
  }

  method OnMessage(buf: Buffer, known: set<Name>) returns (delivered: seq<Message>, outcome: Outcome)
    requires buf.Valid()
    modifies buf`readerIndex, buf`writerIndex
    ensures buf.Valid()
    ensures Result(delivered, buf.Contents(), outcome) == Decode(old(buf.Contents()), known)
  {
    hide OnePass, Decode;
    delivered := [];
    while buf.ReadableBytes() >= MIN_MESSAGE_LEN + HEADER_LEN
      invariant buf.Valid()
      invariant Before(delivered, Decode(buf.Contents(), known)) == Decode(old(buf.Contents()), known)
      decreases buf.ReadableBytes()
    {
      ghost var bytes := buf.Contents();
      var message, shutdown := LoopBody(buf, known);
      if message.None? {
        DecodeStops(bytes, known);
        return delivered, if shutdown then Closed else Spinning;
      }
      DecodeAfter(delivered, bytes, message.value, buf.Contents(), known);
      delivered := delivered + [message.value];
    }
    DecodeStops(buf.Contents(), known);
    outcome := Waiting;
  }

  /** Whether the loop is still running after k passes. */
  predicate StillRunning(k: nat, bytes: seq<byte>, known: set<Name>) {
    k == 0 ||
    match OnePass(bytes, known)
    case Exit => false
    case ShutDown => false
    case Deliver(_, rest) => StillRunning(k - 1, rest, known)
    case Unchanged => StillRunning(k - 1, bytes, known)
  }

  /** `Spinning` means what it says: the loop is then running after any number of passes, and only then. */
  lemma SpinningExact(bytes: seq<byte>, known: set<Name>)
    ensures Decode(bytes, known).outcome.Spinning? <==> forall k: nat :: StillRunning(k, bytes, known)
  {
    if Decode(bytes, known).outcome.Spinning? {
      forall k: nat
        ensures StillRunning(k, bytes, known)
      {
        SpinsOn(k, bytes, known);
      }
    } else {
      Stops(bytes, known);
    }
  }

  lemma {:induction false} SpinsOn(k: nat, bytes: seq<byte>, known: set<Name>)
    requires Decode(bytes, known).outcome.Spinning?
    ensures StillRunning(k, bytes, known)
  {
    if k > 0 {
      var p := OnePass(bytes, known);
      SpinsOn(k - 1, if p.Deliver? then p.rest else bytes, known);
    }
  }

  lemma {:induction false} Stops(bytes: seq<byte>, known: set<Name>)
    requires !Decode(bytes, known).outcome.Spinning?
    ensures !StillRunning(|Decode(bytes, known).delivered| + 1, bytes, known)
    decreases |bytes|
  {
    var p := OnePass(bytes, known);
    if p.Deliver? {
      Stops(p.rest, known);
    }
  }

  // ------------------------------------------------------------------ frames on the wire

  predicate Sendable(m: Message, known: set<Name>) {
    m.typeName in known && m.typeName != [] && |Body(m)| <= MAX_MESSAGE_LEN
  }

  /** A message as the receiver accepts it, with any byte behind its name. */
  datatype Packet = Packet(message: Message, terminator: byte)

  function PacketFrame(p: Packet): seq<byte> {
    Big32(|Body(p.message)|) + Sealed(Covered(p.message, p.terminator))
  }

  function Packets(ps: seq<Packet>): seq<byte> {
    if ps == [] then [] else PacketFrame(ps[0]) + Packets(ps[1..])
  }

  function MessagesOf(ps: seq<Packet>): seq<Message> {
    if ps == [] then [] else [ps[0].message] + MessagesOf(ps[1..])
  }

  predicate AllSendable(ps: seq<Packet>, known: set<Name>) {
    forall i :: 0 <= i < |ps| ==> Sendable(ps[i].message, known)
  }

  lemma PacketFirst(p: Packet, tail: seq<byte>, known: set<Name>)
    requires Sendable(p.message, known)
    ensures OnePass(PacketFrame(p) + tail, known) == Deliver(p.message, tail)
  {
    var bytes, body := PacketFrame(p) + tail, Sealed(Covered(p.message, p.terminator));
    var n := |body|;
    assert n == |Body(p.message)|;
    assert bytes == Big32(n) + (body + tail);
    ReadBig32(n, body + tail);
    assert bytes[HEADER_LEN..HEADER_LEN + n] == body;
    assert bytes[HEADER_LEN + n..] == tail;
    ParseSealed(p.message, p.terminator, known);
  }

  lemma HeaderRead(bytes: seq<byte>)
    requires |bytes| >= HEADER_LEN
    ensures bytes[..HEADER_LEN] == Big32(Read32(bytes))
  {
    BigRead(bytes[..HEADER_LEN]);
  }

  lemma CutInThree(bytes: seq<byte>, i: nat, j: nat)
    requires i <= j <= |bytes|
    ensures bytes == bytes[..i] + bytes[i..j] + bytes[j..]
  {
  }

  /** And only the frame of such a packet makes the loop deliver. */
  lemma DeliveredIsPacket(bytes: seq<byte>, known: set<Name>) returns (p: Packet)
    requires OnePass(bytes, known).Deliver?
    ensures p.message == OnePass(bytes, known).message && Sendable(p.message, known)
    ensures bytes == PacketFrame(p) + OnePass(bytes, known).rest
  {
    var end := HEADER_LEN + Read32(bytes);
    p := ParsedPacket(bytes[HEADER_LEN..end], known);
    HeaderRead(bytes);
    CutInThree(bytes, HEADER_LEN, end);
  }

  lemma ParsedPacket(body: seq<byte>, known: set<Name>) returns (p: Packet)
    requires MIN_MESSAGE_LEN <= |body| < TWO_31 && Parse(body, known).Some?
    ensures p.message == Parse(body, known).value && p.message.typeName in known && p.message.typeName != []
    ensures body == Sealed(Covered(p.message, p.terminator)) && |body| == |Body(p.message)|
  {
    var m := Parse(body, known).value;
    ParsedIsSealed(body, known, m);
    var t: byte :| body == Sealed(Covered(m, t));
    p := Packet(m, t);
  }

  /** Whole packets are delivered in order, and then the loop goes on with what follows them. */
  lemma {:induction false} DecodePackets(ps: seq<Packet>, tail: seq<byte>, known: set<Name>)
    requires AllSendable(ps, known)
    ensures Decode(Packets(ps) + tail, known) == Before(MessagesOf(ps), Decode(tail, known))
  {
    if ps == [] {
      assert Packets(ps) + tail == tail;
    } else {
      var later := Packets(ps[1..]) + tail;
      Regroup(PacketFrame(ps[0]), Packets(ps[1..]), tail);
      PacketFirst(ps[0], later, known);
      DecodeFirst(PacketFrame(ps[0]) + later, known);
      DecodePackets(ps[1..], tail, known);
      BeforeBefore([ps[0].message], MessagesOf(ps[1..]), Decode(tail, known));
    }
  }

  /** Packets and a rest, with the messages delivered before it. */
  predicate Accounts(ps: seq<Packet>, bytes: seq<byte>, known: set<Name>, delivered: seq<Message>, rest: seq<byte>) {
    AllSendable(ps, known) && MessagesOf(ps) == delivered && bytes == Packets(ps) + rest
  }

  lemma AccountsPreceded(p: Packet, ps: seq<Packet>, bytes: seq<byte>, known: set<Name>, delivered: seq<Message>,
                         rest: seq<byte>)
    requires Sendable(p.message, known) && Accounts(ps, bytes, known, delivered, rest)
    ensures Accounts([p] + ps, PacketFrame(p) + bytes, known, [p.message] + delivered, rest)
  {
    assert ([p] + ps)[1..] == ps;
    Regroup(PacketFrame(p), Packets(ps), rest);
  }

  /** Whatever the loop has delivered stood at the front as whole packets. */
  lemma {:induction false} DeliveredWerePackets(bytes: seq<byte>, known: set<Name>) returns (ps: seq<Packet>)
    ensures Accounts(ps, bytes, known, Decode(bytes, known).delivered, Decode(bytes, known).rest)
    decreases |bytes|
  {
    if OnePass(bytes, known).Deliver? {
      var rest := OnePass(bytes, known).rest;
      var p := DeliveredIsPacket(bytes, known);
      ps := DeliveredWerePackets(rest, known);
      AccountsPreceded(p, ps, rest, known, Decode(rest, known).delivered, Decode(rest, known).rest);
      DecodeFirst(bytes, known);
      ps := [p] + ps;
    } else {
      ps := [];
      assert bytes == [] + bytes;
    }
  }

  /** How the loop ends on bytes that begin with no packet it accepts. */
  function EndOn(rest: seq<byte>): Outcome {
    if |rest| < MIN_MESSAGE_LEN + HEADER_LEN then Waiting
    else if MIN_MESSAGE_LEN <= Read32(rest) <= MAX_MESSAGE_LEN then Spinning
    else Closed
  }

  ghost predicate StartsWithPacket(bytes: seq<byte>, known: set<Name>) {
    exists p: Packet :: Sendable(p.message, known) && PacketFrame(p) <= bytes
  }

  lemma DeliversExactly(bytes: seq<byte>, known: set<Name>)
    ensures OnePass(bytes, known).Deliver? <==> StartsWithPacket(bytes, known)
    ensures !StartsWithPacket(bytes, known) ==> Decode(bytes, known) == Result([], bytes, EndOn(bytes))
  {
    hide Read32, Parse, PacketFrame;
    if OnePass(bytes, known).Deliver? {
      var p := DeliveredIsPacket(bytes, known);
      assert PacketFrame(p) <= bytes;
    }
    if StartsWithPacket(bytes, known) {
      var p: Packet :| Sendable(p.message, known) && PacketFrame(p) <= bytes;
      assert bytes == PacketFrame(p) + bytes[|PacketFrame(p)|..];
      PacketFirst(p, bytes[|PacketFrame(p)|..], known);
    }
  }

  /**
   What a call does to any bytes at all.  They are packets followed by a rest that does not begin with
   one; the packets are delivered, the rest stays, and its size and length field decide how the call ends.
   */
  lemma DecodeExact(bytes: seq<byte>, known: set<Name>, r: Result)
    ensures Decode(bytes, known) == r <==>
            r.outcome == EndOn(r.rest) && !StartsWithPacket(r.rest, known) &&
            exists ps :: Accounts(ps, bytes, known, r.delivered, r.rest)
  {
    var ps := DeliveredWerePackets(bytes, known);
    RestSettled(bytes, known);
    if !StartsWithPacket(r.rest, known) {
      DeliversExactly(r.rest, known);
      forall qs | Accounts(qs, bytes, known, r.delivered, r.rest)
        ensures Decode(bytes, known) == Before(r.delivered, Result([], r.rest, EndOn(r.rest)))
      {
        DecodePackets(qs, r.rest, known);
      }
    }
  }

  lemma {:induction false} RestSettled(bytes: seq<byte>, known: set<Name>)
    ensures var d := Decode(bytes, known);
      !StartsWithPacket(d.rest, known) && d.outcome == EndOn(d.rest)
    decreases |bytes|
  {
    var pass := OnePass(bytes, known);
    if pass.Deliver? {
      DecodeFirst(bytes, known);
      RestSettled(pass.rest, known);
    } else {
      DeliversExactly(bytes, known);
    }
  }

  /**
   The loop is never left exactly on packets followed by fourteen bytes or more that announce a body of
   permitted length, and do not hold a packet: it is not all there, or it does not parse.
   */
  lemma NeverReturnsExactly(bytes: seq<byte>, known: set<Name>)
    ensures (forall k: nat :: StillRunning(k, bytes, known)) <==> exists ps, rest :: Blocked(bytes, known, ps, rest)
  {
    SpinningExact(bytes, known);
    var d := Decode(bytes, known);
    if d.outcome.Spinning? {
      var ps := DeliveredWerePackets(bytes, known);
      RestSettled(bytes, known);
      DeliversExactly(d.rest, known);
      assert Blocked(bytes, known, ps, d.rest);
    }
    forall ps, rest | Blocked(bytes, known, ps, rest)
      ensures d.outcome.Spinning?
    {
      DeliversExactly(rest, known);
      DecodePackets(ps, rest, known);
    }
  }

  predicate Blocked(bytes: seq<byte>, known: set<Name>, ps: seq<Packet>, rest: seq<byte>) {
    && AllSendable(ps, known) && bytes == Packets(ps) + rest
    && |rest| >= MIN_MESSAGE_LEN + HEADER_LEN && MIN_MESSAGE_LEN <= Read32(rest) <= MAX_MESSAGE_LEN
    && (|rest| < Read32(rest) + HEADER_LEN || Parse(rest[HEADER_LEN..HEADER_LEN + Read32(rest)], known).None?)
  }

  // ------------------------------------------------------------------ what `send` puts on the wire

  /** Messages as `send` makes packets of them. */
  function Sent(ms: seq<Message>): (ps: seq<Packet>)
    ensures MessagesOf(ps) == ms
  {
    if ms == [] then [] else [Packet(ms[0], 0)] + Sent(ms[1..])
  }

  function Wire(ms: seq<Message>): seq<byte> {
    if ms == [] then [] else Frame(ms[0]) + Wire(ms[1..])
  }

  lemma {:induction false} WireIsPackets(ms: seq<Message>, known: set<Name>)
    requires forall i :: 0 <= i < |ms| ==> Sendable(ms[i], known)
    ensures Wire(ms) == Packets(Sent(ms)) && AllSendable(Sent(ms), known)
  {
    if ms != [] {
      WireIsPackets(ms[1..], known);
      assert Sent(ms)[1..] == Sent(ms[1..]);
    }
  }

  /** Sent frames are delivered in order, and then the loop goes on with what follows them. */
  lemma DecodeWire(ms: seq<Message>, tail: seq<byte>, known: set<Name>)
    requires forall i :: 0 <= i < |ms| ==> Sendable(ms[i], known)
    ensures Decode(Wire(ms) + tail, known) == Before(ms, Decode(tail, known))
  {
    WireIsPackets(ms, known);
    DecodePackets(Sent(ms), tail, known);
  }

  /** A buffer of whole frames is drained, and the call returns. */
  lemma WireDrained(ms: seq<Message>, known: set<Name>)
    requires forall i :: 0 <= i < |ms| ==> Sendable(ms[i], known)
    ensures Decode(Wire(ms), known) == Result(ms, [], Waiting)
  {
    DecodeWire(ms, [], known);
    assert Wire(ms) + [] == Wire(ms);
    assert ms + [] == ms;
  }

  /**
   A sent frame at the front, whatever follows it: it is delivered exactly when the type is known and
   not empty and the body fits.  Otherwise nothing is: a body too long, or too short and followed by
   anything, shuts the connection down; too short and alone, it waits; any other one is never got rid of.
   */
  lemma FrameFate(m: Message, tail: seq<byte>, known: set<Name>)
    requires |Body(m)| < TWO_31
    ensures Decode(Frame(m) + tail, known) ==
      if Sendable(m, known) then Before([m], Decode(tail, known))
      else Result([], Frame(m) + tail,
        if MIN_MESSAGE_LEN <= |Body(m)| <= MAX_MESSAGE_LEN then Spinning
        else if |Body(m)| < MIN_MESSAGE_LEN && tail == [] then Waiting
        else Closed)
  {
    if Sendable(m, known) {
      PacketFirst(Packet(m, 0), tail, known);
      DecodeFirst(Frame(m) + tail, known);
    } else {
      PassOfUnsendable(m, tail, known);
    }
  }

  lemma PassOfUnsendable(m: Message, tail: seq<byte>, known: set<Name>)
    requires |Body(m)| < TWO_31 && !Sendable(m, known)
    ensures OnePass(Frame(m) + tail, known) ==
      if MIN_MESSAGE_LEN <= |Body(m)| <= MAX_MESSAGE_LEN then Unchanged
      else if |Body(m)| < MIN_MESSAGE_LEN && tail == [] then Exit
      else ShutDown
  {
    var n, bytes := |Body(m)|, Frame(m) + tail;
    Regroup(Big32(n), Body(m), tail);
    ReadBig32(n, Body(m) + tail);
    assert bytes[HEADER_LEN..HEADER_LEN + n] == Body(m);
    if n >= MIN_MESSAGE_LEN {
      if m.typeName == [] {
        EmptyNameRefused(m, known);
      } else {
        ParseSealed(m, 0, known);
      }
    }
  }

  lemma EmptyNameRefused(m: Message, known: set<Name>)
    requires m.typeName == [] && |Body(m)| >= MIN_MESSAGE_LEN
    ensures Parse(Body(m), known) == None
  {
    hide Read32, Adler32.Checksum;
    var seal := Big32(ToInt32(Adler32.Checksum(Covered(m, 0))));
    assert Body(m) == Big32(1) + ([0] + m.payload + seal);
    ReadBig32(1, [0] + m.payload + seal);
  }

  /** A frame cut short: below fourteen bytes the loop waits for more; from there on it spins. */
  lemma CutFrame(m: Message, n: nat, known: set<Name>)
    requires Sendable(m, known) && n < |Frame(m)|
    ensures Decode(Frame(m)[..n], known) ==
      Result([], Frame(m)[..n], if n < MIN_MESSAGE_LEN + HEADER_LEN then Waiting else Spinning)
  {
    if n >= HEADER_LEN {
      ReadBig32(|Body(m)|, Body(m)[..n - HEADER_LEN]);
      assert Frame(m)[..n] == Big32(|Body(m)|) + Body(m)[..n - HEADER_LEN];
    }
  }
}
