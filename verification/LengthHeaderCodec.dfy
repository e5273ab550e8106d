/** Framing by a four-byte length header, decoded greedily from the front of the input buffer. */
module LengthHeaderCodec {
  import opened Machine
  import opened Wrappers
  import opened Buffers

  const HEADER_LEN := 4
  const MAX_MESSAGE_LEN := 65536
  const MIN_MESSAGE_LEN := 0

  /** What a run of the decoder delivers, leaves in the buffer, and whether it shut the connection down. */
  datatype Result = Result(delivered: seq<seq<byte>>, rest: seq<byte>, shutdown: bool)

  function Before(m: seq<seq<byte>>, r: Result): Result {
    r.(delivered := m + r.delivered)
  }

  /** What stands at the front of the buffer. */
  datatype Front = Partial | Invalid | Whole(body: seq<byte>, rest: seq<byte>)

  function Look(bytes: seq<byte>): (f: Front)
    ensures f.Whole? ==> |f.rest| < |bytes|
  {
    if |bytes| <= HEADER_LEN then Partial
    else
      var bodyLen := Read32(bytes);
      if bodyLen > MAX_MESSAGE_LEN || bodyLen < MIN_MESSAGE_LEN then Invalid
      else if |bytes| >= bodyLen + HEADER_LEN then
        Whole(bytes[HEADER_LEN..HEADER_LEN + bodyLen], bytes[HEADER_LEN + bodyLen..])
      else Partial
  }

  function Decode(bytes: seq<byte>): Result
    decreases |bytes|
  {
    match Look(bytes)
    case Partial => Result([], bytes, false)
    case Invalid => Result([], bytes, true)
    case Whole(body, rest) => Before([body], Decode(rest))
  }

  lemma BeforeBefore(m: seq<seq<byte>>, n: seq<seq<byte>>, r: Result)
    ensures Before(m, Before(n, r)) == Before(m + n, r)
  {
  }

  lemma DecodeStops(bytes: seq<byte>)
    ensures Look(bytes) == Partial ==> Decode(bytes) == Result([], bytes, false)
    ensures Look(bytes) == Invalid ==> Decode(bytes) == Result([], bytes, true)
    ensures |bytes| <= HEADER_LEN ==> Look(bytes) == Partial
  {
    hide Read32;
  }

  lemma DecodeAfter(delivered: seq<seq<byte>>, bytes: seq<byte>, body: seq<byte>, rest: seq<byte>)
    requires Look(bytes) == Whole(body, rest)
    ensures Before(delivered + [body], Decode(rest)) == Before(delivered, Decode(bytes))
  {
    BeforeBefore(delivered, [body], Decode(rest));
  }

  /** The body is copied out between the two retrievals. */
  method TakeFrame(message: Buffer, bodyLen: int) returns (s: seq<byte>)
    requires message.Valid() && message.ReadableBytes() > HEADER_LEN && bodyLen == Read32(message.Contents())
    requires MIN_MESSAGE_LEN <= bodyLen <= MAX_MESSAGE_LEN && message.ReadableBytes() >= bodyLen + HEADER_LEN
    modifies message`readerIndex, message`writerIndex
    ensures message.Valid() && Whole(s, message.Contents()) == Look(old(message.Contents()))
    ensures message.writerIndex == old(message.writerIndex) || message.writerIndex == CHEAP_PREPEND
  {
    hide Read32;
    ghost var bytes := message.Contents();
    message.Retrieve(HEADER_LEN);
    s := message.Peek(bodyLen);
    message.Retrieve(bodyLen);
    assert s == bytes[HEADER_LEN..HEADER_LEN + bodyLen];
    assert message.Contents() == bytes[HEADER_LEN + bodyLen..];
  }

  /** One pass of the loop: the body delivered, or else whether the connection is shut down. */
  method LoopBody(message: Buffer) returns (body: Option<seq<byte>>, shutdown: bool)
    requires message.Valid() && message.ReadableBytes() > HEADER_LEN
    modifies message`readerIndex, message`writerIndex
    ensures message.Valid()
    ensures Look(old(message.Contents())) ==
      if body.Some? then Whole(body.value, message.Contents()) else if shutdown then Invalid else Partial
    ensures body.None? ==> message.Contents() == old(message.Contents())
    ensures message.writerIndex == old(message.writerIndex) || message.writerIndex == CHEAP_PREPEND
  {
    body, shutdown := None, false;
    var bodyLen := message.PeekInt32();
    if bodyLen > MAX_MESSAGE_LEN || bodyLen < MIN_MESSAGE_LEN {
      shutdown := true;
    } else if message.ReadableBytes() >= bodyLen + HEADER_LEN {
      var s := TakeFrame(message, bodyLen);
      body := Some(s);
    }
  }

  method OnMessage(message: Buffer) returns (delivered: seq<seq<byte>>, shutdown: bool)
    requires message.Valid()
    modifies message`readerIndex, message`writerIndex
    ensures message.Valid()
    ensures Result(delivered, message.Contents(), shutdown) == Decode(old(message.Contents()))
    ensures message.writerIndex == old(message.writerIndex) || message.writerIndex == CHEAP_PREPEND
  {
    hide Look, Decode;
    delivered := [];
    while message.ReadableBytes() > HEADER_LEN
      invariant message.Valid()
      invariant Before(delivered, Decode(message.Contents())) == Decode(old(message.Contents()))
      invariant message.writerIndex == old(message.writerIndex) || message.writerIndex == CHEAP_PREPEND
      decreases message.ReadableBytes()
    {
      ghost var bytes := message.Contents();
      var body, invalid := LoopBody(message);
      if body.None? {
        DecodeStops(bytes);
        return delivered, invalid;
      }
      DecodeAfter(delivered, bytes, body.value, message.Contents());
      delivered := delivered + [body.value];
    }
    DecodeStops(message.Contents());
    shutdown := false;
  }

  // ------------------------------------------------------------------ independence of chunking

  function Flatten(pieces: seq<seq<byte>>): seq<byte> {
    if pieces == [] then [] else pieces[0] + Flatten(pieces[1..])
  }

  lemma LookAgain(bytes: seq<byte>, more: seq<byte>)
    ensures match Look(bytes)
      case Partial => true
      case Invalid => Look(bytes + more) == Invalid
      case Whole(body, rest) => Look(bytes + more) == Whole(body, rest + more)
  {
  }

  /** Bytes that arrive later continue the decoding where it stopped. */
  lemma {:induction false} DecodeContinues(bytes: seq<byte>, more: seq<byte>)
    ensures var r := Decode(bytes);
      Decode(bytes + more) == Before(r.delivered, Decode(r.rest + more)) &&
      (r.shutdown ==> Decode(r.rest + more) == Result([], r.rest + more, true))
    decreases |bytes|
  {
    hide Look;
    LookAgain(bytes, more);
    var f := Look(bytes);
    if f.Whole? {
      DecodeContinues(f.rest, more);
      var r := Decode(f.rest);
      BeforeBefore([f.body], r.delivered, Decode(r.rest + more));
    }
  }

  /** Each piece appended to what is left of the earlier ones, and decoded at once. */
  function Feed(left: seq<byte>, pieces: seq<seq<byte>>): Result
    decreases |pieces|
  {
    if pieces == [] then Result([], left, false)
    else
      var r := Decode(left + pieces[0]);
      var later := Feed(r.rest, pieces[1..]);
      Result(r.delivered + later.delivered, later.rest, r.shutdown || later.shutdown)
  }

  /** Cutting a stream into pieces changes neither the messages, nor what is left, nor the verdict. */
  lemma {:induction false} ChunkingIrrelevant(left: seq<byte>, pieces: seq<seq<byte>>)
    requires pieces != []
    ensures Feed(left, pieces) == Decode(left + Flatten(pieces))
    decreases |pieces|
  {
    hide Decode;
    var r := Decode(left + pieces[0]);
    DecodeContinues(left + pieces[0], Flatten(pieces[1..]));
    assert left + Flatten(pieces) == left + pieces[0] + Flatten(pieces[1..]);
    if |pieces| > 1 {
      ChunkingIrrelevant(r.rest, pieces[1..]);
    } else {
      assert r.rest + Flatten(pieces[1..]) == r.rest;
      DecodeSettled(left + pieces[0]);
    }
  }

  /** What a run leaves behind yields nothing more until bytes arrive. */
  lemma {:induction false} DecodeSettled(bytes: seq<byte>)
    ensures Decode(Decode(bytes).rest) == Result([], Decode(bytes).rest, Decode(bytes).shutdown)
    decreases |bytes|
  {
    var f := Look(bytes);
    if f.Whole? {
      DecodeSettled(f.rest);
    }
  }

  /** The same through a real buffer: a run over the pieces ends as one call on the whole stream. */
  method Receive(message: Buffer, pieces: seq<seq<byte>>) returns (delivered: seq<seq<byte>>, shutdown: bool)
    requires message.Valid() && pieces != []
    requires message.writerIndex + |Flatten(pieces)| <= MAX_SIZE && CHEAP_PREPEND + |Flatten(pieces)| <= MAX_SIZE
    modifies message, message.data
    ensures message.Valid()
    ensures Result(delivered, message.Contents(), shutdown) == Decode(old(message.Contents()) + Flatten(pieces))
    decreases |pieces|
  {
    ghost var left := message.Contents();
    delivered, shutdown := ReceivePiece(message, pieces[0]);
    if |pieces| > 1 {
      ghost var r := Result(delivered, message.Contents(), shutdown);
      var d, s := Receive(message, pieces[1..]);
      ReceiveStep(left, pieces, r, Result(d, message.Contents(), s));
      delivered, shutdown := delivered + d, shutdown || s;
    } else {
      assert Flatten(pieces) == pieces[0];
    }
  }

  method ReceivePiece(message: Buffer, piece: seq<byte>) returns (delivered: seq<seq<byte>>, shutdown: bool)
    requires message.Valid() && message.writerIndex + |piece| <= MAX_SIZE
    modifies message, message.data
    ensures message.Valid() && (message.data == old(message.data) || fresh(message.data))
    ensures Result(delivered, message.Contents(), shutdown) == Decode(old(message.Contents()) + piece)
    ensures message.writerIndex <= old(message.writerIndex) + |piece| || message.writerIndex == CHEAP_PREPEND
  {
    var _ := message.Append(piece);
    delivered, shutdown := OnMessage(message);
  }

  lemma ReceiveStep(left: seq<byte>, pieces: seq<seq<byte>>, r: Result, later: Result)
    requires |pieces| > 1
    requires r == Decode(left + pieces[0]) && later == Decode(r.rest + Flatten(pieces[1..]))
    ensures Decode(left + Flatten(pieces)) ==
      Result(r.delivered + later.delivered, later.rest, r.shutdown || later.shutdown)
  {
    ChunkingIrrelevant(left, pieces);
    ChunkingIrrelevant(r.rest, pieces[1..]);
  }

  // ------------------------------------------------------------------ streams of frames

  function Stream(bodies: seq<seq<byte>>): seq<byte> {
    if bodies == [] then [] else Big32(|bodies[0]|) + bodies[0] + Stream(bodies[1..])
  }

  lemma StreamLength(bodies: seq<seq<byte>>)
    ensures bodies != [] ==> |Stream(bodies)| >= HEADER_LEN
    ensures |Stream(bodies)| == HEADER_LEN <==> |bodies| == 1 && bodies[0] == []
  {
  }

  /**
   What a whole stream decodes to: all its bodies and an empty buffer, with one exception.  Since the
   loop asks for more than a header, an empty body at the very end stays behind as its bare header.
   */
  function StreamResult(bodies: seq<seq<byte>>): Result {
    if bodies == [] || bodies[|bodies| - 1] != [] then Result(bodies, [], false)
    else Result(bodies[..|bodies| - 1], Big32(0), false)
  }

  lemma {:induction false} DecodeStream(bodies: seq<seq<byte>>)
    requires forall i :: 0 <= i < |bodies| ==> |bodies[i]| <= MAX_MESSAGE_LEN
    ensures Decode(Stream(bodies)) == StreamResult(bodies)
  {
    if bodies != [] {
      LookAtStream(bodies);
      if |bodies| > 1 || bodies[0] != [] {
        DecodeStream(bodies[1..]);
        StreamResultStep(bodies);
      } else {
        assert Stream(bodies) == Big32(0);
      }
    }
  }

  lemma StreamResultStep(bodies: seq<seq<byte>>)
    requires |bodies| > 1 || (|bodies| == 1 && bodies[0] != [])
    ensures StreamResult(bodies) == Before([bodies[0]], StreamResult(bodies[1..]))
  {
  }

  lemma LookAtStream(bodies: seq<seq<byte>>)
    requires bodies != [] && |bodies[0]| <= MAX_MESSAGE_LEN
    ensures Look(Stream(bodies)) ==
      if |bodies| == 1 && bodies[0] == [] then Partial else Whole(bodies[0], Stream(bodies[1..]))
  {
    var body, later := bodies[0], Stream(bodies[1..]);
    var s := Stream(bodies);
    assert s == Big32(|body|) + (body + later);
    ReadBig(|body|, body + later);
    StreamLength(bodies);
    assert s[HEADER_LEN..HEADER_LEN + |body|] == body;
    assert s[HEADER_LEN + |body|..] == later;
  }

  // ------------------------------------------------------------------ what a call does to any bytes

  predicate ValidLength(n: int) { 0 <= n <= 65536 }

  /** The loop takes a frame off these bytes: there is more than a header, it is valid, and all of the body is there. */
  predicate StartsWithFrame(bytes: seq<byte>) {
    |bytes| > 4 && ValidLength(Read32(bytes)) && |bytes| >= 4 + Read32(bytes)
  }

  /** A frame is its header and its body, and the loop takes it unless it is a bare header with nothing behind. */
  lemma TakesExactly(bytes: seq<byte>, body: seq<byte>, rest: seq<byte>)
    ensures Look(bytes) == Whole(body, rest) <==>
      |body| <= 65536 && bytes == Big32(|body|) + body + rest && (body != [] || rest != [])
  {
    hide Read32, Big32;
    if Look(bytes) == Whole(body, rest) {
      HeaderRead(bytes);
      CutInThree(bytes, HEADER_LEN, HEADER_LEN + |body|);
    }
    if |body| <= 65536 && bytes == Big32(|body|) + body + rest && (body != [] || rest != []) {
      Regroup(Big32(|body|), body, rest);
      ReadBig32(|body|, body + rest);
      assert bytes[HEADER_LEN..HEADER_LEN + |body|] == body && bytes[HEADER_LEN + |body|..] == rest;
    }
  }

  lemma HeaderRead(bytes: seq<byte>)
    requires |bytes| >= HEADER_LEN
    ensures bytes[..HEADER_LEN] == Big32(Read32(bytes))
  {
    BigRead(bytes[..HEADER_LEN]);
  }

  lemma CutInThree(bytes: seq<byte>, i: nat, j: nat)
    requires i <= j <= |bytes|
    ensures bytes == bytes[..i] + bytes[i..j] + bytes[j..]
  {
  }

  lemma Regroup(a: seq<byte>, b: seq<byte>, c: seq<byte>)
    ensures a + b + c == a + (b + c)
  {
  }

  /** The bytes are the stream of the delivered bodies and a rest that begins with no frame the loop would take. */
  predicate Framed(bytes: seq<byte>, r: Result) {
    && (forall i :: 0 <= i < |r.delivered| ==> |r.delivered[i]| <= 65536)
    && bytes == Stream(r.delivered) + r.rest
    && (r.delivered != [] && r.rest == [] ==> r.delivered[|r.delivered| - 1] != [])
    && !StartsWithFrame(r.rest)
  }

  /**
   For any bytes at all: the bodies of the frames at the front are delivered, the rest stays, and the
   connection is shut down exactly if the rest goes beyond a header and that header is not a length
   from 0 to 65536.
   */
  lemma DecodeExact(bytes: seq<byte>, r: Result)
    ensures Decode(bytes) == r <==>
      Framed(bytes, r) && (r.shutdown <==> |r.rest| > 4 && !ValidLength(Read32(r.rest)))
  {
    DecodedIsFramed(bytes);
    if Framed(bytes, r) && (r.shutdown <==> |r.rest| > 4 && !ValidLength(Read32(r.rest))) {
      FramedDecodes(bytes, r);
    }
  }

  lemma EndExact(bytes: seq<byte>)
    ensures Look(bytes).Whole? <==> StartsWithFrame(bytes)
    ensures !StartsWithFrame(bytes) ==>
      Decode(bytes) == Result([], bytes, |bytes| > 4 && !ValidLength(Read32(bytes)))
  {
    hide Read32;
  }

  lemma {:induction false} DecodedIsFramed(bytes: seq<byte>)
    ensures var r := Decode(bytes);
      Framed(bytes, r) && (r.shutdown <==> |r.rest| > 4 && !ValidLength(Read32(r.rest)))
    decreases |bytes|
  {
    EndExact(bytes);
    var f := Look(bytes);
    if f.Whole? {
      hide Look, StartsWithFrame;
      DecodedIsFramed(f.rest);
      TakesExactly(bytes, f.body, f.rest);
      FramedPreceded(f.body, f.rest, Decode(f.rest));
    } else {
      assert bytes == [] + bytes;
    }
  }

  lemma FramedPreceded(body: seq<byte>, bytes: seq<byte>, r: Result)
    requires Framed(bytes, r) && |body| <= 65536 && (body != [] || bytes != [])
    ensures Framed(Big32(|body|) + body + bytes, Before([body], r))
  {
    hide StartsWithFrame;
    var all := [body] + r.delivered;
    assert all[1..] == r.delivered;
    Regroup(Big32(|body|) + body, Stream(r.delivered), r.rest);
    if r.delivered == [] {
      assert bytes == r.rest;
    }
  }

  lemma FramedFirst(bytes: seq<byte>, r: Result)
    requires Framed(bytes, r) && r.delivered != []
    ensures var rest := Stream(r.delivered[1..]) + r.rest;
      Look(bytes) == Whole(r.delivered[0], rest) && Framed(rest, r.(delivered := r.delivered[1..]))
  {
    hide Look, StartsWithFrame, Read32, Big32;
    var body, later := r.delivered[0], r.delivered[1..];
    var rest := Stream(later) + r.rest;
    Regroup(Big32(|body|) + body, Stream(later), r.rest);
    StreamLength(later);
    TakesExactly(bytes, body, rest);
  }

  lemma {:induction false} FramedDecodes(bytes: seq<byte>, r: Result)
    requires Framed(bytes, r) && (r.shutdown <==> |r.rest| > 4 && !ValidLength(Read32(r.rest)))
    ensures Decode(bytes) == r
    decreases |r.delivered|
  {
    if r.delivered == [] {
      assert bytes == r.rest;
      EndExact(bytes);
    } else {
      var rest := Stream(r.delivered[1..]) + r.rest;
      FramedFirst(bytes, r);
      hide Look, Framed, Stream, Read32;
      FramedDecodes(rest, r.(delivered := r.delivered[1..]));
      assert [r.delivered[0]] + r.delivered[1..] == r.delivered;
    }
  }
}
