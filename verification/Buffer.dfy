/**
 The library's byte buffer: one growable array, a reader and a writer index, and a zone in front of
 the reader that is kept for cheap prepends.  Every method is specified by what it does to
 `Contents()`, the bytes between the two indexes.
 */
module Buffers {
  import opened Machine

  const CHEAP_PREPEND := 8
  const INITIAL_SIZE := 1024
  // max_size() of a vector<char> on a 64-bit platform: growing past it throws
  const MAX_SIZE := 0x7fff_ffff_ffff_ffff

  /**
   How a call for room ends: with room; in a `length_error`; in an assertion; or, if the sum of writer and
   length wraps, with an array cut off in front of the writer.
   */
  datatype Growth = Fits | Threw | Aborted | Overrun

  /** And how `shrink` ends. */
  datatype Shrunk = Kept | Cut | Failed(why: Growth)

  /** The ending of a call for room, without any wrapping arithmetic. */
  function GrowthFor(size: nat, reader: nat, writer: nat, len: nat): Growth {
    if len <= size - writer || len + CHEAP_PREPEND <= size - writer + reader then Fits
    else if TWO_64 <= len + CHEAP_PREPEND <= TWO_64 + (size - writer + reader) then Aborted
    else if writer + len >= TWO_64 then Overrun
    else if writer + len > MAX_SIZE then Threw
    else Fits
  }

  /** The branch of `makeSpace` that slides, in the 64-bit arithmetic of `size_t`. */
  predicate Slides(size: nat, reader: nat, writer: nat, len: nat) {
    ToSize(ToSize(size - writer) + reader) >= ToSize(len + CHEAP_PREPEND)
  }

  /** When it is taken, and how large the array would get in the other one. */
  lemma SlidesExact(size: nat, reader: nat, writer: nat, len: nat)
    requires CHEAP_PREPEND <= size <= MAX_SIZE && reader <= writer <= size && len < TWO_64
    ensures Slides(size, reader, writer, len) <==>
            if len + CHEAP_PREPEND < TWO_64 then size - writer + reader >= len + CHEAP_PREPEND
            else size - writer + reader >= len + CHEAP_PREPEND - TWO_64
    ensures ToSize(writer + len) == if writer + len < TWO_64 then writer + len else writer + len - TWO_64
  {
    assert ToSize(size - writer) == size - writer;
    assert ToSize(size - writer + reader) == size - writer + reader;
    assert ToSize(len + CHEAP_PREPEND) ==
      if len + CHEAP_PREPEND < TWO_64 then len + CHEAP_PREPEND else len + CHEAP_PREPEND - TWO_64;
  }

  /**
   The slide asserts that the reader stands behind the prepend zone.  Called with too little room, it
   fails exactly for the eight lengths whose sum with the zone wraps, on a reader inside the zone.
   */
  lemma SlideAssertExact(size: nat, reader: nat, writer: nat, len: nat)
    requires CHEAP_PREPEND <= size <= MAX_SIZE && reader <= writer <= size
    requires size - writer < len < TWO_64
    ensures (Slides(size, reader, writer, len) ==> CHEAP_PREPEND < reader) <==>
            (len + CHEAP_PREPEND < TWO_64 || CHEAP_PREPEND < reader ||
              size - writer + reader < len + CHEAP_PREPEND - TWO_64)
  {
    SlidesExact(size, reader, writer, len);
  }

  /** How `shrink` ends, with this many bytes readable and the total it asks room for. */
  function ShrinkFor(readable: nat, total: nat): Shrunk {
    if total + CHEAP_PREPEND >= TWO_64 then Failed(Aborted)
    else if total + CHEAP_PREPEND > MAX_SIZE then Failed(Threw)
    else if readable < TWO_31 then Kept
    else if readable % TWO_32 < TWO_31 then Cut
    else if readable % TWO_32 + CHEAP_PREPEND >= TWO_32 then Failed(Aborted)
    else Failed(Threw)
  }

  /** How a call for room ends on a new buffer that has had another one for `total` bytes. */
  function NewGrowth(total: nat, length: nat): Growth {
    if total + CHEAP_PREPEND >= TWO_64 then Aborted
    else if total + CHEAP_PREPEND > MAX_SIZE then Threw
    else if length + CHEAP_PREPEND <= MAX_SIZE then Fits
    else if length + CHEAP_PREPEND >= TWO_64 then Aborted
    else Threw
  }

  /** `shrink` makes these two calls: for its total, and for its `int` length taken as a `size_t`. */
  lemma ShrinkGrowth(total: nat, readable: nat)
    requires total < TWO_64 && readable <= MAX_SIZE
    ensures var length := ToInt32(readable);
      var growth := NewGrowth(total, ToSize(length));
      ShrinkFor(readable, total) ==
        (if growth != Fits then Failed(growth) else if length == readable then Kept else Cut) &&
      (growth == Fits ==> length == ToSize(length) == readable % TWO_32 <= readable)
  {
    var r := readable % TWO_32;
    assert ToInt32(readable) == if r < TWO_31 then r else r - TWO_32;
    assert ToSize(ToInt32(readable)) == if r < TWO_31 then r else r - TWO_32 + TWO_64;
  }

  function Max(x: int, y: int): int { if x < y then y else x }

  class Buffer {
    var data: array<byte>
    var readerIndex: nat
    var writerIndex: nat

    ghost predicate Valid()
      reads this
    {
      CHEAP_PREPEND <= data.Length <= MAX_SIZE && readerIndex <= writerIndex <= data.Length
    }

    ghost function Contents(): (s: seq<byte>)
      reads this, data
      requires Valid()
      ensures |s| == ReadableBytes()
    {
      data[readerIndex..writerIndex]
    }

    constructor (initialSize: nat := INITIAL_SIZE)
      requires CHEAP_PREPEND + initialSize <= MAX_SIZE
      ensures Valid() && fresh(data)
      ensures Contents() == [] && readerIndex == CHEAP_PREPEND && WritableBytes() == initialSize
    {
      data := new byte[CHEAP_PREPEND + initialSize](_ => 0);
      readerIndex, writerIndex := CHEAP_PREPEND, CHEAP_PREPEND;
    }

    function ReadableBytes(): int
      reads this
    {
      writerIndex - readerIndex
    }

    function WritableBytes(): int
      reads this
    {
      data.Length - writerIndex
    }

    function PrependableBytes(): int
      reads this
    {
      readerIndex
    }

    /** A call for `len` bytes of room succeeds. */
    predicate HasRoomFor(len: nat)
      reads this
    {
      GrowthFor(data.Length, readerIndex, writerIndex, len) == Fits
    }

    method Swap(rhs: Buffer)
      requires Valid() && rhs.Valid()
      modifies this, rhs
      ensures Valid() && rhs.Valid()
      ensures data == old(rhs.data) && readerIndex == old(rhs.readerIndex) && writerIndex == old(rhs.writerIndex)
      ensures rhs.data == old(data) && rhs.readerIndex == old(readerIndex) && rhs.writerIndex == old(writerIndex)
    {
      data, rhs.data := rhs.data, data;
      readerIndex, rhs.readerIndex := rhs.readerIndex, readerIndex;
      writerIndex, rhs.writerIndex := rhs.writerIndex, writerIndex;
    }

    // ---------------------------------------------------------------- reading

    method Retrieve(len: nat)
      requires Valid() && len <= ReadableBytes()
      modifies this`readerIndex, this`writerIndex
      ensures Valid() && Contents() == old(Contents())[len..]
      ensures if len < old(ReadableBytes())
        then readerIndex == old(readerIndex) + len && writerIndex == old(writerIndex)
        else readerIndex == writerIndex == CHEAP_PREPEND
    {
      if len < ReadableBytes() {
        readerIndex := readerIndex + len;
      } else {
        RetrieveAll();
      }
    }

    method RetrieveAll()
      requires Valid()
      modifies this`readerIndex, this`writerIndex
      ensures Valid() && Contents() == []
      ensures readerIndex == CHEAP_PREPEND && writerIndex == CHEAP_PREPEND
    {
      readerIndex, writerIndex := CHEAP_PREPEND, CHEAP_PREPEND;
    }

    /** A copy of the first `len` bytes, made through the pointer `peek()`. */
    method Peek(len: nat) returns (result: seq<byte>)
      requires Valid() && len <= ReadableBytes()
      ensures result == Contents()[..len]
    {
      result := data[readerIndex..readerIndex + len];
    }

    method RetrieveAsString(len: nat) returns (result: seq<byte>)
      requires Valid() && len <= ReadableBytes()
      modifies this`readerIndex, this`writerIndex
      ensures Valid() && result + Contents() == old(Contents()) && |result| == len
    {
      result := Peek(len);
      Retrieve(len);
    }

    method RetrieveAllAsString() returns (result: seq<byte>)
      requires Valid()
      modifies this`readerIndex, this`writerIndex
      ensures Valid() && result == old(Contents()) && Contents() == []
    {
      result := RetrieveAsString(ReadableBytes());
    }

    // ---------------------------------------------------------------- growing

    /** A slide makes room for `len` bytes that there is not behind the writer alone. */
    predicate SlideHelps(len: nat)
      reads this
    {
      WritableBytes() < len && len + CHEAP_PREPEND <= WritableBytes() + PrependableBytes()
    }

    /** The array after a successful call for room: it grows, and by no more than is missing, only if no slide helps. */
    function SizeAfter(len: nat): int
      reads this
    {
      if WritableBytes() >= len || SlideHelps(len) then data.Length else writerIndex + len
    }

    function ReaderAfter(len: nat): nat
      reads this
    {
      if SlideHelps(len) then CHEAP_PREPEND else readerIndex
    }

    /** Called with too little room behind the writer: grow the array, or slide the contents down. */
    method MakeSpace(len: nat) returns (outcome: Growth)
      requires Valid() && WritableBytes() < len < TWO_64
      modifies this, data
      ensures (if outcome == Fits && WritableBytes() < len then Aborted else outcome) ==
        old(GrowthFor(data.Length, readerIndex, writerIndex, len))
      ensures data == old(data) || fresh(data)
      ensures if outcome == Overrun then data.Length < writerIndex == old(writerIndex)
        else Valid() && Contents() == old(Contents())
      ensures outcome == Fits && WritableBytes() >= len ==>
        data.Length == old(SizeAfter(len)) && readerIndex == old(ReaderAfter(len))
      ensures outcome == Fits ==> data.Length >= old(data.Length)
      ensures outcome == Threw ==> unchanged(this)
      ensures readerIndex == old(readerIndex) || readerIndex == CHEAP_PREPEND < old(readerIndex)
    {
      SlidesExact(data.Length, readerIndex, writerIndex, len);
      if !Slides(data.Length, readerIndex, writerIndex, len) {
        outcome := Resize(ToSize(writerIndex + len));
      } else if CHEAP_PREPEND < readerIndex {
        Slide();
        outcome := Fits;
      } else {
        outcome := Aborted;
      }
    }

    method Slide()
      requires Valid() && CHEAP_PREPEND < readerIndex
      modifies this`readerIndex, this`writerIndex, data
      ensures Valid() && Contents() == old(Contents()) && readerIndex == CHEAP_PREPEND
    {
      var readable := ReadableBytes();
      SlideDown();
      readerIndex := CHEAP_PREPEND;
      writerIndex := readerIndex + readable;
      assert readable == ReadableBytes();
    }

    method Resize(size: nat) returns (outcome: Growth)
      requires Valid()
      modifies this`data
      ensures outcome == if size > MAX_SIZE then Threw else if size < writerIndex then Overrun else Fits
      ensures outcome == Threw ==> data == old(data)
      ensures outcome != Threw ==> fresh(data) && data.Length == size
      ensures outcome == Fits ==> data[..writerIndex] == old(data[..writerIndex])
    {
      if size > MAX_SIZE {
        return Threw;
      }
      var resized := new byte[size](_ => 0);
      forall i | 0 <= i < data.Length && i < size {
        resized[i] := data[i];
      }
      data := resized;
      outcome := if size < writerIndex then Overrun else Fits;
    }

    /** The copy of the slide: element by element, forwards, from a range onto one that starts lower. */
    method SlideDown()
      requires Valid() && CHEAP_PREPEND < readerIndex
      modifies data
      ensures data[CHEAP_PREPEND..CHEAP_PREPEND + ReadableBytes()] == old(Contents())
    {
      ghost var was := Contents();
      var from, to := readerIndex, CHEAP_PREPEND;
      while from < writerIndex
        invariant readerIndex <= from <= writerIndex && from - to == readerIndex - CHEAP_PREPEND
        invariant forall i :: from <= i < writerIndex ==> data[i] == was[i - readerIndex]
        invariant forall i :: CHEAP_PREPEND <= i < to ==> data[i] == was[i - CHEAP_PREPEND]
      {
        data[to] := data[from];
        from, to := from + 1, to + 1;
      }
    }

    /** Every length that a `size_t` can hold. */
    method EnsureWritableBytes(len: nat) returns (outcome: Growth)
      requires Valid() && len < TWO_64
      modifies this, data
      ensures outcome == old(GrowthFor(data.Length, readerIndex, writerIndex, len))
      ensures data == old(data) || fresh(data)
      ensures if outcome == Overrun then data.Length < writerIndex == old(writerIndex)
        else Valid() && Contents() == old(Contents())
      ensures outcome == Fits ==> WritableBytes() >= len && data.Length >= old(data.Length)
      ensures outcome == Fits ==> data.Length == old(SizeAfter(len)) && readerIndex == old(ReaderAfter(len))
      ensures outcome == Threw || old(WritableBytes()) >= len ==> unchanged(this)
      ensures readerIndex == old(readerIndex) || readerIndex == CHEAP_PREPEND < old(readerIndex)
    {
      outcome := Fits;
      if WritableBytes() < len {
        outcome := MakeSpace(len);
        if outcome == Fits && WritableBytes() < len {
          outcome := Aborted;
        }
      }
    }

    // ---------------------------------------------------------------- writing

    method Append(bytes: seq<byte>) returns (outcome: Growth)
      requires Valid() && |bytes| < TWO_64
      modifies this, data
      ensures outcome == old(GrowthFor(data.Length, readerIndex, writerIndex, |bytes|))
      ensures data == old(data) || fresh(data)
      ensures outcome == Fits ==> Valid() && Contents() == old(Contents()) + bytes
      ensures outcome != Fits && outcome != Overrun ==> Valid() && Contents() == old(Contents())
      ensures readerIndex == old(readerIndex) || readerIndex == CHEAP_PREPEND < old(readerIndex)
      ensures outcome == Fits ==> writerIndex <= old(writerIndex) + |bytes|
      ensures old(WritableBytes()) >= |bytes| ==> WritableBytes() == old(WritableBytes()) - |bytes|
    {
      assert WritableBytes() >= |bytes| ==> GrowthFor(data.Length, readerIndex, writerIndex, |bytes|) == Fits;
      hide GrowthFor;
      outcome := EnsureWritableBytes(|bytes|);
      if outcome == Fits {
        WriteRaw(bytes);
        HasWritten(|bytes|);
      }
    }

    /** Bytes stored through the pointer `beginWrite()`, which moves no index. */
    method WriteRaw(bytes: seq<byte>)
      requires Valid() && |bytes| <= WritableBytes()
      modifies data
      ensures Contents() == old(Contents())
      ensures data[writerIndex..writerIndex + |bytes|] == bytes
    {
      forall i | 0 <= i < |bytes| {
        data[writerIndex + i] := bytes[i];
      }
    }

    method HasWritten(len: nat)
      requires Valid() && len <= WritableBytes()
      modifies this`writerIndex
      ensures Valid() && writerIndex == old(writerIndex) + len
      ensures Contents() == old(Contents()) + data[old(writerIndex)..old(writerIndex) + len]
    {
      writerIndex := writerIndex + len;
    }

    method Unwrite(len: nat)
      requires Valid() && len <= ReadableBytes()
      modifies this`writerIndex
      ensures Valid() && Contents() == old(Contents())[..old(ReadableBytes()) - len]
    {
      writerIndex := writerIndex - len;
    }

    method Prepend(bytes: seq<byte>)
      requires Valid() && |bytes| <= PrependableBytes()
      modifies this`readerIndex, data
      ensures Valid() && Contents() == bytes + old(Contents())
    {
      readerIndex := readerIndex - |bytes|;
      forall i | 0 <= i < |bytes| {
        data[readerIndex + i] := bytes[i];
      }
    }

    /**
     The contents move into a new buffer as a `StringPiece`, whose length is an `int`; `append` takes
     that for a `size_t`.  Unless the move succeeds nothing changes, since the swap comes last.
     */
    method Shrink(reserve: nat) returns (outcome: Shrunk)
      requires Valid() && reserve < TWO_64
      modifies this
      ensures Valid()
      ensures outcome == old(ShrinkFor(ReadableBytes(), ToSize(ReadableBytes() + reserve)))
      ensures outcome == Kept ==> fresh(data) && Contents() == old(Contents())
      ensures outcome == Cut ==>
        fresh(data) && Contents() == old(Contents())[..old(ReadableBytes()) % TWO_32] != old(Contents())
      ensures outcome.Failed? ==> unchanged(this)
      ensures !outcome.Failed? && old(ReadableBytes()) + reserve < TWO_64 ==> WritableBytes() >= reserve
      ensures !outcome.Failed? && old(ReadableBytes()) + reserve < TWO_64 ==>
        data.Length == CHEAP_PREPEND + Max(INITIAL_SIZE, old(ReadableBytes()) + reserve)
    {
      hide NewGrowth, ShrinkFor, GrowthFor, ToInt32, ToSize;
      ShrinkGrowth(ToSize(ReadableBytes() + reserve), ReadableBytes());
      var other, growth := NewWithRoom(ReadableBytes(), reserve);
      if growth != Fits {
        return Failed(growth);
      }
      var length := ToInt32(ReadableBytes());
      outcome := if length == ReadableBytes() then Kept else Cut;
      MoveTo(other, length);
    }

    /** The new buffer, after the call for the total and the one that the append of the piece begins with. */
    static method NewWithRoom(readable: nat, reserve: nat) returns (other: Buffer, growth: Growth)
      requires readable <= MAX_SIZE && reserve < TWO_64
      ensures fresh(other) && fresh(other.data)
      ensures growth == NewGrowth(ToSize(readable + reserve), ToSize(ToInt32(readable)))
      ensures growth == Fits ==> other.Valid() && other.Contents() == [] && other.WritableBytes() >= ToInt32(readable)
      ensures growth == Fits && readable + reserve < TWO_64 ==>
        other.data.Length == CHEAP_PREPEND + Max(INITIAL_SIZE, readable + reserve) &&
        other.WritableBytes() == other.data.Length - CHEAP_PREPEND
    {
      var total, length := ToSize(readable + reserve), ToInt32(readable);
      ShrinkGrowth(total, readable);
      other := new Buffer();
      growth := other.EnsureWritableBytes(total);
      if growth == Fits {
        growth := other.EnsureWritableBytes(ToSize(length));
      }
    }

    method MoveTo(other: Buffer, length: nat)
      requires Valid() && other.Valid() && other.Contents() == [] && other != this && other.data != data
      requires length <= ReadableBytes() && length <= other.WritableBytes()
      modifies this, other, other.data
      ensures Valid() && data == old(other.data) && Contents() == old(Contents())[..length]
      ensures WritableBytes() == old(other.WritableBytes()) - length
    {
      var piece := Peek(length);
      other.WriteRaw(piece);
      other.HasWritten(length);
      Swap(other);
    }

    // ---------------------------------------------------------------- typed access

    method AppendInt32(x: int) returns (outcome: Growth)
      requires Valid() && IsInt32(x)
      modifies this, data
      ensures outcome == old(GrowthFor(data.Length, readerIndex, writerIndex, 4))
      ensures data == old(data) || fresh(data)
      ensures outcome != Overrun && Valid() &&
        Contents() == if outcome == Fits then old(Contents()) + Big32(x) else old(Contents())
      ensures readerIndex == old(readerIndex) || readerIndex == CHEAP_PREPEND < old(readerIndex)
      ensures outcome == Fits ==> writerIndex <= old(writerIndex) + 4
    {
      outcome := Append(Big32(x));
    }

    method AppendInt16(x: int) returns (outcome: Growth)
      requires Valid() && IsInt16(x)
      modifies this, data
      ensures outcome == old(GrowthFor(data.Length, readerIndex, writerIndex, 2))
      ensures data == old(data) || fresh(data)
      ensures outcome != Overrun && Valid() &&
        Contents() == if outcome == Fits then old(Contents()) + Big16(x) else old(Contents())
      ensures readerIndex == old(readerIndex) || readerIndex == CHEAP_PREPEND < old(readerIndex)
      ensures outcome == Fits ==> writerIndex <= old(writerIndex) + 2
    {
      outcome := Append(Big16(x));
    }

    method AppendInt8(x: int) returns (outcome: Growth)
      requires Valid() && IsInt8(x)
      modifies this, data
      ensures outcome == old(GrowthFor(data.Length, readerIndex, writerIndex, 1))
      ensures data == old(data) || fresh(data)
      ensures outcome != Overrun && Valid() &&
        Contents() == if outcome == Fits then old(Contents()) + Big8(x) else old(Contents())
      ensures readerIndex == old(readerIndex) || readerIndex == CHEAP_PREPEND < old(readerIndex)
      ensures outcome == Fits ==> writerIndex <= old(writerIndex) + 1
    {
      outcome := Append(Big8(x));
    }

    method PeekInt32() returns (x: int)
      requires Valid() && ReadableBytes() >= 4
      ensures x == Read32(Contents())
    {
      x := Read32(data[readerIndex..readerIndex + 4]);
    }

    method PeekInt16() returns (x: int)
      requires Valid() && ReadableBytes() >= 2
      ensures x == Read16(Contents())
    {
      x := Read16(data[readerIndex..readerIndex + 2]);
    }

    method PeekInt8() returns (x: int)
      requires Valid() && ReadableBytes() >= 1
      ensures x == Read8(Contents())
    {
      x := Read8(data[readerIndex..readerIndex + 1]);
    }

    method ReadInt32() returns (x: int)
      requires Valid() && ReadableBytes() >= 4
      modifies this`readerIndex, this`writerIndex
      ensures Valid() && x == Read32(old(Contents())) && Contents() == old(Contents())[4..]
    {
      x := PeekInt32();
      Retrieve(4);
    }

    method ReadInt16() returns (x: int)
      requires Valid() && ReadableBytes() >= 2
      modifies this`readerIndex, this`writerIndex
      ensures Valid() && x == Read16(old(Contents())) && Contents() == old(Contents())[2..]
    {
      x := PeekInt16();
      Retrieve(2);
    }

    method ReadInt8() returns (x: int)
      requires Valid() && ReadableBytes() >= 1
      modifies this`readerIndex, this`writerIndex
      ensures Valid() && x == Read8(old(Contents())) && Contents() == old(Contents())[1..]
    {
      x := PeekInt8();
      Retrieve(1);
    }

    method PrependInt32(x: int)
      requires Valid() && PrependableBytes() >= 4 && IsInt32(x)
      modifies this`readerIndex, data
      ensures Valid() && Contents() == Big32(x) + old(Contents())
    {
      Prepend(Big32(x));
    }
  }

  // ------------------------------------------------------------------ typed round trip

  datatype Item = Int8(x: int) | Int16(x: int) | Int32(x: int) | Bytes(s: seq<byte>)
  {
    predicate InRange() {
      match this
      case Int8(x) => IsInt8(x)
      case Int16(x) => IsInt16(x)
      case Int32(x) => IsInt32(x)
      case Bytes(_) => true
    }

    function Image(): seq<byte> {
      match this
      case Int8(x) => Big8(x)
      case Int16(x) => Big16(x)
      case Int32(x) => Big32(x)
      case Bytes(s) => s
    }

    // one read of this item's type (and length, for bytes) at the front of s
    function ReadSame(s: seq<byte>): Item
      requires |Image()| <= |s|
    {
      match this
      case Int8(_) => Int8(Read8(s))
      case Int16(_) => Int16(Read16(s))
      case Int32(_) => Int32(Read32(s))
      case Bytes(b) => Bytes(s[..|b|])
    }
  }

  function Images(items: seq<Item>): seq<byte> {
    if items == [] then [] else items[0].Image() + Images(items[1..])
  }

  /** A read of the right type undoes the write, and leaves the rest. */
  lemma ReadUndoesImage(item: Item, rest: seq<byte>)
    requires item.InRange()
    ensures item.ReadSame(item.Image() + rest) == item
    ensures (item.Image() + rest)[|item.Image()|..] == rest
  {
    if !item.Bytes? {
      ReadBig(item.x, rest);
    }
  }

  lemma ReadFront(shape: seq<Item>, i: nat, rest: seq<byte>)
    requires i < |shape| && shape[i].InRange()
    ensures var s := Images(shape[i..]) + rest;
      |shape[i].Image()| <= |s| && shape[i].ReadSame(s) == shape[i] &&
      s[|shape[i].Image()|..] == Images(shape[i + 1..]) + rest
  {
    var after := Images(shape[i + 1..]) + rest;
    assert shape[i..][1..] == shape[i + 1..];
    assert Images(shape[i..]) + rest == shape[i].Image() + after;
    ReadUndoesImage(shape[i], after);
  }

  /**
   Values written one after the other into any buffer and then read back in the same order come
   back unchanged and leave exactly what was there: whatever slides or growth the writes cause.
   */
  method WriteThenRead(b: Buffer, items: seq<Item>) returns (out: seq<Item>)
    requires b.Valid() && b.Contents() == []
    requires forall i :: 0 <= i < |items| ==> items[i].InRange()
    requires b.writerIndex + |Images(items)| <= MAX_SIZE
    modifies b, b.data
    ensures b.Valid() && out == items && b.Contents() == []
  {
    WriteItems(b, items);
    out := ReadItems(b, items);
  }

  method WriteItem(b: Buffer, item: Item)
    requires b.Valid() && item.InRange() && b.writerIndex + |item.Image()| <= MAX_SIZE
    modifies b, b.data
    ensures b.Valid() && (b.data == old(b.data) || fresh(b.data))
    ensures b.Contents() == old(b.Contents()) + item.Image()
    ensures b.writerIndex <= old(b.writerIndex) + |item.Image()|
  {
    match item {
      case Int8(x) => var _ := b.AppendInt8(x);
      case Int16(x) => var _ := b.AppendInt16(x);
      case Int32(x) => var _ := b.AppendInt32(x);
      case Bytes(s) => var _ := b.Append(s);
    }
  }

  method ReadItem(b: Buffer, shape: Item) returns (item: Item)
    requires b.Valid() && |shape.Image()| <= b.ReadableBytes()
    modifies b`readerIndex, b`writerIndex
    ensures b.Valid() && item == shape.ReadSame(old(b.Contents()))
    ensures b.Contents() == old(b.Contents())[|shape.Image()|..]
  {
    var x;
    match shape {
      case Int8(_) => x := b.ReadInt8(); item := Int8(x);
      case Int16(_) => x := b.ReadInt16(); item := Int16(x);
      case Int32(_) => x := b.ReadInt32(); item := Int32(x);
      case Bytes(s) => var t := b.RetrieveAsString(|s|); item := Bytes(t);
    }
  }

  method WriteItems(b: Buffer, items: seq<Item>)
    requires b.Valid()
    requires forall i :: 0 <= i < |items| ==> items[i].InRange()
    requires b.writerIndex + |Images(items)| <= MAX_SIZE
    modifies b, b.data
    ensures b.Valid() && (b.data == old(b.data) || fresh(b.data))
    ensures b.Contents() == old(b.Contents()) + Images(items)
    decreases |items|
  {
    if items != [] {
      WriteItem(b, items[0]);
      WriteItems(b, items[1..]);
    }
  }

  method ReadItems(b: Buffer, shape: seq<Item>) returns (out: seq<Item>)
    requires b.Valid() && Images(shape) <= b.Contents()
    requires forall i :: 0 <= i < |shape| ==> shape[i].InRange()
    modifies b`readerIndex, b`writerIndex
    ensures b.Valid() && out == shape
    ensures b.Contents() == old(b.Contents())[|Images(shape)|..]
  {
    out := [];
    var i := 0;
    ghost var rest := b.Contents()[|Images(shape)|..];
    assert shape[0..] == shape && b.Contents() == Images(shape) + rest;
    while i < |shape|
      invariant 0 <= i <= |shape|
      invariant b.Valid() && b.Contents() == Images(shape[i..]) + rest
      invariant out == shape[..i]
    {
      out := ReadNext(b, shape, i, out, rest);
      i := i + 1;
    }
  }

  method ReadNext(b: Buffer, shape: seq<Item>, i: nat, out: seq<Item>, ghost rest: seq<byte>) returns (out': seq<Item>)
    requires b.Valid() && i < |shape| && shape[i].InRange()
    requires b.Contents() == Images(shape[i..]) + rest && out == shape[..i]
    modifies b`readerIndex, b`writerIndex
    ensures b.Valid() && b.Contents() == Images(shape[i + 1..]) + rest && out' == shape[..i + 1]
  {
    ReadFront(shape, i, rest);
    var item := ReadItem(b, shape[i]);
    out' := out + [item];
  }

  /** A number prepended and read again restores the contents. */
  method PrependThenRead(b: Buffer, x: int) returns (y: int)
    requires b.Valid() && b.PrependableBytes() >= 4 && IsInt32(x)
    modifies b, b.data
    ensures b.Valid() && y == x && b.Contents() == old(b.Contents())
  {
    b.PrependInt32(x);
    ReadBig(x, old(b.Contents()));
    y := b.ReadInt32();
  }

  // ------------------------------------------------------------------ any run of operations

  datatype Op =
    | Appending(bytes: seq<byte>)
    | Prepending(bytes: seq<byte>)
    | Retrieving(len: nat)
    | Unwriting(len: nat)
    | Ensuring(len: nat)
    | Shrinking(reserve: nat)
  {
    /** What the operation does to a plain byte sequence, where it can. */
    predicate Fits(s: seq<byte>) {
      match this
      case Retrieving(len) => len <= |s|
      case Unwriting(len) => len <= |s|
      case _ => true
    }

    function Applied(s: seq<byte>): seq<byte>
      requires Fits(s)
    {
      match this
      case Appending(bytes) => s + bytes
      case Prepending(bytes) => bytes + s
      case Retrieving(len) => s[len..]
      case Unwriting(len) => s[..|s| - len]
      case Ensuring(_) => s
      case Shrinking(_) => s
    }
  }

  /** The sequence after some of the operations, provided each of them can be applied. */
  predicate RunsTo(ops: seq<Op>, s: seq<byte>, t: seq<byte>)
    decreases |ops|
  {
    if ops == [] then s == t else ops[0].Fits(s) && RunsTo(ops[1..], ops[0].Applied(s), t)
  }

  /** Where the operation neither throws, nor fails an assertion, nor cuts the contents. */
  predicate Permitted(b: Buffer, op: Op)
    reads b
  {
    match op
    case Appending(bytes) => |bytes| < TWO_64 && b.HasRoomFor(|bytes|)
    case Prepending(bytes) => |bytes| <= b.PrependableBytes()
    case Retrieving(len) => len <= b.ReadableBytes()
    case Unwriting(len) => len <= b.ReadableBytes()
    case Ensuring(len) => len < TWO_64 && b.HasRoomFor(len)
    case Shrinking(reserve) =>
      reserve < TWO_64 && b.ReadableBytes() < TWO_31 && ToSize(b.ReadableBytes() + reserve) + CHEAP_PREPEND <= MAX_SIZE
  }

  method Perform(b: Buffer, op: Op)
    requires b.Valid() && Permitted(b, op)
    modifies b, b.data
    ensures b.Valid() && (b.data == old(b.data) || fresh(b.data))
    ensures op.Fits(old(b.Contents())) && b.Contents() == op.Applied(old(b.Contents()))
  {
    match op {
      case Appending(bytes) => var _ := b.Append(bytes);
      case Prepending(bytes) => b.Prepend(bytes);
      case Retrieving(len) => b.Retrieve(len);
      case Unwriting(len) => b.Unwrite(len);
      case Ensuring(len) => var _ := b.EnsureWritableBytes(len);
      case Shrinking(reserve) => var _ := b.Shrink(reserve);
    }
  }

  /** Through any run of permitted operations the buffer holds what a plain byte sequence would. */
  method RunOperations(b: Buffer, ops: seq<Op>) returns (done: nat)
    requires b.Valid()
    modifies b, b.data
    ensures b.Valid() && (b.data == old(b.data) || fresh(b.data))
    ensures done <= |ops| && RunsTo(ops[..done], old(b.Contents()), b.Contents())
    ensures done < |ops| ==> !Permitted(b, ops[done])
    decreases |ops|
  {
    if ops == [] || !Permitted(b, ops[0]) {
      return 0;
    }
    Perform(b, ops[0]);
    var rest := RunOperations(b, ops[1..]);
    done := rest + 1;
    assert ops[..done][1..] == ops[1..][..rest];
  }
}
