/** Machine integers and network byte order, as far as the library depends on them. */
module Machine {

  type byte = x: int | 0 <= x < 0x100

  const TWO_31 := 0x8000_0000
  const TWO_32 := 0x1_0000_0000
  const TWO_64 := 0x1_0000_0000_0000_0000

  /** Conversion to `uint32_t`. */
  function ToUint32(x: int): (u: int)
    ensures 0 <= u < TWO_32
    ensures 0 <= x < TWO_32 ==> u == x
  {
    x % TWO_32
  }

  /** Conversion to `int32_t` (two's complement). */
  function ToInt32(x: int): (i: int)
    ensures -TWO_31 <= i < TWO_31
    ensures -TWO_31 <= x < TWO_31 ==> i == x
  {
    if x % TWO_32 < TWO_31 then x % TWO_32 else x % TWO_32 - TWO_32
  }

  /** Conversion to `size_t` on a 64-bit platform. */
  function ToSize(x: int): (u: int)
    ensures 0 <= u < TWO_64
  {
    x % TWO_64
  }

  predicate IsInt8(x: int) { -0x80 <= x < 0x80 }

  predicate IsInt16(x: int) { -0x8000 <= x < 0x8000 }

  predicate IsInt32(x: int) { -TWO_31 <= x < TWO_31 }

  /** The memory image of a signed integer in network order, most significant byte first. */
  function Big8(x: int): (s: seq<byte>)
    ensures |s| == 1
  {
    [x % 0x100]
  }

  function Big16(x: int): (s: seq<byte>)
    ensures |s| == 2
  {
    Big8(x / 0x100) + Big8(x)
  }

  function Big32(x: int): (s: seq<byte>)
    ensures |s| == 4
  {
    Big16(x / 0x100 / 0x100) + Big16(x)
  }

  /** The unsigned number that four bytes in network order stand for. */
  function Number(b3: int, b2: int, b1: int, b0: int): int
  {
    ((b3 * 0x100 + b2) * 0x100 + b1) * 0x100 + b0
  }

  /** What a signed read of the first bytes of `s` yields. */
  function Read8(s: seq<byte>): (x: int)
    requires |s| >= 1
    ensures IsInt8(x)
  {
    var u: int := s[0];
    if u < 0x80 then u else u - 0x100
  }

  function Read16(s: seq<byte>): (x: int)
    requires |s| >= 2
    ensures IsInt16(x)
  {
    var u: int := (s[0] as int) * 0x100 + s[1];
    if u < 0x8000 then u else u - 0x1_0000
  }

  function Read32(s: seq<byte>): (x: int)
    requires |s| >= 4
    ensures IsInt32(x)
  {
    ToInt32(Number(s[0], s[1], s[2], s[3]))
  }

  /** Most significant byte first: what the images of a number weigh. */
  lemma NetworkOrder(x: int)
    ensures Big8(x)[0] as int == x % 0x100
    ensures var s := Big16(x); s[0] as int * 0x100 + s[1] as int == x % 0x1_0000
    ensures var s := Big32(x);
      s[0] as int * 0x100_0000 + s[1] as int * 0x1_0000 + s[2] as int * 0x100 + s[3] as int == x % TWO_32
  {
    TwoDigits(x);
    Weight32(x);
  }

  lemma TwoDigits(x: int)
    ensures x / 0x100 % 0x100 * 0x100 + x % 0x100 == x % 0x1_0000
  {
    var q := x / 0x100;
    assert x == q / 0x100 * 0x1_0000 + q % 0x100 * 0x100 + x % 0x100;
  }

  lemma Weight32(x: int)
    ensures var s := Big32(x);
      s[0] as int * 0x100_0000 + s[1] as int * 0x1_0000 + s[2] as int * 0x100 + s[3] as int == x % TWO_32
  {
    var q1, q2, q3 := Quotients(x);
    var b := Big32(x);
    assert b[0] as int == q3 % 0x100 && b[1] as int == q2 % 0x100;
    assert b[2] as int == q1 % 0x100 && b[3] as int == x % 0x100;
    WholeTurnsAway(x, q3 / 0x100);
  }

  lemma WholeTurnsAway(x: int, k: int)
    requires 0 <= x - k * TWO_32 < TWO_32
    ensures x % TWO_32 == x - k * TWO_32
  {
  }

  /** Network order is an exact inverse on the whole signed range, whatever follows the number. */
  lemma ReadBig(x: int, rest: seq<byte>)
    ensures IsInt8(x) ==> Read8(Big8(x) + rest) == x
    ensures IsInt16(x) ==> Read16(Big16(x) + rest) == x
    ensures IsInt32(x) ==> Read32(Big32(x) + rest) == x
  {
    if IsInt8(x) {
      ReadBig8(x, rest);
    }
    if IsInt16(x) {
      ReadBig16(x, rest);
    }
    if IsInt32(x) {
      ReadBig32(x, rest);
    }
  }

  lemma ReadBig8(x: int, rest: seq<byte>)
    requires IsInt8(x)
    ensures Read8(Big8(x) + rest) == x
  {
  }

  lemma ReadBig16(x: int, rest: seq<byte>)
    requires IsInt16(x)
    ensures Read16(Big16(x) + rest) == x
  {
  }

  lemma ReadBig32(x: int, rest: seq<byte>)
    requires IsInt32(x)
    ensures Read32(Big32(x) + rest) == x
  {
    var q1, q2, q3 := Quotients(x);
    var b := Big32(x);
    assert b[0] == q3 % 0x100 && b[1] == q2 % 0x100 && b[2] == q1 % 0x100 && b[3] == x % 0x100;
    var s := b + rest;
    assert s[0] == b[0] && s[1] == b[1] && s[2] == b[2] && s[3] == b[3];
    WholeTurns(x, q3 / 0x100);
  }

  lemma WholeTurns(x: int, k: int)
    requires IsInt32(x) && 0 <= x - k * TWO_32 < TWO_32
    ensures ToInt32(x - k * TWO_32) == x
  {
  }

  lemma Quotients(x: int) returns (q1: int, q2: int, q3: int)
    ensures q1 == x / 0x100 && q2 == q1 / 0x100 && q3 == q2 / 0x100
    ensures Number(q3 % 0x100, q2 % 0x100, q1 % 0x100, x % 0x100) == x - q3 / 0x100 * TWO_32
    ensures 0 <= x - q3 / 0x100 * TWO_32 < TWO_32
  {
    q1 := x / 0x100;
    q2 := q1 / 0x100;
    q3 := q2 / 0x100;
    var q4 := q3 / 0x100;
    assert x == q1 * 0x100 + x % 0x100 && q1 == q2 * 0x100 + q1 % 0x100;
    assert q2 == q3 * 0x100 + q2 % 0x100 && q3 == q4 * 0x100 + q3 % 0x100;
  }

  /** Two different four-byte images are two different numbers. */
  lemma Read32Injective(s: seq<byte>, t: seq<byte>)
    requires |s| == |t| == 4
    requires Read32(s) == Read32(t)
    ensures s == t
  {
    NumberRange(s[0], s[1], s[2], s[3]);
    NumberRange(t[0], t[1], t[2], t[3]);
    ToInt32Injective(Number(s[0], s[1], s[2], s[3]), Number(t[0], t[1], t[2], t[3]));
    NumberInjective(s[0], s[1], s[2], s[3], t[0], t[1], t[2], t[3]);
  }

  lemma ToInt32Injective(u: int, v: int)
    requires 0 <= u < TWO_32 && 0 <= v < TWO_32 && ToInt32(u) == ToInt32(v)
    ensures u == v
  {
  }

  lemma NumberRange(b3: byte, b2: byte, b1: byte, b0: byte)
    ensures 0 <= Number(b3, b2, b1, b0) < TWO_32
  {
  }

  lemma NumberInjective(s3: byte, s2: byte, s1: byte, s0: byte, t3: byte, t2: byte, t1: byte, t0: byte)
    requires Number(s3, s2, s1, s0) == Number(t3, t2, t1, t0)
    ensures s3 == t3 && s2 == t2 && s1 == t1 && s0 == t0
  {
  }

  /** Reading and writing back gives the bytes that were read. */
  lemma BigRead(s: seq<byte>)
    requires |s| == 4
    ensures Big32(Read32(s)) == s
  {
    ReadBig32(Read32(s), []);
    assert Big32(Read32(s)) + [] == Big32(Read32(s));
    Read32Injective(Big32(Read32(s)), s);
  }
}
