/**
 The Adler-32 checksum as section 2.2 of RFC 1950 defines it, started from 1 as the codec starts it,
 and the corruptions it is sure to notice.
 */
module Adler32 {
  import opened Machine

  const BASE := 65521

  datatype Sums = Sums(a: int, b: int)

  /** One pass over the bytes, each sum reduced at every step. */
  function Update(s: Sums, bytes: seq<byte>): Sums
    decreases |bytes|
  {
    if bytes == [] then s
    else
      var a := (s.a + bytes[0]) % BASE;
      Update(Sums(a, (s.b + a) % BASE), bytes[1..])
  }

  function Checksum(bytes: seq<byte>): int {
    var s := Update(Sums(1, 0), bytes);
    s.b * 0x1_0000 + s.a
  }

  // ------------------------------------------------------------------ closed form

  function Sum(bytes: seq<byte>): int {
    if bytes == [] then 0 else bytes[0] + Sum(bytes[1..])
  }

  /** Each byte counted once for every position from its own to the last. */
  function Weighted(bytes: seq<byte>): int {
    if bytes == [] then 0 else |bytes| * bytes[0] + Weighted(bytes[1..])
  }

  lemma Unfolded(s: Sums, bytes: seq<byte>)
    requires bytes != []
    ensures var x, rest := bytes[0], bytes[1..];
      var a := (s.a + x) % BASE;
      Update(s, bytes) == Update(Sums(a, (s.b + a) % BASE), rest) &&
      Sum(bytes) == x + Sum(rest) && Weighted(bytes) == (|rest| + 1) * x + Weighted(rest)
  {
  }

  lemma {:induction false} UpdateClosedForm(s: Sums, bytes: seq<byte>)
    requires 0 <= s.a < BASE && 0 <= s.b < BASE
    ensures Update(s, bytes).a == (s.a + Sum(bytes)) % BASE
    ensures Update(s, bytes).b == (s.b + |bytes| * s.a + Weighted(bytes)) % BASE
    decreases |bytes|
  {
    if bytes != [] {
      hide Update, Sum, Weighted;
      var x, rest := bytes[0], bytes[1..];
      var a := (s.a + x) % BASE;
      var b := (s.b + a) % BASE;
      Unfolded(s, bytes);
      UpdateClosedForm(Sums(a, b), rest);
      ModDrop(s.a + x, Sum(rest));
      WeightedStep(s.b, s.a, x, |rest|, Weighted(rest));
    }
  }

  /** What one step of `Update` does to the second sum, before and after reduction. */
  lemma WeightedStep(b: int, a: int, x: int, n: int, w: int)
    ensures ((b + (a + x) % BASE) % BASE + n * ((a + x) % BASE) + w) % BASE ==
      (b + (n + 1) * a + ((n + 1) * x + w)) % BASE
  {
    ScaledModDrop(b, a + x, n, w);
    assert n * (a + x) == n * a + n * x;
  }

  lemma ModDrop(x: int, y: int)
    ensures (x % BASE + y) % BASE == (x + y) % BASE
  {
  }

  lemma ScaledModDrop(b: int, x: int, n: int, w: int)
    ensures ((b + x % BASE) % BASE + n * (x % BASE) + w) % BASE == (b + x + n * x + w) % BASE
  {
    var q := x / BASE;
    var r := x % BASE;
    assert n * x == n * r + n * q * BASE by {
      assert x == q * BASE + r;
      assert n * (q * BASE + r) == n * q * BASE + n * r;
    }
    ModDrop(b + r, n * r + w);
    AddMultiple(b + r + n * r + w, q + n * q);
  }

  lemma AddMultiple(x: int, k: int)
    ensures (x + k * BASE) % BASE == x % BASE
  {
  }

  /** Two checksums agree exactly when both sums agree modulo 65521. */
  lemma ChecksumsAgree(s: seq<byte>, t: seq<byte>)
    ensures Checksum(s) == Checksum(t) <==>
            (Sum(s) - Sum(t)) % BASE == 0 && (|s| - |t| + Weighted(s) - Weighted(t)) % BASE == 0
    ensures 0 <= Checksum(s) < TWO_32
  {
    ChecksumSums(s);
    ChecksumSums(t);
    Congruent(1 + Sum(s), 1 + Sum(t));
    Congruent(|s| + Weighted(s), |t| + Weighted(t));
  }

  lemma ChecksumSums(s: seq<byte>)
    ensures Checksum(s) == (|s| + Weighted(s)) % BASE * 0x1_0000 + (1 + Sum(s)) % BASE
  {
    UpdateClosedForm(Sums(1, 0), s);
  }

  lemma Congruent(x: int, y: int)
    ensures x % BASE == y % BASE <==> (x - y) % BASE == 0
  {
  }

  // ------------------------------------------------------------------ what a change does to the sums

  lemma SumsFirst(bytes: seq<byte>)
    requires bytes != []
    ensures Sum(bytes) == bytes[0] + Sum(bytes[1..])
    ensures Weighted(bytes) == |bytes| * bytes[0] + Weighted(bytes[1..])
  {
  }

  lemma {:induction false} SumsOfConcat(s: seq<byte>, t: seq<byte>)
    ensures Sum(s + t) == Sum(s) + Sum(t)
    ensures Weighted(s + t) == Weighted(s) + |t| * Sum(s) + Weighted(t)
  {
    if s == [] {
      assert s + t == t;
    } else {
      hide Sum, Weighted;
      assert (s + t)[1..] == s[1..] + t;
      SumsOfConcat(s[1..], t);
      SumsFirst(s);
      SumsFirst(s + t);
      OneMore(|s|, |t|, s[0], Sum(s[1..]));
    }
  }

  lemma OneMore(n: int, m: int, x: int, sum: int)
    ensures (n + m) * x + m * sum == n * x + m * (x + sum)
  {
  }

  lemma SumsAt(pre: seq<byte>, x: byte, post: seq<byte>)
    ensures Sum(pre + ([x] + post)) == Sum(pre) + x + Sum(post)
    ensures Weighted(pre + ([x] + post)) == Weighted(pre) + (|post| + 1) * Sum(pre) + (|post| + 1) * x + Weighted(post)
  {
    SumsOfConcat(pre, [x] + post);
    assert ([x] + post)[1..] == post;
  }

  lemma Distribute(n: int, x: int, y: int)
    ensures n * (x - y) == n * x - n * y
  {
  }

  lemma SumsOfUpdate(s: seq<byte>, i: nat, x: byte)
    requires i < |s|
    ensures Sum(s[i := x]) == Sum(s) + (x as int - s[i])
    ensures Weighted(s[i := x]) == Weighted(s) + (|s| - i) * (x as int - s[i])
  {
    hide Sum, Weighted;
    var pre, post := s[..i], s[i + 1..];
    assert s == pre + ([s[i]] + post);
    assert s[i := x] == pre + ([x] + post);
    SumsAt(pre, s[i], post);
    SumsAt(pre, x, post);
    Distribute(|s| - i, x, s[i]);
  }

  /** A single changed byte is always noticed. */
  lemma ByteChangeNoticed(s: seq<byte>, i: nat, x: byte)
    requires i < |s| && x != s[i]
    ensures Checksum(s[i := x]) != Checksum(s)
  {
    hide Sum, Weighted, Checksum;
    SumsOfUpdate(s, i, x);
    ChecksumsAgree(s[i := x], s);
  }

  function SwapBytes(s: seq<byte>, i: nat, j: nat): seq<byte>
    requires i < j < |s|
  {
    s[i := s[j]][j := s[i]]
  }

  lemma SumsOfSwap(s: seq<byte>, i: nat, j: nat)
    requires i < j < |s|
    ensures |SwapBytes(s, i, j)| == |s| && Sum(SwapBytes(s, i, j)) == Sum(s)
    ensures Weighted(SwapBytes(s, i, j)) == Weighted(s) + (j - i) * (s[j] as int - s[i])
  {
    hide Sum, Weighted;
    var t := s[i := s[j]];
    SumsOfUpdate(s, i, s[j]);
    SumsOfUpdate(t, j, s[i]);
    Telescope(|s| - i, |s| - j, s[j] as int - s[i]);
  }

  lemma Telescope(a: int, b: int, d: int)
    ensures a * d + b * -d == (a - b) * d
  {
  }

  /** Swapping two unequal bytes goes unnoticed exactly when their distance is a multiple of 65521. */
  lemma SwapNoticed(s: seq<byte>, i: nat, j: nat)
    requires i < j < |s| && s[i] != s[j]
    ensures Checksum(SwapBytes(s, i, j)) == Checksum(s) <==> (j - i) % BASE == 0
  {
    SumsOfSwap(s, i, j);
    ChecksumsAgree(SwapBytes(s, i, j), s);
    MultipleExact(j - i, s[j] as int - s[i]);
  }

  lemma MultipleExact(k: int, d: int)
    requires -256 < d < 256 && d != 0
    ensures (k * d) % BASE == 0 <==> k % BASE == 0
  {
    if k % BASE == 0 {
      var q := k / BASE;
      assert k * d == q * d * BASE;
      AddMultiple(0, q * d);
    } else if (k * d) % BASE == 0 {
      if d > 0 {
        NoSmallFactor(k, d);
      } else {
        Negated(k, d);
        NoSmallFactor(k, -d);
      }
    }
  }

  lemma Negated(k: int, d: int)
    requires (k * d) % BASE == 0
    ensures (k * -d) % BASE == 0
  {
  }

  /** 65521 has no factor between 2 and 255. */
  lemma SmallPrime(d: int)
    requires 1 < d < 256
    ensures 65521 % d != 0
  {
  }

  /** A multiple k*d of 65521 with 0 < d < 256 is one because k is: descend from d to 65521 mod d. */
  lemma {:induction false} NoSmallFactor(k: int, d: int)
    requires 0 < d < 256
    requires (k * d) % BASE == 0
    ensures k % BASE == 0
    decreases d
  {
    if d > 1 {
      var r := BASE % d;
      SmallPrime(d);
      Remainder(k, d);
      NoSmallFactor(k, r);
    }
  }

  lemma Remainder(k: int, d: int)
    requires d > 0 && (k * d) % BASE == 0
    ensures (k * (BASE % d)) % BASE == 0
  {
    var q, m := BASE / d, k * d / BASE;
    assert k * (BASE % d) == k * BASE - q * (k * d) by {
      assert BASE % d == BASE - q * d;
      assert k * (q * d) == q * (k * d);
    }
    assert q * (k * d) == q * m * BASE;
    AddMultiple(0, k - q * m);
  }
}
