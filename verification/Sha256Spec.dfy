/** The Secure Hash Standard (FIPS 180-4) for SHA-256 on byte messages, and the keyed form of RFC 2104. */
module Sha256Spec {
  import opened Common

  type Word = bv32
  type Byte = bv8

  // ---- Sections 2.2.2 and 4.1.2: operations and functions ----

  /** Addition modulo 2^32. */
  function Add(x: Word, y: Word): Word { x + y }

  function Ch(x: Word, y: Word, z: Word): Word { (x & y) ^ (!x & z) }

  function Maj(x: Word, y: Word, z: Word): Word { (x & y) ^ (x & z) ^ (y & z) }

  function BigSigma0(x: Word): Word { x.RotateRight(2) ^ x.RotateRight(13) ^ x.RotateRight(22) }

  function BigSigma1(x: Word): Word { x.RotateRight(6) ^ x.RotateRight(11) ^ x.RotateRight(25) }

  function SmallSigma0(x: Word): Word { x.RotateRight(7) ^ x.RotateRight(18) ^ (x >> 3) }

  function SmallSigma1(x: Word): Word { x.RotateRight(17) ^ x.RotateRight(19) ^ (x >> 10) }

  /** Whatever bits m has: where x's are 1, `Ch` has y's, and where x's are 0, z's. */
  lemma ChBits(x: Word, y: Word, z: Word, m: Word)
    ensures x & m == m ==> Ch(x, y, z) & m == y & m
    ensures x & m == 0 ==> Ch(x, y, z) & m == z & m
  {
    Chosen(x, y, z, m);
  }

  /** Whatever bits m has: where two of the three agree, `Maj` has theirs. */
  lemma MajBits(x: Word, y: Word, z: Word, m: Word)
    ensures x & m == y & m ==> Maj(x, y, z) & m == x & m
    ensures x & m == z & m ==> Maj(x, y, z) & m == x & m
    ensures y & m == z & m ==> Maj(x, y, z) & m == y & m
  {
    FirstTwo(x, y, z, m);
    Outer(x, y, z, m);
    LastTwo(x, y, z, m);
  }

  /** Adding 0 changes nothing, and adding one more gives the next word, 0 after the last. */
  lemma AddSteps(x: Word, y: Word)
    ensures Add(x, 0) == x && Add(x, y + 1) == Add(x, y) + 1 && Add(0xffff_ffff, 1) == 0
  {}

  lemma Chosen(x: bv32, y: bv32, z: bv32, m: bv32)
    ensures x & m == m ==> ((x & y) ^ (!x & z)) & m == y & m
    ensures x & m == 0 ==> ((x & y) ^ (!x & z)) & m == z & m
  {}

  lemma FirstTwo(x: bv32, y: bv32, z: bv32, m: bv32)
    ensures x & m == y & m ==> ((x & y) ^ (x & z) ^ (y & z)) & m == x & m
  {}

  lemma Outer(x: bv32, y: bv32, z: bv32, m: bv32)
    ensures x & m == z & m ==> ((x & y) ^ (x & z) ^ (y & z)) & m == x & m
  {}

  lemma LastTwo(x: bv32, y: bv32, z: bv32, m: bv32)
    ensures y & m == z & m ==> ((x & y) ^ (x & z) ^ (y & z)) & m == y & m
  {}

  // ---- Section 4.2.2: constants; section 5.3.3: initial hash value ----

  function ConstantRow(r: nat): (row: seq<Word>)
    requires r < 8
    ensures |row| == 8
  {
    match r
    case 0 => [0x428a2f98, 0x71374491, 0xb5c0fbcf, 0xe9b5dba5, 0x3956c25b, 0x59f111f1, 0x923f82a4, 0xab1c5ed5]
    case 1 => [0xd807aa98, 0x12835b01, 0x243185be, 0x550c7dc3, 0x72be5d74, 0x80deb1fe, 0x9bdc06a7, 0xc19bf174]
    case 2 => [0xe49b69c1, 0xefbe4786, 0x0fc19dc6, 0x240ca1cc, 0x2de92c6f, 0x4a7484aa, 0x5cb0a9dc, 0x76f988da]
    case 3 => [0x983e5152, 0xa831c66d, 0xb00327c8, 0xbf597fc7, 0xc6e00bf3, 0xd5a79147, 0x06ca6351, 0x14292967]
    case 4 => [0x27b70a85, 0x2e1b2138, 0x4d2c6dfc, 0x53380d13, 0x650a7354, 0x766a0abb, 0x81c2c92e, 0x92722c85]
    case 5 => [0xa2bfe8a1, 0xa81a664b, 0xc24b8b70, 0xc76c51a3, 0xd192e819, 0xd6990624, 0xf40e3585, 0x106aa070]
    case 6 => [0x19a4c116, 0x1e376c08, 0x2748774c, 0x34b0bcb5, 0x391c0cb3, 0x4ed8aa4a, 0x5b9cca4f, 0x682e6ff3]
    case _ => [0x748f82ee, 0x78a5636f, 0x84c87814, 0x8cc70208, 0x90befffa, 0xa4506ceb, 0xbef9a3f7, 0xc67178f2]
  }

  function RoundConstant(t: nat): Word
    requires t < 64
  {
    ConstantRow(t / 8)[t % 8]
  }

  function RoundConstants(): (k: seq<Word>)
    ensures |k| == 64 && forall t | 0 <= t < 64 :: k[t] == RoundConstant(t)
  {
    seq(64, t requires 0 <= t < 64 => RoundConstant(t))
  }

  function InitialHash(): (h: seq<Word>)
    ensures |h| == 8
  {
    [ 0x6a09e667, 0xbb67ae85, 0x3c6ef372, 0xa54ff53a, 0x510e527f, 0x9b05688c, 0x1f83d9ab, 0x5be0cd19 ]
  }

  // ---- Section 5.1.1: padding ----

  function Zeros(n: nat): (z: seq<Byte>)
    ensures |z| == n && forall i | 0 <= i < n :: z[i] == 0
  {
    seq(n, _ => 0)
  }

  /** The number of zero bytes after the 0x80. */
  function ZeroPad(n: nat): nat {
    (119 - n % 64) % 64
  }

  /** It is the least number that leaves room for exactly the length at the end of a block. */
  lemma ZeroPadLeast(n: nat, z: nat)
    ensures (n + 1 + ZeroPad(n)) % 64 == 56
    ensures (n + 1 + z) % 64 == 56 ==> ZeroPad(n) <= z
  {
    var q, r := n / 64, n % 64;
    Blocks(q, r + 1 + ZeroPad(n));
    Blocks(q, r + 1 + z);
    WithinBlock(r, z);
  }

  lemma Blocks(q: nat, x: nat)
    ensures (64 * q + x) % 64 == x % 64
  {}

  lemma WithinBlock(r: nat, z: nat)
    requires r < 64
    ensures (r + 1 + (119 - r) % 64) % 64 == 56
    ensures (r + 1 + z) % 64 == 56 ==> (119 - r) % 64 <= z
  {
    assert (119 - r) % 64 == if r <= 55 then 55 - r else 119 - r;
  }

  lemma PadLength(n: nat)
    ensures (n + 1 + ZeroPad(n) + 8) % 64 == 0
  {
    hide ZeroPad;
    ZeroPadLeast(n, 0);
    EndOfBlock(n + 1 + ZeroPad(n));
  }

  lemma EndOfBlock(x: nat)
    requires x % 64 == 56
    ensures (x + 8) % 64 == 0
  {}

  /** The n low base-256 digits of x, most significant first. */
  function Digits(x: nat, n: nat): (d: seq<nat>)
    ensures |d| == n && forall i | 0 <= i < n :: d[i] < 256
  {
    if n == 0 then [] else Digits(x / 256, n - 1) + [x % 256]
  }

  ghost function Spelled(d: seq<nat>): nat {
    if d == [] then 0 else 256 * Spelled(d[..|d| - 1]) + d[|d| - 1]
  }

  /** Digits spell the number they came from. */
  lemma {:induction false} DigitsSpell(x: nat, n: nat)
    requires x < Power256(n)
    ensures Spelled(Digits(x, n)) == x
  {
    if n > 0 {
      DigitsSpell(x / 256, n - 1);
      assert Digits(x, n)[..n - 1] == Digits(x / 256, n - 1);
    }
  }

  function ToByte(d: nat): Byte
    requires d < 256
  {
    d as bv8
  }

  /** The 64-bit length, most significant byte first. */
  function LengthBytes(bits: nat): (b: seq<Byte>)
    ensures |b| == 8
  {
    var d := Digits(bits, 8);
    seq(8, i requires 0 <= i < 8 => ToByte(d[i]))
  }

  /** The bit length as the code keeps it: modulo 2^64. The standard is for messages of fewer than 2^61 bytes. */
  function BitLength(bytes: nat): (r: nat)
    ensures bytes < 0x2000_0000_0000_0000 ==> r == 8 * bytes
  {
    (8 * bytes) % TWO64
  }

  function Pad(m: seq<Byte>): (p: seq<Byte>)
    ensures |p| % 64 == 0 && |p| > 0
  {
    PadLength(|m|);
    m + [0x80] + Zeros(ZeroPad(|m|)) + LengthBytes(BitLength(|m|))
  }

  // ---- Section 6.2.2: hash computation ----

  function WordAt(block: seq<Byte>, t: nat): Word
    requires |block| == 64 && t < 16
  {
    ((block[4 * t] as bv32) << 24) | ((block[4 * t + 1] as bv32) << 16) | ((block[4 * t + 2] as bv32) << 8)
        | (block[4 * t + 3] as bv32)
  }

  /** The message schedule. */
  function W(block: seq<Byte>, t: nat): Word
    requires |block| == 64 && t < 64
  {
    if t < 16 then WordAt(block, t)
    else Add(Add(Add(SmallSigma1(W(block, t - 2)), W(block, t - 7)), SmallSigma0(W(block, t - 15))), W(block, t - 16))
  }

  /** The eight working variables. */
  datatype Regs = Regs(a: Word, b: Word, c: Word, d: Word, e: Word, f: Word, g: Word, h: Word)

  function Round(r: Regs, k: Word, w: Word): Regs {
    var t1 := Add(Add(Add(Add(r.h, BigSigma1(r.e)), Ch(r.e, r.f, r.g)), k), w);
    var t2 := Add(BigSigma0(r.a), Maj(r.a, r.b, r.c));
    Regs(Add(t1, t2), r.a, r.b, r.c, Add(r.d, t1), r.e, r.f, r.g)
  }

  function Rounds(r: Regs, block: seq<Byte>, t: nat): Regs
    requires |block| == 64 && t <= 64
  {
    if t == 0 then r else Round(Rounds(r, block, t - 1), RoundConstants()[t - 1], W(block, t - 1))
  }

  function ToRegs(h: seq<Word>): Regs
    requires |h| == 8
  {
    Regs(h[0], h[1], h[2], h[3], h[4], h[5], h[6], h[7])
  }

  function AddRegs(h: seq<Word>, r: Regs): (h': seq<Word>)
    requires |h| == 8
    ensures |h'| == 8
  {
    [Add(h[0], r.a), Add(h[1], r.b), Add(h[2], r.c), Add(h[3], r.d), Add(h[4], r.e), Add(h[5], r.f), Add(h[6], r.g),
        Add(h[7], r.h)]
  }

  function Compress(h: seq<Word>, block: seq<Byte>): (h': seq<Word>)
    requires |h| == 8 && |block| == 64
    ensures |h'| == 8
  {
    AddRegs(h, Rounds(ToRegs(h), block, 64))
  }

  /** The hash value after all the blocks of a padded message, or of a prefix of one. */
  function HashBlocks(m: seq<Byte>): (h: seq<Word>)
    requires |m| % 64 == 0
    ensures |h| == 8
  {
    if m == [] then InitialHash() else Compress(HashBlocks(m[..|m| - 64]), m[|m| - 64..])
  }

  function ByteOf(w: Word, i: nat): Byte
    requires i < 4
  {
    if i == 0 then ((w >> 24) & 0xff) as bv8
    else if i == 1 then ((w >> 16) & 0xff) as bv8
    else if i == 2 then ((w >> 8) & 0xff) as bv8
    else (w & 0xff) as bv8
  }

  /** The hash value as bytes, each word most significant byte first. */
  function Output(h: seq<Word>): (d: seq<Byte>)
    requires |h| == 8
    ensures |d| == 32
  {
    seq(32, i requires 0 <= i < 32 => ByteOf(h[i / 4], i % 4))
  }

  function Digest(m: seq<Byte>): (d: seq<Byte>)
    ensures |d| == 32
  {
    Output(HashBlocks(Pad(m)))
  }

  // ---- RFC 2104, section 2 ----

  function HmacKey(key: seq<Byte>): (k: seq<Byte>)
    ensures |k| == 64
  {
    var k := if |key| > 64 then Digest(key) else key;
    k + Zeros(64 - |k|)
  }

  function XorByte(x: Byte, y: Byte): Byte { x ^ y }

  function XorAll(k: seq<Byte>, pad: Byte): (r: seq<Byte>)
    ensures |r| == |k|
  {
    seq(|k|, i requires 0 <= i < |k| => XorByte(k[i], pad))
  }

  function Hmac(key: seq<Byte>, text: seq<Byte>): seq<Byte> {
    Digest(XorAll(HmacKey(key), 0x5c) + Digest(XorAll(HmacKey(key), 0x36) + text))
  }

  /** Byte by byte: the key, or its digest if longer than a block, filled up with zeros, against 0x36 and 0x5c. */
  lemma HmacIs(key: seq<Byte>, text: seq<Byte>, inner: seq<Byte>, outer: seq<Byte>)
    requires |inner| == |outer| == 64
    requires var k := if |key| > 64 then Digest(key) else key;
             forall i | 0 <= i < 64 ::
               && inner[i] == XorByte(if i < |k| then k[i] else 0, 0x36)
               && outer[i] == XorByte(if i < |k| then k[i] else 0, 0x5c)
    ensures Hmac(key, text) == Digest(outer + Digest(inner + text))
  {
    hide Digest, XorByte;
    assert inner == XorAll(HmacKey(key), 0x36);
    assert outer == XorAll(HmacKey(key), 0x5c);
  }

  // ---- The encodings are what they should be ----

  /** Four bytes of a word, read as the block reader does, give the word. */
  lemma WordRoundTrip(w: Word)
    ensures ((ByteOf(w, 0) as bv32) << 24) | ((ByteOf(w, 1) as bv32) << 16) | ((ByteOf(w, 2) as bv32) << 8)
            | (ByteOf(w, 3) as bv32) == w
  {}

  /** And the words of a block are read from its bytes in order: byte j of word t is byte 4t + j of the block. */
  lemma WordBytes(block: seq<Byte>, t: nat, j: nat)
    requires |block| == 64 && t < 16 && j < 4
    ensures ByteOf(WordAt(block, t), j) == block[4 * t + j]
  {
    hide ByteOf;
    JoinedBytes(block[4 * t], block[4 * t + 1], block[4 * t + 2], block[4 * t + 3]);
    match j {
      case 0 =>
      case 1 =>
      case 2 =>
      case _ =>
    }
  }

  lemma JoinedBytes(a: Byte, b: Byte, c: Byte, d: Byte)
    ensures var w := ((a as bv32) << 24) | ((b as bv32) << 16) | ((c as bv32) << 8) | (d as bv32);
            ByteOf(w, 0) == a && ByteOf(w, 1) == b && ByteOf(w, 2) == c && ByteOf(w, 3) == d
  {}

  /** The bytes are those of the words, most significant byte first, in order. */
  ghost predicate Spelt(d: seq<Byte>, h: seq<Word>) {
    && |d| == 4 * |h|
    && forall i | 0 <= i < |h| ::
         ((d[4 * i] as bv32) << 24) | ((d[4 * i + 1] as bv32) << 16) | ((d[4 * i + 2] as bv32) << 8)
         | (d[4 * i + 3] as bv32) == h[i]
  }

  lemma OutputSpells(h: seq<Word>)
    requires |h| == 8
    ensures Spelt(Output(h), h)
  {
    hide ByteOf, Output;
    var d := Output(h);
    forall i | 0 <= i < 8
      ensures ((d[4 * i] as bv32) << 24) | ((d[4 * i + 1] as bv32) << 16) | ((d[4 * i + 2] as bv32) << 8)
              | (d[4 * i + 3] as bv32) == h[i]
    {
      OutputAt(h, i, 0);
      OutputAt(h, i, 1);
      OutputAt(h, i, 2);
      OutputAt(h, i, 3);
      WordRoundTrip(h[i]);
    }
  }

  lemma OutputAt(h: seq<Word>, i: nat, j: nat)
    requires |h| == 8 && i < 8 && j < 4
    ensures Output(h)[4 * i + j] == ByteOf(h[i], j)
  {
    hide ByteOf;
    assert (4 * i + j) / 4 == i && (4 * i + j) % 4 == j;
  }
}
