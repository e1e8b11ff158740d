/** lib/sha256.c: the streaming context, the one-shot hash and the keyed hash. */
module Sha256 {
  import opened Common
  import opened Sha256Spec

  // ---- The macros ----

  function EP0(x: Word): Word { ((x >> 2) | (x << 30)) ^ ((x >> 13) | (x << 19)) ^ ((x >> 22) | (x << 10)) }

  function EP1(x: Word): Word { ((x >> 6) | (x << 26)) ^ ((x >> 11) | (x << 21)) ^ ((x >> 25) | (x << 7)) }

  function SIG0(x: Word): Word { ((x >> 7) | (x << 25)) ^ ((x >> 18) | (x << 14)) ^ (x >> 3) }

  function SIG1(x: Word): Word { ((x >> 17) | (x << 15)) ^ ((x >> 19) | (x << 13)) ^ (x >> 10) }

  /** Shifts joined by "or" are the standard's rotations. */
  lemma Macros(x: Word)
    ensures EP0(x) == BigSigma0(x) && EP1(x) == BigSigma1(x) && SIG0(x) == SmallSigma0(x) && SIG1(x) == SmallSigma1(x)
  {}

  // ---- One block ----

  /** The message schedule, in the order the code fills it. */
  method FillSchedule(block: array<Byte>) returns (m: array<Word>)
    requires block.Length == 64
    ensures fresh(m) && m.Length == 64
    ensures forall t | 0 <= t < 64 :: m[t] == W(block[..], t)
  {
    hide Add, SmallSigma0, SmallSigma1, SIG0, SIG1, WordAt;
    m := new Word[64];
    for i := 0 to 16
      invariant forall t | 0 <= t < i :: m[t] == W(block[..], t)
    {
      m[i] := ReadWord(block, i);
    }
    for i := 16 to 64
      invariant forall t | 0 <= t < i :: m[t] == W(block[..], t)
    {
      Macros(m[i - 2]);
      Macros(m[i - 15]);
      m[i] := Add(Add(Add(SIG1(m[i - 2]), m[i - 7]), SIG0(m[i - 15])), m[i - 16]);
    }
  }

  /** The i-th big-endian word of the block. */
  method ReadWord(block: array<Byte>, i: nat) returns (w: Word)
    requires block.Length == 64 && i < 16
    ensures w == WordAt(block[..], i)
  {
    var j := 4 * i;
    w := ((block[j] as bv32) << 24) | ((block[j + 1] as bv32) << 16) | ((block[j + 2] as bv32) << 8)
        | (block[j + 3] as bv32);
  }

  lemma RoundIs(r: Regs, k: Word, w: Word)
    ensures var t1 := Add(Add(Add(Add(r.h, EP1(r.e)), Ch(r.e, r.f, r.g)), k), w);
            var t2 := Add(EP0(r.a), Maj(r.a, r.b, r.c));
            Round(r, k, w) == Regs(Add(t1, t2), r.a, r.b, r.c, Add(r.d, t1), r.e, r.f, r.g)
  {
    hide Add, EP0, EP1, Ch, Maj, BigSigma0, BigSigma1;
    Macros(r.a);
    Macros(r.e);
  }

  method RunRounds(m: array<Word>, r0: Regs, ghost block: seq<Byte>) returns (r: Regs)
    requires m.Length == 64 && |block| == 64 && forall t | 0 <= t < 64 :: m[t] == W(block, t)
    ensures r == Rounds(r0, block, 64)
  {
    hide Add, W, Round, RoundConstants, EP0, EP1, Ch, Maj;
    var k := RoundConstants();
    var a, b, c, d, e, f, g, h := r0.a, r0.b, r0.c, r0.d, r0.e, r0.f, r0.g, r0.h;
    for i := 0 to 64
      invariant Regs(a, b, c, d, e, f, g, h) == Rounds(r0, block, i)
    {
      RoundIs(Regs(a, b, c, d, e, f, g, h), k[i], m[i]);
      var t1 := Add(Add(Add(Add(h, EP1(e)), Ch(e, f, g)), k[i]), m[i]);
      var t2 := Add(EP0(a), Maj(a, b, c));
      h := g;
      g := f;
      f := e;
      e := Add(d, t1);
      d := c;
      c := b;
      b := a;
      a := Add(t1, t2);
    }
    r := Regs(a, b, c, d, e, f, g, h);
  }

  /** `x` shifted right by 8*i bits. */
  function Shr8(x: nat, i: nat): nat {
    if i == 0 then x else Shr8(x / 256, i - 1)
  }

  /** The bytes the code takes out by shifting are the digits. */
  lemma {:induction false} ShiftedDigit(x: nat, n: nat, i: nat)
    requires i < n
    ensures Digits(x, n)[n - 1 - i] == Shr8(x, i) % 256
  {
    if i > 0 {
      ShiftedDigit(x / 256, n - 1, i - 1);
    }
  }

  // ---- The context ----

  class Context {
    const data: array<Byte>
    var datalen: nat
    var bitlen: nat
    const state: array<Word>

    /** All the bytes given since `sha256_init`. */
    ghost var message: seq<Byte>

    ghost predicate Valid()
      reads this, data, state
    {
      && data.Length == 64 && state.Length == 8
      && Buffered(message, data[..], datalen, bitlen, state[..])
    }

    /** An uninitialised context. */
    constructor ()
      ensures Valid() && message == [] && fresh(data) && fresh(state)
    {
      data := new Byte[64];
      state := new Word[8];
      datalen, bitlen, message := 0, 0, [];
      new;
      Init();
    }

    method Init()
      requires data.Length == 64 && state.Length == 8
      modifies this, state
      ensures Valid() && message == []
    {
      datalen, bitlen, message := 0, 0, [];
      hide Buffered, InitialHash;
      LoadInitial();
      Started(data[..], state[..]);
    }

    method LoadInitial()
      requires state.Length == 8
      modifies state
      ensures state[..] == InitialHash()
    {
      hide InitialHash;
      var h := InitialHash();
      state[0], state[1], state[2], state[3] := h[0], h[1], h[2], h[3];
      state[4], state[5], state[6], state[7] := h[4], h[5], h[6], h[7];
    }

    /** `sha256_transform` on the context's own buffer. */
    method Transform()
      requires data.Length == 64 && state.Length == 8
      modifies state
      ensures state[..] == Compress(old(state[..]), data[..])
    {
      hide Add, W, Rounds, RoundConstants;
      var m := FillSchedule(data);
      ghost var h, block := state[..], data[..];
      var r := RunRounds(m, Regs(state[0], state[1], state[2], state[3], state[4], state[5], state[6], state[7]),
          block);
      assert r == Rounds(ToRegs(h), block, 64);
      AddState(r);
    }

    /** The working variables are added to the state. */
    method AddState(r: Regs)
      requires state.Length == 8
      modifies state
      ensures state[..] == AddRegs(old(state[..]), r)
    {
      hide Add, AddRegs;
      ghost var h := state[..];
      AddRegsAt(h, r);
      state[0] := Add(state[0], r.a);
      state[1] := Add(state[1], r.b);
      state[2] := Add(state[2], r.c);
      state[3] := Add(state[3], r.d);
      state[4] := Add(state[4], r.e);
      state[5] := Add(state[5], r.f);
      state[6] := Add(state[6], r.g);
      state[7] := Add(state[7], r.h);
      SameEight(state[..], AddRegs(h, r));
    }

    /** One turn of the loop of `sha256_update`. */
    method Absorb(b: Byte)
      requires Valid()
      modifies this, data, state
      ensures Valid() && message == old(message) + [b]
    {
      hide Buffered, Compress, HashBlocks;
      Room(message, data[..], datalen, bitlen, state[..]);
      AbsorbStep(message, data[..], datalen, bitlen, state[..], b);
      data[datalen] := b;
      assert data[..] == old(data[..])[old(datalen) := b];
      datalen := datalen + 1;
      message := message + [b];
      if datalen == 64 {
        Transform();
        bitlen := (bitlen + 512) % TWO64;
        datalen := 0;
      }
    }

    /** `sha256_update`. */
    method Update(input: seq<Byte>)
      requires Valid()
      modifies this, data, state
      ensures Valid() && message == old(message) + input
    {
      hide Buffered;
      for i := 0 to |input|
        invariant Valid() && message == old(message) + input[..i]
      {
        Absorb(input[i]);
        assert input[..i + 1] == input[..i] + [input[i]];
      }
      assert input[..|input|] == input;
    }

    /** The closing block but for the length; when the buffer is too full for that, a block of its own comes first. */
    method CloseBuffer(ghost m: seq<Byte>)
      requires Valid() && m == message
      modifies data, state
      ensures state[..] == HashBlocks(BeforeLast(m)) && data[..56] == LastBlock(m)[..56]
    {
      hide Compress, HashBlocks, LastBlock, BeforeLast;
      ghost var tail := data[..datalen];
      PadCases(m, datalen);
      if datalen < 56 {
        data[datalen] := 0x80;
        ZeroFrom(data, datalen + 1, 56);
      } else {
        data[datalen] := 0x80;
        ZeroFrom(data, datalen + 1, 64);
        assert data[..] == tail + [0x80] + Zeros(63 - datalen);
        Transform();
        ZeroFrom(data, 0, 56);
      }
    }

    method StoreLength()
      requires data.Length == 64
      modifies data
      ensures data[..] == old(data[..56]) + LengthBytes(bitlen)
    {
      hide Digits, Shr8, ToByte;
      forall i | 0 <= i < 8
        ensures Digits(bitlen, 8)[7 - i] == Shr8(bitlen, i) % 256
      {
        ShiftedDigit(bitlen, 8, i);
      }
      data[63] := ToByte(Shr8(bitlen, 0) % 256);
      data[62] := ToByte(Shr8(bitlen, 1) % 256);
      data[61] := ToByte(Shr8(bitlen, 2) % 256);
      data[60] := ToByte(Shr8(bitlen, 3) % 256);
      data[59] := ToByte(Shr8(bitlen, 4) % 256);
      data[58] := ToByte(Shr8(bitlen, 5) % 256);
      data[57] := ToByte(Shr8(bitlen, 6) % 256);
      data[56] := ToByte(Shr8(bitlen, 7) % 256);
    }

    /**
     * `sha256_final`: the digest of everything given since `sha256_init`. The context must be initialised again before
     * it is used.
     */
    method Final(hash: array<Byte>)
      requires Valid() && hash.Length >= 32 && hash != data
      modifies this, data, state, hash
      ensures data.Length == 64 && state.Length == 8
      ensures hash[..32] == Digest(old(message)) && hash[32..] == old(hash[32..])
    {
      hide Compress, HashBlocks, LastBlock, BeforeLast, LengthBytes, Output, Buffered;
      ghost var m := message;
      CloseBuffer(m);
      LengthStep(m, old(data[..]), datalen, bitlen, old(state[..]));
      bitlen := (bitlen + datalen * 8) % TWO64;
      StoreLength();
      assert data[..] == LastBlock(m) by {
        LastBlockEnds(m);
      }
      Transform();
      HashLast(m);
      WriteHash(hash);
    }

    method WriteHash(hash: array<Byte>)
      requires state.Length == 8 && hash.Length >= 32
      modifies hash
      ensures hash[..32] == Output(state[..]) && hash[32..] == old(hash[32..])
    {
      hide ByteOf, Output, Column;
      ghost var h := state[..];
      ColumnStart(hash[..32], h);
      for i := 0 to 4
        invariant Column(hash[..32], h, i) && hash[32..] == old(hash[32..])
      {
        ghost var before := hash[..32];
        hash[i] := ByteOf(state[0], i);
        hash[i + 4] := ByteOf(state[1], i);
        hash[i + 8] := ByteOf(state[2], i);
        hash[i + 12] := ByteOf(state[3], i);
        hash[i + 16] := ByteOf(state[4], i);
        hash[i + 20] := ByteOf(state[5], i);
        hash[i + 24] := ByteOf(state[6], i);
        hash[i + 28] := ByteOf(state[7], i);
        ColumnStep(before, h, i, hash[..32]);
      }
      ColumnDone(hash[..32], h);
    }
  }

  /** The bytes 0..i of every word are out. */
  ghost predicate Column(s: seq<Byte>, h: seq<Word>, i: nat)
    requires |s| == 32 && |h| == 8
  {
    forall k | 0 <= k < 32 && k % 4 < i :: s[k] == ByteOf(h[k / 4], k % 4)
  }

  lemma ColumnStart(s: seq<Byte>, h: seq<Word>)
    requires |s| == 32 && |h| == 8
    ensures Column(s, h, 0)
  {}

  lemma ColumnDone(s: seq<Byte>, h: seq<Word>)
    requires |s| == 32 && |h| == 8 && Column(s, h, 4)
    ensures s == Output(h)
  {
    hide ByteOf;
  }

  lemma Elsewhere(k: nat, i: nat)
    requires i < 4 && k % 4 < i
    ensures k != i && k != i + 4 && k != i + 8 && k != i + 12 && k != i + 16 && k != i + 20 && k != i + 24
            && k != i + 28
  {}

  lemma ColumnStep(s: seq<Byte>, h: seq<Word>, i: nat, s': seq<Byte>)
    requires |s| == |s'| == 32 && |h| == 8 && i < 4 && Column(s, h, i)
    requires s' ==
             s[i := ByteOf(h[0], i)][i + 4 := ByteOf(h[1], i)][i + 8 := ByteOf(h[2], i)][i + 12 := ByteOf(h[3], i)]
                    [i + 16 := ByteOf(h[4], i)][i + 20 := ByteOf(h[5], i)]
                    [i + 24 := ByteOf(h[6], i)][i + 28 := ByteOf(h[7], i)]
    ensures Column(s', h, i + 1)
  {
    hide ByteOf;
    assert s'[i] == ByteOf(h[0], i) && s'[i + 4] == ByteOf(h[1], i) && s'[i + 8] == ByteOf(h[2], i)
           && s'[i + 12] == ByteOf(h[3], i);
    assert s'[i + 16] == ByteOf(h[4], i) && s'[i + 20] == ByteOf(h[5], i) && s'[i + 24] == ByteOf(h[6], i)
           && s'[i + 28] == ByteOf(h[7], i);
    forall k | 0 <= k < 32 && k % 4 <= i
      ensures s'[k] == ByteOf(h[k / 4], k % 4)
    {
      if k % 4 < i {
        Elsewhere(k, i);
        assert s'[k] == s[k];
      } else {
        assert k == 4 * (k / 4) + i;
      }
    }
  }

  /**
   * The buffer holds the bytes after the last whole block; the state is the hash of the blocks before, and `bitlen`
   * their length.
   */
  ghost predicate Buffered(message: seq<Byte>, data: seq<Byte>, datalen: nat, bitlen: nat, state: seq<Word>) {
    var done := |message| - datalen;
    && datalen < 64 == |data| && 0 <= done && done % 64 == 0
    && data[..datalen] == message[done..]
    && bitlen == BitLength(done)
    && state == HashBlocks(message[..done])
  }

  lemma Started(data: seq<Byte>, state: seq<Word>)
    requires |data| == 64 && state == InitialHash()
    ensures Buffered([], data, 0, 0, state)
  {
    hide InitialHash;
  }

  lemma Room(message: seq<Byte>, data: seq<Byte>, datalen: nat, bitlen: nat, state: seq<Word>)
    requires Buffered(message, data, datalen, bitlen, state)
    ensures datalen < |data| == 64 && |state| == 8
  {}

  lemma BitLengthStep(n: nat, k: nat)
    ensures (BitLength(n) + 8 * k) % TWO64 == BitLength(n + k)
  {}

  lemma HashMore(m: seq<Byte>, block: seq<Byte>)
    requires |m| % 64 == 0 && |block| == 64
    ensures HashBlocks(m + block) == Compress(HashBlocks(m), block)
  {
    assert (m + block)[..|m + block| - 64] == m;
    assert (m + block)[|m + block| - 64..] == block;
  }

  /** One more byte, with or without completing a block. */
  lemma AbsorbStep(message: seq<Byte>, data: seq<Byte>, datalen: nat, bitlen: nat, state: seq<Word>, b: Byte)
    requires Buffered(message, data, datalen, bitlen, state)
    ensures datalen < 63 ==> Buffered(message + [b], data[datalen := b], datalen + 1, bitlen, state)
    ensures datalen == 63 ==>
              Buffered(message + [b], data[datalen := b], 0, (bitlen + 512) % TWO64,
                  Compress(state, data[datalen := b]))
  {
    hide Compress, HashBlocks, BitLength;
    var done := |message| - datalen;
    var m', d' := message + [b], data[datalen := b];
    assert d'[..datalen + 1] == m'[done..];
    assert m'[..done] == message[..done];
    if datalen == 63 {
      assert m' == message[..done] + d';
      BlockDone(message[..done], d', m', state, bitlen);
    }
  }

  lemma BlockDone(before: seq<Byte>, block: seq<Byte>, m: seq<Byte>, state: seq<Word>, bitlen: nat)
    requires |before| % 64 == 0 && |block| == 64 && m == before + block
    requires state == HashBlocks(before) && bitlen == BitLength(|before|)
    ensures Buffered(m, block, 0, (bitlen + 512) % TWO64, Compress(state, block))
  {
    hide Compress, HashBlocks, BitLength;
    assert m[..|m|] == m;
    HashMore(before, block);
    BitLengthStep(|before|, 64);
  }

  /** Overwrites a[i..n] with zeros. */
  method ZeroFrom(a: array<Byte>, i: nat, n: nat)
    requires i <= n <= a.Length
    modifies a
    ensures a[..] == old(a[..i]) + Zeros(n - i) + old(a[n..])
  {
    for k := i to n
      invariant a[..i] == old(a[..i]) && a[n..] == old(a[n..])
      invariant forall j | i <= j < k :: a[j] == 0
    {
      a[k] := 0;
    }
  }

  // ---- Padding, block by block ----

  lemma FewerBlocks(n: nat)
    requires n % 64 == 0 && n > 0
    ensures n >= 64 && (n - 64) % 64 == 0
  {}

  /** The padded message without its last block, and the last block. */
  function BeforeLast(m: seq<Byte>): (r: seq<Byte>)
    ensures |r| % 64 == 0
  {
    var p := Pad(m);
    FewerBlocks(|p|);
    p[..|p| - 64]
  }

  function LastBlock(m: seq<Byte>): (r: seq<Byte>)
    ensures |r| == 64
  {
    var p := Pad(m);
    FewerBlocks(|p|);
    p[|p| - 64..]
  }

  lemma HashLast(m: seq<Byte>)
    ensures HashBlocks(Pad(m)) == Compress(HashBlocks(BeforeLast(m)), LastBlock(m))
  {
    hide Compress;
  }

  lemma LastBlockEnds(m: seq<Byte>)
    ensures LastBlock(m) == LastBlock(m)[..56] + LengthBytes(BitLength(|m|))
  {
    hide LengthBytes;
  }

  lemma LengthStep(m: seq<Byte>, data: seq<Byte>, datalen: nat, bitlen: nat, state: seq<Word>)
    requires Buffered(m, data, datalen, bitlen, state)
    ensures (bitlen + datalen * 8) % TWO64 == BitLength(|m|)
  {
    hide HashBlocks;
    BitLengthStep(|m| - datalen, datalen);
  }

  /**
   * Where the padding of a message with n bytes after its last whole block falls: within that block, or with one more.
   */
  lemma PadCases(m: seq<Byte>, n: nat)
    requires n < 64 && n <= |m| && (|m| - n) % 64 == 0
    ensures n < 56 ==>
              && BeforeLast(m) == m[..|m| - n]
              && LastBlock(m)[..56] == m[|m| - n..] + [0x80] + Zeros(55 - n)
    ensures n >= 56 ==>
              && BeforeLast(m) == m[..|m| - n] + (m[|m| - n..] + [0x80] + Zeros(63 - n))
              && HashBlocks(BeforeLast(m)) == Compress(HashBlocks(m[..|m| - n]), m[|m| - n..] + [0x80] + Zeros(63 - n))
              && LastBlock(m)[..56] == Zeros(56)
  {
    hide LengthBytes, Compress, HashBlocks, ZeroPad;
    Leftover(|m|, n);
    if n < 56 {
      SameBlock(m, n);
    } else {
      OneMoreBlock(m, n);
      HashMore(m[..|m| - n], m[|m| - n..] + [0x80] + Zeros(63 - n));
    }
  }

  lemma Leftover(len: nat, n: nat)
    requires n < 64 && n <= len && (len - n) % 64 == 0
    ensures ZeroPad(len) == if n < 56 then 55 - n else 119 - n
  {
    assert len == 64 * ((len - n) / 64) + n;
    Blocks((len - n) / 64, n);
  }

  lemma SameBlock(m: seq<Byte>, n: nat)
    requires n < 56 && n <= |m| && ZeroPad(|m|) == 55 - n
    ensures BeforeLast(m) == m[..|m| - n] && LastBlock(m)[..56] == m[|m| - n..] + [0x80] + Zeros(55 - n)
  {
    hide LengthBytes, ZeroPad;
  }

  lemma OneMoreBlock(m: seq<Byte>, n: nat)
    requires 56 <= n < 64 && n <= |m| && ZeroPad(|m|) == 119 - n
    ensures BeforeLast(m) == m[..|m| - n] + (m[|m| - n..] + [0x80] + Zeros(63 - n))
    ensures LastBlock(m)[..56] == Zeros(56)
  {
    hide LengthBytes, ZeroPad;
  }

  lemma AddRegsAt(h: seq<Word>, r: Regs)
    requires |h| == 8
    ensures var h' := AddRegs(h, r);
            && h'[0] == Add(h[0], r.a) && h'[1] == Add(h[1], r.b) && h'[2] == Add(h[2], r.c) && h'[3] == Add(h[3], r.d)
            && h'[4] == Add(h[4], r.e) && h'[5] == Add(h[5], r.f) && h'[6] == Add(h[6], r.g) && h'[7] == Add(h[7], r.h)
  {
    hide Add;
  }

  lemma SameEight(a: seq<Word>, b: seq<Word>)
    requires |a| == |b| == 8 && a[0] == b[0] && a[1] == b[1] && a[2] == b[2] && a[3] == b[3]
    requires a[4] == b[4] && a[5] == b[5] && a[6] == b[6] && a[7] == b[7]
    ensures a == b
  {}

  // ---- One-shot and keyed hash ----

  ghost function Joined(parts: seq<seq<Byte>>): seq<Byte> {
    if parts == [] then [] else Joined(parts[..|parts| - 1]) + parts[|parts| - 1]
  }

  /** However a message is cut into `sha256_update` calls, `sha256_final` gives its digest. */
  method HashParts(parts: seq<seq<Byte>>, hash: array<Byte>)
    requires hash.Length >= 32
    modifies hash
    ensures hash[..32] == Digest(Joined(parts)) && hash[32..] == old(hash[32..])
  {
    hide Buffered, Digest;
    var ctx := new Context();
    for i := 0 to |parts|
      invariant ctx.Valid() && fresh(ctx) && fresh(ctx.data) && fresh(ctx.state) && ctx.message == Joined(parts[..i])
      invariant hash[..] == old(hash[..])
    {
      ctx.Update(parts[i]);
      assert parts[..i + 1][..i] == parts[..i];
    }
    assert parts[..|parts|] == parts;
    ctx.Final(hash);
  }

  /** `sha256_hash`. */
  method Hash(input: seq<Byte>, hash: array<Byte>)
    requires hash.Length >= 32
    modifies hash
    ensures hash[..32] == Digest(input) && hash[32..] == old(hash[32..])
  {
    hide Buffered, Digest;
    var ctx := new Context();
    ctx.Update(input);
    assert ctx.message == input;
    ctx.Final(hash);
  }

  /** The first block's worth of key material. */
  method PrepareKey(key: seq<Byte>) returns (k: array<Byte>)
    ensures fresh(k) && k[..] == HmacKey(key)
  {
    hide Digest;
    k := new Byte[64](_ => 0);
    if |key| > 64 {
      Hash(key, k);
      assert k[..] == k[..32] + k[32..];
    } else {
      for i := 0 to |key|
        invariant k[..i] == key[..i] && forall j | i <= j < 64 :: k[j] == 0
      {
        k[i] := key[i];
      }
    }
  }

  method XorInto(k: array<Byte>, pad: Byte) returns (r: array<Byte>)
    ensures fresh(r) && r[..] == XorAll(k[..], pad)
  {
    hide XorByte;
    r := new Byte[k.Length];
    for i := 0 to k.Length
      invariant forall j | 0 <= j < i :: r[j] == XorByte(k[j], pad)
    {
      r[i] := XorByte(k[i], pad);
    }
  }

  /** `sha256_hmac`: the keyed hash of RFC 2104, for keys of every length. */
  method HmacHash(key: seq<Byte>, input: seq<Byte>, hash: array<Byte>)
    requires hash.Length >= 32
    modifies hash
    ensures hash[..32] == Hmac(key, input)
  {
    hide Buffered, Digest, XorAll, HmacKey;
    var k := PrepareKey(key);
    var ipad := XorInto(k, 0x36);
    var opad := XorInto(k, 0x5c);
    var inner := new Byte[32];
    var ctx := new Context();
    ctx.Update(ipad[..]);
    ctx.Update(input);
    assert ctx.message == XorAll(HmacKey(key), 0x36) + input;
    ctx.Final(inner);
    ctx.Init();
    ctx.Update(opad[..]);
    ctx.Update(inner[..]);
    assert inner[..] == inner[..32];
    assert ctx.message == XorAll(HmacKey(key), 0x5c) + inner[..];
    ctx.Final(hash);
  }
}
