/** SHA-256 as FIPS 180-4 defines it, and the streaming context that computes it. */
module Sha256 {
  import opened Bytes

  /** A 32-bit word. Only the logical functions look at its bits. */
  type Word = Uint

  // ---------- FIPS 180-4, sections 4.1.2, 4.2.2 and 5.3.3 ----------

  /** Rotation to the right; in five bits, 0 - n is 32 - n. */
  function RotR(x: bv32, n: bv5): bv32
    requires n != 0
  {
    (x >> n) | (x << (0 - n))
  }

  function Choose(x: bv32, y: bv32, z: bv32): bv32 {
    (x & y) ^ (!x & z)
  }

  function Majority(x: bv32, y: bv32, z: bv32): bv32 {
    (x & y) ^ (x & z) ^ (y & z)
  }

  function Xor(x: bv32, y: bv32, z: bv32): bv32 {
    x ^ y ^ z
  }

  /** Addition modulo 2^32. */
  function Add(x: Word, y: Word): Word {
    (x as int + y) % TWO32
  }

  function Ch(x: Word, y: Word, z: Word): Word {
    Choose(x as bv32, y as bv32, z as bv32) as Word
  }

  function Maj(x: Word, y: Word, z: Word): Word {
    Majority(x as bv32, y as bv32, z as bv32) as Word
  }

  function Sum0(x: bv32): bv32 {
    Xor(RotR(x, 2), RotR(x, 13), RotR(x, 22))
  }

  function Sum1(x: bv32): bv32 {
    Xor(RotR(x, 6), RotR(x, 11), RotR(x, 25))
  }

  function Mix0(x: bv32): bv32 {
    Xor(RotR(x, 7), RotR(x, 18), x >> 3)
  }

  function Mix1(x: bv32): bv32 {
    Xor(RotR(x, 17), RotR(x, 19), x >> 10)
  }

  function BigSigma0(w: Word): Word {
    Sum0(w as bv32) as Word
  }

  function BigSigma1(w: Word): Word {
    Sum1(w as bv32) as Word
  }

  function SmallSigma0(w: Word): Word {
    Mix0(w as bv32) as Word
  }

  function SmallSigma1(w: Word): Word {
    Mix1(w as bv32) as Word
  }

  /** One constant for each round, in rows of eight. */
  const K: seq<seq<Word>> := [
    [0x428a2f98, 0x71374491, 0xb5c0fbcf, 0xe9b5dba5, 0x3956c25b, 0x59f111f1, 0x923f82a4, 0xab1c5ed5],
    [0xd807aa98, 0x12835b01, 0x243185be, 0x550c7dc3, 0x72be5d74, 0x80deb1fe, 0x9bdc06a7, 0xc19bf174],
    [0xe49b69c1, 0xefbe4786, 0x0fc19dc6, 0x240ca1cc, 0x2de92c6f, 0x4a7484aa, 0x5cb0a9dc, 0x76f988da],
    [0x983e5152, 0xa831c66d, 0xb00327c8, 0xbf597fc7, 0xc6e00bf3, 0xd5a79147, 0x06ca6351, 0x14292967],
    [0x27b70a85, 0x2e1b2138, 0x4d2c6dfc, 0x53380d13, 0x650a7354, 0x766a0abb, 0x81c2c92e, 0x92722c85],
    [0xa2bfe8a1, 0xa81a664b, 0xc24b8b70, 0xc76c51a3, 0xd192e819, 0xd6990624, 0xf40e3585, 0x106aa070],
    [0x19a4c116, 0x1e376c08, 0x2748774c, 0x34b0bcb5, 0x391c0cb3, 0x4ed8aa4a, 0x5b9cca4f, 0x682e6ff3],
    [0x748f82ee, 0x78a5636f, 0x84c87814, 0x8cc70208, 0x90befffa, 0xa4506ceb, 0xbef9a3f7, 0xc67178f2]]

  function Constant(t: nat): Word
    requires t < 64
  {
    K[t / 8][t % 8]
  }

  datatype Regs = Regs(a: Word, b: Word, c: Word, d: Word, e: Word, f: Word, g: Word, h: Word)

  const H0: Regs := Regs(0x6a09e667, 0xbb67ae85, 0x3c6ef372, 0xa54ff53a, 0x510e527f, 0x9b05688c, 0x1f83d9ab, 0x5be0cd19)

  // ---------- Sections 5.1.1, 5.2.1 and 6.2.2 ----------

  function WordAt(b: seq<Byte>, i: nat): Word
    requires 4 * i + 4 <= |b|
  {
    Btoui(b[4 * i..4 * i + 4])
  }

  /** The first `n` words of a block's message schedule. */
  function Schedule(b: seq<Byte>, n: nat): (w: seq<Word>)
    requires |b| == 64
    ensures |w| == n
  {
    if n == 0 then []
    else
      var w := Schedule(b, n - 1);
      var t := n - 1;
      w + [if t < 16 then WordAt(b, t)
           else Add(Add(Add(SmallSigma1(w[t - 2]), w[t - 7]), SmallSigma0(w[t - 15])), w[t - 16])]
  }

  function Round(x: Regs, k: Word, w: Word): Regs {
    var t1 := Add(Add(Add(Add(x.h, BigSigma1(x.e)), Ch(x.e, x.f, x.g)), k), w);
    var t2 := Add(BigSigma0(x.a), Maj(x.a, x.b, x.c));
    Regs(Add(t1, t2), x.a, x.b, x.c, Add(x.d, t1), x.e, x.f, x.g)
  }

  function Rounds(x: Regs, w: seq<Word>, t: nat): Regs
    requires |w| == 64 && t <= 64
  {
    if t == 0 then x else Round(Rounds(x, w, t - 1), Constant(t - 1), w[t - 1])
  }

  function Plus(x: Regs, y: Regs): Regs {
    Regs(Add(x.a, y.a), Add(x.b, y.b), Add(x.c, y.c), Add(x.d, y.d),
         Add(x.e, y.e), Add(x.f, y.f), Add(x.g, y.g), Add(x.h, y.h))
  }

  function Compress(x: Regs, b: seq<Byte>): Regs
    requires |b| == 64
  {
    Plus(x, Rounds(x, Schedule(b, 64), 64))
  }

  /** All whole blocks of `m`, in order. */
  function Blocks(x: Regs, m: seq<Byte>): Regs
    decreases |m|
  {
    if |m| < 64 then x else Blocks(Compress(x, m[..64]), m[64..])
  }

  function Zeros(n: nat): (z: seq<Byte>)
    ensures |z| == n
  {
    seq(n, _ => 0)
  }

  /** The length in bits as a 64-bit number. */
  function Length64(bits: nat): (b: seq<Byte>)
    ensures |b| == 8
  {
    Be32(bits % TWO64 / TWO32) + Be32(bits % TWO32)
  }

  lemma PaddedLength(n: nat)
    ensures (n + 1 + (55 - n) % 64 + 8) % 64 == 0
  {
    var q := (55 - n) / 64;
    assert (55 - n) % 64 == 55 - n - 64 * q;
  }

  /** A one bit, then the fewest zero bits that leave room for the length in the last block. */
  function Pad(m: seq<Byte>): (p: seq<Byte>)
    ensures |p| % 64 == 0
  {
    PaddedLength(|m|);
    m + [0x80] + Zeros((55 - |m|) % 64) + Length64(8 * |m|)
  }

  function Digest(x: Regs): (d: seq<Byte>)
    ensures |d| == 32
  {
    Be32(x.a) + Be32(x.b) + Be32(x.c) + Be32(x.d) +
    Be32(x.e) + Be32(x.f) + Be32(x.g) + Be32(x.h)
  }

  /** Byte `i` of each word in the digest. */
  lemma DigestAt(x: Regs, i: nat)
    requires i < 4
    ensures var d := Digest(x);
            && d[i] == Be32(x.a)[i] && d[i + 4] == Be32(x.b)[i] && d[i + 8] == Be32(x.c)[i]
            && d[i + 12] == Be32(x.d)[i] && d[i + 16] == Be32(x.e)[i] && d[i + 20] == Be32(x.f)[i]
            && d[i + 24] == Be32(x.g)[i] && d[i + 28] == Be32(x.h)[i]
  {
    hide Be32;
  }

  function Hash(m: seq<Byte>): (d: seq<Byte>)
    ensures |d| == 32
  {
    Digest(Blocks(H0, Pad(m)))
  }

  // ---------- Blocks can be fed one after the other ----------

  lemma {:induction false} BlocksConcat(x: Regs, m: seq<Byte>, n: seq<Byte>)
    requires |m| % 64 == 0
    ensures Blocks(x, m + n) == Blocks(Blocks(x, m), n)
    decreases |m|
  {
    hide Compress;
    if |m| == 0 {
      assert m + n == n;
    } else {
      assert (m + n)[..64] == m[..64] && (m + n)[64..] == m[64..] + n;
      BlocksConcat(Compress(x, m[..64]), m[64..], n);
    }
  }

  lemma OneBlock(x: Regs, m: seq<Byte>)
    requires |m| == 64
    ensures Blocks(x, m) == Compress(x, m)
  {
    assert m[..64] == m && |m[64..]| == 0;
  }

  lemma OneMoreBlock(x: Regs, m: seq<Byte>, b: seq<Byte>)
    requires |m| % 64 == 0 && |b| == 64
    ensures Blocks(x, m + b) == Compress(Blocks(x, m), b)
  {
    BlocksConcat(x, m, b);
    OneBlock(Blocks(x, m), b);
  }

  /** What the padding adds to the whole blocks `m` and the rest `t`: one block, or two. */
  lemma PaddedBlocks(m: seq<Byte>, t: seq<Byte>)
    requires |m| % 64 == 0 && |t| < 64
    ensures var len := Length64(8 * |m + t|);
            && (|t| < 56 ==> Pad(m + t) == m + (t + [0x80] + Zeros(55 - |t|) + len))
            && (|t| >= 56 ==> Pad(m + t) == m + (t + [0x80] + Zeros(63 - |t|)) + (Zeros(56) + len))
  {
    var k := (55 - |m + t|) % 64;
    if |t| < 56 {
      assert k == 55 - |t|;
    } else {
      assert k == 119 - |t|;
      assert Zeros(k) == Zeros(63 - |t|) + Zeros(56);
    }
  }

  // ---------- The streaming context ----------

  function Wrap64(n: nat): nat {
    n % TWO64
  }

  /** `n` bytes of `message` are still buffered in `data`; the whole blocks before them have
      gone through the compression function and are counted in bits. */
  ghost predicate Streams(data: seq<Byte>, n: nat, x: Regs, count: int, message: seq<Byte>) {
    && n <= 64 == |data| && n <= |message|
    && (|message| - n) % 64 == 0
    && data[..n] == message[|message| - n..]
    && x == Blocks(H0, message[..|message| - n])
    && count == Wrap64(8 * (|message| - n))
  }

  lemma NothingStreamed(data: seq<Byte>)
    requires |data| == 64
    ensures Streams(data, 0, H0, 0, [])
  {
  }

  lemma ByteBuffered(data: seq<Byte>, n: nat, x: Regs, count: int, message: seq<Byte>, b: Byte)
    requires Streams(data, n, x, count, message) && n < 64
    ensures Streams(data[n := b], n + 1, x, count, message + [b])
  {
    hide Blocks;
    var message' := message + [b];
    assert data[n := b][..n + 1] == data[..n] + [b] == message'[|message'| - (n + 1)..];
    assert message'[..|message'| - (n + 1)] == message[..|message| - n];
  }

  lemma BlockClosed(data: seq<Byte>, x: Regs, count: int, message: seq<Byte>)
    requires Streams(data, 64, x, count, message)
    ensures Streams(data, 0, Compress(x, data), Wrap64(count + 512), message)
  {
    hide Compress, Blocks, Wrap64;
    WholeAndLast(data, message);
    OneMoreBlock(H0, message[..|message| - 64], data);
    WrapTwice(8 * (|message| - 64), 512);
  }

  lemma WholeAndLast(data: seq<Byte>, message: seq<Byte>)
    requires |data| == 64 <= |message| && data[..64] == message[|message| - 64..]
    ensures message == message[..|message| - 64] + data && message[..|message|] == message
    ensures data[..0] == [] == message[|message|..]
  {
    assert data == data[..64];
  }

  lemma WrapTwice(n: nat, k: nat)
    ensures Wrap64(Wrap64(n) + k) == Wrap64(n + k)
  {
    var q, v := n / TWO64, n % TWO64;
    assert n + k == q * TWO64 + (v + k);
  }

  lemma TwoWords(n: nat, hi: Uint, lo: Uint)
    requires TWO32 * hi + lo == Wrap64(n)
    ensures hi == n % TWO64 / TWO32 && lo == n % TWO32
  {
    var q := n / TWO64;
    assert n == (q * TWO32 + hi) * TWO32 + lo;
  }

  /** The two words of the counter are the 64-bit length. */
  lemma LengthWords(lo: Uint, hi: Uint, whole: nat, rest: nat)
    requires TWO32 * hi + lo == Wrap64(Wrap64(8 * whole) + 8 * rest)
    ensures Be32(hi) + Be32(lo) == Length64(8 * (whole + rest))
  {
    hide Be32;
    WrapTwice(8 * whole, 8 * rest);
    TwoWords(8 * whole + 8 * rest, hi, lo);
  }

  /** The message is the whole blocks and the buffered rest. */
  lemma StreamedMessage(data: seq<Byte>, n: nat, x: Regs, count: int, message: seq<Byte>)
    requires Streams(data, n, x, count, message)
    ensures message == message[..|message| - n] + data[..n]
  {
  }

  /** A last block that holds rest, padding and length completes the hash. */
  lemma LastBlock(data: seq<Byte>, n: nat, x: Regs, count: int, message: seq<Byte>)
    requires Streams(data, n, x, count, message) && n < 56
    ensures Compress(x, data[..n] + [0x80] + Zeros(55 - n) + Length64(8 * |message|)) == Blocks(H0, Pad(message))
  {
    hide Compress, Blocks, Pad, Length64;
    var m, t := message[..|message| - n], data[..n];
    StreamedMessage(data, n, x, count, message);
    PaddedBlocks(m, t);
    OneMoreBlock(H0, m, t + [0x80] + Zeros(55 - n) + Length64(8 * |message|));
  }

  /** A rest too long for that takes two more blocks. */
  lemma LastTwoBlocks(data: seq<Byte>, n: nat, x: Regs, count: int, message: seq<Byte>)
    requires Streams(data, n, x, count, message) && 56 <= n < 64
    ensures Compress(Compress(x, data[..n] + [0x80] + Zeros(63 - n)), Zeros(56) + Length64(8 * |message|))
            == Blocks(H0, Pad(message))
  {
    hide Compress, Blocks, Pad, Length64;
    var m, t := message[..|message| - n], data[..n];
    StreamedMessage(data, n, x, count, message);
    PaddedBlocks(m, t);
    OneMoreBlock(H0, m, t + [0x80] + Zeros(63 - n));
    OneMoreBlock(H0, m + (t + [0x80] + Zeros(63 - n)), Zeros(56) + Length64(8 * |message|));
  }

  class Ctx {
    const data: array<Byte>
    var datalen: nat
    var bitlen0: Uint
    var bitlen1: Uint
    const state: array<Word>
    ghost var message: seq<Byte>

    ghost function Registers(): Regs
      reads this, state
      requires state.Length == 8
    {
      Regs(state[0], state[1], state[2], state[3], state[4], state[5], state[6], state[7])
    }

    ghost function Count(): nat
      reads this
    {
      TWO32 * bitlen1 + bitlen0
    }

    ghost predicate Valid()
      reads this, data, state
    {
      && data.Length == 64 && state.Length == 8 && datalen < 64
      && Streams(data[..], datalen, Registers(), Count(), message)
    }

    constructor Init()
      ensures Valid() && message == [] && fresh(data) && fresh(state)
    {
      hide Streams;
      data := new Byte[64](_ => 0);
      state := new Word[] [0x6a09e667, 0xbb67ae85, 0x3c6ef372, 0xa54ff53a,
                           0x510e527f, 0x9b05688c, 0x1f83d9ab, 0x5be0cd19];
      datalen := 0;
      bitlen0 := 0;
      bitlen1 := 0;
      message := [];
      new;
      NothingStreamed(data[..]);
    }

    /** The message schedule of the block in `data`. */
    method Expand() returns (m: array<Word>)
      requires data.Length == 64
      ensures fresh(m) && m[..] == Schedule(data[..], 64)
    {
      hide Add, WordAt, SmallSigma0, SmallSigma1;
      m := new Word[64](_ => 0);
      for i := 0 to 16
        invariant m[..i] == Schedule(data[..], i)
      {
        m[i] := WordAt(data[..], i);
        assert m[..i + 1] == m[..i] + [m[i]];
      }
      for i := 16 to 64
        invariant m[..i] == Schedule(data[..], i)
      {
        m[i] := Add(Add(Add(SmallSigma1(m[i - 2]), m[i - 7]), SmallSigma0(m[i - 15])), m[i - 16]);
        assert m[..i + 1] == m[..i] + [m[i]];
      }
      assert m[..64] == m[..];
    }

    /** The 64 rounds. */
    static method RunRounds(x: Regs, m: array<Word>) returns (y: Regs)
      requires m.Length == 64
      ensures y == Rounds(x, m[..], 64)
    {
      hide Add, BigSigma0, BigSigma1, Ch, Maj, Constant;
      var Regs(a, b, c, d, e, f, g, h) := x;
      for i := 0 to 64
        invariant Regs(a, b, c, d, e, f, g, h) == Rounds(x, m[..], i)
      {
        var t1 := Add(Add(Add(Add(h, BigSigma1(e)), Ch(e, f, g)), Constant(i)), m[i]);
        var t2 := Add(BigSigma0(a), Maj(a, b, c));
        h := g;
        g := f;
        f := e;
        e := Add(d, t1);
        d := c;
        c := b;
        b := a;
        a := Add(t1, t2);
      }
      y := Regs(a, b, c, d, e, f, g, h);
    }

    /** One block through the compression function. */
    method Transform()
      requires data.Length == 64 && state.Length == 8
      modifies state
      ensures Registers() == Compress(old(Registers()), data[..])
    {
      hide Add, Schedule, Rounds;
      var m := Expand();
      var y := RunRounds(Regs(state[0], state[1], state[2], state[3], state[4], state[5], state[6], state[7]), m);
      state[0] := Add(state[0], y.a);
      state[1] := Add(state[1], y.b);
      state[2] := Add(state[2], y.c);
      state[3] := Add(state[3], y.d);
      state[4] := Add(state[4], y.e);
      state[5] := Add(state[5], y.f);
      state[6] := Add(state[6], y.g);
      state[7] := Add(state[7], y.h);
    }

    /** The two-word bit counter, modulo 2^64. */
    method AddBits(bits: nat)
      requires bits <= 512
      modifies this`bitlen0, this`bitlen1
      ensures Count() == Wrap64(old(Count()) + bits)
    {
      if bitlen0 > 0xffff_ffff - bits {
        bitlen1 := (bitlen1 + 1) % TWO32;
      }
      bitlen0 := (bitlen0 + bits) % TWO32;
    }

    /** A full buffer goes through the compression function and is counted. */
    method Flush()
      requires data.Length == 64 && state.Length == 8 && datalen == 64
      requires Streams(data[..], 64, Registers(), Count(), message)
      modifies this`datalen, this`bitlen0, this`bitlen1, state
      ensures Valid()
    {
      hide Streams, Compress, Wrap64;
      BlockClosed(data[..], Registers(), Count(), message);
      Transform();
      AddBits(512);
      datalen := 0;
    }

    /** Buffer one byte. */
    method Buffer(x: Byte)
      requires Valid()
      modifies this`datalen, this`message, data
      ensures data.Length == 64 && state.Length == 8 && datalen == old(datalen) + 1 <= 64
      ensures Streams(data[..], datalen, Registers(), Count(), message) && message == old(message) + [x]
    {
      ByteBuffered(data[..], datalen, Registers(), Count(), message, x);
      hide Streams, Count, Registers;
      ghost var next := data[..][datalen := x];
      data[datalen] := x;
      assert data[..] == next;
      datalen := datalen + 1;
      message := message + [x];
    }

    /** Take one byte in. */
    method UpdateByte(x: Byte)
      requires Valid()
      modifies this`datalen, this`bitlen0, this`bitlen1, this`message, data, state
      ensures Valid() && message == old(message) + [x]
    {
      hide Streams, Count, Registers;
      Buffer(x);
      if datalen == 64 {
        Flush();
      }
    }

    /** Take a byte string in. */
    method Update(bytes: seq<Byte>)
      requires Valid() && |bytes| < TWO32
      modifies this`datalen, this`bitlen0, this`bitlen1, this`message, data, state
      ensures Valid() && message == old(message) + bytes
    {
      hide Valid;
      for i := 0 to |bytes|
        invariant Valid() && message == old(message) + bytes[..i]
      {
        UpdateByte(bytes[i]);
        assert bytes[..i + 1] == bytes[..i] + [bytes[i]];
      }
      assert bytes[..|bytes|] == bytes;
    }

    /** Zero the buffer from `from` up to `to`. */
    method FillZeros(from: nat, to: nat)
      requires from <= to <= data.Length
      modifies data
      ensures data[..] == old(data[..from]) + Zeros(to - from) + old(data[to..])
    {
      var i := from;
      while i < to
        invariant from <= i <= to
        invariant forall k :: 0 <= k < data.Length && !(from <= k < i) ==> data[k] == old(data[k])
        invariant forall k :: from <= k < i ==> data[k] == 0
      {
        data[i] := 0;
        i := i + 1;
      }
    }

    /** The counter into the last eight bytes of the buffer, high byte first. */
    method PutLength()
      requires data.Length == 64
      modifies data
      ensures data[..] == old(data[..56]) + (Be32(bitlen1) + Be32(bitlen0))
    {
      ghost var was := data[..56];
      data[63] := bitlen0 % 0x100;
      data[62] := bitlen0 / 0x100 % 0x100;
      data[61] := bitlen0 / 0x1_0000 % 0x100;
      data[60] := bitlen0 / 0x100_0000;
      assert data[60..64] == Be32(bitlen0);
      data[59] := bitlen1 % 0x100;
      data[58] := bitlen1 / 0x100 % 0x100;
      data[57] := bitlen1 / 0x1_0000 % 0x100;
      data[56] := bitlen1 / 0x100_0000;
      assert data[56..60] == Be32(bitlen1);
      assert data[..56] == was;
    }

    /** The state into the caller's buffer, each word high byte first. */
    method PutDigest(hash: array<Byte>)
      requires state.Length == 8 && hash.Length >= 32
      modifies hash
      ensures hash[..32] == Digest(old(Registers()))
    {
      hide Digest, Be32;
      var s := Regs(state[0], state[1], state[2], state[3], state[4], state[5], state[6], state[7]);
      ghost var d := Digest(s);
      for i := 0 to 4
        invariant forall k :: 0 <= k < 32 && k % 4 < i ==> hash[k] == d[k]
      {
        DigestAt(s, i);
        hash[i] := Be32(s.a)[i];
        hash[i + 4] := Be32(s.b)[i];
        hash[i + 8] := Be32(s.c)[i];
        hash[i + 12] := Be32(s.d)[i];
        hash[i + 16] := Be32(s.e)[i];
        hash[i + 20] := Be32(s.f)[i];
        hash[i + 24] := Be32(s.g)[i];
        hash[i + 28] := Be32(s.h)[i];
      }
    }

    /** A one bit and zeros behind the buffered rest, up to byte `to`. */
    method PadTo(to: nat)
      requires data.Length == 64 && datalen < to <= 64
      modifies data
      ensures data[..] == old(data[..datalen]) + [0x80] + Zeros(to - datalen - 1) + old(data[to..])
    {
      data[datalen] := 0x80;
      FillZeros(datalen + 1, to);
    }

    /** The length behind what is in the buffer, and the last compression. */
    method Finish(ghost m: seq<Byte>, ghost x: Regs, ghost lead: seq<Byte>, hash: array<Byte>)
      requires data.Length == 64 && state.Length == 8 && hash.Length >= 32 && hash != data
      requires |m| % 64 == datalen && Count() == Wrap64(8 * (|m| - datalen)) && datalen < 64
      requires |lead| == 56 && lead == data[..56]
      requires x == Registers() && Compress(x, lead + Length64(8 * |m|)) == Blocks(H0, Pad(m))
      modifies this`bitlen0, this`bitlen1, data, state, hash
      ensures hash[..32] == Hash(m)
    {
      hide Compress, Blocks, Pad, Length64, Be32, Digest;
      AddBits(8 * datalen);
      LengthWords(bitlen0, bitlen1, |m| - datalen, datalen);
      PutLength();
      Transform();
      PutDigest(hash);
    }

    /** Pad what is buffered, count it and compress it. Afterwards the context is used up. */
    method Final(hash: array<Byte>)
      requires Valid() && hash.Length >= 32 && hash != data
      modifies this`bitlen0, this`bitlen1, data, state, hash
      ensures hash[..32] == Hash(old(message))
    {
      hide Compress, Blocks, Pad, Length64, Wrap64;
      ghost var x, m, n, was := Registers(), message, datalen, data[..];
      ghost var lead;
      if datalen < 56 {
        LastBlock(was, n, x, Count(), m);
        lead := was[..n] + [0x80] + Zeros(55 - n);
        PadTo(56);
        assert data[..56] == lead;
      } else {
        LastTwoBlocks(was, n, x, Count(), m);
        lead := Zeros(56);
        PadTo(64);
        assert data[..] == was[..n] + [0x80] + Zeros(63 - n);
        Transform();
        FillZeros(0, 56);
        assert data[..56] == lead;
      }
      Finish(m, Registers(), lead, hash);
    }
  }

  /** The concatenation of byte strings. */
  /** However a message is split into updates, the result is its hash. */
  method HashPieces(pieces: seq<seq<Byte>>, hash: array<Byte>)
    requires forall i :: 0 <= i < |pieces| ==> |pieces[i]| < TWO32
    requires hash.Length >= 32
    modifies hash
    ensures hash[..32] == Hash(Join(pieces))
  {
    hide Hash;
    var ctx := new Ctx.Init();
    for i := 0 to |pieces|
      invariant ctx.Valid() && fresh(ctx) && fresh(ctx.data) && fresh(ctx.state)
      invariant ctx.message == Join(pieces[..i])
      modifies ctx, ctx.data, ctx.state
    {
      ctx.Update(pieces[i]);
      JoinLast(pieces[..i], pieces[i]);
      assert pieces[..i + 1] == pieces[..i] + [pieces[i]];
    }
    assert pieces[..|pieces|] == pieces;
    ctx.Final(hash);
  }
}
