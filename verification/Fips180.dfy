/** SHA-256 said a second time: what each logical function does to single bits, where the
    constants come from, and the hash of a message by recurrences on words instead of registers. */
module Fips180 {
  import opened Bytes
  import opened Bignum
  import opened Sha256
  import opened Primes

  // ---------- Bits ----------

  /** Bit `i`; positions are modulo 32. */
  predicate BitOf(x: bv32, i: bv5) {
    x & (1 << i) != 0
  }

  predicate Bit(w: Word, i: bv5) {
    BitOf(w as bv32, i)
  }

  lemma WordOf(x: bv32)
    ensures (x as Word) as bv32 == x
  {
  }

  lemma ChooseBit(x: bv32, y: bv32, z: bv32, i: bv5)
    ensures BitOf(x, i) ==> (BitOf(Choose(x, y, z), i) <==> BitOf(y, i))
    ensures !BitOf(x, i) ==> (BitOf(Choose(x, y, z), i) <==> BitOf(z, i))
  {
  }

  lemma MajorityBit(x: bv32, y: bv32, z: bv32, i: bv5)
    ensures BitOf(x, i) == BitOf(y, i) ==> (BitOf(Majority(x, y, z), i) <==> BitOf(x, i))
    ensures BitOf(x, i) != BitOf(y, i) ==> (BitOf(Majority(x, y, z), i) <==> BitOf(z, i))
  {
  }

  lemma XorBit(x: bv32, y: bv32, z: bv32, i: bv5)
    ensures BitOf(x, i) == BitOf(y, i) ==> (BitOf(Xor(x, y, z), i) <==> BitOf(z, i))
    ensures BitOf(x, i) != BitOf(y, i) ==> (BitOf(Xor(x, y, z), i) <==> !BitOf(z, i))
  {
  }

  lemma RotRFrom(x: bv32, n: bv5, i: bv5)
    requires n != 0
    ensures BitOf(RotR(x, n), i) ==> BitOf(x, i + n)
  {
  }

  lemma RotRTo(x: bv32, n: bv5, i: bv5)
    requires n != 0
    ensures BitOf(x, i + n) ==> BitOf(RotR(x, n), i)
  {
  }

  lemma RotRBit(x: bv32, n: bv5, i: bv5)
    requires n != 0
    ensures BitOf(RotR(x, n), i) <==> BitOf(x, i + n)
  {
    hide BitOf, RotR;
    RotRFrom(x, n, i);
    RotRTo(x, n, i);
  }

  lemma ShiftBits(x: bv32, i: bv5)
    ensures BitOf(x >> 3, i) <==> i <= 28 && BitOf(x, i + 3)
    ensures BitOf(x >> 10, i) <==> i <= 21 && BitOf(x, i + 10)
  {
  }

  /** Bit by bit, the first argument chooses between the second and the third. */
  lemma ChBits(x: Word, y: Word, z: Word, i: bv5)
    ensures Bit(Ch(x, y, z), i) == if Bit(x, i) then Bit(y, i) else Bit(z, i)
  {
    hide BitOf, Choose;
    ChooseBit(x as bv32, y as bv32, z as bv32, i);
    WordOf(Choose(x as bv32, y as bv32, z as bv32));
  }

  /** Bit by bit, two equal arguments win. */
  lemma MajBits(x: Word, y: Word, z: Word, i: bv5)
    ensures Bit(Maj(x, y, z), i) == if Bit(x, i) == Bit(y, i) then Bit(x, i) else Bit(z, i)
  {
    hide BitOf, Majority;
    MajorityBit(x as bv32, y as bv32, z as bv32, i);
    WordOf(Majority(x as bv32, y as bv32, z as bv32));
  }

  lemma Sum0Bit(x: bv32, i: bv5)
    ensures BitOf(Sum0(x), i) == ((BitOf(x, i + 2) != BitOf(x, i + 13)) != BitOf(x, i + 22))
  {
    hide BitOf, Xor, RotR;
    RotRBit(x, 2, i);
    RotRBit(x, 13, i);
    RotRBit(x, 22, i);
    XorBit(RotR(x, 2), RotR(x, 13), RotR(x, 22), i);
  }

  lemma Sum1Bit(x: bv32, i: bv5)
    ensures BitOf(Sum1(x), i) == ((BitOf(x, i + 6) != BitOf(x, i + 11)) != BitOf(x, i + 25))
  {
    hide BitOf, Xor, RotR;
    RotRBit(x, 6, i);
    RotRBit(x, 11, i);
    RotRBit(x, 25, i);
    XorBit(RotR(x, 6), RotR(x, 11), RotR(x, 25), i);
  }

  lemma Mix0Bit(x: bv32, i: bv5)
    ensures BitOf(Mix0(x), i) == ((BitOf(x, i + 7) != BitOf(x, i + 18)) != (i <= 28 && BitOf(x, i + 3)))
  {
    hide BitOf, Xor, RotR;
    RotRBit(x, 7, i);
    RotRBit(x, 18, i);
    ShiftBits(x, i);
    XorBit(RotR(x, 7), RotR(x, 18), x >> 3, i);
  }

  lemma Mix1Bit(x: bv32, i: bv5)
    ensures BitOf(Mix1(x), i) == ((BitOf(x, i + 17) != BitOf(x, i + 19)) != (i <= 21 && BitOf(x, i + 10)))
  {
    hide BitOf, Xor, RotR;
    RotRBit(x, 17, i);
    RotRBit(x, 19, i);
    ShiftBits(x, i);
    XorBit(RotR(x, 17), RotR(x, 19), x >> 10, i);
  }

  lemma BigSigma0Bits(w: Word, i: bv5)
    ensures Bit(BigSigma0(w), i) == ((Bit(w, i + 2) != Bit(w, i + 13)) != Bit(w, i + 22))
  {
    hide BitOf, Sum0;
    Sum0Bit(w as bv32, i);
    WordOf(Sum0(w as bv32));
  }

  lemma BigSigma1Bits(w: Word, i: bv5)
    ensures Bit(BigSigma1(w), i) == ((Bit(w, i + 6) != Bit(w, i + 11)) != Bit(w, i + 25))
  {
    hide BitOf, Sum1;
    Sum1Bit(w as bv32, i);
    WordOf(Sum1(w as bv32));
  }

  lemma SmallSigma0Bits(w: Word, i: bv5)
    ensures Bit(SmallSigma0(w), i) == ((Bit(w, i + 7) != Bit(w, i + 18)) != (i <= 28 && Bit(w, i + 3)))
  {
    hide BitOf, Mix0;
    Mix0Bit(w as bv32, i);
    WordOf(Mix0(w as bv32));
  }

  lemma SmallSigma1Bits(w: Word, i: bv5)
    ensures Bit(SmallSigma1(w), i) == ((Bit(w, i + 17) != Bit(w, i + 19)) != (i <= 21 && Bit(w, i + 10)))
  {
    hide BitOf, Mix1;
    Mix1Bit(w as bv32, i);
    WordOf(Mix1(w as bv32));
  }

  // ---------- Sections 4.2.2 and 5.3.3: the constants ----------

  const TWO96: nat := 0x1_0000_0000_0000_0000_0000_0000

  /** `k` is the first 32 bits of the fraction of the cube root of `p`, whose whole part is `c`. */
  predicate CubeRoot(c: nat, k: Word, p: nat) {
    var n := c * TWO32 + k;
    n * n * n <= p * TWO96 < (n + 1) * (n + 1) * (n + 1)
  }

  predicate SquareRoot(c: nat, k: Word, p: nat) {
    var n := c * TWO32 + k;
    n * n <= p * TWO64 < (n + 1) * (n + 1)
  }

  function Whole(p: nat): nat {
    if p < 8 then 1 else if p < 27 then 2 else if p < 64 then 3 else if p < 125 then 4 else if p < 216 then 5 else 6
  }

  lemma LowConstants(i: nat)
    requires i < 8
    ensures forall r :: 0 <= r < 4 ==> CubeRoot(Whole(PRIMES[r][i]), K[r][i], PRIMES[r][i])
  {
    assert i == 0 || i == 1 || i == 2 || i == 3 || i == 4 || i == 5 || i == 6 || i == 7;
  }

  lemma HighConstants(i: nat)
    requires i < 8
    ensures forall r :: 4 <= r < 8 ==> CubeRoot(Whole(PRIMES[r][i]), K[r][i], PRIMES[r][i])
  {
    assert i == 0 || i == 1 || i == 2 || i == 3 || i == 4 || i == 5 || i == 6 || i == 7;
  }

  /** The constant of a round comes from the cube root of the prime of the same number. */
  lemma ConstantIsCubeRoot(t: nat) returns (c: nat)
    requires t < 64
    ensures CubeRoot(c, Constant(t), Prime(t))
  {
    hide CubeRoot, Whole;
    c := Whole(Prime(t));
    LowConstants(t % 8);
    HighConstants(t % 8);
  }

  /** The initial words come from the square roots of the first eight primes. */
  lemma InitialIsSquareRoot()
    ensures SquareRoot(1, H0.a, Prime(0)) && SquareRoot(1, H0.b, Prime(1))
    ensures SquareRoot(2, H0.c, Prime(2)) && SquareRoot(2, H0.d, Prime(3))
    ensures SquareRoot(3, H0.e, Prime(4)) && SquareRoot(3, H0.f, Prime(5))
    ensures SquareRoot(4, H0.g, Prime(6)) && SquareRoot(4, H0.h, Prime(7))
  {
  }

  // ---------- Section 6.2.2 by recurrences ----------

  /** Word `t` of the schedule of a block. */
  function W(b: seq<Byte>, t: nat): Word
    requires |b| == 64
  {
    if t < 16 then
      BigBound(b[4 * t..4 * t + 4]);
      FourBytes();
      BigValue(b[4 * t..4 * t + 4])
    else (SmallSigma1(W(b, t - 2)) as int + W(b, t - 7) + SmallSigma0(W(b, t - 15)) + W(b, t - 16)) % TWO32
  }

  lemma FourBytes()
    ensures Pow(4) == TWO32
  {
    assert Pow(2) == 0x1_0000;
  }

  /** The value of register `a` after round `t`, from which `b`, `c` and `d` follow one, two and
      three rounds later; -1, -2 and -3 stand for what those hold at the start. */
  function A(x: Regs, b: seq<Byte>, t: int): Word
    requires |b| == 64 && -3 <= t <= 64
    decreases t + 4, 0
  {
    if t == -3 then x.d else if t == -2 then x.c else if t == -1 then x.b else if t == 0 then x.a
    else (T(x, b, t - 1) + BigSigma0(A(x, b, t - 1)) + Maj(A(x, b, t - 1), A(x, b, t - 2), A(x, b, t - 3))) % TWO32
  }

  /** Likewise register `e`, with `f`, `g` and `h` behind it. */
  function E(x: Regs, b: seq<Byte>, t: int): Word
    requires |b| == 64 && -3 <= t <= 64
    decreases t + 4, 0
  {
    if t == -3 then x.h else if t == -2 then x.g else if t == -1 then x.f else if t == 0 then x.e
    else (A(x, b, t - 4) as int + T(x, b, t - 1)) % TWO32
  }

  function T(x: Regs, b: seq<Byte>, t: nat): nat
    requires |b| == 64 && t < 64
    decreases t + 4, 1
  {
    E(x, b, t - 3) as int + BigSigma1(E(x, b, t)) + Ch(E(x, b, t), E(x, b, t - 1), E(x, b, t - 2))
    + Constant(t) + W(b, t)
  }

  function RegsAt(x: Regs, b: seq<Byte>, t: nat): Regs
    requires |b| == 64 && t <= 64
  {
    Regs(A(x, b, t), A(x, b, t - 1), A(x, b, t - 2), A(x, b, t - 3),
         E(x, b, t), E(x, b, t - 1), E(x, b, t - 2), E(x, b, t - 3))
  }

  lemma ModThen(a: nat, c: nat)
    ensures (a % TWO32 + c) % TWO32 == (a + c) % TWO32
  {
  }

  lemma EarlyWord(b: seq<Byte>, t: nat)
    requires |b| == 64 && t < 16
    ensures WordAt(b, t) == W(b, t)
  {
    hide Btoui, BigValue;
    UintIsBigEndian(0, b[4 * t..4 * t + 4]);
  }

  lemma SumOfFour(p: Word, q: Word, u: Word, v: Word)
    ensures Add(Add(Add(p, q), u), v) == (p as int + q + u + v) % TWO32
  {
    ModThen(p as int + q, u);
    ModThen(p as int + q + u, v);
  }

  lemma LateWord(b: seq<Byte>, w: seq<Word>, t: nat)
    requires |b| == 64 && 16 <= t == |w| && forall k :: 0 <= k < t ==> w[k] == W(b, k)
    ensures Add(Add(Add(SmallSigma1(w[t - 2]), w[t - 7]), SmallSigma0(w[t - 15])), w[t - 16]) == W(b, t)
  {
    hide SmallSigma0, SmallSigma1, BigValue, Add;
    SumOfFour(SmallSigma1(w[t - 2]), w[t - 7], SmallSigma0(w[t - 15]), w[t - 16]);
  }

  lemma {:induction false} ScheduleIsW(b: seq<Byte>, n: nat)
    requires |b| == 64
    ensures forall t :: 0 <= t < n ==> Schedule(b, n)[t] == W(b, t)
  {
    hide W, SmallSigma0, SmallSigma1, Add, WordAt;
    if n > 0 {
      ScheduleIsW(b, n - 1);
      if n <= 16 { EarlyWord(b, n - 1); } else { LateWord(b, Schedule(b, n - 1), n - 1); }
    }
  }

  lemma SumOfFive(h: Word, s: Word, c: Word, k: Word, w: Word)
    ensures Add(Add(Add(Add(h, s), c), k), w) == (h as int + s + c + k + w) % TWO32
  {
    SumOfFour(h, s, c, k);
    ModThen(h as int + s + c + k, w);
  }

  lemma SumOfSums(t: nat, u: nat)
    ensures (t % TWO32 + u % TWO32) % TWO32 == (t + u) % TWO32
  {
    ModThen(t, u % TWO32);
    ModThen(u, t);
  }

  /** The two temporary words of round `t`, and what becomes of them. */
  lemma Temporaries(x: Regs, b: seq<Byte>, t: nat)
    requires |b| == 64 && t < 64
    ensures var e := E(x, b, t);
            Add(Add(Add(Add(E(x, b, t - 3), BigSigma1(e)), Ch(e, E(x, b, t - 1), E(x, b, t - 2))), Constant(t)),
                W(b, t)) == T(x, b, t) % TWO32
  {
    hide BigSigma1, Ch, W, Constant, A, E, Add;
    var e := E(x, b, t);
    SumOfFive(E(x, b, t - 3), BigSigma1(e), Ch(e, E(x, b, t - 1), E(x, b, t - 2)), Constant(t), W(b, t));
  }

  lemma NextA(x: Regs, b: seq<Byte>, t: nat)
    requires |b| == 64 && t < 64
    ensures var a := A(x, b, t);
            A(x, b, t + 1) == Add(T(x, b, t) % TWO32, Add(BigSigma0(a), Maj(a, A(x, b, t - 1), A(x, b, t - 2))))
  {
    hide BigSigma0, Maj, T, E;
    var a := A(x, b, t);
    SumOfSums(T(x, b, t), BigSigma0(a) as int + Maj(a, A(x, b, t - 1), A(x, b, t - 2)));
  }

  lemma NextE(x: Regs, b: seq<Byte>, t: nat)
    requires |b| == 64 && t < 64
    ensures E(x, b, t + 1) == Add(A(x, b, t - 3), T(x, b, t) % TWO32)
  {
    hide T, A;
    SumOfSums(A(x, b, t - 3), T(x, b, t));
  }

  lemma OneRound(x: Regs, b: seq<Byte>, t: nat)
    requires |b| == 64 && t < 64
    ensures Round(RegsAt(x, b, t), Constant(t), W(b, t)) == RegsAt(x, b, t + 1)
  {
    hide BigSigma0, BigSigma1, Ch, Maj, W, Constant, A, E, T, Add;
    Temporaries(x, b, t);
    NextA(x, b, t);
    NextE(x, b, t);
  }

  lemma RegsAtStart(x: Regs, b: seq<Byte>)
    requires |b| == 64
    ensures RegsAt(x, b, 0) == x
  {
    hide T;
  }

  lemma {:induction false} RoundsAreRecurrence(x: Regs, b: seq<Byte>, t: nat)
    requires |b| == 64 && t <= 64
    ensures Rounds(x, Schedule(b, 64), t) == RegsAt(x, b, t)
  {
    hide Round, W, Schedule, RegsAt, Constant;
    if t > 0 {
      RoundsAreRecurrence(x, b, t - 1);
      ScheduleIsW(b, 64);
      OneRound(x, b, t - 1);
    } else {
      RegsAtStart(x, b);
    }
  }

  /** One block: every register grows by what the recurrences give after 64 rounds. */
  function Next(x: Regs, b: seq<Byte>): Regs
    requires |b| == 64
  {
    Regs((x.a as int + A(x, b, 64)) % TWO32, (x.b as int + A(x, b, 63)) % TWO32,
         (x.c as int + A(x, b, 62)) % TWO32, (x.d as int + A(x, b, 61)) % TWO32,
         (x.e as int + E(x, b, 64)) % TWO32, (x.f as int + E(x, b, 63)) % TWO32,
         (x.g as int + E(x, b, 62)) % TWO32, (x.h as int + E(x, b, 61)) % TWO32)
  }

  lemma CompressIsNext(x: Regs, b: seq<Byte>)
    requires |b| == 64
    ensures Compress(x, b) == Next(x, b)
  {
    hide Rounds, Schedule, A, E;
    RoundsAreRecurrence(x, b, 64);
  }

  /** The blocks of a padded message, the last one last. */
  function Chained(p: seq<Byte>): Regs
    requires |p| % 64 == 0
  {
    if p == [] then H0 else Next(Chained(p[..|p| - 64]), p[|p| - 64..])
  }

  lemma {:induction false} BlocksAreChained(p: seq<Byte>)
    requires |p| % 64 == 0
    ensures Blocks(H0, p) == Chained(p)
    decreases |p|
  {
    hide Compress, Next;
    if p != [] {
      var front, last := p[..|p| - 64], p[|p| - 64..];
      BlocksAreChained(front);
      OneMoreBlock(H0, front, last);
      CompressIsNext(Chained(front), last);
      assert p == front + last;
    } else {
      assert |p| < 64;
    }
  }

  // ---------- Sections 5.1.1 and 6.2 ----------

  /** The message, a one bit, as few zeros as fill the last block, and the length in bits. */
  predicate IsPadded(m: seq<Byte>, p: seq<Byte>) {
    && |p| % 64 == 0 && |m| + 9 <= |p| < |m| + 9 + 64
    && p[..|m|] == m && p[|m|] == 0x80
    && (forall i :: |m| < i < |p| - 8 ==> p[i] == 0)
    && BigValue(p[|p| - 8..]) == 8 * |m| % TWO64
  }

  lemma LengthValue(bits: nat)
    ensures BigValue(Length64(bits)) == bits % TWO64
  {
    hide BigValue, Be32;
    var hi, lo: Uint := bits % TWO64 / TWO32, bits % TWO32;
    UintIsBigEndian(hi, [0, 0, 0, 0]);
    UintIsBigEndian(lo, [0, 0, 0, 0]);
    BigConcat(Be32(hi), Be32(lo));
    FourBytes();
    assert bits % TWO64 % TWO32 == lo;
  }

  lemma PadIsPadded(m: seq<Byte>)
    ensures IsPadded(m, Pad(m))
  {
    hide Length64, BigValue;
    var p := Pad(m);
    LengthValue(8 * |m|);
    assert p[|p| - 8..] == Length64(8 * |m|);
    assert p[..|m|] == m;
  }

  /** The eight words of a digest, as numbers. */
  lemma DigestWords(x: Regs)
    ensures var d := Digest(x);
            && BigValue(d[0..4]) == x.a && BigValue(d[4..8]) == x.b && BigValue(d[8..12]) == x.c
            && BigValue(d[12..16]) == x.d && BigValue(d[16..20]) == x.e && BigValue(d[20..24]) == x.f
            && BigValue(d[24..28]) == x.g && BigValue(d[28..32]) == x.h
  {
    hide Be32, BigValue;
    var d, z := Digest(x), [0, 0, 0, 0];
    UintIsBigEndian(x.a, z);
    UintIsBigEndian(x.b, z);
    UintIsBigEndian(x.c, z);
    UintIsBigEndian(x.d, z);
    UintIsBigEndian(x.e, z);
    UintIsBigEndian(x.f, z);
    UintIsBigEndian(x.g, z);
    UintIsBigEndian(x.h, z);
    assert d[0..4] == Be32(x.a) && d[4..8] == Be32(x.b) && d[8..12] == Be32(x.c) && d[12..16] == Be32(x.d);
    assert d[16..20] == Be32(x.e) && d[20..24] == Be32(x.f) && d[24..28] == Be32(x.g) && d[28..32] == Be32(x.h);
  }

  /** The hash of a message is read off the recurrences over its padded blocks. */
  lemma HashIsChained(m: seq<Byte>) returns (p: seq<Byte>)
    ensures IsPadded(m, p)
    ensures var d, x := Hash(m), Chained(p);
            && BigValue(d[0..4]) == x.a && BigValue(d[4..8]) == x.b && BigValue(d[8..12]) == x.c
            && BigValue(d[12..16]) == x.d && BigValue(d[16..20]) == x.e && BigValue(d[20..24]) == x.f
            && BigValue(d[24..28]) == x.g && BigValue(d[28..32]) == x.h
  {
    hide Digest, Pad, Blocks, Chained, BigValue, IsPadded;
    p := Pad(m);
    PadIsPadded(m);
    BlocksAreChained(p);
    DigestWords(Blocks(H0, p));
  }
}
