/** How the target of the next block follows from the chain: kept for 144 blocks, then scaled
    by the clamped time those blocks took. */
module Retarget {
  import opened Bytes
  import opened Bignum

  const TESTNET_EPOCH: nat := 1483228800
  const RECALC_TARGET_INTERVAL: nat := 144
  const SECONDS_IN_20_MINUTES: nat := 1200
  const SECONDS_IN_HALF_WEEK: nat := 5040
  const SECONDS_IN_8_WEEKS: nat := 80640

  /** What a block's header says about time and target. */
  datatype Head = Head(time: Uint, height: nat, target: Byte)

  /** The conversions that the source leaves to be written: a target to its 32-byte form, the
      division of the product, and back. */
  datatype Forms = Forms(expand: Byte -> seq<Byte>, divide: seq<Byte> -> seq<Byte>, compact: seq<Byte> -> Byte)

  ghost predicate ValidForms(f: Forms) {
    (forall t :: |f.expand(t)| == SIZE_SHA256) && (forall s :: |f.divide(s)| == |s|)
  }

  predicate Testnet(block: Head, now: Uint) {
    now < TESTNET_EPOCH && (now as int - block.time) % TWO32 >= SECONDS_IN_20_MINUTES
  }

  predicate Recalculates(height: nat) {
    height > 0 && height % RECALC_TARGET_INTERVAL == 0
  }

  /** The interval between two times, wrapping like the unsigned subtraction, then clamped. */
  function Interval(time: Uint, before: Uint): nat {
    var diff := (time as int - before) % TWO32;
    if diff > SECONDS_IN_8_WEEKS then SECONDS_IN_8_WEEKS
    else if diff < SECONDS_IN_HALF_WEEK then SECONDS_IN_HALF_WEEK
    else diff
  }

  /** `p` is the product of a target's 32-byte form and an interval, in 36 bytes. */
  ghost predicate IsProduct(f: Forms, target: Byte, interval: nat, p: seq<Byte>) {
    |p| == SIZE_SHA256 + 4 && Value(p) == Value(f.expand(target)) * interval
  }

  /** What the target after `block` must be, `before` being the time 144 blocks earlier. */
  ghost predicate NextTargetIs(f: Forms, block: Head, before: Uint, now: Uint, t: Byte) {
    if Testnet(block, now) then t == 0
    else if Recalculates(block.height) then
      exists p :: IsProduct(f, block.target, Interval(block.time, before), p) && t == f.compact(f.divide(p))
    else t == block.target
  }

  // ---------- Facts about the numbers ----------

  lemma {:induction false} ValueInjective(s: seq<Byte>, t: seq<Byte>, n: nat)
    requires n <= |s| == |t| && Low(s, n) == Low(t, n)
    ensures s[..n] == t[..n]
  {
    if n > 0 {
      LowBound(s, n - 1);
      LowBound(t, n - 1);
      if s[n - 1] != t[n - 1] {
        DigitDecides(s[n - 1], t[n - 1], Low(s, n - 1), Low(t, n - 1), Pow(n - 1));
      }
      ValueInjective(s, t, n - 1);
      assert s[..n] == s[..n - 1] + [s[n - 1]] && t[..n] == t[..n - 1] + [t[n - 1]];
    }
  }

  /** The rule fixes the target. */
  lemma NextTargetUnique(f: Forms, block: Head, before: Uint, now: Uint, t: Byte, t': Byte)
    requires NextTargetIs(f, block, before, now, t) && NextTargetIs(f, block, before, now, t')
    ensures t == t'
  {
    hide Low;
    if !Testnet(block, now) && Recalculates(block.height) {
      var i := Interval(block.time, before);
      var p :| IsProduct(f, block.target, i, p) && t == f.compact(f.divide(p));
      var p' :| IsProduct(f, block.target, i, p') && t' == f.compact(f.divide(p'));
      ValueInjective(p, p', |p|);
      assert p == p[..|p|] == p'[..|p'|] == p';
    }
  }

  /** From `before` to `time`, if that is later, the interval is the time that passed, as far as
      that lies between the bounds, and the nearer bound otherwise. */
  lemma IntervalIsElapsed(time: Uint, before: Uint)
    requires before <= time
    ensures SECONDS_IN_HALF_WEEK <= time - before <= SECONDS_IN_8_WEEKS ==> Interval(time, before) == time - before
    ensures time - before < SECONDS_IN_HALF_WEEK ==> Interval(time, before) == 5040
    ensures time - before > SECONDS_IN_8_WEEKS ==> Interval(time, before) == 80640
  {
  }

  /** A block dated before the one that opened its interval counts as the longest interval, unless
      the wrap brings it within that of the whole range. */
  lemma IntervalOfEarlierBlock(time: Uint, before: Uint)
    requires time < before
    ensures Interval(time, before) == SECONDS_IN_8_WEEKS <==> before as int - time <= TWO32 - SECONDS_IN_8_WEEKS
  {
  }

  /** Until 2017 the testnet rule applies once 20 minutes have passed, and, because the unsigned
      difference wraps, to a block that is dated ahead of the clock as well. */
  lemma TestnetIff(block: Head, now: Uint)
    ensures Testnet(block, now) <==>
            now < 1483228800 &&
            if block.time <= now then now - block.time >= 1200 else block.time as int - now <= TWO32 - 1200
  {
  }

  /** The target is 0 by the testnet rule; it is kept at heights that are no multiple of 144, and at
      genesis; otherwise it is the scaled one, by the time since the block 144 before, within bounds. */
  lemma NextTargetCases(f: Forms, block: Head, before: Uint, now: Uint, t: Byte)
    requires NextTargetIs(f, block, before, now, t)
    ensures Testnet(block, now) ==> t == 0
    ensures !Testnet(block, now) && (block.height == 0 || block.height % 144 != 0) ==> t == block.target
    ensures !Testnet(block, now) && block.height > 0 && block.height % 144 == 0
            && before <= block.time && 5040 <= block.time - before <= 80640 ==>
              exists p: seq<Byte> ::
                && |p| == 36 && Value(p) == Value(f.expand(block.target)) * (block.time - before)
                && t == f.compact(f.divide(p))
  {
    hide Value;
    if before <= block.time {
      IntervalIsElapsed(block.time, before);
    }
  }

  lemma IntervalClamped(time: Uint, before: Uint)
    ensures SECONDS_IN_HALF_WEEK <= Interval(time, before) <= SECONDS_IN_8_WEEKS
  {
  }

  /** No comparison finds anything above a number of all ones. */
  lemma {:induction false} AllOnesIsLargest(s: seq<Byte>, ones: seq<Byte>)
    requires |s| == |ones| && forall i :: 0 <= i < |ones| ==> ones[i] == 0xff
    ensures BigValue(s) <= BigValue(ones)
  {
    if s != [] {
      AllOnesIsLargest(s[1..], ones[1..]);
      TimesUp(s[0], 0xff, Pow(|s| - 1));
    }
  }

  /** A value below the weight of byte `k` has only zeros from byte `k` up. */
  lemma {:induction false} HighBytesZero(s: seq<Byte>, k: nat, n: nat)
    requires k <= n <= |s| && Low(s, n) < Pow(k)
    ensures forall i :: k <= i < n ==> s[i] == 0
  {
    if k < n {
      PowMono(k, n - 1);
      if s[n - 1] > 0 {
        TimesUp(1, s[n - 1], Pow(n - 1));
      }
      HighBytesZero(s, k, n - 1);
    }
  }

  lemma PowSmall()
    ensures Pow(0) == 1 && Pow(1) == 0x100 && Pow(2) == 0x1_0000 && Pow(3) == 0x100_0000 && Pow(4) == 0x1_0000_0000
  {
  }

  /** However wide the result, a 32-byte target times a clamped interval leaves everything
      from byte 36 up zero. */
  lemma ProductFits(target: seq<Byte>, time: Uint, before: Uint, p: seq<Byte>)
    requires |target| == SIZE_SHA256 && |p| >= SIZE_SHA256 + 4
    requires Value(p) == Value(target) * Interval(time, before)
    ensures forall i :: SIZE_SHA256 + 4 <= i < |p| ==> p[i] == 0
  {
    LowBound(target, |target|);
    PowAdd(SIZE_SHA256, 4);
    PowSmall();
    IntervalClamped(time, before);
    hide Pow, Low, Interval;
    ProductBelow(Value(target), Interval(time, before), Pow(SIZE_SHA256), Pow(4));
    HighBytesZero(p, SIZE_SHA256 + 4, |p|);
  }

  // ---------- The computation ----------

  /** A number as four bytes, low byte first. */
  function Le32(a: Uint): (b: seq<Byte>)
    ensures |b| == 4
  {
    [a % 0x100, a / 0x100 % 0x100, a / 0x1_0000 % 0x100, a / 0x100_0000]
  }

  lemma Le32Value(a: Uint)
    ensures Value(Le32(a)) == a
  {
    var b := Le32(a);
    PowSmall();
    LowBytes(a);
    hide Pow, Le32;
    assert Low(b, 4) == Low(b, 3) + b[3] as int * 0x100_0000;
    assert Low(b, 3) == Low(b, 2) + b[2] as int * 0x1_0000;
    assert Low(b, 2) == Low(b, 1) + b[1] as int * 0x100;
    assert Low(b, 1) == Low(b, 0) + b[0] as int;
  }

  lemma LowBytes(a: Uint)
    ensures var b := Le32(a);
            b[0] as int + b[1] as int * 0x100 + b[2] as int * 0x1_0000 + b[3] as int * 0x100_0000 == a
  {
    assert a / 0x1_0000 == a / 0x100 / 0x100 && a / 0x100_0000 == a / 0x1_0000 / 0x100;
  }

  /** The target of the block after `block`. The cap never takes effect. */
  method ComputeNextTarget(f: Forms, block: Head, before: Uint, now: Uint) returns (t: Byte)
    requires ValidForms(f)
    ensures NextTargetIs(f, block, before, now, t)
  {
    hide Value, BigValue;
    if now < TESTNET_EPOCH && (now as int - block.time) % TWO32 >= SECONDS_IN_20_MINUTES {
      t := 0;
    } else if block.height > 0 && block.height % RECALC_TARGET_INTERVAL == 0 {
      var diff := (block.time as int - before) % TWO32;
      if diff > SECONDS_IN_8_WEEKS {
        diff := SECONDS_IN_8_WEEKS;
      } else if diff < SECONDS_IN_HALF_WEEK {
        diff := SECONDS_IN_HALF_WEEK;
      }
      t := Scale(f, block.target, diff);
    } else {
      t := block.target;
    }
  }

  method FromSeq(s: seq<Byte>) returns (a: array<Byte>)
    ensures fresh(a) && a[..] == s
  {
    a := new Byte[|s|](i requires 0 <= i < |s| => s[i]);
  }

  method Scale(f: Forms, target: Byte, diff: Uint) returns (t: Byte)
    requires ValidForms(f)
    ensures exists p :: IsProduct(f, target, diff, p) && t == f.compact(f.divide(p))
  {
    hide Low, BigValue;
    var etarget := FromSeq(f.expand(target));
    var bigDiff := FromSeq(Le32(diff));
    var buffer1 := new Byte[SIZE_SHA256 + 4](_ => 0);
    BigMult(etarget, bigDiff, buffer1);
    Le32Value(diff);
    ghost var p := buffer1[..];
    assert IsProduct(f, target, diff, p);
    var buffer2 := FromSeq(f.divide(buffer1[..]));
    var ones := new Byte[SIZE_SHA256](_ => 0xff);
    var c := BigCompare(buffer2, ones, SIZE_SHA256);
    AllOnesIsLargest(buffer2[..SIZE_SHA256], ones[..SIZE_SHA256]);
    var cap, quotient := ones[..], buffer2[..];
    t := f.compact(if c > 0 then cap else quotient);
  }

  // ---------- Along a chain ----------

  /** Every block's target is the one computed after the block before it, `now[h]` being the
      time at which that was done; no block was made by the testnet rule. */
  ghost predicate Targeted(f: Forms, heads: seq<Head>, now: seq<Uint>) {
    && |now| == |heads|
    && (forall h :: 0 <= h < |heads| ==> heads[h].height == h && !Testnet(heads[h], now[h]))
    && forall h :: 0 <= h < |heads| - 1 ==>
         NextTargetIs(f, heads[h], heads[if h >= RECALC_TARGET_INTERVAL then h - RECALC_TARGET_INTERVAL else 0].time,
                      now[h], heads[h + 1].target)
  }

  /** The target is the same for all blocks at heights 144k + 1 to 144(k + 1). */
  lemma {:induction false} TargetConstant(f: Forms, heads: seq<Head>, now: seq<Uint>, k: nat, h: nat)
    requires Targeted(f, heads, now)
    requires RECALC_TARGET_INTERVAL * k + 1 <= h <= RECALC_TARGET_INTERVAL * (k + 1) && h < |heads|
    ensures heads[h].target == heads[RECALC_TARGET_INTERVAL * k + 1].target
  {
    if h > RECALC_TARGET_INTERVAL * k + 1 {
      TargetConstant(f, heads, now, k, h - 1);
      assert NextTargetIs(f, heads[h - 1],
                          heads[if h - 1 >= RECALC_TARGET_INTERVAL then h - 1 - RECALC_TARGET_INTERVAL else 0].time,
                          now[h - 1], heads[h - 1 + 1].target);
      assert (h - 1) % RECALC_TARGET_INTERVAL == h - 1 - RECALC_TARGET_INTERVAL * k;
    }
  }
}
