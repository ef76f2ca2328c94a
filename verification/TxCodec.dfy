/** Serialised transactions: a ten-byte header whose counts fix the length of the body. */
module TxCodec {
  import opened Bytes
  import opened Wrappers
  import Sha256

  const VERSION: Ushort := 1

  const SIZE_TX_HEADER: nat := 10
  const SIZE_TX_INPUT: nat := 290
  const SIZE_TX_OUTPUT: nat := 36
  const MAX_TX_SIZE: nat := 1048576

  const POS_TX_VERSION: nat := 0
  const POS_TX_IN_COUNT: nat := 2
  const POS_TX_OUT_COUNT: nat := 4
  const POS_TX_LOCK_TIME: nat := 6
  const POS_TX_BODY: nat := 10

  datatype Input = Input(ref: seq<Byte>, index: Ushort, pubkey: seq<Byte>, sig: seq<Byte>) {
    predicate Valid() {
      |ref| == 32 && |pubkey| == 128 && |sig| == 128
    }
  }

  datatype Output = Output(address: seq<Byte>, amount: Uint) {
    predicate Valid() {
      |address| == 32
    }
  }

  datatype Tx = Tx(ins: seq<Input>, outs: seq<Output>, lockTime: Uint) {
    predicate Valid() {
      && |ins| < 0x1_0000 && |outs| < 0x1_0000
      && (forall i :: 0 <= i < |ins| ==> ins[i].Valid())
      && (forall i :: 0 <= i < |outs| ==> outs[i].Valid())
    }
  }

  // ---------- Encoding ----------

  function InputBytes(x: Input): (b: seq<Byte>)
    requires x.Valid()
    ensures |b| == SIZE_TX_INPUT
  {
    x.ref + Be16(x.index) + x.pubkey + x.sig
  }

  function OutputBytes(x: Output): (b: seq<Byte>)
    requires x.Valid()
    ensures |b| == SIZE_TX_OUTPUT
  {
    x.address + Be32(x.amount)
  }

  function InputsBytes(xs: seq<Input>): (b: seq<Byte>)
    requires forall i :: 0 <= i < |xs| ==> xs[i].Valid()
    ensures |b| == SIZE_TX_INPUT * |xs|
  {
    if xs == [] then [] else InputBytes(xs[0]) + InputsBytes(xs[1..])
  }

  function OutputsBytes(xs: seq<Output>): (b: seq<Byte>)
    requires forall i :: 0 <= i < |xs| ==> xs[i].Valid()
    ensures |b| == SIZE_TX_OUTPUT * |xs|
  {
    if xs == [] then [] else OutputBytes(xs[0]) + OutputsBytes(xs[1..])
  }

  function HeaderBytes(inCount: Ushort, outCount: Ushort, lockTime: Uint): (b: seq<Byte>)
    ensures |b| == SIZE_TX_HEADER
  {
    Be16(VERSION) + Be16(inCount) + Be16(outCount) + Be32(lockTime)
  }

  function Encode(t: Tx): seq<Byte>
    requires t.Valid()
  {
    HeaderBytes(|t.ins|, |t.outs|, t.lockTime) + InputsBytes(t.ins) + OutputsBytes(t.outs)
  }

  // ---------- Decoding ----------

  /** The size a transaction's own header gives it. */
  function TxSize(b: seq<Byte>): nat
    requires |b| >= SIZE_TX_HEADER
  {
    SIZE_TX_HEADER + SIZE_TX_INPUT * Btous(b[2..4]) + SIZE_TX_OUTPUT * Btous(b[4..6])
  }

  /** The bytes are exactly one transaction by the size in its header. */
  predicate IsTx(b: seq<Byte>) {
    |b| >= SIZE_TX_HEADER && |b| == TxSize(b)
  }

  function ReadInput(b: seq<Byte>): (x: Input)
    requires |b| == SIZE_TX_INPUT
    ensures x.Valid()
  {
    Input(b[..32], Btous(b[32..34]), b[34..162], b[162..])
  }

  function ReadOutput(b: seq<Byte>): (x: Output)
    requires |b| == SIZE_TX_OUTPUT
    ensures x.Valid()
  {
    Output(b[..32], Btoui(b[32..]))
  }

  function ReadInputs(b: seq<Byte>, n: nat): (xs: seq<Input>)
    requires |b| == SIZE_TX_INPUT * n
    ensures |xs| == n && forall i :: 0 <= i < |xs| ==> xs[i].Valid()
  {
    if n == 0 then [] else [ReadInput(b[..SIZE_TX_INPUT])] + ReadInputs(b[SIZE_TX_INPUT..], n - 1)
  }

  function ReadOutputs(b: seq<Byte>, n: nat): (xs: seq<Output>)
    requires |b| == SIZE_TX_OUTPUT * n
    ensures |xs| == n && forall i :: 0 <= i < |xs| ==> xs[i].Valid()
  {
    if n == 0 then [] else [ReadOutput(b[..SIZE_TX_OUTPUT])] + ReadOutputs(b[SIZE_TX_OUTPUT..], n - 1)
  }

  function Decode(b: seq<Byte>): Tx
    requires IsTx(b)
  {
    var n, m := Btous(b[2..4]), Btous(b[4..6]);
    var cut := SIZE_TX_HEADER + SIZE_TX_INPUT * n;
    Tx(ReadInputs(b[SIZE_TX_HEADER..cut], n), ReadOutputs(b[cut..], m), Btoui(b[6..10]))
  }

  // ---------- Round trips ----------

  lemma InputRoundTrip(x: Input, b: seq<Byte>)
    requires x.Valid() && |b| == SIZE_TX_INPUT
    ensures ReadInput(InputBytes(x)) == x
    ensures InputBytes(ReadInput(b)) == b
  {
    hide Be16, Btous;
    var e := InputBytes(x);
    UshortRoundTrip(x.index, b[32..34]);
    assert e[32..34] == Be16(x.index);
    assert b == b[..32] + b[32..34] + b[34..162] + b[162..];
  }

  lemma OutputRoundTrip(x: Output, b: seq<Byte>)
    requires x.Valid() && |b| == SIZE_TX_OUTPUT
    ensures ReadOutput(OutputBytes(x)) == x
    ensures OutputBytes(ReadOutput(b)) == b
  {
    hide Be32, Btoui;
    UintRoundTrip(x.amount, b[32..]);
    assert OutputBytes(x)[32..] == Be32(x.amount);
    assert b == b[..32] + b[32..];
  }

  lemma {:induction false} InputsRoundTrip(xs: seq<Input>, b: seq<Byte>, n: nat)
    requires (forall i :: 0 <= i < |xs| ==> xs[i].Valid()) && |b| == SIZE_TX_INPUT * n
    ensures ReadInputs(InputsBytes(xs), |xs|) == xs
    ensures InputsBytes(ReadInputs(b, n)) == b
    decreases |xs| + n
  {
    hide InputBytes, ReadInput;
    if xs != [] {
      InputsRoundTrip(xs[1..], [], 0);
      InputRoundTrip(xs[0], InputBytes(xs[0]));
      var e := InputsBytes(xs);
      assert e[..SIZE_TX_INPUT] == InputBytes(xs[0]) && e[SIZE_TX_INPUT..] == InputsBytes(xs[1..]);
    }
    if n > 0 {
      InputsRoundTrip([], b[SIZE_TX_INPUT..], n - 1);
      InputRoundTrip(ReadInput(b[..SIZE_TX_INPUT]), b[..SIZE_TX_INPUT]);
      assert ReadInputs(b, n)[1..] == ReadInputs(b[SIZE_TX_INPUT..], n - 1);
      assert b == b[..SIZE_TX_INPUT] + b[SIZE_TX_INPUT..];
    }
  }

  lemma {:induction false} OutputsRoundTrip(xs: seq<Output>, b: seq<Byte>, n: nat)
    requires (forall i :: 0 <= i < |xs| ==> xs[i].Valid()) && |b| == SIZE_TX_OUTPUT * n
    ensures ReadOutputs(OutputsBytes(xs), |xs|) == xs
    ensures OutputsBytes(ReadOutputs(b, n)) == b
    decreases |xs| + n
  {
    hide OutputBytes, ReadOutput;
    if xs != [] {
      OutputsRoundTrip(xs[1..], [], 0);
      OutputRoundTrip(xs[0], OutputBytes(xs[0]));
      var e := OutputsBytes(xs);
      assert e[..SIZE_TX_OUTPUT] == OutputBytes(xs[0]) && e[SIZE_TX_OUTPUT..] == OutputsBytes(xs[1..]);
    }
    if n > 0 {
      OutputsRoundTrip([], b[SIZE_TX_OUTPUT..], n - 1);
      OutputRoundTrip(ReadOutput(b[..SIZE_TX_OUTPUT]), b[..SIZE_TX_OUTPUT]);
      assert ReadOutputs(b, n)[1..] == ReadOutputs(b[SIZE_TX_OUTPUT..], n - 1);
      assert b == b[..SIZE_TX_OUTPUT] + b[SIZE_TX_OUTPUT..];
    }
  }

  lemma HeaderFields(inCount: Ushort, outCount: Ushort, lockTime: Uint, body: seq<Byte>)
    ensures var b := HeaderBytes(inCount, outCount, lockTime) + body;
            && Btous(b[0..2]) == VERSION && Btous(b[2..4]) == inCount
            && Btous(b[4..6]) == outCount && Btoui(b[6..10]) == lockTime
  {
    hide Be16, Be32, Btous, Btoui;
    var b := HeaderBytes(inCount, outCount, lockTime) + body;
    UshortRoundTrip(VERSION, [0, 0]);
    UshortRoundTrip(inCount, [0, 0]);
    UshortRoundTrip(outCount, [0, 0]);
    UintRoundTrip(lockTime, [0, 0, 0, 0]);
    assert b[0..2] == Be16(VERSION) && b[2..4] == Be16(inCount);
    assert b[4..6] == Be16(outCount) && b[6..10] == Be32(lockTime);
  }

  /** An encoded transaction states its own size and decodes to itself. */
  lemma EncodeDecodes(t: Tx)
    requires t.Valid()
    ensures |Encode(t)| == SIZE_TX_HEADER + SIZE_TX_INPUT * |t.ins| + SIZE_TX_OUTPUT * |t.outs|
    ensures IsTx(Encode(t)) && Decode(Encode(t)) == t
  {
    hide HeaderBytes, InputsBytes, OutputsBytes, ReadInputs, ReadOutputs, Btous, Btoui;
    var b := Encode(t);
    HeaderFields(|t.ins|, |t.outs|, t.lockTime, InputsBytes(t.ins) + OutputsBytes(t.outs));
    assert b == HeaderBytes(|t.ins|, |t.outs|, t.lockTime) + (InputsBytes(t.ins) + OutputsBytes(t.outs));
    InputsRoundTrip(t.ins, [], 0);
    OutputsRoundTrip(t.outs, [], 0);
    var cut := SIZE_TX_HEADER + SIZE_TX_INPUT * |t.ins|;
    assert b[SIZE_TX_HEADER..cut] == InputsBytes(t.ins) && b[cut..] == OutputsBytes(t.outs);
  }

  /** What decodes from version 1 bytes encodes back to them. */
  lemma DecodeEncodes(b: seq<Byte>)
    requires IsTx(b) && Btous(b[0..2]) == VERSION
    ensures Decode(b).Valid() && Encode(Decode(b)) == b
  {
    hide InputsBytes, OutputsBytes, ReadInputs, ReadOutputs, Be16, Be32, Btous, Btoui;
    var n, m := Btous(b[2..4]), Btous(b[4..6]);
    var cut := SIZE_TX_HEADER + SIZE_TX_INPUT * n;
    InputsRoundTrip([], b[SIZE_TX_HEADER..cut], n);
    OutputsRoundTrip([], b[cut..], m);
    UshortRoundTrip(0, b[0..2]);
    UshortRoundTrip(0, b[2..4]);
    UshortRoundTrip(0, b[4..6]);
    UintRoundTrip(0, b[6..10]);
    assert b == b[0..2] + b[2..4] + b[4..6] + b[6..10] + b[10..cut] + b[cut..];
  }

  // ---------- Several transactions in a row ----------

  /** The first `n` transactions of a body, each found by the size its own header states. */
  function Walk(b: seq<Byte>, n: nat): (txs: Option<seq<seq<Byte>>>)
    ensures txs.Some? ==> |txs.value| == n
    decreases n
  {
    if n == 0 then Some([])
    else if |b| < SIZE_TX_HEADER || |b| < TxSize(b) then None
    else match Walk(b[TxSize(b)..], n - 1)
         case None => None
         case Some(rest) => Some([b[..TxSize(b)]] + rest)
  }

  ghost predicate AllTxs(txs: seq<seq<Byte>>) {
    forall i :: 0 <= i < |txs| ==> IsTx(txs[i])
  }

  /** The size of a body by the counts in its transactions' headers. */
  function TotalSize(txs: seq<seq<Byte>>): nat
    requires AllTxs(txs)
  {
    if txs == [] then 0
    else
      SIZE_TX_HEADER + SIZE_TX_INPUT * Btous(txs[0][2..4]) + SIZE_TX_OUTPUT * Btous(txs[0][4..6]) + TotalSize(txs[1..])
  }

  lemma {:induction false} JoinSize(txs: seq<seq<Byte>>)
    requires AllTxs(txs)
    ensures |Join(txs)| == TotalSize(txs)
    ensures |Join(txs)| >= SIZE_TX_HEADER * |txs|
  {
    hide Btous;
    if txs != [] {
      JoinSize(txs[1..]);
    }
  }

  /** A transaction in front of other bytes still states its size. */
  lemma TxInFront(tx: seq<Byte>, rest: seq<Byte>)
    requires IsTx(tx)
    ensures |tx| >= SIZE_TX_HEADER && TxSize(tx + rest) == |tx|
    ensures (tx + rest)[..|tx|] == tx && (tx + rest)[|tx|..] == rest
  {
    hide Btous;
    assert (tx + rest)[2..4] == tx[2..4] && (tx + rest)[4..6] == tx[4..6];
  }

  /** Cut off by the size in its header, a transaction is one. */
  lemma FrontIsTx(b: seq<Byte>)
    requires SIZE_TX_HEADER <= |b| && TxSize(b) <= |b|
    ensures IsTx(b[..TxSize(b)])
  {
    hide Btous;
    var tx := b[..TxSize(b)];
    assert tx[2..4] == b[2..4] && tx[4..6] == b[4..6];
  }

  /** Transactions written one after the other are found again, whatever follows them. */
  lemma {:induction false} WalkFindsAll(txs: seq<seq<Byte>>, rest: seq<Byte>)
    requires AllTxs(txs)
    ensures Walk(Join(txs) + rest, |txs|) == Some(txs)
  {
    hide TxSize, IsTx;
    if txs != [] {
      var after := Join(txs[1..]) + rest;
      assert Join(txs) + rest == txs[0] + after;
      TxInFront(txs[0], after);
      WalkFindsAll(txs[1..], rest);
      assert txs == [txs[0]] + txs[1..];
    }
  }

  /** What a walk finds is what the body begins with. */
  lemma {:induction false} WalkIsPrefix(b: seq<Byte>, n: nat)
    requires Walk(b, n).Some?
    ensures var txs := Walk(b, n).value;
            |txs| == n && AllTxs(txs) && |Join(txs)| <= |b| && b[..|Join(txs)|] == Join(txs)
    decreases n
  {
    hide TxSize, IsTx;
    if n > 0 {
      var size := TxSize(b);
      WalkIsPrefix(b[size..], n - 1);
      FrontIsTx(b);
      var rest := Walk(b[size..], n - 1).value;
      assert Walk(b, n).value == [b[..size]] + rest;
      assert ([b[..size]] + rest)[1..] == rest;
      assert b[..size + |Join(rest)|] == b[..size] + b[size..][..|Join(rest)|];
    }
  }

  lemma {:induction false} JoinAt(txs: seq<seq<Byte>>, k: nat)
    requires k < |txs|
    ensures Join(txs[..k + 1]) == Join(txs[..k]) + txs[k]
    ensures Join(txs) == Join(txs[..k + 1]) + Join(txs[k + 1..])
    decreases |txs| - k
  {
    assert txs[..k + 1] == txs[..k] + [txs[k]];
    JoinLast(txs[..k], txs[k]);
    if k + 1 < |txs| {
      JoinAt(txs, k + 1);
    } else {
      assert txs[..k + 1] == txs;
    }
  }

  /** One step of a cursor over a body. */
  lemma WalkStep(b: seq<Byte>, n: nat, k: nat)
    requires Walk(b, n).Some? && k < n
    ensures var txs := Walk(b, n).value;
            && |txs| == n
            && |Join(txs[..k])| + SIZE_TX_HEADER <= |b|
            && TxSize(b[|Join(txs[..k])|..]) == |txs[k]|
            && |Join(txs[..k])| + |txs[k]| <= |b|
            && b[|Join(txs[..k])|..][..|txs[k]|] == txs[k]
            && Join(txs[..k + 1]) == Join(txs[..k]) + txs[k]
  {
    hide Walk, TxSize, Join, IsTx;
    WalkIsPrefix(b, n);
    var txs := Walk(b, n).value;
    JoinAt(txs, k);
    var before, after := Join(txs[..k]), Join(txs[k + 1..]) + b[|Join(txs)|..];
    assert b == before + (txs[k] + after);
    assert b[|before|..] == txs[k] + after;
    assert IsTx(txs[k]);
    TxInFront(txs[k], after);
  }

  // ---------- Generators ----------

  method TxInGen(x: Input, dest: array<Byte>, pos: nat)
    requires x.Valid() && pos + SIZE_TX_INPUT <= dest.Length
    modifies dest
    ensures dest[..] == Patch(old(dest[..]), pos, InputBytes(x))
  {
    hide Be16, Patch;
    ghost var s := dest[..];
    CopyIn(x.ref, dest, pos);
    Ustob(x.index, dest, pos + 32);
    PatchTwice(s, pos, x.ref, Be16(x.index));
    CopyIn(x.pubkey, dest, pos + 34);
    PatchTwice(s, pos, x.ref + Be16(x.index), x.pubkey);
    CopyIn(x.sig, dest, pos + 162);
    PatchTwice(s, pos, x.ref + Be16(x.index) + x.pubkey, x.sig);
  }

  method TxOutGen(x: Output, dest: array<Byte>, pos: nat)
    requires x.Valid() && pos + SIZE_TX_OUTPUT <= dest.Length
    modifies dest
    ensures dest[..] == Patch(old(dest[..]), pos, OutputBytes(x))
  {
    hide Be32;
    CopyIn(x.address, dest, pos);
    Uitob(x.amount, dest, pos + 32);
  }

  /** Header, inputs and outputs, already serialised, into `dest`. */
  method TxGen(inCount: Ushort, outCount: Ushort, lockTime: Uint, ins: seq<Byte>, outs: seq<Byte>, dest: array<Byte>)
    requires |ins| == SIZE_TX_INPUT * inCount && |outs| == SIZE_TX_OUTPUT * outCount
    requires SIZE_TX_HEADER + |ins| + |outs| <= dest.Length
    modifies dest
    ensures dest[..] == Patch(old(dest[..]), 0, HeaderBytes(inCount, outCount, lockTime) + ins + outs)
  {
    hide Be16, Be32, Patch;
    ghost var s := dest[..];
    Ustob(VERSION, dest, POS_TX_VERSION);
    Ustob(inCount, dest, POS_TX_IN_COUNT);
    PatchTwice(s, 0, Be16(VERSION), Be16(inCount));
    Ustob(outCount, dest, POS_TX_OUT_COUNT);
    PatchTwice(s, 0, Be16(VERSION) + Be16(inCount), Be16(outCount));
    Uitob(lockTime, dest, POS_TX_LOCK_TIME);
    PatchTwice(s, 0, Be16(VERSION) + Be16(inCount) + Be16(outCount), Be32(lockTime));
    CopyIn(ins, dest, POS_TX_BODY);
    PatchTwice(s, 0, HeaderBytes(inCount, outCount, lockTime), ins);
    CopyIn(outs, dest, POS_TX_BODY + |ins|);
    PatchTwice(s, 0, HeaderBytes(inCount, outCount, lockTime) + ins, outs);
  }

  datatype MTx = MTx(hash: array<Byte>, data: array<Byte>, size: nat, max: nat) | Overflow

  /** A transaction and its hash in memory of their own, unless it would be too large. */
  method MTxGen(t: Tx) returns (m: MTx)
    requires t.Valid()
    ensures m.Overflow? <==> |Encode(t)| > MAX_TX_SIZE
    ensures m.MTx? ==>
              && fresh(m.data) && fresh(m.hash) && m.data != m.hash
              && m.max == m.size == m.data.Length && m.data[..] == Encode(t)
              && m.hash[..] == Sha256.Hash(Encode(t))
  {
    hide HeaderBytes, InputsBytes, OutputsBytes, Sha256.Hash;
    var ins, outs := InputsBytes(t.ins), OutputsBytes(t.outs);
    var size := SIZE_TX_HEADER + |ins| + |outs|;
    if size > MAX_TX_SIZE {
      return Overflow;
    }
    var hash := new Byte[SIZE_SHA256](_ => 0);
    var data := new Byte[size](_ => 0);
    TxGen(|t.ins|, |t.outs|, t.lockTime, ins, outs, data);
    TxComputeHash(data[..], hash);
    return MTx(hash, data, size, size);
  }

  /** The hash of a transaction's bytes. */
  method TxComputeHash(tx: seq<Byte>, hash: array<Byte>)
    requires |tx| < TWO32 && hash.Length == SIZE_SHA256
    modifies hash
    ensures hash[..] == Sha256.Hash(tx)
  {
    hide Sha256.Hash;
    assert Join([tx]) == tx by { assert Join([tx]) == tx + Join([]); }
    Sha256.HashPieces([tx], hash);
    assert hash[..] == hash[..32];
  }
}
