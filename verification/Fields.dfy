/** Where each field lies in a serialised transaction or block, by literal byte positions and by
    the big-endian value found there. */
module Fields {
  import opened Bytes
  import opened Bignum
  import opened TxCodec
  import opened BlockCodec

  lemma Values(a: Ushort, b: Uint)
    ensures BigValue(Be16(a)) == a && BigValue(Be32(b)) == b
  {
    UshortIsBigEndian(a, [0, 0]);
    UintIsBigEndian(b, [0, 0, 0, 0]);
  }

  /** Version, input count, output count and lock time are at 0, 2, 4 and 6. */
  lemma TxHeaderFields(t: TxCodec.Tx)
    requires t.Valid()
    ensures var b := Encode(t);
            && BigValue(b[0..2]) == 1 && BigValue(b[2..4]) == |t.ins|
            && BigValue(b[4..6]) == |t.outs| && BigValue(b[6..10]) == t.lockTime
  {
    hide Be16, Be32, BigValue, InputsBytes, OutputsBytes;
    var b := Encode(t);
    Values(1, t.lockTime);
    Values(|t.ins|, 0);
    Values(|t.outs|, 0);
    assert b[0..2] == Be16(1) && b[2..4] == Be16(|t.ins|);
    assert b[4..6] == Be16(|t.outs|) && b[6..10] == Be32(t.lockTime);
  }

  lemma {:induction false} InputAt(xs: seq<Input>, i: nat)
    requires (forall k :: 0 <= k < |xs| ==> xs[k].Valid()) && i < |xs|
    ensures InputsBytes(xs)[290 * i..290 * i + 290] == InputBytes(xs[i])
  {
    hide InputBytes;
    var first, rest := InputBytes(xs[0]), InputsBytes(xs[1..]);
    assert InputsBytes(xs) == first + rest;
    if i == 0 {
      assert (first + rest)[0..290] == first;
    } else {
      InputAt(xs[1..], i - 1);
      assert (first + rest)[290 * i..290 * i + 290] == rest[290 * (i - 1)..290 * (i - 1) + 290];
    }
  }

  lemma {:induction false} OutputAt(xs: seq<Output>, i: nat)
    requires (forall k :: 0 <= k < |xs| ==> xs[k].Valid()) && i < |xs|
    ensures OutputsBytes(xs)[36 * i..36 * i + 36] == OutputBytes(xs[i])
  {
    hide OutputBytes;
    var first, rest := OutputBytes(xs[0]), OutputsBytes(xs[1..]);
    assert OutputsBytes(xs) == first + rest;
    if i == 0 {
      assert (first + rest)[0..36] == first;
    } else {
      OutputAt(xs[1..], i - 1);
      assert (first + rest)[36 * i..36 * i + 36] == rest[36 * (i - 1)..36 * (i - 1) + 36];
    }
  }

  /** In an input: the transaction spent at 0, the output's index at 32, key at 34, signature at 162. */
  lemma InputFields(x: Input)
    requires x.Valid()
    ensures var b := InputBytes(x);
            && b[0..32] == x.ref && BigValue(b[32..34]) == x.index
            && b[34..162] == x.pubkey && b[162..290] == x.sig
  {
    hide Be16, BigValue;
    Values(x.index, 0);
    assert InputBytes(x)[32..34] == Be16(x.index);
  }

  /** In an output: the address at 0, the amount at 32. */
  lemma OutputFields(x: Output)
    requires x.Valid()
    ensures var b := OutputBytes(x);
            b[0..32] == x.address && BigValue(b[32..36]) == x.amount
  {
    hide Be32, BigValue;
    Values(0, x.amount);
    assert OutputBytes(x)[32..36] == Be32(x.amount);
  }

  /** Inputs follow the header at 10, outputs follow the inputs, each in order. */
  lemma TxBody(t: TxCodec.Tx, i: nat)
    requires t.Valid()
    ensures var b := Encode(t);
            && |b| == 10 + 290 * |t.ins| + 36 * |t.outs|
            && (i < |t.ins| ==> b[10 + 290 * i..][..290] == InputBytes(t.ins[i]))
            && (i < |t.outs| ==> b[10 + 290 * |t.ins| + 36 * i..][..36] == OutputBytes(t.outs[i]))
  {
    hide HeaderBytes, InputsBytes, OutputsBytes, InputBytes, OutputBytes;
    var h, ins, outs := HeaderBytes(|t.ins|, |t.outs|, t.lockTime), InputsBytes(t.ins), OutputsBytes(t.outs);
    if i < |t.ins| {
      InputAt(t.ins, i);
      assert (h + ins + outs)[10 + 290 * i..][..290] == ins[290 * i..290 * i + 290];
    }
    if i < |t.outs| {
      OutputAt(t.outs, i);
      assert (h + ins + outs)[10 + 290 * |t.ins| + 36 * i..][..36] == outs[36 * i..36 * i + 36];
    }
  }

  /** In a block: version, time, height, previous hash, root, target, nonce and count are at
      0, 2, 6, 10, 42, 74, 75 and 79, and the transactions from 83 on. */
  lemma BlockFields(b: seq<Byte>, h: Header, txs: seq<seq<Byte>>)
    requires Holds(b, h, txs)
    ensures BigValue(b[0..2]) == 1 && BigValue(b[2..6]) == h.time && BigValue(b[6..10]) == h.height
    ensures b[10..42] == h.prev && b[42..74] == h.root && b[74] == h.target
    ensures BigValue(b[75..79]) == h.nonce && BigValue(b[79..83]) == |txs|
    ensures b[83..][..|Join(txs)|] == Join(txs)
  {
    hide Be16, Be32, BigValue, Join;
    BlockCodec.Layout(b, h, txs);
    Values(1, h.time);
    Values(0, h.height);
    Values(0, h.nonce);
    Values(0, h.txCount);
    var lead := b[..79];
    assert b[0..2] == lead[0..2] == Be16(1) && b[2..6] == lead[2..6] == Be32(h.time);
    assert b[6..10] == lead[6..10] == Be32(h.height) && b[10..42] == lead[10..42] == h.prev;
    assert b[42..74] == lead[42..74] == h.root && b[74] == lead[74] == h.target;
    assert b[75..79] == lead[75..79] == Be32(h.nonce);
  }
}
