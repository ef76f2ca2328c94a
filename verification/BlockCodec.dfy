/** Serialised blocks: an 83-byte header followed by transactions of varying length. */
module BlockCodec {
  import opened Bytes
  import opened Wrappers
  import opened TxCodec
  import Merkle

  const MAX_BLOCK_SIZE: nat := 1048576
  const SIZE_BLOCK_HEADER: nat := 83

  const POS_BLOCK_VERSION: nat := 0
  const POS_BLOCK_TIME: nat := 2
  const POS_BLOCK_HEIGHT: nat := 6
  const POS_BLOCK_PREV_HASH: nat := 10
  const POS_BLOCK_MERKLE_ROOT: nat := 42
  const POS_BLOCK_TARGET: nat := 74
  const POS_BLOCK_NONCE: nat := 75
  const POS_BLOCK_TX_COUNT: nat := 79

  datatype Header = Header(time: Uint, height: Uint, prev: seq<Byte>, root: seq<Byte>, target: Byte, nonce: Uint,
                           txCount: Uint) {
    predicate Valid() {
      |prev| == 32 && |root| == 32
    }
  }

  /** The header's fields up to the transaction count, as they lie in the block. */
  function Lead(h: Header): (b: seq<Byte>)
    requires h.Valid()
    ensures |b| == POS_BLOCK_TX_COUNT
  {
    Be16(VERSION) + Be32(h.time) + Be32(h.height) + h.prev + h.root + [h.target] + Be32(h.nonce)
  }

  /** A block buffer that states `h` and holds exactly `txs`. */
  ghost predicate Holds(b: seq<Byte>, h: Header, txs: seq<seq<Byte>>) {
    && |b| == MAX_BLOCK_SIZE && h.Valid()
    && AllTxs(txs) && SIZE_BLOCK_HEADER + |Join(txs)| < MAX_BLOCK_SIZE
    && h.txCount == |txs|
    && b[..SIZE_BLOCK_HEADER + |Join(txs)|] == Lead(h) + Be32(h.txCount) + Join(txs)
  }

  function TxCount(b: seq<Byte>): Uint
    requires |b| >= SIZE_BLOCK_HEADER
  {
    Btoui(b[POS_BLOCK_TX_COUNT..SIZE_BLOCK_HEADER])
  }

  /** A reader that knows only the bytes: the count field, then that many transactions. */
  function ReadTxs(b: seq<Byte>): Option<seq<seq<Byte>>>
    requires |b| >= SIZE_BLOCK_HEADER
  {
    Walk(b[SIZE_BLOCK_HEADER..], TxCount(b))
  }

  function ReadHeader(b: seq<Byte>): (h: Header)
    requires |b| >= SIZE_BLOCK_HEADER
    ensures h.Valid()
  {
    Header(Btoui(b[2..6]), Btoui(b[6..10]), b[10..42], b[42..74], b[74], Btoui(b[75..79]), TxCount(b))
  }

  // ---------- A block decodes to what was put in ----------

  lemma Layout(b: seq<Byte>, h: Header, txs: seq<seq<Byte>>)
    requires Holds(b, h, txs)
    ensures b[..POS_BLOCK_TX_COUNT] == Lead(h)
    ensures b[POS_BLOCK_TX_COUNT..SIZE_BLOCK_HEADER] == Be32(h.txCount)
    ensures b[SIZE_BLOCK_HEADER..][..|Join(txs)|] == Join(txs)
  {
    hide Lead, Be32;
    var whole := b[..SIZE_BLOCK_HEADER + |Join(txs)|];
    assert b[..POS_BLOCK_TX_COUNT] == whole[..POS_BLOCK_TX_COUNT];
    assert b[POS_BLOCK_TX_COUNT..SIZE_BLOCK_HEADER] == whole[POS_BLOCK_TX_COUNT..SIZE_BLOCK_HEADER];
    assert b[SIZE_BLOCK_HEADER..][..|Join(txs)|] == whole[SIZE_BLOCK_HEADER..];
  }

  /** Walking a block from byte 83 finds exactly the transactions it holds, in order. */
  lemma BlockDecodesTxs(b: seq<Byte>, h: Header, txs: seq<seq<Byte>>)
    requires Holds(b, h, txs)
    ensures TxCount(b) == |txs| && ReadTxs(b) == Some(txs)
  {
    hide Be32, Btoui;
    Layout(b, h, txs);
    UintRoundTrip(h.txCount, [0, 0, 0, 0]);
    var body := b[SIZE_BLOCK_HEADER..];
    WalkFindsAll(txs, body[|Join(txs)|..]);
    assert body == body[..|Join(txs)|] + body[|Join(txs)|..];
  }

  /** The header fields are read back as they were written. */
  lemma BlockDecodesHeader(b: seq<Byte>, h: Header, txs: seq<seq<Byte>>)
    requires Holds(b, h, txs)
    ensures ReadHeader(b) == h
  {
    hide Be16, Be32, Btoui;
    Layout(b, h, txs);
    var lead := b[..POS_BLOCK_TX_COUNT];
    UintRoundTrip(h.time, [0, 0, 0, 0]);
    UintRoundTrip(h.height, [0, 0, 0, 0]);
    UintRoundTrip(h.nonce, [0, 0, 0, 0]);
    UintRoundTrip(h.txCount, [0, 0, 0, 0]);
    assert b[2..6] == lead[2..6] == Be32(h.time);
    assert b[6..10] == lead[6..10] == Be32(h.height);
    assert b[10..42] == lead[10..42] == h.prev;
    assert b[42..74] == lead[42..74] == h.root;
    assert b[74] == lead[74] == h.target;
    assert b[75..79] == lead[75..79] == Be32(h.nonce);
  }

  /** No buffer holds two different blocks. */
  lemma DecodingIsUnique(b: seq<Byte>, h: Header, txs: seq<seq<Byte>>, h': Header, txs': seq<seq<Byte>>)
    requires Holds(b, h, txs) && Holds(b, h', txs')
    ensures h == h' && txs == txs'
  {
    BlockDecodesHeader(b, h, txs);
    BlockDecodesHeader(b, h', txs');
    BlockDecodesTxs(b, h, txs);
    BlockDecodesTxs(b, h', txs');
  }

  // ---------- Building a block ----------

  /** An empty block: root, nonce and count are zero. */
  method BlockAddHeader(time: Uint, height: Uint, prev: seq<Byte>, target: Byte, dest: array<Byte>)
    requires |prev| == 32 && dest.Length == MAX_BLOCK_SIZE
    modifies dest
    ensures Holds(dest[..], Header(time, height, prev, seq(32, _ => 0), target, 0, 0), [])
    ensures dest[SIZE_BLOCK_HEADER..] == old(dest[SIZE_BLOCK_HEADER..])
  {
    hide Be16, Be32, Patch;
    ghost var s := dest[..];
    var zeros: seq<Byte> := seq(32, _ => 0);
    Ustob(VERSION, dest, POS_BLOCK_VERSION);
    ghost var done := Be16(VERSION);
    Uitob(time, dest, POS_BLOCK_TIME);
    PatchTwice(s, 0, done, Be32(time));
    done := done + Be32(time);
    Uitob(height, dest, POS_BLOCK_HEIGHT);
    PatchTwice(s, 0, done, Be32(height));
    done := done + Be32(height);
    CopyIn(prev, dest, POS_BLOCK_PREV_HASH);
    PatchTwice(s, 0, done, prev);
    done := done + prev;
    CopyIn(zeros, dest, POS_BLOCK_MERKLE_ROOT);
    PatchTwice(s, 0, done, zeros);
    done := done + zeros;
    CopyIn([target], dest, POS_BLOCK_TARGET);
    PatchTwice(s, 0, done, [target]);
    done := done + [target];
    Uitob(0, dest, POS_BLOCK_NONCE);
    PatchTwice(s, 0, done, Be32(0));
    done := done + Be32(0);
    Uitob(0, dest, POS_BLOCK_TX_COUNT);
    PatchTwice(s, 0, done, Be32(0));
    PatchedFront(s, done + Be32(0));
  }

  lemma PatchedFront(s: seq<Byte>, b: seq<Byte>)
    requires |b| <= |s|
    ensures Patch(s, 0, b)[..|b|] == b && Patch(s, 0, b)[|b|..] == s[|b|..]
  {
  }

  /** Header and body, found by walking the body's own sizes. */
  method BlockComputeSize(block: array<Byte>) returns (size: nat)
    requires block.Length >= SIZE_BLOCK_HEADER && ReadTxs(block[..]).Some?
    ensures size == SIZE_BLOCK_HEADER + |Join(ReadTxs(block[..]).value)|
    ensures AllTxs(ReadTxs(block[..]).value)
    ensures size == SIZE_BLOCK_HEADER + TotalSize(ReadTxs(block[..]).value)
  {
    hide Btoui, TxSize, IsTx;
    var txCount := Btoui(block[POS_BLOCK_TX_COUNT..SIZE_BLOCK_HEADER]);
    ghost var body := block[..][SIZE_BLOCK_HEADER..];
    ghost var txs := ReadTxs(block[..]).value;
    WalkIsPrefix(body, txCount);
    assert block[POS_BLOCK_TX_COUNT..SIZE_BLOCK_HEADER] == block[..][POS_BLOCK_TX_COUNT..SIZE_BLOCK_HEADER];
    var cursor := SIZE_BLOCK_HEADER;
    for i := 0 to txCount
      invariant cursor == SIZE_BLOCK_HEADER + |Join(txs[..i])|
    {
      WalkStep(body, txCount, i);
      assert block[cursor..] == body[|Join(txs[..i])|..];
      cursor := cursor + TxSize(block[cursor..]);
    }
    assert txs[..txCount] == txs;
    JoinSize(txs);
    size := cursor;
  }

  /** Append a transaction and count it, unless the block would reach its maximum size. */
  method BlockAddTx(block: array<Byte>, tx: seq<Byte>, ghost h: Header, ghost txs: seq<seq<Byte>>) returns (ok: bool)
    requires Holds(block[..], h, txs) && IsTx(tx)
    modifies block
    ensures ok <==> SIZE_BLOCK_HEADER + |Join(txs)| + |tx| < MAX_BLOCK_SIZE
    ensures ok ==> |txs| + 1 < TWO32 && Holds(block[..], h.(txCount := |txs + [tx]|), txs + [tx])
    ensures !ok ==> block[..] == old(block[..])
  {
    BlockDecodesTxs(block[..], h, txs);
    var size := BlockComputeSize(block);
    if size + |tx| >= MAX_BLOCK_SIZE {
      return false;
    }
    ghost var s := block[..];
    JoinSize(txs);
    JoinLast(txs, tx);
    CopyIn(tx, block, size);
    var txCount := Btoui(block[POS_BLOCK_TX_COUNT..SIZE_BLOCK_HEADER]);
    CountUntouched(s, size, tx);
    assert txCount == |txs| by { assert block[..][79..83] == block[79..83]; }
    Uitob(txCount + 1, block, POS_BLOCK_TX_COUNT);
    AppendedHolds(s, h, txs, tx);
    return true;
  }

  lemma CountUntouched(s: seq<Byte>, size: nat, tx: seq<Byte>)
    requires SIZE_BLOCK_HEADER <= size && size + |tx| <= |s|
    ensures Patch(s, size, tx)[79..83] == s[79..83]
  {
  }

  /** A body extended at byte `n` and a count patched into the header. */
  lemma AppendedBytes(s: seq<Byte>, n: nat, tx: seq<Byte>, count: seq<Byte>)
    requires SIZE_BLOCK_HEADER <= n && n + |tx| <= |s| && |count| == 4
    ensures Patch(Patch(s, n, tx), POS_BLOCK_TX_COUNT, count)[..n + |tx|] == s[..79] + count + s[83..n] + tx
  {
    var s1 := Patch(s, n, tx);
    assert s1[..n] == s[..n] && s1[n..n + |tx|] == tx;
    var b := Patch(s1, POS_BLOCK_TX_COUNT, count);
    assert b[..79] == s1[..79] && b[79..83] == count && b[83..n + |tx|] == s1[83..n + |tx|];
    assert s1[..79] == s[..79] && s1[83..n + |tx|] == s[83..n] + tx;
    assert b[..n + |tx|] == b[..79] + b[79..83] + b[83..n + |tx|];
  }

  lemma AppendedHolds(s: seq<Byte>, h: Header, txs: seq<seq<Byte>>, tx: seq<Byte>)
    requires Holds(s, h, txs) && IsTx(tx)
    requires SIZE_BLOCK_HEADER + |Join(txs)| + |tx| < MAX_BLOCK_SIZE && |txs| + 1 < TWO32
    ensures Holds(Patch(Patch(s, SIZE_BLOCK_HEADER + |Join(txs)|, tx), POS_BLOCK_TX_COUNT, Be32(|txs| + 1)),
                  h.(txCount := |txs + [tx]|), txs + [tx])
  {
    hide Be32, Lead, IsTx, Patch;
    var n := SIZE_BLOCK_HEADER + |Join(txs)|;
    var count := Be32(|txs| + 1);
    JoinLast(txs, tx);
    Layout(s, h, txs);
    AppendedBytes(s, n, tx, count);
    assert s[83..n] == s[83..][..|Join(txs)|];
    LeadIgnoresCount(h, |txs + [tx]|);
    assert Lead(h) + count + Join(txs) + tx == Lead(h) + count + (Join(txs) + tx);
  }

  lemma LeadIgnoresCount(h: Header, n: Uint)
    requires h.Valid()
    ensures Lead(h.(txCount := n)) == Lead(h)
  {
  }

  /** Put the root of the body into the header. */
  method BlockUpdateRoot(block: array<Byte>, ghost h: Header, ghost txs: seq<seq<Byte>>)
    requires Holds(block[..], h, txs) && txs != []
    modifies block
    ensures Holds(block[..], h.(root := Merkle.Root(Merkle.Leaves(txs))), txs)
  {
    hide Merkle.Root, Merkle.Leaves;
    ghost var s := block[..];
    BlockDecodesTxs(s, h, txs);
    var txCount := Btoui(block[POS_BLOCK_TX_COUNT..SIZE_BLOCK_HEADER]);
    assert block[79..83] == s[79..83];
    assert block[SIZE_BLOCK_HEADER..] == s[SIZE_BLOCK_HEADER..];
    Merkle.ComputeMerkleRoot(block[SIZE_BLOCK_HEADER..], txCount, block, POS_BLOCK_MERKLE_ROOT);
    RootedHolds(s, h, txs, Merkle.BodyRoot(s[SIZE_BLOCK_HEADER..], txCount));
  }

  lemma RootedHolds(s: seq<Byte>, h: Header, txs: seq<seq<Byte>>, root: seq<Byte>)
    requires Holds(s, h, txs) && |root| == 32
    ensures Holds(Patch(s, POS_BLOCK_MERKLE_ROOT, root), h.(root := root), txs)
  {
    hide Be16, Be32, IsTx;
    var n := SIZE_BLOCK_HEADER + |Join(txs)|;
    var b := Patch(s, POS_BLOCK_MERKLE_ROOT, root);
    Layout(s, h, txs);
    assert b[..n] == s[..n][..42] + root + s[..n][74..];
  }
}
