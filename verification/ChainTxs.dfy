/** The transaction index and the mempool across extensions and branch swaps. */
module ChainTxs {
  import opened ChainModel
  import opened Reorg

  /** The transactions on the chain. */
  ghost function Confirmed(r: Rules, s: View): set<Hash> {
    TxsIn(r, s.blocks, s.chain)
  }

  lemma TxsInConcat(r: Rules, blocks: Blocks, c: seq<Hash>, d: seq<Hash>)
    ensures TxsIn(r, blocks, c + d) == TxsIn(r, blocks, c) + TxsIn(r, blocks, d)
  {
  }

  lemma TxsInOne(r: Rules, blocks: Blocks, h: Hash)
    requires h in blocks
    ensures TxsIn(r, blocks, [h]) == TxsOf(r, blocks[h])
  {
    assert h in [h];
  }

  /** The index written for a branch covers its transactions and points into the branch. */
  lemma {:induction false} IndexOfBranch(r: Rules, blocks: Blocks, br: seq<Hash>)
    requires forall i :: 0 <= i < |br| ==> br[i] in blocks
    ensures Index(r, blocks, br).Keys == TxsIn(r, blocks, br)
    ensures forall t :: t in Index(r, blocks, br) ==>
              Index(r, blocks, br)[t] in br && t in TxsOf(r, blocks[Index(r, blocks, br)[t]])
  {
    if br != [] {
      IndexOfBranch(r, blocks, br[1..]);
      TxsInConcat(r, blocks, [br[0]], br[1..]);
      TxsInOne(r, blocks, br[0]);
      assert br == [br[0]] + br[1..];
    }
  }

  lemma SplitChain(r: Rules, s: View, at: nat)
    requires at < |s.chain|
    ensures Confirmed(r, s) == TxsIn(r, s.blocks, s.chain[..at + 1]) + TxsIn(r, s.blocks, s.chain[at + 1..])
  {
    TxsInConcat(r, s.blocks, s.chain[..at + 1], s.chain[at + 1..]);
    assert s.chain == s.chain[..at + 1] + s.chain[at + 1..];
  }

  /** The keys of the index after a swap, and the transactions of the chain after it. */
  lemma KeysAfterRevert(r: Rules, s: View, at: int, br: seq<Hash>)
    requires Inv(r, s) && Branch(r, s, at, br) && IndexExact(r, s)
    ensures var kept, dropped, added :=
              TxsIn(r, s.blocks, s.chain[..at + 1]), TxsIn(r, s.blocks, s.chain[at + 1..]), TxsIn(r, s.blocks, br);
            && Reverted(r, s, at, br).txs.Keys == (kept - dropped) + added
            && Confirmed(r, Reverted(r, s, at, br)) == kept + added
  {
    hide Inv, TxsIn, Index;
    IndexOfBranch(r, s.blocks, br);
    SplitChain(r, s, at);
    TxsInConcat(r, s.blocks, s.chain[..at + 1], br);
  }

  /** Every index entry after a swap names a block of the new chain that holds the transaction. */
  lemma EntriesAfterRevert(r: Rules, s: View, at: int, br: seq<Hash>, t: Hash)
    requires Inv(r, s) && Branch(r, s, at, br) && IndexExact(r, s)
    requires t in Reverted(r, s, at, br).txs
    ensures var s' := Reverted(r, s, at, br);
            OnChain(s', s'.txs[t]) && t in TxsOf(r, s.blocks[s'.txs[t]])
  {
    IndexOfBranch(r, s.blocks, br);
    var h := Reverted(r, s, at, br).txs[t];
    if t !in Index(r, s.blocks, br) {
      KeptEntry(r, s, at, t);
    }
    OnNewChain(r, s, at, br, h);
  }

  /** The index stays exact over a swap exactly when every transaction that a dropped block
      repeats from the kept part of the chain comes back with the new branch. */
  lemma RevertIndexExactIff(r: Rules, s: View, at: int, br: seq<Hash>)
    requires Inv(r, s) && Branch(r, s, at, br) && IndexExact(r, s)
    ensures IndexExact(r, Reverted(r, s, at, br)) <==>
            TxsIn(r, s.blocks, s.chain[..at + 1]) * TxsIn(r, s.blocks, s.chain[at + 1..]) <= TxsIn(r, s.blocks, br)
  {
    var s' := Reverted(r, s, at, br);
    KeysAfterRevert(r, s, at, br);
    forall t | t in s'.txs
      ensures OnChain(s', s'.txs[t]) && t in TxsOf(r, s.blocks[s'.txs[t]])
    {
      EntriesAfterRevert(r, s, at, br, t);
    }
    assert s'.blocks == s.blocks;
    hide Inv, TxsIn, Reverted, OnChain;
    SameKeys(TxsIn(r, s.blocks, s.chain[..at + 1]), TxsIn(r, s.blocks, s.chain[at + 1..]), TxsIn(r, s.blocks, br));
  }

  lemma SameKeys(kept: set<Hash>, dropped: set<Hash>, added: set<Hash>)
    ensures (kept - dropped) + added == kept + added <==> kept * dropped <= added
  {
    if kept * dropped <= added {
    } else {
      var t :| t in kept * dropped && t !in added;
      assert t in kept + added && t !in (kept - dropped) + added;
    }
  }

  /** An index entry of no dropped transaction names a kept block. */
  lemma KeptEntry(r: Rules, s: View, at: nat, t: Hash)
    requires Inv(r, s) && IndexExact(r, s) && at < |s.chain|
    requires t in s.txs && t !in TxsIn(r, s.blocks, s.chain[at + 1..])
    ensures OnChain(s, s.txs[t]) && s.blocks[s.txs[t]].height <= at
  {
    InSegment(r, s, at + 1, s.txs[t]);
  }

  /** A block already listed keeps its transactions when another is stored. */
  lemma StoringKeepsTxs(r: Rules, s: View, b: Block)
    requires Inv(r, s) && NoCollision(r, s.blocks, b)
    ensures TxsIn(r, s.blocks[r.hash(b) := b], s.chain) == Confirmed(r, s)
  {
    var blocks' := s.blocks[r.hash(b) := b];
    assert forall h :: h in s.chain ==> h in s.blocks && blocks'[h] == s.blocks[h];
  }

  lemma ExtendedConfirmed(r: Rules, s: View, b: Block)
    requires Inv(r, s) && NoCollision(r, s.blocks, b)
    requires Acceptable(r, s.blocks, b) && Extends(s, b)
    ensures Confirmed(r, Added(r, s, b)) == Confirmed(r, s) + TxsOf(r, b)
  {
    var blocks' := Added(r, s, b).blocks;
    StoringKeepsTxs(r, s, b);
    TxsInConcat(r, blocks', s.chain, [r.hash(b)]);
    TxsInOne(r, blocks', r.hash(b));
  }

  /** Storing a block keeps the index exact. */
  lemma AddedKeepsIndexExact(r: Rules, s: View, b: Block)
    requires Inv(r, s) && Fresh(r, s, b) && IndexExact(r, s)
    ensures IndexExact(r, Added(r, s, b))
  {
    var s' := Added(r, s, b);
    if Acceptable(r, s.blocks, b) {
      StoringKeepsTxs(r, s, b);
      if Extends(s, b) {
        ExtendedConfirmed(r, s, b);
      }
      forall t | t in s'.txs
        ensures OnChain(s', s'.txs[t]) && t in TxsOf(r, s'.blocks[s'.txs[t]])
      {
        EntriesAfterStoring(r, s, b, t);
      }
    }
  }

  lemma EntriesAfterStoring(r: Rules, s: View, b: Block, t: Hash)
    requires Inv(r, s) && IndexExact(r, s) && Acceptable(r, s.blocks, b) && NoCollision(r, s.blocks, b)
    requires t in Added(r, s, b).txs
    ensures var s' := Added(r, s, b);
            OnChain(s', s'.txs[t]) && t in TxsOf(r, s'.blocks[s'.txs[t]])
  {
    hide TxsOf;
    assert t in s.txs ==> OnChain(s, s.txs[t]) && t in TxsOf(r, s.blocks[s.txs[t]]);
  }

  /** No two blocks of `c` share a transaction. */
  ghost predicate TxsDistinct(r: Rules, blocks: Blocks, c: seq<Hash>) {
    forall h, k :: h in c && k in c && h != k && h in blocks && k in blocks ==>
      TxsOf(r, blocks[h]) !! TxsOf(r, blocks[k])
  }

  /** On a chain that repeats no transaction the dropped part shares none with the kept part. */
  lemma DistinctSplit(r: Rules, s: View, at: nat)
    requires Inv(r, s) && at < |s.chain| && TxsDistinct(r, s.blocks, s.chain)
    ensures TxsIn(r, s.blocks, s.chain[..at + 1]) !! TxsIn(r, s.blocks, s.chain[at + 1..])
  {
    var lo, hi := s.chain[..at + 1], s.chain[at + 1..];
    forall h, k | h in lo && k in hi && h in s.blocks && k in s.blocks
      ensures TxsOf(r, s.blocks[h]) !! TxsOf(r, s.blocks[k])
    {
      InSegment(r, s, at + 1, h);
      InSegment(r, s, at + 1, k);
      assert h in s.chain && k in s.chain;
    }
  }

  /** Receiving a block keeps the index exact if the chain before the scan repeats no transaction. */
  lemma ReceiveKeepsIndexExact(r: Rules, s: View, b: Block, s': View)
    requires Inv(r, s) && Fresh(r, s, b) && IndexExact(r, s) && Received(r, s, b, s')
    requires TxsDistinct(r, Added(r, s, b).blocks, Added(r, s, b).chain)
    ensures IndexExact(r, s')
  {
    var m := Added(r, s, b);
    AddedKeepsInv(r, s, b);
    AddedKeepsIndexExact(r, s, b);
    if s' != m {
      var at, br :| Chosen(r, m, at, br) && s' == Reverted(r, m, at, br);
      DistinctSplit(r, m, at);
      RevertIndexExactIff(r, m, at, br);
    }
  }

  /** A swap loses no transaction: what was pooled or on the chain still is, nothing appears
      but the new branch's transactions, and none of those stays pooled. */
  lemma RevertLosesNoTx(r: Rules, s: View, at: int, br: seq<Hash>)
    requires Inv(r, s) && Branch(r, s, at, br)
    ensures var s' := Reverted(r, s, at, br);
            && s'.pool + Confirmed(r, s') == s.pool + Confirmed(r, s) + TxsIn(r, s.blocks, br)
            && s'.pool !! TxsIn(r, s.blocks, br)
  {
    SplitChain(r, s, at);
    TxsInConcat(r, s.blocks, s.chain[..at + 1], br);
  }

  /** After a swap every transaction is in one place, pool or chain, exactly when nothing that
      was pooled or dropped is also in the kept part of the chain and missing from the new branch. */
  lemma RevertSeparatesPoolIff(r: Rules, s: View, at: int, br: seq<Hash>)
    requires Inv(r, s) && Branch(r, s, at, br)
    ensures Reverted(r, s, at, br).pool !! Confirmed(r, Reverted(r, s, at, br)) <==>
            (s.pool + TxsIn(r, s.blocks, s.chain[at + 1..])) * TxsIn(r, s.blocks, s.chain[..at + 1])
              <= TxsIn(r, s.blocks, br)
  {
    var s' := Reverted(r, s, at, br);
    var kept, dropped, added :=
      TxsIn(r, s.blocks, s.chain[..at + 1]), TxsIn(r, s.blocks, s.chain[at + 1..]), TxsIn(r, s.blocks, br);
    TxsInConcat(r, s.blocks, s.chain[..at + 1], br);
    assert Confirmed(r, s') == kept + added;
    assert s'.pool == s.pool + dropped - added;
    if (s.pool + dropped) * kept <= added {
    } else {
      var t :| t in (s.pool + dropped) * kept && t !in added;
      assert t in s'.pool && t in Confirmed(r, s');
    }
  }

  /** In particular a swap keeps pool and chain apart on a chain that repeats no transaction. */
  lemma RevertKeepsPoolApart(r: Rules, s: View, at: int, br: seq<Hash>)
    requires Inv(r, s) && Branch(r, s, at, br)
    requires s.pool !! Confirmed(r, s) && TxsDistinct(r, s.blocks, s.chain)
    ensures Reverted(r, s, at, br).pool !! Confirmed(r, Reverted(r, s, at, br))
  {
    SplitChain(r, s, at);
    DistinctSplit(r, s, at);
    RevertSeparatesPoolIff(r, s, at, br);
  }

  /** Extending the chain does not touch the pool, so pool and chain stay apart exactly when
      the new tip confirms nothing that is pooled. */
  lemma ExtensionKeepsPoolApartIff(r: Rules, s: View, b: Block)
    requires Inv(r, s) && NoCollision(r, s.blocks, b)
    requires Acceptable(r, s.blocks, b) && Extends(s, b) && s.pool !! Confirmed(r, s)
    ensures Added(r, s, b).pool !! Confirmed(r, Added(r, s, b)) <==> s.pool !! TxsOf(r, b)
  {
    ExtendedConfirmed(r, s, b);
  }

  /** Pooling a transaction keeps pool and chain apart exactly when the chain does not have it:
      nothing looks. */
  lemma PoolingKeepsPoolApartIff(r: Rules, s: View, t: Tx)
    requires s.pool !! Confirmed(r, s)
    ensures var s' := s.(pool := s.pool + {r.txHash(t)});
            s'.pool !! Confirmed(r, s') <==> r.txHash(t) !in Confirmed(r, s)
  {
    if r.txHash(t) in Confirmed(r, s) {
      assert r.txHash(t) in s.pool + {r.txHash(t)};
    }
  }
}
