/** The node's databases and the operations that rewrite them. */
module Store {
  import opened ChainModel
  import opened Reorg
  import opened Containers
  import opened ChainTxs
  import opened StoreLemmas
  import opened Wrappers

  /** The highest key of a database keyed by height, 0 if it is empty. */
  method HighestKey<T>(db: map<nat, T>) returns (highest: nat)
    ensures db.Keys == {} ==> highest == 0
    ensures db.Keys != {} ==> highest in db
    ensures forall k :: k in db ==> k <= highest
  {
    highest := 0;
    var rest := db.Keys;
    while rest != {}
      invariant rest <= db.Keys
      invariant highest == 0 || highest in db
      invariant rest < db.Keys ==> highest in db
      invariant forall k :: k in db && k !in rest ==> k <= highest
      decreases |rest|
    {
      var curr :| curr in rest;
      if curr > highest || highest !in db {
        highest := curr;
      }
      rest := rest - {curr};
    }
  }

  class Dbs {
    const r: Rules
    const maxLevel: nat
    const pool: Mempool
    var blocks: Blocks
    var chain: map<nat, Hash>
    var limbo: map<nat, seq<Hash>>
    var txs: map<Hash, Hash>
    ghost var view: View

    /** Everything but the chain and the canonical form: holds between the steps of a swap. */
    ghost predicate Loose()
      reads this, pool, pool.txs
    {
      && pool.Valid() && pool.r == r
      && Hashed(r, blocks)
      && view.blocks == blocks
      && view.txs == txs
      && view.pool == pool.Hashes()
      && LimboRep(maxLevel, blocks, limbo, view.limbo)
    }

    ghost predicate Valid()
      reads this, pool, pool.txs
    {
      Loose() && ChainRep(chain, view.chain) && Inv(r, view)
    }

    ghost predicate Fits()
      reads this, pool, pool.txs
    {
      LevelsFit(maxLevel, view.blocks)
    }

    constructor (r: Rules, genesis: Block, maxLevel: nat, poolSize: nat)
      requires genesis.height == 0
      ensures Valid() && fresh(pool) && fresh(pool.txs)
      ensures this.r == r && this.maxLevel == maxLevel && pool.txs.Length == poolSize
      ensures view == Init(r, genesis)
    {
      this.r, this.maxLevel := r, maxLevel;
      pool := new Mempool(r, poolSize);
      var g := r.hash(genesis);
      blocks := map[g := genesis];
      chain := map[0 := g];
      limbo := map[];
      txs := map t | t in TxsOf(r, genesis) :: g;
      view := Init(r, genesis);
      new;
      assert txs == BlockIndex(r, genesis, g);
      assert forall h :: h in view.blocks ==> h == g && OnChain(view, h);
    }

    // ---------- chain ----------

    method ChainHeight() returns (height: nat)
      requires Valid()
      ensures height == Top(view)
    {
      height := HighestKey(chain);
      assert Top(view) in chain;
    }

    method ChainGet(height: nat) returns (hash: Option<Hash>)
      ensures hash == if height in chain then Some(chain[height]) else None
    {
      hash := if height in chain then Some(chain[height]) else None;
    }

    /** Whether the chain has this block at this height. */
    method ChainExists(height: nat, hash: Hash) returns (yes: bool)
      requires Valid()
      ensures yes <==> height < |view.chain| && view.chain[height] == hash
    {
      var got := ChainGet(height);
      yes := got.Some? && got.value == hash;
    }

    /** Make a stored block the chain's block at the height it states. */
    method ChainSafeSet(hash: Hash) returns (ret: int)
      modifies this`chain
      ensures ret == 0 <==> hash in blocks
      ensures chain == if hash in blocks then old(chain)[blocks[hash].height := hash] else old(chain)
    {
      if hash !in blocks {
        return 1;
      }
      chain := chain[blocks[hash].height := hash];
      return 0;
    }

    // ---------- limbo ----------

    /** List a stored block at its level; a full level takes no more. */
    method LimboSafeAdd(hash: Hash)
      requires Loose() && hash in blocks
      modifies this`limbo, this`view
      ensures Loose()
      ensures var listed := hash in old(view).limbo || |Level(old(limbo), blocks[hash].height)| < maxLevel;
              view == old(view).(limbo := if listed then old(view).limbo + {hash} else old(view).limbo)
    {
      hide LimboRep, Hashed, Mempool.Valid, Mempool.Hashes, Level;
      LevelOf(maxLevel, blocks, limbo, view.limbo, hash);
      var height := blocks[hash].height;
      var level := Level(limbo, height);
      var level' := AddToLevel(level, hash);
      LimboAddsRep(maxLevel, blocks, limbo, view.limbo, hash, level');
      view := view.(limbo := if hash in level' then view.limbo + {hash} else view.limbo);
      limbo := limbo[height := level'];
    }

    /** One level, read into an array, with a hash added unless it is full or has it. */
    method AddToLevel(level: seq<Hash>, hash: Hash) returns (level': seq<Hash>)
      requires Distinct(level) && |level| <= maxLevel
      ensures Distinct(level') && |level'| <= maxLevel
      ensures level' == if hash in level || |level| >= maxLevel then level else level + [hash]
    {
      var arr := new HashArray(level, maxLevel);
      var _ := arr.Add(hash);
      level' := arr.data[..arr.length];
    }

    method LimboDel(hash: Hash)
      requires Loose() && hash in blocks
      modifies this`limbo, this`view
      ensures Loose()
      ensures view == old(view).(limbo := old(view).limbo - {hash})
    {
      var height := blocks[hash].height;
      var level := Level(limbo, height);
      var arr := new HashArray(level, maxLevel);
      arr.Del(hash);
      LimboDelRep(maxLevel, blocks, limbo, view.limbo, hash, arr.data[..arr.length]);
      limbo := limbo[height := arr.data[..arr.length]];
      view := view.(limbo := view.limbo - {hash});
    }

    // ---------- swapping branches ----------

    /** Forget a transaction and pool it. */
    method UnindexTx(tx: Tx)
      requires pool.Valid() && pool.r == r
      requires r.txHash(tx) in pool.Hashes() || pool.count < pool.txs.Length
      modifies this`txs, pool`count, pool.txs
      ensures pool.Valid()
      ensures txs == old(txs) - {r.txHash(tx)}
      ensures pool.Hashes() == old(pool.Hashes()) + {r.txHash(tx)}
    {
      txs := txs - {r.txHash(tx)};
      pool.Add(tx);
    }

    /** Forget a block's transactions and pool them. */
    method UnindexTxs(block: Block)
      requires pool.Valid() && pool.r == r
      requires |pool.Hashes() + TxsOf(r, block)| <= pool.txs.Length
      modifies this`txs, pool`count, pool.txs
      ensures pool.Valid()
      ensures txs == old(txs) - TxsOf(r, block)
      ensures pool.Hashes() == old(pool.Hashes()) + TxsOf(r, block)
    {
      ghost var was, index := pool.Hashes(), txs;
      for i := 0 to |block.txs|
        invariant pool.Valid()
        invariant txs == index - Hashes(r, block.txs[..i])
        invariant pool.Hashes() == was + Hashes(r, block.txs[..i])
      {
        HashesStep(r, block.txs, i);
        PoolHasRoom(pool, was + TxsOf(r, block), r.txHash(block.txs[i]));
        WithoutTwice(index, Hashes(r, block.txs[..i]), {r.txHash(block.txs[i])});
        AddTwice(was, Hashes(r, block.txs[..i]), {r.txHash(block.txs[i])});
        UnindexTx(block.txs[i]);
      }
      assert block.txs[..|block.txs|] == block.txs;
    }

    /** Take one old block off: forget its transactions, pool them, list it in limbo. */
    method DropBlock(hash: Hash)
      requires Loose() && Fits() && hash in blocks
      requires |view.pool + TxsOf(r, blocks[hash])| <= pool.txs.Length
      modifies this`txs, this`limbo, this`view, pool`count, pool.txs
      ensures Loose() && Fits()
      ensures view == DropOne(r, old(view), hash)
    {
      var block := blocks[hash];
      UnindexTxs(block);
      view := view.(txs := txs, pool := pool.Hashes());
      LevelHasRoom(maxLevel, blocks, limbo, view.limbo, hash);
      LimboSafeAdd(hash);
    }

    /** Take every chain block above `at` off, from the top down. */
    method DropOld(at: nat)
      requires at < |view.chain| && RoomFor(r, pool.txs.Length, view, at)
      requires Valid() && Fits()
      modifies this`txs, this`limbo, this`view, pool`count, pool.txs
      ensures Loose() && Fits()
      ensures view == Dropped(r, old(view), at + 1)
    {
      hide LimboRep, Hashed, Mempool.Valid, RoomFor, LevelsFit, TxsIn, Dropped, Follows;
      var top := ChainHeight();
      DroppedNone(r, view);
      DropDown(top, at, view);
    }

    method DropDown(top: nat, at: nat, ghost s: View)
      requires ChainRep(chain, s.chain) && at <= top < |s.chain|
      requires Loose() && Fits() && s.blocks == blocks && view == Dropped(r, s, top + 1)
      requires forall i :: 0 <= i < |s.chain| ==> s.chain[i] in blocks
      requires RoomFor(r, pool.txs.Length, s, at)
      modifies this`txs, this`limbo, this`view, pool`count, pool.txs
      ensures Loose() && Fits()
      ensures view == Dropped(r, s, at + 1)
    {
      hide LimboRep, Hashed, Mempool.Valid, RoomFor, TxsIn, TxsOf, Dropped, DropOne;
      var i := top;
      while i > at
        invariant at <= i <= top
        invariant Loose() && Fits()
        invariant view == Dropped(r, s, i + 1)
      {
        var hash := ChainGet(i);
        RoomOnTheWay(r, pool.txs.Length, s, i, at);
        DropBlock(hash.value);
        DroppedStep(r, s, i);
        i := i - 1;
      }
    }

    /** Index a transaction of block `hash` and take it from the pool. */
    method IndexTx(tx: Tx, hash: Hash)
      requires pool.Valid() && pool.r == r
      modifies this`txs, pool`count, pool.txs
      ensures pool.Valid()
      ensures txs == old(txs)[r.txHash(tx) := hash]
      ensures pool.Hashes() == old(pool.Hashes()) - {r.txHash(tx)}
    {
      txs := txs[r.txHash(tx) := hash];
      var _ := pool.Del(r.txHash(tx));
    }

    /** Index a block's transactions and take them from the pool. */
    method IndexTxs(block: Block, hash: Hash)
      requires pool.Valid() && pool.r == r
      modifies this`txs, pool`count, pool.txs
      ensures pool.Valid()
      ensures txs == old(txs) + BlockIndex(r, block, hash)
      ensures pool.Hashes() == old(pool.Hashes()) - TxsOf(r, block)
    {
      ghost var was, index := pool.Hashes(), txs;
      for i := 0 to |block.txs|
        invariant pool.Valid()
        invariant txs == index + AllTo(Hashes(r, block.txs[..i]), hash)
        invariant pool.Hashes() == was - Hashes(r, block.txs[..i])
      {
        HashesStep(r, block.txs, i);
        IndexTx(block.txs[i], hash);
        MinusTwice(was, Hashes(r, block.txs[..i]), {r.txHash(block.txs[i])});
        AllToStep(index, Hashes(r, block.txs[..i]), r.txHash(block.txs[i]), hash);
      }
      assert block.txs[..|block.txs|] == block.txs;
      assert BlockIndex(r, block, hash) == AllTo(Hashes(r, block.txs), hash);
    }

    /** Put one block of the new branch on: index its transactions, take them from the pool,
        move it from limbo to the chain. */
    method AdoptBlock(hash: Hash)
      requires Loose() && Fits() && hash in blocks
      modifies this`txs, this`limbo, this`chain, this`view, pool`count, pool.txs
      ensures Loose() && Fits() && view.blocks == blocks
      ensures view == AdoptOne(r, old(view), hash)
      ensures chain == old(chain)[blocks[hash].height := hash]
    {
      IndexTxs(blocks[hash], hash);
      view := view.(txs := txs, pool := pool.Hashes());
      LimboDel(hash);
      var _ := ChainSafeSet(hash);
    }

    /** Put the branch under `tip` on, from its top down, until the height `at` is met. */
    method AdoptNew(at: nat, tip: Hash, ghost common: Hash, ghost br: seq<Hash>)
      requires Climbs(blocks, at, common, br) && tip == Below(common, br, |br|)
      requires Loose() && Fits()
      requires view.blocks == blocks && forall i :: 0 <= i < |br| ==> br[i] in blocks
      modifies this`txs, this`limbo, this`chain, this`view, pool`count, pool.txs
      ensures Loose() && Fits()
      ensures view == Adopted(r, old(view), br, 0)
      ensures chain == Overwritten(old(chain), at, br, 0)
    {
      hide Loose, Fits, Adopted, AdoptOne;
      ghost var was := view;
      ghost var j := |br|;
      var curr := tip;
      AdoptedNone(r, was, br);
      while true
        invariant 0 <= j <= |br| && curr == Below(common, br, j)
        invariant Loose() && Fits() && view.blocks == blocks
        invariant view == Adopted(r, was, br, j)
        invariant chain == Overwritten(old(chain), at, br, j)
        decreases j
      {
        assert ClimbsAt(blocks, at, common, br, j);
        var block := blocks[curr];
        if block.height == at {
          break;
        }
        j := j - 1;
        AdoptBlock(curr);
        AdoptedStep(r, was, br, j);
        curr := block.prev;
      }
    }

    /** The two passes end in the swapped store. */
    lemma TwoPasses(s: View, was: map<nat, Hash>, at: nat, br: seq<Hash>)
      requires Inv(r, s) && Branch(r, s, at, br) && ChainRep(was, s.chain) && at + |br| > Top(s)
      ensures var s' := Reverted(r, s, at, br);
              && s'.chain == s.chain[..at + 1] + br
              && Adopted(r, Dropped(r, s, at + 1), br, 0).(chain := s'.chain) == s'
              && ChainRep(Overwritten(was, at, br, 0), s'.chain)
              && Inv(r, s')
    {
      NoStaleEntriesIff(was, s.chain, at, br);
      RevertKeepsInv(r, s, at, br);
      SwapInTwoPasses(r, s, at, br);
    }

    /** Between two swaps the new entries are the chain. */
    ghost method Settle(c: seq<Hash>)
      requires Loose() && ChainRep(chain, c) && Inv(r, view.(chain := c))
      modifies this`view
      ensures Valid() && view == old(view).(chain := c)
      ensures Fits() == old(Fits())
    {
      view := view.(chain := c);
    }

    method Swap(at: nat, tip: Hash, ghost br: seq<Hash>)
      requires Valid() && Fits()
      requires Branch(r, view, at, br) && br != [] && tip == br[|br| - 1] && at + |br| > Top(view)
      requires RoomFor(r, pool.txs.Length, view, at)
      modifies this`txs, this`limbo, this`chain, this`view, pool`count, pool.txs
      ensures Valid() && Fits()
      ensures view == Reverted(r, old(view), at, br)
    {
      hide RoomFor, LimboRep, Hashed, Mempool.Valid, Inv, Dropped, Adopted, Overwritten, ChainRep, Reverted, Fits;
      ghost var s := view;
      ghost var c := s.chain[..at + 1] + br;
      TwoPasses(s, chain, at, br);
      BranchClimbs(r, s, at, br);
      DropOld(at);
      AdoptNew(at, tip, s.chain[at], br);
      Settle(c);
    }

    /** Swap the chain above the block `common` for the branch that ends in `tip`. */
    method Revert(common: Hash, tip: Hash, ghost br: seq<Hash>) returns (ret: int)
      requires Valid() && Fits()
      requires common in blocks ==>
                 && OnChain(view, common) && Branch(r, view, blocks[common].height, br)
                 && br != [] && tip == br[|br| - 1]
                 && blocks[common].height + |br| > Top(view)
                 && RoomFor(r, pool.txs.Length, view, blocks[common].height)
      modifies this`txs, this`limbo, this`chain, this`view, pool`count, pool.txs
      ensures Valid() && Fits()
      ensures ret == 0 <==> common in blocks
      ensures view == if common in blocks then Reverted(r, old(view), blocks[common].height, br) else old(view)
    {
      if common !in blocks {
        return 1;
      }
      Swap(blocks[common].height, tip, br);
      return 0;
    }

    // ---------- tracing back ----------

    /** Follow `prev` from a block down to the chain. */
    method TraceFrom(hash: Hash) returns (t: Trace)
      requires Valid()
      ensures t == TraceBack(r, view, hash)
      decreases if hash in blocks then blocks[hash].height else 0
    {
      if hash !in blocks {
        return Missing(hash);
      }
      var block := blocks[hash];
      var top := ChainHeight();
      if block.height <= Floor(top) {
        return TooOld(hash);
      }
      var onChain := ChainExists(block.height, hash);
      if onChain {
        return Found(hash);
      }
      if block.prev !in blocks {
        return Missing(block.prev);
      }
      if !Link(r, blocks[block.prev], block) {
        return Invalid(hash);
      }
      t := TraceFrom(block.prev);
    }

    /** 1, 0 or -1: can be traced back to the chain, cannot be, leads over an invalid block. */
    method ConnectableToChain(hash: Hash) returns (verdict: int)
      requires Valid()
      ensures verdict == Verdict(TraceBack(r, view, hash))
      ensures verdict == 1 <==> exists at, br :: Reaches(r, view, hash, at, br)
      ensures verdict == -1 <==> exists w :: Descent(r, view, hash, w) && Unfit(r, view, w[|w| - 1])
    {
      var t := TraceFrom(hash);
      TraceBackExact(r, view, hash);
      TraceBackInvalidExact(r, view, hash);
      verdict := Verdict(t);
    }

    // ---------- scanning limbo ----------

    /** No limbo block listed above `index` can be attached. */
    ghost predicate NoneAbove(s: View, index: int) {
      forall h :: h in s.limbo && Candidate(r, s, h) ==> s.blocks[h].height <= index
    }

    /** What the scan has done: nothing, with the levels above `index` looked through, or one swap. */
    ghost predicate Progress(s: View, index: int, swapped: bool)
      reads this
    {
      if swapped then exists at, br :: Chosen(r, s, at, br) && view == Reverted(r, s, at, br)
      else view == s && NoneAbove(s, index)
    }

    /** The way down from `h` stops at `w`, missing or too old. */
    ghost predicate Leads(s: View, h: Hash, w: Hash) {
      LeadsToMissing(r, s, h, w) || LeadsToOld(r, s, h, w)
    }

    /** A peer is asked only for blocks at which the way down from a limbo block above the old
        chain stops, before or after the swap. */
    ghost predicate WorthAsking(s: View, s': View, wanted: seq<Hash>) {
      forall w :: w in wanted ==> exists h :: OfLimbo(s, s', h) && (Leads(s, h, w) || Leads(s', h, w))
    }

    ghost predicate OfLimbo(s: View, s': View, h: Hash) {
      h in s.limbo + s'.limbo && h in s.blocks && s.blocks[h].height > Top(s)
    }

    /** If the way down from `h` stops at a missing block, that block is asked for. */
    ghost predicate Asked(s: View, h: Hash, wanted: seq<Hash>) {
      forall w :: LeadsToMissing(r, s, h, w) ==> w in wanted
    }

    /** What is asked for once the levels above `index` have been looked through: above the level
        of the swap for limbo as it was, below it for limbo as the swap left it. */
    ghost predicate AskedDownTo(s: View, s': View, index: int, wanted: seq<Hash>) {
      && (forall h :: h in s.limbo && h in s.blocks && s.blocks[h].height > Top(s') && s.blocks[h].height > index ==>
            Asked(s, h, wanted))
      && (forall h :: h in s.limbo && h in s.blocks && s.blocks[h].height == Top(s') > Top(s) && index < Top(s') ==>
            Asked(s, h, wanted) || Asked(s', h, wanted))
      && (forall h :: h in s'.limbo && h in s'.blocks && index < s'.blocks[h].height < Top(s') ==>
            Asked(s', h, wanted))
    }

    lemma LimboTop(s: View, highest: nat)
      requires Valid() && s == view && forall k :: k in limbo ==> k <= highest
      ensures NoneAbove(s, highest)
      ensures forall index :: index >= highest && index >= Top(s) ==> AskedDownTo(s, s, index, [])
    {
    }

    /** A candidate, its branch, and why swapping to it is the scan's choice. */
    lemma CandidateBranch(s: View, h: Hash) returns (at: int, br: seq<Hash>)
      requires Inv(r, s) && h in s.limbo && Candidate(r, s, h) && NoneAbove(s, s.blocks[h].height)
      ensures Chosen(r, s, at, br) && h == br[|br| - 1] && at + |br| == s.blocks[h].height
      ensures TraceBack(r, s, h) == Found(s.chain[at])
      ensures OnChain(s, s.chain[at]) && s.blocks[s.chain[at]].height == at
    {
      at, br := TraceSound(r, s, h);
      assert br != [];
      BranchHeights(r, s, at, br, |br| - 1);
    }

    /** Swap to the branch under a candidate that none is above. */
    method SwapTo(hash: Hash, common: Hash)
      requires Valid() && Fits()
      requires hash in view.limbo && Candidate(r, view, hash) && NoneAbove(view, view.blocks[hash].height)
      requires TraceBack(r, view, hash) == Found(common) && RoomToSwap(r, pool.txs.Length, view)
      modifies this`txs, this`limbo, this`chain, this`view, pool`count, pool.txs
      ensures Valid() && Fits() && view.blocks == old(view).blocks && Top(view) == old(view).blocks[hash].height
      ensures exists at, br :: Chosen(r, old(view), at, br) && view == Reverted(r, old(view), at, br)
    {
      ghost var at, br := CandidateBranch(view, hash);
      var _ := Revert(common, hash, br);
    }

    lemma LevelIsListed(index: nat)
      requires Valid()
      ensures forall h :: h in view.limbo && view.blocks[h].height == index <==> h in Level(limbo, index)
      ensures forall h :: h in Level(limbo, index) ==> h in view.blocks
    {
    }

    /** Look through one level, as it was listed when the scan came to it. */
    method ScanLevel(ghost index: nat, arr: seq<Hash>, already: bool, ghost s: View)
      returns (swapped: bool, wanted: seq<Hash>)
      requires Valid() && Fits() && Inv(r, s) && s.blocks == view.blocks
      requires index > Top(s) && Progress(s, index, already) && RoomToSwap(r, pool.txs.Length, s)
      requires forall h :: h in view.limbo && view.blocks[h].height == index <==> h in arr
      modifies this`txs, this`limbo, this`chain, this`view, pool`count, pool.txs
      ensures Valid() && Fits() && s.blocks == view.blocks
      ensures Progress(s, index - 1, swapped) && (already ==> swapped)
      ensures swapped == already ==> view == old(view)
      ensures swapped && !already ==> Top(view) == index
      ensures forall k :: 0 <= k < |arr| ==>
                Asked(view, arr[k], wanted) || (swapped && !already && Asked(s, arr[k], wanted))
      ensures forall w :: w in wanted ==> exists h :: h in arr && (Leads(s, h, w) || Leads(view, h, w))
    {
      hide Loose, Fits, Chosen, Reverted, TraceBack, RoomToSwap, ChainRep, Asked, Leads;
      swapped := already;
      wanted := [];
      for i := 0 to |arr|
        invariant Valid() && Fits() && s.blocks == view.blocks
        invariant Progress(s, index, swapped) && (already ==> swapped)
        invariant swapped == already ==> view == old(view)
        invariant swapped && !already ==> Top(view) == index
        invariant !swapped ==> forall k :: 0 <= k < i ==> !Candidate(r, s, arr[k])
        invariant forall k :: 0 <= k < i ==>
                    Asked(view, arr[k], wanted) || (swapped && !already && Asked(s, arr[k], wanted))
        invariant forall w :: w in wanted ==> exists h :: h in arr && (Leads(s, h, w) || Leads(view, h, w))
      {
        ghost var before := wanted;
        var t, more := TraceOrAsk(arr[i]);
        wanted := wanted + more;
        forall k | 0 <= k < i
          ensures Asked(view, arr[k], wanted) || (swapped && !already && Asked(s, arr[k], wanted))
        {
          AskedMore(s, arr[k], before, more);
          AskedMore(view, arr[k], before, more);
        }
        AskedMore(view, arr[i], before, more);
        if t.Found? && !swapped {
          SwapTo(arr[i], t.common);
          swapped := true;
        }
      }
    }

    lemma AskedMore(s: View, h: Hash, before: seq<Hash>, more: seq<Hash>)
      ensures Asked(s, h, before) || Asked(s, h, more) ==> Asked(s, h, before + more)
    {
    }

    /** Trace a limbo block back, and ask for the block at which that stops. */
    method TraceOrAsk(hash: Hash) returns (t: Trace, wanted: seq<Hash>)
      requires Valid()
      ensures t == TraceBack(r, view, hash)
      ensures Asked(view, hash, wanted) && (forall w :: w in wanted ==> Leads(view, hash, w))
      ensures t.Found? ==> wanted == []
    {
      hide Loose, Inv, ChainRep, TraceBack, LeadsToMissing, LeadsToOld;
      t := TraceFrom(hash);
      forall w
        ensures t == Missing(w) <==> LeadsToMissing(r, view, hash, w)
        ensures t == TooOld(w) <==> LeadsToOld(r, view, hash, w)
      {
        MissingExact(r, view, hash, w);
        TooOldExact(r, view, hash, w);
      }
      match t
      case Found(_) => wanted := [];
      case Missing(w) => wanted := [w];
      case TooOld(w) => wanted := [w];
      case Invalid(_) => wanted := [];
    }

    /** Look through limbo from its highest level down to the chain's height and swap to the
        first block that can be attached. */
    method LimboScan() returns (wanted: seq<Hash>)
      requires Valid() && Fits() && RoomToSwap(r, pool.txs.Length, view)
      modifies this`txs, this`limbo, this`chain, this`view, pool`count, pool.txs
      ensures Valid() && Fits()
      ensures Scanned(r, old(view), view)
      ensures WorthAsking(old(view), view, wanted)
      ensures AskedDownTo(old(view), view, Top(old(view)), wanted)
    {
      hide Loose, Fits, Inv, Chosen, Reverted, Candidate, RoomToSwap, WorthAsking, AskedDownTo;
      ghost var s := view;
      var currHeight := ChainHeight();
      var index := HighestKey(limbo);
      LimboTop(s, index);
      var swapped;
      swapped, wanted := ScanDown(index, currHeight, s);
      if !swapped {
        SettledBelow(s);
      }
    }

    /** One more level of limbo has been looked through: as it was before the swap, at the level of
        the swap partly before and partly after it, or after it. */
    lemma LevelAsked(s: View, was: View, s': View, index: nat, level: seq<Hash>, before: seq<Hash>, more: seq<Hash>)
      requires AskedDownTo(s, was, index, before) && index > Top(s) && s.blocks == was.blocks == s'.blocks
      requires forall h :: h in was.limbo && h in was.blocks && was.blocks[h].height == index ==> h in level
      requires was == s || (was == s' && index < Top(s'))
      requires s' == was || Top(s') == index
      requires forall k :: 0 <= k < |level| ==>
                 Asked(s', level[k], more) || (s' != was && Asked(s, level[k], more))
      ensures AskedDownTo(s, s', index - 1, before + more)
    {
      hide Asked;
      forall h | h in s.limbo + s'.limbo
        ensures Asked(s, h, before) ==> Asked(s, h, before + more)
        ensures Asked(s', h, before) ==> Asked(s', h, before + more)
        ensures h in level ==> Asked(s', h, before + more) || (s' != was && Asked(s, h, before + more))
      {
        AskedMore(s, h, before, more);
        AskedMore(s', h, before, more);
      }
    }

    lemma LevelWorth(s: View, was: View, s': View, index: nat, level: seq<Hash>, before: seq<Hash>, more: seq<Hash>)
      requires WorthAsking(s, was, before) && index > Top(s) && s.blocks == was.blocks
      requires was == s || was == s'
      requires forall h :: h in level ==> h in was.limbo && h in was.blocks && was.blocks[h].height == index
      requires forall w :: w in more ==> exists h :: h in level && (Leads(s, h, w) || Leads(s', h, w))
      ensures WorthAsking(s, s', before + more)
    {
      hide Leads;
      forall w | w in before + more
        ensures exists h :: OfLimbo(s, s', h) && (Leads(s, h, w) || Leads(s', h, w))
      {
        if w in before {
          var h :| OfLimbo(s, was, h) && (Leads(s, h, w) || Leads(was, h, w));
          assert OfLimbo(s, s', h);
        } else {
          var h :| h in level && (Leads(s, h, w) || Leads(s', h, w));
          assert OfLimbo(s, s', h);
        }
      }
    }

    lemma SettledBelow(s: View)
      requires NoneAbove(s, Top(s))
      ensures Settled(r, s)
    {
    }

    method ScanDown(highest: nat, currHeight: nat, ghost s: View) returns (swapped: bool, wanted: seq<Hash>)
      requires Valid() && Fits() && Inv(r, s) && s == view && RoomToSwap(r, pool.txs.Length, s)
      requires currHeight == Top(s) && NoneAbove(s, highest)
      requires forall index :: index >= highest && index >= Top(s) ==> AskedDownTo(s, s, index, [])
      modifies this`txs, this`limbo, this`chain, this`view, pool`count, pool.txs
      ensures Valid() && Fits()
      ensures Progress(s, Top(s), swapped)
      ensures WorthAsking(s, view, wanted) && AskedDownTo(s, view, Top(s), wanted)
    {
      hide Loose, Fits, Inv, Chosen, Reverted, Candidate, TraceBack, RoomToSwap, Asked, Leads, AskedDownTo;
      var index := highest;
      swapped := false;
      wanted := [];
      while index > currHeight
        invariant Valid() && Fits() && s.blocks == view.blocks
        invariant Progress(s, index, swapped) && (swapped ==> index < Top(view))
        invariant WorthAsking(s, view, wanted)
        invariant AskedDownTo(s, view, if index > currHeight then index else currHeight, wanted)
      {
        LevelIsListed(index);
        ghost var was, level, before := view, Level(limbo, index), wanted;
        var more := [];
        if index in limbo {
          swapped, more := ScanLevel(index, limbo[index], swapped, s);
        }
        wanted := wanted + more;
        LevelAsked(s, was, view, index, level, before, more);
        LevelWorth(s, was, view, index, level, before, more);
        index := index - 1;
      }
    }

    // ---------- messages ----------

    /** Store a block's data under its hash. */
    method BlocksAdd(block: Block)
      requires Loose() && NoCollision(r, blocks, block)
      modifies this`blocks, this`view
      ensures Loose()
      ensures view == old(view).(blocks := old(view).blocks[r.hash(block) := block])
    {
      StoringKeepsLimbo(r, maxLevel, blocks, limbo, view.limbo, block);
      blocks := blocks[r.hash(block) := block];
      view := view.(blocks := blocks);
    }

    /** Index the transactions of a block that joins the chain. */
    method TxsAdd(block: Block, hash: Hash)
      modifies this`txs
      ensures txs == old(txs) + BlockIndex(r, block, hash)
    {
      ghost var index := txs;
      for i := 0 to |block.txs|
        invariant txs == index + AllTo(Hashes(r, block.txs[..i]), hash)
      {
        HashesStep(r, block.txs, i);
        AllToStep(index, Hashes(r, block.txs[..i]), r.txHash(block.txs[i]), hash);
        txs := txs[r.txHash(block.txs[i]) := hash];
      }
      assert block.txs[..|block.txs|] == block.txs;
      assert BlockIndex(r, block, hash) == AllTo(Hashes(r, block.txs), hash);
    }

    /** What a stored block does to the chain it extends. */
    method ExtendChain(block: Block)
      requires Loose() && ChainRep(chain, view.chain)
      requires r.hash(block) in blocks && blocks[r.hash(block)] == block && block.height == |view.chain|
      modifies this`chain, this`txs, this`view
      ensures Loose() && ChainRep(chain, view.chain)
      ensures view == old(view).(chain := old(view).chain + [r.hash(block)],
                                 txs := old(view).txs + BlockIndex(r, block, r.hash(block)))
    {
      var hash := r.hash(block);
      TxsAdd(block, hash);
      var _ := ChainSafeSet(hash);
      view := view.(chain := view.chain + [hash], txs := txs);
    }

    lemma TipIsListed()
      requires Valid()
      ensures Top(view) >= 0 && Top(view) in chain && chain[Top(view)] == view.chain[Top(view)]
      ensures Hashed(r, view.blocks)
    {
    }

    /** Put an acceptable block where it belongs: on the tip, or in limbo if its height is not
        the next or it does not follow from the tip. */
    method Place(block: Block)
      requires Valid() && Acceptable(r, blocks, block) && NoCollision(r, blocks, block)
      requires LevelsFit(maxLevel, blocks[r.hash(block) := block])
      modifies this`blocks, this`limbo, this`chain, this`txs, this`view
      ensures Valid() && view == Added(r, old(view), block)
    {
      hide Inv, LimboRep, Hashed, Link, BlockIndex, AtHeight;
      AddedKeepsInv(r, view, block);
      TipIsListed();
      var hash := r.hash(block);
      var currHeight := ChainHeight();
      var currHash := ChainGet(currHeight);
      BlocksAdd(block);
      LevelOf(maxLevel, blocks, limbo, view.limbo, hash);
      LevelHasRoom(maxLevel, blocks, limbo, view.limbo, hash);
      if block.height <= currHeight || block.height >= currHeight + 2 {
        LimboSafeAdd(hash);
      } else if block.prev == currHash.value {
        ExtendChain(block);
      } else {
        LimboSafeAdd(hash);
      }
    }

    /** A block above the chain whose parent is missing has that parent asked for. */
    lemma ParentIsAsked(s: View, b: Block, s': View, wanted: seq<Hash>)
      requires Inv(r, s) && r.ok(b) && Fresh(r, s, b) && Received(r, s, b, s')
      requires var m := Added(r, s, b); s'.blocks == m.blocks && AskedDownTo(m, s', Top(m), wanted)
      requires b.prev !in s'.blocks && b.height > Top(s) && b.height > Floor(Top(s'))
      ensures b.prev in wanted
    {
      hide Follows, LeadsToMissing, Scanned;
      var m, h := Added(r, s, b), r.hash(b);
      AddedKeepsInv(r, s, b);
      ScanKeepsOrphan(r, m, s', h);
      OrphanLeads(r, m, h);
      OrphanLeads(r, s', h);
    }

    /** A block message: store and place the block if it is acceptable, then scan limbo. */
    method ReceiveBlock(block: Block) returns (wanted: seq<Hash>)
      requires Valid() && Fresh(r, view, block)
      requires LevelsFit(maxLevel, Added(r, view, block).blocks)
      requires RoomToSwap(r, pool.txs.Length, Added(r, view, block))
      modifies this`blocks, this`txs, this`limbo, this`chain, this`view, pool`count, pool.txs
      ensures Valid() && Fits()
      ensures Received(r, old(view), block, view)
      ensures var m := Added(r, old(view), block);
              WorthAsking(m, view, wanted) && AskedDownTo(m, view, Top(m), wanted)
      ensures r.ok(block) && block.prev !in view.blocks ==>
                (block.height > old(Top(view)) && block.height > Floor(Top(view)) ==> block.prev in wanted)
    {
      ghost var s := view;
      if r.ok(block) && (block.prev in blocks ==> Link(r, blocks[block.prev], block)) {
        Place(block);
      }
      wanted := LimboScan();
      if r.ok(block) && block.prev !in view.blocks && block.height > Top(s) && block.height > Floor(Top(view)) {
        ScanKeepsBlocks(r, Added(r, s, block), view);
        ParentIsAsked(s, block, view, wanted);
      }
    }

    method MempoolAdd(tx: Tx)
      requires Valid() && pool.count < pool.txs.Length
      modifies this`view, pool`count, pool.txs
      ensures Valid()
      ensures view == old(view).(pool := old(view).pool + {r.txHash(tx)})
    {
      hide LimboRep, Inv, ChainRep, Hashed;
      ghost var s := view;
      PoolingKeepsInv(r, s, s.pool + {r.txHash(tx)});
      pool.Add(tx);
      view := view.(pool := pool.Hashes());
    }

    /** A transaction message: pool it while there is room. */
    method ReceiveTx(tx: Tx)
      requires Valid()
      modifies this`view, pool`count, pool.txs
      ensures Valid()
      ensures view == if old(pool.count) < pool.txs.Length
                      then old(view).(pool := old(view).pool + {r.txHash(tx)}) else old(view)
      ensures old(view).pool !! Confirmed(r, old(view)) ==>
                (view.pool !! Confirmed(r, view) <==>
                 old(pool.count) >= pool.txs.Length || r.txHash(tx) !in Confirmed(r, old(view)))
    {
      hide Loose, Inv, ChainRep, Confirmed;
      ghost var s := view;
      if s.pool !! Confirmed(r, s) {
        PoolingKeepsPoolApartIff(r, s, tx);
      }
      if pool.count < pool.txs.Length {
        MempoolAdd(tx);
      }
    }
  }
}
