/** How the node's maps and arrays stand for a `View`. */
module StoreLemmas {
  import opened ChainModel
  import opened Reorg
  import opened Containers
  import opened ChainTxs

  ghost predicate ChainRep(chain: map<nat, Hash>, c: seq<Hash>) {
    && (forall i :: i in chain <==> 0 <= i < |c|)
    && forall i :: 0 <= i < |c| ==> chain[i] == c[i]
  }

  function Level(limbo: map<nat, seq<Hash>>, k: nat): seq<Hash> {
    if k in limbo then limbo[k] else []
  }

  /** Every level lists, once each, limbo blocks of that height; every limbo block is listed. */
  ghost predicate LimboRep(max: nat, blocks: Blocks, limbo: map<nat, seq<Hash>>, L: set<Hash>) {
    && (forall k :: k in limbo ==> Distinct(limbo[k]) && |limbo[k]| <= max)
    && (forall k, h :: k in limbo && h in limbo[k] ==> h in L && h in blocks && blocks[h].height == k)
    && (forall h :: h in L ==> h in blocks && h in Level(limbo, blocks[h].height))
  }

  function AtHeight(blocks: Blocks, k: nat): set<Hash> {
    set h | h in blocks && blocks[h].height == k
  }

  /** No height has more blocks than a limbo level can list. */
  ghost predicate LevelsFit(max: nat, blocks: Blocks) {
    forall k :: |AtHeight(blocks, k)| <= max
  }

  /** The pool can take in what leaves the chain above `at`. */
  ghost predicate RoomFor(r: Rules, size: nat, s: View, at: int)
    requires 0 <= at < |s.chain|
  {
    |s.pool + TxsIn(r, s.blocks, s.chain[at + 1..])| <= size
  }

  /** The pool can take in what leaves the chain in any swap that a scan may choose; if it
      chooses none, no room is needed. */
  ghost predicate RoomToSwap(r: Rules, size: nat, s: View) {
    forall at, br :: Chosen(r, s, at, br) ==> RoomFor(r, size, s, at)
  }

  /** Room for the few blocks above the lowest fork in the window is always enough. */
  lemma WindowRoomSuffices(r: Rules, size: nat, s: View)
    requires |s.chain| > 0
    requires Floor(Top(s)) + 1 < |s.chain| ==> RoomFor(r, size, s, Floor(Top(s)) + 1)
    ensures RoomToSwap(r, size, s)
  {
    hide TxsIn, RoomFor, Rests;
    forall at, br | Chosen(r, s, at, br)
      ensures RoomFor(r, size, s, at)
    {
      RoomHigherUp(r, size, s, Floor(Top(s)) + 1, at);
    }
  }

  lemma RoomHigherUp(r: Rules, size: nat, s: View, low: nat, at: nat)
    requires low <= at < |s.chain| && RoomFor(r, size, s, low)
    ensures RoomFor(r, size, s, at)
  {
    hide TxsIn;
    SuffixTxs(r, s.blocks, s.chain, low + 1, at + 1);
    SmallerFits(s.pool + TxsIn(r, s.blocks, s.chain[at + 1..]), s.pool + TxsIn(r, s.blocks, s.chain[low + 1..]));
  }

  lemma SuffixTxs(r: Rules, blocks: Blocks, c: seq<Hash>, i: nat, j: nat)
    requires i <= j <= |c|
    ensures TxsIn(r, blocks, c[j..]) <= TxsIn(r, blocks, c[i..])
  {
    TxsInConcat(r, blocks, c[i..j], c[j..]);
    assert c[i..] == c[i..j] + c[j..];
  }

  /** On the way down to `at` the pool never has to hold more than at the end. */
  lemma RoomOnTheWay(r: Rules, size: nat, s: View, i: nat, at: nat)
    requires at < i < |s.chain| && s.chain[i] in s.blocks
    requires RoomFor(r, size, s, at)
    ensures |Dropped(r, s, i + 1).pool + TxsOf(r, s.blocks[s.chain[i]])| <= size
  {
    hide TxsIn, TxsOf;
    SegmentStep(r, s.blocks, s.chain, i);
    SuffixTxs(r, s.blocks, s.chain, at + 1, i);
    SmallerFits(s.pool + TxsIn(r, s.blocks, s.chain[i..]), s.pool + TxsIn(r, s.blocks, s.chain[at + 1..]));
    AddTwice(s.pool, TxsIn(r, s.blocks, s.chain[i + 1..]), TxsOf(r, s.blocks[s.chain[i]]));
  }

  function AllTo(ts: set<Hash>, h: Hash): map<Hash, Hash> {
    map t | t in ts :: h
  }

  lemma AllToStep(index: map<Hash, Hash>, ts: set<Hash>, t: Hash, h: Hash)
    ensures (index + AllTo(ts, h))[t := h] == index + AllTo(ts + {t}, h)
  {
  }

  lemma HashesStep(r: Rules, ts: seq<Tx>, i: nat)
    requires i < |ts|
    ensures Hashes(r, ts[..i + 1]) == Hashes(r, ts[..i]) + {r.txHash(ts[i])}
    ensures Hashes(r, ts[..i]) <= Hashes(r, ts)
    ensures r.txHash(ts[i]) in Hashes(r, ts)
  {
    assert ts[..i + 1] == ts[..i] + [ts[i]];
  }

  /** A pool that is to hold `all` has room for one more of it. */
  lemma PoolHasRoom(pool: Mempool, all: set<Hash>, t: Hash)
    requires pool.Valid() && pool.Hashes() <= all && t in all && |all| <= pool.txs.Length
    ensures t in pool.Hashes() || pool.count < pool.txs.Length
  {
    pool.CountIsHashes();
    if t !in pool.Hashes() {
      SmallerFits(pool.Hashes() + {t}, all);
    }
  }

  lemma SmallerFits(a: set<Hash>, b: set<Hash>)
    requires a <= b
    ensures |a| <= |b|
  {
    assert b == a + (b - a);
  }

  /** A stored block that its level does not list leaves the level short of full. */
  lemma LevelHasRoom(max: nat, blocks: Blocks, limbo: map<nat, seq<Hash>>, L: set<Hash>, h: Hash)
    requires LimboRep(max, blocks, limbo, L) && LevelsFit(max, blocks) && h in blocks
    ensures h in Level(limbo, blocks[h].height) || |Level(limbo, blocks[h].height)| < max
  {
    var k := blocks[h].height;
    var level := Level(limbo, k);
    assert h in AtHeight(blocks, k);
    forall x | x in level
      ensures x in AtHeight(blocks, k)
    {
    }
    if h !in level {
      FewerThan(level, AtHeight(blocks, k));
    }
  }

  lemma StoringKeepsLimbo(r: Rules, max: nat, blocks: Blocks, limbo: map<nat, seq<Hash>>, L: set<Hash>, b: Block)
    requires LimboRep(max, blocks, limbo, L) && NoCollision(r, blocks, b)
    ensures LimboRep(max, blocks[r.hash(b) := b], limbo, L)
  {
  }

  lemma LevelOf(max: nat, blocks: Blocks, limbo: map<nat, seq<Hash>>, L: set<Hash>, h: Hash)
    requires LimboRep(max, blocks, limbo, L) && h in blocks
    ensures var level := Level(limbo, blocks[h].height);
            Distinct(level) && |level| <= max && (h in level <==> h in L)
  {
  }

  /** Writing a level back as it was changes nothing. */
  lemma LimboSameRep(max: nat, blocks: Blocks, limbo: map<nat, seq<Hash>>, L: set<Hash>, k: nat)
    requires LimboRep(max, blocks, limbo, L)
    ensures LimboRep(max, blocks, limbo[k := Level(limbo, k)], L)
  {
  }

  lemma LimboAddRep(max: nat, blocks: Blocks, limbo: map<nat, seq<Hash>>, L: set<Hash>, h: Hash, level: seq<Hash>)
    requires LimboRep(max, blocks, limbo, L) && h in blocks
    requires Distinct(level) && |level| <= max
    requires forall x :: x in level <==> x in Level(limbo, blocks[h].height) || x == h
    ensures LimboRep(max, blocks, limbo[blocks[h].height := level], L + {h})
  {
  }

  /** A level written back as it was, or with the hash at its end. */
  lemma LimboAddsRep(max: nat, blocks: Blocks, limbo: map<nat, seq<Hash>>, L: set<Hash>, h: Hash, level: seq<Hash>)
    requires LimboRep(max, blocks, limbo, L) && h in blocks
    requires Distinct(level) && |level| <= max
    requires var was := Level(limbo, blocks[h].height); level == was || level == was + [h]
    ensures LimboRep(max, blocks, limbo[blocks[h].height := level], if h in level then L + {h} else L)
  {
    var was := Level(limbo, blocks[h].height);
    if h in level {
      assert forall x :: x in level <==> x in was || x == h;
      LimboAddRep(max, blocks, limbo, L, h, level);
    } else {
      LimboSameRep(max, blocks, limbo, L, blocks[h].height);
    }
  }

  lemma LimboDelRep(max: nat, blocks: Blocks, limbo: map<nat, seq<Hash>>, L: set<Hash>, h: Hash, level: seq<Hash>)
    requires LimboRep(max, blocks, limbo, L) && h in blocks
    requires Distinct(level) && |level| <= max
    requires forall x :: x in level <==> x in Level(limbo, blocks[h].height) && x != h
    ensures LimboRep(max, blocks, limbo[blocks[h].height := level], L - {h})
  {
  }

  // ---------- Following a branch by heights ----------

  ghost predicate ClimbsAt(blocks: Blocks, at: nat, common: Hash, br: seq<Hash>, j: nat)
    requires j <= |br|
  {
    && Below(common, br, j) in blocks
    && blocks[Below(common, br, j)].height == at + j
    && (j > 0 ==> blocks[Below(common, br, j)].prev == Below(common, br, j - 1))
  }

  /** Height alone tells where the branch ends. */
  ghost predicate Climbs(blocks: Blocks, at: nat, common: Hash, br: seq<Hash>) {
    forall j :: 0 <= j <= |br| ==> ClimbsAt(blocks, at, common, br, j)
  }

  lemma BranchClimbs(r: Rules, s: View, at: nat, br: seq<Hash>)
    requires Inv(r, s) && Branch(r, s, at, br)
    ensures Climbs(s.blocks, at, s.chain[at], br)
  {
    forall j | 0 <= j <= |br|
      ensures ClimbsAt(s.blocks, at, s.chain[at], br, j)
    {
      if j > 0 {
        BranchHeights(r, s, at, br, j - 1);
        assert Rests(r, s, at, br, j - 1);
      }
    }
  }

  // ---------- Regrouping ----------

  lemma MinusTwice(a: set<Hash>, b: set<Hash>, c: set<Hash>)
    ensures a - b - c == a - (b + c)
  {
  }

  lemma PlusTwice(a: map<Hash, Hash>, b: map<Hash, Hash>, c: map<Hash, Hash>)
    ensures (a + b) + c == a + (b + c)
  {
  }

  lemma AddTwice(a: set<Hash>, b: set<Hash>, c: set<Hash>)
    ensures (a + b) + c == a + (b + c)
  {
  }

  lemma WithoutTwice(m: map<Hash, Hash>, b: set<Hash>, c: set<Hash>)
    ensures (m - b) - c == m - (b + c)
  {
  }

  // ---------- A swap, one block at a time ----------

  ghost function DropOne(r: Rules, s: View, h: Hash): View
    requires h in s.blocks
  {
    var ts := TxsOf(r, s.blocks[h]);
    s.(limbo := s.limbo + {h}, txs := s.txs - ts, pool := s.pool + ts)
  }

  /** The chain blocks from height `i` up have been taken off. */
  ghost function Dropped(r: Rules, s: View, i: nat): View
    requires i <= |s.chain|
  {
    var ts := TxsIn(r, s.blocks, s.chain[i..]);
    s.(limbo := s.limbo + Elems(s.chain[i..]), txs := s.txs - ts, pool := s.pool + ts)
  }

  ghost function AdoptOne(r: Rules, s: View, h: Hash): View
    requires h in s.blocks
  {
    s.(limbo := s.limbo - {h},
       txs := s.txs + BlockIndex(r, s.blocks[h], h),
       pool := s.pool - TxsOf(r, s.blocks[h]))
  }

  /** The blocks of `br` from position `j` up have been put on. */
  ghost function Adopted(r: Rules, s: View, br: seq<Hash>, j: nat): View
    requires j <= |br| && forall i :: 0 <= i < |br| ==> br[i] in s.blocks
  {
    s.(limbo := s.limbo - Elems(br[j..]),
       txs := s.txs + Index(r, s.blocks, br[j..]),
       pool := s.pool - TxsIn(r, s.blocks, br[j..]))
  }

  /** The segment from `i` is block `i` and the segment from `i + 1`. */
  lemma SegmentStep(r: Rules, blocks: Blocks, c: seq<Hash>, i: nat)
    requires i < |c| && c[i] in blocks
    ensures Elems(c[i..]) == Elems(c[i + 1..]) + {c[i]}
    ensures TxsIn(r, blocks, c[i..]) == TxsIn(r, blocks, c[i + 1..]) + TxsOf(r, blocks[c[i]])
  {
    assert c[i..] == [c[i]] + c[i + 1..];
    TxsInConcat(r, blocks, [c[i]], c[i + 1..]);
    TxsInOne(r, blocks, c[i]);
  }

  lemma DroppedStep(r: Rules, s: View, i: nat)
    requires i < |s.chain| && s.chain[i] in s.blocks
    ensures DropOne(r, Dropped(r, s, i + 1), s.chain[i]) == Dropped(r, s, i)
  {
    SegmentStep(r, s.blocks, s.chain, i);
    var above, ts := TxsIn(r, s.blocks, s.chain[i + 1..]), TxsOf(r, s.blocks[s.chain[i]]);
    AddTwice(s.limbo, Elems(s.chain[i + 1..]), {s.chain[i]});
    AddTwice(s.pool, above, ts);
    WithoutTwice(s.txs, above, ts);
  }

  lemma AdoptedStep(r: Rules, s: View, br: seq<Hash>, j: nat)
    requires j < |br| && forall i :: 0 <= i < |br| ==> br[i] in s.blocks
    ensures AdoptOne(r, Adopted(r, s, br, j + 1), br[j]) == Adopted(r, s, br, j)
  {
    SegmentStep(r, s.blocks, br, j);
    assert br[j..][1..] == br[j + 1..];
    MinusTwice(s.limbo, Elems(br[j + 1..]), {br[j]});
    MinusTwice(s.pool, TxsIn(r, s.blocks, br[j + 1..]), TxsOf(r, s.blocks[br[j]]));
    PlusTwice(s.txs, Index(r, s.blocks, br[j + 1..]), BlockIndex(r, s.blocks[br[j]], br[j]));
  }

  lemma AdoptedNone(r: Rules, s: View, br: seq<Hash>)
    requires forall i :: 0 <= i < |br| ==> br[i] in s.blocks
    ensures Adopted(r, s, br, |br|) == s
  {
    assert br[|br|..] == [];
    var a := Adopted(r, s, br, |br|);
    assert a.limbo == s.limbo && a.txs == s.txs && a.pool == s.pool;
  }

  lemma DroppedNone(r: Rules, s: View)
    ensures Dropped(r, s, |s.chain|) == s
  {
    assert s.chain[|s.chain|..] == [];
    var a := Dropped(r, s, |s.chain|);
    assert a.limbo == s.limbo && a.txs == s.txs && a.pool == s.pool;
  }

  /** Taking the old blocks off and putting the new ones on is the swap. */
  lemma SwapInTwoPasses(r: Rules, s: View, at: nat, br: seq<Hash>)
    requires at < |s.chain| && forall i :: 0 <= i < |br| ==> br[i] in s.blocks
    ensures Adopted(r, Dropped(r, s, at + 1), br, 0).(chain := s.chain[..at + 1] + br) == Reverted(r, s, at, br)
  {
    assert br[0..] == br;
  }

  /** The chain entries once the blocks of `br` have been written from the top down to `j`. */
  function Overwritten(chain: map<nat, Hash>, at: nat, br: seq<Hash>, j: nat): map<nat, Hash>
    requires j <= |br|
    decreases |br| - j
  {
    if j == |br| then chain else Overwritten(chain, at, br, j + 1)[at + 1 + j := br[j]]
  }

  lemma {:induction false} OverwrittenAt(chain: map<nat, Hash>, at: nat, br: seq<Hash>, j: nat, k: nat)
    requires j <= |br|
    ensures k in Overwritten(chain, at, br, j) <==> k in chain || at + j < k <= at + |br|
    ensures k in Overwritten(chain, at, br, j) ==>
              Overwritten(chain, at, br, j)[k] == if at + j < k <= at + |br| then br[k - at - 1] else chain[k]
    decreases |br| - j
  {
    if j < |br| {
      OverwrittenAt(chain, at, br, j + 1, k);
    }
  }

  /** Writing a branch over the old entries leaves none of them behind exactly if the branch
      ends at least as high as they do: nothing is ever deleted. */
  lemma NoStaleEntriesIff(chain: map<nat, Hash>, c: seq<Hash>, at: nat, br: seq<Hash>)
    requires ChainRep(chain, c) && at < |c|
    ensures ChainRep(Overwritten(chain, at, br, 0), c[..at + 1] + br) <==> at + |br| >= |c| - 1
  {
    forall k: nat
      ensures k in Overwritten(chain, at, br, 0) <==> k < |c| || k < at + 1 + |br|
      ensures k < at + 1 + |br| ==> Overwritten(chain, at, br, 0)[k] == (c[..at + 1] + br)[k]
    {
      OverwrittenAt(chain, at, br, 0, k);
    }
    if at + |br| < |c| - 1 {
      OverwrittenAt(chain, at, br, 0, |c| - 1);
    }
  }

  /** The tests by which the source sorts an arriving block, taken literally, pass over exactly
      one case: a block of height 2 arriving on a lone genesis block. */
  lemma SourceTestsMissOneCase(height: nat, curr: nat)
    requires height >= 1
    ensures !(height <= curr || (height > 2 && height - 2 >= curr) || height - 1 == curr)
            <==> height == 2 && curr == 0
  {
  }

  /** With the source's unsigned subtraction taken literally, no block is inside the window
      while the chain is lower than the window is long. */
  lemma UnsignedWindowIsEmpty(top: nat, height: nat)
    requires top < 0x1_0000_0000 && height < 0x1_0000_0000 - 6
    ensures var floor := (top - 6) % 0x1_0000_0000;
            && (top < 6 ==> !(height > floor) && (height > Floor(top) <==> height > 0))
            && (top >= 6 ==> (height > floor <==> height > Floor(top)))
  {
  }
}
