/** What swapping branches, scanning limbo and receiving a block do to a store. */
module Reorg {
  import opened ChainModel

  // ---------- Branches ----------

  lemma {:induction false} BranchHeights(r: Rules, s: View, at: int, br: seq<Hash>, i: nat)
    requires Inv(r, s) && Branch(r, s, at, br) && i < |br|
    ensures br[i] in s.blocks && s.blocks[br[i]].height == at + 1 + i
  {
    assert Rests(r, s, at, br, i);
    if i > 0 {
      BranchHeights(r, s, at, br, i - 1);
    }
  }

  lemma BranchPrefix(r: Rules, s: View, at: int, br: seq<Hash>, n: nat)
    requires Branch(r, s, at, br) && n <= |br|
    ensures Branch(r, s, at, br[..n])
  {
    forall i | 0 <= i < n
      ensures Rests(r, s, at, br[..n], i)
    {
      assert Rests(r, s, at, br, i);
    }
  }

  /** Membership in a chain segment, by height. */
  lemma InSegment(r: Rules, s: View, lo: nat, h: Hash)
    requires Inv(r, s) && lo <= |s.chain|
    ensures h in s.chain[lo..] <==> OnChain(s, h) && s.blocks[h].height >= lo
    ensures h in s.chain[..lo] <==> OnChain(s, h) && s.blocks[h].height < lo
  {
    if OnChain(s, h) {
      var k := s.blocks[h].height;
      if k >= lo { assert s.chain[lo..][k - lo] == h; } else { assert s.chain[..lo][k] == h; }
    }
  }

  lemma InBranch(r: Rules, s: View, at: int, br: seq<Hash>, h: Hash)
    requires Inv(r, s) && Branch(r, s, at, br)
    ensures h in br <==> h in s.blocks && at < s.blocks[h].height <= at + |br| && br[s.blocks[h].height - at - 1] == h
  {
    if h in br {
      var i :| 0 <= i < |br| && br[i] == h;
      BranchHeights(r, s, at, br, i);
    }
  }

  /** A block is on the new chain exactly if it is in the branch or in the kept part of the old. */
  lemma OnNewChain(r: Rules, s: View, at: int, br: seq<Hash>, h: Hash)
    requires Inv(r, s) && Branch(r, s, at, br)
    requires forall i :: 0 <= i < |br| ==> br[i] in s.blocks
    ensures OnChain(Reverted(r, s, at, br), h) <==> h in br || (OnChain(s, h) && s.blocks[h].height <= at)
  {
    InBranch(r, s, at, br, h);
    var s' := Reverted(r, s, at, br);
    if h in s.blocks {
      var k := s.blocks[h].height;
      if k <= at {
        assert s'.chain[k] == s.chain[k];
      } else if k <= at + |br| {
        assert s'.chain[k] == br[k - at - 1];
      }
    }
  }

  /** Swapping in a valid branch yields a chain again. */
  lemma NewChain(r: Rules, s: View, at: int, br: seq<Hash>)
    requires Inv(r, s) && Branch(r, s, at, br)
    ensures IsChain(r, s.blocks, s.chain[..at + 1] + br)
  {
    var c := s.chain[..at + 1] + br;
    forall i | 0 <= i < |c|
      ensures c[i] in s.blocks && s.blocks[c[i]].height == i
      ensures i > 0 ==> Follows(r, s.blocks, c, i)
    {
      if i <= at {
        assert c[i] == s.chain[i];
        assert i > 0 ==> Follows(r, s.blocks, s.chain, i);
      } else {
        BranchHeights(r, s, at, br, i - at - 1);
        assert Rests(r, s, at, br, i - at - 1);
      }
    }
  }

  /** Swapping branches keeps the store canonical. */
  lemma RevertKeepsInv(r: Rules, s: View, at: int, br: seq<Hash>)
    requires Inv(r, s) && Branch(r, s, at, br)
    ensures Inv(r, Reverted(r, s, at, br))
  {
    var s' := Reverted(r, s, at, br);
    NewChain(r, s, at, br);
    forall h | h in s.blocks
      ensures h in s'.limbo || OnChain(s', h)
    {
      OnNewChain(r, s, at, br, h);
      InSegment(r, s, at + 1, h);
    }
    forall h | h in s'.limbo
      ensures h in s.blocks
    {
      InSegment(r, s, at + 1, h);
    }
  }

  /** Limbo is exactly the stored blocks off the chain after a swap, if it was before. */
  lemma RevertKeepsExact(r: Rules, s: View, at: int, br: seq<Hash>)
    requires Inv(r, s) && Branch(r, s, at, br)
    ensures Exact(s) ==> Exact(Reverted(r, s, at, br))
  {
    var s' := Reverted(r, s, at, br);
    forall h | Exact(s) && h in s'.limbo
      ensures !OnChain(s', h)
    {
      OnNewChain(r, s, at, br, h);
      InSegment(r, s, at + 1, h);
    }
  }

  // ---------- Trace-back ----------

  /** A positive verdict comes with a valid branch inside the window. */
  lemma {:induction false} TraceSound(r: Rules, s: View, h: Hash) returns (at: int, br: seq<Hash>)
    requires Inv(r, s) && TraceBack(r, s, h).Found?
    ensures Reaches(r, s, h, at, br)
    ensures TraceBack(r, s, h) == Found(s.chain[at])
    decreases if h in s.blocks then s.blocks[h].height else 0
  {
    if OnChain(s, h) {
      at, br := s.blocks[h].height, [];
    } else {
      var p := s.blocks[h].prev;
      ghost var below;
      at, below := TraceSound(r, s, p);
      br := below + [h];
      forall i | 0 <= i < |br|
        ensures Rests(r, s, at, br, i)
      {
        assert i < |below| ==> Rests(r, s, at, below, i);
      }
    }
  }

  /** Every valid branch inside the window is found. */
  lemma {:induction false} TraceComplete(r: Rules, s: View, h: Hash, at: int, br: seq<Hash>)
    requires Inv(r, s) && Reaches(r, s, h, at, br)
    ensures TraceBack(r, s, h) == Found(s.chain[at])
    decreases |br|
  {
    if br != [] {
      var n := |br| - 1;
      BranchHeights(r, s, at, br, n);
      assert Rests(r, s, at, br, n);
      BranchPrefix(r, s, at, br, n);
      TraceComplete(r, s, s.blocks[h].prev, at, br[..n]);
    }
  }

  /** Trace-back answers 1 exactly when a valid branch inside the window carries the block. */
  lemma TraceBackExact(r: Rules, s: View, h: Hash)
    requires Inv(r, s)
    ensures Verdict(TraceBack(r, s, h)) == 1 <==> exists at, br :: Reaches(r, s, h, at, br)
  {
    if TraceBack(r, s, h).Found? {
      var at, br := TraceSound(r, s, h);
    }
    forall at, br | Reaches(r, s, h, at, br)
      ensures TraceBack(r, s, h).Found?
    {
      TraceComplete(r, s, h, at, br);
    }
  }

  /** A block that trace-back steps over: inside the window, off the chain, fit for its parent. */
  ghost predicate SteppedOver(r: Rules, s: View, h: Hash) {
    h in s.blocks && s.blocks[h].height > Floor(Top(s)) && !OnChain(s, h) && Linked(r, s.blocks, h)
  }

  /** `w` leads from `h` downward over such blocks to its last block. */
  ghost predicate Descent(r: Rules, s: View, h: Hash, w: seq<Hash>) {
    && w != [] && w[0] == h
    && forall i :: 0 <= i < |w| - 1 ==> StepDown(r, s, w, i)
  }

  ghost predicate StepDown(r: Rules, s: View, w: seq<Hash>, i: int)
    requires 0 <= i < |w| - 1
  {
    SteppedOver(r, s, w[i]) && s.blocks[w[i]].prev == w[i + 1]
  }

  /** A block at which trace-back gives up as invalid: its parent is stored but does not fit. */
  ghost predicate Unfit(r: Rules, s: View, h: Hash) {
    && h in s.blocks && s.blocks[h].height > Floor(Top(s)) && !OnChain(s, h)
    && s.blocks[h].prev in s.blocks && !Linked(r, s.blocks, h)
  }

  /** `w` is the block whose absence stops the way down from `h`: `h` itself, or the parent of the
      last block that was met, all of them inside the window and off the chain. */
  ghost predicate LeadsToMissing(r: Rules, s: View, h: Hash, w: Hash) {
    w !in s.blocks && (h == w || exists d :: Descent(r, s, h, d) && HangsOn(s, d[|d| - 1], w))
  }

  ghost predicate HangsOn(s: View, h: Hash, w: Hash) {
    h in s.blocks && s.blocks[h].height > Floor(Top(s)) && !OnChain(s, h) && s.blocks[h].prev == w
  }

  /** The way down from `h` leaves the window at the stored block `o`. */
  ghost predicate LeadsToOld(r: Rules, s: View, h: Hash, o: Hash) {
    && o in s.blocks && s.blocks[o].height <= Floor(Top(s))
    && exists d :: Descent(r, s, h, d) && d[|d| - 1] == o
  }

  lemma DescentGrows(r: Rules, s: View, h: Hash, d: seq<Hash>)
    requires SteppedOver(r, s, h) && Descent(r, s, s.blocks[h].prev, d)
    ensures Descent(r, s, h, [h] + d)
  {
    var w := [h] + d;
    forall i | 0 <= i < |w| - 1
      ensures StepDown(r, s, w, i)
    {
      assert i > 0 ==> StepDown(r, s, d, i - 1);
    }
  }

  lemma DescentShrinks(r: Rules, s: View, h: Hash, d: seq<Hash>)
    requires Descent(r, s, h, d) && |d| > 1
    ensures SteppedOver(r, s, h) && Descent(r, s, s.blocks[h].prev, d[1..])
  {
    assert StepDown(r, s, d, 0);
    forall i | 0 <= i < |d| - 2
      ensures StepDown(r, s, d[1..], i)
    {
      assert StepDown(r, s, d, i + 1);
    }
  }

  /** Where the way down stops: it is a descent over such blocks, and this is its last block. */
  lemma {:induction false} WayDown(r: Rules, s: View, h: Hash) returns (d: seq<Hash>)
    ensures Descent(r, s, h, d) && !SteppedOver(r, s, d[|d| - 1])
    ensures TraceBack(r, s, d[|d| - 1]) == TraceBack(r, s, h)
    decreases if h in s.blocks then s.blocks[h].height else 0
  {
    if SteppedOver(r, s, h) {
      var below := WayDown(r, s, s.blocks[h].prev);
      DescentGrows(r, s, h, below);
      d := [h] + below;
    } else {
      d := [h];
    }
  }

  /** Trace-back gives the same answer from every block of the way down. */
  lemma {:induction false} SameFromBelow(r: Rules, s: View, h: Hash, d: seq<Hash>)
    requires Descent(r, s, h, d)
    ensures TraceBack(r, s, h) == TraceBack(r, s, d[|d| - 1])
    decreases |d|
  {
    if |d| > 1 {
      DescentShrinks(r, s, h, d);
      SameFromBelow(r, s, s.blocks[h].prev, d[1..]);
    }
  }

  /** Trace-back answers -1 exactly when the way down, inside the window and before the chain
      is met, comes to a stored block that does not fit its stored parent. */
  lemma TraceBackInvalidExact(r: Rules, s: View, h: Hash)
    ensures Verdict(TraceBack(r, s, h)) == -1 <==> exists w :: Descent(r, s, h, w) && Unfit(r, s, w[|w| - 1])
  {
    if TraceBack(r, s, h).Invalid? {
      var w := WayDown(r, s, h);
      assert Unfit(r, s, w[|w| - 1]);
    }
    forall w | Descent(r, s, h, w) && Unfit(r, s, w[|w| - 1])
      ensures TraceBack(r, s, h).Invalid?
    {
      SameFromBelow(r, s, h, w);
    }
  }

  /** Trace-back stops at a missing block exactly if the way down leads to that block. */
  lemma MissingExact(r: Rules, s: View, h: Hash, w: Hash)
    ensures TraceBack(r, s, h) == Missing(w) <==> LeadsToMissing(r, s, h, w)
  {
    if TraceBack(r, s, h) == Missing(w) {
      var d := WayDown(r, s, h);
      if d[|d| - 1] == w {
        assert |d| > 1 ==> StepDown(r, s, d, |d| - 2);
      } else {
        assert HangsOn(s, d[|d| - 1], w);
      }
    }
    forall d | Descent(r, s, h, d) && HangsOn(s, d[|d| - 1], w) && w !in s.blocks
      ensures TraceBack(r, s, h) == Missing(w)
    {
      SameFromBelow(r, s, h, d);
    }
  }

  /** It gives up at a block that is too old exactly if the way down leaves the window there. */
  lemma TooOldExact(r: Rules, s: View, h: Hash, o: Hash)
    ensures TraceBack(r, s, h) == TooOld(o) <==> LeadsToOld(r, s, h, o)
  {
    if TraceBack(r, s, h) == TooOld(o) {
      var d := WayDown(r, s, h);
      assert d[|d| - 1] == o;
    }
    forall d | Descent(r, s, h, d) && d[|d| - 1] == o && o in s.blocks && s.blocks[o].height <= Floor(Top(s))
      ensures TraceBack(r, s, h) == TooOld(o)
    {
      SameFromBelow(r, s, h, d);
    }
  }

  /** The window never reaches down to the genesis block, however short the chain is. */
  lemma GenesisIsNeverCommon(r: Rules, s: View, h: Hash)
    requires Inv(r, s)
    ensures TraceBack(r, s, h) != Found(s.chain[0])
  {
    if TraceBack(r, s, h).Found? {
      var at, br := TraceSound(r, s, h);
    }
  }

  /** A block reaches the chain along one branch only. */
  lemma {:induction false} BranchUnique(r: Rules, s: View, h: Hash, at: int, br: seq<Hash>, at': int, br': seq<Hash>)
    requires Inv(r, s) && Reaches(r, s, h, at, br) && Reaches(r, s, h, at', br')
    ensures at == at' && br == br'
    decreases |br|
  {
    assert br == [] ==> OnChain(s, h);
    assert br' == [] ==> OnChain(s, h);
    if br != [] && br' != [] {
      var n, n' := |br| - 1, |br'| - 1;
      BranchPrefix(r, s, at, br, n);
      BranchPrefix(r, s, at', br', n');
      assert Rests(r, s, at, br, n) && Rests(r, s, at', br', n');
      BranchUnique(r, s, s.blocks[h].prev, at, br[..n], at', br'[..n']);
      assert br == br[..n] + [h] && br' == br'[..n'] + [h];
    }
  }

  // ---------- Scanning ----------

  /** Whatever can be attached after a swap could already be attached before it. */
  lemma {:induction false} TraceAfterRevert(r: Rules, s: View, at: int, br: seq<Hash>, h: Hash)
    requires Inv(r, s) && Branch(r, s, at, br) && at > Floor(Top(s)) && at + |br| > Top(s)
    requires TraceBack(r, Reverted(r, s, at, br), h).Found?
    ensures TraceBack(r, s, h).Found?
    decreases if h in s.blocks then s.blocks[h].height else 0
  {
    var s' := Reverted(r, s, at, br);
    if OnChain(s, h) {
    } else if OnChain(s', h) {
      OnNewChain(r, s, at, br, h);
      InBranch(r, s, at, br, h);
      var n := s.blocks[h].height - at;
      BranchPrefix(r, s, at, br, n);
      TraceComplete(r, s, h, at, br[..n]);
    } else {
      TraceAfterRevert(r, s, at, br, s.blocks[h].prev);
    }
  }

  /** After a swap to the highest candidate nothing in limbo could raise the chain again. */
  lemma RevertSettles(r: Rules, s: View, at: int, br: seq<Hash>)
    requires Inv(r, s) && Chosen(r, s, at, br)
    ensures Settled(r, Reverted(r, s, at, br))
  {
    var s' := Reverted(r, s, at, br);
    forall h | h in s'.limbo
      ensures !Candidate(r, s', h)
    {
      InSegment(r, s, at + 1, h);
      if TraceBack(r, s', h).Found? {
        TraceAfterRevert(r, s, at, br, h);
      }
    }
  }

  /** Fork choice: a scan leaves a canonical store that is at least as high, in which no
      limbo block above the chain can be attached. */
  lemma ScanIsMaximal(r: Rules, s: View, s': View)
    requires Inv(r, s) && Scanned(r, s, s')
    ensures Inv(r, s') && Settled(r, s')
    ensures Top(s') >= Top(s)
    ensures s' != s ==> Top(s') > Top(s)
    ensures s'.blocks == s.blocks
    ensures Exact(s) ==> Exact(s')
  {
    if !(Settled(r, s) && s' == s) {
      var at, br :| Chosen(r, s, at, br) && s' == Reverted(r, s, at, br);
      RevertKeepsInv(r, s, at, br);
      RevertKeepsExact(r, s, at, br);
      RevertSettles(r, s, at, br);
    }
  }

  lemma ScanKeepsBlocks(r: Rules, s: View, s': View)
    requires |s.chain| > 0 && Scanned(r, s, s')
    ensures s'.blocks == s.blocks
  {
  }

  /** A limbo block whose parent is missing stays in limbo. */
  lemma ScanKeepsOrphan(r: Rules, s: View, s': View, h: Hash)
    requires Inv(r, s) && Scanned(r, s, s')
    requires h in s.limbo && !OnChain(s, h) && s.blocks[h].prev !in s.blocks
    ensures h in s'.limbo && !OnChain(s', h) && Top(s') >= Top(s)
  {
    if s' != s {
      var at, br :| Chosen(r, s, at, br) && s' == Reverted(r, s, at, br);
      forall i | 0 <= i < |br|
        ensures br[i] != h
      {
        assert Rests(r, s, at, br, i);
      }
      OnNewChain(r, s, at, br, h);
    }
  }

  /** From a block inside the window and off the chain, the way down leads to a missing parent. */
  lemma OrphanLeads(r: Rules, s: View, h: Hash)
    requires h in s.blocks && !OnChain(s, h) && s.blocks[h].prev !in s.blocks
    ensures s.blocks[h].height > Floor(Top(s)) ==> LeadsToMissing(r, s, h, s.blocks[h].prev)
  {
    assert Descent(r, s, h, [h]);
    assert [h][|[h]| - 1] == h;
  }

  /** Scanning twice is scanning once. */
  lemma ScanIsIdempotent(r: Rules, s: View, s': View, s'': View)
    requires Inv(r, s) && Scanned(r, s, s') && Scanned(r, s', s'')
    ensures s'' == s'
  {
    ScanIsMaximal(r, s, s');
    if exists at, br :: Chosen(r, s', at, br) && s'' == Reverted(r, s', at, br) {
      var at, br :| Chosen(r, s', at, br) && s'' == Reverted(r, s', at, br);
      ChosenIsCandidate(r, s', at, br);
    }
  }

  lemma ChosenIsCandidate(r: Rules, s: View, at: int, br: seq<Hash>)
    requires Inv(r, s) && Chosen(r, s, at, br)
    ensures Candidate(r, s, br[|br| - 1])
    ensures s.blocks[br[|br| - 1]].height == at + |br|
  {
    var tip := br[|br| - 1];
    BranchHeights(r, s, at, br, |br| - 1);
    TraceComplete(r, s, tip, at, br);
  }

  // ---------- Receiving ----------

  lemma PoolingKeepsInv(r: Rules, s: View, pool: set<Hash>)
    requires Inv(r, s)
    ensures Inv(r, s.(pool := pool))
  {
    assert forall h :: OnChain(s.(pool := pool), h) <==> OnChain(s, h);
  }

  lemma AddedKeepsInv(r: Rules, s: View, b: Block)
    requires Inv(r, s) && Fresh(r, s, b)
    ensures Inv(r, Added(r, s, b))
  {
    var s' := Added(r, s, b);
    var h := r.hash(b);
    forall i | 0 < i < |s.chain|
      ensures Follows(r, s'.blocks, s.chain, i)
    {
      assert Follows(r, s.blocks, s.chain, i);
    }
    if Acceptable(r, s.blocks, b) && Extends(s, b) {
      forall i | 0 < i < |s'.chain|
        ensures Follows(r, s'.blocks, s'.chain, i)
      {
        assert i < |s.chain| ==> Follows(r, s'.blocks, s.chain, i);
      }
    } else {
      assert s'.chain == s.chain;
      assert IsChain(r, s'.blocks, s'.chain);
    }
    forall k | k in s'.blocks
      ensures k in s'.limbo || OnChain(s', k)
    {
      assert k in s.blocks ==> OnChain(s, k) ==> OnChain(s', k);
    }
  }

  /** Receiving a block keeps the store canonical and never lowers the chain. */
  lemma ReceiveKeepsInv(r: Rules, s: View, b: Block, s': View)
    requires Inv(r, s) && Fresh(r, s, b) && Received(r, s, b, s')
    ensures Inv(r, s') && Settled(r, s') && Top(s') >= Top(s)
    ensures s'.blocks == Added(r, s, b).blocks
  {
    AddedKeepsInv(r, s, b);
    ScanIsMaximal(r, Added(r, s, b), s');
  }

  /** Limbo stays exactly the stored blocks off the chain unless the arriving block is put
      in limbo although it is on the chain, or on the chain although it is in limbo. */
  lemma AddedKeepsExactIff(r: Rules, s: View, b: Block)
    requires Inv(r, s) && Exact(s) && NoCollision(r, s.blocks, b) && Acceptable(r, s.blocks, b)
    ensures Exact(Added(r, s, b)) <==>
            if Extends(s, b) then r.hash(b) !in s.limbo else !OnChain(s, r.hash(b))
  {
    var s' := Added(r, s, b);
    var h := r.hash(b);
    assert OnChain(s', h) <==> Extends(s, b) || OnChain(s, h);
    forall k | k in s.limbo && k != h
      ensures !OnChain(s', k)
    {
      assert !OnChain(s, k);
    }
  }
}
