/** Whole runs of a node: every event keeps the store canonical, the chain never gets lower,
    and what lies below the confirmation window is final. */
module ForkChoice {
  import opened ChainModel
  import opened Reorg
  import opened ChainTxs

  datatype Event = GotBlock(block: Block) | GotTx(tx: Tx)

  ghost predicate Step(r: Rules, s: View, e: Event, s': View)
    requires |s.chain| > 0
  {
    match e
    case GotBlock(b) => Received(r, s, b, s')
    case GotTx(t) => s' == s || s' == s.(pool := s.pool + {r.txHash(t)})
  }

  ghost predicate Run(r: Rules, genesis: Block, events: seq<Event>, states: seq<View>) {
    && |states| == |events| + 1
    && states[0] == Init(r, genesis)
    && (forall i :: 0 <= i < |states| ==> |states[i].chain| > 0)
    && forall i :: 0 <= i < |events| ==> Step(r, states[i], events[i], states[i + 1])
  }

  /** Every acceptable-looking block that a run receives is in `U`, by its hash. That such a
      map exists says that no two of them share a hash. */
  ghost predicate Drawn(r: Rules, genesis: Block, events: seq<Event>, U: Blocks) {
    && Offerable(r, genesis, U)
    && forall i :: 0 <= i < |events| && events[i].GotBlock? && r.ok(events[i].block) ==>
         r.hash(events[i].block) in U && U[r.hash(events[i].block)] == events[i].block
  }

  /** A genesis block and acceptable-looking blocks, by hash. */
  ghost predicate Offerable(r: Rules, genesis: Block, U: Blocks) {
    && Hashed(r, U)
    && genesis.height == 0
    && r.hash(genesis) in U && U[r.hash(genesis)] == genesis
    && forall h :: h in U && h != r.hash(genesis) ==> r.ok(U[h])
  }

  /** The run receives all of `U`, in some order and with any repetition. */
  ghost predicate Offered(r: Rules, genesis: Block, events: seq<Event>, U: Blocks) {
    && Drawn(r, genesis, events, U)
    && forall h :: h in U && h != r.hash(genesis) ==> GotBlock(U[h]) in events
  }

  ghost predicate Within(blocks: Blocks, U: Blocks) {
    forall h :: h in blocks ==> h in U && U[h] == blocks[h]
  }

  lemma InitIsCanonical(r: Rules, genesis: Block, events: seq<Event>, U: Blocks)
    requires Drawn(r, genesis, events, U)
    ensures var s := Init(r, genesis); Inv(r, s) && Within(s.blocks, U) && s.chain[0] == r.hash(genesis)
  {
    var s := Init(r, genesis);
    assert forall h :: h in s.blocks ==> h == r.hash(genesis) && OnChain(s, h);
  }

  lemma SameGenesis(r: Rules, s: View, s': View)
    requires Inv(r, s) && Scanned(r, s, s')
    ensures |s'.chain| > 0 && s'.chain[0] == s.chain[0]
  {
  }

  /** A step keeps the store canonical and drawn from `U`, and never lowers the chain. */
  lemma StepIsCanonical(r: Rules, genesis: Block, events: seq<Event>, U: Blocks, s: View, n: nat, s': View)
    requires Drawn(r, genesis, events, U) && n < |events|
    requires Inv(r, s) && Within(s.blocks, U) && Step(r, s, events[n], s')
    ensures Inv(r, s') && Within(s'.blocks, U)
    ensures s'.chain[0] == s.chain[0] && Top(s') >= Top(s)
  {
    hide Follows, Hashed, Scanned, Rests, BlockIndex;
    match events[n]
    case GotTx(_) =>
      PoolingKeepsInv(r, s, s'.pool);
    case GotBlock(b) =>
      ReceiveKeepsInv(r, s, b, s');
      AddedKeepsInv(r, s, b);
      SameGenesis(r, Added(r, s, b), s');
  }

  lemma RunStep(r: Rules, genesis: Block, events: seq<Event>, states: seq<View>, n: nat)
    requires Run(r, genesis, events, states) && n < |events|
    ensures |states| == |events| + 1 && |states[n].chain| > 0
    ensures Step(r, states[n], events[n], states[n + 1])
  {
  }

  /** Every state of a run is canonical, and the chain never gets lower. */
  lemma {:induction false} RunIsCanonical(r: Rules, genesis: Block, events: seq<Event>, U: Blocks, states: seq<View>,
                                          n: nat, m: nat)
    requires Run(r, genesis, events, states) && Drawn(r, genesis, events, U)
    requires m <= n <= |events|
    ensures Inv(r, states[n]) && Within(states[n].blocks, U)
    ensures states[n].chain[0] == r.hash(genesis)
    ensures Top(states[m]) <= Top(states[n])
    decreases n
  {
    hide Inv, Within, Drawn, Init, Step;
    if n == 0 {
      InitIsCanonical(r, genesis, events, U);
    } else {
      hide Run;
      RunStep(r, genesis, events, states, n - 1);
      RunIsCanonical(r, genesis, events, U, states, n - 1, if m < n then m else n - 1);
      StepIsCanonical(r, genesis, events, U, states[n - 1], n - 1, states[n]);
    }
  }

  // ---------- Finality ----------

  /** The highest height at which a swap leaves the chain of `s` as it is. */
  function Final(s: View): nat {
    Floor(Top(s)) + 1
  }

  /** A step changes no chain entry up to the lowest block that a branch may fork from. */
  lemma StepIsFinal(r: Rules, s: View, e: Event, s': View, k: nat)
    requires Inv(r, s) && Step(r, s, e, s') && k < |s.chain| && k <= Final(s)
    requires e.GotBlock? ==> Fresh(r, s, e.block)
    ensures k < |s'.chain| && s'.chain[k] == s.chain[k]
  {
    hide Inv;
    if e.GotBlock? {
      var m := Added(r, s, e.block);
      assert |s.chain| <= |m.chain| && m.chain[k] == s.chain[k];
      ScanIsFinal(r, m, s', k);
    }
  }

  lemma ScanIsFinal(r: Rules, s: View, s': View, k: nat)
    requires |s.chain| > 0 && Scanned(r, s, s') && k < |s.chain| && k <= Final(s)
    ensures k < |s'.chain| && s'.chain[k] == s.chain[k]
  {
    hide Rests, OnChain, Index, TxsIn;
    if s' != s {
      var at, br :| Chosen(r, s, at, br) && s' == Reverted(r, s, at, br);
      assert at > Floor(Top(s));
    }
  }

  lemma EventIsFresh(r: Rules, genesis: Block, events: seq<Event>, U: Blocks, s: View, n: nat)
    requires Drawn(r, genesis, events, U) && n < |events| && Within(s.blocks, U)
    ensures events[n].GotBlock? ==> Fresh(r, s, events[n].block)
  {
  }

  /** An entry as low as that is the same in the next state, and the chain no lower. */
  ghost predicate Persists(s: View, s': View, k: nat) {
    k < |s.chain| && k <= Final(s) ==>
      k < |s'.chain| && s'.chain[k] == s.chain[k] && Top(s) <= Top(s')
  }

  lemma RunStepIsFinal(r: Rules, genesis: Block, events: seq<Event>, U: Blocks, states: seq<View>, n: nat, k: nat)
    requires Run(r, genesis, events, states) && Drawn(r, genesis, events, U) && n < |events|
    ensures Persists(states[n], states[n + 1], k)
  {
    hide Run, Inv, Drawn, Within, Step, Final;
    RunStep(r, genesis, events, states, n);
    RunIsCanonical(r, genesis, events, U, states, n, n);
    RunIsCanonical(r, genesis, events, U, states, n + 1, n);
    EventIsFresh(r, genesis, events, U, states[n], n);
    if k < |states[n].chain| && k <= Final(states[n]) {
      StepIsFinal(r, states[n], events[n], states[n + 1], k);
    }
  }

  lemma {:induction false} AllPersist(states: seq<View>, m: nat, n: nat, k: nat)
    requires m <= n < |states| && k < |states[m].chain| && k <= Final(states[m])
    requires forall i :: m <= i < n ==> Persists(states[i], states[i + 1], k)
    ensures k < |states[n].chain| && states[n].chain[k] == states[m].chain[k] && Top(states[m]) <= Top(states[n])
    decreases n
  {
    if n > m {
      AllPersist(states, m, n - 1, k);
      assert Persists(states[n - 1], states[n], k);
    }
  }

  /** Finality: what a chain holds up to that height, all later chains of the run hold. */
  lemma RunIsFinal(r: Rules, genesis: Block, events: seq<Event>, U: Blocks, states: seq<View>, m: nat, n: nat, k: nat)
    requires Run(r, genesis, events, states) && Drawn(r, genesis, events, U)
    requires m <= n <= |events| && k < |states[m].chain| && k <= Final(states[m])
    ensures k < |states[n].chain| && states[n].chain[k] == states[m].chain[k]
  {
    hide Drawn, Persists;
    forall i | m <= i < n
      ensures Persists(states[i], states[i + 1], k)
    {
      RunStepIsFinal(r, genesis, events, U, states, i, k);
    }
    AllPersist(states, m, n, k);
  }

  // ---------- Index and pool over runs ----------

  /** The transaction index is exact all along a run whose chains repeat no transaction. */
  lemma {:induction false} DistinctRunKeepsIndex(r: Rules, genesis: Block, events: seq<Event>, U: Blocks,
                                                 states: seq<View>, n: nat)
    requires Run(r, genesis, events, states) && Drawn(r, genesis, events, U)
    requires n <= |events|
    requires forall i :: 0 <= i < n && events[i].GotBlock? ==>
               var m := Added(r, states[i], events[i].block);
               TxsDistinct(r, m.blocks, m.chain)
    ensures IndexExact(r, states[n])
  {
    hide Inv, IndexExact, TxsDistinct, Added;
    if n == 0 {
      InitIndexExact(r, genesis);
    } else {
      DistinctRunKeepsIndex(r, genesis, events, U, states, n - 1);
      RunIsCanonical(r, genesis, events, U, states, n - 1, 0);
      assert Step(r, states[n - 1], events[n - 1], states[n]);
      match events[n - 1]
      case GotTx(t) =>
        PoolIsNoIndex(r, states[n - 1], states[n].pool);
      case GotBlock(b) =>
        ReceiveKeepsIndexExact(r, states[n - 1], b, states[n]);
    }
  }

  lemma InitIndexExact(r: Rules, genesis: Block)
    requires genesis.height == 0
    ensures IndexExact(r, Init(r, genesis))
  {
    var s := Init(r, genesis);
    TxsInOne(r, s.blocks, r.hash(genesis));
    assert OnChain(s, r.hash(genesis));
  }

  lemma PoolIsNoIndex(r: Rules, s: View, pool: set<Hash>)
    requires IndexExact(r, s)
    ensures IndexExact(r, s.(pool := pool))
  {
    assert forall h :: OnChain(s.(pool := pool), h) <==> OnChain(s, h);
  }

  /** Neither a block of the event confirms what is pooled, nor a transaction of it is pooled
      after it was confirmed, nor does the chain then repeat a transaction. */
  ghost predicate KeepsApart(r: Rules, s: View, e: Event)
    requires |s.chain| > 0
  {
    match e
    case GotTx(t) => r.txHash(t) !in Confirmed(r, s)
    case GotBlock(b) =>
      && (Acceptable(r, s.blocks, b) && Extends(s, b) ==> s.pool !! TxsOf(r, b))
      && TxsDistinct(r, Added(r, s, b).blocks, Added(r, s, b).chain)
  }

  /** A transaction message brings one transaction into pool and chain at once, exactly if it
      is taken up although the chain has it. */
  lemma PoolingStepKeepsApartIff(r: Rules, s: View, t: Tx, s': View)
    requires Inv(r, s) && Step(r, s, GotTx(t), s') && s.pool !! Confirmed(r, s)
    ensures s'.pool !! Confirmed(r, s') <==> s' == s || r.txHash(t) !in Confirmed(r, s)
  {
    PoolingKeepsPoolApartIff(r, s, t);
  }

  lemma StepKeepsPoolApart(r: Rules, s: View, e: Event, s': View)
    requires Inv(r, s) && Step(r, s, e, s') && s.pool !! Confirmed(r, s)
    requires e.GotBlock? ==> Fresh(r, s, e.block)
    requires KeepsApart(r, s, e)
    ensures s'.pool !! Confirmed(r, s')
  {
    hide TxsIn, TxsOf, TxsDistinct;
    match e
    case GotTx(t) =>
    case GotBlock(b) =>
      var m := Added(r, s, b);
      AddedKeepsInv(r, s, b);
      AddedKeepsPoolApart(r, s, b);
      if s' != m {
        var at, br :| Chosen(r, m, at, br) && s' == Reverted(r, m, at, br);
        RevertKeepsPoolApart(r, m, at, br);
      }
  }

  lemma AddedKeepsPoolApart(r: Rules, s: View, b: Block)
    requires Inv(r, s) && Fresh(r, s, b) && s.pool !! Confirmed(r, s)
    requires Acceptable(r, s.blocks, b) && Extends(s, b) ==> s.pool !! TxsOf(r, b)
    ensures Added(r, s, b).pool !! Confirmed(r, Added(r, s, b))
  {
    hide TxsIn, TxsOf;
    if Acceptable(r, s.blocks, b) {
      if Extends(s, b) {
        ExtensionKeepsPoolApartIff(r, s, b);
      } else {
        StoringKeepsTxs(r, s, b);
      }
    }
  }

  /** No transaction is in pool and chain at once all along a run of such events. */
  lemma {:induction false} ApartRunStaysApart(r: Rules, genesis: Block, events: seq<Event>, U: Blocks,
                                              states: seq<View>, n: nat)
    requires Run(r, genesis, events, states) && Drawn(r, genesis, events, U)
    requires n <= |events| && forall i :: 0 <= i < n ==> KeepsApart(r, states[i], events[i])
    ensures states[n].pool !! Confirmed(r, states[n])
  {
    if n > 0 {
      ApartRunStaysApart(r, genesis, events, U, states, n - 1);
      RunIsCanonical(r, genesis, events, U, states, n - 1, 0);
      hide KeepsApart, TxsIn, Inv;
      assert Step(r, states[n - 1], events[n - 1], states[n]) && KeepsApart(r, states[n - 1], events[n - 1]);
      StepKeepsPoolApart(r, states[n - 1], events[n - 1], states[n]);
    }
  }
}
