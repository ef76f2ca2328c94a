/** A node from its genesis block on: databases that are fed one message after the other. */
module Node {
  import opened ChainModel
  import opened ForkChoice
  import opened RunOrder
  import opened StoreLemmas
  import opened Store

  /** A transaction is pooled exactly while there is room. */
  ghost predicate Pools(r: Rules, size: nat, s: View, e: Event, s': View) {
    e.GotTx? ==> s' == if |s.pool| < size then s.(pool := s.pool + {r.txHash(e.tx)}) else s
  }

  /** A run of a node whose pool has `size` slots. */
  ghost predicate NodeRun(r: Rules, genesis: Block, size: nat, events: seq<Event>, states: seq<View>) {
    && Run(r, genesis, events, states)
    && forall i :: 0 <= i < |events| ==> Pools(r, size, states[i], events[i], states[i + 1])
  }

  /** Whenever a block arrives at such a node, its pool can take in what a swap then takes off
      the chain. */
  ghost predicate RoomAllAlong(r: Rules, genesis: Block, size: nat, events: seq<Event>) {
    forall n: nat, states: seq<View> ::
      n < |events| && events[n].GotBlock? && NodeRun(r, genesis, size, events[..n], states)
      ==> RoomToSwap(r, size, Added(r, states[n], events[n].block))
  }

  lemma SomeFit(max: nat, blocks: Blocks, U: Blocks)
    requires Within(blocks, U) && LevelsFit(max, U)
    ensures LevelsFit(max, blocks)
  {
    forall k: nat
      ensures |AtHeight(blocks, k)| <= max
    {
      SmallerFits(AtHeight(blocks, k), AtHeight(U, k));
    }
  }

  lemma DrawnBefore(r: Rules, genesis: Block, events: seq<Event>, U: Blocks, n: nat)
    requires Drawn(r, genesis, events, U) && n <= |events|
    ensures Drawn(r, genesis, events[..n], U)
  {
  }

  /** What a block message asks of the databases holds all along a run. */
  lemma MayReceive(r: Rules, genesis: Block, events: seq<Event>, U: Blocks, maxLevel: nat, size: nat,
                   states: seq<View>, n: nat)
    requires Drawn(r, genesis, events, U) && LevelsFit(maxLevel, U) && RoomAllAlong(r, genesis, size, events)
    requires n < |events| && events[n].GotBlock? && NodeRun(r, genesis, size, events[..n], states)
    ensures var m := Added(r, states[n], events[n].block);
            && Fresh(r, states[n], events[n].block)
            && LevelsFit(maxLevel, m.blocks) && RoomToSwap(r, size, m)
  {
    hide LevelsFit, Inv, RoomToSwap;
    DrawnBefore(r, genesis, events, U, n);
    RunIsCanonical(r, genesis, events[..n], U, states, n, 0);
    SomeFit(maxLevel, Added(r, states[n], events[n].block).blocks, U);
  }

  /** One message. */
  method Receive(db: Dbs, e: Event)
    requires db.Valid()
    requires e.GotBlock? ==>
               var m := Added(db.r, db.view, e.block);
               && Fresh(db.r, db.view, e.block)
               && LevelsFit(db.maxLevel, m.blocks) && RoomToSwap(db.r, db.pool.txs.Length, m)
    modifies db, db.pool, db.pool.txs
    ensures db.Valid() && |old(db.view).chain| > 0 && Step(db.r, old(db.view), e, db.view)
    ensures Pools(db.r, db.pool.txs.Length, old(db.view), e, db.view)
  {
    PoolIsCounted(db);
    hide Dbs.Loose, LevelsFit, RoomToSwap, Received;
    match e
    case GotBlock(b) => var _ := db.ReceiveBlock(b);
    case GotTx(t) => db.ReceiveTx(t);
  }

  lemma PoolIsCounted(db: Dbs)
    requires db.Valid()
    ensures |db.view.pool| == db.pool.count
  {
    db.pool.CountIsHashes();
  }

  lemma RunGoesOn(r: Rules, genesis: Block, size: nat, events: seq<Event>, states: seq<View>, n: nat, s': View)
    requires n < |events| && NodeRun(r, genesis, size, events[..n], states)
    requires Step(r, states[n], events[n], s') && Pools(r, size, states[n], events[n], s') && |s'.chain| > 0
    ensures NodeRun(r, genesis, size, events[..n + 1], states + [s'])
  {
    OneMore(r, genesis, events[..n], states, events[n], s');
    assert events[..n + 1] == events[..n] + [events[n]];
  }

  lemma HasChain(db: Dbs)
    requires db.Valid()
    ensures |db.view.chain| > 0
  {
  }

  /** Feed a fresh node all messages: the states of its databases are a run. If it is offered all
      of `U`, and the window leaves no dead end, its chain ends as high as any block can be. */
  method Play(r: Rules, genesis: Block, maxLevel: nat, poolSize: nat, events: seq<Event>, ghost U: Blocks)
    returns (db: Dbs, ghost states: seq<View>)
    requires Drawn(r, genesis, events, U)
    requires LevelsFit(maxLevel, U) && RoomAllAlong(r, genesis, poolSize, events)
    ensures db.Valid() && db.r == r
    ensures NodeRun(r, genesis, poolSize, events, states) && db.view == states[|events|]
    ensures forall x ::
              Offered(r, genesis, events, U) && NoDeadEnd(r, r.hash(genesis), U) && Tallest(r, r.hash(genesis), U, x)
              ==> Top(db.view) == U[x].height
  {
    assert genesis.height == 0;
    hide LevelsFit, RoomToSwap, NodeRun, Run, Step, Pools, Dbs.Loose, Drawn, RoomAllAlong, Inv, Init, NoDeadEnd;
    db := new Dbs(r, genesis, maxLevel, poolSize);
    states := Begun(r, genesis, poolSize, events);
    for n := 0 to |events|
      invariant fresh(db) && fresh(db.pool) && fresh(db.pool.txs)
      invariant db.Valid() && db.r == r && db.maxLevel == maxLevel && db.pool.txs.Length == poolSize
      invariant NodeRun(r, genesis, poolSize, events[..n], states)
      invariant |states| == n + 1 && db.view == states[n]
    {
      if events[n].GotBlock? {
        MayReceive(r, genesis, events, U, maxLevel, poolSize, states, n);
      }
      Receive(db, events[n]);
      HasChain(db);
      RunGoesOn(r, genesis, poolSize, events, states, n, db.view);
      states := states + [db.view];
    }
    assert events[..|events|] == events;
    forall x | Offered(r, genesis, events, U) && NoDeadEnd(r, r.hash(genesis), U) && Tallest(r, r.hash(genesis), U, x)
      ensures Top(db.view) == U[x].height
    {
      IsRun(r, genesis, poolSize, events, states);
      FinalHeight(r, genesis, U, events, states, x);
    }
  }

  lemma Begun(r: Rules, genesis: Block, size: nat, events: seq<Event>) returns (states: seq<View>)
    ensures states == [Init(r, genesis)] && NodeRun(r, genesis, size, events[..0], states)
  {
    states := [Init(r, genesis)];
  }

  lemma IsRun(r: Rules, genesis: Block, size: nat, events: seq<Event>, states: seq<View>)
    requires NodeRun(r, genesis, size, events, states)
    ensures Run(r, genesis, events, states) && |states| == |events| + 1
  {
  }
}
