/** Runs that show where the node's promises fail: for any rules, and any blocks that fit
    together as described, the run exists and ends as stated. */
module Witness {
  import opened ChainModel
  import opened Reorg
  import opened ChainTxs
  import opened ForkChoice
  import opened RunOrder

  /** A block that the node accepts on top of its parent. */
  predicate On(r: Rules, parent: Block, b: Block) {
    r.ok(b) && Link(r, parent, b)
  }

  predicate Holds(r: Rules, s: View, b: Block) {
    r.hash(b) in s.blocks && s.blocks[r.hash(b)] == b
  }

  /** A run that has come to a canonical state with an exact index. */
  ghost predicate At(r: Rules, g: Block, events: seq<Event>, states: seq<View>, s: View) {
    && Run(r, g, events, states) && |states| == |events| + 1 && states[|events|] == s
    && Inv(r, s) && IndexExact(r, s)
  }

  lemma Begins(r: Rules, g: Block) returns (states: seq<View>)
    requires g.height == 0
    ensures At(r, g, [], states, Init(r, g))
  {
    var s := Init(r, g);
    assert forall h :: h in s.blocks ==> h == r.hash(g) && OnChain(s, h);
    InitIndexExact(r, g);
    states := [s];
  }

  lemma Arrives(r: Rules, g: Block, events: seq<Event>, states: seq<View>, s: View, p: Block, b: Block,
                events': seq<Event>)
    returns (states': seq<View>)
    requires At(r, g, events, states, s) && On(r, p, b) && Holds(r, s, p) && NoCollision(r, s.blocks, b)
    requires Settled(r, Added(r, s, b)) && events' == events + [GotBlock(b)]
    ensures At(r, g, events', states', Added(r, s, b)) && states' == states + [Added(r, s, b)]
  {
    AddedKeepsInv(r, s, b);
    AddedKeepsIndexExact(r, s, b);
    OneMore(r, g, events, states, GotBlock(b), Added(r, s, b));
    states' := states + [Added(r, s, b)];
  }

  /** The tip is extended while nothing is in limbo. */
  lemma Extended(r: Rules, s: View, p: Block, b: Block)
    requires |s.chain| > 0 && On(r, p, b) && Holds(r, s, p) && s.limbo == {}
    requires s.chain[|s.chain| - 1] == r.hash(p) && p.height == |s.chain| - 1
    ensures var s' := Added(r, s, b);
            && s'.chain == s.chain + [r.hash(b)] && s'.limbo == {}
            && s'.blocks == s.blocks[r.hash(b) := b] && s'.pool == s.pool
            && Settled(r, s')
  {
  }

  /** A block that does not extend the tip is put in limbo. */
  lemma PutAside(r: Rules, s: View, p: Block, b: Block)
    requires |s.chain| > 0 && On(r, p, b) && Holds(r, s, p)
    requires s.chain[|s.chain| - 1] != r.hash(p)
    ensures var s' := Added(r, s, b);
            && s'.chain == s.chain && s'.limbo == s.limbo + {r.hash(b)}
            && s'.blocks == s.blocks[r.hash(b) := b] && s'.pool == s.pool
            && (s.limbo == {} && b.height < |s.chain| ==> Settled(r, s'))
  {
  }

  // ---------- The order of arrival ----------

  /** One child of genesis, and next to it a child with a child of its own. */
  predicate ForkedGenesis(r: Rules, g: Block, a1: Block, b1: Block, b2: Block) {
    && g.height == 0 && On(r, g, a1) && On(r, g, b1) && On(r, b1, b2)
    && r.hash(g) !in {r.hash(a1), r.hash(b1), r.hash(b2)}
    && r.hash(a1) !in {r.hash(b1), r.hash(b2)} && r.hash(b1) != r.hash(b2)
  }

  /** The longer branch from genesis is never taken up if it comes later. */
  lemma LateBranch(r: Rules, g: Block, a1: Block, b1: Block, b2: Block) returns (states: seq<View>)
    requires ForkedGenesis(r, g, a1, b1, b2)
    ensures Run(r, g, [GotBlock(a1), GotBlock(b1), GotBlock(b2)], states) && Top(states[3]) == 1
  {
    hide Run, Inv, IndexExact, Settled, Added;
    var s0 := Init(r, g);
    states := Begins(r, g);
    Extended(r, s0, g, a1);
    states := Arrives(r, g, [], states, s0, g, a1, [GotBlock(a1)]);
    var s1 := Added(r, s0, a1);
    PutAside(r, s1, g, b1);
    states := Arrives(r, g, [GotBlock(a1)], states, s1, g, b1, [GotBlock(a1), GotBlock(b1)]);
    var s2 := Added(r, s1, b1);
    PutAside(r, s2, b1, b2);
    OutOfWindow(r, Added(r, s2, b2), g, a1, b1, b2);
    states := Arrives(r, g, [GotBlock(a1), GotBlock(b1)], states, s2, b1, b2,
                      [GotBlock(a1), GotBlock(b1), GotBlock(b2)]);
  }

  /** On a chain of height 1 nothing that forks from genesis can be attached. */
  lemma OutOfWindow(r: Rules, s: View, g: Block, a1: Block, b1: Block, b2: Block)
    requires ForkedGenesis(r, g, a1, b1, b2)
    requires s.chain == [r.hash(g), r.hash(a1)] && s.limbo == {r.hash(b1), r.hash(b2)}
    requires Holds(r, s, g) && Holds(r, s, a1) && Holds(r, s, b1) && Holds(r, s, b2)
    ensures Settled(r, s)
  {
    assert TraceBack(r, s, r.hash(g)).TooOld?;
    assert TraceBack(r, s, r.hash(b1)) == TraceBack(r, s, r.hash(g));
    assert TraceBack(r, s, r.hash(b2)) == TraceBack(r, s, r.hash(b1));
  }

  /** It becomes the chain if it comes first. */
  lemma EarlyBranch(r: Rules, g: Block, a1: Block, b1: Block, b2: Block) returns (states: seq<View>)
    requires ForkedGenesis(r, g, a1, b1, b2)
    ensures Run(r, g, [GotBlock(b1), GotBlock(b2), GotBlock(a1)], states) && Top(states[3]) == 2
  {
    hide Run, Inv, IndexExact, Settled, Added;
    var s0 := Init(r, g);
    states := Begins(r, g);
    Extended(r, s0, g, b1);
    states := Arrives(r, g, [], states, s0, g, b1, [GotBlock(b1)]);
    var s1 := Added(r, s0, b1);
    Extended(r, s1, b1, b2);
    states := Arrives(r, g, [GotBlock(b1)], states, s1, b1, b2, [GotBlock(b1), GotBlock(b2)]);
    var s2 := Added(r, s1, b2);
    PutAside(r, s2, g, a1);
    states := Arrives(r, g, [GotBlock(b1), GotBlock(b2)], states, s2, g, a1,
                      [GotBlock(b1), GotBlock(b2), GotBlock(a1)]);
  }

  /** Two orders of the same three blocks end at different heights. */
  lemma OrderMattersAtGenesis(r: Rules, g: Block, a1: Block, b1: Block, b2: Block)
    requires ForkedGenesis(r, g, a1, b1, b2)
    ensures exists states :: Run(r, g, [GotBlock(a1), GotBlock(b1), GotBlock(b2)], states) && Top(states[3]) == 1
    ensures exists states :: Run(r, g, [GotBlock(b1), GotBlock(b2), GotBlock(a1)], states) && Top(states[3]) == 2
  {
    var late := LateBranch(r, g, a1, b1, b2);
    var early := EarlyBranch(r, g, a1, b1, b2);
  }

  // ---------- Limbo ----------

  /** A chain block that comes again is put in limbo too. */
  lemma SentTwice(r: Rules, g: Block, b: Block) returns (states: seq<View>)
    requires g.height == 0 && On(r, g, b) && r.hash(b) != r.hash(g)
    ensures Run(r, g, [GotBlock(b), GotBlock(b)], states) && !Exact(states[2])
  {
    hide Run, Inv, IndexExact, Settled, Added;
    var s0 := Init(r, g);
    states := Begins(r, g);
    Extended(r, s0, g, b);
    states := Arrives(r, g, [], states, s0, g, b, [GotBlock(b)]);
    var s1 := Added(r, s0, b);
    PutAside(r, s1, g, b);
    states := Arrives(r, g, [GotBlock(b)], states, s1, g, b, [GotBlock(b), GotBlock(b)]);
    assert OnChain(states[2], r.hash(b)) && r.hash(b) in states[2].limbo;
  }

  // ---------- Pool and chain ----------

  /** A pooled transaction stays pooled when the tip that holds it arrives. */
  lemma PooledThenConfirmed(r: Rules, g: Block, b: Block, t: Tx) returns (states: seq<View>)
    requires g.height == 0 && On(r, g, b) && r.hash(b) != r.hash(g) && t in b.txs
    ensures Run(r, g, [GotTx(t), GotBlock(b)], states)
    ensures r.txHash(t) in states[2].pool && r.txHash(t) in Confirmed(r, states[2])
  {
    hide Run, Inv, IndexExact, Settled, TxsIn, TxsOf;
    var s0 := Init(r, g);
    var s1 := s0.(pool := {r.txHash(t)});
    assert s1.pool == s0.pool + {r.txHash(t)};
    Extended(r, s1, g, b);
    var s2 := Added(r, s1, b);
    states := Begins(r, g);
    OneMore(r, g, [], states, GotTx(t), s1);
    OneMore(r, g, [GotTx(t)], states + [s1], GotBlock(b), s2);
    TipConfirms(r, s2, b, t);
    assert [GotTx(t)] + [GotBlock(b)] == [GotTx(t), GotBlock(b)];
    states := states + [s1] + [s2];
  }

  /** A transaction that the chain has is pooled when it arrives again. */
  lemma ConfirmedThenPooled(r: Rules, g: Block, b: Block, t: Tx) returns (states: seq<View>)
    requires g.height == 0 && On(r, g, b) && r.hash(b) != r.hash(g) && t in b.txs
    ensures Run(r, g, [GotBlock(b), GotTx(t)], states)
    ensures r.txHash(t) in states[2].pool && r.txHash(t) in Confirmed(r, states[2])
  {
    hide Run, Inv, IndexExact, Settled, TxsIn, TxsOf;
    var s0 := Init(r, g);
    Extended(r, s0, g, b);
    var s1 := Added(r, s0, b);
    var s2 := s1.(pool := {r.txHash(t)});
    assert s2.pool == s1.pool + {r.txHash(t)};
    states := Begins(r, g);
    OneMore(r, g, [], states, GotBlock(b), s1);
    OneMore(r, g, [GotBlock(b)], states + [s1], GotTx(t), s2);
    TipConfirms(r, s2, b, t);
    assert [GotBlock(b)] + [GotTx(t)] == [GotBlock(b), GotTx(t)];
    states := states + [s1] + [s2];
  }

  lemma TipConfirms(r: Rules, s: View, b: Block, t: Tx)
    requires r.hash(b) in s.chain && r.hash(b) in s.blocks && s.blocks[r.hash(b)] == b && t in b.txs
    ensures r.txHash(t) in Confirmed(r, s)
  {
    assert r.txHash(t) in TxsOf(r, b);
  }

  // ---------- The index ----------

  /** A chain of two blocks, and two blocks that fork from the first of them. */
  predicate ForkedAtOne(r: Rules, g: Block, a1: Block, a2: Block, b2: Block, b3: Block) {
    && g.height == 0 && On(r, g, a1) && On(r, a1, a2) && On(r, a1, b2) && On(r, b2, b3)
    && r.hash(g) !in {r.hash(a1), r.hash(a2), r.hash(b2), r.hash(b3)}
    && r.hash(a1) !in {r.hash(a2), r.hash(b2), r.hash(b3)}
    && r.hash(a2) !in {r.hash(b2), r.hash(b3)} && r.hash(b2) != r.hash(b3)
  }

  /** The state in which the second branch has arrived and waits to be swapped in. */
  lemma BeforeSwap(r: Rules, g: Block, a1: Block, a2: Block, b2: Block, b3: Block) returns (states: seq<View>)
    requires ForkedAtOne(r, g, a1, a2, b2, b3)
    ensures |states| == 4 && At(r, g, [GotBlock(a1), GotBlock(a2), GotBlock(b2)], states, states[3])
    ensures states[3].chain == [r.hash(g), r.hash(a1), r.hash(a2)] && states[3].limbo == {r.hash(b2)}
    ensures states[3].blocks == map[r.hash(g) := g, r.hash(a1) := a1, r.hash(a2) := a2, r.hash(b2) := b2]
  {
    hide Inv, IndexExact, Settled, Added, Run;
    var s0 := Init(r, g);
    states := Begins(r, g);
    Extended(r, s0, g, a1);
    states := Arrives(r, g, [], states, s0, g, a1, [GotBlock(a1)]);
    var s1 := Added(r, s0, a1);
    Extended(r, s1, a1, a2);
    states := Arrives(r, g, [GotBlock(a1)], states, s1, a1, a2, [GotBlock(a1), GotBlock(a2)]);
    var s2 := Added(r, s1, a2);
    PutAside(r, s2, a1, b2);
    states := Arrives(r, g, [GotBlock(a1), GotBlock(a2)], states, s2, a1, b2,
                      [GotBlock(a1), GotBlock(a2), GotBlock(b2)]);
  }

  /** The branch is swapped in as soon as it is the longer one. */
  lemma SwapsIn(r: Rules, g: Block, a1: Block, a2: Block, b2: Block, b3: Block, m: View)
    requires ForkedAtOne(r, g, a1, a2, b2, b3) && Inv(r, m)
    requires m.chain == [r.hash(g), r.hash(a1), r.hash(a2)] && m.limbo == {r.hash(b2), r.hash(b3)}
    requires m.blocks == map[r.hash(g) := g, r.hash(a1) := a1, r.hash(a2) := a2, r.hash(b2) := b2, r.hash(b3) := b3]
    ensures Chosen(r, m, 1, [r.hash(b2), r.hash(b3)])
  {
    var br := [r.hash(b2), r.hash(b3)];
    assert Rests(r, m, 1, br, 0) && Rests(r, m, 1, br, 1);
    assert Branch(r, m, 1, br);
  }

  /** A swap that drops a transaction which the kept chain has as well, as a repeated coinbase
      is, makes the index forget it. */
  lemma RepeatedTxIsForgotten(r: Rules, g: Block, a1: Block, a2: Block, b2: Block, b3: Block, t: Tx)
    returns (states: seq<View>)
    requires ForkedAtOne(r, g, a1, a2, b2, b3)
    requires t in a1.txs && t in a2.txs && r.txHash(t) !in TxsOf(r, b2) + TxsOf(r, b3)
    ensures Run(r, g, [GotBlock(a1), GotBlock(a2), GotBlock(b2), GotBlock(b3)], states)
    ensures |states| == 5 && IndexExact(r, states[3]) && !IndexExact(r, states[4])
  {
    hide Inv, IndexExact, Added, Run, Step, Link, Reverted, TxsIn, TxsOf;
    states := BeforeSwap(r, g, a1, a2, b2, b3);
    var s := states[3];
    PutAside(r, s, b2, b3);
    var s' := SwapForgets(r, g, a1, a2, b2, b3, t, s);
    OneMore(r, g, [GotBlock(a1), GotBlock(a2), GotBlock(b2)], states, GotBlock(b3), s');
    assert [GotBlock(a1), GotBlock(a2), GotBlock(b2)] + [GotBlock(b3)]
        == [GotBlock(a1), GotBlock(a2), GotBlock(b2), GotBlock(b3)];
    states := states + [s'];
  }

  lemma SwapForgets(r: Rules, g: Block, a1: Block, a2: Block, b2: Block, b3: Block, t: Tx, s: View) returns (s': View)
    requires ForkedAtOne(r, g, a1, a2, b2, b3) && Inv(r, s) && IndexExact(r, s)
    requires s.chain == [r.hash(g), r.hash(a1), r.hash(a2)] && s.limbo == {r.hash(b2)}
    requires s.blocks == map[r.hash(g) := g, r.hash(a1) := a1, r.hash(a2) := a2, r.hash(b2) := b2]
    requires t in a1.txs && t in a2.txs && r.txHash(t) !in TxsOf(r, b2) + TxsOf(r, b3)
    ensures Step(r, s, GotBlock(b3), s') && |s'.chain| > 0 && !IndexExact(r, s')
  {
    hide Inv, IndexExact, Added, Link, Reverted, TxsIn, TxsOf;
    PutAside(r, s, b2, b3);
    var m, br := Added(r, s, b3), [r.hash(b2), r.hash(b3)];
    AddedKeepsInv(r, s, b3);
    AddedKeepsIndexExact(r, s, b3);
    SwapsIn(r, g, a1, a2, b2, b3, m);
    RevertIndexExactIff(r, m, 1, br);
    Repeats(r, m, a1, a2, b2, b3, t);
    RevertKeepsInv(r, m, 1, br);
    s' := Reverted(r, m, 1, br);
    HasTip(r, s');
  }

  lemma HasTip(r: Rules, s: View)
    requires Inv(r, s)
    ensures |s.chain| > 0
  {
  }

  lemma Repeats(r: Rules, m: View, a1: Block, a2: Block, b2: Block, b3: Block, t: Tx)
    requires |m.chain| == 3 && m.chain[1] == r.hash(a1) && m.chain[2] == r.hash(a2)
    requires Holds(r, m, a1) && Holds(r, m, a2) && Holds(r, m, b2) && Holds(r, m, b3)
    requires t in a1.txs && t in a2.txs && r.txHash(t) !in TxsOf(r, b2) + TxsOf(r, b3)
    ensures r.txHash(t) in TxsIn(r, m.blocks, m.chain[..2]) * TxsIn(r, m.blocks, m.chain[2..])
    ensures r.txHash(t) !in TxsIn(r, m.blocks, [r.hash(b2), r.hash(b3)])
  {
    assert m.chain[..2][1] == r.hash(a1) && m.chain[2..][0] == r.hash(a2);
    assert r.txHash(t) in TxsOf(r, a1) && r.txHash(t) in TxsOf(r, a2);
  }
}
