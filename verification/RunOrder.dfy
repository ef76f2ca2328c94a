/** When the chain is the highest there is, and when its final height does not depend on the
    order in which blocks arrive. */
module RunOrder {
  import opened ChainModel
  import opened Reorg
  import opened ForkChoice

  // ---------- Ancestry ----------

  /** Valid links lead from `h` down to the genesis block `g`. */
  predicate Rooted(r: Rules, blocks: Blocks, g: Hash, h: Hash)
    decreases if h in blocks then blocks[h].height else 0
  {
    h in blocks && (h == g || (Linked(r, blocks, h) && Rooted(r, blocks, g, blocks[h].prev)))
  }

  /** Valid links lead from `h` down to `a`. */
  predicate Descends(r: Rules, blocks: Blocks, h: Hash, a: Hash)
    decreases if h in blocks then blocks[h].height else 0
  {
    h in blocks && (h == a || (Linked(r, blocks, h) && Descends(r, blocks, blocks[h].prev, a)))
  }

  /** `h` descends from a block of `c` that is still inside the confirmation window of `c`. */
  ghost predicate Attached(r: Rules, blocks: Blocks, c: seq<Hash>, h: Hash) {
    exists k :: Floor(|c| - 1) < k < |c| && Descends(r, blocks, h, c[k])
  }

  /** Whatever is higher than a chain forks from it inside the window. A lone genesis block is
      exempt: its successors are always extensions. */
  ghost predicate ShallowForks(r: Rules, g: Hash, U: Blocks) {
    forall c, h :: IsChain(r, U, c) && |c| > 1 && c[0] == g && Rooted(r, U, g, h) && U[h].height >= |c| ==>
      Attached(r, U, c, h)
  }

  /** No rooted block is higher than `h`, which is rooted itself. */
  ghost predicate Tallest(r: Rules, g: Hash, U: Blocks, h: Hash) {
    && Rooted(r, U, g, h)
    && forall k :: k in U && Rooted(r, U, g, k) ==> U[k].height <= U[h].height
  }

  /** From every chain above genesis the window still lets one reach a tallest block. */
  ghost predicate NoDeadEnd(r: Rules, g: Hash, U: Blocks) {
    forall c :: IsChain(r, U, c) && |c| > 1 && c[0] == g ==>
      exists h :: Tallest(r, g, U, h) && Attached(r, U, c, h)
  }

  lemma {:induction false} RootedGrows(r: Rules, blocks: Blocks, U: Blocks, g: Hash, h: Hash)
    requires Within(blocks, U) && Rooted(r, blocks, g, h)
    ensures Rooted(r, U, g, h)
    decreases if h in blocks then blocks[h].height else 0
  {
    if h != g {
      RootedGrows(r, blocks, U, g, blocks[h].prev);
    }
  }

  lemma ChainGrows(r: Rules, blocks: Blocks, U: Blocks, c: seq<Hash>)
    requires Within(blocks, U) && IsChain(r, blocks, c)
    ensures IsChain(r, U, c)
  {
    forall i | 0 < i < |c|
      ensures Follows(r, U, c, i)
    {
      assert Follows(r, blocks, c, i);
    }
  }

  lemma {:induction false} ChainIsRooted(r: Rules, U: Blocks, c: seq<Hash>, i: nat)
    requires IsChain(r, U, c) && i < |c|
    ensures Rooted(r, U, c[0], c[i]) && U[c[i]].height == i
  {
    if i > 0 {
      assert Follows(r, U, c, i);
      ChainIsRooted(r, U, c, i - 1);
    }
  }

  /** A stored block that descends from the window is traced back to the chain. */
  lemma {:induction false} DescendantIsFound(r: Rules, s: View, U: Blocks, h: Hash, k: nat)
    requires Inv(r, s) && Within(s.blocks, U)
    requires Floor(Top(s)) < k < |s.chain| && Descends(r, U, h, s.chain[k])
    requires Rooted(r, s.blocks, s.chain[0], h)
    ensures s.blocks[h].height >= k && TraceBack(r, s, h).Found?
    decreases s.blocks[h].height
  {
    if h != s.chain[k] {
      if h == s.chain[0] {
        DescendsUp(r, U, h, s.chain[k]);
        assert false;
      } else {
        DescendantIsFound(r, s, U, s.blocks[h].prev, k);
      }
    }
  }

  lemma {:induction false} DescendsUp(r: Rules, blocks: Blocks, h: Hash, a: Hash)
    requires Descends(r, blocks, h, a)
    ensures a in blocks && blocks[h].height >= blocks[a].height
    decreases blocks[h].height
  {
    if h != a {
      DescendsUp(r, blocks, blocks[h].prev, a);
    }
  }

  /** A chain block descends from every one below it. */
  lemma {:induction false} ChainDescends(r: Rules, U: Blocks, c: seq<Hash>, i: nat, k: nat)
    requires IsChain(r, U, c) && k <= i < |c|
    ensures Descends(r, U, c[i], c[k])
    decreases i
  {
    if i > k {
      assert Follows(r, U, c, i);
      ChainDescends(r, U, c, i - 1, k);
    }
  }

  /** The chain that leads up to a rooted block. */
  lemma {:induction false} PathTo(r: Rules, U: Blocks, g: Hash, h: Hash) returns (c: seq<Hash>)
    requires g in U && U[g].height == 0 && Rooted(r, U, g, h)
    ensures IsChain(r, U, c) && c[0] == g && c[|c| - 1] == h && |c| == U[h].height + 1
    decreases U[h].height
  {
    if h == g {
      c := [g];
    } else {
      var below := PathTo(r, U, g, U[h].prev);
      c := below + [h];
      forall i | 0 < i < |c|
        ensures Follows(r, U, c, i)
      {
        assert i < |below| ==> Follows(r, U, below, i);
      }
    }
  }

  // ---------- What every run keeps ----------

  /** No stored block with valid links down to genesis is above the chain. */
  ghost predicate Highest(r: Rules, s: View)
    requires |s.chain| > 0
  {
    forall h :: h in s.blocks && Rooted(r, s.blocks, s.chain[0], h) ==> s.blocks[h].height <= Top(s)
  }

  /** Above genesis, every rooted block has a rooted ancestor at height one. */
  lemma {:induction false} FirstAncestor(r: Rules, blocks: Blocks, g: Hash, h: Hash) returns (z: Hash)
    requires g in blocks && blocks[g].height == 0
    requires Rooted(r, blocks, g, h) && blocks[h].height > 0
    ensures Linked(r, blocks, z) && blocks[z].height == 1 && blocks[z].prev == g
    decreases blocks[h].height
  {
    if blocks[h].prev == g {
      z := h;
    } else {
      z := FirstAncestor(r, blocks, g, blocks[h].prev);
    }
  }

  /** While only genesis is on the chain, nothing stored can stand on it. */
  lemma LoneGenesis(r: Rules, s: View, b: Block)
    requires Inv(r, s) && Highest(r, s) && Fresh(r, s, b)
    requires Top(Added(r, s, b)) == 0
    ensures Highest(r, Added(r, s, b))
  {
    var m := Added(r, s, b);
    var g := s.chain[0];
    forall h | h in m.blocks && Rooted(r, m.blocks, g, h)
      ensures m.blocks[h].height == 0
    {
      if m.blocks[h].height > 0 {
        var z := FirstAncestor(r, m.blocks, g, h);
        if z in s.blocks {
          assert Linked(r, s.blocks, z) && Rooted(r, s.blocks, g, z);
          assert false;
        }
      }
    }
  }

  /** The block is stored, or it does not fit its own parent. */
  ghost predicate StoredOrBad(r: Rules, U: Blocks, s: View, b: Block) {
    r.hash(b) in s.blocks || (b.prev in U && !Link(r, U[b.prev], b))
  }

  /** Nothing in limbo can be attached, a lone genesis block is the highest, and the blocks of
      the first `done` events are stored unless they do not fit their parents. */
  ghost predicate Kept(r: Rules, events: seq<Event>, U: Blocks, s: View, done: nat)
    requires done <= |events| && |s.chain| > 0
  {
    && Settled(r, s)
    && (Top(s) == 0 ==> Highest(r, s))
    && forall i :: 0 <= i < done && events[i].GotBlock? && r.ok(events[i].block) ==>
         StoredOrBad(r, U, s, events[i].block)
  }

  lemma {:induction false} PoolIsNotTraced(r: Rules, s: View, pool: set<Hash>, h: Hash)
    ensures TraceBack(r, s.(pool := pool), h) == TraceBack(r, s, h)
    decreases if h in s.blocks then s.blocks[h].height else 0
  {
    assert OnChain(s.(pool := pool), h) <==> OnChain(s, h);
    if Linked(r, s.blocks, h) && !OnChain(s, h) {
      PoolIsNotTraced(r, s, pool, s.blocks[h].prev);
    }
  }

  lemma PoolingKeeps(r: Rules, events: seq<Event>, U: Blocks, s: View, pool: set<Hash>, n: nat)
    requires n < |events| && events[n].GotTx? && |s.chain| > 0 && Kept(r, events, U, s, n)
    ensures Kept(r, events, U, s.(pool := pool), n + 1)
  {
    var s' := s.(pool := pool);
    forall h | h in s'.limbo
      ensures !Candidate(r, s', h)
    {
      PoolIsNotTraced(r, s, pool, h);
      assert !Candidate(r, s, h);
    }
  }

  lemma StepKeeps(r: Rules, genesis: Block, events: seq<Event>, U: Blocks, s: View, n: nat, s': View)
    requires Drawn(r, genesis, events, U) && n < |events|
    requires Inv(r, s) && Within(s.blocks, U) && Kept(r, events, U, s, n) && Step(r, s, events[n], s')
    ensures |s'.chain| > 0 && Kept(r, events, U, s', n + 1)
  {
    match events[n]
    case GotTx(t) =>
      PoolingKeeps(r, events, U, s, s'.pool, n);
    case GotBlock(b) =>
      ReceiveKeepsInv(r, s, b, s');
      if Top(s') == 0 {
        AddedKeepsInv(r, s, b);
        ScanIsMaximal(r, Added(r, s, b), s');
        LoneGenesis(r, s, b);
      }
  }

  lemma {:induction false} RunKeeps(r: Rules, genesis: Block, events: seq<Event>, U: Blocks, states: seq<View>, n: nat)
    requires Run(r, genesis, events, states) && Drawn(r, genesis, events, U) && n <= |events|
    ensures Kept(r, events, U, states[n], n)
  {
    hide Kept, Inv, Settled, Highest;
    if n == 0 {
      InitKept(r, genesis, events, U);
    } else {
      RunKeeps(r, genesis, events, U, states, n - 1);
      RunIsCanonical(r, genesis, events, U, states, n - 1, 0);
      assert Step(r, states[n - 1], events[n - 1], states[n]);
      StepKeeps(r, genesis, events, U, states[n - 1], n - 1, states[n]);
    }
  }

  lemma InitKept(r: Rules, genesis: Block, events: seq<Event>, U: Blocks)
    requires genesis.height == 0
    ensures Kept(r, events, U, Init(r, genesis), 0)
  {
  }

  /** A rooted block that descends from the window of the chain is not above the chain. */
  lemma NotAboveChain(r: Rules, s: View, U: Blocks, h: Hash)
    requires Inv(r, s) && Settled(r, s) && Within(s.blocks, U)
    requires Rooted(r, s.blocks, s.chain[0], h) && Attached(r, U, s.chain, h)
    ensures s.blocks[h].height <= Top(s)
  {
    var k :| Floor(|s.chain| - 1) < k < |s.chain| && Descends(r, U, h, s.chain[k]);
    DescendantIsFound(r, s, U, h, k);
    assert !Candidate(r, s, h);
  }

  /** A block all of whose ancestors were received is stored, and rooted in the store. */
  lemma {:induction false} ReceivedRootedIsStored(r: Rules, genesis: Block, events: seq<Event>, U: Blocks, s: View,
                                                  h: Hash)
    requires Drawn(r, genesis, events, U) && Inv(r, s) && Within(s.blocks, U) && Kept(r, events, U, s, |events|)
    requires s.chain[0] == r.hash(genesis) && Rooted(r, U, r.hash(genesis), h)
    requires forall k :: k in U && k != r.hash(genesis) && Descends(r, U, h, k) ==> GotBlock(U[k]) in events
    ensures Rooted(r, s.blocks, r.hash(genesis), h)
    decreases U[h].height
  {
    if h != r.hash(genesis) {
      forall k | k in U && k != r.hash(genesis) && Descends(r, U, U[h].prev, k)
        ensures GotBlock(U[k]) in events
      {
        assert Descends(r, U, h, k);
      }
      ReceivedRootedIsStored(r, genesis, events, U, s, U[h].prev);
      assert Descends(r, U, h, h);
      var i :| 0 <= i < |events| && events[i] == GotBlock(U[h]);
      assert StoredOrBad(r, U, s, events[i].block);
    }
  }

  // ---------- Limbo over runs ----------

  /** The event brings an acceptable block that is on the chain. */
  ghost predicate SentAgain(r: Rules, s: View, e: Event) {
    e.GotBlock? && Acceptable(r, s.blocks, e.block) && OnChain(s, r.hash(e.block))
  }

  /** No block that extends the tip waits in limbo: a scan would have attached it. */
  lemma ExtendingIsNew(r: Rules, s: View, b: Block)
    requires Inv(r, s) && Settled(r, s) && (Top(s) == 0 ==> Highest(r, s))
    requires Acceptable(r, s.blocks, b) && NoCollision(r, s.blocks, b) && Extends(s, b)
    ensures r.hash(b) !in s.limbo
  {
    var h, tip := r.hash(b), s.chain[Top(s)];
    ChainIsStored(r, s, Top(s));
    assert h in s.blocks ==> Linked(r, s.blocks, h) && s.blocks[h].prev == tip;
    assert Top(s) > 0 ==> TraceBack(r, s, tip).Found?;
    assert Rooted(r, s.blocks, tip, tip);
    assert h in s.blocks ==> Rooted(r, s.blocks, tip, h);
    assert h in s.limbo ==> !Candidate(r, s, h);
  }

  /** A chain block that arrives again is in limbo and on the chain after the message. */
  lemma SentAgainStays(r: Rules, s: View, b: Block, s': View)
    requires Inv(r, s) && Settled(r, s) && NoCollision(r, s.blocks, b) && Received(r, s, b, s')
    requires SentAgain(r, s, GotBlock(b))
    ensures !Exact(s')
  {
    var m := Added(r, s, b);
    assert m == s.(limbo := s.limbo + {r.hash(b)});
    AddedKeepsInv(r, s, b);
    forall h | h in m.limbo
      ensures !Candidate(r, m, h)
    {
      LimboIsNotTraced(r, s, m.limbo, h);
      assert h in s.limbo ==> !Candidate(r, s, h);
    }
    if s' != m {
      var at, br :| Chosen(r, m, at, br) && s' == Reverted(r, m, at, br);
      ChosenIsCandidate(r, m, at, br);
    }
    assert OnChain(m, r.hash(b)) && r.hash(b) in m.limbo;
  }

  lemma {:induction false} LimboIsNotTraced(r: Rules, s: View, limbo: set<Hash>, h: Hash)
    ensures TraceBack(r, s.(limbo := limbo), h) == TraceBack(r, s, h)
    decreases if h in s.blocks then s.blocks[h].height else 0
  {
    assert OnChain(s.(limbo := limbo), h) <==> OnChain(s, h);
    if Linked(r, s.blocks, h) && !OnChain(s, h) {
      LimboIsNotTraced(r, s, limbo, s.blocks[h].prev);
    }
  }

  lemma StepStaysExactIff(r: Rules, s: View, e: Event, s': View)
    requires Inv(r, s) && Settled(r, s) && (Top(s) == 0 ==> Highest(r, s))
    requires Exact(s) && Step(r, s, e, s') && (e.GotBlock? ==> Fresh(r, s, e.block))
    ensures Exact(s') <==> !SentAgain(r, s, e)
  {
    hide Inv, Settled, Highest;
    match e
    case GotTx(_) =>
      assert forall h :: OnChain(s', h) <==> OnChain(s, h);
    case GotBlock(b) =>
      if SentAgain(r, s, e) {
        SentAgainStays(r, s, b, s');
      } else {
        NewStaysExact(r, s, b, s');
      }
  }

  lemma NewStaysExact(r: Rules, s: View, b: Block, s': View)
    requires Inv(r, s) && Settled(r, s) && (Top(s) == 0 ==> Highest(r, s))
    requires Exact(s) && Received(r, s, b, s') && Fresh(r, s, b) && !SentAgain(r, s, GotBlock(b))
    ensures Exact(s')
  {
    hide Follows, Hashed, Settled, Highest, OnChain, Scanned;
    AddedKeepsInv(r, s, b);
    if Acceptable(r, s.blocks, b) {
      AddedKeepsExactIff(r, s, b);
      if Extends(s, b) {
        ExtendingIsNew(r, s, b);
      }
    }
    ScanIsMaximal(r, Added(r, s, b), s');
  }

  lemma RunStepStaysExactIff(r: Rules, genesis: Block, events: seq<Event>, U: Blocks, states: seq<View>, n: nat)
    requires Run(r, genesis, events, states) && Drawn(r, genesis, events, U)
    requires n < |events| && Exact(states[n])
    ensures Exact(states[n + 1]) <==> !SentAgain(r, states[n], events[n])
  {
    RunKeeps(r, genesis, events, U, states, n);
    hide Run, Inv, Drawn, Within, Step, Exact, SentAgain, Settled, Highest;
    RunStep(r, genesis, events, states, n);
    RunIsCanonical(r, genesis, events, U, states, n, n);
    EventIsFresh(r, genesis, events, U, states[n], n);
    StepStaysExactIff(r, states[n], events[n], states[n + 1]);
  }

  lemma {:induction false} UnrepeatedStaysExact(r: Rules, genesis: Block, events: seq<Event>, U: Blocks,
                                                states: seq<View>, n: nat)
    requires Run(r, genesis, events, states) && Drawn(r, genesis, events, U) && n <= |events|
    requires forall i :: 0 <= i < n ==> !SentAgain(r, states[i], events[i])
    ensures Exact(states[n])
  {
    hide Drawn, SentAgain, Step;
    if n > 0 {
      UnrepeatedStaysExact(r, genesis, events, U, states, n - 1);
      RunStepStaysExactIff(r, genesis, events, U, states, n - 1);
    }
  }

  /** Limbo is exactly the stored blocks off the chain all along a run, if and only if no
      acceptable block arrives that is on the chain at that time. */
  lemma RunStaysExactIff(r: Rules, genesis: Block, events: seq<Event>, U: Blocks, states: seq<View>)
    requires Run(r, genesis, events, states) && Drawn(r, genesis, events, U)
    ensures (forall n :: 0 <= n <= |events| ==> Exact(states[n])) <==>
            forall i :: 0 <= i < |events| ==> !SentAgain(r, states[i], events[i])
  {
    hide Drawn, SentAgain, Step, Exact;
    if forall i :: 0 <= i < |events| ==> !SentAgain(r, states[i], events[i]) {
      forall n | 0 <= n <= |events|
        ensures Exact(states[n])
      {
        UnrepeatedStaysExact(r, genesis, events, U, states, n);
      }
    }
    if forall n :: 0 <= n <= |events| ==> Exact(states[n]) {
      forall i | 0 <= i < |events|
        ensures !SentAgain(r, states[i], events[i])
      {
        RunStepStaysExactIff(r, genesis, events, U, states, i);
      }
    }
  }

  // ---------- The conditions are sufficient ----------

  /** In every state the chain is the highest there is, as far as the node can know. */
  ghost predicate AlwaysHighest(r: Rules, genesis: Block, U: Blocks) {
    forall events: seq<Event>, states: seq<View>, n: nat ::
      Run(r, genesis, events, states) && Drawn(r, genesis, events, U) && n <= |events| && |states[n].chain| > 0
      ==> Highest(r, states[n])
  }

  /** All runs that receive the same blocks end at the same height. */
  ghost predicate SameHeight(r: Rules, genesis: Block, U: Blocks) {
    forall events: seq<Event>, states: seq<View>, events': seq<Event>, states': seq<View> ::
      Run(r, genesis, events, states) && Offered(r, genesis, events, U) &&
      Run(r, genesis, events', states') && Offered(r, genesis, events', U)
      ==> Top(states[|events|]) == Top(states'[|events'|])
  }

  lemma ShallowForksKeepHighest(r: Rules, genesis: Block, U: Blocks, events: seq<Event>, states: seq<View>, n: nat)
    requires Run(r, genesis, events, states) && Drawn(r, genesis, events, U) && n <= |events|
    requires ShallowForks(r, r.hash(genesis), U)
    ensures Highest(r, states[n])
  {
    RunIsCanonical(r, genesis, events, U, states, n, 0);
    RunKeeps(r, genesis, events, U, states, n);
    var s := states[n];
    if Top(s) > 0 {
      ChainGrows(r, s.blocks, U, s.chain);
      forall h | h in s.blocks && Rooted(r, s.blocks, s.chain[0], h)
        ensures s.blocks[h].height <= Top(s)
      {
        RootedGrows(r, s.blocks, U, s.chain[0], h);
        if s.blocks[h].height > Top(s) {
          NotAboveChain(r, s, U, h);
        }
      }
    }
  }

  /** Without dead ends a run ends at the height of the tallest block it was offered. */
  lemma FinalHeight(r: Rules, genesis: Block, U: Blocks, events: seq<Event>, states: seq<View>, x: Hash)
    requires Run(r, genesis, events, states) && Offered(r, genesis, events, U)
    requires NoDeadEnd(r, r.hash(genesis), U) && Tallest(r, r.hash(genesis), U, x)
    ensures Top(states[|events|]) == U[x].height
  {
    var s, g := states[|events|], r.hash(genesis);
    RunIsCanonical(r, genesis, events, U, states, |events|, 0);
    RunKeeps(r, genesis, events, U, states, |events|);
    TipIsRooted(r, s, U);
    ChainGrows(r, s.blocks, U, s.chain);
    if Top(s) == 0 {
      ReceivedRootedIsStored(r, genesis, events, U, s, x);
    } else {
      var h :| Tallest(r, g, U, h) && Attached(r, U, s.chain, h);
      ReceivedRootedIsStored(r, genesis, events, U, s, h);
      NotAboveChain(r, s, U, h);
    }
  }

  lemma TipIsRooted(r: Rules, s: View, U: Blocks)
    requires Inv(r, s) && Within(s.blocks, U)
    ensures Rooted(r, U, s.chain[0], s.chain[Top(s)]) && U[s.chain[Top(s)]].height == Top(s)
  {
    ChainIsRooted(r, s.blocks, s.chain, Top(s));
    RootedGrows(r, s.blocks, U, s.chain[0], s.chain[Top(s)]);
  }

  /** Among finitely many blocks one is tallest. */
  lemma {:induction false} SomeTallest(r: Rules, g: Hash, U: Blocks, keys: set<Hash>) returns (h: Hash)
    requires keys <= U.Keys && g in keys && Rooted(r, U, g, g)
    ensures h in keys && Rooted(r, U, g, h)
    ensures forall k :: k in keys && Rooted(r, U, g, k) ==> U[k].height <= U[h].height
    decreases |keys|
  {
    if keys == {g} {
      h := g;
    } else {
      var k :| k in keys && k != g;
      h := SomeTallest(r, g, U, keys - {k});
      if Rooted(r, U, g, k) && U[k].height > U[h].height {
        h := k;
      }
    }
  }

  // ---------- Runs exist ----------

  lemma {:induction false} HighestCandidate(r: Rules, s: View, limbo: set<Hash>) returns (h: Hash)
    requires exists k :: k in limbo && Candidate(r, s, k)
    ensures h in limbo && Candidate(r, s, h)
    ensures forall k :: k in limbo && Candidate(r, s, k) ==> s.blocks[k].height <= s.blocks[h].height
    decreases |limbo|
  {
    var k :| k in limbo && Candidate(r, s, k);
    h := k;
    if exists x :: x in limbo - {k} && Candidate(r, s, x) {
      var other := HighestCandidate(r, s, limbo - {k});
      if s.blocks[other].height > s.blocks[k].height {
        h := other;
      }
    }
  }

  /** A scan always has an outcome. */
  lemma ScanExists(r: Rules, s: View) returns (s': View)
    requires Inv(r, s)
    ensures Scanned(r, s, s')
  {
    hide Inv, TraceBack, Rests, OnChain;
    if Settled(r, s) {
      s' := s;
    } else {
      var h := HighestCandidate(r, s, s.limbo);
      var at, br := TraceSound(r, s, h);
      ChainIsStored(r, s, at);
      assert br != [];
      BranchHeights(r, s, at, br, |br| - 1);
      assert Chosen(r, s, at, br);
      s' := Reverted(r, s, at, br);
    }
  }

  lemma StepExists(r: Rules, s: View, e: Event) returns (s': View)
    requires Inv(r, s) && (e.GotBlock? ==> Fresh(r, s, e.block))
    ensures Step(r, s, e, s')
  {
    match e
    case GotTx(_) => s' := s;
    case GotBlock(b) =>
      AddedKeepsInv(r, s, b);
      s' := ScanExists(r, Added(r, s, b));
  }

  /** Every run can go on. */
  lemma {:induction false} Continue(r: Rules, genesis: Block, U: Blocks, events: seq<Event>, states: seq<View>,
                                    more: seq<Event>)
    returns (states': seq<View>)
    requires Run(r, genesis, events, states) && Drawn(r, genesis, events + more, U)
    ensures Run(r, genesis, events + more, states') && states <= states'
    decreases |more|
  {
    if more == [] {
      states' := states;
      assert events + more == events;
    } else {
      var s, e := states[|events|], more[0];
      forall i | 0 <= i < |events|
        ensures events[i] == (events + more)[i]
      {
      }
      RunIsCanonical(r, genesis, events, U, states, |events|, 0);
      assert (events + more)[|events|] == e;
      var s' := StepExists(r, s, e);
      NextIsCanonical(r, genesis, events + more, U, s, |events|, s');
      assert events + more == (events + [e]) + more[1..];
      OneMore(r, genesis, events, states, e, s');
      states' := Continue(r, genesis, U, events + [e], states + [s'], more[1..]);
    }
  }

  lemma NextIsCanonical(r: Rules, genesis: Block, events: seq<Event>, U: Blocks, s: View, n: nat, s': View)
    requires Drawn(r, genesis, events, U) && n < |events|
    requires Inv(r, s) && Within(s.blocks, U) && Step(r, s, events[n], s')
    ensures |s'.chain| > 0
  {
    StepIsCanonical(r, genesis, events, U, s, n, s');
  }

  lemma OneMore(r: Rules, genesis: Block, events: seq<Event>, states: seq<View>, e: Event, s': View)
    requires Run(r, genesis, events, states) && Step(r, states[|events|], e, s') && |s'.chain| > 0
    ensures Run(r, genesis, events + [e], states + [s'])
  {
    var events', states' := events + [e], states + [s'];
    forall i | 0 <= i < |events'|
      ensures Step(r, states'[i], events'[i], states'[i + 1])
    {
      assert i < |events| ==> Step(r, states[i], events[i], states[i + 1]);
    }
  }

  /** The blocks of a chain above genesis, in order. */
  function Delivery(U: Blocks, c: seq<Hash>, n: nat): (events: seq<Event>)
    requires n < |c| && forall i :: 0 <= i < |c| ==> c[i] in U
    ensures |events| == n
  {
    if n == 0 then [] else Delivery(U, c, n - 1) + [GotBlock(U[c[n]])]
  }

  lemma {:induction false} DeliveryHas(U: Blocks, c: seq<Hash>, n: nat, i: nat)
    requires i < n < |c| && forall i :: 0 <= i < |c| ==> c[i] in U
    ensures Delivery(U, c, n)[i] == GotBlock(U[c[i + 1]])
  {
    if i < n - 1 {
      DeliveryHas(U, c, n - 1, i);
    }
  }

  lemma DeliveryIsDrawn(r: Rules, genesis: Block, U: Blocks, c: seq<Hash>, n: nat)
    requires Offerable(r, genesis, U) && n < |c| && forall i :: 0 <= i < |c| ==> c[i] in U
    ensures Drawn(r, genesis, Delivery(U, c, n), U)
  {
    forall i | 0 <= i < n
      ensures Delivery(U, c, n)[i] == GotBlock(U[c[i + 1]])
    {
      DeliveryHas(U, c, n, i);
    }
  }

  lemma NextDelivered(r: Rules, genesis: Block, U: Blocks, c: seq<Hash>, n: nat, s: View)
    requires Offerable(r, genesis, U) && IsChain(r, U, c) && c[0] == r.hash(genesis) && 0 < n < |c|
    requires Inv(r, s) && Within(s.blocks, U) && s.chain == c[..n] && s.limbo == {}
    ensures var s' := Added(r, s, U[c[n]]);
            s'.chain == c[..n + 1] && s'.limbo == {} && Within(s'.blocks, U) && Settled(r, s')
  {
    var b := U[c[n]];
    assert Follows(r, U, c, n);
    ChainIsStored(r, s, n - 1);
    assert s.chain[n - 1] == c[n - 1];
    hide IsChain, Inv, Linked, BlockIndex;
    assert Acceptable(r, s.blocks, b) && Extends(s, b);
  }

  /** Delivering a chain in order makes it the chain. */
  lemma {:induction false} ChainDelivered(r: Rules, genesis: Block, U: Blocks, c: seq<Hash>, n: nat)
    returns (states: seq<View>)
    requires Offerable(r, genesis, U) && IsChain(r, U, c) && c[0] == r.hash(genesis) && n < |c|
    ensures Run(r, genesis, Delivery(U, c, n), states)
    ensures states[n].chain == c[..n + 1] && states[n].limbo == {} && Within(states[n].blocks, U)
  {
    if n == 0 {
      states := [Init(r, genesis)];
    } else {
      hide Inv, Within, Settled, Added;
      var before := ChainDelivered(r, genesis, U, c, n - 1);
      var s, b := before[n - 1], U[c[n]];
      DeliveryIsDrawn(r, genesis, U, c, n - 1);
      RunIsCanonical(r, genesis, Delivery(U, c, n - 1), U, before, n - 1, 0);
      NextDelivered(r, genesis, U, c, n, s);
      OneMore(r, genesis, Delivery(U, c, n - 1), before, GotBlock(b), Added(r, s, b));
      states := before + [Added(r, s, b)];
    }
  }

  lemma ChainIsStored(r: Rules, s: View, i: nat)
    requires Inv(r, s) && i < |s.chain|
    ensures s.chain[i] in s.blocks && s.blocks[s.chain[i]].height == i
  {
  }

  /** All the blocks of `keys`, in some order. */
  lemma {:induction false} ListAll(U: Blocks, keys: set<Hash>) returns (events: seq<Event>)
    requires keys <= U.Keys
    ensures forall i :: 0 <= i < |events| ==> events[i].GotBlock? && exists h :: h in keys && events[i].block == U[h]
    ensures forall h :: h in keys ==> GotBlock(U[h]) in events
    decreases |keys|
  {
    if keys == {} {
      events := [];
    } else {
      var h :| h in keys;
      var rest := ListAll(U, keys - {h});
      events := [GotBlock(U[h])] + rest;
      forall k | k in keys
        ensures GotBlock(U[k]) in events
      {
        assert k != h ==> k in keys - {h} && GotBlock(U[k]) in rest;
      }
    }
  }

  /** A run that receives a chain first and then everything else. */
  lemma ChainFirst(r: Rules, genesis: Block, U: Blocks, c: seq<Hash>) returns (events: seq<Event>, states: seq<View>)
    requires Offerable(r, genesis, U) && IsChain(r, U, c) && c[0] == r.hash(genesis)
    ensures Run(r, genesis, events, states) && Offered(r, genesis, events, U)
    ensures |c| <= |states| && states[|c| - 1].chain == c
  {
    var n := |c| - 1;
    var first := ChainDelivered(r, genesis, U, c, n);
    var rest := ListAll(U, U.Keys);
    DeliveryIsDrawn(r, genesis, U, c, n);
    events := Delivery(U, c, n) + rest;
    forall i | 0 <= i < |events| && events[i].GotBlock? && r.ok(events[i].block)
      ensures r.hash(events[i].block) in U && U[r.hash(events[i].block)] == events[i].block
    {
      assert events[i] == if i < n then Delivery(U, c, n)[i] else rest[i - n];
    }
    assert forall e :: e in rest ==> e in events;
    states := Continue(r, genesis, U, Delivery(U, c, n), first, rest);
    assert states[n] == first[n] && c[..n + 1] == c;
  }

  // ---------- The conditions are necessary ----------

  /** What was once the chain is attached, inside its window, to every later tip. */
  lemma LaterTipIsAttached(r: Rules, genesis: Block, U: Blocks, events: seq<Event>, states: seq<View>, m: nat,
                           c: seq<Hash>)
    requires Run(r, genesis, events, states) && Drawn(r, genesis, events, U)
    requires m <= |events| && states[m].chain == c && |c| > 1
    ensures var s := states[|events|]; Attached(r, U, c, s.chain[Top(s)])
  {
    var s, k := states[|events|], Floor(|c| - 1) + 1;
    RunIsFinal(r, genesis, events, U, states, m, |events|, k);
    RunIsCanonical(r, genesis, events, U, states, |events|, 0);
    ChainGrows(r, s.blocks, U, s.chain);
    ChainDescends(r, U, s.chain, Top(s), k);
  }

  /** Some run gets as high as any rooted block. */
  lemma SomeRunReaches(r: Rules, genesis: Block, U: Blocks, x: Hash) returns (events: seq<Event>, states: seq<View>)
    requires Offerable(r, genesis, U) && Rooted(r, U, r.hash(genesis), x)
    ensures Run(r, genesis, events, states) && Offered(r, genesis, events, U)
    ensures Top(states[|events|]) >= U[x].height
  {
    var up := PathTo(r, U, r.hash(genesis), x);
    events, states := ChainFirst(r, genesis, U, up);
    RunIsCanonical(r, genesis, events, U, states, |events|, |up| - 1);
  }

  /** Some run ends with a tip attached to any given chain. */
  lemma SomeRunStaysOn(r: Rules, genesis: Block, U: Blocks, c: seq<Hash>)
    returns (events: seq<Event>, states: seq<View>, h: Hash)
    requires Offerable(r, genesis, U)
    requires IsChain(r, U, c) && |c| > 1 && c[0] == r.hash(genesis)
    ensures Run(r, genesis, events, states) && Offered(r, genesis, events, U)
    ensures Rooted(r, U, r.hash(genesis), h) && Attached(r, U, c, h)
    ensures U[h].height == Top(states[|events|])
  {
    events, states := ChainFirst(r, genesis, U, c);
    RunIsCanonical(r, genesis, events, U, states, |events|, 0);
    TipIsRooted(r, states[|events|], U);
    LaterTipIsAttached(r, genesis, U, events, states, |c| - 1, c);
    h := states[|events|].chain[Top(states[|events|])];
  }

  lemma SameHeightNeedsNoDeadEnd(r: Rules, genesis: Block, U: Blocks, c: seq<Hash>) returns (h: Hash)
    requires Offerable(r, genesis, U) && SameHeight(r, genesis, U)
    requires IsChain(r, U, c) && |c| > 1 && c[0] == r.hash(genesis)
    ensures Tallest(r, r.hash(genesis), U, h) && Attached(r, U, c, h)
  {
    hide IsChain, Attached;
    var x := SomeTallest(r, r.hash(genesis), U, U.Keys);
    var events, states;
    events, states, h := SomeRunStaysOn(r, genesis, U, c);
    var events', states' := SomeRunReaches(r, genesis, U, x);
    assert Top(states[|events|]) == Top(states'[|events'|]);
  }

  /** Order does not matter, exactly if the window leaves no dead end: all runs that receive
      the same blocks end at the same height if and only if from every chain a tallest block
      can still be reached. */
  lemma OrderDoesNotMatterIff(r: Rules, genesis: Block, U: Blocks)
    requires Offerable(r, genesis, U)
    ensures SameHeight(r, genesis, U) <==> NoDeadEnd(r, r.hash(genesis), U)
  {
    var g := r.hash(genesis);
    if SameHeight(r, genesis, U) {
      forall c | IsChain(r, U, c) && |c| > 1 && c[0] == g
        ensures exists h :: Tallest(r, g, U, h) && Attached(r, U, c, h)
      {
        var h := SameHeightNeedsNoDeadEnd(r, genesis, U, c);
      }
    }
    if NoDeadEnd(r, g, U) {
      var x := SomeTallest(r, g, U, U.Keys);
      forall events: seq<Event>, states: seq<View>, events': seq<Event>, states': seq<View> |
        Run(r, genesis, events, states) && Offered(r, genesis, events, U) &&
        Run(r, genesis, events', states') && Offered(r, genesis, events', U)
        ensures Top(states[|events|]) == Top(states'[|events'|])
      {
        FinalHeight(r, genesis, U, events, states, x);
        FinalHeight(r, genesis, U, events', states', x);
      }
    }
  }

  /** Two runs that receive the same blocks, in any order and with any repetition, end at one
      height, if the window leaves no dead end. */
  lemma OrderDoesNotMatter(r: Rules, genesis: Block, U: Blocks, events: seq<Event>, states: seq<View>,
                           events': seq<Event>, states': seq<View>)
    requires Run(r, genesis, events, states) && Offered(r, genesis, events, U)
    requires Run(r, genesis, events', states') && Offered(r, genesis, events', U)
    requires NoDeadEnd(r, r.hash(genesis), U)
    ensures Top(states[|events|]) == Top(states'[|events'|])
  {
    OrderDoesNotMatterIff(r, genesis, U);
  }

  /** Where every higher block forks inside the window there is no dead end. */
  lemma ShallowForksHaveNoDeadEnd(r: Rules, genesis: Block, U: Blocks)
    requires Offerable(r, genesis, U) && ShallowForks(r, r.hash(genesis), U)
    ensures NoDeadEnd(r, r.hash(genesis), U)
  {
    var g := r.hash(genesis);
    var x := SomeTallest(r, g, U, U.Keys);
    forall c | IsChain(r, U, c) && |c| > 1 && c[0] == g
      ensures exists h :: Tallest(r, g, U, h) && Attached(r, U, c, h)
    {
      if U[x].height < |c| {
        var n := |c| - 1;
        ChainDescends(r, U, c, n, n);
        ChainIsRooted(r, U, c, n);
        assert Tallest(r, g, U, c[n]) && Attached(r, U, c, c[n]);
      }
    }
  }

  /** If the block is stored after the event it was before, or the event brought it. */
  ghost predicate CameIn(s: View, e: Event, s': View, h: Hash) {
    h in s'.blocks ==> e == GotBlock(s'.blocks[h]) || (h in s.blocks && s'.blocks[h] == s.blocks[h])
  }

  lemma {:induction false} AllCameIn(events: seq<Event>, states: seq<View>, n: nat, h: Hash)
    requires |states| == |events| + 1 && n <= |events|
    requires forall i :: 0 <= i < n ==> CameIn(states[i], events[i], states[i + 1], h)
    requires h in states[n].blocks
    ensures h in states[0].blocks || GotBlock(states[n].blocks[h]) in events
  {
    if n > 0 {
      assert CameIn(states[n - 1], events[n - 1], states[n], h);
      if events[n - 1] != GotBlock(states[n].blocks[h]) {
        AllCameIn(events, states, n - 1, h);
      }
    }
  }

  /** Blocks come into a store only by being received. */
  lemma StoredWasReceived(r: Rules, genesis: Block, events: seq<Event>, states: seq<View>, n: nat, h: Hash)
    requires Run(r, genesis, events, states) && n <= |events| && h in states[n].blocks
    ensures h == r.hash(genesis) || GotBlock(states[n].blocks[h]) in events
  {
    hide Step, CameIn;
    forall i | 0 <= i < n
      ensures CameIn(states[i], events[i], states[i + 1], h)
    {
      RunStep(r, genesis, events, states, i);
      StoredBefore(r, states[i], events[i], states[i + 1], h);
    }
    AllCameIn(events, states, n, h);
  }

  lemma StoredBefore(r: Rules, s: View, e: Event, s': View, h: Hash)
    requires |s.chain| > 0 && Step(r, s, e, s')
    ensures CameIn(s, e, s', h)
  {
    hide Index, TxsIn;
  }

  /** The blocks of one chain and then those of another. */
  lemma BothDelivered(U: Blocks, c: seq<Hash>, d: seq<Hash>)
    requires |c| > 0 && |d| > 0 && forall h :: h in c || h in d ==> h in U
    ensures var events := Delivery(U, c, |c| - 1) + Delivery(U, d, |d| - 1);
            && (forall i :: 0 < i < |d| ==> GotBlock(U[d[i]]) in events)
            && (forall e :: e in events ==> exists h :: (h in c || h in d) && h in U && e == GotBlock(U[h]))
  {
    var n, m := |c| - 1, |d| - 1;
    var events := Delivery(U, c, n) + Delivery(U, d, m);
    forall i | 0 <= i < |events|
      ensures events[i] == GotBlock(U[if i < n then c[i + 1] else d[i - n + 1]])
    {
      if i < n { DeliveryHas(U, c, n, i); } else { DeliveryHas(U, d, m, i - n); }
    }
    forall i | 0 < i < |d|
      ensures GotBlock(U[d[i]]) in events
    {
      assert events[n + i - 1] == GotBlock(U[d[i]]);
    }
  }

  lemma InUIsDrawn(r: Rules, genesis: Block, events: seq<Event>, U: Blocks)
    requires Offerable(r, genesis, U)
    requires forall e :: e in events ==> exists h :: h in U && e == GotBlock(U[h])
    ensures Drawn(r, genesis, events, U)
  {
    assert forall i :: 0 <= i < |events| ==> events[i] in events;
  }

  /** A run that receives one chain and then another. */
  lemma TwoChains(r: Rules, genesis: Block, U: Blocks, c: seq<Hash>, d: seq<Hash>)
    returns (events: seq<Event>, states: seq<View>)
    requires Offerable(r, genesis, U) && IsChain(r, U, c) && c[0] == r.hash(genesis)
    requires IsChain(r, U, d) && d[0] == r.hash(genesis)
    ensures Run(r, genesis, events, states) && Drawn(r, genesis, events, U)
    ensures |c| <= |states| && states[|c| - 1].chain == c
    ensures forall i :: 0 < i < |d| ==> GotBlock(U[d[i]]) in events
    ensures forall e :: e in events ==> exists h :: (h in c || h in d) && h in U && e == GotBlock(U[h])
  {
    hide Drawn, Offerable, Follows;
    var n := |c| - 1;
    var first := ChainDelivered(r, genesis, U, c, n);
    var rest := Delivery(U, d, |d| - 1);
    events := Delivery(U, c, n) + rest;
    BothDelivered(U, c, d);
    InUIsDrawn(r, genesis, events, U);
    states := Continue(r, genesis, U, Delivery(U, c, n), first, rest);
    assert states[n] == first[n] && c[..n + 1] == c;
  }

  /** On the chain that leads up to a block lies everything the block descends from. */
  lemma {:induction false} DescendsOnPath(r: Rules, U: Blocks, d: seq<Hash>, i: nat, k: Hash)
    requires IsChain(r, U, d) && i < |d| && U[d[0]].height == 0 && Descends(r, U, d[i], k) && k in U
    ensures exists j :: 0 <= j <= i && d[j] == k
    decreases i
  {
    if d[i] != k {
      if i > 0 {
        assert Follows(r, U, d, i);
        DescendsOnPath(r, U, d, i - 1, k);
      }
    }
  }

  /** A run that received a whole chain is at least as high, if it is always the highest. */
  lemma ReceivedChainCounts(r: Rules, genesis: Block, U: Blocks, events: seq<Event>, states: seq<View>, d: seq<Hash>)
    requires AlwaysHighest(r, genesis, U) && Run(r, genesis, events, states) && Drawn(r, genesis, events, U)
    requires IsChain(r, U, d) && d[0] == r.hash(genesis) && Rooted(r, U, r.hash(genesis), d[|d| - 1])
    requires forall i :: 0 < i < |d| ==> GotBlock(U[d[i]]) in events
    ensures Top(states[|events|]) >= |d| - 1
  {
    var s, h := states[|events|], d[|d| - 1];
    RunIsCanonical(r, genesis, events, U, states, |events|, 0);
    RunKeeps(r, genesis, events, U, states, |events|);
    forall k | k in U && k != r.hash(genesis) && Descends(r, U, h, k)
      ensures GotBlock(U[k]) in events
    {
      DescendsOnPath(r, U, d, |d| - 1, k);
    }
    ReceivedRootedIsStored(r, genesis, events, U, s, h);
    assert Highest(r, s);
  }

  lemma AlwaysHighestNeedsShallow(r: Rules, genesis: Block, U: Blocks, c: seq<Hash>, h: Hash)
    requires Offerable(r, genesis, U) && AlwaysHighest(r, genesis, U)
    requires IsChain(r, U, c) && |c| > 1 && c[0] == r.hash(genesis)
    requires Rooted(r, U, r.hash(genesis), h) && U[h].height >= |c|
    ensures Attached(r, U, c, h)
  {
    hide IsChain, Attached, AlwaysHighest;
    var d := PathTo(r, U, r.hash(genesis), h);
    var events, states := TwoChains(r, genesis, U, c, d);
    ReceivedChainCounts(r, genesis, U, events, states, d);
    TallTipIs(r, genesis, U, events, states, c, d);
    LaterTipIsAttached(r, genesis, U, events, states, |c| - 1, c);
  }

  /** After two chains only the top of the higher one can be as high as that. */
  lemma TallTipIs(r: Rules, genesis: Block, U: Blocks, events: seq<Event>, states: seq<View>, c: seq<Hash>,
                  d: seq<Hash>)
    requires Run(r, genesis, events, states) && Drawn(r, genesis, events, U)
    requires IsChain(r, U, c) && IsChain(r, U, d) && |d| > |c|
    requires forall e :: e in events ==> exists h :: (h in c || h in d) && h in U && e == GotBlock(U[h])
    requires Top(states[|events|]) >= |d| - 1
    ensures states[|events|].chain[Top(states[|events|])] == d[|d| - 1]
  {
    var s := states[|events|];
    RunIsCanonical(r, genesis, events, U, states, |events|, 0);
    var t := s.chain[Top(s)];
    TipIsRooted(r, s, U);
    StoredWasReceived(r, genesis, events, states, |events|, t);
    var k :| (k in c || k in d) && k in U && GotBlock(s.blocks[t]) == GotBlock(U[k]);
    assert k == t;
    assert forall i :: 0 <= i < |c| ==> U[c[i]].height < |c|;
    assert forall i :: 0 <= i < |d| ==> U[d[i]].height == i;
  }

  /** The chain is the highest there is, as far as the node can know, in every state of every
      run, if and only if whatever is higher than a chain forks from it inside the window. */
  lemma AlwaysHighestIff(r: Rules, genesis: Block, U: Blocks)
    requires Offerable(r, genesis, U)
    ensures AlwaysHighest(r, genesis, U) <==> ShallowForks(r, r.hash(genesis), U)
  {
    if AlwaysHighest(r, genesis, U) {
      forall c, h |
        IsChain(r, U, c) && |c| > 1 && c[0] == r.hash(genesis) && Rooted(r, U, r.hash(genesis), h) && U[h].height >= |c|
        ensures Attached(r, U, c, h)
      {
        AlwaysHighestNeedsShallow(r, genesis, U, c, h);
      }
    }
    if ShallowForks(r, r.hash(genesis), U) {
      forall events: seq<Event>, states: seq<View>, n: nat |
        Run(r, genesis, events, states) && Drawn(r, genesis, events, U) && n <= |events| && |states[n].chain| > 0
        ensures Highest(r, states[n])
      {
        ShallowForksKeepHighest(r, genesis, U, events, states, n);
      }
    }
  }
}
