/** The block store as a value: what a node has stored, which of it is its chain, and the
    three ways that value changes (a block arrives, limbo is scanned, branches are swapped).
    `Store` keeps the same information in maps and arrays and is proved against this. */
module ChainModel {

  datatype Hash = Hash(digest: nat)
  datatype Tx = Tx(content: nat)
  datatype Block = Block(height: nat, prev: Hash, txs: seq<Tx>, seal: nat)

  /** What the node computes but the model leaves open: the two hashes, the check of a
      block by itself, and the check of a block against its parent. */
  datatype Rules = Rules(hash: Block -> Hash, txHash: Tx -> Hash,
                         ok: Block -> bool, link: (Block, Block) -> bool)

  const REASONABLE_CONFIRMATIONS: nat := 6

  type Blocks = map<Hash, Block>

  /** `chain[i]` is the block at height `i`; `txs` maps a transaction to the block holding it. */
  datatype View = View(blocks: Blocks, chain: seq<Hash>, limbo: set<Hash>,
                       txs: map<Hash, Hash>, pool: set<Hash>)

  // ---------- Links and chains ----------

  predicate Link(r: Rules, parent: Block, child: Block) {
    && child.prev == r.hash(parent)
    && child.height == parent.height + 1
    && r.link(parent, child)
  }

  /** `h` is stored, its parent is stored, and the two fit together. */
  predicate Linked(r: Rules, blocks: Blocks, h: Hash) {
    && h in blocks
    && blocks[h].prev in blocks
    && Link(r, blocks[blocks[h].prev], blocks[h])
  }

  ghost predicate Hashed(r: Rules, blocks: Blocks) {
    forall h :: h in blocks ==> r.hash(blocks[h]) == h
  }

  /** No gap, every entry states its own height, every entry follows from the one below. */
  ghost predicate IsChain(r: Rules, blocks: Blocks, c: seq<Hash>) {
    && |c| > 0
    && (forall i :: 0 <= i < |c| ==> c[i] in blocks && blocks[c[i]].height == i)
    && (forall i :: 0 < i < |c| ==> Follows(r, blocks, c, i))
  }

  ghost predicate Follows(r: Rules, blocks: Blocks, c: seq<Hash>, i: int)
    requires 0 < i < |c|
  {
    Linked(r, blocks, c[i]) && blocks[c[i]].prev == c[i - 1]
  }

  predicate OnChain(s: View, h: Hash) {
    h in s.blocks && s.blocks[h].height < |s.chain| && s.chain[s.blocks[h].height] == h
  }

  function Top(s: View): int {
    |s.chain| - 1
  }

  /** What holds in every reachable state. */
  ghost predicate Inv(r: Rules, s: View) {
    && Hashed(r, s.blocks)
    && IsChain(r, s.blocks, s.chain)
    && s.limbo <= s.blocks.Keys
    && (forall h :: h in s.blocks ==> h in s.limbo || OnChain(s, h))
  }

  /** Limbo holds nothing that is on the chain. */
  ghost predicate Exact(s: View) {
    forall h :: h in s.limbo ==> !OnChain(s, h)
  }

  // ---------- Transactions ----------

  function Hashes(r: Rules, ts: seq<Tx>): set<Hash> {
    set t | t in ts :: r.txHash(t)
  }

  function TxsOf(r: Rules, b: Block): set<Hash> {
    Hashes(r, b.txs)
  }

  /** The transactions of the blocks listed in `c`. */
  function TxsIn(r: Rules, blocks: Blocks, c: seq<Hash>): set<Hash> {
    set h, t | h in c && h in blocks && t in TxsOf(r, blocks[h]) :: t
  }

  function BlockIndex(r: Rules, b: Block, h: Hash): map<Hash, Hash> {
    map t | t in TxsOf(r, b) :: h
  }

  /** The index entries of a branch, written from its top block down. */
  function Index(r: Rules, blocks: Blocks, br: seq<Hash>): map<Hash, Hash>
    requires forall i :: 0 <= i < |br| ==> br[i] in blocks
  {
    if br == [] then map[] else Index(r, blocks, br[1..]) + BlockIndex(r, blocks[br[0]], br[0])
  }

  /** `txs` knows exactly the transactions on the chain, each at a chain block that holds it. */
  ghost predicate IndexExact(r: Rules, s: View) {
    && s.txs.Keys == TxsIn(r, s.blocks, s.chain)
    && forall t :: t in s.txs ==> OnChain(s, s.txs[t]) && t in TxsOf(r, s.blocks[s.txs[t]])
  }

  // ---------- Tracing a block back to the chain ----------

  /** Blocks at or below this height are too old to fork from. */
  function Floor(top: int): nat {
    if top >= REASONABLE_CONFIRMATIONS then top - REASONABLE_CONFIRMATIONS else 0
  }

  datatype Trace = Found(common: Hash) | Missing(wanted: Hash) | TooOld(oldest: Hash) | Invalid(bad: Hash)

  function TraceBack(r: Rules, s: View, h: Hash): Trace
    decreases if h in s.blocks then s.blocks[h].height else 0
  {
    if h !in s.blocks then Missing(h)
    else if s.blocks[h].height <= Floor(Top(s)) then TooOld(h)
    else if OnChain(s, h) then Found(h)
    else if s.blocks[h].prev !in s.blocks then Missing(s.blocks[h].prev)
    else if !Linked(r, s.blocks, h) then Invalid(h)
    else TraceBack(r, s, s.blocks[h].prev)
  }

  function Verdict(t: Trace): int {
    match t
    case Found(_) => 1
    case Missing(_) => 0
    case TooOld(_) => 0
    case Invalid(_) => -1
  }

  /** `br`, lowest block first, is a run of valid off-chain blocks on top of `chain[at]`. */
  ghost predicate Branch(r: Rules, s: View, at: int, br: seq<Hash>) {
    && 0 <= at < |s.chain|
    && (forall i :: 0 <= i < |br| ==> br[i] in s.blocks && !OnChain(s, br[i]))
    && (forall i :: 0 <= i < |br| ==> Rests(r, s, at, br, i))
  }

  ghost predicate Rests(r: Rules, s: View, at: int, br: seq<Hash>, i: int)
    requires 0 <= at < |s.chain| && 0 <= i < |br|
  {
    Linked(r, s.blocks, br[i]) && s.blocks[br[i]].prev == Below(s.chain[at], br, i)
  }

  /** The block that position `i` of a branch on `common` rests on. */
  function Below(common: Hash, br: seq<Hash>, i: nat): Hash
    requires i <= |br|
  {
    if i == 0 then common else br[i - 1]
  }

  /** `h` sits on top of such a run, and the run starts inside the confirmation window. */
  ghost predicate Reaches(r: Rules, s: View, h: Hash, at: int, br: seq<Hash>) {
    && Branch(r, s, at, br)
    && at > Floor(Top(s))
    && h == Below(s.chain[at], br, |br|)
  }

  // ---------- Steps ----------

  function Elems(c: seq<Hash>): set<Hash> {
    set h | h in c
  }

  /** Swap everything above `chain[at]` for `br`. */
  ghost function Reverted(r: Rules, s: View, at: int, br: seq<Hash>): View
    requires 0 <= at < |s.chain|
    requires forall i :: 0 <= i < |br| ==> br[i] in s.blocks
  {
    var dropped := s.chain[at + 1..];
    View(s.blocks,
         s.chain[..at + 1] + br,
         s.limbo + Elems(dropped) - Elems(br),
         (s.txs - TxsIn(r, s.blocks, dropped)) + Index(r, s.blocks, br),
         s.pool + TxsIn(r, s.blocks, dropped) - TxsIn(r, s.blocks, br))
  }

  /** A limbo block that would make the chain higher and can be attached to it. */
  ghost predicate Candidate(r: Rules, s: View, h: Hash) {
    h in s.limbo && h in s.blocks && s.blocks[h].height > Top(s) && TraceBack(r, s, h).Found?
  }

  ghost predicate Settled(r: Rules, s: View) {
    forall h :: h in s.limbo ==> !Candidate(r, s, h)
  }

  /** The branch under the highest candidate. */
  ghost predicate Chosen(r: Rules, s: View, at: int, br: seq<Hash>) {
    && br != []
    && Reaches(r, s, br[|br| - 1], at, br)
    && at + |br| > Top(s)
    && forall h :: h in s.limbo && Candidate(r, s, h) ==> s.blocks[h].height <= at + |br|
  }

  ghost predicate Scanned(r: Rules, s: View, s': View) {
    || (Settled(r, s) && s' == s)
    || (exists at, br :: Chosen(r, s, at, br) && s' == Reverted(r, s, at, br))
  }

  predicate Acceptable(r: Rules, blocks: Blocks, b: Block) {
    r.ok(b) && (b.prev in blocks ==> Link(r, blocks[b.prev], b))
  }

  predicate Extends(s: View, b: Block)
    requires |s.chain| > 0
  {
    b.height == Top(s) + 1 && b.prev == s.chain[Top(s)]
  }

  /** Store an acceptable block, on the chain if it extends the tip and in limbo otherwise. */
  function Added(r: Rules, s: View, b: Block): View
    requires |s.chain| > 0
  {
    var h := r.hash(b);
    if !Acceptable(r, s.blocks, b) then s
    else if Extends(s, b) then
      s.(blocks := s.blocks[h := b], chain := s.chain + [h], txs := s.txs + BlockIndex(r, b, h))
    else
      s.(blocks := s.blocks[h := b], limbo := s.limbo + {h})
  }

  /** A stored block with the same hash is the same block. */
  predicate NoCollision(r: Rules, blocks: Blocks, b: Block) {
    r.hash(b) in blocks ==> blocks[r.hash(b)] == b
  }

  /** A block about to be stored collides with no stored block. */
  predicate Fresh(r: Rules, s: View, b: Block) {
    Acceptable(r, s.blocks, b) ==> NoCollision(r, s.blocks, b)
  }

  ghost predicate Received(r: Rules, s: View, b: Block, s': View)
    requires |s.chain| > 0
  {
    Scanned(r, Added(r, s, b), s')
  }

  function Init(r: Rules, genesis: Block): View {
    var g := r.hash(genesis);
    View(map[g := genesis], [g], {}, BlockIndex(r, genesis, g), {})
  }
}
