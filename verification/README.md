# Freecoin, modelled and proved

Freecoin is an unfinished cryptocurrency node in C, with an older Python prototype. This
project models what its functions are meant to do and proves what the node relies on.

- **The block store** (`ChainModel`, `Reorg`, `ChainTxs`, `ForkChoice`, `RunOrder`, `Witness`,
  `Containers`, `StoreLemmas`, `Store`, `Node`). A node keeps five indexes: blocks by hash, the chain by height, limbo
  by height, transactions by hash, and the mempool. `Store.Dbs` is a class with those indexes
  as maps and arrays and the source's loops over them. A ghost field `view` (blocks, chain as a
  sequence, limbo and pool as sets, index) says what they stand for, and every operation is
  proved to change `view` as a function or relation of `ChainModel` says. The theorems about
  single steps, and about all runs, are lemmas about those; `Node.Play` feeds the databases a
  run. Where a promise fails, `Witness` has a run that breaks it.
- **SHA-256 and the Merkle root** (`Sha256`, `Fips180`, `Primes`, `Merkle`). The streaming
  context, byte by byte and round by round, against FIPS 180-4. `Fips180` says the standard a
  second time, by single bits, by roots of primes and by recurrences on words, and proves both
  the same. The in-place reduction of an array of hash buffers against a recursive definition.
- **Wire formats** (`Bytes`, `TxCodec`, `BlockCodec`, `Fields`). Transactions whose headers fix
  their own length, and blocks that hold them one after the other; `Fields` gives the literal
  positions.
- **Numbers** (`Bignum`, `Retarget`). Multiplication with a 16-bit accumulator, byte-wise
  comparison, and the target rule along a chain.
- **Block lists, the queue and the old ledger** (`BlockList`, `Queue`, `Ledger`, `Change`).

`dafny verify dfyconfig.toml` checks the whole project. Paths with line numbers are those of
Freecoin; README.md with a line number is its README.

## What is assumed

- The two hashes, the check of a block by itself and the check of a block against its parent
  are fields of `Rules` and can be any functions. No injectivity is assumed: an operation that
  stores a block requires only that no other stored block has its hash (`Fresh`), and a
  statement about a run requires that the offered blocks are a map by hash (`Drawn`).
- A message is handled as one atomic step.
- A limbo level holds at most `maxLevel` hashes (LIMBO_MAX_LEVEL_SIZE is not defined anywhere)
  and the mempool has a fixed size that the source never tests during a swap. `LevelsFit` says
  that no more blocks of one height are stored than a level holds, and `RoomToSwap` that the
  pool can take in the transactions of the blocks that the swap about to be made drops; nothing
  is assumed when there is none. `WindowRoomSuffices` bounds that by the blocks in the window.
  `Node.Play` asks for it at the block messages only (`RoomAllAlong`), in runs that pool as a
  node with that pool does (`NodeRun`).
  `LimboSafeAdd` and `HashArray.Add` say what a full level does.
- The mempool is always there, as `m_dbs_init` allocates it.

## Where the source was repaired

- src/data.c:326-327 swaps key and value of a chain entry; height to hash, as in 343-350.
- src/data.c:514 passes the tip first; the common block goes first, as in 136-140.
- src/data.c:516-523: the `else` belongs to the outer `if` (README.md:305-314). As the code
  does, and unlike README.md:309, the scan goes on after a swap without swapping again.
- src/data.c:377-404: the height of a database is its highest key, 0 when empty.
- src/network.c:201-206: a block that fails its check is dropped. The check of a block looks at
  its parent if the parent is stored. `height > 2` in the sorting test is dropped
  (`SourceTestsMissOneCase` says what it misses); README.md:292-303 gives the three cases.
- src/data.c:239-251 indexes the transactions of every block; only blocks that join the chain
  are indexed (README.md:413). `data_txs_add` at 204 gets the block's hash as well.
- src/validation.c:24-39: a missing block ends the trace with 0, an unfit one with -1, and the
  chain is asked at the block's height. The subtraction at 28 does not go below zero
  (`UnsignedWindowIsEmpty` says what it does as written).
- src/array.c: equality, not difference, is the match; full means `length >= size`; the
  search ends at `length`; the updated array is written back.
- src/data.c:615-625: the last element is the one at the lowered count.
- src/crypto.c:143-150: the shifts that give the big-endian digest are put back.
- src/blocks.c:88 reads the four-byte transaction count; src/util.c:64 and 73 read plain
  big-endian numbers.
- src/bignum.c:10-16: operands have zeros above their top. src/blockchain.c:28 reads the
  one-byte target, and 59-68 multiplies by four little-endian bytes into 36.
- src/queue.c:7-16: the size starts at 0. A take from an empty queue gives -1, not an exit.
- src/build.c:37 copies into the caller's buffer.

## What turned out false, and exactly when it holds

- Limbo is exactly the stored blocks off the chain: not if a peer sends a chain block again,
  which is filed in limbo as well. `AddedKeepsExactIff` gives the condition for one step,
  `RunStaysExactIff` for runs, `SentTwice` a run that fails. Everything else is proved without it.
- The index is exact after a swap: `RevertIndexExactIff`. A coinbase that repeats
  (src/mine/mine.c:130-132) is the way it fails, as in the run of `RepeatedTxIsForgotten`.
- A transaction is in the pool or on the chain, not both. Three steps can break it: a swap
  (`RevertSeparatesPoolIff`); an extension (`ExtensionKeepsPoolApartIff`), because
  src/network.c:219 does not clean the pool, although README.md:236 says so; and a transaction
  message (`PoolingStepKeepsApartIff`), because src/network.c:228-246 looks at the count only.
  `PooledThenConfirmed` and `ConfirmedThenPooled` are runs that end in it.
- The chain can be overwritten without deleting: `NoStaleEntriesIff`.
- The final height does not depend on the order of arrival: if and only if the window leaves no
  dead end, `OrderDoesNotMatterIff`; `OrderMattersAtGenesis` shows two orders that end at
  different heights. The chain is always the highest there is if and only if whatever is higher
  forks inside the window, `AlwaysHighestIff`.
- `big_compare` orders the little-endian numbers of its file: `ComparesLittleEndianIff`.
- The cap on the next target (src/blockchain.c:71-73) never takes effect: `AllOnesIsLargest`.
- Outputs and change are worth at most the inputs: exactly for outputs none of which is
  negative, or one of which is zero and never passes, `CreatesNothingIff`. There an output
  counts as often as inputs list it, because docs/OLD/Class/Block.py:70-86 looks for double
  spending in other transactions only. Counted once, it holds exactly if no output worth
  anything is named twice, `ConservesIff`; `OneOutputPaysTwice` is an example.
- A block list is the chain above the start: not within 256 of the highest 32-bit height,
  `ListedIsBatchIff`; asking on from there reaches the tip under `FetchReachesTipIff`.

## Model

| member | source | states |
|---|---|---|
| Reorg.RevertKeepsInv | src/data.c:136-224 | swapping in any valid branch leaves a gapless, linked chain and loses no stored block from chain and limbo (include/validation.h:4-8) |
| Reorg.RevertKeepsExact | src/data.c:180-213 | if limbo was exactly the stored blocks off the chain, it still is after a swap |
| Reorg.AddedKeepsExactIff | src/network.c:199-224 | an arriving block keeps limbo exact if and only if it is not filed where the node already has it in the other place |
| Reorg.AddedKeepsInv | src/network.c:199-224 | storing an arriving block, on the tip or in limbo, keeps the store canonical |
| Reorg.ReceiveKeepsInv | src/network.c:189-227 | the whole block message keeps the store canonical, leaves nothing attachable above the chain, and never lowers it |
| Reorg.TraceBackExact | src/validation.c:10-39 | the verdict is 1 if and only if a valid branch of stored off-chain blocks, forking inside the confirmation window, ends in the block |
| Reorg.TraceBackInvalidExact | src/validation.c:24-39 | the verdict is -1 if and only if the way down meets a stored block that does not fit its stored parent before it meets the chain or leaves the window |
| Reorg.MissingExact | include/validation.h:32-35 | the trace stops at a missing block if and only if that is the block itself, or the way down, over stored off-chain blocks inside the window, ends in a block whose parent it is |
| Reorg.TooOldExact | src/validation.c:28-31 | it gives up as too old at a block if and only if the way down leaves the window there |
| Reorg.ScanKeepsOrphan | src/data.c:500-524 | a limbo block whose parent is missing is still in limbo after the scan |
| Reorg.TraceSound | src/validation.c:24-39 | a positive verdict comes with the branch and the common block it forks from |
| Reorg.TraceComplete | src/validation.c:24-39 | every branch inside the window is found, at its own common block |
| Reorg.BranchUnique | src/data.c:185-218 | following prev_hash from a block down to the chain gives one branch only, so a swap is determined by its tip |
| Reorg.GenesisIsNeverCommon | src/validation.c:28-31 | with the saturating window no branch from the genesis block is ever taken up |
| Reorg.TraceAfterRevert | src/data.c:500-522 | whatever can be attached after a swap could be attached before it, though chain and limbo changed in the middle of the scan |
| Reorg.RevertSettles | src/data.c:500-522 | after a swap to the highest candidate no limbo block above the new chain can be attached |
| Reorg.ScanIsMaximal | src/data.c:479-530 | a scan leaves a canonical store, at least as high, with nothing attachable above it |
| Reorg.ScanIsIdempotent | src/data.c:479-530 | a second scan changes nothing |
| ChainTxs.RevertIndexExactIff | src/data.c:166-210 | after a swap the index holds exactly the chain's transactions if and only if what the dropped blocks repeat from the kept chain comes back with the branch |
| ChainTxs.AddedKeepsIndexExact | src/data.c:232-263 | storing a block keeps the transaction index exact |
| ChainTxs.ReceiveKeepsIndexExact | src/network.c:189-227 | a block message keeps the index exact on a chain that repeats no transaction |
| ChainTxs.RevertLosesNoTx | src/data.c:168-210 | pool and chain together lose no transaction in a swap and gain only the branch's, none of which stays pooled |
| ChainTxs.RevertSeparatesPoolIff | src/data.c:168-210 | after a swap no transaction is in pool and chain at once, if and only if nothing pooled or dropped is also in the kept chain and missing from the branch |
| ChainTxs.ExtensionKeepsPoolApartIff | src/network.c:213-224 | extending the chain keeps pool and chain apart if and only if the block confirms nothing pooled |
| ChainTxs.PoolingKeepsPoolApartIff | src/network.c:228-246 | pooling a transaction keeps pool and chain apart if and only if the chain does not have it |
| ChainTxs.RevertKeepsPoolApart | src/data.c:168-210 | a swap keeps pool and chain apart on a chain that repeats no transaction |
| ForkChoice.RunIsCanonical | src/network.c:189-246 | every state of every run of block and transaction messages is canonical, and the chain never gets lower |
| ForkChoice.StepIsFinal | src/validation.c:28-31 | no message changes a chain entry up to one above the floor of the confirmation window |
| ForkChoice.RunIsFinal | src/validation.c:28-31 | finality: what a chain holds up to that height, every later chain of the run holds, for all runs |
| ForkChoice.DistinctRunKeepsIndex | src/data.c:232-263 | the index is exact all along a run whose chains repeat no transaction |
| ForkChoice.PoolingStepKeepsApartIff | src/network.c:228-246 | a transaction message keeps pool and chain apart if and only if it is not taken up or the chain does not have it |
| ForkChoice.ApartRunStaysApart | src/network.c:189-246 | no transaction is ever in pool and chain at once along a run in which no tip confirms what is pooled, no confirmed transaction is pooled and no chain repeats one |
| RunOrder.AlwaysHighestIff | src/data.c:479-530 | in every state of every run no stored block with valid links to genesis is above the chain, if and only if every block as high as a chain is long forks from that chain inside the window |
| RunOrder.RunStaysExactIff | src/network.c:189-227 | limbo is exactly the stored blocks off the chain in all states of a run if and only if no acceptable block arrives that is on the chain then |
| RunOrder.ExtendingIsNew | src/network.c:214-219 | in every state a run leaves, a block that extends the tip is not in limbo already |
| RunOrder.FinalHeight | README.md:238 | if from every chain above genesis a tallest block can be reached inside the window, a run ends at the height of the tallest offered block with valid links to genesis |
| RunOrder.OrderDoesNotMatterIff | README.md:238 | all runs offered the same blocks, in any order and with any repetition, end at the same height if and only if from every chain above genesis a tallest block can be reached inside the window |
| RunOrder.OrderDoesNotMatter | README.md:238 | under that condition any two runs offered the same blocks end at the same height |
| RunOrder.ShallowForksHaveNoDeadEnd | src/validation.c:28-31 | if whatever is higher than a chain forks from it inside the window, that condition holds |
| RunOrder.ScanExists | src/data.c:479-530 | from every canonical store a scan has an outcome, so every run can go on |
| Witness.OrderMattersAtGenesis | src/validation.c:28 | two orders of one child of genesis and a longer branch next to it end at heights 1 and 2 |
| Witness.SentTwice | src/network.c:199-213 | a block sent twice ends on the chain and in limbo |
| Witness.RepeatedTxIsForgotten | src/mine/mine.c:130-132 | a coinbase in two blocks of a chain, the upper one of which is swapped away, is forgotten by the index although the chain has it |
| Witness.PooledThenConfirmed | src/network.c:213-219 | a transaction and then the tip that holds it ends in pool and chain at once |
| Witness.ConfirmedThenPooled | src/network.c:228-246 | so does a block and then a transaction of it |
| StoreLemmas.NoStaleEntriesIff | src/data.c:214 | overwriting chain entries from the top down leaves exactly the new chain if and only if the branch ends at least as high as the old one |
| StoreLemmas.LevelHasRoom | src/data.c:425-436 | a stored block missing from its level finds the level short of full |
| StoreLemmas.WindowRoomSuffices | src/data.c:168-176 | a pool with room for the chain's transactions above the lowest fork in the window has room for every swap |
| StoreLemmas.SourceTestsMissOneCase | src/network.c:203-213 | the sorting tests as written pass over exactly a block of height 2 on a lone genesis block |
| StoreLemmas.UnsignedWindowIsEmpty | src/validation.c:28 | the unsigned subtraction as written puts every block outside the window below height 6 and agrees with the model from there on |
| Containers.SwapRemoveExact | src/array.c:29-42 | moving the last element into the hole removes one occurrence and keeps all others |
| Containers.SwapRemoveDistinct | src/array.c:29-42 | among distinct elements it removes that one and no other, and they stay distinct |
| Containers.HashArray.Add | src/array.c:14-27 | refuses exactly when full or present, otherwise appends; elements stay distinct |
| Containers.HashArray.Del | src/array.c:29-42 | removes exactly the element, if it is there |
| Containers.Mempool.Exists | src/data.c:603-610 | the search agrees with the set of pooled hashes |
| Containers.Mempool.Add | src/data.c:587-601 | pools the transaction unless its hash is pooled; hashes stay distinct |
| Containers.Mempool.Del | src/data.c:612-630 | removes and returns exactly the transaction with the hash, if there is one |
| Store.HighestKey | src/data.c:377-404 | the loop over a database finds its highest height |
| Store.Dbs.ChainHeight | src/data.c:370-373 | the highest key of the chain database is the height of the tip |
| Store.Dbs.ChainExists | src/data.c:356-368 | true exactly if the chain has this hash at this height |
| Store.Dbs.ChainSafeSet | src/data.c:320-333 | a stored block becomes the entry at its own height; an unknown one changes nothing |
| Store.Dbs.LimboSafeAdd | src/data.c:416-441 | the block is listed in limbo unless its level is full and lacks it |
| Store.Dbs.LimboDel | src/data.c:448-473 | the block is listed in limbo no more, everything else is |
| Store.Dbs.MempoolAdd | src/data.c:587-601 | with a slot free the transaction is pooled, once, and nothing else changes |
| Store.Dbs.DropOld | src/data.c:157-183 | the downward loop moves every block above the common one to limbo and its transactions from the index to the pool |
| Store.Dbs.AdoptNew | src/data.c:185-218 | the loop that stops on height alone stops exactly at the common block, with the branch indexed, unpooled, out of limbo and on the chain |
| Store.Dbs.Revert | src/data.c:136-224 | blocks unchanged, chain the old prefix and the branch, limbo and pool plus old minus new, index without old and with new; fails only for an unknown common block |
| Store.Dbs.TraceFrom | src/validation.c:24-39 | following prev_hash through the databases gives the verdict of the specification, and ends |
| Store.Dbs.ConnectableToChain | include/validation.h:20-29 | 1 and -1 exactly in the two cases described for the trace-back |
| Store.Dbs.LimboScan | src/data.c:479-530 | at most one swap, to the highest candidate; asks exactly for blocks at which the way down from limbo stops, and for every missing one: above the level of the swap as limbo was, below it as the swap left it |
| Store.Dbs.ReceiveBlock | src/network.c:189-227 | the block message is one step of the model, on the real databases, with the asking of the scan; a missing parent of a block above the chain is asked for |
| Store.Dbs.ParentIsAsked | README.md:313 | that parent is asked for, whether or not the scan swaps, while the block is inside the window |
| Store.Dbs.ReceiveTx | src/network.c:228-246 | the transaction is pooled while there is room; pool and chain stay apart if and only if there is none or the chain does not have it |
| Node.Play | src/network.c:189-246 | databases fed with messages from genesis on go through a run of the model in which the pool takes a transaction exactly while there is room, if at each block message that pool has room for the swap that follows, if one does; offered all blocks, without dead ends, their chain ends as high as the tallest |
| Sha256.BlocksConcat | src/crypto.c:86-101 | blocks can be fed to the compression function one after the other |
| Fips180.ChBits | src/crypto.c:9 | bit by bit the first argument chooses between the other two |
| Fips180.MajBits | src/crypto.c:10 | bit by bit two equal arguments win |
| Fips180.BigSigma0Bits | src/crypto.c:11 | bit i is the parity of bits i + 2, i + 13 and i + 22, modulo 32 |
| Fips180.BigSigma1Bits | src/crypto.c:12 | bit i is the parity of bits i + 6, i + 11 and i + 25, modulo 32 |
| Fips180.SmallSigma0Bits | src/crypto.c:13 | bit i is the parity of bits i + 7 and i + 18, modulo 32, and i + 3 if there is one |
| Fips180.SmallSigma1Bits | src/crypto.c:14 | bit i is the parity of bits i + 17 and i + 19, modulo 32, and i + 10 if there is one |
| Primes.PrimesInOrder | src/crypto.c:16-26 | the table of 64 primes is increasing and holds every prime up to 311 |
| Fips180.ConstantIsCubeRoot | src/crypto.c:16-26 | constant t is the first 32 bits of the fraction of the cube root of prime t |
| Fips180.InitialIsSquareRoot | src/crypto.c:71-84 | the initial words are those of the square roots of the first eight primes |
| Fips180.CompressIsNext | src/crypto.c:29-69 | the compression of a block is given by two recurrences on words and the schedule's, without registers |
| Fips180.BlocksAreChained | src/crypto.c:86-101 | the blocks of a padded message are compressed first to last, from the initial words |
| Fips180.PadIsPadded | src/crypto.c:108-138 | the padding is a one bit, the fewest zeros that fill the last block, and the length in bits, read high byte first |
| Fips180.DigestWords | src/crypto.c:140-151 | the digest is the eight words, each high byte first |
| Fips180.HashIsChained | src/crypto.c:71-152 | the hash of every message is read off those recurrences over its padded blocks |
| Sha256.LastBlock | src/crypto.c:115-120 | with fewer than 56 bytes left, rest, padding and length in one block complete the hash of FIPS 180-4 |
| Sha256.LastTwoBlocks | src/crypto.c:121-128 | otherwise two blocks do |
| Sha256.LengthWords | src/crypto.c:130-138 | the two-word counter is the message length in bits modulo 2^64, high byte first |
| Sha256.Ctx.RunRounds | src/crypto.c:47-59 | the 64 rounds of section 6.2.2 |
| Sha256.Ctx.Transform | src/crypto.c:29-69 | one block through the compression function |
| Sha256.Ctx.Update | src/crypto.c:86-101 | the context then stands for the message with these bytes appended |
| Sha256.Ctx.Final | src/crypto.c:108-152 | the digest written is the hash of the whole message, for both padding branches |
| Sha256.HashPieces | src/crypto.c:71-152 | however a message is split into updates, the digest is its hash |
| Merkle.RootCommits | src/transactions.c:163-193 | two leaf lists of one length with the same root are equal, or two inputs with one hash are exhibited |
| Merkle.NextLevelAt | src/transactions.c:170-191 | hash k of the next level is that of hash 2k followed by hash 2k + 1, or by itself again at an odd end |
| Merkle.RootOfHalves | src/transactions.c:163-193 | the root is the hash of the root of the first 2^d leaves followed by what d passes make of the rest |
| Merkle.SmallRoots | src/transactions.c:163-193 | the roots of one, two and three leaves |
| Merkle.SmallBodies | src/transactions.c:135-163 | the leaves are the hashes of the transactions in the order of the body |
| Merkle.RepeatedLastLeaf | src/transactions.c:180-191 | an odd list of at least three leaves has the root of itself with its last leaf repeated |
| Merkle.ReductionCost | src/transactions.c:163-193 | ceil(log2 n) passes and at most n - 1 + ceil(log2 n) pair hashes |
| Merkle.HashInto | src/transactions.c:170-176 | slot k receives the hash of slot i followed by slot j, everything else stays |
| Merkle.Pass | src/transactions.c:165-191 | one pass turns the level in the slots into the next level, slots and spare staying the same separate buffers |
| Merkle.Reduce | src/transactions.c:163-201 | the root ends in slot 0, slots and spare are a permutation of the buffers allocated, with the stated number of passes and hashes |
| Merkle.ComputeMerkleRoot | src/transactions.c:135-202 | the root of the body's transactions is written, for every count of at least one |
| TxCodec.EncodeDecodes | src/transactions.c:21-90 | a transaction is 10 + 290 ins + 36 outs bytes, states that size itself, and decodes to itself |
| TxCodec.DecodeEncodes | src/transactions.c:71-90 | bytes of version 1 that have the size they state are the encoding of what they decode to |
| Fields.TxHeaderFields | include/shared.h:84-89 | version, counts and lock time are found at bytes 0, 2, 4 and 6, high byte first |
| Fields.InputFields | include/shared.h:99-103 | the spent hash, index, key and signature are found at 0, 32, 34 and 162 of an input |
| Fields.OutputFields | include/shared.h:111-113 | address and amount are found at 0 and 32 of an output |
| Fields.TxBody | src/transactions.c:85-89 | input i lies at 10 + 290 i, output i at 36 i after the inputs |
| TxCodec.TxGen | src/transactions.c:71-90 | header and body are laid out as encoded |
| TxCodec.TxInGen | src/transactions.c:92-104 | an input is laid out as encoded |
| TxCodec.TxOutGen | src/transactions.c:106-110 | an output is laid out as encoded |
| TxCodec.MTxGen | src/transactions.c:21-56 | the encoding and its SHA-256 hash in memory of their own, refused exactly above the maximum size |
| TxCodec.WalkFindsAll | src/blocks.c:86-93 | transactions written in a row are found again by their own sizes, whatever follows |
| TxCodec.WalkIsPrefix | src/blocks.c:86-93 | what a walk finds is what the body begins with |
| BlockCodec.BlockDecodesTxs | src/blocks.c:76-93 | walking a block from byte 83 recovers exactly its transactions in order, and the count states how many |
| BlockCodec.BlockDecodesHeader | src/blocks.c:39-58 | every header field is read back as it was written |
| Fields.BlockFields | include/shared.h:135-143 | the block fields are found at 0, 2, 6, 10, 42, 74, 75 and 79, the transactions from 83 on |
| BlockCodec.DecodingIsUnique | src/blocks.c:39-93 | no buffer is two different blocks |
| BlockCodec.BlockAddHeader | src/blocks.c:39-58 | the buffer is then the empty block with these fields |
| BlockCodec.BlockAddTx | src/blocks.c:76-84 | the transaction is appended and counted, unless the block would reach 2^20 bytes, and then nothing changes |
| BlockCodec.BlockComputeSize | src/blocks.c:86-93 | 83 plus 10 + 290 ins + 36 outs for each transaction |
| BlockCodec.BlockUpdateRoot | src/blocks.c:67-74 | the root field is the Merkle root of the body, all else as it was |
| Bytes.UintRoundTrip | src/util.c:62-88 | four bytes and the number they stand for determine each other |
| Bignum.UshortIsBigEndian | src/util.c:70-79 | two bytes stand for their value with the high byte first, written and read |
| Bignum.UintIsBigEndian | src/util.c:62-88 | so do four |
| Bignum.BigMult | src/bignum.c:6-21 | the exact product of operands of any widths |
| Bignum.AddRow | src/bignum.c:10-20 | one row turns the low j bytes of a times b into the low j + 1 bytes times b |
| Bignum.AccumulatorFits | src/bignum.c:12-18 | the accumulator never exceeds 65535 |
| Bignum.RowEnd | src/bignum.c:10-20 | no carry is lost at the top, and after row j the result is b times the low j + 1 bytes of a |
| Bignum.BigCompare | src/bignum.c:30-40 | the order of two numbers read with the high byte first |
| Bignum.ComparesLittleEndianIff | src/bignum.c:30-40 | on little-endian numbers that order is right if and only if the first and last differing bytes differ in one direction |
| Bignum.ComparesLittleEndianWrongly | src/bignum.c:3 | it is wrong on 1 and 256 |
| Retarget.ComputeNextTarget | src/blockchain.c:19-90 | the target is 0 by the testnet rule, scaled by the clamped interval at multiples of 144, kept otherwise |
| Retarget.NextTargetUnique | src/blockchain.c:19-90 | the rule fixes the target |
| Retarget.NextTargetCases | src/blockchain.c:19-90 | 0 by the testnet rule, kept off multiples of 144, scaled by the elapsed time on them |
| Retarget.IntervalIsElapsed | src/blockchain.c:46-53 | the interval is the time from the earlier block to this one inside 5040 to 80640, and the nearer bound outside |
| Retarget.IntervalOfEarlierBlock | src/blockchain.c:46-53 | a block dated before the one that opened its interval counts as the longest, up to the wrap, exactly |
| Retarget.TestnetIff | src/blockchain.c:19-33 | the testnet rule applies 20 minutes after the block, and to a block dated ahead of the clock, exactly |
| Retarget.ProductFits | src/blockchain.c:46-68 | a 32-byte target times a clamped interval has only zeros from byte 36 up, however wide the result |
| Retarget.AllOnesIsLargest | src/blockchain.c:71-75 | the comparison with all ones is never positive, so the cap is never used |
| Retarget.TargetConstant | src/blockchain.c:35-85 | outside the testnet rule the target is constant on heights 144k + 1 to 144(k + 1) |
| BlockList.ListEnd | src/build.c:21-29 | the wrapping bounds give the tip or the requested end, the requested end for a start above the tip, and an end before the start if the requested one wraps |
| BlockList.BuildBlockList | src/build.c:12-41 | for every 32-bit start height the list of `Listed`: the chain hashes above the start, as far as asked and as far as the chain goes, except where a bound wraps |
| BlockList.ListedIsBatchIff | src/build.c:21-29 | that exception, exactly: something is asked for, the requested end passes 2^32, and the chain is higher than the start or the start is at the last height |
| BlockList.BatchExact | src/build.c:21-39 | entry i is the chain hash at i + 1 above the start, as many as asked for and available, none for a start at the tip or above |
| BlockList.BatchContinuesIff | src/network.c:110-116 | the list continues from the start block if and only if that is on the chain |
| BlockList.BatchLinked | src/build.c:32-39 | each listed block follows from the one before |
| BlockList.NextStart | src/network.c:110-116 | the last hash of a list stands on the chain as far above the start as the list is long, so the next request from it continues there |
| BlockList.FetchReachesTipIff | src/network.c:110-116 | asking from a chain block and then from the last hash received brings the whole chain above the start, in order, if and only if the last request needed does not wrap |
| BlockList.NotStoredExact | src/build.c:52-63 | an announced hash is asked for if and only if it is not stored |
| BlockList.BuildMissingBlocksList | src/build.c:52-63 | the announced hashes not stored, in their order |
| Queue.Queue.Enqueue | src/queue.c:30-43 | links mirror each other, size is the length, a copy of the bytes is the newest entry |
| Queue.Queue.Dequeue | src/queue.c:44-62 | the oldest entry comes out unchanged and its size is returned |
| Queue.Perform | src/queue.c:7-62 | over any run of operations what came out and what is left are those of the first-in first-out run, every take on a nonempty queue taking the oldest entry |
| Queue.Step | src/queue.c:30-62 | a put appends; a take gives the oldest entry and leaves the rest, or gives nothing on an empty queue |
| Queue.FirstInFirstOut | src/queue.c:7-62 | in such a run what came out followed by what is left is what was put in, in order and unchanged |
| Queue.LeftIsBacklog | src/queue.c:7-62 | and the number of entries left is the largest excess of puts over takes since any moment |
| Ledger.TxAmountsValid | docs/OLD/Class/Block.py:87-112 | accepts exactly transactions with no more outputs than inputs, each output nonzero and funded, and returns the overwritten change |
| Change.ChangeEntries | docs/OLD/Class/Block.py:96-109 | an address is paid v if and only if the last input from it, in output and input order, that is worth more than the output it funds exceeds that by v |
| Change.ValueKeptIff | docs/OLD/Class/Block.py:96-112 | outputs and change are worth exactly what the inputs bring if and only if all value funds outputs, the inputs of each output, none counted above it, add up to it, and no address is given change twice |
| Change.OneToOneKeepsValue | docs/OLD/Class/Block.py:96-112 | in particular with one input for each output, from different addresses |
| Ledger.ItemWraps | docs/OLD/Class/Block.py:103 | a list index counts from the end when negative and fails outside the length |
| Ledger.NoValueCreated | docs/OLD/Class/Block.py:96-112 | outputs and change are worth no more than the listed inputs bring, if no amount is negative |
| Ledger.CreatesNothingIff | docs/OLD/Class/Block.py:96-112 | the check keeps outputs and change within the inputs, whatever those are worth, for exactly the outputs without a negative amount, or with a zero one, which never passes |
| Ledger.NegativeOutputCreatesValue | docs/OLD/Class/Block.py:96-111 | with a negative output two inputs of 10 yield 25 |
| Ledger.ConservesIff | docs/OLD/Class/Block.py:70-112 | whatever the inputs fund, outputs and change stay within the distinct outputs they name, if and only if none worth anything is named twice |
| Ledger.OneOutputPaysTwice | docs/OLD/Class/Block.py:70-112 | one output of 10 named by two inputs pays for two outputs of 10 |
| Ledger.WorkBlock.TxInputsSigned | docs/OLD/Class/Block.py:54-68 | passes exactly if every input resolves and is signed for, and names the first failure |
| Ledger.WorkBlock.AddTx | docs/OLD/Class/WorkBlock.py:60-72 | accepts exactly what passes every check and appends the change; with no negative amount the result is worth no more than the listed inputs, and no more than the distinct outputs spent if none is named twice; a rejected transaction is unchanged |

## Left out

- Berkeley DB: databases are maps, scanned in the order of their heights; its byte-wise key order, cursors and partial reads are not modelled.
- Sockets, threads, mutexes, framing and peers: a message handler is one step.
- The `<inv>` and `<getdata>` messages sent on extension, on a swap and on filing in limbo (src/network.c:207-211, src/data.c:516-521): only the hashes a scan asks for are modelled.
- `valid_connectable_to_chain` with `check_validity` 0: the node never calls it so, and without link checks nothing bounds the trace.
- Transactions inside the store: `ChainModel` has them as values with a hash; that a body is walked by sizes is `TxCodec`.
- The size of allocations and failure to allocate; the buffers that `queue_fatal` and `m_tx_die` free.
- `target_to_etarget`, `etarget_to_target` and `big_div`: without bodies in the source, any functions here; nothing is said about the ratio of targets.
- `block_inc_nonce`, hex conversion and field accessors: they would only add easy members.
- `build_mempool_list` and `build_missing_tx_list`: the same loops as the block lists.
- Mining, alerts, ping, pong and peer messages, signatures: clock, network or library code.
- `output_used` and the ledger-wide search for double spending: the condition at docs/OLD/Class/Block.py:83 leaves the intent open; `used` is any function.
- Merkle.RepeatedLastLeaf: not for a single leaf, which is its own root.
- Sha256.Ctx.Update: takes fewer than 2^32 bytes at a time, because the loop counter has 32 bits.
- BlockList.BuildBlockList: the chain has fewer than 2^32 blocks, because the source adds one to the height of its tip.
- Store.Dbs.ReceiveBlock: assumes that no limbo level overflows and that the pool has room for what the swap drops, if there is one; a full level loses a block (LimboSafeAdd), a full mempool has no defined behaviour in the source.
