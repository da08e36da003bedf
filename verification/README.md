# A proof-of-stake blockchain node, verified in Dafny

This project models the node's protocol logic: how it chooses between branches of the block tree,
how blocks travel between nodes, how account balances are kept per block, how blocks are made,
written, sent, reassembled and checked, and the containers underneath. `dafny verify dfyconfig.toml`
checks everything.

## The main results

**Fork choice** (`ForkChoice.dfy`, `Blockchain.dfy`). `blockchain_add_block` maintains one pointer,
the principal leaf, by a three-way comparison that looks only at the new block and the current
branch. `RunIsGreedy` shows that in every run this pointer is the end of a global walk: from the
virtual root always descend to the lowest-priority child, the first to arrive among equals.
`OrderIndependentExactly` says precisely when the outcome does not depend on the order of arrival:
if and only if no block of the chosen branch has a sibling of equal priority. `AbandonedForever`
shows that a block dropped from the principal branch never comes back.

**Network** (`Node.dfy`, `NodeRuns.dfy`, `Network.dfy`, `Endpoint.dfy`, `Gossip.dfy`,
`Quiescence.dfy`). The handlers run as atomic steps of members connected by FIFO links. In every
reachable state nobody is handed a block before its parent, and nobody builds two blocks on one parent.
Gossip ends: as long as the guids in use and those that may still be created fit a history, under any
schedule only a bounded number of deliveries is possible before a timer fires (`GossipEnds`), and then,
on a connected network, all members have the same tree and the same principal leaf
(`EveryGossipRunEndsInAgreement`). A message whose guid has been pushed out of the history is handled
again (`EvictedGuidIsHandledAgain`).

**Synchronisation** (`NodeRuns.dfy`, `Synchronisation.dfy`, `Collisions.dfy`, `HonestNetwork.dfy`). A
chain synchronisation does not always complete. The requester obtains the responder's whole branch if
and only if every answered block that it did not know commits, in its Merkle root, to the transactions
as they are written (`SyncOverBytes`). A node can hold a block that does not
(`ExtraElementIsAcceptedThenLost`). Where all blocks are made by block_create and all transactions are
signed, every block does and every synchronisation completes (`HonestSyncIsComplete`).

**Ledger** (`Ledger.dfy`, `Accounts.dfy`, `HashMap.dfy`). Balances read through the sparse
per-block account maps equal a replay of the branch, and a replayed balance is 1024 for each block the
key created plus what it received minus what it sent, counted over the branch (`BalanceModulo`). The
staking rule is stated over the blocks of the branch (`StakingRule`). The total supply satisfies an exact identity:
1024 per block, plus 2^64 for each overdraft, minus 2^64 for each credit that wraps. Where no
transfer overdraws, nothing wraps and the 32-bit delegate count is exact.

**Blocks on the wire** (`Tuple.dfy`, `Message.dfy`, `Framing.dfy`, `Merkle.dfy`, `Transaction.dfy`,
`BlockCodec.dfy`, `BlockBuilding.dfy`, `Delivery.dfy`). A block comes back from its tuple as itself
if and only if it is well formed and its parent is found (`RoundTripExactly`), and any tuple is
accepted if and only if it describes an admissible block (`AcceptedExactly`). Together with the
parser's round trip and the independence of `on_read` from how a stream is cut,
`CreatedBlockArrives` follows a block from `block_create` at one node to acceptance at another.

**Heap** (`Heap.dfy`). `heap_remove` at any index restores heap order although `move_to_top`
displaces a whole path of ancestors.

Methods follow the program's imperative code and are proved against functions; lemmas state what
those functions mean. A block is an immutable value that contains its previous block, so pointer
equality in the program is equality of values here. Hash collisions are excluded only where a lemma
says so: by a set of blocks, a universe, among which equal hashes mean equal blocks, or by a set of
hashed strings or pairs on which the hash is injective. `Collisions` derives the first from the second.
The libsodium primitives are arbitrary functions (`Cryptography.Crypto`); `KeyPair`, `UniqueOutput` and
`UniqueSignature` name what a lemma assumes of them. The handlers call block creation through a
parameter, `make`, that may fail at any moment; what it returns is a child of the given block under the
node's own key, holding the drained pool (`Makes`). Of each single call a lemma may ask that its result
is in the universe. `Delivery.BlockCreator` is block_create in that role, `BlockBuilding.BlockCreate`
computes it, and `Delivery.CreationStaysInUniverse` says when a call meets what is asked.

## Where the code and its documentation differ

The model follows the code.

- README.md:45-58 describes proof-of-work difficulty and weight; the compiled rule compares
  priorities (src/blockchain.c:59-86).
- include/blockchain.h:30-38 says that a direct fork of the principal chain becomes the new leaf; the
  code switches only if the fork has strictly lower priority.
- include/block.h:124-128 allows staking below height 16; the code allows it up to and including 16.
- README.md:36-37 says that a Merkle root identifies a transaction list. It does so only together
  with the count in the header (`RootAndCountBind`, `RootAloneDoesNotBind`).
- src/block.c:200 rejects a negative balance of an unsigned type, so it never rejects.
  `SupplyIdentity` states what then holds, `CoveredSupplyIsExact` what holds when every transfer is
  covered, which the intended check would enforce.
- The delegate of a root block is checked by nobody (src/block.c:458-468), so lowest priority is
  guaranteed only on top of another block (`CreatedHasLowestPriority`, `RootPriorityIsFree`).
- A transaction tuple may carry more elements than are read (src/transaction.c:44-60). The Merkle
  check then hashes other bytes than the rebuilt transaction (`RoutesHashTheSameBytes`), and the block
  is refused by everyone who receives it from a node that rebuilt it (`AcceptedBlocksCanBeSentOn`).
- on_timer asks whether the node has already built on the principal leaf (main/main.c:352); a leaf has
  no children, so it never has (`TimerExtendsThePrincipal`).

## Model

| member | source | states |
|---|---|---|
| Bytes.MemcmpIsNumericOrder | src/block.c:70-72 | memcmp on hashes and priorities orders them as big-endian numbers, zero exactly for equal buffers |
| Blocks.HasAncestorMeansOnBranch | src/block.c:660-665 | the recursive ancestor test holds exactly for NULL and for the blocks of the branch |
| ForkChoice.ChildTowardFindsTheFork | src/blockchain.c:73-78 | the walk back from the principal leaf finds a rival exactly when the new block's parent is on the branch below the leaf |
| ForkChoice.MinChildIsEarliestMin | include/block.h:112-114 | the global rule's child is the first to arrive among those of lowest priority, and exists exactly when there are children |
| ForkChoice.GreedyEndIsUnique | src/blockchain.c:62-85 | the greedy walk has one end |
| ForkChoice.ChooseKeepsGreedyEnd | src/blockchain.c:62-85 | the three-way incremental update of the principal keeps it at the end of the greedy walk |
| ForkChoice.PrincipalIsKnownLeaf | src/blockchain.c:66-67 | the principal is NULL exactly when no block is known and is always a known leaf, so the comparison never meets NULL |
| ForkChoice.RunIsGreedy | src/blockchain.c:44-95 | in every run with parents first, the principal is the greedy end and every block is kept |
| ForkChoice.SameUnlessTied | src/blockchain.c:62-85 | two nodes with the same blocks agree on the principal if nothing ties with its branch |
| ForkChoice.OrderIndependence | src/blockchain.c:44-95 | any two orders of the same blocks, repetitions included, end with the same principal when siblings differ in priority |
| ForkChoice.TieGoesToTheFirst | src/blockchain.c:66-85 | a tie on the principal branch can be turned by another order of arrival |
| ForkChoice.OrderIndependentExactly | src/blockchain.c:44-95 | the principal is independent of the order of arrival if and only if no block of its branch ties with a sibling |
| ForkChoice.ChooseImproves | src/blockchain.c:62-85 | every change of the principal improves the branch: lower priority at the fork, or an extension |
| ForkChoice.RunImproves | src/blockchain.c:62-85 | improvement accumulates over any stretch of a run |
| ForkChoice.PrincipalNeverReturns | src/blockchain.c:62-85 | once the principal has moved on it is never the same leaf again |
| ForkChoice.AbandonedForever | src/blockchain.c:62-85 | a block dropped from the principal branch never returns to it |
| ForkChoice.PrincipalIsBest | src/blockchain.c:62-85 | the principal branch is at least as good as the branch of every known block |
| BlockTree.ChildrenAreExact | src/blockchain.c:52-53 | a child list holds exactly the known blocks whose prev is that parent |
| BlockTree.ChildrenInOrder | src/blockchain.c:52-53 | children are listed in the order of their arrival |
| BlockTree.TransactionIndexIsExact | src/blockchain.c:54-57 | the transaction index resolves exactly the hashes of transactions in known blocks, and to one of them |
| BlockTree.LatestIsIndexed | src/blockchain.c:54-57 | of several transactions with one hash the index holds the last to arrive |
| BlockTree.Blockchain.GetBlock | src/blockchain.c:97-99 | a hash resolves to the known block with it, NULL exactly when there is none |
| BlockTree.Blockchain.GetChildWithPublicKey | src/block.c:224-231 | the first child of a block under a key, NULL exactly when there is none |
| BlockTree.Blockchain.WalkBack | src/blockchain.c:73-78 | the loop stops at the new block's parent exactly when the branch passes over it, with the rival in prev |
| BlockTree.Blockchain.Record | src/blockchain.c:50-57 | after recording, all lookup structures agree with the blocks that arrived |
| BlockTree.Blockchain.ChooseBranch | src/blockchain.c:59-86 | the branches of the update compute the incremental rule, and the callback fires exactly on a change |
| BlockTree.Blockchain.AddBlock | src/blockchain.c:44-95 | one insertion takes the whole state to the specified one, keeps the invariant, and reports duplicates |
| Pools.InsertAllIsUnion | src/pool.c:36-45 | adding transactions keeps the old pool in front, adds exactly the missing hashes, and keeps hashes distinct |
| Pools.ForkPointIsLowestCommonAncestor | main/main.c:376-381 | the loop of on_extended stops at the lowest common ancestor |
| Pools.AbandonedIsExact | main/main.c:376-381 | what is put back is exactly the transactions of the blocks that left the principal branch |
| Pools.AbandonedFromTheTop | main/main.c:376-381 | they are put back block by block from the old leaf down to the fork point |
| Pools.NothingLost | main/main.c:370-387 | after a reorganisation every formerly confirmed or pending hash is confirmed or pending |
| Pools.NothingInvented | main/main.c:370-387 | a reorganisation adds to the pool only what the abandoned blocks confirmed |
| Pools.Pool.Find | src/pool.c:36-39 | the position of a pending hash, or the size when it is not pending |
| Pools.Pool.Add | src/pool.c:36-45 | a transaction is appended unless its hash is pending |
| Pools.Pool.Remove | src/pool.c:52-54 | the element at the index is returned and the rest keeps its order |
| Pools.Pool.Drain | main/main.c:237-241 | the handlers' loop empties the pool in order |
| Pools.Pool.PutBack | main/main.c:376-382 | the walk from the old leaf puts back the abandoned transactions, and terminates |
| Nodes.Peer.Insert | src/blockchain.c:44-95 | insertion with on_extended as callback changes tree and pool together |
| Nodes.Peer.Parse | src/block.c:429 | a block is accepted exactly when its previous block is known |
| Nodes.Peer.TryCompete | main/main.c:235-246 | the node competes on a parent only if it has no child there, and broadcasts only what was added |
| Nodes.Peer.OnBlock | main/main.c:224-249 | the handler computes the specified reaction, blocks sent included |
| Nodes.Peer.OnBlocksResponse | main/main.c:255-285 | a response is handled from its last block to its first |
| Nodes.Peer.OnTimer | main/main.c:350-364 | the timer extends the principal leaf unless the node already did |
| Nodes.Peer.OnBlocksRequest | main/main.c:291-304 | the answer is the part of the principal branch above the requested block, leaf first |
| Nodes.Peer.OnTransaction | main/main.c:338-343 | a properly signed transaction is added unless its hash is pending |
| Nodes.Peer.OnPoolResponse | main/main.c:326-332 | so is each of a list, in order |
| NodeRuns.HandleBlockAdds | main/main.c:224-249 | handling a block adds exactly the accepted block and the created one to the tree |
| NodeRuns.NewBlockProvokesCompetition | main/main.c:235-246 | a new block on a parent on which the node has not built makes it build there, send the result, and nothing else |
| NodeRuns.TimerExtendsThePrincipal | main/main.c:350-364 | the timer always calls block_create, and its block becomes the principal leaf |
| NodeRuns.NoCallNoCreation | main/main.c:224-249 | unless it calls block_create, the handler inserts an accepted new block and does nothing else |
| NodeRuns.PoolAfterInsertion | main/main.c:370-387 | after an insertion the pool is the old one followed by exactly what the blocks that left the principal branch had confirmed, up to hash |
| NodeRuns.CompetitionEmptiesThePool | main/main.c:237-245 | competing leaves nothing pending but what the created block removed from the principal branch, and its block holds all that was pending |
| NodeRuns.ArrivedIsPending | main/main.c:338-343 | a properly signed transaction is pending afterwards, up to hash, and nothing else is new |
| NodeRuns.AllArrivedArePending | main/main.c:326-332 | so are all of a list |
| NodeRuns.ResponseInTwoParts | main/main.c:255-285 | the later part of a response is handled, and what it leads to is sent, before the earlier one |
| NodeRuns.ResponseSendsItsCreations | main/main.c:255-285 | over a response a node sends exactly the blocks under its key that it did not have before |
| NodeRuns.InsertionLosesNothing | main/main.c:370-387 | an insertion leaves every confirmed or pending hash confirmed or pending |
| NodeRuns.AnswerIsTheMissingPart | main/main.c:297-300 | the answer holds exactly the blocks of the branch that are not below the requested block |
| NodeRuns.AnswerIsAbsorbed | main/main.c:255-285 | processed last to first, exactly those answered blocks are gained at and below which nothing of the answer was lost |
| NodeRuns.SyncIsCompleteExactly | main/main.c:255-304 | whatever it asked with, the requester has the responder's whole principal branch if and only if every answered block it did not know came through, and then a branch at least as good |
| NodeRuns.EveryRunIsSound | main/main.c:224-364 | in every run of the handlers, transactions included, the principal is greedy, pool hashes are distinct, and each non-root parent has at most one own child |
| NodeRuns.StartIsSound | main/main.c:603-608 | a node that has made its first block satisfies what every run keeps |
| Network.NextIsNeverAnOrphan | src/network.c:203-225 | whatever is next on a link builds on a block its receiver knows |
| Network.ReceiptHandlesAndRelays | src/network.c:203-225 | a new message's block is known afterwards if its parent was; sent are the created block, then the message, which is not relayed under the null guid; a seen message does nothing |
| Network.SubmittedIsPending | main/main.c:338-343 | a submitted transaction is pending at that member and nothing else changes |
| Network.EventKeepsInv | src/network.c:203-225 | every event keeps the network invariant: members send what they know in causal order, and links deliver it |
| Network.ReachedKeepsInv | src/network.c:203-225 | the invariant holds in every reachable network |
| Network.GossipCoverage | src/network.c:156-167 | with nothing in flight, every guid a member sent has been sent by every member it reaches |
| Network.NewcomersShareABase | main/main.c:134-145 | two nodes that made their first blocks and synchronised with each other are a network the model can start from |
| Network.Agreement | src/network.c:203-225 | from a common base, with nothing in flight on a connected network, all trees are equal, and all principals unless one is tied |
| Network.Convergence | src/network.c:203-225 | so where siblings differ in priority all trees and principals are equal |
| Network.NoEquivocationAnywhere | main/main.c:235-246 | no member ever sees two blocks of one member's key on the same parent |
| Gossip.EveryGuidHandledOnce | src/network.c:216-224 | no member handles a guid twice, or one it originated, while its log fits its history |
| Gossip.FewGuidsFit | src/network.c:36-48 | as long as at most 1024 guids were used in all, nothing is evicted and nothing handled twice anywhere |
| Gossip.EvictedGuidIsHandledAgain | src/network.c:203-225 | a message handled before is left alone if and only if its guid is among the last 1024; otherwise it is handled and relayed a second time |
| Gossip.HandledTwice | src/network.c:36-48 | a member with 1025 messages in its log that relays the first of them again |
| Gossip.DeliveriesAreCounted | src/network.c:156-167 | deliveries equal the messages taken from all links |
| Gossip.TransmissionsAreBounded | src/network.c:156-167 | in a run in which nothing was evicted each link carried each guid at most once |
| Quiescence.ReceiptFillsSlot | src/network.c:216-224 | what a receipt adds to the log competes with the block received, and creating a block uses up the member's one slot on its parent |
| Quiescence.DeliveryKeepsBudget | main/main.c:235-246 | a delivery never raises the number of guids plus free slots |
| Quiescence.DeliveryDecreases | src/network.c:156-167 | every delivery lowers the measure by one |
| Quiescence.BudgetIsBounded | main/main.c:235-246 | there are at most members times parents in flight such slots |
| Quiescence.GossipEnds | src/network.c:203-225 | from any reached network whose guids and slots fit a history, under any schedule until a timer fires nothing is evicted and at most links times that number are ever delivered |
| Quiescence.EveryGossipRunEndsInAgreement | src/network.c:203-225 | when deliveries have run out, all members have the same blocks and principal |
| Quiescence.QuiescenceIsReached | src/network.c:203-225 | delivering what is in flight reaches a network with nothing in flight |
| Endpoints.Endpoint.MessageHistoryAdd | src/network.c:36-44 | a list that is the window over some guids becomes the window over those and the new one |
| Endpoints.Endpoint.MessageHistoryHas | src/network.c:46-48 | the search finds exactly the guids in the list |
| Endpoints.Endpoint.HandleMessage | src/network.c:203-225 | handler, new broadcast and relaying together are one receiving step of the network, the null guid included |
| Endpoints.Endpoint.OnTimer | main/main.c:350-364 | the timer with its broadcast is one step of the network |
| HashMaps.HashMap.GetEntry | src/util/map.c:64-72 | the search in a bucket finds the entry exactly when the map holds the key |
| HashMaps.HashMap.Get | src/util/map.c:74-78 | lookup in the buckets is lookup in the map they represent |
| HashMaps.HashMap.Set | src/util/map.c:80-111 | insertion or replacement, the previous value returned, size counting new keys |
| HashMaps.HashMap.Remove | src/util/map.c:114-128 | the key goes, its value is returned, and size stays as it was |
| Ledgers.SparseEqualsReplay | src/block.c:82-91 | the nearest version of a key on a branch holds exactly its replayed balance, and exists exactly when the replay knows the key |
| Ledgers.VersionsVisitTouchingBlocks | src/block.c:115-117 | following prev visits exactly the branch's blocks that touch the key |
| Ledgers.TouchingIsExact | src/block.c:166-218 | those blocks are the ones the key created, or sent or received in |
| Ledgers.TouchingDescends | src/block.c:115-117 | their heights strictly decrease along the walk |
| Ledgers.AgeIsForever | src/block.c:120 | once an account is old enough it is on every descendant, where only its balance decides about staking |
| Ledgers.StakingRule | src/block.c:107-121 | staking is allowed if and only if some block of the branch touches the key, its balance gives a delegate in 32 bits, and the height is at most 16 or some touching block lies 16 below |
| Ledgers.FounderMayStake | src/block.c:120 | the creator of a root may stake on every block above it on which its balance gives a delegate |
| Ledgers.ThriftyFounderMayStake | src/block.c:107-121 | so a founder that sends nothing always may, while what it earned fits |
| Ledgers.BalanceAfterTransfer | src/block.c:178-215 | one transfer moves its value from sender to recipient and changes no other balance |
| Ledgers.BalanceModulo | src/block.c:166-218 | every balance is 1024 per block created plus received minus sent, counted over the branch, modulo 2^64 |
| Ledgers.BalanceIsEarnedExactly | src/block.c:166-218 | it is exactly that where nothing overdraws or wraps |
| Ledgers.CoveredBalanceIsEarned | src/block.c:200 | so wherever every transfer is covered, and delegates are 1024ths of it |
| Ledgers.SupplyIdentity | src/block.c:166-218 | total supply is 1024 per block plus 2^64 per overdraft minus 2^64 per wrapped credit |
| Ledgers.SupplyModulo | src/block.c:166-218 | supply is 1024 per block modulo 2^64, and exactly that if and only if overdrafts and wraps balance |
| Ledgers.CoveredSupplyIsExact | src/block.c:200 | if every transfer is covered, supply is exact and nothing wraps |
| Ledgers.CoveredDelegates | src/block.c:323-326 | then delegates are at most the height and the narrowing to 32 bits loses nothing |
| Ledgers.UncoveredTransferNarrows | src/block.c:200 | an accepted overdraft that leaves its recipient without any delegate |
| Accounts.AccountStore.GetAccount | src/block.c:82-91 | the loop from leaf to root finds the version in force |
| Accounts.AccountStore.IsStakingAllowed | src/block.c:107-121 | the walk over versions decides the declarative staking rule |
| Accounts.AccountStore.ApplyTransfer | src/block.c:178-215 | debit then credit on the block's map, self-transfers included, is the transfer on the replayed table |
| Accounts.AccountStore.AreTransactionsValid | src/block.c:166-218 | the map built holds a version for exactly the keys the block touches, with the replayed balances; the verdict is always true |
| Tuples.TupleRoundTrip | src/tuple.c:79-163 | parsing the encoding of any nested tuple, whatever follows, gives the tuple and consumes exactly its encoding |
| Tuples.TupleInverse | src/tuple.c:79-163 | every accepted input's consumed prefix is the encoding of what was parsed |
| Tuples.EncodingIsPrefixFree | src/tuple.c:165-232 | no tuple's encoding is a prefix of another's |
| Tuples.WordRoundTrip | src/tuple.c:179-191 | 32- and 64-bit words are read back as written |
| Tuples.TupleParse | src/tuple.c:79-163 | the cursor loop with its recursion computes the grammar's parse and terminates |
| Tuples.Switch | src/tuple.c:99-159 | one round of the switch reads one element |
| Tuples.DynamicBuffer.WriteI32 | src/tuple.c:165-170 | appends the element's encoding in two's complement |
| Tuples.DynamicBuffer.WriteI64 | src/tuple.c:172-177 | appends the element's encoding in two's complement |
| Tuples.DynamicBuffer.WriteU32 | src/tuple.c:179-184 | appends the element's encoding |
| Tuples.DynamicBuffer.WriteU64 | src/tuple.c:186-191 | appends the element's encoding |
| Tuples.DynamicBuffer.WriteF32 | src/tuple.c:193-197 | appends the tag and the word |
| Tuples.DynamicBuffer.WriteF64 | src/tuple.c:199-203 | appends the tag and the word |
| Tuples.DynamicBuffer.WriteBool | src/tuple.c:205-209 | appends the tag and a byte that is 0 or 1 |
| Tuples.DynamicBuffer.WriteString | src/tuple.c:211-215 | appends the string with its terminator |
| Tuples.DynamicBuffer.WriteBinary | src/tuple.c:217-222 | appends tag, length and data |
| Messages.FrameFields | src/message.c:5-41 | every header field and the payload of a frame are read back as sent, whatever follows |
| Messages.SetGuid | src/message.c:13-17 | the loop over the words overwrites exactly the 16 bytes of the guid |
| Messages.Compose | src/network.c:177-184 | the setters and the copy in sequence build the frame |
| Framing.Reader.FindStart | src/network.c:254-259 | the loop finds the first magic number with a whole header behind it |
| Framing.FindsExactly | src/network.c:254-259 | the position found is the least at which the four magic bytes stand with a header behind them, and none is found if and only if there is none |
| Framing.FrameBehindPadding | src/network.c:292-295 | a frame behind bytes in which no message starts is delivered and the bytes dropped |
| Framing.PaddedFramesArrive | src/network.c:287-295 | frames with zeros before each are delivered as the frames alone |
| Framing.Reader.OnRead | src/network.c:272-317 | the splicing loop delivers the messages and leaves the residue of processing buffer and chunk at once |
| Framing.ProcessInSteps | src/network.c:272-317 | processing in two steps equals processing once |
| Framing.ResidueIsSettled | src/network.c:303-305 | what a read leaves holds no complete message |
| Framing.ChunkingIsIrrelevant | src/network.c:272-317 | however a stream is split into reads, messages and residue are the same |
| Framing.SameStreamSameMessages | src/network.c:272-317 | two ways of cutting one stream deliver the same |
| Framing.FramesArriveInOrder | src/network.c:177-201 | a concatenation of frames is delivered as exactly those frames in order |
| Framing.SentFramesAreReceived | src/network.c:177-317 | any split of sent frames delivers exactly them and leaves nothing |
| Framing.PartialFrameWaits | src/network.c:303-305 | the beginning of a frame stays in the buffer unchanged |
| Merkle.ComputeMerkleRoot | src/block.c:239-253 | the reduction in place leaves the pure root in front and touches nothing beyond the list |
| Merkle.RootIsTree | src/block.c:239-253 | pairwise reduction by levels is the tree that splits at the largest power of two |
| Merkle.RootOfFive | README.md:36-37 | the root of five hashes, of one, and of none |
| Merkle.RootAndCountBind | src/block.c:393 | root and count together determine the list, for pairs that do not collide |
| Merkle.RootAloneDoesNotBind | src/block.c:239-253 | every list of two or more has the root of a shorter list |
| Transactions.TransactionCreate | src/transaction.c:75-92 | the transaction made has the given fields, its hash and signature fit, and it is properly signed |
| Transactions.TransactionWrite | src/transaction.c:159-169 | appends the encoding of the transaction's tuple |
| Transactions.TransactionRoundTrip | src/transaction.c:94-123 | a transaction comes back from its tuple as itself exactly when it is properly signed |
| Transactions.RebuiltIsSigned | src/transaction.c:94-123 | whatever the tuple, only properly signed transactions are accepted |
| Transactions.RawBodyIsBody | src/transaction.c:44-60 | the raw bytes of a body equal the rewritten ones exactly when it has no extra elements |
| BlockCodec.RoutesAgree | src/block.c:260-298 | the tuple and the list route to the Merkle root hash the same bytes for written transactions |
| BlockCodec.RootOfTwo | src/block.c:239-253 | a pair is hashed as the first followed by the second |
| BlockCodec.HeaderLayout | src/block.c:591-602 | the bytes hashed for a block, field by field |
| BlockCodec.BlockLayout | src/block.c:604-615 | the bytes of a block: header, signature, transactions |
| BlockCodec.AcceptedExactly | src/block.c:409-494 | a tuple is accepted as a block if and only if it describes the block, commits to its raw transactions, names its previous block to the lookup, and the block is admissible |
| BlockCodec.RoutesHashTheSameBytes | src/block.c:260-298 | for any valid tuples the routes agree exactly when no transaction tuple has extra elements |
| BlockCodec.CreatedOnIsCreated | src/block.c:304-363 | at a given time exactly one block fits the description of the created one, namely that made |
| BlockCodec.RebuiltIsAdmissible | src/block.c:409-494 | an accepted block satisfies every condition on blocks but possibly the Merkle root over its rebuilt transactions |
| BlockCodec.UncommittedIsLost | src/block.c:393-406 | a block whose header does not commit to its transactions is refused by everyone when written anew |
| BlockCodec.CommitsUnlessExtra | src/block.c:260-298 | an accepted block commits to its transactions if and only if no extra elements were in its tuple, where no hashes collide |
| BlockCodec.RoundTripExactly | src/block.c:409-494 | a block comes back from its tuple as itself if and only if it is well formed, has fewer than 2^32 transactions, and its parent is found |
| BlockCodec.CreatedBlocksAreAccepted | src/block.c:304-363 | every created block with signed transactions survives writing, parsing and rebuilding where its parent is known |
| BlockCodec.AcceptedBlocksCanBeSentOn | src/block.c:604-615 | an accepted block, written anew, is accepted again where its parent is known if nothing extra was in its tuple, and by nobody otherwise |
| BlockCodec.ExtraElementIsAcceptedThenLost | src/transaction.c:44-60 | a block with one element after the nonce, accepted where it arrives first and by nobody it is sent on to |
| BlockCodec.OrphanIsTakenForRoot | src/block.c:429 | a block whose parent is unknown is rebuilt as a root and must be signed as one |
| BlockCodec.OrphanIsRefused | src/block.c:483-486 | so it is refused unless that other header was signed too or collides |
| BlockCodec.CreatedHasLowestPriority | src/block.c:332-348 | on a parent block no acceptable block of the same creator has lower priority |
| BlockCodec.RootPriorityIsFree | src/block.c:458-468 | at the root any delegate is accepted |
| BlockCodec.CreatedRootHasLowestPriorityIff | src/block.c:458-468 | a created root has the lowest priority if and only if delegate 0 beats all 2^32 |
| BlockBuilding.MerkleRootFromList | src/block.c:282-298 | the root over the transaction hashes, zeros for none |
| BlockBuilding.MerkleRootFromTuple | src/block.c:260-275 | the root over the hashes of the raw tuples, zeros for none |
| BlockBuilding.WriteHeader | src/block.c:591-602 | appends the encoding of the header |
| BlockBuilding.BlockWrite | src/block.c:604-615 | appends the encoding of the block's tuple |
| BlockBuilding.ComputeSeed | src/block.c:141-152 | the seed is the hash of the buffer holding the previous block's seed and key, or zeros |
| BlockBuilding.HashDelegate | src/block.c:338-340 | the delegate goes behind the output in the work buffer, whose hash is its priority |
| BlockBuilding.ChooseDelegate | src/block.c:332-345 | the loop finds the delegate of lowest priority, the first among equals |
| BlockBuilding.CountDelegates | src/block.c:323-326 | one for a root, else the delegates the balance allows |
| BlockBuilding.MakeBlock | src/block.c:304-351 | a block is made exactly when staking is allowed, with every field as specified |
| BlockBuilding.BlockCreate | src/block.c:304-363 | the same, and the new block's accounts are available afterwards |
| BlockBuilding.CheckBlock | src/block.c:383-407 | the checks decide validity of a tuple |
| BlockBuilding.CreateTransactions | src/block.c:474-478 | all transactions are rebuilt in order, or none if one does not verify |
| BlockBuilding.DelegateIsValid | src/block.c:458-468 | the delegate check on top of a block |
| BlockBuilding.ReadBlock | src/block.c:409-487 | the sequence of checks computes the rebuilt block or refuses |
| BlockBuilding.BlockCreateFromTuple | src/block.c:409-494 | the same, and an accepted block's accounts are available afterwards |
| Delivery.CreatedBlockArrives | src/network.c:177-317 | a created block, framed and cut into any reads, arrives as one message that yields the very same block |
| Delivery.RebuildingIsAcceptance | src/block.c:409-494 | for well-formed blocks, rebuilding at a node succeeds exactly when the handlers' rule accepts the block |
| Delivery.CreationStaysInUniverse | src/block.c:304-363 | block_create, called on a block of a collision-free universe with signed transactions, makes a block that is in it again unless something it hashes collides |
| Delivery.WellFormedBlockArrives | src/network.c:177-317 | a well-formed block, framed and cut into any reads, arrives as one message that yields the very same block |
| Delivery.ResponseParses | main/main.c:291-304 | a response is parsed back into the tuples of its blocks |
| Collisions.HashMeansOneBranch | src/block.c:591-602 | where no two strings hashed collide, equal block hashes mean equal blocks and branches |
| Collisions.UniverseIsInjective | src/block.c:591-602 | so the blocks for which only given strings are hashed are a universe in which a hash means one block |
| Collisions.SeedDependsOnBoth | src/block.c:141-152 | equal seeds mean equal seeds and creators of the previous blocks, NULL counting as zeros |
| Collisions.SeedFixesCreators | src/block.c:141-152 | the seed of a block fixes who created every block below it |
| Collisions.PriorityDependsOnBoth | src/block.c:338-340 | equal priorities mean equal outputs and delegates |
| Collisions.CreatedDrawsEveryDelegate | src/block.c:321-348 | a created block has the least priority over all delegates its balance gives, and delegate 0 at a root |
| Collisions.AcceptedDrewADelegate | src/block.c:440-468 | an accepted block proves its output for the seed, and its priority is the draw of a delegate its balance gives |
| Synchronisation.OnBlockTuple | main/main.c:224-249 | rebuilding from the tuple with a lookup in the tree, then handling, is one step over tuples |
| Synchronisation.OnBlocksResponseTuples | main/main.c:255-285 | the loop rebuilds each block with the tree the ones after it in the list have left |
| Synchronisation.WrittenBlockArrives | src/block.c:409-494 | a written block reaches a handler as itself if it is well formed and its parent is known, and not at all otherwise |
| Synchronisation.SyncOverBytes | main/main.c:255-304 | over bytes and any cut of them, the requester has the whole branch if and only if every answered block it did not know commits to its transactions |
| HonestNetwork.EveryBlockIsWellFormed | main/main.c:224-364 | where members use block_create and submit signed transactions, every block they ever hold is well formed and every pending transaction signed |
| HonestNetwork.NextBlockArrives | src/network.c:203-317 | the next block on any link, as bytes in any cut, is rebuilt by its receiver as the block the network model hands over |
| HonestNetwork.HonestSyncIsComplete | main/main.c:255-304 | in such a network a synchronisation always yields the whole branch |
| Heaps.RootIsLeast | src/util/heap.c:178-181 | the root of a heap is no greater than any element |
| Heaps.Heap.MoveToTop | src/util/heap.c:76-81 | the element arrives at the root, nothing is lost, and only pairs with the root can be out of order |
| Heaps.Heap.ShiftUp | src/util/heap.c:90-95 | repairs a heap broken above one element |
| Heaps.Heap.ShiftDown | src/util/heap.c:104-121 | repairs a heap broken below one element |
| Heaps.Heap.Add | src/util/heap.c:155-170 | adds the element, growing if needed, and keeps heap order |
| Heaps.Heap.Grow | src/util/heap.c:157-162 | twice the capacity, same contents |
| Heaps.Heap.Top | src/util/heap.c:178-181 | a least element, or nothing when empty |
| Heaps.Heap.Pop | src/util/heap.c:183-195 | returns the root and leaves a heap of the rest, or nothing when empty |
| Heaps.Heap.Remove | src/util/heap.c:172-176 | returns the element at any index and leaves a heap of exactly the rest |
| Heaps.PopsAreSorted | src/util/heap.c:183-195 | popping until empty yields the contents in order |

## Left out

- Sockets, timers, signals, connection setup, the HTTP server, the command line, JSON and hex output, settings: input and output around the protocol.
- The insides of BLAKE2b, Ed25519 and the VRF: abstract functions. Overlapping input and output of the hash in the Merkle reduction is not modelled.
- Memory management, ownership and leaks: values are used; `list_t` and `dynamic_buffer_t` are sequences, `array` is used where the program works in place.
- on_connect, on_handshake and the peers messages, which exchange addresses, and on_pool_request, which writes out the pool.
- The disabled mining code and the game theory of README.md: not part of the running program. Proofs of list membership, which README.md mentions, are not implemented by it either.
- Fairness and probability of the lottery, and the content of timestamps: not decided by this code.
- Network.Agreement: a static graph, reliable links, honest members and no requests or responses on the links; the program has no mechanism against churn or loss. Guids are taken to be unique.
- Network.Initial: the members start with the same blocks. The program's first block is broadcast before there are peers (main/main.c:603-608), so roots travel only by synchronisation, which transfers principal branches; that it can establish a common base is shown for two nodes (`NewcomersShareABase`), for more it is assumed. The histories are taken to be empty at the start.
- Gossip.EveryGuidHandledOnce: only while nothing is evicted from the history, which the program does not guarantee. The null guid that network_send records also takes a place there; in the network no such messages are sent.
- Quiescence.GossipEnds: for the time between two timers, and for at most 1024 guids and slots together; beyond that nothing stops a message from being handled again.
- Endpoints.Endpoint.HandleMessage: block messages only; messages of other types differ in the handler called.
- Nodes.Peer.Parse: decides only whether the previous block is known; the handlers over tuples, with all checks, are `Synchronisation.OnBlockTuple` and `Synchronisation.OnBlocksResponseTuples`.
- NodeRuns.SyncIsCompleteExactly: nobody else can sign for the requester, so the answer holds no block under its key that it does not have (`NothingForged`).
- Blocks.Height: not reduced modulo 2^32 as the program's `height` field is.
- Blocks.Block: the hash stored in a block is a field like any other, so `HashInjective` is a hypothesis about the blocks that occur, not about all blocks.
- BlockTree.Blockchain.AddBlock: requires the previous block to be known, as looking it up before construction ensures. The maps of blocks and transactions are Dafny maps here; the bucketed map is modelled once, in `HashMaps`, and used for accounts.
- Accounts.AccountStore.AreTransactionsValid: an account version is a value that is replaced in the block's map when it changes; in the program it is updated through its pointer before any later block can refer to it.
- BlockCodec.Rebuild: a signature of more than 64 bytes, which overruns its field, a transaction whose signature does not verify, which makes the program abort, and a transaction tuple with too few elements, likewise, are all refused. A shorter signature is padded with zeros as in the program.
- Tuples.ParseTuple: an unknown tag, on which the program's cursor never advances, and a value that runs past the end of the buffer, which it reads unchecked, are parse failures. The length of a binary is written and read big-endian on both sides; the program uses the host's order on both. Floats are the words that hold them.
- Framing.FindMessageStart: a buffer shorter than a header has no start, where the program's unsigned subtraction wraps. A read appends the bytes actually read; the program appends the whole allocated buffer, of whose zeros those between frames do no harm (`PaddedFramesArrive`).
- Pools.Pool.Add: transactions are values; in the program a transaction put back by on_extended still belongs to its block and a duplicate is freed.
- Pools.NothingLost: about reorganisations. The handlers empty the pool before block_create, which may fail, so no conservation is claimed across block creation.
- HashMaps.HashMap.Set: keys and values are values, so what happens to replaced pointers is not modelled.
- Nodes.Peer.OnBlock: block_create at the time of the event is the parameter `make`; time and keys are inside it, and within one response all calls are made at one time.
- Collisions.HashMeansOneBranch: block and transaction hashes do not cover signatures, so equal hashes mean equal blocks only where a key has one valid signature per message (`UniqueSignature`).
- Synchronisation.HandleTuple: an element of a response that is no tuple, on which the program aborts, is skipped.
- Delivery.RebuildingIsAcceptance: assumes that the creator's signature does not fit the block's header read as a root, and that a known block with the parent's hash is the parent.
