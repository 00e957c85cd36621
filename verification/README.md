# Verified model of the Orbs node

This project models the parts of the Orbs blockchain node (`orbs-network-go`) on which its nodes must
agree, and proves what they promise. `dafny verify dfyconfig.toml` checks all of it.

- **State tries** (`Trie`, `CanonicalTrie`, `TrieHash`, `TrieHeap`, `TrieInsert`, `TrieCollapse`, `Forest`,
  `TrieProof`, `SharedPaths`, `SlicedTrie`, `OlderRoots`): the compressed binary trie as a value with a theory of canonical forms, and the code that
  updates it by copy on write in a sandbox of dirty nodes, prunes, collapses and hashes it, proved against
  that theory. A root depends on the contents alone. Proofs of inclusion and exclusion are exact.
  These take paths as values. In the source they are slices of shared arrays; `SlicedTrie` proves that for the
  root made last this comes to the same, and `OlderRoots` when it does for an older one.
- **Ordered trees** (`OrderedTree`, `OrderedTreeNodes`): the in-place array fold and the tree built by trie
  insertion give one root, and every proof verifies against it.
- **State storage** (`StateHistory`, `RollingRevisions`, `StateStorage`): a persisted base, a window of
  diffs and a forest of roots tell one history.
- **Execution** (`TransientState`, `Execution`): a cache per transaction over a batch overlay over
  committed state means the same as running transactions in turn on one map.
- **Transaction pool** (`TransactionPool`, `ReplayProtection`, `PendingPool`): no transaction is committed
  twice, over all interleavings of commits and cleanup; map, list and byte counter of the pending pool
  stay in step.
- **Consensus** (`BenchmarkConsensus`, `ConsensusNetwork`, `ConsensusVotes`, `ConsensusProgress`): agreement, progress and the quorum rule over a
  network that loses, repeats and reorders messages, with block synchronization and nodes that restart.
- **Block store** (`Codec`, `CodecStreams`, `CodecRecords`, `BlockFile`, `BlockIndex`, `BlockScan`, `BlockPersistence`): the block codec,
  the index over the blocks file, recovery of a file cut at any byte, and a search by time that refines the
  linear search of the in-memory store.
- **Service sync and waiters** (`ServiceSync`, `Committers`, `Waiter`): services follow the chain whatever its growth;
  waiters are completed or cancelled at most once in every interleaving.

What is abstract: SHA-256 is a free constructor per shape of preimage, so digests are equal exactly when
preimages are; signatures are unforgeable by construction; CRC-32, the message readers and the order on
digests are parameters. Keys are sequences of bits. What the environment decides (map iteration order,
contract code, arriving messages and blocks, clock ticks, what a cursor wants) is a parameter or a choice
that every statement is quantified over. Integer widths are modelled where they can matter: 64-bit
timestamps, 32-bit sizes and counters.

Where the code falls short of what its names suggest, the model follows the code, shows an input and proves
the exact condition:

- A path under an older root can change when a later update joins nodes, exactly when the bits written differ
  from it where they meet it (`SharedPaths.CombinedPath`, `OlderRoots.TrieKeptIff`, `OlderRoots.OlderRootChanges`).
- A follower makes a synchronized block its last before it stores it, and can vote for it in between; a vote is
  for a stored block exactly when the last block that the commit started from is in storage at the reply
  (`ConsensusVotes.VotesStoredIff`, `ConsensusVotes.VoteBeforeStorage`).
- After a restart on a cut file, a shorter block leaves bytes behind the chain; a scan of everything is right
  exactly when those bytes end too early for a block (`BlockScan.FullScanRightIff`,
  `BlockScan.ShorterBlockBreaksScan`).
- A cleanup tick that read its time before the first block evicts everything; clearing is safe exactly for
  times not below the expiry window, unless the window is half the 64-bit range (`ReplayProtection.ClearSafeIff`, `ReplayProtection.StaleClearReplays`).
- The sweep of expired pending transactions stops at its first removal and clears all exactly when there was
  at most one (`PendingPool.SweepClearsIff`, `PendingPool.SweepLeavesExpired`).
- The byte counter of the pending pool wraps; the pool stays within its limit exactly when no accepted
  addition does (`PendingPool.PendingTxPool.Add`, `PendingPool.CounterWraps`).

An oversized block is written before it is refused (`CodecStreams.Encode`), and section checksums are read but
not compared (`CodecStreams.ReadDynamicSection`).

## Model

| member | source | states |
|---|---|---|
| Trie.CommonLength | crypto/merkle/merkle_algo.go:183-187 | the length of the longest common prefix: equal up to it, different just after it |
| Trie.InsertLookup | crypto/merkle/merkle_algo.go:90-107 | insertion changes what is stored under the inserted key and under no other, for keys of any length |
| Trie.InsertBelowLookup | crypto/merkle/merkle_algo.go:129-147 | the same for the branch that descends or creates a child, where a zero value creates none |
| Trie.InsertParentLookup | crypto/merkle/merkle_algo.go:153-162 | the same for the branch that puts a new node above |
| Trie.InsertSiblingLookup | crypto/merkle/merkle_algo.go:164-181 | the same for the branch that splits a path at its last common bit |
| CanonicalTrie.MergeLookup | crypto/merkle/merkle_algo.go:221-228 | merging a node into its only child keeps all contents |
| CanonicalTrie.CollapseLookup | crypto/merkle/merkle_algo.go:191-219 | collapsing keeps what is stored under every key |
| CanonicalTrie.CollapseCanonical | crypto/merkle/merkle_algo.go:191-219 | collapsing leaves a canonical trie: every node without a value has two children |
| CanonicalTrie.CollapseFixpoint | crypto/merkle/merkle_algo.go:210-219 | a canonical subtrie is unchanged by collapsing, so subtries that are not dirty need no visit |
| CanonicalTrie.CanonicalUnique | crypto/merkle/merkle_algo.go:191-208 | two canonical tries with the same contents are the same trie |
| CanonicalTrie.RootUnique | crypto/merkle/merkle_trie_forest.go:241-244 | the same for roots, where the empty contents have one special root |
| CanonicalTrie.UpdateContents | crypto/merkle/merkle_trie_forest.go:229-248 | an update holds, under every key, the last value the diffs give it, the zero value deleting, and is a canonical root |
| CanonicalTrie.OverriddenExact | crypto/merkle/merkle_trie_forest.go:229-248 | what a key holds after an update is the value of its last diff, or what it held before |
| CanonicalTrie.UpdateDependsOnContents | crypto/merkle/merkle_trie_forest.go:229-248 | any two updates that end in the same contents end in the same trie |
| CanonicalTrie.UpdateOrderIrrelevant | services/statestorage/rolling_revisions.go:111-122 | diffs with distinct keys give the same trie in any order, so map iteration order does not matter |
| TrieHash.RootHashCases | crypto/merkle/merkle_trie_forest.go:250-281 | the hash of a leaf covers value and path, of an inner node both child hashes, zero bytes for a missing one, and path |
| TrieHash.HashInjective | crypto/merkle/merkle_trie_forest.go:250-281 | tries with keys of fixed length and equal root hashes are equal |
| TrieHash.UpdateKeepsLength | crypto/merkle/merkle_trie_forest.go:229-248 | an update with keys of one length keeps all keys of that length |
| TrieHash.ContentsGiveFixedLength | crypto/merkle/merkle_algo.go:191-208 | a canonical trie with keys of one length holds values in leaves only, and every inner node has two children |
| TrieHash.RootHashIdentifiesContents | crypto/merkle/merkle_trie_forest.go:229-256 | with keys of one length, root hashes are equal if and only if the contents are |
| TrieHeap.Node.SetChild | crypto/merkle/merkle_algo.go:52-58 | one child is replaced, the other stays, and the trie spelled out below the node changes accordingly |
| TrieHeap.Node.Clone | crypto/merkle/merkle_algo.go:60-68 | a new node with the same path, value and children and without a hash |
| TrieHeap.Sandbox.Set | crypto/merkle/merkle_algo.go:79-88 | one arc of a node is flagged, the other arc and all other marks stay |
| TrieInsert.GetOrClone | crypto/merkle/merkle_algo.go:109-119 | the node itself if this update made it, else a copy that is marked and flagged at its parent; nothing of an earlier root changes |
| TrieInsert.Insert | crypto/merkle/merkle_algo.go:90-107 | the in-place insertion yields the trie of the functional insertion, touches only nodes of this update and leaves all earlier nodes as they were |
| TrieInsert.UpdateOrCreateChild | crypto/merkle/merkle_algo.go:129-147 | the branch for a key below the node, in place |
| TrieInsert.InsertIntoChild | crypto/merkle/merkle_algo.go:136-137 | the recursive call and the new link to its result |
| TrieInsert.CreateChild | crypto/merkle/merkle_algo.go:141-143 | a new leaf is linked and its arc flagged |
| TrieInsert.CreateParent | crypto/merkle/merkle_algo.go:153-162 | a new parent takes the place of the node, whose path is shortened in place |
| TrieInsert.CreateParentAndSibling | crypto/merkle/merkle_algo.go:164-181 | a new parent without a value, the node with its shortened path and a new leaf beside it |
| TrieInsert.LastCommonPathIndex | crypto/merkle/merkle_algo.go:183-187 | the loop finds the length of the common prefix |
| TrieCollapse.CollapseOnlyChild | crypto/merkle/merkle_algo.go:221-228 | a copy of the only child with the joined path; the child itself stays as it was |
| SharedPaths.ToBin | crypto/merkle/merkle_trie_forest.go:283-294 | the bits of a key, highest bit of the first byte first, in an array without spare room |
| SharedPaths.BitsSpell | crypto/merkle/merkle_trie_forest.go:287-294 | the bits of a byte spell it, the highest first |
| SharedPaths.SpreadInjective | crypto/merkle/merkle_trie_forest.go:283-294 | different keys have different bits |
| SharedPaths.Append | crypto/merkle/merkle_algo.go:223-224 | appending gives the joined contents, written over the array behind the slice if it has room there, else into a new array |
| SharedPaths.CombinedPath | crypto/merkle/merkle_algo.go:221-228 | the joined path of a node and its only child; the array gets the arc and the child's path, the arc alone, or nothing, by the room there is; any other slice of the array keeps its contents if and only if what is written agrees with it |
| SharedPaths.OlderPathChanges | crypto/merkle/merkle_algo.go:164-181 | the keys 00 and ff part as insertion parts them; the join after deleting ff leaves the path of 00 in the leaf of ff under the older root |
| SlicedTries.InsertReads | crypto/merkle/merkle_algo.go:90-181 | insertion that takes slices of the array of its key is insertion by values, for keys of any length |
| SlicedTries.InsertApart | crypto/merkle/merkle_algo.go:90-181 | nodes whose paths lie in one array stay above each other |
| SlicedTries.JoinedReads | crypto/merkle/merkle_algo.go:221-228 | a join gives the joined path and writes only behind the node's path and before the end of the child's, whatever room there is |
| SlicedTries.CollapseReads | crypto/merkle/merkle_algo.go:191-228 | collapsing with shared arrays, left child before right, is collapsing by values: no join changes a path of another node of the trie |
| SlicedTries.CanonicalUntouched | crypto/merkle/merkle_algo.go:210-219 | collapsing a canonical subtrie writes nothing, so the subtries that are skipped make no difference |
| SlicedTries.UpdateReads | crypto/merkle/merkle_trie_forest.go:229-248 | an update with shared arrays makes the root that the update by values makes, for all keys and all capacities the runtime may choose |
| SlicedTries.NewestRootRight | crypto/merkle/merkle_trie_forest.go:229-248 | in every run of updates the root made last is the trie by values, down to the last path |
| OlderRoots.TrieKeptIff | crypto/merkle/merkle_algo.go:221-228 | the trie of any root reads the same after a join if and only if what the join writes agrees with each of its paths |
| OlderRoots.OlderRootChanges | crypto/merkle/merkle_trie_forest.go:229-248 | two updates from the empty forest, after which the trie of the first root has changed |
| TrieCollapse.CollapseHere | crypto/merkle/merkle_algo.go:196-207 | an empty leaf is pruned, a lone child merged, anything else kept, and the result is hashed |
| TrieCollapse.CollapseDirtyChildren | crypto/merkle/merkle_algo.go:210-219 | exactly the flagged children are visited, and that is enough for the whole subtrie to be collapsed and hashed |
| TrieCollapse.CollapseAndHash | crypto/merkle/merkle_algo.go:191-208 | the result spells out the functional collapse, every node under it is hashed and canonical, and earlier roots stay as they were |
| Forest.Forest.FindRoot | crypto/merkle/merkle_trie_forest.go:33-44 | the newest root with the hash, or none |
| Forest.Forest.Forget | crypto/merkle/merkle_trie_forest.go:202-221 | the first root with the hash is dropped, and nothing else, on both code paths; whether the root made last is still there is kept track of |
| Forest.Forest.Update | crypto/merkle/merkle_trie_forest.go:229-248 | from the root made last, a new newest root that is the canonical update of it, for an unknown root an error; hash, value and links of every node of every earlier root stay |
| Forest.UpdateFrom | crypto/merkle/merkle_trie_forest.go:235-244 | insertion of all diffs, collapse and the special empty root together make the update |
| Forest.CreateEmptyTrieNode | crypto/merkle/merkle_trie_forest.go:27-31 | the root without keys, hashed |
| TrieProofs.ProofIsExact | crypto/merkle/merkle_trie_forest.go:74-200 | for a key of the right length, the proof made for it is accepted for exactly one value: the stored one, or the zero value if the key is absent |
| TrieProofs.InclusionIsSound | crypto/merkle/merkle_trie_forest.go:121-173 | for keys of the length of those in the trie, no proof whatever is accepted for a non-zero value that is not stored under the key, whatever path the proof carries |
| TrieProofs.ExclusionIsSound | crypto/merkle/merkle_trie_forest.go:175-200 | if a proof that ends in a leaf or off the path of the key is accepted for the zero value, nothing is stored under the key |
| TrieProofs.ProveImpliesRoot | crypto/merkle/merkle_trie_forest.go:149-166 | the hash chain of a proof leads to the root hash of the trie it was made for |
| TrieProofs.TerminalDecides | crypto/merkle/merkle_trie_forest.go:168-200 | the inclusion and exclusion checks decide what the last node of the walk holds for the key |
| TrieProofs.GetProof | crypto/merkle/merkle_trie_forest.go:74-119 | from the root made last, the walk over nodes returns the proof of its trie; for an unknown root an error |
| TrieProofs.Walk | crypto/merkle/merkle_trie_forest.go:80-118 | the loop collects the siblings along the key and splices the last path into the proof path, within bounds |
| TrieProofs.CalculateLastNodePathIndex | crypto/merkle/merkle_trie_forest.go:140-147 | the loop computes where the path of the last node starts |
| TrieProofs.ProofIsSelfConsistent | crypto/merkle/merkle_trie_forest.go:149-166 | the loop from the last node up computes the root that the proof implies, within bounds |
| TrieProofs.VerifyProofExclusion | crypto/merkle/merkle_trie_forest.go:175-200 | an error for another length, else the three comparisons of the exclusion check |
| TrieProofs.Verify | crypto/merkle/merkle_trie_forest.go:121-138 | the verdict is that of the checks taken together, errors included, for every proof on which the source does not index out of range |
| TrieProofs.ProveThenVerify | crypto/merkle/merkle_trie_forest.go:74-200 | getting a proof from the root made last and verifying it accepts the value held under the key and no other |
| OrderedTrees.HashTwoCommutes | crypto/merkle/merkle_ordered_tree.go:140-145 | the pair hash does not depend on the order of its arguments |
| OrderedTrees.PassesExactlyEnough | crypto/merkle/merkle_ordered_tree.go:58-61 | the fold leaves one element after k passes if and only if k is at least the ceiling of the base-two logarithm |
| OrderedTrees.LevelKeepsRoot | crypto/merkle/merkle_ordered_tree.go:37-48 | one pass takes one level off the recursively defined root |
| OrderedTrees.CollapseOneLevel | crypto/merkle/merkle_ordered_tree.go:37-48 | one pass, also when source and destination are the same array, yields the pairwise hashes, an odd last one moved up |
| OrderedTrees.CalculateOrderedTreeRoot | crypto/merkle/merkle_ordered_tree.go:50-63 | the in-place fold computes the recursive root, thirty-two zero bytes for the empty list |
| OrderedTrees.ToKey | crypto/merkle/merkle_ordered_tree.go:147-154 | the loop yields the bits of an index, highest first |
| OrderedTrees.ToKeyNumber | crypto/merkle/merkle_ordered_tree.go:147-154 | the bits of an index that fits spell the index |
| OrderedTrees.CreatedIsExpected | crypto/merkle/merkle_ordered_tree.go:71-86 | repeated insertion and collapse build the directly defined tree, whose root keeps the nil value of its first node |
| OrderedTrees.FoldAgreesWithTrie | crypto/merkle/merkle_ordered_tree.go:37-94 | for every non-empty list without the zero value hash the tree has the root the fold computes |
| OrderedTrees.ProofLeadsToRoot | crypto/merkle/merkle_ordered_tree.go:100-138 | for every such list and index the sibling hashes lead from the value to the root |
| OrderedTrees.Verify | crypto/merkle/merkle_ordered_tree.go:128-138 | the loop accepts if and only if the hashes lead from the value to the root |
| OrderedTrees.RootMadeOfValues | crypto/merkle/merkle_ordered_tree.go:50-63 | the root of a list of digests is hashed together from exactly these digests, each as often as it is in the list, with the lesser one first in every pair |
| OrderedTrees.RootIdentifiesValues | crypto/merkle/merkle_ordered_tree.go:50-63 | lists with equal roots hold the same digests, each as often, but for the empty list and the list of thirty-two zero bytes |
| OrderedTrees.ProofIsSound | crypto/merkle/merkle_ordered_tree.go:128-138 | a digest that any proof is accepted for against the root of a list is in the list |
| OrderedTreeNodes.OrderedTree.constructor | crypto/merkle/merkle_ordered_tree.go:65-86 | the tree object represents the list it was made from |
| OrderedTreeNodes.OrderedTree.GetRoot | crypto/merkle/merkle_ordered_tree.go:96-98 | the root hash of the built tree |
| OrderedTreeNodes.OrderedTree.GetProof | crypto/merkle/merkle_ordered_tree.go:100-126 | an error out of bounds, else the sibling hashes of the walk, compressed prefixes skipped |
| OrderedTreeNodes.Walk | crypto/merkle/merkle_ordered_tree.go:104-125 | the loop over the nodes collects those hashes |
| OrderedTreeNodes.Create | crypto/merkle/merkle_ordered_tree.go:71-86 | insertion of all values into one sandbox and collapse yield the tree, or the empty root |
| OrderedTreeNodes.RootAndProofAgree | crypto/merkle/merkle_ordered_tree.go:37-138 | fold and tree give one root, and the proof of every index verifies against it |
| StateHistory.Apply | services/statestorage/adapter/memory/memory_persistence.go:68-97 | a record is there after a diff if the diff sets it to a non-zero value or does not mention it and it was there |
| StateHistory.ReadSaysLast | services/statestorage/rolling_revisions.go:142-160 | a read at a height gives the value in the last diff up to it that mentions the record, and zero if none does |
| StateHistory.RepresentationUnique | services/statestorage/rolling_revisions.go:86-109 | a state has one canonical trie, hence one root hash |
| StateHistory.UpdateRepresents | services/statestorage/rolling_revisions.go:86-122 | updating the trie of a state with the listed diff gives the trie of the state with the diff applied |
| RollingRevisions.StatePersistence.Write | services/statestorage/adapter/memory/memory_persistence.go:68-97 | the full state becomes the old one with the diff applied, in whatever order the map is iterated; height, proposer and root are kept |
| RollingRevisions.ToMerkleInput | services/statestorage/rolling_revisions.go:111-122 | as many entries as records, each the key and value hash of one; without key collisions each key once, in any order |
| RollingRevisions.RollingRevisions.GetRevisionRecord | services/statestorage/rolling_revisions.go:142-160 | a read at any height from the persisted to the current one returns what folding all diffs up to it gives; errors outside |
| RollingRevisions.RollingRevisions.GetRevisionHash | services/statestorage/rolling_revisions.go:162-174 | a hash for exactly those heights, and it is the root hash of the trie kept for the height |
| RollingRevisions.RollingRevisions.AddRevision | services/statestorage/rolling_revisions.go:86-109 | the root to update is always found and is the one made last, base, window, forest and hashes go on telling one history, with time and proposer of every block, and hash, value and links under earlier roots stay |
| RollingRevisions.RollingRevisions.EvictRevisions | services/statestorage/rolling_revisions.go:124-140 | the window shrinks to its size without changing the history that is told; stored height, root and proposer are those of the newest block moved out |
| RollingRevisions.TellsAdded | services/statestorage/rolling_revisions.go:86-109 | the trie found by the current hash is the newest, and appending its update tells the history with one more diff |
| RollingRevisions.TellsEvicted | services/statestorage/rolling_revisions.go:124-140 | moving the oldest revision into the base and forgetting the root below it tells the same history |
| StateStorage.InflateChainState | services/statestorage/service.go:188-210 | the loops build the diff that the contract diffs stand for |
| StateStorage.InflatedExact | services/statestorage/service.go:188-210 | a record is in the diff if and only if it is listed, with the value of its last listing |
| StateStorage.StateStorage.CommitStateDiff | services/statestorage/service.go:72-107 | the next height extends the history by its diff, any other changes nothing; the answer is the height wanted next |
| StateStorage.StateStorage.ReadKeys | services/statestorage/service.go:109-149 | served exactly for heights in the window, with what the history says for every key, the zero value for absent records |
| StateStorage.StateStorage.GetStateHash | services/statestorage/service.go:164-186 | served exactly for heights in the window, with the root hash of the canonical trie of the state at that height |
| StateStorage.StateStorage.WindowServed | services/statestorage/service.go:124-140 | every height that passes the window check is at or above the persisted height |
| TransientState.SetInEffect | services/virtualmachine/transient_state.go:47-65 | setting a pair changes that record alone and keeps every contract and key listed once |
| TransientState.SetInOrders | services/virtualmachine/transient_state.go:47-65 | what is listed stays in order, and what is new comes last |
| TransientState.TransientState.GetValue | services/virtualmachine/transient_state.go:33-45 | the value and whether it is there |
| TransientState.TransientState.SetValue | services/virtualmachine/transient_state.go:47-65 | the pair is set and listed in order of first use |
| TransientState.TransientState.ForDirty | services/virtualmachine/transient_state.go:67-77 | exactly the dirty pairs of a contract, in the order in which their keys were first used |
| TransientState.TransientState.MergeIntoTransientState | services/virtualmachine/transient_state.go:79-85 | the dirty pairs go to the master as dirty, everything else there stays |
| Execution.ExecutionContext.HandleSdkStateRead | services/virtualmachine/sdk_state.go:45-86 | the value seen through the transaction, then the batch, then committed state, which alone is kept; keeping it changes neither what is seen nor what is dirty |
| Execution.ExecutionContext.HandleSdkStateWrite | services/virtualmachine/sdk_state.go:90-109 | refused without write permission, else the record is set and dirty |
| Execution.ProcessCall | services/virtualmachine/sdk_state.go:45-109 | every answer a running transaction gets is the one it gets on a plain map, and it ends with the writes it made there dirty |
| Execution.RunMethod | services/virtualmachine/execution.go:28-78 | a successful transaction is merged into the batch, a failed one leaves the batch as it was |
| Execution.EncodeBatchTransientStateToStateDiffs | services/virtualmachine/execution.go:134-152 | each contract with dirty records is listed once, each of its dirty keys once, with its value, contracts in the order of their first use |
| Execution.ProcessTransactionSet | services/virtualmachine/execution.go:80-114 | an answer is what the transaction last wrote to the record, else what the last successful transaction before it wrote, else what is committed; the diffs name exactly the records that successful transactions wrote, each once, and leave in committed state what was last written |
| Execution.InTurnRight | services/virtualmachine/execution.go:80-114 | executing transactions in turn on one map and discarding failed ones gives such answers and such a state |
| TransactionPool.ForOrdering | services/transactionpool/validate_transaction.go:51-119 | no rejection if and only if version, signature scheme and key size, virtual chain and both time bounds are in order |
| TransactionPool.AcceptedIff | services/transactionpool/validate_transaction.go:51-119 | no rejection if and only if version, signer and chain are right and the time is from the expiry window before the block time to the grace after it, for block times at which nothing wraps |
| TransactionPool.RejectedOnFirstGrounds | services/transactionpool/validate_transaction.go:51-68 | the rejection is the first of the grounds there are, in the order of the checks |
| TransactionPool.ClearedIff | services/transactionpool/committed_pool.go:85-99 | an entry stays if and only if its block time plus the grace is not below the threshold |
| TransactionPool.CommittedPool.Add | services/transactionpool/committed_pool.go:53-68 | the transaction is filed under its hash with height and time of its block |
| TransactionPool.CommittedPool.ClearTransactionsOlderThan | services/transactionpool/committed_pool.go:85-99 | exactly the entries whose block time plus the grace is below the threshold are removed while iterating |
| TransactionPool.Service.CommitTransactionReceipts | services/transactionpool/commit_transaction_receipts.go:20-113 | the receipts of the next block are added with its height and time, any other block changes nothing; the answer is the height wanted next |
| TransactionPool.Service.CleanupTick | services/transactionpool/cleanup.go:23-28 | a tick clears the committed pool at the last block time less the expiry window, in 64-bit arithmetic |
| TransactionPool.Service.ValidateTransactionsForOrdering | services/transactionpool/validate_transactions_for_ordering.go:18-57 | accepted if and only if the block before is committed here, every transaction is valid for the block time and not in the committed pool, and pre-order checks pass |
| ReplayProtection.RunKeepsInv | services/transactionpool/commit_transaction_receipts.go:20-113 | in every state of every run of interleaved commit steps, readings of the time and clears with times read earlier, a committed transaction is in the pool or its window has closed |
| ReplayProtection.CoveredOrExpired | services/transactionpool/committed_pool.go:85-99 | a committed transaction that has left the pool is expired for every later block |
| ReplayProtection.NoReplay | services/transactionpool/validate_transactions_for_ordering.go:18-57 | over every run, a transaction that passes validation for a later block is in no block committed so far, whatever its signature |
| ReplayProtection.CommittedOnce | services/transactionpool/validate_transactions_for_ordering.go:18-57 | over every run in which blocks pass validation before they are committed, no transaction is in two blocks |
| ReplayProtection.CommitIsItsSteps | services/transactionpool/commit_transaction_receipts.go:20-113 | the steps of a commit, with no tick between them, do what the whole commit does |
| ReplayProtection.TickIsItsSteps | services/transactionpool/cleanup.go:23-28 | reading the time and clearing with it, with nothing in between, is the whole tick |
| ReplayProtection.ClearSafeIff | services/transactionpool/cleanup.go:23-28 | what a clear evicts of the blocks of a run can never pass validation for a later block if and only if the time it uses is not below the expiry window, or the window is so large that even the wrapped time is before all blocks |
| ReplayProtection.StaleClearReplays | services/transactionpool/cleanup.go:23-28 | a run in which a tick reads the time before the first block and clears after it: the transaction of that block passes validation again |
| PendingPool.PendingTxPool.Add | services/transactionpool/pending_pool.go:72-103 | congestion is checked before duplicates; an accepted transaction goes to the front of the list and into the map; a pool whose counter is exact and within the limit stays so if and only if an accepted addition does not wrap |
| PendingPool.PendingTxPool.Remove | services/transactionpool/pending_pool.go:113-135 | map entry and list element go together, the pool stays within its limit, an unknown hash changes nothing |
| PendingPool.PendingTxPool.RemoveCommitted | services/transactionpool/commit_transaction_receipts.go:100-113 | a commit takes the transactions of the block out of map and list and keeps all others in order; what is reported is what was pending here with this node as gateway, once each |
| PendingPool.MineExact | services/transactionpool/commit_transaction_receipts.go:100-113 | reported are, each once, exactly the receipts of transactions that were pending with this node as their gateway |
| PendingPool.PendingTxPool.GetBatch | services/transactionpool/pending_pool.go:137-169 | the batch is a prefix of the oldest transactions, and a prefix fits both limits if and only if it is no longer than the batch |
| PendingPool.PendingTxPool.ClearTransactionsOlderThan | services/transactionpool/pending_pool.go:182-202 | the sweep keeps map, list and counter in step and the pool within its limit, and ends with its first removal |
| PendingPool.SweepRemovesOne | services/transactionpool/pending_pool.go:182-202 | the sweep removes the oldest expired transaction, if there is one, and nothing else |
| PendingPool.SweepClearsIff | services/transactionpool/pending_pool.go:182-202 | a sweep with no other removal between its steps leaves no expired transaction if and only if at most one was expired |
| PendingPool.SweepLeavesExpired | services/transactionpool/pending_pool.go:182-202 | a valid pool with two expired transactions keeps one of them after a sweep |
| PendingPool.CounterWraps | services/transactionpool/pending_pool.go:72-103 | two accepted additions after which the counter is four while the pool holds more than 2^32 bytes |
| PendingPool.KeysDistinct | services/transactionpool/pending_pool.go:72-103 | no transaction is in the list twice |
| BenchmarkConsensus.QuorumSizeIsCeiling | services/consensusalgo/benchmarkconsensus/common.go:49-52 | the quorum is the least number of nodes not below the percentage |
| BenchmarkConsensus.Service.SetLastCommittedBlockIfPreviousBlockMatches | services/consensusalgo/benchmarkconsensus/common.go:33-47 | compare and set of the last block; the votes start afresh with it |
| BenchmarkConsensus.Service.SaveToBlockStorage | services/blockstorage/commit_block.go:28-100 | a block that is saved is the one in storage at its height; a refused one is from the future or differs from the stored one; what is in storage stays |
| BenchmarkConsensus.Service.LeaderConsensusRoundTick | services/consensusalgo/benchmarkconsensus/leader.go:58-96 | a new block is proposed, stored and made the last one only if the last one is voted; the last one is broadcast unless storage refuses |
| BenchmarkConsensus.ProposalLinks | services/consensusalgo/benchmarkconsensus/leader.go:127-159 | a proposal has in each header the hash of the same header of the block it is made on, has the contents given, and is valid on that block |
| BenchmarkConsensus.Service.LeaderAddVote | services/consensusalgo/benchmarkconsensus/leader.go:267-288 | a vote for the expected last block is counted once per sender, and the quorum is reported once |
| BenchmarkConsensus.Service.LeaderHandleCommittedVote | services/consensusalgo/benchmarkconsensus/leader.go:217-265 | a vote for another height, from a stranger or badly signed changes nothing |
| BenchmarkConsensus.Service.NonLeaderHandleCommit | services/consensusalgo/benchmarkconsensus/non_leader.go:22-112 | an invalid block changes nothing; a valid one is stored, moves the last block forward if it is the next, and is answered with the last committed height |
| BenchmarkConsensus.Service.HandleBlockConsensus | services/consensusalgo/benchmarkconsensus/common.go:120-153 | a block that verifies, or need not, becomes the last one if it is newer, without a look at storage; no block, another type or a bad one changes nothing |
| BenchmarkConsensus.Service.ValidateBlockForCommit | services/blockstorage/validate_block.go:22-50 | a block from another node is accepted if and only if it is the next one for storage and links to the top; accepted, it is the last one, or below the last one, and not in storage |
| ConsensusNetwork.TickIsItsSteps | services/consensusalgo/benchmarkconsensus/leader.go:58-81 | the three steps of a round, uninterrupted, are the round tick |
| ConsensusNetwork.RunKeepsInv | services/consensusalgo/benchmarkconsensus/non_leader.go:22-112 | in every reachable state signatures in the network are true, followers are behind the leader with a last block at most one ahead of storage, and counted votes have been sent |
| ConsensusNetwork.Agreement | services/consensusalgo/benchmarkconsensus/non_leader.go:22-112 | in every reachable state every chain is a prefix of the leader's, so no two nodes hold different blocks at one height, block synchronization included |
| ConsensusNetwork.SyncValidateKeeps | services/blockstorage/internodesync/state_processing_blocks.go:66-74 | synchronization brings the leader nothing, and a follower a last block of the leader before the block is stored |
| ConsensusNetwork.VotersMakeQuorum | services/consensusalgo/benchmarkconsensus/leader.go:267-288 | as many voters as the quorum asks for are as many validators other than the leader that have sent a vote |
| ConsensusVotes.VoteStandsFor | services/consensusalgo/benchmarkconsensus/non_leader.go:61-112 | in every run a vote for height h comes from another validator whose last block has been the leader's block h, and whose storage holds all blocks before it |
| ConsensusVotes.ReplyStoredIff | services/consensusalgo/benchmarkconsensus/non_leader.go:64-88 | a reply is for a block in storage if and only if the last block that the commit started from is in storage when it is signed |
| ConsensusVotes.VotesStoredIff | services/consensusalgo/benchmarkconsensus/non_leader.go:64-88 | all votes of a run are for blocks in storage if and only if every reply meets that condition |
| ConsensusVotes.ProposalNeedsQuorum | services/consensusalgo/benchmarkconsensus/leader.go:58-96 | whenever the leader stores a new block, a quorum less itself of other validators have sent votes for the block before, and have it in storage where replies meet the condition |
| ConsensusVotes.VoteBeforeStorage | services/consensusalgo/benchmarkconsensus/non_leader.go:61-112 | a run in which the leader counts a vote for a block that is in no storage but its own, and moves on |
| ConsensusProgress.ChainLinks | services/consensusalgo/benchmarkconsensus/leader.go:127-159 | in every run each header of a block of the leader has the hash of the same header of the block before it, the first those of the genesis block, and its signature is out |
| ConsensusProgress.FollowerAccepts | services/consensusalgo/benchmarkconsensus/non_leader.go:22-112 | in every run a follower finds the leader's block after its last one valid, stores it if and only if its last block is in storage, and then makes it its last and votes for it |
| ConsensusProgress.LastNeverBack | services/consensusalgo/benchmarkconsensus/common.go:33-47 | between restarts of a node the height of its last block never falls, however commits, rounds and synchronization interleave |
| ConsensusProgress.QuorumReported | services/consensusalgo/benchmarkconsensus/leader.go:217-288 | in every run the height of the last block is reported as soon as the votes counted for it are a quorum, and not before |
| ConsensusProgress.LeaderMovesOn | services/consensusalgo/benchmarkconsensus/leader.go:26-96 | with the height of its last block reported, the leader makes, stores and sets a block on top of it |
| Codec.LittleEndianRoundTrip | services/blockstorage/adapter/filesystem/codec.go:86-98 | a 32-bit number is read back from its four bytes |
| Codec.EncodableSizes | services/blockstorage/adapter/filesystem/codec.go:178-237 | a block that encodes has size fields that are the sizes of its sections, without wrap-around, and the size reported is the number of bytes written |
| Codec.DecodeBack | services/blockstorage/adapter/filesystem/codec.go:178-364 | decoding an encoded block followed by anything gives the block, the size encode reported and what follows |
| Codec.RoundTrip | services/blockstorage/adapter/filesystem/codec.go:178-364 | for a block that encodes, the round trip holds if and only if the headers tell the lengths of its lists |
| Codec.StrictPrefixRejected | services/blockstorage/adapter/filesystem/codec.go:296-364 | every strict prefix of an encoded block is rejected, as an input that ends too early |
| Codec.DecodeMore | services/blockstorage/adapter/filesystem/codec.go:296-364 | more input changes the outcome of decoding only if the input ended too early |
| Codec.DecodedBlock | services/blockstorage/adapter/filesystem/codec.go:296-364 | whatever the input, a decoded block has list lengths that match its headers and the size reported is what was consumed |
| CodecRecords.DecodeExact | services/blockstorage/adapter/filesystem/codec.go:296-364 | decoding yields a block and a size if and only if the bytes are a header with the right marks and total, the chunks of the block with any checksum behind each section, and the right checksum of all of it |
| CodecRecords.DecodedIsChecked | services/blockstorage/adapter/filesystem/codec.go:338-346 | whenever a block of size n decodes, the last four of the first n bytes are the checksum of those before them |
| CodecRecords.AlteredRejected | services/blockstorage/adapter/filesystem/codec.go:338-346 | an encoded block altered in its body to another checksum decodes to nothing of its size, and to nothing at all unless its header was altered |
| CodecRecords.AlteredToShorter | services/blockstorage/adapter/filesystem/codec.go:296-346 | with its header altered too it may decode, to any shorter block |
| CodecRecords.EncodingStart | services/blockstorage/adapter/filesystem/codec.go:178-237 | an encoded block starts with magic number, version and the sizes of its four sections |
| CodecRecords.EncodingAt | services/blockstorage/adapter/filesystem/codec.go:178-237 | behind its header an encoded block has the chunks of each section, with their checksum behind each |
| CodecStreams.ChecksumWriter.Write | services/blockstorage/adapter/filesystem/codec.go:486-494 | the bytes go to the checksum and on, and are counted |
| CodecStreams.SectionWriter.WriteMessage | services/blockstorage/adapter/filesystem/codec.go:166-176 | a message is written as its length and its bytes |
| CodecStreams.WriteDynamicSection | services/blockstorage/adapter/filesystem/codec.go:274-291 | the loop writes the chunks of a section and their checksum |
| CodecStreams.WriteFixedSection | services/blockstorage/adapter/filesystem/codec.go:239-272 | the five fixed messages and their checksum |
| CodecStreams.Encode | services/blockstorage/adapter/filesystem/codec.go:178-237 | success if and only if the body is within the limit, with the encoding written and its size returned; otherwise the body has been written all the same |
| CodecStreams.ReadOneChunk | services/blockstorage/adapter/filesystem/codec.go:509-530 | a chunk within the budget, which is charged for it, or the end of the input, or an error |
| CodecStreams.ReadDynamicSection | services/blockstorage/adapter/filesystem/codec.go:455-475 | the loop reads as many chunks as asked for and the checksum after them |
| CodecStreams.Decode | services/blockstorage/adapter/filesystem/codec.go:296-364 | the streaming reader returns and consumes what decoding the input as a value does |
| BlockFile.BucketKey | services/blockstorage/adapter/filesystem/index.go:117-121 | the minute of a 64-bit nanosecond time, without truncation and below the largest 32-bit number |
| BlockFile.DecodeStored | services/blockstorage/adapter/filesystem/file_system_persistence.go:216-236 | decoding a file of blocks followed by anything gives the blocks and then what the rest decodes to |
| BlockFile.DecodeAllExact | services/blockstorage/adapter/filesystem/file_system_persistence.go:216-236 | the blocks that decode one after another are those of the run of right records at the start of the file, up to the first bytes that are none |
| BlockFile.CompleteExact | services/blockstorage/adapter/filesystem/file_system_persistence.go:216-236 | the count of complete blocks before a cut is right: that many end by the cut and the next one does not |
| BlockFile.DecodeCut | services/blockstorage/adapter/filesystem/file_system_persistence.go:216-236 | decoding a file of blocks cut at any byte gives exactly the blocks complete before the cut |
| BlockFile.CutLeavesUnfinished | services/blockstorage/adapter/filesystem/file_system_persistence.go:216-236 | the bytes a cut leaves behind the complete blocks end too early for another block |
| BlockIndex.IndexOfChain | services/blockstorage/adapter/filesystem/index.go:74-103 | for consecutive heights the index says where each block starts and which block is the first with receipts in each minute |
| BlockIndex.ScanFinds | services/blockstorage/adapter/filesystem/file_system_persistence.go:348-365 | on a chain whose times never go back, a scan that stops after the range finds what the plain search finds |
| BlockIndex.SearchByIndexFinds | services/blockstorage/adapter/filesystem/file_system_persistence.go:342-371 | the lookup by minute followed by a bounded scan finds what the plain search of the whole chain finds, for every hash and range |
| BlockIndex.SearchAnswers | services/blockstorage/adapter/memory/memory_persistence.go:109-135 | the plain search gives the first block in the range with a receipt of the transaction and the place of the first such receipt, and nothing if and only if there is none |
| BlockPersistence.BlockHeightIndex.AppendBlock | services/blockstorage/adapter/filesystem/index.go:74-103 | refused if the offset is not the expected one, else the entry, the top and, for the first block with receipts in a minute, the bucket |
| BlockPersistence.BlockHeightIndex.GetEarliestTxBlockInBucketForTsRange | services/blockstorage/adapter/filesystem/index.go:58-72 | the first listed minute of the range; the loop ends |
| BlockPersistence.BuildIndex | services/blockstorage/adapter/filesystem/file_system_persistence.go:216-236 | the index of a file is that of the blocks that decode one after another, each with its checksum right, and appending never fails |
| BlockPersistence.FileBlockPersistence.constructor | services/blockstorage/adapter/filesystem/file_system_persistence.go:65-104 | a file left by a run of writes, cut at any byte after its header, opens with exactly the blocks complete before the cut and can be read to its end |
| BlockPersistence.FileBlockPersistence.WriteNextBlock | services/blockstorage/adapter/filesystem/file_system_persistence.go:238-264 | a block of another height changes nothing, one over the limit leaves the index and its own bytes, the next one extends the chain and leaves of the bytes behind it those it does not cover; every offset is where its block starts |
| BlockPersistence.FileBlockPersistence.ScanBlocks | services/blockstorage/adapter/filesystem/file_system_persistence.go:266-307 | an unknown height is an error; otherwise the pages and the outcome are those of the records of the chain and of whatever lies behind it, and those of the chain alone if that ends too early for a block |
| BlockPersistence.FileBlockPersistence.GetBlockByTx | services/blockstorage/adapter/filesystem/file_system_persistence.go:342-371 | what the search over the records of the chain and of whatever lies behind it gives; with times in order and a tail that ends too early, the block and index the plain search of the chain finds |
| BlockScan.FullScanRightIff | services/blockstorage/adapter/filesystem/file_system_persistence.go:266-307 | a scan of everything gives the chain and no error if and only if the bytes behind the chain end too early for a block |
| BlockScan.UnknownFailsIff | services/blockstorage/adapter/filesystem/file_system_persistence.go:342-371 | a search that no record answers fails if and only if the file does not end cleanly |
| BlockScan.ShorterBlockBreaksScan | services/blockstorage/adapter/filesystem/file_system_persistence.go:202-214 | a cut file, reopened, and a shorter block written to it: what is left behind is no block, and the search for an unknown transaction fails |
| BlockScan.FileSearchFinds | services/blockstorage/adapter/filesystem/file_system_persistence.go:342-371 | without records behind the chain the search of the file finds what the plain search finds |
| BlockScan.ScanSearches | services/blockstorage/adapter/filesystem/file_system_persistence.go:348-365 | the cursor of the search, page by page, is the bounded scan |
| BlockScan.ScanExact | services/blockstorage/adapter/filesystem/file_system_persistence.go:266-307 | pages cut the blocks into runs of the page size, the last perhaps shorter, for as long as the cursor wants more |
| BlockPersistence.InMemoryBlockPersistence.WriteNextBlock | services/blockstorage/adapter/memory/memory_persistence.go:94-107 | exactly the next height is appended |
| BlockPersistence.InMemoryBlockPersistence.ScanBlocks | services/blockstorage/adapter/memory/memory_persistence.go:164-186 | an error for an unknown height or height zero, else the pages of the chain |
| BlockPersistence.InMemoryBlockPersistence.GetBlockByTx | services/blockstorage/adapter/memory/memory_persistence.go:109-135 | filtering by time and then looking through receipts finds the first block in the range with a receipt of the transaction, if there is one |
| ServiceSync.Committer.CommitBlockPair | services/blockstorage/servicesync/committers.go:37-52 | the next block is applied, any other asks for the next; the state is the fold of the blocks applied |
| ServiceSync.SyncOneBlock | services/blockstorage/servicesync/service_sync.go:59-75 | a block of the chain keeps the service at a prefix of the chain |
| ServiceSync.ScanInto | services/blockstorage/servicesync/service_sync.go:45-56 | the scan applies every block left, each once and in order, while the chain grows |
| ServiceSync.SyncToTopBlock | services/blockstorage/servicesync/service_sync.go:33-57 | under any growth of the chain between its steps, the height returned is the height the service is at and not below the top that was read, and the service stays at a prefix of the chain |
| ServiceSync.Follow | services/blockstorage/servicesync/service_sync.go:77-93 | over any number of rounds the service is at a prefix of the chain, each block applied once and in order, and after one at or above the top there was |
| ServiceSync.ServicesAgree | services/blockstorage/servicesync/service_sync.go:77-93 | of two services in step with one source, the one behind has applied the first blocks of the other and reaches its state by those between; at equal heights their states are equal |
| Committers.NewPool | services/blockstorage/servicesync/committers.go:29-31 | a new pool is a committer that has taken nothing |
| Committers.CommitToPool | services/blockstorage/servicesync/committers.go:45-52 | given any block the transaction pool answers as the plain committer does and stays in the state that folding the blocks taken gives |
| Committers.CommitToState | services/blockstorage/servicesync/committers.go:37-43 | given any block the state storage answers as the plain committer does and tells the history of the blocks taken |
| Waiter.StepKeepsInv | services/publicapi/waiter.go:35-93 | every atomic step keeps the invariant over map, channels and running completions |
| Waiter.AtMostOnce | services/publicapi/waiter.go:35-93 | in every reachable state each channel has had at most one value, was closed at most once, and no key maps to an empty set |
| Waiter.StepsAreSafe | services/publicapi/waiter.go:61-93 | every send in every run is to an open channel with room, and whatever closes a channel finds it open |
| Waiter.FinishedDelivers | services/publicapi/waiter.go:88-93 | a completion that is over has given its value once to every channel it took, all waiting for its key, and closed them |
| Waiter.Waiters.AddChannel | services/publicapi/waiter.go:35-48 | the registering step: a new open channel among those of the key |
| Waiter.Waiters.RemoveKey | services/publicapi/waiter.go:50-59 | the step that takes all channels of a key |
| Waiter.Waiters.CloseByChannel | services/publicapi/waiter.go:61-73 | the cancelling step: a channel that still waits is closed and taken out, any other is left alone |
| Waiter.Waiters.Complete | services/publicapi/waiter.go:88-93 | without interruption, the channels of the key get the value and are closed, and no other channel changes |
| Waiter.Waiters.TryReceive | services/publicapi/waiter.go:75-86 | a value if there is one, an abort if the channel is closed and empty, nothing otherwise |

## Left out

- Lean Helix consensus: its protocol is in an external library.
- HTTP, gossip transport, TCP, configuration, metrics, logging, the Ethereum connector, contract compilers and SDK plumbing.
- Internals of SHA-256, Keccak, ECDSA, Ed25519 and CRC-32.
- TrieProofs.ExclusionIsSound: nothing is claimed of an empty proof, which is accepted for every root, nor of a proof that ends in an inner node on the path of the key, which counts as divergent.
- TrieProofs.GetProof: the empty key and tries with keys of other lengths than the one asked for are left out, since the walk then reaches a missing sibling or runs past the key; so are roots other than the one made last, whose paths may have changed.
- TrieProofs.ProveThenVerify: the same keys and roots are left out.
- TrieProofs.Verify: negative sizes in a proof are not modelled.
- Forest.Forest.Update: stated for the root made last, which is the only one the state storage updates; paths are values here, and what the arrays behind them do to older roots is stated at OlderRoots.TrieKeptIff. That values are right for the root made last is SlicedTries.NewestRootRight.
- Forest.UpdateFrom: the same.
- TrieCollapse.CollapseOnlyChild: the joined path is a value here; the array it is written to is stated at SharedPaths.CombinedPath, and why the value is right at SlicedTries.CollapseReads.
- OrderedTreeNodes.OrderedTree.GetProof: lists that contain the hash of the empty string are left out, since the tree then has gaps.
- OrderedTrees.FoldAgreesWithTrie: lists that contain the hash of the empty string are left out, since inserting it deletes.
- OrderedTrees.CalculateOrderedTreeRoot: rounding of the floating-point logarithm is not modelled; the number of passes is the exact ceiling.
- RollingRevisions.RollingRevisions.AddRevision: failing writes to persistence, a start from a persisted state that is not empty, and the current proposer, which the source does not update, are not modelled; that keys of different records do not collide is a precondition.
- StateStorage.StateStorage.ReadKeys: waiting for a future block within the grace distance is modelled as a refusal.
- StateStorage.StateStorage.GetStateHash: the same.
- StateStorage.StateStorage.CommitStateDiff: that keys of different records do not collide is a precondition, as a hash of contract name and key without separator is taken for distinct.
- Execution.RunMethod: deployment lookup, calls between contracts and events are not modelled.
- Execution.ProcessTransactionSet: contract code is a strategy that ends within a bound of its own; pre-order checks, queries, calls between contracts and events only add plumbing.
- TransactionPool.Service.ValidateTransactionsForOrdering: waiting for the previous block is modelled as a refusal, and duplicates within one block are not looked for, as in the source.
- TransactionPool.Service.CommitTransactionReceipts: the pending pool's part in a commit is stated separately, at PendingPool.PendingTxPool.RemoveCommitted; notifying handlers is not modelled.
- TransactionPool.Service.CleanupTick: reading the time and clearing are one step here and two in ReplayProtection.
- ReplayProtection.NoReplay: no clear uses a time from before the first block, the case shown at ReplayProtection.StaleClearReplays; block times keep a distance of one window from zero and of one grace from the end of the 64-bit range.
- PendingPool.PendingTxPool.GetBatch: the limits are claimed for pools of less than 2^32 bytes, where the 32-bit sum of a batch cannot wrap.
- PendingPool.SweepClearsIff: a removal by another operation between two steps of the sweep, which can end it early, is not modelled.
- PendingPool.PendingTxPool.ClearTransactionsOlderThan: other operations between two steps of the sweep are not modelled, nor are callbacks and metrics.
- ConsensusNetwork.RunKeepsInv: leaves out what ConsensusNetwork.Agreement does.
- ConsensusNetwork.Agreement: the single-node network and block bodies, which the signed headers cover by their roots, are not modelled.
- BenchmarkConsensus.Service.ValidateBlockForCommit: the check of the protocol version and other consensus algorithms that are registered are not modelled.
- The requests and responses of block synchronization: any block that the leader has signed may come from any node at any time.
- CodecStreams.Encode: failing writes are not modelled.
- CodecStreams.Decode: the number of bytes returned with an error, which no caller uses, is not modelled.
- The header of the blocks file and its validation (services/blockstorage/adapter/filesystem/codec.go:111-164).
- BlockPersistence.FileBlockPersistence.WriteNextBlock: after a failed write the file is as stated but no longer in step with the index, so nothing is claimed of later calls; heights do not wrap at 2^64.
- BlockPersistence.FileBlockPersistence.ScanBlocks: height zero and page size zero, on which the source panics or loops, are left out, as is the height passed to the cursor.
- BlockPersistence.InMemoryBlockPersistence.ScanBlocks: the height passed to the cursor is left out.
- ServiceSync.Follow: a scan can go on for as long as the chain keeps growing, so the growth given is finite; a failing commit makes the source panic and is not modelled.
- Waiter.Waiters.Complete: stated without interruption; interruption at every step is the subject of Waiter.StepsAreSafe and Waiter.FinishedDelivers.
- Waiter.Waiters.TryReceive: the choice between a value and a cancelled context is left to the caller, as two steps.
- Trigger compliance checks.
