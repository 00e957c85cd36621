/** The transaction pool and the state storage as services that follow the chain: each takes exactly the
    blocks that the plain committer takes, and is in the state that folding them gives.
 */
module Committers {
  import opened Basics
  import opened StateHistory
  import opened StateStorage
  import H = TrieHeap
  import F = Forest
  import R = RollingRevisions
  import Pool = TransactionPool
  import Sync = ServiceSync

  // ----- the transaction pool -----

  /** What the transaction pool keeps of the chain, between cleanup ticks. */
  datatype PoolState = PoolState(height: nat, timestamp: U64, committed: Pool.Committed)

  const EMPTY_POOL: PoolState := PoolState(0, 0, map[])

  function PoolApply(s: PoolState, b: Sync.Block<Pool.Block>): PoolState
  {
    PoolState(b.height, b.body.timestamp, Pool.Added(s.committed, Pool.Receipts(b.body), b.height, b.body.timestamp))
  }

  ghost predicate PoolFollows(service: Pool.Service, twin: Sync.Committer<PoolState, Pool.Block>)
    reads service, service.committedPool, twin
  {
    && service.Valid() && twin.Valid() && twin.apply == PoolApply && twin.initial == EMPTY_POOL
    && twin.height == service.lastCommittedHeight
    && twin.state == PoolState(service.lastCommittedHeight, service.lastCommittedTimestamp, service.committedPool.transactions)
  }

  /** A new pool is a committer that has taken nothing. */
  method NewPool(c: Pool.ValidationContext) returns (service: Pool.Service, twin: Sync.Committer<PoolState, Pool.Block>)
    ensures PoolFollows(service, twin) && twin.applied == []
  {
    service := new Pool.Service(c);
    twin := new Sync.Committer(PoolApply, EMPTY_POOL);
  }

  /** Given any block, the pool and the committer answer alike and stay in one state. */
  method CommitToPool(service: Pool.Service, twin: Sync.Committer<PoolState, Pool.Block>, b: Sync.Block<Pool.Block>)
    returns (next: nat, twinNext: nat)
    requires PoolFollows(service, twin) && b.body.height == b.height
    modifies service, service.committedPool, twin
    ensures PoolFollows(service, twin) && next == twinNext
    ensures twin.applied == if b.height == old(service.lastCommittedHeight) + 1 then old(twin.applied) + [b] else old(twin.applied)
  {
    next := service.CommitTransactionReceipts(b.body);
    FoldOne(twin.apply, twin.initial, twin.applied, b);
    twinNext := twin.CommitBlockPair(b);
  }

  lemma FoldOne<S, B>(apply: (S, Sync.Block<B>) -> S, initial: S, bs: seq<Sync.Block<B>>, b: Sync.Block<B>)
    ensures Sync.Fold(apply, initial, bs + [b]) == apply(Sync.Fold(apply, initial, bs), b)
  {
    assert (bs + [b])[..|bs|] == bs;
  }

  // ----- the state storage -----

  datatype StateBody = StateBody(timestamp: nat, proposer: seq<nat>, diffs: seq<ContractStateDiff>)

  function StateApply(history: seq<ChainState>, b: Sync.Block<StateBody>): seq<ChainState>
  {
    history + [Inflated(b.body.diffs)]
  }

  ghost predicate StateFollows(service: StateStorage, twin: Sync.Committer<seq<ChainState>, StateBody>)
    reads service, service.revisions, service.revisions.persist, service.revisions.forest, service.revisions.forest.nodes, twin
  {
    && service.Valid() && twin.Valid() && twin.apply == StateApply && twin.initial == []
    && twin.height == service.revisions.currentHeight
    && twin.state == service.revisions.history
  }

  /** Given any block, the state storage and the committer answer alike, and the history the storage tells is
      that of the blocks taken. */
  method CommitToState(service: StateStorage, twin: Sync.Committer<seq<ChainState>, StateBody>, b: Sync.Block<StateBody>)
    returns (next: nat, twinNext: nat)
    requires StateFollows(service, twin)
    requires CollisionFree(service.revisions.keyOf,
                           Written(service.revisions.history, |service.revisions.history|) + Inflated(b.body.diffs).Keys)
    modifies service, service.revisions, service.revisions.persist, service.revisions.forest, service.revisions.forest.settled, twin
    ensures StateFollows(service, twin) && next == twinNext
    ensures twin.applied == if b.height == old(service.revisions.currentHeight) + 1 then old(twin.applied) + [b] else old(twin.applied)
  {
    hide R.Tells, H.Settled, F.AllRoots, F.Closed, Written, CollisionFree, Sync.Consecutive, Sync.Fold, Inflated;
    next := service.CommitStateDiff(b.height, b.body.timestamp, b.body.proposer, b.body.diffs);
    FoldOne(twin.apply, twin.initial, twin.applied, b);
    twinNext := twin.CommitBlockPair(b);
  }
}
