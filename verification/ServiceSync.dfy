/** How a service follows the chain. The chain may grow between any two steps; what arrives when is a
    parameter, so what is proved holds for every interleaving of growth and sync steps.
 */
module ServiceSync {

  datatype Block<+B> = Block(height: nat, body: B)

  ghost predicate Consecutive<B>(bs: seq<Block<B>>)
  {
    forall i | 0 <= i < |bs| :: bs[i].height == i + 1
  }

  /** The state reached by applying blocks in order. */
  function Fold<S, B>(apply: (S, Block<B>) -> S, initial: S, bs: seq<Block<B>>): S
  {
    if bs == [] then initial else apply(Fold(apply, initial, bs[..|bs| - 1]), bs[|bs| - 1])
  }

  /** A service that is told of blocks: it takes the next one and asks for the one it needs otherwise,
      as the state storage and the transaction pool do. */
  class Committer<S, B> {
    const apply: (S, Block<B>) -> S
    ghost const initial: S
    var state: S
    var height: nat
    ghost var applied: seq<Block<B>>

    ghost predicate Valid()
      reads this
    {
      state == Fold(apply, initial, applied) && height == |applied| && Consecutive(applied)
    }

    constructor (apply: (S, Block<B>) -> S, initial: S)
      ensures Valid() && this.apply == apply && this.initial == initial && applied == []
    {
      this.apply, this.initial, state, height, applied := apply, initial, initial, 0, [];
    }

    method CommitBlockPair(b: Block<B>) returns (next: nat)
      requires Valid()
      modifies this
      ensures Valid() && next == height + 1
      ensures applied == if b.height == old(height) + 1 then old(applied) + [b] else old(applied)
    {
      if height + 1 != b.height { return height + 1; }
      state := apply(state, b);
      height := b.height;
      assert (applied + [b])[..|applied|] == applied;
      applied := applied + [b];
      return b.height + 1;
    }
  }

  /** The block store as a source of blocks: what a scan can read and, possibly behind it, the top that
      the index knows. */
  class BlockSource<B> {
    const arrivals: seq<seq<Block<B>>>
    const indexed: seq<nat>
    var clock: nat
    var chain: seq<Block<B>>
    var top: nat

    ghost predicate Valid()
      reads this
    {
      Consecutive(chain) && top <= |chain|
    }

    constructor (arrivals: seq<seq<Block<B>>>, indexed: seq<nat>)
      ensures Valid() && chain == []
    {
      this.arrivals, this.indexed, clock, chain, top := arrivals, indexed, 0, [], 0;
    }

    /** Time passes: blocks of the next heights are written and the index catches up by some of them. */
    method Grow()
      requires Valid()
      modifies this
      ensures Valid() && old(chain) <= chain && old(top) <= top
      ensures clock == old(clock) + 1 && (old(clock) >= |arrivals| ==> chain == old(chain))
    {
      var arrived := if clock < |arrivals| then arrivals[clock] else [];
      var i := 0;
      while i < |arrived| && arrived[i].height == |chain| + 1
        invariant 0 <= i <= |arrived| && Valid() && old(chain) <= chain && top == old(top) && clock == old(clock)
        invariant i == 0 ==> chain == old(chain)
      {
        chain := chain + [arrived[i]];
        i := i + 1;
      }
      if clock < |indexed| && top <= indexed[clock] <= |chain| { top := indexed[clock]; }
      clock := clock + 1;
    }
  }

  /** The service has applied the first blocks of the chain, each once and in order. */
  ghost predicate InStep<S, B>(source: BlockSource<B>, service: Committer<S, B>)
    reads source, service
  {
    source.Valid() && service.Valid() && service.applied <= source.chain
  }

  lemma NextInStep<B>(applied: seq<Block<B>>, chain: seq<Block<B>>, b: Block<B>)
    requires applied <= chain && Consecutive(chain) && 0 < b.height <= |chain| && chain[b.height - 1] == b
    ensures b.height == |applied| + 1 ==> applied + [b] <= chain
  {
  }

  method SyncOneBlock<S, B>(source: BlockSource<B>, service: Committer<S, B>, b: Block<B>) returns (requestedHeight: nat)
    requires InStep(source, service) && 0 < b.height <= |source.chain| && source.chain[b.height - 1] == b
    modifies service
    ensures InStep(source, service) && requestedHeight == service.height + 1
    ensures service.height == if b.height == old(service.height) + 1 then b.height else old(service.height)
    ensures old(service.applied) <= service.applied
  {
    hide Fold;
    NextInStep(service.applied, source.chain, b);
    requestedHeight := service.CommitBlockPair(b);
  }

  /** Blocks from the requested height on are given to the service until none is left to read. */
  method ScanInto<S, B>(source: BlockSource<B>, service: Committer<S, B>) returns (committed: nat)
    requires InStep(source, service)
    modifies source, service
    ensures InStep(source, service)
    ensures committed == service.height == |source.chain|
    ensures old(source.chain) <= source.chain && old(source.top) <= source.top && old(service.applied) <= service.applied
  {
    hide Fold;
    committed := service.height;
    var h, wantsMore := service.height + 1, true;
    while h <= |source.chain| && wantsMore
      invariant InStep(source, service)
      invariant wantsMore && h == service.height + 1 && committed == service.height
      invariant old(source.chain) <= source.chain && old(source.top) <= source.top && old(service.applied) <= service.applied
      decreases if source.clock < |source.arrivals| then |source.arrivals| - source.clock else 0, |source.chain| + 1 - h
    {
      var requestedHeight := SyncOneBlock(source, service, source.chain[h - 1]);
      committed := h;
      wantsMore := requestedHeight == h + 1;
      h := h + 1;
      source.Grow();
    }
  }

  /** One round: the service takes the top block or is brought up to it. What is returned is the height
      the service is at, which is not below the top that was read. */
  method SyncToTopBlock<S, B>(source: BlockSource<B>, service: Committer<S, B>) returns (committed: nat, ghost topRead: nat)
    requires InStep(source, service) && source.top > 0
    modifies source, service
    ensures InStep(source, service)
    ensures committed == service.height && old(source.top) <= topRead <= committed
    ensures old(source.chain) <= source.chain && old(source.top) <= source.top && old(service.applied) <= service.applied
  {
    hide Fold;
    source.Grow();
    var topBlock := source.chain[source.top - 1];
    topRead := source.top;
    source.Grow();
    var requestedHeight := SyncOneBlock(source, service, topBlock);
    if topBlock.height < requestedHeight { return requestedHeight - 1, topRead; }
    source.Grow();
    committed := ScanInto(source, service);
  }

  const GRACE_DISTANCE: nat := 5

  /** The loop of a service, for any number of rounds: wait for a block above the height last seen, then
      sync. A wait for a height too far ahead is an error that starts the loop afresh. */
  method Follow<S, B>(source: BlockSource<B>, service: Committer<S, B>, rounds: nat) returns (height: nat)
    requires InStep(source, service)
    modifies source, service
    ensures InStep(source, service)
    ensures old(service.applied) <= service.applied
    ensures height == 0 || height == service.height
    ensures rounds > 0 ==> old(source.top) <= service.height
  {
    height := 0;
    for i := 0 to rounds
      invariant InStep(source, service) && old(service.applied) <= service.applied
      invariant old(source.top) <= source.top && (i > 0 ==> old(source.top) <= service.height)
      invariant height == 0 || height == service.height
    {
      source.Grow();
      if height + 1 <= source.top {
        ghost var topRead;
        height, topRead := SyncToTopBlock(source, service);
      } else if source.top + GRACE_DISTANCE < height + 1 {
        height := 0;
      }
    }
  }

  /** Two services of one kind that follow one source differ only in how far they are: the one behind has
      applied the first of the blocks the other has, reaches its state by applying those in between, and at
      equal heights they are in the same state. */
  lemma ServicesAgree<S, B>(source: BlockSource<B>, a: Committer<S, B>, b: Committer<S, B>)
    requires InStep(source, a) && InStep(source, b) && a.apply == b.apply && a.initial == b.initial && a.height <= b.height
    ensures a.applied == b.applied[..a.height]
    ensures b.state == Fold(b.apply, a.state, b.applied[a.height..])
    ensures a.height == b.height ==> a.state == b.state
  {
    FoldSplits(b.apply, b.initial, b.applied, a.height);
  }

  lemma {:induction false} FoldSplits<S, B>(apply: (S, Block<B>) -> S, initial: S, bs: seq<Block<B>>, k: nat)
    requires k <= |bs|
    ensures Fold(apply, initial, bs) == Fold(apply, Fold(apply, initial, bs[..k]), bs[k..])
  {
    if k == |bs| {
      assert bs[k..] == [] && bs[..k] == bs;
    } else {
      var init := bs[..|bs| - 1];
      FoldSplits(apply, initial, init, k);
      assert bs[k..][..|bs| - 1 - k] == init[k..] && init[..k] == bs[..k];
    }
  }
}
