/** Benchmark consensus at one node: a constant leader that proposes and counts votes, and the
    others that commit what it signs.
 */
module BenchmarkConsensus {
  import opened Digests

  type Address = nat

  /** A block header; content stands for all fields but height and previous hash, among them the
      Merkle roots of the block's lists. */
  datatype Header = Header(height: nat, prevHash: HeaderHash, content: seq<nat>)

  /** The hash of a header, or the nil hash. */
  datatype HeaderHash = NilHash | Sha(header: Header)

  /** What nodes sign: a reference to a block pair, or a status with a height. */
  datatype SignedData = BlockRef(height: nat, tx: Header, rx: Header) | Status(lastCommittedHeight: nat)

  /** A signature verifies for the signer and the data it was made for, and nothing else. */
  datatype Signature = Signature(signer: Address, data: SignedData)

  datatype SenderSignature = SenderSignature(sender: Address, signature: Signature)

  datatype BlockPair = BlockPair(tx: Header, rx: Header, proofTypesOk: bool, signers: seq<SenderSignature>)

  predicate SameBlock(a: BlockPair, b: BlockPair)
  {
    a.tx == b.tx && a.rx == b.rx
  }

  function RefOf(b: BlockPair): SignedData { BlockRef(b.tx.height, b.tx, b.rx) }

  datatype Config = Config(leader: Address, validators: set<Address>, requiredQuorumPercentage: nat)

  function RequiredQuorumSize(c: Config): nat
  {
    (|c.validators| * c.requiredQuorumPercentage + 99) / 100
  }

  /** The quorum is the least number of nodes that is not below the percentage. */
  lemma QuorumSizeIsCeiling(c: Config)
    ensures RequiredQuorumSize(c) * 100 >= |c.validators| * c.requiredQuorumPercentage
    ensures RequiredQuorumSize(c) > 0 ==> (RequiredQuorumSize(c) - 1) * 100 < |c.validators| * c.requiredQuorumPercentage
  {
  }

  // ----- validation -----

  predicate LinksTo(b: BlockPair, prev: BlockPair)
  {
    b.tx.prevHash == Sha(prev.tx) && b.rx.prevHash == Sha(prev.rx)
  }

  predicate SignedByLeader(c: Config, b: BlockPair)
  {
    b.signers != [] && b.signers[0].sender == c.leader && b.signers[0].signature == Signature(c.leader, RefOf(b))
  }

  predicate ValidConsensus(c: Config, b: BlockPair, prev: Option<BlockPair>)
  {
    && b.proofTypesOk
    && (prev.Some? ==> LinksTo(b, prev.value))
    && SignedByLeader(c, b)
  }

  function HeightOf(last: Option<BlockPair>): nat
  {
    if last.None? then 0 else last.value.tx.height
  }

  predicate ValidForNonLeader(c: Config, b: BlockPair, last: Option<BlockPair>)
  {
    && b.tx.height == b.rx.height
    && b.tx.height <= HeightOf(last) + 1
    && ValidConsensus(c, b, if last.Some? && b.tx.height == HeightOf(last) + 1 then last else None)
  }

  // ----- block storage -----

  /** Storing a block: the next one is appended, a known one is compared with what is stored, and a
      block from the future or a fork is an error. A block of height zero is not stored. */
  function Store(storage: seq<BlockPair>, b: BlockPair): Option<seq<BlockPair>>
  {
    if b.tx.height == 0 then Some(storage)
    else if b.tx.height == |storage| + 1 then Some(storage + [b])
    else if b.tx.height > |storage| then None
    else if SameBlock(b, storage[b.tx.height - 1]) then Some(storage)
    else None
  }

  function Top(storage: seq<BlockPair>): Option<BlockPair>
  {
    if storage == [] then None else Some(storage[|storage| - 1])
  }

  /** What block storage asks of a block that comes from another node: the next height, and the link to the top. */
  predicate ValidForSync(c: Config, b: BlockPair, storage: seq<BlockPair>)
  {
    b.tx.height == b.rx.height == |storage| + 1 && ValidConsensus(c, b, Top(storage))
  }

  // ----- the service -----

  datatype Node = Node(
    storage: seq<BlockPair>,                // blocks of heights 1, 2, ...
    last: Option<BlockPair>,                // the last committed block
    lastVoted: Option<nat>,                 // leader: the last successfully voted height
    voters: set<Address>,                   // leader: who has voted for the last committed block
    reachedQuorum: bool)                    // leader

  /** Compare and set of the last committed block; the votes start afresh with it. */
  function SetLast(n: Node, b: BlockPair, expected: Option<BlockPair>): Node
  {
    if n.last != expected then n else n.(last := Some(b), voters := {}, reachedQuorum := false)
  }

  function Sign(c: Config, tx: Header, rx: Header): BlockPair
  {
    BlockPair(tx, rx, true, [SenderSignature(c.leader, Signature(c.leader, BlockRef(tx.height, tx, rx)))])
  }

  function Genesis(c: Config): BlockPair { Sign(c, Header(0, NilHash, []), Header(0, NilHash, [])) }

  /** The block the leader proposes on top of the last one, with contents from the consensus context. */
  function Proposal(c: Config, last: BlockPair, txContent: seq<nat>, rxContent: seq<nat>): BlockPair
  {
    Sign(c, Header(last.tx.height + 1, Sha(last.tx), txContent), Header(last.tx.height + 1, Sha(last.rx), rxContent))
  }

  /** A proposal links to the block it is made on, header by header, and passes its validation. */
  lemma ProposalLinks(c: Config, last: BlockPair, txContent: seq<nat>, rxContent: seq<nat>)
    ensures var b := Proposal(c, last, txContent, rxContent);
            && b.tx.prevHash == Sha(last.tx) && b.rx.prevHash == Sha(last.rx)
            && b.tx.content == txContent && b.rx.content == rxContent
            && b.tx.height == b.rx.height == last.tx.height + 1
            && ValidConsensus(c, b, Some(last)) && ValidForNonLeader(c, b, Some(last))
  {
  }

  predicate MayPropose(n: Node)
  {
    n.last.Some? && n.lastVoted == Some(n.last.value.tx.height)
  }

  /** The state after a round tick: a new block if the last one is voted and storage takes it. */
  function AfterTick(c: Config, n: Node, txContent: seq<nat>, rxContent: seq<nat>): Node
  {
    if !MayPropose(n) then n
    else
      var b := Proposal(c, n.last.value, txContent, rxContent);
      var stored := Store(n.storage, b);
      if stored.None? then n else SetLast(n.(storage := stored.value), b, n.last)
  }

  datatype Vote = Vote(sender: Address, lastCommittedHeight: nat, signature: Signature)

  predicate ValidVote(c: Config, v: Vote, lastHeight: nat)
  {
    && v.lastCommittedHeight == lastHeight
    && v.sender in c.validators
    && v.signature == Signature(v.sender, Status(v.lastCommittedHeight))
  }

  /** The state after a valid vote for the block expected to be the last, and whether it made the quorum. */
  function AfterVote(c: Config, n: Node, sender: Address, expected: Option<BlockPair>): (Node, bool)
  {
    if n.last != expected then (n, false)
    else
      var m := n.(voters := n.voters + {sender});
      if |m.voters| + 1 >= RequiredQuorumSize(c) && !n.reachedQuorum then (m.(reachedQuorum := true), true) else (m, false)
  }

  /** The node after the last step of a non-leader's commit, and the height it replies with, if it replies. */
  function AfterCommit(n: Node, b: BlockPair, seen: Option<BlockPair>): (Node, Option<nat>)
  {
    if b.tx.height != HeightOf(seen) + 1 then (n, Some(HeightOf(seen)))
    else if n.last != seen then (n, None)
    else (SetLast(n, b, seen), Some(b.tx.height))
  }

  /** The node after it is told of a block by block storage: a newer one becomes the last. */
  function AfterUpdate(n: Node, b: BlockPair): Node
  {
    if b.tx.height > HeightOf(n.last) then SetLast(n, b, n.last) else n
  }

  datatype HandleBlockConsensusMode = VerifyAndUpdate | VerifyOnly | UpdateOnly

  class Service {
    const config: Config
    const address: Address
    var storage: seq<BlockPair>
    var lastCommittedBlock: Option<BlockPair>
    var lastSuccessfullyVotedBlock: Option<nat>
    var lastCommittedBlockVoters: set<Address>
    var votersReachedQuorum: bool

    ghost function Now(): Node
      reads this
    {
      Node(storage, lastCommittedBlock, lastSuccessfullyVotedBlock, lastCommittedBlockVoters, votersReachedQuorum)
    }

    constructor (config: Config, address: Address, storage: seq<BlockPair>)
      ensures this.config == config && this.address == address
      ensures Now() == Node(storage, Top(storage), None, {}, false)
    {
      this.config, this.address, this.storage := config, address, storage;
      lastCommittedBlock := Top(storage);
      lastSuccessfullyVotedBlock, lastCommittedBlockVoters, votersReachedQuorum := None, {}, false;
    }

    method GetLastCommittedBlock() returns (height: nat, block: Option<BlockPair>)
      ensures block == lastCommittedBlock && height == HeightOf(block)
    {
      if lastCommittedBlock == None {
        return 0, None;
      }
      return lastCommittedBlock.value.tx.height, lastCommittedBlock;
    }

    method SetLastCommittedBlockIfPreviousBlockMatches(b: BlockPair, expected: Option<BlockPair>) returns (updated: bool)
      modifies this
      ensures updated <==> old(lastCommittedBlock) == expected
      ensures Now() == SetLast(old(Now()), b, expected)
      ensures !updated ==> Now() == old(Now())
      ensures updated ==> Now() == old(Now()).(last := Some(b), voters := {}, reachedQuorum := false)
    {
      if lastCommittedBlock != expected {
        return false;
      }
      lastCommittedBlock := Some(b);
      lastCommittedBlockVoters, votersReachedQuorum := {}, false;
      updated := true;
    }

    /** The block store takes a block of the next height only. */
    method WriteNextBlock(b: BlockPair) returns (added: bool, persistedHeight: nat)
      modifies this`storage
      ensures added <==> b.tx.height == |old(storage)| + 1
      ensures storage == (if added then old(storage) + [b] else old(storage)) && persistedHeight == |storage|
    {
      if b.tx.height != |storage| + 1 {
        return false, |storage|;
      }
      storage := storage + [b];
      return true, |storage|;
    }

    /** A block that is saved is the one in storage at its height; a block from the future, or another one
        than is stored, is an error. Nothing that is in storage changes. */
    method SaveToBlockStorage(b: BlockPair) returns (ok: bool)
      modifies this`storage
      ensures old(storage) <= storage <= old(storage) + [b]
      ensures ok && b.tx.height > 0 ==> b.tx.height <= |storage| && SameBlock(storage[b.tx.height - 1], b)
      ensures !ok ==> storage == old(storage) && b.tx.height > 0 &&
                      (b.tx.height > |storage| + 1 || (b.tx.height <= |storage| && !SameBlock(storage[b.tx.height - 1], b)))
      ensures ok <==> Store(old(storage), b).Some?
      ensures storage == if ok then Store(old(storage), b).value else old(storage)
    {
      if b.tx.height == 0 {
        return true;
      }
      var added, persistedHeight := WriteNextBlock(b);
      if b.tx.height > persistedHeight + 1 {
        return false;
      }
      if !added {
        var stored := storage[b.tx.height - 1];
        if b.tx != stored.tx {
          return false;
        }
        if b.rx != stored.rx {
          return false;
        }
      }
      ok := true;
    }

    /** Moves to a new block when the last one is voted, and broadcasts the last block either way, unless
        storage refuses the new block. */
    method LeaderConsensusRoundTick(txContent: seq<nat>, rxContent: seq<nat>) returns (broadcast: Option<BlockPair>)
      requires lastCommittedBlock.Some?
      modifies this
      ensures Now() == AfterTick(config, old(Now()), txContent, rxContent)
      ensures broadcast ==
              if MayPropose(old(Now())) && Store(old(storage), Proposal(config, old(lastCommittedBlock).value, txContent, rxContent)).None?
              then None else lastCommittedBlock
      ensures lastCommittedBlock != old(lastCommittedBlock) ==>
                var b, last := lastCommittedBlock, old(lastCommittedBlock).value;
                && b.Some? && b.value.tx.prevHash == Sha(last.tx) && b.value.rx.prevHash == Sha(last.rx)
                && b.value.tx.content == txContent && b.value.rx.content == rxContent
                && b.value.tx.height == b.value.rx.height == last.tx.height + 1
    {
      var height, last := GetLastCommittedBlock();
      if lastSuccessfullyVotedBlock == Some(height) {
        var proposed := Proposal(config, last.value, txContent, rxContent);
        var ok := SaveToBlockStorage(proposed);
        if !ok {
          return None;
        }
        var updated := SetLastCommittedBlockIfPreviousBlockMatches(proposed, last);
        if !updated {
          return None;
        }
        last := Some(proposed);
      }
      broadcast := last;
    }

    method LeaderAddVote(sender: Address, expected: Option<BlockPair>) returns (enough: bool)
      modifies this
      ensures (Now(), enough) == AfterVote(config, old(Now()), sender, expected)
      ensures var voters := old(lastCommittedBlockVoters) + {sender};
              enough <==> old(lastCommittedBlock) == expected && !old(votersReachedQuorum) && |voters| + 1 >= RequiredQuorumSize(config)
    {
      if lastCommittedBlock != expected {
        return false;
      }
      lastCommittedBlockVoters := lastCommittedBlockVoters + {sender};
      var existingVotes := |lastCommittedBlockVoters| + 1;
      if existingVotes >= RequiredQuorumSize(config) && !votersReachedQuorum {
        votersReachedQuorum := true;
        return true;
      }
      enough := false;
    }

    /** A vote with another height, from a stranger or with a bad signature changes nothing. The height
        returned, if any, is what is sent to the round loop. */
    method LeaderHandleCommittedVote(v: Vote) returns (sent: Option<nat>)
      modifies this
      ensures var h := HeightOf(old(lastCommittedBlock));
              if !ValidVote(config, v, h) then Now() == old(Now()) && sent == None
              else
                var (after, enough) := AfterVote(config, old(Now()), v.sender, old(lastCommittedBlock));
                Now() == after && sent == if enough then Some(h) else None
      ensures sent.Some? || lastCommittedBlockVoters != old(lastCommittedBlockVoters) ==>
                && v.lastCommittedHeight == HeightOf(lastCommittedBlock) && v.sender in config.validators
                && v.signature == Signature(v.sender, Status(v.lastCommittedHeight))
                && lastCommittedBlockVoters == old(lastCommittedBlockVoters) + {v.sender}
    {
      var height, last := GetLastCommittedBlock();
      if !ValidVote(config, v, height) {
        return None;
      }
      var enough := LeaderAddVote(v.sender, last);
      sent := if enough then Some(height) else None;
    }

    /** Validates, stores, moves the last block forward and replies with the last committed height. */
    method NonLeaderHandleCommit(b: BlockPair) returns (reply: Option<Vote>)
      modifies this
      ensures if !ValidForNonLeader(config, b, old(lastCommittedBlock)) || Store(old(storage), b).None?
              then Now() == old(Now()) && reply == None
              else
                var (after, height) :=
                  AfterCommit(old(Now()).(storage := Store(old(storage), b).value), b, old(lastCommittedBlock));
                && Now() == after
                && reply == if height.None? then None
                            else Some(Vote(address, height.value, Signature(address, Status(height.value))))
      ensures reply.Some? ==>
                var last := old(lastCommittedBlock);
                && b.tx.height == b.rx.height <= HeightOf(last) + 1 && b.proofTypesOk
                && b.signers != [] && b.signers[0] == SenderSignature(config.leader, Signature(config.leader, BlockRef(b.tx.height, b.tx, b.rx)))
                && (last.Some? && b.tx.height == HeightOf(last) + 1 ==>
                      b.tx.prevHash == Sha(last.value.tx) && b.rx.prevHash == Sha(last.value.rx))
                && lastCommittedBlock == (if b.tx.height == HeightOf(last) + 1 then Some(b) else last)
                && reply.value == Vote(address, HeightOf(lastCommittedBlock), Signature(address, Status(HeightOf(lastCommittedBlock))))
    {
      var height, last := GetLastCommittedBlock();
      if !ValidForNonLeader(config, b, last) {
        return None;
      }
      var ok := SaveToBlockStorage(b);
      if !ok {
        return None;
      }
      if b.tx.height == height + 1 {
        var updated := SetLastCommittedBlockIfPreviousBlockMatches(b, last);
        if !updated {
          return None;
        }
        height := b.tx.height;
      }
      reply := Some(Vote(address, height, Signature(address, Status(height))));
    }

    /** Verifies a block, or makes it the last one if it is newer, or both; storage is not asked and does not
        change. Without a block there is nothing to verify, and nothing to update. */
    method HandleBlockConsensus(mode: HandleBlockConsensusMode, isPair: bool, b: Option<BlockPair>, prev: Option<BlockPair>)
      returns (ok: bool)
      modifies this
      ensures ok <==> isPair && (mode == UpdateOnly || (b.Some? && ValidConsensus(config, b.value, prev)))
      ensures Now() == if ok && mode != VerifyOnly && b.Some? then AfterUpdate(old(Now()), b.value) else old(Now())
      ensures storage == old(storage) && HeightOf(lastCommittedBlock) >= old(HeightOf(lastCommittedBlock))
    {
      if !isPair {
        return false;
      }
      if mode != UpdateOnly {
        if b == None || !ValidConsensus(config, b.value, prev) {
          return false;
        }
      }
      if mode != VerifyOnly {
        var height, last := GetLastCommittedBlock();
        if b == None {
          return true;
        }
        if b.value.tx.height > height {
          var _ := SetLastCommittedBlockIfPreviousBlockMatches(b.value, last);
        }
      }
      ok := true;
    }

    /** A block from another node is accepted exactly when it is the next one for storage; then it is the last
        committed block, or an older one than that, while storage does not hold it yet. */
    method ValidateBlockForCommit(b: BlockPair) returns (ok: bool)
      modifies this
      ensures ok <==> ValidForSync(config, b, storage)
      ensures Now() == if ok then AfterUpdate(old(Now()), b) else old(Now())
      ensures ok ==> |storage| < b.tx.height <= HeightOf(lastCommittedBlock)
      ensures ok ==>
                && b.tx.height == b.rx.height == |storage| + 1 && b.proofTypesOk
                && b.signers != [] && b.signers[0] == SenderSignature(config.leader, Signature(config.leader, BlockRef(b.tx.height, b.tx, b.rx)))
                && (storage != [] ==>
                      var top := storage[|storage| - 1]; b.tx.prevHash == Sha(top.tx) && b.rx.prevHash == Sha(top.rx))
    {
      var top := Top(storage);
      if b.tx.height != b.rx.height || b.tx.height != |storage| + 1 {
        return false;
      }
      ok := HandleBlockConsensus(VerifyAndUpdate, true, Some(b), top);
    }
  }
}
