/** Benchmark consensus over a network that loses, repeats and reorders messages, with commits, votes,
    rounds and block synchronization interleaved at every node, and nodes that stop and start again.
 */
module ConsensusNetwork {
  import opened Digests
  import opened BenchmarkConsensus

  /** A commit being handled at a non-leader: validated, then stored; seen is the last block it started from. */
  datatype Task = Validated(node: Address, block: BlockPair, seen: Option<BlockPair>)
                | Stored(node: Address, block: BlockPair, seen: Option<BlockPair>)

  /** A block from another node that a node has validated, on its way to storage. */
  datatype SyncTask = SyncTask(node: Address, block: BlockPair)

  /** A validated vote on its way to being counted. */
  datatype VoteTask = VoteTask(vote: Vote, seen: Option<BlockPair>)

  /** The leader's round: at rest, or with a new block that is made, then stored. */
  datatype Round = Waiting | Proposed(block: BlockPair, seen: Option<BlockPair>) | Saved(block: BlockPair, seen: Option<BlockPair>)

  /** released holds the signatures that have left their signer; a message carries no others of these
      signers. What has been released, begun or sent stays available, so anything may happen again or never. */
  datatype System = System(
    nodes: map<Address, Node>, round: Round, released: set<Signature>, tasks: set<Task>, syncs: set<SyncTask>,
    voteTasks: set<VoteTask>, sends: set<nat>)

  datatype Action =
    | LeaderStart
    | LeaderPropose(txContent: seq<nat>, rxContent: seq<nat>)
    | LeaderSave
    | LeaderSet
    | DeliverCommit(node: Address, block: BlockPair)
    | StoreBlock(task: Task)
    | FinishCommit(task: Task)
    | DeliverVote(vote: Vote)
    | CountVote(voteTask: VoteTask)
    | WakeUp(height: nat)
    | SyncValidate(node: Address, block: BlockPair)
    | SyncStore(sync: SyncTask)
    | SyncLatest(node: Address, block: BlockPair)
    | Restart(node: Address)

  const EMPTY_NODE: Node := Node([], None, None, {}, false)

  function Initial(c: Config): System
  {
    System(map v | v in c.validators :: EMPTY_NODE, Waiting, {}, {}, {}, {}, {})
  }

  ghost predicate Wired(c: Config, s: System)
  {
    c.leader in s.nodes && s.nodes.Keys == c.validators
  }

  predicate Enabled(c: Config, s: System, a: Action)
    requires c.leader in s.nodes
  {
    match a
    case LeaderStart => s.nodes[c.leader].last.None?
    case LeaderPropose(_, _) => s.round.Waiting? && MayPropose(s.nodes[c.leader])
    case LeaderSave => s.round.Proposed?
    case LeaderSet => s.round.Saved?
    case DeliverCommit(v, b) =>
      && v in s.nodes && v != c.leader && ValidForNonLeader(c, b, s.nodes[v].last)
      && b.signers[0].signature in s.released
    case StoreBlock(t) => t in s.tasks && t.Validated? && t.node in s.nodes && Store(s.nodes[t.node].storage, t.block).Some?
    case FinishCommit(t) => t in s.tasks && t.Stored? && t.node in s.nodes
    case DeliverVote(v) => ValidVote(c, v, HeightOf(s.nodes[c.leader].last)) && v.signature in s.released
    case CountVote(t) => t in s.voteTasks
    case WakeUp(h) => h in s.sends
    case SyncValidate(v, b) => v in s.nodes && ValidForSync(c, b, s.nodes[v].storage) && b.signers[0].signature in s.released
    case SyncStore(t) => t in s.syncs && t.node in s.nodes && Store(s.nodes[t.node].storage, t.block).Some?
    case SyncLatest(v, b) => v in s.nodes && b in s.nodes[v].storage
    case Restart(v) => v in s.nodes
  }

  function Next(c: Config, s: System, a: Action): System
    requires c.leader in s.nodes && Enabled(c, s, a)
  {
    var leader := s.nodes[c.leader];
    match a
    case LeaderStart =>
      s.(nodes := s.nodes[c.leader := leader.(last := Some(Genesis(c)))],
         released := s.released + {Signature(c.leader, RefOf(Genesis(c)))})
    case LeaderPropose(tx, rx) => s.(round := Proposed(Proposal(c, leader.last.value, tx, rx), leader.last))
    case LeaderSave =>
      var stored := Store(leader.storage, s.round.block);
      if stored.None? then s.(round := Waiting)
      else
        s.(nodes := s.nodes[c.leader := leader.(storage := stored.value)],
           round := Saved(s.round.block, s.round.seen),
           released := s.released + {Signature(c.leader, RefOf(s.round.block))})
    case LeaderSet => s.(nodes := s.nodes[c.leader := SetLast(leader, s.round.block, s.round.seen)], round := Waiting)
    case DeliverCommit(v, b) =>
      s.(tasks := s.tasks + {Validated(v, b, s.nodes[v].last)})
    case StoreBlock(t) =>
      var n := s.nodes[t.node];
      s.(nodes := s.nodes[t.node := n.(storage := Store(n.storage, t.block).value)],
         tasks := s.tasks + {Stored(t.node, t.block, t.seen)})
    case FinishCommit(t) =>
      var (after, reply) := AfterCommit(s.nodes[t.node], t.block, t.seen);
      s.(nodes := s.nodes[t.node := after],
         released := s.released + if reply.None? then {} else {Signature(t.node, Status(reply.value))})
    case DeliverVote(v) =>
      s.(voteTasks := s.voteTasks + {VoteTask(v, leader.last)})
    case CountVote(t) =>
      var (after, enough) := AfterVote(c, leader, t.vote.sender, t.seen);
      s.(nodes := s.nodes[c.leader := after],
         sends := s.sends + if enough then {HeightOf(t.seen)} else {})
    case WakeUp(h) =>
      s.(nodes := s.nodes[c.leader := leader.(lastVoted := Some(h))])
    case SyncValidate(v, b) =>
      s.(nodes := s.nodes[v := AfterUpdate(s.nodes[v], b)], syncs := s.syncs + {SyncTask(v, b)})
    case SyncStore(t) =>
      var n := s.nodes[t.node];
      s.(nodes := s.nodes[t.node := n.(storage := Store(n.storage, t.block).value)])
    case SyncLatest(v, b) =>
      s.(nodes := s.nodes[v := AfterUpdate(s.nodes[v], b)])
    case Restart(v) =>
      var storage := s.nodes[v].storage;
      s.(nodes := s.nodes[v := Node(storage, Top(storage), None, {}, false)],
         round := if v == c.leader then Waiting else s.round)
  }

  ghost predicate IsRun(c: Config, states: seq<System>, actions: seq<Action>)
  {
    && c.leader in c.validators
    && |states| == |actions| + 1 && states[0] == Initial(c)
    && forall i :: 0 <= i < |actions| ==>
         && c.leader in states[i].nodes && Enabled(c, states[i], actions[i])
         && states[i + 1] == Next(c, states[i], actions[i])
  }

  /** A round that is not interrupted does what LeaderConsensusRoundTick does. */
  lemma TickIsItsSteps(c: Config, s: System, tx: seq<nat>, rx: seq<nat>)
    requires c.leader in s.nodes && Enabled(c, s, LeaderPropose(tx, rx))
    requires Store(s.nodes[c.leader].storage, Proposal(c, s.nodes[c.leader].last.value, tx, rx)).Some?
    ensures var saved := Next(c, Next(c, s, LeaderPropose(tx, rx)), LeaderSave);
            && saved.round.Saved? && c.leader in saved.nodes
            && Next(c, saved, LeaderSet).nodes == s.nodes[c.leader := AfterTick(c, s.nodes[c.leader], tx, rx)]
            && Next(c, saved, LeaderSet).round == s.round
  {
  }

  // ----- the invariant -----

  predicate IsPrefix(short: seq<BlockPair>, long: seq<BlockPair>)
  {
    |short| <= |long| && forall i :: 0 <= i < |short| ==> SameBlock(short[i], long[i])
  }

  predicate Numbered(storage: seq<BlockPair>)
  {
    forall i :: 0 <= i < |storage| ==> storage[i].tx.height == i + 1 && storage[i].rx.height == i + 1
  }

  /** The top of storage, or the genesis block under it. */
  function Tip(c: Config, storage: seq<BlockPair>): Option<BlockPair>
  {
    if storage == [] then Some(Genesis(c)) else Top(storage)
  }

  /** Every block is signed by the leader and links to the one before it, the first to the genesis block. */
  predicate Linked(c: Config, storage: seq<BlockPair>)
  {
    forall i {:trigger Before(c, storage, i)} :: 0 <= i < |storage| ==> ValidConsensus(c, storage[i], Some(Before(c, storage, i)))
  }

  function Before(c: Config, storage: seq<BlockPair>, i: nat): BlockPair
    requires i < |storage|
  {
    if i == 0 then Genesis(c) else storage[i - 1]
  }

  /** The leader's storage is numbered and linked, and its last block is the top of it, or the block below it while a
      round has stored a block and not set it yet. */
  predicate LeaderChain(c: Config, n: Node, round: Round)
  {
    && Numbered(n.storage) && Linked(c, n.storage)
    && match round
       case Waiting => n.last == Tip(c, n.storage) || (n.storage == [] && n.last == None)
       case Proposed(b, seen) =>
         && n.last == seen == Tip(c, n.storage) && b.tx.height == b.rx.height == |n.storage| + 1
         && ValidConsensus(c, b, seen)
       case Saved(b, seen) =>
         && n.storage != [] && Some(b) == Top(n.storage) && seen == Tip(c, n.storage[..|n.storage| - 1])
         && (n.last == seen || n.last == Some(b))
  }

  /** The headers are those of the genesis block or of a block of the leader. */
  predicate Known(c: Config, chain: seq<BlockPair>, tx: Header, rx: Header)
  {
    || (tx == Genesis(c).tx && rx == Genesis(c).rx)
    || (1 <= tx.height <= |chain| && chain[tx.height - 1].tx == tx && chain[tx.height - 1].rx == rx)
  }

  /** A validator other than the leader whose last block may be the block of height h: storage holds all before it. */
  ghost predicate HasReached(c: Config, s: System, v: Address, h: nat)
  {
    v in s.nodes && v != c.leader && h <= |s.nodes[v].storage| + 1
  }

  /** The leader has let out its signature of every block in its storage. */
  ghost predicate Released(c: Config, s: System)
    requires c.leader in s.nodes
  {
    forall b :: b in s.nodes[c.leader].storage ==> Signature(c.leader, RefOf(b)) in s.released
  }

  ghost predicate SignatureTrue(c: Config, s: System, x: Signature)
    requires Wired(c, s)
  {
    match x.data
    case BlockRef(_, tx, rx) => x.signer == c.leader && Known(c, s.nodes[c.leader].storage, tx, rx)
    case Status(h) => HasReached(c, s, x.signer, h)
  }

  /** The follower's storage is behind the leader's; its last block is one of the leader's, at most one
      ahead of its storage. */
  ghost predicate FollowerBehind(c: Config, s: System, v: Address)
    requires Wired(c, s) && v in s.nodes
  {
    var chain, n := s.nodes[c.leader].storage, s.nodes[v];
    && IsPrefix(n.storage, chain)
    && HeightOf(n.last) <= |n.storage| + 1
    && (n.last.Some? ==> Known(c, chain, n.last.value.tx, n.last.value.rx))
  }

  ghost predicate TaskTrue(c: Config, s: System, t: Task)
    requires Wired(c, s)
  {
    && HasReached(c, s, t.node, HeightOf(t.seen))
    && Known(c, s.nodes[c.leader].storage, t.block.tx, t.block.rx)
    && (t.Stored? ==> HasCommitted(c, s, t.node, t.block.tx.height))
  }

  ghost predicate SyncTrue(c: Config, s: System, t: SyncTask)
    requires Wired(c, s)
  {
    t.node != c.leader && Known(c, s.nodes[c.leader].storage, t.block.tx, t.block.rx)
  }

  /** A validator other than the leader that has stored the leader's block of height h. */
  ghost predicate HasCommitted(c: Config, s: System, v: Address, h: nat)
  {
    v in s.nodes && v != c.leader && h <= |s.nodes[v].storage|
  }

  ghost function CommittedBy(c: Config, s: System, h: nat): set<Address>
  {
    set v | v in s.nodes && HasCommitted(c, s, v, h)
  }

  ghost predicate QuorumCommitted(c: Config, s: System, h: nat)
  {
    |CommittedBy(c, s, h)| + 1 >= RequiredQuorumSize(c)
  }

  /** The validator has sent a vote for height h. */
  ghost predicate HasVoted(s: System, v: Address, h: nat)
  {
    Signature(v, Status(h)) in s.released
  }

  ghost function VotedBy(s: System, h: nat): set<Address>
  {
    set v | v in s.nodes && HasVoted(s, v, h)
  }

  ghost predicate QuorumVoted(c: Config, s: System, h: nat)
  {
    |VotedBy(s, h)| + 1 >= RequiredQuorumSize(c)
  }

  ghost predicate VotesTrue(c: Config, s: System)
    requires Wired(c, s)
  {
    var leader := s.nodes[c.leader];
    && (forall t :: t in s.voteTasks ==> HasVoted(s, t.vote.sender, HeightOf(t.seen)))
    && (forall v :: v in leader.voters ==> HasVoted(s, v, HeightOf(leader.last)))
    && (forall h :: h in s.sends ==> QuorumVoted(c, s, h))
    && (leader.lastVoted.Some? ==> QuorumVoted(c, s, leader.lastVoted.value))
    && (s.round.Proposed? ==> QuorumVoted(c, s, |leader.storage|))
  }

  ghost predicate Inv(c: Config, s: System)
  {
    && Wired(c, s)
    && LeaderChain(c, s.nodes[c.leader], s.round)
    && Released(c, s)
    && (forall x :: x in s.released ==> SignatureTrue(c, s, x))
    && (forall v :: v in s.nodes && v != c.leader ==> FollowerBehind(c, s, v))
    && (forall t :: t in s.tasks ==> TaskTrue(c, s, t))
    && (forall t :: t in s.syncs ==> SyncTrue(c, s, t))
    && VotesTrue(c, s)
  }

  // ----- storages and released signatures only grow, so what is true of them stays true -----

  ghost predicate Grows(s: System, s': System)
  {
    && s'.nodes.Keys == s.nodes.Keys
    && (forall v :: v in s.nodes ==> s.nodes[v].storage <= s'.nodes[v].storage)
    && s.released <= s'.released
  }

  lemma StepGrows(c: Config, s: System, a: Action)
    requires Wired(c, s) && Enabled(c, s, a)
    ensures Wired(c, Next(c, s, a)) && Grows(s, Next(c, s, a))
  {
    hide AfterVote, AfterCommit, AfterUpdate, Store;
    match a {
      case LeaderSave => StoreGrows(s.nodes[c.leader].storage, s.round.block);
      case StoreBlock(t) => StoreGrows(s.nodes[t.node].storage, t.block);
      case SyncStore(t) => StoreGrows(s.nodes[t.node].storage, t.block);
      case FinishCommit(t) => CommitFinished(s.nodes[t.node], t.block, t.seen);
      case CountVote(t) => VoteCounted(c, s.nodes[c.leader], t.vote.sender, t.seen);
      case SyncValidate(v, b) => UpdateTaken(s.nodes[v], b);
      case SyncLatest(v, b) => UpdateTaken(s.nodes[v], b);
      case _ =>
    }
  }

  lemma StoreGrows(storage: seq<BlockPair>, b: BlockPair)
    ensures Store(storage, b).Some? ==> storage <= Store(storage, b).value
  {
  }

  lemma CommitFinished(n: Node, b: BlockPair, seen: Option<BlockPair>)
    ensures AfterCommit(n, b, seen).0.storage == n.storage
  {
  }

  lemma UpdateTaken(n: Node, b: BlockPair)
    ensures var after := AfterUpdate(n, b);
            && after.storage == n.storage && after.lastVoted == n.lastVoted
            && (after == n || (after.last == Some(b) && after.voters == {}))
  {
  }

  lemma {:induction false} RunGrows(c: Config, states: seq<System>, actions: seq<Action>, m: nat, n: nat)
    requires IsRun(c, states, actions) && m <= n < |states|
    requires Wired(c, states[m])
    ensures Wired(c, states[n]) && Grows(states[m], states[n])
  {
    if m < n {
      RunGrows(c, states, actions, m, n - 1);
      hide Enabled, Next, Grows, Wired;
      assert states[n] == Next(c, states[n - 1], actions[n - 1]);
      StepGrows(c, states[n - 1], actions[n - 1]);
      GrowsFurther(states[m], states[n - 1], states[n]);
    } else {
      assert Grows(states[m], states[m]);
    }
  }

  lemma GrowsFurther(s: System, s': System, s'': System)
    requires Grows(s, s') && Grows(s', s'')
    ensures Grows(s, s'')
  {
  }

  lemma {:induction false} SubsetSize(a: set<Address>, b: set<Address>)
    requires a <= b
    ensures |a| <= |b|
  {
    if a != {} {
      var x :| x in a;
      SubsetSize(a - {x}, b - {x});
    }
  }

  lemma QuorumStays(c: Config, s: System, s': System, h: nat)
    requires Grows(s, s') && QuorumVoted(c, s, h)
    ensures QuorumVoted(c, s', h)
  {
    SubsetSize(VotedBy(s, h), VotedBy(s', h));
  }

  lemma KnownStays(c: Config, chain: seq<BlockPair>, chain': seq<BlockPair>, tx: Header, rx: Header)
    requires chain <= chain' && Known(c, chain, tx, rx)
    ensures Known(c, chain', tx, rx)
  {
  }

  /** Everything that was true of released signatures, tasks and votes stays true. */
  lemma {:induction false} TruthStays(c: Config, s: System, s': System)
    requires Inv(c, s) && Wired(c, s') && Grows(s, s')
    ensures forall x :: x in s.released ==> SignatureTrue(c, s', x)
    ensures forall t :: t in s.tasks ==> TaskTrue(c, s', t)
    ensures forall t :: t in s.syncs ==> SyncTrue(c, s', t)
    ensures forall t :: t in s.voteTasks ==> HasVoted(s', t.vote.sender, HeightOf(t.seen))
    ensures forall v :: v in s.nodes[c.leader].voters ==> HasVoted(s', v, HeightOf(s.nodes[c.leader].last))
    ensures forall h :: h in s.sends ==> QuorumVoted(c, s', h)
    ensures s.nodes[c.leader].lastVoted.Some? ==> QuorumVoted(c, s', s.nodes[c.leader].lastVoted.value)
    ensures s.round.Proposed? ==> QuorumVoted(c, s', |s.nodes[c.leader].storage|)
    ensures s'.nodes[c.leader].storage == s.nodes[c.leader].storage ==> Released(c, s')
  {
    hide QuorumVoted, Known, LeaderChain;
    var chain, chain' := s.nodes[c.leader].storage, s'.nodes[c.leader].storage;
    forall tx, rx | Known(c, chain, tx, rx) ensures Known(c, chain', tx, rx) {
      KnownStays(c, chain, chain', tx, rx);
    }
    forall x | x in s.released ensures SignatureTrue(c, s', x) {
      assert SignatureTrue(c, s, x);
    }
    forall t | t in s.tasks ensures TaskTrue(c, s', t) {
      assert TaskTrue(c, s, t);
    }
    forall t | t in s.syncs ensures SyncTrue(c, s', t) {
      assert SyncTrue(c, s, t);
    }
    forall h | QuorumVoted(c, s, h) ensures QuorumVoted(c, s', h) {
      QuorumStays(c, s, s', h);
    }
  }

  /** A follower whose own state has not changed stays behind a leader that grows. */
  lemma FollowersStay(c: Config, s: System, s': System, except: Address)
    requires Inv(c, s) && Wired(c, s') && Grows(s, s')
    requires forall v :: v in s.nodes && v != c.leader && v != except ==>
               s'.nodes[v].storage == s.nodes[v].storage && s'.nodes[v].last == s.nodes[v].last
    ensures forall v :: v in s'.nodes && v != c.leader && v != except ==> FollowerBehind(c, s', v)
  {
    hide Known;
    var chain, chain' := s.nodes[c.leader].storage, s'.nodes[c.leader].storage;
    forall v | v in s'.nodes && v != c.leader && v != except ensures FollowerBehind(c, s', v) {
      assert FollowerBehind(c, s, v);
      var last := s.nodes[v].last;
      if last.Some? { KnownStays(c, chain, chain', last.value.tx, last.value.rx); }
    }
  }

  // ----- every step keeps the invariant -----

  lemma {:induction false} LeaderStartKeeps(c: Config, s: System)
    requires Inv(c, s) && Enabled(c, s, LeaderStart)
    ensures Inv(c, Next(c, s, LeaderStart))
  {
    hide QuorumVoted;
    var s' := Next(c, s, LeaderStart);
    StepGrows(c, s, LeaderStart);
    TruthStays(c, s, s');
    FollowersStay(c, s, s', c.leader);
  }

  lemma {:induction false} LeaderProposeKeeps(c: Config, s: System, a: Action)
    requires Inv(c, s) && a.LeaderPropose? && Enabled(c, s, a)
    ensures Inv(c, Next(c, s, a))
  {
    hide QuorumVoted, SignatureTrue, TaskTrue, SyncTrue, FollowerBehind, ValidConsensus, Linked, Released;
    var s' := Next(c, s, a);
    StepGrows(c, s, a);
    TruthStays(c, s, s');
    FollowersStay(c, s, s', c.leader);
    ProposalLinks(c, s.nodes[c.leader].last.value, a.txContent, a.rxContent);
  }

  lemma {:induction false} LeaderSaveKeeps(c: Config, s: System)
    requires Inv(c, s) && Enabled(c, s, LeaderSave)
    ensures Inv(c, Next(c, s, LeaderSave))
  {
    hide QuorumVoted, TaskTrue, SyncTrue, FollowerBehind, ValidConsensus, Linked;
    var s' := Next(c, s, LeaderSave);
    StepGrows(c, s, LeaderSave);
    TruthStays(c, s, s');
    FollowersStay(c, s, s', c.leader);
    LinkedFurther(c, s.nodes[c.leader].storage, s.round.block);
    assert s'.nodes[c.leader].storage == s.nodes[c.leader].storage + [s.round.block];
    assert s'.nodes[c.leader].storage[..|s.nodes[c.leader].storage|] == s.nodes[c.leader].storage;
    assert SignatureTrue(c, s', Signature(c.leader, RefOf(s.round.block)));
  }

  lemma LinkedFurther(c: Config, storage: seq<BlockPair>, b: BlockPair)
    requires Linked(c, storage) && ValidConsensus(c, b, Tip(c, storage))
    ensures Linked(c, storage + [b])
  {
    hide ValidConsensus;
    var all := storage + [b];
    forall i | 0 <= i < |all| ensures ValidConsensus(c, all[i], Some(Before(c, all, i))) {
      if i < |storage| {
        assert all[i] == storage[i] && Before(c, all, i) == Before(c, storage, i);
      } else {
        assert Some(Before(c, all, i)) == Tip(c, storage);
      }
    }
  }

  lemma {:induction false} LeaderSetKeeps(c: Config, s: System)
    requires Inv(c, s) && Enabled(c, s, LeaderSet)
    ensures Inv(c, Next(c, s, LeaderSet))
  {
    hide QuorumVoted, SignatureTrue, TaskTrue, SyncTrue, FollowerBehind;
    var s' := Next(c, s, LeaderSet);
    StepGrows(c, s, LeaderSet);
    TruthStays(c, s, s');
    FollowersStay(c, s, s', c.leader);
  }

  lemma {:induction false} DeliverCommitKeeps(c: Config, s: System, a: Action)
    requires Inv(c, s) && a.DeliverCommit? && Enabled(c, s, a)
    ensures Inv(c, Next(c, s, a))
  {
    hide QuorumVoted;
    var s' := Next(c, s, a);
    StepGrows(c, s, a);
    TruthStays(c, s, s');
    FollowersStay(c, s, s', c.leader);
    assert SignatureTrue(c, s, a.block.signers[0].signature);
    assert FollowerBehind(c, s, a.node);
    assert TaskTrue(c, s', Validated(a.node, a.block, s.nodes[a.node].last));
  }

  /** Storing a block of the leader keeps a chain behind the leader's. */
  lemma StoreKeepsPrefix(c: Config, storage: seq<BlockPair>, chain: seq<BlockPair>, b: BlockPair)
    requires IsPrefix(storage, chain) && Known(c, chain, b.tx, b.rx) && Store(storage, b).Some?
    ensures IsPrefix(Store(storage, b).value, chain) && storage <= Store(storage, b).value
    ensures b.tx.height <= |Store(storage, b).value|
  {
  }

  lemma {:induction false} StoreBlockKeeps(c: Config, s: System, a: Action)
    requires Inv(c, s) && a.StoreBlock? && Enabled(c, s, a)
    ensures Inv(c, Next(c, s, a))
  {
    hide QuorumVoted;
    var s', t := Next(c, s, a), a.task;
    StepGrows(c, s, a);
    TruthStays(c, s, s');
    FollowersStay(c, s, s', t.node);
    assert TaskTrue(c, s, t) && FollowerBehind(c, s, t.node);
    StoreKeepsPrefix(c, s.nodes[t.node].storage, s.nodes[c.leader].storage, t.block);
    hide IsPrefix, Known, Store, SignatureTrue;
    assert TaskTrue(c, s', t);
    assert FollowerBehind(c, s', t.node);
    assert TaskTrue(c, s', Stored(t.node, t.block, t.seen));
  }

  lemma {:induction false} SyncStoreKeeps(c: Config, s: System, a: Action)
    requires Inv(c, s) && a.SyncStore? && Enabled(c, s, a)
    ensures Inv(c, Next(c, s, a))
  {
    hide QuorumVoted;
    var s', t := Next(c, s, a), a.sync;
    StepGrows(c, s, a);
    TruthStays(c, s, s');
    FollowersStay(c, s, s', t.node);
    assert SyncTrue(c, s, t) && FollowerBehind(c, s, t.node);
    StoreKeepsPrefix(c, s.nodes[t.node].storage, s.nodes[c.leader].storage, t.block);
    hide IsPrefix, Known, Store, SignatureTrue;
    assert FollowerBehind(c, s', t.node);
  }

  lemma {:induction false} FinishCommitKeeps(c: Config, s: System, a: Action)
    requires Inv(c, s) && a.FinishCommit? && Enabled(c, s, a)
    ensures Inv(c, Next(c, s, a))
  {
    hide QuorumVoted, Known, IsPrefix;
    var s', t := Next(c, s, a), a.task;
    StepGrows(c, s, a);
    TruthStays(c, s, s');
    FollowersStay(c, s, s', t.node);
    assert TaskTrue(c, s, t) && FollowerBehind(c, s, t.node);
    assert FollowerBehind(c, s', t.node);
  }

  lemma {:induction false} DeliverVoteKeeps(c: Config, s: System, a: Action)
    requires Inv(c, s) && a.DeliverVote? && Enabled(c, s, a)
    ensures Inv(c, Next(c, s, a))
  {
    hide QuorumVoted;
    var s' := Next(c, s, a);
    StepGrows(c, s, a);
    TruthStays(c, s, s');
    FollowersStay(c, s, s', c.leader);
  }

  lemma {:induction false} CountVoteKeeps(c: Config, s: System, a: Action)
    requires Inv(c, s) && a.CountVote? && Enabled(c, s, a)
    ensures Inv(c, Next(c, s, a))
  {
    hide QuorumVoted, FollowerBehind, TaskTrue, SyncTrue, LeaderChain, HasVoted, AfterVote, HeightOf, Known, HasReached, Released,
      RequiredQuorumSize;
    var s', t := Next(c, s, a), a.voteTask;
    StepGrows(c, s, a);
    TruthStays(c, s, s');
    FollowersStay(c, s, s', c.leader);
    var leader, after := s.nodes[c.leader], s'.nodes[c.leader];
    VoteCounted(c, leader, t.vote.sender, t.seen);
    ChainStays(c, leader, after, s.round);
    VotersMakeQuorum(c, s', after.voters, HeightOf(after.last));
  }

  /** A counted vote changes the voters only, and makes a quorum only for the block it is for. */
  lemma VoteCounted(c: Config, n: Node, sender: Address, expected: Option<BlockPair>)
    ensures var (after, enough) := AfterVote(c, n, sender, expected);
            && after.storage == n.storage && after.last == n.last && after.lastVoted == n.lastVoted
            && after.voters <= n.voters + (if n.last == expected then {sender} else {})
            && (enough ==> n.last == expected && |after.voters| + 1 >= RequiredQuorumSize(c))
  {
  }

  lemma ChainStays(c: Config, n: Node, after: Node, round: Round)
    requires LeaderChain(c, n, round) && after.storage == n.storage && after.last == n.last
    ensures LeaderChain(c, after, round)
  {
  }

  /** Enough counted voters are a quorum of validators whose votes have been sent. */
  lemma VotersMakeQuorum(c: Config, s: System, voters: set<Address>, h: nat)
    requires Wired(c, s) && forall x :: x in s.released ==> SignatureTrue(c, s, x)
    requires forall v :: v in voters ==> HasVoted(s, v, h)
    ensures voters <= c.validators - {c.leader}
    ensures |voters| + 1 >= RequiredQuorumSize(c) ==> QuorumVoted(c, s, h)
  {
    forall v | v in voters ensures v in VotedBy(s, h) && v != c.leader {
      assert SignatureTrue(c, s, Signature(v, Status(h)));
    }
    SubsetSize(voters, VotedBy(s, h));
  }

  lemma {:induction false} WakeUpKeeps(c: Config, s: System, a: Action)
    requires Inv(c, s) && a.WakeUp? && Enabled(c, s, a)
    ensures Inv(c, Next(c, s, a))
  {
    hide QuorumVoted;
    var s' := Next(c, s, a);
    StepGrows(c, s, a);
    TruthStays(c, s, s');
    FollowersStay(c, s, s', c.leader);
  }

  /** The leader has all it has signed, so synchronization brings it nothing; a follower takes a block of the
      leader as its last before it has stored it. */
  lemma {:induction false} SyncValidateKeeps(c: Config, s: System, a: Action)
    requires Inv(c, s) && a.SyncValidate? && Enabled(c, s, a)
    ensures Inv(c, Next(c, s, a)) && a.node != c.leader
  {
    hide QuorumVoted, LeaderChain, IsPrefix, AfterUpdate;
    var s', n := Next(c, s, a), s.nodes[a.node];
    StepGrows(c, s, a);
    TruthStays(c, s, s');
    assert SignatureTrue(c, s, a.block.signers[0].signature);
    FollowersStay(c, s, s', a.node);
    UpdateTaken(n, a.block);
    assert FollowerBehind(c, s, a.node);
    assert FollowerBehind(c, s', a.node);
  }

  /** Every block of a follower's storage is a block of the leader. */
  lemma StoredIsKnown(c: Config, storage: seq<BlockPair>, chain: seq<BlockPair>, b: BlockPair)
    requires IsPrefix(storage, chain) && Numbered(chain) && b in storage
    ensures 1 <= b.tx.height <= |storage| && Known(c, chain, b.tx, b.rx)
  {
    var i :| 0 <= i < |storage| && storage[i] == b;
    assert SameBlock(storage[i], chain[i]);
  }

  lemma ChainNumbered(c: Config, n: Node, round: Round)
    requires LeaderChain(c, n, round)
    ensures Numbered(n.storage) && Linked(c, n.storage)
  {
  }

  lemma {:induction false} SyncLatestKeeps(c: Config, s: System, a: Action)
    requires Inv(c, s) && a.SyncLatest? && Enabled(c, s, a)
    ensures Inv(c, Next(c, s, a))
  {
    hide QuorumVoted, IsPrefix, Known, SignatureTrue, TaskTrue, SyncTrue, AfterUpdate, LeaderChain;
    var s', n, chain := Next(c, s, a), s.nodes[a.node], s.nodes[c.leader].storage;
    StepGrows(c, s, a);
    TruthStays(c, s, s');
    FollowersStay(c, s, s', a.node);
    if a.node == c.leader {
      UpdatedLeader(c, n, s.round, a.block);
    } else {
      assert FollowerBehind(c, s, a.node);
      assert Numbered(chain) by { ChainNumbered(c, s.nodes[c.leader], s.round); }
      StoredIsKnown(c, n.storage, chain, a.block);
      UpdateTaken(n, a.block);
      assert FollowerBehind(c, s', a.node);
    }
  }

  /** Storage can tell the leader of a newer block only while a round has stored one and not set it. */
  lemma UpdatedLeader(c: Config, n: Node, round: Round, b: BlockPair)
    requires LeaderChain(c, n, round) && b in n.storage
    ensures LeaderChain(c, AfterUpdate(n, b), round)
    ensures AfterUpdate(n, b) == n || AfterUpdate(n, b).voters == {}
    ensures AfterUpdate(n, b).storage == n.storage && AfterUpdate(n, b).lastVoted == n.lastVoted
  {
    hide Linked;
    var i :| 0 <= i < |n.storage| && n.storage[i] == b;
  }

  lemma {:induction false} RestartKeeps(c: Config, s: System, a: Action)
    requires Inv(c, s) && a.Restart? && Enabled(c, s, a)
    ensures Inv(c, Next(c, s, a))
  {
    hide QuorumVoted, Known, IsPrefix, Numbered, Linked, SignatureTrue, TaskTrue, SyncTrue, LeaderChain;
    var s', n := Next(c, s, a), s.nodes[a.node];
    StepGrows(c, s, a);
    TruthStays(c, s, s');
    FollowersStay(c, s, s', a.node);
    ChainNumbered(c, s.nodes[c.leader], s.round);
    if a.node == c.leader {
      ChainRestarts(c, n);
    } else {
      assert FollowerBehind(c, s, a.node);
      if n.storage != [] { StoredIsKnown(c, n.storage, s.nodes[c.leader].storage, n.storage[|n.storage| - 1]); }
      assert FollowerBehind(c, s', a.node);
    }
  }

  lemma ChainRestarts(c: Config, n: Node)
    requires Numbered(n.storage) && Linked(c, n.storage)
    ensures LeaderChain(c, Node(n.storage, Top(n.storage), None, {}, false), Waiting)
  {
  }

  lemma {:induction false} RunKeepsInv(c: Config, states: seq<System>, actions: seq<Action>, n: nat)
    requires IsRun(c, states, actions) && n < |states|
    ensures Inv(c, states[n])
  {
    if n == 0 {
      assert states[0] == Initial(c);
    } else {
      RunKeepsInv(c, states, actions, n - 1);
      hide Inv, Enabled, Next;
      var s, a := states[n - 1], actions[n - 1];
      assert states[n] == Next(c, s, a) && Enabled(c, s, a);
      match a
      case LeaderStart => LeaderStartKeeps(c, s);
      case LeaderPropose(_, _) => LeaderProposeKeeps(c, s, a);
      case LeaderSave => LeaderSaveKeeps(c, s);
      case LeaderSet => LeaderSetKeeps(c, s);
      case DeliverCommit(_, _) => DeliverCommitKeeps(c, s, a);
      case StoreBlock(_) => StoreBlockKeeps(c, s, a);
      case FinishCommit(_) => FinishCommitKeeps(c, s, a);
      case DeliverVote(_) => DeliverVoteKeeps(c, s, a);
      case CountVote(_) => CountVoteKeeps(c, s, a);
      case WakeUp(_) => WakeUpKeeps(c, s, a);
      case SyncValidate(_, _) => SyncValidateKeeps(c, s, a);
      case SyncStore(_) => SyncStoreKeeps(c, s, a);
      case SyncLatest(_, _) => SyncLatestKeeps(c, s, a);
      case Restart(_) => RestartKeeps(c, s, a);
    }
  }

  // ----- what the protocol is for -----

  /** In every reachable state every chain is a prefix of the leader's, so no two nodes hold different
      blocks at one height. */
  lemma {:induction false} Agreement(c: Config, states: seq<System>, actions: seq<Action>, n: nat)
    requires IsRun(c, states, actions) && n < |states|
    ensures c.leader in states[n].nodes
    ensures forall v :: v in states[n].nodes ==> IsPrefix(states[n].nodes[v].storage, states[n].nodes[c.leader].storage)
    ensures forall v, w, i |
              v in states[n].nodes && w in states[n].nodes &&
              0 <= i < |states[n].nodes[v].storage| && i < |states[n].nodes[w].storage| ::
              SameBlock(states[n].nodes[v].storage[i], states[n].nodes[w].storage[i])
  {
    RunKeepsInv(c, states, actions, n);
    var s := states[n];
    forall v | v in s.nodes ensures IsPrefix(s.nodes[v].storage, s.nodes[c.leader].storage) {
      if v != c.leader { assert FollowerBehind(c, s, v); }
    }
  }
}
