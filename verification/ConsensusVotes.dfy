/** What a vote stands for over all runs, and what the leader knows when it moves on. A follower takes a
    synchronized block as its last before it stores it, so a vote can come before the block it is for is
    in storage.
 */
module ConsensusVotes {
  import opened Digests
  import opened BenchmarkConsensus
  import opened ConsensusNetwork

  /** The node has had this last block in one of the first states of the run. */
  ghost predicate WasLast(states: seq<System>, n: nat, v: Address, last: Option<BlockPair>)
    requires n < |states|
  {
    exists m :: 0 <= m <= n && v in states[m].nodes && states[m].nodes[v].last == last
  }

  lemma WasLastLater(states: seq<System>, m: nat, n: nat, v: Address, last: Option<BlockPair>)
    requires m <= n < |states| && WasLast(states, m, v, last)
    ensures WasLast(states, n, v, last)
  {
    var k :| 0 <= k <= m && v in states[k].nodes && states[k].nodes[v].last == last;
  }

  lemma {:induction false} TaskSawLast(c: Config, states: seq<System>, actions: seq<Action>, n: nat, t: Task)
    requires IsRun(c, states, actions) && n < |states| && t in states[n].tasks
    ensures WasLast(states, n, t.node, t.seen)
  {
    if n > 0 {
      hide WasLast;
      var s, a := states[n - 1], actions[n - 1];
      assert states[n] == Next(c, s, a) && Enabled(c, s, a);
      if a.DeliverCommit? && t == Validated(a.node, a.block, s.nodes[a.node].last) {
        assert WasLast(states, n - 1, t.node, t.seen) by { LastNow(states, n - 1, t.node); }
      } else {
        TaskSawLast(c, states, actions, n - 1, if t in s.tasks then t else a.task);
      }
      WasLastLater(states, n - 1, n, t.node, t.seen);
    }
  }

  lemma LastNow(states: seq<System>, n: nat, v: Address)
    requires n < |states| && v in states[n].nodes
    ensures WasLast(states, n, v, states[n].nodes[v].last)
  {
  }

  /** What a finished commit replies with is the height of a last block its node has had. */
  lemma {:induction false} VoteFollowsLast(c: Config, states: seq<System>, actions: seq<Action>, n: nat, v: Address, h: nat)
    returns (last: Option<BlockPair>)
    requires IsRun(c, states, actions) && n < |states| && HasVoted(states[n], v, h)
    ensures WasLast(states, n, v, last) && HeightOf(last) == h
  {
    hide WasLast;
    assert n > 0;
    var s, a := states[n - 1], actions[n - 1];
    assert states[n] == Next(c, s, a) && Enabled(c, s, a);
    if HasVoted(s, v, h) {
      last := VoteFollowsLast(c, states, actions, n - 1, v, h);
      WasLastLater(states, n - 1, n, v, last);
    } else if a.task.block.tx.height == HeightOf(a.task.seen) + 1 {
      last := Some(a.task.block);
      LastNow(states, n, v);
    } else {
      last := a.task.seen;
      TaskSawLast(c, states, actions, n - 1, a.task);
      WasLastLater(states, n - 1, n, v, last);
    }
  }

  /** A block that was the last one of a follower is the genesis block or a block of the leader, then and now. */
  lemma {:induction false} LastIsLeaders(c: Config, states: seq<System>, actions: seq<Action>, n: nat, v: Address, last: BlockPair)
    requires IsRun(c, states, actions) && n < |states| && v != c.leader && WasLast(states, n, v, Some(last))
    ensures c.leader in states[n].nodes && Known(c, states[n].nodes[c.leader].storage, last.tx, last.rx)
  {
    var m :| 0 <= m <= n && v in states[m].nodes && states[m].nodes[v].last == Some(last);
    RunKeepsInv(c, states, actions, m);
    assert FollowerBehind(c, states[m], v);
    RunGrows(c, states, actions, m, n);
    KnownStays(c, states[m].nodes[c.leader].storage, states[n].nodes[c.leader].storage, last.tx, last.rx);
  }

  /** A vote for height h comes from a validator other than the leader. Its last block has been the leader's
      block of that height, and its storage holds all blocks before that one. */
  lemma {:induction false} VoteStandsFor(c: Config, states: seq<System>, actions: seq<Action>, n: nat, v: Address, h: nat)
    requires IsRun(c, states, actions) && n < |states| && HasVoted(states[n], v, h)
    ensures v in states[n].nodes && v in c.validators && v != c.leader && h <= |states[n].nodes[v].storage| + 1
    ensures c.leader in states[n].nodes && h <= |states[n].nodes[c.leader].storage|
    ensures exists last :: WasLast(states, n, v, last) && HeightOf(last) == h &&
              (h > 0 ==> last.Some? && SameBlock(last.value, states[n].nodes[c.leader].storage[h - 1]))
  {
    RunKeepsInv(c, states, actions, n);
    assert SignatureTrue(c, states[n], Signature(v, Status(h)));
    var last := VoteFollowsLast(c, states, actions, n, v, h);
    if h > 0 { LastIsLeaders(c, states, actions, n, v, last.value); }
  }

  /** The guard of a reply in the first n steps of a run: the last block that the commit started from is in storage. */
  ghost predicate RepliesFromStorage(states: seq<System>, actions: seq<Action>, n: nat)
    requires n <= |actions| < |states|
  {
    forall i :: 0 <= i < n && actions[i].FinishCommit? ==>
      var t := actions[i].task;
      t.node in states[i].nodes && HeightOf(t.seen) <= |states[i].nodes[t.node].storage|
  }

  ghost predicate VotesStored(c: Config, s: System)
  {
    forall v, h: nat :: HasVoted(s, v, h) ==> HasCommitted(c, s, v, h)
  }

  /** A reply is for a stored block exactly when the last block its commit started from is in storage. */
  lemma {:induction false} ReplyStoredIff(c: Config, s: System, a: Action)
    requires Inv(c, s) && a.FinishCommit? && Enabled(c, s, a)
    ensures var t, s' := a.task, Next(c, s, a);
            && (VotesStored(c, s') ==> HeightOf(t.seen) <= |s.nodes[t.node].storage|)
            && (VotesStored(c, s) && HeightOf(t.seen) <= |s.nodes[t.node].storage| ==> VotesStored(c, s'))
  {
    var t, s' := a.task, Next(c, s, a);
    assert TaskTrue(c, s, t);
    StepGrows(c, s, a);
    hide Inv;
    var (after, reply) := AfterCommit(s.nodes[t.node], t.block, t.seen);
    if t.block.tx.height != HeightOf(t.seen) + 1 {
      assert HasVoted(s', t.node, HeightOf(t.seen));
    }
    if VotesStored(c, s) && HeightOf(t.seen) <= |s.nodes[t.node].storage| {
      forall v, h: nat | HasVoted(s', v, h) ensures HasCommitted(c, s', v, h) {
        assert HasVoted(s, v, h) || (v == t.node && reply == Some(h));
        if HasVoted(s, v, h) { assert HasCommitted(c, s, v, h); }
      }
    }
  }

  /** All votes of a run stand for blocks in storage exactly when every reply meets the guard. */
  lemma {:induction false} VotesStoredIff(c: Config, states: seq<System>, actions: seq<Action>, n: nat)
    requires IsRun(c, states, actions) && n <= |actions|
    ensures RepliesFromStorage(states, actions, n) <==> forall m | 0 <= m <= n :: VotesStored(c, states[m])
  {
    if n > 0 {
      VotesStoredIff(c, states, actions, n - 1);
      hide VotesStored, Enabled, Next;
      var s, a := states[n - 1], actions[n - 1];
      assert states[n] == Next(c, s, a) && Enabled(c, s, a);
      RunKeepsInv(c, states, actions, n - 1);
      if a.FinishCommit? {
        ReplyStoredIff(c, s, a);
        NodeOfTask(c, s, a);
      } else if VotesStored(c, s) {
        OtherStepsVote(c, s, a);
      }
      assert RepliesFromStorage(states, actions, n) <==>
             RepliesFromStorage(states, actions, n - 1) &&
             (a.FinishCommit? ==> HeightOf(a.task.seen) <= |s.nodes[a.task.node].storage|);
      assert (forall m | 0 <= m <= n :: VotesStored(c, states[m])) <==>
             (forall m | 0 <= m <= n - 1 :: VotesStored(c, states[m])) && VotesStored(c, states[n]);
    }
  }

  lemma NodeOfTask(c: Config, s: System, a: Action)
    requires c.leader in s.nodes && a.FinishCommit? && Enabled(c, s, a)
    ensures a.task.node in s.nodes
  {
  }

  lemma {:induction false} OtherStepsVote(c: Config, s: System, a: Action)
    requires Inv(c, s) && Enabled(c, s, a) && !a.FinishCommit? && VotesStored(c, s)
    ensures VotesStored(c, Next(c, s, a))
  {
    StepGrows(c, s, a);
    hide Inv, AfterVote, AfterUpdate, Store, Grows;
    var s' := Next(c, s, a);
    forall v, h: nat | HasVoted(s', v, h) ensures HasCommitted(c, s', v, h) {
      assert HasVoted(s, v, h);
      assert HasCommitted(c, s, v, h);
      GrownStorage(s, s', v);
    }
  }

  lemma GrownStorage(s: System, s': System, v: Address)
    requires Grows(s, s') && v in s.nodes
    ensures v in s'.nodes && |s.nodes[v].storage| <= |s'.nodes[v].storage|
  {
  }

  /** Whenever the leader stores a new block, at least a quorum less itself of other validators have sent
      votes for the block before it; where replies meet the guard, they have that block in storage. */
  lemma {:induction false} ProposalNeedsQuorum(c: Config, states: seq<System>, actions: seq<Action>, n: nat)
    requires IsRun(c, states, actions) && n < |actions|
    requires c.leader in states[n].nodes && c.leader in states[n + 1].nodes
    requires |states[n + 1].nodes[c.leader].storage| > |states[n].nodes[c.leader].storage|
    ensures var h := |states[n].nodes[c.leader].storage|;
            && |states[n + 1].nodes[c.leader].storage| == h + 1
            && QuorumVoted(c, states[n], h)
            && VotedBy(states[n], h) <= c.validators - {c.leader}
            && (RepliesFromStorage(states, actions, n) ==> QuorumCommitted(c, states[n], h))
  {
    RunKeepsInv(c, states, actions, n);
    var s, a, h := states[n], actions[n], |states[n].nodes[c.leader].storage|;
    assert states[n + 1] == Next(c, s, a) && Enabled(c, s, a);
    GrowthIsSave(c, s, a);
    VotersMakeQuorum(c, s, VotedBy(s, h), h);
    if RepliesFromStorage(states, actions, n) {
      VotesStoredIff(c, states, actions, n);
      assert VotesStored(c, s);
      SubsetSize(VotedBy(s, h), CommittedBy(c, s, h));
    }
  }

  lemma GrowthIsSave(c: Config, s: System, a: Action)
    requires Inv(c, s) && Enabled(c, s, a)
    requires c.leader in Next(c, s, a).nodes && |Next(c, s, a).nodes[c.leader].storage| > |s.nodes[c.leader].storage|
    ensures QuorumVoted(c, s, |s.nodes[c.leader].storage|)
    ensures |Next(c, s, a).nodes[c.leader].storage| == |s.nodes[c.leader].storage| + 1
  {
    hide QuorumVoted;
    assert a.StoreBlock? ==> TaskTrue(c, s, a.task);
    assert a.SyncStore? ==> SyncTrue(c, s, a.sync);
  }

  // ----- a vote that counts for a block its sender has not stored -----

  ghost predicate Reachable(c: Config, s: System)
  {
    exists states, actions :: IsRun(c, states, actions) && states[|actions|] == s
  }

  lemma ReachNext(c: Config, s: System, a: Action)
    requires Reachable(c, s) && c.leader in s.nodes && Enabled(c, s, a)
    ensures Reachable(c, Next(c, s, a))
  {
    hide Enabled, Next;
    var states, actions :| IsRun(c, states, actions) && states[|actions|] == s;
    var longer, more := states + [Next(c, s, a)], actions + [a];
    assert IsRun(c, longer, more) && longer[|more|] == Next(c, s, a);
  }

  const LEADER: Address := 0
  const FOLLOWER: Address := 1
  const PAIR: Config := Config(LEADER, {LEADER, FOLLOWER}, 100)

  predicate Paired(s: System) { s.nodes.Keys == {LEADER, FOLLOWER} }

  /** A commit of the genesis block, however late, is answered with the height of the follower's last block. */
  lemma {:induction false} GenesisAnswered(s: System) returns (s': System)
    requires Reachable(PAIR, s) && Paired(s) && Genesis(PAIR).signers[0].signature in s.released
    ensures Reachable(PAIR, s') && s'.nodes == s.nodes && s'.round == s.round && s.released <= s'.released
    ensures HasVoted(s', FOLLOWER, HeightOf(s.nodes[FOLLOWER].last))
  {
    hide Reachable;
    var b, seen := Genesis(PAIR), s.nodes[FOLLOWER].last;
    var a := DeliverCommit(FOLLOWER, b);
    ReachNext(PAIR, s, a);
    var s1 := Next(PAIR, s, a);
    a := StoreBlock(Validated(FOLLOWER, b, seen));
    ReachNext(PAIR, s1, a);
    var s2 := Next(PAIR, s1, a);
    assert s2.nodes == s.nodes;
    a := FinishCommit(Stored(FOLLOWER, b, seen));
    ReachNext(PAIR, s2, a);
    s' := Next(PAIR, s2, a);
    assert s'.nodes == s.nodes;
  }

  /** One vote makes the quorum of a leader and a follower, and the leader makes a block. */
  lemma {:induction false} VoteMovesOn(s: System) returns (s': System)
    requires Reachable(PAIR, s) && Paired(s) && s.round == Waiting
    requires var n := s.nodes[LEADER];
             n.last.Some? && n.voters == {} && !n.reachedQuorum && HasVoted(s, FOLLOWER, HeightOf(n.last))
    ensures Reachable(PAIR, s') && Paired(s') && s'.released == s.released && s'.nodes[FOLLOWER] == s.nodes[FOLLOWER]
    ensures var n, n' := s.nodes[LEADER], s'.nodes[LEADER];
            && n'.storage == n.storage && n'.last == n.last
            && s'.round == Proposed(Proposal(PAIR, n.last.value, [], []), n.last)
  {
    hide Reachable, Proposal;
    var n := s.nodes[LEADER];
    var h := HeightOf(n.last);
    var vote := Vote(FOLLOWER, h, Signature(FOLLOWER, Status(h)));
    ReachNext(PAIR, s, DeliverVote(vote));
    var s1 := Next(PAIR, s, DeliverVote(vote));
    var a := CountVote(VoteTask(vote, n.last));
    ReachNext(PAIR, s1, a);
    var s2 := Next(PAIR, s1, a);
    assert h in s2.sends by { FirstVoteIsEnough(n); }
    ReachNext(PAIR, s2, WakeUp(h));
    var s3 := Next(PAIR, s2, WakeUp(h));
    ReachNext(PAIR, s3, LeaderPropose([], []));
    s' := Next(PAIR, s3, LeaderPropose([], []));
  }

  lemma FirstVoteIsEnough(n: Node)
    requires n.voters == {} && !n.reachedQuorum
    ensures AfterVote(PAIR, n, FOLLOWER, n.last).1
  {
    assert n.voters + {FOLLOWER} == {FOLLOWER};
  }

  lemma RoundEnds(s: System) returns (s': System)
    requires Reachable(PAIR, s) && Paired(s) && s.round.Proposed?
    requires var n := s.nodes[LEADER]; s.round.block.tx.height == |n.storage| + 1 && s.round.seen == n.last
    ensures Reachable(PAIR, s') && Paired(s') && s.released <= s'.released && s'.nodes[FOLLOWER] == s.nodes[FOLLOWER]
    ensures s'.nodes[LEADER].storage == s.nodes[LEADER].storage + [s.round.block] && s'.nodes[LEADER].last == Some(s.round.block)
    ensures s'.nodes[LEADER].voters == {} && !s'.nodes[LEADER].reachedQuorum && s'.round == Waiting
    ensures Signature(LEADER, RefOf(s.round.block)) in s'.released
  {
    hide Reachable;
    ReachNext(PAIR, s, LeaderSave);
    var s1 := Next(PAIR, s, LeaderSave);
    ReachNext(PAIR, s1, LeaderSet);
    s' := Next(PAIR, s1, LeaderSet);
  }

  /** The leader has stored its first block, and the follower has heard of nothing but the genesis block. */
  lemma FirstRound() returns (s: System)
    ensures Reachable(PAIR, s) && Paired(s) && s.round == Waiting && s.nodes[FOLLOWER] == EMPTY_NODE
    ensures s.nodes[LEADER].storage == [Proposal(PAIR, Genesis(PAIR), [], [])]
    ensures s.nodes[LEADER].last == Some(Proposal(PAIR, Genesis(PAIR), [], []))
    ensures s.nodes[LEADER].voters == {} && !s.nodes[LEADER].reachedQuorum
    ensures Genesis(PAIR).signers[0].signature in s.released
    ensures Signature(LEADER, RefOf(Proposal(PAIR, Genesis(PAIR), [], []))) in s.released
  {
    var s0 := Initial(PAIR);
    assert Reachable(PAIR, s0) by {
      assert IsRun(PAIR, [s0], []) && [s0][0] == s0;
    }
    hide Reachable;
    ReachNext(PAIR, s0, LeaderStart);
    var s1 := GenesisAnswered(Next(PAIR, s0, LeaderStart));
    var s2 := VoteMovesOn(s1);
    s := RoundEnds(s2);
  }

  /** The follower takes the leader's first block from synchronization as its last one. Before it has stored
      it, a late commit of the genesis block arrives, and it answers with the height of the block it has
      not stored. The leader counts that vote and stores a second block. */
  lemma {:induction false} VoteBeforeStorage()
    ensures exists s ::
              && Reachable(PAIR, s) && LEADER in s.nodes && FOLLOWER in s.nodes && Enabled(PAIR, s, LeaderSave)
              && HasVoted(s, FOLLOWER, 1) && s.nodes[FOLLOWER].storage == []
              && |s.nodes[LEADER].storage| == 1 && |Next(PAIR, s, LeaderSave).nodes[LEADER].storage| == 2
              && !QuorumCommitted(PAIR, s, 1)
  {
    hide Reachable;
    var s := FirstRound();
    var b := Proposal(PAIR, Genesis(PAIR), [], []);
    ReachNext(PAIR, s, SyncValidate(FOLLOWER, b));
    s := GenesisAnswered(Next(PAIR, s, SyncValidate(FOLLOWER, b)));
    s := VoteMovesOn(s);
    assert CommittedBy(PAIR, s, 1) == {};
    assert |Next(PAIR, s, LeaderSave).nodes[LEADER].storage| == 2;
  }
}
