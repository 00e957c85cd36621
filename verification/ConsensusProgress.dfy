/** What the leader makes, the others take: over all runs the leader's chain is linked, its blocks are accepted
    one after another, a quorum of votes is reported as soon as it is there, and a reported height lets the
    leader move on.
 */
module ConsensusProgress {
  import opened Digests
  import opened BenchmarkConsensus
  import opened ConsensusNetwork
  import opened ConsensusVotes

  /** Each header of a block of the leader has the hash of the same header of the block before it. */
  lemma {:induction false} ChainLinks(c: Config, states: seq<System>, actions: seq<Action>, n: nat, i: nat)
    requires IsRun(c, states, actions) && n < |states|
    requires c.leader in states[n].nodes && i < |states[n].nodes[c.leader].storage|
    ensures var chain := states[n].nodes[c.leader].storage;
            var before := Before(c, chain, i);
            && chain[i].tx.prevHash == Sha(before.tx) && chain[i].rx.prevHash == Sha(before.rx)
            && chain[i].tx.height == chain[i].rx.height == i + 1
            && SignedByLeader(c, chain[i]) && Signature(c.leader, RefOf(chain[i])) in states[n].released
  {
    RunKeepsInv(c, states, actions, n);
    var chain := states[n].nodes[c.leader].storage;
    assert chain[i] in chain;
    assert Linked(c, chain) && Numbered(chain) && Released(c, states[n]);
    hide Inv, IsRun;
    assert ValidConsensus(c, chain[i], Some(Before(c, chain, i)));
  }

  /** A follower finds the leader's block after its last one valid. It stores it exactly when its last block is
      in storage; then, uninterrupted, it makes it its last and votes for it. */
  lemma {:induction false} FollowerAccepts(c: Config, states: seq<System>, actions: seq<Action>, n: nat, v: Address)
    requires IsRun(c, states, actions) && n < |states| && v in states[n].nodes && v != c.leader && c.leader in states[n].nodes
    requires HeightOf(states[n].nodes[v].last) < |states[n].nodes[c.leader].storage|
    ensures var s := states[n];
            var h := HeightOf(s.nodes[v].last);
            var b, storage := s.nodes[c.leader].storage[h], s.nodes[v].storage;
            && Enabled(c, s, DeliverCommit(v, b))
            && (Store(storage, b).Some? <==> h <= |storage|)
            && (h <= |storage| ==>
                  var s3 := Handled(c, s, v, b);
                  && v in s3.nodes && s3.nodes[v].last == Some(b) && HasVoted(s3, v, h + 1)
                  && storage <= s3.nodes[v].storage && h < |s3.nodes[v].storage| && SameBlock(s3.nodes[v].storage[h], b))
  {
    RunKeepsInv(c, states, actions, n);
    var s := states[n];
    var last, chain, storage := s.nodes[v].last, s.nodes[c.leader].storage, s.nodes[v].storage;
    var h := HeightOf(last);
    assert FollowerBehind(c, s, v) && Linked(c, chain) && Numbered(chain);
    ChainLinks(c, states, actions, n, h);
    hide Inv, IsRun, ValidForNonLeader, Known, LeaderChain, FollowerBehind, Linked, Numbered, Next, Handled;
    assert ValidForNonLeader(c, chain[h], last) by { NextIsValid(c, chain, last); }
    assert h < |storage| ==> SameBlock(storage[h], chain[h]);
    if h <= |storage| { HandledNext(c, s, v, chain[h]); }
  }

  /** The state after a commit has been handled at a follower without interruption. */
  function Handled(c: Config, s: System, v: Address, b: BlockPair): System
    requires c.leader in s.nodes && Enabled(c, s, DeliverCommit(v, b)) && Store(s.nodes[v].storage, b).Some?
  {
    var seen := s.nodes[v].last;
    var s1 := Next(c, s, DeliverCommit(v, b));
    var s2 := Next(c, s1, StoreBlock(Validated(v, b, seen)));
    Next(c, s2, FinishCommit(Stored(v, b, seen)))
  }

  lemma HandledNext(c: Config, s: System, v: Address, b: BlockPair)
    requires c.leader in s.nodes && Enabled(c, s, DeliverCommit(v, b)) && Store(s.nodes[v].storage, b).Some?
    requires b.tx.height == HeightOf(s.nodes[v].last) + 1
    ensures var s3 := Handled(c, s, v, b);
            && v in s3.nodes && s3.nodes[v].last == Some(b) && HasVoted(s3, v, b.tx.height)
            && s3.nodes[v].storage == Store(s.nodes[v].storage, b).value
  {
    hide Store, ValidForNonLeader;
  }

  lemma NextIsValid(c: Config, chain: seq<BlockPair>, last: Option<BlockPair>)
    requires Numbered(chain) && Linked(c, chain) && HeightOf(last) < |chain|
    requires last.Some? ==> Known(c, chain, last.value.tx, last.value.rx)
    ensures ValidForNonLeader(c, chain[HeightOf(last)], last)
  {
    var h := HeightOf(last);
    assert ValidConsensus(c, chain[h], Some(Before(c, chain, h)));
  }

  // ----- the last block never goes back -----

  /** No step but its restart takes a node's last block back to a lower height. */
  lemma {:induction false} StepGoesForward(c: Config, s: System, a: Action, v: Address)
    requires Inv(c, s) && Enabled(c, s, a) && a != Restart(v) && v in Next(c, s, a).nodes
    ensures v in s.nodes && HeightOf(s.nodes[v].last) <= HeightOf(Next(c, s, a).nodes[v].last)
  {
    if a.LeaderSet? {
      SetGoesForward(c, s.nodes[c.leader], s.round);
    } else {
      hide Inv, Enabled, Next;
      InvWired(c, s);
      OtherGoesForward(c, s, a, v);
    }
  }

  lemma {:induction false} OtherGoesForward(c: Config, s: System, a: Action, v: Address)
    requires Wired(c, s) && Enabled(c, s, a) && a != Restart(v) && !a.LeaderSet? && v in Next(c, s, a).nodes
    ensures v in s.nodes && HeightOf(s.nodes[v].last) <= HeightOf(Next(c, s, a).nodes[v].last)
  {
    hide Store, Proposal, ValidForNonLeader, ValidForSync, ValidVote, AfterVote;
    if a.CountVote? { VoteCounted(c, s.nodes[c.leader], a.voteTask.vote.sender, a.voteTask.seen); }
  }

  lemma InvWired(c: Config, s: System)
    requires Inv(c, s)
    ensures Wired(c, s)
  {
  }

  lemma SetGoesForward(c: Config, n: Node, round: Round)
    requires LeaderChain(c, n, round) && round.Saved?
    ensures HeightOf(n.last) <= HeightOf(SetLast(n, round.block, round.seen).last)
  {
    hide Linked;
  }

  /** Between restarts of a node, the height of its last block never falls. */
  lemma {:induction false} LastNeverBack(c: Config, states: seq<System>, actions: seq<Action>, m: nat, n: nat, v: Address)
    requires IsRun(c, states, actions) && m <= n < |states| && v in states[m].nodes && v in states[n].nodes
    requires forall i | m <= i < n :: actions[i] != Restart(v)
    ensures HeightOf(states[m].nodes[v].last) <= HeightOf(states[n].nodes[v].last)
    decreases n
  {
    hide Inv, Enabled, Next;
    if m < n {
      RunKeepsInv(c, states, actions, n - 1);
      assert states[n] == Next(c, states[n - 1], actions[n - 1]);
      StepGoesForward(c, states[n - 1], actions[n - 1], v);
      LastNeverBack(c, states, actions, m, n - 1, v);
    }
  }

  // ----- votes -----

  /** A quorum of votes for the last block has been reported, and nothing less. */
  ghost predicate Reported(c: Config, s: System)
    requires c.leader in s.nodes
  {
    var leader := s.nodes[c.leader];
    && (leader.reachedQuorum <==> leader.voters != {} && |leader.voters| + 1 >= RequiredQuorumSize(c))
    && (leader.reachedQuorum ==> HeightOf(leader.last) in s.sends)
  }

  /** What of the leader a report is about. */
  ghost predicate SameReport(s: System, leader: Node, s': System, leader': Node)
  {
    && s.sends <= s'.sends
    && ((leader'.voters == {} && !leader'.reachedQuorum) ||
        (leader'.voters == leader.voters && leader'.reachedQuorum == leader.reachedQuorum && HeightOf(leader'.last) == HeightOf(leader.last)))
  }

  /** No step but the counting of a vote changes what is reported, unless it starts the votes afresh. */
  lemma {:induction false} OtherSteps(c: Config, s: System, a: Action)
    requires Wired(c, s) && Enabled(c, s, a) && !a.CountVote? && c.leader in Next(c, s, a).nodes
    ensures SameReport(s, s.nodes[c.leader], Next(c, s, a), Next(c, s, a).nodes[c.leader])
  {
    hide Store, Proposal, AfterVote, ValidForNonLeader, ValidForSync, ValidVote;
  }

  lemma {:induction false} StepReports(c: Config, s: System, a: Action)
    requires Wired(c, s) && Enabled(c, s, a) && Reported(c, s) && c.leader in Next(c, s, a).nodes
    ensures Reported(c, Next(c, s, a))
  {
    if a.CountVote? {
      VoteReports(c, s, a.voteTask);
    } else {
      hide Enabled, Next, RequiredQuorumSize;
      OtherSteps(c, s, a);
    }
  }

  lemma VoteReports(c: Config, s: System, t: VoteTask)
    requires Wired(c, s) && t in s.voteTasks && Reported(c, s)
    ensures Reported(c, Next(c, s, CountVote(t)))
  {
    hide RequiredQuorumSize;
    VotersGrow(s.nodes[c.leader].voters, t.vote.sender);
  }

  lemma VotersGrow(voters: set<Address>, v: Address)
    ensures voters + {v} != {} && |voters| <= |voters + {v}|
  {
    assert v in voters + {v};
    SubsetSize(voters, voters + {v});
  }

  /** In every run the leader reports the height of its last block to the round loop as soon as the votes that it
      has counted for it are a quorum, and not before. */
  lemma {:induction false} QuorumReported(c: Config, states: seq<System>, actions: seq<Action>, n: nat)
    requires IsRun(c, states, actions) && n < |states|
    ensures Wired(c, states[n]) && Reported(c, states[n])
  {
    if n > 0 {
      QuorumReported(c, states, actions, n - 1);
      hide Enabled, Next, Reported;
      assert states[n] == Next(c, states[n - 1], actions[n - 1]);
      StepGrows(c, states[n - 1], actions[n - 1]);
      StepReports(c, states[n - 1], actions[n - 1]);
    }
  }

  /** At rest, the leader can take up the reported height of its last block, and then makes, stores and sets a
      block on top of it with the contents given. */
  lemma {:induction false} LeaderMovesOn(c: Config, states: seq<System>, actions: seq<Action>, n: nat, tx: seq<nat>, rx: seq<nat>)
    requires IsRun(c, states, actions) && n < |states| && c.leader in states[n].nodes
    requires var s := states[n]; s.round == Waiting && s.nodes[c.leader].last.Some? && HeightOf(s.nodes[c.leader].last) in s.sends
    ensures var s := states[n];
            var s1 := Next(c, s, WakeUp(HeightOf(s.nodes[c.leader].last)));
            && c.leader in s1.nodes && Enabled(c, s1, LeaderPropose(tx, rx))
            && var s3 := Next(c, Next(c, s1, LeaderPropose(tx, rx)), LeaderSave);
            && s3.round.Saved? && c.leader in s3.nodes
            && var after := Next(c, s3, LeaderSet).nodes[c.leader];
            && after.last.Some? && after.storage == s.nodes[c.leader].storage + [after.last.value]
            && after.last.value.tx.content == tx && after.last.value.rx.content == rx
  {
    RunKeepsInv(c, states, actions, n);
    var s := states[n];
    var leader := s.nodes[c.leader];
    assert leader.last == Tip(c, leader.storage);
    assert HeightOf(leader.last) == |leader.storage|;
    ProposalLinks(c, leader.last.value, tx, rx);
  }
}
