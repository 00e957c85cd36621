/** Why a committed transaction cannot be ordered again: over every run of commits and cleanup ticks,
    interleaved step by step, what has left the committed pool is expired for every later block.
 */
module ReplayProtection {
  import opened Basics
  import opened Digests
  import opened TransactionPool

  datatype Progress = Idle | Committing(block: Block, added: nat)

  /** The transaction pool between two atomic steps, with the blocks it has begun to commit. */
  datatype State = State(
    height: nat, timestamp: Timestamp, trackedHeight: nat, committed: Committed, progress: Progress, history: seq<Block>,
    readings: set<Timestamp>)

  const INITIAL: State := State(0, 0, 0, map[], Idle, [], {})

  /** A commit begins, adds one receipt at a time and finishes. A tick of the cleaner reads the last block
      time and clears with it at any later moment. */
  datatype Event = Begin(block: Block) | AddOne | Finish | ReadTime | Clear(time: Timestamp)

  /** Every transaction of the block passed validation for it. */
  predicate Validated(c: ValidationContext, b: Block)
  {
    forall i :: 0 <= i < |b.txs| ==> ForOrdering(c, b.txs[i], b.timestamp) == None
  }

  predicate Enabled(c: ValidationContext, s: State, e: Event)
  {
    match e
    case Begin(b) =>
      && s.progress.Idle? && b.height == s.height + 1
      && b.timestamp > s.timestamp && Regular(c, b.timestamp) && Validated(c, b)
    case AddOne => s.progress.Committing? && s.progress.added < |s.progress.block.txs|
    case Finish => s.progress.Committing? && s.progress.added == |s.progress.block.txs|
    case ReadTime => true
    case Clear(t) => t in s.readings
  }

  function Next(c: ValidationContext, s: State, e: Event): State
    requires Enabled(c, s, e)
  {
    match e
    case Begin(b) =>
      s.(height := b.height, timestamp := b.timestamp, progress := Committing(b, 0), history := s.history + [b])
    case AddOne =>
      var b, k := s.progress.block, s.progress.added;
      var h := HashOf(b.txs[k]);
      s.(committed := s.committed[h := CommittedTransaction(h, b.height, b.timestamp)], progress := Committing(b, k + 1))
    case Finish =>
      s.(trackedHeight := s.trackedHeight + 1, progress := Idle)
    case ReadTime =>
      s.(readings := s.readings + {s.timestamp})
    case Clear(t) =>
      s.(committed := Cleared(s.committed, c.futureTimestampGrace, Minus(t, c.expiryWindow)))
  }

  predicate IsRun(c: ValidationContext, states: seq<State>, events: seq<Event>)
  {
    && |states| == |events| + 1 && states[0] == INITIAL
    && forall i :: 0 <= i < |events| ==> Enabled(c, states[i], events[i]) && states[i + 1] == Next(c, states[i], events[i])
  }

  /** No clear uses a time from before the first block once there is one. The source starts with the time
      zero, for which the threshold wraps around. */
  predicate TimelyClears(c: ValidationContext, states: seq<State>, events: seq<Event>)
    requires IsRun(c, states, events)
  {
    forall i :: 0 <= i < |events| && events[i].Clear? ==> c.expiryWindow <= events[i].time || states[i].history == []
  }

  // ----- the invariant -----

  predicate Chained(c: ValidationContext, s: State)
  {
    && |s.history| == s.height
    && (forall i :: 0 <= i < |s.history| ==> Regular(c, s.history[i].timestamp) && Validated(c, s.history[i]))
    && (forall i :: 0 <= i < |s.history| ==> s.history[i].timestamp <= s.timestamp)
    && (s.history == [] ==> s.committed == map[] && s.progress.Idle?)
    && (s.history != [] ==> Regular(c, s.timestamp))
    && (s.progress.Committing? ==> s.history != [] && s.progress.block == s.history[|s.history| - 1] &&
                                   s.progress.block.timestamp == s.timestamp)
    && (forall t :: t in s.readings ==> t <= s.timestamp)
  }

  predicate Recorded(c: ValidationContext, s: State)
  {
    forall h :: h in s.committed ==> Regular(c, s.committed[h].blockTimestamp) && s.committed[h].blockTimestamp <= s.timestamp
  }

  /** The hash is in the pool, or the window of its block has closed for good. */
  predicate Covered(c: ValidationContext, s: State, h: TxHash, blockTimestamp: Timestamp)
  {
    || (h in s.committed && blockTimestamp <= s.committed[h].blockTimestamp)
    || blockTimestamp + c.futureTimestampGrace + c.expiryWindow < s.timestamp
  }

  /** The receipts of block i that have been added so far. */
  function AddedOf(s: State, i: nat): nat
    requires i < |s.history|
  {
    if s.progress.Committing? && i == |s.history| - 1 then s.progress.added else |s.history[i].txs|
  }

  predicate AllCovered(c: ValidationContext, s: State)
  {
    forall i, j :: 0 <= i < |s.history| && 0 <= j < |s.history[i].txs| && j < AddedOf(s, i) ==>
      Covered(c, s, HashOf(s.history[i].txs[j]), s.history[i].timestamp)
  }

  predicate Inv(c: ValidationContext, s: State)
  {
    Chained(c, s) && Recorded(c, s) && AllCovered(c, s)
  }

  lemma ReadTimeKeepsInv(c: ValidationContext, s: State)
    requires Inv(c, s)
    ensures Inv(c, Next(c, s, ReadTime))
  {
    var s' := Next(c, s, ReadTime);
    forall i, j | 0 <= i < |s.history| && 0 <= j < |s.history[i].txs| && j < AddedOf(s', i)
      ensures Covered(c, s', HashOf(s.history[i].txs[j]), s.history[i].timestamp)
    {
      assert j < AddedOf(s, i);
      assert Covered(c, s, HashOf(s.history[i].txs[j]), s.history[i].timestamp);
    }
  }

  lemma {:induction false} ClearKeepsInv(c: ValidationContext, s: State, t: Timestamp)
    requires Inv(c, s) && t in s.readings && (c.expiryWindow <= t || s.history == [])
    ensures Inv(c, Next(c, s, Clear(t)))
  {
    var s' := Next(c, s, Clear(t));
    forall i, j | 0 <= i < |s.history| && 0 <= j < |s.history[i].txs| && j < AddedOf(s, i)
      ensures Covered(c, s', HashOf(s.history[i].txs[j]), s.history[i].timestamp)
    {
      var h, ts := HashOf(s.history[i].txs[j]), s.history[i].timestamp;
      assert Covered(c, s, h, ts);
      if h in s.committed && h !in s'.committed {
        PlusExact(s.committed[h].blockTimestamp, c.futureTimestampGrace);
        MinusExact(t, c.expiryWindow);
      }
    }
  }

  lemma {:induction false} AddKeepsInv(c: ValidationContext, s: State)
    requires Inv(c, s) && Enabled(c, s, AddOne)
    ensures Inv(c, Next(c, s, AddOne))
  {
    var s' := Next(c, s, AddOne);
    forall i, j | 0 <= i < |s'.history| && 0 <= j < |s'.history[i].txs| && j < AddedOf(s', i)
      ensures Covered(c, s', HashOf(s'.history[i].txs[j]), s'.history[i].timestamp)
    {
      if j < AddedOf(s, i) {
        assert Covered(c, s, HashOf(s.history[i].txs[j]), s.history[i].timestamp);
      }
    }
  }

  lemma {:induction false} BeginKeepsInv(c: ValidationContext, s: State, b: Block)
    requires Inv(c, s) && Enabled(c, s, Begin(b))
    ensures Inv(c, Next(c, s, Begin(b)))
  {
    var s' := Next(c, s, Begin(b));
    forall i, j | 0 <= i < |s'.history| && 0 <= j < |s'.history[i].txs| && j < AddedOf(s', i)
      ensures Covered(c, s', HashOf(s'.history[i].txs[j]), s'.history[i].timestamp)
    {
      assert i < |s.history| && s'.history[i] == s.history[i];
      assert Covered(c, s, HashOf(s.history[i].txs[j]), s.history[i].timestamp);
    }
  }

  lemma {:induction false} FinishKeepsInv(c: ValidationContext, s: State)
    requires Inv(c, s) && Enabled(c, s, Finish)
    ensures Inv(c, Next(c, s, Finish))
  {
    var s' := Next(c, s, Finish);
    forall i, j | 0 <= i < |s'.history| && 0 <= j < |s'.history[i].txs|
      ensures Covered(c, s', HashOf(s'.history[i].txs[j]), s'.history[i].timestamp)
    {
      assert j < AddedOf(s, i);
      assert Covered(c, s, HashOf(s.history[i].txs[j]), s.history[i].timestamp);
    }
  }

  lemma {:induction false} RunKeepsInv(c: ValidationContext, states: seq<State>, events: seq<Event>, n: nat)
    requires IsRun(c, states, events) && TimelyClears(c, states, events) && n < |states|
    ensures Inv(c, states[n])
  {
    if n > 0 {
      RunKeepsInv(c, states, events, n - 1);
      var s := states[n - 1];
      assert states[n] == Next(c, s, events[n - 1]);
      match events[n - 1]
      case Begin(b) => BeginKeepsInv(c, s, b);
      case AddOne => AddKeepsInv(c, s);
      case Finish => FinishKeepsInv(c, s);
      case ReadTime => ReadTimeKeepsInv(c, s);
      case Clear(t) => ClearKeepsInv(c, s, t);
    }
  }

  // ----- replay protection -----

  /** A transaction committed in a block and no longer in the pool is expired for every later block. */
  lemma {:induction false} CoveredOrExpired(c: ValidationContext, s: State, i: nat, j: nat, timestamp: Timestamp)
    requires Inv(c, s) && s.progress.Idle? && i < |s.history| && j < |s.history[i].txs|
    requires timestamp > s.timestamp && Regular(c, timestamp)
    ensures HashOf(s.history[i].txs[j]) in s.committed ||
            Expired(c, s.history[i].txs[j].transaction.timestamp, timestamp)
  {
    var b := s.history[i];
    assert j < AddedOf(s, i);
    assert Covered(c, s, HashOf(b.txs[j]), b.timestamp);
    assert Validated(c, b) && Regular(c, b.timestamp);
    PlusExact(b.timestamp, c.futureTimestampGrace);
    MinusExact(timestamp, c.expiryWindow);
  }

  /** In every reachable state between commits, a transaction that passes validation for a later
      block is in none of the blocks committed so far, whatever its signature. */
  lemma {:induction false} NoReplay(c: ValidationContext, states: seq<State>, events: seq<Event>, n: nat,
                                    tx: SignedTransaction, timestamp: Timestamp)
    requires IsRun(c, states, events) && TimelyClears(c, states, events) && n < |states| && states[n].progress.Idle?
    requires timestamp > states[n].timestamp && Regular(c, timestamp)
    requires Acceptable(c, states[n].committed, timestamp, [tx])
    ensures forall i, j :: 0 <= i < |states[n].history| && 0 <= j < |states[n].history[i].txs| ==>
              HashOf(states[n].history[i].txs[j]) != HashOf(tx)
  {
    RunKeepsInv(c, states, events, n);
    var s := states[n];
    assert HashOf([tx][0]) !in s.committed && ForOrdering(c, [tx][0], timestamp) == None;
    forall i, j | 0 <= i < |s.history| && 0 <= j < |s.history[i].txs|
      ensures HashOf(s.history[i].txs[j]) != HashOf(tx)
    {
      CoveredOrExpired(c, s, i, j, timestamp);
    }
  }

  /** Every block of the run was proposed to a pool that had finished the block before it, and passed
      ValidateTransactionsForOrdering there. */
  predicate ProposedToPool(c: ValidationContext, states: seq<State>, events: seq<Event>)
    requires IsRun(c, states, events)
  {
    forall i :: 0 <= i < |events| && events[i].Begin? ==>
      Acceptable(c, states[i].committed, events[i].block.timestamp, events[i].block.txs)
  }

  /** Over a whole run no transaction is committed in two blocks. */
  lemma {:induction false} CommittedOnce(c: ValidationContext, states: seq<State>, events: seq<Event>, n: nat)
    requires IsRun(c, states, events) && TimelyClears(c, states, events) && n < |states| && ProposedToPool(c, states, events)
    ensures var h := states[n].history;
            forall i, j, k, l :: 0 <= i < k < |h| && 0 <= j < |h[i].txs| && 0 <= l < |h[k].txs| ==>
              HashOf(h[i].txs[j]) != HashOf(h[k].txs[l])
  {
    if n > 0 {
      CommittedOnce(c, states, events, n - 1);
      var s, e := states[n - 1], events[n - 1];
      assert states[n] == Next(c, s, e);
      if e.Begin? {
        forall i, j, l | 0 <= i < |s.history| && 0 <= j < |s.history[i].txs| && 0 <= l < |e.block.txs|
          ensures HashOf(s.history[i].txs[j]) != HashOf(e.block.txs[l])
        {
          var tx := e.block.txs[l];
          assert HashOf(tx) !in s.committed && ForOrdering(c, tx, e.block.timestamp) == None;
          NoReplay(c, states, events, n - 1, tx, e.block.timestamp);
        }
      }
    }
  }

  // ----- a commit that is not interrupted -----

  /** n receipts added one after another. */
  function Adding(c: ValidationContext, s: State, n: nat): (r: State)
    requires s.progress.Committing? && s.progress.added + n <= |s.progress.block.txs|
    ensures r.progress == Committing(s.progress.block, s.progress.added + n)
    decreases n
  {
    if n == 0 then s else Next(c, Adding(c, s, n - 1), AddOne)
  }

  lemma {:induction false} AddingAdds(c: ValidationContext, s: State, n: nat)
    requires s.progress.Committing? && s.progress.added == 0 && n <= |s.progress.block.txs|
    ensures var b := s.progress.block;
            Adding(c, s, n) == s.(committed := Added(s.committed, Receipts(b)[..n], b.height, b.timestamp),
                                  progress := Committing(b, n))
  {
    var rs := Receipts(s.progress.block);
    if n > 0 {
      AddingAdds(c, s, n - 1);
      assert rs[..n][..n - 1] == rs[..n - 1];
    }
  }

  /** The steps of a commit, with no tick between them, do what CommitTransactionReceipts does. */
  lemma {:induction false} CommitIsItsSteps(c: ValidationContext, s: State, b: Block)
    requires Enabled(c, s, Begin(b))
    ensures Next(c, Adding(c, Next(c, s, Begin(b)), |b.txs|), Finish) ==
            State(b.height, b.timestamp, s.trackedHeight + 1, Added(s.committed, Receipts(b), b.height, b.timestamp),
                  Idle, s.history + [b], s.readings)
  {
    AddingAdds(c, Next(c, s, Begin(b)), |b.txs|);
    assert Receipts(b)[..|b.txs|] == Receipts(b);
  }

  /** A tick that is not interrupted clears as CleanupTick does. */
  lemma TickIsItsSteps(c: ValidationContext, s: State)
    ensures Next(c, Next(c, s, ReadTime), Clear(s.timestamp)) ==
            s.(committed := Cleared(s.committed, c.futureTimestampGrace, Minus(s.timestamp, c.expiryWindow)),
               readings := s.readings + {s.timestamp})
  {
  }

  // ----- how far the 64-bit arithmetic carries -----

  /** What clearing with the time t removes can never pass validation for a later block of a run again. */
  ghost predicate SafeClear(c: ValidationContext, t: Timestamp)
  {
    forall e: CommittedTransaction, ts: Timestamp, later: Timestamp ::
      && e.blockTimestamp < later && t < later && Regular(c, e.blockTimestamp) && Regular(c, later)
      && Outdated(e, c.futureTimestampGrace, Minus(t, c.expiryWindow))
      && ts <= e.blockTimestamp + c.futureTimestampGrace
      ==> Expired(c, ts, later)
  }

  /** Below the expiry window the subtraction in the cleaner wraps around, and every transaction is evicted that
      is before what it comes to. Clearing is safe exactly when it does not wrap, or comes to a time before all
      that the first block of a run can hold, which takes a window of half the 64-bit range. */
  lemma {:induction false} ClearSafeIff(c: ValidationContext, t: Timestamp)
    ensures SafeClear(c, t) <==> c.expiryWindow <= t || 2 * c.expiryWindow + c.futureTimestampGrace >= TWO_64 + t
  {
    MinusExact(t, c.expiryWindow);
    if c.expiryWindow <= t || 2 * c.expiryWindow + c.futureTimestampGrace >= TWO_64 + t {
      forall e: CommittedTransaction, ts: Timestamp, later: Timestamp |
        && e.blockTimestamp < later && t < later && Regular(c, e.blockTimestamp) && Regular(c, later)
        && Outdated(e, c.futureTimestampGrace, Minus(t, c.expiryWindow))
        && ts <= e.blockTimestamp + c.futureTimestampGrace
        ensures Expired(c, ts, later)
      {
        PlusExact(e.blockTimestamp, c.futureTimestampGrace);
        MinusExact(later, c.expiryWindow);
      }
    } else {
      var w := c.expiryWindow;
      var tx := Transaction(1, 0, 0, true, 32, []);
      var e := CommittedTransaction(TxHash(tx), 1, w);
      PlusExact(w, c.futureTimestampGrace);
      MinusExact(w + 1, w);
      assert Outdated(e, c.futureTimestampGrace, Minus(t, w));
      assert !Expired(c, w, w + 1);
    }
  }

  // ----- a clear with the time from before the first block -----

  const SAMPLE_CONTEXT: ValidationContext := ValidationContext(10, 1, 0)
  const SAMPLE_TX: SignedTransaction := SignedTransaction(Transaction(1, 0, 100, true, 32, []), [])
  const SAMPLE_BLOCK: Block := Block(1, 100, [SAMPLE_TX])

  function StaleEvents(): seq<Event> { [ReadTime, Begin(SAMPLE_BLOCK), AddOne, Finish, Clear(0)] }

  function StaleStates(): seq<State>
  {
    var h := HashOf(SAMPLE_TX);
    var entry := map[h := CommittedTransaction(h, 1, 100)];
    [INITIAL,
     State(0, 0, 0, map[], Idle, [], {0}),
     State(1, 100, 0, map[], Committing(SAMPLE_BLOCK, 0), [SAMPLE_BLOCK], {0}),
     State(1, 100, 0, entry, Committing(SAMPLE_BLOCK, 1), [SAMPLE_BLOCK], {0}),
     State(1, 100, 1, entry, Idle, [SAMPLE_BLOCK], {0}),
     State(1, 100, 1, map[], Idle, [SAMPLE_BLOCK], {0})]
  }

  /** The tick reads the time zero, the first block is committed, the tick clears: the block's transaction
      has left the pool and passes validation for the next block. */
  lemma StaleClearReplays()
    ensures IsRun(SAMPLE_CONTEXT, StaleStates(), StaleEvents())
    ensures !TimelyClears(SAMPLE_CONTEXT, StaleStates(), StaleEvents())
    ensures var s := StaleStates()[5];
            s.history[0].txs == [SAMPLE_TX] && Acceptable(SAMPLE_CONTEXT, s.committed, 101, [SAMPLE_TX])
  {
    var c, states, events := SAMPLE_CONTEXT, StaleStates(), StaleEvents();
    MinusExact(0, 10);
    PlusExact(100, 1);
    MinusExact(100, 10);
    MinusExact(101, 10);
    PlusExact(101, 1);
    assert Validated(c, SAMPLE_BLOCK);
    forall i | 0 <= i < |events|
      ensures Enabled(c, states[i], events[i]) && states[i + 1] == Next(c, states[i], events[i])
    {
      StaleStep(i);
    }
    assert events[4].Clear? && events[4].time == 0 && states[4].history != [];
  }

  lemma StaleStep(i: nat)
    requires i < 5
    ensures Enabled(SAMPLE_CONTEXT, StaleStates()[i], StaleEvents()[i])
    ensures StaleStates()[i + 1] == Next(SAMPLE_CONTEXT, StaleStates()[i], StaleEvents()[i])
  {
    var c, s, e, s' := SAMPLE_CONTEXT, StaleStates()[i], StaleEvents()[i], StaleStates()[i + 1];
    MinusExact(0, 10);
    PlusExact(100, 1);
    MinusExact(100, 10);
    if i == 1 {
      assert Validated(c, SAMPLE_BLOCK);
      assert s'.history == s.history + [SAMPLE_BLOCK];
    }
  }
}
