/** Running a batch of transactions over committed state, against the plain meaning of it: one
    transaction after the other on a single map, the writes of failed ones discarded.
 */
module Execution {
  import opened Digests
  import opened StateHistory
  import opened StateStorage
  import opened TransientState

  // ----- transactions -----

  /** What contract code asks of the state next, or how it ends. */
  datatype Step = ReadStep(r: Record) | WriteStep(r: Record, value: Value) | Finish(success: bool)

  /** Contract code as a strategy: its next step is a function of the answers so far, the value read
      for a read and the zero value for a write. The code ends within bound steps. */
  datatype Transaction = Transaction(next: seq<Value> -> Step, bound: nat)

  datatype Receipt = Receipt(answers: seq<Value>, success: bool)

  // ----- the plain meaning -----

  datatype Outcome = Outcome(state: ChainState, receipt: Receipt, written: set<Record>)

  function Execute(tx: Transaction, s: ChainState, answers: seq<Value>, written: set<Record>, left: nat): Outcome
    decreases left
  {
    if left == 0 then Outcome(s, Receipt(answers, false), written)
    else
      match tx.next(answers)
      case Finish(success) => Outcome(s, Receipt(answers, success), written)
      case ReadStep(r) => Execute(tx, s, answers + [Read(s, r)], written, left - 1)
      case WriteStep(r, v) => Execute(tx, s[r := v], answers + [ZERO], written + {r}, left - 1)
  }

  datatype Batch = Batch(state: ChainState, receipts: seq<Receipt>, written: set<Record>)

  /** The transactions in turn; a failed one leaves the state as it found it. */
  function InTurn(txs: seq<Transaction>, s: ChainState): Batch
  {
    if txs == [] then Batch(s, [], {})
    else
      var before := InTurn(txs[..|txs| - 1], s);
      var tx := txs[|txs| - 1];
      var o := Execute(tx, before.state, [], {}, tx.bound);
      Batch(if o.receipt.success then o.state else before.state,
            before.receipts + [o.receipt],
            if o.receipt.success then before.written + o.written else before.written)
  }

  // ----- what receipts say -----

  /** The value that a transaction with these answers has last written to a record. */
  function LastWrite(tx: Transaction, answers: seq<Value>, r: Record): Option<Value>
  {
    if answers == [] then None
    else
      var front := answers[..|answers| - 1];
      var step := tx.next(front);
      if step.WriteStep? && step.r == r then Some(step.value) else LastWrite(tx, front, r)
  }

  /** The value of a record to a transaction: what it has last written to it, or else what it found. */
  function Through(tx: Transaction, answers: seq<Value>, seen: Record -> Value, r: Record): Value
  {
    var own := LastWrite(tx, answers, r);
    if own.Some? then own.value else seen(r)
  }

  /** The answer to the step after the first i answers. */
  predicate AnswerRight(tx: Transaction, answers: seq<Value>, seen: Record -> Value, i: nat)
    requires i < |answers|
  {
    match tx.next(answers[..i])
    case Finish(_) => false
    case WriteStep(_, _) => answers[i] == ZERO
    case ReadStep(r) => answers[i] == Through(tx, answers[..i], seen, r)
  }

  /** Every answer is right, and the code has ended as the receipt says, or at its bound without success. */
  ghost predicate ReceiptRight(tx: Transaction, rc: Receipt, seen: Record -> Value)
  {
    && |rc.answers| <= tx.bound
    && (forall i :: 0 <= i < |rc.answers| ==> AnswerRight(tx, rc.answers, seen, i))
    && if |rc.answers| < tx.bound then tx.next(rc.answers) == Finish(rc.success) else !rc.success
  }

  /** The value last written to a record by a successful one of these transactions. */
  function LastCommitted(txs: seq<Transaction>, receipts: seq<Receipt>, r: Record): Option<Value>
    requires |txs| == |receipts|
  {
    if txs == [] then None
    else
      var n := |txs| - 1;
      var last := LastWrite(txs[n], receipts[n].answers, r);
      if receipts[n].success && last.Some? then last else LastCommitted(txs[..n], receipts[..n], r)
  }

  /** The value of a record after these transactions. */
  function After(txs: seq<Transaction>, receipts: seq<Receipt>, committed: ChainState, r: Record): Value
    requires |txs| == |receipts|
  {
    var last := LastCommitted(txs, receipts, r);
    if last.Some? then last.value else if r in committed then committed[r] else ZERO
  }

  /** Every transaction finds what the successful ones before it have left, over committed state. */
  ghost predicate ReceiptsRight(txs: seq<Transaction>, receipts: seq<Receipt>, committed: ChainState)
  {
    && |txs| == |receipts|
    && forall j :: 0 <= j < |txs| ==> ReceiptRight(txs[j], receipts[j], r => After(txs[..j], receipts[..j], committed, r))
  }

  /** What holds while a transaction runs. */
  ghost predicate Runs(tx: Transaction, answers: seq<Value>, seen: Record -> Value, s: ChainState, written: set<Record>)
  {
    && (forall i :: 0 <= i < |answers| ==> AnswerRight(tx, answers, seen, i))
    && (forall r :: Read(s, r) == Through(tx, answers, seen, r))
    && (forall r :: r in written <==> LastWrite(tx, answers, r).Some?)
  }

  lemma {:induction false} StepRuns(tx: Transaction, answers: seq<Value>, seen: Record -> Value, s: ChainState, written: set<Record>)
    requires Runs(tx, answers, seen, s, written) && !tx.next(answers).Finish?
    ensures match tx.next(answers)
            case ReadStep(r) => Runs(tx, answers + [Read(s, r)], seen, s, written)
            case WriteStep(r, v) => Runs(tx, answers + [ZERO], seen, s[r := v], written + {r})
  {
    var step := tx.next(answers);
    var more := answers + [if step.ReadStep? then Read(s, step.r) else ZERO];
    assert more[..|more| - 1] == answers;
    forall i | 0 <= i < |more| ensures AnswerRight(tx, more, seen, i) {
      if i < |answers| {
        assert AnswerRight(tx, answers, seen, i) && more[..i] == answers[..i];
      }
    }
    forall r ensures LastWrite(tx, more, r) == if step.WriteStep? && step.r == r then Some(step.value) else LastWrite(tx, answers, r) {
    }
    var s' := if step.WriteStep? then s[step.r := step.value] else s;
    forall r ensures Read(s', r) == Through(tx, more, seen, r) {
      assert Read(s, r) == Through(tx, answers, seen, r);
    }
  }

  /** Running a transaction on a plain state gives a right receipt. */
  lemma {:induction false} ExecuteRight(tx: Transaction, s: ChainState, answers: seq<Value>, written: set<Record>, left: nat,
                                        seen: Record -> Value)
    requires |answers| + left == tx.bound && Runs(tx, answers, seen, s, written)
    ensures var o := Execute(tx, s, answers, written, left);
            ReceiptRight(tx, o.receipt, seen) && Runs(tx, o.receipt.answers, seen, o.state, o.written)
    decreases left
  {
    hide Runs;
    assert forall i :: 0 <= i < |answers| ==> AnswerRight(tx, answers, seen, i) by { RunsRight(tx, answers, seen, s, written); }
    if left > 0 && !tx.next(answers).Finish? {
      StepRuns(tx, answers, seen, s, written);
      match tx.next(answers)
      case ReadStep(r) => ExecuteRight(tx, s, answers + [Read(s, r)], written, left - 1, seen);
      case WriteStep(r, v) => ExecuteRight(tx, s[r := v], answers + [ZERO], written + {r}, left - 1, seen);
    }
  }

  lemma RunsRight(tx: Transaction, answers: seq<Value>, seen: Record -> Value, s: ChainState, written: set<Record>)
    requires Runs(tx, answers, seen, s, written)
    ensures forall i :: 0 <= i < |answers| ==> AnswerRight(tx, answers, seen, i)
  {
  }

  lemma RunsStart(tx: Transaction, seen: Record -> Value, s: ChainState)
    requires forall r :: Read(s, r) == seen(r)
    ensures Runs(tx, [], seen, s, {})
  {
  }

  /** Running transactions in turn gives right receipts and leaves what they have written. */
  lemma {:induction false} InTurnRight(txs: seq<Transaction>, committed: ChainState)
    ensures MeansRight(txs, InTurn(txs, committed), committed)
  {
    hide InTurn, Execute, Runs, ReceiptRight, ReceiptsRight, LastCommitted, LastWrite, After, Read;
    if txs == [] {
      NoTurns(committed);
    } else {
      var front, tx := txs[..|txs| - 1], txs[|txs| - 1];
      InTurnRight(front, committed);
      var before := InTurn(front, committed);
      var seen := r => After(front, before.receipts, committed, r);
      RunsStart(tx, seen, before.state);
      ExecuteRight(tx, before.state, [], {}, tx.bound, seen);
      var o := Execute(tx, before.state, [], {}, tx.bound);
      ReceiptsSnoc(front, tx, before.receipts, o.receipt, committed);
      TurnTaken(front, tx, before, o, committed);
      InTurnStep(txs, committed);
      assert front + [tx] == txs;
    }
  }

  /** The receipts of a batch are right, and it leaves what its successful transactions have last written. */
  ghost predicate MeansRight(txs: seq<Transaction>, b: Batch, committed: ChainState)
  {
    && |txs| == |b.receipts| && ReceiptsRight(txs, b.receipts, committed)
    && (forall r :: Read(b.state, r) == After(txs, b.receipts, committed, r))
    && (forall r :: r in b.written <==> LastCommitted(txs, b.receipts, r).Some?)
  }

  lemma NoTurns(committed: ChainState)
    ensures MeansRight([], InTurn([], committed), committed)
  {
  }

  lemma InTurnStep(txs: seq<Transaction>, committed: ChainState)
    requires txs != []
    ensures var before, tx := InTurn(txs[..|txs| - 1], committed), txs[|txs| - 1];
            var o := Execute(tx, before.state, [], {}, tx.bound);
            InTurn(txs, committed) ==
            Batch(if o.receipt.success then o.state else before.state, before.receipts + [o.receipt],
                  if o.receipt.success then before.written + o.written else before.written)
  {
    hide Execute;
  }

  lemma CommittedSnoc(front: seq<Transaction>, tx: Transaction, receipts: seq<Receipt>, rc: Receipt, r: Record)
    requires |front| == |receipts|
    ensures LastCommitted(front + [tx], receipts + [rc], r) ==
            var last := LastWrite(tx, rc.answers, r);
            if rc.success && last.Some? then last else LastCommitted(front, receipts, r)
  {
    assert (front + [tx])[..|front|] == front && (receipts + [rc])[..|front|] == receipts;
  }

  lemma {:induction false} ReceiptsSnoc(front: seq<Transaction>, tx: Transaction, receipts: seq<Receipt>, rc: Receipt, committed: ChainState)
    requires ReceiptsRight(front, receipts, committed) && ReceiptRight(tx, rc, r => After(front, receipts, committed, r))
    ensures ReceiptsRight(front + [tx], receipts + [rc], committed) && |front| == |receipts|
  {
    hide ReceiptRight, After;
    var txs, all, n := front + [tx], receipts + [rc], |front|;
    forall j | 0 <= j < |txs|
      ensures ReceiptRight(txs[j], all[j], r => After(txs[..j], all[..j], committed, r))
    {
      assert txs[..j] == front[..j] && all[..j] == receipts[..j];
      if j == n { assert front[..j] == front && receipts[..j] == receipts; }
      SameSeen(txs[j], all[j], r => After(front[..j], receipts[..j], committed, r), r => After(txs[..j], all[..j], committed, r));
    }
  }

  lemma {:induction false} TurnTaken(front: seq<Transaction>, tx: Transaction, before: Batch, o: Outcome, committed: ChainState)
    requires |front| == |before.receipts|
    requires forall r :: Read(before.state, r) == After(front, before.receipts, committed, r)
    requires forall r :: r in before.written <==> LastCommitted(front, before.receipts, r).Some?
    requires Runs(tx, o.receipt.answers, r => After(front, before.receipts, committed, r), o.state, o.written)
    ensures var txs, receipts := front + [tx], before.receipts + [o.receipt];
            && (forall r :: Read(if o.receipt.success then o.state else before.state, r) == After(txs, receipts, committed, r))
            && (forall r :: (if o.receipt.success then r in before.written + o.written else r in before.written) <==>
                            LastCommitted(txs, receipts, r).Some?)
  {
    hide LastCommitted, LastWrite, AnswerRight;
    var txs, receipts := front + [tx], before.receipts + [o.receipt];
    var seen := r => After(front, before.receipts, committed, r);
    forall r
      ensures Read(if o.receipt.success then o.state else before.state, r) == After(txs, receipts, committed, r)
      ensures (if o.receipt.success then r in before.written + o.written else r in before.written) <==> LastCommitted(txs, receipts, r).Some?
    {
      CommittedSnoc(front, tx, before.receipts, o.receipt, r);
      assert Read(o.state, r) == Through(tx, o.receipt.answers, seen, r);
    }
  }

  lemma SameSeen(tx: Transaction, rc: Receipt, f: Record -> Value, g: Record -> Value)
    requires ReceiptRight(tx, rc, f) && forall r :: f(r) == g(r)
    ensures ReceiptRight(tx, rc, g)
  {
    forall i | 0 <= i < |rc.answers| ensures AnswerRight(tx, rc.answers, g, i) {
      assert AnswerRight(tx, rc.answers, f, i);
    }
  }

  // ----- the overlay -----

  /** What the state looks like through a batch state. */
  function BatchView(b: Contents, committed: ChainState, r: Record): Value
  {
    if Find(b, r).Some? then Find(b, r).value.value else Read(committed, r)
  }

  /** What the state looks like to the running transaction. */
  function View(t: Contents, b: Contents, committed: ChainState, r: Record): Value
  {
    if Find(t, r).Some? then Find(t, r).value.value else BatchView(b, committed, r)
  }

  class ExecutionContext {
    const transientState: TransientState
    const batchTransientState: TransientState?
    const readWrite: bool

    constructor (batch: TransientState?, readWrite: bool)
      ensures fresh(transientState) && transientState.Now() == NOTHING
      ensures batchTransientState == batch && this.readWrite == readWrite
    {
      this.batchTransientState, this.readWrite := batch, readWrite;
      this.transientState := new TransientState();
    }

    ghost predicate Valid()
      reads this, transientState, batchTransientState
    {
      && WellFormed(transientState.Now())
      && transientState != batchTransientState
    }

    ghost function Batch(): Contents
      reads this, batchTransientState
    {
      if batchTransientState == null then NOTHING else batchTransientState.Now()
    }

    /** Reads through the transaction's own values, then the batch, then storage, and keeps the answer;
        what the transaction sees and what it has written stay the same. */
    method HandleSdkStateRead(committed: ChainState, r: Record) returns (value: Value)
      requires Valid()
      modifies transientState
      ensures Valid() && Batch() == old(Batch())
      ensures value == View(old(transientState.Now()), Batch(), committed, r)
      ensures transientState.Now() == if Find(old(transientState.Now()), r).Some? || Find(Batch(), r).Some? then old(transientState.Now())
                                      else SetIn(old(transientState.Now()), r, KeyValuePair(value, false))
      ensures forall q :: View(transientState.Now(), Batch(), committed, q) == View(old(transientState.Now()), Batch(), committed, q)
      ensures forall q :: DirtyIn(transientState.Now(), q) <==> DirtyIn(old(transientState.Now()), q)
    {
      hide SetIn, WellFormed, Find;
      NothingFound(r);
      var found;
      value, found := transientState.GetValue(r);
      if found {
        return;
      }
      if batchTransientState != null {
        value, found := batchTransientState.GetValue(r);
        if found {
          return;
        }
      }
      value := Read(committed, r);
      SetInEffect(transientState.Now(), r, KeyValuePair(value, false));
      transientState.SetValue(r, value, false);
    }

    method HandleSdkStateWrite(r: Record, value: Value) returns (ok: bool)
      requires Valid()
      modifies transientState
      ensures Valid() && Batch() == old(Batch())
      ensures ok == readWrite
      ensures transientState.Now() == if ok then SetIn(old(transientState.Now()), r, KeyValuePair(value, true)) else old(transientState.Now())
    {
      if !readWrite {
        return false;
      }
      transientState.SetValue(r, value, true);
      ok := true;
    }
  }

  /** The plain state s is what the transaction sees, and the dirty records are those it has written. */
  ghost predicate Agrees(s: ChainState, written: set<Record>, before: ChainState, t: Contents, b: Contents, committed: ChainState)
  {
    && (forall q :: Read(s, q) == View(t, b, committed, q))
    && (forall q :: DirtyIn(t, q) <==> q in written)
    && (forall q :: q !in written ==> Read(s, q) == Read(before, q))
  }

  lemma {:induction false} WriteAgrees(s: ChainState, written: set<Record>, before: ChainState, t: Contents, b: Contents,
                                       committed: ChainState, r: Record, v: Value)
    requires WellFormed(t) && Agrees(s, written, before, t, b, committed)
    ensures Agrees(s[r := v], written + {r}, before, SetIn(t, r, KeyValuePair(v, true)), b, committed)
  {
    hide SetIn, Find, WellFormed;
    var t' := SetIn(t, r, KeyValuePair(v, true));
    SetInEffect(t, r, KeyValuePair(v, true));
    forall q
      ensures Read(s[r := v], q) == View(t', b, committed, q)
      ensures DirtyIn(t', q) <==> q in written + {r}
    {
      assert Find(t', q) == if q == r then Some(KeyValuePair(v, true)) else Find(t, q);
      assert Read(s, q) == View(t, b, committed, q);
    }
  }

  lemma ReadAgrees(s: ChainState, written: set<Record>, before: ChainState, t: Contents, u: Contents, b: Contents,
                   committed: ChainState, r: Record)
    requires Agrees(s, written, before, t, b, committed)
    requires forall q :: View(u, b, committed, q) == View(t, b, committed, q)
    requires forall q :: DirtyIn(u, q) <==> DirtyIn(t, q)
    ensures Agrees(s, written, before, u, b, committed) && Read(s, r) == View(t, b, committed, r)
  {
  }

  /** The calls a transaction makes while it runs. */
  method ProcessCall(tx: Transaction, context: ExecutionContext, committed: ChainState, ghost before: ChainState)
    returns (receipt: Receipt)
    requires context.Valid() && context.readWrite
    requires Agrees(before, {}, before, context.transientState.Now(), context.Batch(), committed)
    modifies context.transientState
    ensures context.Valid() && context.Batch() == old(context.Batch())
    ensures var o := Execute(tx, before, [], {}, tx.bound);
            receipt == o.receipt && Agrees(o.state, o.written, before, context.transientState.Now(), context.Batch(), committed)
    ensures ReceiptRight(tx, receipt, r => Read(before, r))
  {
    hide Agrees, WellFormed, SetIn, ReceiptRight, Runs;
    RunsStart(tx, r => Read(before, r), before);
    ExecuteRight(tx, before, [], {}, tx.bound, r => Read(before, r));
    var answers, left := [], tx.bound;
    ghost var s, written := before, {};
    while left > 0
      invariant context.Valid() && context.Batch() == old(context.Batch())
      invariant Agrees(s, written, before, context.transientState.Now(), context.Batch(), committed)
      invariant Execute(tx, before, [], {}, tx.bound) == Execute(tx, s, answers, written, left)
    {
      match tx.next(answers) {
        case Finish(success) =>
          return Receipt(answers, success);
        case ReadStep(r) =>
          ghost var t := context.transientState.Now();
          var value := context.HandleSdkStateRead(committed, r);
          ReadAgrees(s, written, before, t, context.transientState.Now(), context.Batch(), committed, r);
          answers := answers + [value];
        case WriteStep(r, v) =>
          WriteAgrees(s, written, before, context.transientState.Now(), context.Batch(), committed, r, v);
          var ok := context.HandleSdkStateWrite(r, v);
          s, written := s[r := v], written + {r};
          answers := answers + [ZERO];
      }
      left := left - 1;
    }
    receipt := Receipt(answers, false);
  }

  /** What the batch state must look like once the transactions so far have meant state and written. */
  ghost predicate BatchAgrees(state: ChainState, written: set<Record>, b: Contents, committed: ChainState)
  {
    && WellFormed(b)
    && (forall q :: Read(state, q) == BatchView(b, committed, q))
    && (forall q :: Find(b, q).Some? <==> q in written)
    && (forall q :: q in written ==> DirtyIn(b, q))
  }

  /** Runs one transaction on top of the batch and merges its writes only if it succeeded. */
  method RunMethod(tx: Transaction, batch: TransientState, committed: ChainState, ghost state: ChainState, ghost written: set<Record>)
    returns (receipt: Receipt)
    requires BatchAgrees(state, written, batch.Now(), committed)
    modifies batch
    ensures var o := Execute(tx, state, [], {}, tx.bound);
            && receipt == o.receipt
            && BatchAgrees(if receipt.success then o.state else state,
                           if receipt.success then written + o.written else written, batch.Now(), committed)
  {
    var context := new ExecutionContext(batch, true);
    receipt := ProcessCall(tx, context, committed, state);
    if receipt.success {
      ghost var b := batch.Now();
      context.transientState.MergeIntoTransientState(batch);
      MergeAgrees(Execute(tx, state, [], {}, tx.bound), state, written, context.transientState.Now(), b, batch.Now(), committed);
    }
  }

  lemma {:induction false} MergeAgrees(o: Outcome, state: ChainState, written: set<Record>, t: Contents, b: Contents, merged: Contents,
                                       committed: ChainState)
    requires BatchAgrees(state, written, b, committed) && Agrees(o.state, o.written, state, t, b, committed)
    requires WellFormed(merged) && forall q :: Find(merged, q) == if DirtyIn(t, q) then Find(t, q) else Find(b, q)
    ensures BatchAgrees(o.state, written + o.written, merged, committed)
  {
    hide WellFormed, Find;
    forall q
      ensures Read(o.state, q) == BatchView(merged, committed, q)
      ensures Find(merged, q).Some? <==> q in written + o.written
      ensures q in written + o.written ==> DirtyIn(merged, q)
    {
      assert Find(merged, q) == if DirtyIn(t, q) then Find(t, q) else Find(b, q);
      assert Read(o.state, q) == View(t, b, committed, q);
      assert Read(state, q) == BatchView(b, committed, q);
    }
  }

  // ----- the diffs of a batch -----

  /** Every contract is listed once, with at least one record, and every key of it once. */
  ghost predicate ListedOnce(diffs: seq<ContractStateDiff>)
  {
    && (forall i, j :: 0 <= i < j < |diffs| ==> diffs[i].contract != diffs[j].contract)
    && (forall d :: d in diffs ==> d.records != [] && DistinctRecords(d.records))
  }

  predicate DistinctRecords(records: seq<StateRecord>)
  {
    forall i, j :: 0 <= i < j < |records| ==> records[i].key != records[j].key
  }

  lemma {:induction false} WithRecordsEffect(state: ChainState, contract: string, records: seq<StateRecord>)
    requires DistinctRecords(records)
    ensures forall q :: q in WithRecords(state, contract, records) <==>
                        q in state || (q.contract == contract && exists x :: x in records && x.key == q.key)
    ensures forall x :: x in records ==>
              Record(contract, x.key) in WithRecords(state, contract, records) &&
              WithRecords(state, contract, records)[Record(contract, x.key)] == x.value
    ensures forall q :: q in state && (q.contract != contract || forall x :: x in records ==> x.key != q.key) ==>
              q in WithRecords(state, contract, records) && WithRecords(state, contract, records)[q] == state[q]
  {
    if records != [] {
      var n := |records| - 1;
      assert records == records[..n] + [records[n]];
      WithRecordsEffect(state, contract, records[..n]);
    }
  }

  /** The records of diff are the dirty ones of the contracts listed so far, with their values. */
  ghost predicate Encodes(diff: ChainState, t: Contents, contracts: seq<string>)
  {
    forall q :: (q in diff <==> q.contract in contracts && DirtyIn(t, q)) && (q in diff ==> diff[q] == Find(t, q).value.value)
  }

  method EncodeBatchTransientStateToStateDiffs(batch: TransientState) returns (res: seq<ContractStateDiff>)
    requires WellFormed(batch.Now())
    ensures ListedOnce(res)
    ensures Encodes(Inflated(res), batch.Now(), batch.contractSortOrder)
    ensures InOrder(ContractsOf(res), batch.contractSortOrder)
  {
    hide Encodes, ListedOnce, DirtyOf, InOrder, AreDirty;
    NoneInOrder(batch.contractSortOrder);
    ghost var t := batch.Now();
    var order := batch.contractSortOrder;
    NothingEncoded(t);
    res := [];
    for i := 0 to |order|
      invariant ListedOnce(res) && From(res, order[..i])
      invariant Encodes(Inflated(res), t, order[..i]) && InOrder(ContractsOf(res), order)
    {
      var records := batch.ForDirty(order[i]);
      assert order[..i + 1] == order[..i] + [order[i]];
      assert order[i] in t.contracts && order[i] !in order[..i];
      EncodeStep(Inflated(res), t, order[..i], order[i], records);
      ListedStep(res, order[..i], order[i], records);
      OrderStep(res, order, i, records);
      if |records| > 0 {
        res := res + [ContractStateDiff(order[i], records)];
      }
    }
    assert order[..|order|] == order;
  }

  function ContractsOf(diffs: seq<ContractStateDiff>): (r: seq<string>)
    ensures |r| == |diffs| && forall i | 0 <= i < |r| :: r[i] == diffs[i].contract
  {
    seq(|diffs|, i requires 0 <= i < |diffs| => diffs[i].contract)
  }

  lemma NoneInOrder(order: seq<string>)
    ensures InOrder(ContractsOf([]), order)
  {
  }

  lemma OrderStep(diffs: seq<ContractStateDiff>, order: seq<string>, n: nat, records: seq<StateRecord>)
    requires n < |order| && From(diffs, order[..n]) && InOrder(ContractsOf(diffs), order)
    requires forall i, j :: 0 <= i < j < |order| ==> order[i] != order[j]
    ensures InOrder(ContractsOf(diffs + [ContractStateDiff(order[n], records)]), order)
  {
    var all := diffs + [ContractStateDiff(order[n], records)];
    var names := ContractsOf(all);
    forall i, j, a, b |
      0 <= i < j < |names| && 0 <= a < |order| && 0 <= b < |order| && names[i] == order[a] && names[j] == order[b]
      ensures a < b
    {
      assert diffs[i] in diffs && diffs[i].contract in order[..n];
      if j < |diffs| {
        assert ContractsOf(diffs)[i] == order[a] && ContractsOf(diffs)[j] == order[b];
      }
    }
  }

  predicate From(diffs: seq<ContractStateDiff>, contracts: seq<string>)
  {
    forall d :: d in diffs ==> d.contract in contracts
  }

  lemma NothingEncoded(t: Contents)
    ensures Encodes(Inflated([]), t, []) && ListedOnce([]) && From([], [])
  {
  }

  lemma ListedStep(diffs: seq<ContractStateDiff>, done: seq<string>, name: string, records: seq<StateRecord>)
    requires ListedOnce(diffs) && From(diffs, done) && name !in done && DistinctRecords(records)
    ensures From(diffs, done + [name])
    ensures var after := diffs + [ContractStateDiff(name, records)];
            && From(after, done + [name]) && Inflated(after) == WithRecords(Inflated(diffs), name, records)
            && (records != [] ==> ListedOnce(after))
  {
    var after := diffs + [ContractStateDiff(name, records)];
    assert after[..|after| - 1] == diffs;
  }

  lemma {:induction false} EncodeStep(diff: ChainState, t: Contents, done: seq<string>, name: string, records: seq<StateRecord>)
    requires WellFormed(t) && Encodes(diff, t, done) && name in t.contracts && name !in done
    requires records == DirtyOf(t.contracts[name], t.contracts[name].keySortOrder)
    ensures DistinctRecords(records)
    ensures Encodes(WithRecords(diff, name, records), t, done + [name])
  {
    hide WithRecords, DirtyOf;
    var c := t.contracts[name];
    DirtyOfMembers(c, c.keySortOrder);
    WithRecordsEffect(diff, name, records);
    var after := WithRecords(diff, name, records);
    forall q
      ensures q in after <==> q.contract in done + [name] && DirtyIn(t, q)
      ensures q in after ==> after[q] == Find(t, q).value.value
    {
      if q.contract == name { EncodeOne(t, name, records, q.key); }
    }
  }

  /** A key is listed among the dirty pairs of its contract exactly if its record is dirty. */
  lemma EncodeOne(t: Contents, name: string, records: seq<StateRecord>, key: string)
    requires name in t.contracts && Lists(t.contracts[name].keySortOrder, t.contracts[name].pairs.Keys)
    requires forall x :: x in records <==>
               x.key in t.contracts[name].keySortOrder && x.key in t.contracts[name].pairs &&
               t.contracts[name].pairs[x.key] == KeyValuePair(x.value, true)
    ensures (exists x :: x in records && x.key == key) <==> DirtyIn(t, Record(name, key))
    ensures DirtyIn(t, Record(name, key)) ==> StateRecord(key, Find(t, Record(name, key)).value.value) in records
  {
    var q := Record(name, key);
    if DirtyIn(t, q) { assert StateRecord(key, Find(t, q).value.value) in records; }
  }

  /** A batch run through the overlay means what running its transactions in turn means. Every answer that a
      transaction gets is what it last wrote to the record, or else what a successful one before it did, or else
      what is committed. The diffs name exactly the records written by successful transactions, each once, and
      applying them to committed state leaves what was last written. */
  method ProcessTransactionSet(txs: seq<Transaction>, committed: ChainState)
    returns (receipts: seq<Receipt>, stateDiffs: seq<ContractStateDiff>)
    ensures receipts == InTurn(txs, committed).receipts
    ensures ListedOnce(stateDiffs) && Inflated(stateDiffs).Keys == InTurn(txs, committed).written
    ensures forall q :: Read(Apply(committed, Inflated(stateDiffs)), q) == Read(InTurn(txs, committed).state, q)
    ensures ReceiptsRight(txs, receipts, committed)
    ensures forall q :: q in Inflated(stateDiffs) <==> LastCommitted(txs, receipts, q).Some?
    ensures forall q :: Read(Apply(committed, Inflated(stateDiffs)), q) == After(txs, receipts, committed, q)
  {
    hide ReceiptsRight, LastCommitted, After, BatchAgrees, ListedOnce, Encodes, Inflated, Apply, Execute, InOrder, Read;
    InTurnRight(txs, committed);
    var batch := new TransientState();
    NothingRun(committed);
    receipts := [];
    for i := 0 to |txs|
      invariant receipts == InTurn(txs[..i], committed).receipts
      invariant BatchAgrees(InTurn(txs[..i], committed).state, InTurn(txs[..i], committed).written, batch.Now(), committed)
    {
      assert txs[..i + 1][..i] == txs[..i];
      ghost var before := InTurn(txs[..i], committed);
      var receipt := RunMethod(txs[i], batch, committed, before.state, before.written);
      receipts := receipts + [receipt];
    }
    assert txs[..|txs|] == txs;
    AgreesIsWellFormed(InTurn(txs, committed), batch.Now(), committed);
    stateDiffs := EncodeBatchTransientStateToStateDiffs(batch);
    DiffsAgree(InTurn(txs, committed), batch.Now(), committed, Inflated(stateDiffs));
  }

  lemma AgreesIsWellFormed(meant: Batch, b: Contents, committed: ChainState)
    requires BatchAgrees(meant.state, meant.written, b, committed)
    ensures WellFormed(b)
  {
  }

  lemma NothingRun(committed: ChainState)
    ensures BatchAgrees(committed, {}, NOTHING, committed)
  {
  }

  lemma {:induction false} DiffsAgree(meant: Batch, b: Contents, committed: ChainState, diff: ChainState)
    requires BatchAgrees(meant.state, meant.written, b, committed) && Encodes(diff, b, b.order)
    ensures diff.Keys == meant.written
    ensures forall q :: Read(Apply(committed, diff), q) == Read(meant.state, q)
  {
    forall q
      ensures q in diff <==> q in meant.written
      ensures Read(Apply(committed, diff), q) == Read(meant.state, q)
    {
      assert Find(b, q).Some? ==> q.contract in b.order;
      assert Read(meant.state, q) == BatchView(b, committed, q);
    }
  }
}
