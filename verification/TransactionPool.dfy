/** Transaction validation and the pool of committed transactions. */
module TransactionPool {
  import opened Basics
  import opened Digests

  // ----- timestamps: unsigned 64-bit nanoseconds -----

  type Timestamp = U64

  function Plus(a: Timestamp, b: Timestamp): Timestamp { (a + b) % TWO_64 }

  function Minus(a: Timestamp, b: Timestamp): Timestamp { (a - b) % TWO_64 }

  lemma PlusExact(a: Timestamp, b: Timestamp)
    requires a + b < TWO_64
    ensures Plus(a, b) == a + b
  {
  }

  lemma MinusExact(a: Timestamp, b: Timestamp)
    ensures Minus(a, b) == if b <= a then a - b else a - b + TWO_64
  {
  }

  // ----- transactions -----

  datatype Transaction = Transaction(
    protocolVersion: nat, virtualChainId: nat, timestamp: Timestamp, schemeIsEddsa: bool, publicKeySize: nat, payload: seq<nat>)

  /** The hash covers the transaction and not its signature, and identifies it. */
  datatype TxHash = TxHash(transaction: Transaction)

  datatype SignedTransaction = SignedTransaction(transaction: Transaction, signature: seq<nat>)

  function HashOf(tx: SignedTransaction): TxHash { TxHash(tx.transaction) }

  datatype Rejection =
    | UnsupportedVersion | UnknownSignerScheme | SignatureMismatch | VirtualChainMismatch
    | TimestampWindowExceeded | TimestampAheadOfNodeTime

  const PROTOCOL_VERSION: nat := 1
  const ED25519_PUBLIC_KEY_SIZE: nat := 32

  datatype ValidationContext = ValidationContext(
    expiryWindow: Timestamp, futureTimestampGrace: Timestamp, virtualChainId: nat)

  predicate Expired(c: ValidationContext, timestamp: Timestamp, proposedBlockTimestamp: Timestamp)
  {
    timestamp < Minus(proposedBlockTimestamp, c.expiryWindow)
  }

  predicate InFuture(c: ValidationContext, timestamp: Timestamp, proposedBlockTimestamp: Timestamp)
  {
    timestamp > Plus(proposedBlockTimestamp, c.futureTimestampGrace)
  }

  /** The first check of ValidateTransactionForOrdering that fails, if any. */
  function ForOrdering(c: ValidationContext, tx: SignedTransaction, proposedBlockTimestamp: Timestamp): (r: Option<Rejection>)
    ensures r == None <==>
            && tx.transaction.protocolVersion == PROTOCOL_VERSION
            && tx.transaction.schemeIsEddsa && tx.transaction.publicKeySize == ED25519_PUBLIC_KEY_SIZE
            && tx.transaction.virtualChainId == c.virtualChainId
            && !Expired(c, tx.transaction.timestamp, proposedBlockTimestamp)
            && !InFuture(c, tx.transaction.timestamp, proposedBlockTimestamp)
  {
    var t := tx.transaction;
    if t.protocolVersion != PROTOCOL_VERSION then Some(UnsupportedVersion)
    else if !t.schemeIsEddsa then Some(UnknownSignerScheme)
    else if t.publicKeySize != ED25519_PUBLIC_KEY_SIZE then Some(SignatureMismatch)
    else if t.virtualChainId != c.virtualChainId then Some(VirtualChainMismatch)
    else if Expired(c, t.timestamp, proposedBlockTimestamp) then Some(TimestampWindowExceeded)
    else if InFuture(c, t.timestamp, proposedBlockTimestamp) then Some(TimestampAheadOfNodeTime)
    else None
  }

  /** Far enough from both ends of the 64-bit range for the window arithmetic not to wrap. */
  predicate Regular(c: ValidationContext, timestamp: Timestamp)
  {
    c.expiryWindow <= timestamp && timestamp + c.futureTimestampGrace < TWO_64
  }

  /** What each rejection says of a transaction, in numbers that do not wrap. */
  predicate Grounds(c: ValidationContext, t: Transaction, blockTime: Timestamp, r: Rejection)
  {
    match r
    case UnsupportedVersion => t.protocolVersion != PROTOCOL_VERSION
    case UnknownSignerScheme => !t.schemeIsEddsa
    case SignatureMismatch => t.publicKeySize != ED25519_PUBLIC_KEY_SIZE
    case VirtualChainMismatch => t.virtualChainId != c.virtualChainId
    case TimestampWindowExceeded => t.timestamp < blockTime - c.expiryWindow
    case TimestampAheadOfNodeTime => blockTime + c.futureTimestampGrace < t.timestamp
  }

  const CHECKS: seq<Rejection> := [
    UnsupportedVersion, UnknownSignerScheme, SignatureMismatch, VirtualChainMismatch, TimestampWindowExceeded, TimestampAheadOfNodeTime]

  /** For block times that do not make the arithmetic wrap, a transaction is rejected on the first of the
      grounds that there are, and accepted exactly when there are none. */
  lemma RejectedOnFirstGrounds(c: ValidationContext, tx: SignedTransaction, blockTime: Timestamp)
    requires Regular(c, blockTime)
    ensures match ForOrdering(c, tx, blockTime)
            case None => forall r :: !Grounds(c, tx.transaction, blockTime, r)
            case Some(r) => exists i :: 0 <= i < |CHECKS| && CHECKS[i] == r && Grounds(c, tx.transaction, blockTime, r) &&
                              forall j | 0 <= j < i :: !Grounds(c, tx.transaction, blockTime, CHECKS[j])
  {
    MinusExact(blockTime, c.expiryWindow);
    PlusExact(blockTime, c.futureTimestampGrace);
    var r := ForOrdering(c, tx, blockTime);
    if r.Some? {
      var i := if r.value.UnsupportedVersion? then 0 else if r.value.UnknownSignerScheme? then 1 else if r.value.SignatureMismatch? then 2
               else if r.value.VirtualChainMismatch? then 3 else if r.value.TimestampWindowExceeded? then 4 else 5;
      assert CHECKS[i] == r.value;
    }
  }

  /** A transaction is accepted for a block exactly when version, signer and chain are right and its time is
      from the expiry window before the block's to the grace after it. */
  lemma AcceptedIff(c: ValidationContext, tx: SignedTransaction, blockTime: Timestamp)
    requires Regular(c, blockTime)
    ensures ForOrdering(c, tx, blockTime) == None <==>
            && tx.transaction.protocolVersion == 1 && tx.transaction.schemeIsEddsa && tx.transaction.publicKeySize == 32
            && tx.transaction.virtualChainId == c.virtualChainId
            && blockTime - c.expiryWindow <= tx.transaction.timestamp <= blockTime + c.futureTimestampGrace
  {
    MinusExact(blockTime, c.expiryWindow);
    PlusExact(blockTime, c.futureTimestampGrace);
  }

  // ----- the committed pool -----

  datatype CommittedTransaction = CommittedTransaction(txHash: TxHash, blockHeight: nat, blockTimestamp: Timestamp)

  type Committed = map<TxHash, CommittedTransaction>

  /** Entries are filed under their own hash. */
  predicate Filed(pool: Committed)
  {
    forall h :: h in pool ==> pool[h].txHash == h
  }

  predicate Outdated(t: CommittedTransaction, grace: Timestamp, timestamp: Timestamp)
  {
    Plus(t.blockTimestamp, grace) < timestamp
  }

  function Cleared(pool: Committed, grace: Timestamp, timestamp: Timestamp): Committed
  {
    map h | h in pool && !Outdated(pool[h], grace, timestamp) :: pool[h]
  }

  /** An entry stays exactly when its block's time, with the grace, is not before the time given. */
  lemma ClearedIff(pool: Committed, grace: Timestamp, timestamp: Timestamp, h: TxHash)
    requires h in pool && pool[h].blockTimestamp + grace < TWO_64
    ensures h in Cleared(pool, grace, timestamp) <==> timestamp <= pool[h].blockTimestamp + grace
    ensures h in Cleared(pool, grace, timestamp) ==> Cleared(pool, grace, timestamp)[h] == pool[h]
  {
    PlusExact(pool[h].blockTimestamp, grace);
  }

  class CommittedPool {
    const futureTimestampGrace: Timestamp
    var transactions: Committed

    constructor (futureTimestampGrace: Timestamp)
      ensures transactions == map[] && this.futureTimestampGrace == futureTimestampGrace
    {
      this.futureTimestampGrace := futureTimestampGrace;
      transactions := map[];
    }

    method Add(txHash: TxHash, blockHeight: nat, blockTs: Timestamp)
      requires Filed(transactions)
      modifies this
      ensures Filed(transactions)
      ensures transactions == old(transactions)[txHash := CommittedTransaction(txHash, blockHeight, blockTs)]
    {
      transactions := transactions[txHash := CommittedTransaction(txHash, blockHeight, blockTs)];
    }

    method Has(txHash: TxHash) returns (ok: bool)
      ensures ok <==> txHash in transactions
    {
      ok := txHash in transactions;
    }

    /** Removes, while iterating, the entries whose block is older than the timestamp less the grace. */
    method ClearTransactionsOlderThan(timestamp: Timestamp)
      requires Filed(transactions)
      modifies this
      ensures Filed(transactions) && transactions == Cleared(old(transactions), futureTimestampGrace, timestamp)
    {
      var left := transactions.Keys;
      while left != {}
        invariant left <= transactions.Keys <= old(transactions).Keys && Filed(transactions)
        invariant forall h :: h in transactions ==> transactions[h] == old(transactions)[h]
        invariant forall h :: h in old(transactions) && h !in left ==>
            (h in transactions <==> !Outdated(old(transactions)[h], futureTimestampGrace, timestamp))
        decreases left
      {
        var h :| h in left;
        var tx := transactions[h];
        if Outdated(tx, futureTimestampGrace, timestamp) {
          transactions := transactions - {tx.txHash};
        }
        left := left - {h};
      }
    }
  }

  // ----- the service -----

  datatype Block = Block(height: nat, timestamp: Timestamp, txs: seq<SignedTransaction>)

  /** The receipts of a block carry the hashes of its transactions, in order. */
  function Receipts(b: Block): (r: seq<TxHash>)
    ensures |r| == |b.txs| && forall i :: 0 <= i < |r| ==> r[i] == HashOf(b.txs[i])
  {
    seq(|b.txs|, i requires 0 <= i < |b.txs| => HashOf(b.txs[i]))
  }

  function Added(pool: Committed, receipts: seq<TxHash>, height: nat, ts: Timestamp): Committed
  {
    if receipts == [] then pool
    else
      var last := receipts[|receipts| - 1];
      Added(pool, receipts[..|receipts| - 1], height, ts)[last := CommittedTransaction(last, height, ts)]
  }

  /** The receipts of a block are filed with its height and time, and everything else stays. */
  lemma {:induction false} AddedExact(pool: Committed, receipts: seq<TxHash>, height: nat, ts: Timestamp, h: TxHash)
    ensures h in Added(pool, receipts, height, ts) <==> h in receipts || h in pool
    ensures h in receipts ==> Added(pool, receipts, height, ts)[h] == CommittedTransaction(h, height, ts)
    ensures h !in receipts && h in pool ==> Added(pool, receipts, height, ts)[h] == pool[h]
  {
    if receipts != [] {
      AddedExact(pool, receipts[..|receipts| - 1], height, ts, h);
      assert receipts == receipts[..|receipts| - 1] + [receipts[|receipts| - 1]];
    }
  }

  class Service {
    const validationContext: ValidationContext
    const committedPool: CommittedPool
    var lastCommittedHeight: nat
    var lastCommittedTimestamp: Timestamp
    var trackedHeight: nat

    ghost predicate Valid()
      reads this, committedPool
    {
      && committedPool.futureTimestampGrace == validationContext.futureTimestampGrace
      && trackedHeight == lastCommittedHeight
      && Filed(committedPool.transactions)
    }

    constructor (c: ValidationContext)
      ensures Valid() && validationContext == c && fresh(committedPool)
      ensures lastCommittedHeight == 0 && lastCommittedTimestamp == 0 && committedPool.transactions == map[]
    {
      validationContext := c;
      committedPool := new CommittedPool(c.futureTimestampGrace);
      lastCommittedHeight, lastCommittedTimestamp, trackedHeight := 0, 0, 0;
    }

    /** Accepts the receipts of the next block only; for any other it changes nothing and asks for the next. */
    method CommitTransactionReceipts(b: Block) returns (nextDesired: nat)
      requires Valid()
      modifies this, committedPool
      ensures Valid() && nextDesired == lastCommittedHeight + 1
      ensures if b.height == old(lastCommittedHeight) + 1 then
                && lastCommittedHeight == b.height && lastCommittedTimestamp == b.timestamp
                && committedPool.transactions == Added(old(committedPool.transactions), Receipts(b), b.height, b.timestamp)
              else
                && lastCommittedHeight == old(lastCommittedHeight) && lastCommittedTimestamp == old(lastCommittedTimestamp)
                && committedPool.transactions == old(committedPool.transactions)
      ensures b.height == old(lastCommittedHeight) + 1 ==>
                forall tx | tx in b.txs ::
                  && HashOf(tx) in committedPool.transactions
                  && committedPool.transactions[HashOf(tx)] == CommittedTransaction(HashOf(tx), b.height, b.timestamp)
    {
      if b.height != lastCommittedHeight + 1 {
        return lastCommittedHeight + 1;
      }
      lastCommittedHeight, lastCommittedTimestamp := b.height, b.timestamp;
      var receipts := Receipts(b);
      for i := 0 to |receipts|
        invariant Filed(committedPool.transactions) && lastCommittedHeight == b.height && lastCommittedTimestamp == b.timestamp
        invariant trackedHeight == old(trackedHeight)
        invariant committedPool.transactions == Added(old(committedPool.transactions), receipts[..i], b.height, b.timestamp)
      {
        assert receipts[..i + 1][..i] == receipts[..i];
        committedPool.Add(receipts[i], b.height, b.timestamp);
      }
      assert receipts[..|receipts|] == receipts;
      forall tx | tx in b.txs
        ensures HashOf(tx) in committedPool.transactions
        ensures committedPool.transactions[HashOf(tx)] == CommittedTransaction(HashOf(tx), b.height, b.timestamp)
      {
        var i :| 0 <= i < |b.txs| && b.txs[i] == tx;
        assert receipts[i] == HashOf(tx);
        AddedExact(old(committedPool.transactions), receipts, b.height, b.timestamp, HashOf(tx));
      }
      trackedHeight := trackedHeight + 1;
      nextDesired := lastCommittedHeight + 1;
    }

    /** A tick of the cleaner of the committed pool. */
    method CleanupTick()
      requires Valid()
      modifies committedPool
      ensures Valid()
      ensures committedPool.transactions == Cleared(old(committedPool.transactions), validationContext.futureTimestampGrace,
                                                    Minus(lastCommittedTimestamp, validationContext.expiryWindow))
    {
      committedPool.ClearTransactionsOlderThan(Minus(lastCommittedTimestamp, validationContext.expiryWindow));
    }

    /** Validates the transactions of a proposed block once the block before it is committed here. The
        pre-order results come from the virtual machine. */
    method ValidateTransactionsForOrdering(height: nat, timestamp: Timestamp, txs: seq<SignedTransaction>,
                                           preOrderResults: seq<bool>, preOrderFailed: bool)
      returns (ok: bool)
      requires Valid() && height > 0
      ensures ok <==>
              && height - 1 <= trackedHeight && Acceptable(validationContext, committedPool.transactions, timestamp, txs)
              && !preOrderFailed && (|preOrderResults| == |txs| ==> false !in preOrderResults)
      ensures ok && Regular(validationContext, timestamp) ==>
                forall tx | tx in txs ::
                  && HashOf(tx) !in committedPool.transactions
                  && timestamp - validationContext.expiryWindow <= tx.transaction.timestamp
                  && tx.transaction.timestamp <= timestamp + validationContext.futureTimestampGrace
    {
      if trackedHeight < height - 1 {
        return false;
      }
      for i := 0 to |txs|
        invariant Acceptable(validationContext, committedPool.transactions, timestamp, txs[..i])
      {
        var txHash := HashOf(txs[i]);
        var committed := committedPool.Has(txHash);
        if committed || ForOrdering(validationContext, txs[i], timestamp) != None {
          return false;
        }
      }
      if |preOrderResults| == |txs| {
        for i := 0 to |txs|
          invariant false !in preOrderResults[..i]
        {
          if !preOrderResults[i] {
            return false;
          }
        }
        assert preOrderResults[..|txs|] == preOrderResults;
      }
      if Regular(validationContext, timestamp) {
        AcceptableInTime(validationContext, committedPool.transactions, timestamp, txs);
      }
      ok := !preOrderFailed;
    }
  }

  lemma AcceptableInTime(c: ValidationContext, pool: Committed, timestamp: Timestamp, txs: seq<SignedTransaction>)
    requires Regular(c, timestamp) && Acceptable(c, pool, timestamp, txs)
    ensures forall tx | tx in txs ::
              && HashOf(tx) !in pool
              && timestamp - c.expiryWindow <= tx.transaction.timestamp <= timestamp + c.futureTimestampGrace
  {
    forall tx | tx in txs
      ensures HashOf(tx) !in pool
      ensures timestamp - c.expiryWindow <= tx.transaction.timestamp <= timestamp + c.futureTimestampGrace
    {
      AcceptedIff(c, tx, timestamp);
    }
  }

  predicate Acceptable(c: ValidationContext, pool: Committed, timestamp: Timestamp, txs: seq<SignedTransaction>)
  {
    forall i :: 0 <= i < |txs| ==> HashOf(txs[i]) !in pool && ForOrdering(c, txs[i], timestamp) == None
  }
}
