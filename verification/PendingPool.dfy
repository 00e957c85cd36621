/** The pool of pending transactions: a map by hash, a list in order of arrival and a 32-bit counter of
    bytes, changed together. A list element is named by a number, as the map refers to it by pointer.
 */
module PendingPool {
  import opened Basics
  import opened Digests
  import opened TransactionPool

  /** A signed transaction with the length of its bytes. */
  datatype SizedTransaction = SizedTransaction(signed: SignedTransaction, size: U32)

  datatype Element = Element(id: nat, tx: SizedTransaction)

  datatype Pending = Pending(tx: SizedTransaction, gateway: nat, listElement: nat)

  datatype Status = Accepted | Congestion | AlreadyPending

  function Key(e: Element): TxHash { HashOf(e.tx.signed) }

  /** The bytes of all transactions of a list, without wrap-around. */
  function Sum(es: seq<Element>): nat
  {
    if es == [] then 0 else es[0].tx.size + Sum(es[1..])
  }

  lemma {:induction false} SumSplit(a: seq<Element>, b: seq<Element>)
    ensures Sum(a + b) == Sum(a) + Sum(b)
  {
    if a == [] {
      assert a + b == b;
    } else {
      assert (a + b)[1..] == a[1..] + b;
      SumSplit(a[1..], b);
    }
  }

  lemma SumCons(e: Element, es: seq<Element>)
    ensures Sum([e] + es) == e.tx.size + Sum(es)
  {
    assert ([e] + es)[1..] == es;
  }

  lemma SumWithout(es: seq<Element>, i: nat)
    requires i < |es|
    ensures Sum(es) == Sum(Without(es, i)) + es[i].tx.size
  {
    hide Sum;
    SumSplit(es[..i], es[i + 1..]);
    SumSplit(es[..i], [es[i]] + es[i + 1..]);
    SumCons(es[i], es[i + 1..]);
    assert es == es[..i] + ([es[i]] + es[i + 1..]);
  }

  ghost predicate IdsDistinct(es: seq<Element>, bound: nat)
  {
    && (forall i | 0 <= i < |es| :: es[i].id < bound)
    && forall i, j | 0 <= i < j < |es| :: es[i].id != es[j].id
  }

  /** The map and the list hold the same transactions: every element is filed under its hash, with a
      reference back to it, and every entry of the map has an element. */
  ghost predicate Paired(byHash: map<TxHash, Pending>, es: seq<Element>)
  {
    && (forall i | 0 <= i < |es| :: Files(byHash, es[i]))
    && forall h | h in byHash :: Listed(es, h)
  }

  ghost predicate Listed(es: seq<Element>, h: TxHash)
  {
    exists i :: 0 <= i < |es| && Key(es[i]) == h
  }

  predicate Files(byHash: map<TxHash, Pending>, e: Element)
  {
    Key(e) in byHash && byHash[Key(e)].listElement == e.id && byHash[Key(e)].tx == e.tx
  }

  /** No transaction is in the list twice. */
  lemma KeysDistinct(byHash: map<TxHash, Pending>, es: seq<Element>, bound: nat, i: nat, j: nat)
    requires Paired(byHash, es) && IdsDistinct(es, bound) && i < |es| && j < |es|
    ensures i != j ==> Key(es[i]) != Key(es[j])
  {
    assert Files(byHash, es[i]) && Files(byHash, es[j]);
  }

  class PendingTxPool {
    const pendingPoolSizeInBytes: U32
    var currentSizeInBytes: U32
    var transactionsByHash: map<TxHash, Pending>
    /** Front, the newest, first. */
    var transactionList: seq<Element>
    var nextId: nat

    /** Holds in every reachable state; the counter is right up to multiples of 2^32. */
    ghost predicate Valid()
      reads this
    {
      && Paired(transactionsByHash, transactionList)
      && IdsDistinct(transactionList, nextId)
      && currentSizeInBytes == AsU32(Sum(transactionList))
    }

    /** The counter is the number of bytes in the pool. */
    ghost predicate Exact()
      reads this
    {
      currentSizeInBytes == Sum(transactionList)
    }

    /** The counter is the number of bytes in the pool, and that is within the limit. */
    ghost predicate WithinLimit()
      reads this
    {
      Exact() && currentSizeInBytes <= pendingPoolSizeInBytes
    }

    constructor (pendingPoolSizeInBytes: U32)
      ensures Valid() && WithinLimit() && transactionList == [] && transactionsByHash == map[]
      ensures this.pendingPoolSizeInBytes == pendingPoolSizeInBytes
    {
      this.pendingPoolSizeInBytes := pendingPoolSizeInBytes;
      currentSizeInBytes, transactionsByHash, transactionList, nextId := 0, map[], [], 0;
    }

    /** Adds in front, unless the pool is full, which is checked first, or has the transaction. A pool within
        its limit stays so exactly when an accepted addition does not pass 2^32. */
    method Add(tx: SizedTransaction, gateway: nat) returns (status: Status)
      requires Valid()
      modifies this
      ensures Valid()
      ensures status == if AsU32(old(currentSizeInBytes) + tx.size) > pendingPoolSizeInBytes then Congestion
                        else if HashOf(tx.signed) in old(transactionsByHash) then AlreadyPending
                        else Accepted
      ensures status != Accepted ==>
                transactionList == old(transactionList) && transactionsByHash == old(transactionsByHash) &&
                currentSizeInBytes == old(currentSizeInBytes)
      ensures status == Accepted ==>
                && transactionList == [Element(old(nextId), tx)] + old(transactionList)
                && transactionsByHash == old(transactionsByHash)[HashOf(tx.signed) := Pending(tx, gateway, old(nextId))]
                && currentSizeInBytes == AsU32(old(currentSizeInBytes) + tx.size)
      ensures old(WithinLimit()) ==> (WithinLimit() <==> status != Accepted || old(currentSizeInBytes) + tx.size < TWO_32)
      ensures old(WithinLimit()) && pendingPoolSizeInBytes + tx.size < TWO_32 ==> WithinLimit()
    {
      hide Paired, IdsDistinct, AsU32;
      if AsU32(currentSizeInBytes + tx.size) > pendingPoolSizeInBytes { return Congestion; }
      var key := HashOf(tx.signed);
      if key in transactionsByHash { return AlreadyPending; }
      AddPaired(transactionsByHash, transactionList, tx, gateway, nextId);
      SumSplit([Element(nextId, tx)], transactionList);
      WrapAdd(Sum(transactionList), tx.size);
      currentSizeInBytes := AsU32(currentSizeInBytes + tx.size);
      transactionList := [Element(nextId, tx)] + transactionList;
      transactionsByHash := transactionsByHash[key := Pending(tx, gateway, nextId)];
      nextId := nextId + 1;
      return Accepted;
    }

    /** Removes the transaction from the map and its element from the list; the counter stays exact. */
    method Remove(txHash: TxHash) returns (gateway: Option<nat>)
      requires Valid()
      modifies this
      ensures Valid() && nextId == old(nextId)
      ensures gateway.Some? <==> txHash in old(transactionsByHash)
      ensures gateway.None? ==>
                transactionList == old(transactionList) && transactionsByHash == old(transactionsByHash) &&
                currentSizeInBytes == old(currentSizeInBytes)
      ensures gateway.Some? ==>
                && gateway.value == old(transactionsByHash)[txHash].gateway
                && transactionsByHash == old(transactionsByHash) - {txHash}
                && exists i :: 0 <= i < |old(transactionList)| && Key(old(transactionList)[i]) == txHash &&
                               transactionList == Without(old(transactionList), i)
      ensures (old(Exact()) ==> Exact()) && (old(WithinLimit()) ==> WithinLimit())
    {
      hide Paired, IdsDistinct, AsU32, Sum, Without, Key;
      if txHash !in transactionsByHash { return None; }
      var pending := transactionsByHash[txHash];
      var i := Position(transactionsByHash, transactionList, nextId, txHash);
      RemovePaired(transactionsByHash, transactionList, nextId, i);
      SumWithout(transactionList, i);
      WrapSubtract(Sum(transactionList), pending.tx.size);
      transactionsByHash := transactionsByHash - {txHash};
      currentSizeInBytes := AsU32(currentSizeInBytes - pending.tx.size);
      transactionList := Without(transactionList, i);
      return Some(pending.gateway);
    }

    /** What a commit does to the pool: the transactions of the block go, the others stay as and where they
        are. Returned are the transactions that were pending and for which this node is the gateway. */
    method RemoveCommitted(receipts: seq<TxHash>, nodeAddress: nat) returns (myReceipts: seq<TxHash>)
      requires Valid()
      modifies this
      ensures Valid() && (old(Exact()) ==> Exact()) && (old(WithinLimit()) ==> WithinLimit())
      ensures transactionsByHash == old(transactionsByHash) - Hashes(receipts)
      ensures transactionList == Keeping(old(transactionList), Hashes(receipts))
      ensures myReceipts == Mine(old(transactionsByHash), receipts, nodeAddress)
      ensures forall h :: h in myReceipts <==>
                h in receipts && h in old(transactionsByHash) && old(transactionsByHash)[h].gateway == nodeAddress
      ensures forall i, j | 0 <= i < j < |myReceipts| :: myReceipts[i] != myReceipts[j]
    {
      hide Paired, IdsDistinct, AsU32, Sum, Keeping, Without, Key;
      myReceipts := [];
      KeepingAll(transactionList);
      for i := 0 to |receipts|
        invariant Valid() && (old(Exact()) ==> Exact()) && (old(WithinLimit()) ==> WithinLimit())
        invariant myReceipts == Mine(old(transactionsByHash), receipts[..i], nodeAddress)
        invariant transactionsByHash == old(transactionsByHash) - Hashes(receipts[..i])
        invariant transactionList == Keeping(old(transactionList), Hashes(receipts[..i]))
      {
        assert receipts[..i + 1][..i] == receipts[..i];
        KeepingOne(transactionsByHash, transactionList, nextId, receipts[i]);
        assert Hashes(receipts[..i + 1]) == Hashes(receipts[..i]) + {receipts[i]};
        KeepingTwice(old(transactionList), Hashes(receipts[..i]), {receipts[i]});
        var gateway := Remove(receipts[i]);
        if gateway == Some(nodeAddress) {
          myReceipts := myReceipts + [receipts[i]];
        }
      }
      assert receipts[..|receipts|] == receipts;
      MineExact(old(transactionsByHash), receipts, nodeAddress);
    }

    /** A batch is the longest run of the oldest transactions, oldest first, that keeps to both limits; a
        size limit of zero is no limit. */
    method GetBatch(maxNumOfTransactions: U32, sizeLimitInBytes: U32) returns (txs: seq<SizedTransaction>)
      requires Valid()
      ensures txs <= OldestFirst(transactionList) && |txs| <= maxNumOfTransactions
      ensures Sum(transactionList) < TWO_32 ==>
                forall k | 0 <= k <= |transactionList| ::
                  var oldest := OldestFirst(transactionList)[..k];
                  k <= |txs| <==> k <= maxNumOfTransactions && (sizeLimitInBytes == 0 || Bytes(oldest) <= sizeLimitInBytes)
      ensures forall i | 0 <= i < |txs| :: txs[i] == transactionList[|transactionList| - 1 - i].tx
    {
      hide Paired, IdsDistinct, AsU32, Sum, Bytes, OldestFirst;
      ghost var all, n := OldestFirst(transactionList), 0;
      var sizeInBytes: U32, e := 0, |transactionList|;
      txs := [];
      NoBytes(all);
      while e > 0 && |txs| < maxNumOfTransactions
        invariant 0 <= e && n == |txs| == |all| - e && txs == all[..n] && n <= maxNumOfTransactions
        invariant sizeInBytes == AsU32(Bytes(all[..n]))
        invariant sizeLimitInBytes > 0 && Sum(transactionList) < TWO_32 ==> Bytes(all[..n]) <= sizeLimitInBytes
      {
        var tx := transactionList[e - 1].tx;
        TakeOne(transactionList, n);
        if sizeLimitInBytes > 0 && AsU32(sizeInBytes + tx.size) > sizeLimitInBytes { break; }
        sizeInBytes := AsU32(sizeInBytes + tx.size);
        txs := txs + [tx];
        n := n + 1;
        e := e - 1;
      }
      if Sum(transactionList) < TWO_32 { LongestFit(all, n, maxNumOfTransactions, sizeLimitInBytes); }
    }

    /** The sweep walks from the oldest element on and asks the element it is at for its predecessor. An
        element that was just removed has none, so the sweep ends with the first removal. */
    method ClearTransactionsOlderThan(timestamp: Timestamp)
      requires Valid()
      modifies this
      ensures Valid() && (old(Exact()) ==> Exact()) && (old(WithinLimit()) ==> WithinLimit())
      ensures transactionList == Swept(old(transactionList), timestamp)
      ensures OldestExpiredGone(old(transactionList), transactionList, timestamp)
    {
      SweepExact(transactionList, timestamp);
      hide OldestExpiredGone, Paired, AsU32, Sum, IdsDistinct, Without, Key;
      var e := |transactionList|;
      while e > 0
        invariant 0 <= e <= |old(transactionList)| && Valid() && (old(Exact()) ==> Exact()) && (old(WithinLimit()) ==> WithinLimit())
        invariant e > 0 ==> transactionList == old(transactionList)
        invariant Swept(old(transactionList), timestamp) ==
                  if e > 0 then SweptFrom(old(transactionList), e, timestamp) else transactionList
      {
        var element := transactionList[e - 1];
        if element.tx.signed.transaction.timestamp < timestamp {
          KeyIsHash(element);
          ElementFiled(transactionsByHash, transactionList, e - 1);
          var _ := Remove(Key(element));
          OnlyPosition(old(transactionsByHash), old(transactionList), old(nextId), e - 1, transactionList);
          e := 0;
        } else {
          e := e - 1;
        }
      }
    }
  }

  lemma KeyIsHash(e: Element)
    ensures Key(e) == HashOf(e.tx.signed)
  {
  }

  lemma ElementFiled(byHash: map<TxHash, Pending>, es: seq<Element>, i: nat)
    requires Paired(byHash, es) && i < |es|
    ensures Key(es[i]) in byHash
  {
    assert Files(byHash, es[i]);
  }

  lemma OnlyPosition(byHash: map<TxHash, Pending>, es: seq<Element>, bound: nat, i: nat, left: seq<Element>)
    requires Paired(byHash, es) && IdsDistinct(es, bound) && i < |es|
    requires exists j :: 0 <= j < |es| && Key(es[j]) == Key(es[i]) && left == Without(es, j)
    ensures left == Without(es, i)
  {
    var j :| 0 <= j < |es| && Key(es[j]) == Key(es[i]) && left == Without(es, j);
    KeysDistinct(byHash, es, bound, i, j);
  }

  // ----- commits -----

  function Hashes(receipts: seq<TxHash>): set<TxHash> { set h | h in receipts }

  /** The receipts, each once, of pending transactions with the given gateway. */
  function Mine(byHash: map<TxHash, Pending>, receipts: seq<TxHash>, nodeAddress: nat): seq<TxHash>
  {
    if receipts == [] then []
    else
      var front, h := receipts[..|receipts| - 1], receipts[|receipts| - 1];
      Mine(byHash, front, nodeAddress) +
      if h in byHash && h !in front && byHash[h].gateway == nodeAddress then [h] else []
  }

  lemma {:induction false} MineExact(byHash: map<TxHash, Pending>, receipts: seq<TxHash>, nodeAddress: nat)
    ensures var mine := Mine(byHash, receipts, nodeAddress);
            && (forall h :: h in mine <==> h in receipts && h in byHash && byHash[h].gateway == nodeAddress)
            && (forall i, j | 0 <= i < j < |mine| :: mine[i] != mine[j])
  {
    if receipts != [] {
      var front, h := receipts[..|receipts| - 1], receipts[|receipts| - 1];
      assert receipts == front + [h];
      MineExact(byHash, front, nodeAddress);
    }
  }

  /** The elements whose transactions are not among those gone, in order. */
  function Keeping(es: seq<Element>, gone: set<TxHash>): seq<Element>
  {
    if es == [] then []
    else if Key(es[0]) in gone then Keeping(es[1..], gone)
    else [es[0]] + Keeping(es[1..], gone)
  }

  lemma {:induction false} KeepingAll(es: seq<Element>)
    ensures Keeping(es, Hashes([])) == es
  {
    if es != [] { KeepingAll(es[1..]); }
  }

  lemma {:induction false} KeepingTwice(es: seq<Element>, a: set<TxHash>, b: set<TxHash>)
    ensures Keeping(Keeping(es, a), b) == Keeping(es, a + b)
  {
    hide Key;
    if es != [] {
      KeepingTwice(es[1..], a, b);
      var rest := Keeping(es[1..], a);
      assert ([es[0]] + rest)[1..] == rest;
    }
  }

  lemma {:induction false} KeepingOthers(es: seq<Element>, h: TxHash)
    requires forall i | 0 <= i < |es| :: Key(es[i]) != h
    ensures Keeping(es, {h}) == es
  {
    if es != [] { KeepingOthers(es[1..], h); }
  }

  lemma {:induction false} KeepingAppend(a: seq<Element>, b: seq<Element>, gone: set<TxHash>)
    ensures Keeping(a + b, gone) == Keeping(a, gone) + Keeping(b, gone)
  {
    hide Key;
    if a == [] {
      assert a + b == b;
    } else {
      assert (a + b)[1..] == a[1..] + b;
      KeepingAppend(a[1..], b, gone);
    }
  }

  /** Taking out the one element of a transaction is keeping all others. */
  lemma KeepingOne(byHash: map<TxHash, Pending>, es: seq<Element>, bound: nat, h: TxHash)
    requires Paired(byHash, es) && IdsDistinct(es, bound)
    ensures forall i | 0 <= i < |es| && Key(es[i]) == h :: Without(es, i) == Keeping(es, {h})
    ensures h !in byHash ==> Keeping(es, {h}) == es
  {
    hide Key, Keeping, Paired, IdsDistinct, Without;
    forall i | 0 <= i < |es| && Key(es[i]) == h
      ensures Without(es, i) == Keeping(es, {h})
    {
      KeepingAt(byHash, es, bound, i);
    }
    if h !in byHash {
      forall j | 0 <= j < |es| ensures Key(es[j]) != h {
        ElementFiled(byHash, es, j);
      }
      KeepingOthers(es, h);
    }
  }

  lemma KeepingAt(byHash: map<TxHash, Pending>, es: seq<Element>, bound: nat, i: nat)
    requires Paired(byHash, es) && IdsDistinct(es, bound) && i < |es|
    ensures Without(es, i) == Keeping(es, {Key(es[i])})
  {
    hide Key, Keeping, Paired, IdsDistinct;
    var h := Key(es[i]);
    forall j | 0 <= j < |es| ensures j != i ==> Key(es[j]) != h {
      KeysDistinct(byHash, es, bound, i, j);
    }
    KeepingOthers(es[..i], h);
    KeepingOthers(es[i + 1..], h);
    KeepingAppend(es[..i], es[i..], {h});
    KeepingFirst(es[i..], h);
    assert es == es[..i] + es[i..] && es[i..][1..] == es[i + 1..];
  }

  lemma KeepingFirst(es: seq<Element>, h: TxHash)
    requires es != [] && Key(es[0]) == h
    ensures Keeping(es, {h}) == Keeping(es[1..], {h})
  {
  }

  // ----- batches -----

  /** The transactions of a list from its back to its front. */
  function OldestFirst(es: seq<Element>): (r: seq<SizedTransaction>)
    ensures |r| == |es| && forall i | 0 <= i < |es| :: r[i] == es[|es| - 1 - i].tx
  {
    seq(|es|, i requires 0 <= i < |es| => es[|es| - 1 - i].tx)
  }

  function Bytes(txs: seq<SizedTransaction>): nat
  {
    if txs == [] then 0 else Bytes(txs[..|txs| - 1]) + txs[|txs| - 1].size
  }

  predicate Fits(txs: seq<SizedTransaction>, maxNum: U32, sizeLimit: U32)
  {
    |txs| <= maxNum && (sizeLimit > 0 ==> Bytes(txs) <= sizeLimit)
  }

  lemma BytesSnoc(txs: seq<SizedTransaction>, tx: SizedTransaction)
    ensures Bytes(txs + [tx]) == Bytes(txs) + tx.size
  {
    assert (txs + [tx])[..|txs|] == txs;
  }

  lemma {:induction false} BytesGrow(txs: seq<SizedTransaction>, k: nat)
    requires k <= |txs|
    ensures Bytes(txs[..k]) <= Bytes(txs)
  {
    if k < |txs| {
      BytesGrow(txs[..|txs| - 1], k);
      assert txs[..|txs| - 1][..k] == txs[..k];
    } else {
      assert txs[..k] == txs;
    }
  }

  lemma {:induction false} BytesIsSum(es: seq<Element>)
    ensures Bytes(OldestFirst(es)) == Sum(es)
  {
    if es != [] {
      BytesIsSum(es[1..]);
      assert OldestFirst(es) == OldestFirst(es[1..]) + [es[0].tx];
      BytesSnoc(OldestFirst(es[1..]), es[0].tx);
    }
  }

  lemma PrefixBytes(es: seq<Element>, k: nat)
    requires k <= |es|
    ensures Bytes(OldestFirst(es)[..k]) <= Sum(es)
  {
    BytesIsSum(es);
    BytesGrow(OldestFirst(es), k);
  }

  lemma NoBytes(txs: seq<SizedTransaction>)
    ensures Bytes(txs[..0]) == 0 && AsU32(0) == 0
  {
  }

  /** One more of the oldest transactions, and its bytes counted in 32 bits. */
  lemma TakeOne(es: seq<Element>, n: nat)
    requires n < |es|
    ensures var all, tx := OldestFirst(es), es[|es| - 1 - n].tx;
            && all[..n + 1] == all[..n] + [tx]
            && AsU32(AsU32(Bytes(all[..n])) + tx.size) == AsU32(Bytes(all[..n + 1]))
            && (Sum(es) < TWO_32 ==> AsU32(Bytes(all[..n + 1])) == Bytes(all[..n + 1]))
  {
    hide Sum, Bytes;
    var all, tx := OldestFirst(es), es[|es| - 1 - n].tx;
    assert all[..n + 1] == all[..n] + [tx];
    BytesSnoc(all[..n], tx);
    WrapAdd(Bytes(all[..n]), tx.size);
    PrefixBytes(es, n + 1);
  }

  /** A prefix that fits and cannot be longer by one is the longest that fits. */
  lemma LongestFit(all: seq<SizedTransaction>, n: nat, maxNum: U32, sizeLimit: U32)
    requires n <= |all| && n <= maxNum && (sizeLimit > 0 ==> Bytes(all[..n]) <= sizeLimit)
    requires n == |all| || n == maxNum || (sizeLimit > 0 && Bytes(all[..n + 1]) > sizeLimit)
    ensures forall k | 0 <= k <= |all| :: Fits(all[..k], maxNum, sizeLimit) <==> k <= n
  {
    forall k | 0 <= k <= |all|
      ensures Fits(all[..k], maxNum, sizeLimit) <==> k <= n
    {
      if k <= n {
        BytesGrow(all[..n], k);
        assert all[..n][..k] == all[..k];
      } else {
        BytesGrow(all[..k], n + 1);
        assert all[..k][..n + 1] == all[..n + 1];
      }
    }
  }

  // ----- the sweep -----

  predicate Old(e: Element, timestamp: Timestamp) { e.tx.signed.transaction.timestamp < timestamp }

  /** The list after the sweep has passed over all but its first e elements without a removal. */
  function SweptFrom(es: seq<Element>, e: nat, timestamp: Timestamp): seq<Element>
    requires e <= |es|
  {
    if e == 0 then es
    else if Old(es[e - 1], timestamp) then Without(es, e - 1)
    else SweptFrom(es, e - 1, timestamp)
  }

  function Swept(es: seq<Element>, timestamp: Timestamp): seq<Element> { SweptFrom(es, |es|, timestamp) }

  function CountOld(es: seq<Element>, timestamp: Timestamp): nat
  {
    if es == [] then 0 else CountOld(es[..|es| - 1], timestamp) + if Old(es[|es| - 1], timestamp) then 1 else 0
  }

  /** The sweep removes one expired transaction, the oldest in the pool, if there is one, and nothing else. */
  lemma {:induction false} SweepRemovesOne(es: seq<Element>, e: nat, timestamp: Timestamp)
    requires e <= |es| && forall j | e <= j < |es| :: !Old(es[j], timestamp)
    ensures var r := SweptFrom(es, e, timestamp);
            || (r == es && forall j | 0 <= j < |es| :: !Old(es[j], timestamp))
            || exists i | 0 <= i < |es| ::
                 r == Without(es, i) && Old(es[i], timestamp) && forall j | i < j < |es| :: !Old(es[j], timestamp)
  {
    hide Without, Old;
    if e > 0 && !Old(es[e - 1], timestamp) {
      SweepRemovesOne(es, e - 1, timestamp);
    } else if e > 0 {
      assert SweptFrom(es, e, timestamp) == Without(es, e - 1);
    }
  }

  /** Of the transactions with times before the given one, the oldest is gone, if there is one, and nothing else. */
  ghost predicate OldestExpiredGone(es: seq<Element>, left: seq<Element>, timestamp: Timestamp)
  {
    || (left == es && forall j | 0 <= j < |es| :: es[j].tx.signed.transaction.timestamp >= timestamp)
    || exists i | 0 <= i < |es| ::
         && left == Without(es, i) && es[i].tx.signed.transaction.timestamp < timestamp
         && forall j | i < j < |es| :: es[j].tx.signed.transaction.timestamp >= timestamp
  }

  lemma SweepExact(es: seq<Element>, timestamp: Timestamp)
    ensures OldestExpiredGone(es, Swept(es, timestamp), timestamp)
  {
    hide Without, SweptFrom;
    SweepRemovesOne(es, |es|, timestamp);
  }

  lemma {:induction false} CountAppend(a: seq<Element>, b: seq<Element>, timestamp: Timestamp)
    ensures CountOld(a + b, timestamp) == CountOld(a, timestamp) + CountOld(b, timestamp)
  {
    if b == [] {
      assert a + b == a;
    } else {
      CountAppend(a, b[..|b| - 1], timestamp);
      assert (a + b)[..|a + b| - 1] == a + b[..|b| - 1];
    }
  }

  lemma {:induction false} CountNone(es: seq<Element>, timestamp: Timestamp)
    ensures CountOld(es, timestamp) == 0 <==> forall j | 0 <= j < |es| :: !Old(es[j], timestamp)
  {
    if es != [] { CountNone(es[..|es| - 1], timestamp); }
  }

  /** The sweep leaves no expired transaction behind exactly when there was at most one. */
  lemma {:induction false} SweepClearsIff(es: seq<Element>, timestamp: Timestamp)
    ensures (forall e | e in Swept(es, timestamp) :: !Old(e, timestamp)) <==> CountOld(es, timestamp) <= 1
  {
    hide SweptFrom, CountOld, Old;
    var r := Swept(es, timestamp);
    SweepRemovesOne(es, |es|, timestamp);
    CountNone(r, timestamp);
    CountNone(es, timestamp);
    assert (forall e | e in r :: !Old(e, timestamp)) <==> (forall j | 0 <= j < |r| :: !Old(r[j], timestamp));
    if |r| < |es| {
      var i :| 0 <= i < |es| && r == Without(es, i) && Old(es[i], timestamp);
      CountWithout(es, i, timestamp);
    }
  }

  lemma CountWithout(es: seq<Element>, i: nat, timestamp: Timestamp)
    requires i < |es| && Old(es[i], timestamp)
    ensures CountOld(es, timestamp) == CountOld(Without(es, i), timestamp) + 1
  {
    hide CountOld, Old;
    CountAppend(es[..i], es[i + 1..], timestamp);
    CountAppend(es[..i], [es[i]], timestamp);
    CountAppend(es[..i] + [es[i]], es[i + 1..], timestamp);
    assert es[..i] + [es[i]] + es[i + 1..] == es;
    CountOne(es[i], timestamp);
  }

  lemma CountOne(e: Element, timestamp: Timestamp)
    ensures CountOld([e], timestamp) == if Old(e, timestamp) then 1 else 0
  {
  }

  lemma WrapAdd(sum: nat, size: U32)
    ensures AsU32(AsU32(sum) + size) == AsU32(sum + size)
    ensures AsU32(sum) == sum ==> (AsU32(sum + size) == sum + size <==> sum + size < TWO_32)
  {
  }

  lemma WrapSubtract(sum: nat, size: U32)
    requires size <= sum
    ensures AsU32(AsU32(sum) - size) == AsU32(sum - size)
    ensures AsU32(sum) == sum ==> AsU32(sum - size) == sum - size
  {
  }

  lemma AddPaired(byHash: map<TxHash, Pending>, es: seq<Element>, tx: SizedTransaction, gateway: nat, id: nat)
    requires Paired(byHash, es) && IdsDistinct(es, id) && HashOf(tx.signed) !in byHash
    ensures Paired(byHash[HashOf(tx.signed) := Pending(tx, gateway, id)], [Element(id, tx)] + es)
    ensures IdsDistinct([Element(id, tx)] + es, id + 1)
  {
    hide Listed, Files;
    var m, all := byHash[HashOf(tx.signed) := Pending(tx, gateway, id)], [Element(id, tx)] + es;
    forall i | 0 <= i < |all|
      ensures Files(m, all[i])
    {
      if i == 0 {
        FilesNew(byHash, tx, gateway, id);
      } else {
        FilesOther(byHash, es[i - 1], HashOf(tx.signed), Pending(tx, gateway, id));
      }
    }
    forall h | h in m
      ensures Listed(all, h)
    {
      ListedMore(Element(id, tx), es, h);
    }
  }

  lemma FilesNew(byHash: map<TxHash, Pending>, tx: SizedTransaction, gateway: nat, id: nat)
    ensures Files(byHash[HashOf(tx.signed) := Pending(tx, gateway, id)], Element(id, tx))
  {
  }

  lemma FilesOther(byHash: map<TxHash, Pending>, e: Element, h: TxHash, p: Pending)
    requires Files(byHash, e) && h !in byHash
    ensures Files(byHash[h := p], e)
  {
  }

  lemma ListedMore(e: Element, es: seq<Element>, h: TxHash)
    requires Key(e) == h || Listed(es, h)
    ensures Listed([e] + es, h)
  {
    if Key(e) == h {
      assert Key(([e] + es)[0]) == h;
    } else {
      var i :| 0 <= i < |es| && Key(es[i]) == h;
      assert Key(([e] + es)[i + 1]) == h;
    }
  }

  lemma RemovePaired(byHash: map<TxHash, Pending>, es: seq<Element>, bound: nat, i: nat)
    requires Paired(byHash, es) && IdsDistinct(es, bound) && i < |es|
    ensures Paired(byHash - {Key(es[i])}, Without(es, i)) && IdsDistinct(Without(es, i), bound)
  {
    hide Listed, Files, Key;
    var m, left := byHash - {Key(es[i])}, Without(es, i);
    forall j | 0 <= j < |left|
      ensures Files(m, left[j])
    {
      var k := if j < i then j else j + 1;
      assert left[j] == es[k];
      KeysDistinct(byHash, es, bound, k, i);
      FilesLeft(byHash, es[k], Key(es[i]));
    }
    forall h | h in m
      ensures Listed(left, h)
    {
      ListedLeft(es, i, h);
    }
  }

  lemma FilesLeft(byHash: map<TxHash, Pending>, e: Element, h: TxHash)
    requires Files(byHash, e) && Key(e) != h
    ensures Files(byHash - {h}, e)
  {
  }

  lemma ListedLeft(es: seq<Element>, i: nat, h: TxHash)
    requires i < |es| && Listed(es, h) && Key(es[i]) != h
    ensures Listed(Without(es, i), h)
  {
    var k :| 0 <= k < |es| && Key(es[k]) == h;
    assert Key(Without(es, i)[if k < i then k else k - 1]) == h;
  }

  /** The list element that an entry of the map refers to. */
  method Position(byHash: map<TxHash, Pending>, es: seq<Element>, ghost bound: nat, txHash: TxHash) returns (i: nat)
    requires Paired(byHash, es) && IdsDistinct(es, bound) && txHash in byHash
    ensures i < |es| && es[i].id == byHash[txHash].listElement && Key(es[i]) == txHash && es[i].tx == byHash[txHash].tx
  {
    assert Listed(es, txHash);
    ghost var at :| 0 <= at < |es| && Key(es[at]) == txHash;
    assert Files(byHash, es[at]);
    i := 0;
    while es[i].id != byHash[txHash].listElement
      invariant 0 <= i <= at
      decreases at - i
    {
      i := i + 1;
    }
  }

  // ----- the counter -----

  lemma NothingToSum()
    ensures Sum([]) == 0
  {
  }

  /** A pool of ten bytes that takes five and then 2^32 - 1 more: the sum wraps to four and passes the limit. */
  method CounterWraps() returns (pool: PendingTxPool, status: Status)
    ensures pool.Valid() && status == Accepted && pool.pendingPoolSizeInBytes == 10
    ensures pool.currentSizeInBytes == 4 && Sum(pool.transactionList) == TWO_32 + 4 && !pool.WithinLimit()
  {
    var a := SizedTransaction(SignedTransaction(Transaction(1, 0, 1, true, 32, []), []), 5);
    var b := SizedTransaction(SignedTransaction(Transaction(1, 0, 2, true, 32, []), []), TWO_32 - 1);
    hide Sum, Paired, IdsDistinct;
    pool := new PendingTxPool(10);
    status := pool.Add(a, 0);
    ghost var first := pool.transactionList[0];
    SumCons(first, []);
    NothingToSum();
    status := pool.Add(b, 0);
    SumCons(pool.transactionList[0], [first]);
  }

  /** A pool with two transactions older than the time of the sweep: the newer one stays. */
  method SweepLeavesExpired() returns (pool: PendingTxPool, timestamp: Timestamp)
    ensures pool.Valid() && pool.Exact() && pool.WithinLimit()
    ensures |pool.transactionList| == 1 && Old(pool.transactionList[0], timestamp)
  {
    var a := SizedTransaction(SignedTransaction(Transaction(1, 0, 1, true, 32, []), []), 5);
    var b := SizedTransaction(SignedTransaction(Transaction(1, 0, 2, true, 32, []), []), 5);
    hide Sum, Paired, IdsDistinct, AsU32, OldestExpiredGone, SweptFrom, Without, Old;
    pool := new PendingTxPool(10);
    var status := pool.Add(a, 0);
    ghost var first := pool.transactionList[0];
    SumCons(first, []);
    NothingToSum();
    status := pool.Add(b, 0);
    timestamp := 5;
    ghost var es := pool.transactionList;
    SumCons(es[0], [first]);
    TwoSwept(es[0], first, timestamp);
    assert es == [es[0], first];
    pool.ClearTransactionsOlderThan(timestamp);
  }

  lemma TwoSwept(newer: Element, older: Element, timestamp: Timestamp)
    ensures older.tx.signed.transaction.timestamp < timestamp ==> Swept([newer, older], timestamp) == [newer]
    ensures newer.tx.signed.transaction.timestamp < timestamp ==> Old(newer, timestamp)
  {
    assert Without([newer, older], 1) == [newer];
  }
}
