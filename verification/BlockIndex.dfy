/** The index over the blocks file, as a fold of the blocks appended to it, what it says about a chain
    of consecutive heights, and the search for a transaction through it.
 */
module BlockIndex {
  import opened Basics
  import opened Digests
  import opened Codec
  import opened BlockFile

  datatype Index = Index(
    heightOffset: map<nat, nat>, firstBlockInTsBucket: map<U32, nat>, topBlock: Option<Block>, topBlockHeight: nat)

  function NewIndex(firstBlockOffset: nat): Index { Index(map[1 := firstBlockOffset], map[], None, 0) }

  function Bucketed(r: Reading, buckets: map<U32, nat>, b: Block): map<U32, nat>
  {
    var key := BucketKey(TimeOf(r, b));
    if ReceiptCount(r, b) > 0 && key !in buckets then buckets[key := HeightOf(r, b)] else buckets
  }

  function Appended(r: Reading, ix: Index, newTopOffset: nat, b: Block): Index
  {
    Index(ix.heightOffset[HeightOf(r, b) + 1 := newTopOffset], Bucketed(r, ix.firstBlockInTsBucket, b), Some(b), HeightOf(r, b))
  }

  /** The index of blocks found one after another from the first offset on. */
  function IndexOf(r: Reading, first: nat, bs: seq<Sized>): Index
  {
    if bs == [] then NewIndex(first)
    else Appended(r, IndexOf(r, first, bs[..|bs| - 1]), first + Total(bs), bs[|bs| - 1].block)
  }

  lemma {:induction false} IndexTop(r: Reading, first: nat, bs: seq<Sized>)
    ensures var ix := IndexOf(r, first, bs);
            ix.topBlockHeight + 1 in ix.heightOffset && ix.heightOffset[ix.topBlockHeight + 1] == first + Total(bs)
  {
  }

  // ----- a chain of consecutive heights -----

  ghost predicate Consecutive(r: Reading, bs: seq<Block>)
  {
    forall i | 0 <= i < |bs| :: HeightOf(r, bs[i]) == i + 1
  }

  /** The offset of every height is where its block starts, the next one is where the file ends. */
  ghost predicate OffsetsRight(f: Format, first: nat, bs: seq<Block>, offsets: map<nat, nat>)
  {
    && (forall h :: h in offsets <==> 1 <= h <= |bs| + 1)
    && forall h | 1 <= h <= |bs| + 1 :: offsets[h] == first + |Encodings(f, bs[..h - 1])|
  }

  predicate InBucket(r: Reading, b: Block, key: U32) { ReceiptCount(r, b) > 0 && BucketKey(TimeOf(r, b)) == key }

  /** The block at height h is the first with receipts in the minute. */
  ghost predicate FirstInMinute(r: Reading, bs: seq<Block>, key: U32, h: nat)
  {
    && 1 <= h <= |bs| && InBucket(r, bs[h - 1], key)
    && forall i | 0 <= i < h - 1 :: !InBucket(r, bs[i], key)
  }

  /** A minute is listed exactly if some block of it has receipts, with the first such block. */
  ghost predicate BucketsRight(r: Reading, bs: seq<Block>, buckets: map<U32, nat>)
  {
    && (forall key | key in buckets :: FirstInMinute(r, bs, key, buckets[key]))
    && forall i | 0 <= i < |bs| :: ReceiptCount(r, bs[i]) > 0 ==> BucketKey(TimeOf(r, bs[i])) in buckets
  }

  ghost predicate Indexes(r: Reading, first: nat, bs: seq<Block>, ix: Index)
  {
    && OffsetsRight(r.format, first, bs, ix.heightOffset)
    && BucketsRight(r, bs, ix.firstBlockInTsBucket)
    && ix.topBlockHeight == |bs|
    && ix.topBlock == (if bs == [] then None else Some(bs[|bs| - 1]))
  }

  lemma OffsetsGrow(f: Format, first: nat, bs: seq<Block>, b: Block, offsets: map<nat, nat>)
    requires OffsetsRight(f, first, bs, offsets)
    ensures OffsetsRight(f, first, bs + [b], offsets[|bs| + 2 := first + |Encodings(f, bs + [b])|])
  {
    hide Encodings;
    var next := offsets[|bs| + 2 := first + |Encodings(f, bs + [b])|];
    forall h | 1 <= h <= |bs| + 2
      ensures next[h] == first + |Encodings(f, (bs + [b])[..h - 1])|
    {
      if h <= |bs| + 1 {
        assert (bs + [b])[..h - 1] == bs[..h - 1];
      } else {
        assert (bs + [b])[..h - 1] == bs + [b];
      }
    }
  }

  lemma BucketsGrow(r: Reading, bs: seq<Block>, b: Block, buckets: map<U32, nat>)
    requires BucketsRight(r, bs, buckets) && HeightOf(r, b) == |bs| + 1
    ensures BucketsRight(r, bs + [b], Bucketed(r, buckets, b))
  {
    hide BucketKey, FirstInMinute;
    var next, all := Bucketed(r, buckets, b), bs + [b];
    forall key | key in next
      ensures FirstInMinute(r, all, key, next[key])
    {
      if key in buckets {
        FirstStays(r, bs, b, key, buckets[key]);
      } else {
        FirstIsNew(r, bs, b, key);
      }
    }
  }

  lemma FirstStays(r: Reading, bs: seq<Block>, b: Block, key: U32, h: nat)
    requires FirstInMinute(r, bs, key, h)
    ensures FirstInMinute(r, bs + [b], key, h)
  {
    hide InBucket;
    assert forall i | 0 <= i < |bs| :: (bs + [b])[i] == bs[i];
  }

  lemma FirstIsNew(r: Reading, bs: seq<Block>, b: Block, key: U32)
    requires InBucket(r, b, key) && forall i | 0 <= i < |bs| :: !InBucket(r, bs[i], key)
    ensures FirstInMinute(r, bs + [b], key, |bs| + 1)
  {
    hide InBucket;
    assert forall i | 0 <= i < |bs| :: (bs + [b])[i] == bs[i];
  }

  lemma IndexGrows(r: Reading, first: nat, bs: seq<Block>, b: Block, ix: Index)
    requires Indexes(r, first, bs, ix) && HeightOf(r, b) == |bs| + 1
    ensures Indexes(r, first, bs + [b], Appended(r, ix, first + |Encodings(r.format, bs + [b])|, b))
  {
    hide OffsetsRight, BucketsRight, Bucketed, Encodings;
    OffsetsGrow(r.format, first, bs, b, ix.heightOffset);
    BucketsGrow(r, bs, b, ix.firstBlockInTsBucket);
  }

  lemma IndexOfSnoc(r: Reading, first: nat, bs: seq<Block>, b: Block)
    ensures IndexOf(r, first, SizedAll(r.format, bs + [b])) ==
            Appended(r, IndexOf(r, first, SizedAll(r.format, bs)), first + |Encodings(r.format, bs + [b])|, b)
  {
    hide Appended, Encodings, Encoding, Total;
    assert SizedAll(r.format, bs + [b])[..|bs|] == SizedAll(r.format, bs);
    TotalIsLength(r.format, bs + [b]);
  }

  /** The index of a chain of consecutive heights says where every block starts and which block is the
      first with receipts in each minute. */
  lemma {:induction false} IndexOfChain(r: Reading, first: nat, bs: seq<Block>)
    requires Consecutive(r, bs)
    ensures Indexes(r, first, bs, IndexOf(r, first, SizedAll(r.format, bs)))
  {
    hide IndexOf, Appended, Encodings, SizedAll, Indexes;
    if bs == [] {
      EmptyIndex(r, first);
    } else {
      var init, b := bs[..|bs| - 1], bs[|bs| - 1];
      IndexOfChain(r, first, init);
      IndexGrows(r, first, init, b, IndexOf(r, first, SizedAll(r.format, init)));
      assert init + [b] == bs;
      IndexOfSnoc(r, first, init, b);
    }
  }

  lemma EmptyIndex(r: Reading, first: nat)
    ensures Indexes(r, first, [], IndexOf(r, first, SizedAll(r.format, [])))
  {
    assert SizedAll(r.format, []) == [];
  }

  // ----- looking for a transaction -----

  datatype Found = Found(block: Block, txIndex: nat)

  /** The first receipt of the transaction, from position i on. */
  function Receipt(r: Reading, receipts: seq<Bytes>, hash: Bytes, i: nat): Option<nat>
    requires i <= |receipts|
    decreases |receipts| - i
  {
    if i == |receipts| then None
    else if r.txHash(receipts[i]) == hash then Some(i)
    else Receipt(r, receipts, hash, i + 1)
  }

  /** The plain search: the first block of the chain, in the range of times, with a receipt of the
      transaction. */
  function Search(r: Reading, bs: seq<Block>, hash: Bytes, min: U64, max: U64): Option<Found>
  {
    if bs == [] then None
    else
      var hit := Receipt(r, bs[0].receipts, hash, 0);
      if min <= TxTimeOf(r, bs[0]) <= max && hit.Some? then Some(Found(bs[0], hit.value))
      else Search(r, bs[1..], hash, min, max)
  }

  predicate InTime(r: Reading, b: Block, min: U64, max: U64) { min <= TxTimeOf(r, b) <= max }

  /** A receipt of the block is that of the transaction. */
  ghost predicate HasReceipt(r: Reading, b: Block, hash: Bytes)
  {
    exists i :: 0 <= i < |b.receipts| && r.txHash(b.receipts[i]) == hash
  }

  /** The block at position j is the first in the range of times with a receipt of the transaction, and k is
      the place of the first such receipt. */
  ghost predicate FirstAt(r: Reading, bs: seq<Block>, hash: Bytes, min: U64, max: U64, j: nat, k: nat)
  {
    && j < |bs| && InTime(r, bs[j], min, max)
    && k < |bs[j].receipts| && r.txHash(bs[j].receipts[k]) == hash
    && (forall i | 0 <= i < k :: r.txHash(bs[j].receipts[i]) != hash)
    && forall i | 0 <= i < j && InTime(r, bs[i], min, max) :: !HasReceipt(r, bs[i], hash)
  }

  /** What an answer to the question for a transaction must be. */
  ghost predicate Answers(r: Reading, bs: seq<Block>, hash: Bytes, min: U64, max: U64, found: Option<Found>)
  {
    match found
    case None => forall i | 0 <= i < |bs| && InTime(r, bs[i], min, max) :: !HasReceipt(r, bs[i], hash)
    case Some(f) => exists j: nat :: FirstAt(r, bs, hash, min, max, j, f.txIndex) && bs[j] == f.block
  }

  lemma {:induction false} ReceiptExact(r: Reading, receipts: seq<Bytes>, hash: Bytes, i: nat)
    requires i <= |receipts|
    ensures match Receipt(r, receipts, hash, i)
            case None => forall j | i <= j < |receipts| :: r.txHash(receipts[j]) != hash
            case Some(k) => i <= k < |receipts| && r.txHash(receipts[k]) == hash && forall j | i <= j < k :: r.txHash(receipts[j]) != hash
    decreases |receipts| - i
  {
    if i < |receipts| && r.txHash(receipts[i]) != hash { ReceiptExact(r, receipts, hash, i + 1); }
  }

  /** The plain search answers the question. */
  lemma {:induction false} SearchAnswers(r: Reading, bs: seq<Block>, hash: Bytes, min: U64, max: U64)
    ensures Answers(r, bs, hash, min, max, Search(r, bs, hash, min, max))
  {
    hide Receipt, HasReceipt;
    if bs != [] {
      FirstBlock(r, bs[0], hash);
      var hit := Receipt(r, bs[0].receipts, hash, 0);
      if InTime(r, bs[0], min, max) && hit.Some? {
        assert FirstAt(r, bs, hash, min, max, 0, hit.value);
      } else {
        SearchAnswers(r, bs[1..], hash, min, max);
        AnswersLater(r, bs, hash, min, max, Search(r, bs[1..], hash, min, max));
      }
    }
  }

  lemma FirstBlock(r: Reading, b: Block, hash: Bytes)
    ensures match Receipt(r, b.receipts, hash, 0)
            case None => !HasReceipt(r, b, hash)
            case Some(k) => k < |b.receipts| && r.txHash(b.receipts[k]) == hash && forall i | 0 <= i < k :: r.txHash(b.receipts[i]) != hash
  {
    ReceiptExact(r, b.receipts, hash, 0);
  }

  lemma AnswersLater(r: Reading, bs: seq<Block>, hash: Bytes, min: U64, max: U64, found: Option<Found>)
    requires bs != [] && (InTime(r, bs[0], min, max) ==> !HasReceipt(r, bs[0], hash))
    requires Answers(r, bs[1..], hash, min, max, found)
    ensures Answers(r, bs, hash, min, max, found)
  {
    hide HasReceipt, InTime;
    if found.Some? {
      var j: nat :| FirstAt(r, bs[1..], hash, min, max, j, found.value.txIndex) && bs[1..][j] == found.value.block;
      forall i | 0 <= i < j + 1 && InTime(r, bs[i], min, max) ensures !HasReceipt(r, bs[i], hash) {
        if i > 0 { assert bs[i] == bs[1..][i - 1]; }
      }
      assert FirstAt(r, bs, hash, min, max, j + 1, found.value.txIndex);
    } else {
      forall i | 0 <= i < |bs| && InTime(r, bs[i], min, max) ensures !HasReceipt(r, bs[i], hash) {
        if i > 0 { assert bs[i] == bs[1..][i - 1]; }
      }
    }
  }

  /** The scan of the blocks file: it passes over blocks before the range and stops at one after it. */
  function ScanFor(r: Reading, bs: seq<Block>, hash: Bytes, min: U64, max: U64): Option<Found>
  {
    if bs == [] || TimeOf(r, bs[0]) > max then None
    else if TimeOf(r, bs[0]) < min then ScanFor(r, bs[1..], hash, min, max)
    else
      var hit := Receipt(r, bs[0].receipts, hash, 0);
      if hit.Some? then Some(Found(bs[0], hit.value)) else ScanFor(r, bs[1..], hash, min, max)
  }

  /** The first listed minute from lo to hi. */
  function EarliestInBuckets(buckets: map<U32, nat>, lo: nat, hi: nat): Option<nat>
    requires hi < 0x1_0000_0000
    decreases hi + 1 - lo
  {
    if lo > hi then None
    else if lo in buckets then Some(buckets[lo])
    else EarliestInBuckets(buckets, lo + 1, hi)
  }

  function SearchByIndex(r: Reading, bs: seq<Block>, buckets: map<U32, nat>, hash: Bytes, min: U64, max: U64): Option<Found>
  {
    match EarliestInBuckets(buckets, BucketKey(min), BucketKey(max))
    case None => None
    case Some(h) => if 1 <= h <= |bs| then ScanFor(r, bs[h - 1..], hash, min, max) else None
  }

  /** Times never go back along the chain and both headers of a block carry the same. */
  ghost predicate Timely(r: Reading, bs: seq<Block>)
  {
    && (forall i | 0 <= i < |bs| :: TxTimeOf(r, bs[i]) == TimeOf(r, bs[i]))
    && forall i, j | 0 <= i < j < |bs| :: TimeOf(r, bs[i]) <= TimeOf(r, bs[j])
  }

  ghost predicate CountsRight(r: Reading, bs: seq<Block>)
  {
    forall i | 0 <= i < |bs| :: CountsMatch(r.format, bs[i])
  }

  lemma {:induction false} NothingAfter(r: Reading, bs: seq<Block>, hash: Bytes, min: U64, max: U64)
    requires Timely(r, bs) && (bs != [] ==> TimeOf(r, bs[0]) > max)
    ensures Search(r, bs, hash, min, max) == None
  {
    if bs != [] { NothingAfter(r, bs[1..], hash, min, max); }
  }

  lemma {:induction false} ScanFinds(r: Reading, bs: seq<Block>, hash: Bytes, min: U64, max: U64)
    requires Timely(r, bs)
    ensures ScanFor(r, bs, hash, min, max) == Search(r, bs, hash, min, max)
  {
    if bs != [] {
      if TimeOf(r, bs[0]) > max {
        NothingAfter(r, bs, hash, min, max);
      } else {
        ScanFinds(r, bs[1..], hash, min, max);
      }
    }
  }

  /** Blocks without the transaction in the range may be passed over. */
  lemma {:induction false} SkipToStart(r: Reading, bs: seq<Block>, k: nat, hash: Bytes, min: U64, max: U64)
    requires k <= |bs|
    requires forall i | 0 <= i < k ::
               !(min <= TxTimeOf(r, bs[i]) <= max) || Receipt(r, bs[i].receipts, hash, 0).None?
    ensures Search(r, bs, hash, min, max) == Search(r, bs[k..], hash, min, max)
  {
    if k > 0 {
      SkipToStart(r, bs[1..], k - 1, hash, min, max);
      assert bs[1..][k - 1..] == bs[k..];
    } else {
      assert bs[0..] == bs;
    }
  }

  lemma {:induction false} Earliest(buckets: map<U32, nat>, lo: nat, hi: nat)
    requires hi < 0x1_0000_0000
    ensures match EarliestInBuckets(buckets, lo, hi)
            case None => forall key | lo <= key <= hi :: key !in buckets
            case Some(h) => exists key: nat | lo <= key <= hi ::
                && key in buckets && buckets[key] == h
                && forall k | lo <= k < key :: k !in buckets
    decreases hi + 1 - lo
  {
    if lo <= hi && lo !in buckets { Earliest(buckets, lo + 1, hi); }
  }

  lemma BucketOrder(a: U64, b: U64)
    requires a <= b
    ensures BucketKey(a) <= BucketKey(b)
  {
  }

  /** A block in the range with receipts has its minute in the range of minutes, and listed. */
  lemma Listed(r: Reading, bs: seq<Block>, buckets: map<U32, nat>, i: nat, min: U64, max: U64)
    requires BucketsRight(r, bs, buckets) && i < |bs| && min <= TimeOf(r, bs[i]) <= max && ReceiptCount(r, bs[i]) > 0
    ensures var key := BucketKey(TimeOf(r, bs[i]));
            BucketKey(min) <= key <= BucketKey(max) && key in buckets && buckets[key] - 1 <= i
  {
    hide BucketKey;
    BucketOrder(min, TimeOf(r, bs[i]));
    BucketOrder(TimeOf(r, bs[i]), max);
    assert InBucket(r, bs[i], BucketKey(TimeOf(r, bs[i])));
  }

  lemma NoReceiptNoHit(r: Reading, b: Block, hash: Bytes)
    requires CountsMatch(r.format, b) && ReceiptCount(r, b) == 0
    ensures Receipt(r, b.receipts, hash, 0) == None
  {
  }

  /** The search through the minutes, followed by a bounded scan, finds what the plain search finds. */
  lemma {:induction false} SearchByIndexFinds(
    r: Reading, bs: seq<Block>, buckets: map<U32, nat>, hash: Bytes, min: U64, max: U64)
    requires BucketsRight(r, bs, buckets) && Timely(r, bs) && CountsRight(r, bs)
    ensures SearchByIndex(r, bs, buckets, hash, min, max) == Search(r, bs, hash, min, max)
  {
    hide BucketKey, Receipt, EarliestInBuckets, CountsMatch, BucketsRight, Timely;
    Earliest(buckets, BucketKey(min), BucketKey(max));
    var first := EarliestInBuckets(buckets, BucketKey(min), BucketKey(max));
    var k := if first.Some? then first.value - 1 else |bs|;
    if first.Some? { FirstIsEarliest(r, bs, buckets, min, max); }
    forall i | 0 <= i < k
      ensures !(min <= TxTimeOf(r, bs[i]) <= max) || Receipt(r, bs[i].receipts, hash, 0).None?
    {
      TimelyAt(r, bs, i);
      if min <= TimeOf(r, bs[i]) <= max {
        if ReceiptCount(r, bs[i]) == 0 {
          NoReceiptNoHit(r, bs[i], hash);
        } else {
          Listed(r, bs, buckets, i, min, max);
          if first.Some? { NothingListedBefore(r, bs, buckets, i, min, max); }
        }
      }
    }
    SkipToStart(r, bs, k, hash, min, max);
    TimelySuffix(r, bs, k);
    ScanFinds(r, bs[k..], hash, min, max);
  }

  lemma TimelyAt(r: Reading, bs: seq<Block>, i: nat)
    requires Timely(r, bs) && i < |bs|
    ensures TxTimeOf(r, bs[i]) == TimeOf(r, bs[i])
  {
  }

  lemma TimelySuffix(r: Reading, bs: seq<Block>, k: nat)
    requires Timely(r, bs) && k <= |bs|
    ensures Timely(r, bs[k..])
  {
  }

  lemma FirstIsEarliest(r: Reading, bs: seq<Block>, buckets: map<U32, nat>, min: U64, max: U64)
    requires BucketsRight(r, bs, buckets)
    requires EarliestInBuckets(buckets, BucketKey(min), BucketKey(max)).Some?
    ensures 1 <= EarliestInBuckets(buckets, BucketKey(min), BucketKey(max)).value <= |bs|
  {
    hide BucketKey, EarliestInBuckets;
    Earliest(buckets, BucketKey(min), BucketKey(max));
  }

  /** No block with receipts before the one found is in the range: its minute would be earlier. */
  lemma NothingListedBefore(r: Reading, bs: seq<Block>, buckets: map<U32, nat>, i: nat, min: U64, max: U64)
    requires BucketsRight(r, bs, buckets) && Timely(r, bs)
    requires EarliestInBuckets(buckets, BucketKey(min), BucketKey(max)).Some?
    requires i < |bs| && min <= TimeOf(r, bs[i]) <= max && ReceiptCount(r, bs[i]) > 0
    ensures EarliestInBuckets(buckets, BucketKey(min), BucketKey(max)).value - 1 <= i
  {
    hide BucketKey, EarliestInBuckets;
    Earliest(buckets, BucketKey(min), BucketKey(max));
    Listed(r, bs, buckets, i, min, max);
    var h := EarliestInBuckets(buckets, BucketKey(min), BucketKey(max)).value;
    var key: nat :| BucketKey(min) <= key <= BucketKey(max) && key in buckets && buckets[key] == h
                    && forall k | BucketKey(min) <= k < key :: k !in buckets;
    assert key <= BucketKey(TimeOf(r, bs[i]));
    assert InBucket(r, bs[h - 1], key);
    EarlierMinute(r, bs, i, h - 1);
  }

  lemma EarlierMinute(r: Reading, bs: seq<Block>, i: nat, j: nat)
    requires Timely(r, bs) && i < |bs| && j < |bs|
    ensures i < j && ReceiptCount(r, bs[i]) > 0 && BucketKey(TimeOf(r, bs[j])) <= BucketKey(TimeOf(r, bs[i])) ==>
              InBucket(r, bs[i], BucketKey(TimeOf(r, bs[j])))
  {
    hide BucketKey;
    if i < j { BucketOrder(TimeOf(r, bs[i]), TimeOf(r, bs[j])); }
  }
}
