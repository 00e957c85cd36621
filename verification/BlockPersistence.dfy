/** The store of blocks on disk, its index, and the store in memory that serves as its reference.
 */
module BlockPersistence {
  import opened Basics
  import opened Digests
  import opened Codec
  import opened BlockFile
  import opened BlockIndex
  import opened BlockScan
  import Streams = CodecStreams

  // ----- the index -----

  class BlockHeightIndex {
    var heightOffset: map<nat, nat>
    var firstBlockInTsBucket: map<U32, nat>
    var topBlock: Option<Block>
    var topBlockHeight: nat

    ghost function Value(): Index
      reads this
    {
      Index(heightOffset, firstBlockInTsBucket, topBlock, topBlockHeight)
    }

    constructor (firstBlockOffset: nat)
      ensures Value() == NewIndex(firstBlockOffset)
    {
      heightOffset := map[1 := firstBlockOffset];
      firstBlockInTsBucket := map[];
      topBlock := None;
      topBlockHeight := 0;
    }

    method AppendBlock(r: Reading, prevTopOffset: nat, newTopOffset: nat, b: Block) returns (ok: bool)
      modifies this
      ensures ok <==> old(topBlockHeight + 1 in heightOffset && heightOffset[topBlockHeight + 1] == prevTopOffset)
      ensures Value() == if ok then Appended(r, old(Value()), newTopOffset, b) else old(Value())
    {
      if topBlockHeight + 1 !in heightOffset { return false; }
      if heightOffset[topBlockHeight + 1] != prevTopOffset { return false; }
      topBlock := Some(b);
      topBlockHeight := HeightOf(r, b);
      heightOffset := heightOffset[HeightOf(r, b) + 1 := newTopOffset];
      if ReceiptCount(r, b) > 0 {
        var key := BucketKey(TimeOf(r, b));
        if key !in firstBlockInTsBucket {
          firstBlockInTsBucket := firstBlockInTsBucket[key := HeightOf(r, b)];
        }
      }
      ok := true;
    }

    /** The loop over the minutes of a range ends: the last minute is below the largest 32-bit number. */
    method GetEarliestTxBlockInBucketForTsRange(rangeStart: U64, rangeEnd: U64) returns (h: Option<nat>)
      ensures h == EarliestInBuckets(firstBlockInTsBucket, BucketKey(rangeStart), BucketKey(rangeEnd))
    {
      hide BucketKey;
      var b: U32, toBucket := BucketKey(rangeStart), BucketKey(rangeEnd);
      while b <= toBucket
        invariant EarliestInBuckets(firstBlockInTsBucket, b, toBucket) ==
                  EarliestInBuckets(firstBlockInTsBucket, BucketKey(rangeStart), toBucket)
        decreases toBucket + 1 - b
      {
        if b in firstBlockInTsBucket { return Some(firstBlockInTsBucket[b]); }
        b := b + 1;
      }
      return None;
    }
  }

  lemma TotalSnoc(bs: seq<Sized>, b: Sized)
    ensures Total(bs + [b]) == Total(bs) + b.size
  {
    assert (bs + [b])[..|bs|] == bs;
  }

  lemma IndexSnoc(r: Reading, first: nat, bs: seq<Sized>, b: Sized)
    ensures IndexOf(r, first, bs + [b]) == Appended(r, IndexOf(r, first, bs), first + Total(bs) + b.size, b.block)
  {
    hide Appended;
    assert (bs + [b])[..|bs|] == bs;
    TotalSnoc(bs, b);
  }

  /** The index of a file is the index of the blocks that decode one after another; appending never
      fails on the way. */
  method BuildIndex(r: Reading, src: Streams.Source, firstBlockOffset: nat) returns (ix: BlockHeightIndex)
    modifies src
    ensures fresh(ix)
    ensures ix.Value() == IndexOf(r, firstBlockOffset, DecodeAll(r.format, old(src.rest)))
    ensures forall i | 0 <= i < |DecodeAll(r.format, old(src.rest))| ::
              CheckedAt(r.format, old(src.rest), DecodeAll(r.format, old(src.rest)), i)
  {
    hide Decode, IndexOf, Appended, DecodeAll, EndsClean, Total, CheckedAt;
    AllChecked(r.format, src.rest);
    ghost var whole := DecodeAll(r.format, src.rest);
    ghost var bs: seq<Sized> := [];
    ix := new BlockHeightIndex(firstBlockOffset);
    IndexEmpty(r, firstBlockOffset);
    var offset := firstBlockOffset;
    while true
      invariant fresh(ix) && ix.Value() == IndexOf(r, firstBlockOffset, bs)
      invariant offset == firstBlockOffset + Total(bs)
      invariant whole == bs + DecodeAll(r.format, src.rest)
      decreases |src.rest|
    {
      DecodeAllStep(r.format, src.rest);
      var d := Streams.Decode(r.format, src);
      if !d.Got? {
        assert whole == bs + [] == bs;
        break;
      }
      IndexTop(r, firstBlockOffset, bs);
      var ok := ix.AppendBlock(r, offset, offset + d.value.size, d.value.block);
      assert ok;
      IndexSnoc(r, firstBlockOffset, bs, d.value);
      TotalSnoc(bs, d.value);
      offset := offset + d.value.size;
      bs := bs + [d.value];
    }
  }

  /** No block with a wrong checksum is among those that decode. */
  lemma AllChecked(f: Format, s: Bytes)
    ensures forall i | 0 <= i < |DecodeAll(f, s)| :: CheckedAt(f, s, DecodeAll(f, s), i)
  {
    hide Decode, DecodeAll, CheckedAt, Records;
    var bs := DecodeAll(f, s);
    DecodeAllExact(f, s, bs);
    forall i | 0 <= i < |bs| ensures CheckedAt(f, s, bs, i) { RecordsChecked(f, s, bs, i); }
  }

  lemma IndexEmpty(r: Reading, first: nat)
    ensures IndexOf(r, first, []) == NewIndex(first) && Total([]) == 0
  {
  }

  // ----- scanning -----

  method ReadPage(f: Format, src: Streams.Source, pageSize: nat) returns (page: seq<Block>, eof: bool, failed: bool)
    modifies src
    ensures pageSize > 0 && !eof && !failed ==> |src.rest| < |old(src.rest)|
    ensures !(eof && failed) && |page| <= pageSize
    ensures var all, clean := Blocks(DecodeAll(f, old(src.rest))), EndsClean(f, old(src.rest));
            if failed then !clean && |all| < pageSize
            else if eof then clean && page == all && |page| < pageSize
            else |page| == pageSize && all == page + Blocks(DecodeAll(f, src.rest)) && EndsClean(f, src.rest) == clean
  {
    hide Decode, DecodeAll, EndsClean, Blocks;
    ghost var clean := EndsClean(f, src.rest);
    ghost var all := Blocks(DecodeAll(f, src.rest));
    page, eof, failed := [], false, false;
    while |page| < pageSize
      invariant |page| <= pageSize
      invariant |src.rest| <= |old(src.rest)| && (page != [] ==> |src.rest| < |old(src.rest)|)
      invariant EndsClean(f, src.rest) == clean && all == page + Blocks(DecodeAll(f, src.rest))
    {
      PageStep(f, src.rest, page, all);
      var d := Streams.Decode(f, src);
      if d.EndOfInput? { return page, true, false; }
      if d.Malformed? { return page, false, true; }
      page := page + [d.value.block];
    }
  }

  /** The loop of a scan, on whatever bytes the file holds. */
  method ScanSource(f: Format, src: Streams.Source, pageSize: nat, wants: seq<seq<Block>> -> bool)
    returns (pages: seq<seq<Block>>, failed: bool)
    requires pageSize > 0
    modifies src
    ensures Scanned(pages, failed) ==
            ScanRecords(Blocks(DecodeAll(f, old(src.rest))), EndsClean(f, old(src.rest)), pageSize, wants, [])
  {
    hide DecodeAll, EndsClean, Blocks;
    ghost var clean := EndsClean(f, src.rest);
    ghost var all := Blocks(DecodeAll(f, src.rest));
    pages, failed := [], false;
    var wantNext, eof := true, false;
    while wantNext && !eof
      invariant !eof ==> EndsClean(f, src.rest) == clean
      invariant !failed
      invariant ScanRecords(all, clean, pageSize, wants, []) ==
                if !wantNext || eof then Scanned(pages, false)
                else ScanRecords(Blocks(DecodeAll(f, src.rest)), clean, pageSize, wants, pages)
      decreases |src.rest| + if eof then 0 else 1
    {
      ghost var left := Blocks(DecodeAll(f, src.rest));
      var page;
      page, eof, failed := ReadPage(f, src, pageSize);
      if failed { return; }
      RecordsStep(left, clean, page, if eof then [] else Blocks(DecodeAll(f, src.rest)), pageSize, wants, pages);
      if |page| > 0 {
        pages := pages + [page];
        wantNext := wants(pages);
      }
      if eof { break; }
    }
  }

  // ----- the store on disk -----

  class FileBlockPersistence {
    const r: Reading
    const first: nat
    var data: Bytes
    var pos: nat
    const bhIndex: BlockHeightIndex
    ghost var chain: seq<Block>

    /** The blocks of the chain lie one after another up to the writing position, and the index says
        so. There may be other bytes after that position, left by an interrupted write. */
    ghost predicate Valid()
      reads this, bhIndex
    {
      && first <= pos <= |data|
      && data[first..pos] == Encodings(r.format, chain)
      && Consecutive(r, chain)
      && (forall i | 0 <= i < |chain| :: Encodable(r.format, chain[i]))
      && Indexes(r, first, chain, bhIndex.Value())
    }

    /** What lies behind the chain. */
    ghost function Tail(): Bytes
      requires pos <= |data|
      reads this
    {
      data[pos..]
    }

    /** The file ends before another block does, so that reading past the chain finds its end. */
    ghost predicate Readable()
      reads this
    {
      pos <= |data| && Decode(r.format, Tail()) == Truncated
    }

    /** Opening a file indexes the blocks that decode and continues behind them. A file that a run of
        writes left, cut at any byte after its header, opens with exactly the blocks complete before
        the cut, and is readable. */
    constructor (r: Reading, first: nat, data: Bytes)
      requires first <= |data|
      ensures fresh(bhIndex) && this.r == r && this.first == first && this.data == data
      ensures bhIndex.Value() == IndexOf(r, first, DecodeAll(r.format, data[first..]))
      ensures pos == first + Total(DecodeAll(r.format, data[first..]))
      ensures chain == Blocks(DecodeAll(r.format, data[first..]))
      ensures forall bs, cut: nat |
                Storable(r.format, bs) && Consecutive(r, bs) && cut <= |Encodings(r.format, bs)| &&
                data[first..] == Encodings(r.format, bs)[..cut] ::
                Valid() && Readable() && chain == bs[..Complete(r.format, bs, cut)]
    {
      hide Encodings, DecodeAll, IndexOf, Indexes, Total, Encodable, CountsMatch, Complete, Consecutive, Storable, Valid, Blocks, Decode;
      var src := new Streams.Source(data[first..]);
      var ix := BuildIndex(r, src, first);
      IndexTop(r, first, DecodeAll(r.format, data[first..]));
      this.r, this.first, this.data, this.bhIndex := r, first, data, ix;
      pos := ix.heightOffset[ix.topBlockHeight + 1];
      chain := Blocks(DecodeAll(r.format, data[first..]));
      new;
      forall bs, cut: nat |
        Storable(r.format, bs) && Consecutive(r, bs) && cut <= |Encodings(r.format, bs)| &&
        data[first..] == Encodings(r.format, bs)[..cut]
        ensures Valid() && Readable() && chain == bs[..Complete(r.format, bs, cut)]
      {
        Reopened(r, first, data, bs, cut);
        ValidWhen(bs[..Complete(r.format, bs, cut)]);
      }
    }

    /** Writing a block of another height changes nothing. A block over the size limit is an error that
        leaves its bytes in the file and the index as it was. Otherwise the chain has one more block, and
        the file keeps what was left of its tail beyond it: nothing truncates the file. */
    method WriteNextBlock(b: Block) returns (added: bool, top: nat, failed: bool)
      requires Valid()
      modifies this, bhIndex
      ensures added <==> HeightOf(r, b) == |old(chain)| + 1 && Encodable(r.format, b)
      ensures failed <==> HeightOf(r, b) == |old(chain)| + 1 && !Encodable(r.format, b)
      ensures added ==> Valid() && chain == old(chain) + [b]
      ensures added ==> Tail() == Leftover(old(Tail()), |Encoding(r.format, b)|)
      ensures added && |old(Tail())| <= |Encoding(r.format, b)| ==> Readable()
      ensures !added && !failed ==> Valid()
      ensures !added ==> chain == old(chain) && bhIndex.Value() == old(bhIndex.Value())
      ensures !added && !failed ==> data == old(data) && pos == old(pos)
      ensures failed ==>
                data == Overwritten(old(data), old(pos), Body(r.format, b)) && pos == old(pos) + |Body(r.format, b)|
      ensures top == |chain|
      ensures old(pos) <= |data| && data[..old(pos)] == old(data[..pos])
    {
      hide Encodings, Indexes, Appended, Encodable, Consecutive, Encoding, Body, Overwritten, Decode;
      IndexFacts(r, first, chain, bhIndex.Value());
      var bh, currentTop := HeightOf(r, b), bhIndex.topBlockHeight;
      if bh != currentTop + 1 { return false, currentTop, false; }
      var w := new Streams.Sink();
      var n, ok := Streams.Encode(r.format, b, w);
      OverwrittenFrom(data, first, pos, w.written);
      data := Overwritten(data, pos, w.written);
      pos := pos + |w.written|;
      if !ok {
        assert [] + Body(r.format, b) == Body(r.format, b);
        return false, currentTop, true;
      }
      var startPos := bhIndex.heightOffset[bh];
      var appended := bhIndex.AppendBlock(r, startPos, startPos + n, b);
      EncodingsSnoc(r.format, chain, b);
      IndexGrows(r, first, chain, b, old(bhIndex.Value()));
      DecodeNothing(r.format);
      ConsecutiveGrows(r, chain, b);
      assert [] + Encoding(r.format, b) == Encoding(r.format, b);
      chain := chain + [b];
      return true, bh, false;
    }

    /** Blocks from a known height on, in pages: the blocks of the chain, if their headers tell their list
        lengths, and then whatever the tail decodes to. */
    method ScanBlocks(from: nat, pageSize: nat, wants: seq<seq<Block>> -> bool)
      returns (pages: seq<seq<Block>>, failed: bool)
      requires Valid() && 0 < from && 0 < pageSize
      ensures from > |chain| ==> failed && pages == []
      ensures from <= |chain| && CountsRight(r, chain) ==>
                Scanned(pages, failed) ==
                ScanRecords(chain[from - 1..] + Blocks(DecodeAll(r.format, Tail())), EndsClean(r.format, Tail()), pageSize, wants, [])
      ensures from <= |chain| && CountsRight(r, chain) && Readable() ==>
                !failed && pages == Scan(chain[from - 1..], pageSize, wants, []) && ArePages(pages, chain[from - 1..], pageSize, wants)
    {
      hide ArePages;
      hide Encodings, Indexes, DecodeAll, EndsClean, Encodable, CountsMatch, Blocks, Scan, ScanRecords, Decode;
      IndexFacts(r, first, chain, bhIndex.Value());
      if bhIndex.topBlockHeight < from { return [], true; }
      OffsetInFile(r, first, chain, bhIndex.Value(), from);
      var initialOffset := bhIndex.heightOffset[from];
      var src := new Streams.Source(data[initialOffset..]);
      if CountsRight(r, chain) {
        SuffixDecodes(r.format, chain, from - 1, Tail());
        TailFollows(data, first, pos, Encodings(r.format, chain[..from - 1]), Encodings(r.format, chain[from - 1..]));
        UnfinishedTail(r.format, Tail());
        if Readable() {
          assert chain[from - 1..] + [] == chain[from - 1..];
          CleanScan(chain[from - 1..], pageSize, wants, []);
          ScanFromStart(chain[from - 1..], pageSize, wants);
        }
      }
      pages, failed := ScanSource(r.format, src, pageSize, wants);
    }

    /** The search for a transaction; on a readable file of a chain in time order it finds the first block in the
        range with a receipt of the transaction, if there is one. */
    method GetBlockByTx(hash: Bytes, min: U64, max: U64) returns (found: Option<Found>, failed: bool)
      requires Valid()
      ensures CountsRight(r, chain) ==>
                (found, failed) == FileSearch(r, chain, Blocks(DecodeAll(r.format, Tail())), EndsClean(r.format, Tail()),
                                              bhIndex.firstBlockInTsBucket, hash, min, max)
      ensures CountsRight(r, chain) && Timely(r, chain) && Readable() ==>
                !failed && found == Search(r, chain, hash, min, max) && Answers(r, chain, hash, min, max, found)
    {
      hide Answers, Encodings, Encodable, CountsMatch, Scan, ScanRecords, ScanFor, Search, OffsetsRight, BucketKey, Outcome, Timely,
        Consecutive, DecodeAll, EndsClean, Decode, Blocks, ArePages, CountsRight, BucketsRight, EarliestInBuckets;
      var scanFrom := bhIndex.GetEarliestTxBlockInBucketForTsRange(min, max);
      UnfinishedTail(r.format, Tail());
      SearchAnswers(r, chain, hash, min, max);
      if CountsRight(r, chain) && Timely(r, chain) {
        FileSearchFinds(r, chain, bhIndex.firstBlockInTsBucket, hash, min, max);
      }
      if scanFrom.None? { return None, false; }
      FirstIsEarliest(r, chain, bhIndex.firstBlockInTsBucket, min, max);
      var pages;
      pages, failed := ScanBlocks(scanFrom.value, 1, Cursor(r, hash, min, max));
      if failed { return None, true; }
      found := Outcome(r, pages, hash, min, max);
    }

    lemma ValidWhen(bs: seq<Block>)
      requires chain == bs && first <= pos <= |data|
      requires data[first..pos] == Encodings(r.format, bs) && Consecutive(r, bs) && Storable(r.format, bs)
      requires Indexes(r, first, bs, bhIndex.Value())
      ensures Valid()
    {
    }
  }

  lemma Reopened(r: Reading, first: nat, data: Bytes, bs: seq<Block>, cut: nat)
    requires first <= |data| && Storable(r.format, bs) && Consecutive(r, bs) && cut <= |Encodings(r.format, bs)|
    requires data[first..] == Encodings(r.format, bs)[..cut]
    ensures var all := DecodeAll(r.format, data[first..]);
            var done := bs[..Complete(r.format, bs, cut)];
            && Blocks(all) == done && Consecutive(r, done) && Storable(r.format, done)
            && first + Total(all) <= |data|
            && data[first..first + Total(all)] == Encodings(r.format, done)
            && Decode(r.format, data[first + Total(all)..]) == Truncated
            && Indexes(r, first, done, IndexOf(r, first, all))
  {
    hide Encodings, DecodeAll, Encodable, CountsMatch, Indexes, IndexOf, Encoding, Total, Complete, Decode;
    var k := Complete(r.format, bs, cut);
    var done := bs[..k];
    DecodeCut(r.format, bs, cut);
    CompleteExact(r.format, bs, cut);
    TotalIsLength(r.format, done);
    EncodingsSplit(r.format, bs, k);
    assert Consecutive(r, done);
    IndexOfChain(r, first, done);
    var n := |Encodings(r.format, done)|;
    CutLeavesUnfinished(r.format, bs, cut);
    assert data[first..first + n] == data[first..][..n] && data[first + n..] == data[first..][n..];
    assert Encodings(r.format, bs)[..cut][..n] == Encodings(r.format, bs)[..n] == Encodings(r.format, done);
    assert Blocks(SizedAll(r.format, done)) == done;
  }

  lemma IndexFacts(r: Reading, first: nat, bs: seq<Block>, ix: Index)
    requires Indexes(r, first, bs, ix)
    ensures ix.topBlockHeight == |bs| && |bs| + 1 in ix.heightOffset
    ensures ix.heightOffset[|bs| + 1] == first + |Encodings(r.format, bs)|
  {
    hide Encodings;
    assert bs[..|bs|] == bs;
  }

  lemma OffsetInFile(r: Reading, first: nat, bs: seq<Block>, ix: Index, h: nat)
    requires Indexes(r, first, bs, ix) && 1 <= h <= |bs|
    ensures h in ix.heightOffset && ix.heightOffset[h] == first + |Encodings(r.format, bs[..h - 1])|
    ensures |Encodings(r.format, bs[..h - 1])| <= |Encodings(r.format, bs)|
  {
    hide Encodings;
    EncodingsSplit(r.format, bs, h - 1);
  }

  lemma ConsecutiveGrows(r: Reading, bs: seq<Block>, b: Block)
    requires Consecutive(r, bs) && HeightOf(r, b) == |bs| + 1
    ensures Consecutive(r, bs + [b])
  {
  }

  lemma TailFollows(data: Bytes, first: nat, pos: nat, a: Bytes, b: Bytes)
    requires first <= pos <= |data| && data[first..pos] == a + b
    ensures data[first + |a|..] == b + data[pos..]
  {
    assert data[first..] == a + b + data[pos..];
    assert data[first + |a|..] == data[first..][|a|..];
  }

  // ----- the store in memory -----

  class InMemoryBlockPersistence {
    const r: Reading
    var blocks: seq<Block>

    constructor (r: Reading)
      ensures this.r == r && blocks == []
    {
      this.r, blocks := r, [];
    }

    method WriteNextBlock(b: Block) returns (added: bool, top: nat)
      modifies this
      ensures added <==> TxHeightOf(r, b) == |old(blocks)| + 1
      ensures blocks == if added then old(blocks) + [b] else old(blocks)
      ensures top == if added then HeightOf(r, b) else |blocks|
    {
      if |blocks| + 1 != TxHeightOf(r, b) { return false, |blocks|; }
      blocks := blocks + [b];
      return true, HeightOf(r, b);
    }

    method ScanBlocks(from: nat, pageSize: nat, wants: seq<seq<Block>> -> bool)
      returns (pages: seq<seq<Block>>, failed: bool)
      requires 0 < pageSize
      ensures failed <==> from == 0 || from > |blocks|
      ensures pages == if failed then [] else Scan(blocks[from - 1..], pageSize, wants, [])
      ensures !failed ==> ArePages(pages, blocks[from - 1..], pageSize, wants)
    {
      hide Scan, ArePages, FullPages;
      if |blocks| < from || from == 0 { return [], true; }
      ScanFromStart(blocks[from - 1..], pageSize, wants);
      var next, wantsMore := from, true;
      pages, failed := [], false;
      while next <= |blocks| && wantsMore
        invariant from <= next <= |blocks| + 1
        invariant Scan(blocks[from - 1..], pageSize, wants, []) ==
                  if wantsMore then Scan(blocks[next - 1..], pageSize, wants, pages) else pages
      {
        var fromIndex := next - 1;
        var toIndex := if fromIndex + pageSize > |blocks| then |blocks| else fromIndex + pageSize;
        var page := blocks[fromIndex..toIndex];
        PageSplits(blocks, fromIndex, toIndex);
        ScanStep(blocks[fromIndex..], page, blocks[toIndex..], pageSize, wants, pages);
        pages := pages + [page];
        wantsMore := wants(pages);
        next := toIndex + 1;
      }
      ScanNothing(pageSize, wants, pages);
      assert next > |blocks| ==> blocks[next - 1..] == [];
    }

    method GetBlockByTx(hash: Bytes, min: U64, max: U64) returns (found: Option<Found>)
      ensures found == Search(r, blocks, hash, min, max) && Answers(r, blocks, hash, min, max, found)
    {
      hide Answers, Search;
      SearchAnswers(r, blocks, hash, min, max);
      var candidates: seq<Block> := [];
      for i := 0 to |blocks|
        invariant candidates == Candidates(r, blocks[..i], min, max)
      {
        var bts := TxTimeOf(r, blocks[i]);
        assert blocks[..i + 1][..i] == blocks[..i];
        if max >= bts && min <= bts { candidates := candidates + [blocks[i]]; }
      }
      assert blocks[..|blocks|] == blocks;
      SearchCandidates(r, blocks, hash, min, max);
      for i := 0 to |candidates|
        invariant FirstHit(r, candidates, hash) == FirstHit(r, candidates[i..], hash)
      {
        var hit := FindReceipt(r, candidates[i].receipts, hash);
        if hit.Some? { return Some(Found(candidates[i], hit.value)); }
        assert candidates[i..][1..] == candidates[i + 1..];
      }
      return None;
    }
  }

  lemma PageSplits(bs: seq<Block>, i: nat, j: nat)
    requires i <= j <= |bs|
    ensures bs[i..] == bs[i..j] + bs[j..] && |bs[i..j]| == j - i && |bs[j..]| == |bs| - j
  {
  }

  method FindReceipt(r: Reading, receipts: seq<Bytes>, hash: Bytes) returns (hit: Option<nat>)
    ensures hit == Receipt(r, receipts, hash, 0)
  {
    for i := 0 to |receipts|
      invariant Receipt(r, receipts, hash, i) == Receipt(r, receipts, hash, 0)
    {
      if r.txHash(receipts[i]) == hash { return Some(i); }
    }
    return None;
  }

  function Candidates(r: Reading, bs: seq<Block>, min: U64, max: U64): seq<Block>
  {
    if bs == [] then []
    else
      var front, b := Candidates(r, bs[..|bs| - 1], min, max), bs[|bs| - 1];
      if min <= TxTimeOf(r, b) <= max then front + [b] else front
  }

  function FirstHit(r: Reading, bs: seq<Block>, hash: Bytes): Option<Found>
  {
    if bs == [] then None
    else
      var hit := Receipt(r, bs[0].receipts, hash, 0);
      if hit.Some? then Some(Found(bs[0], hit.value)) else FirstHit(r, bs[1..], hash)
  }

  lemma {:induction false} CandidatesCons(r: Reading, bs: seq<Block>, min: U64, max: U64)
    requires bs != []
    ensures Candidates(r, bs, min, max) ==
            (if min <= TxTimeOf(r, bs[0]) <= max then [bs[0]] else []) + Candidates(r, bs[1..], min, max)
  {
    if |bs| > 1 {
      CandidatesCons(r, bs[..|bs| - 1], min, max);
      assert bs[..|bs| - 1][1..] == bs[1..][..|bs| - 2];
    } else {
      assert bs[..0] == [] && bs[1..] == [];
    }
  }

  lemma {:induction false} SearchCandidates(r: Reading, bs: seq<Block>, hash: Bytes, min: U64, max: U64)
    ensures FirstHit(r, Candidates(r, bs, min, max), hash) == Search(r, bs, hash, min, max)
  {
    if bs != [] {
      CandidatesCons(r, bs, min, max);
      SearchCandidates(r, bs[1..], hash, min, max);
      var more := Candidates(r, bs[1..], min, max);
      assert ([bs[0]] + more)[1..] == more && [] + more == more;
    }
  }
}
