/** Scanning the blocks file page by page, and searching it, as functions of the records in it: the
    blocks of the chain, then whatever the bytes behind them decode to, and whether decoding ends
    because the file does.
 */
module BlockScan {
  import opened Basics
  import opened Digests
  import opened Codec
  import opened BlockFile
  import opened BlockIndex

  function Blocks(bs: seq<Sized>): (r: seq<Block>)
    ensures |r| == |bs| && forall i | 0 <= i < |bs| :: r[i] == bs[i].block
  {
    seq(|bs|, i requires 0 <= i < |bs| => bs[i].block)
  }

  lemma {:induction false} DecodeAllStep(f: Format, s: Bytes)
    ensures Decode(f, s).Read? ==>
              && |Decode(f, s).rest| < |s|
              && DecodeAll(f, s) == [Decode(f, s).value] + DecodeAll(f, Decode(f, s).rest)
              && EndsClean(f, s) == EndsClean(f, Decode(f, s).rest)
    ensures !Decode(f, s).Read? ==> DecodeAll(f, s) == []
  {
    hide Decode;
    if Decode(f, s).Read? { DecodedBlock(f, s); }
  }

  lemma CleanStep(f: Format, s: Bytes)
    ensures !Decode(f, s).Read? ==> EndsClean(f, s) == Decode(f, s).Truncated? && Blocks(DecodeAll(f, s)) == []
    ensures Decode(f, s).Read? ==>
              Blocks(DecodeAll(f, s)) == [Decode(f, s).value.block] + Blocks(DecodeAll(f, Decode(f, s).rest))
  {
    hide Decode;
    DecodeAllStep(f, s);
  }

  /** Reading one more record into a page. */
  lemma PageStep(f: Format, s: Bytes, page: seq<Block>, all: seq<Block>)
    requires all == page + Blocks(DecodeAll(f, s))
    ensures var d := Decode(f, s);
            if d.Read? then
              && |d.rest| < |s| && all == page + [d.value.block] + Blocks(DecodeAll(f, d.rest))
              && EndsClean(f, d.rest) == EndsClean(f, s)
            else all == page && EndsClean(f, s) == d.Truncated?
  {
    hide Decode, DecodeAll, EndsClean, Blocks;
    DecodeAllStep(f, s);
    CleanStep(f, s);
  }

  /** The records from block k on, with a tail behind the blocks. */
  lemma SuffixDecodes(f: Format, bs: seq<Block>, k: nat, tail: Bytes)
    requires k <= |bs| && Storable(f, bs)
    ensures Encodings(f, bs) == Encodings(f, bs[..k]) + Encodings(f, bs[k..])
    ensures var s := Encodings(f, bs[k..]) + tail;
            Blocks(DecodeAll(f, s)) == bs[k..] + Blocks(DecodeAll(f, tail)) && EndsClean(f, s) == EndsClean(f, tail)
  {
    hide Encodings, Encodable, CountsMatch, Decode, DecodeAll, EndsClean;
    EncodingsSplit(f, bs, k);
    DecodeStored(f, bs[k..], tail);
  }

  /** A tail that ends too early for a block holds no record, and is no error. */
  lemma UnfinishedTail(f: Format, tail: Bytes)
    ensures Decode(f, tail) == Truncated <==> Blocks(DecodeAll(f, tail)) == [] && EndsClean(f, tail)
  {
    hide Decode;
    DecodeAllStep(f, tail);
  }

  // ----- pages -----

  /** The pages a cursor is given: consecutive blocks, pageSize at a time, for as long as it wants more
      after the pages it has seen. */
  function Scan(bs: seq<Block>, pageSize: nat, wants: seq<seq<Block>> -> bool, seen: seq<seq<Block>>): seq<seq<Block>>
    requires pageSize > 0
  {
    if bs == [] then seen
    else
      var k := if pageSize < |bs| then pageSize else |bs|;
      if wants(seen + [bs[..k]]) then Scan(bs[k..], pageSize, wants, seen + [bs[..k]]) else seen + [bs[..k]]
  }

  datatype Scanned = Scanned(pages: seq<seq<Block>>, failed: bool)

  /** The same over the records of a file. When these end in bytes that are not a block, a scan that gets
      there fails, and the page it was filling is lost. */
  function ScanRecords(bs: seq<Block>, clean: bool, pageSize: nat, wants: seq<seq<Block>> -> bool, seen: seq<seq<Block>>): Scanned
    requires pageSize > 0
  {
    if |bs| < pageSize && !clean then Scanned(seen, true)
    else if bs == [] then Scanned(seen, false)
    else
      var k := if pageSize < |bs| then pageSize else |bs|;
      if wants(seen + [bs[..k]]) then ScanRecords(bs[k..], clean, pageSize, wants, seen + [bs[..k]])
      else Scanned(seen + [bs[..k]], false)
  }

  lemma {:induction false} CleanScan(bs: seq<Block>, pageSize: nat, wants: seq<seq<Block>> -> bool, seen: seq<seq<Block>>)
    requires pageSize > 0
    ensures ScanRecords(bs, true, pageSize, wants, seen) == Scanned(Scan(bs, pageSize, wants, seen), false)
  {
    if bs != [] {
      var k := if pageSize < |bs| then pageSize else |bs|;
      if wants(seen + [bs[..k]]) { CleanScan(bs[k..], pageSize, wants, seen + [bs[..k]]); }
    }
  }

  lemma ScanNothing(pageSize: nat, wants: seq<seq<Block>> -> bool, pages: seq<seq<Block>>)
    requires pageSize > 0
    ensures Scan([], pageSize, wants, pages) == pages
  {
  }

  lemma ScanStep(left: seq<Block>, page: seq<Block>, rest: seq<Block>, pageSize: nat, wants: seq<seq<Block>> -> bool,
                 pages: seq<seq<Block>>)
    requires left == page + rest && |page| <= pageSize && pageSize > 0 && (|page| < pageSize ==> rest == [])
    ensures Scan(left, pageSize, wants, pages) ==
            if page == [] then pages
            else if wants(pages + [page]) then Scan(rest, pageSize, wants, pages + [page]) else pages + [page]
  {
    if page != [] {
      var k := if pageSize < |left| then pageSize else |left|;
      assert left[..k] == page && left[k..] == rest;
    }
  }

  /** One page of a scan of records. */
  lemma RecordsStep(left: seq<Block>, clean: bool, page: seq<Block>, rest: seq<Block>, pageSize: nat,
                    wants: seq<seq<Block>> -> bool, pages: seq<seq<Block>>)
    requires left == page + rest && |page| <= pageSize && pageSize > 0 && (|page| < pageSize ==> rest == [] && clean)
    ensures ScanRecords(left, clean, pageSize, wants, pages) ==
            if page == [] then Scanned(pages, false)
            else if wants(pages + [page]) then ScanRecords(rest, clean, pageSize, wants, pages + [page])
            else Scanned(pages + [page], false)
  {
    if page != [] {
      var k := if pageSize < |left| then pageSize else |left|;
      assert left[..k] == page && left[k..] == rest;
    }
  }

  /** Pages cut a list into runs of pageSize, the last one perhaps shorter. After each but the last the cursor
      wanted more, and after the last it did not or the list is at its end. */
  ghost predicate ArePages(pages: seq<seq<Block>>, bs: seq<Block>, pageSize: nat, wants: seq<seq<Block>> -> bool)
  {
    && Flatten(pages) <= bs
    && (forall i | 0 <= i < |pages| :: 0 < |pages[i]| <= pageSize && (|pages[i]| < pageSize ==> i == |pages| - 1 && Flatten(pages) == bs))
    && (forall i | 0 < i < |pages| :: wants(pages[..i]))
    && (Flatten(pages) == bs || (pages != [] && !wants(pages)))
  }

  /** Full pages, after each of which the cursor wanted more. */
  ghost predicate FullPages(pages: seq<seq<Block>>, pageSize: nat, wants: seq<seq<Block>> -> bool)
  {
    && (forall i | 0 <= i < |pages| :: |pages[i]| == pageSize)
    && (forall i | 0 < i <= |pages| :: wants(pages[..i]))
  }

  lemma OneMorePage(seen: seq<seq<Block>>, page: seq<Block>, pageSize: nat, wants: seq<seq<Block>> -> bool)
    requires FullPages(seen, pageSize, wants) && |page| == pageSize && wants(seen + [page])
    ensures FullPages(seen + [page], pageSize, wants)
  {
    var more := seen + [page];
    forall i | 0 < i <= |more| ensures wants(more[..i]) {
      if i <= |seen| { assert more[..i] == seen[..i]; } else { assert more[..i] == more; }
    }
  }

  lemma AtTheEnd(seen: seq<seq<Block>>, bs: seq<Block>, pageSize: nat, wants: seq<seq<Block>> -> bool)
    requires FullPages(seen, pageSize, wants) && pageSize > 0 && Flatten(seen) == bs
    ensures ArePages(seen, bs, pageSize, wants)
  {
    hide Flatten;
  }

  lemma LastPage(seen: seq<seq<Block>>, page: seq<Block>, rest: seq<Block>, bs: seq<Block>, pageSize: nat, wants: seq<seq<Block>> -> bool)
    requires FullPages(seen, pageSize, wants) && 0 < |page| <= pageSize && Flatten(seen + [page]) + rest == bs
    requires (|page| < pageSize ==> rest == []) && (rest == [] || !wants(seen + [page]))
    ensures ArePages(seen + [page], bs, pageSize, wants)
  {
    hide Flatten;
    var more := seen + [page];
    assert rest == [] ==> Flatten(more) == bs;
    forall i | 0 < i < |more| ensures wants(more[..i]) { assert more[..i] == seen[..i]; }
  }

  /** Pages of the blocks left, behind the full pages seen. */
  lemma {:induction false} ScanExact(bs: seq<Block>, left: seq<Block>, pageSize: nat, wants: seq<seq<Block>> -> bool, seen: seq<seq<Block>>)
    requires pageSize > 0 && Flatten(seen) + left == bs && FullPages(seen, pageSize, wants)
    ensures ArePages(Scan(left, pageSize, wants, seen), bs, pageSize, wants)
    decreases |left|
  {
    hide ArePages, FullPages, Flatten;
    if left == [] {
      assert Flatten(seen) == bs;
      AtTheEnd(seen, bs, pageSize, wants);
    } else {
      var k := if pageSize < |left| then pageSize else |left|;
      var page, rest := left[..k], left[k..];
      FlattenSnoc(seen, page);
      assert left == page + rest;
      assert Flatten(seen + [page]) + rest == bs;
      if wants(seen + [page]) && k == pageSize {
        OneMorePage(seen, page, pageSize, wants);
        ScanExact(bs, rest, pageSize, wants, seen + [page]);
      } else {
        assert wants(seen + [page]) ==> Scan(rest, pageSize, wants, seen + [page]) == seen + [page];
        LastPage(seen, page, rest, bs, pageSize, wants);
      }
    }
  }

  lemma ScanFromStart(bs: seq<Block>, pageSize: nat, wants: seq<seq<Block>> -> bool)
    requires pageSize > 0
    ensures ArePages(Scan(bs, pageSize, wants, []), bs, pageSize, wants)
  {
    hide ArePages, Scan;
    assert Flatten([]) + bs == bs;
    ScanExact(bs, bs, pageSize, wants, []);
  }

  // ----- scanning everything -----

  const ALL: seq<seq<Block>> -> bool := _ => true

  function Flatten(pages: seq<seq<Block>>): seq<Block>
  {
    if pages == [] then [] else Flatten(pages[..|pages| - 1]) + pages[|pages| - 1]
  }

  lemma FlattenSnoc(pages: seq<seq<Block>>, page: seq<Block>)
    ensures Flatten(pages + [page]) == Flatten(pages) + page
  {
    assert (pages + [page])[..|pages|] == pages;
  }

  lemma {:induction false} ScanAll(bs: seq<Block>, clean: bool, pageSize: nat, seen: seq<seq<Block>>)
    requires pageSize > 0
    ensures ScanRecords(bs, clean, pageSize, ALL, seen).failed <==> !clean
    ensures clean ==> Flatten(ScanRecords(bs, clean, pageSize, ALL, seen).pages) == Flatten(seen) + bs
  {
    if bs == [] {
      assert Flatten(seen) + bs == Flatten(seen);
    } else if clean || |bs| >= pageSize {
      var k := if pageSize < |bs| then pageSize else |bs|;
      ScanAll(bs[k..], clean, pageSize, seen + [bs[..k]]);
      FlattenSnoc(seen, bs[..k]);
      assert Flatten(seen) + bs[..k] + bs[k..] == Flatten(seen) + bs;
    }
  }

  /** A scan of everything gives the chain and no error exactly when the bytes behind the chain, if any, end
      too early for a block. */
  lemma {:induction false} FullScanRightIff(f: Format, bs: seq<Block>, tail: Bytes, pageSize: nat)
    requires pageSize > 0
    ensures Decode(f, tail) == Truncated <==>
            ScanRecords(bs + Blocks(DecodeAll(f, tail)), EndsClean(f, tail), pageSize, ALL, []) ==
            Scanned(Scan(bs, pageSize, ALL, []), false)
  {
    hide Decode, DecodeAll, EndsClean, Scan, ScanRecords, Flatten, Blocks;
    var extra, clean := Blocks(DecodeAll(f, tail)), EndsClean(f, tail);
    UnfinishedTail(f, tail);
    CleanScan(bs, pageSize, ALL, []);
    ScanAll(bs, true, pageSize, []);
    ScanAll(bs + extra, clean, pageSize, []);
    if extra == [] {
      assert bs + extra == bs;
    } else {
      assert |Flatten([]) + bs| != |Flatten([]) + (bs + extra)|;
    }
  }

  // ----- the search as a scan -----

  /** The cursor of the search: whether it wants more after a block. */
  predicate WantsMore(r: Reading, b: Block, hash: Bytes, min: U64, max: U64)
  {
    TimeOf(r, b) <= max && (TimeOf(r, b) < min || Receipt(r, b.receipts, hash, 0).None?)
  }

  function Cursor(r: Reading, hash: Bytes, min: U64, max: U64): seq<seq<Block>> -> bool
  {
    (pages: seq<seq<Block>>) =>
      |pages| > 0 && |pages[|pages| - 1]| > 0 && WantsMore(r, pages[|pages| - 1][0], hash, min, max)
  }

  /** What the search has when the scan is over: the last block it was given, if that is a hit. */
  function Outcome(r: Reading, pages: seq<seq<Block>>, hash: Bytes, min: U64, max: U64): Option<Found>
  {
    if |pages| == 0 || |pages[|pages| - 1]| == 0 then None
    else
      var b := pages[|pages| - 1][0];
      var hit := Receipt(r, b.receipts, hash, 0);
      if min <= TimeOf(r, b) <= max && hit.Some? then Some(Found(b, hit.value)) else None
  }

  lemma {:induction false} ScanSearches(r: Reading, bs: seq<Block>, hash: Bytes, min: U64, max: U64, seen: seq<seq<Block>>)
    requires Outcome(r, seen, hash, min, max) == None
    ensures Outcome(r, Scan(bs, 1, Cursor(r, hash, min, max), seen), hash, min, max) == ScanFor(r, bs, hash, min, max)
  {
    if bs != [] {
      var page := bs[..1];
      assert page == [bs[0]];
      var more := seen + [page];
      assert more[|more| - 1] == page;
      assert Cursor(r, hash, min, max)(more) == WantsMore(r, bs[0], hash, min, max);
      if WantsMore(r, bs[0], hash, min, max) { ScanSearches(r, bs[1..], hash, min, max, more); }
    }
  }

  lemma NothingYet(r: Reading, hash: Bytes, min: U64, max: U64)
    ensures Outcome(r, [], hash, min, max) == None
  {
  }

  /** A search that no block answers reads to the end, and fails exactly when that end is no clean one. */
  lemma {:induction false} UnknownFailsIff(
    r: Reading, bs: seq<Block>, clean: bool, hash: Bytes, min: U64, max: U64, seen: seq<seq<Block>>)
    requires forall i | 0 <= i < |bs| :: WantsMore(r, bs[i], hash, min, max)
    ensures ScanRecords(bs, clean, 1, Cursor(r, hash, min, max), seen).failed <==> !clean
  {
    hide WantsMore;
    if bs != [] {
      var more := seen + [bs[..1]];
      assert more[|more| - 1][0] == bs[0];
      assert Cursor(r, hash, min, max)(more);
      UnknownFailsIff(r, bs[1..], clean, hash, min, max, more);
    }
  }

  /** What the search of the file returns: nothing without a listed minute, else what the scan from there
      finds, or an error if the scan fails. */
  function FileSearch(r: Reading, bs: seq<Block>, extra: seq<Block>, clean: bool, buckets: map<U32, nat>,
                      hash: Bytes, min: U64, max: U64): (Option<Found>, bool)
  {
    match EarliestInBuckets(buckets, BucketKey(min), BucketKey(max))
    case None => (None, false)
    case Some(h) =>
      if !(1 <= h <= |bs|) then (None, false)
      else
        var s := ScanRecords(bs[h - 1..] + extra, clean, 1, Cursor(r, hash, min, max), []);
        if s.failed then (None, true) else (Outcome(r, s.pages, hash, min, max), false)
  }

  /** Without records behind the chain the search of the file finds what the plain search finds. */
  lemma {:induction false} FileSearchFinds(r: Reading, bs: seq<Block>, buckets: map<U32, nat>, hash: Bytes, min: U64, max: U64)
    requires BucketsRight(r, bs, buckets) && Timely(r, bs) && CountsRight(r, bs)
    ensures FileSearch(r, bs, [], true, buckets, hash, min, max) == (Search(r, bs, hash, min, max), false)
  {
    hide BucketKey, EarliestInBuckets, ScanRecords, Scan, Outcome, ScanFor, Search, BucketsRight, Timely, CountsRight;
    SearchByIndexFinds(r, bs, buckets, hash, min, max);
    var first := EarliestInBuckets(buckets, BucketKey(min), BucketKey(max));
    if first.Some? {
      FirstIsEarliest(r, bs, buckets, min, max);
      var from := bs[first.value - 1..];
      assert from + [] == from;
      CleanScan(from, 1, Cursor(r, hash, min, max), []);
      NothingYet(r, hash, min, max);
      ScanSearches(r, from, hash, min, max, []);
    }
  }

  // ----- a file that a restart leaves unreadable -----

  /** A height of one for every block, one receipt in blocks with a results header, no other lists. */
  const SAMPLE: Reading := Reading(
    Format(1000, _ => 0, header => if header == [] then 0 else 1, _ => 0, _ => 0), _ => 1, _ => 1, _ => 0, _ => 0, _ => [])

  const LONG: Block := Block(seq(200, _ => 0), [], [], [], [], [], [], [])
  const SHORT: Block := Block([], [], [], [0], [], [[]], [], [])

  lemma SampleSizes()
    ensures |Encoding(SAMPLE.format, LONG)| == 264 && |Encoding(SAMPLE.format, SHORT)| == 69
    ensures Encodable(SAMPLE.format, LONG) && CountsMatch(SAMPLE.format, LONG)
    ensures Encodable(SAMPLE.format, SHORT) && CountsMatch(SAMPLE.format, SHORT)
  {
    BodyLength(SAMPLE.format, LONG);
    BodyLength(SAMPLE.format, SHORT);
    assert SizeOnDisk(Fixed(LONG)) == 220 by { FixedSize(LONG); }
    assert SizeOnDisk(Fixed(SHORT)) == 21 by { FixedSize(SHORT); }
    SizeSnoc([], []);
    assert SHORT.receipts == [] + [[]];
  }

  lemma SizeSnoc(ms: seq<Bytes>, m: Bytes)
    ensures SizeOnDisk(ms + [m]) == SizeOnDisk(ms) + CHUNK_LENGTH_SIZE + |m|
  {
    assert (ms + [m])[..|ms|] == ms;
  }

  lemma FixedSize(b: Block)
    ensures SizeOnDisk(Fixed(b)) == 20 + |b.txHeader| + |b.txMetadata| + |b.txProof| + |b.rxHeader| + |b.rxProof|
  {
    hide SizeOnDisk;
    SizeSnoc([], b.txHeader);
    var one := [] + [b.txHeader];
    SizeSnoc(one, b.txMetadata);
    SizeSnoc(one + [b.txMetadata], b.txProof);
    SizeSnoc(one + [b.txMetadata] + [b.txProof], b.rxHeader);
    SizeSnoc(one + [b.txMetadata] + [b.txProof] + [b.rxHeader], b.rxProof);
    assert one + [b.txMetadata] + [b.txProof] + [b.rxHeader] + [b.rxProof] == Fixed(b);
    NoSize();
  }

  lemma NoSize()
    ensures SizeOnDisk([]) == 0
  {
  }

  /** The transactions header starts after the block header and its own length. */
  lemma HeaderInEncoding(f: Format, b: Block, i: nat)
    requires i < |b.txHeader|
    ensures |Encoding(f, b)| > 28 + i && Encoding(f, b)[28 + i] == b.txHeader[i]
  {
    hide LittleEndian, AsU32, HeaderBytes, Chunks;
    FixedChunks(b);
    var c := Chunk(b.txHeader);
    assert |c| == 4 + |b.txHeader| && c[4 + i] == b.txHeader[i];
    assert c <= Chunks(Fixed(b)) <= Section(f, Fixed(b));
    assert HeaderBytes(HeaderOf(b)) + Section(f, Fixed(b)) <= Body(f, b) <= Encoding(f, b);
    assert Encoding(f, b)[28 + i] == Section(f, Fixed(b))[4 + i];
  }

  /** A file that ends one byte short of the long block opens with no block. Writing the short block then
      leaves bytes of the long one behind it that are no block, so that a scan to the end and a search for
      an unknown transaction fail, where the chain has no such transaction. */
  lemma ShorterBlockBreaksScan()
    ensures var f, cut := SAMPLE.format, |Encoding(SAMPLE.format, LONG)| - 1;
            var tail := Encoding(f, LONG)[..cut];
            && Complete(f, [LONG], cut) == 0 && Decode(f, tail) == Truncated
            && |Encoding(f, SHORT)| < |tail| && Decode(f, tail[|Encoding(f, SHORT)|..]) == Invalid
            && FileSearch(SAMPLE, [SHORT], [], false, map[0 := 1], [1], 0, 0) == (None, true)
            && Search(SAMPLE, [SHORT], [1], 0, 0) == None && BucketsRight(SAMPLE, [SHORT], map[0 := 1])
  {
    hide Encoding, Decode, FileSearch, Search, BucketsRight, Encodable, CountsMatch;
    var f := SAMPLE.format;
    SampleSizes();
    StrictPrefixRejected(f, LONG, 263);
    var rest := Encoding(f, LONG)[..263][69..];
    forall i | 0 <= i < 4 ensures rest[i] == 0 {
      HeaderInEncoding(f, LONG, 41 + i);
    }
    NotABlock(f, rest);
    SampleSearch();
  }

  lemma SampleSearch()
    ensures FileSearch(SAMPLE, [SHORT], [], false, map[0 := 1], [1], 0, 0) == (None, true)
    ensures Search(SAMPLE, [SHORT], [1], 0, 0) == None && BucketsRight(SAMPLE, [SHORT], map[0 := 1])
  {
    hide BucketKey, ScanRecords, Receipt, EarliestInBuckets, Outcome, Cursor, Search, BucketsRight;
    FirstMinute();
    SampleMinutes();
    SampleUnknown();
    assert [SHORT][0..] + [] == [SHORT];
    UnknownFailsIff(SAMPLE, [SHORT], false, [1], 0, 0, []);
  }

  lemma SampleMinutes()
    ensures EarliestInBuckets(map[0 := 1], 0, 0) == Some(1) && BucketsRight(SAMPLE, [SHORT], map[0 := 1])
  {
    hide BucketKey;
    FirstMinute();
    assert InBucket(SAMPLE, SHORT, 0);
  }

  lemma SampleUnknown()
    ensures WantsMore(SAMPLE, SHORT, [1], 0, 0) && Search(SAMPLE, [SHORT], [1], 0, 0) == None
  {
    assert Receipt(SAMPLE, SHORT.receipts, [1], 0) == Receipt(SAMPLE, SHORT.receipts, [1], 1) == None;
    assert Search(SAMPLE, [SHORT][1..], [1], 0, 0) == None;
  }

  lemma FirstMinute()
    ensures BucketKey(0) == 0
  {
  }

  lemma NotABlock(f: Format, s: Bytes)
    requires |s| >= BLOCK_HEADER_SIZE && s[0] == s[1] == s[2] == s[3] == 0
    ensures Decode(f, s) == Invalid
  {
    assert s[0..4][0] == 0 && s[0..4][1] == 0 && s[0..4][2] == 0 && s[0..4][3] == 0;
  }
}
