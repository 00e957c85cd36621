/** Exactly which bytes decode to a block: a header whose size fields add up, the chunks of the four sections
    with any checksum after each, and the checksum of all that at the end.
 */
module CodecRecords {
  import opened Basics
  import opened Codec

  /** The checksums after the sections, which decoding does not compare. */
  datatype Sums = Sums(fixed: U32, receipts: U32, diffs: U32, txs: U32)

  function Part(ms: seq<Bytes>, sum: U32): Bytes { Chunks(ms) + LittleEndian(sum) }

  function Layout(h: BlockHeader, b: Block, c: Sums): Bytes
  {
    HeaderBytes(h) + Part(Fixed(b), c.fixed) + Part(b.receipts, c.receipts) + Part(b.diffs, c.diffs) + Part(b.txs, c.txs)
  }

  function Record(f: Format, h: BlockHeader, b: Block, c: Sums): Bytes { Layout(h, b, c) + LittleEndian(f.crc(Layout(h, b, c))) }

  predicate Loadable(f: Format, h: BlockHeader, b: Block)
  {
    && h.magic == BLOCK_MAGIC && h.version == BLOCK_VERSION
    && TotalSize(h) == PayloadSize(b) && BLOCK_HEADER_SIZE + PayloadSize(b) <= f.maxBlockSize
    && CountsMatch(f, b)
  }

  ghost predicate IsRecord(f: Format, e: Bytes, b: Block)
  {
    exists h, c :: Loadable(f, h, b) && e == Record(f, h, b, c)
  }

  // ----- such bytes decode -----

  lemma {:induction false} ReadPartBack(limit: nat, bytesRead: nat, ms: seq<Bytes>, sum: U32, t: Bytes)
    requires bytesRead + SizeOnDisk(ms) <= limit < TWO_32 && BLOCK_HEADER_SIZE <= bytesRead
    ensures ReadSection(|ms|, limit, bytesRead, Part(ms, sum) + t) == Read(Budgeted(ms, bytesRead + SizeOnDisk(ms)), t)
  {
    hide LittleEndian, Chunks, ReadChunks, AsU32, ReadU32, SizeOnDisk;
    assert Part(ms, sum) + t == Chunks(ms) + (LittleEndian(sum) + t);
    ReadChunksBack(limit, bytesRead, ms, LittleEndian(sum) + t);
    ReadU32Back(sum, t);
    ChunksLength(ms);
    AsU32Exact(limit);
  }

  lemma LayoutLength(h: BlockHeader, b: Block, c: Sums)
    ensures |Layout(h, b, c)| == BodySize(b)
  {
    hide SizeOnDisk, HeaderBytes, Chunks, LittleEndian;
    ChunksLength(Fixed(b));
    ChunksLength(b.receipts);
    ChunksLength(b.diffs);
    ChunksLength(b.txs);
  }

  lemma {:induction false} RecordDecodes(f: Format, h: BlockHeader, b: Block, c: Sums, t: Bytes)
    requires Loadable(f, h, b)
    ensures Decode(f, Record(f, h, b, c) + t) == Read(Sized(b, |Record(f, h, b, c)|), t)
  {
    hide Part, LittleEndian, HeaderBytes, ReadSection, ReadHeader, ReadU32, SizeOnDisk, TotalSize;
    LayoutLength(h, b, c);
    var s, limit := Record(f, h, b, c) + t, TotalSize(h) + BLOCK_HEADER_SIZE;
    var s4 := LittleEndian(f.crc(Layout(h, b, c))) + t;
    var s3 := Part(b.txs, c.txs) + s4;
    var s2 := Part(b.diffs, c.diffs) + s3;
    var s1 := Part(b.receipts, c.receipts) + s2;
    BodySplits(HeaderBytes(h), Part(Fixed(b), c.fixed), Part(b.receipts, c.receipts), Part(b.diffs, c.diffs), Part(b.txs, c.txs),
               LittleEndian(f.crc(Layout(h, b, c))), t);
    ReadHeaderBack(h, Part(Fixed(b), c.fixed) + s1);
    var n := BLOCK_HEADER_SIZE;
    ReadPartBack(limit, n, Fixed(b), c.fixed, s1);
    n := n + SizeOnDisk(Fixed(b));
    ReadPartBack(limit, n, b.receipts, c.receipts, s2);
    n := n + SizeOnDisk(b.receipts);
    ReadPartBack(limit, n, b.diffs, c.diffs, s3);
    n := n + SizeOnDisk(b.diffs);
    ReadPartBack(limit, n, b.txs, c.txs, s4);
    ReadU32Back(f.crc(Layout(h, b, c)), t);
    assert s[..|s| - |s4|] == Layout(h, b, c);
  }

  /** An encoded block starts with magic number, version and the sizes of its four sections. */
  lemma {:induction false} EncodingStart(f: Format, b: Block)
    requires Encodable(f, b)
    ensures var e := Encoding(f, b);
            && |e| == 44 + PayloadSize(b)
            && e[0..4] == LittleEndian(0x6b4f4c42) && e[4..8] == LittleEndian(0)
            && e[8..12] == LittleEndian(SizeOnDisk(Fixed(b))) && e[12..16] == LittleEndian(SizeOnDisk(b.receipts))
            && e[16..20] == LittleEndian(SizeOnDisk(b.diffs)) && e[20..24] == LittleEndian(SizeOnDisk(b.txs))
  {
    hide LittleEndian, SizeOnDisk, Section, TotalSize, HeaderOf, SizeField;
    EncodableSizes(f, b);
    HeaderIsMarked(b);
    var h, sum := HeaderOf(b), LittleEndian(f.crc(Body(f, b)));
    var rest := Section(f, Fixed(b)) + Section(f, b.receipts) + Section(f, b.diffs) + Section(f, b.txs) + sum;
    FieldsApart(LittleEndian(h.magic), LittleEndian(h.version), LittleEndian(h.fixedSize), LittleEndian(h.receiptsSize),
                LittleEndian(h.diffsSize), LittleEndian(h.txsSize), rest);
    HeaderThen(HeaderBytes(h), Section(f, Fixed(b)), Section(f, b.receipts), Section(f, b.diffs), Section(f, b.txs), sum);
  }

  /** Behind them are the chunks of each section, with their checksum behind each. */
  lemma {:induction false} EncodingAt(f: Format, b: Block)
    requires Encodable(f, b)
    ensures var e := Encoding(f, b);
            var r := 28 + SizeOnDisk(Fixed(b));
            var d := r + SizeOnDisk(b.receipts) + 4;
            var t := d + SizeOnDisk(b.diffs) + 4;
            && |e| == t + SizeOnDisk(b.txs) + 8
            && e[24..r - 4] == Chunks(Fixed(b)) && e[r - 4..r] == LittleEndian(f.crc(Chunks(Fixed(b))))
            && e[r..d - 4] == Chunks(b.receipts) && e[d - 4..d] == LittleEndian(f.crc(Chunks(b.receipts)))
            && e[d..t - 4] == Chunks(b.diffs) && e[t - 4..t] == LittleEndian(f.crc(Chunks(b.diffs)))
            && e[t..t + SizeOnDisk(b.txs)] == Chunks(b.txs)
  {
    hide LittleEndian, SizeOnDisk, Chunks, HeaderOf, HeaderBytes;
    EncodingStart(f, b);
    ChunksLength(Fixed(b));
    ChunksLength(b.receipts);
    ChunksLength(b.diffs);
    ChunksLength(b.txs);
    var h, sum := HeaderBytes(HeaderOf(b)), LittleEndian(f.crc(Body(f, b)));
    var x, r, d, y := Chunks(Fixed(b)), Chunks(b.receipts), Chunks(b.diffs), Chunks(b.txs);
    HeaderThen(h, Section(f, Fixed(b)), Section(f, b.receipts), Section(f, b.diffs), Section(f, b.txs), sum);
    SectionsApart(x, LittleEndian(f.crc(x)), r, LittleEndian(f.crc(r)), d, LittleEndian(f.crc(d)), y, LittleEndian(f.crc(y)), sum, h);
  }

  lemma HeaderThen(h: Bytes, x: Bytes, r: Bytes, d: Bytes, y: Bytes, sum: Bytes)
    ensures h + x + r + d + y + sum == h + (x + r + d + y + sum)
  {
  }

  lemma SectionsApart(x: Bytes, cx: Bytes, r: Bytes, cr: Bytes, d: Bytes, cd: Bytes, y: Bytes, cy: Bytes, sum: Bytes, h: Bytes)
    requires |h| == 24 && |cx| == |cr| == |cd| == 4
    ensures var e := h + ((x + cx) + (r + cr) + (d + cd) + (y + cy) + sum);
            var i, j, k := 28 + |x|, 32 + |x| + |r|, 36 + |x| + |r| + |d|;
            && e[24..i - 4] == x && e[i - 4..i] == cx && e[i..j - 4] == r && e[j - 4..j] == cr
            && e[j..k - 4] == d && e[k - 4..k] == cd && e[k..k + |y|] == y
  {
  }

  // ----- nothing else decodes -----

  lemma NumberBytes(s: Bytes)
    requires |s| == 4
    ensures LittleEndian(FromLittleEndian(s)) == s
  {
    hide LittleEndian;
    var r := LittleEndian(FromLittleEndian(s));
    DigitsUnique(r[0], r[1], r[2], r[3], s[0], s[1], s[2], s[3]);
  }

  lemma DigitsUnique(a: int, b: int, c: int, d: int, a': int, b': int, c': int, d': int)
    requires 0 <= a < 256 && 0 <= b < 256 && 0 <= c < 256 && 0 <= d < 256
    requires 0 <= a' < 256 && 0 <= b' < 256 && 0 <= c' < 256 && 0 <= d' < 256
    requires a + 256 * b + 65536 * c + 16777216 * d == a' + 256 * b' + 65536 * c' + 16777216 * d'
    ensures a == a' && b == b' && c == c' && d == d'
  {
    assert a - a' == 256 * (b' - b + 256 * (c' - c) + 65536 * (d' - d));
    assert b - b' == 256 * (c' - c + 256 * (d' - d));
    assert c - c' == 256 * (d' - d);
  }

  lemma U32Taken(s: Bytes)
    ensures var r := ReadU32(s); r.Read? ==> s == LittleEndian(r.value) + r.rest
  {
    hide LittleEndian, FromLittleEndian;
    if |s| >= 4 { NumberBytes(s[..4]); }
  }

  lemma ChunkTaken(limit: nat, bytesRead: nat, s: Bytes)
    ensures var r := ReadChunk(limit, bytesRead, s); r.Read? ==> s == Chunk(r.value.item) + r.rest
  {
    hide LittleEndian, ReadU32, AsU32;
    U32Taken(s);
    var n := ReadU32(s);
    if n.Read? && n.value <= |n.rest| {
      AsU32Exact(n.value);
      assert n.rest == n.rest[..n.value] + n.rest[n.value..];
    }
  }

  lemma {:induction false} ChunksTaken(count: nat, limit: nat, bytesRead: nat, s: Bytes)
    ensures var r := ReadChunks(count, limit, bytesRead, s);
            r.Read? ==> s == Chunks(r.value.item) + r.rest && r.value.bytesRead == bytesRead + SizeOnDisk(r.value.item)
  {
    hide ReadChunk, Chunk;
    if count > 0 {
      ChunksTaken(count - 1, limit, bytesRead, s);
      var front := ReadChunks(count - 1, limit, bytesRead, s);
      if front.Read? {
        ChunkTaken(limit, front.value.bytesRead, front.rest);
        var chunk := ReadChunk(limit, front.value.bytesRead, front.rest);
        if chunk.Read? {
          ChunksSnoc(front.value.item, chunk.value.item);
          AppendAssoc(Chunks(front.value.item), Chunk(chunk.value.item), chunk.rest);
          var all := front.value.item + [chunk.value.item];
          assert all[..|all| - 1] == front.value.item;
        }
      }
    }
  }

  lemma {:induction false} SectionTaken(count: nat, limit: nat, bytesRead: nat, s: Bytes) returns (sum: U32)
    ensures var r := ReadSection(count, limit, bytesRead, s);
            r.Read? ==> s == Part(r.value.item, sum) + r.rest && r.value.bytesRead == bytesRead + SizeOnDisk(r.value.item)
  {
    hide ReadChunks, Chunks, SizeOnDisk, LittleEndian, ReadU32;
    ChunksTaken(count, limit, bytesRead, s);
    var chunks := ReadChunks(count, limit, bytesRead, s);
    sum := 0;
    if chunks.Read? {
      U32Taken(chunks.rest);
      if ReadU32(chunks.rest).Read? {
        sum := ReadU32(chunks.rest).value;
        AppendAssoc(Chunks(chunks.value.item), LittleEndian(sum), ReadU32(chunks.rest).rest);
      }
    }
  }

  lemma HeaderTaken(s: Bytes)
    ensures var r := ReadHeader(s);
            r.Read? ==> s == HeaderBytes(r.value) + r.rest && r.value.magic == BLOCK_MAGIC && r.value.version == BLOCK_VERSION
  {
    hide LittleEndian, FromLittleEndian;
    if |s| >= BLOCK_HEADER_SIZE {
      NumberBytes(s[0..4]);
      NumberBytes(s[4..8]);
      NumberBytes(s[8..12]);
      NumberBytes(s[12..16]);
      NumberBytes(s[16..20]);
      NumberBytes(s[20..24]);
      assert s == s[0..4] + s[4..8] + s[8..12] + s[12..16] + s[16..20] + s[20..24] + s[24..];
    }
  }

  /** A block that decodes comes from a record of it. */
  lemma {:induction false} DecodedRecord(f: Format, s: Bytes) returns (h: BlockHeader, c: Sums)
    requires Decode(f, s).Read?
    ensures var r := Decode(f, s);
            && Loadable(f, h, r.value.block) && ReadHeader(s).Read? && ReadHeader(s).value == h
            && s == Record(f, h, r.value.block, c) + r.rest && r.value.size == |Record(f, h, r.value.block, c)|
  {
    hide Part, LittleEndian, HeaderBytes, ReadSection, ReadHeader, ReadU32, SizeOnDisk, TotalSize;
    HeaderTaken(s);
    h := ReadHeader(s).value;
    var s0, limit := ReadHeader(s).rest, TotalSize(h) + BLOCK_HEADER_SIZE;
    var c1 := SectionTaken(5, limit, BLOCK_HEADER_SIZE, s0);
    var fixed := ReadSection(5, limit, BLOCK_HEADER_SIZE, s0);
    var x, s1 := fixed.value.item, fixed.rest;
    var c2 := SectionTaken(f.numReceipts(x[3]), limit, fixed.value.bytesRead, s1);
    var receipts := ReadSection(f.numReceipts(x[3]), limit, fixed.value.bytesRead, s1);
    var c3 := SectionTaken(f.numDiffs(x[3]), limit, receipts.value.bytesRead, receipts.rest);
    var diffs := ReadSection(f.numDiffs(x[3]), limit, receipts.value.bytesRead, receipts.rest);
    var c4 := SectionTaken(f.numTxs(x[0]), limit, diffs.value.bytesRead, diffs.rest);
    var txs := ReadSection(f.numTxs(x[0]), limit, diffs.value.bytesRead, diffs.rest);
    U32Taken(txs.rest);
    c := Sums(c1, c2, c3, c4);
    var b := Decode(f, s).value.block;
    assert Fixed(b) == x;
    LayoutLength(h, b, c);
    BodySplits(HeaderBytes(h), Part(x, c1), Part(b.receipts, c2), Part(b.diffs, c3), Part(b.txs, c4),
               LittleEndian(ReadU32(txs.rest).value), ReadU32(txs.rest).rest);
    assert s[..|s| - |txs.rest|] == Layout(h, b, c);
  }

  /** Decoding yields a block and its size exactly on the bytes of a record of the block, whatever follows. */
  lemma {:induction false} DecodeExact(f: Format, s: Bytes, b: Block, n: nat)
    requires n <= |s|
    ensures Decode(f, s) == Read(Sized(b, n), s[n..]) <==> IsRecord(f, s[..n], b)
  {
    hide Decode, Record, Loadable;
    if Decode(f, s) == Read(Sized(b, n), s[n..]) {
      var h, c := DecodedRecord(f, s);
      assert s[..n] == Record(f, h, b, c);
    }
    if IsRecord(f, s[..n], b) {
      var h, c :| Loadable(f, h, b) && s[..n] == Record(f, h, b, c);
      RecordDecodes(f, h, b, c, s[n..]);
      assert s[..n] + s[n..] == s;
    }
  }

  // ----- the checksum of a block -----

  /** The last four bytes of a block are the checksum of the bytes before them. */
  predicate Checked(f: Format, e: Bytes)
  {
    |e| >= CHECKSUM_SIZE && e[|e| - CHECKSUM_SIZE..] == LittleEndian(f.crc(e[..|e| - CHECKSUM_SIZE]))
  }

  lemma RecordIsChecked(f: Format, e: Bytes, b: Block)
    requires IsRecord(f, e, b)
    ensures Checked(f, e)
  {
    hide Layout, Loadable, LittleEndian;
    var h, c :| Loadable(f, h, b) && e == Record(f, h, b, c);
    assert e[..|e| - CHECKSUM_SIZE] == Layout(h, b, c);
  }

  lemma {:induction false} DecodedIsChecked(f: Format, s: Bytes)
    ensures var r := Decode(f, s); r.Read? ==> r.value.size <= |s| && Checked(f, s[..r.value.size])
  {
    hide Decode, Checked, IsRecord;
    if Decode(f, s).Read? {
      DecodedBlock(f, s);
      var r := Decode(f, s);
      DecodeExact(f, s, r.value.block, r.value.size);
      RecordIsChecked(f, s[..r.value.size], r.value.block);
    }
  }

  /** An encoded block whose body has been changed to one of the same length with another checksum does not
      decode to a block of the size it had. Unless its header has changed it does not decode at all. */
  lemma {:induction false} AlteredRejected(f: Format, b: Block, body: Bytes, t: Bytes)
    requires Encodable(f, b) && |body| == |Body(f, b)| && f.crc(body) != f.crc(Body(f, b))
    ensures var r := Decode(f, body + LittleEndian(f.crc(Body(f, b))) + t);
            r.Read? ==> r.value.size != |Encoding(f, b)| && body[..BLOCK_HEADER_SIZE] != HeaderBytes(HeaderOf(b))
  {
    hide Decode, LittleEndian, TotalSize, HeaderOf, HeaderBytes, Body, ReadHeader, Layout, Loadable;
    BodyLength(f, b);
    var sum := LittleEndian(f.crc(Body(f, b)));
    var s := body + sum + t;
    var r := Decode(f, s);
    if r.Read? {
      DecodedIsChecked(f, s);
      if r.value.size == |Encoding(f, b)| {
        assert s[..r.value.size] == body + sum;
        assert (body + sum)[..|body|] == body && (body + sum)[|body|..] == sum;
        LittleEndianRoundTrip(f.crc(body));
        LittleEndianRoundTrip(f.crc(Body(f, b)));
      }
      if body[..BLOCK_HEADER_SIZE] == HeaderBytes(HeaderOf(b)) {
        SameHeaderSameSize(f, s, b);
      }
    }
  }

  /** The size of a block that decodes is told by its header. */
  lemma {:induction false} SameHeaderSameSize(f: Format, s: Bytes, b: Block)
    requires Encodable(f, b) && |s| >= BLOCK_HEADER_SIZE && s[..BLOCK_HEADER_SIZE] == HeaderBytes(HeaderOf(b)) && Decode(f, s).Read?
    ensures Decode(f, s).value.size == |Encoding(f, b)|
  {
    hide Decode, LittleEndian, TotalSize, HeaderOf, HeaderBytes, Layout, Encoding, ReadHeader, SizeOnDisk;
    var h, c := DecodedRecord(f, s);
    HeaderIsMarked(b);
    ReadHeaderBack(HeaderOf(b), s[BLOCK_HEADER_SIZE..]);
    assert s == HeaderBytes(HeaderOf(b)) + s[BLOCK_HEADER_SIZE..];
    LayoutLength(h, Decode(f, s).value.block, c);
    EncodableSizes(f, b);
  }

  /** With another header it may decode: any shorter block can stand in the place of the body. */
  lemma {:induction false} AlteredToShorter(f: Format, b: Block, small: Block, pad: Bytes, t: Bytes)
    requires Encodable(f, small) && CountsMatch(f, small) && |Encoding(f, small) + pad| == |Body(f, b)|
    ensures Decode(f, (Encoding(f, small) + pad) + LittleEndian(f.crc(Body(f, b))) + t).Read?
  {
    hide Decode, Encoding, Body, LittleEndian, Encodable, CountsMatch;
    var sum := LittleEndian(f.crc(Body(f, b)));
    DecodeBack(f, small, pad + sum + t);
    assert (Encoding(f, small) + pad) + sum + t == Encoding(f, small) + (pad + sum + t);
  }
}
