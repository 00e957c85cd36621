/** The on-disk format of a block: a header with section sizes, four sections of length-prefixed
    chunks, a checksum after each section and one over everything before it.
 */
module Codec {
  import opened Basics

  type Byte = b: int | 0 <= b < 256

  type Bytes = seq<Byte>

  const BLOCK_MAGIC: U32 := 0x6b4f4c42
  const BLOCK_VERSION: U32 := 0
  const BLOCK_HEADER_SIZE: nat := 24
  const CHECKSUM_SIZE: nat := 4
  const CHUNK_LENGTH_SIZE: nat := 4

  /** A block pair as the raw messages it consists of. */
  datatype Block = Block(
    txHeader: Bytes, txMetadata: Bytes, txProof: Bytes, rxHeader: Bytes, rxProof: Bytes,
    receipts: seq<Bytes>, diffs: seq<Bytes>, txs: seq<Bytes>)

  /** What is taken from elsewhere: the checksum, and the list lengths that the message readers find
      in the two headers. */
  datatype Format = Format(
    maxBlockSize: U32, crc: Bytes -> U32,
    numReceipts: Bytes -> U32, numDiffs: Bytes -> U32, numTxs: Bytes -> U32)

  function Fixed(b: Block): seq<Bytes> { [b.txHeader, b.txMetadata, b.txProof, b.rxHeader, b.rxProof] }

  /** The headers tell how long the lists are. */
  predicate CountsMatch(f: Format, b: Block)
  {
    && f.numReceipts(b.rxHeader) == |b.receipts|
    && f.numDiffs(b.rxHeader) == |b.diffs|
    && f.numTxs(b.txHeader) == |b.txs|
  }

  // ----- little-endian numbers -----

  /** The lowest byte first. */
  function LittleEndian(x: U32): (r: Bytes)
    ensures |r| == 4
    ensures x == r[0] as int + 256 * (r[1] as int) + 65536 * (r[2] as int) + 16777216 * (r[3] as int)
  {
    var q, h := x / 256, x / 65536;
    assert h == q / 256 && x / 16777216 == h / 256;
    [x % 256, x / 256 % 256, x / 65536 % 256, x / 16777216]
  }

  function FromLittleEndian(s: Bytes): U32
    requires |s| == 4
  {
    s[0] as int + 256 * (s[1] as int) + 65536 * (s[2] as int) + 16777216 * (s[3] as int)
  }

  lemma LittleEndianRoundTrip(x: U32)
    ensures FromLittleEndian(LittleEndian(x)) == x
  {
  }

  // ----- what encode writes -----

  function Chunk(m: Bytes): Bytes { LittleEndian(AsU32(|m|)) + m }

  function Chunks(ms: seq<Bytes>): Bytes
  {
    if ms == [] then [] else Chunks(ms[..|ms| - 1]) + Chunk(ms[|ms| - 1])
  }

  lemma ChunksSnoc(ms: seq<Bytes>, m: Bytes)
    ensures Chunks(ms + [m]) == Chunks(ms) + Chunk(m)
  {
    assert (ms + [m])[..|ms|] == ms;
  }

  lemma FixedChunks(b: Block)
    ensures Chunks(Fixed(b)) ==
            Chunk(b.txHeader) + Chunk(b.txMetadata) + Chunk(b.txProof) + Chunk(b.rxHeader) + Chunk(b.rxProof)
  {
    hide Chunk;
    var one := [] + [b.txHeader];
    ChunksSnoc([], b.txHeader);
    ChunksSnoc(one, b.txMetadata);
    ChunksSnoc(one + [b.txMetadata], b.txProof);
    ChunksSnoc(one + [b.txMetadata] + [b.txProof], b.rxHeader);
    ChunksSnoc(one + [b.txMetadata] + [b.txProof] + [b.rxHeader], b.rxProof);
    assert one + [b.txMetadata] + [b.txProof] + [b.rxHeader] + [b.rxProof] == Fixed(b);
    assert Chunks([]) + Chunk(b.txHeader) == Chunk(b.txHeader);
  }

  /** A section: its chunks and their checksum. */
  function Section(f: Format, ms: seq<Bytes>): Bytes { Chunks(ms) + LittleEndian(f.crc(Chunks(ms))) }

  function DiskChunkSize(m: Bytes): U32 { AsU32(CHUNK_LENGTH_SIZE + |m|) }

  /** A size field of the header, summed up in 32 bits. */
  function SizeField(ms: seq<Bytes>): U32
  {
    if ms == [] then 0 else AsU32(SizeField(ms[..|ms| - 1]) + DiskChunkSize(ms[|ms| - 1]))
  }

  datatype BlockHeader = BlockHeader(
    magic: U32, version: U32, fixedSize: U32, receiptsSize: U32, diffsSize: U32, txsSize: U32)

  function TotalSize(h: BlockHeader): U32
  {
    AsU32(AsU32(AsU32(h.fixedSize + h.diffsSize) + h.receiptsSize) + h.txsSize)
  }

  function HeaderOf(b: Block): BlockHeader
  {
    BlockHeader(BLOCK_MAGIC, BLOCK_VERSION, SizeField(Fixed(b)), SizeField(b.receipts), SizeField(b.diffs), SizeField(b.txs))
  }

  function HeaderBytes(h: BlockHeader): (r: Bytes)
    ensures |r| == BLOCK_HEADER_SIZE
  {
    LittleEndian(h.magic) + LittleEndian(h.version) + LittleEndian(h.fixedSize) +
    LittleEndian(h.receiptsSize) + LittleEndian(h.diffsSize) + LittleEndian(h.txsSize)
  }

  /** Everything but the final checksum. */
  function Body(f: Format, b: Block): Bytes
  {
    HeaderBytes(HeaderOf(b)) + Section(f, Fixed(b)) + Section(f, b.receipts) + Section(f, b.diffs) + Section(f, b.txs)
  }

  function Encoding(f: Format, b: Block): Bytes { Body(f, b) + LittleEndian(f.crc(Body(f, b))) }

  // ----- sizes -----

  function SizeOnDisk(ms: seq<Bytes>): nat
  {
    if ms == [] then 0 else SizeOnDisk(ms[..|ms| - 1]) + CHUNK_LENGTH_SIZE + |ms[|ms| - 1]|
  }

  lemma AsU32Exact(n: nat)
    requires n < TWO_32
    ensures AsU32(n) == n
  {
  }

  lemma {:induction false} ChunksLength(ms: seq<Bytes>)
    ensures |Chunks(ms)| == SizeOnDisk(ms)
    ensures 4 * |ms| <= SizeOnDisk(ms)
  {
    hide AsU32, LittleEndian;
    if ms != [] { ChunksLength(ms[..|ms| - 1]); }
  }

  lemma {:induction false} SizeFieldExact(ms: seq<Bytes>)
    requires SizeOnDisk(ms) < TWO_32
    ensures SizeField(ms) == SizeOnDisk(ms)
  {
    hide AsU32;
    if ms != [] {
      var m := ms[|ms| - 1];
      SizeFieldExact(ms[..|ms| - 1]);
      AsU32Exact(CHUNK_LENGTH_SIZE + |m|);
      AsU32Exact(SizeField(ms[..|ms| - 1]) + DiskChunkSize(m));
    }
  }

  lemma SectionLength(f: Format, ms: seq<Bytes>)
    ensures |Section(f, ms)| == SizeOnDisk(ms) + CHECKSUM_SIZE
  {
    ChunksLength(ms);
  }

  function PayloadSize(b: Block): nat
  {
    SizeOnDisk(Fixed(b)) + SizeOnDisk(b.receipts) + SizeOnDisk(b.diffs) + SizeOnDisk(b.txs)
  }

  function BodySize(b: Block): nat { BLOCK_HEADER_SIZE + PayloadSize(b) + 4 * CHECKSUM_SIZE }

  /** encode succeeds when what it has written, less the final checksum, is within the limit. */
  predicate Encodable(f: Format, b: Block) { BodySize(b) <= f.maxBlockSize }

  lemma BodyLength(f: Format, b: Block)
    ensures |Body(f, b)| == BodySize(b)
  {
    hide Section, SizeOnDisk, HeaderBytes;
    SectionLength(f, Fixed(b));
    SectionLength(f, b.receipts);
    SectionLength(f, b.diffs);
    SectionLength(f, b.txs);
  }

  /** A block that encodes has exact size fields: 32 bits are enough for what the limit allows. */
  lemma {:induction false} EncodableSizes(f: Format, b: Block)
    requires Encodable(f, b)
    ensures TotalSize(HeaderOf(b)) == PayloadSize(b)
    ensures HeaderOf(b).fixedSize == SizeOnDisk(Fixed(b)) && HeaderOf(b).receiptsSize == SizeOnDisk(b.receipts)
    ensures HeaderOf(b).diffsSize == SizeOnDisk(b.diffs) && HeaderOf(b).txsSize == SizeOnDisk(b.txs)
    ensures |Encoding(f, b)| == BLOCK_HEADER_SIZE + TotalSize(HeaderOf(b)) + 5 * CHECKSUM_SIZE
  {
    hide AsU32, Body, SizeField, SizeOnDisk;
    BodyLength(f, b);
    SizeFieldExact(Fixed(b));
    SizeFieldExact(b.receipts);
    SizeFieldExact(b.diffs);
    SizeFieldExact(b.txs);
    var h := HeaderOf(b);
    AsU32Exact(h.fixedSize + h.diffsSize);
    AsU32Exact(h.fixedSize + h.diffsSize + h.receiptsSize);
    AsU32Exact(h.fixedSize + h.diffsSize + h.receiptsSize + h.txsSize);
  }

  // ----- what decode reads -----

  /** The outcome of reading: a value and what is left, or the reason it failed: the input ended, or
      what is there is not valid. */
  datatype Parsed<+T> = Read(value: T, rest: Bytes) | Truncated | Invalid

  datatype Budgeted<+T> = Budgeted(item: T, bytesRead: nat)

  function ReadU32(s: Bytes): Parsed<U32>
  {
    if |s| < 4 then Truncated else Read(FromLittleEndian(s[..4]), s[4..])
  }

  function ReadChunk(limit: nat, bytesRead: nat, s: Bytes): (r: Parsed<Budgeted<Bytes>>)
    ensures r.Read? ==> r.value.bytesRead == bytesRead + 4 + |r.value.item| && |r.rest| + 4 <= |s|
  {
    var n := ReadU32(s);
    if !n.Read? then Truncated
    else if limit < bytesRead + CHUNK_LENGTH_SIZE + n.value then Invalid
    else if |n.rest| < n.value then Truncated
    else Read(Budgeted(n.rest[..n.value], bytesRead + CHUNK_LENGTH_SIZE + n.value), n.rest[n.value..])
  }

  function ReadChunks(count: nat, limit: nat, bytesRead: nat, s: Bytes): (r: Parsed<Budgeted<seq<Bytes>>>)
    ensures r.Read? ==> |r.value.item| == count && |r.rest| <= |s|
    decreases count
  {
    if count == 0 then Read(Budgeted([], bytesRead), s)
    else
      var front := ReadChunks(count - 1, limit, bytesRead, s);
      match front
      case Truncated => Truncated
      case Invalid => Invalid
      case Read(sofar, rest) =>
        var c := ReadChunk(limit, sofar.bytesRead, rest);
        match c
        case Truncated => Truncated
        case Invalid => Invalid
        case Read(chunk, rest') => Read(Budgeted(sofar.item + [chunk.item], chunk.bytesRead), rest')
  }

  /** The chunks of a section and the checksum after them, which is read and not compared. */
  function ReadSection(count: nat, limit: nat, bytesRead: nat, s: Bytes): (r: Parsed<Budgeted<seq<Bytes>>>)
    ensures r.Read? ==> |r.value.item| == count && |r.rest| <= |s|
  {
    if AsU32(limit) < count then Invalid
    else
      match ReadChunks(count, limit, bytesRead, s)
      case Truncated => Truncated
      case Invalid => Invalid
      case Read(chunks, rest) =>
        var sum := ReadU32(rest);
        if sum.Read? then Read(chunks, sum.rest) else Truncated
  }

  function ReadHeader(s: Bytes): Parsed<BlockHeader>
  {
    if |s| < BLOCK_HEADER_SIZE then Truncated
    else
      var h := BlockHeader(FromLittleEndian(s[0..4]), FromLittleEndian(s[4..8]), FromLittleEndian(s[8..12]),
                           FromLittleEndian(s[12..16]), FromLittleEndian(s[16..20]), FromLittleEndian(s[20..24]));
      if h.magic != BLOCK_MAGIC || h.version != BLOCK_VERSION then Invalid else Read(h, s[BLOCK_HEADER_SIZE..])
  }

  datatype Sized = Sized(block: Block, size: nat)

  /** decode: the block at the start of s, the size it reports, and what follows the block. */
  function Decode(f: Format, s: Bytes): Parsed<Sized>
  {
    match ReadHeader(s)
    case Truncated => Truncated
    case Invalid => Invalid
    case Read(h, afterHeader) =>
      var limit := TotalSize(h) + BLOCK_HEADER_SIZE;
      if limit > f.maxBlockSize then Invalid
      else
        match ReadSection(5, limit, BLOCK_HEADER_SIZE, afterHeader)
        case Truncated => Truncated
        case Invalid => Invalid
        case Read(fixed, rest) => DecodeLists(f, s, limit, fixed, rest)
  }

  function DecodeLists(f: Format, s: Bytes, limit: nat, fixed: Budgeted<seq<Bytes>>, s1: Bytes): Parsed<Sized>
    requires |fixed.item| == 5 && |s1| <= |s|
  {
    match ReadSection(f.numReceipts(fixed.item[3]), limit, fixed.bytesRead, s1)
    case Truncated => Truncated
    case Invalid => Invalid
    case Read(receipts, s2) =>
      match ReadSection(f.numDiffs(fixed.item[3]), limit, receipts.bytesRead, s2)
      case Truncated => Truncated
      case Invalid => Invalid
      case Read(diffs, s3) =>
        match ReadSection(f.numTxs(fixed.item[0]), limit, diffs.bytesRead, s3)
        case Truncated => Truncated
        case Invalid => Invalid
        case Read(txs, s4) =>
          if txs.bytesRead != limit then Invalid
          else
            match ReadU32(s4)
            case Truncated => Truncated
            case Invalid => Invalid
            case Read(sum, rest) =>
              if sum != f.crc(s[..|s| - |s4|]) then Invalid
              else
                var x := fixed.item;
                Read(Sized(Block(x[0], x[1], x[2], x[3], x[4], receipts.item, diffs.item, txs.item),
                           txs.bytesRead + 5 * CHECKSUM_SIZE), rest)
  }

  // ----- reading back what was written -----

  lemma ReadU32Back(x: U32, t: Bytes)
    ensures ReadU32(LittleEndian(x) + t) == Read(x, t)
  {
    hide LittleEndian, FromLittleEndian;
    LittleEndianRoundTrip(x);
    assert (LittleEndian(x) + t)[..4] == LittleEndian(x);
    assert (LittleEndian(x) + t)[4..] == t;
  }

  lemma ReadChunkBack(limit: nat, bytesRead: nat, m: Bytes, t: Bytes)
    requires bytesRead + CHUNK_LENGTH_SIZE + |m| <= limit < TWO_32 + BLOCK_HEADER_SIZE && BLOCK_HEADER_SIZE <= bytesRead
    ensures ReadChunk(limit, bytesRead, Chunk(m) + t) == Read(Budgeted(m, bytesRead + CHUNK_LENGTH_SIZE + |m|), t)
  {
    hide LittleEndian, AsU32, ReadU32;
    AsU32Exact(|m|);
    assert Chunk(m) + t == LittleEndian(|m|) + (m + t);
    ReadU32Back(|m|, m + t);
    assert (m + t)[..|m|] == m && (m + t)[|m|..] == t;
  }

  lemma {:induction false} ReadChunksBack(limit: nat, bytesRead: nat, ms: seq<Bytes>, t: Bytes)
    requires bytesRead + SizeOnDisk(ms) <= limit < TWO_32 + BLOCK_HEADER_SIZE && BLOCK_HEADER_SIZE <= bytesRead
    ensures ReadChunks(|ms|, limit, bytesRead, Chunks(ms) + t) == Read(Budgeted(ms, bytesRead + SizeOnDisk(ms)), t)
  {
    hide Chunk, ReadChunk;
    if ms == [] {
      assert Chunks(ms) + t == t;
    } else {
      var init, m := ms[..|ms| - 1], ms[|ms| - 1];
      assert Chunks(ms) + t == Chunks(init) + (Chunk(m) + t) by { AppendAssoc(Chunks(init), Chunk(m), t); }
      ReadChunksBack(limit, bytesRead, init, Chunk(m) + t);
      ReadChunkBack(limit, bytesRead + SizeOnDisk(init), m, t);
      assert init + [m] == ms;
    }
  }

  lemma AppendAssoc(a: Bytes, b: Bytes, c: Bytes)
    ensures (a + b) + c == a + (b + c)
  {
  }

  lemma {:induction false} ReadSectionBack(f: Format, limit: nat, bytesRead: nat, ms: seq<Bytes>, t: Bytes)
    requires bytesRead + SizeOnDisk(ms) <= limit < TWO_32 && BLOCK_HEADER_SIZE <= bytesRead
    ensures ReadSection(|ms|, limit, bytesRead, Section(f, ms) + t) == Read(Budgeted(ms, bytesRead + SizeOnDisk(ms)), t)
  {
    hide LittleEndian, Chunks, ReadChunks, AsU32, ReadU32, SizeOnDisk;
    var sum := LittleEndian(f.crc(Chunks(ms)));
    assert Section(f, ms) + t == Chunks(ms) + (sum + t);
    ReadChunksBack(limit, bytesRead, ms, sum + t);
    ReadU32Back(f.crc(Chunks(ms)), t);
    ChunksLength(ms);
    AsU32Exact(limit);
  }

  lemma FieldsApart(a: Bytes, b: Bytes, c: Bytes, d: Bytes, e: Bytes, g: Bytes, t: Bytes)
    requires |a| == |b| == |c| == |d| == |e| == |g| == 4
    ensures var s := a + b + c + d + e + g + t;
            && s[0..4] == a && s[4..8] == b && s[8..12] == c && s[12..16] == d && s[16..20] == e && s[20..24] == g
            && s[24..] == t
  {
  }

  lemma ReadHeaderBack(h: BlockHeader, t: Bytes)
    requires h.magic == BLOCK_MAGIC && h.version == BLOCK_VERSION
    ensures ReadHeader(HeaderBytes(h) + t) == Read(h, t)
  {
    hide LittleEndian, FromLittleEndian;
    FieldsApart(LittleEndian(h.magic), LittleEndian(h.version), LittleEndian(h.fixedSize),
                LittleEndian(h.receiptsSize), LittleEndian(h.diffsSize), LittleEndian(h.txsSize), t);
    LittleEndianRoundTrip(h.magic);
    LittleEndianRoundTrip(h.version);
    LittleEndianRoundTrip(h.fixedSize);
    LittleEndianRoundTrip(h.receiptsSize);
    LittleEndianRoundTrip(h.diffsSize);
    LittleEndianRoundTrip(h.txsSize);
  }

  /** Decoding an encoded block, whatever follows it, gives the block back, reports the size encode
      reported and leaves exactly what follows. */
  lemma {:induction false} DecodeBack(f: Format, b: Block, t: Bytes)
    requires Encodable(f, b) && CountsMatch(f, b)
    ensures Decode(f, Encoding(f, b) + t) == Read(Sized(b, |Encoding(f, b)|), t)
  {
    hide Section, LittleEndian, HeaderBytes, ReadSection, ReadHeader, ReadU32, SizeOnDisk, TotalSize, HeaderOf;
    EncodableSizes(f, b);
    BodyLength(f, b);
    var s, limit := Encoding(f, b) + t, TotalSize(HeaderOf(b)) + BLOCK_HEADER_SIZE;
    var s4 := LittleEndian(f.crc(Body(f, b))) + t;
    var s3 := Section(f, b.txs) + s4;
    var s2 := Section(f, b.diffs) + s3;
    var s1 := Section(f, b.receipts) + s2;
    var s0 := Section(f, Fixed(b)) + s1;
    BodySplits(HeaderBytes(HeaderOf(b)), Section(f, Fixed(b)), Section(f, b.receipts), Section(f, b.diffs), Section(f, b.txs),
               LittleEndian(f.crc(Body(f, b))), t);
    HeaderIsMarked(b);
    ReadHeaderBack(HeaderOf(b), s0);
    var n := BLOCK_HEADER_SIZE;
    ReadSectionBack(f, limit, n, Fixed(b), s1);
    n := n + SizeOnDisk(Fixed(b));
    ReadSectionBack(f, limit, n, b.receipts, s2);
    n := n + SizeOnDisk(b.receipts);
    ReadSectionBack(f, limit, n, b.diffs, s3);
    n := n + SizeOnDisk(b.diffs);
    ReadSectionBack(f, limit, n, b.txs, s4);
    ReadU32Back(f.crc(Body(f, b)), t);
    assert s[..|s| - |s4|] == Body(f, b);
  }

  lemma HeaderIsMarked(b: Block)
    ensures HeaderOf(b).magic == BLOCK_MAGIC && HeaderOf(b).version == BLOCK_VERSION
  {
  }

  lemma BodySplits(h: Bytes, x: Bytes, r: Bytes, d: Bytes, y: Bytes, sum: Bytes, t: Bytes)
    ensures (h + x + r + d + y + sum) + t == h + (x + (r + (d + (y + (sum + t)))))
    ensures h + x + r + d + y + (sum + t) == (h + x + r + d + y + sum) + t
  {
  }

  // ----- cutting the input short -----

  /** What reading a longer input gives, next to reading its start: the same, with the extra bytes left
      over, unless the shorter input ended too early. */
  predicate Extends<T(==)>(short: Parsed<T>, t: Bytes, long: Parsed<T>)
  {
    match short
    case Read(value, rest) => long == Read(value, rest + t)
    case Invalid => long == Invalid
    case Truncated => true
  }

  lemma ReadU32More(s: Bytes, t: Bytes)
    ensures Extends(ReadU32(s), t, ReadU32(s + t))
  {
    hide FromLittleEndian;
    if |s| >= 4 {
      assert (s + t)[..4] == s[..4];
      assert (s + t)[4..] == s[4..] + t;
    }
  }

  lemma ReadChunkMore(limit: nat, bytesRead: nat, s: Bytes, t: Bytes)
    ensures Extends(ReadChunk(limit, bytesRead, s), t, ReadChunk(limit, bytesRead, s + t))
  {
    hide ReadU32;
    ReadU32More(s, t);
    var n := ReadU32(s);
    if n.Read? && n.value <= |n.rest| {
      assert (n.rest + t)[..n.value] == n.rest[..n.value];
      assert (n.rest + t)[n.value..] == n.rest[n.value..] + t;
    }
  }

  lemma {:induction false} ReadChunksMore(count: nat, limit: nat, bytesRead: nat, s: Bytes, t: Bytes)
    ensures Extends(ReadChunks(count, limit, bytesRead, s), t, ReadChunks(count, limit, bytesRead, s + t))
  {
    hide ReadChunk;
    if count > 0 {
      ReadChunksMore(count - 1, limit, bytesRead, s, t);
      var front := ReadChunks(count - 1, limit, bytesRead, s);
      if front.Read? { ReadChunkMore(limit, front.value.bytesRead, front.rest, t); }
    }
  }

  lemma ReadSectionMore(count: nat, limit: nat, bytesRead: nat, s: Bytes, t: Bytes)
    ensures Extends(ReadSection(count, limit, bytesRead, s), t, ReadSection(count, limit, bytesRead, s + t))
  {
    hide ReadChunks, ReadU32;
    ReadChunksMore(count, limit, bytesRead, s, t);
    var chunks := ReadChunks(count, limit, bytesRead, s);
    if chunks.Read? { ReadU32More(chunks.rest, t); }
  }

  lemma ReadHeaderMore(s: Bytes, t: Bytes)
    ensures Extends(ReadHeader(s), t, ReadHeader(s + t))
  {
    hide FromLittleEndian;
    if |s| >= BLOCK_HEADER_SIZE {
      var r := s + t;
      assert r[0..4] == s[0..4] && r[4..8] == s[4..8] && r[8..12] == s[8..12];
      assert r[12..16] == s[12..16] && r[16..20] == s[16..20] && r[20..24] == s[20..24];
      assert r[BLOCK_HEADER_SIZE..] == s[BLOCK_HEADER_SIZE..] + t;
    }
  }

  lemma {:induction false} DecodeListsMore(f: Format, s: Bytes, limit: nat, fixed: Budgeted<seq<Bytes>>, s1: Bytes, t: Bytes)
    requires |fixed.item| == 5 && |s1| <= |s|
    ensures Extends(DecodeLists(f, s, limit, fixed, s1), t, DecodeLists(f, s + t, limit, fixed, s1 + t))
  {
    hide ReadSection, ReadU32;
    var x := fixed.item;
    ReadSectionMore(f.numReceipts(x[3]), limit, fixed.bytesRead, s1, t);
    var receipts := ReadSection(f.numReceipts(x[3]), limit, fixed.bytesRead, s1);
    if receipts.Read? {
      ReadSectionMore(f.numDiffs(x[3]), limit, receipts.value.bytesRead, receipts.rest, t);
      var diffs := ReadSection(f.numDiffs(x[3]), limit, receipts.value.bytesRead, receipts.rest);
      if diffs.Read? {
        ReadSectionMore(f.numTxs(x[0]), limit, diffs.value.bytesRead, diffs.rest, t);
        var txs := ReadSection(f.numTxs(x[0]), limit, diffs.value.bytesRead, diffs.rest);
        if txs.Read? {
          ReadU32More(txs.rest, t);
          assert (s + t)[..|s + t| - |txs.rest + t|] == s[..|s| - |txs.rest|];
        }
      }
    }
  }

  lemma {:induction false} DecodeMore(f: Format, s: Bytes, t: Bytes)
    ensures Extends(Decode(f, s), t, Decode(f, s + t))
  {
    hide ReadSection, ReadHeader, DecodeLists, TotalSize;
    ReadHeaderMore(s, t);
    var h := ReadHeader(s);
    if h.Read? {
      var limit := TotalSize(h.value) + BLOCK_HEADER_SIZE;
      ReadSectionMore(5, limit, BLOCK_HEADER_SIZE, h.rest, t);
      var fixed := ReadSection(5, limit, BLOCK_HEADER_SIZE, h.rest);
      HeaderShortens(s);
      if fixed.Read? { DecodeListsMore(f, s, limit, fixed.value, fixed.rest, t); }
    }
  }

  lemma HeaderShortens(s: Bytes)
    ensures ReadHeader(s).Read? ==> |ReadHeader(s).rest| <= |s|
  {
  }

  /** Every strict prefix of an encoded block is rejected, and it is rejected because the input ends. */
  lemma {:induction false} StrictPrefixRejected(f: Format, b: Block, cut: nat)
    requires Encodable(f, b) && CountsMatch(f, b)
    requires cut < |Encoding(f, b)|
    ensures Decode(f, Encoding(f, b)[..cut]) == Truncated
  {
    hide Decode, Encoding, Encodable, CountsMatch;
    var e := Encoding(f, b);
    DecodeBack(f, b, []);
    DecodeMore(f, e[..cut], e[cut..]);
    assert e[..cut] + e[cut..] == e == e + [];
  }

  // ----- what a decoded block is -----

  lemma {:induction false} ChunksConsume(count: nat, limit: nat, bytesRead: nat, s: Bytes)
    ensures var r := ReadChunks(count, limit, bytesRead, s);
            r.Read? ==> |s| - |r.rest| == r.value.bytesRead - bytesRead && r.rest == s[|s| - |r.rest|..]
  {
    hide FromLittleEndian;
    if count > 0 { ChunksConsume(count - 1, limit, bytesRead, s); }
  }

  lemma SectionConsumes(count: nat, limit: nat, bytesRead: nat, s: Bytes)
    ensures var r := ReadSection(count, limit, bytesRead, s);
            r.Read? ==> |s| - |r.rest| == r.value.bytesRead - bytesRead + CHECKSUM_SIZE && r.rest == s[|s| - |r.rest|..]
  {
    hide ReadChunks, FromLittleEndian;
    ChunksConsume(count, limit, bytesRead, s);
  }

  lemma HeaderConsumes(s: Bytes)
    ensures ReadHeader(s).Read? ==> |s| >= BLOCK_HEADER_SIZE && ReadHeader(s).rest == s[BLOCK_HEADER_SIZE..]
  {
  }

  /** Whatever the input, a block that decodes has list lengths that match its headers, and the size
      reported for it is exactly what was taken from the input. */
  lemma {:induction false} DecodedBlock(f: Format, s: Bytes)
    ensures var r := Decode(f, s);
            r.Read? ==>
              && CountsMatch(f, r.value.block)
              && BLOCK_HEADER_SIZE <= r.value.size <= |s| && r.rest == s[r.value.size..]
  {
    hide ReadSection, ReadHeader, ReadU32, TotalSize;
    if Decode(f, s).Read? {
      HeaderConsumes(s);
      var h := ReadHeader(s);
      var limit := TotalSize(h.value) + BLOCK_HEADER_SIZE;
      SectionConsumes(5, limit, BLOCK_HEADER_SIZE, h.rest);
      var fixed := ReadSection(5, limit, BLOCK_HEADER_SIZE, h.rest);
      ListsConsume(f, s, limit, fixed.value, fixed.rest);
      SuffixOfSuffix(s, BLOCK_HEADER_SIZE, |h.rest| - |fixed.rest|);
      SuffixOfSuffix(s, |s| - |fixed.rest|, |fixed.rest| - |Decode(f, s).rest|);
    }
  }

  lemma SuffixOfSuffix(s: Bytes, i: nat, j: nat)
    requires i + j <= |s|
    ensures s[i..][j..] == s[i + j..]
  {
  }

  lemma {:induction false} ListsConsume(f: Format, s: Bytes, limit: nat, fixed: Budgeted<seq<Bytes>>, s1: Bytes)
    requires |fixed.item| == 5 && |s1| <= |s|
    ensures var r := DecodeLists(f, s, limit, fixed, s1);
            r.Read? ==>
              && CountsMatch(f, r.value.block)
              && |r.rest| <= |s1|
              && |s1| - |r.rest| == r.value.size - fixed.bytesRead - CHECKSUM_SIZE && r.rest == s1[|s1| - |r.rest|..]
  {
    hide ReadSection, FromLittleEndian;
    var x := fixed.item;
    SectionConsumes(f.numReceipts(x[3]), limit, fixed.bytesRead, s1);
    var receipts := ReadSection(f.numReceipts(x[3]), limit, fixed.bytesRead, s1);
    if receipts.Read? {
      SectionConsumes(f.numDiffs(x[3]), limit, receipts.value.bytesRead, receipts.rest);
      var diffs := ReadSection(f.numDiffs(x[3]), limit, receipts.value.bytesRead, receipts.rest);
      if diffs.Read? {
        SectionConsumes(f.numTxs(x[0]), limit, diffs.value.bytesRead, diffs.rest);
      }
    }
  }

  /** The round trip holds exactly when the headers tell the list lengths. */
  lemma {:induction false} RoundTrip(f: Format, b: Block, t: Bytes)
    requires Encodable(f, b)
    ensures CountsMatch(f, b) <==> Decode(f, Encoding(f, b) + t) == Read(Sized(b, |Encoding(f, b)|), t)
  {
    hide Decode, Encoding, Encodable, CountsMatch;
    if CountsMatch(f, b) {
      DecodeBack(f, b, t);
    } else {
      DecodedBlock(f, Encoding(f, b) + t);
    }
  }
}
