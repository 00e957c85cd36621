/** encode and decode as they run: writers that keep a checksum and a byte count, a reader that keeps
    a checksum of what it has passed on, and a budget that every chunk is charged to. The checksum
    objects are modelled by the bytes they have been given.
 */
module CodecStreams {
  import opened Basics
  import opened Digests
  import opened Codec

  // ----- writing -----

  class Sink {
    var written: Bytes

    constructor ()
      ensures written == []
    {
      written := [];
    }

    method Write(p: Bytes)
      modifies this
      ensures written == old(written) + p
    {
      written := written + p;
    }
  }

  /** The writer of a whole block. */
  class ChecksumWriter {
    const w: Sink
    var summed: Bytes
    var bytesWritten: nat

    constructor (w: Sink)
      ensures this.w == w && summed == [] && bytesWritten == 0
    {
      this.w, summed, bytesWritten := w, [], 0;
    }

    method Write(p: Bytes)
      modifies this, w
      ensures summed == old(summed) + p
      ensures bytesWritten == old(bytesWritten) + |p|
      ensures w.written == old(w.written) + p
    {
      summed := summed + p;
      w.Write(p);
      bytesWritten := bytesWritten + |p|;
    }
  }

  /** The writer of a section, on top of the writer of the block. */
  class SectionWriter {
    const w: ChecksumWriter
    var summed: Bytes

    constructor (w: ChecksumWriter)
      ensures this.w == w && summed == []
    {
      this.w, summed := w, [];
    }

    method Write(p: Bytes)
      modifies this, w, w.w
      ensures summed == old(summed) + p
      ensures Wrote(w, old(w.summed), old(w.bytesWritten), old(w.w.written), p)
    {
      summed := summed + p;
      w.Write(p);
    }

    method WriteMessage(m: Bytes)
      modifies this, w, w.w
      ensures summed == old(summed) + Chunk(m)
      ensures Wrote(w, old(w.summed), old(w.bytesWritten), old(w.w.written), Chunk(m))
    {
      hide LittleEndian, AsU32;
      Write(LittleEndian(AsU32(|m|)));
      Write(m);
      AppendAssoc(old(summed), LittleEndian(AsU32(|m|)), m);
      AppendAssoc(old(w.summed), LittleEndian(AsU32(|m|)), m);
      AppendAssoc(old(w.w.written), LittleEndian(AsU32(|m|)), m);
    }
  }

  /** The block writer and what is below it have taken p since they held what is given. */
  ghost predicate Wrote(w: ChecksumWriter, summed: Bytes, bytesWritten: nat, written: Bytes, p: Bytes)
    reads w, w.w
  {
    && w.summed == summed + p
    && w.bytesWritten == bytesWritten + |p|
    && w.w.written == written + p
  }

  lemma WroteMore(summed: Bytes, written: Bytes, p: Bytes, q: Bytes)
    ensures summed + p + q == summed + (p + q) && written + p + q == written + (p + q)
  {
  }

  method WriteDynamicSection(f: Format, w: ChecksumWriter, ms: seq<Bytes>)
    modifies w, w.w
    ensures Wrote(w, old(w.summed), old(w.bytesWritten), old(w.w.written), Section(f, ms))
  {
    hide Chunk, LittleEndian;
    var section := new SectionWriter(w);
    for i := 0 to |ms|
      invariant section.summed == Chunks(ms[..i])
      invariant Wrote(w, old(w.summed), old(w.bytesWritten), old(w.w.written), Chunks(ms[..i]))
    {
      section.WriteMessage(ms[i]);
      assert ms[..i + 1] == ms[..i] + [ms[i]];
      ChunksSnoc(ms[..i], ms[i]);
      WroteMore(old(w.summed), old(w.w.written), Chunks(ms[..i]), Chunk(ms[i]));
    }
    assert ms[..|ms|] == ms;
    w.Write(LittleEndian(f.crc(section.summed)));
    WroteMore(old(w.summed), old(w.w.written), Chunks(ms), LittleEndian(f.crc(Chunks(ms))));
  }

  method WriteFixedSection(f: Format, w: ChecksumWriter, b: Block)
    modifies w, w.w
    ensures Wrote(w, old(w.summed), old(w.bytesWritten), old(w.w.written), Section(f, Fixed(b)))
  {
    hide Chunk, LittleEndian;
    var section := new SectionWriter(w);
    section.WriteMessage(b.txHeader);
    section.WriteMessage(b.txMetadata);
    section.WriteMessage(b.txProof);
    section.WriteMessage(b.rxHeader);
    section.WriteMessage(b.rxProof);
    ghost var all := Chunk(b.txHeader) + Chunk(b.txMetadata) + Chunk(b.txProof) + Chunk(b.rxHeader) + Chunk(b.rxProof);
    FixedChunks(b);
    FiveParts(old(w.summed), Chunk(b.txHeader), Chunk(b.txMetadata), Chunk(b.txProof), Chunk(b.rxHeader), Chunk(b.rxProof));
    FiveParts(old(w.w.written), Chunk(b.txHeader), Chunk(b.txMetadata), Chunk(b.txProof), Chunk(b.rxHeader), Chunk(b.rxProof));
    FiveParts([], Chunk(b.txHeader), Chunk(b.txMetadata), Chunk(b.txProof), Chunk(b.rxHeader), Chunk(b.rxProof));
    assert section.summed == Chunks(Fixed(b));
    w.Write(LittleEndian(f.crc(section.summed)));
    WroteMore(old(w.summed), old(w.w.written), all, LittleEndian(f.crc(all)));
  }

  lemma FiveParts(s: Bytes, a: Bytes, b: Bytes, c: Bytes, d: Bytes, e: Bytes)
    ensures s + a + b + c + d + e == s + (a + b + c + d + e)
    ensures [] + (a + b + c + d + e) == a + b + c + d + e
  {
  }

  /** The sum of the chunk sizes of a list, one header field. */
  method AddSizes(ms: seq<Bytes>) returns (size: U32)
    ensures size == SizeField(ms)
  {
    hide AsU32;
    size := 0;
    for i := 0 to |ms|
      invariant size == SizeField(ms[..i])
    {
      size := AsU32(size + DiskChunkSize(ms[i]));
      assert ms[..i + 1][..i] == ms[..i];
    }
    assert ms[..|ms|] == ms;
  }

  /** The body is written before the limit is checked; a block over it is an error, with the body
      already written. */
  method Encode(f: Format, b: Block, w: Sink) returns (n: nat, ok: bool)
    modifies w
    ensures ok <==> Encodable(f, b)
    ensures ok <==> |Body(f, b)| <= f.maxBlockSize
    ensures ok ==> n == |Encoding(f, b)| && w.written == old(w.written) + Encoding(f, b)
    ensures !ok ==> n == 0 && w.written == old(w.written) + Body(f, b)
  {
    hide Section, LittleEndian, HeaderBytes, TotalSize, AsU32, SizeField, BodySize;
    var fixedSize := AddSizes(Fixed(b));
    var receiptsSize := AddSizes(b.receipts);
    var diffsSize := AddSizes(b.diffs);
    var txsSize := AddSizes(b.txs);
    var header := BlockHeader(BLOCK_MAGIC, BLOCK_VERSION, fixedSize, receiptsSize, diffsSize, txsSize);
    var full := new ChecksumWriter(w);
    full.Write(HeaderBytes(header));
    WriteFixedSection(f, full, b);
    WriteDynamicSection(f, full, b.receipts);
    WriteDynamicSection(f, full, b.diffs);
    WriteDynamicSection(f, full, b.txs);
    FiveParts(old(w.written), HeaderBytes(header), Section(f, Fixed(b)), Section(f, b.receipts), Section(f, b.diffs), Section(f, b.txs));
    FiveParts([], HeaderBytes(header), Section(f, Fixed(b)), Section(f, b.receipts), Section(f, b.diffs), Section(f, b.txs));
    assert full.summed == Body(f, b);
    BodyLength(f, b);
    if full.bytesWritten > f.maxBlockSize { return 0, false; }
    w.Write(LittleEndian(f.crc(full.summed)));
    AppendAssoc(old(w.written), Body(f, b), LittleEndian(f.crc(Body(f, b))));
    EncodableSizes(f, b);
    return BLOCK_HEADER_SIZE + TotalSize(header) + CHECKSUM_SIZE * 5, true;
  }

  // ----- reading -----

  class Source {
    var rest: Bytes

    constructor (rest: Bytes)
      ensures this.rest == rest
    {
      this.rest := rest;
    }

    method ReadFull(n: nat) returns (p: Option<Bytes>)
      modifies this
      ensures p.Some? <==> n <= |old(rest)|
      ensures p.Some? ==> p.value == old(rest)[..n] && rest == old(rest)[n..]
    {
      if |rest| < n {
        rest := [];
        return None;
      }
      p := Some(rest[..n]);
      rest := rest[n..];
    }
  }

  /** Passes on what it reads and keeps the checksum of it. */
  class TeeReader {
    const r: Source
    var summed: Bytes

    constructor (r: Source)
      ensures this.r == r && summed == []
    {
      this.r, summed := r, [];
    }

    /** What has been passed on and what is still to come. */
    ghost function Whole(): Bytes
      reads this, r
    {
      summed + r.rest
    }

    method ReadFull(n: nat) returns (p: Option<Bytes>)
      modifies this, r
      ensures p.Some? <==> n <= |old(r.rest)|
      ensures p.Some? ==> p.value == old(r.rest)[..n] && r.rest == old(r.rest)[n..] && Whole() == old(Whole())
    {
      ghost var before := r.rest;
      p := r.ReadFull(n);
      if p.Some? {
        summed := summed + p.value;
        assert before == before[..n] + before[n..];
        AppendAssoc(old(summed), before[..n], before[n..]);
      }
    }
  }

  class ReadingBudget {
    const limit: nat
    var bytesRead: nat

    constructor (limit: nat, bytesRead: nat)
      ensures this.limit == limit && this.bytesRead == bytesRead
    {
      this.limit, this.bytesRead := limit, bytesRead;
    }
  }

  datatype Outcome<+T> = Got(value: T) | EndOfInput | Malformed

  /** What a reader returned, next to what reading the same input as a value gives. */
  predicate Matches<T(==)>(o: Outcome<T>, p: Parsed<T>)
  {
    match p
    case Read(value, _) => o == Got(value)
    case Truncated => o == EndOfInput
    case Invalid => o == Malformed
  }

  /** The same for a reader that charges a budget. */
  predicate MatchesBudgeted<T(==)>(o: Outcome<T>, bytesRead: nat, p: Parsed<Budgeted<T>>)
  {
    match p
    case Read(value, _) => o == Got(value.item) && bytesRead == value.bytesRead
    case Truncated => o == EndOfInput
    case Invalid => o == Malformed
  }

  method ReadNumber(tr: TeeReader) returns (o: Outcome<U32>)
    modifies tr, tr.r
    ensures Matches(o, ReadU32(old(tr.r.rest)))
    ensures o.Got? ==> tr.r.rest == ReadU32(old(tr.r.rest)).rest && tr.Whole() == old(tr.Whole())
  {
    hide FromLittleEndian;
    var p := tr.ReadFull(4);
    if p.None? { return EndOfInput; }
    o := Got(FromLittleEndian(p.value));
  }

  method ReadOneChunk(tr: TeeReader, budget: ReadingBudget) returns (o: Outcome<Bytes>)
    modifies tr, tr.r, budget
    ensures MatchesBudgeted(o, budget.bytesRead, ReadChunk(budget.limit, old(budget.bytesRead), old(tr.r.rest)))
    ensures o.Got? ==>
              && tr.r.rest == ReadChunk(budget.limit, old(budget.bytesRead), old(tr.r.rest)).rest
              && tr.Whole() == old(tr.Whole())
  {
    hide ReadU32;
    var length := ReadNumber(tr);
    if !length.Got? { return EndOfInput; }
    budget.bytesRead := budget.bytesRead + CHUNK_LENGTH_SIZE;
    if budget.limit < budget.bytesRead + length.value { return Malformed; }
    var p := tr.ReadFull(length.value);
    if p.None? { return EndOfInput; }
    budget.bytesRead := budget.bytesRead + |p.value|;
    o := Got(p.value);
  }

  method ReadDynamicSection(tr: TeeReader, budget: ReadingBudget, count: U32) returns (o: Outcome<seq<Bytes>>)
    modifies tr, tr.r, budget
    ensures MatchesBudgeted(o, budget.bytesRead, ReadSection(count, budget.limit, old(budget.bytesRead), old(tr.r.rest)))
    ensures o.Got? ==>
              && tr.r.rest == ReadSection(count, budget.limit, old(budget.bytesRead), old(tr.r.rest)).rest
              && tr.Whole() == old(tr.Whole())
  {
    hide ReadChunk, ReadU32, AsU32;
    if AsU32(budget.limit) < count { return Malformed; }
    var chunks: seq<Bytes> := [];
    ghost var start, from := tr.r.rest, budget.bytesRead;
    for i := 0 to count
      invariant ReadChunks(i, budget.limit, from, start) == Read(Budgeted(chunks, budget.bytesRead), tr.r.rest)
      invariant tr.Whole() == old(tr.Whole())
    {
      var chunk := ReadOneChunk(tr, budget);
      if !chunk.Got? {
        StaysUnread(count, i + 1, budget.limit, from, start);
        return if chunk.EndOfInput? then EndOfInput else Malformed;
      }
      chunks := chunks + [chunk.value];
    }
    var sum := ReadNumber(tr);
    if !sum.Got? { return EndOfInput; }
    o := Got(chunks);
  }

  /** A failure part of the way is the failure of the whole. */
  lemma {:induction false} StaysUnread(count: nat, i: nat, limit: nat, bytesRead: nat, s: Bytes)
    requires i <= count && !ReadChunks(i, limit, bytesRead, s).Read?
    ensures ReadChunks(count, limit, bytesRead, s) == ReadChunks(i, limit, bytesRead, s)
    decreases count
  {
    hide ReadChunk;
    if i < count { StaysUnread(count - 1, i, limit, bytesRead, s); }
  }

  method Decode(f: Format, r: Source) returns (o: Outcome<Sized>)
    modifies r
    ensures Matches(o, Codec.Decode(f, old(r.rest)))
    ensures o.Got? ==> r.rest == Codec.Decode(f, old(r.rest)).rest
  {
    hide ReadSection, FromLittleEndian, TotalSize, ReadU32, AsU32;
    ghost var s := r.rest;
    var tr := new TeeReader(r);
    assert tr.Whole() == s;
    var headerBytes := tr.ReadFull(BLOCK_HEADER_SIZE);
    if headerBytes.None? { return EndOfInput; }
    HeaderFromStart(s);
    var parsed := ReadHeader(headerBytes.value);
    if !parsed.Read? { return Malformed; }
    var budget := new ReadingBudget(TotalSize(parsed.value) + BLOCK_HEADER_SIZE, BLOCK_HEADER_SIZE);
    if budget.limit > f.maxBlockSize { return Malformed; }
    var fixed := ReadDynamicSection(tr, budget, 5);
    if !fixed.Got? { return if fixed.EndOfInput? then EndOfInput else Malformed; }
    var x := fixed.value;
    o := DecodeRest(f, tr, budget, x, s);
  }

  lemma HeaderFromStart(s: Bytes)
    requires |s| >= BLOCK_HEADER_SIZE
    ensures var h := ReadHeader(s[..BLOCK_HEADER_SIZE]);
            if h.Read? then ReadHeader(s) == Read(h.value, s[BLOCK_HEADER_SIZE..]) else h == Invalid == ReadHeader(s)
  {
    hide FromLittleEndian;
    ReadHeaderMore(s[..BLOCK_HEADER_SIZE], s[BLOCK_HEADER_SIZE..]);
    assert s[..BLOCK_HEADER_SIZE] + s[BLOCK_HEADER_SIZE..] == s;
  }

  method DecodeRest(f: Format, tr: TeeReader, budget: ReadingBudget, x: seq<Bytes>, ghost s: Bytes) returns (o: Outcome<Sized>)
    requires |x| == 5 && tr.Whole() == s
    modifies tr, tr.r, budget
    ensures Matches(o, DecodeLists(f, s, budget.limit, Budgeted(x, old(budget.bytesRead)), old(tr.r.rest)))
    ensures o.Got? ==> tr.r.rest == DecodeLists(f, s, budget.limit, Budgeted(x, old(budget.bytesRead)), old(tr.r.rest)).rest
  {
    hide ReadSection, FromLittleEndian, AsU32;
    var receipts := ReadDynamicSection(tr, budget, f.numReceipts(x[3]));
    if !receipts.Got? { return if receipts.EndOfInput? then EndOfInput else Malformed; }
    var diffs := ReadDynamicSection(tr, budget, f.numDiffs(x[3]));
    if !diffs.Got? { return if diffs.EndOfInput? then EndOfInput else Malformed; }
    var txs := ReadDynamicSection(tr, budget, f.numTxs(x[0]));
    if !txs.Got? { return if txs.EndOfInput? then EndOfInput else Malformed; }
    if budget.bytesRead != budget.limit { return Malformed; }
    assert tr.summed == s[..|s| - |tr.r.rest|];
    var sum := tr.r.ReadFull(CHECKSUM_SIZE);
    if sum.None? { return EndOfInput; }
    if FromLittleEndian(sum.value) != f.crc(tr.summed) { return Malformed; }
    o := Got(Sized(Block(x[0], x[1], x[2], x[3], x[4], receipts.value, diffs.value, txs.value),
                   budget.bytesRead + 5 * CHECKSUM_SIZE));
  }
}
