/** What the blocks file holds and what the index over it says, as values: blocks one after another,
    where each starts, and the first block with receipts in each minute.
 */
module BlockFile {
  import opened Basics
  import opened Codec
  import CodecRecords

  const MINUTE_TO_NANO: nat := 60_000_000_000

  /** The codec's format and what the message readers find in headers and receipts. */
  datatype Reading = Reading(
    format: Format, height: Bytes -> nat, txHeight: Bytes -> nat,
    timestamp: Bytes -> U64, txTimestamp: Bytes -> U64, txHash: Bytes -> Bytes)

  function HeightOf(r: Reading, b: Block): nat { r.height(b.rxHeader) }
  function TxHeightOf(r: Reading, b: Block): nat { r.txHeight(b.txHeader) }
  function TimeOf(r: Reading, b: Block): U64 { r.timestamp(b.rxHeader) }
  function TxTimeOf(r: Reading, b: Block): U64 { r.txTimestamp(b.txHeader) }
  function ReceiptCount(r: Reading, b: Block): U32 { r.format.numReceipts(b.rxHeader) }

  /** The minute of a timestamp; 64 bits of nanoseconds are fewer minutes than 32 bits count. */
  function BucketKey(nano: U64): (r: U32)
    ensures r == nano / MINUTE_TO_NANO && r < 0xffff_ffff
  {
    AsU32(nano / MINUTE_TO_NANO)
  }

  // ----- blocks one after another -----

  function Encodings(f: Format, bs: seq<Block>): Bytes
  {
    if bs == [] then [] else Encoding(f, bs[0]) + Encodings(f, bs[1..])
  }

  function SizedAll(f: Format, bs: seq<Block>): (r: seq<Sized>)
    ensures |r| == |bs| && forall i | 0 <= i < |bs| :: r[i] == Sized(bs[i], |Encoding(f, bs[i])|)
  {
    seq(|bs|, i requires 0 <= i < |bs| => Sized(bs[i], |Encoding(f, bs[i])|))
  }

  ghost predicate Storable(f: Format, bs: seq<Block>)
  {
    forall i | 0 <= i < |bs| :: Encodable(f, bs[i]) && CountsMatch(f, bs[i])
  }

  function Total(bs: seq<Sized>): nat
  {
    if bs == [] then 0 else Total(bs[..|bs| - 1]) + bs[|bs| - 1].size
  }

  lemma {:induction false} EncodingsSnoc(f: Format, bs: seq<Block>, b: Block)
    ensures Encodings(f, bs + [b]) == Encodings(f, bs) + Encoding(f, b)
  {
    hide Encoding;
    if bs == [] {
      assert bs + [b] == [b];
      assert Encodings(f, [b]) == Encoding(f, b) + [] == Encoding(f, b) == [] + Encoding(f, b);
    } else {
      EncodingsSnoc(f, bs[1..], b);
      assert (bs + [b])[1..] == bs[1..] + [b];
      AppendAssoc(Encoding(f, bs[0]), Encodings(f, bs[1..]), Encoding(f, b));
    }
  }

  lemma {:induction false} EncodingsSplit(f: Format, bs: seq<Block>, k: nat)
    requires k <= |bs|
    ensures Encodings(f, bs) == Encodings(f, bs[..k]) + Encodings(f, bs[k..])
  {
    hide Encoding;
    if k == 0 {
      assert bs[0..] == bs;
    } else {
      EncodingsSplit(f, bs[1..], k - 1);
      assert bs[..k][1..] == bs[1..][..k - 1] && bs[k..] == bs[1..][k - 1..];
      AppendAssoc(Encoding(f, bs[0]), Encodings(f, bs[..k][1..]), Encodings(f, bs[k..]));
    }
  }

  lemma {:induction false} TotalIsLength(f: Format, bs: seq<Block>)
    ensures Total(SizedAll(f, bs)) == |Encodings(f, bs)|
  {
    hide Encoding;
    if bs != [] {
      var init, b := bs[..|bs| - 1], bs[|bs| - 1];
      TotalIsLength(f, init);
      EncodingsSnoc(f, init, b);
      assert init + [b] == bs;
      assert SizedAll(f, bs)[..|bs| - 1] == SizedAll(f, init);
    }
  }

  // ----- decoding until it fails -----

  /** The blocks decoded one after another until decoding fails. */
  function DecodeAll(f: Format, s: Bytes): seq<Sized>
    decreases |s|
  {
    var d := Decode(f, s);
    if d.Read? then
      DecodedBlock(f, s);
      [d.value] + DecodeAll(f, d.rest)
    else []
  }

  /** Each block takes up the bytes of a record of it, and of no other block, right behind those of the block before it. */
  ghost predicate Records(f: Format, s: Bytes, bs: seq<Sized>)
  {
    bs != [] ==>
      && bs[0].size <= |s| && CodecRecords.IsRecord(f, s[..bs[0].size], bs[0].block)
      && Records(f, s[bs[0].size..], bs[1..])
  }

  /** What decodes is a run of records with right checksums, up to the first bytes that are no record. */
  lemma {:induction false} DecodeAllExact(f: Format, s: Bytes, bs: seq<Sized>)
    ensures bs == DecodeAll(f, s) <==> Records(f, s, bs) && Taken(bs) <= |s| && !Decode(f, s[Taken(bs)..]).Read?
    decreases |bs|
  {
    hide Decode;
    DecodedBlock(f, s);
    var d := Decode(f, s);
    if bs == [] {
      assert s[0..] == s;
    } else {
      if bs[0].size <= |s| {
        CodecRecords.DecodeExact(f, s, bs[0].block, bs[0].size);
        DecodeAllExact(f, s[bs[0].size..], bs[1..]);
        if Taken(bs) <= |s| { assert s[bs[0].size..][Taken(bs[1..])..] == s[Taken(bs)..]; }
      }
    }
  }

  function Taken(bs: seq<Sized>): nat
  {
    if bs == [] then 0 else bs[0].size + Taken(bs[1..])
  }

  /** The bytes of the i-th of the blocks. */
  ghost predicate CheckedAt(f: Format, s: Bytes, bs: seq<Sized>, i: nat)
    requires i < |bs|
  {
    var start := Taken(bs[..i]);
    start + bs[i].size <= |s| && CodecRecords.Checked(f, s[start..start + bs[i].size])
  }

  lemma {:induction false} RecordsChecked(f: Format, s: Bytes, bs: seq<Sized>, i: nat)
    requires Records(f, s, bs) && i < |bs|
    ensures CheckedAt(f, s, bs, i)
  {
    hide CodecRecords.Checked, CodecRecords.IsRecord;
    CodecRecords.RecordIsChecked(f, s[..bs[0].size], bs[0].block);
    if i > 0 {
      var rest, start := s[bs[0].size..], Taken(bs[1..][..i - 1]);
      RecordsChecked(f, rest, bs[1..], i - 1);
      assert bs[..i][1..] == bs[1..][..i - 1];
      assert rest[start..start + bs[i].size] == s[bs[0].size + start..bs[0].size + start + bs[i].size];
    }
  }

  /** Decoding stopped because the input ended, not because of what it holds. */
  predicate EndsClean(f: Format, s: Bytes)
    decreases |s|
  {
    var d := Decode(f, s);
    if d.Read? then
      DecodedBlock(f, s);
      EndsClean(f, d.rest)
    else d.Truncated?
  }

  lemma {:induction false} DecodeStored(f: Format, bs: seq<Block>, t: Bytes)
    requires Storable(f, bs)
    ensures DecodeAll(f, Encodings(f, bs) + t) == SizedAll(f, bs) + DecodeAll(f, t)
    ensures EndsClean(f, Encodings(f, bs) + t) == EndsClean(f, t)
  {
    hide Decode, Encoding, Encodable, CountsMatch;
    if bs == [] {
      assert Encodings(f, bs) + t == t;
    } else {
      AppendAssoc(Encoding(f, bs[0]), Encodings(f, bs[1..]), t);
      DecodeBack(f, bs[0], Encodings(f, bs[1..]) + t);
      DecodeStored(f, bs[1..], t);
      assert SizedAll(f, bs) == [Sized(bs[0], |Encoding(f, bs[0])|)] + SizedAll(f, bs[1..]);
    }
  }

  /** How many of the blocks are complete in the first cut bytes. */
  function Complete(f: Format, bs: seq<Block>, cut: nat): (k: nat)
    ensures k <= |bs|
  {
    if bs == [] || cut < |Encoding(f, bs[0])| then 0 else 1 + Complete(f, bs[1..], cut - |Encoding(f, bs[0])|)
  }

  /** The count is right: that many blocks end at or before the cut, and the next one does not. */
  lemma {:induction false} CompleteExact(f: Format, bs: seq<Block>, cut: nat)
    requires cut <= |Encodings(f, bs)|
    ensures var k := Complete(f, bs, cut);
            && |Encodings(f, bs[..k])| <= cut
            && (k < |bs| ==> cut < |Encodings(f, bs[..k + 1])|)
            && (k == |bs| ==> cut == |Encodings(f, bs)|)
  {
    hide Encoding;
    if bs != [] && |Encoding(f, bs[0])| <= cut {
      CompleteExact(f, bs[1..], cut - |Encoding(f, bs[0])|);
      var k := Complete(f, bs, cut);
      assert bs[..k][1..] == bs[1..][..k - 1];
      assert k < |bs| ==> bs[..k + 1][1..] == bs[1..][..k];
      assert bs[..|bs|] == bs;
    } else {
      assert bs[..0] == [];
      if bs != [] {
        assert bs[..1] == [bs[0]];
        assert Encodings(f, bs[..1]) == Encoding(f, bs[0]) + [];
      }
    }
  }

  /** Decoding a file of blocks cut at any byte gives exactly the blocks complete before the cut. */
  lemma {:induction false} DecodeCut(f: Format, bs: seq<Block>, cut: nat)
    requires Storable(f, bs) && cut <= |Encodings(f, bs)|
    ensures DecodeAll(f, Encodings(f, bs)[..cut]) == SizedAll(f, bs[..Complete(f, bs, cut)])
    ensures EndsClean(f, Encodings(f, bs)[..cut])
  {
    hide Decode, Encoding, Encodable, CountsMatch;
    if bs == [] {
      DecodeNothing(f);
    } else {
      var e, more := Encoding(f, bs[0]), Encodings(f, bs[1..]);
      if cut < |e| {
        assert (e + more)[..cut] == e[..cut];
        StrictPrefixRejected(f, bs[0], cut);
      } else {
        assert (e + more)[..cut] == e + more[..cut - |e|];
        DecodeBack(f, bs[0], more[..cut - |e|]);
        DecodeCut(f, bs[1..], cut - |e|);
        var k := Complete(f, bs, cut);
        assert bs[..k] == [bs[0]] + bs[1..][..k - 1];
        assert SizedAll(f, bs[..k]) == [Sized(bs[0], |e|)] + SizedAll(f, bs[1..][..k - 1]);
      }
    }
  }

  /** The bytes that a cut leaves behind the complete blocks end too early for another block. */
  lemma {:induction false} CutLeavesUnfinished(f: Format, bs: seq<Block>, cut: nat)
    requires Storable(f, bs) && cut <= |Encodings(f, bs)|
    ensures var done := Encodings(f, bs[..Complete(f, bs, cut)]);
            |done| <= cut && Decode(f, Encodings(f, bs)[..cut][|done|..]) == Truncated
  {
    hide Decode, Encoding, Encodable, CountsMatch, DecodeAll, Encodings;
    var k := Complete(f, bs, cut);
    var s, done := Encodings(f, bs)[..cut], Encodings(f, bs[..k]);
    CompleteExact(f, bs, cut);
    EncodingsSplit(f, bs, k);
    assert s == done + s[|done|..];
    DecodeCut(f, bs, cut);
    DecodeStored(f, bs[..k], s[|done|..]);
    NothingMore(f, s[|done|..], SizedAll(f, bs[..k]));
  }

  lemma NothingMore(f: Format, tail: Bytes, before: seq<Sized>)
    requires before + DecodeAll(f, tail) == before && EndsClean(f, tail)
    ensures Decode(f, tail) == Truncated
  {
    hide Decode;
    assert |before + DecodeAll(f, tail)| == |before| + |DecodeAll(f, tail)|;
  }

  lemma DecodeNothing(f: Format)
    ensures Decode(f, []) == Truncated
  {
  }
}
