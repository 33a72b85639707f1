/** The integer half of the codec end to end: the quantised 8x8 blocks of the three
    channels through the zigzag scan, the DC predictor, the run-length coder and the
    symbol stream of `compress_jpeg`, and back through `read_all_blocks`,
    `rle_to_blocks`, `delta_decoding` and the inverse scan of `blocks_to_pixels`. The
    run-length coder is the corrected one, which always ends a short block with an
    EOB; the code as written agrees with it on every block it already terminates. */
module Pipeline {
  import opened Base
  import opened BitIo
  import opened RunLength
  import opened Huffman
  import opened ZigZag
  import opened DcPredictor
  import opened Compressor
  import opened Decompressor

  /** Every block read back: the pointers `read_all_blocks` stores are all non-NULL. */
  function AllSome<T>(s: seq<T>): (r: seq<Option<T>>)
    ensures |r| == |s| && forall i | 0 <= i < |s| :: r[i] == Some(s[i])
  {
    seq(|s|, i requires 0 <= i < |s| => Some(s[i]))
  }

  predicate AllEncodable(dc: seq<DcCode>, ac: seq<AcCode>, blocks: seq<seq<RleCoef>>)
  {
    forall i | 0 <= i < |blocks| :: Encodable(dc, ac, blocks[i])
  }

  /** A channel of blocks the tables can code and read back. */
  predicate EncodableChannel(dc: seq<DcCode>, ac: seq<AcCode>, blocks: seq<seq<RleCoef>>)
  {
    ValidTables(dc, ac) && AllEncodable(dc, ac, blocks)
  }

  lemma {:induction false} EncodableWritable(dc: seq<DcCode>, ac: seq<AcCode>, blocks: seq<seq<RleCoef>>)
    requires AllEncodable(dc, ac, blocks)
    ensures HasDcEntries(dc, blocks)
  {
  }

  // ---------------------------------------------------------------------------
  // The symbol stream

  /** Chunks of bits one after the other. */
  function Concat(cs: seq<seq<bool>>): seq<bool>
    decreases |cs|
  {
    if cs == [] then [] else cs[0] + Concat(cs[1..])
  }

  /** When chunk k reads back as block k whatever follows it, the chunks one after the
      other read back as the blocks, and the reader stops where the bits that follow
      begin. */
  lemma {:induction false} ReadManyConcat(read: seq<bool> -> Parsed, cs: seq<seq<bool>>, outs: seq<seq<RleCoef>>, more: seq<bool>)
    requires |cs| == |outs|
    requires forall k, after | 0 <= k < |cs| :: read(cs[k] + after) == Parsed(Some(outs[k]), after)
    ensures ReadMany(read, Concat(cs) + more, |cs|) == ChannelRead(AllSome(outs), more)
    decreases |cs|
  {
    if cs != [] {
      forall k, after | 0 <= k < |cs| - 1
        ensures read(cs[1..][k] + after) == Parsed(Some(outs[1..][k]), after)
      {
        assert cs[1..][k] == cs[k + 1] && outs[1..][k] == outs[k + 1];
      }
      ReadManyConcat(read, cs[1..], outs[1..], more);
      var tail := Concat(cs[1..]);
      AppendAssoc(cs[0], tail, more);
      assert read(cs[0] + (tail + more)) == Parsed(Some(outs[0]), tail + more);
      assert AllSome(outs) == [Some(outs[0])] + AllSome(outs[1..]);
    }
  }

  /** The bits `write_channel_blocks` writes for each block of a channel. */
  function Chunks(dc: seq<DcCode>, ac: seq<AcCode>, blocks: seq<seq<RleCoef>>): (cs: seq<seq<bool>>)
    requires HasDcEntries(dc, blocks)
    ensures |cs| == |blocks| && forall k | 0 <= k < |blocks| :: cs[k] == BlockBits(dc, ac, blocks[k]).bits
  {
    seq(|blocks|, k requires 0 <= k < |blocks| => BlockBits(dc, ac, blocks[k]).bits)
  }

  /** When every block is written in full, the channel from block i on is the blocks'
      bits one after the other. */
  lemma {:induction false} ChannelBitsChunks(dc: seq<DcCode>, ac: seq<AcCode>, blocks: seq<seq<RleCoef>>, i: nat)
    requires HasDcEntries(dc, blocks) && i <= |blocks|
    requires forall k | 0 <= k < |blocks| :: BlockBits(dc, ac, blocks[k]).complete
    ensures ChannelBitsFrom(dc, ac, blocks, i) == Emit(Concat(Chunks(dc, ac, blocks)[i..]), true)
    decreases |blocks| - i
  {
    var cs := Chunks(dc, ac, blocks);
    if i < |blocks| {
      ChannelBitsChunks(dc, ac, blocks, i + 1);
      assert cs[i..][0] == cs[i] && cs[i..][1..] == cs[i + 1..];
    } else {
      assert cs[i..] == [];
    }
  }

  /** Block k of a channel of encodable blocks reads back as itself, whatever follows
      it. */
  lemma {:induction false} ChunkReadBack(dc: seq<DcCode>, ac: seq<AcCode>, blocks: seq<seq<RleCoef>>, k: nat, after: seq<bool>)
    requires EncodableChannel(dc, ac, blocks) && k < |blocks|
    ensures HasDcEntries(dc, blocks)
    ensures Reader(dc, ac)(Chunks(dc, ac, blocks)[k] + after) == Parsed(Some(blocks[k]), after)
  {
    EncodableWritable(dc, ac, blocks);
    BlockRoundTrip(dc, ac, blocks[k], after);
    assert Chunks(dc, ac, blocks)[k] == BlockBits(dc, ac, blocks[k]).bits;
  }

  /** Each block of a channel of encodable blocks is written in full and reads back as
      itself, whatever follows it. */
  lemma {:induction false} ChunksReadBack(dc: seq<DcCode>, ac: seq<AcCode>, blocks: seq<seq<RleCoef>>)
    requires EncodableChannel(dc, ac, blocks)
    ensures HasDcEntries(dc, blocks)
    ensures forall k | 0 <= k < |blocks| :: BlockBits(dc, ac, blocks[k]).complete
    ensures forall k, after | 0 <= k < |blocks| ::
      Reader(dc, ac)(Chunks(dc, ac, blocks)[k] + after) == Parsed(Some(blocks[k]), after)
  {
    EncodableWritable(dc, ac, blocks);
    forall k | 0 <= k < |blocks|
      ensures BlockBits(dc, ac, blocks[k]).complete
    {
      BlockRoundTrip(dc, ac, blocks[k], []);
    }
    forall k, after | 0 <= k < |blocks|
      ensures Reader(dc, ac)(Chunks(dc, ac, blocks)[k] + after) == Parsed(Some(blocks[k]), after)
    {
      ChunkReadBack(dc, ac, blocks, k, after);
    }
  }

  /** A channel of encodable blocks reads back block for block. */
  lemma {:induction false} ChannelRoundTrip(dc: seq<DcCode>, ac: seq<AcCode>, blocks: seq<seq<RleCoef>>, more: seq<bool>)
    requires EncodableChannel(dc, ac, blocks)
    ensures HasDcEntries(dc, blocks)
    ensures ChannelBits(dc, ac, blocks).complete
    ensures ReadChannel(dc, ac, ChannelBits(dc, ac, blocks).bits + more, |blocks|) == ChannelRead(AllSome(blocks), more)
  {
    ChunksReadBack(dc, ac, blocks);
    var cs := Chunks(dc, ac, blocks);
    ChannelBitsChunks(dc, ac, blocks, 0);
    assert cs[0..] == cs;
    ReadManyConcat(Reader(dc, ac), cs, blocks, more);
  }

  /** The file `compress_jpeg` writes after the headers reads back, in
      `read_all_blocks`, as the three channels it was written from, when every block is
      encodable and each channel has the same number n of blocks. */
  lemma {:induction false} StreamRoundTrip(dc: seq<DcCode>, ac: seq<AcCode>, ch: Channels, n: nat)
    requires EncodableChannel(dc, ac, ch.y) && EncodableChannel(dc, ac, ch.cb) && EncodableChannel(dc, ac, ch.cr)
    requires |ch.y| == n && |ch.cb| == n && |ch.cr| == n
    ensures Writable(dc, ch)
    ensures ReadAll(dc, ac, BytesToBits(PayloadBytes(dc, ac, ch)), n) == RleBlocks(AllSome(ch.y), AllSome(ch.cb), AllSome(ch.cr))
  {
    EncodableWritable(dc, ac, ch.y);
    EncodableWritable(dc, ac, ch.cb);
    EncodableWritable(dc, ac, ch.cr);
    PayloadLayout(dc, ac, ch);
    var y, cb, cr := ChannelBits(dc, ac, ch.y).bits, ChannelBits(dc, ac, ch.cb).bits, ChannelBits(dc, ac, ch.cr).bits;
    var pad := Zeros(PadLength(|PayloadBits(dc, ac, ch)| % 8));
    AppendThree(y, cb, cr, pad);
    ChannelRoundTrip(dc, ac, ch.y, cb + (cr + pad));
    ChannelRoundTrip(dc, ac, ch.cb, cr + pad);
    ChannelRoundTrip(dc, ac, ch.cr, pad);
  }

  // ---------------------------------------------------------------------------
  // From coefficient vectors

  /** Every AC entry of a block that is not an EOB has a prefix in the AC table, so
      `write_channel_blocks` writes the block in full. */
  predicate HasAcCodes(ac: seq<AcCode>, blk: seq<RleCoef>)
  {
    forall k | 1 <= k < |blk| :: !IsEob(blk[k]) ==> AcPrefix(ac, blk[k].skip, blk[k].category).Some?
  }

  /** The vectors of a channel that the tables can code: 64 coefficients, a DC category
      the DC table holds, and an AC prefix for every entry the corrected run-length
      coder produces. */
  predicate Codable(dc: seq<DcCode>, ac: seq<AcCode>, vectors: seq<seq<int>>)
  {
    forall i | 0 <= i < |vectors| ::
      |vectors[i]| == 64 && Category(vectors[i][0]) < |dc| && HasAcCodes(ac, RleEncodeFixed(vectors[i]))
  }

  /** The corrected run-length coder on every vector of a channel. */
  function FixedChannel(vectors: seq<seq<int>>): (r: seq<seq<RleCoef>>)
    requires IsChannel(vectors)
    ensures |r| == |vectors|
  {
    seq(|vectors|, i requires 0 <= i < |vectors| => RleEncodeFixed(vectors[i]))
  }

  /** Every entry the corrected coder writes carries the category of its value. */
  lemma {:induction false} FixedCategories(v: seq<int>)
    requires |v| == 64
    ensures forall k | 0 <= k < |RleEncodeFixed(v)| :: RleEncodeFixed(v)[k].category == Category(RleEncodeFixed(v)[k].value)
  {
    var r := RleEncode(v);
    RleEncodeShape(v);
    assert Category(0) == 0;
    var f := RleEncodeFixed(v);
    forall k | 0 <= k < |f|
      ensures f[k].category == Category(f[k].value)
    {
      if k < |r| {
        assert f[k] == r[k];
      } else {
        assert f[k] == Eob;
      }
    }
  }

  /** A vector the tables can code becomes a block the reader reads back. */
  lemma {:induction false} FixedEncodable(dc: seq<DcCode>, ac: seq<AcCode>, v: seq<int>)
    requires |v| == 64 && Category(v[0]) < |dc| && HasAcCodes(ac, RleEncodeFixed(v))
    ensures Encodable(dc, ac, RleEncodeFixed(v))
  {
    RleEncodeFixedCorrect(v);
    FixedCategories(v);
  }

  lemma {:induction false} FixedChannelEncodable(dc: seq<DcCode>, ac: seq<AcCode>, vectors: seq<seq<int>>)
    requires IsChannel(vectors) && Codable(dc, ac, vectors)
    ensures AllEncodable(dc, ac, FixedChannel(vectors))
  {
    forall i | 0 <= i < |vectors|
      ensures Encodable(dc, ac, FixedChannel(vectors)[i])
    {
      FixedEncodable(dc, ac, vectors[i]);
    }
  }

  /** Expanding what was read back gives the vectors of the channel. */
  lemma {:induction false} FixedChannelExpands(vectors: seq<seq<int>>)
    requires IsChannel(vectors)
    ensures ExpandChannel(AllSome(FixedChannel(vectors)), |vectors|) == vectors
  {
    forall i | 0 <= i < |vectors|
      ensures ExpandChannel(AllSome(FixedChannel(vectors)), |vectors|)[i] == vectors[i]
    {
      RleEncodeFixedCorrect(vectors[i]);
    }
  }

  // ---------------------------------------------------------------------------
  // The whole integer half

  /** The zigzag scan of every block of a channel (`aplicar_zigzag` per block). */
  function ScanChannel(blocks: seq<Block>): (r: seq<seq<int>>)
    ensures |r| == |blocks| && IsChannel(r)
  {
    seq(|blocks|, i requires 0 <= i < |blocks| => Scan(blocks[i]))
  }

  /** The inverse scan of every vector of a channel (`zigzag` with type 1 per block). */
  function UnscanChannel(vectors: seq<seq<int>>): (r: seq<Block>)
    requires IsChannel(vectors)
    ensures |r| == |vectors|
  {
    seq(|vectors|, i requires 0 <= i < |vectors| => Unscan(vectors[i]))
  }

  /** What the encoder stores for a channel of quantised blocks: the scanned vectors,
      delta coded, run-length coded by the corrected coder `RleEncodeFixed`. */
  function EncodeBlocks(blocks: seq<Block>): (r: seq<seq<RleCoef>>)
    ensures |r| == |blocks|
  {
    DeltaChannelEffect(ScanChannel(blocks));
    FixedChannel(DeltaChannel(ScanChannel(blocks)))
  }

  /** The blocks the decoder rebuilds from a channel read back in full. */
  function DecodeBlocks(rle: seq<Option<seq<RleCoef>>>, n: nat): seq<Block>
    requires n <= |rle| && forall i | 0 <= i < n :: rle[i].Some?
  {
    UnscanChannel(UndeltaChannel(ExpandChannel(rle, n)))
  }

  /** Up to the stream, a channel decodes to the blocks it was encoded from. */
  lemma {:induction false} BlocksRoundTrip(blocks: seq<Block>)
    ensures DecodeBlocks(AllSome(EncodeBlocks(blocks)), |blocks|) == blocks
  {
    var vectors := ScanChannel(blocks);
    DeltaChannelEffect(vectors);
    FixedChannelExpands(DeltaChannel(vectors));
    UndeltaDelta(vectors);
    forall i | 0 <= i < |blocks|
      ensures DecodeBlocks(AllSome(EncodeBlocks(blocks)), |blocks|)[i] == blocks[i]
    {
      UnscanScan(blocks[i]);
    }
  }

  /** The tables can code a channel of blocks once it is scanned and delta coded. */
  predicate BlocksCodable(dc: seq<DcCode>, ac: seq<AcCode>, blocks: seq<Block>)
  {
    DeltaChannelEffect(ScanChannel(blocks));
    Codable(dc, ac, DeltaChannel(ScanChannel(blocks)))
  }

  /** Quantised blocks scanned, delta coded and run-length coded by the corrected coder
      are encodable when the tables hold their categories and AC keys. */
  lemma {:induction false} ChannelEncodable(dc: seq<DcCode>, ac: seq<AcCode>, blocks: seq<Block>)
    requires ValidTables(dc, ac) && BlocksCodable(dc, ac, blocks)
    ensures EncodableChannel(dc, ac, EncodeBlocks(blocks))
  {
    DeltaChannelEffect(ScanChannel(blocks));
    FixedChannelEncodable(dc, ac, DeltaChannel(ScanChannel(blocks)));
  }

  /** Three channels of quantised blocks as the encoder stores them. */
  function EncodeChannels(y: seq<Block>, cb: seq<Block>, cr: seq<Block>): Channels
  {
    Channels(EncodeBlocks(y), EncodeBlocks(cb), EncodeBlocks(cr))
  }

  /** The payload `compress_jpeg` writes after the headers for three channels of
      quantised blocks, with the corrected run-length coder in place of
      `RLE_encode_AC`. */
  function EncodeFile(dc: seq<DcCode>, ac: seq<AcCode>, y: seq<Block>, cb: seq<Block>, cr: seq<Block>): seq<Byte>
    requires Writable(dc, EncodeChannels(y, cb, cr))
  {
    PayloadBytes(dc, ac, EncodeChannels(y, cb, cr))
  }

  /** The quantised blocks the decompressor rebuilds from the blocks `read_all_blocks`
      returned, or None when one of the first n of a channel failed to read (where
      `rle_to_blocks` would follow a NULL pointer). */
  function DecodeRle(rle: RleBlocks, n: nat): Option<(seq<Block>, seq<Block>, seq<Block>)>
  {
    if AllRead(rle, n) then Some((DecodeBlocks(rle.y, n), DecodeBlocks(rle.cb, n), DecodeBlocks(rle.cr, n)))
    else None
  }

  /** The decompressor on a payload of n blocks per channel. */
  function DecodeFile(dc: seq<DcCode>, ac: seq<AcCode>, file: seq<Byte>, n: nat): Option<(seq<Block>, seq<Block>, seq<Block>)>
  {
    DecodeRle(ReadAll(dc, ac, BytesToBits(file), n), n)
  }

  /** Blocks read back as they were stored rebuild the quantised blocks. */
  lemma {:induction false} DecodeRleRoundTrip(y: seq<Block>, cb: seq<Block>, cr: seq<Block>)
    requires |y| == |cb| == |cr|
    ensures DecodeRle(RleBlocks(AllSome(EncodeBlocks(y)), AllSome(EncodeBlocks(cb)), AllSome(EncodeBlocks(cr))), |y|) == Some((y, cb, cr))
  {
    var rle := RleBlocks(AllSome(EncodeBlocks(y)), AllSome(EncodeBlocks(cb)), AllSome(EncodeBlocks(cr)));
    StoredAllRead(EncodeBlocks(y), EncodeBlocks(cb), EncodeBlocks(cr));
    BlocksRoundTrip(y);
    BlocksRoundTrip(cb);
    BlocksRoundTrip(cr);
    assert DecodeRle(rle, |y|) == Some((DecodeBlocks(rle.y, |y|), DecodeBlocks(rle.cb, |y|), DecodeBlocks(rle.cr, |y|)));
  }

  /** Three channels stored in full are read in full. */
  lemma StoredAllRead(y: seq<seq<RleCoef>>, cb: seq<seq<RleCoef>>, cr: seq<seq<RleCoef>>)
    requires |y| == |cb| == |cr|
    ensures AllRead(RleBlocks(AllSome(y), AllSome(cb), AllSome(cr)), |y|)
  {
  }

  /** Three channels of n quantised blocks, encoded and written as `compress_jpeg` does
      but with the corrected run-length coder `RleEncodeFixed`, read back by `read_all_blocks` without a failed block and rebuilt by
      `rle_to_blocks`, `delta_decoding` and the inverse scan into the same blocks. */
  lemma {:induction false} CodecRoundTrip(dc: seq<DcCode>, ac: seq<AcCode>, y: seq<Block>, cb: seq<Block>, cr: seq<Block>)
    requires ValidTables(dc, ac) && |y| == |cb| == |cr|
    requires BlocksCodable(dc, ac, y) && BlocksCodable(dc, ac, cb) && BlocksCodable(dc, ac, cr)
    ensures Writable(dc, EncodeChannels(y, cb, cr))
    ensures DecodeFile(dc, ac, EncodeFile(dc, ac, y, cb, cr), |y|) == Some((y, cb, cr))
  {
    ChannelEncodable(dc, ac, y);
    ChannelEncodable(dc, ac, cb);
    ChannelEncodable(dc, ac, cr);
    StreamRoundTrip(dc, ac, EncodeChannels(y, cb, cr), |y|);
    DecodeRleRoundTrip(y, cb, cr);
  }
}
