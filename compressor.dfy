/** The entropy-coding tail of `compress_jpeg` (compressor/src/compressor.c): the
    zigzag vectors of every channel run-length coded block by block
    (`process_zigzag_vectors`), then the three channels written one after the other
    into a single bit stream with one flush at the very end. */
module Compressor {
  import opened Base
  import opened BitIo
  import opened RunLength
  import opened Huffman

  /** The `RLE` record the encoder builds: the RLE blocks of each channel. */
  datatype Channels = Channels(y: seq<seq<RleCoef>>, cb: seq<seq<RleCoef>>, cr: seq<seq<RleCoef>>)

  /** Every block of every channel has a DC entry the DC table can be indexed with. */
  predicate Writable(dc: seq<DcCode>, ch: Channels)
  {
    HasDcEntries(dc, ch.y) && HasDcEntries(dc, ch.cb) && HasDcEntries(dc, ch.cr)
  }

  /** `process_AC_coef` on one channel, as values: every vector run-length coded. */
  function EncodeChannel(vectors: seq<seq<int>>): (r: seq<seq<RleCoef>>)
    requires forall i | 0 <= i < |vectors| :: |vectors[i]| == 64
    ensures |r| == |vectors|
  {
    seq(|vectors|, i requires 0 <= i < |vectors| => RleEncode(vectors[i]))
  }

  /** `process_AC_coef`: `RLE_encode_AC` on each vector of the channel in turn. */
  method ProcessAcCoef(blocks: seq<array<int>>) returns (rle: seq<seq<RleCoef>>)
    requires forall i | 0 <= i < |blocks| :: blocks[i].Length == 64
    ensures |rle| == |blocks|
    ensures forall i | 0 <= i < |blocks| :: rle[i] == RleEncode(blocks[i][..])
  {
    rle := [];
    var i := 0;
    while i < |blocks|
      invariant 0 <= i <= |blocks| && |rle| == i
      invariant forall k | 0 <= k < i :: rle[k] == RleEncode(blocks[k][..])
    {
      var encoded, size := RleEncodeAc(blocks[i]);
      rle := rle + [encoded[..size]];
      i := i + 1;
    }
  }

  /** Every entry `ProcessAcCoef` stores is a block the DC table can index, once
      the DC categories are below the table's size. */
  lemma {:induction false} EncodedWritable(dc: seq<DcCode>, vectors: seq<seq<int>>)
    requires forall i | 0 <= i < |vectors| :: |vectors[i]| == 64 && Category(vectors[i][0]) < |dc|
    ensures HasDcEntries(dc, EncodeChannel(vectors))
  {
    forall i | 0 <= i < |vectors|
      ensures |EncodeChannel(vectors)[i]| >= 1 && EncodeChannel(vectors)[i][0].category < |dc|
    {
      RleEncodeShape(vectors[i]);
    }
  }

  // ---------------------------------------------------------------------------
  // The payload

  /** The bits written before the flush: all Y blocks, then all Cb blocks, then all Cr
      blocks, with nothing between channels. A channel cut short by an entry with no
      AC prefix still lets the channels after it be written. */
  function PayloadBits(dc: seq<DcCode>, ac: seq<AcCode>, ch: Channels): seq<bool>
    requires Writable(dc, ch)
  {
    ChannelBits(dc, ac, ch.y).bits + ChannelBits(dc, ac, ch.cb).bits + ChannelBits(dc, ac, ch.cr).bits
  }

  /** The bytes of the payload: its bits, padded with zeros to a whole byte once. */
  function PayloadBytes(dc: seq<DcCode>, ac: seq<AcCode>, ch: Channels): seq<Byte>
    requires Writable(dc, ch)
  {
    var bits := PayloadBits(dc, ac, ch);
    Pack(bits + Zeros(PadLength(|bits| % 8)))
  }

  /** Lines 115-126 of `compress_jpeg` after the headers: a fresh writer, the three
      `write_channel_blocks` calls and a single `flush_bits`. */
  method WritePayload(dc: seq<DcCode>, ac: seq<AcCode>, ch: Channels) returns (file: seq<Byte>)
    requires Writable(dc, ch)
    ensures file == PayloadBytes(dc, ac, ch)
  {
    var w := new BitWriter();
    WriteChannels(w, dc, ac, ch);
    ghost var bits, count := w.Written(), w.bitCount;
    PayloadWritten(dc, ac, ch, bits);
    PendingCount(w.emitted, w.pending);
    w.Flush();
    file := w.file;
    PayloadBytesAre(dc, ac, ch, bits, count, file);
  }

  /** The writer's bytes after the flush are the payload's bytes. */
  lemma {:induction false} PayloadBytesAre(dc: seq<DcCode>, ac: seq<AcCode>, ch: Channels, bits: seq<bool>, count: int, file: seq<Byte>)
    requires Writable(dc, ch) && bits == PayloadBits(dc, ac, ch) && |bits| % 8 == count
    requires file == Pack(bits + Zeros(PadLength(count)))
    ensures file == PayloadBytes(dc, ac, ch)
  {
  }

  /** The payload file holds the payload bits followed by fewer than eight zero bits,
      in as few bytes as hold them: there is no padding between blocks or channels. */
  lemma {:induction false} PayloadLayout(dc: seq<DcCode>, ac: seq<AcCode>, ch: Channels)
    requires Writable(dc, ch)
    ensures BytesToBits(PayloadBytes(dc, ac, ch)) == PayloadBits(dc, ac, ch) + Zeros(PadLength(|PayloadBits(dc, ac, ch)| % 8))
    ensures PadLength(|PayloadBits(dc, ac, ch)| % 8) < 8
    ensures |PayloadBits(dc, ac, ch)| <= 8 * |PayloadBytes(dc, ac, ch)| < |PayloadBits(dc, ac, ch)| + 8
  {
    var bits := PayloadBits(dc, ac, ch);
    PayloadFile(bits, PayloadBytes(dc, ac, ch));
  }

  /** Lines 122-124 of `compress_jpeg`: the Y, Cb and Cr channels on one writer. */
  method WriteChannels(w: BitWriter, dc: seq<DcCode>, ac: seq<AcCode>, ch: Channels)
    requires w.Valid() && Writable(dc, ch)
    modifies w
    ensures w.Valid()
    ensures w.Written() == old(w.Written()) + ChannelBits(dc, ac, ch.y).bits
      + ChannelBits(dc, ac, ch.cb).bits + ChannelBits(dc, ac, ch.cr).bits
  {
    WriteChannelBlocks(w, dc, ac, ch.y);
    WriteChannelBlocks(w, dc, ac, ch.cb);
    WriteChannelBlocks(w, dc, ac, ch.cr);
  }

  /** What a fresh writer holds after the three channels is the payload. */
  lemma {:induction false} PayloadWritten(dc: seq<DcCode>, ac: seq<AcCode>, ch: Channels, written: seq<bool>)
    requires Writable(dc, ch)
    requires written == [] + ChannelBits(dc, ac, ch.y).bits + ChannelBits(dc, ac, ch.cb).bits + ChannelBits(dc, ac, ch.cr).bits
    ensures written == PayloadBits(dc, ac, ch)
  {
    var a, b, c := ChannelBits(dc, ac, ch.y).bits, ChannelBits(dc, ac, ch.cb).bits, ChannelBits(dc, ac, ch.cr).bits;
    EmptyFirst(written, a, b, c);
  }

  lemma EmptyFirst<T>(written: seq<T>, a: seq<T>, b: seq<T>, c: seq<T>)
    requires written == [] + a + b + c
    ensures written == a + b + c
  {
    assert [] + a == a;
  }

  /** The bits pending in a writer are the written bits past the last whole byte. */
  lemma {:induction false} PendingCount(emitted: seq<bool>, pending: seq<bool>)
    requires |emitted| % 8 == 0 && |pending| < 8
    ensures |emitted + pending| % 8 == |pending|
  {
    DivModUnique(|emitted + pending|, 8, |emitted| / 8, |pending|);
  }

  /** A file flushed after `bits` unpacks to the bits and their padding, and is one
      byte longer than the whole bytes of the bits exactly when bits are left over. */
  lemma {:induction false} PayloadFile(bits: seq<bool>, file: seq<Byte>)
    requires file == Pack(bits + Zeros(PadLength(|bits| % 8)))
    ensures BytesToBits(file) == bits + Zeros(PadLength(|bits| % 8))
    ensures |bits| <= 8 * |file| < |bits| + 8
  {
    var pad := PadLength(|bits| % 8);
    DivModUnique(|bits|, 8, |bits| / 8, |bits| % 8);
    if |bits| % 8 > 0 {
      DivModUnique(|bits| + pad, 8, |bits| / 8 + 1, 0);
    }
    FlushedFileBits(bits, pad);
    BytesToBitsLength(file);
  }

  // ---------------------------------------------------------------------------
  // A channel cut short

  /** The bits of the given blocks back to back, each written in full. */
  function BlocksBits(dc: seq<DcCode>, ac: seq<AcCode>, blocks: seq<seq<RleCoef>>): seq<bool>
    requires HasDcEntries(dc, blocks)
    decreases |blocks|
  {
    if |blocks| == 0 then []
    else BlocksBits(dc, ac, blocks[..|blocks| - 1]) + BlockBits(dc, ac, blocks[|blocks| - 1]).bits
  }

  /** While every block before k is written in full, the channel is those blocks'
      bits followed by the channel from block k on. */
  lemma {:induction false} ChannelUpTo(dc: seq<DcCode>, ac: seq<AcCode>, blocks: seq<seq<RleCoef>>, k: nat)
    requires HasDcEntries(dc, blocks) && k <= |blocks|
    requires forall i | 0 <= i < k :: BlockBits(dc, ac, blocks[i]).complete
    ensures HasDcEntries(dc, blocks[..k])
    ensures ChannelBits(dc, ac, blocks).bits == BlocksBits(dc, ac, blocks[..k]) + ChannelBitsFrom(dc, ac, blocks, k).bits
    ensures ChannelBits(dc, ac, blocks).complete == ChannelBitsFrom(dc, ac, blocks, k).complete
  {
    if k > 0 {
      ChannelUpTo(dc, ac, blocks, k - 1);
      BlocksBitsSnoc(dc, ac, blocks, k - 1);
      ChannelFromStep(dc, ac, blocks, k - 1);
      var before, block := BlocksBits(dc, ac, blocks[..k - 1]), BlockBits(dc, ac, blocks[k - 1]).bits;
      AppendAssoc(before, block, ChannelBitsFrom(dc, ac, blocks, k).bits);
    }
  }

  /** The blocks up to k + 1 are the blocks up to k, then block k. */
  lemma {:induction false} BlocksBitsSnoc(dc: seq<DcCode>, ac: seq<AcCode>, blocks: seq<seq<RleCoef>>, k: nat)
    requires HasDcEntries(dc, blocks) && k < |blocks|
    ensures HasDcEntries(dc, blocks[..k]) && HasDcEntries(dc, blocks[..k + 1])
    ensures BlocksBits(dc, ac, blocks[..k + 1]) == BlocksBits(dc, ac, blocks[..k]) + BlockBits(dc, ac, blocks[k]).bits
  {
    assert blocks[..k + 1][..k] == blocks[..k];
    assert blocks[..k + 1][k] == blocks[k];
  }

  /** A block written in full is followed by the channel from the next block on. */
  lemma {:induction false} ChannelFromStep(dc: seq<DcCode>, ac: seq<AcCode>, blocks: seq<seq<RleCoef>>, k: nat)
    requires HasDcEntries(dc, blocks) && k < |blocks| && BlockBits(dc, ac, blocks[k]).complete
    ensures ChannelBitsFrom(dc, ac, blocks, k).bits == BlockBits(dc, ac, blocks[k]).bits + ChannelBitsFrom(dc, ac, blocks, k + 1).bits
    ensures ChannelBitsFrom(dc, ac, blocks, k).complete == ChannelBitsFrom(dc, ac, blocks, k + 1).complete
  {
  }

  /** The early return of `write_channel_blocks`: when block k is the first one with an
      entry that has no AC prefix, the channel is the blocks before it, then block k up
      to that entry, and nothing of the blocks after it; the channel is reported as cut
      short. */
  lemma {:induction false} ChannelStopsAt(dc: seq<DcCode>, ac: seq<AcCode>, blocks: seq<seq<RleCoef>>, k: nat)
    requires HasDcEntries(dc, blocks) && k < |blocks|
    requires forall i | 0 <= i < k :: BlockBits(dc, ac, blocks[i]).complete
    requires !BlockBits(dc, ac, blocks[k]).complete
    ensures HasDcEntries(dc, blocks[..k])
    ensures ChannelBits(dc, ac, blocks) == Emit(BlocksBits(dc, ac, blocks[..k]) + BlockBits(dc, ac, blocks[k]).bits, false)
  {
    ChannelUpTo(dc, ac, blocks, k);
  }

  /** A channel whose blocks are all written in full is their bits back to back. */
  lemma {:induction false} ChannelWhole(dc: seq<DcCode>, ac: seq<AcCode>, blocks: seq<seq<RleCoef>>)
    requires HasDcEntries(dc, blocks)
    requires forall i | 0 <= i < |blocks| :: BlockBits(dc, ac, blocks[i]).complete
    ensures ChannelBits(dc, ac, blocks) == Emit(BlocksBits(dc, ac, blocks), true)
  {
    ChannelUpTo(dc, ac, blocks, |blocks|);
    assert blocks[..|blocks|] == blocks;
  }

  /** A Y channel cut short at block k still leaves the full Cb and Cr streams after it
      in the payload. */
  lemma {:induction false} PayloadAfterCut(dc: seq<DcCode>, ac: seq<AcCode>, ch: Channels, k: nat)
    requires Writable(dc, ch) && k < |ch.y|
    requires forall i | 0 <= i < k :: BlockBits(dc, ac, ch.y[i]).complete
    requires !BlockBits(dc, ac, ch.y[k]).complete
    ensures HasDcEntries(dc, ch.y[..k])
    ensures PayloadBits(dc, ac, ch) == BlocksBits(dc, ac, ch.y[..k]) + BlockBits(dc, ac, ch.y[k]).bits
      + ChannelBits(dc, ac, ch.cb).bits + ChannelBits(dc, ac, ch.cr).bits
  {
    ChannelStopsAt(dc, ac, ch.y, k);
  }
}
