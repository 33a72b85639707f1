/** The entropy-decoding head of `decompress_bin` (decompressor/src/decompressor.c):
    the block count, the three channels read from one bit reader (`read_all_blocks`),
    the RLE blocks expanded to coefficient vectors (`rle_to_blocks`), and the order in
    which `blocks_to_pixels` visits blocks and places pixels. */
module Decompressor {
  import opened Base
  import opened BitIo
  import opened RunLength
  import opened Huffman
  import opened DcPredictor

  /** The sizes `readInfoHeader` accepts before `decompress_bin` goes on: both sides
      multiples of 8, from 8x8 up to 1280x800. */
  predicate ValidDimensions(width: int, height: int)
  {
    width % 8 == 0 && height % 8 == 0 && 8 <= width <= 1280 && 8 <= height <= 800
  }

  /** `num_blocks`: the pixel count over the 64 pixels of a block. The image is tiled by
      its blocks exactly: one per 8x8 square. */
  function NumBlocks(width: int, height: int): (n: nat)
    requires ValidDimensions(width, height)
    ensures 64 * n == width * height
    ensures n == (width / 8) * (height / 8)
  {
    var columns, rows := width / 8, height / 8;
    assert width * height == (columns * rows) * 64 by {
      assert width == 8 * columns && height == 8 * rows;
      TileArea(columns, rows);
    }
    DivModUnique(width * height, 64, columns * rows, 0);
    width * height / 64
  }

  lemma {:induction false} TileArea(a: int, b: int)
    ensures (8 * a) * (8 * b) == (a * b) * 64
  {
  }

  // ---------------------------------------------------------------------------
  // Reading the channels

  /** The `RLE` record the decoder fills: per channel, the blocks `read_rle_block`
      returned, `None` standing for a NULL pointer. */
  datatype RleBlocks = RleBlocks(y: seq<Option<seq<RleCoef>>>, cb: seq<Option<seq<RleCoef>>>, cr: seq<Option<seq<RleCoef>>>)

  datatype ChannelRead = ChannelRead(blocks: seq<Option<seq<RleCoef>>>, rest: seq<bool>)

  /** `read_rle_block` as a value: the block reader the channel loops call. */
  function Reader(dc: seq<DcCode>, ac: seq<AcCode>): seq<bool> -> Parsed
  {
    bits => ReadBlock(dc, ac, bits)
  }

  /** n blocks read one after the other from the same bits by the block reader `read`.
      A block that fails to decode is kept as `None` and the next one is read from where
      it stopped, so every one of the n slots is filled and nothing is realigned between
      blocks. */
  function ReadMany(read: seq<bool> -> Parsed, bits: seq<bool>, n: nat): (r: ChannelRead)
    ensures |r.blocks| == n
    decreases n
  {
    if n == 0 then ChannelRead([], bits)
    else
      var b := read(bits);
      var tail := ReadMany(read, b.rest, n - 1);
      ChannelRead([b.block] + tail.blocks, tail.rest)
  }

  /** One channel: n blocks read with `read_rle_block` of the given tables. */
  function ReadChannel(dc: seq<DcCode>, ac: seq<AcCode>, bits: seq<bool>, n: nat): (r: ChannelRead)
    ensures |r.blocks| == n
  {
    ReadMany(Reader(dc, ac), bits, n)
  }

  /** `read_all_blocks` on the unread bits: Y, then Cb, then Cr, each channel going on
      where the previous one stopped. */
  function ReadAll(dc: seq<DcCode>, ac: seq<AcCode>, bits: seq<bool>, numBlocks: nat): RleBlocks
  {
    var y := ReadChannel(dc, ac, bits, numBlocks);
    var cb := ReadChannel(dc, ac, y.rest, numBlocks);
    var cr := ReadChannel(dc, ac, cb.rest, numBlocks);
    RleBlocks(y.blocks, cb.blocks, cr.blocks)
  }

  /** A block the expander can take: 1 to 64 entries, entry 0 with no run, an EOB at
      most at the end, and an EOB or 64 entries. */
  predicate Expandable(blk: seq<RleCoef>)
  {
    1 <= |blk| <= 64 && blk[0].skip == 0 && Terminated(blk)
    && forall k | 1 <= k < |blk| - 1 :: !IsEob(blk[k])
  }

  /** Every block of a channel that was read back is one the expander can take. */
  predicate AllExpandable(blocks: seq<Option<seq<RleCoef>>>)
  {
    forall i | 0 <= i < |blocks| && blocks[i].Some? :: Expandable(blocks[i].value)
  }

  lemma {:induction false} ExpandableCons(b: Option<seq<RleCoef>>, tail: seq<Option<seq<RleCoef>>>)
    requires b.Some? ==> Expandable(b.value)
    requires AllExpandable(tail)
    ensures AllExpandable([b] + tail)
  {
    var blocks := [b] + tail;
    forall i | 0 <= i < |blocks| && blocks[i].Some?
      ensures Expandable(blocks[i].value)
    {
      if i > 0 {
        assert blocks[i] == tail[i - 1];
      }
    }
  }

  /** Every block that does read back is one the expander can take. */
  lemma {:induction false} ReadChannelBlocksShape(dc: seq<DcCode>, ac: seq<AcCode>, bits: seq<bool>, n: nat)
    ensures AllExpandable(ReadChannel(dc, ac, bits, n).blocks)
    decreases n
  {
    if n > 0 {
      var b := ReadBlock(dc, ac, bits);
      assert Reader(dc, ac)(bits) == b;
      ReadBlockShape(dc, ac, bits);
      ReadChannelBlocksShape(dc, ac, b.rest, n - 1);
      var tail := ReadChannel(dc, ac, b.rest, n - 1);
      assert ReadChannel(dc, ac, bits, n).blocks == [b.block] + tail.blocks;
      ExpandableCons(b.block, tail.blocks);
    }
  }

  /** One of the three loops of `read_all_blocks`: n calls of `read_rle_block` on the
      shared reader, each result stored without a check. */
  method ReadChannelBlocks(br: BitReader, dc: seq<DcCode>, ac: seq<AcCode>, n: nat) returns (blocks: seq<Option<seq<RleCoef>>>)
    requires br.Valid()
    modifies br
    ensures br.Valid()
    ensures blocks == ReadChannel(dc, ac, old(br.Remaining()), n).blocks
    ensures br.Remaining() == ReadChannel(dc, ac, old(br.Remaining()), n).rest
  {
    ghost var start := br.Remaining();
    blocks := [];
    var i := 0;
    while i < n
      invariant 0 <= i <= n && br.Valid()
      invariant ReadChannel(dc, ac, start, n)
        == ChannelRead(blocks + ReadChannel(dc, ac, br.Remaining(), n - i).blocks, ReadChannel(dc, ac, br.Remaining(), n - i).rest)
    {
      ghost var here := br.Remaining();
      var block := ReadRleBlock(br, dc, ac);
      ReadChannelStep(dc, ac, here, n - i, blocks, block, br.Remaining());
      blocks := blocks + [block];
      i := i + 1;
    }
  }

  /** Reading one block and then the remaining m - 1 is reading m blocks. */
  lemma {:induction false} ReadChannelStep(dc: seq<DcCode>, ac: seq<AcCode>, here: seq<bool>, m: nat,
                                           done: seq<Option<seq<RleCoef>>>, block: Option<seq<RleCoef>>, after: seq<bool>)
    requires m > 0
    requires block == ReadBlock(dc, ac, here).block && after == ReadBlock(dc, ac, here).rest
    ensures done + ReadChannel(dc, ac, here, m).blocks == (done + [block]) + ReadChannel(dc, ac, after, m - 1).blocks
    ensures ReadChannel(dc, ac, here, m).rest == ReadChannel(dc, ac, after, m - 1).rest
  {
    var tail := ReadChannel(dc, ac, after, m - 1).blocks;
    assert Reader(dc, ac)(here) == ReadBlock(dc, ac, here);
    assert ReadChannel(dc, ac, here, m).blocks == [block] + tail;
    AppendAssoc(done, [block], tail);
  }

  /** `read_all_blocks`: a reader over the file's bytes after the headers, and
      `num_blocks` blocks of Y, of Cb and of Cr read from it in that order. */
  method ReadAllBlocks(contents: seq<Byte>, dc: seq<DcCode>, ac: seq<AcCode>, numBlocks: nat) returns (rle: RleBlocks)
    ensures rle == ReadAll(dc, ac, BytesToBits(contents), numBlocks)
  {
    var br := new BitReader(contents);
    var y := ReadChannelBlocks(br, dc, ac, numBlocks);
    var cb := ReadChannelBlocks(br, dc, ac, numBlocks);
    var cr := ReadChannelBlocks(br, dc, ac, numBlocks);
    rle := RleBlocks(y, cb, cr);
  }

  // ---------------------------------------------------------------------------
  // Expanding the blocks

  /** Every one of the first n blocks of each channel was read. */
  predicate AllRead(rle: RleBlocks, n: nat)
  {
    n <= |rle.y| && n <= |rle.cb| && n <= |rle.cr|
    && forall i | 0 <= i < n :: rle.y[i].Some? && rle.cb[i].Some? && rle.cr[i].Some?
  }

  /** The first n blocks of a channel, each expanded to its 64 coefficients. */
  function ExpandChannel(blocks: seq<Option<seq<RleCoef>>>, n: nat): (r: seq<seq<int>>)
    requires n <= |blocks| && forall i | 0 <= i < n :: blocks[i].Some?
    ensures |r| == n && IsChannel(r)
  {
    seq(n, i requires 0 <= i < n => Expand(blocks[i].value))
  }

  /** `rle_to_blocks`: block i of each channel is entry i of that channel expanded, over
      `num_blocks` blocks. Every entry must have been read: a NULL one would be
      dereferenced. */
  method RleToBlocks(rle: RleBlocks, numBlocks: nat) returns (blocks: BlocksZigZag)
    requires AllRead(rle, numBlocks)
    ensures fresh(blocks) && blocks.Valid() && blocks.numBlocks == numBlocks
    ensures blocks.yBlocks == ExpandChannel(rle.y, numBlocks)
    ensures blocks.cbBlocks == ExpandChannel(rle.cb, numBlocks)
    ensures blocks.crBlocks == ExpandChannel(rle.cr, numBlocks)
  {
    var y, cb, cr := [], [], [];
    var i := 0;
    while i < numBlocks
      invariant 0 <= i <= numBlocks
      invariant y == ExpandChannel(rle.y, i) && cb == ExpandChannel(rle.cb, i) && cr == ExpandChannel(rle.cr, i)
    {
      var blockY := RleToBlock(rle.y[i].value);
      var blockCb := RleToBlock(rle.cb[i].value);
      var blockCr := RleToBlock(rle.cr[i].value);
      y, cb, cr := y + [blockY[..]], cb + [blockCb[..]], cr + [blockCr[..]];
      i := i + 1;
    }
    blocks := new BlocksZigZag(y, cb, cr);
  }

  // ---------------------------------------------------------------------------
  // Where the pixels come from

  /** What `blocks_to_pixels` stores at a pixel, as indices: the block it takes, and the
      row and column of that block's inverse transform it reads. */
  datatype Origin = Origin(block: int, row: int, col: int)

  /** The pixel at p = dy * width + dx comes from the block in block row dy / 8 and block
      column dx / 8, numbered in raster order, at `original[dx % 8][dy % 8]`: the block's
      output is read transposed. */
  function OriginOf(width: int, p: int): Origin
    requires width > 0
  {
    var dy, dx := p / width, p % width;
    Origin((dy / 8) * (width / 8) + dx / 8, dx % 8, dy % 8)
  }

  /** The position of a write in the order of the loops: the blocks in turn, and within
      a block the y loop outside the x loop. */
  function Rank(o: Origin): int
  {
    64 * o.block + 8 * o.col + o.row
  }

  /** The state of the pixel buffer after the first t writes: those pixels hold their
      origin and were written once, the others are untouched. */
  ghost predicate Placed(values: seq<Option<Origin>>, writes: seq<nat>, width: int, t: int)
    requires width > 0
  {
    |writes| == |values|
    && forall p | 0 <= p < |values| ::
      if Rank(OriginOf(width, p)) < t then values[p] == Some(OriginOf(width, p)) && writes[p] == 1
      else values[p].None? && writes[p] == 0
  }

  /** The index part of `blocks_to_pixels`: blocks in raster order, idx counting them,
      and each block's 64 pixels placed at dy * width + dx. Every pixel of the
      width x height buffer is written exactly once, with its origin. */
  method BlocksToPixels(width: int, height: int) returns (values: array<Option<Origin>>, ghost writes: seq<nat>)
    requires ValidDimensions(width, height)
    ensures fresh(values)
    ensures values.Length == width * height && |writes| == values.Length
    ensures forall p | 0 <= p < values.Length :: values[p] == Some(OriginOf(width, p)) && writes[p] == 1
  {
    values := new Option<Origin>[width * height](_ => None);
    writes := PlaceRows(values, width, height);
  }

  /** The loop over j of `blocks_to_pixels` on a buffer with nothing written yet: the
      rows of blocks one after the other. */
  method PlaceRows(values: array<Option<Origin>>, width: int, height: int) returns (ghost writes: seq<nat>)
    modifies values
    requires ValidDimensions(width, height) && values.Length == width * height
    requires forall p | 0 <= p < values.Length :: values[p].None?
    ensures |writes| == values.Length
    ensures forall p | 0 <= p < values.Length :: values[p] == Some(OriginOf(width, p)) && writes[p] == 1
  {
    writes := seq(width * height, _ => 0);
    PlacedStart(values[..], writes, width);
    var idx := 0;
    ghost var t := 0;
    var j := 0;
    while j < height
      invariant 0 <= j <= height && j % 8 == 0
      invariant idx == (j / 8) * (width / 8) && t == 64 * idx
      invariant Placed(values[..], writes, width, t)
    {
      writes, idx, t := PlaceRow(values, writes, width, height, j, idx, t);
      j := j + 8;
    }
    PlacedDone(values[..], writes, width, height, idx, t);
  }

  /** The loop over i of `blocks_to_pixels`: the blocks of the row of blocks at j, one
      after the other, numbered from first on; t counts the writes before them. It
      returns the number of the first block of the next row and the writes so far. */
  method PlaceRow(values: array<Option<Origin>>, ghost writes0: seq<nat>, width: int, height: int, j: int, first: int, ghost t: int)
    returns (ghost writes: seq<nat>, next: int, ghost u: int)
    modifies values
    requires ValidDimensions(width, height) && values.Length == width * height
    requires 0 <= j < height && j % 8 == 0 && first == (j / 8) * (width / 8) && t == 64 * first
    requires Placed(values[..], writes0, width, t)
    ensures next == ((j + 8) / 8) * (width / 8) && u == 64 * next
    ensures Placed(values[..], writes, width, u)
  {
    writes := writes0;
    next := first;
    u := t;
    var i := 0;
    while i < width
      invariant 0 <= i <= width && i % 8 == 0
      invariant next == first + i / 8 && u == 64 * next
      invariant Placed(values[..], writes, width, u)
    {
      writes := PlaceBlock(values, writes, width, height, j, i, next, u);
      next := next + 1;
      u := u + 64;
      i := i + 8;
    }
    RowDone(width, j);
  }

  /** The two inner loops of `blocks_to_pixels`: the 64 pixels of the block at row j
      and column i, the idx-th in raster order, each written once with its origin; t
      counts the writes before them. */
  method PlaceBlock(values: array<Option<Origin>>, ghost writes0: seq<nat>, width: int, height: int, j: int, i: int, idx: int, ghost t: int)
    returns (ghost writes: seq<nat>)
    modifies values
    requires ValidDimensions(width, height) && values.Length == width * height
    requires 0 <= j < height && j % 8 == 0 && 0 <= i < width && i % 8 == 0
    requires idx == (j / 8) * (width / 8) + i / 8 && t == 64 * idx
    requires Placed(values[..], writes0, width, t)
    ensures Placed(values[..], writes, width, t + 64)
  {
    writes := writes0;
    ghost var u := t;
    var y := 0;
    while y < 8
      invariant 0 <= y <= 8 && u == t + 8 * y
      invariant Placed(values[..], writes, width, u)
    {
      var x := 0;
      while x < 8
        invariant 0 <= x <= 8 && y < 8 && u == t + 8 * y + x
        invariant Placed(values[..], writes, width, u)
      {
        var dy := j + y;
        var dx := i + x;
        var p := dy * width + dx;
        PixelAt(width, height, j, i, y, x, idx, p);
        ghost var before := values[..];
        PlacedStep(before, writes, width, p, u);
        values[p] := Some(Origin(idx, x, y));
        writes := writes[p := writes[p] + 1];
        assert values[..] == before[p := Some(OriginOf(width, p))];
        u := u + 1;
        x := x + 1;
      }
      y := y + 1;
    }
  }

  lemma {:induction false} PlacedStart(values: seq<Option<Origin>>, writes: seq<nat>, width: int)
    requires width > 0 && width % 8 == 0 && |writes| == |values|
    requires forall p | 0 <= p < |values| :: values[p].None? && writes[p] == 0
    ensures Placed(values, writes, width, 0)
  {
    forall p | 0 <= p < |values|
      ensures Rank(OriginOf(width, p)) >= 0
    {
      OriginDetermines(width, p);
    }
  }

  /** Writing the pixel whose rank is t extends the placed pixels to the first t + 1. */
  lemma {:induction false} PlacedStep(values: seq<Option<Origin>>, writes: seq<nat>, width: int, p: int, t: int)
    requires width > 0 && width % 8 == 0 && Placed(values, writes, width, t)
    requires 0 <= p < |values| && Rank(OriginOf(width, p)) == t
    ensures Placed(values[p := Some(OriginOf(width, p))], writes[p := writes[p] + 1], width, t + 1)
  {
    forall q | 0 <= q < |values| && q != p
      ensures Rank(OriginOf(width, q)) != t
    {
      if Rank(OriginOf(width, q)) == t {
        RankUnique(width, p, q);
      }
    }
  }

  /** Once every block is done, every pixel is placed. */
  lemma {:induction false} PlacedDone(values: seq<Option<Origin>>, writes: seq<nat>, width: int, height: int, idx: int, t: int)
    requires ValidDimensions(width, height) && |values| == width * height
    requires idx == (height / 8) * (width / 8) && t == 64 * idx && Placed(values, writes, width, t)
    ensures forall p | 0 <= p < |values| :: values[p] == Some(OriginOf(width, p)) && writes[p] == 1
  {
    BlockCount(width, height, idx);
    RanksBelow(width, height, t);
  }

  /** The blocks counted row by row are the `num_blocks` blocks. */
  lemma {:induction false} BlockCount(width: int, height: int, idx: int)
    requires ValidDimensions(width, height) && idx == (height / 8) * (width / 8)
    ensures idx == NumBlocks(width, height)
  {
  }

  /** Every pixel's write comes before the last block is done. */
  lemma {:induction false} RanksBelow(width: int, height: int, t: int)
    requires ValidDimensions(width, height) && t == 64 * NumBlocks(width, height)
    ensures forall p | 0 <= p < width * height :: Rank(OriginOf(width, p)) < t
  {
    forall p | 0 <= p < width * height
      ensures Rank(OriginOf(width, p)) < t
    {
      OriginInRange(width, height, p);
    }
  }

  /** At the end of a row of blocks, idx has counted the blocks of one more row. */
  lemma {:induction false} RowDone(width: int, j: int)
    requires width > 0 && width % 8 == 0 && j >= 0 && j % 8 == 0
    ensures (j / 8) * (width / 8) + width / 8 == ((j + 8) / 8) * (width / 8)
  {
    assert (j + 8) / 8 == j / 8 + 1;
    assert (j / 8 + 1) * (width / 8) == (j / 8) * (width / 8) + width / 8;
  }

  /** A pixel of the block at (j, i), at offset (y, x), lies in the buffer and has that
      block's raster number and the offset, transposed, as its origin. */
  lemma {:induction false} PixelAt(width: int, height: int, j: int, i: int, y: int, x: int, idx: int, p: int)
    requires ValidDimensions(width, height)
    requires 0 <= j < height && j % 8 == 0 && 0 <= i < width && i % 8 == 0
    requires 0 <= y < 8 && 0 <= x < 8
    requires idx == (j / 8) * (width / 8) + i / 8 && p == (j + y) * width + (i + x)
    ensures 0 <= p < width * height
    ensures OriginOf(width, p) == Origin(idx, x, y)
  {
    InBuffer(width, height, j + y, i + x);
    PixelOrigin(width, j + y, i + x, p);
    DivModUnique(j + y, 8, j / 8, y);
    DivModUnique(i + x, 8, i / 8, x);
  }

  /** The pixel at row dy and column dx has the quotient and remainder of p by the width
      as its row and column. */
  lemma {:induction false} PixelOrigin(width: int, dy: int, dx: int, p: int)
    requires width > 0 && 0 <= dx < width && p == dy * width + dx
    ensures OriginOf(width, p) == Origin((dy / 8) * (width / 8) + dx / 8, dx % 8, dy % 8)
  {
    DivModUnique(p, width, dy, dx);
  }

  /** The pixel at row dy and column dx of a width x height image lies in the buffer. */
  lemma {:induction false} InBuffer(width: int, height: int, dy: int, dx: int)
    requires 0 <= dy < height && 0 <= dx < width
    ensures 0 <= dy * width + dx < width * height
  {
    MulBelow(dy, height, width);
    assert (dy + 1) * width == dy * width + width;
    if dy + 1 < height {
      MulBelow(dy + 1, height, width);
    }
  }

  /** Every pixel of the buffer comes from one of the `num_blocks` blocks, so the block
      lists are indexed in bounds. */
  lemma {:induction false} OriginInRange(width: int, height: int, p: int)
    requires ValidDimensions(width, height) && 0 <= p < width * height
    ensures 0 <= OriginOf(width, p).block < NumBlocks(width, height)
    ensures 0 <= OriginOf(width, p).row < 8 && 0 <= OriginOf(width, p).col < 8
    ensures 0 <= Rank(OriginOf(width, p)) < 64 * NumBlocks(width, height)
  {
    var dy, dx := p / width, p % width;
    OriginDetermines(width, p);
    RowBelow(width, height, p);
    InBuffer(width / 8, height / 8, dy / 8, dx / 8);
  }

  /** A pixel index below width * height lies in one of the height rows. */
  lemma {:induction false} RowBelow(width: int, height: int, p: int)
    requires width > 0 && height > 0 && 0 <= p < width * height
    ensures 0 <= p / width < height
  {
    var dy := p / width;
    DivModOf(p, width);
    if dy >= height {
      if dy > height {
        MulBelow(height, dy, width);
      }
      assert false;
    }
  }

  /** The origin of a pixel determines it: the block number splits back into block row
      and column, and with the offsets gives the row and column of the pixel. */
  lemma {:induction false} OriginDetermines(width: int, p: int)
    requires width > 0 && width % 8 == 0 && p >= 0
    ensures var o := OriginOf(width, p);
      o.block >= 0 && 0 <= o.row < 8 && 0 <= o.col < 8
      && p == (8 * (o.block / (width / 8)) + o.col) * width + 8 * (o.block % (width / 8)) + o.row
  {
    var dy, dx := p / width, p % width;
    DivModOf(p, width);
    var c := width / 8;
    BlockParts(width, c, dy, dx, dy / 8, dy % 8, dx / 8, dx % 8, (dy / 8) * c + dx / 8);
  }

  /** The arithmetic of `OriginDetermines` on named quantities: a pixel at row dy and
      column dx, split into block coordinates and offsets, and its block number. */
  lemma {:induction false} BlockParts(width: int, c: int, dy: int, dx: int, br: int, row: int, bc: int, col: int, block: int)
    requires width == 8 * c && c > 0 && dy >= 0 && 0 <= dx < width
    requires dy == 8 * br + row && 0 <= row < 8 && dx == 8 * bc + col && 0 <= col < 8
    requires block == br * c + bc
    ensures block >= 0 && block / c == br && block % c == bc
    ensures (8 * br + row) * width + 8 * bc + col == dy * width + dx
  {
    MulBelow(br, br + 1, c);
    DivModUnique(block, c, br, bc);
  }

  /** Two origins with the same rank are the same, the offsets being below 8. */
  lemma {:induction false} RankDetermines(a: Origin, b: Origin)
    requires 0 <= a.row < 8 && 0 <= a.col < 8 && 0 <= b.row < 8 && 0 <= b.col < 8
    requires Rank(a) == Rank(b)
    ensures a == b
  {
    DivModUnique(Rank(a), 64, a.block, 8 * a.col + a.row);
    DivModUnique(Rank(b), 64, b.block, 8 * b.col + b.row);
    DivModUnique(8 * a.col + a.row, 8, a.col, a.row);
    DivModUnique(8 * b.col + b.row, 8, b.col, b.row);
  }

  /** No two pixels are written at the same step of the loops. */
  lemma {:induction false} RankUnique(width: int, p: int, q: int)
    requires width > 0 && width % 8 == 0 && p >= 0 && q >= 0
    requires Rank(OriginOf(width, p)) == Rank(OriginOf(width, q))
    ensures p == q
  {
    OriginDetermines(width, p);
    OriginDetermines(width, q);
    RankDetermines(OriginOf(width, p), OriginOf(width, q));
  }
}
