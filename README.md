# Entropy coding of a JPEG-style image codec, in Dafny

This project models the integer half of a small JPEG-style codec written in C. It
covers both directions. The compressor turns quantised 8x8 blocks into a bit stream:

- a zigzag scan into 64-coefficient vectors;
- difference coding of the DC coefficients;
- run-length coding of the AC coefficients, with ZRL and EOB entries;
- Huffman prefixes and complement-1 value bits;
- an MSB-first bit writer with one zero-padded flush.

The decompressor reads that stream back:

- the bit reader;
- prefix decoding of DC and AC symbols, block by block and channel by channel;
- the run-length expander;
- the DC prefix sums;
- the inverse scan;
- the index arithmetic that places each block's pixels in the image.

The Huffman tables `dc_table` and `ac_table` are declared `extern` in
libjpeg/include/types.h:108-117. Their definitions lie outside the modelled files, so here
they are parameters. `Huffman.ValidTables` collects what both directions
assume of them:

- each is a prefix code whose codes fit the decoders' 8-bit and 26-bit buffers;
- entry k of the DC table has category k;
- the AC table holds `"1010"` for (0, 0), the EOB code the encoder writes without a
  lookup.

Modules, one file each:

| file | module | source |
|---|---|---|
| base.dfy | `Base` | bits, bytes and powers of two shared by the rest |
| bitio.dfy | `BitIo` | libjpeg/src/bit_functions.c |
| zigzag.dfy | `ZigZag` | `zigzag` in libjpeg/src/img_functions.c |
| dcpredictor.dfy | `DcPredictor` | `delta_encoding_DC`, `delta_decoding` |
| runlength.dfy | `RunLength` | `coef_category`, `RLE_encode_AC`, `rle_to_block` |
| huffman.dfy | `Huffman` | `decode_dc`, `decode_ac`, `read_rle_block`, `write_channel_blocks` |
| compressor.dfy | `Compressor` | `process_AC_coef` and the payload part of `compress_jpeg` |
| decompressor.dfy | `Decompressor` | `num_blocks`, `read_all_blocks`, `rle_to_blocks`, `blocks_to_pixels` |
| pipeline.dfy | `Pipeline` | the two directions composed |

How the C state and data become Dafny:

- `Bit_Read_Write` becomes two classes, `BitIo.BitWriter` and `BitIo.BitReader`. They
  keep the source's `buffer` and `bit_count` fields.
- The `FILE` is a byte sequence: the writer appends to it and the reader consumes it
  from the front.
- Ghost fields give each object's content as bits: `Written()` for the writer and
  `Remaining()` for the reader. Every routine is specified against that content.
- `Blocks_ZigZag` becomes `DcPredictor.BlocksZigZag`, a class whose three channel
  fields are sequences of vectors.
- `zigzag` works on an `array2` and a 64-element `array`. `RLE_encode_AC` fills a
  64-slot array.
- The encoder's lists of RLE entries are sequences of `RunLength.RleCoef`. A block's
  length stands for the matching `sizes[i]`.
- The three `write_channel_blocks` calls and the flush of compressor.c:122-126, and the
  three loops of decompressor.c:93-101, run one shared writer or reader. The calls are
  the method `Compressor.WriteChannels`, the calls and the flush are
  `Compressor.WritePayload`, and the loops are `Decompressor.ReadAllBlocks`.
- Each pure function gives the meaning of one routine: `RleEncode`, `Expand`,
  `ReadBlock`, `ChannelBits`, `ReadAll`, and so on. Each method is proved against its
  function, and the properties are lemmas about those functions.

Paths below are relative to the repository root.

## Model

| member | source | states |
|---|---|---|
| Base.UnpackPack | libjpeg/src/bit_functions.c:9-19 | whole bytes packed MSB-first read back, bit for bit, as the bits that were packed |
| Base.PackUnpack | libjpeg/src/bit_functions.c:59-70 | reading a file's bytes as bits and packing them again gives the same bytes |
| Base.FlushedFileBits | libjpeg/src/bit_functions.c:34-39 | bits padded with zeros to a byte boundary and packed read back as those bits followed by the zeros |
| BitIo.BitWriter.constructor | libjpeg/src/bit_functions.c:3-7 | a new writer has an empty buffer and count and has written nothing |
| BitIo.BitWriter.WriteBit | libjpeg/src/bit_functions.c:9-19 | appends one bit (1 for any nonzero argument) to what was written; the eighth pending bit emits the buffer as one byte and resets buffer and count, otherwise the buffer shifts left and takes the bit |
| BitIo.BitWriter.WriteBits | libjpeg/src/bit_functions.c:21-26 | appends one bit per character, 1 exactly for '1' and 0 for any other character |
| BitIo.BitWriter.WriteNBits | libjpeg/src/bit_functions.c:28-32 | appends the low n bits of the value, most significant first, and nothing for n <= 0 |
| BitIo.BitWriter.Flush | libjpeg/src/bit_functions.c:34-39 | emits one zero-padded byte of the pending bits when there are any and nothing otherwise; the file is then everything written padded to a whole byte (the count is not reset) |
| BitIo.BitWriter.WriteBitsComplement1 | libjpeg/src/bit_functions.c:41-51 | appends the n-bit complement-1 code of the value: the magnitude's low n bits for v >= 0, their inversion for v < 0 |
| BitIo.BitReader.constructor | libjpeg/src/bit_functions.c:53-57 | a new reader over a file has all of the file's bits unread |
| BitIo.BitReader.ReadBit | libjpeg/src/bit_functions.c:59-70 | returns -1 exactly when the buffer is empty and no byte is left, and otherwise the next unread bit, which it consumes |
| BitIo.BitReader.ReadNBits | libjpeg/src/bit_functions.c:72-80 | returns the value of the next n bits MSB-first and consumes them; -1 with everything consumed when fewer remain; 0 for n <= 0 |
| BitIo.BitReader.ReadBitsComplement1 | libjpeg/src/bit_functions.c:82-94 | returns the complement-1 value of the next n bits; returns 0 on end of file, the same as a decoded 0 |
| BitIo.Complement1RoundTrip | libjpeg/src/bit_functions.c:41-94 | for v whose magnitude needs exactly n >= 1 bits, reading back the n written bits gives v, and the first bit is 1 exactly when v > 0 |
| BitIo.Complement1Pattern | libjpeg/src/bit_functions.c:41-51 | in that range the code is v itself for positive v and 2^n - 1 + v for negative v |
| BitIo.ExtendNonZero | libjpeg/src/bit_functions.c:82-94 | a read value is never 0 for n >= 1, and a category-0 (ZRL) read gives 0 |
| BitIo.ReadBackLowBits | libjpeg/src/bit_functions.c:72-80 | the first n bits of the low n bits of a value followed by anything read as the value mod 2^n, and the rest is untouched |
| ZigZag.WalkIsPermutation | libjpeg/src/img_functions.c:85-112 | the first 64 positions of the walk are all inside the block, pairwise distinct, and cover every cell |
| ZigZag.WalkEnds | libjpeg/src/img_functions.c:86-111 | the walk starts at (0, 0), is at (7, 7) after 63 moves, and its 64th move goes to (8, 7), outside the block, after the last access |
| ZigZag.StepIndex | libjpeg/src/img_functions.c:92-110 | from every cell but (7, 7) one move stays in the block and advances the scan position by exactly one |
| ZigZag.WalkOfIndex | libjpeg/src/img_functions.c:85-112 | the cell reached at the scan position of c is c |
| ZigZag.UnscanScan | libjpeg/src/img_functions.c:89-90 | refilling a block from its scanned vector gives the block back |
| ZigZag.ScanUnscan | libjpeg/src/img_functions.c:89-90 | scanning a block filled from a vector gives the vector back |
| ZigZag.Zigzag | libjpeg/src/img_functions.c:85-112 | type 0 fills v with the block in scan order and leaves the block alone; any other type fills the block from v and leaves v alone |
| ZigZag.ScanInto | libjpeg/src/img_functions.c:88-89 | the walk with v[k] := block[i][j] leaves v holding the block in scan order |
| ZigZag.UnscanFrom | libjpeg/src/img_functions.c:88-90 | the walk with block[i][j] := v[k] leaves the block holding the inverse scan of v |
| DcPredictor.BlocksZigZag.DeltaEncodingDc | libjpeg/src/img_functions.c:114-122 | each channel becomes its delta coding, over the same number of blocks |
| DcPredictor.BlocksZigZag.DeltaDecoding | libjpeg/src/img_functions.c:271-279 | each channel becomes its running-sum decoding, over the same number of blocks |
| DcPredictor.DeltaChannelEffect | libjpeg/src/img_functions.c:117-121 | delta coding sets DC[i] to DC[i] - DC[i-1], using the old values, for i >= 1; it keeps DC[0] and coefficients 1..63 |
| DcPredictor.DeltaSmall | libjpeg/src/img_functions.c:115-117 | with 0 or 1 blocks, delta coding changes nothing |
| DcPredictor.UndeltaDelta | libjpeg/src/img_functions.c:271-279 | decoding after encoding restores every block |
| DcPredictor.DeltaUndelta | libjpeg/src/img_functions.c:114-122 | encoding after decoding restores every block |
| RunLength.CoefCategory | libjpeg/src/img_functions.c:171-181 | the shift loop's count is the category of the value |
| RunLength.CategoryBounds | libjpeg/src/img_functions.c:171-181 | the category is 0 iff v = 0; otherwise it is c with 2^(c-1) <= abs(v) < 2^c |
| RunLength.CategoryUnique | libjpeg/src/img_functions.c:171-181 | any c with 2^(c-1) <= abs(v) < 2^c is the category of v |
| RunLength.CategorySymmetric | libjpeg/src/img_functions.c:172 | the category of -v is that of v |
| RunLength.CategoryMonotone | libjpeg/src/img_functions.c:171-181 | a larger magnitude never has a smaller category |
| RunLength.RleEncodeAc | libjpeg/src/img_functions.c:124-169 | the count is between 1 and 64, so the buffer is never overrun, and the buffer's first count entries are the run-length code of the vector |
| RunLength.EndBlock | libjpeg/src/img_functions.c:154-165 | the EOB step trims the trailing ZRLs and then appends one EOB |
| RunLength.RleEncodeShape | libjpeg/src/img_functions.c:125-152 | 1 to 64 entries; entry 0 is (0, category(dc), dc); every later entry is a ZRL (15, 0, 0), a run (skip <= 15, category(v), v) with v != 0, or a final EOB |
| RunLength.RleEncodeEob | libjpeg/src/img_functions.c:154-165 | the code ends with an EOB iff the final skip is > 0; there is no EOB before the last entry and no ZRL right before the EOB |
| RunLength.RleEncodeAllZero | libjpeg/src/img_functions.c:154-165 | a block whose AC part is all zero is coded as exactly (0, category(dc), dc) and an EOB |
| RunLength.ExpandRleEncode | libjpeg/src/img_functions.c:281-298 | expanding the run-length code of any 64-coefficient vector gives the vector back |
| RunLength.ExpandStopsAtEob | libjpeg/src/img_functions.c:289 | the expander stops at the first EOB after entry 0: later entries do not matter |
| RunLength.RleToBlock | libjpeg/src/img_functions.c:281-298 | the 64-element block the loop fills is the expansion of the entries: runs of zeros, the values, zeros after the end, nothing written past 63 |
| RunLength.RleEncodeMissingEob | libjpeg/src/img_functions.c:154-169 | as written: if coefficients 62 and 63 are nonzero and some AC coefficient is 0, the code has fewer than 64 entries and no EOB |
| RunLength.MissingEobExample | libjpeg/src/img_functions.c:154 | as written: the block (7, 0, 1, 1, ..., 1) gets an unterminated code |
| RunLength.EmptyRunMissingEob | libjpeg/src/img_functions.c:137-169 | as written: whenever the loop ends with an empty run and some AC coefficient is 0, the code has fewer than 64 entries and no EOB |
| RunLength.ScanAcRun | libjpeg/src/img_functions.c:137-152 | the run the loop ends with depends only on the coefficients and the run it starts from, not on the entries written |
| RunLength.ZrlMissingEob | libjpeg/src/img_functions.c:137-169 | as written: coefficient 46 nonzero, sixteen zeros at 47 to 62 and coefficient 63 nonzero give a ZRL at 62, which resets the run because 62 is not 63, so the code has fewer than 64 entries and no EOB |
| RunLength.ZrlMissingEobExample | libjpeg/src/img_functions.c:144 | as written: the block (7, 1 x 46, 0 x 16, 1) gets an unterminated code |
| RunLength.RleEncodeFixedCorrect | libjpeg/src/img_functions.c:154-169 | the corrected coder ends every block with an EOB or at 64 entries; it keeps the entry shape and expands back to the vector |
| Huffman.FirstMatch | libjpeg/src/img_functions.c:208-213 | the table scan finds the first entry whose prefix equals the buffer, or reports that none does |
| Huffman.Lookup | libjpeg/src/img_functions.c:202-216 | growing the buffer one read bit at a time, the decoder stops at the shortest length, at most the limit, whose bits equal a prefix |
| Huffman.FindPrefix | libjpeg/src/img_functions.c:208-213 | the loop returns the index of the first matching entry, or -1 |
| Huffman.DecodeSymbol | libjpeg/src/img_functions.c:200-235 | the shared decoding loop: the matched index and the bits consumed up to the match, or -1 on end of file or when nothing matches within the limit |
| Huffman.DecodeDc | libjpeg/src/img_functions.c:200-216 | `decode_dc`: success with the DC table's category, or failure, as the 8-bit-limited decoding says |
| Huffman.DecodeAc | libjpeg/src/img_functions.c:218-235 | `decode_ac`: success with the AC entry's run and category, or failure, as the 26-bit-limited decoding says |
| Huffman.DecodeCode | libjpeg/src/img_functions.c:200-235 | with a prefix code, the code of entry j followed by anything decodes to exactly entry j and consumes exactly its code |
| Huffman.ReadRleBlock | libjpeg/src/img_functions.c:237-269 | returns the block the reading function gives for the unread bits, or None (NULL) on a decode failure, and consumes exactly what that reading consumes |
| Huffman.ReadBlockShape | libjpeg/src/img_functions.c:237-269 | a block read in full has 1 to 64 entries, entry 0 with skip 0, no EOB before its last entry, and ends at an EOB or at 64 entries; reading only consumes bits |
| Huffman.ValueRoundTrip | libjpeg/src/img_functions.c:258-262 | the value bits of an entry whose category is its value's read back as that value; a ZRL writes and reads nothing and gives 0 |
| Huffman.EobRoundTrip | compressor/src/compressor.c:520-522 | with valid tables the hard-coded "1010" decodes as the AC table's (0, 0) entry |
| Huffman.LastKey | compressor/src/compressor.c:528-532 | the AC table search finds the last entry with the key, so a later match wins, or reports that none has it |
| Huffman.FindAcPrefix | compressor/src/compressor.c:526-532 | the search loop yields the prefix of the last matching entry, or None (NULL) |
| Huffman.DcCategoryInTable | compressor/src/compressor.c:505-507 | with the 11-entry DC table, `dc_table[dc_category]` is inside the table exactly when the DC difference has magnitude below 1024 |
| Huffman.WriteBlock | compressor/src/compressor.c:504-544 | one block: appends the DC prefix, then the DC value bits only when the category is > 0, then the AC entries; reports whether the block was written in full |
| Huffman.WriteAcEntries | compressor/src/compressor.c:517-544 | AC entries 1 to size-1: an EOB writes "1010" and ends the block; any other entry writes its prefix and its value bits; an entry with no prefix stops the writing |
| Huffman.WriteChannelBlocks | compressor/src/compressor.c:503-545 | appends the channel's blocks one after the other, with no padding, up to the first entry with no AC prefix, where the routine returns |
| Huffman.BlockRoundTrip | libjpeg/src/img_functions.c:237-269 | with valid tables, a block the writer writes in full (1..64 entries, categories of the values, an EOB only at the end, terminated) is read back by `read_rle_block` exactly, whatever follows it |
| Compressor.ProcessAcCoef | libjpeg/src/img_functions.c:183-198 | entry i is the run-length code of vector i, for every block of the channel |
| Compressor.WriteChannels | compressor/src/compressor.c:122-124 | the three channels are written on one writer: all Y, then all Cb, then all Cr, and nothing between them |
| Compressor.WritePayload | compressor/src/compressor.c:115-126 | a fresh writer, the three channels and a single flush produce the payload bytes |
| Compressor.PayloadLayout | compressor/src/compressor.c:122-126 | the file holds the payload bits followed by fewer than 8 zero bits, in as few bytes as hold them, with no padding per block or per channel |
| Compressor.ChannelStopsAt | compressor/src/compressor.c:534-537 | when block k is the first that is not written in full, the channel's bits are those of the blocks before it, then what was written of block k, and nothing after |
| Compressor.PayloadAfterCut | compressor/src/compressor.c:122-126 | a Y channel cut short at block k still has the Cb and Cr channels written after it |
| Compressor.ChannelWhole | compressor/src/compressor.c:503-545 | when every block is written in full, the channel's bits are all its blocks' bits one after the other |
| Decompressor.NumBlocks | decompressor/src/decompressor.c:36-41 | for the sizes `readInfoHeader` accepts the image is tiled exactly: 64 n = width * height and n = (width / 8) * (height / 8) |
| Decompressor.ReadChannelBlocks | decompressor/src/decompressor.c:93-95 | n blocks are read from the shared reader, each stored unchecked (a failure stays as None), and the reader is left after the last one |
| Decompressor.ReadAllBlocks | decompressor/src/decompressor.c:81-104 | one reader over the payload; n Y blocks, then n Cb, then n Cr, each channel going on where the previous stopped, with no realignment |
| Decompressor.ReadChannelBlocksShape | decompressor/src/decompressor.c:93-101 | every block that does read back has 1 to 64 entries, entry 0 with no run, and an EOB only at its end or 64 entries |
| Decompressor.RleToBlocks | decompressor/src/decompressor.c:106-122 | keeps the block count; block i of each channel is the expansion of that channel's entry i |
| Decompressor.BlocksToPixels | decompressor/src/decompressor.c:124-176 | each of the width * height pixel slots is written exactly once, with the block, row and column its value comes from |
| Decompressor.PlaceRows | decompressor/src/decompressor.c:129-173 | on a buffer with nothing written, `idx` from 0 and the rows of blocks in turn write every pixel exactly once, with its origin |
| Decompressor.PlaceRow | decompressor/src/decompressor.c:132-172 | one row of blocks: idx advances by width / 8, and the next 64 * (width / 8) writes in loop order are done |
| Decompressor.PlaceBlock | decompressor/src/decompressor.c:162-170 | the 64 pixels of block idx are written, one loop step each |
| Decompressor.OriginInRange | decompressor/src/decompressor.c:162-168 | every pixel's block is below num_blocks and its offsets are below 8: all reads and writes are in bounds |
| Decompressor.OriginDetermines | decompressor/src/decompressor.c:164-166 | a pixel's block number and offsets give back its index dy * width + dx |
| Decompressor.RankUnique | decompressor/src/decompressor.c:131-173 | no two pixels are written at the same step of the loops |
| Pipeline.ReadManyConcat | decompressor/src/decompressor.c:93-95 | when each chunk reads back as its block whatever follows it, the chunks one after the other read back as all the blocks, and the reader stops where the following bits begin |
| Pipeline.ChannelBitsChunks | compressor/src/compressor.c:503-545 | when every block is written in full, the channel from block i on is the blocks' own bits one after the other |
| Pipeline.ChunksReadBack | compressor/src/compressor.c:503-545 | each block of a channel of encodable blocks is written in full, and its bits read back as the block whatever follows them |
| Pipeline.ChannelRoundTrip | decompressor/src/decompressor.c:93-95 | a channel of encodable blocks written by `write_channel_blocks` reads back as the same blocks, all present, and leaves what follows unread |
| Pipeline.StreamRoundTrip | decompressor/src/decompressor.c:81-104 | the payload of three channels of n encodable blocks each reads back as the same three channels, whatever padding the flush added |
| Pipeline.FixedChannelExpands | decompressor/src/decompressor.c:106-122 | expanding the corrected run-length code of each vector of a channel gives the vectors back |
| Pipeline.ChannelEncodable | compressor/src/compressor.c:82-104 | blocks that are scanned, delta coded and run-length coded by the corrected coder (`RleEncodeFixed`) are encodable when the tables hold their categories and AC keys |
| Pipeline.BlocksRoundTrip | decompressor/src/decompressor.c:44-148 | decoding the coded blocks (expand in `rle_to_blocks`, prefix sums in `delta_decoding`, the inverse scan `zigzag(..., 1)` of `blocks_to_pixels`) gives the quantised blocks back |
| Pipeline.CodecRoundTrip | decompressor/src/decompressor.c:39-49 | with valid tables, three channels of quantised blocks encoded and written as `compress_jpeg` does, but run-length coded by the corrected coder (`RleEncodeFixed`), decode back to the same blocks, with no block failing |

## Left out

- Floating point: colour conversion, chroma subsampling, the DCT and its inverse,
  quantisation, dequantisation and the level shift. They are floating-point numerics
  with `round()` and the basis matrix `C`, which is declared `extern` in
  libjpeg/include/types.h:108-117 and defined outside the modelled files. The model
  starts and ends at quantised integer blocks.
- The contents of `dc_table`, `ac_table`, `lumin_matrix` and `chrom_matrix`. They are
  declared `extern` in libjpeg/include/types.h:108-117, and their definitions lie outside
  the modelled files. The two code tables are parameters under
  `ValidTables`, and the matrices belong to the floating-point part.
- BMP input and output (libjpeg/src/bmp.c) and both `main.c` files. A file becomes a
  byte sequence. `readInfoHeader`'s accepted dimensions (multiples of 8, from 8x8 to
  1280x800) are the precondition `Decompressor.ValidDimensions`. The bit-depth and
  compression checks do not affect the indices.
- The two header records `compress_jpeg` writes before the payload.
  `BitIo.BitWriter.constructor` starts on an empty file, and `ReadAllBlocks` takes the
  bytes after the headers.
- malloc failures, NULL results of allocation, the freeing routines and the leaks on
  early returns. Dafny's memory is managed.
- printf diagnostics, including the message `write_channel_blocks` prints before
  returning early.
- 32-bit `int`: coefficients, counts and indices are unbounded integers. The
  quantised coefficients and the image sizes allowed stay far from overflow. The
  reader's and writer's `buffer` is kept to 0..255 explicitly, as the byte `fputc`
  writes and `fgetc` returns.
- BitIo.BitReader.ReadBitsComplement1: for `n_bits == 0`, reached for every ZRL
  entry, the source shifts by -1, which C leaves undefined. The model returns 0. That
  is what both branches of the source return whatever the shift yields, since the
  value read and the mask are then both 0.
- Null prefixes: the decoders skip table entries whose `prefix` is NULL. Every model
  table entry has a prefix, since `ValidTables` asks for nonempty binary codes.
- Huffman.WriteBlock, Huffman.WriteChannelBlocks, Compressor.WriteChannels and
  Compressor.WritePayload: require every block's DC category to be below `|dc|`
  (`Huffman.HasDcEntries`). compressor.c:505-507 indexes `dc_table[dc_category]` with no
  check, and a DC difference of magnitude 1024 or more has category 11 or more
  (`Huffman.DcCategoryInTable`), which reads past the end of the 11-entry table. That
  read is undefined in C, so the model has no defined behaviour to give it. Whether it
  can happen depends on the quantisation matrices, which are not part of this model.
- Decompressor.RleToBlocks: requires every block to have been read. For a NULL
  entry, `rle_to_block` is passed a NULL pointer and a size that was never set, which
  C leaves undefined. `Pipeline.DecodeRle` returns None in that case instead.
- Decompressor.BlocksToPixels: models only the index arithmetic. Each slot records
  which block, row and column it comes from, not the floating-point colour values.
- ZigZag.Zigzag: tests `type` once, before the walk, and then runs `ScanInto` or
  `UnscanFrom`. The source tests it at every step, but it does not change during the
  walk.
- The byte counts `sizes[i]` are the lengths of the entry sequences, and the 64-slot
  buffers are arrays of 64. `EndBlock`, `WriteAcEntries`, `WriteAcEntry`, `PlaceRows`, `PlaceRow`, `PlaceBlock` and
  `ReadChannelBlocks` are loops of the source split into their own methods.
- The copies in compressor/src/compressor.c of `aplicar_zigzag`, `delta_encoding_DC`,
  `coef_category`, `RLE_encode_AC`, `process_AC_coef` and the bit writer have the
  same statements as the library routines, under older type names, apart from the
  allocation-failure checks that `RLE_encode_AC` and `process_AC_coef` leave out there
  (compressor.c:377-381 and 424-430); and `aplicar_zigzag` is the type-0 walk only, with
  no `type` test. Each is modelled
  by the library routine's member, and the table cites the library routine: `ZigZag.ScanInto` also stands for compressor/src/compressor.c:221-247, `DcPredictor.BlocksZigZag.DeltaEncodingDc` for 345-363, `RunLength.CoefCategory` for 365-375, `RunLength.RleEncodeAc` for 377-422 and `Compressor.ProcessAcCoef` for 424-430.
- Pipeline.CodecRoundTrip and Pipeline.ChannelEncodable: the whole-codec round trip and
  the encodability of encoded blocks are stated for the corrected run-length coder
  `RleEncodeFixed` (see Findings), not for `RLE_encode_AC` as written, which
  compressor.c:104 runs. For the coder as written they are false: the vector of
  `RunLength.MissingEobExample` gets a block that is not terminated, so it is not
  encodable whatever the tables. For the coder as written, `Pipeline.StreamRoundTrip` covers
  every channel whose blocks are terminated.

## Findings

| source | as written | input that shows it | evidently intended | confidence | as-written member | corrected member |
|---|---|---|---|---|---|---|
| libjpeg/src/img_functions.c:154-169 | an EOB is appended only when the final skip is > 0, so a block whose coefficients 62 and 63 are nonzero (or which has a ZRL at 62 and a nonzero coefficient 63, `RunLength.ZrlMissingEob`), but which has a zero AC coefficient, ends with fewer than 64 entries and no EOB; `write_channel_blocks` writes no EOB for it, and `read_rle_block` goes on reading the next block's bits as more AC entries | the vector 7, 0, 1, 1, ..., 1 (DC 7, AC 1 zero, AC 2..63 one) gives 63 entries and no EOB | every block ends with an EOB unless it has 64 entries | not executed | RunLength.RleEncodeMissingEob | RunLength.RleEncodeFixedCorrect |
