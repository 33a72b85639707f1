/** The symbol layer: the Huffman prefixes of the DC categories and of the AC
    (run, category) pairs, read by `decode_dc`, `decode_ac` and `read_rle_block`
    (libjpeg/src/img_functions.c) and written by `write_channel_blocks`
    (compressor/src/compressor.c). The tables `dc_table` and `ac_table` are declared
    `extern` in libjpeg/include/types.h:115-117; their definitions lie outside the
    modelled files, so they are parameters here, with the assumptions both directions
    rely on collected in `ValidTables`. */
module Huffman {
  import opened Base
  import opened BitIo
  import opened RunLength

  /** `DC_Huffman_Code`: the prefix of one DC category. */
  datatype DcCode = DcCode(category: nat, prefix: string)

  /** `AC_Huffman_Code`: the prefix of a run of `zeros` zeros followed by a coefficient
      of category `category`. */
  datatype AcCode = AcCode(zeros: nat, category: nat, prefix: string)

  /** The decoders give up after this many bits (the sizes of their buffers). */
  const DcMaxLength: nat := 8
  const AcMaxLength: nat := 26

  /** The prefix the encoder writes for an EOB without consulting the table. */
  const EobCode: string := "1010"

  function DcPrefixes(dc: seq<DcCode>): (ps: seq<string>)
    ensures |ps| == |dc| && forall k | 0 <= k < |dc| :: ps[k] == dc[k].prefix
  {
    seq(|dc|, k requires 0 <= k < |dc| => dc[k].prefix)
  }

  function AcPrefixes(ac: seq<AcCode>): (ps: seq<string>)
    ensures |ps| == |ac| && forall k | 0 <= k < |ac| :: ps[k] == ac[k].prefix
  {
    seq(|ac|, k requires 0 <= k < |ac| => ac[k].prefix)
  }

  // ---------------------------------------------------------------------------
  // The tables

  predicate IsBinary(s: string)
  {
    forall k | 0 <= k < |s| :: s[k] == '0' || s[k] == '1'
  }

  predicate IsPrefix(a: string, b: string)
  {
    |a| <= |b| && b[..|a|] == a
  }

  /** No prefix of the table starts another one; in particular no two are equal. */
  predicate PrefixFree(ps: seq<string>)
  {
    forall a, b | 0 <= a < |ps| && 0 <= b < |ps| && a != b :: !IsPrefix(ps[a], ps[b])
  }

  /** A prefix code whose words the decoder can reach: binary, nonempty and no longer
      than the decoder's buffer. */
  predicate CodeTable(ps: seq<string>, maxLen: nat)
  {
    PrefixFree(ps) && forall k | 0 <= k < |ps| :: 1 <= |ps[k]| <= maxLen && IsBinary(ps[k])
  }

  /** What the two directions assume of `dc_table[11]` and `ac_table[162]`: both are
      prefix codes within the decoders' reach; entry k of the DC table is category k,
      since the encoder indexes the table by category while the decoder reads the
      `category` field; and the AC table holds the EOB code the encoder hard-codes. */
  predicate ValidTables(dc: seq<DcCode>, ac: seq<AcCode>)
  {
    |dc| == 11 && |ac| == 162
    && CodeTable(DcPrefixes(dc), DcMaxLength) && CodeTable(AcPrefixes(ac), AcMaxLength)
    && (forall k | 0 <= k < |dc| :: dc[k].category == k)
    && AcCode(0, 0, EobCode) in ac
  }

  // ---------------------------------------------------------------------------
  // Decoding

  /** The characters the decoders collect in their buffer, `'0' + bit` per bit. */
  function Chars(bits: seq<bool>): (s: string)
    ensures |s| == |bits| && IsBinary(s)
    ensures forall k | 0 <= k < |bits| :: (s[k] == '1' <==> bits[k])
  {
    seq(|bits|, k requires 0 <= k < |bits| => if bits[k] then '1' else '0')
  }

  /** The inner search of the decoders: the first table index, from `from` on, whose
      prefix equals `code`. */
  function FirstMatch(ps: seq<string>, code: string, from: nat): (r: Option<nat>)
    decreases |ps| - from
    ensures r.Some? ==> from <= r.value < |ps| && ps[r.value] == code
    ensures r.Some? ==> forall k | from <= k < r.value :: ps[k] != code
    ensures r.None? ==> forall k | from <= k < |ps| :: ps[k] != code
  {
    if from >= |ps| then None
    else if ps[from] == code then Some(from)
    else FirstMatch(ps, code, from + 1)
  }

  /** A decoded symbol: its table index and the number of bits it took. */
  datatype Symbol = Symbol(index: nat, length: nat)

  /** The outer loop of the decoders on the unread bits, once `len` bits have been
      collected without a match: the symbol found at the first length (up to `maxLen`)
      whose leading bits equal some prefix of the table; none when the bits run out
      or no prefix of at most `maxLen` bits matches. */
  function Lookup(ps: seq<string>, bits: seq<bool>, maxLen: nat, len: nat): (r: Option<Symbol>)
    decreases maxLen - len
    ensures r.Some? ==> len < r.value.length <= maxLen && r.value.length <= |bits|
    ensures r.Some? ==> r.value.index < |ps| && ps[r.value.index] == Chars(bits[..r.value.length])
    ensures r.Some? ==> forall k | 0 <= k < r.value.index :: ps[k] != Chars(bits[..r.value.length])
    ensures r.Some? ==> forall m, k | len < m < r.value.length && 0 <= k < |ps| :: ps[k] != Chars(bits[..m])
    ensures r.None? ==> forall m, k | len < m <= maxLen && m <= |bits| && 0 <= k < |ps| :: ps[k] != Chars(bits[..m])
  {
    if len >= maxLen || len >= |bits| then None
    else match FirstMatch(ps, Chars(bits[..len + 1]), 0)
      case Some(k) => Some(Symbol(k, len + 1))
      case None => Lookup(ps, bits, maxLen, len + 1)
  }

  function Min(a: nat, b: nat): nat
  {
    if a < b then a else b
  }

  /** A decoder's outcome on the unread bits: the table index found, if any, and the bits
      still unread afterwards (after a failure, all bits it could read, up to `maxLen`). */
  function Decode(ps: seq<string>, bits: seq<bool>, maxLen: nat): (r: (Option<nat>, seq<bool>))
    ensures r.0.Some? ==> r.0.value < |ps|
  {
    match Lookup(ps, bits, maxLen, 0)
    case Some(s) => (Some(s.index), bits[s.length..])
    case None => (None, bits[Min(maxLen, |bits|)..])
  }

  /** `read_bits_complement1` on the unread bits: the value of the next n bits and the
      bits left; 0 and nothing left when fewer than n bits remain. */
  function ReadValue(bits: seq<bool>, n: nat): (seq<bool>, int)
  {
    if n <= |bits| then (bits[n..], Extend(BitsToNat(bits[..n]), n)) else ([], 0)
  }

  /** The entries `read_rle_block` returns (none after a decoding failure) and the bits
      it leaves unread. */
  datatype Parsed = Parsed(block: Option<seq<RleCoef>>, rest: seq<bool>)

  /** `rest` is what is left of `bits` after reading some of them. */
  predicate IsSuffix(rest: seq<bool>, bits: seq<bool>)
  {
    |rest| <= |bits| && rest == bits[|bits| - |rest|..]
  }

  /** The AC loop of `read_rle_block` on the unread bits, after the entries `coefs`. */
  function ReadAc(ac: seq<AcCode>, bits: seq<bool>, coefs: seq<RleCoef>): Parsed
    decreases 64 - |coefs|
  {
    if |coefs| >= 64 then Parsed(Some(coefs), bits)
    else
      var (k, after) := Decode(AcPrefixes(ac), bits, AcMaxLength);
      if k.None? then Parsed(None, after)
      else
        var e := ac[k.value];
        if e.zeros == 0 && e.category == 0 then Parsed(Some(coefs + [Eob]), after)
        else
          var (rest, v) := ReadValue(after, e.category);
          ReadAc(ac, rest, coefs + [RleCoef(e.zeros, e.category, v)])
  }

  /** The AC loop only consumes bits and keeps the entries it started with. */
  lemma {:induction false} ReadAcKeeps(ac: seq<AcCode>, bits: seq<bool>, coefs: seq<RleCoef>)
    decreases 64 - |coefs|
    ensures var r := ReadAc(ac, bits, coefs); IsSuffix(r.rest, bits)
    ensures var r := ReadAc(ac, bits, coefs);
      r.block.Some? ==> |coefs| <= |r.block.value| && r.block.value[..|coefs|] == coefs
    ensures var r := ReadAc(ac, bits, coefs); r.block.Some? && |coefs| >= 64 ==> r.block.value == coefs
  {
    if |coefs| < 64 {
      var (k, after) := Decode(AcPrefixes(ac), bits, AcMaxLength);
      if k.Some? {
        var e := ac[k.value];
        if !(e.zeros == 0 && e.category == 0) {
          var (rest, v) := ReadValue(after, e.category);
          var next := coefs + [RleCoef(e.zeros, e.category, v)];
          ReadAcKeeps(ac, rest, next);
          var r := ReadAc(ac, rest, next);
          assert ReadAc(ac, bits, coefs) == r;
          if r.block.Some? {
            assert r.block.value[..|coefs|] == next[..|coefs|];
          }
          assert IsSuffix(rest, bits);
        }
      }
    }
  }

  /** The AC loop stops at its first EOB and never goes past 64 entries. */
  lemma {:induction false} ReadAcEnds(ac: seq<AcCode>, bits: seq<bool>, coefs: seq<RleCoef>)
    decreases 64 - |coefs|
    ensures var r := ReadAc(ac, bits, coefs);
      r.block.Some? && 1 <= |coefs| < 64 ==> Terminated(r.block.value) && |r.block.value| <= 64
    ensures var r := ReadAc(ac, bits, coefs);
      r.block.Some? ==> forall k | |coefs| <= k < |r.block.value| - 1 :: !IsEob(r.block.value[k])
  {
    if |coefs| < 64 {
      var (k, after) := Decode(AcPrefixes(ac), bits, AcMaxLength);
      if k.Some? {
        var e := ac[k.value];
        if e.zeros == 0 && e.category == 0 {
          assert ReadAc(ac, bits, coefs) == Parsed(Some(coefs + [Eob]), after);
        } else {
          var (rest, v) := ReadValue(after, e.category);
          var next := coefs + [RleCoef(e.zeros, e.category, v)];
          assert ReadAc(ac, bits, coefs) == ReadAc(ac, rest, next);
          AcEndsStep(ac, rest, coefs, next);
        }
      }
    }
  }

  /** One non-EOB entry of the AC loop, for `ReadAcEnds`. */
  lemma {:induction false} AcEndsStep(ac: seq<AcCode>, rest: seq<bool>, coefs: seq<RleCoef>, next: seq<RleCoef>)
    requires |coefs| < 64 && |next| == |coefs| + 1 && next[..|coefs|] == coefs && !IsEob(next[|coefs|])
    decreases 64 - |coefs|, 0
    ensures var r := ReadAc(ac, rest, next);
      r.block.Some? && 1 <= |coefs| ==> Terminated(r.block.value) && |r.block.value| <= 64
    ensures var r := ReadAc(ac, rest, next);
      r.block.Some? ==> forall k | |coefs| <= k < |r.block.value| - 1 :: !IsEob(r.block.value[k])
  {
    ReadAcKeeps(ac, rest, next);
    if |next| < 64 {
      ReadAcEnds(ac, rest, next);
    }
    var r := ReadAc(ac, rest, next);
    if r.block.Some? {
      var b := r.block.value;
      assert b[..|next|] == next;
      assert b[|coefs|] == next[|coefs|];
    }
  }

  /** `read_rle_block` on the unread bits: the DC category and value, then the AC
      loop. A block read in full has between 1 and 64 entries, starts with skip 0 and
      ends at its first EOB or after 64 entries. */
  function ReadBlock(dc: seq<DcCode>, ac: seq<AcCode>, bits: seq<bool>): Parsed
  {
    var (j, after) := Decode(DcPrefixes(dc), bits, DcMaxLength);
    if j.None? then Parsed(None, after)
    else
      var category := dc[j.value].category;
      var (rest, value) := if category > 0 then ReadValue(after, category) else (after, 0);
      ReadAc(ac, rest, [RleCoef(0, category, value)])
  }

  /** A block read in full has between 1 and 64 entries, starts with skip 0 and ends
      at its first EOB or after 64 entries; reading only consumes bits. */
  lemma {:induction false} ReadBlockShape(dc: seq<DcCode>, ac: seq<AcCode>, bits: seq<bool>)
    ensures var r := ReadBlock(dc, ac, bits); IsSuffix(r.rest, bits)
    ensures var r := ReadBlock(dc, ac, bits);
      r.block.Some? ==> 1 <= |r.block.value| <= 64 && r.block.value[0].skip == 0
    ensures var r := ReadBlock(dc, ac, bits); r.block.Some? ==> Terminated(r.block.value)
    ensures var r := ReadBlock(dc, ac, bits);
      r.block.Some? ==> forall k | 1 <= k < |r.block.value| - 1 :: !IsEob(r.block.value[k])
  {
    var (j, after) := Decode(DcPrefixes(dc), bits, DcMaxLength);
    if j.Some? {
      var category := dc[j.value].category;
      var (rest, value) := if category > 0 then ReadValue(after, category) else (after, 0);
      var first := [RleCoef(0, category, value)];
      ReadAcKeeps(ac, rest, first);
      ReadAcEnds(ac, rest, first);
      var r := ReadAc(ac, rest, first);
      if r.block.Some? {
        assert r.block.value[0] == r.block.value[..1][0];
      }
    }
  }

  // ---------------------------------------------------------------------------
  // The decoders on a reader

  /** The inner loop of `decode_dc`/`decode_ac`: the first table index whose prefix
      equals the bits collected so far, or -1. */
  method FindPrefix(ps: seq<string>, code: string) returns (j: int)
    ensures var m := FirstMatch(ps, code, 0); if m.Some? then j == m.value else j == -1
  {
    j := 0;
    while j < |ps|
      invariant 0 <= j <= |ps|
      invariant FirstMatch(ps, code, j) == FirstMatch(ps, code, 0)
    {
      if ps[j] == code {
        return;
      }
      j := j + 1;
    }
    j := -1;
  }

  /** The bit loop shared by `decode_dc` and `decode_ac`: read one bit at a time, up
      to `maxLen` bits, and stop at the first table prefix equal to the bits read;
      -1 on end of file or when no prefix matches. */
  method DecodeSymbol(br: BitReader, ps: seq<string>, maxLen: nat) returns (index: int)
    requires br.Valid()
    modifies br
    ensures br.Valid()
    ensures var d := Decode(ps, old(br.Remaining()), maxLen);
      (if d.0.Some? then index == d.0.value else index == -1) && br.Remaining() == d.1
  {
    ghost var r := br.Remaining();
    var buffer: string := [];
    var i := 0;
    while i < maxLen
      invariant 0 <= i <= maxLen && i <= |r|
      invariant br.Valid() && br.Remaining() == r[i..]
      invariant buffer == Chars(r[..i])
      invariant Lookup(ps, r, maxLen, i) == Lookup(ps, r, maxLen, 0)
    {
      var bit := br.ReadBit();
      if bit < 0 {
        LookupStops(ps, r, maxLen, i);
        return -1;
      }
      buffer := buffer + [if bit == 1 then '1' else '0'];
      CharsSnoc(r, i);
      var j := FindPrefix(ps, buffer);
      LookupStep(ps, r, maxLen, i);
      i := i + 1;
      if j >= 0 {
        return j;
      }
    }
    LookupStops(ps, r, maxLen, i);
    index := -1;
  }

  lemma {:induction false} CharsSnoc(r: seq<bool>, i: nat)
    requires i < |r|
    ensures Chars(r[..i + 1]) == Chars(r[..i]) + [if r[i] then '1' else '0']
  {
    assert r[..i + 1] == r[..i] + [r[i]];
  }

  /** A decoder that has read `i` bits without a match stops at the end of the bits
      or after `maxLen` bits, having found nothing. */
  lemma {:induction false} LookupStops(ps: seq<string>, r: seq<bool>, maxLen: nat, i: nat)
    requires i <= maxLen && i <= |r| && (i == maxLen || i == |r|)
    requires Lookup(ps, r, maxLen, i) == Lookup(ps, r, maxLen, 0)
    ensures Decode(ps, r, maxLen) == (None, r[i..])
  {
  }

  /** A decoder that reads bit i + 1 either finds the first matching prefix there or
      goes on. */
  lemma {:induction false} LookupStep(ps: seq<string>, r: seq<bool>, maxLen: nat, i: nat)
    requires i < maxLen && i < |r|
    requires Lookup(ps, r, maxLen, i) == Lookup(ps, r, maxLen, 0)
    ensures var m := FirstMatch(ps, Chars(r[..i + 1]), 0);
      if m.Some? then Decode(ps, r, maxLen) == (Some(m.value), r[i + 1..])
      else Lookup(ps, r, maxLen, i + 1) == Lookup(ps, r, maxLen, 0)
  {
  }

  /** `decode_dc`: the category of the next DC prefix. */
  method DecodeDc(br: BitReader, dc: seq<DcCode>) returns (found: bool, category: int)
    requires br.Valid()
    modifies br
    ensures br.Valid()
    ensures var d := Decode(DcPrefixes(dc), old(br.Remaining()), DcMaxLength);
      found == d.0.Some? && (found ==> category == dc[d.0.value].category) && br.Remaining() == d.1
  {
    var j := DecodeSymbol(br, DcPrefixes(dc), DcMaxLength);
    if j < 0 {
      return false, 0;
    }
    return true, dc[j].category;
  }

  /** `decode_ac`: the run length and category of the next AC prefix. */
  method DecodeAc(br: BitReader, ac: seq<AcCode>) returns (found: bool, skip: int, category: int)
    requires br.Valid()
    modifies br
    ensures br.Valid()
    ensures var d := Decode(AcPrefixes(ac), old(br.Remaining()), AcMaxLength);
      found == d.0.Some? && (found ==> skip == ac[d.0.value].zeros && category == ac[d.0.value].category)
      && br.Remaining() == d.1
  {
    var j := DecodeSymbol(br, AcPrefixes(ac), AcMaxLength);
    if j < 0 {
      return false, 0, 0;
    }
    return true, ac[j].zeros, ac[j].category;
  }

  /** `read_rle_block`: the entries of one block, or none when a prefix cannot be
      decoded. */
  method ReadRleBlock(br: BitReader, dc: seq<DcCode>, ac: seq<AcCode>) returns (block: Option<seq<RleCoef>>)
    requires br.Valid()
    modifies br
    ensures br.Valid()
    ensures block == ReadBlock(dc, ac, old(br.Remaining())).block
    ensures br.Remaining() == ReadBlock(dc, ac, old(br.Remaining())).rest
  {
    ghost var r := br.Remaining();
    var found, category := DecodeDc(br, dc);
    if !found {
      return None;
    }
    var value := 0;
    if category > 0 {
      value := br.ReadBitsComplement1(category);
    }
    var coefs := [RleCoef(0, category, value)];
    while |coefs| < 64
      invariant 1 <= |coefs| <= 64
      invariant br.Valid()
      invariant ReadAc(ac, br.Remaining(), coefs) == ReadBlock(dc, ac, r)
      decreases 64 - |coefs|
    {
      var ok, skip, cat := DecodeAc(br, ac);
      if !ok {
        return None;
      }
      if skip == 0 && cat == 0 {
        coefs := coefs + [RleCoef(0, 0, 0)];
        break;
      }
      var val := br.ReadBitsComplement1(cat);
      coefs := coefs + [RleCoef(skip, cat, val)];
    }
    block := Some(coefs);
  }

  // ---------------------------------------------------------------------------
  // Encoding

  /** The AC table search of `write_channel_blocks` over the first n entries: the last
      index whose key is (skip, category), since a later match overwrites an earlier one. */
  function LastKey(ac: seq<AcCode>, skip: nat, category: nat, n: nat): (r: Option<nat>)
    requires n <= |ac|
    ensures r.Some? ==> r.value < n && ac[r.value].zeros == skip && ac[r.value].category == category
    ensures r.Some? ==> forall k | r.value < k < n :: !(ac[k].zeros == skip && ac[k].category == category)
    ensures r.None? ==> forall k | 0 <= k < n :: !(ac[k].zeros == skip && ac[k].category == category)
  {
    if n == 0 then None
    else if ac[n - 1].zeros == skip && ac[n - 1].category == category then Some(n - 1)
    else LastKey(ac, skip, category, n - 1)
  }

  /** The prefix the encoder uses for an AC entry, if the table has one. */
  function AcPrefix(ac: seq<AcCode>, skip: nat, category: nat): Option<string>
  {
    match LastKey(ac, skip, category, |ac|)
    case Some(k) => Some(ac[k].prefix)
    case None => None
  }

  /** `write_bits_complement1(value, category)`: the extra bits of an entry. */
  function ValueBits(e: RleCoef): seq<bool>
  {
    LowBits(Complement1(e.value, e.category), e.category)
  }

  /** The bits written for a run of entries, and whether the writer got to its end
      (it gives up at the first entry without an AC prefix). */
  datatype Emit = Emit(bits: seq<bool>, complete: bool)

  /** The DC part of a block: the prefix of its category, then the value bits when the
      category is not 0. */
  function DcBits(dc: seq<DcCode>, e: RleCoef): seq<bool>
    requires e.category < |dc|
  {
    CodeBits(dc[e.category].prefix) + (if e.category > 0 then ValueBits(e) else [])
  }

  /** The AC loop of `write_channel_blocks` from entry j: an EOB entry writes the EOB
      code and ends the block; any other entry writes its prefix and value bits. */
  function AcBits(ac: seq<AcCode>, blk: seq<RleCoef>, j: nat): Emit
    decreases |blk| - j
  {
    if j >= |blk| then Emit([], true)
    else if IsEob(blk[j]) then Emit(CodeBits(EobCode), true)
    else match AcPrefix(ac, blk[j].skip, blk[j].category)
      case None => Emit([], false)
      case Some(p) =>
        var tail := AcBits(ac, blk, j + 1);
        Emit(CodeBits(p) + ValueBits(blk[j]) + tail.bits, tail.complete)
  }

  /** Every block has its DC entry and a DC category the table can be indexed with. */
  predicate HasDcEntries(dc: seq<DcCode>, blocks: seq<seq<RleCoef>>)
  {
    forall i | 0 <= i < |blocks| :: |blocks[i]| >= 1 && blocks[i][0].category < |dc|
  }

  /** With the 11-entry DC table, a DC difference has an entry exactly when its
      magnitude is below 1024; a larger one has category 11 or more, past the table's
      end. */
  lemma {:induction false} DcCategoryInTable(dc: seq<DcCode>, ac: seq<AcCode>, v: int)
    requires ValidTables(dc, ac)
    ensures Category(v) < |dc| <==> Abs(v) < 1024
  {
    CategoryBounds(v);
    assert Pow2(10) == 1024 by {
      assert Pow2(1) == 2 && Pow2(2) == 4 && Pow2(3) == 8 && Pow2(4) == 16 && Pow2(5) == 32;
      assert Pow2(6) == 64 && Pow2(7) == 128 && Pow2(8) == 256 && Pow2(9) == 512;
    }
    var c := Category(v);
    if v != 0 && Abs(v) < 1024 && c >= 11 {
      Pow2Monotone(10, c - 1);
    }
    if Abs(v) >= 1024 && c <= 10 {
      Pow2Monotone(c, 10);
    }
  }

  function BlockBits(dc: seq<DcCode>, ac: seq<AcCode>, blk: seq<RleCoef>): Emit
    requires |blk| >= 1 && blk[0].category < |dc|
  {
    var a := AcBits(ac, blk, 1);
    Emit(DcBits(dc, blk[0]) + a.bits, a.complete)
  }

  /** `write_channel_blocks` from block i on: the blocks one after the other in one bit
      stream, up to the first entry without an AC prefix, where the writer returns. */
  function ChannelBitsFrom(dc: seq<DcCode>, ac: seq<AcCode>, blocks: seq<seq<RleCoef>>, i: nat): Emit
    requires HasDcEntries(dc, blocks)
    decreases |blocks| - i
  {
    if i >= |blocks| then Emit([], true)
    else
      var b := BlockBits(dc, ac, blocks[i]);
      if !b.complete then b
      else
        var rest := ChannelBitsFrom(dc, ac, blocks, i + 1);
        Emit(b.bits + rest.bits, rest.complete)
  }

  function ChannelBits(dc: seq<DcCode>, ac: seq<AcCode>, blocks: seq<seq<RleCoef>>): Emit
    requires HasDcEntries(dc, blocks)
  {
    ChannelBitsFrom(dc, ac, blocks, 0)
  }

  /** The AC table search of `write_channel_blocks`. */
  method FindAcPrefix(ac: seq<AcCode>, skip: int, category: int) returns (prefix: Option<string>)
    requires skip >= 0 && category >= 0
    ensures prefix == AcPrefix(ac, skip, category)
  {
    prefix := None;
    var k := 0;
    while k < |ac|
      invariant 0 <= k <= |ac|
      invariant prefix == (match LastKey(ac, skip, category, k) case Some(m) => Some(ac[m].prefix) case None => None)
    {
      if ac[k].zeros == skip && ac[k].category == category {
        prefix := Some(ac[k].prefix);
      }
      k := k + 1;
    }
  }

  /** One block of `write_channel_blocks`; false when an entry has no AC prefix. */
  method WriteBlock(w: BitWriter, dc: seq<DcCode>, ac: seq<AcCode>, blk: seq<RleCoef>) returns (complete: bool)
    requires w.Valid() && |blk| >= 1 && blk[0].category < |dc|
    modifies w
    ensures w.Valid()
    ensures w.Written() == old(w.Written()) + BlockBits(dc, ac, blk).bits
    ensures complete == BlockBits(dc, ac, blk).complete
  {
    var dcCategory := blk[0].category;
    w.WriteBits(dc[dcCategory].prefix);
    ghost var afterPrefix := w.Written();
    if dcCategory > 0 {
      w.WriteBitsComplement1(blk[0].value, dcCategory);
    }
    ghost var afterDc := w.Written();
    complete := WriteAcEntries(w, ac, blk);
    BlockParts(old(w.Written()), afterPrefix, afterDc, w.Written(), dc, ac, blk);
  }

  lemma {:induction false} BlockParts(start: seq<bool>, afterPrefix: seq<bool>, afterDc: seq<bool>, written: seq<bool>,
                   dc: seq<DcCode>, ac: seq<AcCode>, blk: seq<RleCoef>)
    requires |blk| >= 1 && blk[0].category < |dc|
    requires afterPrefix == start + CodeBits(dc[blk[0].category].prefix)
    requires afterDc == afterPrefix + (if blk[0].category > 0 then ValueBits(blk[0]) else [])
    requires written == afterDc + AcBits(ac, blk, 1).bits
    ensures written == start + BlockBits(dc, ac, blk).bits
  {
  }

  /** The AC loop of `write_channel_blocks` over entries 1 to `size - 1` of a block;
      false when it returns at an entry without an AC prefix. */
  method WriteAcEntries(w: BitWriter, ac: seq<AcCode>, blk: seq<RleCoef>) returns (complete: bool)
    requires w.Valid()
    modifies w
    ensures w.Valid()
    ensures w.Written() == old(w.Written()) + AcBits(ac, blk, 1).bits
    ensures complete == AcBits(ac, blk, 1).complete
  {
    var j := 1;
    while j < |blk|
      invariant 1 <= j && (j <= |blk| || |blk| == 0)
      invariant w.Valid()
      invariant w.Written() + AcBits(ac, blk, j).bits == old(w.Written()) + AcBits(ac, blk, 1).bits
      invariant AcBits(ac, blk, j).complete == AcBits(ac, blk, 1).complete
    {
      var stop;
      stop, complete := WriteAcEntry(w, ac, blk, j, old(w.Written()));
      if stop {
        return;
      }
      j := j + 1;
    }
    complete := true;
  }

  /** One pass of the AC loop of `write_channel_blocks`, at entry j: an EOB writes the
      EOB code and ends the block, an entry without an AC prefix ends the channel, and
      any other entry writes its prefix and value bits and lets the loop go on. */
  method WriteAcEntry(w: BitWriter, ac: seq<AcCode>, blk: seq<RleCoef>, j: nat, ghost start: seq<bool>)
    returns (stop: bool, complete: bool)
    requires w.Valid() && 1 <= j < |blk|
    requires w.Written() + AcBits(ac, blk, j).bits == start + AcBits(ac, blk, 1).bits
    requires AcBits(ac, blk, j).complete == AcBits(ac, blk, 1).complete
    modifies w
    ensures w.Valid()
    ensures stop ==> w.Written() == start + AcBits(ac, blk, 1).bits && complete == AcBits(ac, blk, 1).complete
    ensures !stop ==> w.Written() + AcBits(ac, blk, j + 1).bits == start + AcBits(ac, blk, 1).bits
    ensures !stop ==> AcBits(ac, blk, j + 1).complete == AcBits(ac, blk, 1).complete
  {
    var coef := blk[j];
    ghost var before := w.Written();
    if coef.skip == 0 && coef.category == 0 {
      w.WriteBits(EobCode);
      AcEobStep(before, w.Written(), ac, blk, j);
      return true, true;
    }
    var prefix := FindAcPrefix(ac, coef.skip, coef.category);
    if prefix.None? {
      AcMissingStep(ac, blk, j);
      return true, false;
    }
    w.WriteBits(prefix.value);
    w.WriteBitsComplement1(coef.value, coef.category);
    AcEntryStep(start, before, w.Written(), ac, blk, j);
    stop, complete := false, false;
  }

  /** An EOB entry writes the EOB code and ends the block. */
  lemma {:induction false} AcEobStep(before: seq<bool>, after: seq<bool>, ac: seq<AcCode>, blk: seq<RleCoef>, j: nat)
    requires j < |blk| && IsEob(blk[j]) && after == before + CodeBits(EobCode)
    ensures after == before + AcBits(ac, blk, j).bits
    ensures AcBits(ac, blk, j).complete
  {
  }

  /** An entry without an AC prefix writes nothing and ends the channel. */
  lemma {:induction false} AcMissingStep(ac: seq<AcCode>, blk: seq<RleCoef>, j: nat)
    requires j < |blk| && !IsEob(blk[j]) && AcPrefix(ac, blk[j].skip, blk[j].category).None?
    ensures AcBits(ac, blk, j) == Emit([], false)
  {
  }

  /** Any other entry writes its prefix and its value bits. */
  lemma {:induction false} AcEntryStep(start: seq<bool>, before: seq<bool>, after: seq<bool>, ac: seq<AcCode>, blk: seq<RleCoef>, j: nat)
    requires 1 <= j < |blk| && !IsEob(blk[j]) && AcPrefix(ac, blk[j].skip, blk[j].category).Some?
    requires after == before + CodeBits(AcPrefix(ac, blk[j].skip, blk[j].category).value)
      + LowBits(Complement1(blk[j].value, blk[j].category), blk[j].category)
    requires before + AcBits(ac, blk, j).bits == start + AcBits(ac, blk, 1).bits
    requires AcBits(ac, blk, j).complete == AcBits(ac, blk, 1).complete
    ensures after + AcBits(ac, blk, j + 1).bits == start + AcBits(ac, blk, 1).bits
    ensures AcBits(ac, blk, j + 1).complete == AcBits(ac, blk, 1).complete
  {
    var p := AcPrefix(ac, blk[j].skip, blk[j].category).value;
    assert AcBits(ac, blk, j).bits == CodeBits(p) + ValueBits(blk[j]) + AcBits(ac, blk, j + 1).bits;
  }

  /** `write_channel_blocks`: every block of a channel, returning early at the first
      entry without an AC prefix. */
  method WriteChannelBlocks(w: BitWriter, dc: seq<DcCode>, ac: seq<AcCode>, blocks: seq<seq<RleCoef>>)
    requires w.Valid() && HasDcEntries(dc, blocks)
    modifies w
    ensures w.Valid()
    ensures w.Written() == old(w.Written()) + ChannelBits(dc, ac, blocks).bits
  {
    var i := 0;
    while i < |blocks|
      invariant 0 <= i <= |blocks|
      invariant w.Valid()
      invariant w.Written() + ChannelBitsFrom(dc, ac, blocks, i).bits == old(w.Written()) + ChannelBits(dc, ac, blocks).bits
    {
      ghost var before := w.Written();
      var complete := WriteBlock(w, dc, ac, blocks[i]);
      ChannelStep(before, w.Written(), dc, ac, blocks, i);
      if !complete {
        return;
      }
      i := i + 1;
    }
  }

  /** One block of `write_channel_blocks`: the stream from block i is the block's bits,
      followed by the stream from block i + 1 when the block was written in full. */
  lemma {:induction false} ChannelStep(before: seq<bool>, after: seq<bool>, dc: seq<DcCode>, ac: seq<AcCode>, blocks: seq<seq<RleCoef>>, i: nat)
    requires HasDcEntries(dc, blocks) && i < |blocks|
    requires after == before + BlockBits(dc, ac, blocks[i]).bits
    ensures !BlockBits(dc, ac, blocks[i]).complete ==> after == before + ChannelBitsFrom(dc, ac, blocks, i).bits
    ensures BlockBits(dc, ac, blocks[i]).complete ==>
      after + ChannelBitsFrom(dc, ac, blocks, i + 1).bits == before + ChannelBitsFrom(dc, ac, blocks, i).bits
  {
  }

  // ---------------------------------------------------------------------------
  // Decoding what was encoded

  /** The characters collected while reading the bits of a binary prefix spell it. */
  lemma {:induction false} CharsOfCode(p: string, more: seq<bool>, m: nat)
    requires IsBinary(p) && m <= |p|
    ensures m <= |CodeBits(p) + more|
    ensures Chars((CodeBits(p) + more)[..m]) == p[..m]
  {
    var bits := CodeBits(p) + more;
    assert forall k | 0 <= k < m :: Chars(bits[..m])[k] == p[..m][k] by {
      forall k | 0 <= k < m
        ensures Chars(bits[..m])[k] == p[..m][k]
      {
        assert bits[k] == (p[k] == '1');
      }
    }
  }

  /** With a prefix code, a decoder reading the code of entry j followed by anything
      finds exactly entry j and consumes exactly its code. */
  lemma {:induction false} DecodeCode(ps: seq<string>, maxLen: nat, j: nat, more: seq<bool>)
    requires CodeTable(ps, maxLen) && j < |ps|
    ensures Decode(ps, CodeBits(ps[j]) + more, maxLen) == (Some(j), more)
  {
    var p := ps[j];
    var bits := CodeBits(p) + more;
    CharsOfCode(p, more, |p|);
    assert p[..|p|] == p;
    var r := Lookup(ps, bits, maxLen, 0);
    assert r.Some?;
    var s := r.value;
    assert s.length <= |p|;
    CharsOfCode(p, more, s.length);
    assert IsPrefix(ps[s.index], p);
    assert s.index == j;
    assert bits[|p|..] == more;
  }

  /** The value bits of an entry whose category is that of its value read back as the
      value; a category-0 entry writes and reads nothing and has value 0. */
  lemma {:induction false} ValueRoundTrip(e: RleCoef, more: seq<bool>)
    requires e.category == Category(e.value)
    ensures ReadValue(ValueBits(e) + more, e.category) == (more, e.value)
  {
    CategoryBounds(e.value);
    var n := e.category;
    if n >= 1 {
      var c: int := Complement1(e.value, n);
      Complement1RoundTrip(e.value, n);
      ReadBackLowBits(c, n, more);
      DivModUnique(c, Pow2(n), 0, c);
      var bits := ValueBits(e) + more;
      assert n <= |bits| && bits[n..] == more;
      assert BitsToNat(bits[..n]) == c;
      assert Extend(c, n) == e.value;
    } else {
      assert ValueBits(e) == [];
      assert (ValueBits(e) + more)[..0] == [];
    }
  }

  /** The entries of a block the writer and the reader agree on: a DC entry with skip 0
      and an indexable category, every category that of its value, an AC prefix for
      every entry that is not an EOB, an EOB only as the last entry, and the block
      ending where the reader stops (at an EOB or after 64 entries). */
  predicate Encodable(dc: seq<DcCode>, ac: seq<AcCode>, blk: seq<RleCoef>)
  {
    1 <= |blk| <= 64 && blk[0].skip == 0 && blk[0].category < |dc|
    && (forall k | 0 <= k < |blk| :: blk[k].category == Category(blk[k].value))
    && (forall k | 1 <= k < |blk| - 1 :: !IsEob(blk[k]))
    && (forall k | 1 <= k < |blk| :: !IsEob(blk[k]) ==> AcPrefix(ac, blk[k].skip, blk[k].category).Some?)
    && Terminated(blk)
  }

  /** What the AC round trip relies on: the AC table and an encodable block. */
  predicate AcContext(dc: seq<DcCode>, ac: seq<AcCode>, blk: seq<RleCoef>)
  {
    CodeTable(AcPrefixes(ac), AcMaxLength) && AcCode(0, 0, EobCode) in ac && Encodable(dc, ac, blk)
  }

  /** The EOB code reads back as an EOB entry. */
  lemma {:induction false} EobRoundTrip(ac: seq<AcCode>, more: seq<bool>)
    requires CodeTable(AcPrefixes(ac), AcMaxLength) && AcCode(0, 0, EobCode) in ac
    ensures var d := Decode(AcPrefixes(ac), CodeBits(EobCode) + more, AcMaxLength);
      d.0.Some? && ac[d.0.value].zeros == 0 && ac[d.0.value].category == 0 && d.1 == more
  {
    var k :| 0 <= k < |ac| && ac[k] == AcCode(0, 0, EobCode);
    DecodeCode(AcPrefixes(ac), AcMaxLength, k, more);
  }

  lemma TakeOneMore<T>(s: seq<T>, j: nat)
    requires j < |s|
    ensures s[..j + 1] == s[..j] + [s[j]]
  {
  }

  /** The AC loop of the reader undoes the AC loop of the writer, from entry j on. */
  lemma {:induction false} AcRoundTrip(dc: seq<DcCode>, ac: seq<AcCode>, blk: seq<RleCoef>, j: nat, more: seq<bool>)
    requires AcContext(dc, ac, blk)
    requires 1 <= j <= |blk| && (j == |blk| ==> |blk| == 64)
    decreases |blk| - j
    ensures AcBits(ac, blk, j).complete
    ensures ReadAc(ac, AcBits(ac, blk, j).bits + more, blk[..j]) == Parsed(Some(blk), more)
  {
    if j == |blk| {
      FullBlockStep(ac, blk, more);
    } else if IsEob(blk[j]) {
      EobStep(dc, ac, blk, j, more);
    } else {
      EntryNext(dc, ac, blk, j);
      AcRoundTrip(dc, ac, blk, j + 1, more);
      EntryStep(dc, ac, blk, j, more);
    }
  }

  /** An entry that is not an EOB is not the last one of a block that ends with an EOB. */
  lemma {:induction false} EntryNext(dc: seq<DcCode>, ac: seq<AcCode>, blk: seq<RleCoef>, j: nat)
    requires Encodable(dc, ac, blk) && 1 <= j < |blk| && !IsEob(blk[j])
    ensures j + 1 < |blk| || |blk| == 64
  {
  }

  /** A block of 64 entries ends without an EOB: the reader stops after its last entry. */
  lemma {:induction false} FullBlockStep(ac: seq<AcCode>, blk: seq<RleCoef>, more: seq<bool>)
    requires |blk| == 64
    ensures AcBits(ac, blk, |blk|) == Emit([], true)
    ensures ReadAc(ac, AcBits(ac, blk, |blk|).bits + more, blk[..|blk|]) == Parsed(Some(blk), more)
  {
    assert blk[..|blk|] == blk;
    assert [] + more == more;
  }

  /** The final EOB of a block reads back as the EOB entry. */
  lemma {:induction false} EobStep(dc: seq<DcCode>, ac: seq<AcCode>, blk: seq<RleCoef>, j: nat, more: seq<bool>)
    requires AcContext(dc, ac, blk)
    requires 1 <= j < |blk| && IsEob(blk[j])
    ensures AcBits(ac, blk, j).complete
    ensures ReadAc(ac, AcBits(ac, blk, j).bits + more, blk[..j]) == Parsed(Some(blk), more)
  {
    assert j == |blk| - 1 && blk[j].category == Category(blk[j].value);
    CategoryBounds(blk[j].value);
    assert blk[j] == Eob;
    EobRoundTrip(ac, more);
    TakeOneMore(blk, j);
    assert blk[..j + 1] == blk;
  }

  /** An entry with a prefix reads back as itself, and the reader goes on with the next. */
  lemma {:induction false} EntryStep(dc: seq<DcCode>, ac: seq<AcCode>, blk: seq<RleCoef>, j: nat, more: seq<bool>)
    requires AcContext(dc, ac, blk)
    requires 1 <= j < |blk| && !IsEob(blk[j])
    requires AcBits(ac, blk, j + 1).complete
    requires ReadAc(ac, AcBits(ac, blk, j + 1).bits + more, blk[..j + 1]) == Parsed(Some(blk), more)
    ensures AcBits(ac, blk, j).complete
    ensures ReadAc(ac, AcBits(ac, blk, j).bits + more, blk[..j]) == Parsed(Some(blk), more)
  {
    var e := blk[j];
    assert e.category == Category(e.value) && AcPrefix(ac, e.skip, e.category).Some?;
    var k := LastKey(ac, e.skip, e.category, |ac|).value;
    var tail := AcBits(ac, blk, j + 1);
    var after := ValueBits(e) + (tail.bits + more);
    var bits := AcBits(ac, blk, j).bits + more;
    AcBitsUnfold(ac, blk, j);
    AppendThree(CodeBits(ac[k].prefix), ValueBits(e), tail.bits, more);
    DecodeCode(AcPrefixes(ac), AcMaxLength, k, after);
    ValueRoundTrip(e, tail.bits + more);
    var next := RleCoef(ac[k].zeros, ac[k].category, e.value);
    assert next == e;
    TakeOneMore(blk, j);
    ReadAcEntry(ac, bits, blk[..j], k, after, tail.bits + more, e.value);
    assert ReadAc(ac, bits, blk[..j]) == ReadAc(ac, tail.bits + more, blk[..j + 1]);
  }

  lemma AppendThree<T>(a: seq<T>, b: seq<T>, c: seq<T>, d: seq<T>)
    ensures a + b + c + d == a + (b + (c + d))
  {
  }

  /** The writer's AC loop at an entry with a prefix. */
  lemma {:induction false} AcBitsUnfold(ac: seq<AcCode>, blk: seq<RleCoef>, j: nat)
    requires j < |blk| && !IsEob(blk[j]) && AcPrefix(ac, blk[j].skip, blk[j].category).Some?
    ensures AcBits(ac, blk, j).bits
      == CodeBits(AcPrefix(ac, blk[j].skip, blk[j].category).value) + ValueBits(blk[j]) + AcBits(ac, blk, j + 1).bits
    ensures AcBits(ac, blk, j).complete == AcBits(ac, blk, j + 1).complete
  {
  }

  /** One unfolding of the AC loop of the reader at an entry that is not an EOB. */
  lemma {:induction false} ReadAcEntry(ac: seq<AcCode>, bits: seq<bool>, coefs: seq<RleCoef>, k: nat,
                                       after: seq<bool>, rest: seq<bool>, v: int)
    requires |coefs| < 64 && k < |ac| && Decode(AcPrefixes(ac), bits, AcMaxLength) == (Some(k), after)
    requires !(ac[k].zeros == 0 && ac[k].category == 0) && ReadValue(after, ac[k].category) == (rest, v)
    ensures ReadAc(ac, bits, coefs) == ReadAc(ac, rest, coefs + [RleCoef(ac[k].zeros, ac[k].category, v)])
  {
  }

  /** Reading back what the writer wrote for an encodable block gives the block and
      leaves the bits that follow it. */
  lemma {:induction false} BlockRoundTrip(dc: seq<DcCode>, ac: seq<AcCode>, blk: seq<RleCoef>, more: seq<bool>)
    requires ValidTables(dc, ac) && Encodable(dc, ac, blk)
    ensures BlockBits(dc, ac, blk).complete
    ensures ReadBlock(dc, ac, BlockBits(dc, ac, blk).bits + more) == Parsed(Some(blk), more)
  {
    FirstAcEntry(dc, ac, blk);
    AcRoundTrip(dc, ac, blk, 1, more);
    DcStep(dc, ac, blk, more);
  }

  /** An encodable block has an AC part: a single entry would be neither an EOB-ended
      block nor a full one. */
  lemma {:induction false} FirstAcEntry(dc: seq<DcCode>, ac: seq<AcCode>, blk: seq<RleCoef>)
    requires Encodable(dc, ac, blk)
    ensures 1 < |blk| || |blk| == 64
  {
  }

  /** The DC entry of a block reads back, and the reader goes on with the AC loop. */
  lemma {:induction false} DcStep(dc: seq<DcCode>, ac: seq<AcCode>, blk: seq<RleCoef>, more: seq<bool>)
    requires CodeTable(DcPrefixes(dc), DcMaxLength) && Encodable(dc, ac, blk)
    requires dc[blk[0].category].category == blk[0].category
    requires AcBits(ac, blk, 1).complete
    requires ReadAc(ac, AcBits(ac, blk, 1).bits + more, blk[..1]) == Parsed(Some(blk), more)
    ensures BlockBits(dc, ac, blk).complete
    ensures ReadBlock(dc, ac, BlockBits(dc, ac, blk).bits + more) == Parsed(Some(blk), more)
  {
    var e := blk[0];
    var c := e.category;
    assert c == Category(e.value);
    var tail := AcBits(ac, blk, 1).bits + more;
    var valueBits := if c > 0 then ValueBits(e) else [];
    var bits := BlockBits(dc, ac, blk).bits + more;
    AppendThree(CodeBits(dc[c].prefix), valueBits, AcBits(ac, blk, 1).bits, more);
    assert bits == CodeBits(dc[c].prefix) + (valueBits + tail);
    DecodeCode(DcPrefixes(dc), DcMaxLength, c, valueBits + tail);
    DcValueStep(e, tail);
    ReadBlockDc(dc, ac, bits, c, valueBits + tail, tail, e.value);
    assert blk[..1] == [RleCoef(0, c, e.value)];
  }

  /** The value bits of a DC entry read back as its value (none for category 0). */
  lemma {:induction false} DcValueStep(e: RleCoef, tail: seq<bool>)
    requires e.category == Category(e.value)
    ensures (if e.category > 0 then ReadValue((if e.category > 0 then ValueBits(e) else []) + tail, e.category)
             else ((if e.category > 0 then ValueBits(e) else []) + tail, 0)) == (tail, e.value)
  {
    CategoryBounds(e.value);
    if e.category > 0 {
      ValueRoundTrip(e, tail);
    } else {
      assert [] + tail == tail;
    }
  }

  /** One unfolding of `read_rle_block` after its DC prefix. */
  lemma {:induction false} ReadBlockDc(dc: seq<DcCode>, ac: seq<AcCode>, bits: seq<bool>, c: nat,
                                       after: seq<bool>, rest: seq<bool>, v: int)
    requires c < |dc| && Decode(DcPrefixes(dc), bits, DcMaxLength) == (Some(c), after)
    requires (if dc[c].category > 0 then ReadValue(after, dc[c].category) else (after, 0)) == (rest, v)
    ensures ReadBlock(dc, ac, bits) == ReadAc(ac, rest, [RleCoef(0, dc[c].category, v)])
  {
  }

}
