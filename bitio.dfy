/** The bit writer and bit reader of libjpeg/src/bit_functions.c: a one-byte `buffer`
    plus a `bit_count`, bits most significant first, over a file modelled as a sequence
    of bytes that the writer appends to and the reader consumes from the front.
    Ghost fields hold the bit strings the concrete fields stand for. */
module BitIo {
  import opened Base

  /** The bits `write_bits` emits for a prefix string: 1 for '1', 0 for any other character. */
  function CodeBits(code: string): (bits: seq<bool>)
    ensures |bits| == |code|
    ensures forall k :: 0 <= k < |code| ==> (bits[k] <==> code[k] == '1')
  {
    seq(|code|, k requires 0 <= k < |code| => code[k] == '1')
  }

  /** `x & ((1 << n) - 1)` on two's-complement integers. */
  function Mask(x: int, n: nat): (r: nat)
    ensures r < Pow2(n)
  {
    x % Pow2(n)
  }

  /** The n-bit pattern `write_bits_complement1` writes for `value`: |value| for a
      non-negative value, the bitwise complement of |value| otherwise, kept to n bits. */
  function Complement1(value: int, n: nat): (r: nat)
    ensures r < Pow2(n)
  {
    if value >= 0 then Mask(value, n) else Mask(-(Abs(value) as int) - 1, n)
  }

  /** What `read_bits_complement1` makes of n raw bits `raw`: a set top bit means the
      value is positive and equals `raw`; otherwise it is minus the complement of `raw`.
      For n == 0 the source shifts by -1, which C leaves undefined; the model takes the
      top bit to be 0, so the result is 0. */
  function Extend(raw: int, n: nat): int
  {
    var msb := if n == 0 then 0 else raw / Pow2(n - 1);
    if msb != 0 then raw else -(Mask(-raw - 1, n) as int)
  }

  /** The zero bits `flush_bits` adds after `count` pending bits. */
  function PadLength(count: int): nat
  {
    if 0 < count < 8 then 8 - count else 0
  }

  // ---------------------------------------------------------------------------
  // The writer

  class BitWriter {
    var buffer: int
    var bitCount: int
    var file: seq<Byte>
    /** The bits already packed into `file`. */
    ghost var emitted: seq<bool>
    /** The bits held in `buffer`, oldest first. */
    ghost var pending: seq<bool>

    ghost predicate Valid()
      reads this
    {
      0 <= bitCount < 8 && |pending| == bitCount && buffer == BitsToNat(pending)
      && |emitted| % 8 == 0 && file == Pack(emitted)
    }

    /** Every bit written so far. */
    ghost function Written(): seq<bool>
      reads this
    {
      emitted + pending
    }

    /** `init_bitwriter`: an empty buffer over an empty stream. */
    constructor ()
      ensures Valid() && buffer == 0 && bitCount == 0 && file == []
      ensures Written() == []
    {
      buffer := 0;
      bitCount := 0;
      file := [];
      emitted := [];
      pending := [];
    }

    /** `write_bit`: shift the bit in; emit the byte when the eighth bit arrives. */
    method WriteBit(bit: int)
      requires Valid()
      modifies this
      ensures Valid()
      ensures Written() == old(Written()) + [bit != 0]
      ensures old(bitCount) == 7 ==>
                file == old(file) + [2 * old(buffer) + (if bit != 0 then 1 else 0)] && bitCount == 0 && buffer == 0
      ensures old(bitCount) < 7 ==>
                file == old(file) && bitCount == old(bitCount) + 1 && buffer == 2 * old(buffer) + (if bit != 0 then 1 else 0)
    {
      PushBit(emitted, pending, bit != 0);
      buffer := (buffer * 2) % 256;
      if bit != 0 {
        buffer := buffer + 1;
      }
      bitCount := bitCount + 1;
      if bitCount == 8 {
        file := file + [buffer];
        emitted := emitted + pending + [bit != 0];
        pending := [];
        bitCount := 0;
        buffer := 0;
      } else {
        pending := pending + [bit != 0];
      }
    }

    /** `write_bits`: one bit per character of the prefix string. */
    method WriteBits(bits: string)
      requires Valid()
      modifies this
      ensures Valid()
      ensures Written() == old(Written()) + CodeBits(bits)
    {
      var k := 0;
      while k < |bits|
        invariant 0 <= k <= |bits|
        invariant Valid()
        invariant Written() == old(Written()) + CodeBits(bits)[..k]
      {
        WriteBit(if bits[k] == '1' then 1 else 0);
        assert CodeBits(bits)[..k + 1] == CodeBits(bits)[..k] + [bits[k] == '1'];
        k := k + 1;
      }
      assert CodeBits(bits)[..k] == CodeBits(bits);
    }

    /** `write_n_bits`: the low n bits of `value`, most significant first. */
    method WriteNBits(value: int, n: int)
      requires Valid()
      modifies this
      ensures Valid()
      ensures Written() == old(Written()) + (if n <= 0 then [] else LowBits(value, n))
    {
      var i := n - 1;
      if n > 0 {
        NBitsStart(value, n);
      }
      while i >= 0
        invariant -1 <= i <= n - 1 || (n <= 0 && i == n - 1)
        invariant Valid()
        invariant n > 0 ==> Written() == old(Written()) + LowBits(value / Pow2(i + 1), n - 1 - i)
        invariant n <= 0 ==> Written() == old(Written())
      {
        ghost var before := Written();
        var bit := (value / Pow2(i)) % 2;
        WriteBit(bit);
        NBitsStep(old(Written()), before, value, i, n);
        i := i - 1;
      }
      if n > 0 {
        NBitsDone(value, n);
      }
    }

    /** `flush_bits`: pad the pending bits with zeros to one byte and emit it. Neither
        `buffer` nor `bit_count` is reset, so the writer is not used afterwards. */
    method Flush()
      requires Valid()
      modifies this
      ensures bitCount == old(bitCount)
      ensures old(bitCount) > 0 ==> file == old(file) + [old(buffer) * Pow2(8 - old(bitCount))]
      ensures old(bitCount) == 0 ==> file == old(file)
      ensures file == Pack(old(Written()) + Zeros(PadLength(old(bitCount))))
      ensures (|old(Written())| + PadLength(old(bitCount))) % 8 == 0
    {
      FlushGroup(emitted, pending);
      if bitCount > 0 {
        buffer := (buffer * Pow2(8 - bitCount)) % 256;
        file := file + [buffer];
      }
    }

    /** `write_bits_complement1`: `value` in n bits, negative values as the complement of
        their magnitude. */
    method WriteBitsComplement1(value: int, nBits: int)
      requires Valid()
      requires nBits >= 0
      modifies this
      ensures Valid()
      ensures Written() == old(Written()) + LowBits(Complement1(value, nBits), nBits)
    {
      var absval: int := Abs(value);
      if value >= 0 {
        WriteNBits(Mask(absval, nBits), nBits);
      } else {
        var inverted := Mask(-absval - 1, nBits);
        WriteNBits(inverted, nBits);
      }
    }
  }

  lemma {:induction false} PushBit(e: seq<bool>, p: seq<bool>, y: bool)
    requires |p| < 8 && |e| % 8 == 0
    ensures (BitsToNat(p) * 2) % 256 == 2 * BitsToNat(p) && 2 * BitsToNat(p) + 1 < 256
    ensures BitsToNat(p + [y]) == 2 * BitsToNat(p) + (if y then 1 else 0)
    ensures |p| == 7 ==> |e + p + [y]| % 8 == 0 && Pack(e + p + [y]) == Pack(e) + [2 * BitsToNat(p) + (if y then 1 else 0)]
  {
    BitsToNatBound(p);
    Pow2Monotone(|p|, 7);
    Pow2Byte();
    DivModUnique(BitsToNat(p) * 2, 256, 0, BitsToNat(p) * 2);
    assert (p + [y])[..|p|] == p;
    if |p| == 7 {
      PackGroup(e, p + [y]);
      assert e + p + [y] == e + (p + [y]);
    }
  }

  lemma {:induction false} FlushGroup(e: seq<bool>, p: seq<bool>)
    requires |p| < 8 && |e| % 8 == 0
    ensures (|e + p| + PadLength(|p|)) % 8 == 0
    ensures |p| > 0 ==> Pack(e + p + Zeros(PadLength(|p|))) == Pack(e) + [BitsToNat(p) * Pow2(8 - |p|)]
    ensures |p| > 0 ==> (BitsToNat(p) * Pow2(8 - |p|)) % 256 == BitsToNat(p) * Pow2(8 - |p|)
    ensures |p| == 0 ==> e + p + Zeros(PadLength(|p|)) == e
  {
    var k := PadLength(|p|);
    if |p| > 0 {
      var group := p + Zeros(k);
      BitsToNatAppend(p, Zeros(k));
      BitsToNatZeros(k);
      PackGroup(e, group);
      assert e + p + Zeros(k) == e + group;
      DivModUnique(BitsToNat(group), 256, 0, BitsToNat(group));
    } else {
      assert Zeros(0) == [];
    }
  }

  /** Before the loop of `write_n_bits` no bit of the value is written. */
  lemma {:induction false} NBitsStart(value: int, n: nat)
    ensures LowBits(value / Pow2(n - 1 + 1), n - 1 - (n - 1)) == []
  {
  }

  /** After the loop of `write_n_bits` every bit of the value is written. */
  lemma {:induction false} NBitsDone(value: int, n: nat)
    ensures LowBits(value / Pow2(-1 + 1), n - 1 - -1) == LowBits(value, n)
  {
    assert Pow2(0) == 1;
  }

  /** One turn of the loop of `write_n_bits` writes bit i of the value. */
  lemma {:induction false} NBitsStep(start: seq<bool>, before: seq<bool>, value: int, i: nat, n: int)
    requires i < n && before == start + LowBits(value / Pow2(i + 1), n - 1 - i)
    ensures before + [(value / Pow2(i)) % 2 != 0] == start + LowBits(value / Pow2(i - 1 + 1), n - 1 - (i - 1))
  {
    LowBitsStep(value, i, n);
  }

  lemma {:induction false} LowBitsStep(value: int, i: nat, n: int)
    requires i < n
    ensures LowBits(value / Pow2(i), n - i) == LowBits(value / Pow2(i + 1), n - 1 - i) + [(value / Pow2(i)) % 2 == 1]
  {
    DivPow2Step(value, i);
  }

  lemma {:induction false} DivPow2Step(x: int, i: nat)
    ensures (x / Pow2(i)) / 2 == x / Pow2(i + 1)
  {
    var p := Pow2(i);
    var q, r := x / p, x % p;
    var a, s := q / 2, q % 2;
    assert x == q * p + r;
    assert q * p == a * (2 * p) + s * p;
    assert 0 <= s * p + r < 2 * p;
    DivModUnique(x, 2 * p, a, s * p + r);
  }

  // ---------------------------------------------------------------------------
  // The reader

  class BitReader {
    var buffer: int
    var bitCount: int
    var file: seq<Byte>
    /** The bits still held in the top of `buffer`, next first. */
    ghost var unread: seq<bool>
    /** The bits of the bytes not yet loaded. */
    ghost var rest: seq<bool>

    ghost predicate Valid()
      reads this
    {
      0 <= bitCount <= 8 && |unread| == bitCount && buffer == BitsToNat(unread) * Pow2(8 - bitCount)
      && |rest| % 8 == 0 && file == Pack(rest)
    }

    /** The bits not yet read. */
    ghost function Remaining(): seq<bool>
      reads this
    {
      unread + rest
    }

    /** `init_bitreader` on a file positioned at `contents`. */
    constructor (contents: seq<Byte>)
      ensures Valid() && buffer == 0 && bitCount == 0 && file == contents
      ensures Remaining() == BytesToBits(contents)
    {
      buffer := 0;
      bitCount := 0;
      file := contents;
      unread := [];
      rest := BytesToBits(contents);
      ReaderStart(contents);
    }

    /** `read_bit`: the next bit as 0 or 1, loading a byte when the buffer is empty;
        -1 when the buffer is empty and no byte remains. */
    method ReadBit() returns (bit: int)
      requires Valid()
      modifies this
      ensures Valid()
      ensures bit == -1 <==> old(bitCount) == 0 && old(file) == []
      ensures bit == -1 <==> old(Remaining()) == []
      ensures bit == -1 ==> Remaining() == []
      ensures bit != -1 ==> bit == (if old(Remaining())[0] then 1 else 0) && Remaining() == old(Remaining())[1..]
    {
      PackEmpty(rest);
      if bitCount == 0 {
        if |file| == 0 {
          return -1;
        }
        LoadByte(rest);
        buffer := file[0];
        file := file[1..];
        unread := rest[..8];
        rest := rest[8..];
        bitCount := 8;
      }
      PopBit(unread);
      bit := (buffer / 128) % 2;
      buffer := (buffer * 2) % 256;
      bitCount := bitCount - 1;
      unread := unread[1..];
    }

    /** `read_n_bits`: n bits most significant first, or -1 if the file ends first. */
    method ReadNBits(n: int) returns (value: int)
      requires Valid()
      modifies this
      ensures Valid()
      ensures n <= 0 ==> value == 0 && Remaining() == old(Remaining())
      ensures 0 < n <= |old(Remaining())| ==> value == BitsToNat(old(Remaining())[..n]) && Remaining() == old(Remaining())[n..]
      ensures n > |old(Remaining())| ==> value == -1 && Remaining() == []
    {
      ghost var r := Remaining();
      value := 0;
      var i := 0;
      while i < n
        invariant 0 <= i <= |r| && (n > 0 ==> i <= n) && (n <= 0 ==> i == 0)
        invariant Valid()
        invariant Remaining() == r[i..]
        invariant value == BitsToNat(r[..i])
      {
        var bit := ReadBit();
        if bit == -1 {
          return -1;
        }
        assert r[..i + 1][..i] == r[..i];
        value := value * 2 + bit;
        i := i + 1;
      }
      assert r[..0] == [] && r[0..] == r;
    }

    /** `read_bits_complement1`: an n-bit complement-1 value; 0 if the file ends first. */
    method ReadBitsComplement1(nBits: int) returns (v: int)
      requires Valid()
      requires nBits >= 0
      modifies this
      ensures Valid()
      ensures nBits <= |old(Remaining())| ==>
                v == Extend(BitsToNat(old(Remaining())[..nBits]), nBits) && Remaining() == old(Remaining())[nBits..]
      ensures nBits > |old(Remaining())| ==> v == 0 && Remaining() == []
    {
      ghost var r := Remaining();
      var positive := ReadNBits(nBits);
      if positive == -1 {
        return 0;
      }
      assert nBits == 0 ==> r[..nBits] == [] && positive == 0;
      var msb := if nBits == 0 then 0 else positive / Pow2(nBits - 1);
      if msb != 0 {
        v := positive;
      } else {
        var inverted: int := Mask(-positive - 1, nBits);
        v := -inverted;
      }
    }
  }

  /** A new reader holds no bits in its buffer and all the bits of the contents in
      its file. */
  lemma {:induction false} ReaderStart(contents: seq<Byte>)
    ensures |BytesToBits(contents)| % 8 == 0 && Pack(BytesToBits(contents)) == contents
    ensures 0 == BitsToNat([]) * Pow2(8 - 0) && [] + BytesToBits(contents) == BytesToBits(contents)
  {
    PackUnpack(contents);
    DivModUnique(8 * |contents|, 8, |contents|, 0);
    assert BitsToNat([]) == 0;
  }

  /** Loading the next byte moves its eight bits from `rest` into the buffer. */
  lemma {:induction false} LoadByte(bits: seq<bool>)
    requires |bits| % 8 == 0 && bits != []
    ensures |bits| >= 8 && |bits[8..]| % 8 == 0 && bits == bits[..8] + bits[8..]
    ensures Pack(bits)[0] == BitsToNat(bits[..8]) * Pow2(8 - 8)
    ensures Pack(bits)[1..] == Pack(bits[8..])
  {
  }

  lemma {:induction false} PackEmpty(bits: seq<bool>)
    requires |bits| % 8 == 0
    ensures Pack(bits) == [] <==> bits == []
    ensures bits != [] ==> |bits| >= 8 && |bits[8..]| % 8 == 0
  {
  }

  /** `read_bit` on a buffer holding the bits u in its top: the top bit is u[0], and the
      shifted buffer holds the rest of u. */
  lemma {:induction false} PopBit(u: seq<bool>)
    requires 1 <= |u| <= 8
    ensures var v := BitsToNat(u) * Pow2(8 - |u|);
      0 <= v < 256 && (v / 128) % 2 == (if u[0] then 1 else 0)
      && (v * 2) % 256 == BitsToNat(u[1..]) * Pow2(8 - (|u| - 1))
  {
    var t := u[1..];
    var m, s := |t|, Pow2(8 - |u|);
    var h := if u[0] then 1 else 0;
    assert BitsToNat(u) == h * Pow2(m) + BitsToNat(t) by {
      assert [u[0]] + t == u;
      BitsToNatAppend([u[0]], t);
      assert [u[0]][..0] == [];
    }
    Pow2Add(m, 8 - |u|);
    Pow2Byte();
    BitsToNatBound(t);
    assert Pow2(8 - m) == 2 * s;
    TopBitSplit(h, BitsToNat(t), Pow2(m), s);
  }

  /** The arithmetic of `read_bit` on a byte whose top bit is h above r * s. */
  lemma {:induction false} TopBitSplit(h: int, r: int, p: int, s: int)
    requires (h == 0 || h == 1) && 0 <= r < p && s >= 1 && p * s == 128
    ensures var v := (h * p + r) * s;
      0 <= v < 256 && (v / 128) % 2 == h && (v * 2) % 256 == r * (2 * s)
  {
    MulBelow(r, p, s);
    var v := (h * p + r) * s;
    assert v == h * 128 + r * s by {
      assert (h * p + r) * s == h * (p * s) + r * s;
    }
    DivModUnique(v, 128, h, r * s);
    DivModUnique(v * 2, 256, h, r * (2 * s));
  }

  // ---------------------------------------------------------------------------
  // Properties of the value coding

  /** Complement-1 coding of a value whose magnitude needs exactly n bits round-trips,
      and the first bit written is 1 exactly for a positive value. */
  lemma {:induction false} Complement1RoundTrip(v: int, n: nat)
    requires n >= 1 && Pow2(n - 1) <= Abs(v) < Pow2(n)
    ensures Extend(Complement1(v, n), n) == v
    ensures |LowBits(Complement1(v, n), n)| == n
    ensures LowBits(Complement1(v, n), n)[0] <==> v > 0
  {
    var raw: int := Complement1(v, n);
    Complement1Pattern(v, n);
    if v <= 0 {
      DivModUnique(-raw - 1, Pow2(n), -1, -v);
    }
    LowBitsTop(raw, n);
    LowBitsLength(raw, n);
  }

  /** The pattern of a value whose magnitude needs exactly n bits: the value itself when it
      is positive, 2^n - 1 + v otherwise; its top bit is set exactly for a positive value. */
  lemma {:induction false} Complement1Pattern(v: int, n: nat)
    requires n >= 1 && Pow2(n - 1) <= Abs(v) < Pow2(n)
    ensures Complement1(v, n) == (if v > 0 then v else Pow2(n) - 1 + v)
    ensures Complement1(v, n) / Pow2(n - 1) == (if v > 0 then 1 else 0)
  {
    var p: int, h: int := Pow2(n), Pow2(n - 1);
    assert p == 2 * h;
    if v > 0 {
      DivModUnique(v, p, 0, v);
      DivModUnique(v, h, 1, v - h);
    } else {
      DivModUnique(v - 1, p, -1, p - 1 + v);
      DivModUnique(p - 1 + v, h, 0, p - 1 + v);
    }
  }

  /** For n >= 1 no n-bit pattern decodes to 0, so for those widths the 0 returned on end
      of file is distinguishable from a decoded value; for n == 0 every outcome is 0. */
  lemma {:induction false} ExtendNonZero(raw: int, n: nat)
    requires 0 <= raw < Pow2(n)
    ensures n >= 1 ==> Extend(raw, n) != 0
    ensures n == 0 ==> Extend(raw, n) == 0
  {
    if n >= 1 {
      var p, h := Pow2(n), Pow2(n - 1);
      assert p == 2 * h;
      if raw >= h {
        DivModUnique(raw, h, 1, raw - h);
      } else {
        DivModUnique(raw, h, 0, raw);
        DivModUnique(-raw - 1, p, -1, p - 1 - raw);
      }
    }
  }

  /** Reading n bits back from the low n bits of a value gives the value modulo 2^n. */
  lemma {:induction false} ReadBackLowBits(value: int, n: nat, more: seq<bool>)
    ensures n <= |LowBits(value, n) + more|
    ensures (LowBits(value, n) + more)[..n] == LowBits(value, n)
    ensures BitsToNat((LowBits(value, n) + more)[..n]) == value % Pow2(n)
    ensures (LowBits(value, n) + more)[n..] == more
  {
    LowBitsValue(value, n);
  }
}
