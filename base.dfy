/** Shared vocabulary: optional values, powers of two, bytes and MSB-first bit strings. */
module Base {

  datatype Option<T> = None | Some(value: T)

  /** An 8-bit unsigned value, as stored in a `FILE` by `fputc` and returned by `fgetc`. */
  type Byte = b: int | 0 <= b < 256

  function Pow2(n: nat): (r: nat)
    ensures r >= 1
  {
    if n == 0 then 1 else 2 * Pow2(n - 1)
  }

  function Abs(x: int): nat
  {
    if x < 0 then -x else x
  }

  /** The low `n` bits of `value`, most significant first; the last element is bit 0.
      Bit `i` of `value` is `(value >> i) & 1` for the two's-complement arithmetic shift,
      which is the Euclidean `(value / 2^i) % 2` used here. */
  function LowBits(value: int, n: nat): seq<bool>
    decreases n
  {
    if n == 0 then [] else LowBits(value / 2, n - 1) + [value % 2 == 1]
  }

  /** The value of a bit string read most significant bit first. */
  function BitsToNat(bits: seq<bool>): nat
  {
    if |bits| == 0 then 0 else 2 * BitsToNat(bits[..|bits| - 1]) + (if bits[|bits| - 1] then 1 else 0)
  }

  function Zeros(n: nat): seq<bool>
  {
    seq(n, _ => false)
  }

  /** The eight bits of one byte of the file, most significant first: element k is
      bit 7 - k. */
  function ByteBits(b: Byte): seq<bool>
  {
    seq(8, k requires 0 <= k < 8 => (b / Pow2(7 - k)) % 2 == 1)
  }

  /** Groups of eight bits, each group packed most significant bit first into one byte;
      a trailing group of fewer than eight bits is dropped. */
  function Pack(bits: seq<bool>): seq<Byte>
  {
    if |bits| < 8 then []
    else
      var group := bits[..8];
      BitsToNatBound(group);
      Pow2Byte();
      [BitsToNat(group)] + Pack(bits[8..])
  }

  /** The bit string a sequence of bytes holds, each byte most significant bit first. */
  function BytesToBits(bytes: seq<Byte>): seq<bool>
  {
    if |bytes| == 0 then [] else ByteBits(bytes[0]) + BytesToBits(bytes[1..])
  }

  /** Concatenation regrouped. */
  lemma AppendAssoc<T>(a: seq<T>, b: seq<T>, c: seq<T>)
    ensures a + (b + c) == a + b + c
  {
  }

  // ---------------------------------------------------------------------------
  // Arithmetic helpers

  lemma {:induction false} DivModUnique(x: int, d: int, q: int, r: int)
    requires d > 0 && 0 <= r < d && x == q * d + r
    ensures x / d == q && x % d == r
  {
    var q0, r0 := x / d, x % d;
    assert (q - q0) * d == r0 - r;
    if q > q0 {
      MulAtLeast(q - q0, d);
    } else if q < q0 {
      assert (q0 - q) * d == r - r0;
      MulAtLeast(q0 - q, d);
    }
  }

  /** Euclidean division of a non-negative number: quotient and remainder recombine,
      the quotient is non-negative. */
  lemma {:induction false} DivModOf(x: int, d: int)
    requires x >= 0 && d > 0
    ensures x == (x / d) * d + x % d && 0 <= x % d < d && x / d >= 0
  {
  }

  lemma {:induction false} MulAtLeast(a: int, d: int)
    requires a >= 1 && d > 0
    ensures a * d >= d
  {
    assert a * d == (a - 1) * d + d;
  }

  lemma {:induction false} MulBelow(b: int, bound: int, p: int)
    requires 0 <= b < bound && p > 0
    ensures 0 <= b * p < bound * p
  {
    assert bound * p - b * p == (bound - b) * p;
    MulAtLeast(bound - b, p);
  }

  lemma {:induction false} Pow2Add(a: nat, b: nat)
    ensures Pow2(a + b) == Pow2(a) * Pow2(b)
    decreases a
  {
    if a > 0 {
      Pow2Add(a - 1, b);
    }
  }

  lemma {:induction false} Pow2Monotone(a: nat, b: nat)
    requires a <= b
    ensures Pow2(a) <= Pow2(b)
    decreases b
  {
    if a < b {
      Pow2Monotone(a, b - 1);
    }
  }

  /** Halving first and then reducing modulo 2^(n-1) is reducing modulo 2^n and then halving. */
  lemma {:induction false} HalfMod(x: int, n: nat)
    requires n >= 1
    ensures x % Pow2(n) == 2 * ((x / 2) % Pow2(n - 1)) + x % 2
    ensures (x / 2) / Pow2(n - 1) == x / Pow2(n)
  {
    var m := Pow2(n - 1);
    var q, r := x / 2, x % 2;
    var a, s := q / m, q % m;
    assert x == 2 * q + r;
    assert q == a * m + s;
    assert x == a * (2 * m) + (2 * s + r);
    DivModUnique(x, 2 * m, a, 2 * s + r);
  }

  // ---------------------------------------------------------------------------
  // Facts about bit strings

  lemma {:induction false} BitsToNatAppend(bits: seq<bool>, tail: seq<bool>)
    ensures BitsToNat(bits + tail) == BitsToNat(bits) * Pow2(|tail|) + BitsToNat(tail)
    decreases |tail|
  {
    if |tail| > 0 {
      var init := tail[..|tail| - 1];
      var whole := bits + tail;
      var last := if tail[|tail| - 1] then 1 else 0;
      assert BitsToNat(whole) == 2 * BitsToNat(bits + init) + last by {
        assert whole[..|whole| - 1] == bits + init;
        assert whole[|whole| - 1] == tail[|tail| - 1];
      }
      assert BitsToNat(tail) == 2 * BitsToNat(init) + last;
      BitsToNatAppend(bits, init);
      DoubleShift(BitsToNat(bits), BitsToNat(init), last, |init|);
    } else {
      assert bits + tail == bits;
    }
  }

  lemma {:induction false} DoubleShift(b: int, t: int, last: int, k: nat)
    ensures 2 * (b * Pow2(k) + t) + last == b * Pow2(k + 1) + (2 * t + last)
  {
    assert Pow2(k + 1) == 2 * Pow2(k);
  }

  lemma {:induction false} BitsToNatBound(bits: seq<bool>)
    ensures BitsToNat(bits) < Pow2(|bits|)
    decreases |bits|
  {
    if |bits| > 0 {
      BitsToNatBound(bits[..|bits| - 1]);
    }
  }

  /** Reading back the low n bits of a value yields the value modulo 2^n. */
  lemma {:induction false} LowBitsValue(value: int, n: nat)
    ensures |LowBits(value, n)| == n
    ensures BitsToNat(LowBits(value, n)) == value % Pow2(n)
    decreases n
  {
    if n > 0 {
      LowBitsValue(value / 2, n - 1);
      var s := LowBits(value, n);
      assert s[..|s| - 1] == LowBits(value / 2, n - 1);
      HalfMod(value, n);
    }
  }

  lemma {:induction false} LowBitsLength(value: int, n: nat)
    ensures |LowBits(value, n)| == n
  {
    LowBitsValue(value, n);
  }

  /** The low n bits of a value below 2^n: the top bit, then the low n-1 bits of the rest. */
  lemma {:induction false} LowBitsTop(t: int, n: nat)
    requires n >= 1 && 0 <= t < Pow2(n)
    ensures LowBits(t, n) == [t / Pow2(n - 1) == 1] + LowBits(t % Pow2(n - 1), n - 1)
    decreases n
  {
    if n == 1 {
      assert LowBits(t / 2, 0) == [] == LowBits(t % 1, 0);
    } else {
      var m := Pow2(n - 2);
      LowBitsTop(t / 2, n - 1);
      HalfMod(t, n - 1);
      var r := t % Pow2(n - 1);
      assert r / 2 == (t / 2) % m && r % 2 == t % 2 by {
        DivModUnique(r, 2, (t / 2) % m, t % 2);
      }
    }
  }

  /** Shifting left by k appends k zero bits. */
  lemma {:induction false} LowBitsShift(b: int, c: nat, k: nat)
    ensures LowBits(b * Pow2(k), c + k) == LowBits(b, c) + Zeros(k)
    decreases k
  {
    if k > 0 {
      LowBitsShift(b, c, k - 1);
      var x := b * Pow2(k - 1);
      assert b * Pow2(k) == 2 * x;
      assert (2 * x) / 2 == x && (2 * x) % 2 == 0;
      assert Zeros(k) == Zeros(k - 1) + [false];
    }
  }

  lemma {:induction false} BytesToBitsLength(bytes: seq<Byte>)
    ensures |BytesToBits(bytes)| == 8 * |bytes|
    decreases |bytes|
  {
    if |bytes| > 0 {
      BytesToBitsLength(bytes[1..]);
    }
  }

  lemma {:induction false} Pow2Byte()
    ensures Pow2(7) == 128 && Pow2(8) == 256
  {
    assert Pow2(1) == 2 && Pow2(2) == 4 && Pow2(3) == 8 && Pow2(4) == 16;
    assert Pow2(5) == 32 && Pow2(6) == 64;
  }

  /** Shifting bit x into the bottom of b appends x to b's low bits. */
  lemma {:induction false} LowBitsPush(b: int, c: nat, x: int)
    requires 0 <= b < Pow2(c) && (x == 0 || x == 1)
    ensures 0 <= 2 * b + x < Pow2(c + 1)
    ensures LowBits(2 * b + x, c + 1) == LowBits(b, c) + [x == 1]
  {
    DivModUnique(2 * b + x, 2, b, x);
  }

  /** The low |p| bits of the value of p are p itself. */
  lemma {:induction false} LowBitsOfValue(p: seq<bool>)
    ensures LowBits(BitsToNat(p), |p|) == p
    decreases |p|
  {
    if |p| > 0 {
      var init := p[..|p| - 1];
      var y := if p[|p| - 1] then 1 else 0;
      LowBitsOfValue(init);
      DivModUnique(BitsToNat(p), 2, BitsToNat(init), y);
      assert p == init + [p[|p| - 1]];
    }
  }

  lemma {:induction false} ByteBitsValue(b: Byte)
    ensures |ByteBits(b)| == 8 && BitsToNat(ByteBits(b)) == b
  {
    ByteBitsWidth(b, 8);
  }

  lemma {:induction false} ByteBitsWidth(b: Byte, n: nat)
    requires n == 8
    ensures ByteBits(b) == LowBits(b, n)
    ensures |LowBits(b, n)| == n && BitsToNat(LowBits(b, n)) == b
  {
    LowBitsValue(b, n);
    Pow2Byte();
    DivModUnique(b, 256, 0, b);
    forall k | 0 <= k < n
      ensures ByteBits(b)[k] == LowBits(b, n)[k]
    {
      LowBitsIndex(b, n, k);
    }
  }

  /** Element k of the low n bits of v is bit n - 1 - k of v. */
  lemma {:induction false} LowBitsIndex(v: int, n: nat, k: nat)
    requires k < n
    ensures |LowBits(v, n)| == n
    ensures LowBits(v, n)[k] == ((v / Pow2(n - 1 - k)) % 2 == 1)
    decreases n
  {
    LowBitsLength(v, n);
    LowBitsLength(v / 2, n - 1);
    if k < n - 1 {
      LowBitsIndex(v / 2, n - 1, k);
      HalfMod(v, n - 1 - k);
    }
  }

  lemma {:induction false} BitsToNatZeros(k: nat)
    ensures BitsToNat(Zeros(k)) == 0
    decreases k
  {
    if k > 0 {
      assert Zeros(k)[..k - 1] == Zeros(k - 1);
      BitsToNatZeros(k - 1);
    }
  }

  /** Packing a further group of eight bits after whole bytes appends one byte. */
  lemma {:induction false} PackGroup(bits: seq<bool>, group: seq<bool>)
    requires |bits| % 8 == 0 && |group| == 8
    ensures BitsToNat(group) < 256
    ensures Pack(bits + group) == Pack(bits) + [BitsToNat(group)]
    decreases |bits|
  {
    BitsToNatBound(group);
    Pow2Byte();
    var whole := bits + group;
    if |bits| == 0 {
      assert whole == group && group[..8] == group && group[8..] == [];
    } else {
      assert whole[..8] == bits[..8];
      assert whole[8..] == bits[8..] + group;
      PackGroup(bits[8..], group);
    }
  }

  /** Unpacking packed bits gives them back, when they fill whole bytes. */
  lemma {:induction false} UnpackPack(bits: seq<bool>)
    requires |bits| % 8 == 0
    ensures BytesToBits(Pack(bits)) == bits
    decreases |bits|
  {
    if |bits| > 0 {
      var group := bits[..8];
      UnpackPack(bits[8..]);
      BitsToNatBound(group);
      Pow2Byte();
      var b: Byte := BitsToNat(group);
      var packed := Pack(bits);
      assert packed == [b] + Pack(bits[8..]);
      assert packed[1..] == Pack(bits[8..]);
      LowBitsOfValue(group);
      ByteBitsWidth(b, |group|);
      assert bits == group + bits[8..];
    }
  }

  /** Packing the bits of a byte sequence gives the bytes back. */
  lemma {:induction false} PackUnpack(bytes: seq<Byte>)
    ensures |BytesToBits(bytes)| == 8 * |bytes|
    ensures Pack(BytesToBits(bytes)) == bytes
    decreases |bytes|
  {
    if |bytes| > 0 {
      var group, rest := ByteBits(bytes[0]), BytesToBits(bytes[1..]);
      PackUnpack(bytes[1..]);
      ByteBitsValue(bytes[0]);
      var whole := group + rest;
      assert whole[..8] == group && whole[8..] == rest;
      assert bytes == [bytes[0]] + bytes[1..];
    }
  }

  /** The bits a fresh reader sees in a file flushed after `bits`: the bits themselves, then
      zero padding up to the next byte boundary. */
  lemma {:induction false} FlushedFileBits(bits: seq<bool>, pad: nat)
    requires (|bits| + pad) % 8 == 0
    ensures BytesToBits(Pack(bits + Zeros(pad))) == bits + Zeros(pad)
  {
    UnpackPack(bits + Zeros(pad));
  }
}
