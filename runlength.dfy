/** The coefficient layer of libjpeg/src/img_functions.c: `coef_category` (the SSSS
    category of section F.1.2.1 of ITU-T T.81), the run-length coder `RLE_encode_AC` with
    this codec's own ZRL/EOB rule, and its expansion `rle_to_block`. */
module RunLength {
  import opened Base

  // ---------------------------------------------------------------------------
  // Category

  /** The number of binary digits of n (0 for n = 0). */
  function BitLength(n: nat): nat
  {
    if n == 0 then 0 else 1 + BitLength(n / 2)
  }

  /** The category of a coefficient: the bit length of its magnitude. */
  function Category(v: int): nat
  {
    BitLength(Abs(v))
  }

  lemma {:induction false} BitLengthBounds(n: nat)
    requires n > 0
    ensures BitLength(n) >= 1 && Pow2(BitLength(n) - 1) <= n < Pow2(BitLength(n))
  {
    if n > 1 {
      BitLengthBounds(n / 2);
    }
  }

  /** Category 0 is exactly the value 0; otherwise the category c is the one with
      2^(c-1) <= |v| < 2^c. */
  lemma {:induction false} CategoryBounds(v: int)
    ensures Category(v) == 0 <==> v == 0
    ensures v != 0 ==> Pow2(Category(v) - 1) <= Abs(v) < Pow2(Category(v))
  {
    if v != 0 {
      BitLengthBounds(Abs(v));
    }
  }

  /** The bounds determine the category. */
  lemma {:induction false} CategoryUnique(v: int, c: nat)
    requires c >= 1 && Pow2(c - 1) <= Abs(v) < Pow2(c)
    ensures Category(v) == c
  {
    CategoryBounds(v);
    var k := Category(v);
    if k < c {
      Pow2Monotone(k, c - 1);
    } else if k > c {
      Pow2Monotone(c, k - 1);
    }
  }

  /** The category does not depend on the sign. */
  lemma {:induction false} CategorySymmetric(v: int)
    ensures Category(-v) == Category(v)
  {
  }

  /** The category grows with the magnitude. */
  lemma {:induction false} BitLengthMonotone(a: nat, b: nat)
    requires a <= b
    ensures BitLength(a) <= BitLength(b)
  {
    if a > 0 {
      BitLengthMonotone(a / 2, b / 2);
    }
  }

  lemma {:induction false} CategoryMonotone(a: int, b: int)
    requires Abs(a) <= Abs(b)
    ensures Category(a) <= Category(b)
  {
    BitLengthMonotone(Abs(a), Abs(b));
  }

  /** `coef_category`: shift the magnitude right until it is 0, counting the shifts. */
  method CoefCategory(value: int) returns (category: int)
    ensures category == Category(value)
  {
    var absVal: int := Abs(value);
    if absVal == 0 {
      return 0;
    }
    category := 0;
    while absVal != 0
      invariant absVal >= 0 && category + BitLength(absVal) == Category(value)
      decreases absVal
    {
      absVal := absVal / 2;
      category := category + 1;
    }
  }

  // ---------------------------------------------------------------------------
  // Run-length entries

  /** `RLE_coef`: a run of `skip` zeros, then a coefficient of category `category` and
      value `value`. Entry 0 of a block carries the DC coefficient with skip 0. */
  datatype RleCoef = RleCoef(skip: nat, category: nat, value: int)

  /** Sixteen zeros. */
  const Zrl := RleCoef(15, 0, 0)
  /** The rest of the block is zero. */
  const Eob := RleCoef(0, 0, 0)

  /** The encoder's test for a ZRL entry when it trims them. */
  predicate IsZrl(e: RleCoef)
  {
    e.skip == 15 && e.value == 0
  }

  /** The expander's test for an EOB entry (after entry 0). */
  predicate IsEob(e: RleCoef)
  {
    e.skip == 0 && e.category == 0
  }

  /** An AC entry the encoder produces for a run: a ZRL, or a run of at most 15 zeros
      followed by a nonzero coefficient with its category. */
  predicate IsRunEntry(e: RleCoef)
  {
    e == Zrl || (e.skip <= 15 && e.value != 0 && e.category == Category(e.value))
  }

  predicate AllRunEntries(es: seq<RleCoef>)
  {
    forall k | 0 <= k < |es| :: IsRunEntry(es[k])
  }

  function ZeroRun(n: nat): (r: seq<int>)
    ensures |r| == n && forall k | 0 <= k < n :: r[k] == 0
  {
    seq(n, _ => 0)
  }

  /** The coefficients a list of entries stands for, with no EOB among them. */
  function Flat(es: seq<RleCoef>): seq<int>
  {
    if |es| == 0 then [] else ZeroRun(es[0].skip) + [es[0].value] + Flat(es[1..])
  }

  lemma {:induction false} FlatSnoc(es: seq<RleCoef>, e: RleCoef)
    ensures Flat(es + [e]) == Flat(es) + ZeroRun(e.skip) + [e.value]
  {
    if |es| == 0 {
      assert es + [e] == [e];
      assert Flat([e]) == ZeroRun(e.skip) + [e.value] + Flat([]);
    } else {
      assert (es + [e])[1..] == es[1..] + [e];
      FlatSnoc(es[1..], e);
    }
  }

  lemma {:induction false} ZeroRunSplit(a: nat, b: nat)
    ensures ZeroRun(a) + ZeroRun(b) == ZeroRun(a + b)
  {
  }

  /** Every entry stands for at least one coefficient; when all entries are run entries
      and some coefficient is zero, strictly more coefficients than entries. */
  lemma {:induction false} FlatLength(es: seq<RleCoef>)
    ensures |Flat(es)| >= |es|
    ensures AllRunEntries(es) && (exists k | 0 <= k < |Flat(es)| :: Flat(es)[k] == 0) ==> |Flat(es)| > |es|
  {
    if |es| > 0 {
      FlatLength(es[1..]);
      var head := ZeroRun(es[0].skip) + [es[0].value];
      assert Flat(es) == head + Flat(es[1..]);
      if AllRunEntries(es) && (exists k | 0 <= k < |Flat(es)| :: Flat(es)[k] == 0) {
        var k :| 0 <= k < |Flat(es)| && Flat(es)[k] == 0;
        if k >= |head| {
          assert Flat(es[1..])[k - |head|] == 0;
        }
      }
    }
  }

  // ---------------------------------------------------------------------------
  // Encoding, as the loop of `RLE_encode_AC` computes it

  /** Entry 0: the DC coefficient with its category and no run. */
  function DcEntry(v: seq<int>): RleCoef
    requires |v| == 64
  {
    RleCoef(0, Category(v[0]), v[0])
  }

  /** One pass of the loop body at position i: the entries so far and the run of zeros.
      The run is not reset at position 63. */
  function ScanPosition(v: seq<int>, i: nat, skip: nat, acc: seq<RleCoef>): (seq<RleCoef>, nat)
    requires |v| == 64 && i < 64
  {
    if v[i] == 0 then
      if skip + 1 == 16 then (acc + [Zrl], if i != 63 then 0 else 16)
      else (acc, skip + 1)
    else (acc + [RleCoef(skip, Category(v[i]), v[i])], if i != 63 then 0 else skip)
  }

  /** The loop over positions i..63. */
  function ScanAc(v: seq<int>, i: nat, skip: nat, acc: seq<RleCoef>): (seq<RleCoef>, nat)
    requires |v| == 64 && i <= 64
    decreases 64 - i
  {
    if i == 64 then (acc, skip)
    else var (a, s) := ScanPosition(v, i, skip, acc); ScanAc(v, i + 1, s, a)
  }

  /** The entries and the final run after the loop. */
  function ScanBlock(v: seq<int>): (seq<RleCoef>, nat)
    requires |v| == 64
  {
    ScanAc(v, 1, 0, [DcEntry(v)])
  }

  /** Drop the trailing entries that the encoder's test takes for ZRLs. */
  function TrimZrl(es: seq<RleCoef>): seq<RleCoef>
  {
    if |es| > 0 && IsZrl(es[|es| - 1]) then TrimZrl(es[..|es| - 1]) else es
  }

  /** `RLE_encode_AC`: entry 0, the runs, and, when the final run is not empty, trailing
      ZRLs replaced by one EOB. */
  function RleEncode(v: seq<int>): seq<RleCoef>
    requires |v| == 64
  {
    var (body, skip) := ScanBlock(v);
    if skip > 0 then TrimZrl(body) + [Eob] else body
  }

  /** What holds before position i (1 <= i <= 63) is handled. */
  ghost predicate ScanInv(v: seq<int>, i: nat, skip: nat, acc: seq<RleCoef>)
  {
    && |v| == 64 && 1 <= i <= 63 && skip <= 15
    && |acc| >= 1 && acc[0] == DcEntry(v) && AllRunEntries(acc[1..])
    && |acc| + skip <= i
    && Flat(acc[1..]) + ZeroRun(skip) == v[1..i]
  }

  /** What holds after the loop: the entries stand for a prefix of the AC coefficients
      whose rest is zero, they fit in 64 slots, and a final run of 0 means that
      coefficient 63 is nonzero and all 63 coefficients are covered. */
  ghost predicate ScanDone(v: seq<int>, acc: seq<RleCoef>, skip: nat)
  {
    && |v| == 64
    && |acc| >= 1 && acc[0] == DcEntry(v) && AllRunEntries(acc[1..])
    && |acc| <= 64 && (skip > 0 ==> |acc| <= 63)
    && |Flat(acc[1..])| <= 63 && Flat(acc[1..]) + ZeroRun(63 - |Flat(acc[1..])|) == v[1..]
    && (skip == 0 ==> |Flat(acc[1..])| == 63 && v[63] != 0)
    && (v[62] != 0 && v[63] != 0 ==> skip == 0)
  }

  lemma {:induction false} AppendTail(acc: seq<RleCoef>, e: RleCoef)
    requires |acc| >= 1
    ensures (acc + [e])[1..] == acc[1..] + [e] && (acc + [e])[0] == acc[0]
  {
  }

  lemma {:induction false} TakeStep(v: seq<int>, i: nat)
    requires |v| == 64 && 1 <= i < 64
    ensures v[1..i + 1] == v[1..i] + [v[i]]
  {
  }

  lemma {:induction false} ScanStep(v: seq<int>, i: nat, skip: nat, acc: seq<RleCoef>)
    requires ScanInv(v, i, skip, acc) && i < 63
    ensures ScanInv(v, i + 1, ScanPosition(v, i, skip, acc).1, ScanPosition(v, i, skip, acc).0)
  {
    TakeStep(v, i);
    if v[i] == 0 {
      if skip + 1 == 16 {
        AppendTail(acc, Zrl);
        FlatSnoc(acc[1..], Zrl);
      } else {
        assert ZeroRun(skip) + [0] == ZeroRun(skip + 1);
      }
    } else {
      var e := RleCoef(skip, Category(v[i]), v[i]);
      AppendTail(acc, e);
      FlatSnoc(acc[1..], e);
    }
  }

  lemma {:induction false} ScanLast(v: seq<int>, skip: nat, acc: seq<RleCoef>)
    requires ScanInv(v, 63, skip, acc)
    ensures ScanDone(v, ScanPosition(v, 63, skip, acc).0, ScanPosition(v, 63, skip, acc).1)
  {
    TakeStep(v, 63);
    assert v[1..64] == v[1..];
    if skip > 0 {
      assert (Flat(acc[1..]) + ZeroRun(skip))[61] == v[62] == 0;
    }
    if v[63] == 0 {
      if skip + 1 == 16 {
        AppendTail(acc, Zrl);
        FlatSnoc(acc[1..], Zrl);
        assert Flat((acc + [Zrl])[1..]) == v[1..];
      } else {
        assert ZeroRun(skip) + [0] == ZeroRun(skip + 1);
      }
    } else {
      var e := RleCoef(skip, Category(v[63]), v[63]);
      AppendTail(acc, e);
      FlatSnoc(acc[1..], e);
      assert Flat((acc + [e])[1..]) == v[1..];
    }
  }

  lemma {:induction false} ScanResult(v: seq<int>, i: nat, skip: nat, acc: seq<RleCoef>)
    requires ScanInv(v, i, skip, acc)
    ensures ScanDone(v, ScanAc(v, i, skip, acc).0, ScanAc(v, i, skip, acc).1)
    decreases 64 - i
  {
    var next := ScanPosition(v, i, skip, acc);
    if i < 63 {
      ScanStep(v, i, skip, acc);
      ScanResult(v, i + 1, next.1, next.0);
    } else {
      ScanLast(v, skip, acc);
    }
  }

  lemma {:induction false} ScanBlockDone(v: seq<int>)
    requires |v| == 64
    ensures ScanDone(v, ScanBlock(v).0, ScanBlock(v).1)
  {
    assert [DcEntry(v)][1..] == [];
    ScanResult(v, 1, 0, [DcEntry(v)]);
  }

  /** Trimming removes only ZRLs, so the entries kept stand for a prefix of the same
      coefficients, the rest of which is zero. */
  lemma {:induction false} TrimShape(es: seq<RleCoef>)
    requires |es| >= 1 && !IsZrl(es[0])
    ensures 1 <= |TrimZrl(es)| <= |es| && TrimZrl(es) == es[..|TrimZrl(es)|]
    ensures !IsZrl(TrimZrl(es)[|TrimZrl(es)| - 1])
    ensures forall k | |TrimZrl(es)| <= k < |es| :: IsZrl(es[k])
  {
    if IsZrl(es[|es| - 1]) {
      var init := es[..|es| - 1];
      TrimShape(init);
      assert es[..|TrimZrl(init)|] == init[..|TrimZrl(init)|];
    }
  }

  /** n ZRL entries. */
  function Zrls(n: nat): (r: seq<RleCoef>)
    ensures |r| == n && forall k | 0 <= k < n :: r[k] == Zrl
  {
    if n == 0 then [] else Zrls(n - 1) + [Zrl]
  }

  lemma {:induction false} FlatOfZrls(a: seq<RleCoef>, n: nat)
    ensures Flat(a + Zrls(n)) == Flat(a) + ZeroRun(16 * n)
  {
    if n == 0 {
      assert a + Zrls(0) == a;
    } else {
      var b := a + Zrls(n - 1);
      FlatOfZrls(a, n - 1);
      assert a + Zrls(n) == b + [Zrl];
      FlatSnoc(b, Zrl);
      ZeroRunZrl(16 * (n - 1));
    }
  }

  /** A ZRL stands for 16 zeros. */
  lemma {:induction false} ZeroRunZrl(m: nat)
    ensures ZeroRun(m) + ZeroRun(Zrl.skip) + [Zrl.value] == ZeroRun(m + 16)
  {
  }

  lemma {:induction false} TrimFacts(es: seq<RleCoef>)
    requires |es| >= 1 && !IsZrl(es[0]) && AllRunEntries(es[1..])
    ensures 1 <= |TrimZrl(es)| <= |es| && TrimZrl(es) == es[..|TrimZrl(es)|]
    ensures !IsZrl(TrimZrl(es)[|TrimZrl(es)| - 1]) && AllRunEntries(TrimZrl(es)[1..])
    ensures |Flat(TrimZrl(es)[1..])| <= |Flat(es[1..])|
    ensures Flat(es[1..]) == Flat(TrimZrl(es)[1..]) + ZeroRun(|Flat(es[1..])| - |Flat(TrimZrl(es)[1..])|)
  {
    TrimShape(es);
    var t := TrimZrl(es);
    var n := |es| - |t|;
    forall k | 0 <= k < n
      ensures es[|t|..][k] == Zrl
    {
      assert es[|t| + k] == es[1..][|t| + k - 1];
    }
    assert es[|t|..] == Zrls(n);
    assert es[1..] == t[1..] + es[|t|..];
    FlatOfZrls(t[1..], n);
    assert AllRunEntries(t[1..]) by {
      forall k | 0 <= k < |t| - 1
        ensures IsRunEntry(t[1..][k])
      {
        assert t[1..][k] == es[1..][k];
      }
    }
  }

  /** The last coefficient the entries stand for is the last entry's value. */
  lemma {:induction false} LastOfFlat(es: seq<RleCoef>)
    ensures |es| > 0 ==> |Flat(es)| > 0 && Flat(es)[|Flat(es)| - 1] == es[|es| - 1].value
  {
    if |es| > 0 {
      assert es == es[..|es| - 1] + [es[|es| - 1]];
      FlatSnoc(es[..|es| - 1], es[|es| - 1]);
    }
  }

  predicate EndsWithEob(r: seq<RleCoef>)
  {
    |r| >= 2 && r[|r| - 1] == Eob
  }

  /** A run entry is never read as an EOB by the expander. */
  lemma {:induction false} RunEntryNotEob(e: RleCoef)
    requires IsRunEntry(e)
    ensures !IsEob(e)
  {
    if e != Zrl {
      CategoryBounds(e.value);
    }
  }

  /** `RLE_encode_AC` produces between 1 and 64 entries; entry 0 is the DC coefficient;
      every later entry is a ZRL, a run ending in a nonzero coefficient of its category,
      or, as the last entry only, an EOB. */
  lemma {:induction false} RleEncodeShape(v: seq<int>)
    requires |v| == 64
    ensures 1 <= |RleEncode(v)| <= 64
    ensures RleEncode(v)[0] == RleCoef(0, Category(v[0]), v[0])
    ensures forall k | 1 <= k < |RleEncode(v)| ::
      IsRunEntry(RleEncode(v)[k]) || (k == |RleEncode(v)| - 1 && RleEncode(v)[k] == Eob)
  {
    ScanBlockDone(v);
    var (body, skip) := ScanBlock(v);
    if skip > 0 {
      TrimFacts(body);
      var t := TrimZrl(body);
      assert forall k | 1 <= k < |t| :: t[k] == t[1..][k - 1];
    } else {
      assert forall k | 1 <= k < |body| :: body[k] == body[1..][k - 1];
    }
  }

  /** An EOB ends the entries exactly when the final run is not empty; it is the only
      entry after entry 0 that the expander takes for an EOB, and no ZRL comes right
      before it. */
  lemma {:induction false} RleEncodeEob(v: seq<int>)
    requires |v| == 64
    ensures EndsWithEob(RleEncode(v)) <==> ScanBlock(v).1 > 0
    ensures forall k | 1 <= k < |RleEncode(v)| - 1 :: !IsEob(RleEncode(v)[k])
    ensures EndsWithEob(RleEncode(v)) ==> !IsZrl(RleEncode(v)[|RleEncode(v)| - 2])
  {
    RleEncodeShape(v);
    ScanBlockDone(v);
    var r := RleEncode(v);
    var (body, skip) := ScanBlock(v);
    forall k | 1 <= k < |r| - 1
      ensures !IsEob(r[k])
    {
      RunEntryNotEob(r[k]);
    }
    if skip > 0 {
      TrimFacts(body);
    } else {
      FlatLength(body[1..]);
      RunEntryNotEob(r[|r| - 1]);
    }
  }

  /** An all-zero AC part gives exactly the DC entry and an EOB. */
  lemma {:induction false} RleEncodeAllZero(v: seq<int>)
    requires |v| == 64 && forall k | 1 <= k < 64 :: v[k] == 0
    ensures RleEncode(v) == [RleCoef(0, Category(v[0]), v[0]), Eob]
  {
    ScanBlockDone(v);
    var (body, skip) := ScanBlock(v);
    assert skip > 0;
    TrimFacts(body);
    var t := TrimZrl(body);
    var tail := t[1..];
    assert |tail| > 0 ==> tail[|tail| - 1] == t[|t| - 1] && tail[|tail| - 1].value != 0;
    forall j | 0 <= j < |Flat(tail)|
      ensures Flat(tail)[j] == 0
    {
      assert Flat(tail)[j] == Flat(body[1..])[j] == v[1..][j] == v[j + 1];
    }
    if |tail| > 0 {
      LastOfFlat(tail);
      assert false;
    }
    assert t == [body[0]];
  }

  // ---------------------------------------------------------------------------
  // Expansion, as the loop of `rle_to_block` computes it

  /** The loop from entry i with the next free position `index`. It stops at the end of
      the entries, when the block is full, at an EOB after entry 0, or when a run reaches
      past position 63. */
  function Fill(rle: seq<RleCoef>, i: nat, index: nat, block: seq<int>): (r: seq<int>)
    requires |block| == 64
    ensures |r| == 64
    decreases |rle| - i
  {
    if i >= |rle| || index >= 64 then block
    else
      var c := rle[i];
      if i != 0 && c.skip == 0 && c.category == 0 then block
      else
        var at := index + c.skip;
        if at >= 64 then block
        else Fill(rle, i + 1, at + 1, block[at := c.value])
  }

  /** `rle_to_block`: the 64 coefficients, starting from all zeros. */
  function Expand(rle: seq<RleCoef>): seq<int>
  {
    Fill(rle, 0, 0, ZeroRun(64))
  }

  predicate NoEob(rle: seq<RleCoef>, i: nat)
  {
    forall k | i <= k < |rle| :: !IsEob(rle[k])
  }

  /** Entries with no EOB among them that fit in the block land where they belong, and
      the positions after them stay zero. */
  lemma {:induction false} FillFlat(rle: seq<RleCoef>, i: nat, index: nat, block: seq<int>)
    requires |block| == 64 && 1 <= i <= |rle| && NoEob(rle, i)
    requires index + |Flat(rle[i..])| <= 64
    requires forall k | index <= k < 64 :: block[k] == 0
    ensures Fill(rle, i, index, block) == block[..index] + Flat(rle[i..]) + ZeroRun(64 - index - |Flat(rle[i..])|)
    decreases |rle| - i
  {
    if i == |rle| {
      assert rle[i..] == [];
      assert block == block[..index] + ZeroRun(64 - index);
    } else {
      var c := rle[i];
      assert rle[i..] == [c] + rle[i + 1..];
      assert Flat(rle[i..]) == ZeroRun(c.skip) + [c.value] + Flat(rle[i + 1..]);
      var at := index + c.skip;
      var block' := block[at := c.value];
      FillFlat(rle, i + 1, at + 1, block');
      assert block'[..at + 1] == block[..index] + ZeroRun(c.skip) + [c.value];
    }
  }

  /** The expansion ignores everything from the first EOB after entry 0 on. */
  lemma {:induction false} FillStopsAtEob(rle: seq<RleCoef>, i: nat, index: nat, block: seq<int>, k: nat)
    requires |block| == 64 && 1 <= k < |rle| && i <= k && IsEob(rle[k])
    ensures Fill(rle, i, index, block) == Fill(rle[..k], i, index, block)
    decreases k - i
  {
    if i < k && index < 64 {
      var c := rle[i];
      if !(i != 0 && c.skip == 0 && c.category == 0) && index + c.skip < 64 {
        FillStopsAtEob(rle, i + 1, index + c.skip + 1, block[index + c.skip := c.value], k);
      }
    }
  }

  /** `rle_to_block` stops at the first EOB after entry 0: later entries do not matter. */
  lemma {:induction false} ExpandStopsAtEob(rle: seq<RleCoef>, k: nat)
    requires 1 <= k < |rle| && IsEob(rle[k])
    ensures Expand(rle) == Expand(rle[..k])
  {
    FillStopsAtEob(rle, 0, 0, ZeroRun(64), k);
  }

  /** A DC entry followed by run entries standing for the AC coefficients with trailing
      zeros left out expands to the whole block. */
  lemma {:induction false} ExpandRuns(t: seq<RleCoef>, v: seq<int>)
    requires |v| == 64 && |t| >= 1 && t[0] == DcEntry(v) && AllRunEntries(t[1..])
    requires |Flat(t[1..])| <= 63 && Flat(t[1..]) + ZeroRun(63 - |Flat(t[1..])|) == v[1..]
    ensures Expand(t) == v
  {
    forall k | 1 <= k < |t|
      ensures !IsEob(t[k])
    {
      assert t[k] == t[1..][k - 1];
      RunEntryNotEob(t[k]);
    }
    var start := ZeroRun(64)[0 := v[0]];
    assert Expand(t) == Fill(t, 1, 1, start);
    FillFlat(t, 1, 1, start);
    assert start[..1] == [v[0]];
    assert v == [v[0]] + v[1..];
  }

  /** The same with trailing ZRLs replaced by an EOB. */
  lemma {:induction false} ExpandTrimmed(body: seq<RleCoef>, v: seq<int>)
    requires |v| == 64 && |body| >= 1 && body[0] == DcEntry(v) && AllRunEntries(body[1..])
    requires |Flat(body[1..])| <= 63 && Flat(body[1..]) + ZeroRun(63 - |Flat(body[1..])|) == v[1..]
    ensures Expand(TrimZrl(body) + [Eob]) == v
  {
    TrimFacts(body);
    var t := TrimZrl(body);
    var r := t + [Eob];
    assert r[..|r| - 1] == t;
    ExpandStopsAtEob(r, |r| - 1);
    ZeroRunSplit(|Flat(body[1..])| - |Flat(t[1..])|, 63 - |Flat(body[1..])|);
    ExpandRuns(t, v);
  }

  /** Expanding the encoded entries gives the coefficients back, for every block. */
  lemma {:induction false} ExpandRleEncode(v: seq<int>)
    requires |v| == 64
    ensures Expand(RleEncode(v)) == v
  {
    ScanBlockDone(v);
    var (body, skip) := ScanBlock(v);
    if skip > 0 {
      ExpandTrimmed(body, v);
    } else {
      ExpandRuns(body, v);
    }
  }

  // ---------------------------------------------------------------------------
  // Blocks without an EOB

  /** The block's entries end where the decoder of `read_rle_block` stops reading:
      at an EOB, or after 64 entries. */
  predicate Terminated(r: seq<RleCoef>)
  {
    EndsWithEob(r) || |r| == 64
  }

  /** As written, a block whose last two AC coefficients are nonzero and which has a zero
      AC coefficient gets fewer than 64 entries and no EOB. */
  lemma {:induction false} RleEncodeMissingEob(v: seq<int>)
    requires |v| == 64 && v[62] != 0 && v[63] != 0
    requires exists k | 1 <= k < 64 :: v[k] == 0
    ensures |RleEncode(v)| < 64 && !EndsWithEob(RleEncode(v)) && !Terminated(RleEncode(v))
  {
    ScanBlockDone(v);
    EmptyRunMissingEob(v);
  }

  /** One such block: a zero at position 1 and ones after it. */
  lemma {:induction false} MissingEobExample()
    ensures var v := [7, 0] + seq(62, _ => 1); |v| == 64 && !Terminated(RleEncode(v))
  {
    var v := [7, 0] + seq(62, _ => 1);
    assert v[1] == 0 && v[62] == 1 && v[63] == 1;
    RleEncodeMissingEob(v);
  }

  /** The run of zeros the loop of `RLE_encode_AC` ends with, from position i and a run
      of skip on: the run part of `ScanAc`, which does not depend on the entries. */
  function FinalRun(v: seq<int>, i: nat, skip: nat): nat
    requires |v| == 64 && i <= 64
    decreases 64 - i
  {
    if i == 64 then skip else FinalRun(v, i + 1, ScanPosition(v, i, skip, []).1)
  }

  lemma {:induction false} ScanAcRun(v: seq<int>, i: nat, skip: nat, acc: seq<RleCoef>)
    requires |v| == 64 && i <= 64
    ensures ScanAc(v, i, skip, acc).1 == FinalRun(v, i, skip)
    decreases 64 - i
  {
    if i < 64 {
      var (a, s) := ScanPosition(v, i, skip, acc);
      assert s == ScanPosition(v, i, skip, []).1;
      ScanAcRun(v, i + 1, s, a);
    }
  }

  /** A nonzero coefficient at position 46 leaves no run behind it. */
  lemma {:induction false} RunAfterNonZero(v: seq<int>, i: nat, skip: nat)
    requires |v| == 64 && 1 <= i <= 46 && v[46] != 0
    ensures FinalRun(v, i, skip) == FinalRun(v, 47, 0)
    decreases 46 - i
  {
    if i < 46 {
      RunAfterNonZero(v, i + 1, ScanPosition(v, i, skip, []).1);
    }
  }

  /** Sixteen zeros at positions 47 to 62 end in a ZRL at 62, which resets the run. */
  lemma {:induction false} RunThroughZrl(v: seq<int>, i: nat)
    requires |v| == 64 && 47 <= i <= 62
    requires forall k | 47 <= k < 63 :: v[k] == 0
    ensures FinalRun(v, i, i - 47) == FinalRun(v, 63, 0)
    decreases 62 - i
  {
    assert v[i] == 0;
    if i < 62 {
      RunThroughZrl(v, i + 1);
    }
  }

  /** As written, a block whose final run is empty but which has a zero AC coefficient
      gets fewer than 64 entries and no EOB. */
  lemma {:induction false} EmptyRunMissingEob(v: seq<int>)
    requires |v| == 64 && ScanBlock(v).1 == 0
    requires exists k | 1 <= k < 64 :: v[k] == 0
    ensures |RleEncode(v)| < 64 && !EndsWithEob(RleEncode(v)) && !Terminated(RleEncode(v))
  {
    ScanBlockDone(v);
    RleEncodeEob(v);
    var (body, skip) := ScanBlock(v);
    var k :| 1 <= k < 64 && v[k] == 0;
    assert Flat(body[1..]) == v[1..];
    assert Flat(body[1..])[k - 1] == 0;
    FlatLength(body[1..]);
  }

  /** The other way to an empty final run: a ZRL at position 62, after which the run is
      reset because 62 is not 63, and a nonzero coefficient 63. Such a block also gets
      fewer than 64 entries and no EOB. */
  lemma {:induction false} ZrlMissingEob(v: seq<int>)
    requires |v| == 64 && v[46] != 0 && v[63] != 0
    requires forall k | 47 <= k < 63 :: v[k] == 0
    ensures |RleEncode(v)| < 64 && !EndsWithEob(RleEncode(v)) && !Terminated(RleEncode(v))
  {
    ScanAcRun(v, 1, 0, [DcEntry(v)]);
    RunAfterNonZero(v, 1, 0);
    RunThroughZrl(v, 47);
    assert FinalRun(v, 63, 0) == 0;
    assert v[47] == 0;
    EmptyRunMissingEob(v);
  }

  /** One such block: DC 7, ones up to position 46, sixteen zeros and a final one. */
  lemma {:induction false} ZrlMissingEobExample()
    ensures var v := [7] + seq(46, _ => 1) + seq(16, _ => 0) + [1]; |v| == 64 && !Terminated(RleEncode(v))
  {
    var v := [7] + seq(46, _ => 1) + seq(16, _ => 0) + [1];
    assert v[46] == 1 && v[63] == 1;
    assert forall k | 47 <= k < 63 :: v[k] == 0;
    ZrlMissingEob(v);
  }

  /** The encoder with an EOB appended to every block that would otherwise end early. */
  function RleEncodeFixed(v: seq<int>): seq<RleCoef>
    requires |v| == 64
  {
    var r := RleEncode(v);
    if Terminated(r) then r else r + [Eob]
  }

  /** Every block of the corrected encoder is terminated, still fits in 64 entries, has
      its only EOB at the end, and expands back to the coefficients. */
  lemma {:induction false} RleEncodeFixedCorrect(v: seq<int>)
    requires |v| == 64
    ensures Terminated(RleEncodeFixed(v)) && 1 <= |RleEncodeFixed(v)| <= 64
    ensures RleEncodeFixed(v)[0] == RleCoef(0, Category(v[0]), v[0])
    ensures forall k | 1 <= k < |RleEncodeFixed(v)| - 1 :: !IsEob(RleEncodeFixed(v)[k])
    ensures Expand(RleEncodeFixed(v)) == v
  {
    var r := RleEncode(v);
    RleEncodeShape(v);
    RleEncodeEob(v);
    ExpandRleEncode(v);
    if !Terminated(r) {
      var f := r + [Eob];
      assert f[..|r|] == r;
      ExpandStopsAtEob(f, |r|);
    }
  }

  // ---------------------------------------------------------------------------
  // The routines on arrays

  /** `RLE_encode_AC`: fill a 64-slot buffer and return how many entries it holds. */
  method RleEncodeAc(coef: array<int>) returns (encoded: array<RleCoef>, count: int)
    requires coef.Length == 64
    ensures fresh(encoded)
    ensures encoded.Length == 64 && 1 <= count <= 64
    ensures encoded[..count] == RleEncode(coef[..])
  {
    ghost var v := coef[..];
    encoded := new RleCoef[64](_ => Eob);
    var skip: nat := 0;
    var val := coef[0];
    var cat := CoefCategory(coef[0]);
    encoded[0] := RleCoef(skip, cat, val);
    count := 1;
    ghost var acc := [DcEntry(v)];
    for i := 1 to 64
      invariant 1 <= count <= i && |acc| == count && encoded[..count] == acc
      invariant acc[0] == DcEntry(v)
      invariant ScanAc(v, i, skip, acc) == ScanBlock(v)
    {
      ghost var next := ScanPosition(v, i, skip, acc);
      val := coef[i];
      if val == 0 {
        skip := skip + 1;
        if skip == 16 {
          encoded[count] := Zrl;
          count := count + 1;
          acc := acc + [Zrl];
          if i != 63 {
            skip := 0;
          }
        }
      } else {
        cat := CoefCategory(val);
        encoded[count] := RleCoef(skip, cat, val);
        count := count + 1;
        acc := acc + [RleCoef(skip, cat, val)];
        if i != 63 {
          skip := 0;
        }
      }
      assert (acc, skip) == next;
    }
    ScanBlockDone(v);
    if skip > 0 {
      count := EndBlock(encoded, count, acc);
    }
  }

  /** The end of `RLE_encode_AC` when the final run is not empty: write an EOB after the
      entries, and when they end in ZRLs, step back over them and write the EOB there. */
  method EndBlock(encoded: array<RleCoef>, count: int, ghost acc: seq<RleCoef>) returns (newCount: int)
    requires encoded.Length == 64 && 1 <= count < 64 && encoded[..count] == acc
    requires !IsZrl(acc[0])
    modifies encoded
    ensures 1 <= newCount <= 64 && encoded[..newCount] == TrimZrl(acc) + [Eob]
  {
    newCount := count;
    encoded[newCount] := Eob;
    assert encoded[..newCount] == acc;
    if IsZrl(encoded[newCount - 1]) {
      newCount := newCount - 1;
      assert acc[..newCount + 1] == acc;
      while IsZrl(encoded[newCount])
        invariant 0 <= newCount < count && encoded[..count] == acc
        invariant TrimZrl(acc[..newCount + 1]) == TrimZrl(acc)
        decreases newCount
      {
        assert acc[..newCount + 1][..newCount] == acc[..newCount];
        newCount := newCount - 1;
      }
      newCount := newCount + 1;
      encoded[newCount] := Eob;
      assert encoded[..newCount] == acc[..newCount];
    }
    newCount := newCount + 1;
  }

  /** `rle_to_block`: a fresh zeroed block filled from the entries. */
  method RleToBlock(rle: seq<RleCoef>) returns (block: array<int>)
    ensures fresh(block)
    ensures block.Length == 64 && block[..] == Expand(rle)
  {
    block := new int[64](_ => 0);
    assert block[..] == ZeroRun(64);
    var index: nat := 0;
    var i := 0;
    while i < |rle| && index < 64
      invariant 0 <= i <= |rle| && block.Length == 64
      invariant Fill(rle, i, index, block[..]) == Expand(rle)
    {
      var coef := rle[i];
      if i != 0 && (coef.skip == 0 && coef.category == 0) {
        break;
      }
      index := index + coef.skip;
      if index >= 64 {
        break;
      }
      block[index] := coef.value;
      index := index + 1;
      i := i + 1;
    }
  }
}
