/** The DC predictor of libjpeg/src/img_functions.c: `delta_encoding_DC` replaces the DC
    coefficient (element 0) of each zigzag block by its difference from the previous
    block's DC, and `delta_decoding` restores it by a running sum, on all three channels. */
module DcPredictor {

  /** A block after the zigzag scan: 64 coefficients, element 0 the DC one. */
  predicate IsVector(b: seq<int>)
  {
    |b| == 64
  }

  predicate IsChannel(bs: seq<seq<int>>)
  {
    forall k | 0 <= k < |bs| :: IsVector(bs[k])
  }

  /** The DC coefficients of a channel, in block order. */
  function Dcs(bs: seq<seq<int>>): (d: seq<int>)
    requires IsChannel(bs)
    ensures |d| == |bs| && forall k | 0 <= k < |bs| :: d[k] == bs[k][0]
  {
    seq(|bs|, k requires 0 <= k < |bs| => bs[k][0])
  }

  /** The same blocks with the DC coefficients replaced by d. */
  function WithDcs(bs: seq<seq<int>>, d: seq<int>): (r: seq<seq<int>>)
    requires IsChannel(bs) && |d| == |bs|
    ensures |r| == |bs| && IsChannel(r)
    ensures forall k | 0 <= k < |bs| :: r[k][0] == d[k] && r[k][1..] == bs[k][1..]
  {
    seq(|bs|, k requires 0 <= k < |bs| => bs[k][0 := d[k]])
  }

  /** Differences of consecutive values; the first is kept. */
  function Differences(d: seq<int>): (r: seq<int>)
    ensures |r| == |d|
  {
    seq(|d|, k requires 0 <= k < |d| => if k == 0 then d[0] else d[k] - d[k - 1])
  }

  /** The sum of the first n values of d. */
  function Sum(d: seq<int>, n: nat): int
    requires n <= |d|
  {
    if n == 0 then 0 else Sum(d, n - 1) + d[n - 1]
  }

  /** Running sums: element k is d[0] + ... + d[k]. */
  function RunningSums(d: seq<int>): (r: seq<int>)
    ensures |r| == |d|
  {
    seq(|d|, k requires 0 <= k < |d| => Sum(d, k + 1))
  }

  /** What `delta_encoding_DC` computes for one channel. */
  function DeltaChannel(bs: seq<seq<int>>): seq<seq<int>>
    requires IsChannel(bs)
  {
    WithDcs(bs, Differences(Dcs(bs)))
  }

  /** What `delta_decoding` computes for one channel. */
  function UndeltaChannel(bs: seq<seq<int>>): seq<seq<int>>
    requires IsChannel(bs)
  {
    WithDcs(bs, RunningSums(Dcs(bs)))
  }

  /** Summing the differences telescopes back to the last value. */
  lemma {:induction false} SumOfDifferences(d: seq<int>, n: nat)
    requires 0 < n <= |d|
    ensures Sum(Differences(d), n) == d[n - 1]
  {
    if n > 1 {
      SumOfDifferences(d, n - 1);
    }
  }

  /** Running sums undo differences ... */
  lemma {:induction false} RunningSumsOfDifferences(d: seq<int>)
    ensures RunningSums(Differences(d)) == d
  {
    forall k | 0 <= k < |d|
      ensures RunningSums(Differences(d))[k] == d[k]
    {
      SumOfDifferences(d, k + 1);
    }
  }

  /** ... and differences undo running sums. */
  lemma {:induction false} DifferencesOfRunningSums(d: seq<int>)
    ensures Differences(RunningSums(d)) == d
  {
    forall k | 0 <= k < |d|
      ensures Differences(RunningSums(d))[k] == d[k]
    {
      assert Sum(d, k + 1) == Sum(d, k) + d[k];
    }
  }

  /** Decoding restores every block that encoding changed ... */
  lemma {:induction false} UndeltaDelta(bs: seq<seq<int>>)
    requires IsChannel(bs)
    ensures UndeltaChannel(DeltaChannel(bs)) == bs
  {
    var d := Dcs(bs);
    assert Dcs(DeltaChannel(bs)) == Differences(d);
    RunningSumsOfDifferences(d);
    forall k | 0 <= k < |bs|
      ensures UndeltaChannel(DeltaChannel(bs))[k] == bs[k]
    {
      assert UndeltaChannel(DeltaChannel(bs))[k][1..] == bs[k][1..];
    }
  }

  /** ... and encoding undoes decoding. */
  lemma {:induction false} DeltaUndelta(bs: seq<seq<int>>)
    requires IsChannel(bs)
    ensures DeltaChannel(UndeltaChannel(bs)) == bs
  {
    var d := Dcs(bs);
    assert Dcs(UndeltaChannel(bs)) == RunningSums(d);
    DifferencesOfRunningSums(d);
    forall k | 0 <= k < |bs|
      ensures DeltaChannel(UndeltaChannel(bs))[k] == bs[k]
    {
      assert DeltaChannel(UndeltaChannel(bs))[k][1..] == bs[k][1..];
    }
  }

  /** Encoding keeps the first DC, replaces every later DC by its difference from the one
      before, keeps coefficients 1..63 and the number of blocks. */
  lemma {:induction false} DeltaChannelEffect(bs: seq<seq<int>>)
    requires IsChannel(bs)
    ensures |DeltaChannel(bs)| == |bs| && IsChannel(DeltaChannel(bs))
    ensures |bs| > 0 ==> DeltaChannel(bs)[0] == bs[0]
    ensures forall k | 1 <= k < |bs| :: DeltaChannel(bs)[k][0] == bs[k][0] - bs[k - 1][0]
    ensures forall k, m | 0 <= k < |bs| && 1 <= m < 64 :: DeltaChannel(bs)[k][m] == bs[k][m]
  {
    if |bs| > 0 {
      assert DeltaChannel(bs)[0] == bs[0][0 := bs[0][0]];
    }
    forall k, m | 0 <= k < |bs| && 1 <= m < 64
      ensures DeltaChannel(bs)[k][m] == bs[k][m]
    {
      assert DeltaChannel(bs)[k][m] == DeltaChannel(bs)[k][1..][m - 1];
    }
  }

  /** With no block or a single block, encoding changes nothing. */
  lemma {:induction false} DeltaSmall(bs: seq<seq<int>>)
    requires IsChannel(bs) && |bs| <= 1
    ensures DeltaChannel(bs) == bs
  {
    DeltaChannelEffect(bs);
  }

  /** After the descending loop of `delta_encoding_DC` has handled blocks above i. */
  ghost predicate EncodedAbove(cur: seq<seq<int>>, orig: seq<seq<int>>, i: int)
    requires IsChannel(orig)
  {
    |cur| == |orig| && forall k | 0 <= k < |orig| :: cur[k] == if k > i then DeltaChannel(orig)[k] else orig[k]
  }

  /** After the ascending loop of `delta_decoding` has handled blocks below i. */
  ghost predicate DecodedBelow(cur: seq<seq<int>>, orig: seq<seq<int>>, i: int)
    requires IsChannel(orig)
  {
    |cur| == |orig| && forall k | 0 <= k < |orig| :: cur[k] == if k < i then UndeltaChannel(orig)[k] else orig[k]
  }

  lemma {:induction false} EncodeStart(orig: seq<seq<int>>)
    requires IsChannel(orig)
    ensures EncodedAbove(orig, orig, |orig| - 1)
  {
  }

  lemma {:induction false} EncodeDone(cur: seq<seq<int>>, orig: seq<seq<int>>)
    requires IsChannel(orig) && EncodedAbove(cur, orig, 0)
    ensures cur == DeltaChannel(orig)
  {
    DeltaChannelEffect(orig);
  }

  lemma {:induction false} DecodeStart(orig: seq<seq<int>>)
    requires IsChannel(orig) && |orig| > 0
    ensures DecodedBelow(orig, orig, 1)
  {
    assert Sum(Dcs(orig), 1) == orig[0][0];
    assert UndeltaChannel(orig)[0] == orig[0][0 := orig[0][0]];
  }

  lemma {:induction false} DecodeDone(cur: seq<seq<int>>, orig: seq<seq<int>>)
    requires IsChannel(orig) && DecodedBelow(cur, orig, |orig|)
    ensures cur == UndeltaChannel(orig)
  {
  }

  /** One step of the descending loop on one channel. */
  lemma {:induction false} EncodeStep(cur: seq<seq<int>>, orig: seq<seq<int>>, i: int)
    requires IsChannel(orig) && 0 < i < |orig| && EncodedAbove(cur, orig, i)
    ensures EncodedAbove(cur[i := cur[i][0 := cur[i][0] - cur[i - 1][0]]], orig, i - 1)
  {
  }

  /** One step of the ascending loop on one channel. */
  lemma {:induction false} DecodeStep(cur: seq<seq<int>>, orig: seq<seq<int>>, i: int)
    requires IsChannel(orig) && 0 < i < |orig| && DecodedBelow(cur, orig, i)
    ensures DecodedBelow(cur[i := cur[i][0 := cur[i][0] + cur[i - 1][0]]], orig, i + 1)
  {
    assert Sum(Dcs(orig), i + 1) == Sum(Dcs(orig), i) + orig[i][0];
  }

  /** `Blocks_ZigZag`: the zigzag vectors of the three channels and their common count. */
  class BlocksZigZag {
    var yBlocks: seq<seq<int>>
    var cbBlocks: seq<seq<int>>
    var crBlocks: seq<seq<int>>
    var numBlocks: int

    ghost predicate Valid()
      reads this
    {
      && numBlocks == |yBlocks| == |cbBlocks| == |crBlocks|
      && IsChannel(yBlocks) && IsChannel(cbBlocks) && IsChannel(crBlocks)
    }

    constructor (y: seq<seq<int>>, cb: seq<seq<int>>, cr: seq<seq<int>>)
      requires |y| == |cb| == |cr| && IsChannel(y) && IsChannel(cb) && IsChannel(cr)
      ensures Valid() && yBlocks == y && cbBlocks == cb && crBlocks == cr
    {
      yBlocks, cbBlocks, crBlocks := y, cb, cr;
      numBlocks := |y|;
    }

    /** `delta_encoding_DC`: every channel is replaced by its DC differences. */
    method DeltaEncodingDc()
      requires Valid()
      modifies this
      ensures Valid() && numBlocks == old(numBlocks)
      ensures yBlocks == DeltaChannel(old(yBlocks))
      ensures cbBlocks == DeltaChannel(old(cbBlocks))
      ensures crBlocks == DeltaChannel(old(crBlocks))
    {
      if numBlocks == 0 {
        DeltaSmall(yBlocks);
        DeltaSmall(cbBlocks);
        DeltaSmall(crBlocks);
        return;
      }
      ghost var y0, cb0, cr0 := yBlocks, cbBlocks, crBlocks;
      EncodeStart(y0);
      EncodeStart(cb0);
      EncodeStart(cr0);
      var y, cb, cr := yBlocks, cbBlocks, crBlocks;
      var i := numBlocks - 1;
      while i > 0
        invariant 0 <= i < numBlocks && numBlocks == |y0|
        invariant EncodedAbove(y, y0, i) && EncodedAbove(cb, cb0, i) && EncodedAbove(cr, cr0, i)
      {
        EncodeStep(y, y0, i);
        EncodeStep(cb, cb0, i);
        EncodeStep(cr, cr0, i);
        y := y[i := y[i][0 := y[i][0] - y[i - 1][0]]];
        cb := cb[i := cb[i][0 := cb[i][0] - cb[i - 1][0]]];
        cr := cr[i := cr[i][0 := cr[i][0] - cr[i - 1][0]]];
        i := i - 1;
      }
      EncodeDone(y, y0);
      EncodeDone(cb, cb0);
      EncodeDone(cr, cr0);
      yBlocks, cbBlocks, crBlocks := y, cb, cr;
    }

    /** `delta_decoding`: every channel's DCs are replaced by their running sums. */
    method DeltaDecoding()
      requires Valid()
      modifies this
      ensures Valid() && numBlocks == old(numBlocks)
      ensures yBlocks == UndeltaChannel(old(yBlocks))
      ensures cbBlocks == UndeltaChannel(old(cbBlocks))
      ensures crBlocks == UndeltaChannel(old(crBlocks))
    {
      ghost var y0, cb0, cr0 := yBlocks, cbBlocks, crBlocks;
      if numBlocks == 0 {
        assert UndeltaChannel(y0) == y0 && UndeltaChannel(cb0) == cb0 && UndeltaChannel(cr0) == cr0;
        return;
      }
      DecodeStart(y0);
      DecodeStart(cb0);
      DecodeStart(cr0);
      var y, cb, cr := yBlocks, cbBlocks, crBlocks;
      var i := 1;
      while i < numBlocks
        invariant 1 <= i <= numBlocks && numBlocks == |y0|
        invariant DecodedBelow(y, y0, i) && DecodedBelow(cb, cb0, i) && DecodedBelow(cr, cr0, i)
      {
        DecodeStep(y, y0, i);
        DecodeStep(cb, cb0, i);
        DecodeStep(cr, cr0, i);
        y := y[i := y[i][0 := y[i][0] + y[i - 1][0]]];
        cb := cb[i := cb[i][0 := cb[i][0] + cb[i - 1][0]]];
        cr := cr[i := cr[i][0 := cr[i][0] + cr[i - 1][0]]];
        i := i + 1;
      }
      DecodeDone(y, y0);
      DecodeDone(cb, cb0);
      DecodeDone(cr, cr0);
      yBlocks, cbBlocks, crBlocks := y, cb, cr;
    }
  }
}
