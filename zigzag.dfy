/** The zigzag scan of libjpeg/src/img_functions.c (`zigzag`): the 8x8 <-> 64 diagonal
    order of Figure A.6 of ITU-T T.81, section A.3.6, generated by a step rule. */
module ZigZag {

  datatype Cell = Cell(i: int, j: int)

  predicate InGrid(c: Cell)
  {
    0 <= c.i < 8 && 0 <= c.j < 8
  }

  /** One move of the scan: up-right on diagonals with even i + j, down-left on odd ones,
      turning along the block's edges. */
  function Step(c: Cell): Cell
  {
    if (c.i + c.j) % 2 == 0 then
      if c.j == 7 then Cell(c.i + 1, c.j)
      else if c.i == 0 then Cell(c.i, c.j + 1)
      else Cell(c.i - 1, c.j + 1)
    else
      if c.i == 7 then Cell(c.i, c.j + 1)
      else if c.j == 0 then Cell(c.i + 1, c.j)
      else Cell(c.i + 1, c.j - 1)
  }

  /** The cell the scan is at after k moves from (0, 0). */
  function Walk(k: nat): Cell
  {
    if k == 0 then Cell(0, 0) else Step(Walk(k - 1))
  }

  // ---------------------------------------------------------------------------
  // The closed form of the order: diagonal by diagonal

  /** The number of cells on anti-diagonal d of the block. */
  function DiagonalLength(d: int): int
  {
    if d < 8 then d + 1 else 15 - d
  }

  /** The number of cells on the anti-diagonals before d. */
  function DiagonalStart(d: nat): nat
    requires d <= 15
  {
    if d == 0 then 0 else DiagonalStart(d - 1) + DiagonalLength(d - 1)
  }

  /** The last diagonal starts at position 63; the block holds 64 cells. */
  lemma {:induction false} LastStarts()
    ensures DiagonalStart(14) == 63 && DiagonalStart(15) == 64
  {
    assert DiagonalStart(1) == 1;
    assert DiagonalStart(2) == 3;
    assert DiagonalStart(3) == 6;
    assert DiagonalStart(4) == 10;
    assert DiagonalStart(5) == 15;
    assert DiagonalStart(6) == 21;
    assert DiagonalStart(7) == 28;
    assert DiagonalStart(8) == 36;
    assert DiagonalStart(9) == 43;
    assert DiagonalStart(10) == 49;
    assert DiagonalStart(11) == 54;
    assert DiagonalStart(12) == 58;
    assert DiagonalStart(13) == 61;
  }

  /** The starts increase from one diagonal to the next. */
  lemma {:induction false} StartsIncrease(d1: int, d2: int)
    requires 0 <= d1 < d2 <= 15
    ensures DiagonalStart(d1 + 1) <= DiagonalStart(d2)
  {
    if d1 + 1 < d2 {
      StartsIncrease(d1, d2 - 1);
    }
  }

  /** Whether the scan runs up-right along diagonal d (d even), counted from d = 0. */
  predicate UpDiagonal(d: nat)
  {
    if d == 0 then true else !UpDiagonal(d - 1)
  }

  lemma {:induction false} UpDiagonalEven(d: nat)
    ensures UpDiagonal(d) <==> d % 2 == 0
  {
    if d > 0 {
      UpDiagonalEven(d - 1);
    }
  }

  /** How far along its diagonal the scan reaches a cell. */
  function Offset(c: Cell): int
    requires InGrid(c)
  {
    var d := c.i + c.j;
    if d < 8 then (if UpDiagonal(d) then c.j else c.i)
    else (if UpDiagonal(d) then 7 - c.i else 7 - c.j)
  }

  /** The position of a cell in the 64-element zigzag vector. */
  function Index(c: Cell): nat
    requires InGrid(c)
  {
    DiagonalStart(c.i + c.j) + Offset(c)
  }

  /** Every cell lies within its diagonal's range of positions. */
  lemma {:induction false} IndexRange(c: Cell)
    requires InGrid(c)
    ensures 0 <= Offset(c) < DiagonalLength(c.i + c.j)
    ensures DiagonalStart(c.i + c.j) <= Index(c) < DiagonalStart(c.i + c.j + 1)
    ensures Index(c) < 64
  {
    StartsIncrease(c.i + c.j, 15);
    LastStarts();
  }

  /** One step of the scan moves one cell further along the same diagonal, or from the
      diagonal's last cell to the first cell of the next one. */
  lemma {:induction false} StepOffset(c: Cell)
    requires InGrid(c) && c != Cell(7, 7)
    ensures InGrid(Step(c))
    ensures var d, n := c.i + c.j, Step(c);
      || (n.i + n.j == d && Offset(n) == Offset(c) + 1)
      || (n.i + n.j == d + 1 && Offset(c) == DiagonalLength(d) - 1 && Offset(n) == 0)
  {
    var d := c.i + c.j;
    var n := Step(c);
    UpDiagonalEven(d);
    UpDiagonalEven(d + 1);
    if d % 2 == 0 {
      if c.j == 7 {
        assert n == Cell(c.i + 1, 7) && (d + 1) % 2 == 1;
      } else if c.i == 0 {
        assert n == Cell(0, c.j + 1) && (d + 1) % 2 == 1;
      } else {
        assert n == Cell(c.i - 1, c.j + 1);
      }
    } else {
      if c.i == 7 {
        assert n == Cell(7, c.j + 1) && (d + 1) % 2 == 0;
      } else if c.j == 0 {
        assert n == Cell(c.i + 1, 0) && (d + 1) % 2 == 0;
      } else {
        assert n == Cell(c.i + 1, c.j - 1);
      }
    }
  }

  /** One step of the scan advances the position by exactly one, staying in the block,
      from every cell but the last. */
  lemma {:induction false} StepIndex(c: Cell)
    requires InGrid(c) && c != Cell(7, 7)
    ensures InGrid(Step(c))
    ensures Index(Step(c)) == Index(c) + 1
  {
    StepOffset(c);
    assert DiagonalStart(c.i + c.j + 1) == DiagonalStart(c.i + c.j) + DiagonalLength(c.i + c.j);
  }

  /** The last cell is at position 63, and the step after it leaves the block. */
  lemma {:induction false} LastCell()
    ensures Index(Cell(7, 7)) == 63 && Step(Cell(7, 7)) == Cell(8, 7)
  {
    LastStarts();
  }

  /** Every cell before position 63 has a successor in the block. */
  lemma {:induction false} NotLast(c: Cell)
    requires InGrid(c) && Index(c) < 63
    ensures c != Cell(7, 7)
  {
    LastCell();
  }

  /** After k < 64 moves the scan is in the block, at position k. */
  lemma {:induction false} WalkIndex(k: nat)
    requires k < 64
    ensures InGrid(Walk(k)) && Index(Walk(k)) == k
  {
    if k > 0 {
      var c := Walk(k - 1);
      WalkIndex(k - 1);
      NotLast(c);
      StepIndex(c);
      assert Walk(k) == Step(c);
    }
  }

  /** Distinct cells have distinct positions. */
  lemma {:induction false} IndexInjective(a: Cell, b: Cell)
    requires InGrid(a) && InGrid(b) && Index(a) == Index(b)
    ensures a == b
  {
    var da, db := a.i + a.j, b.i + b.j;
    if da < db {
      EarlierDiagonal(a, b);
    } else if db < da {
      EarlierDiagonal(b, a);
    } else {
      SameDiagonal(a, b);
    }
  }

  /** A cell on an earlier diagonal comes earlier in the scan. */
  lemma {:induction false} EarlierDiagonal(a: Cell, b: Cell)
    requires InGrid(a) && InGrid(b) && a.i + a.j < b.i + b.j
    ensures Index(a) < Index(b)
  {
    IndexBelow(a);
    IndexAbove(b);
    StartsIncrease(a.i + a.j, b.i + b.j);
  }

  lemma {:induction false} IndexBelow(c: Cell)
    requires InGrid(c)
    ensures Index(c) < DiagonalStart(c.i + c.j + 1)
  {
    IndexRange(c);
  }

  lemma {:induction false} IndexAbove(c: Cell)
    requires InGrid(c)
    ensures DiagonalStart(c.i + c.j) <= Index(c)
  {
  }

  /** On one diagonal the offset tells the cells apart. */
  lemma {:induction false} SameDiagonal(a: Cell, b: Cell)
    requires InGrid(a) && InGrid(b) && a.i + a.j == b.i + b.j && Offset(a) == Offset(b)
    ensures a == b
  {
    var d := a.i + a.j;
    if d < 8 {
      if UpDiagonal(d) { assert a.j == b.j; } else { assert a.i == b.i; }
    } else {
      if UpDiagonal(d) { assert a.i == b.i; } else { assert a.j == b.j; }
    }
  }

  /** The scan reaches every cell: the cell at position Index(c) is c. */
  lemma {:induction false} WalkOfIndex(c: Cell)
    requires InGrid(c)
    ensures Index(c) < 64 && Walk(Index(c)) == c
  {
    IndexRange(c);
    WalkIndex(Index(c));
    IndexInjective(Walk(Index(c)), c);
  }

  /** Distinct numbers of moves reach distinct cells. */
  lemma {:induction false} WalkDistinct(k: nat, m: nat)
    requires k < m < 64
    ensures Walk(k) != Walk(m)
  {
    WalkIndex(k);
    WalkIndex(m);
  }

  /** The scan reaches c within 63 moves. */
  ghost predicate Reached(c: Cell)
  {
    exists k: nat | k < 64 :: Walk(k) == c
  }

  /** Every cell of the block is reached within 63 moves. */
  lemma {:induction false} WalkCovers(c: Cell)
    requires InGrid(c)
    ensures Reached(c)
  {
    WalkOfIndex(c);
  }

  /** The scan visits each of the 64 cells exactly once. */
  lemma {:induction false} WalkIsPermutation()
    ensures forall k | 0 <= k < 64 :: InGrid(Walk(k))
    ensures forall k, m | 0 <= k < m < 64 :: Walk(k) != Walk(m)
    ensures forall c | InGrid(c) :: Reached(c)
  {
    forall k | 0 <= k < 64
      ensures InGrid(Walk(k))
    {
      WalkIndex(k);
    }
    forall k, m | 0 <= k < m < 64
      ensures Walk(k) != Walk(m)
    {
      WalkDistinct(k, m);
    }
    forall c | InGrid(c)
      ensures Reached(c)
    {
      WalkCovers(c);
    }
  }

  /** The scan starts at (0, 0), reaches (7, 7) after 63 moves, and its 64th move lands
      on (8, 7), outside the block, which the routine then no longer accesses. */
  lemma {:induction false} WalkEnds()
    ensures Walk(0) == Cell(0, 0) && Walk(63) == Cell(7, 7) && Walk(64) == Cell(8, 7)
  {
    LastCell();
    WalkOfIndex(Cell(7, 7));
  }

  // ---------------------------------------------------------------------------
  // The two directions on values

  type Block = b: seq<seq<int>> | |b| == 8 && forall r | 0 <= r < |b| :: |b[r]| == 8
    witness seq(8, _ => seq(8, _ => 0))

  function At(b: Block, c: Cell): int
    requires InGrid(c)
  {
    b[c.i][c.j]
  }

  /** `zigzag` with type 0: the vector of a block in scan order. */
  function Scan(b: Block): (v: seq<int>)
    ensures |v| == 64
  {
    seq(64, k requires 0 <= k < 64 => WalkInGrid(k); At(b, Walk(k)))
  }

  /** `zigzag` with type != 0: the block whose cell c holds element Index(c) of v. */
  function Unscan(v: seq<int>): Block
    requires |v| == 64
  {
    seq(8, r requires 0 <= r < 8 => seq(8, s requires 0 <= s < 8 => IndexRange(Cell(r, s)); v[Index(Cell(r, s))]))
  }

  lemma {:induction false} WalkInGrid(k: nat)
    requires k < 64
    ensures InGrid(Walk(k)) && Index(Walk(k)) == k
  {
    WalkIndex(k);
  }

  /** Restoring a scanned block gives the block back. */
  lemma {:induction false} UnscanScan(b: Block)
    ensures Unscan(Scan(b)) == b
  {
    var u := Unscan(Scan(b));
    forall r | 0 <= r < 8
      ensures u[r] == b[r]
    {
      forall s | 0 <= s < 8
        ensures u[r][s] == b[r][s]
      {
        WalkOfIndex(Cell(r, s));
      }
    }
  }

  /** Scanning a restored block gives the vector back. */
  lemma {:induction false} ScanUnscan(v: seq<int>)
    requires |v| == 64
    ensures Scan(Unscan(v)) == v
  {
    forall k | 0 <= k < 64
      ensures Scan(Unscan(v))[k] == v[k]
    {
      WalkInGrid(k);
    }
  }

  // ---------------------------------------------------------------------------
  // The routine on arrays

  ghost function Contents(block: array2<int>): Block
    requires block.Length0 == 8 && block.Length1 == 8
    reads block
  {
    seq(8, r requires 0 <= r < 8 reads block => seq(8, s requires 0 <= s < 8 reads block => block[r, s]))
  }

  /** `zigzag`: with kind 0 fill v with the block in scan order; otherwise fill the block
      from v. The other argument is left as it was. The kind does not change during
      the walk, so its test is made once, before the walk. */
  method Zigzag(block: array2<int>, v: array<int>, kind: int)
    requires block.Length0 == 8 && block.Length1 == 8 && v.Length == 64
    modifies block, v
    ensures kind == 0 ==> v[..] == Scan(old(Contents(block))) && Contents(block) == old(Contents(block))
    ensures kind != 0 ==> Contents(block) == Unscan(old(v[..])) && v[..] == old(v[..])
  {
    if kind == 0 {
      ScanInto(block, v);
    } else {
      UnscanFrom(block, v);
    }
  }

  /** The walk of `zigzag` with type 0: v[k] := block[i][j]. */
  method ScanInto(block: array2<int>, v: array<int>)
    requires block.Length0 == 8 && block.Length1 == 8 && v.Length == 64
    modifies v
    ensures v[..] == Scan(Contents(block))
  {
    ghost var b0 := Contents(block);
    ghost var sc := Scan(b0);
    var i, j := 0, 0;
    for k := 0 to 64
      invariant Cell(i, j) == Walk(k)
      invariant forall r, s | 0 <= r < 8 && 0 <= s < 8 :: block[r, s] == b0[r][s]
      invariant v[..k] == sc[..k]
    {
      ScanAt(b0, k);
      assert block[i, j] == sc[k];
      v[k] := block[i, j];
      assert v[..k + 1] == sc[..k] + [sc[k]] == sc[..k + 1];
      var next := Step(Cell(i, j));
      i, j := next.i, next.j;
    }
    assert v[..] == v[..64];
  }

  /** The walk of `zigzag` with another type: block[i][j] := v[k]. */
  method UnscanFrom(block: array2<int>, v: array<int>)
    requires block.Length0 == 8 && block.Length1 == 8 && v.Length == 64
    modifies block
    ensures Contents(block) == Unscan(v[..])
  {
    ghost var b0 := Contents(block);
    var i, j := 0, 0;
    for k := 0 to 64
      invariant Cell(i, j) == Walk(k)
      invariant forall r, s | 0 <= r < 8 && 0 <= s < 8 ::
                  block[r, s] == if Index(Cell(r, s)) < k then v[Index(Cell(r, s))] else b0[r][s]
    {
      WalkInGrid(k);
      block[i, j] := v[k];
      CellsAt(k);
      var next := Step(Cell(i, j));
      i, j := next.i, next.j;
    }
    ghost var u := Unscan(v[..]);
    forall r, s | 0 <= r < 8 && 0 <= s < 8
      ensures block[r, s] == u[r][s]
    {
      IndexRange(Cell(r, s));
    }
    ContentsEqual(block, u);
  }

  /** Element k of the scan is the block's value at the k-th cell of the walk. */
  lemma {:induction false} ScanAt(b: Block, k: nat)
    requires k < 64
    ensures InGrid(Walk(k)) && Scan(b)[k] == b[Walk(k).i][Walk(k).j]
    ensures Walk(k + 1) == Step(Walk(k))
  {
    WalkInGrid(k);
  }

  /** The only cell at position k is the k-th one the scan reaches. */
  lemma {:induction false} CellsAt(k: nat)
    requires k < 64
    ensures forall r, s | 0 <= r < 8 && 0 <= s < 8 && Index(Cell(r, s)) == k :: Cell(r, s) == Walk(k)
  {
    forall r, s | 0 <= r < 8 && 0 <= s < 8 && Index(Cell(r, s)) == k
      ensures Cell(r, s) == Walk(k)
    {
      WalkInGrid(k);
      IndexInjective(Cell(r, s), Walk(k));
    }
  }

  lemma {:induction false} ContentsEqual(block: array2<int>, b: Block)
    requires block.Length0 == 8 && block.Length1 == 8
    requires forall r, s | 0 <= r < 8 && 0 <= s < 8 :: block[r, s] == b[r][s]
    ensures Contents(block) == b
  {
    forall r | 0 <= r < 8
      ensures Contents(block)[r] == b[r]
    {
    }
  }
}
