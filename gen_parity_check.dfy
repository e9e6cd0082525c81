/** The regular LDPC parity-check construction `genRegLDPCEasy`
    (GenParityCheck.cpp). The `wc * width / wr` rows are split into `wc`
    blocks of `width / wr` rows; every block receives exactly one 1 per
    column, a diagonal of 1s at cells (r, r), and at most `wr` ones per row.
    The source picks each row with `rand()`, re-drawing while the drawn row
    is already full; here the draw is any row that still has room, and the
    proofs show that such a row always exists. */
module GenParityCheck {
  import opened Matrices
  import opened Weights

  // ----- arithmetic on the shape --------------------------------------------

  lemma MulMono(a: int, b: int, n: nat)
    requires a <= b
    ensures a * n <= b * n
  {
    assert b * n == a * n + (b - a) * n;
  }

  lemma DivCancel(a: nat, b: nat)
    requires b > 0
    ensures (a * b) / b == a
  {
    var q := (a * b) / b;
    var r := (a * b) % b;
    assert a * b == q * b + r;
    assert (a - q) * b == r;
    ZeroFactor(a - q, b);
  }

  lemma ZeroFactor(d: int, b: nat)
    requires b > 0 && 0 <= d * b < b
    ensures d == 0
  {
    if d >= 1 {
      MulMono(1, d, b);
    } else if d <= -1 {
      MulMono(d, -1, b);
    }
  }

  /** With `wr | width` and no more rows than columns: a block has
      `width / wr` rows, and there are `wc` of them in the `wc * width / wr`
      rows. */
  lemma ShapeFacts(wc: nat, wr: nat, width: nat)
    requires wr >= 1 && width % wr == 0 && wc * width / wr <= width
    ensures (width / wr) * wr == width
    ensures wc * width / wr == wc * (width / wr)
    ensures wc * (width / wr) <= width
  {
    var n := width / wr;
    assert width == n * wr;
    assert wc * width == (wc * n) * wr;
    DivCancel(wc * n, wr);
  }

  /** The matrix has no more rows than columns exactly when `wc <= wr` or
      the matrix is empty. */
  lemma {:induction false} RowsAtMostColumns(wc: nat, wr: nat, width: nat)
    requires wr >= 1 && width % wr == 0
    ensures wc * width / wr <= width <==> wc <= wr || width == 0
  {
    var n := width / wr;
    assert width == n * wr;
    assert wc * width == (wc * n) * wr;
    DivCancel(wc * n, wr);
    if wc <= wr {
      MulMono(wc, wr, n);
    } else if width > 0 {
      MulMono(wr + 1, wc, n);
      assert (wr + 1) * n == width + n;
    }
  }

  /** With no more rows (`wc * n`) than columns (`n * wr`): block `rowPart`
      lies inside the rows, and the columns before its diagonal block fit in
      its `n` rows below the cap `wr - 1`. */
  lemma BlockBounds(wc: nat, wr: nat, n: nat, rowPart: nat)
    requires wr >= 1 && rowPart < wc && wc * n <= n * wr
    ensures (rowPart + 1) * n == rowPart * n + n
    ensures rowPart * n + n <= wc * n
    ensures rowPart * n <= n * (wr - 1)
  {
    MulMono(rowPart + 1, wc, n);
    assert n * wr == n * (wr - 1) + n;
  }

  /** Why a nonempty matrix needs `wc <= wr` (no more rows than columns),
      although the source only asserts `width % wr == 0`. With `wc > wr` the block `rowPart == wr`
      exists; its first sampling loop (GenParityCheck.cpp:44) has
      `rowPart * n` columns to place (`n == width / wr`) in `n` rows of
      capacity `wr - 1`. In a block, the counters sum to the number of
      columns placed so far (see `Filling`). This lemma takes the state in
      which every counter is as high as the cap lets the sum go: then every
      counter is at `wr - 1`, so `while (rowCount[choice] >= wr - 1)`
      rejects every draw, while fewer than `rowPart * n` columns have been
      placed. That the loop gets to this state is not proved here. */
  lemma RejectionNeverEnds(wr: nat, width: nat, rowPart: nat, rowCount: seq<nat>)
    requires wr >= 1 && width % wr == 0 && width > 0 && rowPart >= wr
    requires |rowCount| == width / wr
    requires forall i :: 0 <= i < |rowCount| ==> rowCount[i] <= wr - 1
    requires Sum(rowCount) == |rowCount| * (wr - 1)
    ensures Sum(rowCount) < rowPart * |rowCount|
    ensures forall i :: 0 <= i < |rowCount| ==> rowCount[i] >= wr - 1
  {
    var n := width / wr;
    assert width == n * wr;
    assert n * (wr - 1) == wr * n - n;
    MulMono(wr, rowPart, n);
    AllAtBound(rowCount, wr - 1);
  }

  // ----- one block -------------------------------------------------------------

  /** The state while a block is being filled: rows outside the block are as
      they were (`m0`); inside the block, column `c < |sel|` has its single 1
      in block row `sel[c]` and the remaining columns are still 0;
      `rowCount[i]` is the number of 1s placed in block row `i`. */
  ghost predicate Filling(rows: seq<seq<Byte>>, m0: seq<seq<Byte>>, base: nat, n: nat,
                          width: nat, sel: seq<nat>, rowCount: seq<nat>)
  {
    && |rows| == |m0| && base + n <= |rows|
    && Rectangular(rows, width, |rows|)
    && rows[..base] == m0[..base] && rows[base + n..] == m0[base + n..]
    && |sel| <= width
    && (forall c :: 0 <= c < |sel| ==> sel[c] < n)
    && (forall r, c {:trigger rows[r][c]} :: base <= r < base + n && 0 <= c < width ==>
          rows[r][c] == if c < |sel| && base + sel[c] == r then 1 else 0)
    && |rowCount| == n
    && (forall i :: 0 <= i < n ==> rowCount[i] == Count(sel, i))
    && Sum(rowCount) == |sel|
  }

  /** Placing the next column's 1 in block row `choice` (the statements
      `mat.m[base + choice][col] = 1; rowCount[choice]++`) keeps the
      bookkeeping exact: the cell was 0, nothing outside the block changes,
      and the placed count grows by one. */
  lemma {:induction false} Place(rows: seq<seq<Byte>>, m0: seq<seq<Byte>>, base: nat, n: nat,
                                 width: nat, sel: seq<nat>, rowCount: seq<nat>, choice: nat)
    requires Filling(rows, m0, base, n, width, sel, rowCount)
    requires |sel| < width && choice < n
    ensures rows[base + choice][|sel|] == 0
    ensures Filling(rows[base + choice := rows[base + choice][|sel| := 1]], m0, base, n, width,
                    sel + [choice], rowCount[choice := rowCount[choice] + 1])
  {
    var r := base + choice;
    var rows' := rows[r := rows[r][|sel| := 1]];
    var sel' := sel + [choice];
    var rowCount' := rowCount[choice := rowCount[choice] + 1];
    CountSnoc(sel, choice);
    SumIncrement(rowCount, choice);
    assert rows'[..base] == rows[..base];
    assert rows'[base + n..] == rows[base + n..];
    assert Rectangular(rows', width, |rows'|);
    assert forall c :: 0 <= c < |sel'| ==> sel'[c] < n;
    assert forall i :: 0 <= i < n ==> rowCount'[i] == Count(sel', i);
    assert Sum(rowCount') == |sel'|;
    assert forall r, c :: base <= r < base + n && 0 <= c < width ==>
          rows'[r][c] == if c < |sel'| && base + sel'[c] == r then 1 else 0;
    assert rows[base + choice][|sel|] == 0;
    assert Filling(rows', m0, base, n, width, sel', rowCount');
  }

  /** A finished block: all `width = n * wr` columns placed, no row over
      `wr`, the diagonal in place. Then every block row has weight exactly
      `wr`, 0/1 cells and its diagonal 1, and every column has exactly one
      1 in the block. */
  lemma BlockComplete(rows: seq<seq<Byte>>, m0: seq<seq<Byte>>, base: nat, n: nat,
                      width: nat, wr: nat, sel: seq<nat>, rowCount: seq<nat>, block: seq<seq<Byte>>)
    requires Filling(rows, m0, base, n, width, sel, rowCount)
    requires block == rows[base..base + n]
    requires |sel| == width == n * wr && base + n <= width
    requires forall i :: 0 <= i < n ==> rowCount[i] <= wr
    requires forall c :: base <= c < base + n ==> sel[c] == c - base
    ensures forall r :: base <= r < base + n ==>
      RowWeight(rows[r]) == wr && rows[r][r] == 1 && forall c :: 0 <= c < width ==> rows[r][c] <= 1
    ensures forall c :: 0 <= c < width ==> ColCount(block, c) == 1
  {
    AllAtBound(rowCount, wr);
    forall r | base <= r < base + n
      ensures RowWeight(rows[r]) == wr
    {
      RowWeightOfSelection(rows[r], sel, r - base);
    }
    forall c | 0 <= c < width
      ensures ColCount(block, c) == 1
    {
      ColCountSingle(block, c, sel[c]);
    }
  }

  /** One of the two rejection-sampling loops of a block: columns
      `from .. to - 1` each get their 1 in a block row whose count is still
      below `cap` (`wr - 1` before the diagonal block, `wr` after it). The
      source draws `rand() % numRows` until it hits such a row; here any such
      row may be taken, and one always exists because the block still has
      fewer than `n * cap` ones. */
  method PlaceColumns(mat: Matrix, ghost m0: seq<seq<Byte>>, base: nat, n: nat, width: nat,
                      from: nat, to: nat, cap: nat, rowCount: seq<nat>, ghost sel: seq<nat>)
    returns (rowCount': seq<nat>, ghost sel': seq<nat>)
    requires Filling(mat.m, m0, base, n, width, sel, rowCount) && |sel| == from
    requires from <= to <= width && to <= n * cap
    requires forall i :: 0 <= i < n ==> rowCount[i] <= cap
    modifies mat`m
    ensures Filling(mat.m, m0, base, n, width, sel', rowCount') && |sel'| == to
    ensures sel'[..from] == sel
    ensures forall i :: 0 <= i < n ==> rowCount'[i] <= cap
  {
    rowCount', sel' := rowCount, sel;
    for col := from to to
      invariant Filling(mat.m, m0, base, n, width, sel', rowCount') && |sel'| == col
      invariant sel'[..from] == sel
      invariant forall i :: 0 <= i < n ==> rowCount'[i] <= cap
    {
      RoomExists(rowCount', cap);
      var choice :| 0 <= choice < n && rowCount'[choice] < cap;
      Place(mat.m, m0, base, n, width, sel', rowCount', choice);
      mat.m := mat.m[base + choice := mat.m[base + choice][col := 1]];
      rowCount' := rowCount'[choice := rowCount'[choice] + 1];
      sel' := sel' + [choice];
    }
  }

  /** The diagonal loop of a block: column `col` in `base .. base + n - 1`
      gets its 1 in row `col` itself, which is block row `col - base`. */
  method PlaceDiagonal(mat: Matrix, ghost m0: seq<seq<Byte>>, base: nat, n: nat, width: nat, wr: nat,
                       rowCount: seq<nat>, ghost sel: seq<nat>)
    returns (rowCount': seq<nat>, ghost sel': seq<nat>)
    requires Filling(mat.m, m0, base, n, width, sel, rowCount) && |sel| == base
    requires base + n <= width && wr >= 1
    requires forall i :: 0 <= i < n ==> rowCount[i] <= wr - 1
    modifies mat`m
    ensures Filling(mat.m, m0, base, n, width, sel', rowCount') && |sel'| == base + n
    ensures sel'[..base] == sel
    ensures forall c :: base <= c < base + n ==> sel'[c] == c - base
    ensures forall i :: 0 <= i < n ==> rowCount'[i] <= wr
  {
    rowCount', sel' := rowCount, sel;
    for col := base to base + n
      invariant Filling(mat.m, m0, base, n, width, sel', rowCount') && |sel'| == col
      invariant sel'[..base] == sel
      invariant forall c :: base <= c < col ==> sel'[c] == c - base
      invariant forall i :: 0 <= i < n ==> rowCount'[i] <= if i < col - base then wr else wr - 1
    {
      Place(mat.m, m0, base, n, width, sel', rowCount', col - base);
      assert (sel' + [col - base])[..base] == sel'[..base];
      mat.m := mat.m[col := mat.m[col][col := 1]];
      rowCount' := rowCount'[col - base := rowCount'[col - base] + 1];
      sel' := sel' + [col - base];
    }
  }

  /** The body of the `rowPart` loop: fills rows `base .. base + numRows - 1`
      (`base == rowPart * numRows`), first the columns before the diagonal
      block leaving every row room for its diagonal 1, then the diagonal
      block, then the remaining columns. */
  method FillBlock(mat: Matrix, wr: nat, width: nat, numRows: nat, rowPart: nat, base: nat)
    returns (ghost block: seq<seq<Byte>>)
    requires mat.Valid() && mat.width == width
    requires wr >= 1 && numRows * wr == width && base <= numRows * (wr - 1)
    requires base == rowPart * numRows
    requires base + numRows <= mat.height && base + numRows <= width
    requires forall r, c :: base <= r < base + numRows && 0 <= c < width ==> mat.m[r][c] == 0
    modifies mat`m
    ensures mat.Valid()
    ensures mat.m[..base] == old(mat.m)[..base]
    ensures mat.m[base + numRows..] == old(mat.m)[base + numRows..]
    ensures forall r :: base <= r < base + numRows ==>
      RowWeight(mat.m[r]) == wr && mat.m[r][r] == 1 && forall c :: 0 <= c < width ==> mat.m[r][c] <= 1
    ensures block == mat.m[base..base + numRows]
    ensures forall c :: 0 <= c < width ==> ColCount(block, c) == 1
  {
    var n := numRows;
    ghost var m0 := mat.m;

    var rowCount: seq<nat> := [];
    for i := 0 to n
      invariant |rowCount| == i && Sum(rowCount) == 0
      invariant forall k :: 0 <= k < i ==> rowCount[k] == 0
    {
      assert (rowCount + [0])[..i] == rowCount;
      rowCount := rowCount + [0];
    }

    // Columns before the diagonal block; a row may take at most wr - 1 here.
    ghost var sel: seq<nat>;
    rowCount, sel := PlaceColumns(mat, m0, base, n, width, 0, base, wr - 1, rowCount, []);

    // The diagonal block: column col gets its 1 in row col.
    rowCount, sel := PlaceDiagonal(mat, m0, base, n, width, wr, rowCount, sel);

    // Columns after the diagonal block; a row may now take up to wr.
    ghost var diag := sel;
    rowCount, sel := PlaceColumns(mat, m0, base, n, width, base + n, width, wr, rowCount, sel);
    assert forall c :: base <= c < base + n ==> sel[c] == diag[c];

    // The block placed exactly width = n * wr ones, so every row is full.
    block := mat.m[base..base + n];
    BlockComplete(mat.m, m0, base, n, width, wr, sel, rowCount, block);
  }

  // ----- the whole construction ----------------------------------------------

  /** The state after the first `|blocks|` blocks: rows `0 .. base - 1` are
      those blocks stacked, each block holding one 1 per column and each of
      its rows weight `wr`, 0/1 cells and its diagonal 1; the remaining rows
      are still zero. */
  ghost predicate Stacked(rows: seq<seq<Byte>>, blocks: seq<seq<seq<Byte>>>, base: nat, n: nat,
                          height: nat, width: nat, wr: nat)
  {
    && Rectangular(rows, width, height) && base <= height <= width
    && (forall b :: 0 <= b < |blocks| ==> |blocks[b]| == n)
    && (forall b, c :: 0 <= b < |blocks| && 0 <= c < width ==> ColCount(blocks[b], c) == 1)
    && rows[..base] == Flatten(blocks)
    && (forall r, c :: base <= r < height && 0 <= c < width ==> rows[r][c] == 0)
    && (forall r :: 0 <= r < base ==>
          RowWeight(rows[r]) == wr && rows[r][r] == 1 && forall c :: 0 <= c < width ==> rows[r][c] <= 1)
  }

  /** Appending a block that FillBlock has just filled. */
  lemma StackBlock(before: seq<seq<Byte>>, after: seq<seq<Byte>>, blocks: seq<seq<seq<Byte>>>,
                   block: seq<seq<Byte>>, base: nat, n: nat, height: nat, width: nat, wr: nat)
    requires Stacked(before, blocks, base, n, height, width, wr) && base + n <= height
    requires Rectangular(after, width, height)
    requires after[..base] == before[..base] && after[base + n..] == before[base + n..]
    requires forall r :: base <= r < base + n ==>
      RowWeight(after[r]) == wr && after[r][r] == 1 && forall c :: 0 <= c < width ==> after[r][c] <= 1
    requires block == after[base..base + n]
    requires forall c :: 0 <= c < width ==> ColCount(block, c) == 1
    ensures Stacked(after, blocks + [block], base + n, n, height, width, wr)
  {
    assert (blocks + [block])[..|blocks|] == blocks;
    assert after[..base + n] == after[..base] + block;
    forall r | base + n <= r < height
      ensures after[r] == before[r]
    {
      assert after[base + n..][r - base - n] == before[base + n..][r - base - n];
    }
    forall r | 0 <= r < base
      ensures after[r] == before[r]
    {
      assert after[..base][r] == before[..base][r];
    }
  }

  /** Once every row is reached, the rows are exactly the stacked blocks,
      and every column has one 1 per block. */
  lemma StackedComplete(rows: seq<seq<Byte>>, blocks: seq<seq<seq<Byte>>>, n: nat,
                        height: nat, width: nat, wr: nat)
    requires Stacked(rows, blocks, height, n, height, width, wr)
    ensures rows == Flatten(blocks)
    ensures forall c :: 0 <= c < width ==> ColCount(rows, c) == |blocks|
  {
    assert rows[..height] == rows;
    forall c | 0 <= c < width
      ensures ColCount(rows, c) == |blocks|
    {
      ColCountOfBlocks(blocks, c);
    }
  }

  /** `genRegLDPCEasy(wc, wr, width, mat)`: on return `mat` is a
      `width`-wide, `wc * width / wr`-high 0/1 matrix that stacks `wc` blocks
      of `width / wr` rows, each block holding exactly one 1 per column; so
      every column has weight `wc`, every row has weight `wr`, and every
      cell (r, r) is 1. */
  method GenRegLdpcEasy(wc: nat, wr: nat, width: nat, mat: Matrix)
    returns (ghost blocks: seq<seq<seq<Byte>>>)
    requires wr >= 1 && width % wr == 0 && wc * width / wr <= width
    modifies mat
    ensures mat.Valid() && mat.width == width && mat.height == wc * width / wr
    ensures |blocks| == wc && mat.m == Flatten(blocks)
    ensures forall b :: 0 <= b < wc ==> |blocks[b]| == width / wr
    ensures forall b, c :: 0 <= b < wc && 0 <= c < width ==> ColCount(blocks[b], c) == 1
    ensures forall c :: 0 <= c < width ==> ColCount(mat.m, c) == wc
    ensures forall r :: 0 <= r < mat.height ==> RowWeight(mat.m[r]) == wr
    ensures forall r :: 0 <= r < mat.height ==> r < width && mat.m[r][r] == 1
    ensures forall r, c :: 0 <= r < mat.height && 0 <= c < width ==> mat.m[r][c] <= 1
  {
    var height := wc * width / wr;
    ShapeFacts(wc, wr, width);
    mat.SetDim(width, height);

    var numRows := width / wr;
    blocks := [];
    for rowPart := 0 to wc
      invariant mat.width == width && mat.height == height
      invariant |blocks| == rowPart
      invariant rowPart * numRows <= height
      invariant Stacked(mat.m, blocks, rowPart * numRows, numRows, height, width, wr)
    {
      var base := rowPart * numRows;
      BlockBounds(wc, wr, numRows, rowPart);
      ghost var before := mat.m;
      ghost var block := FillBlock(mat, wr, width, numRows, rowPart, base);
      StackBlock(before, mat.m, blocks, block, base, numRows, height, width, wr);
      blocks := blocks + [block];
    }
    StackedComplete(mat.m, blocks, numRows, height, width, wr);
  }
}
