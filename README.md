# LDPC code construction: a Dafny model

This project models three sequential pieces of a small LDPC (low-density
parity-check) toolkit and proves what each of them promises.

- **The `Matrix` type** (`Matrix.h`) is a dense grid of byte cells with
  `width` and `height` fields. Its constructor zero-fills the grid, and
  `print` writes it row by row as text.
- **`genRegLDPCEasy`** (`GenParityCheck.cpp`) builds a regular parity-check
  matrix with `width` columns and `wc * width / wr` rows. The rows form
  `wc` blocks of `width / wr` rows each. Every block gets exactly one 1 per
  column, a diagonal of 1s at cells `(r, r)`, and no row goes over `wr`.
  The model proves that every column has weight `wc`, every row has weight
  `wr`, and the whole diagonal is set.
- **The `LDPC` coder state** (`LDPC.h`, `LDPC.cpp`):
  - `setMatrices` stores the generator matrix transposed and a copy of the
    parity-check matrix `h`.
  - It then rebuilds `checkNodeEdges`, the check-node side of the Tanner
    graph of `h`. For each row, that is the ascending list of the columns
    holding a nonzero cell.
  - `encode` multiplies a message by the generator over GF(2). It sends
    each product bit as a soft value: bit 1 becomes -1 and bit 0 becomes +1.

The files are:

- `matrix.dfy` (module `Matrices`): the grid invariant, zero fill, the
  `Matrix` class, the text form and its parser, transpose and the GF(2)
  product.
- `weights.dfy` (module `Weights`): row and column weights, counters and
  the pigeonhole lemmas on them.
- `gen_parity_check.dfy` (module `GenParityCheck`): the construction. The
  three column loops of a block are methods of their own (`PlaceColumns`,
  used for both sampling loops, and `PlaceDiagonal`). The `rowCount` reset
  loop stays inside `FillBlock`, which models one pass of the `rowPart`
  loop, and the `rowPart` loop stays inside `GenRegLdpcEasy`. The per-block
  bookkeeping is stated by the predicate `Filling`, and the state between
  passes by the predicate `Stacked`.
- `ldpc.dfy` (module `Ldpc`): the `LdpcCoder` class with `SetMatrices` and
  `Encode`, and the lemmas about adjacency lists.

The source draws a row with `rand()` and draws again while that row is full.
The model replaces the draw with a nondeterministic choice (`:|`) of any row
that still has room. The lemma `RoomExists` proves such a row always exists,
so every run of the source that returns is one of the runs the model
describes.

Cells are `Byte` (0..255), because the source stores `unsigned char`.
Dimensions are `nat`. The soft values `-1.0` and `+1.0` are the integers -1
and +1.

## Model

| member | source | states |
|---|---|---|
| Matrices.ZeroFill | Matrix.h:22-29 | the grid has `height` rows of `width` cells, and every cell is 0 |
| Matrices.Matrix.constructor | Matrix.h:17-30 | the `width` and `height` fields are the arguments; `m` has `height` rows of `width` cells, all 0 |
| Matrices.Matrix.Copy | LDPC.cpp:10-13 | the by-value copy has the same width, height and cells as its source matrix |
| Matrices.Matrix.SetDim | GenParityCheck.cpp:26-28 | the matrix gets the new shape with every cell 0, whatever it held before |
| Matrices.Transposed | LDPC.cpp:11 | the transpose of a `width`-wide grid with `h` rows is an `h`-wide grid with `width` rows |
| Matrices.TransposeInvolution | LDPC.cpp:11 | transposing twice gives back the original grid |
| Matrices.Matrix.Transpose | LDPC.cpp:11 | width and height swap, and cell `(i, j)` of the result is cell `(j, i)` of the old grid |
| Matrices.Matrix.Print | Matrix.h:33-43 | the output is exactly the text form of `m`: row by row, each cell's decimal value followed by a space, each row ended by a newline; nothing in the matrix changes |
| Matrices.Decimal | Matrix.h:39 | a cell is written as one or more decimal digits, with no leading zero |
| Matrices.DecimalRoundTrip | Matrix.h:39 | reading the written digits back gives the cell's value |
| Matrices.TextLineCount | Matrix.h:35-42 | the printed text has exactly one newline per row, so `height` lines |
| Matrices.ParseLineOfLine | Matrix.h:37-40 | parsing one printed line gives back that row's cells, in order |
| Matrices.PrintRoundTrip | Matrix.h:35-42 | parsing the printed text gives back exactly the printed rows: print loses nothing |
| Weights.RoomExists | GenParityCheck.cpp:48-50 | counters that sum to less than `n * cap` leave some row below `cap`, so the re-draw loop always has a row it accepts |
| Weights.AllAtBound | GenParityCheck.cpp:64-73 | counters that are each at most `wr` and sum to `n * wr` are all exactly `wr` |
| Weights.ColCountOfBlocks | GenParityCheck.cpp:30-33 | stacking blocks that each have one 1 in a column gives that column one 1 per block |
| GenParityCheck.ShapeFacts | GenParityCheck.cpp:24-37 | with `wr` dividing `width` and no more rows than columns, a block has `width / wr` rows and `wc` blocks fill the `wc * width / wr` rows exactly |
| GenParityCheck.RowsAtMostColumns | GenParityCheck.cpp:24-27 | with `wr` dividing `width`, the height `wc * width / wr` is at most `width` exactly when `wc <= wr` or `width == 0` |
| GenParityCheck.BlockBounds | GenParityCheck.cpp:33-61 | block `rowPart` lies inside the rows, and the `rowPart * numRows` columns before its diagonal block fit in its rows below the cap `wr - 1` |
| GenParityCheck.Place | GenParityCheck.cpp:52-53 | the cell being set was still 0, rows outside the block are untouched, and `rowCount[choice]` still counts the 1s in block row `choice` |
| GenParityCheck.PlaceColumns | GenParityCheck.cpp:44-73 | the two sampling loops (lines 44-54 with `cap == wr - 1`, lines 64-73 with `cap == wr`): every column in range gets exactly one 1, in a block row still below `cap`, and no row goes over `cap`; before the diagonal this leaves every row room for its diagonal 1 |
| GenParityCheck.PlaceDiagonal | GenParityCheck.cpp:57-61 | column `col` of the diagonal block gets its 1 in row `col`, the columns placed before it keep their rows, and each block row's count rises to at most `wr` |
| GenParityCheck.BlockComplete | GenParityCheck.cpp:37-73 | when the block has placed `width = wr * numRows` ones, every block row has exactly `wr` ones, 0/1 cells and its diagonal 1, and every column has exactly one 1 in the block |
| GenParityCheck.FillBlock | GenParityCheck.cpp:35-73 | one `rowPart` pass writes only rows `rowPart * numRows .. (rowPart + 1) * numRows - 1`; it gives each a weight of `wr` and its diagonal 1, and each column exactly one 1 in the block |
| GenParityCheck.StackBlock | GenParityCheck.cpp:33-74 | after each pass the finished rows are the blocks stacked in order, and the rows not yet reached are still 0 |
| GenParityCheck.StackedComplete | GenParityCheck.cpp:30-33 | once all rows are reached, the matrix is exactly the stacked blocks, and every column has one 1 per block |
| GenParityCheck.GenRegLdpcEasy | GenParityCheck.cpp:20-75 | the result is `width` wide and `wc * width / wr` high, stacks `wc` blocks with one 1 per column each, has column weight `wc` and row weight `wr`, holds only 0/1 cells, and has `m[r][r] == 1` for every row |
| GenParityCheck.RejectionNeverEnds | GenParityCheck.cpp:44-50 | for a nonempty matrix and a block `rowPart >= wr` (which exists when `wc > wr`): in the state where the counters are as high as the cap `wr - 1` allows, every row is at `wr - 1`, so every draw is rejected, and fewer than the `rowPart * numRows` columns of the loop have been placed |
| Ldpc.NonzeroColumnsSpec | LDPC.cpp:18-26 | a check node lists column `c` iff `c` is nonzero in its row; the list is strictly ascending, every entry is below the width, and its length is the row weight |
| Ldpc.IncreasingUnique | LDPC.cpp:22-25 | two strictly ascending lists with the same members are equal |
| Ldpc.NonzeroColumnsUnique | LDPC.cpp:18-26 | any strictly ascending list of exactly the nonzero columns is the check-node list, so the list depends on the row alone |
| Ldpc.EdgeCountIsCellCount | LDPC.cpp:18-27 | the check-node lists hold one entry per nonzero cell of `h`, in total |
| Ldpc.LdpcCoder.constructor | LDPC.h:16-21 | a fresh coder has empty matrices and no check nodes |
| Ldpc.LdpcCoder.SetMatrices | LDPC.cpp:7-28 | the stored generator is a fresh transposed copy of `g`, and the stored `h` is a fresh copy equal to the argument; `checkNodeEdges` has `h.height` lists; `col` is in list `row` iff `h.m[row][col] != 0`; each list is strictly ascending with the row's weight as its length; in total there is one entry per set cell; earlier lists are discarded |
| Ldpc.LdpcCoder.BuildTannerGraph | LDPC.cpp:16-27 | after the resize and the row loop, each list is the check-node list of its row of `h`, whatever the lists held before |
| Ldpc.LdpcCoder.FillCheckNode | LDPC.cpp:20-26 | clearing list `row` and appending its nonzero columns in order leaves exactly that row's check-node list there, and changes no other list |
| Ldpc.LdpcCoder.Encode | LDPC.cpp:33-50 | one soft value per product row; it is -1 iff the GF(2) product bit is 1 and +1 iff it is 0; taking the hard decision on the output gives back the product |

## Left out

- test.cpp and autogenmat.cpp are not part of this model. They are the Monte-Carlo harness and the command-line tool: argument parsing, file output, `rand()`, and floating-point error rates.
- Belief-propagation decoding, AWGN noise and SNR arithmetic are not modelled. Their bodies are not defined anywhere in this source snapshot, and they are floating-point numerics.
- `transpose`, `binaryMult` and `setDim` are called but not defined anywhere in this source snapshot (`Matrix.h` does not declare them). Each one is the smallest definition its callers and comments require:
  - `Transposed` moves cell `(i, j)` to `(j, i)`.
  - `BinaryMult` gives one bit per row: the row's dot product with the message, mod 2. The source returns a `height x 1` matrix and reads column 0; the model returns that column as a sequence.
  - `SetDim` sets the shape and zeroes every cell, as the comment at GenParityCheck.cpp:26 says.
- `load` is not modelled. It is only called from test.cpp.
- `rand()` is replaced by a choice of any row with room. The model does not give the distribution of the matrices produced, and it does not bound how many re-draws a call takes.
- GenRegLdpcEasy: requires `wr >= 1` and no more rows than columns (`wc * width / wr <= width`), which the source does not check. By `RowsAtMostColumns` the second condition is `wc <= wr` or `width == 0`, so the empty matrix is allowed for every `wc`. With `wr == 0` the source's own `width % wr` divides by zero. For `width > 0` and `wc > wr` the source does not return. `RejectionNeverEnds` proves the counting step of that argument: once every row of block `wr` is at `wr - 1`, no draw is accepted while columns remain. That the loop reaches that state is argued in its comment, not proved.
- GenRegLdpcEasy: dimensions are `nat`. The 32-bit `unsigned int` product `wc * width` can wrap around in the source, and the model does not capture that.
- Encode: requires the message length to be the generator's width. What `binaryMult` does on a length mismatch is not defined anywhere in this source snapshot.
- Ldpc.LdpcCoder.constructor: `Matrix.h` has no default constructor, although `LDPC.h:16-17` declares two `Matrix` members. The model starts the coder with two 0 x 0 matrices.
- Matrices.Matrix.Print: the `ostream` is replaced by the returned string. The flush done by `endl` is not modelled. Each line is built before it is appended; the text is the same as writing cell by cell.
- The usage text of autogenmat.cpp gives the height as `N * wr / wc`. The code at GenParityCheck.cpp:27 computes `wc * width / wr`, and the model follows the code.
