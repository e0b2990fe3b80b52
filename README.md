# Parallel matrix multiplication: the work-distribution core

This project models the core of a small C program family that multiplies
two square `size × size` matrices, A and B, into C. Several worker processes
share one cursor, which names the next unit of work. A worker claims a unit
under a semaphore, then computes that part of C without holding any lock.
There are three granularities:

- **element**: one cell of C per unit. The cursor is a `(row, col)` pair
  advanced with a carry.
- **row**: one full row per unit. The cursor is a single integer.
- **block**: one `block_size × block_size` tile per unit. The cursor is a
  single linear block index, split into block coordinates `(b / nb, b % nb)`
  with `nb = size / block_size`.

A single-process triple loop serves as the baseline.

Every kernel zeroes a cell of C and then adds `A[i][k] * B[k][j]` for
`k < size`. The model keeps this behaviour in imperative Dafny:

- C, A and B are flat row-major `array<int>` buffers of length `size*size`.
  C is a different array from A and B.
- The kernels are methods with loops and `modifies C`.
- The cursors are classes whose `Claim` method reads the cursor and advances
  it. The semaphore makes a claim one atomic step, so here a claim is a
  single method call.

Concurrency is abstracted in two ways:

- Each `…Worker` method is the source's worker function (`compute_row`,
  `compute_element`, `compute_block`) run on its own from the cursor's
  current state.
- Each `Run…` method is a whole run with one or more workers. It claims
  units until the cursor is exhausted. It returns the claims, in claim order,
  and its contract states what they are. It then completes the claimed units
  in an arbitrary order `perm`, which is any permutation of the claims.

Units write disjoint parts of C and read only A and B. So the completion
order is the only thing a concurrent run can change. Every element run, every
row run, and every block run whose block size divides `size` is proved to
produce A×B whatever that order is. A block run whose block size does not
divide `size` leaves the uncovered cells as they were (see Findings).

Modules:

- `Matrix` (matrix.dfy): flat indexing, the reduction `Dot` and its textbook
  inner-product partner, the product `Product`, and the one-cell kernel
  shared by all strategies.
- `SharedCursor` (cursor.dfy): the single-integer cursor of the row and block
  programs, and the claim phase `ClaimUntil` that both programs run against it.
- `Rows` (rows.dfy): the row strategy. `compute_row` is the same text in
  version_1/parallelRowMult.c and version_2/parallelRowMult_v2.c, so one
  model covers both.
- `Elements` (elements.dfy): the element strategy and its carry cursor.
- `Blocks` (blocks.dfy): the block strategy and its partition argument.
- `Sequential` (sequential.dfy): `sequential_mult`. It is the same text in
  sequentialMult.c and version_2/sequentialMult_v2.c.
- `Coordinator` (coordinator.dfy): the process-count clamp, and the
  agreement of all strategies.

The innermost loop (zero the cell, then accumulate over `k`) is written once,
as `Matrix.ComputeCell`. The row, block and sequential kernels call it where
the C code repeats the same loop inline. The block kernel's two loops over the tile are the helper method
`Blocks.ComputeTile`, with its inner loop over `j` in `Blocks.ComputeTileRow`.

## Model

| member | source | states |
|---|---|---|
| `Matrix.Idx` | version_2/sequentialMult_v2.c:37-39 | the flat index `i*size+j` of an in-grid cell lies in `[0, size*size)`, so every write is in bounds |
| `Matrix.IdxInjective` | version_2/sequentialMult_v2.c:37-39 | two in-grid cells with the same flat index are the same cell, so each write hits its own cell |
| `Matrix.IdxDivMod` | version_2/sequentialMult_v2.c:37-39 | dividing the flat index of `(i, j)` by `size` gives back `i` as quotient and `j` as remainder |
| `Matrix.PositionIsCell` | sequentialMult.c:35-39 | every position below `size*size` is the flat index of the cell `(p / size, p % size)`, so the cells fill C completely |
| `Matrix.OtherCellsElsewhere` | parallelElementMult.c:57-59 | every in-grid cell other than `(i, j)` has a different in-bounds flat index |
| `Matrix.DotIsInnerProduct` | sequentialMult.c:38-39 | the kernels' accumulation over `k < n` equals the inner product of the first `n` entries of row `i` of A and column `j` of B |
| `Matrix.Dot` | sequentialMult.c:37-40 | reference definition: the sum over `k < n` of `A[i][k] * B[k][j]`, added in the order of the innermost loop; the kernels' contracts are stated with it, and `Matrix.DotIsInnerProduct` ties it to the textbook inner product |
| `Matrix.Cell` | sequentialMult.c:37-40 | reference definition: entry `(i, j)` of A×B, which is `Dot` over the full `k < size` |
| `Matrix.CellIsInnerProduct` | sequentialMult.c:37-40 | entry `(i, j)` of A×B is the inner product of row `i` of A and column `j` of B |
| `Matrix.ProductCell` | sequentialMult.c:34-43 | the product buffer holds entry `(i, j)` of A×B at position `i*size+j` |
| `Matrix.ProductFromCells` | sequentialMult.c:34-43 | a buffer that holds entry `(i, j)` of A×B at every cell is exactly the product buffer |
| `Matrix.ComputeCell` | parallelElementMult.c:57-60 | after the single-cell kernel, `C[row*size+col]` is the full sum over `k < size`; no other cell of C changes, and A and B are untouched |
| `SharedCursor.Cursor.constructor` | version_2/parallelRowMult_v2.c:78 | a fresh cursor starts at 0 |
| `SharedCursor.Cursor.Claim` | version_2/parallelBlockedMult.c:35-38 | a claim returns the cursor's current value and leaves it exactly one larger |
| `SharedCursor.ClaimUntil` | version_2/parallelRowMult_v2.c:33-42 | claiming from a fresh cursor until a claim reaches `limit` hands out exactly the units `0 .. limit-1`, once each, in increasing order |
| `Rows.ComputeRow` | version_2/parallelRowMult_v2.c:45-50 | after row `r` is processed, `C[r*size+j]` is the full inner product for every `j < size`; only positions `r*size .. r*size+size-1` change |
| `Rows.RowWorker` | version_1/parallelRowMult.c:39-59 | one worker claims rows until a claim reaches `size` and computes every row from the cursor's start value up to `size-1`; other rows keep their values; the cursor ends one past `max(start, size)`, so with `size == 0` nothing is written |
| `Rows.RunRows` | version_2/parallelRowMult_v2.c:31-51 | the returned claims are rows `0 .. size-1` in order; completing them in any permutation leaves C equal to A×B, whatever C held before |
| `Rows.RunRowWorkers` | version_1/parallelRowMult.c:90-96 | with one or more workers run one after another on a shared cursor, C ends as A×B and the cursor at `size + workers`: every extra worker makes one past-the-end claim and writes nothing; with no worker, C is unchanged |
| `Elements.Advance` | parallelElementMult.c:43-46 | reference definition of one cursor step: the column goes up by one and wraps to 0 into the next row once it reaches `size`; `Elements.AdvanceStep` and `Elements.AdvanceCounts` state its meaning |
| `Elements.Iterate` | parallelElementMult.c:39-46 | reference definition: the cursor after `t` claims from `(0, 0)`; `Elements.IterateIsPosition` gives its closed form |
| `Elements.AdvanceStep` | parallelElementMult.c:43-46 | for `size > 0` and a column in `[0, size)`, a step keeps the column in `[0, size)` and moves `row*size+col` forward by exactly one |
| `Elements.AdvanceCounts` | parallelElementMult.c:43-46 | a step takes the cursor from `(t / size, t % size)` to `((t+1) / size, (t+1) % size)` |
| `Elements.IterateIsPosition` | parallelElementMult.c:39-46 | after `t` claims from `(0, 0)`, the cursor is at `(t / size, t % size)` (at `(t, 0)` when `size == 0`) |
| `Elements.ClaimOrder` | parallelElementMult.c:39-51 | claim number `t` yields a row below `size` exactly when `t < size*size`, and then it yields the cell at row-major position `t` |
| `Elements.EveryCellClaimed` | parallelElementMult.c:39-46 | every in-grid cell `(i, j)` is returned by claim number `i*size+j` |
| `Elements.ExhaustedStaysExhausted` | parallelElementMult.c:43-51 | once a claim returns a row `>= size`, every later claim does too |
| `Elements.ElementCursor.constructor` | parallelElementMult.c:81-82 | the cursor starts at `(0, 0)` with no claims made |
| `Elements.ElementCursor.Claim` | parallelElementMult.c:36-46 | a claim returns the current `(row, col)`, advances the column with a carry into the row at `size`, and keeps the cursor at the position given by the number of claims |
| `Elements.ElementWorker` | parallelElementMult.c:31-62 | one worker claims cells until a claim's row reaches `size` and computes every cell from the cursor's position on; other cells keep their values |
| `Elements.ClaimCells` | parallelElementMult.c:34-54 | claiming from a fresh cursor until a claim's row reaches `size` yields exactly `size*size` claims; claim `t` is the cursor after `t` steps, and claim `i*size+j` is cell `(i, j)` |
| `Elements.CompleteCells` | parallelElementMult.c:56-60 | computing the claimed cells in any permutation leaves C equal to A×B |
| `Elements.RunElements` | parallelElementMult.c:34-61 | the returned claims are the `size*size` cells, with claim `i*size+j` being cell `(i, j)`; completing them in any permutation leaves C equal to A×B |
| `Blocks.BlocksPerSide` | version_2/parallelBlockedMult.c:41 | reference definition: `nb = size / block_size`, rounded down |
| `Blocks.BlockCount` | version_2/parallelBlockedMult.c:41 | reference definition: the exhaustion bound `nb*nb`; `Blocks.NoBlocksWhenOversized` states when it is 0 |
| `Blocks.NoBlocksWhenOversized` | version_2/parallelBlockedMult.c:41 | there are no blocks exactly when `block_size > size`, so such a run writes nothing |
| `Blocks.BlockCoords` | version_2/parallelBlockedMult.c:44-45 | for `b < nb*nb`, both `b / nb` and `b % nb` lie in `[0, nb)` |
| `Blocks.BlockCoordsInjective` | version_2/parallelBlockedMult.c:44-45 | distinct block indices below `nb*nb` give distinct coordinate pairs |
| `Blocks.BlockCoordsSurjective` | version_2/parallelBlockedMult.c:44-45 | every pair in the `nb × nb` block grid is the pair of block index `bi*nb+bj` |
| `Blocks.TileInGrid` | version_2/parallelBlockedMult.c:48-49 | a tile's rows or columns `[bk*block_size, (bk+1)*block_size)` lie inside `[0, size)`, also when `block_size` does not divide `size` |
| `Blocks.Covered` | version_2/parallelBlockedMult.c:41-49 | reference definition of the square the blocks tile: rows and columns below `nb*block_size` |
| `Blocks.CoveredInGrid` | version_2/parallelBlockedMult.c:41-49 | every covered cell lies inside the `size × size` grid |
| `Blocks.InBlock` | version_2/parallelBlockedMult.c:48-49 | reference definition of the cells block `b` writes: rows `[bi*block_size, (bi+1)*block_size)` and columns `[bj*block_size, (bj+1)*block_size)`; `Blocks.BlockPartition` states its meaning |
| `Blocks.BlockOf` | version_2/parallelBlockedMult.c:44-49 | a cell of the covered square belongs to a block index below `nb*nb` |
| `Blocks.BlockPartition` | version_2/parallelBlockedMult.c:41-55 | block `b` writes cell `(i, j)` exactly when the cell is covered and `b` is its block, so tiles are disjoint and cover the square below `nb*block_size` |
| `Blocks.BlockRegion` | version_2/parallelBlockedMult.c:48-55 | the partition statement for every cell of the grid at once |
| `Blocks.UncoveredNeverWritten` | version_2/parallelBlockedMult.c:41-55 | a cell outside the covered square is written by no block |
| `Blocks.LastCellUncovered` | version_2/parallelBlockedMult.c:41 | when `size % block_size != 0`, the grid is non-empty and its last cell `(size-1, size-1)` is outside the covered square |
| `Blocks.DivisibleCoversGrid` | version_2/parallelBlockedMult.c:41 | when `block_size` divides `size`, every cell of the grid is covered |
| `Blocks.ComputeBlock` | version_2/parallelBlockedMult.c:44-55 | after block `b` is processed, every cell of its tile is the full sum over `k < size`; no other cell of C changes |
| `Blocks.TileOfBlock` | version_2/parallelBlockedMult.c:44-49 | the tile of any block below `nb*nb` ends at or before `size` in both directions, so the tile loops stay inside C |
| `Blocks.ComputeTile` | version_2/parallelBlockedMult.c:48-55 | the two tile loops compute every cell of rows `[i0, i1)` × columns `[j0, j1)` and change no other cell |
| `Blocks.ComputeTileRow` | version_2/parallelBlockedMult.c:49-54 | the tile's inner loop computes cells `(i, j)` for `j0 <= j < j1` and changes no other cell |
| `Blocks.BlockWorker` | version_2/parallelBlockedMult.c:31-57 | one worker claims blocks until a claim reaches `nb*nb` and computes every covered cell whose block is at or past the cursor's start value; other cells keep their values |
| `Blocks.RunBlocks` | version_2/parallelBlockedMult.c:31-57 | the returned claims are blocks `0 .. nb*nb-1` in order; completing them in any permutation makes every covered cell equal to A×B, and every uncovered cell keeps its old value |
| `Blocks.BlockedMult` | version_2/parallelBlockedMult.c:60-67 | the block run with an argument check: it accepts exactly `block_size > 0` with `size % block_size == 0`, and then C equals A×B; a rejected run leaves C unchanged |
| `Sequential.SequentialMult` | sequentialMult.c:34-43 | on return C equals A×B whatever C held before, since each cell is zeroed before accumulating; A and B are unchanged; loop invariant: rows before `i` are final and later rows are untouched |
| `Coordinator.ProcessCount` | version_2/parallelBlockedMult.c:74 | the process count is the requested count capped at the core count, that is `min(requested, cores)` |
| `Coordinator.StrategiesAgree` | version_2/sequentialMult_v2.c:34-43 | the sequential baseline and the row, element and (with a dividing block size) block strategies produce the same C, cell for cell |

## Left out

- Process creation and joining, the named semaphore and the shared-memory mappings are left out. The model does not include `fork`, `wait`, `sem_open`/`sem_wait`/`sem_post`/`sem_unlink` or `mmap`/`munmap`. A claim is one atomic method call. An interleaving is represented by the order in which claimed units complete.
- Floating-point `double` arithmetic is not modelled. Entries are mathematical integers, so every sum is exact and rounding is ignored.
- 32-bit `int` overflow is not modelled, either of `size*size` or of a cursor after very many claims. Sizes and cursors are unbounded naturals.
- `populate` is left out because it calls `rand()`. A and B are arbitrary inputs instead.
- `save_matrix_to_file`, `printm`, the console messages, `gettimeofday` timing, `atoi` argument parsing and `sysconf` core detection are I/O and are left out. The detected core count is a parameter of `Coordinator.ProcessCount`.
- compare_matrices.py is not part of this model. It parses text files and compares floats with a tolerance. `Coordinator.StrategiesAgree` states the exact-arithmetic version of that comparison.
- Rows.RunRowWorkers: a negative process count from `atoi` makes the C fork loop run zero times. The model takes a natural `workers`, so that case is the same as `workers == 0`.
- Blocks.BlockWorker, Blocks.ComputeBlock: a zero block size makes the C code divide by zero. This is a precondition (`blockSize > 0`) of the as-written block members. `Blocks.BlockedMult` rejects it instead.
- Rows.RunRows, Elements.RunElements, Blocks.RunBlocks: these cover runs with one or more workers. With zero workers (`num_processes <= 0`, or a clamp that gives 0), no worker runs and C keeps its zero-filled contents. Only `Rows.RunRowWorkers` models that case.
- Blocks.BlockedMult, Blocks.RunBlocks, Blocks.BlockWorker, Blocks.ComputeBlock: sizes are naturals here, but `atoi` can return negatives. With a negative `size` and a positive `block_size` (for example `size = -4`, `block_size = 2`), C's truncating division gives `nb = -2` and 4 blocks. Block 0 then writes `C[1*(-4)+0]`, which is out of bounds. With a positive `size` and a negative `block_size` (for example `size = 4`, `block_size = -2`), there are 4 claims, but every tile loop is empty, so nothing is written and no error is reported. `Blocks.BlockedMult` accepts exactly the positive block sizes that divide `size`, among natural inputs only.
- Sequential.SequentialMult, Rows.RowWorker, Elements.ElementWorker: a negative `size` from `atoi` behaves like `size == 0` in these kernels. The loops do not run, and the first claim already meets its exit test, so nothing is written. The model takes `size` as a natural.
- A cursor shared by several processes that claim and compute at the same time is not modelled step by step. `Run…` claims everything first and then completes the units. The same final C follows for any schedule, because units write disjoint cells and read only A and B. The model does not prove that argument itself.

## Findings

| source | as written | input that shows it | evidently intended | confidence | as-written member | corrected member |
|---|---|---|---|---|---|---|
| version_2/parallelBlockedMult.c:41-55 | the number of blocks is `(size/block_size)²` with truncating division, and nothing checks that `block_size` divides `size`, so rows and columns at or past `(size/block_size)*block_size` are never computed | `size = 3`, `block_size = 2`: one block covers the cells `(0..1, 0..1)`, and row 2 and column 2 of C keep their initial contents | reject a `block_size` that does not divide `size` before any work is handed out, so an accepted run yields A×B | medium, not executed | `Blocks.LastCellUncovered` | `Blocks.BlockedMult` |
