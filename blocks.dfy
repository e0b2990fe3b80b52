/** Block granularity: one unit of work is a `blockSize × blockSize` tile of
    C. The shared cursor is a single linear block index, which the worker
    splits into block coordinates, as in `compute_block`. */
module Blocks {
  import opened Matrix
  import SharedCursor

  /** Blocks along one side of the grid: size / blockSize, rounded down. */
  function BlocksPerSide(size: nat, blockSize: nat): nat
    requires blockSize > 0
  {
    size / blockSize
  }

  /** The number of units; a worker stops at the first claim at or past it. */
  function BlockCount(size: nat, blockSize: nat): nat
    requires blockSize > 0
  {
    BlocksPerSide(size, blockSize) * BlocksPerSide(size, blockSize)
  }

  /** Coordinates (b / nb, b % nb) of linear block b in the nb × nb block grid. */
  function BlockCoords(b: nat, nb: nat): (c: (nat, nat))
    requires b < nb * nb
    ensures c.0 < nb && c.1 < nb
  {
    PositionIsCell(nb, b);
    (b / nb, b % nb)
  }

  /** Distinct linear indices below nb² give distinct block coordinates. */
  lemma BlockCoordsInjective(b: nat, b': nat, nb: nat)
    requires b < nb * nb && b' < nb * nb
    requires BlockCoords(b, nb) == BlockCoords(b', nb)
    ensures b == b'
  {
    PositionIsCell(nb, b);
    PositionIsCell(nb, b');
  }

  /** Every block of the nb × nb grid is reached, by linear index bi * nb + bj. */
  lemma BlockCoordsSurjective(bi: nat, bj: nat, nb: nat)
    requires bi < nb && bj < nb
    ensures BlockCoords(Idx(nb, bi, bj), nb) == (bi, bj)
  {
    IdxDivMod(nb, bi, bj);
  }

  /** Floor division places i in the interval [q * d, (q + 1) * d) of its quotient. */
  lemma FloorInterval(i: nat, d: nat, q: nat)
    requires d > 0
    ensures q * d <= i < (q + 1) * d <==> i / d == q
  {
    if q * d <= i < (q + 1) * d {
      DivModUnique(i, d, q, i - q * d);
    }
  }

  /** A coordinate below n * d lies in one of the first n intervals of width d. */
  lemma QuotientBelow(i: nat, d: nat, n: nat)
    requires d > 0 && i < n * d
    ensures i / d < n
  {
    if i / d >= n {
      MulMonotonic(n, i / d, d);
    }
  }

  /** A tile's rows (or columns) [bk * blockSize, (bk + 1) * blockSize) lie
      inside [0, size), even when blockSize does not divide size. */
  lemma TileInGrid(size: nat, blockSize: nat, bk: nat)
    requires blockSize > 0 && bk < BlocksPerSide(size, blockSize)
    ensures (bk + 1) * blockSize <= BlocksPerSide(size, blockSize) * blockSize <= size
  {
    MulMonotonic(bk + 1, BlocksPerSide(size, blockSize), blockSize);
  }

  /** Cell (i, j) lies in the square the blocks tile: rows and columns
      below BlocksPerSide * blockSize. */
  predicate Covered(size: nat, blockSize: nat, i: nat, j: nat)
    requires blockSize > 0
  {
    var edge := BlocksPerSide(size, blockSize) * blockSize;
    i < edge && j < edge
  }

  /** The covered square lies inside the grid. */
  lemma CoveredInGrid(size: nat, blockSize: nat, i: nat, j: nat)
    requires blockSize > 0 && Covered(size, blockSize, i, j)
    ensures i < size && j < size
  {
    assert BlocksPerSide(size, blockSize) * blockSize <= size;
  }

  /** There is no block at all exactly when the block size exceeds the matrix
      size; a run then writes nothing. */
  lemma NoBlocksWhenOversized(size: nat, blockSize: nat)
    requires blockSize > 0
    ensures BlockCount(size, blockSize) == 0 <==> size < blockSize
  {
    var nb := BlocksPerSide(size, blockSize);
    if nb > 0 {
      MulMonotonic(1, nb, nb);
    }
  }

  /** The block that holds a covered cell. */
  function BlockOf(size: nat, blockSize: nat, i: nat, j: nat): (b: nat)
    requires blockSize > 0 && Covered(size, blockSize, i, j)
    ensures b < BlockCount(size, blockSize)
  {
    var nb := BlocksPerSide(size, blockSize);
    QuotientBelow(i, blockSize, nb);
    QuotientBelow(j, blockSize, nb);
    Idx(nb, i / blockSize, j / blockSize)
  }

  /** Cell (i, j) is one of the cells block b writes. */
  predicate InBlock(size: nat, blockSize: nat, b: nat, i: nat, j: nat)
    requires blockSize > 0 && b < BlockCount(size, blockSize)
  {
    var c := BlockCoords(b, BlocksPerSide(size, blockSize));
    c.0 * blockSize <= i < (c.0 + 1) * blockSize && c.1 * blockSize <= j < (c.1 + 1) * blockSize
  }

  /** The partition: a cell is written by block b exactly when it is covered
      and b is its block. So blocks are pairwise disjoint and together cover
      the square below BlocksPerSide * blockSize. */
  lemma BlockPartition(size: nat, blockSize: nat, b: nat, i: nat, j: nat)
    requires blockSize > 0 && b < BlockCount(size, blockSize)
    ensures InBlock(size, blockSize, b, i, j) <==>
              Covered(size, blockSize, i, j) && BlockOf(size, blockSize, i, j) == b
  {
    var nb := BlocksPerSide(size, blockSize);
    var c := BlockCoords(b, nb);
    PositionIsCell(nb, b);
    FloorInterval(i, blockSize, c.0);
    FloorInterval(j, blockSize, c.1);
    if InBlock(size, blockSize, b, i, j) {
      TileInGrid(size, blockSize, c.0);
      TileInGrid(size, blockSize, c.1);
    }
    if Covered(size, blockSize, i, j) && BlockOf(size, blockSize, i, j) == b {
      QuotientBelow(i, blockSize, nb);
      QuotientBelow(j, blockSize, nb);
      IdxInjective(nb, i / blockSize, j / blockSize, c.0, c.1);
    }
  }

  /** The partition, for every cell of the grid at once. */
  lemma BlockRegion(size: nat, blockSize: nat, b: nat)
    requires blockSize > 0 && b < BlockCount(size, blockSize)
    ensures forall i: nat, j: nat :: i < size && j < size ==>
              (InBlock(size, blockSize, b, i, j) <==>
                 Covered(size, blockSize, i, j) && BlockOf(size, blockSize, i, j) == b)
  {
    forall i: nat, j: nat | i < size && j < size
      ensures InBlock(size, blockSize, b, i, j) <==>
                Covered(size, blockSize, i, j) && BlockOf(size, blockSize, i, j) == b
    {
      BlockPartition(size, blockSize, b, i, j);
    }
  }

  /** When blockSize divides size, the blocks cover the whole grid. */
  lemma DivisibleCoversGrid(size: nat, blockSize: nat, i: nat, j: nat)
    requires blockSize > 0 && size % blockSize == 0 && i < size && j < size
    ensures Covered(size, blockSize, i, j)
  {
  }

  /** A cell outside the covered square belongs to no block, so no worker
      ever writes it. */
  lemma UncoveredNeverWritten(size: nat, blockSize: nat, i: nat, j: nat)
    requires blockSize > 0 && !Covered(size, blockSize, i, j)
    ensures forall b: nat :: b < BlockCount(size, blockSize) ==> !InBlock(size, blockSize, b, i, j)
  {
    forall b: nat | b < BlockCount(size, blockSize)
      ensures !InBlock(size, blockSize, b, i, j)
    {
      BlockPartition(size, blockSize, b, i, j);
    }
  }

  /** When blockSize does not divide size, the last cell (size-1, size-1) of
      a non-empty grid lies outside the covered square. */
  lemma LastCellUncovered(size: nat, blockSize: nat)
    requires blockSize > 0 && size % blockSize != 0
    ensures size > 0 && !Covered(size, blockSize, size - 1, size - 1)
  {
  }

  /** The tile kernel: split b into (bi, bj) and compute every cell of rows
      [bi * blockSize, (bi + 1) * blockSize) and columns
      [bj * blockSize, (bj + 1) * blockSize), each over the full k < size.
      No cell outside the tile changes. */
  method ComputeBlock(size: nat, blockSize: nat, A: array<int>, B: array<int>, C: array<int>, b: nat)
    requires Shape(size, A, B, C) && blockSize > 0 && b < BlockCount(size, blockSize)
    modifies C
    ensures forall i: nat, j: nat :: i < size && j < size ==>
              C[Idx(size, i, j)] == if InBlock(size, blockSize, b, i, j) then Cell(A[..], B[..], size, i, j)
                                    else old(C[Idx(size, i, j)])
  {
    var c := BlockCoords(b, size / blockSize);
    TileOfBlock(size, blockSize, b);
    ComputeTile(size, A, B, C, c.0 * blockSize, (c.0 + 1) * blockSize, c.1 * blockSize, (c.1 + 1) * blockSize);
  }

  /** Block b's tile lies inside the grid. */
  lemma TileOfBlock(size: nat, blockSize: nat, b: nat)
    requires blockSize > 0 && b < BlockCount(size, blockSize)
    ensures var c := BlockCoords(b, BlocksPerSide(size, blockSize));
            (c.0 + 1) * blockSize <= size && (c.1 + 1) * blockSize <= size
  {
    var c := BlockCoords(b, BlocksPerSide(size, blockSize));
    TileInGrid(size, blockSize, c.0);
    TileInGrid(size, blockSize, c.1);
  }

  /** The tile loops: every cell of rows [i0, i1) and columns [j0, j1) is
      computed, and no other cell changes. */
  method ComputeTile(size: nat, A: array<int>, B: array<int>, C: array<int>, i0: nat, i1: nat, j0: nat, j1: nat)
    requires Shape(size, A, B, C) && i0 <= i1 <= size && j0 <= j1 <= size
    modifies C
    ensures forall i: nat, j: nat :: i < size && j < size ==>
              C[Idx(size, i, j)] == if i0 <= i < i1 && j0 <= j < j1 then Cell(A[..], B[..], size, i, j)
                                    else old(C[Idx(size, i, j)])
  {
    for i := i0 to i1
      invariant forall i': nat, j': nat :: i' < size && j' < size ==>
                  C[Idx(size, i', j')] == if i0 <= i' < i && j0 <= j' < j1
                                          then Cell(A[..], B[..], size, i', j')
                                          else old(C[Idx(size, i', j')])
    {
      ComputeTileRow(size, A, B, C, i, j0, j1);
    }
  }

  /** The inner loop of the tile kernel: cells (i, j) for j0 <= j < j1. */
  method ComputeTileRow(size: nat, A: array<int>, B: array<int>, C: array<int>, i: nat, j0: nat, j1: nat)
    requires Shape(size, A, B, C) && i < size && j0 <= j1 <= size
    modifies C
    ensures forall i': nat, j': nat :: i' < size && j' < size ==>
              C[Idx(size, i', j')] == if i' == i && j0 <= j' < j1 then Cell(A[..], B[..], size, i', j')
                                      else old(C[Idx(size, i', j')])
  {
    for j := j0 to j1
      invariant forall i': nat, j': nat :: i' < size && j' < size ==>
                  C[Idx(size, i', j')] == if i' == i && j0 <= j' < j then Cell(A[..], B[..], size, i', j')
                                          else old(C[Idx(size, i', j')])
    {
      ComputeCell(size, A, B, C, i, j);
    }
  }

  /** `compute_block` run by one worker from whatever index the shared cursor
      holds: it claims blocks until a claim reaches BlockCount, computing each
      claimed tile. Cells outside the covered square are never written. */
  method BlockWorker(size: nat, blockSize: nat, A: array<int>, B: array<int>, C: array<int>, cursor: SharedCursor.Cursor)
    requires Shape(size, A, B, C) && blockSize > 0
    modifies C, cursor
    ensures cursor.next == (if old(cursor.next) < BlockCount(size, blockSize) then BlockCount(size, blockSize)
                            else old(cursor.next)) + 1
    ensures forall i: nat, j: nat :: i < size && j < size ==>
              C[Idx(size, i, j)] == if Covered(size, blockSize, i, j) && old(cursor.next) <= BlockOf(size, blockSize, i, j)
                                    then Cell(A[..], B[..], size, i, j)
                                    else old(C[Idx(size, i, j)])
  {
    while true
      invariant old(cursor.next) <= cursor.next
      invariant old(cursor.next) < cursor.next ==> cursor.next <= BlockCount(size, blockSize)
      invariant forall i: nat, j: nat :: i < size && j < size ==>
                  C[Idx(size, i, j)] == if Covered(size, blockSize, i, j) &&
                                           old(cursor.next) <= BlockOf(size, blockSize, i, j) < cursor.next
                                        then Cell(A[..], B[..], size, i, j)
                                        else old(C[Idx(size, i, j)])
      decreases BlockCount(size, blockSize) - cursor.next
    {
      var block := cursor.Claim();
      if block >= BlockCount(size, blockSize) {
        break;
      }
      BlockRegion(size, blockSize, block);
      ComputeBlock(size, blockSize, A, B, C, block);
    }
  }

  /** A whole run with one or more workers, as the program does it: no
      check that blockSize divides size. The cursor hands out blocks
      0, 1, ... until it is exhausted (`claimed` lists them in claim order),
      and the claimed blocks are then completed in an arbitrary order
      `perm`. Every covered cell ends up as in A×B; every other cell keeps
      what C held before. */
  method RunBlocks(size: nat, blockSize: nat, A: array<int>, B: array<int>, C: array<int>, perm: seq<nat>)
    returns (claimed: seq<nat>)
    requires Shape(size, A, B, C) && blockSize > 0
    requires IsPermutation(perm, BlockCount(size, blockSize))
    modifies C
    ensures |claimed| == BlockCount(size, blockSize)
    ensures forall t :: 0 <= t < |claimed| ==> claimed[t] == t
    ensures forall i: nat, j: nat :: i < size && j < size ==>
              C[Idx(size, i, j)] == if Covered(size, blockSize, i, j) then Cell(A[..], B[..], size, i, j)
                                    else old(C[Idx(size, i, j)])
  {
    var count := BlockCount(size, blockSize);
    claimed := SharedCursor.ClaimUntil(count);
    for t := 0 to count
      invariant forall i: nat, j: nat :: i < size && j < size ==>
                  C[Idx(size, i, j)] == if Covered(size, blockSize, i, j) && BlockOf(size, blockSize, i, j) in perm[..t]
                                        then Cell(A[..], B[..], size, i, j)
                                        else old(C[Idx(size, i, j)])
    {
      var block := claimed[perm[t]];
      BlockRegion(size, blockSize, block);
      ComputeBlock(size, blockSize, A, B, C, block);
      assert perm[..t + 1] == perm[..t] + [block];
    }
    assert perm[..count] == perm;
  }

  /** The block run with the argument check the program lacks: a block size
      that is zero or does not divide size is rejected before any work is
      handed out, and an accepted run leaves C equal to A×B. */
  method BlockedMult(size: nat, blockSize: nat, A: array<int>, B: array<int>, C: array<int>, perm: seq<nat>)
    returns (ok: bool)
    requires Shape(size, A, B, C)
    requires blockSize > 0 ==> IsPermutation(perm, BlockCount(size, blockSize))
    modifies C
    ensures ok <==> blockSize > 0 && size % blockSize == 0
    ensures ok ==> C[..] == Product(A[..], B[..], size)
    ensures !ok ==> C[..] == old(C[..])
  {
    ok := blockSize > 0 && size % blockSize == 0;
    if !ok {
      return;
    }
    var claimed := RunBlocks(size, blockSize, A, B, C, perm);
    forall i: nat, j: nat | i < size && j < size
      ensures C[Idx(size, i, j)] == Cell(A[..], B[..], size, i, j)
    {
      DivisibleCoversGrid(size, blockSize, i, j);
    }
    ProductFromCells(C[..], A[..], B[..], size);
  }
}
